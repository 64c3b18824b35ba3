/**
 * `LatexIngestor.pre_processar_texto` and `LatexIngestor._limpar_comando_latex`:
 * comment stripping with whitespace normalisation, and the formatting-command
 * stripper applied to captured title and author text. Each regular expression
 * of the original is a hand-written scanner for that one pattern.
 */
module Preprocessor {
  import opened Strings

  // ===========================================================================
  // Preprocessing: re.sub(r'(?<!\\)%.*', '', s), then the whitespace collapse

  /** The suffix that starts at the first newline (or is empty): what is left
      after `.*` consumes the rest of a line. */
  function SkipLine(s: string): (r: string)
    ensures |r| <= |s| && r == s[|s| - |r|..]
    ensures r == [] || r[0] == '\n'
    ensures '\n' !in s[..|s| - |r|]
    ensures s != [] && s[0] != '\n' ==> |r| < |s|
  {
    if s == [] || s[0] == '\n' then s else SkipLine(s[1..])
  }

  /** Comment removal from the current position on; `afterBackslash` says
      whether the character just before it (in the original text) is `\`,
      which is what the look-behind `(?<!\\)` inspects. */
  function StripFrom(s: string, afterBackslash: bool): string
    decreases |s|
  {
    if s == [] then []
    else if s[0] == '%' && !afterBackslash then StripFrom(SkipLine(s), false)
    else [s[0]] + StripFrom(s[1..], s[0] == '\\')
  }

  function StripComments(s: string): string {
    StripFrom(s, false)
  }

  /** `pre_processar_texto`. */
  function Preprocess(source: string): string {
    Collapse(StripComments(source))
  }

  /** Every `%` is escaped: preceded by `\`, or first when the text
      follows a backslash. */
  predicate PercentsEscaped(s: string, afterBackslash: bool) {
    && (s != [] && s[0] == '%' ==> afterBackslash)
    && forall i :: 0 < i < |s| && s[i] == '%' ==> s[i - 1] == '\\'
  }

  lemma EscapedCons(c: char, s: string, b: bool)
    requires c == '%' ==> b
    requires PercentsEscaped(s, c == '\\')
    ensures PercentsEscaped([c] + s, b)
  {
    var t := [c] + s;
    forall i | 0 < i < |t| && t[i] == '%' ensures t[i - 1] == '\\' {
      assert t[i] == s[i - 1];
      if i > 1 {
        assert t[i - 1] == s[i - 2];
      }
    }
  }

  lemma EscapedSuffix(s: string, b: bool, k: nat)
    requires PercentsEscaped(s, b) && 0 < k <= |s|
    ensures PercentsEscaped(s[k..], s[k - 1] == '\\')
  {
    var t := s[k..];
    forall i | 0 <= i < |t| && t[i] == '%' ensures if i == 0 then s[k - 1] == '\\' else t[i - 1] == '\\' {
      assert t[i] == s[k + i];
      if i > 0 {
        assert t[i - 1] == s[k + i - 1];
      }
    }
  }

  lemma EscapedPrefix(s: string, b: bool, k: nat)
    requires PercentsEscaped(s, b) && k <= |s|
    ensures PercentsEscaped(s[..k], b)
  {
    var t := s[..k];
    forall i | 0 < i < |t| && t[i] == '%' ensures t[i - 1] == '\\' {
      assert t[i] == s[i] && t[i - 1] == s[i - 1];
    }
  }

  /** After comment removal every surviving `%` is escaped. */
  lemma {:induction false} StripEscapesAll(s: string, b: bool)
    ensures PercentsEscaped(StripFrom(s, b), b)
    decreases |s|
  {
    if s == [] {
    } else if s[0] == '%' && !b {
      StripEscapesAll(SkipLine(s), false);
    } else {
      StripEscapesAll(s[1..], s[0] == '\\');
      EscapedCons(s[0], StripFrom(s[1..], s[0] == '\\'), b);
    }
  }

  /** Text whose every `%` is escaped has no comment to remove. */
  lemma {:induction false} StripFixesEscaped(s: string, b: bool)
    requires PercentsEscaped(s, b)
    ensures StripFrom(s, b) == s
    decreases |s|
  {
    if s != [] {
      assert s[0] == '%' ==> b;
      EscapedSuffix(s, b, 1);
      StripFixesEscaped(s[1..], s[0] == '\\');
    }
  }

  /** Comment removal is idempotent. */
  lemma StripCommentsIdempotent(s: string)
    ensures StripComments(StripComments(s)) == StripComments(s)
  {
    StripEscapesAll(s, false);
    StripFixesEscaped(StripComments(s), false);
  }

  /** Comment removal never deletes a newline: `.` stops at the end of the line. */
  lemma {:induction false} StripKeepsNewlines(s: string, b: bool)
    ensures multiset(StripFrom(s, b))['\n'] == multiset(s)['\n']
    ensures |StripFrom(s, b)| <= |s|
    decreases |s|
  {
    if s == [] {
    } else if s[0] == '%' && !b {
      var r := SkipLine(s);
      StripKeepsNewlines(r, false);
      SkippedLineNewlines(s);
    } else {
      var t := s[1..];
      StripKeepsNewlines(t, s[0] == '\\');
      assert s == [s[0]] + t;
      ConsNewlines(s[0], StripFrom(t, s[0] == '\\'), t);
    }
  }

  /** The part of a line that `.*` consumes holds no newline. */
  lemma SkippedLineNewlines(s: string)
    ensures multiset(SkipLine(s))['\n'] == multiset(s)['\n']
  {
    var r := SkipLine(s);
    var line := s[..|s| - |r|];
    assert s == line + r;
    assert multiset(line)['\n'] == 0;
  }

  /** Putting the same character in front of two texts keeps their newline
      counts equal. */
  lemma ConsNewlines(c: char, u: string, t: string)
    requires multiset(u)['\n'] == multiset(t)['\n']
    ensures multiset([c] + u)['\n'] == multiset([c] + t)['\n']
  {
  }

  /** Text without `%` passes through comment removal unchanged, whatever precedes it. */
  lemma {:induction false} StripPlain(s: string, b: bool)
    requires '%' !in s
    ensures StripFrom(s, b) == s
    decreases |s|
  {
    if s != [] {
      StripPlain(s[1..], s[0] == '\\');
    }
  }

  /** An unescaped `%` and the rest of its line disappear, the newline itself
      stays: `plain + "%" + line + rest` becomes `plain + rest` when `plain`
      holds no `%` and does not end in `\`, `line` holds no newline and `rest`
      starts a new line. */
  lemma {:induction false} CommentLineRemoved(plain: string, line: string, rest: string)
    requires '%' !in plain && (plain == [] || plain[|plain| - 1] != '\\')
    requires '\n' !in line && (rest == [] || rest[0] == '\n')
    ensures StripComments(plain + "%" + line + rest) == plain + StripComments(rest)
  {
    var comment := "%" + line;
    var x := comment + rest;
    assert plain + "%" + line + rest == plain + x;
    StripAppend(plain, x, false);
    assert StripFrom(plain + x, false) == plain + StripFrom(x, false);
    SkipLineOver(comment, rest);
    assert x[0] == '%';
    assert StripFrom(x, false) == StripFrom(rest, false);
  }

  lemma {:induction false} SkipLineOver(a: string, rest: string)
    requires '\n' !in a && (rest == [] || rest[0] == '\n')
    ensures SkipLine(a + rest) == rest
    decreases |a|
  {
    if a != [] {
      assert (a + rest)[1..] == a[1..] + rest;
      SkipLineOver(a[1..], rest);
    } else {
      assert a + rest == rest;
    }
  }

  /** Scanning across a `%`-free prefix copies it and hands on whether it
      ended in a backslash. */
  lemma {:induction false} StripAppend(plain: string, rest: string, b: bool)
    requires '%' !in plain
    ensures StripFrom(plain + rest, b)
         == plain + StripFrom(rest, if plain == [] then b else plain[|plain| - 1] == '\\')
    decreases |plain|
  {
    if plain == [] {
      assert plain + rest == rest;
    } else {
      assert (plain + rest)[1..] == plain[1..] + rest;
      StripAppend(plain[1..], rest, plain[0] == '\\');
    }
  }

  /** The whitespace collapse keeps every `%` escaped. */
  lemma {:induction false} SquashKeepsEscaped(s: string, b: bool)
    requires PercentsEscaped(s, b)
    ensures PercentsEscaped(SquashSpaces(s), b)
    decreases |s|
  {
    if s == [] {
    } else if IsSpace(s[0]) {
      var d := DropSpaces(s);
      DropSpacesSuffix(s);
      if d != [] {
        EscapedSuffix(s, b, |s| - |d|);
      }
      SquashKeepsEscaped(d, false);
      EscapedCons(' ', SquashSpaces(d), b);
    } else {
      EscapedSuffix(s, b, 1);
      SquashKeepsEscaped(s[1..], s[0] == '\\');
      EscapedCons(s[0], SquashSpaces(s[1..]), b);
    }
  }

  lemma CollapseKeepsEscaped(s: string)
    requires PercentsEscaped(s, false)
    ensures PercentsEscaped(Collapse(s), false)
  {
    SquashKeepsEscaped(s, false);
    var q := SquashSpaces(s);
    var d := DropSpaces(q);
    DropSpacesSuffix(q);
    if d != [] && |d| < |q| {
      EscapedSuffix(q, false, |q| - |d|);
    }
    EscapedPrefix(d, false, |TrimEnd(d)|);
  }

  /** The preprocessed text is normalised (so it holds no newline) and
      every `%` left in it is escaped. */
  lemma PreprocessNormalForm(source: string)
    ensures Normalized(Preprocess(source))
    ensures '\n' !in Preprocess(source)
    ensures PercentsEscaped(Preprocess(source), false)
  {
    CollapseNormalized(StripComments(source));
    NormalizedNoNewline(Preprocess(source));
    StripEscapesAll(source, false);
    CollapseKeepsEscaped(StripComments(source));
  }

  /** Preprocessing twice is preprocessing once. */
  lemma PreprocessIdempotent(source: string)
    ensures Preprocess(Preprocess(source)) == Preprocess(source)
  {
    var p := Preprocess(source);
    PreprocessNormalForm(source);
    StripFixesEscaped(p, false);
    CollapseFixesNormalized(p);
  }

  lemma NormalizedNoNewline(s: string)
    requires Normalized(s)
    ensures '\n' !in s
  {
    if '\n' in s {
      var i :| 0 <= i < |s| && s[i] == '\n';
      assert IsSpace(s[i]);
    }
  }

  // ===========================================================================
  // The formatting-command stripper (`_limpar_comando_latex`)

  const AuthorBlock: string := "\\IEEEauthorblock"

  /** re.sub(r'\\IEEEauthorblock[NA]\{', '', s): one pass over both variants. */
  function RemoveAuthorBlocks(s: string): string
    decreases |s|
  {
    if |s| < |AuthorBlock| + 2 then s
    else if s[..|AuthorBlock|] == AuthorBlock && s[|AuthorBlock|] in "NA" && s[|AuthorBlock| + 1] == '{'
    then RemoveAuthorBlocks(s[|AuthorBlock| + 2..])
    else [s[0]] + RemoveAuthorBlocks(s[1..])
  }

  lemma {:induction false} RemoveAuthorBlocksKeepsAbsent(s: string, c: char)
    requires c !in s
    ensures c !in RemoveAuthorBlocks(s)
    decreases |s|
  {
    if |s| >= |AuthorBlock| + 2 {
      RemoveAuthorBlocksKeepsAbsent(s[|AuthorBlock| + 2..], c);
      RemoveAuthorBlocksKeepsAbsent(s[1..], c);
    }
  }

  lemma {:induction false} RemoveAuthorBlocksPlain(s: string)
    requires '\\' !in s
    ensures RemoveAuthorBlocks(s) == s
    decreases |s|
  {
    if |s| >= |AuthorBlock| + 2 {
      assert s[0] != AuthorBlock[0];
      RemoveAuthorBlocksPlain(s[1..]);
    }
  }

  /** The known command prefixes are deleted, `\and` becomes ", ", every
      remaining backslash a space, braces vanish, whitespace is collapsed. */
  function CleanCommand(text: string): string {
    if text == [] then []
    else
      var t := RemoveAuthorBlocks(text);
      var t := Replace(t, "\\textbf{", "");
      var t := Replace(t, "\\textit{", "");
      var t := Replace(t, "\\emph{", "");
      var t := Replace(t, "\\and", ", ");
      var t := Replace(t, "\\", " ");
      var t := Replace(Replace(t, "{", ""), "}", "");
      Collapse(t)
  }

  /** What the stripper leaves: no backslash and no brace, normalised
      whitespace; the empty capture stays empty. */
  predicate Clean(s: string) {
    '\\' !in s && '{' !in s && '}' !in s && Normalized(s)
  }

  lemma CleanCommandClean(text: string)
    ensures Clean(CleanCommand(text))
    ensures text == [] ==> CleanCommand(text) == []
  {
    if text != [] {
      var t1 := RemoveAuthorBlocks(text);
      var t2 := Replace(t1, "\\textbf{", "");
      var t3 := Replace(t2, "\\textit{", "");
      var t4 := Replace(t3, "\\emph{", "");
      var t5 := Replace(t4, "\\and", ", ");
      var t6 := Replace(t5, "\\", " ");
      ReplaceCharGone(t5, '\\', " ");
      var t7 := Replace(t6, "{", "");
      ReplaceCharGone(t6, '{', "");
      ReplaceKeepsAbsent(t6, "{", "", '\\');
      var t8 := Replace(t7, "}", "");
      ReplaceCharGone(t7, '}', "");
      ReplaceKeepsAbsent(t7, "}", "", '\\');
      ReplaceKeepsAbsent(t7, "}", "", '{');
      CollapseKeepsAbsent(t8, '\\');
      CollapseKeepsAbsent(t8, '{');
      CollapseKeepsAbsent(t8, '}');
      CollapseNormalized(t8);
    }
  }

  /** Stripping already-stripped text is a no-op. */
  lemma CleanCommandIdempotent(text: string)
    ensures CleanCommand(CleanCommand(text)) == CleanCommand(text)
  {
    var c := CleanCommand(text);
    CleanCommandClean(text);
    if c != [] {
      RemoveAuthorBlocksPlain(c);
      NotContainsByChar(c, "\\textbf{", '\\');
      ReplaceAbsent(c, "\\textbf{", "");
      NotContainsByChar(c, "\\textit{", '\\');
      ReplaceAbsent(c, "\\textit{", "");
      NotContainsByChar(c, "\\emph{", '\\');
      ReplaceAbsent(c, "\\emph{", "");
      NotContainsByChar(c, "\\and", '\\');
      ReplaceAbsent(c, "\\and", ", ");
      NotContainsByChar(c, "\\", '\\');
      ReplaceAbsent(c, "\\", " ");
      NotContainsByChar(c, "{", '{');
      ReplaceAbsent(c, "{", "");
      NotContainsByChar(c, "}", '}');
      ReplaceAbsent(c, "}", "");
      CollapseFixesNormalized(c);
    }
  }
}
