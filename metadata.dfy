/**
 * `LatexIngestor.extrair_metadados`: the first `\title{...}` and the first
 * `\author{...}` of the preprocessed document, matched without regard to
 * letter case, each passed through the command stripper; a fixed default
 * stands in for a directive that is absent.
 */
module MetadataExtractor {
  import opened Options
  import opened Strings
  import opened Records
  import opened Preprocessor

  const DefaultTitle: string := "Apresentação sem Título"
  const DefaultAuthor: string := "Autor Desconhecido"
  const TitleWord: string := "title"
  const AuthorWord: string := "author"

  /** Upper case of an ASCII lower-case letter; any other character is its own. */
  function AsciiUpper(p: char): char {
    if 'a' <= p <= 'z' then (p as int - 32) as char else p
  }

  /** Does text character `c` match pattern character `p` under `re.IGNORECASE`?
      Besides the two ASCII cases, `i` also matches the dotted capital I
      (U+0130) and the dotless small i (U+0131). */
  predicate FoldMatch(c: char, p: char) {
    c == p || c == AsciiUpper(p) || (p == 'i' && (c == '\U{0130}' || c == '\U{0131}'))
  }

  /** `s` starts with a backslash, `word` in any letter case, and `{`. */
  predicate OpensDirective(s: string, word: string) {
    && |s| >= |word| + 2
    && s[0] == '\\'
    && (forall k :: 0 <= k < |word| ==> FoldMatch(s[k + 1], word[k]))
    && s[|word| + 1] == '{'
  }

  /** The directive pattern matches at position `i` of `s`: an opening there
      and some `}` after it. */
  predicate MatchAt(s: string, word: string, i: nat)
    requires i <= |s|
  {
    OpensDirective(s[i..], word) && '}' in s[i..][|word| + 2..]
  }

  /** Dropping the head shifts every match one position to the left. */
  lemma MatchAfterHead(s: string, word: string)
    requires s != []
    ensures forall i :: 1 <= i <= |s| ==> (MatchAt(s, word, i) <==> MatchAt(s[1..], word, i - 1))
  {
    forall i | 1 <= i <= |s| ensures MatchAt(s, word, i) <==> MatchAt(s[1..], word, i - 1) {
      assert s[1..][i - 1..] == s[i..];
    }
  }

  /** Where `re.search(r'\\word\{([^}]*)\}', s, re.IGNORECASE)` matches: the
      first position with an opening of the directive that some `}` follows. */
  function DirectiveIndex(s: string, word: string): (r: Option<nat>)
    ensures r.Some? ==> r.value <= |s| && MatchAt(s, word, r.value)
    ensures forall i :: 0 <= i <= |s| && (r.None? || i < r.value) ==> !MatchAt(s, word, i)
    decreases |s|
  {
    if MatchAt(s, word, 0) then Some(0)
    else if s == [] then None
    else
      var r := DirectiveIndex(s[1..], word);
      MatchAfterHead(s, word);
      if r.None? then None else Some(r.value + 1)
  }

  /** Group 1 of that match: the text from the opening to the first `}`. */
  function FindDirective(s: string, word: string): (r: Option<string>)
    ensures r.Some? <==> DirectiveIndex(s, word).Some?
    ensures r.Some? ==> '}' !in r.value
                        && StartsWith(s[DirectiveIndex(s, word).value + |word| + 2..], r.value + "}")
  {
    match DirectiveIndex(s, word)
    case None => None
    case Some(i) =>
      var t := s[i..][|word| + 2..];
      var j := CharIndex(t, '}').value;
      assert t == s[i + |word| + 2..];
      assert t[..j + 1] == t[..j] + "}";
      Some(t[..j])
  }

  /** Replacement of a directive's capture, or the default when there is none. */
  function FieldOr(found: Option<string>, default: string): string {
    if found.Some? then CleanCommand(found.value) else default
  }

  /** `extrair_metadados`. */
  function ExtractMetadata(latex: string): Metadata {
    var text := Preprocess(latex);
    Metadata(FieldOr(FindDirective(text, TitleWord), DefaultTitle),
             FieldOr(FindDirective(text, AuthorWord), DefaultAuthor))
  }

  /** An opening stays an opening whatever follows it. */
  lemma OpensBefore(opening: string, t: string, word: string)
    requires OpensDirective(opening, word) && |opening| == |word| + 2
    ensures OpensDirective(opening + t, word)
  {
    var s := opening + t;
    forall m | 0 <= m < |word| ensures FoldMatch(s[m + 1], word[m]) {
      assert s[m + 1] == opening[m + 1];
    }
  }

  /** A match with none before it is where the search stops. */
  lemma DirectiveIndexIs(s: string, word: string, k: nat)
    requires k <= |s| && MatchAt(s, word, k)
    requires forall i :: 0 <= i < k ==> !MatchAt(s, word, i)
    ensures DirectiveIndex(s, word) == Some(k)
  {
  }

  /** After text without a backslash, an opening that some `}` follows is the
      first match. */
  lemma FirstOpening(pre: string, opening: string, t: string, word: string)
    requires '\\' !in pre && '}' in t
    requires OpensDirective(opening, word) && |opening| == |word| + 2
    ensures DirectiveIndex(pre + (opening + t), word) == Some(|pre|)
  {
    var s := pre + (opening + t);
    var k := |pre|;
    assert s[k..] == opening + t;
    assert s[k..][|word| + 2..] == t;
    OpensBefore(opening, t, word);
    assert MatchAt(s, word, k);
    forall i | 0 <= i < k ensures !MatchAt(s, word, i) {
      assert s[i..][0] == pre[i];
    }
    DirectiveIndexIs(s, word, k);
  }

  /** A directive with no earlier backslash is found, in any letter case, and
      its capture runs to the first `}`. */
  lemma FindDirectiveFinds(pre: string, opening: string, g: string, rest: string, word: string)
    requires '\\' !in pre && '}' !in g
    requires OpensDirective(opening, word) && |opening| == |word| + 2
    ensures FindDirective(pre + opening + g + "}" + rest, word) == Some(g)
  {
    var t := g + "}" + rest;
    var s := pre + (opening + t);
    assert pre + opening + g + "}" + rest == s;
    assert t[|g|] == '}';
    FirstOpening(pre, opening, t, word);
    assert s[|pre|..][|word| + 2..] == t;
    CharIndexAfter(g, '}', rest);
    assert t[..|g|] == g;
  }

  /** Neither field can carry a backslash, a brace or stray whitespace: the
      defaults are clean, and so is everything the command stripper returns. */
  lemma MetadataClean(latex: string)
    ensures Clean(ExtractMetadata(latex).title)
    ensures Clean(ExtractMetadata(latex).author)
  {
    var text := Preprocess(latex);
    var t := FindDirective(text, TitleWord);
    var a := FindDirective(text, AuthorWord);
    if t.Some? {
      CleanCommandClean(t.value);
    } else {
      DefaultsClean();
    }
    if a.Some? {
      CleanCommandClean(a.value);
    } else {
      DefaultsClean();
    }
  }

  lemma DefaultsClean()
    ensures Clean(DefaultTitle) && Clean(DefaultAuthor)
  {
    DefaultTitleClean();
    DefaultAuthorClean();
  }

  lemma DefaultTitleClean()
    ensures Clean(DefaultTitle)
  {
    var t1, t2, t3 := "Apresentação", "sem", "Título";
    CharsWord(t1);
    CharsWord(t2);
    CharsWord(t3);
    WordClean(t3);
    WordsClean(t2, t3);
    WordsClean(t1, t2 + " " + t3);
    assert DefaultTitle == t1 + " " + (t2 + " " + t3);
  }

  lemma DefaultAuthorClean()
    ensures Clean(DefaultAuthor)
  {
    var a1, a2 := "Autor", "Desconhecido";
    CharsWord(a1);
    CharsWord(a2);
    WordClean(a2);
    WordsClean(a1, a2);
    assert DefaultAuthor == a1 + " " + a2;
  }

  /** A non-empty run of characters that are neither whitespace nor braces
      nor backslashes. */
  predicate Word(w: string) {
    w != [] && forall i :: 0 <= i < |w| ==> !IsSpace(w[i]) && w[i] != '\\' && w[i] != '{' && w[i] != '}'
  }

  /** Letters, from the ASCII and Latin-1 ranges, form a word. */
  lemma CharsWord(w: string)
    requires w != []
    requires forall i :: 0 <= i < |w| ==> 'A' <= w[i] <= 'Z' || 'a' <= w[i] <= 'z' || 0xC0 <= w[i] as int <= 0xFF
    ensures Word(w)
  {
  }

  lemma WordClean(w: string)
    requires Word(w)
    ensures Clean(w)
  {
  }

  /** A word, one space and a clean non-empty text make a clean text. */
  lemma WordsClean(w: string, rest: string)
    requires Word(w) && Clean(rest) && rest != []
    ensures Clean(w + " " + rest)
  {
    var s := w + " " + rest;
    forall i | 0 <= i < |s| && IsSpace(s[i]) ensures s[i] == ' ' && (i + 1 < |s| ==> !IsSpace(s[i + 1])) {
      if i > |w| {
        assert s[i] == rest[i - |w| - 1];
        assert i + 1 < |s| ==> s[i + 1] == rest[i - |w|];
      }
    }
    assert s[0] == w[0] && s[|s| - 1] == rest[|rest| - 1];
    assert forall c :: c in s ==> c in w || c == ' ' || c in rest;
  }

  /** A `\title{...}` in the document, with no backslash before it after
      preprocessing, decides the title; a document with no title directive
      at all gets the default. */
  lemma TitleFromDirective(latex: string, pre: string, opening: string, g: string, rest: string)
    requires Preprocess(latex) == pre + opening + g + "}" + rest
    requires '\\' !in pre && '}' !in g
    requires OpensDirective(opening, TitleWord) && |opening| == |TitleWord| + 2
    ensures ExtractMetadata(latex).title == CleanCommand(g)
  {
    FindDirectiveFinds(pre, opening, g, rest, TitleWord);
  }

  lemma AuthorFromDirective(latex: string, pre: string, opening: string, g: string, rest: string)
    requires Preprocess(latex) == pre + opening + g + "}" + rest
    requires '\\' !in pre && '}' !in g
    requires OpensDirective(opening, AuthorWord) && |opening| == |AuthorWord| + 2
    ensures ExtractMetadata(latex).author == CleanCommand(g)
  {
    FindDirectiveFinds(pre, opening, g, rest, AuthorWord);
  }

  /** With no title directive anywhere in the preprocessed text, the title
      is the default, whatever else the text holds. */
  lemma TitleDefault(latex: string)
    requires forall i :: 0 <= i <= |Preprocess(latex)| ==> !MatchAt(Preprocess(latex), TitleWord, i)
    ensures ExtractMetadata(latex).title == DefaultTitle
  {
  }

  /** With no author directive anywhere in the preprocessed text, the
      author is the default, whatever else the text holds. */
  lemma AuthorDefault(latex: string)
    requires forall i :: 0 <= i <= |Preprocess(latex)| ==> !MatchAt(Preprocess(latex), AuthorWord, i)
    ensures ExtractMetadata(latex).author == DefaultAuthor
  {
  }

  /** The upper-case spelling is found as well. */
  lemma UpperCaseTitleFound()
    ensures FindDirective("\\TITLE{Beam}", TitleWord) == Some("Beam")
  {
    var opening := "\\TITLE{";
    assert OpensDirective(opening, TitleWord) by {
      forall k | 0 <= k < |TitleWord| ensures FoldMatch(opening[k + 1], TitleWord[k]) { }
    }
    assert "\\TITLE{Beam}" == [] + opening + "Beam" + "}" + [];
    FindDirectiveFinds([], opening, "Beam", [], TitleWord);
  }
}
