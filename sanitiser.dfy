/**
 * `BeamerBuilder._limpar_codigo_asset`: four whole-text rewrites of a float's
 * LaTeX code before it is put on a frame: starred float names lose the star,
 * the placement option after a float opening is dropped, `tabular`
 * environments are wrapped in an `adjustbox` (unless one is already there)
 * and `\centering` is put after every float opening (unless the code
 * already centres).
 */
module AssetSanitiser {
  import opened Strings

  const FigureWord: string := "figure"
  const TableWord: string := "table"
  const BeginFigure: string := "\\begin{figure}"
  const BeginTable: string := "\\begin{table}"
  const TabularWord: string := "tabular"
  const AdjustboxWord: string := "adjustbox"
  const TabularOpen: string := "\\begin{tabular"
  const TabularClose: string := "\\end{tabular}"
  const AdjustOptions: string := "}{max " + "width=" + "\\textwidth, " + "max " + "height=" + "0.75" + "\\textheight" + "}\n"
  const AdjustOpen: string := "\\begin{" + AdjustboxWord + AdjustOptions
  const AdjustClose: string := "\n\\end{" + AdjustboxWord + "}"
  const Centering: string := "\\centering"

  /** The whole cleanup, in the order the source applies it. */
  function CleanAssetCode(code: string): string {
    AddCentering(WrapTabular(DropPlacement(DeStar(code))))
  }

  // ---------------------------------------------------------------------------
  // 1. Starred floats

  /** `figure*` becomes `figure`, then `table*` becomes `table`. */
  function DeStar(code: string): string {
    Replace(Replace(code, FigureWord + "*", FigureWord), TableWord + "*", TableWord)
  }

  /** No starred float name survives, unless the input doubled a star. */
  lemma DeStarRemovesStars(code: string)
    requires !Contains(code, FigureWord + "**") && !Contains(code, TableWord + "**")
    ensures !Contains(DeStar(code), FigureWord + "*") && !Contains(DeStar(code), TableWord + "*")
  {
    var f := Replace(code, FigureWord + "*", FigureWord);
    assert FigureWord + "*" == FigureWord + ['*'] && FigureWord + "**" == FigureWord + ['*', '*'];
    assert TableWord + "*" == TableWord + ['*'] && TableWord + "**" == TableWord + ['*', '*'];
    assert FigureWord[0] !in FigureWord[1..] && TableWord[0] !in TableWord[1..];
    ReplaceDropsMark(code, FigureWord, '*');
    ReplaceNoNew(code, FigureWord + "*", FigureWord, TableWord + "**");
    ReplaceDropsMark(f, TableWord, '*');
    ReplaceNoNew(f, TableWord + "*", TableWord, FigureWord + "*");
  }

  /** With a doubled star, one star is left behind. */
  lemma DoubledStarSurvives()
    ensures DeStar("figure**") == "figure*"
  {
    ReplaceAtStart("figure*", "figure", "*");
    assert "figure**" == "figure*" + "*";
    assert "figure" + "*" == "figure*";
    NotContainsByChar("figure*", "table*", 't');
    ReplaceAbsent("figure*", "table*", "table");
  }

  // ---------------------------------------------------------------------------
  // 2. Placement options: re.sub(r'\\begin\{(figure|table)\}(\[.*?\])?', ...)

  /** Length of the float opening `s` starts with, or 0. */
  function FloatOpening(s: string): (k: nat)
    ensures k <= |s|
    ensures k == 0 || s[..k] == BeginFigure || s[..k] == BeginTable
    ensures k == 0 ==> !StartsWith(s, BeginFigure) && !StartsWith(s, BeginTable)
  {
    if StartsWith(s, BeginFigure) then |BeginFigure|
    else if StartsWith(s, BeginTable) then |BeginTable|
    else 0
  }

  /** End (one past) of the first `close` at or after `i` with no newline
      before it, or 0 when a newline or the end of the text comes first: the
      lazy `.*?` followed by the closing character. */
  function CloseAt(s: string, i: nat, close: char): (n: nat)
    requires i <= |s| && close != '\n'
    ensures n == 0 || (i < n <= |s| && s[n - 1] == close)
    decreases |s| - i
  {
    if i == |s| then 0
    else if s[i] == '\n' then 0
    else if s[i] == close then i + 1
    else CloseAt(s, i + 1, close)
  }

  /** Length of a bracket group `[...]` (no newline inside, ending at the
      first `]`) at the start of `s`, or 0. */
  function BracketGroup(s: string): (n: nat)
    ensures n <= |s|
    ensures n > 0 ==> n >= 2 && s[0] == '[' && s[n - 1] == ']'
  {
    if s != [] && s[0] == '[' then CloseAt(s, 1, ']') else 0
  }

  /** Drop the bracket group right after each float opening. */
  function DropPlacement(s: string): (r: string)
    ensures |r| <= |s|
    ensures s != [] ==> r != [] && r[0] == s[0]
    decreases |s|
  {
    if s == [] then []
    else
      var k := FloatOpening(s);
      if k > 0 then s[..k] + DropPlacement(s[k + BracketGroup(s[k..])..])
      else [s[0]] + DropPlacement(s[1..])
  }

  /** A float opening at the start is recognised. */
  lemma OpeningRecognised(opening: string, rest: string)
    requires opening == BeginFigure || opening == BeginTable
    ensures FloatOpening(opening + rest) == |opening|
  {
    var s := opening + rest;
    assert s[..|opening|] == opening;
    assert s[7] == opening[7];
  }

  /** A position that does not start with a backslash is copied. */
  lemma DropPlacementStep(s: string)
    requires s != [] && s[0] != '\\'
    ensures DropPlacement(s) == [s[0]] + DropPlacement(s[1..])
  {
    assert BeginFigure[0] == '\\' && BeginTable[0] == '\\';
    HeadMismatch(s, BeginFigure);
    HeadMismatch(s, BeginTable);
  }

  /** Text without a backslash passes through. */
  lemma {:induction false} DropPlacementPlain(pre: string, t: string)
    requires '\\' !in pre
    ensures DropPlacement(pre + t) == pre + DropPlacement(t)
    decreases |pre|
  {
    if pre == [] {
      assert pre + t == t;
    } else {
      var s := pre + t;
      assert s[0] == pre[0] && s[1..] == pre[1..] + t;
      DropPlacementStep(s);
      DropPlacementPlain(pre[1..], t);
      ConcatAssoc([pre[0]], pre[1..], DropPlacement(t));
      assert [pre[0]] + pre[1..] == pre;
    }
  }

  /** The bracket group right after an opening is removed; the opening and
      what follows the group stay. */
  lemma DropPlacementAt(opening: string, group: string, post: string)
    requires opening == BeginFigure || opening == BeginTable
    requires BracketGroup(group + post) == |group|
    ensures DropPlacement(opening + group + post) == opening + DropPlacement(post)
  {
    OpeningRecognised(opening, group + post);
    ConcatAssoc(opening, group, post);
    DropAfterOpening(opening, group, post);
  }

  lemma DropAfterOpening(opening: string, group: string, post: string)
    requires FloatOpening(opening + (group + post)) == |opening| > 0
    requires BracketGroup(group + post) == |group|
    ensures DropPlacement(opening + (group + post)) == opening + DropPlacement(post)
  {
    var s := opening + (group + post);
    var k := |opening|;
    var t := s[k..];
    assert t == group + post;
    var b := BracketGroup(t);
    assert s[k + BracketGroup(s[k..])..] == s[k + b..] == post;
    DropAtOpening(s, k);
    assert s[..k] == opening;
  }

  /** At an opening, the opening is kept and its placement option skipped. */
  lemma DropAtOpening(s: string, k: nat)
    requires k == FloatOpening(s) > 0
    ensures DropPlacement(s) == s[..k] + DropPlacement(s[k + BracketGroup(s[k..])..])
  {
    assert s != [];
  }

  /** A prefix of the result with no backslash was a prefix of the input. */
  lemma {:induction false} DropPlacementPrefixBack(t: string, u: string)
    requires '\\' !in u && StartsWith(DropPlacement(t), u)
    ensures StartsWith(t, u)
    decreases |u|
  {
    if u != [] {
      assert DropPlacement(t)[0] == u[0];
      assert FloatOpening(t) == 0;
      var r := DropPlacement(t[1..]);
      assert StartsWith(r, u[1..]) by {
        assert r[..|u| - 1] == DropPlacement(t)[1..|u|];
      }
      DropPlacementPrefixBack(t[1..], u[1..]);
      HeadAndTail(t, u);
    }
  }

  /** Dropping never assembles a new opening at a position that had none. */
  lemma NoNewOpening(s: string)
    requires s != [] && FloatOpening(s) == 0
    ensures FloatOpening([s[0]] + DropPlacement(s[1..])) == 0
  {
    var r := [s[0]] + DropPlacement(s[1..]);
    if StartsWith(r, BeginFigure) {
      OpeningTail(s, r, BeginFigure);
      assert false;
    }
    if StartsWith(r, BeginTable) {
      OpeningTail(s, r, BeginTable);
      assert false;
    }
  }

  lemma OpeningTail(s: string, r: string, opening: string)
    requires opening == BeginFigure || opening == BeginTable
    requires s != [] && r == [s[0]] + DropPlacement(s[1..]) && StartsWith(r, opening)
    ensures StartsWith(s, opening)
  {
    var d := DropPlacement(s[1..]);
    assert StartsWith(d, opening[1..]) by {
      assert d[..|opening| - 1] == r[1..|opening|];
    }
    OpeningTailPlain(opening);
    DropPlacementPrefixBack(s[1..], opening[1..]);
    HeadAndTail(s, opening);
  }

  /** An opening has its only backslash at its head. */
  lemma OpeningTailPlain(opening: string)
    requires opening == BeginFigure || opening == BeginTable
    ensures '\\' !in opening[1..]
  {
  }

  /** After an opening and its optional group, the next character is `[`. */
  predicate SecondBracket(t: string) {
    var k := FloatOpening(t);
    k > 0 && k + BracketGroup(t[k..]) < |t| && t[k + BracketGroup(t[k..])] == '['
  }

  predicate SecondBracketAt(s: string, i: nat)
    requires i <= |s|
  {
    SecondBracket(s[i..])
  }

  /** No float opening carries a second bracket after its placement option. */
  predicate OneBracketGroup(s: string) {
    forall i :: 0 <= i <= |s| ==> !SecondBracketAt(s, i)
  }

  lemma OneBracketGroupSuffix(s: string, j: nat)
    requires j <= |s| && OneBracketGroup(s)
    ensures OneBracketGroup(s[j..])
  {
    forall i | 0 <= i <= |s[j..]| ensures !SecondBracketAt(s[j..], i) {
      assert s[j..][i..] == s[j + i..];
      assert !SecondBracketAt(s, j + i);
    }
  }

  /** Dropping placements twice is dropping them once, when no opening
      carries two bracket groups. */
  lemma {:induction false} DropPlacementIdempotent(s: string)
    requires OneBracketGroup(s)
    ensures DropPlacement(DropPlacement(s)) == DropPlacement(s)
    decreases |s|
  {
    if s != [] {
      var k := FloatOpening(s);
      if k > 0 {
        var g := BracketGroup(s[k..]);
        var r := s[k + g..];
        NoBracketAfterGroup(s, k, g);
        OneBracketGroupSuffix(s, k + g);
        DropPlacementIdempotent(r);
        var d := DropPlacement(r);
        assert d == [] || d[0] != '[';
        DropTwiceAtOpening(s, k, g, d);
      } else {
        OneBracketGroupSuffix(s, 1);
        DropPlacementIdempotent(s[1..]);
        DropTwiceAtChar(s);
      }
    }
  }

  /** What follows an opening's placement option does not start with `[`. */
  lemma NoBracketAfterGroup(s: string, k: nat, g: nat)
    requires OneBracketGroup(s) && k == FloatOpening(s) > 0 && g == BracketGroup(s[k..])
    ensures s[k + g..] == [] || s[k + g] != '['
  {
    assert !SecondBracketAt(s, 0);
    assert s[0..] == s;
  }

  /** After an opening, a rest that is already clean and does not start
      with `[` is kept as it is. */
  lemma DropTwiceAtOpening(s: string, k: nat, g: nat, d: string)
    requires k == FloatOpening(s) > 0 && g == BracketGroup(s[k..])
    requires d == DropPlacement(s[k + g..])
    requires DropPlacement(d) == d && (d == [] || d[0] != '[')
    ensures DropPlacement(DropPlacement(s)) == DropPlacement(s)
  {
    assert DropPlacement(s) == s[..k] + d;
    assert BracketGroup(d) == 0;
    OpeningRecognised(s[..k], d);
    var t := s[..k] + d;
    assert t[k..] == d && t[..k] == s[..k];
  }

  /** A copied character stays copied. */
  lemma DropTwiceAtChar(s: string)
    requires s != [] && FloatOpening(s) == 0
    requires DropPlacement(DropPlacement(s[1..])) == DropPlacement(s[1..])
    ensures DropPlacement(DropPlacement(s)) == DropPlacement(s)
  {
    NoNewOpening(s);
    var t := [s[0]] + DropPlacement(s[1..]);
    assert t[1..] == DropPlacement(s[1..]);
  }

  // ---------------------------------------------------------------------------
  // 3. Tabulars in an adjustbox

  /** Length of a match of `\\begin\{tabular.*?\}` at the start of `s`, or 0. */
  function TabularEnd(s: string): (m: nat)
    ensures m == 0 || (|TabularOpen| < m <= |s| && StartsWith(s, TabularOpen) && s[m - 1] == '}')
  {
    if StartsWith(s, TabularOpen) then CloseAt(s, |TabularOpen|, '}') else 0
  }

  /** The adjustbox opening in front of every tabular opening. */
  function WrapOpenings(s: string): string
    decreases |s|
  {
    if s == [] then []
    else
      var m := TabularEnd(s);
      if m > 0 then AdjustOpen + s[..m] + WrapOpenings(s[m..])
      else [s[0]] + WrapOpenings(s[1..])
  }

  /** Both halves of the wrapping, only for code that mentions a tabular and
      no adjustbox yet. */
  function WrapTabular(s: string): (r: string)
    ensures Contains(s, AdjustboxWord) || !Contains(s, TabularWord) ==> r == s
  {
    if Contains(s, TabularWord) && !Contains(s, AdjustboxWord) then
      Replace(WrapOpenings(s), TabularClose, TabularClose + AdjustClose)
    else s
  }

  /** A position that does not start with a backslash is copied. */
  lemma WrapOpeningsStep(s: string)
    requires s != [] && s[0] != '\\'
    ensures WrapOpenings(s) == [s[0]] + WrapOpenings(s[1..])
  {
    assert TabularOpen[0] == '\\';
    HeadMismatch(s, TabularOpen);
  }

  /** Text without a backslash passes through. */
  lemma {:induction false} WrapOpeningsPlain(pre: string, t: string)
    requires '\\' !in pre
    ensures WrapOpenings(pre + t) == pre + WrapOpenings(t)
    decreases |pre|
  {
    if pre == [] {
      assert pre + t == t;
    } else {
      var s := pre + t;
      assert s[0] == pre[0] && s[1..] == pre[1..] + t;
      WrapOpeningsStep(s);
      WrapOpeningsPlain(pre[1..], t);
      ConcatAssoc([pre[0]], pre[1..], WrapOpenings(t));
      assert [pre[0]] + pre[1..] == pre;
    }
  }

  /** The first `close` after `i`, with no newline before it, is found. */
  lemma {:induction false} CloseAtFinds(s: string, i: nat, j: nat, close: char)
    requires i <= j < |s| && close != '\n' && s[j] == close
    requires forall k :: i <= k < j ==> s[k] != close && s[k] != '\n'
    ensures CloseAt(s, i, close) == j + 1
    decreases j - i
  {
    if i < j {
      CloseAtFinds(s, i + 1, j, close);
    }
  }

  /** A tabular opening whose option text has no brace or newline is
      matched up to its `}`. */
  lemma TabularEndAt(mid: string, post: string)
    requires '}' !in mid && '\n' !in mid
    ensures TabularEnd(TabularOpen + mid + "}" + post) == |TabularOpen| + |mid| + 1
  {
    var s := TabularOpen + mid + "}" + post;
    var m := |TabularOpen| + |mid| + 1;
    assert s[..|TabularOpen|] == TabularOpen;
    forall k | |TabularOpen| <= k < m - 1 ensures s[k] != '}' && s[k] != '\n' {
      assert s[k] == mid[k - |TabularOpen|];
    }
    CloseAtFinds(s, |TabularOpen|, m - 1, '}');
  }

  /** Such an opening gets the adjustbox opening in front of it. */
  lemma WrapOpeningsAt(mid: string, post: string)
    requires '}' !in mid && '\n' !in mid
    ensures WrapOpenings(TabularOpen + mid + "}" + post)
            == AdjustOpen + (TabularOpen + mid + "}") + WrapOpenings(post)
  {
    var head := TabularOpen + mid + "}";
    var s := head + post;
    TabularEndAt(mid, post);
    assert s[..|head|] == head && s[|head|..] == post;
  }

  /** Every `\end{tabular}` is followed by the adjustbox closing. */
  lemma ClosingWrapped(pre: string, post: string)
    requires '\\' !in pre
    ensures Replace(pre + TabularClose + post, TabularClose, TabularClose + AdjustClose)
            == pre + TabularClose + AdjustClose + Replace(post, TabularClose, TabularClose + AdjustClose)
  {
    assert pre + TabularClose + post == pre + (TabularClose + post);
    ReplacePassesPlain(pre, TabularClose + post, TabularClose, TabularClose + AdjustClose);
    ReplaceAtStart(TabularClose, TabularClose + AdjustClose, post);
  }

  lemma AdjustOpenMarked(t: string)
    ensures Contains(AdjustOpen + t, AdjustboxWord)
  {
    assert AdjustOpen + t == "\\begin{" + AdjustboxWord + (AdjustOptions + t);
    ContainsInside("\\begin{", AdjustboxWord, AdjustOptions + t);
  }

  /** Inserting openings either changes nothing or leaves an adjustbox. */
  lemma {:induction false} WrapOpeningsMarks(s: string)
    ensures WrapOpenings(s) == s || Contains(WrapOpenings(s), AdjustboxWord)
    decreases |s|
  {
    if s != [] {
      var m := TabularEnd(s);
      if m > 0 {
        assert WrapOpenings(s) == AdjustOpen + (s[..m] + WrapOpenings(s[m..]));
        AdjustOpenMarked(s[..m] + WrapOpenings(s[m..]));
      } else {
        WrapOpeningsMarks(s[1..]);
        var r := WrapOpenings(s[1..]);
        assert ([s[0]] + r)[1..] == r;
        if r == s[1..] {
          assert [s[0]] + r == s;
        } else {
          ContainsSuffix([s[0]] + r, 1, AdjustboxWord);
        }
      }
    }
  }

  /** Wrapping either changes nothing or leaves an adjustbox. */
  lemma WrapTabularMarks(s: string)
    ensures WrapTabular(s) == s || Contains(WrapTabular(s), AdjustboxWord)
  {
    if Contains(s, TabularWord) && !Contains(s, AdjustboxWord) {
      var y := WrapOpenings(s);
      var close := TabularClose + AdjustClose;
      WrapOpeningsMarks(s);
      ReplaceChangedOrContains(y, TabularClose, close);
      if Contains(y, TabularClose) {
        assert close == TabularClose + "\n\\end{" + AdjustboxWord + "}";
        ContainsInside(TabularClose + "\n\\end{", AdjustboxWord, "}");
        ContainsTrans(Replace(y, TabularClose, close), close, AdjustboxWord);
      }
    }
  }

  /** Wrapping twice is wrapping once. */
  lemma WrapTabularIdempotent(s: string)
    ensures WrapTabular(WrapTabular(s)) == WrapTabular(s)
  {
    WrapTabularMarks(s);
  }

  // ---------------------------------------------------------------------------
  // 4. Centering

  function AddCentering(s: string): (r: string)
    ensures Contains(s, Centering) ==> r == s
  {
    if Contains(s, Centering) then s
    else Replace(Replace(s, BeginFigure, BeginFigure + Centering), BeginTable, BeginTable + Centering)
  }

  lemma CenteringInOpening(opening: string)
    requires opening == BeginFigure || opening == BeginTable
    ensures Contains(opening + Centering, Centering)
  {
    assert (opening + Centering)[|opening|..][..|Centering|] == Centering;
    ContainsAt(opening + Centering, Centering, |opening|);
  }

  /** Adding centering either changes nothing or leaves a `\centering`. */
  lemma AddCenteringMarks(s: string)
    ensures AddCentering(s) == s || Contains(AddCentering(s), Centering)
  {
    if !Contains(s, Centering) {
      var y := Replace(s, BeginFigure, BeginFigure + Centering);
      var z := Replace(y, BeginTable, BeginTable + Centering);
      ReplaceChangedOrContains(s, BeginFigure, BeginFigure + Centering);
      ReplaceChangedOrContains(y, BeginTable, BeginTable + Centering);
      CenteringInOpening(BeginFigure);
      CenteringInOpening(BeginTable);
      if Contains(y, BeginTable) {
        ContainsTrans(z, BeginTable + Centering, Centering);
      } else if Contains(s, BeginFigure) {
        ContainsTrans(y, BeginFigure + Centering, Centering);
      }
    }
  }

  /** Adding centering twice is adding it once. */
  lemma AddCenteringIdempotent(s: string)
    ensures AddCentering(AddCentering(s)) == AddCentering(s)
  {
    AddCenteringMarks(s);
  }

  /** Code that has a float opening after the step also has `\centering`. */
  lemma CenteredWhenFloat(s: string)
    requires Contains(AddCentering(s), BeginFigure) || Contains(AddCentering(s), BeginTable)
    ensures Contains(AddCentering(s), Centering)
  {
    if !Contains(s, Centering) {
      var y := Replace(s, BeginFigure, BeginFigure + Centering);
      var z := Replace(y, BeginTable, BeginTable + Centering);
      ReplaceChangedOrContains(s, BeginFigure, BeginFigure + Centering);
      ReplaceChangedOrContains(y, BeginTable, BeginTable + Centering);
      CenteringInOpening(BeginFigure);
      CenteringInOpening(BeginTable);
      if Contains(y, BeginTable) {
        ContainsTrans(z, BeginTable + Centering, Centering);
      } else {
        assert z == y;
        if Contains(s, BeginFigure) {
          ContainsTrans(y, BeginFigure + Centering, Centering);
        }
      }
    }
  }

  /** A figure opening with no backslash before it gets `\centering` right
      after it; the rest of the code is treated the same way. */
  lemma CenteringAfterFigure(pre: string, post: string)
    requires '\\' !in pre && !Contains(pre + BeginFigure + post, Centering)
    ensures AddCentering(pre + BeginFigure + post)
            == pre + (BeginFigure + (Centering
               + Replace(Replace(post, BeginFigure, BeginFigure + Centering), BeginTable, BeginTable + Centering)))
  {
    var w := Replace(post, BeginFigure, BeginFigure + Centering);
    assert BeginFigure[0] == '\\' && BeginTable[0] == '\\';
    calc {
      AddCentering(pre + BeginFigure + post);
      Replace(Replace(pre + BeginFigure + post, BeginFigure, BeginFigure + Centering), BeginTable, BeginTable + Centering);
      { ReplaceOpeningAt(pre, post, BeginFigure, BeginFigure + Centering);
        ConcatAssoc(BeginFigure, Centering, w); }
      Replace(pre + (BeginFigure + (Centering + w)), BeginTable, BeginTable + Centering);
      { ReplacePassesPlain(pre, BeginFigure + (Centering + w), BeginTable, BeginTable + Centering);
        FigureCenteringSkipped(w); }
      pre + (BeginFigure + (Centering + Replace(w, BeginTable, BeginTable + Centering)));
    }
  }

  /** The table pass copies a centred figure opening. */
  lemma FigureCenteringSkipped(w: string)
    ensures Replace(BeginFigure + (Centering + w), BeginTable, BeginTable + Centering)
            == BeginFigure + (Centering + Replace(w, BeginTable, BeginTable + Centering))
  {
    ReplaceSkipsWord(BeginFigure, Centering + w, BeginTable, BeginTable + Centering, 7);
    ReplaceSkipsWord(Centering, w, BeginTable, BeginTable + Centering, 1);
  }

  /** A table opening with no backslash before it gets `\centering` right
      after it; the rest of the code is treated the same way. */
  lemma CenteringAfterTable(pre: string, post: string)
    requires '\\' !in pre && !Contains(pre + BeginTable + post, Centering)
    ensures AddCentering(pre + BeginTable + post)
            == pre + (BeginTable + (Centering
               + Replace(Replace(post, BeginFigure, BeginFigure + Centering), BeginTable, BeginTable + Centering)))
  {
    var w := Replace(post, BeginFigure, BeginFigure + Centering);
    var z := Replace(w, BeginTable, BeginTable + Centering);
    assert BeginFigure[0] == '\\' && BeginTable[0] == '\\';
    calc {
      AddCentering(pre + BeginTable + post);
      Replace(Replace(pre + BeginTable + post, BeginFigure, BeginFigure + Centering), BeginTable, BeginTable + Centering);
      { assert pre + BeginTable + post == pre + (BeginTable + post);
        ReplacePassesPlain(pre, BeginTable + post, BeginFigure, BeginFigure + Centering);
        TableSkippedByFigurePass(post); }
      Replace(pre + (BeginTable + w), BeginTable, BeginTable + Centering);
      { ConcatAssoc(pre, BeginTable, w);
        ReplaceOpeningAt(pre, w, BeginTable, BeginTable + Centering);
        ConcatAssoc(BeginTable, Centering, z); }
      pre + (BeginTable + (Centering + z));
    }
  }

  /** The figure pass copies a table opening. */
  lemma TableSkippedByFigurePass(post: string)
    ensures Replace(BeginTable + post, BeginFigure, BeginFigure + Centering)
            == BeginTable + Replace(post, BeginFigure, BeginFigure + Centering)
  {
    ReplaceSkipsWord(BeginTable, post, BeginFigure, BeginFigure + Centering, 7);
  }

  /** Cleaned code that still opens a float has `\centering`. */
  lemma CleanedCodeCentred(code: string)
    requires Contains(CleanAssetCode(code), BeginFigure) || Contains(CleanAssetCode(code), BeginTable)
    ensures Contains(CleanAssetCode(code), Centering)
  {
    CenteredWhenFloat(WrapTabular(DropPlacement(DeStar(code))));
  }
}
