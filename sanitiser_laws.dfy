/**
 * Properties of `BeamerBuilder._limpar_codigo_asset` as a whole rather
 * than step by step: cleaned code holds no starred float name, and
 * cleaning it a second time changes nothing.  The proof follows three
 * facts through the four steps: no starred float name, no float opening
 * directly followed by `[`, and a tabular wrapping with nothing left to do.
 */
module SanitiserLaws {
  import opened Strings
  import opened AssetSanitiser

  const FigureStar: string := FigureWord + "*"
  const TableStar: string := TableWord + "*"
  const FigureBracket: string := BeginFigure + "["
  const TableBracket: string := BeginTable + "["
  const CloseWrap: string := TabularClose + AdjustClose

  /** The patterns that no step after the first may create. */
  predicate Guarded(u: string) {
    u == FigureStar || u == TableStar || u == FigureBracket || u == TableBracket
  }

  // ---------------------------------------------------------------------------
  // The whole cleanup

  /** Cleaned code has no `figure*` or `table*` left, unless the input
      doubled a star. */
  lemma CleanAssetCodeNoStars(code: string)
    requires !Contains(code, FigureWord + "**") && !Contains(code, TableWord + "**")
    ensures !Contains(CleanAssetCode(code), FigureWord + "*")
    ensures !Contains(CleanAssetCode(code), TableWord + "*")
  {
    var d := DeStar(code);
    var p := DropPlacement(d);
    var w := WrapTabular(p);
    DeStarRemovesStars(code);
    StarsAvoidBraces();
    DropPlacementNoNew(d, FigureStar);
    DropPlacementNoNew(d, TableStar);
    WrapTabularNoNew(p, FigureStar);
    WrapTabularNoNew(p, TableStar);
    AddCenteringNoNew(w, FigureStar);
    AddCenteringNoNew(w, TableStar);
  }

  /** Cleaning cleaned code changes nothing, when the input doubles no star
      and no float opening carries two bracket groups. */
  lemma CleanAssetCodeIdempotent(code: string)
    requires !Contains(code, FigureWord + "**") && !Contains(code, TableWord + "**")
    requires OneBracketGroup(DeStar(code))
    ensures CleanAssetCode(CleanAssetCode(code)) == CleanAssetCode(code)
  {
    var d := DeStar(code);
    var p := DropPlacement(d);
    var w := WrapTabular(p);
    var r := AddCentering(w);
    assert DeStar(r) == r by {
      CleanAssetCodeNoStars(code);
      ReplaceAbsent(r, FigureStar, FigureWord);
      ReplaceAbsent(r, TableStar, TableWord);
    }
    assert DropPlacement(r) == r by {
      DropPlacementUnplaced(d);
      WrapTabularNoNew(p, FigureBracket);
      WrapTabularNoNew(p, TableBracket);
      AddCenteringNoNew(w, FigureBracket);
      AddCenteringNoNew(w, TableBracket);
      UnplacedFixed(r);
    }
    assert WrapTabular(r) == r by {
      WrapTabularIdempotent(p);
      AddCenteringKeepsWrapped(w);
    }
    AddCenteringIdempotent(w);
  }

  lemma StarsAvoidBraces()
    ensures '}' !in FigureStar && '\\' !in FigureStar[1..]
    ensures '}' !in TableStar && '\\' !in TableStar[1..]
  {
  }

  // ---------------------------------------------------------------------------
  // Step 2 creates no starred name

  /** Dropping placement options creates no occurrence of a text without a
      `}` and with a backslash at most at its head. */
  lemma {:induction false} DropPlacementNoNew(s: string, u: string)
    requires u != [] && '}' !in u && '\\' !in u[1..]
    ensures Contains(DropPlacement(s), u) ==> Contains(s, u)
    decreases |s|
  {
    if s != [] && Contains(DropPlacement(s), u) {
      var k := FloatOpening(s);
      if k > 0 {
        var j := k + BracketGroup(s[k..]);
        DropPlacementNoNew(s[j..], u);
        NoNewAtOpening(s, k, j, u);
      } else {
        DropPlacementNoNew(s[1..], u);
        NoNewAtChar(s, u);
      }
    }
  }

  /** The case of `DropPlacementNoNew` where the text starts with an opening. */
  lemma NoNewAtOpening(s: string, k: nat, j: nat, u: string)
    requires u != [] && '}' !in u
    requires k == FloatOpening(s) > 0 && j == k + BracketGroup(s[k..])
    requires Contains(DropPlacement(s), u)
    requires Contains(DropPlacement(s[j..]), u) ==> Contains(s[j..], u)
    ensures Contains(s, u)
  {
    var d := DropPlacement(s[j..]);
    assert DropPlacement(s) == s[..k] + d by {
      DropAtOpening(s, k);
    }
    var q := ContainsSplit(s[..k], d, u);
    if q >= k {
      ContainsSuffix(s, j, u);
    } else if q + |u| <= k {
      StraddleBack(s, k, d, u, q);
    } else {
      OpeningLast(s[..k]);
      CutAfterChar(s[..k], d, u, q);
    }
  }

  lemma OpeningLast(opening: string)
    requires opening == BeginFigure || opening == BeginTable
    ensures opening[|opening| - 1] == '}'
  {
  }

  /** The case of `DropPlacementNoNew` where the first character is copied. */
  lemma NoNewAtChar(s: string, u: string)
    requires u != [] && '\\' !in u[1..]
    requires s != [] && FloatOpening(s) == 0
    requires Contains(DropPlacement(s), u)
    requires Contains(DropPlacement(s[1..]), u) ==> Contains(s[1..], u)
    ensures Contains(s, u)
  {
    var d := DropPlacement(s[1..]);
    assert DropPlacement(s) == [s[0]] + d;
    var q := ContainsSplit([s[0]], d, u);
    if q >= 1 {
      ContainsSuffix(s, 1, u);
    } else {
      assert StartsWith(s, u) by {
        ConsPrefix(s[0], d, u);
        DropPlacementPrefixBack(s[1..], u[1..]);
        HeadAndTail(s, u);
      }
    }
  }

  // ---------------------------------------------------------------------------
  // Step 3 creates no guarded pattern

  /** A prefix of the wrapped text with no backslash was a prefix of the input. */
  lemma {:induction false} WrapOpeningsPrefixBack(t: string, v: string)
    requires '\\' !in v && StartsWith(WrapOpenings(t), v)
    ensures StartsWith(t, v)
    decreases |v|
  {
    if v != [] {
      WrapHeadCopied(t);
      var r := WrapOpenings(t[1..]);
      assert StartsWith(r, v[1..]) by {
        assert r[..|v| - 1] == WrapOpenings(t)[1..|v|];
      }
      WrapOpeningsPrefixBack(t[1..], v[1..]);
      HeadAndTail(t, v);
    }
  }

  /** A wrapped text that does not start with a backslash starts with a
      copied character. */
  lemma WrapHeadCopied(t: string)
    requires WrapOpenings(t) != [] && WrapOpenings(t)[0] != '\\'
    ensures t != [] && TabularEnd(t) == 0 && WrapOpenings(t) == [t[0]] + WrapOpenings(t[1..])
  {
    var m := TabularEnd(t);
    if m > 0 {
      AdjustOpenHead(t[..m] + WrapOpenings(t[m..]));
    }
  }

  lemma AdjustOpenHead(t: string)
    ensures (AdjustOpen + t)[0] == '\\'
  {
    assert AdjustOpen[0] == '\\';
  }

  /** Inserting adjustbox openings creates no occurrence of a text that the
      opening cannot hold, enter or leave. */
  lemma {:induction false} WrapOpeningsNoNew(s: string, u: string)
    requires u != [] && '\\' !in u[1..] && '\n' !in u && !Contains(AdjustOpen, u)
    ensures Contains(WrapOpenings(s), u) ==> Contains(s, u)
    decreases |s|
  {
    if s != [] && Contains(WrapOpenings(s), u) {
      var m := TabularEnd(s);
      if m > 0 {
        WrapOpeningsNoNew(s[m..], u);
        WrapNoNewAtOpening(s, m, u);
      } else {
        WrapOpeningsNoNew(s[1..], u);
        WrapNoNewAtChar(s, u);
      }
    }
  }

  /** The case of `WrapOpeningsNoNew` where the text starts a tabular opening. */
  lemma WrapNoNewAtOpening(s: string, m: nat, u: string)
    requires u != [] && '\\' !in u[1..] && '\n' !in u && !Contains(AdjustOpen, u)
    requires 0 < m == TabularEnd(s) && Contains(WrapOpenings(s), u)
    requires Contains(WrapOpenings(s[m..]), u) ==> Contains(s[m..], u)
    ensures Contains(s, u)
  {
    var w := WrapOpenings(s[m..]);
    PastAdjustOpen(s, m, u);
    var q := ContainsSplit(s[..m], w, u);
    if q >= m {
      ContainsSuffix(s, m, u);
    } else {
      WrapStraddle(s, m, u, q);
    }
  }

  /** An occurrence in a wrapped tabular opening is not in the inserted text. */
  lemma PastAdjustOpen(s: string, m: nat, u: string)
    requires '\n' !in u && !Contains(AdjustOpen, u)
    requires 0 < m == TabularEnd(s) && Contains(WrapOpenings(s), u)
    ensures Contains(s[..m] + WrapOpenings(s[m..]), u)
  {
    var t := s[..m] + WrapOpenings(s[m..]);
    assert WrapOpenings(s) == AdjustOpen + s[..m] + WrapOpenings(s[m..]);
    ConcatAssoc(AdjustOpen, s[..m], WrapOpenings(s[m..]));
    AdjustOpenLast();
    PastPrefix(AdjustOpen, t, u);
  }

  lemma AdjustOpenLast()
    ensures AdjustOpen != [] && AdjustOpen[|AdjustOpen| - 1] == '\n'
  {
  }

  /** The case of `WrapOpeningsNoNew` where the first character is copied. */
  lemma WrapNoNewAtChar(s: string, u: string)
    requires u != [] && '\\' !in u[1..]
    requires s != [] && TabularEnd(s) == 0 && Contains(WrapOpenings(s), u)
    requires Contains(WrapOpenings(s[1..]), u) ==> Contains(s[1..], u)
    ensures Contains(s, u)
  {
    var w := WrapOpenings(s[1..]);
    assert WrapOpenings(s) == [s[0]] + w;
    var q := ContainsSplit([s[0]], w, u);
    if q >= 1 {
      ContainsSuffix(s, 1, u);
    } else {
      assert StartsWith(s, u) by {
        ConsPrefix(s[0], w, u);
        WrapOpeningsPrefixBack(s[1..], u[1..]);
        HeadAndTail(s, u);
      }
    }
  }

  /** An occurrence that starts in a matched tabular opening was in the input. */
  lemma WrapStraddle(s: string, m: nat, u: string, q: nat)
    requires 0 < m == TabularEnd(s) && u != [] && '\\' !in u[1..]
    requires q < m && q + |u| <= |s[..m] + WrapOpenings(s[m..])|
    requires (s[..m] + WrapOpenings(s[m..]))[q..q + |u|] == u
    ensures Contains(s, u)
  {
    var w := WrapOpenings(s[m..]);
    if q + |u| > m {
      StraddleTail(s[..m], w, u, q, '\\');
      WrapOpeningsPrefixBack(s[m..], u[m - q..]);
    }
    StraddleBack(s, m, w, u, q);
  }

  /** An occurrence starting in a kept prefix `s[..m]` of `s`, whose part
      past `m` also starts `s[m..]`, is an occurrence in `s`. */
  lemma StraddleBack(s: string, m: nat, w: string, u: string, q: nat)
    requires q < m <= |s| && q + |u| <= |s[..m] + w| && (s[..m] + w)[q..q + |u|] == u
    requires q + |u| > m ==> StartsWith(s[m..], u[m - q..])
    ensures Contains(s, u)
  {
    var t := s[..m] + w;
    if q + |u| <= m {
      assert s[q..][..|u|] == t[q..q + |u|];
    } else {
      var v := u[m - q..];
      assert u == t[q..m] + v;
      assert s[q..][..|u|] == s[q..m] + s[m..][..|v|];
    }
    ContainsAt(s, u, q);
  }

  /** Every guarded pattern stays clear of the adjustbox texts. */
  lemma GuardedAgainstWrap(u: string)
    requires Guarded(u)
    ensures u != [] && '\\' !in u[1..] && '\n' !in u && !Contains(AdjustOpen, u)
    ensures CloseWrap[0] !in u[1..] && NoTailOverlap(CloseWrap, u) && !Contains(CloseWrap, u)
  {
    GuardedShape(u);
    AdjustTextsPlain();
    if u == FigureStar || u == TableStar {
      StarClearOfWrap(u);
    } else {
      BracketClearOfWrap(u);
    }
  }

  /** A guarded pattern has a backslash at most at its head and no newline. */
  lemma GuardedShape(u: string)
    requires Guarded(u)
    ensures u != [] && '\\' !in u[1..] && '\n' !in u
  {
    if u == FigureBracket || u == TableBracket {
      BracketShape(u);
    }
  }

  lemma BracketShape(u: string)
    requires u == FigureBracket || u == TableBracket
    ensures u != [] && '\\' !in u[1..] && '\n' !in u
  {
    var opening := if u == FigureBracket then BeginFigure else BeginTable;
    OpeningTailPlain(opening);
    assert u[1..] == opening[1..] + "[";
  }

  lemma StarClearOfWrap(u: string)
    requires u == FigureStar || u == TableStar
    requires '*' !in AdjustOpen && '*' !in CloseWrap && '\\' !in u[1..]
    ensures !Contains(AdjustOpen, u) && !Contains(CloseWrap, u)
    ensures CloseWrap[0] !in u[1..] && NoTailOverlap(CloseWrap, u)
  {
    NotContainsByChar(AdjustOpen, u, '*');
    NotContainsByChar(CloseWrap, u, '*');
    assert u[..|u| - 1] == if u == FigureStar then FigureWord else TableWord;
    TailOverlapByLast(CloseWrap, u);
  }

  lemma BracketClearOfWrap(u: string)
    requires u == FigureBracket || u == TableBracket
    requires '[' !in AdjustOpen && '[' !in CloseWrap && '\\' !in u[1..]
    ensures !Contains(AdjustOpen, u) && !Contains(CloseWrap, u)
    ensures CloseWrap[0] !in u[1..] && NoTailOverlap(CloseWrap, u)
  {
    NotContainsByChar(AdjustOpen, u, '[');
    NotContainsByChar(CloseWrap, u, '[');
    CloseWrapTail();
    TailOverlapByHead(CloseWrap, u);
  }

  /** The last fourteen characters of the closing hold no backslash. */
  lemma CloseWrapTail()
    ensures |CloseWrap| == 29 && '\\' !in CloseWrap[15..]
  {
    assert CloseWrap[15..] == "end{" + AdjustboxWord + "}";
  }

  /** The adjustbox texts hold no star and no bracket. */
  lemma AdjustTextsPlain()
    ensures '*' !in AdjustOpen && '[' !in AdjustOpen
    ensures '*' !in CloseWrap && '[' !in CloseWrap
  {
    AdjustOpenNoStar();
    AdjustOpenNoBracket();
    CloseWrapPlain();
  }

  lemma AdjustOpenNoStar()
    ensures '*' !in AdjustOpen
  {
  }

  lemma AdjustOpenNoBracket()
    ensures '[' !in AdjustOpen
  {
  }

  lemma CloseWrapPlain()
    ensures '*' !in CloseWrap && '[' !in CloseWrap
  {
    assert '*' !in TabularClose && '[' !in TabularClose;
  }

  /** The tabular wrapping creates no guarded pattern. */
  lemma WrapTabularNoNew(s: string, u: string)
    requires Guarded(u)
    ensures Contains(WrapTabular(s), u) ==> Contains(s, u)
  {
    if Contains(s, TabularWord) && !Contains(s, AdjustboxWord) {
      GuardedAgainstWrap(u);
      WrapOpeningsNoNew(s, u);
      ReplaceNoNewAcross(WrapOpenings(s), TabularClose, CloseWrap, u);
    }
  }

  // ---------------------------------------------------------------------------
  // Step 4 creates no guarded pattern, no `tabular` and no `\end{tabular}`

  predicate CenteringSafe(u: string) {
    Guarded(u) || u == TabularWord || u == TabularClose
  }

  lemma CenteringGuardsStar(opening: string, u: string)
    requires opening == BeginFigure || opening == BeginTable
    requires u == FigureStar || u == TableStar
    ensures NoTailOverlap(opening + Centering, u) && !Contains(opening + Centering, u)
  {
    NotContainsByChar(opening + Centering, u, '*');
    TailOverlapByHead(opening + Centering, u);
  }

  lemma CenteringGuardsBracket(opening: string, u: string)
    requires opening == BeginFigure || opening == BeginTable
    requires u == FigureBracket || u == TableBracket
    ensures NoTailOverlap(opening + Centering, u) && !Contains(opening + Centering, u)
  {
    CentredNoBracket(opening);
    BracketFacts(u);
    CenteringFacts();
    NotContainsByChar(opening + Centering, u, '[');
    MismatchAt(u, Centering, 1);
    TailOverlapShort(Centering, u);
    NotContainsByChar(u, Centering, 'c');
    TailOverlapConcat(opening, Centering, u);
  }

  lemma CentredNoBracket(opening: string)
    requires opening == BeginFigure || opening == BeginTable
    ensures '[' !in opening + Centering
  {
  }

  lemma BracketFacts(u: string)
    requires u == FigureBracket || u == TableBracket
    ensures '[' in u && |u| > 1 && u[0] == '\\' && u[1] == 'b' && 'c' !in u
  {
    assert u[|u| - 1] == '[';
  }

  lemma CenteringFacts()
    ensures |Centering| > 1 && Centering[1] == 'c' && 'c' in Centering && '\\' !in Centering[1..]
  {
  }

  lemma CenteringGuardsTabular(opening: string, u: string)
    requires opening == BeginFigure || opening == BeginTable
    requires u == TabularWord || u == TabularClose
    ensures NoTailOverlap(opening + Centering, u) && !Contains(opening + Centering, u)
  {
    var rep := opening + Centering;
    CentredLetters(opening);
    TabularLetters();
    if u == TabularClose {
      NotContainsByChar(rep, u, 'd');
    } else if opening == BeginFigure {
      NotContainsByChar(rep, u, 'l');
    } else {
      NotContainsByChar(rep, u, 'u');
    }
    TailOverlapByLast(rep, u);
  }

  /** The letters of a centred opening that the tabular texts need. */
  lemma CentredLetters(opening: string)
    requires opening == BeginFigure || opening == BeginTable
    ensures opening + Centering != [] && (opening + Centering)[|opening + Centering| - 1] == 'g'
    ensures 'd' !in opening + Centering
    ensures opening == BeginFigure ==> 'l' !in opening + Centering
    ensures opening == BeginTable ==> 'u' !in opening + Centering
  {
    assert Centering[|Centering| - 1] == 'g';
  }

  lemma TabularLetters()
    ensures 'g' !in TabularWord[..|TabularWord| - 1] && 'l' in TabularWord && 'u' in TabularWord
    ensures 'g' !in TabularClose[..|TabularClose| - 1] && 'd' in TabularClose
  {
  }

  /** One centering pass creates none of these patterns. */
  lemma CenteringPassNoNew(s: string, opening: string, u: string)
    requires opening == BeginFigure || opening == BeginTable
    requires CenteringSafe(u)
    ensures Contains(Replace(s, opening, opening + Centering), u) ==> Contains(s, u)
  {
    CenteringGuards(opening, u);
    CentredHead(opening);
    ReplaceNoNewAcross(s, opening, opening + Centering, u);
  }

  lemma CenteringGuards(opening: string, u: string)
    requires opening == BeginFigure || opening == BeginTable
    requires CenteringSafe(u)
    ensures u != [] && '\\' !in u[1..]
    ensures NoTailOverlap(opening + Centering, u) && !Contains(opening + Centering, u)
  {
    if u == FigureStar || u == TableStar {
      GuardedShape(u);
      CenteringGuardsStar(opening, u);
    } else if u == FigureBracket || u == TableBracket {
      GuardedShape(u);
      CenteringGuardsBracket(opening, u);
    } else {
      TabularShape(u);
      CenteringGuardsTabular(opening, u);
    }
  }

  lemma TabularShape(u: string)
    requires u == TabularWord || u == TabularClose
    ensures u != [] && '\\' !in u[1..]
  {
  }

  lemma CentredHead(opening: string)
    requires opening == BeginFigure || opening == BeginTable
    ensures opening != [] && (opening + Centering)[0] == '\\'
  {
  }

  lemma AddCenteringNoNew(s: string, u: string)
    requires CenteringSafe(u)
    ensures Contains(AddCentering(s), u) ==> Contains(s, u)
  {
    if !Contains(s, Centering) {
      CenteringPassNoNew(s, BeginFigure, u);
      CenteringPassNoNew(Replace(s, BeginFigure, BeginFigure + Centering), BeginTable, u);
    }
  }

  // ---------------------------------------------------------------------------
  // No float opening directly followed by `[`

  predicate Unplaced(s: string) {
    !Contains(s, FigureBracket) && !Contains(s, TableBracket)
  }

  lemma UnplacedSuffix(s: string, j: nat)
    requires j <= |s| && Unplaced(s)
    ensures Unplaced(s[j..])
  {
    if Contains(s[j..], FigureBracket) {
      ContainsSuffix(s, j, FigureBracket);
    }
    if Contains(s[j..], TableBracket) {
      ContainsSuffix(s, j, TableBracket);
    }
  }

  /** An opening not followed by `[` has no placement option. */
  lemma NoGroupAfterOpening(s: string, k: nat)
    requires Unplaced(s) && k == FloatOpening(s) > 0
    ensures BracketGroup(s[k..]) == 0
  {
    if k < |s| && s[k] == '[' {
      OpeningBracketFound(s, k);
    }
  }

  lemma OpeningBracketFound(s: string, k: nat)
    requires k == FloatOpening(s) > 0 && k < |s| && s[k] == '['
    ensures Contains(s, FigureBracket) || Contains(s, TableBracket)
  {
    var o := s[..k];
    assert StartsWith(s, o + "[") by {
      assert s[..k + 1] == o + "[";
    }
    assert Contains(s, o + "[");
  }

  /** Dropping placements from such text changes nothing. */
  lemma {:induction false} UnplacedFixed(s: string)
    requires Unplaced(s)
    ensures DropPlacement(s) == s
    decreases |s|
  {
    if s != [] {
      var k := FloatOpening(s);
      if k > 0 {
        UnplacedSuffix(s, k);
        UnplacedFixed(s[k..]);
        FixedAtOpening(s, k);
      } else {
        UnplacedSuffix(s, 1);
        UnplacedFixed(s[1..]);
        FixedAtChar(s);
      }
    }
  }

  lemma FixedAtOpening(s: string, k: nat)
    requires Unplaced(s) && k == FloatOpening(s) > 0 && DropPlacement(s[k..]) == s[k..]
    ensures DropPlacement(s) == s
  {
    NoGroupAfterOpening(s, k);
    FixedAfterOpening(s, k);
  }

  /** An opening without a placement option, in front of a fixed point. */
  lemma FixedAfterOpening(s: string, k: nat)
    requires k == FloatOpening(s) > 0 && BracketGroup(s[k..]) == 0
    requires DropPlacement(s[k..]) == s[k..]
    ensures DropPlacement(s) == s
  {
    var t := s[k..];
    assert s[k + BracketGroup(s[k..])..] == t;
    DropAtOpening(s, k);
    SplitRejoins(s, k, t);
  }

  /** A text is its prefix followed by the rest. */
  lemma SplitRejoins(s: string, k: nat, t: string)
    requires k <= |s| && t == s[k..]
    ensures s[..k] + t == s
  {
  }

  lemma FixedAtChar(s: string)
    requires s != [] && FloatOpening(s) == 0 && DropPlacement(s[1..]) == s[1..]
    ensures DropPlacement(s) == s
  {
    assert [s[0]] + s[1..] == s;
  }

  /** An opening has its only backslash at its head. */
  lemma BackslashAtHead(opening: string)
    requires opening == BeginFigure || opening == BeginTable
    ensures forall i :: 1 <= i < |opening| ==> opening[i] != '\\'
  {
    forall i | 1 <= i < |opening| ensures opening[i] != '\\' {
      assert opening[i] == opening[1..][i - 1];
    }
  }

  /** An occurrence of `FigureBracket` or `TableBracket` that starts inside
      an opening is that opening followed by `[`. */
  lemma OpeningOccurrence(opening: string, d: string, u: string, q: nat)
    requires opening == BeginFigure || opening == BeginTable
    requires u == FigureBracket || u == TableBracket
    requires q < |opening| && q + |u| <= |opening + d| && (opening + d)[q..q + |u|] == u
    ensures d != [] && d[0] == '['
  {
    BackslashAtHead(opening);
    assert (opening + d)[q] == u[0] == '\\';
    assert q == 0;
    assert (opening + d)[7] == u[7];
    assert (opening + d)[|u| - 1] == '[';
  }

  /** An opening followed by clean text not starting with `[` is clean. */
  lemma OpeningThenUnplaced(opening: string, d: string)
    requires opening == BeginFigure || opening == BeginTable
    requires Unplaced(d) && (d == [] || d[0] != '[')
    ensures Unplaced(opening + d)
  {
    if Contains(opening + d, FigureBracket) {
      var q := ContainsSplit(opening, d, FigureBracket);
      if q < |opening| {
        OpeningOccurrence(opening, d, FigureBracket, q);
      }
    }
    if Contains(opening + d, TableBracket) {
      var q := ContainsSplit(opening, d, TableBracket);
      if q < |opening| {
        OpeningOccurrence(opening, d, TableBracket, q);
      }
    }
  }

  /** A leading occurrence in the copied text makes the input open a float. */
  lemma HeadOccurrenceOpens(s: string, u: string)
    requires u == FigureBracket || u == TableBracket
    requires s != [] && StartsWith([s[0]] + DropPlacement(s[1..]), u)
    ensures FloatOpening(s) > 0
  {
    var d := DropPlacement(s[1..]);
    ConsPrefix(s[0], d, u);
    BracketShape(u);
    DropPlacementPrefixBack(s[1..], u[1..]);
    HeadAndTail(s, u);
    var opening := BracketOpening(u);
    PrefixOfPrefix(s, u, opening);
  }

  lemma BracketOpening(u: string) returns (opening: string)
    requires u == FigureBracket || u == TableBracket
    ensures (opening == BeginFigure || opening == BeginTable) && StartsWith(u, opening)
  {
    opening := if u == FigureBracket then BeginFigure else BeginTable;
    assert u == opening + "[";
    assert u[..|opening|] == opening;
  }

  lemma PrefixOfPrefix(s: string, u: string, o: string)
    requires StartsWith(s, u) && StartsWith(u, o)
    ensures StartsWith(s, o)
  {
    assert s[..|o|] == s[..|u|][..|o|];
  }

  /** A copied character that opens no float keeps the text clean. */
  lemma HeadThenUnplaced(s: string)
    requires s != [] && FloatOpening(s) == 0 && Unplaced(DropPlacement(s[1..]))
    ensures Unplaced([s[0]] + DropPlacement(s[1..]))
  {
    var d := DropPlacement(s[1..]);
    if Contains([s[0]] + d, FigureBracket) {
      var q := ContainsSplit([s[0]], d, FigureBracket);
      if q == 0 {
        HeadOccurrenceOpens(s, FigureBracket);
      }
    }
    if Contains([s[0]] + d, TableBracket) {
      var q := ContainsSplit([s[0]], d, TableBracket);
      if q == 0 {
        HeadOccurrenceOpens(s, TableBracket);
      }
    }
  }

  /** After the placement step no opening is followed by `[`, when no
      opening carried two bracket groups. */
  lemma {:induction false} DropPlacementUnplaced(s: string)
    requires OneBracketGroup(s)
    ensures Unplaced(DropPlacement(s))
    decreases |s|
  {
    if s != [] {
      var k := FloatOpening(s);
      if k > 0 {
        var g := BracketGroup(s[k..]);
        var rest := s[k + g..];
        NoBracketAfterGroup(s, k, g);
        OneBracketGroupSuffix(s, k + g);
        DropPlacementUnplaced(rest);
        DropAtOpening(s, k);
        OpeningThenUnplaced(s[..k], DropPlacement(rest));
      } else {
        OneBracketGroupSuffix(s, 1);
        DropPlacementUnplaced(s[1..]);
        HeadThenUnplaced(s);
      }
    }
  }

  // ---------------------------------------------------------------------------
  // Centering keeps a finished tabular wrapping finished

  /** The adjustbox openings only ever lengthen the text. */
  lemma {:induction false} WrapOpeningsGrows(s: string)
    ensures |WrapOpenings(s)| >= |s|
    ensures WrapOpenings(s) != s ==> |WrapOpenings(s)| > |s|
    decreases |s|
  {
    if s != [] {
      var m := TabularEnd(s);
      if m > 0 {
        WrapOpeningsGrows(s[m..]);
      } else {
        WrapOpeningsGrows(s[1..]);
        assert s == [s[0]] + s[1..];
      }
    }
  }

  lemma WrapFixedHead(s: string)
    requires s != [] && WrapOpenings(s) == s
    ensures TabularEnd(s) == 0 && WrapOpenings(s[1..]) == s[1..]
  {
    if TabularEnd(s) > 0 {
      WrapOpeningsGrows(s[TabularEnd(s)..]);
    } else {
      assert WrapOpenings(s)[1..] == WrapOpenings(s[1..]);
    }
  }

  lemma {:induction false} WrapFixedSuffix(s: string, j: nat)
    requires j <= |s| && WrapOpenings(s) == s
    ensures WrapOpenings(s[j..]) == s[j..]
    decreases j
  {
    if j > 0 {
      WrapFixedHead(s);
      WrapFixedSuffix(s[1..], j - 1);
      assert s[1..][j - 1..] == s[j..];
    }
  }

  /** Whether a search for `c` fails does not depend on text before it. */
  lemma {:induction false} CloseAtShift(a: string, t: string, i: nat, c: char)
    requires i <= |t| && c != '\n'
    ensures (CloseAt(a + t, |a| + i, c) == 0) == (CloseAt(t, i, c) == 0)
    decreases |t| - i
  {
    if i < |t| {
      assert (a + t)[|a| + i] == t[i];
      if t[i] != '\n' && t[i] != c {
        CloseAtShift(a, t, i + 1, c);
      }
    }
  }

  /** A failed search for `c` from `i` meets a newline before any `c`. */
  lemma {:induction false} CloseAtBlocked(t: string, i: nat, q: nat, c: char)
    requires i <= q < |t| && c != '\n' && t[q] == c && CloseAt(t, i, c) == 0
    ensures '\n' in t[i..q]
    decreases q - i
  {
    if t[i] == '\n' {
      assert t[i..q][0] == '\n';
    } else {
      CloseAtBlocked(t, i + 1, q, c);
      assert t[i + 1..q] == t[i..q][1..];
    }
  }

  lemma NewlineInPattern(t: string, pat: string, q: nat)
    requires q < |pat| <= |t| && t[..|pat|] == pat && '\n' in t[0..q]
    ensures '\n' in pat
  {
    assert t[0..q] == pat[..q];
  }

  /** Text whose search for `}` fails cannot start with a pattern that holds
      a `}` and no newline. */
  lemma NotLeadingPattern(t: string, pat: string)
    requires '\n' !in pat && '}' in pat && |pat| <= |t| && CloseAt(t, 0, '}') == 0
    ensures t[..|pat|] != pat
  {
    var q :| 0 <= q < |pat| && pat[q] == '}';
    if t[..|pat|] == pat {
      assert t[q] == t[..|pat|][q];
      CloseAtBlocked(t, 0, q, '}');
      NewlineInPattern(t, pat, q);
    }
  }

  /** Replacing such a pattern keeps the search for `}` failing. */
  lemma {:induction false} CloseAtReplace(t: string, pat: string, rep: string)
    requires pat != [] && '\n' !in pat && '}' in pat && CloseAt(t, 0, '}') == 0
    ensures CloseAt(Replace(t, pat, rep), 0, '}') == 0
    decreases |t|
  {
    if |t| >= |pat| {
      if t[0] == '\n' {
        ReplaceStep(t, pat, rep, 0);
      } else {
        NotLeadingPattern(t, pat);
        var r := Replace(t[1..], pat, rep);
        assert Replace(t, pat, rep) == [t[0]] + r;
        assert t == [t[0]] + t[1..];
        CloseAtShift([t[0]], t[1..], 0, '}');
        CloseAtReplace(t[1..], pat, rep);
        CloseAtShift([t[0]], r, 0, '}');
      }
    }
  }

  /** The centering pass never completes a tabular opening where the input
      had none. */
  lemma TabularEndKept(s: string, opening: string)
    requires opening == BeginFigure || opening == BeginTable
    requires s != [] && TabularEnd(s) == 0 && (|s| < |opening| || s[..|opening|] != opening)
    ensures TabularEnd([s[0]] + Replace(s[1..], opening, opening + Centering)) == 0
  {
    var out := [s[0]] + Replace(s[1..], opening, opening + Centering);
    if StartsWith(out, TabularOpen) {
      TabularOpenBack(s, opening);
      var t := s[|TabularOpen|..];
      assert s == TabularOpen + t;
      assert CloseAt(TabularOpen + t, |TabularOpen|, '}') == 0;
      TabularSearchKept(t, opening);
      assert Replace(s, opening, opening + Centering) == out;
      assert TabularEnd(out) == 0;
    }
  }

  /** A tabular opening at the head of the centred rest was in the input. */
  lemma TabularOpenBack(s: string, opening: string)
    requires opening == BeginFigure || opening == BeginTable
    requires s != [] && StartsWith([s[0]] + Replace(s[1..], opening, opening + Centering), TabularOpen)
    ensures StartsWith(s, TabularOpen)
  {
    var rep := opening + Centering;
    var out := [s[0]] + Replace(s[1..], opening, rep);
    var r := Replace(s[1..], opening, rep);
    assert StartsWith(r, TabularOpen[1..]) by {
      assert r[..|TabularOpen| - 1] == out[1..|TabularOpen|];
    }
    assert rep[0] == '\\';
    ReplacePrefixBack(s[1..], opening, rep, TabularOpen[1..]);
    HeadAndTail(s, TabularOpen);
  }

  /** Centering the text after a tabular opening copies the opening and
      keeps its search for `}` failing. */
  lemma TabularSearchKept(t: string, opening: string)
    requires opening == BeginFigure || opening == BeginTable
    requires CloseAt(TabularOpen + t, |TabularOpen|, '}') == 0
    ensures Replace(TabularOpen + t, opening, opening + Centering) == TabularOpen + Replace(t, opening, opening + Centering)
    ensures CloseAt(TabularOpen + Replace(t, opening, opening + Centering), |TabularOpen|, '}') == 0
  {
    var rep := opening + Centering;
    TabularOpenPlain();
    ReplaceSkipsWord(TabularOpen, t, opening, rep, if opening == BeginFigure then 7 else 10);
    CloseAtShift(TabularOpen, t, 0, '}');
    OpeningHasBrace(opening);
    CloseAtReplace(t, opening, rep);
    CloseAtShift(TabularOpen, Replace(t, opening, rep), 0, '}');
  }

  lemma TabularOpenPlain()
    ensures '\\' !in TabularOpen[1..] && |TabularOpen| == 14
  {
  }

  lemma OpeningHasBrace(opening: string)
    requires opening == BeginFigure || opening == BeginTable
    ensures opening != [] && '\n' !in opening && '}' in opening
  {
    assert opening[|opening| - 1] == '}';
  }

  /** A word with a backslash at most at its head, in front of a text that
      does not start a tabular opening, is copied by the wrapping. */
  lemma WrapSkipsWord(u: string, w: string)
    requires u != [] && '\\' !in u[1..] && !StartsWith(u + w, TabularOpen)
    ensures WrapOpenings(u + w) == u + WrapOpenings(w)
  {
    var s := u + w;
    assert TabularEnd(s) == 0;
    assert s[1..] == u[1..] + w;
    WrapOpeningsPlain(u[1..], w);
    ConcatAssoc([u[0]], u[1..], WrapOpenings(w));
    assert [u[0]] + u[1..] == u;
  }

  /** One centering pass keeps text without tabular openings without them. */
  lemma {:induction false} WrapFixedReplace(s: string, opening: string)
    requires opening == BeginFigure || opening == BeginTable
    requires WrapOpenings(s) == s
    ensures WrapOpenings(Replace(s, opening, opening + Centering)) == Replace(s, opening, opening + Centering)
    decreases |s|
  {
    var rep := opening + Centering;
    if |s| >= |opening| {
      if s[..|opening|] == opening {
        var r := Replace(s[|opening|..], opening, rep);
        WrapFixedSuffix(s, |opening|);
        WrapFixedReplace(s[|opening|..], opening);
        assert Replace(s, opening, rep) == rep + r;
        CentredOpeningFixed(opening, r);
      } else {
        WrapFixedHead(s);
        WrapFixedReplace(s[1..], opening);
        TabularEndKept(s, opening);
        assert Replace(s, opening, rep) == [s[0]] + Replace(s[1..], opening, rep);
        ConsFixed(s[0], Replace(s[1..], opening, rep));
      }
    }
  }

  /** A centred opening in front of text without tabular openings adds none. */
  lemma CentredOpeningFixed(opening: string, r: string)
    requires opening == BeginFigure || opening == BeginTable
    requires WrapOpenings(r) == r
    ensures WrapOpenings(opening + Centering + r) == opening + Centering + r
  {
    CenteringNotTabular(r);
    WrapSkipsWord(Centering, r);
    OpeningTailPlain(opening);
    OpeningNotTabular(opening, Centering + r);
    WrapSkipsWord(opening, Centering + r);
    ConcatAssoc(opening, Centering, r);
  }

  lemma CenteringNotTabular(r: string)
    ensures Centering != [] && '\\' !in Centering[1..] && !StartsWith(Centering + r, TabularOpen)
  {
    assert (Centering + r)[1] == 'c' && TabularOpen[1] == 'b';
    MismatchAt(Centering + r, TabularOpen, 1);
  }

  lemma OpeningNotTabular(opening: string, r: string)
    requires opening == BeginFigure || opening == BeginTable
    ensures !StartsWith(opening + r, TabularOpen)
  {
    if opening == BeginFigure {
      assert (opening + r)[7] == 'f' && TabularOpen[7] == 't';
      MismatchAt(opening + r, TabularOpen, 7);
    } else {
      assert (opening + r)[10] == 'l' && TabularOpen[10] == 'u';
      MismatchAt(opening + r, TabularOpen, 10);
    }
  }

  /** A character that starts no tabular opening, in front of text without
      them, adds none. */
  lemma ConsFixed(c: char, r: string)
    requires TabularEnd([c] + r) == 0 && WrapOpenings(r) == r
    ensures WrapOpenings([c] + r) == [c] + r
  {
    assert ([c] + r)[1..] == r;
  }

  /** Centering code whose tabular wrapping has nothing left to do leaves
      the wrapping with nothing to do. */
  lemma AddCenteringKeepsWrapped(x: string)
    requires WrapTabular(x) == x
    ensures WrapTabular(AddCentering(x)) == AddCentering(x)
  {
    if !Contains(x, Centering) {
      var y := Replace(x, BeginFigure, BeginFigure + Centering);
      var z := Replace(y, BeginTable, BeginTable + Centering);
      if Contains(x, AdjustboxWord) {
        ReplaceKeepsContains(x, BeginFigure, Centering, AdjustboxWord);
        ReplaceKeepsContains(y, BeginTable, Centering, AdjustboxWord);
      } else if !Contains(x, TabularWord) {
        AddCenteringNoNew(x, TabularWord);
      } else {
        WrapOpeningsGrows(x);
        ReplaceGrows(WrapOpenings(x), TabularClose, CloseWrap);
        assert WrapOpenings(x) == x;
        ReplaceGrows(x, TabularClose, CloseWrap);
        WrapFixedReplace(x, BeginFigure);
        WrapFixedReplace(y, BeginTable);
        AddCenteringNoNew(x, TabularClose);
        ReplaceAbsent(z, TabularClose, CloseWrap);
      }
    }
  }
}
