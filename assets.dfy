/**
 * The tags the float pattern is made of: `\begin{ENV}` / `\begin{ENV*}` and
 * `\end{ENV}` / `\end{ENV*}`, and the match that runs from an opening tag to
 * the first closing tag after it.
 */
module FloatTags {
  import opened Strings
  import opened Options

  /** Length of the tag `prefix}` or `prefix*}` that starts `s`, or 0. */
  function TagLen(s: string, prefix: string): (n: nat)
    ensures n <= |s|
  {
    if StartsWith(s, prefix + "}") then |prefix| + 1
    else if StartsWith(s, prefix + "*}") then |prefix| + 2
    else 0
  }

  /** A tag `prefix}` or `prefix*}` starts at position `k` of `s`. */
  predicate TagAt(s: string, prefix: string, k: nat)
    requires k <= |s|
  {
    TagLen(s[k..], prefix) > 0
  }

  /** Where the first tag `prefix}` / `prefix*}` starts in `s`: the lazy
      `.*?` stops at the first closing tag. */
  function FirstTag(s: string, prefix: string): (r: Option<nat>)
    requires prefix != []
    ensures r.Some? ==> r.value < |s| && TagAt(s, prefix, r.value)
    ensures forall k :: 0 <= k < |s| && (r.None? || k < r.value) ==> !TagAt(s, prefix, k)
    decreases |s|
  {
    if s == [] then None
    else if TagLen(s, prefix) > 0 then Some(0)
    else
      var r := FirstTag(s[1..], prefix);
      var q := if r.Some? then Some(r.value + 1) else None;
      assert s[0..] == s;
      assert !TagAt(s, prefix, 0);
      assert forall k :: 1 <= k < |s| && (q.None? || k < q.value) ==> !TagAt(s, prefix, k) by {
        forall k | 1 <= k < |s| && (q.None? || k < q.value) ensures !TagAt(s, prefix, k) {
          assert !TagAt(s[1..], prefix, k - 1);
          assert s[1..][k - 1..] == s[k..];
        }
      }
      assert q.Some? ==> TagAt(s, prefix, q.value) by {
        if q.Some? {
          assert TagAt(s[1..], prefix, r.value);
          assert s[q.value..] == s[1..][r.value..];
        }
      }
      q
  }

  function OpenPrefix(env: string): string { "\\begin{" + env }
  function ClosePrefix(env: string): string { "\\end{" + env }

  /** Length from the start of `t` to the end of its first tag `cp}` /
      `cp*}`, or 0 when there is none. */
  function CloseEnd(t: string, cp: string): (n: nat)
    requires cp != []
    ensures n <= |t|
  {
    var f := FirstTag(t, cp);
    if f.None? then 0 else f.value + TagLen(t[f.value..], cp)
  }

  /** Length of the span from the tag `op}` / `op*}` that starts `s` to the
      end of the first tag `cp}` / `cp*}` after it, or 0 when there is no
      such span. */
  function SpanLen(s: string, op: string, cp: string): (n: nat)
    requires cp != []
    ensures n <= |s|
  {
    var open := TagLen(s, op);
    if open == 0 || CloseEnd(s[open..], cp) == 0 then 0
    else open + CloseEnd(s[open..], cp)
  }

  /** Length of the float block that starts `s`, or 0 when no block starts here
      (no opening tag, or no closing tag after it). */
  function BlockLen(s: string, env: string): (n: nat)
    ensures n <= |s|
  {
    SpanLen(s, OpenPrefix(env), ClosePrefix(env))
  }
}

/**
 * `LatexIngestor._extrair_e_remover_assets`: figure and table environments
 * are lifted out of a section's text, figures first, then tables from what
 * remains.
 */
module AssetExtractor {
  import opened Strings
  import opened Options
  import opened Records
  import opened FloatTags

  // ===========================================================================
  // Float extraction (`_extrair_e_remover_assets`)
  //
  // Pattern r'(\\begin\{ENV\*?\}.*?\\end\{ENV\*?\})' with re.DOTALL, used by
  // findall and by sub: leftmost, non-overlapping, shortest match.

  /** One whole match of the float pattern: an opening tag, then everything
      up to and including the first closing tag after it. */
  predicate FloatBlock(code: string, env: string) {
    code != [] && BlockLen(code, env) == |code|
  }

  /** A tag survives truncation when it fits, and truncation creates none. */
  lemma {:induction false} TagLenTruncate(t: string, prefix: string, m: nat)
    requires m <= |t|
    ensures TagLen(t, prefix) <= m ==> TagLen(t[..m], prefix) == TagLen(t, prefix)
    ensures TagLen(t[..m], prefix) > 0 ==> TagLen(t, prefix) == TagLen(t[..m], prefix)
  {
    assert forall q :: |q| <= m ==> (StartsWith(t[..m], q) <==> StartsWith(t, q));
  }

  /** The first tag is the one before which there is none. */
  lemma FirstTagIs(s: string, prefix: string, j: nat)
    requires prefix != [] && j < |s| && TagAt(s, prefix, j)
    requires forall k :: 0 <= k < j ==> !TagAt(s, prefix, k)
    ensures FirstTag(s, prefix) == Some(j)
  {
  }

  function TotalLength(codes: seq<string>): nat {
    if codes == [] then 0 else |codes[0]| + TotalLength(codes[1..])
  }

  /** findall and sub of one float pattern: the text with every match
      deleted, and the matches in order. */
  function ScanFloats(s: string, env: string): (r: (string, seq<string>))
    ensures |r.0| + TotalLength(r.1) == |s|
    decreases |s|
  {
    if s == [] then ([], [])
    else
      var n := BlockLen(s, env);
      if n > 0 then
        var rest := ScanFloats(s[n..], env);
        (rest.0, [s[..n]] + rest.1)
      else
        var rest := ScanFloats(s[1..], env);
        ([s[0]] + rest.0, rest.1)
  }

  /** Truncation creates no tag. */
  lemma NoTagTruncate(t: string, prefix: string, m: nat, k: nat)
    requires k <= m <= |t| && !TagAt(t, prefix, k)
    ensures !TagAt(t[..m], prefix, k)
  {
    assert t[..m][k..] == t[k..][..m - k];
    TagLenTruncate(t[k..], prefix, m - k);
  }

  lemma {:induction false} NoTagBeforeTruncate(t: string, prefix: string, m: nat, j: nat)
    requires prefix != [] && FirstTag(t, prefix) == Some(j)
    requires j <= m <= |t|
    ensures forall k :: 0 <= k < j ==> !TagAt(t[..m], prefix, k)
  {
    forall k | 0 <= k < j ensures !TagAt(t[..m], prefix, k) {
      NoTagTruncate(t, prefix, m, k);
    }
  }

  /** Cutting the text right after its first tag keeps that tag first. */
  lemma {:induction false} FirstTagTruncate(t: string, prefix: string, m: nat)
    requires prefix != [] && FirstTag(t, prefix).Some?
    requires FirstTag(t, prefix).value + TagLen(t[FirstTag(t, prefix).value..], prefix) <= m <= |t|
    ensures FirstTag(t[..m], prefix) == FirstTag(t, prefix)
    ensures TagLen(t[..m][FirstTag(t, prefix).value..], prefix) == TagLen(t[FirstTag(t, prefix).value..], prefix)
  {
    var j := FirstTag(t, prefix).value;
    var u := t[..m];
    NoTagBeforeTruncate(t, prefix, m, j);
    var close := TagLen(t[j..], prefix);
    assert u[j..] == t[j..][..m - j];
    TagLenTruncate(t[j..], prefix, m - j);
    assert TagLen(u[j..], prefix) == close;
    FirstTagIs(u, prefix, j);
  }

  lemma CloseEndFrom(t: string, cp: string, j: nat)
    requires cp != [] && FirstTag(t, cp) == Some(j)
    ensures CloseEnd(t, cp) == j + TagLen(t[j..], cp) > 0
  {
  }

  /** Cutting the text right after its first closing tag keeps it. */
  lemma CloseEndTruncate(t: string, cp: string, m: nat)
    requires cp != [] && 0 < CloseEnd(t, cp) <= m <= |t|
    ensures CloseEnd(t[..m], cp) == CloseEnd(t, cp)
  {
    var j := FirstTag(t, cp).value;
    CloseEndFrom(t, cp, j);
    FirstTagTruncate(t, cp, m);
    CloseEndFrom(t[..m], cp, j);
  }

  /** A span is the text from its opening tag to its first closing tag. */
  lemma SpanIsWhole(s: string, op: string, cp: string)
    requires cp != [] && SpanLen(s, op, cp) > 0
    ensures SpanLen(s[..SpanLen(s, op, cp)], op, cp) == SpanLen(s, op, cp)
  {
    var n := SpanLen(s, op, cp);
    var open := TagLen(s, op);
    var e := CloseEnd(s[open..], cp);
    assert n == open + e;
    var c := s[..n];
    TagLenTruncate(s, op, n);
    assert c[open..] == s[open..][..e];
    CloseEndTruncate(s[open..], cp, e);
  }

  lemma BlockIsFloat(s: string, env: string)
    requires BlockLen(s, env) > 0
    ensures FloatBlock(s[..BlockLen(s, env)], env)
  {
    SpanIsWhole(s, OpenPrefix(env), ClosePrefix(env));
  }

  /** Every match is one whole float environment. */
  lemma {:induction false} ScanFloatsBlocks(s: string, env: string)
    ensures forall k :: 0 <= k < |ScanFloats(s, env).1| ==> FloatBlock(ScanFloats(s, env).1[k], env)
    decreases |s|
  {
    if s != [] {
      var n := BlockLen(s, env);
      if n > 0 {
        BlockIsFloat(s, env);
        ScanFloatsBlocks(s[n..], env);
        var rest := ScanFloats(s[n..], env);
        assert ScanFloats(s, env).1 == [s[..n]] + rest.1;
      } else {
        ScanFloatsBlocks(s[1..], env);
        assert ScanFloats(s, env).1 == ScanFloats(s[1..], env).1;
      }
    }
  }

  /** The pieces of text between consecutive matches, put back together
      with the matches in between. */
  function Weave(gaps: seq<string>, blocks: seq<string>): string
    requires |gaps| == |blocks| + 1
  {
    if blocks == [] then gaps[0] else gaps[0] + blocks[0] + Weave(gaps[1..], blocks[1..])
  }

  function Concat(pieces: seq<string>): string {
    if pieces == [] then [] else pieces[0] + Concat(pieces[1..])
  }

  /** A character put in front of the first gap goes in front of the whole. */
  lemma WeaveConsGap(c: char, g: seq<string>, blocks: seq<string>)
    requires |g| == |blocks| + 1
    ensures Weave([[c] + g[0]] + g[1..], blocks) == [c] + Weave(g, blocks)
  {
    var h := [[c] + g[0]] + g[1..];
    assert h[0] == [c] + g[0] && h[1..] == g[1..];
    if blocks != [] {
      var tail := blocks[0] + Weave(g[1..], blocks[1..]);
      calc {
        Weave(h, blocks);
        h[0] + blocks[0] + Weave(h[1..], blocks[1..]);
        ([c] + g[0]) + tail;
        { ConcatAssoc([c], g[0], tail); }
        [c] + (g[0] + tail);
        { ConcatAssoc(g[0], blocks[0], Weave(g[1..], blocks[1..])); }
        [c] + Weave(g, blocks);
      }
    }
  }

  lemma ConcatConsGap(c: char, g: seq<string>)
    requires g != []
    ensures Concat([[c] + g[0]] + g[1..]) == [c] + Concat(g)
  {
    var h := [[c] + g[0]] + g[1..];
    assert h[0] == [c] + g[0] && h[1..] == g[1..];
    ConcatAssoc([c], g[0], Concat(g[1..]));
  }

  /** A match at the start comes after an empty first gap. */
  lemma WeaveBlockFirst(block: string, g: seq<string>, blocks: seq<string>)
    requires |g| == |blocks| + 1
    ensures Weave([[]] + g, [block] + blocks) == block + Weave(g, blocks)
  {
    var h := [[]] + g;
    var b := [block] + blocks;
    assert h[0] == [] && h[1..] == g;
    assert b[0] == block && b[1..] == blocks;
    assert Weave(h, b) == [] + block + Weave(g, blocks);
  }

  lemma ConcatEmptyGap(g: seq<string>)
    ensures Concat([[]] + g) == Concat(g)
  {
    var h := [[]] + g;
    assert h[0] == [] && h[1..] == g;
  }

  /** A match at the start is taken whole, and the scan resumes after it. */
  lemma ScanAtBlock(s: string, env: string)
    requires BlockLen(s, env) > 0
    ensures ScanFloats(s, env) == (ScanFloats(s[BlockLen(s, env)..], env).0,
                                   [s[..BlockLen(s, env)]] + ScanFloats(s[BlockLen(s, env)..], env).1)
  {
  }

  /** Without a match at the start, the first character stays in the text. */
  lemma ScanAtChar(s: string, env: string)
    requires s != [] && BlockLen(s, env) == 0
    ensures ScanFloats(s, env) == ([s[0]] + ScanFloats(s[1..], env).0, ScanFloats(s[1..], env).1)
  {
  }

  /** No float block starts at any of the first `n` positions of `s`. */
  predicate NoBlockBefore(s: string, n: nat, env: string)
    requires n <= |s|
  {
    forall q :: 0 <= q < n ==> BlockLen(s[q..], env) == 0
  }

  /** Every gap is clear: from no position inside a gap does a float block
      start in the text that follows it. */
  predicate GapsClear(gaps: seq<string>, blocks: seq<string>, env: string)
    requires |gaps| == |blocks| + 1
    decreases |blocks|
  {
    && |gaps[0]| <= |Weave(gaps, blocks)|
    && NoBlockBefore(Weave(gaps, blocks), |gaps[0]|, env)
    && (blocks != [] ==> GapsClear(gaps[1..], blocks[1..], env))
  }

  /** The gaps and matches of `s`, given those of what follows a match of
      length `n` at its start: an empty gap comes first. */
  lemma SplitsAfterBlock(s: string, n: nat, g: seq<string>, blocks: seq<string>)
    requires 0 < n <= |s| && |g| == |blocks| + 1 && Weave(g, blocks) == s[n..]
    ensures Weave([[]] + g, [s[..n]] + blocks) == s
    ensures Concat([[]] + g) == Concat(g)
  {
    WeaveBlockFirst(s[..n], g, blocks);
    ConcatEmptyGap(g);
    assert s == s[..n] + s[n..];
  }

  /** An empty gap in front keeps the gaps clear. */
  lemma GapsClearEmptyFirst(block: string, g: seq<string>, blocks: seq<string>, env: string)
    requires |g| == |blocks| + 1 && GapsClear(g, blocks, env)
    ensures GapsClear([[]] + g, [block] + blocks, env)
  {
    var gaps := [[]] + g;
    var b := [block] + blocks;
    assert gaps[0] == [] && gaps[1..] == g && b[1..] == blocks;
  }

  /** The gaps and matches of `s`, given those of `s[1..]` when no match starts `s`. */
  lemma {:induction false} SplitsAfterChar(s: string, env: string, g: seq<string>) returns (gaps: seq<string>)
    requires s != [] && BlockLen(s, env) == 0
    requires |g| == |ScanFloats(s[1..], env).1| + 1
    requires Weave(g, ScanFloats(s[1..], env).1) == s[1..]
    requires Concat(g) == ScanFloats(s[1..], env).0
    requires GapsClear(g, ScanFloats(s[1..], env).1, env)
    ensures |gaps| == |ScanFloats(s, env).1| + 1
    ensures Weave(gaps, ScanFloats(s, env).1) == s
    ensures Concat(gaps) == ScanFloats(s, env).0
    ensures GapsClear(gaps, ScanFloats(s, env).1, env)
  {
    var rest := ScanFloats(s[1..], env);
    ScanAtChar(s, env);
    gaps := [[s[0]] + g[0]] + g[1..];
    WeaveConsGap(s[0], g, rest.1);
    ConcatConsGap(s[0], g);
    assert s == [s[0]] + s[1..];
    forall q | 0 <= q < |gaps[0]| ensures BlockLen(s[q..], env) == 0 {
      if q > 0 {
        assert s[q..] == s[1..][q - 1..];
      }
    }
    assert gaps[1..] == g[1..];
  }

  /** The narrative is the input with exactly the matched spans deleted: the
      input cuts into gaps and matches, alternating, in order; the narrative
      is the gaps alone; and no float block starts inside a gap, so every
      block the text holds outside the matches was found. */
  lemma {:induction false} ScanSplits(s: string, env: string) returns (gaps: seq<string>)
    ensures |gaps| == |ScanFloats(s, env).1| + 1
    ensures Weave(gaps, ScanFloats(s, env).1) == s
    ensures Concat(gaps) == ScanFloats(s, env).0
    ensures GapsClear(gaps, ScanFloats(s, env).1, env)
    decreases |s|
  {
    if s == [] {
      gaps := [[]];
      assert Concat(gaps) == [] + Concat([]);
    } else if BlockLen(s, env) > 0 {
      var n := BlockLen(s, env);
      var g := ScanSplits(s[n..], env);
      var blocks := ScanFloats(s[n..], env).1;
      ScanAtBlock(s, env);
      SplitsAfterBlock(s, n, g, blocks);
      GapsClearEmptyFirst(s[..n], g, blocks, env);
      gaps := [[]] + g;
    } else {
      var g := ScanSplits(s[1..], env);
      gaps := SplitsAfterChar(s, env, g);
    }
  }

  /** A scan finds a block exactly when one starts somewhere in the text. */
  lemma ScanFindsIff(s: string, env: string)
    ensures ScanFloats(s, env).1 != [] <==> exists q :: 0 <= q < |s| && BlockLen(s[q..], env) > 0
  {
    if ScanFloats(s, env).1 == [] {
      var gaps := ScanSplits(s, env);
      assert Weave(gaps, []) == gaps[0] == s;
    } else {
      ScanFoundStarts(s, env);
    }
  }

  lemma {:induction false} ScanFoundStarts(s: string, env: string)
    requires ScanFloats(s, env).1 != []
    ensures exists q :: 0 <= q < |s| && BlockLen(s[q..], env) > 0
    decreases |s|
  {
    if BlockLen(s, env) > 0 {
      assert s[0..] == s;
    } else {
      ScanAtChar(s, env);
      ScanFoundStarts(s[1..], env);
      var q :| 0 <= q < |s[1..]| && BlockLen(s[1..][q..], env) > 0;
      assert s[1..][q..] == s[q + 1..];
    }
  }

  /** A block at the very start is the first match, taken whole. */
  lemma FirstBlockFound(s: string, env: string)
    requires BlockLen(s, env) > 0
    ensures ScanFloats(s, env).1 != [] && ScanFloats(s, env).1[0] == s[..BlockLen(s, env)]
  {
    ScanAtBlock(s, env);
  }

  // ---------------------------------------------------------------------------
  // The two passes

  function AsAssets(codes: seq<string>, kind: string): (r: seq<Asset>)
    ensures |r| == |codes|
    ensures forall k :: 0 <= k < |r| ==> r[k] == Asset(kind, codes[k])
  {
    seq(|codes|, k requires 0 <= k < |codes| => Asset(kind, codes[k]))
  }

  function TotalCode(assets: seq<Asset>): nat {
    if assets == [] then 0 else |assets[0].code| + TotalCode(assets[1..])
  }

  lemma {:induction false} TotalCodeAppend(a: seq<Asset>, b: seq<Asset>)
    ensures TotalCode(a + b) == TotalCode(a) + TotalCode(b)
  {
    if a != [] {
      assert (a + b)[1..] == a[1..] + b;
      TotalCodeAppend(a[1..], b);
    } else {
      assert a + b == b;
    }
  }

  lemma {:induction false} TotalCodeOf(codes: seq<string>, kind: string)
    ensures TotalCode(AsAssets(codes, kind)) == TotalLength(codes)
  {
    if codes != [] {
      assert AsAssets(codes, kind)[1..] == AsAssets(codes[1..], kind);
      TotalCodeOf(codes[1..], kind);
    }
  }

  /** The float environment an asset of the given kind was cut from. */
  function EnvOf(kind: string): string {
    if kind == FigureKind then "figure" else "table"
  }

  /** `_extrair_e_remover_assets`: the narrative left after both passes and
      the assets, figures before tables. */
  function ExtractAssets(text: string): (string, seq<Asset>) {
    var figures := ScanFloats(text, "figure");
    var tables := ScanFloats(figures.0, "table");
    (tables.0, AsAssets(figures.1, FigureKind) + AsAssets(tables.1, TableKind))
  }

  /** Every asset is a whole figure or table environment of its own kind, and
      figures come before tables. */
  lemma ExtractAssetsKinds(text: string)
    ensures var r := ExtractAssets(text);
            && (forall k :: 0 <= k < |r.1| ==>
                  (r.1[k].kind == FigureKind || r.1[k].kind == TableKind) && FloatBlock(r.1[k].code, EnvOf(r.1[k].kind)))
            && (forall i, j :: 0 <= i < j < |r.1| && r.1[j].kind == FigureKind ==> r.1[i].kind == FigureKind)
  {
    var figures := ScanFloats(text, "figure");
    ScanFloatsBlocks(text, "figure");
    ScanFloatsBlocks(figures.0, "table");
  }

  /** Extraction conserves text: what the narrative lost is exactly what the
      assets hold. */
  lemma ExtractAssetsConserves(text: string)
    ensures |ExtractAssets(text).0| + TotalCode(ExtractAssets(text).1) == |text|
  {
    var figures := ScanFloats(text, "figure");
    var tables := ScanFloats(figures.0, "table");
    TotalCodeAppend(AsAssets(figures.1, FigureKind), AsAssets(tables.1, TableKind));
    TotalCodeOf(figures.1, FigureKind);
    TotalCodeOf(tables.1, TableKind);
  }

  /** Extraction in order: the section text is the figure-free text woven with
      the figures in order, and the figure-free text is the narrative woven
      with the tables in order. */
  lemma ExtractAssetsSplits(text: string) returns (figureGaps: seq<string>, tableGaps: seq<string>)
    ensures var figures := ScanFloats(text, "figure");
            && |figureGaps| == |figures.1| + 1
            && Weave(figureGaps, figures.1) == text
            && Concat(figureGaps) == figures.0
            && var tables := ScanFloats(figures.0, "table");
               && |tableGaps| == |tables.1| + 1
               && Weave(tableGaps, tables.1) == figures.0
               && Concat(tableGaps) == ExtractAssets(text).0
               && ExtractAssets(text).1 == AsAssets(figures.1, FigureKind) + AsAssets(tables.1, TableKind)
               && GapsClear(figureGaps, figures.1, "figure")
               && GapsClear(tableGaps, tables.1, "table")
  {
    figureGaps := ScanSplits(text, "figure");
    tableGaps := ScanSplits(ScanFloats(text, "figure").0, "table");
  }

  /** Nothing is missed: there is a figure asset exactly when a figure block
      starts somewhere in the text, and a table asset exactly when a table
      block starts somewhere in the text the figure pass leaves. */
  lemma ExtractAssetsComplete(text: string)
    ensures var r := ExtractAssets(text);
            (exists k :: 0 <= k < |r.1| && r.1[k].kind == FigureKind)
              <==> exists q :: 0 <= q < |text| && BlockLen(text[q..], "figure") > 0
    ensures var r := ExtractAssets(text);
            var rest := ScanFloats(text, "figure").0;
            (exists k :: 0 <= k < |r.1| && r.1[k].kind == TableKind)
              <==> exists q :: 0 <= q < |rest| && BlockLen(rest[q..], "table") > 0
  {
    var figures := ScanFloats(text, "figure");
    var tables := ScanFloats(figures.0, "table");
    KindsPresent(figures.1, tables.1);
    ScanFindsIff(text, "figure");
    ScanFindsIff(figures.0, "table");
  }

  /** In the figures-then-tables list, a figure is present exactly when some
      figure code is, and likewise for tables. */
  lemma KindsPresent(figures: seq<string>, tables: seq<string>)
    ensures var r := AsAssets(figures, FigureKind) + AsAssets(tables, TableKind);
            && ((exists k :: 0 <= k < |r| && r[k].kind == FigureKind) <==> figures != [])
            && ((exists k :: 0 <= k < |r| && r[k].kind == TableKind) <==> tables != [])
  {
    var f := AsAssets(figures, FigureKind);
    var r := f + AsAssets(tables, TableKind);
    assert FigureKind != TableKind;
    if figures != [] {
      assert r[0].kind == FigureKind;
    }
    if tables != [] {
      assert r[|f|].kind == TableKind;
    }
  }

  /** A figure at the very start of the text is the first asset, taken whole. */
  lemma LeadingFigureExtracted(text: string)
    requires BlockLen(text, "figure") > 0
    ensures ExtractAssets(text).1 != []
    ensures ExtractAssets(text).1[0] == Asset(FigureKind, text[..BlockLen(text, "figure")])
  {
    FirstBlockFound(text, "figure");
  }
}
