/**
 * `LatexIngestor.extrair_secoes`: the preprocessed text between
 * `\begin{document}` and the first `\end{document}` after it is split at
 * every `\section{...}` header; a long enough introduction becomes the
 * section "Contexto", and every header whose title does not look
 * bibliographic becomes a section, its floats taken out as assets.
 */
module SectionSplitter {
  import opened Options
  import opened Strings
  import opened Records
  import opened Preprocessor
  import opened AssetExtractor

  const BeginDocument: string := "\\begin{document}"
  const EndDocument: string := "\\end{document}"
  const SectionHead: string := "\\section{"
  const ContextTitle: string := "Contexto"
  /** The introduction must be longer than this, after stripping, to count. */
  const ContextMinLength: nat := 50

  // ===========================================================================
  // The document body

  /** `re.search(r'\\begin\{document\}(.*?)\\end\{document\}', s, re.DOTALL)`,
      group 1: from the first opening that some closing follows, up to the
      first closing after it. */
  function DocumentBody(s: string): (r: Option<string>)
    ensures r.Some? ==> exists i :: 0 <= i <= |s| && StartsWith(s[i..], BeginDocument)
                          && IndexOf(s[i..][|BeginDocument|..], EndDocument) == Some(|r.value|)
                          && r.value == s[i..][|BeginDocument|..][..|r.value|]
    ensures r.None? ==> forall i :: 0 <= i <= |s| && StartsWith(s[i..], BeginDocument)
                          ==> IndexOf(s[i..][|BeginDocument|..], EndDocument).None?
    decreases |s|
  {
    var n := |BeginDocument|;
    if StartsWith(s, BeginDocument) && IndexOf(s[n..], EndDocument).Some? then
      assert s[0..] == s;
      Some(s[n..][..IndexOf(s[n..], EndDocument).value])
    else if s == [] then
      None
    else
      var r := DocumentBody(s[1..]);
      assert forall i :: 1 <= i <= |s| ==> s[1..][i - 1..] == s[i..];
      if r.Some? then
        ghost var i :| 0 <= i <= |s[1..]| && StartsWith(s[1..][i..], BeginDocument)
                       && IndexOf(s[1..][i..][n..], EndDocument) == Some(|r.value|)
                       && r.value == s[1..][i..][n..][..|r.value|];
        assert s[1..][i..] == s[i + 1..];
        r
      else
        None
  }

  /** An opening of the document body at position `i` that some closing follows. */
  predicate BodyOpensAt(s: string, i: nat) {
    i <= |s| && StartsWith(s[i..], BeginDocument) && IndexOf(s[i..][|BeginDocument|..], EndDocument).Some?
  }

  /** The search settles on the first opening that a closing follows,
      whatever precedes it: the body runs from that opening to the first
      closing after it. */
  lemma {:induction false} DocumentBodyFirst(s: string, i: nat)
    requires BodyOpensAt(s, i)
    requires forall k :: 0 <= k < i ==> !BodyOpensAt(s, k)
    ensures DocumentBody(s) == Some(s[i..][|BeginDocument|..][..IndexOf(s[i..][|BeginDocument|..], EndDocument).value])
    decreases i
  {
    if i == 0 {
      assert s[0..] == s;
    } else {
      assert s[0..] == s && !BodyOpensAt(s, 0);
      assert s[1..][i - 1..] == s[i..];
      forall k | 0 <= k < i - 1 ensures !BodyOpensAt(s[1..], k) {
        assert s[1..][k..] == s[k + 1..];
        assert !BodyOpensAt(s, k + 1);
      }
      DocumentBodyFirst(s[1..], i - 1);
    }
  }

  /** A text whose first opening (no backslash comes before it) is followed
      by a closing yields what lies between the opening and the first closing. */
  lemma {:induction false} DocumentBodyFinds(pre: string, t: string, body: string)
    requires '\\' !in pre
    requires IndexOf(t, EndDocument) == Some(|body|) && t[..|body|] == body
    ensures DocumentBody(pre + (BeginDocument + t)) == Some(body)
    decreases |pre|
  {
    var u := BeginDocument + t;
    if pre == [] {
      assert pre + u == u;
      DocumentBodyAt(u, t, body);
    } else {
      var s := pre + u;
      TailOfAppend(pre, u);
      assert s[0] == pre[0];
      DocumentBodySkip(s);
      DocumentBodyFinds(pre[1..], t, body);
    }
  }

  lemma TailOfAppend(a: string, b: string)
    requires a != []
    ensures (a + b)[0] == a[0] && (a + b)[1..] == a[1..] + b
  {
  }

  lemma DocumentBodySkip(s: string)
    requires s != [] && s[0] != '\\'
    ensures DocumentBody(s) == DocumentBody(s[1..])
  {
    assert !StartsWith(s, BeginDocument) by { assert BeginDocument[0] == '\\'; }
  }

  lemma DocumentBodyAt(s: string, t: string, body: string)
    requires s == BeginDocument + t
    requires IndexOf(t, EndDocument) == Some(|body|) && t[..|body|] == body
    ensures DocumentBody(s) == Some(body)
  {
    var n := |BeginDocument|;
    assert s[..n] == BeginDocument;
    assert s[n..] == t;
  }

  // ===========================================================================
  // Splitting at section headers

  /** `re.split(r'\\section\{([^}]*)\}', body)`: the text before the first
      header, then for each header its title and the text after it. */
  function SplitSections(s: string): (parts: seq<string>)
    ensures |parts| >= 1
    decreases |s|
  {
    var n := |SectionHead|;
    if StartsWith(s, SectionHead) && IndexOf(s[n..], "}").Some? then
      var j := IndexOf(s[n..], "}").value;
      var title := s[n..][..j];
      var rest := SplitSections(s[n..][j + 1..]);
      [[], title] + rest
    else if s == [] then
      [[]]
    else
      var rest := SplitSections(s[1..]);
      [[s[0]] + rest[0]] + rest[1..]
  }

  /** The header a title was cut from. */
  function HeaderText(title: string): string {
    SectionHead + title + "}"
  }

  /** The inverse of the split: the pieces with their headers put back. */
  function Rejoin(parts: seq<string>): string
    decreases |parts|
  {
    if |parts| < 2 then (if parts == [] then [] else parts[0])
    else parts[0] + (HeaderText(parts[1]) + Rejoin(parts[2..]))
  }

  /** The split alternates text and titles, starting and ending with text. */
  lemma {:induction false} SplitSectionsOdd(s: string) returns (m: nat)
    ensures |SplitSections(s)| == 2 * m + 1
    decreases |s|
  {
    var n := |SectionHead|;
    if StartsWith(s, SectionHead) && IndexOf(s[n..], "}").Some? {
      var j := IndexOf(s[n..], "}").value;
      var k := SplitSectionsOdd(s[n..][j + 1..]);
      m := k + 1;
    } else if s == [] {
      m := 0;
    } else {
      m := SplitSectionsOdd(s[1..]);
    }
  }

  /** Splitting loses nothing: joining the pieces back gives the body. */
  lemma {:induction false} SplitRejoin(s: string)
    ensures Rejoin(SplitSections(s)) == s
    decreases |s|
  {
    var n := |SectionHead|;
    if StartsWith(s, SectionHead) && IndexOf(s[n..], "}").Some? {
      var j := IndexOf(s[n..], "}").value;
      SplitRejoin(s[n..][j + 1..]);
      RejoinAtHeader(s, j);
    } else if s != [] {
      SplitRejoin(s[1..]);
      RejoinAtChar(s);
    }
  }

  lemma RejoinAtHeader(s: string, j: nat)
    requires StartsWith(s, SectionHead) && IndexOf(s[|SectionHead|..], "}") == Some(j)
    requires Rejoin(SplitSections(s[|SectionHead|..][j + 1..])) == s[|SectionHead|..][j + 1..]
    ensures Rejoin(SplitSections(s)) == s
  {
    var n := |SectionHead|;
    var t := s[n..];
    var rest := t[j + 1..];
    var parts := SplitSections(s);
    assert parts == [[], t[..j]] + SplitSections(rest);
    assert parts[2..] == SplitSections(rest);
    assert Rejoin(parts) == [] + (HeaderText(t[..j]) + rest);
    assert t[j] == '}' by { assert t[j..][0] == '}'; }
    HeaderSplit(s, j);
  }

  /** A text that starts with a header is the header and what follows it. */
  lemma HeaderSplit(s: string, j: nat)
    requires StartsWith(s, SectionHead) && |SectionHead| + j < |s| && s[|SectionHead|..][j] == '}'
    ensures [] + (HeaderText(s[|SectionHead|..][..j]) + s[|SectionHead|..][j + 1..]) == s
  {
    var n := |SectionHead|;
    var t := s[n..];
    assert t == t[..j] + "}" + t[j + 1..];
    assert s == s[..n] + t;
  }

  lemma RejoinAtChar(s: string)
    requires s != []
    requires !(StartsWith(s, SectionHead) && IndexOf(s[|SectionHead|..], "}").Some?)
    requires Rejoin(SplitSections(s[1..])) == s[1..]
    ensures Rejoin(SplitSections(s)) == s
  {
    var tail := SplitSections(s[1..]);
    var parts := SplitSections(s);
    assert parts == [[s[0]] + tail[0]] + tail[1..];
    if |tail| >= 2 {
      var w := HeaderText(tail[1]) + Rejoin(tail[2..]);
      assert parts[1] == tail[1] && parts[2..] == tail[2..];
      assert Rejoin(tail) == tail[0] + w;
      assert Rejoin(parts) == ([s[0]] + tail[0]) + w;
      ConsAssoc(s[0], tail[0], w);
      ConsTail(s);
    } else {
      assert |parts| == 1;
      ConsTail(s);
    }
  }

  lemma ConsAssoc(c: char, a: string, w: string)
    ensures ([c] + a) + w == [c] + (a + w)
  {
  }

  lemma ConsTail(s: string)
    requires s != []
    ensures [s[0]] + s[1..] == s
  {
  }

  /** A body without the header text is one piece. */
  lemma {:induction false} SplitWithoutHeaders(s: string)
    requires !Contains(s, SectionHead)
    ensures SplitSections(s) == [s]
    decreases |s|
  {
    if s != [] {
      SplitWithoutHeaders(s[1..]);
      assert s == [s[0]] + s[1..];
    }
  }

  // ===========================================================================
  // Sections

  /** `"biblio" in title.lower() or "reference" in title.lower()`. */
  predicate IsBibliography(title: string) {
    Contains(Lower(title), "biblio") || Contains(Lower(title), "reference")
  }

  /** One section: the floats of its stripped text become its assets. */
  function SectionOf(title: string, raw: string): Section {
    var extracted := ExtractAssets(raw);
    Section(title, extracted.0, extracted.1)
  }

  /** Whether the header with this title becomes a section. */
  predicate HeaderKept(title: string) {
    !IsBibliography(Strip(title))
  }

  /** The section a header and the text after it give. */
  function HeaderToSection(title: string, text: string): Section {
    SectionOf(Strip(title), Strip(text))
  }

  /** The pieces after the introduction alternate title, text, title, text:
      one entry, made by `make`, per header that `keep` accepts (a lone
      trailing piece, which the split never produces, is ignored). */
  function Collect(ps: seq<string>, keep: string -> bool, make: (string, string) -> Section): seq<Section>
    decreases |ps|
  {
    if |ps| < 2 then []
    else (if keep(ps[0]) then [make(ps[0], ps[1])] else []) + Collect(ps[2..], keep, make)
  }

  /** The sections of the headers in `ps`. */
  function Numbered(ps: seq<string>): seq<Section> {
    Collect(ps, HeaderKept, HeaderToSection)
  }

  /** The sections of a document body: "Contexto" for a long enough
      introduction, then one per kept header. */
  function BodySections(body: string): seq<Section> {
    var parts := SplitSections(body);
    var intro := Strip(parts[0]);
    (if |intro| > ContextMinLength then [SectionOf(ContextTitle, intro)] else []) + Numbered(parts[1..])
  }

  /** What `extrair_secoes` returns for a document. */
  function Sections(latex: string): seq<Section> {
    var found := DocumentBody(Preprocess(latex));
    if found.None? then [] else BodySections(found.value)
  }

  /** `extrair_secoes`, with its loop over the headers. */
  method ExtractSections(latex: string) returns (result: seq<Section>)
    ensures result == Sections(latex)
  {
    var found := DocumentBody(Preprocess(latex));
    if found.None? {
      return [];
    }
    var parts := SplitSections(found.value);
    ghost var m := SplitSectionsOdd(found.value);
    result := [];
    var intro := Strip(parts[0]);
    ghost var context := if |intro| > ContextMinLength then [SectionOf(ContextTitle, intro)] else [];
    if |intro| > ContextMinLength {
      var extracted := ExtractAssets(intro);
      result := result + [Section(ContextTitle, extracted.0, extracted.1)];
    }
    assert result == context;
    var numbered := NumberedSections(parts, m);
    result := result + numbered;
    assert BodySections(found.value) == context + Numbered(parts[1..]);
    assert Sections(latex) == BodySections(found.value);
  }

  /** The loop of `extrair_secoes` over the headers: titles at the odd
      positions of the split, each followed by its text. */
  method NumberedSections(parts: seq<string>, ghost headers: nat) returns (result: seq<Section>)
    requires |parts| == 2 * headers + 1
    ensures result == Numbered(parts[1..])
  {
    ghost var m := headers;
    result := [];
    var i := 1;
    while i < |parts|
      invariant 1 <= i <= |parts| && |parts| == i + 2 * m
      invariant result + Numbered(parts[i..]) == Numbered(parts[1..])
      decreases m
    {
      var title := Strip(parts[i]);
      var extracted := ExtractAssets(Strip(parts[i + 1]));
      ghost var entry := if HeaderKept(parts[i]) then [HeaderToSection(parts[i], parts[i + 1])] else [];
      ghost var before := result;
      NumberedStep(parts, i);
      if !IsBibliography(title) {
        result := result + [Section(title, extracted.0, extracted.1)];
      }
      assert result == before + entry;
      AppendAssoc(before, entry, Numbered(parts[i + 2..]));
      i := i + 2;
      m := m - 1;
    }
    assert parts[i..] == [];
    assert result + Numbered(parts[i..]) == result + [];
  }

  lemma AppendAssoc(a: seq<Section>, b: seq<Section>, c: seq<Section>)
    ensures (a + b) + c == a + (b + c)
  {
  }

  /** One header of the loop: its section, if kept, then the rest. */
  lemma NumberedStep(ps: seq<string>, i: nat)
    requires i + 1 < |ps|
    ensures Numbered(ps[i..]) ==
              (if HeaderKept(ps[i]) then [HeaderToSection(ps[i], ps[i + 1])] else []) + Numbered(ps[i + 2..])
  {
    assert ps[i..][2..] == ps[i + 2..];
  }

  // ===========================================================================
  // Properties

  /** Entries of consecutive pieces come in the order of the pieces. */
  lemma {:induction false} CollectAppend(ps: seq<string>, qs: seq<string>, m: nat,
                                         keep: string -> bool, make: (string, string) -> Section)
    requires |ps| == 2 * m
    ensures Collect(ps + qs, keep, make) == Collect(ps, keep, make) + Collect(qs, keep, make)
    decreases m
  {
    if m > 0 {
      assert (ps + qs)[2..] == ps[2..] + qs;
      CollectAppend(ps[2..], qs, m - 1, keep, make);
      assert (ps + qs)[0] == ps[0] && (ps + qs)[1] == ps[1];
    } else {
      assert ps + qs == qs;
    }
  }

  /** Every accepted header gives its entry. */
  lemma {:induction false} CollectKeeps(ps: seq<string>, m: nat, keep: string -> bool, make: (string, string) -> Section)
    requires 2 * m + 1 < |ps| && keep(ps[2 * m])
    ensures make(ps[2 * m], ps[2 * m + 1]) in Collect(ps, keep, make)
    decreases m
  {
    if m > 0 {
      var tail := ps[2..];
      CollectKeeps(tail, m - 1, keep, make);
      assert ps[2 * m] == tail[2 * (m - 1)] && ps[2 * m + 1] == tail[2 * (m - 1) + 1];
    }
  }

  /** Every entry comes from an accepted header. */
  lemma {:induction false} CollectFromHeaders(ps: seq<string>, keep: string -> bool, make: (string, string) -> Section,
                                              sec: Section) returns (m: nat)
    requires sec in Collect(ps, keep, make)
    ensures 2 * m + 1 < |ps| && keep(ps[2 * m]) && sec == make(ps[2 * m], ps[2 * m + 1])
    decreases |ps|
  {
    var tail := ps[2..];
    if keep(ps[0]) && sec == make(ps[0], ps[1]) {
      m := 0;
    } else {
      var k := CollectFromHeaders(tail, keep, make, sec);
      m := k + 1;
      assert ps[2 * m] == tail[2 * k] && ps[2 * m + 1] == tail[2 * k + 1];
    }
  }

  /** At most one entry per header. */
  lemma {:induction false} CollectLength(ps: seq<string>, keep: string -> bool, make: (string, string) -> Section)
    ensures 2 * |Collect(ps, keep, make)| <= |ps|
    decreases |ps|
  {
    if |ps| >= 2 {
      CollectLength(ps[2..], keep, make);
    }
  }

  /** Sections of consecutive pieces come in the order of the pieces. */
  lemma NumberedAppend(ps: seq<string>, qs: seq<string>, m: nat)
    requires |ps| == 2 * m
    ensures Numbered(ps + qs) == Numbered(ps) + Numbered(qs)
  {
    CollectAppend(ps, qs, m, HeaderKept, HeaderToSection);
  }

  /** Exactly the headers with a non-bibliographic title become sections,
      each holding the assets and narrative of the text that follows it. */
  lemma NumberedExactly(ps: seq<string>)
    ensures forall m :: 0 <= m && 2 * m + 1 < |ps| && !IsBibliography(Strip(ps[2 * m]))
              ==> HeaderToSection(ps[2 * m], ps[2 * m + 1]) in Numbered(ps)
    ensures forall sec :: sec in Numbered(ps) ==> !IsBibliography(sec.title)
    ensures forall sec :: sec in Numbered(ps) ==>
              exists m :: 0 <= m && 2 * m + 1 < |ps| && sec == HeaderToSection(ps[2 * m], ps[2 * m + 1])
    ensures 2 * |Numbered(ps)| <= |ps|
  {
    forall m: nat | 2 * m + 1 < |ps| && !IsBibliography(Strip(ps[2 * m]))
      ensures HeaderToSection(ps[2 * m], ps[2 * m + 1]) in Numbered(ps)
    {
      CollectKeeps(ps, m, HeaderKept, HeaderToSection);
    }
    forall sec | sec in Numbered(ps)
      ensures !IsBibliography(sec.title) && exists m :: 0 <= m && 2 * m + 1 < |ps| && sec == HeaderToSection(ps[2 * m], ps[2 * m + 1])
    {
      var m := CollectFromHeaders(ps, HeaderKept, HeaderToSection, sec);
    }
    CollectLength(ps, HeaderKept, HeaderToSection);
  }

  /** The introduction's title is not bibliographic. */
  lemma ContextTitleKept()
    ensures !IsBibliography(ContextTitle)
  {
    var low := Lower(ContextTitle);
    assert 'b' !in low && 'r' !in low by {
      forall i | 0 <= i < |low| ensures low[i] != 'b' && low[i] != 'r' {
        assert low[i] == LowerChar(ContextTitle[i]);
      }
    }
    NotContainsByChar(low, "biblio", 'b');
    NotContainsByChar(low, "reference", 'r');
  }

  /** No section of a body is bibliographic, and there is at most one more
      section than there are headers. */
  lemma BodySectionsBounded(body: string)
    ensures forall sec :: sec in BodySections(body) ==> !IsBibliography(sec.title)
    ensures 2 * |BodySections(body)| <= |SplitSections(body)| + 1
  {
    NumberedExactly(SplitSections(body)[1..]);
    ContextTitleKept();
  }

  /** "Contexto" comes first exactly when the stripped introduction is longer
      than the threshold; otherwise every section comes from a header. */
  lemma ContextWhenLong(body: string)
    ensures var intro := Strip(SplitSections(body)[0]);
            |intro| > ContextMinLength ==>
              BodySections(body) != [] && BodySections(body)[0] == SectionOf(ContextTitle, intro)
    ensures var ps := SplitSections(body)[1..];
            |Strip(SplitSections(body)[0])| <= ContextMinLength ==>
              forall sec :: sec in BodySections(body) ==>
                exists m :: 0 <= m && 2 * m + 1 < |ps| && sec == HeaderToSection(ps[2 * m], ps[2 * m + 1])
  {
    NumberedExactly(SplitSections(body)[1..]);
  }

  /** The same for whole documents; a document with no body has no sections. */
  lemma SectionsShape(latex: string)
    ensures forall sec :: sec in Sections(latex) ==> !IsBibliography(sec.title)
    ensures DocumentBody(Preprocess(latex)).None? ==> Sections(latex) == []
    ensures DocumentBody(Preprocess(latex)).Some? ==>
              2 * |Sections(latex)| <= |SplitSections(DocumentBody(Preprocess(latex)).value)| + 1
  {
    var found := DocumentBody(Preprocess(latex));
    if found.Some? {
      BodySectionsBounded(found.value);
    }
  }
}
