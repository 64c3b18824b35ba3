/**
 * `BeamerBuilder.criar_slides_secao`: the Beamer frames of one section. A
 * text frame lists the topics as an `itemize` (only when there are topics),
 * then every asset gets a frame of its own, numbered from 1, holding the
 * sanitised code. Titles and topics are escaped by chains of `str.replace`.
 */
module FrameComposer {
  import opened Strings
  import opened Records
  import opened AssetSanitiser

  /** The characters the title chain escapes, and the item chain. */
  const TitleSpecials: string := "&%"
  const ItemSpecials: string := "&%$"

  const FrameOpen: string := "\\begin{frame}\n"
  const ShrinkFrameOpen: string := "\\begin{frame}[shrink]\n"
  const FrameClose: string := "\\end{frame}\n\n"
  const ItemizeOpen: string := "  \\begin{itemize}\n"
  const ItemizeClose: string := "  \\end{itemize}\n"
  const ItemPrefix: string := "    \\item "
  const AssetSpacing: string := "  \\vspace{0.2cm}\n"

  // ---------------------------------------------------------------------------
  // 1. Escaping

  /** `titulo.replace('&', r'\&').replace('%', r'\%')`. */
  function EscapeTitle(t: string): string {
    Replace(Replace(t, "&", "\\&"), "%", "\\%")
  }

  /** The topic chain: the title chain, then `.replace('$', r'\$')`. */
  function EscapeItem(t: string): string {
    Replace(EscapeTitle(t), "$", "\\$")
  }

  /** One character, with a backslash in front when it is special. */
  function EscapeChar(c: char, specials: string): string {
    if c in specials then ['\\', c] else [c]
  }

  /** Escaping character by character: the reference for the chains. */
  function Escaped(s: string, specials: string): string
    decreases |s|
  {
    if s == [] then [] else EscapeChar(s[0], specials) + Escaped(s[1..], specials)
  }

  /** Escaping undone: a backslash before a special character is dropped. */
  function Unescaped(r: string, specials: string): string
    decreases |r|
  {
    if r == [] then []
    else if |r| >= 2 && r[0] == '\\' && r[1] in specials then [r[1]] + Unescaped(r[2..], specials)
    else [r[0]] + Unescaped(r[1..], specials)
  }

  /** Every special character of `r` comes right after a backslash. */
  predicate SpecialsEscaped(r: string, specials: string) {
    forall i :: 0 <= i < |r| && r[i] in specials ==> 0 < i && r[i - 1] == '\\'
  }

  lemma EscapeTitleConcat(a: string, b: string)
    ensures EscapeTitle(a + b) == EscapeTitle(a) + EscapeTitle(b)
  {
    ReplaceCharConcat(a, b, '&', "\\&");
    ReplaceCharConcat(Replace(a, "&", "\\&"), Replace(b, "&", "\\&"), '%', "\\%");
  }

  lemma EscapeItemConcat(a: string, b: string)
    ensures EscapeItem(a + b) == EscapeItem(a) + EscapeItem(b)
  {
    EscapeTitleConcat(a, b);
    ReplaceCharConcat(EscapeTitle(a), EscapeTitle(b), '$', "\\$");
  }

  /** A one-character replacement on one character. */
  lemma ReplaceOneChar(c: char, p: char, rep: string)
    ensures Replace([c], [p], rep) == if c == p then rep else [c]
  {
    if c == p {
      ReplaceAtStart([p], rep, []);
    } else {
      ReplacePassesPlain([c], [], [p], rep);
    }
  }

  lemma EscapeTitleChar(c: char)
    ensures EscapeTitle([c]) == EscapeChar(c, TitleSpecials)
  {
    ReplaceOneChar(c, '&', "\\&");
    if c == '&' {
      ReplacePassesPlain("\\&", [], "%", "\\%");
    } else {
      ReplaceOneChar(c, '%', "\\%");
    }
  }

  lemma EscapeItemChar(c: char)
    ensures EscapeItem([c]) == EscapeChar(c, ItemSpecials)
  {
    EscapeTitleChar(c);
    if c == '&' || c == '%' {
      ReplacePassesPlain(['\\', c], [], "$", "\\$");
    } else {
      ReplaceOneChar(c, '$', "\\$");
    }
  }

  /** The title chain escapes exactly `&` and `%`, each character on its own. */
  lemma {:induction false} EscapeTitleCharwise(t: string)
    ensures EscapeTitle(t) == Escaped(t, TitleSpecials)
    decreases |t|
  {
    if t != [] {
      assert t == [t[0]] + t[1..];
      EscapeTitleConcat([t[0]], t[1..]);
      EscapeTitleChar(t[0]);
      EscapeTitleCharwise(t[1..]);
    }
  }

  /** The topic chain escapes exactly `&`, `%` and `$`. */
  lemma {:induction false} EscapeItemCharwise(t: string)
    ensures EscapeItem(t) == Escaped(t, ItemSpecials)
    decreases |t|
  {
    if t != [] {
      assert t == [t[0]] + t[1..];
      EscapeItemConcat([t[0]], t[1..]);
      EscapeItemChar(t[0]);
      EscapeItemCharwise(t[1..]);
    }
  }

  /** After escaping, no special character stands without its backslash. */
  lemma {:induction false} EscapedSafe(s: string, specials: string)
    requires '\\' !in specials
    ensures SpecialsEscaped(Escaped(s, specials), specials)
    decreases |s|
  {
    if s != [] {
      var e := EscapeChar(s[0], specials);
      var rest := Escaped(s[1..], specials);
      EscapedSafe(s[1..], specials);
      var r := e + rest;
      forall i | 0 <= i < |r| && r[i] in specials ensures 0 < i && r[i - 1] == '\\' {
        if i >= |e| {
          assert r[i] == rest[i - |e|];
          if i > |e| {
            assert r[i - 1] == rest[i - |e| - 1];
          }
        }
      }
    }
  }

  /** Escaping loses nothing: unescaping gives the text back. */
  lemma {:induction false} UnescapeEscaped(s: string, specials: string)
    requires '\\' !in specials
    ensures Unescaped(Escaped(s, specials), specials) == s
    decreases |s|
  {
    if s != [] {
      var e := EscapeChar(s[0], specials);
      var rest := Escaped(s[1..], specials);
      UnescapeEscaped(s[1..], specials);
      var r := e + rest;
      if s[0] in specials {
        assert r[2..] == rest;
      } else {
        assert r[1..] == rest;
        if rest != [] {
          EscapedSafe(s[1..], specials);
          assert rest[0] !in specials;
        }
      }
    }
  }

  /** A title escaped for a frame is safe for LaTeX and can be read back. */
  lemma TitleEscapeSound(t: string)
    ensures SpecialsEscaped(EscapeTitle(t), TitleSpecials)
    ensures Unescaped(EscapeTitle(t), TitleSpecials) == t
  {
    EscapeTitleCharwise(t);
    EscapedSafe(t, TitleSpecials);
    UnescapeEscaped(t, TitleSpecials);
  }

  /** A topic escaped for an `\item` is safe for LaTeX and can be read back. */
  lemma ItemEscapeSound(t: string)
    ensures SpecialsEscaped(EscapeItem(t), ItemSpecials)
    ensures Unescaped(EscapeItem(t), ItemSpecials) == t
  {
    EscapeItemCharwise(t);
    EscapedSafe(t, ItemSpecials);
    UnescapeEscaped(t, ItemSpecials);
  }

  // ---------------------------------------------------------------------------
  // 2. Frames

  function FrameTitle(text: string): string {
    "  \\frametitle{" + text + "}\n"
  }

  /** `    \item <escaped topic>` and a newline. */
  function ItemLine(topic: string): string {
    ItemPrefix + EscapeItem(topic) + "\n"
  }

  /** The item lines of the topics, in order. */
  function ItemLines(topics: seq<string>): string
    decreases |topics|
  {
    if topics == [] then []
    else ItemLines(topics[..|topics| - 1]) + ItemLine(topics[|topics| - 1])
  }

  /** What the summary frame has before its item lines. */
  function TextFrameHead(safe: string): string {
    FrameOpen + FrameTitle(safe) + ItemizeOpen
  }

  const TextFrameTail: string := ItemizeClose + FrameClose

  /** The summary frame, or nothing when there are no topics. */
  function TextFrame(safe: string, topics: seq<string>): string {
    if topics == [] then [] else TextFrameHead(safe) + ItemLines(topics) + TextFrameTail
  }

  /** "Figura" for the figure kind, "Tabela" for any other kind. */
  function KindLabel(kind: string): string {
    if kind == FigureKind then "Figura" else "Tabela"
  }

  /** The frame of one asset, numbered `number`. */
  function AssetFrame(safe: string, asset: Asset, number: nat): string {
    ShrinkFrameOpen
    + FrameTitle(safe + " - " + KindLabel(asset.kind) + " " + NatToString(number))
    + AssetSpacing
    + CleanAssetCode(asset.code) + "\n"
    + FrameClose
  }

  /** The asset frames, numbered 1, 2, ... in the order of the assets. */
  function AssetFrames(safe: string, assets: seq<Asset>): string
    decreases |assets|
  {
    if assets == [] then []
    else AssetFrames(safe, assets[..|assets| - 1]) + AssetFrame(safe, assets[|assets| - 1], |assets|)
  }

  /** All frames of a section. */
  function SectionFrames(title: string, topics: seq<string>, assets: seq<Asset>): string {
    var safe := EscapeTitle(title);
    TextFrame(safe, topics) + AssetFrames(safe, assets)
  }

  /** `criar_slides_secao`. The source appends everything to one string; here
      the item lines and the asset frames are gathered first and joined at
      the end, which yields the same text. */
  method ComposeSection(title: string, topics: seq<string>, assets: seq<Asset>) returns (code: string)
    ensures code == SectionFrames(title, topics, assets)
  {
    var safe := Replace(Replace(title, "&", "\\&"), "%", "\\%");
    var text: string := [];
    if |topics| > 0 {
      var items: string := [];
      var i := 0;
      while i < |topics|
        invariant 0 <= i <= |topics|
        invariant items == ItemLines(topics[..i])
      {
        var item := Replace(Replace(Replace(topics[i], "&", "\\&"), "%", "\\%"), "$", "\\$");
        items := items + (ItemPrefix + item + "\n");
        NextTopic(topics, i);
        i := i + 1;
      }
      assert topics[..i] == topics;
      text := FrameOpen + FrameTitle(safe) + ItemizeOpen + items + (ItemizeClose + FrameClose);
    }
    var frames: string := [];
    var j := 0;
    while j < |assets|
      invariant 0 <= j <= |assets|
      invariant frames == AssetFrames(safe, assets[..j])
    {
      var asset := assets[j];
      var cleaned := CleanAssetCode(asset.code);
      var caption := if asset.kind == FigureKind then "Figura" else "Tabela";
      frames := frames + (ShrinkFrameOpen
                          + FrameTitle(safe + " - " + caption + " " + NatToString(j + 1))
                          + AssetSpacing
                          + cleaned + "\n"
                          + FrameClose);
      NextAsset(safe, assets, j);
      j := j + 1;
    }
    assert assets[..j] == assets;
    code := text + frames;
  }

  lemma NextTopic(topics: seq<string>, i: nat)
    requires i < |topics|
    ensures ItemLines(topics[..i + 1]) == ItemLines(topics[..i]) + ItemLine(topics[i])
  {
    assert topics[..i + 1][..i] == topics[..i];
  }

  lemma NextAsset(safe: string, assets: seq<Asset>, j: nat)
    requires j < |assets|
    ensures AssetFrames(safe, assets[..j + 1]) == AssetFrames(safe, assets[..j]) + AssetFrame(safe, assets[j], j + 1)
  {
    assert assets[..j + 1][..j] == assets[..j];
  }

  /** Every topic is listed, escaped, on an item line of its own. */
  lemma {:induction false} TopicListed(topics: seq<string>, i: nat)
    requires i < |topics|
    ensures Contains(ItemLines(topics), ItemPrefix + EscapeItem(topics[i]) + "\n")
    decreases |topics|
  {
    var n := |topics| - 1;
    if i == n {
      ContainsLast(ItemLines(topics[..n]), ItemLine(topics[n]));
    } else {
      TopicListed(topics[..n], i);
      assert topics[..n][i] == topics[i];
      ContainsHead(ItemLines(topics[..n]), ItemLine(topics[n]));
      ContainsTrans(ItemLines(topics), ItemLines(topics[..n]), ItemPrefix + EscapeItem(topics[i]) + "\n");
    }
  }

  /** Every asset gets a frame carrying its 1-based number and its cleaned code. */
  lemma {:induction false} AssetShown(safe: string, assets: seq<Asset>, i: nat)
    requires i < |assets|
    ensures Contains(AssetFrames(safe, assets), AssetFrame(safe, assets[i], i + 1))
    decreases |assets|
  {
    var n := |assets| - 1;
    if i == n {
      ContainsLast(AssetFrames(safe, assets[..n]), AssetFrame(safe, assets[n], n + 1));
    } else {
      AssetShown(safe, assets[..n], i);
      assert assets[..n][i] == assets[i];
      ContainsHead(AssetFrames(safe, assets[..n]), AssetFrame(safe, assets[n], n + 1));
      ContainsTrans(AssetFrames(safe, assets), AssetFrames(safe, assets[..n]), AssetFrame(safe, assets[i], i + 1));
    }
  }

  /** The section's frames list every topic, in a summary frame that is
      there only when there are topics. */
  lemma SectionListsTopics(title: string, topics: seq<string>, assets: seq<Asset>)
    ensures forall i :: 0 <= i < |topics| ==>
              Contains(SectionFrames(title, topics, assets), ItemPrefix + EscapeItem(topics[i]) + "\n")
    ensures topics == [] ==> SectionFrames(title, topics, assets) == AssetFrames(EscapeTitle(title), assets)
  {
    var safe := EscapeTitle(title);
    var all := SectionFrames(title, topics, assets);
    if topics != [] {
      assert Contains(all, ItemLines(topics)) by {
        var text := TextFrame(safe, topics);
        ContainsInside(TextFrameHead(safe), ItemLines(topics), TextFrameTail);
        ContainsHead(text, AssetFrames(safe, assets));
        ContainsTrans(all, text, ItemLines(topics));
      }
      forall i | 0 <= i < |topics|
        ensures Contains(all, ItemPrefix + EscapeItem(topics[i]) + "\n")
      {
        TopicListed(topics, i);
        ContainsTrans(all, ItemLines(topics), ItemPrefix + EscapeItem(topics[i]) + "\n");
      }
    } else {
      assert all == [] + AssetFrames(safe, assets);
    }
  }

  /** The section's frames show every asset, numbered from 1. */
  lemma SectionShowsAssets(title: string, topics: seq<string>, assets: seq<Asset>)
    ensures forall i :: 0 <= i < |assets| ==>
              Contains(SectionFrames(title, topics, assets), AssetFrame(EscapeTitle(title), assets[i], i + 1))
  {
    var safe := EscapeTitle(title);
    var frames := AssetFrames(safe, assets);
    var all := SectionFrames(title, topics, assets);
    ContainsLast(TextFrame(safe, topics), frames);
    forall i | 0 <= i < |assets|
      ensures Contains(all, AssetFrame(safe, assets[i], i + 1))
    {
      AssetShown(safe, assets, i);
      ContainsTrans(all, frames, AssetFrame(safe, assets[i], i + 1));
    }
  }
}
