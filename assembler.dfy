/**
 * `BeamerBuilder.montar_apresentacao_completa`: the whole `.tex` document.
 * The fixed preamble gets the metadata through two `str.replace` calls on
 * its placeholders, the frames of every slide follow in order, and
 * `\end{document}` closes the text. Writing the file and returning its
 * absolute path are left out; the text written is the result here.
 */
module PresentationAssembler {
  import opened Options
  import opened Strings
  import opened Records
  import opened FrameComposer
  import opened MetadataExtractor

  /** The indentation every preamble line carries in the source. */
  const Indent: string := "            "

  /** The preamble up to the title line. */
  const PreambleHead: string :=
    "\n"
    + Indent + "\\documentclass{beamer}\n"
    + Indent + "\\usepackage[utf8]{inputenc}\n"
    + Indent + "\\usepackage[T1]{fontenc}\n"
    + Indent + "\\usepackage{graphicx}\n"
    + Indent + "\\usepackage{booktabs}\n"
    + Indent + "\\usepackage{multirow}\n"
    + Indent + "\\usepackage{tikz}\n"
    + Indent + "\\usetikzlibrary{arrows.meta, positioning, shapes.geometric}\n"
    + Indent + "\\usepackage[utf8]{inputenc}\n"
    + Indent + "\n"
    + Indent + "\\usepackage{amsmath}\n"
    + Indent + "\\usepackage{graphicx,url}\n"
    + Indent + "\\usepackage{adjustbox}  % Essencial para forçar a tabela a caber na tela\n"
    + Indent + "\\usetheme{Madrid}\n"
    + Indent + "\n"
    + Indent + "% Configuração para numeração de legendas\n"
    + Indent + "\\setbeamertemplate{caption}[numbered]\n"
    + Indent + "\n"
    + Indent + "% Remove os ícones de navegação padrão do Beamer que poluem a tela\n"
    + Indent + "\\setbeamertemplate{navigation symbols}{}\n"
    + Indent + "\n"
    + Indent + "% Metadados dinâmicos aqui\n"

  const TitleSlot: string := "{{TITULO}}"
  const AuthorSlot: string := "{{AUTOR}}"

  const TitleCommand: string := Indent + "\\title"
  const AuthorCommand: string := Indent + "\\author"

  /** `\title{{{TITULO}}}`: the placeholder inside the braces of `\title`. */
  const TitleLine: string := TitleCommand + "{" + TitleSlot + "}\n"
  const AuthorLine: string := AuthorCommand + "{" + AuthorSlot + "}\n"

  /** The preamble after the author line, ending with the title page. */
  const PreambleTail: string :=
    Indent + "\\date{\\today}\n"
    + Indent + "\n"
    + Indent + "\\begin{document}\n"
    + Indent + "\n"
    + Indent + "\\frame{\\titlepage}\n"
    + "        "

  const Preamble: string := PreambleHead + TitleLine + AuthorLine + PreambleTail
  const DocumentEnd: string := "\\end{document}"

  /** The metadata used when the caller passes none. */
  const DefaultMetadata: Metadata := Metadata("Apresentação", "")

  function MetadataOrDefault(meta: Option<Metadata>): Metadata {
    if meta.None? then DefaultMetadata else meta.value
  }

  /** The preamble with the title placeholder replaced first, then the author one. */
  function FillPreamble(m: Metadata): string {
    Replace(Replace(Preamble, TitleSlot, m.title), AuthorSlot, m.author)
  }

  /** The frames of the slides, in order. */
  function AllFrames(slides: seq<Slide>): string
    decreases |slides|
  {
    if slides == [] then []
    else
      var last := slides[|slides| - 1];
      AllFrames(slides[..|slides| - 1]) + SectionFrames(last.title, last.topics, last.assets)
  }

  /** The whole document. */
  function Presentation(meta: Option<Metadata>, slides: seq<Slide>): string {
    FillPreamble(MetadataOrDefault(meta)) + AllFrames(slides) + DocumentEnd
  }

  /** `montar_apresentacao_completa`, returning the text it writes. The source
      fills the preamble and then appends each slide's frames to it; here the
      frames are gathered first and the filled preamble is put in front of
      them at the end, which yields the same text. */
  method Assemble(slides: seq<Slide>, meta: Option<Metadata>) returns (content: string)
    ensures content == Presentation(meta, slides)
  {
    var frames: string := [];
    var i := 0;
    while i < |slides|
      invariant 0 <= i <= |slides|
      invariant frames == AllFrames(slides[..i])
    {
      var slide := slides[i];
      var code := ComposeSection(slide.title, slide.topics, slide.assets);
      frames := frames + code;
      NextSlide(slides, i);
      i := i + 1;
    }
    assert slides[..i] == slides;
    var m := MetadataOrDefault(meta);
    assert TitleSlot != [] && AuthorSlot != [];
    var filled := Replace(Preamble, TitleSlot, m.title);
    filled := Replace(filled, AuthorSlot, m.author);
    content := filled + frames + DocumentEnd;
  }

  /** One more slide adds its frames at the end. */
  lemma NextSlide(slides: seq<Slide>, i: nat)
    requires i < |slides|
    ensures AllFrames(slides[..i + 1])
            == AllFrames(slides[..i]) + SectionFrames(slides[i].title, slides[i].topics, slides[i].assets)
  {
    assert slides[..i + 1][..i] == slides[..i];
  }

  // ---------------------------------------------------------------------------
  // Where the metadata lands

  /** A line `cmd{slot}` whose slot is the pattern gets the replacement. */
  lemma SlotFilled(cmd: string, pat: string, rep: string, rest: string)
    requires '{' !in cmd && |pat| >= 3 && pat[0] == '{' && pat[1] == '{' && pat[2] != '{'
    ensures Replace(cmd + "{" + pat + "}\n" + rest, pat, rep) == cmd + "{" + rep + "}\n" + Replace(rest, pat, rep)
  {
    var w2 := "}\n" + rest;
    var w1 := pat + w2;
    assert cmd + "{" + pat + "}\n" + rest == cmd + ("{" + w1);
    calc {
      Replace(cmd + ("{" + w1), pat, rep);
      == { ReplacePassesPlain(cmd, "{" + w1, pat, rep); }
      cmd + Replace("{" + w1, pat, rep);
      == { ReplaceSkipsWord("{", w1, pat, rep, 2); }
      cmd + ("{" + Replace(w1, pat, rep));
      == { ReplaceAtStart(pat, rep, w2); }
      cmd + ("{" + (rep + Replace(w2, pat, rep)));
      == { ReplacePassesPlain("}\n", rest, pat, rep); }
      cmd + ("{" + (rep + ("}\n" + Replace(rest, pat, rep))));
    }
    assert cmd + "{" + rep + "}\n" + Replace(rest, pat, rep)
           == cmd + ("{" + (rep + ("}\n" + Replace(rest, pat, rep))));
  }

  /** A line `cmd{slot}` whose slot is another placeholder is copied. */
  lemma SlotKept(cmd: string, slot: string, pat: string, rep: string, rest: string)
    requires '{' !in cmd && |pat| >= 3 && pat[0] == '{' && pat[1] == '{' && pat[2] != '{'
    requires |slot| >= 3 && slot[0] == '{' && slot[1] == '{' && slot[2] != pat[2] && '{' !in slot[2..]
    ensures Replace(cmd + "{" + slot + "}\n" + rest, pat, rep) == cmd + "{" + slot + "}\n" + Replace(rest, pat, rep)
  {
    var tail := slot[1..];
    var w3 := "}\n" + rest;
    var w2 := tail + w3;
    assert slot == "{" + tail && tail[1..] == slot[2..];
    assert cmd + "{" + slot + "}\n" + rest == cmd + ("{" + ("{" + w2));
    calc {
      Replace(cmd + ("{" + ("{" + w2)), pat, rep);
      == { ReplacePassesPlain(cmd, "{" + ("{" + w2), pat, rep); }
      cmd + Replace("{" + ("{" + w2), pat, rep);
      == { ReplaceSkipsWord("{", "{" + w2, pat, rep, 2); }
      cmd + ("{" + Replace("{" + w2, pat, rep));
      == { ReplaceSkipsWord("{", w2, pat, rep, 2); }
      cmd + ("{" + ("{" + Replace(w2, pat, rep)));
      == { ReplaceSkipsWord(tail, w3, pat, rep, 1); }
      cmd + ("{" + ("{" + (tail + Replace(w3, pat, rep))));
      == { ReplacePassesPlain("}\n", rest, pat, rep); }
      cmd + ("{" + ("{" + (tail + ("}\n" + Replace(rest, pat, rep)))));
    }
    assert cmd + "{" + slot + "}\n" + Replace(rest, pat, rep)
           == cmd + ("{" + ("{" + (tail + ("}\n" + Replace(rest, pat, rep)))));
  }

  /** A filled line `cmd{text}` without an opening brace in the text is copied. */
  lemma FilledKept(cmd: string, text: string, pat: string, rep: string, rest: string)
    requires '{' !in cmd && '{' !in text && |pat| >= 2 && pat[0] == '{' && pat[1] == '{'
    ensures Replace(cmd + "{" + text + "}\n" + rest, pat, rep) == cmd + "{" + text + "}\n" + Replace(rest, pat, rep)
  {
    var line := "{" + text + "}\n";
    assert cmd + "{" + text + "}\n" + rest == cmd + (line + rest);
    assert (line + rest)[1] != '{' by {
      if text == [] {
        assert (line + rest)[1] == '}';
      } else {
        assert (line + rest)[1] == text[0];
      }
    }
    calc {
      Replace(cmd + (line + rest), pat, rep);
      == { ReplacePassesPlain(cmd, line + rest, pat, rep); }
      cmd + Replace(line + rest, pat, rep);
      == { assert line[1..] == text + "}\n";
           ReplaceSkipsWord(line, rest, pat, rep, 1); }
      cmd + (line + Replace(rest, pat, rep));
    }
    assert cmd + "{" + text + "}\n" + Replace(rest, pat, rep) == cmd + (line + Replace(rest, pat, rep));
  }

  /** The `\title` and `\author` lines as filled with the metadata. */
  function MetadataLines(m: Metadata): string {
    TitleCommand + "{" + m.title + "}\n" + (AuthorCommand + "{" + m.author + "}\n")
  }

  /** The title goes between the braces of `\title` and the author between
      those of `\author`, whatever text comes before and after the two
      lines, whenever the title has no opening brace. */
  lemma PlaceholdersFilled(head: string, tail: string, m: Metadata)
    requires '{' !in m.title
    ensures Contains(Replace(Replace(head + TitleLine + AuthorLine + tail, TitleSlot, m.title), AuthorSlot, m.author),
                     MetadataLines(m))
  {
    var t, a := m.title, m.author;
    var head1, tail1 := Replace(head, TitleSlot, t), Replace(tail, TitleSlot, t);
    var line1 := TitleCommand + "{" + t + "}\n";
    var rest1 := AuthorLine + tail;
    calc {
      Replace(head + TitleLine + AuthorLine + tail, TitleSlot, t);
      == { ConcatAssoc(head + TitleLine, AuthorLine, tail);
           ConcatAssoc(head, TitleLine, rest1); }
      Replace(head + (TitleLine + rest1), TitleSlot, t);
      == { assert (TitleLine + rest1)[0] == ' ' && ' ' !in TitleSlot[1..];
           ReplaceSplit(head, TitleLine + rest1, TitleSlot, t); }
      head1 + Replace(TitleLine + rest1, TitleSlot, t);
      == { assert '{' !in TitleCommand;
           SlotFilled(TitleCommand, TitleSlot, t, rest1); }
      head1 + (line1 + Replace(rest1, TitleSlot, t));
      == { assert '{' !in AuthorCommand;
           SlotKept(AuthorCommand, AuthorSlot, TitleSlot, t, tail); }
      head1 + (line1 + (AuthorLine + tail1));
    }
    var head2, tail2 := Replace(head1, AuthorSlot, a), Replace(tail1, AuthorSlot, a);
    var line2 := AuthorCommand + "{" + a + "}\n";
    var rest2 := AuthorLine + tail1;
    calc {
      Replace(head1 + (line1 + rest2), AuthorSlot, a);
      == { assert (line1 + rest2)[0] == ' ' && ' ' !in AuthorSlot[1..];
           ReplaceSplit(head1, line1 + rest2, AuthorSlot, a); }
      head2 + Replace(line1 + rest2, AuthorSlot, a);
      == { assert '{' !in TitleCommand;
           FilledKept(TitleCommand, t, AuthorSlot, a, rest2); }
      head2 + (line1 + Replace(rest2, AuthorSlot, a));
      == { assert '{' !in AuthorCommand;
           SlotFilled(AuthorCommand, AuthorSlot, a, tail1); }
      head2 + (line1 + (line2 + tail2));
      == { ConcatAssoc(line1, line2, tail2);
           ConcatAssoc(head2, line1 + line2, tail2); }
      head2 + (line1 + line2) + tail2;
    }
    ContainsInside(head2, line1 + line2, tail2);
  }

  /** In the filled preamble, the `\title` and `\author` lines carry the
      metadata whenever the title has no opening brace (a title holding
      `{{AUTOR}}` would get the author too). */
  lemma MetadataPlaced(m: Metadata)
    requires '{' !in m.title
    ensures Contains(FillPreamble(m), MetadataLines(m))
  {
    PlaceholdersFilled(PreambleHead, PreambleTail, m);
  }

  /** Metadata read from a document always lands in place: the extractor
      never yields a title with a brace. */
  lemma ExtractedMetadataPlaced(latex: string)
    ensures Contains(FillPreamble(ExtractMetadata(latex)), MetadataLines(ExtractMetadata(latex)))
  {
    MetadataClean(latex);
    MetadataPlaced(ExtractMetadata(latex));
  }

  /** Without metadata, the title is "Apresentação" and the author is empty. */
  lemma DefaultMetadataPlaced(slides: seq<Slide>)
    ensures Contains(Presentation(None, slides), MetadataLines(Metadata("Apresentação", "")))
  {
    var m := DefaultMetadata;
    assert '{' !in m.title;
    MetadataPlaced(m);
    ContainsHead(FillPreamble(m), AllFrames(slides) + DocumentEnd);
    ConcatAssoc(FillPreamble(m), AllFrames(slides), DocumentEnd);
    ContainsTrans(Presentation(None, slides), FillPreamble(m), MetadataLines(m));
  }

  // ---------------------------------------------------------------------------
  // The slides

  /** The frames of two runs of slides are the frames of each, in order. */
  lemma {:induction false} AllFramesAppend(a: seq<Slide>, b: seq<Slide>)
    ensures AllFrames(a + b) == AllFrames(a) + AllFrames(b)
    decreases |b|
  {
    if b == [] {
      assert a + b == a;
    } else {
      var n := |b| - 1;
      var last := b[n];
      assert (a + b)[..|a + b| - 1] == a + b[..n];
      assert (a + b)[|a + b| - 1] == last;
      AllFramesAppend(a, b[..n]);
      ConcatAssoc(AllFrames(a), AllFrames(b[..n]), SectionFrames(last.title, last.topics, last.assets));
    }
  }

  /** Every slide contributes its frames to the run of all frames. */
  lemma {:induction false} SlideFramesListed(slides: seq<Slide>, i: nat)
    requires i < |slides|
    ensures Contains(AllFrames(slides), SectionFrames(slides[i].title, slides[i].topics, slides[i].assets))
    decreases |slides|
  {
    var n := |slides| - 1;
    var last := slides[n];
    var lastFrames := SectionFrames(last.title, last.topics, last.assets);
    if i == n {
      ContainsLast(AllFrames(slides[..n]), lastFrames);
    } else {
      SlideFramesListed(slides[..n], i);
      assert slides[..n][i] == slides[i];
      ContainsHead(AllFrames(slides[..n]), lastFrames);
      ContainsTrans(AllFrames(slides), AllFrames(slides[..n]),
                    SectionFrames(slides[i].title, slides[i].topics, slides[i].assets));
    }
  }

  /** Every slide's frames are in the document. */
  lemma SlideShown(meta: Option<Metadata>, slides: seq<Slide>, i: nat)
    requires i < |slides|
    ensures Contains(Presentation(meta, slides),
                     SectionFrames(slides[i].title, slides[i].topics, slides[i].assets))
  {
    var all := AllFrames(slides);
    SlideFramesListed(slides, i);
    ContainsInside(FillPreamble(MetadataOrDefault(meta)), all, DocumentEnd);
    ContainsTrans(Presentation(meta, slides), all, SectionFrames(slides[i].title, slides[i].topics, slides[i].assets));
  }

  /** The document is closed by `\end{document}`, after every frame. */
  lemma DocumentClosed(meta: Option<Metadata>, slides: seq<Slide>)
    ensures EndsWith(Presentation(meta, slides), DocumentEnd)
    ensures EndsWith(Presentation(meta, slides), AllFrames(slides) + DocumentEnd)
  {
    var fill := FillPreamble(MetadataOrDefault(meta));
    EndsWithLast(fill + AllFrames(slides), DocumentEnd);
    ConcatAssoc(fill, AllFrames(slides), DocumentEnd);
    EndsWithLast(fill, AllFrames(slides) + DocumentEnd);
  }
}
