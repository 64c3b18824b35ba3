# Beamifier core in Dafny

Beamifier turns a LaTeX paper into a Beamer presentation. This project
models the two text engines at its core and proves what they promise.

- `LatexIngestor` (src/extractor.py) reads the paper:
  - it expands `\input`/`\include` directives recursively over a map from
    path to file content, each included name resolved in the directory of
    the file that includes it;
  - it strips comments and collapses whitespace;
  - it finds the title and the author (with fixed defaults);
  - it cuts the document body into sections at `\section{...}` headers,
    dropping bibliographic ones;
  - it lifts the figure and table environments of each section out as
    assets.
- `BeamerBuilder` (src/to_Beamer.py) writes the presentation:
  - it sanitises every asset's code (stars, placement options, `adjustbox`
    around `tabular`, `\centering`);
  - it composes the frames of each section (escaped title, an `itemize` of
    the topics, one numbered frame per asset);
  - it assembles the whole document (preamble with the metadata filled in,
    the frames in order, `\end{document}`).

Every regular expression of the source is a hand-written scanner for that
one pattern. Strings are `seq<char>`, and Python's whitespace class (`\s`,
`str.strip`) is modelled character for character. The loops of
`criar_slides_secao`, `montar_apresentacao_completa` and `extrair_secoes` are
methods with `while` loops. Each is proved equal to a specification
function, and the properties are lemmas about those functions.

Modules, one concern each:

| module | file | models |
|---|---|---|
| `Options`, `Records` | records.dfy | the `Option`/`Result` wrappers and the dictionaries passed between stages |
| `Strings` | strings.dfy | `str.replace`, `in`, `find`, `strip`, the whitespace collapse, ASCII `lower`, decimal numerals |
| `Preprocessor` | preprocess.dfy | `pre_processar_texto`, `_limpar_comando_latex` |
| `FloatTags`, `AssetExtractor` | assets.dfy | `_extrair_e_remover_assets` |
| `MetadataExtractor` | metadata.dfy | `extrair_metadados` |
| `SectionSplitter` | sections.dfy | `extrair_secoes` |
| `DocumentLoader` | loader.dfy | `carregar_projeto_recursivo` |
| `AssetSanitiser` | sanitiser.dfy | `_limpar_codigo_asset`, step by step |
| `SanitiserLaws` | sanitiser_laws.dfy | `_limpar_codigo_asset` as a whole: what no later step creates, and idempotence |
| `FrameComposer` | frames.dfy | `criar_slides_secao` |
| `PresentationAssembler` | assembler.dfy | `montar_apresentacao_completa` |

## Model

| member | source | states |
|---|---|---|
| Preprocessor.StripComments | src/extractor.py:32 | `re.sub(r'(?<!\\)%.*', '', s)`: each `%` not preceded by a backslash is deleted with the rest of its line; its laws are the `Strip...` lemmas below |
| Preprocessor.Preprocess | src/extractor.py:30-34 | `pre_processar_texto`: comment removal, then the whitespace collapse; proved normal and idempotent by PreprocessNormalForm and PreprocessIdempotent |
| Preprocessor.SkipLine | src/extractor.py:32 | `.*` stops at the first newline: the result is the suffix from that newline on, and nothing before it is a newline |
| Preprocessor.StripEscapesAll | src/extractor.py:32 | after comment removal every `%` left is preceded by a backslash |
| Preprocessor.StripFixesEscaped | src/extractor.py:32 | text whose every `%` is escaped passes through comment removal unchanged |
| Preprocessor.StripCommentsIdempotent | src/extractor.py:32 | removing comments twice equals removing them once |
| Preprocessor.StripKeepsNewlines | src/extractor.py:32 | comment removal keeps every newline (a comment ends before its newline) and never lengthens the text |
| Preprocessor.StripPlain | src/extractor.py:32 | text without `%` is unchanged by comment removal |
| Preprocessor.CommentLineRemoved | src/extractor.py:32 | an unescaped `%` and the rest of its line are deleted, the newline kept |
| Preprocessor.StripAppend | src/extractor.py:32 | comment removal copies a prefix without `%` and carries on after it |
| Preprocessor.CollapseKeepsEscaped | src/extractor.py:34 | collapsing whitespace keeps every `%` escaped |
| Preprocessor.PreprocessNormalForm | src/extractor.py:30-34 | the preprocessed text has no newline, no two whitespace characters in a row, no leading or trailing whitespace, and only escaped `%` |
| Preprocessor.PreprocessIdempotent | src/extractor.py:30-34 | preprocessing twice equals preprocessing once |
| Preprocessor.NormalizedNoNewline | src/extractor.py:34 | normalised text holds no newline |
| Strings.Strip | src/extractor.py:34 | `str.strip()`: leading and trailing Python whitespace removed |
| Strings.Collapse | src/extractor.py:34 | `re.sub(r'\s+', ' ', s).strip()`; its laws are CollapseNormalized, CollapseIdempotent and CollapseKeepsAbsent |
| Strings.CollapseNormalized | src/extractor.py:34 | `re.sub(r'\s+', ' ', s).strip()` yields single-spaced text with no leading or trailing whitespace |
| Strings.CollapseIdempotent | src/extractor.py:34 | collapsing whitespace twice equals collapsing it once |
| Strings.CollapseKeepsAbsent | src/extractor.py:34 | a non-whitespace character absent from the text is absent after collapsing |
| Preprocessor.RemoveAuthorBlocks | src/extractor.py:43 | one left-to-right pass deleting every `\IEEEauthorblockN{` and `\IEEEauthorblockA{` |
| Preprocessor.RemoveAuthorBlocksKeepsAbsent | src/extractor.py:43 | deleting `\IEEEauthorblockN{`/`A{` introduces no character |
| Preprocessor.RemoveAuthorBlocksPlain | src/extractor.py:43 | text without a backslash is unchanged by that deletion |
| Strings.Replace | src/extractor.py:44-53 | `str.replace` (and `re.sub` of a literal pattern): non-overlapping occurrences replaced left to right |
| Strings.ReplaceAbsent | src/extractor.py:44-53 | `str.replace` of a pattern that does not occur changes nothing |
| Strings.ReplaceCharGone | src/extractor.py:50-53 | replacing a character by text without it removes it entirely |
| Strings.ReplaceKeepsAbsent | src/extractor.py:44-53 | `str.replace` introduces no character that neither the text nor the replacement holds |
| Preprocessor.CleanCommand | src/extractor.py:36-56 | `_limpar_comando_latex`: "" for empty text, else the deletions, `\and` to ", ", backslashes to spaces, braces dropped, whitespace collapsed, in the source's order |
| Preprocessor.CleanCommandClean | src/extractor.py:39-56 | the command stripper maps "" to "" and otherwise returns text with no backslash, no brace and normalised whitespace |
| Preprocessor.CleanCommandIdempotent | src/extractor.py:39-56 | stripping already-stripped text is a no-op |
| FloatTags.FirstTag | src/extractor.py:67 | the first position where a `\begin{env}`/`\end{env}` tag (optionally starred) starts, with no tag before it; none when there is none |
| AssetExtractor.FirstTagIs | src/extractor.py:67 | a tag with none before it is the one the search finds |
| AssetExtractor.BlockIsFloat | src/extractor.py:67 | a block found at the start of the text is a float block: an opening, then up to and including the first closing after it |
| AssetExtractor.ScanFloats | src/extractor.py:67-72 | the narrative left and the blocks found together are exactly as long as the input |
| AssetExtractor.ScanFloatsBlocks | src/extractor.py:67-68 | every block `re.findall` returns is a float block of the environment |
| AssetExtractor.ScanSplits | src/extractor.py:67-72 | the input is the narrative's gaps woven with the blocks in order, the narrative is the gaps joined, and no float block starts at any position inside a gap: exactly the matched spans are deleted, and no match is missed |
| AssetExtractor.ScanFindsIff | src/extractor.py:67-68 | `re.findall` finds a block exactly when a float block starts somewhere in the text |
| AssetExtractor.ScanFoundStarts | src/extractor.py:67-68 | a block is found only when one starts somewhere in the text |
| AssetExtractor.FirstBlockFound | src/extractor.py:67-68 | a float block at the very start of the text is the first match, taken whole |
| AssetExtractor.AsAssets | src/extractor.py:69 | one asset of the given kind per code, in order |
| AssetExtractor.TotalCodeOf | src/extractor.py:69 | the assets' codes are as long as the blocks they wrap |
| AssetExtractor.ExtractAssets | src/extractor.py:58-82 | `_extrair_e_remover_assets`: the figure pass over the text, then the table pass over what it leaves; its laws are the `ExtractAssets...` lemmas and `LeadingFigureExtracted` |
| AssetExtractor.ExtractAssetsKinds | src/extractor.py:63-82 | every asset is a figure or a table whose code is a float block of its environment, and every figure comes before every table |
| AssetExtractor.ExtractAssetsConserves | src/extractor.py:67-80 | narrative length plus total asset code length equals the input length |
| AssetExtractor.ExtractAssetsSplits | src/extractor.py:63-82 | the figures, in order, are cut from the input; the tables, in order, from what remains; the narrative is what remains after both; no figure block starts in a gap of the input's figure cut, and no table block in a gap of the table cut |
| AssetExtractor.ExtractAssetsComplete | src/extractor.py:63-82 | there is a figure asset exactly when a figure block starts somewhere in the text, and a table asset exactly when a table block starts somewhere in the text the figure pass leaves |
| AssetExtractor.LeadingFigureExtracted | src/extractor.py:67-69 | a figure environment at the start of the text is the first asset, a figure whose code is that whole environment |
| Strings.CharIndex | src/extractor.py:95 | the first position of a character, with none before it; none exactly when the character does not occur |
| Strings.CharIndexAfter | src/extractor.py:95 | a character first stands after a prefix that lacks it |
| MetadataExtractor.DirectiveIndex | src/extractor.py:95 | where `re.search` matches `\title{...}`/`\author{...}` in any letter case: a position with an opening that a `}` follows, and no such position before it |
| MetadataExtractor.FindDirective | src/extractor.py:95-102 | group 1 exists exactly when the search matches; it holds no `}` and runs from the opening to the first `}` after it |
| MetadataExtractor.FirstOpening | src/extractor.py:95 | after text without a backslash, the first opening that a `}` follows is the match |
| MetadataExtractor.FindDirectiveFinds | src/extractor.py:95-102 | a directive with no earlier backslash is found in any letter case, and its capture stops at the first `}` |
| MetadataExtractor.ExtractMetadata | src/extractor.py:84-104 | `extrair_metadados`: each field is the stripped capture of its directive in the preprocessed text, or its default |
| MetadataExtractor.MetadataClean | src/extractor.py:88-104 | both fields of the metadata, default or extracted, are clean: no backslash, no brace, normalised whitespace |
| MetadataExtractor.DefaultsClean | src/extractor.py:89-92 | the default title and author are clean text |
| MetadataExtractor.TitleFromDirective | src/extractor.py:95-97 | a `\title{g}` in the preprocessed text with no backslash before it makes the title the stripper applied to `g` |
| MetadataExtractor.AuthorFromDirective | src/extractor.py:100-102 | the same for `\author{g}` and the author |
| MetadataExtractor.TitleDefault | src/extractor.py:89-97 | when no `\title{...}` matches anywhere in the preprocessed text, the title is "Apresentação sem Título", whatever else the text holds |
| MetadataExtractor.AuthorDefault | src/extractor.py:89-102 | when no `\author{...}` matches anywhere, the author is "Autor Desconhecido" |
| MetadataExtractor.UpperCaseTitleFound | src/extractor.py:95 | `\TITLE{Beam}` is matched case-insensitively and gives "Beam" |
| SectionSplitter.DocumentBody | src/extractor.py:109-111 | group 1 of the `\begin{document}(.*?)\end{document}` search: the text from some opening up to the first closing after it; none when no opening has a closing after it (that the opening is the first such one is `DocumentBodyFirst`) |
| SectionSplitter.DocumentBodyFirst | src/extractor.py:109-111 | the body is taken after the first opening that a closing follows, whatever precedes it, up to the first closing after that opening |
| SectionSplitter.DocumentBodyFinds | src/extractor.py:109-111 | after text without a backslash, the body is the text up to the first `\end{document}` |
| SectionSplitter.SplitSections | src/extractor.py:113 | `re.split` always returns at least one piece |
| SectionSplitter.SplitSectionsOdd | src/extractor.py:113 | the pieces are odd in number: the introduction, then a title and a text per header |
| SectionSplitter.SplitRejoin | src/extractor.py:113 | joining the pieces back, each title inside its `\section{...}`, gives the body back |
| SectionSplitter.SplitWithoutHeaders | src/extractor.py:113 | a body without a header splits into itself alone |
| SectionSplitter.BodySections | src/extractor.py:113-139 | the sections of a body: "Contexto" for an introduction longer than 50 characters after stripping, then one per header whose lower-cased title holds neither "biblio" nor "reference" |
| SectionSplitter.Sections | src/extractor.py:106-141 | `extrair_secoes`: no sections when the preprocessed text has no document body, else the body's sections |
| Strings.Lower | src/extractor.py:134 | `str.lower()` on ASCII letters: same length, each character lowered on its own |
| SectionSplitter.ExtractSections | src/extractor.py:106-141 | the loop returns exactly the specified sections |
| SectionSplitter.NumberedSections | src/extractor.py:126-139 | the loop over headers returns the sections of the kept headers, in order |
| SectionSplitter.NumberedExactly | src/extractor.py:126-139 | every header without "biblio" or "reference" in its lower-cased title gives its section; every section comes from such a header; at most one section per header |
| SectionSplitter.ContextTitleKept | src/extractor.py:118-124 | the "Contexto" title itself is not bibliographic |
| SectionSplitter.BodySectionsBounded | src/extractor.py:113-139 | no section title is bibliographic, and there are at most headers + 1 sections |
| SectionSplitter.ContextWhenLong | src/extractor.py:118-124 | an introduction longer than 50 characters after stripping gives the first section, "Contexto"; otherwise every section comes from a header |
| SectionSplitter.SectionsShape | src/extractor.py:106-141 | no body gives no sections; no section is bibliographic; at most headers + 1 sections |
| DocumentLoader.TexName | src/extractor.py:19-20 | the name with ".tex" appended unless it already ends with it (laws in `TexNameSuffix`) |
| DocumentLoader.TexNameSuffix | src/extractor.py:19-20 | the result ends with ".tex", and ".tex" is appended exactly when the name does not already end with it |
| DocumentLoader.ClosesEndsWith | src/extractor.py:19 | the character-wise suffix test `TexName` uses agrees with `str.endswith` |
| DocumentLoader.Join | src/extractor.py:21 | `os.path.join`: an absolute name replaces the base; otherwise the base, a `/` unless the base is empty or ends with one, and the name (laws in `JoinShape`) |
| DocumentLoader.JoinShape | src/extractor.py:21 | an absolute name or an empty base gives the name itself; otherwise the result starts with the base and ends with the name |
| DocumentLoader.DirectiveAt | src/extractor.py:27 | a `\input{name}`/`\include{name}` at the start of the text: a non-empty name without `}` inside the match |
| DocumentLoader.OpensStartsWith | src/extractor.py:27 | the character-wise test for the literal part of the pattern agrees with a prefix test |
| DocumentLoader.DirectiveAtShape | src/extractor.py:27 | the matched text is the opening, the name and `}` |
| DocumentLoader.DirectiveAtFinds | src/extractor.py:27 | an opening, a non-empty name without `}` and a `}` are recognised as a directive with that name |
| DocumentLoader.Dirname | src/extractor.py:21 | POSIX `os.path.dirname`, the directory the intended code joins an included name to: the text up to the last `/`, trailing slashes stripped unless it is slashes only (laws in `DirnameJoin`, `DirnamePlain`) |
| DocumentLoader.DirnameJoin | src/extractor.py:21 | the directory of a slash-free name joined to a directory without a trailing slash is that directory |
| DocumentLoader.DirnamePlain | src/extractor.py:21 | a path without a slash has the empty directory, so its includes are named as written |
| DocumentLoader.Load | src/extractor.py:16-28 | `carregar_projeto_recursivo` with the base directory bound to the directory of the file being loaded: a missing file is an error, an exhausted recursion budget is the recursion limit, else the file's content expanded in its own directory |
| DocumentLoader.Expand | src/extractor.py:17-28 | `re.sub` with the callback: each directive, left to right, replaced by the loaded file it names, the first error ending the substitution |
| DocumentLoader.LoadAsWritten | src/extractor.py:16-28 | as written, a file loads only if it exists and holds no directive, and then to its own content |
| DocumentLoader.ExpandPlain | src/extractor.py:27-28 | text without a directive is returned unchanged |
| DocumentLoader.LoadPlain | src/extractor.py:16-28 | a file without directives loads to its content, whatever its directory, as the code as written returns it |
| DocumentLoader.NoBackslashNoDirective | src/extractor.py:27 | text without a backslash holds no directive |
| DocumentLoader.LoadFuel | src/extractor.py:16-28 | a load that succeeds gives the same text with any larger recursion budget |
| DocumentLoader.ExpandFuel | src/extractor.py:17-28 | the same for the substitution over a text |
| DocumentLoader.FirstDirectiveFails | src/extractor.py:16-28 | a file whose first directive names a file that does not load fails with that file's error |
| DocumentLoader.DirectiveFailureStops | src/extractor.py:17-28 | a directive whose file does not load ends the substitution with that file's error |
| DocumentLoader.OnlyDirectiveExpands | src/extractor.py:17-28 | text that is one directive and nothing else expands to exactly what the named file loads to |
| DocumentLoader.TexNameInDir | src/extractor.py:19-20 | ".tex" is appended to a name behind a directory exactly as to the bare name |
| DocumentLoader.SelfIncludeFails | src/extractor.py:16-28 | a file that opens by including itself never loads: the recursion runs until the limit |
| DocumentLoader.ExpandPrefix | src/extractor.py:28 | text before the first backslash is copied in front of the expansion of the rest, and succeeds exactly when the rest does |
| DocumentLoader.ExpandAtDirective | src/extractor.py:17-28 | a directive is replaced by its file's loaded text, followed by the expansion of the rest |
| DocumentLoader.ExpandInputPlain | src/extractor.py:17-28 | a directive naming a file without directives, then plain text, expands to that file's content, then the text |
| DocumentLoader.ExpandAfterPlain | src/extractor.py:28 | plain text in front of an expanding text is kept in front of its expansion |
| DocumentLoader.InlineChild | src/extractor.py:16-28 | a file holding one `\input` between plain text loads to that text with the included file, named relative to the file's own directory, spliced in where the directive stood |
| DocumentLoader.IncludeFailsAsWritten | src/extractor.py:21 | as written, a two-file project whose main file includes the other fails with `NameError` on `diretorio_base` |
| DocumentLoader.IncludeSplicedCorrected | src/extractor.py:16-28 | with the base directory bound, the same project loads to the included file's content |
| DocumentLoader.SingleDirectiveLoads | src/extractor.py:16-28 | a file that is one directive and nothing else loads to exactly what the file it names, relative to its own directory, loads to, an error included |
| DocumentLoader.NestedIncludeResolved | src/extractor.py:16-28 | includes are resolved against the directory of the file holding them: if `main` includes `d/a` and `d/a.tex` includes `b`, loading `main` loads `d/b.tex` |
| AssetSanitiser.CleanAssetCode | src/to_Beamer.py:41-71 | `_limpar_codigo_asset`: the star, placement, tabular and centering steps in the source's order; its laws are the SanitiserLaws lemmas |
| AssetSanitiser.DeStar | src/to_Beamer.py:46-47 | `figure*` becomes `figure`, then `table*` becomes `table` |
| AssetSanitiser.DeStarRemovesStars | src/to_Beamer.py:46-47 | without a doubled star, the code loses every "figure*" and "table*" |
| AssetSanitiser.DoubledStarSurvives | src/to_Beamer.py:46 | "figure**" becomes "figure*": one star survives |
| AssetSanitiser.FloatOpening | src/to_Beamer.py:52 | the length of a `\begin{figure}`/`\begin{table}` at the start, or 0 exactly when neither starts the text |
| AssetSanitiser.CloseAt | src/to_Beamer.py:52 | `.*?` up to a closing character on the same line: the end just past it, or 0 |
| AssetSanitiser.BracketGroup | src/to_Beamer.py:52 | an optional `[...]` group at the start: it opens with `[` and closes with `]` |
| AssetSanitiser.DropPlacement | src/to_Beamer.py:52 | the result is never longer, and it starts with the same character |
| AssetSanitiser.DropPlacementPlain | src/to_Beamer.py:52 | text before the first backslash is copied unchanged |
| AssetSanitiser.DropPlacementAt | src/to_Beamer.py:52 | the bracket group right after a float opening is removed, the opening kept, the rest rewritten in turn |
| AssetSanitiser.DropPlacementPrefixBack | src/to_Beamer.py:52 | a backslash-free prefix of the result is a prefix of the input |
| AssetSanitiser.DropPlacementIdempotent | src/to_Beamer.py:52 | for code whose openings carry at most one bracket group, dropping placements twice equals dropping them once |
| AssetSanitiser.TabularEnd | src/to_Beamer.py:59 | `\\begin\{tabular.*?\}` at the start: the end just past the first `}` on the line, or 0 |
| AssetSanitiser.TabularEndAt | src/to_Beamer.py:59 | the match stops at the first `}` after `\begin{tabular` |
| AssetSanitiser.WrapTabular | src/to_Beamer.py:56-64 | code that already has "adjustbox", or has no "tabular", is unchanged |
| AssetSanitiser.WrapOpenings | src/to_Beamer.py:58-62 | `re.sub` of `(\\begin\{tabular.*?\})`: the `adjustbox` opening put in front of each tabular opening |
| AssetSanitiser.WrapOpeningsPlain | src/to_Beamer.py:58-62 | text before the first backslash is copied unchanged |
| AssetSanitiser.WrapOpeningsAt | src/to_Beamer.py:58-62 | each `\begin{tabular...}` is preceded by the `adjustbox` opening, the rest rewritten in turn |
| AssetSanitiser.ClosingWrapped | src/to_Beamer.py:64 | each `\end{tabular}` is followed by a newline and `\end{adjustbox}` |
| AssetSanitiser.WrapOpeningsMarks | src/to_Beamer.py:58-62 | the opening rewrite either changes nothing or leaves "adjustbox" in the code |
| AssetSanitiser.WrapTabularMarks | src/to_Beamer.py:56-64 | the wrapping step either changes nothing or leaves "adjustbox" in the code |
| AssetSanitiser.WrapTabularIdempotent | src/to_Beamer.py:56-64 | wrapping twice equals wrapping once |
| AssetSanitiser.AddCentering | src/to_Beamer.py:67-69 | code that already has `\centering` is unchanged |
| AssetSanitiser.AddCenteringMarks | src/to_Beamer.py:67-69 | the centering step either changes nothing or leaves `\centering` in the code |
| AssetSanitiser.AddCenteringIdempotent | src/to_Beamer.py:67-69 | centering twice equals centering once |
| AssetSanitiser.CenteredWhenFloat | src/to_Beamer.py:67-69 | after the step, code with a float opening contains `\centering` |
| AssetSanitiser.CenteringAfterFigure | src/to_Beamer.py:67-69 | without `\centering`, it is inserted right after the first `\begin{figure}`, and the rest is rewritten by both replacements |
| AssetSanitiser.CenteringAfterTable | src/to_Beamer.py:67-69 | the same for the first `\begin{table}` |
| AssetSanitiser.TableSkippedByFigurePass | src/to_Beamer.py:68 | the figure replacement leaves a `\begin{table}` alone |
| AssetSanitiser.FigureCenteringSkipped | src/to_Beamer.py:69 | the table replacement leaves a centred `\begin{figure}` alone |
| AssetSanitiser.CleanedCodeCentred | src/to_Beamer.py:41-71 | sanitised code with a float opening contains `\centering` |
| SanitiserLaws.CleanAssetCodeNoStars | src/to_Beamer.py:41-71 | without a doubled star in the input, the sanitised code holds no "figure*" and no "table*": no later step creates one |
| SanitiserLaws.CleanAssetCodeIdempotent | src/to_Beamer.py:41-71 | sanitising sanitised code changes nothing, for input without a doubled star whose openings carry at most one bracket group |
| SanitiserLaws.DropPlacementNoNew | src/to_Beamer.py:52 | dropping placement options creates no occurrence of a text without `}` whose only backslash is at its head |
| SanitiserLaws.DropPlacementUnplaced | src/to_Beamer.py:52 | after the step no float opening is followed by `[`, when none carried two bracket groups |
| SanitiserLaws.UnplacedFixed | src/to_Beamer.py:52 | code where no float opening is followed by `[` is left unchanged by the step |
| SanitiserLaws.WrapTabularNoNew | src/to_Beamer.py:56-64 | the adjustbox wrapping creates no "figure*", "table*", `\begin{figure}[` or `\begin{table}[` |
| SanitiserLaws.WrapOpeningsGrows | src/to_Beamer.py:58-62 | inserting adjustbox openings never shortens the code, and any change lengthens it |
| SanitiserLaws.AddCenteringNoNew | src/to_Beamer.py:67-69 | the centering step creates none of those patterns, nor "tabular" or `\end{tabular}` |
| SanitiserLaws.AddCenteringKeepsWrapped | src/to_Beamer.py:56-69 | centering code the wrapping leaves alone gives code the wrapping still leaves alone |
| FrameComposer.EscapeTitle | src/to_Beamer.py:78 | `titulo.replace('&', r'\&').replace('%', r'\%')` |
| FrameComposer.EscapeItem | src/to_Beamer.py:87 | the same chain, then `.replace('$', r'\$')` |
| FrameComposer.EscapeTitleCharwise | src/to_Beamer.py:78 | the chained replacements on the title escape each `&` and `%` on its own |
| FrameComposer.EscapeItemCharwise | src/to_Beamer.py:87 | the chained replacements on a topic escape each `&`, `%` and `$` on its own |
| FrameComposer.EscapeTitleConcat | src/to_Beamer.py:78 | escaping the title distributes over concatenation |
| FrameComposer.EscapeItemConcat | src/to_Beamer.py:87 | escaping a topic distributes over concatenation |
| FrameComposer.TitleEscapeSound | src/to_Beamer.py:78 | every `&` and `%` of the escaped title is preceded by a backslash, and unescaping gives the title back |
| FrameComposer.ItemEscapeSound | src/to_Beamer.py:87 | the same for `&`, `%` and `$` in a topic |
| FrameComposer.KindLabel | src/to_Beamer.py:96 | "Figura" for a figure asset, "Tabela" for any other kind |
| FrameComposer.AssetFrame | src/to_Beamer.py:95-106 | one `[shrink]` frame titled with the escaped title, the label and the number, holding the sanitised code |
| FrameComposer.SectionFrames | src/to_Beamer.py:73-108 | `criar_slides_secao`: the topics frame (none without topics), then the asset frames numbered from 1 |
| FrameComposer.ComposeSection | src/to_Beamer.py:73-108 | the loops return exactly the specified frames of the section |
| FrameComposer.TopicListed | src/to_Beamer.py:86-88 | every topic has its escaped `\item` line among the item lines |
| FrameComposer.AssetShown | src/to_Beamer.py:94-106 | every asset's frame, numbered by its position from 1, is among the asset frames |
| FrameComposer.SectionListsTopics | src/to_Beamer.py:81-91 | every topic has its `\item` line in the section's frames; with no topics only the asset frames are emitted (nothing at all when there are no assets either) |
| FrameComposer.SectionShowsAssets | src/to_Beamer.py:94-106 | every asset has its own frame, titled with the escaped section title, "Figura" or "Tabela" and its number |
| Strings.NatToStringRoundTrip | src/to_Beamer.py:101 | the decimal numeral of a frame number reads back as that number |
| PresentationAssembler.FillPreamble | src/to_Beamer.py:114-115 | the preamble with `{{TITULO}}` replaced first, then `{{AUTOR}}` |
| PresentationAssembler.Presentation | src/to_Beamer.py:110-125 | `montar_apresentacao_completa`'s text: the filled preamble (default metadata when none is given), every slide's frames in order, `\end{document}` |
| PresentationAssembler.Assemble | src/to_Beamer.py:110-125 | the loop returns exactly the filled preamble, every slide's frames in order, and `\end{document}` |
| PresentationAssembler.SlotFilled | src/to_Beamer.py:114-115 | a `{{...}}` placeholder inside a command's braces is replaced by the value |
| PresentationAssembler.SlotKept | src/to_Beamer.py:114 | the title replacement leaves the author placeholder alone |
| PresentationAssembler.FilledKept | src/to_Beamer.py:115 | the author replacement leaves a filled title line without braces alone |
| PresentationAssembler.PlaceholdersFilled | src/to_Beamer.py:114-115 | after both replacements the preamble holds `\title{<title>}` and `\author{<author>}` lines |
| PresentationAssembler.MetadataPlaced | src/to_Beamer.py:114-115 | for a title without `{`, the filled preamble holds both metadata lines |
| PresentationAssembler.ExtractedMetadataPlaced | src/to_Beamer.py:114-115 | the metadata the extractor returns always lands in the preamble |
| PresentationAssembler.DefaultMetadataPlaced | src/to_Beamer.py:111-115 | without metadata, the document carries the title "Apresentação" and an empty author |
| PresentationAssembler.AllFramesAppend | src/to_Beamer.py:117-123 | the frames of two slide lists in a row are the frames of the first, then those of the second |
| PresentationAssembler.SlideFramesListed | src/to_Beamer.py:117-123 | every slide's frames are among all frames |
| PresentationAssembler.SlideShown | src/to_Beamer.py:117-123 | every slide's frames are in the document |
| PresentationAssembler.DocumentClosed | src/to_Beamer.py:125 | the document ends with all frames and then `\end{document}` |

## Left out

- File I/O. Reading files in `carregar_projeto_recursivo` and `_ler_arquivo_seguro` becomes a map from path to content. Writing the output and returning its absolute path in `montar_apresentacao_completa` are left out; the text written is the result.
- The unused `self.secoes` field of `LatexIngestor` and the never-changed fields of `BeamerBuilder` become constants; neither class is a Dafny class.
- src/summarizer.py, summarizer.py, src/pipeline.py, to_Markdown.py and test.py are not part of this model. Summarisation is an external step: a `Slide` carries the topics it produced in place of a section's narrative.
- Python's recursion limit, which is what stops an include cycle, is the `fuel` parameter of `DocumentLoader.Load`. `RecursionLimit` stands for the `RecursionError` raised when it runs out.
- Python's `re` engine is not modelled in general; each pattern used is a scanner of its own.
- DocumentLoader.Join: models `posixpath.join` only. The Windows rules of `ntpath.join` (drive letters, both separators) are not modelled.
- DocumentLoader.Dirname: models `posixpath.dirname` only. `ntpath.dirname` also splits at a backslash and after a drive letter, which is not modelled.
- `Strings.Lower` lowers ASCII letters only. For the "biblio"/"reference" tests this is exact. Only two non-ASCII characters lower to text holding an ASCII letter. U+0130 lowers to `i` followed by U+0307, and U+0307 cannot continue either word. U+212A KELVIN SIGN lowers to `k`, which neither word contains.
- `slide_data.get('assets', [])`: a `Slide` always has an asset list, and a missing key is modelled as an empty list.
- DeStarRemovesStars: requires that no "figure**" or "table**" occurs, because `str.replace` leaves one star of a doubled star (DoubledStarSurvives).
- DropPlacementIdempotent: requires every float opening to carry at most one bracket group, because a second group after the first is removed only on the second pass.
- CleanAssetCodeIdempotent: requires no doubled star and at most one bracket group per float opening. A doubled star keeps one star for the second pass to remove, and a second bracket group is removed only on the second pass.
- CleanAssetCodeNoStars: requires no doubled star, for the same reason as DeStarRemovesStars.
- MetadataPlaced: requires a title without `{`, because a title holding the author placeholder is replaced in turn by the second `str.replace`. ExtractedMetadataPlaced shows that extracted metadata always meets this.
- Extracting floats again from a narrative can find new ones, because deleting a block can join the text around it into a fresh float. No property here claims otherwise.
- The loops of `criar_slides_secao` and `montar_apresentacao_completa` append to one string. The methods gather the item lines, the asset frames and the slides' frames first, and put the fixed head in front at the end. This yields the same text.

## Findings

| source | as written | input that shows it | evidently intended | confidence | as-written member | corrected member |
|---|---|---|---|---|---|---|
| src/extractor.py:21 | the substitution callback joins the file name to `diretorio_base`, a name bound nowhere, so the first `\input`/`\include` raises `NameError` | files `{"main.tex": "\input{intro}", "intro.tex": "x"}`, loading "main.tex" | the included file, named relative to the directory of the file holding the directive, is loaded in place of the directive | not executed | DocumentLoader.IncludeFailsAsWritten | DocumentLoader.IncludeSplicedCorrected |
