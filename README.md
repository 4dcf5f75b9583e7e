# Caption overlay filter graph — a Dafny model

This project models the core of `index.js`, a cloud function that renders
text captions onto a video. For each request it does four things:

- It draws one caption style at random from a fixed catalogue.
- For each overlay, it strips the caption's square brackets and wraps the
  text at 25 characters. It writes the result to a caption file of its own.
- It builds a filter chain for the external video processor: one `drawtext`
  stage per overlay, each reading the previous stage's video label, joined
  with `;`.
- It runs the processor and uploads the result. A `finally` block then
  deletes every temporary file of the run.

The model is split into modules, one per file:

- `Text` (`text.dfy`) gives the JavaScript built-ins the code relies on
  their meaning here. It covers `split` and `join` with a one-character
  separator, a global one-character `replace`, and the decimal rendering of
  numbers in template literals.
- `Styles` (`styles.dfy`) holds the catalogue `TEXT_STYLES` and
  `pickRandomStyle`. The random draw is a real number in [0, 1) given as a
  parameter.
- `Wrapping` (`wrapping.dfy`) holds `wrapText`. It is a method with the
  source's loop, proved against the recursive function `Pack` that
  specifies it.
- `Escaping` (`escaping.dfy`) holds bracket stripping and path escaping.
- `GraphSyntax` (`graphsyntax.dfy`) states how the processor's filter-graph
  parser reads the chain. Outside single quotes, `[` and `]` delimit labels,
  `,` separates filters, `;` separates chains and `\` escapes. Inside quotes,
  every character up to the closing quote is taken as it is. `Live` is what
  the parser reads outside quotes, and `Sealed` says that a piece of text is
  read whole as one filter's arguments.
- `FilterGraph` (`filtergraph.dfy`) holds the labels, the `drawtext` option
  list (built with the source's conditional pushes), the stages, the chain
  and the processor's argument list. It proves how the parser splits the
  chain back into its stages.
- `Workspace` (`workspace.dfy`) holds the temporary path names. It also has
  an abstract file system: a class whose `files` map holds path to content.
  It holds the `finally` cleanup too.
- `Render` (`render.dfy`) holds the overlay loop and `renderTextOverlay`.
  The loop writes the caption files and builds the chain. Whether the
  download, the processor or the upload fails is given as a `Fault`. So is
  whether the failing step left a partial file behind.
- `Handler` (`handler.dfy`) holds the request check of the HTTP entry point.

Optional style fields (`fontcolor`, `fontcolor_expr`, `border`, `shadow`) are
strings, and the empty string stands for "absent". The code only tests them
for truthiness, and an absent field and `""` are both falsy. An absent
`kerning` prints as 0 (`kerning || 0`), so it is stored as 0.

## Model

| member | source | states |
|---|---|---|
| Text.Split | index.js:41 | `split` yields at least one piece (`"".split(' ')` is `[""]`) |
| Text.Join | index.js:53 | definition of `join` with a one-character separator; its properties are in `Text.JoinSplit`, `Text.SplitJoin` and `Text.JoinChars` |
| Text.JoinSplit | index.js:41-53 | joining the pieces of a split with the same separator gives the string back |
| Text.SplitPieces | index.js:41 | no piece of a split contains the separator |
| Text.SplitConcat | index.js:41 | splitting `a + sep + b` gives the pieces of `a` followed by the pieces of `b` |
| Text.SplitJoin | index.js:117 | splitting a join of separator-free pieces gives exactly those pieces back |
| Text.JoinMerge | index.js:46 | moving a separator into a piece (`currentLine += ' ' + word`) does not change the joined string |
| Text.JoinChars | index.js:53 | a character occurs in a join iff it occurs in some piece, or it is the separator and there are at least two pieces |
| Text.ReplaceChar | index.js:90 | a global one-character replace keeps the length and replaces exactly the matching positions |
| Text.ReplaceJoin | index.js:53 | replacing the separator of a join whose pieces avoid it is joining with the replacement |
| Text.NatToString | index.js:84 | definition of `${n}` for a natural number; its properties are in `Text.NatToStringDigits`, `Text.ParseNatToString` and `Text.NatToStringInjective` |
| Text.NatToStringDigits | index.js:84 | `${n}` is a non-empty run of decimal digits without a leading zero |
| Text.ParseNatToString | index.js:84 | reading the digits of `${n}` back gives `n` |
| Text.NatToStringInjective | index.js:87 | distinct numbers print differently |
| Text.IntToString | index.js:96-97 | definition of `${i}` for an integer; its properties are in `Text.IntToStringChars` |
| Text.IntToStringChars | index.js:96-97 | a printed integer is digits when it is not negative, and a minus sign followed by digits when it is |
| Styles.StyleIndex | index.js:37 | `Math.floor(r * 10)` for `r` in [0, 1) is a valid catalogue index and the floor of `r * 10` |
| Styles.PickStyle | index.js:36-38 | the drawn style is an entry of the catalogue |
| Styles.ShadowClauseShape | index.js:24 | a shadow clause begins with `shadowx=` and holds no metacharacter `[ ] , ; ' \` |
| Styles.BorderClauseShape | index.js:25 | a border clause begins with `borderw=` and holds no metacharacter `[ ] , ; ' \` |
| Styles.ShadowClause | index.js:24-32 | definition of `shadowx=N:shadowy=N:shadowcolor=black@O`; its properties are in `Styles.ShadowClauseShape` |
| Styles.BorderClause | index.js:25-33 | definition of `borderw=N:bordercolor=black@O`; its properties are in `Styles.BorderClauseShape` |
| Styles.WellFormed | index.js:23-34 | definition of what the renderer relies on in a style; its properties are in `Styles.EntryWellFormed` |
| Styles.TextStyles | index.js:23-34 | definition: the ten entries of `TEXT_STYLES`, in order; their properties are in `Styles.EntryWellFormed` |
| Styles.EntryWellFormed | index.js:23-34 | each catalogue entry has a positive size and exactly one decoration with its own option name; every field the code inserts unquoted, except the colour expression, holds no metacharacter; the colour expression holds no quote and no `;` (its commas are the subject of `FilterGraph.StageBodySealed`) |
| Styles.CatalogueWellFormed | index.js:23-34 | every entry of the catalogue is well formed |
| Wrapping.Pack | index.js:44-51 | the packing loop keeps the lines already pushed as a prefix and always pushes the current line at the end |
| Wrapping.WrappedLines | index.js:41-52 | wrapping produces at least one line |
| Wrapping.WrapText | index.js:40-54 | the loop computes the newline join of `WrappedLines`; for text without newlines, turning newlines back into spaces gives the text exactly |
| Wrapping.PackFits | index.js:44-51 | every line the loop pushes fits the width or is a single word |
| Wrapping.WrappedLinesFit | index.js:44-50 | every line is at most `maxWidth` long unless it contains no space, i.e. is one over-long word left whole |
| Wrapping.PackJoin | index.js:44-52 | the loop neither drops, splits nor reorders words: joining its lines with spaces gives the pushed lines, the current line and the remaining words joined |
| Wrapping.WrappedLinesJoin | index.js:41-53 | joining the lines with spaces gives the text back, runs of spaces included |
| Wrapping.WrappedLinesAvoid | index.js:52-53 | a character other than a space that is absent from the text is absent from every line |
| Wrapping.WrapRoundTrip | index.js:41-53 | for text without newlines, replacing every newline of the result by a space gives the input |
| Wrapping.RewrapSame | index.js:40-54 | wrapping again after turning newlines back into spaces gives the same result |
| Wrapping.PackGreedy | index.js:45-50 | each pushed line is followed by one whose first word would not have fitted after it |
| Wrapping.WrappedLinesGreedy | index.js:45-52 | for consecutive lines L and L', the length of L plus one plus the length of the first word of L' exceeds `maxWidth` |
| Wrapping.EmptyTextWraps | index.js:41-43 | the empty caption wraps to one empty line |
| Wrapping.PackAbsorb | index.js:45-46 | while the current line has room, one-letter words keep joining it, two characters each |
| Wrapping.SixteenLetters | index.js:44-52 | any sixteen one-letter words at width 25 make two lines, the first exactly 25 characters long |
| Escaping.StripBracketsRemoves | index.js:85 | no `[` or `]` is left, and the text does not grow |
| Escaping.StripBracketsKeeps | index.js:85 | every other character keeps its number of occurrences |
| Escaping.StripBracketsConcat | index.js:85 | stripping works character by character: it distributes over concatenation, so the order of what is kept is preserved |
| Escaping.StripBracketsClean | index.js:85 | text without brackets is unchanged, so stripping twice is stripping once |
| Escaping.StripBrackets | index.js:85 | definition of `replace(/[\[\]]/g, "")`; its properties are in `Escaping.StripBracketsRemoves`, `Escaping.StripBracketsKeeps`, `Escaping.StripBracketsConcat` and `Escaping.StripBracketsClean` |
| Escaping.ForwardSlashes | index.js:90 | definition of `replace(/\\/g, '/')`; its properties are in `Escaping.EscapePathRoundTrip` |
| Escaping.EscapeColons | index.js:90 | an escaped path never starts with a colon; its other properties are in `Escaping.EscapeColonsEscaped` and `Escaping.UnescapeEscapeColons` |
| Escaping.EscapePath | index.js:90-91 | definition of the two replaces in a row; its properties are in `Escaping.EscapePathRoundTrip` and `FilterGraph.QuoteFreeEscapePath` |
| Escaping.EscapeColonsEscaped | index.js:90 | in colon-escaped text without backslashes of its own, every backslash comes right before a colon and every colon has one |
| Escaping.UnescapeEscapeColons | index.js:90 | reading `\:` back as `:` undoes colon escaping |
| Escaping.EscapePathRoundTrip | index.js:90-91 | an escaped path has backslashes only right before colons, every colon has one, and unescaping gives the path with `/` for every `\` |
| GraphSyntax.Metachar | index.js:118 | definition of the characters the parser acts on outside quotes; used by `GraphSyntax.Inert` |
| GraphSyntax.Inert | index.js:118 | definition; its properties are in `GraphSyntax.InertConcat`, `GraphSyntax.InertSealed` and `GraphSyntax.InertPrefix` |
| GraphSyntax.QuoteAfter | index.js:118 | definition of the quote state after reading; its properties are in `GraphSyntax.ReadConcat` and `GraphSyntax.QuoteAfterFlip` |
| GraphSyntax.Live | index.js:118 | definition of what the parser reads outside quotes; its properties are in `GraphSyntax.ReadConcat` and `GraphSyntax.LiveJoin` |
| GraphSyntax.Sealed | index.js:118 | definition; its properties are in `GraphSyntax.SealedConcat` and `GraphSyntax.SealedJoin` |
| GraphSyntax.Quoted | index.js:94-101 | definition of text between single quotes; its properties are in `GraphSyntax.QuotedRead` |
| GraphSyntax.InertConcat | index.js:113 | a concatenation is inert exactly when both parts are |
| GraphSyntax.InertJoinParts | index.js:113 | every part of an inert join is inert |
| GraphSyntax.ReadConcat | index.js:113 | reading a concatenation is reading its first part, then its second part from the quote state the first left |
| GraphSyntax.QuoteAfterFlip | index.js:113 | starting inside quotes flips the quote state at the end |
| GraphSyntax.QuoteFreeRead | index.js:113 | quote-free text is read as it is outside quotes, not at all inside them, and leaves the quote state unchanged |
| GraphSyntax.InertSealed | index.js:113 | inert text is sealed |
| GraphSyntax.SealedConcat | index.js:113 | after a sealed part, the rest is sealed exactly when the whole is |
| GraphSyntax.InertPrefix | index.js:113 | an inert prefix is read as it is and changes neither the quote state nor whether the rest is sealed |
| GraphSyntax.QuotedRead | index.js:94-101 | quoting leaves the quote state unchanged, and quote-free text between quotes is sealed |
| GraphSyntax.SealedJoin | index.js:113 | a join of sealed parts with a separator that is no metacharacter is sealed |
| GraphSyntax.LiveJoin | index.js:117 | when every part closes its quotes, the parser reads a join as the join of what it reads of each part |
| GraphSyntax.JoinQuoteAfter | index.js:113 | when at most one part leaves a quote open, the join leaves a quote open exactly when one part does |
| FilterGraph.LabelsChain | index.js:80-84 | stage 0 reads `[0:v]`, stage i > 0 reads `[v{i-1}]`; output labels are pairwise distinct and never `[0:v]`; the mapped label is `[v{N-1}]`, or `[0:v]` for N = 0 |
| FilterGraph.OutputLabelInjective | index.js:84 | distinct stages write distinct labels |
| FilterGraph.InputLabel | index.js:83 | definition; its properties are in `FilterGraph.LabelsChain` and `FilterGraph.LabelsPlain` |
| FilterGraph.OutputLabel | index.js:84 | definition; its properties are in `FilterGraph.LabelsChain`, `FilterGraph.OutputLabelInjective` and `FilterGraph.LabelsPlain` |
| FilterGraph.FinalLabel | index.js:80-114 | definition of `lastLabel` after the loop; its properties are in `FilterGraph.LabelsChain` |
| FilterGraph.LabelsPlain | index.js:83-84 | no label holds a `;` or a quote |
| FilterGraph.OptionKeyOf | index.js:94-101 | the name of `key=value` is `key` whenever the key has no `=` |
| FilterGraph.Option | index.js:94-101 | definition of the `key=value` template; its properties are in `FilterGraph.OptionKeyOf` and `FilterGraph.OptionRead` |
| FilterGraph.OptionKey | index.js:94-101 | definition of an option's name, the text before its first `=`; its properties are in `FilterGraph.OptionKeyOf` |
| FilterGraph.Window | index.js:101 | definition of `between(t,start,end)`; its properties are in `FilterGraph.WindowRead` |
| FilterGraph.EnableValue | index.js:101 | definition: the time gate between quotes; its properties are in `FilterGraph.EnableSealed` and `FilterGraph.EnableRead` |
| FilterGraph.FixedValues | index.js:93-102 | there are eight values, one per fixed option name; their properties are in `FilterGraph.FixedOptionsSealed` |
| FilterGraph.FixedOptions | index.js:93-102 | there are eight options; their names are in `FilterGraph.FixedOptionKeys` |
| FilterGraph.ColourOption | index.js:104-108 | definition of the colour clause as the code pushes it, the expression unquoted; its properties are in `FilterGraph.ColourRead` and `FilterGraph.OptionOrder` |
| FilterGraph.ColourOptionQuoted | index.js:104-108 | definition of the corrected colour clause, the expression quoted (see Findings); its properties are in `FilterGraph.ColourQuotedSealed` |
| FilterGraph.Decorations | index.js:110-111 | definition; its properties are in `FilterGraph.DecorationKey` |
| FilterGraph.DrawTextOptionList | index.js:93-111 | definition of `drawTextOptions` after its pushes; its properties are in `FilterGraph.OptionOrder`, `FilterGraph.OptionsSealed` and `FilterGraph.BuildDrawTextOptions` |
| FilterGraph.DrawTextOptionListQuoted | index.js:93-111 | definition of the option list with the corrected colour clause; its properties are in `FilterGraph.QuotedStageBodySealed` |
| FilterGraph.BuildDrawTextOptions | index.js:93-111 | the pushes produce the eight fixed options, the colour clause and the decorations, in that order |
| FilterGraph.FixedOptionKeys | index.js:93-102 | the fixed options are named fontfile, textfile, fontsize, kerning, line_spacing, x, y, enable, in that order |
| FilterGraph.DecorationKey | index.js:110-111 | a catalogue style contributes exactly one decoration, named `borderw` or `shadowx` |
| FilterGraph.OptionOrder | index.js:93-111 | the option names are the fixed eight, then `fontcolor_expr` if the style has one and `fontcolor` otherwise, then the decoration; exactly one option (the ninth) is a colour option |
| FilterGraph.OptionRead | index.js:94-113 | outside quotes, an option `key=value` with an inert key reads as the key, `=` and what the value shows; it leaves quotes open exactly when its value does, and is sealed exactly when its value is |
| FilterGraph.FixedOptionsSealed | index.js:93-102 | for a catalogue style and quote-free escaped paths, every fixed option except `enable` is sealed |
| FilterGraph.WindowRead | index.js:101 | the time gate leaves a quote open exactly as its start time followed by its end time do, and holds no quote when they hold none |
| FilterGraph.EnableSealed | index.js:101 | with quote-free times, the `enable` option is sealed: its commas stand inside quotes |
| FilterGraph.EnableRead | index.js:101 | the `enable` option leaves a quote open exactly when its two times together do |
| FilterGraph.ColourQuotedSealed | index.js:104-108 | the corrected colour clause of a catalogue style is sealed |
| FilterGraph.PlainOptionRead | index.js:94-111 | an option with an inert key and a quote-free value closes its quotes, shows `key=value` outside them, and is sealed exactly when its value holds no metacharacter |
| FilterGraph.ColourRead | index.js:104-108 | the code's colour clause of a catalogue style closes its quotes, shows an expression whole outside quotes with no `;`, and is sealed exactly when the expression holds no metacharacter |
| FilterGraph.OptionsSealed | index.js:93-111 | for a catalogue style and quote-free paths and times, the code's list has ten options, each closing its quotes; each but the colour clause is sealed, and the colour clause is sealed exactly when the expression holds no metacharacter |
| FilterGraph.DrawTextSealed | index.js:113 | `drawtext=` followed by `:`-joined options that close their quotes is read whole as one filter exactly when every option is sealed |
| FilterGraph.Stages | index.js:82-115 | there is exactly one stage per overlay |
| FilterGraph.StagesSnoc | index.js:113 | one more overlay appends its stage and leaves the earlier stages unchanged |
| FilterGraph.StageBody | index.js:113 | definition of the drawtext filter of a stage as the code builds it; its properties are in `FilterGraph.StageBodySealed`, `FilterGraph.StageBodyRead` and `FilterGraph.QuoteInTimeUnseals` |
| FilterGraph.Stage | index.js:113 | definition of a stage; its properties are in `FilterGraph.StageLive` and `FilterGraph.StagesSnoc` |
| FilterGraph.FilterChain | index.js:117 | definition of `filterParts.join(';')`; its properties are in `FilterGraph.ChainSplitsIntoStages` and `FilterGraph.NoOverlays` |
| FilterGraph.FfmpegArgs | index.js:118 | definition of the argument list as written; its properties are in `FilterGraph.NoOverlays` and `FilterGraph.ProcessorArgsResolve` |
| FilterGraph.Bracketed | index.js:118 | definition: a `-map` argument in brackets names a graph label, otherwise an input stream; used by `FilterGraph.NoOverlays` |
| FilterGraph.MapResolves | index.js:118 | definition: a bracketed `-map` argument must be the output label of one of the stages; used by `FilterGraph.NoOverlays` and `FilterGraph.ProcessorArgsResolve` |
| FilterGraph.MapsResolve | index.js:118 | definition: every argument after a `-map` resolves; used by `FilterGraph.NoOverlays` and `FilterGraph.ProcessorArgsResolve` |
| FilterGraph.NoOverlays | index.js:80-118 | with no overlay the chain is empty and `[0:v]` is mapped, in brackets: a graph label that no stage writes, so the `-map` does not resolve |
| FilterGraph.ProcessorArgs | index.js:118 | definition of the corrected argument list (see Findings); its properties are in `FilterGraph.ProcessorArgsResolve` |
| FilterGraph.ProcessorArgsResolve | index.js:117-118 | with the correction every `-map` resolves, for any number of stages, and with at least one stage the list is the one the code builds |
| FilterGraph.QuoteFreeEscapePath | index.js:90-91 | escaping adds no quote to a path |
| FilterGraph.InertCaptionPath | index.js:87 | a caption path holds no metacharacter |
| FilterGraph.StageBodySealed | index.js:93-113 | for a catalogue style, a quote-free font path and quote-free times, the parser reads the code's drawtext filter whole, whatever the caption says, exactly when the colour expression holds no metacharacter |
| FilterGraph.CatalogueStageSealed | index.js:23-34 | for catalogue entry k, quote-free font path and times, the code's drawtext filter is read whole exactly when k is not 6, gaslight_flicker |
| FilterGraph.StageBodyRead | index.js:93-113 | for a catalogue style, a quote-free font path and quote-free times, the code's drawtext filter closes its quotes and shows no `;` outside them |
| FilterGraph.StageBodyQuoted | index.js:113 | definition of the drawtext filter with the corrected colour clause; its properties are in `FilterGraph.QuotedStageBodySealed` and `FilterGraph.PlainColourAgrees` |
| FilterGraph.QuotedStageBodySealed | index.js:93-113 | with the correction, the drawtext filter is read whole for every catalogue style, gaslight_flicker included |
| FilterGraph.PlainColourAgrees | index.js:104-107 | the correction changes nothing for a style without a colour expression |
| FilterGraph.StageLive | index.js:113 | outside quotes, a stage whose filter closes its quotes reads as its two labels around what the filter shows, and closes its quotes too |
| FilterGraph.ChainSplitsIntoStages | index.js:113-117 | for a catalogue style, a quote-free font path and quote-free times, splitting what the parser reads of the code's chain at `;` gives one piece per overlay, in overlay order, each its labels around its unquoted filter text |
| FilterGraph.QuoteInTimeUnseals | index.js:101 | the times are quoted but not escaped: when the start and end times leave a quote open between them, the stage's filter is no longer sealed |
| FilterGraph.ExpressionCommaBreaksStage | index.js:104-105 | a comma in a catalogue style's colour expression stands outside quotes in the code's drawtext filter, where the parser ends the filter |
| FilterGraph.FlickerBreaksStage | index.js:30 | every draw in [0.6, 0.7) picks `gaslight_flicker`, and its stage as written has a comma outside quotes |
| Workspace.CaptionPathInjective | index.js:87 | each overlay of a run has its own caption path |
| Workspace.VideoIsNoCaption | index.js:69 | the input video path is never a caption path |
| Workspace.TmpPath | index.js:69-70 | definition of `path.join(tmp, name)` for a plain file name; its properties are in `Workspace.CaptionPathInjective` and `Workspace.VideoIsNoCaption` |
| Workspace.VideoPath | index.js:69 | definition; its properties are in `Workspace.VideoIsNoCaption` |
| Workspace.OutputPath | index.js:70 | definition of `path.join(tmp, fileName)`; its properties are in `Workspace.Cleanup` |
| Workspace.CaptionPath | index.js:87 | definition; its properties are in `Workspace.CaptionPathInjective` and `FilterGraph.InertCaptionPath` |
| Workspace.TempPaths | index.js:129-133 | definition of the paths the `finally` block removes; its properties are in `Workspace.Cleanup` |
| Workspace.FileSystem.WriteFile | index.js:88 | a write creates or overwrites exactly one file |
| Workspace.FileSystem.Unlink | index.js:129 | an unlink removes exactly one existing file |
| Workspace.RemoveIfExists | index.js:129 | removes the path if present and changes nothing else |
| Workspace.Cleanup | index.js:128-133 | afterwards the file system is the old one minus the input path, the output path and the N caption paths: nothing else is touched |
| Render.CaptionWritten | index.js:87-88 | writing caption i extends the set of written captions without disturbing the earlier ones |
| Render.CaptionText | index.js:85-88 | definition of a caption file's contents; its properties are in `Render.BuildFilterGraph` and the `Wrapping` lemmas |
| Render.BuildFilterGraph | index.js:79-117 | the loop yields the chain of all stages and the last stage's label, and the file system gains exactly the N caption files, each holding its caption stripped and wrapped at 25 |
| Render.BucketName | index.js:20 | definition of the configured bucket or `ssm-renders-8822`; used by `Render.RenderTextOverlay` |
| Render.PublicUrl | index.js:126 | definition of the public address; used by `Render.RenderTextOverlay` |
| Render.RenderTextOverlay | index.js:66-134 | whether the run succeeds or any step throws, the file system ends as it began minus every temporary path of the run; the outcome is the public URL or the fault; once the download succeeds, the processor gets the argument list of index.js:118 for the chain of all stages and the last label, while the video and all caption files are in place |
| Handler.ValidRequest | index.js:139 | a body is accepted iff `videoUrl` is truthy and `overlays` is an array (even an empty one) |
| Handler.Truthy | index.js:139 | definition of JavaScript truthiness for the request fields; its properties are in `Handler.ValidRequest` |

## Left out

- Downloading the input (`download`, index.js:56-64) is not modelled. Its result is a string parameter, and its failure is a `Fault`.
- The processor call `execFileSync` (index.js:121) is not modelled. The model only builds the argument list it receives. Its output file is a parameter, and its failure is a `Fault`.
- The upload to cloud storage (index.js:124) is not modelled, apart from its failure as a `Fault`. The bucket name and the public URL string are modelled.
- The HTTP entry point (index.js:137-152) is modelled only as its request check `ValidRequest`. Responses are not modelled, and neither is a request whose overlays are not objects with `text`, `start` and `end`.
- `Math.random()` and `Date.now()` are parameters. `Styles.StyleIndex` does not claim that the draw is uniform.
- Resolving the font path and the processor path (index.js:13-21) is not modelled. The font path is a parameter.
- The font path is never checked for single quotes. `FilterGraph.StageBodySealed`, `FilterGraph.ChainSplitsIntoStages` and the other lemmas about the chain require it to hold none. The path comes from the install directory (index.js:13-17), and a quote in it would break the `fontfile` option the way `FilterGraph.QuoteInTimeUnseals` shows for the times.
- `path.join` is modelled as string concatenation with `/`. The file names involved contain no `..` and no doubled separators.
- Logging is left out.
- The start and end times are opaque strings, because the JavaScript floating-point numbers and their printing are not modelled.
- `fs.writeFileSync` is not modelled as failing. A throw part way through the overlay loop is therefore not one of the faults; cleanup would remove any caption file written before it in the same way.
- Concurrency is not modelled. Two runs started in the same millisecond share every temporary name, so one run's cleanup can delete the other's files.
- String length counts Dafny characters, not JavaScript UTF-16 code units. For captions outside the Basic Multilingual Plane, `wrapText` measures line lengths differently.
- The second parsing level is not modelled. After the graph parser, `drawtext` splits its argument text at `:` and unescapes it again, which turns `\:` back into `:`. The model stops at the graph level. `Escaping.EscapePathRoundTrip` states what that second level reads of an escaped path.
- A backslash outside quotes counts as a metacharacter. The graph parser would take it as an escape, and the model does not say what that escape yields. So `GraphSyntax.Inert` is stricter than the parser, and the lemmas stay on the safe side. No catalogue field holds a backslash.
- Whether `drawtext` gives the `if(...)` colour expression the meaning its name suggests is not modelled. The model only states how the graph parser reads the option.
- Some behaviours of the code are easy to miss. The model follows the code as written:
  - `wrapText` splits on a single space, not on any whitespace, so runs of spaces give empty words. The round trip keeps them.
  - The time gate `between(t,start,end)` includes both ends, not `t < end`.
  - `start < end` is never checked.
  - Only `[` and `]` are stripped from captions.
  - Cleanup removes the run's temporary names even when a file of that name existed before the run.
  - The start and end times reach the filter graph inside quotes but unescaped. `FilterGraph.ChainSplitsIntoStages` therefore requires them to hold no quote, and `FilterGraph.QuoteInTimeUnseals` shows what a quote in them does.

## Findings

The model's pipeline (`FilterGraph.FilterChain`, `Render.BuildFilterGraph`, `Render.RenderTextOverlay`) follows the code as written. Each correction below is a separate definition with its property proved; nothing in the pipeline uses it.

| source | as written | input that shows it | evidently intended | confidence | as-written member | corrected member |
|---|---|---|---|---|---|---|
| index.js:104-105 | the colour expression is pushed as `fontcolor_expr=<expr>` without quotes, so its commas end the drawtext filter for the graph parser | a draw in [0.6, 0.7), which picks `gaslight_flicker` with `if(lt(rand(0),0.92),white,gray)` | the expression quoted, `fontcolor_expr='<expr>'`, as the code already does for `enable` | high; not executed | FilterGraph.FlickerBreaksStage | FilterGraph.QuotedStageBodySealed |
| index.js:117-118 | with no overlay, the code passes `-filter_complex ""` and maps `[0:v]`, a graph label that no filter writes | a request whose `overlays` is the empty array, which the request check accepts | no filter graph, and the video stream mapped as `0:v` | medium; not executed | FilterGraph.NoOverlays | FilterGraph.ProcessorArgsResolve |
