/** The filter graph handed to the external processor (index.js:79-118): one
    `drawtext` stage per overlay, each reading the previous stage's video
    label, joined with `;`, and the argument list of the processor call. */
module FilterGraph {
  import opened Text
  import opened Styles
  import opened Escaping
  import opened Workspace
  import opened GraphSyntax

  /** One caption: its text and the two ends of its time window, kept as the
      text a template literal prints for them (the source's numbers are
      floating point and are never computed with). */
  datatype Overlay = Overlay(text: string, start: string, end: string)

  /** The label of the input's video stream. */
  const BaseVideo := "[0:v]"

  /** `index === 0 ? '[0:v]' : `[v${index - 1}]``. */
  function InputLabel(index: nat): string
  {
    if index == 0 then BaseVideo else "[v" + NatToString(index - 1) + "]"
  }

  /** `[v${index}]`. */
  function OutputLabel(index: nat): string
  {
    "[v" + NatToString(index) + "]"
  }

  /** `lastLabel` after the loop over `n` overlays: it starts as `[0:v]` and
      each stage replaces it with its own output label. */
  function FinalLabel(n: nat): string
  {
    if n == 0 then BaseVideo else OutputLabel(n - 1)
  }

  /** The labels chain the stages: stage 0 reads the input video, every later
      stage reads what the stage before it wrote, the output labels are all
      different from each other and from the input video, and the label
      mapped to the output is the last stage's (or the input video when there
      is no stage). */
  lemma LabelsChain(n: nat)
    ensures InputLabel(0) == BaseVideo
    ensures forall i :: 0 < i < n ==> InputLabel(i) == OutputLabel(i - 1)
    ensures forall i, j :: 0 <= i < j < n ==> OutputLabel(i) != OutputLabel(j)
    ensures forall i :: 0 <= i < n ==> OutputLabel(i) != BaseVideo
    ensures FinalLabel(n) == if n == 0 then BaseVideo else OutputLabel(n - 1)
  {
    forall i, j | 0 <= i < j < n ensures OutputLabel(i) != OutputLabel(j) {
      OutputLabelInjective(i, j);
    }
    forall i | 0 <= i < n ensures OutputLabel(i) != BaseVideo {
      assert OutputLabel(i)[1] == 'v' != BaseVideo[1];
    }
  }

  lemma OutputLabelInjective(i: nat, j: nat)
    ensures OutputLabel(i) == OutputLabel(j) ==> i == j
  {
    var li, lj := OutputLabel(i), OutputLabel(j);
    if li == lj {
      assert NatToString(i) == li[2..|li| - 1];
      assert NatToString(j) == lj[2..|lj| - 1];
      NatToStringInjective(i, j);
    }
  }

  /** One drawtext option, `key=value`. */
  function Option(key: string, value: string): string
  {
    key + "=" + value
  }

  /** The name of an option: what stands before its first `=`. */
  function OptionKey(option: string): string
  {
    Split(option, '=')[0]
  }

  lemma OptionKeyOf(key: string, value: string)
    requires '=' !in key
    ensures OptionKey(Option(key, value)) == key
  {
    SplitConcat(key, value, '=');
    SplitWord(key, '=');
  }

  /** The names of the eight options every stage starts with. */
  const FixedKeys: seq<string> := ["fontfile", "textfile", "fontsize", "kerning", "line_spacing", "x", "y", "enable"]

  /** The time gate `between(t,start,end)`, which includes both ends. */
  function Window(overlay: Overlay): string
  {
    "between(t," + overlay.start + "," + overlay.end + ")"
  }

  /** The value of the `enable` option: the time gate, quoted. */
  function EnableValue(overlay: Overlay): string
  {
    Quoted(Window(overlay))
  }

  /** The values of the eight fixed options, in the order of `FixedKeys`:
      the paths arrive already escaped and are quoted, a missing kerning is
      stored as 0, and the line spacing is always 20. */
  function FixedValues(fontFile: string, textFile: string, style: Style, overlay: Overlay): (values: seq<string>)
    ensures |values| == |FixedKeys|
  {
    [ Quoted(fontFile), Quoted(textFile), IntToString(style.fontSize), IntToString(style.kerning),
      "20", style.x, style.y, EnableValue(overlay) ]
  }

  /** The array literal of index.js:93-102: each fixed key with its value. */
  function FixedOptions(fontFile: string, textFile: string, style: Style, overlay: Overlay): (options: seq<string>)
    ensures |options| == |FixedKeys|
  {
    var values := FixedValues(fontFile, textFile, style, overlay);
    seq(|FixedKeys|, k requires 0 <= k < |FixedKeys| => Option(FixedKeys[k], values[k]))
  }

  /** The colour clause exactly as index.js:104-108 pushes it:
      `fontcolor_expr` with the style's expression inserted as it is when the
      style has one, otherwise `fontcolor`, white by default. */
  function ColourOption(style: Style): string
  {
    if style.fontColorExpr != "" then Option("fontcolor_expr", style.fontColorExpr)
    else Option("fontcolor", if style.fontColor != "" then style.fontColor else "white")
  }

  /** The colour clause with the expression between quotes, the way the code
      already writes the time window: the correction of `ColourOption`, whose
      commas would otherwise end the drawtext filter (see
      `FlickerBreaksStage`). */
  function ColourOptionQuoted(style: Style): string
  {
    if style.fontColorExpr != "" then Option("fontcolor_expr", Quoted(style.fontColorExpr))
    else Option("fontcolor", if style.fontColor != "" then style.fontColor else "white")
  }

  /** The border and shadow clauses the style has, border first
      (index.js:110-111). */
  function Decorations(style: Style): seq<string>
  {
    (if style.border != "" then [style.border] else []) + (if style.shadow != "" then [style.shadow] else [])
  }

  /** `drawTextOptions` once its pushes are done (index.js:93-111). */
  function DrawTextOptionList(fontFile: string, textFile: string, style: Style, overlay: Overlay): seq<string>
  {
    FixedOptions(fontFile, textFile, style, overlay) + [ColourOption(style)] + Decorations(style)
  }

  /** The option list with the corrected colour clause. */
  function DrawTextOptionListQuoted(fontFile: string, textFile: string, style: Style, overlay: Overlay): seq<string>
  {
    FixedOptions(fontFile, textFile, style, overlay) + [ColourOptionQuoted(style)] + Decorations(style)
  }

  /** Builds the option list the way the source does: the eight fixed
      options, then one push for the colour and one push per decoration. */
  method BuildDrawTextOptions(fontFile: string, textFile: string, style: Style, overlay: Overlay)
    returns (options: seq<string>)
    ensures options == DrawTextOptionList(fontFile, textFile, style, overlay)
  {
    options := FixedOptions(fontFile, textFile, style, overlay);
    if style.fontColorExpr != "" {
      options := options + [Option("fontcolor_expr", style.fontColorExpr)];
    } else {
      options := options + [Option("fontcolor", if style.fontColor != "" then style.fontColor else "white")];
    }
    if style.border != "" {
      options := options + [style.border];
    }
    if style.shadow != "" {
      options := options + [style.shadow];
    }
  }

  function Keys(options: seq<string>): (keys: seq<string>)
    ensures |keys| == |options|
  {
    seq(|options|, k requires 0 <= k < |options| => OptionKey(options[k]))
  }

  predicate IsColourKey(key: string)
  {
    key == "fontcolor" || key == "fontcolor_expr"
  }

  lemma KeyLiterals()
    ensures forall k :: 0 <= k < |FixedKeys| ==> '=' !in FixedKeys[k] && !IsColourKey(FixedKeys[k])
    ensures '=' !in "fontcolor" && '=' !in "fontcolor_expr" && '=' !in "borderw" && '=' !in "shadowx"
    ensures !IsColourKey("borderw") && !IsColourKey("shadowx")
  {
  }

  lemma FixedOptionKeys(fontFile: string, textFile: string, style: Style, overlay: Overlay)
    ensures Keys(FixedOptions(fontFile, textFile, style, overlay)) == FixedKeys
  {
    var values := FixedValues(fontFile, textFile, style, overlay);
    KeyLiterals();
    forall k | 0 <= k < |FixedKeys|
      ensures Keys(FixedOptions(fontFile, textFile, style, overlay))[k] == FixedKeys[k]
    {
      OptionKeyOf(FixedKeys[k], values[k]);
    }
  }

  /** The key of the one decoration of a catalogue style. */
  lemma DecorationKey(style: Style)
    requires WellFormed(style)
    ensures |Decorations(style)| == 1
    ensures OptionKey(Decorations(style)[0]) == if style.border != "" then "borderw" else "shadowx"
  {
    KeyLiterals();
    var decoration := if style.border != "" then style.border else style.shadow;
    var key := if style.border != "" then "borderw" else "shadowx";
    assert decoration == Option(key, decoration[8..]) by {
      assert decoration == decoration[..8] + decoration[8..];
    }
    OptionKeyOf(key, decoration[8..]);
  }

  /** For a catalogue style, the options come in the source's order: font
      file, text file, size, kerning, line spacing, position, time window,
      exactly one colour clause, then the one decoration of the style. */
  lemma OptionOrder(fontFile: string, textFile: string, style: Style, overlay: Overlay)
    requires WellFormed(style)
    ensures Keys(DrawTextOptionList(fontFile, textFile, style, overlay)) ==
              FixedKeys + [if style.fontColorExpr != "" then "fontcolor_expr" else "fontcolor",
                           if style.border != "" then "borderw" else "shadowx"]
    ensures forall k :: 0 <= k < |DrawTextOptionList(fontFile, textFile, style, overlay)| ==>
              (IsColourKey(OptionKey(DrawTextOptionList(fontFile, textFile, style, overlay)[k])) <==> k == 8)
  {
    var fixed := FixedOptions(fontFile, textFile, style, overlay);
    var options := DrawTextOptionList(fontFile, textFile, style, overlay);
    KeyLiterals();
    FixedOptionKeys(fontFile, textFile, style, overlay);
    DecorationKey(style);
    OptionKeyOf("fontcolor_expr", style.fontColorExpr);
    OptionKeyOf("fontcolor", if style.fontColor != "" then style.fontColor else "white");
    assert |options| == 10;
    forall k | 0 <= k < 8 ensures OptionKey(options[k]) == FixedKeys[k] {
      assert options[k] == fixed[k];
      assert Keys(fixed)[k] == OptionKey(fixed[k]);
    }
  }

  lemma KeyLiteralsInert()
    ensures forall k :: 0 <= k < |FixedKeys| ==> Inert(FixedKeys[k])
    ensures Inert("fontcolor") && Inert("fontcolor_expr") && Inert("white") && Inert("20")
    ensures Inert("drawtext=") && !Metachar(':') && Metachar(';')
  {
  }

  /** An option is read as its key and `=`, then as its value. */
  lemma OptionRead(key: string, value: string)
    requires Inert(key)
    ensures Live(Option(key, value), false) == key + "=" + Live(value, false)
    ensures QuoteAfter(Option(key, value), false) == QuoteAfter(value, false)
    ensures Sealed(Option(key, value)) <==> Sealed(value)
  {
    InertConcat(key, "=");
    InertPrefix(key + "=", value);
  }

  lemma NumberInert(i: int)
    ensures Inert(IntToString(i))
  {
    IntToStringChars(i);
  }

  /** The fixed options other than the time window are sealed for a
      catalogue style and paths without quotes: the paths are quoted and
      everything else is inert. */
  lemma FixedOptionsSealed(fontFile: string, textFile: string, style: Style, overlay: Overlay)
    requires WellFormed(style)
    requires '\'' !in fontFile && '\'' !in textFile
    ensures forall k :: 0 <= k < |FixedKeys| && k != 7 ==> Sealed(FixedOptions(fontFile, textFile, style, overlay)[k])
  {
    var values := FixedValues(fontFile, textFile, style, overlay);
    KeyLiteralsInert();
    QuotedRead(fontFile, false);
    QuotedRead(textFile, false);
    NumberInert(style.fontSize);
    InertSealed(IntToString(style.fontSize));
    NumberInert(style.kerning);
    InertSealed(IntToString(style.kerning));
    InertSealed(values[4]);
    InertSealed(style.x);
    InertSealed(style.y);
    forall k | 0 <= k < |FixedKeys| && k != 7 ensures Sealed(FixedOptions(fontFile, textFile, style, overlay)[k]) {
      OptionRead(FixedKeys[k], values[k]);
    }
  }

  /** The time gate leaves the quote state as its two times do. */
  lemma WindowRead(overlay: Overlay)
    ensures QuoteAfter(Window(overlay), false) == QuoteAfter(overlay.end, QuoteAfter(overlay.start, false))
    ensures '\'' !in overlay.start && '\'' !in overlay.end ==> '\'' !in Window(overlay)
  {
    FrameRead("between(t,", overlay.start, ",", overlay.end, ")");
  }

  /** Quote-free text between and around two texts leaves the quote state
      as the two texts do. */
  lemma FrameRead(p1: string, s: string, p2: string, e: string, p3: string)
    requires '\'' !in p1 && '\'' !in p2 && '\'' !in p3
    ensures QuoteAfter(p1 + s + p2 + e + p3, false) == QuoteAfter(e, QuoteAfter(s, false))
    ensures '\'' !in s && '\'' !in e ==> '\'' !in p1 + s + p2 + e + p3
  {
    var q := QuoteAfter(s, false);
    QuoteFreeRead(p1, false);
    ReadConcat(p1, s, false);
    ReadConcat(p1 + s, p2, false);
    QuoteFreeRead(p2, q);
    ReadConcat(p1 + s + p2, e, false);
    ReadConcat(p1 + s + p2 + e, p3, false);
    QuoteFreeRead(p3, QuoteAfter(e, q));
  }

  /** The time window is quoted, so it is sealed whenever the times hold no
      quote. */
  lemma EnableSealed(overlay: Overlay)
    requires '\'' !in overlay.start && '\'' !in overlay.end
    ensures Sealed(Option("enable", EnableValue(overlay)))
  {
    WindowRead(overlay);
    QuotedRead(Window(overlay), false);
    KeyLiteralsInert();
    OptionRead("enable", EnableValue(overlay));
  }

  /** The time window leaves a quote open exactly when its two times
      together do. */
  lemma EnableRead(overlay: Overlay)
    ensures QuoteAfter(Option("enable", EnableValue(overlay)), false) ==
              (QuoteAfter(overlay.start, false) != QuoteAfter(overlay.end, false))
  {
    KeyLiteralsInert();
    OptionRead("enable", EnableValue(overlay));
    QuotedRead(Window(overlay), false);
    WindowRead(overlay);
    QuoteAfterFlip(overlay.end, QuoteAfter(overlay.start, false));
  }

  /** The corrected colour clause of a catalogue style is sealed. */
  lemma ColourQuotedSealed(style: Style)
    requires WellFormed(style)
    ensures Sealed(ColourOptionQuoted(style))
  {
    KeyLiteralsInert();
    if style.fontColorExpr != "" {
      QuotedRead(style.fontColorExpr, false);
      OptionRead("fontcolor_expr", Quoted(style.fontColorExpr));
    } else {
      var colour := if style.fontColor != "" then style.fontColor else "white";
      InertSealed(colour);
      OptionRead("fontcolor", colour);
    }
  }

  /** An option whose value holds no quote is read as written: it closes
      its quotes, shows its key, `=` and its value outside them, and is
      sealed exactly when its value holds no metacharacter. */
  lemma PlainOptionRead(key: string, value: string)
    requires Inert(key) && '\'' !in value
    ensures !QuoteAfter(Option(key, value), false)
    ensures Live(Option(key, value), false) == key + "=" + value
    ensures ';' !in value ==> ';' !in Live(Option(key, value), false)
    ensures Sealed(Option(key, value)) <==> Inert(value)
  {
    OptionRead(key, value);
    QuoteFreeRead(value, false);
    InertQuoteFree(key);
  }

  /** As written, the colour clause of a catalogue style closes its quotes,
      shows an expression whole outside quotes, and holds no chain separator
      there; it is sealed exactly when the expression holds no
      metacharacter. */
  lemma ColourRead(style: Style)
    requires WellFormed(style)
    ensures !QuoteAfter(ColourOption(style), false)
    ensures style.fontColorExpr != "" ==> Live(ColourOption(style), false) == "fontcolor_expr=" + style.fontColorExpr
    ensures ';' !in Live(ColourOption(style), false)
    ensures Sealed(ColourOption(style)) <==> Inert(style.fontColorExpr)
  {
    KeyLiteralsInert();
    if style.fontColorExpr != "" {
      PlainOptionRead("fontcolor_expr", style.fontColorExpr);
    } else {
      var colour := if style.fontColor != "" then style.fontColor else "white";
      InertQuoteFree(colour);
      PlainOptionRead("fontcolor", colour);
      assert Inert("");
    }
  }

  /** As written, for a catalogue style and paths and times without quotes,
      there are ten options, every one closes its quotes, and every one but
      the colour clause is sealed; the colour clause is sealed exactly when
      the colour expression holds no metacharacter. */
  lemma OptionsSealed(fontFile: string, textFile: string, style: Style, overlay: Overlay)
    requires WellFormed(style)
    requires '\'' !in fontFile && '\'' !in textFile && '\'' !in overlay.start && '\'' !in overlay.end
    ensures |DrawTextOptionList(fontFile, textFile, style, overlay)| == 10
    ensures DrawTextOptionList(fontFile, textFile, style, overlay)[8] == ColourOption(style)
    ensures forall k :: 0 <= k < 10 ==> !QuoteAfter(DrawTextOptionList(fontFile, textFile, style, overlay)[k], false)
    ensures forall k :: 0 <= k < 10 ==>
              (Sealed(DrawTextOptionList(fontFile, textFile, style, overlay)[k]) <==> k != 8 || Inert(style.fontColorExpr))
  {
    var options := DrawTextOptionList(fontFile, textFile, style, overlay);
    FixedOptionsSealed(fontFile, textFile, style, overlay);
    EnableSealed(overlay);
    InertSealed(style.border);
    InertSealed(style.shadow);
    DecorationKey(style);
    ColourRead(style);
    assert options[7] == Option("enable", EnableValue(overlay));
    forall k | 0 <= k < 10 && k != 8 ensures Sealed(options[k]) {
    }
  }

  /** `drawtext=` followed by options joined with `:`, each closing its
      quotes, is read whole as one filter exactly when every option is
      sealed. */
  lemma DrawTextSealed(options: seq<string>)
    requires forall k :: 0 <= k < |options| ==> !QuoteAfter(options[k], false)
    ensures Sealed("drawtext=" + Join(options, ':')) <==> forall k :: 0 <= k < |options| ==> Sealed(options[k])
  {
    KeyLiteralsInert();
    InertPrefix("drawtext=", Join(options, ':'));
    if forall k :: 0 <= k < |options| ==> Sealed(options[k]) {
      SealedJoin(options, ':');
    }
    if Sealed(Join(options, ':')) {
      LiveJoin(options, ':');
      InertJoinParts(LiveParts(options), ':');
      forall k | 0 <= k < |options| ensures Sealed(options[k]) {
        assert LiveParts(options)[k] == Live(options[k], false);
      }
    }
  }

  /** The part of a stage between its two labels. */
  function StageBody(fontPath: string, runId: nat, style: Style, overlay: Overlay, index: nat): string
  {
    var options := DrawTextOptionList(EscapePath(fontPath), EscapePath(CaptionPath(runId, index)), style, overlay);
    "drawtext=" + Join(options, ':')
  }

  /** The stage of overlay `index` (index.js:113). */
  function Stage(fontPath: string, runId: nat, style: Style, overlay: Overlay, index: nat): string
  {
    InputLabel(index) + StageBody(fontPath, runId, style, overlay, index) + OutputLabel(index)
  }

  /** `filterParts` after the loop: one stage per overlay, in order. */
  function Stages(fontPath: string, runId: nat, style: Style, overlays: seq<Overlay>): (stages: seq<string>)
    ensures |stages| == |overlays|
  {
    seq(|overlays|, i requires 0 <= i < |overlays| => Stage(fontPath, runId, style, overlays[i], i))
  }

  /** A stage is its input label, the drawtext filter and its output label. */
  lemma StageParts(fontPath: string, runId: nat, style: Style, overlay: Overlay, index: nat, options: seq<string>)
    requires options == DrawTextOptionList(EscapePath(fontPath), EscapePath(CaptionPath(runId, index)), style, overlay)
    ensures Stage(fontPath, runId, style, overlay, index) == InputLabel(index) + "drawtext=" + Join(options, ':') + OutputLabel(index)
  {
  }

  /** One more overlay adds its stage at the end and leaves the earlier
      stages as they were. */
  lemma StagesSnoc(fontPath: string, runId: nat, style: Style, overlays: seq<Overlay>, n: nat)
    requires n < |overlays|
    ensures Stages(fontPath, runId, style, overlays[..n + 1]) ==
              Stages(fontPath, runId, style, overlays[..n]) + [Stage(fontPath, runId, style, overlays[n], n)]
  {
    var longer, shorter := Stages(fontPath, runId, style, overlays[..n + 1]), Stages(fontPath, runId, style, overlays[..n]);
    forall i | 0 <= i < n ensures longer[i] == shorter[i] {
      assert overlays[..n + 1][i] == overlays[..n][i];
    }
    assert longer[n] == Stage(fontPath, runId, style, overlays[n], n) by {
      assert overlays[..n + 1][n] == overlays[n];
    }
  }

  /** `filterParts.join(';')`. */
  function FilterChain(fontPath: string, runId: nat, style: Style, overlays: seq<Overlay>): string
  {
    Join(Stages(fontPath, runId, style, overlays), ';')
  }

  /** The argument list of the processor call (index.js:118). */
  function FfmpegArgs(videoFile: string, filterChain: string, mapLabel: string, outputFile: string): seq<string>
  {
    ["-i", videoFile, "-filter_complex", filterChain, "-map", mapLabel, "-map", "0:a?",
     "-c:v", "libx264", "-c:a", "copy", "-y", outputFile]
  }

  /** A `-map` argument in brackets names a label of the filter graph;
      without brackets it names a stream of an input file. */
  predicate Bracketed(name: string)
  {
    |name| >= 2 && name[0] == '[' && name[|name| - 1] == ']'
  }

  /** The processor finds what a `-map` argument names: a bracketed label
      must be written by one of the `n` stages of the graph. */
  predicate MapResolves(n: nat, name: string)
  {
    Bracketed(name) ==> exists i :: 0 <= i < n && name == OutputLabel(i)
  }

  /** Every argument that follows a `-map` resolves. */
  predicate MapsResolve(args: seq<string>, n: nat)
  {
    forall k :: 0 <= k < |args| - 1 && args[k] == "-map" ==> MapResolves(n, args[k + 1])
  }

  /** As written, with no overlay there is no stage: the graph is empty and
      `[0:v]` is mapped, in brackets, so it names a graph label that no stage
      writes. */
  lemma NoOverlays(fontPath: string, runId: nat, style: Style, videoFile: string, outputFile: string)
    ensures FilterChain(fontPath, runId, style, []) == ""
    ensures FinalLabel(0) == BaseVideo
    ensures !MapsResolve(FfmpegArgs(videoFile, FilterChain(fontPath, runId, style, []), FinalLabel(0), outputFile), 0)
  {
    var args := FfmpegArgs(videoFile, FilterChain(fontPath, runId, style, []), FinalLabel(0), outputFile);
    assert args[4] == "-map" && args[5] == BaseVideo;
    assert Bracketed(BaseVideo);
  }

  /** The argument list with the empty case corrected: with no stage the
      graph is left out and the input's video stream is mapped by its stream
      specifier, without brackets. With stages it is the source's list. */
  function ProcessorArgs(videoFile: string, filterChain: string, n: nat, outputFile: string): seq<string>
  {
    if n == 0 then
      ["-i", videoFile, "-map", "0:v", "-map", "0:a?", "-c:v", "libx264", "-c:a", "copy", "-y", outputFile]
    else
      FfmpegArgs(videoFile, filterChain, FinalLabel(n), outputFile)
  }

  /** With the correction, every mapped label resolves, whatever the number
      of stages; and from one stage on the list is the source's. */
  lemma ProcessorArgsResolve(videoFile: string, filterChain: string, n: nat, outputFile: string)
    ensures MapsResolve(ProcessorArgs(videoFile, filterChain, n, outputFile), n)
    ensures n > 0 ==> ProcessorArgs(videoFile, filterChain, n, outputFile) == FfmpegArgs(videoFile, filterChain, FinalLabel(n), outputFile)
  {
    var args := ProcessorArgs(videoFile, filterChain, n, outputFile);
    forall k | 0 <= k < |args| - 1 && args[k] == "-map" ensures MapResolves(n, args[k + 1]) {
      if n > 0 && k + 1 == 5 {
        assert args[5] == OutputLabel(n - 1);
      } else {
        assert !Bracketed(args[k + 1]) by {
          assert args[k + 1][0] != '[';
        }
      }
    }
  }

  /** Escaping a path adds only `/` and `\`, never a quote. */
  lemma QuoteFreeEscapePath(p: string)
    requires '\'' !in p
    ensures '\'' !in EscapePath(p)
  {
    var q := ForwardSlashes(p);
    assert '\'' !in q by {
      forall k | 0 <= k < |q| ensures q[k] != '\'' {
        assert p[k] in p;
      }
    }
    QuoteFreeEscapeColons(q);
  }

  lemma {:induction false} QuoteFreeEscapeColons(p: string)
    requires '\'' !in p
    ensures '\'' !in EscapeColons(p)
  {
    if |p| > 0 {
      assert p[0] in p;
      assert '\'' !in p[1..] by {
        forall k | 0 <= k < |p| - 1 ensures p[1..][k] != '\'' {
          assert p[1..][k] == p[k + 1];
        }
      }
      QuoteFreeEscapeColons(p[1..]);
      var h := if p[0] == ':' then "\\:" else [p[0]];
      assert '\'' !in h;
      assert EscapeColons(p) == h + EscapeColons(p[1..]);
    }
  }

  lemma InertCaptionPath(runId: nat, index: nat)
    ensures Inert(CaptionPath(runId, index))
  {
    var r, i := NatToString(runId), NatToString(index);
    NatToStringDigits(runId);
    NatToStringDigits(index);
    DigitsInert(r);
    DigitsInert(i);
    InertConcat("/tmp/text_", r);
    InertConcat("/tmp/text_" + r, "_");
    InertConcat("/tmp/text_" + r + "_", i);
    InertConcat("/tmp/text_" + r + "_" + i, ".txt");
    assert CaptionPath(runId, index) == "/tmp/text_" + r + "_" + i + ".txt";
  }

  /** Neither escaped path holds a quote when the font path holds none. */
  lemma EscapedPathsQuoteFree(fontPath: string, runId: nat, index: nat)
    requires '\'' !in fontPath
    ensures '\'' !in EscapePath(fontPath) && '\'' !in EscapePath(CaptionPath(runId, index))
  {
    QuoteFreeEscapePath(fontPath);
    InertCaptionPath(runId, index);
    InertQuoteFree(CaptionPath(runId, index));
    QuoteFreeEscapePath(CaptionPath(runId, index));
  }

  /** As written, the parser reads the drawtext filter of a stage whole,
      whatever the caption says (the caption reaches the processor through
      its file, never inline), exactly when the colour expression holds no
      metacharacter: the quoted paths and time window are read whole, and
      so is every other option of a catalogue style. This holds for a font
      path and time values without quotes. */
  lemma StageBodySealed(fontPath: string, runId: nat, style: Style, overlay: Overlay, index: nat)
    requires WellFormed(style)
    requires '\'' !in fontPath && '\'' !in overlay.start && '\'' !in overlay.end
    ensures Sealed(StageBody(fontPath, runId, style, overlay, index)) <==> Inert(style.fontColorExpr)
  {
    var fontFile, textFile := EscapePath(fontPath), EscapePath(CaptionPath(runId, index));
    var options := DrawTextOptionList(fontFile, textFile, style, overlay);
    EscapedPathsQuoteFree(fontPath, runId, index);
    OptionsSealed(fontFile, textFile, style, overlay);
    DrawTextSealed(options);
    if !Inert(style.fontColorExpr) {
      assert !Sealed(options[8]);
    }
  }

  /** In the catalogue, every style but gaslight_flicker gives stages whose
      drawtext filter is read whole; gaslight_flicker's does not. */
  lemma CatalogueStageSealed(k: nat, fontPath: string, runId: nat, overlay: Overlay, index: nat)
    requires k < |TextStyles()|
    requires '\'' !in fontPath && '\'' !in overlay.start && '\'' !in overlay.end
    ensures Sealed(StageBody(fontPath, runId, TextStyles()[k], overlay, index)) <==> k != 6
  {
    EntryWellFormed(k);
    StageBodySealed(fontPath, runId, TextStyles()[k], overlay, index);
    if k == 6 {
      assert TextStyles()[6].fontColorExpr[13] == ',';
    } else {
      assert TextStyles()[k].fontColorExpr == "";
      assert Inert("");
    }
  }

  /** As written, the drawtext filter of a stage closes its quotes and shows
      no chain separator outside them, for a catalogue style and a font path
      and times without quotes. */
  lemma StageBodyRead(fontPath: string, runId: nat, style: Style, overlay: Overlay, index: nat)
    requires WellFormed(style)
    requires '\'' !in fontPath && '\'' !in overlay.start && '\'' !in overlay.end
    ensures !QuoteAfter(StageBody(fontPath, runId, style, overlay, index), false)
    ensures ';' !in Live(StageBody(fontPath, runId, style, overlay, index), false)
  {
    var fontFile, textFile := EscapePath(fontPath), EscapePath(CaptionPath(runId, index));
    var options := DrawTextOptionList(fontFile, textFile, style, overlay);
    EscapedPathsQuoteFree(fontPath, runId, index);
    OptionsSealed(fontFile, textFile, style, overlay);
    ColourRead(style);
    KeyLiteralsInert();
    var live := LiveParts(options);
    forall k | 0 <= k < |live| ensures ';' !in live[k] {
      assert live[k] == Live(options[k], false);
      if k != 8 {
        assert Sealed(options[k]);
      }
    }
    LiveJoin(options, ':');
    JoinChars(live, ':', ';');
    JoinQuoteAfter(options, ':', -1);
    InertPrefix("drawtext=", Join(options, ':'));
  }

  /** The drawtext filter of a stage with the corrected colour clause. */
  function StageBodyQuoted(fontPath: string, runId: nat, style: Style, overlay: Overlay, index: nat): string
  {
    var options := DrawTextOptionListQuoted(EscapePath(fontPath), EscapePath(CaptionPath(runId, index)), style, overlay);
    "drawtext=" + Join(options, ':')
  }

  /** With the correction, the parser reads the drawtext filter of a stage
      whole for every catalogue style, gaslight_flicker included. */
  lemma QuotedStageBodySealed(fontPath: string, runId: nat, style: Style, overlay: Overlay, index: nat)
    requires WellFormed(style)
    requires '\'' !in fontPath && '\'' !in overlay.start && '\'' !in overlay.end
    ensures Sealed(StageBodyQuoted(fontPath, runId, style, overlay, index))
  {
    var fontFile, textFile := EscapePath(fontPath), EscapePath(CaptionPath(runId, index));
    var options := DrawTextOptionListQuoted(fontFile, textFile, style, overlay);
    EscapedPathsQuoteFree(fontPath, runId, index);
    FixedOptionsSealed(fontFile, textFile, style, overlay);
    EnableSealed(overlay);
    ColourQuotedSealed(style);
    InertSealed(style.border);
    InertSealed(style.shadow);
    SealedJoin(options, ':');
    KeyLiteralsInert();
    InertPrefix("drawtext=", Join(options, ':'));
  }

  /** The correction changes nothing for a style without a colour
      expression, nine of the ten catalogue entries. */
  lemma PlainColourAgrees(fontPath: string, runId: nat, style: Style, overlay: Overlay, index: nat)
    requires style.fontColorExpr == ""
    ensures StageBodyQuoted(fontPath, runId, style, overlay, index) == StageBody(fontPath, runId, style, overlay, index)
  {
  }

  /** A label holds neither a chain separator nor a quote. */
  lemma LabelsPlain(index: nat)
    ensures ';' !in InputLabel(index) && '\'' !in InputLabel(index)
    ensures ';' !in OutputLabel(index) && '\'' !in OutputLabel(index)
  {
    var d := NatToString(index);
    NatToStringDigits(index);
    assert ';' !in d && '\'' !in d;
    assert OutputLabel(index) == "[v" + d + "]";
    if index > 0 {
      var p := NatToString(index - 1);
      NatToStringDigits(index - 1);
      assert ';' !in p && '\'' !in p;
      assert InputLabel(index) == "[v" + p + "]";
    }
  }

  /** Outside quotes, a stage whose filter closes its quotes reads as its two
      labels around what its filter shows outside quotes. */
  lemma StageLive(fontPath: string, runId: nat, style: Style, overlay: Overlay, index: nat)
    requires !QuoteAfter(StageBody(fontPath, runId, style, overlay, index), false)
    ensures Live(Stage(fontPath, runId, style, overlay, index), false) ==
              InputLabel(index) + Live(StageBody(fontPath, runId, style, overlay, index), false) + OutputLabel(index)
    ensures !QuoteAfter(Stage(fontPath, runId, style, overlay, index), false)
  {
    var input, body, output := InputLabel(index), StageBody(fontPath, runId, style, overlay, index), OutputLabel(index);
    LabelsPlain(index);
    QuoteFreeRead(input, false);
    QuoteFreeRead(output, false);
    ReadConcat(input, body, false);
    ReadConcat(input + body, output, false);
  }

  /** What the parser reads of each stage outside quotes: its labels around
      the unquoted part of its drawtext filter. */
  function LiveStages(fontPath: string, runId: nat, style: Style, overlays: seq<Overlay>): (live: seq<string>)
    ensures |live| == |overlays|
  {
    seq(|overlays|, i requires 0 <= i < |overlays| =>
      InputLabel(i) + Live(StageBody(fontPath, runId, style, overlays[i], i), false) + OutputLabel(i))
  }

  /** The parser splits the chain into the stages: outside quotes, the chain
      is the stages, one per overlay and in overlay order, each its labels
      around its unquoted drawtext filter, separated by `;` and by nothing
      else. Whether each filter is then read whole is `StageBodySealed`. */
  lemma ChainSplitsIntoStages(fontPath: string, runId: nat, style: Style, overlays: seq<Overlay>)
    requires |overlays| >= 1
    requires WellFormed(style) && '\'' !in fontPath
    requires forall i :: 0 <= i < |overlays| ==> '\'' !in overlays[i].start && '\'' !in overlays[i].end
    ensures Split(Live(FilterChain(fontPath, runId, style, overlays), false), ';') ==
              LiveStages(fontPath, runId, style, overlays)
  {
    var stages := Stages(fontPath, runId, style, overlays);
    var live := LiveStages(fontPath, runId, style, overlays);
    KeyLiteralsInert();
    forall i | 0 <= i < |stages|
      ensures !QuoteAfter(stages[i], false) && LiveParts(stages)[i] == live[i] && ';' !in live[i]
    {
      var body := StageBody(fontPath, runId, style, overlays[i], i);
      StageBodyRead(fontPath, runId, style, overlays[i], i);
      StageLive(fontPath, runId, style, overlays[i], i);
      LabelsPlain(i);
      assert ';' !in Live(body, false);
    }
    LiveJoin(stages, ';');
    assert LiveParts(stages) == live;
    SplitJoin(live, ';');
  }

  /** The times reach the graph inside the quotes of the time window but
      unescaped: when the two times of an overlay leave a quote open between
      them, so does its stage, and the parser no longer reads the stage's
      filter as written. */
  lemma QuoteInTimeUnseals(fontPath: string, runId: nat, style: Style, overlay: Overlay, index: nat)
    requires WellFormed(style) && '\'' !in fontPath
    requires QuoteAfter(overlay.start, false) != QuoteAfter(overlay.end, false)
    ensures !Sealed(StageBody(fontPath, runId, style, overlay, index))
  {
    var fontFile, textFile := EscapePath(fontPath), EscapePath(CaptionPath(runId, index));
    var options := DrawTextOptionList(fontFile, textFile, style, overlay);
    EscapedPathsQuoteFree(fontPath, runId, index);
    FixedOptionsSealed(fontFile, textFile, style, overlay);
    EnableRead(overlay);
    ColourRead(style);
    InertSealed(style.border);
    InertSealed(style.shadow);
    DecorationKey(style);
    assert |options| == 10;
    assert options[7] == Option("enable", EnableValue(overlay));
    assert options[8] == ColourOption(style);
    forall k | 0 <= k < |options| ensures QuoteAfter(options[k], false) <==> k == 7 {
      if k != 7 && k != 8 {
        assert Sealed(options[k]);
      }
    }
    JoinQuoteAfter(options, ':', 7);
    KeyLiteralsInert();
    InertPrefix("drawtext=", Join(options, ':'));
  }

  /** As written, a colour expression is pushed without quotes: a comma in
      it stands outside quotes in the drawtext filter, where the parser
      takes the first comma as the end of the filter. */
  lemma ExpressionCommaBreaksStage(fontPath: string, runId: nat, style: Style, overlay: Overlay, index: nat)
    requires WellFormed(style) && ',' in style.fontColorExpr
    requires '\'' !in fontPath && '\'' !in overlay.start && '\'' !in overlay.end
    ensures ',' in Live(StageBody(fontPath, runId, style, overlay, index), false)
  {
    var fontFile, textFile := EscapePath(fontPath), EscapePath(CaptionPath(runId, index));
    var options := DrawTextOptionList(fontFile, textFile, style, overlay);
    EscapedPathsQuoteFree(fontPath, runId, index);
    OptionsSealed(fontFile, textFile, style, overlay);
    ColourRead(style);
    LiveJoin(options, ':');
    var live := LiveParts(options);
    assert ',' in live[8];
    JoinChars(live, ':', ',');
    KeyLiteralsInert();
    InertPrefix("drawtext=", Join(options, ':'));
  }

  /** The source's own catalogue hits this: a draw in [0.6, 0.7) picks
      gaslight_flicker, whose colour expression holds commas. */
  lemma FlickerBreaksStage(r: real, fontPath: string, runId: nat, overlay: Overlay, index: nat)
    requires 0.6 <= r < 0.7
    requires '\'' !in fontPath && '\'' !in overlay.start && '\'' !in overlay.end
    ensures PickStyle(r).name == "gaslight_flicker"
    ensures ',' in Live(StageBody(fontPath, runId, PickStyle(r), overlay, index), false)
  {
    assert StyleIndex(r) == 6;
    EntryWellFormed(6);
    assert TextStyles()[6].fontColorExpr[13] == ',';
    ExpressionCommaBreaksStage(fontPath, runId, TextStyles()[6], overlay, index);
  }
}
