/** The fixed catalogue of caption styles and the random choice of one of them
    per render (index.js:23-38). */
module Styles {
  import opened Text
  import opened GraphSyntax

  /** One catalogue entry. The optional fields of the source's style objects
      (`fontcolor`, `fontcolor_expr`, `border`, `shadow`) are strings whose
      empty value stands for "absent": the renderer only tests them for
      truthiness, and an absent field and an empty string are both falsy.
      An absent `kerning` likewise prints as 0, so it is stored as 0. */
  datatype Style = Style(
    name: string,
    fontSize: int,
    kerning: int,
    x: string,
    y: string,
    fontColor: string,
    fontColorExpr: string,
    border: string,
    shadow: string)

  const CentreX := "(w-text_w)/2"
  const CentreY := "(h-text_h)/2"

  /** The shadow clause `shadowx=<d>:shadowy=<d>:shadowcolor=black@<opacity>`
      every shadowed catalogue entry spells out. */
  function ShadowClause(offset: nat, opacity: string): string
  {
    var d := NatToString(offset);
    "shadowx=" + (d + ":shadowy=" + d + ":shadowcolor=black@" + opacity)
  }

  /** The border clause `borderw=<w>:bordercolor=black@<opacity>`. */
  function BorderClause(width: nat, opacity: string): string
  {
    "borderw=" + (NatToString(width) + ":bordercolor=black@" + opacity)
  }

  /** A shadow clause opens with its option name and, for an opacity free of
      metacharacters, holds none. */
  lemma ShadowClauseShape(offset: nat, opacity: string)
    requires Inert(opacity)
    ensures |ShadowClause(offset, opacity)| >= 8 && ShadowClause(offset, opacity)[..8] == "shadowx="
    ensures Inert(ShadowClause(offset, opacity))
  {
    var d := NatToString(offset);
    var rest := d + ":shadowy=" + d + ":shadowcolor=black@" + opacity;
    NatToStringDigits(offset);
    DigitsInert(d);
    SeparatorsInert();
    InertConcat(d, ":shadowy=");
    InertConcat(d + ":shadowy=", d);
    InertConcat(d + ":shadowy=" + d, ":shadowcolor=black@");
    InertConcat(d + ":shadowy=" + d + ":shadowcolor=black@", opacity);
    InertConcat("shadowx=", rest);
    assert ("shadowx=" + rest)[..8] == "shadowx=";
  }

  /** The same for a border clause. */
  lemma BorderClauseShape(width: nat, opacity: string)
    requires Inert(opacity)
    ensures |BorderClause(width, opacity)| >= 8 && BorderClause(width, opacity)[..8] == "borderw="
    ensures Inert(BorderClause(width, opacity))
  {
    var d := NatToString(width);
    var rest := d + ":bordercolor=black@" + opacity;
    NatToStringDigits(width);
    DigitsInert(d);
    SeparatorsInert();
    InertConcat(d, ":bordercolor=black@");
    InertConcat(d + ":bordercolor=black@", opacity);
    InertConcat("borderw=", rest);
    assert ("borderw=" + rest)[..8] == "borderw=";
  }

  lemma SeparatorsInert()
    ensures Inert("shadowx=") && Inert(":shadowy=") && Inert(":shadowcolor=black@")
    ensures Inert("borderw=") && Inert(":bordercolor=black@")
  {
  }

  /** TEXT_STYLES, in the source's order; each decoration clause is written
      with the helper that spells it, giving the same string as the source's
      literal. */
  function TextStyles(): (styles: seq<Style>)
  {
    [ Style("quiet_center_reveal", 36, 2, CentreX, CentreY, "white", "", "", ShadowClause(2, "0.4")),
      Style("lower_third_fact", 34, 1, CentreX, "h*0.72", "", "", BorderClause(3, "0.8"), ""),
      Style("internal_shift_up", 36, 2, CentreX, "(h-text_h)/2 + 50", "", "", "", ShadowClause(3, "0.5")),
      Style("freeze_response", 38, 1, CentreX, CentreY, "", "", "", ShadowClause(4, "0.6")),
      Style("split_reality_top", 34, 1, CentreX, "h*0.25", "", "", BorderClause(2, "0.7"), ""),
      Style("split_reality_bottom", 36, 2, CentreX, "h*0.65", "", "", "", ShadowClause(3, "0.5")),
      Style("gaslight_flicker", 36, 1, CentreX, CentreY, "", "if(lt(rand(0),0.92),white,gray)", "", ShadowClause(2, "0.4")),
      Style("submission_sink", 34, 1, CentreX, "(h-text_h)/2 + 50", "", "", "", ShadowClause(3, "0.6")),
      Style("memory_echo", 36, 2, CentreX, CentreY, "white@0.6", "", "", ShadowClause(4, "0.7")),
      Style("realization_snap", 40, 3, CentreX, CentreY, "", "", BorderClause(4, "0.9"), "")
    ]
  }

  /** `Math.floor(Math.random() * TEXT_STYLES.length)`: `r` is the value the
      random source returned, which lies in [0, 1). */
  function StyleIndex(r: real): (i: nat)
    requires 0.0 <= r < 1.0
    ensures i < |TextStyles()|
    ensures i as real <= r * |TextStyles()| as real < i as real + 1.0
  {
    (r * |TextStyles()| as real).Floor
  }

  /** `pickRandomStyle()`, with the random draw passed in. */
  function PickStyle(r: real): (s: Style)
    requires 0.0 <= r < 1.0
    ensures s in TextStyles()
  {
    TextStyles()[StyleIndex(r)]
  }

  /** What the renderer relies on in every catalogue entry: a positive size,
      exactly one decoration (a border or a shadow clause), decoration
      clauses that open with their own option name, and no graph
      metacharacter in any field the renderer inserts unquoted, except the
      colour expression. That one holds commas, so it is only required to be
      free of quotes and of chain separators; what its commas do is stated
      in `FilterGraph.StageBodySealed`. */
  predicate WellFormed(s: Style)
  {
    && s.fontSize > 0
    && (s.border == "") != (s.shadow == "")
    && (s.border != "" ==> |s.border| >= 8 && s.border[..8] == "borderw=")
    && (s.shadow != "" ==> |s.shadow| >= 8 && s.shadow[..8] == "shadowx=")
    && Inert(s.x) && Inert(s.y) && Inert(s.fontColor) && '\'' !in s.fontColorExpr && ';' !in s.fontColorExpr
    && Inert(s.border) && Inert(s.shadow)
  }

  /** The position expressions of the catalogue contain no metacharacter. */
  lemma PositionsInert()
    ensures Inert(CentreX) && Inert(CentreY)
    ensures Inert("h*0.72") && Inert("h*0.25") && Inert("h*0.65") && Inert("(h-text_h)/2 + 50")
  {
  }

  /** Nor do the colours and the opacities. */
  lemma ColoursInert()
    ensures Inert("white") && Inert("white@0.6")
    ensures Inert("0.4") && Inert("0.5") && Inert("0.6") && Inert("0.7") && Inert("0.8") && Inert("0.9")
  {
  }

  /** The one colour expression holds no quote and no chain separator. */
  lemma ExpressionPlain()
    ensures '\'' !in "if(lt(rand(0),0.92),white,gray)" && ';' !in "if(lt(rand(0),0.92),white,gray)"
  {
  }

  /** Each catalogue entry is well formed. */
  lemma EntryWellFormed(k: nat)
    requires k < |TextStyles()|
    ensures WellFormed(TextStyles()[k])
  {
    PositionsInert();
    ColoursInert();
    ExpressionPlain();
    assert Inert("");
    if k == 0 { ShadowClauseShape(2, "0.4"); }
    else if k == 1 { BorderClauseShape(3, "0.8"); }
    else if k == 2 { ShadowClauseShape(3, "0.5"); }
    else if k == 3 { ShadowClauseShape(4, "0.6"); }
    else if k == 4 { BorderClauseShape(2, "0.7"); }
    else if k == 5 { ShadowClauseShape(3, "0.5"); }
    else if k == 6 { ShadowClauseShape(2, "0.4"); }
    else if k == 7 { ShadowClauseShape(3, "0.6"); }
    else if k == 8 { ShadowClauseShape(4, "0.7"); }
    else { BorderClauseShape(4, "0.9"); }
  }

  /** Every catalogue entry is well formed. */
  lemma CatalogueWellFormed()
    ensures forall k :: 0 <= k < |TextStyles()| ==> WellFormed(TextStyles()[k])
  {
    forall k | 0 <= k < |TextStyles()| ensures WellFormed(TextStyles()[k]) {
      EntryWellFormed(k);
    }
  }
}
