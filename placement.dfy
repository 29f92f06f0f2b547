/**
 * The closed-form placement arithmetic of `GlText`: the horizontal alignment offset,
 * the baseline offset and its y-axis convention, the padding offset, the conversion of a
 * data range to scale and translate, and the viewport flip for top-down coordinates.
 */
module Placement {
  import opened Common

  /** An `align` setting: unset, a numeric em offset, or a keyword. */
  datatype Align = AlignUnset | AlignAt(offset: real) | AlignNamed(name: string)

  /** A `baseline` setting: a numeric em offset or the name of a font metric. */
  datatype Baseline = BaselineAt(offset: real) | BaselineNamed(name: string)

  predicate EndKeyword(name: string)
  {
    name == "right" || name == "end"
  }

  predicate CentreKeyword(name: string)
  {
    name == "center" || name == "centre" || name == "middle"
  }

  /**
   * The horizontal shift, in em, that puts the text of width `textWidth` where `align`
   * asks relative to the anchor: a numeric setting verbatim, the right edge on the anchor
   * for an end keyword, the middle on the anchor for a centre keyword, and the left edge
   * on the anchor otherwise.
   */
  function AlignOffset(align: Align, textWidth: real): (r: real)
    ensures align.AlignAt? ==> r == align.offset
    ensures align.AlignNamed? && EndKeyword(align.name) ==> r + textWidth == 0.0
    ensures align.AlignNamed? && CentreKeyword(align.name) ==> r + (r + textWidth) == 0.0
    ensures align.AlignUnset? || (align.AlignNamed? && !EndKeyword(align.name) && !CentreKeyword(align.name))
            ==> r == 0.0
  {
    match align
    case AlignAt(v) => v
    case AlignUnset => 0.0
    case AlignNamed(name) =>
      if EndKeyword(name) then -textWidth
      else if CentreKeyword(name) then -textWidth * 0.5
      else 0.0
  }

  /** For every keyword alignment the anchor lies within the horizontal extent of the text. */
  lemma AnchorWithinText(align: Align, textWidth: real)
    requires !align.AlignAt? && textWidth >= 0.0
    ensures AlignOffset(align, textWidth) <= 0.0 <= AlignOffset(align, textWidth) + textWidth
  {
  }

  /**
   * The vertical shift, in em, of the glyph cells for `baseline`: half the glyph box height
   * minus the chosen line (a numeric setting is taken relative to the alphabetic
   * baseline), negated for the bottom-up WebGL convention. A metric name the metrics do
   * not define gives NaN.
   */
  function BaselineOffset(m: Metrics, baseline: Baseline, normalViewport: bool): (r: Scalar)
    ensures r.Finite? <==> baseline.BaselineAt? || baseline.name in m
  {
    var base: Scalar :=
      match baseline
      case BaselineAt(v) => Finite(m["bottom"] * 0.5 + (v - m["baseline"]))
      case BaselineNamed(name) => if name in m then Finite(m["bottom"] * 0.5 + -m[name]) else NonFinite;
    if !normalViewport && base.Finite? then Finite(-base.value) else base
  }

  /** The two y-axis conventions give baseline offsets of opposite sign. */
  lemma BaselineConventionsOpposite(m: Metrics, baseline: Baseline)
    ensures BaselineOffset(m, baseline, true).Finite? == BaselineOffset(m, baseline, false).Finite?
    ensures BaselineOffset(m, baseline, true).Finite? ==>
      BaselineOffset(m, baseline, true).value == -BaselineOffset(m, baseline, false).value
  {
  }

  /** The default numeric baseline 0 puts the alphabetic baseline on the anchor. */
  lemma DefaultBaselineIsAlphabetic(m: Metrics, normalViewport: bool)
    ensures BaselineOffset(m, BaselineAt(0.0), normalViewport) == BaselineOffset(m, BaselineNamed("baseline"), normalViewport)
  {
  }

  /**
   * A numeric baseline moves the glyphs by exactly that many em from the alphabetic
   * baseline: the offset grows by `v` in top-down coordinates and shrinks by `v` in WebGL
   * coordinates. The shader flips y only in top-down mode, so a positive `v` lowers the
   * text on screen in both.
   */
  lemma NumericBaselineShift(m: Metrics, v: real, normalViewport: bool)
    ensures BaselineOffset(m, BaselineAt(v), normalViewport).value
         == BaselineOffset(m, BaselineAt(0.0), normalViewport).value + (if normalViewport then v else -v)
  {
  }

  /**
   * The offsets of two named baselines differ by the distance between their metrics. The
   * metric with the larger value, lower in the glyph box, gives the smaller offset in
   * top-down coordinates and the larger one in WebGL coordinates; on screen the text is
   * drawn higher by that distance in both.
   */
  lemma NamedBaselinesApart(m: Metrics, a: string, b: string, normalViewport: bool)
    requires a in m && b in m
    ensures BaselineOffset(m, BaselineNamed(a), normalViewport).Finite?
    ensures BaselineOffset(m, BaselineNamed(b), normalViewport).Finite?
    ensures BaselineOffset(m, BaselineNamed(a), normalViewport).value - BaselineOffset(m, BaselineNamed(b), normalViewport).value
         == (if normalViewport then m[b] - m[a] else m[a] - m[b])
  {
  }

  /** A padding setting: a number shifts horizontally only, a pair shifts in both axes. */
  datatype Padding = PadX(dx: real) | PadXY(dx: real, dy: real)

  /** The stored padding offset: its vertical part negated for the WebGL convention. */
  function PaddingOffset(p: Padding, normalViewport: bool): (r: (real, real))
    ensures r.0 == p.dx
    ensures p.PadX? ==> r.1 == 0.0
    ensures p.PadXY? && normalViewport ==> r.1 == p.dy
    ensures p.PadXY? && !normalViewport ==> r.1 == -p.dy
  {
    match p
    case PadX(dx) => (dx, 0.0)
    case PadXY(dx, dy) => (dx, if normalViewport then dy else -dy)
  }

  /**
   * One y-axis convention for every vertical offset: switching it negates the vertical
   * padding exactly as it negates the baseline offset.
   */
  lemma VerticalConventionShared(p: Padding, m: Metrics, baseline: Baseline)
    ensures PaddingOffset(p, true).1 == -PaddingOffset(p, false).1
    ensures BaselineOffset(m, baseline, true).Finite? ==>
      BaselineOffset(m, baseline, true).value == -BaselineOffset(m, baseline, false).value
  {
    BaselineConventionsOpposite(m, baseline);
  }

  /** `1 / d` as a JavaScript number: infinite when `d` is zero. */
  function Reciprocal(d: real): (r: Scalar)
    ensures r.Finite? <==> d != 0.0
    ensures r.Finite? ==> r.value * d == 1.0
  {
    if d == 0.0 then NonFinite else Finite(1.0 / d)
  }

  /** Scale and translate such that a point `p` is drawn at `(p + translate) * scale`. */
  datatype Transform = Transform(scaleX: Scalar, scaleY: Scalar, translateX: real, translateY: real)

  /** A data range `[x0, y0, x1, y1]`. */
  datatype Range = Range(x0: real, y0: real, x1: real, y1: real)

  /**
   * The transform that maps the data range onto the unit square: `x0` to 0 and `x1` to 1,
   * `y0` to 0 and `y1` to 1. An empty extent in an axis gives an infinite scale there.
   */
  function RangeTransform(range: Range): (t: Transform)
    ensures t.scaleX.Finite? <==> range.x0 != range.x1
    ensures t.scaleY.Finite? <==> range.y0 != range.y1
    ensures t.scaleX.Finite? ==>
      (range.x0 + t.translateX) * t.scaleX.value == 0.0 && (range.x1 + t.translateX) * t.scaleX.value == 1.0
    ensures t.scaleY.Finite? ==>
      (range.y0 + t.translateY) * t.scaleY.value == 0.0 && (range.y1 + t.translateY) * t.scaleY.value == 1.0
  {
    Transform(Reciprocal(range.x1 - range.x0), Reciprocal(range.y1 - range.y0), -range.x0, -range.y0)
  }

  /** A viewport rectangle in device pixels. */
  datatype Rect = Rect(x: real, y: real, width: real, height: real)

  /** The transform used when none is given: the viewport's pixels onto the unit square. */
  function DefaultTransform(viewport: Rect): (t: Transform)
    ensures t.translateX == 0.0 && t.translateY == 0.0
    ensures t.scaleX.Finite? ==> viewport.width * t.scaleX.value == 1.0
    ensures t.scaleY.Finite? ==> viewport.height * t.scaleY.value == 1.0
    ensures t.scaleX.Finite? <==> viewport.width != 0.0
    ensures t.scaleY.Finite? <==> viewport.height != 0.0
  {
    Transform(Reciprocal(viewport.width), Reciprocal(viewport.height), 0.0, 0.0)
  }

  /**
   * A viewport given in top-down coordinates, converted for WebGL's bottom-up y axis on a
   * canvas of height `canvasHeight`: the distance from the canvas top to the rectangle's
   * top becomes the distance from the canvas bottom to its bottom.
   */
  function FlipViewport(r: Rect, canvasHeight: real, normalViewport: bool): (f: Rect)
    ensures !normalViewport ==> f == r
    ensures normalViewport ==> f.x == r.x && f.width == r.width && f.height == r.height
    ensures normalViewport ==> canvasHeight - (f.y + f.height) == r.y
  {
    if normalViewport then Rect(r.x, canvasHeight - r.y - r.height, r.width, r.height) else r
  }

  /** Flipping twice on the same canvas gives back the original viewport. */
  lemma FlipViewportInvolution(r: Rect, canvasHeight: real)
    ensures FlipViewport(FlipViewport(r, canvasHeight, true), canvasHeight, true) == r
  {
  }
}
