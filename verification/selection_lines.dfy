/**
 Geometry of the two horizontal selection lines drawn over the picker box:
 `ScrollableSelectLayout` centres lines of a configurable length fraction,
 `SlideSelectBarLayout` draws them from 1/6 to 5/6 of the width. Widths are
 `real` (the source's `Float`), row heights integer pixels.
 */
module SelectionLines {
  import opened KotlinInt

  /** `SelectionLineStyle` without its colour; `lengthFraction` is meant to
      lie in `[0, 1]`. */
  datatype Style = Style(lengthFraction: real, strokeWidth: real)

  /** `SelectionLineStyle.Default`. */
  const Default: Style := Style(1.0, 3.0)

  /** The stroke width both files hard-code. */
  const FixedStroke: real := 3.0

  /** One horizontal line: from `startX` to `endX` at height `y`. */
  datatype Line = Line(startX: real, endX: real, y: int, strokeWidth: real)

  /** `startFraction = (1 - lengthFraction) / 2` and
      `endFraction = startFraction + lengthFraction`: a centred span. */
  function Fractions(lengthFraction: real): (f: (real, real))
    ensures f.0 + f.1 == 1.0
    ensures f.1 - f.0 == lengthFraction
    ensures 0.0 <= lengthFraction <= 1.0 ==> 0.0 <= f.0 <= f.1 <= 1.0
  {
    var start := (1.0 - lengthFraction) / 2.0;
    (start, start + lengthFraction)
  }

  /** The rows whose top edges carry the two lines: `(visible - 1) / 2` with
      Kotlin's division, and the next one. With at least one visible row
      both lie in the viewport, and their edges are symmetric about the
      viewport's middle when the visible count is odd, half a row above it
      when it is even. */
  function BandRows(visible: int): (rows: (int, int))
    ensures rows.1 == rows.0 + 1
    ensures visible >= 1 ==> 0 <= rows.0 && rows.1 <= visible
    ensures visible >= 1 ==>
      rows.0 + rows.1 == (if IsEven(visible) then visible - 1 else visible)
  {
    var top := Div(visible - 1, 2);
    (top, top + 1)
  }

  /** The lines as `ScrollableSelectLayout` draws them: the first with a
      fixed stroke of 3, the second with the style's stroke. */
  function DrawnLines(style: Style, width: real, h: int, visible: int): (lines: (Line, Line))
    ensures lines.0.y == h * BandRows(visible).0 && lines.1.y == h * BandRows(visible).1
    ensures lines.1.y - lines.0.y == h
    ensures lines.0.startX == lines.1.startX && lines.0.endX == lines.1.endX
    ensures lines.0.startX + lines.0.endX == width
    ensures lines.0.endX - lines.0.startX == width * style.lengthFraction
    ensures lines.0.strokeWidth == FixedStroke && lines.1.strokeWidth == style.strokeWidth
  {
    var f := Fractions(style.lengthFraction);
    var rows := BandRows(visible);
    (Line(width * f.0, width * f.1, h * rows.0, FixedStroke),
     Line(width * f.0, width * f.1, h * rows.1, style.strokeWidth))
  }

  /** The lines with the style's stroke on both, as the style's
      `strokeWidth` parameter evidently intends. */
  function StyledLines(style: Style, width: real, h: int, visible: int): (lines: (Line, Line))
    ensures lines.0.y == h * BandRows(visible).0 && lines.1.y == h * BandRows(visible).1
    ensures lines.1 == lines.0.(y := lines.0.y + h)
    ensures lines.0.strokeWidth == style.strokeWidth
    ensures lines.0.startX + lines.0.endX == width
    ensures lines.0.endX - lines.0.startX == width * style.lengthFraction
    ensures 0.0 <= style.lengthFraction <= 1.0 && width >= 0.0 ==>
      0.0 <= lines.0.startX <= lines.0.endX <= width
  {
    var f := Fractions(style.lengthFraction);
    var rows := BandRows(visible);
    assert 0.0 <= style.lengthFraction <= 1.0 && width >= 0.0 ==>
      0.0 <= width * f.0 <= width * f.1 <= width by {
      if 0.0 <= style.lengthFraction <= 1.0 && width >= 0.0 {
        ScaleWithin(width, f.0, f.1);
      }
    }
    (Line(width * f.0, width * f.1, h * rows.0, style.strokeWidth),
     Line(width * f.0, width * f.1, h * rows.1, style.strokeWidth))
  }

  lemma ScaleWithin(width: real, a: real, b: real)
    requires width >= 0.0 && 0.0 <= a <= b <= 1.0
    ensures 0.0 <= width * a <= width * b <= width
  {
    assert width * (b - a) >= 0.0;
    assert width * (1.0 - b) >= 0.0;
  }

  /** The drawn first line ignores a custom stroke width. */
  lemma DrawnFirstLineIgnoresStyle()
    ensures DrawnLines(Style(1.0, 5.0), 100.0, 50, 3).0.strokeWidth == 3.0
    ensures StyledLines(Style(1.0, 5.0), 100.0, 50, 3).0.strokeWidth == 5.0
    ensures DrawnLines(Style(1.0, 5.0), 100.0, 50, 3) != StyledLines(Style(1.0, 5.0), 100.0, 50, 3)
  {
  }

  /** The drawn and the styled lines differ exactly when the style's stroke
      is not the hard-coded one; the default style is unaffected. */
  lemma DrawnMatchesStyledIff(style: Style, width: real, h: int, visible: int)
    ensures DrawnLines(style, width, h, visible) == StyledLines(style, width, h, visible)
      <==> style.strokeWidth == FixedStroke
    ensures DrawnLines(Default, width, h, visible) == StyledLines(Default, width, h, visible)
  {
  }

  /** The lines as `SlideSelectBarLayout` draws them: from a sixth to five
      sixths of the width, both with stroke 3. */
  function SlideBarLines(width: real, h: int, visible: int): (lines: (Line, Line))
    ensures lines.0.y == h * BandRows(visible).0 && lines.1.y == h * BandRows(visible).1
    ensures lines.1 == lines.0.(y := lines.0.y + h)
    ensures lines.0.startX + lines.0.endX == width
    ensures lines.0.endX - lines.0.startX == width * (2.0 / 3.0)
    ensures lines.0.strokeWidth == FixedStroke
  {
    var rows := BandRows(visible);
    (Line(width * (1.0 / 6.0), width * (5.0 / 6.0), h * rows.0, FixedStroke),
     Line(width * (1.0 / 6.0), width * (5.0 / 6.0), h * rows.1, FixedStroke))
  }

  /** The slide bar's lines are the styled lines of a style two thirds long
      with stroke 3: the two files agree on the band, differing only in the
      span. */
  lemma SlideBarIsTwoThirdsStyle(width: real, h: int, visible: int)
    ensures SlideBarLines(width, h, visible) == StyledLines(Style(2.0 / 3.0, FixedStroke), width, h, visible)
    ensures SlideBarLines(width, h, visible) == DrawnLines(Style(2.0 / 3.0, FixedStroke), width, h, visible)
  {
    assert Fractions(2.0 / 3.0) == (1.0 / 6.0, 5.0 / 6.0);
  }
}
