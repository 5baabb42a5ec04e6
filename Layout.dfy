/** The swatch geometry of `generatePalette` (src/App.jsx:47-53 and 70): an
    800x400 canvas, circles of radius 60 spaced 120 apart and centred as a
    group on the canvas, each with its upper-cased colour label 25 units
    below the circle. Only the positions are modelled; the drawing calls are
    summarised by one record per swatch. */
module Layout {
  import opened Text

  const CanvasWidth: int := 800
  const CanvasHeight: int := 400
  const CircleRadius: int := 60
  const Spacing: int := 120
  /** The gap between a circle's bottom and its label's baseline. */
  const LabelGap: int := 25

  /** `startX` for `n` colours. The division by two is exact, so the
      floating-point value of the source is this whole number. */
  function StartX(n: nat): (x: int)
    ensures 2 * x == CanvasWidth - (n - 1) * Spacing
  {
    (CanvasWidth - (n - 1) * Spacing) / 2
  }

  /** `centerY`: the vertical middle of the canvas. */
  function CenterY(): (y: int)
    ensures 2 * y == CanvasHeight
  {
    CanvasHeight / 2
  }

  /** The horizontal centre of swatch `i` out of `n`: its offset from the
      canvas middle is (2i + 1 - n) half-spacings, so the middle swatch of an
      odd count sits on x = 400. */
  function CenterX(n: nat, i: nat): (x: int)
    ensures 2 * (x - CanvasWidth / 2) == (2 * i + 1 - n) * Spacing
  {
    StartX(n) + i * Spacing
  }

  /** The baseline of every label: `centerY + circleRadius + 25`. */
  function LabelY(): (y: int)
    ensures CenterY() + CircleRadius < y < CanvasHeight
  {
    CenterY() + CircleRadius + LabelGap
  }

  /** What one pass of the `forEach` draws: a circle filled with `color` and
      the upper-cased colour as a label centred under it. */
  datatype Swatch = Swatch(color: string, x: int, y: int, radius: int,
                           text: string, labelX: int, labelY: int)

  /** The swatches `generatePalette` draws for `colors`, left to right. */
  function Swatches(colors: seq<string>): (r: seq<Swatch>)
    ensures |r| == |colors|
  {
    seq(|colors|, i requires 0 <= i < |colors| =>
      Swatch(colors[i], CenterX(|colors|, i), CenterY(), CircleRadius,
             ToUpperAscii(colors[i]), CenterX(|colors|, i), LabelY()))
  }

  /** Every swatch sits on the horizontal mid-line y = 200 with radius 60,
      carries its colour, and has its label at (x, 285) under its centre. */
  lemma SwatchPositions(colors: seq<string>, i: nat)
    requires i < |colors|
    ensures Swatches(colors)[i].color == colors[i]
    ensures Swatches(colors)[i].y == 200 && Swatches(colors)[i].radius == 60
    ensures Swatches(colors)[i].labelX == Swatches(colors)[i].x
    ensures Swatches(colors)[i].labelY == 285
    ensures Swatches(colors)[i].text == ToUpperAscii(colors[i])
  {
  }

  /** Neighbouring centres are exactly 120 apart, so neighbouring circles
      touch without overlapping. */
  lemma NeighboursEvenlySpaced(colors: seq<string>, i: nat)
    requires i + 1 < |colors|
    ensures Swatches(colors)[i + 1].x - Swatches(colors)[i].x == Spacing
    ensures Swatches(colors)[i + 1].x - Swatches(colors)[i].x == 2 * CircleRadius
  {
  }

  /** The group is centred: swatches i and n-1-i are mirror images about x = 400. */
  lemma SwatchesSymmetric(colors: seq<string>, i: nat)
    requires i < |colors|
    ensures Swatches(colors)[i].x + Swatches(colors)[|colors| - 1 - i].x == CanvasWidth
  {
  }

  /** A single colour is drawn at the centre of the canvas, (400, 200). */
  lemma SingleSwatchCentred(color: string)
    ensures Swatches([color])[0].x == 400 && Swatches([color])[0].y == 200
  {
  }

  /** Circle `i` of `n` lies within the canvas. */
  predicate CircleInsideCanvas(n: nat, i: nat) {
    0 <= CenterX(n, i) - CircleRadius && CenterX(n, i) + CircleRadius <= CanvasWidth &&
    0 <= CenterY() - CircleRadius && CenterY() + CircleRadius <= CanvasHeight
  }

  /** For one to five colours every circle lies within the 800x400 canvas,
      and every label sits below its circle and above the canvas bottom. */
  lemma SwatchesInsideCanvas(colors: seq<string>, i: nat)
    requires 1 <= |colors| <= 5 && i < |colors|
    ensures CircleInsideCanvas(|colors|, i)
    ensures Swatches(colors)[i].y + CircleRadius < Swatches(colors)[i].labelY < CanvasHeight
  {
  }

  /** The fixed geometry fits the canvas for up to six colours and no more:
      from seven on, the leftmost circle crosses the left edge. */
  lemma FitsExactlyUpToSix(n: nat)
    requires 1 <= n
    ensures (forall i :: 0 <= i < n ==> CircleInsideCanvas(n, i)) <==> n <= 6
  {
    if n > 6 {
      assert !CircleInsideCanvas(n, 0);
    }
  }
}
