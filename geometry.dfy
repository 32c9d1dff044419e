/**
 * The square-tiling geometry of the image splitter: given the width and
 * height of an image, choose a single row of congruent, side-by-side squares
 * that covers as much of it as possible.
 *
 * Two candidate rows are built from k = floor(width / height):
 *  - width-fit:  k + 1 squares of side floor(width / (k + 1)), vertically centred;
 *  - height-fit: k squares of side height, horizontally centred.
 * The row covering more area is kept; width-fit wins ties.
 */
module Geometry {

  /** A square region: top-left corner (x, y) and edge length size, in pixels. */
  datatype Square = Square(x: int, y: int, size: int)

  // ---------------------------------------------------------------------------
  // Integer arithmetic of getBestSquares
  // ---------------------------------------------------------------------------

  /** `~~(a / b)` for a positive divisor: the quotient truncated toward zero. */
  function TruncDiv(a: int, b: int): (q: int)
    requires b > 0
    ensures 0 <= a ==> 0 <= q && q * b <= a < q * b + b
    ensures a < 0 ==> q <= 0 && q * b - b < a <= q * b
  {
    if a >= 0 then a / b else -((-a) / b)
  }

  /** The number of whole heights that fit in the width. */
  function AspectRatioFloor(w: int, h: int): (k: int)
    requires w > 0 && h > 0
    ensures 0 <= k && k * h <= w < k * h + h
  {
    TruncDiv(w, h)
  }

  /** The side of a width-fit square: the width shared by k + 1 squares. */
  function SquareSizeFitWidth(w: int, h: int): (s: int)
    requires w > 0 && h > 0
    ensures var n := AspectRatioFloor(w, h) + 1;
      0 <= s && s * n <= w < s * n + n
  {
    TruncDiv(w, AspectRatioFloor(w, h) + 1)
  }

  /** Total area covered by the width-fit row. */
  function AreaFitWidth(w: int, h: int): (a: int)
    requires w > 0 && h > 0
  {
    var s := SquareSizeFitWidth(w, h);
    (AspectRatioFloor(w, h) + 1) * s * s
  }

  /** Total area covered by the height-fit row. */
  function AreaFitHeight(w: int, h: int): (a: int)
    requires w > 0 && h > 0
  {
    AspectRatioFloor(w, h) * h * h
  }

  // ---------------------------------------------------------------------------
  // Layouts
  // ---------------------------------------------------------------------------

  /** `count` squares of side `side` at height y, the i-th starting at x0 + i * side. */
  function Row(x0: int, y: int, side: int, count: nat): (r: seq<Square>)
  {
    seq(count, i => Square(x0 + i * side, y, side))
  }

  /** The width-fit candidate: k + 1 squares spanning the width, centred vertically. */
  function WidthFit(w: int, h: int): (r: seq<Square>)
    requires w > 0 && h > 0
  {
    var s := SquareSizeFitWidth(w, h);
    Row(0, TruncDiv(h - s, 2), s, AspectRatioFloor(w, h) + 1)
  }

  /** The height-fit candidate: k squares of side h, centred horizontally. */
  function HeightFit(w: int, h: int): (r: seq<Square>)
    requires w > 0 && h > 0
  {
    var k := AspectRatioFloor(w, h);
    Row(TruncDiv(w - k * h, 2), 0, h, k)
  }

  /** getBestSquares: the candidate row that covers more area; width-fit wins ties. */
  function BestSquares(w: int, h: int): (r: seq<Square>)
    requires w > 0 && h > 0
  {
    if AreaFitWidth(w, h) >= AreaFitHeight(w, h) then WidthFit(w, h) else HeightFit(w, h)
  }

  // ---------------------------------------------------------------------------
  // Properties of a tiling
  // ---------------------------------------------------------------------------

  /** The square lies inside a w-by-h rectangle anchored at the origin. */
  predicate Within(sq: Square, w: int, h: int)
  {
    0 <= sq.x && 0 <= sq.y && sq.x + sq.size <= w && sq.y + sq.size <= h
  }

  /** The interiors of two squares share at least one point. */
  predicate Overlap(a: Square, b: Square)
  {
    a.x < b.x + b.size && b.x < a.x + a.size &&
    a.y < b.y + b.size && b.y < a.y + a.size
  }

  /** Every square has side `side`. */
  predicate AllOfSide(r: seq<Square>, side: int)
  {
    forall i :: 0 <= i < |r| ==> r[i].size == side
  }

  /** Each square starts where its predecessor ends, on the same horizontal line. */
  predicate Adjacent(r: seq<Square>)
  {
    forall i :: 0 < i < |r| ==> r[i].x == r[i - 1].x + r[i - 1].size && r[i].y == r[i - 1].y
  }

  /** The sum of the squares' areas. */
  function CoveredArea(r: seq<Square>): (a: int)
  {
    if r == [] then 0 else CoveredArea(r[..|r| - 1]) + r[|r| - 1].size * r[|r| - 1].size
  }

  // ---------------------------------------------------------------------------
  // Lemmas about rows and strips of adjacent squares
  // ---------------------------------------------------------------------------

  lemma MulMonotone(a: int, b: int, c: int)
    requires a <= b && 0 <= c
    ensures a * c <= b * c
  {
    assert b * c - a * c == (b - a) * c;
  }

  /** A row is a strip of adjacent squares of one side. */
  lemma RowIsStrip(x0: int, y: int, side: int, count: nat)
    ensures |Row(x0, y, side, count)| == count
    ensures AllOfSide(Row(x0, y, side, count), side)
    ensures Adjacent(Row(x0, y, side, count))
    ensures forall i :: 0 <= i < count ==> Row(x0, y, side, count)[i].y == y
  {
    var r := Row(x0, y, side, count);
    forall i | 0 < i < count
      ensures r[i].x == r[i - 1].x + r[i - 1].size
    {
      assert i * side == (i - 1) * side + side;
    }
  }

  /** A row that ends no further right than w and no lower than h lies inside the rectangle. */
  lemma RowWithin(x0: int, y: int, side: int, count: nat, w: int, h: int)
    requires 0 <= x0 && 0 <= y && 0 <= side
    requires x0 + count * side <= w && y + side <= h
    ensures forall i :: 0 <= i < count ==> Within(Row(x0, y, side, count)[i], w, h)
  {
    var r := Row(x0, y, side, count);
    forall i | 0 <= i < count
      ensures Within(r[i], w, h)
    {
      MulMonotone(i + 1, count, side);
      assert (i + 1) * side == i * side + side;
      MulMonotone(0, i, side);
    }
  }

  /** The area of a row is its count times the area of one square. */
  lemma {:induction false} RowArea(x0: int, y: int, side: int, count: nat)
    ensures CoveredArea(Row(x0, y, side, count)) == count * side * side
  {
    if count > 0 {
      var r := Row(x0, y, side, count);
      assert r[..count - 1] == Row(x0, y, side, count - 1);
      RowArea(x0, y, side, count - 1);
      assert count * side * side == (count - 1) * side * side + side * side;
    }
  }

  /** In a strip of adjacent squares, each square ends no further right than any later one begins. */
  lemma {:induction false} StripOrdered(r: seq<Square>, i: int, j: int)
    requires Adjacent(r)
    requires forall n :: 0 <= n < |r| ==> r[n].size >= 0
    requires 0 <= i < j < |r|
    ensures r[i].x + r[i].size <= r[j].x && r[i].y == r[j].y
    decreases j - i
  {
    if j > i + 1 {
      StripOrdered(r, i, j - 1);
    }
  }

  /** No two squares of a strip of adjacent squares overlap. */
  lemma StripDisjoint(r: seq<Square>)
    requires Adjacent(r)
    requires forall n :: 0 <= n < |r| ==> r[n].size >= 0
    ensures forall i, j :: 0 <= i < |r| && 0 <= j < |r| && i != j ==> !Overlap(r[i], r[j])
  {
    forall i, j | 0 <= i < |r| && 0 <= j < |r| && i != j
      ensures !Overlap(r[i], r[j])
    {
      if i < j { StripOrdered(r, i, j); } else { StripOrdered(r, j, i); }
    }
  }

  // ---------------------------------------------------------------------------
  // Lemmas about the candidate layouts
  // ---------------------------------------------------------------------------

  /** The width-fit squares fit: k + 1 of them span at most w, and each is shorter than h. */
  lemma WidthFitFits(w: int, h: int)
    requires w > 0 && h > 0
    ensures var k, s := AspectRatioFloor(w, h), SquareSizeFitWidth(w, h);
      (k + 1) * s <= w && 0 <= s < h
  {
    var k, s := AspectRatioFloor(w, h), SquareSizeFitWidth(w, h);
    assert w < (k + 1) * h;
    if s >= h {
      MulMonotone(h, s, k + 1);
      assert false;
    }
  }

  /**
   * Every product formed while computing the two areas, left to right as
   * `(k + 1) * s * s` and `k * h * h` are evaluated, is between 0 and w * w.
   */
  lemma AreaProductsBounded(w: int, h: int)
    requires w > 0 && h > 0
    ensures var k, s := AspectRatioFloor(w, h), SquareSizeFitWidth(w, h);
      && 0 <= (k + 1) * s <= w && 0 <= AreaFitWidth(w, h) <= w * w
      && 0 <= k * h <= w && 0 <= AreaFitHeight(w, h) <= w * w
  {
    var k, s := AspectRatioFloor(w, h), SquareSizeFitWidth(w, h);
    WidthFitFits(w, h);
    MulMonotone(1, k + 1, s);
    MulMonotone((k + 1) * s, w, s);
    MulMonotone(s, w, w);
    MulMonotone(0, (k + 1) * s, s);
    if k > 0 {
      MulMonotone(1, k, h);
      MulMonotone(k * h, w, h);
      MulMonotone(h, w, w);
      MulMonotone(0, k * h, h);
    }
  }

  /** Width-fit: exactly k + 1 squares, the i-th at (i * s, (h - s) / 2) with side s. */
  lemma WidthFitLayout(w: int, h: int)
    requires w > 0 && h > 0
    ensures var k, s := w / h, w / (w / h + 1);
      |WidthFit(w, h)| == k + 1 &&
      forall i :: 0 <= i < k + 1 ==> WidthFit(w, h)[i] == Square(i * s, (h - s) / 2, s)
  {
    WidthFitFits(w, h);
  }

  /** Height-fit: exactly k squares, the i-th at ((w - k * h) / 2 + i * h, 0) with side h. */
  lemma HeightFitLayout(w: int, h: int)
    requires w > 0 && h > 0
    ensures var k := w / h;
      |HeightFit(w, h)| == k &&
      forall i :: 0 <= i < k ==> HeightFit(w, h)[i] == Square((w - k * h) / 2 + i * h, 0, h)
  {
  }

  /** Every width-fit square lies inside the image. */
  lemma WidthFitWithin(w: int, h: int)
    requires w > 0 && h > 0
    ensures forall i :: 0 <= i < |WidthFit(w, h)| ==> Within(WidthFit(w, h)[i], w, h)
  {
    var k, s := AspectRatioFloor(w, h), SquareSizeFitWidth(w, h);
    WidthFitFits(w, h);
    RowWithin(0, TruncDiv(h - s, 2), s, k + 1, w, h);
  }

  /** Every height-fit square lies inside the image. */
  lemma HeightFitWithin(w: int, h: int)
    requires w > 0 && h > 0
    ensures forall i :: 0 <= i < |HeightFit(w, h)| ==> Within(HeightFit(w, h)[i], w, h)
  {
    var k := AspectRatioFloor(w, h);
    RowWithin(TruncDiv(w - k * h, 2), 0, h, k, w, h);
  }

  // ---------------------------------------------------------------------------
  // Theorems about getBestSquares
  // ---------------------------------------------------------------------------

  /**
   * The width-fit row is returned exactly when (k + 1) * s * s >= k * h * h,
   * so ties go to width-fit; otherwise the height-fit row is returned.
   */
  lemma SelectionRule(w: int, h: int)
    requires w > 0 && h > 0
    ensures var k, s := w / h, w / (w / h + 1);
      (BestSquares(w, h) == WidthFit(w, h) <==> (k + 1) * s * s >= k * h * h) &&
      (BestSquares(w, h) == HeightFit(w, h) <==> (k + 1) * s * s < k * h * h)
  {
    assert |WidthFit(w, h)| != |HeightFit(w, h)|;
  }

  /** The kept row covers the larger of the two candidate areas. */
  lemma BestSquaresCoverage(w: int, h: int)
    requires w > 0 && h > 0
    ensures CoveredArea(BestSquares(w, h)) >= AreaFitWidth(w, h)
    ensures CoveredArea(BestSquares(w, h)) >= AreaFitHeight(w, h)
    ensures CoveredArea(BestSquares(w, h)) == AreaFitWidth(w, h) ||
            CoveredArea(BestSquares(w, h)) == AreaFitHeight(w, h)
  {
    var k, s := AspectRatioFloor(w, h), SquareSizeFitWidth(w, h);
    RowArea(0, TruncDiv(h - s, 2), s, k + 1);
    RowArea(TruncDiv(w - k * h, 2), 0, h, k);
  }

  /** For positive dimensions the result is never empty. */
  lemma BestSquaresNonEmpty(w: int, h: int)
    requires w > 0 && h > 0
    ensures |BestSquares(w, h)| >= 1
  {
    if AreaFitWidth(w, h) < AreaFitHeight(w, h) {
      assert AspectRatioFloor(w, h) != 0;
    }
  }

  /** Every returned square lies inside the w-by-h image. */
  lemma BestSquaresWithin(w: int, h: int)
    requires w > 0 && h > 0
    ensures forall i :: 0 <= i < |BestSquares(w, h)| ==> Within(BestSquares(w, h)[i], w, h)
  {
    WidthFitWithin(w, h);
    HeightFitWithin(w, h);
  }

  /** All returned squares have one and the same side, and that side is positive. */
  lemma BestSquaresCongruent(w: int, h: int)
    requires w > 0 && h > 0
    ensures |BestSquares(w, h)| > 0
    ensures BestSquares(w, h)[0].size > 0 && AllOfSide(BestSquares(w, h), BestSquares(w, h)[0].size)
  {
    BestSquaresNonEmpty(w, h);
    var k, s := AspectRatioFloor(w, h), SquareSizeFitWidth(w, h);
    RowIsStrip(0, TruncDiv(h - s, 2), s, k + 1);
    RowIsStrip(TruncDiv(w - k * h, 2), 0, h, k);
    if AreaFitWidth(w, h) >= AreaFitHeight(w, h) && s == 0 {
      assert AreaFitWidth(w, h) == 0;
      if k > 0 {
        MulMonotone(1, k, h);
        MulMonotone(1, k * h, h);
      }
      assert false;
    }
  }

  /**
   * The squares form one horizontal strip: each starts where the previous one
   * ends, so x strictly increases and no two squares overlap.
   */
  lemma BestSquaresDisjoint(w: int, h: int)
    requires w > 0 && h > 0
    ensures Adjacent(BestSquares(w, h))
    ensures forall i, j :: 0 <= i < j < |BestSquares(w, h)| ==>
      BestSquares(w, h)[i].x < BestSquares(w, h)[j].x
    ensures forall i, j :: 0 <= i < |BestSquares(w, h)| && 0 <= j < |BestSquares(w, h)| && i != j ==>
      !Overlap(BestSquares(w, h)[i], BestSquares(w, h)[j])
  {
    var r := BestSquares(w, h);
    var k, s := AspectRatioFloor(w, h), SquareSizeFitWidth(w, h);
    RowIsStrip(0, TruncDiv(h - s, 2), s, k + 1);
    RowIsStrip(TruncDiv(w - k * h, 2), 0, h, k);
    BestSquaresCongruent(w, h);
    StripDisjoint(r);
    forall i, j | 0 <= i < j < |r|
      ensures r[i].x < r[j].x
    {
      StripOrdered(r, i, j);
    }
  }

  /** When the width is an exact multiple k of the height, width-fit always loses. */
  lemma ExactRatioPicksHeightFit(k: int, h: int)
    requires k >= 1 && h > 0
    ensures AspectRatioFloor(k * h, h) == k
    ensures BestSquares(k * h, h) == HeightFit(k * h, h)
  {
    var w := k * h;
    var k' := AspectRatioFloor(w, h);
    if k' < k {
      MulMonotone(k' + 1, k, h);
      assert false;
    } else if k' > k {
      MulMonotone(k + 1, k', h);
      assert false;
    }
    var s := SquareSizeFitWidth(w, h);
    WidthFitFits(w, h);
    MulMonotone((k + 1) * s, w, s);
    assert w * (h - s) > 0;
    assert AreaFitWidth(w, h) < AreaFitHeight(w, h);
  }

  /** A portrait image (w < h) gets a single square of side w, centred vertically. */
  lemma PortraitSingleSquare(w: int, h: int)
    requires 0 < w < h
    ensures BestSquares(w, h) == [Square(0, (h - w) / 2, w)]
  {
    assert AspectRatioFloor(w, h) == 0;
    assert SquareSizeFitWidth(w, h) == w;
  }

  /** 1600 x 1000: width-fit wins (1,280,000 >= 1,000,000) with two 800-pixel squares. */
  lemma Example1600By1000()
    ensures BestSquares(1600, 1000) == [Square(0, 100, 800), Square(800, 100, 800)]
  {
    assert AspectRatioFloor(1600, 1000) == 1;
    assert SquareSizeFitWidth(1600, 1000) == 800;
  }

  /** 3000 x 1000: height-fit wins (2,250,000 < 3,000,000) with three 1000-pixel squares. */
  lemma Example3000By1000()
    ensures BestSquares(3000, 1000) == HeightFit(3000, 1000)
    ensures BestSquares(3000, 1000) ==
      [Square(0, 0, 1000), Square(1000, 0, 1000), Square(2000, 0, 1000)]
  {
    assert AspectRatioFloor(3000, 1000) == 3;
    assert SquareSizeFitWidth(3000, 1000) == 750;
  }
}
