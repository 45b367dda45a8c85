/**
  The integer line drawing of the LCD driver: an error-free walk along the
  longer extent, computed in 32-bit unsigned arithmetic.
 */
module LcdLine {

  type u16 = n: int | 0 <= n < 0x1_0000

  datatype Point = Point(x: u16, y: u16)

  const TWO_TO_THE_32 := 0x1_0000_0000

  function U32(n: int): nat {
    n % TWO_TO_THE_32
  }

  function U16(n: int): u16 {
    n % 0x1_0000
  }

  function Extent(a: u16, b: u16): u16 {
    if b > a then b - a else a - b
  }

  /** The longer and the shorter extent of a line. */
  function Long(a: Point, b: Point): u16 {
    if Extent(a.y, b.y) > Extent(a.x, b.x) then Extent(a.y, b.y) else Extent(a.x, b.x)
  }

  function Short(a: Point, b: Point): u16 {
    if Extent(a.y, b.y) > Extent(a.x, b.x) then Extent(a.x, b.x) else Extent(a.y, b.y)
  }

  /** The two products of the test at step `i`. */
  function Left(e: nat, j: nat): (r: nat)
    ensures r == 2 * (e * j) + e
  {
    e * (2 * j + 1)
  }

  function Right(f: nat, i: nat): (r: nat)
    ensures r == 2 * (f * i) + 2 * f
  {
    2 * f * (i + 1)
  }

  /** The test of the source, with its products cut to 32 bits. */
  predicate Advances(e: nat, f: nat, i: nat, j: nat) {
    U32(Left(e, j)) < U32(Right(f, i))
  }

  /** The offset along the shorter extent at step `i`. */
  function Offset(e: nat, f: nat, i: nat): (j: nat)
    ensures j <= i
  {
    if i == 0 then 0
    else
      var j := Offset(e, f, i - 1);
      if Advances(e, f, i - 1, j) then j + 1 else j
  }

  /** The point `i` steps along the longer and `j` along the shorter extent. */
  function Place(a: Point, b: Point, i: nat, j: nat): Point {
    var swapped := Extent(a.y, b.y) > Extent(a.x, b.x);
    var dx, dy := if swapped then j else i, if swapped then i else j;
    Point(U16(if b.x > a.x then a.x + dx else a.x - dx), U16(if b.y > a.y then a.y + dy else a.y - dy))
  }

  function Plotted(a: Point, b: Point, n: nat): (points: seq<Point>)
    ensures |points| == n
  {
    seq(n, (i: nat) => Pixel(a, b, i))
  }

  /** The point of step `i`. */
  function Pixel(a: Point, b: Point, i: nat): Point {
    Place(a, b, i, Offset(Long(a, b), Short(a, b), i))
  }

  lemma {:induction false} PlottedNext(a: Point, b: Point, n: nat)
    ensures Plotted(a, b, n + 1) == Plotted(a, b, n) + [Pixel(a, b, n)]
  {}

  /** The three flags of the octant: leftwards, upwards, steep. */
  function Flag(a: Point, b: Point): nat {
    (if b.x > a.x then 0 else 1) + (if b.y > a.y then 0 else 2) + if Extent(a.y, b.y) > Extent(a.x, b.x) then 4 else 0
  }

  method Octant(xs: u16, ys: u16, xe: u16, ye: u16) returns (e: nat, f: nat, flag: nat)
    ensures var a, b := Point(xs, ys), Point(xe, ye);
            e == Long(a, b) && f == Short(a, b) && flag == Flag(a, b)
  {
    flag := 0;
    if xe > xs {
      e := xe - xs;
    } else {
      e := xs - xe;
      flag := 1;
    }
    if ye > ys {
      f := ye - ys;
    } else {
      f := ys - ye;
      flag := flag + 2;
    }
    if f > e {
      e, f := f, e;
      flag := flag + 4;
    }
  }

  /** The `switch` on the flags. */
  method DrawPoint(flag: nat, xs: u16, ys: u16, i: nat, j: nat, ghost b: Point) returns (point: Point)
    requires flag == Flag(Point(xs, ys), b)
    ensures point == Place(Point(xs, ys), b, i, j)
  {
    match flag {
      case 0 => point := Point(U16(xs + i), U16(ys + j));
      case 1 => point := Point(U16(xs - i), U16(ys + j));
      case 2 => point := Point(U16(xs + i), U16(ys - j));
      case 3 => point := Point(U16(xs - i), U16(ys - j));
      case 4 => point := Point(U16(xs + j), U16(ys + i));
      case 5 => point := Point(U16(xs - j), U16(ys + i));
      case 6 => point := Point(U16(xs + j), U16(ys - i));
      case 7 => point := Point(U16(xs - j), U16(ys - i));
    }
  }

  /** `lcd_draw_line`, collecting the points it draws. */
  method DrawLine(xs: u16, ys: u16, xe: u16, ye: u16) returns (points: seq<Point>)
    ensures var a, b := Point(xs, ys), Point(xe, ye);
            points == Plotted(a, b, Long(a, b) + 1)
  {
    ghost var a, b := Point(xs, ys), Point(xe, ye);
    var e, f, flag := Octant(xs, ys, xe, ye);
    var i: nat, j: nat := 0, 0;
    points := [];
    while i < e + 1
      invariant i <= e + 1 && j == Offset(e, f, i)
      invariant points == Plotted(a, b, i)
    {
      var point := DrawPoint(flag, xs, ys, i, j, b);
      PlottedNext(a, b, i);
      points := points + [point];
      if Advances(e, f, i, j) {
        j := j + 1;
      }
      i := i + 1;
    }
  }

  // ----- the walk follows the line -----

  /** The point at `(i, j)` is within half a pixel of the line from `(0, 0)` to `(e, f)`. */
  predicate Near(e: nat, f: nat, i: nat, j: nat) {
    2 * (f * i) <= 2 * (e * j) + e && 2 * (e * j) <= 2 * (f * i) + e
  }

  /** As `Near`, but a tie goes to the lower offset. */
  predicate Nearest(e: nat, f: nat, i: nat, j: nat) {
    2 * (f * i) <= 2 * (e * j) + e && 2 * (e * j) < 2 * (f * i) + e
  }

  /** Both products of the test at step `i` fit into 32 bits, or neither does. */
  predicate SameSide(e: nat, f: nat, i: nat, j: nat) {
    Left(e, j) >= TWO_TO_THE_32 <==> Right(f, i) >= TWO_TO_THE_32
  }

  /** The offset of the same walk in unbounded arithmetic. */
  function Ideal(e: nat, f: nat, i: nat): (j: nat) {
    if i == 0 then 0
    else
      var j := Ideal(e, f, i - 1);
      if Left(e, j) < Right(f, i - 1) then j + 1 else j
  }

  /** The products of the next point. */
  lemma {:induction false} NextProducts(e: nat, f: nat, i: nat, j: nat)
    ensures e * (j + 1) == e * j + e && f * (i + 1) == f * i + f
  {}

  /** In unbounded arithmetic a step stays nearest to the line. */
  lemma {:induction false} IdealStep(e: nat, f: nat, p: nat, q: nat)
    requires f <= e && 2 * q <= 2 * p + e && 2 * p < 2 * q + e
    ensures var r := if 2 * p + e < 2 * q + 2 * f then p + e else p;
            2 * (q + f) <= 2 * r + e && 2 * r < 2 * (q + f) + e
  {}

  lemma {:induction false} IdealIsNearest(e: nat, f: nat, i: nat)
    requires f <= e && 0 < e
    ensures Nearest(e, f, i, Ideal(e, f, i))
  {
    if i > 0 {
      var j := Ideal(e, f, i - 1);
      IdealIsNearest(e, f, i - 1);
      NextProducts(e, f, i - 1, j);
      IdealStep(e, f, e * j, f * (i - 1));
    }
  }

  lemma {:induction false} ProductBound(a: nat, b: nat, m: nat, n: nat)
    requires a <= m && b <= n
    ensures a * b <= m * n
  {
    assert a * b <= a * n <= m * n;
  }

  /** Cut to 32 bits the test decides the same exactly when both sides are cut or neither is. */
  lemma {:induction false} CutTest(e: nat, f: nat, p: nat, q: nat)
    requires f <= e < 0x1_0000 && q + f <= 0xFFFF * 0xFFFF
    requires 2 * q <= 2 * p + e && 2 * p < 2 * q + e
    ensures (2 * p + e >= TWO_TO_THE_32 <==> 2 * q + 2 * f >= TWO_TO_THE_32) <==>
            (U32(2 * p + e) < U32(2 * q + 2 * f) <==> 2 * p + e < 2 * q + 2 * f)
  {}

  /** The test of one step, on the ideal offset. */
  lemma {:induction false} StepAgrees(e: nat, f: nat, i: nat, j: nat)
    requires f <= e < 0x1_0000 && i < e && Nearest(e, f, i, j)
    ensures SameSide(e, f, i, j) <==> (Advances(e, f, i, j) <==> Left(e, j) < Right(f, i))
  {
    var p, q := e * j, f * i;
    assert q + f <= 0xFFFF * 0xFFFF by {
      ProductBound(f, i + 1, 0xFFFF, 0xFFFF);
      NextProducts(e, f, i, j);
    }
    CutTest(e, f, p, q);
  }

  /** A step that decides otherwise leaves the line. */
  lemma {:induction false} WrongStep(e: nat, f: nat, i: nat, j: nat)
    requires f <= e && 0 < e && Nearest(e, f, i, j)
    ensures Left(e, j) < Right(f, i) ==> !Near(e, f, i + 1, j)
    ensures Left(e, j) > Right(f, i) ==> !Near(e, f, i + 1, j + 1)
  {
    NextProducts(e, f, i, j);
  }

  /** No step's test is misled by the cut to 32 bits. */
  ghost predicate Safe(e: nat, f: nat, n: nat) {
    forall i: nat :: i < n ==> SameSide(e, f, i, Ideal(e, f, i))
  }

  lemma {:induction false} WalkIsIdeal(e: nat, f: nat, n: nat)
    requires f <= e < 0x1_0000 && n <= e && Safe(e, f, n)
    ensures Offset(e, f, n) == Ideal(e, f, n)
    decreases n
  {
    if n > 0 {
      var j := Ideal(e, f, n - 1);
      WalkIsIdeal(e, f, n - 1);
      IdealIsNearest(e, f, n - 1);
      StepAgrees(e, f, n - 1, j);
      assert SameSide(e, f, n - 1, j);
    }
  }

  /** A misled test leaves the line at the next point. */
  lemma {:induction false} MisledLeavesTheLine(e: nat, f: nat, i: nat, j: nat)
    requires f <= e < 0x1_0000 && i < e && Nearest(e, f, i, j)
    ensures !SameSide(e, f, i, j) ==> !Near(e, f, i + 1, if Advances(e, f, i, j) then j + 1 else j)
  {
    StepAgrees(e, f, i, j);
    WrongStep(e, f, i, j);
  }

  /** Every point of the first `n` steps is within half a pixel of the line. */
  ghost predicate Follows(e: nat, f: nat, n: nat) {
    forall i: nat :: i <= n ==> Near(e, f, i, Offset(e, f, i))
  }

  /** After a safe walk the next point is near exactly when its test is not misled. */
  lemma {:induction false} NextFollows(e: nat, f: nat, n: nat)
    requires f <= e < 0x1_0000 && 0 < n <= e && Safe(e, f, n - 1)
    ensures Near(e, f, n, Offset(e, f, n)) <==> SameSide(e, f, n - 1, Ideal(e, f, n - 1))
  {
    var j := Ideal(e, f, n - 1);
    WalkIsIdeal(e, f, n - 1);
    IdealIsNearest(e, f, n - 1);
    if SameSide(e, f, n - 1, j) {
      assert Safe(e, f, n);
      WalkIsIdeal(e, f, n);
      IdealIsNearest(e, f, n);
    } else {
      MisledLeavesTheLine(e, f, n - 1, j);
    }
  }

  /** The walk stays within half a pixel of the line exactly as long as no test is misled. */
  lemma {:induction false} FollowsUpTo(e: nat, f: nat, n: nat)
    requires f <= e < 0x1_0000 && 0 < e && n <= e
    ensures Follows(e, f, n) <==> Safe(e, f, n)
    decreases n
  {
    if n == 0 {
      IdealIsNearest(e, f, 0);
    } else {
      FollowsUpTo(e, f, n - 1);
      if Safe(e, f, n - 1) {
        NextFollows(e, f, n);
      }
    }
  }

  lemma {:induction false} NextProduct(e: nat, f: nat, j: nat)
    requires f < j
    ensures e * f + e <= e * j
  {
    ProductBound(e, f + 1, e, j);
    assert e * (f + 1) == e * f + e;
  }

  /** Before the last point the ideal offset is below `f`, or equals it on a flat line. */
  lemma {:induction false} OffsetBound(e: nat, f: nat, i: nat, j: nat)
    requires f <= e && i < e && Nearest(e, f, i, j)
    ensures j < f || (j == f && 2 * f < e)
  {
    ProductBound(f, i, f, e - 1);
    assert f * (e - 1) == e * f - f;
    if j > f {
      NextProduct(e, f, j);
    }
  }

  /** The left product stays below 2 to the 32 when the extents' product is below 2 to the 31. */
  lemma {:induction false} LeftFits(e: nat, f: nat, i: nat, j: nat)
    requires f <= e < 0x1_0000 && i < e && Nearest(e, f, i, j) && e * f < 0x8000_0000
    ensures Left(e, j) < TWO_TO_THE_32
  {
    OffsetBound(e, f, i, j);
    if j < f {
      ProductBound(e, j, e, f - 1);
      assert e * (f - 1) == e * f - e;
    } else {
      ProductBound(e, 2 * j + 1, 0xFFFF, 0xFFFF);
    }
  }

  /** Every line whose extents have a product below 2 to the 31 is safe: all with both up to 46340, among others. */
  lemma {:induction false} SmallIsSafe(e: nat, f: nat)
    requires f <= e < 0x1_0000 && e * f < 0x8000_0000
    ensures Safe(e, f, e)
  {
    forall i: nat | i < e ensures SameSide(e, f, i, Ideal(e, f, i)) {
      IdealIsNearest(e, f, i);
      LeftFits(e, f, i, Ideal(e, f, i));
      ProductBound(f, i + 1, f, e);
      NextProducts(e, f, i, 0);
    }
  }

  /** The diagonal of 46341 pixels is the first that is not: its last step is lost. */
  lemma {:induction false} DiagonalIsNotSafe()
    ensures !Safe(46341, 46341, 46341) && Safe(46340, 46340, 46340)
  {
    IdealIsNearest(46341, 46341, 46340);
    assert Ideal(46341, 46341, 46340) == 46340;
    assert !SameSide(46341, 46341, 46340, 46340);
    SmallIsSafe(46340, 46340);
  }

  /** The offset nearest to the line at step `i`, ties going to the lower one. */
  function NearestOffset(e: nat, f: nat, i: nat): nat
    requires 0 < e
  {
    (2 * (f * i) + e - 1) / (2 * e)
  }

  lemma {:induction false} ProductOrder(d: nat, m: nat, n: nat)
    ensures m < n ==> d * m + d <= d * n
  {
    if m < n {
      NextProduct(d, m, n);
    }
  }

  lemma {:induction false} QuotientIs(n: nat, d: nat, q: nat)
    requires 0 < d && d * q <= n < d * q + d
    ensures n / d == q
  {
    var r := n / d;
    assert d * r <= n < d * r + d;
    ProductOrder(d, r, q);
    ProductOrder(d, q, r);
  }

  lemma {:induction false} IdealInClosedForm(e: nat, f: nat, i: nat)
    requires f <= e && 0 < e
    ensures Ideal(e, f, i) == NearestOffset(e, f, i)
  {
    var j := Ideal(e, f, i);
    IdealIsNearest(e, f, i);
    assert 2 * e * j == 2 * (e * j);
    QuotientIs(2 * (f * i) + e - 1, 2 * e, j);
  }

  lemma {:induction false} IdealGrows(e: nat, f: nat, i: nat, k: nat)
    requires i <= k
    ensures Left(e, Ideal(e, f, i)) <= Left(e, Ideal(e, f, k))
    decreases k - i
  {
    if i < k {
      IdealGrows(e, f, i, k - 1);
      var j := Ideal(e, f, k - 1);
      NextProducts(e, f, 0, j);
    }
  }

  /** The first step whose right product does not fit into 32 bits. */
  function FirstCut(f: nat): nat
    requires 0 < f
  {
    0x7FFF_FFFF / f
  }

  lemma {:induction false} CutFrom(f: nat, i: nat)
    requires 0 < f
    ensures Right(f, i) >= TWO_TO_THE_32 <==> i >= FirstCut(f)
  {
    var t := FirstCut(f);
    assert f * t <= 0x7FFF_FFFF < f * t + f;
    if i >= t {
      ProductBound(f, t, f, i);
    } else {
      ProductBound(f, i + 1, f, t);
      NextProducts(f, f, i, 0);
    }
  }

  /** The test of two steps that tells whether a line is safe. */
  predicate SafeExtents(e: nat, f: nat) {
    e * f < 0x8000_0000 || (
      0 < f && 0 < e && 0 < FirstCut(f) &&
      var t := FirstCut(f);
      Left(e, NearestOffset(e, f, t - 1)) < TWO_TO_THE_32 <= Left(e, NearestOffset(e, f, t)))
  }

  lemma {:induction false} CutInside(e: nat, f: nat)
    requires f <= e < 0x1_0000 && e * f >= 0x8000_0000
    ensures 0 < f && 0 < FirstCut(f) < e
  {
    if f > 0 {
      var t := FirstCut(f);
      assert f * t <= 0x7FFF_FFFF;
      ProductOrder(f, e, t);
    }
  }

  /**
    A line is safe, so that every point of its walk is near, if and only if the
    left product passes 2 to the 32 at the very step where the right one does.
   */
  lemma {:induction false} SafeIff(e: nat, f: nat)
    requires f <= e < 0x1_0000
    ensures Safe(e, f, e) <==> SafeExtents(e, f)
  {
    if e * f < 0x8000_0000 {
      SmallIsSafe(e, f);
    } else {
      CutInside(e, f);
      var t := FirstCut(f);
      IdealInClosedForm(e, f, t);
      IdealInClosedForm(e, f, t - 1);
      CutAtOnce(e, f, t);
    }
  }

  /** As both products grow from step to step, only the steps before and at the first cut matter. */
  lemma {:induction false} CutAtOnce(e: nat, f: nat, t: nat)
    requires 0 < f && t == FirstCut(f) && 0 < t < e
    ensures Safe(e, f, e) <==> Left(e, Ideal(e, f, t - 1)) < TWO_TO_THE_32 <= Left(e, Ideal(e, f, t))
  {
    CutFrom(f, t);
    CutFrom(f, t - 1);
    if Left(e, Ideal(e, f, t - 1)) < TWO_TO_THE_32 <= Left(e, Ideal(e, f, t)) {
      forall i: nat | i < e ensures SameSide(e, f, i, Ideal(e, f, i)) {
        CutFrom(f, i);
        if i < t {
          IdealGrows(e, f, i, t - 1);
        } else {
          IdealGrows(e, f, t, i);
        }
      }
    } else {
      assert !SameSide(e, f, t, Ideal(e, f, t)) || !SameSide(e, f, t - 1, Ideal(e, f, t - 1));
    }
  }

  // ----- the plotted points -----

  /** Twice the area between the line from `a` to `b` and the point `p`. */
  function Area(a: Point, b: Point, p: Point): int {
    (p.x - a.x) * (b.y - a.y) - (p.y - a.y) * (b.x - a.x)
  }

  predicate Touches(p: Point, q: Point) {
    p != q && -1 <= p.x - q.x <= 1 && -1 <= p.y - q.y <= 1
  }

  /** At the end of the longer extent the nearest offset is the shorter one. */
  lemma {:induction false} EndOffset(e: nat, f: nat, j: nat)
    requires 0 < e && Nearest(e, f, e, j)
    ensures j == f
  {
    if j > f {
      NextProduct(e, f, j);
    } else if j < f {
      NextProduct(e, j, f);
    }
  }

  lemma {:induction false} NearestIsNear(e: nat, f: nat, i: nat, j: nat)
    requires Nearest(e, f, i, j)
    ensures Near(e, f, i, j)
  {}

  lemma {:induction false} OffsetIsNearest(e: nat, f: nat, i: nat)
    requires f <= e < 0x1_0000 && 0 < e && i <= e && Safe(e, f, e)
    ensures Nearest(e, f, i, Offset(e, f, i))
  {
    WalkIsIdeal(e, f, i);
    IdealIsNearest(e, f, i);
  }

  /** On a safe line the offset never passes the shorter extent and ends at it. */
  lemma {:induction false} OffsetEnds(e: nat, f: nat, i: nat)
    requires f <= e < 0x1_0000 && i <= e && Safe(e, f, e)
    ensures Offset(e, f, i) <= f && (i == e ==> Offset(e, f, i) == f)
  {
    if e > 0 {
      OffsetIsNearest(e, f, i);
      if i < e {
        OffsetBound(e, f, i, Offset(e, f, i));
      } else {
        EndOffset(e, f, Offset(e, f, i));
      }
    }
  }

  lemma {:induction false} OffsetIsNear(e: nat, f: nat, i: nat)
    requires f <= e < 0x1_0000 && i <= e && Safe(e, f, e)
    ensures Near(e, f, i, Offset(e, f, i))
  {
    if e > 0 {
      OffsetIsNearest(e, f, i);
      NearestIsNear(e, f, i, Offset(e, f, i));
    }
  }

  /** Within the extents no coordinate is cut. */
  lemma {:induction false} PlaceIsExact(a: Point, b: Point, i: nat, j: nat)
    requires i <= Long(a, b) && j <= Short(a, b)
    ensures var steep := Extent(a.y, b.y) > Extent(a.x, b.x);
            var p := Place(a, b, i, j);
            p.x == (if b.x > a.x then a.x + (if steep then j else i) else a.x - (if steep then j else i)) &&
            p.y == (if b.y > a.y then a.y + (if steep then i else j) else a.y - (if steep then i else j))
  {}

  /** The area is that between the offsets, up to its sign. */
  lemma {:induction false} AreaOfOffsets(a: Point, b: Point, i: nat, j: nat)
    requires i <= Long(a, b) && j <= Short(a, b)
    ensures var d := Long(a, b) * j - Short(a, b) * i;
            var area := Area(a, b, Place(a, b, i, j));
            area == d || area == 0 - d
  {
    PlaceIsExact(a, b, i, j);
    var e, f := Long(a, b), Short(a, b);
    Signs(i, f);
    Signs(j, e);
  }

  lemma {:induction false} Signs(m: int, n: int)
    ensures (0 - m) * n == 0 - m * n && m * (0 - n) == 0 - m * n && (0 - m) * (0 - n) == m * n && m * n == n * m
  {}

  /** `p` is within half a pixel of the straight line from `a` to `b`, measured along the shorter extent. */
  predicate Close(a: Point, b: Point, p: Point) {
    0 - Long(a, b) as int <= 2 * Area(a, b, p) <= Long(a, b)
  }

  lemma {:induction false} PixelIsClose(a: Point, b: Point, i: nat)
    requires Safe(Long(a, b), Short(a, b), Long(a, b)) && i <= Long(a, b)
    ensures Close(a, b, Pixel(a, b, i))
  {
    var e, f := Long(a, b), Short(a, b);
    OffsetEnds(e, f, i);
    OffsetIsNear(e, f, i);
    AreaOfOffsets(a, b, i, Offset(e, f, i));
  }

  lemma {:induction false} PlacesTouch(a: Point, b: Point, i: nat, j: nat, k: nat)
    requires i < Long(a, b) && k <= Short(a, b) && j <= k <= j + 1
    ensures Touches(Place(a, b, i, j), Place(a, b, i + 1, k))
  {
    PlaceIsExact(a, b, i, j);
    PlaceIsExact(a, b, i + 1, k);
  }

  lemma {:induction false} PixelsTouch(a: Point, b: Point, i: nat)
    requires Safe(Long(a, b), Short(a, b), Long(a, b)) && i < Long(a, b)
    ensures Touches(Pixel(a, b, i), Pixel(a, b, i + 1))
  {
    var e, f := Long(a, b), Short(a, b);
    OffsetEnds(e, f, i + 1);
    PlacesTouch(a, b, i, Offset(e, f, i), Offset(e, f, i + 1));
  }

  lemma {:induction false} PixelEnds(a: Point, b: Point)
    requires Safe(Long(a, b), Short(a, b), Long(a, b))
    ensures Pixel(a, b, 0) == a && Pixel(a, b, Long(a, b)) == b
  {
    var e, f := Long(a, b), Short(a, b);
    PlaceIsExact(a, b, 0, 0);
    OffsetEnds(e, f, e);
    PlaceIsExact(a, b, e, f);
  }

  /**
    On a line of safe extents the points start at one end, stop at the other, touch one
    another and stay within half a pixel of the straight line, in every octant.
   */
  lemma {:induction false} LineIsDrawn(a: Point, b: Point, points: seq<Point>)
    requires SafeExtents(Long(a, b), Short(a, b)) && points == Plotted(a, b, Long(a, b) + 1)
    ensures points[0] == a && points[|points| - 1] == b
    ensures forall i :: 0 <= i < |points| - 1 ==> Touches(points[i], points[i + 1])
    ensures forall i :: 0 <= i < |points| ==> Close(a, b, points[i])
  {
    SafeIff(Long(a, b), Short(a, b));
    PixelEnds(a, b);
    forall i | 0 <= i < |points| - 1 ensures Touches(points[i], points[i + 1]) {
      PixelsTouch(a, b, i);
    }
    forall i | 0 <= i < |points| ensures Close(a, b, points[i]) {
      PixelIsClose(a, b, i);
    }
  }
}
