/**
 * Grid geometry (src/utils/geometry.ts): a cell is addressed either by a point
 * (x, y) or by its index y * width + x, and has up to eight neighbours.
 */
module Geometry {

  datatype Matrix = Matrix(width: int, height: int)

  datatype Point = Point(x: int, y: int)

  /** A grid the game can lay out: at least one column and one row. */
  predicate ValidMatrix(m: Matrix)
  {
    m.width > 0 && m.height > 0
  }

  function CellCount(m: Matrix): int
  {
    m.width * m.height
  }

  predicate IsCell(i: int, m: Matrix)
  {
    0 <= i < CellCount(m)
  }

  /** The indexes of the cells of the grid. */
  ghost function Cells(m: Matrix): set<int>
  {
    set i | 0 <= i < CellCount(m) && IsCell(i, m)
  }

  predicate IsPointInMatrix(p: Point, m: Matrix)
  {
    0 <= p.x < m.width && 0 <= p.y < m.height
  }

  /** JavaScript's `%`: the remainder has the sign of the dividend. */
  function JsRemainder(a: int, b: int): int
    requires b > 0
  {
    if a >= 0 then a % b else -((-a) % b)
  }

  /** `x = index % width` (JavaScript remainder), `y = Math.floor(index / width)`. */
  function IndexToPoint(index: int, m: Matrix): Point
    requires m.width > 0
  {
    Point(JsRemainder(index, m.width), index / m.width)
  }

  function PointToIndex(p: Point, m: Matrix): int
  {
    p.y * m.width + p.x
  }

  lemma DivModUnique(a: int, w: int, q: int, r: int)
    requires w > 0 && 0 <= r < w && a == q * w + r
    ensures a / w == q && a % w == r
  {
    var q', r' := a / w, a % w;
    assert a == q' * w + r';
    if q' < q {
      MulAtLeast(q - q', w);
    } else if q < q' {
      MulAtLeast(q' - q, w);
    }
  }

  lemma MulAtLeast(d: int, w: int)
    requires d >= 1 && w > 0
    ensures d * w >= w
  {
    assert d * w == (d - 1) * w + w;
  }

  /** Every index of the grid names a point of the grid, and converting back gives the index. */
  lemma IndexPointRoundTrip(i: int, m: Matrix)
    requires ValidMatrix(m) && 0 <= i < CellCount(m)
    ensures IsPointInMatrix(IndexToPoint(i, m), m)
    ensures PointToIndex(IndexToPoint(i, m), m) == i
  {
    var x, y := i % m.width, i / m.width;
    assert IndexToPoint(i, m) == Point(x, y);
    assert i == y * m.width + x;
    assert y < m.height by {
      if y >= m.height {
        MulMonotone(m.height, y, m.width);
      }
    }
  }

  lemma MulMonotone(a: int, b: int, w: int)
    requires a <= b && w >= 0
    ensures a * w <= b * w
  {
    assert b * w - a * w == (b - a) * w;
  }

  /** Every point of the grid names an index of the grid, and converting back gives the point. */
  lemma PointIndexRoundTrip(p: Point, m: Matrix)
    requires ValidMatrix(m) && IsPointInMatrix(p, m)
    ensures 0 <= PointToIndex(p, m) < CellCount(m)
    ensures IndexToPoint(PointToIndex(p, m), m) == p
  {
    var i := PointToIndex(p, m);
    DivModUnique(i, m.width, p.y, p.x);
    MulMonotone(p.y, m.height - 1, m.width);
    assert (m.height - 1) * m.width + m.width == m.height * m.width;
  }

  /** Different points of the grid have different indexes. */
  lemma PointToIndexInjective(p: Point, q: Point, m: Matrix)
    requires ValidMatrix(m) && IsPointInMatrix(p, m) && IsPointInMatrix(q, m)
    requires PointToIndex(p, m) == PointToIndex(q, m)
    ensures p == q
  {
    PointIndexRoundTrip(p, m);
    PointIndexRoundTrip(q, m);
  }

  /** The offsets of the eight neighbours, in the order N, NE, E, SE, S, SW, W, NW. */
  const Offsets: seq<(int, int)> := [(0, -1), (1, -1), (1, 0), (1, 1), (0, 1), (-1, 1), (-1, 0), (-1, -1)]

  function PointsAround(p: Point): (r: seq<Point>)
    ensures |r| == 8
  {
    seq(8, k requires 0 <= k < 8 => Point(p.x + Offsets[k].0, p.y + Offsets[k].1))
  }

  /** Two different cells that touch, at a side or a corner. */
  predicate Adjacent(p: Point, q: Point)
  {
    p != q && -1 <= q.x - p.x <= 1 && -1 <= q.y - p.y <= 1
  }

  /** The eight points around a point are exactly the points adjacent to it, each listed once. */
  lemma PointsAroundAreAdjacent(p: Point)
    ensures forall q :: q in PointsAround(p) <==> Adjacent(p, q)
    ensures forall i, j :: 0 <= i < j < 8 ==> PointsAround(p)[i] != PointsAround(p)[j]
  {
    var ps := PointsAround(p);
    forall q | Adjacent(p, q) ensures q in ps {
      var dx, dy := q.x - p.x, q.y - p.y;
      var k :=
        if dx == 0 && dy == -1 then 0
        else if dx == 1 && dy == -1 then 1
        else if dx == 1 && dy == 0 then 2
        else if dx == 1 && dy == 1 then 3
        else if dx == 0 && dy == 1 then 4
        else if dx == -1 && dy == 1 then 5
        else if dx == -1 && dy == 0 then 6
        else 7;
      assert ps[k] == q;
    }
  }

  /** The points of `ps` that lie in the grid, in their order in `ps`. */
  function InMatrixOnly(ps: seq<Point>, m: Matrix): (r: seq<Point>)
    ensures |r| <= |ps|
    ensures forall q :: q in r <==> q in ps && IsPointInMatrix(q, m)
  {
    if ps == [] then []
    else (if IsPointInMatrix(ps[0], m) then [ps[0]] else []) + InMatrixOnly(ps[1..], m)
  }

  function PointsAroundInMatrix(p: Point, m: Matrix): (r: seq<Point>)
  {
    InMatrixOnly(PointsAround(p), m)
  }

  /** Filtering keeps points that are pairwise different pairwise different. */
  lemma {:induction false} InMatrixOnlyDistinct(ps: seq<Point>, m: Matrix)
    requires forall i, j :: 0 <= i < j < |ps| ==> ps[i] != ps[j]
    ensures forall i, j :: 0 <= i < j < |InMatrixOnly(ps, m)| ==> InMatrixOnly(ps, m)[i] != InMatrixOnly(ps, m)[j]
  {
    if ps != [] {
      InMatrixOnlyDistinct(ps[1..], m);
      assert ps[0] !in ps[1..];
    }
  }

  lemma InMatrixOnlyStep(ps: seq<Point>, m: Matrix)
    requires ps != []
    ensures |InMatrixOnly(ps, m)| == (if IsPointInMatrix(ps[0], m) then 1 else 0) + |InMatrixOnly(ps[1..], m)|
  {
  }

  /** How many of the columns (or rows) c - 1, c, c + 1 lie in 0 .. n - 1, for 0 <= c < n. */
  function Span(c: int, n: int): int
  {
    (if c > 0 then 1 else 0) + 1 + (if c < n - 1 then 1 else 0)
  }

  /**
   * A cell of the grid has (columns around it) * (rows around it) - 1 neighbours
   * in the grid: 3 at a corner and 8 inside, once the grid is at least 2 by 2.
   */
  lemma PointsAroundInMatrixCount(p: Point, m: Matrix)
    requires ValidMatrix(m) && IsPointInMatrix(p, m)
    ensures |PointsAroundInMatrix(p, m)| == Span(p.x, m.width) * Span(p.y, m.height) - 1
    ensures m.width >= 2 && m.height >= 2 ==> 3 <= |PointsAroundInMatrix(p, m)| <= 8
  {
    var ps := PointsAround(p);
    InMatrixOnlyCount8(ps, m);
    var a, b := Span(p.x, m.width) - 1 - (if p.x < m.width - 1 then 1 else 0), (if p.x < m.width - 1 then 1 else 0);
    var c, d := Span(p.y, m.height) - 1 - (if p.y < m.height - 1 then 1 else 0), (if p.y < m.height - 1 then 1 else 0);
    assert InGridCount(ps[0], m) == c;
    assert InGridCount(ps[1], m) == Both(b, c);
    assert InGridCount(ps[2], m) == b;
    assert InGridCount(ps[3], m) == Both(b, d);
    assert InGridCount(ps[4], m) == d;
    assert InGridCount(ps[5], m) == Both(a, d);
    assert InGridCount(ps[6], m) == a;
    assert InGridCount(ps[7], m) == Both(a, c);
    SpanProduct(a, b, c, d, Span(p.x, m.width), Span(p.y, m.height));
    if m.width >= 2 && m.height >= 2 {
      SpanProductBounds(Span(p.x, m.width), Span(p.y, m.height));
    }
  }

  lemma SpanProductBounds(s: int, t: int)
    requires 2 <= s <= 3 && 2 <= t <= 3
    ensures 3 <= s * t - 1 <= 8
  {
    if s == 2 { } else { }
  }

  function Both(a: int, b: int): int
  {
    if a == 1 && b == 1 then 1 else 0
  }

  lemma SpanProduct(a: int, b: int, c: int, d: int, sx: int, sy: int)
    requires 0 <= a <= 1 && 0 <= b <= 1 && 0 <= c <= 1 && 0 <= d <= 1
    requires sx == a + 1 + b && sy == c + 1 + d
    ensures sx * sy - 1 == a + b + c + d + Both(a, c) + Both(a, d) + Both(b, c) + Both(b, d)
  {
    if a == 0 {
      if b == 0 { } else { }
    } else {
      if b == 0 { } else { }
    }
  }

  function InGridCount(q: Point, m: Matrix): int
  {
    if IsPointInMatrix(q, m) then 1 else 0
  }

  /** The number of points of `ps` in the grid. */
  function CountInGrid(ps: seq<Point>, m: Matrix): int
  {
    if ps == [] then 0 else InGridCount(ps[0], m) + CountInGrid(ps[1..], m)
  }

  lemma {:induction false} InMatrixOnlyLength(ps: seq<Point>, m: Matrix)
    ensures |InMatrixOnly(ps, m)| == CountInGrid(ps, m)
  {
    if ps != [] {
      InMatrixOnlyLength(ps[1..], m);
    }
  }

  lemma InMatrixOnlyCount8(ps: seq<Point>, m: Matrix)
    requires |ps| == 8
    ensures |InMatrixOnly(ps, m)| == InGridCount(ps[0], m) + InGridCount(ps[1], m) + InGridCount(ps[2], m)
      + InGridCount(ps[3], m) + InGridCount(ps[4], m) + InGridCount(ps[5], m) + InGridCount(ps[6], m)
      + InGridCount(ps[7], m)
  {
    InMatrixOnlyLength(ps, m);
    var s1 := ps[1..];
    var s2 := s1[1..];
    var s3 := s2[1..];
    var s4 := s3[1..];
    var s5 := s4[1..];
    var s6 := s5[1..];
    var s7 := s6[1..];
    assert s7 == [ps[7]];
    assert CountInGrid(s7, m) == InGridCount(ps[7], m);
    assert CountInGrid(s6, m) == InGridCount(ps[6], m) + CountInGrid(s7, m);
    assert CountInGrid(s5, m) == InGridCount(ps[5], m) + CountInGrid(s6, m);
    assert CountInGrid(s4, m) == InGridCount(ps[4], m) + CountInGrid(s5, m);
    assert CountInGrid(s3, m) == InGridCount(ps[3], m) + CountInGrid(s4, m);
    assert CountInGrid(s2, m) == InGridCount(ps[2], m) + CountInGrid(s3, m);
    assert CountInGrid(s1, m) == InGridCount(ps[1], m) + CountInGrid(s2, m);
  }

  function IndexesOf(ps: seq<Point>, m: Matrix): (r: seq<int>)
    ensures |r| == |ps|
  {
    seq(|ps|, k requires 0 <= k < |ps| => PointToIndex(ps[k], m))
  }

  /**
   * The indexes of the neighbours of a cell. With no columns, no point lies in
   * the grid (the source then computes NaN coordinates), so there are none.
   */
  function IndexesAroundInMatrix(index: int, m: Matrix): (r: set<int>)
  {
    if m.width <= 0 then {}
    else set i | i in IndexesOf(PointsAroundInMatrix(IndexToPoint(index, m), m), m)
  }

  /**
   * The neighbour indexes of a cell are the cells of the grid, other than the cell
   * itself, whose points touch its point.
   */
  lemma IndexesAroundInMatrixSpec(i: int, j: int, m: Matrix)
    requires ValidMatrix(m) && 0 <= i < CellCount(m)
    ensures j in IndexesAroundInMatrix(i, m) <==>
              0 <= j < CellCount(m) && Adjacent(IndexToPoint(i, m), IndexToPoint(j, m))
  {
    var p := IndexToPoint(i, m);
    var ps := PointsAroundInMatrix(p, m);
    PointsAroundAreAdjacent(p);
    if j in IndexesAroundInMatrix(i, m) {
      var k :| 0 <= k < |ps| && IndexesOf(ps, m)[k] == j;
      assert ps[k] in ps;
      PointIndexRoundTrip(ps[k], m);
    }
    if 0 <= j < CellCount(m) && Adjacent(p, IndexToPoint(j, m)) {
      var q := IndexToPoint(j, m);
      IndexPointRoundTrip(j, m);
      assert q in ps;
      var k :| 0 <= k < |ps| && ps[k] == q;
      assert IndexesOf(ps, m)[k] == j;
    }
  }

  /** Every neighbour index lies in the grid, whatever index is asked about. */
  lemma IndexesAroundInMatrixInGrid(i: int, m: Matrix)
    requires ValidMatrix(m)
    ensures IndexesAroundInMatrix(i, m) <= Cells(m)
  {
    var ps := PointsAroundInMatrix(IndexToPoint(i, m), m);
    forall j | j in IndexesAroundInMatrix(i, m) ensures j in Cells(m) {
      var k :| 0 <= k < |ps| && IndexesOf(ps, m)[k] == j;
      assert ps[k] in ps;
      PointIndexRoundTrip(ps[k], m);
    }
  }

  /** A cell is never its own neighbour, and the neighbour relation is symmetric. */
  lemma NeighbourSymmetric(i: int, j: int, m: Matrix)
    requires ValidMatrix(m) && 0 <= i < CellCount(m) && 0 <= j < CellCount(m)
    ensures i !in IndexesAroundInMatrix(i, m)
    ensures j in IndexesAroundInMatrix(i, m) <==> i in IndexesAroundInMatrix(j, m)
  {
    IndexesAroundInMatrixSpec(i, i, m);
    IndexesAroundInMatrixSpec(i, j, m);
    IndexesAroundInMatrixSpec(j, i, m);
  }

  /** The neighbour indexes of a cell of the grid are listed once each: there are at most eight. */
  lemma IndexesAroundDistinct(i: int, m: Matrix)
    requires ValidMatrix(m) && 0 <= i < CellCount(m)
    ensures var ix := IndexesOf(PointsAroundInMatrix(IndexToPoint(i, m), m), m);
      |ix| <= 8 && forall a, b :: 0 <= a < b < |ix| ==> ix[a] != ix[b]
  {
    var p := IndexToPoint(i, m);
    var ps := PointsAroundInMatrix(p, m);
    PointsAroundAreAdjacent(p);
    InMatrixOnlyDistinct(PointsAround(p), m);
    var ix := IndexesOf(ps, m);
    forall a, b | 0 <= a < b < |ix| ensures ix[a] != ix[b] {
      assert ps[a] in ps && ps[b] in ps;
      if ix[a] == ix[b] {
        PointToIndexInjective(ps[a], ps[b], m);
      }
    }
  }
}
