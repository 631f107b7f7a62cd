/** Scanline fill of a triangle in one colour: the vertices are sorted by
    screen y, and the triangle is drawn as a flat-bottom half, a flat-top
    half, or both, split at the point M of the long edge on the middle
    vertex's row. Each half draws one horizontal line per row. */
module TriangleFill {
  import opened Display

  /** int_swap: exchanges the two values. */
  method IntSwap(a: int, b: int) returns (a': int, b': int)
    ensures a' == b && b' == a
  {
    var tmp := a;
    a' := b;
    b' := tmp;
  }

  function Min(a: int, b: int): (r: int) { if a <= b then a else b }
  function Max(a: int, b: int): (r: int) { if a <= b then b else a }

  /** C's integer quotient, rounded toward zero: the remainder is smaller
      than the divisor in magnitude and has the sign of the dividend. */
  function TruncDiv(n: int, d: int): (q: int)
    requires d != 0
    ensures Abs(n - d * q) < Abs(d)
    ensures n >= 0 ==> n - d * q >= 0
    ensures n <= 0 ==> n - d * q <= 0
  {
    if n >= 0 then n / d else -((-n) / d)
  }

  /** One conditional swap of draw_filled_triangle: the two vertices in
      ascending y, the lower y first, each x staying with its y. */
  function OrderByY(a: Point, b: Point): (r: (Point, Point))
    ensures r.0.y == Min(a.y, b.y) && r.1.y == Max(a.y, b.y)
    ensures (r.0, r.1) == (a, b) || (r.0, r.1) == (b, a)
  {
    if a.y > b.y then (b, a) else (a, b)
  }

  /** The vertex order after the three conditional swaps of
      draw_filled_triangle: ascending y, each x staying with its y. */
  function SortByY(v0: Point, v1: Point, v2: Point): (r: (Point, Point, Point))
    ensures r.0.y <= r.1.y <= r.2.y
  {
    var (a0, a1) := OrderByY(v0, v1);
    var (b1, b2) := OrderByY(a1, v2);
    var (c0, c1) := OrderByY(a0, b1);
    (c0, c1, b2)
  }

  /** The sort only reorders the three vertices. */
  lemma SortByYPermutes(v0: Point, v1: Point, v2: Point)
    ensures var r := SortByY(v0, v1, v2); multiset{r.0, r.1, r.2} == multiset{v0, v1, v2}
  {
    var r := SortByY(v0, v1, v2);
    if v0.y > v1.y {
      if v0.y > v2.y {
        if v1.y > v2.y {
          assert r == (v2, v1, v0);
        } else {
          assert r == (v1, v2, v0);
        }
      } else {
        assert r == (v1, v0, v2);
      }
    } else if v1.y > v2.y {
      if v0.y > v2.y {
        assert r == (v2, v0, v1);
      } else {
        assert r == (v0, v2, v1);
      }
    } else {
      assert r == (v0, v1, v2);
    }
  }

  /** The swap sequence of draw_filled_triangle, on its six coordinates. */
  method SortVertices(x0: int, y0: int, x1: int, y1: int, x2: int, y2: int)
    returns (sx0: int, sy0: int, sx1: int, sy1: int, sx2: int, sy2: int)
    ensures (Point(sx0, sy0), Point(sx1, sy1), Point(sx2, sy2)) == SortByY(Point(x0, y0), Point(x1, y1), Point(x2, y2))
  {
    ghost var (a0, a1) := OrderByY(Point(x0, y0), Point(x1, y1));
    ghost var (b1, b2) := OrderByY(a1, Point(x2, y2));
    ghost var (c0, c1) := OrderByY(a0, b1);
    sx0, sy0, sx1, sy1, sx2, sy2 := x0, y0, x1, y1, x2, y2;
    if sy0 > sy1 {
      sy0, sy1 := IntSwap(sy0, sy1);
      sx0, sx1 := IntSwap(sx0, sx1);
    }
    assert Point(sx0, sy0) == a0 && Point(sx1, sy1) == a1;
    if sy1 > sy2 {
      sy1, sy2 := IntSwap(sy1, sy2);
      sx1, sx2 := IntSwap(sx1, sx2);
    }
    assert Point(sx1, sy1) == b1 && Point(sx2, sy2) == b2;
    if sy0 > sy1 {
      sy0, sy1 := IntSwap(sy0, sy1);
      sx0, sx1 := IntSwap(sx0, sx1);
    }
    assert Point(sx0, sy0) == c0 && Point(sx1, sy1) == c1;
  }

  /** The point M where the long edge (v0, v2) crosses the middle vertex's
      row, x found by similar triangles with C's truncating quotient. */
  function Midpoint(v0: Point, v1: Point, v2: Point): (m: Point)
    requires v0.y < v1.y < v2.y
    ensures m.y == v1.y
  {
    Point(TruncDiv((v2.x - v0.x) * (v1.y - v0.y), v2.y - v0.y) + v0.x, v1.y)
  }

  /** A quotient no larger than the bound times the divisor is no larger
      than the bound. */
  lemma DivBound(n: nat, b: nat, d: int)
    requires d > 0 && n <= b * d
    ensures n / d <= b
  {
    var q := n / d;
    assert n == d * q + n % d;
    if q > b {
      MulMonotone(d, b + 1, q);
    }
  }

  /** M lies on the long edge's x range: between x0 and x2 inclusive,
      because (y1 - y0) / (y2 - y0) lies strictly between 0 and 1. */
  lemma MidpointBetween(v0: Point, v1: Point, v2: Point)
    requires v0.y < v1.y < v2.y
    ensures Min(v0.x, v2.x) <= Midpoint(v0, v1, v2).x <= Max(v0.x, v2.x)
  {
    var d := v2.y - v0.y;
    var t := v1.y - v0.y;
    if v2.x >= v0.x {
      var w: nat := v2.x - v0.x;
      ScaledQuotient(w, t, d);
      assert TruncDiv(w * t, d) == (w * t) / d;
    } else {
      var w: nat := v0.x - v2.x;
      ScaledQuotient(w, t, d);
      NegateProduct(v2.x - v0.x, t);
      assert TruncDiv(-(w * t), d) == -((w * t) / d);
    }
  }

  /** w scaled by t / d, for 0 < t < d, lies between 0 and w. */
  lemma ScaledQuotient(w: nat, t: int, d: int)
    requires 0 < t < d
    ensures 0 <= (w * t) / d <= w
  {
    MulMonotone(w, 0, t);
    MulMonotone(w, t, d);
    DivBound(w * t, w, d);
  }

  /** Negating one factor negates the product. */
  lemma NegateProduct(a: int, b: int)
    ensures a * b == -((-a) * b)
  {
  }

  /** One call of a fill routine and the vertices it was given. */
  datatype Fill =
    | FlatBottom(v0: Point, v1: Point, v2: Point)
    | FlatTop(v0: Point, v1: Point, v2: Point)

  /** The number of rows a fill visits: v0's row to v2's row, or none. */
  function RowCount(f: Fill): (r: nat)
  {
    if f.v2.y >= f.v0.y then f.v2.y - f.v0.y + 1 else 0
  }

  /** The rows a fill visits, in order: a flat-bottom fill goes down from
      v0's row, a flat-top fill goes up from v2's row. */
  function Rows(f: Fill): (r: seq<int>)
    ensures |r| == RowCount(f)
    ensures |r| > 0 ==> r[0] == if f.FlatBottom? then f.v0.y else f.v2.y
    ensures |r| > 0 ==> r[|r| - 1] == if f.FlatBottom? then f.v2.y else f.v0.y
  {
    seq(RowCount(f), k requires 0 <= k => if f.FlatBottom? then f.v0.y + k else f.v2.y - k)
  }

  /** A fill visits each row from v0's through v2's exactly once, and no
      other row; the count is y2 - y0 + 1, or none when y0 > y2. */
  lemma {:induction false} RowsVisited(f: Fill, y: int)
    ensures |Rows(f)| == if f.v0.y <= f.v2.y then f.v2.y - f.v0.y + 1 else 0
    ensures y in Rows(f) <==> f.v0.y <= y <= f.v2.y
    ensures forall i, j :: 0 <= i < j < |Rows(f)| ==> Rows(f)[i] != Rows(f)[j]
  {
    if f.v0.y <= y <= f.v2.y {
      var k := if f.FlatBottom? then y - f.v0.y else f.v2.y - y;
      assert Rows(f)[k] == y;
    }
  }

  /** A flat-bottom fill visits its rows from top to bottom, a flat-top
      fill from bottom to top. */
  lemma RowsOrder(f: Fill)
    ensures RowCount(f) > 0 ==> Rows(f)[0] == if f.FlatBottom? then f.v0.y else f.v2.y
    ensures forall k :: 0 < k < |Rows(f)| ==>
      Rows(f)[k] == if f.FlatBottom? then Rows(f)[k - 1] + 1 else Rows(f)[k - 1] - 1
  {
  }

  /** The x range of one row of a fill: (int) x_start to (int) x_end. */
  datatype Span = Span(xStart: int, xEnd: int)

  /** The truncated x bounds of the k-th row (k >= 1) of a fill; they come
      from float inverse slopes added once per row, which are not
      modelled, so this is a parameter. */
  type SpanFn = (Fill, nat) -> Span

  /** The x range of the k-th row of a fill. The first row starts before
      any slope is added, so it is the single column of the apex: v0 for a
      flat-bottom fill, v2 for a flat-top fill. */
  function SpanAt(f: Fill, k: nat, spans: SpanFn): (r: Span)
    ensures k == 0 ==> r.xStart == r.xEnd == (if f.FlatBottom? then f.v0.x else f.v2.x)
    ensures k > 0 ==> r == spans(f, k)
  {
    if k == 0 then (if f.FlatBottom? then Span(f.v0.x, f.v0.x) else Span(f.v2.x, f.v2.x))
    else spans(f, k)
  }

  /** The horizontal lines a fill draws, one per visited row, in order. */
  function FillSegments(f: Fill, spans: SpanFn): (r: seq<Segment>)
    ensures |r| == RowCount(f)
    ensures forall k :: 0 <= k < |r| ==> r[k].from.y == r[k].to.y == Rows(f)[k]
  {
    seq(RowCount(f), k requires 0 <= k < RowCount(f) =>
      Segment(Point(SpanAt(f, k, spans).xStart, Rows(f)[k]), Point(SpanAt(f, k, spans).xEnd, Rows(f)[k])))
  }

  /** Each line of a fill lies on its row, and the first one is the apex
      alone. */
  lemma FillSegmentsShape(f: Fill, spans: SpanFn)
    ensures |FillSegments(f, spans)| == |Rows(f)|
    ensures forall k :: 0 <= k < |Rows(f)| ==>
      FillSegments(f, spans)[k].from.y == Rows(f)[k] && FillSegments(f, spans)[k].to.y == Rows(f)[k]
    ensures RowCount(f) > 0 ==>
      var apex := if f.FlatBottom? then f.v0 else f.v2;
      FillSegments(f, spans)[0] == Segment(apex, apex)
  {
  }

  /** fill_flat_bottom_triangle: one line per row from y0 down to y2. */
  method FillFlatBottomTriangle(fb: FrameBuffer, x0: int, y0: int, x1: int, y1: int, x2: int, y2: int,
                                color: bv32, spans: SpanFn, step: Stepper)
    requires fb.Valid()
    modifies fb.cells
    ensures fb.cells[..] == fb.PaintSegments(old(fb.cells[..]),
      FillSegments(FlatBottom(Point(x0, y0), Point(x1, y1), Point(x2, y2)), spans), step, color)
  {
    var f := FlatBottom(Point(x0, y0), Point(x1, y1), Point(x2, y2));
    ghost var segs := FillSegments(f, spans);
    var y := y0;
    while y <= y2
      invariant y0 <= y && y - y0 <= RowCount(f)
      invariant fb.cells[..] == fb.PaintSegments(old(fb.cells[..]), segs[..y - y0], step, color)
    {
      var span := SpanAt(f, y - y0, spans);
      assert segs[y - y0] == Segment(Point(span.xStart, y), Point(span.xEnd, y));
      fb.PaintSegmentsPrefix(old(fb.cells[..]), segs, y - y0, step, color);
      fb.DrawLine(span.xStart, y, span.xEnd, y, color, step);
      y := y + 1;
    }
    assert segs[..y - y0] == segs;
  }

  /** fill_flat_top_triangle: one line per row from y2 up to y0. */
  method FillFlatTopTriangle(fb: FrameBuffer, x0: int, y0: int, x1: int, y1: int, x2: int, y2: int,
                             color: bv32, spans: SpanFn, step: Stepper)
    requires fb.Valid()
    modifies fb.cells
    ensures fb.cells[..] == fb.PaintSegments(old(fb.cells[..]),
      FillSegments(FlatTop(Point(x0, y0), Point(x1, y1), Point(x2, y2)), spans), step, color)
  {
    var f := FlatTop(Point(x0, y0), Point(x1, y1), Point(x2, y2));
    ghost var segs := FillSegments(f, spans);
    var y := y2;
    while y >= y0
      invariant y <= y2 && y2 - y <= RowCount(f)
      invariant fb.cells[..] == fb.PaintSegments(old(fb.cells[..]), segs[..y2 - y], step, color)
    {
      var span := SpanAt(f, y2 - y, spans);
      assert segs[y2 - y] == Segment(Point(span.xStart, y), Point(span.xEnd, y));
      fb.PaintSegmentsPrefix(old(fb.cells[..]), segs, y2 - y, step, color);
      fb.DrawLine(span.xStart, y, span.xEnd, y, color, step);
      y := y - 1;
    }
    assert segs[..y2 - y] == segs;
  }

  /** The fill calls draw_filled_triangle makes, in order: after sorting,
      a flat-bottom fill alone when the lower two vertices share a row, a
      flat-top fill alone when the upper two do, and otherwise a
      flat-bottom fill down to M followed by a flat-top fill from M. */
  function Plan(v0: Point, v1: Point, v2: Point): (r: seq<Fill>)
    ensures 1 <= |r| <= 2
    ensures |r| == 2 ==> r[0].FlatBottom? && r[1].FlatTop? && r[0].v2 == r[1].v1
    ensures forall i :: 0 <= i < |r| ==> r[i].v0.y <= r[i].v2.y
  {
    var (s0, s1, s2) := SortByY(v0, v1, v2);
    if s1.y == s2.y then [FlatBottom(s0, s1, s2)]
    else if s0.y == s1.y then [FlatTop(s0, s1, s2)]
    else
      var m := Midpoint(s0, s1, s2);
      [FlatBottom(s0, s1, m), FlatTop(s1, m, s2)]
  }

  /** The lines of a sequence of fill calls, call after call. */
  function PlanSegments(fills: seq<Fill>, spans: SpanFn): (r: seq<Segment>)
  {
    if fills == [] then []
    else PlanSegments(fills[..|fills| - 1], spans) + FillSegments(fills[|fills| - 1], spans)
  }

  lemma PlanSegmentsOne(f: Fill, spans: SpanFn)
    ensures PlanSegments([f], spans) == FillSegments(f, spans)
  {
    assert [f][..0] == [];
  }

  lemma PlanSegmentsTwo(f: Fill, g: Fill, spans: SpanFn)
    ensures PlanSegments([f, g], spans) == FillSegments(f, spans) + FillSegments(g, spans)
  {
    assert [f, g][..1] == [f];
    PlanSegmentsOne(f, spans);
  }

  /** The three-way dispatch: one flat fill when two sorted vertices share
      a row (flat-bottom taking precedence), otherwise both halves, the
      flat-bottom one first, sharing the midpoint M on the middle row. */
  lemma PlanDispatch(v0: Point, v1: Point, v2: Point)
    ensures var (s0, s1, s2) := SortByY(v0, v1, v2);
      && (s1.y == s2.y ==> Plan(v0, v1, v2) == [FlatBottom(s0, s1, s2)])
      && (s1.y != s2.y && s0.y == s1.y ==> Plan(v0, v1, v2) == [FlatTop(s0, s1, s2)])
      && (s0.y != s1.y && s1.y != s2.y ==>
            && |Plan(v0, v1, v2)| == 2
            && Plan(v0, v1, v2)[0].FlatBottom? && Plan(v0, v1, v2)[1].FlatTop?
            && Plan(v0, v1, v2)[0].v0 == s0 && Plan(v0, v1, v2)[1].v2 == s2
            && Plan(v0, v1, v2)[0].v2 == Plan(v0, v1, v2)[1].v1
            && Plan(v0, v1, v2)[0].v2.y == s1.y
            && Min(s0.x, s2.x) <= Plan(v0, v1, v2)[0].v2.x <= Max(s0.x, s2.x))
  {
    var (s0, s1, s2) := SortByY(v0, v1, v2);
    if s0.y != s1.y && s1.y != s2.y {
      MidpointBetween(s0, s1, s2);
    }
  }

  /** Together the fills visit exactly the rows from the top vertex's to
      the bottom vertex's; in the split case the middle row is visited by
      both halves and every other row by one. */
  lemma {:induction false} PlanRows(v0: Point, v1: Point, v2: Point, y: int)
    ensures var (s0, s1, s2) := SortByY(v0, v1, v2);
      (exists i :: 0 <= i < |Plan(v0, v1, v2)| && y in Rows(Plan(v0, v1, v2)[i])) <==> s0.y <= y <= s2.y
    ensures var (s0, s1, s2) := SortByY(v0, v1, v2);
      |Plan(v0, v1, v2)| == 2 ==>
        (y in Rows(Plan(v0, v1, v2)[0]) && y in Rows(Plan(v0, v1, v2)[1]) <==> y == s1.y)
  {
    var plan := Plan(v0, v1, v2);
    var (s0, s1, s2) := SortByY(v0, v1, v2);
    if |plan| == 1 {
      RowsVisited(plan[0], y);
    } else {
      RowsVisited(plan[0], y);
      RowsVisited(plan[1], y);
    }
  }

  /** draw_filled_triangle: sorts the vertices with swaps, then runs the
      fill calls of the dispatch. */
  method DrawFilledTriangle(fb: FrameBuffer, x0: int, y0: int, x1: int, y1: int, x2: int, y2: int,
                            color: bv32, spans: SpanFn, step: Stepper)
    requires fb.Valid()
    modifies fb.cells
    ensures fb.cells[..] == fb.PaintSegments(old(fb.cells[..]),
      PlanSegments(Plan(Point(x0, y0), Point(x1, y1), Point(x2, y2)), spans), step, color)
  {
    ghost var plan := Plan(Point(x0, y0), Point(x1, y1), Point(x2, y2));
    var sx0, sy0, sx1, sy1, sx2, sy2 := SortVertices(x0, y0, x1, y1, x2, y2);
    ghost var s0, s1, s2 := Point(sx0, sy0), Point(sx1, sy1), Point(sx2, sy2);
    assert (s0, s1, s2) == SortByY(Point(x0, y0), Point(x1, y1), Point(x2, y2));
    if sy1 == sy2 {
      assert plan == [FlatBottom(s0, s1, s2)];
      FillFlatBottomTriangle(fb, sx0, sy0, sx1, sy1, sx2, sy2, color, spans, step);
      PlanSegmentsOne(plan[0], spans);
    } else if sy0 == sy1 {
      assert plan == [FlatTop(s0, s1, s2)];
      FillFlatTopTriangle(fb, sx0, sy0, sx1, sy1, sx2, sy2, color, spans, step);
      PlanSegmentsOne(plan[0], spans);
    } else {
      var my := sy1;
      var mx := TruncDiv((sx2 - sx0) * (sy1 - sy0), sy2 - sy0) + sx0;
      ghost var m := Point(mx, my);
      assert m == Midpoint(s0, s1, s2);
      assert plan == [FlatBottom(s0, s1, m), FlatTop(s1, m, s2)];
      ghost var start := fb.cells[..];
      FillFlatBottomTriangle(fb, sx0, sy0, sx1, sy1, mx, my, color, spans, step);
      ghost var first := FillSegments(plan[0], spans);
      FillFlatTopTriangle(fb, sx1, sy1, mx, my, sx2, sy2, color, spans, step);
      ghost var second := FillSegments(plan[1], spans);
      fb.PaintSegmentsAppend(start, first, second, step, color);
      PlanSegmentsTwo(plan[0], plan[1], spans);
    }
  }
}
