/** The rasterizer's frame buffer and the primitives that write it.

    The colour buffer is a row-major array of packed ARGB colours with
    `width * height` cells: the cell of screen position (x, y) is
    `width * y + x`. Every primitive writes through `DrawPixel`, which
    silently ignores positions off the screen. */
module Display {

  /** A screen position in pixels. */
  datatype Point = Point(x: int, y: int)

  /** A straight line to draw, from `from` to `to`. */
  datatype Segment = Segment(from: Point, to: Point)

  /** The position a line puts its i-th pixel at, for i >= 1: the rounded
      position reached after i float increments along the segment. The
      float arithmetic is not modelled, so this is a parameter. */
  type Stepper = (Segment, nat) -> Point

  /** Colour of the dotted background grid. */
  const GridColor: bv32 := 0xFF3A3B3C
  /** Distance in pixels between two grid dots. */
  const GridSpacing: int := 25

  function Abs(n: int): (r: nat)
    ensures r == n || r == -n
  {
    if n < 0 then -n else n
  }

  /** Number of increments a line takes: the longer of its two sides. */
  function LineLength(s: Segment): (r: nat)
    ensures r >= Abs(s.to.x - s.from.x) && r >= Abs(s.to.y - s.from.y)
    ensures r == Abs(s.to.x - s.from.x) || r == Abs(s.to.y - s.from.y)
  {
    var dx := Abs(s.to.x - s.from.x);
    var dy := Abs(s.to.y - s.from.y);
    if dx >= dy then dx else dy
  }

  /** The positions a line plots, in the order it plots them. */
  function LinePixels(s: Segment, step: Stepper): (r: seq<Point>)
    ensures |r| == LineLength(s) + 1 && r[0] == s.from
  {
    seq(LineLength(s) + 1, i requires 0 <= i => if i == 0 then s.from else step(s, i))
  }

  /** A line plots one pixel more than its length, starting at its first
      endpoint; every later pixel is the stepped position. */
  lemma LinePixelsShape(s: Segment, step: Stepper)
    ensures |LinePixels(s, step)| == LineLength(s) + 1
    ensures LinePixels(s, step)[0] == s.from
    ensures forall i :: 1 <= i < |LinePixels(s, step)| ==> LinePixels(s, step)[i] == step(s, i)
  {
  }

  /** A line whose endpoints coincide plots exactly its one endpoint: the
      0/0 increments of that case are never used. */
  lemma ZeroLengthLine(s: Segment, step: Stepper)
    requires s.from == s.to
    ensures LinePixels(s, step) == [s.from]
  {
  }

  /** The three edges of a wireframe triangle, in drawing order. */
  function TriangleEdges(p0: Point, p1: Point, p2: Point): (r: seq<Segment>)
    ensures |r| == 3
    ensures r[0].from == p0 && r[1].from == p1 && r[2].from == p2
    ensures r[0].to == r[1].from && r[1].to == r[2].from && r[2].to == r[0].from
  {
    [Segment(p0, p1), Segment(p1, p2), Segment(p2, p0)]
  }

  /** Multiplying by a natural keeps the order of the factors. */
  lemma MulMonotone(a: nat, b: int, c: int)
    requires b <= c
    ensures a * b <= a * c
  {
    var d: nat := c - b;
    assert a * c == a * b + a * d;
  }

  /** Integer division of naturals undoes the row-major layout. */
  lemma RowMajor(w: nat, h: nat, x: int, y: int)
    requires 0 <= x < w && 0 <= y < h
    ensures 0 <= w * y + x < w * h
    ensures (w * y + x) % w == x && (w * y + x) / w == y
  {
    var n := w * y + x;
    MulMonotone(w, y + 1, h);
    assert w * (y + 1) == w * y + w;
    var q, r := n / w, n % w;
    assert n == w * q + r && 0 <= r < w;
    if q > y {
      MulMonotone(w, y + 1, q);
    } else if q < y {
      MulMonotone(w, q + 1, y);
    }
  }

  class FrameBuffer {
    const width: nat
    const height: nat
    /** color_buffer: cell `width * y + x` holds the colour of (x, y). */
    const cells: array<bv32>

    ghost predicate Valid()
    {
      cells.Length == width * height
    }

    /** Allocates the colour buffer for a window of the given size. */
    constructor (w: nat, h: nat)
      ensures width == w && height == h
      ensures Valid() && fresh(cells)
    {
      width, height := w, h;
      cells := new bv32[w * h];
    }

    predicate InBounds(x: int, y: int)
    {
      0 <= x < width && 0 <= y < height
    }

    /** The cell of an on-screen position; the layout is row-major, so
        column and row can be read back from it. */
    function Index(x: int, y: int): (i: nat)
      requires InBounds(x, y)
      ensures i < width * height
      ensures i % width == x && i / width == y
    {
      RowMajor(width, height, x, y);
      width * y + x
    }

    /** The column of cell k. */
    function Col(k: int): (r: int)
      requires 0 <= k < width * height
    {
      k % width
    }

    /** The row of cell k. */
    function Row(k: int): (r: int)
      requires 0 <= k < width * height
    {
      k / width
    }

    /** Every cell is the cell of its own column and row, which lie on the
        screen. */
    lemma CellRoundTrip(k: int)
      requires 0 <= k < width * height
      ensures InBounds(Col(k), Row(k)) && Index(Col(k), Row(k)) == k
    {
      var c, r := k % width, k / width;
      assert k == width * r + c;
    }

    /** The buffer after one draw_pixel: the cell of (x, y) takes the colour
        when (x, y) is on the screen, and the buffer is unchanged
        otherwise. */
    function PutPixel(s: seq<bv32>, x: int, y: int, color: bv32): (r: seq<bv32>)
      requires |s| == width * height
      ensures |r| == |s|
      ensures InBounds(x, y) ==> r[Index(x, y)] == color
      ensures forall k :: 0 <= k < |s| && !(InBounds(x, y) && k == Index(x, y)) ==> r[k] == s[k]
    {
      if InBounds(x, y) then s[Index(x, y) := color] else s
    }

    /** The buffer after drawing the given positions one after another, all
        in one colour. */
    function Paint(s: seq<bv32>, pts: seq<Point>, color: bv32): (r: seq<bv32>)
      requires |s| == width * height
      ensures |r| == |s|
      ensures forall k :: 0 <= k < |s| ==> r[k] == s[k] || r[k] == color
    {
      if pts == [] then s
      else
        var last := pts[|pts| - 1];
        PutPixel(Paint(s, pts[..|pts| - 1], color), last.x, last.y, color)
    }

    /** Whether one of the positions falls on cell k. */
    ghost predicate Hits(pts: seq<Point>, k: int)
    {
      exists i :: 0 <= i < |pts| && InBounds(pts[i].x, pts[i].y) && Index(pts[i].x, pts[i].y) == k
    }

    /** Painting in one colour does not depend on order: a cell ends up in
        the colour exactly when some position falls on it, and keeps its
        old value otherwise. */
    lemma {:induction false} PaintCells(s: seq<bv32>, pts: seq<Point>, color: bv32)
      requires |s| == width * height
      ensures forall k :: 0 <= k < |s| ==> Paint(s, pts, color)[k] == if Hits(pts, k) then color else s[k]
    {
      if pts != [] {
        var init := pts[..|pts| - 1];
        var last := pts[|pts| - 1];
        PaintCells(s, init, color);
        forall k | 0 <= k < |s|
          ensures Paint(s, pts, color)[k] == if Hits(pts, k) then color else s[k]
        {
          if InBounds(last.x, last.y) && k == Index(last.x, last.y) {
            assert Hits(pts, k) by {
              assert pts[|pts| - 1] == last;
            }
          } else {
            if Hits(pts, k) {
              var i :| 0 <= i < |pts| && InBounds(pts[i].x, pts[i].y) && Index(pts[i].x, pts[i].y) == k;
              assert i < |pts| - 1;
              assert init[i] == pts[i];
              assert Hits(init, k);
            }
            if Hits(init, k) {
              var i :| 0 <= i < |init| && InBounds(init[i].x, init[i].y) && Index(init[i].x, init[i].y) == k;
              assert pts[i] == init[i];
            }
          }
        }
      }
    }

    /** The buffer after drawing the given lines one after another. */
    function PaintSegments(s: seq<bv32>, segs: seq<Segment>, step: Stepper, color: bv32): (r: seq<bv32>)
      requires |s| == width * height
      ensures |r| == |s|
      ensures forall k :: 0 <= k < |s| ==> r[k] == s[k] || r[k] == color
    {
      if segs == [] then s
      else Paint(PaintSegments(s, segs[..|segs| - 1], step, color), LinePixels(segs[|segs| - 1], step), color)
    }

    /** Drawing one more line of a run paints that line's pixels over the
        buffer left by the lines before it. */
    lemma PaintSegmentsPrefix(s: seq<bv32>, segs: seq<Segment>, n: int, step: Stepper, color: bv32)
      requires |s| == width * height && 0 <= n < |segs|
      ensures PaintSegments(s, segs[..n + 1], step, color) ==
        Paint(PaintSegments(s, segs[..n], step, color), LinePixels(segs[n], step), color)
    {
      assert segs[..n + 1][..n] == segs[..n];
    }

    /** Drawing two runs of lines is drawing the first run and then the
        second. */
    lemma {:induction false} PaintSegmentsAppend(s: seq<bv32>, a: seq<Segment>, b: seq<Segment>, step: Stepper, color: bv32)
      requires |s| == width * height
      ensures PaintSegments(s, a + b, step, color) == PaintSegments(PaintSegments(s, a, step, color), b, step, color)
    {
      if b == [] {
        assert a + b == a;
      } else {
        var init := b[..|b| - 1];
        PaintSegmentsAppend(s, a, init, step, color);
        assert (a + b)[..|a + b| - 1] == a + init;
        assert (a + b)[|a + b| - 1] == b[|b| - 1];
      }
    }

    /** draw_pixel: a bounds-checked write of one cell. */
    method DrawPixel(x: int, y: int, color: bv32)
      requires Valid()
      modifies cells
      ensures cells[..] == PutPixel(old(cells[..]), x, y, color)
    {
      if x >= 0 && x < width && y >= 0 && y < height {
        cells[Index(x, y)] := color;
      }
    }

    /** clear_color_buffer: every cell takes the colour. */
    method ClearColorBuffer(color: bv32)
      requires Valid()
      modifies cells
      ensures forall k :: 0 <= k < cells.Length ==> cells[k] == color
    {
      for y := 0 to height
        invariant forall k :: 0 <= k < cells.Length && k < width * y ==> cells[k] == color
      {
        for x := 0 to width
          invariant forall k :: 0 <= k < cells.Length && k < width * y + x ==> cells[k] == color
        {
          cells[Index(x, y)] := color;
        }
        assert width * y + width == width * (y + 1);
      }
    }

    /** Whether (x, y) carries a dot of the background grid. */
    predicate OnGrid(x: int, y: int)
    {
      x % GridSpacing == 0 && y % GridSpacing == 0
    }

    /** draw_grid: the cells whose column and row are both multiples of the
        spacing take the grid colour; all other cells are unchanged. */
    method DrawGrid()
      requires Valid()
      modifies cells
      ensures forall k :: 0 <= k < cells.Length ==>
        cells[k] == if OnGrid(Col(k), Row(k)) then GridColor else old(cells[k])
    {
      var color := GridColor;
      for y := 0 to height
        invariant forall k :: 0 <= k < cells.Length ==>
          cells[k] == if k < width * y && OnGrid(Col(k), Row(k)) then GridColor else old(cells[k])
      {
        for x := 0 to width
          invariant forall k :: 0 <= k < cells.Length ==>
            cells[k] == if k < width * y + x && OnGrid(Col(k), Row(k)) then GridColor else old(cells[k])
        {
          ghost var before := cells[..];
          if x % 25 == 0 && y % 25 == 0 {
            cells[Index(x, y)] := color;
          }
          forall k | 0 <= k < cells.Length
            ensures cells[k] == if k < width * y + x + 1 && OnGrid(Col(k), Row(k)) then GridColor else old(cells[k])
          {
            if k == Index(x, y) {
              assert Col(k) == x && Row(k) == y;
            } else {
              assert cells[k] == before[k];
            }
          }
        }
        assert width * y + width == width * (y + 1);
      }
    }

    /** Whether cell k lies in the rectangle of w columns from x and h rows
        from y. */
    predicate InRect(k: int, x: int, y: int, w: int, h: int)
      requires 0 <= k < width * height
    {
      x <= Col(k) < x + w && y <= Row(k) < y + h
    }

    /** draw_rect: the on-screen cells of the rectangle take the colour; all
        other cells are unchanged, and an empty rectangle changes nothing. */
    method DrawRect(x: int, y: int, w: int, h: int, color: bv32)
      requires Valid()
      modifies cells
      ensures forall k :: 0 <= k < cells.Length ==>
        cells[k] == if InRect(k, x, y, w, h) then color else old(cells[k])
      ensures w <= 0 || h <= 0 ==> cells[..] == old(cells[..])
    {
      var i := 0;
      while i < w
        invariant 0 <= i && (i == 0 || i <= w)
        invariant forall k :: 0 <= k < cells.Length ==>
          cells[k] == if InRect(k, x, y, i, h) then color else old(cells[k])
      {
        var j := 0;
        while j < h
          invariant 0 <= j && (j == 0 || j <= h)
          invariant forall k :: 0 <= k < cells.Length ==>
            cells[k] == if InRect(k, x, y, i, h) || (Col(k) == x + i && y <= Row(k) < y + j) then color else old(cells[k])
        {
          var currentX := x + i;
          var currentY := y + j;
          ghost var before := cells[..];
          DrawPixel(currentX, currentY, color);
          forall k | 0 <= k < cells.Length
            ensures cells[k] == if InRect(k, x, y, i, h) || (Col(k) == x + i && y <= Row(k) < y + j + 1) then color else old(cells[k])
          {
            CellRoundTrip(k);
            assert cells[k] == PutPixel(before, currentX, currentY, color)[k];
          }
          j := j + 1;
        }
        i := i + 1;
      }
    }

    /** draw_line: max(|dx|, |dy|) + 1 pixels, the first at (x0, y0). */
    method DrawLine(x0: int, y0: int, x1: int, y1: int, color: bv32, step: Stepper)
      requires Valid()
      modifies cells
      ensures cells[..] == Paint(old(cells[..]), LinePixels(Segment(Point(x0, y0), Point(x1, y1)), step), color)
    {
      var line := Segment(Point(x0, y0), Point(x1, y1));
      ghost var pixels := LinePixels(line, step);
      var deltaX := x1 - x0;
      var deltaY := y1 - y0;
      var longestSideLength := if Abs(deltaX) >= Abs(deltaY) then Abs(deltaX) else Abs(deltaY);
      for i := 0 to longestSideLength + 1
        invariant cells[..] == Paint(old(cells[..]), pixels[..i], color)
      {
        var current := if i == 0 then Point(x0, y0) else step(line, i);
        DrawPixel(current.x, current.y, color);
        assert pixels[..i + 1][..i] == pixels[..i];
      }
      assert pixels[..longestSideLength + 1] == pixels;
    }

    /** draw_triangle: the edges (p0, p1), (p1, p2), (p2, p0), in that
        order. */
    method DrawTriangle(x0: int, y0: int, x1: int, y1: int, x2: int, y2: int, color: bv32, step: Stepper)
      requires Valid()
      modifies cells
      ensures cells[..] == PaintSegments(old(cells[..]), TriangleEdges(Point(x0, y0), Point(x1, y1), Point(x2, y2)), step, color)
    {
      ghost var edges := TriangleEdges(Point(x0, y0), Point(x1, y1), Point(x2, y2));
      ghost var start := cells[..];
      DrawLine(x0, y0, x1, y1, color, step);
      assert edges[..1][..0] == [];
      assert cells[..] == PaintSegments(start, edges[..1], step, color);
      DrawLine(x1, y1, x2, y2, color, step);
      assert edges[..2][..1] == edges[..1];
      assert cells[..] == PaintSegments(start, edges[..2], step, color);
      DrawLine(x2, y2, x0, y0, color, step);
      assert edges[..3][..2] == edges[..2];
      assert edges[..3] == edges;
    }
  }
}
