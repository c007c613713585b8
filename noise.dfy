/** The obfuscation layer (Colorify): a square of random colour and random
    side is painted at every point of a 10-pixel grid, column by column.
    The four rand.Intn calls made at each grid point (red, green, blue, side)
    are modelled by one NoiseDraw, taken in visit order from a pre-drawn
    sequence. */
module NoiseLayer {
  import opened Geometry
  import opened Canvas

  const GridStep: int := 10
  /** rand.Intn(25) bounds the side of a square. */
  const SideBound: int := 25
  /** rand.Intn(255) bounds each colour channel. */
  const ChannelBound: int := 255

  datatype NoiseDraw = NoiseDraw(r: int, g: int, b: int, side: int)

  predicate ValidDraw(d: NoiseDraw) {
    && 0 <= d.r < ChannelBound
    && 0 <= d.g < ChannelBound
    && 0 <= d.b < ChannelBound
    && 0 <= d.side < SideBound
  }

  predicate ValidDraws(draws: seq<NoiseDraw>) {
    forall i :: 0 <= i < |draws| ==> ValidDraw(draws[i])
  }

  /** One painted square: its top-left corner, its side and its colour. */
  datatype Square = Square(origin: Point, side: int, color: Rgba) {
    /** image.Rect(x, y, x+side, y+side) */
    function Area(): Rect {
      MakeRect(origin.x, origin.y, origin.x + side, origin.y + side)
    }

    predicate Covers(p: Point) {
      Area().Contains(p)
    }
  }

  /** Go's byte(v) conversion: the low eight bits. */
  function ToByte(v: int): Byte {
    v % 256
  }

  /** The square painted at grid point p with draw d; alpha is always 255. */
  function SquareAt(p: Point, d: NoiseDraw): Square {
    Square(p, d.side, Rgba(ToByte(d.r), ToByte(d.g), ToByte(d.b), 255))
  }

  /** The inner loop's points: (x, y), (x, y + 10), ... while below h. */
  function Column(x: int, y: int, h: int): seq<Point>
    decreases h - y
  {
    if y >= h then [] else [Point(x, y)] + Column(x, y + GridStep, h)
  }

  /** The outer loop's columns: x, x + 10, ... while below w. */
  function ColumnsFrom(x: int, w: int, h: int): seq<Point>
    decreases w - x
  {
    if x >= w then [] else Column(x, 0, h) + ColumnsFrom(x + GridStep, w, h)
  }

  /** The grid points of a w-by-h image, in the order Colorify visits them. */
  function Grid(w: int, h: int): seq<Point> {
    ColumnsFrom(0, w, h)
  }

  /** The squares painted at the given points, pairing the i-th point with
      the i-th draw. */
  function NoiseSquares(points: seq<Point>, draws: seq<NoiseDraw>): (squares: seq<Square>)
    requires |points| <= |draws|
    ensures |squares| == |points|
    decreases |points|
  {
    if points == [] then []
    else
      var n := |points| - 1;
      NoiseSquares(points[..n], draws) + [SquareAt(points[n], draws[n])]
  }

  /** The squares Colorify paints on a w-by-h image, in painting order. */
  function Noise(w: int, h: int, draws: seq<NoiseDraw>): seq<Square>
    requires |draws| == |Grid(w, h)|
  {
    NoiseSquares(Grid(w, h), draws)
  }

  /** The colour of pixel p after painting the squares in order over a pixel
      that held background: the last square drawn wins. */
  function Paint(squares: seq<Square>, p: Point, background: Rgba): Rgba
    decreases |squares|
  {
    if squares == [] then background
    else
      var last := squares[|squares| - 1];
      if last.Covers(p) then last.color else Paint(squares[..|squares| - 1], p, background)
  }

  // ---------------------------------------------------------------------
  // The grid

  lemma {:induction false} ColumnMembership(x: int, y: int, h: int, p: Point)
    requires 0 <= y && y % GridStep == 0
    ensures p in Column(x, y, h) <==> p.x == x && y <= p.y < h && p.y % GridStep == 0
    decreases h - y
  {
    if y < h {
      ColumnMembership(x, y + GridStep, h, p);
    }
  }

  lemma {:induction false} ColumnsMembership(x: int, w: int, h: int, p: Point)
    requires 0 <= x && x % GridStep == 0
    ensures p in ColumnsFrom(x, w, h) <==>
              x <= p.x < w && p.x % GridStep == 0 && 0 <= p.y < h && p.y % GridStep == 0
    decreases w - x
  {
    if x < w {
      ColumnMembership(x, 0, h, p);
      ColumnsMembership(x + GridStep, w, h, p);
    }
  }

  /** Colorify visits exactly the points inside the image whose coordinates
      are both multiples of 10. */
  lemma GridMembership(w: int, h: int, p: Point)
    ensures p in Grid(w, h) <==>
              0 <= p.x < w && 0 <= p.y < h && p.x % GridStep == 0 && p.y % GridStep == 0
  {
    ColumnsMembership(0, w, h, p);
  }

  /** x-major order: a smaller column first, and within a column a smaller row. */
  predicate Before(a: Point, b: Point) {
    a.x < b.x || (a.x == b.x && a.y < b.y)
  }

  predicate VisitOrdered(s: seq<Point>) {
    forall i, j :: 0 <= i < j < |s| ==> Before(s[i], s[j])
  }

  lemma {:induction false} ColumnOrdered(x: int, y: int, h: int)
    ensures VisitOrdered(Column(x, y, h))
    ensures forall p :: p in Column(x, y, h) ==> p.x == x && y <= p.y
    decreases h - y
  {
    if y < h {
      ColumnOrdered(x, y + GridStep, h);
      var s := Column(x, y, h);
      assert s == [Point(x, y)] + Column(x, y + GridStep, h);
      forall i, j | 0 <= i < j < |s| ensures Before(s[i], s[j]) {
        assert s[j] in Column(x, y + GridStep, h);
        if i > 0 {
          assert s[i] == Column(x, y + GridStep, h)[i - 1];
          assert s[j] == Column(x, y + GridStep, h)[j - 1];
        }
      }
    }
  }

  lemma ConcatOrdered(a: seq<Point>, b: seq<Point>)
    requires VisitOrdered(a) && VisitOrdered(b)
    requires forall p, q :: p in a && q in b ==> Before(p, q)
    ensures VisitOrdered(a + b)
  {
    var s := a + b;
    forall i, j | 0 <= i < j < |s| ensures Before(s[i], s[j]) {
      if j < |a| {
        assert s[i] == a[i] && s[j] == a[j];
      } else if i >= |a| {
        assert s[i] == b[i - |a|] && s[j] == b[j - |a|];
      } else {
        assert s[i] in a && s[j] in b;
      }
    }
  }

  lemma {:induction false} ColumnsOrdered(x: int, w: int, h: int)
    requires 0 <= x && x % GridStep == 0
    ensures VisitOrdered(ColumnsFrom(x, w, h))
    decreases w - x
  {
    if x < w {
      ColumnOrdered(x, 0, h);
      ColumnsOrdered(x + GridStep, w, h);
      forall p, q | p in Column(x, 0, h) && q in ColumnsFrom(x + GridStep, w, h)
        ensures Before(p, q)
      {
        ColumnsMembership(x + GridStep, w, h, q);
      }
      ConcatOrdered(Column(x, 0, h), ColumnsFrom(x + GridStep, w, h));
    }
  }

  /** The visit order is x-major, then y: strictly increasing in (x, y). */
  lemma GridOrdered(w: int, h: int)
    ensures VisitOrdered(Grid(w, h))
  {
    ColumnsOrdered(0, w, h);
  }

  /** Grid lines along a side of n pixels. */
  function Cells(n: int): int {
    (n + GridStep - 1) / GridStep
  }

  lemma {:induction false} ColumnSize(x: int, y: int, h: int)
    requires y <= h
    ensures |Column(x, y, h)| == Cells(h - y)
    decreases h - y
  {
    if y < h {
      if y + GridStep <= h {
        ColumnSize(x, y + GridStep, h);
      }
    }
  }

  lemma {:induction false} ColumnsSize(x: int, w: int, h: int)
    requires x <= w && 0 <= h
    ensures |ColumnsFrom(x, w, h)| == Cells(w - x) * Cells(h)
    decreases w - x
  {
    if x < w {
      ColumnSize(x, 0, h);
      if x + GridStep <= w {
        ColumnsSize(x + GridStep, w, h);
        assert Cells(w - x) == Cells(w - x - GridStep) + 1;
        assert Cells(w - x) * Cells(h) == Cells(w - x - GridStep) * Cells(h) + Cells(h);
      } else {
        assert Cells(w - x) == 1;
      }
    }
  }

  /** A w-by-h image has ceil(w/10) * ceil(h/10) grid points; 200 for the
      200-by-100 canvas. */
  lemma GridSize(w: int, h: int)
    requires 0 <= w && 0 <= h
    ensures |Grid(w, h)| == Cells(w) * Cells(h)
    ensures w == 200 && h == 100 ==> |Grid(w, h)| == 200
  {
    ColumnsSize(0, w, h);
  }

  // ---------------------------------------------------------------------
  // The squares

  /** Every square Colorify paints sits at a grid point, has a side in
      [0, 25), is opaque, and has each colour channel in [0, 254]. */
  lemma NoiseShape(w: int, h: int, draws: seq<NoiseDraw>, i: int)
    requires |draws| == |Grid(w, h)| && ValidDraws(draws)
    requires 0 <= i < |draws|
    ensures var sq := Noise(w, h, draws)[i];
      && 0 <= sq.origin.x < w && 0 <= sq.origin.y < h
      && sq.origin.x % GridStep == 0 && sq.origin.y % GridStep == 0
      && 0 <= sq.side < SideBound
      && sq.color.a == 255
      && sq.color.r < ChannelBound && sq.color.g < ChannelBound && sq.color.b < ChannelBound
      && sq.color.r == draws[i].r && sq.color.g == draws[i].g && sq.color.b == draws[i].b
  {
    GridMembership(w, h, Grid(w, h)[i]);
    NoiseSquaresAt(Grid(w, h), draws, i);
  }

  /** A square covers only pixels in the 25-by-25 block at its corner. */
  lemma CoverReach(sq: Square, p: Point)
    requires 0 <= sq.side < SideBound
    requires sq.Covers(p)
    ensures sq.origin.x <= p.x < sq.origin.x + SideBound - 1
    ensures sq.origin.y <= p.y < sq.origin.y + SideBound - 1
  {
  }

  /** A square of side 0 covers no pixel. */
  lemma ZeroSideCoversNothing(sq: Square, p: Point)
    requires sq.side == 0
    ensures !sq.Covers(p)
  {
  }

  // ---------------------------------------------------------------------
  // Painting: last writer wins

  /** A pixel takes the colour of the last square, in painting order, that
      covers it. */
  lemma {:induction false} PaintLastCover(squares: seq<Square>, p: Point, background: Rgba, k: int)
    requires 0 <= k < |squares| && squares[k].Covers(p)
    requires forall j :: k < j < |squares| ==> !squares[j].Covers(p)
    ensures Paint(squares, p, background) == squares[k].color
    decreases |squares|
  {
    if k < |squares| - 1 {
      var init := squares[..|squares| - 1];
      PaintLastCover(init, p, background, k);
    }
  }

  /** A pixel that no square covers keeps its colour. */
  lemma {:induction false} PaintUncovered(squares: seq<Square>, p: Point, background: Rgba)
    requires forall j :: 0 <= j < |squares| ==> !squares[j].Covers(p)
    ensures Paint(squares, p, background) == background
    decreases |squares|
  {
    if squares != [] {
      PaintUncovered(squares[..|squares| - 1], p, background);
    }
  }

  /** Removing a square that does not cover p does not change p. */
  lemma {:induction false} PaintSkips(before: seq<Square>, sq: Square, after: seq<Square>, p: Point, background: Rgba)
    requires !sq.Covers(p)
    ensures Paint(before + [sq] + after, p, background) == Paint(before + after, p, background)
    decreases |after|
  {
    if after == [] {
      assert before + [sq] + after == before + [sq];
      assert (before + [sq])[..|before|] == before;
      assert before + after == before;
    } else {
      var n := |after| - 1;
      assert before + [sq] + after == (before + [sq] + after[..n]) + [after[n]];
      assert before + after == (before + after[..n]) + [after[n]];
      PaintSkips(before, sq, after[..n], p, background);
    }
  }

  /** A square of side 0 changes no pixel. */
  lemma ZeroSideInvisible(before: seq<Square>, sq: Square, after: seq<Square>, p: Point, background: Rgba)
    requires sq.side == 0
    ensures Paint(before + [sq] + after, p, background) == Paint(before + after, p, background)
  {
    ZeroSideCoversNothing(sq, p);
    PaintSkips(before, sq, after, p, background);
  }

  /** Over an opaque background, opaque squares leave every pixel opaque. */
  lemma {:induction false} PaintOpaque(squares: seq<Square>, p: Point, background: Rgba)
    requires background.a == 255
    requires forall j :: 0 <= j < |squares| ==> squares[j].color.a == 255
    ensures Paint(squares, p, background).a == 255
    decreases |squares|
  {
    if squares != [] {
      PaintOpaque(squares[..|squares| - 1], p, background);
    }
  }

  /** Painting one more square: it wins where it covers, elsewhere nothing
      changes. */
  lemma PaintSnoc(squares: seq<Square>, sq: Square, p: Point, background: Rgba)
    ensures Paint(squares + [sq], p, background)
         == if sq.Covers(p) then sq.color else Paint(squares, p, background)
  {
    assert (squares + [sq])[..|squares|] == squares;
  }

  /** Extending a column's end by one step adds one point at its bottom. */
  lemma {:induction false} ColumnSnoc(x: int, y0: int, y: int)
    requires y0 <= y && (y - y0) % GridStep == 0
    ensures Column(x, y0, y + GridStep) == Column(x, y0, y) + [Point(x, y)]
    decreases y - y0
  {
    if y0 < y {
      ColumnSnoc(x, y0 + GridStep, y);
      assert Column(x, y0, y + GridStep)
          == [Point(x, y0)] + (Column(x, y0 + GridStep, y) + [Point(x, y)]);
    }
  }

  /** A column ending anywhere in (h - 10, h] past its last point is the same. */
  lemma {:induction false} ColumnCut(x: int, y0: int, y: int, h: int)
    requires y0 <= y && (y - y0) % GridStep == 0 && h <= y < h + GridStep
    ensures Column(x, y0, y) == Column(x, y0, h)
    decreases y - y0
  {
    if y0 < h {
      ColumnCut(x, y0 + GridStep, y, h);
    }
  }

  /** Extending the outer loop's end by one step adds one whole column. */
  lemma {:induction false} ColumnsSnoc(x0: int, x: int, h: int)
    requires x0 <= x && (x - x0) % GridStep == 0
    ensures ColumnsFrom(x0, x + GridStep, h) == ColumnsFrom(x0, x, h) + Column(x, 0, h)
    ensures |ColumnsFrom(x0, x + GridStep, h)| == |ColumnsFrom(x0, x, h)| + |Column(x, 0, h)|
    decreases x - x0
  {
    if x0 < x {
      ColumnsSnoc(x0 + GridStep, x, h);
      assert ColumnsFrom(x0, x + GridStep, h)
          == Column(x0, 0, h) + (ColumnsFrom(x0 + GridStep, x, h) + Column(x, 0, h));
    } else {
      assert ColumnsFrom(x0, x + GridStep, h) == Column(x, 0, h) + [];
    }
  }

  /** The outer loop ending anywhere in (w - 10, w] past its last column
      visits the same points. */
  lemma {:induction false} ColumnsCut(x0: int, x: int, w: int, h: int)
    requires x0 <= x && (x - x0) % GridStep == 0 && w <= x < w + GridStep
    ensures ColumnsFrom(x0, x, h) == ColumnsFrom(x0, w, h)
    decreases x - x0
  {
    if x0 < w {
      ColumnsCut(x0 + GridStep, x, w, h);
    }
  }

  /** One more point adds the square drawn there with the next draw. */
  lemma NoiseSquaresSnoc(points: seq<Point>, p: Point, draws: seq<NoiseDraw>)
    requires |points| < |draws|
    ensures NoiseSquares(points + [p], draws)
         == NoiseSquares(points, draws) + [SquareAt(p, draws[|points|])]
  {
    assert (points + [p])[..|points|] == points;
  }

  /** The i-th noise square is drawn at the i-th point with the i-th draw. */
  lemma {:induction false} NoiseSquaresAt(points: seq<Point>, draws: seq<NoiseDraw>, i: int)
    requires |points| <= |draws| && 0 <= i < |points|
    ensures NoiseSquares(points, draws)[i] == SquareAt(points[i], draws[i])
    decreases |points|
  {
    var n := |points| - 1;
    if i < n {
      NoiseSquaresAt(points[..n], draws, i);
    }
  }

  // ---------------------------------------------------------------------
  // Colorify

  /** Painting S and then T over a pixel is painting T over the result of S. */
  lemma {:induction false} PaintAppend(s: seq<Square>, t: seq<Square>, p: Point, background: Rgba)
    ensures Paint(s + t, p, background) == Paint(t, p, Paint(s, p, background))
    decreases |t|
  {
    if t == [] {
      assert s + t == s;
    } else {
      var n := |t| - 1;
      assert s + t == (s + t[..n]) + [t[n]];
      PaintSnoc(s + t[..n], t[n], p, background);
      PaintSnoc(t[..n], t[n], p, Paint(s, p, background));
      assert t == t[..n] + [t[n]];
      PaintAppend(s, t[..n], p, background);
    }
  }

  /** The squares of two runs of points are the squares of the first run
      followed by those of the second, which takes the draws after the first's. */
  lemma {:induction false} NoiseSquaresAppend(a: seq<Point>, b: seq<Point>, draws: seq<NoiseDraw>)
    requires |a| + |b| <= |draws|
    ensures NoiseSquares(a + b, draws) == NoiseSquares(a, draws) + NoiseSquares(b, draws[|a|..])
    decreases |b|
  {
    if b == [] {
      assert a + b == a;
    } else {
      var n := |b| - 1;
      assert a + b == (a + b[..n]) + [b[n]];
      NoiseSquaresSnoc(a + b[..n], b[n], draws);
      NoiseSquaresSnoc(b[..n], b[n], draws[|a|..]);
      assert b == b[..n] + [b[n]];
      NoiseSquaresAppend(a, b[..n], draws);
    }
  }

  /** The inner loop of Colorify: paints the squares of column x, top to
      bottom, taking one draw per grid point. */
  method PaintColumn(img: Image, x: int, draws: seq<NoiseDraw>)
    requires img.Valid()
    requires |Column(x, 0, img.height)| <= |draws|
    modifies img.pix
    ensures forall px, py :: 0 <= px < img.width && 0 <= py < img.height ==>
              img.pix[px, py] == Paint(NoiseSquares(Column(x, 0, img.height), draws), Point(px, py), old(img.pix[px, py]))
  {
    var w, h := img.width, img.height;
    ghost var painted: seq<Square> := [];
    var j := 0;
    var y := 0;
    while y < h
      invariant 0 <= y < h + GridStep && y % GridStep == 0
      invariant j == |Column(x, 0, y)|
      invariant j + |Column(x, y, h)| == |Column(x, 0, h)|
      invariant painted == NoiseSquares(Column(x, 0, y), draws)
      invariant forall px, py :: 0 <= px < w && 0 <= py < h ==>
                  img.pix[px, py] == Paint(painted, Point(px, py), old(img.pix[px, py]))
      decreases h - y
    {
      var sq := SquareAt(Point(x, y), draws[j]);
      img.DrawUniform(sq.Area(), sq.color);
      forall px, py | 0 <= px < w && 0 <= py < h
        ensures img.pix[px, py] == Paint(painted + [sq], Point(px, py), old(img.pix[px, py]))
      {
        PaintSnoc(painted, sq, Point(px, py), old(img.pix[px, py]));
      }
      ColumnSnoc(x, 0, y);
      NoiseSquaresSnoc(Column(x, 0, y), Point(x, y), draws);
      painted := painted + [sq];
      j := j + 1;
      y := y + GridStep;
    }
    ColumnCut(x, 0, y, h);
  }

  /** Colorify: for x = 0, 10, ... below the width and, inside, y = 0, 10, ...
      below the height, paints SquareAt((x, y), next draw) clipped to the
      image. Every pixel ends up as Paint of the noise squares over its old
      colour. */
  method Colorify(img: Image, draws: seq<NoiseDraw>)
    requires img.Valid()
    requires |draws| == |Grid(img.width, img.height)| && ValidDraws(draws)
    modifies img.pix
    ensures forall x, y :: 0 <= x < img.width && 0 <= y < img.height ==>
              img.pix[x, y] == Paint(Noise(img.width, img.height, draws), Point(x, y), old(img.pix[x, y]))
  {
    var w, h := img.width, img.height;
    var k := 0;
    var x := 0;
    while x < w
      invariant 0 <= x < w + GridStep && x % GridStep == 0
      invariant k == |ColumnsFrom(0, x, h)|
      invariant k + |ColumnsFrom(x, w, h)| == |draws|
      invariant forall px, py :: 0 <= px < w && 0 <= py < h ==>
                  img.pix[px, py] == Paint(NoiseSquares(ColumnsFrom(0, x, h), draws), Point(px, py), old(img.pix[px, py]))
      decreases w - x
    {
      ColumnsSnoc(0, x, h);
      assert |ColumnsFrom(x, w, h)| == |Column(x, 0, h)| + |ColumnsFrom(x + GridStep, w, h)|;
      label BeforeColumn:
      PaintColumn(img, x, draws[k..]);
      NoiseSquaresAppend(ColumnsFrom(0, x, h), Column(x, 0, h), draws);
      forall px, py | 0 <= px < w && 0 <= py < h
        ensures img.pix[px, py]
             == Paint(NoiseSquares(ColumnsFrom(0, x + GridStep, h), draws), Point(px, py), old(img.pix[px, py]))
      {
        var before := NoiseSquares(ColumnsFrom(0, x, h), draws);
        assert old@BeforeColumn(img.pix[px, py]) == Paint(before, Point(px, py), old(img.pix[px, py]));
        PaintAppend(before, NoiseSquares(Column(x, 0, h), draws[k..]), Point(px, py), old(img.pix[px, py]));
      }
      k := k + |Column(x, 0, h)|;
      x := x + GridStep;
    }
    ColumnsCut(0, x, w, h);
  }
}
