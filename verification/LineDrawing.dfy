/** Drawing a line by halving it: which pixels are set, in which order, and that the halving ends. */
module LineDrawing {
  import opened Machine

  datatype Point = Point(x: int, y: int)

  function Abs(n: int): (a: nat) {
    if n < 0 then -n else n
  }

  /** C's division by two, which truncates toward zero. */
  function Half(n: int): int {
    if n >= 0 then n / 2 else -((-n) / 2)
  }

  function Middle(a: Point, b: Point): Point {
    Point(Half(a.x + b.x), Half(a.y + b.y))
  }

  function Square(n: int): int {
    n * n
  }

  predicate Close(a: Point, b: Point) {
    Square(a.x - b.x) + Square(a.y - b.y) <= 2
  }

  /** Steps of a king between two points. */
  function Steps(a: Point, b: Point): (n: nat) {
    Max(Abs(a.x - b.x), Abs(a.y - b.y))
  }

  lemma CloseIff(a: Point, b: Point)
    ensures Close(a, b) <==> Steps(a, b) <= 1
  {
    SquareAtLeast(a.x - b.x);
    SquareAtLeast(a.y - b.y);
  }

  lemma SquareAtLeast(n: int)
    ensures Square(n) >= 0
    ensures Abs(n) <= 1 ==> Square(n) <= 1
    ensures Abs(n) >= 2 ==> Square(n) >= 4
  {
    if n >= 2 {
      assert n * n >= 2 * n;
    } else if n <= -2 {
      assert n * n == (-n) * (-n) >= 2 * (-n);
    }
  }

  lemma MiddleCloser(a: Point, b: Point)
    requires !Close(a, b)
    ensures Steps(a, Middle(a, b)) < Steps(a, b) && Steps(Middle(a, b), b) < Steps(a, b)
    ensures Middle(a, b) != b
  {
    hide Square;
    CloseIff(a, b);
  }

  /** The pixels a line sets, in order. */
  function Points(a: Point, b: Point): (ps: seq<Point>)
    ensures |ps| > 0
    decreases Steps(a, b)
  {
    if Close(a, b) then [a]
    else
      MiddleCloser(a, b);
      Points(a, Middle(a, b)) + Points(Middle(a, b), b)
  }

  // ------------------------------------------------------------- shape of the chain

  predicate Between(n: int, a: int, b: int) {
    Min(a, b) <= n <= Max(a, b)
  }

  predicate InBox(p: Point, a: Point, b: Point) {
    Between(p.x, a.x, b.x) && Between(p.y, a.y, b.y)
  }

  /** Going from `a` toward `b`, a move from `p` to `q` never turns back. */
  predicate Onward(p: int, q: int, a: int, b: int) {
    (a <= b ==> p <= q) && (a >= b ==> p >= q)
  }

  ghost predicate InsideBox(ps: seq<Point>, a: Point, b: Point) {
    forall i :: 0 <= i < |ps| ==> InBox(ps[i], a, b)
  }

  /** Neighbours in the chain touch, and it never turns back in either coordinate. */
  ghost predicate Chain(ps: seq<Point>, a: Point, b: Point) {
    forall i :: 0 <= i < |ps| - 1 ==>
      && Steps(ps[i], ps[i + 1]) <= 1
      && Onward(ps[i].x, ps[i + 1].x, a.x, b.x) && Onward(ps[i].y, ps[i + 1].y, a.y, b.y)
  }

  lemma {:induction false} Ends(a: Point, b: Point)
    ensures Points(a, b)[0] == a
    ensures Steps(Points(a, b)[|Points(a, b)| - 1], b) <= 1
    ensures a != b ==> Points(a, b)[|Points(a, b)| - 1] != b
    decreases Steps(a, b)
  {
    hide Steps, Close;
    if Close(a, b) {
      CloseIff(a, b);
    } else {
      MiddleCloser(a, b);
      Ends(a, Middle(a, b));
      Ends(Middle(a, b), b);
    }
  }

  lemma MiddleInBox(a: Point, b: Point)
    ensures InBox(Middle(a, b), a, b)
  {
  }

  lemma BoxGrows(ps: seq<Point>, a: Point, b: Point, c: Point, d: Point)
    requires InsideBox(ps, a, b) && InBox(a, c, d) && InBox(b, c, d)
    ensures InsideBox(ps, c, d)
  {
    forall i | 0 <= i < |ps|
      ensures InBox(ps[i], c, d)
    {
      assert InBox(ps[i], a, b);
    }
  }

  lemma {:induction false} PointsInBox(a: Point, b: Point)
    ensures InsideBox(Points(a, b), a, b)
    decreases Steps(a, b)
  {
    hide Steps, Close, InBox;
    BoxCorners(a, b);
    if !Close(a, b) {
      var m := Middle(a, b);
      MiddleCloser(a, b);
      MiddleInBox(a, b);
      PointsInBox(a, m);
      PointsInBox(m, b);
      BoxGrows(Points(a, m), a, m, a, b);
      BoxGrows(Points(m, b), m, b, a, b);
    }
  }

  lemma BoxCorners(a: Point, b: Point)
    ensures InBox(a, a, b) && InBox(b, a, b)
  {
  }

  /** A move onward in one half of the line is a move onward in the line. */
  lemma OnwardWhole(p: Point, q: Point, c: Point, d: Point, a: Point, b: Point)
    requires (c == a && d == Middle(a, b)) || (c == Middle(a, b) && d == b)
    requires Onward(p.x, q.x, c.x, d.x) && Onward(p.y, q.y, c.y, d.y)
    ensures Onward(p.x, q.x, a.x, b.x) && Onward(p.y, q.y, a.y, b.y)
  {
  }

  lemma OnwardToEnd(p: Point, a: Point, b: Point)
    requires InBox(p, a, Middle(a, b))
    ensures Onward(p.x, Middle(a, b).x, a.x, b.x) && Onward(p.y, Middle(a, b).y, a.y, b.y)
  {
  }

  lemma {:induction false} PointsChain(a: Point, b: Point)
    ensures Chain(Points(a, b), a, b)
    decreases Steps(a, b)
  {
    hide Steps, Close, Half, Onward;
    if !Close(a, b) {
      var m := Middle(a, b);
      MiddleCloser(a, b);
      PointsChain(a, m);
      PointsChain(m, b);
      Ends(a, m);
      Ends(m, b);
      var ps, qs := Points(a, m), Points(m, b);
      PointsInBox(a, m);
      forall i | 0 <= i < |ps + qs| - 1
        ensures Steps((ps + qs)[i], (ps + qs)[i + 1]) <= 1
        ensures Onward((ps + qs)[i].x, (ps + qs)[i + 1].x, a.x, b.x)
        ensures Onward((ps + qs)[i].y, (ps + qs)[i + 1].y, a.y, b.y)
      {
        var p, q := (ps + qs)[i], (ps + qs)[i + 1];
        if i + 1 < |ps| {
          assert p == ps[i] && q == ps[i + 1];
          OnwardWhole(p, q, a, m, a, b);
        } else if i >= |ps| {
          assert p == qs[i - |ps|] && q == qs[i - |ps| + 1];
          OnwardWhole(p, q, m, b, a, b);
        } else {
          assert p == ps[|ps| - 1] && q == m;
          OnwardToEnd(p, a, b);
        }
      }
    }
  }

  /** The line is a chain of touching pixels from its first point to a point one step from its
      second, inside the box of the two, that never turns back. */
  lemma LineShape(a: Point, b: Point)
    ensures var ps := Points(a, b);
      && ps[0] == a && Steps(ps[|ps| - 1], b) <= 1
      && Chain(ps, a, b) && InsideBox(ps, a, b)
  {
    hide *;
    Ends(a, b);
    PointsInBox(a, b);
    PointsChain(a, b);
  }

  /** The second point itself is set only by a line of a single point. */
  lemma EndPointSetIff(a: Point, b: Point)
    ensures b in Points(a, b) <==> a == b
  {
    hide Close, Steps, Points;
    var ps := Points(a, b);
    Ends(a, b);
    if a != b && b in ps {
      var i :| 0 <= i < |ps| && ps[i] == b;
      PointsChain(a, b);
      PointsInBox(a, b);
      StuckAtEnd(ps, a, b, i);
      assert false;
    }
  }

  lemma {:induction false} StuckAtEnd(ps: seq<Point>, a: Point, b: Point, i: nat)
    requires Chain(ps, a, b) && InsideBox(ps, a, b) && i < |ps| && ps[i] == b
    ensures ps[|ps| - 1] == b
    decreases |ps| - i
  {
    hide Steps;
    if i + 1 < |ps| {
      assert InBox(ps[i + 1], a, b);
      StuckAtEnd(ps, a, b, i + 1);
    }
  }

  // ------------------------------------------------------------------ straight lines

  /** `n` steps of `d` from `a`. */
  function Along(a: Point, d: Point, n: int): Point {
    Point(a.x + n * d.x, a.y + n * d.y)
  }

  /** A line whose difference is `d` doubled `k` times is straight as far as `d` goes: it sets every
      point a whole number of `d` from its first, up to its second. */
  lemma {:induction false} StraightLine(a: Point, d: Point, k: nat, i: nat)
    requires i < Power2(k)
    ensures Along(a, d, i) in Points(a, Along(a, d, Power2(k)))
    decreases k
  {
    hide Close, Points, Middle;
    var b := Along(a, d, Power2(k));
    if k == 0 {
      Ends(a, b);
      assert Along(a, d, 0) == a == Points(a, b)[0];
    } else if Close(a, b) {
      StandsStill(a, d, k);
      Ends(a, b);
      assert Along(a, d, i) == a == Points(a, b)[0];
    } else {
      var h := Power2(k - 1);
      var m := Along(a, d, h);
      ExactMiddle(a, d, h);
      PointsSplit(a, b);
      Further(a, d, h, h);
      if i < h {
        StraightLine(a, d, k - 1, i);
      } else {
        StraightLine(m, d, k - 1, i - h);
        Further(a, d, h, i - h);
      }
    }
  }

  lemma PointsSplit(a: Point, b: Point)
    requires !Close(a, b)
    ensures Points(a, b) == Points(a, Middle(a, b)) + Points(Middle(a, b), b)
  {
    hide Close, Middle;
  }

  /** The middle of an even number of steps is exact. */
  lemma ExactMiddle(a: Point, d: Point, h: nat)
    ensures Middle(a, Along(a, d, 2 * h)) == Along(a, d, h)
  {
    Doubled(h, d.x);
    Doubled(h, d.y);
  }

  lemma Doubled(h: nat, n: int)
    ensures 2 * h * n == 2 * (h * n)
  {
  }

  lemma Further(a: Point, d: Point, m: int, n: int)
    ensures Along(Along(a, d, m), d, n) == Along(a, d, m + n)
  {
    Added(m, n, d.x);
    Added(m, n, d.y);
  }

  lemma Added(m: int, n: int, x: int)
    ensures m * x + n * x == (m + n) * x
  {
  }

  /** Two or more steps that end one step away are no steps. */
  lemma StandsStill(a: Point, d: Point, k: nat)
    requires k > 0 && Close(a, Along(a, d, Power2(k)))
    ensures d == Point(0, 0)
  {
    CloseIff(a, Along(a, d, Power2(k)));
    FarEnough(Power2(k), d.x);
    FarEnough(Power2(k), d.y);
  }

  lemma FarEnough(p: int, n: int)
    requires p >= 2
    ensures n >= 1 ==> p * n >= 2
    ensures n <= -1 ==> p * n <= -2
  {
    if n >= 1 {
      assert p * n == p + p * (n - 1);
    } else if n <= -1 {
      assert p * n == -p + p * (n + 1);
    }
  }

  // --------------------------------------------------------------------- the image

  const INT32_LIMIT: int := 0x8000_0000

  /** End points for which no sum, difference or square of the drawing leaves int32. */
  predicate InLimits(a: Point, b: Point) {
    && Abs(a.x) < INT32_LIMIT / 2 && Abs(a.y) < INT32_LIMIT / 2
    && Abs(b.x) < INT32_LIMIT / 2 && Abs(b.y) < INT32_LIMIT / 2
    && Square(a.x - b.x) + Square(a.y - b.y) < INT32_LIMIT
  }

  lemma SquareGrows(m: int, n: int)
    requires Abs(m) <= Abs(n)
    ensures Square(m) <= Square(n)
  {
    ProductGrows(Abs(m), Abs(n));
  }

  lemma {:induction false} ProductGrows(m: nat, n: nat)
    requires m <= n
    ensures m * m <= n * n
    decreases n
  {
    if m < n {
      ProductGrows(m, n - 1);
      assert n * n == (n - 1) * (n - 1) + 2 * n - 1;
    }
  }

  predicate IsInt32(n: int) {
    -INT32_LIMIT <= n < INT32_LIMIT
  }

  /** Within the limits every sum, difference, square and sum of squares of a call is an int32. */
  lemma NoOverflow(a: Point, b: Point)
    requires InLimits(a, b)
    ensures IsInt32(a.x + b.x) && IsInt32(a.y + b.y) && IsInt32(a.x - b.x) && IsInt32(a.y - b.y)
    ensures IsInt32(Square(a.x - b.x)) && IsInt32(Square(a.y - b.y))
    ensures IsInt32(Square(a.x - b.x) + Square(a.y - b.y))
  {
    hide Square;
    SquareAtLeast(a.x - b.x);
    SquareAtLeast(a.y - b.y);
  }

  /** The two halves of a line within the limits are within them, so no call of the drawing
      overflows. */
  lemma LimitsKept(a: Point, b: Point)
    requires InLimits(a, b)
    ensures InLimits(a, Middle(a, b)) && InLimits(Middle(a, b), b)
    ensures IsInt32(a.x + b.x) && IsInt32(a.y + b.y)
    ensures IsInt32(Square(a.x - b.x) + Square(a.y - b.y))
  {
    NoOverflow(a, b);
    hide Square;
    var m := Middle(a, b);
    MiddleInBox(a, b);
    SquareGrows(a.x - m.x, a.x - b.x);
    SquareGrows(a.y - m.y, a.y - b.y);
    SquareGrows(m.x - b.x, a.x - b.x);
    SquareGrows(m.y - b.y, a.y - b.y);
  }

  predicate InImage(p: Point, width: nat, height: nat) {
    0 <= p.x < width && 0 <= p.y < height
  }

  function Index(p: Point, width: nat): int {
    p.y * width + p.x
  }

  lemma IndexInside(p: Point, width: nat, height: nat)
    requires InImage(p, width, height)
    ensures 0 <= Index(p, width) < width * height
  {
    assert p.y * width <= (height - 1) * width;
  }

  /** Different pixels of an image have different places. */
  lemma IndexUnique(p: Point, q: Point, width: nat, height: nat)
    requires InImage(p, width, height) && InImage(q, width, height)
    requires Index(p, width) == Index(q, width)
    ensures p == q
  {
    if p.y < q.y {
      RowsApart(p.y, q.y, width);
    } else if q.y < p.y {
      RowsApart(q.y, p.y, width);
    }
  }

  lemma RowsApart(y: int, z: int, width: nat)
    requires y < z
    ensures y * width + width <= z * width
  {
    var d := z - y - 1;
    assert z * width == y * width + width + d * width;
  }

  function Put(data: seq<u32>, width: nat, height: nat, p: Point, pixel: u32): (after: seq<u32>)
    requires |data| == width * height
    ensures |after| == |data|
  {
    if InImage(p, width, height) then
      IndexInside(p, width, height);
      data[Index(p, width) := pixel]
    else data
  }

  /** The image after the points are set one after the other. */
  function Paint(data: seq<u32>, width: nat, height: nat, ps: seq<Point>, pixel: u32)
    : (after: seq<u32>)
    requires |data| == width * height
    ensures |after| == |data|
    decreases |ps|
  {
    if ps == [] then data
    else Paint(Put(data, width, height, ps[0], pixel), width, height, ps[1..], pixel)
  }

  lemma {:induction false} PaintTwice(data: seq<u32>, width: nat, height: nat,
                                      ps: seq<Point>, qs: seq<Point>, pixel: u32)
    requires |data| == width * height
    ensures Paint(data, width, height, ps + qs, pixel) ==
            Paint(Paint(data, width, height, ps, pixel), width, height, qs, pixel)
    decreases |ps|
  {
    hide Put;
    if ps == [] {
      assert ps + qs == qs;
    } else {
      assert (ps + qs)[0] == ps[0] && (ps + qs)[1..] == ps[1..] + qs;
      PaintTwice(Put(data, width, height, ps[0], pixel), width, height, ps[1..], qs, pixel);
    }
  }

  lemma PutAt(data: seq<u32>, width: nat, height: nat, p: Point, pixel: u32, q: Point)
    requires |data| == width * height && InImage(q, width, height)
    ensures 0 <= Index(q, width) < |data|
    ensures Put(data, width, height, p, pixel)[Index(q, width)] ==
            if p == q then pixel else data[Index(q, width)]
  {
    hide Index;
    IndexInside(q, width, height);
    if InImage(p, width, height) {
      IndexInside(p, width, height);
      if Index(p, width) == Index(q, width) {
        IndexUnique(p, q, width, height);
      }
    }
  }

  /** Painting changes exactly the painted pixels that lie in the image. */
  lemma {:induction false} PaintAt(data: seq<u32>, width: nat, height: nat, ps: seq<Point>,
                                   pixel: u32, q: Point)
    requires |data| == width * height && InImage(q, width, height)
    ensures 0 <= Index(q, width) < |data|
    ensures Paint(data, width, height, ps, pixel)[Index(q, width)] ==
            if q in ps then pixel else data[Index(q, width)]
    decreases |ps|
  {
    hide Index, Put;
    IndexInside(q, width, height);
    if ps != [] {
      PutAt(data, width, height, ps[0], pixel, q);
      PaintAt(Put(data, width, height, ps[0], pixel), width, height, ps[1..], pixel, q);
    }
  }

  class CommonImage {
    const width: nat
    const height: nat
    const isImage0: bool
    const data: array<u32>

    ghost predicate Valid()
      reads this
    {
      data.Length == width * height
    }

    constructor (width: nat, height: nat, isImage0: bool, data: array<u32>)
      requires data.Length == width * height
      ensures Valid() && this.data == data && this.width == width && this.height == height
      ensures this.isImage0 == isImage0
    {
      this.width, this.height, this.isImage0, this.data := width, height, isImage0, data;
    }

    /** `set_pixel_common_image`. */
    method SetPixel(x: int, y: int, pixel: u32) returns (ok: bool)
      requires Valid()
      modifies data
      ensures ok <==> isImage0 && InImage(Point(x, y), width, height)
      ensures data[..] ==
              if isImage0 then Put(old(data[..]), width, height, Point(x, y), pixel)
              else old(data[..])
    {
      hide Index;
      if !isImage0 || x >= width || y >= height || x < 0 || y < 0 {
        return false;
      }
      IndexInside(Point(x, y), width, height);
      data[Index(Point(x, y), width)] := pixel;
      ok := true;
    }

    /** `line_common_image`. */
    method Line(a: Point, b: Point, pixel: u32)
      requires Valid() && InLimits(a, b)
      modifies data
      ensures data[..] ==
              if isImage0 then Paint(old(data[..]), width, height, Points(a, b), pixel)
              else old(data[..])
      decreases Steps(a, b)
    {
      hide Steps, InLimits, Close, Put;
      var middle := Middle(a, b);
      if Close(a, b) {
        var _ := SetPixel(a.x, a.y, pixel);
        assert [a][1..] == [];
      } else {
        MiddleCloser(a, b);
        LimitsKept(a, b);
        PaintTwice(data[..], width, height, Points(a, middle), Points(middle, b), pixel);
        Line(a, middle, pixel);
        Line(middle, b, pixel);
      }
    }
  }
}
