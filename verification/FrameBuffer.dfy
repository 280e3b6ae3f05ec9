// The frame buffer and its integer line drawing loop.

module FrameBuffer {
  import opened Line

  datatype Color = Color(b: bv8, g: bv8, r: bv8, a: bv8)

  class FrameBuffer {
    const base: array<Color>
    const width: Coord
    const height: Coord
    const effectivePitch: Coord    // in pixels
    ghost var calls: seq<Point>    // every set_pixel so far

    // The buffer covers the screen and fits the address space.
    ghost predicate Valid()
    {
      && width <= effectivePitch
      && base.Length == height * effectivePitch < 0x8000_0000
    }

    predicate OnScreen(p: Point) { 0 <= p.x < width && 0 <= p.y < height }

    function Index(p: Point): int { p.y * effectivePitch + p.x }

    constructor (base: array<Color>, w: Coord, h: Coord, pitch: Coord)
      requires w <= pitch && base.Length == h * pitch < 0x8000_0000
      ensures Valid() && this.base == base && width == w && height == h && effectivePitch == pitch
      ensures calls == []
    {
      this.base, width, height, effectivePitch := base, w, h, pitch;
      calls := [];
    }

    // The first pixel is the first cell, its right neighbour the next one, and the pixel below
    // stands one pitch further on.
    lemma CellsInRows(x: int, y: int)
      ensures Index(Point(0, 0)) == 0
      ensures Index(Point(x + 1, y)) == Index(Point(x, y)) + 1
      ensures Index(Point(x, y + 1)) == Index(Point(x, y)) + effectivePitch
    {
      assert (y + 1) * effectivePitch == y * effectivePitch + effectivePitch;
    }

    lemma IndexInRange(p: Point)
      requires Valid() && OnScreen(p)
      ensures 0 <= Index(p) < base.Length
    {
      MulMonotone(p.y + 1, height, effectivePitch);
      assert (p.y + 1) * effectivePitch == p.y * effectivePitch + effectivePitch;
      assert p.y * effectivePitch >= 0;
    }

    // Different pixels of the screen are different cells.
    lemma IndexIsInjective(p: Point, q: Point)
      requires Valid() && OnScreen(p) && OnScreen(q) && Index(p) == Index(q)
      ensures p == q
    {
      QuotientIsUnique(Index(p), effectivePitch, p.y);
      QuotientIsUnique(Index(q), effectivePitch, q.y);
    }

    // The cells after one set_pixel call.
    function Written(cells: seq<Color>, p: Point, color: Color): seq<Color> {
      if 0 <= Index(p) < |cells| then cells[Index(p) := color] else cells
    }

    // Off the screen the address is computed just the same; behind the buffer it is other memory.
    method SetPixel(x: Coord, y: Coord, color: Color)
      modifies base, this`calls
      ensures base[..] == Written(old(base[..]), Point(x, y), color)
      ensures forall i | 0 <= i < base.Length ::
                base[i] == if i == y * effectivePitch + x then color else old(base[i])
      ensures calls == old(calls) + [Point(x, y)]
    {
      var idx := y * effectivePitch + x;
      if 0 <= idx < base.Length {
        base[idx] := color;
      }
      calls := calls + [Point(x, y)];
    }

    // The cells after a sequence of set_pixel calls.
    ghost predicate Painted(before: seq<Color>, after: seq<Color>, ps: seq<Point>, color: Color)
    {
      && |after| == |before| == base.Length
      && (forall k | 0 <= k < |ps| :: 0 <= Index(ps[k]) < |after| ==> after[Index(ps[k])] == color)
      && (forall i | 0 <= i < |after| && (forall k | 0 <= k < |ps| :: Index(ps[k]) != i) :: after[i] == before[i])
    }

    lemma PaintOneMore(before: seq<Color>, mid: seq<Color>, ps: seq<Point>, p: Point, color: Color)
      requires Painted(before, mid, ps, color)
      ensures Painted(before, Written(mid, p, color), ps + [p], color)
    {
      var after := Written(mid, p, color);
      var ps' := ps + [p];
      assert forall k | 0 <= k < |ps| :: ps'[k] == ps[k];
      forall i | 0 <= i < |after| && (forall k | 0 <= k < |ps'| :: Index(ps'[k]) != i)
        ensures after[i] == before[i]
      {
        assert Index(ps'[|ps|]) != i;
      }
    }

    // After the first k pixels of the line.
    ghost predicate Drawn(before: seq<Color>, now: seq<Color>, s: Segment, k: nat, color: Color,
                          calledBefore: seq<Point>, called: seq<Point>)
      requires k <= Length(s) + 1
    {
      Painted(before, now, Pixels(s)[..k], color) && called == calledBefore + Pixels(s)[..k]
    }

    lemma DrawOneMore(before: seq<Color>, now: seq<Color>, s: Segment, k: nat, color: Color,
                      calledBefore: seq<Point>, called: seq<Point>)
      requires k <= Length(s) && Drawn(before, now, s, k, color, calledBefore, called)
      ensures Drawn(before, Written(now, PixelAt(s, k), color), s, k + 1, color, calledBefore, called + [PixelAt(s, k)])
    {
      assert Pixels(s)[..k + 1] == Pixels(s)[..k] + [PixelAt(s, k)];
      PaintOneMore(before, now, Pixels(s)[..k], PixelAt(s, k), color);
      assert calledBefore + Pixels(s)[..k] + [PixelAt(s, k)] == calledBefore + (Pixels(s)[..k] + [PixelAt(s, k)]);
    }

    lemma DrawnToTheEnd(before: seq<Color>, now: seq<Color>, s: Segment, color: Color,
                        calledBefore: seq<Point>, called: seq<Point>)
      requires Drawn(before, now, s, Length(s) + 1, color, calledBefore, called)
      ensures Painted(before, now, Pixels(s), color) && called == calledBefore + Pixels(s)
    {
      assert Pixels(s)[..Length(s) + 1] == Pixels(s);
    }

    lemma OnScreenLine(s: Segment, k: nat)
      requires Valid() && OnScreen(Point(s.x0, s.y0)) && OnScreen(Point(s.x1, s.y1)) && k <= Length(s)
      ensures OnScreen(PixelAt(s, k)) && 0 <= Index(PixelAt(s, k)) < base.Length
    {
      StaysInTheBox(s, k);
      IndexInRange(PixelAt(s, k));
    }

    // Read back by screen position: the line has the color, everything else what it had.
    lemma OnlyTheLineIsPainted(before: seq<Color>, after: seq<Color>, s: Segment, color: Color, p: Point)
      requires Valid() && s.x0 < width && s.y0 < height && s.x1 < width && s.y1 < height
      requires Painted(before, after, Pixels(s), color) && 0 <= p.x < width && 0 <= p.y < height
      ensures 0 <= p.y * effectivePitch + p.x < |after|
      ensures after[p.y * effectivePitch + p.x] == if p in Pixels(s) then color else before[p.y * effectivePitch + p.x]
    {
      IndexInRange(p);
      forall k | 0 <= k <= Length(s) ensures Index(PixelAt(s, k)) == Index(p) ==> PixelAt(s, k) == p {
        OnScreenLine(s, k);
        if Index(PixelAt(s, k)) == Index(p) {
          IndexIsInjective(PixelAt(s, k), p);
        }
      }
    }

    // Stops exactly on the second endpoint, after one set_pixel call for each pixel of the
    // closed-form line, in order, for all endpoints; every cell off the line keeps its color.
    method DrawLineQuick(s: Segment, color: Color)
      modifies base, this`calls
      ensures calls == old(calls) + Pixels(s)
      ensures Painted(old(base[..]), base[..], Pixels(s), color)
    {
      var x0: int, y0: int := s.x0, s.y0;
      var x1, y1 := s.x1, s.y1;
      var dx: int := Abs(x1 - x0);
      var dy: int := Abs(y1 - y0);
      var err := dx - dy;
      ghost var k: nat := 0;
      ghost var before := base[..];
      StandsFirst(s);
      while true
        invariant k <= Length(s) && (x0, y0, err) == Standing(s, k)
        invariant Drawn(before, base[..], s, k, color, old(calls), calls)
        decreases Length(s) - k
      {
        StandsOnPixel(s, k, x0, y0, err);
        DrawOneMore(before, base[..], s, k, color, old(calls), calls);
        SetPixel(x0, y0, color);
        if x0 == x1 && y0 == y1 {
          DrawnToTheEnd(before, base[..], s, color, old(calls), calls);
          return;
        }
        x0, y0, err := Advance(s, k, x0, y0, err, dx, dy);
        k := k + 1;
      }
    }
  }

  // The two tests on the error term.
  method Advance(s: Segment, ghost k: nat, x: int, y: int, err: int, dx: int, dy: int) returns (x': int, y': int, err': int)
    requires k < Length(s) && (x, y, err) == Standing(s, k) && dx == Dx(s) && dy == Dy(s)
    ensures (x', y', err') == Standing(s, k + 1)
  {
    var sx := if s.x0 < s.x1 then 1 else -1;
    var sy := if s.y0 < s.y1 then 1 else -1;
    x', y', err' := x, y, err;
    var e2 := 2 * err;
    StandsNext(s, k, x, y, err);
    assert -0x8000_0000 <= e2 < 0x8000_0000;
    if e2 > -dy {
      err' := err' - dy;
      x' := x' + sx;
    }
    if e2 < dx {
      err' := err' + dx;
      y' := y' + sy;
    }
  }

  // The loop's variables before the k-th set_pixel call.
  ghost function Standing(s: Segment, k: nat): (int, int, int)
    requires k <= Length(s)
  {
    (Walk(s.x0, s.x1, StepsX(s, k)), Walk(s.y0, s.y1, StepsY(s, k)), ErrorTerm(s, StepsX(s, k), StepsY(s, k)))
  }

  lemma StandsFirst(s: Segment)
    ensures Standing(s, 0) == (s.x0, s.y0, Dx(s) - Dy(s))
  {
    FirstStep(s);
    ErrorAfterSteps(s, 0, 0);
  }

  lemma StandsOnPixel(s: Segment, k: nat, x: int, y: int, err: int)
    requires k <= Length(s) && (x, y, err) == Standing(s, k)
    ensures PixelAt(s, k) == Point(x, y) && 0 <= x < 0x1_0000 && 0 <= y < 0x1_0000
    ensures x == s.x1 && y == s.y1 <==> k == Length(s)
  {
    PixelFromSteps(s, k);
    StaysInTheBox(s, k);
    EndpointOnlyAtTheEnd(s, k);
  }

  lemma StandsNext(s: Segment, k: nat, x: int, y: int, err: int)
    requires k < Length(s) && (x, y, err) == Standing(s, k)
    ensures var moveX, moveY := 2 * err > -(Dy(s) as int), 2 * err < Dx(s);
      Standing(s, k + 1) ==
        (if !moveX then x else if s.x0 < s.x1 then x + 1 else x - 1,
         if !moveY then y else if s.y0 < s.y1 then y + 1 else y - 1,
         err - (if moveX then Dy(s) else 0) + if moveY then Dx(s) else 0)
    ensures -0x8000_0000 <= 2 * err < 0x8000_0000
  {
    StepDecision(s, k);
    ErrorAfterSteps(s, StepsX(s, k), StepsY(s, k));
  }

  lemma FirstStep(s: Segment)
    ensures StepsX(s, 0) == 0 && StepsY(s, 0) == 0
  {
    if Length(s) > 0 {
      if Dx(s) >= Dy(s) { NearestAtEnds(Dx(s), Dy(s)); } else { NearestAtEnds(Dy(s), Dx(s)); }
    }
  }

  lemma EndpointOnlyAtTheEnd(s: Segment, k: nat)
    requires k <= Length(s)
    ensures PixelAt(s, k) == Point(s.x1, s.y1) <==> k == Length(s)
  {
    StartsAndEndsOnTheEndpoints(s);
  }

  // The error term after a steps in x and b steps in y.
  function ErrorTerm(s: Segment, a: nat, b: nat): int { Dx(s) - Dy(s) - (a * Dy(s) - b * Dx(s)) }

  lemma ErrorAfterSteps(s: Segment, a: nat, b: nat)
    ensures ErrorTerm(s, 0, 0) == Dx(s) - Dy(s)
    ensures ErrorTerm(s, a + 1, b) == ErrorTerm(s, a, b) - Dy(s)
    ensures ErrorTerm(s, a, b + 1) == ErrorTerm(s, a, b) + Dx(s)
    ensures ErrorTerm(s, a + 1, b + 1) == ErrorTerm(s, a, b) - Dy(s) + Dx(s)
  {
    assert (a + 1) * Dy(s) == a * Dy(s) + Dy(s);
    assert (b + 1) * Dx(s) == b * Dx(s) + Dx(s);
  }

  // The two tests of the loop body decide, from the error term alone, exactly which coordinates
  // the next pixel of the closed-form line moves in; doubling the term stays within an int.
  lemma StepDecision(s: Segment, k: nat)
    requires k < Length(s)
    ensures var e2 := 2 * ErrorTerm(s, StepsX(s, k), StepsY(s, k));
      && -0x8000_0000 <= e2 < 0x8000_0000
      && StepsX(s, k + 1) == StepsX(s, k) + (if e2 > -(Dy(s) as int) then 1 else 0)
      && StepsY(s, k + 1) == StepsY(s, k) + (if e2 < Dx(s) then 1 else 0)
  {
    HalfAPixelFromIdeal(s, k);
    if Dx(s) >= Dy(s) {
      MinorDecision(k, Dx(s), Dy(s));
    } else {
      MinorDecision(k, Dy(s), Dx(s));
    }
  }

  lemma MinorDecision(k: nat, major: nat, minor: nat)
    requires major > 0 && minor <= major
    ensures var m := Nearest(k, major, minor);
      var d := k * minor - m * major;
      && 0 < 2 * d + major <= 2 * major
      && (minor == major ==> d == 0)
      && Nearest(k + 1, major, minor) == m + (if 2 * (d + minor) > major then 1 else 0)
  {
    var m := Nearest(k, major, minor);
    NearestIffWithinHalf(k, major, minor, m);
    assert (k + 1) * minor == k * minor + minor;
    assert (m + 1) * major == m * major + major;
    NearestIffWithinHalf(k + 1, major, minor, m);
    NearestIffWithinHalf(k + 1, major, minor, m + 1);
    if minor == major {
      NearestIffWithinHalf(k, major, minor, k);
    }
  }
}
