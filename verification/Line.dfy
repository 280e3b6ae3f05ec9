// The line a Bresenham run should draw, in closed form, and what it looks like.

module Line {
  import opened Common

  type Coord = c: nat | c < 0x1_0000
  datatype Point = Point(x: int, y: int)
  datatype Segment = Segment(x0: Coord, y0: Coord, x1: Coord, y1: Coord)

  function Abs(n: int): nat { if n < 0 then -n else n }

  function Dx(s: Segment): nat { Abs(s.x1 - s.x0) }
  function Dy(s: Segment): nat { Abs(s.y1 - s.y0) }
  // n steps from one coordinate towards another (away from it, downwards, once it is reached).
  function Walk(from: int, to: int, n: nat): int { if from < to then from + n else from - n }

  function Length(s: Segment): nat { Max(Dx(s), Dy(s)) }

  // The minor offset nearest to k * minor / major; halfway goes to the smaller one.
  function Nearest(k: nat, major: nat, minor: nat): nat
    requires major > 0
  {
    (2 * k * minor + major - 1) / (2 * major)
  }

  function PixelAt(s: Segment, k: nat): Point
  {
    if Length(s) == 0 then Point(s.x0, s.y0)
    else if Dx(s) >= Dy(s) then Point(Walk(s.x0, s.x1, k), Walk(s.y0, s.y1, Nearest(k, Dx(s), Dy(s))))
    else Point(Walk(s.x0, s.x1, Nearest(k, Dy(s), Dx(s))), Walk(s.y0, s.y1, k))
  }

  function Pixels(s: Segment): (ps: seq<Point>)
    ensures |ps| == Length(s) + 1
    ensures forall k | 0 <= k <= Length(s) :: ps[k] == PixelAt(s, k)
  {
    seq(Length(s) + 1, k requires 0 <= k => PixelAt(s, k))
  }

  // ---------------------------------------------------------------- arithmetic

  lemma QuotientIsUnique(n: int, d: int, q: int)
    requires d > 0 && 0 <= n - q * d < d
    ensures n / d == q
  {
    var q' := n / d;
    assert n == q' * d + n % d;
    assert (q + 1) * d == q * d + d && (q' + 1) * d == q' * d + d;
    if q < q' {
      MulMonotone(q + 1, q', d);
    } else if q' < q {
      MulMonotone(q' + 1, q, d);
    }
  }

  lemma MulMonotone(a: int, b: int, d: int)
    requires a <= b && d >= 0
    ensures a * d <= b * d
  {
    assert (b - a) * d >= 0;
  }

  // The offset is the one whose deviation from the ideal line, scaled by major, lies in the
  // half-open half-pixel window.
  lemma NearestIffWithinHalf(k: nat, major: nat, minor: nat, m: int)
    requires major > 0
    ensures 0 < 2 * (k * minor - m * major) + major <= 2 * major <==> m == Nearest(k, major, minor)
  {
    var n := 2 * k * minor + major - 1;
    assert 2 * k * minor == 2 * (k * minor);
    assert m * (2 * major) == 2 * (m * major);
    if 0 < 2 * (k * minor - m * major) + major <= 2 * major {
      QuotientIsUnique(n, 2 * major, m);
    }
    if m == Nearest(k, major, minor) {
      assert n == m * (2 * major) + n % (2 * major);
    }
  }

  // ---------------------------------------------------------------- shape of the line

  lemma NearestAtEnds(major: nat, minor: nat)
    requires major > 0
    ensures Nearest(0, major, minor) == 0 && Nearest(major, major, minor) == minor
  {
    NearestIffWithinHalf(0, major, minor, 0);
    assert major * minor == minor * major;
    NearestIffWithinHalf(major, major, minor, minor);
  }

  lemma NearestSteps(k: nat, major: nat, minor: nat)
    requires minor <= major && major > 0
    ensures Nearest(k, major, minor) <= Nearest(k + 1, major, minor) <= Nearest(k, major, minor) + 1
  {
    var m := Nearest(k, major, minor);
    NearestIffWithinHalf(k, major, minor, m);
    assert (k + 1) * minor == k * minor + minor;
    assert (m + 1) * major == m * major + major;
    NearestIffWithinHalf(k + 1, major, minor, m);
    NearestIffWithinHalf(k + 1, major, minor, m + 1);
  }

  lemma {:induction false} NearestMonotone(j: nat, k: nat, major: nat, minor: nat)
    requires j <= k && minor <= major && major > 0
    ensures Nearest(j, major, minor) <= Nearest(k, major, minor)
    decreases k - j
  {
    if j < k {
      NearestSteps(j, major, minor);
      NearestMonotone(j + 1, k, major, minor);
    }
  }

  // No pixel of the same column (row, when steep) is nearer to the ideal line.
  lemma NearestIsNearest(k: nat, major: nat, minor: nat, other: int)
    requires major > 0
    ensures 2 * Abs(k * minor - Nearest(k, major, minor) * major) <= major
    ensures Abs(k * minor - Nearest(k, major, minor) * major) <= Abs(k * minor - other * major)
  {
    var m := Nearest(k, major, minor);
    NearestIffWithinHalf(k, major, minor, m);
    if other < m {
      MulMonotone(other, m - 1, major);
      assert (m - 1) * major == m * major - major;
    } else if other > m {
      MulMonotone(m + 1, other, major);
      assert (m + 1) * major == m * major + major;
    }
  }

  // a and b count the steps taken in x and in y up to the k-th pixel.
  function StepsX(s: Segment, k: nat): nat {
    if Length(s) == 0 then 0 else if Dx(s) >= Dy(s) then k else Nearest(k, Dy(s), Dx(s))
  }
  function StepsY(s: Segment, k: nat): nat {
    if Length(s) == 0 then 0 else if Dx(s) >= Dy(s) then Nearest(k, Dx(s), Dy(s)) else k
  }

  lemma PixelFromSteps(s: Segment, k: nat)
    requires k <= Length(s)
    ensures PixelAt(s, k) == Point(Walk(s.x0, s.x1, StepsX(s, k)), Walk(s.y0, s.y1, StepsY(s, k)))
  {}

  // Every pixel is at most half a pixel from the ideal line, measured along the minor axis.
  lemma HalfAPixelFromIdeal(s: Segment, k: nat)
    requires k <= Length(s)
    ensures 2 * Abs(StepsX(s, k) * Dy(s) - StepsY(s, k) * Dx(s)) <= Length(s)
  {
    if Length(s) > 0 {
      if Dx(s) >= Dy(s) {
        NearestIsNearest(k, Dx(s), Dy(s), 0);
      } else {
        NearestIsNearest(k, Dy(s), Dx(s), 0);
      }
    }
  }

  lemma StartsAndEndsOnTheEndpoints(s: Segment)
    ensures Pixels(s)[0] == Point(s.x0, s.y0)
    ensures Pixels(s)[Length(s)] == Point(s.x1, s.y1)
  {
    if Length(s) > 0 {
      if Dx(s) >= Dy(s) {
        NearestAtEnds(Dx(s), Dy(s));
      } else {
        NearestAtEnds(Dy(s), Dx(s));
      }
    }
  }

  predicate InBox(s: Segment, p: Point) {
    && (s.x0 <= p.x <= s.x1 || s.x1 <= p.x <= s.x0)
    && (s.y0 <= p.y <= s.y1 || s.y1 <= p.y <= s.y0)
  }

  lemma NearestWithinMinor(k: nat, major: nat, minor: nat)
    requires k <= major && minor <= major && major > 0
    ensures Nearest(k, major, minor) <= minor
  {
    NearestMonotone(k, major, major, minor);
    NearestAtEnds(major, minor);
  }

  lemma StaysInTheBox(s: Segment, k: nat)
    requires k <= Length(s)
    ensures InBox(s, PixelAt(s, k))
  {
    if Length(s) > 0 {
      if Dx(s) >= Dy(s) {
        NearestWithinMinor(k, Dx(s), Dy(s));
      } else {
        NearestWithinMinor(k, Dy(s), Dx(s));
      }
    }
  }

  // Consecutive pixels touch, and the major coordinate moves by one at every step: each value of
  // it between the endpoints is visited exactly once.
  lemma ConsecutivePixelsTouch(s: Segment, k: nat)
    requires k < Length(s)
    ensures var p, q := PixelAt(s, k), PixelAt(s, k + 1);
      && Abs(q.x - p.x) <= 1 && Abs(q.y - p.y) <= 1
      && (if Dx(s) >= Dy(s) then q.x == Walk(p.x, s.x1, 1) else q.y == Walk(p.y, s.y1, 1))
  {
    if Dx(s) >= Dy(s) {
      NearestSteps(k, Dx(s), Dy(s));
    } else {
      NearestSteps(k, Dy(s), Dx(s));
    }
  }

  function MajorCoordinate(s: Segment, p: Point): int { if Dx(s) >= Dy(s) then p.x else p.y }

  lemma EachMajorCoordinateOnce(s: Segment, c: int)
    requires if Dx(s) >= Dy(s) then s.x0 <= c <= s.x1 || s.x1 <= c <= s.x0
             else s.y0 <= c <= s.y1 || s.y1 <= c <= s.y0
    ensures exists k | 0 <= k <= Length(s) ::
              && MajorCoordinate(s, PixelAt(s, k)) == c
              && forall j | 0 <= j <= Length(s) && j != k :: MajorCoordinate(s, PixelAt(s, j)) != c
  {
    var k := if Dx(s) >= Dy(s) then Abs(c - s.x0) else Abs(c - s.y0);
    assert MajorCoordinate(s, PixelAt(s, k)) == c;
  }

  // ---------------------------------------------------------------- direction

  // Drawn from the other end the line is the same pixel by pixel, except where the ideal line
  // passes exactly between two pixels.
  lemma BackwardsAgreesUnlessHalfway(k: nat, major: nat, minor: nat)
    requires k <= major && major > 0
    ensures var m := Nearest(k, major, minor);
      (minor - Nearest(major - k, major, minor) == m) == (2 * (k * minor - m * major) != major)
  {
    var m := Nearest(k, major, minor);
    NearestIffWithinHalf(k, major, minor, m);
    var back := minor - m;
    assert (major - k) * minor == major * minor - k * minor;
    assert back * major == minor * major - m * major;
    assert major * minor == minor * major;
    NearestIffWithinHalf(major - k, major, minor, back);
  }

  function Reversed(s: Segment): Segment { Segment(s.x1, s.y1, s.x0, s.y0) }

  // The ideal line passes exactly between two pixels at step k.
  predicate Halfway(s: Segment, k: nat) {
    2 * (if Dx(s) >= Dy(s) then StepsX(s, k) * Dy(s) - StepsY(s, k) * Dx(s)
         else StepsY(s, k) * Dx(s) - StepsX(s, k) * Dy(s)) == Length(s)
  }

  lemma WalkBack(from: int, to: int, n: nat, back: nat)
    requires n <= Abs(to - from) && back <= Abs(to - from)
    ensures Walk(to, from, back) == Walk(from, to, n) <==> Abs(to - from) - back == n
  {}

  lemma ReversedLineAgreesUnlessHalfway(s: Segment, k: nat)
    requires k <= Length(s) && Length(s) > 0
    ensures PixelAt(Reversed(s), Length(s) - k) == PixelAt(s, k) <==> !Halfway(s, k)
  {
    var n := Length(s);
    var minor := if Dx(s) >= Dy(s) then Dy(s) else Dx(s);
    NearestWithinMinor(k, n, minor);
    NearestWithinMinor(n - k, n, minor);
    BackwardsAgreesUnlessHalfway(k, n, minor);
    if Dx(s) >= Dy(s) {
      WalkBack(s.x0, s.x1, k, n - k);
      WalkBack(s.y0, s.y1, Nearest(k, n, minor), Nearest(n - k, n, minor));
    } else {
      WalkBack(s.y0, s.y1, k, n - k);
      WalkBack(s.x0, s.x1, Nearest(k, n, minor), Nearest(n - k, n, minor));
    }
  }
}
