/** Distance between boxes: the sum of squared per-axis gaps (the square root taken of it by the source is not
    modelled), and what it means geometrically. */
module CubeDistance {
  import opened Cube
  import opened CubePoints

  /** Distance between the projections of two boxes on axis i. */
  function Gap(a: Box, b: Box, i: nat): real {
    if Hi(a, i) < Lo(b, i) then Lo(b, i) - Hi(a, i)
    else if Hi(b, i) < Lo(a, i) then Lo(a, i) - Hi(b, i)
    else 0.0
  }

  function Times(x: real, y: real): real {
    x * y
  }

  function Square(x: real): real {
    Times(x, x)
  }

  function GapSquares(a: Box, b: Box, n: nat): real {
    if n == 0 then 0.0 else GapSquares(a, b, n - 1) + Square(Gap(a, b, n - 1))
  }

  function SquaredDistance(a: Box, b: Box): real {
    GapSquares(a, b, MaxDim(a, b))
  }

  /** The one-dimensional distance of two intervals given by unordered end points. */
  function Distance1D(a1: real, a2: real, b1: real, b2: real): real {
    if a1 <= b1 && a2 <= b1 && a1 <= b2 && a2 <= b2 then Min(b1, b2) - Max(a1, a2)
    else if a1 > b1 && a2 > b1 && a1 > b2 && a2 > b2 then Min(a1, a2) - Max(b1, b2)
    else 0.0
  }

  lemma Distance1DIsGap(a: Box, b: Box, i: nat)
    requires i < a.dim
    ensures i < b.dim ==> Distance1D(a.p[i], a.q[i], b.p[i], b.q[i]) == Gap(a, b, i)
    ensures i >= b.dim ==> Distance1D(a.p[i], a.q[i], 0.0, 0.0) == Gap(a, b, i)
  {
  }

  lemma {:induction false} GapSquaresSymmetric(a: Box, b: Box, n: nat)
    ensures GapSquares(a, b, n) == GapSquares(b, a, n)
  {
    if n > 0 {
      GapSquaresSymmetric(a, b, n - 1);
      assert Gap(a, b, n - 1) == Gap(b, a, n - 1);
    }
  }

  method CubeDistance(a0: Box, b0: Box) returns (distance: real)
    ensures distance == SquaredDistance(a0, b0)
  {
    hide Distance1D, Gap, Square;
    var a, b := a0, b0;
    if a.dim < b.dim {
      a, b := b, a;
      GapSquaresSymmetric(a0, b0, MaxDim(a0, b0));
    }
    distance := 0.0;
    for i := 0 to b.dim
      invariant distance == GapSquares(a, b, i)
    {
      Distance1DIsGap(a, b, i);
      var d := Distance1D(a.p[i], a.q[i], b.p[i], b.q[i]);
      distance := distance + Square(d);
    }
    for i := b.dim to a.dim
      invariant distance == GapSquares(a, b, i)
    {
      Distance1DIsGap(a, b, i);
      var d := Distance1D(a.p[i], a.q[i], 0.0, 0.0);
      distance := distance + Square(d);
    }
  }

  // ---------------------------------------------------------------- overlap, intersection and zero distance

  lemma SameSignProduct(x: real, y: real)
    ensures (x > 0.0 && y > 0.0) || (x < 0.0 && y < 0.0) ==> Times(x, y) > 0.0
    ensures x == 0.0 ==> Times(x, y) == 0.0
  {
    if x < 0.0 && y < 0.0 {
      assert -x * -y > 0.0;
    }
  }

  lemma SquareIsPositive(x: real)
    ensures if x == 0.0 then Square(x) == 0.0 else Square(x) > 0.0
  {
    hide Times;
    SameSignProduct(x, x);
  }

  lemma {:induction false} ZeroGaps(a: Box, b: Box, n: nat)
    ensures GapSquares(a, b, n) >= 0.0
    ensures GapSquares(a, b, n) == 0.0 <==> forall i | 0 <= i < n :: Gap(a, b, i) == 0.0
  {
    hide Gap, Square;
    if n > 0 {
      ZeroGaps(a, b, n - 1);
      SquareIsPositive(Gap(a, b, n - 1));
    }
  }

  predicate InOrder(b: Box) {
    forall i | 0 <= i < b.dim :: b.p[i] <= b.q[i]
  }

  /** Overlapping, having an ordered intersection, and being at distance zero are the same thing. */
  lemma OverlapInterDistanceAgree(a: Box, b: Box)
    ensures Overlap(a, b) <==> InOrder(InterBox(a, b))
    ensures Overlap(a, b) <==> SquaredDistance(a, b) == 0.0
  {
    ZeroGaps(a, b, MaxDim(a, b));
    if Overlap(a, b) {
      assert forall i | 0 <= i < MaxDim(a, b) :: Gap(a, b, i) == 0.0;
    } else {
      var i :| 0 <= i < MaxDim(a, b) && !(Lo(a, i) <= Hi(b, i) && Lo(b, i) <= Hi(a, i));
      assert Gap(a, b, i) != 0.0;
      assert InterBox(a, b).p[i] > InterBox(a, b).q[i];
    }
  }

  /** Overlap and distance do not depend on the order of their arguments. */
  lemma OverlapDistanceSymmetric(a: Box, b: Box)
    ensures Overlap(a, b) == Overlap(b, a)
    ensures SquaredDistance(a, b) == SquaredDistance(b, a)
  {
    GapSquaresSymmetric(a, b, MaxDim(a, b));
  }

  // ---------------------------------------------------------------- geometric meaning

  function PointSquares(p: seq<real>, q: seq<real>, n: nat): real
    requires n <= |p| && n <= |q|
  {
    if n == 0 then 0.0 else PointSquares(p, q, n - 1) + Square(p[n - 1] - q[n - 1])
  }

  lemma SquareMonotone(g: real, d: real)
    requires 0.0 <= g && (g <= d || g <= -d)
    ensures Square(g) <= Square(d)
  {
    var e := if g <= d then d else -d;
    assert e * e == d * d;
    assert e * e - g * g == (e - g) * (e + g);
  }

  lemma GapBetweenPoints(a: Box, b: Box, i: nat, x: real, y: real)
    requires Lo(a, i) <= x <= Hi(a, i) && Lo(b, i) <= y <= Hi(b, i)
    ensures Square(Gap(a, b, i)) <= Square(x - y)
  {
    SquareMonotone(Gap(a, b, i), x - y);
  }

  /** No two points of the boxes are closer than the distance. */
  lemma {:induction false} NoPointsCloser(a: Box, b: Box, p: seq<real>, q: seq<real>, n: nat)
    requires n <= |p| && n <= |q|
    requires forall i | 0 <= i < n :: Lo(a, i) <= p[i] <= Hi(a, i) && Lo(b, i) <= q[i] <= Hi(b, i)
    ensures GapSquares(a, b, n) <= PointSquares(p, q, n)
  {
    hide Gap, Square;
    if n > 0 {
      NoPointsCloser(a, b, p, q, n - 1);
      GapBetweenPoints(a, b, n - 1, p[n - 1], q[n - 1]);
    }
  }

  /** Coordinates of a pair of nearest points on axis i. */
  function NearestA(a: Box, b: Box, i: nat): real {
    if Hi(a, i) < Lo(b, i) then Hi(a, i) else Max(Lo(a, i), Lo(b, i))
  }

  function NearestB(a: Box, b: Box, i: nat): real {
    if Hi(a, i) < Lo(b, i) then Lo(b, i) else if Hi(b, i) < Lo(a, i) then Hi(b, i) else Max(Lo(a, i), Lo(b, i))
  }

  lemma NearestCoordinates(a: Box, b: Box, i: nat)
    ensures Lo(a, i) <= NearestA(a, b, i) <= Hi(a, i)
    ensures Lo(b, i) <= NearestB(a, b, i) <= Hi(b, i)
    ensures var d := NearestA(a, b, i) - NearestB(a, b, i);
            d == Gap(a, b, i) || d == -Gap(a, b, i)
  {
  }

  lemma {:induction false} NearestAttains(a: Box, b: Box, p: seq<real>, q: seq<real>, n: nat)
    requires n <= |p| && n <= |q|
    requires forall i | 0 <= i < n :: p[i] == NearestA(a, b, i) && q[i] == NearestB(a, b, i)
    ensures PointSquares(p, q, n) == GapSquares(a, b, n)
  {
    hide Gap, NearestA, NearestB;
    if n > 0 {
      NearestAttains(a, b, p, q, n - 1);
      NearestCoordinates(a, b, n - 1);
      var d, g := p[n - 1] - q[n - 1], Gap(a, b, n - 1);
      assert Square(d) == Square(g);
    }
  }

  /** The distance is the least distance between a point of one box and a point of the other. */
  lemma DistanceIsNearestPoints(a: Box, b: Box) returns (p: seq<real>, q: seq<real>)
    ensures PointIn(p, a, MaxDim(a, b)) && PointIn(q, b, MaxDim(a, b))
    ensures PointSquares(p, q, MaxDim(a, b)) == SquaredDistance(a, b)
    ensures forall p', q' | PointIn(p', a, MaxDim(a, b)) && PointIn(q', b, MaxDim(a, b)) ::
              SquaredDistance(a, b) <= PointSquares(p', q', MaxDim(a, b))
  {
    hide Gap, NearestA, NearestB, Lo, Hi;
    var n := MaxDim(a, b);
    p := seq(n, i requires 0 <= i < n => NearestA(a, b, i));
    q := seq(n, i requires 0 <= i < n => NearestB(a, b, i));
    forall i | 0 <= i < n
      ensures Lo(a, i) <= p[i] <= Hi(a, i) && Lo(b, i) <= q[i] <= Hi(b, i)
    {
      NearestCoordinates(a, b, i);
    }
    PointInIff(p, a, n);
    PointInIff(q, b, n);
    NearestAttains(a, b, p, q, n);
    forall p', q' | PointIn(p', a, n) && PointIn(q', b, n)
      ensures SquaredDistance(a, b) <= PointSquares(p', q', n)
    {
      PointInIff(p', a, n);
      PointInIff(q', b, n);
      NoPointsCloser(a, b, p', q', n);
    }
  }
}
