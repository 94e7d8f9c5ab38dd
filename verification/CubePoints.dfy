/** What the box operations mean for the points of the boxes. */
module CubePoints {
  import opened Cube

  /** x lies between two corner coordinates given in either order. */
  predicate Between(x: real, c: real, d: real) {
    c <= x <= d || d <= x <= c
  }

  /** The point p with n coordinates lies in the box: between its corners, and zero where the box has no dimension. */
  ghost predicate PointIn(p: seq<real>, b: Box, n: nat) {
    |p| == n && forall i | 0 <= i < n :: if i < b.dim then Between(p[i], b.p[i], b.q[i]) else p[i] == 0.0
  }

  lemma PointInIff(p: seq<real>, b: Box, n: nat)
    requires |p| == n
    ensures PointIn(p, b, n) <==> forall i | 0 <= i < n :: Lo(b, i) <= p[i] <= Hi(b, i)
  {
    forall i | 0 <= i < n
      ensures (if i < b.dim then Between(p[i], b.p[i], b.q[i]) else p[i] == 0.0) <==> Lo(b, i) <= p[i] <= Hi(b, i)
    {
    }
  }

  lemma LoIsBelowHi(b: Box, i: nat)
    ensures Lo(b, i) <= Hi(b, i)
  {
  }

  /** The lower and the upper corner of a box, in n dimensions. */
  function Lowest(b: Box, n: nat): (p: seq<real>)
    ensures |p| == n && forall i | 0 <= i < n :: p[i] == Lo(b, i)
  {
    seq(n, i requires 0 <= i < n => Lo(b, i))
  }

  function Highest(b: Box, n: nat): (p: seq<real>)
    ensures |p| == n && forall i | 0 <= i < n :: p[i] == Hi(b, i)
  {
    seq(n, i requires 0 <= i < n => Hi(b, i))
  }

  lemma CornersAreIn(b: Box, n: nat)
    ensures PointIn(Lowest(b, n), b, n) && PointIn(Highest(b, n), b, n)
  {
    hide Lo, Hi, PointIn;
    forall i | 0 <= i < n
      ensures Lo(b, i) <= Hi(b, i)
    {
      LoIsBelowHi(b, i);
    }
    PointInIff(Lowest(b, n), b, n);
    PointInIff(Highest(b, n), b, n);
  }

  /** Every point of b is a point of a, in the first n dimensions. */
  ghost predicate PointsWithin(b: Box, a: Box, n: nat) {
    forall p | PointIn(p, b, n) :: PointIn(p, a, n)
  }

  lemma WithinIff(b: Box, a: Box, n: nat)
    ensures PointsWithin(b, a, n) <==> forall i | 0 <= i < n :: Lo(a, i) <= Lo(b, i) && Hi(b, i) <= Hi(a, i)
  {
    hide Lo, Hi, PointIn;
    if PointsWithin(b, a, n) {
      CornersAreIn(b, n);
      PointInIff(Lowest(b, n), a, n);
      PointInIff(Highest(b, n), a, n);
      forall i | 0 <= i < n
        ensures Lo(a, i) <= Lo(b, i) && Hi(b, i) <= Hi(a, i)
      {
        assert Lo(a, i) <= Lowest(b, n)[i] && Highest(b, n)[i] <= Hi(a, i);
      }
    }
    if forall i | 0 <= i < n :: Lo(a, i) <= Lo(b, i) && Hi(b, i) <= Hi(a, i) {
      forall p | PointIn(p, b, n)
        ensures PointIn(p, a, n)
      {
        assert |p| == n by {
          HasLength(p, b, n);
        }
        PointInIff(p, b, n);
        PointInIff(p, a, n);
      }
    }
  }

  lemma HasLength(p: seq<real>, b: Box, n: nat)
    requires PointIn(p, b, n)
    ensures |p| == n
  {
  }

  /** Containment is containment of points in the dimensions of the second box. */
  lemma ContainsIff(a: Box, b: Box)
    ensures Contains(a, b) <==> PointsWithin(b, a, b.dim)
  {
    hide Lo, Hi, PointsWithin;
    WithinIff(b, a, b.dim);
  }

  /** Boxes are the same when they have the same dimension and the same points. */
  lemma SameBoxIff(a: Box, b: Box)
    ensures SameBox(a, b) <==> a.dim == b.dim && PointsWithin(a, b, a.dim) && PointsWithin(b, a, a.dim)
  {
    hide Lo, Hi, PointsWithin;
    WithinIff(a, b, a.dim);
    WithinIff(b, a, a.dim);
    if a.dim == b.dim && PointsWithin(a, b, a.dim) && PointsWithin(b, a, a.dim) {
      forall i | 0 <= i < a.dim
        ensures Lo(a, i) == Lo(b, i) && Hi(a, i) == Hi(b, i)
      {
      }
    }
  }

  /** The intersection has exactly the common points when its corners are in order, and there are none otherwise. */
  lemma InterIff(a: Box, b: Box)
    ensures var r, n := InterBox(a, b), MaxDim(a, b);
            && r.dim == n
            && forall p | |p| == n ::
                 PointIn(p, a, n) && PointIn(p, b, n)
                 <==> PointIn(p, r, n) && forall i | 0 <= i < n :: r.p[i] <= r.q[i]
  {
    hide Lo, Hi, InterBox;
    var r, n := InterBox(a, b), MaxDim(a, b);
    forall p | |p| == n
      ensures PointIn(p, a, n) && PointIn(p, b, n)
              <==> PointIn(p, r, n) && forall i | 0 <= i < n :: r.p[i] <= r.q[i]
    {
      PointInIff(p, a, n);
      PointInIff(p, b, n);
      if PointIn(p, a, n) && PointIn(p, b, n) {
        forall i | 0 <= i < n
          ensures r.p[i] <= p[i] <= r.q[i]
        {
        }
      }
      if PointIn(p, r, n) && forall i | 0 <= i < n :: r.p[i] <= r.q[i] {
        forall i | 0 <= i < n
          ensures Lo(a, i) <= p[i] <= Hi(a, i) && Lo(b, i) <= p[i] <= Hi(b, i)
        {
          assert Between(p[i], r.p[i], r.q[i]);
        }
      }
    }
  }

  /** Boxes overlap when they have a point in common. */
  lemma OverlapIff(a: Box, b: Box)
    ensures Overlap(a, b) <==> exists p :: PointIn(p, a, MaxDim(a, b)) && PointIn(p, b, MaxDim(a, b))
  {
    hide Lo, Hi;
    var n := MaxDim(a, b);
    if Overlap(a, b) {
      var p := seq(n, i requires 0 <= i < n => Max(Lo(a, i), Lo(b, i)));
      forall i | 0 <= i < n
        ensures Lo(a, i) <= p[i] <= Hi(a, i) && Lo(b, i) <= p[i] <= Hi(b, i)
      {
        LoIsBelowHi(a, i);
        LoIsBelowHi(b, i);
      }
      PointInIff(p, a, n);
      PointInIff(p, b, n);
    }
    if p :| PointIn(p, a, n) && PointIn(p, b, n) {
      PointInIff(p, a, n);
      PointInIff(p, b, n);
      forall i | 0 <= i < n
        ensures Lo(a, i) <= Hi(b, i) && Lo(b, i) <= Hi(a, i)
      {
        assert Lo(a, i) <= p[i] <= Hi(a, i) && Lo(b, i) <= p[i] <= Hi(b, i);
      }
    }
  }
}
