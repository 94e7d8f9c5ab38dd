/** n-dimensional boxes of contrib/cube. A box stores two opposite corners in any order, and a box of lower
    dimension counts as zero in the dimensions it lacks. */
module Cube {

  /** The two halves of the stored coordinate array: corner p, then the opposite corner q. */
  datatype RawBox = RawBox(dim: nat, p: seq<real>, q: seq<real>)

  type Box = b: RawBox | |b.p| == |b.q| == b.dim witness RawBox(0, [], [])

  function Min(a: real, b: real): real {
    if a < b then a else b
  }

  function Max(a: real, b: real): real {
    if a > b then a else b
  }

  function MaxDim(a: Box, b: Box): nat {
    if a.dim >= b.dim then a.dim else b.dim
  }

  /** Lower and upper coordinate in dimension i, zero where the box has no such dimension. */
  function Lo(b: Box, i: nat): real {
    if i < b.dim then Min(b.p[i], b.q[i]) else 0.0
  }

  function Hi(b: Box, i: nat): real {
    if i < b.dim then Max(b.p[i], b.q[i]) else 0.0
  }

  // ---------------------------------------------------------------- union and intersection

  function UnionBox(a: Box, b: Box): (r: Box)
    ensures r.dim == MaxDim(a, b)
    ensures forall i | 0 <= i < r.dim :: Lo(r, i) == Min(Lo(a, i), Lo(b, i)) && Hi(r, i) == Max(Hi(a, i), Hi(b, i))
  {
    var n := MaxDim(a, b);
    RawBox(n, seq(n, i requires 0 <= i < n => Min(Lo(a, i), Lo(b, i))),
              seq(n, i requires 0 <= i < n => Max(Hi(a, i), Hi(b, i))))
  }

  /** May have corners out of order: then the boxes do not meet. */
  function InterBox(a: Box, b: Box): (r: Box)
    ensures r.dim == MaxDim(a, b)
    ensures forall i | 0 <= i < r.dim :: r.p[i] == Max(Lo(a, i), Lo(b, i)) && r.q[i] == Min(Hi(a, i), Hi(b, i))
  {
    var n := MaxDim(a, b);
    RawBox(n, seq(n, i requires 0 <= i < n => Max(Lo(a, i), Lo(b, i))),
              seq(n, i requires 0 <= i < n => Min(Hi(a, i), Hi(b, i))))
  }

  /** Corners of the smaller box b, in order and padded with zeroes to dimension dim. */
  method Padded(b: Box, dim: nat) returns (p: array<real>, q: array<real>)
    requires b.dim <= dim
    ensures fresh(p) && fresh(q) && p != q && p.Length == q.Length == dim
    ensures forall i | 0 <= i < dim :: p[i] == Lo(b, i) && q[i] == Hi(b, i)
  {
    p, q := new real[dim], new real[dim];
    for i := 0 to b.dim
      invariant forall k | 0 <= k < i :: p[k] == Lo(b, k) && q[k] == Hi(b, k)
    {
      p[i] := Min(b.p[i], b.q[i]);
      q[i] := Max(b.p[i], b.q[i]);
    }
    for i := b.dim to dim
      invariant forall k | 0 <= k < i :: p[k] == Lo(b, k) && q[k] == Hi(b, k)
    {
      p[i] := 0.0;
      q[i] := 0.0;
    }
  }

  method CubeUnion(a0: Box, b0: Box) returns (r: Box)
    ensures r == UnionBox(a0, b0)
  {
    var a, b := a0, b0;
    if a.dim < b.dim {
      a, b := b, a;
    }
    var p, q := Padded(b, a.dim);
    for i := 0 to a.dim
      invariant forall k | 0 <= k < i :: p[k] == Min(Lo(a, k), Lo(b, k)) && q[k] == Max(Hi(a, k), Hi(b, k))
      invariant forall k | i <= k < a.dim :: p[k] == Lo(b, k) && q[k] == Hi(b, k)
    {
      p[i] := Min(Min(a.p[i], a.q[i]), p[i]);
      q[i] := Max(Max(a.p[i], a.q[i]), q[i]);
    }
    assert p[..] == UnionBox(a0, b0).p && q[..] == UnionBox(a0, b0).q;
    r := RawBox(a.dim, p[..], q[..]);
  }

  method CubeInter(a0: Box, b0: Box) returns (r: Box)
    ensures r == InterBox(a0, b0)
  {
    var a, b := a0, b0;
    if a.dim < b.dim {
      a, b := b, a;
    }
    var p, q := Padded(b, a.dim);
    for i := 0 to a.dim
      invariant forall k | 0 <= k < i :: p[k] == Max(Lo(a, k), Lo(b, k)) && q[k] == Min(Hi(a, k), Hi(b, k))
      invariant forall k | i <= k < a.dim :: p[k] == Lo(b, k) && q[k] == Hi(b, k)
    {
      p[i] := Max(Min(a.p[i], a.q[i]), p[i]);
      q[i] := Min(Max(a.p[i], a.q[i]), q[i]);
    }
    assert p[..] == InterBox(a0, b0).p && q[..] == InterBox(a0, b0).q;
    r := RawBox(a.dim, p[..], q[..]);
  }

  // ---------------------------------------------------------------- containment and overlap

  /** a contains b in every dimension of b; what a has beyond them is ignored. */
  predicate Contains(a: Box, b: Box) {
    forall i | 0 <= i < b.dim :: Lo(a, i) <= Lo(b, i) && Hi(b, i) <= Hi(a, i)
  }

  predicate Overlap(a: Box, b: Box) {
    forall i | 0 <= i < MaxDim(a, b) :: Lo(a, i) <= Hi(b, i) && Lo(b, i) <= Hi(a, i)
  }

  /** Equal dimension and equal corners, in whatever order they are stored. */
  predicate SameBox(a: Box, b: Box) {
    a.dim == b.dim && forall i | 0 <= i < a.dim :: Lo(a, i) == Lo(b, i) && Hi(a, i) == Hi(b, i)
  }

  method CubeContains(a: Box, b: Box) returns (r: bool)
    ensures r == Contains(a, b)
  {
    if a.dim < b.dim {
      for i := a.dim to b.dim
        invariant forall k | a.dim <= k < i :: b.p[k] == 0.0 && b.q[k] == 0.0
      {
        if b.p[i] != 0.0 || b.q[i] != 0.0 {
          assert !(Lo(a, i) <= Lo(b, i) && Hi(b, i) <= Hi(a, i));
          return false;
        }
      }
    }
    var common := if a.dim < b.dim then a.dim else b.dim;
    for i := 0 to common
      invariant forall k | 0 <= k < i :: Lo(a, k) <= Lo(b, k) && Hi(b, k) <= Hi(a, k)
    {
      if Min(a.p[i], a.q[i]) > Min(b.p[i], b.q[i]) {
        assert Lo(a, i) > Lo(b, i);
        return false;
      }
      if Max(a.p[i], a.q[i]) < Max(b.p[i], b.q[i]) {
        assert Hi(a, i) < Hi(b, i);
        return false;
      }
    }
    return true;
  }

  method CubeOverlap(a0: Box, b0: Box) returns (r: bool)
    ensures r == Overlap(a0, b0)
  {
    var a, b := a0, b0;
    if a.dim < b.dim {
      a, b := b, a;
    }
    for i := 0 to b.dim
      invariant forall k | 0 <= k < i :: Lo(a, k) <= Hi(b, k) && Lo(b, k) <= Hi(a, k)
    {
      if Min(a.p[i], a.q[i]) > Max(b.p[i], b.q[i]) {
        assert Lo(a, i) > Hi(b, i);
        return false;
      }
      if Max(a.p[i], a.q[i]) < Min(b.p[i], b.q[i]) {
        assert Hi(a, i) < Lo(b, i);
        return false;
      }
    }
    for i := b.dim to a.dim
      invariant forall k | 0 <= k < i :: Lo(a, k) <= Hi(b, k) && Lo(b, k) <= Hi(a, k)
    {
      if Min(a.p[i], a.q[i]) > 0.0 {
        assert Lo(a, i) > Hi(b, i);
        return false;
      }
      if Max(a.p[i], a.q[i]) < 0.0 {
        assert Hi(a, i) < Lo(b, i);
        return false;
      }
    }
    return true;
  }
}
