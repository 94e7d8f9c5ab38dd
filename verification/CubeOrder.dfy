/** The comparison of boxes that sorting and equality of contrib/cube use. */
module CubeOrder {
  import opened Cube

  /** Lexicographic comparison of the lower coordinates in dimensions i to n - 1. */
  function CmpLo(a: Box, b: Box, i: nat, n: nat): int
    decreases n - i
  {
    if i >= n then 0
    else if Lo(a, i) > Lo(b, i) then 1
    else if Lo(a, i) < Lo(b, i) then -1
    else CmpLo(a, b, i + 1, n)
  }

  function CmpHi(a: Box, b: Box, i: nat, n: nat): int
    decreases n - i
  {
    if i >= n then 0
    else if Hi(a, i) > Hi(b, i) then 1
    else if Hi(a, i) < Hi(b, i) then -1
    else CmpHi(a, b, i + 1, n)
  }

  function Then(first: int, second: int): int {
    if first != 0 then first else second
  }

  /** Common dimensions first, then those only one box has (against zero), then the number of dimensions. */
  function Cmp(a: Box, b: Box): int {
    var d, n := if a.dim < b.dim then a.dim else b.dim, MaxDim(a, b);
    Then(CmpLo(a, b, 0, d),
      Then(CmpHi(a, b, 0, d),
        Then(CmpLo(a, b, d, n),
          Then(CmpHi(a, b, d, n),
            if a.dim > b.dim then 1 else if a.dim < b.dim then -1 else 0))))
  }

  method CompareLo(a: Box, b: Box, from: nat, to: nat) returns (r: int)
    requires from <= to <= a.dim && to <= b.dim
    ensures r == CmpLo(a, b, from, to)
  {
    for i := from to to
      invariant CmpLo(a, b, i, to) == CmpLo(a, b, from, to)
    {
      if Min(a.p[i], a.q[i]) > Min(b.p[i], b.q[i]) {
        return 1;
      }
      if Min(a.p[i], a.q[i]) < Min(b.p[i], b.q[i]) {
        return -1;
      }
    }
    return 0;
  }

  method CompareHi(a: Box, b: Box, from: nat, to: nat) returns (r: int)
    requires from <= to <= a.dim && to <= b.dim
    ensures r == CmpHi(a, b, from, to)
  {
    for i := from to to
      invariant CmpHi(a, b, i, to) == CmpHi(a, b, from, to)
    {
      if Max(a.p[i], a.q[i]) > Max(b.p[i], b.q[i]) {
        return 1;
      }
      if Max(a.p[i], a.q[i]) < Max(b.p[i], b.q[i]) {
        return -1;
      }
    }
    return 0;
  }

  /** The dimensions a has beyond those of b, against zero; more dimensions win a tie. */
  method CompareExtra(a: Box, b: Box) returns (r: int)
    requires b.dim < a.dim
    ensures r == Then(CmpLo(a, b, b.dim, a.dim), Then(CmpHi(a, b, b.dim, a.dim), 1))
  {
    for i := b.dim to a.dim
      invariant CmpLo(a, b, i, a.dim) == CmpLo(a, b, b.dim, a.dim)
    {
      if Min(a.p[i], a.q[i]) > 0.0 {
        return 1;
      }
      if Min(a.p[i], a.q[i]) < 0.0 {
        return -1;
      }
    }
    for i := b.dim to a.dim
      invariant CmpHi(a, b, i, a.dim) == CmpHi(a, b, b.dim, a.dim)
    {
      if Max(a.p[i], a.q[i]) > 0.0 {
        return 1;
      }
      if Max(a.p[i], a.q[i]) < 0.0 {
        return -1;
      }
    }
    return 1;
  }

  method CubeCmp(a: Box, b: Box) returns (r: int)
    ensures r == Cmp(a, b)
  {
    hide CmpLo, CmpHi;
    var dim := if a.dim < b.dim then a.dim else b.dim;
    r := CompareLo(a, b, 0, dim);
    if r != 0 {
      return;
    }
    r := CompareHi(a, b, 0, dim);
    if r != 0 {
      return;
    }
    if a.dim > b.dim {
      r := CompareExtra(a, b);
    } else if a.dim < b.dim {
      r := CompareExtra(b, a);
      CmpReverses(a, b, a.dim, b.dim);
      r := -r;
    } else {
      NothingExtra(a, b);
      r := 0;
    }
  }

  lemma NothingExtra(a: Box, b: Box)
    ensures CmpLo(a, b, a.dim, a.dim) == 0 && CmpHi(a, b, a.dim, a.dim) == 0
  {
  }

  lemma {:induction false} CmpReverses(a: Box, b: Box, i: nat, n: nat)
    ensures CmpLo(a, b, i, n) == -CmpLo(b, a, i, n)
    ensures CmpHi(a, b, i, n) == -CmpHi(b, a, i, n)
    decreases n - i
  {
    if i < n {
      CmpReverses(a, b, i + 1, n);
    }
  }

  /** Comparing the other way round gives the opposite answer. */
  lemma CmpAntisymmetric(a: Box, b: Box)
    ensures Cmp(a, b) == -Cmp(b, a)
  {
    hide CmpLo, CmpHi;
    var d, n := if a.dim < b.dim then a.dim else b.dim, MaxDim(a, b);
    CmpReverses(a, b, 0, d);
    CmpReverses(a, b, d, n);
  }

  lemma {:induction false} CmpAtFirst(a: Box, b: Box, i: nat, k: nat, n: nat)
    requires i <= k < n
    ensures (forall j | i <= j < k :: Lo(a, j) == Lo(b, j)) && Lo(a, k) < Lo(b, k) ==> CmpLo(a, b, i, n) == -1
    ensures (forall j | i <= j < k :: Hi(a, j) == Hi(b, j)) && Hi(a, k) < Hi(b, k) ==> CmpHi(a, b, i, n) == -1
    decreases k - i
  {
    if i < k {
      CmpAtFirst(a, b, i + 1, k, n);
    }
  }

  /** Stage s of the comparison decides at axis k that a comes first: the earlier stages are tied, and so is this one
      before k. The stages compare lower and upper coordinates, first on the common axes and then beyond. */
  ghost predicate DecidedAt(a: Box, b: Box, s: nat, k: nat) {
    var d, n := if a.dim < b.dim then a.dim else b.dim, MaxDim(a, b);
    && (if s < 2 then k < d else d <= k < n)
    && (s > 0 ==> forall j | 0 <= j < d :: Lo(a, j) == Lo(b, j))
    && (s > 1 ==> forall j | 0 <= j < d :: Hi(a, j) == Hi(b, j))
    && (s > 2 ==> forall j | d <= j < n :: Lo(a, j) == Lo(b, j))
    && if s % 2 == 0 then (forall j | (if s < 2 then 0 else d) <= j < k :: Lo(a, j) == Lo(b, j)) && Lo(a, k) < Lo(b, k)
       else (forall j | (if s < 2 then 0 else d) <= j < k :: Hi(a, j) == Hi(b, j)) && Hi(a, k) < Hi(b, k)
  }

  /** The box that is smaller where they first differ comes first. */
  lemma SmallerComesFirst(a: Box, b: Box, s: nat, k: nat)
    requires s < 4 && DecidedAt(a, b, s, k)
    ensures Cmp(a, b) == -1 && Cmp(b, a) == 1
  {
    hide CmpLo, CmpHi, Lo, Hi;
    var d, n := if a.dim < b.dim then a.dim else b.dim, MaxDim(a, b);
    CmpZero(a, b, 0, d);
    CmpZero(a, b, d, n);
    CmpAtFirst(a, b, if s < 2 then 0 else d, k, if s < 2 then d else n);
    CmpAntisymmetric(a, b);
  }

  /** When all coordinates are tied, the box with fewer dimensions comes first. */
  lemma FewerDimensionsFirst(a: Box, b: Box)
    requires a.dim < b.dim && forall j | 0 <= j < b.dim :: Lo(a, j) == Lo(b, j) && Hi(a, j) == Hi(b, j)
    ensures Cmp(a, b) == -1 && Cmp(b, a) == 1
  {
    hide CmpLo, CmpHi, Lo, Hi;
    CmpZero(a, b, 0, a.dim);
    CmpZero(a, b, a.dim, b.dim);
    CmpAntisymmetric(a, b);
  }

  lemma {:induction false} CmpZero(a: Box, b: Box, i: nat, n: nat)
    ensures CmpLo(a, b, i, n) == 0 <==> forall k | i <= k < n :: Lo(a, k) == Lo(b, k)
    ensures CmpHi(a, b, i, n) == 0 <==> forall k | i <= k < n :: Hi(a, k) == Hi(b, k)
    decreases n - i
  {
    if i < n {
      CmpZero(a, b, i + 1, n);
    }
  }

  /** Boxes compare equal exactly when they have the same dimension and the same corners. */
  lemma CmpIsZeroOnSameBoxes(a: Box, b: Box)
    ensures Cmp(a, b) == 0 <==> SameBox(a, b)
  {
    hide CmpLo, CmpHi, Lo, Hi;
    CmpZero(a, b, 0, a.dim);
    NothingExtra(a, b);
  }

  lemma {:induction false} CmpChains(a: Box, b: Box, c: Box, i: nat, n: nat)
    ensures CmpLo(a, b, i, n) <= 0 && CmpLo(b, c, i, n) <= 0 ==>
              CmpLo(a, c, i, n) <= 0 && (CmpLo(a, c, i, n) == 0 ==> CmpLo(a, b, i, n) == 0 && CmpLo(b, c, i, n) == 0)
    ensures CmpHi(a, b, i, n) <= 0 && CmpHi(b, c, i, n) <= 0 ==>
              CmpHi(a, c, i, n) <= 0 && (CmpHi(a, c, i, n) == 0 ==> CmpHi(a, b, i, n) == 0 && CmpHi(b, c, i, n) == 0)
    decreases n - i
  {
    if i < n {
      CmpChains(a, b, c, i + 1, n);
    }
  }

  /** When at most one of the boxes' dimensions is not zero, the comparison is lexicographic on padded coordinates. */
  lemma {:induction false} CmpPadded(a: Box, b: Box, n: nat)
    requires (a.dim == n || a.dim == 0) && (b.dim == n || b.dim == 0)
    ensures Cmp(a, b) == Then(CmpLo(a, b, 0, n),
                           Then(CmpHi(a, b, 0, n), if a.dim > b.dim then 1 else if a.dim < b.dim then -1 else 0))
  {
    hide Lo, Hi;
    if a.dim == b.dim == 0 {
      BothPadded(a, b, 0, n);
    }
  }

  lemma {:induction false} BothPadded(a: Box, b: Box, i: nat, n: nat)
    requires a.dim == b.dim == 0
    ensures CmpLo(a, b, i, n) == 0 && CmpHi(a, b, i, n) == 0
    decreases n - i
  {
    if i < n {
      BothPadded(a, b, i + 1, n);
    }
  }

  lemma TransitiveAtOneDimension(a: Box, b: Box, c: Box, n: nat)
    requires (a.dim == n || a.dim == 0) && (b.dim == n || b.dim == 0) && (c.dim == n || c.dim == 0)
    requires Cmp(a, b) <= 0 && Cmp(b, c) <= 0
    ensures Cmp(a, c) <= 0
  {
    hide CmpLo, CmpHi, Cmp;
    CmpPadded(a, b, n);
    CmpPadded(b, c, n);
    CmpPadded(a, c, n);
    CmpChains(a, b, c, 0, n);
  }

  lemma {:induction false} CmpLoFirst(a: Box, b: Box, i: nat, k: nat, n: nat)
    requires i <= k && k <= n && forall j | i <= j < k :: Lo(a, j) == Lo(b, j)
    ensures CmpLo(a, b, i, n) == CmpLo(a, b, k, n)
    decreases k - i
  {
    if i < k {
      CmpLoFirst(a, b, i + 1, k, n);
    }
  }

  /** For any two different dimensions above zero: a point with a one just beyond the smaller dimension, a segment of
      that dimension, and a longer segment of the larger one go round in a circle. */
  lemma MixedDimensionsCycle(m: nat, n: nat) returns (a: Box, b: Box, c: Box)
    requires 1 <= m < n
    ensures a.dim == n && b.dim == m && c.dim == n
    ensures Cmp(a, b) < 0 && Cmp(b, c) < 0 && Cmp(a, c) > 0
  {
    var point := seq(n, i => if i == m then 1.0 else 0.0);
    a := RawBox(n, point, point);
    b := RawBox(m, seq(m, i => 0.0), seq(m, i => if i == 0 then 1.0 else 0.0));
    c := RawBox(n, seq(n, i => 0.0), seq(n, i => if i == 0 then 2.0 else 0.0));
    assert Hi(a, 0) == 0.0 && Hi(b, 0) == 1.0 && Hi(c, 0) == 2.0;
    CmpLoFirst(a, b, 0, m, m);
    CmpLoFirst(b, c, 0, m, m);
    CmpLoFirst(a, c, 0, m, n);
    assert Lo(a, m) == 1.0 && Lo(c, m) == 0.0;
  }

  /** The comparison is transitive on all boxes whose dimensions are in the set. */
  ghost predicate TransitiveOn(dims: set<nat>) {
    forall a: Box, b: Box, c: Box | a.dim in dims && b.dim in dims && c.dim in dims && Cmp(a, b) <= 0 && Cmp(b, c) <= 0 ::
      Cmp(a, c) <= 0
  }

  /** The comparison is an order exactly on boxes of one dimension, with or without zero-dimensional ones. */
  lemma TransitiveIff(dims: set<nat>)
    ensures TransitiveOn(dims) <==> forall m, n | m in dims && n in dims :: m == n || m == 0 || n == 0
  {
    hide Cmp;
    if forall m, n | m in dims && n in dims :: m == n || m == 0 || n == 0 {
      forall a: Box, b: Box, c: Box |
        a.dim in dims && b.dim in dims && c.dim in dims && Cmp(a, b) <= 0 && Cmp(b, c) <= 0
        ensures Cmp(a, c) <= 0
      {
        var n := if a.dim != 0 then a.dim else if b.dim != 0 then b.dim else c.dim;
        TransitiveAtOneDimension(a, b, c, n);
      }
    } else {
      var m, n :| m in dims && n in dims && m != n && m != 0 && n != 0;
      var a, b, c := MixedDimensionsCycle(if m < n then m else n, if m < n then n else m);
      assert Cmp(a, b) <= 0 && Cmp(b, c) <= 0;
    }
  }
}
