/** Guttman's quadratic page split for boxes. */
module CubeSplit {
  import opened Cube
  import opened CubeSearch

  function Abs(x: real): real {
    if x >= 0.0 then x else -x
  }

  /** Volume of the first n dimensions. */
  function Volume(b: Box, n: nat): real
    requires n <= b.dim
  {
    if n == 0 then 1.0 else Volume(b, n - 1) * Abs(b.q[n - 1] - b.p[n - 1])
  }

  function Size(b: Box): real {
    Volume(b, b.dim)
  }

  method RtCubeSize(a: Box) returns (size: real)
    ensures size == Size(a)
  {
    size := 1.0;
    for i := 0 to a.dim
      invariant size == Volume(a, i)
    {
      size := size * Abs(a.q[i] - a.p[i]);
    }
  }

  /** Space wasted by keeping two boxes on one page. */
  function Waste(a: Box, b: Box): real {
    Size(UnionBox(a, b)) - Size(InterBox(a, b))
  }

  // ---------------------------------------------------------------- seeds

  /** The pair (i, j) comes before the pair (k, l) in the order the loops visit them. */
  predicate VisitedBefore(i: nat, j: nat, k: nat, l: nat) {
    i < k || (i == k && j < l)
  }

  /** The seeds waste the most of all pairs visited before (k, l), and they are the first pair to do so. */
  ghost predicate Wasteful(entries: seq<Box>, s1: nat, s2: nat, maxoff: nat, k: nat, l: nat)
    requires 1 <= s1 < s2 <= maxoff < |entries|
  {
    forall i: nat, j: nat {:trigger entries[i], entries[j]} | 1 <= i < j <= maxoff && VisitedBefore(i, j, k, l) ::
      && Waste(entries[i], entries[j]) <= Waste(entries[s1], entries[s2])
      && (VisitedBefore(i, j, s1, s2) ==> Waste(entries[i], entries[j]) < Waste(entries[s1], entries[s2]))
  }

  /** What the seed search promises: offsets 1 and 2 when there is no pair to choose from, and otherwise the
      first pair of greatest waste. */
  ghost predicate GoodSeeds(entries: seq<Box>, s1: nat, s2: nat)
    requires |entries| >= 3
  {
    var maxoff := |entries| - 2;
    if maxoff < 2 then s1 == 1 && s2 == 2
    else 1 <= s1 < s2 <= maxoff && Wasteful(entries, s1, s2, maxoff, maxoff, 0)
  }

  method FindSeeds(entries: seq<Box>) returns (s1: nat, s2: nat)
    requires |entries| >= 3
    ensures GoodSeeds(entries, s1, s2)
  {
    hide Waste, Wasteful;
    var maxoff := |entries| - 2;
    var firsttime, waste := true, 0.0;
    s1, s2 := 1, 2;
    var i := 1;
    while i < maxoff
      invariant 1 <= i && (i <= maxoff || maxoff < 2)
      invariant firsttime <==> i == 1
      invariant firsttime ==> s1 == 1 && s2 == 2
      invariant !firsttime ==> 1 <= s1 < s2 <= maxoff && waste == Waste(entries[s1], entries[s2])
      invariant !firsttime ==> Wasteful(entries, s1, s2, maxoff, i, 0) && s1 < i
    {
      var j := i + 1;
      if !firsttime {
        StartOfRow(entries, s1, s2, maxoff, i);
      }
      while j <= maxoff
        invariant i + 1 <= j <= maxoff + 1
        invariant firsttime <==> i == 1 && j == i + 1
        invariant firsttime ==> s1 == 1 && s2 == 2
        invariant !firsttime ==> 1 <= s1 < s2 <= maxoff && waste == Waste(entries[s1], entries[s2])
        invariant !firsttime ==> Wasteful(entries, s1, s2, maxoff, i, j) && VisitedBefore(s1, s2, i, j)
      {
        var sizeWaste := PairWaste(entries[i], entries[j]);
        if firsttime {
          FirstPair(entries, maxoff);
        } else {
          NextPair(entries, s1, s2, maxoff, i, j);
        }
        if sizeWaste > waste || firsttime {
          waste, s1, s2, firsttime := sizeWaste, i, j, false;
        }
        j := j + 1;
      }
      EndOfRow(entries, s1, s2, maxoff, i);
      i := i + 1;
    }
  }

  lemma StartOfRow(entries: seq<Box>, s1: nat, s2: nat, maxoff: nat, i: nat)
    requires 1 <= s1 < s2 <= maxoff < |entries|
    requires Wasteful(entries, s1, s2, maxoff, i, 0)
    ensures Wasteful(entries, s1, s2, maxoff, i, i + 1)
  {
    hide Waste;
  }

  lemma FirstPair(entries: seq<Box>, maxoff: nat)
    requires 2 <= maxoff < |entries|
    ensures Wasteful(entries, 1, 2, maxoff, 1, 3)
  {
    hide Waste;
  }

  lemma NextPair(entries: seq<Box>, s1: nat, s2: nat, maxoff: nat, i: nat, j: nat)
    requires 1 <= s1 < s2 <= maxoff < |entries| && 1 <= i < j <= maxoff
    requires Wasteful(entries, s1, s2, maxoff, i, j) && VisitedBefore(s1, s2, i, j)
    ensures if Waste(entries[i], entries[j]) > Waste(entries[s1], entries[s2])
            then Wasteful(entries, i, j, maxoff, i, j + 1)
            else Wasteful(entries, s1, s2, maxoff, i, j + 1)
  {
    hide Waste;
  }

  lemma EndOfRow(entries: seq<Box>, s1: nat, s2: nat, maxoff: nat, i: nat)
    requires 1 <= s1 < s2 <= maxoff < |entries|
    requires Wasteful(entries, s1, s2, maxoff, i, maxoff + 1)
    ensures Wasteful(entries, s1, s2, maxoff, i + 1, 0)
  {
    hide Waste;
  }

  method PairWaste(a: Box, b: Box) returns (sizeWaste: real)
    ensures sizeWaste == Waste(a, b)
  {
    var unionD := CubeUnion(a, b);
    var sizeUnion := RtCubeSize(unionD);
    var interD := CubeInter(a, b);
    var sizeInter := RtCubeSize(interD);
    sizeWaste := sizeUnion - sizeInter;
  }

  lemma SeedsInRange(entries: seq<Box>, s1: nat, s2: nat)
    requires |entries| >= 3 && GoodSeeds(entries, s1, s2)
    ensures 1 <= s1 < |entries| && 1 <= s2 < |entries| && s1 != s2
  {
  }

  /** There is only one pair of good seeds. */
  lemma SeedsAreUnique(entries: seq<Box>, s1: nat, s2: nat, t1: nat, t2: nat)
    requires |entries| >= 3 && GoodSeeds(entries, s1, s2) && GoodSeeds(entries, t1, t2)
    ensures s1 == t1 && s2 == t2
  {
    hide Waste;
    if |entries| >= 4 {
      var a, b := Waste(entries[s1], entries[s2]), Waste(entries[t1], entries[t2]);
      assert a <= b && b <= a;
    }
  }

  // ---------------------------------------------------------------- placement

  datatype Sides = Sides(left: seq<nat>, right: seq<nat>, l: Box, r: Box)

  /** How much a side's box grows by taking in another box. */
  function Enlargement(side: Box, b: Box): real {
    Size(UnionBox(side, b)) - Size(side)
  }

  /** The split after the offsets 1 to k have been placed: each non-seed goes where it enlarges less, to the
      right on a tie. */
  function Placed(entries: seq<Box>, s1: nat, s2: nat, k: nat): Sides
    requires 1 <= s1 < |entries| && 1 <= s2 < |entries| && k < |entries|
  {
    if k == 0 then
      Sides([], [], UnionBox(entries[s1], entries[s1]), UnionBox(entries[s2], entries[s2]))
    else
      var s := Placed(entries, s1, s2, k - 1);
      if k == s1 then s.(left := s.left + [k])
      else if k == s2 then s.(right := s.right + [k])
      else if Enlargement(s.l, entries[k]) < Enlargement(s.r, entries[k]) then
        s.(left := s.left + [k], l := UnionBox(s.l, entries[k]))
      else
        s.(right := s.right + [k], r := UnionBox(s.r, entries[k]))
  }

  /** The vectors hold the sides placed from good seeds, each followed by a sentinel. */
  ghost predicate Delivered(entries: seq<Box>, s1: nat, s2: nat, left: seq<nat>, nleft: nat, right: seq<nat>, nright: nat,
                            ldatum: Box, rdatum: Box)
    requires |entries| >= 3
  {
    && GoodSeeds(entries, s1, s2)
    && 1 <= s1 < |entries| && 1 <= s2 < |entries|
    && var s := Placed(entries, s1, s2, |entries| - 1);
       && nleft < |left| && left[..nleft] == s.left && left[nleft] == 1
       && nright < |right| && right[..nright] == s.right && right[nright] == 1
       && ldatum == s.l && rdatum == s.r
  }

  /** The split method: seeds, then placement of every offset, then a sentinel behind each side. */
  method GCubePickSplit(entries: seq<Box>)
    returns (left: array<nat>, nleft: nat, right: array<nat>, nright: nat, ldatum: Box, rdatum: Box)
    requires |entries| >= 3
    ensures exists s1: nat, s2: nat ::
              Delivered(entries, s1, s2, left[..], nleft, right[..], nright, ldatum, rdatum)
  {
    hide UnionBox, Size, Enlargement, Wasteful, GoodSeeds, Placed;
    var maxoff := |entries| - 2;
    left, right := new nat[maxoff + 2], new nat[maxoff + 2];
    var seed1, seed2 := FindSeeds(entries);
    SeedsInRange(entries, seed1, seed2);
    nleft, nright := 0, 0;
    ldatum := CubeUnion(entries[seed1], entries[seed1]);
    var sizeL := RtCubeSize(ldatum);
    rdatum := CubeUnion(entries[seed2], entries[seed2]);
    var sizeR := RtCubeSize(rdatum);
    maxoff := maxoff + 1;
    NothingPlaced(entries, seed1, seed2, ldatum, rdatum);
    for i := 1 to maxoff + 1
      invariant nleft + nright == i - 1
      invariant Holding(Placed(entries, seed1, seed2, i - 1), left[..nleft], right[..nright], ldatum, rdatum)
      invariant sizeL == Size(ldatum) && sizeR == Size(rdatum)
      invariant (seed1 < i ==> nleft > 0) && (seed2 < i ==> nright > 0)
      invariant fresh(left) && fresh(right) && left != right
    {
      nleft, nright, ldatum, sizeL, rdatum, sizeR :=
        PlaceEntry(entries, seed1, seed2, i, left, nleft, right, nright, ldatum, sizeL, rdatum, sizeR);
    }
    WriteSentinel(left, nleft);
    WriteSentinel(right, nright);
    assert Delivered(entries, seed1, seed2, left[..], nleft, right[..], nright, ldatum, rdatum);
  }

  /** The sides as they stand in the vectors. */
  ghost predicate Holding(s: Sides, left: seq<nat>, right: seq<nat>, l: Box, r: Box) {
    left == s.left && right == s.right && l == s.l && r == s.r
  }

  lemma NothingPlaced(entries: seq<Box>, s1: nat, s2: nat, l: Box, r: Box)
    requires 1 <= s1 < |entries| && 1 <= s2 < |entries|
    requires l == UnionBox(entries[s1], entries[s1]) && r == UnionBox(entries[s2], entries[s2])
    ensures Holding(Placed(entries, s1, s2, 0), [], [], l, r)
  {
  }

  /** Places one more offset. */
  method PlaceEntry(entries: seq<Box>, seed1: nat, seed2: nat, i: nat, left: array<nat>, nleft: nat, right: array<nat>,
                    nright: nat, l: Box, sizeL: real, r: Box, sizeR: real)
    returns (nleft': nat, nright': nat, l': Box, sizeL': real, r': Box, sizeR': real)
    requires 1 <= seed1 < |entries| && 1 <= seed2 < |entries| && 1 <= i < |entries| && left != right
    requires nleft < left.Length && nright < right.Length && sizeL == Size(l) && sizeR == Size(r)
    requires Holding(Placed(entries, seed1, seed2, i - 1), left[..nleft], right[..nright], l, r)
    modifies left, right
    ensures nleft <= nleft' <= left.Length && nright <= nright' <= right.Length
    ensures nleft' + nright' == nleft + nright + 1 && (i == seed1 ==> nleft' > 0)
    ensures i == seed2 && i != seed1 ==> nright' > 0
    ensures Holding(Placed(entries, seed1, seed2, i), left[..nleft'], right[..nright'], l', r')
    ensures sizeL' == Size(l') && sizeR' == Size(r')
  {
    hide UnionBox, Size, Enlargement;
    nleft', nright', l', sizeL', r', sizeR' := nleft, nright, l, sizeL, r, sizeR;
    if i == seed1 {
      nleft' := Append(left, nleft, i);
    } else if i == seed2 {
      nright' := Append(right, nright, i);
    } else {
      var goLeft, unionD, size := ChooseSide(l, sizeL, r, sizeR, entries[i]);
      if goLeft {
        l', sizeL' := unionD, size;
        nleft' := Append(left, nleft, i);
      } else {
        r', sizeR' := unionD, size;
        nright' := Append(right, nright, i);
      }
    }
  }

  /** Which side needs the least enlargement, and its box with the new entry. */
  method ChooseSide(l: Box, sizeL: real, r: Box, sizeR: real, b: Box)
    returns (goLeft: bool, unionD: Box, size: real)
    requires sizeL == Size(l) && sizeR == Size(r)
    ensures goLeft <==> Enlargement(l, b) < Enlargement(r, b)
    ensures unionD == UnionBox(if goLeft then l else r, b) && size == Size(unionD)
  {
    var unionL := CubeUnion(l, b);
    var unionR := CubeUnion(r, b);
    var sizeAlpha := RtCubeSize(unionL);
    var sizeBeta := RtCubeSize(unionR);
    if sizeAlpha - sizeL < sizeBeta - sizeR {
      return true, unionL, sizeAlpha;
    }
    return false, unionR, sizeBeta;
  }

  method WriteSentinel(a: array<nat>, n: nat)
    requires n < a.Length
    modifies a
    ensures a[..][..n] == old(a[..n]) && a[..][n] == 1
  {
    a[n] := 1;
    assert a[..][..n] == a[..n];
  }

  method Append(a: array<nat>, n: nat, v: nat) returns (n': nat)
    requires n < a.Length
    modifies a
    ensures n' == n + 1 && a[..n'] == old(a[..n]) + [v]
  {
    a[n] := v;
    n' := n + 1;
  }

  // ---------------------------------------------------------------- what the split promises

  ghost predicate Increasing(s: seq<nat>) {
    forall i, j | 0 <= i < j < |s| :: s[i] < s[j]
  }

  /** Every offset placed so far is on exactly one side, in order, with the seeds apart. */
  lemma {:induction false} PlacedPartitions(entries: seq<Box>, s1: nat, s2: nat, k: nat)
    requires 1 <= s1 < |entries| && 1 <= s2 < |entries| && s1 != s2 && k < |entries|
    ensures var s := Placed(entries, s1, s2, k);
            && Increasing(s.left) && Increasing(s.right) && |s.left| + |s.right| == k
            && (forall o | o in s.left :: 1 <= o <= k) && (forall o | o in s.right :: 1 <= o <= k)
            && (forall o | 1 <= o <= k :: o in s.left <==> o !in s.right)
            && (s1 <= k ==> s1 in s.left) && (s2 <= k ==> s2 in s.right)
  {
    hide UnionBox, Enlargement;
    if k > 0 {
      PlacedPartitions(entries, s1, s2, k - 1);
      var s := Placed(entries, s1, s2, k - 1);
      if Placed(entries, s1, s2, k).left == s.left + [k] {
        AppendOffset(s.left, s.right, k);
      } else {
        AppendOffset(s.right, s.left, k);
      }
    }
  }

  lemma AppendOffset(a: seq<nat>, b: seq<nat>, k: nat)
    requires k > 0 && Increasing(a)
    requires (forall o | o in a :: 1 <= o <= k - 1) && (forall o | o in b :: 1 <= o <= k - 1)
    requires forall o | 1 <= o <= k - 1 :: o in a <==> o !in b
    ensures Increasing(a + [k])
    ensures forall o | o in a + [k] :: 1 <= o <= k
    ensures forall o | 1 <= o <= k :: o in a + [k] <==> o !in b
  {
    forall i | 0 <= i < |a|
      ensures a[i] < k
    {
      assert a[i] in a;
    }
    assert forall o :: o in a + [k] <==> o in a || o == k;
  }

  /** b bounds every member, and any box that does bounds b: the union of exactly the members. */
  ghost predicate LeastBound(b: Box, entries: seq<Box>, members: set<nat>)
    requires forall m | m in members :: m < |entries|
  {
    && (forall m | m in members :: Above(b, entries[m]))
    && forall k: Box | (forall m | m in members :: Above(k, entries[m])) :: Above(k, b)
  }

  lemma SeedBound(entries: seq<Box>, s: nat)
    requires s < |entries|
    ensures LeastBound(UnionBox(entries[s], entries[s]), entries, {s})
  {
  }

  lemma GrowBound(b: Box, entries: seq<Box>, members: set<nat>, k: nat)
    requires (forall m | m in members :: m < |entries|) && k < |entries|
    requires LeastBound(b, entries, members)
    ensures LeastBound(UnionBox(b, entries[k]), entries, members + {k})
  {
    hide Above, UnionBox;
    var u := UnionBox(b, entries[k]);
    UnionIsLeast(b, entries[k]);
    forall m | m in members
      ensures Above(u, entries[m])
    {
      AboveTransitive(u, b, entries[m]);
    }
    forall c: Box | forall m | m in members + {k} :: Above(c, entries[m])
      ensures Above(c, u)
    {
      assert k in members + {k};
      assert forall m | m in members :: m in members + {k};
    }
  }

  function Members(s: seq<nat>): (r: set<nat>)
    ensures forall m :: m in r <==> m in s
  {
    set m | m in s
  }

  lemma {:induction false} PlacedBounds(entries: seq<Box>, s1: nat, s2: nat, k: nat)
    requires 1 <= s1 < |entries| && 1 <= s2 < |entries| && s1 != s2 && k < |entries|
    ensures var s := Placed(entries, s1, s2, k);
            && (forall o | o in s.left :: o <= k) && (forall o | o in s.right :: o <= k)
            && LeastBound(s.l, entries, Members(s.left) + {s1})
            && LeastBound(s.r, entries, Members(s.right) + {s2})
  {
    hide UnionBox, Enlargement, LeastBound;
    PlacedPartitions(entries, s1, s2, k);
    var s := Placed(entries, s1, s2, k);
    if k == 0 {
      SeedBound(entries, s1);
      SeedBound(entries, s2);
      assert Members([]) + {s1} == {s1} && Members([]) + {s2} == {s2};
    } else {
      PlacedBounds(entries, s1, s2, k - 1);
      var t := Placed(entries, s1, s2, k - 1);
      GrowSide(entries, s1, t.l, t.left, s.l, s.left, k);
      GrowSide(entries, s2, t.r, t.right, s.r, s.right, k);
    }
  }

  /** One placement step seen from one side. */
  lemma GrowSide(entries: seq<Box>, seed: nat, b: Box, side: seq<nat>, b': Box, side': seq<nat>, k: nat)
    requires seed < |entries| && k < |entries| && (forall o | o in side :: o < |entries|)
    requires LeastBound(b, entries, Members(side) + {seed})
    requires (side' == side && b' == b) || (side' == side + [k] && b' == if k == seed then b else UnionBox(b, entries[k]))
    ensures (forall o | o in side' :: o < |entries|) && LeastBound(b', entries, Members(side') + {seed})
  {
    hide LeastBound, UnionBox;
    if side' != side {
      assert Members(side') + {seed} == Members(side) + {seed} + {k};
      if k == seed {
        assert Members(side') + {seed} == Members(side) + {seed};
      } else {
        GrowBound(b, entries, Members(side) + {seed}, k);
      }
    }
  }

  /** The whole split: a partition of all offsets into two non-empty increasing sides, each with the union of
      exactly its members as its key. */
  lemma SplitIsSound(entries: seq<Box>, s1: nat, s2: nat)
    requires |entries| >= 3 && GoodSeeds(entries, s1, s2)
    ensures var s := Placed(entries, s1, s2, |entries| - 1);
            && s.left != [] && s.right != [] && Increasing(s.left) && Increasing(s.right)
            && (forall o | o in s.left :: 1 <= o < |entries|) && (forall o | o in s.right :: 1 <= o < |entries|)
            && (forall o | 1 <= o < |entries| :: o in s.left <==> o !in s.right)
            && LeastBound(s.l, entries, Members(s.left)) && LeastBound(s.r, entries, Members(s.right))
  {
    hide LeastBound, Placed, Wasteful;
    PlacedPartitions(entries, s1, s2, |entries| - 1);
    PlacedBounds(entries, s1, s2, |entries| - 1);
    var s := Placed(entries, s1, s2, |entries| - 1);
    assert Members(s.left) + {s1} == Members(s.left) && Members(s.right) + {s2} == Members(s.right);
  }

  // ---------------------------------------------------------------- volumes

  function Product(xs: seq<real>): real {
    if xs == [] then 1.0 else Product(xs[..|xs| - 1]) * xs[|xs| - 1]
  }

  function SideLengths(b: Box): (r: seq<real>)
    ensures |r| == b.dim && forall i | 0 <= i < b.dim :: r[i] == Hi(b, i) - Lo(b, i)
  {
    seq(b.dim, i requires 0 <= i < b.dim => Hi(b, i) - Lo(b, i))
  }

  lemma {:induction false} VolumeIsProduct(b: Box, n: nat)
    requires n <= b.dim
    ensures Volume(b, n) == Product(SideLengths(b)[..n])
  {
    if n > 0 {
      VolumeIsProduct(b, n - 1);
      assert SideLengths(b)[..n][..n - 1] == SideLengths(b)[..n - 1];
    }
  }

  /** The size of a box is the product of its side lengths. */
  lemma SizeIsProduct(b: Box)
    ensures Size(b) == Product(SideLengths(b))
  {
    VolumeIsProduct(b, b.dim);
    assert SideLengths(b)[..b.dim] == SideLengths(b);
  }

  /** Side lengths of the box around both, and of the box they share, the latter taken without sign when they are
      apart. */
  function JoinedSides(a: Box, b: Box): seq<real> {
    var n := MaxDim(a, b);
    seq(n, i requires 0 <= i < n => Max(Hi(a, i), Hi(b, i)) - Min(Lo(a, i), Lo(b, i)))
  }

  function SharedSides(a: Box, b: Box): seq<real> {
    var n := MaxDim(a, b);
    seq(n, i requires 0 <= i < n => Abs(Min(Hi(a, i), Hi(b, i)) - Max(Lo(a, i), Lo(b, i))))
  }

  /** Volume that two boxes on one page leave empty, when they meet. */
  function WastedVolume(a: Box, b: Box): real {
    Product(JoinedSides(a, b)) - Product(SharedSides(a, b))
  }

  lemma WasteIsVolume(a: Box, b: Box)
    ensures Waste(a, b) == WastedVolume(a, b)
  {
    hide Product, Volume;
    SizeIsProduct(UnionBox(a, b));
    SizeIsProduct(InterBox(a, b));
    assert SideLengths(UnionBox(a, b)) == JoinedSides(a, b);
    assert SideLengths(InterBox(a, b)) == SharedSides(a, b);
  }

  /** With three or more candidates, the seeds waste at least as much volume as any pair of offsets from 1 to n - 2, and
      more than any pair before them, pairs being ordered by their first and then by their second offset. */
  lemma SeedsWasteMost(entries: seq<Box>, s1: nat, s2: nat, i: nat, j: nat)
    requires |entries| >= 4 && GoodSeeds(entries, s1, s2) && 1 <= i < j <= |entries| - 2
    ensures 1 <= s1 < s2 <= |entries| - 2
    ensures WastedVolume(entries[i], entries[j]) <= WastedVolume(entries[s1], entries[s2])
    ensures i < s1 || (i == s1 && j < s2) ==>
              WastedVolume(entries[i], entries[j]) < WastedVolume(entries[s1], entries[s2])
  {
    hide Waste, Product, JoinedSides, SharedSides;
    WasteIsVolume(entries[i], entries[j]);
    WasteIsVolume(entries[s1], entries[s2]);
  }

  // ---------------------------------------------------------------- each entry where it adds less volume

  /** What was on a side when offset o was placed: the seed, and the offsets below o. */
  function Earlier(side: seq<nat>, seed: nat, o: nat): (r: set<nat>)
    ensures forall m :: m in r <==> m == seed || (m in side && m < o)
  {
    {seed} + set m | m in side && m < o
  }

  lemma {:induction false} EarlierStays(entries: seq<Box>, s1: nat, s2: nat, o: nat, k: nat)
    requires 1 <= s1 < |entries| && 1 <= s2 < |entries| && s1 != s2 && o <= k < |entries|
    ensures var s, t := Placed(entries, s1, s2, o), Placed(entries, s1, s2, k);
            forall m | m <= o :: (m in s.left <==> m in t.left) && (m in s.right <==> m in t.right)
    decreases k
  {
    hide UnionBox, Enlargement;
    if o < k {
      EarlierStays(entries, s1, s2, o, k - 1);
    }
  }

  lemma LeastIsUnique(b: Box, c: Box, entries: seq<Box>, members: set<nat>)
    requires forall m | m in members :: m < |entries|
    requires LeastBound(b, entries, members) && LeastBound(c, entries, members)
    ensures Product(SideLengths(b)) == Product(SideLengths(c))
  {
    hide Lo, Hi, Product;
    assert Above(b, c) && Above(c, b);
    forall i | 0 <= i < b.dim
      ensures Lo(b, i) == Lo(c, i) && Hi(b, i) == Hi(c, i)
    {
    }
    assert SideLengths(b) == SideLengths(c);
  }

  /** The volume by which the least box around the members grows with o. */
  ghost predicate Gains(entries: seq<Box>, members: set<nat>, o: nat, gain: real)
    requires o < |entries| && forall m | m in members :: m < |entries|
  {
    exists b: Box, b': Box :: LeastBound(b, entries, members) && LeastBound(b', entries, members + {o})
                              && gain == Product(SideLengths(b')) - Product(SideLengths(b))
  }

  lemma GainIsUnique(entries: seq<Box>, members: set<nat>, o: nat, x: real, y: real)
    requires o < |entries| && forall m | m in members :: m < |entries|
    ensures Gains(entries, members, o, x) && Gains(entries, members, o, y) ==> x == y
  {
    hide LeastBound, Product;
    if Gains(entries, members, o, x) && Gains(entries, members, o, y) {
      var b: Box, b': Box :| LeastBound(b, entries, members) && LeastBound(b', entries, members + {o})
                             && x == Product(SideLengths(b')) - Product(SideLengths(b));
      var c: Box, c': Box :| LeastBound(c, entries, members) && LeastBound(c', entries, members + {o})
                             && y == Product(SideLengths(c')) - Product(SideLengths(c));
      LeastIsUnique(b, c, entries, members);
      LeastIsUnique(b', c', entries, members + {o});
    }
  }

  lemma EnlargementIsGain(entries: seq<Box>, members: set<nat>, b: Box, o: nat)
    requires o < |entries| && forall m | m in members :: m < |entries|
    requires LeastBound(b, entries, members)
    ensures Gains(entries, members, o, Enlargement(b, entries[o]))
  {
    hide LeastBound, Product, UnionBox, Size;
    GrowBound(b, entries, members, o);
    SizeIsProduct(b);
    SizeIsProduct(UnionBox(b, entries[o]));
  }

  /** In the finished split every offset other than the seeds is on the left if and only if it made the least box of the
      left side, as it stood then, grow by less volume than that of the right side. */
  lemma PlacedWhereLessIsGained(entries: seq<Box>, s1: nat, s2: nat, o: nat, x: real, y: real)
    requires 1 <= s1 < |entries| && 1 <= s2 < |entries| && s1 != s2
    requires 1 <= o < |entries| && o != s1 && o != s2
    ensures var s := Placed(entries, s1, s2, |entries| - 1);
            var l, r := Earlier(s.left, s1, o), Earlier(s.right, s2, o);
            && (forall m | m in l + r :: m < |entries|)
            && (exists x :: Gains(entries, l, o, x)) && (exists y :: Gains(entries, r, o, y))
            && (Gains(entries, l, o, x) && Gains(entries, r, o, y) ==> (o in s.left <==> x < y))
  {
    hide LeastBound, Enlargement, UnionBox, Gains, Placed;
    var s, t := Placed(entries, s1, s2, |entries| - 1), Placed(entries, s1, s2, o - 1);
    var l, r := Earlier(s.left, s1, o), Earlier(s.right, s2, o);
    EarlierStays(entries, s1, s2, o - 1, |entries| - 1);
    EarlierStays(entries, s1, s2, o, |entries| - 1);
    PlacedPartitions(entries, s1, s2, o - 1);
    PlacedBounds(entries, s1, s2, o - 1);
    assert l == Members(t.left) + {s1} && r == Members(t.right) + {s2};
    EnlargementIsGain(entries, l, t.l, o);
    EnlargementIsGain(entries, r, t.r, o);
    PlacedNext(entries, s1, s2, o);
    if Gains(entries, l, o, x) && Gains(entries, r, o, y) {
      GainIsUnique(entries, l, o, x, Enlargement(t.l, entries[o]));
      GainIsUnique(entries, r, o, y, Enlargement(t.r, entries[o]));
    }
  }

  lemma PlacedNext(entries: seq<Box>, s1: nat, s2: nat, o: nat)
    requires 1 <= s1 < |entries| && 1 <= s2 < |entries| && s1 != s2
    requires 1 <= o < |entries| && o != s1 && o != s2
    ensures var t := Placed(entries, s1, s2, o - 1);
            o in Placed(entries, s1, s2, o).left <==> Enlargement(t.l, entries[o]) < Enlargement(t.r, entries[o])
  {
    hide Enlargement, UnionBox;
    PlacedPartitions(entries, s1, s2, o - 1);
  }
}
