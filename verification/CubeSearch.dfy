/** Searching a GiST tree over boxes. */
module CubeSearch {
  import opened Wrappers
  import opened Cube
  import opened CubePoints
  import opened GistTree

  const OVERLAP := 3
  const SAME := 6
  const CONTAINS := 7
  const CONTAINED_BY := 8
  const OLD_CONTAINS := 13
  const OLD_CONTAINED_BY := 14

  predicate LeafConsistent(key: Box, query: Box, strategy: int) {
    if strategy == OVERLAP then Overlap(key, query)
    else if strategy == SAME then SameBox(key, query)
    else if strategy == CONTAINS || strategy == OLD_CONTAINS then Contains(key, query)
    else if strategy == CONTAINED_BY || strategy == OLD_CONTAINED_BY then Contains(query, key)
    else false
  }

  predicate InternalConsistent(key: Box, query: Box, strategy: int) {
    if strategy == OVERLAP then Overlap(key, query)
    else if strategy == SAME || strategy == CONTAINS || strategy == OLD_CONTAINS then Contains(key, query)
    else if strategy == CONTAINED_BY || strategy == OLD_CONTAINED_BY then Overlap(key, query)
    else false
  }

  /** What the strategies ask of a row, by points: a common one, the same ones, all those of the query, or none but
      those of the query. */
  lemma LeafTestByPoints(l: Box, q: Box, strategy: int)
    ensures LeafConsistent(l, q, strategy) <==>
            match strategy
            case 3 => exists p :: PointIn(p, l, MaxDim(l, q)) && PointIn(p, q, MaxDim(l, q))
            case 6 => l.dim == q.dim && PointsWithin(l, q, l.dim) && PointsWithin(q, l, l.dim)
            case 7 => PointsWithin(q, l, q.dim)
            case 8 => PointsWithin(l, q, l.dim)
            case 13 => PointsWithin(q, l, q.dim)
            case 14 => PointsWithin(l, q, l.dim)
            case _ => false
  {
    hide Overlap, SameBox, Contains, PointsWithin, PointIn;
    OverlapIff(l, q);
    SameBoxIff(l, q);
    ContainsIff(l, q);
    ContainsIff(q, l);
  }

  // ---------------------------------------------------------------- keys above rows

  /** The box k bounds the box l: at least its dimensions, and containing it in each of k's. */
  ghost predicate Above(k: Box, l: Box) {
    k.dim >= l.dim && forall i | 0 <= i < k.dim :: Lo(k, i) <= Lo(l, i) && Hi(l, i) <= Hi(k, i)
  }

  /** Seen in its own dimensions, k has every point of l. */
  lemma AboveIff(k: Box, l: Box)
    ensures Above(k, l) <==> k.dim >= l.dim && PointsWithin(l, k, k.dim)
  {
    hide Lo, Hi, PointsWithin;
    WithinIff(l, k, k.dim);
  }

  lemma AboveTransitive(k: Box, m: Box, l: Box)
    requires Above(k, m) && Above(m, l)
    ensures Above(k, l)
  {
  }

  /** A union bounds both its arguments, and every box that bounds both bounds the union. */
  lemma UnionIsLeast(a: Box, b: Box)
    ensures Above(UnionBox(a, b), a) && Above(UnionBox(a, b), b)
    ensures forall k | Above(k, a) && Above(k, b) :: Above(k, UnionBox(a, b))
  {
  }

  /** The union method over an entry vector; a single entry yields no box at all. */
  method GCubeUnion(entries: seq<Box>) returns (out: Option<Box>)
    requires entries != []
    ensures out.None? <==> |entries| == 1
    ensures out.Some? ==> forall i | 0 <= i < |entries| :: Above(out.value, entries[i])
    ensures out.Some? ==> forall k: Box :: (forall i | 0 <= i < |entries| :: Above(k, entries[i])) ==> Above(k, out.value)
  {
    hide Above, UnionBox;
    out := None;
    var tmp := entries[0];
    AboveSelf(tmp);
    for i := 1 to |entries|
      invariant out == if i == 1 then None else Some(tmp)
      invariant forall k | 0 <= k < i :: Above(tmp, entries[k])
      invariant forall k: Box :: (forall j | 0 <= j < i :: Above(k, entries[j])) ==> Above(k, tmp)
    {
      var u := CubeUnion(tmp, entries[i]);
      UnionIsLeast(tmp, entries[i]);
      forall k | 0 <= k < i
        ensures Above(u, entries[k])
      {
        AboveTransitive(u, tmp, entries[k]);
      }
      out, tmp := Some(u), u;
    }
  }

  lemma AboveSelf(l: Box)
    ensures Above(l, l)
  {
  }

  /** The query's dimensions beyond n all include zero. */
  ghost predicate IncludesZeroBeyond(q: Box, n: nat) {
    forall i | n <= i < q.dim :: Lo(q, i) <= 0.0 <= Hi(q, i)
  }

  /** A row matched by overlap, same or contains is never cut off by a box above it; a contained row is not cut
      off when the query includes zero in the dimensions the row lacks. */
  lemma MatchedRowIsReached(k: Box, l: Box, q: Box, strategy: int)
    requires Above(k, l) && LeafConsistent(l, q, strategy)
    requires strategy == CONTAINED_BY || strategy == OLD_CONTAINED_BY ==> IncludesZeroBeyond(q, l.dim)
    ensures InternalConsistent(k, q, strategy)
  {
  }

  /** The part of a box's first n dimensions shared with q, as a box. */
  function SharedPart(k: Box, q: Box): (r: Box)
    ensures r.dim == k.dim
    ensures forall i | 0 <= i < r.dim :: r.p[i] == Max(Lo(k, i), Lo(q, i)) && r.q[i] == Min(Hi(k, i), Hi(q, i))
  {
    RawBox(k.dim, seq(k.dim, i requires 0 <= i < k.dim => Max(Lo(k, i), Lo(q, i))),
                  seq(k.dim, i requires 0 <= i < k.dim => Min(Hi(k, i), Hi(q, i))))
  }

  /** A box passes the internal test only if some row below it could match; "same" is tested as "contains". */
  lemma VisitIsJustified(k: Box, q: Box, strategy: int)
    requires InternalConsistent(k, q, strategy)
    ensures exists l :: Above(k, l) && LeafConsistent(l, q, if strategy == SAME then CONTAINS else strategy)
  {
    if strategy == CONTAINED_BY || strategy == OLD_CONTAINED_BY {
      var l := SharedPart(k, q);
      forall i | 0 <= i < k.dim
        ensures Lo(k, i) <= Lo(l, i) && Hi(l, i) <= Hi(k, i) && Lo(q, i) <= Lo(l, i) && Hi(l, i) <= Hi(q, i)
      {
        assert Lo(k, i) <= Hi(q, i) && Lo(q, i) <= Hi(k, i);
      }
      assert Above(k, l) && LeafConsistent(l, q, strategy);
    } else {
      AboveSelf(k);
      assert LeafConsistent(k, q, if strategy == SAME then CONTAINS else strategy);
    }
  }

  /** Exactly when a contained row is reached below every box above it. */
  lemma ContainedRowReachedIff(l: Box, q: Box)
    requires Contains(q, l)
    ensures (forall k: Box | Above(k, l) :: InternalConsistent(k, q, CONTAINED_BY)) <==> IncludesZeroBeyond(q, l.dim)
  {
    if IncludesZeroBeyond(q, l.dim) {
      forall k: Box | Above(k, l)
        ensures InternalConsistent(k, q, CONTAINED_BY)
      {
        MatchedRowIsReached(k, l, q, CONTAINED_BY);
      }
    } else {
      AboveSelf(l);
      LostUnderItself(l, q, CONTAINED_BY);
    }
  }

  /** The one-dimensional box (1),(2) lies in the query (0,5),(3,6) as the operator sees it, yet a search that
      meets it under its own box misses it. */
  lemma ContainedRowCanBeLost() returns (l: Box, q: Box)
    ensures LeafConsistent(l, q, CONTAINED_BY)
    ensures Above(UnionBox(l, l), l) && !InternalConsistent(UnionBox(l, l), q, CONTAINED_BY)
  {
    l := RawBox(1, [1.0], [2.0]);
    q := RawBox(2, [0.0, 5.0], [3.0, 6.0]);
    var k := UnionBox(l, l);
    assert k.dim == 1 && q.dim == 2 && MaxDim(k, q) == 2;
    assert Lo(q, 1) == 5.0 && Hi(k, 1) == 0.0;
  }

  // ---------------------------------------------------------------- scans

  function KeyOf(t: Tree<Box, Box>): Box {
    if t.Row? then t.value else t.key
  }

  /** A page keyed by a box above its children's keys, as unions and splits make them, covers all rows below. */
  lemma SoundPage(k: Box, cs: seq<Tree<Box, Box>>)
    requires forall i | 0 <= i < |cs| :: Covering(cs[i], (k, b) => Above(k, b)) && Above(k, KeyOf(cs[i]))
    ensures Covering(Page(k, cs), (k, b) => Above(k, b))
  {
    hide Above;
    forall b | b in RowsOf(cs)
      ensures Above(k, b)
    {
      var i := RowsBelongToChild(cs, b);
      if cs[i].Page? {
        AboveTransitive(k, cs[i].key, b);
      }
    }
  }

  /** The contained-by strategies are promised only for queries that include zero beyond the row's dimensions. */
  ghost predicate Answerable(bs: seq<Box>, q: Box, strategy: int) {
    strategy == CONTAINED_BY || strategy == OLD_CONTAINED_BY ==>
      forall b | b in bs :: Contains(q, b) ==> IncludesZeroBeyond(q, b.dim)
  }

  /** The scan returns exactly the matching rows, in order, for boxes of any mix of dimensions. */
  lemma SearchIsExact(t: Tree<Box, Box>, q: Box, strategy: int)
    requires Covering(t, (k, b) => Above(k, b)) && Answerable(Rows(t), q, strategy)
    ensures Scan(t, k => InternalConsistent(k, q, strategy), b => LeafConsistent(b, q, strategy))
            == Select(Rows(t), b => LeafConsistent(b, q, strategy))
  {
    hide InternalConsistent, Above, Contains, IncludesZeroBeyond;
    forall k: Box, b | b in Rows(t) && Above(k, b) && LeafConsistent(b, q, strategy)
      ensures InternalConsistent(k, q, strategy)
    {
      MatchedRowIsReached(k, b, q, strategy);
    }
    ScanIsExact(t, k => InternalConsistent(k, q, strategy), b => LeafConsistent(b, q, strategy),
                (k, b) => Above(k, b), b => LeafConsistent(b, q, strategy));
  }

  /** A box above all of them. */
  function Hull(bs: seq<Box>): Box {
    if bs == [] then RawBox(0, [], []) else UnionBox(bs[0], Hull(bs[1..]))
  }

  lemma {:induction false} HullIsAbove(bs: seq<Box>)
    ensures forall b | b in bs :: Above(Hull(bs), b)
  {
    hide Above, UnionBox;
    if bs != [] {
      HullIsAbove(bs[1..]);
      UnionIsLeast(bs[0], Hull(bs[1..]));
      forall b | b in bs
        ensures Above(Hull(bs), b)
      {
        if b != bs[0] {
          assert b in bs[1..];
          AboveTransitive(Hull(bs), Hull(bs[1..]), b);
        }
      }
    }
  }

  /** Pages with one row each. */
  function Singletons(bs: seq<Box>): (ts: seq<Tree<Box, Box>>)
    ensures |ts| == |bs| && forall i | 0 <= i < |bs| :: ts[i] == Page(bs[i], [Row(bs[i])])
  {
    seq(|bs|, i requires 0 <= i < |bs| => Page(bs[i], [Row(bs[i])]))
  }

  lemma {:induction false} SingletonRows(bs: seq<Box>)
    ensures RowsOf(Singletons(bs)) == bs
  {
    if bs != [] {
      RowsOfOne<Box, Box>(Row(bs[0]));
      assert Singletons(bs)[1..] == Singletons(bs[1..]);
      SingletonRows(bs[1..]);
    }
  }

  lemma SingletonsAreSound(bs: seq<Box>)
    ensures Covering(Page(Hull(bs), Singletons(bs)), (k, b) => Above(k, b))
  {
    hide Above;
    SingletonRows(bs);
    HullIsAbove(bs);
    forall i | 0 <= i < |bs|
      ensures Covering(Singletons(bs)[i], (k, b) => Above(k, b))
    {
      AboveSelf(bs[i]);
      RowsOfOne<Box, Box>(Row(bs[i]));
    }
  }

  ghost predicate ScansExactly(t: Tree<Box, Box>, q: Box, strategy: int) {
    Scan<Box, Box>(t, (k: Box) => InternalConsistent(k, q, strategy), (b: Box) => LeafConsistent(b, q, strategy))
    == Select(Rows(t), (b: Box) => LeafConsistent(b, q, strategy))
  }

  ghost function KeptFor(q: Box, strategy: int): (Box, Box) -> bool {
    Kept<Box, Box>((k: Box) => InternalConsistent(k, q, strategy), (b: Box) => LeafConsistent(b, q, strategy))
  }

  lemma ScansExactlyIff(t: Tree<Box, Box>, q: Box, strategy: int)
    ensures ScansExactly(t, q, strategy) <==> Covering(t, KeptFor(q, strategy))
  {
    hide InternalConsistent, LeafConsistent;
    ScanIsExactIff<Box, Box>(t, (k: Box) => InternalConsistent(k, q, strategy), (b: Box) => LeafConsistent(b, q, strategy),
                   (b: Box) => LeafConsistent(b, q, strategy));
  }

  /** The condition is exact for scans too: all sound trees over the rows are scanned exactly if and only if the query
      is answerable. */
  lemma AnswerableIff(bs: seq<Box>, q: Box, strategy: int)
    ensures (forall t: Tree<Box, Box> | Rows(t) == bs && Covering(t, (k, b) => Above(k, b)) :: ScansExactly(t, q, strategy))
            <==> Answerable(bs, q, strategy)
  {
    hide InternalConsistent, LeafConsistent, Above, Hull, IncludesZeroBeyond, Contains;
    if Answerable(bs, q, strategy) {
      forall t: Tree<Box, Box> | Rows(t) == bs && Covering(t, (k, b) => Above(k, b))
        ensures ScansExactly(t, q, strategy)
      {
        SearchIsExact(t, q, strategy);
      }
    } else {
      var b :| b in bs && Contains(q, b) && !IncludesZeroBeyond(q, b.dim);
      SingletonRows(bs);
      SingletonsAreSound(bs);
      LosingTree(bs, q, strategy, b);
    }
  }

  lemma LosingTree(bs: seq<Box>, q: Box, strategy: int, b: Box)
    requires b in bs && Contains(q, b) && !IncludesZeroBeyond(q, b.dim)
    requires strategy == CONTAINED_BY || strategy == OLD_CONTAINED_BY
    ensures !ScansExactly(Page(Hull(bs), Singletons(bs)), q, strategy)
  {
    hide InternalConsistent, LeafConsistent, Hull, IncludesZeroBeyond, Contains, ScansExactly;
    var i :| 0 <= i < |bs| && bs[i] == b;
    LostUnderItself(b, q, strategy);
    RowsOfOne<Box, Box>(Row(b));
    assert !KeptFor(q, strategy)(b, b);
    assert !Covering(Singletons(bs)[i], KeptFor(q, strategy)) by {
      assert b in Rows<Box, Box>(Row(b));
    }
    ScansExactlyIff(Page(Hull(bs), Singletons(bs)), q, strategy);
  }

  lemma LostUnderItself(b: Box, q: Box, strategy: int)
    requires Contains(q, b) && !IncludesZeroBeyond(q, b.dim)
    requires strategy == CONTAINED_BY || strategy == OLD_CONTAINED_BY
    ensures LeafConsistent(b, q, strategy) && !InternalConsistent(b, q, strategy)
  {
    var i :| b.dim <= i < q.dim && !(Lo(q, i) <= 0.0 <= Hi(q, i));
    assert !(Lo(b, i) <= Hi(q, i) && Lo(q, i) <= Hi(b, i));
    assert !Overlap(b, q);
  }
}
