/** Which rows a key may stand for, over all the ways it can have come about, and so exactly when a page split loses
    a row. */
module VarKeyRows {
  import opened Wrappers
  import opened Strategies
  import opened PageOffsets
  import opened VarKey
  import opened VarKeySearch
  import opened VarKeySplit

  // ---------------------------------------------------------------- bounds

  lemma {:induction false} LessAt(a: Bytea, b: Bytea, n: nat)
    requires n < |a| && n < |b| && a[..n] == b[..n] && a[n] < b[n]
    ensures Le(a, b) && CommonPrefix(a, b) == n
  {
    if n > 0 {
      assert a[0] == a[..n][0] == b[..n][0] == b[0];
      assert a[1..][..n - 1] == a[..n][1..] && b[1..][..n - 1] == b[..n][1..];
      LessAt(a[1..], b[1..], n - 1);
    }
  }

  lemma {:induction false} CommonPrefixExtends(a: Bytea, b: Bytea, v: Bytea)
    requires b <= v && CommonPrefix(a, b) < |b|
    ensures CommonPrefix(a, v) == CommonPrefix(a, b)
  {
    if a != [] && a[0] == b[0] {
      CommonPrefixExtends(a[1..], b[1..], v[1..]);
    }
  }

  lemma PairUnion(a: Key, b: Key)
    requires Le(a.Lower(), b.Lower()) && Le(a.Upper(), b.Upper())
    ensures RunningUnion([a, b]) == Some(NodeKey(a.Lower(), b.Upper()))
  {
    TwoEntryUnion(a, b);
    LeTotal(a.Lower(), b.Lower());
    LeTotal(a.Upper(), b.Upper());
  }

  lemma TripleUnion(a: Key, b: Key, c: Key)
    requires Le(a.Lower(), b.Lower()) && Le(b.Lower(), c.Lower()) && Le(a.Upper(), b.Upper()) && Le(b.Upper(), c.Upper())
    ensures RunningUnion([a, b, c]) == Some(NodeKey(a.Lower(), c.Upper()))
  {
    hide Le, RunningUnion;
    PairUnion(a, b);
    LeTransitive(a.Lower(), b.Lower(), c.Lower());
    ThirdEntry(a, b, c);
    LeTotal(a.Lower(), c.Lower());
    LeTotal(b.Upper(), c.Upper());
  }

  lemma ThirdEntry(a: Key, b: Key, c: Key)
    ensures RunningUnion([a, b, c]) == Some(BinUnion(RunningUnion([a, b]), c))
  {
    assert [a, b, c][..2] == [a, b];
  }

  // ---------------------------------------------------------------- histories

  /** A page over one row, as the union method makes it. */
  function OneRow(x: Bytea): Origin {
    Union([Entry(x)])
  }

  lemma OneRowKey(x: Bytea)
    ensures OneRow(x).WellFormed() && OneRow(x).Key() == NodeKey(x, x)
    ensures !Open(NodeKey(x, x))
  {
    var o := OneRow(x);
    assert o.parts[0].WellFormed();
    assert o.PartKeys() == [LeafKey(x)];
    assert RunningUnion([LeafKey(x)]) == Some(NodeKey(x, x));
    CommonPrefixBound(x, x);
  }

  /** A history of the key that includes the row. */
  ghost predicate Includes(o: Origin, k: Key, v: Bytea) {
    o.WellFormed() && o.Key() == k && o.Holds(v)
  }

  lemma BetweenHistory(lo: Bytea, v: Bytea, hi: Bytea) returns (o: Origin)
    requires Le(lo, v) && Le(v, hi)
    ensures Includes(o, NodeKey(lo, hi), v)
  {
    hide Le, CommonPrefix, RunningUnion, Escapes;
    var values, cpf := [lo, v, hi], |lo| + |hi| + 1;
    var keys := seq(|values|, i requires 0 <= i < |values| => LeafKey(values[i]));
    var parts := seq(|values|, i requires 0 <= i < |values| => Entry(values[i]));
    o := SplitHalf(parts, cpf);
    assert keys == [LeafKey(lo), LeafKey(v), LeafKey(hi)];
    TripleUnion(LeafKey(lo), LeafKey(v), LeafKey(hi));
    CommonPrefixBound(lo, hi);
    LeafHalfIsWellFormed(values, cpf);
    assert o.PartKeys() == keys;
    assert parts[1].Holds(v);
  }

  lemma CutHistory(lo: Bytea, hi: Bytea, v: Bytea) returns (o: Origin)
    requires Le(lo, v) && hi <= v && |lo| <= |hi| && CommonPrefix(lo, hi) + 2 <= |hi|
    ensures Includes(o, NodeKey(lo, hi), v)
  {
    hide Le, CommonPrefix, RunningUnion, Escapes;
    var values, cpf := [lo, v], |hi| - 1;
    var keys := seq(|values|, i requires 0 <= i < |values| => LeafKey(values[i]));
    var parts := seq(|values|, i requires 0 <= i < |values| => Entry(values[i]));
    o := SplitHalf(parts, cpf);
    assert keys == [LeafKey(lo), LeafKey(v)];
    PairUnion(LeafKey(lo), LeafKey(v));
    CommonPrefixExtends(lo, hi, v);
    LeafHalfIsWellFormed(values, cpf);
    assert o.PartKeys() == keys;
    assert parts[1].Holds(v);
  }

  /** A half with two parts, the first reaching lower and the second higher, cut beyond both bounds. */
  lemma PairHistory(a: Origin, b: Origin, v: Bytea) returns (o: Origin)
    requires a.WellFormed() && b.WellFormed() && (a.Holds(v) || b.Holds(v))
    requires Le(a.Key().Lower(), b.Key().Lower()) && Le(a.Key().Upper(), b.Key().Upper())
    requires Admits(NodeKey(a.Key().Lower(), b.Key().Upper()), [a.Key(), b.Key()])
    ensures Includes(o, NodeKey(a.Key().Lower(), b.Key().Upper()), v)
  {
    hide Le, CommonPrefix, RunningUnion, Admits;
    var lo, hi := a.Key().Lower(), b.Key().Upper();
    o := SplitHalf([a, b], |lo| + |hi| + 1);
    assert o.parts[0] == a && o.parts[1] == b;
    assert o.PartKeys() == [a.Key(), b.Key()];
    PairUnion(a.Key(), b.Key());
    CommonPrefixBound(lo, hi);
  }

  lemma PrefixHistory(lo: Bytea, hi: Bytea, v: Bytea) returns (o: Origin)
    requires lo <= hi && |hi| >= |lo| + 2 && |v| >= |lo| + 2 && hi[..|lo| + 2] == v[..|lo| + 2]
    ensures Includes(o, NodeKey(lo, hi), v)
  {
    hide Le, CommonPrefix;
    var stem := hi[..|lo| + 2];
    assert lo <= stem && stem <= v;
    PrefixLe(lo, v);
    PrefixIsCommon(lo, v);
    TwoRowKey(lo, v);
    assert TwoRows(lo, v).Key() == NodeKey(lo, stem) by {
      assert Take(v, |lo| + 2) == stem;
    }
    OneRowKey(hi);
    PrefixLe(lo, hi);
    PrefixLe(stem, hi);
    o := PairHistory(TwoRows(lo, v), OneRow(hi), v);
  }

  /** A bound between a long lower and a short upper one that parts from the upper one two bytes before its end. */
  function RoomBelow(lo: Bytea, hi: Bytea): Bytea
    requires CommonPrefix(lo, hi) + 2 <= |hi| < |lo|
  {
    var p := CommonPrefix(lo, hi);
    if |hi| > p + 2 then hi[..|hi| - 2]
    else if lo[p] as int + 1 < hi[p] as int then hi[..p] + [lo[p] + 1]
    else hi[..p] + [lo[p], 255]
  }

  lemma RoomIsBetween(lo: Bytea, hi: Bytea)
    requires Le(lo, hi) && CommonPrefix(lo, hi) + 2 <= |hi| < |lo| && !Tight(NodeKey(lo, hi))
    ensures var x := RoomBelow(lo, hi);
            Le(lo, x) && Le(x, hi) && |x| <= |hi| && CommonPrefix(x, hi) == |hi| - 2
  {
    hide Le, CommonPrefix;
    var p, x := CommonPrefix(lo, hi), RoomBelow(lo, hi);
    CommonPrefixParts(lo, hi);
    LeAt(lo, hi, p);
    if |hi| > p + 2 {
      PrefixLe(x, hi);
      PrefixIsCommon(x, hi);
      assert x[..p] == hi[..p];
      LessAt(lo, x, p);
    } else {
      assert x[..p] == hi[..p];
      LessAt(x, hi, p);
      if lo[p] as int + 1 < hi[p] as int {
        LessAt(lo, x, p);
      } else {
        assert x[..p + 1] == lo[..p + 1] by {
          assert lo[..p + 1] == lo[..p] + [lo[p]];
        }
        LessAt(lo, x, p + 1);
      }
    }
  }

  lemma LongLowerHistory(lo: Bytea, hi: Bytea, v: Bytea) returns (o: Origin)
    requires Le(lo, hi) && hi <= v && CommonPrefix(lo, hi) + 2 <= |hi| < |lo| && !Tight(NodeKey(lo, hi))
    ensures Includes(o, NodeKey(lo, hi), v)
  {
    hide Le, CommonPrefix, RoomBelow, Tight;
    var x := RoomBelow(lo, hi);
    RoomIsBetween(lo, hi);
    ShortPage(x, hi, v);
    OneRowKey(lo);
    NarrowHalfAdmits(lo, x, hi);
    o := PairHistory(OneRow(lo), TwoRows(x, v), v);
  }

  /** A page whose upper bound was cut from v. */
  lemma ShortPage(x: Bytea, hi: Bytea, v: Bytea)
    requires Le(x, hi) && hi <= v && |x| <= |hi| && CommonPrefix(x, hi) == |hi| - 2
    ensures TwoRows(x, v).WellFormed() && TwoRows(x, v).Key() == NodeKey(x, hi) && TwoRows(x, v).Holds(v)
  {
    hide Le, CommonPrefix;
    CommonPrefixExtends(x, hi, v);
    CommonPrefixBound(v, v);
    CommonPrefixBound(hi, hi);
    PrefixLe(hi, v);
    LeTransitive(x, hi, v);
    TwoRowKey(x, v);
  }

  lemma NarrowHalfAdmits(lo: Bytea, x: Bytea, hi: Bytea)
    requires |x| <= |hi| && CommonPrefix(x, hi) == |hi| - 2
    ensures Admits(NodeKey(lo, hi), [NodeKey(lo, lo), NodeKey(x, hi)])
  {
    hide CommonPrefix;
    OneRowKey(lo);
    assert !Escapes(NodeKey(x, hi), hi);
  }

  /** Every value that a key covers is a row of some history of that key. */
  lemma CoveredRowHasHistory(k: Key, v: Bytea) returns (o: Origin)
    requires Ordered(k) && Covers(k, v)
    ensures Includes(o, k, v)
  {
    hide Le, CommonPrefix;
    var lo, hi := k.Lower(), k.Upper();
    if k.LeafKey? {
      CommonPrefixBound(k.value, k.value);
      LeTotal(k.value, v);
      o := Entry(v);
    } else if Le(v, hi) {
      o := BetweenHistory(lo, v, hi);
    } else if lo <= hi {
      PrefixIsCommon(lo, hi);
      o := PrefixHistory(lo, hi, v);
    } else if |lo| <= |hi| {
      o := CutHistory(lo, hi, v);
    } else {
      o := LongLowerHistory(lo, hi, v);
    }
  }

  /** Covering is exact: what a key covers is what its histories can hold, no less and no more. */
  lemma CoversIffHeld(k: Key, v: Bytea)
    requires Ordered(k)
    ensures Covers(k, v) <==> exists o: Origin :: Includes(o, k, v)
  {
    hide Covers;
    if Covers(k, v) {
      var o := CoveredRowHasHistory(k, v);
    } else if o: Origin :| Includes(o, k, v) {
      OriginCovers(o, v);
    }
  }

  // ---------------------------------------------------------------- rows lost by splits

  /** Searches through the key find every matching row of every history of the entries. */
  ghost predicate KeepsRows(k: Key, side: seq<Key>, unionsOnly: bool) {
    forall e: Key, o: Origin, v: Bytea, q: Bytea, strategy: int |
      e in side && Includes(o, e, v) && (unionsOnly ==> o.Union?) && Matches(v, q, strategy) ::
      Consistent(k, q, strategy, false)
  }

  lemma AdmittedHalfKeepsRows(side: seq<Key>, cpf: nat, unionsOnly: bool)
    requires side != [] && cpf > PrefixLen(RunningUnion(side).value)
    requires (forall e | e in side :: Ordered(e)) && Admits(HalfKey(side, cpf), side)
    ensures KeepsRows(HalfKey(side, cpf), side, unionsOnly)
  {
    hide Covers, Admits, HalfKey, Le, CommonPrefix, Consistent, Matches;
    forall e: Key, o: Origin, v: Bytea, q: Bytea, strategy: int |
      e in side && Includes(o, e, v) && (unionsOnly ==> o.Union?) && Matches(v, q, strategy)
      ensures Consistent(HalfKey(side, cpf), q, strategy, false)
    {
      OriginCovers(o, v);
      HalfKeyKeepsCovering(side, cpf, e, v);
      CoveredMatchIsConsistent(HalfKey(side, cpf), v, q, strategy);
    }
  }

  /** Exactly when a split loses no row: whatever made the entries of a half, the half's key leads to all their
      matching rows if and only if it admits the entries. */
  lemma HalfKeepsRowsIff(side: seq<Key>, cpf: nat)
    requires side != [] && cpf > PrefixLen(RunningUnion(side).value)
    requires forall e | e in side :: Ordered(e)
    ensures KeepsRows(HalfKey(side, cpf), side, false) <==> Admits(HalfKey(side, cpf), side)
  {
    hide Covers, Admits, HalfKey, Le, CommonPrefix, Consistent;
    if Admits(HalfKey(side, cpf), side) {
      AdmittedHalfKeepsRows(side, cpf, false);
    } else {
      var e, v := InadmissibleHalfLosesValue(side, cpf);
      var o := CoveredRowHasHistory(e, v);
      assert Matches(v, v, EQUAL);
    }
  }

  /** A half cut as short as the union method would cut it admits all its entries. */
  lemma ShortCutAdmits(side: seq<Key>, cpf: nat)
    requires side != [] && cpf == PrefixLen(RunningUnion(side).value) + 1
    requires forall e | e in side :: Ordered(e)
    ensures Admits(HalfKey(side, cpf), side)
  {
    hide Ordered, Escapes, CommonPrefix;
    forall e | e in side
      ensures !Escapes(e, UnionKey(side).Upper())
    {
      var i :| 0 <= i < |side| && side[i] == e;
      UnionNeverEscapes(side, i);
    }
  }

  /** Of a whole split, only the half with the shorter common prefix can lose rows: the split keeps all rows if and
      only if that half's key admits its entries, and always when the prefixes are equally long. */
  lemma SplitKeepsRowsIff(entries: seq<Key>, order: seq<nat>)
    requires |entries| >= 2 && |order| == |entries| && (forall i | 0 <= i < |order| :: 1 <= order[i] <= |entries|)
    requires forall i | 0 <= i < |entries| :: Ordered(entries[i])
    ensures var s := PickSplit(entries, order);
            var l, r := At(entries, s.left), At(entries, s.right);
            var pl, pr := PrefixLen(RunningUnion(l).value), PrefixLen(RunningUnion(r).value);
            (KeepsRows(s.ldatum, l, false) && KeepsRows(s.rdatum, r, false))
            <==> ((pl < pr ==> Admits(s.ldatum, l)) && (pr < pl ==> Admits(s.rdatum, r)))
  {
    hide KeepsRows, Admits, HalfKey, Ordered, PrefixLen, BinUnion;
    var s := PickSplit(entries, order);
    var l, r := At(entries, s.left), At(entries, s.right);
    var pl, pr := PrefixLen(RunningUnion(l).value), PrefixLen(RunningUnion(r).value);
    var cpf := SharedLength(l, r);
    HalfKeepsRowsIff(l, cpf);
    HalfKeepsRowsIff(r, cpf);
    if pl >= pr {
      ShortCutAdmits(l, cpf);
    }
    if pr >= pl {
      ShortCutAdmits(r, cpf);
    }
  }

  /** A key that the union method made. */
  ghost predicate UnionMade(k: Key) {
    exists o: Origin :: o.Union? && o.WellFormed() && o.Key() == k
  }

  /** Inserting a covered row below a page keyed by the union method leaves the key as it is. */
  lemma CoveredRowFitsUnion(o: Origin, v: Bytea)
    requires o.Union? && o.WellFormed()
    ensures Covers(o.Key(), v) ==> Includes(Union([o, Entry(v)]), o.Key(), v)
  {
    hide Covers, UnionKey;
    var k := o.Key();
    if Covers(k, v) {
      UnionKeyIsShort(o.PartKeys());
      WidenedUnion(k, v);
      UnionOfTwo(o, Entry(v));
      assert [o, Entry(v)][1].Holds(v);
    }
  }

  lemma UnionKeyIsShort(ks: seq<Key>)
    requires ks != []
    ensures var k := UnionKey(ks);
            k.NodeKey? && |k.lo| <= PrefixLen(k) + 2 && |k.hi| <= PrefixLen(k) + 2
  {
    hide CommonPrefix, BinUnion;
    var u := RunningUnion(ks).value;
    TruncatedKey(u, PrefixLen(u) + 1);
  }

  lemma UnionOfTwo(a: Origin, b: Origin)
    requires a.WellFormed() && b.WellFormed()
    ensures Union([a, b]).WellFormed() && Union([a, b]).Key() == UnionKey([a.Key(), b.Key()])
  {
    hide UnionKey, RunningUnion, Admits, PrefixLen, Truncate;
    var o := Union([a, b]);
    assert o.parts[0] == a && o.parts[1] == b;
    assert o.PartKeys() == [a.Key(), b.Key()];
  }

  lemma WidenedUnion(k: Key, v: Bytea)
    requires k.NodeKey? && |k.lo| <= PrefixLen(k) + 2 && |k.hi| <= PrefixLen(k) + 2 && Covers(k, v)
    ensures UnionKey([k, LeafKey(v)]) == k
  {
    hide Le, CommonPrefix, RunningUnion;
    if Le(v, k.hi) {
      InnerUnion(k, v);
    } else {
      LeTotal(v, k.hi);
      PairUnion(k, LeafKey(v));
      CommonPrefixExtends(k.lo, k.hi, v);
    }
  }

  lemma InnerUnion(k: Key, v: Bytea)
    requires k.NodeKey? && Le(k.lo, v) && Le(v, k.hi)
    ensures RunningUnion([k, LeafKey(v)]) == Some(k)
  {
    hide Le;
    TwoEntryUnion(k, LeafKey(v));
    LeTotal(k.lo, v);
    LeTotal(v, k.hi);
  }

  /** The same for pages keyed by the union method alone: if a half's key does not admit its entries, then rows of
      such pages are already lost. */
  lemma UnionMadeHalfKeepsRowsIff(side: seq<Key>, cpf: nat)
    requires side != [] && cpf > PrefixLen(RunningUnion(side).value)
    requires forall e | e in side :: UnionMade(e)
    ensures KeepsRows(HalfKey(side, cpf), side, true) <==> Admits(HalfKey(side, cpf), side)
  {
    hide Covers, Admits, HalfKey, Consistent, Ordered, RunningUnion;
    forall e | e in side
      ensures Ordered(e)
    {
      var o: Origin :| o.Union? && o.WellFormed() && o.Key() == e;
      OriginOrdered(o);
    }
    if Admits(HalfKey(side, cpf), side) {
      AdmittedHalfKeepsRows(side, cpf, true);
    } else {
      var e, v := InadmissibleHalfLosesValue(side, cpf);
      var o: Origin :| o.Union? && o.WellFormed() && o.Key() == e;
      CoveredRowFitsUnion(o, v);
      assert Matches(v, v, EQUAL);
    }
  }
}
