/** Page splits of variable-length keys: sort, cut the sorted order in half, and truncate both halves to one
    shared length. */
module VarKeySplit {
  import opened Integers
  import opened Wrappers
  import opened Multibyte
  import opened VarKey
  import opened VarKeySearch
  import opened PageOffsets
  import opened Strategies

  /** The sort order: lower bounds first, then upper bounds. */
  predicate SortsBefore(a: Key, b: Key) {
    var res := Cmp(a.Lower(), b.Lower());
    if res == 0 then Cmp(a.Upper(), b.Upper()) <= 0 else res <= 0
  }

  /** What the sort delivers: the offsets 1 to n in an order that sorts their keys. */
  ghost predicate SortedOrder(entries: seq<Key>, order: seq<nat>) {
    && |order| == |entries|
    && multiset(order) == multiset(Offsets(|entries|))
    && (forall i | 0 <= i < |order| :: 1 <= order[i] <= |entries|)
    && forall i, j | 0 <= i < j < |order| :: SortsBefore(entries[order[i] - 1], entries[order[j] - 1])
  }

  datatype Split = Split(left: seq<nat>, right: seq<nat>, ldatum: Key, rdatum: Key)

  /** Shared truncation argument of both halves. */
  function SharedLength(left: seq<Key>, right: seq<Key>): nat
    requires left != [] && right != []
  {
    Max(PrefixLen(RunningUnion(left).value), PrefixLen(RunningUnion(right).value)) + 1
  }

  function HalfKey(side: seq<Key>, cpf: nat): Key
    requires side != []
  {
    Truncate(RunningUnion(side).value, cpf)
  }

  function PickSplit(entries: seq<Key>, order: seq<nat>): Split
    requires |entries| >= 2 && |order| == |entries|
    requires forall i | 0 <= i < |order| :: 1 <= order[i] <= |entries|
  {
    var half := |entries| / 2;
    var left, right := At(entries, order[..half]), At(entries, order[half..]);
    var cpf := SharedLength(left, right);
    Split(order[..half], order[half..], HalfKey(left, cpf), HalfKey(right, cpf))
  }

  /** Every offset lands in exactly one half, no half is empty, and the halves are ordered. */
  lemma SplitPartitions(entries: seq<Key>, order: seq<nat>)
    requires |entries| >= 2 && SortedOrder(entries, order)
    ensures var s := PickSplit(entries, order);
            && s.left != [] && s.right != [] && |s.left| == |entries| / 2
            && multiset(s.left + s.right) == multiset(Offsets(|entries|))
            && (forall o | 1 <= o <= |entries| :: o in s.left <==> o !in s.right)
            && (forall l | l in s.left :: 1 <= l <= |entries|)
            && (forall r | r in s.right :: 1 <= r <= |entries|)
            && forall l, r | l in s.left && r in s.right ::
                 var a, b := entries[l - 1], entries[r - 1];
                 Le(a.Lower(), b.Lower()) && (a.Lower() == b.Lower() ==> Le(a.Upper(), b.Upper()))
  {
    hide SortsBefore, SharedLength, HalfKey;
    var half := |entries| / 2;
    assert order == order[..half] + order[half..];
    forall o | 1 <= o <= |entries|
      ensures o in order[..half] <==> o !in order[half..]
    {
      InOneHalf(order, half, |entries|, o);
    }
    HalvesOrdered(entries, order, half);
    forall l, r | l in order[..half] && r in order[half..]
      ensures var a, b := entries[l - 1], entries[r - 1];
              Le(a.Lower(), b.Lower()) && (a.Lower() == b.Lower() ==> Le(a.Upper(), b.Upper()))
    {
      SortsByBounds(entries[l - 1], entries[r - 1]);
    }
  }

  lemma SortsByBounds(a: Key, b: Key)
    ensures SortsBefore(a, b) <==> Le(a.Lower(), b.Lower()) && (a.Lower() == b.Lower() ==> Le(a.Upper(), b.Upper()))
  {
    hide Le;
    LeReflexive(a.Lower());
    LeReflexive(a.Upper());
  }

  lemma HalvesOrdered(entries: seq<Key>, order: seq<nat>, half: nat)
    requires SortedOrder(entries, order) && half <= |order|
    ensures forall l | l in order[..half] :: 1 <= l <= |entries|
    ensures forall r | r in order[half..] :: 1 <= r <= |entries|
    ensures forall l, r | l in order[..half] && r in order[half..] :: SortsBefore(entries[l - 1], entries[r - 1])
  {
  }

  lemma HalfKeyKeepsCovering(side: seq<Key>, cpf: nat, e: Key, v: Bytea)
    requires side != [] && cpf > PrefixLen(RunningUnion(side).value)
    requires e in side && Ordered(e) && Covers(e, v) && Admits(HalfKey(side, cpf), side)
    ensures Covers(HalfKey(side, cpf), v)
  {
    hide Covers, Escapes, Le, CommonPrefix;
    var i :| 0 <= i < |side| && side[i] == e;
    RunningUnionWidest(side, i);
    TruncateKeepsCovering(RunningUnion(side).value, cpf, e, v);
  }

  /** A half key that does not admit its entries is skipped by a search for some value that an entry covers. */
  lemma InadmissibleHalfLosesValue(side: seq<Key>, cpf: nat) returns (e: Key, v: Bytea)
    requires side != [] && cpf > PrefixLen(RunningUnion(side).value)
    requires (forall e | e in side :: Ordered(e)) && !Admits(HalfKey(side, cpf), side)
    ensures e in side && Covers(e, v)
    ensures !Covers(HalfKey(side, cpf), v) && !Consistent(HalfKey(side, cpf), v, EQUAL, false)
  {
    hide Escapes, Le, CommonPrefix, Open, Truncate, Stem, Covers, Consistent;
    var u, k := RunningUnion(side).value, HalfKey(side, cpf);
    e :| e in side && Escapes(e, k.Upper());
    v := EscapingValue(e, k.Upper());
    var i :| 0 <= i < |side| && side[i] == e;
    RunningUnionWidest(side, i);
    CommonPrefixNarrows(u.Lower(), e.Lower(), e.Upper(), u.Upper());
    TruncatedKey(u, cpf);
    LowerIsNoPrefix(k, v, PrefixLen(e) + 2);
    ValueIsRefused(k, v);
  }

  /** A value above the upper bound that starts with neither bound is out of reach. */
  lemma ValueIsRefused(k: Key, v: Bytea)
    requires !(k.Lower() <= k.Upper()) && !(k.Lower() <= v) && !Le(v, k.Upper()) && !(k.Upper() <= v)
    ensures !Covers(k, v) && !Consistent(k, v, EQUAL, false)
  {
    hide Le, CommonPrefix;
    LeTotal(v, k.Upper());
  }

  /** A lower bound that is no prefix of the upper one parts from it, and from whatever agrees with it further on. */
  lemma LowerIsNoPrefix(k: Key, v: Bytea, n: nat)
    requires !(k.Lower() <= k.Upper()) && PrefixLen(k) < n <= |v| && n <= |k.Upper()| && v[..n] == k.Upper()[..n]
    ensures !(k.Lower() <= v)
  {
    var p := PrefixLen(k);
    CommonPrefixParts(k.Lower(), k.Upper());
    assert v[p] == v[..n][p] == k.Upper()[..n][p] == k.Upper()[p];
  }

  /** Exactly when a half key loses nothing: searches below it miss no value that an entry covers if and only if
      its lower bound is a prefix of its upper bound or no entry escapes the kept upper bound. */
  lemma HalfKeyLosesNothingIff(side: seq<Key>, cpf: nat)
    requires side != [] && cpf > PrefixLen(RunningUnion(side).value)
    requires forall e | e in side :: Ordered(e)
    ensures var k := HalfKey(side, cpf);
            (forall e, v, q, strategy | e in side && Covers(e, v) && Matches(v, q, strategy) ::
               Consistent(k, q, strategy, false))
            <==> (k.Lower() <= k.Upper() || forall e | e in side :: !Escapes(e, k.Upper()))
  {
    hide Covers, Escapes, Le, CommonPrefix, Consistent;
    var k := HalfKey(side, cpf);
    if Admits(k, side) {
      forall e, v, q, strategy | e in side && Covers(e, v) && Matches(v, q, strategy)
        ensures Consistent(k, q, strategy, false)
      {
        HalfKeyKeepsCovering(side, cpf, e, v);
        CoveredMatchIsConsistent(k, v, q, strategy);
      }
    } else {
      var e, v := InadmissibleHalfLosesValue(side, cpf);
      assert Matches(v, v, EQUAL);
    }
  }

  /** The same condition decides whether the covering promise survives the cut. */
  lemma HalfKeyCoversIff(side: seq<Key>, cpf: nat)
    requires side != [] && cpf > PrefixLen(RunningUnion(side).value)
    requires forall e | e in side :: Ordered(e)
    ensures (forall e, v | e in side && Covers(e, v) :: Covers(HalfKey(side, cpf), v))
            <==> Admits(HalfKey(side, cpf), side)
  {
    hide Covers, Admits, HalfKey, Le, CommonPrefix;
    if Admits(HalfKey(side, cpf), side) {
      forall e, v | e in side && Covers(e, v)
        ensures Covers(HalfKey(side, cpf), v)
      {
        HalfKeyKeepsCovering(side, cpf, e, v);
      }
    } else {
      var e, v := InadmissibleHalfLosesValue(side, cpf);
    }
  }

  /** Splitting a page of leaf entries keeps every value of a half covered by that half's key. */
  lemma LeafSplitCovers(entries: seq<Key>, order: seq<nat>, o: nat)
    requires |entries| >= 2 && |order| == |entries| && (forall i | 0 <= i < |order| :: 1 <= order[i] <= |entries|)
    requires forall i | 0 <= i < |entries| :: entries[i].LeafKey?
    requires 1 <= o <= |entries|
    ensures var s := PickSplit(entries, order);
            && (o in s.left ==> Covers(s.ldatum, entries[o - 1].value))
            && (o in s.right ==> Covers(s.rdatum, entries[o - 1].value))
  {
    hide Covers, HalfKey, SharedLength, BinUnion, PrefixLen;
    var half := |entries| / 2;
    var left, right := At(entries, order[..half]), At(entries, order[half..]);
    SharedLengthSuffices(left, right);
    var cpf := SharedLength(left, right);
    if o in order[..half] {
      LeafSideCovers(entries, order[..half], cpf, o);
    }
    if o in order[half..] {
      LeafSideCovers(entries, order[half..], cpf, o);
    }
  }

  lemma LeafSideCovers(entries: seq<Key>, side: seq<nat>, cpf: nat, o: nat)
    requires (forall i | 0 <= i < |side| :: 1 <= side[i] <= |entries|) && o in side
    requires cpf > PrefixLen(RunningUnion(At(entries, side)).value)
    requires entries[o - 1].LeafKey?
    ensures Covers(HalfKey(At(entries, side), cpf), entries[o - 1].value)
  {
    hide Covers, HalfKey, PrefixLen, BinUnion;
    var i :| 0 <= i < |side| && side[i] == o;
    LeafHalfCovers(At(entries, side), cpf, i);
  }

  lemma SharedLengthSuffices(left: seq<Key>, right: seq<Key>)
    requires left != [] && right != []
    ensures SharedLength(left, right) > PrefixLen(RunningUnion(left).value)
    ensures SharedLength(left, right) > PrefixLen(RunningUnion(right).value)
  {
  }

  lemma LeafHalfCovers(side: seq<Key>, cpf: nat, i: nat)
    requires i < |side| && cpf > PrefixLen(RunningUnion(side).value)
    requires side[i].LeafKey?
    ensures Covers(HalfKey(side, cpf), side[i].value)
  {
    hide Covers;
    var e := side[i];
    CommonPrefixBound(e.value, e.value);
    LeReflexive(e.value);
    LeafCovers(e.value);
    RunningUnionWidest(side, i);
    TruncateKeepsCovering(RunningUnion(side).value, cpf, e, e.value);
  }

  /** A half of a leaf page is a well-formed key history, so searches below it are exact. */
  lemma LeafHalfIsWellFormed(values: seq<Bytea>, cpf: nat)
    requires values != []
    requires var keys := seq(|values|, i requires 0 <= i < |values| => LeafKey(values[i]));
             cpf > PrefixLen(RunningUnion(keys).value)
    ensures SplitHalf(seq(|values|, i requires 0 <= i < |values| => Entry(values[i])), cpf).WellFormed()
  {
    var keys := seq(|values|, i requires 0 <= i < |values| => LeafKey(values[i]));
    var half := SplitHalf(seq(|values|, i requires 0 <= i < |values| => Entry(values[i])), cpf);
    assert forall i | 0 <= i < |values| :: half.parts[i] == Entry(values[i]) && half.parts[i].WellFormed();
    assert half.PartKeys() == keys;
    forall k | k in keys
      ensures !Escapes(k, Truncate(RunningUnion(keys).value, cpf).Upper())
    {
      CommonPrefixBound(k.Lower(), k.Upper());
    }
  }

  // ---------------------------------------------------------------- splits of internal pages

  /** Pages over two rows each, as the union method makes them. */
  function TwoRows(a: Bytea, b: Bytea): Origin {
    Union([Entry(a), Entry(b)])
  }

  lemma TwoRowKey(a: Bytea, b: Bytea)
    requires Le(a, b) && a != b
    ensures TwoRows(a, b).WellFormed()
    ensures TwoRows(a, b).Key() == Truncate(NodeKey(a, b), CommonPrefix(a, b) + 1)
    ensures TwoRows(a, b).Holds(b)
  {
    hide Le, CommonPrefix, RunningUnion;
    var o := TwoRows(a, b);
    assert o.parts[0].WellFormed() && o.parts[1].WellFormed() && o.parts[1].Holds(b);
    assert o.PartKeys() == [LeafKey(a), LeafKey(b)];
    TwoEntryUnion(LeafKey(a), LeafKey(b));
    TwoLeafUnion(a, b);
  }

  lemma TwoLeafUnion(a: Bytea, b: Bytea)
    requires Le(a, b) && a != b
    ensures BinUnion(Some(BinUnion(None, LeafKey(a))), LeafKey(b)) == NodeKey(a, b)
  {
    LeTotal(a, b);
  }

  lemma TwoEntryUnion(a: Key, b: Key)
    ensures RunningUnion([a, b]) == Some(BinUnion(Some(BinUnion(None, a)), b))
  {
    assert [a, b][..1] == [a] && [a][..0] == [];
    assert RunningUnion([a]) == Some(BinUnion(None, a));
  }

  const LOW := TwoRows([0], [1, 1, 9])
  const MID := TwoRows([1, 0], [1, 1, 5])
  const HIGH := TwoRows([2, 2, 2], [2, 2, 3])
  const TOP := TwoRows([2, 2, 4], [2, 2, 5])

  lemma LowKey()
    ensures LOW.WellFormed() && LOW.Holds([1, 1, 9]) && LOW.Key() == NodeKey([0], [1, 1])
  {
    TwoRowKey([0], [1, 1, 9]);
    assert Take([1, 1, 9], 2) == [1, 1];
  }

  lemma MidKey()
    ensures MID.WellFormed() && MID.Key() == NodeKey([1, 0], [1, 1, 5])
  {
    assert [1, 0][1..] == [0] && [1, 1, 5][1..] == [1, 5];
    assert CommonPrefix([1, 0], [1, 1, 5]) == 1;
    TwoRowKey([1, 0], [1, 1, 5]);
  }

  /** Two rows that differ only in their third byte keep their full length. */
  lemma ThirdByteKey(x: Byte, y: Byte)
    requires x < y
    ensures Le([2, 2, x], [2, 2, y]) && CommonPrefix([2, 2, x], [2, 2, y]) == 2
    ensures TwoRows([2, 2, x], [2, 2, y]).WellFormed()
    ensures TwoRows([2, 2, x], [2, 2, y]).Key() == NodeKey([2, 2, x], [2, 2, y])
  {
    assert [2, 2, x][1..] == [2, x] && [2, x][1..] == [x];
    assert [2, 2, y][1..] == [2, y] && [2, y][1..] == [y];
    assert Le([x], [y]) && CommonPrefix([x], [y]) == 0;
    assert Le([2, x], [2, y]);
    assert CommonPrefix([2, x], [2, y]) == 1;
    assert [2, 2, x][2] != [2, 2, y][2];
    TwoRowKey([2, 2, x], [2, 2, y]);
  }

  lemma LowerHalfUnion()
    ensures RunningUnion([NodeKey([0], [1, 1]), NodeKey([1, 0], [1, 1, 5])]) == Some(NodeKey([0], [1, 1, 5]))
  {
  }

  lemma UpperHalfUnion()
    ensures RunningUnion([NodeKey([2, 2, 2], [2, 2, 3]), NodeKey([2, 2, 4], [2, 2, 5])])
            == Some(NodeKey([2, 2, 2], [2, 2, 5]))
  {
  }

  /** Four keys whose lower bounds begin 00, 01 00, 02 02 02 and 02 02 04 are in order. */
  lemma LowersSorted(page: seq<Key>)
    requires |page| == 4 && page[0].Lower() == [0] && page[1].Lower() == [1, 0]
    requires page[2].Lower() == [2, 2, 2] && page[3].Lower() == [2, 2, 4]
    ensures SortedOrder(page, Offsets(4))
  {
    hide SortsBefore;
    FirstByteSorts(page[0], page[1]);
    FirstByteSorts(page[0], page[2]);
    FirstByteSorts(page[0], page[3]);
    FirstByteSorts(page[1], page[2]);
    FirstByteSorts(page[1], page[3]);
    ThirdByteSorts(page[2], page[3]);
  }

  lemma FirstByteSorts(a: Key, b: Key)
    requires a.Lower() != [] && b.Lower() != [] && a.Lower()[0] < b.Lower()[0]
    ensures SortsBefore(a, b)
  {
  }

  lemma ThirdByteSorts(a: Key, b: Key)
    requires a.Lower() == [2, 2, 2] && b.Lower() == [2, 2, 4]
    ensures SortsBefore(a, b)
  {
    hide Le;
    ThirdByteKey(2, 4);
    assert [2, 2, 2][2] != [2, 2, 4][2];
  }

  /** The split of two low and two high pages cuts both halves to four bytes. */
  lemma SplitOfFour(page: seq<Key>, low: Key, high: Key)
    requires |page| == 4
    requires RunningUnion([page[0], page[1]]) == Some(low) && RunningUnion([page[2], page[3]]) == Some(high)
    requires PrefixLen(low) <= PrefixLen(high)
    ensures PickSplit(page, Offsets(4)).left == [1, 2]
    ensures PickSplit(page, Offsets(4)).ldatum == Truncate(low, PrefixLen(high) + 1)
  {
    hide RunningUnion, PrefixLen, Truncate;
    var order := Offsets(4);
    assert At(page, order[..2]) == [page[0], page[1]];
    assert At(page, order[2..]) == [page[2], page[3]];
  }

  lemma LostKey()
    ensures CommonPrefix([2, 2, 2], [2, 2, 5]) == 2 && CommonPrefix([0], [1, 1, 5]) == 0
    ensures Truncate(NodeKey([0], [1, 1, 5]), 3) == NodeKey([0], [1, 1, 5])
    ensures !Consistent(NodeKey([0], [1, 1, 5]), [1, 1, 9], EQUAL, false)
  {
  }

  lemma FourPages()
    ensures LOW.Union? && MID.Union? && HIGH.Union? && TOP.Union?
    ensures LOW.WellFormed() && MID.WellFormed() && HIGH.WellFormed() && TOP.WellFormed() && LOW.Holds([1, 1, 9])
    ensures LOW.Key() == NodeKey([0], [1, 1]) && MID.Key() == NodeKey([1, 0], [1, 1, 5])
    ensures HIGH.Key() == NodeKey([2, 2, 2], [2, 2, 3]) && TOP.Key() == NodeKey([2, 2, 4], [2, 2, 5])
  {
    hide Le, CommonPrefix;
    LowKey();
    MidKey();
    ThirdByteKey(2, 3);
    ThirdByteKey(4, 5);
  }

  lemma FourKeys(keys: seq<Key>)
    requires keys == [NodeKey([0], [1, 1]), NodeKey([1, 0], [1, 1, 5]),
                      NodeKey([2, 2, 2], [2, 2, 3]), NodeKey([2, 2, 4], [2, 2, 5])]
    ensures SortedOrder(keys, Offsets(4)) && PickSplit(keys, Offsets(4)).left == [1, 2]
    ensures PickSplit(keys, Offsets(4)).ldatum == NodeKey([0], [1, 1, 5])
  {
    hide RunningUnion, CommonPrefix, Le, SortedOrder, PickSplit, Truncate;
    LowersSorted(keys);
    LowerHalfUnion();
    UpperHalfUnion();
    LostKey();
    SplitOfFour(keys, NodeKey([0], [1, 1, 5]), NodeKey([2, 2, 2], [2, 2, 5]));
  }

  /** Splitting an internal page can lose a row: of these four pages, each keyed by the union method, the first
      goes left and holds 01 01 09, yet the left half's key is skipped by a search for that very value. */
  lemma InternalSplitLosesRow() returns (pages: seq<Origin>, keys: seq<Key>, v: Bytea)
    ensures |pages| == |keys| == 4
    ensures forall i | 0 <= i < 4 :: pages[i].Union? && pages[i].WellFormed() && keys[i] == pages[i].Key()
    ensures SortedOrder(keys, Offsets(4))
    ensures 1 in PickSplit(keys, Offsets(4)).left && pages[0].Holds(v) && Matches(v, v, EQUAL)
    ensures !Consistent(PickSplit(keys, Offsets(4)).ldatum, v, EQUAL, false)
  {
    hide Consistent, SortedOrder, PickSplit, TwoRows, Origin.WellFormed, Origin.Key, Origin.Holds;
    FourPages();
    pages, v := [LOW, MID, HIGH, TOP], [1, 1, 9];
    keys := [LOW.Key(), MID.Key(), HIGH.Key(), TOP.Key()];
    FourKeys(keys);
    LostKey();
  }
}
