/** Variable-length GiST keys as they are stored: one length-prefixed buffer holding one or two
    length-prefixed, aligned byte strings. A header takes VARHDRSZ cells and its first cell holds the size. */
module VarKeyBuffer {
  import opened Integers
  import opened Wrappers
  import opened Multibyte
  import opened VarKey
  import opened PageOffsets
  import opened VarKeySplit

  const VARHDRSZ := 4

  function IntAlign(n: nat): (r: nat)
    ensures n <= r < n + 4 && r % 4 == 0
  {
    (n + 3) / 4 * 4
  }

  /** A length-prefixed copy of data starts at cell off. */
  ghost predicate Varlena(b: seq<int>, off: nat, data: Bytea) {
    && off + VARHDRSZ + |data| <= |b|
    && b[off] == VARHDRSZ + |data|
    && b[off + VARHDRSZ..off + VARHDRSZ + |data|] == data
  }

  /** Buffer b stores key k: a leaf key ends with its only string, a node key has a second, aligned one. */
  ghost predicate Stores(b: seq<int>, k: Key) {
    && |b| > VARHDRSZ
    && b[0] == |b|
    && Varlena(b, VARHDRSZ, k.Lower())
    && if k.LeafKey? then |b| == VARHDRSZ + b[VARHDRSZ]
       else Varlena(b, VARHDRSZ + IntAlign(VARHDRSZ + |k.Lower()|), k.Upper())
  }

  /** The layout cell by cell: a header of four cells, the lower bound behind its own header of four, and for a node key
      the upper bound in the same form at the next multiple of four. */
  lemma StoredLayout(b: seq<int>, k: Key) returns (at: nat)
    requires Stores(b, k)
    ensures |k.Lower()| + 8 <= |b| && b[0] == |b| && b[4] == |k.Lower()| + 4 && b[8..|k.Lower()| + 8] == k.Lower()
    ensures k.LeafKey? ==> |b| == |k.Lower()| + 8
    ensures |k.Lower()| + 8 <= at < |k.Lower()| + 12 && at % 4 == 0
    ensures k.NodeKey? ==> at + |k.Upper()| + 4 <= |b| && b[at] == |k.Upper()| + 4
    ensures k.NodeKey? ==> b[at + 4..at + |k.Upper()| + 4] == k.Upper()
  {
    at := VARHDRSZ + IntAlign(VARHDRSZ + |k.Lower()|);
    assert 2 * VARHDRSZ == 8;
    assert VARHDRSZ + VARHDRSZ + |k.Lower()| == |k.Lower()| + 8;
    assert at + VARHDRSZ + |k.Upper()| == at + |k.Upper()| + 4;
  }

  /** Reads a stored key back: what was written is what is read, in leaf and in node mode. */
  method KeyReadable(b: array<int>, ghost k: Key) returns (r: Key)
    requires Stores(b[..], k)
    ensures r == k
  {
    var lowerSize := b[VARHDRSZ];
    assert b[..][VARHDRSZ] == lowerSize;
    assert b[2 * VARHDRSZ..VARHDRSZ + lowerSize] == k.Lower();
    var lower: Bytea := b[2 * VARHDRSZ..VARHDRSZ + lowerSize];
    if b[0] > VARHDRSZ + lowerSize {
      var at := VARHDRSZ + IntAlign(lowerSize);
      assert b[..][at] == b[at];
      assert b[at + VARHDRSZ..at + b[at]] == k.Upper();
      var upper: Bytea := b[at + VARHDRSZ..at + b[at]];
      r := NodeKey(lower, upper);
    } else {
      r := LeafKey(lower);
    }
  }

  /** Copies a string with its header to cell off, touching nothing else. */
  method WriteVarlena(b: array<int>, off: nat, data: Bytea)
    requires off + VARHDRSZ + |data| <= b.Length
    modifies b
    ensures Varlena(b[..], off, data)
    ensures forall i | 0 <= i < b.Length && !(off <= i < off + VARHDRSZ + |data|) :: b[i] == old(b[i])
  {
    b[off] := VARHDRSZ + |data|;
    var at := off + VARHDRSZ;
    for i := 0 to |data|
      invariant b[off] == VARHDRSZ + |data|
      invariant b[at..at + i] == data[..i]
      invariant forall k | 0 <= k < b.Length && !(off <= k < at + |data|) :: b[k] == old(b[k])
    {
      b[at + i] := data[i];
      assert b[at..at + i + 1] == b[at..at + i] + [data[i]];
    }
    assert b[..][at..at + |data|] == b[at..at + |data|] == data[..|data|];
  }

  lemma VarlenaFrame(b: seq<int>, b': seq<int>, off: nat, data: Bytea)
    requires Varlena(b, off, data) && |b'| == |b|
    requires forall i | off <= i < off + VARHDRSZ + |data| :: b'[i] == b[i]
    ensures Varlena(b', off, data)
  {
  }

  /** Writes a node key of the two given strings. */
  method WriteNode(lower: Bytea, upper: Bytea) returns (r: array<int>)
    ensures fresh(r) && Stores(r[..], NodeKey(lower, upper))
  {
    var at := VARHDRSZ + IntAlign(VARHDRSZ + |lower|);
    var size := at + VARHDRSZ + |upper|;
    r := new int[size];
    WriteVarlena(r, VARHDRSZ, lower);
    ghost var first := r[..];
    WriteVarlena(r, at, upper);
    VarlenaFrame(first, r[..], VARHDRSZ, lower);
    ghost var second := r[..];
    r[0] := size;
    VarlenaFrame(second, r[..], VARHDRSZ, lower);
    VarlenaFrame(second, r[..], at, upper);
  }

  /** Copies a key; a shared value stays a leaf key unless node mode is forced. */
  method KeyCopy(u: Key, forceNode: bool) returns (r: array<int>)
    ensures fresh(r)
    ensures Stores(r[..], if u.LeafKey? && !forceNode then u else NodeKey(u.Lower(), u.Upper()))
  {
    if u.LeafKey? && !forceNode {
      var size := VARHDRSZ + |u.value| + VARHDRSZ;
      r := new int[size];
      WriteVarlena(r, VARHDRSZ, u.value);
      ghost var first := r[..];
      r[0] := size;
      VarlenaFrame(first, r[..], VARHDRSZ, u.value);
    } else {
      r := WriteNode(u.Lower(), u.Upper());
    }
  }

  lemma {:induction false} CommonPrefixScan(a: Bytea, b: Bytea, i: nat)
    requires i <= |a| && i <= |b| && a[..i] == b[..i]
    ensures CommonPrefix(a, b) == i + CommonPrefix(a[i..], b[i..])
  {
    if i > 0 {
      assert a[0] == a[..i][0] == b[..i][0] == b[0];
      assert a[1..][..i - 1] == a[..i][1..] && b[1..][..i - 1] == b[..i][1..];
      CommonPrefixScan(a[1..], b[1..], i - 1);
      assert a[1..][i - 1..] == a[i..] && b[1..][i - 1..] == b[i..];
    } else {
      assert a[0..] == a && b[0..] == b;
    }
  }

  /** Length of the common prefix of a stored key's bounds. */
  method NodeCpLen(node: array<int>, ghost k: Key) returns (len: nat)
    requires Stores(node[..], k)
    ensures len == PrefixLen(k)
  {
    var r := KeyReadable(node, k);
    var lower, upper := r.Lower(), r.Upper();
    var ml := Min(|lower|, |upper|);
    var i := 0;
    while i < ml
      invariant i <= ml && lower[..i] == upper[..i]
    {
      if lower[i] != upper[i] {
        CommonPrefixScan(lower, upper, i);
        return i;
      }
      i := i + 1;
    }
    CommonPrefixScan(lower, upper, ml);
    return ml;
  }

  /** Writes the stored key with both bounds cut to cpf + 1 bytes. */
  method NodeTruncate(node: array<int>, cpf: nat, ghost k: Key) returns (out: array<int>)
    requires Stores(node[..], k)
    ensures fresh(out) && Stores(out[..], Truncate(k, cpf))
  {
    var r := KeyReadable(node, k);
    var len1 := Min(|r.Lower()|, cpf + 1);
    var len2 := Min(|r.Upper()|, cpf + 1);
    assert r.Lower()[..len1] == Take(k.Lower(), cpf + 1) && r.Upper()[..len2] == Take(k.Upper(), cpf + 1);
    out := WriteNode(r.Lower()[..len1], r.Upper()[..len2]);
  }

  /** Widens the running union, null at first, by one stored entry. */
  method BinUnionBuffer(u: array?<int>, e: array<int>, ghost ku: Option<Key>, ghost ke: Key)
    returns (u': array<int>)
    requires Stores(e[..], ke)
    requires if u == null then ku.None? else ku.Some? && ku.value.NodeKey? && Stores(u[..], ku.value)
    ensures u' == u || fresh(u')
    ensures Stores(u'[..], BinUnion(ku, ke))
  {
    var eo := KeyReadable(e, ke);
    if u != null {
      var ro := KeyReadable(u, ku.value);
      var lower, upper, update := ro.Lower(), ro.Upper(), false;
      if Cmp(ro.Lower(), eo.Lower()) > 0 {
        lower, update := eo.Lower(), true;
      }
      if Cmp(ro.Upper(), eo.Upper()) < 0 {
        upper, update := eo.Upper(), true;
      }
      if update {
        u' := KeyCopy(NodeKey(lower, upper), true);
      } else {
        u' := u;
      }
    } else {
      u' := KeyCopy(eo, true);
    }
  }

  ghost predicate AllStore(entries: seq<array<int>>, ks: seq<Key>)
    reads entries
  {
    |entries| == |ks| && forall i | 0 <= i < |entries| :: Stores(entries[i][..], ks[i])
  }

  /** The union method on stored keys: it writes exactly the union key of its entries. */
  method UnionBuffer(entries: seq<array<int>>, ghost ks: seq<Key>) returns (out: array<int>)
    requires entries != [] && AllStore(entries, ks)
    ensures fresh(out) && Stores(out[..], UnionKey(ks))
  {
    hide Stores, BinUnion, PrefixLen, Truncate;
    var first := KeyReadable(entries[0], ks[0]);
    out := KeyCopy(first, true);
    FirstUnion(ks);
    for i := 1 to |entries|
      invariant out in entries || fresh(out)
      invariant AllStore(entries, ks)
      invariant RunningUnion(ks[..i]).Some? && RunningUnion(ks[..i]).value.NodeKey?
      invariant Stores(out[..], RunningUnion(ks[..i]).value)
    {
      NextUnion(ks, i);
      out := BinUnionBuffer(out, entries[i], RunningUnion(ks[..i]), ks[i]);
    }
    assert ks[..|ks|] == ks;
    ghost var u := RunningUnion(ks).value;
    var plen := NodeCpLen(out, u);
    out := NodeTruncate(out, plen + 1, u);
  }

  lemma FirstUnion(ks: seq<Key>)
    requires ks != []
    ensures RunningUnion(ks[..1]) == Some(NodeKey(ks[0].Lower(), ks[0].Upper()))
  {
    assert ks[..1][..0] == [];
  }

  lemma NextUnion(ks: seq<Key>, i: nat)
    requires i < |ks|
    ensures RunningUnion(ks[..i + 1]) == Some(BinUnion(RunningUnion(ks[..i]), ks[i]))
    ensures BinUnion(RunningUnion(ks[..i]), ks[i]).NodeKey?
  {
    assert ks[..i + 1][..i] == ks[..i];
  }

  /** A half under construction: the offsets placed so far and their running union. */
  ghost predicate Half(ks: seq<Key>, side: seq<nat>, datum: array?<int>)
    reads datum
  {
    && (forall i | 0 <= i < |side| :: 1 <= side[i] <= |ks|)
    && var u := RunningUnion(At(ks, side));
       if datum == null then u.None? else u.Some? && u.value.NodeKey? && Stores(datum[..], u.value)
  }

  lemma NothingPlaced(ks: seq<Key>)
    ensures Half(ks, [], null)
  {
  }

  lemma SideStarted(ks: seq<Key>, side: seq<nat>, datum: array?<int>)
    requires side != [] && Half(ks, side, datum)
    ensures datum != null
  {
    hide BinUnion;
  }

  /** Places one more offset in a half. */
  method Place(entries: seq<array<int>>, side: seq<nat>, datum: array?<int>, off: nat, ghost ks: seq<Key>)
    returns (side': seq<nat>, datum': array<int>)
    requires AllStore(entries, ks) && Half(ks, side, datum) && 1 <= off <= |ks|
    ensures side' == side + [off] && Half(ks, side', datum')
    ensures datum' == datum || fresh(datum')
  {
    hide Stores, BinUnion;
    var u := BinUnionBuffer(datum, entries[off - 1], RunningUnion(At(ks, side)), ks[off - 1]);
    side', datum' := side + [off], u;
    assert At(ks, side')[..|side|] == At(ks, side);
    NextUnion(At(ks, side'), |side|);
    assert At(ks, side')[..|side| + 1] == At(ks, side');
  }

  /** The split method on stored keys, given the sorted order of their offsets. */
  method PickSplitBuffer(entries: seq<array<int>>, order: seq<nat>, ghost ks: seq<Key>)
    returns (left: seq<nat>, right: seq<nat>, ldatum: array<int>, rdatum: array<int>)
    requires |entries| >= 2 && AllStore(entries, ks) && |order| == |entries|
    requires forall i | 0 <= i < |order| :: 1 <= order[i] <= |entries|
    ensures var s := PickSplit(ks, order);
            left == s.left && right == s.right && Stores(ldatum[..], s.ldatum) && Stores(rdatum[..], s.rdatum)
  {
    hide Stores, Half, HalfKey, SharedLength;
    var maxoff, half := |entries|, |entries| / 2;
    var l: array?<int>, r: array?<int> := null, null;
    left, right := [], [];
    NothingPlaced(ks);
    for i := 1 to maxoff + 1
      invariant AllStore(entries, ks) && Half(ks, left, l) && Half(ks, right, r)
      invariant if i <= half + 1 then left == order[..i - 1] && right == []
                else left == order[..half] && right == order[half..i - 1]
    {
      if i <= half {
        left, l := Place(entries, left, l, order[i - 1], ks);
      } else {
        right, r := Place(entries, right, r, order[i - 1], ks);
      }
    }
    assert left == order[..half] && right == order[half..];
    SideStarted(ks, left, l);
    SideStarted(ks, right, r);
    ldatum, rdatum := TruncateHalves(l, r, left, right, ks);
  }

  /** Truncates both halves to the shared length. */
  method TruncateHalves(l: array<int>, r: array<int>, ghost left: seq<nat>, ghost right: seq<nat>, ghost ks: seq<Key>)
    returns (ldatum: array<int>, rdatum: array<int>)
    requires Half(ks, left, l) && Half(ks, right, r) && left != [] && right != []
    ensures var cpf := SharedLength(At(ks, left), At(ks, right));
            && Stores(ldatum[..], HalfKey(At(ks, left), cpf))
            && Stores(rdatum[..], HalfKey(At(ks, right), cpf))
  {
    hide Stores, PrefixLen, Truncate, BinUnion;
    ghost var ul, ur := RunningUnion(At(ks, left)).value, RunningUnion(At(ks, right)).value;
    var ll := NodeCpLen(l, ul);
    var lr := NodeCpLen(r, ur);
    ll := Max(ll, lr) + 1;
    ldatum := NodeTruncate(l, ll, ul);
    rdatum := NodeTruncate(r, ll, ur);
  }
}
