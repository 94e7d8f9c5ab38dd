/** Offsets of the entries on a page, counted from one, and their halves. */
module PageOffsets {

  function Offsets(n: nat): (r: seq<nat>)
    ensures |r| == n && forall i | 0 <= i < n :: r[i] == i + 1
  {
    seq(n, i => i + 1)
  }

  /** The entries at the given offsets. */
  function At<T>(entries: seq<T>, order: seq<nat>): (r: seq<T>)
    requires forall i | 0 <= i < |order| :: 1 <= order[i] <= |entries|
    ensures |r| == |order| && forall i | 0 <= i < |r| :: r[i] == entries[order[i] - 1]
  {
    seq(|order|, i requires 0 <= i < |order| => entries[order[i] - 1])
  }

  /** Cutting a rearrangement of all offsets in two puts every offset in exactly one part. */
  lemma InOneHalf(order: seq<nat>, half: nat, n: nat, o: nat)
    requires half <= |order| && multiset(order) == multiset(Offsets(n)) && 1 <= o <= n
    ensures o in order[..half] <==> o !in order[half..]
  {
    var left, right := order[..half], order[half..];
    assert order == left + right;
    OffsetOnce(n, o);
    assert multiset(order)[o] == 1;
    var l: multiset<nat>, r: multiset<nat> := multiset(left), multiset(right);
    assert multiset(order) == l + r;
    assert o in left <==> o in l;
    assert o in right <==> o in r;
  }

  lemma {:induction false} OffsetOnce(n: nat, o: nat)
    requires 1 <= o <= n
    ensures multiset(Offsets(n))[o] == 1
  {
    assert Offsets(n) == Offsets(n - 1) + [n];
    if o < n {
      OffsetOnce(n - 1, o);
    } else {
      assert n !in Offsets(n - 1);
    }
  }
}
