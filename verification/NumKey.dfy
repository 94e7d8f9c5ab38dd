/** Fixed-size GiST keys of contrib/btree_gist for integers: a key is a pair of bounds stored side by side. */
module NumKey {
  import opened GistTree
  import opened PageOffsets
  import opened Strategies

  datatype Bounds = Bounds(lower: int, upper: int)

  /** b is the smallest interval around the entries. */
  ghost predicate IsHull(b: Bounds, es: seq<Bounds>) {
    && (forall i | 0 <= i < |es| :: b.lower <= es[i].lower && es[i].upper <= b.upper)
    && (exists i | 0 <= i < |es| :: es[i].lower == b.lower)
    && (exists i | 0 <= i < |es| :: es[i].upper == b.upper)
  }

  function Stored(a: array<int>): Bounds
    requires a.Length == 2
    reads a
  {
    Bounds(a[0], a[1])
  }

  /** The union method overwrites the caller's buffer with the hull of all entries. */
  method NumUnion(out: array<int>, es: seq<Bounds>)
    requires out.Length == 2 && es != []
    modifies out
    ensures IsHull(Stored(out), es)
  {
    out[0], out[1] := es[0].lower, es[0].upper;
    for i := 1 to |es|
      invariant IsHull(Stored(out), es[..i])
    {
      if out[0] > es[i].lower {
        out[0] := es[i].lower;
      }
      if out[1] < es[i].upper {
        out[1] := es[i].upper;
      }
      HullGrows(es, i, Stored(out));
    }
    assert es[..|es|] == es;
  }

  lemma HullGrows(es: seq<Bounds>, i: nat, b: Bounds)
    requires 0 < i < |es| && b.lower <= es[i].lower && es[i].upper <= b.upper
    requires exists b0 :: IsHull(b0, es[..i]) && b.lower <= b0.lower && b0.upper <= b.upper
                          && (b.lower == b0.lower || b.lower == es[i].lower)
                          && (b.upper == b0.upper || b.upper == es[i].upper)
    ensures IsHull(b, es[..i + 1])
  {
  }

  /** Widens a running union, null at first, by one entry. */
  method NumBinUnion(u: array?<int>, e: Bounds, ghost es: seq<Bounds>) returns (u': array<int>)
    requires if u == null then es == [] else u.Length == 2 && IsHull(Stored(u), es)
    modifies u
    ensures u' == u || fresh(u')
    ensures u'.Length == 2 && IsHull(Stored(u'), es + [e])
  {
    ghost var all := es + [e];
    if u == null {
      u' := new int[2];
      u'[0], u'[1] := e.lower, e.upper;
      assert all[0] == e;
    } else {
      ghost var b0 := Stored(u);
      u' := u;
      if u'[0] > e.lower {
        u'[0] := e.lower;
      }
      if u'[1] < e.upper {
        u'[1] := e.upper;
      }
      assert all[..|es|] == es && all[..|es| + 1] == all;
      assert es != [];
      HullGrows(all, |es|, Stored(u'));
    }
  }

  /** The split method, given the sorted order of the offsets: each half gets the hull of its entries. */
  method NumPickSplit(es: seq<Bounds>, order: seq<nat>)
    returns (left: seq<nat>, right: seq<nat>, ldatum: array<int>, rdatum: array<int>)
    requires |es| >= 2 && |order| == |es| && multiset(order) == multiset(Offsets(|es|))
    requires forall i | 0 <= i < |order| :: 1 <= order[i] <= |es|
    ensures left == order[..|es| / 2] && right == order[|es| / 2..]
    ensures left != [] && right != [] && forall o | 1 <= o <= |es| :: o in left <==> o !in right
    ensures ldatum.Length == 2 && IsHull(Stored(ldatum), At(es, left))
    ensures rdatum.Length == 2 && IsHull(Stored(rdatum), At(es, right))
  {
    var half := |es| / 2;
    forall o | 1 <= o <= |es|
      ensures o in order[..half] <==> o !in order[half..]
    {
      InOneHalf(order, half, |es|, o);
    }
    left, ldatum := HullOf(es, order[..half]);
    right, rdatum := HullOf(es, order[half..]);
  }

  /** Appends the offsets of one half and widens its union by each. */
  method HullOf(es: seq<Bounds>, offsets: seq<nat>) returns (side: seq<nat>, datum: array<int>)
    requires offsets != [] && forall i | 0 <= i < |offsets| :: 1 <= offsets[i] <= |es|
    ensures side == offsets && fresh(datum) && datum.Length == 2 && IsHull(Stored(datum), At(es, offsets))
  {
    hide IsHull;
    ghost var all := At(es, offsets);
    side := [offsets[0]];
    datum := NumBinUnion(null, es[offsets[0] - 1], []);
    assert [] + [es[offsets[0] - 1]] == all[..1];
    for i := 1 to |offsets|
      invariant fresh(datum) && datum.Length == 2
      invariant side == offsets[..i] && IsHull(Stored(datum), all[..i])
    {
      assert all[..i] + [all[i]] == all[..i + 1];
      datum := NumBinUnion(datum, es[offsets[i] - 1], all[..i]);
      side := side + [offsets[i]];
    }
    assert all[..|offsets|] == all;
  }

  // ---------------------------------------------------------------- searching

  predicate Matches(v: int, q: int, strategy: int) {
    if strategy == LESS then v < q
    else if strategy == LESS_EQUAL then v <= q
    else if strategy == EQUAL then v == q
    else if strategy == GREATER_EQUAL then v >= q
    else if strategy == GREATER then v > q
    else strategy == NOT_EQUAL && v != q
  }

  predicate Consistent(k: Bounds, q: int, strategy: int, isLeaf: bool) {
    if strategy == LESS_EQUAL then q >= k.lower
    else if strategy == LESS then if isLeaf then q > k.lower else q >= k.lower
    else if strategy == EQUAL then if isLeaf then q == k.lower else k.lower <= q && q <= k.upper
    else if strategy == GREATER then if isLeaf then q < k.upper else q <= k.upper
    else if strategy == GREATER_EQUAL then q <= k.upper
    else strategy == NOT_EQUAL && !(q == k.lower && q == k.upper)
  }

  function Abs(x: int): nat {
    if x < 0 then -x else x
  }

  /** Distance of a key from a query point, for nearest-neighbour scans. */
  function Distance(k: Bounds, q: int): nat {
    if q <= k.lower then Abs(q - k.lower) else if q >= k.upper then Abs(q - k.upper) else 0
  }

  predicate Within(k: Bounds, v: int) {
    k.lower <= v <= k.upper
  }

  /** The operator with strict comparisons relaxed. */
  predicate MatchesLoosely(v: int, q: int, strategy: int) {
    Matches(v, q, strategy) || (v == q && (strategy == LESS || strategy == GREATER))
  }

  /** On a row, the consistent method and the operators are the comparisons of integers. */
  lemma LeafIsExact(v: int, q: int, strategy: int)
    ensures Consistent(Bounds(v, v), q, strategy, true) == Matches(v, q, strategy)
    ensures Matches(v, q, strategy) <==>
            match strategy
            case 1 => v < q
            case 2 => v <= q
            case 3 => v == q
            case 4 => v >= q
            case 5 => v > q
            case 6 => v != q
            case _ => false
  {
  }

  /** A page is visited exactly when a row within its bounds could match, ties included. */
  lemma VisitIsPrecise(k: Bounds, q: int, strategy: int)
    requires k.lower <= k.upper
    ensures Consistent(k, q, strategy, false) <==> exists v :: Within(k, v) && MatchesLoosely(v, q, strategy)
  {
    if Consistent(k, q, strategy, false) {
      var v := if strategy == EQUAL then q
               else if strategy == LESS || strategy == LESS_EQUAL || (strategy == NOT_EQUAL && q != k.lower) then k.lower
               else k.upper;
      assert Within(k, v) && MatchesLoosely(v, q, strategy);
    }
  }

  /** The distance of a key is the least distance of any point within its bounds. */
  lemma DistanceIsLeast(k: Bounds, q: int)
    requires k.lower <= k.upper
    ensures forall v :: Within(k, v) ==> Distance(k, q) <= Abs(v - q)
    ensures exists v :: Within(k, v) && Distance(k, q) == Abs(v - q)
  {
    var v := if q <= k.lower then k.lower else if q >= k.upper then k.upper else q;
    assert Within(k, v) && Distance(k, q) == Abs(v - q);
  }

  predicate HeldIn(k: Bounds, es: seq<Bounds>) {
    exists j | 0 <= j < |es| :: es[j].lower <= k.lower && k.upper <= es[j].upper
  }

  function KeyOf(t: Tree<Bounds, int>): Bounds {
    if t.Row? then Bounds(t.value, t.value) else t.key
  }

  /** A page keyed by a hull of entries, among them for each child one that holds the child's key (the key itself
      when the page was made, or the page's earlier key when it was widened), bounds all rows below it. */
  lemma HullPage(k: Bounds, es: seq<Bounds>, cs: seq<Tree<Bounds, int>>)
    requires IsHull(k, es)
    requires forall i | 0 <= i < |cs| :: Covering(cs[i], (k, v) => Within(k, v)) && HeldIn(KeyOf(cs[i]), es)
    ensures Covering(Page(k, cs), (k, v) => Within(k, v))
  {
    forall v | v in RowsOf(cs)
      ensures Within(k, v)
    {
      var i := RowsBelongToChild(cs, v);
      assert HeldIn(KeyOf(cs[i]), es);
    }
  }

  /** Every page key holds the keys of its children, none of them empty. */
  ghost predicate Nested(t: Tree<Bounds, int>) {
    KeyOf(t).lower <= KeyOf(t).upper
    && (t.Page? ==> forall i | 0 <= i < |t.children| ::
                      Nested(t.children[i]) && HeldIn(KeyOf(t.children[i]), [t.key]))
  }

  /** d is t or somewhere below it. */
  ghost predicate Descends(t: Tree<Bounds, int>, d: Tree<Bounds, int>) {
    t == d || (t.Page? && exists i | 0 <= i < |t.children| :: Descends(t.children[i], d))
  }

  lemma HullIsNested(k: Bounds, es: seq<Bounds>, cs: seq<Tree<Bounds, int>>)
    requires cs != [] && IsHull(k, es)
    requires forall i | 0 <= i < |cs| :: Nested(cs[i]) && HeldIn(KeyOf(cs[i]), es)
    ensures Nested(Page(k, cs))
  {
    forall i | 0 <= i < |cs|
      ensures HeldIn(KeyOf(cs[i]), [k])
    {
      var j :| 0 <= j < |es| && es[j].lower <= KeyOf(cs[i]).lower && KeyOf(cs[i]).upper <= es[j].upper;
      assert [k][0] == k;
    }
    assert Nested(cs[0]) && HeldIn(KeyOf(cs[0]), [k]);
  }

  /** In a tree of nested keys the distance only grows on the way down: no page is farther from the query than any
      page or row below it, so a nearest-neighbour scan may order pages by it. */
  lemma {:induction false} DistanceGrowsDownward(t: Tree<Bounds, int>, d: Tree<Bounds, int>, q: int)
    requires Nested(t) && Descends(t, d)
    ensures Nested(d) && Distance(KeyOf(t), q) <= Distance(KeyOf(d), q)
    ensures d.Row? ==> Distance(KeyOf(t), q) <= Abs(d.value - q)
  {
    if t != d {
      var i :| 0 <= i < |t.children| && Descends(t.children[i], d);
      DistanceGrowsDownward(t.children[i], d, q);
      assert HeldIn(KeyOf(t.children[i]), [t.key]);
    }
  }

  /** Every key below t is a proper interval. */
  ghost predicate Proper(t: Tree<Bounds, int>) {
    forall d | Descends(t, d) :: KeyOf(d).lower <= KeyOf(d).upper
  }

  /** Nesting is exactly what ordering pages by distance needs. */
  lemma {:induction false} DistanceGrowsIff(t: Tree<Bounds, int>)
    requires Proper(t)
    ensures (forall c, d, q | Descends(t, c) && Descends(c, d) :: Distance(KeyOf(c), q) <= Distance(KeyOf(d), q))
            <==> Nested(t)
  {
    if Nested(t) {
      forall c, d, q | Descends(t, c) && Descends(c, d)
        ensures Distance(KeyOf(c), q) <= Distance(KeyOf(d), q)
      {
        DistanceGrowsDownward(t, c, q);
        DistanceGrowsDownward(c, d, q);
      }
    }
    if forall c, d, q | Descends(t, c) && Descends(c, d) :: Distance(KeyOf(c), q) <= Distance(KeyOf(d), q) {
      assert Descends(t, t);
      if t.Page? {
        forall i | 0 <= i < |t.children|
          ensures Nested(t.children[i]) && HeldIn(KeyOf(t.children[i]), [t.key])
        {
          var child := t.children[i];
          assert Descends(child, child) && Descends(t, child);
          assert Distance(t.key, KeyOf(child).lower) <= Distance(KeyOf(child), KeyOf(child).lower);
          assert Distance(t.key, KeyOf(child).upper) <= Distance(KeyOf(child), KeyOf(child).upper);
          assert [t.key][0] == t.key;
          forall d | Descends(child, d)
            ensures Descends(t, d)
          {}
          DistanceGrowsIff(child);
        }
      }
    }
  }

  /** Covering alone bounds the distance of every row below, whatever the keys in between. */
  lemma CoveringBoundsRows(t: Tree<Bounds, int>, v: int, q: int)
    requires t.Page? && Covering(t, (k, v) => Within(k, v)) && v in Rows(t)
    ensures Distance(t.key, q) <= Abs(v - q)
  {}

  /** It does not bound the distance of the pages below: a page key may then be narrower than a child's. */
  lemma CoveringIsNotNested() returns (t: Tree<Bounds, int>, q: int)
    ensures Covering(t, (k, v) => Within(k, v)) && t.Page? && |t.children| == 1 && Rows(t) == [5]
    ensures Distance(KeyOf(t), q) > Distance(KeyOf(t.children[0]), q)
  {
    var row: Tree<Bounds, int> := Row(5);
    var inner := Page(Bounds(0, 10), [row]);
    t, q := Page(Bounds(5, 5), [inner]), 0;
    RowsOfOne(row);
    RowsOfOne(inner);
    assert Covering(row, (k, v) => Within(k, v));
    assert Covering(inner, (k, v) => Within(k, v));
  }

  /** The scan returns exactly the matching rows, in order. */
  lemma NumSearchIsExact(t: Tree<Bounds, int>, q: int, strategy: int)
    requires Covering(t, (k, v) => Within(k, v))
    ensures Scan(t, k => Consistent(k, q, strategy, false), v => Consistent(Bounds(v, v), q, strategy, true))
            == Select(Rows(t), v => Matches(v, q, strategy))
  {
    ScanIsExact(t, k => Consistent(k, q, strategy, false), v => Consistent(Bounds(v, v), q, strategy, true),
                (k, v) => Within(k, v), v => Matches(v, q, strategy));
  }
}
