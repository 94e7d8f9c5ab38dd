/** GiST trees and their scans, for any kind of key: what a consistent method must guarantee for a scan to return
    exactly the matching rows. */
module GistTree {

  datatype Tree<K, V> = Row(value: V) | Page(key: K, children: seq<Tree<K, V>>)

  function Rows<K, V>(t: Tree<K, V>): seq<V> {
    match t
    case Row(v) => [v]
    case Page(_, cs) => RowsOf(cs)
  }

  function RowsOf<K, V>(ts: seq<Tree<K, V>>): seq<V> {
    if ts == [] then [] else Rows(ts[0]) + RowsOf(ts[1..])
  }

  lemma RowsOfOne<K, V>(t: Tree<K, V>)
    ensures RowsOf([t]) == Rows(t)
  {
    assert [t][1..] == [];
  }

  /** Every page key covers all rows below it. */
  ghost predicate Covering<K, V>(t: Tree<K, V>, covers: (K, V) -> bool) {
    match t
    case Row(_) => true
    case Page(k, cs) =>
      && (forall v | v in RowsOf(cs) :: covers(k, v))
      && forall i | 0 <= i < |cs| :: Covering(cs[i], covers)
  }

  function Select<V>(vs: seq<V>, matches: V -> bool): seq<V> {
    if vs == [] then [] else (if matches(vs[0]) then [vs[0]] else []) + Select(vs[1..], matches)
  }

  /** The index scan: descend into the pages the consistent method allows, and report the rows it accepts. */
  function Scan<K, V>(t: Tree<K, V>, visit: K -> bool, hit: V -> bool): seq<V> {
    match t
    case Row(v) => if hit(v) then [v] else []
    case Page(k, cs) => if visit(k) then ScanAll(cs, visit, hit) else []
  }

  function ScanAll<K, V>(ts: seq<Tree<K, V>>, visit: K -> bool, hit: V -> bool): seq<V> {
    if ts == [] then [] else Scan(ts[0], visit, hit) + ScanAll(ts[1..], visit, hit)
  }

  lemma {:induction false} SelectConcat<V>(a: seq<V>, b: seq<V>, matches: V -> bool)
    ensures Select(a + b, matches) == Select(a, matches) + Select(b, matches)
  {
    if a == [] {
      assert a + b == b;
    } else {
      var head := if matches(a[0]) then [a[0]] else [];
      assert (a + b)[0] == a[0] && (a + b)[1..] == a[1..] + b;
      SelectConcat(a[1..], b, matches);
      assert Select(a, matches) == head + Select(a[1..], matches);
      assert Select(a + b, matches) == head + (Select(a[1..], matches) + Select(b, matches));
    }
  }

  /** What is selected: each matching value as often as it occurs, and nothing else. */
  lemma {:induction false} SelectCounts<V>(vs: seq<V>, matches: V -> bool, v: V)
    ensures multiset(Select(vs, matches))[v] == if matches(v) then multiset(vs)[v] else 0
  {
    if vs != [] {
      var head, rest := if matches(vs[0]) then [vs[0]] else [], vs[1..];
      SelectCounts(rest, matches, v);
      assert vs == [vs[0]] + rest;
      assert Select(vs, matches) == head + Select(rest, matches);
    }
  }

  lemma {:induction false} SelectedMatches<V>(vs: seq<V>, matches: V -> bool)
    requires Select(vs, matches) == []
    ensures forall v | v in vs :: !matches(v)
  {
    if vs != [] {
      SelectedMatches(vs[1..], matches);
    }
  }

  lemma {:induction false} SelectNothing<V>(vs: seq<V>, matches: V -> bool)
    requires forall v | v in vs :: !matches(v)
    ensures Select(vs, matches) == []
  {
    if vs != [] {
      SelectNothing(vs[1..], matches);
    }
  }

  /** If rows are tested exactly and no page above a matching row is refused, the scan returns exactly the
      matching rows, in order. */
  lemma {:induction false} ScanIsExact<K(!new), V>(t: Tree<K, V>, visit: K -> bool, hit: V -> bool,
                                                   covers: (K, V) -> bool, matches: V -> bool)
    requires Covering(t, covers)
    requires forall v | v in Rows(t) :: hit(v) == matches(v)
    requires forall k: K, v | v in Rows(t) :: covers(k, v) && matches(v) ==> visit(k)
    ensures Scan(t, visit, hit) == Select(Rows(t), matches)
  {
    match t
    case Row(v) =>
      assert v in Rows(t);
    case Page(k, cs) =>
      if visit(k) {
        ScanAllIsExact(cs, visit, hit, covers, matches);
      } else {
        SelectNothing(RowsOf(cs), matches);
      }
  }

  lemma {:induction false} ScanAllIsExact<K(!new), V>(ts: seq<Tree<K, V>>, visit: K -> bool, hit: V -> bool,
                                                      covers: (K, V) -> bool, matches: V -> bool)
    requires forall i | 0 <= i < |ts| :: Covering(ts[i], covers)
    requires forall v | v in RowsOf(ts) :: hit(v) == matches(v)
    requires forall k: K, v | v in RowsOf(ts) :: covers(k, v) && matches(v) ==> visit(k)
    ensures ScanAll(ts, visit, hit) == Select(RowsOf(ts), matches)
  {
    if ts != [] {
      ScanIsExact(ts[0], visit, hit, covers, matches);
      ScanAllIsExact(ts[1..], visit, hit, covers, matches);
      SelectConcat(Rows(ts[0]), RowsOf(ts[1..]), matches);
    }
  }

  /** The page is visited whenever the row matches. */
  function Kept<K, V>(visit: K -> bool, matches: V -> bool): (K, V) -> bool {
    (k, v) => matches(v) ==> visit(k)
  }

  lemma {:induction false} NothingToKeep<K, V>(t: Tree<K, V>, visit: K -> bool, matches: V -> bool)
    requires forall v | v in Rows(t) :: !matches(v)
    ensures Covering(t, Kept(visit, matches))
  {
    if t.Page? {
      forall i | 0 <= i < |t.children|
        ensures Covering(t.children[i], Kept(visit, matches))
      {
        RowsOfChild(t.children, i);
        NothingToKeep(t.children[i], visit, matches);
      }
    }
  }

  lemma {:induction false} RowsOfChild<K, V>(ts: seq<Tree<K, V>>, i: nat)
    requires i < |ts|
    ensures forall v | v in Rows(ts[i]) :: v in RowsOf(ts)
  {
    if i > 0 {
      RowsOfChild(ts[1..], i - 1);
    }
  }

  /** A scan never returns more than the matching rows, and falls short of them whenever a page above one of them is
      refused. */
  lemma {:induction false} ScanFallsShort<K, V>(t: Tree<K, V>, visit: K -> bool, hit: V -> bool, matches: V -> bool)
    requires forall v | v in Rows(t) :: hit(v) == matches(v)
    ensures |Scan(t, visit, hit)| <= |Select(Rows(t), matches)|
    ensures |Scan(t, visit, hit)| == |Select(Rows(t), matches)| ==> Covering(t, Kept(visit, matches))
  {
    match t
    case Row(v) =>
      assert v in Rows(t);
    case Page(k, cs) =>
      if visit(k) {
        ScanAllFallsShort(cs, visit, hit, matches);
      } else if Select(RowsOf(cs), matches) == [] {
        SelectedMatches(RowsOf(cs), matches);
        NothingToKeep(t, visit, matches);
      }
  }

  lemma {:induction false} ScanAllFallsShort<K, V>(ts: seq<Tree<K, V>>, visit: K -> bool, hit: V -> bool,
                                                   matches: V -> bool)
    requires forall v | v in RowsOf(ts) :: hit(v) == matches(v)
    ensures |ScanAll(ts, visit, hit)| <= |Select(RowsOf(ts), matches)|
    ensures |ScanAll(ts, visit, hit)| == |Select(RowsOf(ts), matches)| ==>
              forall i | 0 <= i < |ts| :: Covering(ts[i], Kept(visit, matches))
  {
    if ts != [] {
      ScanFallsShort(ts[0], visit, hit, matches);
      ScanAllFallsShort(ts[1..], visit, hit, matches);
      SelectConcat(Rows(ts[0]), RowsOf(ts[1..]), matches);
      if |ScanAll(ts, visit, hit)| == |Select(RowsOf(ts), matches)| {
        forall i | 0 <= i < |ts|
          ensures Covering(ts[i], Kept(visit, matches))
        {
          assert i > 0 ==> ts[i] == ts[1..][i - 1];
        }
      }
    }
  }

  /** When rows are tested exactly, a scan returns exactly the matching rows if and only if every page above a
      matching row is visited. */
  lemma ScanIsExactIff<K(!new), V>(t: Tree<K, V>, visit: K -> bool, hit: V -> bool, matches: V -> bool)
    requires forall v | v in Rows(t) :: hit(v) == matches(v)
    ensures Scan(t, visit, hit) == Select(Rows(t), matches) <==> Covering(t, Kept(visit, matches))
  {
    if Covering(t, Kept(visit, matches)) {
      ScanIsExact(t, visit, hit, Kept(visit, matches), matches);
    } else {
      ScanFallsShort(t, visit, hit, matches);
    }
  }

  /** The child a row comes from. */
  lemma {:induction false} RowsBelongToChild<K, V>(ts: seq<Tree<K, V>>, v: V) returns (i: nat)
    requires v in RowsOf(ts)
    ensures i < |ts| && v in Rows(ts[i])
  {
    if v in Rows(ts[0]) {
      i := 0;
    } else {
      var j := RowsBelongToChild(ts[1..], v);
      i := j + 1;
    }
  }
}
