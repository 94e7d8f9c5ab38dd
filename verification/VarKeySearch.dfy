/** Searching a GiST tree over bytea: the consistent method, how node keys come about, and the theorem that
    truncation never loses a row. */
module VarKeySearch {
  import opened GistTree
  import opened Strategies
  import opened VarKey

  /** The operator behind a strategy number; other numbers match nothing. */
  predicate Matches(v: Bytea, q: Bytea, strategy: int) {
    if strategy == LESS then Cmp(v, q) < 0
    else if strategy == LESS_EQUAL then Cmp(v, q) <= 0
    else if strategy == EQUAL then v == q
    else if strategy == GREATER_EQUAL then Cmp(v, q) >= 0
    else if strategy == GREATER then Cmp(v, q) > 0
    else strategy == NOT_EQUAL && v != q
  }

  /** The query starts with one of the node's bounds. */
  predicate NodePrefixMatch(k: Key, q: Bytea) {
    k.Lower() <= q || k.Upper() <= q
  }

  /** The consistent method. */
  predicate Consistent(k: Key, q: Bytea, strategy: int, isLeaf: bool) {
    if strategy == LESS_EQUAL then
      if isLeaf then Cmp(q, k.Lower()) >= 0 else Cmp(q, k.Lower()) >= 0 || NodePrefixMatch(k, q)
    else if strategy == LESS then
      if isLeaf then Cmp(q, k.Lower()) > 0 else Cmp(q, k.Lower()) >= 0 || NodePrefixMatch(k, q)
    else if strategy == EQUAL then
      if isLeaf then q == k.Lower()
      else (Cmp(k.Lower(), q) <= 0 && Cmp(q, k.Upper()) <= 0) || NodePrefixMatch(k, q)
    else if strategy == GREATER then
      if isLeaf then Cmp(q, k.Upper()) < 0 else Cmp(q, k.Upper()) <= 0 || NodePrefixMatch(k, q)
    else if strategy == GREATER_EQUAL then
      if isLeaf then Cmp(q, k.Upper()) <= 0 else Cmp(q, k.Upper()) <= 0 || NodePrefixMatch(k, q)
    else if strategy == NOT_EQUAL then
      !(q == k.Lower() && q == k.Upper())
    else false
  }

  /** The operators, by the byte order. */
  lemma MatchesByOrder(v: Bytea, q: Bytea, strategy: int)
    ensures Matches(v, q, strategy) <==>
            match strategy
            case 1 => Le(v, q) && v != q
            case 2 => Le(v, q)
            case 3 => v == q
            case 4 => Le(q, v)
            case 5 => Le(q, v) && v != q
            case 6 => v != q
            case _ => false
  {
    LeReflexive(v);
    LeTotal(v, q);
  }

  /** On a leaf entry the consistent method is the operator itself. */
  lemma LeafIsExact(v: Bytea, q: Bytea, strategy: int)
    ensures Consistent(LeafKey(v), q, strategy, true) == Matches(v, q, strategy)
  {
    LeTotal(v, q);
  }

  /** Queries above the upper bound, up to a covered value, start with one of the bounds. */
  lemma BoundIsPrefix(k: Key, q: Bytea, v: Bytea)
    requires Open(k) && Stem(k) <= v && Le(k.Upper(), q) && Le(q, v) && Le(k.Lower(), v)
    ensures NodePrefixMatch(k, q)
  {
    hide Le, CommonPrefix;
    if k.Lower() <= k.Upper() {
      PrefixIsCommon(k.Lower(), k.Upper());
      PrefixLe(k.Lower(), k.Upper());
      LeTransitive(k.Lower(), k.Upper(), q);
      PrefixSandwich(k.Lower(), q, v);
    } else {
      PrefixSandwich(k.Upper(), q, v);
    }
  }

  /** A node whose key covers a matching value is never skipped. */
  lemma CoveredMatchIsConsistent(k: Key, v: Bytea, q: Bytea, strategy: int)
    requires Covers(k, v) && Matches(v, q, strategy)
    ensures Consistent(k, q, strategy, false)
  {
    hide Le, CommonPrefix;
    LeTotal(v, q);
    LeTotal(k.Lower(), q);
    LeTotal(q, k.Upper());
    if strategy == LESS || strategy == LESS_EQUAL {
      LeTransitive(k.Lower(), v, q);
    } else if strategy == GREATER || strategy == GREATER_EQUAL || strategy == EQUAL {
      if Le(v, k.Upper()) {
        LeTransitive(q, v, k.Upper());
      } else if !Le(q, k.Upper()) {
        BoundIsPrefix(k, q, v);
      }
    } else if strategy == NOT_EQUAL {
      CommonPrefixBound(k.Lower(), k.Upper());
      LeTotal(k.Lower(), v);
    }
  }

  /** The operator with strict comparisons relaxed. */
  predicate MatchesLoosely(v: Bytea, q: Bytea, strategy: int) {
    Matches(v, q, strategy) || (v == q && (strategy == LESS || strategy == GREATER))
  }

  /** Exactly when a node is visited: a value between its bounds matches, ties included, or, except for "not equal",
      the query starts with one of the bounds. */
  lemma VisitIff(k: Key, q: Bytea, strategy: int)
    requires Ordered(k)
    ensures Consistent(k, q, strategy, false) <==>
            || (LESS <= strategy <= GREATER && (k.Lower() <= q || k.Upper() <= q))
            || exists v :: Le(k.Lower(), v) && Le(v, k.Upper())
                           && (Matches(v, q, strategy) || (v == q && (strategy == LESS || strategy == GREATER)))
  {
    hide Le;
    var l, u := k.Lower(), k.Upper();
    LeReflexive(l);
    LeReflexive(u);
    LeTotal(l, q);
    LeTotal(q, u);
    if v :| Le(l, v) && Le(v, u) && MatchesLoosely(v, q, strategy) {
      LeTotal(v, q);
      LeTotal(l, v);
      if Le(v, q) {
        LeTransitive(l, v, q);
      }
      if Le(q, v) {
        LeTransitive(q, v, u);
      }
    }
    if Consistent(k, q, strategy, false) {
      var v := if strategy == EQUAL then q
               else if strategy == LESS || strategy == LESS_EQUAL || (strategy == NOT_EQUAL && l != q) then l
               else u;
      assert (LESS <= strategy <= GREATER && (l <= q || u <= q))
             || (Le(l, v) && Le(v, u) && MatchesLoosely(v, q, strategy));
    }
  }

  /** A node is visited only if the query extends one of its bounds or the node may hold a row that matches, ties
      included. */
  lemma VisitIsJustified(k: Key, q: Bytea, strategy: int)
    requires Ordered(k) && Consistent(k, q, strategy, false)
    ensures NodePrefixMatch(k, q) || exists v :: Covers(k, v) && MatchesLoosely(v, q, strategy)
  {
    hide Le, CommonPrefix;
    var l, u := k.Lower(), k.Upper();
    LeReflexive(l);
    LeReflexive(u);
    LeTotal(l, q);
    LeTotal(q, u);
    if strategy == LESS || strategy == LESS_EQUAL || (strategy == NOT_EQUAL && l != q) {
      assert NodePrefixMatch(k, q) || (Covers(k, l) && MatchesLoosely(l, q, strategy));
    } else if strategy == EQUAL {
      assert NodePrefixMatch(k, q) || (Covers(k, q) && MatchesLoosely(q, q, strategy));
    } else {
      assert NodePrefixMatch(k, q) || (Covers(k, u) && MatchesLoosely(u, q, strategy));
    }
  }

  /** How a key came about. A page key is first made by the union method or as one half of a page split, and
      is later widened by the union method over itself and a new entry. */
  datatype Origin =
    | Entry(value: Bytea)
    | Union(parts: seq<Origin>)
    | SplitHalf(parts: seq<Origin>, cpf: nat)
  {
    function Key(): Key
      requires WellFormed()
      decreases this, 2
    {
      match this
      case Entry(v) => LeafKey(v)
      case Union(ps) => UnionKey(PartKeys())
      case SplitHalf(ps, n) => Truncate(RunningUnion(PartKeys()).value, n)
    }

    function PartKeys(): (ks: seq<Key>)
      requires !Entry? && forall i | 0 <= i < |parts| :: parts[i].WellFormed()
      ensures |ks| == |parts| && forall i | 0 <= i < |parts| :: ks[i] == parts[i].Key()
      decreases this, 0
    {
      seq(|parts|, i requires 0 <= i < |parts| => parts[i].Key())
    }

    /** A split may cut to any length past its common prefix, as long as the cut key admits the parts. */
    predicate WellFormed()
      decreases this, 1
    {
      match this
      case Entry(_) => true
      case Union(ps) => ps != [] && forall i | 0 <= i < |ps| :: ps[i].WellFormed()
      case SplitHalf(ps, n) =>
        && ps != []
        && (forall i | 0 <= i < |ps| :: ps[i].WellFormed())
        && n > PrefixLen(RunningUnion(PartKeys()).value)
        && Admits(Truncate(RunningUnion(PartKeys()).value, n), PartKeys())
    }

    /** The rows inserted beneath the key over its whole history. */
    ghost predicate Holds(v: Bytea) {
      match this
      case Entry(w) => v == w
      case Union(ps) => exists i | 0 <= i < |ps| :: ps[i].Holds(v)
      case SplitHalf(ps, _) => exists i | 0 <= i < |ps| :: ps[i].Holds(v)
    }
  }

  lemma {:induction false} TruncateOrdered(k: Key, cpf: nat)
    requires Ordered(k)
    ensures Ordered(Truncate(k, cpf))
  {
    TakeMonotone(k.Lower(), k.Upper(), cpf + 1);
  }

  lemma UnionOrdered(ks: seq<Key>)
    requires ks != [] && Ordered(ks[0])
    ensures Ordered(RunningUnion(ks).value)
  {
    var u := RunningUnion(ks).value;
    RunningUnionWidest(ks, 0);
    LeTransitive(u.Lower(), ks[0].Lower(), ks[0].Upper());
    LeTransitive(u.Lower(), ks[0].Upper(), u.Upper());
  }

  lemma {:induction false} OriginOrdered(o: Origin)
    requires o.WellFormed()
    ensures Ordered(o.Key())
  {
    hide Le, Admits, BinUnion, PrefixLen;
    match o
    case Entry(v) => LeReflexive(v);
    case Union(ps) =>
      OriginOrdered(ps[0]);
      UnionOrdered(o.PartKeys());
      var u := RunningUnion(o.PartKeys()).value;
      TruncateOrdered(u, PrefixLen(u) + 1);
    case SplitHalf(ps, n) =>
      OriginOrdered(ps[0]);
      UnionOrdered(o.PartKeys());
      TruncateOrdered(RunningUnion(o.PartKeys()).value, n);
  }

  /** However often a key was widened, split and truncated, it covers every row ever inserted beneath it. */
  lemma {:induction false} OriginCovers(o: Origin, v: Bytea)
    requires o.WellFormed() && o.Holds(v)
    ensures Covers(o.Key(), v)
  {
    hide Le, CommonPrefix, Covers, Escapes, Truncate, BinUnion, Stem, Open;
    match o
    case Entry(w) => LeafCovers(w);
    case Union(ps) =>
      var i :| 0 <= i < |ps| && ps[i].Holds(v);
      OriginCovers(ps[i], v);
      OriginOrdered(ps[i]);
      UnionCovers(o.PartKeys(), i, v);
    case SplitHalf(ps, n) =>
      var i :| 0 <= i < |ps| && ps[i].Holds(v);
      OriginCovers(ps[i], v);
      OriginOrdered(ps[i]);
      assert o.PartKeys()[i] in o.PartKeys();
      RunningUnionWidest(o.PartKeys(), i);
      TruncateKeepsCovering(RunningUnion(o.PartKeys()).value, n, o.PartKeys()[i], v);
  }

  lemma LeafCovers(v: Bytea)
    ensures Covers(LeafKey(v), v)
  {
    LeReflexive(v);
  }

  /** The union method keeps every value any entry covers. */
  lemma UnionCovers(ks: seq<Key>, i: nat, v: Bytea)
    requires i < |ks| && Ordered(ks[i]) && Covers(ks[i], v)
    ensures Covers(UnionKey(ks), v)
  {
    hide Le, CommonPrefix, Covers, Escapes, Stem, Open;
    UnionNeverEscapes(ks, i);
    RunningUnionWidest(ks, i);
    var u := RunningUnion(ks).value;
    TruncateKeepsCovering(u, PrefixLen(u) + 1, ks[i], v);
  }

  // ---------------------------------------------------------------- scans

  /** A page key has a history that includes the row. */
  ghost predicate InHistory(o: Origin, v: Bytea) {
    o.WellFormed() && o.Holds(v)
  }

  predicate Visits(o: Origin, q: Bytea, strategy: int)
  {
    o.WellFormed() ==> Consistent(o.Key(), q, strategy, false)
  }

  /** In any tree whose page keys have a history of unions and admissible splits including the rows now below
      them, the scan returns exactly the matching rows, in order: truncation loses no row and adds none. */
  lemma SearchIsExact(t: Tree<Origin, Bytea>, q: Bytea, strategy: int)
    requires Covering(t, (o, v) => InHistory(o, v))
    ensures Scan(t, o => Visits(o, q, strategy), v => Consistent(LeafKey(v), q, strategy, true))
            == Select(Rows(t), v => Matches(v, q, strategy))
  {
    hide Consistent, Matches;
    forall v: Bytea
      ensures Consistent(LeafKey(v), q, strategy, true) == Matches(v, q, strategy)
    {
      LeafIsExact(v, q, strategy);
    }
    forall o: Origin, v: Bytea | InHistory(o, v) && Matches(v, q, strategy)
      ensures Visits(o, q, strategy)
    {
      OriginCovers(o, v);
      CoveredMatchIsConsistent(o.Key(), v, q, strategy);
    }
    ScanIsExact(t, o => Visits(o, q, strategy), v => Consistent(LeafKey(v), q, strategy, true),
                (o, v) => InHistory(o, v), v => Matches(v, q, strategy));
  }

  // ---------------------------------------------------------------- exactly which trees are scanned exactly

  /** The key leads to the row: it is visited in a search for the row itself, and stands for no other value alone. */
  predicate LeadsTo(k: Key, v: Bytea) {
    Consistent(k, v, EQUAL, false) && (k.Lower() == k.Upper() ==> v == k.Lower())
  }

  /** That is all it takes for every query that the row matches. */
  lemma LeadsToIff(k: Key, v: Bytea)
    requires Ordered(k)
    ensures LeadsTo(k, v) <==> forall q, strategy | Matches(v, q, strategy) :: Consistent(k, q, strategy, false)
  {
    hide Le;
    if LeadsTo(k, v) {
      forall q, strategy | Matches(v, q, strategy)
        ensures Consistent(k, q, strategy, false)
      {
        LedMatchIsConsistent(k, v, q, strategy);
      }
    } else if Consistent(k, v, EQUAL, false) {
      assert Matches(v, k.Lower(), NOT_EQUAL) && !Consistent(k, k.Lower(), NOT_EQUAL, false);
    } else {
      assert Matches(v, v, EQUAL);
    }
  }

  lemma LedMatchIsConsistent(k: Key, v: Bytea, q: Bytea, strategy: int)
    requires Ordered(k) && LeadsTo(k, v) && Matches(v, q, strategy)
    ensures Consistent(k, q, strategy, false)
  {
    hide Le;
    LedIsAboveLower(k, v);
    LeTotal(v, q);
    LeTotal(k.Lower(), q);
    LeTotal(q, k.Upper());
    if strategy == LESS || strategy == LESS_EQUAL {
      LeTransitive(k.Lower(), v, q);
    } else if strategy == GREATER || strategy == GREATER_EQUAL {
      if Le(v, k.Upper()) {
        LeTransitive(q, v, k.Upper());
      } else if !Le(q, k.Upper()) {
        LeTransitive(k.Lower(), k.Upper(), q);
        if k.Lower() <= v {
          PrefixSandwich(k.Lower(), q, v);
        } else {
          PrefixSandwich(k.Upper(), q, v);
        }
      }
    }
  }

  lemma LedIsAboveLower(k: Key, v: Bytea)
    requires Ordered(k) && LeadsTo(k, v)
    ensures Le(k.Lower(), v) && (Le(v, k.Upper()) || NodePrefixMatch(k, v))
  {
    hide Le;
    LeTotal(k.Lower(), v);
    LeTotal(v, k.Upper());
    if k.Lower() <= v {
      PrefixLe(k.Lower(), v);
    } else if k.Upper() <= v {
      PrefixLe(k.Upper(), v);
      LeTransitive(k.Lower(), k.Upper(), v);
    }
  }

  ghost predicate KeysOrdered(t: Tree<Key, Bytea>) {
    t.Page? ==> Ordered(t.key) && forall i | 0 <= i < |t.children| :: KeysOrdered(t.children[i])
  }

  /** The scan for one query returns exactly the matching rows, in order. */
  ghost predicate ScansExactly(t: Tree<Key, Bytea>, q: Bytea, strategy: int) {
    Scan(t, (k: Key) => Consistent(k, q, strategy, false), (v: Bytea) => Consistent(LeafKey(v), q, strategy, true))
    == Select(Rows(t), (v: Bytea) => Matches(v, q, strategy))
  }

  ghost function KeptFor(q: Bytea, strategy: int): (Key, Bytea) -> bool {
    Kept((k: Key) => Consistent(k, q, strategy, false), (v: Bytea) => Matches(v, q, strategy))
  }

  lemma {:induction false} LeadingIsKeeping(t: Tree<Key, Bytea>, q: Bytea, strategy: int)
    requires KeysOrdered(t) && Covering(t, (k, v) => LeadsTo(k, v))
    ensures Covering(t, KeptFor(q, strategy))
  {
    hide Consistent, Matches, LeadsTo, Ordered;
    if t.Page? {
      forall v | v in RowsOf(t.children) && Matches(v, q, strategy)
        ensures Consistent(t.key, q, strategy, false)
      {
        LedMatchIsConsistent(t.key, v, q, strategy);
      }
      forall i | 0 <= i < |t.children|
        ensures Covering(t.children[i], KeptFor(q, strategy))
      {
        LeadingIsKeeping(t.children[i], q, strategy);
      }
    }
  }

  lemma {:induction false} KeepingIsLeading(t: Tree<Key, Bytea>)
    requires KeysOrdered(t) && forall q, strategy :: Covering(t, KeptFor(q, strategy))
    ensures Covering(t, (k, v) => LeadsTo(k, v))
  {
    hide Consistent, Matches, LeadsTo, Ordered;
    if t.Page? {
      forall v | v in RowsOf(t.children)
        ensures LeadsTo(t.key, v)
      {
        forall q, strategy | Matches(v, q, strategy)
          ensures Consistent(t.key, q, strategy, false)
        {
          assert Covering(t, KeptFor(q, strategy));
          assert KeptFor(q, strategy)(t.key, v);
        }
        LeadsToIff(t.key, v);
      }
      forall i | 0 <= i < |t.children|
        ensures Covering(t.children[i], (k, v) => LeadsTo(k, v))
      {
        forall q, strategy
          ensures Covering(t.children[i], KeptFor(q, strategy))
        {
          assert Covering(t, KeptFor(q, strategy));
        }
        KeepingIsLeading(t.children[i]);
      }
    }
  }

  lemma ScansExactlyIff(t: Tree<Key, Bytea>, q: Bytea, strategy: int)
    ensures ScansExactly(t, q, strategy) <==> Covering(t, KeptFor(q, strategy))
  {
    hide Consistent, Matches;
    forall v: Bytea
      ensures Consistent(LeafKey(v), q, strategy, true) == Matches(v, q, strategy)
    {
      LeafIsExact(v, q, strategy);
    }
    ScanIsExactIff(t, (k: Key) => Consistent(k, q, strategy, false),
                   (v: Bytea) => Consistent(LeafKey(v), q, strategy, true), (v: Bytea) => Matches(v, q, strategy));
  }

  /** However its keys came about, a tree is scanned exactly for every query and strategy if and only if every page
      key leads to every row below it. */
  lemma AlwaysExactIff(t: Tree<Key, Bytea>)
    requires KeysOrdered(t)
    ensures (forall q, strategy :: ScansExactly(t, q, strategy)) <==> Covering(t, (k, v) => LeadsTo(k, v))
  {
    hide ScansExactly, LeadsTo, KeptFor;
    forall q, strategy
      ensures ScansExactly(t, q, strategy) <==> Covering(t, KeptFor(q, strategy))
    {
      ScansExactlyIff(t, q, strategy);
    }
    if Covering(t, (k, v) => LeadsTo(k, v)) {
      forall q, strategy
        ensures ScansExactly(t, q, strategy)
      {
        LeadingIsKeeping(t, q, strategy);
      }
    }
    if forall q, strategy :: ScansExactly(t, q, strategy) {
      forall q, strategy
        ensures Covering(t, KeptFor(q, strategy))
      {
        assert ScansExactly(t, q, strategy);
      }
      KeepingIsLeading(t);
    }
  }
}
