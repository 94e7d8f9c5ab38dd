/** The walker's verdict does not depend on the order of arguments: merging is the join of a lattice. */
module CollationOrder {
  import opened Wrappers
  import opened CollationWalker

  /** What a context amounts to. Nothing below looks at the collation of a context that is not safe. */
  datatype Level = Bottom | Default | Named(collation: Oid) | Conflict | Rejected

  function LevelOf(c: Cxt): Level {
    match c.state
    case CollateNone => Bottom
    case CollateSafe => if c.collation == DEFAULT_COLLATION_OID then Default else Named(c.collation)
    case CollateUnsafe => Conflict
  }

  function Verdict(r: Option<Cxt>): Level {
    if r.None? then Rejected else LevelOf(r.value)
  }

  /** Least upper bound in Bottom < Default < Named(c) < Conflict < Rejected, distinct names being apart. */
  function Join(a: Level, b: Level): Level {
    if a.Rejected? || b.Rejected? then Rejected
    else if a.Conflict? || b.Conflict? then Conflict
    else if a.Named? && b.Named? then (if a == b then a else Conflict)
    else if a.Named? then a
    else if b.Named? then b
    else if a.Default? || b.Default? then Default
    else Bottom
  }

  lemma JoinLaws(a: Level, b: Level, c: Level)
    ensures Join(a, b) == Join(b, a)
    ensures Join(Join(a, b), c) == Join(a, Join(b, c))
    ensures Join(a, a) == a
    ensures Join(Bottom, a) == a
  {
  }

  /** Merging is joining. */
  lemma MergeIsJoin(outer: Cxt, c: Cxt)
    ensures LevelOf(Merge(outer, c)) == Join(LevelOf(outer), LevelOf(c))
  {
  }

  /** What a node passes on, or Rejected. */
  function NodeLevel(g: Glob, n: Node): Level {
    Verdict(Walk(g, n, EMPTY))
  }

  function JoinAll(g: Glob, ns: seq<Node>): Level {
    if ns == [] then Bottom else Join(NodeLevel(g, ns[0]), JoinAll(g, ns[1..]))
  }

  lemma WalkLevel(g: Glob, n: Node, outer: Cxt)
    ensures Verdict(Walk(g, n, outer)) == Join(LevelOf(outer), NodeLevel(g, n))
  {
    hide Own, Merge, Join;
    JoinLaws(LevelOf(outer), Bottom, Bottom);
    JoinWithRejected(LevelOf(outer));
    if !n.Null? && Own(g, n).Some? {
      MergeIsJoin(outer, Own(g, n).value);
      MergeIsJoin(EMPTY, Own(g, n).value);
      JoinLaws(LevelOf(Own(g, n).value), Bottom, Bottom);
    }
  }

  lemma JoinWithRejected(a: Level)
    ensures Join(a, Rejected) == Rejected
  {
  }

  /** Walking a list joins the levels of its elements. */
  lemma {:induction false} WalkAllLevel(g: Glob, ns: seq<Node>, inner: Cxt)
    ensures Verdict(WalkAll(g, ns, inner)) == Join(LevelOf(inner), JoinAll(g, ns))
    decreases |ns|
  {
    hide Walk, Join, NodeLevel, LevelOf;
    if ns == [] {
      JoinLaws(LevelOf(inner), Bottom, Bottom);
    } else {
      WalkLevel(g, ns[0], inner);
      JoinLaws(LevelOf(inner), NodeLevel(g, ns[0]), JoinAll(g, ns[1..]));
      var first := Walk(g, ns[0], inner);
      if first.Some? {
        WalkAllLevel(g, ns[1..], first.value);
      } else {
        JoinWithRejected(JoinAll(g, ns[1..]));
        JoinLaws(Rejected, JoinAll(g, ns[1..]), Bottom);
      }
    }
  }

  // ---------------------------------------------------------------- rearranging lists

  lemma {:induction false} JoinAllConcat(g: Glob, a: seq<Node>, b: seq<Node>)
    ensures JoinAll(g, a + b) == Join(JoinAll(g, a), JoinAll(g, b))
  {
    hide NodeLevel, Join;
    if a == [] {
      assert a + b == b;
      JoinLaws(JoinAll(g, b), Bottom, Bottom);
    } else {
      assert (a + b)[1..] == a[1..] + b;
      JoinAllConcat(g, a[1..], b);
      JoinLaws(NodeLevel(g, a[0]), JoinAll(g, a[1..]), JoinAll(g, b));
    }
  }

  /** The join of a list depends only on which elements it has. */
  lemma {:induction false} JoinAllRearranged(g: Glob, a: seq<Node>, b: seq<Node>)
    requires multiset(a) == multiset(b)
    ensures JoinAll(g, a) == JoinAll(g, b)
    decreases |a|
  {
    hide NodeLevel, Join;
    if a == [] {
      assert |multiset(b)| == |b|;
    } else {
      assert a[0] in multiset(b);
      var j :| 0 <= j < |b| && b[j] == a[0];
      var rest := b[..j] + b[j + 1..];
      RestsAgree(a, b, j);
      JoinAllRearranged(g, a[1..], rest);
      assert b == b[..j] + [b[j]] + b[j + 1..];
      JoinAllPull(g, b[..j], b[j], b[j + 1..]);
    }
  }

  lemma RestsAgree<T>(a: seq<T>, b: seq<T>, j: nat)
    requires multiset(a) == multiset(b) && a != [] && j < |b| && b[j] == a[0]
    ensures multiset(a[1..]) == multiset(b[..j] + b[j + 1..])
  {
    assert a == [a[0]] + a[1..] && b == b[..j] + [b[j]] + b[j + 1..];
    assert multiset(a) == multiset{a[0]} + multiset(a[1..]);
    assert multiset(b) == multiset(b[..j]) + multiset{b[j]} + multiset(b[j + 1..]);
    assert multiset(b[..j] + b[j + 1..]) == multiset(b[..j]) + multiset(b[j + 1..]);
    assert multiset(a[1..]) == multiset(a) - multiset{a[0]};
  }

  lemma JoinAllPull(g: Glob, a: seq<Node>, n: Node, b: seq<Node>)
    ensures JoinAll(g, a + [n] + b) == Join(NodeLevel(g, n), JoinAll(g, a + b))
  {
    hide NodeLevel, Join;
    assert a + [n] + b == a + ([n] + b) && ([n] + b)[1..] == b;
    JoinAllConcat(g, a, [n] + b);
    JoinAllConcat(g, a, b);
    var la, ln, lb := JoinAll(g, a), NodeLevel(g, n), JoinAll(g, b);
    JoinLaws(la, ln, lb);
    JoinLaws(ln, la, lb);
  }

  // ---------------------------------------------------------------- rearranging at every depth

  /** Same tree up to the order of the elements of any list at any depth. */
  ghost predicate Shuffled(a: Node, b: Node)
    decreases a, 1
  {
    match a
    case ArrayRef(w, u, l, e, c, t) =>
      && b.ArrayRef? && b == ArrayRef(w, b.upper, b.lower, b.expr, c, t)
      && Shuffled(u, b.upper) && Shuffled(l, b.lower) && Shuffled(e, b.expr)
    case RelabelType(x, c, t) => b.RelabelType? && b == RelabelType(b.arg, c, t) && Shuffled(x, b.arg)
    case NullTest(x, t) => b.NullTest? && b == NullTest(b.arg, t) && Shuffled(x, b.arg)
    case FuncExpr(f, args, i, c, t, k) => b.FuncExpr? && b == FuncExpr(f, b.args, i, c, t, k) && ShuffledAll(args, b.args)
    case OpExpr(o, args, i, c, t) => b.OpExpr? && b == OpExpr(o, b.args, i, c, t) && ShuffledAll(args, b.args)
    case ScalarArrayOpExpr(o, args, i, t) =>
      b.ScalarArrayOpExpr? && b == ScalarArrayOpExpr(o, b.args, i, t) && ShuffledAll(args, b.args)
    case BoolExpr(args, t) => b.BoolExpr? && b == BoolExpr(b.args, t) && ShuffledAll(args, b.args)
    case ArrayExpr(args, c, t) => b.ArrayExpr? && b == ArrayExpr(b.args, c, t) && ShuffledAll(args, b.args)
    case List(args) => b.List? && ShuffledAll(args, b.args)
    case Aggref(f, args, o, i, c, t) => b.Aggref? && b == Aggref(f, b.args, o, i, c, t) && ShuffledAll(args, b.args)
    case _ => a == b
  }

  /** The elements of a, each shuffled inside, appear in b in some order. */
  ghost predicate ShuffledAll(a: seq<Node>, b: seq<Node>)
    decreases a, 0
  {
    exists c: seq<Node> :: |c| == |a| && multiset(c) == multiset(b) && forall i | 0 <= i < |a| :: Shuffled(a[i], c[i])
  }

  lemma {:induction false} ShuffledReflexive(n: Node)
    ensures Shuffled(n, n)
  {
    match n
    case ArrayRef(_, u, l, e, _, _) =>
      ShuffledReflexive(u);
      ShuffledReflexive(l);
      ShuffledReflexive(e);
    case RelabelType(x, _, _) => ShuffledReflexive(x);
    case NullTest(x, _) => ShuffledReflexive(x);
    case Null =>
    case Var(_, _, _, _, _, _) =>
    case Const(_, _) =>
    case Param(_, _, _, _, _) =>
    case OtherNode =>
    case _ =>
      forall i | 0 <= i < |n.args|
        ensures Shuffled(n.args[i], n.args[i])
      {
        ShuffledReflexive(n.args[i]);
      }
      assert ShuffledAll(n.args, n.args);
  }

  /** Every rearrangement of a list counts as a shuffling. */
  lemma RearrangedIsShuffled(a: seq<Node>, b: seq<Node>)
    requires multiset(a) == multiset(b)
    ensures ShuffledAll(a, b)
  {
    forall i | 0 <= i < |a|
      ensures Shuffled(a[i], a[i])
    {
      ShuffledReflexive(a[i]);
    }
  }

  lemma {:induction false} JoinAllPointwise(g: Glob, a: seq<Node>, c: seq<Node>)
    requires |a| == |c| && forall i | 0 <= i < |a| :: NodeLevel(g, a[i]) == NodeLevel(g, c[i])
    ensures JoinAll(g, a) == JoinAll(g, c)
  {
    hide NodeLevel, Join;
    if a != [] {
      JoinAllPointwise(g, a[1..], c[1..]);
    }
  }

  /** Results of walking at the same level are used alike. */
  ghost predicate UsedAlike(a: Option<Cxt>, b: Option<Cxt>) {
    && a.Some? == b.Some?
    && (a.Some? ==> forall c: Oid :: InputOk(c, a.value) == InputOk(c, b.value))
    && (a.Some? ==> forall c: Oid :: ResultCxt(c, a.value) == ResultCxt(c, b.value))
  }

  lemma SameVerdictUsedAlike(a: Option<Cxt>, b: Option<Cxt>)
    requires Verdict(a) == Verdict(b)
    ensures UsedAlike(a, b)
  {
  }

  /** Acceptance, final state and safe collation are the same for any two shufflings of an expression. */
  lemma {:induction false} OrderDoesNotMatter(g: Glob, a: Node, b: Node)
    requires Shuffled(a, b)
    ensures NodeLevel(g, a) == NodeLevel(g, b)
    decreases a, 1
  {
    hide Own, Walk;
    match a
    case ArrayRef(_, _, _, _, _, _) =>
      ArrayRefOrder(g, a, b);
      SameOwn(g, a, b);
    case RelabelType(x, _, _) =>
      ArgOrder(g, x, b.arg);
      RelabelOrder(g, a, b);
    case NullTest(x, _) =>
      ArgOrder(g, x, b.arg);
      NullTestOrder(g, a, b);
    case List(args) =>
      ListOrder(g, args, b.args);
      BubbleLevel(g, args);
      BubbleLevel(g, b.args);
    case Null =>
    case Var(_, _, _, _, _, _) =>
    case Const(_, _) =>
    case Param(_, _, _, _, _) =>
    case OtherNode =>
    case _ =>
      ListOrder(g, a.args, b.args);
      CallOrder(g, a, b);
  }

  /** Nodes that pass on the same thing get the same verdict. */
  lemma SameOwn(g: Glob, a: Node, b: Node)
    requires !a.Null? && !b.Null? && !a.List? && !b.List? && !a.OtherNode? && !b.OtherNode?
    requires a.typ == b.typ && Own(g, a) == Own(g, b)
    ensures NodeLevel(g, a) == NodeLevel(g, b)
  {
    hide Own;
  }

  lemma RelabelOrder(g: Glob, a: Node, b: Node)
    requires a.RelabelType? && b.RelabelType? && b == RelabelType(b.arg, a.resultcollid, a.typ)
    requires UsedAlike(Walk(g, a.arg, EMPTY), Walk(g, b.arg, EMPTY))
    ensures NodeLevel(g, a) == NodeLevel(g, b)
  {
    assert Own(g, a) == Own(g, b) by {
      hide Walk, ResultCxt, InputOk;
    }
    SameOwn(g, a, b);
  }

  lemma NullTestOrder(g: Glob, a: Node, b: Node)
    requires a.NullTest? && b.NullTest? && a.typ == b.typ
    requires UsedAlike(Walk(g, a.arg, EMPTY), Walk(g, b.arg, EMPTY))
    ensures NodeLevel(g, a) == NodeLevel(g, b)
  {
    assert Own(g, a) == Own(g, b) by {
      hide Walk, ResultCxt, InputOk;
    }
    SameOwn(g, a, b);
  }

  /** Nodes with an argument list. */
  predicate HasArgs(n: Node) {
    n.FuncExpr? || n.OpExpr? || n.ScalarArrayOpExpr? || n.BoolExpr? || n.ArrayExpr? || n.Aggref?
  }

  lemma CallOrder(g: Glob, a: Node, b: Node)
    requires HasArgs(a) && HasArgs(b) && Shuffled(a, b)
    requires UsedAlike(WalkAll(g, a.args, EMPTY), WalkAll(g, b.args, EMPTY))
    requires UsedAlike(WalkList(g, a.args), WalkList(g, b.args))
    ensures NodeLevel(g, a) == NodeLevel(g, b)
  {
    hide WalkAll, WalkList, InputOk, ResultCxt, SortOk, ShuffledAll, Walk, NodeLevel;
    assert Own(g, a) == Own(g, b);
    SameOwn(g, a, b);
  }

  lemma BubbleLevel(g: Glob, args: seq<Node>)
    ensures NodeLevel(g, List(args)) == Verdict(WalkAll(g, args, EMPTY))
  {
    hide WalkAll, Merge;
    var all := WalkAll(g, args, EMPTY);
    assert Own(g, List(args)) == all;
    if all.Some? {
      MergeIsJoin(EMPTY, all.value);
      JoinLaws(LevelOf(all.value), Bottom, Bottom);
    }
  }

  lemma {:induction false} ArgOrder(g: Glob, x: Node, y: Node)
    requires Shuffled(x, y)
    ensures UsedAlike(Walk(g, x, EMPTY), Walk(g, y, EMPTY))
    decreases x, 2
  {
    hide Walk;
    OrderDoesNotMatter(g, x, y);
    SameVerdictUsedAlike(Walk(g, x, EMPTY), Walk(g, y, EMPTY));
  }

  lemma {:induction false} ListOrder(g: Glob, a: seq<Node>, b: seq<Node>)
    requires ShuffledAll(a, b)
    ensures Verdict(WalkAll(g, a, EMPTY)) == Verdict(WalkAll(g, b, EMPTY))
    ensures UsedAlike(WalkAll(g, a, EMPTY), WalkAll(g, b, EMPTY))
    ensures UsedAlike(WalkList(g, a), WalkList(g, b))
    decreases a, 0
  {
    hide WalkAll, Walk, Merge, LevelOf, UsedAlike, NodeLevel, JoinAll, Join, Shuffled;
    var c: seq<Node> :| |c| == |a| && multiset(c) == multiset(b) && forall i | 0 <= i < |a| :: Shuffled(a[i], c[i]);
    forall i | 0 <= i < |a|
      ensures NodeLevel(g, a[i]) == NodeLevel(g, c[i])
    {
      OrderDoesNotMatter(g, a[i], c[i]);
    }
    JoinAllPointwise(g, a, c);
    JoinAllRearranged(g, c, b);
    WalkAllLevel(g, a, EMPTY);
    WalkAllLevel(g, b, EMPTY);
    SameVerdictUsedAlike(WalkAll(g, a, EMPTY), WalkAll(g, b, EMPTY));
    MergedVerdict(WalkAll(g, a, EMPTY));
    MergedVerdict(WalkAll(g, b, EMPTY));
    SameVerdictUsedAlike(WalkList(g, a), WalkList(g, b));
  }

  lemma MergedVerdict(r: Option<Cxt>)
    ensures Verdict(if r.None? then None else Some(Merge(EMPTY, r.value))) == Verdict(r)
  {
  }

  lemma {:induction false} ArrayRefOrder(g: Glob, a: Node, b: Node)
    requires a.ArrayRef? && Shuffled(a, b)
    ensures Own(g, a) == Own(g, b)
    decreases a, 0
  {
    hide Walk, Join, InputOk, ResultCxt;
    OrderDoesNotMatter(g, a.upper, b.upper);
    OrderDoesNotMatter(g, a.lower, b.lower);
    OrderDoesNotMatter(g, a.expr, b.expr);
    var i1, j1 := Walk(g, a.upper, EMPTY), Walk(g, b.upper, EMPTY);
    WalkLevel(g, a.upper, EMPTY);
    WalkLevel(g, b.upper, EMPTY);
    if i1.Some? {
      StepOrder(g, a.lower, b.lower, i1.value, j1.value);
      var i2, j2 := Walk(g, a.lower, i1.value), Walk(g, b.lower, j1.value);
      if i2.Some? {
        StepOrder(g, a.expr, b.expr, i2.value, j2.value);
        SameVerdictUsedAlike(Walk(g, a.expr, i2.value), Walk(g, b.expr, j2.value));
      }
    }
  }

  lemma StepOrder(g: Glob, x: Node, y: Node, i: Cxt, j: Cxt)
    requires NodeLevel(g, x) == NodeLevel(g, y) && LevelOf(i) == LevelOf(j)
    ensures Verdict(Walk(g, x, i)) == Verdict(Walk(g, y, j))
  {
    hide Walk, Join, NodeLevel;
    WalkLevel(g, x, i);
    WalkLevel(g, y, j);
  }

  /** In particular, whether an expression is shipped does not depend on the order of its arguments. */
  lemma ShippingIgnoresOrder(g: Glob, a: Node, b: Node, mutableFunctions: bool)
    requires Shuffled(a, b)
    ensures IsForeignExpr(g, a, mutableFunctions) == IsForeignExpr(g, b, mutableFunctions)
  {
    hide Walk;
    OrderDoesNotMatter(g, a, b);
  }
}
