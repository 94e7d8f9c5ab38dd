/** Exactly which expressions the walker lets through, said without contexts: each list of arguments settles on a
    collation of its own, or on none, and everything that depends on a collation must be given the one its arguments
    settle on. */
module CollationComplete {
  import opened Wrappers
  import opened CollationWalker
  import opened CollationOrder

  // ---------------------------------------------------------------- parts of a node

  /** What a node is computed from. */
  function Children(n: Node): (cs: seq<Node>)
    ensures forall c | c in cs :: c < n
  {
    match n
    case ArrayRef(_, upper, lower, expr, _, _) => [upper, lower, expr]
    case RelabelType(arg, _, _) => [arg]
    case NullTest(arg, _) => [arg]
    case Null => []
    case Var(_, _, _, _, _, _) => []
    case Const(_, _) => []
    case Param(_, _, _, _, _) => []
    case OtherNode => []
    case _ => n.args
  }

  /** The collation of a node's result. */
  function ResultCollation(n: Node): Oid {
    match n
    case Var(_, _, _, collid, _, _) => collid
    case Const(collid, _) => collid
    case Param(_, _, collid, _, _) => collid
    case ArrayRef(_, _, _, _, collid, _) => collid
    case FuncExpr(_, _, _, collid, _, _) => collid
    case OpExpr(_, _, _, collid, _) => collid
    case RelabelType(_, collid, _) => collid
    case ArrayExpr(_, collid, _) => collid
    case Aggref(_, _, _, _, collid, _) => collid
    case _ => INVALID_OID
  }

  /** The collation a node's own computation uses. */
  function InputCollation(n: Node): Oid {
    match n
    case FuncExpr(_, _, input, _, _, _) => input
    case OpExpr(_, _, input, _, _) => input
    case ScalarArrayOpExpr(_, _, input, _) => input
    case Aggref(_, _, _, input, _, _) => input
    case _ => INVALID_OID
  }

  /** Collations aside, the remote server can evaluate the node. */
  predicate Evaluable(g: Glob, n: Node) {
    && (n.Null? || n.List? || n.OtherNode? || g.shippable(n.typ, TypeCatalog))
    && match n
       case Var(varno, levelsup, attno, _, _, _) =>
         varno in g.relids && levelsup == 0 ==> attno >= 0 || attno == SELF_ITEM_POINTER_ATTNO || attno == OBJECT_ID_ATTNO
       case Param(external, _, _, _, _) => external
       case ArrayRef(assigns, _, _, _, _, _) => !assigns
       case FuncExpr(f, _, _, _, _, _) => g.shippable(f, ProcedureCatalog)
       case OpExpr(op, _, _, _, _) => g.shippable(op, OperatorCatalog)
       case ScalarArrayOpExpr(op, _, _, _) => g.shippable(op, OperatorCatalog)
       case Aggref(f, _, order, _, _, _) =>
         g.shippable(f, ProcedureCatalog) && SortsShippable(g, order)
       case OtherNode => false
       case _ => true
  }

  /** Every sort uses a default operator of its column's type, or one that can be shipped. */
  predicate SortsShippable(g: Glob, order: seq<SortClause>) {
    forall s | s in order :: s.sortop == s.ltOpr || s.sortop == s.gtOpr || g.shippable(s.sortop, OperatorCatalog)
  }

  lemma SortsShippableIff(g: Glob, order: seq<SortClause>)
    ensures SortsShippable(g, order) <==> !exists i | 0 <= i < |order| :: !SortOk(g, order[i])
  {
  }

  predicate Neutral(collid: Oid) {
    collid == INVALID_OID || collid == DEFAULT_COLLATION_OID
  }

  // ---------------------------------------------------------------- settling on a collation

  /** The node hands on collation c, taken from foreign columns. */
  ghost predicate Hands(g: Glob, n: Node, c: Oid)
    decreases n, 1
  {
    && c != INVALID_OID
    && if n.Var? then n.varno in g.relids && n.levelsup == 0 && n.varcollid == c
       else (n.List? || ResultCollation(n) == c) && Settles(g, n, c)
  }

  /** The node claims a collation that its arguments do not give it; a list claims what its elements disagree on. */
  ghost predicate Strays(g: Glob, n: Node)
    decreases n, 1
  {
    if n.List? then Disagree(g, n)
    else if n.Var? && n.varno in g.relids && n.levelsup == 0 then false
    else !Neutral(ResultCollation(n)) && !Settles(g, n, ResultCollation(n))
  }

  /** The arguments of n settle on c: one hands it on, none strays, and none hands on anything else but the default. */
  ghost predicate Settles(g: Glob, n: Node, c: Oid)
    decreases n, 0
  {
    var cs := Children(n);
    && (exists m | m in cs :: Hands(g, m, c))
    && (forall m | m in cs :: !Strays(g, m))
    && forall m, d | m in cs && Hands(g, m, d) :: d == c || d == DEFAULT_COLLATION_OID
  }

  /** An argument of n strays, or two hand on different collations, neither of them the default. */
  ghost predicate Disagree(g: Glob, n: Node)
    decreases n, 0
  {
    var cs := Children(n);
    || (exists m | m in cs :: Strays(g, m))
    || exists m, m', c, d | m in cs && m' in cs && Hands(g, m, c) && Hands(g, m', d) ::
         c != d && c != DEFAULT_COLLATION_OID && d != DEFAULT_COLLATION_OID
  }

  /** Every part can be evaluated remotely, and every input collation is the one the arguments settle on. */
  ghost predicate Acceptable(g: Glob, n: Node) {
    && Evaluable(g, n)
    && (InputCollation(n) != INVALID_OID ==> Settles(g, n, InputCollation(n)))
    && forall m | m in Children(n) :: Acceptable(g, m)
  }

  // ---------------------------------------------------------------- levels of lists

  /** The level of a context that is safe with collation c. */
  function SafeLevel(c: Oid): Level {
    LevelOf(Cxt(c, CollateSafe))
  }

  /** Two nodes hand on different collations, neither of them the default. */
  ghost predicate Clash(g: Glob, ns: seq<Node>) {
    exists m, m' | m in ns && m' in ns ::
      NodeLevel(g, m).Named? && NodeLevel(g, m').Named? && NodeLevel(g, m) != NodeLevel(g, m')
  }

  /** What the join of a list is, by what is in the list. */
  lemma {:induction false} JoinAllIs(g: Glob, ns: seq<Node>)
    ensures var l := JoinAll(g, ns);
            && (l.Rejected? <==> exists m | m in ns :: NodeLevel(g, m).Rejected?)
            && (l.Conflict? || l.Rejected? <==>
                  (exists m | m in ns :: NodeLevel(g, m).Conflict? || NodeLevel(g, m).Rejected?) || Clash(g, ns))
            && (l.Named? ==> exists m | m in ns :: NodeLevel(g, m) == l)
            && (l.Default? ==> exists m | m in ns :: NodeLevel(g, m) == l)
            && (l.Bottom? ==> forall m | m in ns :: NodeLevel(g, m).Bottom?)
            && (l.Default? ==> forall m | m in ns :: NodeLevel(g, m).Bottom? || NodeLevel(g, m).Default?)
  {
    hide NodeLevel;
    if ns != [] {
      JoinAllIs(g, ns[1..]);
      assert forall m :: m in ns <==> m == ns[0] || m in ns[1..];
    }
  }

  /** Level of a result with the given collation, computed from inputs at level l. */
  function ResultLevel(collid: Oid, l: Level): Level {
    if collid == INVALID_OID then Bottom
    else if l == SafeLevel(collid) then l
    else if collid == DEFAULT_COLLATION_OID then Bottom
    else Conflict
  }

  lemma UsesAreLevels(c: Oid, inner: Cxt)
    ensures InputOk(c, inner) <==> c == INVALID_OID || LevelOf(inner) == SafeLevel(c)
    ensures LevelOf(ResultCxt(c, inner)) == ResultLevel(c, LevelOf(inner))
  {
  }

  /** What a node passes on, from what its children pass on. */
  function LevelByParts(g: Glob, n: Node): Level {
    var l, input := JoinAll(g, Children(n)), InputCollation(n);
    if !Evaluable(g, n) || l.Rejected? || (input != INVALID_OID && l != SafeLevel(input)) then Rejected
    else if n.List? then l
    else if n.Var? && n.varno in g.relids && n.levelsup == 0 then
      if n.varcollid == INVALID_OID then Bottom else SafeLevel(n.varcollid)
    else ResultLevel(ResultCollation(n), l)
  }

  /** The walker, whichever way it visits the children of a node, combines their levels. */
  lemma WalkIsByParts(g: Glob, n: Node)
    ensures NodeLevel(g, n) == LevelByParts(g, n)
  {
    hide WalkAll, WalkList, Walk, Merge, InputOk, ResultCxt, SortOk, JoinAll, Join, LevelOf, NodeLevel;
    match n
    case Null => LeafIsByParts(g, n);
    case Var(_, _, _, _, _, _) => LeafIsByParts(g, n);
    case Const(_, _) => LeafIsByParts(g, n);
    case Param(_, _, _, _, _) => LeafIsByParts(g, n);
    case OtherNode => LeafIsByParts(g, n);
    case List(args) =>
      BubbleLevel(g, args);
      ChildrenLevel(g, args);
    case ArrayRef(_, upper, lower, expr, _, _) =>
      ThreeWalks(g, upper, lower, expr);
      ChildrenLevel(g, Children(n));
      InnerIsByParts(g, n, WalkAll(g, Children(n), EMPTY));
    case RelabelType(arg, _, _) =>
      OneWalk(g, arg, EMPTY);
      ChildrenLevel(g, [arg]);
      InnerIsByParts(g, n, WalkAll(g, [arg], EMPTY));
    case NullTest(arg, _) =>
      OneWalk(g, arg, EMPTY);
      ChildrenLevel(g, [arg]);
      InnerIsByParts(g, n, WalkAll(g, [arg], EMPTY));
    case Aggref(_, args, _, _, _, _) =>
      ChildrenLevel(g, args);
      InnerIsByParts(g, n, WalkAll(g, args, EMPTY));
    case _ =>
      ChildrenLevel(g, n.args);
      InnerIsByParts(g, n, WalkList(g, n.args));
  }

  lemma LeafIsByParts(g: Glob, n: Node)
    requires n.Null? || n.Var? || n.Const? || n.Param? || n.OtherNode?
    ensures NodeLevel(g, n) == LevelByParts(g, n)
  {
    hide Walk, Merge;
    assert JoinAll(g, []) == Bottom;
    if !n.Null? && !n.OtherNode? {
      OwnVerdict(g, n);
    } else {
      assert NodeLevel(g, n) == if n.Null? then Bottom else Rejected by {
        OutsideTheSwitch(g, n);
      }
    }
  }

  lemma OutsideTheSwitch(g: Glob, n: Node)
    requires n.Null? || n.OtherNode?
    ensures NodeLevel(g, n) == if n.Null? then Bottom else Rejected
  {
  }

  /** The verdict on a node is what it passes on itself. */
  lemma OwnVerdict(g: Glob, n: Node)
    requires !n.Null? && !n.List? && !n.OtherNode?
    ensures NodeLevel(g, n) == if g.shippable(n.typ, TypeCatalog) then Verdict(Own(g, n)) else Rejected
  {
    hide Own, Merge;
    if Own(g, n).Some? {
      MergeIsJoin(EMPTY, Own(g, n).value);
      JoinLaws(LevelOf(Own(g, n).value), Bottom, Bottom);
    }
  }

  lemma ChildrenLevel(g: Glob, ns: seq<Node>)
    ensures Verdict(WalkAll(g, ns, EMPTY)) == JoinAll(g, ns) && Verdict(WalkList(g, ns)) == JoinAll(g, ns)
  {
    hide WalkAll, Merge, JoinAll, Join;
    WalkAllLevel(g, ns, EMPTY);
    JoinLaws(JoinAll(g, ns), Bottom, Bottom);
    MergedVerdict(WalkAll(g, ns, EMPTY));
  }

  lemma OneWalk(g: Glob, n: Node, outer: Cxt)
    ensures WalkAll(g, [n], outer) == Walk(g, n, outer)
  {
    hide Walk;
    assert [n][1..] == [];
  }

  lemma ThreeWalks(g: Glob, a: Node, b: Node, c: Node)
    ensures WalkAll(g, [a, b, c], EMPTY)
            == var i := Walk(g, a, EMPTY);
               if i.None? then None
               else
                 var j := Walk(g, b, i.value);
                 if j.None? then None else Walk(g, c, j.value)
  {
    hide Walk;
    assert [a, b, c][1..] == [b, c] && [b, c][1..] == [c];
    var i := Walk(g, a, EMPTY);
    if i.Some? {
      assert WalkAll(g, [a, b, c], EMPTY) == WalkAll(g, [b, c], i.value);
      var j := Walk(g, b, i.value);
      if j.Some? {
        OneWalk(g, c, j.value);
      }
    }
  }

  /** A node whose children gave the context inner. */
  lemma InnerIsByParts(g: Glob, n: Node, inner: Option<Cxt>)
    requires n.ArrayRef? || n.RelabelType? || n.NullTest? || HasArgs(n)
    requires Verdict(inner) == JoinAll(g, Children(n))
    requires n.ArrayRef? || n.RelabelType? || n.NullTest? || n.Aggref? ==> inner == WalkAll(g, Children(n), EMPTY)
    requires HasArgs(n) && !n.Aggref? ==> inner == WalkList(g, n.args)
    ensures NodeLevel(g, n) == LevelByParts(g, n)
  {
    hide WalkAll, WalkList, Walk, Merge, InputOk, ResultCxt, SortOk, JoinAll, Join, NodeLevel;
    OwnVerdict(g, n);
    if inner.Some? {
      UsesAreLevels(InputCollation(n), inner.value);
      UsesAreLevels(ResultCollation(n), inner.value);
    }
    if n.ArrayRef? {
      ThreeWalks(g, n.upper, n.lower, n.expr);
    } else if n.RelabelType? || n.NullTest? {
      OneWalk(g, n.arg, EMPTY);
    } else if n.Aggref? {
      SortsShippableIff(g, n.order);
    }
  }

  // ---------------------------------------------------------------- the verdict

  /** The predicates on n say what the walker found. */
  ghost predicate Told(g: Glob, n: Node) {
    var l := NodeLevel(g, n);
    && (Acceptable(g, n) <==> !l.Rejected?)
    && (l.Named? ==> !Neutral(l.collation))
    && (Acceptable(g, n) ==> (Strays(g, n) <==> l.Conflict?))
    && (Acceptable(g, n) ==> forall c | c != INVALID_OID :: Hands(g, n, c) <==> l == SafeLevel(c))
  }

  ghost predicate ChildrenTold(g: Glob, n: Node) {
    forall m | m in Children(n) :: Told(g, m) && Acceptable(g, m)
  }

  lemma ClashDisagrees(g: Glob, n: Node)
    requires ChildrenTold(g, n) && Clash(g, Children(n))
    ensures Disagree(g, n)
  {
    hide NodeLevel, Acceptable, Strays, Hands;
    var cs := Children(n);
    var m, m' :| m in cs && m' in cs && NodeLevel(g, m).Named? && NodeLevel(g, m').Named?
                 && NodeLevel(g, m) != NodeLevel(g, m');
    assert Hands(g, m, NodeLevel(g, m).collation) && Hands(g, m', NodeLevel(g, m').collation);
  }

  lemma DisagreementClashes(g: Glob, n: Node)
    requires ChildrenTold(g, n) && Disagree(g, n) && forall m | m in Children(n) :: !Strays(g, m)
    ensures Clash(g, Children(n))
  {
    hide NodeLevel, Acceptable, Strays, Hands;
    var cs := Children(n);
    var m, m', c, d :| m in cs && m' in cs && Hands(g, m, c) && Hands(g, m', d)
                       && c != d && c != DEFAULT_COLLATION_OID && d != DEFAULT_COLLATION_OID;
    HandsSomething(g, m, c);
    HandsSomething(g, m', d);
    assert NodeLevel(g, m) == SafeLevel(c) && NodeLevel(g, m') == SafeLevel(d);
  }

  lemma DisagreeTold(g: Glob, n: Node)
    requires ChildrenTold(g, n)
    ensures var l := JoinAll(g, Children(n));
            !l.Rejected? && (l.Named? ==> !Neutral(l.collation)) && (Disagree(g, n) <==> l.Conflict?)
  {
    hide NodeLevel, Acceptable, Hands, JoinAll, Clash, Strays;
    JoinAllIs(g, Children(n));
    if Clash(g, Children(n)) {
      ClashDisagrees(g, n);
    } else if Disagree(g, n) && forall m | m in Children(n) :: !Strays(g, m) {
      DisagreementClashes(g, n);
    }
  }

  lemma SettlesTold(g: Glob, n: Node, c: Oid)
    requires c != INVALID_OID && ChildrenTold(g, n)
    ensures Settles(g, n, c) <==> JoinAll(g, Children(n)) == SafeLevel(c)
  {
    hide NodeLevel, Acceptable, Strays, Hands, JoinAll;
    var cs, l := Children(n), JoinAll(g, Children(n));
    JoinAllIs(g, cs);
    if Settles(g, n, c) {
      var m :| m in cs && Hands(g, m, c);
      assert NodeLevel(g, m) == SafeLevel(c);
      forall m | m in cs && NodeLevel(g, m).Named?
        ensures NodeLevel(g, m) == SafeLevel(c)
      {
        assert Hands(g, m, NodeLevel(g, m).collation);
      }
    }
    if l == SafeLevel(c) {
      forall m, d | m in cs && Hands(g, m, d)
        ensures d == c || d == DEFAULT_COLLATION_OID
      {
        assert d != INVALID_OID by {
          HandsSomething(g, m, d);
        }
        assert NodeLevel(g, m) == SafeLevel(d);
      }
    }
  }

  lemma HandsSomething(g: Glob, n: Node, c: Oid)
    requires Hands(g, n, c)
    ensures c != INVALID_OID
  {
  }

  /** By induction over the expression, the predicates tell the walker's verdict. */
  lemma {:induction false} AllTold(g: Glob, n: Node)
    ensures Told(g, n)
  {
    hide NodeLevel, JoinAll, Evaluable, Disagree, Settles;
    forall m | m in Children(n)
      ensures Told(g, m)
    {
      AllTold(g, m);
    }
    WalkIsByParts(g, n);
    if ChildrenTold(g, n) {
      DisagreeTold(g, n);
      forall c | c != INVALID_OID
        ensures Settles(g, n, c) <==> JoinAll(g, Children(n)) == SafeLevel(c)
      {
        SettlesTold(g, n, c);
      }
      NoChildren(g);
    } else {
      JoinAllIs(g, Children(n));
    }
  }

  lemma NoChildren(g: Glob)
    ensures JoinAll(g, []) == Bottom
  {
  }

  /** An expression is shipped if and only if it has no mutable functions, its parts can be evaluated remotely, every
      input collation is the one its arguments settle on, and the result does not stray. */
  lemma ShippedIff(g: Glob, n: Node, mutableFunctions: bool)
    ensures IsForeignExpr(g, n, mutableFunctions) <==> !mutableFunctions && Acceptable(g, n) && !Strays(g, n)
  {
    hide Walk, Acceptable, Strays, Hands;
    AllTold(g, n);
  }

  // ---------------------------------------------------------------- columns behind collations

  /** m is n or somewhere below it. */
  ghost predicate Reaches(n: Node, m: Node) {
    n == m || exists c | c in Children(n) :: Reaches(c, m)
  }

  /** A column of the foreign relation itself, of collation c. */
  predicate ForeignColumn(g: Glob, v: Node, c: Oid) {
    v.Var? && v.varno in g.relids && v.levelsup == 0 && v.varcollid == c
  }

  lemma {:induction false} HandedFromColumn(g: Glob, n: Node, c: Oid) returns (v: Node)
    requires Hands(g, n, c)
    ensures Reaches(n, v) && ForeignColumn(g, v, c)
    decreases n
  {
    if n.Var? {
      v := n;
    } else {
      var m :| m in Children(n) && Hands(g, m, c);
      v := HandedFromColumn(g, m, c);
    }
  }

  lemma {:induction false} AcceptableBelow(g: Glob, n: Node, m: Node)
    requires Acceptable(g, n) && Reaches(n, m)
    ensures Acceptable(g, m)
    decreases n
  {
    hide Evaluable, Settles;
    if n != m {
      var c :| c in Children(n) && Reaches(c, m);
      AcceptableBelow(g, c, m);
    }
  }

  /** In a shipped expression, below every node that uses a collation there is a column of the foreign relation with
      that collation. */
  lemma ShippedCollationsAreForeign(g: Glob, n: Node, mutableFunctions: bool, m: Node) returns (v: Node)
    requires IsForeignExpr(g, n, mutableFunctions) && Reaches(n, m) && InputCollation(m) != INVALID_OID
    ensures Reaches(m, v) && v.Var? && v.varno in g.relids && v.levelsup == 0 && v.varcollid == InputCollation(m)
  {
    hide IsForeignExpr, Evaluable;
    ShippedIff(g, n, mutableFunctions);
    AcceptableBelow(g, n, m);
    var a :| a in Children(m) && Hands(g, a, InputCollation(m));
    v := HandedFromColumn(g, a, InputCollation(m));
  }

  /** A column of any other relation, or of an outer query, leaves a conflict unless its collation is the default or
      none. */
  lemma OtherColumnsConflict(g: Glob, n: Node)
    requires n.Var? && (n.varno !in g.relids || n.levelsup != 0) && g.shippable(n.typ, TypeCatalog)
    ensures NodeLevel(g, n)
            == if n.varcollid == INVALID_OID || n.varcollid == DEFAULT_COLLATION_OID then Bottom else Conflict
  {
    hide NodeLevel;
    WalkIsByParts(g, n);
    NoChildren(g);
  }
}
