/** The check that an expression may be evaluated by the remote server: every collation it depends on must come
    from a column of the foreign relation. */
module CollationWalker {
  import opened Wrappers

  type Oid = nat

  const INVALID_OID: Oid := 0
  const DEFAULT_COLLATION_OID: Oid := 100
  const SELF_ITEM_POINTER_ATTNO := -1
  const OBJECT_ID_ATTNO := -2

  datatype State = CollateNone | CollateSafe | CollateUnsafe {
    function Rank(): nat {
      match this
      case CollateNone => 0
      case CollateSafe => 1
      case CollateUnsafe => 2
    }
  }

  /** Collation found so far at one level of the tree. */
  datatype Cxt = Cxt(collation: Oid, state: State)

  const EMPTY := Cxt(INVALID_OID, CollateNone)

  datatype Catalog = ProcedureCatalog | OperatorCatalog | TypeCatalog

  /** A sort clause of an aggregate, with the default operators of the sorted column's type. */
  datatype SortClause = SortClause(sortop: Oid, ltOpr: Oid, gtOpr: Oid)

  /** Expression nodes; typ is the result type. A distinct test is laid out like an operator. */
  datatype Node =
    | Null
    | Var(varno: nat, levelsup: nat, attno: int, varcollid: Oid, typ: Oid, typmod: int)
    | Const(constcollid: Oid, typ: Oid)
    | Param(external: bool, paramid: int, paramcollid: Oid, typ: Oid, typmod: int)
    | ArrayRef(assigns: bool, upper: Node, lower: Node, expr: Node, refcollid: Oid, typ: Oid)
    | FuncExpr(funcid: Oid, args: seq<Node>, inputcollid: Oid, funccollid: Oid, typ: Oid, cast: bool)
    | OpExpr(opno: Oid, args: seq<Node>, inputcollid: Oid, opcollid: Oid, typ: Oid)
    | ScalarArrayOpExpr(opno: Oid, args: seq<Node>, inputcollid: Oid, typ: Oid)
    | RelabelType(arg: Node, resultcollid: Oid, typ: Oid)
    | BoolExpr(args: seq<Node>, typ: Oid)
    | NullTest(arg: Node, typ: Oid)
    | ArrayExpr(args: seq<Node>, arraycollid: Oid, typ: Oid)
    | List(args: seq<Node>)
    | Aggref(aggfnoid: Oid, args: seq<Node>, order: seq<SortClause>, inputcollid: Oid, aggcollid: Oid, typ: Oid)
    | OtherNode

  /** The foreign relation, and which catalog objects the remote server is known to share. */
  datatype Glob = Glob(relids: set<nat>, shippable: (Oid, Catalog) -> bool)

  predicate IsForeign(g: Glob, n: Node) {
    n.Var? && n.varno in g.relids && n.levelsup == 0
  }

  // ---------------------------------------------------------------- the walker

  /** Merges a node's collation into its parent's. */
  function Merge(outer: Cxt, c: Cxt): Cxt {
    if c.state.Rank() > outer.state.Rank() then c
    else if c.state == outer.state && c.state.CollateSafe? && c.collation != outer.collation then
      if outer.collation == DEFAULT_COLLATION_OID then Cxt(c.collation, CollateSafe)
      else if c.collation != DEFAULT_COLLATION_OID then Cxt(outer.collation, CollateUnsafe)
      else outer
    else outer
  }

  /** Collation of a leaf that is not a column of the foreign relation. */
  function Unrooted(collation: Oid): Cxt {
    Cxt(collation, if collation == INVALID_OID || collation == DEFAULT_COLLATION_OID then CollateNone else CollateUnsafe)
  }

  /** Collation of a node's result, given what its inputs showed. */
  function ResultCxt(collation: Oid, inner: Cxt): Cxt {
    Cxt(collation,
        if collation == INVALID_OID then CollateNone
        else if inner.state.CollateSafe? && collation == inner.collation then CollateSafe
        else if collation == DEFAULT_COLLATION_OID then CollateNone
        else CollateUnsafe)
  }

  predicate InputOk(inputcollid: Oid, inner: Cxt) {
    inputcollid == INVALID_OID || (inner.state.CollateSafe? && inputcollid == inner.collation)
  }

  predicate SortOk(g: Glob, s: SortClause) {
    s.sortop == s.ltOpr || s.sortop == s.gtOpr || g.shippable(s.sortop, OperatorCatalog)
  }

  /** The walker: None rejects, and otherwise the parent's updated context is returned. */
  function Walk(g: Glob, n: Node, outer: Cxt): Option<Cxt>
    decreases n, 2
  {
    if n.Null? then Some(outer)
    else
      var own := Own(g, n);
      if own.None? then None
      else if !n.List? && !n.OtherNode? && !g.shippable(n.typ, TypeCatalog) then None
      else Some(Merge(outer, own.value))
  }

  function WalkAll(g: Glob, ns: seq<Node>, inner: Cxt): Option<Cxt>
    decreases ns, 0
  {
    if ns == [] then Some(inner)
    else
      var first := Walk(g, ns[0], inner);
      if first.None? then None else WalkAll(g, ns[1..], first.value)
  }

  /** A list of arguments is a node of its own: it collects into a context of its own and merges that. */
  function WalkList(g: Glob, ns: seq<Node>): Option<Cxt>
    decreases ns, 1
  {
    var all := WalkAll(g, ns, EMPTY);
    if all.None? then None else Some(Merge(EMPTY, all.value))
  }

  /** Collation and state a node passes on to its parent. */
  function Own(g: Glob, n: Node): Option<Cxt>
    requires !n.Null?
    decreases n, 1
  {
    match n
    case Var(_, _, attno, collid, _, _) =>
      if IsForeign(g, n) then
        if attno < 0 && attno != SELF_ITEM_POINTER_ATTNO && attno != OBJECT_ID_ATTNO then None
        else Some(Cxt(collid, if collid != INVALID_OID then CollateSafe else CollateNone))
      else Some(Unrooted(collid))
    case Const(collid, _) => Some(Unrooted(collid))
    case Param(external, _, collid, _, _) => if !external then None else Some(Unrooted(collid))
    case ArrayRef(assigns, upper, lower, expr, collid, _) =>
      if assigns then None
      else
        var i1 := Walk(g, upper, EMPTY);
        if i1.None? then None
        else
          var i2 := Walk(g, lower, i1.value);
          if i2.None? then None
          else
            var i3 := Walk(g, expr, i2.value);
            if i3.None? then None else Some(ResultCxt(collid, i3.value))
    case FuncExpr(f, args, input, collid, _, _) =>
      var inner := WalkList(g, args);
      if !g.shippable(f, ProcedureCatalog) || inner.None? || !InputOk(input, inner.value) then None
      else Some(ResultCxt(collid, inner.value))
    case OpExpr(op, args, input, collid, _) =>
      var inner := WalkList(g, args);
      if !g.shippable(op, OperatorCatalog) || inner.None? || !InputOk(input, inner.value) then None
      else Some(ResultCxt(collid, inner.value))
    case ScalarArrayOpExpr(op, args, input, _) =>
      var inner := WalkList(g, args);
      if !g.shippable(op, OperatorCatalog) || inner.None? || !InputOk(input, inner.value) then None
      else Some(EMPTY)
    case RelabelType(arg, collid, _) =>
      var inner := Walk(g, arg, EMPTY);
      if inner.None? then None else Some(ResultCxt(collid, inner.value))
    case BoolExpr(args, _) => if WalkList(g, args).None? then None else Some(EMPTY)
    case NullTest(arg, _) => if Walk(g, arg, EMPTY).None? then None else Some(EMPTY)
    case ArrayExpr(args, collid, _) =>
      var inner := WalkList(g, args);
      if inner.None? then None else Some(ResultCxt(collid, inner.value))
    case List(args) => WalkAll(g, args, EMPTY)
    case Aggref(f, args, order, input, collid, _) =>
      var inner := WalkAll(g, args, EMPTY);
      if !g.shippable(f, ProcedureCatalog) || inner.None?
         || (exists i | 0 <= i < |order| :: !SortOk(g, order[i]))
         || !InputOk(input, inner.value) then None
      else Some(ResultCxt(collid, inner.value))
    case OtherNode => None
  }

  /** Whether an expression may be shipped; mutability of its functions is decided elsewhere. */
  predicate IsForeignExpr(g: Glob, n: Node, mutableFunctions: bool) {
    var r := Walk(g, n, EMPTY);
    r.Some? && !r.value.state.CollateUnsafe? && !mutableFunctions
  }

  // ---------------------------------------------------------------- collations come from foreign columns

  /** Collation c reaches the result of n from a column of the foreign relation, through nodes that all carry it. */
  predicate Rooted(g: Glob, n: Node, c: Oid) {
    match n
    case Var(varno, levelsup, _, collid, _, _) => varno in g.relids && levelsup == 0 && collid == c
    case ArrayRef(_, upper, lower, expr, collid, _) =>
      collid == c && (Rooted(g, upper, c) || Rooted(g, lower, c) || Rooted(g, expr, c))
    case RelabelType(arg, collid, _) => collid == c && Rooted(g, arg, c)
    case FuncExpr(_, args, _, collid, _, _) => collid == c && RootedIn(g, args, c)
    case OpExpr(_, args, _, collid, _) => collid == c && RootedIn(g, args, c)
    case ArrayExpr(args, collid, _) => collid == c && RootedIn(g, args, c)
    case List(args) => RootedIn(g, args, c)
    case Aggref(_, args, _, _, collid, _) => collid == c && RootedIn(g, args, c)
    case _ => false
  }

  predicate RootedIn(g: Glob, ns: seq<Node>, c: Oid) {
    exists i | 0 <= i < |ns| :: Rooted(g, ns[i], c)
  }

  /** Every function, operator and aggregate in n that depends on a collation gets it from a foreign column through
      its arguments. */
  predicate AllInputsRooted(g: Glob, n: Node) {
    match n
    case ArrayRef(_, upper, lower, expr, _, _) =>
      AllInputsRooted(g, upper) && AllInputsRooted(g, lower) && AllInputsRooted(g, expr)
    case RelabelType(arg, _, _) => AllInputsRooted(g, arg)
    case NullTest(arg, _) => AllInputsRooted(g, arg)
    case FuncExpr(_, args, input, _, _, _) =>
      (input != INVALID_OID ==> RootedIn(g, args, input)) && forall i | 0 <= i < |args| :: AllInputsRooted(g, args[i])
    case OpExpr(_, args, input, _, _) =>
      (input != INVALID_OID ==> RootedIn(g, args, input)) && forall i | 0 <= i < |args| :: AllInputsRooted(g, args[i])
    case ScalarArrayOpExpr(_, args, input, _) =>
      (input != INVALID_OID ==> RootedIn(g, args, input)) && forall i | 0 <= i < |args| :: AllInputsRooted(g, args[i])
    case Aggref(_, args, _, input, _, _) =>
      (input != INVALID_OID ==> RootedIn(g, args, input)) && forall i | 0 <= i < |args| :: AllInputsRooted(g, args[i])
    case BoolExpr(args, _) => forall i | 0 <= i < |args| :: AllInputsRooted(g, args[i])
    case ArrayExpr(args, _, _) => forall i | 0 <= i < |args| :: AllInputsRooted(g, args[i])
    case List(args) => forall i | 0 <= i < |args| :: AllInputsRooted(g, args[i])
    case _ => true
  }

  /** A safe context either was there before or is rooted in what was walked. */
  lemma {:induction false} WalkIsSound(g: Glob, n: Node, outer: Cxt)
    requires Walk(g, n, outer).Some?
    ensures AllInputsRooted(g, n)
    ensures var r := Walk(g, n, outer).value;
            r.state.CollateSafe? ==> r == outer || Rooted(g, n, r.collation)
    decreases n, 2
  {
    if !n.Null? {
      OwnIsSound(g, n);
    }
  }

  lemma {:induction false} WalkAllIsSound(g: Glob, ns: seq<Node>, inner: Cxt)
    requires WalkAll(g, ns, inner).Some?
    ensures forall i | 0 <= i < |ns| :: AllInputsRooted(g, ns[i])
    ensures var r := WalkAll(g, ns, inner).value;
            r.state.CollateSafe? ==> r == inner || RootedIn(g, ns, r.collation)
    decreases ns, 0
  {
    hide Walk, Rooted, AllInputsRooted;
    if ns != [] {
      WalkIsSound(g, ns[0], inner);
      WalkAllIsSound(g, ns[1..], Walk(g, ns[0], inner).value);
      var r := WalkAll(g, ns, inner).value;
      if r.state.CollateSafe? && RootedIn(g, ns[1..], r.collation) {
        var i :| 0 <= i < |ns| - 1 && Rooted(g, ns[1..][i], r.collation);
        assert Rooted(g, ns[i + 1], r.collation);
      }
    }
  }

  lemma {:induction false} OwnIsSound(g: Glob, n: Node)
    requires !n.Null? && Own(g, n).Some?
    ensures AllInputsRooted(g, n)
    ensures var r := Own(g, n).value;
            r.state.CollateSafe? ==> Rooted(g, n, r.collation)
    decreases n, 1
  {
    hide Walk, WalkAll, SortOk;
    match n
    case ArrayRef(_, upper, lower, expr, _, _) =>
      WalkIsSound(g, upper, EMPTY);
      var i1 := Walk(g, upper, EMPTY).value;
      WalkIsSound(g, lower, i1);
      WalkIsSound(g, expr, Walk(g, lower, i1).value);
    case RelabelType(arg, _, _) => WalkIsSound(g, arg, EMPTY);
    case NullTest(arg, _) => WalkIsSound(g, arg, EMPTY);
    case FuncExpr(_, args, _, _, _, _) => WalkAllIsSound(g, args, EMPTY);
    case OpExpr(_, args, _, _, _) => WalkAllIsSound(g, args, EMPTY);
    case ScalarArrayOpExpr(_, args, _, _) => WalkAllIsSound(g, args, EMPTY);
    case BoolExpr(args, _) => WalkAllIsSound(g, args, EMPTY);
    case ArrayExpr(args, _, _) => WalkAllIsSound(g, args, EMPTY);
    case List(args) => WalkAllIsSound(g, args, EMPTY);
    case Aggref(_, args, _, _, _, _) => WalkAllIsSound(g, args, EMPTY);
    case _ =>
  }

  /** Whatever is shipped depends only on collations of foreign columns. */
  lemma ShippedInputsAreRooted(g: Glob, n: Node, mutableFunctions: bool)
    requires IsForeignExpr(g, n, mutableFunctions)
    ensures AllInputsRooted(g, n)
  {
    WalkIsSound(g, n, EMPTY);
  }
}
