/** The walker as the server runs it: every level of the tree owns a mutable context, and each call updates its
    parent's. */
module CollationContext {
  import opened Wrappers
  import opened CollationWalker

  class LocalContext {
    var collation: Oid
    var state: State

    ghost function Value(): Cxt
      reads this
    {
      Cxt(collation, state)
    }

    constructor ()
      ensures Value() == EMPTY
    {
      collation, state := INVALID_OID, CollateNone;
    }

    /** Merges a child's collation and state into this context. */
    method Absorb(c: Oid, s: State)
      modifies this
      ensures Value() == Merge(old(Value()), Cxt(c, s))
    {
      if s.Rank() > state.Rank() {
        collation, state := c, s;
      } else if s == state {
        match s
        case CollateNone =>
        case CollateSafe =>
          if c != collation {
            if collation == DEFAULT_COLLATION_OID {
              collation := c;
            } else if c != DEFAULT_COLLATION_OID {
              state := CollateUnsafe;
            }
          }
        case CollateUnsafe =>
      }
    }
  }

  /** The walker proper: false rejects; true leaves the parent's context updated. */
  method ForeignExprWalker(g: Glob, n: Node, outer: LocalContext) returns (ok: bool)
    modifies outer
    ensures ok <==> Walk(g, n, old(outer.Value())).Some?
    ensures ok ==> Some(outer.Value()) == Walk(g, n, old(outer.Value()))
    decreases n, 2
  {
    hide Own, Merge;
    if n.Null? {
      return true;
    }
    var c, s;
    ok, c, s := OwnCollation(g, n);
    if !ok || (!n.List? && !n.OtherNode? && !g.shippable(n.typ, TypeCatalog)) {
      return false;
    }
    outer.Absorb(c, s);
  }

  method WalkElements(g: Glob, ns: seq<Node>, inner: LocalContext) returns (ok: bool)
    modifies inner
    ensures ok <==> WalkAll(g, ns, old(inner.Value())).Some?
    ensures ok ==> Some(inner.Value()) == WalkAll(g, ns, old(inner.Value()))
    decreases ns, 0
  {
    hide Walk;
    ghost var all := WalkAll(g, ns, inner.Value());
    for i := 0 to |ns|
      invariant WalkAll(g, ns[i..], inner.Value()) == all
    {
      assert ns[i..][0] == ns[i] && ns[i..][1..] == ns[i + 1..];
      ok := ForeignExprWalker(g, ns[i], inner);
      if !ok {
        return;
      }
    }
    ok := true;
  }

  /** The case of an argument list: a context of its own, bubbled up. */
  method WalkArgs(g: Glob, ns: seq<Node>, outer: LocalContext) returns (ok: bool)
    requires outer.Value() == EMPTY
    modifies outer
    ensures ok <==> WalkList(g, ns).Some?
    ensures ok ==> Some(outer.Value()) == WalkList(g, ns)
    decreases ns, 1
  {
    hide WalkAll, Merge;
    var inner := new LocalContext();
    ok := WalkElements(g, ns, inner);
    if ok {
      outer.Absorb(inner.collation, inner.state);
    }
  }

  method InputAndResult(inputcollid: Oid, collid: Oid, inner: LocalContext) returns (ok: bool, s: State)
    ensures ok == InputOk(inputcollid, inner.Value())
    ensures Cxt(collid, s) == ResultCxt(collid, inner.Value())
  {
    ok := inputcollid == INVALID_OID || !(inner.state != CollateSafe || inputcollid != inner.collation);
    if collid == INVALID_OID {
      s := CollateNone;
    } else if inner.state == CollateSafe && collid == inner.collation {
      s := CollateSafe;
    } else if collid == DEFAULT_COLLATION_OID {
      s := CollateNone;
    } else {
      s := CollateUnsafe;
    }
  }

  method AllSortsOk(g: Glob, order: seq<SortClause>) returns (ok: bool)
    ensures ok <==> !exists i | 0 <= i < |order| :: !SortOk(g, order[i])
  {
    for i := 0 to |order|
      invariant forall k | 0 <= k < i :: SortOk(g, order[k])
    {
      var s := order[i];
      if s.sortop != s.ltOpr && s.sortop != s.gtOpr && !g.shippable(s.sortop, OperatorCatalog) {
        assert !SortOk(g, order[i]);
        return false;
      }
    }
    return true;
  }

  /** The switch over node kinds. */
  method OwnCollation(g: Glob, n: Node) returns (ok: bool, c: Oid, s: State)
    requires !n.Null?
    ensures ok <==> Own(g, n).Some?
    ensures ok ==> Own(g, n) == Some(Cxt(c, s))
    decreases n, 1
  {
    hide WalkAll, WalkList, Walk, InputOk, ResultCxt, SortOk, Merge;
    var inner := new LocalContext();
    ok, c, s := true, INVALID_OID, CollateNone;
    match n
    case Var(_, _, attno, collid, _, _) =>
      c := collid;
      if n.varno in g.relids && n.levelsup == 0 {
        ok := !(attno < 0 && attno != SELF_ITEM_POINTER_ATTNO && attno != OBJECT_ID_ATTNO);
        s := if collid != INVALID_OID then CollateSafe else CollateNone;
      } else {
        s := Unrooted(collid).state;
      }
    case Const(collid, _) => c, s := collid, Unrooted(collid).state;
    case Param(external, _, collid, _, _) => ok, c, s := external, collid, Unrooted(collid).state;
    case ArrayRef(assigns, upper, lower, expr, collid, _) =>
      if assigns {
        return false, c, s;
      }
      ok := ForeignExprWalker(g, upper, inner);
      if ok {
        ok := ForeignExprWalker(g, lower, inner);
      }
      if ok {
        ok := ForeignExprWalker(g, expr, inner);
      }
      var _, st := InputAndResult(0, collid, inner);
      c, s := collid, st;
    case FuncExpr(f, args, input, collid, _, _) =>
      ok, c, s := CallCollation(g, g.shippable(f, ProcedureCatalog), args, input, collid);
    case OpExpr(op, args, input, collid, _) =>
      ok, c, s := CallCollation(g, g.shippable(op, OperatorCatalog), args, input, collid);
    case ScalarArrayOpExpr(op, args, input, _) =>
      ok, c, s := CallCollation(g, g.shippable(op, OperatorCatalog), args, input, INVALID_OID);
      c, s := INVALID_OID, CollateNone;
    case RelabelType(arg, collid, _) =>
      ok := ForeignExprWalker(g, arg, inner);
      var _, st := InputAndResult(0, collid, inner);
      c, s := collid, st;
    case BoolExpr(args, _) => ok := WalkArgs(g, args, inner);
    case NullTest(arg, _) => ok := ForeignExprWalker(g, arg, inner);
    case ArrayExpr(args, collid, _) =>
      ok := WalkArgs(g, args, inner);
      var _, st := InputAndResult(0, collid, inner);
      c, s := collid, st;
    case List(args) =>
      ok := WalkElements(g, args, inner);
      c, s := inner.collation, inner.state;
    case Aggref(f, args, order, input, collid, _) =>
      ok := WalkElements(g, args, inner);
      var sorts := AllSortsOk(g, order);
      var inputOk, st := InputAndResult(input, collid, inner);
      ok, c, s := ok && g.shippable(f, ProcedureCatalog) && sorts && inputOk, collid, st;
    case OtherNode => ok := false;
  }

  /** Functions and operators: shippable, arguments walked, input collation derived from them. */
  method CallCollation(g: Glob, shippable: bool, args: seq<Node>, input: Oid, collid: Oid)
    returns (ok: bool, c: Oid, s: State)
    ensures ok <==> shippable && WalkList(g, args).Some? && InputOk(input, WalkList(g, args).value)
    ensures ok ==> Cxt(c, s) == ResultCxt(collid, WalkList(g, args).value)
    decreases args, 2
  {
    hide WalkList, InputOk, ResultCxt;
    if !shippable {
      return false, INVALID_OID, CollateNone;
    }
    var inner := new LocalContext();
    ok := WalkArgs(g, args, inner);
    var inputOk, st := InputAndResult(input, collid, inner);
    ok, c, s := ok && inputOk, collid, st;
  }

  /** Whether an expression may be shipped. */
  method ForeignExpr(g: Glob, n: Node, mutableFunctions: bool) returns (r: bool)
    ensures r == IsForeignExpr(g, n, mutableFunctions)
  {
    hide Walk;
    var loc := new LocalContext();
    var ok := ForeignExprWalker(g, n, loc);
    if !ok {
      return false;
    }
    return loc.state != CollateUnsafe && !mutableFunctions;
  }
}
