/** The remote parameter table of the deparser: columns of other relations and external parameters become
    numbered parameters of the remote query, each node once. */
module RemoteParams {
  import opened Wrappers
  import opened CollationWalker
  import opened CollationComplete

  datatype Token =
    | SubqueryColumn(relno: nat, colno: nat)
    | ColumnRef(varno: nat, attno: int)
    | RemoteParam(index: nat, typ: Oid, typmod: int)
    | Placeholder(typ: Oid, typmod: int)

  ghost predicate Distinct(ps: seq<Node>) {
    forall i, j | 0 <= i < j < |ps| :: ps[i] != ps[j]
  }

  /** The number a node gets: its position if it is listed, and otherwise the next free one. */
  ghost predicate NumberOf(ps: seq<Node>, n: Node, k: nat) {
    if n in ps then 1 <= k <= |ps| && ps[k - 1] == n else k == |ps| + 1
  }

  /** The list after a node has been numbered. */
  function Listed(ps: seq<Node>, n: Node): seq<Node> {
    if n in ps then ps else ps + [n]
  }

  /** Which leaves are printed as parameters rather than as columns. */
  predicate IsRemoteParam(relids: set<nat>, subquery: Node -> Option<(nat, nat)>, n: Node) {
    n.Param? || (n.Var? && subquery(n).None? && !(n.varno in relids && n.levelsup == 0))
  }

  /** The token t stands for the leaf n, given the final list ps: a number denotes its entry, a column is named. */
  predicate StandsFor(relids: set<nat>, subquery: Node -> Option<(nat, nat)>, recording: bool,
                      ps: seq<Node>, n: Node, t: Token)
  {
    && (n.Var? || n.Param?)
    && if n.Var? && subquery(n).Some? then t == SubqueryColumn(subquery(n).value.0, subquery(n).value.1)
       else if n.Var? && n.varno in relids && n.levelsup == 0 then t == ColumnRef(n.varno, n.attno)
       else if !recording then t == Placeholder(n.typ, n.typmod)
       else t.RemoteParam? && t.typ == n.typ && t.typmod == n.typmod && 1 <= t.index <= |ps| && ps[t.index - 1] == n
  }

  /** The list after the leaves ns have been deparsed in this order. */
  function ListedAll(relids: set<nat>, subquery: Node -> Option<(nat, nat)>, ps: seq<Node>, ns: seq<Node>): seq<Node> {
    if ns == [] then ps
    else
      var ps' := ListedAll(relids, subquery, ps, ns[..|ns| - 1]);
      var n := ns[|ns| - 1];
      if IsRemoteParam(relids, subquery, n) then Listed(ps', n) else ps'
  }

  lemma {:induction false} ListedAllConcat(relids: set<nat>, subquery: Node -> Option<(nat, nat)>, ps: seq<Node>,
                                           a: seq<Node>, b: seq<Node>)
    ensures ListedAll(relids, subquery, ps, a + b) == ListedAll(relids, subquery, ListedAll(relids, subquery, ps, a), b)
  {
    hide IsRemoteParam;
    if b == [] {
      assert a + b == a;
    } else {
      assert (a + b)[..|a + b| - 1] == a + b[..|b| - 1];
      ListedAllConcat(relids, subquery, ps, a, b[..|b| - 1]);
    }
  }

  // ---------------------------------------------------------------- the order of printing

  /** Subscripts: each upper bound after its lower bound, as long as there are lower bounds. */
  function Interleave(lower: seq<Node>, upper: seq<Node>): (r: seq<Node>)
    ensures forall n | n in r :: n in lower || n in upper
  {
    if upper == [] then []
    else if lower == [] then upper
    else [lower[0], upper[0]] + Interleave(lower[1..], upper[1..])
  }

  function Elements(n: Node): (r: seq<Node>)
    ensures forall m | m in r :: m < n
  {
    if n.List? then n.args else []
  }

  /** The subexpressions of a node that are printed, in order: of a cast only the first argument, of an aggregate
      none. */
  function PrintOrder(n: Node): (r: seq<Node>)
    ensures forall m | m in r :: m < n
  {
    match n
    case ArrayRef(_, upper, lower, expr, _, _) => [expr] + Interleave(Elements(lower), Elements(upper))
    case FuncExpr(_, args, _, _, _, cast) => if cast && args != [] then [args[0]] else args
    case OpExpr(_, args, _, _, _) => args
    case ScalarArrayOpExpr(_, args, _, _) => args
    case RelabelType(arg, _, _) => [arg]
    case BoolExpr(args, _) => args
    case NullTest(arg, _) => [arg]
    case ArrayExpr(args, _, _) => args
    case _ => []
  }

  /** The deparser knows every node it comes to. */
  predicate Printable(n: Node) {
    !n.List? && !n.OtherNode? && forall m | m in PrintOrder(n) :: Printable(m)
  }

  function Concat(ss: seq<seq<Node>>): seq<Node> {
    if ss == [] then [] else Concat(ss[..|ss| - 1]) + ss[|ss| - 1]
  }

  /** Columns and parameters in the order they are printed. */
  function Leaves(n: Node): seq<Node> {
    if n.Var? || n.Param? then [n]
    else
      var ps := PrintOrder(n);
      Concat(seq(|ps|, i requires 0 <= i < |ps| => assert ps[i] in ps; Leaves(ps[i])))
  }

  function AllLeaves(ns: seq<Node>): seq<Node> {
    if ns == [] then [] else AllLeaves(ns[..|ns| - 1]) + Leaves(ns[|ns| - 1])
  }

  lemma {:induction false} LeavesOfParts(ps: seq<Node>)
    ensures Concat(seq(|ps|, i requires 0 <= i < |ps| => Leaves(ps[i]))) == AllLeaves(ps)
  {
    hide Leaves;
    var ls := seq(|ps|, i requires 0 <= i < |ps| => Leaves(ps[i]));
    if ps != [] {
      var init := ps[..|ps| - 1];
      assert ls[..|ls| - 1] == seq(|init|, i requires 0 <= i < |init| => Leaves(init[i]));
      LeavesOfParts(init);
    }
  }

  lemma LeavesByParts(n: Node)
    requires !n.Var? && !n.Param?
    ensures Leaves(n) == AllLeaves(PrintOrder(n))
  {
    LeavesOfParts(PrintOrder(n));
  }

  // ---------------------------------------------------------------- what is printed, by the fields of a node

  lemma OneExpression(n: Node)
    ensures AllLeaves([n]) == Leaves(n)
  {
    hide Leaves;
    assert [n][..0] == [];
  }

  /** Calls, operators, boolean expressions and arrays print all their arguments in order, casts only the first;
      relabelings and null tests print theirs. */
  lemma LeavesByFields(n: Node)
    ensures n.OpExpr? || n.ScalarArrayOpExpr? || n.BoolExpr? || n.ArrayExpr? || (n.FuncExpr? && !n.cast) ==>
              Leaves(n) == AllLeaves(n.args)
    ensures n.FuncExpr? && n.cast && n.args != [] ==> Leaves(n) == Leaves(n.args[0])
    ensures n.RelabelType? || n.NullTest? ==> Leaves(n) == Leaves(n.arg)
    ensures n.Var? || n.Param? ==> Leaves(n) == [n]
    ensures n.Null? || n.Const? || n.Aggref? ==> Leaves(n) == []
  {
    if !n.Var? && !n.Param? {
      LeavesByParts(n);
      hide Leaves;
      if n.RelabelType? || n.NullTest? {
        OneExpression(n.arg);
      } else if n.FuncExpr? && n.cast && n.args != [] {
        OneExpression(n.args[0]);
      }
    }
  }

  lemma {:induction false} AllLeavesConcat(a: seq<Node>, b: seq<Node>)
    ensures AllLeaves(a + b) == AllLeaves(a) + AllLeaves(b)
  {
    hide Leaves;
    if b == [] {
      assert a + b == a;
    } else {
      assert (a + b)[..|a + b| - 1] == a + b[..|b| - 1];
      AllLeavesConcat(a, b[..|b| - 1]);
    }
  }

  /** Subscript k of an array reference: its lower bound, if there is one, and its upper bound. */
  function Subscript(lower: seq<Node>, upper: seq<Node>, k: nat): seq<Node>
    requires k < |upper|
  {
    (if k < |lower| then Leaves(lower[k]) else []) + Leaves(upper[k])
  }

  /** The subscripts from k on. */
  function Subscripts(lower: seq<Node>, upper: seq<Node>, k: nat): seq<Node>
    decreases |upper| - k
  {
    if k >= |upper| then [] else Subscript(lower, upper, k) + Subscripts(lower, upper, k + 1)
  }

  lemma {:induction false} InterleavedLeaves(lower: seq<Node>, upper: seq<Node>, k: nat)
    requires k <= |upper|
    ensures AllLeaves(Interleave(if k <= |lower| then lower[k..] else [], upper[k..])) == Subscripts(lower, upper, k)
    decreases |upper| - k
  {
    hide Leaves, AllLeaves, Interleave;
    if k < |upper| {
      InterleavedLeaves(lower, upper, k + 1);
      assert upper[k..][0] == upper[k] && upper[k..][1..] == upper[k + 1..];
      if k < |lower| {
        assert lower[k..][0] == lower[k] && lower[k..][1..] == lower[k + 1..];
        PairInFront(lower[k..], upper[k..]);
      } else {
        assert k == |lower| ==> lower[k..] == [];
        NoLowerLeft(upper[k..]);
        NoLowerLeft(upper[k + 1..]);
        assert upper[k..] == [upper[k]] + upper[k + 1..];
        AllLeavesConcat([upper[k]], upper[k + 1..]);
        OneExpression(upper[k]);
      }
    } else {
      assert upper[k..] == [];
      NothingInterleaved(if k <= |lower| then lower[k..] else []);
    }
  }

  lemma PairInFront(lower: seq<Node>, upper: seq<Node>)
    requires lower != [] && upper != []
    ensures AllLeaves(Interleave(lower, upper))
            == Leaves(lower[0]) + Leaves(upper[0]) + AllLeaves(Interleave(lower[1..], upper[1..]))
  {
    hide Leaves, AllLeaves;
    AllLeavesConcat([lower[0], upper[0]], Interleave(lower[1..], upper[1..]));
    assert [lower[0], upper[0]] == [lower[0]] + [upper[0]];
    AllLeavesConcat([lower[0]], [upper[0]]);
    OneExpression(lower[0]);
    OneExpression(upper[0]);
  }

  lemma NoLowerLeft(upper: seq<Node>)
    ensures Interleave([], upper) == upper
  {
  }

  lemma NothingInterleaved(lower: seq<Node>)
    ensures AllLeaves(Interleave(lower, [])) == []
  {
  }

  /** An array reference prints the array and then each lower bound before its upper bound. */
  lemma LeavesOfArrayRef(n: Node, lower: seq<Node>, upper: seq<Node>)
    requires n.ArrayRef? && n.upper == List(upper) && (n.lower == List(lower) || (n.lower == Null && lower == []))
    ensures Leaves(n) == Leaves(n.expr) + Subscripts(lower, upper, 0)
  {
    LeavesByParts(n);
    hide Leaves;
    assert upper[0..] == upper && lower[0..] == lower;
    InterleavedLeaves(lower, upper, 0);
    AllLeavesConcat([n.expr], Interleave(lower, upper));
    OneExpression(n.expr);
  }

  class Deparser {
    const relids: set<nat>
    const subquery: Node -> Option<(nat, nat)>
    /** Whether the query is generated for real, with a parameter list to fill. */
    const recording: bool
    var params: seq<Node>
    var buf: seq<Token>
    /** The leaf behind each token. */
    ghost var leaves: seq<Node>

    constructor (relids: set<nat>, subquery: Node -> Option<(nat, nat)>, recording: bool, params: seq<Node>)
      requires Distinct(params)
      ensures this.relids == relids && this.subquery == subquery && this.recording == recording
      ensures this.params == params && buf == [] && Valid()
    {
      this.relids, this.subquery, this.recording, this.params := relids, subquery, recording, params;
      buf, leaves := [], [];
    }

    /** No node is listed twice, and every token printed so far stands for its leaf. */
    ghost predicate Valid()
      reads this
    {
      && Distinct(params)
      && |leaves| == |buf|
      && forall i | 0 <= i < |buf| :: StandsFor(relids, subquery, recording, params, leaves[i], buf[i])
    }

    /** Appends a token for a leaf. */
    method Print(n: Node, t: Token)
      requires Valid() && StandsFor(relids, subquery, recording, params, n, t)
      modifies this`buf, this`leaves
      ensures Valid() && leaves == old(leaves) + [n] && buf == old(buf) + [t]
    {
      leaves := leaves + [n];
      buf := buf + [t];
    }

    /** Finds a node in the list, or adds it, and prints its number. */
    method PrintParam(n: Node)
      requires Valid() && IsRemoteParam(relids, subquery, n)
      modifies this
      ensures Valid() && leaves == old(leaves) + [n] && |buf| == |old(buf)| + 1 && old(buf) <= buf
      ensures params == if recording then Listed(old(params), n) else old(params)
      ensures recording ==> NumberOf(old(params), n, buf[|buf| - 1].index)
    {
      if !recording {
        Print(n, Placeholder(n.typ, n.typmod));
        return;
      }
      var pindex, found := 0, false;
      while pindex < |params| && !found
        invariant pindex <= |params|
        invariant if found then pindex > 0 && params[pindex - 1] == n else n !in params[..pindex]
        decreases |params| - pindex, !found
      {
        found := params[pindex] == n;
        pindex := pindex + 1;
      }
      if !found {
        assert params[..pindex] == params;
        pindex := pindex + 1;
        params := params + [n];
      }
      Print(n, RemoteParam(pindex, n.typ, n.typmod));
    }

    method DeparseVar(n: Node)
      requires Valid() && n.Var?
      modifies this
      ensures Valid() && leaves == old(leaves) + [n] && |buf| == |old(buf)| + 1 && old(buf) <= buf
      ensures params == if recording && IsRemoteParam(relids, subquery, n) then Listed(old(params), n) else old(params)
    {
      var sub := subquery(n);
      if sub.Some? {
        Print(n, SubqueryColumn(sub.value.0, sub.value.1));
      } else if n.varno in relids && n.levelsup == 0 {
        Print(n, ColumnRef(n.varno, n.attno));
      } else {
        PrintParam(n);
      }
    }

    method DeparseParam(n: Node)
      requires Valid() && n.Param?
      modifies this
      ensures Valid() && leaves == old(leaves) + [n] && |buf| == |old(buf)| + 1 && old(buf) <= buf
      ensures params == if recording then Listed(old(params), n) else old(params)
    {
      PrintParam(n);
    }

    /** A run over the leaves ns is over: a token for each has been appended, and the list has grown by the new ones
        among them. */
    ghost predicate Ran(params0: seq<Node>, buf0: seq<Token>, leaves0: seq<Node>, ns: seq<Node>)
      reads this
    {
      && leaves == leaves0 + ns && params0 <= params && buf0 <= buf
      && params == if recording then ListedAll(relids, subquery, params0, ns) else params0
    }

    lemma RanOn(params0: seq<Node>, buf0: seq<Token>, leaves0: seq<Node>, a: seq<Node>,
                params1: seq<Node>, buf1: seq<Token>, leaves1: seq<Node>, b: seq<Node>)
      requires leaves1 == leaves0 + a && params0 <= params1 && buf0 <= buf1
      requires params1 == if recording then ListedAll(relids, subquery, params0, a) else params0
      requires Ran(params1, buf1, leaves1, b)
      ensures Ran(params0, buf0, leaves0, a + b)
    {
      ListedAllConcat(relids, subquery, params0, a, b);
    }

    /** Prints an expression: every column and parameter in it, from left to right. */
    method DeparseExpr(n: Node) returns (ok: bool)
      requires Valid()
      modifies this
      ensures Valid() && ok == Printable(n)
      ensures ok ==> Ran(old(params), old(buf), old(leaves), Leaves(n))
      decreases n, 1
    {
      if n.Var? {
        DeparseVar(n);
        ok := true;
        OneLeaf(old(params), n);
      } else if n.Param? {
        DeparseParam(n);
        ok := true;
        OneLeaf(old(params), n);
      } else if n.List? || n.OtherNode? {
        ok := false;
      } else {
        ok := DeparseParts(PrintOrder(n), n);
        LeavesByParts(n);
      }
    }

    lemma OneLeaf(ps: seq<Node>, n: Node)
      ensures ListedAll(relids, subquery, ps, [n]) == if IsRemoteParam(relids, subquery, n) then Listed(ps, n) else ps
    {
      assert [n][..0] == [];
    }

    /** Prints the parts of a node. */
    method DeparseParts(ns: seq<Node>, ghost whole: Node) returns (ok: bool)
      requires Valid() && forall n | n in ns :: n < whole
      modifies this
      ensures Valid() && (ok <==> forall n | n in ns :: Printable(n))
      ensures ok ==> Ran(old(params), old(buf), old(leaves), AllLeaves(ns))
      decreases whole, 0
    {
      hide ListedAll, Leaves, Printable;
      NoLeaves(params);
      for i := 0 to |ns|
        invariant Valid() && forall n | n in ns[..i] :: Printable(n)
        invariant Ran(old(params), old(buf), old(leaves), AllLeaves(ns[..i]))
      {
        ghost var params1, buf1, leaves1 := params, buf, leaves;
        assert ns[i] in ns;
        ok := DeparseExpr(ns[i]);
        if !ok {
          return;
        }
        assert ns[..i + 1][..i] == ns[..i] && ns[..i + 1] == ns[..i] + [ns[i]];
        RanOn(old(params), old(buf), old(leaves), AllLeaves(ns[..i]), params1, buf1, leaves1, Leaves(ns[i]));
      }
      assert ns[..|ns|] == ns;
      ok := true;
    }

    lemma NoLeaves(ps: seq<Node>)
      ensures ListedAll(relids, subquery, ps, []) == ps && AllLeaves([]) == []
    {
    }

    /** Prints expressions one after the other, numbering their parameters together: the list grows by appending and
        stays free of duplicates, and at the end every token, early or late, stands for its leaf. */
    method DeparseAll(ns: seq<Node>) returns (ok: bool)
      requires Valid()
      modifies this
      ensures Valid() && (ok <==> forall n | n in ns :: Printable(n))
      ensures ok ==> Ran(old(params), old(buf), old(leaves), AllLeaves(ns))
    {
      ok := DeparseParts(ns, List(ns));
    }
  }

  /** Over a duplicate-free list, two printed numbers are equal exactly when they were printed for the same node. */
  lemma NumbersIdentify(relids: set<nat>, subquery: Node -> Option<(nat, nat)>, ps: seq<Node>,
                        n1: Node, t1: Token, n2: Node, t2: Token)
    requires Distinct(ps) && IsRemoteParam(relids, subquery, n1) && IsRemoteParam(relids, subquery, n2)
    requires StandsFor(relids, subquery, true, ps, n1, t1) && StandsFor(relids, subquery, true, ps, n2, t2)
    ensures t1.index == t2.index <==> n1 == n2
  {
    if t1.index < t2.index {
      assert ps[t1.index - 1] != ps[t2.index - 1];
    } else if t2.index < t1.index {
      assert ps[t2.index - 1] != ps[t1.index - 1];
    }
  }

  /** The final list holds the starting entries followed by each other remote leaf exactly once. */
  lemma {:induction false} ListedAllContents(relids: set<nat>, subquery: Node -> Option<(nat, nat)>,
                                             ps: seq<Node>, ns: seq<Node>)
    requires Distinct(ps)
    ensures var r := ListedAll(relids, subquery, ps, ns);
            && ps <= r && Distinct(r)
            && forall n: Node :: n in r <==>
                 || n in ps
                 || (n in ns && n.Param?)
                 || (n in ns && n.Var? && subquery(n).None? && !(n.varno in relids && n.levelsup == 0))
  {
    if ns != [] {
      var rest, last := ns[..|ns| - 1], ns[|ns| - 1];
      ListedAllContents(relids, subquery, ps, rest);
      assert ns == rest + [last];
      assert forall n: Node :: n in ns <==> n in rest || n == last;
    }
  }

  // ---------------------------------------------------------------- what was shipped can be printed

  /** Lists of nodes stand only where subscripts do. */
  predicate ListsInPlace(n: Node) {
    !n.List? && forall m | m in PrintOrder(n) :: ListsInPlace(m)
  }

  lemma ChildIsAcceptable(g: Glob, n: Node, m: Node)
    requires Acceptable(g, n) && m in Children(n)
    ensures Acceptable(g, m)
  {
  }

  lemma PartsAreAcceptable(g: Glob, n: Node, m: Node)
    requires Acceptable(g, n) && m in PrintOrder(n)
    ensures Acceptable(g, m)
  {
    hide Acceptable;
    if n.ArrayRef? && m in Elements(n.lower) {
      ChildIsAcceptable(g, n, n.lower);
      ChildIsAcceptable(g, n.lower, m);
    } else if n.ArrayRef? && m in Elements(n.upper) {
      ChildIsAcceptable(g, n, n.upper);
      ChildIsAcceptable(g, n.upper, m);
    } else {
      ChildIsAcceptable(g, n, m);
    }
  }

  lemma {:induction false} AcceptableIsPrintable(g: Glob, n: Node)
    requires Acceptable(g, n) && ListsInPlace(n)
    ensures Printable(n)
    ensures forall l | l in Leaves(n) :: Acceptable(g, l) && (l.Var? || l.Param?)
  {
    hide Evaluable, Settles, Acceptable;
    forall m | m in PrintOrder(n)
      ensures Printable(m) && forall l | l in Leaves(m) :: Acceptable(g, l) && (l.Var? || l.Param?)
    {
      PartsAreAcceptable(g, n, m);
      AcceptableIsPrintable(g, m);
    }
    if !n.Var? && !n.Param? {
      LeavesByParts(n);
      forall l | l in AllLeaves(PrintOrder(n))
        ensures Acceptable(g, l) && (l.Var? || l.Param?)
      {
        var m := LeafBelongs(PrintOrder(n), l);
      }
    }
    assert !n.OtherNode? by {
      KnownNode(g, n);
    }
  }

  lemma KnownNode(g: Glob, n: Node)
    requires Acceptable(g, n)
    ensures !n.OtherNode? && (n.Param? ==> n.external)
  {
  }

  lemma {:induction false} LeafBelongs(ns: seq<Node>, l: Node) returns (m: Node)
    requires l in AllLeaves(ns)
    ensures m in ns && l in Leaves(m)
  {
    if l in Leaves(ns[|ns| - 1]) {
      m := ns[|ns| - 1];
    } else {
      m := LeafBelongs(ns[..|ns| - 1], l);
    }
  }

  /** Whatever the walker ships, the deparser can print, and all its parameters are external ones. */
  lemma ShippedIsPrintable(g: Glob, n: Node, mutableFunctions: bool)
    requires IsForeignExpr(g, n, mutableFunctions) && ListsInPlace(n)
    ensures Printable(n)
    ensures forall l | l in Leaves(n) && l.Param? :: l.external
  {
    hide Acceptable, IsForeignExpr;
    ShippedIff(g, n, mutableFunctions);
    AcceptableIsPrintable(g, n);
    forall l | l in Leaves(n) && l.Param?
      ensures l.external
    {
      KnownNode(g, l);
    }
  }

  // ---------------------------------------------------------------- nothing is forgotten

  /** m is a part of n that shows in the text: no argument of an aggregate, none beyond the first of a cast, and no
      lower bound without an upper one. */
  ghost predicate ShownPart(n: Node, m: Node): (r: bool)
    ensures r ==> m < n
  {
    match n
    case Aggref(_, _, _, _, _, _) => false
    case FuncExpr(_, args, _, _, _, true) => args != [] && m == args[0]
    case ArrayRef(_, upper, lower, expr, _, _) =>
      || m == expr
      || (upper.List? && m in upper.args)
      || (upper.List? && lower.List? && exists i | 0 <= i < |lower.args| && i < |upper.args| :: lower.args[i] == m)
    case _ => m in Children(n)
  }

  /** v is n, or shows in a part of n that shows. */
  ghost predicate Shows(n: Node, v: Node) {
    n == v || exists m: Node | ShownPart(n, m) :: Shows(m, v)
  }

  lemma {:induction false} InterleaveHas(lower: seq<Node>, upper: seq<Node>, m: Node)
    ensures m in Interleave(lower, upper) <==>
            m in upper || exists i | 0 <= i < |lower| && i < |upper| :: lower[i] == m
  {
    if upper != [] && lower != [] {
      InterleaveHas(lower[1..], upper[1..], m);
      if i :| 0 <= i < |lower| && i < |upper| && lower[i] == m {
        assert i > 0 ==> lower[1..][i - 1] == m;
      }
      if i :| 0 <= i < |lower| - 1 && i < |upper| - 1 && lower[1..][i] == m {
        assert lower[i + 1] == m;
      }
    }
  }

  lemma ShownPartsArePrinted(n: Node, m: Node)
    requires !n.List? && !n.OtherNode?
    ensures ShownPart(n, m) <==> m in PrintOrder(n)
  {
    if n.ArrayRef? {
      InterleaveHas(Elements(n.lower), Elements(n.upper), m);
    }
  }

  /** An expression can be printed exactly when no bare list and no unknown node shows in it. */
  lemma {:induction false} PrintableIff(n: Node)
    ensures Printable(n) <==> forall m: Node | Shows(n, m) :: !m.List? && !m.OtherNode?
  {
    hide ShownPart, PrintOrder;
    assert Shows(n, n);
    if !n.List? && !n.OtherNode? {
      forall m: Node
        ensures ShownPart(n, m) <==> m in PrintOrder(n)
      {
        ShownPartsArePrinted(n, m);
      }
      forall m | m in PrintOrder(n)
        ensures Printable(m) <==> forall k: Node | Shows(m, k) :: !k.List? && !k.OtherNode?
      {
        PrintableIff(m);
      }
      if !Printable(n) {
        var m :| m in PrintOrder(n) && !Printable(m);
        var k: Node :| Shows(m, k) && (k.List? || k.OtherNode?);
        assert Shows(n, k);
      }
    }
  }

  lemma {:induction false} AllLeavesHas(ns: seq<Node>, m: Node, v: Node)
    requires m in ns && v in Leaves(m)
    ensures v in AllLeaves(ns)
  {
    if m != ns[|ns| - 1] {
      assert m in ns[..|ns| - 1];
      AllLeavesHas(ns[..|ns| - 1], m, v);
    }
  }

  /** The columns and parameters printed for an expression are exactly those that show in it. */
  lemma {:induction false} LeavesAreShown(n: Node, v: Node)
    requires Printable(n) && (v.Var? || v.Param?)
    ensures v in Leaves(n) <==> Shows(n, v)
  {
    if !n.Var? && !n.Param? {
      LeavesByParts(n);
      hide Leaves, PrintOrder, ShownPart;
      if v in AllLeaves(PrintOrder(n)) {
        var m := LeafBelongs(PrintOrder(n), v);
        ShownPartsArePrinted(n, m);
        LeavesAreShown(m, v);
      }
      if m: Node :| ShownPart(n, m) && Shows(m, v) {
        ShownPartsArePrinted(n, m);
        LeavesAreShown(m, v);
        AllLeavesHas(PrintOrder(n), m, v);
      }
    } else {
      LeavesByFields(n);
    }
  }
}
