/** The weighted edit distance that contrib/fuzzystrmatch computes, as a mathematical object:
    the notional matrix, its order properties, and the theorem that its last cell is the least
    total cost of any sequence of single-character edits. */
module EditDistance {
  import opened Integers
  import opened Wrappers

  datatype Costs = Costs(ins: nat, del: nat, sub: nat)

  /** Cost of lining up the characters a and b. */
  function SubCost<T(==)>(c: Costs, a: T, b: T): nat {
    if a == b then 0 else c.sub
  }

  /** Cell (i, j) of the notional matrix: turning the first i characters of s into the first j of t. */
  function Cell<T(==)>(c: Costs, s: seq<T>, t: seq<T>, i: nat, j: nat): nat
    requires i <= |s| && j <= |t|
    decreases i + j
  {
    if i == 0 && j == 0 then 0
    else if i == 0 then Cell(c, s, t, 0, j - 1) + c.ins
    else if j == 0 then Cell(c, s, t, i - 1, 0) + c.del
    else
      Min(Min(Cell(c, s, t, i, j - 1) + c.ins, Cell(c, s, t, i - 1, j) + c.del),
          Cell(c, s, t, i - 1, j - 1) + SubCost(c, s[i - 1], t[j - 1]))
  }

  function Distance<T(==)>(c: Costs, s: seq<T>, t: seq<T>): nat {
    Cell(c, s, t, |s|, |t|)
  }

  // ---------------------------------------------------------------- edges of the matrix

  /** How the optimum of a cell was reached. */
  datatype Last = Start | Inserted | Deleted | Paired

  ghost function LastStep<T>(c: Costs, s: seq<T>, t: seq<T>, i: nat, j: nat): (r: Last)
    requires i <= |s| && j <= |t|
    ensures r.Start? ==> i == 0 && j == 0 && Cell(c, s, t, 0, 0) == 0
    ensures r.Inserted? ==> j > 0 && Cell(c, s, t, i, j) == Cell(c, s, t, i, j - 1) + c.ins
    ensures r.Deleted? ==> i > 0 && Cell(c, s, t, i, j) == Cell(c, s, t, i - 1, j) + c.del
    ensures r.Paired? ==>
              i > 0 && j > 0
              && Cell(c, s, t, i, j) == Cell(c, s, t, i - 1, j - 1) + SubCost(c, s[i - 1], t[j - 1])
  {
    if i == 0 && j == 0 then Start
    else if j > 0 && Cell(c, s, t, i, j) == Cell(c, s, t, i, j - 1) + c.ins then Inserted
    else if i > 0 && Cell(c, s, t, i, j) == Cell(c, s, t, i - 1, j) + c.del then Deleted
    else Paired
  }

  lemma Origin<T>(c: Costs, s: seq<T>, t: seq<T>)
    ensures Cell(c, s, t, 0, 0) == 0
  {
  }

  lemma InsertEdge<T>(c: Costs, s: seq<T>, t: seq<T>, i: nat, j: nat)
    requires i <= |s| && 0 < j <= |t|
    ensures Cell(c, s, t, i, j) <= Cell(c, s, t, i, j - 1) + c.ins
  {
  }

  lemma DeleteEdge<T>(c: Costs, s: seq<T>, t: seq<T>, i: nat, j: nat)
    requires 0 < i <= |s| && j <= |t|
    ensures Cell(c, s, t, i, j) <= Cell(c, s, t, i - 1, j) + c.del
  {
  }

  lemma PairEdge<T>(c: Costs, s: seq<T>, t: seq<T>, i: nat, j: nat)
    requires 0 < i <= |s| && 0 < j <= |t|
    ensures Cell(c, s, t, i, j) <= Cell(c, s, t, i - 1, j - 1) + SubCost(c, s[i - 1], t[j - 1])
  {
  }

  function Swapped(c: Costs): Costs {
    Costs(c.del, c.ins, c.sub)
  }

  lemma {:induction false} SwappedNoDearer<T>(c: Costs, s: seq<T>, t: seq<T>, i: nat, j: nat)
    requires i <= |s| && j <= |t|
    ensures Cell(Swapped(c), t, s, j, i) <= Cell(c, s, t, i, j)
    decreases i + j
  {
    hide Cell, LastStep;
    match LastStep(c, s, t, i, j)
    case Start => Origin(Swapped(c), t, s);
    case Inserted =>
      SwappedNoDearer(c, s, t, i, j - 1);
      DeleteEdge(Swapped(c), t, s, j, i);
    case Deleted =>
      SwappedNoDearer(c, s, t, i - 1, j);
      InsertEdge(Swapped(c), t, s, j, i);
    case Paired =>
      SwappedNoDearer(c, s, t, i - 1, j - 1);
      PairEdge(Swapped(c), t, s, j, i);
  }

  /** Swapping the strings while swapping insertion and deletion leaves every cell unchanged. */
  lemma {:induction false} CellSymmetric<T>(c: Costs, s: seq<T>, t: seq<T>, i: nat, j: nat)
    requires i <= |s| && j <= |t|
    ensures Cell(c, s, t, i, j) == Cell(Swapped(c), t, s, j, i)
  {
    SwappedNoDearer(c, s, t, i, j);
    SwappedNoDearer(Swapped(c), t, s, j, i);
  }

  /** Dropping the last character of s never costs more than one insertion. */
  lemma {:induction false} SourceLipschitz<T>(c: Costs, s: seq<T>, t: seq<T>, i: nat, j: nat)
    requires i < |s| && j <= |t|
    ensures Cell(c, s, t, i, j) <= Cell(c, s, t, i + 1, j) + c.ins
    decreases j
  {
    if j > 0 {
      SourceLipschitz(c, s, t, i, j - 1);
      InsertEdge(c, s, t, i, j);
    }
  }

  /** Dropping the last character of t never costs more than one deletion. */
  lemma TargetLipschitz<T>(c: Costs, s: seq<T>, t: seq<T>, i: nat, j: nat)
    requires i <= |s| && j < |t|
    ensures Cell(c, s, t, i, j) <= Cell(c, s, t, i, j + 1) + c.del
  {
    CellSymmetric(c, s, t, i, j);
    CellSymmetric(c, s, t, i, j + 1);
    SourceLipschitz(Swapped(c), t, s, j, i);
  }

  /** Values never decrease down a diagonal. */
  lemma DiagonalMonotone<T>(c: Costs, s: seq<T>, t: seq<T>, i: nat, j: nat)
    requires i < |s| && j < |t|
    ensures Cell(c, s, t, i, j) <= Cell(c, s, t, i + 1, j + 1)
  {
    SourceLipschitz(c, s, t, i, j);
    TargetLipschitz(c, s, t, i, j);
  }

  // ---------------------------------------------------------------- theoretical bounds

  /** Least cost of making a prefix of length i as long as one of length j. */
  function LengthCost(c: Costs, i: nat, j: nat): nat {
    if i < j then (j - i) * c.ins else (i - j) * c.del
  }

  lemma LengthCostStep(c: Costs, i: nat, j: nat)
    ensures LengthCost(c, i, j + 1) <= LengthCost(c, i, j) + c.ins
    ensures LengthCost(c, i + 1, j) <= LengthCost(c, i, j) + c.del
    ensures LengthCost(c, i + 1, j + 1) == LengthCost(c, i, j)
  {
    if i <= j {
      assert (j + 1 - i) * c.ins == (j - i) * c.ins + c.ins;
    } else {
      assert (i - j) * c.del == (i - (j + 1)) * c.del + c.del;
    }
    if j <= i {
      assert (i + 1 - j) * c.del == (i - j) * c.del + c.del;
    } else {
      assert (j - i) * c.ins == (j - (i + 1)) * c.ins + c.ins;
    }
  }

  /** The theoretical minimum: no cell is below the cost of adjusting the length. */
  lemma {:induction false} CellAtLeastLengthCost<T>(c: Costs, s: seq<T>, t: seq<T>, i: nat, j: nat)
    requires i <= |s| && j <= |t|
    ensures LengthCost(c, i, j) <= Cell(c, s, t, i, j)
    decreases i + j
  {
    hide Cell, LastStep;
    match LastStep(c, s, t, i, j)
    case Start =>
    case Inserted =>
      CellAtLeastLengthCost(c, s, t, i, j - 1);
      LengthCostStep(c, i, j - 1);
    case Deleted =>
      CellAtLeastLengthCost(c, s, t, i - 1, j);
      LengthCostStep(c, i - 1, j);
    case Paired =>
      CellAtLeastLengthCost(c, s, t, i - 1, j - 1);
      LengthCostStep(c, i - 1, j - 1);
  }

  lemma {:induction false} CellOnBorder<T>(c: Costs, s: seq<T>, t: seq<T>, i: nat, j: nat)
    requires i <= |s| && j <= |t|
    requires i == 0 || j == 0
    ensures Cell(c, s, t, i, j) == LengthCost(c, i, j)
    decreases i + j
  {
    if j > 0 {
      CellOnBorder(c, s, t, 0, j - 1);
      assert j * c.ins == (j - 1) * c.ins + c.ins;
    } else if i > 0 {
      CellOnBorder(c, s, t, i - 1, 0);
      assert i * c.del == (i - 1) * c.del + c.del;
    }
  }

  function TheoreticalMax(c: Costs, i: nat, j: nat): nat {
    LengthCost(c, i, j) + c.sub * Min(i, j)
  }

  lemma TheoreticalMaxStep(c: Costs, i: nat, j: nat)
    ensures TheoreticalMax(c, i + 1, j + 1) == TheoreticalMax(c, i, j) + c.sub
    ensures LengthCost(c, i, j) <= TheoreticalMax(c, i, j)
  {
    LengthCostStep(c, i, j);
    assert c.sub * (Min(i, j) + 1) == c.sub * Min(i, j) + c.sub;
  }

  /** The theoretical maximum: adjust the length and substitute everything else. */
  lemma {:induction false} CellAtMostTheoreticalMax<T>(c: Costs, s: seq<T>, t: seq<T>, i: nat, j: nat)
    requires i <= |s| && j <= |t|
    ensures Cell(c, s, t, i, j) <= TheoreticalMax(c, i, j)
    decreases i + j
  {
    hide Cell, TheoreticalMax;
    TheoreticalMaxStep(c, i, j);
    if i == 0 || j == 0 {
      CellOnBorder(c, s, t, i, j);
    } else {
      CellAtMostTheoreticalMax(c, s, t, i - 1, j - 1);
      PairEdge(c, s, t, i, j);
      TheoreticalMaxStep(c, i - 1, j - 1);
    }
  }

  /** Costs with the substitution no dearer than a deletion and an insertion. */
  function Clamped(c: Costs): Costs {
    if c.ins + c.del < c.sub then c.(sub := c.ins + c.del) else c
  }

  lemma {:induction false} ClampedNoDearer<T>(c: Costs, s: seq<T>, t: seq<T>, i: nat, j: nat)
    requires i <= |s| && j <= |t|
    ensures Cell(Clamped(c), s, t, i, j) <= Cell(c, s, t, i, j)
    decreases i + j
  {
    hide Cell, LastStep;
    match LastStep(c, s, t, i, j)
    case Start => Origin(Clamped(c), s, t);
    case Inserted =>
      ClampedNoDearer(c, s, t, i, j - 1);
      InsertEdge(Clamped(c), s, t, i, j);
    case Deleted =>
      ClampedNoDearer(c, s, t, i - 1, j);
      DeleteEdge(Clamped(c), s, t, i, j);
    case Paired =>
      ClampedNoDearer(c, s, t, i - 1, j - 1);
      PairEdge(Clamped(c), s, t, i, j);
  }

  lemma {:induction false} ClampedNoCheaper<T>(c: Costs, s: seq<T>, t: seq<T>, i: nat, j: nat)
    requires i <= |s| && j <= |t|
    ensures Cell(c, s, t, i, j) <= Cell(Clamped(c), s, t, i, j)
    decreases i + j
  {
    hide Cell, LastStep;
    match LastStep(Clamped(c), s, t, i, j)
    case Start => Origin(c, s, t);
    case Inserted =>
      ClampedNoCheaper(c, s, t, i, j - 1);
      InsertEdge(c, s, t, i, j);
    case Deleted =>
      ClampedNoCheaper(c, s, t, i - 1, j);
      DeleteEdge(c, s, t, i, j);
    case Paired =>
      ClampedNoCheaper(c, s, t, i - 1, j - 1);
      PairEdge(c, s, t, i, j);
      InsertEdge(c, s, t, i - 1, j);
      DeleteEdge(c, s, t, i, j);
  }

  /** Clamping the substitution cost changes no cell. */
  lemma {:induction false} ClampingIsSafe<T>(c: Costs, s: seq<T>, t: seq<T>, i: nat, j: nat)
    requires i <= |s| && j <= |t|
    ensures Cell(Clamped(c), s, t, i, j) == Cell(c, s, t, i, j)
  {
    ClampedNoDearer(c, s, t, i, j);
    ClampedNoCheaper(c, s, t, i, j);
  }

  // ---------------------------------------------------------------- triangle inequality

  lemma {:induction false} CellTriangle<T>(c: Costs, s: seq<T>, t: seq<T>, u: seq<T>, i: nat, j: nat, k: nat)
    requires i <= |s| && j <= |t| && k <= |u|
    ensures Cell(c, s, u, i, k) <= Cell(c, s, t, i, j) + Cell(c, t, u, j, k)
    decreases i + j + k
  {
    hide Cell, LastStep;
    match (LastStep(c, s, t, i, j), LastStep(c, t, u, j, k))
    case (Deleted, _) =>
      CellTriangle(c, s, t, u, i - 1, j, k);
      DeleteEdge(c, s, u, i, k);
    case (_, Inserted) =>
      CellTriangle(c, s, t, u, i, j, k - 1);
      InsertEdge(c, s, u, i, k);
    case (Start, Start) => Origin(c, s, u);
    case (Inserted, Deleted) =>
      CellTriangle(c, s, t, u, i, j - 1, k);
    case (Inserted, Paired) =>
      CellTriangle(c, s, t, u, i, j - 1, k - 1);
      InsertEdge(c, s, u, i, k);
    case (Paired, Deleted) =>
      CellTriangle(c, s, t, u, i - 1, j - 1, k);
      DeleteEdge(c, s, u, i, k);
    case (Paired, Paired) =>
      CellTriangle(c, s, t, u, i - 1, j - 1, k - 1);
      PairEdge(c, s, u, i, k);
  }

  /** Going through a third string is never cheaper. */
  lemma DistanceTriangle<T>(c: Costs, s: seq<T>, t: seq<T>, u: seq<T>)
    ensures Distance(c, s, u) <= Distance(c, s, t) + Distance(c, t, u)
  {
    CellTriangle(c, s, t, u, |s|, |t|, |u|);
  }

  /** Swapping the strings while swapping insertion and deletion leaves the distance unchanged. */
  lemma DistanceSymmetric<T>(c: Costs, s: seq<T>, t: seq<T>)
    ensures Distance(c, s, t) == Distance(Swapped(c), t, s)
  {
    CellSymmetric(c, s, t, |s|, |t|);
  }

  // ---------------------------------------------------------------- edit scripts

  datatype Edit<T> = Insert(at: nat, ch: T) | Delete(at: nat) | Substitute(at: nat, ch: T)

  /** One edit at an arbitrary position of the current string. */
  function Apply<T>(e: Edit<T>, s: seq<T>): Option<seq<T>> {
    match e
    case Insert(p, ch) => if p <= |s| then Some(s[..p] + [ch] + s[p..]) else None
    case Delete(p) => if p < |s| then Some(s[..p] + s[p + 1..]) else None
    case Substitute(p, ch) => if p < |s| then Some(s[p := ch]) else None
  }

  function EditCost<T>(c: Costs, e: Edit<T>): nat {
    match e
    case Insert(_, _) => c.ins
    case Delete(_) => c.del
    case Substitute(_, _) => c.sub
  }

  /** Any number of edits, each acting on the string the previous ones left. */
  function Run<T>(es: seq<Edit<T>>, s: seq<T>): Option<seq<T>> {
    if es == [] then Some(s)
    else
      var s' := Apply(es[0], s);
      if s'.None? then None else Run(es[1..], s'.value)
  }

  function ScriptCost<T>(c: Costs, es: seq<Edit<T>>): nat {
    if es == [] then 0 else EditCost(c, es[0]) + ScriptCost(c, es[1..])
  }

  lemma {:induction false} RunAppend<T>(c: Costs, es: seq<Edit<T>>, e: Edit<T>, s: seq<T>)
    requires Run(es, s).Some?
    ensures Run(es + [e], s) == Apply(e, Run(es, s).value)
    ensures ScriptCost(c, es + [e]) == ScriptCost(c, es) + EditCost(c, e)
  {
    if es == [] {
      assert es + [e] == [e];
    } else {
      assert (es + [e])[1..] == es[1..] + [e];
      RunAppend(c, es[1..], e, Apply(es[0], s).value);
    }
  }

  /** Equal characters pair up for free. */
  lemma {:induction false} MatchingRun<T>(c: Costs, s: seq<T>, t: seq<T>, i: nat, j: nat, n: nat)
    requires i + n <= |s| && j + n <= |t|
    requires forall k | i <= k < i + n :: s[k] == t[j + k - i]
    ensures Cell(c, s, t, i + n, j + n) <= Cell(c, s, t, i, j)
    decreases n
  {
    hide Cell;
    if n > 0 {
      MatchingRun(c, s, t, i, j, n - 1);
      PairEdge(c, s, t, i + n, j + n);
    }
  }

  lemma InsertedOnce<T>(c: Costs, s: seq<T>, t: seq<T>, p: nat)
    requires p <= |s| && |t| == |s| + 1
    requires forall k | 0 <= k < p :: s[k] == t[k]
    requires forall k | p <= k < |s| :: s[k] == t[k + 1]
    ensures Distance(c, s, t) <= c.ins
  {
    hide Cell;
    Origin(c, s, t);
    MatchingRun(c, s, t, 0, 0, p);
    InsertEdge(c, s, t, p, p + 1);
    MatchingRun(c, s, t, p, p + 1, |s| - p);
  }

  lemma SubstitutedOnce<T>(c: Costs, s: seq<T>, t: seq<T>, p: nat)
    requires p < |s| && |t| == |s|
    requires forall k | 0 <= k < |s| && k != p :: s[k] == t[k]
    ensures Distance(c, s, t) <= c.sub
  {
    hide Cell;
    Origin(c, s, t);
    MatchingRun(c, s, t, 0, 0, p);
    PairEdge(c, s, t, p + 1, p + 1);
    MatchingRun(c, s, t, p + 1, p + 1, |s| - p - 1);
  }

  lemma OneEditBound<T>(c: Costs, e: Edit<T>, s: seq<T>)
    requires Apply(e, s).Some?
    ensures Distance(c, s, Apply(e, s).value) <= EditCost(c, e)
  {
    var t := Apply(e, s).value;
    match e
    case Insert(p, _) => InsertedOnce(c, s, t, p);
    case Delete(p) =>
      InsertedOnce(Swapped(c), t, s, p);
      DistanceSymmetric(c, s, t);
    case Substitute(p, _) => SubstitutedOnce(c, s, t, p);
  }

  /** No sequence of edits that turns s into t is cheaper than the distance. */
  lemma {:induction false} NoScriptIsCheaper<T>(c: Costs, es: seq<Edit<T>>, s: seq<T>, t: seq<T>)
    requires Run(es, s) == Some(t)
    ensures Distance(c, s, t) <= ScriptCost(c, es)
    decreases |es|
  {
    if es == [] {
      MatchingRun(c, s, t, 0, 0, |s|);
    } else {
      var s' := Apply(es[0], s).value;
      OneEditBound(c, es[0], s);
      NoScriptIsCheaper(c, es[1..], s', t);
      DistanceTriangle(c, s, s', t);
    }
  }

  /** es turns the prefix a into the prefix b at cost d, leaving whatever follows the prefix untouched. */
  ghost predicate Rewrites<T(!new)>(c: Costs, es: seq<Edit<T>>, a: seq<T>, b: seq<T>, d: nat) {
    ScriptCost(c, es) == d && forall rest: seq<T> :: Run(es, a + rest) == Some(b + rest)
  }

  lemma ExtendInsert<T(!new)>(c: Costs, es: seq<Edit<T>>, a: seq<T>, b: seq<T>, d: nat, ch: T)
    requires Rewrites(c, es, a, b, d)
    ensures Rewrites(c, es + [Insert(|b|, ch)], a, b + [ch], d + c.ins)
  {
    forall rest: seq<T>
      ensures Run(es + [Insert(|b|, ch)], a + rest) == Some(b + [ch] + rest)
    {
      RunAppend(c, es, Insert(|b|, ch), a + rest);
      assert (b + rest)[..|b|] == b && (b + rest)[|b|..] == rest;
    }
    RunAppend(c, es, Insert(|b|, ch), a + []);
  }

  lemma ExtendDelete<T(!new)>(c: Costs, es: seq<Edit<T>>, a: seq<T>, b: seq<T>, d: nat, ch: T)
    requires Rewrites(c, es, a, b, d)
    ensures Rewrites(c, es + [Delete(|b|)], a + [ch], b, d + c.del)
  {
    forall rest: seq<T>
      ensures Run(es + [Delete(|b|)], a + [ch] + rest) == Some(b + rest)
    {
      var all := b + ([ch] + rest);
      assert a + [ch] + rest == a + ([ch] + rest);
      RunAppend(c, es, Delete(|b|), a + ([ch] + rest));
      assert all[..|b|] == b && all[|b| + 1..] == rest;
    }
    RunAppend(c, es, Delete(|b|), a + []);
  }

  lemma ExtendKeep<T(!new)>(c: Costs, es: seq<Edit<T>>, a: seq<T>, b: seq<T>, d: nat, ch: T)
    requires Rewrites(c, es, a, b, d)
    ensures Rewrites(c, es, a + [ch], b + [ch], d)
  {
    forall rest: seq<T>
      ensures Run(es, a + [ch] + rest) == Some(b + [ch] + rest)
    {
      assert a + [ch] + rest == a + ([ch] + rest);
      assert b + [ch] + rest == b + ([ch] + rest);
    }
  }

  lemma ExtendSubstitute<T(!new)>(c: Costs, es: seq<Edit<T>>, a: seq<T>, b: seq<T>, d: nat, was: T, ch: T)
    requires Rewrites(c, es, a, b, d)
    ensures Rewrites(c, es + [Substitute(|b|, ch)], a + [was], b + [ch], d + c.sub)
  {
    forall rest: seq<T>
      ensures Run(es + [Substitute(|b|, ch)], a + [was] + rest) == Some(b + [ch] + rest)
    {
      assert a + [was] + rest == a + ([was] + rest);
      RunAppend(c, es, Substitute(|b|, ch), a + ([was] + rest));
      assert (b + ([was] + rest))[|b| := ch] == b + [ch] + rest;
    }
    RunAppend(c, es, Substitute(|b|, ch), a + []);
  }

  /** A script that attains cell (i, j). */
  lemma {:induction false} PrefixScript<T(!new)>(c: Costs, s: seq<T>, t: seq<T>, i: nat, j: nat)
    returns (es: seq<Edit<T>>)
    requires i <= |s| && j <= |t|
    ensures Rewrites(c, es, s[..i], t[..j], Cell(c, s, t, i, j))
    decreases i + j
  {
    hide Cell, LastStep;
    match LastStep(c, s, t, i, j)
    case Start => es := [];
    case Inserted =>
      es := PrefixScript(c, s, t, i, j - 1);
      ExtendInsert(c, es, s[..i], t[..j - 1], Cell(c, s, t, i, j - 1), t[j - 1]);
      es := es + [Insert(j - 1, t[j - 1])];
      assert t[..j - 1] + [t[j - 1]] == t[..j];
    case Deleted =>
      es := PrefixScript(c, s, t, i - 1, j);
      ExtendDelete(c, es, s[..i - 1], t[..j], Cell(c, s, t, i - 1, j), s[i - 1]);
      es := es + [Delete(j)];
      assert s[..i - 1] + [s[i - 1]] == s[..i];
    case Paired =>
      es := PrefixScript(c, s, t, i - 1, j - 1);
      var d := Cell(c, s, t, i - 1, j - 1);
      assert s[..i - 1] + [s[i - 1]] == s[..i];
      assert t[..j - 1] + [t[j - 1]] == t[..j];
      if s[i - 1] == t[j - 1] {
        ExtendKeep(c, es, s[..i - 1], t[..j - 1], d, s[i - 1]);
      } else {
        ExtendSubstitute(c, es, s[..i - 1], t[..j - 1], d, s[i - 1], t[j - 1]);
        es := es + [Substitute(j - 1, t[j - 1])];
      }
  }

  /** The distance is the minimum total cost over all edit scripts: one attains it, none is cheaper. */
  lemma DistanceIsMinimalScriptCost<T(!new)>(c: Costs, s: seq<T>, t: seq<T>)
    ensures exists es: seq<Edit<T>> :: Run(es, s) == Some(t) && ScriptCost(c, es) == Distance(c, s, t)
    ensures forall es: seq<Edit<T>> :: Run(es, s) == Some(t) ==> Distance(c, s, t) <= ScriptCost(c, es)
  {
    var es := PrefixScript(c, s, t, |s|, |t|);
    assert s[..|s|] + [] == s && t[..|t|] + [] == t;
    assert Run(es, s) == Some(t) && ScriptCost(c, es) == Distance(c, s, t);
    forall es: seq<Edit<T>> | Run(es, s) == Some(t)
      ensures Distance(c, s, t) <= ScriptCost(c, es)
    {
      NoScriptIsCheaper(c, es, s, t);
    }
  }

  /** Equal strings are at distance zero, and with positive costs no others are. */
  lemma DistanceZeroIff<T>(c: Costs, s: seq<T>, t: seq<T>)
    ensures Distance(c, s, s) == 0
    ensures c.ins > 0 && c.del > 0 && c.sub > 0 ==> (Distance(c, s, t) == 0 <==> s == t)
  {
    Origin(c, s, s);
    MatchingRun(c, s, s, 0, 0, |s|);
    if c.ins > 0 && c.del > 0 && c.sub > 0 && Distance(c, s, t) == 0 {
      ZeroCellMatches(c, s, t, |s|, |t|);
      assert s[..|s|] == s && t[..|t|] == t;
    }
  }

  lemma {:induction false} ZeroCellMatches<T>(c: Costs, s: seq<T>, t: seq<T>, i: nat, j: nat)
    requires c.ins > 0 && c.del > 0 && c.sub > 0 && i <= |s| && j <= |t|
    ensures Cell(c, s, t, i, j) == 0 ==> s[..i] == t[..j]
    decreases i + j
  {
    hide Cell, LastStep;
    match LastStep(c, s, t, i, j)
    case Start =>
    case Inserted =>
    case Deleted =>
    case Paired =>
      ZeroCellMatches(c, s, t, i - 1, j - 1);
      assert s[..i] == s[..i - 1] + [s[i - 1]] && t[..j] == t[..j - 1] + [t[j - 1]];
  }
}
