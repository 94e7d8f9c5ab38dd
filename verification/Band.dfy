/** Why the bounded build may skip cells: a cell can only matter while its value plus the least cost of
    the rest of the way (the residual) stays within the bound. */
module Band {
  import opened Integers
  import opened EditDistance

  /** One call of the bounded routine; a negative bound means "no bound". */
  datatype Problem<T> = Problem(c: Costs, s: seq<T>, t: seq<T>, maxD: int)

  /** Minimum residual distance from cell (i, j) to the last cell. */
  function Residual<T(==)>(p: Problem<T>, i: nat, j: nat): nat
    requires i <= |p.s| && j <= |p.t|
  {
    LengthCost(p.c, |p.s| - i, |p.t| - j)
  }

  ghost predicate Live<T>(p: Problem<T>, i: nat, j: nat)
    requires i <= |p.s| && j <= |p.t|
  {
    p.maxD < 0 || Cell(p.c, p.s, p.t, i, j) + Residual(p, i, j) <= p.maxD
  }

  /** What a stored value v must satisfy to stand for cell (i, j). */
  ghost predicate Stands<T>(p: Problem<T>, v: int, i: nat, j: nat)
    requires i <= |p.s| && j <= |p.t|
  {
    if Live(p, i, j) then v == Cell(p.c, p.s, p.t, i, j)
    else v + Residual(p, i, j) > p.maxD
  }

  /** No live cell of row j lies left of column start. */
  ghost predicate DeadLeft<T>(p: Problem<T>, start: nat, j: nat)
    requires start <= |p.s| + 1 && j <= |p.t|
  {
    forall k | 0 <= k < start :: !Live(p, k, j)
  }

  /** No live cell of row j lies at or right of column stop. */
  ghost predicate DeadRight<T>(p: Problem<T>, stop: nat, j: nat)
    requires j <= |p.t|
  {
    forall k | stop <= k <= |p.s| :: !Live(p, k, j)
  }

  lemma ResidualEdges<T>(p: Problem<T>, i: nat, j: nat)
    requires i <= |p.s| && j <= |p.t|
    ensures j > 0 ==> Residual(p, i, j - 1) <= Residual(p, i, j) + p.c.ins
    ensures i > 0 ==> Residual(p, i - 1, j) <= Residual(p, i, j) + p.c.del
    ensures i > 0 && j > 0 ==> Residual(p, i - 1, j - 1) == Residual(p, i, j)
  {
    LengthCostStep(p.c, |p.s| - i, |p.t| - j);
  }

  /** A stale sentinel stands for any cell that is not live. */
  lemma SentinelStands<T>(p: Problem<T>, i: nat, j: nat)
    requires i <= |p.s| && j <= |p.t|
    requires !Live(p, i, j)
    ensures Stands(p, p.maxD + 1, i, j)
  {
  }

  /** One step of the inner loop: standing values of the three neighbours give a standing value. */
  lemma StandsStep<T>(p: Problem<T>, i: nat, j: nat, above: int, left: int, diagonal: int)
    requires 0 < i <= |p.s| && 0 < j <= |p.t|
    requires Stands(p, above, i, j - 1)
    requires Stands(p, left, i - 1, j)
    requires Stands(p, diagonal, i - 1, j - 1)
    ensures Stands(p, Min(Min(above + p.c.ins, left + p.c.del),
                          diagonal + SubCost(p.c, p.s[i - 1], p.t[j - 1])), i, j)
  {
    hide Cell, LastStep, Residual;
    ResidualEdges(p, i, j);
    InsertEdge(p.c, p.s, p.t, i, j);
    DeleteEdge(p.c, p.s, p.t, i, j);
    PairEdge(p.c, p.s, p.t, i, j);
    var how := LastStep(p.c, p.s, p.t, i, j);
  }

  /** Column 0 has only one neighbour: a row of insertions. */
  lemma FirstColumn<T>(p: Problem<T>, j: nat)
    requires j <= |p.t|
    ensures Stands(p, j * p.c.ins, 0, j)
  {
    CellOnBorder(p.c, p.s, p.t, 0, j);
  }

  lemma FirstRow<T>(p: Problem<T>, i: nat)
    requires i <= |p.s|
    ensures Stands(p, i * p.c.del, i, 0)
  {
    CellOnBorder(p.c, p.s, p.t, i, 0);
  }

  lemma DeadDiagonal<T>(p: Problem<T>, i: nat, j: nat)
    requires i < |p.s| && j < |p.t|
    requires !Live(p, i, j)
    ensures !Live(p, i + 1, j + 1)
  {
    hide Cell, Residual;
    DiagonalMonotone(p.c, p.s, p.t, i, j);
    ResidualEdges(p, i + 1, j + 1);
  }

  lemma DeadFirstColumn<T>(p: Problem<T>, j: nat)
    requires j < |p.t|
    requires !Live(p, 0, j)
    ensures !Live(p, 0, j + 1)
  {
    ResidualEdges(p, 0, j + 1);
  }

  /** Left of the band nothing revives in the next row, even one column further right. */
  lemma DeadLeftDown<T>(p: Problem<T>, start: nat, j: nat)
    requires start <= |p.s| + 1 && j < |p.t|
    requires DeadLeft(p, start, j)
    ensures DeadLeft(p, start, j + 1)
  {
    hide Cell, Residual;
    forall k {:trigger Live(p, k, j + 1)} | 0 <= k < start
      ensures !Live(p, k, j + 1)
    {
      if k == 0 {
        DeadFirstColumn(p, j);
      } else {
        DeadDiagonal(p, k - 1, j);
      }
    }
  }

  /** Right of the band the border moves right by at most one column per row. */
  lemma DeadRightDown<T>(p: Problem<T>, stop: nat, j: nat)
    requires j < |p.t|
    requires DeadRight(p, stop, j)
    ensures DeadRight(p, stop + 1, j + 1)
  {
    hide Cell, Residual;
    forall k {:trigger Live(p, k, j + 1)} | stop + 1 <= k <= |p.s|
      ensures !Live(p, k, j + 1)
    {
      DeadDiagonal(p, k - 1, j);
    }
  }

  /** Once a whole row is dead, the distance exceeds the bound. */
  lemma {:induction false} DeadRow<T>(p: Problem<T>, j: nat)
    requires j <= |p.t|
    requires DeadLeft(p, |p.s| + 1, j)
    ensures Distance(p.c, p.s, p.t) > p.maxD
    decreases |p.t| - j
  {
    if j == |p.t| {
      assert !Live(p, |p.s|, j);
    } else {
      DeadLeftDown(p, |p.s| + 1, j);
      DeadRow(p, j + 1);
    }
  }

  /** A live right border never stops short of the zero point, the column of row j whose remaining source is
      as long as the remaining target. */
  lemma StopIsRightOfZeroPoint<T>(p: Problem<T>, stop: nat, j: nat)
    requires 0 < stop <= |p.s| + 1 && j <= |p.t|
    requires Live(p, stop - 1, j) && DeadRight(p, stop, j)
    ensures stop > j - (|p.t| - |p.s|)
  {
    if stop <= j - (|p.t| - |p.s|) {
      DeleteEdge(p.c, p.s, p.t, stop, j);
      var rest := |p.s| - stop - (|p.t| - j);
      assert (rest + 1) * p.c.del == rest * p.c.del + p.c.del;
      assert Live(p, stop, j);
    }
  }

  /** Row 0 is dead from the column where the slack over the theoretical minimum is used up. */
  lemma FirstStopColumn<T>(p: Problem<T>, best: nat, slack: nat, i: nat)
    requires i <= |p.s| && p.maxD >= 0
    requires p.c.ins + p.c.del > 0
    requires best == if |p.t| < |p.s| then |p.s| - |p.t| else 0
    requires slack == p.maxD - LengthCost(p.c, |p.s|, |p.t|)
    requires i >= best + slack / (p.c.ins + p.c.del) + 1
    ensures !Live(p, i, 0)
  {
    var both, extra := p.c.ins + p.c.del, i - best;
    CellOnBorder(p.c, p.s, p.t, i, 0);
    assert extra * both > slack by {
      ExceedsSlack(slack, both, extra);
    }
    FirstRowTotal(p, best, extra);
  }

  lemma ExceedsSlack(slack: nat, both: nat, extra: nat)
    requires both > 0 && extra >= slack / both + 1
    ensures extra * both > slack
  {
    assert slack == slack / both * both + slack % both;
    assert extra * both >= (slack / both + 1) * both;
  }

  lemma FirstRowTotal<T>(p: Problem<T>, best: nat, extra: nat)
    requires best + extra <= |p.s|
    requires best == if |p.t| < |p.s| then |p.s| - |p.t| else 0
    ensures (best + extra) * p.c.del + Residual(p, best + extra, 0)
            == LengthCost(p.c, |p.s|, |p.t|) + extra * (p.c.ins + p.c.del)
  {
    var net := |p.t| - |p.s|;
    assert extra * (p.c.ins + p.c.del) == extra * p.c.ins + extra * p.c.del;
    assert (best + extra) * p.c.del == best * p.c.del + extra * p.c.del;
    if net >= 0 {
      assert (net + extra) * p.c.ins == net * p.c.ins + extra * p.c.ins;
    }
  }
}
