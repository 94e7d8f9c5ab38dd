/** The two builds of contrib/fuzzystrmatch/levenshtein.cpp: the plain two-row program, and the bounded one
    that fills only a moving band of columns. */
module Levenshtein {
  import opened Integers
  import opened EditDistance
  import opened Band
  import opened Multibyte

  const MAX_LEVENSHTEIN_STRLEN := 255

  datatype Outcome = Ok(distance: int) | ArgumentTooLong

  /** The length check comes after the shortcuts for empty strings. */
  ghost predicate TooLong(s: seq<seq<Byte>>, t: seq<seq<Byte>>) {
    s != [] && t != [] && (|s| > 255 || |t| > 255)
  }

  /** What a caller with bound maxD may rely on: the exact distance d when it is within the bound, and
      otherwise some value above the bound. */
  ghost predicate Answers(v: int, d: nat, maxD: int) {
    if maxD < 0 || d <= maxD then v == d else v > maxD
  }

  /** Column of the character the inner loop compares first. */
  function FirstChar(start: nat): nat {
    if start == 0 then 0 else start - 1
  }

  /** A slice of a stored row stands for the matching cells of row j. */
  ghost predicate RowStands(p: Problem<seq<Byte>>, row: seq<int>, from: nat, to: nat, j: nat)
    requires to <= |row| == |p.s| + 1 && j <= |p.t|
  {
    forall k | from <= k < to :: Stands(p, row[k], k, j)
  }

  /** The two texts, with the characters they spell. */
  ghost predicate Spells(enc: Encoding, s: seq<Byte>, t: seq<Byte>, p: Problem<seq<Byte>>) {
    WellEncoded(enc, s) && WellEncoded(enc, t) && p.s == Chars(enc, s) && p.t == Chars(enc, t)
  }

  /** The cached character lengths, absent when every character of both strings is a single byte. */
  ghost predicate LengthsCached(s: seq<Byte>, t: seq<Byte>, lens: array?<int>, p: Problem<seq<Byte>>)
    reads lens
  {
    if lens == null then |p.s| == |s| && |p.t| == |t|
    else lens.Length == |p.s| + 1 && forall k | 0 <= k < |p.s| :: lens[k] == |p.s[k]|
  }

  /** Cost of one cell from its three stored neighbours, for the character at cursor x of s. */
  method CellValue(ghost enc: Encoding, s: seq<Byte>, t: seq<Byte>, lens: array?<int>, c: Costs,
                   x: nat, y: nat, yLen: nat, i: nat, above: int, left: int, diagonal: int,
                   ghost p: Problem<seq<Byte>>, ghost j: nat) returns (v: int, xLen: nat)
    requires Spells(enc, s, t, p) && LengthsCached(s, t, lens, p) && p.c == c
    requires 0 < i <= |p.s| && 0 < j <= |p.t|
    requires x == Offset(p.s, i - 1) && y == Offset(p.t, j - 1) && yLen == |p.t[j - 1]|
    requires Stands(p, above, i, j - 1) && Stands(p, left, i - 1, j) && Stands(p, diagonal, i - 1, j - 1)
    ensures Stands(p, v, i, j)
    ensures x + xLen == Offset(p.s, i)
  {
    hide Stands, Offset, Chars, WellEncoded;
    CharAt(enc, s, i - 1);
    CharAt(enc, t, j - 1);
    var ins, del := above + c.ins, left + c.del;
    var sub;
    if lens != null {
      xLen := lens[i - 1];
      var same := SameChar(s, x, xLen, t, y, yLen);
      sub := if same then diagonal else diagonal + c.sub;
    } else {
      SingleBytes(enc, s);
      SingleBytes(enc, t);
      xLen := 1;
      sub := diagonal + if s[x] == t[y] then 0 else c.sub;
    }
    StandsStep(p, i, j, above, left, diagonal);
    v := Min(Min(ins, del), sub);
  }

  /** Fills columns start to stop - 1 of row j into curr from the previous row. */
  method FillRow(ghost enc: Encoding, s: seq<Byte>, t: seq<Byte>, lens: array?<int>, c: Costs,
                 sData: nat, y: nat, yLen: nat, prev: array<int>, curr: array<int>,
                 start: nat, stop: nat, j: nat, ghost p: Problem<seq<Byte>>)
    requires Spells(enc, s, t, p) && LengthsCached(s, t, lens, p) && p.c == c
    requires prev != curr && lens != curr && prev.Length == curr.Length == |p.s| + 1
    requires start < stop <= |p.s| + 1 && 0 < j <= |p.t|
    requires sData == Offset(p.s, FirstChar(start)) && y == Offset(p.t, j - 1) && yLen == |p.t[j - 1]|
    requires RowStands(p, prev[..], FirstChar(start), stop, j - 1)
    requires start > 0 ==> Stands(p, curr[start - 1], start - 1, j)
    modifies curr
    ensures RowStands(p, curr[..], start, stop, j)
    ensures forall k | 0 <= k < start :: curr[k] == old(curr[k])
  {
    hide Stands, Offset, Chars, WellEncoded;
    var i;
    if start == 0 {
      curr[0] := j * c.ins;
      FirstColumn(p, j);
      i := 1;
    } else {
      i := start;
    }
    var x := sData;
    while i < stop
      invariant start <= i <= stop && 0 < i
      invariant x == Offset(p.s, i - 1)
      invariant RowStands(p, curr[..], FirstChar(start), i, j)
      invariant LengthsCached(s, t, lens, p)
      invariant forall k | 0 <= k < start :: curr[k] == old(curr[k])
    {
      assert Stands(p, prev[..][i], i, j - 1) && Stands(p, prev[..][i - 1], i - 1, j - 1);
      assert Stands(p, curr[..][i - 1], i - 1, j);
      var v, xLen := CellValue(enc, s, t, lens, c, x, y, yLen, i, prev[i], curr[i - 1], prev[i - 1], p, j);
      ghost var before := curr[..];
      curr[i] := v;
      assert curr[..] == before[i := v];
      x := x + xLen;
      i := i + 1;
    }
  }

  /** Residual as the source computes it, from the distance to the zero point. */
  function NetCost(c: Costs, netInserts: int): int {
    if netInserts > 0 then netInserts * c.ins else -netInserts * c.del
  }

  /** Reads a stored value: it decides liveness. */
  lemma StoredDecidesLive(p: Problem<seq<Byte>>, v: int, i: nat, j: nat)
    requires i <= |p.s| && j <= |p.t| && p.maxD >= 0
    requires Stands(p, v, i, j)
    ensures v + NetCost(p.c, i - (j - (|p.t| - |p.s|))) <= p.maxD <==> Live(p, i, j)
  {
  }

  /** Sentinels left of the band, and standing values inside it. */
  ghost predicate BandRow(p: Problem<seq<Byte>>, row: seq<int>, start: nat, stop: nat, j: nat)
    requires start <= stop <= |row| == |p.s| + 1 && j <= |p.t|
  {
    && DeadLeft(p, start, j)
    && DeadRight(p, stop, j)
    && (forall k | 0 <= k < start :: row[k] == p.maxD + 1)
    && RowStands(p, row, start, stop, j)
  }

  /** Slides the stop column left past dead cells. */
  method SlideStop(prev: array<int>, c: Costs, maxD: nat, zp: int, ghost start: nat, stop: nat, ghost j: nat,
                   ghost p: Problem<seq<Byte>>) returns (stop': nat)
    requires prev.Length == |p.s| + 1 && j <= |p.t|
    requires p.c == c && p.maxD == maxD && zp == j - (|p.t| - |p.s|)
    requires start <= stop <= |p.s| + 1 && BandRow(p, prev[..], start, stop, j)
    ensures stop' <= stop && DeadRight(p, stop', j)
    ensures stop' > 0 ==> start < stop' && Live(p, stop' - 1, j)
  {
    hide Live, NetCost;
    stop' := stop;
    while stop' > 0
      invariant stop' <= stop && DeadRight(p, stop', j)
    {
      var ii := stop' - 1;
      if ii >= start {
        assert Stands(p, prev[..][ii], ii, j);
        StoredDecidesLive(p, prev[ii], ii, j);
      } else {
        SentinelStands(p, ii, j);
        StoredDecidesLive(p, prev[..][ii], ii, j);
      }
      if prev[ii] + NetCost(c, ii - zp) <= maxD {
        return;
      }
      stop' := ii;
    }
  }

  /** Slides the start column right past dead cells, leaving sentinels behind in both rows. */
  method SlideStart(prev: array<int>, curr: array<int>, lens: array?<int>, c: Costs, maxD: nat, zp: int,
                    start: nat, stop: nat, sData: nat, ghost j: nat, ghost s: seq<Byte>, ghost t: seq<Byte>,
                    ghost p: Problem<seq<Byte>>) returns (start': nat, sData': nat)
    requires prev != curr && lens != prev && lens != curr
    requires prev.Length == curr.Length == |p.s| + 1 && j <= |p.t|
    requires LengthsCached(s, t, lens, p)
    requires p.c == c && p.maxD == maxD && zp == j - (|p.t| - |p.s|)
    requires start <= stop <= |p.s| + 1 && BandRow(p, prev[..], start, stop, j)
    requires lens == null ==> forall k | 0 <= k < |p.s| :: |p.s[k]| == 1
    requires forall k | 0 <= k < start :: curr[k] == maxD + 1
    requires sData == Offset(p.s, FirstChar(start))
    modifies prev, curr
    ensures start <= start' <= stop && BandRow(p, prev[..], start', stop, j)
    ensures forall k | 0 <= k < start' :: curr[k] == maxD + 1
    ensures sData' == Offset(p.s, FirstChar(start'))
  {
    hide Live, NetCost, Stands, Offset;
    start', sData' := start, sData;
    while start' < stop
      invariant start <= start' <= stop && BandRow(p, prev[..], start', stop, j)
      invariant LengthsCached(s, t, lens, p)
      invariant forall k | 0 <= k < start' :: curr[k] == maxD + 1
      invariant sData' == Offset(p.s, FirstChar(start'))
    {
      assert Stands(p, prev[..][start'], start', j);
      StoredDecidesLive(p, prev[start'], start', j);
      if prev[start'] + NetCost(c, start' - zp) <= maxD {
        return;
      }
      ghost var before := prev[..];
      prev[start'] := maxD + 1;
      curr[start'] := maxD + 1;
      assert prev[..] == before[start' := maxD + 1];
      if start' != 0 {
        OffsetNext(p.s, start' - 1);
        sData' := sData' + if lens != null then lens[start' - 1] else 1;
      }
      start' := start' + 1;
    }
  }

  /** Row 0 of the band: deletions only. */
  method FirstRowOfBand(prev: array<int>, c: Costs, stop: nat, ghost p: Problem<seq<Byte>>)
    requires prev.Length == |p.s| + 1 && stop <= |p.s| + 1 && p.c == c
    requires DeadRight(p, stop, 0)
    modifies prev
    ensures BandRow(p, prev[..], 0, stop, 0)
  {
    hide Live, Stands;
    for i := 0 to stop
      invariant RowStands(p, prev[..], 0, i, 0)
    {
      ghost var before := prev[..];
      prev[i] := i * c.del;
      assert prev[..] == before[i := i * c.del];
      FirstRow(p, i);
    }
  }

  /** Widens the band by the column the next row may reach, and fills that row. */
  method NextRow(ghost enc: Encoding, s: seq<Byte>, t: seq<Byte>, lens: array?<int>, c: Costs, maxD: int,
                 sData: nat, y: nat, yLen: nat, prev: array<int>, curr: array<int>,
                 start: nat, stop: nat, j: nat, ghost p: Problem<seq<Byte>>) returns (stop': nat)
    requires Spells(enc, s, t, p) && LengthsCached(s, t, lens, p) && p.c == c && p.maxD == maxD
    requires prev != curr && lens != curr && lens != prev && prev.Length == curr.Length == |p.s| + 1
    requires start < stop <= |p.s| + 1 && 0 < j <= |p.t|
    requires sData == Offset(p.s, FirstChar(start)) && y == Offset(p.t, j - 1) && yLen == |p.t[j - 1]|
    requires BandRow(p, prev[..], start, stop, j - 1)
    requires forall k | 0 <= k < start :: curr[k] == maxD + 1
    modifies prev, curr
    ensures start < stop' <= |p.s| + 1 && BandRow(p, curr[..], start, stop', j)
    ensures forall k | 0 <= k < start :: prev[k] == maxD + 1
  {
    hide Live, Stands, Offset, Chars, WellEncoded;
    DeadLeftDown(p, start, j - 1);
    DeadRightDown(p, stop, j - 1);
    stop' := stop;
    if stop < prev.Length {
      ghost var before := prev[..];
      SentinelStands(p, stop, j - 1);
      prev[stop] := maxD + 1;
      assert prev[..] == before[stop := maxD + 1];
      stop' := stop + 1;
    }
    if start > 0 {
      SentinelStands(p, start - 1, j - 1);
      SentinelStands(p, start - 1, j);
    }
    FillRow(enc, s, t, lens, c, sData, y, yLen, prev, curr, start, stop', j, p);
  }

  /** Caches character lengths unless every character of both strings is a single byte. */
  method CacheLengths(enc: Encoding, s: seq<Byte>, t: seq<Byte>, m: nat, n: nat, ghost p: Problem<seq<Byte>>)
    returns (lens: array?<int>)
    requires Spells(enc, s, t, p) && m == |p.s| && n == |p.t|
    ensures lens == null || fresh(lens)
    ensures LengthsCached(s, t, lens, p)
    ensures lens == null ==> forall k | 0 <= k < m :: |p.s[k]| == 1
  {
    if m != |s| || n != |t| {
      lens := CharLengths(enc, s, m);
    } else {
      SingleBytes(enc, s);
      lens := null;
    }
  }

  /** Length of the target character at cursor y. */
  method TargetCharLength(enc: Encoding, t: seq<Byte>, n: nat, y: nat, ghost j: nat) returns (yLen: nat)
    requires WellEncoded(enc, t) && n == |Chars(enc, t)| && j < n && y == Offset(Chars(enc, t), j)
    ensures yLen == |Chars(enc, t)[j]| && y + yLen == Offset(Chars(enc, t), j + 1)
  {
    CharAt(enc, t, j);
    if n != |t| {
      yLen := enc.mblen(t[y..]);
    } else {
      SingleBytes(enc, t);
      yLen := 1;
    }
  }

  /** The row loop of the plain build: every row in full. */
  method PlainRows(enc: Encoding, s: seq<Byte>, t: seq<Byte>, c: Costs, m: nat, n: nat) returns (v: int)
    requires WellEncoded(enc, s) && WellEncoded(enc, t)
    requires m == |Chars(enc, s)| && n == |Chars(enc, t)|
    ensures v == Distance(c, Chars(enc, s), Chars(enc, t))
  {
    hide Stands, Offset, Chars, WellEncoded;
    ghost var p := Problem(c, Chars(enc, s), Chars(enc, t), -1);
    Unbounded(p);
    var lens := CacheLengths(enc, s, t, m, n, p);
    var prev, curr := new int[m + 1], new int[m + 1];
    FirstRowOfBand(prev, c, m + 1, p);
    var y, j := 0, 1;
    OffsetZero(p);
    while j <= n
      invariant 1 <= j <= n + 1
      invariant prev != curr && prev != lens && curr != lens && prev.Length == curr.Length == m + 1
      invariant fresh(prev) && fresh(curr) && LengthsCached(s, t, lens, p)
      invariant y == Offset(p.t, j - 1)
      invariant RowStands(p, prev[..], 0, m + 1, j - 1)
    {
      var yLen := TargetCharLength(enc, t, n, y, j - 1);
      FillRow(enc, s, t, lens, c, 0, y, yLen, prev, curr, 0, m + 1, j, p);
      prev, curr := curr, prev;
      y := y + yLen;
      j := j + 1;
    }
    v := prev[m];
    assert Stands(p, prev[..][m], m, n);
    LastCellAnswers(p, v);
  }

  lemma OffsetZero(p: Problem<seq<Byte>>)
    ensures Offset(p.s, 0) == 0 && Offset(p.t, 0) == 0
  {
  }

  lemma Unbounded(p: Problem<seq<Byte>>)
    requires p.maxD < 0
    ensures DeadRight(p, |p.s| + 1, 0)
  {
  }

  lemma LastCellAnswers(p: Problem<seq<Byte>>, v: int)
    requires Stands(p, v, |p.s|, |p.t|)
    ensures Answers(v, Distance(p.c, p.s, p.t), p.maxD)
  {
    hide Cell;
  }

  /** The row loop of the bounded build. */
  method BandedRows(enc: Encoding, s: seq<Byte>, t: seq<Byte>, c: Costs, maxD: int, m: nat, n: nat, firstStop: nat)
    returns (v: int)
    requires WellEncoded(enc, s) && WellEncoded(enc, t)
    requires m == |Chars(enc, s)| && n == |Chars(enc, t)| && n > 0
    requires 0 < firstStop <= m + 1
    requires DeadRight(Problem(c, Chars(enc, s), Chars(enc, t), maxD), firstStop, 0)
    ensures Answers(v, Distance(c, Chars(enc, s), Chars(enc, t)), maxD)
  {
    hide Live, Stands, Offset, Chars, WellEncoded;
    ghost var p := Problem(c, Chars(enc, s), Chars(enc, t), maxD);
    var lens := CacheLengths(enc, s, t, m, n, p);
    var prev, curr := new int[m + 1], new int[m + 1];
    var start, stop := 0, firstStop;
    FirstRowOfBand(prev, c, stop, p);
    var sData, y, j := 0, 0, 1;
    OffsetZero(p);
    while j <= n
      invariant 1 <= j <= n + 1
      invariant prev != curr && prev != lens && curr != lens && prev.Length == curr.Length == m + 1
      invariant fresh(prev) && fresh(curr) && LengthsCached(s, t, lens, p)
      invariant start < stop <= m + 1 && BandRow(p, prev[..], start, stop, j - 1)
      invariant forall k | 0 <= k < start :: curr[k] == maxD + 1
      invariant sData == Offset(p.s, FirstChar(start)) && y == Offset(p.t, j - 1)
      invariant j > 1 && maxD >= 0 ==> Live(p, stop - 1, j - 1)
    {
      var yLen := TargetCharLength(enc, t, n, y, j - 1);
      stop := NextRow(enc, s, t, lens, c, maxD, sData, y, yLen, prev, curr, start, stop, j, p);
      prev, curr := curr, prev;
      y := y + yLen;
      if maxD >= 0 {
        var zp := j - (n - m);
        stop := SlideStop(prev, c, maxD, zp, start, stop, j, p);
        if start < stop {
          start, sData := SlideStart(prev, curr, lens, c, maxD, zp, start, stop, sData, j, s, t, p);
        }
        if start >= stop {
          assert DeadLeft(p, m + 1, j);
          DeadRow(p, j);
          return maxD + 1;
        }
      }
      j := j + 1;
    }
    FinalColumnIsFresh(p, stop);
    v := prev[m];
    assert Stands(p, prev[..][m], m, n);
    LastCellAnswers(p, v);
  }

  /** After the last row the band still ends at the last column. */
  lemma FinalColumnIsFresh(p: Problem<seq<Byte>>, stop: nat)
    requires 0 < stop <= |p.s| + 1
    requires DeadRight(p, stop, |p.t|)
    requires p.maxD >= 0 ==> Live(p, stop - 1, |p.t|)
    ensures stop == |p.s| + 1
  {
    if p.maxD >= 0 {
      StopIsRightOfZeroPoint(p, stop, |p.t|);
    } else if stop <= |p.s| {
      assert Live(p, stop, |p.t|);
    }
  }

  lemma EmptyStrings(c: Costs, s: seq<seq<Byte>>, t: seq<seq<Byte>>)
    requires s == [] || t == []
    ensures Distance(c, s, t) == if s == [] then |t| * c.ins else |s| * c.del
  {
    CellOnBorder(c, s, t, |s|, |t|);
  }

  /** The plain build returns the least total cost of any edit script from s to t. */
  method LevenshteinInternal(enc: Encoding, s: seq<Byte>, t: seq<Byte>, c: Costs) returns (r: Outcome)
    requires WellEncoded(enc, s) && WellEncoded(enc, t)
    ensures r.ArgumentTooLong? <==> TooLong(Chars(enc, s), Chars(enc, t))
    ensures r.Ok? ==> r.distance == Distance(c, Chars(enc, s), Chars(enc, t))
  {
    hide Distance;
    var m := CharCount(enc, s);
    var n := CharCount(enc, t);
    if m == 0 {
      EmptyStrings(c, Chars(enc, s), Chars(enc, t));
      return Ok(n * c.ins);
    }
    if n == 0 {
      EmptyStrings(c, Chars(enc, s), Chars(enc, t));
      return Ok(m * c.del);
    }
    if m > MAX_LEVENSHTEIN_STRLEN || n > MAX_LEVENSHTEIN_STRLEN {
      return ArgumentTooLong;
    }
    var v := PlainRows(enc, s, t, c, m, n);
    return Ok(v);
  }

  /** How the bounded build prepares its band. */
  datatype Plan = Hopeless | Rows(c: Costs, maxD: int, stop: nat)

  method PlanBand(c: Costs, m: nat, n: nat, maxD: int, ghost s: seq<seq<Byte>>, ghost t: seq<seq<Byte>>)
    returns (plan: Plan)
    requires m == |s| && n == |t| && m > 0 && n > 0
    ensures plan.Hopeless? ==> 0 <= maxD < Distance(c, s, t)
    ensures plan.Rows? ==>
              && 0 < plan.stop <= m + 1
              && Distance(plan.c, s, t) == Distance(c, s, t)
              && (plan.maxD == maxD || (plan.maxD < 0 && Distance(c, s, t) <= maxD))
              && DeadRight(Problem(plan.c, s, t, plan.maxD), plan.stop, 0)
  {
    if maxD < 0 {
      return Rows(c, maxD, m + 1);
    }
    hide Cell, LengthCost, TheoreticalMax;
    var minTheo := LengthCost(c, m, n);
    if minTheo > maxD {
      CellAtLeastLengthCost(c, s, t, m, n);
      return Hopeless;
    }
    var c' := Clamped(c);
    ClampedLengthCost(c, m, n);
    ClampingIsSafe(c, s, t, m, n);
    if maxD >= TheoreticalMax(c', m, n) {
      CellAtMostTheoreticalMax(c', s, t, m, n);
      return Rows(c', -1, m + 1);
    }
    var stop := FirstStop(c', m, n, maxD - minTheo);
    InitialStopIsDead(Problem(c', s, t, maxD), maxD - minTheo, stop);
    return Rows(c', maxD, stop);
  }

  lemma ClampedLengthCost(c: Costs, i: nat, j: nat)
    ensures LengthCost(Clamped(c), i, j) == LengthCost(c, i, j)
  {
  }

  /** How much of row 0 must be filled: each column right of the best one costs a deletion and an insertion
      out of the slack. */
  function FirstStop(c: Costs, m: nat, n: nat, slack: nat): (stop: nat)
    ensures 0 < stop <= m + 1
  {
    if c.ins + c.del > 0 then
      var best := if n < m then m - n else 0;
      var stop := best + slack / (c.ins + c.del) + 1;
      if stop > m then m + 1 else stop
    else m + 1
  }

  lemma InitialStopIsDead(p: Problem<seq<Byte>>, slack: nat, stop: nat)
    requires p.maxD >= 0
    requires slack == p.maxD - LengthCost(p.c, |p.s|, |p.t|)
    requires stop == FirstStop(p.c, |p.s|, |p.t|, slack)
    ensures DeadRight(p, stop, 0)
  {
    hide Cell, Residual, LengthCost;
    var best := if |p.t| < |p.s| then |p.s| - |p.t| else 0;
    forall i {:trigger Live(p, i, 0)} | stop <= i <= |p.s|
      ensures !Live(p, i, 0)
    {
      FirstStopColumn(p, best, slack, i);
    }
  }

  /** The bounded build is exact up to the bound and above it beyond, for every bound. */
  method LevenshteinLessEqualInternal(enc: Encoding, s: seq<Byte>, t: seq<Byte>, c: Costs, maxD: int)
    returns (r: Outcome)
    requires WellEncoded(enc, s) && WellEncoded(enc, t)
    ensures r.ArgumentTooLong? <==> TooLong(Chars(enc, s), Chars(enc, t))
    ensures r.Ok? ==> Answers(r.distance, Distance(c, Chars(enc, s), Chars(enc, t)), maxD)
  {
    hide Distance;
    var m := CharCount(enc, s);
    var n := CharCount(enc, t);
    if m == 0 {
      EmptyStrings(c, Chars(enc, s), Chars(enc, t));
      return Ok(n * c.ins);
    }
    if n == 0 {
      EmptyStrings(c, Chars(enc, s), Chars(enc, t));
      return Ok(m * c.del);
    }
    if m > MAX_LEVENSHTEIN_STRLEN || n > MAX_LEVENSHTEIN_STRLEN {
      return ArgumentTooLong;
    }
    var plan := PlanBand(c, m, n, maxD, Chars(enc, s), Chars(enc, t));
    if plan.Hopeless? {
      return Ok(maxD + 1);
    }
    var v := BandedRows(enc, s, t, plan.c, plan.maxD, m, n, plan.stop);
    return Ok(v);
  }
}
