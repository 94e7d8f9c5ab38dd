/** When the splitter of contrib/gms_assert searches past the end of its buffer. */
module SqlOverrun {
  import opened SqlNames
  import opened SqlSplit

  // ---------------------------------------------------------------- any text

  /** The doubled quotes that a quote scan meets, in order. */
  function PairsMet(text: string, from: nat): seq<nat>
    decreases |text| + 1 - from
  {
    if from > |text| then []
    else
      var e := StrChr(text, from);
      if e + 1 < |text| && text[e + 1] == QUOTE then [e] + PairsMet(text, e + 3) else []
  }

  /** The doubled quotes that a whole run meets, in order. */
  function SplitPairs(text: string, sep: char, start: nat, next: nat): seq<nat>
    requires start <= next <= |text|
    decreases |text| - next
  {
    if next < |text| && text[next] == QUOTE then
      PairsMet(text, next + 1)
      + match QuoteEnd(text, next + 1)
        case At(e) => SplitPairs(text, sep, start, e)
        case _ => []
    else
      var e := PlainEnd(text, sep, next);
      if start == e || e == |text| then []
      else if text[e] == sep then SplitPairs(text, sep, e + 1, e + 1)
      else if text[e] == QUOTE then SplitPairs(text, sep, start, e)
      else []
  }

  /** One of the positions is the last but one of a text of length n. */
  predicate MeetsEnd(ps: seq<nat>, n: nat) {
    n >= 2 && n - 2 in ps
  }

  predicate ArePairs(text: string, ps: seq<nat>) {
    forall p | p in ps :: p + 2 <= |text| && text[p] == QUOTE && text[p + 1] == QUOTE
  }

  lemma PairsConcat(text: string, a: seq<nat>, b: seq<nat>, n: nat)
    ensures MeetsEnd(a + b, n) <==> MeetsEnd(a, n) || MeetsEnd(b, n)
    ensures ArePairs(text, a) && ArePairs(text, b) ==> ArePairs(text, a + b)
  {
  }

  lemma {:induction false} QuoteOverrunIff(text: string, from: nat)
    requires from <= |text|
    ensures QuoteEnd(text, from).Overrun? <==> MeetsEnd(PairsMet(text, from), |text|)
    ensures ArePairs(text, PairsMet(text, from))
    decreases |text| + 1 - from
  {
    hide MeetsEnd, ArePairs;
    var e := StrChr(text, from);
    if e + 1 < |text| && text[e + 1] == QUOTE {
      PairsConcat(text, [e], PairsMet(text, e + 3), |text|);
      OnePair(text, e);
      if e + 3 <= |text| {
        QuoteOverrunIff(text, e + 3);
      } else {
        NoPairs(text);
      }
    } else {
      NoPairs(text);
    }
  }

  lemma OnePair(text: string, e: nat)
    requires e + 1 < |text| && text[e] == QUOTE && text[e + 1] == QUOTE
    ensures ArePairs(text, [e]) && (MeetsEnd([e], |text|) <==> e + 2 == |text|)
  {
  }

  lemma NoPairs(text: string)
    ensures ArePairs(text, []) && !MeetsEnd([], |text|)
  {
  }

  lemma {:induction false} RunOverIff(text: string, sep: char, start: nat, next: nat, acc: seq<string>)
    requires start <= next <= |text|
    ensures SplitFrom(text, sep, start, next, acc).RanOver? <==> MeetsEnd(SplitPairs(text, sep, start, next), |text|)
    ensures ArePairs(text, SplitPairs(text, sep, start, next))
    decreases |text| - next
  {
    hide QuoteEnd, PairsMet, IsSpace, MeetsEnd, ArePairs;
    NoPairs(text);
    if next < |text| && text[next] == QUOTE {
      QuoteOverrunIff(text, next + 1);
      var e, met := QuoteEnd(text, next + 1), PairsMet(text, next + 1);
      if e.At? {
        RunOverIff(text, sep, start, e.pos, acc);
        PairsConcat(text, met, SplitPairs(text, sep, start, e.pos), |text|);
      } else {
        PairsConcat(text, met, [], |text|);
      }
    } else {
      var e := PlainEnd(text, sep, next);
      if start < e < |text| {
        if text[e] == sep {
          RunOverIff(text, sep, e + 1, e + 1, acc + [text[start..e]]);
        } else if text[e] == QUOTE {
          RunOverIff(text, sep, start, e, acc);
        }
      }
    }
  }

  /** A run searches past the end of the buffer if and only if it meets a doubled quote at the last two positions of
      the text; so it never does when the text does not end in two quotes. */
  lemma OverrunIff(text: string, sep: char)
    ensures var p := SkipSpaces(text, 0);
            Split(text, sep).RanOver? <==> MeetsEnd(SplitPairs(text, sep, p, p), |text|)
    ensures Split(text, sep).RanOver? ==> |text| >= 2 && text[|text| - 2] == QUOTE && text[|text| - 1] == QUOTE
  {
    hide SplitFrom, SplitPairs, SkipSpaces;
    var p := SkipSpaces(text, 0);
    RunOverIff(text, sep, p, p, []);
  }

  // ---------------------------------------------------------------- lists of names

  /** How reading one name of a list ends: at its end and outside quotes, inside quotes, inside quotes with a doubled
      quote as its last two characters, or with the whole run before its end. */
  datatype NameExit = Closed | LeftOpen | LeftOnPair | Halted

  function ExitInside(n: string, sep: char, i: nat): NameExit
    decreases |n| + 1 - i, 0
  {
    if i > |n| then LeftOnPair
    else
      var e := StrChr(n, i);
      if e == |n| then LeftOpen
      else if e + 1 < |n| && n[e + 1] == QUOTE then ExitInside(n, sep, e + 3)
      else ExitOutside(n, sep, e + 1, false)
  }

  /** Nothing of the current name has been read yet when first holds. */
  function ExitOutside(n: string, sep: char, i: nat, first: bool): NameExit
    decreases |n| + 1 - i, 1
  {
    if i >= |n| then (if first then Halted else Closed)
    else if n[i] == QUOTE then ExitInside(n, sep, i + 1)
    else if IsSpace(n[i]) || (first && n[i] == sep) then Halted
    else ExitOutside(n, sep, i + 1, n[i] == sep)
  }

  /** Reading the names one by one, the last one is left on a doubled quote. */
  predicate LastLeftOnPair(names: seq<string>, sep: char, inside: bool)
    decreases |names|
  {
    names != []
    && match if inside then ExitInside(names[0], sep, 0) else ExitOutside(names[0], sep, 0, true)
       case Halted => false
       case Closed => LastLeftOnPair(names[1..], sep, false)
       case LeftOpen => LastLeftOnPair(names[1..], sep, true)
       case LeftOnPair => |names| == 1 || LastLeftOnPair(names[1..], sep, true)
  }

  /** The run overruns when it goes on outside quotes at position p. */
  predicate Over(text: string, sep: char, p: nat, first: bool)
    requires p <= |text|
    decreases |text| - p
  {
    match NameEnd(text, sep, p)
    case Overrun => true
    case Unclosed => false
    case At(e) => !(first && e == p) && e < |text| && text[e] == sep && Over(text, sep, e + 1, true)
  }

  predicate OverInside(text: string, sep: char, from: nat) {
    match QuoteEnd(text, from)
    case Overrun => true
    case Unclosed => false
    case At(e) => Over(text, sep, e, false)
  }

  lemma {:induction false} RanOverIsOver(text: string, sep: char, start: nat, next: nat, acc: seq<string>)
    requires start <= next <= |text| && Separator(sep)
    ensures SplitFrom(text, sep, start, next, acc).RanOver? <==> Over(text, sep, next, start == next)
    decreases |text| - next
  {
    hide SplitFrom, NameEnd, IsSpace, NameCont;
    SpacesAndQuotes();
    SplitByNames(text, sep, start, next, acc);
    var r := NameEnd(text, sep, next);
    if r.At? && start != r.pos && r.pos < |text| && text[r.pos] == sep {
      RanOverIsOver(text, sep, r.pos + 1, r.pos + 1, acc + [text[start..r.pos]]);
    }
  }

  /** What follows a name in the text, by how the name was left. */
  predicate OverAfter(text: string, sep: char, end: nat, x: NameExit) {
    match x
    case Halted => false
    case Closed => end < |text| && Over(text, sep, end + 1, true)
    case LeftOpen => end < |text| && OverInside(text, sep, end + 1)
    case LeftOnPair => end >= |text| || OverInside(text, sep, end + 1)
  }

  lemma {:induction false} ExitOutsideTells(text: string, sep: char, at: nat, end: nat, i: nat, first: bool)
    requires at <= end <= |text| && Separator(sep) && (end < |text| ==> text[end] == sep) && at + i <= end
    ensures Over(text, sep, at + i, first) <==> OverAfter(text, sep, end, ExitOutside(text[at..end], sep, i, first))
    decreases end - at + 1 - i, 1
  {
    hide QuoteEnd, IsSpace, NameCont;
    SpacesAndQuotes();
    var n := text[at..end];
    if i < |n| {
      assert n[i] == text[at + i];
      if n[i] == QUOTE {
        ExitInsideTells(text, sep, at, end, i + 1);
      } else if !IsSpace(n[i]) && !(first && n[i] == sep) {
        ExitOutsideTells(text, sep, at, end, i + 1, n[i] == sep);
      }
    }
  }

  lemma {:induction false} ExitInsideTells(text: string, sep: char, at: nat, end: nat, i: nat)
    requires at <= end <= |text| && Separator(sep) && (end < |text| ==> text[end] == sep) && at + i <= end + 1
    ensures OverInside(text, sep, at + i) <==> OverAfter(text, sep, end, ExitInside(text[at..end], sep, i))
    decreases end - at + 1 - i, 0
  {
    hide NameEnd, IsSpace, NameCont, StrChr, Over;
    var n := text[at..end];
    if i <= |n| {
      StrChrIn(text, at, end, i);
      var e := StrChr(n, i);
      if e == |n| {
        if end < |text| {
          StrChrSkips(text, at + i, end + 1);
        }
      } else if e + 1 < |n| && n[e + 1] == QUOTE {
        ExitInsideTells(text, sep, at, end, e + 3);
      } else {
        ExitOutsideTells(text, sep, at, end, e + 1, false);
      }
    }
  }

  /** Names that the check accepts can make the splitter leave the buffer. */
  lemma AcceptedNameOverruns() returns (n: string)
    ensures SimpleName(n) && Split(n, '.').RanOver?
  {
    n := ['\"', 'a', '\"', '\"', '\"', '\"', '\"'];
    assert n[1..][1..] == ['\"', '\"', '\"', '\"', '\"'];
    assert n[1..][1..][2..] == ['\"', '\"', '\"'] && n[1..][1..][2..][2..] == ['\"'];
    assert StrChr(n, 1) == StrChr(n, 2) == 2 && StrChr(n, 5) == 5;
    assert QuoteEnd(n, 8).Overrun?;
    assert QuoteEnd(n, 5).Overrun?;
    assert QuoteEnd(n, 1).Overrun?;
    assert SkipSpaces(n, 0) == 0;
  }

  lemma {:induction false} JoinOverIff(names: seq<string>, sep: char, pre: string, inside: bool)
    requires names != [] && Separator(sep)
    ensures var text := pre + Join(names, sep);
            (if inside then OverInside(text, sep, |pre|) else Over(text, sep, |pre|, true))
            <==> LastLeftOnPair(names, sep, inside)
    decreases |names|
  {
    hide Over, OverInside, ExitInside, ExitOutside, IsSpace, NameCont;
    var text, end := pre + Join(names, sep), |pre| + |names[0]|;
    assert text[|pre|..end] == names[0];
    if inside {
      ExitInsideTells(text, sep, |pre|, end, 0);
    } else {
      ExitOutsideTells(text, sep, |pre|, end, 0, true);
    }
    if |names| > 1 {
      var pre' := pre + names[0] + [sep];
      assert text == pre' + Join(names[1..], sep) && |pre'| == end + 1;
      JoinOverIff(names[1..], sep, pre', false);
      JoinOverIff(names[1..], sep, pre', true);
    }
  }

  /** The splitter searches past the end of a list of accepted names if and only if, reading them one by one, it is
      left on a doubled quote at the end of the last. */
  lemma NamesOverrunIff(names: seq<string>, sep: char)
    requires names != [] && Separator(sep) && forall i | 0 <= i < |names| :: SimpleName(names[i])
    ensures Split(Join(names, sep), sep).RanOver? <==> LastLeftOnPair(names, sep, false)
  {
    hide SplitFrom, Over, LastLeftOnPair;
    var text := Join(names, sep);
    assert SimpleName(names[0]);
    assert text[0] == names[0][0];
    assert SkipSpaces(text, 0) == 0;
    RanOverIsOver(text, sep, 0, 0, []);
    JoinOverIff(names, sep, [], false);
    assert [] + text == text;
  }
}
