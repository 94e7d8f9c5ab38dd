/** Splitting qualified names in place, as contrib/gms_assert does it, and exactly which names survive it. */
module SqlSplit {
  import opened SqlNames

  /** First position of the quote at or after from, or the end of the text. */
  function StrChr(text: string, from: nat): (e: nat)
    ensures e == |text| || (from <= e < |text| && text[e] == QUOTE)
    ensures forall i | from <= i < e :: text[i] != QUOTE
    decreases |text| - from
  {
    if from >= |text| then |text| else if text[from] == QUOTE then from else StrChr(text, from + 1)
  }

  lemma {:induction false} StrChrSkips(text: string, from: nat, to: nat)
    requires from <= to <= |text| && forall k | from <= k < to :: text[k] != QUOTE
    ensures StrChr(text, from) == StrChr(text, to)
    decreases |text| - from
  {
    if from < to {
      StrChrSkips(text, from + 1, to);
    }
  }

  /** Searching a part of the text finds what searching the text finds, as long as it lies in the part. */
  lemma StrChrIn(text: string, at: nat, end: nat, i: nat)
    requires at <= end <= |text| && at + i <= end
    ensures var n := text[at..end];
            var e, f := StrChr(n, i), StrChr(text, at + i);
            if e < |n| then f == at + e else f >= end && forall k | at + i <= k < end :: text[k] != QUOTE
  {
    hide StrChr;
    var n := text[at..end];
    var e, f := StrChr(n, i), StrChr(text, at + i);
    assert forall k | i <= k < |n| :: n[k] == text[at + k];
    assert forall k | at + i <= k < end :: text[k] == n[k - at];
    if e < |n| {
      assert text[at + e] == QUOTE;
    }
  }

  /** How a scan ends: at a position, at the terminator, or by starting a search past the terminator. */
  datatype ScanEnd = At(pos: nat) | Unclosed | Overrun

  /** End of a quoted stretch, searching from position from: a quote followed by another is skipped together with
      the character after the pair, which may be the terminator. */
  function QuoteEnd(text: string, from: nat): (r: ScanEnd)
    ensures r.At? ==> from < r.pos <= |text|
    decreases |text| + 1 - from
  {
    if from > |text| then Overrun
    else
      var e := StrChr(text, from);
      if e == |text| then Unclosed
      else if e + 1 < |text| && text[e + 1] == QUOTE then QuoteEnd(text, e + 3)
      else At(e + 1)
  }

  /** End of an unquoted stretch. */
  function PlainEnd(text: string, sep: char, from: nat): (e: nat)
    requires from <= |text|
    ensures from <= e <= |text|
    ensures e < |text| ==> text[e] == sep || text[e] == QUOTE || IsSpace(text[e])
    ensures forall i | from <= i < e :: text[i] != sep && text[i] != QUOTE && !IsSpace(text[i])
    decreases |text| - from
  {
    if from == |text| || text[from] == sep || text[from] == QUOTE || IsSpace(text[from]) then from
    else PlainEnd(text, sep, from + 1)
  }

  datatype SplitResult = Listed(names: seq<string>) | RanOver

  /** The names found from here on, after those in acc: a stretch of the text from start, of which everything
      before next has been scanned. */
  function SplitFrom(text: string, sep: char, start: nat, next: nat, acc: seq<string>): SplitResult
    requires start <= next <= |text|
    decreases |text| - next
  {
    if next < |text| && text[next] == QUOTE then
      match QuoteEnd(text, next + 1)
      case Overrun => RanOver
      case Unclosed => Listed(acc)
      case At(e) => SplitFrom(text, sep, start, e, acc)
    else
      var e := PlainEnd(text, sep, next);
      var name := text[start..e];
      if start == e then Listed(acc)
      else if e == |text| then Listed(acc + [name])
      else if text[e] == sep then SplitFrom(text, sep, e + 1, e + 1, acc + [name])
      else if text[e] == QUOTE then SplitFrom(text, sep, start, e, acc)
      else if SkipSpaces(text, e) == |text| then Listed(acc + [name])
      else Listed([])
  }

  function Split(text: string, sep: char): SplitResult {
    var p := SkipSpaces(text, 0);
    SplitFrom(text, sep, p, p, [])
  }

  /** The C string at position p of a buffer. */
  ghost predicate CStringAt(b: seq<char>, p: nat, s: string) {
    p + |s| < |b| && b[p..p + |s|] == s && b[p + |s|] == NUL && NUL !in s
  }

  ghost predicate Names(b: seq<char>, starts: seq<nat>, names: seq<string>) {
    |starts| == |names| && forall i | 0 <= i < |starts| :: CStringAt(b, starts[i], names[i])
  }

  lemma NamesFrame(b: seq<char>, b': seq<char>, starts: seq<nat>, names: seq<string>, at: nat)
    requires Names(b, starts, names) && |b'| == |b|
    requires forall i | 0 <= i < |starts| :: starts[i] + |names[i]| < at
    requires forall i | 0 <= i < at && i < |b| :: b'[i] == b[i]
    ensures Names(b', starts, names)
  {
  }

  /** From position from on, the buffer still holds the text and its terminator. */
  ghost predicate Untouched(b: seq<char>, text: string, from: nat) {
    && |b| == |text| + 1
    && b[|text|] == NUL
    && NUL !in text
    && forall i | from <= i < |text| :: b[i] == text[i]
  }

  method FindQuoteEnd(raw: array<char>, from: nat, ghost text: string) returns (r: ScanEnd)
    requires Untouched(raw[..], text, from)
    ensures r == QuoteEnd(text, from)
  {
    var nextp := from;
    while nextp < raw.Length
      invariant from <= nextp && QuoteEnd(text, nextp) == QuoteEnd(text, from)
      decreases |text| + 1 - nextp
    {
      var endp := nextp;
      while endp < raw.Length - 1 && raw[endp] != QUOTE
        invariant nextp <= endp <= |text| && StrChr(text, endp) == StrChr(text, nextp)
      {
        endp := endp + 1;
      }
      if endp == raw.Length - 1 {
        return Unclosed;
      }
      if raw[endp + 1] != QUOTE {
        return At(endp + 1);
      }
      nextp := endp + 3;
    }
    return Overrun;
  }

  method FindPlainEnd(raw: array<char>, sep: char, from: nat, ghost text: string) returns (e: nat)
    requires Untouched(raw[..], text, from) && from <= |text| && sep != NUL
    ensures e == PlainEnd(text, sep, from)
  {
    e := from;
    while raw[e] != NUL && raw[e] != sep && raw[e] != QUOTE && !IsSpace(raw[e])
      invariant from <= e <= |text| && PlainEnd(text, sep, e) == PlainEnd(text, sep, from)
      decreases |text| - e
    {
      assert e < |text|;
      e := e + 1;
    }
    assert e < |text| ==> raw[e] == text[e] && text[e] in text;
  }

  method FindNonSpace(raw: array<char>, from: nat, ghost text: string) returns (e: nat)
    requires Untouched(raw[..], text, from) && from <= |text|
    ensures e == SkipSpaces(text, from)
  {
    e := from;
    while IsSpace(raw[e])
      invariant from <= e <= |text| && SkipSpaces(text, e) == SkipSpaces(text, from)
      decreases |text| - e
    {
      e := e + 1;
    }
  }

  /** Splits in place: terminators are written over separators, and the result points at the names. The run stops
      where the source would search past the end of the buffer. */
  method SplitQualifiedName(raw: array<char>, sep: char, ghost text: string) returns (starts: seq<nat>, ranOver: bool)
    requires Untouched(raw[..], text, 0) && sep != NUL
    modifies raw
    ensures ranOver <==> Split(text, sep).RanOver?
    ensures !ranOver ==> Names(raw[..], starts, Split(text, sep).names)
  {
    hide QuoteEnd, PlainEnd, SkipSpaces, CStringAt, IsSpace;
    starts, ranOver := [], false;
    var nextp: nat := FindNonSpace(raw, 0, text);
    var startp: nat, done := nextp, false;
    ghost var acc: seq<string> := [];
    while !done
      invariant startp <= nextp <= |text| && Untouched(raw[..], text, startp)
      invariant Names(raw[..], starts, acc)
      invariant !done ==> forall i | 0 <= i < |starts| :: starts[i] + |acc[i]| < startp
      invariant !ranOver
      invariant if done then Listed(acc) == Split(text, sep)
                else SplitFrom(text, sep, startp, nextp, acc) == Split(text, sep)
      decreases !done, |text| - nextp
    {
      if raw[nextp] == QUOTE {
        var e := FindQuoteEnd(raw, nextp + 1, text);
        if !e.At? {
          ranOver := e.Overrun?;
          return;
        }
        nextp := e.pos;
      } else {
        var endp := FindPlainEnd(raw, sep, nextp, text);
        if startp == endp {
          return;
        }
        var after: nat := endp;
        if raw[endp] == sep {
          after := endp + 1;
        } else if raw[endp] == NUL {
          done := true;
        } else if raw[endp] == QUOTE {
          nextp := endp;
          continue;
        } else {
          after := FindNonSpace(raw, endp, text);
          if raw[after] != NUL {
            starts, acc := [], [];
            return;
          }
          done := true;
        }
        starts, acc := WriteName(raw, startp, endp, starts, text, acc);
        nextp := after;
        startp := nextp;
      }
    }
  }

  /** Terminates the name that starts at startp and appends it. */
  method WriteName(raw: array<char>, startp: nat, endp: nat, starts: seq<nat>, ghost text: string, ghost acc: seq<string>)
    returns (starts': seq<nat>, ghost acc': seq<string>)
    requires startp <= endp <= |text| && Untouched(raw[..], text, startp) && Names(raw[..], starts, acc)
    requires forall i | 0 <= i < |starts| :: starts[i] + |acc[i]| < startp
    modifies raw
    ensures starts' == starts + [startp] && acc' == acc + [text[startp..endp]]
    ensures Names(raw[..], starts', acc') && Untouched(raw[..], text, endp + 1)
    ensures forall i | 0 <= i < |starts'| :: starts'[i] + |acc'[i]| <= endp
  {
    ghost var before := raw[..];
    raw[endp] := NUL;
    NamesFrame(before, raw[..], starts, acc, startp);
    starts', acc' := starts + [startp], acc + [text[startp..endp]];
    assert raw[startp..endp] == text[startp..endp];
  }

  // ---------------------------------------------------------------- splitting inverts joining

  function Join(names: seq<string>, sep: char): string
    requires names != []
  {
    if |names| == 1 then names[0] else names[0] + [sep] + Join(names[1..], sep)
  }

  /** Any character that cannot be part of a simple name, such as the dot and the at sign. */
  predicate Separator(sep: char) {
    sep != NUL && sep != QUOTE && !IsSpace(sep) && !NameCont(sep)
  }

  /** Reading a name from position i inside quotes: a quote followed by something else leaves, a doubled quote
      swallows one more character, and the name must not end inside. */
  predicate Inside(n: string, sep: char, i: nat)
    decreases |n| + 1 - i, 0
  {
    i < |n|
    && var e := StrChr(n, i);
       e < |n| && if e + 1 < |n| && n[e + 1] == QUOTE then Inside(n, sep, e + 3) else Outside(n, sep, e + 1)
  }

  /** Reading a name from position i outside quotes: separators and spaces would end it early, a quote enters. */
  predicate Outside(n: string, sep: char, i: nat)
    decreases |n| + 1 - i, 1
  {
    i >= |n|
    || (n[i] != sep && !IsSpace(n[i]) && if n[i] == QUOTE then Inside(n, sep, i + 1) else Outside(n, sep, i + 1))
  }

  /** The splitter reads the name as one, whatever surrounds it. */
  predicate ReadBack(n: string, sep: char) {
    Outside(n, sep, 0)
  }

  /** Where the name being read at position p, outside quotes, ends in the whole text. */
  function NameEnd(text: string, sep: char, p: nat): (r: ScanEnd)
    requires p <= |text|
    ensures r.At? ==> p <= r.pos <= |text|
    ensures r.At? && r.pos < |text| ==> text[r.pos] == sep || IsSpace(text[r.pos])
    decreases |text| - p
  {
    if p == |text| || text[p] == sep || IsSpace(text[p]) then At(p)
    else if text[p] == QUOTE then
      match QuoteEnd(text, p + 1)
      case At(e) => NameEnd(text, sep, e)
      case other => other
    else NameEnd(text, sep, p + 1)
  }

  /** The same from a position inside quotes. */
  function NameEndInside(text: string, sep: char, from: nat): (r: ScanEnd)
    ensures r.At? ==> from < r.pos <= |text|
  {
    match QuoteEnd(text, from)
    case At(e) => NameEnd(text, sep, e)
    case other => other
  }

  lemma {:induction false} NameEndSkips(text: string, sep: char, p: nat)
    requires p <= |text| && sep != QUOTE
    ensures NameEnd(text, sep, p) == NameEnd(text, sep, PlainEnd(text, sep, p))
    decreases |text| - p
  {
    if p < |text| && text[p] != sep && text[p] != QUOTE && !IsSpace(text[p]) {
      NameEndSkips(text, sep, p + 1);
    }
  }

  /** What the splitter does once the end of the current name is known. */
  function AfterName(text: string, sep: char, start: nat, end: ScanEnd, acc: seq<string>): SplitResult
    requires start <= |text| && (end.At? ==> start <= end.pos <= |text|)
  {
    match end
    case Overrun => RanOver
    case Unclosed => Listed(acc)
    case At(e) =>
      if start == e then Listed(acc)
      else if e < |text| && text[e] == sep then SplitFrom(text, sep, e + 1, e + 1, acc + [text[start..e]])
      else if SkipSpaces(text, e) == |text| then Listed(acc + [text[start..e]])
      else Listed([])
  }

  lemma {:induction false} SplitByNames(text: string, sep: char, start: nat, next: nat, acc: seq<string>)
    requires start <= next <= |text| && sep != QUOTE && !IsSpace(QUOTE)
    ensures SplitFrom(text, sep, start, next, acc) == AfterName(text, sep, start, NameEnd(text, sep, next), acc)
    decreases |text| - next
  {
    hide QuoteEnd, IsSpace;
    if next < |text| && text[next] == QUOTE {
      var e := QuoteEnd(text, next + 1);
      if e.At? {
        SplitByNames(text, sep, start, e.pos, acc);
      }
    } else {
      var e := PlainEnd(text, sep, next);
      NameEndSkips(text, sep, next);
      if start < e < |text| && text[e] == QUOTE && text[e] != sep {
        SplitByNames(text, sep, start, e, acc);
      }
    }
  }

  /** One step of a scan inside quotes. */
  lemma InsideStep(text: string, sep: char, from: nat)
    ensures var e := StrChr(text, from);
            NameEndInside(text, sep, from)
            == if from > |text| then Overrun
               else if e == |text| then Unclosed
               else if e + 1 < |text| && text[e + 1] == QUOTE then NameEndInside(text, sep, e + 3)
               else NameEnd(text, sep, e + 1)
  {
    hide StrChr, NameEnd;
  }

  /** The name read alone and the name read in the text agree, step by step. */
  lemma {:induction false} OutsideIff(text: string, sep: char, at: nat, end: nat, i: nat)
    requires at <= end <= |text| && Separator(sep) && (end < |text| ==> text[end] == sep || IsSpace(text[end]))
    requires at + i <= end
    ensures Outside(text[at..end], sep, i) <==> NameEnd(text, sep, at + i) == At(end)
    decreases end - at + 1 - i, 1
  {
    hide QuoteEnd, IsSpace, NameCont;
    var n := text[at..end];
    if i < |n| {
      assert n[i] == text[at + i];
      if n[i] == QUOTE {
        InsideIff(text, sep, at, end, i + 1);
      } else if n[i] != sep && !IsSpace(n[i]) {
        OutsideIff(text, sep, at, end, i + 1);
      }
    }
  }

  lemma {:induction false} InsideIff(text: string, sep: char, at: nat, end: nat, i: nat)
    requires at <= end <= |text| && Separator(sep) && (end < |text| ==> text[end] == sep || IsSpace(text[end]))
    requires at + i <= end + 1
    ensures Inside(text[at..end], sep, i) <==> NameEndInside(text, sep, at + i) == At(end)
    decreases end - at + 1 - i, 0
  {
    hide NameEnd, NameEndInside, IsSpace, NameCont, StrChr;
    SpacesAndQuotes();
    var n := text[at..end];
    InsideStep(text, sep, at + i);
    if i < |n| {
      StrChrIn(text, at, end, i);
      var e := StrChr(n, i);
      if e < |n| {
        if e + 1 < |n| && n[e + 1] == QUOTE {
          InsideIff(text, sep, at, end, e + 3);
        } else {
          OutsideIff(text, sep, at, end, e + 1);
        }
      }
    }
  }

  /** Nothing already listed changes, unless the whole list is dropped. */
  lemma {:induction false} SplitKeepsPrefix(text: string, sep: char, start: nat, next: nat, acc: seq<string>)
    requires start <= next <= |text|
    ensures var r := SplitFrom(text, sep, start, next, acc);
            r.Listed? ==> r.names == [] || acc <= r.names
    decreases |text| - next
  {
    if next < |text| && text[next] == QUOTE {
      var e := QuoteEnd(text, next + 1);
      if e.At? {
        SplitKeepsPrefix(text, sep, start, e.pos, acc);
      }
    } else {
      var e := PlainEnd(text, sep, next);
      if start < e < |text| {
        if text[e] == sep {
          SplitKeepsPrefix(text, sep, e + 1, e + 1, acc + [text[start..e]]);
        } else if text[e] == QUOTE {
          SplitKeepsPrefix(text, sep, start, e, acc);
        }
      }
    }
  }

  /** A name that is not read back spoils the list. */
  lemma MisreadName(text: string, sep: char, start: nat, end: nat, acc: seq<string>, names: seq<string>)
    requires start < end <= |text| && Separator(sep) && names != [] && names[0] == text[start..end]
    requires NameEnd(text, sep, start) != At(end)
    ensures SplitFrom(text, sep, start, start, acc) != Listed(acc + names)
  {
    hide NameEnd, SplitFrom, IsSpace, NameCont;
    SpacesAndQuotes();
    SplitByNames(text, sep, start, start, acc);
    var r := NameEnd(text, sep, start);
    if r.At? && r.pos != start {
      var x := text[start..r.pos];
      assert |x| != |names[0]| && (acc + names)[|acc|] == names[0];
      if r.pos < |text| && text[r.pos] == sep {
        SplitKeepsPrefix(text, sep, r.pos + 1, r.pos + 1, acc + [x]);
      }
      assert (acc + [x])[|acc|] == x;
    }
  }

  lemma SpacesAndQuotes()
    ensures !IsSpace(QUOTE)
  {
  }

  predicate AllSpaces(s: string) {
    forall k | 0 <= k < |s| :: IsSpace(s[k])
  }

  lemma SkipsToEnd(text: string, from: nat)
    requires from <= |text|
    ensures SkipSpaces(text, from) == |text| <==> AllSpaces(text[from..])
  {
    hide SkipSpaces, IsSpace;
    SkippedAreSpaces(text, from);
    if AllSpaces(text[from..]) {
      forall k | from <= k < |text|
        ensures IsSpace(text[k])
      {
        assert text[k] == text[from..][k - from];
      }
      SkipsExactly(text, from, |text|);
    }
  }

  ghost predicate AllReadBack(names: seq<string>, sep: char) {
    forall i | 0 <= i < |names| :: ReadBack(names[i], sep)
  }

  lemma ReadBackRest(names: seq<string>, sep: char)
    requires names != []
    ensures AllReadBack(names, sep) <==> ReadBack(names[0], sep) && AllReadBack(names[1..], sep)
  {
    hide ReadBack;
    assert forall i | 1 <= i < |names| :: names[i] == names[1..][i - 1];
  }

  /** The names from |pre| on, with trail behind them: blank, or spaces and something else. */
  lemma {:induction false} SplitJoinFrom(names: seq<string>, sep: char, pre: string, trail: string, acc: seq<string>)
    requires names != [] && Separator(sep) && (forall i | 0 <= i < |names| :: names[i] != [])
    requires trail == [] || IsSpace(trail[0])
    ensures var r := SplitFrom(pre + Join(names, sep) + trail, sep, |pre|, |pre|, acc);
            && (AllReadBack(names, sep) ==> r == if AllSpaces(trail) then Listed(acc + names) else Listed([]))
            && (r == Listed(acc + names) ==> AllReadBack(names, sep))
    decreases |names|
  {
    hide SplitFrom, ReadBack, NameEnd, IsSpace, NameCont, AllReadBack, AllSpaces, SkipSpaces;
    var text, end := pre + Join(names, sep) + trail, |pre| + |names[0]|;
    assert text[|pre|..end] == names[0];
    NameReadsBack(text, sep, |pre|, end);
    ReadBackRest(names, sep);
    if !ReadBack(names[0], sep) {
      MisreadName(text, sep, |pre|, end, acc, names);
    } else {
      SpacesAndQuotes();
      SplitByNames(text, sep, |pre|, |pre|, acc);
      if |names| == 1 {
        assert acc + [names[0]] == acc + names && text[end..] == trail;
        SkipsToEnd(text, end);
        NothingReadBack(names[1..], sep);
      } else {
        var pre' := pre + names[0] + [sep];
        assert text == pre' + Join(names[1..], sep) + trail;
        SplitJoinFrom(names[1..], sep, pre', trail, acc + [names[0]]);
        assert acc + [names[0]] + names[1..] == acc + names;
      }
    }
  }

  lemma NothingReadBack(names: seq<string>, sep: char)
    requires names == []
    ensures AllReadBack(names, sep)
  {
  }

  lemma NameReadsBack(text: string, sep: char, at: nat, end: nat)
    requires at <= end <= |text| && Separator(sep) && (end < |text| ==> text[end] == sep || IsSpace(text[end]))
    ensures ReadBack(text[at..end], sep) <==> NameEnd(text, sep, at) == At(end)
  {
    hide NameEnd, Outside;
    OutsideIff(text, sep, at, end, 0);
  }

  lemma {:induction false} SkipsLead(lead: string, text: string)
    requires AllSpaces(lead) && text != [] && !IsSpace(text[0])
    ensures SkipSpaces(lead + text, 0) == |lead|
  {
    SkipsExactly(lead + text, 0, |lead|);
  }

  lemma SimpleNameStarts(n: string)
    requires SimpleName(n)
    ensures n != [] && !IsSpace(n[0])
  {
  }

  lemma JoinStarts(names: seq<string>, sep: char)
    requires names != [] && forall i | 0 <= i < |names| :: SimpleName(names[i])
    ensures var text := Join(names, sep);
            text != [] && !IsSpace(text[0])
    ensures forall i | 0 <= i < |names| :: names[i] != []
  {
    hide SimpleName, IsSpace;
    forall i | 0 <= i < |names|
      ensures names[i] != []
    {
      SimpleNameStarts(names[i]);
    }
    SimpleNameStarts(names[0]);
  }

  /** Splitting the joined text of a list of names, with or without spaces around it, gives the list back, without
      leaving the buffer, if and only if every name alone is read back. */
  lemma SplitInvertsJoinIff(lead: string, names: seq<string>, trail: string, sep: char)
    requires names != [] && Separator(sep) && forall i | 0 <= i < |names| :: SimpleName(names[i])
    requires AllSpaces(lead) && AllSpaces(trail)
    ensures var text := lead + Join(names, sep) + trail;
            Split(text, sep) == Listed(names) <==> forall i | 0 <= i < |names| :: ReadBack(names[i], sep)
  {
    hide SplitFrom, ReadBack, SimpleName, IsSpace, Split;
    JoinStarts(names, sep);
    SplitAfterLead(lead, Join(names, sep) + trail, sep);
    assert lead + (Join(names, sep) + trail) == lead + Join(names, sep) + trail;
    assert trail == [] || IsSpace(trail[0]);
    SplitJoinFrom(names, sep, lead, trail, []);
    assert [] + names == names;
  }

  /** Anything but spaces behind a space that ends the last name, and no names are returned at all. */
  lemma JunkDropsAll(lead: string, names: seq<string>, trail: string, sep: char)
    requires names != [] && Separator(sep) && forall i | 0 <= i < |names| :: SimpleName(names[i])
    requires AllSpaces(lead) && trail != [] && IsSpace(trail[0]) && !AllSpaces(trail) && AllReadBack(names, sep)
    ensures Split(lead + Join(names, sep) + trail, sep) == Listed([])
  {
    hide SplitFrom, ReadBack, SimpleName, IsSpace, AllReadBack, Split;
    JoinStarts(names, sep);
    SplitAfterLead(lead, Join(names, sep) + trail, sep);
    assert lead + (Join(names, sep) + trail) == lead + Join(names, sep) + trail;
    SplitJoinFrom(names, sep, lead, trail, []);
  }

  /** After the names and a separator the run goes on with what follows. */
  lemma {:induction false} SplitGoesOn(names: seq<string>, sep: char, pre: string, rest: string, acc: seq<string>)
    requires names != [] && Separator(sep) && (forall i | 0 <= i < |names| :: names[i] != []) && AllReadBack(names, sep)
    ensures var text, p := pre + Join(names, sep) + [sep] + rest, |pre| + |Join(names, sep)| + 1;
            SplitFrom(text, sep, |pre|, |pre|, acc) == SplitFrom(text, sep, p, p, acc + names)
    decreases |names|
  {
    hide SplitFrom, ReadBack, NameEnd, IsSpace, NameCont, AllReadBack;
    var text, end := pre + Join(names, sep) + [sep] + rest, |pre| + |names[0]|;
    assert text[|pre|..end] == names[0];
    NameReadsBack(text, sep, |pre|, end);
    ReadBackRest(names, sep);
    SpacesAndQuotes();
    SplitByNames(text, sep, |pre|, |pre|, acc);
    if |names| == 1 {
      assert acc + [names[0]] == acc + names;
    } else {
      var pre' := pre + names[0] + [sep];
      assert text == pre' + Join(names[1..], sep) + [sep] + rest;
      SplitGoesOn(names[1..], sep, pre', rest, acc + [names[0]]);
      assert acc + [names[0]] + names[1..] == acc + names;
    }
  }

  /** An empty name or an unclosed quote stops the run, and the names before it are returned. */
  lemma SplitStops(lead: string, names: seq<string>, rest: string, sep: char)
    requires names != [] && Separator(sep) && forall i | 0 <= i < |names| :: SimpleName(names[i])
    requires AllSpaces(lead) && AllReadBack(names, sep)
    requires rest == [] || rest[0] == sep || IsSpace(rest[0]) || (rest[0] == QUOTE && QUOTE !in rest[1..])
    ensures Split(lead + Join(names, sep) + [sep] + rest, sep) == Listed(names)
  {
    hide ReadBack, SimpleName, AllReadBack, SplitFrom, IsSpace, AllSpaces, Split;
    var joined := Join(names, sep);
    JoinStarts(names, sep);
    SplitAfterLead(lead, joined + [sep] + rest, sep);
    Regroup(lead, joined, [sep], rest);
    SplitGoesOn(names, sep, lead, rest, []);
    assert [] + names == names;
    StopsHere(lead + joined + [sep] + rest, sep, |lead| + |joined| + 1, names);
  }

  lemma Regroup(a: string, b: string, c: string, d: string)
    ensures a + (b + c + d) == a + b + c + d
    ensures |a| + |b| + |c| <= |a + b + c + d| && (a + b + c + d)[|a| + |b| + |c|..] == d
  {
  }

  lemma SplitAfterLead(lead: string, text: string, sep: char)
    requires AllSpaces(lead) && text != [] && !IsSpace(text[0])
    ensures Split(lead + text, sep) == SplitFrom(lead + text, sep, |lead|, |lead|, [])
  {
    hide SplitFrom;
    SkipsLead(lead, text);
  }

  lemma StopsHere(text: string, sep: char, p: nat, acc: seq<string>)
    requires p <= |text| && sep != QUOTE
    requires p < |text| ==> text[p] == sep || IsSpace(text[p]) || (text[p] == QUOTE && QUOTE !in text[p..][1..])
    ensures SplitFrom(text, sep, p, p, acc) == Listed(acc)
  {
    SpacesAndQuotes();
    if p < |text| && text[p] == QUOTE {
      forall k | p + 1 <= k < |text|
        ensures text[k] != QUOTE
      {
        assert text[k] == text[p..][1..][k - p - 1];
      }
      StrChrSkips(text, p + 1, |text|);
    }
  }

  /** No doubled quote is followed directly by a third one. */
  predicate NoTripleQuote(r: string) {
    forall i | 0 <= i < |r| - 2 :: !(r[i] == QUOTE && r[i + 1] == QUOTE && r[i + 2] == QUOTE)
  }

  /** Plain names are read back, and so are quoted names in which no doubled quote touches another quote. */
  lemma CommonNamesReadBack(n: string, sep: char)
    requires SimpleName(n) && Separator(sep) && (n[0] == QUOTE ==> NoTripleQuote(n[1..]))
    ensures ReadBack(n, sep)
  {
    if n[0] == QUOTE {
      assert !IsSpace(QUOTE);
      QuotedReadsBack(n, sep, 1);
    } else {
      PlainReadsBack(n, sep, 0);
    }
  }

  lemma {:induction false} PlainReadsBack(n: string, sep: char, i: nat)
    requires Separator(sep) && i <= |n| && forall k | 0 <= k < |n| :: NameCont(n[k])
    ensures Outside(n, sep, i)
    decreases |n| - i
  {
    if i < |n| {
      PlainReadsBack(n, sep, i + 1);
    }
  }

  lemma {:induction false} QuotedReadsBack(n: string, sep: char, i: nat)
    requires i <= |n| && QuotedBody(n[i..], QUOTE) && NoTripleQuote(n[i..])
    ensures Inside(n, sep, i)
    decreases |n| - i
  {
    var r := n[i..];
    if r[0] != QUOTE {
      assert r[1..] == n[i + 1..];
      QuotedReadsBack(n, sep, i + 1);
      assert StrChr(n, i) == StrChr(n, i + 1);
    } else if |r| > 1 {
      assert r[2..][0] == r[2] && r[2] != QUOTE;
      assert r[2..][1..] == r[3..] == n[i + 3..];
      QuotedReadsBack(n, sep, i + 3);
    }
  }

  /** A name that ends with a doubled quote is accepted by the check but lost by the splitter. */
  lemma TripleQuoteIsLost() returns (n: string)
    ensures SimpleName(n) && !ReadBack(n, '.') && Split(n, '.') == Listed([])
  {
    n := ['\"', 'a', '\"', '\"', '\"'];
    assert n[1..][1..] == ['\"', '\"', '\"'] && n[1..][1..][2..] == ['\"'];
    assert StrChr(n, 1) == StrChr(n, 2) == 2;
    assert StrChr(n, 5) == 5;
    assert QuoteEnd(n, 5).Unclosed?;
    assert QuoteEnd(n, 1).Unclosed?;
    assert SkipSpaces(n, 0) == 0;
    assert SplitFrom(n, '.', 0, 0, []) == Listed([]);
    assert !Inside(n, '.', 5) && !Inside(n, '.', 1);
  }
}
