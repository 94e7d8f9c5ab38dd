/** SQL names and literals of contrib/gms_assert: checking, quoting and trimming.
    Strings are C strings: the terminator is not part of the text. */
module SqlNames {
  import opened Wrappers

  const NUL := '\0'
  const QUOTE := '\"'
  const TICK := '\''

  predicate IsSpace(c: char) {
    c == ' ' || 9 <= c as int <= 13
  }

  predicate NameStart(c: char) {
    'a' <= c <= 'z' || 'A' <= c <= 'Z' || c == '_' || 128 <= c as int <= 255
  }

  predicate NameCont(c: char) {
    NameStart(c) || '0' <= c <= '9' || c == '$' || c == '#'
  }

  function SkipSpaces(text: string, from: nat): (e: nat)
    requires from <= |text|
    ensures from <= e <= |text|
    decreases |text| - from
  {
    if from < |text| && IsSpace(text[from]) then SkipSpaces(text, from + 1) else from
  }

  // ---------------------------------------------------------------- quoted text

  /** s with every m doubled. */
  function Doubled(s: string, m: char): string {
    if s == [] then [] else (if s[0] == m then [m, m] else [s[0]]) + Doubled(s[1..], m)
  }

  /** What follows an opening mark: doubled marks and other characters, up to a closing mark at the very end. */
  predicate QuotedBody(r: string, m: char) {
    if r == [] then false
    else if r[0] != m then QuotedBody(r[1..], m)
    else if |r| == 1 then true
    else r[1] == m && QuotedBody(r[2..], m)
  }

  /** A quoted body is exactly some text with its marks doubled, and a closing mark. */
  lemma {:induction false} QuotedBodyIsDoubled(r: string, m: char) returns (s: string)
    requires QuotedBody(r, m)
    ensures r == Doubled(s, m) + [m]
  {
    if r[0] != m {
      var t := QuotedBodyIsDoubled(r[1..], m);
      s := [r[0]] + t;
      assert s[1..] == t && r == [r[0]] + r[1..];
    } else if |r| == 1 {
      s := [];
    } else {
      var t := QuotedBodyIsDoubled(r[2..], m);
      s := [m] + t;
      assert s[1..] == t && r == [m, m] + r[2..];
    }
  }

  lemma {:induction false} DoubledIsQuotedBody(s: string, m: char)
    ensures QuotedBody(Doubled(s, m) + [m], m)
  {
    if s != [] {
      DoubledIsQuotedBody(s[1..], m);
      var r := Doubled(s, m) + [m];
      if s[0] == m {
        assert r[2..] == Doubled(s[1..], m) + [m];
      } else {
        assert r[1..] == Doubled(s[1..], m) + [m];
      }
    }
  }

  predicate SimpleName(s: string) {
    if s == [] then false
    else if s[0] == QUOTE then QuotedBody(s[1..], QUOTE)
    else NameStart(s[0]) && forall i | 0 <= i < |s| :: NameCont(s[i])
  }

  /** Accepted names: any text between quotes with its quotes doubled, or an identifier. */
  lemma SimpleNameIff(s: string)
    ensures SimpleName(s) <==>
            || (exists t :: s == [QUOTE] + Doubled(t, QUOTE) + [QUOTE])
            || (s != [] && !('0' <= s[0] <= '9' || s[0] == '$' || s[0] == '#')
                && forall c | c in s :: 'a' <= c <= 'z' || 'A' <= c <= 'Z' || '0' <= c <= '9' || c == '_' || c == '$'
                                        || c == '#' || 128 <= c as int <= 255)
  {
    QuotedIff(s, QUOTE);
    assert forall i | 0 <= i < |s| :: s[i] in s;
  }

  lemma QuotedIff(s: string, m: char)
    ensures s != [] && s[0] == m && QuotedBody(s[1..], m) <==> exists t :: s == [m] + Doubled(t, m) + [m]
  {
    hide QuotedBody;
    if s != [] && s[0] == m && QuotedBody(s[1..], m) {
      var t := QuotedBodyIsDoubled(s[1..], m);
      assert s == [m] + Doubled(t, m) + [m];
    }
    if t :| s == [m] + Doubled(t, m) + [m] {
      assert s[1..] == Doubled(t, m) + [m];
      DoubledIsQuotedBody(t, m);
    }
  }

  method SimpleNameInternal(s: string) returns (ok: bool)
    ensures ok == SimpleName(s)
  {
    if |s| == 0 {
      return false;
    }
    if s[0] == QUOTE {
      var ptr := 1;
      while ptr < |s|
        invariant 1 <= ptr <= |s|
        invariant QuotedBody(s[1..], QUOTE) == QuotedBody(s[ptr..], QUOTE)
      {
        if s[ptr] == QUOTE {
          if ptr + 1 == |s| {
            return true;
          }
          if s[ptr + 1] != QUOTE {
            return false;
          }
          assert s[ptr..][2..] == s[ptr + 2..];
          ptr := ptr + 1;
        } else {
          assert s[ptr..][1..] == s[ptr + 1..];
        }
        ptr := ptr + 1;
      }
      return false;
    }
    if !NameStart(s[0]) {
      return false;
    }
    for ptr := 0 to |s|
      invariant forall i | 0 <= i < ptr :: NameCont(s[i])
    {
      if !NameCont(s[ptr]) {
        return false;
      }
    }
    return true;
  }

  // ---------------------------------------------------------------- quoting

  /** Text between two marks, with the marks inside it doubled. */
  predicate WellQuoted(s: string, m: char) {
    |s| >= 2 && s[0] == m && QuotedBody(s[1..], m)
  }

  function QuoteString(s: string, m: char): string {
    [m] + s + [m]
  }

  /** Every mark is doubled: the text can be put between marks as it stands. */
  predicate AllDoubled(r: string, m: char) {
    r == [] || (if r[0] == m then |r| > 1 && r[1] == m && AllDoubled(r[2..], m) else AllDoubled(r[1..], m))
  }

  lemma {:induction false} QuotingDoubled(r: string, m: char)
    requires AllDoubled(r, m)
    ensures QuotedBody(r + [m], m)
  {
    if r != [] {
      if r[0] == m {
        assert (r + [m])[2..] == r[2..] + [m];
        QuotingDoubled(r[2..], m);
      } else {
        assert (r + [m])[1..] == r[1..] + [m];
        QuotingDoubled(r[1..], m);
      }
    }
  }

  lemma {:induction false} DoubledIsAllDoubled(t: string, m: char)
    ensures AllDoubled(Doubled(t, m), m)
  {
    if t != [] {
      DoubledIsAllDoubled(t[1..], m);
      var r := Doubled(t, m);
      assert t[0] == m ==> r[2..] == Doubled(t[1..], m);
      assert t[0] != m ==> r[1..] == Doubled(t[1..], m);
    }
  }

  lemma AllDoubledIff(r: string, m: char)
    ensures AllDoubled(r, m) <==> exists t :: r == Doubled(t, m)
  {
    hide AllDoubled, Doubled;
    if AllDoubled(r, m) {
      QuotingDoubled(r, m);
      var t := QuotedBodyIsDoubled(r + [m], m);
      assert r == (r + [m])[..|r|] == Doubled(t, m);
    }
    if t :| r == Doubled(t, m) {
      DoubledIsAllDoubled(t, m);
    }
  }

  /** A missing argument is the empty literal; a quoted literal stays, one whose ticks are doubled is quoted, and
      anything else is an error. */
  function Literal(arg: Option<string>): Result<string> {
    if arg.None? then Ok([TICK, TICK])
    else if WellQuoted(arg.value, TICK) then Ok(arg.value)
    else if (arg.value == [] || arg.value[0] != TICK) && AllDoubled(arg.value, TICK) then
      Ok(QuoteString(arg.value, TICK))
    else Error
  }

  method EnquoteLiteral(arg: Option<string>) returns (r: Result<string>)
    ensures r == Literal(arg)
  {
    if arg.None? {
      return Ok([TICK, TICK]);
    }
    var s := arg.value;
    var quoteHead := |s| > 0 && s[0] == TICK;
    var quoteTail := false;
    var ptr := if quoteHead then 1 else 0;
    ghost var first := ptr;
    while ptr < |s|
      invariant first <= ptr <= |s|
      invariant QuotedBody(s[first..], TICK) == QuotedBody(s[ptr..], TICK)
      invariant AllDoubled(s[first..], TICK) == AllDoubled(s[ptr..], TICK)
    {
      if s[ptr] == TICK {
        if ptr + 1 == |s| {
          quoteTail := true;
          break;
        }
        if s[ptr + 1] != TICK {
          EnquoteCases(s);
          return Error;
        }
        assert s[ptr..][2..] == s[ptr + 2..];
        ptr := ptr + 1;
      } else {
        assert s[ptr..][1..] == s[ptr + 1..];
      }
      ptr := ptr + 1;
    }
    EnquoteCases(s);
    if quoteHead && quoteTail {
      return Ok(s);
    } else if quoteHead || quoteTail {
      return Error;
    }
    return Ok(QuoteString(s, TICK));
  }

  lemma EnquoteCases(s: string)
    ensures s[0..] == s
    ensures s != [] && s[0] == TICK ==> WellQuoted(s, TICK) == QuotedBody(s[1..], TICK)
  {
  }

  /** A name is put between quotes unless it starts with one, and must then be a simple name; upper is the
      server's capitalisation. */
  function Name(arg: Option<string>, capitalize: bool, upper: string -> string): Result<string> {
    if arg.None? then Ok([QUOTE, QUOTE])
    else
      var s := arg.value;
      var quoted := if s != [] && s[0] == QUOTE then s
                    else QuoteString(if capitalize then upper(s) else s, QUOTE);
      if SimpleName(quoted) then Ok(quoted) else Error
  }

  method EnquoteName(arg: Option<string>, capitalize: bool, upper: string -> string) returns (r: Result<string>)
    ensures r == Name(arg, capitalize, upper)
  {
    if arg.None? {
      return Ok([QUOTE, QUOTE]);
    }
    var result := arg.value;
    if result == [] || result[0] != QUOTE {
      result := QuoteString(if capitalize then upper(result) else result, QUOTE);
    }
    var ok := SimpleNameInternal(result);
    if ok {
      return Ok(result);
    }
    return Error;
  }

  /** A literal stays when it is some text between ticks with its ticks doubled, gets ticks when it is such a text
      without them, and is refused otherwise. */
  lemma LiteralIff(s: string)
    ensures Literal(Some(s)) ==
            if exists t :: s == [TICK] + Doubled(t, TICK) + [TICK] then Ok(s)
            else if (s == [] || s[0] != TICK) && exists t :: s == Doubled(t, TICK) then Ok([TICK] + s + [TICK])
            else Error
    ensures Literal(None) == Ok([TICK, TICK])
  {
    hide AllDoubled, Doubled;
    QuotedIff(s, TICK);
    AllDoubledIff(s, TICK);
    if |s| == 1 {
      assert s[1..] == [];
    }
  }

  /** A name that starts with a quote stays when it is some text between quotes with its quotes doubled, any other is
      capitalised on request and quoted when its quotes are doubled, and the rest is refused. */
  lemma NameIff(s: string, capitalize: bool, upper: string -> string)
    ensures Name(Some(s), capitalize, upper) ==
            var u := if capitalize then upper(s) else s;
            if s != [] && s[0] == QUOTE then
              if exists t :: s == [QUOTE] + Doubled(t, QUOTE) + [QUOTE] then Ok(s) else Error
            else if exists t :: u == Doubled(t, QUOTE) then Ok([QUOTE] + u + [QUOTE])
            else Error
    ensures Name(None, capitalize, upper) == Ok([QUOTE, QUOTE])
  {
    hide Doubled, QuotedBody;
    QuotedIff(s, QUOTE);
    if s == [] || s[0] != QUOTE {
      var u := if capitalize then upper(s) else s;
      var quoted := [QUOTE] + u + [QUOTE];
      QuotedIff(quoted, QUOTE);
      if t :| quoted == [QUOTE] + Doubled(t, QUOTE) + [QUOTE] {
        assert u == quoted[1..|quoted| - 1] == Doubled(t, QUOTE);
      }
      if t :| u == Doubled(t, QUOTE) {
        assert quoted == [QUOTE] + Doubled(t, QUOTE) + [QUOTE];
      }
    }
  }

  /** What either function returns is well quoted, and is returned unchanged when they are called on it again. */
  lemma EnquotingIsIdempotent(arg: Option<string>, capitalize: bool, upper: string -> string)
    ensures var r := Literal(arg);
            r.Ok? ==> WellQuoted(r.value, TICK) && Literal(Some(r.value)) == r
    ensures var r := Name(arg, capitalize, upper);
            r.Ok? ==> WellQuoted(r.value, QUOTE) && Name(Some(r.value), capitalize, upper) == r
  {
    hide AllDoubled;
    if arg.Some? && AllDoubled(arg.value, TICK) {
      QuotingDoubled(arg.value, TICK);
      assert QuoteString(arg.value, TICK)[1..] == arg.value + [TICK];
    }
  }

  /** End of the quoted stretch whose opening quote is just before from: the next quote. */
  function ClosingQuote(raw: string, from: nat): (r: Option<nat>)
    requires from <= |raw|
    ensures r.Some? ==> from <= r.value < |raw| && raw[r.value] == QUOTE
    decreases |raw| - from
  {
    if from == |raw| then None else if raw[from] == QUOTE then Some(from) else ClosingQuote(raw, from + 1)
  }

  /** First space outside quotes, or the end; none when a quote is left open. */
  function TokenEnd(raw: string, from: nat): (r: Option<nat>)
    requires from <= |raw|
    ensures r.Some? ==> from <= r.value <= |raw|
    decreases |raw| - from
  {
    if from == |raw| || IsSpace(raw[from]) then Some(from)
    else if raw[from] == QUOTE then
      var close := ClosingQuote(raw, from + 1);
      if close.None? then None else TokenEnd(raw, close.value + 1)
    else TokenEnd(raw, from + 1)
  }

  /** The single token of the text without surrounding spaces, or none. */
  function Trim(raw: string): Option<string> {
    var head := SkipSpaces(raw, 0);
    var tail := TokenEnd(raw, head);
    if tail.None? || SkipSpaces(raw, tail.value) < |raw| then None else Some(raw[head..tail.value])
  }

  method TrimSqlName(raw: string) returns (r: Option<string>)
    ensures r == Trim(raw)
  {
    var ptr := 0;
    while ptr < |raw| && IsSpace(raw[ptr])
      invariant ptr <= |raw| && SkipSpaces(raw, ptr) == SkipSpaces(raw, 0)
    {
      ptr := ptr + 1;
    }
    var head := ptr;
    while ptr < |raw| && !IsSpace(raw[ptr])
      invariant head <= ptr <= |raw| && TokenEnd(raw, ptr) == TokenEnd(raw, head)
      decreases |raw| - ptr
    {
      if raw[ptr] == QUOTE {
        ghost var open := ptr;
        ptr := ptr + 1;
        while ptr < |raw| && raw[ptr] != QUOTE
          invariant open < ptr <= |raw| && ClosingQuote(raw, ptr) == ClosingQuote(raw, open + 1)
        {
          ptr := ptr + 1;
        }
        if ptr == |raw| {
          return None;
        }
      }
      ptr := ptr + 1;
    }
    var tail := ptr;
    while ptr < |raw| && IsSpace(raw[ptr])
      invariant tail <= ptr <= |raw| && SkipSpaces(raw, ptr) == SkipSpaces(raw, tail)
    {
      ptr := ptr + 1;
    }
    if ptr < |raw| {
      return None;
    }
    return Some(raw[head..tail]);
  }

  /** A quoted body closes its last quote exactly at the end. */
  lemma {:induction false} TokenEndOfQuoted(raw: string, from: nat)
    requires from < |raw| && raw[from] == QUOTE && QuotedBody(raw[from + 1..], QUOTE)
    ensures TokenEnd(raw, from) == Some(|raw|)
    decreases |raw| - from
  {
    var close := ClosingOfBody(raw, from + 1);
    if close + 1 < |raw| {
      TokenEndOfQuoted(raw, close + 1);
    }
  }

  lemma {:induction false} ClosingOfBody(raw: string, from: nat) returns (close: nat)
    requires from <= |raw| && QuotedBody(raw[from..], QUOTE)
    ensures close < |raw| && ClosingQuote(raw, from) == Some(close)
    ensures close + 1 == |raw| || (raw[close + 1] == QUOTE && QuotedBody(raw[close + 2..], QUOTE))
    decreases |raw| - from
  {
    if raw[from] == QUOTE {
      close := from;
      if close + 1 < |raw| {
        assert raw[from..][2..] == raw[close + 2..];
      }
    } else {
      assert raw[from..][1..] == raw[from + 1..];
      close := ClosingOfBody(raw, from + 1);
    }
  }

  /** Well-quoted names, and so all results of quoting, are left alone by trimming. */
  lemma TrimKeepsWellQuoted(raw: string)
    requires WellQuoted(raw, QUOTE)
    ensures Trim(raw) == Some(raw)
  {
    TokenEndOfQuoted(raw, 0);
    assert raw[0..|raw|] == raw;
  }

  lemma {:induction false} SkippedAreSpaces(raw: string, from: nat)
    requires from <= |raw|
    ensures forall k | from <= k < SkipSpaces(raw, from) :: IsSpace(raw[k])
    ensures SkipSpaces(raw, from) < |raw| ==> !IsSpace(raw[SkipSpaces(raw, from)])
    decreases |raw| - from
  {
    if from < |raw| && IsSpace(raw[from]) {
      SkippedAreSpaces(raw, from + 1);
    }
  }

  /** Outside i to j there are only spaces, and the part kept does not start with one. */
  predicate TrimmedTo(raw: string, i: int, j: int) {
    && 0 <= i <= j <= |raw|
    && (forall k | 0 <= k < i :: IsSpace(raw[k]))
    && (forall k | j <= k < |raw| :: IsSpace(raw[k]))
    && (i < j ==> !IsSpace(raw[i]))
  }

  /** Trimming drops nothing but surrounding spaces. */
  lemma TrimDropsOnlySpaces(raw: string)
    requires Trim(raw).Some?
    ensures exists i, j :: TrimmedTo(raw, i, j) && Trim(raw).value == raw[i..j]
  {
    var head := SkipSpaces(raw, 0);
    var tail := TokenEnd(raw, head).value;
    SkippedAreSpaces(raw, 0);
    SkippedAreSpaces(raw, tail);
    assert TrimmedTo(raw, head, tail);
  }

  // ---------------------------------------------------------------- exactly which texts are trimmed

  function Quotes(s: string): nat {
    if s == [] then 0 else (if s[0] == QUOTE then 1 else 0) + Quotes(s[1..])
  }

  /** One token: quotes come in pairs, and spaces only between the quotes of a pair. */
  predicate Token(t: string) {
    Quotes(t) % 2 == 0 && forall k | 0 <= k < |t| && IsSpace(t[k]) :: Quotes(t[..k]) % 2 == 1
  }

  lemma {:induction false} QuotesConcat(a: string, b: string)
    ensures Quotes(a + b) == Quotes(a) + Quotes(b)
  {
    if a == [] {
      assert a + b == b;
    } else {
      assert (a + b)[1..] == a[1..] + b;
      QuotesConcat(a[1..], b);
    }
  }

  lemma TokenConcat(a: string, b: string)
    requires Token(a)
    ensures Token(a + b) <==> Token(b)
  {
    hide Quotes, IsSpace;
    QuotesConcat(a, b);
    forall k | 0 <= k < |b|
      ensures (a + b)[|a| + k] == b[k] && Quotes((a + b)[..|a| + k]) == Quotes(a) + Quotes(b[..k])
    {
      assert (a + b)[..|a| + k] == a + b[..k];
      QuotesConcat(a, b[..k]);
    }
    forall k | 0 <= k < |a|
      ensures (a + b)[k] == a[k] && (a + b)[..k] == a[..k]
    {
    }
    if Token(a + b) {
      forall k | 0 <= k < |b| && IsSpace(b[k])
        ensures Quotes(b[..k]) % 2 == 1
      {
        assert IsSpace((a + b)[|a| + k]);
      }
    }
    if Token(b) {
      forall k | 0 <= k < |a + b| && IsSpace((a + b)[k])
        ensures Quotes((a + b)[..k]) % 2 == 1
      {
        if k >= |a| {
          assert IsSpace(b[k - |a|]);
        }
      }
    }
  }

  lemma {:induction false} NoQuotes(s: string)
    requires QUOTE !in s
    ensures Quotes(s) == 0
  {
    if s != [] {
      NoQuotes(s[1..]);
    }
  }

  /** An opening quote and what follows up to a place before the next one. */
  lemma OneQuote(s: string)
    requires s != [] && s[0] == QUOTE && QUOTE !in s[1..]
    ensures Quotes(s) == 1
  {
    NoQuotes(s[1..]);
  }

  lemma QuotedIsToken(s: string)
    requires |s| >= 2 && s[0] == QUOTE && s[|s| - 1] == QUOTE && forall k | 0 < k < |s| - 1 :: s[k] != QUOTE
    ensures Token(s)
  {
    var init := s[..|s| - 1];
    assert s == init + [QUOTE];
    OneQuote(init);
    QuotesConcat(init, [QUOTE]);
    assert Quotes([QUOTE]) == 1;
    forall k | 0 <= k < |s| && IsSpace(s[k])
      ensures Quotes(s[..k]) % 2 == 1
    {
      assert 0 < k < |s| - 1;
      OneQuote(s[..k]);
    }
  }

  lemma {:induction false} ClosingIsNext(raw: string, from: nat)
    requires from <= |raw|
    ensures var c := ClosingQuote(raw, from);
            QUOTE !in raw[from..if c.None? then |raw| else c.value]
    decreases |raw| - from
  {
    if from < |raw| && raw[from] != QUOTE {
      ClosingIsNext(raw, from + 1);
      var c := ClosingQuote(raw, from);
      var e := if c.None? then |raw| else c.value;
      assert raw[from..e] == [raw[from]] + raw[from + 1..e];
    }
  }

  /** The end of the token from a position on is the one place where a token ends before a space or the end. */
  lemma {:induction false} TokenEndIff(raw: string, from: nat, j: nat)
    requires from <= j <= |raw|
    ensures TokenEnd(raw, from) == Some(j) <==> Token(raw[from..j]) && (j == |raw| || IsSpace(raw[j]))
    decreases |raw| - from
  {
    if from == |raw| || IsSpace(raw[from]) {
      SpaceEndsToken(raw, from, j);
    } else if raw[from] == QUOTE {
      QuotedTokenEnd(raw, from, j);
    } else if j > from {
      hide Quotes, IsSpace;
      TokenEndIff(raw, from + 1, j);
      assert raw[from..j] == [raw[from]] + raw[from + 1..j];
      PlainIsToken(raw[from]);
      TokenConcat([raw[from]], raw[from + 1..j]);
    }
  }

  lemma PlainIsToken(c: char)
    requires c != QUOTE && !IsSpace(c)
    ensures Token([c])
  {
  }

  lemma SpaceEndsToken(raw: string, from: nat, j: nat)
    requires from <= j <= |raw| && (from == |raw| || IsSpace(raw[from]))
    ensures j == from <==> Token(raw[from..j]) && (j == |raw| || IsSpace(raw[j]))
  {
    if j > from {
      var t := raw[from..j];
      assert IsSpace(t[0]) && t[..0] == [];
    }
  }

  lemma EndBehindQuotes(raw: string, from: nat)
    requires from < |raw| && raw[from] == QUOTE
    ensures var close := ClosingQuote(raw, from + 1);
            TokenEnd(raw, from) == if close.None? then None else TokenEnd(raw, close.value + 1)
  {
  }

  lemma {:induction false} QuotedTokenEnd(raw: string, from: nat, j: nat)
    requires from <= j <= |raw| && from < |raw| && raw[from] == QUOTE && !IsSpace(QUOTE)
    ensures TokenEnd(raw, from) == Some(j) <==> Token(raw[from..j]) && (j == |raw| || IsSpace(raw[j]))
    decreases |raw| - from, 0
  {
    hide Quotes, IsSpace, ClosingQuote, TokenEnd;
    var close := ClosingQuote(raw, from + 1);
    var e := if close.None? then |raw| else close.value;
    ClosingIsNext(raw, from + 1);
    EndBehindQuotes(raw, from);
    if j <= e {
      OpenIsNoToken(raw, from, e, j);
    } else {
      hide Token;
      TokenEndIff(raw, e + 1, j);
      PairIsToken(raw, from, e, j);
    }
  }

  /** Between an opening quote and the next one no token ends. */
  lemma OpenIsNoToken(raw: string, from: nat, e: nat, j: nat)
    requires from < |raw| && raw[from] == QUOTE && from < e <= |raw| && QUOTE !in raw[from + 1..e] && from <= j <= e
    ensures !(Token(raw[from..j]) && (j == |raw| || IsSpace(raw[j])))
  {
    if j > from {
      hide Quotes, IsSpace;
      var t := raw[from..j];
      assert t[1..] == raw[from + 1..e][..j - from - 1];
      OneQuote(t);
    }
  }

  /** A quoted stretch in front does not change whether a text is a token. */
  lemma PairIsToken(raw: string, from: nat, e: nat, j: nat)
    requires from < e < j <= |raw| && raw[from] == QUOTE && raw[e] == QUOTE && QUOTE !in raw[from + 1..e]
    ensures Token(raw[from..j]) <==> Token(raw[e + 1..j])
  {
    hide Token;
    var pair := raw[from..e + 1];
    forall k | 0 < k < |pair| - 1
      ensures pair[k] != QUOTE
    {
      assert pair[k] == raw[from + 1..e][k - 1];
    }
    QuotedIsToken(pair);
    assert raw[from..j] == pair + raw[e + 1..j];
    TokenConcat(pair, raw[e + 1..j]);
  }

  lemma {:induction false} SkipsExactly(raw: string, from: nat, to: nat)
    requires from <= to <= |raw| && (forall k | from <= k < to :: IsSpace(raw[k]))
    requires to < |raw| ==> !IsSpace(raw[to])
    ensures SkipSpaces(raw, from) == to
    decreases |raw| - from
  {
    if from < to {
      SkipsExactly(raw, from + 1, to);
    }
  }

  /** Trimming returns exactly the token that is the whole text but for surrounding spaces. */
  lemma TrimIff(raw: string, t: string)
    ensures Trim(raw) == Some(t) <==> exists i, j :: TrimmedTo(raw, i, j) && t == raw[i..j] && Token(t)
  {
    hide Token, IsSpace, TokenEnd, SkipSpaces;
    var head := SkipSpaces(raw, 0);
    SkippedAreSpaces(raw, 0);
    if Trim(raw) == Some(t) {
      var tail := TokenEnd(raw, head).value;
      SkippedAreSpaces(raw, tail);
      TokenEndIff(raw, head, tail);
      assert TrimmedTo(raw, head, tail);
    }
    if i, j :| TrimmedTo(raw, i, j) && t == raw[i..j] && Token(t) {
      if i < j {
        SkipsExactly(raw, 0, i);
        TokenEndIff(raw, i, j);
      } else {
        SkipsExactly(raw, 0, |raw|);
        TokenEndIff(raw, |raw|, |raw|);
        assert raw[|raw|..|raw|] == t;
      }
      SkipsExactly(raw, if i < j then j else |raw|, |raw|);
    }
  }
}
