/** Variable-length GiST keys of contrib/btree_gist for bytea: the byte order, the truncated node keys, and
    what a node key still promises about the values beneath it. */
module VarKey {
  import opened Wrappers
  import opened Multibyte

  type Bytea = seq<Byte>

  // ---------------------------------------------------------------- byte-wise order

  predicate Le(a: Bytea, b: Bytea) {
    a == [] || (b != [] && (a[0] < b[0] || (a[0] == b[0] && Le(a[1..], b[1..]))))
  }

  /** Three-way comparison: bytes first, then length. */
  function Cmp(a: Bytea, b: Bytea): int {
    if a == b then 0 else if Le(a, b) then -1 else 1
  }

  function CommonPrefix(a: Bytea, b: Bytea): nat {
    if a == [] || b == [] || a[0] != b[0] then 0 else 1 + CommonPrefix(a[1..], b[1..])
  }

  function Take(a: Bytea, n: nat): Bytea {
    if |a| <= n then a else a[..n]
  }

  /** Byte-wise order: a string comes before its extensions, and otherwise the first different byte decides. */
  lemma {:induction false} LeIff(a: Bytea, b: Bytea)
    ensures Le(a, b) <==> a <= b || exists i | 0 <= i < |a| && i < |b| :: a[..i] == b[..i] && a[i] < b[i]
  {
    if a != [] && b != [] {
      if a[0] == b[0] {
        LeIff(a[1..], b[1..]);
        if i :| 0 <= i < |a| - 1 && i < |b| - 1 && a[1..][..i] == b[1..][..i] && a[1..][i] < b[1..][i] {
          assert a[..i + 1] == [a[0]] + a[1..][..i] && b[..i + 1] == [b[0]] + b[1..][..i];
          assert a[i + 1] < b[i + 1];
        }
        if i :| 0 <= i < |a| && i < |b| && a[..i] == b[..i] && a[i] < b[i] {
          assert a[1..][..i - 1] == a[..i][1..] && b[1..][..i - 1] == b[..i][1..];
          assert a[1..][i - 1] < b[1..][i - 1];
        }
      } else {
        assert a[..0] == b[..0];
        forall i | 0 < i < |a| && i < |b|
          ensures a[..i] != b[..i]
        {
          assert a[..i][0] == a[0] && b[..i][0] == b[0];
        }
      }
    }
  }

  lemma {:induction false} LeReflexive(a: Bytea)
    ensures Le(a, a)
  {
    if a != [] {
      LeReflexive(a[1..]);
    }
  }

  lemma {:induction false} LeTotal(a: Bytea, b: Bytea)
    ensures Le(a, b) || Le(b, a)
    ensures Le(a, b) && Le(b, a) ==> a == b
  {
    if a != [] && b != [] && a[0] == b[0] {
      LeTotal(a[1..], b[1..]);
      assert a == [a[0]] + a[1..] && b == [b[0]] + b[1..];
    }
  }

  lemma {:induction false} LeTransitive(a: Bytea, b: Bytea, c: Bytea)
    requires Le(a, b) && Le(b, c)
    ensures Le(a, c)
  {
    if a != [] && a[0] == b[0] == c[0] {
      LeTransitive(a[1..], b[1..], c[1..]);
    }
  }

  lemma {:induction false} PrefixLe(a: Bytea, b: Bytea)
    requires a <= b
    ensures Le(a, b)
  {
    if a != [] {
      PrefixLe(a[1..], b[1..]);
    }
  }

  lemma {:induction false} TakeMonotone(a: Bytea, b: Bytea, n: nat)
    requires Le(a, b)
    ensures Le(Take(a, n), Take(b, n))
  {
    if a != [] && n > 0 && a[0] == b[0] {
      TakeMonotone(a[1..], b[1..], n - 1);
      assert Take(a, n)[1..] == Take(a[1..], n - 1) && Take(b, n)[1..] == Take(b[1..], n - 1);
    }
  }

  /** Cutting an upper bound either keeps it an upper bound or leaves a prefix of the value. */
  lemma {:induction false} TakeUpper(v: Bytea, u: Bytea, n: nat)
    requires Le(v, u)
    ensures Le(v, Take(u, n)) || Take(u, n) <= v
  {
    if v != [] && n > 0 && v[0] == u[0] {
      TakeUpper(v[1..], u[1..], n - 1);
      assert Take(u, n)[1..] == Take(u[1..], n - 1);
      assert Take(u, n)[0] == v[0];
      if Take(u[1..], n - 1) <= v[1..] {
        assert Take(u, n) == [v[0]] + Take(u[1..], n - 1);
      }
    }
  }

  /** A string between a prefix of v and v itself extends that prefix. */
  lemma {:induction false} PrefixSandwich(u: Bytea, q: Bytea, v: Bytea)
    requires u <= v && Le(u, q) && Le(q, v)
    ensures u <= q
  {
    if u != [] {
      assert q[0] == u[0];
      PrefixSandwich(u[1..], q[1..], v[1..]);
      assert u == [u[0]] + u[1..] && q == [q[0]] + q[1..];
    }
  }

  /** A narrower interval has the longer common prefix. */
  lemma {:induction false} CommonPrefixNarrows(l: Bytea, l': Bytea, u': Bytea, u: Bytea)
    requires Le(l, l') && Le(l', u') && Le(u', u)
    ensures CommonPrefix(l, u) <= CommonPrefix(l', u')
  {
    if CommonPrefix(l, u) > 0 {
      CommonPrefixNarrows(l[1..], l'[1..], u'[1..], u[1..]);
    }
  }

  /** Strings that agree on n bytes compare by what follows. */
  lemma {:induction false} LeAt(a: Bytea, b: Bytea, n: nat)
    requires n < |a| && n <= |b| && a[..n] == b[..n] && Le(a, b)
    ensures n < |b| && a[n] <= b[n]
  {
    if n > 0 {
      assert a[0] == a[..n][0] == b[..n][0] == b[0];
      assert a[1..][..n - 1] == a[..n][1..] && b[1..][..n - 1] == b[..n][1..];
      LeAt(a[1..], b[1..], n - 1);
    }
  }

  /** Up to the common prefix two strings agree, and there they part. */
  lemma {:induction false} CommonPrefixParts(a: Bytea, b: Bytea)
    ensures var p := CommonPrefix(a, b);
            p <= |a| && p <= |b| && a[..p] == b[..p] && (p == |a| || p == |b| || a[p] != b[p])
  {
    if a != [] && b != [] && a[0] == b[0] {
      CommonPrefixParts(a[1..], b[1..]);
      var p := CommonPrefix(a, b);
      assert a[..p] == [a[0]] + a[1..][..p - 1] && b[..p] == [b[0]] + b[1..][..p - 1];
    }
  }

  lemma {:induction false} CommonPrefixOfTake(a: Bytea, b: Bytea, n: nat)
    requires CommonPrefix(a, b) < n
    ensures CommonPrefix(Take(a, n), Take(b, n)) == CommonPrefix(a, b)
  {
    if a != [] && b != [] && a[0] == b[0] {
      CommonPrefixOfTake(a[1..], b[1..], n - 1);
      assert Take(a, n)[1..] == Take(a[1..], n - 1) && Take(b, n)[1..] == Take(b[1..], n - 1);
    }
  }

  lemma {:induction false} CommonPrefixBound(a: Bytea, b: Bytea)
    ensures CommonPrefix(a, b) <= |a| && CommonPrefix(a, b) <= |b|
    ensures a == b ==> CommonPrefix(a, b) == |a|
  {
    if a != [] && b != [] && a[0] == b[0] {
      CommonPrefixBound(a[1..], b[1..]);
    }
  }

  // ---------------------------------------------------------------- keys

  /** A key as read from its buffer: a leaf key holds one value serving as both bounds. */
  datatype Key = LeafKey(value: Bytea) | NodeKey(lo: Bytea, hi: Bytea) {
    function Lower(): Bytea {
      if LeafKey? then value else lo
    }
    function Upper(): Bytea {
      if LeafKey? then value else hi
    }
  }

  function PrefixLen(k: Key): nat {
    CommonPrefix(k.Lower(), k.Upper())
  }

  ghost predicate Ordered(k: Key) {
    Le(k.Lower(), k.Upper())
  }

  /** The lower bound is longer than the upper one and leaves no room for a shorter bound between the two: nothing
      below such a key can have been cut to this upper bound. */
  predicate Tight(k: Key) {
    var p, l, u := PrefixLen(k), k.Lower(), k.Upper();
    p + 2 == |u| < |l| && l[p] as int + 1 == u[p] as int && l[p + 1] == 255
  }

  /** The upper bound may have been cut, here or below, so values may extend it. */
  predicate Open(k: Key) {
    |k.Upper()| >= PrefixLen(k) + 2 && !Tight(k)
  }

  /** What a value above the upper bound of an open key must start with: the whole upper bound, or, when the lower
      bound is a prefix of it and so matches every such value, only two bytes more than the lower bound. */
  function Stem(k: Key): Bytea {
    if k.Lower() <= k.Upper() then Take(k.Upper(), PrefixLen(k) + 2) else k.Upper()
  }

  /** What a node key promises about a value beneath it. */
  ghost predicate Covers(k: Key, v: Bytea) {
    Le(k.Lower(), v) && (Le(v, k.Upper()) || (Open(k) && Stem(k) <= v))
  }

  /** Widens the running union, absent at first, by one entry. */
  function BinUnion(u: Option<Key>, e: Key): Key {
    match u
    case None => NodeKey(e.Lower(), e.Upper())
    case Some(k) =>
      NodeKey(if Cmp(k.Lower(), e.Lower()) > 0 then e.Lower() else k.Lower(),
              if Cmp(k.Upper(), e.Upper()) < 0 then e.Upper() else k.Upper())
  }

  /** Both bounds cut to cpf + 1 bytes. */
  function Truncate(k: Key, cpf: nat): Key {
    NodeKey(Take(k.Lower(), cpf + 1), Take(k.Upper(), cpf + 1))
  }

  function RunningUnion(es: seq<Key>): Option<Key> {
    if es == [] then None else Some(BinUnion(RunningUnion(es[..|es| - 1]), es[|es| - 1]))
  }

  /** The union method: widest bounds, cut to two bytes past their common prefix. */
  function UnionKey(es: seq<Key>): Key
    requires es != []
  {
    var u := RunningUnion(es).value;
    Truncate(u, PrefixLen(u) + 1)
  }

  lemma BinUnionWidens(u: Option<Key>, e: Key)
    ensures Le(BinUnion(u, e).Lower(), e.Lower()) && Le(e.Upper(), BinUnion(u, e).Upper())
    ensures u.Some? ==> Le(BinUnion(u, e).Lower(), u.value.Lower()) && Le(u.value.Upper(), BinUnion(u, e).Upper())
  {
    LeReflexive(e.Lower());
    LeReflexive(e.Upper());
    if u.Some? {
      LeReflexive(u.value.Lower());
      LeReflexive(u.value.Upper());
      LeTotal(u.value.Lower(), e.Lower());
      LeTotal(u.value.Upper(), e.Upper());
    }
  }

  /** The running union reaches below every lower and above every upper bound. */
  lemma {:induction false} RunningUnionWidest(es: seq<Key>, i: nat)
    requires i < |es|
    ensures Le(RunningUnion(es).value.Lower(), es[i].Lower())
    ensures Le(es[i].Upper(), RunningUnion(es).value.Upper())
    decreases |es|
  {
    var u, last := RunningUnion(es[..|es| - 1]), es[|es| - 1];
    BinUnionWidens(u, last);
    if i < |es| - 1 {
      RunningUnionWidest(es[..|es| - 1], i);
      LeTransitive(BinUnion(u, last).Lower(), u.value.Lower(), es[i].Lower());
      LeTransitive(es[i].Upper(), u.value.Upper(), BinUnion(u, last).Upper());
    }
  }

  /** And its bounds are bounds of entries. */
  lemma {:induction false} RunningUnionAttained(es: seq<Key>)
    requires es != []
    ensures exists e | e in es :: RunningUnion(es).value.Lower() == e.Lower()
    ensures exists e | e in es :: RunningUnion(es).value.Upper() == e.Upper()
  {
    var init, last := es[..|es| - 1], es[|es| - 1];
    hide Cmp;
    assert last in es;
    if init == [] {
      assert RunningUnion(es).value == BinUnion(None, last);
    } else {
      RunningUnionAttained(init);
      var u := RunningUnion(init).value;
      var e :| e in init && u.Lower() == e.Lower();
      var f :| f in init && u.Upper() == f.Upper();
      assert e in es && f in es;
      assert RunningUnion(es).value == BinUnion(Some(u), last);
    }
  }

  /** An entry whose values may run past the kept upper bound: it is open, and the kept bound extends its stem by
      something other than 0xFF bytes. */
  predicate Escapes(e: Key, kept: Bytea) {
    Open(e) && Stem(e) <= kept && exists i | |Stem(e)| <= i < |kept| :: kept[i] < 255
  }

  /** A cut key still serves the entries it was made from: either its lower bound is a prefix of its upper one, or no
      entry escapes. */
  predicate Admits(k: Key, es: seq<Key>) {
    k.Lower() <= k.Upper() || forall e | e in es :: !Escapes(e, k.Upper())
  }

  /** A value above u that extends e, when u extends e only by 0xFF bytes, extends u. */
  lemma {:induction false} ExtendsPastHighBytes(e: Bytea, u: Bytea, v: Bytea)
    requires e <= u && e <= v && !Le(v, u)
    requires forall i | |e| <= i < |u| :: u[i] == 255
    ensures u <= v
    decreases |u|
  {
    if u != [] {
      if e != [] {
        ExtendsPastHighBytes(e[1..], u[1..], v[1..]);
      } else {
        assert v != [] && v[0] == u[0];
        ExtendsPastHighBytes(e, u[1..], v[1..]);
      }
      assert u == [u[0]] + u[1..] && v == [v[0]] + v[1..];
    }
  }

  lemma StemIsPrefix(k: Key)
    ensures Stem(k) <= k.Upper()
    ensures Open(k) ==> |Stem(k)| >= PrefixLen(k) + 2
  {
  }

  lemma {:induction false} PrefixIsCommon(a: Bytea, b: Bytea)
    requires a <= b
    ensures CommonPrefix(a, b) == |a|
  {
    if a != [] {
      PrefixIsCommon(a[1..], b[1..]);
    }
  }

  lemma PrefixesNest(a: Bytea, b: Bytea, c: Bytea)
    requires a <= c && b <= c && |a| <= |b|
    ensures a <= b
  {
  }

  /** Cutting past the common prefix changes neither the common prefix nor, when the lower bound is a prefix of the
      upper one, the stem. */
  lemma TruncatedKey(u: Key, cpf: nat)
    requires cpf > PrefixLen(u)
    ensures PrefixLen(Truncate(u, cpf)) == PrefixLen(u)
    ensures Truncate(u, cpf).Lower() <= u.Lower() && Truncate(u, cpf).Upper() <= u.Upper()
    ensures Open(u) ==> Open(Truncate(u, cpf))
  {
    CommonPrefixOfTake(u.Lower(), u.Upper(), cpf + 1);
  }

  /** Truncation keeps every value that an entry covers, when the key admits the entry. */
  lemma TruncateKeepsCovering(u: Key, cpf: nat, e: Key, v: Bytea)
    requires Ordered(e) && Le(u.Lower(), e.Lower()) && Le(e.Upper(), u.Upper())
    requires cpf > PrefixLen(u)
    requires Admits(Truncate(u, cpf), [e])
    requires Covers(e, v)
    ensures Covers(Truncate(u, cpf), v)
  {
    hide Le, CommonPrefix, Stem, Open, Escapes, Truncate;
    var k := Truncate(u, cpf);
    TruncatedKey(u, cpf);
    StemIsPrefix(k);
    PrefixLe(k.Lower(), u.Lower());
    LeTransitive(k.Lower(), u.Lower(), e.Lower());
    LeTransitive(k.Lower(), e.Lower(), v);
    if Le(v, e.Upper()) {
      LeTransitive(v, e.Upper(), u.Upper());
    }
    if Le(v, u.Upper()) {
      BelowUncutUpper(u, cpf, v);
    } else {
      assert e in [e];
      AboveUncutUpper(u, cpf, e, v);
    }
  }

  lemma BelowUncutUpper(u: Key, cpf: nat, v: Bytea)
    requires cpf > PrefixLen(u) && Le(v, u.Upper())
    ensures var k := Truncate(u, cpf);
            Le(v, k.Upper()) || (Open(k) && Stem(k) <= v)
  {
    hide Le, CommonPrefix, Stem;
    var k := Truncate(u, cpf);
    TruncatedKey(u, cpf);
    StemIsPrefix(k);
    TakeUpper(v, u.Upper(), cpf + 1);
  }

  /** An entry within a tight key that reaches the same upper bound is tight itself. */
  lemma TightPassesDown(k: Key, e: Key)
    requires Tight(k) && Le(k.Lower(), e.Lower()) && Le(e.Lower(), e.Upper())
    requires e.Upper() == k.Upper() && PrefixLen(e) == PrefixLen(k)
    ensures Tight(e)
  {
    hide Le, CommonPrefix;
    var p, l, m, u := PrefixLen(k), k.Lower(), e.Lower(), k.Upper();
    CommonPrefixParts(l, u);
    CommonPrefixParts(m, u);
    LeAt(l, m, p);
    LeAt(m, u, p);
    assert l[..p + 1] == l[..p] + [l[p]] && m[..p + 1] == m[..p] + [m[p]];
    LeAt(l, m, p + 1);
    assert l[..p + 2] == l[..p + 1] + [l[p + 1]] && m[..p + 2] == m[..p + 1] + [m[p + 1]];
    LeAt(l, m, p + 2);
  }

  lemma CutIsNotTight(u: Key, cpf: nat, e: Key)
    requires Ordered(e) && Le(u.Lower(), e.Lower()) && Le(e.Upper(), u.Upper()) && cpf > PrefixLen(u)
    requires Open(e) && Stem(e) <= u.Upper() && PrefixLen(u) <= PrefixLen(e)
    ensures !Tight(Truncate(u, cpf))
  {
    hide Le, CommonPrefix, Stem;
    var k := Truncate(u, cpf);
    TruncatedKey(u, cpf);
    if Tight(k) {
      StemIsPrefix(e);
      PrefixLe(u.Upper(), e.Upper());
      LeTotal(u.Upper(), e.Upper());
      PrefixLe(k.Lower(), u.Lower());
      LeTransitive(k.Lower(), u.Lower(), e.Lower());
      TightPassesDown(k, e);
    }
  }

  lemma AboveUncutUpper(u: Key, cpf: nat, e: Key, v: Bytea)
    requires Ordered(e) && Le(u.Lower(), e.Lower()) && Le(e.Upper(), u.Upper()) && cpf > PrefixLen(u)
    requires Open(e) && Stem(e) <= v && !Le(v, u.Upper())
    requires var k := Truncate(u, cpf);
             k.Lower() <= k.Upper() || !Escapes(e, k.Upper())
    ensures var k := Truncate(u, cpf);
            Open(k) && Stem(k) <= v
  {
    hide Le, CommonPrefix, Tight;
    var k := Truncate(u, cpf);
    StemIsPrefix(e);
    PrefixLe(Stem(e), e.Upper());
    LeTransitive(Stem(e), e.Upper(), u.Upper());
    LeTotal(v, u.Upper());
    PrefixSandwich(Stem(e), u.Upper(), v);
    CommonPrefixNarrows(u.Lower(), e.Lower(), e.Upper(), u.Upper());
    TruncatedKey(u, cpf);
    CutIsNotTight(u, cpf, e);
    if k.Lower() <= k.Upper() || |k.Upper()| <= |Stem(e)| {
      StemIsPrefix(k);
      PrefixesNest(Stem(k), Stem(e), u.Upper());
    } else {
      PrefixesNest(Stem(e), k.Upper(), u.Upper());
      if Le(v, k.Upper()) {
        PrefixLe(k.Upper(), u.Upper());
        LeTransitive(v, k.Upper(), u.Upper());
      }
      ExtendsPastHighBytes(Stem(e), k.Upper(), v);
    }
  }

  /** An escaping entry covers a value above the kept upper bound that does not extend it, yet agrees with it beyond
      the entry's common prefix. */
  lemma EscapingValue(e: Key, kept: Bytea) returns (v: Bytea)
    requires Ordered(e) && Escapes(e, kept)
    ensures Covers(e, v) && !Le(v, kept) && !(kept <= v)
    ensures |kept| > PrefixLen(e) + 2 && |v| > PrefixLen(e) + 2 && v[..PrefixLen(e) + 2] == kept[..PrefixLen(e) + 2]
  {
    hide CommonPrefix;
    var stem := Stem(e);
    StemIsPrefix(e);
    var i :| |stem| <= i < |kept| && kept[i] < 255;
    v := kept[..i] + [kept[i] + 1];
    assert stem <= v;
    RaisedByteIsAbove(kept, i);
    assert v[i] != kept[i];
    if e.Lower() <= e.Upper() {
      PrefixIsCommon(e.Lower(), e.Upper());
      PrefixLe(e.Lower(), v);
    } else {
      PrefixLe(e.Upper(), v);
      LeTransitive(e.Lower(), e.Upper(), v);
    }
  }

  lemma {:induction false} RaisedByteIsAbove(a: Bytea, i: nat)
    requires i < |a| && a[i] < 255
    ensures !Le(a[..i] + [a[i] + 1], a)
  {
    var v := a[..i] + [a[i] + 1];
    if i > 0 {
      RaisedByteIsAbove(a[1..], i - 1);
      assert v[1..] == a[1..][..i - 1] + [a[1..][i - 1] + 1];
    }
  }

  /** Union keys never let an entry escape: they are cut no longer than any stem. */
  lemma UnionNeverEscapes(es: seq<Key>, i: nat)
    requires i < |es| && Ordered(es[i])
    ensures !Escapes(es[i], UnionKey(es).Upper())
  {
    hide Le, CommonPrefix, Stem;
    var u := RunningUnion(es).value;
    RunningUnionWidest(es, i);
    CommonPrefixNarrows(u.Lower(), es[i].Lower(), es[i].Upper(), u.Upper());
    StemIsPrefix(es[i]);
  }
}
