/** Text as the server stores it: bytes that a database encoding cuts into characters of one or more bytes. */
module Multibyte {

  type Byte = x: int | 0 <= x < 256

  /** maxLen is the encoding's maximum character length; mblen looks at the bytes from a cursor on and tells
      how many of them make up the first character. */
  datatype Encoding = Encoding(maxLen: nat, mblen: seq<Byte> -> nat)

  /** Valid text of the encoding: cutting it at every mblen ends exactly at its end, and no character starts
      with the terminator byte. */
  ghost predicate WellEncoded(enc: Encoding, bytes: seq<Byte>)
    decreases |bytes|
  {
    bytes == [] ||
    (&& 0 < enc.mblen(bytes) <= |bytes|
     && (enc.maxLen == 1 ==> enc.mblen(bytes) == 1)
     && bytes[0] != 0
     && WellEncoded(enc, bytes[enc.mblen(bytes)..]))
  }

  ghost function Chars(enc: Encoding, bytes: seq<Byte>): seq<seq<Byte>>
    requires WellEncoded(enc, bytes)
    decreases |bytes|
  {
    if bytes == [] then []
    else [bytes[..enc.mblen(bytes)]] + Chars(enc, bytes[enc.mblen(bytes)..])
  }

  /** Byte position of character k. */
  ghost function Offset(chars: seq<seq<Byte>>, k: nat): nat
    requires k <= |chars|
  {
    if k == 0 then 0 else |chars[0]| + Offset(chars[1..], k - 1)
  }

  lemma {:induction false} OffsetNext(chars: seq<seq<Byte>>, k: nat)
    requires k < |chars|
    ensures Offset(chars, k + 1) == Offset(chars, k) + |chars[k]|
  {
    if k > 0 {
      OffsetNext(chars[1..], k - 1);
    }
  }

  /** A cursor at character k sees exactly the characters from k on. */
  lemma {:induction false} CursorAt(enc: Encoding, bytes: seq<Byte>, k: nat)
    requires WellEncoded(enc, bytes) && k <= |Chars(enc, bytes)|
    ensures Offset(Chars(enc, bytes), k) <= |bytes|
    ensures WellEncoded(enc, bytes[Offset(Chars(enc, bytes), k)..])
    ensures Chars(enc, bytes[Offset(Chars(enc, bytes), k)..]) == Chars(enc, bytes)[k..]
    decreases k
  {
    var chars := Chars(enc, bytes);
    if k == 0 {
      assert bytes[0..] == bytes && chars[0..] == chars;
    } else {
      var rest := bytes[|chars[0]|..];
      assert chars[1..] == Chars(enc, rest);
      CursorAt(enc, rest, k - 1);
      assert rest[Offset(chars[1..], k - 1)..] == bytes[Offset(chars, k)..];
      assert chars[1..][k - 1..] == chars[k..];
    }
  }

  /** Character k occupies the bytes between its cursor and the next one, and mblen there is its length. */
  lemma CharAt(enc: Encoding, bytes: seq<Byte>, k: nat)
    requires WellEncoded(enc, bytes) && k < |Chars(enc, bytes)|
    ensures var chars := Chars(enc, bytes);
            var at := Offset(chars, k);
            && 0 < |chars[k]| && at + |chars[k]| <= |bytes|
            && bytes[at..at + |chars[k]|] == chars[k]
            && enc.mblen(bytes[at..]) == |chars[k]|
            && bytes[at] != 0
            && Offset(chars, k + 1) == at + |chars[k]|
            && (enc.maxLen == 1 ==> |chars[k]| == 1)
  {
    var chars := Chars(enc, bytes);
    var at := Offset(chars, k);
    CursorAt(enc, bytes, k);
    OffsetNext(chars, k);
    assert chars[k..][0] == chars[k];
  }

  lemma OffsetEnd(enc: Encoding, bytes: seq<Byte>)
    requires WellEncoded(enc, bytes)
    ensures Offset(Chars(enc, bytes), |Chars(enc, bytes)|) == |bytes|
  {
    CursorAt(enc, bytes, |Chars(enc, bytes)|);
  }

  /** As many characters as bytes means every character is a single byte. */
  lemma {:induction false} SingleBytes(enc: Encoding, bytes: seq<Byte>)
    requires WellEncoded(enc, bytes)
    ensures |Chars(enc, bytes)| <= |bytes|
    ensures |Chars(enc, bytes)| == |bytes| ==>
              forall k | 0 <= k < |bytes| :: Chars(enc, bytes)[k] == [bytes[k]]
    decreases |bytes|
  {
    if bytes != [] {
      SingleBytes(enc, bytes[enc.mblen(bytes)..]);
    }
  }

  /** Number of characters in the text. */
  method CharCount(enc: Encoding, bytes: seq<Byte>) returns (len: nat)
    requires WellEncoded(enc, bytes)
    ensures len == |Chars(enc, bytes)|
  {
    ghost var chars := Chars(enc, bytes);
    OffsetEnd(enc, bytes);
    if enc.maxLen == 1 {
      AllSingle(enc, bytes);
      return |bytes|;
    }
    len := 0;
    var cursor := 0;
    while cursor < |bytes| && bytes[cursor] != 0
      invariant len <= |chars| && cursor == Offset(chars, len) <= |bytes|
      decreases |bytes| - cursor
    {
      OffsetStrict(enc, bytes, len);
      CharAt(enc, bytes, len);
      cursor := cursor + enc.mblen(bytes[cursor..]);
      len := len + 1;
    }
    if len < |chars| {
      CharAt(enc, bytes, len);
    }
  }

  lemma {:induction false} AllSingle(enc: Encoding, bytes: seq<Byte>)
    requires WellEncoded(enc, bytes) && enc.maxLen == 1
    ensures |Chars(enc, bytes)| == |bytes|
    decreases |bytes|
  {
    if bytes != [] {
      AllSingle(enc, bytes[1..]);
    }
  }

  /** A cursor short of the end is short of the last character. */
  lemma OffsetStrict(enc: Encoding, bytes: seq<Byte>, k: nat)
    requires WellEncoded(enc, bytes) && k <= |Chars(enc, bytes)|
    requires Offset(Chars(enc, bytes), k) < |bytes|
    ensures k < |Chars(enc, bytes)|
  {
    OffsetEnd(enc, bytes);
  }

  /** Caches the length of every character, with a zero after the last. */
  method CharLengths(enc: Encoding, bytes: seq<Byte>, m: nat) returns (lens: array<int>)
    requires WellEncoded(enc, bytes) && m == |Chars(enc, bytes)|
    ensures fresh(lens) && lens.Length == m + 1
    ensures forall k | 0 <= k < m :: lens[k] == |Chars(enc, bytes)[k]|
    ensures lens[m] == 0
  {
    ghost var chars := Chars(enc, bytes);
    lens := new int[m + 1];
    var cp := 0;
    for i := 0 to m
      invariant cp == Offset(chars, i) <= |bytes|
      invariant forall k | 0 <= k < i :: lens[k] == |chars[k]|
    {
      CharAt(enc, bytes, i);
      lens[i] := enc.mblen(bytes[cp..]);
      cp := cp + lens[i];
    }
    lens[m] := 0;
  }

  /** Compares len bytes from the back. */
  method RestOfCharSame(s: seq<Byte>, x: nat, t: seq<Byte>, y: nat, len: nat) returns (same: bool)
    requires x + len <= |s| && y + len <= |t|
    ensures same <==> s[x..x + len] == t[y..y + len]
  {
    var left := len;
    while left > 0
      invariant 0 <= left <= len
      invariant s[x..x + len][left..] == t[y..y + len][left..]
    {
      left := left - 1;
      if s[x + left] != t[y + left] {
        assert s[x..x + len][left] != t[y..y + len][left];
        return false;
      }
    }
    return true;
  }

  /** Whether the character at cursor x of s equals the one at cursor y of t: last byte first, then the
      lengths, then the remaining bytes. */
  method SameChar(s: seq<Byte>, x: nat, xLen: nat, t: seq<Byte>, y: nat, yLen: nat) returns (same: bool)
    requires 0 < xLen && x + xLen <= |s|
    requires 0 < yLen && y + yLen <= |t|
    ensures same <==> s[x..x + xLen] == t[y..y + yLen]
  {
    if s[x + xLen - 1] == t[y + yLen - 1] && xLen == yLen {
      if xLen == 1 {
        return true;
      }
      same := RestOfCharSame(s, x, t, y, xLen);
    } else {
      if xLen == yLen {
        assert s[x..x + xLen][xLen - 1] != t[y..y + yLen][yLen - 1];
      }
      same := false;
    }
  }
}
