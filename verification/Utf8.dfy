/** UTF-8, as `Buffer.from(text, 'utf8')` and `buffer.toString('utf8')` use it. */
module Utf8 {

  type Byte = b: int | 0 <= b < 256

  type Bytes = seq<Byte>

  function EncodeChar(c: char): (r: Bytes)
    ensures 1 <= |r| <= 4
  {
    var n := c as int;
    var m := n / 64;
    var l := m / 64;
    if n < 0x80 then [n]
    else if n < 0x800 then [0xC0 + m, 0x80 + n % 64]
    else if n < 0x1_0000 then [0xE0 + l, 0x80 + m % 64, 0x80 + n % 64]
    else [0xF0 + l / 64, 0x80 + l % 64, 0x80 + m % 64, 0x80 + n % 64]
  }

  function Encode(s: string): (r: Bytes)
    ensures s == "" <==> r == []
  {
    if s == "" then [] else EncodeChar(s[0]) + Encode(s[1..])
  }

  /** How many bytes a character takes. */
  function Width(c: char): nat {
    if c < '\U{80}' then 1 else if c < '\U{800}' then 2 else if c < '\U{10000}' then 3 else 4
  }

  lemma EncodedWidths(s: string)
    ensures s == "" ==> |Encode(s)| == 0
    ensures s != "" ==> |Encode(s)| == Width(s[0]) + |Encode(s[1..])|
  {
  }

  predicate IsTail(b: Bytes, i: int) {
    0 <= i < |b| && 0x80 <= b[i] < 0xC0
  }

  /** The six bits a continuation byte carries. */
  function Tail(b: Bytes, i: nat): (r: int)
    requires IsTail(b, i)
    ensures 0 <= r < 64
  {
    b[i] - 0x80
  }

  /** The scalar value that starts `b`, with its length; -1 when `b` starts with no well-formed sequence. */
  function DecodeHead(b: Bytes): (r: (int, nat))
    requires b != []
    ensures 1 <= r.1 <= |b|
    ensures r.0 == -1 || 0 <= r.0 < 0xD800 || 0xE000 <= r.0 < 0x11_0000
  {
    var h: int := b[0];
    if h < 0x80 then (h, 1)
    else if 0xC2 <= h < 0xE0 && IsTail(b, 1) then ((h - 0xC0) * 64 + Tail(b, 1), 2)
    else if 0xE0 <= h < 0xF0 && IsTail(b, 1) && IsTail(b, 2) then
      var n := ((h - 0xE0) * 64 + Tail(b, 1)) * 64 + Tail(b, 2);
      if n < 0x800 || 0xD800 <= n < 0xE000 then (-1, 1) else (n, 3)
    else if 0xF0 <= h < 0xF5 && IsTail(b, 1) && IsTail(b, 2) && IsTail(b, 3) then
      var n := (((h - 0xF0) * 64 + Tail(b, 1)) * 64 + Tail(b, 2)) * 64 + Tail(b, 3);
      if n < 0x1_0000 || n >= 0x11_0000 then (-1, 1) else (n, 4)
    else (-1, 1)
  }

  /** Malformed bytes become U+FFFD, one each. */
  function Decode(b: Bytes): string {
    if b == [] then ""
    else
      var (n, k) := DecodeHead(b);
      [if n == -1 then '\U{FFFD}' else n as char] + Decode(b[k..])
  }

  lemma HeadRoundTrip(c: char, rest: Bytes)
    ensures DecodeHead(EncodeChar(c) + rest) == (c as int, |EncodeChar(c)|)
  {
    var n := c as int;
    var b := EncodeChar(c) + rest;
    assert b[0] == EncodeChar(c)[0];
    if n >= 0x80 {
      assert b[1] == EncodeChar(c)[1];
    }
    if n >= 0x800 {
      assert b[2] == EncodeChar(c)[2];
    }
    if n >= 0x1_0000 {
      assert b[3] == EncodeChar(c)[3];
    }
  }

  lemma HeadOfPrefix(c: char, b: Bytes)
    requires EncodeChar(c) <= b
    ensures DecodeHead(b) == (c as int, |EncodeChar(c)|)
  {
    HeadRoundTrip(c, b[|EncodeChar(c)|..]);
    assert b == EncodeChar(c) + b[|EncodeChar(c)|..];
  }

  /** Nothing but the encoding of a character is decoded to it: overlong forms, surrogates and stray or missing
      continuation bytes are malformed. */
  lemma OnlyEncodingsDecode(b: Bytes)
    requires b != []
    ensures var (n, k) := DecodeHead(b);
            if n == -1 then k == 1 && forall c :: !(EncodeChar(c) <= b)
            else b[..k] == EncodeChar(n as char)
  {
    var (n, k) := DecodeHead(b);
    if n == -1 {
      forall c
        ensures !(EncodeChar(c) <= b)
      {
        if EncodeChar(c) <= b {
          HeadOfPrefix(c, b);
        }
      }
    } else {
      DecodedHead(b, n, k);
    }
  }

  lemma DecodedHead(b: Bytes, n: int, k: nat)
    requires b != [] && DecodeHead(b) == (n, k) && n != -1
    ensures b[..k] == EncodeChar(n as char)
  {
    var e := EncodeChar(n as char);
    assert k == |e|;
    assert b[0] == e[0] && (k > 1 ==> b[1] == e[1]) && (k > 2 ==> b[2] == e[2]) && (k > 3 ==> b[3] == e[3]);
  }

  lemma {:induction false} DecodeEncode(s: string)
    ensures Decode(Encode(s)) == s
  {
    if s != "" {
      var head, rest := EncodeChar(s[0]), Encode(s[1..]);
      HeadRoundTrip(s[0], rest);
      DecodeEncode(s[1..]);
      hide EncodeChar, DecodeHead, Encode;
      assert (head + rest)[|head|..] == rest;
      assert [s[0]] + s[1..] == s;
    }
  }

  // ---------------------------------------------------------------- bytes cut short

  /** What is read from the first bytes of a text: its first characters, and one mark for each byte of a character
      that was cut. */
  ghost predicate IsCut(whole: string, read: string) {
    exists j: nat, m: nat :: CutAt(whole, read, j, m)
  }

  ghost predicate CutAt(whole: string, read: string, j: nat, m: nat) {
    && j <= |whole| && read == whole[..j] + Marks(m)
    && (m > 0 ==> j < |whole| && whole[j] >= '\U{80}')
  }

  function Marks(m: nat): (r: string)
    ensures |r| == m && forall i :: 0 <= i < m ==> r[i] == '\U{FFFD}'
  {
    if m == 0 then "" else ['\U{FFFD}'] + Marks(m - 1)
  }

  /** Bytes that start no character, or nothing. */
  predicate StartsFresh(b: Bytes) {
    b == [] || b[0] < 0x80
  }

  /** An incomplete head reads the same with fresh bytes behind it. */
  lemma HeadBeforeFresh(a: Bytes, rest: Bytes)
    requires a != [] && StartsFresh(rest)
    ensures DecodeHead(a + rest) == DecodeHead(a)
  {
    var b := a + rest;
    assert b[0] == a[0];
    SameTail(a, rest, 1);
    if |a| > 1 {
      SameTail(a, rest, 2);
      if |a| > 2 {
        SameTail(a, rest, 3);
      }
    }
  }

  lemma SameTail(a: Bytes, rest: Bytes, i: nat)
    requires i <= |a| && StartsFresh(rest)
    ensures IsTail(a + rest, i) <==> IsTail(a, i)
    ensures IsTail(a, i) ==> Tail(a + rest, i) == Tail(a, i)
  {
  }

  /** Fresh bytes are read on their own, whatever stands before them. */
  lemma {:induction false} DecodeFresh(a: Bytes, rest: Bytes)
    requires StartsFresh(rest)
    ensures Decode(a + rest) == Decode(a) + Decode(rest)
    decreases |a|
  {
    if a == [] {
      assert a + rest == rest;
    } else {
      HeadBeforeFresh(a, rest);
      var k := DecodeHead(a).1;
      hide DecodeHead, IsTail;
      assert (a + rest)[k..] == a[k..] + rest;
      DecodeFresh(a[k..], rest);
    }
  }

  /** The bytes of one character cut short are read as one mark each. */
  lemma CutCharDecodes(c: char, k: nat)
    requires 0 < k < |EncodeChar(c)|
    ensures c >= '\U{80}' && Decode(EncodeChar(c)[..k]) == Marks(k)
  {
    var b := EncodeChar(c)[..k];
    assert b[0] == EncodeChar(c)[0] >= 0xC0;
    assert DecodeHead(b) == (-1, 1);
    assert Decode(b) == ['\U{FFFD}'] + Decode(b[1..]);
    if k > 1 {
      assert 0x80 <= b[1] < 0xC0;
      LooseTail(b[1..]);
      if k > 2 {
        assert 0x80 <= b[2] < 0xC0;
        assert b[1..][1..] == b[2..];
        LooseTail(b[2..]);
        assert b[2..][1..] == [];
      } else {
        assert b[1..][1..] == [];
      }
    } else {
      assert b[1..] == [];
    }
  }

  lemma LooseTail(b: Bytes)
    requires b != [] && 0x80 <= b[0] < 0xC0
    ensures Decode(b) == ['\U{FFFD}'] + Decode(b[1..])
  {
    hide IsTail;
  }

  /** However many bytes of a text are there, what is read from them is the text cut. */
  lemma {:induction false} BytesCut(s: string, k: nat)
    requires k <= |Encode(s)|
    ensures IsCut(s, Decode(Encode(s)[..k]))
    decreases |s|
  {
    if s == "" {
      assert CutAt(s, "", 0, 0);
    } else {
      var head, rest := EncodeChar(s[0]), Encode(s[1..]);
      if k == 0 {
        assert CutAt(s, "", 0, 0);
      } else if k < |head| {
        CutCharDecodes(s[0], k);
        assert (head + rest)[..k] == head[..k];
        assert s[..0] + Marks(k) == Marks(k);
        assert CutAt(s, Marks(k), 0, k);
      } else {
        BytesCut(s[1..], k - |head|);
        CutGrows(s, k, head, rest);
      }
    }
  }

  lemma CutGrows(s: string, k: nat, head: Bytes, rest: Bytes)
    requires s != "" && head == EncodeChar(s[0]) && rest == Encode(s[1..]) && |head| <= k <= |head| + |rest|
    requires IsCut(s[1..], Decode(rest[..k - |head|]))
    ensures IsCut(s, Decode(Encode(s)[..k]))
  {
    var t := rest[..k - |head|];
    assert Encode(s)[..k] == head + t;
    HeadRoundTrip(s[0], t);
    assert (head + t)[|head|..] == t;
    assert Decode(head + t) == [s[0]] + Decode(t);
    hide *;
    CutLonger(s, Decode(t));
  }

  lemma CutLonger(s: string, read: string)
    requires s != "" && IsCut(s[1..], read)
    ensures IsCut(s, [s[0]] + read)
  {
    var j: nat, m: nat :| CutAt(s[1..], read, j, m);
    hide Marks;
    assert s[..j + 1] == [s[0]] + s[1..][..j];
    assert CutAt(s, [s[0]] + read, j + 1, m);
  }
}
