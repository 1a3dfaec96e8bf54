/** UTF-8 (RFC 3629), the byte form `encodeURIComponent` produces for a
    string before `unescape` turns each `%XX` back into one character code.
    Characters are Unicode scalar values, so there are no lone surrogates to
    reject. The decoder is strict: it refuses overlong forms, encoded
    surrogates, values above U+10FFFF and truncated sequences, which makes it
    an exact inverse of the encoder. */
module Utf8 {
  import opened Outcomes
  import opened Bytes
  import opened Arith

  predicate IsContinuation(b: byte) {
    0x80 <= b < 0xC0
  }

  /** The one to four bytes that encode one scalar value. */
  function EncodeChar(c: char): (b: seq<byte>)
    ensures 1 <= |b| <= 4
  {
    var n := c as int;
    if n < 0x80 then [n]
    else if n < 0x800 then [0xC0 + n / 64, 0x80 + n % 64]
    else if n < 0x10000 then [0xE0 + n / 4096, 0x80 + (n / 64) % 64, 0x80 + n % 64]
    else [0xF0 + n / 262144, 0x80 + (n / 4096) % 64, 0x80 + (n / 64) % 64, 0x80 + n % 64]
  }

  function Encode(s: string): (b: seq<byte>)
    ensures |s| <= |b| <= 4 * |s|
  {
    if s == [] then [] else EncodeChar(s[0]) + Encode(s[1..])
  }

  /** The scalar value a two-, three- or four-byte sequence spells: the low
      bits of the lead byte followed by six bits from each continuation. */
  function Value2(b0: int, b1: int): int {
    (b0 - 0xC0) * 64 + (b1 - 0x80)
  }

  function Value3(b0: int, b1: int, b2: int): int {
    (b0 - 0xE0) * 4096 + (b1 - 0x80) * 64 + (b2 - 0x80)
  }

  function Value4(b0: int, b1: int, b2: int, b3: int): int {
    (b0 - 0xF0) * 262144 + (b1 - 0x80) * 4096 + (b2 - 0x80) * 64 + (b3 - 0x80)
  }

  /** The scalar value at the start of `b` and how many bytes it takes. */
  function DecodeFirst(b: seq<byte>): (r: Option<(char, nat)>)
    requires |b| > 0
    ensures r.Some? ==> 1 <= r.value.1 <= |b|
  {
    var b0 := b[0];
    if b0 < 0x80 then Some((b0 as char, 1))
    else if 0xC2 <= b0 < 0xE0 && |b| >= 2 && IsContinuation(b[1]) then
      Some((Value2(b0, b[1]) as char, 2))
    else if 0xE0 <= b0 < 0xF0 && |b| >= 3 && IsContinuation(b[1]) && IsContinuation(b[2]) then
      var n := Value3(b0, b[1], b[2]);
      if 0x800 <= n && !(0xD800 <= n < 0xE000) then Some((n as char, 3)) else None
    else if 0xF0 <= b0 <= 0xF4 && |b| >= 4
      && IsContinuation(b[1]) && IsContinuation(b[2]) && IsContinuation(b[3]) then
      var n := Value4(b0, b[1], b[2], b[3]);
      if 0x10000 <= n < 0x110000 then Some((n as char, 4)) else None
    else None
  }

  function Decode(b: seq<byte>): Option<string>
    decreases |b|
  {
    if b == [] then Some([])
    else
      match DecodeFirst(b)
      case None => None
      case Some((c, k)) =>
        match Decode(b[k..])
        case None => None
        case Some(rest) => Some([c] + rest)
  }

  lemma Value2OfSplit(n: int)
    requires 0x80 <= n < 0x800
    ensures Value2(0xC0 + n / 64, 0x80 + n % 64) == n
  {
  }

  lemma Value3OfSplit(n: int)
    requires 0x800 <= n < 0x10000
    ensures Value3(0xE0 + n / 4096, 0x80 + (n / 64) % 64, 0x80 + n % 64) == n
  {
    var m1 := n / 64;
    assert n == 64 * m1 + n % 64;
    assert m1 == 64 * (m1 / 64) + m1 % 64;
    FloorDiv(n, 4096, m1 / 64);
  }

  lemma Value4OfSplit(n: int)
    requires 0x10000 <= n < 0x110000
    ensures Value4(0xF0 + n / 262144, 0x80 + (n / 4096) % 64, 0x80 + (n / 64) % 64, 0x80 + n % 64) == n
  {
    var m1 := n / 64;
    var m2 := m1 / 64;
    assert n == 64 * m1 + n % 64;
    assert m1 == 64 * m2 + m1 % 64;
    assert m2 == 64 * (m2 / 64) + m2 % 64;
    FloorDiv(n, 4096, m2);
    FloorDiv(n, 262144, m2 / 64);
  }

  lemma DecodeFirstEncodeChar(c: char, rest: seq<byte>)
    ensures DecodeFirst(EncodeChar(c) + rest) == Some((c, |EncodeChar(c)|))
  {
    var n := c as int;
    var b := EncodeChar(c) + rest;
    if n < 0x80 {
    } else if n < 0x800 {
      Value2OfSplit(n);
      assert b[0] == 0xC0 + n / 64 && b[1] == 0x80 + n % 64;
    } else if n < 0x10000 {
      Value3OfSplit(n);
      assert b[0] == 0xE0 + n / 4096 && b[1] == 0x80 + (n / 64) % 64 && b[2] == 0x80 + n % 64;
    } else {
      Value4OfSplit(n);
      assert b[0] == 0xF0 + n / 262144 && b[1] == 0x80 + (n / 4096) % 64;
      assert b[2] == 0x80 + (n / 64) % 64 && b[3] == 0x80 + n % 64;
    }
  }

  /** Decoding the encoding of a string gives the string back. */
  lemma {:induction false} DecodeEncode(s: string)
    ensures Decode(Encode(s)) == Some(s)
    decreases |s|
  {
    if s != [] {
      var head, tail := EncodeChar(s[0]), Encode(s[1..]);
      DecodeFirstEncodeChar(s[0], tail);
      assert (head + tail)[|head|..] == tail;
      DecodeEncode(s[1..]);
      assert s == [s[0]] + s[1..];
    }
  }

  lemma SplitOfValue2(b0: int, b1: int)
    requires 0xC2 <= b0 < 0xE0 && 0x80 <= b1 < 0xC0
    ensures var n := Value2(b0, b1);
      0x80 <= n < 0x800 && 0xC0 + n / 64 == b0 && 0x80 + n % 64 == b1
  {
  }

  lemma SplitOfValue3(b0: int, b1: int, b2: int)
    requires 0xE0 <= b0 < 0xF0 && 0x80 <= b1 < 0xC0 && 0x80 <= b2 < 0xC0
    ensures var n := Value3(b0, b1, b2);
      n < 0x10000 && 0xE0 + n / 4096 == b0 && 0x80 + (n / 64) % 64 == b1 && 0x80 + n % 64 == b2
  {
    var x, y, z := b0 - 0xE0, b1 - 0x80, b2 - 0x80;
    var n := Value3(b0, b1, b2);
    assert n == (x * 64 + y) * 64 + z;
    DivModOf(x * 64 + y, z, 64);
    DivModOf(x, y, 64);
    assert n == x * 4096 + (y * 64 + z);
    DivModOf(x, y * 64 + z, 4096);
  }

  lemma SplitOfValue4(b0: int, b1: int, b2: int, b3: int)
    requires 0xF0 <= b0 <= 0xF4 && 0x80 <= b1 < 0xC0 && 0x80 <= b2 < 0xC0 && 0x80 <= b3 < 0xC0
    ensures var n := Value4(b0, b1, b2, b3);
      0xF0 + n / 262144 == b0 && 0x80 + (n / 4096) % 64 == b1
      && 0x80 + (n / 64) % 64 == b2 && 0x80 + n % 64 == b3
  {
    var w, x, y, z := b0 - 0xF0, b1 - 0x80, b2 - 0x80, b3 - 0x80;
    var n := Value4(b0, b1, b2, b3);
    assert n == ((w * 64 + x) * 64 + y) * 64 + z;
    DivModOf((w * 64 + x) * 64 + y, z, 64);
    DivModOf(w * 64 + x, y, 64);
    assert n == (w * 64 + x) * 4096 + (y * 64 + z);
    DivModOf(w * 64 + x, y * 64 + z, 4096);
    DivModOf(w, x, 64);
    assert n == w * 262144 + (x * 4096 + y * 64 + z);
    DivModOf(w, x * 4096 + y * 64 + z, 262144);
  }

  lemma EncodeCharDecodeFirst(b: seq<byte>)
    requires |b| > 0 && DecodeFirst(b).Some?
    ensures EncodeChar(DecodeFirst(b).value.0) == b[..DecodeFirst(b).value.1]
  {
    var b0 := b[0];
    if b0 < 0x80 {
      assert b[..1] == [b0];
    } else if 0xC2 <= b0 < 0xE0 {
      SplitOfValue2(b0, b[1]);
      assert b[..2] == [b[0], b[1]];
    } else if 0xE0 <= b0 < 0xF0 {
      SplitOfValue3(b0, b[1], b[2]);
      assert b[..3] == [b[0], b[1], b[2]];
    } else {
      SplitOfValue4(b0, b[1], b[2], b[3]);
      assert b[..4] == [b[0], b[1], b[2], b[3]];
    }
  }

  /** An accepted byte string is its first character's bytes followed by an
      accepted rest. */
  lemma DecodeCons(b: seq<byte>)
    requires b != [] && Decode(b).Some?
    ensures DecodeFirst(b).Some?
    ensures var k := DecodeFirst(b).value.1;
      Decode(b[k..]).Some? && Decode(b).value == [DecodeFirst(b).value.0] + Decode(b[k..]).value
  {
  }

  lemma EncodeCons(c: char, rest: string)
    ensures Encode([c] + rest) == EncodeChar(c) + Encode(rest)
  {
    assert ([c] + rest)[1..] == rest;
  }

  /** A byte string the decoder accepts is exactly the encoding of what it
      decodes to: the decoder accepts nothing but encodings. */
  lemma {:induction false} EncodeDecode(b: seq<byte>)
    requires Decode(b).Some?
    ensures Encode(Decode(b).value) == b
    decreases |b|
  {
    if b != [] {
      DecodeCons(b);
      var c, k := DecodeFirst(b).value.0, DecodeFirst(b).value.1;
      EncodeCharDecodeFirst(b);
      EncodeDecode(b[k..]);
      EncodeCons(c, Decode(b[k..]).value);
      assert b == b[..k] + b[k..];
    }
  }
}
