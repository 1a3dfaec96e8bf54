/** Octets, as the byte strings a browser hands to `btoa` or reads from a file. */
module Bytes {
  type byte = b: int | 0 <= b < 256
}

/** The base64 encoding of section 4 of RFC 4648 (alphabet `A`-`Z`, `a`-`z`,
    `0`-`9`, `+`, `/`, padded with `=` to a multiple of four characters), as
    produced by `btoa` and by `FileReader.readAsDataURL`.

    Encoding goes in two stages: octets are cut into 6-bit groups (sextets),
    then each sextet becomes one alphabet character and pad characters fill
    the last quantum. The decoder, which undoes both stages, is the partner
    used to state what the encoder preserves; it accepts exactly the canonical
    encodings (unused bits of the last quantum zero). */
module Base64 {
  import opened Outcomes
  import opened Bytes
  import opened Arith

  type sextet = i: int | 0 <= i < 64

  function CharOf(i: sextet): (c: char)
    ensures c != '=' && c != ','
  {
    if i < 26 then ('A' as int + i) as char
    else if i < 52 then ('a' as int + (i - 26)) as char
    else if i < 62 then ('0' as int + (i - 52)) as char
    else if i == 62 then '+'
    else '/'
  }

  function IndexOf(c: char): (r: Option<sextet>)
    ensures r.Some? ==> CharOf(r.value) == c
  {
    if 'A' <= c <= 'Z' then Some(c as int - 'A' as int)
    else if 'a' <= c <= 'z' then Some(c as int - 'a' as int + 26)
    else if '0' <= c <= '9' then Some(c as int - '0' as int + 52)
    else if c == '+' then Some(62)
    else if c == '/' then Some(63)
    else None
  }

  /** The alphabet is a bijection between sextets and 64 characters. */
  lemma IndexOfCharOf(i: sextet)
    ensures IndexOf(CharOf(i)) == Some(i)
  {
  }

  // ---- octets <-> sextets ----

  /** Octets cut into sextets, most significant bit first: three octets give
      four sextets, a final single octet two and a final pair three, the
      unused low bits set to zero. */
  function ToSextets(b: seq<byte>): (c: seq<sextet>)
    decreases |b|
  {
    if |b| == 0 then []
    else if |b| == 1 then [b[0] / 4, (b[0] % 4) * 16]
    else if |b| == 2 then [b[0] / 4, (b[0] % 4) * 16 + b[1] / 16, (b[1] % 16) * 4]
    else Quantum(b[0], b[1], b[2]) + ToSextets(b[3..])
  }

  /** Three octets cut into four sextets. */
  function Quantum(b0: byte, b1: byte, b2: byte): (q: seq<sextet>)
    ensures |q| == 4
  {
    [b0 / 4, (b0 % 4) * 16 + b1 / 16, (b1 % 16) * 4 + b2 / 64, b2 % 64]
  }

  /** The first octet of a quantum: six bits of `c0` and the top two of `c1`. */
  function High(c0: sextet, c1: sextet): byte {
    (c0 as int) * 4 + c1 / 16
  }

  /** The second octet: the low four bits of `c1` and the top four of `c2`. */
  function Middle(c1: sextet, c2: sextet): byte {
    ((c1 as int) % 16) * 16 + c2 / 4
  }

  /** The third octet: the low two bits of `c2` and all of `c3`. */
  function Low(c2: sextet, c3: sextet): byte {
    ((c2 as int) % 4) * 64 + c3
  }

  /** Sextets back to octets; `None` for a count that no octet string gives
      (one sextet over a multiple of four) or for non-zero unused bits. */
  function FromSextets(c: seq<sextet>): Option<seq<byte>>
    decreases |c|
  {
    if |c| == 0 then Some([])
    else if |c| == 1 then None
    else if |c| == 2 then
      if c[1] % 16 == 0 then Some([High(c[0], c[1])]) else None
    else if |c| == 3 then
      if c[2] % 4 == 0 then Some([High(c[0], c[1]), Middle(c[1], c[2])]) else None
    else
      match FromSextets(c[4..])
      case Some(rest) => Some([High(c[0], c[1]), Middle(c[1], c[2]), Low(c[2], c[3])] + rest)
      case None => None
  }

  lemma HighOfSplit(b0: byte, b1: byte)
    ensures High(b0 / 4, (b0 % 4) * 16 + b1 / 16) == b0
  {
  }

  lemma MiddleOfSplit(b0: byte, b1: byte, b2: byte)
    ensures Middle((b0 % 4) * 16 + b1 / 16, (b1 % 16) * 4 + b2 / 64) == b1
  {
    DivModOf(b0 % 4, b1 / 16, 16);
    DivModOf(b1 % 16, b2 / 64, 4);
  }

  lemma LowOfSplit(b1: byte, b2: byte)
    ensures Low((b1 % 16) * 4 + b2 / 64, b2 % 64) == b2
  {
  }

  lemma {:induction false} FromToSextets(b: seq<byte>)
    ensures FromSextets(ToSextets(b)) == Some(b)
    decreases |b|
  {
    if |b| == 1 {
      HighOfSplit(b[0], 0);
      assert b == [b[0]];
    } else if |b| == 2 {
      TwoOctets(b);
    } else if |b| >= 3 {
      var rest := b[3..];
      FromToSextets(rest);
      Triple(b[0], b[1], b[2], rest);
      assert b == [b[0], b[1], b[2]] + rest;
    }
  }

  lemma TwoOctets(b: seq<byte>)
    requires |b| == 2
    ensures FromSextets(ToSextets(b)) == Some(b)
  {
    assert b == [b[0], b[1]];
    Pair(b[0], b[1]);
  }

  lemma Pair(b0: byte, b1: byte)
    ensures FromSextets(ToSextets([b0, b1])) == Some([b0, b1])
  {
    HighOfSplit(b0, b1);
    LastOfPair(b0, b1);
  }

  /** The last sextet of a final pair has its two unused bits clear, and with
      the middle one gives the second octet back. */
  lemma LastOfPair(b0: byte, b1: byte)
    ensures ((b1 % 16) * 4) % 4 == 0
    ensures Middle((b0 % 4) * 16 + b1 / 16, (b1 % 16) * 4) == b1
  {
    MiddleOfSplit(b0, b1, 0);
  }

  /** A full quantum in front of octets that round-trip also round-trips. */
  lemma Triple(b0: byte, b1: byte, b2: byte, rest: seq<byte>)
    requires FromSextets(ToSextets(rest)) == Some(rest)
    ensures FromSextets(ToSextets([b0, b1, b2] + rest)) == Some([b0, b1, b2] + rest)
  {
    var b := [b0, b1, b2] + rest;
    assert b[0] == b0 && b[1] == b1 && b[2] == b2 && b[3..] == rest;
    QuantumDecodes(Quantum(b0, b1, b2), ToSextets(rest), rest);
    QuantumOctets(b0, b1, b2);
  }

  /** The three octets come back out of their quantum. */
  lemma QuantumOctets(b0: byte, b1: byte, b2: byte)
    ensures var q := Quantum(b0, b1, b2);
      High(q[0], q[1]) == b0 && Middle(q[1], q[2]) == b1 && Low(q[2], q[3]) == b2
  {
    HighOfSplit(b0, b1);
    MiddleOfSplit(b0, b1, b2);
    LowOfSplit(b1, b2);
  }

  /** Four sextets in front of a decodable tail decode to three octets in
      front of the tail's octets. */
  lemma QuantumDecodes(q: seq<sextet>, tail: seq<sextet>, r: seq<byte>)
    requires |q| == 4 && FromSextets(tail) == Some(r)
    ensures FromSextets(q + tail) == Some([High(q[0], q[1]), Middle(q[1], q[2]), Low(q[2], q[3])] + r)
  {
    assert (q + tail)[4..] == tail;
  }

  /** How many sextets `n` octets give. */
  lemma {:induction false} ToSextetsLength(b: seq<byte>)
    ensures |ToSextets(b)| == 4 * (|b| / 3) + (if |b| % 3 == 0 then 0 else |b| % 3 + 1)
    decreases |b|
  {
    if |b| >= 3 {
      ToSextetsLength(b[3..]);
    }
  }

  // ---- sextets <-> characters ----

  function Chars(c: seq<sextet>): (s: string)
    ensures |s| == |c|
    ensures forall i :: 0 <= i < |c| ==> s[i] == CharOf(c[i])
  {
    seq(|c|, i requires 0 <= i < |c| => CharOf(c[i]))
  }

  /** The sextets the characters stand for; `None` when one is outside the
      alphabet (a pad character included). */
  function Sextets(s: string): (r: Option<seq<sextet>>)
    decreases |s|
  {
    if s == [] then Some([])
    else
      match (IndexOf(s[0]), Sextets(s[1..]))
      case (Some(c), Some(rest)) => Some([c] + rest)
      case _ => None
  }

  lemma {:induction false} SextetsOfChars(c: seq<sextet>)
    ensures Sextets(Chars(c)) == Some(c)
    decreases |c|
  {
    if c != [] {
      SextetsOfChars(c[1..]);
      IndexOfCharOf(c[0]);
      assert Chars(c)[1..] == Chars(c[1..]);
      assert c == [c[0]] + c[1..];
    }
  }

  // ---- the encoding ----

  /** The pad characters that complete the last quantum of `n` octets. */
  function Padding(n: nat): string {
    if n % 3 == 1 then "==" else if n % 3 == 2 then "=" else ""
  }

  /** `btoa` of a binary string whose character codes are the octets `b`. */
  function Encode(b: seq<byte>): string {
    Chars(ToSextets(b)) + Padding(|b|)
  }

  /** At most two trailing pad characters removed. */
  function Unpadded(s: string): (u: string)
    ensures |u| <= |s| && u == s[..|u|]
  {
    if |s| >= 2 && s[|s| - 2..] == "==" then s[..|s| - 2]
    else if |s| >= 1 && s[|s| - 1] == '=' then s[..|s| - 1]
    else s
  }

  /** Base64 text back to octets, or `None` if it is not a canonical
      encoding. */
  function Decode(s: string): Option<seq<byte>> {
    if |s| % 4 != 0 then None
    else
      match Sextets(Unpadded(s))
      case Some(c) => FromSextets(c)
      case None => None
  }

  /** Every three octets, and a final one or two, become four characters. */
  lemma EncodeLength(b: seq<byte>)
    ensures |Encode(b)| == 4 * ((|b| + 2) / 3)
  {
    ToSextetsLength(b);
  }

  /** The encoding fills whole quanta, and padding only follows a partial one
      of at least two sextets. */
  lemma EncodeQuanta(b: seq<byte>)
    ensures |Encode(b)| % 4 == 0
    ensures Padding(|b|) != "" ==> |ToSextets(b)| >= 2
  {
    EncodeLength(b);
    ToSextetsLength(b);
    WholeQuanta(|b|);
  }

  lemma WholeQuanta(n: nat)
    ensures (4 * ((n + 2) / 3)) % 4 == 0
    ensures Padding(n) != "" <==> n % 3 != 0
  {
  }

  /** Pad characters are never alphabet characters, so removing them leaves
      exactly the encoded sextets. */
  lemma UnpaddedChars(c: seq<sextet>, pad: string)
    requires pad == "" || pad == "=" || pad == "=="
    requires pad != "" ==> |c| >= 2
    ensures Unpadded(Chars(c) + pad) == Chars(c)
  {
    var s := Chars(c) + pad;
    assert s[..|c|] == Chars(c);
    if |c| >= 2 {
      assert s[|c| - 1] == CharOf(c[|c| - 1]);
      assert s[|c| - 2] == CharOf(c[|c| - 2]);
      if pad == "=" {
        assert s[|s| - 2..][0] != '=';
      } else if pad == "" {
        assert s[|s| - 2..][1] != '=';
      }
    } else if |c| == 1 {
      assert s[0] == CharOf(c[0]);
    }
  }

  /** Decoding an encoding gives back the octets (section 4 of RFC 4648). */
  lemma DecodeEncode(b: seq<byte>)
    ensures Decode(Encode(b)) == Some(b)
  {
    var c := ToSextets(b);
    EncodeQuanta(b);
    UnpaddedChars(c, Padding(|b|));
    SextetsOfChars(c);
    FromToSextets(b);
  }

  /** An encoding never contains a comma, so it survives being cut out of a
      `data:` URL at the first comma. */
  lemma EncodeHasNoComma(b: seq<byte>)
    ensures ',' !in Encode(b)
  {
    var c := ToSextets(b);
    assert forall i :: 0 <= i < |c| ==> Chars(c)[i] != ',';
  }

  // ---- the converse: the decoder accepts only encodings ----

  /** The cut of each octet of a quantum gives back the sextet bits it was
      assembled from. */
  lemma HighParts(c0: sextet, c1: sextet)
    ensures High(c0, c1) / 4 == c0 && High(c0, c1) % 4 == c1 / 16
  {
    DivModOf(c0, c1 / 16, 4);
  }

  lemma MiddleParts(c1: sextet, c2: sextet)
    ensures Middle(c1, c2) / 16 == c1 % 16 && Middle(c1, c2) % 16 == c2 / 4
  {
    DivModOf(c1 % 16, c2 / 4, 16);
  }

  lemma LowParts(c2: sextet, c3: sextet)
    ensures Low(c2, c3) / 64 == c2 % 4 && Low(c2, c3) % 64 == c3
  {
    DivModOf(c2 % 4, c3, 64);
  }

  lemma Recompose(c: sextet)
    ensures (c / 16) * 16 + c % 16 == c && (c / 4) * 4 + c % 4 == c
  {
  }

  /** Four sextets put through the octet split and cut again come back. */
  lemma SextetsOfQuantum(c0: sextet, c1: sextet, c2: sextet, c3: sextet)
    ensures Quantum(High(c0, c1), Middle(c1, c2), Low(c2, c3)) == [c0, c1, c2, c3]
  {
    HighParts(c0, c1);
    MiddleParts(c1, c2);
    LowParts(c2, c3);
    QuantumOfParts(High(c0, c1), Middle(c1, c2), Low(c2, c3), c0, c1, c2, c3);
  }

  lemma QuantumOfParts(x: byte, y: byte, z: byte, c0: sextet, c1: sextet, c2: sextet, c3: sextet)
    requires x / 4 == c0 && x % 4 == c1 / 16
    requires y / 16 == c1 % 16 && y % 16 == c2 / 4
    requires z / 64 == c2 % 4 && z % 64 == c3
    ensures Quantum(x, y, z) == [c0, c1, c2, c3]
  {
    Recompose(c1);
    Recompose(c2);
  }

  /** A final two sextets with clear unused bits come back from their octet. */
  lemma SextetsOfPair(c0: sextet, c1: sextet)
    requires c1 % 16 == 0
    ensures ToSextets([High(c0, c1)]) == [c0, c1]
  {
    HighParts(c0, c1);
    Recompose(c1);
  }

  /** A final three sextets with clear unused bits come back from their two
      octets. */
  lemma SextetsOfTriple(c0: sextet, c1: sextet, c2: sextet)
    requires c2 % 4 == 0
    ensures ToSextets([High(c0, c1), Middle(c1, c2)]) == [c0, c1, c2]
  {
    var x, y := High(c0, c1), Middle(c1, c2);
    HighParts(c0, c1);
    MiddleParts(c1, c2);
    Recompose(c1);
    Recompose(c2);
    assert (x % 4) * 16 + y / 16 == c1;
    assert (y % 16) * 4 == c2;
  }

  lemma ToSextetsCons(b0: byte, b1: byte, b2: byte, rest: seq<byte>)
    ensures ToSextets([b0, b1, b2] + rest) == Quantum(b0, b1, b2) + ToSextets(rest)
  {
    assert ([b0, b1, b2] + rest)[3..] == rest;
  }

  /** Sextets the octet stage accepts are exactly the cut of what it gives. */
  lemma {:induction false} ToFromSextets(c: seq<sextet>)
    requires FromSextets(c).Some?
    ensures ToSextets(FromSextets(c).value) == c
    decreases |c|
  {
    if |c| == 2 {
      SextetsOfPair(c[0], c[1]);
      assert c == [c[0], c[1]];
    } else if |c| == 3 {
      SextetsOfTriple(c[0], c[1], c[2]);
      assert c == [c[0], c[1], c[2]];
    } else if |c| >= 4 {
      var tail := c[4..];
      ToFromSextets(tail);
      var rest := FromSextets(tail).value;
      var h, m, l := High(c[0], c[1]), Middle(c[1], c[2]), Low(c[2], c[3]);
      assert FromSextets(c).value == [h, m, l] + rest;
      ToSextetsCons(h, m, l, rest);
      SextetsOfQuantum(c[0], c[1], c[2], c[3]);
      assert c == [c[0], c[1], c[2], c[3]] + tail;
    }
  }

  /** Characters the alphabet stage accepts are exactly the characters of
      what it gives. */
  lemma {:induction false} CharsOfSextets(s: string)
    requires Sextets(s).Some?
    ensures Chars(Sextets(s).value) == s
    decreases |s|
  {
    if s != [] {
      CharsOfSextets(s[1..]);
      var c := Sextets(s).value;
      assert c == [IndexOf(s[0]).value] + Sextets(s[1..]).value;
      assert Chars(c)[1..] == Chars(c[1..]);
      assert s == [s[0]] + s[1..];
    }
  }

  /** What `Unpadded` removes is no, one or two pad characters. */
  lemma UnpaddedRest(s: string)
    ensures var pad := s[|Unpadded(s)|..]; pad == "" || pad == "=" || pad == "=="
  {
  }

  /** The pad characters that complete a whole number of quanta are the
      ones the encoder writes for that many octets. */
  lemma PaddingOfLength(n: nat, sextets: nat, pad: nat)
    requires sextets == 4 * (n / 3) + (if n % 3 == 0 then 0 else n % 3 + 1)
    requires pad <= 2 && (sextets + pad) % 4 == 0
    ensures pad == |Padding(n)|
  {
    var q, t := n / 3, sextets - 4 * (n / 3) + pad;
    assert sextets + pad == q * 4 + t;
    if t < 4 {
      DivModOf(q, t, 4);
    } else {
      DivModOf(q + 1, t - 4, 4);
    }
  }

  /** A text made of `u` and the pad characters after it is `u` followed by
      the padding for `n` octets, when `u` is as long as their sextets. */
  lemma PadAgrees(s: string, u: string, n: nat)
    requires |s| % 4 == 0 && |u| <= |s| && u == s[..|u|]
    requires |u| == 4 * (n / 3) + (if n % 3 == 0 then 0 else n % 3 + 1)
    requires var pad := s[|u|..]; pad == "" || pad == "=" || pad == "=="
    ensures s == u + Padding(n)
  {
    var pad := s[|u|..];
    PaddingOfLength(n, |u|, |pad|);
    assert s == u + pad;
  }

  /** What an accepted text is made of: its unpadded part spells sextets
      that the octet stage accepts. */
  lemma DecodeParts(s: string)
    requires Decode(s).Some?
    ensures |s| % 4 == 0
    ensures Sextets(Unpadded(s)).Some? && FromSextets(Sextets(Unpadded(s)).value) == Decode(s)
  {
  }

  /** Every text the decoder accepts is the encoding of what it decodes to:
      the decoder accepts nothing but canonical encodings. */
  lemma EncodeDecode(s: string)
    requires Decode(s).Some?
    ensures Encode(Decode(s).value) == s
  {
    DecodeParts(s);
    var u := Unpadded(s);
    var c := Sextets(u).value;
    var b := Decode(s).value;
    CharsOfSextets(u);
    ToFromSextets(c);
    ToSextetsLength(b);
    UnpaddedRest(s);
    PadAgrees(s, u, |b|);
  }
}
