/**
 str.encode() and bytes.decode("utf-8"), strict: Unicode scalar values on one side, well-formed
 UTF-8 (section 3 of RFC 3629) on the other. Decoding accepts exactly what encoding produces.
 */
module Utf8 {
  import opened Wrappers
  import opened Text

  function EncodeChar(c: char): (b: bytes)
    ensures 1 <= |b| <= 4
  {
    var n := c as int;
    if n < 0x80 then [n]
    else if n < 0x800 then [0xC0 + n / 64, 0x80 + n % 64]
    else if n < 0x10000 then [0xE0 + n / 4096, 0x80 + n / 64 % 64, 0x80 + n % 64]
    else [0xF0 + n / 262144, 0x80 + n / 4096 % 64, 0x80 + n / 64 % 64, 0x80 + n % 64]
  }

  function Encode(s: string): bytes {
    if s == "" then [] else EncodeChar(s[0]) + Encode(s[1..])
  }

  predicate Continues(b: bytes, i: nat) {
    i < |b| && 0x80 <= b[i] < 0xC0
  }

  /** The payload of a byte whose marker bits are worth `mark`. */
  function Bits(b: bytes, i: nat, mark: int): int
    requires i < |b|
  {
    b[i] as int - mark
  }

  predicate IsScalar(n: int) {
    0 <= n < 0xD800 || 0xE000 <= n < 0x110000
  }

  /** The first character and how many bytes it took; None on any malformed, overlong or surrogate form. */
  function DecodeFirst(b: bytes): (r: Option<(char, nat)>)
    requires b != []
    ensures r.Some? ==> 1 <= r.value.1 <= |b|
  {
    if b[0] < 0x80 then Some((b[0] as char, 1))
    else if 0xC0 <= b[0] < 0xE0 && Continues(b, 1) then
      var n := Bits(b, 0, 0xC0) * 64 + Bits(b, 1, 0x80);
      if 0x80 <= n then Some((n as char, 2)) else None
    else if 0xE0 <= b[0] < 0xF0 && Continues(b, 1) && Continues(b, 2) then
      var n := Bits(b, 0, 0xE0) * 4096 + Bits(b, 1, 0x80) * 64 + Bits(b, 2, 0x80);
      if 0x800 <= n && IsScalar(n) then Some((n as char, 3)) else None
    else if 0xF0 <= b[0] < 0xF8 && Continues(b, 1) && Continues(b, 2) && Continues(b, 3) then
      var n := Bits(b, 0, 0xF0) * 262144 + Bits(b, 1, 0x80) * 4096 + Bits(b, 2, 0x80) * 64 + Bits(b, 3, 0x80);
      if 0x10000 <= n && IsScalar(n) then Some((n as char, 4)) else None
    else None
  }

  function Decode(b: bytes): Option<string> {
    if b == [] then Some("") else
      match DecodeFirst(b)
      case None => None
      case Some((c, k)) =>
        match Decode(b[k..])
        case None => None
        case Some(rest) => Some([c] + rest)
  }

  /** The table of section 3 of RFC 3629: how many bytes, their marker bits, and the number their payloads spell. */
  lemma EncodeCharTable(c: char)
    ensures var b, n := EncodeChar(c), c as int;
      if n < 0x80 then b == [n]
      else if n < 0x800 then
        |b| == 2 && 0xC0 <= b[0] < 0xE0 && Continues(b, 1) && Bits(b, 0, 0xC0) * 64 + Bits(b, 1, 0x80) == n
      else if n < 0x10000 then
        |b| == 3 && 0xE0 <= b[0] < 0xF0 && Continues(b, 1) && Continues(b, 2)
        && Bits(b, 0, 0xE0) * 4096 + Bits(b, 1, 0x80) * 64 + Bits(b, 2, 0x80) == n
      else
        |b| == 4 && 0xF0 <= b[0] < 0xF8 && Continues(b, 1) && Continues(b, 2) && Continues(b, 3)
        && Bits(b, 0, 0xF0) * 262144 + Bits(b, 1, 0x80) * 4096 + Bits(b, 2, 0x80) * 64 + Bits(b, 3, 0x80) == n
  {
    var n := c as int;
    assert n / 4096 == n / 64 / 64 && n / 262144 == n / 64 / 64 / 64;
  }

  lemma DecodeFirstOfEncoded(c: char, rest: bytes)
    ensures DecodeFirst(EncodeChar(c) + rest) == Some((c, |EncodeChar(c)|))
  {
    var n := c as int;
    var b := EncodeChar(c) + rest;
    assert n / 4096 == n / 64 / 64 && n / 262144 == n / 64 / 64 / 64;
  }

  lemma SixBitDigits(a: nat, b: nat, c: nat, d: nat)
    requires b < 64 && c < 64 && d < 64
    ensures var n := a * 262144 + b * 4096 + c * 64 + d;
      n / 262144 == a && n / 4096 % 64 == b && n / 64 % 64 == c && n % 64 == d
  {
    var n := a * 262144 + b * 4096 + c * 64 + d;
    assert n / 64 == a * 4096 + b * 64 + c;
    assert n / 4096 == a * 64 + b;
  }

  lemma EncodeOfDecodedFirst(b: bytes)
    requires b != [] && DecodeFirst(b).Some?
    ensures EncodeChar(DecodeFirst(b).value.0) == b[..DecodeFirst(b).value.1]
  {
    var k := DecodeFirst(b).value.1;
    if k == 2 {
      SixBitDigits(0, 0, Bits(b, 0, 0xC0), Bits(b, 1, 0x80));
    } else if k == 3 {
      SixBitDigits(0, Bits(b, 0, 0xE0), Bits(b, 1, 0x80), Bits(b, 2, 0x80));
    } else if k == 4 {
      SixBitDigits(Bits(b, 0, 0xF0), Bits(b, 1, 0x80), Bits(b, 2, 0x80), Bits(b, 3, 0x80));
    }
  }

  lemma {:induction false} DecodeOfEncode(s: string)
    ensures Decode(Encode(s)) == Some(s)
  {
    if s != "" {
      DecodeFirstOfEncoded(s[0], Encode(s[1..]));
      DecodeOfEncode(s[1..]);
      assert Encode(s)[|EncodeChar(s[0])|..] == Encode(s[1..]);
      assert [s[0]] + s[1..] == s;
    }
  }

  lemma {:induction false} EncodeCons(c: char, rest: string)
    ensures Encode([c] + rest) == EncodeChar(c) + Encode(rest)
  {
    assert ([c] + rest)[1..] == rest;
  }

  lemma DecodeSplit(b: bytes, s: string) returns (c: char, k: nat, rest: string)
    requires b != [] && Decode(b) == Some(s)
    ensures 1 <= k <= |b| && EncodeChar(c) == b[..k]
    ensures Decode(b[k..]) == Some(rest) && s == [c] + rest
  {
    EncodeOfDecodedFirst(b);
    var first := DecodeFirst(b).value;
    c, k := first.0, first.1;
    rest := Decode(b[k..]).value;
  }

  lemma {:induction false} EncodeOfDecode(b: bytes, s: string)
    requires Decode(b) == Some(s)
    ensures Encode(s) == b
    decreases |b|
  {
    if b != [] {
      var c, k, rest := DecodeSplit(b, s);
      EncodeOfDecode(b[k..], rest);
      EncodeCons(c, rest);
    }
  }

  /** The gate's decode-and-compare is the same as comparing bytes. */
  lemma {:induction false} DecodesToExactly(b: bytes, s: string)
    ensures Decode(b) == Some(s) <==> b == Encode(s)
  {
    DecodeOfEncode(s);
    if Decode(b) == Some(s) {
      EncodeOfDecode(b, s);
    }
  }
}
