/** Python's string and byte helpers the wallet leans on: lower(), `in`, hex(), fromhex(), str(int). */
module Text {
  import opened Wrappers
  import Radix

  type byte = n: nat | n < 256
  type bytes = seq<byte>

  /** What SHA-256 and Keccak-256 return; the functions themselves are arbitrary. */
  type Digest = d: bytes | |d| == 32 witness seq(32, _ => 0)

  // --- case folding (ASCII) and substrings ---

  function LowerChar(c: char): char {
    if 'A' <= c <= 'Z' then c + 'a' - 'A' else c
  }

  function UpperChar(c: char): char {
    if 'a' <= c <= 'z' then c - 'a' + 'A' else c
  }

  function Lower(s: string): (r: string)
    ensures |r| == |s|
    ensures forall i :: 0 <= i < |s| ==> r[i] == LowerChar(s[i])
  {
    if s == "" then "" else [LowerChar(s[0])] + Lower(s[1..])
  }

  lemma {:induction false} LowerConcat(a: string, b: string)
    ensures Lower(a + b) == Lower(a) + Lower(b)
  {
  }

  lemma {:induction false} LowerIdempotent(s: string)
    ensures Lower(Lower(s)) == Lower(s)
  {
  }

  /** Starts with 0x or 0X. */
  predicate HasPrefix(s: string) {
    |s| >= 2 && Lower(s[..2]) == "0x"
  }

  predicate OccursAt(needle: string, hay: string, i: nat) {
    i + |needle| <= |hay| && hay[i..i + |needle|] == needle
  }

  /** Python's `needle in hay`. */
  predicate Contains(hay: string, needle: string) {
    exists i: nat | i <= |hay| :: OccursAt(needle, hay, i)
  }

  lemma {:induction false} ContainsLower(hay: string, needle: string)
    requires Contains(hay, needle)
    ensures Contains(Lower(hay), Lower(needle))
  {
    var i: nat :| i <= |hay| && OccursAt(needle, hay, i);
    assert OccursAt(Lower(needle), Lower(hay), i);
  }

  /** Letter i of the one alphabet becomes letter i of the other; every other character stays. */
  lemma CaseFollowsAlphabets(c: char, i: nat)
    requires i < 26
    ensures var lower, upper := "abcdefghijklmnopqrstuvwxyz", "ABCDEFGHIJKLMNOPQRSTUVWXYZ";
      && LowerChar(upper[i]) == lower[i] && UpperChar(lower[i]) == upper[i]
      && (c !in upper ==> LowerChar(c) == c) && (c !in lower ==> UpperChar(c) == c)
  {
    var lower, upper := "abcdefghijklmnopqrstuvwxyz", "ABCDEFGHIJKLMNOPQRSTUVWXYZ";
    assert forall k :: 0 <= k < 26 ==> lower[k] == 'a' + k as char && upper[k] == 'A' + k as char;
    if 'A' <= c <= 'Z' {
      assert upper[c as int - 'A' as int] == c;
    }
    if 'a' <= c <= 'z' {
      assert lower[c as int - 'a' as int] == c;
    }
  }

  lemma PrefixMeaning(s: string)
    ensures HasPrefix(s) <==> |s| >= 2 && s[0] == '0' && s[1] in "xX"
  {
    if |s| >= 2 {
      assert Lower(s[..2]) == [LowerChar(s[0]), LowerChar(s[1])];
    }
  }

  /** Containment is being cut out of the middle. */
  lemma ContainsMeaning(hay: string, needle: string)
    ensures Contains(hay, needle) <==> exists before: string, after: string :: before + needle + after == hay
  {
    if Contains(hay, needle) {
      var i: nat :| i <= |hay| && OccursAt(needle, hay, i);
      assert hay[..i] + needle + hay[i + |needle|..] == hay;
    }
    if before: string, after: string :| before + needle + after == hay {
      assert OccursAt(needle, hay, |before|);
    }
  }

  // --- hexadecimal ---

  function HexDigit(v: nat): char
    requires v < 16
  {
    if v < 10 then '0' + v as char else 'a' + (v - 10) as char
  }

  function HexValue(c: char): (v: Option<nat>)
    ensures v.Some? ==> v.value < 16
  {
    if '0' <= c <= '9' then Some((c - '0') as nat)
    else if 'a' <= c <= 'f' then Some((c - 'a') as nat + 10)
    else if 'A' <= c <= 'F' then Some((c - 'A') as nat + 10)
    else None
  }

  function HexPair(v: byte): string {
    [HexDigit(v / 16), HexDigit(v % 16)]
  }

  /** bytes.hex(): two lower-case digits a byte. */
  function Hex(data: bytes): (s: string)
    ensures |s| == 2 * |data|
  {
    if data == [] then "" else HexPair(data[0]) + Hex(data[1..])
  }

  predicate IsSpace(c: char) {
    c == ' ' || c == '\t' || c == '\n' || c == '\r' || c == 11 as char || c == 12 as char
  }

  function ReadPair(s: string): (v: Option<byte>)
    ensures v.Some? ==> |s| >= 2
  {
    if |s| < 2 || HexValue(s[0]).None? || HexValue(s[1]).None? then None
    else Some(16 * HexValue(s[0]).value + HexValue(s[1]).value)
  }

  /** bytes.fromhex(): pairs of hex digits in either case; ASCII white space between pairs is skipped. */
  function FromHex(s: string): Result<bytes> {
    if s == "" then Success([])
    else if IsSpace(s[0]) then FromHex(s[1..])
    else match ReadPair(s)
      case None => Failure(ValueError)
      case Some(v) =>
        var rest :- FromHex(s[2..]);
        Success([v] + rest)
  }

  lemma HexDigitValue(v: nat)
    requires v < 16
    ensures HexValue(HexDigit(v)) == Some(v)
    ensures !IsSpace(HexDigit(v))
    ensures LowerChar(HexDigit(v)) == HexDigit(v)
  {
  }

  /** The sixteen digits, written in lower case and read in either. */
  lemma HexAlphabet(c: char, v: nat)
    requires v < 16
    ensures HexDigit(v) == "0123456789abcdef"[v]
    ensures HexValue(c) == Some(v) <==> c == "0123456789abcdef"[v] || c == "0123456789ABCDEF"[v]
  {
  }

  /** Reading starts with white space, which is skipped, or with two digits, or it fails. */
  lemma {:induction false} FromHexStep(c: char, rest: string)
    ensures c in [' ', '\t', '\n', '\r', 11 as char, 12 as char] ==> FromHex([c] + rest) == FromHex(rest)
    ensures c !in [' ', '\t', '\n', '\r', 11 as char, 12 as char] && HexValue(c).None? ==>
      FromHex([c] + rest) == Failure(ValueError)
  {
    assert ([c] + rest)[1..] == rest;
  }

  lemma {:induction false} FromHexOfHex(data: bytes)
    ensures FromHex(Hex(data)) == Success(data)
  {
    if data != [] {
      HexDigitValue(data[0] / 16);
      HexDigitValue(data[0] % 16);
      FromHexOfHex(data[1..]);
      assert Hex(data)[2..] == Hex(data[1..]);
      assert [data[0]] + data[1..] == data;
    }
  }

  lemma {:induction false} HexConcat(a: bytes, b: bytes)
    ensures Hex(a + b) == Hex(a) + Hex(b)
  {
    if a == [] {
      assert a + b == b;
    } else {
      assert (a + b)[1..] == a[1..] + b;
      HexConcat(a[1..], b);
    }
  }

  lemma {:induction false} HexIsLower(data: bytes)
    ensures Lower(Hex(data)) == Hex(data)
  {
    if data != [] {
      HexDigitValue(data[0] / 16);
      HexDigitValue(data[0] % 16);
      HexIsLower(data[1..]);
      assert Lower(HexPair(data[0])) == HexPair(data[0]);
      LowerConcat(HexPair(data[0]), Hex(data[1..]));
    }
  }

  /** Reading hex ignores letter case. */
  lemma {:induction false} FromHexOfLower(s: string)
    ensures FromHex(Lower(s)) == FromHex(s)
    decreases |s|
  {
    if s != "" {
      assert Lower(s)[1..] == Lower(s[1..]);
      if IsSpace(s[0]) {
        FromHexOfLower(s[1..]);
      } else if |s| >= 2 {
        assert Lower(s)[2..] == Lower(s[2..]);
        FromHexOfLower(s[2..]);
      }
    }
  }

  // --- decimal ---

  const DECIMAL_DIGITS: string := "0123456789"

  function DecimalChars(ds: seq<nat>): (s: string)
    requires Radix.Digits(ds, 10)
    ensures |s| == |ds|
    ensures forall i :: 0 <= i < |ds| ==> s[i] == DECIMAL_DIGITS[ds[i]]
  {
    seq(|ds|, i requires 0 <= i < |ds| => DECIMAL_DIGITS[ds[i]])
  }

  /** str(n) for n >= 0. */
  function Decimal(n: nat): string {
    if n == 0 then "0" else DecimalChars(Radix.ToDigits(n, 10))
  }

  lemma DecimalCharInjective(a: nat, b: nat)
    requires a < 10 && b < 10 && DECIMAL_DIGITS[a] == DECIMAL_DIGITS[b]
    ensures a == b
  {
  }

  /** The number a string of decimal digits denotes, most significant digit first. */
  function ReadDecimal(s: string): int {
    if s == "" then 0 else 10 * ReadDecimal(s[..|s| - 1]) + (s[|s| - 1] as int - '0' as int)
  }

  lemma {:induction false} ReadDecimalChars(ds: seq<nat>)
    requires Radix.Digits(ds, 10)
    ensures ReadDecimal(DecimalChars(ds)) == Radix.FromDigits(ds, 10)
  {
    if ds != [] {
      var front := ds[..|ds| - 1];
      ReadDecimalChars(front);
      assert DecimalChars(ds)[..|ds| - 1] == DecimalChars(front);
    }
  }

  /** str(n) consists of digits, reads back as n, and starts with a zero only if it is "0". */
  lemma DecimalMeaning(n: nat)
    ensures ReadDecimal(Decimal(n)) == n && Decimal(n) != ""
    ensures forall i :: 0 <= i < |Decimal(n)| ==> Decimal(n)[i] in "0123456789"
    ensures Decimal(n)[0] == '0' ==> Decimal(n) == "0"
  {
    if n == 0 {
      assert "0"[..0] == "";
    } else {
      var ds := Radix.ToDigits(n, 10);
      Radix.FromToDigits(n, 10);
      ReadDecimalChars(ds);
      assert ds[0] != 0;
    }
  }

  lemma DecimalInjective(m: nat, n: nat)
    requires Decimal(m) == Decimal(n)
    ensures m == n
  {
    var a := if m == 0 then [0] else Radix.ToDigits(m, 10);
    var b := if n == 0 then [0] else Radix.ToDigits(n, 10);
    assert Decimal(m) == DecimalChars(a) && Decimal(n) == DecimalChars(b);
    assert |a| == |b|;
    forall i | 0 <= i < |a| ensures a[i] == b[i] {
      assert DecimalChars(a)[i] == DecimalChars(b)[i];
      DecimalCharInjective(a[i], b[i]);
    }
    assert a == b;
    Radix.FromToDigits(m, 10);
    Radix.FromToDigits(n, 10);
  }
}
