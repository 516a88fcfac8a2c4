/** TRON addresses and amounts (chains/tron.py), and the destination rule they must meet (addresses.py). */
module Tron {
  import opened Wrappers
  import opened Text
  import Coins
  import Radix

  const TRON_MAINNET_PREFIX: byte := 0x41
  const THORCHAIN_UNITS_PER_SUN := 100
  // The alphabet in its six runs of consecutive characters: 0, O, I and l are missing.
  const B58_ALPHABET: string :=
    "123456789" + "ABCDEFGH" + "JKLMN" + "PQRSTUVWXYZ" + "abcdefghijk" + "mnopqrstuvwxyz"

  // --- base 58 ---

  function Base58Char(d: nat): char
    requires d < 58
  {
    B58_ALPHABET[d]
  }

  /** The place of a character in the alphabet; 0, O, I and l have none. */
  function Base58Digit(c: char): (d: Option<nat>)
    ensures d.Some? ==> d.value < 58
  {
    if '1' <= c <= '9' then Some((c - '1') as nat)
    else if 'A' <= c <= 'H' then Some((c - 'A') as nat + 9)
    else if 'J' <= c <= 'N' then Some((c - 'J') as nat + 17)
    else if 'P' <= c <= 'Z' then Some((c - 'P') as nat + 22)
    else if 'a' <= c <= 'k' then Some((c - 'a') as nat + 33)
    else if 'm' <= c <= 'z' then Some((c - 'm') as nat + 44)
    else None
  }

  lemma AlphabetRuns()
    ensures forall i :: 0 <= i < 9 ==> B58_ALPHABET[i] == '1' + i as char
    ensures forall i :: 9 <= i < 17 ==> B58_ALPHABET[i] == 'A' + (i - 9) as char
    ensures forall i :: 17 <= i < 22 ==> B58_ALPHABET[i] == 'J' + (i - 17) as char
    ensures forall i :: 22 <= i < 33 ==> B58_ALPHABET[i] == 'P' + (i - 22) as char
    ensures forall i :: 33 <= i < 44 ==> B58_ALPHABET[i] == 'a' + (i - 33) as char
    ensures forall i :: 44 <= i < 58 ==> B58_ALPHABET[i] == 'm' + (i - 44) as char
  {
  }

  lemma DigitOfChar(d: nat)
    requires d < 58
    ensures Base58Digit(Base58Char(d)) == Some(d)
  {
    AlphabetRuns();
  }

  lemma CharOfDigit(c: char)
    requires Base58Digit(c).Some?
    ensures Base58Char(Base58Digit(c).value) == c
  {
    AlphabetRuns();
  }

  function Base58Chars(ds: seq<nat>): (s: string)
    requires Radix.Digits(ds, 58)
    ensures |s| == |ds|
    ensures forall i :: 0 <= i < |ds| ==> s[i] == Base58Char(ds[i])
  {
    seq(|ds|, i requires 0 <= i < |ds| => Base58Char(ds[i]))
  }

  predicate InAlphabet(s: string) {
    forall i :: 0 <= i < |s| ==> Base58Digit(s[i]).Some?
  }

  function Base58Digits(s: string): (ds: seq<nat>)
    requires InAlphabet(s)
    ensures |ds| == |s| && Radix.Digits(ds, 58)
    ensures forall i :: 0 <= i < |s| ==> Base58Digit(s[i]) == Some(ds[i])
  {
    seq(|s|, i requires 0 <= i < |s| => Base58Digit(s[i]).value)
  }

  lemma CharsRoundTrip(ds: seq<nat>)
    requires Radix.Digits(ds, 58)
    ensures InAlphabet(Base58Chars(ds)) && Base58Digits(Base58Chars(ds)) == ds
  {
    forall i | 0 <= i < |ds| ensures Base58Digit(Base58Chars(ds)[i]) == Some(ds[i]) {
      DigitOfChar(ds[i]);
    }
  }

  lemma DigitsRoundTrip(s: string)
    requires InAlphabet(s)
    ensures Base58Chars(Base58Digits(s)) == s
  {
    forall i | 0 <= i < |s| ensures Base58Char(Base58Digits(s)[i]) == s[i] {
      CharOfDigit(s[i]);
    }
  }

  /** The string of a byte string: a '1' for each leading zero byte, then the base-58 numeral of its value. */
  function Base58(data: bytes): string {
    Base58Chars(Radix.Transcode(data, 256, 58))
  }

  function ToBytes(ds: seq<nat>): bytes
    requires Radix.Digits(ds, 256)
  {
    seq(|ds|, i requires 0 <= i < |ds| => ds[i] as byte)
  }

  /** A decoder written for the model: leading '1's are zero bytes, the rest is one base-58 number. */
  function Base58Decode(s: string): Option<bytes> {
    if InAlphabet(s) then Some(ToBytes(Radix.Transcode(Base58Digits(s), 58, 256))) else None
  }

  /** Every byte string is recovered, all-zero and leading-zero ones included. */
  lemma Base58RoundTrip(data: bytes)
    ensures Base58Decode(Base58(data)) == Some(data)
  {
    CharsRoundTrip(Radix.Transcode(data, 256, 58));
    Radix.TranscodeRoundTrip(data, 256, 58);
    assert ToBytes(data) == data;
  }

  /** Every string over the alphabet is the encoding of what it decodes to: encoding is a bijection. */
  lemma Base58Onto(s: string)
    requires InAlphabet(s)
    ensures Base58(Base58Decode(s).value) == s
  {
    var ds := Base58Digits(s);
    Radix.TranscodeRoundTrip(ds, 58, 256);
    DigitsRoundTrip(s);
    assert ToBytes(Radix.Transcode(ds, 58, 256)) == Radix.Transcode(ds, 58, 256);
  }

  /** The string of the same number with as many leading ones as the bytes have leading zeros. */
  lemma {:induction false} Base58Meaning(data: bytes)
    ensures var s := Base58(data);
      && InAlphabet(s) && Radix.FromDigits(Base58Digits(s), 58) == Radix.FromDigits(data, 256)
      && Radix.LeadingZeros(Base58Digits(s)) == Radix.LeadingZeros(data)
  {
    var ds := Radix.Transcode(data, 256, 58);
    var n, k := Radix.FromDigits(data, 256), Radix.LeadingZeros(data);
    CharsRoundTrip(ds);
    Radix.ZerosAddNothing(k, Radix.ToDigits(n, 58), 58);
    Radix.LeadingZerosOf(k, Radix.ToDigits(n, 58));
    Radix.FromToDigits(n, 58);
  }

  /** Digits are places in the alphabet, and the alphabet is this. */
  lemma AlphabetMeaning(c: char, d: nat)
    ensures Base58Digit(c) == Some(d) <==> d < 58 && c == B58_ALPHABET[d]
    ensures B58_ALPHABET == "123456789" + "ABCDEFGHJKLMNPQRSTUVWXYZ" + "abcdefghijkmnopqrstuvwxyz"
  {
    if d < 58 {
      DigitOfChar(d);
    }
    if Base58Digit(c).Some? {
      CharOfDigit(c);
    }
    AlphabetJoins();
  }

  lemma AlphabetJoins()
    ensures "ABCDEFGH" + "JKLMN" + "PQRSTUVWXYZ" == "ABCDEFGHJKLMNPQRSTUVWXYZ"
    ensures "abcdefghijk" + "mnopqrstuvwxyz" == "abcdefghijkmnopqrstuvwxyz"
  {
  }

  function WithChecksum(payload: bytes, sha256: bytes -> Digest): bytes {
    payload + sha256(sha256(payload))[..4]
  }

  function Base58Check(payload: bytes, sha256: bytes -> Digest): string {
    Base58(WithChecksum(payload, sha256))
  }

  lemma {:induction false} PushDigit(n: nat, digits: seq<nat>)
    requires n > 0 && Radix.Digits(digits, 58)
    ensures Radix.Digits([n % 58] + digits, 58)
    ensures Base58Chars([n % 58] + digits) == [Base58Char(n % 58)] + Base58Chars(digits)
    ensures Radix.ToDigits(n, 58) + digits == Radix.ToDigits(n / 58, 58) + ([n % 58] + digits)
  {
    Radix.MoveDigit(n, 58, digits);
    CharsCons(n % 58, digits);
  }

  lemma CharsCons(d: nat, digits: seq<nat>)
    requires d < 58 && Radix.Digits(digits, 58)
    ensures Radix.Digits([d] + digits, 58)
    ensures Base58Chars([d] + digits) == [Base58Char(d)] + Base58Chars(digits)
  {
  }

  lemma PaddedChars(pad: nat, digits: seq<nat>)
    requires Radix.Digits(digits, 58)
    ensures Base58Chars(Radix.Zeros(pad) + digits) == seq(pad, _ => '1') + Base58Chars(digits)
  {
    AlphabetRuns();
  }

  /** The loop and padding of base58check_encode: peel off base-58 digits, then a '1' for every leading zero byte. */
  method Base58Encode(data: bytes) returns (s: string)
    ensures s == Base58(data)
  {
    var n := Radix.FromDigits(data, 256);
    var out: string := "";
    ghost var digits: seq<nat> := [];
    ghost var all := Radix.ToDigits(n, 58);
    while n > 0
      invariant Radix.Digits(digits, 58) && out == Base58Chars(digits)
      invariant Radix.ToDigits(n, 58) + digits == all
    {
      var remainder := n % 58;
      PushDigit(n, digits);
      digits := [remainder] + digits;
      n, out := n / 58, [Base58Char(remainder)] + out;
    }
    var pad := Radix.LeadingZeros(data);
    s := seq(pad, _ => '1') + out;
    PaddedChars(pad, digits);
  }

  /** base58check_encode: the payload and the first four bytes of its double hash. */
  method Base58CheckEncode(payload: bytes, sha256: bytes -> Digest) returns (s: string)
    ensures s == Base58Check(payload, sha256)
    ensures Base58Decode(s) == Some(payload + sha256(sha256(payload))[..4])
  {
    var checksum := sha256(sha256(payload))[..4];
    s := Base58Encode(payload + checksum);
    Base58RoundTrip(payload + checksum);
  }

  /** Different payloads have different strings, whatever the hash. */
  lemma Base58CheckInjective(a: bytes, b: bytes, sha256: bytes -> Digest)
    requires Base58Check(a, sha256) == Base58Check(b, sha256)
    ensures a == b
  {
    Base58RoundTrip(WithChecksum(a, sha256));
    Base58RoundTrip(WithChecksum(b, sha256));
    assert WithChecksum(a, sha256)[..|a|] == a;
    assert WithChecksum(b, sha256)[..|b|] == b;
  }

  // --- addresses ---

  /** The address step of derive_address: prefix byte, 20 account bytes, checksum, base 58. */
  function AddressOf(account: bytes, sha256: bytes -> Digest): string {
    Base58Check([TRON_MAINNET_PREFIX] + account, sha256)
  }

  /** derive_address, from the account's 20 bytes on. */
  method DeriveAddress(account: bytes, sha256: bytes -> Digest) returns (s: string)
    ensures s == AddressOf(account, sha256)
  {
    s := Base58CheckEncode([TRON_MAINNET_PREFIX] + account, sha256);
  }

  /** An address decodes to the byte 0x41, the account, and the first four bytes of the double hash of both. */
  lemma AddressDecodes(account: bytes, sha256: bytes -> Digest)
    ensures var payload: bytes := [0x41] + account;
      Base58Decode(AddressOf(account, sha256)) == Some(payload + sha256(sha256(payload))[..4])
  {
    Base58RoundTrip(WithChecksum([0x41] + account, sha256));
  }

  lemma {:induction false} PowDouble(base: nat, e: nat)
    ensures Radix.Pow(base, 2 * e) == Radix.Pow(base, e) * Radix.Pow(base, e)
  {
    Radix.PowAdd(base, e, e);
  }

  lemma BigPowers()
    ensures Radix.Pow(256, 24) == 6277101735386680763835789423207666416102355444464034512896
    ensures Radix.Pow(58, 33) == 15599970876632771988160814054146447252125923204784443097088
  {
    assert Radix.Pow(256, 3) == 16777216;
    PowDouble(256, 3);
    PowDouble(256, 6);
    PowDouble(256, 12);
    assert Radix.Pow(58, 2) == 3364;
    PowDouble(58, 2);
    PowDouble(58, 4);
    PowDouble(58, 8);
    PowDouble(58, 16);
    Radix.PowAdd(58, 1, 32);
    assert Radix.Pow(58, 1) == 58;
  }

  /** 26 * 58^33 <= 0x41 * 256^24 and 0x42 * 256^24 <= 27 * 58^33: the first digit is 26, the letter T. */
  lemma AddressDigits(data: bytes)
    requires |data| == 25 && data[0] == TRON_MAINNET_PREFIX
    ensures var ds := Radix.Transcode(data, 256, 58); |ds| == 34 && ds[0] == 26
  {
    var rest := data[1..];
    assert data == [0x41] + rest;
    Radix.FirstDigitWeight(0x41, rest, 256);
    Radix.DigitsBelowPow(rest, 256);
    BigPowers();
    Radix.LeadingDigit(Radix.FromDigits(data, 256), 26, 33, 58);
    assert Radix.LeadingZeros(data) == 0;
  }

  /** Prefix 0x41, any 20 bytes, any hash: 34 characters of the alphabet, the first of them T. */
  lemma AddressShape(account: bytes, sha256: bytes -> Digest)
    requires |account| == 20
    ensures var s := AddressOf(account, sha256); |s| == 34 && s[0] == 'T' && InAlphabet(s)
  {
    var data := WithChecksum([TRON_MAINNET_PREFIX] + account, sha256);
    AddressDigits(data);
    var ds := Radix.Transcode(data, 256, 58);
    CharsRoundTrip(ds);
    AlphabetRuns();
  }

  /** The TRON pattern of addresses.py; a regular expression's $ also allows one final newline. */
  predicate MatchesTronRule(s: string) {
    var body := if |s| == 35 && s[34] == '\n' then s[..34] else s;
    |body| == 34 && body[0] == 'T' && InAlphabet(body)
  }

  /** validate_destination_address for TRON: true when it reports no problem. */
  predicate PlausibleDestination(s: string) {
    s != "" && MatchesTronRule(s)
  }

  /** The rule in full: a T and 33 characters of the alphabet, with or without a final newline. */
  lemma RuleMeaning(s: string)
    ensures PlausibleDestination(s) <==> exists body: string ::
      (body == s || body + "\n" == s) && |body| == 34 && body[0] == 'T' && InAlphabet(body)
  {
    if PlausibleDestination(s) {
      var body := if |s| == 35 && s[34] == '\n' then s[..34] else s;
      assert body == s || body + "\n" == s;
    }
    if body: string :| (body == s || body + "\n" == s) && |body| == 34 && body[0] == 'T' && InAlphabet(body) {
      assert body + "\n" == s ==> s[34] == '\n' && s[..34] == body;
    }
  }

  /** The wallet's own TRON addresses are always accepted as destinations, and tell accounts apart. */
  lemma AddressesAreAccepted(a: bytes, b: bytes, sha256: bytes -> Digest)
    requires |a| == 20
    ensures PlausibleDestination(AddressOf(a, sha256))
    ensures AddressOf(a, sha256) == AddressOf(b, sha256) ==> a == b
  {
    AddressShape(a, sha256);
    if AddressOf(a, sha256) == AddressOf(b, sha256) {
      Base58CheckInjective([TRON_MAINNET_PREFIX] + a, [TRON_MAINNET_PREFIX] + b, sha256);
      assert ([TRON_MAINNET_PREFIX] + a)[1..] == a && ([TRON_MAINNET_PREFIX] + b)[1..] == b;
    }
  }

  // --- amounts ---

  function ToSun(amount: int): Result<int> {
    if amount % THORCHAIN_UNITS_PER_SUN != 0 then Failure(ValueError) else Success(amount / THORCHAIN_UNITS_PER_SUN)
  }

  /** One sun is 100 units: the conversion is exact, or refused. */
  lemma SunIsExact(amount: int, sun: int)
    ensures ToSun(amount) == Success(sun) <==> amount == sun * 100
    ensures ToSun(100_000_000) == Success(1_000_000)
  {
  }

  function ToTokenNative(amount: int, decimals: nat): Result<int> {
    if decimals > 8 then Failure(ValueError)
    else
      var factor := Coins.Pow10(8 - decimals);
      if amount % factor != 0 then Failure(ValueError) else Success(amount / factor)
  }

  /**
   The strict conversion accepts an amount exactly when the rounding one (chains/eth.py) loses nothing, and
   then they agree; so a swept token balance is always accepted and comes back whole.
   */
  lemma StrictAgreesWithFloor(amount: int, decimals: nat, balance: int)
    requires decimals <= 8
    ensures ToTokenNative(amount, decimals).Success? <==>
      Coins.FloorToNative(amount, decimals) * Coins.Pow10(8 - decimals) == amount
    ensures ToTokenNative(amount, decimals).Success? ==>
      ToTokenNative(amount, decimals).value == Coins.FloorToNative(amount, decimals)
    ensures Coins.TokenSweepAmount(balance, decimals).Success? ==>
      ToTokenNative(Coins.TokenSweepAmount(balance, decimals).value, decimals) == Success(balance)
  {
    var f, p := Coins.Pow10(8 - decimals), Coins.Pow10(decimals);
    Coins.Pow10Split(decimals);
    Coins.CommonFactor(amount, f, p);
    assert Coins.FloorToNative(amount, decimals) == amount / f;
    assert amount == amount / f * f + amount % f;
    Coins.SweptUnits(balance, decimals);
    Radix.DivModUnique(balance, 0, f);
  }
}
