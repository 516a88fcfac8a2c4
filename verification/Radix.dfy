/**
 Positional numerals, most significant digit first.
 `ToDigits` and `FromDigits` are inverse on numerals without leading zeros; `Transcode` moves a
 digit string between two bases and keeps its leading zeros, and doing it back is the identity.
 */
module Radix {
  predicate Digits(ds: seq<nat>, base: nat) {
    forall i :: 0 <= i < |ds| ==> ds[i] < base
  }

  /** No leading zero; the empty numeral stands for 0. */
  predicate Canonical(ds: seq<nat>, base: nat) {
    Digits(ds, base) && (ds != [] ==> ds[0] != 0)
  }

  function FromDigits(ds: seq<nat>, base: nat): nat {
    if ds == [] then 0 else FromDigits(ds[..|ds| - 1], base) * base + ds[|ds| - 1]
  }

  function ToDigits(n: nat, base: nat): (ds: seq<nat>)
    requires base >= 2
    ensures Canonical(ds, base)
    ensures ds == [] <==> n == 0
    decreases n
  {
    if n == 0 then [] else
      var rest := ToDigits(n / base, base);
      assert n / base == 0 ==> n % base == n;
      rest + [n % base]
  }

  lemma DivMod(n: nat, base: nat)
    requires base >= 2
    ensures n / base * base + n % base == n
  {
  }

  lemma {:induction false} FromToDigits(n: nat, base: nat)
    requires base >= 2
    ensures FromDigits(ToDigits(n, base), base) == n
    decreases n
  {
    if n != 0 {
      FromToDigits(n / base, base);
      SnocValue(ToDigits(n / base, base), n % base, base);
      DivMod(n, base);
    }
  }

  /** The last digit can be moved to whatever follows. */
  lemma {:induction false} MoveDigit(n: nat, base: nat, rest: seq<nat>)
    requires n > 0 && base >= 2
    ensures ToDigits(n, base) + rest == ToDigits(n / base, base) + ([n % base] + rest)
  {
    var front := ToDigits(n / base, base);
    assert ToDigits(n, base) == front + [n % base];
  }

  lemma {:induction false} SnocValue(front: seq<nat>, last: nat, base: nat)
    ensures FromDigits(front + [last], base) == FromDigits(front, base) * base + last
  {
    assert (front + [last])[..|front|] == front;
  }

  lemma MulMono(a: int, b: int, c: nat)
    ensures a <= b ==> a * c <= b * c
  {
    if a <= b {
      assert b * c == a * c + (b - a) * c;
    }
  }

  /** Quotient and remainder are determined by q * base + r. */
  lemma DivModUnique(q: int, r: nat, base: nat)
    requires r < base
    ensures (q * base + r) / base == q && (q * base + r) % base == r
  {
    var n := q * base + r;
    var q', r' := n / base, n % base;
    SameQuotient(q, r, q', r', base);
  }

  lemma SameQuotient(q: int, r: nat, q': int, r': nat, base: nat)
    requires r < base && r' < base
    requires q * base + r == q' * base + r'
    ensures q == q' && r == r'
  {
    MulMono(q' + 1, q, base);
    MulMono(q + 1, q', base);
  }

  lemma {:induction false} CanonicalIsPositive(ds: seq<nat>, base: nat)
    requires base >= 2 && Canonical(ds, base) && ds != []
    ensures FromDigits(ds, base) > 0
  {
    var front := ds[..|ds| - 1];
    if front != [] {
      CanonicalIsPositive(front, base);
      assert FromDigits(front, base) * base >= 1;
    }
  }

  lemma {:induction false} ToFromDigits(ds: seq<nat>, base: nat)
    requires base >= 2 && Canonical(ds, base)
    ensures ToDigits(FromDigits(ds, base), base) == ds
  {
    if ds != [] {
      var front, last := ds[..|ds| - 1], ds[|ds| - 1];
      CanonicalIsPositive(ds, base);
      ToFromDigits(front, base);
      DivModUnique(FromDigits(front, base), last, base);
    }
  }

  function Zeros(k: nat): seq<nat> {
    seq(k, _ => 0)
  }

  function LeadingZeros(ds: seq<nat>): (k: nat)
    ensures k <= |ds|
    ensures ds[..k] == Zeros(k)
    ensures k < |ds| ==> ds[k] != 0
  {
    if ds != [] && ds[0] == 0 then 1 + LeadingZeros(ds[1..]) else 0
  }

  lemma {:induction false} LeadingZerosOf(k: nat, rest: seq<nat>)
    requires rest != [] ==> rest[0] != 0
    ensures LeadingZeros(Zeros(k) + rest) == k
  {
    if k == 0 {
      assert Zeros(0) + rest == rest;
    } else {
      assert (Zeros(k) + rest)[1..] == Zeros(k - 1) + rest;
      LeadingZerosOf(k - 1, rest);
    }
  }

  lemma {:induction false} ZerosAddNothing(k: nat, rest: seq<nat>, base: nat)
    ensures FromDigits(Zeros(k) + rest, base) == FromDigits(rest, base)
    decreases k + |rest|
  {
    var all := Zeros(k) + rest;
    if rest != [] {
      ZerosAddNothing(k, rest[..|rest| - 1], base);
      assert all[..|all| - 1] == Zeros(k) + rest[..|rest| - 1];
    } else if k > 0 {
      ZerosAddNothing(k - 1, rest, base);
      assert all[..|all| - 1] == Zeros(k - 1) + rest;
    }
  }

  /** Same leading zeros, same number, other base. */
  function Transcode(ds: seq<nat>, from: nat, to: nat): (r: seq<nat>)
    requires to >= 2
    ensures Digits(r, to)
  {
    Zeros(LeadingZeros(ds)) + ToDigits(FromDigits(ds, from), to)
  }

  /** Changing the base and changing it back loses nothing, whatever the leading zeros. */
  lemma TranscodeRoundTrip(ds: seq<nat>, from: nat, to: nat)
    requires from >= 2 && to >= 2 && Digits(ds, from)
    ensures Transcode(Transcode(ds, from, to), to, from) == ds
  {
    var k := LeadingZeros(ds);
    var rest := ds[k..];
    assert ds == Zeros(k) + rest;
    ZerosAddNothing(k, rest, from);
    var n := FromDigits(ds, from);
    var there := ToDigits(n, to);
    LeadingZerosOf(k, there);
    ZerosAddNothing(k, there, to);
    FromToDigits(n, to);
    ToFromDigits(rest, from);
  }

  function Pow(base: nat, e: nat): nat {
    if e == 0 then 1 else base * Pow(base, e - 1)
  }

  lemma PowAdd(base: nat, a: nat, b: nat)
    ensures Pow(base, a + b) == Pow(base, a) * Pow(base, b)
  {
    if a > 0 {
      PowAdd(base, a - 1, b);
      assert base * (Pow(base, a - 1) * Pow(base, b)) == (base * Pow(base, a - 1)) * Pow(base, b);
    }
  }

  lemma DivBounds(n: nat, d: nat, p: nat, base: nat)
    requires base >= 1 && d * (base * p) <= n < (d + 1) * (base * p)
    ensures d * p <= n / base < (d + 1) * p
  {
    var q, r := n / base, n % base;
    assert n == q * base + r;
    assert d * (base * p) == (d * p) * base;
    assert (d + 1) * (base * p) == ((d + 1) * p) * base;
    MulMono(q + 1, d * p, base);
    MulMono((d + 1) * p, q, base);
  }

  /** A number between d * base^k and (d + 1) * base^k has k + 1 digits, the first of them d. */
  lemma {:induction false} LeadingDigit(n: nat, d: nat, k: nat, base: nat)
    requires base >= 2 && 0 < d < base
    requires d * Pow(base, k) <= n < (d + 1) * Pow(base, k)
    ensures |ToDigits(n, base)| == k + 1
    ensures ToDigits(n, base)[0] == d
    decreases k
  {
    if k == 0 {
      OneDigit(d, base);
    } else {
      var p := Pow(base, k - 1);
      DivBounds(n, d, p, base);
      LeadingDigit(n / base, d, k - 1, base);
      assert n != 0;
    }
  }

  lemma {:induction false} OneDigit(d: nat, base: nat)
    requires 0 < d < base
    ensures ToDigits(d, base) == [d]
  {
    assert d / base == 0 && d % base == d;
  }

  lemma {:induction false} PowPositive(base: nat, e: nat)
    requires base > 0
    ensures Pow(base, e) > 0
  {
    if e > 0 {
      PowPositive(base, e - 1);
    }
  }

  lemma SnocBelow(n: nat, p: nat, d: nat, base: nat)
    requires n < p && d < base
    ensures n * base + d < base * p
  {
    MulMono(n + 1, p, base);
  }

  lemma {:induction false} DigitsBelowPow(ds: seq<nat>, base: nat)
    requires base >= 2 && Digits(ds, base)
    ensures FromDigits(ds, base) < Pow(base, |ds|)
  {
    if ds != [] {
      var front := ds[..|ds| - 1];
      DigitsBelowPow(front, base);
      SnocBelow(FromDigits(front, base), Pow(base, |front|), ds[|ds| - 1], base);
    }
  }

  /** The value of a numeral split after its first digit. */
  lemma {:induction false} FirstDigitWeight(d: nat, rest: seq<nat>, base: nat)
    ensures FromDigits([d] + rest, base) == d * Pow(base, |rest|) + FromDigits(rest, base)
  {
    var all := [d] + rest;
    if rest == [] {
      assert all[..0] == [];
    } else {
      var front := rest[..|rest| - 1];
      assert all[..|all| - 1] == [d] + front;
      FirstDigitWeight(d, front, base);
      assert (d * Pow(base, |front|)) * base == d * Pow(base, |rest|);
    }
  }
}
