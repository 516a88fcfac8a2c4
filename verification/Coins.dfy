/**
 Coin selection, sweep arithmetic and OP_RETURN scripts (chains/coins.py), in satoshis.
 The fee rate is an exact real; every fee is the ceiling of virtual size times rate.
 */
module Coins {
  import opened Wrappers
  import opened Text
  import Radix

  const OP_RETURN_MAX_BYTES := 80
  const OP_PUSHDATA1: byte := 0x4C
  const OP_RETURN_OPCODE: byte := 0x6A
  const TX_OVERHEAD_VB := 11
  const P2WPKH_INPUT_VB := 68
  const P2WPKH_OUTPUT_VB := 31
  const DUST_P2WPKH := 294

  datatype Utxo = Utxo(txid: string, vout: nat, value: int, address: string, path: Option<string>)

  datatype Selection = Selection(utxos: seq<Utxo>, fee: int, change: int)

  // --- OP_RETURN scripts ---

  function EncodeOpReturn(data: bytes): Result<bytes> {
    if |data| > OP_RETURN_MAX_BYTES then Failure(ValueError)
    else if |data| < OP_PUSHDATA1 then Success([OP_RETURN_OPCODE, |data|] + data)
    else Success([OP_RETURN_OPCODE, OP_PUSHDATA1, |data|] + data)
  }

  /** Python's s[lo : lo + n], whose bounds may exceed the sequence. */
  function Slice(s: bytes, lo: nat, n: nat): bytes {
    if |s| <= lo then [] else if |s| <= lo + n then s[lo..] else s[lo..lo + n]
  }

  function DecodeOpReturn(script: bytes): Result<bytes> {
    if script == [] || script[0] != OP_RETURN_OPCODE then Failure(ValueError)
    else if |script| < 2 then Failure(ValueError)
    else if script[1] == OP_PUSHDATA1 then
      if |script| < 3 then Failure(ValueError) else Success(Slice(script, 3, script[2]))
    else Success(Slice(script, 2, script[1]))
  }

  /** Up to 80 bytes survive the round trip, in both push forms; longer data is refused. */
  lemma OpReturnRoundTrip(data: bytes)
    ensures EncodeOpReturn(data).Success? <==> |data| <= OP_RETURN_MAX_BYTES
    ensures EncodeOpReturn(data).Success? ==> DecodeOpReturn(EncodeOpReturn(data).value) == Success(data)
  {
    if |data| < OP_PUSHDATA1 {
      assert ([OP_RETURN_OPCODE, |data|] + data)[2..] == data;
    } else if |data| <= OP_RETURN_MAX_BYTES {
      assert ([OP_RETURN_OPCODE, OP_PUSHDATA1, |data|] + data)[3..] == data;
    }
  }

  /** The scripts themselves: OP_RETURN, a one-byte push up to 75 bytes, PUSHDATA1 from 76 to 80, nothing beyond. */
  lemma OpReturnBytes(data: bytes)
    ensures |data| <= 75 ==> EncodeOpReturn(data) == Success([0x6A, |data|] + data)
    ensures 76 <= |data| <= 80 ==> EncodeOpReturn(data) == Success([0x6A, 0x4C, |data|] + data)
    ensures |data| > 80 ==> EncodeOpReturn(data) == Failure(ValueError)
  {
  }

  /** The first n bytes, or as many as there are. */
  predicate TakenFrom(data: bytes, tail: bytes, n: nat) {
    data <= tail && |data| == if n < |tail| then n else |tail|
  }

  /** What decoding reads: the bytes the push announces, as far as there are any; whatever follows is ignored. */
  lemma DecodeReadsPush(script: bytes, data: bytes)
    ensures DecodeOpReturn(script) == Success(data) <==>
      && |script| >= 2 && script[0] == 0x6A
      && if script[1] == 0x4C then |script| >= 3 && TakenFrom(data, script[3..], script[2])
         else TakenFrom(data, script[2..], script[1])
  {
    if |script| >= 3 {
      SliceTakes(script, 3, script[2], data);
    }
    if |script| >= 2 {
      SliceTakes(script, 2, script[1], data);
    }
  }

  lemma SliceTakes(s: bytes, lo: nat, n: nat, data: bytes)
    requires lo <= |s|
    ensures Slice(s, lo, n) == data <==> TakenFrom(data, s[lo..], n)
  {
    if TakenFrom(data, s[lo..], n) {
      assert data == s[lo..][..|data|] == s[lo..lo + |data|];
    }
  }

  lemma OpReturnInjective(a: bytes, b: bytes)
    requires EncodeOpReturn(a).Success? && EncodeOpReturn(a) == EncodeOpReturn(b)
    ensures a == b
  {
    OpReturnRoundTrip(a);
    OpReturnRoundTrip(b);
  }

  /** The push form is the one the encoder would pick and the push is neither cut short nor followed by more. */
  predicate CanonicalScript(script: bytes) {
    |script| >= 2 && script[0] == OP_RETURN_OPCODE &&
    if script[1] == OP_PUSHDATA1
    then |script| >= 3 && OP_PUSHDATA1 <= script[2] <= OP_RETURN_MAX_BYTES && |script| == 3 + script[2]
    else script[1] < OP_PUSHDATA1 && |script| == 2 + script[1]
  }

  lemma EncodedIsCanonical(data: bytes)
    ensures EncodeOpReturn(data).Success? ==> CanonicalScript(EncodeOpReturn(data).value)
  {
  }

  /**
   decode_op_return is documented as the inverse of encode_op_return. It undoes it (above), but it also
   accepts truncated, over-long and oddly pushed scripts; re-encoding gives the script back on exactly
   the canonical ones.
   */
  lemma DecodeIsInverseOnlyOnCanonical(script: bytes)
    ensures DecodeOpReturn(script).Success? && EncodeOpReturn(DecodeOpReturn(script).value) == Success(script)
      <==> CanonicalScript(script)
  {
    if CanonicalScript(script) {
      if script[1] == OP_PUSHDATA1 {
        assert script == [OP_RETURN_OPCODE, OP_PUSHDATA1, script[2]] + script[3..];
      } else {
        assert script == [OP_RETURN_OPCODE, script[1]] + script[2..];
      }
    } else if DecodeOpReturn(script).Success? {
      EncodedIsCanonical(DecodeOpReturn(script).value);
    }
  }

  /** A truncated push: the decoder takes the one byte there is, and the encoder writes another script for it. */
  lemma TruncatedPushDecodes()
    ensures DecodeOpReturn([OP_RETURN_OPCODE, 5, 1]) == Success([1])
    ensures EncodeOpReturn([1]) == Success([OP_RETURN_OPCODE, 1, 1])
    ensures !CanonicalScript([OP_RETURN_OPCODE, 5, 1])
  {
    assert [OP_RETURN_OPCODE, 5, 1][2..] == [1];
    assert [OP_RETURN_OPCODE, 1] + [1] == [OP_RETURN_OPCODE, 1, 1];
  }

  // --- fees ---

  function Ceil(x: real): (c: int)
    ensures (c as real) - 1.0 < x <= c as real
  {
    -((-x).Floor)
  }

  function EstimateVsize(nInputs: int, nOutputs: int, opReturnLen: int): int {
    TX_OVERHEAD_VB + nInputs * P2WPKH_INPUT_VB + nOutputs * P2WPKH_OUTPUT_VB +
    if opReturnLen != 0 then 8 + 1 + 2 + opReturnLen else 0
  }

  function Fee(nInputs: int, nOutputs: int, memoLen: int, rate: real): int {
    Ceil(EstimateVsize(nInputs, nOutputs, memoLen) as real * rate)
  }

  /** The estimate in virtual bytes: 11, 68 an input, 31 an output, and 11 more than a memo's length if there is one. */
  lemma VsizeInNumbers(n: nat, o: nat, m: nat)
    ensures EstimateVsize(0, 0, 0) == 11
    ensures EstimateVsize(n + 1, o, m) == EstimateVsize(n, o, m) + 68
    ensures EstimateVsize(n, o + 1, m) == EstimateVsize(n, o, m) + 31
    ensures m > 0 ==> EstimateVsize(n, o, m) == EstimateVsize(n, o, 0) + 11 + m
  {
  }

  /** What a transaction of n inputs and a memo of m bytes takes before its other outputs. */
  function BareVsize(n: nat, m: nat): int {
    11 + 68 * n + if m == 0 then 0 else 11 + m
  }

  /** The least whole number of satoshis that pays the rate. */
  predicate LeastFee(fee: int, vsize: int, rate: real) {
    vsize as real * rate <= fee as real < vsize as real * rate + 1.0
  }

  lemma FeeInNumbers(n: nat, o: nat, m: nat, rate: real)
    ensures LeastFee(Fee(n, o, m, rate), BareVsize(n, m) + 31 * o, rate)
  {
    assert EstimateVsize(n, o, m) == BareVsize(n, m) + 31 * o;
  }

  lemma FeeMonotone(n: nat, n': nat, o: nat, o': nat, m: nat, m': nat, rate: real)
    requires n <= n' && o <= o' && m <= m' && rate >= 0.0
    ensures Fee(n, o, m, rate) <= Fee(n', o', m', rate)
  {
    var a, b := EstimateVsize(n, o, m), EstimateVsize(n', o', m');
    assert a <= b;
    MulReal(a as real, b as real, rate);
  }

  lemma MulReal(a: real, b: real, r: real)
    requires a <= b && 0.0 <= r
    ensures a * r <= b * r
  {
    assert b * r - a * r == (b - a) * r;
  }

  lemma FeeNonNegative(n: nat, o: nat, m: nat, rate: real)
    requires rate >= 0.0
    ensures Fee(n, o, m, rate) >= 0
  {
    MulReal(0.0, EstimateVsize(n, o, m) as real, rate);
  }

  // --- sums and orders of coins ---

  function Sum(coins: seq<Utxo>): int {
    if coins == [] then 0 else coins[0].value + Sum(coins[1..])
  }

  lemma {:induction false} SumConcat(a: seq<Utxo>, b: seq<Utxo>)
    ensures Sum(a + b) == Sum(a) + Sum(b)
  {
    if a == [] {
      assert a + b == b;
    } else {
      assert (a + b)[1..] == a[1..] + b;
      SumConcat(a[1..], b);
    }
  }

  lemma SumSnoc(coins: seq<Utxo>, k: nat)
    requires k < |coins|
    ensures Sum(coins[..k + 1]) == Sum(coins[..k]) + coins[k].value
  {
    assert coins[..k + 1] == coins[..k] + [coins[k]];
    SumConcat(coins[..k], [coins[k]]);
  }

  predicate Descending(coins: seq<Utxo>) {
    forall i, j :: 0 <= i < j < |coins| ==> coins[i].value >= coins[j].value
  }

  function Insert(u: Utxo, coins: seq<Utxo>): seq<Utxo> {
    if coins == [] || coins[0].value <= u.value then [u] + coins
    else [coins[0]] + Insert(u, coins[1..])
  }

  /** sorted(utxos, key=value, reverse=True): descending, equal values in their given order. */
  function SortDescending(coins: seq<Utxo>): seq<Utxo> {
    if coins == [] then [] else Insert(coins[0], SortDescending(coins[1..]))
  }

  function WithValue(coins: seq<Utxo>, v: int): seq<Utxo> {
    if coins == [] then []
    else (if coins[0].value == v then [coins[0]] else []) + WithValue(coins[1..], v)
  }

  lemma {:induction false} InsertPermutes(u: Utxo, coins: seq<Utxo>)
    ensures multiset(Insert(u, coins)) == multiset{u} + multiset(coins)
    ensures Sum(Insert(u, coins)) == u.value + Sum(coins)
  {
    if coins == [] || coins[0].value <= u.value {
    } else {
      var rest := Insert(u, coins[1..]);
      InsertPermutes(u, coins[1..]);
      assert coins == [coins[0]] + coins[1..];
      assert ([coins[0]] + rest)[1..] == rest;
    }
  }

  lemma {:induction false} InsertSorts(u: Utxo, coins: seq<Utxo>)
    requires Descending(coins)
    ensures Descending(Insert(u, coins))
  {
    if coins == [] || coins[0].value <= u.value {
    } else {
      var rest := Insert(u, coins[1..]);
      InsertSorts(u, coins[1..]);
      InsertPermutes(u, coins[1..]);
      forall i | 0 <= i < |rest| ensures coins[0].value >= rest[i].value {
        assert rest[i] in multiset(rest);
        assert rest[i] == u || rest[i] in coins[1..];
      }
      ConsDescending(coins[0], rest);
    }
  }

  lemma ConsDescending(u: Utxo, rest: seq<Utxo>)
    requires Descending(rest) && forall i :: 0 <= i < |rest| ==> u.value >= rest[i].value
    ensures Descending([u] + rest)
  {
  }

  lemma {:induction false} WithValueCons(c: Utxo, rest: seq<Utxo>, v: int)
    ensures WithValue([c] + rest, v) == (if c.value == v then [c] else []) + WithValue(rest, v)
  {
    assert ([c] + rest)[1..] == rest;
  }

  lemma {:induction false} InsertIsStable(u: Utxo, coins: seq<Utxo>, v: int)
    ensures WithValue(Insert(u, coins), v) == (if u.value == v then [u] else []) + WithValue(coins, v)
  {
    if coins == [] || coins[0].value <= u.value {
      WithValueCons(u, coins, v);
    } else {
      InsertIsStable(u, coins[1..], v);
      WithValueCons(coins[0], Insert(u, coins[1..]), v);
    }
  }

  /** What Python's sort promises: a descending permutation that keeps the order of equal values. */
  lemma {:induction false} SortIsStablePermutation(coins: seq<Utxo>)
    ensures Descending(SortDescending(coins))
    ensures multiset(SortDescending(coins)) == multiset(coins)
    ensures |SortDescending(coins)| == |coins|
    ensures Sum(SortDescending(coins)) == Sum(coins)
    ensures forall v :: WithValue(SortDescending(coins), v) == WithValue(coins, v)
  {
    if coins != [] {
      SortIsStablePermutation(coins[1..]);
      InsertSorts(coins[0], SortDescending(coins[1..]));
      InsertPermutes(coins[0], SortDescending(coins[1..]));
      forall v ensures WithValue(SortDescending(coins), v) == WithValue(coins, v) {
        InsertIsStable(coins[0], SortDescending(coins[1..]), v);
      }
      assert coins == [coins[0]] + coins[1..];
      assert |multiset(SortDescending(coins))| == |multiset(coins)|;
    }
  }

  // --- selection ---

  /** The two exits of the selection loop for one prefix of the sorted coins. */
  function Settle(chosen: seq<Utxo>, sendAmount: int, rate: real, memoLen: nat, dust: int): Option<Selection> {
    var total := Sum(chosen);
    var change := total - sendAmount - Fee(|chosen|, 2, memoLen, rate);
    if change >= dust then Some(Selection(chosen, Fee(|chosen|, 2, memoLen, rate), change))
    else if total >= sendAmount + Fee(|chosen|, 1, memoLen, rate) then Some(Selection(chosen, total - sendAmount, 0))
    else None
  }

  /** The first non-empty prefix, longer than k coins, that settles. */
  function FirstSettled(coins: seq<Utxo>, k: nat, sendAmount: int, rate: real, memoLen: nat,
                        dust: int): Result<Selection>
    requires k <= |coins|
    decreases |coins| - k
  {
    if k == |coins| then Failure(InsufficientFunds)
    else match Settle(coins[..k + 1], sendAmount, rate, memoLen, dust)
      case Some(s) => Success(s)
      case None => FirstSettled(coins, k + 1, sendAmount, rate, memoLen, dust)
  }

  function Select(utxos: seq<Utxo>, sendAmount: int, rate: real, memoLen: nat,
                  dust: int := DUST_P2WPKH): Result<Selection> {
    FirstSettled(SortDescending(utxos), 0, sendAmount, rate, memoLen, dust)
  }

  /** select_coins: the greedy loop, largest coin first. */
  method SelectCoins(utxos: seq<Utxo>, sendAmount: int, rate: real, memoLen: nat, dust: int := DUST_P2WPKH)
    returns (r: Result<Selection>)
    ensures r == Select(utxos, sendAmount, rate, memoLen, dust)
  {
    var sorted := SortDescending(utxos);
    var chosen: seq<Utxo> := [];
    var total := 0;
    for k := 0 to |sorted|
      invariant chosen == sorted[..k]
      invariant total == Sum(chosen)
      invariant FirstSettled(sorted, 0, sendAmount, rate, memoLen, dust)
        == FirstSettled(sorted, k, sendAmount, rate, memoLen, dust)
    {
      SumSnoc(sorted, k);
      chosen := chosen + [sorted[k]];
      total := total + sorted[k].value;
      assert chosen == sorted[..k + 1];

      var feeWithChange := Fee(|chosen|, 2, memoLen, rate);
      var change := total - sendAmount - feeWithChange;
      if change >= dust {
        return Success(Selection(chosen, feeWithChange, change));
      }

      var feeNoChange := Fee(|chosen|, 1, memoLen, rate);
      if total >= sendAmount + feeNoChange {
        return Success(Selection(chosen, total - sendAmount, 0));
      }
    }
    return Failure(InsufficientFunds);
  }

  /** Some of the coins, each at most as often as it occurs. */
  predicate SubsetOf(pick: seq<Utxo>, coins: seq<Utxo>) {
    multiset(pick) <= multiset(coins)
  }

  /** The coins cover the payment and the fee of a transaction without change. */
  predicate Funds(pick: seq<Utxo>, sendAmount: int, rate: real, memoLen: nat) {
    Sum(pick) >= sendAmount + Fee(|pick|, 1, memoLen, rate)
  }

  lemma {:induction false} FirstSettledIsLeast(coins: seq<Utxo>, k: nat, sendAmount: int, rate: real, memoLen: nat,
                                               dust: int)
    requires k <= |coins|
    ensures match FirstSettled(coins, k, sendAmount, rate, memoLen, dust)
      case Success(s) =>
        && k < |s.utxos| <= |coins| && s.utxos == coins[..|s.utxos|]
        && Settle(s.utxos, sendAmount, rate, memoLen, dust) == Some(s)
        && forall j :: k < j < |s.utxos| ==> Settle(coins[..j], sendAmount, rate, memoLen, dust) == None
      case Failure(e) =>
        && e == InsufficientFunds
        && forall j :: k < j <= |coins| ==> Settle(coins[..j], sendAmount, rate, memoLen, dust) == None
    decreases |coins| - k
  {
    if k < |coins| && Settle(coins[..k + 1], sendAmount, rate, memoLen, dust).None? {
      FirstSettledIsLeast(coins, k + 1, sendAmount, rate, memoLen, dust);
    }
  }

  lemma PrefixOfPermutation(sorted: seq<Utxo>, utxos: seq<Utxo>, k: nat)
    requires multiset(sorted) == multiset(utxos) && k <= |sorted|
    ensures SubsetOf(sorted[..k], utxos)
  {
    assert sorted == sorted[..k] + sorted[k..];
  }

  /** Value is conserved and no fee is paid beyond the minimum plus what is too small to return. */
  lemma SelectionConserves(utxos: seq<Utxo>, sendAmount: int, rate: real, memoLen: nat, dust: int)
    requires Select(utxos, sendAmount, rate, memoLen, dust).Success?
    ensures var s := Select(utxos, sendAmount, rate, memoLen, dust).value;
      var n := |s.utxos|;
      && n > 0 && SubsetOf(s.utxos, utxos)
      && Sum(s.utxos) == sendAmount + s.fee + s.change
      && (s.change == 0 || s.change >= dust)
      && if Sum(s.utxos) - sendAmount - Fee(n, 2, memoLen, rate) >= dust
         then s.fee == Fee(n, 2, memoLen, rate) && s.change >= dust
         else s.change == 0 && Fee(n, 1, memoLen, rate) <= s.fee < Fee(n, 2, memoLen, rate) + dust
  {
    var sorted := SortDescending(utxos);
    SortIsStablePermutation(utxos);
    FirstSettledIsLeast(sorted, 0, sendAmount, rate, memoLen, dust);
    var s := Select(utxos, sendAmount, rate, memoLen, dust).value;
    PrefixOfPermutation(sorted, utxos, |s.utxos|);
  }

  /**
   What a selection pays, in numbers: with change, at least 294 of it and the least
   fee for two outputs; without, at least the fee for one output and less than 294 above the one for two.
   */
  predicate PaysRate(s: Selection, sendAmount: int, rate: real, memoLen: nat) {
    var bare := BareVsize(|s.utxos|, memoLen);
    && Sum(s.utxos) == sendAmount + s.fee + s.change
    && if s.change != 0 then s.change >= 294 && LeastFee(s.fee, bare + 62, rate)
       else (bare + 31) as real * rate <= s.fee as real < (bare + 62) as real * rate + 295.0
  }

  lemma FeeWithinBounds(fee: int, n: nat, m: nat, rate: real)
    requires Fee(n, 1, m, rate) <= fee < Fee(n, 2, m, rate) + 294
    ensures (BareVsize(n, m) + 31) as real * rate <= fee as real < (BareVsize(n, m) + 62) as real * rate + 295.0
  {
    FeeInNumbers(n, 1, m, rate);
    FeeInNumbers(n, 2, m, rate);
  }

  lemma {:induction false} SelectionBounds(utxos: seq<Utxo>, sendAmount: int, rate: real, memoLen: nat)
    requires Select(utxos, sendAmount, rate, memoLen).Success?
    ensures SettledWithin(Select(utxos, sendAmount, rate, memoLen).value, sendAmount, rate, memoLen)
  {
    SelectionConserves(utxos, sendAmount, rate, memoLen, 294);
  }

  predicate SettledWithin(s: Selection, sendAmount: int, rate: real, memoLen: nat) {
    var n := |s.utxos|;
    && Sum(s.utxos) == sendAmount + s.fee + s.change
    && if s.change != 0 then s.change >= 294 && s.fee == Fee(n, 2, memoLen, rate)
       else Fee(n, 1, memoLen, rate) <= s.fee < Fee(n, 2, memoLen, rate) + 294
  }

  lemma {:induction false} SettledPaysRate(s: Selection, sendAmount: int, rate: real, memoLen: nat)
    requires SettledWithin(s, sendAmount, rate, memoLen)
    ensures PaysRate(s, sendAmount, rate, memoLen)
  {
    if s.change != 0 {
      FeeInNumbers(|s.utxos|, 2, memoLen, rate);
    } else {
      FeeWithinBounds(s.fee, |s.utxos|, memoLen, rate);
    }
  }

  lemma {:induction false} SelectionIsLeastPrefix(utxos: seq<Utxo>, sendAmount: int, rate: real, memoLen: nat)
    requires Select(utxos, sendAmount, rate, memoLen).Success?
    ensures var s := Select(utxos, sendAmount, rate, memoLen).value;
      var n, sorted := |s.utxos|, SortDescending(utxos);
      && 0 < n <= |sorted| && s.utxos == sorted[..n]
      && forall j :: 0 < j < n ==> Settle(sorted[..j], sendAmount, rate, memoLen, 294) == None
  {
    FirstSettledIsLeast(SortDescending(utxos), 0, sendAmount, rate, memoLen, 294);
  }

  lemma {:induction false} UnsettledCannotPay(chosen: seq<Utxo>, sendAmount: int, rate: real, memoLen: nat)
    requires Settle(chosen, sendAmount, rate, memoLen, 294).None?
    ensures (Sum(chosen) - sendAmount) as real < (BareVsize(|chosen|, memoLen) + 31) as real * rate
  {
    FeeInNumbers(|chosen|, 1, memoLen, rate);
    assert Sum(chosen) - sendAmount <= Fee(|chosen|, 1, memoLen, rate) - 1;
  }

  lemma {:induction false} FewerCannotPay(utxos: seq<Utxo>, sendAmount: int, rate: real, memoLen: nat, j: nat)
    requires Select(utxos, sendAmount, rate, memoLen).Success?
    requires 0 < j < |Select(utxos, sendAmount, rate, memoLen).value.utxos|
    ensures var sorted := SortDescending(utxos);
      && j <= |sorted| && (Sum(sorted[..j]) - sendAmount) as real < (BareVsize(j, memoLen) + 31) as real * rate
  {
    SelectionIsLeastPrefix(utxos, sendAmount, rate, memoLen);
    UnsettledCannotPay(SortDescending(utxos)[..j], sendAmount, rate, memoLen);
  }

  lemma {:induction false} SelectionPaysRate(utxos: seq<Utxo>, sendAmount: int, rate: real, memoLen: nat)
    requires Select(utxos, sendAmount, rate, memoLen).Success?
    ensures PaysRate(Select(utxos, sendAmount, rate, memoLen).value, sendAmount, rate, memoLen)
  {
    SelectionBounds(utxos, sendAmount, rate, memoLen);
    SettledPaysRate(Select(utxos, sendAmount, rate, memoLen).value, sendAmount, rate, memoLen);
  }

  /** The selection for the default dust limit, in numbers; the coins are the largest, and no fewer could pay. */
  lemma {:induction false} SelectionInNumbers(utxos: seq<Utxo>, sendAmount: int, rate: real, memoLen: nat)
    requires Select(utxos, sendAmount, rate, memoLen).Success?
    ensures var s := Select(utxos, sendAmount, rate, memoLen).value;
      var n, sorted := |s.utxos|, SortDescending(utxos);
      && 0 < n <= |sorted| && s.utxos == sorted[..n] && PaysRate(s, sendAmount, rate, memoLen)
      && forall j :: 0 < j < n ==>
           (Sum(sorted[..j]) - sendAmount) as real < (BareVsize(j, memoLen) + 31) as real * rate
  {
    SelectionPaysRate(utxos, sendAmount, rate, memoLen);
    SelectionIsLeastPrefix(utxos, sendAmount, rate, memoLen);
    forall j | 0 < j < |Select(utxos, sendAmount, rate, memoLen).value.utxos|
      ensures (Sum(SortDescending(utxos)[..j]) - sendAmount) as real < (BareVsize(j, memoLen) + 31) as real * rate
    {
      FewerCannotPay(utxos, sendAmount, rate, memoLen, j);
    }
  }

  lemma RemoveCoin(pick: seq<Utxo>, i: nat) returns (others: seq<Utxo>)
    requires i < |pick|
    ensures |others| == |pick| - 1
    ensures multiset(pick) == multiset(others) + multiset{pick[i]}
    ensures Sum(pick) == pick[i].value + Sum(others)
  {
    others := pick[..i] + pick[i + 1..];
    assert pick == pick[..i] + ([pick[i]] + pick[i + 1..]);
    SumConcat(pick[..i], [pick[i]] + pick[i + 1..]);
    SumConcat([pick[i]], pick[i + 1..]);
    SumConcat(pick[..i], pick[i + 1..]);
  }

  lemma CancelCoin(a: multiset<Utxo>, b: multiset<Utxo>, u: Utxo)
    requires a + multiset{u} <= b + multiset{u}
    ensures a <= b
  {
    forall c | c in a ensures a[c] <= b[c] {
      assert (a + multiset{u})[c] <= (b + multiset{u})[c];
    }
  }

  /** Dropping the largest coin and taking one more at the end does not raise the sum. */
  lemma ShiftedPrefix(sorted: seq<Utxo>, k: nat)
    requires Descending(sorted) && k < |sorted|
    ensures Sum(sorted[1..][..k]) <= Sum(sorted[..k])
  {
    if k > 0 {
      var middle := sorted[1..k];
      assert sorted[1..][..k] == middle + [sorted[k]];
      assert sorted[..k] == [sorted[0]] + middle;
      SumConcat(middle, [sorted[k]]);
      SumConcat([sorted[0]], middle);
    }
  }

  /** The exchange argument: the k largest coins are worth at least as much as any k coins. */
  lemma {:induction false} LargestAreWorthMost(sorted: seq<Utxo>, pick: seq<Utxo>)
    requires Descending(sorted) && SubsetOf(pick, sorted)
    ensures |pick| <= |sorted|
    ensures Sum(pick) <= Sum(sorted[..|pick|])
    decreases |sorted|
  {
    SubsetIsNoLonger(pick, sorted);
    if pick != [] {
      var head, tail := sorted[0], sorted[1..];
      assert multiset(sorted) == multiset{head} + multiset(tail) by {
        assert sorted == [head] + tail;
      }
      if head in pick {
        var i :| 0 <= i < |pick| && pick[i] == head;
        var others := RemoveCoin(pick, i);
        CancelCoin(multiset(others), multiset(tail), head);
        LargestAreWorthMost(tail, others);
        assert sorted[..|pick|] == [head] + tail[..|others|];
        SumConcat([head], tail[..|others|]);
      } else {
        assert SubsetOf(pick, tail);
        LargestAreWorthMost(tail, pick);
        ShiftedPrefix(sorted, |pick|);
      }
    }
  }

  lemma SubsetIsNoLonger(pick: seq<Utxo>, coins: seq<Utxo>)
    requires SubsetOf(pick, coins)
    ensures |pick| <= |coins|
  {
    var rest := multiset(coins) - multiset(pick);
    assert multiset(coins) == multiset(pick) + rest;
    assert |multiset(coins)| == |multiset(pick)| + |rest|;
  }

  lemma {:induction false} WorthMoreSettles(pick: seq<Utxo>, better: seq<Utxo>, sendAmount: int, rate: real,
                                            memoLen: nat, dust: int)
    requires |pick| == |better| && Sum(pick) <= Sum(better)
    requires Funds(pick, sendAmount, rate, memoLen)
    ensures Settle(better, sendAmount, rate, memoLen, dust).Some?
  {
  }

  /**
   Greedy is optimal in the number of inputs: if any k coins fund the payment, selection succeeds with at
   most k. No condition on the rate, the dust limit or the sign of a value is needed.
   */
  lemma SelectionUsesFewestInputs(utxos: seq<Utxo>, pick: seq<Utxo>, sendAmount: int, rate: real,
                                  memoLen: nat, dust: int)
    requires pick != [] && SubsetOf(pick, utxos) && Funds(pick, sendAmount, rate, memoLen)
    ensures Select(utxos, sendAmount, rate, memoLen, dust).Success?
    ensures |Select(utxos, sendAmount, rate, memoLen, dust).value.utxos| <= |pick|
  {
    var sorted := SortDescending(utxos);
    SortIsStablePermutation(utxos);
    LargestAreWorthMost(sorted, pick);
    FirstSettledIsLeast(sorted, 0, sendAmount, rate, memoLen, dust);
    WorthMoreSettles(pick, sorted[..|pick|], sendAmount, rate, memoLen, dust);
  }

  /** InsufficientFunds is raised exactly when no non-empty subset of the coins can fund the payment. */
  lemma InsufficientIffNoSubsetFunds(utxos: seq<Utxo>, sendAmount: int, rate: real, memoLen: nat,
                                     dust: int)
    requires rate >= 0.0 && dust >= 0
    ensures Select(utxos, sendAmount, rate, memoLen, dust) == Failure(InsufficientFunds)
      <==> forall pick :: pick != [] && SubsetOf(pick, utxos) ==> !Funds(pick, sendAmount, rate, memoLen)
  {
    var sorted := SortDescending(utxos);
    SortIsStablePermutation(utxos);
    FirstSettledIsLeast(sorted, 0, sendAmount, rate, memoLen, dust);
    match Select(utxos, sendAmount, rate, memoLen, dust) {
      case Success(s) =>
        PrefixOfPermutation(sorted, utxos, |s.utxos|);
        FeeMonotone(|s.utxos|, |s.utxos|, 1, 2, memoLen, memoLen, rate);
        assert Funds(s.utxos, sendAmount, rate, memoLen);
      case Failure(_) =>
        forall pick | pick != [] && SubsetOf(pick, utxos) ensures !Funds(pick, sendAmount, rate, memoLen) {
          if Funds(pick, sendAmount, rate, memoLen) {
            SelectionUsesFewestInputs(utxos, pick, sendAmount, rate, memoLen, dust);
          }
        }
    }
  }

  // --- sweeps ---

  function SweepAmount(total: int, nInputs: nat, rate: real, memoLen: nat := OP_RETURN_MAX_BYTES,
                       dust: int := DUST_P2WPKH):
    Result<(int, int)>
  {
    var fee := Fee(nInputs, 1, memoLen, rate);
    if total - fee < dust then Failure(InsufficientFunds) else Success((total - fee, fee))
  }

  /** A sweep leaves nothing behind, pays the largest amount that all inputs can fund, and fails only below dust. */
  lemma {:induction false} SweepIsMaximal(coins: seq<Utxo>, rate: real, memoLen: nat, dust: int)
    ensures match SweepAmount(Sum(coins), |coins|, rate, memoLen, dust)
      case Success((send, fee)) =>
        && send + fee == Sum(coins) && send >= dust
        && (forall a :: Funds(coins, a, rate, memoLen) <==> a <= send)
      case Failure(_) => forall a :: Funds(coins, a, rate, memoLen) ==> a < dust
  {
  }

  /** A sweep in numbers: the least fee for one output, and a refusal exactly when less than 294 would remain. */
  lemma SweepInNumbers(total: int, n: nat, rate: real, memoLen: nat)
    ensures var vsize := BareVsize(n, memoLen) + 31;
      match SweepAmount(total, n, rate, memoLen)
      case Success((send, fee)) => send + fee == total && send >= 294 && LeastFee(fee, vsize, rate)
      case Failure(e) => e == InsufficientFunds && (total - 294) as real < vsize as real * rate
    ensures SweepAmount(total, n, rate) == SweepAmount(total, n, rate, 80)
  {
    FeeInNumbers(n, 1, memoLen, rate);
  }

  /** Selection accepts the swept amount; when it needs every coin, it pays the very same fee and no change. */
  lemma {:induction false} SweepAgreesWithSelection(utxos: seq<Utxo>, rate: real, memoLen: nat, dust: int)
    requires rate >= 0.0 && dust >= 0 && (utxos != [] || dust > 0)
    requires SweepAmount(Sum(utxos), |utxos|, rate, memoLen, dust).Success?
    ensures var (send, fee) := SweepAmount(Sum(utxos), |utxos|, rate, memoLen, dust).value;
      var r := Select(utxos, send, rate, memoLen, dust);
      r.Success? && (|r.value.utxos| == |utxos| ==> r.value.fee == fee && r.value.change == 0)
  {
    var (send, fee) := SweepAmount(Sum(utxos), |utxos|, rate, memoLen, dust).value;
    FeeNonNegative(|utxos|, 1, memoLen, rate);
    assert utxos != [];
    SelectionUsesFewestInputs(utxos, utxos, send, rate, memoLen, dust);
    SelectionConserves(utxos, send, rate, memoLen, dust);
    SortIsStablePermutation(utxos);
    FirstSettledIsLeast(SortDescending(utxos), 0, send, rate, memoLen, dust);
    FeeMonotone(|utxos|, |utxos|, 1, 2, memoLen, memoLen, rate);
    var chosen := Select(utxos, send, rate, memoLen, dust).value.utxos;
    if |chosen| == |utxos| {
      assert chosen == SortDescending(utxos);
    }
  }

  /** Without a coin, at no fee and no dust limit, a sweep of 0 is computed that selection refuses. */
  lemma {:induction false} EmptySweepIsRefused(memoLen: nat)
    ensures SweepAmount(Sum([]), 0, 0.0, memoLen, 0) == Success((0, 0))
    ensures Select([], 0, 0.0, memoLen, 0) == Failure(InsufficientFunds)
  {
    assert SortDescending([]) == [];
  }

  /** With the default memo length a sweep never reserves less fee than any memo it may carry needs. */
  lemma DefaultMemoNeverUnderestimates(total: int, nInputs: nat, rate: real, memoLen: nat, dust: int)
    requires rate >= 0.0 && memoLen <= OP_RETURN_MAX_BYTES
    ensures var byDefault := SweepAmount(total, nInputs, rate, OP_RETURN_MAX_BYTES, dust);
      byDefault.Success? ==>
        var exact := SweepAmount(total, nInputs, rate, memoLen, dust);
        exact.Success? && byDefault.value.1 >= exact.value.1 && byDefault.value.0 <= exact.value.0
  {
    FeeMonotone(nInputs, nInputs, 1, 1, memoLen, OP_RETURN_MAX_BYTES, rate);
  }

  // --- token amounts ---

  function Pow10(n: nat): (p: nat)
    ensures p > 0
  {
    Radix.PowPositive(10, n);
    Radix.Pow(10, n)
  }

  lemma Pow10InNumbers(n: nat)
    ensures Pow10(0) == 1 && Pow10(n + 1) == 10 * Pow10(n) && Pow10(8) == 100_000_000
  {
    assert Radix.Pow(10, 4) == 10_000;
    Radix.PowAdd(10, 4, 4);
  }

  function TokenSweepAmount(balance: int, decimals: nat): Result<int> {
    var amount := balance * Pow10(8) / Pow10(decimals);
    if amount <= 0 then Failure(InsufficientFunds) else Success(amount)
  }

  /** THORChain 1e8 units to native units, rounding down (chains/eth.py). */
  function FloorToNative(amount: int, decimals: nat): int {
    amount * Pow10(decimals) / Pow10(8)
  }

  /** A common factor of dividend and divisor cancels under floor division. */
  lemma CommonFactor(b: int, g: nat, c: nat)
    requires g > 0 && c > 0
    ensures c * g > 0 && b * c / (c * g) == b / g
  {
    var q, r := b / g, b % g;
    assert b == q * g + r;
    assert (q * g + r) * c == q * (c * g) + r * c;
    Radix.MulMono(r + 1, g, c);
    assert r * c < c * g;
    Radix.DivModUnique(q, r * c, c * g);
  }

  /** How the powers of ten of a token and of THORChain's 1e8 units relate. */
  lemma Pow10Split(decimals: nat)
    ensures decimals <= 8 ==> Pow10(8) == Pow10(decimals) * Pow10(8 - decimals)
    ensures decimals > 8 ==> Pow10(decimals) == Pow10(8) * Pow10(decimals - 8)
  {
    if decimals <= 8 {
      Radix.PowAdd(10, decimals, 8 - decimals);
    } else {
      Radix.PowAdd(10, 8, decimals - 8);
    }
  }

  /** Rounding down: up to 8 decimals less than one native unit is lost, and beyond nothing. */
  lemma NativeInNumbers(amount: int, decimals: nat)
    ensures decimals <= 8 ==>
      var native, unit := FloorToNative(amount, decimals), Pow10(8 - decimals);
      native * unit <= amount < (native + 1) * unit
    ensures decimals > 8 ==> FloorToNative(amount, decimals) == amount * Pow10(decimals - 8)
  {
    Pow10Split(decimals);
    var p := Pow10(decimals);
    if decimals <= 8 {
      var unit := Pow10(8 - decimals);
      CommonFactor(amount, unit, p);
      assert amount == amount / unit * unit + amount % unit;
    } else {
      var f := Pow10(decimals - 8);
      assert amount * (Pow10(8) * f) == (amount * f) * Pow10(8);
      Radix.DivModUnique(amount * f, 0, Pow10(8));
    }
  }

  /** The swept amount in 1e8 units: exact up to 8 decimals, whole 1e8 units beyond. */
  lemma SweptUnits(balance: int, decimals: nat)
    ensures balance * Pow10(8) / Pow10(decimals)
      == if decimals <= 8 then balance * Pow10(8 - decimals) else balance / Pow10(decimals - 8)
  {
    Pow10Split(decimals);
    var p := Pow10(decimals);
    if decimals <= 8 {
      var f := Pow10(8 - decimals);
      assert balance * (p * f) == (balance * f) * p;
      Radix.DivModUnique(balance * f, 0, p);
    } else {
      CommonFactor(balance, Pow10(decimals - 8), Pow10(8));
    }
  }

  /** What the smallest sweepable balance is, in native units. */
  function SweepFloor(decimals: nat): nat {
    if decimals <= 8 then 1 else Pow10(decimals - 8)
  }

  lemma SweptBackExactly(balance: int, decimals: nat)
    requires decimals <= 8
    ensures FloorToNative(balance * Pow10(8 - decimals), decimals) == balance
    ensures balance * Pow10(8 - decimals) > 0 <==> balance >= 1
  {
    var p8, p, f := Pow10(8), Pow10(decimals), Pow10(8 - decimals);
    Pow10Split(decimals);
    Radix.MulMono(balance, 0, f);
    Radix.MulMono(1, balance, f);
    assert balance * f * p == balance * (p * f);
    Radix.DivModUnique(balance, 0, p8);
  }

  lemma SweptBackRounded(balance: int, decimals: nat)
    requires decimals > 8
    ensures FloorToNative(balance / Pow10(decimals - 8), decimals)
      == balance / Pow10(decimals - 8) * Pow10(decimals - 8)
    ensures balance / Pow10(decimals - 8) > 0 <==> balance >= Pow10(decimals - 8)
  {
    var p8, p, g := Pow10(8), Pow10(decimals), Pow10(decimals - 8);
    Pow10Split(decimals);
    var q, r := balance / g, balance % g;
    assert balance == q * g + r;
    Radix.MulMono(q, 0, g);
    Radix.MulMono(1, q, g);
    assert q * (p8 * g) == (q * g) * p8;
    Radix.DivModUnique(q * g, 0, p8);
  }

  /**
   A token sweep sends the whole balance: converted back to native units it is exact up to 8 decimals;
   beyond that it never exceeds the balance and falls short by less than one 1e8 unit. It is refused
   exactly when the balance is below one unit.
   */
  lemma TokenSweepRoundTrip(balance: int, decimals: nat)
    ensures TokenSweepAmount(balance, decimals).Success? ==>
      TokenSweepAmount(balance, decimals).value
        == if decimals <= 8 then balance * Pow10(8 - decimals) else balance / Pow10(decimals - 8)
    ensures TokenSweepAmount(balance, decimals).Success? <==> balance >= SweepFloor(decimals)
    ensures TokenSweepAmount(balance, decimals).Success? ==>
      var back := FloorToNative(TokenSweepAmount(balance, decimals).value, decimals);
      && (decimals <= 8 ==> back == balance)
      && balance - SweepFloor(decimals) < back <= balance
  {
    SweptUnits(balance, decimals);
    if decimals <= 8 {
      SweptBackExactly(balance, decimals);
    } else {
      SweptBackRounded(balance, decimals);
    }
  }
}
