/**
 The Bitcoin adapter (chains/btc.py): the wallet's balance, the unsigned transaction, its gate, and signing.
 Transactions are objects that inputs and outputs are added to; a Draft is the value one ends up with.
 */
module Btc {
  import opened Wrappers
  import opened Text
  import opened Coins
  import opened Verify
  import Utf8
  import Scan
  import Swap

  const DEFAULT_DERIVATION := "m/84'/0'/0'/0/0"
  const ACCOUNT := "m/84'/0'/0'"

  /** The HD key at a derivation path of the wallet's seed. */
  datatype Key = Key(path: string)

  datatype TxInput = TxInput(prevTxid: string, outputN: nat, value: int, key: Key)

  /** An output before extraction: a payment to an address, or a nulldata script. */
  datatype RawOutput = Payment(value: int, address: string) | NullData(value: int, lockScript: bytes)

  /** What is sent to the network. */
  datatype RawTx = RawTx(inputs: seq<TxInput>, outputs: seq<RawOutput>)

  datatype Draft = Draft(inputs: seq<TxInput>, rawOutputs: seq<RawOutput>, outputs: seq<TxOutput>, fee: int,
                         changeAddress: string, keys: seq<Key>)

  /** The arguments of build_unsigned_swap besides the wallet and its coins. */
  datatype Order = Order(vault: string, amount: int, memo: Option<string>, feeRate: real, changeAddress: Option<string>,
                         sweep: bool, defaultPath: string := DEFAULT_DERIVATION)

  // --- the transaction object ---

  class Transaction {
    var inputs: seq<TxInput>
    var outputs: seq<RawOutput>
    var signed: seq<bool>

    constructor ()
      ensures inputs == [] && outputs == [] && signed == []
    {
      inputs, outputs, signed := [], [], [];
    }

    method AddInput(input: TxInput)
      modifies this
      ensures inputs == old(inputs) + [input] && signed == old(signed) + [false] && outputs == old(outputs)
    {
      inputs, signed := inputs + [input], signed + [false];
    }

    method AddOutput(output: RawOutput)
      modifies this
      ensures outputs == old(outputs) + [output] && inputs == old(inputs) && signed == old(signed)
    {
      outputs := outputs + [output];
    }

    /** Every input some key unlocks gets a signature; the others are left as they were, without an error. */
    method Sign(keys: seq<Key>, unlocks: (Key, TxInput) -> bool)
      requires |signed| == |inputs|
      modifies this`signed
      ensures |signed| == |inputs|
      ensures forall i :: 0 <= i < |inputs| ==> signed[i] == (old(signed)[i] || Unlocked(keys, inputs[i], unlocks))
    {
      signed := seq(|inputs|, i requires 0 <= i < |inputs| reads this requires |signed| == |inputs| =>
        signed[i] || Unlocked(keys, inputs[i], unlocks));
    }
  }

  predicate Unlocked(keys: seq<Key>, input: TxInput, unlocks: (Key, TxInput) -> bool) {
    exists k :: 0 <= k < |keys| && unlocks(keys[k], input)
  }

  /** A built swap: the transaction object and the neutral fields the gate reads. */
  datatype BuiltSwap = BuiltSwap(tx: Transaction, outputs: seq<TxOutput>, fee: int, changeAddress: string,
                                 keys: seq<Key>)
  {
    ghost predicate Is(d: Draft)
      reads tx
    {
      tx.inputs == d.inputs && tx.outputs == d.rawOutputs &&
      outputs == d.outputs && fee == d.fee && changeAddress == d.changeAddress && keys == d.keys
    }

    ghost predicate Unsigned()
      reads tx
    {
      |tx.signed| == |tx.inputs| && true !in tx.signed
    }

    /** Every signature so far is one its own keys could have made; so it is before and after signing. */
    ghost predicate SelfSigned(unlocks: (Key, TxInput) -> bool)
      reads tx
    {
      |tx.signed| == |tx.inputs| &&
      forall i :: 0 <= i < |tx.signed| && tx.signed[i] ==> Unlocked(keys, tx.inputs[i], unlocks)
    }
  }

  // --- extraction ---

  function ExtractOne(o: RawOutput): Result<TxOutput> {
    match o
    case NullData(value, script) =>
      var data :- DecodeOpReturn(script);
      Success(TxOutput(None, value, Some(data)))
    case Payment(value, address) => Success(TxOutput(Some(address), value))
  }

  function Extract(outputs: seq<RawOutput>): Result<seq<TxOutput>> {
    if outputs == [] then Success([]) else
      var front :- Extract(outputs[..|outputs| - 1]);
      var last :- ExtractOne(outputs[|outputs| - 1]);
      Success(front + [last])
  }

  lemma {:induction false} ExtractFails(outputs: seq<RawOutput>, k: nat)
    requires k <= |outputs| && Extract(outputs[..k]).Failure?
    ensures Extract(outputs) == Extract(outputs[..k])
  {
    if k == |outputs| {
      assert outputs[..k] == outputs;
    } else {
      assert outputs[..|outputs| - 1][..k] == outputs[..k];
      ExtractFails(outputs[..|outputs| - 1], k);
    }
  }

  /** What extraction makes of one output. */
  predicate ExtractsTo(raw: RawOutput, o: TxOutput) {
    match raw
    case Payment(value, address) => o == TxOutput(Some(address), value, None)
    case NullData(value, script) =>
      DecodeOpReturn(script).Success? && o == TxOutput(None, value, Some(DecodeOpReturn(script).value))
  }

  /** Extraction keeps number, order and values, and fails only on a script that does not decode. */
  lemma {:induction false} ExtractMeaning(outputs: seq<RawOutput>, neutral: seq<TxOutput>)
    ensures Extract(outputs) == Success(neutral) <==>
      |neutral| == |outputs| && forall i :: 0 <= i < |outputs| ==> ExtractsTo(outputs[i], neutral[i])
    ensures Extract(outputs).Failure? <==>
      exists i :: 0 <= i < |outputs| && outputs[i].NullData? && DecodeOpReturn(outputs[i].lockScript).Failure?
  {
    if outputs != [] {
      var last := |outputs| - 1;
      var front := if neutral == [] then [] else neutral[..|neutral| - 1];
      ExtractMeaning(outputs[..last], front);
      if neutral != [] {
        assert neutral == front + [neutral[|neutral| - 1]];
      }
      assert ExtractOne(outputs[last]).Failure? ==> outputs[last].NullData?;
    }
  }

  /** _extract_outputs. */
  method ExtractOutputs(tx: Transaction) returns (r: Result<seq<TxOutput>>)
    ensures r == Extract(tx.outputs)
  {
    var outputs: seq<TxOutput> := [];
    for k := 0 to |tx.outputs|
      invariant Extract(tx.outputs[..k]) == Success(outputs)
    {
      assert tx.outputs[..k + 1][..k] == tx.outputs[..k];
      match tx.outputs[k] {
        case NullData(value, script) =>
          var data := DecodeOpReturn(script);
          if data.Failure? {
            ExtractFails(tx.outputs, k + 1);
            return Failure(data.error);
          }
          outputs := outputs + [TxOutput(None, value, Some(data.value))];
        case Payment(value, address) =>
          outputs := outputs + [TxOutput(Some(address), value)];
      }
    }
    assert tx.outputs[..|tx.outputs|] == tx.outputs;
    return Success(outputs);
  }

  // --- building ---

  function OrDefault(path: Option<string>, default: string): string {
    if path.None? || path.value == "" then default else path.value
  }

  function InputsOf(chosen: seq<Utxo>, defaultPath: string): (inputs: seq<TxInput>)
    ensures |inputs| == |chosen|
  {
    seq(|chosen|, i requires 0 <= i < |chosen| =>
      TxInput(chosen[i].txid, chosen[i].vout, chosen[i].value, Key(OrDefault(chosen[i].path, defaultPath))))
  }

  function KeysOf(inputs: seq<TxInput>): (keys: seq<Key>)
    ensures |keys| == |inputs|
  {
    seq(|inputs|, i requires 0 <= i < |inputs| => inputs[i].key)
  }

  function MemoBytes(memo: Option<string>): bytes {
    if memo.Some? then Utf8.Encode(memo.value) else []
  }

  /** Which coins are spent, for what fee and change: all of them in a sweep, a selection otherwise. */
  function ChooseCoins(utxos: seq<Utxo>, o: Order): Result<Selection> {
    if o.sweep then
      var fee := Sum(utxos) - o.amount;
      if fee < 0 then Failure(InsufficientFunds) else Success(Selection(utxos, fee, 0))
    else Select(utxos, o.amount, o.feeRate, |MemoBytes(o.memo)|)
  }

  /** The payment, and the memo's script unless there is no memo. */
  function CarriedOutputs(vault: string, amount: int, memo: Option<string>): Result<seq<RawOutput>> {
    if memo.None? then Success([Payment(amount, vault)])
    else
      var script :- EncodeOpReturn(MemoBytes(memo));
      Success([Payment(amount, vault)] + [NullData(0, script)])
  }

  function DraftOutputs(vault: string, amount: int, memo: Option<string>, change: int, changeAddress: string):
    Result<seq<RawOutput>>
  {
    var carried :- CarriedOutputs(vault, amount, memo);
    Success(if change > 0 then carried + [Payment(change, changeAddress)] else carried)
  }

  /** build_unsigned_swap as a value; `addressAt` derives the wallet's address at a path. */
  function BuildDraft(addressAt: string -> string, utxos: seq<Utxo>, o: Order): Result<Draft> {
    var back := OrDefault(o.changeAddress, addressAt(o.defaultPath));
    var s :- ChooseCoins(utxos, o);
    var raw :- DraftOutputs(o.vault, o.amount, o.memo, s.change, back);
    var outputs :- Extract(raw);
    var inputs := InputsOf(s.utxos, o.defaultPath);
    Success(Draft(inputs, raw, outputs, s.fee, back, KeysOf(inputs)))
  }

  /** One input per chosen coin, each with the key of its own path. */
  method AddInputs(tx: Transaction, chosen: seq<Utxo>, defaultPath: string) returns (keys: seq<Key>)
    requires tx.inputs == [] && tx.signed == []
    modifies tx
    ensures tx.inputs == InputsOf(chosen, defaultPath) && tx.outputs == old(tx.outputs)
    ensures |tx.signed| == |chosen| && true !in tx.signed
    ensures keys == KeysOf(tx.inputs)
  {
    keys := [];
    ghost var inputs := InputsOf(chosen, defaultPath);
    for k := 0 to |chosen|
      invariant tx.inputs == inputs[..k] && tx.outputs == old(tx.outputs)
      invariant keys == KeysOf(inputs)[..k]
      invariant |tx.signed| == k && true !in tx.signed
    {
      var u := chosen[k];
      var key := Key(OrDefault(u.path, defaultPath));
      tx.AddInput(TxInput(u.txid, u.vout, u.value, key));
      keys := keys + [key];
    }
  }

  /** The payment, the memo unless there is none, and the change if there is any, in this order. */
  method AddOutputs(tx: Transaction, vault: string, amount: int, memo: Option<string>, change: int,
                    changeAddress: string)
    returns (r: Result<()>)
    requires tx.outputs == []
    modifies tx
    ensures tx.inputs == old(tx.inputs) && tx.signed == old(tx.signed)
    ensures match DraftOutputs(vault, amount, memo, change, changeAddress)
      case Failure(e) => r == Failure(e)
      case Success(outputs) => r.Success? && tx.outputs == outputs
  {
    tx.AddOutput(Payment(amount, vault));
    if memo.Some? {
      var script :- EncodeOpReturn(MemoBytes(memo));
      tx.AddOutput(NullData(0, script));
    }
    if change > 0 {
      tx.AddOutput(Payment(change, changeAddress));
    }
    return Success(());
  }

  /** build_unsigned_swap. */
  method BuildUnsignedSwap(addressAt: string -> string, utxos: seq<Utxo>, o: Order) returns (r: Result<BuiltSwap>)
    ensures match BuildDraft(addressAt, utxos, o)
      case Failure(e) => r == Failure(e)
      case Success(d) => r.Success? && fresh(r.value.tx) && r.value.Is(d) && r.value.Unsigned()
  {
    var back := OrDefault(o.changeAddress, addressAt(o.defaultPath));
    var chosen, fee, change := utxos, Sum(utxos) - o.amount, 0;
    if o.sweep {
      if fee < 0 {
        return Failure(InsufficientFunds);
      }
    } else {
      var s :- SelectCoins(utxos, o.amount, o.feeRate, |MemoBytes(o.memo)|);
      chosen, fee, change := s.utxos, s.fee, s.change;
    }
    var tx := new Transaction();
    var keys := AddInputs(tx, chosen, o.defaultPath);
    var _ :- AddOutputs(tx, o.vault, o.amount, o.memo, change, back);
    var outputs :- ExtractOutputs(tx);
    return Success(BuiltSwap(tx, outputs, fee, back, keys));
  }

  function NeutralCarried(vault: string, amount: int, memo: Option<string>): seq<TxOutput> {
    var payment := [TxOutput(Some(vault), amount)];
    if memo.Some? then payment + [TxOutput(None, 0, Some(MemoBytes(memo)))] else payment
  }

  /** What the gate should see: the payment, then the memo's own bytes, then the change. */
  function NeutralOutputs(vault: string, amount: int, memo: Option<string>, change: int,
                          changeAddress: string): seq<TxOutput> {
    var carried := NeutralCarried(vault, amount, memo);
    if change > 0 then carried + [TxOutput(Some(changeAddress), change)] else carried
  }

  lemma MemoExtracts(data: bytes)
    ensures EncodeOpReturn(data).Success? <==> |data| <= Coins.OP_RETURN_MAX_BYTES
    ensures EncodeOpReturn(data).Success? ==>
      ExtractOne(NullData(0, EncodeOpReturn(data).value)) == Success(TxOutput(None, 0, Some(data)))
  {
    OpReturnRoundTrip(data);
  }

  lemma CarriedExtract(vault: string, amount: int, memo: Option<string>)
    ensures var r := CarriedOutputs(vault, amount, memo);
      && (r.Success? <==> |MemoBytes(memo)| <= Coins.OP_RETURN_MAX_BYTES)
      && (r.Success? ==> Extract(r.value) == Success(NeutralCarried(vault, amount, memo)))
  {
    MemoExtracts(MemoBytes(memo));
    ExtractOnly(Payment(amount, vault));
    if memo.Some? && |MemoBytes(memo)| <= Coins.OP_RETURN_MAX_BYTES {
      ExtractSnoc([Payment(amount, vault)], NullData(0, EncodeOpReturn(MemoBytes(memo)).value));
    }
  }

  /** The outputs are built unless the memo is too long, and extraction hands the gate exactly what went in. */
  lemma BuiltOutputs(vault: string, amount: int, memo: Option<string>, change: int,
                     changeAddress: string)
    ensures var r := DraftOutputs(vault, amount, memo, change, changeAddress);
      && (r.Success? <==> |MemoBytes(memo)| <= Coins.OP_RETURN_MAX_BYTES)
      && (r.Success? ==> Extract(r.value) == Success(NeutralOutputs(vault, amount, memo, change, changeAddress)))
  {
    CarriedExtract(vault, amount, memo);
    var carried := CarriedOutputs(vault, amount, memo);
    if carried.Success? && change > 0 {
      ExtractSnoc(carried.value, Payment(change, changeAddress));
    }
  }

  lemma ExtractOnly(o: RawOutput)
    requires ExtractOne(o).Success?
    ensures Extract([o]) == Success([ExtractOne(o).value])
  {
    assert [o][..0] == [];
    assert [] + [ExtractOne(o).value] == [ExtractOne(o).value];
  }

  lemma {:induction false} ExtractSnoc(front: seq<RawOutput>, o: RawOutput)
    requires Extract(front).Success? && ExtractOne(o).Success?
    ensures Extract(front + [o]) == Success(Extract(front).value + [ExtractOne(o).value])
  {
    assert (front + [o])[..|front|] == front;
  }

  // --- conservation ---

  function InputTotal(inputs: seq<TxInput>): int {
    if inputs == [] then 0 else inputs[0].value + InputTotal(inputs[1..])
  }

  lemma {:induction false} InputsTotal(chosen: seq<Utxo>, defaultPath: string)
    ensures InputTotal(InputsOf(chosen, defaultPath)) == Sum(chosen)
  {
    if chosen != [] {
      InputsTotal(chosen[1..], defaultPath);
      assert InputsOf(chosen, defaultPath)[1..] == InputsOf(chosen[1..], defaultPath);
    }
  }

  lemma NeutralTotal(vault: string, amount: int, memo: Option<string>, change: int,
                     changeAddress: string)
    ensures Total(NeutralOutputs(vault, amount, memo, change, changeAddress))
      == amount + if change > 0 then change else 0
  {
    var back := if change > 0 then [TxOutput(Some(changeAddress), change)] else [];
    var tail := if memo.Some? then [TxOutput(None, 0, Some(MemoBytes(memo)))] + back else back;
    assert NeutralOutputs(vault, amount, memo, change, changeAddress) == [TxOutput(Some(vault), amount)] + tail;
    TotalCons(TxOutput(Some(vault), amount), tail);
    if memo.Some? {
      TotalCons(TxOutput(None, 0, Some(MemoBytes(memo))), back);
    }
    if change > 0 {
      TotalCons(TxOutput(Some(changeAddress), change), []);
      assert back == [TxOutput(Some(changeAddress), change)] + [];
    }
  }

  /** Change is never negative and never dust, in a sweep or not; the fee is non-negative for a non-negative rate. */
  lemma ChosenCoins(utxos: seq<Utxo>, o: Order)
    requires ChooseCoins(utxos, o).Success?
    ensures var s := ChooseCoins(utxos, o).value;
      && SubsetOf(s.utxos, utxos) && (o.sweep ==> s.utxos == utxos)
      && Sum(s.utxos) == o.amount + s.fee + s.change
      && (s.change == 0 || s.change >= DUST_P2WPKH)
      && (o.feeRate >= 0.0 ==> s.fee >= 0)
  {
    if !o.sweep {
      var m := |MemoBytes(o.memo)|;
      SelectionConserves(utxos, o.amount, o.feeRate, m, DUST_P2WPKH);
      if o.feeRate >= 0.0 {
        var n := |ChooseCoins(utxos, o).value.utxos|;
        FeeNonNegative(n, 1, m, o.feeRate);
        FeeNonNegative(n, 2, m, o.feeRate);
      }
    }
  }

  /** The input spends this coin, with the key of the coin's own path, or of the default path if it has none. */
  predicate Spends(input: TxInput, u: Utxo, defaultPath: string) {
    && input.prevTxid == u.txid && input.outputN == u.vout && input.value == u.value
    && input.key.path == if u.path.Some? && u.path.value != "" then u.path.value else defaultPath
  }

  predicate SpendsCoins(inputs: seq<TxInput>, coins: seq<Utxo>, defaultPath: string) {
    |inputs| == |coins| && forall i :: 0 <= i < |inputs| ==> Spends(inputs[i], coins[i], defaultPath)
  }

  /**
   A transaction piece by piece: inputs that spend chosen coins of the wallet, the payment, the memo's script if
   there is a memo, the change if there is any, and a fee at the given rate (in a sweep, whatever is left).
   */
  predicate Consists(raw: RawTx, addressAt: string -> string, utxos: seq<Utxo>, o: Order, s: Selection) {
    var memo := if o.memo.Some? then Utf8.Encode(o.memo.value) else [];
    && SubsetOf(s.utxos, utxos) && SpendsCoins(raw.inputs, s.utxos, o.defaultPath)
    && |memo| <= 80
    && raw.outputs == [Payment(o.amount, o.vault)]
       + (if o.memo.Some? then [NullData(0, EncodeOpReturn(memo).value)] else [])
       + (if s.change > 0 then [Payment(s.change, ChangeAddress(addressAt, o))] else [])
    && s.fee == Sum(s.utxos) - o.amount - s.change
    && if o.sweep then s.utxos == utxos && s.change == 0 && s.fee >= 0
       else s.utxos != [] && PaysRate(s, o.amount, o.feeRate, |memo|)
  }

  /** Where change goes: to the address given, or if there is none, to that of the default path. */
  function ChangeAddress(addressAt: string -> string, o: Order): string {
    if o.changeAddress.Some? && o.changeAddress.value != "" then o.changeAddress.value else addressAt(o.defaultPath)
  }

  lemma InputsSpend(chosen: seq<Utxo>, defaultPath: string)
    ensures SpendsCoins(InputsOf(chosen, defaultPath), chosen, defaultPath)
    ensures forall i :: 0 <= i < |chosen| ==>
      KeysOf(InputsOf(chosen, defaultPath))[i] == InputsOf(chosen, defaultPath)[i].key
  {
  }

  lemma {:induction false} ChosenPayRate(utxos: seq<Utxo>, o: Order)
    requires ChooseCoins(utxos, o).Success?
    ensures var s := ChooseCoins(utxos, o).value;
      && SubsetOf(s.utxos, utxos) && s.fee == Sum(s.utxos) - o.amount - s.change
      && if o.sweep then s.utxos == utxos && s.change == 0 && s.fee >= 0
         else s.utxos != [] && PaysRate(s, o.amount, o.feeRate, |MemoBytes(o.memo)|)
  {
    ChosenCoins(utxos, o);
    if !o.sweep {
      SelectionInNumbers(utxos, o.amount, o.feeRate, |MemoBytes(o.memo)|);
    }
  }

  lemma OutputsInOrder(o: Order, change: int, back: string)
    requires DraftOutputs(o.vault, o.amount, o.memo, change, back).Success?
    ensures var memo := if o.memo.Some? then Utf8.Encode(o.memo.value) else [];
      && |memo| <= 80
      && DraftOutputs(o.vault, o.amount, o.memo, change, back).value == [Payment(o.amount, o.vault)]
         + (if o.memo.Some? then [NullData(0, EncodeOpReturn(memo).value)] else [])
         + (if change > 0 then [Payment(change, back)] else [])
  {
    MemoExtracts(MemoBytes(o.memo));
  }

  /** What the builder builds, and the fields it reports: fee, change address and the keys of the inputs in order. */
  lemma {:induction false} DraftConsists(addressAt: string -> string, utxos: seq<Utxo>, o: Order)
    requires BuildDraft(addressAt, utxos, o).Success?
    ensures var d := BuildDraft(addressAt, utxos, o).value;
      var s := ChooseCoins(utxos, o).value;
      && Consists(RawTx(d.inputs, d.rawOutputs), addressAt, utxos, o, s)
      && d.fee == s.fee && d.changeAddress == ChangeAddress(addressAt, o)
      && |d.keys| == |d.inputs| && forall i :: 0 <= i < |d.keys| ==> d.keys[i] == d.inputs[i].key
  {
    var s := ChooseCoins(utxos, o).value;
    ChosenPayRate(utxos, o);
    InputsSpend(s.utxos, o.defaultPath);
    OutputsInOrder(o, s.change, OrDefault(o.changeAddress, addressAt(o.defaultPath)));
  }

  /** Some of the coins cover the payment and the fee of a transaction that carries this memo. */
  ghost predicate Affordable(utxos: seq<Utxo>, o: Order) {
    exists pick: seq<Utxo> :: (
      pick != [] && SubsetOf(pick, utxos) && Funds(pick, o.amount, o.feeRate, |MemoBytes(o.memo)|))
  }

  /** A swap is built exactly when the memo fits and the coins suffice; in a sweep the amount comes with its fee. */
  lemma {:induction false} BuildsIff(addressAt: string -> string, utxos: seq<Utxo>, o: Order)
    requires o.feeRate >= 0.0
    ensures BuildDraft(addressAt, utxos, o).Success? <==>
      && |MemoBytes(o.memo)| <= Coins.OP_RETURN_MAX_BYTES
      && (if o.sweep then o.amount <= Sum(utxos) else Affordable(utxos, o))
  {
    CoinsSuffice(utxos, o);
    if ChooseCoins(utxos, o).Success? {
      BuiltOutputs(o.vault, o.amount, o.memo, ChooseCoins(utxos, o).value.change,
                   OrDefault(o.changeAddress, addressAt(o.defaultPath)));
    }
  }

  lemma {:induction false} CoinsSuffice(utxos: seq<Utxo>, o: Order)
    requires o.feeRate >= 0.0
    ensures ChooseCoins(utxos, o).Success? <==> if o.sweep then o.amount <= Sum(utxos) else Affordable(utxos, o)
  {
    if !o.sweep {
      var m := |MemoBytes(o.memo)|;
      InsufficientIffNoSubsetFunds(utxos, o.amount, o.feeRate, m, DUST_P2WPKH);
      SortIsStablePermutation(utxos);
      FirstSettledIsLeast(SortDescending(utxos), 0, o.amount, o.feeRate, m, DUST_P2WPKH);
    }
  }

  /** Whatever is built spends only the wallet's coins, each with its own key, and nothing appears or vanishes. */
  lemma BuilderConserves(addressAt: string -> string, utxos: seq<Utxo>, o: Order)
    requires BuildDraft(addressAt, utxos, o).Success?
    ensures var d := BuildDraft(addressAt, utxos, o).value;
      var s := ChooseCoins(utxos, o).value;
      && SubsetOf(s.utxos, utxos) && SpendsCoins(d.inputs, s.utxos, o.defaultPath) && d.keys == KeysOf(d.inputs)
      && d.outputs == NeutralOutputs(o.vault, o.amount, o.memo, s.change, d.changeAddress)
      && InputTotal(d.inputs) == Total(d.outputs) + d.fee
      && (o.feeRate >= 0.0 ==> d.fee >= 0)
  {
    var s := ChooseCoins(utxos, o).value;
    var back := OrDefault(o.changeAddress, addressAt(o.defaultPath));
    ChosenCoins(utxos, o);
    InputsTotal(s.utxos, o.defaultPath);
    InputsSpend(s.utxos, o.defaultPath);
    BuiltOutputs(o.vault, o.amount, o.memo, s.change, back);
    NeutralTotal(o.vault, o.amount, o.memo, s.change, back);
  }

  // --- build, then gate ---

  /** The change, if any, comes back to us and not to the payee. */
  predicate ChangeComesBack(change: int, changeAddress: string, to: string, owned: set<string>) {
    change > 0 ==> changeAddress != to && changeAddress in owned
  }

  lemma NeutralPayment(vault: string, amount: int, memo: Option<string>, change: int, back: string)
    ensures PaidExactly(NeutralOutputs(vault, amount, memo, change, back), vault, amount)
      <==> (change > 0 ==> back != vault)
  {
    var outputs := NeutralOutputs(vault, amount, memo, change, back);
    if change > 0 ==> back != vault {
      assert OnlyAt(Pays(vault), outputs, 0);
    } else {
      var last := |outputs| - 1;
      assert Pays(vault)(outputs[0]) && Pays(vault)(outputs[last]);
    }
  }

  lemma {:induction false} NeutralMemo(vault: string, amount: int, memo: string, change: int, back: string)
    ensures CarriesExactly(NeutralOutputs(vault, amount, Some(memo), change, back), memo)
      <==> |Utf8.Encode(memo)| <= Verify.OP_RETURN_MAX_BYTES
  {
    var outputs := NeutralOutputs(vault, amount, Some(memo), change, back);
    assert OnlyAt(CarriesData(), outputs, 1) && outputs[1].opReturnData == Some(Utf8.Encode(memo));
  }

  lemma NeutralRest(vault: string, amount: int, memo: Option<string>, change: int, back: string,
                    owned: set<string>)
    ensures RestIsOwned(NeutralOutputs(vault, amount, memo, change, back), vault, owned)
      <==> (change > 0 ==> back == vault || back in owned)
  {
    var outputs := NeutralOutputs(vault, amount, memo, change, back);
    if change > 0 {
      var last := |outputs| - 1;
      assert outputs[last] == TxOutput(Some(back), change);
    }
  }

  /**
   Completeness of the swap gate, exactly: a transaction the builder made for the plan passes if and only if
   the quote is unexpired, the fee within bounds, the memo pays the destination, and the change (if any)
   goes to an owned address other than the vault.
   */
  lemma BuildThenGate(addressAt: string -> string, utxos: seq<Utxo>, o: Order, plan: SwapPlan,
                      owned: set<string>, now: int, maxFee: int)
    requires BuildDraft(addressAt, utxos, o).Success?
    requires o.memo == Some(plan.memo) && o.vault == plan.inboundAddress && o.amount == plan.amount
    ensures var d := BuildDraft(addressAt, utxos, o).value;
      BtcSwapProblems(d.outputs, d.fee, plan, owned, now, maxFee) == [] <==>
        && now < plan.expiry && 0 <= d.fee <= maxFee && MemoPays(plan.destination, plan.memo)
        && ChangeComesBack(ChooseCoins(utxos, o).value.change, d.changeAddress, o.vault, owned)
  {
    var d := BuildDraft(addressAt, utxos, o).value;
    var change := ChooseCoins(utxos, o).value.change;
    BuilderConserves(addressAt, utxos, o);
    BuiltOutputs(o.vault, o.amount, o.memo, change, d.changeAddress);
    BtcSwapGate(d.outputs, d.fee, plan, owned, now, maxFee);
    NeutralPayment(o.vault, o.amount, o.memo, change, d.changeAddress);
    NeutralMemo(o.vault, o.amount, plan.memo, change, d.changeAddress);
    NeutralRest(o.vault, o.amount, o.memo, change, d.changeAddress, owned);
  }

  /** The same for a plain send, which is built without a memo. */
  lemma BuildThenSendGate(addressAt: string -> string, utxos: seq<Utxo>, o: Order, plan: SendPlan,
                          owned: set<string>, maxFee: int)
    requires BuildDraft(addressAt, utxos, o).Success?
    requires o.memo == None && o.vault == plan.recipient && o.amount == plan.amount
    ensures var d := BuildDraft(addressAt, utxos, o).value;
      BtcSendProblems(d.outputs, d.fee, plan, owned, maxFee) == [] <==>
        && 0 <= d.fee <= maxFee
        && ChangeComesBack(ChooseCoins(utxos, o).value.change, d.changeAddress, o.vault, owned)
  {
    var d := BuildDraft(addressAt, utxos, o).value;
    var change := ChooseCoins(utxos, o).value.change;
    BuilderConserves(addressAt, utxos, o);
    BtcSendGate(d.outputs, d.fee, plan, owned, maxFee);
    NeutralPayment(o.vault, o.amount, o.memo, change, d.changeAddress);
    NeutralRest(o.vault, o.amount, o.memo, change, d.changeAddress, owned);
  }

  /**
   A sweep through the whole pipeline: the amount computed for a memo of `memoLen` bytes is buildable with any
   memo no longer than that, spends every coin, leaves no change, pays the computed fee, and that is at least
   the fee the actual memo needs. Swaps compute with 80 bytes, sends with 0.
   */
  lemma {:induction false} SweepIsBuildable(addressAt: string -> string, utxos: seq<Utxo>, o: Order, memoLen: nat)
    requires o.sweep && o.feeRate >= 0.0
    requires |MemoBytes(o.memo)| <= memoLen <= Coins.OP_RETURN_MAX_BYTES
    requires SweepAmount(Sum(utxos), |utxos|, o.feeRate, memoLen).Success?
    requires o.amount == SweepAmount(Sum(utxos), |utxos|, o.feeRate, memoLen).value.0
    ensures var r := BuildDraft(addressAt, utxos, o);
      && r.Success? && SpendsCoins(r.value.inputs, utxos, o.defaultPath)
      && r.value.outputs == NeutralOutputs(o.vault, o.amount, o.memo, 0, r.value.changeAddress)
      && r.value.fee == SweepAmount(Sum(utxos), |utxos|, o.feeRate, memoLen).value.1
      && r.value.fee >= Fee(|utxos|, 1, |MemoBytes(o.memo)|, o.feeRate)
  {
    var back := OrDefault(o.changeAddress, addressAt(o.defaultPath));
    FeeNonNegative(|utxos|, 1, memoLen, o.feeRate);
    FeeMonotone(|utxos|, |utxos|, 1, 1, |MemoBytes(o.memo)|, memoLen, o.feeRate);
    BuiltOutputs(o.vault, o.amount, o.memo, 0, back);
    InputsSpend(utxos, o.defaultPath);
  }

  function OwnedAddresses(utxos: seq<Utxo>, changeAddress: string): set<string> {
    {changeAddress} + set k | 0 <= k < |utxos| :: utxos[k].address
  }

  lemma OwnedMeaning(utxos: seq<Utxo>, changeAddress: string, address: string)
    ensures address in OwnedAddresses(utxos, changeAddress)
      <==> address == changeAddress || exists u :: u in utxos && u.address == address
  {
  }

  /** What the adapter is configured with for one swap. */
  datatype Setup = Setup(
    addressAt: string -> string,        // derives the wallet's address at a path
    unlocks: (Key, TxInput) -> bool,    // whether a key's signature fits an input
    verifies: RawTx -> bool,            // the signature check of the finished transaction
    post: RawTx -> Result<string>,      // the network's answer to a raw transaction
    utxos: seq<Utxo>, feeRate: real, changeAddress: string, maxFee: int, sweep: bool)
  {
    function Owned(): set<string> {
      OwnedAddresses(utxos, changeAddress)
    }

    function OrderFor(quote: Swap.Quote, request: Swap.SwapRequest): Order {
      Order(quote.inboundAddress, request.amount, Some(quote.Memo()), feeRate, Some(changeAddress), sweep)
    }

    function SendOrder(recipient: string, amount: int): Order {
      Order(recipient, amount, None, feeRate, Some(changeAddress), sweep)
    }
  }

  function PlanFor(quote: Swap.Quote, request: Swap.SwapRequest): SwapPlan {
    SwapPlan(quote.inboundAddress, request.amount, quote.Memo(), quote.expiry, request.destination)
  }

  /** build_and_verify. */
  function BuildAndVerify(s: Setup, quote: Swap.Quote, request: Swap.SwapRequest,
                          now: int): Result<Swap.Prepared<Draft>> {
    var d :- BuildDraft(s.addressAt, s.utxos, s.OrderFor(quote, request));
    Success(Swap.Prepared(Some(quote), d,
      BtcSwapProblems(d.outputs, d.fee, PlanFor(quote, request), s.Owned(), now, s.maxFee)))
  }

  /** With a change address given, the adapter's own transactions fail the gate for no other reason than these. */
  lemma AdapterVerdict(s: Setup, quote: Swap.Quote, request: Swap.SwapRequest, now: int)
    requires BuildAndVerify(s, quote, request, now).Success?
    requires s.changeAddress != "" && s.feeRate >= 0.0
    ensures var p := BuildAndVerify(s, quote, request, now).value;
      var change := ChooseCoins(s.utxos, s.OrderFor(quote, request)).value.change;
      p.problems == [] <==>
        && now < quote.expiry && p.built.fee <= s.maxFee && MemoPays(request.destination, quote.Memo())
        && (change > 0 ==> s.changeAddress != quote.inboundAddress)
  {
    var o := s.OrderFor(quote, request);
    BuildThenGate(s.addressAt, s.utxos, o, PlanFor(quote, request), s.Owned(), now, s.maxFee);
    BuilderConserves(s.addressAt, s.utxos, o);
    assert s.changeAddress in s.Owned();
  }

  /** build_and_verify on the transaction object. */
  method BuildAndVerifySwap(s: Setup, quote: Swap.Quote, request: Swap.SwapRequest, now: int)
    returns (r: Result<Swap.Prepared<BuiltSwap>>)
    ensures match BuildAndVerify(s, quote, request, now)
      case Failure(e) => r == Failure(e)
      case Success(p) =>
        && r.Success? && fresh(r.value.built.tx) && r.value.built.Is(p.built) && r.value.built.Unsigned()
        && r.value.quote == p.quote && r.value.problems == p.problems
  {
    var built :- BuildUnsignedSwap(s.addressAt, s.utxos, s.OrderFor(quote, request));
    var problems := VerifyBtcSwap(built.outputs, built.fee, PlanFor(quote, request), s.Owned(), now, s.maxFee);
    return Success(Swap.Prepared(Some(quote), built, problems));
  }

  /** build_and_verify_send. */
  function SendAndVerify(s: Setup, recipient: string, amount: int): Result<Swap.Prepared<Draft>> {
    var d :- BuildDraft(s.addressAt, s.utxos, s.SendOrder(recipient, amount));
    Success(Swap.Prepared(None, d, BtcSendProblems(d.outputs, d.fee, SendPlan(recipient, amount), s.Owned(), s.maxFee)))
  }

  /** build_and_verify_send on the transaction object: no memo, no quote. */
  method BuildAndVerifySend(s: Setup, recipient: string, amount: int) returns (r: Result<Swap.Prepared<BuiltSwap>>)
    ensures match SendAndVerify(s, recipient, amount)
      case Failure(e) => r == Failure(e)
      case Success(p) =>
        && r.Success? && fresh(r.value.built.tx) && r.value.built.Is(p.built) && r.value.built.Unsigned()
        && r.value.quote == p.quote && r.value.problems == p.problems
  {
    var built :- BuildUnsignedSwap(s.addressAt, s.utxos, s.SendOrder(recipient, amount));
    var problems := VerifyBtcSend(built.outputs, built.fee, SendPlan(recipient, amount), s.Owned(), s.maxFee);
    return Success(Swap.Prepared(None, built, problems));
  }

  // --- signing ---

  predicate FullyUnlocked(d: Draft, unlocks: (Key, TxInput) -> bool) {
    forall i :: 0 <= i < |d.inputs| ==> Unlocked(d.keys, d.inputs[i], unlocks)
  }

  /** sign: one raw transaction, or a refusal when an input stays unsigned or the result does not verify. */
  function SignDraft(d: Draft, unlocks: (Key, TxInput) -> bool, verifies: RawTx -> bool): Result<seq<RawTx>> {
    var raw := RawTx(d.inputs, d.rawOutputs);
    if !FullyUnlocked(d, unlocks) || !verifies(raw) then Failure(SigningRefused) else Success([raw])
  }

  /**
   Inputs on different derivation paths are all signed: if the key of each coin's own path unlocks the input
   that spends it, no input stays unsigned.
   */
  lemma SignsAcrossPaths(addressAt: string -> string, utxos: seq<Utxo>, o: Order,
                         unlocks: (Key, TxInput) -> bool, verifies: RawTx -> bool)
    requires BuildDraft(addressAt, utxos, o).Success?
    requires forall u: Utxo, input: TxInput :: u in utxos && Spends(input, u, o.defaultPath) ==>
      unlocks(Key(if u.path.Some? && u.path.value != "" then u.path.value else o.defaultPath), input)
    ensures var d := BuildDraft(addressAt, utxos, o).value;
      FullyUnlocked(d, unlocks) &&
      (verifies(RawTx(d.inputs, d.rawOutputs)) ==>
        SignDraft(d, unlocks, verifies) == Success([RawTx(d.inputs, d.rawOutputs)]))
  {
    var d := BuildDraft(addressAt, utxos, o).value;
    BuilderConserves(addressAt, utxos, o);
    var chosen := ChooseCoins(utxos, o).value.utxos;
    forall i | 0 <= i < |d.inputs| ensures Unlocked(d.keys, d.inputs[i], unlocks) {
      assert chosen[i] in multiset(chosen);
      assert chosen[i] in utxos && Spends(d.inputs[i], chosen[i], o.defaultPath);
      assert unlocks(d.keys[i], d.inputs[i]);
    }
  }

  /** sign on the transaction object, which may carry signatures already: signing it again changes nothing. */
  method Sign(built: BuiltSwap, ghost d: Draft, unlocks: (Key, TxInput) -> bool, verifies: RawTx -> bool)
    returns (r: Result<seq<RawTx>>)
    requires built.Is(d) && |built.tx.signed| == |built.tx.inputs|
    modifies built.tx`signed
    ensures |built.tx.signed| == |built.tx.inputs|
    ensures forall i :: 0 <= i < |built.tx.inputs| ==>
      built.tx.signed[i] == (old(built.tx.signed)[i] || Unlocked(built.keys, built.tx.inputs[i], unlocks))
    ensures r == if false !in built.tx.signed && verifies(RawTx(d.inputs, d.rawOutputs))
      then Success([RawTx(d.inputs, d.rawOutputs)]) else Failure(SigningRefused)
    ensures old(built.SelfSigned(unlocks)) ==> r == SignDraft(d, unlocks, verifies) && built.SelfSigned(unlocks)
  {
    var tx := built.tx;
    tx.Sign(built.keys, unlocks);
    var unsigned: seq<nat> := [];
    for i := 0 to |tx.inputs|
      invariant unsigned == [] <==> forall j :: 0 <= j < i ==> tx.signed[j]
    {
      if !tx.signed[i] {
        unsigned := unsigned + [i];
      }
    }
    if unsigned != [] {
      return Failure(SigningRefused);
    }
    if !verifies(RawTx(tx.inputs, tx.outputs)) {
      return Failure(SigningRefused);
    }
    return Success([RawTx(tx.inputs, tx.outputs)]);
  }

  // --- balance ---

  /** The default path is that of the first receiving address. */
  lemma DefaultPathIsFirst()
    ensures Scan.PathOf(ACCOUNT, 0, 0) == DEFAULT_DERIVATION == "m/84'/0'/0'/0/0"
  {
  }

  datatype BalanceReport = BalanceReport(symbol: string, confirmed: int, decimals: nat, pending: int, note: string,
                                         addresses: seq<string>)

  function AddressesOf(records: seq<Scan.Record>): seq<string> {
    seq(|records|, i requires 0 <= i < |records| => records[i].address)
  }

  function ReportOf(records: seq<Scan.Record>): BalanceReport {
    BalanceReport("BTC", Scan.Confirmed(records), 8, Scan.Pending(records),
                  "(" + Decimal(|records|) + " used addresses)", AddressesOf(records))
  }

  /** wallet_balance: both branches scanned with the default gap limit and window, then summed. */
  method WalletBalance(addressAt: string -> string, probe: string -> Scan.AddressInfo, account: string := ACCOUNT)
    returns (report: BalanceReport)
    requires forall b :: b in Scan.BranchesOf(addressAt, probe, account, [0, 1]) ==> b.Closes(20, 10)
    ensures exists records: seq<Scan.Record> :: (
      && Reports(report, records)
      && Scan.ScannedFrom(records, Scan.BranchesOf(addressAt, probe, account, [0, 1]), 20, 10)
      && Scan.FindsUsed(records, addressAt, probe, account, [0, 1], 20, 10))
  {
    var records := Scan.ScanAccount(addressAt, probe, account);
    report := Summarise(records);
    ReportMeaning(records);
  }

  /** Totals in satoshis of all the records, their number, and their addresses in order. */
  predicate Reports(report: BalanceReport, records: seq<Scan.Record>) {
    && report.symbol == "BTC" && report.decimals == 8
    && report.confirmed == Scan.Confirmed(records) && report.pending == Scan.Pending(records)
    && report.note == "(" + Decimal(|records|) + " used addresses)"
    && |report.addresses| == |records|
    && forall i :: 0 <= i < |records| ==> report.addresses[i] == records[i].address
  }

  lemma ReportMeaning(records: seq<Scan.Record>)
    ensures Reports(ReportOf(records), records)
  {
  }

  method Summarise(records: seq<Scan.Record>) returns (report: BalanceReport)
    ensures report == ReportOf(records)
  {
    var confirmed, pending := 0, 0;
    var addresses: seq<string> := [];
    for k := 0 to |records|
      invariant confirmed == Scan.Confirmed(records[..k]) && pending == Scan.Pending(records[..k])
      invariant addresses == AddressesOf(records[..k])
    {
      assert records[..k + 1][..k] == records[..k];
      confirmed, pending := confirmed + records[k].info.confirmed, pending + records[k].info.pending;
      addresses := addresses + [records[k].address];
    }
    assert records[..|records|] == records;
    report := BalanceReport("BTC", confirmed, 8, pending, "(" + Decimal(|records|) + " used addresses)", addresses);
  }

  /** Two branches with their stopping windows; the records are those of the one, then those of the other. */
  lemma {:induction false} CollectedFromTwo(receive: Scan.Branch, change: Scan.Branch, windows: seq<nat>, window: nat)
    requires |windows| == 2
    ensures Scan.Collected([receive, change], windows, window)
      == receive.Records(windows[0] * window) + change.Records(windows[1] * window)
  {
    var branches := [receive, change];
    assert branches[..1] == [receive] && [receive][..0] == [];
    assert Scan.Collected([receive], windows[..1], window) == receive.Records(windows[0] * window);
  }

  /**
   When unused addresses hold nothing and no used one hides behind a gap of 20, the reported confirmed total
   is everything the two branches hold, however far one adds up; and where the branches fall quiet, at most
   29 addresses further suffice.
   */
  lemma BalanceIsComplete(receive: Scan.Branch, change: Scan.Branch, records: seq<Scan.Record>)
    returns (bound: nat)
    requires Scan.ScannedFrom(records, [receive, change], 20, 10)
    requires Scan.UnusedHoldNothing(receive) && receive.NoneBehindGap(20)
    requires Scan.UnusedHoldNothing(change) && change.NoneBehindGap(20)
    ensures forall far: nat :: bound <= far ==>
      ReportOf(records).confirmed == Scan.HeldBelow(receive, far) + Scan.HeldBelow(change, far)
    ensures forall quiet: nat :: receive.QuietFrom(quiet) && change.QuietFrom(quiet) ==> bound < quiet + 30
  {
    var branches := [receive, change];
    var windows: seq<nat> :|
      Scan.AllStop(branches, 20, 10, windows) && records == Scan.Collected(branches, windows, 10);
    var k, l := windows[0], windows[1];
    assert branches[0].StopsAfter(20, 10, k) && branches[1].StopsAfter(20, 10, l);
    CollectedFromTwo(receive, change, windows, 10);
    Scan.ConfirmedConcat(receive.Records(k * 10), change.Records(l * 10));
    bound := if k >= l then k * 10 else l * 10;
    forall far: nat | bound <= far
      ensures ReportOf(records).confirmed == Scan.HeldBelow(receive, far) + Scan.HeldBelow(change, far)
    {
      Scan.NothingHeldBeyond(receive, 20, 10, k, far);
      Scan.NothingHeldBeyond(change, 20, 10, l, far);
    }
    forall quiet: nat | receive.QuietFrom(quiet) && change.QuietFrom(quiet) ensures bound < quiet + 30 {
      Scan.ProbesBounded(receive, quiet, 20, 10, k);
      Scan.ProbesBounded(change, quiet, 20, 10, l);
    }
  }
}
