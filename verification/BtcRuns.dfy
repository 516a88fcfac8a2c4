/** What any run of the program can make the Bitcoin network see: prepare_swap, the gate, and execute_swap together. */
module BtcRuns {
  import opened Wrappers
  import opened Verify
  import opened Btc
  import Coins
  import Swap
  import Utf8

  /** The Bitcoin adapter as the orchestrator sees it. */
  function AdapterOf(s: Setup): Swap.Adapter<Draft, RawTx> {
    Swap.Adapter("BTC",
      (quote: Swap.Quote, request: Swap.SwapRequest, now: int) => BuildAndVerify(s, quote, request, now),
      (d: Draft) => SignDraft(d, s.unlocks, s.verifies),
      s.post)
  }

  /** The transaction does what the quote asks and nothing else. */
  ghost predicate SafePayment(s: Setup, quote: Swap.Quote, request: Swap.SwapRequest, now: int, raw: RawTx) {
    Extract(raw.outputs).Success? && quote.memo.Some? &&
    var outputs := Extract(raw.outputs).value;
    var memo := quote.memo.value;
    && now < quote.expiry
    && PaidExactly(outputs, quote.inboundAddress, request.amount)
    && CarriesExactly(outputs, memo)
    && RestIsOwned(outputs, quote.inboundAddress, s.Owned())
    && MemoPays(request.destination, memo)
    && 0 <= InputTotal(raw.inputs) - Total(outputs) <= s.maxFee
  }

  /** It spends the wallet's own coins only, each at most once, and every input is signed with a key of its own. */
  ghost predicate OwnInputs(s: Setup, raw: RawTx) {
    exists chosen: seq<Coins.Utxo> :: (
      && Coins.SubsetOf(chosen, s.utxos)
      && SpendsCoins(raw.inputs, chosen, "m/84'/0'/0'/0/0")
      && (forall i :: 0 <= i < |raw.inputs| ==> Unlocked(KeysOf(raw.inputs), raw.inputs[i], s.unlocks)))
  }

  /** Nothing is in it but coins of the wallet, the payment, the memo's script, the change, and a fee at the rate. */
  ghost predicate BuiltFrom(s: Setup, to: string, amount: int, memo: Option<string>, raw: RawTx) {
    exists chosen: Coins.Selection :: Consists(raw, s.addressAt, s.utxos,
      Order(to, amount, memo, s.feeRate, Some(s.changeAddress), s.sweep, "m/84'/0'/0'/0/0"), chosen)
  }

  /** What the wallet parts with: everything it spends minus everything that comes back. */
  function NetCost(s: Setup, raw: RawTx): int
    requires Extract(raw.outputs).Success?
  {
    InputTotal(raw.inputs) - Total(Filter(OwnedBy(s.Owned()), Extract(raw.outputs).value))
  }

  lemma NeutralDataHasNoAddress(vault: string, amount: int, memo: Option<string>, change: int,
                                back: string)
    ensures DataHasNoAddress(NeutralOutputs(vault, amount, memo, change, back))
  {
  }

  /** The attempt built this transaction, the gate had no objection, and the signer accepted it. */
  predicate GatedAndSigned(s: Setup, quote: Swap.Quote, request: Swap.SwapRequest, now: int, raw: RawTx) {
    var p := BuildAndVerify(s, quote, request, now);
    && p.Success? && p.value.problems == []
    && SignDraft(p.value.built, s.unlocks, s.verifies) == Success([raw])
  }

  /** The signed transaction is the built one, extracts to what the gate saw, and conserves value. */
  lemma SignedIsBuilt(s: Setup, quote: Swap.Quote, request: Swap.SwapRequest, now: int, raw: RawTx)
    returns (d: Draft)
    requires GatedAndSigned(s, quote, request, now, raw)
    ensures d == BuildAndVerify(s, quote, request, now).value.built
    ensures raw == RawTx(d.inputs, d.rawOutputs) && Extract(raw.outputs) == Success(d.outputs)
    ensures InputTotal(raw.inputs) == Total(d.outputs) + d.fee
    ensures BtcSwapProblems(d.outputs, d.fee, PlanFor(quote, request), s.Owned(), now, s.maxFee) == []
  {
    d := BuildAndVerify(s, quote, request, now).value.built;
    BuilderConserves(s.addressAt, s.utxos, s.OrderFor(quote, request));
  }

  lemma SignedPays(s: Setup, quote: Swap.Quote, request: Swap.SwapRequest, now: int, raw: RawTx)
    requires GatedAndSigned(s, quote, request, now, raw) && quote.memo.Some?
    ensures SafePayment(s, quote, request, now, raw)
  {
    var d := SignedIsBuilt(s, quote, request, now, raw);
    BtcSwapGate(d.outputs, d.fee, PlanFor(quote, request), s.Owned(), now, s.maxFee);
  }

  lemma SignedConsists(s: Setup, quote: Swap.Quote, request: Swap.SwapRequest, now: int, raw: RawTx)
    requires GatedAndSigned(s, quote, request, now, raw) && quote.memo.Some?
    ensures BuiltFrom(s, quote.inboundAddress, request.amount, quote.memo, raw)
  {
    var o := s.OrderFor(quote, request);
    DraftConsists(s.addressAt, s.utxos, o);
    assert o == Order(quote.inboundAddress, request.amount, quote.memo, s.feeRate, Some(s.changeAddress), s.sweep,
                      "m/84'/0'/0'/0/0");
  }

  lemma SignedSpendsOwn(s: Setup, quote: Swap.Quote, request: Swap.SwapRequest, now: int, raw: RawTx)
    requires GatedAndSigned(s, quote, request, now, raw)
    ensures OwnInputs(s, raw)
  {
    var o := s.OrderFor(quote, request);
    BuilderConserves(s.addressAt, s.utxos, o);
    var chosen := ChooseCoins(s.utxos, o).value.utxos;
    assert SpendsCoins(raw.inputs, chosen, DEFAULT_DERIVATION);
  }

  /** With a vault that is not ours, the wallet parts with exactly the amount and the fee. */
  lemma SignedCosts(s: Setup, quote: Swap.Quote, request: Swap.SwapRequest, now: int, raw: RawTx)
    requires GatedAndSigned(s, quote, request, now, raw)
    requires quote.inboundAddress !in s.Owned()
    ensures Extract(raw.outputs).Success?
    ensures NetCost(s, raw) == request.amount + BuildAndVerify(s, quote, request, now).value.built.fee
  {
    var d := SignedIsBuilt(s, quote, request, now, raw);
    var o := s.OrderFor(quote, request);
    BuilderConserves(s.addressAt, s.utxos, o);
    var change := ChooseCoins(s.utxos, o).value.change;
    NeutralDataHasNoAddress(o.vault, o.amount, o.memo, change, d.changeAddress);
    var i := AcceptedSwapConserves(d.outputs, d.fee, PlanFor(quote, request), s.Owned(), now, s.maxFee);
    NeutralDataIsFree(o.vault, o.amount, o.memo, change, d.changeAddress, i);
  }

  lemma NeutralDataIsFree(vault: string, amount: int, memo: Option<string>, change: int,
                          back: string, i: nat)
    requires i < |NeutralOutputs(vault, amount, memo, change, back)|
    requires NeutralOutputs(vault, amount, memo, change, back)[i].opReturnData.Some?
    ensures NeutralOutputs(vault, amount, memo, change, back)[i].value == 0
  {
  }

  /**
   End-to-end safety. Over any number of attempts, each with its own wallet, quotes and network: whatever is
   posted was sanctioned by one attempt. There the chain was tradable, the quote was for that very request,
   the amount met the minimum, the memo was there, the user confirmed; and the transaction pays the quoted
   vault exactly the amount, carries exactly the memo, returns the rest to the wallet, spends only the
   wallet's coins and costs at most the amount and the fee limit.
   */
  lemma {:induction false} PostedIsSafe(run: seq<Swap.Attempt<Draft, RawTx>>, setups: seq<Setup>, raw: RawTx)
    returns (k: nat, quote: Swap.Quote)
    requires |setups| == |run| && forall i :: 0 <= i < |run| ==> run[i].adapter == AdapterOf(setups[i])
    requires Swap.Posted(raw) in Swap.RunEvents(run)
    ensures k < |run| && run[k].confirm
    ensures Swap.Cleared(run[k].thor, "BTC", run[k].request, run[k].options, quote)
    ensures SafePayment(setups[k], quote, run[k].request, run[k].now, raw) && OwnInputs(setups[k], raw)
    ensures BuiltFrom(setups[k], quote.inboundAddress, run[k].request.amount, quote.memo, raw)
    ensures setups[k].verifies(raw)
    ensures quote.inboundAddress !in setups[k].Owned() ==>
      run[k].request.amount <= NetCost(setups[k], raw) <= run[k].request.amount + setups[k].maxFee
  {
    k, quote := Swap.PostedWasSanctioned(run, raw);
    var s, request, now := setups[k], run[k].request, run[k].now;
    assert GatedAndSigned(s, quote, request, now, raw);
    SignedPays(s, quote, request, now, raw);
    SignedSpendsOwn(s, quote, request, now, raw);
    SignedConsists(s, quote, request, now, raw);
    var d := SignedIsBuilt(s, quote, request, now, raw);
    BtcSwapGate(d.outputs, d.fee, PlanFor(quote, request), s.Owned(), now, s.maxFee);
    if quote.inboundAddress !in s.Owned() {
      SignedCosts(s, quote, request, now, raw);
    }
  }

  // --- what should be posted is posted ---

  /** The signer works: each coin's own key unlocks its input, and what is fully signed over own coins verifies. */
  ghost predicate WalletSigns(s: Setup) {
    && (forall u: Coins.Utxo, input: TxInput :: u in s.utxos && Spends(input, u, DEFAULT_DERIVATION) ==>
          s.unlocks(Key(if u.path.Some? && u.path.value != "" then u.path.value else DEFAULT_DERIVATION), input))
    && (forall raw: RawTx :: OwnInputs(s, raw) ==> s.verifies(raw))
  }

  /** A key signs only the inputs that carry it. */
  ghost predicate MatchesKeys(s: Setup) {
    forall key: Key, input: TxInput :: s.unlocks(key, input) <==> key == input.key
  }

  /** With such a signer every transaction over the wallet's own coins is fully signed, so only verification counts. */
  lemma MatchingKeysSign(s: Setup)
    requires MatchesKeys(s)
    ensures WalletSigns(s) <==> forall raw: RawTx, chosen: seq<Coins.Utxo> ::
      Coins.SubsetOf(chosen, s.utxos) && SpendsCoins(raw.inputs, chosen, DEFAULT_DERIVATION) ==> s.verifies(raw)
  {
    forall raw: RawTx, chosen: seq<Coins.Utxo> |
      Coins.SubsetOf(chosen, s.utxos) && SpendsCoins(raw.inputs, chosen, DEFAULT_DERIVATION)
      ensures OwnInputs(s, raw)
    {
      forall i | 0 <= i < |raw.inputs| ensures Unlocked(KeysOf(raw.inputs), raw.inputs[i], s.unlocks) {
        assert s.unlocks(KeysOf(raw.inputs)[i], raw.inputs[i]);
      }
    }
  }

  /** The coins afford the swap, its fee and memo are within their limits, and the quote is good for the request. */
  ghost predicate Deliverable(s: Setup, quote: Swap.Quote, request: Swap.SwapRequest, now: int) {
    var memo := if quote.memo.Some? then quote.memo.value else "";
    var o := Order(quote.inboundAddress, request.amount, Some(memo), s.feeRate, Some(s.changeAddress), s.sweep);
    var chosen := ChooseCoins(s.utxos, o);
    && |Utf8.Encode(memo)| <= 80
    && (if s.sweep then request.amount <= Coins.Sum(s.utxos) else Affordable(s.utxos, o))
    && chosen.Success? && chosen.value.fee <= s.maxFee
    && (chosen.value.change > 0 ==> s.changeAddress != quote.inboundAddress)
    && now < quote.expiry && MemoPays(request.destination, memo)
  }

  /** A wallet with a change address, a sane fee rate and a working signer. */
  ghost predicate Ready(s: Setup) {
    s.changeAddress != "" && s.feeRate >= 0.0 && WalletSigns(s)
  }

  lemma DraftIsSigned(s: Setup, o: Order) returns (raw: RawTx)
    requires WalletSigns(s) && o.defaultPath == DEFAULT_DERIVATION
    requires BuildDraft(s.addressAt, s.utxos, o).Success?
    ensures SignDraft(BuildDraft(s.addressAt, s.utxos, o).value, s.unlocks, s.verifies) == Success([raw])
  {
    var d := BuildDraft(s.addressAt, s.utxos, o).value;
    raw := RawTx(d.inputs, d.rawOutputs);
    BuilderConserves(s.addressAt, s.utxos, o);
    SignsAcrossPaths(s.addressAt, s.utxos, o, s.unlocks, s.verifies);
    assert OwnInputs(s, raw) by {
      var chosen := ChooseCoins(s.utxos, o).value.utxos;
      assert Coins.SubsetOf(chosen, s.utxos) && SpendsCoins(raw.inputs, chosen, DEFAULT_DERIVATION);
    }
  }

  /** The adapter builds, passes and signs a swap exactly when it is deliverable. */
  lemma SafeIffDeliverable(s: Setup, quote: Swap.Quote, request: Swap.SwapRequest, now: int)
    requires s.changeAddress != "" && s.feeRate >= 0.0
    ensures Deliverable(s, quote, request, now) <==>
      BuildAndVerify(s, quote, request, now).Success? && BuildAndVerify(s, quote, request, now).value.problems == []
  {
    var o := s.OrderFor(quote, request);
    BuildsIff(s.addressAt, s.utxos, o);
    if BuildDraft(s.addressAt, s.utxos, o).Success? {
      AdapterVerdict(s, quote, request, now);
    }
  }

  /** In a run, a confirmed and cleared swap that is deliverable is posted, and what is posted is the safe payment. */
  lemma {:induction false} DeliverableIsPosted(run: seq<Swap.Attempt<Draft, RawTx>>, setups: seq<Setup>, k: nat,
                                               quote: Swap.Quote)
    returns (raw: RawTx)
    requires k < |setups| == |run| && run[k].adapter == AdapterOf(setups[k]) && Ready(setups[k])
    requires run[k].confirm && Swap.Cleared(run[k].thor, "BTC", run[k].request, run[k].options, quote)
    requires Deliverable(setups[k], quote, run[k].request, run[k].now)
    ensures Swap.Posted(raw) in Swap.RunEvents(run)
    ensures SafePayment(setups[k], quote, run[k].request, run[k].now, raw) && OwnInputs(setups[k], raw)
    ensures BuiltFrom(setups[k], quote.inboundAddress, run[k].request.amount, quote.memo, raw)
  {
    var s, request, now := setups[k], run[k].request, run[k].now;
    SafeIffDeliverable(s, quote, request, now);
    raw := DraftIsSigned(s, s.OrderFor(quote, request));
    SignedPays(s, quote, request, now, raw);
    SignedSpendsOwn(s, quote, request, now, raw);
    SignedConsists(s, quote, request, now, raw);
    assert [raw][0] == raw;
    Swap.SanctionedIsPosted(run, k, quote, [raw], 0);
  }

  /** The attempt was confirmed, and its swap cleared and deliverable. */
  ghost predicate Delivers(a: Swap.Attempt<Draft, RawTx>, s: Setup) {
    a.confirm && exists quote: Swap.Quote :: (
      Swap.Cleared(a.thor, "BTC", a.request, a.options, quote) && Deliverable(s, quote, a.request, a.now))
  }

  /** With working wallets, a run posts something if and only if one of its attempts delivers. */
  lemma {:induction false} RunPostsIff(run: seq<Swap.Attempt<Draft, RawTx>>, setups: seq<Setup>)
    requires |setups| == |run|
    requires forall i :: 0 <= i < |run| ==> run[i].adapter == AdapterOf(setups[i]) && Ready(setups[i])
    ensures (exists raw: RawTx :: Swap.Posted(raw) in Swap.RunEvents(run))
      <==> exists k :: 0 <= k < |run| && Delivers(run[k], setups[k])
  {
    if raw: RawTx :| Swap.Posted(raw) in Swap.RunEvents(run) {
      var k, quote := Swap.PostedWasSanctioned(run, raw);
      SafeIffDeliverable(setups[k], quote, run[k].request, run[k].now);
      assert Delivers(run[k], setups[k]);
    }
    if k :| 0 <= k < |run| && Delivers(run[k], setups[k]) {
      var a := run[k];
      var quote: Swap.Quote :| Swap.Cleared(a.thor, "BTC", a.request, a.options, quote)
                               && Deliverable(setups[k], quote, a.request, a.now);
      var raw := DeliverableIsPosted(run, setups, k, quote);
    }
  }

  // --- plain sends ---

  /** Exactly one output pays the recipient the exact amount, nothing is written to the chain, the rest returns. */
  ghost predicate SafeSend(s: Setup, recipient: string, amount: int, raw: RawTx) {
    Extract(raw.outputs).Success? &&
    var outputs := Extract(raw.outputs).value;
    && PaidExactly(outputs, recipient, amount)
    && (forall k :: 0 <= k < |outputs| ==> outputs[k].opReturnData.None?)
    && RestIsOwned(outputs, recipient, s.Owned())
    && 0 <= InputTotal(raw.inputs) - Total(outputs) <= s.maxFee
  }

  /** Whatever a send posts pays the recipient exactly, and a foreign recipient costs at most amount and fee limit. */
  lemma PostedSendIsSafe(s: Setup, recipient: string, amount: int, confirm: bool, raw: RawTx)
    requires SendAndVerify(s, recipient, amount).Success?
    requires Swap.Posted(raw) in Swap.Execution(SendAndVerify(s, recipient, amount).value, AdapterOf(s), confirm).1
    ensures confirm && SafeSend(s, recipient, amount, raw) && BuiltFrom(s, recipient, amount, None, raw)
    ensures OwnInputs(s, raw) && s.verifies(raw)
    ensures recipient !in s.Owned() ==> amount <= NetCost(s, raw) <= amount + s.maxFee
  {
    var p := SendAndVerify(s, recipient, amount).value;
    var d := p.built;
    Swap.ExecutionShape(p, AdapterOf(s), confirm);
    assert SignDraft(d, s.unlocks, s.verifies) == Success([RawTx(d.inputs, d.rawOutputs)]);
    assert raw == RawTx(d.inputs, d.rawOutputs);
    DraftConsists(s.addressAt, s.utxos, s.SendOrder(recipient, amount));
    BuilderConserves(s.addressAt, s.utxos, s.SendOrder(recipient, amount));
    BtcSendGate(d.outputs, d.fee, SendPlan(recipient, amount), s.Owned(), s.maxFee);
    if recipient !in s.Owned() {
      OutputsPartition(d.outputs, recipient, s.Owned());
      PaidTotal(d.outputs, recipient, amount);
      FilterNone(CarriesData(), d.outputs);
    }
  }

  /** The converse: a built send that is confirmed is posted unless the fee limit or its change address forbids it. */
  lemma SendPostsIff(s: Setup, recipient: string, amount: int, confirm: bool)
    requires Ready(s) && SendAndVerify(s, recipient, amount).Success?
    ensures var p := SendAndVerify(s, recipient, amount).value;
      var change := ChooseCoins(s.utxos, s.SendOrder(recipient, amount)).value.change;
      (exists raw: RawTx :: Swap.Posted(raw) in Swap.Execution(p, AdapterOf(s), confirm).1)
        <==> confirm && p.built.fee <= s.maxFee && (change > 0 ==> s.changeAddress != recipient)
  {
    var p := SendAndVerify(s, recipient, amount).value;
    var o := s.SendOrder(recipient, amount);
    BuilderConserves(s.addressAt, s.utxos, o);
    BuildThenSendGate(s.addressAt, s.utxos, o, SendPlan(recipient, amount), s.Owned(), s.maxFee);
    assert s.changeAddress in s.Owned();
    var raw := DraftIsSigned(s, o);
    OnePayment(s, p, raw, confirm);
  }

  lemma OnePayment(s: Setup, p: Swap.Prepared<Draft>, raw: RawTx, confirm: bool)
    requires SignDraft(p.built, s.unlocks, s.verifies) == Success([raw])
    ensures Swap.Execution(p, AdapterOf(s), confirm).1 ==
      if p.problems == [] && confirm then [Swap.Signed(p, [raw]), Swap.Posted(raw)] else []
  {
    assert [raw][1..] == [];
    Swap.PostsArePrefix([raw], s.post, "");
    Swap.PostedInTurn([raw], s.post, "", 0);
    assert Swap.PostAll([raw], s.post, "").1 == [raw];
  }
}
