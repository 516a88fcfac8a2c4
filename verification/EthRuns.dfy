/** What any run of the program can make the Ethereum network see, for native and token deposits. */
module EthRuns {
  import opened Wrappers
  import opened Text
  import opened Verify
  import opened Eth
  import Coins
  import Radix
  import Swap

  datatype Built = Native(tx: EthTx) | Token(swap: TokenSwap)

  /** The transactions to sign, in broadcast order. */
  function TxsOf(b: Built): seq<EthTx> {
    match b
    case Native(tx) => [tx]
    case Token(t) => [t.approveTx, t.depositTx]
  }

  /** Every transaction of the deposit can be signed. */
  predicate Signs(s: Setup, b: Built) {
    forall tx :: tx in TxsOf(b) ==> s.signs(tx)
  }

  /** sign: all of them, or none. */
  function SignAll(s: Setup, b: Built): Result<seq<EthTx>> {
    if Signs(s, b) then Success(TxsOf(b)) else Failure(SigningRefused)
  }

  /** build_and_verify: an asset with a dash is a token. */
  function BuildAndVerify(s: Setup, quote: Swap.Quote, request: Swap.SwapRequest,
                          now: int): Result<Swap.Prepared<Built>> {
    if AfterDash(request.fromAsset).Some? then
      var t :- BuildToken(s, quote, request);
      Success(Swap.Prepared(Some(quote), Token(t), TokenProblems(s.abi, t, request.destination, now, s.maxFeeWei)))
    else
      var tx :- BuildNative(s, quote.inboundAddress, request.amount, quote.Memo(), s.gas);
      Success(Swap.Prepared(Some(quote), Native(tx), NativeProblems(tx, NativePlan(quote, request), now, s.maxFeeWei)))
  }

  /** build_and_verify with the gates as they run. */
  method BuildAndVerifySwap(s: Setup, quote: Swap.Quote, request: Swap.SwapRequest, now: int)
    returns (r: Result<Swap.Prepared<Built>>)
    ensures r == BuildAndVerify(s, quote, request, now)
  {
    if AfterDash(request.fromAsset).Some? {
      var t :- BuildToken(s, quote, request);
      var problems := VerifyTokenSwap(s.abi, t, request.destination, now, s.maxFeeWei);
      return Success(Swap.Prepared(Some(quote), Token(t), problems));
    }
    var tx :- BuildNative(s, quote.inboundAddress, request.amount, quote.Memo(), s.gas);
    var problems := VerifyEthSwap(tx.to, tx.value, tx.data, tx.chainId, tx.gas, tx.maxFeePerGas,
                                  NativePlan(quote, request), now, s.maxFeeWei);
    return Success(Swap.Prepared(Some(quote), Native(tx), problems));
  }

  /** The Ethereum adapter as the orchestrator sees it; a signed transaction is identified with its content. */
  function AdapterOf(s: Setup): Swap.Adapter<Built, EthTx> {
    Swap.Adapter("ETH",
      (quote: Swap.Quote, request: Swap.SwapRequest, now: int) => BuildAndVerify(s, quote, request, now),
      (b: Built) => SignAll(s, b),
      s.post)
  }

  /** The transaction pays the vault the exact amount in wei, says the quote's memo, and costs at most the limit. */
  predicate SafeNative(s: Setup, quote: Swap.Quote, request: Swap.SwapRequest, now: int, tx: EthTx) {
    && quote.memo.Some? && now < quote.expiry
    && Lower(tx.to) == Lower(quote.inboundAddress) && tx.value == request.amount * 10_000_000_000
    && CalldataSays(tx.data, quote.memo.value) && MemoPays(request.destination, quote.memo.value)
    && tx.chainId == 1 && tx.nonce == s.nonce && tx.gas == s.gas
    && tx.maxFeePerGas == s.maxFeePerGas && tx.maxPriorityFeePerGas == s.maxPriorityFeePerGas
    && tx.gas * tx.maxFeePerGas <= s.maxFeeWei
  }

  /** The pair is for the quote's router, vault, memo and expiry, and for the request's token and amount. */
  predicate ForQuote(s: Setup, quote: Swap.Quote, request: Swap.SwapRequest, t: TokenSwap) {
    var contract := AfterDash(request.fromAsset);
    && quote.memo.Some? && t.memo == quote.memo.value && t.expiry == quote.expiry
    && contract.Some? && SameAddress(t.token, contract.value)
    && t.nativeAmount == request.amount * Radix.Pow(10, s.decimalsOf(contract.value)) / 100_000_000
    && SameAddress(t.vault, quote.inboundAddress)
    && SameAddress(t.router, if quote.router.Some? then quote.router.value else "")
    && t.approveTx.nonce == s.nonce && t.depositTx.nonce == s.nonce + 1
    && t.approveTx.gas == 70000 && t.depositTx.gas == 200000
    && t.approveTx.maxFeePerGas == s.maxFeePerGas == t.depositTx.maxFeePerGas
    && t.approveTx.maxPriorityFeePerGas == s.maxPriorityFeePerGas == t.depositTx.maxPriorityFeePerGas
  }

  /**
   The transaction is one of a matching pair that deposits the request's amount, rounded down to token units,
   through the quote's router into the quote's vault, with the quote's memo.
   */
  predicate SafeToken(s: Setup, quote: Swap.Quote, request: Swap.SwapRequest, now: int, tx: EthTx) {
    var r := BuildToken(s, quote, request);
    && r.Success? && (tx == r.value.approveTx || tx == r.value.depositTx)
    && TokenMatches(s.abi, r.value, request.destination, now, s.maxFeeWei)
    && ForQuote(s, quote, request, r.value)
    && DecodedDeposit(s.abi, r.value.depositTx.data).value.memo == quote.memo.value
  }

  predicate IsSafe(s: Setup, quote: Swap.Quote, request: Swap.SwapRequest, now: int, tx: EthTx) {
    if AfterDash(request.fromAsset).Some? then SafeToken(s, quote, request, now, tx)
    else SafeNative(s, quote, request, now, tx)
  }

  /**
   End-to-end safety for ether and tokens: over any number of attempts, whatever is posted was sanctioned by
   one of them, and is a safe native deposit or one half of a safe token deposit for its quote.
   */
  lemma {:induction false} PostedIsSafe(run: seq<Swap.Attempt<Built, EthTx>>, setups: seq<Setup>, tx: EthTx)
    returns (k: nat, quote: Swap.Quote)
    requires |setups| == |run| && forall i :: 0 <= i < |run| ==> run[i].adapter == AdapterOf(setups[i])
    requires Swap.Posted(tx) in Swap.RunEvents(run)
    ensures k < |run| && run[k].confirm
    ensures Swap.Cleared(run[k].thor, "ETH", run[k].request, run[k].options, quote)
    ensures IsSafe(setups[k], quote, run[k].request, run[k].now, tx)
  {
    k, quote := Swap.PostedWasSanctioned(run, tx);
    SanctionedIsSafe(setups[k], quote, run[k].request, run[k].now, tx);
  }

  lemma BuiltFields(s: Setup, quote: Swap.Quote, request: Swap.SwapRequest)
    requires BuildToken(s, quote, request).Success?
    ensures var t := BuildToken(s, quote, request).value;
      && AfterDash(request.fromAsset).Some?
      && ToChecksumAddress(quote.inboundAddress, s.keccak) == Success(t.vault)
      && ToChecksumAddress(AfterDash(request.fromAsset).value, s.keccak) == Success(t.token)
      && ToChecksumAddress(RouterOf(quote), s.keccak) == Success(t.router)
      && t.nativeAmount == Coins.FloorToNative(request.amount, s.decimalsOf(AfterDash(request.fromAsset).value))
  {
  }

  lemma BuiltForQuote(s: Setup, quote: Swap.Quote, request: Swap.SwapRequest)
    requires BuildToken(s, quote, request).Success? && quote.memo.Some?
    ensures ForQuote(s, quote, request, BuildToken(s, quote, request).value)
  {
    BuiltFields(s, quote, request);
    BuiltTokenShape(s, quote, request);
    Coins.Pow10InNumbers(0);
    ChecksumSameAddress(quote.inboundAddress, s.keccak);
    ChecksumSameAddress(AfterDash(request.fromAsset).value, s.keccak);
    ChecksumSameAddress(RouterOf(quote), s.keccak);
  }

  lemma SanctionedIsSafe(s: Setup, quote: Swap.Quote, request: Swap.SwapRequest, now: int, tx: EthTx)
    requires BuildAndVerify(s, quote, request, now).Success? && quote.memo.Some?
    requires BuildAndVerify(s, quote, request, now).value.problems == []
    requires tx in TxsOf(BuildAndVerify(s, quote, request, now).value.built)
    ensures IsSafe(s, quote, request, now, tx)
  {
    if AfterDash(request.fromAsset).Some? {
      var t := BuildToken(s, quote, request).value;
      TokenGate(s.abi, t, request.destination, now, s.maxFeeWei);
      BuiltForQuote(s, quote, request);
    } else {
      NativeFields(s, quote.inboundAddress, request.amount, quote.Memo(), s.gas);
      EthSwapGate(tx.to, tx.value, tx.data, tx.chainId, tx.gas, tx.maxFeePerGas, NativePlan(quote, request), now,
                  s.maxFeeWei);
    }
  }

  /** The deposit reaches the network only after the approval was accepted there. */
  lemma DepositOnlyAfterApproval(s: Setup, p: Swap.Prepared<Built>, confirm: bool)
    requires p.built.Token?
    ensures var t := p.built.swap;
      var signed := Swap.Signed(p, [t.approveTx, t.depositTx]);
      var events := Swap.Execution(p, AdapterOf(s), confirm).1;
      || (events == [] && (p.problems != [] || !confirm || !Signs(s, p.built)))
      || (events == [signed, Swap.Posted(t.approveTx)] && s.post(t.approveTx).Failure?)
      || (events == [signed, Swap.Posted(t.approveTx), Swap.Posted(t.depositTx)] && s.post(t.approveTx).Success?)
  {
    var approve, deposit := p.built.swap.approveTx, p.built.swap.depositTx;
    assert [approve, deposit][1..] == [deposit];
    OnePost(deposit, s.post, if s.post(approve).Success? then s.post(approve).value else "");
    assert [approve] + [deposit] == [approve, deposit];
  }

  // --- what should be posted is posted ---

  /** The quote is good for the request, the fees are within the limit, and addresses and codec allow the deposit. */
  predicate Deliverable(s: Setup, quote: Swap.Quote, request: Swap.SwapRequest, now: int) {
    && now < quote.expiry
    && MemoPays(request.destination, if quote.memo.Some? then quote.memo.value else "")
    && if AfterDash(request.fromAsset).Some? then
         && BuildToken(s, quote, request).Success?
         && 270000 * s.maxFeePerGas <= s.maxFeeWei
       else
         && PlainHexAddress(quote.inboundAddress) && |quote.inboundAddress| % 2 == 0
         && s.chainId == 1 && s.gas * s.maxFeePerGas <= s.maxFeeWei
  }

  /** The adapter builds the pair or the deposit, and its gate is silent. */
  ghost predicate Passes(s: Setup, quote: Swap.Quote, request: Swap.SwapRequest, now: int, b: Built) {
    var r := BuildAndVerify(s, quote, request, now);
    && r.Success? && r.value.problems == [] && r.value.built == b
    && (b.Token? <==> AfterDash(request.fromAsset).Some?)
  }

  /** What the adapter builds for this swap can be signed. */
  predicate Signable(s: Setup, quote: Swap.Quote, request: Swap.SwapRequest, now: int) {
    var r := BuildAndVerify(s, quote, request, now);
    r.Success? && Signs(s, r.value.built)
  }

  /** A codec is needed for tokens only. */
  ghost predicate CodecWorks(s: Setup, request: Swap.SwapRequest) {
    AfterDash(request.fromAsset).Some? ==> RoundTrips(s.abi)
  }

  lemma NativePassesIff(s: Setup, quote: Swap.Quote, request: Swap.SwapRequest, now: int)
    requires AfterDash(request.fromAsset).None?
    ensures Deliverable(s, quote, request, now) <==>
      BuildAndVerify(s, quote, request, now).Success? && BuildAndVerify(s, quote, request, now).value.problems == []
  {
    if PlainHexAddress(quote.inboundAddress) {
      PlainIsChecksummable(quote.inboundAddress, s.keccak);
    }
    if BuildNative(s, quote.inboundAddress, request.amount, quote.Memo(), s.gas).Success? {
      NativeVerdict(s, quote, request, now);
    }
  }

  /** The adapter's build and gate succeed exactly when the swap is deliverable. */
  lemma SafeIffDeliverable(s: Setup, quote: Swap.Quote, request: Swap.SwapRequest, now: int)
    requires CodecWorks(s, request)
    ensures Deliverable(s, quote, request, now) <==>
      BuildAndVerify(s, quote, request, now).Success? && BuildAndVerify(s, quote, request, now).value.problems == []
  {
    if AfterDash(request.fromAsset).None? {
      NativePassesIff(s, quote, request, now);
    } else if BuildToken(s, quote, request).Success? {
      TokenVerdict(s, quote, request, now);
    }
  }

  lemma DeliverablePasses(s: Setup, quote: Swap.Quote, request: Swap.SwapRequest, now: int) returns (b: Built)
    requires CodecWorks(s, request) && Deliverable(s, quote, request, now)
    ensures Passes(s, quote, request, now, b)
  {
    SafeIffDeliverable(s, quote, request, now);
    b := BuildAndVerify(s, quote, request, now).value.built;
  }

  lemma PassingIsSafe(s: Setup, quote: Swap.Quote, request: Swap.SwapRequest, now: int, b: Built)
    requires Passes(s, quote, request, now, b) && quote.memo.Some?
    ensures forall tx :: tx in TxsOf(b) ==> IsSafe(s, quote, request, now, tx)
  {
    forall tx | tx in TxsOf(b) ensures IsSafe(s, quote, request, now, tx) {
      SanctionedIsSafe(s, quote, request, now, tx);
    }
  }

  lemma {:induction false} PassingIsPosted(run: seq<Swap.Attempt<Built, EthTx>>, k: nat, s: Setup, quote: Swap.Quote,
                                           b: Built, i: nat)
    requires k < |run| && run[k].adapter == AdapterOf(s) && run[k].confirm
    requires Swap.Cleared(run[k].thor, "ETH", run[k].request, run[k].options, quote)
    requires Passes(s, quote, run[k].request, run[k].now, b) && Signs(s, b)
    requires i < |TxsOf(b)| && forall j :: 0 <= j < i ==> s.post(TxsOf(b)[j]).Success?
    ensures Swap.Posted(TxsOf(b)[i]) in Swap.RunEvents(run)
  {
    Swap.SanctionedIsPosted(run, k, quote, TxsOf(b), i);
  }

  /**
   In a run, a confirmed and cleared swap that is deliverable and signable reaches the network: the native
   deposit or the approval for certain, the token deposit once the approval was accepted.
   */
  lemma {:induction false} DeliverableIsPosted(run: seq<Swap.Attempt<Built, EthTx>>, k: nat, s: Setup,
                                               quote: Swap.Quote)
    returns (b: Built)
    requires k < |run| && run[k].adapter == AdapterOf(s) && run[k].confirm
    requires Swap.Cleared(run[k].thor, "ETH", run[k].request, run[k].options, quote)
    requires CodecWorks(s, run[k].request) && Deliverable(s, quote, run[k].request, run[k].now)
    requires Signable(s, quote, run[k].request, run[k].now)
    ensures b.Token? <==> AfterDash(run[k].request.fromAsset).Some?
    ensures forall tx :: tx in TxsOf(b) ==> IsSafe(s, quote, run[k].request, run[k].now, tx)
    ensures Swap.Posted(TxsOf(b)[0]) in Swap.RunEvents(run)
    ensures b.Token? && s.post(b.swap.approveTx).Success? ==> Swap.Posted(b.swap.depositTx) in Swap.RunEvents(run)
  {
    var request, now := run[k].request, run[k].now;
    b := DeliverablePasses(s, quote, request, now);
    PassingIsSafe(s, quote, request, now, b);
    PassingIsPosted(run, k, s, quote, b, 0);
    if b.Token? && s.post(b.swap.approveTx).Success? {
      PassingIsPosted(run, k, s, quote, b, 1);
    }
  }

  /** The attempt was confirmed, and its swap cleared, deliverable and signable. */
  ghost predicate Delivers(a: Swap.Attempt<Built, EthTx>, s: Setup) {
    a.confirm && exists quote: Swap.Quote :: (
      && Swap.Cleared(a.thor, "ETH", a.request, a.options, quote)
      && Deliverable(s, quote, a.request, a.now) && Signable(s, quote, a.request, a.now))
  }

  lemma {:induction false} PostedDelivers(run: seq<Swap.Attempt<Built, EthTx>>, setups: seq<Setup>, tx: EthTx)
    returns (k: nat)
    requires |setups| == |run|
    requires forall i :: 0 <= i < |run| ==>
      run[i].adapter == AdapterOf(setups[i]) && CodecWorks(setups[i], run[i].request)
    requires Swap.Posted(tx) in Swap.RunEvents(run)
    ensures k < |run| && Delivers(run[k], setups[k])
  {
    var quote;
    k, quote := Swap.PostedWasSanctioned(run, tx);
    SafeIffDeliverable(setups[k], quote, run[k].request, run[k].now);
  }

  lemma {:induction false} DelivererPosts(run: seq<Swap.Attempt<Built, EthTx>>, k: nat, s: Setup) returns (tx: EthTx)
    requires k < |run| && run[k].adapter == AdapterOf(s) && CodecWorks(s, run[k].request)
    requires Delivers(run[k], s)
    ensures Swap.Posted(tx) in Swap.RunEvents(run)
  {
    var a := run[k];
    var quote: Swap.Quote :| Swap.Cleared(a.thor, "ETH", a.request, a.options, quote)
                             && Deliverable(s, quote, a.request, a.now) && Signable(s, quote, a.request, a.now);
    var b := DeliverableIsPosted(run, k, s, quote);
    tx := TxsOf(b)[0];
  }

  /** With working codecs, a run posts something if and only if one of its attempts delivers. */
  lemma {:induction false} RunPostsIff(run: seq<Swap.Attempt<Built, EthTx>>, setups: seq<Setup>)
    requires |setups| == |run|
    requires forall i :: 0 <= i < |run| ==>
      run[i].adapter == AdapterOf(setups[i]) && CodecWorks(setups[i], run[i].request)
    ensures (exists tx: EthTx :: Swap.Posted(tx) in Swap.RunEvents(run))
      <==> exists k :: 0 <= k < |run| && Delivers(run[k], setups[k])
  {
    if tx: EthTx :| Swap.Posted(tx) in Swap.RunEvents(run) {
      var k := PostedDelivers(run, setups, tx);
    }
    if k :| 0 <= k < |run| && Delivers(run[k], setups[k]) {
      var tx := DelivererPosts(run, k, setups[k]);
    }
  }

  lemma {:induction false} OnePost(tx: EthTx, post: EthTx -> Result<string>, txid: string)
    ensures Swap.PostAll([tx], post, txid).1 == [tx]
  {
    assert [tx][1..] == [];
    if post(tx).Success? {
      assert Swap.PostAll([], post, post(tx).value).1 == [];
    }
  }

  // --- plain sends of ether ---

  /** build_and_verify_send of ether: no memo, no quote, and the gate is told the transaction's own target. */
  function SendAndVerify(s: Setup, recipient: string, amount: int): Result<Swap.Prepared<Built>> {
    var tx :- BuildNative(s, recipient, amount, "", NATIVE_SEND_GAS);
    var plan := EthSendPlan(tx.to, amount * WEI_PER_THORCHAIN_UNIT, s.chainId);
    Success(Swap.Prepared(None, Native(tx), EthSendProblems(tx.to, tx.value, tx.data, tx.chainId, tx.gas,
                                                            tx.maxFeePerGas, plan, s.maxFeeWei)))
  }

  method BuildAndVerifySend(s: Setup, recipient: string, amount: int) returns (r: Result<Swap.Prepared<Built>>)
    ensures r == SendAndVerify(s, recipient, amount)
  {
    var tx :- BuildNative(s, recipient, amount, "", NATIVE_SEND_GAS);
    var plan := EthSendPlan(tx.to, amount * WEI_PER_THORCHAIN_UNIT, s.chainId);
    var problems := VerifyEthSend(tx.to, tx.value, tx.data, tx.chainId, tx.gas, tx.maxFeePerGas, plan, s.maxFeeWei);
    return Success(Swap.Prepared(None, Native(tx), problems));
  }

  /** The recipient's bytes get exactly the amount, with nothing attached, for at most the fee limit. */
  predicate SafeSend(s: Setup, recipient: string, amount: int, tx: EthTx) {
    && SameAddress(tx.to, recipient)
    && tx.value == amount * 10_000_000_000 && tx.data == "0x" && tx.chainId == s.chainId
    && tx.nonce == s.nonce && tx.gas == 21000 && tx.gas * tx.maxFeePerGas <= s.maxFeeWei
    && tx.maxFeePerGas == s.maxFeePerGas && tx.maxPriorityFeePerGas == s.maxPriorityFeePerGas
  }

  /** A send is built for every recipient that reads as hex. */
  lemma SendBuildsIff(s: Setup, recipient: string, amount: int)
    ensures SendAndVerify(s, recipient, amount).Success? <==> FromHex(StripPrefix(recipient)).Success?
  {
    ChecksummableIff(recipient, s.keccak);
  }

  /**
   Whatever a send posts was confirmed and is safe; what was confirmed and can be signed is posted within the
   fee limit.
   */
  lemma SendPostsIff(s: Setup, recipient: string, amount: int, confirm: bool)
    requires SendAndVerify(s, recipient, amount).Success?
    ensures var p := SendAndVerify(s, recipient, amount).value;
      var events := Swap.Execution(p, AdapterOf(s), confirm).1;
      && p.built.Native? && SameAddress(p.built.tx.to, recipient)
      && (forall tx :: Swap.Posted(tx) in events ==> confirm && tx == p.built.tx && SafeSend(s, recipient, amount, tx))
      && (Swap.Posted(p.built.tx) in events <==>
          confirm && 21000 * s.maxFeePerGas <= s.maxFeeWei && s.signs(p.built.tx))
  {
    var p := SendAndVerify(s, recipient, amount).value;
    SendShape(s, recipient, amount);
    NativeExecution(s, p, confirm);
  }

  lemma SendShape(s: Setup, recipient: string, amount: int)
    requires SendAndVerify(s, recipient, amount).Success?
    ensures var p := SendAndVerify(s, recipient, amount).value;
      && p.built.Native? && SameAddress(p.built.tx.to, recipient)
      && (p.problems == [] <==> 21000 * s.maxFeePerGas <= s.maxFeeWei)
      && (p.problems == [] ==> SafeSend(s, recipient, amount, p.built.tx))
  {
    NativeSendVerdict(s, recipient, amount);
    ChecksumSameAddress(recipient, s.keccak);
    assert MemoCalldata("") == "0x";
  }

  lemma NativeExecution(s: Setup, p: Swap.Prepared<Built>, confirm: bool)
    requires p.built.Native?
    ensures Swap.Execution(p, AdapterOf(s), confirm).1 ==
      if p.problems == [] && confirm && Signs(s, p.built) then [Swap.Signed(p, [p.built.tx]), Swap.Posted(p.built.tx)]
      else []
  {
    OnePost(p.built.tx, s.post, "");
  }
}
