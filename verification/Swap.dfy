/**
 Swap orchestration (swap.py): the checks common to every source chain, then build and gate by the chain's
 adapter, then sign and broadcast. Adapters are records of functions; what reaches the signer and the
 network is recorded as events.
 */
module Swap {
  import opened Wrappers
  import Verify

  datatype SwapRequest = SwapRequest(fromAsset: string, toAsset: string, amount: int, destination: string)

  /** The fields of a quote that the pipeline acts on. */
  datatype Quote = Quote(inboundAddress: string, memo: Option<string>, recommendedMinAmountIn: int, expiry: int,
                         router: Option<string>)
  {
    /** `quote.memo or ""`. */
    function Memo(): string {
      if memo.Some? then memo.value else ""
    }
  }

  datatype ChainStatus = ChainStatus(halted: bool, globalTradingPaused: bool, chainTradingPaused: bool) {
    predicate Tradable() {
      !(halted || globalTradingPaused || chainTradingPaused)
    }
  }

  datatype Options = Options(toleranceBps: int := 300, streamingInterval: Option<int> := None,
                             streamingQuantity: Option<int> := None)

  datatype QuoteArgs = QuoteArgs(fromAsset: string, toAsset: string, amount: int, destination: string,
                                 streamingInterval: Option<int>, streamingQuantity: Option<int>,
                                 toleranceBps: Option<int>)

  datatype Thorchain = Thorchain(inbound: map<string, ChainStatus>, quote: QuoteArgs -> Result<Quote>)

  /** A built transaction (or pair of them) with the gate's verdict. */
  datatype Prepared<+B> = Prepared(quote: Option<Quote>, built: B, problems: seq<Verify.Problem>) {
    predicate Safe() {
      problems == []
    }
  }

  datatype SwapResult<+B> = SwapResult(prepared: Prepared<B>, txid: Option<string>, broadcast: bool)

  /** A source chain: B is what it builds, R a signed raw transaction. */
  datatype Adapter<!B, !R> = Adapter(
    chain: string,
    build: (Quote, SwapRequest, int) -> Result<Prepared<B>>,
    sign: B -> Result<seq<R>>,
    post: R -> Result<string>)

  datatype Event<+B, +R> =
    | Signed(prepared: Prepared<B>, raws: seq<R>)  // the adapter signed what was built
    | Posted(raw: R)                               // a raw transaction was handed to the network

  function ArgsFor(request: SwapRequest, options: Options): QuoteArgs {
    QuoteArgs(request.fromAsset, request.toAsset, request.amount, request.destination,
              options.streamingInterval, options.streamingQuantity,
              if options.streamingInterval.Some? then None else Some(options.toleranceBps))
  }

  /** prepare_swap. */
  function PrepareSwap<B, R>(thor: Thorchain, adapter: Adapter<B, R>, request: SwapRequest, now: int, options: Options):
    Result<Prepared<B>>
  {
    if adapter.chain !in thor.inbound || !thor.inbound[adapter.chain].Tradable() then Failure(SwapAborted)
    else match thor.quote(ArgsFor(request, options))
      case Failure(e) => Failure(if e == QuoteRejected then SwapAborted else e)
      case Success(quote) =>
        if request.amount < quote.recommendedMinAmountIn then Failure(SwapAborted)
        else if quote.memo.None? || quote.memo.value == "" then Failure(SwapAborted)
        else adapter.build(quote, request, now)
  }

  /** What must have held before anything was built. */
  predicate Cleared(thor: Thorchain, chain: string, request: SwapRequest, options: Options, quote: Quote) {
    && chain in thor.inbound && !thor.inbound[chain].halted
    && !thor.inbound[chain].globalTradingPaused && !thor.inbound[chain].chainTradingPaused
    && thor.quote(ArgsFor(request, options)) == Success(quote)
    && quote.recommendedMinAmountIn <= request.amount
    && quote.memo.Some? && quote.memo.value != ""
  }

  /**
   A prepared swap was cleared, and is what the adapter built for that very quote and request. The quote was
   asked for the request's own assets, amount and destination, with a tolerance unless the swap is streamed.
   */
  lemma PreparedWasCleared<B, R>(thor: Thorchain, adapter: Adapter<B, R>, request: SwapRequest,
                                 now: int, options: Options)
    returns (quote: Quote, args: QuoteArgs)
    requires PrepareSwap(thor, adapter, request, now, options).Success?
    ensures Cleared(thor, adapter.chain, request, options, quote)
    ensures PrepareSwap(thor, adapter, request, now, options) == adapter.build(quote, request, now)
    ensures thor.quote(args) == Success(quote)
    ensures SwapRequest(args.fromAsset, args.toAsset, args.amount, args.destination) == request
    ensures args.streamingInterval == options.streamingInterval && args.streamingQuantity == options.streamingQuantity
    ensures if options.streamingInterval.Some? then args.toleranceBps == None
      else args.toleranceBps == Some(options.toleranceBps)
  {
    args := ArgsFor(request, options);
    quote := thor.quote(args).value;
  }

  /** The guards refuse nothing else: a cleared swap is always handed to the adapter, any other is a failure. */
  lemma PrepareExactly<B, R>(thor: Thorchain, adapter: Adapter<B, R>, request: SwapRequest, now: int,
                             options: Options, quote: Quote)
    ensures Cleared(thor, adapter.chain, request, options, quote) ==>
      PrepareSwap(thor, adapter, request, now, options) == adapter.build(quote, request, now)
    ensures (thor.quote(ArgsFor(request, options)) == Success(quote)
             && !Cleared(thor, adapter.chain, request, options, quote)) ==>
      PrepareSwap(thor, adapter, request, now, options) == Failure(SwapAborted)
    ensures adapter.chain !in thor.inbound ==>
      PrepareSwap(thor, adapter, request, now, options) == Failure(SwapAborted)
    ensures adapter.chain in thor.inbound ==>
      var status := thor.inbound[adapter.chain];
      status.halted || status.globalTradingPaused || status.chainTradingPaused ==>
        PrepareSwap(thor, adapter, request, now, options) == Failure(SwapAborted)
    ensures forall e :: (adapter.chain in thor.inbound && thor.inbound[adapter.chain].Tradable()
                         && thor.quote(ArgsFor(request, options)) == Failure(e)) ==>
      PrepareSwap(thor, adapter, request, now, options) == Failure(if e == QuoteRejected then SwapAborted else e)
  {
  }

  /** adapter.broadcast: post in order, stop at the first refusal, return the last txid. */
  function PostAll<R>(raws: seq<R>, post: R -> Result<string>, txid: string): (Result<string>, seq<R>) {
    if raws == [] then (Success(txid), [])
    else match post(raws[0])
      case Failure(e) => (Failure(e), [raws[0]])
      case Success(id) =>
        var (r, more) := PostAll(raws[1..], post, id);
        (r, [raws[0]] + more)
  }

  function PostedEvents<B, R>(raws: seq<R>): seq<Event<B, R>> {
    seq(|raws|, i requires 0 <= i < |raws| => Posted(raws[i]))
  }

  /** execute_swap: the outcome and the events, in order. */
  function Execution<B, R>(prepared: Prepared<B>, adapter: Adapter<B, R>, confirm: bool):
    (Result<SwapResult<B>>, seq<Event<B, R>>)
  {
    if !prepared.Safe() then (Failure(SwapAborted), [])
    else if !confirm then (Success(SwapResult(prepared, None, false)), [])
    else match adapter.sign(prepared.built)
      case Failure(e) => (Failure(e), [])
      case Success(raws) =>
        var (r, posted) := PostAll(raws, adapter.post, "");
        var events := [Signed(prepared, raws)] + PostedEvents<B, R>(posted);
        match r
        case Failure(e) => (Failure(e), events)
        case Success(txid) => (Success(SwapResult(prepared, Some(txid), true)), events)
  }

  /** Posts are a prefix of the signed transactions; all of them, and only then a success, if none is refused. */
  lemma {:induction false} PostsArePrefix<R>(raws: seq<R>, post: R -> Result<string>, txid: string)
    ensures var (r, posted) := PostAll(raws, post, txid);
      && posted <= raws
      && (forall i :: 0 <= i < |posted| - 1 ==> post(posted[i]).Success?)
      && match r
         case Success(id) => posted == raws && (forall i :: 0 <= i < |raws| ==> post(raws[i]).Success?)
           && id == (if raws == [] then txid else post(raws[|raws| - 1]).value)
         case Failure(e) => posted != [] && post(posted[|posted| - 1]) == Failure(e)
  {
    if raws != [] && post(raws[0]).Success? {
      PostsArePrefix(raws[1..], post, post(raws[0]).value);
      assert raws == [raws[0]] + raws[1..];
    }
  }

  /**
   The whole behaviour of execute_swap: an unsafe swap is aborted, an unconfirmed one is a dry run, and neither
   touches the signer or the network. Otherwise, unless signing is refused, there is one signing event and
   then posts that are a prefix of the signed transactions; the result is a success, with the last txid,
   exactly when all of them were accepted.
   */
  lemma ExecutionShape<B, R>(prepared: Prepared<B>, adapter: Adapter<B, R>, confirm: bool)
    ensures var (r, events) := Execution(prepared, adapter, confirm);
      && (prepared.problems != [] ==> r == Failure(SwapAborted) && events == [])
      && (prepared.problems == [] && !confirm ==> r == Success(SwapResult(prepared, None, false)) && events == [])
      && (prepared.problems == [] && confirm ==>
        match adapter.sign(prepared.built)
        case Failure(e) => r == Failure(e) && events == []
        case Success(raws) =>
          && (r.Success? <==> forall i :: 0 <= i < |raws| ==> adapter.post(raws[i]).Success?)
          && (r.Success? ==> r == Success(SwapResult(prepared, Some(LastTxid(raws, adapter.post)), true)))
          && exists n: nat :: (n <= |raws| && events == [Signed(prepared, raws)] + PostedEvents(raws[..n])
                               && (r.Success? ==> n == |raws|)))
  {
    if prepared.Safe() && confirm && adapter.sign(prepared.built).Success? {
      var raws := adapter.sign(prepared.built).value;
      PostsArePrefix(raws, adapter.post, "");
      var (r, posted) := PostAll(raws, adapter.post, "");
      assert raws[..|posted|] == posted;
      assert Execution(prepared, adapter, confirm).1
        == [Signed(prepared, raws)] + PostedEvents(raws[..|posted|]);
      if r.Failure? {
        assert raws[|posted| - 1] == posted[|posted| - 1];
      }
    }
  }

  /** The network's answer to the last of the transactions it accepted; empty if there are none. */
  function LastTxid<R>(raws: seq<R>, post: R -> Result<string>): string {
    if raws == [] then "" else
      var last := post(raws[|raws| - 1]);
      if last.Success? then last.value else ""
  }

  // --- a session: many swaps over one log ---

  /** Every post is of a transaction signed earlier, and only gate-passed swaps were ever signed. */
  ghost predicate Justified<B(!new), R(!new)>(events: seq<Event<B, R>>) {
    && (forall i :: 0 <= i < |events| && events[i].Signed? ==> events[i].prepared.problems == [])
    && (forall i :: 0 <= i < |events| && events[i].Posted? ==>
          exists j :: 0 <= j < i && events[j].Signed? && events[i].raw in events[j].raws)
  }

  lemma JustifiedStep<B(!new), R(!new)>(events: seq<Event<B, R>>, prepared: Prepared<B>,
                                        adapter: Adapter<B, R>, confirm: bool)
    requires Justified(events)
    ensures Justified(events + Execution(prepared, adapter, confirm).1)
  {
    var more := Execution(prepared, adapter, confirm).1;
    var all := events + more;
    ExecutionShape(prepared, adapter, confirm);
    if more != [] {
      var raws := adapter.sign(prepared.built).value;
      assert all[|events|] == Signed(prepared, raws);
      forall i | 0 <= i < |all| && all[i].Posted?
        ensures exists j :: 0 <= j < i && all[j].Signed? && all[i].raw in all[j].raws
      {
        if i < |events| {
          var j :| 0 <= j < i && events[j].Signed? && events[i].raw in events[j].raws;
          assert all[j] == events[j];
        } else {
          var n: nat :| n <= |raws| && more == [Signed(prepared, raws)] + PostedEvents(raws[..n]);
          assert all[i].raw == raws[i - |events| - 1];
        }
      }
    } else {
      assert all == events;
    }
  }

  /** The log of what a process signed and posted. */
  class Journal<B(!new), R(!new)> {
    var events: seq<Event<B, R>>

    constructor ()
      ensures events == [] && Justified(events)
    {
      events := [];
    }

    /** The adapter's broadcast loop. */
    method Broadcast(raws: seq<R>, post: R -> Result<string>) returns (r: Result<string>)
      modifies this
      ensures r == PostAll(raws, post, "").0
      ensures events == old(events) + PostedEvents(PostAll(raws, post, "").1)
    {
      var txid := "";
      for k := 0 to |raws|
        invariant events == old(events) + PostedEvents(raws[..k])
        invariant PostAll(raws, post, "").0 == PostAll(raws[k..], post, txid).0
        invariant PostAll(raws, post, "").1 == raws[..k] + PostAll(raws[k..], post, txid).1
      {
        events := events + [Posted(raws[k])];
        assert raws[k..][1..] == raws[k + 1..] && raws[..k + 1] == raws[..k] + [raws[k]];
        match post(raws[k]) {
          case Failure(e) =>
            assert PostAll(raws, post, "").1 == raws[..k + 1];
            return Failure(e);
          case Success(id) =>
            txid := id;
        }
      }
      assert raws[..|raws|] == raws;
      return Success(txid);
    }

    /** execute_swap. */
    method ExecuteSwap(prepared: Prepared<B>, adapter: Adapter<B, R>, confirm: bool) returns (r: Result<SwapResult<B>>)
      modifies this
      ensures r == Execution(prepared, adapter, confirm).0
      ensures events == old(events) + Execution(prepared, adapter, confirm).1
      ensures old(Justified(events)) ==> Justified(events)
    {
      if Justified(events) {
        JustifiedStep(events, prepared, adapter, confirm);
      }
      if !prepared.Safe() {
        return Failure(SwapAborted);
      }
      if !confirm {
        return Success(SwapResult(prepared, None, false));
      }
      var raws :- adapter.sign(prepared.built);
      events := events + [Signed(prepared, raws)];
      var txid := Broadcast(raws, adapter.post);
      match txid {
        case Failure(e) => return Failure(e);
        case Success(id) => return Success(SwapResult(prepared, Some(id), true));
      }
    }

    /** Prepare a swap and execute it, as one invocation of the program does. */
    method RunAttempt(a: Attempt<B, R>) returns (r: Result<SwapResult<B>>)
      modifies this
      ensures events == old(events) + a.Events()
      ensures match a.Prepare()
        case Failure(e) => r == Failure(e)
        case Success(p) => r == Execution(p, a.adapter, a.confirm).0
    {
      var prepared :- a.Prepare();
      r := ExecuteSwap(prepared, a.adapter, a.confirm);
    }

    /** Any number of invocations, one after the other, whatever each comes to. */
    method Run(run: seq<Attempt<B, R>>)
      modifies this
      ensures events == old(events) + RunEvents(run)
    {
      for k := 0 to |run|
        invariant events == old(events) + RunEvents(run[..k])
      {
        var _ := RunAttempt(run[k]);
        LogGrows(old(events), run, k);
      }
      assert run[..|run|] == run;
    }
  }

  /** One invocation of the program: prepare a swap, then execute it. */
  datatype Attempt<!B, !R> = Attempt(thor: Thorchain, adapter: Adapter<B, R>, request: SwapRequest, now: int,
                                     options: Options, confirm: bool) {
    function Prepare(): Result<Prepared<B>> {
      PrepareSwap(thor, adapter, request, now, options)
    }

    function Events(): seq<Event<B, R>> {
      match Prepare()
      case Failure(_) => []
      case Success(p) => Execution(p, adapter, confirm).1
    }
  }

  function RunEvents<B, R>(run: seq<Attempt<B, R>>): seq<Event<B, R>> {
    if run == [] then [] else RunEvents(run[..|run| - 1]) + run[|run| - 1].Events()
  }

  lemma LogGrows<B, R>(log: seq<Event<B, R>>, run: seq<Attempt<B, R>>, k: nat)
    requires k < |run|
    ensures log + RunEvents(run[..k]) + run[k].Events() == log + RunEvents(run[..k + 1])
  {
    assert run[..k + 1][..k] == run[..k];
  }

  /** The attempt cleared every check, passed the gate, was confirmed, and signed this transaction. */
  ghost predicate Sanctions<B, R>(a: Attempt<B, R>, quote: Quote, raw: R) {
    && Cleared(a.thor, a.adapter.chain, a.request, a.options, quote)
    && a.confirm
    && var p := a.adapter.build(quote, a.request, a.now);
       && p.Success? && p.value.problems == []
       && var raws := a.adapter.sign(p.value.built);
          raws.Success? && raw in raws.value
  }

  /** In any run of any number of attempts, whatever was posted was sanctioned by one of them. */
  lemma {:induction false} PostedWasSanctioned<B(!new), R(!new)>(run: seq<Attempt<B, R>>, raw: R)
    returns (k: nat, quote: Quote)
    requires Posted(raw) in RunEvents(run)
    ensures k < |run| && Sanctions(run[k], quote, raw)
  {
    var last := |run| - 1;
    if Posted(raw) in run[last].Events() {
      var a := run[last];
      var p := a.Prepare().value;
      ExecutionShape(p, a.adapter, a.confirm);
      var args;
      quote, args := PreparedWasCleared(a.thor, a.adapter, a.request, a.now, a.options);
      var raws := a.adapter.sign(p.built).value;
      var n: nat :| n <= |raws| && a.Events() == [Signed(p, raws)] + PostedEvents(raws[..n]);
      k := last;
    } else {
      k, quote := PostedWasSanctioned(run[..last], raw);
    }
  }

  /** Every signed transaction is posted once those before it were accepted. */
  lemma {:induction false} PostedInTurn<R>(raws: seq<R>, post: R -> Result<string>, txid: string, i: nat)
    requires i < |raws| && forall j :: 0 <= j < i ==> post(raws[j]).Success?
    ensures raws[i] in PostAll(raws, post, txid).1
  {
    if i > 0 {
      PostedInTurn(raws[1..], post, post(raws[0]).value, i - 1);
    }
  }

  lemma {:induction false} EventsAreInRun<B, R>(run: seq<Attempt<B, R>>, k: nat, e: Event<B, R>)
    requires k < |run| && e in run[k].Events()
    ensures e in RunEvents(run)
  {
    if k < |run| - 1 {
      EventsAreInRun(run[..|run| - 1], k, e);
    }
  }

  /** The converse: what an attempt sanctioned is posted, each transaction once those before it were accepted. */
  lemma {:induction false} SanctionedIsPosted<B, R>(run: seq<Attempt<B, R>>, k: nat, quote: Quote, raws: seq<R>, i: nat)
    requires k < |run| && i < |raws|
    requires Sanctions(run[k], quote, raws[i])
    requires run[k].adapter.sign(run[k].adapter.build(quote, run[k].request, run[k].now).value.built) == Success(raws)
    requires forall j :: 0 <= j < i ==> run[k].adapter.post(raws[j]).Success?
    ensures Posted(raws[i]) in RunEvents(run)
  {
    var a := run[k];
    var p := a.adapter.build(quote, a.request, a.now).value;
    assert a.Prepare() == Success(p);
    var posted := PostAll(raws, a.adapter.post, "").1;
    PostedInTurn(raws, a.adapter.post, "", i);
    var l :| 0 <= l < |posted| && posted[l] == raws[i];
    var events := [Signed(p, raws)] + PostedEvents<B, R>(posted);
    assert a.Events() == events && events[l + 1] == Posted(raws[i]);
    EventsAreInRun(run, k, Posted(raws[i]));
  }

  /** A session's log over any run keeps the invariant of the journal. */
  lemma {:induction false} RunsAreJustified<B(!new), R(!new)>(run: seq<Attempt<B, R>>)
    ensures Justified(RunEvents(run))
  {
    if run != [] {
      var a := run[|run| - 1];
      RunsAreJustified(run[..|run| - 1]);
      match a.Prepare()
      case Success(p) => JustifiedStep(RunEvents(run[..|run| - 1]), p, a.adapter, a.confirm);
      case Failure(_) => assert RunEvents(run) == RunEvents(run[..|run| - 1]);
    }
  }
}
