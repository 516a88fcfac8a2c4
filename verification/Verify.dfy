/**
 The pre-broadcast gates (verify.py): each returns the reasons why a built transaction does not match
 its plan, and no reason means it may be signed. Reasons are values here; their wording is not modelled.
 */
module Verify {
  import opened Wrappers
  import opened Text
  import Utf8

  const OP_RETURN_MAX_BYTES := 80
  const WEI_PER_THORCHAIN_UNIT := 10_000_000_000

  datatype Problem =
    | QuoteExpired(now: int, expiry: int)
    | PaymentCount(found: nat)
    | PaymentAmount(value: int, intended: int)
    | DataCount(found: nat)
    | MemoTooLong(length: nat)
    | MemoNotUtf8
    | MemoMismatch(decoded: string)
    | UnexpectedData
    | ForeignOutput(address: Option<string>)
    | DestinationNotPaid
    | NegativeFee(fee: int)
    | FeeTooHigh(fee: int)
    | WrongTarget(to: string)
    | WrongValue(value: int)
    | WrongCalldata(data: string)
    | WrongChain(chainId: int)
    | Undecodable(approval: bool)
    | WrongField(field: Field)

  /** The fields of the two token calls that the token gate binds. */
  datatype Field =
    ApproveSpender | ApproveAmount | DepositVault | DepositToken | DepositAmount | DepositMemo | DepositExpiry

  // --- does a memo pay a destination? ---

  /** memo_pays_destination. */
  predicate MemoPays(destination: string, memo: string) {
    || destination == ""
    || Contains(memo, destination)
    || (HasPrefix(destination) && Contains(Lower(memo), Lower(destination)))
  }

  /**
   Case counts for every destination except 0x ones, and for those only up to case: re-casing the memo of
   a 0x destination never changes the verdict, and the exact match is subsumed.
   */
  lemma {:induction false} MemoPaysMeaning(destination: string, memo: string, recased: string)
    requires destination != ""
    ensures MemoPays("", memo)
    ensures !HasPrefix(destination) ==> (MemoPays(destination, memo) <==> Contains(memo, destination))
    ensures HasPrefix(destination) ==>
      (MemoPays(destination, memo) <==> Contains(Lower(memo), Lower(destination)))
    ensures HasPrefix(destination) && Lower(recased) == Lower(memo) ==>
      (MemoPays(destination, memo) <==> MemoPays(destination, recased))
  {
    if Contains(memo, destination) {
      ContainsLower(memo, destination);
    }
    if Contains(recased, destination) {
      ContainsLower(recased, destination);
    }
  }

  // --- filtering ---

  function Filter<T>(p: T -> bool, s: seq<T>): seq<T> {
    if s == [] then [] else (if p(s[0]) then [s[0]] else []) + Filter(p, s[1..])
  }

  /** Element i of s, and no other, satisfies p. */
  ghost predicate OnlyAt<T(!new)>(p: T -> bool, s: seq<T>, i: nat) {
    i < |s| && p(s[i]) && forall j: nat :: j < |s| && j != i ==> !p(s[j])
  }

  lemma {:induction false} FilterNone<T>(p: T -> bool, s: seq<T>)
    ensures Filter(p, s) == [] <==> forall j: nat :: j < |s| ==> !p(s[j])
  {
    if s != [] {
      FilterNone(p, s[1..]);
      assert forall j: nat :: 0 < j < |s| ==> s[j] == s[1..][j - 1];
      assert forall j: nat :: j < |s[1..]| ==> s[1..][j] == s[j + 1];
    }
  }

  lemma {:induction false} FilterOnly<T(!new)>(p: T -> bool, s: seq<T>, i: nat)
    requires OnlyAt(p, s, i)
    ensures Filter(p, s) == [s[i]]
  {
    assert forall j: nat :: j < |s[1..]| ==> s[1..][j] == s[j + 1];
    if i == 0 {
      FilterNone(p, s[1..]);
    } else {
      FilterOnly(p, s[1..], i - 1);
    }
  }

  lemma FilterSingle<T(!new)>(p: T -> bool, s: seq<T>) returns (i: nat)
    requires |Filter(p, s)| == 1
    ensures OnlyAt(p, s, i) && Filter(p, s) == [s[i]]
  {
    assert forall j: nat :: 0 < j < |s| ==> s[j] == s[1..][j - 1];
    if p(s[0]) {
      FilterNone(p, s[1..]);
      i := 0;
    } else {
      i := FilterSingle(p, s[1..]);
      i := i + 1;
    }
  }

  lemma {:induction false} FilterSatisfies<T>(p: T -> bool, s: seq<T>)
    ensures forall i :: 0 <= i < |Filter(p, s)| ==> p(Filter(p, s)[i])
  {
    if s != [] {
      FilterSatisfies(p, s[1..]);
    }
  }

  lemma {:induction false} FilterSnoc<T>(p: T -> bool, s: seq<T>, x: T)
    ensures Filter(p, s + [x]) == Filter(p, s) + if p(x) then [x] else []
  {
    if s == [] {
      assert [x][1..] == [];
    } else {
      assert (s + [x])[1..] == s[1..] + [x];
      FilterSnoc(p, s[1..], x);
    }
  }

  // --- Bitcoin transactions ---

  /** An output: no address and the raw data for OP_RETURN, an address otherwise. */
  datatype TxOutput = TxOutput(address: Option<string>, value: int, opReturnData: Option<bytes> := None)

  datatype SwapPlan =
    SwapPlan(inboundAddress: string, amount: int, memo: string, expiry: int, destination: string := "")

  datatype SendPlan = SendPlan(recipient: string, amount: int)

  function Pays(to: string): TxOutput -> bool {
    (o: TxOutput) => o.address == Some(to)
  }

  function CarriesData(): TxOutput -> bool {
    (o: TxOutput) => o.opReturnData.Some?
  }

  predicate IsOwned(o: TxOutput, owned: set<string>) {
    o.address.Some? && o.address.value in owned
  }

  /** What the change loop of both gates reports: outputs that go neither to the payee, nor carry data, nor are ours. */
  function Foreign(to: string, owned: set<string>): TxOutput -> bool {
    (o: TxOutput) => o.opReturnData.None? && o.address != Some(to) && !IsOwned(o, owned)
  }

  /** Append a problem when there is one. */
  function Note(problems: seq<Problem>, wrong: bool, problem: Problem): seq<Problem> {
    if wrong then problems + [problem] else problems
  }

  function AddPayment(problems: seq<Problem>, outputs: seq<TxOutput>, to: string, amount: int): seq<Problem> {
    var paid := Filter(Pays(to), outputs);
    if |paid| != 1 then problems + [PaymentCount(|paid|)]
    else Note(problems, paid[0].value != amount, PaymentAmount(paid[0].value, amount))
  }

  function AddMemo(problems: seq<Problem>, outputs: seq<TxOutput>, memo: string): seq<Problem> {
    var carriers := Filter(CarriesData(), outputs);
    if |carriers| != 1 || carriers[0].opReturnData.None? then problems + [DataCount(|carriers|)]
    else AddData(problems, carriers[0].opReturnData.value, memo)
  }

  function AddData(problems: seq<Problem>, data: bytes, memo: string): seq<Problem> {
    var sized := Note(problems, |data| > OP_RETURN_MAX_BYTES, MemoTooLong(|data|));
    match Utf8.Decode(data)
    case None => sized + [MemoNotUtf8]
    case Some(decoded) => Note(sized, decoded != memo, MemoMismatch(decoded))
  }

  function ForeignProblems(foreign: seq<TxOutput>): seq<Problem> {
    seq(|foreign|, i requires 0 <= i < |foreign| => ForeignOutput(foreign[i].address))
  }

  function AddForeign(problems: seq<Problem>, outputs: seq<TxOutput>, to: string, owned: set<string>): seq<Problem> {
    problems + ForeignProblems(Filter(Foreign(to, owned), outputs))
  }

  function AddFee(problems: seq<Problem>, fee: int, maxFee: int): seq<Problem> {
    if fee < 0 then problems + [NegativeFee(fee)] else Note(problems, fee > maxFee, FeeTooHigh(fee))
  }

  function BtcSwapProblems(outputs: seq<TxOutput>, fee: int, plan: SwapPlan, owned: set<string>, now: int, maxFee: int):
    seq<Problem>
  {
    var timely := Note([], now >= plan.expiry, QuoteExpired(now, plan.expiry));
    var paid := AddPayment(timely, outputs, plan.inboundAddress, plan.amount);
    var memo := AddMemo(paid, outputs, plan.memo);
    var change := AddForeign(memo, outputs, plan.inboundAddress, owned);
    AddFee(Note(change, !MemoPays(plan.destination, plan.memo), DestinationNotPaid), fee, maxFee)
  }

  function BtcSendProblems(outputs: seq<TxOutput>, fee: int, plan: SendPlan, owned: set<string>,
                           maxFee: int): seq<Problem> {
    var paid := AddPayment([], outputs, plan.recipient, plan.amount);
    var plain := Note(paid, Filter(CarriesData(), outputs) != [], UnexpectedData);
    AddFee(AddForeign(plain, outputs, plan.recipient, owned), fee, maxFee)
  }

  /** verify_btc_swap. */
  method VerifyBtcSwap(outputs: seq<TxOutput>, fee: int, plan: SwapPlan, owned: set<string>, now: int, maxFee: int)
    returns (problems: seq<Problem>)
    ensures problems == BtcSwapProblems(outputs, fee, plan, owned, now, maxFee)
  {
    problems := [];
    if now >= plan.expiry {
      problems := problems + [QuoteExpired(now, plan.expiry)];
    }
    problems := CheckPayment(problems, outputs, plan.inboundAddress, plan.amount);

    var opReturns := Filter(CarriesData(), outputs);
    FilterSatisfies(CarriesData(), outputs);
    if |opReturns| != 1 {
      problems := problems + [DataCount(|opReturns|)];
    } else {
      var data := opReturns[0].opReturnData.value;
      if |data| > OP_RETURN_MAX_BYTES {
        problems := problems + [MemoTooLong(|data|)];
      }
      match Utf8.Decode(data) {
        case None => problems := problems + [MemoNotUtf8];
        case Some(decoded) =>
          if decoded != plan.memo {
            problems := problems + [MemoMismatch(decoded)];
          }
      }
    }

    var foreign := CollectForeign(outputs, plan.inboundAddress, owned);
    problems := problems + foreign;
    if !MemoPays(plan.destination, plan.memo) {
      problems := problems + [DestinationNotPaid];
    }
    problems := CheckFee(problems, fee, maxFee);
  }

  /** "Exactly one output to the payee, for the exact amount", as both gates check it. */
  method CheckPayment(before: seq<Problem>, outputs: seq<TxOutput>, to: string,
                      amount: int) returns (problems: seq<Problem>)
    ensures problems == AddPayment(before, outputs, to, amount)
  {
    problems := before;
    var paid := Filter(Pays(to), outputs);
    if |paid| != 1 {
      problems := problems + [PaymentCount(|paid|)];
    } else if paid[0].value != amount {
      problems := problems + [PaymentAmount(paid[0].value, amount)];
    }
  }

  method CheckFee(before: seq<Problem>, fee: int, maxFee: int) returns (problems: seq<Problem>)
    ensures problems == AddFee(before, fee, maxFee)
  {
    problems := before;
    if fee < 0 {
      problems := problems + [NegativeFee(fee)];
    } else if fee > maxFee {
      problems := problems + [FeeTooHigh(fee)];
    }
  }

  /** The loop over the outputs that both gates share. */
  method CollectForeign(outputs: seq<TxOutput>, to: string, owned: set<string>) returns (problems: seq<Problem>)
    ensures problems == ForeignProblems(Filter(Foreign(to, owned), outputs))
  {
    problems := [];
    for k := 0 to |outputs|
      invariant problems == ForeignProblems(Filter(Foreign(to, owned), outputs[..k]))
    {
      var o := outputs[k];
      assert outputs[..k + 1] == outputs[..k] + [o];
      FilterSnoc(Foreign(to, owned), outputs[..k], o);
      if o.opReturnData.Some? || o.address == Some(to) {
        continue;
      }
      if !IsOwned(o, owned) {
        problems := problems + [ForeignOutput(o.address)];
      }
    }
    assert outputs[..|outputs|] == outputs;
  }

  /** verify_btc_send. */
  method VerifyBtcSend(outputs: seq<TxOutput>, fee: int, plan: SendPlan, owned: set<string>, maxFee: int)
    returns (problems: seq<Problem>)
    ensures problems == BtcSendProblems(outputs, fee, plan, owned, maxFee)
  {
    problems := CheckPayment([], outputs, plan.recipient, plan.amount);
    if Filter(CarriesData(), outputs) != [] {
      problems := problems + [UnexpectedData];
    }
    var foreign := CollectForeign(outputs, plan.recipient, owned);
    problems := problems + foreign;
    problems := CheckFee(problems, fee, maxFee);
  }

  // --- what acceptance means ---

  /** Exactly one output pays `to`, and it pays `amount`. */
  ghost predicate PaidExactly(outputs: seq<TxOutput>, to: string, amount: int) {
    exists i: nat :: (
      && i < |outputs| && outputs[i].address == Some(to) && outputs[i].value == amount
      && forall j: nat :: j < |outputs| && j != i ==> outputs[j].address != Some(to))
  }

  /** Exactly one output carries data: the memo in UTF-8, at most 80 bytes of it. */
  ghost predicate CarriesExactly(outputs: seq<TxOutput>, memo: string) {
    |Utf8.Encode(memo)| <= 80 &&
    exists i: nat :: (
      && i < |outputs| && outputs[i].opReturnData == Some(Utf8.Encode(memo))
      && forall j: nat :: j < |outputs| && j != i ==> outputs[j].opReturnData.None?)
  }

  /** Whatever is neither the payment nor data comes back to us. */
  predicate RestIsOwned(outputs: seq<TxOutput>, to: string, owned: set<string>) {
    forall k :: 0 <= k < |outputs| ==>
      || outputs[k].opReturnData.Some? || outputs[k].address == Some(to)
      || (outputs[k].address.Some? && outputs[k].address.value in owned)
  }

  lemma {:induction false} PaymentAt(outputs: seq<TxOutput>, to: string, amount: int) returns (i: nat)
    requires PaidExactly(outputs, to, amount)
    ensures OnlyAt(Pays(to), outputs, i) && outputs[i].value == amount
  {
    i :| i < |outputs| && outputs[i].address == Some(to) && outputs[i].value == amount
      && forall j: nat :: j < |outputs| && j != i ==> outputs[j].address != Some(to);
  }

  lemma {:induction false} MemoAt(outputs: seq<TxOutput>, memo: string) returns (i: nat)
    requires CarriesExactly(outputs, memo)
    ensures OnlyAt(CarriesData(), outputs, i) && outputs[i].opReturnData == Some(Utf8.Encode(memo))
  {
    i :| i < |outputs| && outputs[i].opReturnData == Some(Utf8.Encode(memo))
      && forall j: nat :: j < |outputs| && j != i ==> outputs[j].opReturnData.None?;
  }

  lemma PaymentClean(outputs: seq<TxOutput>, to: string, amount: int)
    ensures AddPayment([], outputs, to, amount) == [] <==> PaidExactly(outputs, to, amount)
  {
    if PaidExactly(outputs, to, amount) {
      var i := PaymentAt(outputs, to, amount);
      FilterOnly(Pays(to), outputs, i);
    } else if |Filter(Pays(to), outputs)| == 1 {
      var i := FilterSingle(Pays(to), outputs);
    }
  }

  lemma MemoClean(outputs: seq<TxOutput>, memo: string)
    ensures AddMemo([], outputs, memo) == [] <==> CarriesExactly(outputs, memo)
  {
    if |Filter(CarriesData(), outputs)| == 1 {
      var i := FilterSingle(CarriesData(), outputs);
      Utf8.DecodesToExactly(outputs[i].opReturnData.value, memo);
    }
    if CarriesExactly(outputs, memo) {
      var i := MemoAt(outputs, memo);
      FilterOnly(CarriesData(), outputs, i);
    }
  }

  lemma {:induction false} ForeignClean(outputs: seq<TxOutput>, to: string, owned: set<string>)
    ensures ForeignProblems(Filter(Foreign(to, owned), outputs)) == [] <==> RestIsOwned(outputs, to, owned)
  {
    FilterNone(Foreign(to, owned), outputs);
  }

  ghost predicate BtcSwapMatches(outputs: seq<TxOutput>, fee: int, plan: SwapPlan, owned: set<string>, now: int,
                                 maxFee: int) {
    && now < plan.expiry
    && PaidExactly(outputs, plan.inboundAddress, plan.amount)
    && CarriesExactly(outputs, plan.memo)
    && RestIsOwned(outputs, plan.inboundAddress, owned)
    && MemoPays(plan.destination, plan.memo)
    && 0 <= fee <= maxFee
  }

  ghost predicate BtcSendMatches(outputs: seq<TxOutput>, fee: int, plan: SendPlan, owned: set<string>, maxFee: int) {
    && PaidExactly(outputs, plan.recipient, plan.amount)
    && (forall k :: 0 <= k < |outputs| ==> outputs[k].opReturnData.None?)
    && RestIsOwned(outputs, plan.recipient, owned)
    && 0 <= fee <= maxFee
  }

  /** The swap gate is silent exactly on transactions that match the plan. */
  lemma BtcSwapGate(outputs: seq<TxOutput>, fee: int, plan: SwapPlan, owned: set<string>,
                    now: int, maxFee: int)
    ensures BtcSwapProblems(outputs, fee, plan, owned, now, maxFee) == []
      <==> BtcSwapMatches(outputs, fee, plan, owned, now, maxFee)
  {
    PaymentClean(outputs, plan.inboundAddress, plan.amount);
    MemoClean(outputs, plan.memo);
    ForeignClean(outputs, plan.inboundAddress, owned);
  }

  /** The send gate is silent exactly on plain payments. */
  lemma BtcSendGate(outputs: seq<TxOutput>, fee: int, plan: SendPlan, owned: set<string>,
                    maxFee: int)
    ensures BtcSendProblems(outputs, fee, plan, owned, maxFee) == []
      <==> BtcSendMatches(outputs, fee, plan, owned, maxFee)
  {
    PaymentClean(outputs, plan.recipient, plan.amount);
    FilterNone(CarriesData(), outputs);
    ForeignClean(outputs, plan.recipient, owned);
  }

  // --- what is reported ---

  /** How many outputs pay `to`. */
  function Payments(outputs: seq<TxOutput>, to: string): nat {
    if outputs == [] then 0
    else (if outputs[0].address == Some(to) then 1 else 0) + Payments(outputs[1..], to)
  }

  /** How many outputs carry data. */
  function DataOutputs(outputs: seq<TxOutput>): nat {
    if outputs == [] then 0 else (if outputs[0].opReturnData.Some? then 1 else 0) + DataOutputs(outputs[1..])
  }

  ghost predicate PaymentReport(p: Problem, outputs: seq<TxOutput>, to: string, amount: int) {
    var n := Payments(outputs, to);
    if n != 1 then p == PaymentCount(n)
    else exists o :: o in outputs && o.address == Some(to) && o.value != amount && p == PaymentAmount(o.value, amount)
  }

  /** What is wrong with the bytes of the only data output. */
  predicate DataReport(p: Problem, data: bytes, memo: string) {
    || (|data| > 80 && p == MemoTooLong(|data|))
    || (Utf8.Decode(data).None? && p == MemoNotUtf8)
    || (Utf8.Decode(data).Some? && Utf8.Decode(data).value != memo && p == MemoMismatch(Utf8.Decode(data).value))
  }

  ghost predicate MemoReport(p: Problem, outputs: seq<TxOutput>, memo: string) {
    var n := DataOutputs(outputs);
    if n != 1 then p == DataCount(n)
    else exists o :: o in outputs && o.opReturnData.Some? && DataReport(p, o.opReturnData.value, memo)
  }

  ghost predicate ForeignReport(p: Problem, outputs: seq<TxOutput>, to: string, owned: set<string>) {
    exists o :: o in outputs && o.opReturnData.None? && o.address != Some(to)
      && (o.address.None? || o.address.value !in owned) && p == ForeignOutput(o.address)
  }

  predicate FeeReport(p: Problem, fee: int, maxFee: int) {
    if fee < 0 then p == NegativeFee(fee) else fee > maxFee && p == FeeTooHigh(fee)
  }

  lemma {:induction false} PaymentsCounted(outputs: seq<TxOutput>, to: string)
    ensures |Filter(Pays(to), outputs)| == Payments(outputs, to)
  {
    if outputs != [] {
      PaymentsCounted(outputs[1..], to);
    }
  }

  lemma {:induction false} DataCounted(outputs: seq<TxOutput>)
    ensures |Filter(CarriesData(), outputs)| == DataOutputs(outputs)
  {
    if outputs != [] {
      DataCounted(outputs[1..]);
    }
  }

  lemma {:induction false} InFilter<T(!new)>(p: T -> bool, s: seq<T>, x: T)
    ensures x in Filter(p, s) <==> x in s && p(x)
  {
    if s != [] {
      InFilter(p, s[1..], x);
      assert x in s <==> x == s[0] || x in s[1..];
    }
  }

  lemma {:induction false} PaymentReported(p: Problem, problems: seq<Problem>, outputs: seq<TxOutput>, to: string,
                                           amount: int)
    ensures p in AddPayment(problems, outputs, to, amount) <==> p in problems || PaymentReport(p, outputs, to, amount)
  {
    PaymentsCounted(outputs, to);
    var paid := Filter(Pays(to), outputs);
    if |paid| == 1 {
      forall o ensures o in outputs && o.address == Some(to) <==> o == paid[0] {
        InFilter(Pays(to), outputs, o);
      }
    }
  }

  lemma {:induction false} MemoReported(p: Problem, problems: seq<Problem>, outputs: seq<TxOutput>, memo: string)
    ensures p in AddMemo(problems, outputs, memo) <==> p in problems || MemoReport(p, outputs, memo)
  {
    DataCounted(outputs);
    FilterSatisfies(CarriesData(), outputs);
    var carriers := Filter(CarriesData(), outputs);
    if |carriers| == 1 {
      forall o ensures o in outputs && o.opReturnData.Some? <==> o == carriers[0] {
        InFilter(CarriesData(), outputs, o);
      }
      DataReported(p, problems, carriers[0].opReturnData.value, memo);
    }
  }

  lemma DataReported(p: Problem, problems: seq<Problem>, data: bytes, memo: string)
    ensures p in AddData(problems, data, memo) <==> p in problems || DataReport(p, data, memo)
  {
  }

  lemma {:induction false} ForeignReported(p: Problem, problems: seq<Problem>, outputs: seq<TxOutput>, to: string,
                                           owned: set<string>)
    ensures p in AddForeign(problems, outputs, to, owned) <==> p in problems || ForeignReport(p, outputs, to, owned)
  {
    var foreign := Filter(Foreign(to, owned), outputs);
    var reports := ForeignProblems(foreign);
    if p in reports {
      var k :| 0 <= k < |reports| && reports[k] == p;
      InFilter(Foreign(to, owned), outputs, foreign[k]);
    }
    if ForeignReport(p, outputs, to, owned) {
      var o :| o in outputs && o.opReturnData.None? && o.address != Some(to)
        && (o.address.None? || o.address.value !in owned) && p == ForeignOutput(o.address);
      InFilter(Foreign(to, owned), outputs, o);
      var k :| 0 <= k < |foreign| && foreign[k] == o;
      assert reports[k] == p;
    }
  }

  lemma NoteReported(p: Problem, problems: seq<Problem>, wrong: bool, problem: Problem)
    ensures p in Note(problems, wrong, problem) <==> p in problems || (wrong && p == problem)
  {
  }

  lemma FeeReported(p: Problem, problems: seq<Problem>, fee: int, maxFee: int)
    ensures p in AddFee(problems, fee, maxFee) <==> p in problems || FeeReport(p, fee, maxFee)
  {
  }

  /** The swap gate reports every mismatch, with the very values that mismatch, and nothing else. */
  lemma {:induction false} BtcSwapReports(p: Problem, outputs: seq<TxOutput>, fee: int, plan: SwapPlan,
                                          owned: set<string>, now: int, maxFee: int)
    ensures p in BtcSwapProblems(outputs, fee, plan, owned, now, maxFee) <==>
      || (now >= plan.expiry && p == QuoteExpired(now, plan.expiry))
      || PaymentReport(p, outputs, plan.inboundAddress, plan.amount)
      || MemoReport(p, outputs, plan.memo)
      || ForeignReport(p, outputs, plan.inboundAddress, owned)
      || (!MemoPays(plan.destination, plan.memo) && p == DestinationNotPaid)
      || FeeReport(p, fee, maxFee)
  {
    var timely := Note([], now >= plan.expiry, QuoteExpired(now, plan.expiry));
    var paid := AddPayment(timely, outputs, plan.inboundAddress, plan.amount);
    var memo := AddMemo(paid, outputs, plan.memo);
    var change := AddForeign(memo, outputs, plan.inboundAddress, owned);
    var payout := Note(change, !MemoPays(plan.destination, plan.memo), DestinationNotPaid);
    NoteReported(p, [], now >= plan.expiry, QuoteExpired(now, plan.expiry));
    PaymentReported(p, timely, outputs, plan.inboundAddress, plan.amount);
    MemoReported(p, paid, outputs, plan.memo);
    ForeignReported(p, memo, outputs, plan.inboundAddress, owned);
    NoteReported(p, change, !MemoPays(plan.destination, plan.memo), DestinationNotPaid);
    FeeReported(p, payout, fee, maxFee);
  }

  /** So does the send gate. */
  lemma {:induction false} BtcSendReports(p: Problem, outputs: seq<TxOutput>, fee: int, plan: SendPlan,
                                          owned: set<string>, maxFee: int)
    ensures p in BtcSendProblems(outputs, fee, plan, owned, maxFee) <==>
      || PaymentReport(p, outputs, plan.recipient, plan.amount)
      || (DataOutputs(outputs) > 0 && p == UnexpectedData)
      || ForeignReport(p, outputs, plan.recipient, owned)
      || FeeReport(p, fee, maxFee)
  {
    var carries := Filter(CarriesData(), outputs) != [];
    var paid := AddPayment([], outputs, plan.recipient, plan.amount);
    var plain := Note(paid, carries, UnexpectedData);
    var change := AddForeign(plain, outputs, plan.recipient, owned);
    PaymentReported(p, [], outputs, plan.recipient, plan.amount);
    DataCounted(outputs);
    NoteReported(p, paid, carries, UnexpectedData);
    ForeignReported(p, plain, outputs, plan.recipient, owned);
    FeeReported(p, change, fee, maxFee);
  }

  // --- conservation ---

  function Total(outputs: seq<TxOutput>): int {
    if outputs == [] then 0 else outputs[0].value + Total(outputs[1..])
  }

  function OwnedBy(owned: set<string>): TxOutput -> bool {
    (o: TxOutput) => IsOwned(o, owned)
  }

  predicate DataHasNoAddress(outputs: seq<TxOutput>) {
    forall k :: 0 <= k < |outputs| ==> outputs[k].opReturnData.Some? ==> outputs[k].address.None?
  }

  /** Every satoshi is in exactly one of three places: payment, data, or back with us. */
  lemma {:induction false} OutputsPartition(outputs: seq<TxOutput>, to: string, owned: set<string>)
    requires to !in owned && DataHasNoAddress(outputs) && RestIsOwned(outputs, to, owned)
    ensures Total(outputs) ==
      Total(Filter(Pays(to), outputs)) + Total(Filter(OwnedBy(owned), outputs)) + Total(Filter(CarriesData(), outputs))
  {
    if outputs != [] {
      var rest := outputs[1..];
      assert forall k :: 0 <= k < |rest| ==> rest[k] == outputs[k + 1];
      OutputsPartition(rest, to, owned);
      TotalOfFilter(Pays(to), outputs);
      TotalOfFilter(OwnedBy(owned), outputs);
      TotalOfFilter(CarriesData(), outputs);
    }
  }

  lemma {:induction false} TotalCons(o: TxOutput, rest: seq<TxOutput>)
    ensures Total([o] + rest) == o.value + Total(rest)
  {
    assert ([o] + rest)[1..] == rest;
  }

  lemma {:induction false} TotalOfFilter(p: TxOutput -> bool, outputs: seq<TxOutput>)
    requires outputs != []
    ensures Total(Filter(p, outputs))
      == (if p(outputs[0]) then outputs[0].value else 0) + Total(Filter(p, outputs[1..]))
  {
    var kept := Filter(p, outputs[1..]);
    if p(outputs[0]) {
      TotalCons(outputs[0], kept);
    } else {
      assert [] + kept == kept;
    }
  }

  /** An accepted swap: the outputs total the amount, plus what returns to us, plus what the memo output burns. */
  lemma AcceptedSwapConserves(outputs: seq<TxOutput>, fee: int, plan: SwapPlan,
                              owned: set<string>, now: int, maxFee: int)
    returns (i: nat)
    requires BtcSwapProblems(outputs, fee, plan, owned, now, maxFee) == []
    requires plan.inboundAddress !in owned && DataHasNoAddress(outputs)
    ensures OnlyAt(CarriesData(), outputs, i) && outputs[i].opReturnData == Some(Utf8.Encode(plan.memo))
    ensures Total(outputs) == plan.amount + Total(Filter(OwnedBy(owned), outputs)) + outputs[i].value
  {
    BtcSwapGate(outputs, fee, plan, owned, now, maxFee);
    OutputsPartition(outputs, plan.inboundAddress, owned);
    PaidTotal(outputs, plan.inboundAddress, plan.amount);
    i := MemoAt(outputs, plan.memo);
    OnlyTotal(CarriesData(), outputs, i);
  }

  lemma {:induction false} OnlyTotal(p: TxOutput -> bool, outputs: seq<TxOutput>, i: nat)
    requires OnlyAt(p, outputs, i)
    ensures Total(Filter(p, outputs)) == outputs[i].value
  {
    FilterOnly(p, outputs, i);
    assert [outputs[i]][1..] == [];
  }

  lemma {:induction false} PaidTotal(outputs: seq<TxOutput>, to: string, amount: int)
    requires PaidExactly(outputs, to, amount)
    ensures Total(Filter(Pays(to), outputs)) == amount
  {
    var p := PaymentAt(outputs, to, amount);
    OnlyTotal(Pays(to), outputs, p);
  }

  // --- native ether ---

  datatype EthSwapPlan =
    EthSwapPlan(inboundAddress: string, amountWei: int, memo: string, expiry: int, chainId: int := 1,
                destination: string := "")

  datatype EthSendPlan = EthSendPlan(recipient: string, amountWei: int, chainId: int := 1)

  /** "0x" and the memo's UTF-8 bytes in hex. */
  function MemoCalldata(memo: string): string {
    "0x" + Hex(Utf8.Encode(memo))
  }

  function EthSwapProblems(to: string, value: int, data: string, chainId: int, gas: int, maxFeePerGas: int,
                           plan: EthSwapPlan, now: int, maxFeeWei: int): seq<Problem>
  {
    var timely := Note([], now >= plan.expiry, QuoteExpired(now, plan.expiry));
    var target := Note(timely, Lower(to) != Lower(plan.inboundAddress), WrongTarget(to));
    var amount := Note(target, value != plan.amountWei, WrongValue(value));
    var memo := Note(amount, Lower(data) != Lower(MemoCalldata(plan.memo)), WrongCalldata(data));
    var chain := Note(memo, chainId != plan.chainId, WrongChain(chainId));
    var payout := Note(chain, !MemoPays(plan.destination, plan.memo), DestinationNotPaid);
    Note(payout, gas * maxFeePerGas > maxFeeWei, FeeTooHigh(gas * maxFeePerGas))
  }

  /** verify_eth_swap. */
  method VerifyEthSwap(to: string, value: int, data: string, chainId: int, gas: int, maxFeePerGas: int,
                       plan: EthSwapPlan, now: int, maxFeeWei: int)
    returns (problems: seq<Problem>)
    ensures problems == EthSwapProblems(to, value, data, chainId, gas, maxFeePerGas, plan, now, maxFeeWei)
  {
    problems := [];
    if now >= plan.expiry {
      problems := problems + [QuoteExpired(now, plan.expiry)];
    }
    if Lower(to) != Lower(plan.inboundAddress) {
      problems := problems + [WrongTarget(to)];
    }
    if value != plan.amountWei {
      problems := problems + [WrongValue(value)];
    }
    var expectedData := MemoCalldata(plan.memo);
    if Lower(data) != Lower(expectedData) {
      problems := problems + [WrongCalldata(data)];
    }
    if chainId != plan.chainId {
      problems := problems + [WrongChain(chainId)];
    }
    if !MemoPays(plan.destination, plan.memo) {
      problems := problems + [DestinationNotPaid];
    }
    var totalFee := gas * maxFeePerGas;
    if totalFee > maxFeeWei {
      problems := problems + [FeeTooHigh(totalFee)];
    }
  }

  /** Calldata that reads, in hex of either case, as exactly the memo's bytes. */
  predicate CalldataSays(data: string, memo: string) {
    |data| == 2 + 2 * |Utf8.Encode(memo)| && HasPrefix(data) &&
    FromHex(data[2..]) == Success(Utf8.Encode(memo))
  }

  predicate EthSwapMatches(to: string, value: int, data: string, chainId: int, gas: int, maxFeePerGas: int,
                           plan: EthSwapPlan, now: int, maxFeeWei: int)
  {
    && now < plan.expiry
    && Lower(to) == Lower(plan.inboundAddress)
    && value == plan.amountWei
    && CalldataSays(data, plan.memo)
    && chainId == plan.chainId
    && MemoPays(plan.destination, plan.memo)
    && gas * maxFeePerGas <= maxFeeWei
  }

  /** Hex without white space is determined, up to case, by the bytes it denotes. */
  lemma {:induction false} HexDetermined(s: string, b: bytes)
    requires |s| == 2 * |b|
    ensures FromHex(s) == Success(b) <==> Lower(s) == Hex(b)
  {
    if Lower(s) == Hex(b) {
      FromHexOfHex(b);
      FromHexOfLower(s);
    } else if FromHex(s) == Success(b) {
      FullHexIsHex(s, b);
    }
  }

  lemma {:induction false} FromHexLength(s: string)
    ensures FromHex(s).Success? ==> 2 * |FromHex(s).value| <= |s|
    decreases |s|
  {
    if s != "" {
      FromHexLength(s[1..]);
      if |s| >= 2 {
        FromHexLength(s[2..]);
      }
    }
  }

  lemma HexDigitOf(c: char)
    requires HexValue(c).Some?
    ensures HexDigit(HexValue(c).value) == LowerChar(c)
  {
  }

  lemma PairIsHex(s: string)
    ensures ReadPair(s).Some? ==> HexPair(ReadPair(s).value) == Lower(s[..2])
  {
    if ReadPair(s).Some? {
      HexDigitOf(s[0]);
      HexDigitOf(s[1]);
    }
  }

  /** Without room for white space the first two characters are the first byte. */
  lemma {:induction false} FirstPair(s: string, b: bytes)
    requires |s| == 2 * |b| && s != "" && FromHex(s) == Success(b)
    ensures HexPair(b[0]) == Lower(s[..2])
    ensures FromHex(s[2..]) == Success(b[1..])
  {
    FromHexLength(s[1..]);
    assert !IsSpace(s[0]);
    var rest := FromHex(s[2..]).value;
    assert b == [ReadPair(s).value] + rest;
    assert b[1..] == rest;
    PairIsHex(s);
  }

  lemma {:induction false} FullHexIsHex(s: string, b: bytes)
    requires |s| == 2 * |b| && FromHex(s) == Success(b)
    ensures Lower(s) == Hex(b)
  {
    if s != "" {
      FirstPair(s, b);
      FullHexIsHex(s[2..], b[1..]);
      assert s == s[..2] + s[2..];
      LowerConcat(s[..2], s[2..]);
    }
  }

  lemma {:induction false} CalldataGate(data: string, memo: string)
    ensures Lower(data) == Lower(MemoCalldata(memo)) <==> CalldataSays(data, memo)
  {
    var b := Utf8.Encode(memo);
    var expected := MemoCalldata(memo);
    HexIsLower(b);
    LowerConcat("0x", Hex(b));
    assert Lower(expected) == expected;
    if |data| == |expected| {
      assert data == data[..2] + data[2..];
      LowerConcat(data[..2], data[2..]);
      HexDetermined(data[2..], b);
      assert Lower(data) == Lower(data[..2]) + Lower(data[2..]);
      assert expected[..2] == "0x" && expected[2..] == Hex(b);
      assert Lower(data)[..2] == Lower(data[..2]) && Lower(data)[2..] == Lower(data[2..]);
    }
  }

  /** The native swap gate reports every mismatch, with its values, and nothing else. */
  lemma {:induction false} EthSwapReports(p: Problem, to: string, value: int, data: string, chainId: int, gas: int,
                                          maxFeePerGas: int, plan: EthSwapPlan, now: int, maxFeeWei: int)
    ensures p in EthSwapProblems(to, value, data, chainId, gas, maxFeePerGas, plan, now, maxFeeWei) <==>
      || (now >= plan.expiry && p == QuoteExpired(now, plan.expiry))
      || (Lower(to) != Lower(plan.inboundAddress) && p == WrongTarget(to))
      || (value != plan.amountWei && p == WrongValue(value))
      || (!CalldataSays(data, plan.memo) && p == WrongCalldata(data))
      || (chainId != plan.chainId && p == WrongChain(chainId))
      || (!MemoPays(plan.destination, plan.memo) && p == DestinationNotPaid)
      || (gas * maxFeePerGas > maxFeeWei && p == FeeTooHigh(gas * maxFeePerGas))
  {
    var timely := Note([], now >= plan.expiry, QuoteExpired(now, plan.expiry));
    var target := Note(timely, Lower(to) != Lower(plan.inboundAddress), WrongTarget(to));
    var amount := Note(target, value != plan.amountWei, WrongValue(value));
    var memo := Note(amount, Lower(data) != Lower(MemoCalldata(plan.memo)), WrongCalldata(data));
    var chain := Note(memo, chainId != plan.chainId, WrongChain(chainId));
    var payout := Note(chain, !MemoPays(plan.destination, plan.memo), DestinationNotPaid);
    NoteReported(p, [], now >= plan.expiry, QuoteExpired(now, plan.expiry));
    NoteReported(p, timely, Lower(to) != Lower(plan.inboundAddress), WrongTarget(to));
    NoteReported(p, target, value != plan.amountWei, WrongValue(value));
    CalldataGate(data, plan.memo);
    NoteReported(p, amount, Lower(data) != Lower(MemoCalldata(plan.memo)), WrongCalldata(data));
    NoteReported(p, memo, chainId != plan.chainId, WrongChain(chainId));
    NoteReported(p, chain, !MemoPays(plan.destination, plan.memo), DestinationNotPaid);
    NoteReported(p, payout, gas * maxFeePerGas > maxFeeWei, FeeTooHigh(gas * maxFeePerGas));
  }

  /** The native swap gate is silent exactly when vault, value, memo, chain, payout and fee limit all match. */
  lemma EthSwapGate(to: string, value: int, data: string, chainId: int, gas: int, maxFeePerGas: int, plan: EthSwapPlan,
                    now: int, maxFeeWei: int)
    ensures EthSwapProblems(to, value, data, chainId, gas, maxFeePerGas, plan, now, maxFeeWei) == []
      <==> EthSwapMatches(to, value, data, chainId, gas, maxFeePerGas, plan, now, maxFeeWei)
  {
    CalldataGate(data, plan.memo);
  }

  function EthSendProblems(to: string, value: int, data: string, chainId: int, gas: int, maxFeePerGas: int,
                           plan: EthSendPlan, maxFeeWei: int): seq<Problem>
  {
    var target := Note([], Lower(to) != Lower(plan.recipient), WrongTarget(to));
    var amount := Note(target, value != plan.amountWei, WrongValue(value));
    var plain := Note(amount, data != "0x" && data != "", WrongCalldata(data));
    var chain := Note(plain, chainId != plan.chainId, WrongChain(chainId));
    Note(chain, gas * maxFeePerGas > maxFeeWei, FeeTooHigh(gas * maxFeePerGas))
  }

  /** A payment of exactly the intended amount to the recipient's bytes, on the right chain, with nothing attached. */
  predicate EthSendMatches(to: string, value: int, data: string, chainId: int, gas: int, maxFeePerGas: int,
                           plan: EthSendPlan, maxFeeWei: int)
  {
    && Lower(to) == Lower(plan.recipient)
    && value == plan.amountWei
    && data in {"", "0x"}
    && chainId == plan.chainId
    && gas * maxFeePerGas <= maxFeeWei
  }

  /**
   The ether send gate is silent exactly on matching payments; then the target reads as the recipient's very
   bytes, and the payment with its worst-case fee costs no more than the amount and the fee limit.
   */
  lemma EthSendGate(to: string, value: int, data: string, chainId: int, gas: int, maxFeePerGas: int,
                    plan: EthSendPlan, maxFeeWei: int)
    ensures EthSendProblems(to, value, data, chainId, gas, maxFeePerGas, plan, maxFeeWei) == []
      <==> EthSendMatches(to, value, data, chainId, gas, maxFeePerGas, plan, maxFeeWei)
    ensures EthSendProblems(to, value, data, chainId, gas, maxFeePerGas, plan, maxFeeWei) == [] ==>
      && FromHexTail(to) == FromHexTail(plan.recipient)
      && value + gas * maxFeePerGas <= plan.amountWei + maxFeeWei
  {
    if Lower(to) == Lower(plan.recipient) {
      SameBytesAfterPrefix(to, plan.recipient);
    }
  }

  /** And the ether send gate. */
  lemma {:induction false} EthSendReports(p: Problem, to: string, value: int, data: string, chainId: int, gas: int,
                                          maxFeePerGas: int, plan: EthSendPlan, maxFeeWei: int)
    ensures p in EthSendProblems(to, value, data, chainId, gas, maxFeePerGas, plan, maxFeeWei) <==>
      || (Lower(to) != Lower(plan.recipient) && p == WrongTarget(to))
      || (value != plan.amountWei && p == WrongValue(value))
      || (data !in {"", "0x"} && p == WrongCalldata(data))
      || (chainId != plan.chainId && p == WrongChain(chainId))
      || (gas * maxFeePerGas > maxFeeWei && p == FeeTooHigh(gas * maxFeePerGas))
  {
    var target := Note([], Lower(to) != Lower(plan.recipient), WrongTarget(to));
    var amount := Note(target, value != plan.amountWei, WrongValue(value));
    var plain := Note(amount, data != "0x" && data != "", WrongCalldata(data));
    var chain := Note(plain, chainId != plan.chainId, WrongChain(chainId));
    NoteReported(p, [], Lower(to) != Lower(plan.recipient), WrongTarget(to));
    NoteReported(p, target, value != plan.amountWei, WrongValue(value));
    NoteReported(p, amount, data != "0x" && data != "", WrongCalldata(data));
    NoteReported(p, plain, chainId != plan.chainId, WrongChain(chainId));
    NoteReported(p, chain, gas * maxFeePerGas > maxFeeWei, FeeTooHigh(gas * maxFeePerGas));
  }

  /** What stands behind a two-character prefix, read as hex. */
  function FromHexTail(s: string): Result<bytes> {
    FromHex(if |s| >= 2 then s[2..] else "")
  }

  lemma {:induction false} SameBytesAfterPrefix(a: string, b: string)
    requires Lower(a) == Lower(b)
    ensures FromHexTail(a) == FromHexTail(b)
  {
    assert |a| == |Lower(a)| == |Lower(b)| == |b|;
    if |a| >= 2 {
      var x, y := Lower(a[2..]), Lower(b[2..]);
      assert forall i :: 0 <= i < |x| ==> x[i] == Lower(a)[i + 2] && y[i] == Lower(b)[i + 2];
      assert x == y;
      FromHexOfLower(a[2..]);
      FromHexOfLower(b[2..]);
    }
  }

  /** verify_eth_send. */
  method VerifyEthSend(to: string, value: int, data: string, chainId: int, gas: int, maxFeePerGas: int,
                       plan: EthSendPlan, maxFeeWei: int)
    returns (problems: seq<Problem>)
    ensures problems == EthSendProblems(to, value, data, chainId, gas, maxFeePerGas, plan, maxFeeWei)
    ensures problems == [] <==> EthSendMatches(to, value, data, chainId, gas, maxFeePerGas, plan, maxFeeWei)
  {
    problems := [];
    if Lower(to) != Lower(plan.recipient) {
      problems := problems + [WrongTarget(to)];
    }
    if value != plan.amountWei {
      problems := problems + [WrongValue(value)];
    }
    if data != "0x" && data != "" {
      problems := problems + [WrongCalldata(data)];
    }
    if chainId != plan.chainId {
      problems := problems + [WrongChain(chainId)];
    }
    if gas * maxFeePerGas > maxFeeWei {
      problems := problems + [FeeTooHigh(gas * maxFeePerGas)];
    }
  }
}
