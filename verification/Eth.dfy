/**
 The Ethereum adapter (chains/eth.py): checksum addresses, sweeps, the native deposit, and the two-transaction
 token deposit with its gate. Keccak is an arbitrary function; the ABI codec is foreign code of which only the
 round trip is assumed.
 */
module Eth {
  import opened Wrappers
  import opened Text
  import opened Verify
  import Coins
  import Swap
  import Utf8

  const CHAIN_ID := 1
  const APPROVE_GAS := 70000
  const TOKEN_DEPOSIT_GAS := 200000
  const NATIVE_SEND_GAS := 21000
  // approve(address,uint256) and depositWithExpiry(address,address,uint256,string,uint256)
  const APPROVE_SELECTOR: bytes := [0x09, 0x5e, 0xa7, 0xb3]
  const DEPOSIT_SELECTOR: bytes := [0x44, 0xbc, 0x93, 0x7b]

  // --- EIP-55 addresses ---

  function StripPrefix(addr: string): string {
    if HasPrefix(addr) then addr[2..] else addr
  }

  /** 0x and 0X are dropped once, nothing else is. */
  lemma StripMeaning(s: string)
    ensures StripPrefix("0x" + s) == s == StripPrefix("0X" + s)
    ensures |s| < 2 || s[0] != '0' || s[1] !in "xX" ==> StripPrefix(s) == s
  {
    PrefixMeaning("0x" + s);
    PrefixMeaning("0X" + s);
    PrefixMeaning(s);
  }

  /** Letters are raised where the digest's digit is 8 or more; the result ends with the shorter of the two. */
  function Recase(lower: string, digest: string): (s: string)
    ensures |s| == if |lower| <= |digest| then |lower| else |digest|
  {
    var n := if |lower| <= |digest| then |lower| else |digest|;
    seq(n, i requires 0 <= i < n =>
      if HexValue(digest[i]).Some? && HexValue(digest[i]).value >= 8 then UpperChar(lower[i]) else lower[i])
  }

  /** to_checksum_address of a string. */
  function ToChecksumAddress(addr: string, keccak: bytes -> Digest): Result<string> {
    var raw :- FromHex(StripPrefix(addr));
    var lower := Hex(raw);
    Success("0x" + Recase(lower, Hex(keccak(Utf8.Encode(lower)))))
  }

  /** What survives re-casing: at most 32 bytes. */
  function Kept(raw: bytes): bytes {
    if |raw| <= 32 then raw else raw[..32]
  }

  lemma {:induction false} RecasePreservesLower(lower: string, digest: string)
    requires Lower(lower) == lower
    ensures Lower(Recase(lower, digest)) == lower[..|Recase(lower, digest)|]
  {
    var s := Recase(lower, digest);
    forall i | 0 <= i < |s| ensures LowerChar(s[i]) == lower[i] {
      assert Lower(lower)[i] == lower[i];
      LowerOfUpper(lower[i]);
    }
  }

  lemma LowerOfUpper(c: char)
    requires LowerChar(c) == c
    ensures LowerChar(UpperChar(c)) == c
  {
  }

  lemma {:induction false} HexPrefix(raw: bytes)
    requires |raw| > 32
    ensures Hex(raw)[..64] == Hex(raw[..32])
  {
    assert raw == raw[..32] + raw[32..];
    HexConcat(raw[..32], raw[32..]);
  }

  /** Re-casing keeps the lower-cased address, cut off after 32 bytes, whatever the hash. */
  lemma ChecksumKeepsAddress(addr: string, keccak: bytes -> Digest)
    requires ToChecksumAddress(addr, keccak).Success?
    ensures Lower(ToChecksumAddress(addr, keccak).value) == "0x" + Hex(Kept(FromHex(StripPrefix(addr)).value))
    ensures FromHex(StripPrefix(ToChecksumAddress(addr, keccak).value))
      == Success(Kept(FromHex(StripPrefix(addr)).value))
  {
    var raw := FromHex(StripPrefix(addr)).value;
    var lower := Hex(raw);
    var cased := Recase(lower, Hex(keccak(Utf8.Encode(lower))));
    HexIsLower(raw);
    RecasePreservesLower(lower, Hex(keccak(Utf8.Encode(lower))));
    if |raw| > 32 {
      HexPrefix(raw);
    } else {
      assert lower[..|cased|] == lower;
    }
    LowerConcat("0x", cased);
    assert Lower(cased) == Hex(Kept(raw));
    assert Lower("0x") == "0x";
    var s := "0x" + cased;
    assert s[..2] == "0x" && s[2..] == cased;
    FromHexOfLower(cased);
    FromHexOfHex(Kept(raw));
  }

  /** Two addresses denote the same bytes, as far as an address of at most 32 bytes goes. */
  predicate SameAddress(a: string, b: string) {
    var x, y := FromHex(StripPrefix(a)), FromHex(StripPrefix(b));
    x.Success? && y.Success? && x.value == Kept(y.value)
  }

  lemma ChecksumSameAddress(addr: string, keccak: bytes -> Digest)
    requires ToChecksumAddress(addr, keccak).Success?
    ensures SameAddress(ToChecksumAddress(addr, keccak).value, addr)
  {
    ChecksumKeepsAddress(addr, keccak);
  }

  lemma ChecksumIsPrefixed(addr: string, keccak: bytes -> Digest)
    requires ToChecksumAddress(addr, keccak).Success?
    ensures HasPrefix(ToChecksumAddress(addr, keccak).value)
  {
    ChecksumKeepsAddress(addr, keccak);
    assert Lower("0x") == "0x";
  }

  /** Up to 32 bytes, 20 included, checksumming is idempotent. */
  lemma ChecksumIdempotent(addr: string, keccak: bytes -> Digest)
    requires ToChecksumAddress(addr, keccak).Success?
    requires |FromHex(StripPrefix(addr)).value| <= 32
    ensures ToChecksumAddress(ToChecksumAddress(addr, keccak).value, keccak) == ToChecksumAddress(addr, keccak)
  {
    ChecksumKeepsAddress(addr, keccak);
  }

  lemma {:induction false} HexAt(b: bytes, i: nat)
    requires i < 2 * |b|
    ensures Hex(b)[i] == HexDigit(if i % 2 == 0 then b[i / 2] / 16 else b[i / 2] % 16)
    decreases |b|
  {
    if i >= 2 {
      HexAt(b[1..], i - 2);
      assert (i - 2) / 2 == i / 2 - 1 && (i - 2) % 2 == i % 2;
    }
  }

  /**
   The letters EIP-55 wants in upper case: the i-th hex digit of the address is raised exactly where bit 4i of
   the digest of the lower-case address is set, that is, where the i-th half byte of the digest is 8 or more.
   */
  lemma CasingFollowsDigest(addr: string, keccak: bytes -> Digest, i: nat)
    requires ToChecksumAddress(addr, keccak).Success?
    requires i < 64 && i < 2 * |FromHex(StripPrefix(addr)).value|
    ensures var lower := Hex(FromHex(StripPrefix(addr)).value);
      var digest := keccak(Utf8.Encode(lower));
      var half := if i % 2 == 0 then digest[i / 2] / 16 else digest[i / 2] % 16;
      i + 2 < |ToChecksumAddress(addr, keccak).value| &&
      ToChecksumAddress(addr, keccak).value[i + 2] == if half >= 8 then UpperChar(lower[i]) else lower[i]
  {
    var lower := Hex(FromHex(StripPrefix(addr)).value);
    var digest := keccak(Utf8.Encode(lower));
    RecasedDigit(lower, digest, i);
    var cased := Recase(lower, Hex(digest));
    assert ("0x" + cased)[i + 2] == cased[i];
  }

  lemma {:induction false} RecasedDigit(lower: string, digest: Digest, i: nat)
    requires i < 64 && i < |lower|
    ensures var half := if i % 2 == 0 then digest[i / 2] / 16 else digest[i / 2] % 16;
      Recase(lower, Hex(digest))[i] == if half >= 8 then UpperChar(lower[i]) else lower[i]
  {
    HexAt(digest, i);
    HexDigitValue(if i % 2 == 0 then digest[i / 2] / 16 else digest[i / 2] % 16);
  }

  /** A prefixed address of hex digits only, at most 32 bytes of them. */
  predicate PlainHexAddress(addr: string) {
    HasPrefix(addr) && |addr| <= 66 && forall i :: 2 <= i < |addr| ==> HexValue(addr[i]).Some?
  }

  /** A 20-byte address as quotes and asset names spell it. */
  predicate PlainAddress(addr: string) {
    PlainHexAddress(addr) && |addr| == 42
  }

  lemma {:induction false} NoSpacesFullLength(s: string)
    requires FromHex(s).Success? && forall i :: 0 <= i < |s| ==> HexValue(s[i]).Some?
    ensures |s| == 2 * |FromHex(s).value|
    decreases |s|
  {
    if s != "" {
      assert HexValue(s[0]).Some? && !IsSpace(s[0]);
      assert forall i :: 0 <= i < |s[2..]| ==> s[2..][i] == s[i + 2];
      NoSpacesFullLength(s[2..]);
    }
  }

  lemma {:induction false} HexCharsAreHex(b: bytes)
    ensures forall i :: 0 <= i < |Hex(b)| ==> HexValue(Hex(b)[i]).Some?
  {
    if b != [] {
      HexDigitValue(b[0] / 16);
      HexDigitValue(b[0] % 16);
      HexCharsAreHex(b[1..]);
      assert forall i :: 2 <= i < |Hex(b)| ==> Hex(b)[i] == Hex(b[1..])[i - 2];
    }
  }

  lemma {:induction false} LowerSplit(s: string)
    requires |s| >= 2
    ensures Lower(s)[..2] == Lower(s[..2]) && Lower(s)[2..] == Lower(s[2..])
  {
    assert s == s[..2] + s[2..];
    LowerConcat(s[..2], s[2..]);
  }

  lemma {:induction false} PlainMatches(addr: string)
    requires PlainHexAddress(addr) && FromHex(StripPrefix(addr)).Success?
    ensures Lower(addr) == "0x" + Hex(Kept(FromHex(StripPrefix(addr)).value))
  {
    var body := addr[2..];
    assert forall i :: 0 <= i < |body| ==> body[i] == addr[i + 2];
    var raw := FromHex(body).value;
    NoSpacesFullLength(body);
    HexDetermined(body, raw);
    LowerSplit(addr);
    assert Lower(addr) == Lower(addr)[..2] + Lower(addr)[2..];
  }

  lemma {:induction false} MatchesOnlyPlain(addr: string, b: bytes)
    requires Lower(addr) == "0x" + Hex(b) && |b| <= 32
    ensures PlainHexAddress(addr)
  {
    assert |addr| == |"0x" + Hex(b)| == 2 + 2 * |b|;
    LowerSplit(addr);
    var body := addr[2..];
    assert Lower(body) == Hex(b) && Lower(addr[..2]) == "0x";
    HexCharsAreHex(b);
    forall i | 2 <= i < |addr| ensures HexValue(addr[i]).Some? {
      assert HexValue(Hex(b)[i - 2]).Some?;
      assert Hex(b)[i - 2] == LowerChar(addr[i]);
    }
  }

  /** The checksummed address equals the given one up to case exactly when the given one is plain. */
  lemma {:induction false} ChecksumMatchesIff(addr: string, keccak: bytes -> Digest)
    requires ToChecksumAddress(addr, keccak).Success?
    ensures Lower(ToChecksumAddress(addr, keccak).value) == Lower(addr) <==> PlainHexAddress(addr)
  {
    var b := Kept(FromHex(StripPrefix(addr)).value);
    ChecksumKeepsAddress(addr, keccak);
    if PlainHexAddress(addr) {
      PlainMatches(addr);
    } else if Lower(addr) == "0x" + Hex(b) {
      MatchesOnlyPlain(addr, b);
    }
  }

  /** Of plain addresses of whole bytes, those that are equal up to case denote the same bytes, and no others. */
  lemma {:induction false} SameAddressMeaning(a: string, b: string)
    requires PlainHexAddress(a) && |a| % 2 == 0 && PlainHexAddress(b) && |b| % 2 == 0
    ensures SameAddress(a, b) <==> Lower(a) == Lower(b)
  {
    PlainBodyReads(a);
    PlainBodyReads(b);
    PlainMatches(a);
    PlainMatches(b);
    ShortIsKept(a);
    ShortIsKept(b);
    var x, y := FromHex(StripPrefix(a)).value, FromHex(StripPrefix(b)).value;
    FromHexOfHex(x);
    FromHexOfHex(y);
    assert ("0x" + Hex(x))[2..] == Hex(x) && ("0x" + Hex(y))[2..] == Hex(y);
  }

  lemma ShortIsKept(addr: string)
    requires PlainHexAddress(addr) && FromHex(StripPrefix(addr)).Success?
    ensures Kept(FromHex(StripPrefix(addr)).value) == FromHex(StripPrefix(addr)).value
  {
    FromHexLength(StripPrefix(addr));
  }

  /** A plain address, character by character. */
  lemma PlainAddressMeaning(addr: string)
    ensures PlainAddress(addr) <==>
      && |addr| == 42 && addr[0] == '0' && addr[1] in "xX"
      && forall i :: 2 <= i < 42 ==> addr[i] in "0123456789abcdefABCDEF"
  {
    PrefixMeaning(addr);
    if |addr| == 42 {
      forall i | 2 <= i < 42 ensures HexValue(addr[i]).Some? <==> addr[i] in "0123456789abcdefABCDEF" {
        HexCharacters(addr[i]);
      }
    }
  }

  lemma HexCharacters(c: char)
    ensures HexValue(c).Some? <==> c in "0123456789abcdefABCDEF"
  {
    var digits := "0123456789abcdefABCDEF";
    assert forall k :: 0 <= k < 22 ==>
      digits[k] == if k < 10 then '0' + k as char else if k < 16 then 'a' + (k - 10) as char
                   else 'A' + (k - 16) as char;
    if HexValue(c).Some? {
      var v := HexValue(c).value;
      assert digits[if 'A' <= c <= 'F' then v + 6 else v] == c;
    }
  }

  lemma {:induction false} HexDigitsRead(s: string)
    requires forall i :: 0 <= i < |s| ==> HexValue(s[i]).Some?
    ensures FromHex(s).Success? <==> |s| % 2 == 0
    decreases |s|
  {
    if |s| >= 2 {
      assert forall i :: 0 <= i < |s[2..]| ==> s[2..][i] == s[i + 2];
      HexDigitsRead(s[2..]);
    }
  }

  lemma PlainBodyReads(addr: string)
    requires PlainHexAddress(addr)
    ensures FromHex(StripPrefix(addr)).Success? <==> |addr| % 2 == 0
  {
    var body := addr[2..];
    assert forall i :: 0 <= i < |body| ==> body[i] == addr[i + 2];
    HexDigitsRead(body);
  }

  lemma ChecksummableIff(addr: string, keccak: bytes -> Digest)
    ensures ToChecksumAddress(addr, keccak).Success? <==> FromHex(StripPrefix(addr)).Success?
  {
  }

  /** Any even number of hex digits is an address, in any case and after 0x or 0X; an odd number is not. */
  lemma PlainIsChecksummable(addr: string, keccak: bytes -> Digest)
    requires PlainHexAddress(addr)
    ensures ToChecksumAddress(addr, keccak).Success? <==> |addr| % 2 == 0
  {
    PlainBodyReads(addr);
    ChecksummableIff(addr, keccak);
  }

  /** EIP-55 on every 40-digit address: it succeeds, changes only the case, and does nothing the second time. */
  lemma {:induction false} ChecksumOfPlainAddress(addr: string, keccak: bytes -> Digest)
    requires PlainAddress(addr)
    ensures var r := ToChecksumAddress(addr, keccak);
      r.Success? && Lower(r.value) == Lower(addr) && ToChecksumAddress(r.value, keccak) == r
  {
    PlainIsChecksummable(addr, keccak);
    ChecksumMatchesIff(addr, keccak);
    FromHexLength(StripPrefix(addr));
    ChecksumIdempotent(addr, keccak);
  }

  /** An address of 33 bytes: two of its characters are lost. */
  lemma LongAddressIsCut(keccak: bytes -> Digest)
    ensures var addr := "0x" + Hex(seq(33, _ => 7));
      var r := ToChecksumAddress(addr, keccak);
      |addr| == 68 && r.Success? && |r.value| == 66
  {
    var raw: bytes := seq(33, _ => 7);
    var addr := "0x" + Hex(raw);
    assert addr[..2] == "0x" && addr[2..] == Hex(raw);
    assert Lower("0x") == "0x";
    FromHexOfHex(raw);
  }

  // --- sweeping ether ---

  function EthSweepAmount(balanceWei: int, gas: int, maxFeePerGas: int): Result<int> {
    var sendable := balanceWei - gas * maxFeePerGas;
    if sendable <= 0 then Failure(InsufficientFunds) else Success(sendable / WEI_PER_THORCHAIN_UNIT)
  }

  /**
   A sweep never overdraws: the value plus the worst-case fee fit the balance, less than one unit is left,
   and no larger amount fits. It fails exactly when the balance does not exceed the fee reserve.
   */
  lemma EthSweepIsMaximal(balanceWei: int, gas: int, maxFeePerGas: int)
    ensures match EthSweepAmount(balanceWei, gas, maxFeePerGas)
      case Failure(_) => balanceWei <= gas * maxFeePerGas
      case Success(amount) =>
        && balanceWei > gas * maxFeePerGas && amount >= 0
        && 0 <= balanceWei - (amount * 10_000_000_000 + gas * maxFeePerGas) < 10_000_000_000
        && (forall a :: a * 10_000_000_000 + gas * maxFeePerGas <= balanceWei ==> a <= amount)
  {
  }

  // --- the native deposit ---

  datatype EthTx = EthTx(chainId: int, nonce: int, to: string, value: int, gas: int, maxFeePerGas: int,
                         maxPriorityFeePerGas: int, data: string)

  /** What the adapter is configured with for one swap. */
  datatype Setup = Setup(
    keccak: bytes -> Digest,
    abi: Abi,
    decimalsOf: string -> nat,               // a token's decimals
    signs: EthTx -> bool,                    // whether the account library signs a transaction
    post: EthTx -> Result<string>,           // the node's answer to a signed transaction
    chainId: int, nonce: int, gas: int, maxFeePerGas: int, maxPriorityFeePerGas: int, maxFeeWei: int)

  /** build_unsigned_swap. */
  function BuildNative(s: Setup, vault: string, amount: int, memo: string, gas: int): Result<EthTx> {
    var to :- ToChecksumAddress(vault, s.keccak);
    Success(EthTx(s.chainId, s.nonce, to, amount * WEI_PER_THORCHAIN_UNIT, gas, s.maxFeePerGas,
                  s.maxPriorityFeePerGas, MemoCalldata(memo)))
  }

  function NativePlan(quote: Swap.Quote, request: Swap.SwapRequest): EthSwapPlan {
    EthSwapPlan(quote.inboundAddress, request.amount * WEI_PER_THORCHAIN_UNIT, quote.Memo(), quote.expiry,
                destination := request.destination)
  }

  function NativeProblems(tx: EthTx, plan: EthSwapPlan, now: int, maxFeeWei: int): seq<Problem> {
    EthSwapProblems(tx.to, tx.value, tx.data, tx.chainId, tx.gas, tx.maxFeePerGas, plan, now, maxFeeWei)
  }

  /**
   Build, then gate, for ether: a built deposit passes if and only if the quote is unexpired, the vault is a
   plain 0x address, the adapter is on mainnet (the plan always expects chain 1), the memo pays the
   destination and the worst-case fee is within the limit. Amount and calldata can never be the reason.
   */
  lemma NativeVerdict(s: Setup, quote: Swap.Quote, request: Swap.SwapRequest, now: int)
    requires BuildNative(s, quote.inboundAddress, request.amount, quote.Memo(), s.gas).Success?
    ensures var tx := BuildNative(s, quote.inboundAddress, request.amount, quote.Memo(), s.gas).value;
      NativeProblems(tx, NativePlan(quote, request), now, s.maxFeeWei) == [] <==>
        && now < quote.expiry && PlainHexAddress(quote.inboundAddress) && s.chainId == 1
        && MemoPays(request.destination, quote.Memo()) && s.gas * s.maxFeePerGas <= s.maxFeeWei
  {
    ChecksumMatchesIff(quote.inboundAddress, s.keccak);
  }

  /** For the vaults quotes name, 0x and 40 hex digits, nothing about the address can stop the deposit. */
  lemma PlainVaultVerdict(s: Setup, quote: Swap.Quote, request: Swap.SwapRequest, now: int)
    requires PlainAddress(quote.inboundAddress)
    ensures var r := BuildNative(s, quote.inboundAddress, request.amount, quote.Memo(), s.gas);
      && r.Success?
      && (NativeProblems(r.value, NativePlan(quote, request), now, s.maxFeeWei) == [] <==>
          && now < quote.expiry && s.chainId == 1
          && MemoPays(request.destination, quote.Memo()) && s.gas * s.maxFeePerGas <= s.maxFeeWei)
  {
    ChecksumOfPlainAddress(quote.inboundAddress, s.keccak);
    NativeVerdict(s, quote, request, now);
  }

  /** On the Sepolia test network a deposit to such a vault is always refused, for its chain if for nothing else. */
  lemma TestnetIsRefused(s: Setup, quote: Swap.Quote, request: Swap.SwapRequest, now: int)
    requires PlainAddress(quote.inboundAddress)
    requires s.chainId == 11155111
    ensures var r := BuildNative(s, quote.inboundAddress, request.amount, quote.Memo(), s.gas);
      && r.Success?
      && var problems := NativeProblems(r.value, NativePlan(quote, request), now, s.maxFeeWei);
         && problems != []
         && (now < quote.expiry && MemoPays(request.destination, quote.Memo()) && s.gas * s.maxFeePerGas <= s.maxFeeWei
             ==> problems == [WrongChain(11155111)])
  {
    ChecksumOfPlainAddress(quote.inboundAddress, s.keccak);
    NativeVerdict(s, quote, request, now);
  }

  /** The fields of an ether transfer, and what its calldata says. */
  lemma NativeFields(s: Setup, vault: string, amount: int, memo: string, gas: int)
    requires BuildNative(s, vault, amount, memo, gas).Success?
    ensures var tx := BuildNative(s, vault, amount, memo, gas).value;
      && ToChecksumAddress(vault, s.keccak) == Success(tx.to) && SameAddress(tx.to, vault)
      && tx.value == amount * 10_000_000_000 && CalldataSays(tx.data, memo)
      && tx.chainId == s.chainId && tx.nonce == s.nonce && tx.gas == gas
      && tx.maxFeePerGas == s.maxFeePerGas && tx.maxPriorityFeePerGas == s.maxPriorityFeePerGas
  {
    ChecksumSameAddress(vault, s.keccak);
    CalldataGate(MemoCalldata(memo), memo);
  }

  /** A swept deposit, value and worst-case fee together, is covered by the balance it was computed from. */
  lemma SweptDepositIsCovered(s: Setup, vault: string, memo: string, balanceWei: int)
    requires EthSweepAmount(balanceWei, s.gas, s.maxFeePerGas).Success?
    requires BuildNative(s, vault, EthSweepAmount(balanceWei, s.gas, s.maxFeePerGas).value, memo, s.gas).Success?
    ensures var tx := BuildNative(s, vault, EthSweepAmount(balanceWei, s.gas, s.maxFeePerGas).value, memo, s.gas).value;
      balanceWei - 10_000_000_000 < tx.value + tx.gas * tx.maxFeePerGas <= balanceWei
  {
    EthSweepIsMaximal(balanceWei, s.gas, s.maxFeePerGas);
  }

  /**
   A plain ether send compares the transaction with its own target, so only the fee limit can stop it; the
   target denotes the recipient's bytes.
   */
  lemma NativeSendVerdict(s: Setup, recipient: string, amount: int)
    requires BuildNative(s, recipient, amount, "", NATIVE_SEND_GAS).Success?
    ensures var tx := BuildNative(s, recipient, amount, "", NATIVE_SEND_GAS).value;
      var plan := EthSendPlan(tx.to, amount * 10_000_000_000, s.chainId);
      && (EthSendProblems(tx.to, tx.value, tx.data, tx.chainId, tx.gas, tx.maxFeePerGas, plan, s.maxFeeWei) == []
          <==> 21000 * s.maxFeePerGas <= s.maxFeeWei)
      && FromHex(StripPrefix(tx.to)) == Success(Kept(FromHex(StripPrefix(recipient)).value))
  {
    ChecksumKeepsAddress(recipient, s.keccak);
    assert MemoCalldata("") == "0x";
  }

  /** A recipient of one byte instead of twenty passes the gate of a send. */
  lemma ShortRecipientPasses(s: Setup, amount: int)
    requires NATIVE_SEND_GAS * s.maxFeePerGas <= s.maxFeeWei
    ensures var r := BuildNative(s, "0xab", amount, "", NATIVE_SEND_GAS);
      && r.Success? && Lower(r.value.to) == "0xab"
      && EthSendProblems(r.value.to, r.value.value, r.value.data, r.value.chainId, r.value.gas, r.value.maxFeePerGas,
                         EthSendPlan(r.value.to, amount * WEI_PER_THORCHAIN_UNIT, s.chainId), s.maxFeeWei) == []
  {
    ShortIsPlain();
    PlainIsChecksummable("0xab", s.keccak);
    ChecksumMatchesIff("0xab", s.keccak);
    NativeSendVerdict(s, "0xab", amount);
  }

  lemma ShortIsPlain()
    ensures PlainHexAddress("0xab") && Lower("0xab") == "0xab"
  {
    var addr := "0xab";
    assert addr[..2] == "0x" && Lower("0x") == "0x";
    assert forall i :: 2 <= i < |addr| ==> HexValue(addr[i]).Some?;
    assert Lower("ab") == "ab";
  }

  // --- the token deposit ---

  datatype DepositArgs = DepositArgs(vault: string, token: string, amount: int, memo: string, expiry: int)

  /** The ABI codec for the two calls; encoding fails on values out of range. */
  datatype Abi = Abi(
    encodeApprove: (string, int) -> Option<bytes>,
    decodeApprove: bytes -> Option<(string, int)>,
    encodeDeposit: DepositArgs -> Option<bytes>,
    decodeDeposit: bytes -> Option<DepositArgs>)

  /** Decoding gives back what was encoded, addresses in lower case, if these were given with their prefix. */
  ghost predicate RoundTrips(abi: Abi) {
    && (forall spender: string, amount: int :: HasPrefix(spender) && abi.encodeApprove(spender, amount).Some? ==>
          abi.decodeApprove(abi.encodeApprove(spender, amount).value) == Some((Lower(spender), amount)))
    && (forall a: DepositArgs :: HasPrefix(a.vault) && HasPrefix(a.token) && abi.encodeDeposit(a).Some? ==>
          abi.decodeDeposit(abi.encodeDeposit(a).value)
            == Some(DepositArgs(Lower(a.vault), Lower(a.token), a.amount, a.memo, a.expiry)))
  }

  datatype TokenSwap = TokenSwap(approveTx: EthTx, depositTx: EthTx, token: string, router: string, vault: string,
                                 nativeAmount: int, memo: string, expiry: int)
  {
    function Fee(): int {
      approveTx.gas * approveTx.maxFeePerGas + depositTx.gas * depositTx.maxFeePerGas
    }
  }

  function Calldata(selector: bytes, args: bytes): string {
    "0x" + Hex(selector) + Hex(args)
  }

  /** The part of a string after its first dash. */
  function AfterDash(s: string): Option<string> {
    if s == "" then None else if s[0] == '-' then Some(s[1..]) else AfterDash(s[1..])
  }

  /** `split("-", 1)[1]`: what follows the first dash, if there is one. */
  lemma {:induction false} AfterDashMeaning(s: string)
    ensures match AfterDash(s)
      case Some(rest) => exists head: string :: '-' !in head && head + "-" + rest == s
      case None => '-' !in s
  {
    if s != "" && s[0] != '-' {
      AfterDashMeaning(s[1..]);
      if AfterDash(s).Some? {
        var head: string :| '-' !in head && head + "-" + AfterDash(s).value == s[1..];
        assert ([s[0]] + head) + "-" + AfterDash(s).value == s;
      }
    } else if s != "" {
      assert "" + "-" + s[1..] == s;
    }
  }

  /** The converse: an asset with a contract is read as that contract. */
  lemma {:induction false} AfterDashOfJoin(head: string, rest: string)
    requires '-' !in head
    ensures AfterDash(head + "-" + rest) == Some(rest)
  {
    var s := head + "-" + rest;
    if head == "" {
      assert s[1..] == rest;
    } else {
      assert s[1..] == head[1..] + "-" + rest;
      AfterDashOfJoin(head[1..], rest);
    }
  }

  function OrError<T>(o: Option<T>): Result<T> {
    if o.Some? then Success(o.value) else Failure(ValueError)
  }

  /** `quote.router or ""`. */
  function RouterOf(quote: Swap.Quote): string {
    if quote.router.Some? then quote.router.value else ""
  }

  /** build_token_swap. */
  function BuildToken(s: Setup, quote: Swap.Quote, request: Swap.SwapRequest): Result<TokenSwap> {
    var contract :- OrError(AfterDash(request.fromAsset));
    var token :- ToChecksumAddress(contract, s.keccak);
    var router :- ToChecksumAddress(RouterOf(quote), s.keccak);
    var vault :- ToChecksumAddress(quote.inboundAddress, s.keccak);
    var memo := quote.Memo();
    var native := Coins.FloorToNative(request.amount, s.decimalsOf(contract));
    var approve :- OrError(s.abi.encodeApprove(router, native));
    var deposit :- OrError(s.abi.encodeDeposit(DepositArgs(vault, token, native, memo, quote.expiry)));
    Success(TokenSwap(
      EthTx(CHAIN_ID, s.nonce, token, 0, APPROVE_GAS, s.maxFeePerGas, s.maxPriorityFeePerGas,
            Calldata(APPROVE_SELECTOR, approve)),
      EthTx(CHAIN_ID, s.nonce + 1, router, 0, TOKEN_DEPOSIT_GAS, s.maxFeePerGas, s.maxPriorityFeePerGas,
            Calldata(DEPOSIT_SELECTOR, deposit)),
      token, router, vault, native, memo, quote.expiry))
  }

  /** _decode_call up to the ABI decoder: the argument bytes, if the calldata is hex and the selector fits. */
  function ArgsOf(data: string, selector: bytes): Option<bytes>
    requires |selector| == 4
  {
    var hex := if |data| >= 2 && data[..2] == "0x" then data[2..] else data;
    match FromHex(hex)
    case Failure(_) => None
    case Success(raw) => if |raw| >= 4 && raw[..4] == selector then Some(raw[4..]) else None
  }

  function DecodedApprove(abi: Abi, data: string): Option<(string, int)> {
    match ArgsOf(data, APPROVE_SELECTOR)
    case None => None
    case Some(args) => abi.decodeApprove(args)
  }

  function DecodedDeposit(abi: Abi, data: string): Option<DepositArgs> {
    match ArgsOf(data, DEPOSIT_SELECTOR)
    case None => None
    case Some(args) => abi.decodeDeposit(args)
  }

  /** Calldata without its 0x, if it has one. */
  function CallBody(data: string): string {
    if "0x" <= data then data[2..] else data
  }

  /** The two calls are told apart by their first four bytes, and decoded from the rest. */
  lemma DecodingMeaning(abi: Abi, data: string, args: bytes)
    ensures FromHex(CallBody(data)) == Success([0x09, 0x5e, 0xa7, 0xb3] + args) ==>
      DecodedApprove(abi, data) == abi.decodeApprove(args)
    ensures FromHex(CallBody(data)) == Success([0x44, 0xbc, 0x93, 0x7b] + args) ==>
      DecodedDeposit(abi, data) == abi.decodeDeposit(args)
  {
    assert "0x" <= data <==> |data| >= 2 && data[..2] == "0x";
    if FromHex(CallBody(data)).Success? {
      var raw := FromHex(CallBody(data)).value;
      assert raw == [0x09, 0x5e, 0xa7, 0xb3] + args ==> raw[..4] == APPROVE_SELECTOR && raw[4..] == args;
      assert raw == [0x44, 0xbc, 0x93, 0x7b] + args ==> raw[..4] == DEPOSIT_SELECTOR && raw[4..] == args;
    }
  }

  /** Nothing else is decoded. */
  lemma DecodedOnlyThen(abi: Abi, data: string)
    ensures DecodedApprove(abi, data).Some? ==>
      exists args: bytes :: FromHex(CallBody(data)) == Success([0x09, 0x5e, 0xa7, 0xb3] + args)
    ensures DecodedDeposit(abi, data).Some? ==>
      exists args: bytes :: FromHex(CallBody(data)) == Success([0x44, 0xbc, 0x93, 0x7b] + args)
  {
    assert "0x" <= data <==> |data| >= 2 && data[..2] == "0x";
    if FromHex(CallBody(data)).Success? && |FromHex(CallBody(data)).value| >= 4 {
      var raw := FromHex(CallBody(data)).value;
      assert raw == raw[..4] + raw[4..];
    }
  }

  function AddApprove(problems: seq<Problem>, abi: Abi, b: TokenSwap): seq<Problem> {
    match DecodedApprove(abi, b.approveTx.data)
    case None => problems + [Undecodable(true)]
    case Some((spender, allowance)) =>
      Note(Note(problems, Lower(spender) != Lower(b.router), WrongField(ApproveSpender)),
           allowance != b.nativeAmount, WrongField(ApproveAmount))
  }

  function AddDeposit(problems: seq<Problem>, abi: Abi, b: TokenSwap, destination: string): seq<Problem> {
    match DecodedDeposit(abi, b.depositTx.data)
    case None => problems + [Undecodable(false)]
    case Some(a) =>
      var vault := Note(problems, Lower(a.vault) != Lower(b.vault), WrongField(DepositVault));
      var token := Note(vault, Lower(a.token) != Lower(b.token), WrongField(DepositToken));
      var amount := Note(token, a.amount != b.nativeAmount, WrongField(DepositAmount));
      var memo := Note(amount, a.memo != b.memo, WrongField(DepositMemo));
      var expiry := Note(memo, a.expiry != b.expiry, WrongField(DepositExpiry));
      Note(expiry, !MemoPays(destination, a.memo), DestinationNotPaid)
  }

  /** The checks that need no decoding: time, targets, values and chains. */
  function HeaderProblems(b: TokenSwap, now: int): seq<Problem> {
    var a, d := b.approveTx, b.depositTx;
    var timely := Note([], now >= b.expiry, QuoteExpired(now, b.expiry));
    var approved := Note(timely, Lower(a.to) != Lower(b.token), WrongTarget(a.to));
    var routed := Note(approved, Lower(d.to) != Lower(b.router), WrongTarget(d.to));
    var free := Note(routed, a.value != 0 || d.value != 0, WrongValue(a.value + d.value));
    Note(free, a.chainId != CHAIN_ID || d.chainId != CHAIN_ID, WrongChain(d.chainId))
  }

  function TokenProblems(abi: Abi, b: TokenSwap, destination: string, now: int, maxFeeWei: int): seq<Problem> {
    var bound := AddDeposit(AddApprove(HeaderProblems(b, now), abi, b), abi, b, destination);
    Note(bound, b.Fee() > maxFeeWei, FeeTooHigh(b.Fee()))
  }

  /** verify_eth_token_swap. */
  method VerifyTokenSwap(abi: Abi, b: TokenSwap, destination: string, now: int, maxFeeWei: int)
    returns (problems: seq<Problem>)
    ensures problems == TokenProblems(abi, b, destination, now, maxFeeWei)
  {
    problems := CheckHeader(b, now);
    problems := CheckApprove(problems, abi, b);
    problems := CheckDeposit(problems, abi, b, destination);
    var fee := b.Fee();
    if fee > maxFeeWei {
      problems := problems + [FeeTooHigh(fee)];
    }
  }

  method CheckHeader(b: TokenSwap, now: int) returns (problems: seq<Problem>)
    ensures problems == HeaderProblems(b, now)
  {
    problems := [];
    var approve, deposit := b.approveTx, b.depositTx;
    if now >= b.expiry {
      problems := problems + [QuoteExpired(now, b.expiry)];
    }
    if Lower(approve.to) != Lower(b.token) {
      problems := problems + [WrongTarget(approve.to)];
    }
    if Lower(deposit.to) != Lower(b.router) {
      problems := problems + [WrongTarget(deposit.to)];
    }
    if approve.value != 0 || deposit.value != 0 {
      problems := problems + [WrongValue(approve.value + deposit.value)];
    }
    if approve.chainId != CHAIN_ID || deposit.chainId != CHAIN_ID {
      problems := problems + [WrongChain(deposit.chainId)];
    }
  }

  method CheckApprove(before: seq<Problem>, abi: Abi, b: TokenSwap) returns (problems: seq<Problem>)
    ensures problems == AddApprove(before, abi, b)
  {
    problems := before;
    match DecodedApprove(abi, b.approveTx.data) {
      case None => problems := problems + [Undecodable(true)];
      case Some((spender, allowance)) =>
        if Lower(spender) != Lower(b.router) {
          problems := problems + [WrongField(ApproveSpender)];
        }
        if allowance != b.nativeAmount {
          problems := problems + [WrongField(ApproveAmount)];
        }
    }
  }

  method CheckDeposit(before: seq<Problem>, abi: Abi, b: TokenSwap,
                      destination: string) returns (problems: seq<Problem>)
    ensures problems == AddDeposit(before, abi, b, destination)
  {
    problems := before;
    match DecodedDeposit(abi, b.depositTx.data) {
      case None => problems := problems + [Undecodable(false)];
      case Some(a) =>
        if Lower(a.vault) != Lower(b.vault) {
          problems := problems + [WrongField(DepositVault)];
        }
        if Lower(a.token) != Lower(b.token) {
          problems := problems + [WrongField(DepositToken)];
        }
        if a.amount != b.nativeAmount {
          problems := problems + [WrongField(DepositAmount)];
        }
        if a.memo != b.memo {
          problems := problems + [WrongField(DepositMemo)];
        }
        if a.expiry != b.expiry {
          problems := problems + [WrongField(DepositExpiry)];
        }
        if !MemoPays(destination, a.memo) {
          problems := problems + [DestinationNotPaid];
        }
    }
  }

  /** An approval of exactly the deposited amount for the router, and a deposit of it to the vault with the memo. */
  predicate TokenMatches(abi: Abi, b: TokenSwap, destination: string, now: int, maxFeeWei: int) {
    && now < b.expiry
    && b.approveTx.gas * b.approveTx.maxFeePerGas + b.depositTx.gas * b.depositTx.maxFeePerGas <= maxFeeWei
    && Lower(b.approveTx.to) == Lower(b.token) && Lower(b.depositTx.to) == Lower(b.router)
    && b.approveTx.value == 0 && b.depositTx.value == 0
    && b.approveTx.chainId == 1 && b.depositTx.chainId == 1
    && var approve := DecodedApprove(abi, b.approveTx.data);
       var deposit := DecodedDeposit(abi, b.depositTx.data);
       && approve.Some? && deposit.Some?
       && approve.value.1 == deposit.value.amount == b.nativeAmount
       && Lower(approve.value.0) == Lower(b.depositTx.to)
       && Lower(deposit.value.token) == Lower(b.approveTx.to)
       && Lower(deposit.value.vault) == Lower(b.vault)
       && deposit.value.memo == b.memo && deposit.value.expiry == b.expiry
       && MemoPays(destination, deposit.value.memo)
  }

  /** The token gate is silent exactly when the two calls are one deposit of the intended amount. */
  lemma TokenGate(abi: Abi, b: TokenSwap, destination: string, now: int, maxFeeWei: int)
    ensures TokenProblems(abi, b, destination, now, maxFeeWei) == []
      <==> TokenMatches(abi, b, destination, now, maxFeeWei)
  {
    ApproveClean(HeaderProblems(b, now), abi, b);
    DepositClean(AddApprove(HeaderProblems(b, now), abi, b), abi, b, destination);
  }

  lemma ApproveClean(problems: seq<Problem>, abi: Abi, b: TokenSwap)
    ensures AddApprove(problems, abi, b) == [] <==>
      && problems == []
      && var approve := DecodedApprove(abi, b.approveTx.data);
         approve.Some? && Lower(approve.value.0) == Lower(b.router) && approve.value.1 == b.nativeAmount
  {
  }

  lemma DepositClean(problems: seq<Problem>, abi: Abi, b: TokenSwap, destination: string)
    ensures AddDeposit(problems, abi, b, destination) == [] <==>
      && problems == []
      && var deposit := DecodedDeposit(abi, b.depositTx.data);
         && deposit.Some?
         && Lower(deposit.value.vault) == Lower(b.vault) && Lower(deposit.value.token) == Lower(b.token)
         && deposit.value.amount == b.nativeAmount && deposit.value.memo == b.memo && deposit.value.expiry == b.expiry
         && MemoPays(destination, deposit.value.memo)
  {
  }

  ghost predicate HeaderReport(p: Problem, b: TokenSwap, now: int) {
    var a, d := b.approveTx, b.depositTx;
    || (now >= b.expiry && p == QuoteExpired(now, b.expiry))
    || (Lower(a.to) != Lower(b.token) && p == WrongTarget(a.to))
    || (Lower(d.to) != Lower(b.router) && p == WrongTarget(d.to))
    || ((a.value != 0 || d.value != 0) && p == WrongValue(a.value + d.value))
    || ((a.chainId != 1 || d.chainId != 1) && p == WrongChain(d.chainId))
  }

  ghost predicate ApproveReport(p: Problem, abi: Abi, b: TokenSwap) {
    match DecodedApprove(abi, b.approveTx.data)
    case None => p == Undecodable(true)
    case Some((spender, allowance)) =>
      || (Lower(spender) != Lower(b.router) && p == WrongField(ApproveSpender))
      || (allowance != b.nativeAmount && p == WrongField(ApproveAmount))
  }

  ghost predicate DepositReport(p: Problem, abi: Abi, b: TokenSwap, destination: string) {
    match DecodedDeposit(abi, b.depositTx.data)
    case None => p == Undecodable(false)
    case Some(a) =>
      || (Lower(a.vault) != Lower(b.vault) && p == WrongField(DepositVault))
      || (Lower(a.token) != Lower(b.token) && p == WrongField(DepositToken))
      || (a.amount != b.nativeAmount && p == WrongField(DepositAmount))
      || (a.memo != b.memo && p == WrongField(DepositMemo))
      || (a.expiry != b.expiry && p == WrongField(DepositExpiry))
      || (!MemoPays(destination, a.memo) && p == DestinationNotPaid)
  }

  lemma HeaderReported(p: Problem, b: TokenSwap, now: int)
    ensures p in HeaderProblems(b, now) <==> HeaderReport(p, b, now)
  {
    var a, d := b.approveTx, b.depositTx;
    var timely := Note([], now >= b.expiry, QuoteExpired(now, b.expiry));
    var approved := Note(timely, Lower(a.to) != Lower(b.token), WrongTarget(a.to));
    var routed := Note(approved, Lower(d.to) != Lower(b.router), WrongTarget(d.to));
    NoteReported(p, [], now >= b.expiry, QuoteExpired(now, b.expiry));
    NoteReported(p, timely, Lower(a.to) != Lower(b.token), WrongTarget(a.to));
    NoteReported(p, approved, Lower(d.to) != Lower(b.router), WrongTarget(d.to));
    NoteReported(p, routed, a.value != 0 || d.value != 0, WrongValue(a.value + d.value));
  }

  lemma ApproveReported(p: Problem, problems: seq<Problem>, abi: Abi, b: TokenSwap)
    ensures p in AddApprove(problems, abi, b) <==> p in problems || ApproveReport(p, abi, b)
  {
  }

  lemma DepositReported(p: Problem, problems: seq<Problem>, abi: Abi, b: TokenSwap, destination: string)
    ensures p in AddDeposit(problems, abi, b, destination) <==> p in problems || DepositReport(p, abi, b, destination)
  {
    match DecodedDeposit(abi, b.depositTx.data) {
      case None =>
      case Some(a) =>
        var vault := Note(problems, Lower(a.vault) != Lower(b.vault), WrongField(DepositVault));
        var token := Note(vault, Lower(a.token) != Lower(b.token), WrongField(DepositToken));
        var amount := Note(token, a.amount != b.nativeAmount, WrongField(DepositAmount));
        var memo := Note(amount, a.memo != b.memo, WrongField(DepositMemo));
        var expiry := Note(memo, a.expiry != b.expiry, WrongField(DepositExpiry));
        NoteReported(p, problems, Lower(a.vault) != Lower(b.vault), WrongField(DepositVault));
        NoteReported(p, vault, Lower(a.token) != Lower(b.token), WrongField(DepositToken));
        NoteReported(p, token, a.amount != b.nativeAmount, WrongField(DepositAmount));
        NoteReported(p, amount, a.memo != b.memo, WrongField(DepositMemo));
        NoteReported(p, memo, a.expiry != b.expiry, WrongField(DepositExpiry));
        NoteReported(p, expiry, !MemoPays(destination, a.memo), DestinationNotPaid);
    }
  }

  /** The token gate reports every mismatch, naming the field, and nothing else. */
  lemma TokenReports(p: Problem, abi: Abi, b: TokenSwap, destination: string, now: int, maxFeeWei: int)
    ensures p in TokenProblems(abi, b, destination, now, maxFeeWei) <==>
      || HeaderReport(p, b, now) || ApproveReport(p, abi, b) || DepositReport(p, abi, b, destination)
      || (b.Fee() > maxFeeWei && p == FeeTooHigh(b.Fee()))
  {
    var header := HeaderProblems(b, now);
    HeaderReported(p, b, now);
    ApproveReported(p, header, abi, b);
    DepositReported(p, AddApprove(header, abi, b), abi, b, destination);
  }

  /** Calldata splits back into its selector and arguments. */
  lemma ArgsOfCalldata(selector: bytes, args: bytes)
    requires |selector| == 4
    ensures ArgsOf(Calldata(selector, args), selector) == Some(args)
  {
    var data := Calldata(selector, args);
    HexConcat(selector, args);
    assert data == "0x" + Hex(selector + args);
    assert data[..2] == "0x" && data[2..] == Hex(selector + args);
    FromHexOfHex(selector + args);
    assert (selector + args)[..4] == selector && (selector + args)[4..] == args;
  }

  /**
   Build, then gate, for tokens: given a codec that decodes what it encoded, a built pair passes if and only
   if the quote is unexpired, both worst-case fees together are within the limit and the memo pays the
   destination.
   */
  lemma TokenVerdict(s: Setup, quote: Swap.Quote, request: Swap.SwapRequest, now: int)
    requires RoundTrips(s.abi) && BuildToken(s, quote, request).Success?
    ensures var b := BuildToken(s, quote, request).value;
      TokenProblems(s.abi, b, request.destination, now, s.maxFeeWei) == [] <==>
        && now < quote.expiry
        && 270000 * s.maxFeePerGas <= s.maxFeeWei
        && MemoPays(request.destination, quote.Memo())
  {
    var b := BuildToken(s, quote, request).value;
    TokenGate(s.abi, b, request.destination, now, s.maxFeeWei);
    BuiltTokenDecodes(s, quote, request);
    BuiltTokenShape(s, quote, request);
    LowerIdempotent(b.router);
    LowerIdempotent(b.token);
    LowerIdempotent(b.vault);
  }

  /** What needs no decoding in a built pair. */
  lemma BuiltTokenShape(s: Setup, quote: Swap.Quote, request: Swap.SwapRequest)
    requires BuildToken(s, quote, request).Success?
    ensures var b := BuildToken(s, quote, request).value;
      && b.approveTx.to == b.token && b.depositTx.to == b.router
      && b.approveTx.value == 0 == b.depositTx.value
      && b.approveTx.chainId == 1 == b.depositTx.chainId
      && b.approveTx.gas == 70000 && b.depositTx.gas == 200000
      && b.approveTx.maxFeePerGas == s.maxFeePerGas == b.depositTx.maxFeePerGas
      && b.approveTx.maxPriorityFeePerGas == s.maxPriorityFeePerGas == b.depositTx.maxPriorityFeePerGas
      && b.Fee() == 270000 * s.maxFeePerGas
      && b.approveTx.nonce == s.nonce && b.depositTx.nonce == s.nonce + 1
      && b.memo == quote.Memo() && b.expiry == quote.expiry
  {
  }

  /** With plain addresses a pair is built exactly when the codec accepts the checksummed fields. */
  lemma TokenBuildsIff(s: Setup, quote: Swap.Quote, request: Swap.SwapRequest, contract: string)
    requires AfterDash(request.fromAsset) == Some(contract)
    requires PlainAddress(contract) && PlainAddress(RouterOf(quote)) && PlainAddress(quote.inboundAddress)
    ensures var token := ToChecksumAddress(contract, s.keccak);
      var router := ToChecksumAddress(RouterOf(quote), s.keccak);
      var vault := ToChecksumAddress(quote.inboundAddress, s.keccak);
      var native := Coins.FloorToNative(request.amount, s.decimalsOf(contract));
      && token.Success? && router.Success? && vault.Success?
      && (BuildToken(s, quote, request).Success? <==>
          && s.abi.encodeApprove(router.value, native).Some?
          && s.abi.encodeDeposit(DepositArgs(vault.value, token.value, native, quote.Memo(), quote.expiry)).Some?)
  {
    PlainIsChecksummable(contract, s.keccak);
    PlainIsChecksummable(RouterOf(quote), s.keccak);
    PlainIsChecksummable(quote.inboundAddress, s.keccak);
  }

  const WORD := 0x1_0000_0000_0000_0000_0000_0000_0000_0000_0000_0000_0000_0000_0000_0000_0000_0000

  predicate FitsWord(n: int) {
    0 <= n < WORD
  }

  /** Of plain checksummed addresses the codec refuses nothing but numbers outside uint256. */
  ghost predicate EncodesWords(s: Setup) {
    && (forall addr: string, amount: int :: PlainAddress(addr) && ToChecksumAddress(addr, s.keccak) == Success(addr) ==>
          (s.abi.encodeApprove(addr, amount).Some? <==> FitsWord(amount)))
    && (forall a: DepositArgs ::
          PlainAddress(a.vault) && ToChecksumAddress(a.vault, s.keccak) == Success(a.vault)
          && PlainAddress(a.token) && ToChecksumAddress(a.token, s.keccak) == Success(a.token) ==>
            (s.abi.encodeDeposit(a).Some? <==> FitsWord(a.amount) && FitsWord(a.expiry)))
  }

  /** Then a pair is built exactly when the token amount and the expiry fit their words. */
  lemma TokenBuildsWhenItFits(s: Setup, quote: Swap.Quote, request: Swap.SwapRequest, contract: string)
    requires EncodesWords(s) && AfterDash(request.fromAsset) == Some(contract)
    requires PlainAddress(contract) && PlainAddress(RouterOf(quote)) && PlainAddress(quote.inboundAddress)
    ensures BuildToken(s, quote, request).Success? <==>
      FitsWord(Coins.FloorToNative(request.amount, s.decimalsOf(contract))) && FitsWord(quote.expiry)
  {
    TokenBuildsIff(s, quote, request, contract);
    PlainStaysPlain(contract, s.keccak);
    PlainStaysPlain(RouterOf(quote), s.keccak);
    PlainStaysPlain(quote.inboundAddress, s.keccak);
  }

  lemma PlainStaysPlain(addr: string, keccak: bytes -> Digest)
    requires PlainAddress(addr)
    ensures var r := ToChecksumAddress(addr, keccak);
      r.Success? && PlainAddress(r.value) && ToChecksumAddress(r.value, keccak) == r
  {
    ChecksumOfPlainAddress(addr, keccak);
    PlainFollowsLower(addr, ToChecksumAddress(addr, keccak).value);
  }

  lemma {:induction false} PlainFollowsLower(a: string, b: string)
    requires PlainHexAddress(a) && Lower(a) == Lower(b)
    ensures PlainHexAddress(b) && |b| == |a|
  {
    assert |a| == |Lower(a)| == |Lower(b)| == |b|;
    LowerSplit(a);
    LowerSplit(b);
    forall i | 2 <= i < |b| ensures HexValue(b[i]).Some? {
      assert LowerChar(a[i]) == Lower(a)[i] == LowerChar(b[i]);
    }
  }

  /** What the gate decodes from the two calls is what the builder encoded into them. */
  lemma {:induction false} CallsDecode(abi: Abi, router: string, a: DepositArgs)
    requires RoundTrips(abi) && HasPrefix(router) && HasPrefix(a.vault) && HasPrefix(a.token)
    requires abi.encodeApprove(router, a.amount).Some? && abi.encodeDeposit(a).Some?
    ensures DecodedApprove(abi, Calldata(APPROVE_SELECTOR, abi.encodeApprove(router, a.amount).value))
      == Some((Lower(router), a.amount))
    ensures DecodedDeposit(abi, Calldata(DEPOSIT_SELECTOR, abi.encodeDeposit(a).value))
      == Some(DepositArgs(Lower(a.vault), Lower(a.token), a.amount, a.memo, a.expiry))
  {
    ArgsOfCalldata(APPROVE_SELECTOR, abi.encodeApprove(router, a.amount).value);
    ArgsOfCalldata(DEPOSIT_SELECTOR, abi.encodeDeposit(a).value);
  }

  /** How a built pair was encoded. */
  lemma BuiltTokenCalls(s: Setup, quote: Swap.Quote, request: Swap.SwapRequest)
    requires BuildToken(s, quote, request).Success?
    ensures var b := BuildToken(s, quote, request).value;
      var approve := s.abi.encodeApprove(b.router, b.nativeAmount);
      var deposit := s.abi.encodeDeposit(DepositArgs(b.vault, b.token, b.nativeAmount, b.memo, b.expiry));
      && approve.Some? && b.approveTx.data == Calldata(APPROVE_SELECTOR, approve.value)
      && deposit.Some? && b.depositTx.data == Calldata(DEPOSIT_SELECTOR, deposit.value)
      && HasPrefix(b.router) && HasPrefix(b.vault) && HasPrefix(b.token)
  {
    ChecksumIsPrefixed(AfterDash(request.fromAsset).value, s.keccak);
    ChecksumIsPrefixed(RouterOf(quote), s.keccak);
    ChecksumIsPrefixed(quote.inboundAddress, s.keccak);
  }

  lemma BuiltTokenDecodes(s: Setup, quote: Swap.Quote, request: Swap.SwapRequest)
    requires RoundTrips(s.abi) && BuildToken(s, quote, request).Success?
    ensures var b := BuildToken(s, quote, request).value;
      && DecodedApprove(s.abi, b.approveTx.data) == Some((Lower(b.router), b.nativeAmount))
      && DecodedDeposit(s.abi, b.depositTx.data)
        == Some(DepositArgs(Lower(b.vault), Lower(b.token), b.nativeAmount, b.memo, b.expiry))
  {
    var b := BuildToken(s, quote, request).value;
    BuiltTokenCalls(s, quote, request);
    CallsDecode(s.abi, b.router, DepositArgs(b.vault, b.token, b.nativeAmount, b.memo, b.expiry));
  }
}
