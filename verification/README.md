# Verification of cryptoswap-wallet's money path

A Dafny model of what a hot wallet does with money, from the funds it finds to the transaction it signs and
posts, with proofs that

* scanning finds the funds (a windowed gap-limit scan, its bound, and how it relates to the plain scan);
* coin selection, fees and sweeps are optimal and conserve value;
* addresses and memos survive their encodings (base 58, hex with EIP-55 case, UTF-8, OP_RETURN);
* the gates accept exactly the transactions that match their plans, and accept what the builders build;
* over any number of runs, whatever reaches the network is a transaction that pays the quoted vault exactly
  the requested amount, says exactly the quoted memo, returns the rest, and costs at most the fee limit;
* nothing more is asked than that: a confirmed swap that clears the checks and can be afforded is posted.

`dafny verify dfyconfig.toml` checks everything (Dafny 4.11).

## How the model is organised

| file | models |
|---|---|
| Coins.dfy | chains/coins.py: OP_RETURN scripts, fees, greedy selection, sweeps, token amounts |
| Scan.dfy | chains/scan.py: the gap-limit scan |
| Tron.dfy | chains/tron.py: base58check, addresses, exact amounts; the TRON rule of addresses.py |
| Verify.dfy | verify.py: the Bitcoin and native-ether gates |
| Btc.dfy | chains/btc.py: the transaction object, builder, extraction, gate calls, signing, balance |
| Eth.dfy | chains/eth.py: checksum addresses, sweeps, native and token deposits, the token gate |
| Swap.dfy | swap.py: preparation, execution, and the log of what was signed and posted |
| BtcRuns.dfy, EthRuns.dfy | both adapters under the orchestrator, over whole runs |
| Radix.dfy, Text.dfy, Utf8.dfy, Wrappers.dfy | numerals, Python's text helpers, UTF-8, results |

Loops and objects of the program are methods and classes here; each is proved equal to a function, and the
results below are lemmas about those functions. A gate's function builds the same list of problems in the
same order as the gate; what an empty list means is a separate predicate and an if-and-only-if lemma.
What the helpers and constants come to is said in literals, without naming them: lemmas called ...InNumbers,
...Meaning, ...Bytes or ...Reports, and the predicates `Btc.Consists`, `EthRuns.SafeNative` and `EthRuns.ForQuote`.

Fee rates are exact reals. Hash functions, the network, the quote service, address derivation, signing and the
ABI codec are arbitrary functions passed in as parameters; of the ABI codec only "decoding gives back what was
encoded, for prefixed addresses" is assumed (`Eth.RoundTrips`), and for one lemma that it refuses only numbers
outside uint256 (`Eth.EncodesWords`). Strings are sequences of Unicode scalar values. `{:induction false}` keeps
Dafny from adding an induction hypothesis of its own; where such a lemma is inductive, its body makes the
recursive call.

## Where code and documentation differ

* scan.py says it stops after `gap_limit` consecutive unused addresses. It stops at the end of a window, so it
  may look further and find more; `Scan.SameAsPlainIff` says exactly when, `Scan.WindowMayReachFurther` shows a
  wallet where it does.
* coins.py calls decode_op_return the inverse of encode_op_return. It also accepts truncated, over-long and
  oddly pushed scripts; `Coins.DecodeIsInverseOnlyOnCanonical` says exactly which scripts re-encode to themselves,
  `Coins.TruncatedPushDecodes` shows one that does not.
* to_checksum_address is described for 20-byte addresses but does not check the length; more than 32 bytes are cut
  off (`Eth.ChecksumKeepsAddress`, for 33 bytes `Eth.LongAddressIsCut`), and white space is skipped, so the native
  gate passes exactly on plain addresses (`Eth.ChecksumMatchesIff`, `Eth.NativeVerdict`). On addresses of 40 hex
  digits all is as described (`Eth.ChecksumOfPlainAddress`).
* The native-ether plan always expects chain 1 while the builder uses the adapter's chain, so a test-network
  adapter builds deposits its own gate refuses (`Eth.NativeVerdict`; on Sepolia `Eth.TestnetIsRefused`).
* A plain ether send is compared with its own target, so that comparison can never fail (`Eth.NativeSendVerdict`);
  a recipient of one byte passes (`Eth.ShortRecipientPasses`).

## Model

| member | source | states |
|---|---|---|
| Coins.OpReturnRoundTrip | src/cryptoswap_wallet/chains/coins.py:45-66 | data is encoded iff it has at most 80 bytes, and then decodes to itself in both push forms |
| Coins.OpReturnBytes | src/cryptoswap_wallet/chains/coins.py:45-53 | the scripts byte by byte: 6A, a one-byte push up to 75 bytes, 4C from 76 to 80, a refusal beyond |
| Coins.DecodeReadsPush | src/cryptoswap_wallet/chains/coins.py:56-66 | decoding yields the bytes the push announces, as far as they go, and ignores what follows; fails iff opcode or push is missing |
| Coins.OpReturnInjective | src/cryptoswap_wallet/chains/coins.py:45-53 | no two memos share a script |
| Coins.DecodeIsInverseOnlyOnCanonical | src/cryptoswap_wallet/chains/coins.py:56-66 | decoding then encoding returns the script iff the script is canonical |
| Coins.TruncatedPushDecodes | src/cryptoswap_wallet/chains/coins.py:56-66 | a script that decodes and does not re-encode to itself |
| Coins.SortIsStablePermutation | src/cryptoswap_wallet/chains/coins.py:137 | the sort is a descending permutation that keeps the order of equal values |
| Coins.SelectCoins | src/cryptoswap_wallet/chains/coins.py:121-152 | the greedy loop computes the first prefix of the sorted coins that settles, or fails |
| Coins.VsizeInNumbers | src/cryptoswap_wallet/chains/coins.py:69-83 | 11 vbytes, 68 an input, 31 an output, and 11 more than its length for a memo |
| Coins.FeeInNumbers | src/cryptoswap_wallet/chains/coins.py:102 | a fee is the least whole number of satoshis that pays the rate for that size |
| Coins.SelectionConserves | src/cryptoswap_wallet/chains/coins.py:141-150 | inputs are a sub-multiset of the coins; their sum is amount + fee + change; change is 0 or at least dust; the fee is tight on both exits |
| Coins.SelectionInNumbers | src/cryptoswap_wallet/chains/coins.py:135-152 | the largest coins, as few as can pay; with change, at least 294 and the least fee for two outputs and the memo; without, a fee between those for one and two outputs plus dust |
| Coins.LargestAreWorthMost | src/cryptoswap_wallet/chains/coins.py:137-139 | the k largest coins are worth at least any k coins (exchange argument) |
| Coins.SelectionUsesFewestInputs | src/cryptoswap_wallet/chains/coins.py:135-152 | if any k coins fund the payment, selection succeeds with at most k inputs |
| Coins.InsufficientIffNoSubsetFunds | src/cryptoswap_wallet/chains/coins.py:135-152 | InsufficientFunds exactly when no non-empty subset funds the payment |
| Coins.SweepIsMaximal | src/cryptoswap_wallet/chains/coins.py:86-104 | send + fee is the total; an amount is fundable from all inputs iff it is at most the swept one; failure means nothing from dust up is fundable |
| Coins.SweepInNumbers | src/cryptoswap_wallet/chains/coins.py:86-104 | the fee is the least for 11 + 68n + 31 vbytes and the memo; refused iff less than 294 would remain; the memo counts 80 bytes by default |
| Coins.SweepAgreesWithSelection | src/cryptoswap_wallet/chains/coins.py:86-152 | selecting for a swept amount succeeds, and with all coins pays the same fee and no change |
| Coins.EmptySweepIsRefused | src/cryptoswap_wallet/chains/coins.py:86-152 | without coins, fee and dust limit a sweep of 0 is computed that selection refuses |
| Coins.DefaultMemoNeverUnderestimates | src/cryptoswap_wallet/chains/coins.py:86-104 | the default memo length never reserves less fee than a memo of at most 80 bytes needs |
| Coins.TokenSweepRoundTrip | src/cryptoswap_wallet/chains/coins.py:107-118 | back in native units the swept balance is exact for up to 8 decimals and short by less than one unit beyond; refused iff below one unit |
| Coins.NativeInNumbers | src/cryptoswap_wallet/chains/eth.py:440 | rounding to native units loses less than one unit up to 8 decimals, and nothing beyond |
| Scan.ScanBranch | src/cryptoswap_wallet/chains/scan.py:41-56 | wherever some window end closes the gap, the loop halts at the first one and returns exactly the used addresses below it |
| Scan.StopsIffCloses | src/cryptoswap_wallet/chains/scan.py:42-43 | there is a first such window end iff there is any |
| Scan.QuietCloses | src/cryptoswap_wallet/chains/scan.py:42-56 | addresses unused from some index on close every gap, so the loop halts |
| Scan.BusyTailStillCloses | src/cryptoswap_wallet/chains/scan.py:42-56 | a branch used without end beyond a gap, on which the scan halts and finds nothing |
| Scan.ScanAccount | src/cryptoswap_wallet/chains/scan.py:26-57 | every branch in turn, each up to its own stop: a record is found iff it is of a used address below the stop, with path account/branch/index, the address derived there and its probe |
| Scan.ScanFindsUsed | src/cryptoswap_wallet/chains/scan.py:41-56 | the same for the records of any scan: none missing, none besides |
| Scan.RecordsAreTheUsedOnes | src/cryptoswap_wallet/chains/scan.py:50-55 | the records are the used indices below the stop, in order |
| Scan.ScanIsDistinct | src/cryptoswap_wallet/chains/scan.py:37-57 | over different branches, no derivation path is reported twice in a whole scan |
| Scan.ProbesBounded | src/cryptoswap_wallet/chains/scan.py:42-56 | with no history from m on, fewer than m + gap_limit + window addresses are probed |
| Scan.WindowedExtendsPlain | src/cryptoswap_wallet/chains/scan.py:42-56 | the one-address-at-a-time scan's result is a prefix of the windowed one |
| Scan.SameAsPlainIff | src/cryptoswap_wallet/chains/scan.py:42-56 | they agree iff the rest of the window where the plain scan stops is unused |
| Scan.WindowMayReachFurther | src/cryptoswap_wallet/chains/scan.py:42-56 | a wallet on which they differ |
| Scan.NothingMissed | src/cryptoswap_wallet/chains/scan.py:37-57 | a used address is found unless it hides behind a gap |
| Text.DecimalMeaning | src/cryptoswap_wallet/chains/scan.py:46 | branch and index in a path are digits that read back to the number, without a leading zero |
| Tron.Base58CheckEncode | src/cryptoswap_wallet/chains/tron.py:129-138 | the digit loop and the padding compute a string that decodes to the payload and the first four bytes of its double SHA-256 |
| Tron.Base58Meaning | src/cryptoswap_wallet/chains/tron.py:131-138 | the string is the same number in base 58, with a 1 for each leading zero byte |
| Tron.AlphabetMeaning | src/cryptoswap_wallet/chains/tron.py:134-135 | digits are places in the alphabet without 0, O, I and l |
| Tron.DeriveAddress | src/cryptoswap_wallet/chains/tron.py:175-177 | the address of an account, which `Tron.AddressDecodes` decodes |
| Tron.Base58RoundTrip | src/cryptoswap_wallet/chains/tron.py:131-138 | a decoder recovers every byte string, leading zeros included |
| Tron.Base58Onto | src/cryptoswap_wallet/chains/tron.py:131-138 | every string over the alphabet encodes what it decodes to |
| Tron.Base58CheckInjective | src/cryptoswap_wallet/chains/tron.py:129-138 | different payloads have different strings, for any hash |
| Tron.AddressDecodes | src/cryptoswap_wallet/chains/tron.py:175-177 | an address decodes to 41, the account, and the double hash's first four bytes |
| Tron.AddressShape | src/cryptoswap_wallet/chains/tron.py:175-177 | prefix 0x41 and 20 bytes give 34 characters of the alphabet, the first a T |
| Tron.AddressesAreAccepted | src/cryptoswap_wallet/addresses.py:29-47 | own addresses pass the destination rule, and tell accounts apart |
| Tron.RuleMeaning | src/cryptoswap_wallet/addresses.py:29-47 | a destination passes iff it is a T and 33 alphabet characters, with or without a final newline |
| Tron.SunIsExact | src/cryptoswap_wallet/chains/tron.py:258-267 | an amount converts to sun iff it is exactly that many hundreds; a whole coin of 10^8 units is 10^6 sun |
| Tron.StrictAgreesWithFloor | src/cryptoswap_wallet/chains/tron.py:283-300 | the strict conversion accepts iff the rounding one loses nothing, then agrees with it, and always accepts a swept balance |
| Utf8.DecodesToExactly | src/cryptoswap_wallet/verify.py:105-114 | decoding to the memo is the same as being the memo's bytes |
| Utf8.EncodeCharTable | src/cryptoswap_wallet/verify.py:105-114 | length, marker bits and payload of each character's bytes, as in RFC 3629 |
| Verify.MemoPaysMeaning | src/cryptoswap_wallet/verify.py:20-33 | exact match for case-sensitive addresses, match up to case for 0x ones, stable under re-casing |
| Text.ContainsMeaning | src/cryptoswap_wallet/verify.py:30-33 | containment is being cut out of the middle |
| Text.CaseFollowsAlphabets | src/cryptoswap_wallet/verify.py:31-32 | the letters of one alphabet become those of the other, other characters stay |
| Verify.VerifyBtcSwap | src/cryptoswap_wallet/verify.py:60-133 | the swap gate reports exactly these problems in this order |
| Verify.VerifyBtcSend | src/cryptoswap_wallet/verify.py:148-194 | the send gate reports exactly these problems in this order |
| Verify.BtcSwapGate | src/cryptoswap_wallet/verify.py:60-133 | no problem iff unexpired, one exact payment, one exact memo, rest owned, payout named, fee in bounds |
| Verify.BtcSwapReports | src/cryptoswap_wallet/verify.py:60-133 | a problem is reported iff its mismatch is there, with the mismatching values |
| Verify.BtcSendGate | src/cryptoswap_wallet/verify.py:148-194 | no problem iff one exact payment, no data, rest owned, fee in bounds |
| Verify.BtcSendReports | src/cryptoswap_wallet/verify.py:148-194 | the same for sends |
| Verify.AcceptedSwapConserves | src/cryptoswap_wallet/verify.py:60-133 | accepted outputs total the amount, plus what is owned, plus what the memo output holds |
| Verify.VerifyEthSwap | src/cryptoswap_wallet/verify.py:324-362 | the native gate reports exactly these problems in this order |
| Verify.EthSwapGate | src/cryptoswap_wallet/verify.py:324-362 | no problem iff time, vault, value, memo bytes in the calldata, chain, payout and fee limit all match |
| Verify.EthSwapReports | src/cryptoswap_wallet/verify.py:324-362 | a problem is reported iff its mismatch is there |
| Verify.EthSendGate | src/cryptoswap_wallet/verify.py:382-408 | no problem iff target up to case, value, empty calldata, chain and fee limit all match; then the target is the recipient's bytes and the cost is bounded |
| Verify.EthSendReports | src/cryptoswap_wallet/verify.py:382-408 | the same for ether sends |
| Swap.PreparedWasCleared | src/cryptoswap_wallet/swap.py:147-199 | a prepared swap passed every guard and is what the adapter built for its own quote; the quote was asked for the request itself, without a tolerance when streaming |
| Swap.PrepareExactly | src/cryptoswap_wallet/swap.py:169-199 | a cleared swap is handed to the adapter; any halt or pause flag, an unlisted chain, an uncleared swap or a refused quote aborts it; another failure of the quote is passed on |
| Swap.PostsArePrefix | src/cryptoswap_wallet/chains/btc.py:357-363 | posts are a prefix of the raw transactions, all of them iff none is refused; the txid is the last one's |
| Swap.ExecutionShape | src/cryptoswap_wallet/swap.py:245-260 | unsafe aborts, unconfirmed is a dry run, neither signs or posts; otherwise one signing, then a prefix of the signed transactions is posted, and success means all were accepted |
| Swap.JustifiedStep | src/cryptoswap_wallet/swap.py:245-260 | executing keeps the invariant that every post was signed before and every signing passed the gate |
| Swap.Journal.ExecuteSwap | src/cryptoswap_wallet/swap.py:245-260 | result and log of execute_swap, and the invariant of the log |
| Swap.Journal.RunAttempt | src/cryptoswap_wallet/swap.py:147-260 | one invocation, preparation and execution, logs exactly the attempt's events |
| Swap.Journal.Run | src/cryptoswap_wallet/swap.py:147-260 | any sequence of invocations logs exactly the events the run theorems speak of |
| Swap.PostedWasSanctioned | src/cryptoswap_wallet/swap.py:147-260 | in any run, whatever was posted was cleared, gated, confirmed and signed by one attempt |
| Swap.PostedInTurn | src/cryptoswap_wallet/chains/btc.py:357-363 | a signed transaction is posted if all before it were accepted |
| Swap.SanctionedIsPosted | src/cryptoswap_wallet/swap.py:147-260 | the converse: in any run, what an attempt cleared, gated, confirmed and signed is posted in its turn |
| Swap.RunsAreJustified | src/cryptoswap_wallet/swap.py:147-260 | the log of any run satisfies the invariant |
| Btc.ExtractOutputs | src/cryptoswap_wallet/chains/btc.py:76-89 | the loop extracts every output in order, or fails on the first bad script |
| Btc.ExtractMeaning | src/cryptoswap_wallet/chains/btc.py:76-89 | extraction keeps number, order, values and addresses, decodes the data, and fails iff some script does not decode |
| Btc.BuildUnsignedSwap | src/cryptoswap_wallet/chains/btc.py:121-176 | the transaction object ends with the inputs, outputs, fee, change address and keys of the draft, all inputs unsigned, or with the same failure |
| Btc.BuiltOutputs | src/cryptoswap_wallet/chains/btc.py:164-172 | outputs exist iff the memo fits, and the gate is handed exactly payment, memo bytes and change |
| Btc.BuildsIff | src/cryptoswap_wallet/chains/btc.py:121-176 | a swap is built iff the memo has at most 80 bytes and some coins fund payment and fee (for a sweep: the amount is at most the total) |
| Btc.DraftConsists | src/cryptoswap_wallet/chains/btc.py:121-176 | a built transaction piece by piece: each input spends a chosen coin of the wallet with the key of the coin's path, or of the default path; payment, memo script, change to the right address; fee and change at the rate |
| Btc.BuilderConserves | src/cryptoswap_wallet/chains/btc.py:139-176 | each input spends one of the wallet's coins with the key of its path; inputs total outputs plus fee |
| Btc.BuildThenGate | src/cryptoswap_wallet/chains/btc.py:121-235 | a built swap passes iff unexpired, fee in bounds, memo pays, and change goes to an owned address other than the vault |
| Btc.BuildThenSendGate | src/cryptoswap_wallet/chains/btc.py:275-308 | a built send passes iff fee in bounds and change goes to an owned address other than the recipient |
| Btc.AdapterVerdict | src/cryptoswap_wallet/chains/btc.py:196-235 | with a change address given, exactly four reasons can refuse the adapter's own transaction |
| Btc.SweepIsBuildable | src/cryptoswap_wallet/chains/btc.py:141-150 | a computed sweep builds, spends every coin without change, and reserves enough fee for the actual memo |
| Btc.BuildAndVerifySwap | src/cryptoswap_wallet/chains/btc.py:196-235 | the object-level build and gate agree with the value-level ones |
| Btc.BuildAndVerifySend | src/cryptoswap_wallet/chains/btc.py:275-308 | the same for a plain send |
| Btc.Sign | src/cryptoswap_wallet/chains/btc.py:178-194 | every unlocked input gets a signature, others keep theirs; one raw transaction iff then all are signed and the result verifies; signing again changes nothing |
| Btc.SignsAcrossPaths | src/cryptoswap_wallet/chains/btc.py:153-184 | if the key at each coin's path (or the default one) unlocks the input that spends the coin, no input stays unsigned |
| Btc.WalletBalance | src/cryptoswap_wallet/chains/btc.py:331-348 | the report totals exactly the used addresses of branches 0 and 1, each up to the first window of 10 that ends 20 unused ones, and lists them in order |
| Btc.BalanceIsComplete | src/cryptoswap_wallet/chains/btc.py:331-348 | the confirmed total is all both branches hold, when nothing hides behind a gap, and fewer than 30 addresses beyond the last used one are added up |
| BtcRuns.SignedCosts | src/cryptoswap_wallet/chains/btc.py:196-235 | with a foreign vault the wallet parts with exactly amount plus fee |
| BtcRuns.PostedIsSafe | src/cryptoswap_wallet/swap.py:147-260 | end-to-end safety of every Bitcoin run: cleared, confirmed, signed and verified; pays the vault exactly, says exactly the quote's memo, returns the rest; spends own coins with their own keys, at the given fee rate and within the limit |
| BtcRuns.SafeIffDeliverable | src/cryptoswap_wallet/chains/btc.py:121-235 | build and gate succeed iff coins, fee limit, memo, expiry, payout and change address allow it |
| BtcRuns.MatchingKeysSign | src/cryptoswap_wallet/chains/btc.py:178-194 | a signer whose keys sign exactly the inputs that carry them meets the signing assumption iff transactions over own coins verify |
| BtcRuns.DeliverableIsPosted | src/cryptoswap_wallet/swap.py:147-260 | in any run, a confirmed, cleared, deliverable swap of a wallet that can sign is posted, as the safe payment with the quote's memo |
| BtcRuns.RunPostsIff | src/cryptoswap_wallet/swap.py:147-260 | a run posts something iff one of its attempts is confirmed, cleared and deliverable |
| BtcRuns.PostedSendIsSafe | src/cryptoswap_wallet/chains/btc.py:275-308 | whatever a plain send posts pays the recipient exactly, carries no data, returns the rest and costs at most the limit |
| BtcRuns.SendPostsIff | src/cryptoswap_wallet/chains/btc.py:275-308 | a built send is posted iff confirmed, within the fee limit, and its change (if any) does not go to the recipient |
| Eth.StripMeaning | src/cryptoswap_wallet/chains/eth.py:121-122 | 0x or 0X is dropped once, nothing else is |
| Eth.ChecksumKeepsAddress | src/cryptoswap_wallet/chains/eth.py:118-130 | re-casing keeps the lower-cased address (up to 32 bytes) for any hash |
| Eth.CasingFollowsDigest | src/cryptoswap_wallet/chains/eth.py:124-130 | digit i is raised exactly where the i-th half byte of the digest is 8 or more |
| Eth.ChecksumIdempotent | src/cryptoswap_wallet/chains/eth.py:118-130 | checksumming twice is checksumming once |
| Eth.PlainIsChecksummable | src/cryptoswap_wallet/chains/eth.py:118-130 | an address of hex digits only has a checksum form iff their number is even |
| Eth.ChecksumOfPlainAddress | src/cryptoswap_wallet/chains/eth.py:118-130 | for 40 hex digits in any case, after 0x or 0X: success, same address up to case, idempotent |
| Eth.LongAddressIsCut | src/cryptoswap_wallet/chains/eth.py:118-130 | 33 bytes lose two characters |
| Eth.ChecksumMatchesIff | src/cryptoswap_wallet/chains/eth.py:118-130 | the result equals the given address up to case iff that is a plain 0x address |
| Eth.SameAddressMeaning | src/cryptoswap_wallet/chains/eth.py:118-130 | plain addresses denote the same bytes iff they are equal up to case |
| Eth.PlainAddressMeaning | src/cryptoswap_wallet/chains/eth.py:118-130 | plain means 0x or 0X and 40 hex digits, spelled out |
| Eth.EthSweepIsMaximal | src/cryptoswap_wallet/chains/eth.py:103-115 | value plus worst-case fee fit the balance, less than one unit is left, nothing larger fits; fails iff the reserve is not exceeded |
| Eth.NativeFields | src/cryptoswap_wallet/chains/eth.py:374-411 | an ether transfer: checksummed target, 10^10 wei a unit, the memo's bytes as calldata, chain, nonce, gas and fees as configured |
| Eth.SweptDepositIsCovered | src/cryptoswap_wallet/chains/eth.py:374-411 | the deposit built from a swept amount is covered by the balance |
| Eth.NativeVerdict | src/cryptoswap_wallet/chains/eth.py:507-535 | a built native deposit passes iff unexpired, plain vault, chain 1, memo pays, fee within limit |
| Eth.PlainVaultVerdict | src/cryptoswap_wallet/chains/eth.py:507-535 | for a vault of 40 hex digits the deposit is always built, and passes iff unexpired, chain 1, memo pays, fee within limit |
| Eth.TestnetIsRefused | src/cryptoswap_wallet/chains/eth.py:507-535 | on chain 11155111 the gate always refuses, for the chain alone if all else is well |
| Eth.NativeSendVerdict | src/cryptoswap_wallet/chains/eth.py:569-595 | a built send passes iff the fee is within the limit; its target denotes the recipient |
| Eth.ShortRecipientPasses | src/cryptoswap_wallet/chains/eth.py:569-595 | a send to 0xab is built and passes |
| Eth.VerifyTokenSwap | src/cryptoswap_wallet/chains/eth.py:184-242 | the token gate reports exactly these problems in this order |
| Eth.TokenGate | src/cryptoswap_wallet/chains/eth.py:184-242 | no problem iff the pair approves and deposits the same amount, router, token, vault, memo and expiry as intended |
| Eth.TokenReports | src/cryptoswap_wallet/chains/eth.py:184-242 | a problem is reported iff its mismatch is there, naming the field |
| Eth.DecodingMeaning | src/cryptoswap_wallet/chains/eth.py:176-181 | calldata of 095ea7b3 or 44bc937b is decoded from its fifth byte on |
| Eth.DecodedOnlyThen | src/cryptoswap_wallet/chains/eth.py:176-181 | and no other calldata is |
| Eth.AfterDashMeaning | src/cryptoswap_wallet/chains/eth.py:435 | the contract is what follows the first dash of the asset; without a dash there is none |
| Eth.AfterDashOfJoin | src/cryptoswap_wallet/chains/eth.py:435 | an asset head-contract, with no dash in the head, is read as that contract |
| Eth.TokenBuildsIff | src/cryptoswap_wallet/chains/eth.py:423-472 | for plain contract, router and vault a pair is built iff the codec accepts the checksummed fields |
| Eth.TokenBuildsWhenItFits | src/cryptoswap_wallet/chains/eth.py:423-472 | with a codec that refuses only numbers outside uint256, iff token amount and expiry are in that range |
| Eth.TokenVerdict | src/cryptoswap_wallet/chains/eth.py:423-505 | a built pair passes iff unexpired, fees within limit, memo pays |
| EthRuns.PostedIsSafe | src/cryptoswap_wallet/swap.py:147-260 | end-to-end safety of every Ethereum run, native and token: target, amount in wei or token units, router, vault, token, the quote's own memo, expiry, nonces, gas and fees |
| EthRuns.DepositOnlyAfterApproval | src/cryptoswap_wallet/chains/eth.py:360-372 | the deposit is posted only after the approval was accepted |
| EthRuns.BuildAndVerifySwap | src/cryptoswap_wallet/chains/eth.py:474-535 | the adapter, its gates run step by step, agrees with the function the run theorems are about |
| EthRuns.SafeIffDeliverable | src/cryptoswap_wallet/chains/eth.py:474-535 | build and gate succeed iff unexpired, destination paid, fees within limit, and the pair builds or, for ether, chain 1 and a plain vault of whole bytes |
| EthRuns.DeliverableIsPosted | src/cryptoswap_wallet/swap.py:147-260 | a confirmed, cleared, deliverable and signable swap reaches the network as safe transactions: the native deposit or the approval, and the token deposit once the approval was accepted |
| EthRuns.RunPostsIff | src/cryptoswap_wallet/swap.py:147-260 | a run posts something iff one of its attempts is confirmed, cleared, deliverable and signable |
| EthRuns.BuildAndVerifySend | src/cryptoswap_wallet/chains/eth.py:537-595 | an ether send, built and gated step by step, agrees with the function the next row is about |
| EthRuns.SendPostsIff | src/cryptoswap_wallet/chains/eth.py:537-595 | whatever a send posts was confirmed and gives the recipient's bytes exactly the amount, without calldata, within the fee limit; what is built is posted iff confirmed, within it, and signed |
| EthRuns.SendBuildsIff | src/cryptoswap_wallet/chains/eth.py:537-595 | a send is built iff its recipient reads as hex |

## Left out

- ScanBranch: requires that some window end closes the gap (`Closes`); on any other branch the program's loop
  does not end, so this is its exact termination condition, and `QuietCloses` gives a sufficient one.
- ScanAccount: asks for the same on every branch; the thread pool is an ordered map, and a probe's answer does not
  change during a scan.
- InsufficientIffNoSubsetFunds: stated for a non-negative fee rate and dust limit; the program passes 294.
- SweepAgreesWithSelection: stated for a non-negative fee rate and dust limit; with a dust limit of 0, for at
  least one coin (`Coins.EmptySweepIsRefused` shows what happens without).
- BuildsIff: stated for a non-negative fee rate.
- BtcRuns.RunPostsIff: the signer is assumed to work (the key of each coin's path unlocks the input that spends the
  coin, and what is fully signed over the wallet's own coins verifies); `BtcRuns.MatchingKeysSign` relates this to keys
  that sign the inputs carrying them.
- EthRuns.RunPostsIff: a signed transaction is identified with its content; whether one can be signed is arbitrary.
- EstimateVsize: fees are stated relative to the estimate; nothing is claimed about the size of a serialised
  transaction (memos of 76 to 80 bytes need one script byte more than the estimate counts).
- AcceptedSwapConserves: assumes the vault is not one of our addresses and data outputs have no address, as
  extraction guarantees for the latter.
- MemoPays: lower() is ASCII lower-casing.
- Exception texts and the wording of gate problems are not modelled; problems are values.
- Floating-point rounding of fee rates is not modelled.
- Real signatures: signing is "every input is unlocked by some key and the result verifies", both arbitrary functions.
- The bitcoinlib transaction's own validation of addresses and amounts is not part of this model.
- HTTP and RPC clients, fee and nonce fetching, key derivation, keystore, command line, price feed.
- TRON transfer gates, ERC-20 plain sends, liquidity deposits and withdrawals: the same shape as the gates here.
- The plan kept beside a prepared swap for the command line's second expiry check.
