/**
 Gap-limit address scanning (chains/scan.py): windows of addresses are probed until a run of unused
 ones is long enough. Section "Address gap limit" of BIP-44.
 */
module Scan {
  import opened Text
  import Radix

  const DEFAULT_GAP_LIMIT := 20
  const DEFAULT_WINDOW := 10
  const DEFAULT_BRANCHES: seq<nat> := [0, 1]

  datatype AddressInfo = AddressInfo(hasHistory: bool, confirmed: int, pending: int)

  datatype Record = Record(path: string, address: string, info: AddressInfo)

  function PathOf(account: string, number: nat, i: nat): string {
    account + "/" + Decimal(number) + "/" + Decimal(i)
  }

  /** One branch of an account: what deriving and probing its i-th address yields. */
  datatype Branch = Branch(at: nat -> Record) {
    predicate Used(i: nat) {
      at(i).info.hasHistory
    }

    /** Length of the run of unused addresses that ends just before index n. */
    function Gap(n: nat): nat {
      if n == 0 || Used(n - 1) then 0 else 1 + Gap(n - 1)
    }

    /** The used addresses with index below n, in order. */
    function Records(n: nat): seq<Record> {
      if n == 0 then [] else Records(n - 1) + if Used(n - 1) then [at(n - 1)] else []
    }

    function UsedIndices(n: nat): seq<nat> {
      if n == 0 then [] else UsedIndices(n - 1) + if Used(n - 1) then [n - 1] else []
    }

    ghost predicate QuietFrom(m: nat) {
      forall i: nat :: m <= i ==> !Used(i)
    }

    /** The gap limit is reached at the end of the k-th window. */
    predicate ClosedAt(gapLimit: int, window: nat, k: nat) {
      Gap(k * window) >= gapLimit
    }

    /** The first window end at which the gap limit is reached. */
    ghost predicate StopsAfter(gapLimit: int, window: nat, k: nat) {
      ClosedAt(gapLimit, window, k) && forall j: nat :: j < k ==> !ClosedAt(gapLimit, window, j)
    }

    /** The gap limit is reached at the end of some window: exactly then the scan of this branch halts. */
    ghost predicate Closes(gapLimit: int, window: nat) {
      exists k: nat :: ClosedAt(gapLimit, window, k)
    }

    /** Where a scan of one address at a time would stop. */
    ghost predicate PlainStopsAt(gapLimit: int, n: nat) {
      Gap(n) >= gapLimit && forall m: nat :: m < n ==> Gap(m) < gapLimit
    }

    predicate NoneUsedIn(lo: nat, hi: nat) {
      forall i: nat :: lo <= i < hi ==> !Used(i)
    }

    /** No used address hides behind a run of gapLimit unused ones. */
    ghost predicate NoneBehindGap(gapLimit: int) {
      forall u: nat, n: nat :: Used(u) && n <= u ==> Gap(n) < gapLimit
    }
  }

  function RecordAt(derive: string -> string, probe: string -> AddressInfo, path: string): Record {
    Record(path, derive(path), probe(derive(path)))
  }

  function BranchOf(derive: string -> string, probe: string -> AddressInfo, account: string, number: nat): Branch {
    Branch((i: nat) => RecordAt(derive, probe, PathOf(account, number, i)))
  }

  /**
   The while loop of scan_account for one branch: exactly the used addresses below the end of the first window
   at which the gap limit is reached. The loop needs such a window to exist, and nothing else.
   */
  method ScanBranch(b: Branch, gapLimit: int, window: nat) returns (found: seq<Record>)
    requires b.Closes(gapLimit, window)
    ensures exists k: nat :: b.StopsAfter(gapLimit, window, k) && found == b.Records(k * window)
  {
    found := [];
    ghost var last: nat :| b.ClosedAt(gapLimit, window, last);
    ghost var windows: nat := 0;
    var gap, index := 0, 0;
    while gap < gapLimit
      invariant index == windows * window
      invariant gap == b.Gap(index)
      invariant found == b.Records(index)
      invariant windows <= last
      invariant forall j: nat :: j < windows ==> !b.ClosedAt(gapLimit, window, j)
      decreases last - windows
    {
      assert !b.ClosedAt(gapLimit, window, windows);
      var infos := seq(window, i requires 0 <= i < window => b.at(index + i));
      for i := 0 to window
        invariant gap == b.Gap(index + i)
        invariant found == b.Records(index + i)
      {
        if infos[i].info.hasHistory {
          gap := 0;
          found := found + [infos[i]];
        } else {
          gap := gap + 1;
        }
      }
      NextWindow(windows, window);
      index, windows := index + window, windows + 1;
    }
    assert b.StopsAfter(gapLimit, window, windows);
  }

  lemma NextWindow(k: nat, window: nat)
    ensures (k + 1) * window == k * window + window
  {
  }

  lemma {:induction false} GapGrows(b: Branch, quiet: nat, n: nat)
    requires b.QuietFrom(quiet)
    ensures n <= quiet + b.Gap(n)
  {
    if n > quiet {
      GapGrows(b, quiet, n - 1);
    }
  }

  function BranchesOf(derive: string -> string, probe: string -> AddressInfo, account: string,
                      numbers: seq<nat>): seq<Branch> {
    seq(|numbers|, k requires 0 <= k < |numbers| => BranchOf(derive, probe, account, numbers[k]))
  }

  /** The records of all branches in turn, each scanned for its own number of windows. */
  function Collected(branches: seq<Branch>, windows: seq<nat>, window: nat): seq<Record>
    requires |windows| == |branches|
  {
    if branches == [] then [] else
      var last := |branches| - 1;
      Collected(branches[..last], windows[..last], window) + branches[last].Records(windows[last] * window)
  }

  lemma {:induction false} CollectedSnoc(branches: seq<Branch>, b: Branch, windows: seq<nat>, k: nat, window: nat)
    requires |windows| == |branches|
    ensures Collected(branches + [b], windows + [k], window)
      == Collected(branches, windows, window) + b.Records(k * window)
  {
    assert (branches + [b])[..|branches|] == branches && (windows + [k])[..|branches|] == windows;
  }

  ghost predicate AllStop(branches: seq<Branch>, gapLimit: int, window: nat, windows: seq<nat>) {
    |windows| == |branches| &&
    forall k :: 0 <= k < |branches| ==> branches[k].StopsAfter(gapLimit, window, windows[k])
  }

  /** The records of every branch in turn, each up to its own stop. */
  ghost predicate ScannedFrom(found: seq<Record>, branches: seq<Branch>, gapLimit: int, window: nat) {
    exists windows: seq<nat> :: (
      AllStop(branches, gapLimit, window, windows) && found == Collected(branches, windows, window))
  }

  lemma ScannedNothing(gapLimit: int, window: nat)
    ensures ScannedFrom([], [], gapLimit, window)
  {
    assert AllStop([], gapLimit, window, []);
  }

  lemma AllStopSnoc(branches: seq<Branch>, b: Branch, windows: seq<nat>, k: nat, gapLimit: int, window: nat)
    requires AllStop(branches, gapLimit, window, windows) && b.StopsAfter(gapLimit, window, k)
    ensures AllStop(branches + [b], gapLimit, window, windows + [k])
  {
  }

  lemma {:induction false} ScannedSnoc(found: seq<Record>, branches: seq<Branch>, more: seq<Record>, b: Branch,
                                       gapLimit: int, window: nat)
    requires ScannedFrom(found, branches, gapLimit, window)
    requires exists k: nat :: b.StopsAfter(gapLimit, window, k) && more == b.Records(k * window)
    ensures ScannedFrom(found + more, branches + [b], gapLimit, window)
  {
    var windows: seq<nat> :|
      AllStop(branches, gapLimit, window, windows) && found == Collected(branches, windows, window);
    var k: nat :| b.StopsAfter(gapLimit, window, k) && more == b.Records(k * window);
    CollectedSnoc(branches, b, windows, k, window);
    AllStopSnoc(branches, b, windows, k, gapLimit, window);
  }

  /** scan_account: every branch in turn, each stopping at its own first closed window. */
  method ScanAccount(derive: string -> string, probe: string -> AddressInfo, account: string,
                     gapLimit: int := DEFAULT_GAP_LIMIT, numbers: seq<nat> := DEFAULT_BRANCHES,
                     window: nat := DEFAULT_WINDOW)
    returns (found: seq<Record>)
    requires forall b :: b in BranchesOf(derive, probe, account, numbers) ==> b.Closes(gapLimit, window)
    ensures ScannedFrom(found, BranchesOf(derive, probe, account, numbers), gapLimit, window)
    ensures FindsUsed(found, derive, probe, account, numbers, gapLimit, window)
  {
    var branches := BranchesOf(derive, probe, account, numbers);
    found := [];
    ScannedNothing(gapLimit, window);
    for k := 0 to |branches|
      invariant ScannedFrom(found, branches[..k], gapLimit, window)
    {
      var more := ScanBranch(branches[k], gapLimit, window);
      ScannedSnoc(found, branches[..k], more, branches[k], gapLimit, window);
      assert branches[..k + 1] == branches[..k] + [branches[k]];
      found := found + more;
    }
    assert branches[..|branches|] == branches;
    ScanFindsUsed(derive, probe, account, numbers, gapLimit, window, found);
  }

  // --- what the records are ---

  /** Exactly the used indices below n, strictly increasing. */
  lemma {:induction false} RecordsAreTheUsedOnes(b: Branch, n: nat)
    ensures |b.Records(n)| == |b.UsedIndices(n)|
    ensures forall k :: 0 <= k < |b.Records(n)| ==> b.Records(n)[k] == b.at(b.UsedIndices(n)[k])
    ensures forall k, l :: 0 <= k < l < |b.UsedIndices(n)| ==> b.UsedIndices(n)[k] < b.UsedIndices(n)[l]
    ensures forall i: nat :: i in b.UsedIndices(n) <==> i < n && b.Used(i)
  {
    if n > 0 {
      RecordsAreTheUsedOnes(b, n - 1);
      var before := b.UsedIndices(n - 1);
      forall k | 0 <= k < |before| ensures before[k] < n - 1 {
        assert before[k] in before;
      }
    }
  }

  lemma DecimalHasNoSlash(n: nat)
    ensures NoSlash(Decimal(n))
  {
  }

  predicate NoSlash(s: string) {
    forall i :: 0 <= i < |s| ==> s[i] != '/'
  }

  lemma FirstSlash(a: string, b: string, c: string, d: string)
    requires a + "/" + b == c + "/" + d && NoSlash(c)
    ensures |c| <= |a|
  {
    var s := a + "/" + b;
    assert s[|a|] == '/';
    assert forall i :: 0 <= i < |c| ==> s[i] == c[i];
  }

  lemma SplitAtSlash(a: string, b: string, c: string, d: string)
    requires a + "/" + b == c + "/" + d && NoSlash(a) && NoSlash(c)
    ensures a == c && b == d
  {
    FirstSlash(a, b, c, d);
    FirstSlash(c, d, a, b);
    var s := a + "/" + b;
    assert s[..|a|] == a && s[..|c|] == c;
    assert s[|a| + 1..] == b && s[|c| + 1..] == d;
  }

  lemma JoinInjective(account: string, a: string, b: string, c: string, d: string)
    requires account + "/" + a + "/" + b == account + "/" + c + "/" + d && NoSlash(a) && NoSlash(c)
    ensures a == c && b == d
  {
    var n := |account| + 1;
    assert (account + "/" + a + "/" + b)[n..] == a + "/" + b;
    assert (account + "/" + c + "/" + d)[n..] == c + "/" + d;
    SplitAtSlash(a, b, c, d);
  }

  /** Paths of one account determine the branch and the index. */
  lemma PathInjective(account: string, m: nat, n: nat, i: nat, j: nat)
    requires PathOf(account, m, i) == PathOf(account, n, j)
    ensures m == n && i == j
  {
    DecimalHasNoSlash(m);
    DecimalHasNoSlash(n);
    JoinInjective(account, Decimal(m), Decimal(i), Decimal(n), Decimal(j));
    DecimalInjective(m, n);
    DecimalInjective(i, j);
  }

  predicate DistinctPaths(found: seq<Record>) {
    forall k, l :: 0 <= k < l < |found| ==> found[k].path != found[l].path
  }

  predicate Distinct(numbers: seq<nat>) {
    forall k, l :: 0 <= k < l < |numbers| ==> numbers[k] != numbers[l]
  }

  /** No path is reported twice on one branch, and each is a path of that branch. */
  lemma {:induction false} BranchIsDistinct(derive: string -> string, probe: string -> AddressInfo, account: string,
                                            number: nat, n: nat)
    ensures var found := BranchOf(derive, probe, account, number).Records(n);
      DistinctPaths(found) && forall r :: r in found ==> exists i: nat :: r.path == PathOf(account, number, i)
  {
    var b := BranchOf(derive, probe, account, number);
    var found, used := b.Records(n), b.UsedIndices(n);
    RecordsAreTheUsedOnes(b, n);
    forall k | 0 <= k < |found| ensures found[k].path == PathOf(account, number, used[k]) {
      assert found[k] == b.at(used[k]);
    }
    forall k, l | 0 <= k < l < |found| ensures found[k].path != found[l].path {
      if found[k].path == found[l].path {
        PathInjective(account, number, number, used[k], used[l]);
      }
    }
  }

  lemma {:induction false} CollectedIsDistinct(derive: string -> string, probe: string -> AddressInfo, account: string,
                                               numbers: seq<nat>, windows: seq<nat>, window: nat)
    requires Distinct(numbers) && |windows| == |numbers|
    ensures var found := Collected(BranchesOf(derive, probe, account, numbers), windows, window);
      && DistinctPaths(found)
      && forall r :: r in found ==> exists n: nat, i: nat :: n in numbers && r.path == PathOf(account, n, i)
  {
    if numbers != [] {
      var last := |numbers| - 1;
      var front, n := numbers[..last], numbers[last];
      var branches := BranchesOf(derive, probe, account, numbers);
      assert branches[..last] == BranchesOf(derive, probe, account, front);
      var before := Collected(branches[..last], windows[..last], window);
      var more := branches[last].Records(windows[last] * window);
      CollectedIsDistinct(derive, probe, account, front, windows[..last], window);
      BranchIsDistinct(derive, probe, account, n, windows[last] * window);
      forall r, t | r in before && t in more ensures r.path != t.path {
        var m: nat, i: nat :| m in front && r.path == PathOf(account, m, i);
        var j: nat :| t.path == PathOf(account, n, j);
        if r.path == t.path {
          PathInjective(account, m, n, i, j);
        }
      }
    }
  }

  /** A whole scan over different branches reports no derivation path twice. */
  lemma ScanIsDistinct(derive: string -> string, probe: string -> AddressInfo, account: string,
                       numbers: seq<nat>, gapLimit: int, window: nat, found: seq<Record>)
    requires Distinct(numbers)
    requires ScannedFrom(found, BranchesOf(derive, probe, account, numbers), gapLimit, window)
    ensures DistinctPaths(found)
  {
    var branches := BranchesOf(derive, probe, account, numbers);
    var windows: seq<nat> :|
      AllStop(branches, gapLimit, window, windows) && found == Collected(branches, windows, window);
    CollectedIsDistinct(derive, probe, account, numbers, windows, window);
  }

  // --- where the records come from ---

  /** What deriving and probing the address at branch number n and index i gives. */
  ghost predicate ProbedAt(r: Record, derive: string -> string, probe: string -> AddressInfo, account: string,
                           n: nat, i: nat) {
    && r.path == account + "/" + Decimal(n) + "/" + Decimal(i)
    && r.address == derive(r.path) && r.info == probe(r.address)
  }

  /** The record of a used address of branch number n, with an index below the stop. */
  ghost predicate UsedBelow(r: Record, derive: string -> string, probe: string -> AddressInfo, account: string,
                            n: nat, stop: nat) {
    r.info.hasHistory && exists i: nat :: i < stop && ProbedAt(r, derive, probe, account, n, i)
  }

  /** Of one of the branches, below that branch's own stop. */
  ghost predicate UsedInScan(r: Record, derive: string -> string, probe: string -> AddressInfo, account: string,
                             numbers: seq<nat>, stops: seq<nat>)
    requires |stops| == |numbers|
  {
    exists k :: 0 <= k < |numbers| && UsedBelow(r, derive, probe, account, numbers[k], stops[k])
  }

  /** The end of each branch's last window. */
  function StopsOf(windows: seq<nat>, window: nat): seq<nat> {
    seq(|windows|, k requires 0 <= k < |windows| => windows[k] * window)
  }

  lemma {:induction false} BranchRecords(derive: string -> string, probe: string -> AddressInfo, account: string,
                                         number: nat, n: nat, r: Record)
    ensures r in BranchOf(derive, probe, account, number).Records(n)
      <==> UsedBelow(r, derive, probe, account, number, n)
  {
    var b := BranchOf(derive, probe, account, number);
    var found, used := b.Records(n), b.UsedIndices(n);
    RecordsAreTheUsedOnes(b, n);
    if r in found {
      var k :| 0 <= k < |found| && found[k] == r;
      assert used[k] in used && r == b.at(used[k]);
      assert ProbedAt(r, derive, probe, account, number, used[k]);
    }
    if UsedBelow(r, derive, probe, account, number, n) {
      var i: nat :| i < n && ProbedAt(r, derive, probe, account, number, i);
      assert r == b.at(i) && b.Used(i);
      var k :| 0 <= k < |used| && used[k] == i;
      assert found[k] == r;
    }
  }

  lemma {:induction false} CollectedRecords(derive: string -> string, probe: string -> AddressInfo, account: string,
                                            numbers: seq<nat>, windows: seq<nat>, window: nat, r: Record)
    requires |windows| == |numbers|
    ensures r in Collected(BranchesOf(derive, probe, account, numbers), windows, window)
      <==> UsedInScan(r, derive, probe, account, numbers, StopsOf(windows, window))
  {
    if numbers == [] {
      assert BranchesOf(derive, probe, account, numbers) == [];
    } else {
      var last := |numbers| - 1;
      CollectedRecords(derive, probe, account, numbers[..last], windows[..last], window, r);
      BranchRecords(derive, probe, account, numbers[last], windows[last] * window, r);
      LastUsed(derive, probe, account, numbers, windows, window, r);
      LastCollected(derive, probe, account, numbers, windows, window, r);
    }
  }

  lemma {:induction false} LastCollected(derive: string -> string, probe: string -> AddressInfo, account: string,
                                         numbers: seq<nat>, windows: seq<nat>, window: nat, r: Record)
    requires |windows| == |numbers| > 0
    ensures var last := |numbers| - 1;
      r in Collected(BranchesOf(derive, probe, account, numbers), windows, window) <==>
        || r in Collected(BranchesOf(derive, probe, account, numbers[..last]), windows[..last], window)
        || r in BranchOf(derive, probe, account, numbers[last]).Records(windows[last] * window)
  {
    var branches, last := BranchesOf(derive, probe, account, numbers), |numbers| - 1;
    assert branches[..last] == BranchesOf(derive, probe, account, numbers[..last]);
  }

  lemma {:induction false} LastBranch(p: (nat, nat) -> bool, numbers: seq<nat>, stops: seq<nat>)
    requires |stops| == |numbers| > 0
    ensures var last := |numbers| - 1;
      (exists k :: 0 <= k < |numbers| && p(numbers[k], stops[k])) <==>
        || (exists k :: 0 <= k < last && p(numbers[..last][k], stops[..last][k]))
        || p(numbers[last], stops[last])
  {
    var last := |numbers| - 1;
    if k :| 0 <= k < last && p(numbers[k], stops[k]) {
      assert p(numbers[..last][k], stops[..last][k]);
    }
  }

  lemma {:induction false} LastUsed(derive: string -> string, probe: string -> AddressInfo, account: string,
                                    numbers: seq<nat>, windows: seq<nat>, window: nat, r: Record)
    requires |windows| == |numbers| > 0
    ensures var last := |numbers| - 1;
      UsedInScan(r, derive, probe, account, numbers, StopsOf(windows, window)) <==>
        || UsedInScan(r, derive, probe, account, numbers[..last], StopsOf(windows[..last], window))
        || UsedBelow(r, derive, probe, account, numbers[last], windows[last] * window)
  {
    var stops := StopsOf(windows, window);
    assert stops[..|numbers| - 1] == StopsOf(windows[..|numbers| - 1], window);
    LastBranch((n: nat, stop: nat) => UsedBelow(r, derive, probe, account, n, stop), numbers, stops);
  }

  /** A whole scan: the records are exactly the used addresses of the given branches, each up to its own stop. */
  ghost predicate FindsUsed(found: seq<Record>, derive: string -> string, probe: string -> AddressInfo,
                            account: string, numbers: seq<nat>, gapLimit: int, window: nat) {
    exists windows: seq<nat> :: (
      && AllStop(BranchesOf(derive, probe, account, numbers), gapLimit, window, windows)
      && forall r :: r in found <==> UsedInScan(r, derive, probe, account, numbers, StopsOf(windows, window)))
  }

  lemma {:induction false} ScanFindsUsed(derive: string -> string, probe: string -> AddressInfo, account: string,
                                         numbers: seq<nat>, gapLimit: int, window: nat, found: seq<Record>)
    requires ScannedFrom(found, BranchesOf(derive, probe, account, numbers), gapLimit, window)
    ensures FindsUsed(found, derive, probe, account, numbers, gapLimit, window)
  {
    var branches := BranchesOf(derive, probe, account, numbers);
    var windows: seq<nat> :|
      AllStop(branches, gapLimit, window, windows) && found == Collected(branches, windows, window);
    forall r ensures r in found <==> UsedInScan(r, derive, probe, account, numbers, StopsOf(windows, window)) {
      CollectedRecords(derive, probe, account, numbers, windows, window, r);
    }
  }

  // --- termination ---

  /** A stop exists exactly when some window closes the gap. */
  lemma StopsIffCloses(b: Branch, gapLimit: int, window: nat)
    ensures b.Closes(gapLimit, window) <==> exists k: nat :: b.StopsAfter(gapLimit, window, k)
  {
    if b.Closes(gapLimit, window) {
      var k: nat :| b.ClosedAt(gapLimit, window, k);
      var least := LeastClosed(b, gapLimit, window, k);
    }
  }

  lemma LeastClosed(b: Branch, gapLimit: int, window: nat, k: nat) returns (least: nat)
    requires b.ClosedAt(gapLimit, window, k)
    ensures b.StopsAfter(gapLimit, window, least)
  {
    if j: nat :| j < k && b.ClosedAt(gapLimit, window, j) {
      least := LeastClosed(b, gapLimit, window, j);
    } else {
      least := k;
    }
  }

  /** A wallet whose addresses are unused from some index on closes every gap. */
  lemma QuietCloses(b: Branch, m: nat, gapLimit: int, window: nat)
    requires b.QuietFrom(m) && (gapLimit > 0 ==> window > 0)
    ensures b.Closes(gapLimit, window)
  {
    var k := if gapLimit <= 0 then 0 else WindowsFor(m + gapLimit, window);
    GapGrows(b, m, k * window);
    assert b.ClosedAt(gapLimit, window, k);
  }

  /** Being quiet is not needed: with 20 unused addresses at the start, the rest is never looked at. */
  lemma {:induction false} BusyTailStillCloses(b: Branch)
    requires forall i: nat :: b.Used(i) <==> i >= 1000
    ensures b.StopsAfter(20, 10, 2) && b.Records(20) == [] && forall m: nat :: !b.QuietFrom(m)
  {
    GapOverQuiet(b, 0, 0);
    GapOverQuiet(b, 0, 10);
    GapOverQuiet(b, 0, 20);
    assert !b.ClosedAt(20, 10, 0) && !b.ClosedAt(20, 10, 1) && b.ClosedAt(20, 10, 2);
    RecordsGrow(b, 0, 20);
    forall m: nat ensures !b.QuietFrom(m) {
      assert b.Used(m + 1000);
    }
  }

  /** With no history at index m or beyond, fewer than m + gapLimit + window addresses are probed. */
  lemma ProbesBounded(b: Branch, m: nat, gapLimit: int, window: nat, k: nat)
    requires gapLimit >= 1 && window >= 1
    requires b.QuietFrom(m) && b.StopsAfter(gapLimit, window, k)
    ensures k * window < m + gapLimit + window
  {
    if k > 0 {
      assert !b.ClosedAt(gapLimit, window, k - 1);
      GapGrows(b, m, (k - 1) * window);
      NextWindow(k - 1, window);
    }
  }

  // --- refinement of the plain scan ---

  lemma {:induction false} RecordsGrow(b: Branch, m: nat, n: nat)
    requires m <= n
    ensures b.Records(m) <= b.Records(n)
    ensures b.Records(m) == b.Records(n) <==> b.NoneUsedIn(m, n)
  {
    if m < n {
      RecordsGrow(b, m, n - 1);
      assert b.NoneUsedIn(m, n) <==> b.NoneUsedIn(m, n - 1) && !b.Used(n - 1);
      assert |b.Records(m)| <= |b.Records(n - 1)| <= |b.Records(n)|;
    }
  }

  /** The windowed scan never finds less: the plain scan's result is a prefix of it. */
  lemma {:induction false} WindowedExtendsPlain(b: Branch, gapLimit: int, window: nat, k: nat, n: nat)
    requires b.StopsAfter(gapLimit, window, k) && b.PlainStopsAt(gapLimit, n)
    ensures n <= k * window
    ensures b.Records(n) <= b.Records(k * window)
  {
    RecordsGrow(b, n, k * window);
  }

  lemma {:induction false} GapOverQuiet(b: Branch, lo: nat, hi: nat)
    requires lo <= hi && b.NoneUsedIn(lo, hi)
    ensures b.Gap(hi) == b.Gap(lo) + (hi - lo)
  {
    if lo < hi {
      GapOverQuiet(b, lo, hi - 1);
    }
  }

  /** The number of windows needed to reach index n. */
  function WindowsFor(n: nat, window: nat): (k: nat)
    requires window >= 1
    ensures n <= k * window < n + window
    ensures forall j: nat :: n <= j * window ==> k <= j
  {
    WindowsForLeast(n, window);
    (n + window - 1) / window
  }

  lemma WindowsForLeast(n: nat, window: nat)
    requires window >= 1
    ensures var k := (n + window - 1) / window;
      n <= k * window < n + window && forall j: nat :: n <= j * window ==> k <= j
  {
    var k, r := (n + window - 1) / window, (n + window - 1) % window;
    assert n + window - 1 == k * window + r;
    forall j: nat | n <= j * window ensures k <= j {
      Radix.MulMono(j + 1, k, window);
    }
  }

  /**
   The scan is documented to stop after gap_limit consecutive unused addresses; it stops at the end of a
   window, so it may go further. It returns what the plain scan returns exactly when the rest of the
   window in which the plain scan stops is unused.
   */
  lemma {:induction false} SameAsPlainIff(b: Branch, gapLimit: int, window: nat, k: nat, n: nat)
    requires window >= 1
    requires b.StopsAfter(gapLimit, window, k) && b.PlainStopsAt(gapLimit, n)
    ensures b.Records(k * window) == b.Records(n) <==> b.NoneUsedIn(n, WindowsFor(n, window) * window)
  {
    var c := WindowsFor(n, window);
    var reach, end := c * window, k * window;
    WindowedExtendsPlain(b, gapLimit, window, k, n);
    Radix.MulMono(c, k, window);
    RecordsGrow(b, n, end);
    if b.NoneUsedIn(n, reach) {
      GapOverQuiet(b, n, reach);
      assert b.ClosedAt(gapLimit, window, c);
      assert k <= c;
    }
  }

  /** A wallet for which the two differ: gap limit 2, window 3, only index 2 used. */
  lemma {:induction false} WindowMayReachFurther(b: Branch)
    requires forall i: nat :: b.Used(i) <==> i == 2
    ensures b.StopsAfter(2, 3, 2) && b.Records(2 * 3) == [b.at(2)]
    ensures b.PlainStopsAt(2, 2) && b.Records(2) == []
  {
    GapOverQuiet(b, 0, 1);
    GapOverQuiet(b, 0, 2);
    assert b.Gap(3) == 0;
    GapOverQuiet(b, 3, 6);
    RecordsGrow(b, 0, 2);
    assert b.Records(3) == [b.at(2)];
    RecordsGrow(b, 3, 6);
    assert !b.ClosedAt(2, 3, 0) && !b.ClosedAt(2, 3, 1);
  }

  // --- nothing is missed ---

  /** Every used address is found when none hides behind a gap. */
  lemma {:induction false} NothingMissed(b: Branch, gapLimit: int, window: nat, k: nat, u: nat)
    requires b.StopsAfter(gapLimit, window, k) && b.NoneBehindGap(gapLimit) && b.Used(u)
    ensures u < k * window && b.at(u) in b.Records(k * window)
  {
    var n := k * window;
    assert b.Gap(n) >= gapLimit;
    RecordsAreTheUsedOnes(b, n);
    var l :| 0 <= l < |b.UsedIndices(n)| && b.UsedIndices(n)[l] == u;
    assert b.Records(n)[l] == b.at(u);
  }

  // --- totals ---

  function Confirmed(records: seq<Record>): int {
    if records == [] then 0 else Confirmed(records[..|records| - 1]) + records[|records| - 1].info.confirmed
  }

  function Pending(records: seq<Record>): int {
    if records == [] then 0 else Pending(records[..|records| - 1]) + records[|records| - 1].info.pending
  }

  /** Both totals are sums over the records. */
  lemma {:induction false} TotalsAdd(records: seq<Record>, r: Record)
    ensures Confirmed([]) == 0 && Confirmed(records + [r]) == Confirmed(records) + r.info.confirmed
    ensures Pending([]) == 0 && Pending(records + [r]) == Pending(records) + r.info.pending
  {
    assert (records + [r])[..|records|] == records;
  }

  /** What all addresses below index n hold, used or not. */
  function HeldBelow(b: Branch, n: nat): int {
    if n == 0 then 0 else HeldBelow(b, n - 1) + b.at(n - 1).info.confirmed
  }

  ghost predicate UnusedHoldNothing(b: Branch) {
    forall i: nat :: !b.Used(i) ==> b.at(i).info.confirmed == 0
  }

  lemma {:induction false} ConfirmedIsHeld(b: Branch, n: nat)
    requires UnusedHoldNothing(b)
    ensures Confirmed(b.Records(n)) == HeldBelow(b, n)
  {
    if n > 0 {
      ConfirmedIsHeld(b, n - 1);
      if b.Used(n - 1) {
        assert b.Records(n)[..|b.Records(n)| - 1] == b.Records(n - 1);
      } else {
        assert b.Records(n) == b.Records(n - 1);
      }
    }
  }

  lemma {:induction false} ConfirmedConcat(a: seq<Record>, c: seq<Record>)
    ensures Confirmed(a + c) == Confirmed(a) + Confirmed(c)
  {
    if c == [] {
      assert a + c == a;
    } else {
      var last := |c| - 1;
      assert (a + c)[..|a + c| - 1] == a + c[..last];
      ConfirmedConcat(a, c[..last]);
    }
  }

  /** The records of a branch hold all the branch holds, however far one looks. */
  lemma {:induction false} NothingHeldBeyond(b: Branch, gapLimit: int, window: nat, k: nat, far: nat)
    requires UnusedHoldNothing(b) && b.NoneBehindGap(gapLimit)
    requires b.StopsAfter(gapLimit, window, k) && k * window <= far
    ensures Confirmed(b.Records(k * window)) == HeldBelow(b, far)
  {
    if k * window == far {
      ConfirmedIsHeld(b, far);
    } else {
      NothingHeldBeyond(b, gapLimit, window, k, far - 1);
      if b.Used(far - 1) {
        NothingMissed(b, gapLimit, window, k, far - 1);
      }
    }
  }
}
