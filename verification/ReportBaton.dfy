/** The packet generator's report: every core waits for its flag, adds its figures to two shared totals with
    plain reads and writes, and raises the flag of the next core. */
module ReportBaton {
  import opened Bytes
  import opened Lcores

  const MAX_LCORE := 24

  // ----- queue ids

  /** The table loop of `app_init`: queue q belongs to the q-th enabled lcore, unused entries hold -1. */
  method AssignQueueIds(enabled: seq<bool>) returns (queueidToLcoreid: array<int>)
    requires |enabled| == MAX_LCORE
    ensures fresh(queueidToLcoreid) && queueidToLcoreid.Length == MAX_LCORE
    ensures forall l :: 0 <= l < MAX_LCORE && enabled[l] ==>
      Rank(enabled, l) < MAX_LCORE && queueidToLcoreid[Rank(enabled, l)] == l
    ensures forall q :: Rank(enabled, MAX_LCORE) <= q < MAX_LCORE ==> queueidToLcoreid[q] == -1
  {
    queueidToLcoreid := new int[MAX_LCORE](i => -1);
    var count := 0;
    for i := 0 to MAX_LCORE
      invariant count == Rank(enabled, i) <= i
      invariant forall l :: 0 <= l < i && enabled[l] ==>
        Rank(enabled, l) < count && queueidToLcoreid[Rank(enabled, l)] == l
      invariant forall q :: count <= q < MAX_LCORE ==> queueidToLcoreid[q] == -1
    {
      if enabled[i] {
        queueidToLcoreid[count] := i;
        count := count + 1;
      }
    }
  }

  // ----- the protocol

  /** Where a core is: spinning on its flag, before the comparison of the cycle total, before the write that
      may follow it, before the read and the write of the packet total, before the hand-off, or finished. */
  datatype Pc = Waiting | Comparing | Writing | Reading | Adding(seen: u32) | HandingOff | Finished

  /** What each core has to report. */
  datatype Report = Report(pkts: u32, cycles: nat)

  datatype State = State(flags: seq<bool>, totalCycle: nat, totalPkts: u32, pcs: seq<Pc>)

  predicate Fits(rs: seq<Report>, s: State) {
    |s.pcs| == |rs| && |s.flags| == |rs| + 1
  }

  /** After app_init: only queue 0's flag is up. */
  function Init(rs: seq<Report>): (s: State)
    ensures Fits(rs, s)
  {
    State(seq(|rs| + 1, i => i == 0), 0, 0, seq(|rs|, i => Waiting))
  }

  /** One shared access (or one spin) of core q. */
  function Step(rs: seq<Report>, s: State, q: nat): (s': State)
    requires Fits(rs, s)
    ensures Fits(rs, s')
  {
    if q >= |rs| then s
    else
      match s.pcs[q]
      case Waiting => if s.flags[q] then s.(pcs := s.pcs[q := Comparing]) else s
      case Comparing => s.(pcs := s.pcs[q := if s.totalCycle < rs[q].cycles then Writing else Reading])
      case Writing => s.(totalCycle := rs[q].cycles, pcs := s.pcs[q := Reading])
      case Reading => s.(pcs := s.pcs[q := Adding(s.totalPkts)])
      case Adding(seen) => s.(totalPkts := (seen as nat + rs[q].pkts) % 0x1_0000_0000, pcs := s.pcs[q := HandingOff])
      case HandingOff => s.(flags := s.flags[q + 1 := true], pcs := s.pcs[q := Finished])
      case Finished => s
  }

  /** Any interleaving: schedule says which core makes the next access. */
  function Run(rs: seq<Report>, s: State, schedule: seq<nat>): (s': State)
    requires Fits(rs, s)
    ensures Fits(rs, s')
    decreases |schedule|
  {
    if schedule == [] then s else Run(rs, Step(rs, s, schedule[0]), schedule[1..])
  }

  // ----- what the totals should be

  function SumPkts(rs: seq<Report>, n: nat): nat
    requires n <= |rs|
  {
    if n == 0 then 0 else SumPkts(rs, n - 1) + rs[n - 1].pkts
  }

  function MaxCycles(rs: seq<Report>, n: nat): (m: nat)
    requires n <= |rs|
    ensures forall i :: 0 <= i < n ==> rs[i].cycles <= m
    ensures n == 0 || m == 0 || exists i :: 0 <= i < n && rs[i].cycles == m
  {
    if n == 0 then 0
    else
      var m := MaxCycles(rs, n - 1);
      if m < rs[n - 1].cycles then rs[n - 1].cycles else m
  }

  /** Flags and positions when core k holds the baton (k == |rs|: all cores have finished). */
  ghost predicate Order(rs: seq<Report>, s: State, k: nat) {
    && Fits(rs, s) && k <= |rs|
    && (forall i :: 0 <= i <= |rs| ==> (s.flags[i] <==> i <= k))
    && (forall i :: 0 <= i < k ==> s.pcs[i] == Finished)
    && (forall i :: k < i < |rs| ==> s.pcs[i] == Waiting)
    && (k < |rs| ==> s.pcs[k] != Finished)
  }

  /** The totals when the holder is at pc: which of its two contributions are in already. */
  ghost predicate Totals(rs: seq<Report>, totalPkts: u32, totalCycle: nat, pc: Pc, k: nat)
    requires k < |rs|
  {
    && totalPkts == SumPkts(rs, if pc.HandingOff? then k + 1 else k) % 0x1_0000_0000
    && totalCycle == MaxCycles(rs, if pc.Reading? || pc.Adding? || pc.HandingOff? then k + 1 else k)
    && (pc.Adding? ==> pc.seen == totalPkts)
    && (pc.Writing? ==> totalCycle < rs[k].cycles)
  }

  /** Core k holds the baton. */
  ghost predicate Held(rs: seq<Report>, s: State, k: nat) {
    && Order(rs, s, k)
    && if k < |rs| then Totals(rs, s.totalPkts, s.totalCycle, s.pcs[k], k)
       else s.totalPkts == SumPkts(rs, k) % 0x1_0000_0000 && s.totalCycle == MaxCycles(rs, k)
  }

  lemma StartHeld(rs: seq<Report>)
    ensures Held(rs, Init(rs), 0)
  {
  }

  /** A core without the baton changes nothing. */
  lemma OthersWait(rs: seq<Report>, s: State, q: nat, k: nat)
    requires Held(rs, s, k) && q != k
    ensures Step(rs, s, q) == s
  {
  }

  lemma HolderKeepsOrder(rs: seq<Report>, s: State, k: nat)
    requires Order(rs, s, k) && k < |rs| && s.pcs[k] != HandingOff
    ensures Order(rs, Step(rs, s, k), k) && Step(rs, s, k) != s
  {
  }

  lemma HolderKeepsTotals(rs: seq<Report>, s: State, k: nat)
    requires Fits(rs, s) && k < |rs| && s.pcs[k] != HandingOff && s.pcs[k] != Finished && s.flags[k]
    requires Totals(rs, s.totalPkts, s.totalCycle, s.pcs[k], k)
    ensures var s' := Step(rs, s, k); Totals(rs, s'.totalPkts, s'.totalCycle, s'.pcs[k], k)
  {
    assert MaxCycles(rs, k + 1) == if MaxCycles(rs, k) < rs[k].cycles then rs[k].cycles else MaxCycles(rs, k);
    assert SumPkts(rs, k + 1) == SumPkts(rs, k) + rs[k].pkts;
    hide MaxCycles, SumPkts;
    if s.pcs[k].Adding? {
      SumWraps(SumPkts(rs, k), rs[k].pkts);
    }
  }

  /** The accesses of the holder before its hand-off keep the baton. */
  lemma HolderWorks(rs: seq<Report>, s: State, k: nat)
    requires Held(rs, s, k) && k < |rs| && s.pcs[k] != HandingOff
    ensures Held(rs, Step(rs, s, k), k) && Step(rs, s, k) != s
  {
    HolderKeepsOrder(rs, s, k);
    HolderKeepsTotals(rs, s, k);
    hide Totals, Order, Step;
  }

  lemma SumWraps(a: nat, b: nat)
    ensures (a % 0x1_0000_0000 + b) % 0x1_0000_0000 == (a + b) % 0x1_0000_0000
  {
  }

  lemma HolderHandsOff(rs: seq<Report>, s: State, k: nat)
    requires Held(rs, s, k) && k < |rs| && s.pcs[k] == HandingOff
    ensures Held(rs, Step(rs, s, k), k + 1) && Step(rs, s, k) != s
  {
  }

  /** No access of any core breaks the protocol; only the holder changes anything, and it always can. */
  lemma StepHeld(rs: seq<Report>, s: State, q: nat, k: nat) returns (k': nat)
    requires Held(rs, s, k)
    ensures Held(rs, Step(rs, s, q), k')
    ensures k <= k' <= k + 1
    ensures Step(rs, s, q) == s <==> q != k || k == |rs|
  {
    k' := k;
    if q != k {
      OthersWait(rs, s, q, k);
    } else if k < |rs| && s.pcs[k] == HandingOff {
      HolderHandsOff(rs, s, k);
      k' := k + 1;
    } else if k < |rs| {
      HolderWorks(rs, s, k);
    }
  }

  /** In every state reachable by any interleaving some core holds the baton. */
  lemma {:induction false} RunHeld(rs: seq<Report>, s: State, schedule: seq<nat>, k: nat) returns (k': nat)
    requires Held(rs, s, k)
    ensures Held(rs, Run(rs, s, schedule), k')
    decreases |schedule|
  {
    if schedule == [] {
      k' := k;
    } else {
      var k1 := StepHeld(rs, s, schedule[0], k);
      k' := RunHeld(rs, Step(rs, s, schedule[0]), schedule[1..], k1);
    }
  }

  predicate Critical(pc: Pc) {
    !pc.Waiting? && !pc.Finished?
  }

  predicate FirstFinished(s: State, k: nat) {
    forall i :: 0 <= i < |s.pcs| ==> (s.pcs[i] == Finished <==> i < k)
  }

  /** Mutual exclusion, and flags that form a prefix, for any number of cores and any interleaving. */
  lemma BatonIsExclusive(rs: seq<Report>, schedule: seq<nat>)
    ensures var s := Run(rs, Init(rs), schedule);
            && (forall i, j :: 0 <= i < |rs| && 0 <= j < |rs| && Critical(s.pcs[i]) && Critical(s.pcs[j]) ==> i == j)
            && (forall i, j :: 0 <= i <= j <= |rs| && s.flags[j] ==> s.flags[i])
            && (forall i :: 0 <= i < |rs| && s.pcs[i] != Waiting ==> s.flags[i])
  {
    StartHeld(rs);
    var k := RunHeld(rs, Init(rs), schedule, 0);
  }

  /** No update is lost: whenever no core is between its wait and its hand-off, the totals are the sum and the
      maximum over the cores that have finished, which are the first k. */
  lemma TotalsAreExact(rs: seq<Report>, schedule: seq<nat>) returns (k: nat)
    ensures k <= |rs|
    ensures var s := Run(rs, Init(rs), schedule);
            && FirstFinished(s, k)
            && ((forall i :: 0 <= i < |rs| ==> !Critical(s.pcs[i])) ==>
                s.totalPkts == SumPkts(rs, k) % 0x1_0000_0000 && s.totalCycle == MaxCycles(rs, k))
  {
    StartHeld(rs);
    k := RunHeld(rs, Init(rs), schedule, 0);
  }

  // ----- progress

  /** Whether core k finds the cycle total below its own. */
  predicate Raises(rs: seq<Report>, k: nat)
    requires k < |rs|
  {
    MaxCycles(rs, k) < rs[k].cycles
  }

  /** How many accesses the holder k at pc has still to make. */
  function Left(rs: seq<Report>, k: nat, pc: Pc): nat
    requires k < |rs|
  {
    var w := if Raises(rs, k) then 1 else 0;
    match pc
    case Waiting => 5 + w
    case Comparing => 4 + w
    case Writing => 4
    case Reading => 3
    case Adding(_) => 2
    case HandingOff => 1
    case Finished => 0
  }

  function Repeat(k: nat, n: nat): seq<nat> {
    seq(n, i => k)
  }

  /** The accesses of the cores from k on, in the only order in which they can take effect. */
  function Work(rs: seq<Report>, k: nat): (w: seq<nat>)
    requires k <= |rs|
    ensures |w| <= 6 * (|rs| - k)
    decreases |rs| - k
  {
    if k == |rs| then [] else Repeat(k, Left(rs, k, Waiting)) + Work(rs, k + 1)
  }

  /** The same from state s on, when core k holds the baton. */
  function Remaining(rs: seq<Report>, s: State, k: nat): seq<nat>
    requires Fits(rs, s) && k <= |rs|
  {
    if k == |rs| then [] else Repeat(k, Left(rs, k, s.pcs[k])) + Work(rs, k + 1)
  }

  /** w can be got from the schedule by leaving out accesses. */
  predicate Contains(schedule: seq<nat>, w: seq<nat>)
    decreases |schedule|
  {
    if w == [] then true
    else if schedule == [] then false
    else Contains(schedule[1..], if schedule[0] == w[0] then w[1..] else w)
  }

  predicate AllFinished(s: State) {
    forall i :: 0 <= i < |s.pcs| ==> s.pcs[i] == Finished
  }

  /** An access of the holder is the next one of the remaining work, and any other has no effect. */
  lemma StepWorks(rs: seq<Report>, s: State, q: nat, k: nat) returns (k': nat)
    requires Held(rs, s, k)
    ensures Held(rs, Step(rs, s, q), k')
    ensures var w := Remaining(rs, s, k);
            Remaining(rs, Step(rs, s, q), k') == if w != [] && q == w[0] then w[1..] else w
  {
    k' := StepHeld(rs, s, q, k);
    if q != k || k == |rs| {
      SameHolder(rs, s, k, k');
    } else if s.pcs[k] == HandingOff {
      HolderHandsOff(rs, s, k);
      SameHolder(rs, Step(rs, s, k), k + 1, k');
      LastAccess(rs, s, k);
    } else {
      HolderWorks(rs, s, k);
      SameHolder(rs, Step(rs, s, k), k, k');
      OneAccess(rs, s, k);
    }
  }

  /** At most one core holds the baton. */
  lemma SameHolder(rs: seq<Report>, s: State, k: nat, k': nat)
    requires Held(rs, s, k) && Held(rs, s, k')
    ensures k == k'
  {
    hide Totals, SumPkts, MaxCycles;
    assert s.flags[k] && s.flags[k'];
  }

  lemma LastAccess(rs: seq<Report>, s: State, k: nat)
    requires Held(rs, s, k) && k < |rs| && s.pcs[k] == HandingOff && Held(rs, Step(rs, s, k), k + 1)
    ensures Remaining(rs, s, k) == [k] + Remaining(rs, Step(rs, s, k), k + 1)
  {
    hide Totals, SumPkts, MaxCycles, Raises;
    assert Repeat(k, 1) == [k];
    if k + 1 < |rs| {
      assert Step(rs, s, k).pcs[k + 1] == Waiting;
    }
  }

  lemma OneAccess(rs: seq<Report>, s: State, k: nat)
    requires Held(rs, s, k) && k < |rs| && s.pcs[k] != HandingOff
    ensures Remaining(rs, s, k) == [k] + Remaining(rs, Step(rs, s, k), k)
  {
    hide SumPkts, MaxCycles;
    var n := Left(rs, k, Step(rs, s, k).pcs[k]);
    assert Left(rs, k, s.pcs[k]) == n + 1;
    assert Repeat(k, n + 1) == [k] + Repeat(k, n);
  }

  /** From any state of the protocol, a schedule brings all cores to the end exactly if it contains the
      remaining accesses in order; nothing else about it matters. */
  lemma {:induction false} FinishesIff(rs: seq<Report>, s: State, schedule: seq<nat>, k: nat)
    requires Held(rs, s, k)
    ensures AllFinished(Run(rs, s, schedule)) <==> Contains(schedule, Remaining(rs, s, k))
    decreases |schedule|
  {
    hide Totals, Step, Left, Work;
    if schedule == [] {
      DoneIffNothingLeft(rs, s, k);
    } else {
      var w := Remaining(rs, s, k);
      var k' := StepWorks(rs, s, schedule[0], k);
      FinishesIff(rs, Step(rs, s, schedule[0]), schedule[1..], k');
      ContainsNothing(schedule[1..]);
    }
  }

  lemma DoneIffNothingLeft(rs: seq<Report>, s: State, k: nat)
    requires Held(rs, s, k)
    ensures AllFinished(s) <==> Remaining(rs, s, k) == []
  {
    hide Totals, MaxCycles, SumPkts;
    if k < |rs| {
      assert Left(rs, k, s.pcs[k]) > 0;
    }
  }

  lemma ContainsNothing(schedule: seq<nat>)
    ensures Contains(schedule, [])
  {
  }

  /** A round gives every core at least one access. */
  predicate IsRound(rs: seq<Report>, round: seq<nat>) {
    forall q :: 0 <= q < |rs| ==> q in round
  }

  function Concat(rounds: seq<seq<nat>>): seq<nat> {
    if rounds == [] then [] else rounds[0] + Concat(rounds[1..])
  }

  /** What is left of w after as much as possible was taken from the schedule. */
  function Rest(schedule: seq<nat>, w: seq<nat>): (r: seq<nat>)
    ensures Contains(schedule, w) <==> r == []
    ensures |r| <= |w|
    decreases |schedule|
  {
    if w == [] || schedule == [] then w
    else Rest(schedule[1..], if schedule[0] == w[0] then w[1..] else w)
  }

  lemma {:induction false} RestConcat(a: seq<nat>, b: seq<nat>, w: seq<nat>)
    ensures Rest(a + b, w) == Rest(b, Rest(a, w))
    decreases |a|
  {
    if a == [] {
      assert a + b == b;
    } else if w != [] {
      assert (a + b)[1..] == a[1..] + b;
      RestConcat(a[1..], b, if a[0] == w[0] then w[1..] else w);
    }
  }

  lemma {:induction false} RestShrinks(a: seq<nat>, w: seq<nat>)
    requires w != [] && w[0] in a
    ensures |Rest(a, w)| < |w|
    decreases |a|
  {
    if a[0] != w[0] {
      RestShrinks(a[1..], w);
    }
  }

  predicate InRange(rs: seq<Report>, w: seq<nat>) {
    forall i :: 0 <= i < |w| ==> w[i] < |rs|
  }

  lemma {:induction false} RestInRange(rs: seq<Report>, a: seq<nat>, w: seq<nat>)
    requires InRange(rs, w)
    ensures InRange(rs, Rest(a, w))
    decreases |a|
  {
    if a != [] && w != [] {
      RestInRange(rs, a[1..], if a[0] == w[0] then w[1..] else w);
    }
  }

  lemma {:induction false} RoundsFinishWork(rs: seq<Report>, rounds: seq<seq<nat>>, w: seq<nat>)
    requires forall i :: 0 <= i < |rounds| ==> IsRound(rs, rounds[i])
    requires InRange(rs, w) && |w| <= |rounds|
    ensures Contains(Concat(rounds), w)
    decreases |rounds|
  {
    if w == [] {
      ContainsNothing(Concat(rounds));
    } else {
      var a, b := rounds[0], Concat(rounds[1..]);
      assert IsRound(rs, rounds[0]) && w[0] in a;
      RestShrinks(a, w);
      RestInRange(rs, a, w);
      RoundsFinishWork(rs, rounds[1..], Rest(a, w));
      RestConcat(a, b, w);
    }
  }

  lemma {:induction false} WorkInRange(rs: seq<Report>, k: nat)
    requires k <= |rs|
    ensures InRange(rs, Work(rs, k))
    decreases |rs| - k
  {
    hide Left;
    if k < |rs| {
      WorkInRange(rs, k + 1);
    }
  }

  /** Every schedule in which each core keeps getting its turn finishes: six rounds for each core are enough. */
  lemma FairSchedulesFinish(rs: seq<Report>, rounds: seq<seq<nat>>)
    requires forall i :: 0 <= i < |rounds| ==> IsRound(rs, rounds[i])
    requires |rounds| >= 6 * |rs|
    ensures AllFinished(Run(rs, Init(rs), Concat(rounds)))
  {
    hide Step, Left, Held, Run, Concat, Contains, Work;
    StartHeld(rs);
    StartsWithAllWork(rs);
    WorkInRange(rs, 0);
    RoundsFinishWork(rs, rounds, Work(rs, 0));
    FinishesIff(rs, Init(rs), Concat(rounds), 0);
  }

  lemma StartsWithAllWork(rs: seq<Report>)
    ensures Remaining(rs, Init(rs), 0) == Work(rs, 0)
  {
    hide Left;
  }

  /** And when all have finished, the totals are the sum and the maximum over all of them. */
  lemma FinalTotals(rs: seq<Report>, schedule: seq<nat>)
    ensures var s := Run(rs, Init(rs), schedule);
            AllFinished(s) ==>
              s.totalPkts == SumPkts(rs, |rs|) % 0x1_0000_0000 && s.totalCycle == MaxCycles(rs, |rs|)
  {
    hide SumPkts, MaxCycles;
    StartHeld(rs);
    var k := RunHeld(rs, Init(rs), schedule, 0);
    hide Run;
  }

  // ----- the 32-bit packet total

  const PKT_BURST := 64
  const ROUNDS := 64 * 1024 * 1024 / PKT_BURST

  /** Cores that send the configured number of rounds. */
  predicate FullRounds(rs: seq<Report>) {
    forall i :: 0 <= i < |rs| ==> rs[i].pkts == ROUNDS * PKT_BURST
  }

  lemma {:induction false} SumOfFullRounds(rs: seq<Report>, n: nat)
    requires FullRounds(rs) && n <= |rs|
    ensures SumPkts(rs, n) == n * 0x400_0000
  {
    if n > 0 {
      SumOfFullRounds(rs, n - 1);
    }
  }

  /** The 32-bit total is the number of packets sent exactly for up to 63 cores; the table has 24. */
  lemma TotalFitsIff(rs: seq<Report>)
    requires FullRounds(rs)
    ensures SumPkts(rs, |rs|) % 0x1_0000_0000 == SumPkts(rs, |rs|) <==> |rs| <= 63
    ensures MAX_LCORE <= 63
  {
    SumOfFullRounds(rs, |rs|);
  }
}
