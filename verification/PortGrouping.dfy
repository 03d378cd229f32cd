/** Run-length grouping of the destination ports of a burst: the prebuilt table `gptbl`, the four-wide step
    `port_groupx4` and the scalar step `GROUP_PORT_STEP`. */
module PortGrouping {
  import opened Bytes

  const FWDSTEP := 4
  const GRPMSK := 15
  const BAD_PORT: u16 := 0xffff

  // ----- what grouping has to compute

  /** Position i starts a run of equal ports. */
  predicate Head(d: seq<u16>, i: nat)
    requires i < |d|
  {
    i == 0 || d[i - 1] != d[i]
  }

  /** d[h..h+n] is a run that cannot be extended to the right. */
  predicate MaximalRun(d: seq<u16>, h: nat, n: nat) {
    && 1 <= n
    && h + n <= |d|
    && (forall k :: h <= k < h + n ==> d[k] == d[h])
    && (h + n == |d| || d[h + n] != d[h])
  }

  /** Every run head of d holds its exact run length. */
  predicate RunLengths(d: seq<u16>, pnum: seq<nat>) {
    && |d| <= |pnum|
    && (forall h :: 0 <= h < |d| && Head(d, h) ==> MaximalRun(d, h, pnum[h]))
  }

  /** The state of the algorithm once position j has been seen: lp heads the run that contains j and counts
      it so far, and the runs before lp are final. */
  ghost predicate Grouped(d: seq<u16>, pnum: seq<nat>, lp: nat, j: nat) {
    && lp <= j < |d|
    && j < |pnum|
    && Head(d, lp)
    && (forall k :: lp <= k <= j ==> d[k] == d[lp])
    && pnum[lp] == j - lp + 1
    && (forall h :: 0 <= h < lp && Head(d, h) ==> MaximalRun(d, h, pnum[h]) && h + pnum[h] <= lp)
  }

  // ----- the table

  /** One row of the table: the four 16-bit counters of the `pnum` constant in memory order (lowest bits
      first), the index of the new last counter and the value to add to the old one. */
  datatype GroupEntry = GroupEntry(n0: nat, n1: nat, n2: nat, n3: nat, idx: nat, lpv: nat)

  function Gptbl(v: nat): GroupEntry
    requires v <= GRPMSK
  {
    match v
    case 0 => GroupEntry(1, 1, 1, 1, 4, 0)
    case 1 => GroupEntry(2, 1, 1, 1, 4, 1)
    case 2 => GroupEntry(1, 2, 1, 1, 4, 0)
    case 3 => GroupEntry(3, 2, 1, 1, 4, 2)
    case 4 => GroupEntry(1, 1, 2, 1, 4, 0)
    case 5 => GroupEntry(2, 1, 2, 1, 4, 1)
    case 6 => GroupEntry(1, 3, 2, 1, 4, 0)
    case 7 => GroupEntry(4, 3, 2, 1, 4, 3)
    case 8 => GroupEntry(1, 1, 1, 2, 3, 0)
    case 9 => GroupEntry(2, 1, 1, 2, 3, 1)
    case 10 => GroupEntry(1, 2, 1, 2, 3, 0)
    case 11 => GroupEntry(3, 2, 1, 2, 3, 2)
    case 12 => GroupEntry(1, 1, 3, 2, 2, 0)
    case 13 => GroupEntry(2, 1, 3, 2, 2, 1)
    case 14 => GroupEntry(1, 4, 3, 2, 1, 0)
    case _ => GroupEntry(5, 4, 3, 2, 0, 4)
  }

  /** The compare, unpack and movemask of the four low lanes. */
  function EqualMask(dp1: seq<u16>, dp2: seq<u16>): (v: nat)
    requires |dp1| >= 4 && |dp2| >= 4
    ensures v <= GRPMSK
  {
    Bit(dp1[0] == dp2[0], 1) + Bit(dp1[1] == dp2[1], 2) + Bit(dp1[2] == dp2[2], 4) + Bit(dp1[3] == dp2[3], 8)
  }

  function Bit(b: bool, weight: nat): nat {
    if b then weight else 0
  }

  /** Length of the run that starts at position i of a five-element window, cut at the window's end;
      w[0..5] are the ports. */
  function WindowRun(w: seq<u16>, i: nat): (n: nat)
    requires |w| == 5 && i < 5
    ensures 1 <= n <= 5 - i
    ensures forall k :: i <= k < i + n ==> w[k] == w[i]
    ensures i + n < 5 ==> w[i + n] != w[i]
    decreases 5 - i
  {
    if i < 4 && w[i] == w[i + 1] then 1 + WindowRun(w, i + 1) else 1
  }

  /** First position of the run that reaches the end of w[..i+1]. */
  function LastHead(w: seq<u16>, i: nat): (h: nat)
    requires |w| == 5 && i < 5
    ensures h <= i
    ensures forall k :: h <= k <= i ==> w[k] == w[h]
    ensures h == 0 || w[h - 1] != w[h]
  {
    if i > 0 && w[i - 1] == w[i] then LastHead(w, i - 1) else i
  }

  /** The sixteen rows of the table are what the five ports of a window call for. */
  lemma TableIsRunLengths(w: seq<u16>)
    requires |w| == 5
    ensures Gptbl(EqualMask(w[..4], w[1..])) ==
            GroupEntry(WindowRun(w, 0), WindowRun(w, 1), WindowRun(w, 2), WindowRun(w, 3),
                       LastHead(w, 4), WindowRun(w, 0) - 1)
  {
  }

  // ----- the two steps

  /** `port_groupx4`: pn is the whole counter array, b the offset it is called with; the second component is
      the new lp. Only the four low lanes of dp1 and dp2 count. */
  function GroupStep(pn: seq<nat>, lp: nat, b: nat, dp1: seq<u16>, dp2: seq<u16>): (r: (seq<nat>, nat))
    requires |dp1| >= 4 && |dp2| >= 4
    requires lp < |pn| && b + 5 <= |pn|
  {
    var v := EqualMask(dp1, dp2);
    ApplyEntry(pn, lp, b, v == GRPMSK, Gptbl(v))
  }

  /** Update the last counter; if a port has changed, store the row's counters and a one, and move lp. */
  function ApplyEntry(pn: seq<nat>, lp: nat, b: nat, same: bool, g: GroupEntry): (r: (seq<nat>, nat))
    requires lp < |pn| && b + 5 <= |pn|
    ensures |r.0| == |pn|
  {
    var counted := pn[lp := Add16(pn[lp], g.lpv)];
    if same then (counted, lp)
    else (StoreAt(counted, b, [g.n0, g.n1, g.n2, g.n3, 1]), b + g.idx)
  }

  /** `GROUP_PORT_STEP` at position i with the last port dlp: the new counters, lp and dlp. */
  function ScalarStep(pn: seq<nat>, lp: nat, dlp: u16, d: seq<u16>, i: nat): (r: (seq<nat>, nat, u16))
    requires lp < |pn| && i < |d| && i < |pn|
    ensures |r.0| == |pn|
  {
    if dlp == d[i] then (pn[lp := Add16(pn[lp], 1)], lp, dlp)
    else (pn[i := 1], i, d[i])
  }

  /** What a table row leaves in each slot. */
  lemma EntrySlots(pn: seq<nat>, lp: nat, b: nat, g: GroupEntry)
    requires lp <= b && b + 5 <= |pn| && pn[lp] + g.lpv <= 0xffff
    ensures var pn' := ApplyEntry(pn, lp, b, true, g).0;
            && pn'[lp] == pn[lp] + g.lpv
            && (forall h :: 0 <= h < b && h != lp ==> pn'[h] == pn[h])
    ensures var pn' := ApplyEntry(pn, lp, b, false, g).0;
            && (lp < b ==> pn'[lp] == pn[lp] + g.lpv)
            && (forall h :: 0 <= h < b && h != lp ==> pn'[h] == pn[h])
            && pn'[b] == g.n0 && pn'[b + 1] == g.n1 && pn'[b + 2] == g.n2 && pn'[b + 3] == g.n3 && pn'[b + 4] == 1
  {
  }

  /** The four-wide step moves the grouping from position b to position b + 4: counters of finished runs
      become final although the store covers slots b..b+4, and lp may be one of them. */
  lemma GroupStepAdvances(d: seq<u16>, pn: seq<nat>, lp: nat, b: nat, dp1: seq<u16>, dp2: seq<u16>)
    requires Grouped(d, pn, lp, b)
    requires b + 4 < |d| <= 0xffff && b + 5 <= |pn|
    requires |dp1| >= 4 && |dp2| >= 4 && dp1[..4] == d[b..b + 4] && dp2[..4] == d[b + 1..b + 5]
    ensures var r := GroupStep(pn, lp, b, dp1, dp2); Grouped(d, r.0, r.1, b + 4)
  {
    var w := d[b..b + 5];
    assert w[..4] == d[b..b + 4] && w[1..] == d[b + 1..b + 5];
    MaskOfWindow(w, dp1, dp2);
    TableIsRunLengths(w);
    AllEqual(w);
    var g := Gptbl(EqualMask(dp1, dp2));
    EntrySlots(pn, lp, b, g);
    var (pn', lp') := GroupStep(pn, lp, b, dp1, dp2);
    if WindowRun(w, 0) == 5 {
      RunContinues(d, pn, lp, b, pn');
    } else {
      NewRunStarts(d, pn, lp, b, pn', lp');
    }
  }

  lemma RunContinues(d: seq<u16>, pn: seq<nat>, lp: nat, b: nat, pn': seq<nat>)
    requires Grouped(d, pn, lp, b) && b + 4 < |d| && b + 5 <= |pn| == |pn'|
    requires WindowRun(d[b..b + 5], 0) == 5
    requires forall h :: 0 <= h < b && h != lp ==> pn'[h] == pn[h]
    requires pn'[lp] == pn[lp] + 4
    ensures Grouped(d, pn', lp, b + 4)
  {
  }

  lemma NewRunStarts(d: seq<u16>, pn: seq<nat>, lp: nat, b: nat, pn': seq<nat>, lp': nat)
    requires Grouped(d, pn, lp, b) && b + 4 < |d| && b + 5 <= |pn| == |pn'|
    requires var w := d[b..b + 5];
             && WindowRun(w, 0) < 5
             && lp' == b + LastHead(w, 4)
             && LastHead(w, 4) > 0
             && (forall h :: 0 <= h < b && h != lp ==> pn'[h] == pn[h])
             && (lp < b ==> pn'[lp] == pn[lp] + WindowRun(w, 0) - 1)
             && pn'[b] == WindowRun(w, 0) && pn'[b + 1] == WindowRun(w, 1)
             && pn'[b + 2] == WindowRun(w, 2) && pn'[b + 3] == WindowRun(w, 3) && pn'[b + 4] == 1
    ensures Grouped(d, pn', lp', b + 4)
  {
    var w := d[b..b + 5];
    LastHeadRun(w);
    assert Head(d, lp') by { assert w[lp' - b - 1] == d[lp' - 1]; }
    assert forall k :: lp' <= k <= b + 4 ==> d[k] == w[k - b];
    assert forall h :: lp < h <= b ==> d[h - 1] == d[lp] && !Head(d, h);
    forall h | 0 <= h < lp' && Head(d, h)
      ensures MaximalRun(d, h, pn'[h]) && h + pn'[h] <= lp'
    {
      if h == lp {
        OpenRunEnds(d, lp, b, pn'[lp]);
      } else if b < h {
        WindowCounter(d, b, pn', h);
      }
    }
  }

  /** A run that starts and ends inside the window has its counter from the table. */
  lemma WindowCounter(d: seq<u16>, b: nat, pn: seq<nat>, h: nat)
    requires b + 4 < |d| && b + 5 <= |pn| && b < h < b + LastHead(d[b..b + 5], 4)
    requires var w := d[b..b + 5];
             pn[b + 1] == WindowRun(w, 1) && pn[b + 2] == WindowRun(w, 2) && pn[b + 3] == WindowRun(w, 3)
    ensures MaximalRun(d, h, pn[h]) && h + pn[h] <= b + LastHead(d[b..b + 5], 4)
  {
    WindowRunIsMaximal(d, b, h - b);
  }

  /** The run that was open at position b ends inside the window. */
  lemma OpenRunEnds(d: seq<u16>, lp: nat, b: nat, n: nat)
    requires lp <= b && b + 4 < |d|
    requires forall k :: lp <= k <= b ==> d[k] == d[lp]
    requires WindowRun(d[b..b + 5], 0) < 5 && LastHead(d[b..b + 5], 4) > 0
    requires n == b - lp + WindowRun(d[b..b + 5], 0)
    ensures MaximalRun(d, lp, n) && lp + n <= b + LastHead(d[b..b + 5], 4)
  {
  }

  lemma WindowRunIsMaximal(d: seq<u16>, b: nat, i: nat)
    requires b + 4 < |d| && i < LastHead(d[b..b + 5], 4)
    ensures var n := WindowRun(d[b..b + 5], i);
            MaximalRun(d, b + i, n) && i + n <= LastHead(d[b..b + 5], 4)
  {
  }

  lemma MaskOfWindow(w: seq<u16>, dp1: seq<u16>, dp2: seq<u16>)
    requires |w| == 5 && |dp1| >= 4 && |dp2| >= 4 && dp1[..4] == w[..4] && dp2[..4] == w[1..]
    ensures EqualMask(dp1, dp2) == EqualMask(w[..4], w[1..])
  {
  }

  lemma AllEqual(w: seq<u16>)
    requires |w| == 5
    ensures EqualMask(w[..4], w[1..]) == GRPMSK <==> LastHead(w, 4) == 0
    ensures EqualMask(w[..4], w[1..]) == GRPMSK <==> w[0] == w[1] == w[2] == w[3] == w[4]
  {
  }

  /** The run that LastHead finds reaches the end of the window. */
  lemma LastHeadRun(w: seq<u16>)
    requires |w| == 5
    ensures var h := LastHead(w, 4); h < 4 ==> WindowRun(w, h) == 5 - h
  {
  }

  lemma ScalarStepAdvances(d: seq<u16>, pn: seq<nat>, lp: nat, dlp: u16, j: nat)
    requires Grouped(d, pn, lp, j) && dlp == d[j]
    requires j + 1 < |d| <= |pn| && |d| <= 0xffff
    ensures var (pn', lp', dlp') := ScalarStep(pn, lp, dlp, d, j + 1);
            Grouped(d, pn', lp', j + 1) && dlp' == d[j + 1]
  {
  }

  // ----- the whole algorithm

  /** Round down to a multiple of FWDSTEP. */
  function AlignFloor(n: nat): (k: nat)
    ensures k % FWDSTEP == 0 && k <= n < k + FWDSTEP
  {
    n - n % FWDSTEP
  }

  /** Counters and lp after the vector loop has reached j. */
  function VectorLoop(pn: seq<nat>, d: seq<u16>, j: nat): (r: (seq<nat>, nat))
    requires FWDSTEP <= j <= |d| < |pn| && j % FWDSTEP == 0
    ensures |r.0| == |pn| && r.1 <= j - FWDSTEP
  {
    if j == FWDSTEP then (pn[0 := 1], 0)
    else
      var (pn', lp) := VectorLoop(pn, d, j - 4);
      LpStaysLow(pn', lp, j - 8, d[j - 8..j - 4], d[j - 7..j - 3]);
      GroupStep(pn', lp, j - 8, d[j - 8..j - 4], d[j - 7..j - 3])
  }

  lemma LpStaysLow(pn: seq<nat>, lp: nat, b: nat, dp1: seq<u16>, dp2: seq<u16>)
    requires |dp1| >= 4 && |dp2| >= 4 && lp <= b && b + 5 <= |pn|
    ensures GroupStep(pn, lp, b, dp1, dp2).1 <= b + 4
  {
  }

  /** The vector phase for the first k packets: the loop, the step with the last port repeated, and the
      removal of the count that the repeated port added. */
  function VectorPhase(pn: seq<nat>, d: seq<u16>, k: nat): (r: (seq<nat>, nat))
    requires FWDSTEP <= k <= |d| < |pn| && k % FWDSTEP == 0
    ensures |r.0| == |pn| && r.1 <= k
  {
    var (pn', lp) := VectorLoop(pn, d, k);
    var dp2 := [d[k - 3], d[k - 2], d[k - 1], d[k - 1]];
    LpStaysLow(pn', lp, k - 4, d[k - 4..k], dp2);
    var (pn'', lp') := GroupStep(pn', lp, k - 4, d[k - 4..k], dp2);
    (pn''[lp' := Sub16(pn''[lp'], 1)], lp')
  }

  /** The scalar steps for positions i, i + 1, ... */
  function ScalarTail(pn: seq<nat>, lp: nat, dlp: u16, d: seq<u16>, i: nat): (r: seq<nat>)
    requires i <= |d| < |pn| && lp < |pn|
    ensures |r| == |pn|
    decreases |d| - i
  {
    if i == |d| then pn
    else
      var (pn', lp', dlp') := ScalarStep(pn, lp, dlp, d, i);
      ScalarTail(pn', lp', dlp', d, i + 1)
  }

  /** All counters after grouping the ports d; pn is what the array held before. */
  function GroupPorts(pn: seq<nat>, d: seq<u16>): (r: seq<nat>)
    requires |d| < |pn|
  {
    var k := AlignFloor(|d|);
    if k != 0 then
      var (pn', lp) := VectorPhase(pn, d, k);
      ScalarTail(pn', lp, d[k - 1], d, k)
    else
      ScalarTail(pn, |pn| - 1, BAD_PORT - 1, d, 0)
  }

  // ----- correctness

  lemma GroupedPrefix(d: seq<u16>, e: seq<u16>, pn: seq<nat>, lp: nat, j: nat)
    requires Grouped(e, pn, lp, j)
    requires j < |d| && d[..j + 1] == e[..j + 1]
    ensures Grouped(d, pn, lp, j)
  {
  }

  lemma FirstCounter(pn: seq<nat>, d: seq<u16>)
    requires 0 < |d| < |pn|
    ensures Grouped(d, pn[0 := 1], 0, 0)
  {
  }

  lemma {:induction false} VectorLoopGroups(pn: seq<nat>, d: seq<u16>, j: nat)
    requires FWDSTEP <= j <= |d| < |pn| && j % FWDSTEP == 0 && |d| <= 0xffff
    ensures var (pn', lp) := VectorLoop(pn, d, j); Grouped(d, pn', lp, j - FWDSTEP)
  {
    hide Grouped, GroupStep;
    if j == FWDSTEP {
      FirstCounter(pn, d);
    } else {
      VectorLoopGroups(pn, d, j - 4);
      var (pn', lp) := VectorLoop(pn, d, j - 4);
      GroupStepAdvances(d, pn', lp, j - 8, d[j - 8..j - 4], d[j - 7..j - 3]);
    }
  }

  lemma VectorPhaseGroups(pn: seq<nat>, d: seq<u16>, k: nat)
    requires FWDSTEP <= k <= |d| < |pn| && k % FWDSTEP == 0 && |d| <= 0xffff
    ensures var (pn', lp) := VectorPhase(pn, d, k); Grouped(d, pn', lp, k - 1)
  {
    VectorLoopGroups(pn, d, k);
    var (pn', lp) := VectorLoop(pn, d, k);
    var e := d[..k] + [d[k - 1]];
    GroupedPrefix(e, d, pn', lp, k - 4);
    var dp2 := [d[k - 3], d[k - 2], d[k - 1], d[k - 1]];
    assert e[k - 4..k] == d[k - 4..k];
    assert dp2[..4] == e[k - 3..k + 1];
    GroupStepAdvances(e, pn', lp, k - 4, d[k - 4..k], dp2);
    var (pn'', lp') := GroupStep(pn', lp, k - 4, d[k - 4..k], dp2);
    LastRepeatRemoved(e, pn'', lp', k);
    GroupedPrefix(d, e, pn''[lp' := Sub16(pn''[lp'], 1)], lp', k - 1);
  }

  /** Position k repeats the port before it, so lp is not k and its counter is one too high for k - 1. */
  lemma LastRepeatRemoved(e: seq<u16>, pn: seq<nat>, lp: nat, k: nat)
    requires Grouped(e, pn, lp, k) && 1 <= k && e[k - 1] == e[k] && k < 0xffff
    ensures Grouped(e, pn[lp := Sub16(pn[lp], 1)], lp, k - 1)
  {
  }

  lemma {:induction false} ScalarTailGroups(pn: seq<nat>, lp: nat, dlp: u16, d: seq<u16>, i: nat)
    requires 1 <= i <= |d| < |pn| && |d| <= 0xffff
    requires Grouped(d, pn, lp, i - 1) && dlp == d[i - 1]
    ensures RunLengths(d, ScalarTail(pn, lp, dlp, d, i))
    decreases |d| - i
  {
    if i == |d| {
    } else {
      ScalarStepAdvances(d, pn, lp, dlp, i - 1);
      var (pn', lp', dlp') := ScalarStep(pn, lp, dlp, d, i);
      ScalarTailGroups(pn', lp', dlp', d, i + 1);
    }
  }

  /** The port that the code takes as "never used" is the first port, and there is no vector phase. */
  predicate SentinelClash(d: seq<u16>) {
    0 < |d| < FWDSTEP && d[0] == BAD_PORT - 1
  }

  /** Grouping is run-length encoding, for bursts of every length the 16-bit counters can hold. */
  lemma GroupPortsIsRunLengths(pn: seq<nat>, d: seq<u16>)
    requires |d| < |pn| && |d| <= 0xffff && !SentinelClash(d)
    ensures RunLengths(d, GroupPorts(pn, d))
  {
    var k := AlignFloor(|d|);
    if k != 0 {
      VectorPhaseGroups(pn, d, k);
      var (pn', lp) := VectorPhase(pn, d, k);
      ScalarTailGroups(pn', lp, d[k - 1], d, k);
    } else if |d| > 0 {
      var (pn', lp, dlp) := ScalarStep(pn, |pn| - 1, BAD_PORT - 1, d, 0);
      ScalarTailGroups(pn', lp, dlp, d, 1);
    }
  }

  /** With the sentinel as first port of a short burst, the first counter keeps whatever the array held. */
  lemma {:induction false} ClashLeavesFirstCounter(pn: seq<nat>, lp: nat, dlp: u16, d: seq<u16>, i: nat)
    requires i <= |d| < |pn| && 0 < lp < |pn|
    requires i == 0 ==> |d| > 0 && dlp == d[0]
    ensures ScalarTail(pn, lp, dlp, d, i)[0] == pn[0]
    decreases |d| - i
  {
    if i < |d| {
      var (pn', lp', dlp') := ScalarStep(pn, lp, dlp, d, i);
      ClashLeavesFirstCounter(pn', lp', dlp', d, i + 1);
    }
  }

  lemma ClashFails(n: nat, d: seq<u16>) returns (pn: seq<nat>)
    requires |d| < n && SentinelClash(d)
    ensures |pn| == n && !RunLengths(d, GroupPorts(pn, d))
  {
    pn := seq(n, i => 0);
    ClashLeavesFirstCounter(pn, n - 1, BAD_PORT - 1, d, 0);
    assert Head(d, 0);
  }

  /** Grouping is right whatever n uninitialised counters hold. */
  ghost predicate GroupsAlways(n: nat, d: seq<u16>)
    requires |d| < n
  {
    forall pn: seq<nat> | |pn| == n :: RunLengths(d, GroupPorts(pn, d))
  }

  /** Exactly when grouping does not depend on the uninitialised array. */
  lemma GroupsAlwaysIffNoClash(n: nat, d: seq<u16>)
    requires |d| < n && |d| <= 0xffff
    ensures GroupsAlways(n, d) <==> !SentinelClash(d)
  {
    if SentinelClash(d) {
      var pn := ClashFails(n, d);
    } else {
      forall pn: seq<nat> | |pn| == n
        ensures RunLengths(d, GroupPorts(pn, d))
      {
        GroupPortsIsRunLengths(pn, d);
      }
    }
  }

  // ----- what the dispatch loop relies on

  /** Length of the run at the front of d. */
  function FirstRun(d: seq<u16>): (n: nat)
    requires |d| > 0
    ensures MaximalRun(d, 0, n)
  {
    if |d| > 1 && d[0] == d[1] then
      var n := FirstRun(d[1..]);
      assert d[1..][n - 1] == d[n] && (1 + n < |d| ==> d[1..][n] == d[1 + n]);
      assert forall k :: 1 <= k < 1 + n ==> d[k] == d[1..][k - 1];
      1 + n
    else 1
  }

  /** From a run head, the counter is the length of the run that starts there, and the next position is a
      run head again (with a different port) or the end of the burst. */
  lemma CounterIsFirstRun(d: seq<u16>, pn: seq<nat>, j: nat)
    requires RunLengths(d, pn) && j < |d| && Head(d, j)
    ensures pn[j] == FirstRun(d[j..])
    ensures j + pn[j] <= |d|
    ensures j + pn[j] < |d| ==> Head(d, j + pn[j]) && d[j + pn[j]] != d[j]
  {
  }

  // ----- the four-wide step in place

  lemma OnlyLowLanesCount(pn: seq<nat>, lp: nat, b: nat, dp1: seq<u16>, dp2: seq<u16>, dp1': seq<u16>, dp2': seq<u16>)
    requires |dp1| >= 4 && |dp2| >= 4 && |dp1'| >= 4 && |dp2'| >= 4
    requires dp1[..4] == dp1'[..4] && dp2[..4] == dp2'[..4]
    requires lp < |pn| && b + 5 <= |pn|
    ensures GroupStep(pn, lp, b, dp1, dp2) == GroupStep(pn, lp, b, dp1', dp2')
  {
  }

  /** `port_groupx4`, called with &pnum[b]. */
  method PortGroupx4(pnum: array<nat>, b: nat, lp: nat, dp1: seq<u16>, dp2: seq<u16>) returns (last: nat)
    requires |dp1| >= 4 && |dp2| >= 4
    requires lp < pnum.Length && b + 5 <= pnum.Length
    modifies pnum
    ensures (pnum[..], last) == GroupStep(old(pnum[..]), lp, b, dp1, dp2)
  {
    last := lp;
    var v := EqualMask(dp1, dp2);
    var g := Gptbl(v);
    pnum[lp] := Add16(pnum[lp], g.lpv);
    if v != GRPMSK {
      pnum[b], pnum[b + 1], pnum[b + 2], pnum[b + 3] := g.n0, g.n1, g.n2, g.n3;
      pnum[b + FWDSTEP] := 1;
      last := b + g.idx;
    }
    assert pnum[..] == GroupStep(old(pnum[..]), lp, b, dp1, dp2).0;
  }

  /** `GROUP_PORT_STEP` */
  method GroupPortStep(dlp: u16, dcp: array<u16>, lp: nat, pnum: array<nat>, idx: nat) returns (dlp': u16, lp': nat)
    requires lp < pnum.Length && idx < dcp.Length && idx < pnum.Length && dcp as object != pnum
    modifies pnum
    ensures (pnum[..], lp', dlp') == ScalarStep(old(pnum[..]), lp, dlp, dcp[..], idx)
  {
    dlp', lp' := dlp, lp;
    if dlp == dcp[idx] {
      pnum[lp] := Add16(pnum[lp], 1);
    } else {
      dlp' := dcp[idx];
      lp' := idx;
      pnum[lp'] := 1;
    }
    assert pnum[..] == ScalarStep(old(pnum[..]), lp, dlp, dcp[..], idx).0;
  }
}
