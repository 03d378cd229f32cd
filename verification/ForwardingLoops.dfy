/** The loops of the fast path and of the simple path, in place: packet bytes, destinations, run counters and
    TX buffers are updated as the burst is worked through. */
module ForwardingLoops {
  import opened Limits
  import opened Bytes
  import opened Frames
  import opened ExactMatch
  import opened PortGrouping
  import TxSpec
  import opened TxBuffer
  import opened Dispatch
  import opened Forwarding

  /** pkts[..n] holds the pairwise distinct buffers ms. */
  ghost predicate Burst(pkts: array<Mbuf>, ms: seq<Mbuf>)
    reads pkts
  {
    && |ms| <= pkts.Length
    && pkts[..|ms|] == ms
    && (forall i, j :: 0 <= i < j < |ms| ==> ms[i] != ms[j])
  }

  lemma BurstSlice(pkts: array<Mbuf>, ms: seq<Mbuf>, a: nat, b: nat)
    requires Burst(pkts, ms) && a <= b <= |ms|
    ensures pkts[a..b] == ms[a..b]
  {
    forall i | a <= i < b
      ensures pkts[i] == ms[i]
    {
      assert pkts[i] == pkts[..|ms|][i];
    }
  }

  /** Bytes and destination of one packet. */
  type Slot = (seq<byte>, u16)

  /** The buffers ms have types ts, and they and their destinations hold v. */
  ghost predicate Holds(ms: seq<Mbuf>, dp: seq<u16>, ts: seq<bv32>, v: seq<Slot>)
    reads ms
  {
    && |ms| == |ts| == |v| <= |dp|
    && (forall i :: 0 <= i < |ms| ==> ms[i].packetType == ts[i] && ms[i].data == v[i].0 && dp[i] == v[i].1)
  }

  ghost predicate Ready(v: Slot) {
    HasRoom(v.0) && v.1 < MAX_PORTS
  }

  /** The effect of the MAC rewrite, of the header check, and of both. */
  ghost function MacSlot(cfg: Config, v: Slot): (r: Slot)
    requires cfg.Valid() && Ready(v)
    ensures Ready(r)
  {
    (FastMac(v.0, PortEth(cfg, v.1)), v.1)
  }

  ghost function RfcSlot(t: bv32, v: Slot): Slot
    requires HasRoom(v.0)
  {
    Rfc1812(t, v.0, v.1)
  }

  ghost function OutSlot(cfg: Config, t: bv32, v: Slot): Slot
    requires cfg.Valid() && Ready(v)
  {
    FastOut(cfg, Packet(v.0, t), v.1)
  }

  /** `rfc1812_process` */
  method Rfc1812Process(m: Mbuf, dstPort: array<u16>, i: nat)
    requires HasRoom(m.data) && i < dstPort.Length
    modifies m`data, dstPort
    ensures (m.data, dstPort[i]) == RfcSlot(m.packetType, (old(m.data), old(dstPort[i])))
    ensures forall k :: 0 <= k < dstPort.Length && k != i ==> dstPort[k] == old(dstPort[k])
  {
    if HasIpv4Hdr(m.packetType) {
      var ihl := Sub8(m.data[VERSION_IHL], IPV4_MIN_VER_IHL);
      m.data := HopUpdate(m.data);
      var totalLength := Load16(m.data[TOTAL_LENGTH], m.data[TOTAL_LENGTH + 1]);
      if ihl > IPV4_MAX_VER_IHL_DIFF || (totalLength % 0x100 == 0 && totalLength < IPV4_HDR_LEN * 0x100) {
        dstPort[i] := BAD_PORT;
      }
    }
  }

  /** `process_packet` for packet j: the 16 header bytes are loaded before the hop update and stored after. */
  method ProcessPacket(cfg: Config, pkts: array<Mbuf>, dstPort: array<u16>, j: nat,
                       ghost ms: seq<Mbuf>, ghost ts: seq<bv32>, ghost v: seq<Slot>)
    requires cfg.Valid() && Burst(pkts, ms) && j < |ms| && Holds(ms, dstPort[..], ts, v) && Ready(v[j])
    modifies (set m <- ms)`data, dstPort
    ensures Holds(ms, dstPort[..], ts, v[j := OutSlot(cfg, ts[j], v[j])])
  {
    var m := pkts[j];
    assert m == ms[j];
    var te := m.data[..16];
    var ve := PortEth(cfg, dstPort[j]);
    LateStoreIsHarmless(m.data, ve);
    RewriteKeepsHeader(m.data, ve);
    Rfc1812Process(m, dstPort, j);
    te := BlendEth(te, ve);
    m.data := StoreAt(m.data, 0, te);
    assert (m.data, dstPort[j]) == OutSlot(cfg, ts[j], v[j]);
  }

  /** v with four consecutive slots replaced. */
  ghost function Four(v: seq<Slot>, j: nat, a: Slot, b: Slot, c: Slot, d: Slot): (r: seq<Slot>)
    requires j + 4 <= |v|
    ensures |r| == |v|
    ensures forall i :: 0 <= i < |v| ==>
      r[i] == if i == j then a else if i == j + 1 then b else if i == j + 2 then c else if i == j + 3 then d else v[i]
  {
    v[j := a][j + 1 := b][j + 2 := c][j + 3 := d]
  }

  /** One header check, for packet k. */
  method Rfc1812Step(m: Mbuf, dstPort: array<u16>, k: nat, ghost ms: seq<Mbuf>, ghost ts: seq<bv32>, ghost v: seq<Slot>)
    returns (ghost v': seq<Slot>)
    requires (forall i, j :: 0 <= i < j < |ms| ==> ms[i] != ms[j])
    requires k < |ms| && m == ms[k] && Holds(ms, dstPort[..], ts, v) && HasRoom(v[k].0)
    modifies m`data, dstPort
    ensures |v'| == |v| && v' == v[k := RfcSlot(ts[k], v[k])]
    ensures Holds(ms, dstPort[..], ts, v')
  {
    Rfc1812Process(m, dstPort, k);
    v' := v[k := RfcSlot(ts[k], v[k])];
  }

  /** One blended store. */
  method StoreEth(cfg: Config, m: Mbuf, te: seq<byte>, dstPort: array<u16>, k: nat,
                  ghost ms: seq<Mbuf>, ghost ts: seq<bv32>, ghost v: seq<Slot>)
    returns (ghost v': seq<Slot>)
    requires (forall i, j :: 0 <= i < j < |ms| ==> ms[i] != ms[j])
    requires cfg.Valid() && k < |ms| && m == ms[k] && Holds(ms, dstPort[..], ts, v) && Ready(v[k])
    requires te == BlendEth(v[k].0[..16], PortEth(cfg, v[k].1))
    modifies m`data
    ensures |v'| == |v| && v' == v[k := MacSlot(cfg, v[k])]
    ensures Holds(ms, dstPort[..], ts, v')
  {
    m.data := StoreAt(m.data, 0, te);
    v' := v[k := MacSlot(cfg, v[k])];
  }

  /** The first half of `processx4_step3`: four loads, four blends, four stores. */
  method RewriteMacx4(cfg: Config, p0: Mbuf, p1: Mbuf, p2: Mbuf, p3: Mbuf, dstPort: array<u16>, j: nat,
                      ghost ms: seq<Mbuf>, ghost ts: seq<bv32>, ghost v: seq<Slot>)
    returns (ghost v': seq<Slot>)
    requires (forall i, j :: 0 <= i < j < |ms| ==> ms[i] != ms[j])
    requires cfg.Valid() && j + FWDSTEP <= |ms| && Holds(ms, dstPort[..], ts, v)
    requires p0 == ms[j] && p1 == ms[j + 1] && p2 == ms[j + 2] && p3 == ms[j + 3]
    requires Ready(v[j]) && Ready(v[j + 1]) && Ready(v[j + 2]) && Ready(v[j + 3])
    modifies (set m <- ms)`data
    ensures |v'| == |v|
    ensures v' == Four(v, j, MacSlot(cfg, v[j]), MacSlot(cfg, v[j + 1]), MacSlot(cfg, v[j + 2]), MacSlot(cfg, v[j + 3]))
    ensures Holds(ms, dstPort[..], ts, v')
  {
    var te0 := BlendEth(p0.data[..16], PortEth(cfg, dstPort[j]));
    var te1 := BlendEth(p1.data[..16], PortEth(cfg, dstPort[j + 1]));
    var te2 := BlendEth(p2.data[..16], PortEth(cfg, dstPort[j + 2]));
    var te3 := BlendEth(p3.data[..16], PortEth(cfg, dstPort[j + 3]));
    v' := StoreEth(cfg, p0, te0, dstPort, j, ms, ts, v);
    v' := StoreEth(cfg, p1, te1, dstPort, j + 1, ms, ts, v');
    v' := StoreEth(cfg, p2, te2, dstPort, j + 2, ms, ts, v');
    v' := StoreEth(cfg, p3, te3, dstPort, j + 3, ms, ts, v');
  }

  /** The second half: four header checks. */
  method Rfc1812x4(p0: Mbuf, p1: Mbuf, p2: Mbuf, p3: Mbuf, dstPort: array<u16>, j: nat,
                   ghost ms: seq<Mbuf>, ghost ts: seq<bv32>, ghost v: seq<Slot>)
    returns (ghost v': seq<Slot>)
    requires (forall i, j :: 0 <= i < j < |ms| ==> ms[i] != ms[j])
    requires j + FWDSTEP <= |ms| && Holds(ms, dstPort[..], ts, v)
    requires p0 == ms[j] && p1 == ms[j + 1] && p2 == ms[j + 2] && p3 == ms[j + 3]
    requires HasRoom(v[j].0) && HasRoom(v[j + 1].0) && HasRoom(v[j + 2].0) && HasRoom(v[j + 3].0)
    modifies (set m <- ms)`data, dstPort
    ensures |v'| == |v|
    ensures v' == Four(v, j, RfcSlot(ts[j], v[j]), RfcSlot(ts[j + 1], v[j + 1]),
                       RfcSlot(ts[j + 2], v[j + 2]), RfcSlot(ts[j + 3], v[j + 3]))
    ensures Holds(ms, dstPort[..], ts, v')
  {
    v' := Rfc1812Step(p0, dstPort, j, ms, ts, v);
    v' := Rfc1812Step(p1, dstPort, j + 1, ms, ts, v');
    v' := Rfc1812Step(p2, dstPort, j + 2, ms, ts, v');
    v' := Rfc1812Step(p3, dstPort, j + 3, ms, ts, v');
  }

  /** `processx4_step3` for packets j..j+4: the MAC rewrite of all four, then their header checks. */
  method Processx4Step3(cfg: Config, pkts: array<Mbuf>, dstPort: array<u16>, j: nat,
                        ghost ms: seq<Mbuf>, ghost ts: seq<bv32>, ghost v: seq<Slot>)
    returns (ghost v': seq<Slot>)
    requires cfg.Valid() && Burst(pkts, ms) && j + FWDSTEP <= |ms| && Holds(ms, dstPort[..], ts, v)
    requires Ready(v[j]) && Ready(v[j + 1]) && Ready(v[j + 2]) && Ready(v[j + 3])
    modifies (set m <- ms)`data, dstPort
    ensures |v'| == |v|
    ensures v' == Four(v, j, OutSlot(cfg, ts[j], v[j]), OutSlot(cfg, ts[j + 1], v[j + 1]),
                       OutSlot(cfg, ts[j + 2], v[j + 2]), OutSlot(cfg, ts[j + 3], v[j + 3]))
    ensures Holds(ms, dstPort[..], ts, v')
  {
    var p0, p1, p2, p3 := pkts[j], pkts[j + 1], pkts[j + 2], pkts[j + 3];
    assert p0 == ms[j] && p1 == ms[j + 1] && p2 == ms[j + 2] && p3 == ms[j + 3];
    v' := RewriteMacx4(cfg, p0, p1, p2, p3, dstPort, j, ms, ts, v);
    v' := Rfc1812x4(p0, p1, p2, p3, dstPort, j, ms, ts, v');
  }

  // ----- the first half of `send_packets_multi`

  /** v and outs agree with the burst after its first j packets were processed. */
  ghost function Mix(v: seq<Slot>, outs: seq<Slot>, j: nat): (r: seq<Slot>)
    requires j <= |v| == |outs|
    ensures |r| == |v| && forall i :: 0 <= i < |v| ==> r[i] == if i < j then outs[i] else v[i]
  {
    outs[..j] + v[j..]
  }

  lemma MixEnds(v: seq<Slot>, outs: seq<Slot>)
    requires |v| == |outs|
    ensures Mix(v, outs, 0) == v && Mix(v, outs, |v|) == outs
  {
  }

  /** outs is what processing makes of v, slot by slot. */
  ghost predicate Outs(cfg: Config, ts: seq<bv32>, v: seq<Slot>, outs: seq<Slot>) {
    && cfg.Valid() && |ts| == |v| == |outs| && (forall i :: 0 <= i < |v| ==> Ready(v[i]))
    && (forall i :: 0 <= i < |v| ==> outs[i] == OutSlot(cfg, ts[i], v[i]))
  }

  /** ... and d are its destinations. */
  ghost predicate Outcome(cfg: Config, ts: seq<bv32>, v: seq<Slot>, outs: seq<Slot>, d: seq<u16>) {
    && cfg.Valid() && |ts| == |v| == |outs| == |d|
    && Outs(cfg, ts, v, outs)
    && (forall i :: 0 <= i < |v| ==> d[i] == outs[i].1)
  }

  /** Four more packets. */
  method ProcessFour(cfg: Config, pkts: array<Mbuf>, dstPort: array<u16>, j: nat,
                     ghost ms: seq<Mbuf>, ghost ts: seq<bv32>, ghost v: seq<Slot>, ghost outs: seq<Slot>,
                     ghost d: seq<u16>)
    requires Outcome(cfg, ts, v, outs, d) && Burst(pkts, ms) && j + FWDSTEP <= |ms| == |v|
    requires Holds(ms, dstPort[..], ts, Mix(v, outs, j))
    modifies (set m <- ms)`data, dstPort
    ensures Holds(ms, dstPort[..], ts, Mix(v, outs, j + FWDSTEP))
  {
    ghost var v' := Processx4Step3(cfg, pkts, dstPort, j, ms, ts, Mix(v, outs, j));
    assert v' == Mix(v, outs, j + FWDSTEP);
  }

  lemma HeldPorts(ms: seq<Mbuf>, dp: seq<u16>, ts: seq<bv32>, v: seq<Slot>, outs: seq<Slot>, d: seq<u16>, j: nat,
                  a: nat, b: nat)
    requires j <= |v| == |outs| == |d| == |ms| && a <= b <= j
    requires Holds(ms, dp, ts, Mix(v, outs, j))
    requires forall i :: 0 <= i < |d| ==> d[i] == outs[i].1
    ensures |ms| <= |dp| && b <= |dp| && dp[a..b] == d[a..b]
  {
  }

  /** Counters, lp and the low lanes of dp1 at position j of the vector loop. */
  ghost predicate AtLoop(counters: seq<nat>, lp: nat, dp1: seq<u16>, pn: seq<nat>, d: seq<u16>, j: nat) {
    && FWDSTEP <= j <= |d| < |pn| == |counters| && j % FWDSTEP == 0
    && (counters, lp) == VectorLoop(pn, d, j)
    && dp1 == d[j - FWDSTEP..j]
  }

  lemma LoopStarts(counters: seq<nat>, dp1: seq<u16>, pn: seq<nat>, d: seq<u16>)
    requires FWDSTEP <= |d| < |pn| && counters == pn[0 := 1] && dp1 == d[0..4]
    ensures AtLoop(counters, 0, dp1, pn, d, FWDSTEP)
  {
  }

  /** The counting part of a loop turn; dp2 is the load at d[j - 3..]. */
  method CountNextFour(pnum: array<nat>, j: nat, lp: nat, dp1: seq<u16>, dp2: seq<u16>, ghost pn: seq<nat>,
                       ghost d: seq<u16>)
    returns (lp': nat, dp1': seq<u16>)
    requires AtLoop(pnum[..], lp, dp1, pn, d, j) && j + FWDSTEP <= |d|
    requires dp2 == d[j - 3..j + 4]
    modifies pnum
    ensures AtLoop(pnum[..], lp', dp1', pn, d, j + FWDSTEP)
  {
    assert dp2[..4] == d[j - 3..j + 1][..4];
    OnlyLowLanesCount(pnum[..], lp, j - 4, dp1, dp2, d[j - 4..j], d[j - 3..j + 1]);
    lp' := PortGroupx4(pnum, j - FWDSTEP, lp, dp1, dp2);
    dp1' := dp2[3..];
  }

  /** The step with the last port repeated, and the removal of its count. */
  method CountLast(pnum: array<nat>, k: nat, lp: nat, dp1: seq<u16>, ghost pn: seq<nat>, ghost d: seq<u16>)
    returns (lp': nat)
    requires AtLoop(pnum[..], lp, dp1, pn, d, k)
    modifies pnum
    ensures (pnum[..], lp') == VectorPhase(pn, d, k)
  {
    var dp2 := [dp1[1], dp1[2], dp1[3], dp1[3]];
    lp' := PortGroupx4(pnum, k - FWDSTEP, lp, dp1, dp2);
    pnum[lp'] := Sub16(pnum[lp'], 1);
  }

  /** The vector phase: k is a positive multiple of four. */
  method GroupByFour(cfg: Config, pkts: array<Mbuf>, dstPort: array<u16>, pnum: array<nat>, k: nat,
                     ghost ms: seq<Mbuf>, ghost ts: seq<bv32>, ghost v: seq<Slot>, ghost outs: seq<Slot>,
                     ghost d: seq<u16>)
    returns (lp: nat)
    requires Outcome(cfg, ts, v, outs, d) && Burst(pkts, ms) && |ms| == |v| == |outs| == |d| <= dstPort.Length
    requires FWDSTEP <= k <= |ms| < pnum.Length && k % FWDSTEP == 0
    requires pnum as object != dstPort && pnum as object != pkts && dstPort as object != pkts
    requires Holds(ms, dstPort[..], ts, v)
    modifies (set m <- ms)`data, dstPort, pnum
    ensures Holds(ms, dstPort[..], ts, Mix(v, outs, k))
    ensures (pnum[..], lp) == VectorPhase(old(pnum[..]), d, k)
  {
    hide AtLoop, Outs, Holds, Mix, VectorPhase;
    ghost var pn := pnum[..];
    lp := 0;
    pnum[lp] := 1;
    MixEnds(v, outs);
    ProcessFour(cfg, pkts, dstPort, 0, ms, ts, v, outs, d);
    HeldPorts(ms, dstPort[..], ts, v, outs, d, 4, 0, 4);
    var dp1 := dstPort[0..4];
    LoopStarts(pnum[..], dp1, pn, d);
    var j := FWDSTEP;
    while j != k
      invariant FWDSTEP <= j <= k && j % FWDSTEP == 0
      invariant Holds(ms, dstPort[..], ts, Mix(v, outs, j))
      invariant AtLoop(pnum[..], lp, dp1, pn, d, j)
      decreases k - j
    {
      ProcessFour(cfg, pkts, dstPort, j, ms, ts, v, outs, d);
      HeldPorts(ms, dstPort[..], ts, v, outs, d, j + 4, j - 3, j + 4);
      var dp2 := dstPort[j - FWDSTEP + 1..j + FWDSTEP];
      lp, dp1 := CountNextFour(pnum, j, lp, dp1, dp2, pn, d);
      j := j + FWDSTEP;
    }
    lp := CountLast(pnum, k, lp, dp1, pn, d);
  }

  /** One packet of the scalar tail. */
  method GroupOne(cfg: Config, pkts: array<Mbuf>, dstPort: array<u16>, pnum: array<nat>, j: nat, dlp: u16, lp: nat,
                  ghost ms: seq<Mbuf>, ghost ts: seq<bv32>, ghost v: seq<Slot>, ghost outs: seq<Slot>,
                  ghost d: seq<u16>)
    returns (dlp': u16, lp': nat)
    requires Outcome(cfg, ts, v, outs, d) && Burst(pkts, ms) && |ms| == |v| == |outs| == |d| <= dstPort.Length
    requires j < |ms| < pnum.Length && lp < pnum.Length
    requires pnum as object != dstPort && pnum as object != pkts && dstPort as object != pkts
    requires Holds(ms, dstPort[..], ts, Mix(v, outs, j))
    modifies (set m <- ms)`data, dstPort, pnum
    ensures Holds(ms, dstPort[..], ts, Mix(v, outs, j + 1)) && lp' < pnum.Length
    ensures ScalarTail(pnum[..], lp', dlp', d, j + 1) == ScalarTail(old(pnum[..]), lp, dlp, d, j)
  {
    ProcessPacket(cfg, pkts, dstPort, j, ms, ts, Mix(v, outs, j));
    assert Mix(v, outs, j)[j := outs[j]] == Mix(v, outs, j + 1);
    assert dstPort[j] == d[j];
    dlp', lp' := GroupPortStep(dlp, dstPort, lp, pnum, j);
  }

  /** The switch over the last packets, with its fall-through. */
  method GroupTail(cfg: Config, pkts: array<Mbuf>, dstPort: array<u16>, pnum: array<nat>, nbRx: nat,
                   j0: nat, dlp0: u16, lp0: nat,
                   ghost ms: seq<Mbuf>, ghost ts: seq<bv32>, ghost v: seq<Slot>, ghost outs: seq<Slot>,
                   ghost d: seq<u16>)
    requires Outcome(cfg, ts, v, outs, d) && Burst(pkts, ms) && nbRx == |ms| == |v| == |outs| == |d| <= dstPort.Length
    requires nbRx < pnum.Length && lp0 < pnum.Length && j0 == AlignFloor(nbRx)
    requires pnum as object != dstPort && pnum as object != pkts && dstPort as object != pkts
    requires Holds(ms, dstPort[..], ts, Mix(v, outs, j0))
    modifies (set m <- ms)`data, dstPort, pnum
    ensures Holds(ms, dstPort[..], ts, Mix(v, outs, nbRx))
    ensures pnum[..] == ScalarTail(old(pnum[..]), lp0, dlp0, d, j0)
  {
    hide GroupStep, Outs, Holds, Mix, Ready, ScalarStep;
    var j, dlp, lp := j0, dlp0, lp0;
    var left := nbRx % FWDSTEP;
    ghost var done := ScalarTail(pnum[..], lp, dlp, d, j);
    if left == 3 {
      dlp, lp := GroupOne(cfg, pkts, dstPort, pnum, j, dlp, lp, ms, ts, v, outs, d);
      j := j + 1;
      assert ScalarTail(pnum[..], lp, dlp, d, j) == done;
    }
    assert Holds(ms, dstPort[..], ts, Mix(v, outs, j));
    if left >= 2 {
      dlp, lp := GroupOne(cfg, pkts, dstPort, pnum, j, dlp, lp, ms, ts, v, outs, d);
      j := j + 1;
      assert ScalarTail(pnum[..], lp, dlp, d, j) == done;
    }
    assert Holds(ms, dstPort[..], ts, Mix(v, outs, j));
    if left >= 1 {
      dlp, lp := GroupOne(cfg, pkts, dstPort, pnum, j, dlp, lp, ms, ts, v, outs, d);
      j := j + 1;
      assert ScalarTail(pnum[..], lp, dlp, d, j) == done;
    }
    assert j == nbRx;
  }

  /** Process and group a whole burst: the first half of `send_packets_multi`. */
  method ProcessAndGroup(cfg: Config, pkts: array<Mbuf>, dstPort: array<u16>, pnum: array<nat>, nbRx: nat,
                         ghost ms: seq<Mbuf>, ghost ts: seq<bv32>, ghost v: seq<Slot>, ghost outs: seq<Slot>,
                         ghost d: seq<u16>)
    requires Outcome(cfg, ts, v, outs, d) && Burst(pkts, ms) && nbRx == |ms| == |v| == |outs| == |d| <= dstPort.Length
    requires nbRx < pnum.Length
    requires pnum as object != dstPort && pnum as object != pkts && dstPort as object != pkts
    requires Holds(ms, dstPort[..], ts, v)
    modifies (set m <- ms)`data, dstPort, pnum
    ensures Holds(ms, dstPort[..], ts, outs)
    ensures pnum[..] == GroupPorts(old(pnum[..]), d)
  {
    hide GroupPorts, VectorPhase, ScalarTail, Outs, Holds, Mix, Ready;
    ghost var pn := pnum[..];
    var j, dlp, lp := 0, BAD_PORT - 1, pnum.Length - 1;
    var k := AlignFloor(nbRx);
    MixEnds(v, outs);
    if k != 0 {
      lp := GroupByFour(cfg, pkts, dstPort, pnum, k, ms, ts, v, outs, d);
      j := k;
      HeldPorts(ms, dstPort[..], ts, v, outs, d, k, k - 1, k);
      assert dstPort[k - 1..k][0] == d[k - 1..k][0];
      dlp := dstPort[j - 1];
    }
    GroupPortsUnfolds(pn, d, pnum[..], lp);
    GroupTail(cfg, pkts, dstPort, pnum, nbRx, j, dlp, lp, ms, ts, v, outs, d);
    assert Holds(ms, dstPort[..], ts, outs);
  }

  lemma GroupPortsUnfolds(pn: seq<nat>, d: seq<u16>, counters: seq<nat>, lp: nat)
    requires |d| < |pn| == |counters|
    requires var k := AlignFloor(|d|);
             if k != 0 then (counters, lp) == VectorPhase(pn, d, k) else counters == pn && lp == |pn| - 1
    ensures lp < |pn|
    ensures var k := AlignFloor(|d|);
            GroupPorts(pn, d) == ScalarTail(counters, lp, if k != 0 then d[k - 1] else BAD_PORT - 1, d, k)
  {
  }

  // ----- the second half of `send_packets_multi`

  /** Free the packets of a group that must not be sent. */
  method FreeGroup(qconf: LcoreConf<Mbuf>, pkts: array<Mbuf>, j: nat, k: nat)
    requires qconf.Valid() && j + k <= pkts.Length
    modifies qconf
    ensures qconf.Valid() && qconf.tx == TxSpec.Free(old(qconf.tx), pkts[j..j + k])
  {
    ghost var group := pkts[j..j + k];
    for m := j to j + k
      invariant qconf.freed == old(qconf.freed) + group[..m - j]
      invariant unchanged(qconf`log) && unchanged(qconf`tx)
    {
      qconf.PktmbufFree(pkts[m]);
    }
    assert group[..k] == group;
    qconf.tx := TxSpec.Free(qconf.tx, group);
  }

  /** One turn of the dispatch loop. */
  method DispatchOne(qconf: LcoreConf<Mbuf>, pkts: array<Mbuf>, pn: u16, j: nat, k: nat)
    requires qconf.Valid() && (pn < MAX_PORTS || pn == BAD_PORT)
    requires 1 <= k <= MAX_PKT_BURST && j + k <= pkts.Length
    requires pkts as object != qconf.len
    modifies qconf, qconf.len, qconf.mTable
    ensures qconf.Valid() && qconf.tx == GroupOut(qconf.nic, old(qconf.tx), pn, pkts[j..j + k])
  {
    if pn != BAD_PORT {
      qconf.SendPacketsx4(pn, pkts, j, k);
    } else {
      FreeGroup(qconf, pkts, j, k);
    }
  }

  lemma DispatchTurn(nic: TxSpec.Nic<Mbuf>, s: TxSpec.Tx<Mbuf>, d: seq<u16>, ms: seq<Mbuf>, j: nat, k: nat)
    requires TxSpec.Valid(s) && Routable(d) && |d| == |ms| <= MAX_PKT_BURST
    requires j < |d| && k == FirstRun(d[j..]) && j + k <= |d|
    ensures DispatchGroups(nic, s, d[j..], ms[j..])
            == DispatchGroups(nic, GroupOut(nic, s, d[j], ms[j..j + k]), d[j + k..], ms[j + k..])
  {
    DispatchUnfolds(nic, s, d[j..], ms[j..], k);
    hide DispatchGroups, GroupOut, FirstRun, Routable, TxSpec.Valid;
    SliceTwice(d, j, k);
    SliceTwice(ms, j, k);
  }

  lemma RunToDispatch(d: seq<u16>, pn: seq<nat>, j: nat)
    requires RunLengths(d, pn) && j < |d| && Head(d, j)
    ensures |d| <= |pn| && pn[j] == FirstRun(d[j..])
    ensures 1 <= pn[j] && j + pn[j] <= |d| && (j + pn[j] < |d| ==> Head(d, j + pn[j]))
  {
  }

  lemma SliceTwice<T>(s: seq<T>, j: nat, k: nat)
    requires j + k <= |s|
    ensures s[j..][..k] == s[j..j + k] && s[j..][k..] == s[j + k..]
  {
  }

  lemma DispatchUnfolds(nic: TxSpec.Nic<Mbuf>, s: TxSpec.Tx<Mbuf>, d: seq<u16>, ms: seq<Mbuf>, k: nat)
    requires TxSpec.Valid(s) && Routable(d) && 0 < |d| == |ms| <= MAX_PKT_BURST && k == FirstRun(d)
    ensures k <= |d|
    ensures DispatchGroups(nic, s, d, ms) == DispatchGroups(nic, GroupOut(nic, s, d[0], ms[..k]), d[k..], ms[k..])
  {
  }

  /** The dispatch loop: it terminates, covers every packet once and sends run by run. */
  method DispatchRuns(qconf: LcoreConf<Mbuf>, pkts: array<Mbuf>, dstPort: array<u16>, pnum: array<nat>, nbRx: nat,
                      ghost ms: seq<Mbuf>, ghost d: seq<u16>)
    requires qconf.Valid() && Burst(pkts, ms) && nbRx == |ms| == |d| <= MAX_PKT_BURST
    requires nbRx <= pkts.Length && nbRx <= dstPort.Length && dstPort[..nbRx] == d
    requires Routable(d) && RunLengths(d, pnum[..])
    requires pkts as object != qconf.len && dstPort as object != qconf.len && pnum as object != qconf.len
    modifies qconf, qconf.len, qconf.mTable
    ensures qconf.Valid() && qconf.tx == DispatchGroups(qconf.nic, old(qconf.tx), d, ms)
  {
    hide DispatchGroups, GroupOut, RunLengths;
    ghost var done := DispatchGroups(qconf.nic, qconf.tx, d, ms);
    var j := 0;
    assert d[0..] == d && ms[0..] == ms;
    while j < nbRx
      invariant j <= nbRx && (j < nbRx ==> Head(d, j))
      invariant qconf.Valid()
      invariant DispatchGroups(qconf.nic, qconf.tx, d[j..], ms[j..]) == done
      decreases nbRx - j
    {
      RunToDispatch(d, pnum[..], j);
      DispatchTurn(qconf.nic, qconf.tx, d, ms, j, pnum[j]);
      var pn := dstPort[j];
      var k := pnum[j];
      assert pn == dstPort[..nbRx][j] == d[j];
      BurstSlice(pkts, ms, j, j + k);
      DispatchOne(qconf, pkts, pn, j, k);
      j := j + k;
    }
    DispatchNothing(qconf.nic, qconf.tx, d[j..], ms[j..]);
  }

  lemma DispatchNothing(nic: TxSpec.Nic<Mbuf>, s: TxSpec.Tx<Mbuf>, d: seq<u16>, ms: seq<Mbuf>)
    requires TxSpec.Valid(s) && d == [] && ms == []
    ensures DispatchGroups(nic, s, d, ms) == s
  {
  }

  // ----- `send_packets_multi`

  ghost predicate Contents(ms: seq<Mbuf>, ps: seq<Packet>)
    reads ms
  {
    |ms| == |ps| && forall i :: 0 <= i < |ms| ==> ms[i].data == ps[i].data && ms[i].packetType == ps[i].ptype
  }

  /** What the burst looks like before and after processing, as slots. */
  lemma SlotsOfBurst(cfg: Config, ps: seq<Packet>, ds: seq<u16>)
    returns (ts: seq<bv32>, v: seq<Slot>, outs: seq<Slot>)
    requires cfg.Valid() && HaveRoom(ps) && |ps| == |ds| && InRange(ds)
    ensures ts == Types(ps) && |v| == |outs| == |ps|
    ensures forall i :: 0 <= i < |ps| ==> v[i] == (ps[i].data, ds[i]) && outs[i] == FastOut(cfg, ps[i], ds[i])
    ensures Outcome(cfg, ts, v, outs, FinalDsts(cfg, ps, ds))
  {
    ts := Types(ps);
    v := seq(|ps|, i requires 0 <= i < |ps| => (ps[i].data, ds[i]));
    outs := seq(|ps|, i requires 0 <= i < |ps| => FastOut(cfg, ps[i], ds[i]));
  }

  lemma BurstHolds(ms: seq<Mbuf>, dp: seq<u16>, ps: seq<Packet>, ds: seq<u16>, v: seq<Slot>)
    requires Contents(ms, ps) && |ms| == |ds| == |v| <= |dp| && dp[..|ms|] == ds
    requires forall i :: 0 <= i < |ps| ==> v[i] == (ps[i].data, ds[i])
    ensures Holds(ms, dp, Types(ps), v)
  {
  }

  lemma NoClash(d: seq<u16>)
    requires Routable(d)
    ensures !SentinelClash(d)
  {
  }

  /** `send_packets_multi`: whatever the counter array holds at first, the burst is dispatched run by run to
      its final destinations and every packet has its final bytes. */
  method SendPacketsMulti(cfg: Config, qconf: LcoreConf<Mbuf>, pkts: array<Mbuf>, dstPort: array<u16>, nbRx: nat,
                          ghost ms: seq<Mbuf>, ghost ps: seq<Packet>, ghost ds: seq<u16>)
    requires cfg.Valid() && HaveRoom(ps) && InRange(ds) && qconf.Valid()
    requires Burst(pkts, ms) && Contents(ms, ps) && nbRx == |ms| == |ds| <= MAX_PKT_BURST
    requires nbRx <= pkts.Length && nbRx <= dstPort.Length && dstPort[..nbRx] == ds
    requires dstPort as object != pkts && pkts as object != qconf.len && dstPort as object != qconf.len
    modifies (set m <- ms)`data, dstPort, qconf, qconf.len, qconf.mTable
    ensures qconf.Valid() && qconf.tx == DispatchGroups(qconf.nic, old(qconf.tx), FinalDsts(cfg, ps, ds), ms)
    ensures forall i :: 0 <= i < |ms| ==> ms[i].data == FastOut(cfg, ps[i], ds[i]).0
  {
    hide Outcome, GroupPorts, DispatchGroups, RunLengths, FinalDsts, FastOut, Types;
    var pnum := new nat[MAX_PKT_BURST + 1];
    ghost var pn := pnum[..];
    ghost var ts, v, outs := SlotsOfBurst(cfg, ps, ds);
    ghost var d := FinalDsts(cfg, ps, ds);
    BurstHolds(ms, dstPort[..], ps, ds, v);
    ProcessAndGroup(cfg, pkts, dstPort, pnum, nbRx, ms, ts, v, outs, d);
    NoClash(d);
    GroupPortsIsRunLengths(pn, d);
    assert dstPort[..nbRx] == d by { HeldAll(ms, dstPort[..], cfg, ts, v, outs, d); }
    DispatchRuns(qconf, pkts, dstPort, pnum, nbRx, ms, d);
  }

  lemma HeldAll(ms: seq<Mbuf>, dp: seq<u16>, cfg: Config, ts: seq<bv32>, v: seq<Slot>, outs: seq<Slot>, d: seq<u16>)
    requires Holds(ms, dp, ts, outs) && Outcome(cfg, ts, v, outs, d)
    ensures |ms| == |d| <= |dp| && dp[..|d|] == d
  {
  }
}
