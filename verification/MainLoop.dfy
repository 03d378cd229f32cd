/** One turn of the exact-match main loop, as a run of the abstract lcore. */
module MainLoop {
  import opened Limits
  import opened Bytes
  import opened ExactMatch
  import TxSpec
  import opened TxBuffer
  import opened Dispatch
  import opened Forwarding
  import opened ForwardingLoops
  import opened BurstPaths
  import opened StridedWalk

  /** What rte_eth_rx_burst delivered for one RX queue. */
  datatype RxBurst = RxBurst(pkts: array<Mbuf>, nb: nat, portid: byte)

  /** The buffers of a burst and their contents on arrival. */
  datatype Arrived = Arrived(ms: seq<Mbuf>, ps: seq<Packet>)

  ghost predicate Delivered(b: RxBurst, a: Arrived)
    reads b.pkts, a.ms
  {
    && Burst(b.pkts, a.ms) && Contents(a.ms, a.ps) && HaveRoom(a.ps)
    && b.nb == |a.ms| <= MAX_PKT_BURST && b.portid < MAX_PORTS
  }

  /** No buffer is in two bursts. */
  ghost predicate Apart(arrived: seq<Arrived>) {
    forall i, j :: 0 <= i < j < |arrived| ==> Disjoint(arrived[i].ms, arrived[j].ms)
  }

  ghost predicate Disjoint(a: seq<Mbuf>, b: seq<Mbuf>) {
    forall m :: m in a ==> m !in b
  }

  /** What a burst means for the lcore: its packets, with their final destinations. */
  ghost function BurstEvent(cfg: Config, a: Arrived, portid: byte): (e: Event<Mbuf>)
    requires cfg.Valid() && HaveRoom(a.ps) && portid < MAX_PORTS && |a.ms| == |a.ps| <= MAX_PKT_BURST
    ensures ValidEvent(e) && e.ByGroups? && e.pkts == a.ms
    ensures e.dsts == FinalDsts(cfg, a.ps, ClassifyWide(cfg, a.ps, portid))
  {
    FastEvent(cfg, a.ps, a.ms, portid)
  }

  /** The buffers of a burst have the bytes that the fast path gives them. */
  ghost predicate Forwarded(cfg: Config, a: Arrived, portid: byte)
    requires cfg.Valid() && HaveRoom(a.ps) && portid < MAX_PORTS && |a.ms| == |a.ps|
    reads a.ms
  {
    var ds := ClassifyWide(cfg, a.ps, portid);
    forall k :: 0 <= k < |a.ms| ==>
      a.ms[k].data == FastOut(cfg, a.ps[k], ds[k]).0 && Rewritten(cfg, a.ps[k], ds[k], a.ms[k].data)
  }

  /** es are the events of the bursts rx. */
  ghost predicate EventsOf(cfg: Config, rx: seq<RxBurst>, arrived: seq<Arrived>, es: seq<Event<Mbuf>>) {
    && cfg.Valid() && |rx| == |arrived| == |es| && ValidEvents(es)
    && (forall i :: 0 <= i < |rx| ==>
        && HaveRoom(arrived[i].ps) && rx[i].portid < MAX_PORTS && |arrived[i].ms| == |arrived[i].ps| <= MAX_PKT_BURST
        && es[i] == BurstEvent(cfg, arrived[i], rx[i].portid))
  }

  lemma RunTurn(nic: TxSpec.Nic<Mbuf>, s: TxSpec.Tx<Mbuf>, es: seq<Event<Mbuf>>, i: nat)
    requires TxSpec.Valid(s) && ValidEvents(es) && i < |es|
    ensures Run(nic, s, es[i..]) == Run(nic, Step(nic, s, es[i]), es[i + 1..])
  {
  }

  lemma RunNothing(nic: TxSpec.Nic<Mbuf>, s: TxSpec.Tx<Mbuf>, es: seq<Event<Mbuf>>)
    requires TxSpec.Valid(s) && es == []
    ensures Run(nic, s, es) == s
  {
  }

  // ----- the memory walk between bursts

  /** Memory accesses made for the first n bursts: a fixed number for each that is not empty. */
  ghost function AccessCount(arrived: seq<Arrived>, accesses: nat, n: nat): nat
    requires n <= |arrived|
  {
    if n == 0 then 0 else AccessCount(arrived, accesses, n - 1) + if arrived[n - 1].ms == [] then 0 else accesses
  }

  ghost function Busy(arrived: seq<Arrived>, n: nat): set<nat>
    requires n <= |arrived|
  {
    set i | 0 <= i < n && arrived[i].ms != []
  }

  lemma NextBusy(arrived: seq<Arrived>, n: nat)
    requires n < |arrived|
    ensures |Busy(arrived, n + 1)| == |Busy(arrived, n)| + if arrived[n].ms == [] then 0 else 1
  {
    assert Busy(arrived, n + 1) == Busy(arrived, n) + if arrived[n].ms == [] then {} else {n};
  }

  lemma OneMore(a: nat, b: nat)
    ensures a * (b + 1) == a * b + a
  {
  }

  /** That is, so many accesses for each burst that is not empty. */
  lemma {:induction false} AccessCountIs(arrived: seq<Arrived>, accesses: nat, n: nat)
    requires n <= |arrived|
    ensures AccessCount(arrived, accesses, n) == accesses * |Busy(arrived, n)|
  {
    if n > 0 {
      AccessCountIs(arrived, accesses, n - 1);
      NextBusy(arrived, n - 1);
      OneMore(accesses, |Busy(arrived, n - 1)|);
      hide Busy;
    }
  }

  /** Accesses of a turn that receives rx. */
  ghost function TurnAccesses(rx: seq<RxBurst>, accesses: nat): nat {
    accesses * |set i | 0 <= i < |rx| && rx[i].nb > 0|
  }

  lemma AccessesOfTurn(rx: seq<RxBurst>, arrived: seq<Arrived>, accesses: nat)
    requires |rx| == |arrived| && forall i :: 0 <= i < |rx| ==> rx[i].nb == |arrived[i].ms|
    ensures AccessCount(arrived, accesses, 0) == 0
    ensures AccessCount(arrived, accesses, |arrived|) == TurnAccesses(rx, accesses)
  {
    AccessCountIs(arrived, accesses, |arrived|);
    assert Busy(arrived, |arrived|) == (set i | 0 <= i < |rx| && rx[i].nb > 0);
  }

  /** What n accesses leave behind: the last of them is visible in the memory, the first one too if they are no
      more than a period, and index and value have moved on by n. */
  ghost predicate LeavesBehind(start: nat, first: byte, mem: seq<byte>, index: nat, val: byte, n: nat) {
    && n > 0 && start < |mem| && Index(start, EXP_MEM_STRIDE_SIZE, |mem|, n - 1) < |mem|
    && mem[Index(start, EXP_MEM_STRIDE_SIZE, |mem|, n - 1)] == (first + n - 1) % 0x100
    && (n <= Period(EXP_MEM_STRIDE_SIZE, |mem|) ==> mem[start] == first)
    && index == Index(start, EXP_MEM_STRIDE_SIZE, |mem|, n)
    && val == (first + n) % 0x100
  }

  lemma WalkTouches(was: seq<byte>, start: nat, first: byte, mem: seq<byte>, index: nat, val: byte, n: nat)
    requires Walked(was, start, first, mem, index, val, n) && n > 0
    ensures LeavesBehind(start, first, mem, index, val, n)
  {
    hide Index, Written, Period;
    WalkIsVisible(was, start, EXP_MEM_STRIDE_SIZE, first, n);
  }

  /** A turn with a burst in it makes accesses. */
  lemma TurnTouchesMemory(was: seq<byte>, start: nat, first: byte, mem: seq<byte>, index: nat, val: byte,
                          rx: seq<RxBurst>, accesses: nat, i: nat)
    requires Walked(was, start, first, mem, index, val, TurnAccesses(rx, accesses))
    requires i < |rx| && rx[i].nb > 0 && accesses > 0
    ensures TurnAccesses(rx, accesses) >= accesses
    ensures LeavesBehind(start, first, mem, index, val, TurnAccesses(rx, accesses))
  {
    SomeAccesses(rx, accesses, i);
    hide TurnAccesses, Walked, LeavesBehind;
    WalkTouches(was, start, first, mem, index, val, TurnAccesses(rx, accesses));
  }

  lemma SomeAccesses(rx: seq<RxBurst>, accesses: nat, i: nat)
    requires i < |rx| && rx[i].nb > 0
    ensures TurnAccesses(rx, accesses) >= accesses
  {
    var busy := set i | 0 <= i < |rx| && rx[i].nb > 0;
    assert i in busy && |busy| >= 1;
    assert accesses * |busy| == accesses + accesses * (|busy| - 1);
  }

  /** mem, index and val are what n accesses make of was, start and first. */
  ghost predicate Walked(was: seq<byte>, start: nat, first: byte, mem: seq<byte>, index: nat, val: byte, n: nat) {
    && start < |was|
    && mem == Written(was, start, EXP_MEM_STRIDE_SIZE, first, n)
    && index == Index(start, EXP_MEM_STRIDE_SIZE, |was|, n)
    && val == Value(first, n)
  }

  lemma WalkStarts(was: seq<byte>, start: nat, first: byte)
    requires start < |was|
    ensures Walked(was, start, first, was, start, first, 0)
  {
  }

  /** The accesses for one burst go on where those for the last one stopped. */
  method AccessForBurst(mem: array<byte>, memArrIndex: nat, nextMemVal: byte, accesses: nat,
                        ghost was: seq<byte>, ghost start: nat, ghost first: byte, ghost n: nat)
    returns (index: nat, val: byte)
    requires Walked(was, start, first, mem[..], memArrIndex, nextMemVal, n)
    modifies mem
    ensures Walked(was, start, first, mem[..], index, val, n + accesses)
  {
    hide Index, Value, Written;
    IndexClosed(start, EXP_MEM_STRIDE_SIZE, |was|, n);
    IndexContinues(start, EXP_MEM_STRIDE_SIZE, |was|, n, accesses);
    ValueContinues(first, n, accesses);
    WalkContinues(was, start, EXP_MEM_STRIDE_SIZE, first, n, accesses);
    index, val := AccessMemory(mem, memArrIndex, nextMemVal, accesses, EXP_MEM_STRIDE_SIZE);
  }

  // ----- the loop over RX queues

  /** No buffer array of the bursts is the walked memory or a buffer length. */
  ghost predicate Separate(rx: seq<RxBurst>, qconf: LcoreConf<Mbuf>, mem: array<byte>) {
    && (forall i :: 0 <= i < |rx| ==> rx[i].pkts as object != qconf.len && rx[i].pkts as object != mem)
    && mem as object != qconf.len
  }

  /** Each non-empty burst is followed by its memory accesses and takes the fast path. */
  method PollQueues(cfg: Config, qconf: LcoreConf<Mbuf>, rx: seq<RxBurst>, mem: array<byte>, memArrIndex: nat,
                    nextMemVal: byte, accesses: nat,
                    ghost arrived: seq<Arrived>, ghost es: seq<Event<Mbuf>>, ghost buffers: set<Mbuf>)
    returns (index: nat, val: byte)
    requires qconf.Valid() && EventsOf(cfg, rx, arrived, es) && Apart(arrived) && Separate(rx, qconf, mem)
    requires forall i :: 0 <= i < |rx| ==> Delivered(rx[i], arrived[i])
    requires forall i, m :: 0 <= i < |rx| && m in arrived[i].ms ==> m in buffers
    requires memArrIndex < mem.Length
    modifies buffers`data, qconf, qconf.len, qconf.mTable, mem
    ensures qconf.Valid() && qconf.tx == Run(qconf.nic, old(qconf.tx), es)
    ensures forall i :: 0 <= i < |rx| ==> Forwarded(cfg, arrived[i], rx[i].portid)
    ensures Walked(old(mem[..]), memArrIndex, nextMemVal, mem[..], index, val,
                   TurnAccesses(rx, accesses))
  {
    hide Run, Step, BurstEvent, ValidEvent, Walked, Progress, TurnAccesses, AccessCount, Forwarded;
    ghost var done := Run(qconf.nic, qconf.tx, es);
    ghost var was := mem[..];
    index, val := memArrIndex, nextMemVal;
    WalkStarts(was, index, val);
    PollStarts(cfg, rx, arrived);
    AccessesOfTurn(rx, arrived, accesses);
    assert es[0..] == es;
    for i := 0 to |rx|
      invariant qconf.Valid() && Run(qconf.nic, qconf.tx, es[i..]) == done
      invariant Progress(cfg, rx, arrived, i)
      invariant Walked(was, memArrIndex, nextMemVal, mem[..], index, val, AccessCount(arrived, accesses, i))
    {
      RunTurn(qconf.nic, qconf.tx, es, i);
      NextCount(arrived, accesses, i);
      if rx[i].nb == 0 {
        SkipEmpty(cfg, rx, arrived, es, i, qconf.nic, qconf.tx);
      } else {
        NotEmpty(cfg, rx, arrived, i);
        ghost var n := AccessCount(arrived, accesses, i);
        index, val := AccessNext(mem, index, val, accesses, was, memArrIndex, nextMemVal, n, cfg, rx, i, arrived);
        PollNext(cfg, qconf, rx, i, arrived, es);
      }
    }
    PollEnds(cfg, rx, arrived);
    RunNothing(qconf.nic, qconf.tx, es[|rx|..]);
  }

  ghost function Arrays(rx: seq<RxBurst>): (r: set<object>)
    ensures forall k :: 0 <= k < |rx| ==> rx[k].pkts in r
  {
    set k | 0 <= k < |rx| :: rx[k].pkts as object
  }

  ghost function Buffers(arrived: seq<Arrived>): (r: set<Mbuf>)
    ensures forall k, m :: 0 <= k < |arrived| && m in arrived[k].ms ==> m in r
  {
    set k, m | 0 <= k < |arrived| && m in arrived[k].ms :: m
  }

  /** The bursts before i have been forwarded, the others are as they were delivered. */
  ghost predicate Progress(cfg: Config, rx: seq<RxBurst>, arrived: seq<Arrived>, i: nat)
    reads Arrays(rx), Buffers(arrived)
  {
    && cfg.Valid() && i <= |rx| == |arrived|
    && (forall k :: 0 <= k < |rx| ==>
        HaveRoom(arrived[k].ps) && rx[k].portid < MAX_PORTS && |arrived[k].ms| == |arrived[k].ps|)
    && (forall k :: i <= k < |rx| ==> Delivered(rx[k], arrived[k]))
    && (forall k :: 0 <= k < i ==> Forwarded(cfg, arrived[k], rx[k].portid))
  }

  lemma NextCount(arrived: seq<Arrived>, accesses: nat, i: nat)
    requires i < |arrived|
    ensures AccessCount(arrived, accesses, i + 1)
            == AccessCount(arrived, accesses, i) + if arrived[i].ms == [] then 0 else accesses
  {
  }

  lemma PollStarts(cfg: Config, rx: seq<RxBurst>, arrived: seq<Arrived>)
    requires cfg.Valid() && |rx| == |arrived| && forall k :: 0 <= k < |rx| ==> Delivered(rx[k], arrived[k])
    ensures Progress(cfg, rx, arrived, 0)
  {
  }

  lemma PollEnds(cfg: Config, rx: seq<RxBurst>, arrived: seq<Arrived>)
    requires Progress(cfg, rx, arrived, |rx|)
    ensures cfg.Valid() && |rx| == |arrived|
    ensures forall k :: 0 <= k < |rx| ==>
      && HaveRoom(arrived[k].ps) && rx[k].portid < MAX_PORTS && |arrived[k].ms| == |arrived[k].ps|
      && Forwarded(cfg, arrived[k], rx[k].portid)
  {
  }

  lemma NotEmpty(cfg: Config, rx: seq<RxBurst>, arrived: seq<Arrived>, i: nat)
    requires Progress(cfg, rx, arrived, i) && i < |rx| && rx[i].nb != 0
    ensures arrived[i].ms != []
  {
  }

  /** An empty burst is skipped. */
  lemma SkipEmpty(cfg: Config, rx: seq<RxBurst>, arrived: seq<Arrived>, es: seq<Event<Mbuf>>, i: nat,
                  nic: TxSpec.Nic<Mbuf>, s: TxSpec.Tx<Mbuf>)
    requires EventsOf(cfg, rx, arrived, es) && Progress(cfg, rx, arrived, i) && i < |rx| && rx[i].nb == 0
    requires TxSpec.Valid(s)
    ensures Progress(cfg, rx, arrived, i + 1) && Step(nic, s, es[i]) == s && arrived[i].ms == []
  {
    hide Step, BurstEvent, ClassifyWide, FastOut, Rewritten;
    EmptyBurst(cfg, arrived[i], rx[i].portid, nic, s);
  }

  /** The accesses for one burst do not touch packets. */
  method AccessNext(mem: array<byte>, memArrIndex: nat, nextMemVal: byte, accesses: nat, ghost was: seq<byte>,
                    ghost start: nat, ghost first: byte, ghost n: nat,
                    ghost cfg: Config, ghost rx: seq<RxBurst>, ghost i: nat, ghost arrived: seq<Arrived>)
    returns (index: nat, val: byte)
    requires Walked(was, start, first, mem[..], memArrIndex, nextMemVal, n)
    requires Progress(cfg, rx, arrived, i) && forall k :: 0 <= k < |rx| ==> rx[k].pkts as object != mem
    modifies mem
    ensures Walked(was, start, first, mem[..], index, val, n + accesses)
    ensures Progress(cfg, rx, arrived, i)
  {
    hide Walked, ClassifyWide, FastOut, Rewritten;
    index, val := AccessForBurst(mem, memArrIndex, nextMemVal, accesses, was, start, first, n);
  }

  /** A burst that is not empty takes the fast path; no other burst is touched. */
  method PollNext(cfg: Config, qconf: LcoreConf<Mbuf>, rx: seq<RxBurst>, i: nat,
                  ghost arrived: seq<Arrived>, ghost es: seq<Event<Mbuf>>)
    requires qconf.Valid() && EventsOf(cfg, rx, arrived, es) && Apart(arrived)
    requires Progress(cfg, rx, arrived, i) && i < |rx|
    requires forall k :: 0 <= k < |rx| ==> rx[k].pkts as object != qconf.len
    modifies (set m <- arrived[i].ms)`data, qconf, qconf.len, qconf.mTable
    ensures qconf.Valid() && qconf.tx == Step(qconf.nic, old(qconf.tx), es[i])
    ensures Progress(cfg, rx, arrived, i + 1)
  {
    hide Step, BurstEvent, ValidEvent, ClassifyWide, FastOut, Rewritten;
    PollOne(cfg, qconf, rx[i], arrived[i], es[i]);
    forall k | 0 <= k < i
      ensures Forwarded(cfg, arrived[k], rx[k].portid)
    {
      assert Disjoint(arrived[k].ms, arrived[i].ms);
    }
    forall k | i + 1 <= k < |rx|
      ensures Delivered(rx[k], arrived[k])
    {
      assert Disjoint(arrived[i].ms, arrived[k].ms);
    }
  }

  method PollOne(cfg: Config, qconf: LcoreConf<Mbuf>, b: RxBurst, ghost a: Arrived, ghost e: Event<Mbuf>)
    requires cfg.Valid() && qconf.Valid() && Delivered(b, a) && b.pkts as object != qconf.len
    requires e == BurstEvent(cfg, a, b.portid)
    modifies (set m <- a.ms)`data, qconf, qconf.len, qconf.mTable
    ensures qconf.Valid() && ValidEvent(e) && qconf.tx == Step(qconf.nic, old(qconf.tx), e)
    ensures Forwarded(cfg, a, b.portid)
  {
    hide FinalDsts, ClassifyWide, DispatchGroups, FastOut;
    L3fwdEmSendPackets(cfg, qconf, b.pkts, b.nb, b.portid, a.ms, a.ps);
  }

  lemma EmptyBurst(cfg: Config, a: Arrived, portid: byte, nic: TxSpec.Nic<Mbuf>, s: TxSpec.Tx<Mbuf>)
    requires cfg.Valid() && portid < MAX_PORTS && a.ms == [] && a.ps == [] && TxSpec.Valid(s)
    ensures Step(nic, s, BurstEvent(cfg, a, portid)) == s
  {
  }

  /** The events of a turn: the drain, if it is due, then the bursts. */
  ghost function TurnEvents(due: bool, ports: seq<nat>, es: seq<Event<Mbuf>>): (r: seq<Event<Mbuf>>)
    requires PortList(ports) && ValidEvents(es)
    ensures ValidEvents(r)
  {
    (if due then [DrainTick(ports)] else []) + es
  }

  lemma DrainFirst(nic: TxSpec.Nic<Mbuf>, s: TxSpec.Tx<Mbuf>, ports: seq<nat>, es: seq<Event<Mbuf>>)
    requires TxSpec.Valid(s) && PortList(ports) && ValidEvents(es)
    ensures TxSpec.Valid(TxSpec.Drain(nic, s, ports))
    ensures Run(nic, s, TurnEvents(true, ports, es)) == Run(nic, TxSpec.Drain(nic, s, ports), es)
    ensures Run(nic, s, TurnEvents(false, ports, es)) == Run(nic, s, es)
  {
    DrainEmpties(nic, s, ports, 0);
    assert TurnEvents(true, ports, es)[1..] == es;
    assert TurnEvents(false, ports, es) == es;
  }

  /** One turn of `em_main_loop`: drain if more than drainTsc cycles of the 64-bit counter have passed since
      the last drain, then serve the RX queues, walking through the memory array for each burst. */
  method EmMainLoopTurn(cfg: Config, qconf: LcoreConf<Mbuf>, txPortId: seq<nat>, curTsc: nat, prevTsc: nat,
                        drainTsc: nat, rx: seq<RxBurst>, mem: array<byte>, memArrIndex: nat, nextMemVal: byte,
                        accesses: nat,
                        ghost arrived: seq<Arrived>, ghost es: seq<Event<Mbuf>>, ghost buffers: set<Mbuf>)
    returns (prevTsc': nat, index: nat, val: byte)
    requires qconf.Valid() && EventsOf(cfg, rx, arrived, es) && Apart(arrived) && Separate(rx, qconf, mem)
    requires forall i :: 0 <= i < |rx| ==> Delivered(rx[i], arrived[i])
    requires forall i, m :: 0 <= i < |rx| && m in arrived[i].ms ==> m in buffers
    requires PortList(txPortId) && memArrIndex < mem.Length
    modifies buffers`data, qconf, qconf.len, qconf.mTable, mem
    ensures var due := (curTsc - prevTsc) % 0x1_0000_0000_0000_0000 > drainTsc;
            && prevTsc' == (if due then curTsc else prevTsc)
            && qconf.Valid()
            && qconf.tx == Run(qconf.nic, old(qconf.tx), TurnEvents(due, txPortId, es))
            && TxSpec.Valid(TxSpec.Drain(qconf.nic, old(qconf.tx), txPortId))
            && qconf.tx == Run(qconf.nic, if due then TxSpec.Drain(qconf.nic, old(qconf.tx), txPortId)
                                          else old(qconf.tx), es)
    ensures forall i :: 0 <= i < |rx| ==> Forwarded(cfg, arrived[i], rx[i].portid)
    ensures Walked(old(mem[..]), memArrIndex, nextMemVal, mem[..], index, val,
                   TurnAccesses(rx, accesses))
  {
    hide Run, TurnAccesses;
    prevTsc' := prevTsc;
    DrainFirst(qconf.nic, qconf.tx, txPortId, es);
    var diffTsc := (curTsc - prevTsc) % 0x1_0000_0000_0000_0000;
    if diffTsc > drainTsc {
      qconf.DrainPorts(txPortId);
      prevTsc' := curTsc;
    }
    index, val := PollQueues(cfg, qconf, rx, mem, memArrIndex, nextMemVal, accesses, arrived, es, buffers);
  }
}
