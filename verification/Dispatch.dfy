/** The dispatch loop over a classified burst, and whole runs of one lcore: any interleaving of bursts,
    single packets and drains, with any behaviour of the NIC. */
module Dispatch {
  import opened Limits
  import opened Bytes
  import opened PortGrouping
  import opened TxSpec

  /** A destination is a port or BAD_PORT. */
  predicate Routable(d: seq<u16>) {
    forall i :: 0 <= i < |d| ==> d[i] < MAX_PORTS || d[i] == BAD_PORT
  }

  /** The loop at the end of `send_packets_multi`: group by group. */
  function DispatchGroups<T>(nic: Nic<T>, s: Tx<T>, d: seq<u16>, ms: seq<T>): (r: Tx<T>)
    requires Valid(s) && Routable(d) && |d| == |ms| <= MAX_PKT_BURST
    ensures Valid(r)
    decreases |d|
  {
    if d == [] then s
    else
      var k := FirstRun(d);
      var s' := GroupOut(nic, s, d[0], ms[..k]);
      DispatchGroups(nic, s', d[k..], ms[k..])
  }

  function GroupOut<T>(nic: Nic<T>, s: Tx<T>, dst: u16, ms: seq<T>): (r: Tx<T>)
    requires Valid(s) && (dst < MAX_PORTS || dst == BAD_PORT) && |ms| <= MAX_PKT_BURST
    ensures Valid(r)
  {
    if dst != BAD_PORT then
      SendGroupAppends(nic, s, dst, ms);
      SendGroup(nic, s, dst, ms)
    else Free(s, ms)
  }

  /** The simple form: packet by packet. */
  function DispatchEach<T>(nic: Nic<T>, s: Tx<T>, d: seq<u16>, ms: seq<T>): (r: Tx<T>)
    requires Valid(s) && Routable(d) && |d| == |ms|
    ensures Valid(r)
    decreases |d|
  {
    if d == [] then s
    else
      var s' := PacketOut(nic, s, d[0], ms[0]);
      DispatchEach(nic, s', d[1..], ms[1..])
  }

  function PacketOut<T>(nic: Nic<T>, s: Tx<T>, dst: u16, m: T): (r: Tx<T>)
    requires Valid(s) && (dst < MAX_PORTS || dst == BAD_PORT)
    ensures Valid(r)
    ensures r == GroupOut(nic, s, dst, [m])
  {
    if dst != BAD_PORT then
      SendSingleIsGroup(nic, s, dst, m);
      SendSingle(nic, s, dst, m)
    else Free(s, [m])
  }

  /** The packets of a burst that go to dst, in order of arrival. */
  function Routed<T>(d: seq<u16>, ms: seq<T>, dst: u16): seq<T>
    requires |d| == |ms|
    decreases |d|
  {
    if d == [] then [] else (if d[0] == dst then [ms[0]] else []) + Routed(d[1..], ms[1..], dst)
  }

  lemma {:induction false} RoutedConcat<T>(d: seq<u16>, ms: seq<T>, k: nat, dst: u16)
    requires |d| == |ms| && k <= |d|
    ensures Routed(d, ms, dst) == Routed(d[..k], ms[..k], dst) + Routed(d[k..], ms[k..], dst)
  {
    if k > 0 {
      RoutedConcat(d[1..], ms[1..], k - 1, dst);
      assert d[1..][..k - 1] == d[..k][1..] && ms[1..][..k - 1] == ms[..k][1..];
      assert d[1..][k - 1..] == d[k..] && ms[1..][k - 1..] == ms[k..];
    } else {
      assert d[k..] == d && ms[k..] == ms;
    }
  }

  lemma {:induction false} RoutedUniform<T>(d: seq<u16>, ms: seq<T>, dst: u16)
    requires |d| == |ms| && |d| > 0
    requires forall i :: 0 <= i < |d| ==> d[i] == d[0]
    ensures Routed(d, ms, dst) == if dst == d[0] then ms else []
  {
    if |d| > 1 {
      RoutedUniform(d[1..], ms[1..], dst);
    }
  }

  lemma ConcatAssoc<T>(a: seq<T>, b: seq<T>, c: seq<T>)
    ensures (a + b) + c == a + (b + c)
  {
  }

  // ----- one group

  lemma GroupOutLines<T>(nic: Nic<T>, s: Tx<T>, dst: u16, ms: seq<T>, p: nat)
    requires Valid(s) && (dst < MAX_PORTS || dst == BAD_PORT) && |ms| <= MAX_PKT_BURST && p < MAX_PORTS
    ensures Line(GroupOut(nic, s, dst, ms), p) == Line(s, p) + if p == dst then ms else []
  {
    if dst != BAD_PORT {
      SendGroupAppends(nic, s, dst, ms);
    }
  }

  lemma GroupOutCounts<T>(nic: Nic<T>, s: Tx<T>, dst: u16, ms: seq<T>, x: T)
    requires Valid(s) && (dst < MAX_PORTS || dst == BAD_PORT) && |ms| <= MAX_PKT_BURST
    ensures var s' := GroupOut(nic, s, dst, ms);
            && Holding(s', x) == Holding(s, x) + Count(ms, x)
            && Dropped(s', x) == Dropped(s, x) + if dst == BAD_PORT then Count(ms, x) else 0
  {
    if dst != BAD_PORT {
      SendGroupCounts(nic, s, dst, ms, x);
    } else {
      CountConcat(s.freed, ms, x);
    }
  }

  // ----- one burst

  /** Every port receives the packets routed to it, in order of arrival, after what it already had. */
  lemma {:induction false} DispatchGroupsLines<T>(nic: Nic<T>, s: Tx<T>, d: seq<u16>, ms: seq<T>, p: nat)
    requires Valid(s) && Routable(d) && |d| == |ms| <= MAX_PKT_BURST && p < MAX_PORTS
    ensures Line(DispatchGroups(nic, s, d, ms), p) == Line(s, p) + Routed(d, ms, p)
    decreases |d|
  {
    if d != [] {
      var k := FirstRun(d);
      var s' := GroupOut(nic, s, d[0], ms[..k]);
      GroupOutLines(nic, s, d[0], ms[..k], p);
      DispatchGroupsLines(nic, s', d[k..], ms[k..], p);
      RoutedConcat(d, ms, k, p);
      RoutedUniform(d[..k], ms[..k], p);
      ConcatAssoc(Line(s, p), Routed(d[..k], ms[..k], p), Routed(d[k..], ms[k..], p));
    }
  }

  lemma {:induction false} DispatchEachLines<T>(nic: Nic<T>, s: Tx<T>, d: seq<u16>, ms: seq<T>, p: nat)
    requires Valid(s) && Routable(d) && |d| == |ms| && p < MAX_PORTS
    ensures Line(DispatchEach(nic, s, d, ms), p) == Line(s, p) + Routed(d, ms, p)
    decreases |d|
  {
    if d != [] {
      var s' := PacketOut(nic, s, d[0], ms[0]);
      GroupOutLines(nic, s, d[0], [ms[0]], p);
      DispatchEachLines(nic, s', d[1..], ms[1..], p);
      ConcatAssoc(Line(s, p), if p == d[0] then [ms[0]] else [], Routed(d[1..], ms[1..], p));
    }
  }

  /** No packet is lost or duplicated, and exactly the packets for BAD_PORT are dropped. */
  lemma {:induction false} DispatchGroupsCounts<T>(nic: Nic<T>, s: Tx<T>, d: seq<u16>, ms: seq<T>, x: T)
    requires Valid(s) && Routable(d) && |d| == |ms| <= MAX_PKT_BURST
    ensures var s' := DispatchGroups(nic, s, d, ms);
            && Holding(s', x) == Holding(s, x) + Count(ms, x)
            && Dropped(s', x) == Dropped(s, x) + Count(Routed(d, ms, BAD_PORT), x)
    decreases |d|
  {
    if d != [] {
      var k := FirstRun(d);
      var s' := GroupOut(nic, s, d[0], ms[..k]);
      GroupOutCounts(nic, s, d[0], ms[..k], x);
      DispatchGroupsCounts(nic, s', d[k..], ms[k..], x);
      CountSplit(ms, k, x);
      RoutedConcat(d, ms, k, BAD_PORT);
      RoutedUniform(d[..k], ms[..k], BAD_PORT);
      CountConcat(Routed(d[..k], ms[..k], BAD_PORT), Routed(d[k..], ms[k..], BAD_PORT), x);
    }
  }

  lemma {:induction false} DispatchEachCounts<T>(nic: Nic<T>, s: Tx<T>, d: seq<u16>, ms: seq<T>, x: T)
    requires Valid(s) && Routable(d) && |d| == |ms|
    ensures var s' := DispatchEach(nic, s, d, ms);
            && Holding(s', x) == Holding(s, x) + Count(ms, x)
            && Dropped(s', x) == Dropped(s, x) + Count(Routed(d, ms, BAD_PORT), x)
    decreases |d|
  {
    if d != [] {
      var s' := PacketOut(nic, s, d[0], ms[0]);
      GroupOutCounts(nic, s, d[0], [ms[0]], x);
      DispatchEachCounts(nic, s', d[1..], ms[1..], x);
      CountSplit(ms, 1, x);
      assert ms[..1] == [ms[0]];
      CountConcat(if d[0] == BAD_PORT then [ms[0]] else [], Routed(d[1..], ms[1..], BAD_PORT), x);
    }
  }

  /** Sending by groups refines sending one by one, whatever either NIC accepts: every port's packets,
      offered or still buffered, are the same in the same order, and the same packets are dropped. */
  lemma GroupsRefineEach<T>(nic: Nic<T>, nic': Nic<T>, s: Tx<T>, d: seq<u16>, ms: seq<T>, p: nat, x: T)
    requires Valid(s) && Routable(d) && |d| == |ms| <= MAX_PKT_BURST && p < MAX_PORTS
    ensures Line(DispatchGroups(nic, s, d, ms), p) == Line(DispatchEach(nic', s, d, ms), p)
    ensures Dropped(DispatchGroups(nic, s, d, ms), x) == Dropped(DispatchEach(nic', s, d, ms), x)
  {
    DispatchGroupsLines(nic, s, d, ms, p);
    DispatchEachLines(nic', s, d, ms, p);
    DispatchGroupsCounts(nic, s, d, ms, x);
    DispatchEachCounts(nic', s, d, ms, x);
  }

  // ----- the drain

  predicate PortList(ports: seq<nat>) {
    forall i :: 0 <= i < |ports| ==> ports[i] < MAX_PORTS
  }

  /** A drain empties the listed buffers, leaves the others as they are, and keeps every line. */
  lemma {:induction false} DrainEmpties<T>(nic: Nic<T>, s: Tx<T>, ports: seq<nat>, p: nat)
    requires Valid(s) && PortList(ports) && p < MAX_PORTS
    ensures var s' := Drain(nic, s, ports);
            && Valid(s')
            && s'.bufs[p] == (if p in ports then [] else s.bufs[p])
            && Line(s', p) == Line(s, p)
    decreases |ports|
  {
    if ports != [] {
      var q := ports[0];
      if s.bufs[q] != [] {
        OfferThenSet(nic, s, q, s.bufs[q], []);
      }
      DrainEmpties(nic, DrainOne(nic, s, q), ports[1..], p);
    }
  }

  lemma {:induction false} DrainCounts<T>(nic: Nic<T>, s: Tx<T>, ports: seq<nat>, x: T)
    requires Valid(s) && PortList(ports)
    ensures var s' := Drain(nic, s, ports);
            && Valid(s')
            && Holding(s', x) == Holding(s, x)
            && Dropped(s', x) == Dropped(s, x)
    decreases |ports|
  {
    if ports != [] {
      var q := ports[0];
      if s.bufs[q] != [] {
        OfferThenSetCounts(nic, s, q, s.bufs[q], [], x);
      }
      DrainCounts(nic, DrainOne(nic, s, q), ports[1..], x);
    }
  }

  /** The listed ports with buffered packets. */
  ghost function Waiting<T>(ports: seq<nat>, bufs: seq<seq<T>>): set<nat>
    requires |bufs| == MAX_PORTS && PortList(ports)
  {
    set p | p in ports && bufs[p] != []
  }

  predicate Distinct(ports: seq<nat>) {
    forall i, j :: 0 <= i < j < |ports| ==> ports[i] != ports[j]
  }

  lemma FirstWaits<T>(ports: seq<nat>, bufs: seq<seq<T>>)
    requires ports != [] && |bufs| == MAX_PORTS && PortList(ports) && Distinct(ports)
    ensures Distinct(ports[1..]) && PortList(ports[1..])
    ensures |Waiting(ports, bufs)|
            == |Waiting(ports[1..], bufs[ports[0] := []])| + if bufs[ports[0]] == [] then 0 else 1
  {
    var q := ports[0];
    forall p
      ensures p in ports <==> p == q || p in ports[1..]
    {
      assert ports == [q] + ports[1..];
    }
    assert q !in ports[1..];
    assert Waiting(ports, bufs) == Waiting(ports[1..], bufs[q := []]) + if bufs[q] == [] then {} else {q};
  }

  lemma DrainOneOffers<T>(nic: Nic<T>, s: Tx<T>, q: nat)
    requires Valid(s) && q < MAX_PORTS
    ensures var s' := DrainOne(nic, s, q);
            && Valid(s') && s'.bufs == s.bufs[q := []]
            && |s'.log| == |s.log| + if s.bufs[q] == [] then 0 else 1
  {
  }

  /** A drain makes one call for each listed port with buffered packets, and none for the others. */
  lemma {:induction false} DrainOffers<T>(nic: Nic<T>, s: Tx<T>, ports: seq<nat>)
    requires Valid(s) && PortList(ports) && Distinct(ports)
    ensures |Drain(nic, s, ports).log| == |s.log| + |Waiting(ports, s.bufs)|
    decreases |ports|
  {
    if ports != [] {
      hide Waiting, DrainOne, Distinct;
      DrainOneOffers(nic, s, ports[0]);
      FirstWaits(ports, s.bufs);
      DrainOffers(nic, DrainOne(nic, s, ports[0]), ports[1..]);
    }
  }

  /** All buffers are empty after a drain exactly if no packet waits for a port outside the list. */
  lemma DrainStrandsNothingIff<T>(nic: Nic<T>, s: Tx<T>, ports: seq<nat>)
    requires Valid(s) && PortList(ports)
    ensures var s' := Drain(nic, s, ports);
            && |s'.bufs| == MAX_PORTS
            && ((forall p :: 0 <= p < MAX_PORTS ==> s'.bufs[p] == []) <==>
                (forall p :: 0 <= p < MAX_PORTS && s.bufs[p] != [] ==> p in ports))
  {
    DrainEmpties(nic, s, ports, 0);
    forall p | 0 <= p < MAX_PORTS
      ensures Drain(nic, s, ports).bufs[p] == (if p in ports then [] else s.bufs[p])
    {
      DrainEmpties(nic, s, ports, p);
    }
  }

  // ----- whole runs

  /** What can happen to an lcore: a burst goes through the grouped or the simple path, or buffers are
      drained. */
  datatype Event<T> =
    | ByGroups(dsts: seq<u16>, pkts: seq<T>)
    | OneByOne(dsts: seq<u16>, pkts: seq<T>)
    | DrainTick(ports: seq<nat>)

  predicate ValidEvent<T>(e: Event<T>) {
    match e
    case ByGroups(d, ms) => Routable(d) && |d| == |ms| <= MAX_PKT_BURST
    case OneByOne(d, ms) => Routable(d) && |d| == |ms|
    case DrainTick(ports) => PortList(ports)
  }

  predicate ValidEvents<T>(es: seq<Event<T>>) {
    forall i :: 0 <= i < |es| ==> ValidEvent(es[i])
  }

  function Step<T>(nic: Nic<T>, s: Tx<T>, e: Event<T>): (r: Tx<T>)
    requires Valid(s) && ValidEvent(e)
    ensures Valid(r)
  {
    match e
    case ByGroups(d, ms) => DispatchGroups(nic, s, d, ms)
    case OneByOne(d, ms) => DispatchEach(nic, s, d, ms)
    case DrainTick(ports) => DrainEmpties(nic, s, ports, 0); Drain(nic, s, ports)
  }

  function Run<T>(nic: Nic<T>, s: Tx<T>, es: seq<Event<T>>): (r: Tx<T>)
    requires Valid(s) && ValidEvents(es)
    ensures Valid(r)
    decreases |es|
  {
    if es == [] then s else Run(nic, Step(nic, s, es[0]), es[1..])
  }

  function Start<T>(txq: seq<nat>): (s: Tx<T>)
    requires |txq| == MAX_PORTS
    ensures Valid(s)
  {
    Tx(txq, [], [], seq(MAX_PORTS, i => []))
  }

  /** The packets that a run has routed to dst, in order of arrival. */
  function Arrivals<T>(es: seq<Event<T>>, dst: u16): seq<T>
    requires ValidEvents(es)
    decreases |es|
  {
    if es == [] then []
    else (if es[0].DrainTick? then [] else Routed(es[0].dsts, es[0].pkts, dst)) + Arrivals(es[1..], dst)
  }

  /** All packets that a run has received. */
  function Received<T>(es: seq<Event<T>>): seq<T>
    decreases |es|
  {
    if es == [] then [] else (if es[0].DrainTick? then [] else es[0].pkts) + Received(es[1..])
  }

  lemma StepLine<T>(nic: Nic<T>, s: Tx<T>, e: Event<T>, p: nat)
    requires Valid(s) && ValidEvent(e) && p < MAX_PORTS
    ensures Line(Step(nic, s, e), p) == Line(s, p) + if e.DrainTick? then [] else Routed(e.dsts, e.pkts, p)
  {
    match e
    case ByGroups(d, ms) => DispatchGroupsLines(nic, s, d, ms, p);
    case OneByOne(d, ms) => DispatchEachLines(nic, s, d, ms, p);
    case DrainTick(ports) => DrainEmpties(nic, s, ports, p);
  }

  lemma StepCounts<T>(nic: Nic<T>, s: Tx<T>, e: Event<T>, x: T)
    requires Valid(s) && ValidEvent(e)
    ensures var s' := Step(nic, s, e);
            && Holding(s', x) == Holding(s, x) + (if e.DrainTick? then 0 else Count(e.pkts, x))
            && Dropped(s', x) == Dropped(s, x)
                                 + (if e.DrainTick? then 0 else Count(Routed(e.dsts, e.pkts, BAD_PORT), x))
  {
    match e
    case ByGroups(d, ms) => DispatchGroupsCounts(nic, s, d, ms, x);
    case OneByOne(d, ms) => DispatchEachCounts(nic, s, d, ms, x);
    case DrainTick(ports) => DrainCounts(nic, s, ports, x);
  }

  lemma {:induction false} RunLine<T>(nic: Nic<T>, s: Tx<T>, es: seq<Event<T>>, p: nat)
    requires Valid(s) && ValidEvents(es) && p < MAX_PORTS
    ensures Line(Run(nic, s, es), p) == Line(s, p) + Arrivals(es, p)
    decreases |es|
  {
    if es != [] {
      StepLine(nic, s, es[0], p);
      RunLine(nic, Step(nic, s, es[0]), es[1..], p);
      ConcatAssoc(Line(s, p), if es[0].DrainTick? then [] else Routed(es[0].dsts, es[0].pkts, p), Arrivals(es[1..], p));
    }
  }

  lemma {:induction false} RunCounts<T>(nic: Nic<T>, s: Tx<T>, es: seq<Event<T>>, x: T)
    requires Valid(s) && ValidEvents(es)
    ensures var s' := Run(nic, s, es);
            && Holding(s', x) == Holding(s, x) + Count(Received(es), x)
            && Dropped(s', x) == Dropped(s, x) + Count(Arrivals(es, BAD_PORT), x)
    decreases |es|
  {
    if es != [] {
      var e := es[0];
      StepCounts(nic, s, e, x);
      RunCounts(nic, Step(nic, s, e), es[1..], x);
      CountConcat(if e.DrainTick? then [] else e.pkts, Received(es[1..]), x);
      CountConcat(if e.DrainTick? then [] else Routed(e.dsts, e.pkts, BAD_PORT), Arrivals(es[1..], BAD_PORT), x);
    }
  }

  lemma {:induction false} StartHoldsNothing<T>(txq: seq<nat>, n: nat, x: T)
    requires |txq| == MAX_PORTS && n <= MAX_PORTS
    ensures Buffered(Start<T>(txq).bufs[..n], x) == 0
  {
    if n > 0 {
      StartHoldsNothing(txq, n - 1, x);
      var bufs := Start<T>(txq).bufs;
      assert bufs[..n][..n - 1] == bufs[..n - 1];
    }
  }

  /** Per-port FIFO in every reachable state: what has been offered to a port followed by what is still
      buffered for it is what has arrived for it, in order. */
  lemma PortsAreFifo<T>(nic: Nic<T>, txq: seq<nat>, es: seq<Event<T>>, p: nat)
    requires |txq| == MAX_PORTS && ValidEvents(es) && p < MAX_PORTS
    ensures Line(Run(nic, Start(txq), es), p) == Arrivals(es, p)
  {
    RunLine(nic, Start(txq), es, p);
  }

  /** Conservation in every reachable state: a received packet is accepted by the NIC, freed or buffered as
      often as it was received, and freed without having been offered only if it was classified bad. */
  lemma PacketsAreConserved<T>(nic: Nic<T>, txq: seq<nat>, es: seq<Event<T>>, x: T)
    requires |txq| == MAX_PORTS && ValidEvents(es)
    ensures var s := Run(nic, Start(txq), es);
            && Accepted(s.log, x) + Count(s.freed, x) + Buffered(s.bufs, x) == Count(Received(es), x)
            && Count(s.freed, x) == Refused(s.log, x) + Count(Arrivals(es, BAD_PORT), x)
  {
    var s0 := Start<T>(txq);
    StartHoldsNothing(txq, MAX_PORTS, x);
    assert s0.bufs[..MAX_PORTS] == s0.bufs;
    RunCounts(nic, s0, es, x);
  }

  /** If every packet is received once, each is in exactly one place: none is freed twice, freed and sent,
      or freed and still queued. */
  lemma EveryPacketInOnePlace<T>(nic: Nic<T>, txq: seq<nat>, es: seq<Event<T>>, x: T)
    requires |txq| == MAX_PORTS && ValidEvents(es)
    requires Count(Received(es), x) == 1
    ensures var s := Run(nic, Start(txq), es);
            && (Accepted(s.log, x) == 1 <==> Count(s.freed, x) == 0 && Buffered(s.bufs, x) == 0)
            && (Count(s.freed, x) == 1 <==> Accepted(s.log, x) == 0 && Buffered(s.bufs, x) == 0)
            && (Buffered(s.bufs, x) == 1 <==> Accepted(s.log, x) == 0 && Count(s.freed, x) == 0)
  {
    PacketsAreConserved(nic, txq, es, x);
  }

  /** A run as the simple forwarder would see it: one packet at a time, and no drains. */
  function OneByOneRun<T>(es: seq<Event<T>>): (r: seq<Event<T>>)
    requires ValidEvents(es)
    ensures ValidEvents(r)
    decreases |es|
  {
    if es == [] then []
    else (if es[0].DrainTick? then [] else [OneByOne(es[0].dsts, es[0].pkts)]) + OneByOneRun(es[1..])
  }

  lemma {:induction false} SameArrivals<T>(es: seq<Event<T>>, dst: u16)
    requires ValidEvents(es)
    ensures Arrivals(OneByOneRun(es), dst) == Arrivals(es, dst)
    decreases |es|
  {
    if es != [] {
      SameArrivals(es[1..], dst);
      if es[0].DrainTick? {
        assert OneByOneRun(es) == OneByOneRun(es[1..]);
      } else {
        assert OneByOneRun(es)[1..] == OneByOneRun(es[1..]);
      }
    }
  }

  // ----- the bursts that the NIC has seen

  /** Every burst went to the lcore's own queue on its port, and had between 1 and 32 packets. */
  ghost predicate OwnQueues<T>(s: Tx<T>)
    requires Valid(s)
  {
    forall i :: 0 <= i < |s.log| ==>
      s.log[i].queue == s.txq[s.log[i].port] && 1 <= |s.log[i].pkts| <= MAX_PKT_BURST
  }

  lemma OfferQueues<T>(nic: Nic<T>, s: Tx<T>, p: nat, ms: seq<T>, b: seq<T>)
    requires Valid(s) && OwnQueues(s) && p < MAX_PORTS && 1 <= |ms| <= MAX_PKT_BURST && |b| < MAX_PKT_BURST
    ensures var s' := Offer(nic, s, p, ms); Valid(s') && OwnQueues(s') && s'.txq == s.txq
    ensures var s' := SetBuf(Offer(nic, s, p, ms), p, b); Valid(s') && OwnQueues(s') && s'.txq == s.txq
  {
  }

  lemma GroupQueues<T>(nic: Nic<T>, s: Tx<T>, dst: u16, ms: seq<T>)
    requires Valid(s) && OwnQueues(s) && (dst < MAX_PORTS || dst == BAD_PORT) && 1 <= |ms| <= MAX_PKT_BURST
    ensures OwnQueues(GroupOut(nic, s, dst, ms)) && GroupOut(nic, s, dst, ms).txq == s.txq
  {
    if dst != BAD_PORT {
      var b := s.bufs[dst];
      if |ms| >= MAX_TX_BURST && b == [] {
        OfferQueues(nic, s, dst, ms, []);
      } else if |b| + |ms| >= MAX_PKT_BURST {
        var n := MAX_PKT_BURST - |b|;
        OfferQueues(nic, s, dst, b + ms[..n], ms[n..]);
      }
    }
  }

  lemma {:induction false} GroupsQueues<T>(nic: Nic<T>, s: Tx<T>, d: seq<u16>, ms: seq<T>)
    requires Valid(s) && OwnQueues(s) && Routable(d) && |d| == |ms| <= MAX_PKT_BURST
    ensures OwnQueues(DispatchGroups(nic, s, d, ms)) && DispatchGroups(nic, s, d, ms).txq == s.txq
    decreases |d|
  {
    hide GroupOut, OwnQueues;
    if d != [] {
      var k := FirstRun(d);
      GroupQueues(nic, s, d[0], ms[..k]);
      GroupsQueues(nic, GroupOut(nic, s, d[0], ms[..k]), d[k..], ms[k..]);
    }
  }

  lemma {:induction false} EachQueues<T>(nic: Nic<T>, s: Tx<T>, d: seq<u16>, ms: seq<T>)
    requires Valid(s) && OwnQueues(s) && Routable(d) && |d| == |ms|
    ensures OwnQueues(DispatchEach(nic, s, d, ms)) && DispatchEach(nic, s, d, ms).txq == s.txq
    decreases |d|
  {
    hide GroupOut, OwnQueues;
    if d != [] {
      GroupQueues(nic, s, d[0], [ms[0]]);
      EachQueues(nic, PacketOut(nic, s, d[0], ms[0]), d[1..], ms[1..]);
    }
  }

  lemma {:induction false} DrainQueues<T>(nic: Nic<T>, s: Tx<T>, ports: seq<nat>)
    requires Valid(s) && OwnQueues(s) && PortList(ports)
    ensures var s' := Drain(nic, s, ports); Valid(s') && OwnQueues(s') && s'.txq == s.txq
    decreases |ports|
  {
    if ports != [] {
      var q := ports[0];
      if s.bufs[q] != [] {
        OfferQueues(nic, s, q, s.bufs[q], []);
      }
      DrainQueues(nic, DrainOne(nic, s, q), ports[1..]);
    }
  }

  lemma {:induction false} RunQueues<T>(nic: Nic<T>, s: Tx<T>, es: seq<Event<T>>)
    requires Valid(s) && OwnQueues(s) && ValidEvents(es)
    ensures OwnQueues(Run(nic, s, es)) && Run(nic, s, es).txq == s.txq
    decreases |es|
  {
    hide OwnQueues, DispatchGroups, DispatchEach;
    if es != [] {
      match es[0] {
        case ByGroups(d, ms) => GroupsQueues(nic, s, d, ms);
        case OneByOne(d, ms) => EachQueues(nic, s, d, ms);
        case DrainTick(ports) => DrainQueues(nic, s, ports);
      }
      RunQueues(nic, Step(nic, s, es[0]), es[1..]);
    }
  }

  /** In every reachable state, every burst went to the lcore's own queue on its port. */
  lemma BurstsUseOwnQueues<T>(nic: Nic<T>, txq: seq<nat>, es: seq<Event<T>>, i: nat)
    requires |txq| == MAX_PORTS && ValidEvents(es) && i < |Run(nic, Start(txq), es).log|
    ensures var b := Run(nic, Start(txq), es).log[i];
            b.port < MAX_PORTS && b.queue == txq[b.port] && 1 <= |b.pkts| <= 32
  {
    RunQueues(nic, Start(txq), es);
  }

  /** Two runs from the same state, with any two NICs: equal arrivals make equal lines, and the same packets are
      dropped exactly if the same packets arrived for BAD_PORT. */
  lemma RunsCompare<T>(nic: Nic<T>, nic': Nic<T>, s: Tx<T>, es: seq<Event<T>>, fs: seq<Event<T>>, p: nat, x: T)
    requires Valid(s) && ValidEvents(es) && ValidEvents(fs) && p < MAX_PORTS
    ensures Arrivals(es, p) == Arrivals(fs, p) ==> Line(Run(nic, s, es), p) == Line(Run(nic', s, fs), p)
    ensures Dropped(Run(nic, s, es), x) == Dropped(Run(nic', s, fs), x)
            <==> Count(Arrivals(es, BAD_PORT), x) == Count(Arrivals(fs, BAD_PORT), x)
  {
    hide Run, Arrivals, Line, Dropped, Holding, Count;
    RunLine(nic, s, es, p);
    RunLine(nic', s, fs, p);
    RunCounts(nic, s, es, x);
    RunCounts(nic', s, fs, x);
  }

  /** Whole runs: grouping, direct sends, the times of the drains and the behaviour of the NIC are invisible.
      Every port has been given the same packets in the same order, and the same packets were dropped. */
  lemma RunRefinesOneByOne<T>(nic: Nic<T>, nic': Nic<T>, txq: seq<nat>, es: seq<Event<T>>, p: nat, x: T)
    requires |txq| == MAX_PORTS && ValidEvents(es) && p < MAX_PORTS
    ensures Line(Run(nic, Start(txq), es), p) == Line(Run(nic', Start(txq), OneByOneRun(es)), p)
    ensures Dropped(Run(nic, Start(txq), es), x) == Dropped(Run(nic', Start(txq), OneByOneRun(es)), x)
  {
    SameArrivals(es, p);
    SameArrivals(es, BAD_PORT);
    RunsCompare(nic, nic', Start(txq), es, OneByOneRun(es), p, x);
  }

  /** Runs compose: the state after es is where the rest of the run starts. */
  lemma {:induction false} RunConcat<T>(nic: Nic<T>, s: Tx<T>, es: seq<Event<T>>, fs: seq<Event<T>>)
    requires Valid(s) && ValidEvents(es) && ValidEvents(fs)
    ensures ValidEvents(es + fs) && Run(nic, s, es + fs) == Run(nic, Run(nic, s, es), fs)
    decreases |es|
  {
    if es == [] {
      assert es + fs == fs;
    } else {
      assert (es + fs)[1..] == es[1..] + fs;
      RunConcat(nic, Step(nic, s, es[0]), es[1..], fs);
    }
  }

  /** A drain over every port that holds a packet has offered everything that arrived before it, so nothing
      stays buffered until the next one. */
  lemma DrainOffersAllArrivals<T>(nic: Nic<T>, txq: seq<nat>, es: seq<Event<T>>, ports: seq<nat>, p: nat)
    requires |txq| == MAX_PORTS && ValidEvents(es) && PortList(ports) && p < MAX_PORTS
    requires Run(nic, Start(txq), es).bufs[p] != [] ==> p in ports
    ensures ValidEvents(es + [DrainTick(ports)])
    ensures Offered(Run(nic, Start(txq), es + [DrainTick(ports)]).log, p) == Arrivals(es, p)
  {
    var s := Run(nic, Start(txq), es);
    RunConcat(nic, Start(txq), es, [DrainTick(ports)]);
    DrainEmpties(nic, s, ports, p);
    PortsAreFifo(nic, txq, es, p);
    var s' := Drain(nic, s, ports);
    assert Line(s', p) == Offered(s'.log, p);
  }
}
