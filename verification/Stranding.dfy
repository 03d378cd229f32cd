/** What the drain leaves behind: which ports packets are put in buffers for, and which of these are drained. */
module Stranding {
  import opened Limits
  import opened Bytes
  import opened Frames
  import opened ExactMatch
  import PortGrouping
  import TxSpec
  import opened Dispatch
  import opened Forwarding
  import opened QueueSetup
  import FlowTables
  import MainLoop

  // ----- the ports that classification can find

  /** Some IPv4 flow of the table goes to port p. */
  ghost predicate Names4(cfg: Config, p: nat)
    requires cfg.Valid()
  {
    exists k: Tuple4 :: ConvertIpv4(k) in cfg.flows4.slots && cfg.flows4.outIf[cfg.flows4.slots[ConvertIpv4(k)]] == p
  }

  ghost predicate IsTuple6(k: Tuple6) {
    |k.ipDst| == |k.ipSrc| == 16
  }

  /** Some IPv6 flow of the table goes to port p. */
  ghost predicate Names6(cfg: Config, p: nat)
    requires cfg.Valid()
  {
    exists k: Tuple6 :: IsTuple6(k) && ConvertIpv6(k) in cfg.flows6.slots
                        && cfg.flows6.outIf[cfg.flows6.slots[ConvertIpv6(k)]] == p
  }

  /** Packets can be put in the buffer of p: it is enabled, and packets arrive there or a table entry names it. */
  ghost predicate Reached(cfg: Config, nbPorts: nat, p: nat)
    requires cfg.Valid()
  {
    p < MAX_PORTS && cfg.Enabled(p) && (p < nbPorts || Names4(cfg, p) || Names6(cfg, p))
  }

  /** A table entry names an enabled port that is not on the board. */
  ghost predicate NamesAbsentPort(cfg: Config, nbPorts: nat)
    requires cfg.Valid()
  {
    exists p: nat :: nbPorts <= p && Reached(cfg, nbPorts, p)
  }

  lemma Ipv4PortNamed(cfg: Config, f: seq<byte>, portid: byte)
    requires cfg.Valid() && HasRoom(f) && portid < MAX_PORTS
    ensures var d := Ipv4Port(cfg, f, portid); d == portid || (cfg.Enabled(d) && Names4(cfg, d))
  {
    Ipv4KeyOfFixed(f);
    hide Ipv4Key, ConvertIpv4, FixedTuple4, PortBit;
  }

  lemma Ipv6PortNamed(cfg: Config, f: seq<byte>, portid: byte)
    requires cfg.Valid() && HasRoom(f) && portid < MAX_PORTS
    ensures var d := Ipv6Port(cfg, f, portid); d == portid || (cfg.Enabled(d) && Names6(cfg, d))
  {
    Ipv6KeyIsTuple(f, TupleOfIpv6(f));
    assert IsTuple6(TupleOfIpv6(f));
    hide Ipv6Key, ConvertIpv6, TupleOfIpv6, PortBit;
  }

  /** Whatever the types, the eight-wide form finds the incoming port or an enabled one that a table names. */
  lemma {:induction false} WidePortsReached(cfg: Config, nbPorts: nat, ps: seq<Packet>, portid: byte, i: nat)
    requires cfg.Valid() && HaveRoom(ps) && i < |ps| && portid < MAX_PORTS
    requires portid < nbPorts && cfg.Enabled(portid)
    ensures Reached(cfg, nbPorts, ClassifyWide(cfg, ps, portid)[i])
    decreases |ps|
  {
    hide Ipv4Port, Ipv6Port, IsV4, IsV6, PortBit, Names4, Names6;
    if |ps| >= EM_HASH_LOOKUP_COUNT && i >= EM_HASH_LOOKUP_COUNT {
      WidePortsReached(cfg, nbPorts, ps[8..], portid, i - 8);
    } else {
      Ipv4PortNamed(cfg, ps[i].data, portid);
      Ipv6PortNamed(cfg, ps[i].data, portid);
    }
  }

  /** So every final destination of a burst is such a port, or BAD_PORT. */
  lemma FinalDstsReached(cfg: Config, nbPorts: nat, ps: seq<Packet>, portid: byte, i: nat)
    requires cfg.Valid() && HaveRoom(ps) && i < |ps| && portid < MAX_PORTS
    requires portid < nbPorts && cfg.Enabled(portid)
    ensures var d := FinalDsts(cfg, ps, ClassifyWide(cfg, ps, portid))[i];
            d == PortGrouping.BAD_PORT || Reached(cfg, nbPorts, d)
  {
    WidePortsReached(cfg, nbPorts, ps, portid, i);
    hide Reached, ClassifyWide, FastMac, HopUpdate, BadHeader;
  }

  // ----- runs of the main loop

  /** A burst that came in on an enabled port of the board, or a drain of the lcore's list of ports. */
  ghost predicate LoopEvent<T>(cfg: Config, nbPorts: nat, e: Event<T>)
    requires cfg.Valid() && nbPorts <= MAX_PORTS
  {
    match e
    case ByGroups(_, ms) =>
      exists ps: seq<Packet>, portid: byte ::
        && HaveRoom(ps) && |ms| == |ps| <= MAX_PKT_BURST
        && portid < nbPorts && cfg.Enabled(portid) && e == FastEvent(cfg, ps, ms, portid)
    case OneByOne(_, _) => false
    case DrainTick(ports) => ports == UsedPorts(cfg.portMask, nbPorts)
  }

  ghost predicate LoopEvents<T>(cfg: Config, nbPorts: nat, es: seq<Event<T>>)
    requires cfg.Valid() && nbPorts <= MAX_PORTS
  {
    ValidEvents(es) && forall i :: 0 <= i < |es| ==> LoopEvent(cfg, nbPorts, es[i])
  }

  /** The turns of the main loop are made of such events. */
  lemma TurnsAreLoopEvents(cfg: Config, nbPorts: nat, due: bool, rx: seq<MainLoop.RxBurst>,
                           arrived: seq<MainLoop.Arrived>, es: seq<Event<Forwarding.Mbuf>>)
    requires cfg.Valid() && nbPorts <= MAX_PORTS && MainLoop.EventsOf(cfg, rx, arrived, es)
    requires forall i :: 0 <= i < |rx| ==> rx[i].portid < nbPorts && cfg.Enabled(rx[i].portid)
    ensures LoopEvents(cfg, nbPorts, MainLoop.TurnEvents(due, UsedPorts(cfg.portMask, nbPorts), es))
  {
    hide FinalDsts, ClassifyWide, PortBit;
    forall i | 0 <= i < |es|
      ensures LoopEvent(cfg, nbPorts, es[i])
    {
      assert es[i] == FastEvent(cfg, arrived[i].ps, arrived[i].ms, rx[i].portid);
    }
  }

  lemma {:induction false} NothingRouted<T>(d: seq<u16>, ms: seq<T>, dst: u16)
    requires |d| == |ms| && dst !in d
    ensures Routed(d, ms, dst) == []
  {
    if d != [] {
      NothingRouted(d[1..], ms[1..], dst);
    }
  }

  lemma NothingInEvent<T>(cfg: Config, nbPorts: nat, e: Event<T>, p: nat)
    requires cfg.Valid() && nbPorts <= MAX_PORTS && p < MAX_PORTS && !Reached(cfg, nbPorts, p)
    requires ValidEvent(e) && LoopEvent(cfg, nbPorts, e) && !e.DrainTick?
    ensures Routed(e.dsts, e.pkts, p) == []
  {
    hide Reached, FinalDsts, ClassifyWide, PortBit;
    var ps: seq<Packet>, portid: byte :|
      && HaveRoom(ps) && |e.pkts| == |ps| <= MAX_PKT_BURST
      && portid < nbPorts && cfg.Enabled(portid) && e == FastEvent(cfg, ps, e.pkts, portid);
    forall i | 0 <= i < |e.dsts|
      ensures e.dsts[i] != p
    {
      FinalDstsReached(cfg, nbPorts, ps, portid, i);
    }
    NothingRouted(e.dsts, e.pkts, p);
  }

  /** Nothing ever arrives for a port that is not reached. */
  lemma {:induction false} NothingArrives<T>(cfg: Config, nbPorts: nat, es: seq<Event<T>>, p: nat)
    requires cfg.Valid() && nbPorts <= MAX_PORTS && p < MAX_PORTS && !Reached(cfg, nbPorts, p)
    requires LoopEvents(cfg, nbPorts, es)
    ensures Arrivals(es, p) == []
  {
    hide Reached, LoopEvent;
    if es != [] {
      assert LoopEvents(cfg, nbPorts, es[1..]) by {
        assert forall i :: 0 <= i < |es| - 1 ==> es[1..][i] == es[i + 1];
      }
      NothingArrives(cfg, nbPorts, es[1..], p);
      if !es[0].DrainTick? {
        NothingInEvent(cfg, nbPorts, es[0], p);
      }
    }
  }

  /** What a port has buffered after a run and a drain of the lcore's ports. */
  function AfterDrain<T>(nic: TxSpec.Nic<T>, txq: seq<nat>, es: seq<Event<T>>, ports: seq<nat>, p: nat): seq<T>
    requires |txq| == MAX_PORTS && ValidEvents(es) && PortList(ports) && p < MAX_PORTS
  {
    var s := Run(nic, Start(txq), es);
    DrainEmpties(nic, s, ports, p);
    TxSpec.Drain(nic, s, ports).bufs[p]
  }

  /** A drain leaves nothing for a port that is on the board or is never reached. */
  lemma UsedPortsSuffice<T>(nic: TxSpec.Nic<T>, txq: seq<nat>, cfg: Config, nbPorts: nat, es: seq<Event<T>>, p: nat)
    requires cfg.Valid() && nbPorts <= MAX_PORTS && p < MAX_PORTS && |txq| == MAX_PORTS
    requires LoopEvents(cfg, nbPorts, es) && (Reached(cfg, nbPorts, p) ==> p < nbPorts)
    ensures AfterDrain(nic, txq, es, UsedPorts(cfg.portMask, nbPorts), p) == []
  {
    var s := Run(nic, Start(txq), es);
    DrainEmpties(nic, s, UsedPorts(cfg.portMask, nbPorts), p);
    UsedPortsAre(cfg.portMask, nbPorts, p);
    if !Reached(cfg, nbPorts, p) {
      PortsAreFifo(nic, txq, es, p);
      NothingArrives(cfg, nbPorts, es, p);
      assert TxSpec.Line(s, p) == [];
    }
  }

  // ----- a packet for every table entry

  /** The bytes of an IPv4 packet of flow k. */
  function Frame4(k: Tuple4): (f: seq<byte>)
    ensures HasRoom(f) && f[12..14] == [8, 0] && f[14..18] == [0x45, 0, 0, 24] && f[23] == k.proto
    ensures f[26..30] == Wire32(k.ipSrc) && f[30..34] == Wire32(k.ipDst)
    ensures f[34..36] == Wire16(k.portSrc) && f[36..38] == Wire16(k.portDst)
  {
    var header := seq(12, i => 0) + [8, 0] + [0x45, 0, 0, 24] + [0, 0, 0, 0, 64, k.proto, 0, 0];
    var flow := Wire32(k.ipSrc) + Wire32(k.ipDst) + Wire16(k.portSrc) + Wire16(k.portDst);
    assert |header| == 26 && |flow| == 12;
    header + flow + seq(28, i => 0)
  }

  /** An IPv4 packet of flow k; for TCP and UDP it has the type that the parser gives it. */
  function PacketOf4(k: Tuple4): Packet {
    Packet(Frame4(k), PTYPE_L3_IPV4 | if k.proto == IPPROTO_TCP then PTYPE_L4_TCP else PTYPE_L4_UDP)
  }

  lemma PacketOf4Fits(k: Tuple4)
    ensures var p := PacketOf4(k);
            && HasRoom(p.data) && !BadHeader(p.data) && IsV4(p.ptype) && FixedTuple4(p.data) == k
            && (k.proto == IPPROTO_TCP || k.proto == IPPROTO_UDP ==> p.ptype == EmParsePtype(p.data))
  {
    var f := Frame4(k);
    hide Frame4;
    assert f[12] == f[12..14][0] && f[13] == f[12..14][1];
    assert f[14] == f[14..18][0] && f[16] == f[14..18][2] && f[17] == f[14..18][3];
    Slice4(f, 26);
    Slice4(f, 30);
    Slice2(f, 34);
    Slice2(f, 36);
  }

  lemma Slice2(f: seq<byte>, i: nat)
    requires i + 2 <= |f|
    ensures f[i..i + 2][0] == f[i] && f[i..i + 2][1] == f[i + 1]
  {
  }

  lemma Slice4(f: seq<byte>, i: nat)
    requires i + 4 <= |f|
    ensures f[i..i + 4][0] == f[i] && f[i..i + 4][1] == f[i + 1]
    ensures f[i..i + 4][2] == f[i + 2] && f[i..i + 4][3] == f[i + 3]
  {
  }

  /** An IPv6 packet of flow k. */
  function PacketOf6(k: Tuple6): (p: Packet)
    requires IsTuple6(k)
    ensures HasRoom(p.data) && IsV6(p.ptype)
    ensures k.proto == IPPROTO_TCP || k.proto == IPPROTO_UDP ==> p.ptype == EmParsePtype(p.data)
    ensures TupleOfIpv6(p.data) == k
  {
    var f := seq(12, i => 0) + [0x86, 0xdd] + [0x60, 0, 0, 0, 0, 0, k.proto, 64] + k.ipSrc + k.ipDst
      + Wire16(k.portSrc) + Wire16(k.portDst) + seq(8, i => 0);
    Packet(f, PTYPE_L3_IPV6 | if k.proto == IPPROTO_TCP then PTYPE_L4_TCP else PTYPE_L4_UDP)
  }

  lemma PacketForPort4(cfg: Config, p: nat, portid: byte) returns (k: Packet)
    requires cfg.Valid() && p < MAX_PORTS && portid < MAX_PORTS && cfg.Enabled(p) && Names4(cfg, p)
    ensures HasRoom(k.data) && (HasIpv4Hdr(k.ptype) ==> !BadHeader(k.data)) && EmDstPort(cfg, k, portid) == p
  {
    var t: Tuple4 :| ConvertIpv4(t) in cfg.flows4.slots && cfg.flows4.outIf[cfg.flows4.slots[ConvertIpv4(t)]] == p;
    k := PacketOf4(t);
    PacketOf4Fits(t);
    Ipv4KeyOfFixed(k.data);
    hide PacketOf4, ConvertIpv4, Ipv4Key, FixedTuple4, IsV4, IsV6, BadHeader, PortBit;
  }

  lemma PacketForPort6(cfg: Config, p: nat, portid: byte) returns (k: Packet)
    requires cfg.Valid() && p < MAX_PORTS && portid < MAX_PORTS && cfg.Enabled(p) && Names6(cfg, p)
    ensures HasRoom(k.data) && (HasIpv4Hdr(k.ptype) ==> !BadHeader(k.data)) && EmDstPort(cfg, k, portid) == p
  {
    var t: Tuple6 :| IsTuple6(t) && ConvertIpv6(t) in cfg.flows6.slots
                     && cfg.flows6.outIf[cfg.flows6.slots[ConvertIpv6(t)]] == p;
    k := PacketOf6(t);
    Ipv6KeyIsTuple(k.data, t);
    TypeBits(k.ptype);
    hide PacketOf6, ConvertIpv6, Ipv6Key, TupleOfIpv6, IsV4, IsV6, BadHeader, HasIpv4Hdr, PortBit;
  }

  /** For every enabled port that a table names there is a packet that the fast path sends to it. */
  lemma PacketForPort(cfg: Config, p: nat, portid: byte) returns (k: Packet)
    requires cfg.Valid() && p < MAX_PORTS && portid < MAX_PORTS && cfg.Enabled(p)
    requires Names4(cfg, p) || Names6(cfg, p)
    ensures HasRoom(k.data) && FinalDsts(cfg, [k], ClassifyWide(cfg, [k], portid)) == [p]
  {
    hide Names4, Names6, EmDstPort, FastOut, BadHeader, HasIpv4Hdr;
    if Names4(cfg, p) {
      k := PacketForPort4(cfg, p, portid);
    } else {
      k := PacketForPort6(cfg, p, portid);
    }
    GoodHeaderKeepsPort(cfg, k, p);
    assert ClassifyWide(cfg, [k], portid) == [p];
  }

  lemma GoodHeaderKeepsPort(cfg: Config, k: Packet, dst: u16)
    requires cfg.Valid() && HasRoom(k.data) && dst < MAX_PORTS && (HasIpv4Hdr(k.ptype) ==> !BadHeader(k.data))
    ensures FastOut(cfg, k, dst).1 == dst
  {
    RewriteKeepsHeader(k.data, PortEth(cfg, dst));
  }

  // ----- the exact condition

  lemma OneGroupRun<T>(nic: TxSpec.Nic<T>, txq: seq<nat>, p: u16, m: T)
    requires |txq| == MAX_PORTS && p < MAX_PORTS
    ensures ValidEvents([ByGroups([p], [m])])
    ensures Run(nic, Start(txq), [ByGroups([p], [m])]).bufs[p] == [m]
  {
    var s0 := Start<T>(txq);
    var e: Event<T> := ByGroups([p], [m]);
    assert Run(nic, s0, [e]) == Step(nic, s0, e) by {
      assert [e][1..] == [];
    }
    assert DispatchGroups(nic, s0, [p], [m]) == GroupOut(nic, s0, p, [m]) by {
      assert [p][1..] == [] && [m][..1] == [m] && [m][1..] == [];
    }
    hide DispatchGroups, Run;
    assert GroupOut(nic, s0, p, [m]).bufs[p] == [] + [m];
  }

  /** If a table entry names an enabled port that is not on the board, a single packet of that flow stays
      behind. */
  lemma AbsentPortStrands<T>(nic: TxSpec.Nic<T>, txq: seq<nat>, cfg: Config, nbPorts: nat, portid: byte, p: nat, m: T)
    returns (k: Packet, es: seq<Event<T>>)
    requires cfg.Valid() && nbPorts <= MAX_PORTS && |txq| == MAX_PORTS
    requires portid < nbPorts && cfg.Enabled(portid) && Reached(cfg, nbPorts, p) && p >= nbPorts
    ensures HasRoom(k.data) && es == [FastEvent(cfg, [k], [m], portid)]
    ensures LoopEvents(cfg, nbPorts, es)
    ensures AfterDrain(nic, txq, es, UsedPorts(cfg.portMask, nbPorts), p) == [m]
  {
    k := PacketForPort(cfg, p, portid);
    es := [FastEvent(cfg, [k], [m], portid)];
    OneGroupRun(nic, txq, p, m);
    hide FinalDsts, ClassifyWide, Run, PortBit, Names4, Names6;
    assert LoopEvent(cfg, nbPorts, es[0]);
    UsedPortsAre(cfg.portMask, nbPorts, p);
    DrainEmpties(nic, Run(nic, Start(txq), es), UsedPorts(cfg.portMask, nbPorts), p);
  }

  /** No run of the main loop leaves a packet behind after a drain exactly if no table entry names an enabled port
      beyond those on the board (or no packet can come in at all). */
  lemma DrainsAllIff<T>(cfg: Config, nbPorts: nat, m: T)
    requires cfg.Valid() && nbPorts <= MAX_PORTS
    ensures (forall nic: TxSpec.Nic<T>, txq: seq<nat>, es: seq<Event<T>>, p: nat |
               |txq| == MAX_PORTS && LoopEvents(cfg, nbPorts, es) && p < MAX_PORTS ::
               AfterDrain(nic, txq, es, UsedPorts(cfg.portMask, nbPorts), p) == [])
            <==> UsedPorts(cfg.portMask, nbPorts) == [] || !NamesAbsentPort(cfg, nbPorts)
  {
    hide AfterDrain, LoopEvent, Reached;
    var used := UsedPorts(cfg.portMask, nbPorts);
    if used == [] || !NamesAbsentPort(cfg, nbPorts) {
      forall nic: TxSpec.Nic<T>, txq: seq<nat>, es: seq<Event<T>>, p: nat |
        |txq| == MAX_PORTS && LoopEvents(cfg, nbPorts, es) && p < MAX_PORTS
        ensures AfterDrain(nic, txq, es, used, p) == []
      {
        if used == [] {
          NothingComesIn(nic, txq, cfg, nbPorts, es, p);
        } else {
          UsedPortsSuffice(nic, txq, cfg, nbPorts, es, p);
        }
      }
    } else {
      var nic, txq, es, p := StrandingRun(cfg, nbPorts, m);
      assert AfterDrain(nic, txq, es, used, p) == [m];
    }
  }

  lemma StrandingRun<T>(cfg: Config, nbPorts: nat, m: T)
    returns (nic: TxSpec.Nic<T>, txq: seq<nat>, es: seq<Event<T>>, p: nat)
    requires cfg.Valid() && nbPorts <= MAX_PORTS
    requires UsedPorts(cfg.portMask, nbPorts) != [] && NamesAbsentPort(cfg, nbPorts)
    ensures |txq| == MAX_PORTS && LoopEvents(cfg, nbPorts, es) && p < MAX_PORTS
    ensures AfterDrain(nic, txq, es, UsedPorts(cfg.portMask, nbPorts), p) == [m]
  {
    hide AfterDrain, LoopEvents, FastEvent;
    p :| nbPorts <= p && Reached(cfg, nbPorts, p);
    var q := UsedPorts(cfg.portMask, nbPorts)[0];
    assert q in UsedPorts(cfg.portMask, nbPorts);
    UsedPortsAre(cfg.portMask, nbPorts, q);
    txq := seq(MAX_PORTS, i => 0);
    nic := (log, port, ms) => 0;
    var k;
    k, es := AbsentPortStrands(nic, txq, cfg, nbPorts, q, p, m);
  }

  /** Without an enabled port on the board nothing is ever received. */
  lemma NothingComesIn<T>(nic: TxSpec.Nic<T>, txq: seq<nat>, cfg: Config, nbPorts: nat, es: seq<Event<T>>, p: nat)
    requires cfg.Valid() && nbPorts <= MAX_PORTS && p < MAX_PORTS && |txq| == MAX_PORTS
    requires LoopEvents(cfg, nbPorts, es) && UsedPorts(cfg.portMask, nbPorts) == []
    ensures AfterDrain(nic, txq, es, UsedPorts(cfg.portMask, nbPorts), p) == []
  {
    OnlyDrains(cfg, nbPorts, es, p);
    var s := Run(nic, Start(txq), es);
    DrainEmpties(nic, s, UsedPorts(cfg.portMask, nbPorts), p);
    PortsAreFifo(nic, txq, es, p);
    assert TxSpec.Line(s, p) == [];
  }

  lemma {:induction false} OnlyDrains<T>(cfg: Config, nbPorts: nat, es: seq<Event<T>>, p: nat)
    requires cfg.Valid() && nbPorts <= MAX_PORTS && p < MAX_PORTS
    requires LoopEvents(cfg, nbPorts, es) && UsedPorts(cfg.portMask, nbPorts) == []
    ensures Arrivals(es, p) == []
  {
    hide FastEvent;
    if es != [] {
      assert LoopEvents(cfg, nbPorts, es[1..]) by {
        assert forall i :: 0 <= i < |es| - 1 ==> es[1..][i] == es[i + 1];
      }
      OnlyDrains(cfg, nbPorts, es[1..], p);
      if es[0].ByGroups? {
        var ps: seq<Packet>, portid: byte :|
          && HaveRoom(ps) && |es[0].pkts| == |ps| <= MAX_PKT_BURST
          && portid < nbPorts && cfg.Enabled(portid) && es[0] == FastEvent(cfg, ps, es[0].pkts, portid);
        UsedPortsAre(cfg.portMask, nbPorts, portid);
      }
    }
  }

  /** With the generated table, whose ports are 0 and 1, nothing is stranded on a board of two ports or more,
      whatever ports the mask names beyond those. */
  lemma GeneratedTableStrandsNothing(cfg: Config, n: nat, nbPorts: nat)
    requires cfg.Valid() && FlowTables.Populated(cfg.flows4, n) && 2 <= nbPorts
    requires forall p: nat :: Names6(cfg, p) ==> p < nbPorts
    ensures !NamesAbsentPort(cfg, nbPorts)
  {
    forall p: nat | Names4(cfg, p)
      ensures p < nbPorts
    {
      GeneratedPort(cfg, n, p);
    }
  }

  lemma GeneratedPort(cfg: Config, n: nat, p: nat)
    requires cfg.Valid() && FlowTables.Populated(cfg.flows4, n) && Names4(cfg, p)
    ensures p < 2
  {
    hide ConvertIpv4, FlowTables.Entry;
    var t: Tuple4 :| ConvertIpv4(t) in cfg.flows4.slots && cfg.flows4.outIf[cfg.flows4.slots[ConvertIpv4(t)]] == p;
    var k :| 0 <= k < n && FlowTables.EntryKey(k) == ConvertIpv4(t);
    FlowTables.EntryIsFlow(k);
  }
}
