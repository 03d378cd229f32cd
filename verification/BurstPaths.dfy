/** The two ways a received burst can take, from packet types to TX buffers. */
module BurstPaths {
  import opened Limits
  import opened Bytes
  import opened Frames
  import opened ExactMatch
  import opened PortGrouping
  import TxSpec
  import opened TxBuffer
  import opened Dispatch
  import opened Forwarding
  import opened ForwardingLoops

  /** `em_cb_parse_ptype` on the first nb packets. */
  method EmCbParsePtype(pkts: array<Mbuf>, nb: nat, ghost ms: seq<Mbuf>)
    requires Burst(pkts, ms) && nb == |ms| && forall i :: 0 <= i < nb ==> HasRoom(ms[i].data)
    modifies (set m <- ms)`packetType
    ensures forall i :: 0 <= i < nb ==> ms[i].packetType == EmParsePtype(ms[i].data)
  {
    for i := 0 to nb
      invariant forall k :: 0 <= k < i ==> ms[k].packetType == EmParsePtype(ms[k].data)
    {
      assert pkts[i] == pkts[..nb][i] == ms[i];
      pkts[i].packetType := EmParsePtype(pkts[i].data);
    }
  }

  // ----- eight-wide classification

  /** `em_get_dst_port_ipv4xN` for packets j..j + 8: keys, bulk lookup, ports. */
  method EmGetDstPortIpv4xN(cfg: Config, pkts: array<Mbuf>, j: nat, portid: byte, dstPort: array<u16>,
                            ghost ms: seq<Mbuf>, ghost ps: seq<Packet>)
    requires cfg.Valid() && HaveRoom(ps) && Burst(pkts, ms) && Contents(ms, ps) && j + 8 <= |ms| <= dstPort.Length
    requires dstPort as object != pkts
    modifies dstPort
    ensures forall i :: j <= i < j + 8 ==> dstPort[i] == Ipv4Port(cfg, ps[i].data, portid)
    ensures forall i :: 0 <= i < dstPort.Length && !(j <= i < j + 8) ==> dstPort[i] == old(dstPort[i])
  {
    hide Ipv4Key, PortBit;
    var key := new seq<byte>[EM_HASH_LOOKUP_COUNT](i => []);
    for i := 0 to EM_HASH_LOOKUP_COUNT
      invariant forall k :: 0 <= k < i ==> key[k] == Ipv4Key(ps[j + k].data)
      modifies key
    {
      assert pkts[j + i] == pkts[..|ms|][j + i] == ms[j + i];
      key[i] := Ipv4Key(pkts[j + i].data);
    }
    var ret := LookupBulk(cfg.flows4, key);
    for i := 0 to EM_HASH_LOOKUP_COUNT
      invariant forall k :: j <= k < j + i ==> dstPort[k] == Ipv4Port(cfg, ps[k].data, portid)
      invariant forall k :: 0 <= k < dstPort.Length && !(j <= k < j + 8) ==> dstPort[k] == old(dstPort[k])
      modifies dstPort
    {
      assert ret[i] == cfg.flows4.Lookup(Ipv4Key(ps[j + i].data));
      dstPort[j + i] := if ret[i] < 0 then portid else cfg.flows4.outIf[ret[i]];
      if dstPort[j + i] >= MAX_PORTS || !cfg.Enabled(dstPort[j + i]) {
        dstPort[j + i] := portid;
      }
    }
  }

  /** `em_get_dst_port_ipv6xN` */
  method EmGetDstPortIpv6xN(cfg: Config, pkts: array<Mbuf>, j: nat, portid: byte, dstPort: array<u16>,
                            ghost ms: seq<Mbuf>, ghost ps: seq<Packet>)
    requires cfg.Valid() && HaveRoom(ps) && Burst(pkts, ms) && Contents(ms, ps) && j + 8 <= |ms| <= dstPort.Length
    requires dstPort as object != pkts
    modifies dstPort
    ensures forall i :: j <= i < j + 8 ==> dstPort[i] == Ipv6Port(cfg, ps[i].data, portid)
    ensures forall i :: 0 <= i < dstPort.Length && !(j <= i < j + 8) ==> dstPort[i] == old(dstPort[i])
  {
    hide Ipv6Key, PortBit;
    var key := new seq<byte>[EM_HASH_LOOKUP_COUNT](i => []);
    for i := 0 to EM_HASH_LOOKUP_COUNT
      invariant forall k :: 0 <= k < i ==> key[k] == Ipv6Key(ps[j + k].data)
      modifies key
    {
      assert pkts[j + i] == pkts[..|ms|][j + i] == ms[j + i];
      key[i] := Ipv6Key(pkts[j + i].data);
    }
    var ret := LookupBulk(cfg.flows6, key);
    for i := 0 to EM_HASH_LOOKUP_COUNT
      invariant forall k :: j <= k < j + i ==> dstPort[k] == Ipv6Port(cfg, ps[k].data, portid)
      invariant forall k :: 0 <= k < dstPort.Length && !(j <= k < j + 8) ==> dstPort[k] == old(dstPort[k])
      modifies dstPort
    {
      assert ret[i] == cfg.flows6.Lookup(Ipv6Key(ps[j + i].data));
      dstPort[j + i] := if ret[i] < 0 then portid else cfg.flows6.outIf[ret[i]];
      if dstPort[j + i] >= MAX_PORTS || !cfg.Enabled(dstPort[j + i]) {
        dstPort[j + i] := portid;
      }
    }
  }

  /** rte_hash_lookup_bulk: one result per key. */
  method LookupBulk(t: FlowTable, key: array<seq<byte>>) returns (ret: array<int>)
    ensures fresh(ret) && ret.Length == key.Length
    ensures forall i :: 0 <= i < key.Length ==> ret[i] == t.Lookup(key[i])
  {
    ret := new int[key.Length](i => 0);
    for i := 0 to key.Length
      invariant forall k :: 0 <= k < i ==> ret[k] == t.Lookup(key[k])
    {
      ret[i] := t.Lookup(key[i]);
    }
  }

  /** The and of the eight packet types from j on. */
  method AndPacketTypes(pkts: array<Mbuf>, j: nat, ghost ms: seq<Mbuf>, ghost ps: seq<Packet>) returns (pktType: bv32)
    requires Burst(pkts, ms) && Contents(ms, ps) && j + 8 <= |ms|
    ensures pktType == AndTypes(Types(ps[j..])[..8])
  {
    pktType := PTYPE_L3_MASK | PTYPE_L4_TCP | PTYPE_L4_UDP;
    ghost var ts := Types(ps[j..])[..8];
    for i := 0 to EM_HASH_LOOKUP_COUNT
      invariant pktType == AndTypes(ts[..i])
    {
      assert pkts[j + i] == pkts[..|ms|][j + i] == ms[j + i];
      assert ts[..i + 1][..i] == ts[..i] && ts[i] == ps[j + i].ptype;
      pktType := pktType & pkts[j + i].packetType;
    }
    assert ts[..8] == ts;
  }

  /** One turn of the eight-wide loop at j. */
  method ClassifyEight(cfg: Config, pkts: array<Mbuf>, j: nat, portid: byte, dstPort: array<u16>,
                       ghost ms: seq<Mbuf>, ghost ps: seq<Packet>)
    requires cfg.Valid() && HaveRoom(ps) && Burst(pkts, ms) && Contents(ms, ps) && j + 8 <= |ms| <= dstPort.Length
    requires dstPort as object != pkts
    modifies dstPort
    ensures var t := AndTypes(Types(ps[j..])[..8]);
            forall i :: j <= i < j + 8 ==> dstPort[i] == WidePort(cfg, t, ps[i], portid)
    ensures forall i :: 0 <= i < dstPort.Length && !(j <= i < j + 8) ==> dstPort[i] == old(dstPort[i])
  {
    hide EmDstPort, Ipv4Port, Ipv6Port, AndTypes;
    var pktType := AndPacketTypes(pkts, j, ms, ps);
    if IsV4(pktType) {
      EmGetDstPortIpv4xN(cfg, pkts, j, portid, dstPort, ms, ps);
    } else if IsV6(pktType) {
      EmGetDstPortIpv6xN(cfg, pkts, j, portid, dstPort, ms, ps);
    } else {
      for i := 0 to EM_HASH_LOOKUP_COUNT
        invariant forall k :: j <= k < j + i ==> dstPort[k] == EmDstPort(cfg, ps[k], portid)
        invariant forall k :: 0 <= k < dstPort.Length && !(j <= k < j + 8) ==> dstPort[k] == old(dstPort[k])
      {
        assert pkts[j + i] == pkts[..|ms|][j + i] == ms[j + i];
        dstPort[j + i] := EmDstPort(cfg, pkts[j + i].Content(), portid);
      }
    }
  }

  /** One block of the specification, seen from position j. */
  lemma ClassifyTurn(cfg: Config, ps: seq<Packet>, portid: byte, w: seq<byte>, j: nat)
    requires cfg.Valid() && HaveRoom(ps) && j + 8 <= |ps| == |w|
    requires w[j..] == ClassifyWide(cfg, ps[j..], portid)
    ensures var t := AndTypes(Types(ps[j..])[..8]);
            forall i :: j <= i < j + 8 ==> w[i] == WidePort(cfg, t, ps[i], portid)
    ensures w[j + 8..] == ClassifyWide(cfg, ps[j + 8..], portid)
  {
  }

  /** The last block, of fewer than eight packets. */
  lemma ClassifyRest(cfg: Config, ps: seq<Packet>, portid: byte, w: seq<byte>, j: nat)
    requires cfg.Valid() && HaveRoom(ps) && j <= |ps| == |w| && |ps| < j + 8
    requires w[j..] == ClassifyWide(cfg, ps[j..], portid)
    ensures forall i :: j <= i < |ps| ==> w[i] == EmDstPort(cfg, ps[i], portid)
  {
  }

  /** Classification in `l3fwd_em_send_packets`: blocks of eight, then packet by packet. */
  method ClassifyBurst(cfg: Config, pkts: array<Mbuf>, nbRx: nat, portid: byte, dstPort: array<u16>,
                       ghost ms: seq<Mbuf>, ghost ps: seq<Packet>)
    requires cfg.Valid() && HaveRoom(ps) && Burst(pkts, ms) && Contents(ms, ps) && nbRx == |ms| <= dstPort.Length
    requires dstPort as object != pkts
    modifies dstPort
    ensures dstPort[..nbRx] == ClassifyWide(cfg, ps, portid)
  {
    hide ClassifyWide, WidePort, EmDstPort, AndTypes;
    ghost var w := ClassifyWide(cfg, ps, portid);
    var n := nbRx - nbRx % EM_HASH_LOOKUP_COUNT;
    var j := 0;
    assert ps[0..] == ps && w[0..] == w;
    while j < n
      invariant j <= n && j % 8 == 0
      invariant w[j..] == ClassifyWide(cfg, ps[j..], portid)
      invariant forall i :: 0 <= i < j ==> dstPort[i] == w[i]
    {
      ClassifyEight(cfg, pkts, j, portid, dstPort, ms, ps);
      ClassifyTurn(cfg, ps, portid, w, j);
      j := j + EM_HASH_LOOKUP_COUNT;
    }
    ClassifyRest(cfg, ps, portid, w, j);
    while j < nbRx
      invariant n <= j <= nbRx
      invariant forall i :: 0 <= i < j ==> dstPort[i] == w[i]
    {
      assert pkts[j] == pkts[..|ms|][j] == ms[j];
      dstPort[j] := EmDstPort(cfg, pkts[j].Content(), portid);
      j := j + 1;
    }
  }

  /** `l3fwd_em_send_packets`, the fast path of one burst. */
  method L3fwdEmSendPackets(cfg: Config, qconf: LcoreConf<Mbuf>, pkts: array<Mbuf>, nbRx: nat, portid: byte,
                            ghost ms: seq<Mbuf>, ghost ps: seq<Packet>)
    requires cfg.Valid() && HaveRoom(ps) && qconf.Valid() && portid < MAX_PORTS
    requires Burst(pkts, ms) && Contents(ms, ps) && nbRx == |ms| <= MAX_PKT_BURST
    requires pkts as object != qconf.len
    modifies (set m <- ms)`data, qconf, qconf.len, qconf.mTable
    ensures var ds := ClassifyWide(cfg, ps, portid);
            && qconf.Valid()
            && qconf.tx == DispatchGroups(qconf.nic, old(qconf.tx), FinalDsts(cfg, ps, ds), ms)
            && (forall i :: 0 <= i < |ms| ==> ms[i].data == FastOut(cfg, ps[i], ds[i]).0)
            && (forall i :: 0 <= i < |ms| ==> Rewritten(cfg, ps[i], ds[i], ms[i].data))
  {
    hide ClassifyWide, DispatchGroups, FinalDsts, FastOut, Rewritten;
    var dstPort := new u16[MAX_PKT_BURST];
    ClassifyBurst(cfg, pkts, nbRx, portid, dstPort, ms, ps);
    SendPacketsMulti(cfg, qconf, pkts, dstPort, nbRx, ms, ps, ClassifyWide(cfg, ps, portid));
    forall i | 0 <= i < |ms|
      ensures Rewritten(cfg, ps[i], ClassifyWide(cfg, ps, portid)[i], ms[i].data)
    {
      FastOutIs(cfg, ps[i], ClassifyWide(cfg, ps, portid)[i]);
    }
  }

  // ----- the simple path

  const PREFETCH_OFFSET := 3

  /** `l3fwd_em_simple_forward` */
  method L3fwdEmSimpleForward(cfg: Config, m: Mbuf, portid: byte, qconf: LcoreConf<Mbuf>)
    requires cfg.Valid() && HasRoom(m.data) && qconf.Valid() && portid < MAX_PORTS
    modifies m`data, qconf, qconf.len, qconf.mTable
    ensures var v := SimpleVerdict(cfg, old(m.Content()), m.pktLen, portid);
            && m.data == (if v.Drop? then old(m.data) else v.data)
            && qconf.Valid()
            && VerdictDst(v) <= BAD_PORT
            && qconf.tx == PacketOut(qconf.nic, old(qconf.tx), VerdictDst(v), m)
  {
    hide Ipv4Key, Ipv6Key, PortBit, IsValidIpv4Pkt, HopUpdate;
    var tcpOrUdp := m.packetType & (PTYPE_L4_TCP | PTYPE_L4_UDP);
    var l3Ptypes := m.packetType & PTYPE_L3_MASK;
    if tcpOrUdp != 0 && l3Ptypes == PTYPE_L3_IPV4 {
      if IsValidIpv4Pkt(m.data, m.pktLen) < 0 {
        FreeOne(qconf, m);
        return;
      }
      var dst := FlowPort(cfg.flows4, Ipv4Key(m.data), portid);
      if dst >= MAX_PORTS || !cfg.Enabled(dst) {
        dst := portid;
      }
      m.data := HopUpdate(m.data);
      m.data := StoreAt(m.data, 0, cfg.destEthAddr[dst]);
      m.data := StoreAt(m.data, 6, cfg.portsEthAddr[dst]);
      qconf.SendSinglePacket(m, dst);
    } else if tcpOrUdp != 0 && l3Ptypes == PTYPE_L3_IPV6 {
      var dst := FlowPort(cfg.flows6, Ipv6Key(m.data), portid);
      if dst >= MAX_PORTS || !cfg.Enabled(dst) {
        dst := portid;
      }
      m.data := StoreAt(m.data, 0, cfg.destEthAddr[dst]);
      m.data := StoreAt(m.data, 6, cfg.portsEthAddr[dst]);
      qconf.SendSinglePacket(m, dst);
    } else {
      FreeOne(qconf, m);
    }
  }

  /** rte_pktmbuf_free on the lcore's state. */
  method FreeOne(qconf: LcoreConf<Mbuf>, m: Mbuf)
    requires qconf.Valid()
    modifies qconf
    ensures qconf.Valid() && qconf.tx == TxSpec.Free(old(qconf.tx), [m])
  {
    qconf.PktmbufFree(m);
    qconf.tx := TxSpec.Free(qconf.tx, [m]);
  }

  lemma EachTurn(nic: TxSpec.Nic<Mbuf>, s: TxSpec.Tx<Mbuf>, d: seq<u16>, ms: seq<Mbuf>, j: nat)
    requires TxSpec.Valid(s) && Routable(d) && j < |d| == |ms|
    ensures DispatchEach(nic, s, d[j..], ms[j..])
            == DispatchEach(nic, PacketOut(nic, s, d[j], ms[j]), d[j + 1..], ms[j + 1..])
  {
  }

  /** The packets before j are as the simple path leaves them, the others as they came. */
  ghost predicate SimplyDone(cfg: Config, ms: seq<Mbuf>, ps: seq<Packet>, lens: seq<nat>, portid: byte, j: nat)
    requires cfg.Valid() && HaveRoom(ps) && |ms| == |ps| == |lens| && portid < MAX_PORTS
    reads ms
  {
    && (forall i :: 0 <= i < |ms| ==> ms[i].pktLen == lens[i] && ms[i].packetType == ps[i].ptype)
    && (forall i :: 0 <= i < |ms| ==>
       ms[i].data == if i < j then SimpleData(cfg, ps[i], lens[i], portid) else ps[i].data)
  }

  /** A dropped packet keeps its bytes. */
  function SimpleData(cfg: Config, p: Packet, len: nat, portid: byte): seq<byte>
    requires cfg.Valid() && HasRoom(p.data) && portid < MAX_PORTS
  {
    var v := SimpleVerdict(cfg, p, len, portid);
    if v.Drop? then p.data else v.data
  }

  /** One call of `l3fwd_em_simple_forward` in the loop. */
  method ForwardNext(cfg: Config, qconf: LcoreConf<Mbuf>, pkts: array<Mbuf>, portid: byte, j: nat,
                     ghost ms: seq<Mbuf>, ghost ps: seq<Packet>, ghost lens: seq<nat>, ghost done: TxSpec.Tx<Mbuf>)
    requires cfg.Valid() && HaveRoom(ps) && qconf.Valid() && portid < MAX_PORTS
    requires Burst(pkts, ms) && j < |ms| == |ps| == |lens| && SimplyDone(cfg, ms, ps, lens, portid, j)
    requires DispatchEach(qconf.nic, qconf.tx, SimpleDsts(cfg, ps, lens, portid)[j..], ms[j..]) == done
    modifies (set m <- ms)`data, qconf, qconf.len, qconf.mTable
    ensures qconf.Valid() && SimplyDone(cfg, ms, ps, lens, portid, j + 1)
    ensures DispatchEach(qconf.nic, qconf.tx, SimpleDsts(cfg, ps, lens, portid)[j + 1..], ms[j + 1..]) == done
  {
    hide SimpleVerdict, DispatchEach, PacketOut;
    EachTurn(qconf.nic, qconf.tx, SimpleDsts(cfg, ps, lens, portid), ms, j);
    var m := pkts[j];
    assert m == pkts[..|ms|][j] == ms[j];
    assert m.Content() == ps[j];
    L3fwdEmSimpleForward(cfg, m, portid, qconf);
  }

  /** `l3fwd_em_no_opt_send_packets`: two loops, split where prefetching stops. */
  method L3fwdEmNoOptSendPackets(cfg: Config, qconf: LcoreConf<Mbuf>, pkts: array<Mbuf>, nbRx: nat, portid: byte,
                                 ghost ms: seq<Mbuf>, ghost ps: seq<Packet>, ghost lens: seq<nat>)
    requires cfg.Valid() && HaveRoom(ps) && qconf.Valid() && portid < MAX_PORTS
    requires Burst(pkts, ms) && nbRx == |ms| == |ps| == |lens| && SimplyDone(cfg, ms, ps, lens, portid, 0)
    modifies (set m <- ms)`data, qconf, qconf.len, qconf.mTable
    ensures qconf.Valid() && SimplyDone(cfg, ms, ps, lens, portid, nbRx)
    ensures qconf.tx == DispatchEach(qconf.nic, old(qconf.tx), SimpleDsts(cfg, ps, lens, portid), ms)
  {
    hide SimpleVerdict, DispatchEach, SimpleDsts, SimplyDone;
    ghost var d := SimpleDsts(cfg, ps, lens, portid);
    ghost var done := DispatchEach(qconf.nic, qconf.tx, d, ms);
    var j := 0;
    assert d[0..] == d && ms[0..] == ms;
    while j < nbRx - PREFETCH_OFFSET
      invariant j <= nbRx
      invariant qconf.Valid() && SimplyDone(cfg, ms, ps, lens, portid, j)
      invariant DispatchEach(qconf.nic, qconf.tx, d[j..], ms[j..]) == done
    {
      ForwardNext(cfg, qconf, pkts, portid, j, ms, ps, lens, done);
      j := j + 1;
    }
    while j < nbRx
      invariant j <= nbRx
      invariant qconf.Valid() && SimplyDone(cfg, ms, ps, lens, portid, j)
      invariant DispatchEach(qconf.nic, qconf.tx, d[j..], ms[j..]) == done
    {
      ForwardNext(cfg, qconf, pkts, portid, j, ms, ps, lens, done);
      j := j + 1;
    }
    EachNothing(qconf.nic, qconf.tx, d[j..], ms[j..]);
  }

  lemma EachNothing(nic: TxSpec.Nic<Mbuf>, s: TxSpec.Tx<Mbuf>, d: seq<u16>, ms: seq<Mbuf>)
    requires TxSpec.Valid(s) && d == [] && ms == []
    ensures DispatchEach(nic, s, d, ms) == s
  {
  }
}
