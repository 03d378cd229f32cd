/** Longest-prefix-match classification: the four-wide form against one lookup per packet. */
module LongestPrefix {
  import opened Bytes
  import opened Wrappers
  import opened Frames
  import opened ExactMatch
  import opened PortGrouping
  import opened Forwarding
  import opened ForwardingLoops

  /** The two lookup tables as functions of the destination address; a next hop has 24 bits. */
  datatype LpmConfig = LpmConfig(lpm4: u32 -> Option<nat>, lpm6: seq<byte> -> Option<nat>) {
    ghost predicate Valid() {
      forall ip: u32 :: lpm4(ip).Some? ==> lpm4(ip).value < 0x100_0000
    }
  }

  /** RTE_ETH_IS_IPV6_HDR */
  predicate HasIpv6Hdr(t: bv32) {
    t & PTYPE_L3_IPV6 != 0
  }

  /** The destination address of an IPv4 packet, as a host number. */
  function Ipv4Dst(f: seq<byte>): u32
    requires HasRoom(f)
  {
    Net32(f[30], f[31], f[32], f[33])
  }

  function Ipv6Dst(f: seq<byte>): seq<byte>
    requires HasRoom(f)
  {
    f[38..54]
  }

  /** The next hop cut to 16 bits, or the incoming port. */
  function HopOr(hop: Option<nat>, portid: byte): u16 {
    match hop case Some(h) => h % 0x1_0000 case None => portid
  }

  /** `lpm_get_dst_port_with_ipv4`: the IPv4 address is given. */
  function LpmDstPortWith(cfg: LpmConfig, p: Packet, dst: u32, portid: byte): u16
    requires HasRoom(p.data)
  {
    if HasIpv4Hdr(p.ptype) then HopOr(cfg.lpm4(dst), portid)
    else if HasIpv6Hdr(p.ptype) then HopOr(cfg.lpm6(Ipv6Dst(p.data)), portid)
    else portid
  }

  /** `lpm_get_dst_port`: one packet at a time. */
  function LpmDstPort(cfg: LpmConfig, p: Packet, portid: byte): u16
    requires HasRoom(p.data)
  {
    LpmDstPortWith(cfg, p, Ipv4Dst(p.data), portid)
  }

  // ----- the four-wide form

  /** `processx4_step1`: the raw destination fields of four packets, and their common IPv4 bit. */
  function RawAddresses(ps: seq<Packet>): (dip: seq<byte>)
    requires |ps| == 4 && HaveRoom(ps)
    ensures |dip| == 16
  {
    ps[0].data[30..34] + ps[1].data[30..34] + ps[2].data[30..34] + ps[3].data[30..34]
  }

  function Ipv4Flag(ps: seq<Packet>): bv32
    requires |ps| == 4
  {
    ps[0].ptype & PTYPE_L3_IPV4 & ps[1].ptype & ps[2].ptype & ps[3].ptype
  }

  /** The shuffle mask of `processx4_step2`, lowest byte first. */
  const BSWAP_MASK: seq<nat> := [3, 2, 1, 0, 7, 6, 5, 4, 11, 10, 9, 8, 15, 14, 13, 12]

  function ShuffleBytes(v: seq<byte>): (r: seq<byte>)
    requires |v| == 16
    ensures |r| == 16
  {
    seq(16, i requires 0 <= i < 16 => v[BSWAP_MASK[i]])
  }

  /** A 32-bit lane of a vector, on a little-endian host. */
  function Lane32(v: seq<byte>, i: nat): u32
    requires |v| == 16 && i < 4
  {
    Net32(v[4 * i + 3], v[4 * i + 2], v[4 * i + 1], v[4 * i])
  }

  /** One lane of the lookup: the next hop or the default, as 32 bits. */
  function WideHop(cfg: LpmConfig, ip: u32, portid: byte): nat {
    match cfg.lpm4(ip) case Some(h) => h case None => portid
  }

  /** One lane of the saturating pack from signed 32 to signed 16 bits, for non-negative lanes. */
  function Pack(h: nat): u16 {
    if h > 0x7fff then 0x7fff else h
  }

  /** `processx4_step2` */
  function WideDsts(cfg: LpmConfig, dip: seq<byte>, flag: bv32, portid: byte, ps: seq<Packet>): (r: seq<u16>)
    requires |dip| == 16 && |ps| == 4 && HaveRoom(ps)
    ensures |r| == 4
  {
    var ips := ShuffleBytes(dip);
    if flag != 0 then
      seq(4, i requires 0 <= i < 4 => Pack(WideHop(cfg, Lane32(ips, i), portid)))
    else
      seq(4, i requires 0 <= i < 4 => LpmDstPortWith(cfg, ps[i], Lane32(ips, i), portid))
  }

  /** `l3fwd_lpm_send_packets` up to the call of send_packets_multi. */
  function LpmWide(cfg: LpmConfig, ps: seq<Packet>, portid: byte): (r: seq<u16>)
    requires HaveRoom(ps)
    ensures |r| == |ps|
    decreases |ps|
  {
    if |ps| < FWDSTEP then LpmEach(cfg, ps, portid)
    else WideDsts(cfg, RawAddresses(ps[..4]), Ipv4Flag(ps[..4]), portid, ps[..4]) + LpmWide(cfg, ps[4..], portid)
  }

  function LpmEach(cfg: LpmConfig, ps: seq<Packet>, portid: byte): (r: seq<u16>)
    requires HaveRoom(ps)
    ensures |r| == |ps|
  {
    seq(|ps|, i requires 0 <= i < |ps| => LpmDstPort(cfg, ps[i], portid))
  }

  // ----- agreement

  /** A next hop that the saturating pack and the cut to 16 bits treat alike. */
  predicate Packs(h: nat) {
    h <= 0x7fff || h % 0x1_0000 == 0x7fff
  }

  lemma PacksIff(h: nat)
    ensures Pack(h) == h % 0x1_0000 <==> Packs(h)
  {
  }

  /** After the byte swap every lane is the address in host order. */
  lemma LanesAreAddresses(ps: seq<Packet>, i: nat)
    requires |ps| == 4 && HaveRoom(ps) && i < 4
    ensures Lane32(ShuffleBytes(RawAddresses(ps)), i) == Ipv4Dst(ps[i].data)
  {
    var dip := RawAddresses(ps);
    assert dip[4 * i] == ps[i].data[30] && dip[4 * i + 1] == ps[i].data[31]
           && dip[4 * i + 2] == ps[i].data[32] && dip[4 * i + 3] == ps[i].data[33];
    var r := ShuffleBytes(dip);
    assert r[4 * i] == dip[4 * i + 3] && r[4 * i + 1] == dip[4 * i + 2]
           && r[4 * i + 2] == dip[4 * i + 1] && r[4 * i + 3] == dip[4 * i];
  }

  /** The common bit says that all four packets are IPv4. */
  lemma FlagMeansAllIpv4(ps: seq<Packet>)
    requires |ps| == 4
    ensures Ipv4Flag(ps) != 0 <==> forall i :: 0 <= i < 4 ==> HasIpv4Hdr(ps[i].ptype)
  {
  }

  /** All installed next hops pack. */
  ghost predicate HopsPack(cfg: LpmConfig) {
    forall ip: u32 :: cfg.lpm4(ip).Some? ==> Packs(cfg.lpm4(ip).value)
  }

  lemma BlockAgrees(cfg: LpmConfig, ps: seq<Packet>, portid: byte, i: nat)
    requires cfg.Valid() && HopsPack(cfg) && |ps| == 4 && HaveRoom(ps) && i < 4
    ensures WideDsts(cfg, RawAddresses(ps), Ipv4Flag(ps), portid, ps)[i] == LpmDstPort(cfg, ps[i], portid)
  {
    LanesAreAddresses(ps, i);
    FlagMeansAllIpv4(ps);
    PacksIff(WideHop(cfg, Ipv4Dst(ps[i].data), portid));
  }

  lemma {:induction false} LpmWideIsEach(cfg: LpmConfig, ps: seq<Packet>, portid: byte)
    requires cfg.Valid() && HopsPack(cfg) && HaveRoom(ps)
    ensures LpmWide(cfg, ps, portid) == LpmEach(cfg, ps, portid)
    decreases |ps|
  {
    hide WideDsts, RawAddresses, Ipv4Flag, LpmDstPort, HopsPack;
    if |ps| >= FWDSTEP {
      LpmWideIsEach(cfg, ps[4..], portid);
      forall i | 0 <= i < 4
        ensures WideDsts(cfg, RawAddresses(ps[..4]), Ipv4Flag(ps[..4]), portid, ps[..4])[i]
                == LpmDstPort(cfg, ps[i], portid)
      {
        BlockAgrees(cfg, ps[..4], portid, i);
      }
    }
  }

  // ----- closed form of the four-wide result

  /** The IPv4 destination address in a frame. */
  function DstAddress4(f: seq<byte>): nat
    requires HasRoom(f)
  {
    0x100_0000 * (f[30] as int) + 0x1_0000 * (f[31] as int) + 0x100 * (f[32] as int) + f[33] as int
  }

  /** Packet i is in a whole block of four packets that all have the IPv4 bit. */
  predicate InIpv4Block(ps: seq<Packet>, i: nat)
    requires i < |ps|
  {
    var b := i - i % 4;
    b + 4 <= |ps| && forall k :: b <= k < b + 4 ==> ps[k].ptype & 0x10 != 0
  }

  /** What a packet gets: by its IPv4 bit, else by its IPv6 bit, the next hop of its destination address; in a
      block of IPv4 packets saturated to 15 bits, otherwise cut to 16; without a hop, or without either bit, the
      incoming port. */
  predicate LpmGoes(cfg: LpmConfig, p: Packet, packed: bool, portid: byte, d: nat)
    requires HasRoom(p.data)
  {
    if p.ptype & 0x10 != 0 then
      match cfg.lpm4(DstAddress4(p.data))
      case Some(h) => d == if packed then (if h <= 0x7fff then h else 0x7fff) else h % 0x1_0000
      case None => d == portid
    else if p.ptype & 0x40 != 0 then
      match cfg.lpm6(p.data[38..54])
      case Some(h) => d == h % 0x1_0000
      case None => d == portid
    else d == portid
  }

  /** Every entry of the result, for packets of any types and hops of any size. */
  lemma {:induction false} LpmPortsGo(cfg: LpmConfig, ps: seq<Packet>, portid: byte, i: nat)
    requires HaveRoom(ps) && i < |ps|
    ensures LpmGoes(cfg, ps[i], InIpv4Block(ps, i), portid, LpmWide(cfg, ps, portid)[i])
    decreases |ps|
  {
    hide WideDsts, RawAddresses, Ipv4Flag, LpmDstPort, LpmGoes;
    if |ps| < FWDSTEP {
      OneGoes(cfg, ps[i], portid);
    } else if i < FWDSTEP {
      BlockGoes(cfg, ps[..4], portid, i);
      assert InIpv4Block(ps, i) <==> forall k :: 0 <= k < 4 ==> ps[..4][k].ptype & 0x10 != 0;
    } else {
      LpmPortsGo(cfg, ps[4..], portid, i - 4);
      NextFour(ps, i);
    }
  }

  lemma NextFour(ps: seq<Packet>, i: nat)
    requires 4 <= i < |ps|
    ensures InIpv4Block(ps[4..], i - 4) == InIpv4Block(ps, i)
  {
    var b := i - i % 4;
    assert (i - 4) % 4 == i % 4;
    assert forall k :: b <= k < |ps| ==> ps[k] == ps[4..][k - 4];
    assert forall k :: b - 4 <= k < |ps| - 4 ==> ps[4..][k] == ps[k + 4];
  }

  lemma OneGoes(cfg: LpmConfig, p: Packet, portid: byte)
    requires HasRoom(p.data)
    ensures LpmGoes(cfg, p, false, portid, LpmDstPort(cfg, p, portid))
  {
  }

  lemma PackedGoes(cfg: LpmConfig, p: Packet, portid: byte)
    requires HasRoom(p.data) && p.ptype & 0x10 != 0
    ensures LpmGoes(cfg, p, true, portid, Pack(WideHop(cfg, Ipv4Dst(p.data), portid)))
  {
  }

  lemma BlockGoes(cfg: LpmConfig, ps: seq<Packet>, portid: byte, i: nat)
    requires |ps| == 4 && HaveRoom(ps) && i < 4
    ensures LpmGoes(cfg, ps[i], forall k :: 0 <= k < 4 ==> ps[k].ptype & 0x10 != 0, portid,
                    WideDsts(cfg, RawAddresses(ps), Ipv4Flag(ps), portid, ps)[i])
  {
    LanesAreAddresses(ps, i);
    FlagMeansAllIpv4(ps);
    OneGoes(cfg, ps[i], portid);
    if Ipv4Flag(ps) != 0 {
      PackedGoes(cfg, ps[i], portid);
    }
    hide ShuffleBytes, RawAddresses, Ipv4Flag, Lane32, Ipv4Dst, LpmGoes, Pack, WideHop, LpmDstPortWith;
  }

  // ----- exactly when the two forms agree

  /** Bursts of every length and mix classify alike. */
  ghost predicate LpmAlike(cfg: LpmConfig) {
    forall ps: seq<Packet>, portid: byte | HaveRoom(ps) :: LpmWide(cfg, ps, portid) == LpmEach(cfg, ps, portid)
  }

  /** An IPv4 packet to ip. */
  function PacketTo(ip: u32): (p: Packet)
    ensures HasRoom(p.data) && HasIpv4Hdr(p.ptype) && Ipv4Dst(p.data) == ip
  {
    Packet(StoreAt(ZeroData(), 30, Wire32(ip)), PTYPE_L3_IPV4)
  }

  lemma BadHopShows(cfg: LpmConfig, ip: u32)
    requires cfg.lpm4(ip).Some? && !Packs(cfg.lpm4(ip).value)
    ensures !LpmAlike(cfg)
  {
    var p := PacketTo(ip);
    var ps := [p, p, p, p];
    assert ps[..4] == ps;
    LanesAreAddresses(ps, 0);
    FlagMeansAllIpv4(ps);
    PacksIff(cfg.lpm4(ip).value);
    assert LpmWide(cfg, ps, 0)[0] == Pack(cfg.lpm4(ip).value);
    assert LpmEach(cfg, ps, 0)[0] == cfg.lpm4(ip).value % 0x1_0000;
    assert HaveRoom(ps);
  }

  /** The four-wide form equals one lookup per packet for all bursts exactly if every installed next hop
      survives the pack; hops below 2^15 do. */
  lemma LpmAlikeIff(cfg: LpmConfig)
    requires cfg.Valid()
    ensures LpmAlike(cfg) <==> HopsPack(cfg)
  {
    if HopsPack(cfg) {
      forall ps: seq<Packet>, portid: byte | HaveRoom(ps)
        ensures LpmWide(cfg, ps, portid) == LpmEach(cfg, ps, portid)
      {
        LpmWideIsEach(cfg, ps, portid);
      }
    } else {
      var ip: u32 :| cfg.lpm4(ip).Some? && !Packs(cfg.lpm4(ip).value);
      BadHopShows(cfg, ip);
    }
  }

  // ----- the loops

  lemma WideTurn(cfg: LpmConfig, ps: seq<Packet>, portid: byte, w: seq<u16>, j: nat)
    requires HaveRoom(ps) && j + 4 <= |ps| == |w|
    requires w[j..] == LpmWide(cfg, ps[j..], portid)
    ensures w[j..j + 4] == WideDsts(cfg, RawAddresses(ps[j..j + 4]), Ipv4Flag(ps[j..j + 4]), portid, ps[j..j + 4])
    ensures w[j + 4..] == LpmWide(cfg, ps[j + 4..], portid)
  {
    hide WideDsts, RawAddresses, Ipv4Flag;
    assert ps[j..][..4] == ps[j..j + 4] && ps[j..][4..] == ps[j + 4..];
    assert w[j..j + 4] == w[j..][..4] && w[j + 4..] == w[j..][4..];
  }

  lemma WideRest(cfg: LpmConfig, ps: seq<Packet>, portid: byte, w: seq<u16>, j: nat)
    requires HaveRoom(ps) && j <= |ps| == |w| < j + 4
    requires w[j..] == LpmWide(cfg, ps[j..], portid)
    ensures forall i :: j <= i < |ps| ==> w[i] == LpmDstPort(cfg, ps[i], portid)
  {
  }

  /** dip and flag hold what step 1 gathers of every block of four. */
  ghost predicate Gathered(dip: seq<seq<byte>>, flag: seq<bv32>, ps: seq<Packet>, k: nat)
    requires HaveRoom(ps)
  {
    && k <= |ps| && k <= 4 * |dip| && k <= 4 * |flag| && k % 4 == 0
    && forall b :: 0 <= b < k / 4 ==>
       dip[b] == RawAddresses(ps[4 * b..4 * b + 4]) && flag[b] == Ipv4Flag(ps[4 * b..4 * b + 4])
  }

  /** The first loop of `l3fwd_lpm_send_packets`. */
  method GatherFours(pkts: array<Mbuf>, k: nat, dip: array<seq<byte>>, flag: array<bv32>,
                     ghost ms: seq<Mbuf>, ghost ps: seq<Packet>)
    requires HaveRoom(ps) && Burst(pkts, ms) && Contents(ms, ps)
    requires k % 4 == 0 && k <= |ms| && k <= 4 * dip.Length && k <= 4 * flag.Length
    requires dip as object != pkts && flag as object != pkts && dip as object != flag
    modifies dip, flag
    ensures Gathered(dip[..], flag[..], ps, k)
  {
    hide RawAddresses, Ipv4Flag;
    var j := 0;
    while j != k
      invariant j <= k && j % 4 == 0
      invariant Gathered(dip[..], flag[..], ps, j)
      decreases k - j
    {
      var four := FourPackets(pkts, j, ms, ps);
      var b := j / FWDSTEP;
      assert 4 * b == j;
      dip[b] := RawAddresses(four);
      flag[b] := Ipv4Flag(four);
      j := j + FWDSTEP;
    }
  }

  /** The second loop. */
  method LookUpFours(cfg: LpmConfig, pkts: array<Mbuf>, k: nat, dip: array<seq<byte>>, flag: array<bv32>, portid: byte,
                     dstPort: array<u16>, ghost ms: seq<Mbuf>, ghost ps: seq<Packet>, ghost w: seq<u16>)
    requires HaveRoom(ps) && Burst(pkts, ms) && Contents(ms, ps) && Gathered(dip[..], flag[..], ps, k)
    requires k <= |ms| == |w| <= dstPort.Length && w == LpmWide(cfg, ps, portid)
    requires dstPort as object != pkts && dstPort as object != dip && dstPort as object != flag
    modifies dstPort
    ensures dstPort[..k] == w[..k] && w[k..] == LpmWide(cfg, ps[k..], portid)
  {
    hide LpmWide, WideDsts, RawAddresses, Ipv4Flag, Gathered;
    var j := 0;
    assert ps[0..] == ps && w[0..] == w;
    BlockGathered(dip[..], flag[..], ps, k, 0);
    while j != k
      invariant j <= k && j % 4 == 0
      invariant w[j..] == LpmWide(cfg, ps[j..], portid)
      invariant dstPort[..j] == w[..j]
      decreases k - j
    {
      BlockGathered(dip[..], flag[..], ps, k, j);
      var four := FourPackets(pkts, j, ms, ps);
      var r := WideDsts(cfg, dip[j / FWDSTEP], flag[j / FWDSTEP], portid, four);
      dstPort[j], dstPort[j + 1], dstPort[j + 2], dstPort[j + 3] := r[0], r[1], r[2], r[3];
      WideTurn(cfg, ps, portid, w, j);
      assert w[..j + 4] == w[..j] + w[j..j + 4];
      assert dstPort[..j + 4] == dstPort[..j] + r;
      j := j + FWDSTEP;
    }
  }

  lemma BlockGathered(dip: seq<seq<byte>>, flag: seq<bv32>, ps: seq<Packet>, k: nat, j: nat)
    requires HaveRoom(ps) && Gathered(dip, flag, ps, k)
    requires j % 4 == 0 && j <= k
    ensures k % 4 == 0 && k <= |ps|
    ensures j < k ==> && j + 4 <= k && j / 4 < |dip| && j / 4 < |flag|
                      && dip[j / 4] == RawAddresses(ps[j..j + 4]) && flag[j / 4] == Ipv4Flag(ps[j..j + 4])
  {
  }

  /** Classification in `l3fwd_lpm_send_packets`: the two loops, then a switch for the last packets. */
  method LpmClassifyBurst(cfg: LpmConfig, pkts: array<Mbuf>, nbRx: nat, portid: byte, dstPort: array<u16>,
                          ghost ms: seq<Mbuf>, ghost ps: seq<Packet>)
    requires HaveRoom(ps) && Burst(pkts, ms) && Contents(ms, ps) && nbRx == |ms| <= dstPort.Length
    requires dstPort as object != pkts
    modifies dstPort
    ensures dstPort[..nbRx] == LpmWide(cfg, ps, portid)
  {
    hide LpmWide, LpmDstPort, Gathered;
    ghost var w := LpmWide(cfg, ps, portid);
    var j := AlignFloor(nbRx);
    var dip := new seq<byte>[nbRx / FWDSTEP](i => []);
    var flag := new bv32[nbRx / FWDSTEP](i => 0);
    GatherFours(pkts, j, dip, flag, ms, ps);
    LookUpFours(cfg, pkts, j, dip, flag, portid, dstPort, ms, ps, w);
    WideRest(cfg, ps, portid, w, j);
    LpmClassifyTail(cfg, pkts, nbRx, j, portid, dstPort, ms, ps, w);
  }

  /** The switch with its fall-through. */
  method LpmClassifyTail(cfg: LpmConfig, pkts: array<Mbuf>, nbRx: nat, j0: nat, portid: byte, dstPort: array<u16>,
                         ghost ms: seq<Mbuf>, ghost ps: seq<Packet>, ghost w: seq<u16>)
    requires HaveRoom(ps) && Burst(pkts, ms) && Contents(ms, ps) && nbRx == |ms| == |w| <= dstPort.Length
    requires j0 == AlignFloor(nbRx) && dstPort as object != pkts && dstPort[..j0] == w[..j0]
    requires forall i :: j0 <= i < nbRx ==> w[i] == LpmDstPort(cfg, ps[i], portid)
    modifies dstPort
    ensures dstPort[..nbRx] == w
  {
    hide LpmDstPort, Contents;
    var j := j0;
    var left := nbRx % FWDSTEP;
    if left == 3 {
      LpmClassifyOne(cfg, pkts, j, portid, dstPort, ms, ps, w);
      j := j + 1;
    }
    if left >= 2 {
      LpmClassifyOne(cfg, pkts, j, portid, dstPort, ms, ps, w);
      j := j + 1;
    }
    if left >= 1 {
      LpmClassifyOne(cfg, pkts, j, portid, dstPort, ms, ps, w);
      j := j + 1;
    }
    assert w[..nbRx] == w;
  }

  method FourPackets(pkts: array<Mbuf>, j: nat, ghost ms: seq<Mbuf>, ghost ps: seq<Packet>) returns (four: seq<Packet>)
    requires Burst(pkts, ms) && Contents(ms, ps) && j + 4 <= |ms|
    ensures |four| == 4 && four == ps[j..j + 4]
  {
    assert forall i :: 0 <= i < |ms| ==> pkts[i] == pkts[..|ms|][i] == ms[i];
    four := [pkts[j].Content(), pkts[j + 1].Content(), pkts[j + 2].Content(), pkts[j + 3].Content()];
  }

  /** One case of the switch. */
  method LpmClassifyOne(cfg: LpmConfig, pkts: array<Mbuf>, j: nat, portid: byte, dstPort: array<u16>,
                        ghost ms: seq<Mbuf>, ghost ps: seq<Packet>, ghost w: seq<u16>)
    requires HaveRoom(ps) && Burst(pkts, ms) && Contents(ms, ps) && j < |ms| == |w| <= dstPort.Length
    requires dstPort as object != pkts && w[j] == LpmDstPort(cfg, ps[j], portid) && dstPort[..j] == w[..j]
    modifies dstPort
    ensures dstPort[..j + 1] == w[..j + 1]
  {
    assert pkts[j] == pkts[..|ms|][j] == ms[j];
    dstPort[j] := LpmDstPort(cfg, pkts[j].Content(), portid);
    assert dstPort[..j + 1] == dstPort[..j] + [dstPort[j]] && w[..j + 1] == w[..j] + [w[j]];
  }
}
