/** The fast path (classify, rewrite, group, dispatch) and the simple path of one burst, on packets that are
    rewritten in place, and the theorem that the first refines the second. */
module Forwarding {
  import opened Limits
  import opened Bytes
  import opened Frames
  import opened ExactMatch
  import opened PortGrouping
  import TxSpec
  import opened Dispatch

  /** A packet buffer. */
  class Mbuf {
    var data: seq<byte>
    var packetType: bv32
    const pktLen: nat

    constructor (data: seq<byte>, packetType: bv32, pktLen: nat)
      ensures this.data == data && this.packetType == packetType && this.pktLen == pktLen
    {
      this.data, this.packetType, this.pktLen := data, packetType, pktLen;
    }

    function Content(): Packet
      reads this
    {
      Packet(data, packetType)
    }
  }

  // ----- what happens to one packet

  /** `val_eth[port]` */
  function PortEth(cfg: Config, port: u16): (ve: seq<byte>)
    requires cfg.Valid() && port < MAX_PORTS
    ensures |ve| == 16
  {
    ValEth(cfg.destEthAddr[port], cfg.portsEthAddr[port])
  }

  /** `rfc1812_process` on bytes f and destination dst. */
  function Rfc1812(t: bv32, f: seq<byte>, dst: u16): (r: (seq<byte>, u16))
    requires HasRoom(f)
    ensures |r.0| == |f|
  {
    if HasIpv4Hdr(t) then (HopUpdate(f), if BadHeader(f) then BAD_PORT else dst) else (f, dst)
  }

  /** Bytes and destination after `processx4_step3` or `process_packet`. */
  function FastOut(cfg: Config, p: Packet, dst: u16): (r: (seq<byte>, u16))
    requires cfg.Valid() && HasRoom(p.data) && dst < MAX_PORTS
    ensures |r.0| == |p.data|
  {
    Rfc1812(p.ptype, FastMac(p.data, PortEth(cfg, dst)), dst)
  }

  /** A header that passes: version 4, at least five words long, and a total length of at least 20, read in
      network order. */
  predicate GoodIpv4(f: seq<byte>)
    requires HasRoom(f)
  {
    0x45 <= f[14] <= 0x4f && 0x100 * (f[16] as int) + f[17] as int >= 20
  }

  /** What forwarding to port dst makes of the bytes of p, position by position. */
  predicate Rewritten(cfg: Config, p: Packet, dst: u16, g: seq<byte>)
    requires cfg.Valid() && HasRoom(p.data) && dst < MAX_PORTS
  {
    var f := p.data;
    && |g| == |f|
    && (forall i :: 0 <= i < 6 ==> g[i] == cfg.destEthAddr[dst][i])
    && (forall i :: 6 <= i < 12 ==> g[i] == cfg.portsEthAddr[dst][i - 6])
    && (forall i :: 12 <= i < |f| && i !in {22, 24, 25} ==> g[i] == f[i])
    && if p.ptype & 0x10 != 0 then
         && g[22] == (if f[22] == 0 then 0xff else f[22] - 1)
         && g[24] as int + 0x100 * (g[25] as int) == (f[24] as int + 0x100 * (f[25] as int) + 1) % 0x1_0000
       else
         g[22] == f[22] && g[24] == f[24] && g[25] == f[25]
  }

  /** The fast path rewrites every packet of every type in this way, and drops exactly those with the IPv4 bit
      and no good header. */
  lemma FastOutIs(cfg: Config, p: Packet, dst: u16)
    requires cfg.Valid() && HasRoom(p.data) && dst < MAX_PORTS
    ensures Rewritten(cfg, p, dst, FastOut(cfg, p, dst).0)
    ensures FastOut(cfg, p, dst).1 == if p.ptype & 0x10 != 0 && !GoodIpv4(p.data) then 0xffff else dst
  {
    var mid := FastMac(p.data, PortEth(cfg, dst));
    RewriteKeepsHeader(p.data, PortEth(cfg, dst));
    BadHeaderIs(p.data);
    BadHeaderIs(mid);
    MacBytes(cfg, p.data, dst);
    assert FastOut(cfg, p, dst) == Rfc1812(p.ptype, mid, dst);
    hide FastOut, Rfc1812, FastMac, BadHeader, GoodIpv4, PortEth, Rewritten;
    Rfc1812Is(p.ptype, mid, dst);
    BothRewrites(cfg, p, dst, mid, Rfc1812(p.ptype, mid, dst).0);
  }

  /** The bytes of g are those of f with a new TTL and checksum if the type has the IPv4 bit. */
  predicate Hopped(t: bv32, f: seq<byte>, g: seq<byte>)
    requires HasRoom(f)
  {
    && |g| == |f|
    && (forall i :: 0 <= i < |f| && i !in {22, 24, 25} ==> g[i] == f[i])
    && if t & 0x10 != 0 then
         && g[22] == (if f[22] == 0 then 0xff else f[22] - 1)
         && g[24] as int + 0x100 * (g[25] as int) == (f[24] as int + 0x100 * (f[25] as int) + 1) % 0x1_0000
       else
         g[22] == f[22] && g[24] == f[24] && g[25] == f[25]
  }

  /** The header check and hop update on bytes whose addresses are already rewritten. */
  lemma Rfc1812Is(t: bv32, f: seq<byte>, dst: u16)
    requires HasRoom(f)
    ensures Hopped(t, f, Rfc1812(t, f, dst).0)
    ensures Rfc1812(t, f, dst).1 == if t & 0x10 != 0 && BadHeader(f) then 0xffff else dst
  {
    HopBytes(f);
    hide HopUpdate, BadHeader;
  }

  lemma BothRewrites(cfg: Config, p: Packet, dst: u16, mid: seq<byte>, g: seq<byte>)
    requires cfg.Valid() && HasRoom(p.data) && dst < MAX_PORTS && |mid| == |p.data| && Hopped(p.ptype, mid, g)
    requires forall i :: 0 <= i < 6 ==> mid[i] == cfg.destEthAddr[dst][i]
    requires forall i :: 6 <= i < 12 ==> mid[i] == cfg.portsEthAddr[dst][i - 6]
    requires forall i :: 12 <= i < |mid| ==> mid[i] == p.data[i]
    ensures Rewritten(cfg, p, dst, g)
  {
  }

  lemma BadHeaderIs(f: seq<byte>)
    requires HasRoom(f)
    ensures BadHeader(f) <==> !GoodIpv4(f)
  {
    VersionTest(f[14]);
    LengthTest(f[16], f[17]);
    hide Sub8, Load16;
  }

  lemma VersionTest(v: byte)
    ensures Sub8(v, IPV4_MIN_VER_IHL) > IPV4_MAX_VER_IHL_DIFF <==> !(0x45 <= v <= 0x4f)
  {
  }

  lemma LengthTest(a: byte, b: byte)
    ensures var t := Load16(a, b);
            t % 0x100 == 0 && t < IPV4_HDR_LEN * 0x100 <==> 0x100 * (a as int) + b as int < 20
  {
    assert Load16(a, b) % 0x100 == a;
  }

  lemma MacBytes(cfg: Config, f: seq<byte>, dst: u16)
    requires cfg.Valid() && HasRoom(f) && dst < MAX_PORTS
    ensures var g := FastMac(f, PortEth(cfg, dst));
            && (forall i :: 0 <= i < 6 ==> g[i] == cfg.destEthAddr[dst][i])
            && (forall i :: 6 <= i < 12 ==> g[i] == cfg.portsEthAddr[dst][i - 6])
            && (forall i :: 12 <= i < |f| ==> g[i] == f[i])
  {
  }

  lemma HopBytes(f: seq<byte>)
    requires HasRoom(f)
    ensures |HopUpdate(f)| == |f|
    ensures var g := HopUpdate(f);
            && g[22] == (if f[22] == 0 then 0xff else f[22] - 1)
            && g[24] as int + 0x100 * (g[25] as int) == (f[24] as int + 0x100 * (f[25] as int) + 1) % 0x1_0000
            && (forall i :: 0 <= i < |f| && i !in {22, 24, 25} ==> g[i] == f[i])
  {
    var c := Add16(Load16(f[24], f[25]), 1);
    OneLess(f[22]);
    OneMore(f[24], f[25]);
    hide Add16, Sub8, Load16;
    assert HopUpdate(f)[24] == c % 0x100 && HopUpdate(f)[25] == c / 0x100;
  }

  lemma OneLess(t: byte)
    ensures Sub8(t, 1) == if t == 0 then 0xff else t - 1
  {
  }

  lemma OneMore(a: byte, b: byte)
    ensures var c := Add16(Load16(a, b), 1);
            c % 0x100 + 0x100 * (c / 0x100) == (a as int + 0x100 * (b as int) + 1) % 0x1_0000
  {
  }

  /** Drop a packet, or send it on a port with new bytes. */
  datatype Verdict = Drop | Send(port: nat, data: seq<byte>)

  /** What the fast path does with a packet that was classified to dst. */
  function FastVerdict(cfg: Config, p: Packet, dst: u16): (v: Verdict)
    requires cfg.Valid() && HasRoom(p.data) && dst < MAX_PORTS
    ensures v.Send? ==> v.port < MAX_PORTS
  {
    var (f, d) := FastOut(cfg, p, dst);
    if d == BAD_PORT then Drop else Send(d, f)
  }

  /** `l3fwd_em_simple_forward` */
  function SimpleVerdict(cfg: Config, p: Packet, pktLen: nat, portid: byte): Verdict
    requires cfg.Valid() && HasRoom(p.data) && portid < MAX_PORTS
  {
    if IsV4(p.ptype) then
      if IsValidIpv4Pkt(p.data, pktLen) < 0 then Drop
      else
        var dst := Ipv4Port(cfg, p.data, portid);
        Send(dst, SimpleMac(HopUpdate(p.data), cfg.destEthAddr[dst], cfg.portsEthAddr[dst]))
    else if IsV6(p.ptype) then
      var dst := Ipv6Port(cfg, p.data, portid);
      Send(dst, SimpleMac(p.data, cfg.destEthAddr[dst], cfg.portsEthAddr[dst]))
    else Drop
  }

  /** The packets that both paths treat alike: the simple path also checks the link length of an IPv4 packet,
      and it frees what is neither IPv4 nor IPv6 with TCP or UDP, which the fast path sends back to the
      incoming port unless its IPv4 header is bad. */
  predicate Compatible(p: Packet, pktLen: nat)
    requires HasRoom(p.data)
  {
    if IsV4(p.ptype) then pktLen >= IPV4_HDR_LEN || BadHeader(p.data)
    else if IsV6(p.ptype) then true
    else HasIpv4Hdr(p.ptype) && BadHeader(p.data)
  }

  lemma TypeBits(t: bv32)
    ensures IsV4(t) ==> HasIpv4Hdr(t)
    ensures IsV6(t) ==> !HasIpv4Hdr(t) && !IsV4(t)
  {
  }

  /** A port that the fast path may have found: the sequential one, or any port if the packet's own type calls
      for no lookup, because the eight-wide form looks up whole blocks. */
  predicate Found(cfg: Config, p: Packet, portid: byte, dst: u16)
    requires cfg.Valid() && HasRoom(p.data)
  {
    dst < MAX_PORTS && (dst == EmDstPort(cfg, p, portid) || !(IsV4(p.ptype) || IsV6(p.ptype)))
  }

  /** One packet: same verdict, port and bytes included, exactly for compatible packets. The others are dropped
      by the simple path and sent by the fast one. */
  lemma VerdictsAgreeIffCompatible(cfg: Config, p: Packet, pktLen: nat, portid: byte, dst: u16)
    requires cfg.Valid() && HasRoom(p.data) && portid < MAX_PORTS && Found(cfg, p, portid, dst)
    ensures FastVerdict(cfg, p, dst) == SimpleVerdict(cfg, p, pktLen, portid) <==> Compatible(p, pktLen)
    ensures !Compatible(p, pktLen) ==> FastVerdict(cfg, p, dst).Send? && SimpleVerdict(cfg, p, pktLen, portid).Drop?
  {
    var dest, src := cfg.destEthAddr[dst], cfg.portsEthAddr[dst];
    var ve := ValEth(dest, src);
    TypeBits(p.ptype);
    RewriteKeepsHeader(p.data, ve);
    HeaderChecksAgree(p.data, pktLen);
    MacAndHopCommute(p.data, ve);
    MacRewritesAgree(p.data, dest, src);
    MacRewritesAgree(HopUpdate(p.data), dest, src);
  }

  // ----- one burst

  /** Final destinations of a burst classified to ds. */
  function FinalDsts(cfg: Config, ps: seq<Packet>, ds: seq<u16>): (r: seq<u16>)
    requires cfg.Valid() && HaveRoom(ps) && |ds| == |ps| && InRange(ds)
    ensures |r| == |ps| && Routable(r)
  {
    seq(|ps|, i requires 0 <= i < |ps| => FastOut(cfg, ps[i], ds[i]).1)
  }

  predicate InRange(ds: seq<u16>) {
    forall i :: 0 <= i < |ds| ==> ds[i] < MAX_PORTS
  }

  /** Destination of a verdict. */
  function VerdictDst(v: Verdict): (d: nat) {
    match v case Drop => BAD_PORT as nat case Send(p, _) => p
  }

  /** Destinations of the simple path. */
  function SimpleDsts(cfg: Config, ps: seq<Packet>, lens: seq<nat>, portid: byte): (r: seq<u16>)
    requires cfg.Valid() && HaveRoom(ps) && |lens| == |ps| && portid < MAX_PORTS
    ensures |r| == |ps| && Routable(r)
  {
    seq(|ps|, i requires 0 <= i < |ps| =>
      VerdictDst(SimpleVerdict(cfg, ps[i], lens[i], portid)))
  }

  lemma FastVerdictDst(cfg: Config, p: Packet, dst: u16)
    requires cfg.Valid() && HasRoom(p.data) && dst < MAX_PORTS
    ensures VerdictDst(FastVerdict(cfg, p, dst)) == FastOut(cfg, p, dst).1
  {
  }

  /** Every entry of the eight-wide result is the sequential port, or its packet has no lookup of its own. */
  lemma {:induction false} WidePortsFound(cfg: Config, ps: seq<Packet>, portid: byte, i: nat)
    requires cfg.Valid() && HaveRoom(ps) && i < |ps| && portid < MAX_PORTS
    ensures Found(cfg, ps[i], portid, ClassifyWide(cfg, ps, portid)[i])
    decreases |ps|
  {
    hide EmDstPort, Ipv4Port, Ipv6Port, IsV4, IsV6;
    if |ps| >= EM_HASH_LOOKUP_COUNT {
      if i < EM_HASH_LOOKUP_COUNT {
        assert Types(ps)[..8][i] == ps[i].ptype;
        WidePortFound(cfg, AndTypes(Types(ps)[..8]), ps[i], portid);
      } else {
        WidePortsFound(cfg, ps[8..], portid, i - 8);
      }
    }
  }

  lemma WidePortFound(cfg: Config, t: bv32, p: Packet, portid: byte)
    requires cfg.Valid() && HasRoom(p.data) && portid < MAX_PORTS && t & p.ptype == t
    ensures Found(cfg, p, portid, WidePort(cfg, t, p, portid))
  {
    OtherTypeNotInBlock(t, p.ptype);
    V4NotV6(t);
    hide Ipv4Port, Ipv6Port, IsV4, IsV6;
  }

  predicate AllCompatible(ps: seq<Packet>, lens: seq<nat>)
    requires HaveRoom(ps) && |lens| == |ps|
  {
    forall i :: 0 <= i < |ps| ==> Compatible(ps[i], lens[i])
  }

  /** The fast path of a burst, as classified by the eight-wide form, gives packet i the verdict of the simple
      path. */
  predicate SameVerdict(cfg: Config, ps: seq<Packet>, lens: seq<nat>, portid: byte, i: nat)
    requires cfg.Valid() && HaveRoom(ps) && portid < MAX_PORTS && |lens| == |ps| && i < |ps|
  {
    FastVerdict(cfg, ps[i], ClassifyWide(cfg, ps, portid)[i]) == SimpleVerdict(cfg, ps[i], lens[i], portid)
  }

  /** One packet of a burst. */
  lemma SameVerdictIff(cfg: Config, ps: seq<Packet>, lens: seq<nat>, portid: byte, i: nat)
    requires cfg.Valid() && HaveRoom(ps) && portid < MAX_PORTS && |lens| == |ps| && i < |ps|
    ensures SameVerdict(cfg, ps, lens, portid, i) <==> Compatible(ps[i], lens[i])
    ensures var d, e := FinalDsts(cfg, ps, ClassifyWide(cfg, ps, portid)), SimpleDsts(cfg, ps, lens, portid);
            if Compatible(ps[i], lens[i]) then d[i] == e[i] else d[i] != BAD_PORT && e[i] == BAD_PORT
  {
    hide FastOut, SimpleVerdict, FastVerdict, Compatible, Found, ClassifyWide;
    var dst := ClassifyWide(cfg, ps, portid)[i];
    WidePortsFound(cfg, ps, portid, i);
    VerdictsAgreeIffCompatible(cfg, ps[i], lens[i], portid, dst);
    FastVerdictDst(cfg, ps[i], dst);
  }

  /** A burst gets the same verdicts from both paths exactly if all its packets are compatible, whatever their
      types; then the destinations are the same too. */
  lemma SameVerdictsIff(cfg: Config, ps: seq<Packet>, lens: seq<nat>, portid: byte)
    requires cfg.Valid() && HaveRoom(ps) && portid < MAX_PORTS && |lens| == |ps|
    ensures (forall i :: 0 <= i < |ps| ==> SameVerdict(cfg, ps, lens, portid, i)) <==> AllCompatible(ps, lens)
    ensures AllCompatible(ps, lens) ==>
              FinalDsts(cfg, ps, ClassifyWide(cfg, ps, portid)) == SimpleDsts(cfg, ps, lens, portid)
  {
    hide SameVerdict, FinalDsts, SimpleDsts, ClassifyWide, Compatible;
    forall i | 0 <= i < |ps|
      ensures SameVerdict(cfg, ps, lens, portid, i) <==> Compatible(ps[i], lens[i])
      ensures Compatible(ps[i], lens[i]) ==>
        FinalDsts(cfg, ps, ClassifyWide(cfg, ps, portid))[i] == SimpleDsts(cfg, ps, lens, portid)[i]
    {
      SameVerdictIff(cfg, ps, lens, portid, i);
    }
  }

  /** The fast path refines the simple path on every burst of compatible packets, for any two behaviours of the
      NIC: for every port the same packets are offered or buffered in the same order, the same packets are
      dropped, and every other packet ends with the same bytes. */
  lemma FastPathRefinesSimplePath<T>(nic: TxSpec.Nic<T>, nic': TxSpec.Nic<T>, s: TxSpec.Tx<T>, cfg: Config,
                                     ps: seq<Packet>, lens: seq<nat>, ms: seq<T>, portid: byte, p: nat, x: T)
    requires TxSpec.Valid(s) && cfg.Valid() && HaveRoom(ps) && portid < MAX_PORTS && p < MAX_PORTS
    requires |lens| == |ps| == |ms| <= MAX_PKT_BURST && AllCompatible(ps, lens)
    ensures var fast := DispatchGroups(nic, s, FinalDsts(cfg, ps, ClassifyWide(cfg, ps, portid)), ms);
            var simple := DispatchEach(nic', s, SimpleDsts(cfg, ps, lens, portid), ms);
            && TxSpec.Line(fast, p) == TxSpec.Line(simple, p)
            && TxSpec.Dropped(fast, x) == TxSpec.Dropped(simple, x)
    ensures forall i :: 0 <= i < |ps| ==> SameVerdict(cfg, ps, lens, portid, i)
  {
    hide SameVerdict, FinalDsts, SimpleDsts, ClassifyWide, DispatchGroups, DispatchEach, AllCompatible;
    SameVerdictsIff(cfg, ps, lens, portid);
    GroupsRefineEach(nic, nic', s, FinalDsts(cfg, ps, ClassifyWide(cfg, ps, portid)), ms, p, x);
  }

  /** Bursts of option-free IPv4 packets with TCP or UDP and a link length of at least 20 qualify. */
  lemma Ipv4BurstsQualify(ps: seq<Packet>, lens: seq<nat>)
    requires HaveRoom(ps) && |lens| == |ps|
    requires forall i :: 0 <= i < |ps| ==> IsV4(ps[i].ptype) && lens[i] >= IPV4_HDR_LEN
    ensures AllCompatible(ps, lens)
  {
  }

  /** Plain TCP packets around one with IPv4 options: the eight-wide form classifies such a block otherwise than
      the sequential one for some tables, and still the burst is forwarded alike if the header of the odd packet
      is bad. */
  lemma MixedBlockQualifies(ps: seq<Packet>, lens: seq<nat>)
    requires HaveRoom(ps) && |lens| == |ps| == 8
    requires forall i :: 0 <= i < 8 ==> lens[i] >= IPV4_HDR_LEN
    requires forall i :: 0 <= i < 8 ==>
      ps[i].ptype == if i == 3 then PTYPE_L3_IPV4_EXT | PTYPE_L4_TCP else PTYPE_L3_IPV4 | PTYPE_L4_TCP
    requires BadHeader(ps[3].data)
    ensures AllCompatible(ps, lens) && !UniformBlocks(Types(ps))
  {
    var ts := Types(ps);
    ExtensionHeaderBreaksBlock();
    assert ts == seq(8, i => if i == 3 then PTYPE_L3_IPV4_EXT | PTYPE_L4_TCP else PTYPE_L3_IPV4 | PTYPE_L4_TCP);
    ClassifyAlikeIffUniform(ts);
  }

  /** A burst typed by the parser, in terms of its frames: every frame with Ethernet type 0x0800 is rewritten with
      a new TTL and checksum, every other one with new addresses only, and exactly the IPv4 frames with a bad
      header are dropped. */
  lemma ParsedFramesForwarded(cfg: Config, ps: seq<Packet>, portid: byte, i: nat)
    requires cfg.Valid() && Parsed(ps) && portid < MAX_PORTS && i < |ps|
    ensures var f, ds := ps[i].data, ClassifyWide(cfg, ps, portid);
            && FrameRewritten(cfg, f, ds[i], FastOut(cfg, ps[i], ds[i]).0)
            && FinalDsts(cfg, ps, ds)[i] == if EtherType(f) == 0x0800 && !GoodIpv4(f) then 0xffff else ds[i]
  {
    hide FastOut, ClassifyWide, EmParsePtype, GoodIpv4, Rewritten, FrameRewritten;
    var dst := ClassifyWide(cfg, ps, portid)[i];
    FastOutIs(cfg, ps[i], dst);
    ParserSays(ps[i].data);
    ParsedRewrite(cfg, ps[i], dst, FastOut(cfg, ps[i], dst).0);
  }

  /** The bytes of a forwarded frame, by its Ethernet type. */
  predicate FrameRewritten(cfg: Config, f: seq<byte>, dst: u16, g: seq<byte>)
    requires cfg.Valid() && HasRoom(f) && dst < MAX_PORTS
  {
    && |g| == |f|
    && (forall i :: 0 <= i < 6 ==> g[i] == cfg.destEthAddr[dst][i])
    && (forall i :: 6 <= i < 12 ==> g[i] == cfg.portsEthAddr[dst][i - 6])
    && if EtherType(f) == 0x0800 then
         && g[22] == (if f[22] == 0 then 0xff else f[22] - 1)
         && g[24] as int + 0x100 * (g[25] as int) == (f[24] as int + 0x100 * (f[25] as int) + 1) % 0x1_0000
         && (forall i :: 12 <= i < |f| && i !in {22, 24, 25} ==> g[i] == f[i])
       else
         forall i :: 12 <= i < |f| ==> g[i] == f[i]
  }

  lemma ParsedRewrite(cfg: Config, p: Packet, dst: u16, g: seq<byte>)
    requires cfg.Valid() && HasRoom(p.data) && dst < MAX_PORTS && p.ptype == EmParsePtype(p.data)
    requires Rewritten(cfg, p, dst, g)
    ensures FrameRewritten(cfg, p.data, dst, g)
  {
    ParserSays(p.data);
    hide EmParsePtype;
  }

  // ----- the two paths as events of a run

  function FastEvent<T>(cfg: Config, ps: seq<Packet>, ms: seq<T>, portid: byte): (e: Event<T>)
    requires cfg.Valid() && HaveRoom(ps) && portid < MAX_PORTS && |ms| == |ps| <= MAX_PKT_BURST
    ensures ValidEvent(e)
  {
    ByGroups(FinalDsts(cfg, ps, ClassifyWide(cfg, ps, portid)), ms)
  }

  function SimpleEvent<T>(cfg: Config, ps: seq<Packet>, lens: seq<nat>, ms: seq<T>, portid: byte): (e: Event<T>)
    requires cfg.Valid() && HaveRoom(ps) && portid < MAX_PORTS && |lens| == |ms| == |ps|
    ensures ValidEvent(e)
  {
    OneByOne(SimpleDsts(cfg, ps, lens, portid), ms)
  }
}
