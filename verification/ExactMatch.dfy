/** Exact-match classification: packet types, masked keys, the flow table lookup, and the eight-wide form. */
module ExactMatch {
  import opened Bytes
  import opened Frames
  import opened Limits

  const EM_HASH_LOOKUP_COUNT := 8

  // ----- packet types, with the bit patterns of DPDK's rte_mbuf_ptype.h

  const PTYPE_UNKNOWN: bv32 := 0
  const PTYPE_L3_IPV4: bv32 := 0x10
  const PTYPE_L3_IPV4_EXT: bv32 := 0x30
  const PTYPE_L3_IPV6: bv32 := 0x40
  const PTYPE_L3_IPV6_EXT_UNKNOWN: bv32 := 0xe0
  const PTYPE_L3_MASK: bv32 := 0xf0
  const PTYPE_L4_TCP: bv32 := 0x100
  const PTYPE_L4_UDP: bv32 := 0x200

  const IPPROTO_TCP: byte := 6
  const IPPROTO_UDP: byte := 17

  predicate TcpOrUdp(t: bv32) {
    t & (PTYPE_L4_TCP | PTYPE_L4_UDP) != 0
  }

  /** The type selects the IPv4 lookup: an IPv4 header without options and a TCP or UDP bit. */
  predicate IsV4(t: bv32) {
    TcpOrUdp(t) && t & PTYPE_L3_MASK == PTYPE_L3_IPV4
  }

  predicate IsV6(t: bv32) {
    TcpOrUdp(t) && t & PTYPE_L3_MASK == PTYPE_L3_IPV6
  }

  /** RTE_ETH_IS_IPV4_HDR */
  predicate HasIpv4Hdr(t: bv32) {
    t & PTYPE_L3_IPV4 != 0
  }

  /** `em_parse_ptype` */
  function EmParsePtype(f: seq<byte>): bv32
    requires HasRoom(f)
  {
    var etherType := Net16(f[12], f[13]);
    if etherType == 0x0800 then
      if f[VERSION_IHL] % 16 * 4 == IPV4_HDR_LEN then
        if f[23] == IPPROTO_TCP then PTYPE_L3_IPV4 | PTYPE_L4_TCP
        else if f[23] == IPPROTO_UDP then PTYPE_L3_IPV4 | PTYPE_L4_UDP
        else PTYPE_L3_IPV4
      else PTYPE_L3_IPV4_EXT
    else if etherType == 0x86dd then
      if f[20] == IPPROTO_TCP then PTYPE_L3_IPV6 | PTYPE_L4_TCP
      else if f[20] == IPPROTO_UDP then PTYPE_L3_IPV6 | PTYPE_L4_UDP
      else PTYPE_L3_IPV6_EXT_UNKNOWN
    else PTYPE_UNKNOWN
  }

  // ----- masked key loads

  /** Bitwise and of the low w bits. */
  function AndBits(x: nat, y: nat, w: nat): (r: nat)
    ensures r <= x
  {
    if w == 0 then 0
    else 2 * AndBits(x / 2, y / 2, w - 1) + if x % 2 == 1 && y % 2 == 1 then 1 else 0
  }

  function AndByte(x: byte, y: byte): byte {
    AndBits(x, y, 8)
  }

  function Pow2(n: nat): (p: nat)
    ensures p >= 1
  {
    if n == 0 then 1 else 2 * Pow2(n - 1)
  }

  lemma {:induction false} AndWithOnes(x: nat, w: nat)
    requires x < Pow2(w)
    ensures AndBits(x, Pow2(w) - 1, w) == x
  {
    if w > 0 {
      AndWithOnes(x / 2, w - 1);
      assert (Pow2(w) - 1) / 2 == Pow2(w - 1) - 1;
    }
  }

  lemma {:induction false} AndWithZero(x: nat, w: nat)
    ensures AndBits(x, 0, w) == 0
  {
    if w > 0 {
      AndWithZero(x / 2, w - 1);
    }
  }

  lemma AndByteMask(x: byte)
    ensures AndByte(x, 0xff) == x && AndByte(x, 0) == 0
  {
    assert Pow2(8) == 0x100;
    AndWithOnes(x, 8);
    AndWithZero(x, 8);
  }

  /** A 128-bit constant given as four 32-bit lanes, in memory order. */
  function Lanes32(a: u32, b: u32, c: u32, d: u32): (r: seq<byte>)
    ensures |r| == 16
  {
    Lane(a) + Lane(b) + Lane(c) + Lane(d)
  }

  function Lane(x: u32): (r: seq<byte>)
    ensures |r| == 4
  {
    [x % 0x100, x / 0x100 % 0x100, x / 0x1_0000 % 0x100, x / 0x100_0000]
  }

  const ALL_32_BITS: u32 := 0xffff_ffff
  const MASK0 := Lanes32(0x0000_ff00, ALL_32_BITS, ALL_32_BITS, ALL_32_BITS)
  const MASK1 := Lanes32(0x00ff_0000, ALL_32_BITS, ALL_32_BITS, ALL_32_BITS)
  const MASK2 := Lanes32(ALL_32_BITS, ALL_32_BITS, 0, 0)

  /** `em_mask_key` on the 16 bytes at off. */
  function EmMaskKey(f: seq<byte>, off: nat, mask: seq<byte>): (r: seq<byte>)
    requires off + 16 <= |f| && |mask| == 16
    ensures |r| == 16
  {
    seq(16, i requires 0 <= i < 16 => AndByte(f[off + i], mask[i]))
  }

  /** Under a mask whose bytes are all ones or all zeros. */
  lemma MaskedBytes(f: seq<byte>, off: nat, mask: seq<byte>)
    requires off + 16 <= |f| && |mask| == 16
    ensures forall i :: 0 <= i < 16 && mask[i] == 0xff ==> EmMaskKey(f, off, mask)[i] == f[off + i]
    ensures forall i :: 0 <= i < 16 && mask[i] == 0 ==> EmMaskKey(f, off, mask)[i] == 0
  {
    forall i | 0 <= i < 16
      ensures mask[i] == 0xff ==> EmMaskKey(f, off, mask)[i] == f[off + i]
      ensures mask[i] == 0 ==> EmMaskKey(f, off, mask)[i] == 0
    {
      AndByteMask(f[off + i]);
    }
  }

  /** `get_ipv4_5tuple`: 16 bytes from the TTL field on. */
  function Ipv4Key(f: seq<byte>): (r: seq<byte>)
    requires HasRoom(f)
  {
    EmMaskKey(f, TTL, MASK0)
  }

  /** `get_ipv6_5tuple`: 48 bytes from the payload length field on. */
  function Ipv6Key(f: seq<byte>): (r: seq<byte>)
    requires HasRoom(f)
  {
    EmMaskKey(f, 18, MASK1) + f[34..50] + EmMaskKey(f, 50, MASK2)
  }

  // ----- what the keys mean

  datatype Tuple4 = Tuple4(ipDst: u32, ipSrc: u32, portDst: u16, portSrc: u16, proto: byte)

  datatype Tuple6 = Tuple6(ipDst: seq<byte>, ipSrc: seq<byte>, portDst: u16, portSrc: u16, proto: byte)

  /** `convert_ipv4_5tuple` */
  function ConvertIpv4(k: Tuple4): (r: seq<byte>)
    ensures |r| == 16
  {
    [0, k.proto, 0, 0] + Wire32(k.ipSrc) + Wire32(k.ipDst) + Wire16(k.portSrc) + Wire16(k.portDst)
  }

  /** `convert_ipv6_5tuple` */
  function ConvertIpv6(k: Tuple6): (r: seq<byte>)
    requires |k.ipDst| == |k.ipSrc| == 16
    ensures |r| == 48
  {
    [0, 0, k.proto, 0] + k.ipSrc + k.ipDst + Wire16(k.portSrc) + Wire16(k.portDst) + [0, 0, 0, 0, 0, 0, 0, 0]
  }

  /** The 5-tuple of a packet with an option-free IPv4 header. */
  function TupleOfIpv4(f: seq<byte>): Tuple4
    requires HasRoom(f) && f[VERSION_IHL] % 16 == 5
  {
    var l4 := ETHER_HDR_LEN + 4 * (f[VERSION_IHL] % 16);
    Tuple4(Net32(f[30], f[31], f[32], f[33]), Net32(f[26], f[27], f[28], f[29]),
           Net16(f[l4 + 2], f[l4 + 3]), Net16(f[l4], f[l4 + 1]), f[23])
  }

  /** The 5-tuple of a packet whose transport header follows the fixed IPv6 header. */
  function TupleOfIpv6(f: seq<byte>): Tuple6
    requires HasRoom(f)
  {
    Tuple6(f[38..54], f[22..38], Net16(f[56], f[57]), Net16(f[54], f[55]), f[20])
  }

  lemma WireOfNet16(a: byte, b: byte)
    ensures Wire16(Net16(a, b)) == [a, b]
  {
  }

  lemma WireOfNet32(a: byte, b: byte, c: byte, d: byte)
    ensures Wire32(Net32(a, b, c, d)) == [a, b, c, d]
  {
    WireOfNet16(a, b);
    WireOfNet16(c, d);
    var x := Net32(a, b, c, d);
    assert x / 0x1_0000 == Net16(a, b) && x % 0x1_0000 == Net16(c, d);
  }

  lemma Ipv4KeyBytes(f: seq<byte>)
    requires HasRoom(f)
    ensures Ipv4Key(f) == [0, f[23], 0, 0] + f[26..38]
  {
    assert Lane(0x0000_ff00) == [0, 0xff, 0, 0] && Lane(ALL_32_BITS) == [0xff, 0xff, 0xff, 0xff];
    MaskedBytes(f, TTL, MASK0);
  }

  lemma Ipv6KeyBytes(f: seq<byte>)
    requires HasRoom(f)
    ensures Ipv6Key(f) == [0, 0, f[20], 0] + f[22..58] + [0, 0, 0, 0, 0, 0, 0, 0]
  {
    assert Lane(0x00ff_0000) == [0, 0, 0xff, 0] && Lane(ALL_32_BITS) == [0xff, 0xff, 0xff, 0xff];
    assert Lane(0) == [0, 0, 0, 0];
    MaskedBytes(f, 18, MASK1);
    MaskedBytes(f, 50, MASK2);
    assert EmMaskKey(f, 18, MASK1) == [0, 0, f[20], 0] + f[22..34];
    assert EmMaskKey(f, 50, MASK2) == f[50..58] + [0, 0, 0, 0, 0, 0, 0, 0];
  }

  lemma ConvertIpv4Injective(k: Tuple4, k': Tuple4)
    requires ConvertIpv4(k) == ConvertIpv4(k')
    ensures k == k'
  {
    var c, c' := ConvertIpv4(k), ConvertIpv4(k');
    assert c[1] == k.proto && c'[1] == k'.proto;
    assert c[4..8] == Wire32(k.ipSrc) && c'[4..8] == Wire32(k'.ipSrc);
    assert c[8..12] == Wire32(k.ipDst) && c'[8..12] == Wire32(k'.ipDst);
    assert c[12..14] == Wire16(k.portSrc) && c'[12..14] == Wire16(k'.portSrc);
    assert c[14..16] == Wire16(k.portDst) && c'[14..16] == Wire16(k'.portDst);
  }

  /** The 5-tuple at the offsets of an option-free header. */
  function FixedTuple4(f: seq<byte>): Tuple4
    requires HasRoom(f)
  {
    Tuple4(Net32(f[30], f[31], f[32], f[33]), Net32(f[26], f[27], f[28], f[29]),
           Net16(f[36], f[37]), Net16(f[34], f[35]), f[23])
  }

  /** The masked load of any packet is the key of the tuple at these offsets. */
  lemma Ipv4KeyOfFixed(f: seq<byte>)
    requires HasRoom(f)
    ensures Ipv4Key(f) == ConvertIpv4(FixedTuple4(f))
  {
    Ipv4KeyBytes(f);
    WireOfNet32(f[30], f[31], f[32], f[33]);
    WireOfNet32(f[26], f[27], f[28], f[29]);
    WireOfNet16(f[36], f[37]);
    WireOfNet16(f[34], f[35]);
  }

  /** The masked load equals the converted tuple exactly if the packet has that 5-tuple. */
  lemma Ipv4KeyIsTuple(f: seq<byte>, k: Tuple4)
    requires HasRoom(f) && f[VERSION_IHL] % 16 == 5
    ensures Ipv4Key(f) == ConvertIpv4(k) <==> TupleOfIpv4(f) == k
  {
    Ipv4KeyOfFixed(f);
    if Ipv4Key(f) == ConvertIpv4(k) {
      ConvertIpv4Injective(TupleOfIpv4(f), k);
    }
  }

  lemma ConvertIpv6Injective(k: Tuple6, k': Tuple6)
    requires |k.ipDst| == |k.ipSrc| == |k'.ipDst| == |k'.ipSrc| == 16
    requires ConvertIpv6(k) == ConvertIpv6(k')
    ensures k == k'
  {
    var c, c' := ConvertIpv6(k), ConvertIpv6(k');
    assert c[2] == k.proto && c'[2] == k'.proto;
    assert c[4..20] == k.ipSrc && c'[4..20] == k'.ipSrc;
    assert c[20..36] == k.ipDst && c'[20..36] == k'.ipDst;
    assert c[36..38] == Wire16(k.portSrc) && c'[36..38] == Wire16(k'.portSrc);
    assert c[38..40] == Wire16(k.portDst) && c'[38..40] == Wire16(k'.portDst);
  }

  lemma Ipv6KeyIsTuple(f: seq<byte>, k: Tuple6)
    requires HasRoom(f) && |k.ipDst| == |k.ipSrc| == 16
    ensures Ipv6Key(f) == ConvertIpv6(k) <==> TupleOfIpv6(f) == k
  {
    Ipv6KeyBytes(f);
    WireOfNet16(f[56], f[57]);
    WireOfNet16(f[54], f[55]);
    assert f[22..58] == f[22..38] + f[38..54] + [f[54], f[55]] + [f[56], f[57]];
    assert Ipv6Key(f) == ConvertIpv6(TupleOfIpv6(f));
    if Ipv6Key(f) == ConvertIpv6(k) {
      ConvertIpv6Injective(TupleOfIpv6(f), k);
    }
  }

  /** The lookup key does not see the MAC rewrite, the TTL or the checksum. */
  lemma RewriteKeepsIpv4Key(f: seq<byte>, ve: seq<byte>)
    requires HasRoom(f) && |ve| == 16
    ensures Ipv4Key(HopUpdate(FastMac(f, ve))) == Ipv4Key(f)
  {
    var g := HopUpdate(FastMac(f, ve));
    Ipv4KeyBytes(f);
    Ipv4KeyBytes(g);
    assert g[26..38] == f[26..38];
  }

  // ----- lookup

  /** rte_hash as a map from keys to slots, and the output port stored for each slot. */
  datatype FlowTable = FlowTable(slots: map<seq<byte>, nat>, outIf: seq<byte>) {
    ghost predicate Valid() {
      forall k :: k in slots ==> slots[k] < |outIf|
    }

    /** rte_hash_lookup: a slot, or a negative error. */
    function Lookup(key: seq<byte>): int {
      if key in slots then slots[key] else -2
    }
  }

  /** a and b have a bit in common. */
  predicate Meets(a: bv32, b: bv32) {
    a & b != 0
  }

  function PortMask(p: nat): bv32
    requires p < MAX_PORTS
  {
    (1 as bv32) << p
  }

  /** The test `enabled_port_mask & 1 << p`. */
  predicate PortBit(mask: bv32, p: nat)
    requires p < MAX_PORTS
  {
    Meets(mask, PortMask(p))
  }

  /** A single bit names one port. */
  lemma OnePort(p: nat, q: nat)
    requires p < MAX_PORTS && q < MAX_PORTS
    ensures PortBit(PortMask(q), p) <==> p == q
    ensures PortMask(q) == (1 as bv32) << q
  {
    SingleBit(p, q);
  }

  /** The union of two masks names the ports of either, and the empty mask none. */
  lemma MaskUnion(a: bv32, b: bv32, p: nat)
    requires p < MAX_PORTS
    ensures PortBit(a | b, p) <==> PortBit(a, p) || PortBit(b, p)
    ensures !PortBit(0, p)
  {
    hide PortMask, Meets;
    UnionMeets(a, b, PortMask(p));
    NothingMeets(PortMask(p));
  }

  lemma NothingMeets(m: bv32)
    ensures !Meets(0, m)
  {
  }

  lemma UnionMeets(a: bv32, b: bv32, m: bv32)
    ensures Meets(a | b, m) <==> Meets(a, m) || Meets(b, m)
  {
    Distributes(a, b, m);
    OrIsZero(a & m, b & m);
  }

  lemma Distributes(a: bv32, b: bv32, m: bv32)
    ensures (a | b) & m == (a & m) | (b & m)
  {
  }

  lemma OrIsZero(x: bv32, y: bv32)
    ensures x | y == 0 <==> x == 0 && y == 0
  {
  }

  lemma SingleBit(p: nat, q: nat)
    requires p < MAX_PORTS && q < MAX_PORTS
    ensures ((1 as bv32) << q) & ((1 as bv32) << p) != 0 <==> p == q
  {
    ShiftedBits(p as bv6, q as bv6);
  }

  lemma ShiftedBits(p: bv6, q: bv6)
    requires p < 32 && q < 32
    ensures ((1 as bv32) << q) & ((1 as bv32) << p) != 0 <==> p == q
  {
  }

  /** The tables and addresses that forwarding reads. */
  datatype Config = Config(flows4: FlowTable, flows6: FlowTable, portMask: bv32,
                           destEthAddr: seq<seq<byte>>, portsEthAddr: seq<seq<byte>>)
  {
    ghost predicate Valid() {
      && flows4.Valid() && flows6.Valid()
      && |destEthAddr| == |portsEthAddr| == MAX_PORTS
      && (forall p :: 0 <= p < MAX_PORTS ==> |destEthAddr[p]| == 8 && |portsEthAddr[p]| == 6)
    }

    predicate Enabled(p: nat)
      requires p < MAX_PORTS
    {
      PortBit(portMask, p)
    }
  }

  /** What classification reads of a packet. */
  datatype Packet = Packet(data: seq<byte>, ptype: bv32)

  predicate HaveRoom(ps: seq<Packet>) {
    forall i :: 0 <= i < |ps| ==> HasRoom(ps[i].data)
  }

  /** `em_get_ipv4_dst_port` and `em_get_ipv6_dst_port`: the port of the flow, or the incoming port. */
  function FlowPort(t: FlowTable, key: seq<byte>, portid: byte): byte
    requires t.Valid()
  {
    var ret := t.Lookup(key);
    if ret < 0 then portid else t.outIf[ret]
  }

  /** A port that does not exist or is not enabled is replaced by the incoming one. */
  function UsablePort(cfg: Config, hop: byte, portid: byte): (r: byte)
    ensures portid < MAX_PORTS ==> r < MAX_PORTS
    ensures r == portid || (r < MAX_PORTS && cfg.Enabled(r))
    ensures r == hop <==> hop == portid || (hop < MAX_PORTS && cfg.Enabled(hop))
  {
    if hop >= MAX_PORTS || !cfg.Enabled(hop) then portid else hop
  }

  function Ipv4Port(cfg: Config, f: seq<byte>, portid: byte): (r: byte)
    requires cfg.Valid() && HasRoom(f)
    ensures portid < MAX_PORTS ==> r < MAX_PORTS
  {
    UsablePort(cfg, FlowPort(cfg.flows4, Ipv4Key(f), portid), portid)
  }

  function Ipv6Port(cfg: Config, f: seq<byte>, portid: byte): (r: byte)
    requires cfg.Valid() && HasRoom(f)
    ensures portid < MAX_PORTS ==> r < MAX_PORTS
  {
    UsablePort(cfg, FlowPort(cfg.flows6, Ipv6Key(f), portid), portid)
  }

  /** `em_get_dst_port`: one packet at a time. */
  function EmDstPort(cfg: Config, p: Packet, portid: byte): (r: byte)
    requires cfg.Valid() && HasRoom(p.data)
    ensures portid < MAX_PORTS ==> r < MAX_PORTS
  {
    if IsV4(p.ptype) then Ipv4Port(cfg, p.data, portid)
    else if IsV6(p.ptype) then Ipv6Port(cfg, p.data, portid)
    else portid
  }

  // ----- the eight-wide form

  function Types(ps: seq<Packet>): (ts: seq<bv32>)
    ensures |ts| == |ps|
  {
    seq(|ps|, i requires 0 <= i < |ps| => ps[i].ptype)
  }

  /** The types of a block, and-ed together. */
  function AndTypes(ts: seq<bv32>): (t: bv32)
    ensures forall i :: 0 <= i < |ts| ==> t & ts[i] == t
  {
    if ts == [] then PTYPE_L3_MASK | PTYPE_L4_TCP | PTYPE_L4_UDP
    else AndTypes(ts[..|ts| - 1]) & ts[|ts| - 1]
  }

  /** The body of the eight-wide loop: bulk lookups if the and-ed type says so. */
  function WidePort(cfg: Config, t: bv32, p: Packet, portid: byte): (r: byte)
    requires cfg.Valid() && HasRoom(p.data)
    ensures portid < MAX_PORTS ==> r < MAX_PORTS
  {
    if IsV4(t) then Ipv4Port(cfg, p.data, portid)
    else if IsV6(t) then Ipv6Port(cfg, p.data, portid)
    else EmDstPort(cfg, p, portid)
  }

  /** `l3fwd_em_send_packets` up to the call of send_packets_multi: blocks of eight, then the rest. */
  function ClassifyWide(cfg: Config, ps: seq<Packet>, portid: byte): (r: seq<byte>)
    requires cfg.Valid() && HaveRoom(ps)
    ensures |r| == |ps|
    ensures portid < MAX_PORTS ==> forall i :: 0 <= i < |r| ==> r[i] < MAX_PORTS
    decreases |ps|
  {
    if |ps| < EM_HASH_LOOKUP_COUNT then ClassifyEach(cfg, ps, portid)
    else
      var t := AndTypes(Types(ps)[..8]);
      seq(8, i requires 0 <= i < 8 => WidePort(cfg, t, ps[i], portid)) + ClassifyWide(cfg, ps[8..], portid)
  }

  /** The sequential form. */
  function ClassifyEach(cfg: Config, ps: seq<Packet>, portid: byte): (r: seq<byte>)
    requires cfg.Valid() && HaveRoom(ps)
    ensures |r| == |ps|
    ensures portid < MAX_PORTS ==> forall i :: 0 <= i < |r| ==> r[i] < MAX_PORTS
  {
    seq(|ps|, i requires 0 <= i < |ps| => EmDstPort(cfg, ps[i], portid))
  }

  /** A block whose and-ed type selects a bulk lookup holds only packets of that type. */
  predicate UniformBlock(ts: seq<bv32>) {
    && (IsV4(AndTypes(ts)) ==> forall i :: 0 <= i < |ts| ==> IsV4(ts[i]))
    && (IsV6(AndTypes(ts)) ==> forall i :: 0 <= i < |ts| ==> IsV6(ts[i]))
  }

  predicate UniformBlocks(ts: seq<bv32>)
    decreases |ts|
  {
    |ts| >= EM_HASH_LOOKUP_COUNT ==> UniformBlock(ts[..8]) && UniformBlocks(ts[8..])
  }

  /** Bulk classification equals one call per packet on bursts made of uniform blocks. */
  lemma {:induction false} ClassifyWideIsEach(cfg: Config, ps: seq<Packet>, portid: byte)
    requires cfg.Valid() && HaveRoom(ps) && UniformBlocks(Types(ps))
    ensures ClassifyWide(cfg, ps, portid) == ClassifyEach(cfg, ps, portid)
    decreases |ps|
  {
    if |ps| >= EM_HASH_LOOKUP_COUNT {
      assert Types(ps)[8..] == Types(ps[8..]);
      ClassifyWideIsEach(cfg, ps[8..], portid);
      var t := AndTypes(Types(ps)[..8]);
      forall i | 0 <= i < 8
        ensures WidePort(cfg, t, ps[i], portid) == EmDstPort(cfg, ps[i], portid)
      {
        assert Types(ps)[..8][i] == ps[i].ptype;
        V4NotV6(ps[i].ptype);
      }
    }
  }

  lemma V4NotV6(t: bv32)
    ensures !(IsV4(t) && IsV6(t))
  {
  }

  /** Every packet went through `em_parse_ptype`. */
  predicate Parsed(ps: seq<Packet>) {
    forall i :: 0 <= i < |ps| ==> HasRoom(ps[i].data) && ps[i].ptype == EmParsePtype(ps[i].data)
  }

  /** The parser gives an L4 bit only together with the plain IPv4 or IPv6 type. */
  lemma ParsedTypeInBlock(t: bv32, f: seq<byte>)
    requires HasRoom(f)
    requires t & EmParsePtype(f) == t
    ensures IsV4(t) ==> IsV4(EmParsePtype(f))
    ensures IsV6(t) ==> IsV6(EmParsePtype(f))
  {
  }

  lemma {:induction false} ParsedBlocksAreUniform(ps: seq<Packet>)
    requires Parsed(ps)
    ensures UniformBlocks(Types(ps))
    decreases |ps|
  {
    if |ps| >= EM_HASH_LOOKUP_COUNT {
      var ts := Types(ps);
      assert ts[8..] == Types(ps[8..]);
      ParsedBlocksAreUniform(ps[8..]);
      forall i | 0 <= i < 8
        ensures IsV4(AndTypes(ts[..8])) ==> IsV4(ts[..8][i])
        ensures IsV6(AndTypes(ts[..8])) ==> IsV6(ts[..8][i])
      {
        ParsedTypeInBlock(AndTypes(ts[..8]), ps[i].data);
      }
    }
  }

  /** For every burst typed by the parser the eight-wide form fills in the sequential result. */
  lemma ParsedBurstsClassifyAlike(cfg: Config, ps: seq<Packet>, portid: byte)
    requires cfg.Valid() && Parsed(ps)
    ensures ClassifyWide(cfg, ps, portid) == ClassifyEach(cfg, ps, portid)
  {
    ParsedBlocksAreUniform(ps);
    ClassifyWideIsEach(cfg, ps, portid);
  }

  // ----- closed forms

  /** Ethernet type of a frame. */
  function EtherType(f: seq<byte>): nat
    requires HasRoom(f)
  {
    0x100 * (f[12] as int) + f[13] as int
  }

  /** An option-free IPv4 frame with TCP or UDP. */
  predicate Flow4(f: seq<byte>)
    requires HasRoom(f)
  {
    EtherType(f) == 0x0800 && f[14] % 16 == 5 && (f[23] == 6 || f[23] == 17)
  }

  /** An IPv6 frame whose fixed header is followed by TCP or UDP. */
  predicate Flow6(f: seq<byte>)
    requires HasRoom(f)
  {
    EtherType(f) == 0x86dd && (f[20] == 6 || f[20] == 17)
  }

  /** The bits that the parser sets, one by one. */
  lemma ParserSays(f: seq<byte>)
    requires HasRoom(f)
    ensures var t := EmParsePtype(f);
            && (t & 0x10 != 0 <==> EtherType(f) == 0x0800)
            && (t & 0x40 != 0 <==> EtherType(f) == 0x86dd)
            && (t & 0xf0 == 0x10 <==> EtherType(f) == 0x0800 && f[14] % 16 == 5)
            && (t & 0xf0 == 0x40 <==> Flow6(f))
            && (t & 0x100 != 0 <==> (Flow4(f) && f[23] == 6) || (Flow6(f) && f[20] == 6))
            && (t & 0x200 != 0 <==> (Flow4(f) && f[23] == 17) || (Flow6(f) && f[20] == 17))
            && t & !0x3f0 == 0
  {
  }

  /** d is the port of the table entry with the IPv4 5-tuple at the fixed offsets of f, if there is one and that
      port is usable, and the incoming port otherwise. */
  predicate Goes4(cfg: Config, f: seq<byte>, portid: byte, d: nat)
    requires cfg.Valid() && HasRoom(f)
  {
    var key := ConvertIpv4(FixedTuple4(f));
    if key in cfg.flows4.slots && cfg.flows4.outIf[cfg.flows4.slots[key]] < MAX_PORTS
       && cfg.Enabled(cfg.flows4.outIf[cfg.flows4.slots[key]])
    then d == cfg.flows4.outIf[cfg.flows4.slots[key]]
    else d == portid
  }

  /** The same for the IPv6 5-tuple. */
  predicate Goes6(cfg: Config, f: seq<byte>, portid: byte, d: nat)
    requires cfg.Valid() && HasRoom(f)
  {
    var key := ConvertIpv6(TupleOfIpv6(f));
    if key in cfg.flows6.slots && cfg.flows6.outIf[cfg.flows6.slots[key]] < MAX_PORTS
       && cfg.Enabled(cfg.flows6.outIf[cfg.flows6.slots[key]])
    then d == cfg.flows6.outIf[cfg.flows6.slots[key]]
    else d == portid
  }

  lemma LookupsGo(cfg: Config, f: seq<byte>, portid: byte)
    requires cfg.Valid() && HasRoom(f)
    ensures Goes4(cfg, f, portid, Ipv4Port(cfg, f, portid)) && Goes6(cfg, f, portid, Ipv6Port(cfg, f, portid))
  {
    Ipv4KeyOfFixed(f);
    Ipv6KeyIsTuple(f, TupleOfIpv6(f));
    hide Ipv4Key, Ipv6Key, ConvertIpv4, ConvertIpv6, PortBit;
  }

  /** The type that decides about packet i of a burst: what all eight of its block share, if that selects a bulk
      lookup, and its own type otherwise. */
  function DecidingType(ts: seq<bv32>, i: nat): bv32
    requires i < |ts|
  {
    var b := i - i % EM_HASH_LOOKUP_COUNT;
    if b + EM_HASH_LOOKUP_COUNT > |ts| then ts[i]
    else
      var t := AndTypes(ts[b..b + EM_HASH_LOOKUP_COUNT]);
      if IsV4(t) || IsV6(t) then t else ts[i]
  }

  predicate GoesBy(cfg: Config, u: bv32, f: seq<byte>, portid: byte, d: nat)
    requires cfg.Valid() && HasRoom(f)
  {
    if IsV4(u) then Goes4(cfg, f, portid, d) else if IsV6(u) then Goes6(cfg, f, portid, d) else d == portid
  }

  /** Every entry of the eight-wide result, for packets of any types. */
  lemma {:induction false} WidePortsGo(cfg: Config, ps: seq<Packet>, portid: byte, i: nat)
    requires cfg.Valid() && HaveRoom(ps) && i < |ps|
    ensures GoesBy(cfg, DecidingType(Types(ps), i), ps[i].data, portid, ClassifyWide(cfg, ps, portid)[i])
    decreases |ps|
  {
    hide Goes4, Goes6, Ipv4Port, Ipv6Port, IsV4, IsV6, AndTypes;
    if |ps| >= EM_HASH_LOOKUP_COUNT && i >= EM_HASH_LOOKUP_COUNT {
      WidePortsGo(cfg, ps[8..], portid, i - 8);
      NextBlock(Types(ps), i);
      assert Types(ps)[8..] == Types(ps[8..]);
    } else {
      LookupsGo(cfg, ps[i].data, portid);
    }
  }

  lemma NextBlock(ts: seq<bv32>, i: nat)
    requires 8 <= i < |ts|
    ensures DecidingType(ts, i) == DecidingType(ts[8..], i - 8)
  {
    hide AndTypes, IsV4, IsV6;
    var b := i - i % 8;
    assert (i - 8) % 8 == i % 8;
    if b + 8 <= |ts| {
      assert ts[8..][b - 8..b] == ts[b..b + 8];
    }
  }

  /** t has no bit that u does not have. */
  predicate Within(t: bv32, u: bv32) {
    t & u == t
  }

  lemma WithinSelf(t: bv32)
    ensures Within(t, t)
  {
  }

  lemma BlockWithin(ts: seq<bv32>, i: nat)
    requires i < |ts|
    ensures Within(AndTypes(ts), ts[i])
  {
  }

  lemma DecidingTypeWithin(ts: seq<bv32>, i: nat)
    requires i < |ts|
    ensures Within(DecidingType(ts, i), ts[i])
    ensures DecidingType(ts, i) == ts[i] || IsV4(DecidingType(ts, i)) || IsV6(DecidingType(ts, i))
  {
    hide IsV4, IsV6, AndTypes, Within;
    WithinSelf(ts[i]);
    var b := i - i % 8;
    if b + 8 <= |ts| {
      BlockWithin(ts[b..b + 8], i - b);
      assert ts[b..b + 8][i - b] == ts[i];
    }
  }

  lemma NoBitsNoLookup(t: bv32, u: bv32)
    requires Within(t, u) && u & 0x300 == 0
    ensures !IsV4(t) && !IsV6(t)
  {
  }

  /** A packet whose type has neither the TCP nor the UDP bit goes back to where it came from. */
  lemma NoLookupStays(cfg: Config, ps: seq<Packet>, portid: byte, i: nat)
    requires cfg.Valid() && HaveRoom(ps) && i < |ps| && ps[i].ptype & 0x300 == 0
    ensures ClassifyWide(cfg, ps, portid)[i] == portid
  {
    hide Goes4, Goes6, DecidingType, ClassifyWide, Within, IsV4, IsV6;
    WidePortsGo(cfg, ps, portid, i);
    DecidingTypeWithin(Types(ps), i);
    NoBitsNoLookup(DecidingType(Types(ps), i), ps[i].ptype);
  }

  /** A burst typed by the parser, frame by frame: TCP and UDP flows go where the tables say, all other frames
      to the incoming port. */
  lemma ParsedPortsGo(cfg: Config, ps: seq<Packet>, portid: byte, i: nat)
    requires cfg.Valid() && Parsed(ps) && i < |ps|
    ensures var f, d := ps[i].data, ClassifyWide(cfg, ps, portid)[i];
            if Flow4(f) then Goes4(cfg, f, portid, d)
            else if Flow6(f) then Goes6(cfg, f, portid, d)
            else d == portid
  {
    hide Goes4, Goes6, DecidingType, ClassifyWide, EmParsePtype, Flow4, Flow6, IsV4, IsV6;
    WidePortsGo(cfg, ps, portid, i);
    ParsedDecides(Types(ps), i, ps[i].data);
    ParsedFlows(ps[i].data);
  }

  /** The deciding type selects the lookup that a parsed packet's own type calls for. */
  lemma ParsedDecides(ts: seq<bv32>, i: nat, f: seq<byte>)
    requires i < |ts| && HasRoom(f) && ts[i] == EmParsePtype(f)
    ensures IsV4(DecidingType(ts, i)) <==> IsV4(ts[i])
    ensures IsV6(DecidingType(ts, i)) <==> IsV6(ts[i])
  {
    hide EmParsePtype, IsV4, IsV6, DecidingType, Within;
    DecidingTypeWithin(ts, i);
    ParsedWithin(DecidingType(ts, i), f);
  }

  lemma ParsedWithin(t: bv32, f: seq<byte>)
    requires HasRoom(f) && Within(t, EmParsePtype(f))
    ensures var u := EmParsePtype(f);
            t == u || IsV4(t) || IsV6(t) ==> (IsV4(t) <==> IsV4(u)) && (IsV6(t) <==> IsV6(u))
  {
    ParsedTypeInBlock(t, f);
    OtherTypeNotInBlock(t, EmParsePtype(f));
    V4NotV6(EmParsePtype(f));
    hide EmParsePtype, IsV4, IsV6;
  }

  /** The lookups that parsed types call for. */
  lemma ParsedFlows(f: seq<byte>)
    requires HasRoom(f)
    ensures IsV4(EmParsePtype(f)) <==> Flow4(f)
    ensures IsV6(EmParsePtype(f)) <==> Flow6(f)
  {
    ParserSays(f);
    hide EmParsePtype;
  }

  // ----- other types: exactly when the two forms agree

  /** Packets with these types classify alike whatever they contain and whatever the tables hold. */
  ghost predicate ClassifyAlike(ts: seq<bv32>) {
    forall cfg: Config, ps: seq<Packet>, portid: byte | cfg.Valid() && HaveRoom(ps) && Types(ps) == ts ::
      ClassifyWide(cfg, ps, portid) == ClassifyEach(cfg, ps, portid)
  }

  /** A table that sends the all-zero packet to port 1. */
  function ProbeConfig(): (cfg: Config)
    ensures cfg.Valid()
  {
    Config(FlowTable(map[Ipv4Key(ZeroData()) := 0], [1]), FlowTable(map[Ipv6Key(ZeroData()) := 0], [1]), 0xffff_ffff,
           seq(MAX_PORTS, i => seq(8, j => 0)), seq(MAX_PORTS, i => seq(6, j => 0)))
  }

  function ZeroData(): (f: seq<byte>)
    ensures HasRoom(f)
  {
    seq(66, i => 0)
  }

  function ProbePackets(ts: seq<bv32>): (ps: seq<Packet>)
    ensures |ps| == |ts| && HaveRoom(ps) && Types(ps) == ts
  {
    var z := ZeroData();
    seq(|ts|, i requires 0 <= i < |ts| => Packet(z, ts[i]))
  }

  /** In a block selected for one bulk lookup no packet has exactly the other type. */
  lemma OtherTypeNotInBlock(t: bv32, u: bv32)
    requires t & u == t
    ensures IsV4(t) ==> !IsV6(u)
    ensures IsV6(t) ==> !IsV4(u)
  {
  }

  lemma {:induction false} ProbeDetects(ts: seq<bv32>)
    requires var ps := ProbePackets(ts);
             ClassifyWide(ProbeConfig(), ps, 0) == ClassifyEach(ProbeConfig(), ps, 0)
    ensures UniformBlocks(ts)
    decreases |ts|
  {
    hide Ipv4Port, Ipv6Port, EmDstPort, IsV4, IsV6, ProbeConfig;
    if |ts| >= EM_HASH_LOOKUP_COUNT {
      var cfg, ps := ProbeConfig(), ProbePackets(ts);
      var t := AndTypes(ts[..8]);
      assert ps[8..] == ProbePackets(ts[8..]);
      var w, e := ClassifyWide(cfg, ps, 0), ClassifyEach(cfg, ps, 0);
      assert w[8..] == ClassifyWide(cfg, ps[8..], 0) && e[8..] == ClassifyEach(cfg, ps[8..], 0);
      ProbeDetects(ts[8..]);
      forall i | 0 <= i < 8
        ensures IsV4(t) ==> IsV4(ts[..8][i])
        ensures IsV6(t) ==> IsV6(ts[..8][i])
      {
        assert w[i] == WidePort(cfg, t, ps[i], 0) && e[i] == EmDstPort(cfg, ps[i], 0);
        ProbeOne(t, ts[i]);
      }
    }
  }

  /** Equal ports on the probe, for a type u in a block with and-ed type t. */
  lemma ProbeOne(t: bv32, u: bv32)
    requires t & u == t
    requires WidePort(ProbeConfig(), t, Packet(ZeroData(), u), 0) == EmDstPort(ProbeConfig(), Packet(ZeroData(), u), 0)
    ensures IsV4(t) ==> IsV4(u)
    ensures IsV6(t) ==> IsV6(u)
  {
  }

  /** The eight-wide form is right for all tables and packet contents exactly if its blocks are uniform. */
  lemma ClassifyAlikeIffUniform(ts: seq<bv32>)
    ensures ClassifyAlike(ts) <==> UniformBlocks(ts)
  {
    if UniformBlocks(ts) {
      forall cfg: Config, ps: seq<Packet>, portid: byte | cfg.Valid() && HaveRoom(ps) && Types(ps) == ts
        ensures ClassifyWide(cfg, ps, portid) == ClassifyEach(cfg, ps, portid)
      {
        ClassifyWideIsEach(cfg, ps, portid);
      }
    }
    if ClassifyAlike(ts) {
      ProbeDetects(ts);
    }
  }

  /** A burst for which it is wrong, possible where the NIC types packets: one option-carrying TCP packet
      among plain ones. */
  lemma ExtensionHeaderBreaksBlock()
    ensures !ClassifyAlike(seq(8, i => if i == 3 then PTYPE_L3_IPV4_EXT | PTYPE_L4_TCP
                                         else PTYPE_L3_IPV4 | PTYPE_L4_TCP))
  {
    var a, x := PTYPE_L3_IPV4 | PTYPE_L4_TCP, PTYPE_L3_IPV4_EXT | PTYPE_L4_TCP;
    var ts := seq(8, i => if i == 3 then x else a);
    ClassifyAlikeIffUniform(ts);
    assert ts[..8] == ts == [a, a, a, x, a, a, a, a];
    AndOfBlock(ts, a);
    assert IsV4(a) && !IsV4(ts[3]);
  }

  lemma {:induction false} AndOfBlock(ts: seq<bv32>, t: bv32)
    requires forall i :: 0 <= i < |ts| ==> t & ts[i] == t
    requires t & (PTYPE_L3_MASK | PTYPE_L4_TCP | PTYPE_L4_UDP) == t
    ensures t & AndTypes(ts) == t
  {
    if ts != [] {
      AndOfBlock(ts[..|ts| - 1], t);
    }
  }
}
