/** Ethernet and IP header handling: header checks, the TTL and checksum update, and the MAC rewrite, as byte
    operations on the data room of a packet. */
module Frames {
  import opened Bytes

  // Offsets from the start of the Ethernet header.
  const ETHER_HDR_LEN := 14
  const VERSION_IHL := ETHER_HDR_LEN
  const TOTAL_LENGTH := ETHER_HDR_LEN + 2
  const TTL := ETHER_HDR_LEN + 8
  const HDR_CHECKSUM := ETHER_HDR_LEN + 10

  const IPV4_HDR_LEN := 20
  const IPV4_MIN_VER_IHL := 0x45
  const IPV4_MAX_VER_IHL_DIFF := 0x4f - 0x45

  /** The data room reaches past every byte the code reads: the IPv6 key ends at offset 66. */
  predicate HasRoom(f: seq<byte>) {
    |f| >= 66
  }

  // ----- the two header checks

  /** The test of `rfc1812_process` on a little-endian host. */
  predicate BadHeader(f: seq<byte>)
    requires HasRoom(f)
  {
    var ihl := Sub8(f[VERSION_IHL], IPV4_MIN_VER_IHL);
    var totalLength := Load16(f[TOTAL_LENGTH], f[TOTAL_LENGTH + 1]);
    ihl > IPV4_MAX_VER_IHL_DIFF || (totalLength % 0x100 == 0 && totalLength < IPV4_HDR_LEN * 0x100)
  }

  /** `is_valid_ipv4_pkt` */
  function IsValidIpv4Pkt(f: seq<byte>, linkLen: nat): int
    requires HasRoom(f)
  {
    if linkLen < IPV4_HDR_LEN then -1
    else if f[VERSION_IHL] / 16 != 4 then -3
    else if f[VERSION_IHL] % 16 < 5 then -4
    else if Net16(f[TOTAL_LENGTH], f[TOTAL_LENGTH + 1]) < IPV4_HDR_LEN then -5
    else 0
  }

  /** The branch-free check of the fast path rejects exactly the headers that the step-by-step check rejects
      for a link length of at least 20. */
  lemma HeaderChecksAgree(f: seq<byte>, linkLen: nat)
    requires HasRoom(f)
    ensures IsValidIpv4Pkt(f, linkLen) < 0 <==> linkLen < IPV4_HDR_LEN || BadHeader(f)
  {
  }

  // ----- rewriting

  /** `time_to_live--; hdr_checksum++`, the latter on the raw 16-bit field. */
  function HopUpdate(f: seq<byte>): (r: seq<byte>)
    requires HasRoom(f)
    ensures |r| == |f|
  {
    var c := Add16(Load16(f[HDR_CHECKSUM], f[HDR_CHECKSUM + 1]), 1);
    StoreAt(f[TTL := Sub8(f[TTL], 1)], HDR_CHECKSUM, [c % 0x100, c / 0x100])
  }

  /** `val_eth[port]`: the 8-byte store of the destination address, then the copy of the source address. */
  function ValEth(dest: seq<byte>, src: seq<byte>): (r: seq<byte>)
    requires |dest| == 8 && |src| == 6
    ensures |r| == 16
  {
    StoreAt(StoreAt(seq(16, i => 0), 0, dest), 6, src)
  }

  /** The blend of 16 header bytes with mask 0x3f: six 16-bit words from ve, two from te. */
  function BlendEth(te: seq<byte>, ve: seq<byte>): (r: seq<byte>)
    requires |te| == |ve| == 16
    ensures |r| == 16
  {
    ve[..12] + te[12..]
  }

  /** The MAC rewrite of the fast path: load, blend, store. */
  function FastMac(f: seq<byte>, ve: seq<byte>): (r: seq<byte>)
    requires HasRoom(f) && |ve| == 16
    ensures |r| == |f|
  {
    StoreAt(f, 0, BlendEth(f[..16], ve))
  }

  /** The MAC rewrite of the simple path: an 8-byte store at the destination address (two bytes too many),
      then the source address over it. */
  function SimpleMac(f: seq<byte>, dest: seq<byte>, src: seq<byte>): (r: seq<byte>)
    requires HasRoom(f) && |dest| == 8 && |src| == 6
    ensures |r| == |f|
  {
    StoreAt(StoreAt(f, 0, dest), 6, src)
  }

  lemma MacRewritesAgree(f: seq<byte>, dest: seq<byte>, src: seq<byte>)
    requires HasRoom(f) && |dest| == 8 && |src| == 6
    ensures FastMac(f, ValEth(dest, src)) == SimpleMac(f, dest, src)
  {
  }

  /** The MAC rewrite and the hop update touch different bytes. */
  lemma MacAndHopCommute(f: seq<byte>, ve: seq<byte>)
    requires HasRoom(f) && |ve| == 16
    ensures FastMac(HopUpdate(f), ve) == HopUpdate(FastMac(f, ve))
  {
  }

  /** `process_packet` loads the first 16 bytes before the hop update and stores them after it. */
  lemma LateStoreIsHarmless(f: seq<byte>, ve: seq<byte>)
    requires HasRoom(f) && |ve| == 16
    ensures StoreAt(HopUpdate(f), 0, BlendEth(f[..16], ve)) == HopUpdate(FastMac(f, ve))
  {
  }

  /** Neither rewrite changes what the header check looks at. */
  lemma RewriteKeepsHeader(f: seq<byte>, ve: seq<byte>)
    requires HasRoom(f) && |ve| == 16
    ensures BadHeader(FastMac(f, ve)) == BadHeader(f)
    ensures BadHeader(HopUpdate(f)) == BadHeader(f)
  {
    assert FastMac(f, ve)[14..20] == f[14..20];
    assert HopUpdate(f)[14..20] == f[14..20];
    SameHeaderSameCheck(FastMac(f, ve), f);
    SameHeaderSameCheck(HopUpdate(f), f);
  }

  lemma SameHeaderSameCheck(f: seq<byte>, g: seq<byte>)
    requires HasRoom(f) && HasRoom(g) && f[14..20] == g[14..20]
    ensures BadHeader(f) == BadHeader(g)
  {
    hide Sub8, Load16;
    assert f[14] == f[14..20][0] == g[14];
    assert f[16] == f[14..20][2] == g[16];
    assert f[17] == f[14..20][3] == g[17];
  }
}
