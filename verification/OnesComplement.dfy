/** Internet checksums: the sums of the packet generator, and what the one-increment update of the forwarder
    does to a header over many hops. */
module OnesComplement {
  import opened Bytes
  import opened Frames

  // ----- the sum and its fold

  /** The sum of the 16-bit words of bs; a left-over byte counts as it is. */
  function ByteSum(bs: seq<byte>): nat {
    if |bs| == 0 then 0
    else if |bs| == 1 then bs[0]
    else Load16(bs[0], bs[1]) as nat + ByteSum(bs[2..])
  }

  /** End-around carry until 16 bits are left. */
  function Fold(s: nat): nat {
    if s < 0x1_0000 then s else Fold(s % 0x1_0000 + s / 0x1_0000)
  }

  /** A sum that includes its checksum is right (section 1 of RFC 1071). */
  predicate Verifies(s: nat) {
    Fold(s) == 0xffff
  }

  /** Folding reduces modulo 0xffff, with 0xffff for a non-zero multiple. */
  lemma {:induction false} FoldIsResidue(s: nat)
    ensures Fold(s) == if s == 0 then 0 else (s - 1) % 0xffff + 1
  {
    if s >= 0x1_0000 {
      var q, r := s / 0x1_0000, s % 0x1_0000;
      FoldIsResidue(r + q);
      ModShift(r + q - 1, q);
      assert s - 1 == (r + q - 1) + 0xffff * q;
    }
  }

  lemma {:induction false} ModShift(a: nat, q: nat)
    ensures (a + 0xffff * q) % 0xffff == a % 0xffff
    decreases q
  {
    if q > 0 {
      ModShift(a + 0xffff, q - 1);
      assert a + 0xffff * q == a + 0xffff + 0xffff * (q - 1);
      assert (a + 0xffff) % 0xffff == a % 0xffff;
    }
  }

  lemma VerifiesIsMultiple(s: nat)
    ensures Verifies(s) <==> s > 0 && s % 0xffff == 0
  {
    FoldIsResidue(s);
    if s > 0 {
      Predecessor(s);
    }
  }

  lemma Predecessor(s: nat)
    requires s > 0
    ensures (s - 1) % 0xffff == 0xfffe <==> s % 0xffff == 0
  {
    var q, r := s / 0xffff, s % 0xffff;
    if r > 0 {
      assert s - 1 == (r - 1) + 0xffff * q;
      ModShift(r - 1, q);
    } else {
      assert q > 0;
      assert s - 1 == 0xfffe + 0xffff * (q - 1);
      ModShift(0xfffe, q - 1);
    }
  }

  // ----- storing a computed checksum

  /** What the generator stores for a sum: the complement of the folded sum. */
  function Complement(s: nat): (c: nat)
    ensures c <= 0xffff
  {
    FoldIsResidue(s);
    0xffff - Fold(s)
  }

  /** A sum s that was taken with the value f in the checksum field: after the result is stored over f, the
      data verifies exactly if f was zero, or 0xffff next to data that is not all zero. */
  lemma StoredChecksumVerifiesIff(s: nat, f: nat)
    requires f <= s && f <= 0xffff
    ensures Verifies(s - f + Complement(s)) <==> f == 0 || (f == 0xffff && s != f)
  {
    FoldIsResidue(s);
    var t := s - f + Complement(s);
    VerifiesIsMultiple(t);
    if s == 0 {
    } else {
      var q, r := (s - 1) / 0xffff, (s - 1) % 0xffff;
      assert t == 0xffff * q + 0xffff - f;
      ModShift(0xffff - f, q);
    }
  }

  /** The checksum of data that is not all zero is never 0xffff, so one increment cannot wrap it. */
  lemma ChecksumIsNotNegativeZero(s: nat)
    ensures Complement(s) == 0xffff <==> s == 0
  {
    FoldIsResidue(s);
  }

  // ----- the two-step fold of `csum`

  /** Add the high half once, add what then carries, cut to 16 bits. */
  function TwoStepFold(s: nat): nat {
    var s1 := s / 0x1_0000 + s % 0x1_0000;
    (s1 + s1 / 0x1_0000) % 0x1_0000
  }

  /** The sum after both steps, before the cut. */
  function AfterSteps(s: nat): nat {
    var s1 := s / 0x1_0000 + s % 0x1_0000;
    s1 % 0x1_0000 + s1 / 0x1_0000
  }

  lemma StepsAreFolds(s: nat)
    ensures TwoStepFold(s) == AfterSteps(s) % 0x1_0000
    ensures Fold(s) == Fold(AfterSteps(s))
  {
    var s1 := s / 0x1_0000 + s % 0x1_0000;
    FoldOnce(s);
    FoldOnce(s1);
    hide Fold;
    var q, r := s1 / 0x1_0000, s1 % 0x1_0000;
    assert s1 + q == (r + q) + 0x1_0000 * q;
    CutShift(r + q, q);
  }

  lemma LastCarry(t: nat)
    requires t < 0x2_0000 - 1
    ensures Fold(t) == t % 0x1_0000 <==> t < 0x1_0000
  {
    FoldOnce(t);
  }

  /** For every sum of at most 2^31 words the two steps give the full fold exactly if no carry is left over
      after the second one. */
  lemma TwoStepFoldIff(s: nat)
    requires s < 0x8000_0000 * 0x1_0000
    ensures TwoStepFold(s) == Fold(s) <==> AfterSteps(s) < 0x1_0000
  {
    StepsAreFolds(s);
    assert AfterSteps(s) < 0x2_0000 - 1;
    hide Fold, TwoStepFold;
    LastCarry(AfterSteps(s));
  }

  lemma FoldOnce(s: nat)
    ensures Fold(s) == Fold(s % 0x1_0000 + s / 0x1_0000)
  {
  }

  lemma {:induction false} CutShift(t: nat, q: nat)
    ensures (t + 0x1_0000 * q) % 0x1_0000 == t % 0x1_0000
    decreases q
  {
    if q > 0 {
      CutShift(t + 0x1_0000, q - 1);
      assert t + 0x1_0000 * q == t + 0x1_0000 + 0x1_0000 * (q - 1);
    }
  }

  /** In particular for every header and every other sum of up to 65537 words. */
  lemma TwoStepsSuffice(s: nat)
    requires s < 0x1_0000_0000
    ensures TwoStepFold(s) == Fold(s)
  {
    TwoStepFoldIff(s);
    hide Fold, TwoStepFold;
  }

  // ----- the checksum routines

  lemma {:induction false} ByteSumSnoc(bs: seq<byte>, a: byte, b: byte)
    requires |bs| % 2 == 0
    ensures ByteSum(bs + [a]) == ByteSum(bs) + a
    ensures ByteSum(bs + [a, b]) == ByteSum(bs) + Load16(a, b)
  {
    if |bs| > 0 {
      ByteSumSnoc(bs[2..], a, b);
      assert (bs + [a])[2..] == bs[2..] + [a];
      assert (bs + [a, b])[2..] == bs[2..] + [a, b];
    } else {
      assert (bs + [a, b])[2..] == [];
    }
  }

  lemma {:induction false} ByteSumBound(bs: seq<byte>)
    requires |bs| % 2 == 0
    ensures ByteSum(bs) <= |bs| / 2 * 0xffff
  {
    if |bs| > 0 {
      ByteSumBound(bs[2..]);
    }
  }

  lemma EmptySum()
    ensures ByteSum([]) == 0
  {
  }

  /** `csum` over nwords 16-bit words: right for up to 65537 of them. */
  method Csum(buf: seq<byte>, nwords: nat) returns (r: u16)
    requires 2 * nwords <= |buf|
    ensures r == 0xffff - TwoStepFold(ByteSum(buf[..2 * nwords]))
    ensures nwords <= 65537 ==> r == Complement(ByteSum(buf[..2 * nwords]))
  {
    hide ByteSum, Load16;
    var sum: nat := 0;
    EmptySum();
    for i := 0 to nwords
      invariant sum == ByteSum(buf[..2 * i])
    {
      ByteSumSnoc(buf[..2 * i], buf[2 * i], buf[2 * i + 1]);
      assert buf[..2 * (i + 1)] == buf[..2 * i] + [buf[2 * i], buf[2 * i + 1]];
      sum := sum + Load16(buf[2 * i], buf[2 * i + 1]) as nat;
    }
    ghost var total := sum;
    sum := sum / 0x1_0000 + sum % 0x1_0000;
    sum := sum + sum / 0x1_0000;
    r := 0xffff - sum % 0x1_0000;
    assert r == 0xffff - TwoStepFold(total);
    hide TwoStepFold, Fold;
    ByteSumBound(buf[..2 * nwords]);
    if nwords <= 65537 {
      TwoStepsSuffice(total);
    }
  }

  /** The first loop of `Compute_Checksum_UDP` and its left-over byte. */
  method SumData(data: seq<byte>) returns (sum: nat)
    ensures sum == ByteSum(data)
  {
    hide ByteSum, Load16;
    sum := 0;
    EmptySum();
    var addr, count := 0, |data|;
    while count > 1
      invariant 0 <= count && addr + count == |data| && addr % 2 == 0
      invariant sum == ByteSum(data[..addr])
      decreases count
    {
      ByteSumSnoc(data[..addr], data[addr], data[addr + 1]);
      assert data[..addr + 2] == data[..addr] + [data[addr], data[addr + 1]];
      sum := sum + Load16(data[addr], data[addr + 1]) as nat;
      addr, count := addr + 2, count - 2;
    }
    if count > 0 {
      ByteSumSnoc(data[..addr], data[addr], 0);
      assert data == data[..addr] + [data[addr]];
      sum := sum + data[addr] as nat;
    } else {
      assert data[..addr] == data;
    }
  }

  /** Its second loop, over the pseudo-header, which runs until count is zero. */
  method SumPseudoHeader(pih: seq<byte>, start: nat) returns (sum: nat)
    requires |pih| % 2 == 0
    ensures sum == start + ByteSum(pih)
  {
    hide ByteSum, Load16;
    sum := start;
    EmptySum();
    var addr, count := 0, |pih|;
    while count != 0
      invariant 0 <= count && addr + count == |pih| && addr % 2 == 0 && count % 2 == 0
      invariant sum == start + ByteSum(pih[..addr])
      decreases count
    {
      ByteSumSnoc(pih[..addr], pih[addr], pih[addr + 1]);
      assert pih[..addr + 2] == pih[..addr] + [pih[addr], pih[addr + 1]];
      sum := sum + Load16(pih[addr], pih[addr + 1]) as nat;
      addr, count := addr + 2, count - 2;
    }
    assert pih[..addr] == pih;
  }

  /** `Compute_Checksum_UDP` over data and pseudo-header: the loops end for every length and parity. */
  method ComputeChecksumUdp(data: seq<byte>, pih: seq<byte>) returns (checksum: u16)
    requires |pih| % 2 == 0
    ensures checksum == Complement(ByteSum(data) + ByteSum(pih))
  {
    var sum := SumData(data);
    sum := SumPseudoHeader(pih, sum);
    ghost var total := sum;
    while sum / 0x1_0000 != 0
      invariant Fold(sum) == Fold(total)
      decreases sum
    {
      sum := sum % 0x1_0000 + sum / 0x1_0000;
    }
    checksum := 0xffff - sum % 0x1_0000;
  }

  // ----- changing bytes under a sum

  /** Replacing one byte. */
  lemma {:induction false} ByteSumUpdate(bs: seq<byte>, i: nat, x: byte)
    requires i < |bs|
    ensures ByteSum(bs[i := x]) == ByteSum(bs) + (if i % 2 == 0 then x as int - bs[i] else 0x100 * (x as int - bs[i]))
  {
    if i < 2 {
      assert |bs| >= 2 ==> bs[i := x][2..] == bs[2..];
    } else {
      assert bs[i := x][2..] == bs[2..][i - 2 := x];
      ByteSumUpdate(bs[2..], i - 2, x);
    }
  }

  /** Storing two bytes at an even offset. */
  lemma ByteSumStoreBytes(bs: seq<byte>, off: nat, a: byte, b: byte)
    requires off % 2 == 0 && off + 2 <= |bs|
    ensures ByteSum(StoreAt(bs, off, [a, b])) == ByteSum(bs) - Load16(bs[off], bs[off + 1]) + Load16(a, b)
  {
    hide ByteSum, StoreAt, Load16;
    var one := bs[off := a];
    assert one[off + 1] == bs[off + 1];
    ByteSumUpdate(bs, off, a);
    ByteSumUpdate(one, off + 1, b);
    StoreIsTwoUpdates(bs, off, a, b);
    LoadIs(a, b);
    LoadIs(bs[off], bs[off + 1]);
    OddSuccessor(off);
  }

  lemma LoadIs(a: byte, b: byte)
    ensures Load16(a, b) == a as int + 0x100 * (b as int)
  {
  }

  lemma OddSuccessor(off: nat)
    requires off % 2 == 0
    ensures (off + 1) % 2 == 1
  {
  }

  lemma StoreIsTwoUpdates(bs: seq<byte>, off: nat, a: byte, b: byte)
    requires off + 2 <= |bs|
    ensures StoreAt(bs, off, [a, b]) == bs[off := a][off + 1 := b]
  {
  }

  /** Storing a 16-bit value at an even offset. */
  lemma ByteSumStore(bs: seq<byte>, off: nat, c: u16)
    requires off % 2 == 0 && off + 2 <= |bs|
    ensures ByteSum(StoreAt(bs, off, [c % 0x100, c / 0x100])) == ByteSum(bs) - Load16(bs[off], bs[off + 1]) + c
  {
    hide ByteSum;
    ByteSumStoreBytes(bs, off, c % 0x100, c / 0x100);
  }

  lemma {:induction false} ByteSumHasField(bs: seq<byte>, off: nat)
    requires off % 2 == 0 && off + 2 <= |bs|
    ensures ByteSum(bs) >= Load16(bs[off], bs[off + 1])
  {
    if off > 0 {
      ByteSumHasField(bs[2..], off - 2);
    }
  }

  /** The generator's UDP checksum (and with an empty pseudo-header the IP one): data whose checksum field
      at off holds f is covered by a correct checksum after the store exactly if f was zero, or 0xffff next
      to something else than zeros. */
  lemma GeneratedChecksumVerifiesIff(data: seq<byte>, pih: seq<byte>, off: nat)
    requires off % 2 == 0 && off + 2 <= |data|
    ensures var s := ByteSum(data) + ByteSum(pih);
            var c := Complement(s);
            var f := Load16(data[off], data[off + 1]);
            Verifies(ByteSum(StoreAt(data, off, [c % 0x100, c / 0x100])) + ByteSum(pih))
            <==> f == 0 || (f == 0xffff && s != f)
  {
    hide ByteSum, Verifies, Complement, Load16, StoreAt;
    var s := ByteSum(data) + ByteSum(pih);
    ByteSumHasField(data, off);
    ByteSumStore(data, off, Complement(s));
    StoredChecksumVerifiesIff(s, Load16(data[off], data[off + 1]));
  }

  // ----- hops

  /** The frame carries a whole IPv4 header. */
  predicate HasIpv4Header(f: seq<byte>) {
    && HasRoom(f)
    && f[VERSION_IHL] % 16 >= 5
    && HeaderEnd(f) <= |f|
  }

  function HeaderEnd(f: seq<byte>): (e: nat)
    requires HasRoom(f)
    ensures f[VERSION_IHL] % 16 >= 5 ==> e >= 34
  {
    ETHER_HDR_LEN + 4 * (f[VERSION_IHL] % 16)
  }

  /** The sum of the header words, options included. */
  function HeaderSum(f: seq<byte>): nat
    requires HasIpv4Header(f)
  {
    ByteSum(f[ETHER_HDR_LEN..HeaderEnd(f)])
  }

  function RawChecksum(f: seq<byte>): u16
    requires HasRoom(f)
  {
    Load16(f[HDR_CHECKSUM], f[HDR_CHECKSUM + 1])
  }

  /** k hops through the forwarder. */
  function Hops(f: seq<byte>, k: nat): (r: seq<byte>)
    requires HasRoom(f)
    ensures |r| == |f|
  {
    if k == 0 then f else HopUpdate(Hops(f, k - 1))
  }

  /** One hop takes one from the TTL byte and adds one to the raw checksum, each modulo its width. */
  lemma HopChangesSum(f: seq<byte>)
    requires HasIpv4Header(f)
    ensures var g := HopUpdate(f);
            && HasIpv4Header(g)
            && RawChecksum(g) == Add16(RawChecksum(f), 1)
            && g[TTL] == Sub8(f[TTL], 1)
            && HeaderSum(g) == HeaderSum(f) - f[TTL] + g[TTL] - RawChecksum(f) + RawChecksum(g)
  {
    HopFields(f);
    HopInHeader(f, HeaderEnd(f));
    hide HopUpdate, StoreAt, ByteSum, HeaderEnd, RawChecksum, Sub8, Add16;
    HeaderUpdateSum(f[14..HeaderEnd(f)], Sub8(f[TTL], 1), Add16(RawChecksum(f), 1));
    HeaderFields(f);
  }

  lemma HopFields(f: seq<byte>)
    requires HasIpv4Header(f)
    ensures var g := HopUpdate(f);
            && HasIpv4Header(g) && HeaderEnd(g) == HeaderEnd(f)
            && RawChecksum(g) == Add16(RawChecksum(f), 1) && g[TTL] == Sub8(f[TTL], 1)
  {
    HopInHeader(f, HeaderEnd(f));
    LoadStored(Add16(RawChecksum(f), 1));
    hide StoreAt, HopUpdate, Add16, Sub8;
  }

  lemma HeaderFields(f: seq<byte>)
    requires HasIpv4Header(f)
    ensures var h := f[14..HeaderEnd(f)];
            |h| >= 20 && h[8] == f[TTL] && Load16(h[10], h[11]) == RawChecksum(f)
  {
  }

  lemma HeaderUpdateSum(h: seq<byte>, x: byte, c: u16)
    requires |h| >= 12
    ensures ByteSum(StoreAt(h[8 := x], 10, [c % 0x100, c / 0x100]))
            == ByteSum(h) - h[8] + x - Load16(h[10], h[11]) + c
  {
    hide ByteSum, StoreAt, Load16;
    ByteSumUpdate(h, 8, x);
    ByteSumStore(h[8 := x], 10, c);
  }

  /** The update seen in the header alone. */
  lemma HopInHeader(f: seq<byte>, e: nat)
    requires HasRoom(f) && 26 <= e <= |f|
    ensures var c := Add16(RawChecksum(f), 1);
            HopUpdate(f)[14..e] == StoreAt(f[14..e][8 := Sub8(f[TTL], 1)], 10, [c % 0x100, c / 0x100])
            && HopUpdate(f)[14] == f[14] && HopUpdate(f)[22] == Sub8(f[TTL], 1)
            && HopUpdate(f)[24] == c % 0x100 && HopUpdate(f)[25] == c / 0x100
  {
  }

  /** The sum after k hops, as long as the TTL lasts: unchanged until the raw checksum wraps to zero, which
      costs 0x10000 once. */
  lemma {:induction false} SumAfterHops(f: seq<byte>, k: nat)
    requires HasIpv4Header(f) && k <= f[TTL]
    ensures var g := Hops(f, k);
            && HasIpv4Header(g)
            && g[TTL] == f[TTL] - k
            && RawChecksum(g) == Add16(RawChecksum(f), k)
            && HeaderSum(g) == HeaderSum(f) - if RawChecksum(f) as nat + k <= 0xffff then 0 else 0x1_0000
  {
    hide HopUpdate, HeaderSum, RawChecksum;
    if k > 0 {
      SumAfterHops(f, k - 1);
      HopChangesSum(Hops(f, k - 1));
    }
  }

  lemma NotBothMultiples(n: nat)
    ensures (n + 0x1_0000) % 0xffff == 0 ==> n % 0xffff != 0
  {
    ModShift(n + 1, 1);
  }

  /** Checksum survival: a header that verifies still verifies after k hops exactly if the raw checksum has
      not passed 0xffff, the negative zero of one's complement (section 3 of RFC 1624). */
  lemma ChecksumSurvivesIff(f: seq<byte>, k: nat)
    requires HasIpv4Header(f) && k <= f[TTL] && Verifies(HeaderSum(f))
    ensures HasIpv4Header(Hops(f, k))
    ensures Verifies(HeaderSum(Hops(f, k))) <==> RawChecksum(f) as nat + k <= 0xffff
  {
    hide HopUpdate, HeaderSum, RawChecksum, Verifies, Hops;
    SumAfterHops(f, k);
    VerifiesIsMultiple(HeaderSum(f));
    VerifiesIsMultiple(HeaderSum(Hops(f, k)));
    if RawChecksum(f) as nat + k > 0xffff {
      NotBothMultiples(HeaderSum(Hops(f, k)));
    }
  }

  lemma StoreChecksumSum(f: seq<byte>, c: u16)
    requires HasIpv4Header(f)
    ensures var g := StoreAt(f, HDR_CHECKSUM, [c % 0x100, c / 0x100]);
            && HasIpv4Header(g) && RawChecksum(g) == c && g[TTL] == f[TTL]
            && HeaderSum(g) == HeaderSum(f) - RawChecksum(f) + c
  {
    var e := HeaderEnd(f);
    var h := f[14..e];
    var bytes := [c % 0x100, c / 0x100];
    var g := StoreAt(f, HDR_CHECKSUM, bytes);
    StoreInHeader(f, e, bytes);
    assert HeaderEnd(g) == e;
    LoadStored(c);
    assert RawChecksum(g) == c;
    ByteSumStore(h, 10, c);
    assert Load16(h[10], h[11]) == RawChecksum(f);
    hide ByteSum, StoreAt, HeaderEnd, Load16;
  }

  lemma LoadStored(c: u16)
    ensures Load16(c % 0x100, c / 0x100) == c
  {
  }

  lemma StoreInHeader(f: seq<byte>, e: nat, bs: seq<byte>)
    requires 26 <= e <= |f| && |bs| == 2
    ensures StoreAt(f, 24, bs)[14..e] == StoreAt(f[14..e], 10, bs)
    ensures StoreAt(f, 24, bs)[14] == f[14] && StoreAt(f, 24, bs)[22] == f[22]
    ensures StoreAt(f, 24, bs)[24] == bs[0] && StoreAt(f, 24, bs)[25] == bs[1]
  {
  }

  lemma HeaderSumPositive(f: seq<byte>)
    requires HasIpv4Header(f)
    ensures HeaderSum(f) > 0
  {
    var h := f[14..HeaderEnd(f)];
    assert h[0] == f[VERSION_IHL] > 0;
    ByteSumHasField(h, 0);
  }

  /** A header whose checksum the generator has just computed over a zero field verifies, and survives at
      least its first hop. */
  lemma FreshChecksumSurvivesFirstHop(f: seq<byte>)
    requires HasIpv4Header(f) && RawChecksum(f) == 0 && f[TTL] >= 1
    ensures var c := Complement(HeaderSum(f));
            var g := StoreAt(f, HDR_CHECKSUM, [c % 0x100, c / 0x100]);
            && HasIpv4Header(g) && Verifies(HeaderSum(g))
            && HasIpv4Header(Hops(g, 1)) && Verifies(HeaderSum(Hops(g, 1)))
  {
    hide HeaderSum, RawChecksum, Verifies, Hops, Complement;
    var c := Complement(HeaderSum(f));
    var g := StoreAt(f, HDR_CHECKSUM, [c % 0x100, c / 0x100]);
    StoreChecksumSum(f, c);
    StoredChecksumVerifiesIff(HeaderSum(f), 0);
    HeaderSumPositive(f);
    ChecksumIsNotNegativeZero(HeaderSum(f));
    ChecksumSurvivesIff(g, 1);
  }
}
