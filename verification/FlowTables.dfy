/** Filling the exact-match table with many generated flows, and what lookups then return. */
module FlowTables {
  import opened Bytes
  import opened ExactMatch

  const NUMBER_PORT_USED := 2
  const BYTE_VALUE_MAX := 256

  // ----- the generated flows

  /** `struct ipv4_l3fwd_em_route` */
  datatype Route = Route(key: Tuple4, ifOut: byte)

  /** The routes that flow generation starts from. */
  function BaseRoute(i: nat): Route
    requires i < NUMBER_PORT_USED
  {
    if i == 0 then Route(Tuple4(Net32(1, 0, 0, 0), Net32(7, 7, 7, 7), 8888, 7777, IPPROTO_UDP), 0)
    else Route(Tuple4(Net32(3, 0, 0, 0), Net32(7, 7, 7, 7), 8888, 7777, IPPROTO_UDP), 1)
  }

  /** The entry of turn i; `i & (NUMBER_PORT_USED - 1)` selects one of the first two cases only. */
  function Entry(i: nat): Route {
    var a: byte := i / NUMBER_PORT_USED % BYTE_VALUE_MAX;
    var b: byte := i / NUMBER_PORT_USED / BYTE_VALUE_MAX % BYTE_VALUE_MAX;
    var c: byte := i / NUMBER_PORT_USED / (BYTE_VALUE_MAX * BYTE_VALUE_MAX) % 0x100;
    if i % NUMBER_PORT_USED == 0 then BaseRoute(0).(key := BaseRoute(0).key.(ipDst := Net32(1, c, b, a)))
    else BaseRoute(1).(key := BaseRoute(1).key.(ipDst := Net32(3, c, b, a)))
  }

  function EntryKey(i: nat): seq<byte> {
    ConvertIpv4(Entry(i).key)
  }

  /** The flow to address ipDst with the fixed source, ports and protocol. */
  function FlowTo(ipDst: u32): Tuple4 {
    Tuple4(ipDst, Net32(7, 7, 7, 7), 8888, 7777, IPPROTO_UDP)
  }

  /** Entry i goes to 1.x or 3.x with x = i / 2, cut to 24 bits. */
  lemma EntryIsFlow(i: nat)
    ensures Entry(i) == Route(FlowTo((if i % 2 == 0 then 0x100_0000 else 0x300_0000) + i / 2 % 0x100_0000), i % 2)
  {
    var x := i / 2;
    ThreeBytes(x);
  }

  lemma ThreeBytes(x: nat)
    ensures forall h: byte ::
      Net32(h, x / 0x1_0000 % 0x100, x / 0x100 % 0x100, x % 0x100) == h * 0x100_0000 + x % 0x100_0000
  {
    var u, a := x / 0x100, x % 0x100;
    var v, b := u / 0x100, u % 0x100;
    var w, c := v / 0x100, v % 0x100;
    assert x == 0x100_0000 * w + 0x1_0000 * c + 0x100 * b + a;
    assert x / 0x1_0000 == v && x % 0x100_0000 == 0x1_0000 * c + 0x100 * b + a;
  }

  /** Two entries have the same key exactly if they are 2^25 turns apart, or a multiple of that. */
  lemma SameKeyIff(i: nat, j: nat)
    ensures EntryKey(i) == EntryKey(j) <==> (j - i) % 0x200_0000 == 0
  {
    EntryIsFlow(i);
    EntryIsFlow(j);
    if EntryKey(i) == EntryKey(j) {
      ConvertIpv4Injective(Entry(i).key, Entry(j).key);
    }
    SameAddressIff(i, j);
  }

  lemma SameAddressIff(i: nat, j: nat)
    ensures (if i % 2 == 0 then 0x100_0000 else 0x300_0000) + i / 2 % 0x100_0000
            == (if j % 2 == 0 then 0x100_0000 else 0x300_0000) + j / 2 % 0x100_0000
            <==> (j - i) % 0x200_0000 == 0
  {
  }

  /** The keys of n turns are pairwise distinct exactly up to n = 2^25. */
  lemma KeysDistinctIff(n: nat)
    ensures (forall i, j :: 0 <= i < j < n ==> EntryKey(i) != EntryKey(j)) <==> n <= 0x200_0000
  {
    hide EntryKey;
    if n <= 0x200_0000 {
      forall i, j | 0 <= i < j < n
        ensures EntryKey(i) != EntryKey(j)
      {
        SameKeyIff(i, j);
        assert 0 < j - i < 0x200_0000;
      }
    } else {
      SameKeyIff(0, 0x200_0000);
    }
  }

  // ----- the hash

  type Slots = map<seq<byte>, nat>

  /** rte_hash with room for a number of entries: which adds it refuses, and which free slot it picks, may depend
      on everything in it. */
  datatype Hash = Hash(entries: nat, refuses: (Slots, seq<byte>) -> bool, pick: (Slots, seq<byte>) -> nat)

  function UpTo(n: nat): (r: set<nat>)
    ensures |r| == n && forall s :: s in r <==> 0 <= s < n
  {
    if n == 0 then {} else UpTo(n - 1) + {n - 1}
  }

  function FreeSlots(slots: Slots, entries: nat): set<nat> {
    UpTo(entries) - slots.Values
  }

  /** A slot has to be free even for a key that is already there. */
  predicate Refused(h: Hash, slots: Slots, key: seq<byte>) {
    h.refuses(slots, key) || FreeSlots(slots, h.entries) == {}
  }

  function SomeFree(slots: Slots, entries: nat): (s: nat)
    requires FreeSlots(slots, entries) != {}
    ensures s in FreeSlots(slots, entries)
  {
    var free := FreeSlots(slots, entries);
    assert exists s :: s in free;
    if entries - 1 !in slots.Values then entries - 1
    else
      assert FreeSlots(slots, entries - 1) == free;
      SomeFree(slots, entries - 1)
  }

  function SlotFor(h: Hash, slots: Slots, key: seq<byte>): (s: nat)
    requires !Refused(h, slots, key)
    ensures if key in slots then s == slots[key] else s in FreeSlots(slots, h.entries)
  {
    if key in slots then slots[key]
    else if h.pick(slots, key) in FreeSlots(slots, h.entries) then h.pick(slots, key)
    else SomeFree(slots, h.entries)
  }

  /** The slots after an add. */
  function AddKey(h: Hash, slots: Slots, key: seq<byte>): Slots {
    if Refused(h, slots, key) then slots else slots[key := SlotFor(h, slots, key)]
  }

  /** The slots after the adds of n turns, on an empty hash. */
  function After(h: Hash, n: nat): Slots {
    if n == 0 then map[] else AddKey(h, After(h, n - 1), EntryKey(n - 1))
  }

  /** None of the first n adds is refused. */
  ghost predicate AllAdded(h: Hash, n: nat) {
    forall i :: 0 <= i < n ==> !Refused(h, After(h, i), EntryKey(i))
  }

  /** Keys have slots of their own. */
  ghost predicate GoodSlots(slots: Slots, entries: nat) {
    && (forall k :: k in slots ==> slots[k] < entries)
    && (forall k, l :: k in slots && l in slots && slots[k] == slots[l] ==> k == l)
  }

  lemma AddKeyGood(h: Hash, slots: Slots, key: seq<byte>)
    requires GoodSlots(slots, h.entries)
    ensures GoodSlots(AddKey(h, slots, key), h.entries)
  {
    if !Refused(h, slots, key) {
      var s := SlotFor(h, slots, key);
      assert key !in slots ==> s < h.entries && s !in slots.Values;
    }
  }

  // ----- the table in place

  /** The hash and the `ipv4_l3fwd_out_if` array beside it. */
  class EmTable {
    const hash: Hash
    var slots: Slots
    const outIf: array<byte>

    ghost predicate Valid()
      reads this
    {
      outIf.Length == hash.entries && GoodSlots(slots, hash.entries)
    }

    function Table(): FlowTable
      reads this, outIf
    {
      FlowTable(slots, outIf[..])
    }

    constructor (hash: Hash)
      ensures Valid() && this.hash == hash && slots == map[] && fresh(outIf)
    {
      this.hash := hash;
      slots := map[];
      outIf := new byte[hash.entries](i => 0);
    }

    /** rte_hash_add_key: the slot of the key, or a negative error exactly if the add is refused or no slot is
        free. */
    method HashAddKey(key: seq<byte>) returns (ret: int)
      requires Valid()
      modifies this`slots
      ensures Valid() && slots == AddKey(hash, old(slots), key)
      ensures ret < 0 <==> Refused(hash, old(slots), key)
      ensures ret >= 0 ==> key in slots && ret == slots[key] < outIf.Length
      ensures ret >= 0 && key in old(slots) ==> slots == old(slots)
      ensures ret >= 0 && key !in old(slots) ==> ret !in old(slots).Values && slots == old(slots)[key := ret]
    {
      AddKeyGood(hash, slots, key);
      if Refused(hash, slots, key) {
        return -28;
      }
      var s := SlotFor(hash, slots, key);
      slots := slots[key := s];
      return s;
    }

    /** `populate_ipv4_many_flow_into_table`; the failure exit becomes the result false, and is taken exactly if
        one of the adds is refused. */
    method PopulateIpv4Many(nrFlow: nat) returns (ok: bool)
      requires Valid() && slots == map[]
      modifies this`slots, outIf
      ensures Valid() && (ok <==> AllAdded(hash, nrFlow))
      ensures ok ==> Populated(Table(), nrFlow) && slots == After(hash, nrFlow)
    {
      hide Populated, AllAdded, After, AddKey, Refused, GoodSlots, Entry;
      NothingAdded(hash, Table());
      var i := 0;
      while i < nrFlow
        invariant i <= nrFlow && Valid() && Populated(Table(), i)
        invariant slots == After(hash, i) && AllAdded(hash, i)
      {
        AddTurn(hash, i, nrFlow);
        var ok := PopulateOne(i);
        if !ok {
          return false;
        }
        i := i + 1;
      }
      return true;
    }

    /** One turn. */
    method PopulateOne(i: nat) returns (ok: bool)
      requires Valid() && Populated(Table(), i)
      modifies this`slots, outIf
      ensures Valid() && slots == AddKey(hash, old(slots), EntryKey(i))
      ensures ok <==> !Refused(hash, old(slots), EntryKey(i))
      ensures ok ==> Populated(Table(), i + 1)
    {
      hide Entry, Refused, AddKey;
      var entry := Entry(i);
      var newkey := ConvertIpv4(entry.key);
      assert newkey == EntryKey(i);
      ghost var before := Table();
      var ret := HashAddKey(newkey);
      ok := ret >= 0;
      if ok {
        outIf[ret] := entry.ifOut;
        EntryAdded(before, Table(), i, ret);
      }
    }
  }

  lemma NothingAdded(h: Hash, t: FlowTable)
    requires t.slots == map[]
    ensures After(h, 0) == map[] && AllAdded(h, 0) && Populated(t, 0)
  {
  }

  lemma AddTurn(h: Hash, i: nat, n: nat)
    requires i < n
    ensures After(h, i + 1) == AddKey(h, After(h, i), EntryKey(i))
    ensures AllAdded(h, i) && !Refused(h, After(h, i), EntryKey(i)) ==> AllAdded(h, i + 1)
    ensures Refused(h, After(h, i), EntryKey(i)) ==> !AllAdded(h, n)
  {
    hide Refused, AddKey, EntryKey;
  }

  // ----- when population succeeds

  lemma {:induction false} ValuesCount(slots: Slots, entries: nat)
    requires GoodSlots(slots, entries)
    ensures |slots.Values| == |slots|
    decreases |slots|
  {
    if slots != map[] {
      var k :| k in slots;
      var rest := slots - {k};
      ValuesCount(rest, entries);
      assert slots == rest[k := slots[k]];
      assert slots[k] !in rest.Values;
      assert slots.Values == rest.Values + {slots[k]};
    }
  }

  lemma FreeCount(slots: Slots, entries: nat)
    requires GoodSlots(slots, entries)
    ensures |FreeSlots(slots, entries)| == entries - |slots|
  {
    ValuesCount(slots, entries);
    assert slots.Values <= UpTo(entries);
  }

  /** Number of different keys in n turns. */
  function KeyCount(n: nat): nat {
    if n <= 0x200_0000 then n else 0x200_0000
  }

  /** key is that of one of the first n turns. */
  ghost predicate KeyBefore(key: seq<byte>, n: nat) {
    exists j :: 0 <= j < n && EntryKey(j) == key
  }

  lemma KeySeen(i: nat)
    ensures KeyBefore(EntryKey(i), i) <==> i >= 0x200_0000
    ensures forall key :: KeyBefore(key, i + 1) <==> KeyBefore(key, i) || key == EntryKey(i)
  {
    hide EntryKey;
    if i >= 0x200_0000 {
      SameKeyIff(i - 0x200_0000, i);
    } else {
      forall j | 0 <= j < i
        ensures EntryKey(j) != EntryKey(i)
      {
        SameKeyIff(j, i);
        assert 0 < i - j < 0x200_0000;
      }
    }
  }

  lemma AddedKey(h: Hash, slots: Slots, key: seq<byte>)
    requires !Refused(h, slots, key)
    ensures |AddKey(h, slots, key)| == |slots| + if key in slots then 0 else 1
    ensures forall k :: k in AddKey(h, slots, key) <==> k in slots || k == key
  {
    hide Refused;
    if key in slots {
      assert AddKey(h, slots, key) == slots;
    }
  }

  lemma LastAdd(h: Hash, n: nat)
    requires AllAdded(h, n + 1)
    ensures AllAdded(h, n) && !Refused(h, After(h, n), EntryKey(n))
    ensures After(h, n + 1) == AddKey(h, After(h, n), EntryKey(n))
  {
    hide Refused, AddKey, EntryKey;
  }

  lemma NoSlots(h: Hash)
    ensures After(h, 0) == map[] && GoodSlots(After(h, 0), h.entries)
    ensures forall key :: !KeyBefore(key, 0)
  {
  }

  /** After n adds of which none was refused, the keys of these turns are there, each once. */
  lemma {:induction false} SlotsAfter(h: Hash, n: nat)
    requires AllAdded(h, n)
    ensures GoodSlots(After(h, n), h.entries) && |After(h, n)| == KeyCount(n)
    ensures forall key :: key in After(h, n) <==> KeyBefore(key, n)
  {
    hide EntryKey, Refused, AddKey, GoodSlots, AllAdded, KeyBefore, After;
    if n == 0 {
      NoSlots(h);
    } else {
      LastAdd(h, n - 1);
      SlotsAfter(h, n - 1);
      AddKeyGood(h, After(h, n - 1), EntryKey(n - 1));
      KeySeen(n - 1);
      AddedKey(h, After(h, n - 1), EntryKey(n - 1));
    }
  }

  /** A hash that refuses nothing while it has room takes all entries exactly if there are at least as many slots
      as turns, or more than the 2^25 different keys. */
  lemma AllAddedIff(h: Hash, n: nat)
    requires forall slots, key :: !h.refuses(slots, key)
    ensures AllAdded(h, n) <==> n <= h.entries || h.entries > 0x200_0000
  {
    hide EntryKey, After, GoodSlots, FreeSlots;
    if n <= h.entries || h.entries > 0x200_0000 {
      RoomForAll(h, n);
    } else if AllAdded(h, h.entries) {
      SlotsAfter(h, h.entries);
      FreeCount(After(h, h.entries), h.entries);
      assert Refused(h, After(h, h.entries), EntryKey(h.entries));
    }
  }

  lemma {:induction false} RoomForAll(h: Hash, n: nat)
    requires forall slots, key :: !h.refuses(slots, key)
    requires n <= h.entries || h.entries > 0x200_0000
    ensures AllAdded(h, n)
  {
    hide EntryKey, After, GoodSlots, FreeSlots;
    if n > 0 {
      RoomForAll(h, n - 1);
      SlotsAfter(h, n - 1);
      FreeCount(After(h, n - 1), h.entries);
      assert |FreeSlots(After(h, n - 1), h.entries)| > 0;
    }
  }

  /** The table holds exactly the first n entries, each with its port. */
  ghost predicate Populated(t: FlowTable, n: nat) {
    && t.Valid()
    && (forall k :: 0 <= k < n ==> EntryKey(k) in t.slots && t.outIf[t.slots[EntryKey(k)]] == Entry(k).ifOut)
    && (forall key :: key in t.slots ==> exists k :: 0 <= k < n && EntryKey(k) == key)
  }

  lemma EntryAdded(t: FlowTable, t': FlowTable, i: nat, s: nat)
    requires Populated(t, i) && s < |t.outIf| && t'.outIf == t.outIf[s := Entry(i).ifOut]
    requires forall k, l :: k in t.slots && l in t.slots && t.slots[k] == t.slots[l] ==> k == l
    requires if EntryKey(i) in t.slots then t'.slots == t.slots && s == t.slots[EntryKey(i)]
             else t'.slots == t.slots[EntryKey(i) := s] && s !in t.slots.Values
    ensures Populated(t', i + 1)
  {
    hide Entry, EntryKey;
    forall k | 0 <= k < i + 1
      ensures EntryKey(k) in t'.slots && t'.outIf[t'.slots[EntryKey(k)]] == Entry(k).ifOut
    {
      if k < i && EntryKey(k) == EntryKey(i) {
        SameKeySamePort(k, i);
      }
    }
    forall key | key in t'.slots
      ensures exists k :: 0 <= k < i + 1 && EntryKey(k) == key
    {
      if key !in t.slots {
        assert EntryKey(i) == key;
      }
    }
  }

  lemma SameKeySamePort(k: nat, i: nat)
    requires EntryKey(k) == EntryKey(i)
    ensures Entry(k).ifOut == Entry(i).ifOut
  {
    ConvertIpv4Injective(Entry(k).key, Entry(i).key);
    EntryIsFlow(k);
    EntryIsFlow(i);
  }

  // ----- what lookups return

  /** The port for a flow to ipDst after n turns: 0 for 1.x with x < ceil(n/2), 1 for 3.x with
      x < floor(n/2), else the incoming port. */
  function PortOf(ipDst: u32, n: nat, portid: byte): byte {
    var h, x := ipDst / 0x100_0000, ipDst % 0x100_0000;
    if h == 1 && x < (n + 1) / 2 then 0 else if h == 3 && x < n / 2 then 1 else portid
  }

  lemma EntryFor(ipDst: u32, k: nat)
    requires var h, x := ipDst / 0x100_0000, ipDst % 0x100_0000;
             (h == 1 && k == 2 * x) || (h == 3 && k == 2 * x + 1)
    ensures Entry(k) == Route(FlowTo(ipDst), k % 2)
  {
    EntryIsFlow(k);
  }

  lemma EntryReaches(ipDst: u32, k: nat)
    requires Entry(k).key == FlowTo(ipDst)
    ensures var h, x := ipDst / 0x100_0000, ipDst % 0x100_0000;
            (h == 1 && k % 2 == 0 && x <= k / 2) || (h == 3 && k % 2 == 1 && x <= k / 2)
  {
    EntryIsFlow(k);
  }

  /** Closed form of the populated table, for every number of turns. */
  lemma PopulatedLookup(t: FlowTable, n: nat, ipDst: u32, portid: byte)
    requires Populated(t, n)
    ensures FlowPort(t, ConvertIpv4(FlowTo(ipDst)), portid) == PortOf(ipDst, n, portid)
  {
    var key := ConvertIpv4(FlowTo(ipDst));
    var h, x := ipDst / 0x100_0000, ipDst % 0x100_0000;
    var k := if h == 3 then 2 * x + 1 else 2 * x;
    if (h == 1 || h == 3) && k < n {
      EntryFor(ipDst, k);
      assert EntryKey(k) == key;
    } else if key in t.slots {
      var l :| 0 <= l < n && EntryKey(l) == key;
      ConvertIpv4Injective(Entry(l).key, FlowTo(ipDst));
      EntryReaches(ipDst, l);
    }
  }

  // ----- the random pattern of the traffic generator

  /** Bit b of x, counted from the lowest. */
  function AddressBit(x: nat, b: nat): nat {
    if b == 0 then x % 2 else AddressBit(x / 2, b - 1)
  }

  /** The pattern `......X._.....XXX_XXXXXXXX_XXXXXXXX` for n = 2^m entries: bit 25 and the m - 1 lowest bits
      are free, the others are those of 1.0.0.0. */
  ghost predicate MatchesPattern(ipDst: u32, m: nat)
    requires 1 <= m <= 25
  {
    forall b :: m - 1 <= b < 32 && b != 25 ==> AddressBit(ipDst, b) == AddressBit(0x100_0000, b)
  }

  lemma {:induction false} BitsAbove(h: nat, x: nat, k: nat, b: nat)
    requires x < Pow2(k)
    ensures AddressBit(h * Pow2(k) + x, k + b) == AddressBit(h, b)
  {
    if k > 0 {
      var p := Pow2(k - 1);
      assert h * Pow2(k) == 2 * (h * p);
      assert (h * Pow2(k) + x) / 2 == h * p + x / 2;
      BitsAbove(h, x / 2, k - 1, b);
    } else {
      assert h * Pow2(0) == h;
    }
  }

  lemma {:induction false} BitsBelow(h: nat, x: nat, k: nat, b: nat)
    requires b < k
    ensures AddressBit(h * Pow2(k) + x, b) == AddressBit(x, b)
  {
    var p := Pow2(k - 1);
    assert h * Pow2(k) == 2 * (h * p);
    assert (h * Pow2(k) + x) / 2 == h * p + x / 2 && (h * Pow2(k) + x) % 2 == x % 2;
    if b > 0 {
      BitsBelow(h, x / 2, k - 1, b - 1);
    }
  }

  ghost predicate ZeroBits(x: nat, lo: nat, hi: nat) {
    forall b :: lo <= b < hi ==> AddressBit(x, b) == 0
  }

  lemma ZeroBitsHalf(x: nat, lo: nat, hi: nat)
    requires lo <= hi
    ensures ZeroBits(x, lo + 1, hi + 1) <==> ZeroBits(x / 2, lo, hi)
  {
    if ZeroBits(x, lo + 1, hi + 1) {
      forall b | lo <= b < hi
        ensures AddressBit(x / 2, b) == 0
      {
        assert AddressBit(x, b + 1) == 0;
      }
    }
    if ZeroBits(x / 2, lo, hi) {
      forall b | lo + 1 <= b < hi + 1
        ensures AddressBit(x, b) == 0
      {
        assert AddressBit(x / 2, b - 1) == 0;
      }
    }
  }

  /** A number below 2^hi is below 2^lo exactly if its bits lo..hi are zero. */
  lemma {:induction false} HighBitsZero(x: nat, lo: nat, hi: nat)
    requires lo <= hi && x < Pow2(hi)
    ensures x < Pow2(lo) <==> ZeroBits(x, lo, hi)
  {
    if hi > 0 {
      if lo > 0 {
        HighBitsZero(x / 2, lo - 1, hi - 1);
        ZeroBitsHalf(x, lo - 1, hi - 1);
      } else {
        HighBitsZero(x / 2, 0, hi - 1);
        ZeroBitsHalf(x, 0, hi - 1);
        if ZeroBits(x, 0, hi) {
          assert AddressBit(x, 0) == 0;
        }
      }
    }
  }

  lemma {:induction false} NoBits(b: nat)
    ensures AddressBit(0, b) == 0
    ensures AddressBit(1, b) == if b == 0 then 1 else 0
  {
    if b > 0 {
      NoBits(b - 1);
      assert 1 / 2 == 0;
    }
  }

  ghost predicate TopMatches(h: nat) {
    forall b :: 0 <= b < 8 && b != 1 ==> AddressBit(h, b) == AddressBit(1, b)
  }

  /** Only the second bit of the top byte may differ from 1. */
  lemma TopByte(h: nat)
    requires h < 0x100
    ensures TopMatches(h) <==> h == 1 || h == 3
  {
    assert Pow2(8) == 0x100 && Pow2(2) == 4;
    HighBitsZero(h, 2, 8);
    NoBits(0);
    assert AddressBit(h, 0) == h % 2;
    forall b | 2 <= b < 8
      ensures AddressBit(1, b) == 0
    {
      NoBits(b);
    }
    if TopMatches(h) {
      assert forall b :: 2 <= b < 8 ==> AddressBit(h, b) == AddressBit(1, b);
      assert AddressBit(h, 0) == AddressBit(1, 0);
    }
  }

  lemma Pow2Of24()
    ensures Pow2(24) == 0x100_0000
  {
    assert Pow2(12) == 0x1000;
    assert Pow2(15) == 8 * Pow2(12) && Pow2(18) == 8 * Pow2(15);
    assert Pow2(21) == 8 * Pow2(18) && Pow2(24) == 8 * Pow2(21);
  }

  /** Bits of an address: the top byte's and the others. */
  lemma AddressBits(ipDst: u32, b: nat)
    requires b < 32
    ensures var h, x := ipDst / 0x100_0000, ipDst % 0x100_0000;
            AddressBit(ipDst, b) == if b >= 24 then AddressBit(h, b - 24) else AddressBit(x, b)
  {
    hide AddressBit, Pow2;
    Pow2Of24();
    var h, x := ipDst / 0x100_0000, ipDst % 0x100_0000;
    assert ipDst == h * Pow2(24) + x;
    if b >= 24 {
      BitsAbove(h, x, 24, b - 24);
    } else {
      BitsBelow(h, x, 24, b);
    }
  }

  /** The pattern selects 1.x and 3.x with x below 2^(m-1). */
  lemma PatternIff(ipDst: u32, m: nat)
    requires 1 <= m <= 25
    ensures var h, x := ipDst / 0x100_0000, ipDst % 0x100_0000;
            MatchesPattern(ipDst, m) <==> (h == 1 || h == 3) && x < Pow2(m - 1)
  {
    hide AddressBit;
    var h, x := ipDst / 0x100_0000, ipDst % 0x100_0000;
    Pow2Of24();
    TopByte(h);
    HighBitsZero(x, m - 1, 24);
    forall b | 0 <= b < 32
      ensures AddressBit(ipDst, b) == if b >= 24 then AddressBit(h, b - 24) else AddressBit(x, b)
      ensures AddressBit(0x100_0000, b) == if b >= 24 then AddressBit(1, b - 24) else 0
    {
      AddressBits(ipDst, b);
      AddressBits(0x100_0000, b);
      NoBits(b);
    }
    if MatchesPattern(ipDst, m) {
      forall b | 0 <= b < 8 && b != 1
        ensures AddressBit(h, b) == AddressBit(1, b)
      {
        assert AddressBit(ipDst, b + 24) == AddressBit(0x100_0000, b + 24);
      }
      forall b | m - 1 <= b < 24
        ensures AddressBit(x, b) == 0
      {
        assert AddressBit(ipDst, b) == AddressBit(0x100_0000, b);
      }
    }
  }

  /** For 2^m entries the table holds exactly the flows that the README's pattern generates. */
  lemma KeysArePattern(t: FlowTable, m: nat, ipDst: u32)
    requires 1 <= m <= 25 && Populated(t, Pow2(m))
    ensures ConvertIpv4(FlowTo(ipDst)) in t.slots <==> MatchesPattern(ipDst, m)
  {
    hide MatchesPattern;
    PatternIff(ipDst, m);
    assert Pow2(m) == 2 * Pow2(m - 1);
    KeyInTableIff(t, Pow2(m), ipDst);
  }

  lemma KeyInTableIff(t: FlowTable, n: nat, ipDst: u32)
    requires Populated(t, n)
    ensures var h, x := ipDst / 0x100_0000, ipDst % 0x100_0000;
            ConvertIpv4(FlowTo(ipDst)) in t.slots <==> (h == 1 && x < (n + 1) / 2) || (h == 3 && x < n / 2)
  {
    PopulatedLookup(t, n, ipDst, 7);
    PopulatedLookup(t, n, ipDst, 8);
    var key := ConvertIpv4(FlowTo(ipDst));
    if key in t.slots {
      assert t.Lookup(key) >= 0;
    }
  }
}
