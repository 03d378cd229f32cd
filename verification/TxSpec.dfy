/** What transmission does to the abstract state of one lcore: the bursts offered to the NIC, the packets
    handed back to the pool, and the packets that wait in the per-port TX buffers. The NIC may accept any
    prefix of any burst. */
module TxSpec {

  import opened Limits

  /** One call of rte_eth_tx_burst and the number of packets it accepted. */
  datatype TxBurst<T> = TxBurst(port: nat, queue: nat, pkts: seq<T>, sent: nat)

  /** How the NIC answers the next burst, given everything it has been offered so far. */
  type Nic<!T> = (seq<TxBurst<T>>, nat, seq<T>) -> nat

  /** txq maps a port to this lcore's TX queue on it, bufs holds `m_table[..len]` of each port. */
  datatype Tx<T> = Tx(txq: seq<nat>, log: seq<TxBurst<T>>, freed: seq<T>, bufs: seq<seq<T>>)

  ghost predicate Valid<T>(s: Tx<T>) {
    && |s.txq| == |s.bufs| == MAX_PORTS
    && (forall p :: 0 <= p < MAX_PORTS ==> |s.bufs[p]| < MAX_PKT_BURST)
    && (forall i :: 0 <= i < |s.log| ==> s.log[i].port < MAX_PORTS && s.log[i].sent <= |s.log[i].pkts|)
  }

  function Accepts<T>(nic: Nic<T>, log: seq<TxBurst<T>>, port: nat, ms: seq<T>): (n: nat)
    ensures n <= |ms| && (nic(log, port, ms) <= |ms| ==> n == nic(log, port, ms))
  {
    var n := nic(log, port, ms);
    if n <= |ms| then n else |ms|
  }

  // ----- the operations

  /** Offer ms to the NIC and free what it does not take. */
  function Offer<T>(nic: Nic<T>, s: Tx<T>, port: nat, ms: seq<T>): Tx<T>
    requires port < |s.txq|
  {
    var n := Accepts(nic, s.log, port, ms);
    s.(log := s.log + [TxBurst(port, s.txq[port], ms, n)], freed := s.freed + ms[n..])
  }

  function SetBuf<T>(s: Tx<T>, port: nat, b: seq<T>): Tx<T>
    requires port < |s.bufs|
  {
    s.(bufs := s.bufs[port := b])
  }

  function Free<T>(s: Tx<T>, ms: seq<T>): Tx<T> {
    s.(freed := s.freed + ms)
  }

  /** `send_single_packet` */
  function SendSingle<T>(nic: Nic<T>, s: Tx<T>, port: nat, m: T): Tx<T>
    requires port < MAX_PORTS == |s.txq| == |s.bufs|
  {
    var b := s.bufs[port] + [m];
    if |b| == MAX_PKT_BURST then SetBuf(Offer(nic, s, port, b), port, []) else SetBuf(s, port, b)
  }

  /** `send_packetsx4`: a direct send, or one append that flushes when the buffer fills up. */
  function SendGroup<T>(nic: Nic<T>, s: Tx<T>, port: nat, ms: seq<T>): Tx<T>
    requires port < MAX_PORTS == |s.txq| == |s.bufs| && |s.bufs[port]| < MAX_PKT_BURST
  {
    var b := s.bufs[port];
    if |ms| >= MAX_TX_BURST && b == [] then Offer(nic, s, port, ms)
    else if |b| + |ms| < MAX_PKT_BURST then SetBuf(s, port, b + ms)
    else
      var n := MAX_PKT_BURST - |b|;
      SetBuf(Offer(nic, s, port, b + ms[..n]), port, ms[n..])
  }

  /** The drain of one port. */
  function DrainOne<T>(nic: Nic<T>, s: Tx<T>, port: nat): Tx<T>
    requires port < MAX_PORTS == |s.txq| == |s.bufs|
  {
    if s.bufs[port] == [] then s else SetBuf(Offer(nic, s, port, s.bufs[port]), port, [])
  }

  /** One pass of the drain over the listed ports. */
  function Drain<T>(nic: Nic<T>, s: Tx<T>, ports: seq<nat>): Tx<T>
    requires MAX_PORTS == |s.txq| == |s.bufs|
    requires forall i :: 0 <= i < |ports| ==> ports[i] < MAX_PORTS
    decreases |ports|
  {
    if ports == [] then s else Drain(nic, DrainOne(nic, s, ports[0]), ports[1..])
  }

  /** Packet by packet enqueueing. */
  function SendEach<T>(nic: Nic<T>, s: Tx<T>, port: nat, ms: seq<T>): Tx<T>
    requires port < MAX_PORTS == |s.txq| == |s.bufs|
    decreases |ms|
  {
    if ms == [] then s else SendEach(nic, SendSingle(nic, s, port, ms[0]), port, ms[1..])
  }

  // ----- what is observed

  /** Everything offered to a port, in order. */
  function Offered<T>(log: seq<TxBurst<T>>, port: nat): seq<T>
    decreases |log|
  {
    if log == [] then []
    else
      var b := log[|log| - 1];
      Offered(log[..|log| - 1], port) + if b.port == port then b.pkts else []
  }

  /** Offered, then buffered: the order in which the port's packets leave. */
  function Line<T>(s: Tx<T>, port: nat): seq<T>
    requires port < |s.bufs|
  {
    Offered(s.log, port) + s.bufs[port]
  }

  /** Number of times x occurs in ms. */
  ghost function Count<T>(ms: seq<T>, x: T): nat {
    multiset(ms)[x]
  }

  lemma CountConcat<T>(a: seq<T>, b: seq<T>, x: T)
    ensures Count(a + b, x) == Count(a, x) + Count(b, x)
  {
  }

  lemma CountSplit<T>(ms: seq<T>, n: nat, x: T)
    requires n <= |ms|
    ensures Count(ms, x) == Count(ms[..n], x) + Count(ms[n..], x)
  {
    assert ms == ms[..n] + ms[n..];
  }

  /** How often the NIC has taken x over. */
  ghost function Accepted<T>(log: seq<TxBurst<T>>, x: T): nat
    requires forall i :: 0 <= i < |log| ==> log[i].sent <= |log[i].pkts|
    decreases |log|
  {
    if log == [] then 0
    else
      var b := log[|log| - 1];
      Accepted(log[..|log| - 1], x) + Count(b.pkts[..b.sent], x)
  }

  /** How often the NIC has refused x. */
  ghost function Refused<T>(log: seq<TxBurst<T>>, x: T): nat
    requires forall i :: 0 <= i < |log| ==> log[i].sent <= |log[i].pkts|
    decreases |log|
  {
    if log == [] then 0
    else
      var b := log[|log| - 1];
      Refused(log[..|log| - 1], x) + Count(b.pkts[b.sent..], x)
  }

  ghost function Buffered<T>(bufs: seq<seq<T>>, x: T): nat
    decreases |bufs|
  {
    if bufs == [] then 0 else Buffered(bufs[..|bufs| - 1], x) + Count(bufs[|bufs| - 1], x)
  }

  /** In how many places x is: accepted by the NIC, freed, or buffered. */
  ghost function Holding<T>(s: Tx<T>, x: T): nat
    requires Valid(s)
  {
    Accepted(s.log, x) + Count(s.freed, x) + Buffered(s.bufs, x)
  }

  /** How often x was freed without having been offered to the NIC. */
  ghost function Dropped<T>(s: Tx<T>, x: T): int
    requires Valid(s)
  {
    Count(s.freed, x) - Refused(s.log, x)
  }

  // ----- one operation at a time

  lemma CountsSnoc<T>(log: seq<TxBurst<T>>, b: TxBurst<T>, x: T)
    requires forall i :: 0 <= i < |log| ==> log[i].sent <= |log[i].pkts|
    requires b.sent <= |b.pkts|
    ensures Accepted(log + [b], x) == Accepted(log, x) + Count(b.pkts[..b.sent], x)
    ensures Refused(log + [b], x) == Refused(log, x) + Count(b.pkts[b.sent..], x)
  {
  }

  lemma {:induction false} BufferedUpdate<T>(bufs: seq<seq<T>>, p: nat, b: seq<T>, x: T)
    requires p < |bufs|
    ensures Buffered(bufs[p := b], x) + Count(bufs[p], x) == Buffered(bufs, x) + Count(b, x)
    decreases |bufs|
  {
    var n := |bufs| - 1;
    if p == n {
      assert bufs[p := b][..n] == bufs[..n];
    } else {
      assert bufs[p := b][..n] == bufs[..n][p := b];
      BufferedUpdate(bufs[..n], p, b, x);
    }
  }

  lemma OfferCounts<T>(nic: Nic<T>, s: Tx<T>, p: nat, ms: seq<T>, x: T)
    requires Valid(s) && p < MAX_PORTS
    ensures var s' := Offer(nic, s, p, ms);
            && Valid(s')
            && Holding(s', x) == Holding(s, x) + Count(ms, x)
            && Dropped(s', x) == Dropped(s, x)
  {
    var n := Accepts(nic, s.log, p, ms);
    CountsSnoc(s.log, TxBurst(p, s.txq[p], ms, n), x);
    CountSplit(ms, n, x);
    CountConcat(s.freed, ms[n..], x);
  }

  /** Offering ms and leaving rest in the buffer. */
  lemma OfferThenSet<T>(nic: Nic<T>, s: Tx<T>, p: nat, ms: seq<T>, rest: seq<T>)
    requires Valid(s) && p < MAX_PORTS && |rest| < MAX_PKT_BURST
    ensures var s' := SetBuf(Offer(nic, s, p, ms), p, rest);
            && Valid(s')
            && Line(s', p) == Offered(s.log, p) + ms + rest
            && (forall q :: 0 <= q < MAX_PORTS && q != p ==> Line(s', q) == Line(s, q))
  {
  }

  lemma OfferThenSetCounts<T>(nic: Nic<T>, s: Tx<T>, p: nat, ms: seq<T>, rest: seq<T>, x: T)
    requires Valid(s) && p < MAX_PORTS && |rest| < MAX_PKT_BURST
    ensures var s' := SetBuf(Offer(nic, s, p, ms), p, rest);
            && Valid(s')
            && Holding(s', x) + Count(s.bufs[p], x) == Holding(s, x) + Count(ms, x) + Count(rest, x)
            && Dropped(s', x) == Dropped(s, x)
  {
    OfferCounts(nic, s, p, ms, x);
    BufferedUpdate(s.bufs, p, rest, x);
  }

  lemma SetCounts<T>(s: Tx<T>, p: nat, b: seq<T>, x: T)
    requires Valid(s) && p < MAX_PORTS && |b| < MAX_PKT_BURST
    ensures var s' := SetBuf(s, p, b);
            && Valid(s')
            && Holding(s', x) + Count(s.bufs[p], x) == Holding(s, x) + Count(b, x)
            && Dropped(s', x) == Dropped(s, x)
  {
    BufferedUpdate(s.bufs, p, b, x);
  }

  // ----- a group of packets

  /** Sending a group appends it to the port's line, leaves the other lines alone and restores the bound on
      the buffer: a direct send never overtakes a buffered packet. */
  lemma SendGroupAppends<T>(nic: Nic<T>, s: Tx<T>, p: nat, ms: seq<T>)
    requires Valid(s) && p < MAX_PORTS && |ms| <= MAX_PKT_BURST
    ensures var s' := SendGroup(nic, s, p, ms);
            && Valid(s')
            && Line(s', p) == Line(s, p) + ms
            && (forall q :: 0 <= q < MAX_PORTS && q != p ==> Line(s', q) == Line(s, q))
  {
    hide Offered;
    var b := s.bufs[p];
    if |ms| >= MAX_TX_BURST && b == [] {
      OfferThenSet(nic, s, p, ms, []);
      var s' := Offer(nic, s, p, ms);
      assert s'.bufs[p := []] == s'.bufs;
      assert Line(s, p) == Offered(s.log, p);
    } else if |b| + |ms| < MAX_PKT_BURST {
      assert Offered(s.log, p) + b + ms == Offered(s.log, p) + (b + ms);
    } else {
      var n := MAX_PKT_BURST - |b|;
      OfferThenSet(nic, s, p, b + ms[..n], ms[n..]);
      assert Offered(s.log, p) + (b + ms[..n]) + ms[n..] == Offered(s.log, p) + b + ms;
    }
  }

  lemma SendGroupCounts<T>(nic: Nic<T>, s: Tx<T>, p: nat, ms: seq<T>, x: T)
    requires Valid(s) && p < MAX_PORTS && |ms| <= MAX_PKT_BURST
    ensures var s' := SendGroup(nic, s, p, ms);
            && Valid(s')
            && Holding(s', x) == Holding(s, x) + Count(ms, x)
            && Dropped(s', x) == Dropped(s, x)
  {
    var b := s.bufs[p];
    var s' := SendGroup(nic, s, p, ms);
    if |ms| >= MAX_TX_BURST && b == [] {
      assert s' == Offer(nic, s, p, ms);
      OfferCounts(nic, s, p, ms, x);
    } else if |b| + |ms| < MAX_PKT_BURST {
      assert s' == SetBuf(s, p, b + ms);
      hide SendGroup, SetBuf, Holding, Dropped, Count;
      SetCounts(s, p, b + ms, x);
      CountConcat(b, ms, x);
    } else {
      var n := MAX_PKT_BURST - |b|;
      assert s' == SetBuf(Offer(nic, s, p, b + ms[..n]), p, ms[n..]);
      hide SendGroup, SetBuf, Offer, Holding, Dropped, Count;
      OfferThenSetCounts(nic, s, p, b + ms[..n], ms[n..], x);
      CountSplit(ms, n, x);
      CountConcat(b, ms[..n], x);
    }
  }

  /** A single enqueue does what a group of one does. */
  lemma SendSingleIsGroup<T>(nic: Nic<T>, s: Tx<T>, p: nat, m: T)
    requires Valid(s) && p < MAX_PORTS
    ensures SendSingle(nic, s, p, m) == SendGroup(nic, s, p, [m])
  {
    var b := s.bufs[p];
    if |b| + 1 == MAX_PKT_BURST {
      assert [m][..1] == [m] && [m][1..] == [];
    }
  }

  /** Reaching a full buffer: `send_packetsx4` and the single enqueues flush at the same packet. */
  lemma {:induction false} SinglesFlush<T>(nic: Nic<T>, s: Tx<T>, p: nat, ms: seq<T>)
    requires Valid(s) && p < MAX_PORTS && |ms| <= MAX_PKT_BURST <= |s.bufs[p]| + |ms|
    ensures var n := MAX_PKT_BURST - |s.bufs[p]|;
            SendEach(nic, s, p, ms) == SetBuf(Offer(nic, s, p, s.bufs[p] + ms[..n]), p, ms[n..])
  {
    var b := s.bufs[p];
    var n := MAX_PKT_BURST - |b|;
    SinglesSplit(nic, s, p, ms[..n - 1], ms[n - 1..]);
    assert ms == ms[..n - 1] + ms[n - 1..];
    SinglesFit(nic, s, p, ms[..n - 1]);
    var s1 := SendEach(nic, s, p, ms[..n - 1]);
    var s2 := SendSingle(nic, s1, p, ms[n - 1]);
    assert b + ms[..n - 1] + [ms[n - 1]] == b + ms[..n];
    assert ms[n - 1..][1..] == ms[n..];
    assert SendEach(nic, s1, p, ms[n - 1..]) == SendEach(nic, s2, p, ms[n..]);
    assert s2.bufs == s.bufs[p := []];
    SinglesFit(nic, s2, p, ms[n..]);
    assert [] + ms[n..] == ms[n..];
  }

  /** `send_packetsx4` ends in exactly the state that enqueueing the packets one by one reaches, with the same
      bursts offered to the same NIC, unless it takes the direct path with less than a full burst. */
  lemma GroupIsSinglesIff<T>(nic: Nic<T>, s: Tx<T>, p: nat, ms: seq<T>)
    requires Valid(s) && p < MAX_PORTS && |ms| <= MAX_PKT_BURST
    ensures SendGroup(nic, s, p, ms) == SendEach(nic, s, p, ms)
            <==> !(s.bufs[p] == [] && MAX_TX_BURST <= |ms| < MAX_PKT_BURST)
  {
    hide SendEach;
    var b := s.bufs[p];
    if |b| + |ms| < MAX_PKT_BURST {
      SinglesFit(nic, s, p, ms);
      if b == [] && |ms| >= MAX_TX_BURST {
        assert |SendGroup(nic, s, p, ms).log| == |s.log| + 1;
      }
    } else {
      SinglesFlush(nic, s, p, ms);
      if b == [] {
        assert ms[..MAX_PKT_BURST] == ms && [] + ms == ms && ms[MAX_PKT_BURST..] == [];
        assert s.bufs[p := []] == s.bufs;
      }
    }
  }

  /** When a group reaches the NIC: at once and alone if it has at least 16 packets and nothing is buffered;
      otherwise as soon as 32 packets are there, in a burst of 32; else not yet. */
  lemma GroupOffersIff<T>(nic: Nic<T>, s: Tx<T>, p: nat, ms: seq<T>)
    requires Valid(s) && p < MAX_PORTS && |ms| <= 32
    ensures var b, log := s.bufs[p], SendGroup(nic, s, p, ms).log;
            if b == [] && |ms| >= 16 then |log| == |s.log| + 1 && log[|s.log|].pkts == ms
            else if |b| + |ms| >= 32 then |log| == |s.log| + 1 && log[|s.log|].pkts == (b + ms)[..32]
            else log == s.log
  {
    var b := s.bufs[p];
    if !(b == [] && |ms| >= 16) && |b| + |ms| >= 32 {
      assert b + ms[..32 - |b|] == (b + ms)[..32];
    }
  }

  lemma {:induction false} SendEachAppends<T>(nic: Nic<T>, s: Tx<T>, p: nat, ms: seq<T>, q: nat)
    requires Valid(s) && p < MAX_PORTS && q < MAX_PORTS
    ensures var s' := SendEach(nic, s, p, ms);
            Valid(s') && Line(s', q) == Line(s, q) + if q == p then ms else []
    decreases |ms|
  {
    if ms == [] {
      assert Line(s, q) + [] == Line(s, q);
    } else {
      var s' := SendSingle(nic, s, p, ms[0]);
      SendSingleIsGroup(nic, s, p, ms[0]);
      SendGroupAppends(nic, s, p, [ms[0]]);
      SendEachAppends(nic, s', p, ms[1..], q);
      assert Line(s, q) + [ms[0]] + ms[1..] == Line(s, q) + ms;
    }
  }

  /** In every case, and for any two NICs, both leave the same packets offered or buffered in the same order,
      and no full buffer. */
  lemma GroupRefinesSingles<T>(nic: Nic<T>, nic': Nic<T>, s: Tx<T>, p: nat, ms: seq<T>, q: nat)
    requires Valid(s) && p < MAX_PORTS && |ms| <= MAX_PKT_BURST && q < MAX_PORTS
    ensures var s1, s2 := SendGroup(nic, s, p, ms), SendEach(nic', s, p, ms);
            && Valid(s1) && Valid(s2) && Line(s1, q) == Line(s2, q)
  {
    SendGroupAppends(nic, s, p, ms);
    SendEachAppends(nic', s, p, ms, q);
  }

  lemma {:induction false} SinglesFit<T>(nic: Nic<T>, s: Tx<T>, p: nat, ms: seq<T>)
    requires |s.txq| == |s.bufs| == MAX_PORTS && p < MAX_PORTS && |s.bufs[p]| + |ms| < MAX_PKT_BURST
    ensures SendEach(nic, s, p, ms) == SetBuf(s, p, s.bufs[p] + ms)
    decreases |ms|
  {
    if ms == [] {
      assert s.bufs[p] + ms == s.bufs[p];
      assert s.bufs[p := s.bufs[p]] == s.bufs;
    } else {
      var s' := SendSingle(nic, s, p, ms[0]);
      SinglesFit(nic, s', p, ms[1..]);
      assert s.bufs[p] + [ms[0]] + ms[1..] == s.bufs[p] + ms;
    }
  }

  lemma {:induction false} SinglesSplit<T>(nic: Nic<T>, s: Tx<T>, p: nat, a: seq<T>, b: seq<T>)
    requires |s.txq| == |s.bufs| == MAX_PORTS && p < MAX_PORTS
    ensures var s' := SendEach(nic, s, p, a);
            && |s'.txq| == |s'.bufs| == MAX_PORTS
            && SendEach(nic, s, p, a + b) == SendEach(nic, s', p, b)
    decreases |a|
  {
    if a == [] {
      assert a + b == b;
    } else {
      assert (a + b)[1..] == a[1..] + b;
      SinglesSplit(nic, SendSingle(nic, s, p, a[0]), p, a[1..], b);
    }
  }
}
