/** The per-port TX buffers of one lcore, updated in place. */
module TxBuffer {
  import opened Limits
  import opened TxSpec

  /** How many of the n slots from `from` on lie behind an array of the given size. */
  function Behind(size: nat, from: nat, n: nat): nat {
    if from + n <= size then 0 else if from < size then from + n - size else n
  }

  /** A group of num packets fills a buffer of len exactly, so that the flush leaves no remainder. */
  predicate ExactFill(len: nat, num: nat) {
    len + num == MAX_PKT_BURST && !(num >= MAX_TX_BURST && len == 0)
  }

  /** Reads behind a packet array of the given size, for a group at off. */
  function Strays(len: nat, num: nat, off: nat, size: nat): nat {
    if ExactFill(len, num) then Behind(size, off + num, 4) else 0
  }

  /** Some group of a burst of nbRx packets makes the copy read behind the packet array of the main loop. */
  ghost predicate MayStray(nbRx: nat) {
    exists len: nat, num: nat, off: nat ::
      && 0 < Strays(len, num, off, MAX_PKT_BURST)
      && len < MAX_PKT_BURST && 1 <= num && off + num <= nbRx
  }

  /** Bursts of up to 28 packets never do; longer ones do, for instance if their last packet is a group of its
      own for a port that has 31 packets buffered. */
  lemma MayStrayIff(nbRx: nat)
    requires nbRx <= MAX_PKT_BURST
    ensures MayStray(nbRx) <==> nbRx > MAX_PKT_BURST - 4
  {
    if nbRx > MAX_PKT_BURST - 4 {
      assert 0 < Strays(MAX_PKT_BURST - 1, 1, nbRx - 1, MAX_PKT_BURST);
    }
  }

  lemma SliceOfSlice<T>(s: seq<T>, off: nat, num: nat, n: nat)
    requires off + num <= |s| && n <= num
    ensures s[off..off + num][..n] == s[off..off + n] && s[off..off + num][n..] == s[off + n..off + num]
    ensures n + 1 == num ==> s[off + n..off + num] == [s[off + n]]
  {
  }

  /** The transmit part of `struct lcore_conf`. `log` and `freed` stand for the NIC and the packet pool: what
      rte_eth_tx_burst and rte_pktmbuf_free have been called with. `stray` stands for the memory behind a packet
      array, and `strays` counts the reads there. `tx` is the abstract state. */
  class LcoreConf<T> {
    const nic: Nic<T>
    const stray: nat -> T
    const txQueueId: seq<nat>
    const len: array<nat>
    const mTable: array2<T>
    var log: seq<TxBurst<T>>
    var freed: seq<T>
    ghost var strays: nat
    ghost var tx: Tx<T>

    ghost predicate Valid()
      reads this, len, mTable
    {
      && TxSpec.Valid(tx)
      && tx.txq == txQueueId && tx.log == log && tx.freed == freed
      && len.Length == MAX_PORTS && mTable.Length0 == MAX_PORTS && mTable.Length1 == MAX_PKT_BURST
      && (forall p :: 0 <= p < MAX_PORTS ==> len[p] == |tx.bufs[p]|)
      && (forall p, i :: 0 <= p < MAX_PORTS && 0 <= i < |tx.bufs[p]| ==> mTable[p, i] == tx.bufs[p][i])
    }

    /** All buffers start empty; filler stands for the initial contents of the tables. */
    constructor (nic: Nic<T>, txQueueId: seq<nat>, filler: T, stray: nat -> T)
      requires |txQueueId| == MAX_PORTS
      ensures Valid() && this.nic == nic && this.stray == stray && strays == 0
      ensures tx == Tx(txQueueId, [], [], seq(MAX_PORTS, i => []))
      ensures fresh(len) && fresh(mTable)
    {
      this.nic := nic;
      this.stray := stray;
      strays := 0;
      this.txQueueId := txQueueId;
      len := new nat[MAX_PORTS](i => 0);
      mTable := new T[MAX_PORTS, MAX_PKT_BURST]((p, i) => filler);
      log, freed := [], [];
      tx := Tx(txQueueId, [], [], seq(MAX_PORTS, i => []));
    }

    /** The first n slots of a port's table. */
    function Slots(port: nat, n: nat): (r: seq<T>)
      requires port < mTable.Length0 && n <= mTable.Length1
      reads mTable
      ensures |r| == n && forall i :: 0 <= i < n ==> r[i] == mTable[port, i]
    {
      seq(n, i requires 0 <= i < n reads mTable => mTable[port, i])
    }

    /** rte_eth_tx_burst: the NIC takes a prefix of its choice. */
    method EthTxBurst(port: nat, queue: nat, ms: seq<T>) returns (n: nat)
      modifies this`log
      ensures n == Accepts(nic, old(log), port, ms)
      ensures log == old(log) + [TxBurst(port, queue, ms, n)]
    {
      n := Accepts(nic, log, port, ms);
      log := log + [TxBurst(port, queue, ms, n)];
    }

    /** rte_pktmbuf_free */
    method PktmbufFree(m: T)
      modifies this`freed
      ensures freed == old(freed) + [m]
    {
      freed := freed + [m];
    }

    /** `send_burst`: offer the first n slots, which hold ms, and free what the NIC refuses. */
    method SendBurst(n: nat, port: nat, ghost ms: seq<T>)
      requires port < |txQueueId| && port < mTable.Length0 && n <= mTable.Length1
      requires ms == Slots(port, n)
      modifies this`log, this`freed
      ensures log == old(log) + [TxBurst(port, txQueueId[port], ms, Accepts(nic, old(log), port, ms))]
      ensures freed == old(freed) + ms[Accepts(nic, old(log), port, ms)..]
    {
      var queueid := txQueueId[port];
      var ret := EthTxBurst(port, queueid, Slots(port, n));
      ghost var k := ret;
      if ret < n {
        PktmbufFree(mTable[port, ret]);
        ret := ret + 1;
        while ret < n
          invariant k < ret <= n
          invariant freed == old(freed) + ms[k..ret]
          modifies this`freed
        {
          PktmbufFree(mTable[port, ret]);
          ret := ret + 1;
        }
      }
    }

    /** `send_single_packet` */
    method SendSinglePacket(m: T, port: nat)
      requires Valid() && port < MAX_PORTS
      modifies this, len, mTable
      ensures Valid() && tx == SendSingle(nic, old(tx), port, m)
    {
      var n := len[port];
      ghost var b := tx.bufs[port] + [m];
      mTable[port, n] := m;
      n := n + 1;
      if n == MAX_PKT_BURST {
        assert Slots(port, n) == b;
        SendBurst(MAX_PKT_BURST, port, b);
        n := 0;
      }
      len[port] := n;
      tx := SendSingle(nic, tx, port, m);
    }

    /** What a read of m[k] finds, behind the end of the array too. */
    function SlotAt(m: array<T>, k: nat): T
      reads m
    {
      if k < m.Length then m[k] else stray(k)
    }

    /** One slot of the copy. */
    method CopyOne(port: nat, to: nat, m: array<T>, k: nat)
      requires port < mTable.Length0 && to < mTable.Length1
      modifies mTable, this`strays
      ensures mTable[port, to] == SlotAt(m, k)
      ensures forall p, i :: 0 <= p < mTable.Length0 && 0 <= i < mTable.Length1 && !(p == port && i == to) ==>
        mTable[p, i] == old(mTable[p, i])
      ensures strays == old(strays) + Behind(m.Length, k, 1)
    {
      if k < m.Length {
        mTable[port, to] := m[k];
      } else {
        mTable[port, to] := stray(k);
        strays := strays + 1;
      }
    }

    /** One turn of the unrolled loop. */
    method CopyFour(port: nat, to: nat, m: array<T>, k: nat)
      requires port < mTable.Length0 && to + 4 <= mTable.Length1
      modifies mTable, this`strays
      ensures forall p, i :: 0 <= p < mTable.Length0 && 0 <= i < mTable.Length1 ==>
        mTable[p, i] == if p == port && to <= i < to + 4 then SlotAt(m, k + i - to) else old(mTable[p, i])
      ensures strays == old(strays) + Behind(m.Length, k, 4)
    {
      CopyOne(port, to, m, k);
      CopyOne(port, to + 1, m, k + 1);
      CopyOne(port, to + 2, m, k + 2);
      CopyOne(port, to + 3, m, k + 3);
    }

    /** The first turn: the switch enters the loop body at case n % 4, so for n = 0 all of it is run. */
    method EnterCopy(port: nat, at: nat, m: array<T>, from: nat, n: nat) returns (j: nat)
      requires port < mTable.Length0 && at + Copied(n % 4) <= mTable.Length1
      modifies mTable, this`strays
      ensures j == Copied(n % 4)
      ensures forall p, i :: 0 <= p < mTable.Length0 && 0 <= i < mTable.Length1 ==>
        mTable[p, i] == if p == port && at <= i < at + j then SlotAt(m, from + i - at) else old(mTable[p, i])
      ensures strays == old(strays) + Behind(m.Length, from, j)
    {
      j := 0;
      var entry := n % 4;
      if entry == 0 {
        CopyOne(port, at + j, m, from + j);
        j := j + 1;
      }
      if entry == 0 || entry == 3 {
        CopyOne(port, at + j, m, from + j);
        j := j + 1;
      }
      if entry == 0 || entry == 3 || entry == 2 {
        CopyOne(port, at + j, m, from + j);
        j := j + 1;
      }
      CopyOne(port, at + j, m, from + j);
      j := j + 1;
    }

    /** The unrolled copy of n slots, which copies four for n = 0. */
    method CopyIn(port: nat, at: nat, m: array<T>, from: nat, n: nat)
      requires port < mTable.Length0 && at + Copied(n) <= mTable.Length1
      modifies mTable, this`strays
      ensures forall p, i :: 0 <= p < mTable.Length0 && 0 <= i < mTable.Length1 ==>
        mTable[p, i] == if p == port && at <= i < at + Copied(n) then SlotAt(m, from + i - at) else old(mTable[p, i])
      ensures strays == old(strays) + Behind(m.Length, from, Copied(n))
    {
      var j := EnterCopy(port, at, m, from, n);
      while j < n
        invariant j <= Copied(n) && j % 4 == n % 4
        invariant forall p, i :: 0 <= p < mTable.Length0 && 0 <= i < mTable.Length1 ==>
          mTable[p, i] == if p == port && at <= i < at + j then SlotAt(m, from + i - at) else old(mTable[p, i])
        invariant strays == old(strays) + Behind(m.Length, from, j)
      {
        CopyFour(port, at + j, m, from + j);
        j := j + 4;
      }
    }

    static function Copied(n: nat): nat {
      if n == 0 then 4 else n
    }

    /** `send_packetsx4` for the packets m[off..off + num]. Exactly when a flush leaves no remainder the copy
        goes on to the four slots behind the group, wherever these are; what it finds there stays unused. */
    method SendPacketsx4(port: nat, m: array<T>, off: nat, num: nat)
      requires Valid() && port < MAX_PORTS && 1 <= num <= MAX_PKT_BURST && off + num <= m.Length
      requires m as object != len
      modifies this, len, mTable
      ensures Valid() && tx == SendGroup(nic, old(tx), port, m[off..off + num])
      ensures strays == old(strays) + Strays(old(len[port]), num, off, m.Length)
    {
      if num >= MAX_TX_BURST && len[port] == 0 {
        SendStraightAway(port, m, off, num);
      } else {
        SendThroughBuffer(port, m, off, num);
      }
    }

    /** The branch for an empty buffer and a large group. */
    method SendStraightAway(port: nat, m: array<T>, off: nat, num: nat)
      requires Valid() && port < MAX_PORTS && off + num <= m.Length
      requires num >= MAX_TX_BURST && len[port] == 0
      modifies this
      ensures Valid() && tx == SendGroup(nic, old(tx), port, m[off..off + num]) && strays == old(strays)
    {
      ghost var ms := m[off..off + num];
      var n := EthTxBurst(port, txQueueId[port], m[off..off + num]);
      SliceOfSlice(m[..], off, num, n);
      if n < num {
        FreeFrom(m, off + n, off + num);
      }
      tx := SendGroup(nic, tx, port, ms);
    }

    /** The do-while loop that frees what the NIC has refused. */
    method FreeFrom(m: array<T>, from: nat, to: nat)
      requires from < to <= m.Length
      modifies this`freed
      ensures freed == old(freed) + m[from..to]
    {
      PktmbufFree(m[from]);
      var n := from + 1;
      while n < to
        invariant from < n <= to
        invariant freed == old(freed) + m[from..n]
      {
        SliceOfSlice(m[..], from, n + 1 - from, n - from);
        PktmbufFree(m[n]);
        n := n + 1;
      }
    }

    /** A copy appends the packets to what the first slots hold, and keeps the other ports' slots. */
    method AppendSlots(port: nat, at: nat, m: array<T>, from: nat, n: nat, ghost b: seq<T>)
      requires port < mTable.Length0 && at + Copied(n) <= mTable.Length1 && from + n <= m.Length
      requires b == Slots(port, at)
      modifies mTable, this`strays
      ensures Slots(port, at + n) == b + m[from..from + n]
      ensures forall p, i :: 0 <= p < mTable.Length0 && 0 <= i < mTable.Length1 && p != port ==>
        mTable[p, i] == old(mTable[p, i])
      ensures strays == old(strays) + Behind(m.Length, from, Copied(n))
    {
      CopyIn(port, at, m, from, n);
    }

    /** The fields are as the abstract state t says, but for the buffer of one port. */
    ghost predicate ValidBut(port: nat, t: Tx<T>)
      reads this, len, mTable
    {
      && TxSpec.Valid(t)
      && t.txq == txQueueId && t.log == log && t.freed == freed
      && len.Length == MAX_PORTS && mTable.Length0 == MAX_PORTS && mTable.Length1 == MAX_PKT_BURST
      && (forall p :: 0 <= p < MAX_PORTS && p != port ==> len[p] == |t.bufs[p]|)
      && (forall p, i :: 0 <= p < MAX_PORTS && p != port && 0 <= i < |t.bufs[p]| ==> mTable[p, i] == t.bufs[p][i])
    }

    /** As much of the group as fits is put behind the buffered packets. */
    method Fill(port: nat, m: array<T>, off: nat, num: nat) returns (n: nat, l: nat)
      requires Valid() && port < MAX_PORTS && 1 <= num <= MAX_PKT_BURST && off + num <= m.Length
      modifies mTable, this`strays
      ensures n == (if len[port] + num > MAX_PKT_BURST then MAX_PKT_BURST - len[port] else num)
      ensures l == len[port] + n <= MAX_PKT_BURST && ValidBut(port, tx)
      ensures Slots(port, l) == tx.bufs[port] + m[off..off + n]
      ensures strays == old(strays)
    {
      l := len[port];
      n := l + num;
      n := if n > MAX_PKT_BURST then MAX_PKT_BURST - l else num;
      assert Slots(port, l) == tx.bufs[port];
      AppendSlots(port, l, m, off, n, tx.bufs[port]);
      l := l + n;
    }

    /** The flush of a full buffer, and the copy of what is left of the group. */
    method FlushAndRefill(port: nat, m: array<T>, from: nat, rest: nat, ghost full: seq<T>)
      requires port < MAX_PORTS && ValidBut(port, tx)
      requires full == Slots(port, MAX_PKT_BURST) && rest < MAX_PKT_BURST && from + rest <= m.Length
      modifies this`log, this`freed, this`strays, this`tx, mTable
      ensures tx == Offer(nic, old(tx), port, full) && ValidBut(port, tx)
      ensures Slots(port, rest) == m[from..from + rest]
      ensures strays == old(strays) + Behind(m.Length, from, Copied(rest))
    {
      SendBurst(MAX_PKT_BURST, port, full);
      tx := Offer(nic, tx, port, full);
      AppendSlots(port, 0, m, from, rest, []);
    }

    /** The branch through the buffer, with at most one flush. */
    method SendThroughBuffer(port: nat, m: array<T>, off: nat, num: nat)
      requires Valid() && port < MAX_PORTS && 1 <= num <= MAX_PKT_BURST && off + num <= m.Length
      requires m as object != len
      requires !(num >= MAX_TX_BURST && len[port] == 0)
      modifies this, len, mTable
      ensures Valid() && tx == SendGroup(nic, old(tx), port, m[off..off + num])
      ensures strays == old(strays) + Strays(old(len[port]), num, off, m.Length)
    {
      hide Offer, Accepts;
      ghost var ms := m[off..off + num];
      var n, l := Fill(port, m, off, num);
      SliceOfSlice(m[..], off, num, n);
      ghost var b := tx.bufs[port] + ms[..n];
      if l == MAX_PKT_BURST {
        l := num - n;
        FlushAndRefill(port, m, off + n, l, b);
        b := ms[n..];
      }
      StoreLen(port, l, b);
    }

    /** The store of the new length makes b the buffer of the port. */
    method StoreLen(port: nat, l: nat, ghost b: seq<T>)
      requires port < MAX_PORTS && ValidBut(port, tx) && l < MAX_PKT_BURST && b == Slots(port, l)
      modifies this`tx, len
      ensures Valid() && tx == SetBuf(old(tx), port, b)
    {
      len[port] := l;
      tx := SetBuf(tx, port, b);
    }

    /** The TX drain of the main loop over `tx_port_id[..n_tx_port]`. */
    method DrainPorts(txPortId: seq<nat>)
      requires Valid() && forall i :: 0 <= i < |txPortId| ==> txPortId[i] < MAX_PORTS
      modifies this, len
      ensures Valid() && tx == Drain(nic, old(tx), txPortId)
    {
      for i := 0 to |txPortId|
        invariant Valid()
        invariant Drain(nic, tx, txPortId[i..]) == Drain(nic, old(tx), txPortId)
      {
        var portid := txPortId[i];
        if len[portid] != 0 {
          assert Slots(portid, len[portid]) == tx.bufs[portid];
          SendBurst(len[portid], portid, tx.bufs[portid]);
          len[portid] := 0;
          tx := SetBuf(Offer(nic, tx, portid, tx.bufs[portid]), portid, []);
        }
      }
    }
  }
}
