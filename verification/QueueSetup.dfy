/** Start-up of l3fwd: which lcore polls which RX queue, which TX queue it uses on each port, and which ports
    it drains. */
module QueueSetup {
  import opened Bytes
  import opened Limits
  import opened Wrappers
  import opened Lcores
  import opened Dispatch
  import ExactMatch

  const MAX_LCORE := 128
  const MAX_RX_QUEUE_PER_LCORE := 16
  const MAX_RX_QUEUE_PER_PORT := 128

  /** One (port,queue,lcore) triple of the configuration. */
  datatype LcoreParams = LcoreParams(portId: byte, queueId: byte, lcoreId: byte)

  // ----- counting

  function CountPort(ps: seq<LcoreParams>, port: nat): nat {
    if ps == [] then 0
    else CountPort(ps[..|ps| - 1], port) + if ps[|ps| - 1].portId == port then 1 else 0
  }

  function CountLcore(ps: seq<LcoreParams>, lcore: nat): nat {
    if ps == [] then 0
    else CountLcore(ps[..|ps| - 1], lcore) + if ps[|ps| - 1].lcoreId == lcore then 1 else 0
  }

  /** The queues an lcore is given, in order of the list. */
  function Assigned(ps: seq<LcoreParams>, lcore: nat): (r: seq<(byte, byte)>)
    ensures |r| == CountLcore(ps, lcore)
  {
    if ps == [] then []
    else
      var x := ps[|ps| - 1];
      Assigned(ps[..|ps| - 1], lcore) + if x.lcoreId == lcore then [(x.portId, x.queueId)] else []
  }

  /** The queue ids of a port count up from zero. */
  predicate InSequence(ps: seq<LcoreParams>, port: nat) {
    forall k :: 0 <= k < |ps| && ps[k].portId == port ==> ps[k].queueId == CountPort(ps[..k], port)
  }

  lemma Prefix(ps: seq<LcoreParams>, i: nat)
    requires i < |ps|
    ensures ps[..i + 1][..i] == ps[..i] && |ps[..i + 1]| == i + 1 && ps[..i + 1][i] == ps[i]
  {
  }

  // ----- the start-up checks

  /** `check_port_config`; the shift count is taken modulo 32, as the processor does. */
  method CheckPortConfig(ps: seq<LcoreParams>, mask: bv32, nbPorts: nat) returns (r: int)
    requires nbPorts <= MAX_PORTS
    ensures r == 0 || r == -1
    ensures r == 0 <==> forall i :: 0 <= i < |ps| ==> ps[i].portId < nbPorts && ExactMatch.PortBit(mask, ps[i].portId)
  {
    for i := 0 to |ps|
      invariant forall k :: 0 <= k < i ==> ps[k].portId < nbPorts && ExactMatch.PortBit(mask, ps[k].portId)
    {
      var portid := ps[i].portId;
      if !ExactMatch.PortBit(mask, portid as nat % MAX_PORTS) {
        return -1;
      }
      if portid >= nbPorts {
        return -1;
      }
    }
    return 0;
  }

  /** `check_lcore_params` */
  method CheckLcoreParams(ps: seq<LcoreParams>, enabled: seq<bool>) returns (r: int)
    requires |enabled| == MAX_LCORE
    ensures r == 0 <==> forall i :: 0 <= i < |ps| ==>
      ps[i].queueId < MAX_RX_QUEUE_PER_PORT && ps[i].lcoreId < MAX_LCORE && enabled[ps[i].lcoreId]
  {
    for i := 0 to |ps|
      invariant forall k :: 0 <= k < i ==>
        ps[k].queueId < MAX_RX_QUEUE_PER_PORT && ps[k].lcoreId < MAX_LCORE && enabled[ps[k].lcoreId]
    {
      if ps[i].queueId >= MAX_RX_QUEUE_PER_PORT {
        return -1;
      }
      if ps[i].lcoreId >= MAX_LCORE || !enabled[ps[i].lcoreId] {
        return -1;
      }
    }
    return 0;
  }

  /** `get_port_n_rx_queues`: the program exit becomes None. The result has eight bits, so it is the number of
      queues unless there are 256 of them. */
  method GetPortNRxQueues(ps: seq<LcoreParams>, port: byte) returns (r: Option<byte>)
    ensures r.Some? <==> InSequence(ps, port)
    ensures r.Some? ==> CountPort(ps, port) <= 0x100
    ensures r.Some? ==> (r.value == CountPort(ps, port) <==> CountPort(ps, port) != 0x100)
  {
    var queue: int := -1;
    for i := 0 to |ps|
      invariant queue + 1 == CountPort(ps[..i], port) && queue <= 0xff
      invariant forall k :: 0 <= k < i && ps[k].portId == port ==> ps[k].queueId == CountPort(ps[..k], port)
    {
      Prefix(ps, i);
      if ps[i].portId == port {
        if ps[i].queueId as int == queue + 1 {
          queue := ps[i].queueId;
        } else {
          return None;
        }
      }
    }
    assert ps[..|ps|] == ps;
    queue := queue + 1;
    return Some(queue % 0x100);
  }

  /** check_lcore_params excludes that case. */
  lemma {:induction false} AtMost128Queues(ps: seq<LcoreParams>, port: byte)
    requires InSequence(ps, port)
    requires forall i :: 0 <= i < |ps| ==> ps[i].queueId < MAX_RX_QUEUE_PER_PORT
    ensures CountPort(ps, port) <= MAX_RX_QUEUE_PER_PORT
  {
    if ps != [] {
      var n := |ps| - 1;
      assert forall k :: 0 <= k < n ==> ps[..n][..k] == ps[..k];
      AtMost128Queues(ps[..n], port);
    }
  }

  // ----- RX queues

  /** `lcore_conf[l].n_rx_queue` and `lcore_conf[l].rx_queue_list`. */
  class RxConf {
    const nRxQueue: array<nat>
    const rxQueueList: array2<(byte, byte)>

    constructor ()
      ensures Holds([]) && fresh(nRxQueue) && fresh(rxQueueList)
    {
      nRxQueue := new nat[MAX_LCORE](i => 0);
      rxQueueList := new (byte, byte)[MAX_LCORE, MAX_RX_QUEUE_PER_LCORE]((i, j) => (0, 0));
    }

    /** The lists hold what ps assigns. */
    ghost predicate Holds(ps: seq<LcoreParams>)
      reads nRxQueue, rxQueueList
    {
      && nRxQueue.Length == rxQueueList.Length0 == MAX_LCORE && rxQueueList.Length1 == MAX_RX_QUEUE_PER_LCORE
      && (forall l :: 0 <= l < MAX_LCORE ==> nRxQueue[l] == |Assigned(ps, l)| <= MAX_RX_QUEUE_PER_LCORE)
      && (forall l, i :: 0 <= l < MAX_LCORE && 0 <= i < |Assigned(ps, l)| ==> rxQueueList[l, i] == Assigned(ps, l)[i])
    }

    /** `init_lcore_rx_queues`: it succeeds exactly if no lcore gets more than 16 queues. */
    method InitLcoreRxQueues(ps: seq<LcoreParams>) returns (r: int)
      requires Holds([]) && forall i :: 0 <= i < |ps| ==> ps[i].lcoreId < MAX_LCORE
      modifies nRxQueue, rxQueueList
      ensures r == 0 <==> forall l :: 0 <= l < MAX_LCORE ==> CountLcore(ps, l) <= MAX_RX_QUEUE_PER_LCORE
      ensures r == 0 ==> Holds(ps)
    {
      for i := 0 to |ps|
        invariant Holds(ps[..i])
      {
        Prefix(ps, i);
        var lcore := ps[i].lcoreId;
        var nb := nRxQueue[lcore];
        if nb >= MAX_RX_QUEUE_PER_LCORE {
          CountGrows(ps, i + 1, lcore);
          return -1;
        }
        Append(ps[i], ps[..i], ps[..i + 1]);
      }
      assert ps[..|ps|] == ps;
      assert forall l :: 0 <= l < MAX_LCORE ==> CountLcore(ps, l) == nRxQueue[l];
      return 0;
    }

    /** One more entry for its lcore. */
    method Append(x: LcoreParams, ghost before: seq<LcoreParams>, ghost after: seq<LcoreParams>)
      requires Holds(before) && |after| == |before| + 1 && after[..|before|] == before && after[|before|] == x
      requires x.lcoreId < MAX_LCORE && nRxQueue[x.lcoreId] < MAX_RX_QUEUE_PER_LCORE
      modifies nRxQueue, rxQueueList
      ensures Holds(after)
    {
      var lcore := x.lcoreId;
      var nb := nRxQueue[lcore];
      rxQueueList[lcore, nb] := (x.portId, x.queueId);
      nRxQueue[lcore] := nb + 1;
    }
  }

  lemma {:induction false} CountGrows(ps: seq<LcoreParams>, i: nat, lcore: nat)
    requires i <= |ps|
    ensures CountLcore(ps, lcore) >= CountLcore(ps[..i], lcore)
    decreases |ps|
  {
    if i < |ps| {
      var n := |ps| - 1;
      assert ps[..n][..i] == ps[..i];
      CountGrows(ps[..n], i, lcore);
    } else {
      assert ps[..i] == ps;
    }
  }

  // ----- ownership

  /** Entry k of the list is what its lcore got at the position that counts the lcore's earlier entries. */
  lemma {:induction false} EntryIsAssigned(ps: seq<LcoreParams>, k: nat)
    requires k < |ps|
    ensures var l := ps[k].lcoreId; var i := CountLcore(ps[..k], l);
            i < |Assigned(ps, l)| && Assigned(ps, l)[i] == (ps[k].portId, ps[k].queueId)
    decreases |ps|
  {
    var n := |ps| - 1;
    if k < n {
      EntryIsAssigned(ps[..n], k);
      assert ps[..n][..k] == ps[..k];
    }
  }

  /** Every assigned queue comes from an entry of the list. */
  lemma {:induction false} AssignedIsEntry(ps: seq<LcoreParams>, l: nat, i: nat) returns (k: nat)
    requires i < |Assigned(ps, l)|
    ensures k < |ps| && ps[k].lcoreId == l && i == CountLcore(ps[..k], l)
    ensures Assigned(ps, l)[i] == (ps[k].portId, ps[k].queueId)
    decreases |ps|
  {
    var n := |ps| - 1;
    if i < |Assigned(ps[..n], l)| {
      k := AssignedIsEntry(ps[..n], l, i);
      assert ps[..n][..k] == ps[..k];
    } else {
      k := n;
    }
  }

  lemma {:induction false} PortCountIncreases(ps: seq<LcoreParams>, port: nat, k: nat, k': nat)
    requires k < k' <= |ps| && ps[k].portId == port
    ensures CountPort(ps[..k], port) < CountPort(ps[..k'], port)
    decreases k'
  {
    Prefix(ps, k' - 1);
    if k < k' - 1 {
      PortCountIncreases(ps, port, k, k' - 1);
    }
  }

  /** Every queue id below the count is configured. */
  lemma {:induction false} EveryIdOccurs(ps: seq<LcoreParams>, port: nat, q: nat) returns (k: nat)
    requires q < CountPort(ps, port)
    ensures k < |ps| && ps[k].portId == port && CountPort(ps[..k], port) == q
    decreases |ps|
  {
    var n := |ps| - 1;
    if q < CountPort(ps[..n], port) {
      k := EveryIdOccurs(ps[..n], port, q);
      assert ps[..n][..k] == ps[..k];
    } else {
      k := n;
    }
  }

  /** Queue q of the port is entry i of lcore l's list. */
  ghost predicate Polls(ps: seq<LcoreParams>, l: nat, i: nat, port: nat, q: nat) {
    i < |Assigned(ps, l)| && Assigned(ps, l)[i].0 == port && Assigned(ps, l)[i].1 == q
  }

  /** A list that passes the sequence check gives every RX queue 0..count-1 of a port to exactly one place in
      exactly one lcore's list, and no other queue of the port to anyone. */
  lemma QueueHasOneOwner(ps: seq<LcoreParams>, port: nat, q: nat)
    requires InSequence(ps, port)
    ensures q < CountPort(ps, port) <==> exists l, i :: Polls(ps, l, i, port, q)
    ensures forall l, i, l', i' :: Polls(ps, l, i, port, q) && Polls(ps, l', i', port, q) ==> l == l' && i == i'
  {
    if q < CountPort(ps, port) {
      var k := EveryIdOccurs(ps, port, q);
      EntryIsAssigned(ps, k);
      assert Polls(ps, ps[k].lcoreId, CountLcore(ps[..k], ps[k].lcoreId), port, q);
    }
    forall l, i, l', i' | Polls(ps, l, i, port, q) && Polls(ps, l', i', port, q)
      ensures l == l' && i == i' && q < CountPort(ps, port)
    {
      var k := AssignedIsEntry(ps, l, i);
      var k' := AssignedIsEntry(ps, l', i');
      if k < k' {
        PortCountIncreases(ps, port, k, k');
      } else if k' < k {
        PortCountIncreases(ps, port, k', k);
      }
      PortCountIncreases(ps, port, k, |ps|);
      assert ps[..|ps|] == ps;
    }
  }

  // ----- TX queues and the ports to drain

  /** The enabled ports below n, in order. */
  function UsedPorts(mask: bv32, n: nat): (r: seq<nat>)
    requires n <= MAX_PORTS
    ensures |r| <= n && PortList(r)
  {
    if n == 0 then []
    else UsedPorts(mask, n - 1) + if ExactMatch.PortBit(mask, n - 1) then [n - 1] else []
  }

  lemma {:induction false} UsedPortsAre(mask: bv32, n: nat, p: nat)
    requires n <= MAX_PORTS && p < MAX_PORTS
    ensures p in UsedPorts(mask, n) <==> p < n && ExactMatch.PortBit(mask, p)
  {
    if n > 0 {
      UsedPortsAre(mask, n - 1, p);
    }
  }

  lemma {:induction false} UsedPortsAscend(mask: bv32, n: nat, i: nat, j: nat)
    requires n <= MAX_PORTS && i < j < |UsedPorts(mask, n)|
    ensures UsedPorts(mask, n)[i] < UsedPorts(mask, n)[j] < n
  {
    hide ExactMatch.PortBit;
    if j < |UsedPorts(mask, n - 1)| {
      UsedPortsAscend(mask, n - 1, i, j);
    } else {
      assert UsedPorts(mask, n)[i] in UsedPorts(mask, n - 1);
      UsedPortsAre(mask, n - 1, UsedPorts(mask, n)[i]);
    }
  }

  /** `n_tx_port`, `tx_port_id` and `tx_queue_id` of all lcores. */
  class TxConf {
    const nTxPort: array<nat>
    const txPortId: array2<nat>
    const txQueueId: array2<nat>

    constructor ()
      ensures Shape() && fresh(nTxPort) && fresh(txPortId) && fresh(txQueueId)
      ensures forall l :: 0 <= l < MAX_LCORE ==> Listed(l, [])
    {
      nTxPort := new nat[MAX_LCORE](i => 0);
      txPortId := new nat[MAX_LCORE, MAX_PORTS]((i, j) => 0);
      txQueueId := new nat[MAX_LCORE, MAX_PORTS]((i, j) => 0);
    }

    ghost predicate Shape() {
      && nTxPort.Length == txPortId.Length0 == txQueueId.Length0 == MAX_LCORE
      && txPortId.Length1 == txQueueId.Length1 == MAX_PORTS
      && txPortId != txQueueId
    }

    /** `tx_port_id[..n_tx_port]` of lcore l. */
    ghost predicate Listed(l: nat, ports: seq<nat>)
      requires Shape() && l < MAX_LCORE
      reads nTxPort, txPortId
    {
      && nTxPort[l] == |ports| <= MAX_PORTS
      && (forall i :: 0 <= i < |ports| ==> txPortId[l, i] == ports[i])
    }

    /** The loop over lcores for one port; status is what rte_eth_tx_queue_setup answers for a port and a queue,
        and its program exit becomes the result false. */
    method SetupPort(port: nat, enabled: seq<bool>, status: (nat, nat) -> int, ghost ports: seq<nat>)
      returns (ok: bool)
      requires Shape() && |enabled| == MAX_LCORE && port < MAX_PORTS && |ports| < MAX_PORTS
      requires forall l :: 0 <= l < MAX_LCORE && enabled[l] ==> Listed(l, ports)
      modifies nTxPort, txPortId, txQueueId
      ensures ok <==> PortSetsUp(port, enabled, status, MAX_LCORE)
      ensures ok ==> forall l :: 0 <= l < MAX_LCORE && enabled[l] ==> Listed(l, ports + [port])
      ensures ok ==> forall l :: 0 <= l < MAX_LCORE && enabled[l] ==> txQueueId[l, port] == Rank(enabled, l)
      ensures forall l, p :: 0 <= l < MAX_LCORE && 0 <= p < MAX_PORTS && p != port ==>
              txQueueId[l, p] == old(txQueueId[l, p])
    {
      var queueid := 0;
      for l := 0 to MAX_LCORE
        invariant queueid == Rank(enabled, l) && PortSetsUp(port, enabled, status, l)
        invariant forall m :: 0 <= m < l && enabled[m] ==> Listed(m, ports + [port])
        invariant forall m :: l <= m < MAX_LCORE && enabled[m] ==> Listed(m, ports)
        invariant forall m :: 0 <= m < l && enabled[m] ==> txQueueId[m, port] == Rank(enabled, m)
        invariant forall m, p :: 0 <= m < MAX_LCORE && 0 <= p < MAX_PORTS && p != port ==>
                  txQueueId[m, p] == old(txQueueId[m, p])
      {
        if enabled[l] {
          if status(port, queueid) < 0 {
            return false;
          }
          txQueueId[l, port] := queueid;
          queueid := queueid + 1;
          txPortId[l, nTxPort[l]] := port;
          nTxPort[l] := nTxPort[l] + 1;
        }
      }
      return true;
    }

    /** The port loop of `main`, as far as TX queues go: if the devices agree to everything, every enabled lcore
        gets the used ports in order, and on each of them the queue that is its rank. configure is what
        rte_eth_dev_configure answers for a port and its number of TX queues. */
    method InitTxQueues(nbPorts: nat, mask: bv32, enabled: seq<bool>, configure: (nat, nat) -> int,
                        status: (nat, nat) -> int)
      returns (ok: bool)
      requires Shape() && |enabled| == MAX_LCORE && nbPorts <= MAX_PORTS
      requires forall l :: 0 <= l < MAX_LCORE ==> Listed(l, [])
      modifies nTxPort, txPortId, txQueueId
      ensures ok <==> AllSetUp(nbPorts, mask, enabled, configure, status)
      ensures ok ==> forall l :: 0 <= l < MAX_LCORE && enabled[l] ==> Listed(l, UsedPorts(mask, nbPorts))
      ensures ok ==>
        forall l, p :: 0 <= l < MAX_LCORE && enabled[l] && 0 <= p < nbPorts && ExactMatch.PortBit(mask, p) ==>
          txQueueId[l, p] == Rank(enabled, l)
    {
      hide ExactMatch.PortBit, PortSetsUp, TxQueues, Rank;
      for portid := 0 to nbPorts
        invariant AllSetUp(portid, mask, enabled, configure, status)
        invariant forall l :: 0 <= l < MAX_LCORE && enabled[l] ==> Listed(l, UsedPorts(mask, portid))
        invariant forall l, p :: 0 <= l < MAX_LCORE && enabled[l] && 0 <= p < portid && ExactMatch.PortBit(mask, p) ==>
          txQueueId[l, p] == Rank(enabled, l)
      {
        if ExactMatch.PortBit(mask, portid) {
          if configure(portid, TxQueues(enabled)) < 0 {
            return false;
          }
          var up := SetupPort(portid, enabled, status, UsedPorts(mask, portid));
          if !up {
            return false;
          }
        }
      }
      return true;
    }
  }

  const MAX_TX_QUEUE_PER_PORT := MAX_PORTS

  /** The number of TX queues a device is configured with. */
  function TxQueues(enabled: seq<bool>): nat {
    var n := Rank(enabled, |enabled|);
    if n > MAX_TX_QUEUE_PER_PORT then MAX_TX_QUEUE_PER_PORT else n
  }

  /** A device is asked for one queue for each enabled lcore, and for 32 if there are more. */
  lemma TxQueuesIsCount(enabled: seq<bool>)
    ensures var n := |set l | 0 <= l < |enabled| && enabled[l]|;
            TxQueues(enabled) == if n <= 32 then n else 32
  {
    RankIsCount(enabled, |enabled|);
    assert EnabledBefore(enabled, |enabled|) == (set l | 0 <= l < |enabled| && enabled[l]);
  }

  /** The device accepts the queues of all enabled lcores below n. */
  ghost predicate PortSetsUp(port: nat, enabled: seq<bool>, status: (nat, nat) -> int, n: nat)
    requires n <= |enabled|
  {
    forall l :: 0 <= l < n && enabled[l] ==> status(port, Rank(enabled, l)) >= 0
  }

  ghost predicate AllSetUp(nbPorts: nat, mask: bv32, enabled: seq<bool>, configure: (nat, nat) -> int,
                           status: (nat, nat) -> int)
    requires nbPorts <= MAX_PORTS && |enabled| == MAX_LCORE
  {
    forall p :: 0 <= p < nbPorts && ExactMatch.PortBit(mask, p) ==>
      configure(p, TxQueues(enabled)) >= 0 && PortSetsUp(p, enabled, status, MAX_LCORE)
  }

  /** A device that refuses queues it was not configured with lets the program start only with up to 32 enabled
      lcores. */
  lemma AtMost32Lcores(nbPorts: nat, mask: bv32, enabled: seq<bool>, configure: (nat, nat) -> int,
                       status: (nat, nat) -> int, p: nat)
    requires nbPorts <= MAX_PORTS && |enabled| == MAX_LCORE
    requires p < nbPorts && ExactMatch.PortBit(mask, p)
    requires forall q :: q >= TxQueues(enabled) ==> status(p, q) < 0
    requires AllSetUp(nbPorts, mask, enabled, configure, status)
    ensures Rank(enabled, MAX_LCORE) <= MAX_TX_QUEUE_PER_PORT
  {
    RanksAreConsecutive(enabled, MAX_LCORE, MAX_TX_QUEUE_PER_PORT);
  }
}
