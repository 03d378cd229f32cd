/** Whole runs of the forwarder: a loop over the fast path against a loop over the simple path, each with its own
    drains and its own NIC. */
module LoopRefinement {
  import opened Limits
  import opened Bytes
  import opened ExactMatch
  import PortGrouping
  import TxSpec
  import opened Dispatch
  import opened Forwarding

  /** What happens in turn: both loops receive a burst, or one of them drains. */
  datatype Turn<T> =
    | Rx(ps: seq<Packet>, lens: seq<nat>, ms: seq<T>, portid: byte)
    | FastDrain(ports: seq<nat>)
    | SimpleDrain(ports: seq<nat>)

  predicate ValidTurn<T>(t: Turn<T>) {
    if t.Rx? then HaveRoom(t.ps) && t.portid < MAX_PORTS && |t.lens| == |t.ps| == |t.ms| <= MAX_PKT_BURST
    else PortList(t.ports)
  }

  predicate ValidTurns<T>(ts: seq<Turn<T>>) {
    forall i :: 0 <= i < |ts| ==> ValidTurn(ts[i])
  }

  /** The run of the fast loop. */
  function FastRun<T>(cfg: Config, ts: seq<Turn<T>>): (es: seq<Event<T>>)
    requires cfg.Valid() && ValidTurns(ts)
    ensures ValidEvents(es)
  {
    if ts == [] then []
    else FastTurn(cfg, ts[0]) + FastRun(cfg, ts[1..])
  }

  function FastTurn<T>(cfg: Config, t: Turn<T>): (es: seq<Event<T>>)
    requires cfg.Valid() && ValidTurn(t)
    ensures ValidEvents(es) && |es| <= 1
  {
    match t
    case Rx(ps, _, ms, portid) => [FastEvent(cfg, ps, ms, portid)]
    case FastDrain(ports) => [DrainTick(ports)]
    case SimpleDrain(_) => []
  }

  /** The run of the simple loop. */
  function SimpleRun<T>(cfg: Config, ts: seq<Turn<T>>): (es: seq<Event<T>>)
    requires cfg.Valid() && ValidTurns(ts)
    ensures ValidEvents(es)
  {
    if ts == [] then []
    else SimpleTurn(cfg, ts[0]) + SimpleRun(cfg, ts[1..])
  }

  function SimpleTurn<T>(cfg: Config, t: Turn<T>): (es: seq<Event<T>>)
    requires cfg.Valid() && ValidTurn(t)
    ensures ValidEvents(es) && |es| <= 1
  {
    match t
    case Rx(ps, lens, ms, portid) => [SimpleEvent(cfg, ps, lens, ms, portid)]
    case FastDrain(_) => []
    case SimpleDrain(ports) => [DrainTick(ports)]
  }

  predicate TurnCompatible<T>(t: Turn<T>)
    requires ValidTurn(t)
  {
    t.Rx? ==> AllCompatible(t.ps, t.lens)
  }

  predicate TurnsCompatible<T>(ts: seq<Turn<T>>)
    requires ValidTurns(ts)
  {
    forall i :: 0 <= i < |ts| ==> TurnCompatible(ts[i])
  }

  /** Packet j of turn i leaves both loops with the same verdict: dropped, or sent on the same port with the
      same bytes. */
  predicate SameInTurn<T>(cfg: Config, ts: seq<Turn<T>>, i: nat, j: nat)
    requires cfg.Valid() && ValidTurns(ts) && i < |ts|
  {
    ts[i].Rx? && j < |ts[i].ps| ==> SameVerdict(cfg, ts[i].ps, ts[i].lens, ts[i].portid, j)
  }

  // ----- arrivals

  lemma ArrivalsPrepend<T>(e: seq<Event<T>>, es: seq<Event<T>>, dst: u16)
    requires ValidEvents(e) && ValidEvents(es) && |e| <= 1
    ensures ValidEvents(e + es)
    ensures Arrivals(e + es, dst) == Arrivals(e, dst) + Arrivals(es, dst)
  {
    if e == [] {
      assert e + es == es;
    } else {
      assert (e + es)[1..] == es && e[1..] == [];
    }
  }

  lemma ArrivalsOfOne<T>(e: Event<T>, dst: u16)
    requires ValidEvent(e)
    ensures Arrivals([e], dst) == if e.DrainTick? then [] else Routed(e.dsts, e.pkts, dst)
  {
    assert [e][1..] == [];
  }

  /** Compatible bursts arrive alike. */
  lemma {:induction false} SameArrivalsInTurns<T>(cfg: Config, ts: seq<Turn<T>>, dst: u16)
    requires cfg.Valid() && ValidTurns(ts) && TurnsCompatible(ts)
    ensures Arrivals(FastRun(cfg, ts), dst) == Arrivals(SimpleRun(cfg, ts), dst)
  {
    hide FastEvent, SimpleEvent, AllCompatible;
    if ts != [] {
      var t := ts[0];
      assert TurnCompatible(t);
      SameArrivalsInTurns(cfg, ts[1..], dst);
      ArrivalsPrepend(FastTurn(cfg, t), FastRun(cfg, ts[1..]), dst);
      ArrivalsPrepend(SimpleTurn(cfg, t), SimpleRun(cfg, ts[1..]), dst);
      SameArrivalsInTurn(cfg, t, dst);
    }
  }

  lemma SameArrivalsInTurn<T>(cfg: Config, t: Turn<T>, dst: u16)
    requires cfg.Valid() && ValidTurn(t) && TurnCompatible(t)
    ensures Arrivals(FastTurn(cfg, t), dst) == Arrivals(SimpleTurn(cfg, t), dst)
  {
    hide FinalDsts, SimpleDsts, ClassifyWide, AllCompatible;
    match t
    case Rx(ps, lens, ms, portid) =>
      SameVerdictsIff(cfg, ps, lens, portid);
      ArrivalsOfOne(FastEvent(cfg, ps, ms, portid), dst);
      ArrivalsOfOne(SimpleEvent(cfg, ps, lens, ms, portid), dst);
    case FastDrain(_) => ArrivalsOfOne(FastTurn(cfg, t)[0], dst);
    case SimpleDrain(_) => ArrivalsOfOne(SimpleTurn(cfg, t)[0], dst);
  }

  // ----- drops

  /** Whatever d drops, e drops. */
  predicate DropsWithin(d: seq<u16>, e: seq<u16>) {
    |d| == |e| && forall i :: 0 <= i < |d| && d[i] == PortGrouping.BAD_PORT ==> e[i] == PortGrouping.BAD_PORT
  }

  lemma {:induction false} RoutedFewer<T>(d: seq<u16>, e: seq<u16>, ms: seq<T>)
    requires DropsWithin(d, e) && |d| == |ms|
    ensures |Routed(d, ms, PortGrouping.BAD_PORT)| <= |Routed(e, ms, PortGrouping.BAD_PORT)|
    ensures |Routed(d, ms, PortGrouping.BAD_PORT)| == |Routed(e, ms, PortGrouping.BAD_PORT)| <==> DropsWithin(e, d)
  {
    if d != [] {
      RoutedFewer(d[1..], e[1..], ms[1..]);
      if DropsWithin(e[1..], d[1..]) && (e[0] == PortGrouping.BAD_PORT ==> d[0] == PortGrouping.BAD_PORT) {
        assert forall i :: 1 <= i < |d| ==> d[i] == d[1..][i - 1] && e[i] == e[1..][i - 1];
      }
      if DropsWithin(e, d) {
        assert forall i :: 0 <= i < |d| - 1 ==> d[1..][i] == d[i + 1] && e[1..][i] == e[i + 1];
      }
    }
  }

  /** The fast path drops no more packets of a turn than the simple one, and as many only if all are
      compatible. */
  lemma FewerDroppedInTurn<T>(cfg: Config, t: Turn<T>)
    requires cfg.Valid() && ValidTurn(t)
    ensures var f, g := Arrivals(FastTurn(cfg, t), PortGrouping.BAD_PORT),
                        Arrivals(SimpleTurn(cfg, t), PortGrouping.BAD_PORT);
            |f| <= |g| && (|f| == |g| <==> TurnCompatible(t))
  {
    hide FinalDsts, SimpleDsts, ClassifyWide, Compatible;
    match t
    case Rx(ps, lens, ms, portid) =>
      ArrivalsOfOne(FastEvent(cfg, ps, ms, portid), PortGrouping.BAD_PORT);
      ArrivalsOfOne(SimpleEvent(cfg, ps, lens, ms, portid), PortGrouping.BAD_PORT);
      CompatibleIffDropsAlike(cfg, ps, lens, portid);
      RoutedFewer(FinalDsts(cfg, ps, ClassifyWide(cfg, ps, portid)), SimpleDsts(cfg, ps, lens, portid), ms);
    case FastDrain(_) => ArrivalsOfOne(FastTurn(cfg, t)[0], PortGrouping.BAD_PORT);
    case SimpleDrain(_) => ArrivalsOfOne(SimpleTurn(cfg, t)[0], PortGrouping.BAD_PORT);
  }

  lemma CompatibleIffDropsAlike(cfg: Config, ps: seq<Packet>, lens: seq<nat>, portid: byte)
    requires cfg.Valid() && HaveRoom(ps) && portid < MAX_PORTS && |lens| == |ps|
    ensures var d, e := FinalDsts(cfg, ps, ClassifyWide(cfg, ps, portid)), SimpleDsts(cfg, ps, lens, portid);
            DropsWithin(d, e) && (DropsWithin(e, d) <==> AllCompatible(ps, lens))
  {
    hide FinalDsts, SimpleDsts, ClassifyWide, Compatible, SameVerdict;
    var d, e := FinalDsts(cfg, ps, ClassifyWide(cfg, ps, portid)), SimpleDsts(cfg, ps, lens, portid);
    forall i | 0 <= i < |ps|
      ensures if Compatible(ps[i], lens[i]) then d[i] == e[i]
              else d[i] != PortGrouping.BAD_PORT && e[i] == PortGrouping.BAD_PORT
    {
      SameVerdictIff(cfg, ps, lens, portid, i);
    }
  }

  lemma {:induction false} FewerDropped<T>(cfg: Config, ts: seq<Turn<T>>)
    requires cfg.Valid() && ValidTurns(ts)
    ensures var f, g := Arrivals(FastRun(cfg, ts), PortGrouping.BAD_PORT),
                        Arrivals(SimpleRun(cfg, ts), PortGrouping.BAD_PORT);
            |f| <= |g| && (|f| == |g| <==> TurnsCompatible(ts))
  {
    hide TurnCompatible, FastTurn, SimpleTurn;
    if ts != [] {
      var t := ts[0];
      FewerDropped(cfg, ts[1..]);
      FewerDroppedInTurn(cfg, t);
      ArrivalsPrepend(FastTurn(cfg, t), FastRun(cfg, ts[1..]), PortGrouping.BAD_PORT);
      ArrivalsPrepend(SimpleTurn(cfg, t), SimpleRun(cfg, ts[1..]), PortGrouping.BAD_PORT);
      CompatibleSplit(ts);
    }
  }

  lemma CompatibleSplit<T>(ts: seq<Turn<T>>)
    requires ValidTurns(ts) && ts != []
    ensures TurnsCompatible(ts) <==> TurnCompatible(ts[0]) && TurnsCompatible(ts[1..])
  {
    hide TurnCompatible;
    assert forall i :: 1 <= i < |ts| ==> ts[i] == ts[1..][i - 1];
  }

  lemma DifferentCount<T>(a: seq<T>, b: seq<T>) returns (x: T)
    requires |a| != |b|
    ensures TxSpec.Count(a, x) != TxSpec.Count(b, x)
  {
    assert |multiset(a)| == |a| && |multiset(b)| == |b|;
    assert multiset(a) != multiset(b);
    x :| multiset(a)[x] != multiset(b)[x];
  }

  // ----- the theorems

  /** A loop over the fast path refines a loop over the simple path on all runs of compatible bursts, whatever
      the two NICs accept and whenever the two loops drain: the same packets are given to every port in the same
      order, the same packets are dropped, and every packet leaves on the same port with the same bytes. */
  lemma FastLoopRefinesSimpleLoop<T>(nic: TxSpec.Nic<T>, nic': TxSpec.Nic<T>, s: TxSpec.Tx<T>, cfg: Config,
                                     ts: seq<Turn<T>>, p: nat, x: T)
    requires TxSpec.Valid(s) && cfg.Valid() && ValidTurns(ts) && TurnsCompatible(ts) && p < MAX_PORTS
    ensures TxSpec.Line(Run(nic, s, FastRun(cfg, ts)), p) == TxSpec.Line(Run(nic', s, SimpleRun(cfg, ts)), p)
    ensures TxSpec.Dropped(Run(nic, s, FastRun(cfg, ts)), x) == TxSpec.Dropped(Run(nic', s, SimpleRun(cfg, ts)), x)
    ensures forall i, j :: 0 <= i < |ts| && 0 <= j ==> SameInTurn(cfg, ts, i, j)
  {
    hide Run, Arrivals, FastRun, SimpleRun, TurnsCompatible, TxSpec.Line, TxSpec.Dropped, SameInTurn;
    SameArrivalsInTurns(cfg, ts, p);
    SameArrivalsInTurns(cfg, ts, PortGrouping.BAD_PORT);
    RunsCompare(nic, nic', s, FastRun(cfg, ts), SimpleRun(cfg, ts), p, x);
    forall i, j | 0 <= i < |ts| && 0 <= j
      ensures SameInTurn(cfg, ts, i, j)
    {
      TurnVerdicts(cfg, ts, i, j);
    }
  }

  lemma TurnVerdicts<T>(cfg: Config, ts: seq<Turn<T>>, i: nat, j: nat)
    requires cfg.Valid() && ValidTurns(ts) && TurnsCompatible(ts) && i < |ts|
    ensures SameInTurn(cfg, ts, i, j)
  {
    assert TurnCompatible(ts[i]);
    if ts[i].Rx? {
      SameVerdictsIff(cfg, ts[i].ps, ts[i].lens, ts[i].portid);
    }
  }

  /** The two loops drop the same packets exactly if every burst consists of compatible packets. */
  lemma LoopsDropAlikeIff<T>(nic: TxSpec.Nic<T>, nic': TxSpec.Nic<T>, s: TxSpec.Tx<T>, cfg: Config,
                             ts: seq<Turn<T>>)
    requires TxSpec.Valid(s) && cfg.Valid() && ValidTurns(ts)
    ensures (forall x: T :: TxSpec.Dropped(Run(nic, s, FastRun(cfg, ts)), x)
                            == TxSpec.Dropped(Run(nic', s, SimpleRun(cfg, ts)), x))
            <==> TurnsCompatible(ts)
  {
    hide Run, Arrivals, FastRun, SimpleRun, TurnsCompatible, TxSpec.Dropped, TxSpec.Count;
    if TurnsCompatible(ts) {
      SameArrivalsInTurns(cfg, ts, PortGrouping.BAD_PORT);
      forall x: T
        ensures TxSpec.Dropped(Run(nic, s, FastRun(cfg, ts)), x)
                == TxSpec.Dropped(Run(nic', s, SimpleRun(cfg, ts)), x)
      {
        RunsCompare(nic, nic', s, FastRun(cfg, ts), SimpleRun(cfg, ts), 0, x);
      }
    } else {
      FewerDropped(cfg, ts);
      var x := DifferentCount(Arrivals(FastRun(cfg, ts), PortGrouping.BAD_PORT),
                              Arrivals(SimpleRun(cfg, ts), PortGrouping.BAD_PORT));
      RunsCompare(nic, nic', s, FastRun(cfg, ts), SimpleRun(cfg, ts), 0, x);
    }
  }
}
