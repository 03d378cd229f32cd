/** Numbering the enabled lcores. */
module Lcores {

  /** Number of enabled lcores before l. */
  function Rank(enabled: seq<bool>, l: nat): nat
    requires l <= |enabled|
  {
    if l == 0 then 0 else Rank(enabled, l - 1) + if enabled[l - 1] then 1 else 0
  }

  /** The enabled lcores before l. */
  ghost function EnabledBefore(enabled: seq<bool>, l: nat): set<nat>
    requires l <= |enabled|
  {
    set m | 0 <= m < l && enabled[m]
  }

  lemma {:induction false} RankIsCount(enabled: seq<bool>, l: nat)
    requires l <= |enabled|
    ensures Rank(enabled, l) == |EnabledBefore(enabled, l)|
  {
    if l > 0 {
      RankIsCount(enabled, l - 1);
      assert EnabledBefore(enabled, l) == EnabledBefore(enabled, l - 1) + if enabled[l - 1] then {l - 1} else {};
    }
  }

  lemma {:induction false} RankIncreases(enabled: seq<bool>, l: nat, m: nat)
    requires l < m <= |enabled| && enabled[l]
    ensures Rank(enabled, l) < Rank(enabled, m)
  {
    if l < m - 1 {
      RankIncreases(enabled, l, m - 1);
    }
  }

  /** The enabled lcores have the TX queues 0, 1, ... of a port, each its own. */
  lemma {:induction false} RanksAreConsecutive(enabled: seq<bool>, n: nat, q: nat)
    requires n <= |enabled|
    ensures q < Rank(enabled, n) <==> exists l :: 0 <= l < n && enabled[l] && Rank(enabled, l) == q
  {
    if n > 0 {
      RanksAreConsecutive(enabled, n - 1, q);
      if q < Rank(enabled, n) && q >= Rank(enabled, n - 1) {
        assert enabled[n - 1] && Rank(enabled, n - 1) == q;
      }
    }
  }
}
