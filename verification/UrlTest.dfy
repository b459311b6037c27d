/**
  The latency group of redog-adapter/src/proxy_group/url_test.rs: each health
  check records every delay and switches only when another proxy is faster by
  more than the tolerance. The sum of delay and tolerance is a 16-bit one, which
  wraps in an optimised build.
 */
module UrlTest {
  import opened Bits

  const UNREACHABLE: U16 := 0xFFFF

  /** The first index with the least delay. */
  function Fastest(delays: seq<U16>): (m: nat)
    requires delays != []
    ensures m < |delays|
    ensures forall i :: 0 <= i < |delays| ==> delays[m] <= delays[i]
    ensures forall i :: 0 <= i < m ==> delays[m] < delays[i]
  {
    if |delays| == 1 then 0
    else
      var init := delays[..|delays| - 1];
      var m := Fastest(init);
      assert forall i :: 0 <= i < |init| ==> init[i] == delays[i];
      if delays[|delays| - 1] < delays[m] then |delays| - 1 else m
  }

  function DelayOf(delays: seq<U16>, i: nat): U16 {
    if i < |delays| then delays[i] else UNREACHABLE
  }

  /** The test that decides a switch, with its 16-bit sum. */
  predicate Switches(current: nat, delays: seq<U16>, tolerance: U16)
    requires delays != []
  {
    (delays[Fastest(delays)] + tolerance as int) % 0x1_0000 < DelayOf(delays, current)
  }

  /** The selection after a health check. */
  function NextSelection(current: nat, delays: seq<U16>, tolerance: U16): nat {
    if delays != [] && Switches(current, delays, tolerance) then Fastest(delays) else current
  }

  class Group {
    const proxies: seq<string>
    const tolerance: U16
    var fastest: nat
    var delays: seq<U16>

    ghost predicate Valid()
      reads this
    {
      |delays| == |proxies| && (proxies != [] ==> fastest < |proxies|)
    }

    constructor (proxies: seq<string>, tolerance: U16)
      ensures Valid() && this.proxies == proxies && this.tolerance == tolerance
      ensures fastest == 0 && forall d :: d in delays ==> d == 0xFFFF
    {
      this.proxies, this.tolerance := proxies, tolerance;
      fastest := 0;
      delays := seq(|proxies|, _ => UNREACHABLE);
    }

    /** The commit of a health check that measured `results`, one delay a proxy. */
    method Commit(results: seq<U16>)
      requires Valid() && |results| == |proxies|
      modifies this
      ensures Valid() && delays == results
      ensures fastest == NextSelection(old(fastest), results, tolerance)
    {
      var idx := 0;
      while idx < |results|
        invariant 0 <= idx <= |results| == |delays|
        invariant delays[..idx] == results[..idx]
        invariant fastest == old(fastest)
      {
        delays := delays[idx := results[idx]];
        idx := idx + 1;
      }
      assert delays == results;
      var currentDelay := if fastest < |delays| then delays[fastest] else UNREACHABLE;
      if results != [] {
        var newFastest := MinByDelay(results);
        if (results[newFastest] + tolerance as int) % 0x1_0000 < currentDelay {
          fastest := newFastest;
        }
      }
    }

    /** The name of the selected proxy. */
    method Current() returns (name: string)
      requires Valid()
      ensures proxies == [] ==> name == "DIRECT"
      ensures proxies != [] ==> fastest < |proxies| && name == proxies[fastest]
    {
      name := if fastest < |proxies| then proxies[fastest] else "DIRECT";
    }
  }

  /** iter().min_by_key: the first of the least. */
  method MinByDelay(results: seq<U16>) returns (m: nat)
    requires results != []
    ensures m == Fastest(results)
  {
    m := 0;
    var i := 1;
    while i < |results|
      invariant 1 <= i <= |results| && m < i
      invariant forall j :: 0 <= j < i ==> results[m] <= results[j]
      invariant forall j :: 0 <= j < m ==> results[m] < results[j]
    {
      if results[i] < results[m] {
        m := i;
      }
      i := i + 1;
    }
  }

  // ---- Hysteresis over every run of health checks ----

  function RunRounds(current: nat, rounds: seq<seq<U16>>, tolerance: U16): nat {
    if rounds == [] then current
    else
      var init := rounds[..|rounds| - 1];
      NextSelection(RunRounds(current, init, tolerance), rounds[|rounds| - 1], tolerance)
  }

  /** The selected delay is within the tolerance of the best after every round, wrapped sums included. */
  lemma SelectedWithinTolerance(current: nat, delays: seq<U16>, tolerance: U16)
    requires current < |delays|
    ensures NextSelection(current, delays, tolerance) < |delays|
    ensures delays[NextSelection(current, delays, tolerance)] <= delays[Fastest(delays)] + tolerance as int
  {
  }

  lemma {:induction false} RunsStayWithinTolerance(current: nat, rounds: seq<seq<U16>>, tolerance: U16, n: nat)
    requires current < n && forall ds :: ds in rounds ==> |ds| == n
    ensures RunRounds(current, rounds, tolerance) < n
    ensures rounds != [] ==>
              var last := rounds[|rounds| - 1];
              last[RunRounds(current, rounds, tolerance)] <= last[Fastest(last)] + tolerance as int
  {
    if rounds != [] {
      RunsStayWithinTolerance(current, rounds[..|rounds| - 1], tolerance, n);
      var last := rounds[|rounds| - 1];
      assert last in rounds;
      SelectedWithinTolerance(RunRounds(current, rounds[..|rounds| - 1], tolerance), last, tolerance);
    }
  }

  /**
    The exact condition for hysteresis: a changed selection is the fastest proxy,
    and it means a gain of more than the tolerance if and only if the least delay
    plus the tolerance fits 16 bits or the fastest proxy is already selected.
    Within 16 bits, that gain is also enough for a change; beyond them, the
    fastest proxy is always selected.
   */
  lemma SelectionChangesOnlyForGainIff(current: nat, delays: seq<U16>, tolerance: U16)
    requires current < |delays|
    ensures NextSelection(current, delays, tolerance) != current ==>
              NextSelection(current, delays, tolerance) == Fastest(delays)
    ensures delays[Fastest(delays)] + tolerance as int > 0xFFFF ==>
              NextSelection(current, delays, tolerance) == Fastest(delays)
    ensures var next := NextSelection(current, delays, tolerance);
            (next != current ==> next < |delays| && delays[current] - delays[next] as int > tolerance as int)
            <==> (delays[Fastest(delays)] + tolerance as int <= 0xFFFF || current == Fastest(delays))
    ensures delays[Fastest(delays)] + tolerance as int <= 0xFFFF ==>
              (NextSelection(current, delays, tolerance) != current <==>
                 delays[current] - delays[Fastest(delays)] as int > tolerance as int)
  {
    SwitchesIff(current, delays, tolerance);
    hide Switches, Fastest;
  }

  lemma SwitchesIff(current: nat, delays: seq<U16>, tolerance: U16)
    requires current < |delays|
    ensures var sum := delays[Fastest(delays)] + tolerance as int;
            Switches(current, delays, tolerance) <==> sum > 0xFFFF || sum < delays[current]
  {
    hide Fastest;
    var sum := delays[Fastest(delays)] + tolerance as int;
    assert sum % 0x1_0000 == if sum > 0xFFFF then sum - 0x1_0000 else sum;
  }

  /** The same measurements again change nothing. */
  lemma RepeatedRoundIsStable(current: nat, delays: seq<U16>, tolerance: U16)
    requires current < |delays|
    ensures var next := NextSelection(current, delays, tolerance);
            NextSelection(next, delays, tolerance) == next
  {
  }

  lemma {:induction false} RepeatedRoundsAreStable(current: nat, delays: seq<U16>, tolerance: U16, times: nat)
    requires current < |delays|
    ensures RunRounds(current, seq(times + 1, _ => delays), tolerance) == NextSelection(current, delays, tolerance)
  {
    var rounds := seq(times + 1, _ => delays);
    if times == 0 {
      assert rounds[..0] == [];
    } else {
      assert rounds[..times] == seq(times, _ => delays);
      RepeatedRoundsAreStable(current, delays, tolerance, times - 1);
      RepeatedRoundIsStable(current, delays, tolerance);
    }
  }

  /** With every proxy down the sum wraps, and the first proxy is selected whatever was. */
  lemma AllDownSelectsTheFirst(current: nat, n: nat, tolerance: U16)
    requires current < n && 0 < tolerance
    ensures NextSelection(current, seq(n, _ => 0xFFFF), tolerance) == 0
  {
    var delays := seq(n, _ => UNREACHABLE);
    assert Fastest(delays) == 0 by {
      assert delays[0] == delays[Fastest(delays)];
    }
  }
}
