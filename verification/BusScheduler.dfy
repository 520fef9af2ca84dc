/** The periodic transmission scheduler: entries fire on ticks, never more than once per tick. */
module BusScheduler {

  datatype Entry = Entry(pduId: int, periodMs: int, lastFiredMs: int)

  predicate Due(e: Entry, now: int) {
    now - e.lastFiredMs >= e.periodMs
  }

  function TickEntry(e: Entry, now: int): Entry {
    if Due(e, now) then e.(lastFiredMs := now) else e
  }

  function TickAll(es: seq<Entry>, now: int): (r: seq<Entry>)
    ensures |r| == |es|
    ensures forall i :: 0 <= i < |es| ==> r[i] == TickEntry(es[i], now)
  {
    seq(|es|, i requires 0 <= i < |es| => TickEntry(es[i], now))
  }

  /** The PDUs whose callbacks run on a tick, in registration order. */
  function Fired(es: seq<Entry>, now: int): seq<int> {
    if es == [] then []
    else Fired(es[..|es| - 1], now) + if Due(es[|es| - 1], now) then [es[|es| - 1].pduId] else []
  }

  class Scheduler {
    var running: bool
    var entries: seq<Entry>

    constructor ()
      ensures !running && entries == []
    {
      running := false;
      entries := [];
    }

    method SchedulePeriodic(pduId: int, periodMs: int)
      modifies this`entries
      ensures entries == old(entries) + [Entry(pduId, periodMs, 0)]
    {
      entries := entries + [Entry(pduId, periodMs, 0)];
    }

    method Start()
      modifies this`running
      ensures running
    {
      running := true;
    }

    /** Returns the PDUs whose callbacks ran. */
    method Tick(now: int) returns (fired: seq<int>)
      modifies this`entries
      ensures running ==> entries == TickAll(old(entries), now) && fired == Fired(old(entries), now)
      ensures !running ==> entries == old(entries) && fired == []
    {
      fired := [];
      if !running {
        return;
      }
      ghost var was := entries;
      for i := 0 to |entries|
        invariant |entries| == |was|
        invariant forall j :: 0 <= j < i ==> entries[j] == TickEntry(was[j], now)
        invariant forall j :: i <= j < |was| ==> entries[j] == was[j]
        invariant fired == Fired(was[..i], now)
      {
        var entry := entries[i];
        assert was[..i + 1][..i] == was[..i];
        if now - entry.lastFiredMs >= entry.periodMs {
          entries := entries[i := entry.(lastFiredMs := now)];
          fired := fired + [entry.pduId];
        }
      }
      assert was[..|was|] == was;
    }
  }

  /** A callback runs for a PDU on a tick exactly when one of its entries is due. */
  lemma {:induction false} FiredIsDue(es: seq<Entry>, now: int, pduId: int)
    ensures pduId in Fired(es, now) <==> exists i :: 0 <= i < |es| && es[i].pduId == pduId && Due(es[i], now)
  {
    if es != [] {
      var init, last := es[..|es| - 1], es[|es| - 1];
      FiredIsDue(init, now, pduId);
      if i :| 0 <= i < |init| && init[i].pduId == pduId && Due(init[i], now) {
        assert es[i] == init[i];
      }
    }
  }

  /** These are the places of the due entries, in order. */
  ghost predicate DuePlaces(es: seq<Entry>, now: int, due: seq<nat>) {
    && (forall j, k :: 0 <= j < k < |due| ==> due[j] < due[k])
    && (forall j :: 0 <= j < |due| ==> due[j] < |es|)
    && (forall i :: 0 <= i < |es| ==> (i in due <==> now - es[i].lastFiredMs >= es[i].periodMs))
  }

  lemma OneMorePlace(es: seq<Entry>, now: int, due: seq<nat>)
    requires es != [] && DuePlaces(es[..|es| - 1], now, due)
    ensures DuePlaces(es, now, due + if Due(es[|es| - 1], now) then [|es| - 1] else [])
  {
    var n := |es| - 1;
    assert forall i :: 0 <= i < n ==> es[..n][i] == es[i];
    if n in due {
      assert false;
    }
  }

  /** These callbacks are those of the entries at these places. */
  ghost predicate RunsOf(es: seq<Entry>, due: seq<nat>, fired: seq<int>) {
    |fired| == |due| && forall j :: 0 <= j < |due| ==> due[j] < |es| && fired[j] == es[due[j]].pduId
  }

  lemma OneMoreRun(es: seq<Entry>, due: seq<nat>, fired: seq<int>)
    requires es != [] && RunsOf(es[..|es| - 1], due, fired)
    ensures RunsOf(es, due, fired)
    ensures RunsOf(es, due + [|es| - 1], fired + [es[|es| - 1].pduId])
  {
    forall j | 0 <= j < |due|
      ensures due[j] < |es| && fired[j] == es[due[j]].pduId
    {
      assert es[..|es| - 1][due[j]] == es[due[j]];
    }
  }

  /** The callbacks of a tick run once for each due entry, in registration order. */
  lemma {:induction false} FiredInOrder(es: seq<Entry>, now: int) returns (due: seq<nat>)
    ensures DuePlaces(es, now, due)
    ensures RunsOf(es, due, Fired(es, now))
  {
    due := [];
    if es != [] {
      var n := |es| - 1;
      var before := FiredInOrder(es[..n], now);
      OneMorePlace(es, now, before);
      OneMoreRun(es, before, Fired(es[..n], now));
      if Due(es[n], now) {
        due := before + [n];
      } else {
        due := before;
        assert before + [] == before;
        assert Fired(es[..n], now) + [] == Fired(es[..n], now);
      }
    }
  }

  // ---------- runs ----------

  function RunAll(es: seq<Entry>, ticks: seq<int>): (r: seq<Entry>)
    ensures |r| == |es|
  {
    if ticks == [] then es else TickAll(RunAll(es, ticks[..|ticks| - 1]), ticks[|ticks| - 1])
  }

  /** How often entry i has fired in a run. */
  function Firings(es: seq<Entry>, ticks: seq<int>, i: nat): nat
    requires i < |es|
  {
    if ticks == [] then 0
    else
      var n := |ticks| - 1;
      Firings(es, ticks[..n], i) + if Due(RunAll(es, ticks[..n])[i], ticks[n]) then 1 else 0
  }

  function Now(ticks: seq<int>): int {
    if ticks == [] then 0 else ticks[|ticks| - 1]
  }

  lemma OneMore(k: int, p: int)
    ensures (k + 1) * p == k * p + p
  {}

  /** Time never runs back and advances by at most g between ticks, starting from 0. */
  ghost predicate SpacedWithin(ticks: seq<int>, g: int) {
    forall i :: 0 <= i < |ticks| ==> Now(ticks[..i]) <= ticks[i] <= Now(ticks[..i]) + g
  }

  /**
   For an entry registered at time 0 with period p, after k firings the last
   one lies between k*p and k*(p+g-1), and the entry is never a whole period
   overdue once a tick is done.
   */
  lemma {:induction false} PeriodBounds(es: seq<Entry>, ticks: seq<int>, i: nat, g: int)
    requires i < |es| && es[i].lastFiredMs == 0 && es[i].periodMs >= 1
    requires SpacedWithin(ticks, g)
    ensures var e, p, k := RunAll(es, ticks)[i], es[i].periodMs, Firings(es, ticks, i);
            && e.periodMs == p && e.pduId == es[i].pduId
            && k * p <= e.lastFiredMs <= k * (p + g - 1)
            && 0 <= Now(ticks) - e.lastFiredMs < p
  {
    if ticks != [] {
      var n := |ticks| - 1;
      forall j | 0 <= j < n
        ensures ticks[..n][..j] == ticks[..j]
      {
      }
      PeriodBounds(es, ticks[..n], i, g);
      var k, p := Firings(es, ticks[..n], i), es[i].periodMs;
      OneMore(k, p);
      OneMore(k, p + g - 1);
    }
  }

  /** So the number of firings by any time is pinned from both sides. */
  lemma FiringRate(es: seq<Entry>, ticks: seq<int>, i: nat, g: int)
    requires i < |es| && es[i].lastFiredMs == 0 && es[i].periodMs >= 1
    requires SpacedWithin(ticks, g)
    ensures var p, k := es[i].periodMs, Firings(es, ticks, i);
            k * p <= Now(ticks) < k * (p + g - 1) + p
  {
    PeriodBounds(es, ticks, i, g);
  }
}
