/**
 Crash loop detection: a replica's cumulative restart counter becomes a window of
 restart times, one entry per restart, at the evaluation that first saw it.
 */
module Crashloop {
  import opened Common

  /**
   What one evaluation pass sees of a replica: the counter if it is reported, and
   whether the instance still exists.
   */
  datatype Pass = Pass(now: int, count: Option<int>, alive: bool)

  /** The tracker of a replica, if there is one: the last counter and the restart times of its window. */
  datatype Tracker = Tracker(lastCount: int, events: seq<int>)

  function Copies(ts: int, n: nat): (c: seq<int>)
    ensures |c| == n && forall i :: 0 <= i < n ==> c[i] == ts
  {
    seq(n, _ => ts)
  }

  /** The first sighting only seeds the counter; a counter that falls clears the window. */
  function Observed(t: Option<Tracker>, now: int, count: int): Tracker {
    if t.None? then Tracker(count, [])
    else if count > t.value.lastCount then Tracker(count, t.value.events + Copies(now, count - t.value.lastCount))
    else if count < t.value.lastCount then Tracker(count, [])
    else t.value
  }

  function Within(events: seq<int>, now: int, window: int): (kept: seq<int>)
  {
    if events == [] then []
    else (if now - events[0] <= window then [events[0]] else []) + Within(events[1..], now, window)
  }

  function Next(t: Option<Tracker>, p: Pass, window: int): Option<Tracker> {
    var seen := if p.count.Some? then Some(Observed(t, p.now, p.count.value)) else t;
    if seen.None? || !p.alive then None
    else Some(seen.value.(events := Within(seen.value.events, p.now, window)))
  }

  function Run(passes: seq<Pass>, window: int): Option<Tracker>
    decreases |passes|
  {
    if passes == [] then None else Next(Run(passes[..|passes| - 1], window), passes[|passes| - 1], window)
  }

  // ---- Closed form ----

  /** The last counter seen since the instance was last gone. */
  function Baseline(passes: seq<Pass>): Option<int>
    decreases |passes|
  {
    if passes == [] || !passes[|passes| - 1].alive then None
    else if passes[|passes| - 1].count.Some? then passes[|passes| - 1].count
    else Baseline(passes[..|passes| - 1])
  }

  /** How much the last pass saw the counter rise. */
  function Rise(passes: seq<Pass>): nat
    requires passes != []
  {
    var base, p := Baseline(passes[..|passes| - 1]), passes[|passes| - 1];
    if base.Some? && p.count.Some? && p.count.value > base.value then p.count.value - base.value else 0
  }

  /** The last pass starts the replica's record afresh: the instance is gone or the counter fell. */
  predicate Resets(passes: seq<Pass>)
    requires passes != []
  {
    var base, p := Baseline(passes[..|passes| - 1]), passes[|passes| - 1];
    !p.alive || (base.Some? && p.count.Some? && p.count.value < base.value)
  }

  /** The restarts within the window at time now: the rises of the passes since the last reset. */
  function RestartCount(passes: seq<Pass>, now: int, window: int): nat
    decreases |passes|
  {
    if passes == [] || Resets(passes) then 0
    else
      RestartCount(passes[..|passes| - 1], now, window)
      + if now - passes[|passes| - 1].now <= window then Rise(passes) else 0
  }

  predicate Ascending(events: seq<int>) {
    forall i, j :: 0 <= i < j < |events| ==> events[i] <= events[j]
  }

  predicate ClockForward(passes: seq<Pass>) {
    forall i, j :: 0 <= i < j < |passes| ==> passes[i].now <= passes[j].now
  }

  lemma {:induction false} WithinSplit(a: seq<int>, b: seq<int>, now: int, window: int)
    ensures Within(a + b, now, window) == Within(a, now, window) + Within(b, now, window)
  {
    if a == [] {
      assert a + b == b;
    } else {
      assert (a + b)[0] == a[0] && (a + b)[1..] == a[1..] + b;
      WithinSplit(a[1..], b, now, window);
      var head := if now - a[0] <= window then [a[0]] else [];
      assert head + (Within(a[1..], now, window) + Within(b, now, window))
          == head + Within(a[1..], now, window) + Within(b, now, window);
    }
  }

  lemma {:induction false} WithinMember(events: seq<int>, now: int, window: int, i: nat)
    requires i < |Within(events, now, window)|
    ensures Within(events, now, window)[i] in events && now - Within(events, now, window)[i] <= window
  {
    if now - events[0] <= window {
      if i > 0 {
        WithinMember(events[1..], now, window, i - 1);
        assert Within(events[1..], now, window)[i - 1] in events;
      }
    } else {
      WithinMember(events[1..], now, window, i);
    }
  }

  /** The filter keeps exactly what is inside, as often as it was there. */
  lemma {:induction false} WithinKeeps(events: seq<int>, now: int, window: int, ts: int)
    ensures multiset(Within(events, now, window))[ts] == if now - ts <= window then multiset(events)[ts] else 0
  {
    if events != [] {
      var rest := Within(events[1..], now, window);
      assert events == [events[0]] + events[1..];
      assert multiset(events) == multiset([events[0]]) + multiset(events[1..]);
      WithinKeeps(events[1..], now, window, ts);
      var head := if now - events[0] <= window then [events[0]] else [];
      assert multiset(head + rest) == multiset(head) + multiset(rest);
    }
  }

  lemma {:induction false} WithinAscends(events: seq<int>, now: int, window: int)
    requires Ascending(events)
    ensures Ascending(Within(events, now, window))
  {
    if events != [] {
      var tail := events[1..];
      assert forall i :: 0 <= i < |tail| ==> tail[i] == events[i + 1];
      WithinAscends(tail, now, window);
      var rest := Within(tail, now, window);
      forall i | 0 <= i < |rest| ensures events[0] <= rest[i] {
        WithinMember(tail, now, window, i);
      }
    }
  }

  /** Dropping twice, the second time later, is dropping once. */
  lemma {:induction false} WithinTwice(events: seq<int>, now: int, later: int, window: int)
    requires now <= later
    ensures Within(Within(events, now, window), later, window) == Within(events, later, window)
  {
    if events != [] {
      WithinTwice(events[1..], now, later, window);
      var rest := Within(events[1..], now, window);
      assert [] + rest == rest;
      assert ([events[0]] + rest)[0] == events[0] && ([events[0]] + rest)[1..] == rest;
    }
  }

  lemma {:induction false} WithinCopies(ts: int, n: nat, now: int, window: int)
    ensures Within(Copies(ts, n), now, window) == if now - ts <= window then Copies(ts, n) else []
  {
    if n > 0 {
      assert Copies(ts, n)[1..] == Copies(ts, n - 1);
      WithinCopies(ts, n - 1, now, window);
      assert [ts] + Copies(ts, n - 1) == Copies(ts, n);
    }
  }

  function Events(t: Option<Tracker>): seq<int> {
    if t.None? then [] else t.value.events
  }

  lemma {:induction false} RunBaseline(passes: seq<Pass>, window: int)
    ensures Baseline(passes) == match Run(passes, window) case None => None case Some(t) => Some(t.lastCount)
    decreases |passes|
  {
    if passes != [] {
      RunBaseline(passes[..|passes| - 1], window);
    }
  }

  /** What a later look at the window of a run sees, as the sum of the rises in it. */
  lemma {:induction false} RunCounts(passes: seq<Pass>, window: int, later: int)
    requires ClockForward(passes) && (passes != [] ==> passes[|passes| - 1].now <= later)
    ensures |Within(Events(Run(passes, window)), later, window)| == RestartCount(passes, later, window)
    decreases |passes|
  {
    if passes != [] {
      var before, p := passes[..|passes| - 1], passes[|passes| - 1];
      RunBaseline(before, window);
      RunCounts(before, window, later);
      var t := Run(before, window);
      var seen := if p.count.Some? then Some(Observed(t, p.now, p.count.value)) else t;
      if p.alive && seen.Some? {
        WithinTwice(seen.value.events, p.now, later, window);
      }
      if p.count.Some? {
        CountObserved(t, p, window, later);
      }
    }
  }

  lemma CountObserved(t: Option<Tracker>, p: Pass, window: int, later: int)
    requires p.count.Some?
    ensures var kept := Within(Observed(t, p.now, p.count.value).events, later, window);
            && (t.None? || p.count.value < t.value.lastCount ==> kept == [])
            && (t.Some? && p.count.value >= t.value.lastCount ==>
                  |kept| == |Within(t.value.events, later, window)|
                            + if later - p.now <= window then p.count.value - t.value.lastCount else 0)
  {
    if t.Some? && p.count.value > t.value.lastCount {
      WithinSplit(t.value.events, Copies(p.now, p.count.value - t.value.lastCount), later, window);
      WithinCopies(p.now, p.count.value - t.value.lastCount, later, window);
    }
  }

  /**
   After every pass: the window is in order, all of it is inside the window, and
   its length is the sum of the counter's rises that were seen within the window
   since the last reset.
   */
  lemma {:induction false} WindowIsExact(passes: seq<Pass>, window: int)
    requires ClockForward(passes) && passes != []
    ensures var now, events := passes[|passes| - 1].now, Events(Run(passes, window));
            && Ascending(events)
            && (forall i :: 0 <= i < |events| ==> events[i] <= now && now - events[i] <= window)
            && |events| == RestartCount(passes, now, window)
    decreases |passes|
  {
    var now := passes[|passes| - 1].now;
    RunCounts(passes, window, now);
    var before, p := passes[..|passes| - 1], passes[|passes| - 1];
    if before != [] {
      WindowIsExact(before, window);
    }
    WindowOrdered(Run(before, window), p, window);
    WithinAgain(Events(Next(Run(before, window), p, window)), now, window);
  }

  lemma WindowOrdered(t: Option<Tracker>, p: Pass, window: int)
    requires Ascending(Events(t)) && forall i :: 0 <= i < |Events(t)| ==> Events(t)[i] <= p.now
    ensures var events := Events(Next(t, p, window));
            Ascending(events) && forall i :: 0 <= i < |events| ==> events[i] <= p.now && p.now - events[i] <= window
  {
    if p.count.Some? {
      ObservedOrdered(t, p.now, p.count.value);
    }
    hide Observed, Ascending, Within;
    var seen := if p.count.Some? then Some(Observed(t, p.now, p.count.value)) else t;
    if seen.Some? && p.alive {
      FilteredOrdered(seen.value.events, p.now, window);
    } else {
      NothingOrdered();
    }
  }

  lemma NothingOrdered()
    ensures Ascending([])
  {
  }

  lemma ObservedOrdered(t: Option<Tracker>, now: int, count: int)
    requires Ascending(Events(t)) && forall i :: 0 <= i < |Events(t)| ==> Events(t)[i] <= now
    ensures var events := Observed(t, now, count).events;
            Ascending(events) && forall i :: 0 <= i < |events| ==> events[i] <= now
  {
  }

  lemma FilteredOrdered(events: seq<int>, now: int, window: int)
    requires Ascending(events) && forall i :: 0 <= i < |events| ==> events[i] <= now
    ensures var kept := Within(events, now, window);
            Ascending(kept) && forall i :: 0 <= i < |kept| ==> kept[i] <= now && now - kept[i] <= window
  {
    hide Ascending;
    var kept := Within(events, now, window);
    WithinAscends(events, now, window);
    forall i | 0 <= i < |kept| ensures kept[i] <= now && now - kept[i] <= window {
      WithinMember(events, now, window, i);
    }
  }

  /** Everything in the window stays when the same moment looks again. */
  lemma {:induction false} WithinAgain(events: seq<int>, now: int, window: int)
    requires forall i :: 0 <= i < |events| ==> now - events[i] <= window
    ensures Within(events, now, window) == events
  {
    if events != [] {
      WithinAgain(events[1..], now, window);
    }
  }

  // ---- The tracker in place ----

  /** events[..size] is the window; the array is reused when it is filtered. */
  class RestartTracker {
    var seen: bool
    var lastCount: int
    var events: array<int>
    var size: nat

    constructor ()
      ensures Valid() && fresh(events) && Value() == None
    {
      seen, lastCount, size := false, 0, 0;
      events := new int[0];
    }

    ghost predicate Valid()
      reads this
    {
      size <= events.Length && (!seen ==> size == 0)
    }

    ghost function Value(): Option<Tracker>
      requires Valid()
      reads this, events
    {
      if seen then Some(Tracker(lastCount, events[..size])) else None
    }

    method Append(ts: int)
      requires Valid() && seen
      modifies `events, `size, events
      ensures Valid() && (events == old(events) || fresh(events))
      ensures events[..size] == old(events[..size]) + [ts]
    {
      if size == events.Length {
        var n := size;
        var grown := new int[2 * n + 1];
        for i := 0 to n
          invariant size == n <= events.Length && events == old(events) && events[..n] == old(events[..size])
          invariant grown[..i] == events[..i]
        {
          grown[i] := events[i];
        }
        events := grown;
      }
      events[size] := ts;
      size := size + 1;
    }

    /** Takes in a reported counter. */
    method Observe(now: int, count: int)
      requires Valid()
      modifies this, events
      ensures Valid() && (events == old(events) || fresh(events))
      ensures Value() == Some(Observed(old(Value()), now, count))
    {
      if !seen {
        seen := true;
        lastCount := count;
      } else if count > lastCount {
        ghost var before := events[..size];
        assert before + Copies(now, 0) == before;
        for i := lastCount to count
          invariant Valid() && seen && lastCount == old(lastCount)
          invariant events == old(events) || fresh(events)
          invariant events[..size] == before + Copies(now, i - lastCount)
        {
          Append(now);
          assert Copies(now, i + 1 - lastCount) == Copies(now, i - lastCount) + [now];
        }
        lastCount := count;
      } else if count < lastCount {
        size := 0;
        lastCount := count;
      }
    }

    /** Drops, in place, what has aged out of the window. */
    method Drop(now: int, window: int)
      requires Valid() && seen
      modifies `size, events
      ensures Valid() && Value() == Some(old(Value()).value.(events := Within(old(events[..size]), now, window)))
    {
      ghost var all := events[..size];
      assert all[..0] == [];
      var n, kept := size, 0;
      for i := 0 to n
        invariant kept <= i && size == n
        invariant events[..kept] == Within(all[..i], now, window)
        invariant forall j :: i <= j < n ==> events[j] == all[j]
      {
        var ts := events[i];
        WithinNext(all, i, now, window);
        if now - ts <= window {
          events[kept] := ts;
          kept := kept + 1;
        }
      }
      assert all[..size] == all;
      size := kept;
    }
  }

  lemma WithinNext(all: seq<int>, i: nat, now: int, window: int)
    requires i < |all|
    ensures Within(all[..i + 1], now, window)
            == Within(all[..i], now, window) + if now - all[i] <= window then [all[i]] else []
  {
    assert all[..i + 1] == all[..i] + [all[i]];
    WithinSplit(all[..i], [all[i]], now, window);
    assert [all[i]][1..] == [];
  }
}
