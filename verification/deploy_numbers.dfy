/**
 What a revision number tells. Requests and, for new bindings, the scheduler raise
 the revision of an instance, the one on the stored record and the other on the
 leader's copy. Hosts and watchers know a deploy by its number only, so the number
 has to belong to one request. It does as long as no copy runs ahead of the record
 when a request comes, nor catches up with a request that it has not seen.
 */
module DeployNumbers {
  import opened Common
  import opened DeployStages
  import opened DeployBarrier

  /** No number was ever carried for two requests. */
  ghost predicate Unambiguous(z: Zone) {
    forall r, a, b :: (r, a) in z.shown && (r, b) in z.shown ==> a == b
  }

  /** The numbers from that of request a on were carried for this request and later ones only. */
  ghost predicate Names(z: Zone, a: nat) {
    forall r, b :: (r, b) in z.shown && b < a < |z.given| ==> r < z.given[a]
  }

  /** A port or address is bound on a copy, and its revision raised. */
  predicate Raises(s: State, step: Step) {
    step.BindResource? && !step.raised && Live(s) && (step.stage == PORT_ALLOC || step.stage == IPAM_ALLOC)
  }

  /** Some number beyond that of the record has been carried. */
  ghost predicate Overtaken(z: Zone) {
    z.store.Some? && exists r, a :: (r, a) in z.shown && r > z.store.value.deploy.revision
  }

  /** The step raises a copy of an earlier request up to the number of request a. */
  predicate Reaches(z: Zone, zs: ZoneStep, a: nat)
    requires a < |z.given|
  {
    && zs.By? && Raises(StateOf(z, zs.host), zs.step)
    && var d := z.copies[zs.host].deploy; d.request < a && d.revision + 1 >= z.given[a]
  }

  /** The step gives a number out a second time. */
  ghost predicate Clashes(z: Zone, zs: ZoneStep) {
    || (zs.By? && Asks(StateOf(z, zs.host), zs.step) && Overtaken(z))
    || exists a: nat :: a < |z.given| && Reaches(z, zs, a)
  }

  // ---- What every run keeps ----

  ghost predicate InShown(z: Zone, d: Deploy) {
    (d.revision, d.request) in z.shown
  }

  /** Every request has its number, and was carried under that and, without a gap, higher ones. */
  ghost predicate Intervals(z: Zone) {
    && (forall a: nat :: a < |z.given| ==> (z.given[a], a) in z.shown)
    && (forall i, j :: 0 <= i < j < |z.given| ==> z.given[i] < z.given[j])
    && (forall r, a :: (r, a) in z.shown ==> a < |z.given| && z.given[a] <= r)
    && (forall r, a, q: nat :: (r, a) in z.shown && z.given[a] <= q <= r ==> (q, a) in z.shown)
  }

  /** Record and copies are among what was carried; a copy that could be written back is about the last request. */
  ghost predicate Ledger(z: Zone) {
    && Intervals(z)
    && (z.store.None? ==> z.copies == map[] && z.given == [])
    && (z.store.Some? ==> |z.given| == z.store.value.deploy.request + 1 && InShown(z, z.store.value.deploy))
    && forall h :: h in z.copies ==>
         && z.store.Some? && InShown(z, z.copies[h].deploy) && z.copies[h].version <= z.store.value.version
         && (z.copies[h].version == z.store.value.version ==>
               z.copies[h].deploy.request == z.store.value.deploy.request)
  }

  /** Number and request of the copy after the step. */
  function Carried(s: State, step: Step): (nat, nat)
    requires s.entry.Some?
  {
    var d := s.entry.value.deploy;
    (if Raises(s, step) then d.revision + 1 else d.revision, d.request)
  }

  function MarkOf(r: Record): (nat, nat) {
    (r.deploy.revision, r.deploy.request)
  }

  lemma RequestNumbers(s: State, step: Step)
    requires Asks(s, step)
    ensures Next(s, step).entry == s.entry && Next(s, step).store.Some?
    ensures var r := Next(s, step).store.value;
            if s.store.None? then MarkOf(r) == (1, 0)
            else
              var d := s.store.value.deploy;
              MarkOf(r) == (d.revision + 1, d.request + 1) && r.version > s.store.value.version
  {
    hide MarkPreHost;
    if step.CreateInstance? {
      var capped := Min(REPLICA_CAP_MAX, step.cap);
      MarkPreHostRoot(Deploy(START, 1, if capped < 1 then 1 else capped, None, 0), step.rpcStart, step.now);
    } else {
      var d, action, cap := s.store.value.deploy, step.action, step.cap;
      var newAction := if action == "" then d.action else if action == RESTART then START else action;
      var newCap := if cap > 0 then Min(REPLICA_CAP_MAX, cap) else d.replicaCap;
      var asked := d.(action := newAction, replicaCap := newCap, revision := d.revision + 1, request := d.request + 1);
      MarkPreHostRoot(asked, step.rpcStart, step.now);
    }
  }

  /** Any other step moves the record to a number of the copy, if at all, and raises only the copy. */
  lemma OtherNumbers(s: State, step: Step)
    requires !Asks(s, step)
    ensures var t := Next(s, step);
            && (t.store != s.store ==>
                  && t.store.Some? && s.store.Some? && t.store.value.version > s.store.value.version
                  && (|| MarkOf(t.store.value) == MarkOf(s.store.value)
                      || (s.entry.Some? && s.entry.value.version == s.store.value.version
                          && MarkOf(t.store.value) == Carried(s, step))))
            && (s.entry.Some? ==> t.entry.Some?)
            && (t.entry.Some? ==>
                  || t.entry == t.store
                  || (s.entry.Some? && t.entry.value.version == s.entry.value.version
                      && MarkOf(t.entry.value) == Carried(s, step)))
            && (Raises(s, step) ==> t.entry.Some? && MarkOf(t.entry.value) == Carried(s, step))
  {
    hide ReportChanges, Apply, Prune, PlacedNode, UpdateReplica, PruneReplicas, Bind;
  }

  /** The one pair a step may add that was not carried before: the raised copy, or the request. */
  lemma StepShows(z: Zone, host: nat, step: Step)
    requires Ledger(z)
    ensures var s, next := StateOf(z, host), NextZone(z, By(host, step));
            next.shown ==
              if Asks(s, step) then z.shown + Shows(next.store)
              else if Raises(s, step) then z.shown + {Carried(s, step)} else z.shown
  {
    hide Next, Intervals, Raises;
    var s := StateOf(z, host);
    if Asks(s, step) {
      RequestNumbers(s, step);
    } else {
      OtherNumbers(s, step);
      if Raises(s, step) {
        RaisesCopy(s, step);
      } else if s.entry.Some? {
        StaysCarried(s, step);
      }
    }
  }

  lemma RequestKeepsIntervals(z: Zone, next: Zone)
    requires Ledger(z) && next.store.Some?
    requires next.shown == z.shown + Shows(next.store)
    requires next.given == z.given + [next.store.value.deploy.revision]
    requires MarkOf(next.store.value) ==
               if z.store.None? then (1, 0)
               else (z.store.value.deploy.revision + 1, z.store.value.deploy.request + 1)
    ensures Intervals(next)
  {
    var n := |z.given|;
    assert next.store.value.deploy.request == n;
    assert n > 0 ==> z.given[n - 1] <= z.store.value.deploy.revision;
  }

  lemma RaiseKeepsIntervals(z: Zone, next: Zone, d: Deploy)
    requires Intervals(z) && InShown(z, d)
    requires next.shown == z.shown + {(d.revision + 1, d.request)} && next.given == z.given
    ensures Intervals(next)
  {
  }

  lemma NextLedger(z: Zone, zs: ZoneStep)
    requires Ledger(z)
    ensures Ledger(NextZone(z, zs)) && z.shown <= NextZone(z, zs).shown && z.given <= NextZone(z, zs).given
  {
    hide Next, Raises, Intervals;
    if zs.LoseCopy? {
      SameIntervals(z, NextZone(z, zs));
    } else if Asks(StateOf(z, zs.host), zs.step) {
      RequestKeepsLedger(z, zs.host, zs.step);
    } else {
      OtherKeepsLedger(z, zs.host, zs.step);
    }
  }

  lemma RequestKeepsLedger(z: Zone, host: nat, step: Step)
    requires Ledger(z) && Asks(StateOf(z, host), step)
    ensures Ledger(NextZone(z, By(host, step))) && z.shown <= NextZone(z, By(host, step)).shown
  {
    hide Next, Raises, Intervals;
    StepShows(z, host, step);
    RequestNumbers(StateOf(z, host), step);
    RequestKeepsIntervals(z, NextZone(z, By(host, step)));
  }

  lemma OtherKeepsLedger(z: Zone, host: nat, step: Step)
    requires Ledger(z) && !Asks(StateOf(z, host), step)
    ensures Ledger(NextZone(z, By(host, step))) && z.shown <= NextZone(z, By(host, step)).shown
  {
    hide Next, Raises, Intervals, Asks;
    var s, next := StateOf(z, host), NextZone(z, By(host, step));
    StepShows(z, host, step);
    OtherNumbers(s, step);
    if Raises(s, step) {
      RaisesCopy(s, step);
      RaiseKeepsIntervals(z, next, s.entry.value.deploy);
    } else {
      SameIntervals(z, next);
    }
  }

  lemma RaisesCopy(s: State, step: Step)
    requires Raises(s, step)
    ensures s.entry.Some? && !Asks(s, step)
    ensures Carried(s, step) == (s.entry.value.deploy.revision + 1, s.entry.value.deploy.request)
  {
  }

  lemma StaysCarried(s: State, step: Step)
    requires s.entry.Some? && !Raises(s, step)
    ensures Carried(s, step) == MarkOf(s.entry.value)
  {
  }

  lemma SameIntervals(z: Zone, next: Zone)
    requires Intervals(z) && next.shown == z.shown && next.given == z.given
    ensures Intervals(next)
  {
  }

  lemma {:induction false} RunLedger(z: Zone, steps: seq<ZoneStep>)
    requires Ledger(z)
    ensures Ledger(Run(z, steps)) && z.shown <= Run(z, steps).shown && z.given <= Run(z, steps).given
    decreases |steps|
  {
    hide NextZone, Ledger;
    if steps != [] {
      RunLedger(z, steps[..|steps| - 1]);
      NextLedger(Run(z, steps[..|steps| - 1]), steps[|steps| - 1]);
    }
  }

  lemma NewLedger()
    ensures Ledger(INIT) && Unambiguous(INIT)
  {
  }

  // ---- Exactly when a number belongs to one request ----

  lemma CarriedBoth(z: Zone, r: nat, b: nat, a: nat)
    requires Intervals(z) && (r, b) in z.shown && b < a < |z.given| && z.given[a] <= r
    ensures (z.given[a], b) in z.shown && (z.given[a], a) in z.shown
  {
  }

  lemma NumbersExact(z: Zone)
    requires Intervals(z)
    ensures Unambiguous(z) <==> forall a: nat :: a < |z.given| ==> Names(z, a)
  {
    if Unambiguous(z) {
      forall a: nat, r, b | a < |z.given| && (r, b) in z.shown && b < a ensures r < z.given[a] {
        if r >= z.given[a] {
          CarriedBoth(z, r, b, a);
        }
      }
    }
    if forall a: nat :: a < |z.given| ==> Names(z, a) {
      forall r, a, b | (r, a) in z.shown && (r, b) in z.shown ensures a == b {
        assert a < b ==> Names(z, b);
        assert b < a ==> Names(z, a);
      }
    }
  }

  /** One step and the number of one request: it stays its own exactly unless an earlier copy reaches it. */
  lemma NamesStep(z: Zone, zs: ZoneStep, a: nat)
    requires Ledger(z) && a < |z.given|
    ensures Names(NextZone(z, zs), a) <==> Names(z, a) && !Reaches(z, zs, a)
  {
    hide Next, Raises, Asks;
    NextLedger(z, zs);
    if zs.By? {
      var s, next := StateOf(z, zs.host), NextZone(z, zs);
      StepShows(z, zs.host, zs.step);
      if Raises(s, zs.step) {
        RaisesCopy(s, zs.step);
      }
    }
  }

  /** A request gets a number of its own exactly when nothing beyond the record's has been carried. */
  lemma NewNumber(z: Zone, zs: ZoneStep)
    requires Ledger(z) && zs.By? && Asks(StateOf(z, zs.host), zs.step)
    ensures |NextZone(z, zs).given| == |z.given| + 1
    ensures Names(NextZone(z, zs), |z.given|) <==> !Overtaken(z)
  {
    hide Next, Raises;
    var s, next := StateOf(z, zs.host), NextZone(z, zs);
    StepShows(z, zs.host, zs.step);
    RequestNumbers(s, zs.step);
    assert next.given[|z.given|] == next.store.value.deploy.revision;
  }

  lemma UnambiguousStep(z: Zone, zs: ZoneStep)
    requires Ledger(z)
    ensures Unambiguous(NextZone(z, zs)) <==> Unambiguous(z) && !Clashes(z, zs)
  {
    hide NextZone, Names, Unambiguous, Reaches, Overtaken, Raises, Asks;
    var next := NextZone(z, zs);
    NextLedger(z, zs);
    NumbersExact(z);
    NumbersExact(next);
    forall a: nat | a < |z.given| ensures Names(next, a) <==> Names(z, a) && !Reaches(z, zs, a) {
      NamesStep(z, zs, a);
    }
    GivenStep(z, zs);
    if zs.By? && Asks(StateOf(z, zs.host), zs.step) {
      NewNumber(z, zs);
    }
  }

  lemma GivenStep(z: Zone, zs: ZoneStep)
    ensures (zs.By? && Asks(StateOf(z, zs.host), zs.step)) || NextZone(z, zs).given == z.given
  {
    hide Next;
  }

  /**
   Over every run of any hosts: equal revision numbers mean the same request exactly
   when no request comes while a number beyond the record's has been carried, and no
   copy of an earlier request is raised up to the number of a later one.
   */
  lemma {:induction false} NumbersMeanRequests(steps: seq<ZoneStep>)
    ensures Unambiguous(Run(INIT, steps)) <==>
            forall k :: 0 <= k < |steps| ==> !Clashes(Run(INIT, steps[..k]), steps[k])
    decreases |steps|
  {
    NewLedger();
    hide NextZone, Unambiguous, Clashes, Ledger;
    if steps != [] {
      var before := steps[..|steps| - 1];
      NumbersMeanRequests(before);
      RunLedger(INIT, before);
      UnambiguousStep(Run(INIT, before), steps[|steps| - 1]);
      hide Run;
      forall k | 0 <= k < |before|
        ensures Clashes(Run(INIT, before[..k]), before[k]) <==> Clashes(Run(INIT, steps[..k]), steps[k])
      {
        assert before[..k] == steps[..k];
      }
    }
  }

  lemma {:induction false} NamesOn(z: Zone, later: seq<ZoneStep>, a: nat)
    requires Ledger(z) && a < |z.given|
    ensures |z.given| <= |Run(z, later).given|
    ensures Names(Run(z, later), a) <==>
            Names(z, a) && forall k :: 0 <= k < |later| ==> !LaterReaches(z, later, k, a)
    decreases |later|
  {
    hide NextZone, Names, Reaches, Ledger;
    RunLedger(z, later);
    if later != [] {
      var before := later[..|later| - 1];
      NamesOn(z, before, a);
      RunLedger(z, before);
      NamesStep(Run(z, before), later[|later| - 1], a);
      assert later[..|before|] == before;
      assert LaterReaches(z, later, |before|, a) <==> Reaches(Run(z, before), later[|later| - 1], a);
      hide Run;
      forall k | 0 <= k < |before| ensures LaterReaches(z, before, k, a) <==> LaterReaches(z, later, k, a) {
        assert before[..k] == later[..k];
      }
    }
  }

  /** Step k of what comes later raises a copy of an earlier request up to the number of request a. */
  predicate LaterReaches(z: Zone, later: seq<ZoneStep>, k: nat, a: nat)
    requires k < |later|
  {
    a < |Run(z, later[..k]).given| && Reaches(Run(z, later[..k]), later[k], a)
  }

  /**
   For one request, whatever comes before and after it: every number from its own on
   was carried for it or later requests only, exactly when it did not come while a
   number beyond the record's had been carried, and no copy of an earlier request is
   raised up to its number afterwards.
   */
  lemma RequestHasItsNumber(before: seq<ZoneStep>, request: ZoneStep, later: seq<ZoneStep>)
    requires request.By? && Asks(StateOf(Run(INIT, before), request.host), request.step)
    ensures var start := Run(INIT, before);
            var requested, a := NextZone(start, request), |start.given|;
            && Run(INIT, before + [request] + later) == Run(requested, later)
            && a < |requested.given| && requested.given <= Run(requested, later).given
            && (Names(Run(requested, later), a) <==>
                  !Overtaken(start) && forall k :: 0 <= k < |later| ==> !LaterReaches(requested, later, k, a))
  {
    hide Names, Overtaken, LaterReaches, Ledger, NextZone, Asks;
    var start := Run(INIT, before);
    NewLedger();
    RunLedger(INIT, before);
    NewNumber(start, request);
    NextLedger(start, request);
    NamesOn(NextZone(start, request), later, |start.given|);
    RunLedger(NextZone(start, request), later);
    RunSplit(INIT, before + [request], later);
    assert (before + [request])[..|before|] == before;
  }

  // ---- Raises that are written at once ----

  /** The raise reaches the record: the copy is as new as the record, and the write is taken. */
  predicate WrittenRaise(s: State, step: Step) {
    && s.entry.Some? && s.store.Some? && s.entry.value.version == s.store.value.version
    && step.BindResource? && step.written
  }

  /** No raise of the revision stays unwritten. */
  ghost predicate AllRaisesWritten(steps: seq<ZoneStep>) {
    forall k :: 0 <= k < |steps| && steps[k].By? ==>
      var s := StateOf(Run(INIT, steps[..k]), steps[k].host);
      Raises(s, steps[k].step) ==> WrittenRaise(s, steps[k].step)
  }

  /** Nothing beyond the record has been carried, and a copy that could be written back has its number. */
  ghost predicate Settled(z: Zone) {
    && (forall r, a :: (r, a) in z.shown ==> z.store.Some? && r <= z.store.value.deploy.revision)
    && forall h :: h in z.copies ==>
         z.store.Some? && (z.copies[h].version == z.store.value.version ==>
                             z.copies[h].deploy.revision == z.store.value.deploy.revision)
  }

  lemma WrittenMoves(s: State, step: Step)
    requires Raises(s, step) && WrittenRaise(s, step)
    ensures Next(s, step).store == Next(s, step).entry && Next(s, step).store.Some?
    ensures MarkOf(Next(s, step).store.value) == Carried(s, step)
  {
    hide UpdateReplica, Bind;
  }

  lemma SettledStep(z: Zone, zs: ZoneStep)
    requires Ledger(z) && Settled(z)
    requires zs.By? && Raises(StateOf(z, zs.host), zs.step) ==> WrittenRaise(StateOf(z, zs.host), zs.step)
    ensures Settled(NextZone(z, zs)) && !Clashes(z, zs)
  {
    hide Next, Raises, Intervals;
    if zs.By? {
      var s := StateOf(z, zs.host);
      StepShows(z, zs.host, zs.step);
      if Asks(s, zs.step) {
        RequestNumbers(s, zs.step);
      } else {
        OtherNumbers(s, zs.step);
        if Raises(s, zs.step) {
          RaisesCopy(s, zs.step);
          WrittenMoves(s, zs.step);
        } else if s.entry.Some? {
          StaysCarried(s, zs.step);
        }
      }
      RequestRaisesNothing(s, zs.step);
    }
  }

  lemma RequestRaisesNothing(s: State, step: Step)
    ensures Asks(s, step) ==> !Raises(s, step)
  {
  }

  /** When every raise is written at once, every number belongs to one request. */
  lemma {:induction false} WrittenRaisesSuffice(steps: seq<ZoneStep>)
    requires AllRaisesWritten(steps)
    ensures Unambiguous(Run(INIT, steps)) && Settled(Run(INIT, steps))
    decreases |steps|
  {
    NewLedger();
    hide NextZone, Unambiguous, Clashes, Ledger, Raises, WrittenRaise;
    if steps != [] {
      var before, n := steps[..|steps| - 1], |steps| - 1;
      assert steps[..n] == before;
      forall k | 0 <= k < n ensures before[..k] == steps[..k] && before[k] == steps[k] {
      }
      WrittenBefore(steps);
      WrittenRaisesSuffice(before);
      RunLedger(INIT, before);
      SettledStep(Run(INIT, before), steps[n]);
      UnambiguousStep(Run(INIT, before), steps[n]);
    }
  }

  lemma WrittenBefore(steps: seq<ZoneStep>)
    requires AllRaisesWritten(steps) && steps != []
    ensures AllRaisesWritten(steps[..|steps| - 1])
  {
    hide Run, Raises, WrittenRaise;
    var before := steps[..|steps| - 1];
    forall k | 0 <= k < |before| ensures before[..k] == steps[..k] && before[k] == steps[k] {
    }
  }

  // ---- Where it goes wrong ----

  /** An instance that is created, read by the leader and reconciled. */
  function Opening(): seq<ZoneStep> {
    [By(0, CreateInstance(1, 1, 1)), By(0, Step.Refresh), By(0, ReconcileRevision(2, true))]
  }

  /** A port is bound anew; with written false the write of the copy, which hosts are sent all the same, fails. */
  function Raise(written: bool): ZoneStep {
    By(0, BindResource(0, PORT_ALLOC, false, "", 3, written))
  }

  const REQUEST := By(0, DeployInstance("", 0, 4, 4))

  const CREATED := CreateDeploy(1, 1, 1)
  const OPENED := Reconcile(CREATED, 2)
  const RAISED := Rebind(OPENED, 0, PORT_ALLOC, false, "", 3)
  const REQUESTED := UpdateDeploy(OPENED, "", 0, 4, 4)

  lemma Deploys()
    ensures CREATED == Deploy(START, 1, 1, CREATED.stages, 0) && CREATED.Root().revision == 0
    ensures OPENED == Deploy(START, 1, 1, OPENED.stages, 0) && OPENED.Root().revision == 1
    ensures RAISED == Deploy(START, 2, 1, RAISED.stages, 0)
    ensures REQUESTED == Deploy(START, 2, 1, REQUESTED.stages, 1) && REQUESTED.Root().revision == 1
  {
    hide MarkPreHost, PruneReplicas, UpdateReplica;
    MarkPreHostRoot(Deploy(START, 1, 1, None, 0), 1, 1);
    MarkPreHostRoot(OPENED.(revision := 2, request := 1), 4, 4);
  }

  lemma FirstStep(z: Zone, a: ZoneStep)
    ensures Run(z, [a]) == NextZone(z, a)
  {
    hide NextZone;
    assert [a][..0] == [];
  }

  lemma LastStep(z: Zone, steps: seq<ZoneStep>, a: ZoneStep)
    ensures Run(z, steps + [a]) == NextZone(Run(z, steps), a)
  {
    hide NextZone;
    assert (steps + [a])[..|steps|] == steps;
  }

  lemma AfterCreate()
    ensures NextZone(INIT, By(0, CreateInstance(1, 1, 1))) ==
            Zone(Some(Record(1, CREATED)), map[], {(1, 0)}, [1])
  {
    hide CreateDeploy;
    RequestNumbers(State(None, None), CreateInstance(1, 1, 1));
    assert MarkOf(Record(1, CREATED)) == (1, 0);
  }

  /** The host takes over the record, which is newer than its copy if it has one. */
  lemma AfterRefresh(z: Zone, host: nat, r: Record)
    requires z.store == Some(r) && (host in z.copies ==> z.copies[host].version < r.version) && MarkOf(r) in z.shown
    ensures NextZone(z, By(host, Step.Refresh)) == z.(copies := z.copies[host := r])
  {
    assert z.shown + {MarkOf(r)} + {MarkOf(r)} == z.shown;
  }

  /** The host's copy is the record, and is reconciled and written back. */
  lemma AfterReconcile(z: Zone, host: nat, r: Record, now: int)
    requires z.store == Some(r) && host in z.copies && z.copies[host] == r && MarkOf(r) in z.shown
    requires r.deploy.action != DELETE && NeedsReconcile(r.deploy)
    ensures var done := Record(r.version + 1, Reconcile(r.deploy, now));
            NextZone(z, By(host, ReconcileRevision(now, true)))
            == z.(store := Some(done), copies := z.copies[host := done])
  {
    hide PruneReplicas;
    assert z.shown + {MarkOf(r)} + {MarkOf(r)} == z.shown;
  }

  /** A port is bound on the copy, and the write is refused. */
  lemma AfterRaise(z: Zone, host: nat, r: Record, repId: nat, now: int, written: bool)
    requires z.store.Some? && MarkOf(z.store.value) in z.shown && host in z.copies && z.copies[host] == r
    requires r.deploy.action != DELETE && (written ==> z.store.value.version != r.version)
    ensures var raised := Rebind(r.deploy, repId, PORT_ALLOC, false, "", now);
            NextZone(z, By(host, BindResource(repId, PORT_ALLOC, false, "", now, written)))
            == z.(copies := z.copies[host := Record(r.version, raised)],
                  shown := z.shown + {(r.deploy.revision + 1, r.deploy.request)})
  {
    hide UpdateReplica, Bind;
    assert z.shown + {MarkOf(z.store.value)} == z.shown;
  }

  /** A request gets through. */
  lemma AfterRequest(z: Zone, host: nat, r: Record, now: int, asked: Deploy)
    requires z.store == Some(r) && r.deploy.action != DELETE && asked == UpdateDeploy(r.deploy, "", 0, now, now)
    requires host in z.copies && MarkOf(z.copies[host]) in z.shown
    ensures NextZone(z, By(host, DeployInstance("", 0, now, now))) ==
            z.(store := Some(Record(r.version + 1, asked)),
               shown := z.shown + {(r.deploy.revision + 1, r.deploy.request + 1)},
               given := z.given + [r.deploy.revision + 1])
  {
    var step := DeployInstance("", 0, now, now);
    hide UpdateDeploy;
    RequestNumbers(StateOf(z, host), step);
    assert Next(StateOf(z, host), step) == State(Some(Record(r.version + 1, asked)), Some(z.copies[host]));
    hide Next, NextZone;
    RequestStored(z, host, step, Record(r.version + 1, asked));
  }

  /** A request that gets through, at a zone whose copies have all been shown. */
  lemma RequestStored(z: Zone, host: nat, step: Step, after: Record)
    requires host in z.copies && MarkOf(z.copies[host]) in z.shown && Asks(StateOf(z, host), step)
    requires Next(StateOf(z, host), step) == State(Some(after), Some(z.copies[host]))
    ensures NextZone(z, By(host, step)) ==
            z.(store := Some(after), shown := z.shown + {MarkOf(after)}, given := z.given + [after.deploy.revision])
  {
    hide Next, Asks;
    assert z.copies[host := z.copies[host]] == z.copies;
    assert z.shown + {MarkOf(after)} + {MarkOf(z.copies[host])} == z.shown + {MarkOf(after)};
  }

  lemma Opened()
    ensures Run(INIT, Opening()) == Zone(Some(Record(2, OPENED)), map[0 := Record(2, OPENED)], {(1, 0)}, [1])
  {
    hide Run, NextZone, CreateDeploy, Reconcile;
    Deploys();
    var create, refresh := By(0, CreateInstance(1, 1, 1)), By(0, Step.Refresh);
    var reconcile := By(0, ReconcileRevision(2, true));
    FirstStep(INIT, create);
    LastStep(INIT, [create], refresh);
    LastStep(INIT, [create] + [refresh], reconcile);
    assert Opening() == [create] + [refresh] + [reconcile];
    AfterCreate();
    AfterOpening(Run(INIT, [create]), Record(1, CREATED), refresh, reconcile);
  }

  lemma AfterOpening(z: Zone, r: Record, refresh: ZoneStep, reconcile: ZoneStep)
    requires z == Zone(Some(r), map[], {(1, 0)}, [1]) && MarkOf(r) == (1, 0)
    requires r.deploy.action != DELETE && NeedsReconcile(r.deploy)
    requires refresh == By(0, Step.Refresh) && reconcile == By(0, ReconcileRevision(2, true))
    ensures var done := Record(r.version + 1, Reconcile(r.deploy, 2));
            NextZone(NextZone(z, refresh), reconcile) == Zone(Some(done), map[0 := done], {(1, 0)}, [1])
  {
    hide Reconcile, NextZone;
    AfterRefresh(z, 0, r);
    AfterReconcile(NextZone(z, refresh), 0, r, 2);
  }

  /**
   The write of a raised copy fails, and the next request gets the number that the
   copy has been sent to hosts with.
   */
  lemma LostRaise()
    ensures var z := Run(INIT, Opening() + [Raise(false)] + [REQUEST]);
            && z == Zone(Some(Record(3, REQUESTED)), map[0 := Record(2, RAISED)], {(1, 0), (2, 0), (2, 1)}, [1, 2])
            && !Unambiguous(z)
  {
    Deploys();
    Opened();
    hide Reconcile, Rebind, UpdateDeploy, NextZone;
    var ready := Run(INIT, Opening());
    AfterRaise(ready, 0, Record(2, OPENED), 0, 3, false);
    var raised := NextZone(ready, Raise(false));
    AfterRequest(raised, 0, Record(2, OPENED), 4, REQUESTED);
    LastStep(INIT, Opening(), Raise(false));
    LastStep(INIT, Opening() + [Raise(false)], REQUEST);
    var z := NextZone(raised, REQUEST);
    assert (2, 0) in z.shown && (2, 1) in z.shown;
  }

  /**
   No write needs to fail: a request moves the record on, and the leader raises the
   copy it still has to the same number, which the record's version refuses.
   */
  lemma LateRaise()
    ensures !Unambiguous(Run(INIT, Opening() + [REQUEST] + [Raise(true)]))
  {
    Deploys();
    Opened();
    hide Reconcile, Rebind, UpdateDeploy, NextZone;
    var ready := Run(INIT, Opening());
    AfterRequest(ready, 0, Record(2, OPENED), 4, REQUESTED);
    var requested := NextZone(ready, REQUEST);
    AfterRaise(requested, 0, Record(2, OPENED), 0, 3, true);
    LastStep(INIT, Opening(), REQUEST);
    LastStep(INIT, Opening() + [REQUEST], Raise(true));
    var z := NextZone(requested, Raise(true));
    assert (2, 0) in z.shown && (2, 1) in z.shown;
  }
}
