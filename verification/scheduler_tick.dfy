/**
 The scheduler tick on the leader's copies of the instances, which are written back
 to the store by compare-and-set and taken over from it when a record is newer.
 Requests work on the stored records between ticks.
 */
module SchedulerTick {
  import opened Common
  import opened HostPorts
  import opened Scheduler

  predicate Waiting(app: App) {
    !app.deleted && (|app.replicas| < app.cap || exists k :: 0 <= k < |app.replicas| && app.replicas[k].hostId == "")
  }

  /** Replica ids are their positions. */
  ghost predicate Numbered(apps: seq<App>) {
    forall i, k :: 0 <= i < |apps| && 0 <= k < |apps[i].replicas| ==> apps[i].replicas[k].id == k
  }

  /** What the scheduler never does: move a placed replica, drop one, or touch a deleted instance. */
  ghost predicate AppEvolves(before: App, after: App) {
    && after.name == before.name && after.deleted == before.deleted && after.spec == before.spec
    && after.limit == before.limit
    && (before.deleted ==> after == before)
    && |before.replicas| <= |after.replicas|
    && forall k :: 0 <= k < |before.replicas| && before.replicas[k].hostId != "" ==>
         after.replicas[k].hostId == before.replicas[k].hostId
  }

  ghost predicate Evolves(before: seq<App>, after: seq<App>) {
    |before| == |after| && forall i :: 0 <= i < |before| ==> AppEvolves(before[i], after[i])
  }

  lemma ClaimIsListed(apps: seq<App>, used: map<string, seq<nat>>, i: nat, k: nat)
    requires Covered(apps, used) && i < |apps| && !apps[i].deleted && k < |apps[i].replicas|
    requires apps[i].replicas[k].hostId in used
    ensures var rep := apps[i].replicas[k];
            forall p: nat :: p > 0 && CountPorts(rep.ports, p) > 0 ==> p in used[rep.hostId]
  {
    hide CountReplicas, CountPorts, CountApps;
    var rep := apps[i].replicas[k];
    forall p: nat | p > 0 && CountPorts(rep.ports, p) > 0 ensures p in used[rep.hostId] {
      CountReplicasUpdate(apps[i].replicas, k, rep, rep.hostId, p);
      CountAppsUpdate(apps, i, apps[i], rep.hostId, p);
    }
  }

  lemma PlacedBound(rep: Replica, h: string, ports: seq<Port>, listed: seq<nat>, grown: seq<nat>)
    requires rep.hostId == "" && Grows([], ports, listed, grown) && |listed| <= |grown|
    ensures Bound(rep, rep.(hostId := h, ports := ports), listed, grown)
  {
  }

  /** Placing a replica adds its instance's limits to its host and nothing to any other. */
  lemma PlacedAlloc(apps: seq<App>, i: nat, k: nat, rep: Replica)
    requires i < |apps| && !apps[i].deleted && k < |apps[i].replicas| && apps[i].replicas[k].hostId == ""
    ensures forall h: string :: h != "" ==>
              var before, more := AllocApps(apps, h), apps[i].limit;
              AllocApps(apps[i := WithReplica(apps[i], k, rep)], h)
              == if h == rep.hostId then Alloc(before.cpu + more.cpu, before.mem + more.mem, before.vol + more.vol)
                 else before
  {
    hide AllocApps, AllocReplicas;
    forall h: string | h != ""
      ensures var before, more := AllocApps(apps, h), apps[i].limit;
              AllocApps(apps[i := WithReplica(apps[i], k, rep)], h)
              == if h == rep.hostId then Alloc(before.cpu + more.cpu, before.mem + more.mem, before.vol + more.vol)
                 else before
    {
      AllocPlaced(apps[i].replicas, apps[i].limit, k, rep, h);
      AllocAppsPlaced(apps, i, WithReplica(apps[i], k, rep), h, if h == rep.hostId then apps[i].limit else NOTHING);
    }
  }

  lemma SumsKept(before: seq<App>, after: seq<App>)
    requires forall h: string :: h != "" ==> AllocApps(after, h) == AllocApps(before, h)
    ensures forall h: string, a :: h != "" ==> (Allocated(before, h, a) <==> Allocated(after, h, a))
  {
    hide AllocApps, Allocated;
    forall h: string, a | h != ""
      ensures Allocated(before, h, a) <==> Allocated(after, h, a)
    {
      AllocSums(before, h);
      AllocSums(after, h);
    }
  }

  lemma SumsMove(before: seq<App>, after: seq<App>, sums: map<string, Alloc>, ops: map<string, Alloc>)
    requires forall h :: h in sums && sums[h] == AllocApps(before, h) ==> h in ops && ops[h] == AllocApps(after, h)
    ensures forall h :: h in sums && Allocated(before, h, sums[h]) ==> h in ops && Allocated(after, h, ops[h])
  {
    hide AllocApps, Allocated;
    forall h | h in sums && Allocated(before, h, sums[h])
      ensures h in ops && Allocated(after, h, ops[h])
    {
      AllocSums(before, h);
      AllocSums(after, h);
    }
  }

  /** Only bindings differ. */
  ghost predicate SamePlacement(before: seq<App>, after: seq<App>) {
    && |before| == |after|
    && forall i :: 0 <= i < |before| ==>
         && after[i] == before[i].(replicas := after[i].replicas)
         && (before[i].deleted ==> after[i] == before[i])
         && |after[i].replicas| == |before[i].replicas|
         && forall k :: 0 <= k < |before[i].replicas| ==> after[i].replicas[k].hostId == before[i].replicas[k].hostId
  }

  /** Replica k of instance i is placed and was not before, or was not there. */
  ghost predicate NewlyPlaced(before: seq<App>, after: seq<App>, i: nat, k: nat) {
    && i < |before| == |after| && k < |after[i].replicas| && after[i].replicas[k].hostId != ""
    && (k < |before[i].replicas| ==> before[i].replicas[k].hostId == "")
  }

  ghost predicate AtMostOnePlaced(before: seq<App>, after: seq<App>) {
    forall i: nat, k: nat, j: nat, l: nat ::
      NewlyPlaced(before, after, i, k) && NewlyPlaced(before, after, j, l) ==> i == j && k == l
  }

  // ---- Missing replicas ----

  function Clamp(cap: nat): nat {
    if cap > REPLICA_CAP_MAX then REPLICA_CAP_MAX else if cap < 1 then 1 else cap
  }

  /** Unplaced replicas with the ids from n to cap. */
  function Missing(n: nat, cap: nat): (reps: seq<Replica>)
    ensures |reps| == if n < cap then cap - n else 0
    ensures forall k :: 0 <= k < |reps| ==> reps[k] == Replica(n + k, "", [])
    decreases cap - n
  {
    if n >= cap then [] else [Replica(n, "", [])] + Missing(n + 1, cap)
  }

  /** The cap in range, and as many replicas. */
  function Extended(app: App): App {
    app.(cap := Clamp(app.cap), replicas := app.replicas + Missing(|app.replicas|, Clamp(app.cap)))
  }

  function FirstUnplaced(reps: seq<Replica>): (k: nat)
    ensures k <= |reps| && (k < |reps| ==> reps[k].hostId == "")
    ensures forall j :: 0 <= j < k ==> reps[j].hostId != ""
  {
    if reps == [] || reps[0].hostId == "" then 0 else 1 + FirstUnplaced(reps[1..])
  }

  /** Adding unplaced replicas changes no claim and no allocation. */
  lemma {:induction false} MissingCounts(reps: seq<Replica>, n: nat, cap: nat, limit: Alloc, h: string, p: nat)
    requires h != ""
    ensures CountReplicas(reps + Missing(n, cap), h, p) == CountReplicas(reps, h, p)
    ensures AllocReplicas(reps + Missing(n, cap), limit, h) == AllocReplicas(reps, limit, h)
    decreases cap - n
  {
    if n >= cap {
      assert reps + [] == reps;
    } else {
      var more := reps + [Replica(n, "", [])];
      assert more[..|reps|] == reps;
      MissingCounts(more, n + 1, cap, limit, h, p);
      assert reps + ([Replica(n, "", [])] + Missing(n + 1, cap)) == more + Missing(n + 1, cap);
    }
  }

  lemma ExtendedKeeps(apps: seq<App>, i: nat)
    requires i < |apps| && !apps[i].deleted
    ensures var more := apps[i := Extended(apps[i])];
            && (forall h: string, p: nat :: h != "" ==>
                  CountApps(more, h, p) == CountApps(apps, h, p) && CountApp(more[i], h, p) == CountApp(apps[i], h, p))
            && (forall h: string :: h != "" ==> AllocApps(more, h) == AllocApps(apps, h))
            && Evolves(apps, more)
  {
    hide CountApps, AllocApps, CountReplicas, AllocReplicas, Missing;
    var app := Extended(apps[i]);
    forall h: string, p: nat | h != ""
      ensures CountApps(apps[i := app], h, p) == CountApps(apps, h, p) && CountApp(app, h, p) == CountApp(apps[i], h, p)
    {
      MissingCounts(apps[i].replicas, |apps[i].replicas|, Clamp(apps[i].cap), apps[i].limit, h, p);
      CountAppsUpdate(apps, i, app, h, p);
    }
    forall h: string | h != "" ensures AllocApps(apps[i := app], h) == AllocApps(apps, h) {
      MissingCounts(apps[i].replicas, |apps[i].replicas|, Clamp(apps[i].cap), apps[i].limit, h, 0);
      AllocAppsPlaced(apps, i, app, h, NOTHING);
    }
  }

  // ---- Records and copies ----

  /** A stored instance with its version. */
  datatype Stored = Stored(version: nat, app: App)

  /** Every copy was read from its record, at this version or an earlier one; later records are not read yet. */
  predicate Shape(apps: seq<App>, versions: seq<nat>, records: seq<Stored>) {
    |apps| == |versions| <= |records| && forall i :: 0 <= i < |apps| ==> versions[i] <= records[i].version
  }

  function RecordApps(records: seq<Stored>): (apps: seq<App>)
    ensures |apps| == |records| && forall i :: 0 <= i < |apps| ==> apps[i] == records[i].app
  {
    seq(|records|, i requires 0 <= i < |records| => records[i].app)
  }

  /** The copies after a reload: every newer record, and every new one, is taken over. */
  function Loaded(apps: seq<App>, versions: seq<nat>, records: seq<Stored>): (loaded: seq<App>)
    requires Shape(apps, versions, records)
    ensures |loaded| == |records|
    ensures forall i :: 0 <= i < |loaded| ==>
              loaded[i] == if i < |apps| && versions[i] == records[i].version then apps[i] else records[i].app
  {
    seq(|records|, i requires 0 <= i < |records| && |apps| == |versions| =>
      if i < |apps| && versions[i] == records[i].version then apps[i] else records[i].app)
  }

  /** The reload makes instance i claim a port that the leader's copy of it did not claim. */
  ghost predicate Regains(apps: seq<App>, loaded: seq<App>, i: nat, h: string, p: nat) {
    i < |loaded| && CountApp(loaded[i], h, p) > 0 && (i < |apps| ==> CountApp(apps[i], h, p) == 0)
  }

  /** No regained port is held by another instance. */
  ghost predicate RegainsFree(apps: seq<App>, loaded: seq<App>) {
    forall i: nat, h: string, p: nat, j: nat ::
      h != "" && p > 0 && Regains(apps, loaded, i, h, p) && j < |loaded| && j != i ==> CountApp(loaded[j], h, p) == 0
  }

  lemma {:induction false} TwoClaimants(apps: seq<App>, h: string, p: nat) returns (i: nat, j: nat)
    requires CountApps(apps, h, p) >= 2 && forall k :: 0 <= k < |apps| ==> CountApp(apps[k], h, p) <= 1
    ensures i < j < |apps| && CountApp(apps[i], h, p) == 1 && CountApp(apps[j], h, p) == 1
    decreases |apps|
  {
    hide CountApp;
    var n := |apps| - 1;
    assert forall k :: 0 <= k < n ==> apps[..n][k] == apps[k];
    if CountApp(apps[n], h, p) == 0 {
      i, j := TwoClaimants(apps[..n], h, p);
    } else {
      i := OneClaimant(apps[..n], h, p);
      j := n;
    }
  }

  lemma {:induction false} OneClaimant(apps: seq<App>, h: string, p: nat) returns (i: nat)
    requires CountApps(apps, h, p) >= 1
    ensures i < |apps| && CountApp(apps[i], h, p) >= 1
    decreases |apps|
  {
    hide CountApp;
    var n := |apps| - 1;
    if CountApp(apps[n], h, p) == 0 {
      i := OneClaimant(apps[..n], h, p);
    } else {
      i := n;
    }
  }

  /**
   A reload keeps the claims disjoint exactly when no port that it gives back to an
   instance, one that the leader's copy had let go, is held by another.
   */
  lemma ReloadExact(apps: seq<App>, versions: seq<nat>, records: seq<Stored>)
    requires Shape(apps, versions, records) && Disjoint(apps) && Own(RecordApps(records))
    ensures Disjoint(Loaded(apps, versions, records)) <==> RegainsFree(apps, Loaded(apps, versions, records))
  {
    hide CountApps, CountApp;
    var loaded := Loaded(apps, versions, records);
    if Disjoint(loaded) {
      forall i: nat, h: string, p: nat, j: nat
        | h != "" && p > 0 && Regains(apps, loaded, i, h, p) && j < |loaded| && j != i
        ensures CountApp(loaded[j], h, p) == 0
      {
        TwoApps(loaded, i, j, h, p);
      }
    }
    if RegainsFree(apps, loaded) {
      forall h: string, p: nat | h != "" && p > 0 ensures CountApps(loaded, h, p) <= 1 {
        LoadedOwn(apps, versions, records, h, p);
        if CountApps(loaded, h, p) >= 2 {
          var i, j := TwoClaimants(loaded, h, p);
          NotRegained(apps, loaded, i, j, h, p);
        }
      }
    }
  }

  lemma NotRegained(apps: seq<App>, loaded: seq<App>, i: nat, j: nat, h: string, p: nat)
    requires RegainsFree(apps, loaded) && i < j < |loaded| && h != "" && p > 0
    requires CountApp(loaded[i], h, p) == 1 && CountApp(loaded[j], h, p) == 1
    ensures j < |apps| && CountApps(apps, h, p) >= 2
  {
    hide CountApps, CountApp;
    assert !Regains(apps, loaded, i, h, p);
    assert !Regains(apps, loaded, j, h, p);
    TwoApps(apps, i, j, h, p);
  }

  lemma LoadedOwn(apps: seq<App>, versions: seq<nat>, records: seq<Stored>, h: string, p: nat)
    requires Shape(apps, versions, records) && Disjoint(apps) && Own(RecordApps(records)) && h != "" && p > 0
    ensures forall k :: 0 <= k < |records| ==> CountApp(Loaded(apps, versions, records)[k], h, p) <= 1
  {
    hide CountApps, CountApp;
    var loaded := Loaded(apps, versions, records);
    forall k | 0 <= k < |records| ensures CountApp(loaded[k], h, p) <= 1 {
      if k < |apps| && versions[k] == records[k].version {
        CountAppsUpdate(apps, k, apps[k], h, p);
      } else {
        assert CountApp(RecordApps(records)[k], h, p) <= 1;
      }
    }
  }

  /** What a record claims, the leader's copy of it claims. */
  ghost predicate Backed(apps: seq<App>, records: seq<Stored>) {
    forall i: nat, h: string, p: nat :: i < |records| && h != "" && p > 0 && CountApp(records[i].app, h, p) > 0 ==>
      i < |apps| && CountApp(apps[i], h, p) > 0
  }

  /** With nothing lost on the way to the store there is nothing to regain. */
  lemma BackedReload(apps: seq<App>, versions: seq<nat>, records: seq<Stored>)
    requires Shape(apps, versions, records) && Disjoint(apps) && Own(RecordApps(records)) && Backed(apps, records)
    ensures Disjoint(Loaded(apps, versions, records)) && Backed(Loaded(apps, versions, records), records)
  {
    hide CountApps, CountApp;
    ReloadExact(apps, versions, records);
  }

  /**
   How a refused write leads there: A lets port q go for a new binding that never
   reaches the store, B is given q, and the record of A, moved on by a request, is
   taken over. Each step is one that the scheduler takes; the state before the
   reload is disjoint, the one after it is not.
   */
  lemma ReloadConflict(h: string, q: nat, r: nat, a: App, b: App)
    requires h != "" && q > 0 && r > 0 && q != r && !a.deleted && !b.deleted
    ensures var oldA := a.(replicas := [Replica(0, h, [Port("web", 80, q)])]);
            var newA := a.(replicas := [Replica(0, h, [Port("api", 81, r)])]);
            var waitingB := b.(replicas := [Replica(0, "", [])]);
            var placedB := b.(replicas := [Replica(0, h, [Port("web", 80, q)])]);
            var records := [Stored(2, oldA), Stored(2, placedB)];
            && Bound(oldA.replicas[0], newA.replicas[0], [q], [q, r])
            && Bound(waitingB.replicas[0], placedB.replicas[0], [r], [q, r])
            && Shape([newA, placedB], [1, 2], records) && Own(RecordApps(records))
            && Disjoint([newA, placedB])
            && !Disjoint(Loaded([newA, placedB], [1, 2], records))
  {
    var oldA := a.(replicas := [Replica(0, h, [Port("web", 80, q)])]);
    var newA := a.(replicas := [Replica(0, h, [Port("api", 81, r)])]);
    var placedB := b.(replicas := [Replica(0, h, [Port("web", 80, q)])]);
    var records := [Stored(2, oldA), Stored(2, placedB)];
    OneBinding(Port("web", 80, q));
    OneBinding(Port("api", 81, r));
    OneReplica(oldA, h, Port("web", 80, q));
    OneReplica(newA, h, Port("api", 81, r));
    OneReplica(placedB, h, Port("web", 80, q));
    TwoInstances(newA, placedB);
    TwoInstances(oldA, placedB);
    assert Loaded([newA, placedB], [1, 2], records) == [oldA, placedB];
    assert CountApps([oldA, placedB], h, q) == 2;
  }

  lemma OneBinding(port: Port)
    ensures forall p: nat :: CountPorts([port], p) == if port.hostPort == p then 1 else 0
  {
    assert [port][..0] == [];
  }

  lemma OneReplica(app: App, h: string, port: Port)
    requires !app.deleted && app.replicas == [Replica(0, h, [port])]
    ensures forall g: string, p: nat :: CountApp(app, g, p) == if g == h && port.hostPort == p then 1 else 0
  {
    OneBinding(port);
    forall g: string, p: nat ensures CountApp(app, g, p) == if g == h && port.hostPort == p then 1 else 0 {
      assert app.replicas[..0] == [];
      assert CountReplicas(app.replicas, g, p)
          == CountReplicas(app.replicas[..0], g, p) + CountReplica(app.replicas[0], g, p);
    }
  }

  lemma TwoInstances(a: App, b: App)
    ensures forall h: string, p: nat :: CountApps([a, b], h, p) == CountApp(a, h, p) + CountApp(b, h, p)
  {
    forall h: string, p: nat ensures CountApps([a, b], h, p) == CountApp(a, h, p) + CountApp(b, h, p) {
      assert [a, b][..1] == [a] && [a][..0] == [];
      assert CountApps([a], h, p) == CountApps([a][..0], h, p) + CountApp(a, h, p);
    }
  }

  /** Every record but one is backed. */
  ghost predicate BackedBut(apps: seq<App>, records: seq<Stored>, i: nat) {
    forall j: nat, h: string, p: nat ::
      j < |records| && j != i && h != "" && p > 0 && CountApp(records[j].app, h, p) > 0 ==>
        j < |apps| && CountApp(apps[j], h, p) > 0
  }

  lemma LoadedValid(apps: seq<App>, versions: seq<nat>, records: seq<Stored>)
    requires Shape(apps, versions, records) && Own(apps) && Own(RecordApps(records))
    requires Numbered(apps) && Numbered(RecordApps(records))
    ensures Own(Loaded(apps, versions, records)) && Numbered(Loaded(apps, versions, records))
  {
    hide CountApp;
    var loaded := Loaded(apps, versions, records);
    forall i: nat, h: string, p: nat | i < |loaded| && h != "" && p > 0 ensures CountApp(loaded[i], h, p) <= 1 {
      assert CountApp(RecordApps(records)[i], h, p) <= 1;
    }
    forall i, k | 0 <= i < |loaded| && 0 <= k < |loaded[i].replicas| ensures loaded[i].replicas[k].id == k {
      assert loaded[i] == RecordApps(records)[i] || (i < |apps| && loaded[i] == apps[i]);
    }
  }

  lemma FlushedValid(apps: seq<App>, records: seq<Stored>, i: nat)
    requires |apps| <= |records| && i < |apps|
    requires Own(apps) && Own(RecordApps(records)) && Numbered(apps) && Numbered(RecordApps(records))
    ensures var flushed := records[i := Stored(records[i].version + 1, apps[i])];
            Own(RecordApps(flushed)) && Numbered(RecordApps(flushed))
  {
    hide CountApp;
    var flushed := records[i := Stored(records[i].version + 1, apps[i])];
    assert RecordApps(flushed) == RecordApps(records)[i := apps[i]];
  }

  lemma UpdatedRecord(apps: seq<App>, records: seq<Stored>, i: nat, app: App)
    requires i < |records| && !records[i].app.deleted && app.replicas == records[i].app.replicas
    requires Own(RecordApps(records)) && Numbered(RecordApps(records))
    ensures var updated := records[i := Stored(records[i].version + 1, app)];
            && Own(RecordApps(updated)) && Numbered(RecordApps(updated))
            && (Backed(apps, records) ==> Backed(apps, updated))
  {
    hide CountReplicas;
    var updated := records[i := Stored(records[i].version + 1, app)];
    assert RecordApps(updated) == RecordApps(records)[i := app];
    forall h: string, p: nat ensures CountApp(app, h, p) <= CountApp(RecordApps(records)[i], h, p) {
    }
    assert forall k :: 0 <= k < |app.replicas| ==> RecordApps(records)[i].replicas[k].id == k;
  }

  lemma CreatedRecord(apps: seq<App>, records: seq<Stored>, app: App)
    requires app.replicas == [] && Own(RecordApps(records)) && Numbered(RecordApps(records))
    ensures var more := records + [Stored(1, app)];
            Own(RecordApps(more)) && Numbered(RecordApps(more)) && (Backed(apps, records) ==> Backed(apps, more))
  {
    hide CountReplicas;
    var more := records + [Stored(1, app)];
    assert RecordApps(more) == RecordApps(records) + [app];
    forall h: string, p: nat ensures CountApp(app, h, p) == 0 {
      NoReplicas(h, p);
    }
  }

  lemma NoReplicas(h: string, p: nat)
    ensures CountReplicas([], h, p) == 0
  {
  }

  // ---- Bindings of a whole instance ----

  /** Replicas before k on known hosts have a binding for every valid port of the spec, unless the host has run out. */
  ghost predicate BoundUpTo(app: App, used: map<string, seq<nat>>, k: nat) {
    forall j, s :: 0 <= j < k && j < |app.replicas| && app.replicas[j].hostId in used
                   && 0 <= s < |app.spec| && 1 <= app.spec[s].port < 65536 ==>
      HasBinding(app.replicas[j].ports, app.spec[s].port) || |used[app.replicas[j].hostId]| >= HOST_PORT_LIMIT
  }

  ghost predicate WellBound(app: App, used: map<string, seq<nat>>) {
    app.deleted || BoundUpTo(app, used, |app.replicas|)
  }

  ghost predicate UsedGrows(before: map<string, seq<nat>>, after: map<string, seq<nat>>) {
    before.Keys == after.Keys && forall h :: h in before ==> |before[h]| <= |after[h]|
  }

  lemma BoundStays(app: App, before: map<string, seq<nat>>, after: map<string, seq<nat>>, k: nat)
    requires BoundUpTo(app, before, k) && UsedGrows(before, after)
    ensures BoundUpTo(app, after, k)
  {
  }

  lemma WellBoundStays(app: App, before: map<string, seq<nat>>, after: map<string, seq<nat>>)
    requires WellBound(app, before) && UsedGrows(before, after)
    ensures WellBound(app, after)
  {
    if !app.deleted {
      BoundStays(app, before, after, |app.replicas|);
    }
  }

  lemma BoundNext(app: App, k: nat, rep: Replica, before: map<string, seq<nat>>, after: map<string, seq<nat>>)
    requires k < |app.replicas| && BoundUpTo(app, before, k) && UsedGrows(before, after)
    requires rep.hostId in after
    requires forall s :: 0 <= s < |app.spec| && 1 <= app.spec[s].port < 65536 ==>
               HasBinding(rep.ports, app.spec[s].port) || |after[rep.hostId]| >= HOST_PORT_LIMIT
    ensures BoundUpTo(WithReplica(app, k, rep), after, k + 1)
  {
  }

  lemma SkippedBound(app: App, used: map<string, seq<nat>>, k: nat)
    requires k < |app.replicas| && BoundUpTo(app, used, k) && app.replicas[k].hostId !in used
    ensures BoundUpTo(app, used, k + 1)
  {
  }

  lemma NothingBound(app: App, used: map<string, seq<nat>>)
    ensures BoundUpTo(app, used, 0)
  {
  }

  lemma Unchanged(apps: seq<App>, used: map<string, seq<nat>>)
    ensures SamePlacement(apps, apps) && NoNewConflict(apps, apps) && UsedGrows(used, used)
  {
    hide CountApps;
  }

  /** Placing the first unplaced replica, bound to its spec, leaves the whole instance bound. */
  lemma BoundPlaced(app: App, k: nat, rep: Replica, before: map<string, seq<nat>>, after: map<string, seq<nat>>)
    requires k < |app.replicas| && BoundUpTo(app, before, |app.replicas|) && UsedGrows(before, after)
    requires rep.hostId in after
    requires forall s :: 0 <= s < |app.spec| && 1 <= app.spec[s].port < 65536 ==>
               HasBinding(rep.ports, app.spec[s].port) || |after[rep.hostId]| >= HOST_PORT_LIMIT
    ensures BoundUpTo(WithReplica(app, k, rep), after, |app.replicas|)
  {
  }

  lemma BoundExtended(app: App, used: map<string, seq<nat>>)
    requires BoundUpTo(app, used, |app.replicas|) && "" !in used
    ensures BoundUpTo(Extended(app), used, |Extended(app).replicas|)
  {
    hide Missing;
  }

  // ---- What the steps of a tick do to placement ----

  lemma SamePlacementOne(start: seq<App>, apps: seq<App>, i: nat, k: nat, rep: Replica)
    requires SamePlacement(start, apps) && i < |apps| && !apps[i].deleted && k < |apps[i].replicas|
    requires rep.hostId == apps[i].replicas[k].hostId
    ensures SamePlacement(start, apps[i := WithReplica(apps[i], k, rep)])
  {
  }

  lemma SamePlacementEvolves(a: seq<App>, b: seq<App>)
    requires SamePlacement(a, b)
    ensures Evolves(a, b) && NonePlaced(a, b)
  {
  }

  lemma SamePlacementChain(a: seq<App>, b: seq<App>, c: seq<App>)
    requires SamePlacement(a, b) && SamePlacement(b, c)
    ensures SamePlacement(a, c)
  {
    forall i | 0 <= i < |a| ensures c[i] == a[i].(replicas := c[i].replicas) {
      assert b[i] == a[i].(replicas := b[i].replicas);
    }
  }

  /** Bindings do not count as waiting: a rebound instance waits exactly when it did. */
  lemma SameWaiting(a: App, b: App)
    requires b == a.(replicas := b.replicas) && |a.replicas| == |b.replicas|
    requires forall k :: 0 <= k < |a.replicas| ==> a.replicas[k].hostId == b.replicas[k].hostId
    ensures FirstUnplaced(a.replicas) == FirstUnplaced(b.replicas)
    ensures FirstUnplaced(Extended(a).replicas) == FirstUnplaced(Extended(b).replicas)
  {
    hide Missing;
    var x, y := Extended(a).replicas, Extended(b).replicas;
    assert forall k :: 0 <= k < |x| ==> x[k].hostId == y[k].hostId;
    FirstSame(x, y);
    FirstSame(a.replicas, b.replicas);
  }

  lemma FirstSame(x: seq<Replica>, y: seq<Replica>)
    requires |x| == |y| && forall k :: 0 <= k < |x| ==> x[k].hostId == y[k].hostId
    ensures FirstUnplaced(x) == FirstUnplaced(y)
  {
    var i, j := FirstUnplaced(x), FirstUnplaced(y);
    assert forall k :: 0 <= k < |x| ==> (x[k].hostId == "" <==> y[k].hostId == "");
  }

  /** Extending and then placing one replica places just that one. */
  lemma PlacingOne(start: seq<App>, mid: seq<App>, after: seq<App>, i: nat, k: nat, rep: Replica)
    requires SamePlacement(start, mid) && i < |mid| && !mid[i].deleted
    requires k < |Extended(mid[i]).replicas| && Extended(mid[i]).replicas[k].hostId == "" && rep.hostId != ""
    requires after == mid[i := WithReplica(Extended(mid[i]), k, rep)]
    ensures Evolves(start, after) && AtMostOnePlaced(start, after) && NewlyPlaced(start, after, i, k)
  {
    hide Missing;
    var ext := Extended(mid[i]).replicas;
    assert forall l: nat :: |mid[i].replicas| <= l < |ext| ==> ext[l].hostId == "";
    assert forall l: nat :: l < |ext| && l != k ==> after[i].replicas[l] == ext[l];
  }

  /** Extending alone places nothing. */
  lemma PlacingNone(start: seq<App>, mid: seq<App>, i: nat)
    requires SamePlacement(start, mid) && i < |mid| && !mid[i].deleted
    ensures Evolves(start, mid[i := Extended(mid[i])]) && NonePlaced(start, mid[i := Extended(mid[i])])
  {
    hide Missing;
    var ext := Extended(mid[i]).replicas;
    assert forall l: nat :: |mid[i].replicas| <= l < |ext| ==> ext[l].hostId == "";
  }

  ghost predicate NonePlaced(before: seq<App>, after: seq<App>) {
    forall i: nat, k: nat :: !NewlyPlaced(before, after, i, k)
  }

  lemma DeletedClaims(apps: seq<App>, i: nat, gone: App)
    requires i < |apps| && gone.deleted && Own(apps)
    ensures NoNewConflict(apps, apps[i := gone]) && Own(apps[i := gone])
  {
    hide CountApps, CountReplicas;
    forall h: string, p: nat | h != "" && p > 0 ensures CountApps(apps[i := gone], h, p) <= CountApps(apps, h, p) {
      CountAppsUpdate(apps, i, gone, h, p);
    }
  }

  /** The instance that the tick places a replica of, or the number of instances. */
  function FirstWaiting(apps: seq<App>): (i: nat)
    ensures i <= |apps| && (i < |apps| ==> Waiting(apps[i]))
    ensures forall j :: 0 <= j < i ==> !Waiting(apps[j])
  {
    if apps == [] || Waiting(apps[0]) then 0 else 1 + FirstWaiting(apps[1..])
  }

  /** Instance i was extended, and its replica k is now this one. */
  ghost predicate PlacedAs(before: seq<App>, after: seq<App>, i: nat, k: nat, rep: Replica) {
    i < |before| && k < |Extended(before[i]).replicas| && after == before[i := WithReplica(Extended(before[i]), k, rep)]
  }

  ghost predicate PlacedAt(before: seq<App>, after: seq<App>, i: nat, k: nat, h: string) {
    exists rep :: PlacedAs(before, after, i, k, rep) && rep.hostId == h
  }

  /** Both ways to know that a reload is safe. */
  lemma ReloadKeeps(apps: seq<App>, versions: seq<nat>, records: seq<Stored>)
    requires Shape(apps, versions, records) && Own(RecordApps(records))
    ensures var loaded := Loaded(apps, versions, records);
            Disjoint(apps) && (RegainsFree(apps, loaded) || Backed(apps, records)) ==> Disjoint(loaded)
  {
    hide CountApps, CountApp, Shape, Own, RegainsFree, Backed, Disjoint;
    if Disjoint(apps) {
      ReloadExact(apps, versions, records);
      if Backed(apps, records) {
        BackedReload(apps, versions, records);
      }
    }
  }

  lemma NoConflictKeepsIf(before: seq<App>, after: seq<App>)
    requires NoNewConflict(before, after)
    ensures Disjoint(before) ==> Disjoint(after)
  {
    hide CountApps;
  }

  /** The allocations of these hosts are the sums over all placed replicas of live instances. */
  ghost predicate Accounted(apps: seq<App>, ops: map<string, Alloc>, hosts: set<string>) {
    forall h :: h in hosts ==> h in ops && Allocated(apps, h, ops[h])
  }

  /** If an instance waits for a replica within its cap, its first unplaced one is now on this host. */
  ghost predicate NextPlaced(before: seq<App>, after: seq<App>, h: string) {
    var i := FirstWaiting(before);
    i < |before| == |after| ==>
      var k := FirstUnplaced(Extended(before[i]).replicas);
      k < |Extended(before[i]).replicas| ==> NewlyPlaced(before, after, i, k) && after[i].replicas[k].hostId == h
  }

  lemma NothingYet(apps: seq<App>, used: map<string, seq<nat>>)
    ensures SamePlacement(apps, apps) && NoNewConflict(apps, apps) && UsedGrows(used, used)
    ensures Evolves(apps, apps) && AtMostOnePlaced(apps, apps)
  {
    hide CountApps;
    SamePlacementEvolves(apps, apps);
  }

  /** The waiting instance is live, and rebinding does not change which of its replicas is next. */
  lemma StillWaiting(start: seq<App>, apps: seq<App>, i: nat)
    requires SamePlacement(start, apps) && i < |start| && Waiting(start[i])
    ensures !apps[i].deleted && |Extended(apps[i]).replicas| == |Extended(start[i]).replicas|
    ensures FirstUnplaced(Extended(apps[i]).replicas) == FirstUnplaced(Extended(start[i]).replicas)
  {
    hide Missing;
    assert apps[i] == start[i].(replicas := apps[i].replicas);
    SameWaiting(start[i], apps[i]);
  }

  /** What the tick has placed in the end. */
  lemma TickPlaced(start: seq<App>, mid: seq<App>, after: seq<App>, i: nat, hit: Option<string>, known: set<string>)
    requires SamePlacement(start, mid) && i < |start| && Waiting(start[i])
    requires hit.Some? ==> hit.value in known && hit.value != ""
    requires var k := FirstUnplaced(Extended(mid[i]).replicas);
             if k == |Extended(mid[i]).replicas| || hit.None? || hit.value !in known
             then after == mid[i := Extended(mid[i])]
             else PlacedAt(mid, after, i, k, hit.value)
    ensures Evolves(start, after) && AtMostOnePlaced(start, after)
    ensures hit.Some? ==>
              var k := FirstUnplaced(Extended(start[i]).replicas);
              k < |Extended(start[i]).replicas| ==>
                  NewlyPlaced(start, after, i, k) && after[i].replicas[k].hostId == hit.value
  {
    hide Missing, Extended, Evolves, AtMostOnePlaced, NewlyPlaced;
    StillWaiting(start, mid, i);
    var k := FirstUnplaced(Extended(mid[i]).replicas);
    if k == |Extended(mid[i]).replicas| || hit.None? {
      PlacingNone(start, mid, i);
      NoneIsAtMostOne(start, mid[i := Extended(mid[i])]);
    } else {
      var rep :| PlacedAs(mid, after, i, k, rep) && rep.hostId == hit.value;
      PlacingOne(start, mid, after, i, k, rep);
    }
  }

  lemma NoneIsAtMostOne(before: seq<App>, after: seq<App>)
    requires NonePlaced(before, after)
    ensures AtMostOnePlaced(before, after)
  {
    hide NewlyPlaced;
  }

  lemma ExtendedLive(app: App)
    ensures Extended(app).deleted == app.deleted && Extended(app).limit == app.limit
  {
  }

  lemma MissingStep(reps: seq<Replica>, cap: nat)
    requires |reps| < cap
    ensures reps + Missing(|reps|, cap) == (reps + [Replica(|reps|, "", [])]) + Missing(|reps| + 1, cap)
  {
    assert reps + ([Replica(|reps|, "", [])] + Missing(|reps| + 1, cap))
        == (reps + [Replica(|reps|, "", [])]) + Missing(|reps| + 1, cap);
  }

  lemma ExtendedNumbered(app: App)
    requires forall k :: 0 <= k < |app.replicas| ==> app.replicas[k].id == k
    ensures forall k :: 0 <= k < |Extended(app).replicas| ==> Extended(app).replicas[k].id == k
  {
    hide Missing;
  }

  // ---- The leader ----

  class ZoneScheduler {
    /** The leader's copies of the instances and the versions they were read at. */
    var apps: seq<App>
    var versions: seq<nat>
    /** The stored records, in the order in which they were created. */
    var records: seq<Stored>
    /** The used ports of every known host. */
    var used: map<string, seq<nat>>
    /** What is allocated on every host that can take replicas. */
    var ops: map<string, Alloc>
    /** The number of writes sent to the store so far, and which of them it takes when their version is current. */
    var attempts: nat
    const accepts: nat -> bool

    ghost predicate Valid()
      reads this
    {
      && Shape(apps, versions, records)
      && Own(apps) && Own(RecordApps(records))
      && Numbered(apps) && Numbered(RecordApps(records))
      && "" !in used && "" !in ops
    }

    /** Every copy is its record's latest version, and there is a copy of every record. */
    ghost predicate Current()
      requires Valid()
      reads this
    {
      |apps| == |records| && forall i :: 0 <= i < |apps| ==> versions[i] == records[i].version
    }

    /** The store took every write since then. */
    ghost predicate AcceptedSince(from: nat)
      reads this
    {
      forall k: nat :: from <= k < attempts ==> accepts(k)
    }

    /** A new leader: nothing read yet. */
    constructor (records: seq<Stored>, accepts: nat -> bool)
      requires Own(RecordApps(records)) && Numbered(RecordApps(records))
      ensures Valid() && apps == [] && this.records == records && ops == map[] && this.accepts == accepts
    {
      this.records, this.accepts := records, accepts;
      apps, versions, used, ops, attempts := [], [], map[], map[], 0;
    }

    /** The process of the next leader starts with nothing read. */
    method Handover()
      requires Valid()
      modifies `apps, `versions, `used, `ops
      ensures Valid() && apps == [] && ops == map[]
    {
      apps, versions, used, ops := [], [], map[], map[];
    }

    // ---- Requests, between ticks ----

    /**
     A request updates a record: spec, cap and limits in any way; its replicas stay.
     A deleted record is read-only.
     */
    method UpdateInstance(i: nat, app: App) returns (ok: bool)
      requires Valid() && i < |records| && app.replicas == records[i].app.replicas
      modifies `records
      ensures Valid() && ok == !old(records)[i].app.deleted
      ensures records == if ok then old(records)[i := Stored(old(records)[i].version + 1, app)] else old(records)
      ensures Backed(apps, old(records)) ==> Backed(apps, records)
    {
      if records[i].app.deleted {
        return false;
      }
      UpdatedRecord(apps, records, i, app);
      records := records[i := Stored(records[i].version + 1, app)];
      ok := true;
    }

    /** A new instance has no replicas yet. */
    method CreateInstance(app: App)
      requires Valid() && app.replicas == []
      modifies `records
      ensures Valid() && records == old(records) + [Stored(1, app)]
      ensures Backed(apps, old(records)) ==> Backed(apps, records)
    {
      CreatedRecord(apps, records, app);
      records := records + [Stored(1, app)];
    }

    /** A deleted instance is taken over at once. */
    method DeleteInstance(i: nat)
      requires Valid() && i < |records| && !records[i].app.deleted
      modifies `records, `apps, `versions
      ensures Valid() && NoNewConflict(old(apps), apps)
      ensures records == old(records)[i := Stored(old(records)[i].version + 1, old(records)[i].app.(deleted := true))]
      ensures apps == if i < |old(apps)| then old(apps)[i := records[i].app] else old(apps)
      ensures Backed(old(apps), old(records)) ==> Backed(apps, records)
    {
      hide CountReplicas, CountApps;
      var gone := records[i].app.(deleted := true);
      DeletedClaims(RecordApps(records), i, gone);
      assert RecordApps(records[i := Stored(records[i].version + 1, gone)]) == RecordApps(records)[i := gone];
      assert forall k :: 0 <= k < |gone.replicas| ==> RecordApps(records)[i].replicas[k].id == k;
      records := records[i := Stored(records[i].version + 1, gone)];
      if i < |apps| {
        DeletedClaims(apps, i, gone);
        apps := apps[i := gone];
        versions := versions[i := records[i].version];
      }
    }

    // ---- The steps of a tick ----

    /** Takes over every record that is newer than its copy, and every new one. */
    method Reload()
      requires Valid()
      modifies `apps, `versions
      ensures Valid() && Current() && apps == Loaded(old(apps), old(versions), records)
    {
      hide CountApp;
      ghost var loaded := Loaded(apps, versions, records);
      var i := 0;
      while i < |records|
        invariant i <= |records| && |apps| == |versions| == (if i > |old(apps)| then i else |old(apps)|)
        invariant forall j :: 0 <= j < i ==> apps[j] == loaded[j] && versions[j] == records[j].version
        invariant forall j :: i <= j < |old(apps)| ==> apps[j] == old(apps)[j] && versions[j] == old(versions)[j]
      {
        if i < |apps| {
          if records[i].version > versions[i] {
            apps := apps[i := records[i].app];
            versions := versions[i := records[i].version];
          }
        } else {
          apps := apps + [records[i].app];
          versions := versions + [records[i].version];
        }
        i := i + 1;
      }
      assert apps == loaded;
      LoadedValid(old(apps), old(versions), records);
    }

    method StoreWrite() returns (ok: bool)
      modifies `attempts
      ensures attempts == old(attempts) + 1 && ok == accepts(old(attempts))
    {
      ok := accepts(attempts);
      attempts := attempts + 1;
    }

    /** Writes a copy back unless its record has moved on. */
    method Flush(i: nat) returns (ok: bool)
      requires Valid() && i < |apps|
      modifies `records, `versions, `attempts
      ensures Valid() && attempts == old(attempts) + 1
      ensures ok == (accepts(old(attempts)) && old(versions)[i] == old(records)[i].version)
      ensures if ok
              then records == old(records)[i := Stored(old(records)[i].version + 1, apps[i])]
                   && versions == old(versions)[i := old(records)[i].version + 1]
              else records == old(records) && versions == old(versions)
      ensures old(Current()) ==> Current()
      ensures Backed(apps, old(records)) || (ok && BackedBut(apps, old(records), i)) ==> Backed(apps, records)
    {
      hide CountApp;
      var taken := StoreWrite();
      if !taken || versions[i] != records[i].version {
        return false;
      }
      FlushedValid(apps, records, i);
      versions := versions[i := records[i].version + 1];
      records := records[i := Stored(records[i].version + 1, apps[i])];
      ok := true;
    }

    /** Instances whose stage tree lags behind are written back; a refusal is only logged. */
    method ReconcileAll(lagging: set<nat>)
      requires Valid()
      modifies `records, `versions, `attempts
      ensures Valid() && old(attempts) <= attempts
      ensures old(Current()) ==> Current()
      ensures Backed(apps, old(records)) ==> Backed(apps, records)
    {
      for i := 0 to |apps|
        invariant Valid() && old(attempts) <= attempts
        invariant old(Current()) ==> Current()
        invariant Backed(apps, old(records)) ==> Backed(apps, records)
      {
        if !apps[i].deleted && i in lagging {
          var _ := Flush(i);
        }
      }
    }

    /** One host's list becomes the sorted claims; it is written when that changes it. */
    method RefreshHost(h: string, claimed: seq<nat>) returns (ok: bool)
      requires h in used
      modifies `used, `attempts
      ensures used.Keys == old(used.Keys) && old(attempts) <= attempts
      ensures ok == AcceptedSince(old(attempts))
      ensures forall p: nat :: p in used[h] <==> p in claimed
      ensures forall g :: g in used && g != h ==> used[g] == old(used)[g]
    {
      var present := SortPorts(used[h]);
      var ports := SortPorts(claimed);
      SameMembers(ports, claimed);
      used := used[h := ports];
      ok := true;
      if present != ports {
        ok := StoreWrite();
      }
    }

    /** The port lists follow from the claims; a refused write ends the tick. */
    method RefreshPortUsed() returns (ok: bool)
      requires Valid()
      modifies `used, `attempts
      ensures Valid() && used.Keys == old(used.Keys) && old(attempts) <= attempts
      ensures ok == AcceptedSince(old(attempts))
      ensures ok ==> Covered(apps, used)
    {
      hide CountApps, Shape, Own, Numbered;
      var claimed := CollectPorts(apps);
      var todo := claimed.Keys;
      while todo != {}
        invariant todo <= claimed.Keys && used.Keys == old(used.Keys) && Valid()
        invariant old(attempts) <= attempts && AcceptedSince(old(attempts))
        invariant forall h: string, p: nat ::
                    h in used && h !in todo && p > 0 && CountApps(apps, h, p) > 0 ==> p in used[h]
      {
        var h :| h in todo;
        todo := todo - {h};
        if h !in used {
          continue;
        }
        assert claimed[h] == Entries(claimed, h);
        ok := RefreshHost(h, claimed[h]);
        if !ok {
          return;
        }
      }
      ok := true;
    }

    /** Replica k of instance i gets its bindings, on a host that is known. */
    method Bind(i: nat, k: nat, after: Replica, grown: seq<nat>)
      requires Valid() && Covered(apps, used)
      requires i < |apps| && !apps[i].deleted && k < |apps[i].replicas|
      requires after.hostId in used && Bound(apps[i].replicas[k], after, used[after.hostId], grown)
      modifies `apps, `used
      ensures Valid() && Covered(apps, used) && UsedGrows(old(used), used)
      ensures apps == old(apps)[i := WithReplica(old(apps)[i], k, after)]
      ensures used == old(used)[after.hostId := grown]
      ensures NoNewConflict(old(apps), apps)
      ensures Backed(old(apps), records) ==> BackedBut(apps, records, i)
    {
      hide CountApps, CountPorts, CountReplicas;
      BindKeeps(apps, used, i, k, after, grown);
      apps := apps[i := WithReplica(apps[i], k, after)];
      used := used[after.hostId := grown];
    }

    /**
     One replica of it; when that changes it, the instance is written back, and then
     the host with its port list. base and start: instances and port lists before the
     first replica.
     */
    method RebindOne(i: nat, k: nat, wanted: map<nat, string>, ghost base: seq<App>, ghost start: map<string, seq<nat>>)
      returns (ok: bool)
      requires Valid() && Covered(apps, used) && i < |apps| && !apps[i].deleted && k < |apps[i].replicas|
      requires SamePlacement(base, apps) && NoNewConflict(base, apps) && UsedGrows(start, used)
      requires BoundUpTo(apps[i], used, k)
      requires forall port :: port in wanted <==>
                 exists s :: 0 <= s < |apps[i].spec| && apps[i].spec[s].port == port && 1 <= port < 65536
      modifies `apps, `used, `records, `versions, `attempts
      ensures Valid() && Covered(apps, used) && UsedGrows(start, used) && old(attempts) <= attempts
      ensures SamePlacement(base, apps) && NoNewConflict(base, apps)
      ensures |apps| == |old(apps)| && apps[i] == old(apps)[i].(replicas := apps[i].replicas)
      ensures |apps[i].replicas| == |old(apps)[i].replicas|
      ensures forall j :: 0 <= j < |apps| && j != i ==> apps[j] == old(apps)[j]
      ensures BoundUpTo(apps[i], used, k + 1)
      ensures AcceptedSince(old(attempts)) && old(Current()) ==> ok
      ensures old(Current()) ==> Current()
      ensures ok && Backed(old(apps), old(records)) ==> Backed(apps, records)
    {
      hide CountApps, CountPorts, CountApp, Shape, Own, Numbered, Covered, BoundUpTo, Backed, BackedBut;
      hide NoNewConflict, SamePlacement;
      var rep := apps[i].replicas[k];
      if rep.hostId == "" || rep.hostId !in used {
        SkippedBound(apps[i], used, k);
        return true;
      }
      ClaimIsListed(apps, used, i, k);
      var after, grown, changed := RebindReplica(rep, wanted, used[rep.hostId]);
      if !changed {
        BoundNext(apps[i], k, rep, used, used);
        assert WithReplica(apps[i], k, rep) == apps[i];
        return true;
      }
      ghost var before, listed := apps, used;
      Bind(i, k, after, grown);
      BoundNext(before[i], k, after, listed, used);
      SamePlacementOne(base, before, i, k, after);
      NoNewConflictChain(base, before, apps);
      ok := Flush(i);
      if !ok {
        return;
      }
      ok := StoreWrite();
    }

    /** The replicas of a live instance get their missing ports; each change is written back at once. */
    method RebindInstance(i: nat) returns (ok: bool)
      requires Valid() && Covered(apps, used) && i < |apps| && !apps[i].deleted
      modifies `apps, `used, `records, `versions, `attempts
      ensures Valid() && Covered(apps, used) && UsedGrows(old(used), used) && old(attempts) <= attempts
      ensures SamePlacement(old(apps), apps) && NoNewConflict(old(apps), apps)
      ensures forall j :: 0 <= j < |apps| && j != i ==> apps[j] == old(apps)[j]
      ensures ok ==> WellBound(apps[i], used)
      ensures AcceptedSince(old(attempts)) && old(Current()) ==> ok
      ensures old(Current()) ==> Current()
      ensures ok && Backed(old(apps), old(records)) ==> Backed(apps, records)
    {
      hide CountApps, CountPorts, CountApp, Shape, Own, Numbered, Covered, Bound, BoundUpTo, Backed, BackedBut,
          UsedGrows;
      hide NoNewConflict, SamePlacement;
      Unchanged(apps, used);
      var wanted := WantedPorts(apps[i].spec);
      var n := |apps[i].replicas|;
      NothingBound(apps[i], used);
      for k := 0 to n
        invariant Valid() && Covered(apps, used) && UsedGrows(old(used), used) && old(attempts) <= attempts
        invariant SamePlacement(old(apps), apps) && NoNewConflict(old(apps), apps)
        invariant i < |apps| == |old(apps)| && !apps[i].deleted && |apps[i].replicas| == n
                  && apps[i].spec == old(apps)[i].spec
        invariant forall j :: 0 <= j < |apps| && j != i ==> apps[j] == old(apps)[j]
        invariant BoundUpTo(apps[i], used, k)
        invariant old(Current()) ==> Current()
        invariant Backed(old(apps), old(records)) ==> Backed(apps, records)
      {
        ok := RebindOne(i, k, wanted, old(apps), old(used));
        if !ok {
          return;
        }
      }
      ok := true;
    }

    /** Every live instance in turn; a refused write ends the tick. */
    method RebindAll() returns (ok: bool)
      requires Valid() && Covered(apps, used)
      modifies `apps, `used, `records, `versions, `attempts
      ensures Valid() && Covered(apps, used) && UsedGrows(old(used), used) && old(attempts) <= attempts
      ensures SamePlacement(old(apps), apps) && NoNewConflict(old(apps), apps)
      ensures ok ==> forall i :: 0 <= i < |apps| ==> WellBound(apps[i], used)
      ensures AcceptedSince(old(attempts)) && old(Current()) ==> ok
      ensures old(Current()) ==> Current()
      ensures ok && Backed(old(apps), old(records)) ==> Backed(apps, records)
    {
      hide CountApps, CountPorts, CountApp, Shape, Own, Numbered, Covered, Backed, SamePlacement, NoNewConflict,
          BoundUpTo;
      Unchanged(apps, used);
      var n := |apps|;
      for i := 0 to n
        invariant Valid() && Covered(apps, used) && UsedGrows(old(used), used) && old(attempts) <= attempts
        invariant |apps| == n && SamePlacement(old(apps), apps) && NoNewConflict(old(apps), apps)
        invariant forall j :: 0 <= j < i ==> WellBound(apps[j], used)
        invariant old(Current()) ==> Current()
        invariant Backed(old(apps), old(records)) ==> Backed(apps, records)
      {
        if apps[i].deleted {
          continue;
        }
        ghost var before, listed := apps, used;
        ok := RebindInstance(i);
        SamePlacementChain(old(apps), before, apps);
        NoNewConflictChain(old(apps), before, apps);
        if !ok {
          return;
        }
        forall j | 0 <= j < i ensures WellBound(apps[j], used) {
          WellBoundStays(before[j], listed, used);
        }
      }
      ok := true;
    }

    /** What is allocated on the hosts that can take replicas, added up anew. */
    method Account(hosts: set<string>)
      requires Valid() && "" !in hosts
      modifies `ops
      ensures Valid() && ops.Keys == old(ops.Keys) + hosts
      ensures forall h :: h in hosts ==> Allocated(apps, h, ops[h])
    {
      hide Shape, Own, Numbered, Allocated;
      var sums: map<string, Alloc> := map h | h in hosts :: NOTHING;
      for i := 0 to |apps|
        invariant ops == old(ops) && sums.Keys == hosts && forall h :: h in hosts ==> sums[h] == AllocApps(apps[..i], h)
      {
        assert apps[..i + 1][..i] == apps[..i];
        if apps[i].deleted {
          continue;
        }
        sums := AddLimits(sums, apps[i].replicas, apps[i].limit);
      }
      assert apps[..|apps|] == apps;
      assert (ops + sums).Keys == ops.Keys + sums.Keys;
      ops := ops + sums;
      forall h | h in hosts ensures Allocated(apps, h, ops[h]) {
        AllocSums(apps, h);
      }
    }

    /** The cap is brought into range and missing replicas are added, unplaced. */
    method ExtendReplicas(i: nat)
      requires Valid() && Covered(apps, used) && i < |apps| && !apps[i].deleted
      modifies `apps
      ensures Valid() && Covered(apps, used) && NoNewConflict(old(apps), apps)
      ensures apps == old(apps)[i := Extended(old(apps)[i])]
      ensures var app, was := apps[i], old(apps)[i];
              && app.cap == (if was.cap > 128 then 128 else if was.cap < 1 then 1 else was.cap)
              && app == was.(cap := app.cap, replicas := app.replicas)
              && |app.replicas| == (if |was.replicas| < app.cap then app.cap else |was.replicas|)
              && app.replicas[..|was.replicas|] == was.replicas
              && forall k :: |was.replicas| <= k < app.cap ==> app.replicas[k] == Replica(k, "", [])
      ensures forall h: string :: h != "" ==> AllocApps(apps, h) == AllocApps(old(apps), h)
      ensures Backed(old(apps), records) ==> Backed(apps, records)
    {
      hide CountApps, CountApp, AllocApps, Missing;
      ExtendedKeeps(apps, i);
      ExtendedNumbered(apps[i]);
      var rc := apps[i].cap;
      var cap := if rc > REPLICA_CAP_MAX then REPLICA_CAP_MAX else if rc < 1 then 1 else rc;
      var before, replicas := apps, apps[i].replicas;
      ghost var all := Extended(apps[i]).replicas;
      while |replicas| < cap
        invariant replicas + Missing(|replicas|, cap) == all
        decreases cap - |replicas|
      {
        MissingStep(replicas, cap);
        replicas := replicas + [Replica(|replicas|, "", [])];
      }
      assert replicas == all;
      apps := before[i := before[i].(cap := cap, replicas := replicas)];
    }

    /**
     Places the first unplaced replica of an instance on the host that the placement
     policy picked, binds its ports and adds it to the host's allocations. ok: no
     write was refused.
     */
    method PlaceOne(i: nat, hit: Option<string>) returns (ok: bool)
      requires Valid() && Covered(apps, used) && i < |apps| && !apps[i].deleted && WellBound(apps[i], used)
      requires hit.Some? ==> hit.value in ops
      modifies `apps, `used, `records, `versions, `attempts, `ops
      ensures Valid() && NoNewConflict(old(apps), apps) && ops.Keys == old(ops.Keys)
      ensures old(attempts) <= attempts && UsedGrows(old(used), used) && |apps| == |old(apps)|
      ensures AcceptedSince(old(attempts)) && old(Current()) ==> ok
      ensures old(Current()) ==> Current()
      ensures ok && Backed(old(apps), old(records)) ==> Backed(apps, records)
      ensures ok ==> WellBound(apps[i], used)
      ensures ok ==> forall h :: h in ops && Allocated(old(apps), h, old(ops[h])) ==> Allocated(apps, h, ops[h])
      ensures var ext := Extended(old(apps)[i]);
              var k := FirstUnplaced(ext.replicas);
              if k == |ext.replicas| || hit.None? || hit.value !in old(used) then apps == old(apps)[i := ext]
              else PlacedAt(old(apps), apps, i, k, hit.value)
    {
      hide CountApps, CountPorts, CountApp, AllocApps, AllocReplicas, Shape, Own, Numbered, Covered, BoundUpTo,
          Backed, BackedBut;
      hide Extended, NoNewConflict, UsedGrows, Allocated;
      Unchanged(apps, used);
      BoundExtended(apps[i], used);
      ExtendReplicas(i);
      SumsKept(old(apps), apps);
      var k := 0;
      while k < |apps[i].replicas| && apps[i].replicas[k].hostId != ""
        invariant 0 <= k <= |apps[i].replicas|
        invariant forall j :: 0 <= j < k ==> apps[i].replicas[j].hostId != ""
      {
        k := k + 1;
      }
      assert k == FirstUnplaced(apps[i].replicas);
      if k == |apps[i].replicas| {
        return true;
      }
      if hit.None? {
        ok := Flush(i);
        return;
      }
      if hit.value !in used {
        return true;
      }
      ok := PlaceReplica(i, k, hit.value, old(apps), old(ops));
      NoNewConflictChain(old(apps), old(apps)[i := Extended(old(apps)[i])], apps);
    }

    /** Replica k, unplaced, goes to host h. base and sums: instances and allocations before it. */
    method PlaceReplica(i: nat, k: nat, h: string, ghost base: seq<App>, ghost sums: map<string, Alloc>)
      returns (ok: bool)
      requires Valid() && Covered(apps, used)
      requires i < |base| && !base[i].deleted && apps == base[i := Extended(base[i])]
      requires k < |apps[i].replicas| && apps[i].replicas[k].hostId == ""
      requires BoundUpTo(apps[i], used, |apps[i].replicas|)
      requires h in ops && h in used && ops == sums
      requires forall g: string :: g != "" ==> AllocApps(apps, g) == AllocApps(base, g)
      modifies `apps, `used, `records, `versions, `attempts, `ops
      ensures Valid() && NoNewConflict(old(apps), apps) && ops.Keys == sums.Keys
      ensures old(attempts) <= attempts && UsedGrows(old(used), used) && |apps| == |base|
      ensures AcceptedSince(old(attempts)) && old(Current()) ==> ok
      ensures old(Current()) ==> Current()
      ensures ok && Backed(old(apps), old(records)) ==> Backed(apps, records)
      ensures BoundUpTo(apps[i], used, |apps[i].replicas|)
      ensures ok ==> forall g :: g in ops && Allocated(base, g, sums[g]) ==> Allocated(apps, g, ops[g])
      ensures PlacedAt(base, apps, i, k, h)
    {
      hide CountApps, CountPorts, CountApp, AllocApps, AllocReplicas, Shape, Own, Numbered, Covered, BoundUpTo,
          Backed, BackedBut;
      hide Extended, NoNewConflict, UsedGrows, Grows, Bound, Allocated;
      ghost var extended, listed := apps, used;
      ExtendedLive(base[i]);
      var rep := apps[i].replicas[k];
      var ports, grown := BindSpec(apps[i].spec, used[h]);
      PlacedBound(rep, h, ports, used[h], grown);
      var placed := rep.(hostId := h, ports := ports);
      Bind(i, k, placed, grown);
      BoundPlaced(extended[i], k, placed, listed, used);
      assert PlacedAs(base, apps, i, k, placed);
      ok := Flush(i);
      if !ok {
        return;
      }
      PlacedAlloc(extended, i, k, placed);
      ops := ops[h := ops[h].Plus(apps[i].limit)];
      SumsMove(base, apps, sums, ops);
      ok := StoreWrite();
    }

    /** Everything before the placement: reconciling, port lists, and missing ports. */
    method BringUpToDate(lagging: set<nat>) returns (ok: bool)
      requires Valid()
      modifies `apps, `used, `records, `versions, `attempts
      ensures Valid() && used.Keys == old(used.Keys) && old(attempts) <= attempts && |apps| == |old(apps)|
      ensures SamePlacement(old(apps), apps) && NoNewConflict(old(apps), apps)
      ensures Evolves(old(apps), apps) && AtMostOnePlaced(old(apps), apps)
      ensures ok ==> Covered(apps, used) && forall i :: 0 <= i < |apps| ==> WellBound(apps[i], used)
      ensures AcceptedSince(old(attempts)) && old(Current()) ==> ok
      ensures old(Current()) ==> Current()
      ensures ok && Backed(old(apps), old(records)) ==> Backed(apps, records)
    {
      hide CountApps, CountPorts, CountApp, Shape, Own, Numbered, Covered, BoundUpTo, Backed, WellBound;
      hide NoNewConflict, SamePlacement, AtMostOnePlaced, Evolves, NewlyPlaced, NonePlaced;
      NothingYet(apps, used);
      ReconcileAll(lagging);
      ok := RefreshPortUsed();
      if !ok {
        return;
      }
      ok := RebindAll();
      SamePlacementEvolves(old(apps), apps);
      NoneIsAtMostOne(old(apps), apps);
    }

    /**
     The tick on the copies as they are. reported: the hosts with a usable status;
     hit: the host that the placement policy picks; ok: no write was refused.
     */
    method RunTick(lagging: set<nat>, reported: set<string>, hit: Option<string>) returns (ok: bool)
      requires Valid() && (hit.Some? ==> hit.value in reported * used.Keys)
      modifies `apps, `used, `records, `versions, `attempts, `ops
      ensures Valid() && used.Keys == old(used.Keys) && old(attempts) <= attempts
      ensures NoNewConflict(old(apps), apps) && Evolves(old(apps), apps) && AtMostOnePlaced(old(apps), apps)
      ensures ok && Backed(old(apps), old(records)) ==> Backed(apps, records)
      ensures AcceptedSince(old(attempts)) && old(Current()) ==> ok
      ensures old(Current()) ==> Current()
      ensures ok ==> forall i :: 0 <= i < |apps| ==> WellBound(apps[i], used)
      ensures ok && reported * used.Keys != {} && (FirstWaiting(old(apps)) < |old(apps)| || old(ops) == map[]) ==>
                Accounted(apps, ops, reported * used.Keys)
      ensures ok && hit.Some? ==> NextPlaced(old(apps), apps, hit.value)
    {
      hide CountApps, CountPorts, CountApp, Allocated, Shape, Own, Numbered, Covered, Backed, WellBound, UsedGrows;
      hide Extended, NoNewConflict, SamePlacement, AtMostOnePlaced, Evolves, NewlyPlaced, Waiting;
      var active := FirstWaiting(apps);
      ok := BringUpToDate(lagging);
      if !ok {
        return;
      }
      if active == |apps| && ops != map[] {
        return;
      }
      var open := reported * used.Keys;
      assert hit.Some? ==> hit.value in open;
      if open == {} {
        return;
      }
      Account(open);
      if active == |apps| {
        return;
      }
      ok := PlaceActive(active, open, hit, old(apps));
    }

    /** The placement of the tick. start: the instances before it; open: the hosts that were added up. */
    method PlaceActive(i: nat, ghost open: set<string>, hit: Option<string>, ghost start: seq<App>) returns (ok: bool)
      requires Valid() && Covered(apps, used) && i < |apps| == |start| && i == FirstWaiting(start)
      requires SamePlacement(start, apps) && NoNewConflict(start, apps)
      requires forall j :: 0 <= j < |apps| ==> WellBound(apps[j], used)
      requires Accounted(apps, ops, open) && (hit.Some? ==> hit.value in open && hit.value in used)
      modifies `apps, `used, `records, `versions, `attempts, `ops
      ensures Valid() && used.Keys == old(used.Keys) && old(attempts) <= attempts
      ensures NoNewConflict(start, apps) && Evolves(start, apps) && AtMostOnePlaced(start, apps)
      ensures ok && Backed(old(apps), old(records)) ==> Backed(apps, records)
      ensures AcceptedSince(old(attempts)) && old(Current()) ==> ok
      ensures old(Current()) ==> Current()
      ensures ok ==> forall j :: 0 <= j < |apps| ==> WellBound(apps[j], used)
      ensures ok ==> Accounted(apps, ops, open)
      ensures ok && hit.Some? ==> NextPlaced(start, apps, hit.value)
    {
      hide CountApps, CountPorts, CountApp, Allocated, Shape, Own, Numbered, Covered, Backed, WellBound;
      hide Extended, NoNewConflict, SamePlacement, AtMostOnePlaced, Evolves, NewlyPlaced, Waiting;
      ghost var before, listed := apps, used;
      StillWaiting(start, apps, i);
      ok := PlaceOne(i, hit);
      forall j | 0 <= j < |apps| && j != i ensures WellBound(apps[j], used) {
        WellBoundStays(before[j], listed, used);
      }
      TickPlaced(start, before, apps, i, hit, listed.Keys);
      NoNewConflictChain(start, before, apps);
    }

    /**
     One tick of the leader. force: newer records are taken over first; lagging:
     instances whose stage tree lags behind; hosts: the port lists as stored, whatever
     they say. start is what the tick works on: the copies, after a reload if there
     is one.
     */
    method SchedulerRefresh(force: bool, lagging: set<nat>, hosts: map<string, seq<nat>>, reported: set<string>,
                            hit: Option<string>)
      returns (ok: bool)
      requires Valid() && "" !in hosts && (hit.Some? ==> hit.value in reported && hit.value in hosts)
      modifies `apps, `used, `records, `versions, `attempts, `ops
      ensures Valid() && old(attempts) <= attempts
      ensures var start := if force then old(Loaded(apps, versions, records)) else old(apps);
              && NoNewConflict(start, apps) && Evolves(start, apps) && AtMostOnePlaced(start, apps)
              && (ok && Backed(start, old(records)) ==> Backed(apps, records))
              && (ok && reported * hosts.Keys != {} && (FirstWaiting(start) < |start| || old(ops) == map[]) ==>
                    Accounted(apps, ops, reported * hosts.Keys))
              && (ok && hit.Some? ==> NextPlaced(start, apps, hit.value))
      ensures Disjoint(old(apps)) && (force ==> RegainsFree(old(apps), old(Loaded(apps, versions, records))))
              ==> Disjoint(apps)
      ensures Disjoint(old(apps)) && Backed(old(apps), old(records)) ==> Disjoint(apps)
      ensures AcceptedSince(old(attempts)) && (force || old(Current())) ==> ok && Current()
      ensures ok ==> forall i :: 0 <= i < |apps| ==> WellBound(apps[i], used)
    {
      hide CountApps, CountApp, Shape, Own, Numbered, Backed, WellBound, NoNewConflict, Evolves, AtMostOnePlaced;
      hide NextPlaced, Accounted, Disjoint, RegainsFree;
      used := hosts;
      ghost var start := apps;
      if force {
        start := Loaded(apps, versions, records);
        ReloadKeeps(apps, versions, records);
        Reload();
      }
      ok := RunTick(lagging, reported, hit);
      NoConflictKeepsIf(start, apps);
    }
  }
}
