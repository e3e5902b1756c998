/**
 The scheduler over time: ticks, requests and changes of the leader in any order,
 with a store that takes every write whose version is current. A request makes the
 next tick read the records anew, and so does the start of a leader.
 */
module SchedulerRun {
  import opened Common
  import opened Scheduler
  import opened SchedulerTick

  datatype Event =
    | Tick(force: bool, lagging: set<nat>, hosts: map<string, seq<nat>>, reported: set<string>, hit: Option<string>)
    | Update(i: nat, spec: seq<SpecPort>, cap: nat, limit: Alloc)
    | Create(name: string, spec: seq<SpecPort>, cap: nat, limit: Alloc)
    | Delete(i: nat)
    | Leader

  /** Hosts have names, and the placement policy picks a host that is known and has reported. */
  predicate Sensible(e: Event) {
    e.Tick? ==> "" !in e.hosts && (e.hit.Some? ==> e.hit.value in e.reported && e.hit.value in e.hosts)
  }

  /** What a leader's copy claims disjointly and the records claim no more than, they claim disjointly. */
  lemma BackedDisjoint(apps: seq<App>, records: seq<Stored>)
    requires Disjoint(apps) && Backed(apps, records) && Own(RecordApps(records))
    ensures Disjoint(RecordApps(records))
  {
    hide CountApps, CountApp;
    var stored := RecordApps(records);
    forall h: string, p: nat | h != "" && p > 0 ensures CountApps(stored, h, p) <= 1 {
      if CountApps(stored, h, p) >= 2 {
        var i, j := TwoClaimants(stored, h, p);
        TwoApps(apps, i, j, h, p);
      }
    }
  }

  /** A leader that has read nothing yet takes disjoint records over as they are. */
  lemma FirstReload(records: seq<Stored>)
    requires Disjoint(RecordApps(records)) && Own(RecordApps(records))
    ensures var loaded := Loaded([], [], records);
            loaded == RecordApps(records) && RegainsFree([], loaded) && Backed(loaded, records)
  {
    hide CountApp;
    NothingClaimed();
    var loaded := Loaded([], [], records);
    assert loaded == RecordApps(records);
    ReloadExact([], [], records);
  }

  lemma NothingClaimed()
    ensures Disjoint([])
  {
  }

  /** A record that claims no more than the one it replaces keeps the records disjoint. */
  lemma FewerClaims(apps: seq<App>, i: nat, app: App)
    requires Disjoint(apps) && i < |apps|
    requires forall h: string, p: nat :: h != "" && p > 0 ==> CountApp(app, h, p) <= CountApp(apps[i], h, p)
    ensures Disjoint(apps[i := app])
  {
    hide CountApps, CountApp;
    var changed := apps[i := app];
    forall h: string, p: nat | h != "" && p > 0 ensures CountApps(changed, h, p) <= 1 {
      CountAppsUpdate(apps, i, app, h, p);
    }
  }

  lemma OneMore(apps: seq<App>, app: App)
    requires Disjoint(apps) && app.replicas == []
    ensures Disjoint(apps + [app])
  {
    hide CountReplicas;
    forall h: string, p: nat | h != "" && p > 0 ensures CountApps(apps + [app], h, p) <= 1 {
      NoReplicas(h, p);
      assert (apps + [app])[..|apps|] == apps;
    }
  }

  /**
   Ports are disjoint in the store and in the leader's copies; and these, once they
   have been read, claim all that the records claim.
   */
  ghost predicate Sound(apps: seq<App>, records: seq<Stored>) {
    && Disjoint(RecordApps(records)) && Disjoint(apps)
    && (apps == [] || Backed(apps, records))
  }

  lemma BackedSound(apps: seq<App>, records: seq<Stored>)
    requires Disjoint(apps) && Backed(apps, records) && Own(RecordApps(records))
    ensures Sound(apps, records)
  {
    hide Disjoint, Backed, Own;
    BackedDisjoint(apps, records);
  }

  /** What a tick works on: disjoint, and claiming all that the records claim. */
  lemma StartSound(apps: seq<App>, versions: seq<nat>, records: seq<Stored>, force: bool)
    requires Sound(apps, records) && Shape(apps, versions, records) && Own(RecordApps(records))
    requires apps == [] ==> force
    ensures var start := if force then Loaded(apps, versions, records) else apps;
            && Backed(start, records)
            && (force ==> RegainsFree(apps, Loaded(apps, versions, records)))
  {
    hide Own, Disjoint, Backed, RegainsFree;
    if apps == [] {
      FirstReload(records);
    } else if force {
      BackedReload(apps, versions, records);
      ReloadExact(apps, versions, records);
    }
  }

  lemma UpdateSound(apps: seq<App>, records: seq<Stored>, i: nat, after: Stored)
    requires Sound(apps, records) && i < |records| && after.app.replicas == records[i].app.replicas
    requires !records[i].app.deleted && (apps == [] || Backed(apps, records[i := after]))
    ensures Sound(apps, records[i := after])
  {
    hide Disjoint, Backed, CountReplicas;
    FewerClaims(RecordApps(records), i, after.app);
    assert RecordApps(records[i := after]) == RecordApps(records)[i := after.app];
  }

  lemma CreateSound(apps: seq<App>, records: seq<Stored>, app: App)
    requires Sound(apps, records) && app.replicas == []
    requires apps == [] || Backed(apps, records + [Stored(1, app)])
    ensures Sound(apps, records + [Stored(1, app)])
  {
    hide Disjoint, Backed;
    OneMore(RecordApps(records), app);
    assert RecordApps(records + [Stored(1, app)]) == RecordApps(records) + [app];
  }

  lemma DeleteSound(before: seq<App>, apps: seq<App>, records: seq<Stored>, i: nat, after: Stored)
    requires Sound(before, records) && i < |records| && after.app.deleted && NoNewConflict(before, apps)
    requires |apps| == |before| && (before == [] || Backed(apps, records[i := after]))
    ensures Sound(apps, records[i := after])
  {
    NoConflictKeepsIf(before, apps);
    hide Disjoint, Backed, NoNewConflict, CountReplicas;
    FewerClaims(RecordApps(records), i, after.app);
    assert RecordApps(records[i := after]) == RecordApps(records)[i := after.app];
  }

  lemma SoundMeans(apps: seq<App>, records: seq<Stored>)
    requires Sound(apps, records)
    ensures Disjoint(apps) && (apps == [] || Backed(apps, records))
  {
  }

  method Request(s: ZoneScheduler, e: Event)
    requires s.Valid() && (e.Update? || e.Create? || e.Delete?)
    modifies s
    ensures s.Valid() && s.attempts == old(s.attempts)
    ensures old(Sound(s.apps, s.records)) ==> Sound(s.apps, s.records)
  {
    hide Sound, Backed, Shape, Own, Numbered, NoNewConflict;
    ghost var apps, records := s.apps, s.records;
    match e
    case Update(i, spec, cap, limit) =>
      if i < |s.records| {
        var app := s.records[i].app.(spec := spec, cap := cap, limit := limit);
        var ok := s.UpdateInstance(i, app);
        if ok && Sound(apps, records) {
          SoundMeans(apps, records);
          UpdateSound(apps, records, i, s.records[i]);
        }
      }
    case Create(name, spec, cap, limit) =>
      var app := App(name, false, spec, cap, limit, []);
      s.CreateInstance(app);
      if Sound(apps, records) {
        SoundMeans(apps, records);
        CreateSound(apps, records, app);
      }
    case Delete(i) =>
      if i < |s.records| && !s.records[i].app.deleted {
        s.DeleteInstance(i);
        if Sound(apps, records) {
          SoundMeans(apps, records);
          DeleteSound(apps, s.apps, records, i, s.records[i]);
        }
      }
  }

  /** One event. forced: a request has come since the last tick. */
  method Next(s: ZoneScheduler, e: Event, forced: bool) returns (force: bool)
    requires s.Valid() && Sensible(e)
    modifies s
    ensures s.Valid() && old(s.attempts) <= s.attempts
    ensures s.AcceptedSince(old(s.attempts)) && old(Sound(s.apps, s.records)) && (forced || old(s.Current())) ==>
              Sound(s.apps, s.records) && (force || s.Current())
  {
    hide Sound, Backed, Shape, Own, Numbered, Disjoint, RegainsFree;
    force := true;
    if e.Leader? {
      LeaderSound(s.apps, s.records);
      s.Handover();
    } else if e.Tick? {
      var reload := e.force || forced || s.apps == [];
      ghost var apps, versions, records := s.apps, s.versions, s.records;
      if Sound(apps, records) {
        StartSound(apps, versions, records, reload);
      }
      var ok := s.SchedulerRefresh(reload, e.lagging, e.hosts, e.reported, e.hit);
      force := false;
      if ok && Sound(apps, records) {
        SoundMeans(apps, records);
        BackedSound(s.apps, s.records);
      }
    } else {
      Request(s, e);
    }
  }

  lemma LeaderSound(apps: seq<App>, records: seq<Stored>)
    ensures Sound(apps, records) ==> Sound([], records)
  {
    NothingClaimed();
  }

  /**
   Whatever happens, in whatever order and under however many leaders: as long as the
   store takes the writes whose version is current, no two instances claim a port of
   one host, neither in the leader's copies nor in the store.
   */
  method RunEvents(s: ZoneScheduler, events: seq<Event>)
    requires s.Valid() && forall k :: 0 <= k < |events| ==> Sensible(events[k])
    modifies s
    ensures s.Valid() && old(s.attempts) <= s.attempts
    ensures s.AcceptedSince(old(s.attempts)) && old(Sound(s.apps, s.records)) ==>
              Disjoint(s.apps) && Disjoint(RecordApps(s.records))
  {
    hide Sound, Backed, Shape, Own, Numbered, Disjoint;
    var forced := true;
    for k := 0 to |events|
      invariant s.Valid() && old(s.attempts) <= s.attempts
      invariant s.AcceptedSince(old(s.attempts)) && old(Sound(s.apps, s.records)) ==>
                  Sound(s.apps, s.records) && (forced || s.Current())
    {
      forced := Next(s, events[k], forced);
    }
    BothDisjoint(s.apps, s.records);
  }

  lemma BothDisjoint(apps: seq<App>, records: seq<Stored>)
    ensures Sound(apps, records) ==> Disjoint(apps) && Disjoint(RecordApps(records))
  {
  }

  /** A zone begins with no records. */
  lemma NewZoneSound()
    ensures Sound([], [])
  {
    NothingClaimed();
    assert RecordApps([]) == [];
  }
}
