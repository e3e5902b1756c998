/**
 The deploy revision barrier. A deploy request raises the revision of an
 instance and leaves the revision of the stage root behind; the scheduler lifts
 the root to the current revision after it has thrown away what hosts reported
 for earlier ones. A watcher trusts the tree only when both are equal. Requests
 work on the stored record, the scheduler and the host reports on the leader's
 copy of it, and the copy is written back by compare-and-set.
 */
module DeployBarrier {
  import opened Common
  import opened DeployStages

  const START := "start"
  const STOP := "stop"
  const DESTROY := "destroy"
  const RESTART := "restart"
  const DELETE := "delete"

  /**
   request is for the proofs only: which request this deploy is about, counted from
   0 for the one that created the instance. Nothing but requests changes it, and no
   operation depends on it.
   */
  datatype Deploy = Deploy(action: string, revision: nat, replicaCap: nat, stages: Option<Stage>, request: nat) {
    /** The root stage, created on first use. */
    function Root(): Stage {
      stages.GetOr(NewStage(DEPLOY, ZONELET, None).(state := ""))
    }
  }

  function Instant(msg: string, now: int): Stage -> Stage {
    (c: Stage) => c.SetInstant(msg, now)
  }

  function InstantAt(rev: nat, msg: string, now: int): Stage -> Stage {
    (c: Stage) => c.SetInstant(msg, now).(revision := rev)
  }

  /** Records a binding under a replica node. */
  function Bind(stage: string, rev: nat, msg: string, now: int): Stage -> Stage {
    (n: Stage) => UpdateChild(n, stage, ZONELET, InstantAt(rev, msg, now))
  }

  function Min(a: nat, b: nat): nat {
    if a < b then a else b
  }

  // ---- Requests ----

  function MarkPreHost(d: Deploy, rpcStart: int, now: int): Deploy {
    var root := d.Root().SetRunning("", now);
    var validated := UpdateChild(root, REQ_VALIDATE, ZONELET,
                                 (c: Stage) => c.(created := rpcStart).SetSuccess("", now).(revision := d.revision));
    var persisted := UpdateChild(validated, INSTANCE_PERSIST, ZONELET, InstantAt(d.revision, "", now));
    d.(stages := Some(persisted))
  }

  function CreateDeploy(cap: nat, rpcStart: int, now: int): Deploy {
    var capped := Min(REPLICA_CAP_MAX, cap);
    MarkPreHost(Deploy(START, 1, if capped < 1 then 1 else capped, None, 0), rpcStart, now)
  }

  /** An empty action or a zero cap leaves the stored one; restart is recorded as start. */
  function UpdateDeploy(d: Deploy, action: string, cap: nat, rpcStart: int, now: int): Deploy {
    var newAction := if action == "" then d.action else if action == RESTART then START else action;
    var newCap := if cap > 0 then Min(REPLICA_CAP_MAX, cap) else d.replicaCap;
    var asked := d.(action := newAction, replicaCap := newCap, revision := d.revision + 1, request := d.request + 1);
    MarkPreHost(asked, rpcStart, now)
  }

  // ---- Scheduler and host reports ----

  function PruneReplicas(stages: seq<Stage>): (r: seq<Stage>)
    ensures |r| == |stages|
    ensures forall i :: 0 <= i < |r| ==> r[i] == if stages[i].name == REPLICA then Prune(stages[i]) else stages[i]
  {
    seq(|stages|, i requires 0 <= i < |stages| => if stages[i].name == REPLICA then Prune(stages[i]) else stages[i])
  }

  predicate NeedsReconcile(d: Deploy) {
    d.Root().revision < d.revision
  }

  function Reconcile(d: Deploy, now: int): Deploy {
    if NeedsReconcile(d) then
      var root := d.Root().SetRunning("", now);
      d.(stages := Some(root.(stages := PruneReplicas(root.stages)).SetRevisionDeep(d.revision)))
    else d.(stages := Some(d.Root()))
  }

  /** A port or address of a placed replica was bound anew; the revision is raised once a tick. */
  function Rebind(d: Deploy, repId: nat, stage: string, raised: bool, msg: string, now: int): Deploy {
    var rev := if raised then d.revision else d.revision + 1;
    d.(revision := rev,
       stages := Some(UpdateReplica(d.Root(), repId, Bind(stage, rev, msg, now))))
  }

  datatype Placement = Placed(hostId: string, ip: string) | HostGone(hostId: string) | Unplaced(msg: string)

  function Scheduled(c: Stage, p: Placement, rev: nat, now: int): Stage {
    var running := c.SetRunning("", now).(revision := rev);
    if p.Unplaced? then running.SetFailed(p.msg, now).(revision := rev)
    else
      var fit := UpdateChild(running, HOST_FIT, ZONELET, Instant("", now));
      var prioritized := UpdateChild(fit, HOST_PRIORITIZE, ZONELET, Instant(p.hostId, now));
      prioritized.SetSuccess(p.hostId, now)
  }

  /** The node of a replica after an attempt to place it. */
  function PlacedNode(n: Stage, p: Placement, rev: nat, now: int): Stage {
    var scheduled := UpdateChild(n, SCHEDULE, ZONELET, (c: Stage) => Scheduled(c, p, rev, now));
    if p.Placed? then Delivered(scheduled, p.hostId, p.ip, now).SetRevisionDeep(rev) else scheduled
  }

  function Delivered(n: Stage, hostId: string, ip: string, now: int): Stage {
    var addressed := UpdateChild(n, IPAM_ALLOC, ZONELET, Instant(ip, now));
    var bound := UpdateChild(addressed, PORT_ALLOC, ZONELET, Instant("", now));
    UpdateChild(bound, DELIVER, ZONELET, Instant(hostId, now))
  }

  function Place(d: Deploy, repId: nat, p: Placement, now: int): Deploy {
    d.(stages := Some(UpdateReplica(d.Root(), repId, (n: Stage) => PlacedNode(n, p, d.revision, now))))
  }

  datatype Reported = Reported(name: string, owner: string, state: string, attempt: nat, created: int,
                               finished: int, message: string, revision: nat)

  predicate Stale(s: Reported, rev: nat) {
    s.revision > 0 && rev > 0 && s.revision < rev
  }

  function Copy(s: Reported): Stage -> Stage {
    (c: Stage) => c.(state := s.state, attempt := s.attempt, created := s.created, finished := s.finished,
                     message := s.message, revision := s.revision, origin := s.revision)
  }

  /** The reported stages one after the other; those of an earlier revision are discarded. */
  function Apply(n: Stage, reports: seq<Reported>, rev: nat): Stage
    decreases |reports|
  {
    if reports == [] then n
    else
      var before, s := Apply(n, reports[..|reports| - 1], rev), reports[|reports| - 1];
      if s.name == "" || Stale(s, rev) then before
      else UpdateChild(before, s.name, s.owner, Copy(s))
  }

  /** A report replaces what was relayed before. */
  function Merge(d: Deploy, repId: nat, reports: seq<Reported>): Deploy {
    d.(stages := Some(UpdateReplica(d.Root(), repId, (n: Stage) => Apply(Prune(n), reports, d.revision))))
  }

  /** What is stored of a stage. */
  function Encoded(s: Stage): Stage
    decreases s
  {
    s.(origin := 0, stages := seq(|s.stages|, i requires 0 <= i < |s.stages| => Encoded(s.stages[i])))
  }

  /** A report that leaves the stored form of the node as it was is not written back. */
  predicate ReportChanges(d: Deploy, repId: nat, reports: seq<Reported>) {
    var node := ReplicaNode(d.Root(), repId);
    Encoded(Apply(Prune(node), reports, d.revision)) != Encoded(node)
  }

  // ---- The barrier invariant ----

  ghost predicate Inv(d: Deploy) {
    && d.Root().revision <= d.revision
    && (d.Root().revision == d.revision ==> TreeFresh(d.Root(), d.revision))
  }

  lemma MarkPreHostRoot(d: Deploy, rpcStart: int, now: int)
    ensures MarkPreHost(d, rpcStart, now).Root().revision == d.Root().revision
    ensures MarkPreHost(d, rpcStart, now) == d.(stages := MarkPreHost(d, rpcStart, now).stages)
    ensures MarkPreHost(d, rpcStart, now).stages.Some?
  {
  }

  lemma CreateKeeps(cap: nat, rpcStart: int, now: int)
    ensures Inv(CreateDeploy(cap, rpcStart, now)) && CreateDeploy(cap, rpcStart, now).revision == 1
    ensures NeedsReconcile(CreateDeploy(cap, rpcStart, now))
  {
    hide MarkPreHost;
    var capped := Min(REPLICA_CAP_MAX, cap);
    MarkPreHostRoot(Deploy(START, 1, if capped < 1 then 1 else capped, None, 0), rpcStart, now);
  }

  /** A request raises the barrier: the revision moves on, the root does not. */
  lemma UpdateKeeps(d: Deploy, action: string, cap: nat, rpcStart: int, now: int)
    requires Inv(d)
    ensures var r := UpdateDeploy(d, action, cap, rpcStart, now);
            Inv(r) && r.revision == d.revision + 1 && NeedsReconcile(r)
  {
    hide MarkPreHost, TreeFresh;
    var newAction := if action == "" then d.action else if action == RESTART then START else action;
    var newCap := if cap > 0 then Min(REPLICA_CAP_MAX, cap) else d.replicaCap;
    var asked := d.(action := newAction, replicaCap := newCap, revision := d.revision + 1, request := d.request + 1);
    MarkPreHostRoot(asked, rpcStart, now);
  }

  lemma PrunedFresh(n: Stage, rev: nat)
    ensures NodeFresh(Prune(n), rev)
  {
    hide Relayed, Current;
    forall c | c in Prune(n).stages ensures !Relayed(c.name) {
      ZoneSideMembers(n.stages, c);
    }
  }

  lemma ReconcileKeeps(d: Deploy, now: int)
    requires Inv(d)
    ensures Inv(Reconcile(d, now)) && Reconcile(d, now).revision == d.revision
    ensures !NeedsReconcile(Reconcile(d, now))
  {
    hide NodeFresh, Prune;
    if NeedsReconcile(d) {
      var root := d.Root().SetRunning("", now);
      var pruned := root.(stages := PruneReplicas(root.stages));
      var r := pruned.SetRevisionDeep(d.revision);
      forall n | n in r.stages && n.name == REPLICA ensures NodeFresh(n, d.revision) {
        var i :| 0 <= i < |r.stages| && r.stages[i] == n;
        PrunedName(root.stages[i]);
        PrunedFresh(root.stages[i], d.revision);
        StampFresh(pruned.stages[i], d.revision, d.revision);
      }
    }
  }

  lemma PrunedName(n: Stage)
    ensures Prune(n).name == n.name
  {
  }

  lemma RebindKeeps(d: Deploy, repId: nat, stage: string, raised: bool, msg: string, now: int)
    requires Inv(d) && (stage == PORT_ALLOC || stage == IPAM_ALLOC)
    ensures Inv(Rebind(d, repId, stage, raised, msg, now))
    ensures d.revision <= Rebind(d, repId, stage, raised, msg, now).revision
  {
    hide NodeFresh, TreeFresh, UpdateChild, Relayed;
    var rev := if raised then d.revision else d.revision + 1;
    var g := Bind(stage, rev, msg, now);
    if TreeFresh(d.Root(), d.revision) {
      forall n: Stage | NodeFresh(n, d.revision) ensures NodeFresh(g(n), d.revision) {
        BoundFresh(n, stage, rev, msg, now, d.revision);
      }
      UpdateReplicaFresh(d.Root(), repId, g, d.revision);
    }
  }

  lemma BindingStage(stage: string)
    requires stage == PORT_ALLOC || stage == IPAM_ALLOC
    ensures !Relayed(stage)
  {
  }

  lemma BoundFresh(n: Stage, stage: string, at: nat, msg: string, now: int, rev: nat)
    requires NodeFresh(n, rev) && (stage == PORT_ALLOC || stage == IPAM_ALLOC)
    ensures NodeFresh(UpdateChild(n, stage, ZONELET, InstantAt(at, msg, now)), rev)
  {
    hide NodeFresh, UpdateChild, Relayed;
    BindingStage(stage);
    UpdateChildFresh(n, stage, ZONELET, InstantAt(at, msg, now), rev);
  }

  lemma ScheduledName(c: Stage, p: Placement, rev: nat, now: int)
    ensures Scheduled(c, p, rev, now).name == c.name
  {
  }

  lemma InstantFresh(n: Stage, stage: string, msg: string, now: int, rev: nat)
    requires NodeFresh(n, rev) && !Relayed(stage)
    ensures NodeFresh(UpdateChild(n, stage, ZONELET, Instant(msg, now)), rev)
  {
    hide NodeFresh, UpdateChild;
    UpdateChildFresh(n, stage, ZONELET, Instant(msg, now), rev);
  }

  lemma DeliveredFresh(n: Stage, hostId: string, ip: string, now: int, rev: nat)
    requires NodeFresh(n, rev)
    ensures NodeFresh(Delivered(n, hostId, ip, now), rev)
  {
    hide NodeFresh, UpdateChild, Instant;
    var addressed := UpdateChild(n, IPAM_ALLOC, ZONELET, Instant(ip, now));
    InstantFresh(n, IPAM_ALLOC, ip, now, rev);
    InstantFresh(addressed, PORT_ALLOC, "", now, rev);
    InstantFresh(UpdateChild(addressed, PORT_ALLOC, ZONELET, Instant("", now)), DELIVER, hostId, now, rev);
  }

  lemma PlacedFresh(n: Stage, p: Placement, rev: nat, now: int)
    requires NodeFresh(n, rev)
    ensures NodeFresh(PlacedNode(n, p, rev, now), rev)
  {
    hide NodeFresh, UpdateChild, Scheduled, Delivered;
    var f := (c: Stage) => Scheduled(c, p, rev, now);
    forall c: Stage ensures f(c).name == c.name {
      ScheduledName(c, p, rev, now);
    }
    UpdateChildFresh(n, SCHEDULE, ZONELET, f, rev);
    if p.Placed? {
      var scheduled := UpdateChild(n, SCHEDULE, ZONELET, f);
      DeliveredFresh(scheduled, p.hostId, p.ip, now, rev);
      StampFresh(Delivered(scheduled, p.hostId, p.ip, now), rev, rev);
    }
  }

  lemma PlaceKeeps(d: Deploy, repId: nat, p: Placement, now: int)
    requires Inv(d)
    ensures Inv(Place(d, repId, p, now)) && Place(d, repId, p, now).revision == d.revision
  {
    hide NodeFresh, TreeFresh, PlacedNode;
    var f := (n: Stage) => PlacedNode(n, p, d.revision, now);
    if TreeFresh(d.Root(), d.revision) {
      forall n: Stage | NodeFresh(n, d.revision) ensures NodeFresh(f(n), d.revision) {
        PlacedFresh(n, p, d.revision, now);
      }
      UpdateReplicaFresh(d.Root(), repId, f, d.revision);
    }
  }

  lemma {:induction false} ApplyFresh(n: Stage, reports: seq<Reported>, rev: nat)
    requires NodeFresh(n, rev)
    ensures NodeFresh(Apply(n, reports, rev), rev)
    decreases |reports|
  {
    hide NodeFresh, UpdateChild;
    if reports != [] {
      var s := reports[|reports| - 1];
      ApplyFresh(n, reports[..|reports| - 1], rev);
      if s.name != "" && !Stale(s, rev) {
        UpdateChildFresh(Apply(n, reports[..|reports| - 1], rev), s.name, s.owner, Copy(s), rev);
      }
    }
  }

  lemma MergeKeeps(d: Deploy, repId: nat, reports: seq<Reported>)
    requires Inv(d)
    ensures Inv(Merge(d, repId, reports)) && Merge(d, repId, reports).revision == d.revision
  {
    hide NodeFresh, TreeFresh, Apply, Prune;
    var f := (n: Stage) => Apply(Prune(n), reports, d.revision);
    if TreeFresh(d.Root(), d.revision) {
      forall n: Stage | NodeFresh(n, d.revision) ensures NodeFresh(f(n), d.revision) {
        PrunedFresh(n, d.revision);
        ApplyFresh(Prune(n), reports, d.revision);
      }
      UpdateReplicaFresh(d.Root(), repId, f, d.revision);
    }
  }

  // ---- Runs ----

  /** A stored value with the store's version of it; the leader's copy remembers the version it was read at. */
  datatype Record = Record(version: nat, deploy: Deploy)

  datatype State = State(store: Option<Record>, entry: Option<Record>)

  /** written: whether the store takes a write that its version check allows. */
  datatype Step =
    | CreateInstance(cap: nat, rpcStart: int, now: int)
    | DeployInstance(action: string, cap: nat, rpcStart: int, now: int)
    | DeleteInstance
    | RefUpdate
    | Refresh
    | ReconcileRevision(now: int, written: bool)
    | BindResource(repId: nat, stage: string, raised: bool, msg: string, now: int, written: bool)
    | PlaceReplica(repId: nat, placement: Placement, now: int, written: bool)
    | MergeReport(repId: nat, reports: seq<Reported>, written: bool)

  /** The leader's copy has become d and is written back, unless the store has moved on. */
  function Flush(s: State, d: Deploy, written: bool): State
    requires s.entry.Some?
  {
    var version := s.entry.value.version;
    if written && s.store.Some? && s.store.value.version == version then
      State(Some(Record(version + 1, d)), Some(Record(version + 1, d)))
    else s.(entry := Some(Record(version, d)))
  }

  /** The leader's copy is one the scheduler and the reports may touch. */
  predicate Live(s: State) {
    s.entry.Some? && s.entry.value.deploy.action != DELETE
  }

  predicate Writable(s: State) {
    s.store.Some? && s.store.value.deploy.action != DELETE
  }

  function Next(s: State, step: Step): State {
    match step
    case CreateInstance(cap, rpcStart, now) =>
      if s.store.None? then s.(store := Some(Record(1, CreateDeploy(cap, rpcStart, now)))) else s
    case DeployInstance(action, cap, rpcStart, now) =>
      if Writable(s) then
        var r := s.store.value;
        s.(store := Some(Record(r.version + 1, UpdateDeploy(r.deploy, action, cap, rpcStart, now))))
      else s
    case DeleteInstance =>
      if Writable(s) then
        var r := Record(s.store.value.version + 1, s.store.value.deploy.(action := DELETE));
        State(Some(r), Some(r))
      else s
    case RefUpdate =>
      if s.store.Some? then s.(store := Some(Record(s.store.value.version + 1, s.store.value.deploy))) else s
    case Refresh =>
      if s.store.Some? && (s.entry.None? || s.store.value.version > s.entry.value.version)
      then s.(entry := s.store) else s
    case ReconcileRevision(now, written) =>
      if !Live(s) then s
      else
        var d := s.entry.value.deploy;
        Flush(s, Reconcile(d, now), written && NeedsReconcile(d))
    case BindResource(repId, stage, raised, msg, now, written) =>
      if Live(s) && (stage == PORT_ALLOC || stage == IPAM_ALLOC)
      then Flush(s, Rebind(s.entry.value.deploy, repId, stage, raised, msg, now), written) else s
    case PlaceReplica(repId, placement, now, written) =>
      if Live(s)
      then Flush(s, Place(s.entry.value.deploy, repId, placement, now), written && !placement.HostGone?) else s
    case MergeReport(repId, reports, written) =>
      if !Live(s) then s
      else
        var d := s.entry.value.deploy;
        Flush(s, Merge(d, repId, reports), written && ReportChanges(d, repId, reports))
  }

  /**
   The zone: the stored record, and the copy that each host made while it was the
   leader. A former leader keeps its copy, and goes on with it when it leads again.
   For the proofs only: given are the revision numbers that the requests got, and
   shown are the pairs of revision number and request that a record or a copy, and
   so a deploy that a host was sent, has ever carried.
   */
  datatype Zone = Zone(store: Option<Record>, copies: map<nat, Record>, shown: set<(nat, nat)>, given: seq<nat>)

  datatype ZoneStep = By(host: nat, step: Step) | LoseCopy(host: nat)

  function StateOf(z: Zone, host: nat): State {
    State(z.store, if host in z.copies then Some(z.copies[host]) else None)
  }

  /** A request that gets through. */
  predicate Asks(s: State, step: Step) {
    (step.CreateInstance? && s.store.None?) || (step.DeployInstance? && Writable(s))
  }

  /** The revision number and the request of a record or a copy. */
  function Shows(r: Option<Record>): set<(nat, nat)> {
    if r.Some? then {(r.value.deploy.revision, r.value.deploy.request)} else {}
  }

  /** Any host takes any step, also while another one still works; a restart loses its copy. */
  function NextZone(z: Zone, zs: ZoneStep): Zone {
    match zs
    case By(host, step) =>
      var s := Next(StateOf(z, host), step);
      Zone(s.store, if s.entry.Some? then z.copies[host := s.entry.value] else z.copies - {host},
           z.shown + Shows(s.store) + Shows(s.entry),
           if Asks(StateOf(z, host), step) then z.given + [s.store.value.deploy.revision] else z.given)
    case LoseCopy(host) => z.(copies := z.copies - {host})
  }

  function Run(z: Zone, steps: seq<ZoneStep>): Zone
    decreases |steps|
  {
    if steps == [] then z else NextZone(Run(z, steps[..|steps| - 1]), steps[|steps| - 1])
  }

  const INIT := Zone(None, map[], {}, [])

  /**
   Both the record and the leader's copy meet the barrier invariant, and a copy
   that a compare-and-set would still accept is never behind the record.
   */
  ghost predicate StateInv(s: State) {
    && (s.store.Some? ==> Inv(s.store.value.deploy))
    && (s.entry.Some? ==>
          && Inv(s.entry.value.deploy) && s.store.Some?
          && s.entry.value.version <= s.store.value.version
          && (s.entry.value.version == s.store.value.version ==>
                s.store.value.deploy.revision <= s.entry.value.deploy.revision))
  }

  function StoredRevision(store: Option<Record>): nat {
    if store.Some? then store.value.deploy.revision else 0
  }

  /** The record is never lost, its revision never goes back, and every change of it takes a new version. */
  predicate Advances(before: Option<Record>, after: Option<Record>) {
    && StoredRevision(before) <= StoredRevision(after)
    && (before.Some? ==> after.Some? && (after == before || before.value.version < after.value.version))
  }

  lemma FlushKeeps(s: State, d: Deploy, written: bool)
    requires StateInv(s) && s.entry.Some? && Inv(d) && s.entry.value.deploy.revision <= d.revision
    ensures StateInv(Flush(s, d, written)) && Advances(s.store, Flush(s, d, written).store)
  {
    hide Inv;
  }

  /** Every step of a host keeps the invariant of its copy, and the record only moves forward. */
  lemma NextKeeps(s: State, step: Step)
    requires StateInv(s)
    ensures StateInv(Next(s, step)) && Advances(s.store, Next(s, step).store)
  {
    hide TreeFresh, CreateDeploy, UpdateDeploy, Reconcile, Rebind, Place, Merge, ReportChanges;
    match step
    case CreateInstance(cap, rpcStart, now) =>
      CreateKeeps(cap, rpcStart, now);
    case DeployInstance(action, cap, rpcStart, now) =>
      if Writable(s) {
        UpdateKeeps(s.store.value.deploy, action, cap, rpcStart, now);
      }
    case DeleteInstance =>
    case RefUpdate =>
    case Refresh =>
    case ReconcileRevision(now, written) =>
      if Live(s) {
        var d := s.entry.value.deploy;
        ReconcileKeeps(d, now);
        FlushKeeps(s, Reconcile(d, now), written && NeedsReconcile(d));
      }
    case BindResource(repId, stage, raised, msg, now, written) =>
      if Live(s) && (stage == PORT_ALLOC || stage == IPAM_ALLOC) {
        RebindKeeps(s.entry.value.deploy, repId, stage, raised, msg, now);
        FlushKeeps(s, Rebind(s.entry.value.deploy, repId, stage, raised, msg, now), written);
      }
    case PlaceReplica(repId, placement, now, written) =>
      if Live(s) {
        PlaceKeeps(s.entry.value.deploy, repId, placement, now);
        FlushKeeps(s, Place(s.entry.value.deploy, repId, placement, now), written && !placement.HostGone?);
      }
    case MergeReport(repId, reports, written) =>
      if Live(s) {
        var d := s.entry.value.deploy;
        MergeKeeps(d, repId, reports);
        FlushKeeps(s, Merge(d, repId, reports), written && ReportChanges(d, repId, reports));
      }
  }

  ghost predicate ZoneInv(z: Zone) {
    && (z.store.Some? ==> Inv(z.store.value.deploy))
    && forall h :: h in z.copies ==> StateInv(StateOf(z, h))
  }

  /** The copies of other hosts fall behind at most: a compare-and-set from them is refused. */
  lemma OthersKeep(z: Zone, host: nat, after: Option<Record>)
    requires StateInv(StateOf(z, host)) && Advances(z.store, after)
    requires after.Some? ==> Inv(after.value.deploy)
    ensures StateInv(State(after, StateOf(z, host).entry))
  {
    hide Inv, StoredRevision;
  }

  lemma NextZoneKeeps(z: Zone, zs: ZoneStep)
    requires ZoneInv(z)
    ensures ZoneInv(NextZone(z, zs)) && Advances(z.store, NextZone(z, zs).store)
  {
    hide Next, Inv;
    var next := NextZone(z, zs);
    if zs.By? {
      var s := StateOf(z, zs.host);
      NextKeeps(s, zs.step);
      assert StateOf(next, zs.host) == Next(s, zs.step);
    }
    assert Advances(z.store, next.store);
    hide StateInv, Advances;
    forall h | h in next.copies ensures StateInv(StateOf(next, h)) {
      if zs.LoseCopy? || h != zs.host {
        OthersKeep(z, h, next.store);
      }
    }
  }

  lemma AdvancesOn(a: Option<Record>, b: Option<Record>, c: Option<Record>)
    requires Advances(a, b) && Advances(b, c)
    ensures Advances(a, c)
  {
  }

  lemma {:induction false} RunKeeps(z: Zone, steps: seq<ZoneStep>)
    requires ZoneInv(z)
    ensures ZoneInv(Run(z, steps)) && Advances(z.store, Run(z, steps).store)
    decreases |steps|
  {
    if steps != [] {
      hide NextZone, ZoneInv, Advances;
      var before := Run(z, steps[..|steps| - 1]);
      RunKeeps(z, steps[..|steps| - 1]);
      NextZoneKeeps(before, steps[|steps| - 1]);
      AdvancesOn(z.store, before.store, Run(z, steps).store);
    }
  }

  lemma {:induction false} RunSplit(z: Zone, a: seq<ZoneStep>, b: seq<ZoneStep>)
    ensures Run(z, a + b) == Run(Run(z, a), b)
    decreases |b|
  {
    hide NextZone;
    if b == [] {
      assert a + b == a;
    } else {
      assert (a + b)[..|a + b| - 1] == a + b[..|b| - 1];
      RunSplit(z, a, b[..|b| - 1]);
    }
  }
}
