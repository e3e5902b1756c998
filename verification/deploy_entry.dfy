/**
 The leader's cached copy of an instance, changed step by step by the scheduler
 and by host reports, and written back by compare-and-set. Every method is one
 step of the barrier protocol.
 */
module DeployEntry {
  import opened Common
  import opened DeployStages
  import opened DeployBarrier

  class InstanceStore {
    var record: Option<Record>

    constructor ()
      ensures record == None
    {
      record := None;
    }

    method AppInstanceDeploy(action: string, cap: nat, rpcStart: int, now: int, ghost entry: Option<Record>)
      returns (ok: bool)
      modifies this
      ensures ok == (old(record).None? || old(record).value.deploy.action != DELETE)
      ensures var before := State(old(record), entry);
              State(record, entry) ==
              if old(record).None? then Next(before, CreateInstance(cap, rpcStart, now))
              else Next(before, DeployInstance(action, cap, rpcStart, now))
    {
      hide MarkPreHost;
      if record.None? {
        var capped := Min(REPLICA_CAP_MAX, cap);
        var deploy := Deploy(START, 1, if capped < 1 then 1 else capped, None, 0);
        record := Some(Record(1, MarkPreHost(deploy, rpcStart, now)));
        return true;
      }
      var deploy := record.value.deploy;
      if deploy.action == DELETE {
        return false;
      }
      if cap > 0 {
        deploy := deploy.(replicaCap := Min(REPLICA_CAP_MAX, cap));
      }
      if action != "" {
        deploy := deploy.(action := if action == RESTART then START else action);
      }
      deploy := deploy.(revision := deploy.revision + 1, request := deploy.request + 1);
      record := Some(Record(record.value.version + 1, MarkPreHost(deploy, rpcStart, now)));
      ok := true;
    }
  }

  class AppInstanceEntry {
    var version: nat
    var deploy: Deploy
    const store: InstanceStore

    constructor (store: InstanceStore, r: Record)
      requires store.record == Some(r)
      ensures this.store == store && Current() == Next(State(store.record, None), Step.Refresh)
    {
      this.store := store;
      version, deploy := r.version, r.deploy;
    }

    ghost function Current(): State
      reads this, store
    {
      State(store.record, Some(Record(version, deploy)))
    }

    /** Writes the copy back unless the store holds another version by now. */
    method Flush(accepted: bool) returns (ok: bool)
      modifies this, store
      ensures Current() == DeployBarrier.Flush(old(Current()), old(deploy), accepted)
      ensures deploy == old(deploy)
    {
      if !accepted || store.record.None? || store.record.value.version != version {
        return false;
      }
      store.record := Some(Record(version + 1, deploy));
      version := version + 1;
      ok := true;
    }

    /** Takes over a stored record that is newer than the copy. */
    method Store()
      modifies this
      ensures Current() == Next(old(Current()), Step.Refresh)
    {
      if store.record.Some? && store.record.value.version > version {
        version, deploy := store.record.value.version, store.record.value.deploy;
      }
    }

    method SchedulerReconcileDeployRevision(now: int, accepted: bool)
      requires deploy.action != DELETE
      modifies this, store
      ensures Current() == Next(old(Current()), ReconcileRevision(now, accepted))
    {
      var changed := AppDeployStagesReconcile(now);
      if changed {
        var _ := Flush(accepted);
      }
    }

    method AppDeployStagesReconcile(now: int) returns (changed: bool)
      modifies `deploy
      ensures deploy == Reconcile(old(deploy), now)
      ensures changed == NeedsReconcile(old(deploy))
    {
      var root := deploy.Root();
      if root.revision >= deploy.revision {
        deploy := deploy.(stages := Some(root));
        return false;
      }
      root := root.SetRunning("", now);
      var pruned := [];
      for i := 0 to |root.stages|
        invariant deploy == old(deploy)
        invariant pruned == PruneReplicas(root.stages)[..i]
      {
        var repNode := root.stages[i];
        if repNode.name == REPLICA {
          var kept := PruneChildren(repNode.stages);
          repNode := repNode.(stages := kept);
        }
        pruned := pruned + [repNode];
      }
      assert pruned == PruneReplicas(root.stages);
      deploy := deploy.(stages := Some(root.(stages := pruned).SetRevisionDeep(deploy.revision)));
      changed := true;
    }

    /** At most one raise a tick. */
    method SchedulerBumpRevision(bumped: bool) returns (rev: nat)
      modifies `deploy
      ensures rev == deploy.revision == if bumped then old(deploy).revision else old(deploy).revision + 1
      ensures deploy == old(deploy).(revision := rev)
    {
      if !bumped {
        deploy := deploy.(revision := deploy.revision + 1);
      }
      rev := deploy.revision;
    }

    method RecordBinding(repId: nat, stage: string, bumped: bool, msg: string, now: int, accepted: bool)
      requires deploy.action != DELETE && (stage == PORT_ALLOC || stage == IPAM_ALLOC)
      modifies this, store
      ensures Current() == Next(old(Current()), BindResource(repId, stage, bumped, msg, now, accepted))
    {
      hide UpdateReplica, Bind;
      var rev := SchedulerBumpRevision(bumped);
      deploy := deploy.(stages := Some(UpdateReplica(deploy.Root(), repId, Bind(stage, rev, msg, now))));
      var _ := Flush(accepted);
    }

    /** One attempt to place a replica, recorded stage by stage; a host that has gone ends it without a write. */
    method RecordPlacement(repId: nat, placement: Placement, now: int, accepted: bool)
      requires deploy.action != DELETE
      modifies this, store
      ensures Current() == Next(old(Current()), PlaceReplica(repId, placement, now, accepted))
    {
      hide UpdateChild, WithChild, WithReplica, UpdateReplica, ReplicaNode, Child, Scheduled, Delivered;
      var root := deploy.Root();
      PlaceInPlace(deploy, repId, placement, now);
      var repStage := ReplicaNode(root, repId);
      var rev := deploy.revision;
      var schedStage := RecordSchedule(Child(repStage, SCHEDULE, ZONELET), placement, rev, now);
      repStage := WithChild(repStage, SCHEDULE, schedStage);
      if placement.Placed? {
        repStage := RecordDelivery(repStage, placement.hostId, placement.ip, now);
        repStage := repStage.SetRevisionDeep(rev);
      }
      deploy := deploy.(stages := Some(WithReplica(root, repId, repStage)));
      if placement.HostGone? {
        return;
      }
      var _ := Flush(accepted);
    }

    method MergeHostReplicaStages(repId: nat, reports: seq<Reported>, accepted: bool)
      modifies this, store
      ensures Current() == Next(old(Current()), MergeReport(repId, reports, accepted))
    {
      NextMerge(Current(), repId, reports, accepted);
      hide Next, Merge, ReportChanges, DeployBarrier.Flush;
      if deploy.action == DELETE {
        return;
      }
      var merged, changed := MergeReportInto(deploy, repId, reports);
      Adopt(merged, changed, accepted);
    }

    /** The copy becomes d; a change that shows is written back. */
    method Adopt(d: Deploy, changed: bool, accepted: bool)
      modifies this, store
      ensures Current() == DeployBarrier.Flush(old(Current()), d, accepted && changed)
    {
      deploy := d;
      if changed {
        var _ := Flush(accepted);
      }
    }
  }

  method RecordSchedule(stage: Stage, placement: Placement, rev: nat, now: int) returns (schedStage: Stage)
    ensures schedStage == Scheduled(stage, placement, rev, now)
  {
    hide UpdateChild;
    schedStage := stage.SetRunning("", now);
    schedStage := schedStage.(revision := rev);
    if placement.Unplaced? {
      schedStage := schedStage.SetFailed(placement.msg, now);
      schedStage := schedStage.(revision := rev);
      return;
    }
    schedStage := UpdateChild(schedStage, HOST_FIT, ZONELET, Instant("", now));
    schedStage := UpdateChild(schedStage, HOST_PRIORITIZE, ZONELET, Instant(placement.hostId, now));
    schedStage := schedStage.SetSuccess(placement.hostId, now);
  }

  method RecordDelivery(stage: Stage, hostId: string, ip: string, now: int) returns (repStage: Stage)
    ensures repStage == Delivered(stage, hostId, ip, now)
  {
    hide UpdateChild;
    repStage := UpdateChild(stage, IPAM_ALLOC, ZONELET, Instant(ip, now));
    repStage := UpdateChild(repStage, PORT_ALLOC, ZONELET, Instant("", now));
    repStage := UpdateChild(repStage, DELIVER, ZONELET, Instant(hostId, now));
  }

  lemma PlaceInPlace(d: Deploy, repId: nat, p: Placement, now: int)
    ensures var node := ReplicaNode(d.Root(), repId);
            var scheduled := WithChild(node, SCHEDULE, Scheduled(Child(node, SCHEDULE, ZONELET), p, d.revision, now));
            var placed := if p.Placed? then Delivered(scheduled, p.hostId, p.ip, now).SetRevisionDeep(d.revision)
                          else scheduled;
            Place(d, repId, p, now) == d.(stages := Some(WithReplica(d.Root(), repId, placed)))
  {
    hide UpdateChild, WithChild, WithReplica, UpdateReplica, ReplicaNode, Child, Scheduled, Delivered;
    var f := (n: Stage) => PlacedNode(n, p, d.revision, now);
    ReplaceReplica(d.Root(), repId, f);
    var node := ReplicaNode(d.Root(), repId);
    ReplaceChild(node, SCHEDULE, ZONELET, (c: Stage) => Scheduled(c, p, d.revision, now));
  }

  lemma NextMerge(s: State, repId: nat, reports: seq<Reported>, accepted: bool)
    requires s.entry.Some?
    ensures var d := s.entry.value.deploy;
            Next(s, MergeReport(repId, reports, accepted)) ==
            if d.action == DELETE then s
            else DeployBarrier.Flush(s, Merge(d, repId, reports), accepted && ReportChanges(d, repId, reports))
  {
    hide Merge, ReportChanges;
  }

  method MergeReportInto(d: Deploy, repId: nat, reports: seq<Reported>) returns (merged: Deploy, changed: bool)
    ensures merged == Merge(d, repId, reports) && changed == ReportChanges(d, repId, reports)
  {
    hide Encoded, ReplicaNode, WithReplica, Merge, Prune, Apply;
    var repNode := ReplicaNode(d.Root(), repId);
    var after := ApplyReport(repNode, reports, d.revision);
    ReplaceNode(d, repId, reports);
    merged := d.(stages := Some(WithReplica(d.Root(), repId, after)));
    changed := Encoded(after) != Encoded(repNode);
  }

  method ApplyReport(repNode: Stage, reports: seq<Reported>, curRev: nat) returns (node: Stage)
    ensures node == Apply(Prune(repNode), reports, curRev)
  {
    hide UpdateChild;
    var kept := PruneChildren(repNode.stages);
    node := repNode.(stages := kept);
    for i := 0 to |reports|
      invariant node == Apply(Prune(repNode), reports[..i], curRev)
    {
      assert reports[..i + 1][..i] == reports[..i];
      var s := reports[i];
      if s.name == "" {
        continue;
      }
      if s.revision > 0 && curRev > 0 && s.revision < curRev {
        continue;
      }
      node := UpdateChild(node, s.name, s.owner, Copy(s));
    }
    assert reports[..|reports|] == reports;
  }

  lemma ReplaceNode(d: Deploy, repId: nat, reports: seq<Reported>)
    ensures var after := Apply(Prune(ReplicaNode(d.Root(), repId)), reports, d.revision);
            d.(stages := Some(WithReplica(d.Root(), repId, after))) == Merge(d, repId, reports)
  {
    hide Apply, Prune;
  }
}
