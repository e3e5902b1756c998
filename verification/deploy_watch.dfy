/**
 The watcher of a deploy, and what its verdict is worth: over every run of
 requests, scheduler ticks and host reports, a deploy that it calls finished
 without failure rests on reports about that deploy, not on left-overs of an
 earlier one.
 */
module DeployWatch {
  import opened Common
  import opened DeployStages
  import opened DeployBarrier
  import opened DeployContent
  import opened DeployNumbers

  /** The stage whose success completes an action. */
  function TerminalStage(action: string): string {
    if action == STOP then CONTAINER_STOP
    else if action == DESTROY then CONTAINER_DESTROY
    else TASK_RUN
  }

  function Cap(d: Deploy): nat {
    if d.replicaCap == 0 then 1 else d.replicaCap
  }

  predicate Succeeded(n: Stage, name: string) {
    Find(n, name).Some? && Find(n, name).value.state == SUCCESS
  }

  datatype NodeStatus = Done | Broken | InProgress

  function ReplicaNodeStatus(n: Stage, terminalStage: string): NodeStatus {
    if HasFailed(n) then Broken
    else if Succeeded(n, terminalStage) then Done
    else InProgress
  }

  predicate ReplicaIs(root: Stage, repId: nat, terminalStage: string, status: NodeStatus) {
    FindReplica(root, repId).Some? && ReplicaNodeStatus(FindReplica(root, repId).value, terminalStage) == status
  }

  predicate ReplicaReady(root: Stage, repId: nat) {
    FindReplica(root, repId).Some? && Succeeded(FindReplica(root, repId).value, CONTAINER_RUNNING)
  }

  predicate InagentSeen(n: Stage) {
    Find(n, "inagent_boot").Some? || Find(n, "spec_load").Some? || Find(n, TASK_RUN).Some?
  }

  predicate ReplicaInagentSeen(root: Stage, repId: nat) {
    FindReplica(root, repId).Some? && InagentSeen(FindReplica(root, repId).value)
  }

  /** The tree is missing or lags behind the revision. */
  predicate BarrierUp(d: Deploy) {
    d.stages.None? || NeedsReconcile(d)
  }

  predicate AllDone(d: Deploy, terminalStage: string) {
    forall r: nat :: r < Cap(d) ==> ReplicaIs(d.Root(), r, terminalStage, Done)
  }

  predicate SomeBroken(d: Deploy, terminalStage: string) {
    exists r: nat :: r < Cap(d) && ReplicaIs(d.Root(), r, terminalStage, Broken)
  }

  predicate AllReadyUnseen(d: Deploy) {
    forall r: nat :: r < Cap(d) ==> ReplicaReady(d.Root(), r) && !ReplicaInagentSeen(d.Root(), r)
  }

  datatype Verdict = Verdict(terminal: bool, failed: bool, fallbackReady: bool)

  function Judge(d: Deploy, terminalStage: string): Verdict {
    if BarrierUp(d) then Verdict(false, false, false)
    else
      var failed := SomeBroken(d, terminalStage);
      Verdict(AllDone(d, terminalStage) || failed, failed, AllReadyUnseen(d))
  }

  /** One expected replica; one that is not placed yet is in progress. */
  method EvaluateReplica(root: Stage, repId: nat, terminalStage: string)
    returns (status: NodeStatus, ready: bool, inagentSeen: bool)
    ensures status == Done <==> ReplicaIs(root, repId, terminalStage, Done)
    ensures status == Broken <==> ReplicaIs(root, repId, terminalStage, Broken)
    ensures ready == ReplicaReady(root, repId)
    ensures inagentSeen == ReplicaInagentSeen(root, repId)
  {
    hide FindReplica, Succeeded, InagentSeen, ReplicaNodeStatus;
    var found := FindReplica(root, repId);
    if found.None? {
      return InProgress, false, false;
    }
    var repNode := found.value;
    status := ReplicaNodeStatus(repNode, terminalStage);
    ready := Succeeded(repNode, CONTAINER_RUNNING);
    inagentSeen := InagentSeen(repNode);
  }

  /** All expected replicas in one pass. */
  method CountReplicas(root: Stage, replicaCap: nat, terminalStage: string)
    returns (done: nat, failed: bool, readyCount: nat, inagentSeen: bool)
    ensures done <= replicaCap && readyCount <= replicaCap
    ensures done == replicaCap <==> forall r: nat :: r < replicaCap ==> ReplicaIs(root, r, terminalStage, Done)
    ensures failed <==> exists r: nat :: r < replicaCap && ReplicaIs(root, r, terminalStage, Broken)
    ensures readyCount == replicaCap <==> forall r: nat :: r < replicaCap ==> ReplicaReady(root, r)
    ensures inagentSeen <==> exists r: nat :: r < replicaCap && ReplicaInagentSeen(root, r)
  {
    hide *;
    done, failed, readyCount, inagentSeen := 0, false, 0, false;
    for repId := 0 to replicaCap
      invariant done <= repId && readyCount <= repId
      invariant done == repId <==> forall r: nat :: r < repId ==> ReplicaIs(root, r, terminalStage, Done)
      invariant failed <==> exists r: nat :: r < repId && ReplicaIs(root, r, terminalStage, Broken)
      invariant readyCount == repId <==> forall r: nat :: r < repId ==> ReplicaReady(root, r)
      invariant inagentSeen <==> exists r: nat :: r < repId && ReplicaInagentSeen(root, r)
    {
      var status, ready, seen := EvaluateReplica(root, repId, terminalStage);
      done := done + if status == Done then 1 else 0;
      failed := failed || status == Broken;
      readyCount := readyCount + if ready then 1 else 0;
      inagentSeen := inagentSeen || seen;
    }
  }

  method RenderDeployStages(d: Deploy, fetched: bool, terminalStage: string) returns (v: Verdict)
    ensures v == if fetched then Judge(d, terminalStage) else Verdict(false, false, false)
  {
    if !fetched || d.stages.None? {
      return Verdict(false, false, false);
    }
    var root := d.stages.value;
    var replicaCap := if d.replicaCap == 0 then 1 else d.replicaCap;
    if root.revision < d.revision {
      return Verdict(false, false, false);
    }
    hide ReplicaIs, ReplicaReady, ReplicaInagentSeen;
    var done, failed, readyCount, inagentSeen := CountReplicas(root, replicaCap, terminalStage);
    v := Verdict(done >= replicaCap || failed, failed, readyCount >= replicaCap && !inagentSeen);
  }

  // ---- The verdict in plain terms ----

  ghost predicate StageIs(root: Stage, repId: nat, name: string, state: string) {
    && FindReplica(root, repId).Some?
    && Find(FindReplica(root, repId).value, name).Some?
    && Find(FindReplica(root, repId).value, name).value.state == state
  }

  ghost predicate HasStage(root: Stage, repId: nat, name: string) {
    FindReplica(root, repId).Some? && Find(FindReplica(root, repId).value, name).Some?
  }

  /** Some stage under the node of the replica, at whatever depth, has failed. */
  ghost predicate FailedAtSomePath(root: Stage, repId: nat) {
    && FindReplica(root, repId).Some?
    && exists path: seq<nat> ::
         At(FindReplica(root, repId).value, path).Some?
         && At(FindReplica(root, repId).value, path).value.state == "failed"
  }

  /**
   While the root lags behind, or is missing, nothing is said. From then on a
   failed stage under any expected replica is a failure, and the deploy is over
   when there is one or when every expected replica has the last stage of the
   action done. The fallback: all containers run and no agent was heard of.
   */
  lemma VerdictSays(d: Deploy, action: string)
    ensures var last := if action == "stop" then "container_stop"
                        else if action == "destroy" then "container_destroy" else "task_run";
            var expected := if d.replicaCap == 0 then 1 else d.replicaCap;
            var v := Judge(d, TerminalStage(action));
            if d.stages.None? || d.stages.value.revision < d.revision then v == Verdict(false, false, false)
            else
              && var root := d.stages.value;
              && (v.failed <==> exists r: nat :: r < expected && FailedAtSomePath(root, r))
              && (v.terminal <==>
                    v.failed || forall r: nat :: r < expected ==> StageIs(root, r, last, "success"))
              && (v.fallbackReady <==>
                    forall r: nat :: r < expected ==>
                      && StageIs(root, r, "container_running", "success")
                      && !HasStage(root, r, "inagent_boot") && !HasStage(root, r, "spec_load")
                      && !HasStage(root, r, "task_run"))
  {
    if d.stages.Some? && d.stages.value.revision >= d.revision {
      var root, t := d.stages.value, TerminalStage(action);
      forall r: nat
        ensures ReplicaIs(root, r, t, Broken) <==> FailedAtSomePath(root, r)
        ensures ReplicaIs(root, r, t, Done) <==> StageIs(root, r, t, "success") && !FailedAtSomePath(root, r)
        ensures ReplicaReady(root, r) <==> StageIs(root, r, "container_running", "success")
        ensures ReplicaInagentSeen(root, r) <==>
                HasStage(root, r, "inagent_boot") || HasStage(root, r, "spec_load") || HasStage(root, r, "task_run")
      {
        ReplicaStatusSays(root, r, t);
      }
      hide ReplicaIs, FailedAtSomePath, StageIs, HasStage, ReplicaReady, ReplicaInagentSeen;
    }
  }

  lemma ReplicaStatusSays(root: Stage, repId: nat, t: string)
    ensures ReplicaIs(root, repId, t, Broken) <==> FailedAtSomePath(root, repId)
    ensures ReplicaIs(root, repId, t, Done) <==>
            StageIs(root, repId, t, "success") && !FailedAtSomePath(root, repId)
    ensures ReplicaReady(root, repId) <==> StageIs(root, repId, "container_running", "success")
    ensures ReplicaInagentSeen(root, repId) <==>
            HasStage(root, repId, "inagent_boot") || HasStage(root, repId, "spec_load")
            || HasStage(root, repId, "task_run")
  {
    hide FindReplica, Find, HasFailed, At;
    if FindReplica(root, repId).Some? {
      var node := FindReplica(root, repId).value;
      if HasFailed(node) {
        var path := FailureSomewhere(node);
        assert At(node, path).Some?;
      } else {
        forall path: seq<nat> | At(node, path).Some?
          ensures At(node, path).value.state != "failed"
        {
          NoFailureAnywhere(node, path);
        }
      }
    }
  }

  /** A stage that a host last reported as failed ends the deploy as failed, unless a request is being taken up. */
  lemma FailedReportIsSeen(d: Deploy, repId: nat, reports: seq<Reported>, k: nat, name: string, action: string)
    requires LastReport(reports, k, name, d.revision) && reports[k].state == "failed"
    requires repId < (if d.replicaCap == 0 then 1 else d.replicaCap) && d.Root().revision >= d.revision
    ensures var v := Judge(Merge(d, repId, reports), TerminalStage(action)); v.terminal && v.failed
  {
    hide HasFailed, FindReplica, LastReport, Merge, TerminalStage;
    FailureShows(d, repId, reports, k, name);
    MergedReport(d, repId, reports, name);
    MergeStored(d, repId, reports);
    FoundNode(Merge(d, repId, reports).Root(), repId);
    assert ReplicaIs(Merge(d, repId, reports).Root(), repId, TerminalStage(action), Broken);
  }

  lemma MergeStored(d: Deploy, repId: nat, reports: seq<Reported>)
    ensures Merge(d, repId, reports).stages.Some?
  {
  }

  // ---- What a verdict rests on ----

  /** The named stage of a replica has succeeded, by a report about revision rev or later (or one that names none). */
  ghost predicate SucceededSince(d: Deploy, repId: nat, name: string, rev: nat) {
    var node := FindReplica(d.Root(), repId);
    && node.Some?
    && Find(node.value, name).Some?
    && Find(node.value, name).value.state == SUCCESS
    && Current(Find(node.value, name).value, rev)
  }

  /** No stage under the node of the replica, at any depth, has failed. */
  ghost predicate NothingFailed(d: Deploy, repId: nat) {
    var node := FindReplica(d.Root(), repId);
    node.Some? && forall path: seq<nat> :: At(node.value, path).Some? ==> At(node.value, path).value.state != FAILED
  }

  lemma FoundIsFresh(d: Deploy, repId: nat, name: string)
    requires Inv(d) && !BarrierUp(d) && Relayed(name)
    requires FindReplica(d.Root(), repId).Some? && Find(FindReplica(d.Root(), repId).value, name).Some?
    ensures Current(Find(FindReplica(d.Root(), repId).value, name).value, d.revision)
  {
    hide Relayed, Current;
    var node := FindReplica(d.Root(), repId).value;
    assert node in d.Root().stages && NodeFresh(node, d.revision);
  }

  lemma TerminalIsRelayed(action: string)
    ensures Relayed(TerminalStage(action)) && Relayed(CONTAINER_RUNNING)
  {
  }

  /** A verdict of success covers every expected replica, with a current report and no failure anywhere. */
  lemma SuccessIsCurrent(d: Deploy, action: string)
    requires Inv(d) && Judge(d, TerminalStage(action)).terminal && !Judge(d, TerminalStage(action)).failed
    ensures forall r: nat :: r < Cap(d) ==>
            SucceededSince(d, r, TerminalStage(action), d.revision) && NothingFailed(d, r)
  {
    hide Relayed, Current, HasFailed, Find, FindReplica, TreeFresh, TerminalStage;
    var t := TerminalStage(action);
    TerminalIsRelayed(action);
    forall r: nat | r < Cap(d)
      ensures SucceededSince(d, r, t, d.revision) && NothingFailed(d, r)
    {
      assert ReplicaIs(d.Root(), r, t, Done);
      FoundIsFresh(d, r, t);
      var node := FindReplica(d.Root(), r).value;
      forall path: seq<nat> | At(node, path).Some? ensures At(node, path).value.state != FAILED {
        NoFailureAnywhere(node, path);
      }
    }
  }

  /** The fallback, containers running and no agent heard of, rests on current reports too. */
  lemma FallbackIsCurrent(d: Deploy, action: string)
    requires Inv(d) && Judge(d, TerminalStage(action)).fallbackReady
    ensures forall r: nat :: r < Cap(d) ==> SucceededSince(d, r, CONTAINER_RUNNING, d.revision)
  {
    hide Relayed, Current, HasFailed, Find, FindReplica, TreeFresh, TerminalStage;
    TerminalIsRelayed(action);
    forall r: nat | r < Cap(d) ensures SucceededSince(d, r, CONTAINER_RUNNING, d.revision) {
      assert ReplicaReady(d.Root(), r);
      FoundIsFresh(d, r, CONTAINER_RUNNING);
    }
  }

  // ---- Over every run ----

  lemma CurrentEarlier(d: Deploy, repId: nat, name: string, rev: nat, at: nat)
    requires SucceededSince(d, repId, name, rev) && at <= rev
    ensures SucceededSince(d, repId, name, at)
  {
    hide Find, FindReplica;
  }

  /**
   The named stage of a replica was reported under a number that no earlier request
   was carried with, or under none.
   */
  ghost predicate ReportedFor(z: Zone, d: Deploy, repId: nat, name: string, a: nat) {
    var node := FindReplica(d.Root(), repId);
    && node.Some?
    && Find(node.value, name).Some?
    && var at := Find(node.value, name).value.origin; at == 0 || forall b :: (at, b) in z.shown ==> b >= a
  }

  lemma NumberTellsRequest(z: Zone, d: Deploy, repId: nat, name: string, a: nat)
    requires a < |z.given| && Names(z, a) && SucceededSince(d, repId, name, z.given[a])
    ensures ReportedFor(z, d, repId, name, a)
  {
    hide Find, FindReplica;
  }

  /** What a verdict about the end of a run rests on, for a request that got number rev. */
  ghost predicate RestsOn(z: Zone, action: string, rev: nat, a: nat)
    requires z.store.Some?
  {
    var d, t := z.store.value.deploy, TerminalStage(action);
    var v := Judge(d, t);
    && (v.terminal && !v.failed ==>
          forall r: nat :: r < Cap(d) ==>
            && SucceededSince(d, r, t, rev) && NothingFailed(d, r)
            && (a < |z.given| && Names(z, a) ==> ReportedFor(z, d, r, t, a)))
    && (v.fallbackReady ==>
          forall r: nat :: r < Cap(d) ==>
            && SucceededSince(d, r, CONTAINER_RUNNING, rev)
            && (a < |z.given| && Names(z, a) ==> ReportedFor(z, d, r, CONTAINER_RUNNING, a)))
  }

  lemma VerdictRestsOn(z: Zone, action: string, rev: nat, a: nat)
    requires z.store.Some? && Inv(z.store.value.deploy) && rev <= z.store.value.deploy.revision
    requires a < |z.given| && z.given[a] == rev
    ensures RestsOn(z, action, rev, a)
  {
    hide Inv, TerminalStage, NothingFailed, SucceededSince, NeedsReconcile, AllDone, SomeBroken, AllReadyUnseen;
    hide ReportedFor, Names;
    var d := z.store.value.deploy;
    var v := Judge(d, TerminalStage(action));
    if v.terminal && !v.failed {
      SuccessIsCurrent(d, action);
      forall r: nat | r < Cap(d) ensures SucceededSince(d, r, TerminalStage(action), rev) {
        CurrentEarlier(d, r, TerminalStage(action), d.revision, rev);
      }
      forall r: nat | r < Cap(d) && Names(z, a) ensures ReportedFor(z, d, r, TerminalStage(action), a) {
        NumberTellsRequest(z, d, r, TerminalStage(action), a);
      }
    }
    if v.fallbackReady {
      FallbackIsCurrent(d, action);
      forall r: nat | r < Cap(d) ensures SucceededSince(d, r, CONTAINER_RUNNING, rev) {
        CurrentEarlier(d, r, CONTAINER_RUNNING, d.revision, rev);
      }
      forall r: nat | r < Cap(d) && Names(z, a) ensures ReportedFor(z, d, r, CONTAINER_RUNNING, a) {
        NumberTellsRequest(z, d, r, CONTAINER_RUNNING, a);
      }
    }
  }

  /**
   A request that gets through silences the watcher at once. Whatever happens
   afterwards, in any order and by any leaders, new, old or restarted, a success or
   a fallback that the watcher then sees rests, for every replica, on a report under
   the number of this request or a higher one, or under none. Such a number means
   this request or a later one exactly when the conditions of RequestHasItsNumber
   hold.
   */
  lemma WatcherTrustsNoLeftovers(before: seq<ZoneStep>, request: ZoneStep, later: seq<ZoneStep>, action: string)
    requires request.By? && request.step.DeployInstance?
    requires Writable(StateOf(Run(INIT, before), request.host))
    ensures var start, requested := Run(INIT, before), Run(INIT, before + [request]);
            var end := Run(INIT, before + [request] + later);
            && requested.store.Some? && end.store.Some?
            && Judge(requested.store.value.deploy, TerminalStage(action)) == Verdict(false, false, false)
            && var a := |start.given|;
               && requested.store.value.deploy.request == a
               && RestsOn(end, action, requested.store.value.deploy.revision, a)
               && (Names(end, a) <==>
                     !Overtaken(start) && forall k :: 0 <= k < |later| ==> !LaterReaches(requested, later, k, a))
  {
    hide Inv, TerminalStage, UpdateDeploy, NeedsReconcile, RestsOn, Names, Overtaken, LaterReaches, Ledger, Advances;
    RunKeeps(INIT, before);
    var start := Run(INIT, before);
    NewLedger();
    RunLedger(INIT, before);
    assert (before + [request])[..|before|] == before;
    var requested := Run(INIT, before + [request]);
    assert requested == NextZone(start, request);
    Silenced(start, request, action);
    RequestHasItsNumber(before, request, later);
    var end := Run(INIT, before + [request] + later);
    RunKeeps(requested, later);
    Advanced(requested.store, end.store);
    VerdictRestsOn(end, action, requested.store.value.deploy.revision, |start.given|);
  }

  lemma Advanced(before: Option<Record>, after: Option<Record>)
    requires Advances(before, after) && before.Some?
    ensures after.Some? && before.value.deploy.revision <= after.value.deploy.revision
  {
  }

  lemma Silenced(start: Zone, request: ZoneStep, action: string)
    requires ZoneInv(start) && Ledger(start)
    requires request.By? && request.step.DeployInstance? && Writable(StateOf(start, request.host))
    ensures var requested := NextZone(start, request);
            && ZoneInv(requested) && requested.store.Some?
            && Judge(requested.store.value.deploy, TerminalStage(action)) == Verdict(false, false, false)
            && requested.store.value.deploy.request == |start.given|
            && requested.given == start.given + [requested.store.value.deploy.revision]
  {
    hide Inv, TerminalStage, UpdateDeploy, NeedsReconcile, AllDone, SomeBroken, AllReadyUnseen, StateInv, Intervals;
    var r := request.step;
    UpdateKeeps(start.store.value.deploy, r.action, r.cap, r.rpcStart, r.now);
    NextZoneKeeps(start, request);
    RequestNumbers(StateOf(start, request.host), r);
  }

  // ---- A left-over that is trusted ----

  /** A report of the host that was sent the raised copy, from before the request. */
  const LEFTOVER := Reported(TASK_RUN, "inagent", SUCCESS, 1, 3, 3, "", 2)

  /**
   What the watcher sees after a lost raise: the leader takes the request over and
   reconciles it, and the host, which was sent number 2 before, reports under it.
   */
  function LeftoverRun(): seq<ZoneStep> {
    Opening() + [Raise(false)] + [REQUEST] + [By(0, Step.Refresh)] + [By(0, ReconcileRevision(5, true))]
    + [By(0, MergeReport(0, [LEFTOVER], true))]
  }

  const TAKEN_OVER := Reconcile(REQUESTED, 5)

  /** The host's copy is the record, and a report is merged that changes it. */
  lemma AfterMerge(z: Zone, host: nat, r: Record, repId: nat, reports: seq<Reported>)
    requires z.store == Some(r) && host in z.copies && z.copies[host] == r && MarkOf(r) in z.shown
    requires r.deploy.action != DELETE && ReportChanges(r.deploy, repId, reports)
    ensures var done := Record(r.version + 1, Merge(r.deploy, repId, reports));
            NextZone(z, By(host, MergeReport(repId, reports, true)))
            == z.(store := Some(done), copies := z.copies[host := done])
  {
    hide ReportChanges, UpdateReplica, Apply, Prune;
    assert z.shown + {MarkOf(r)} + {MarkOf(r)} == z.shown;
  }

  ghost predicate NoReplicaNode(root: Stage) {
    forall c :: c in root.stages ==> c.name != REPLICA
  }

  lemma MarkedNoReplica(d: Deploy, rpcStart: int, now: int)
    requires NoReplicaNode(d.Root())
    ensures NoReplicaNode(MarkPreHost(d, rpcStart, now).Root())
  {
  }

  lemma ReconciledNoReplica(d: Deploy, now: int)
    requires NoReplicaNode(d.Root()) && NeedsReconcile(d)
    ensures NoReplicaNode(Reconcile(d, now).Root()) && Reconcile(d, now).Root().revision == d.revision
    ensures Reconcile(d, now) == d.(stages := Reconcile(d, now).stages)
  {
    hide Prune;
    var root := d.Root().SetRunning("", now);
    var r := root.(stages := PruneReplicas(root.stages)).SetRevisionDeep(d.revision);
    forall c | c in r.stages ensures c.name != REPLICA {
      var i :| 0 <= i < |r.stages| && r.stages[i] == c;
      assert root.stages[i] in root.stages;
    }
  }

  lemma TakenOver()
    ensures TAKEN_OVER == Deploy(START, 2, 1, TAKEN_OVER.stages, 1)
    ensures TAKEN_OVER.Root().revision == 2 && NoReplicaNode(TAKEN_OVER.Root())
  {
    hide MarkPreHost, Reconcile, NoReplicaNode;
    Deploys();
    var first := Deploy(START, 1, 1, None, 0);
    FreshRoot(first);
    MarkedNoReplica(first, 1, 1);
    ReconciledNoReplica(CREATED, 2);
    var second := OPENED.(revision := 2, request := 1);
    MarkedNoReplica(second, 4, 4);
    ReconciledNoReplica(REQUESTED, 5);
  }

  lemma FreshRoot(d: Deploy)
    requires d.stages.None?
    ensures NoReplicaNode(d.Root())
  {
  }

  lemma FirstOfReplica(root: Stage, node: Stage, f: Stage -> Stage)
    requires NoReplicaNode(root) && f(NewStage(REPLICA, ZONELET, Some(0))) == node
    requires node.name == REPLICA && node.repId == Some(0)
    ensures FindReplica(root, 0).None? && FindReplica(UpdateReplica(root, 0, f), 0) == Some(node)
    ensures UpdateReplica(root, 0, f).revision == root.revision
  {
    assert ReplicaIndex(root.stages, 0) == |root.stages|;
    var all := root.stages + [node];
    assert UpdateReplica(root, 0, f).stages == all;
    assert all[|root.stages|] == node;
    assert forall j :: 0 <= j < |root.stages| ==> all[j] in root.stages;
    assert ReplicaIndex(all, 0) == |root.stages|;
  }

  lemma OneReport(node: Stage, s: Reported, rev: nat)
    requires node.stages == [] && s.name != "" && !Stale(s, rev)
    ensures Prune(node) == node
    ensures Apply(node, [s], rev) == node.(stages := [Copy(s)(NewStage(s.name, s.owner, None))])
  {
    assert [s][..0] == [];
    assert Apply(node, [s][..0], rev) == node;
    assert IndexOf(node.stages, s.name) == 0;
  }

  lemma Reports(d: Deploy, node: Stage, after: Stage)
    requires ReplicaNode(d.Root(), 0) == node && Apply(Prune(node), [LEFTOVER], d.revision) == after
    requires |after.stages| != |node.stages|
    ensures ReportChanges(d, 0, [LEFTOVER])
  {
    hide Apply, Prune, ReplicaNode;
    assert |Encoded(after).stages| != |Encoded(node).stages|;
  }

  lemma OneStageJudged(node: Stage, c: Stage)
    requires node.stages == [c] && c.stages == [] && c.name == TASK_RUN
    requires c.state == SUCCESS && node.state == PENDING
    ensures Find(node, TASK_RUN) == Some(c) && ReplicaNodeStatus(node, TASK_RUN) == Done
  {
    assert !HasFailed(c);
    assert node.stages[0] == c;
  }

  lemma OneReplicaJudged(d: Deploy, node: Stage)
    requires d.stages.Some? && !NeedsReconcile(d) && d.replicaCap == 1
    requires FindReplica(d.Root(), 0) == Some(node) && ReplicaNodeStatus(node, TASK_RUN) == Done && InagentSeen(node)
    ensures Judge(d, TASK_RUN) == Verdict(true, false, false)
  {
    hide FindReplica, ReplicaNodeStatus, InagentSeen;
    assert ReplicaInagentSeen(d.Root(), 0);
  }

  /** The first report about a replica, of its terminal stage, decides. */
  lemma FirstReport(d: Deploy)
    requires d.stages.Some? && NoReplicaNode(d.Root()) && d.revision == 2 && d.replicaCap == 1 && d.Root().revision == 2
    ensures ReportChanges(d, 0, [LEFTOVER])
    ensures var m := Merge(d, 0, [LEFTOVER]);
            && m == d.(stages := m.stages)
            && Judge(m, TASK_RUN) == Verdict(true, false, false)
            && FindReplica(m.Root(), 0).Some? && Find(FindReplica(m.Root(), 0).value, TASK_RUN).Some?
            && Find(FindReplica(m.Root(), 0).value, TASK_RUN).value.origin == 2
  {
    hide NoReplicaNode, UpdateReplica, ReportChanges, Judge, Prune, Apply, FindReplica, Find, ReplicaNodeStatus;
    var node := NewStage(REPLICA, ZONELET, Some(0));
    var c := Copy(LEFTOVER)(NewStage(TASK_RUN, "inagent", None));
    var after := node.(stages := [c]);
    OneReport(node, LEFTOVER, 2);
    var f := (n: Stage) => Apply(Prune(n), [LEFTOVER], d.revision);
    FirstOfReplica(d.Root(), after, f);
    Reports(d, node, after);
    OneStageJudged(after, c);
    Seen(after);
    OneReplicaJudged(Merge(d, 0, [LEFTOVER]), after);
  }

  lemma Seen(node: Stage)
    requires Find(node, TASK_RUN).Some?
    ensures InagentSeen(node)
  {
  }

  /**
   The watcher calls the request finished, on a report from before it, about a deploy
   that only the leader's copy ever held: number 2 was carried for both.
   */
  lemma LeftoverTrusted()
    ensures var z := Run(INIT, LeftoverRun());
            && z.store.Some? && z.store.value.deploy.request == 1 && (2, 0) in z.shown && (2, 1) in z.shown
            && var d := z.store.value.deploy;
               && Judge(d, TerminalStage(d.action)) == Verdict(true, false, false)
               && FindReplica(d.Root(), 0).Some? && Find(FindReplica(d.Root(), 0).value, TASK_RUN).Some?
               && Find(FindReplica(d.Root(), 0).value, TASK_RUN).value.origin == 2
  {
    hide Run, NextZone, Reconcile, Merge, Judge, UpdateDeploy, Rebind, ReportChanges, NoReplicaNode, Find, FindReplica;
    LostRaise();
    Deploys();
    TakenOver();
    FirstReport(TAKEN_OVER);
    var refresh, reconcile := By(0, Step.Refresh), By(0, ReconcileRevision(5, true));
    var merge := By(0, MergeReport(0, [LEFTOVER], true));
    var asked := Opening() + [Raise(false)] + [REQUEST];
    var z := Run(INIT, asked);
    LastStep(INIT, asked, refresh);
    LastStep(INIT, asked + [refresh], reconcile);
    LastStep(INIT, asked + [refresh] + [reconcile], merge);
    AfterRefresh(z, 0, Record(3, REQUESTED));
    AfterReconcile(NextZone(z, refresh), 0, Record(3, REQUESTED), 5);
    AfterMerge(NextZone(NextZone(z, refresh), reconcile), 0, Record(4, TAKEN_OVER), 0, [LEFTOVER]);
  }
}
