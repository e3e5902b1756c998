/**
 The deploy stage tree and its in-place operations, as values: a root stage, one
 node per replica under it, and under a replica node both the stages that the
 zone leader records itself and those that a host relays.
 */
module DeployStages {
  import opened Common

  const PENDING := "pending"
  const RUNNING := "running"
  const SUCCESS := "success"
  const FAILED := "failed"

  const ZONELET := "zonelet"

  const DEPLOY := "deploy"
  const REQ_VALIDATE := "req_validate"
  const INSTANCE_PERSIST := "instance_persist"
  const REPLICA := "replica"
  const SCHEDULE := "schedule"
  const HOST_FIT := "host_fit"
  const HOST_PRIORITIZE := "host_prioritize"
  const IPAM_ALLOC := "ipam_alloc"
  const PORT_ALLOC := "port_alloc"
  const DELIVER := "deliver"
  const CONTAINER_RUNNING := "container_running"
  const CONTAINER_STOP := "container_stop"
  const CONTAINER_DESTROY := "container_destroy"
  const TASK_RUN := "task_run"

  predicate HostSide(name: string) {
    name in ["host_recv", "image_pull", "pkg_download", "provision", "container_create", "container_start",
             CONTAINER_RUNNING, CONTAINER_STOP, CONTAINER_DESTROY]
  }

  predicate Inagent(name: string) {
    name in ["inagent_boot", "spec_load", TASK_RUN]
  }

  /** Stages that reach the leader through a host's report. */
  predicate Relayed(name: string) {
    HostSide(name) || Inagent(name)
  }

  /**
   revision is the stamp that the code keeps and rewrites. origin is for the
   proofs only: the stamp a relayed stage carried when it was reported. No
   operation reads it.
   */
  datatype Stage = Stage(
    name: string, owner: string, repId: Option<nat>,
    state: string, attempt: nat, created: int, finished: int, message: string,
    revision: nat, origin: nat, stages: seq<Stage>)
  {
    function SetRunning(msg: string, now: int): Stage {
      this.(attempt := if state == FAILED then attempt + 1 else attempt,
            created := if created == 0 then now else created,
            finished := 0, state := RUNNING, message := if msg != "" then msg else message)
    }

    function SetSuccess(msg: string, now: int): Stage {
      this.(created := if created == 0 then now else created,
            finished := now, state := SUCCESS, message := if msg != "" then msg else message)
    }

    function SetFailed(msg: string, now: int): Stage {
      this.(created := if created == 0 then now else created,
            finished := now, state := FAILED, message := if msg != "" then msg else message)
    }

    function SetInstant(msg: string, now: int): Stage {
      this.(created := now, finished := now, state := SUCCESS, message := if msg != "" then msg else message)
    }

    /** Stamps the whole subtree. */
    function SetRevisionDeep(rev: nat): (r: Stage)
      ensures r.name == name && r.repId == repId && r.revision == rev && r.origin == origin
      ensures |r.stages| == |stages|
      ensures forall i :: 0 <= i < |stages| ==> r.stages[i] == stages[i].SetRevisionDeep(rev)
      decreases this
    {
      this.(revision := rev,
            stages := seq(|stages|, i requires 0 <= i < |stages| => stages[i].SetRevisionDeep(rev)))
    }
  }

  function NewStage(name: string, owner: string, repId: Option<nat>): Stage {
    Stage(name, owner, repId, PENDING, 0, 0, 0, "", 0, 0, [])
  }

  /** The position of the first child with this name, or the number of children. */
  function IndexOf(stages: seq<Stage>, name: string): (i: nat)
    ensures i <= |stages|
    ensures i < |stages| ==> stages[i].name == name
    ensures forall j :: 0 <= j < i ==> stages[j].name != name
  {
    if stages == [] || stages[0].name == name then 0 else 1 + IndexOf(stages[1..], name)
  }

  function Find(x: Stage, name: string): Option<Stage> {
    var i := IndexOf(x.stages, name);
    if i < |x.stages| then Some(x.stages[i]) else None
  }

  /** The child of this name, created when absent, replaced by f of it. */
  function UpdateChild(x: Stage, name: string, owner: string, f: Stage -> Stage): Stage {
    var i := IndexOf(x.stages, name);
    if i < |x.stages| then x.(stages := x.stages[i := f(x.stages[i])])
    else x.(stages := x.stages + [f(NewStage(name, owner, None))])
  }

  /** The child of this name, or the one that is created for it. */
  function Child(x: Stage, name: string, owner: string): Stage {
    Find(x, name).GetOr(NewStage(name, owner, None))
  }

  /** The stage with the child of this name put in place. */
  function WithChild(x: Stage, name: string, c: Stage): Stage {
    var i := IndexOf(x.stages, name);
    if i < |x.stages| then x.(stages := x.stages[i := c]) else x.(stages := x.stages + [c])
  }

  lemma ReplaceChild(x: Stage, name: string, owner: string, f: Stage -> Stage)
    ensures UpdateChild(x, name, owner, f) == WithChild(x, name, f(Child(x, name, owner)))
  {
  }

  /** The position of the node of a replica, or the number of children. */
  function ReplicaIndex(stages: seq<Stage>, repId: nat): (i: nat)
    ensures i <= |stages|
    ensures i < |stages| ==> stages[i].name == REPLICA && stages[i].repId == Some(repId)
    ensures forall j :: 0 <= j < i ==> !(stages[j].name == REPLICA && stages[j].repId == Some(repId))
  {
    if stages == [] || (stages[0].name == REPLICA && stages[0].repId == Some(repId)) then 0
    else 1 + ReplicaIndex(stages[1..], repId)
  }

  function FindReplica(root: Stage, repId: nat): Option<Stage> {
    var i := ReplicaIndex(root.stages, repId);
    if i < |root.stages| then Some(root.stages[i]) else None
  }

  function UpdateReplica(root: Stage, repId: nat, f: Stage -> Stage): Stage {
    var i := ReplicaIndex(root.stages, repId);
    if i < |root.stages| then root.(stages := root.stages[i := f(root.stages[i])])
    else root.(stages := root.stages + [f(NewStage(REPLICA, ZONELET, Some(repId)))])
  }

  /** The node of a replica, or the one that is created for it. */
  function ReplicaNode(root: Stage, repId: nat): Stage {
    FindReplica(root, repId).GetOr(NewStage(REPLICA, ZONELET, Some(repId)))
  }

  /** The tree with the node of a replica put in place. */
  function WithReplica(root: Stage, repId: nat, node: Stage): Stage {
    var i := ReplicaIndex(root.stages, repId);
    if i < |root.stages| then root.(stages := root.stages[i := node]) else root.(stages := root.stages + [node])
  }

  lemma ReplaceReplica(root: Stage, repId: nat, f: Stage -> Stage)
    ensures UpdateReplica(root, repId, f) == WithReplica(root, repId, f(ReplicaNode(root, repId)))
  {
  }

  /** The children that are not relayed, in order. */
  function ZoneSide(stages: seq<Stage>): seq<Stage> {
    if stages == [] then []
    else (if Relayed(stages[0].name) then [] else [stages[0]]) + ZoneSide(stages[1..])
  }

  lemma {:induction false} ZoneSideMembers(stages: seq<Stage>, c: Stage)
    ensures c in ZoneSide(stages) <==> c in stages && !Relayed(c.name)
  {
    hide Relayed;
    if stages != [] {
      assert stages == [stages[0]] + stages[1..];
      ZoneSideMembers(stages[1..], c);
    }
  }

  function Prune(n: Stage): Stage {
    n.(stages := ZoneSide(n.stages))
  }

  predicate HasFailed(s: Stage)
    decreases s
  {
    s.state == FAILED || exists i :: 0 <= i < |s.stages| && HasFailed(s.stages[i])
  }

  /** No stage of the subtree, at any depth, is in the failed state. */
  lemma {:induction false} NoFailureAnywhere(s: Stage, path: seq<nat>)
    requires !HasFailed(s)
    ensures At(s, path).Some? ==> At(s, path).value.state != FAILED
    decreases |path|
  {
    if path != [] && path[0] < |s.stages| {
      NoFailureAnywhere(s.stages[path[0]], path[1..]);
    }
  }

  /** The stage that a list of child positions leads to. */
  function At(s: Stage, path: seq<nat>): Option<Stage>
    decreases |path|
  {
    if path == [] then Some(s)
    else if path[0] < |s.stages| then At(s.stages[path[0]], path[1..])
    else None
  }

  lemma {:induction false} FailureSomewhere(s: Stage) returns (path: seq<nat>)
    requires HasFailed(s)
    ensures At(s, path).Some? && At(s, path).value.state == FAILED
    decreases s
  {
    if s.state == FAILED {
      path := [];
    } else {
      var i :| 0 <= i < |s.stages| && HasFailed(s.stages[i]);
      var rest := FailureSomewhere(s.stages[i]);
      path := [i] + rest;
      assert path[1..] == rest;
    }
  }

  method StageTreeHasFailed(s: Stage) returns (failed: bool)
    ensures failed == HasFailed(s)
    decreases s
  {
    if s.state == FAILED {
      return true;
    }
    for i := 0 to |s.stages|
      invariant forall j :: 0 <= j < i ==> !HasFailed(s.stages[j])
    {
      var childFailed := StageTreeHasFailed(s.stages[i]);
      if childFailed {
        return true;
      }
    }
    return false;
  }

  lemma ZoneSideNext(kept: seq<Stage>, stages: seq<Stage>, i: nat)
    requires i < |stages|
    ensures (if Relayed(stages[i].name) then kept else kept + [stages[i]]) + ZoneSide(stages[i + 1..])
            == kept + ZoneSide(stages[i..])
  {
    hide Relayed;
    assert stages[i..][0] == stages[i] && stages[i..][1..] == stages[i + 1..];
  }

  method PruneChildren(stages: seq<Stage>) returns (kept: seq<Stage>)
    ensures kept == ZoneSide(stages)
  {
    kept := [];
    assert stages[0..] == stages;
    assert ZoneSide([]) == [];
    hide Relayed, ZoneSide;
    for i := 0 to |stages|
      invariant kept + ZoneSide(stages[i..]) == ZoneSide(stages)
    {
      ZoneSideNext(kept, stages, i);
      if Relayed(stages[i].name) {
        continue;
      }
      kept := kept + [stages[i]];
    }
    assert stages[|stages|..] == [];
  }

  // ---- Freshness ----

  /** Not based on a revision before rev; 0 is a report that named no revision. */
  predicate Current(c: Stage, rev: nat) {
    (c.origin == 0 || c.origin >= rev) && (c.revision == 0 || c.revision >= rev)
  }

  ghost predicate NodeFresh(n: Stage, rev: nat) {
    forall c :: c in n.stages && Relayed(c.name) ==> Current(c, rev)
  }

  ghost predicate TreeFresh(root: Stage, rev: nat) {
    forall n :: n in root.stages && n.name == REPLICA ==> NodeFresh(n, rev)
  }

  lemma UpdateChildFresh(x: Stage, name: string, owner: string, f: Stage -> Stage, rev: nat)
    requires NodeFresh(x, rev) && forall c: Stage :: f(c).name == c.name
    requires Relayed(name) ==> forall c: Stage :: c.name == name ==> Current(f(c), rev)
    ensures NodeFresh(UpdateChild(x, name, owner, f), rev)
    ensures UpdateChild(x, name, owner, f).name == x.name && UpdateChild(x, name, owner, f).repId == x.repId
  {
    hide Relayed, Current;
  }

  lemma UpdateReplicaFresh(root: Stage, repId: nat, f: Stage -> Stage, rev: nat)
    requires TreeFresh(root, rev) && forall n: Stage :: NodeFresh(n, rev) ==> NodeFresh(f(n), rev)
    ensures TreeFresh(UpdateReplica(root, repId, f), rev)
  {
    hide NodeFresh;
    assert NodeFresh(NewStage(REPLICA, ZONELET, Some(repId)), rev) by {
      NoChildren(repId, rev);
    }
  }

  lemma NoChildren(repId: nat, rev: nat)
    ensures NodeFresh(NewStage(REPLICA, ZONELET, Some(repId)), rev)
  {
  }

  /** Stamping keeps what is fresh fresh, whatever it stamps. */
  lemma StampFresh(n: Stage, rev: nat, at: nat)
    requires NodeFresh(n, at) && at <= rev
    ensures NodeFresh(n.SetRevisionDeep(rev), at)
  {
    var r := n.SetRevisionDeep(rev);
    forall c | c in r.stages && Relayed(c.name) ensures Current(c, at) {
      var i :| 0 <= i < |r.stages| && r.stages[i] == c;
      assert n.stages[i] in n.stages;
    }
  }
}
