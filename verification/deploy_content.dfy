/**
 What the stage tree says after each operation on it, stage by stage and field by
 field: what a request recorded, what became of a placement, and what a host reported.
 */
module DeployContent {
  import opened Common
  import opened DeployStages
  import opened DeployBarrier

  // ---- Looking stages up ----

  /** The stage found is the first child of that name; none is found when there is no such child. */
  lemma FindIsFirst(x: Stage, name: string)
    ensures Find(x, name).None? <==> forall c :: c in x.stages ==> c.name != name
    ensures Find(x, name).Some? ==>
              exists i :: 0 <= i < |x.stages| && x.stages[i] == Find(x, name).value && x.stages[i].name == name
                          && forall j :: 0 <= j < i ==> x.stages[j].name != name
  {
    var i := IndexOf(x.stages, name);
    if i < |x.stages| {
      assert x.stages[i] in x.stages;
    }
  }

  /** The node of a replica is the first child of the root that names it. */
  lemma ReplicaIsFirst(root: Stage, repId: nat)
    ensures FindReplica(root, repId).None? <==>
            forall n :: n in root.stages ==> !(n.name == "replica" && n.repId == Some(repId))
    ensures FindReplica(root, repId).Some? ==>
              exists i :: 0 <= i < |root.stages| && root.stages[i] == ReplicaNode(root, repId)
                          && root.stages[i].name == "replica" && root.stages[i].repId == Some(repId)
                          && forall j :: 0 <= j < i ==>
                               !(root.stages[j].name == "replica" && root.stages[j].repId == Some(repId))
  {
    var i := ReplicaIndex(root.stages, repId);
    if i < |root.stages| {
      assert root.stages[i] in root.stages;
    }
  }

  /** The same stage but for its children. */
  predicate SameFields(x: Stage, y: Stage) {
    && x.name == y.name && x.owner == y.owner && x.repId == y.repId && x.state == y.state && x.attempt == y.attempt
    && x.created == y.created && x.finished == y.finished && x.message == y.message && x.revision == y.revision
  }

  /** A child put in the place of one of the same name, or behind the others, is found; others are found as before. */
  lemma PutAt(before: seq<Stage>, after: seq<Stage>, i: nat, c: Stage)
    requires i <= |before| && after == if i < |before| then before[i := c] else before + [c]
    requires i < |before| ==> before[i].name == c.name
    ensures i == IndexOf(before, c.name) ==> IndexOf(after, c.name) == i
    ensures forall m :: m != c.name ==>
              if IndexOf(before, m) < |before| then
                IndexOf(after, m) == IndexOf(before, m) && after[IndexOf(after, m)] == before[IndexOf(before, m)]
              else IndexOf(after, m) == |after|
  {
    assert after[i] == c && forall a :: 0 <= a < |after| && a != i ==> after[a] == before[a];
    if i == IndexOf(before, c.name) {
      FirstIndex(after, c.name, i);
    }
    forall m | m != c.name
      ensures if IndexOf(before, m) < |before| then
                IndexOf(after, m) == IndexOf(before, m) && after[IndexOf(after, m)] == before[IndexOf(before, m)]
              else IndexOf(after, m) == |after|
    {
      FirstIndex(after, m, if IndexOf(before, m) < |before| then IndexOf(before, m) else |after|);
    }
  }

  lemma FirstIndex(stages: seq<Stage>, name: string, i: nat)
    requires i <= |stages| && (i < |stages| ==> stages[i].name == name)
    requires forall j :: 0 <= j < i ==> stages[j].name != name
    ensures IndexOf(stages, name) == i
  {
  }

  lemma FirstReplica(stages: seq<Stage>, repId: nat, i: nat)
    requires i <= |stages| && (i < |stages| ==> stages[i].name == REPLICA && stages[i].repId == Some(repId))
    requires forall j :: 0 <= j < i ==> !(stages[j].name == REPLICA && stages[j].repId == Some(repId))
    ensures ReplicaIndex(stages, repId) == i
  {
  }

  /** The same for the node of a replica. */
  lemma ReplicaPutAt(before: seq<Stage>, after: seq<Stage>, i: nat, c: Stage, repId: nat)
    requires i <= |before| && after == if i < |before| then before[i := c] else before + [c]
    requires c.name == REPLICA && c.repId == Some(repId) && i == ReplicaIndex(before, repId)
    ensures ReplicaIndex(after, repId) == i
    ensures forall r :: r != repId ==>
              if ReplicaIndex(before, r) < |before| then
                ReplicaIndex(after, r) == ReplicaIndex(before, r)
                && after[ReplicaIndex(after, r)] == before[ReplicaIndex(before, r)]
              else ReplicaIndex(after, r) == |after|
  {
    assert forall a :: 0 <= a < |after| && a != i ==> after[a] == before[a];
    assert after[i] == c;
    FirstReplica(after, repId, i);
    forall r | r != repId
      ensures if ReplicaIndex(before, r) < |before| then
                ReplicaIndex(after, r) == ReplicaIndex(before, r)
                && after[ReplicaIndex(after, r)] == before[ReplicaIndex(before, r)]
              else ReplicaIndex(after, r) == |after|
    {
      FirstReplica(after, r, if ReplicaIndex(before, r) < |before| then ReplicaIndex(before, r) else |after|);
    }
  }

  lemma FindUpdated(x: Stage, name: string, owner: string, f: Stage -> Stage)
    requires forall c: Stage :: f(c).name == c.name
    ensures var y := UpdateChild(x, name, owner, f);
            && SameFields(x, y)
            && Find(y, name) == Some(f(Find(x, name).GetOr(NewStage(name, owner, None))))
            && forall m :: m != name ==> Find(y, m) == Find(x, m)
  {
    var y := UpdateChild(x, name, owner, f);
    var i := IndexOf(x.stages, name);
    var c := Find(x, name).GetOr(NewStage(name, owner, None));
    assert f(c).name == name;
    PutAt(x.stages, y.stages, i, f(c));
  }

  lemma ReplicaUpdated(root: Stage, repId: nat, f: Stage -> Stage)
    requires forall n: Stage :: f(n).name == n.name && f(n).repId == n.repId
    ensures var t := UpdateReplica(root, repId, f);
            && SameFields(root, t)
            && FindReplica(t, repId) == Some(f(ReplicaNode(root, repId)))
            && (forall r :: r != repId ==> FindReplica(t, r) == FindReplica(root, r))
            && (forall m :: m != "replica" ==> Find(t, m) == Find(root, m))
  {
    var t := UpdateReplica(root, repId, f);
    var i := ReplicaIndex(root.stages, repId);
    var n := ReplicaNode(root, repId);
    assert f(n).name == "replica" && f(n).repId == Some(repId);
    PutAt(root.stages, t.stages, i, f(n));
    ReplicaPutAt(root.stages, t.stages, i, f(n), repId);
  }

  // ---- A host report ----

  /** A report that counts: it names a stage, and no revision from before rev. */
  predicate Counts(s: Reported, name: string, rev: nat) {
    s.name == name && name != "" && !(0 < s.revision < rev)
  }

  predicate CarriesReport(c: Stage, s: Reported) {
    && c.state == s.state && c.attempt == s.attempt && c.created == s.created && c.finished == s.finished
    && c.message == s.message && c.revision == s.revision
  }

  /** s is the last report that counts under its name. */
  ghost predicate LastReport(reports: seq<Reported>, k: nat, name: string, rev: nat) {
    && k < |reports| && Counts(reports[k], name, rev)
    && forall j :: k < j < |reports| ==> !Counts(reports[j], name, rev)
  }

  ghost predicate NotReported(reports: seq<Reported>, name: string, rev: nat) {
    forall j :: 0 <= j < |reports| ==> !Counts(reports[j], name, rev)
  }

  ghost predicate AtMostOne(stages: seq<Stage>, name: string) {
    forall i, j :: 0 <= i < j < |stages| && stages[i].name == name ==> stages[j].name != name
  }

  lemma PrunedFind(n: Stage, name: string)
    ensures Find(Prune(n), name) == if Relayed(name) then None else Find(n, name)
  {
    ZoneSideFind(n.stages, name);
    hide Relayed, ZoneSide, IndexOf;
  }

  lemma {:induction false} ZoneSideFind(stages: seq<Stage>, name: string)
    ensures var kept := ZoneSide(stages);
            var i, k := IndexOf(stages, name), IndexOf(kept, name);
            if Relayed(name) || i == |stages| then k == |kept| else k < |kept| && kept[k] == stages[i]
  {
    hide Relayed;
    if stages != [] {
      ZoneSideFind(stages[1..], name);
      var kept, rest := ZoneSide(stages), ZoneSide(stages[1..]);
      if !Relayed(stages[0].name) {
        assert kept == [stages[0]] + rest && kept[1..] == rest;
      } else {
        assert kept == rest;
      }
    }
  }

  lemma ApplyLast(n: Stage, reports: seq<Reported>, rev: nat)
    requires reports != []
    ensures var before, s := Apply(n, reports[..|reports| - 1], rev), reports[|reports| - 1];
            Apply(n, reports, rev) ==
            if Counts(s, s.name, rev) then UpdateChild(before, s.name, s.owner, Copy(s)) else before
  {
    hide UpdateChild, Copy;
  }

  /** The last report that counts is what the stage says; without one, it is as it was. */
  lemma {:induction false} AppliedStage(n: Stage, reports: seq<Reported>, rev: nat, name: string)
    ensures var r := Apply(n, reports, rev);
            && (NotReported(reports, name, rev) ==> Find(r, name) == Find(n, name))
            && (forall k: nat :: LastReport(reports, k, name, rev) ==>
                  Find(r, name).Some? && CarriesReport(Find(r, name).value, reports[k]))
    decreases |reports|
  {
    if reports != [] {
      var front, s := reports[..|reports| - 1], reports[|reports| - 1];
      AppliedStage(n, front, rev, name);
      ApplyLast(n, reports, rev);
      FindUpdated(Apply(n, front, rev), s.name, s.owner, Copy(s));
      LastOfFront(reports, name, rev);
      assert Counts(s, name, rev) <==> s.name == name && Counts(s, s.name, rev);
      hide Apply, UpdateChild, Find, Counts, NotReported, LastReport, SameFields;
    }
  }

  lemma {:induction false} AppliedFields(n: Stage, reports: seq<Reported>, rev: nat)
    ensures SameFields(n, Apply(n, reports, rev))
    decreases |reports|
  {
    if reports != [] {
      var front, s := reports[..|reports| - 1], reports[|reports| - 1];
      AppliedFields(n, front, rev);
      ApplyLast(n, reports, rev);
      FindUpdated(Apply(n, front, rev), s.name, s.owner, Copy(s));
      hide Apply, UpdateChild, Find;
    }
  }

  lemma {:induction false} AppliedOnce(n: Stage, reports: seq<Reported>, rev: nat, name: string)
    requires AtMostOne(n.stages, name)
    ensures AtMostOne(Apply(n, reports, rev).stages, name)
    decreases |reports|
  {
    if reports != [] {
      var front, s := reports[..|reports| - 1], reports[|reports| - 1];
      AppliedOnce(n, front, rev, name);
      ApplyLast(n, reports, rev);
      OneUpdated(Apply(n, front, rev), s.name, s.owner, Copy(s), name);
      hide Apply, UpdateChild, AtMostOne;
    }
  }

  lemma OneUpdated(x: Stage, name: string, owner: string, f: Stage -> Stage, m: string)
    requires forall c: Stage :: f(c).name == c.name
    ensures AtMostOne(x.stages, m) ==> AtMostOne(UpdateChild(x, name, owner, f).stages, m)
  {
    var y := UpdateChild(x, name, owner, f);
    assert forall a :: 0 <= a < |x.stages| ==> y.stages[a].name == x.stages[a].name;
  }

  lemma LastOfFront(reports: seq<Reported>, name: string, rev: nat)
    requires reports != []
    ensures var front, s := reports[..|reports| - 1], reports[|reports| - 1];
            && (!Counts(s, name, rev) ==> (NotReported(reports, name, rev) ==> NotReported(front, name, rev)))
            && (!Counts(s, name, rev) ==>
                  forall k: nat :: LastReport(reports, k, name, rev) ==> k < |front| && LastReport(front, k, name, rev))
            && (Counts(s, name, rev) ==>
                  !NotReported(reports, name, rev)
                  && forall k: nat :: LastReport(reports, k, name, rev) ==> k == |reports| - 1)
  {
    hide Counts;
  }

  /** Children that no report names stay, and no other ones come. */
  lemma {:induction false} AppliedOthers(n: Stage, reports: seq<Reported>, rev: nat, c: Stage)
    requires NotReported(reports, c.name, rev)
    ensures c in Apply(n, reports, rev).stages <==> c in n.stages
    decreases |reports|
  {
    if reports != [] {
      var front, s := reports[..|reports| - 1], reports[|reports| - 1];
      AppliedOthers(n, front, rev, c);
      ApplyLast(n, reports, rev);
      if Counts(s, s.name, rev) {
        OthersUpdated(Apply(n, front, rev), s.name, s.owner, Copy(s), c);
      }
      hide Apply, UpdateChild;
    }
  }

  lemma OthersUpdated(x: Stage, name: string, owner: string, f: Stage -> Stage, c: Stage)
    requires c.name != name && forall d: Stage :: f(d).name == d.name
    ensures c in UpdateChild(x, name, owner, f).stages <==> c in x.stages
  {
    var y := UpdateChild(x, name, owner, f);
    var i := IndexOf(x.stages, name);
    if c in x.stages {
      var j :| 0 <= j < |x.stages| && x.stages[j] == c;
      assert y.stages[j] == c;
    }
    if c in y.stages {
      var j :| 0 <= j < |y.stages| && y.stages[j] == c;
      assert j != i && x.stages[j] == c;
    }
  }

  /**
   What a merged report leaves under the node of its replica. A stage that the
   report names, unless only under earlier revisions, is there once and says what
   the last such entry says. A relayed stage that it does not name is gone, and any
   other stage is as it was. Nothing else in the record changes.
   */
  lemma MergedReport(d: Deploy, repId: nat, reports: seq<Reported>, name: string)
    ensures var merged := Merge(d, repId, reports);
            var was := ReplicaNode(d.Root(), repId);
            && merged == d.(stages := merged.stages) && SameFields(d.Root(), merged.Root())
            && (forall r :: r != repId ==> FindReplica(merged.Root(), r) == FindReplica(d.Root(), r))
            && FindReplica(merged.Root(), repId).Some?
            && var node := ReplicaNode(merged.Root(), repId);
            && SameFields(was, node)
            && (forall k: nat :: LastReport(reports, k, name, d.revision) ==>
                  Find(node, name).Some? && CarriesReport(Find(node, name).value, reports[k]))
            && (NotReported(reports, name, d.revision) ==>
                  Find(node, name) == if Relayed(name) then None else Find(was, name))
            && (Relayed(name) ==> AtMostOne(node.stages, name))
            && (forall c :: c in node.stages && c.name == name && NotReported(reports, name, d.revision) ==>
                  c in was.stages && !Relayed(name))
            && (!Relayed(name) && NotReported(reports, name, d.revision) ==>
                  forall c :: c in was.stages && c.name == name ==> c in node.stages)
  {
    var was := ReplicaNode(d.Root(), repId);
    MergedNode(d, repId, reports);
    AppliedStage(Prune(was), reports, d.revision, name);
    AppliedFields(Prune(was), reports, d.revision);
    if Relayed(name) {
      PrunedOnce(was, name);
      AppliedOnce(Prune(was), reports, d.revision, name);
    }
    PrunedFind(was, name);
    PrunedOnce(was, name);
    hide Merge, Apply, FindReplica, Relayed, Counts, Find, Prune;
    forall c: Stage | c.name == name && NotReported(reports, name, d.revision)
      ensures c in Apply(Prune(was), reports, d.revision).stages <==> c in was.stages && !Relayed(name)
    {
      AppliedOthers(Prune(was), reports, d.revision, c);
      PrunedMembers(was, c);
    }
  }

  lemma PrunedMembers(n: Stage, c: Stage)
    ensures c in Prune(n).stages <==> c in n.stages && !Relayed(c.name)
  {
    ZoneSideMembers(n.stages, c);
  }

  lemma PrunedOnce(n: Stage, name: string)
    ensures SameFields(n, Prune(n))
    ensures Relayed(name) ==> AtMostOne(Prune(n).stages, name)
  {
    hide Relayed;
    forall c | c in Prune(n).stages
      ensures !Relayed(c.name)
    {
      ZoneSideMembers(n.stages, c);
    }
  }

  lemma MergedNode(d: Deploy, repId: nat, reports: seq<Reported>)
    ensures var merged := Merge(d, repId, reports);
            var was := ReplicaNode(d.Root(), repId);
            && merged == d.(stages := merged.stages) && SameFields(d.Root(), merged.Root())
            && (forall r :: r != repId ==> FindReplica(merged.Root(), r) == FindReplica(d.Root(), r))
            && FindReplica(merged.Root(), repId) == Some(Apply(Prune(was), reports, d.revision))
  {
    var f := (n: Stage) => Apply(Prune(n), reports, d.revision);
    forall n: Stage
      ensures f(n).name == n.name && f(n).repId == n.repId
    {
      AppliedFields(Prune(n), reports, d.revision);
    }
    hide Apply, Prune, FindReplica, UpdateReplica;
    ReplicaUpdated(d.Root(), repId, f);
  }

  /** A stage that the host last reported as failed is a failure under the node of the replica. */
  lemma FailureShows(d: Deploy, repId: nat, reports: seq<Reported>, k: nat, name: string)
    requires LastReport(reports, k, name, d.revision) && reports[k].state == "failed"
    ensures FindReplica(Merge(d, repId, reports).Root(), repId).Some?
    ensures HasFailed(ReplicaNode(Merge(d, repId, reports).Root(), repId))
  {
    MergedReport(d, repId, reports, name);
    var node := ReplicaNode(Merge(d, repId, reports).Root(), repId);
    hide Merge, FindReplica, ReplicaNode, Counts, Find;
    FindIsFirst(node, name);
    var i :| 0 <= i < |node.stages| && node.stages[i] == Find(node, name).value;
    assert HasFailed(node.stages[i]);
  }

  // ---- Requests ----

  /** An instantaneous success. */
  predicate HappenedAt(c: Stage, msg: string, now: int) {
    c.state == "success" && c.created == now && c.finished == now && (msg != "" ==> c.message == msg)
  }

  lemma MarkedStages(d: Deploy, rpcStart: int, now: int)
    ensures var r := MarkPreHost(d, rpcStart, now);
            var was, root := d.Root(), r.Root();
            && r == d.(stages := Some(root))
            && root.state == "running" && root.revision == was.revision && root.finished == 0
            && root.created == (if was.created == 0 then now else was.created)
            && Find(root, "req_validate").Some? && Find(root, "instance_persist").Some?
            && var validated := Child(root, "req_validate", ZONELET);
            && var persisted := Child(root, "instance_persist", ZONELET);
            && validated.state == "success" && validated.finished == now && validated.revision == d.revision
            && validated.created == (if rpcStart == 0 then now else rpcStart)
            && HappenedAt(persisted, "", now) && persisted.revision == d.revision
            && (forall m :: m != "req_validate" && m != "instance_persist" ==> Find(root, m) == Find(was, m))
  {
    hide UpdateChild, Find;
    var root := d.Root().SetRunning("", now);
    var f := (c: Stage) => c.(created := rpcStart).SetSuccess("", now).(revision := d.revision);
    var validated := UpdateChild(root, REQ_VALIDATE, ZONELET, f);
    FindUpdated(root, REQ_VALIDATE, ZONELET, f);
    FindUpdated(validated, INSTANCE_PERSIST, ZONELET, InstantAt(d.revision, "", now));
    SameChildren(d.Root(), root);
  }

  lemma SameChildren(x: Stage, y: Stage)
    requires x.stages == y.stages
    ensures forall m :: Find(x, m) == Find(y, m)
    ensures forall r :: FindReplica(x, r) == FindReplica(y, r)
  {
  }

  /** The nodes of the replicas are left alone. */
  lemma MarkedReplicas(d: Deploy, rpcStart: int, now: int)
    ensures forall r :: FindReplica(MarkPreHost(d, rpcStart, now).Root(), r) == FindReplica(d.Root(), r)
  {
    hide UpdateChild, FindReplica;
    var root := d.Root().SetRunning("", now);
    var f := (c: Stage) => c.(created := rpcStart).SetSuccess("", now).(revision := d.revision);
    var validated := UpdateChild(root, REQ_VALIDATE, ZONELET, f);
    NotAReplica(root, REQ_VALIDATE, ZONELET, f);
    NotAReplica(validated, INSTANCE_PERSIST, ZONELET, InstantAt(d.revision, "", now));
    SameChildren(d.Root(), root);
  }

  lemma NotAReplica(x: Stage, name: string, owner: string, f: Stage -> Stage)
    requires name != REPLICA && forall c: Stage :: f(c).name == c.name
    ensures forall r :: FindReplica(UpdateChild(x, name, owner, f), r) == FindReplica(x, r)
  {
    var y := UpdateChild(x, name, owner, f);
    var i := IndexOf(x.stages, name);
    assert forall a :: 0 <= a < |y.stages| && a != i ==> y.stages[a] == x.stages[a];
    assert y.stages[i].name == name;
    forall r
      ensures FindReplica(y, r) == FindReplica(x, r)
    {
      var j := ReplicaIndex(x.stages, r);
      FirstReplica(y.stages, r, if j < |x.stages| then j else |y.stages|);
    }
  }

  /**
   A deploy request in plain terms: an empty action and a zero cap keep the stored
   ones, a restart is a start, a cap beyond 128 is cut, and the validation and the
   write of this request are on record under the new revision.
   */
  lemma RequestRecorded(d: Deploy, action: string, cap: nat, rpcStart: int, now: int)
    ensures var r := UpdateDeploy(d, action, cap, rpcStart, now);
            var was, root := d.Root(), r.Root();
            && r.action == (if action == "" then d.action else if action == "restart" then "start" else action)
            && (cap == 0 ==> r.replicaCap == d.replicaCap)
            && (0 < cap <= 128 ==> r.replicaCap == cap) && (cap > 128 ==> r.replicaCap == 128)
            && r.revision == d.revision + 1 && r.request == d.request + 1
            && root.state == "running" && root.revision == was.revision
            && Find(root, "req_validate").Some? && Find(root, "instance_persist").Some?
            && var validated := Child(root, "req_validate", ZONELET);
            && var persisted := Child(root, "instance_persist", ZONELET);
            && validated.state == "success" && validated.finished == now && validated.revision == d.revision + 1
            && validated.created == (if rpcStart == 0 then now else rpcStart)
            && HappenedAt(persisted, "", now) && persisted.revision == d.revision + 1
            && (forall r :: FindReplica(root, r) == FindReplica(was, r))
  {
    hide MarkPreHost, Find, FindReplica, Child;
    var newAction := if action == "" then d.action else if action == RESTART then START else action;
    var newCap := if cap > 0 then Min(REPLICA_CAP_MAX, cap) else d.replicaCap;
    var asked := d.(action := newAction, replicaCap := newCap, revision := d.revision + 1, request := d.request + 1);
    MarkedStages(asked, rpcStart, now);
    MarkedReplicas(asked, rpcStart, now);
  }

  /** A new instance is asked to start at revision 1, with a cap between 1 and 128. */
  lemma CreationRecorded(cap: nat, rpcStart: int, now: int)
    ensures var r := CreateDeploy(cap, rpcStart, now);
            && r.action == "start" && r.revision == 1 && r.request == 0
            && r.replicaCap == (if cap == 0 then 1 else if cap <= 128 then cap else 128)
            && r.Root().state == "running" && r.Root().revision == 0
            && Find(r.Root(), "req_validate").Some? && Find(r.Root(), "instance_persist").Some?
            && Child(r.Root(), "req_validate", ZONELET).state == "success"
            && HappenedAt(Child(r.Root(), "instance_persist", ZONELET), "", now)
            && forall n :: FindReplica(r.Root(), n).None?
  {
    hide MarkPreHost, Find, FindReplica, Child;
    var capped := Min(REPLICA_CAP_MAX, cap);
    var first := Deploy(START, 1, if capped < 1 then 1 else capped, None, 0);
    MarkedStages(first, rpcStart, now);
    MarkedReplicas(first, rpcStart, now);
    forall n
      ensures FindReplica(first.Root(), n).None?
    {
      ReplicaIsFirst(first.Root(), n);
    }
  }

  // ---- Reconciling and binding ----

  /**
   Reconciling in plain terms: under every replica node the relayed stages are gone
   and the others are there, and everything is stamped with the revision.
   */
  lemma ReconciledStages(d: Deploy, now: int, repId: nat, name: string)
    requires d.Root().revision < d.revision
    ensures var r := Reconcile(d, now);
            && r == d.(stages := r.stages) && r.Root().state == "running" && r.Root().revision == d.revision
            && (FindReplica(r.Root(), repId).Some? <==> FindReplica(d.Root(), repId).Some?)
            && (FindReplica(d.Root(), repId).Some? ==>
                  var was, node := ReplicaNode(d.Root(), repId), ReplicaNode(r.Root(), repId);
                  && SameFields(was.(revision := d.revision), node)
                  && (Relayed(name) ==> Find(node, name).None?)
                  && (!Relayed(name) ==>
                        (Find(node, name).Some? <==> Find(was, name).Some?)
                        && (Find(was, name).Some? ==>
                              SameFields(Find(was, name).value.(revision := d.revision), Find(node, name).value))))
  {
    hide Find, Prune, Relayed, FindReplica;
    var root := d.Root().SetRunning("", now);
    var r := root.(stages := PruneReplicas(root.stages)).SetRevisionDeep(d.revision);
    assert Reconcile(d, now).Root() == r;
    SameChildren(d.Root(), root);
    ReconciledNode(root, d.revision, repId);
    hide Reconcile, PruneReplicas;
    if FindReplica(root, repId).Some? {
      var was := ReplicaNode(root, repId);
      PrunedFind(was, name);
      PrunedOnce(was, name);
      StampedFind(Prune(was), name, d.revision);
      StampedFields(Prune(was), d.revision);
      if Find(Prune(was), name).Some? {
        StampedFields(Find(Prune(was), name).value, d.revision);
      }
    }
  }

  lemma ReconciledNode(root: Stage, rev: nat, repId: nat)
    ensures var r := root.(stages := PruneReplicas(root.stages)).SetRevisionDeep(rev);
            FindReplica(r, repId) ==
            if FindReplica(root, repId).None? then None
            else Some(Prune(ReplicaNode(root, repId)).SetRevisionDeep(rev))
  {
    hide Prune;
    var pruned := root.(stages := PruneReplicas(root.stages));
    var r := pruned.SetRevisionDeep(rev);
    forall j | 0 <= j < |root.stages|
      ensures r.stages[j].name == root.stages[j].name && r.stages[j].repId == root.stages[j].repId
    {
      PrunedOnce(root.stages[j], "");
    }
    FirstReplica(r.stages, repId, ReplicaIndex(root.stages, repId));
  }

  lemma StampedFields(x: Stage, rev: nat)
    ensures SameFields(x.(revision := rev), x.SetRevisionDeep(rev))
  {
  }

  lemma StampedFind(x: Stage, name: string, rev: nat)
    ensures var y := x.SetRevisionDeep(rev);
            Find(y, name) == if Find(x, name).None? then None else Some(Find(x, name).value.SetRevisionDeep(rev))
  {
    var y := x.SetRevisionDeep(rev);
    FirstIndex(y.stages, name, IndexOf(x.stages, name));
  }

  /** A binding in plain terms: the revision is raised, once a tick, and the stage says when and what. */
  lemma BindingRecorded(d: Deploy, repId: nat, stage: string, raised: bool, msg: string, now: int)
    ensures var r := Rebind(d, repId, stage, raised, msg, now);
            var was, node := ReplicaNode(d.Root(), repId), ReplicaNode(r.Root(), repId);
            && r.revision == (if raised then d.revision else d.revision + 1)
            && r == d.(revision := r.revision, stages := r.stages) && SameFields(d.Root(), r.Root())
            && (forall o :: o != repId ==> FindReplica(r.Root(), o) == FindReplica(d.Root(), o))
            && FindReplica(r.Root(), repId).Some? && SameFields(was, node)
            && Find(node, stage).Some?
            && HappenedAt(Child(node, stage, ZONELET), msg, now) && Child(node, stage, ZONELET).revision == r.revision
            && (forall m :: m != stage ==> Find(node, m) == Find(was, m))
  {
    hide UpdateReplica, FindReplica, ReplicaNode, Child, Find, Bind;
    var rev := if raised then d.revision else d.revision + 1;
    var f := Bind(stage, rev, msg, now);
    forall n: Stage
      ensures f(n).name == n.name && f(n).repId == n.repId
    {
      BoundStage(n, stage, rev, msg, now);
    }
    BoundStage(ReplicaNode(d.Root(), repId), stage, rev, msg, now);
    ReplicaUpdated(d.Root(), repId, f);
    FoundNode(Rebind(d, repId, stage, raised, msg, now).Root(), repId);
  }

  lemma FoundNode(root: Stage, repId: nat)
    ensures FindReplica(root, repId).Some? ==> ReplicaNode(root, repId) == FindReplica(root, repId).value
  {
  }

  lemma BoundStage(n: Stage, stage: string, rev: nat, msg: string, now: int)
    ensures var r := Bind(stage, rev, msg, now)(n);
            && SameFields(n, r) && Find(r, stage).Some?
            && HappenedAt(Child(r, stage, ZONELET), msg, now) && Child(r, stage, ZONELET).revision == rev
            && (forall m :: m != stage ==> Find(r, m) == Find(n, m))
  {
    hide UpdateChild, Find;
    FindUpdated(n, stage, ZONELET, InstantAt(rev, msg, now));
  }

  // ---- Placing ----

  /** Another try after a failure counts; what the stage said before is kept unless there is something new to say. */
  predicate Scheduling(was: Stage, c: Stage, rev: nat, now: int) {
    && c.attempt == was.attempt + (if was.state == "failed" then 1 else 0)
    && c.created == (if was.created == 0 then now else was.created) && c.finished == now && c.revision == rev
  }

  /**
   An attempt to place a replica in plain terms. Without a host its schedule stage
   has failed, with the reason. With one it has succeeded, with the host found fit
   and chosen; unless the host has gone by then, address, ports and delivery are on
   record too, and everything under the replica carries the revision.
   */
  lemma PlacementRecorded(d: Deploy, repId: nat, p: Placement, now: int)
    ensures var r := Place(d, repId, p, now);
            var was, node := ReplicaNode(d.Root(), repId), ReplicaNode(r.Root(), repId);
            var before, after := Child(was, "schedule", ZONELET), Child(node, "schedule", ZONELET);
            && r == d.(stages := r.stages) && SameFields(d.Root(), r.Root())
            && (forall o :: o != repId ==> FindReplica(r.Root(), o) == FindReplica(d.Root(), o))
            && FindReplica(r.Root(), repId).Some? && Find(node, "schedule").Some?
            && Scheduling(before, after, d.revision, now)
            && (p.Unplaced? ==> after.state == "failed" && (p.msg != "" ==> after.message == p.msg))
            && (!p.Unplaced? ==>
                  && after.state == "success" && (p.hostId != "" ==> after.message == p.hostId)
                  && Find(after, "host_fit").Some? && Find(after, "host_prioritize").Some?
                  && HappenedAt(Child(after, "host_fit", ZONELET), "", now)
                  && HappenedAt(Child(after, "host_prioritize", ZONELET), p.hostId, now))
            && (p.Placed? ==>
                  && Find(node, "ipam_alloc").Some? && HappenedAt(Child(node, "ipam_alloc", ZONELET), p.ip, now)
                  && Find(node, "port_alloc").Some? && HappenedAt(Child(node, "port_alloc", ZONELET), "", now)
                  && Find(node, "deliver").Some? && HappenedAt(Child(node, "deliver", ZONELET), p.hostId, now)
                  && node.revision == d.revision && forall c :: c in node.stages ==> c.revision == d.revision)
            && (!p.Placed? ==> forall m :: m != "schedule" ==> Find(node, m) == Find(was, m))
  {
    var f := (n: Stage) => PlacedNode(n, p, d.revision, now);
    var was := ReplicaNode(d.Root(), repId);
    forall n: Stage
      ensures f(n).name == n.name && f(n).repId == n.repId
    {
      PlacedFields(n, p, d.revision, now);
    }
    ReplicaUpdated(d.Root(), repId, f);
    PlacedStages(was, p, d.revision, now);
    hide PlacedNode, UpdateReplica, FindReplica, Find, Child, Scheduling, HappenedAt;
  }

  lemma PlacedFields(n: Stage, p: Placement, rev: nat, now: int)
    ensures PlacedNode(n, p, rev, now).name == n.name && PlacedNode(n, p, rev, now).repId == n.repId
  {
    hide UpdateChild, Scheduled, Delivered;
    var g := (c: Stage) => Scheduled(c, p, rev, now);
    forall c: Stage ensures g(c).name == c.name {
      ScheduledName(c, p, rev, now);
    }
    FindUpdated(n, SCHEDULE, ZONELET, g);
    if p.Placed? {
      DeliveredStages(UpdateChild(n, SCHEDULE, ZONELET, g), p.hostId, p.ip, now);
    }
  }

  lemma DeliveredStages(n: Stage, hostId: string, ip: string, now: int)
    ensures var r := Delivered(n, hostId, ip, now);
            && SameFields(n, r)
            && Find(r, "ipam_alloc").Some? && HappenedAt(Child(r, "ipam_alloc", ZONELET), ip, now)
            && Find(r, "port_alloc").Some? && HappenedAt(Child(r, "port_alloc", ZONELET), "", now)
            && Find(r, "deliver").Some? && HappenedAt(Child(r, "deliver", ZONELET), hostId, now)
            && Find(r, "schedule") == Find(n, "schedule")
  {
    hide UpdateChild, Find;
    var addressed := UpdateChild(n, IPAM_ALLOC, ZONELET, Instant(ip, now));
    var bound := UpdateChild(addressed, PORT_ALLOC, ZONELET, Instant("", now));
    FindUpdated(n, IPAM_ALLOC, ZONELET, Instant(ip, now));
    FindUpdated(addressed, PORT_ALLOC, ZONELET, Instant("", now));
    FindUpdated(bound, DELIVER, ZONELET, Instant(hostId, now));
  }

  lemma ScheduledStage(c: Stage, p: Placement, rev: nat, now: int)
    ensures var after := Scheduled(c, p, rev, now);
            && Scheduling(c, after, rev, now)
            && (p.Unplaced? ==> after.state == "failed" && (p.msg != "" ==> after.message == p.msg))
            && (!p.Unplaced? ==>
                  && after.state == "success" && (p.hostId != "" ==> after.message == p.hostId)
                  && Find(after, "host_fit").Some? && Find(after, "host_prioritize").Some?
                  && HappenedAt(Child(after, "host_fit", ZONELET), "", now)
                  && HappenedAt(Child(after, "host_prioritize", ZONELET), p.hostId, now))
  {
    hide UpdateChild, Find;
    if !p.Unplaced? {
      var running := c.SetRunning("", now).(revision := rev);
      var fit := UpdateChild(running, HOST_FIT, ZONELET, Instant("", now));
      var chosen := UpdateChild(fit, HOST_PRIORITIZE, ZONELET, Instant(p.hostId, now));
      FindUpdated(running, HOST_FIT, ZONELET, Instant("", now));
      FindUpdated(fit, HOST_PRIORITIZE, ZONELET, Instant(p.hostId, now));
      var after := chosen.SetSuccess(p.hostId, now);
      SameChildren(after, chosen);
    }
  }

  lemma PlacedStages(was: Stage, p: Placement, rev: nat, now: int)
    ensures var node := PlacedNode(was, p, rev, now);
            var before, after := Child(was, "schedule", ZONELET), Child(node, "schedule", ZONELET);
            && Find(node, "schedule").Some? && Scheduling(before, after, rev, now)
            && (p.Unplaced? ==> after.state == "failed" && (p.msg != "" ==> after.message == p.msg))
            && (!p.Unplaced? ==>
                  && after.state == "success" && (p.hostId != "" ==> after.message == p.hostId)
                  && Find(after, "host_fit").Some? && Find(after, "host_prioritize").Some?
                  && HappenedAt(Child(after, "host_fit", ZONELET), "", now)
                  && HappenedAt(Child(after, "host_prioritize", ZONELET), p.hostId, now))
            && (p.Placed? ==>
                  && Find(node, "ipam_alloc").Some? && HappenedAt(Child(node, "ipam_alloc", ZONELET), p.ip, now)
                  && Find(node, "port_alloc").Some? && HappenedAt(Child(node, "port_alloc", ZONELET), "", now)
                  && Find(node, "deliver").Some? && HappenedAt(Child(node, "deliver", ZONELET), p.hostId, now)
                  && node.revision == rev && forall c :: c in node.stages ==> c.revision == rev)
            && (!p.Placed? ==> forall m :: m != "schedule" ==> Find(node, m) == Find(was, m))
  {
    hide UpdateChild, Find, Scheduled;
    var g := (c: Stage) => Scheduled(c, p, rev, now);
    forall c: Stage ensures g(c).name == c.name {
      ScheduledName(c, p, rev, now);
    }
    var scheduled := UpdateChild(was, SCHEDULE, ZONELET, g);
    FindUpdated(was, SCHEDULE, ZONELET, g);
    ScheduledStage(Child(was, SCHEDULE, ZONELET), p, rev, now);
    if p.Placed? {
      var delivered := Delivered(scheduled, p.hostId, p.ip, now);
      DeliveredStages(scheduled, p.hostId, p.ip, now);
      StampedChild(delivered, SCHEDULE, rev);
      StampedChild(delivered, IPAM_ALLOC, rev);
      StampedChild(delivered, PORT_ALLOC, rev);
      StampedChild(delivered, DELIVER, rev);
      StampedChild(Child(delivered, SCHEDULE, ZONELET), HOST_FIT, rev);
      StampedChild(Child(delivered, SCHEDULE, ZONELET), HOST_PRIORITIZE, rev);
      hide Delivered;
    }
  }

  lemma StampedChild(x: Stage, name: string, rev: nat)
    requires Find(x, name).Some?
    ensures var y := x.SetRevisionDeep(rev);
            && Find(y, name).Some? && Child(y, name, ZONELET) == Child(x, name, ZONELET).SetRevisionDeep(rev)
            && SameFields(Child(x, name, ZONELET).(revision := rev), Child(y, name, ZONELET))
            && forall c :: c in y.stages ==> c.revision == rev
  {
    StampedFind(x, name, rev);
    StampedFields(Child(x, name, ZONELET), rev);
    hide Find;
  }
}
