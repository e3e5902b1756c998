/**
 The zone leader lease. Hosts read and write one key of a shared store whose
 records expire after a time to live; each host decides locally, from the write
 time it last learned, whether it is still the leader. Store accesses, replies,
 lost requests, restarts and the passing of time interleave freely.
 */
module LeaderLease {
  import opened Common

  type HostId = string

  /** Milliseconds. */
  const LEADER_TTL: int := 12000

  /** The pattern ^[0-9a-f]{12,16}$. */
  predicate ObjectIdValid(id: HostId) {
    12 <= |id| <= 16 && forall i :: 0 <= i < |id| ==> id[i] in "0123456789abcdef"
  }

  /** One successful write of the leader key. */
  datatype Record = Record(holder: HostId, version: nat, updated: int)

  /** The leader variables of one host process. */
  datatype Local = Local(leader: HostId, version: nat, updated: int)

  /** Where a host is in its refresh: which request is out, or which reply is on its way. */
  datatype Phase =
    | Idle
    | Renewing
    | Reading
    | Acquiring
    | Renewed(rec: Record)
    | Observed(rec: Record)
    | Absent
    | Acquired(rec: Record)

  datatype Node = Node(local: Local, phase: Phase)

  /**
   The successful writes so far, oldest first; the last one is the stored record.
   late: the hosts that gave up a write request which may still reach the store,
   once or more often, at any later time.
   */
  datatype World = World(now: int, writes: seq<Record>, nodes: map<HostId, Node>, late: set<HostId>)

  datatype Step =
    | Tick(ms: nat)
    | Begin(host: HostId)
    | Execute(host: HostId)
    | Reply(host: HostId)
    | Lose(host: HostId)
    | Restart(host: HostId)
    | Land(host: HostId)

  const FRESH := Local("", 0, 0)

  /** The test a host applies to itself: no store access, only its own variables and the clock. */
  predicate Leads(local: Local, host: HostId, now: int) {
    local.leader == host && local.updated + LEADER_TTL > now
  }

  predicate Live(writes: seq<Record>, now: int) {
    writes != [] && now < writes[|writes| - 1].updated + LEADER_TTL
  }

  /** Compare-and-set on the previous value: allowed when absent, expired, or one's own. */
  predicate CanWrite(writes: seq<Record>, host: HostId, now: int) {
    !Live(writes, now) || writes[|writes| - 1].holder == host
  }

  function NewRecord(writes: seq<Record>, host: HostId, now: int): Record {
    Record(host, if writes == [] then 1 else writes[|writes| - 1].version + 1, now)
  }

  /** A record read back from the store: the write time is taken over in any case. */
  function Observe(local: Local, rec: Record): Local {
    var learned :=
      if ObjectIdValid(rec.holder) && (rec.holder != local.leader || rec.version > local.version)
      then local.(leader := rec.holder, version := rec.version)
      else local;
    learned.(updated := rec.updated)
  }

  function BeginNode(node: Node, host: HostId, now: int): Node {
    if node.phase != Idle then node
    else node.(phase := if Leads(node.local, host, now) then Renewing else Reading)
  }

  function ReplyNode(node: Node, host: HostId): Node {
    match node.phase
    case Renewed(rec) => Node(node.local.(version := rec.version, updated := rec.updated), Idle)
    case Acquired(rec) => Node(Local(host, rec.version, rec.updated), Idle)
    case Observed(rec) => Node(Observe(node.local, rec), Idle)
    case Absent => node.(phase := Acquiring)
    case _ => node
  }

  /** The store's side of a request, atomic at one instant. */
  function ExecuteStep(w: World, host: HostId): World
    requires host in w.nodes
  {
    var node := w.nodes[host];
    match node.phase
    case Reading =>
      var next := if Live(w.writes, w.now) then Observed(w.writes[|w.writes| - 1]) else Absent;
      w.(nodes := w.nodes[host := node.(phase := next)])
    case Renewing =>
      if CanWrite(w.writes, host, w.now) then
        var rec := NewRecord(w.writes, host, w.now);
        w.(writes := w.writes + [rec], nodes := w.nodes[host := node.(phase := Renewed(rec))])
      else w.(nodes := w.nodes[host := node.(phase := Idle)])
    case Acquiring =>
      if CanWrite(w.writes, host, w.now) then
        var rec := NewRecord(w.writes, host, w.now);
        w.(writes := w.writes + [rec], nodes := w.nodes[host := node.(phase := Acquired(rec))])
      else w.(nodes := w.nodes[host := node.(phase := Idle)])
    case _ => w
  }

  /** The sender no longer waits: for a reply that is lost, or for a request that is still under way. */
  function GiveUp(w: World, host: HostId, local: Local): World
    requires host in w.nodes
  {
    var phase := w.nodes[host].phase;
    w.(nodes := w.nodes[host := Node(local, Idle)],
       late := if phase.Renewing? || phase.Acquiring? then w.late + {host} else w.late)
  }

  /** A write request that its sender has given up reaches the store. */
  function LandStep(w: World, host: HostId): World {
    if CanWrite(w.writes, host, w.now) then w.(writes := w.writes + [NewRecord(w.writes, host, w.now)]) else w
  }

  function Take(w: World, step: Step): World {
    match step
    case Tick(ms) => w.(now := w.now + ms)
    case Begin(h) => if h !in w.nodes then w else w.(nodes := w.nodes[h := BeginNode(w.nodes[h], h, w.now)])
    case Execute(h) => if h !in w.nodes then w else ExecuteStep(w, h)
    case Reply(h) => if h !in w.nodes then w else w.(nodes := w.nodes[h := ReplyNode(w.nodes[h], h)])
    case Lose(h) => if h !in w.nodes then w else GiveUp(w, h, w.nodes[h].local)
    case Restart(h) => if h !in w.nodes then w else GiveUp(w, h, FRESH)
    case Land(h) => if h !in w.late then w else LandStep(w, h)
  }

  function Run(w: World, steps: seq<Step>): World
    decreases |steps|
  {
    if steps == [] then w else Run(Take(w, steps[0]), steps[1..])
  }

  function Boot(hosts: set<HostId>, now: int): World {
    World(now, [], map h | h in hosts :: Node(FRESH, Idle), {})
  }

  // ---- Safety ----

  ghost predicate Wrote(writes: seq<Record>, host: HostId, updated: int) {
    exists i :: 0 <= i < |writes| && writes[i].holder == host && writes[i].updated == updated
  }

  /** Writes of different hosts are at least one time to live apart. */
  ghost predicate Separated(writes: seq<Record>) {
    && (forall i, j :: 0 <= i < j < |writes| ==> writes[i].updated <= writes[j].updated)
    && (forall i, j :: 0 <= i < j < |writes| && writes[i].holder != writes[j].holder ==>
          writes[i].updated + LEADER_TTL <= writes[j].updated)
  }

  /** What a host knows about its own leadership stems from its own writes. */
  ghost predicate Backed(writes: seq<Record>, host: HostId, node: Node) {
    && (node.local.leader == host ==> Wrote(writes, host, node.local.updated))
    && (node.phase.Renewing? ==> node.local.leader == host)
    && (node.phase.Renewed? ==> node.local.leader == host && node.phase.rec.holder == host)
    && (node.phase.Acquired? ==> node.phase.rec.holder == host)
    && (node.phase.Renewed? || node.phase.Acquired? || node.phase.Observed? ==> node.phase.rec in writes)
  }

  ghost predicate Invariant(w: World) {
    && Separated(w.writes)
    && (forall i :: 0 <= i < |w.writes| ==> w.writes[i].updated <= w.now && w.writes[i].holder in w.nodes)
    && (forall h :: h in w.nodes ==> ObjectIdValid(h) && Backed(w.writes, h, w.nodes[h]))
    && w.late <= w.nodes.Keys
  }

  lemma WroteMember(writes: seq<Record>, rec: Record)
    requires rec in writes
    ensures Wrote(writes, rec.holder, rec.updated)
  {
    var i :| 0 <= i < |writes| && writes[i] == rec;
  }

  lemma BackedMonotone(writes: seq<Record>, rec: Record, host: HostId, node: Node)
    requires Backed(writes, host, node)
    ensures Backed(writes + [rec], host, node)
  {
    if Wrote(writes, host, node.local.updated) {
      var i :| 0 <= i < |writes| && writes[i].holder == host && writes[i].updated == node.local.updated;
      assert (writes + [rec])[i] == writes[i];
    }
  }

  lemma WriteKeepsSeparation(writes: seq<Record>, host: HostId, now: int)
    requires Separated(writes) && CanWrite(writes, host, now)
    requires forall i :: 0 <= i < |writes| ==> writes[i].updated <= now
    ensures Separated(writes + [NewRecord(writes, host, now)])
  {
    var more := writes + [NewRecord(writes, host, now)];
    forall i | 0 <= i < |writes| && more[i].holder != host
      ensures more[i].updated + LEADER_TTL <= now
    {
      var last := writes[|writes| - 1];
      if last.holder == host {
        assert writes[i].updated + LEADER_TTL <= last.updated;
      }
    }
  }

  lemma WriteKeepsInvariant(w: World, host: HostId, phase: Phase)
    requires Invariant(w) && host in w.nodes && CanWrite(w.writes, host, w.now)
    requires var rec := NewRecord(w.writes, host, w.now);
             || phase == Acquired(rec)
             || (phase == Renewed(rec) && w.nodes[host].local.leader == host)
             || phase == w.nodes[host].phase
    ensures Invariant(w.(writes := w.writes + [NewRecord(w.writes, host, w.now)],
                         nodes := w.nodes[host := w.nodes[host].(phase := phase)]))
  {
    var rec := NewRecord(w.writes, host, w.now);
    var writes := w.writes + [rec];
    WriteKeepsSeparation(w.writes, host, w.now);
    hide Separated;
    forall h | h in w.nodes
      ensures Backed(writes, h, w.nodes[h])
    {
      BackedMonotone(w.writes, rec, h, w.nodes[h]);
    }
    assert writes[|w.writes|] == rec;
    assert Backed(writes, host, w.nodes[host].(phase := phase));
  }

  lemma ExecuteKeepsInvariant(w: World, host: HostId)
    requires Invariant(w) && host in w.nodes
    ensures Invariant(ExecuteStep(w, host))
  {
    hide Separated, CanWrite, NewRecord, ObjectIdValid;
    var node := w.nodes[host];
    if node.phase.Renewing? && CanWrite(w.writes, host, w.now) {
      WriteKeepsInvariant(w, host, Renewed(NewRecord(w.writes, host, w.now)));
    } else if node.phase.Acquiring? && CanWrite(w.writes, host, w.now) {
      WriteKeepsInvariant(w, host, Acquired(NewRecord(w.writes, host, w.now)));
    }
  }

  lemma LandKeepsInvariant(w: World, host: HostId)
    requires Invariant(w) && host in w.late
    ensures Invariant(LandStep(w, host))
  {
    if CanWrite(w.writes, host, w.now) {
      WriteKeepsInvariant(w, host, w.nodes[host].phase);
      assert w.nodes[host := w.nodes[host].(phase := w.nodes[host].phase)] == w.nodes;
    }
  }

  lemma ReplyKeepsBacked(writes: seq<Record>, host: HostId, node: Node)
    requires Backed(writes, host, node) && ObjectIdValid(host)
    requires forall i :: 0 <= i < |writes| ==> ObjectIdValid(writes[i].holder)
    ensures Backed(writes, host, ReplyNode(node, host))
  {
    if node.phase.Renewed? || node.phase.Acquired? || node.phase.Observed? {
      WroteMember(writes, node.phase.rec);
    }
  }

  lemma TakeKeepsInvariant(w: World, step: Step)
    requires Invariant(w)
    ensures Invariant(Take(w, step))
  {
    if !step.Tick? && step.host in w.nodes {
      if step.Land? && step.host in w.late {
        LandKeepsInvariant(w, step.host);
      } else if step.Execute? {
        ExecuteKeepsInvariant(w, step.host);
      } else if step.Reply? {
        ReplyKeepsBacked(w.writes, step.host, w.nodes[step.host]);
      }
    }
  }

  lemma {:induction false} RunKeepsInvariant(w: World, steps: seq<Step>)
    requires Invariant(w)
    ensures Invariant(Run(w, steps))
    decreases |steps|
  {
    if steps != [] {
      TakeKeepsInvariant(w, steps[0]);
      RunKeepsInvariant(Take(w, steps[0]), steps[1..]);
    }
  }

  ghost predicate AtMostOneLeader(w: World) {
    forall a, b | a in w.nodes && b in w.nodes
      :: Leads(w.nodes[a].local, a, w.now) && Leads(w.nodes[b].local, b, w.now) ==> a == b
  }

  /** A host that believes to lead holds the live record, so no rival write can succeed. */
  lemma BeliefIsHeld(w: World, host: HostId)
    requires Invariant(w) && host in w.nodes && Leads(w.nodes[host].local, host, w.now)
    ensures Live(w.writes, w.now) && w.writes[|w.writes| - 1].holder == host
    ensures forall rival :: CanWrite(w.writes, rival, w.now) <==> rival == host
  {
    hide ObjectIdValid, Separated, Wrote;
    assert Backed(w.writes, host, w.nodes[host]);
    HeldByWriter(w.writes, host, w.nodes[host].local.updated, w.now);
  }

  /** The last write of a host that is not older than a lease is the last write of all. */
  lemma HeldByWriter(writes: seq<Record>, host: HostId, updated: int, now: int)
    requires Separated(writes) && Wrote(writes, host, updated) && updated + LEADER_TTL > now
    requires forall i :: 0 <= i < |writes| ==> writes[i].updated <= now
    ensures Live(writes, now) && writes[|writes| - 1].holder == host
  {
    var i :| 0 <= i < |writes| && writes[i].holder == host && writes[i].updated == updated;
    var last := |writes| - 1;
    assert i == last || writes[i].updated <= writes[last].updated;
  }

  lemma InvariantIsSafe(w: World)
    requires Invariant(w)
    ensures AtMostOneLeader(w)
  {
    forall a, b | a in w.nodes && b in w.nodes && Leads(w.nodes[a].local, a, w.now)
                  && Leads(w.nodes[b].local, b, w.now)
      ensures a == b
    {
      BeliefIsHeld(w, a);
      BeliefIsHeld(w, b);
    }
  }

  /** Over every interleaving, with valid host ids, writes of rivals keep a full lease apart and one host leads. */
  lemma LeaseIsSafe(hosts: set<HostId>, now: int, steps: seq<Step>)
    requires forall h :: h in hosts ==> ObjectIdValid(h)
    ensures AtMostOneLeader(Run(Boot(hosts, now), steps))
    ensures Separated(Run(Boot(hosts, now), steps).writes)
  {
    assert forall h :: h in hosts ==> h != "";
    RunKeepsInvariant(Boot(hosts, now), steps);
    InvariantIsSafe(Run(Boot(hosts, now), steps));
  }

  // ---- The role of the id pattern ----

  /**
   The interleaving that two hosts can reach when the second has an id the pattern
   refuses: the first reads the second's record, keeps its own name as leader and
   still takes over the write time.
   */
  function TakeoverSteps(a: HostId, b: HostId): seq<Step> {
    [Begin(a), Execute(a), Reply(a), Execute(a), Reply(a), Tick(LEADER_TTL),
     Begin(b), Execute(b), Reply(b), Execute(b), Reply(b),
     Begin(a), Execute(a), Reply(a)]
  }

  lemma {:induction false} RunSplit(w: World, a: seq<Step>, b: seq<Step>)
    ensures Run(w, a + b) == Run(Run(w, a), b)
    decreases |a|
  {
    if a == [] {
      assert a + b == b;
    } else {
      assert (a + b)[0] == a[0] && (a + b)[1..] == a[1..] + b;
      RunSplit(Take(w, a[0]), a[1..], b);
    }
  }

  lemma OneStep(w: World, step: Step)
    ensures Run(w, [step]) == Take(w, step)
  {
    assert [step][1..] == [];
  }

  lemma RunThree(w: World, a: Step, b: Step, c: Step)
    ensures Run(w, [a, b, c]) == Take(Take(Take(w, a), b), c)
  {
    assert [a, b, c][1..] == [b, c] && [b, c][1..] == [c] && [c][1..] == [];
    assert Run(Take(w, a), [b, c]) == Run(Take(Take(w, a), b), [c]);
  }

  /** An idle host that does not lead acquires a free lease. */
  lemma AcquireRun(w: World, h: HostId)
    requires h in w.nodes && w.nodes[h].phase == Idle && !Leads(w.nodes[h].local, h, w.now) && !Live(w.writes, w.now)
    ensures var rec := NewRecord(w.writes, h, w.now);
            Run(w, [Begin(h), Execute(h), Reply(h)] + [Execute(h), Reply(h)])
            == w.(writes := w.writes + [rec], nodes := w.nodes[h := Node(Local(h, rec.version, rec.updated), Idle)])
  {
    var rec := NewRecord(w.writes, h, w.now);
    var node := w.nodes[h];
    RunSplit(w, [Begin(h), Execute(h), Reply(h)], [Execute(h), Reply(h)]);
    RunThree(w, Begin(h), Execute(h), Reply(h));
    var w1 := Take(w, Begin(h));
    assert w1 == w.(nodes := w.nodes[h := node.(phase := Reading)]);
    var w2 := Take(w1, Execute(h));
    assert w2 == w.(nodes := w.nodes[h := node.(phase := Absent)]);
    var w3 := Take(w2, Reply(h));
    assert w3 == w.(nodes := w.nodes[h := node.(phase := Acquiring)]);
    var w4 := Take(w3, Execute(h));
    assert w4 == w.(writes := w.writes + [rec], nodes := w.nodes[h := node.(phase := Acquired(rec))]);
    assert [Execute(h), Reply(h)][1..] == [Reply(h)] && [Reply(h)][1..] == [];
    assert Run(w4, [Reply(h)]) == Take(w4, Reply(h));
  }

  /** An idle host that does not lead reads the live record of another. */
  lemma ObserveRun(w: World, h: HostId)
    requires h in w.nodes && w.nodes[h].phase == Idle && !Leads(w.nodes[h].local, h, w.now) && Live(w.writes, w.now)
    ensures Run(w, [Begin(h), Execute(h), Reply(h)])
            == w.(nodes := w.nodes[h := Node(Observe(w.nodes[h].local, w.writes[|w.writes| - 1]), Idle)])
  {
    var node := w.nodes[h];
    RunThree(w, Begin(h), Execute(h), Reply(h));
    var w1 := Take(w, Begin(h));
    assert w1 == w.(nodes := w.nodes[h := node.(phase := Reading)]);
  }

  /** The world after a has acquired the lease, and after b has acquired it a lease later. */
  function FirstLease(hosts: set<HostId>, now: int, a: HostId): World {
    var w := Boot(hosts, now);
    w.(writes := [Record(a, 1, now)], nodes := w.nodes[a := Node(Local(a, 1, now), Idle)])
  }

  function SecondLease(hosts: set<HostId>, now: int, a: HostId, b: HostId): World {
    var w, later := FirstLease(hosts, now, a), now + LEADER_TTL;
    w.(now := later, writes := w.writes + [Record(b, 2, later)], nodes := w.nodes[b := Node(Local(b, 2, later), Idle)])
  }

  lemma FirstAcquires(hosts: set<HostId>, now: int, a: HostId)
    requires a in hosts && now >= LEADER_TTL
    ensures Run(Boot(hosts, now), [Begin(a), Execute(a), Reply(a)] + [Execute(a), Reply(a)])
            == FirstLease(hosts, now, a)
  {
    hide Run;
    AcquireRun(Boot(hosts, now), a);
  }

  lemma SecondAcquires(hosts: set<HostId>, now: int, a: HostId, b: HostId)
    requires a in hosts && b in hosts && a != b && now >= LEADER_TTL
    ensures var expired := FirstLease(hosts, now, a).(now := now + LEADER_TTL);
            Run(expired, [Begin(b), Execute(b), Reply(b)] + [Execute(b), Reply(b)]) == SecondLease(hosts, now, a, b)
  {
    hide Run;
    AcquireRun(FirstLease(hosts, now, a).(now := now + LEADER_TTL), b);
  }

  lemma FirstObserves(hosts: set<HostId>, now: int, a: HostId, b: HostId)
    requires a in hosts && b in hosts && a != b && !ObjectIdValid(b) && now >= LEADER_TTL
    ensures !AtMostOneLeader(Run(SecondLease(hosts, now, a, b), [Begin(a), Execute(a), Reply(a)]))
  {
    hide Run, ObjectIdValid;
    var w := SecondLease(hosts, now, a, b);
    ObserveRun(w, a);
    var end := Run(w, [Begin(a), Execute(a), Reply(a)]);
    assert end.nodes[a].local == Local(a, 1, now + LEADER_TTL) && end.nodes[b].local == Local(b, 2, now + LEADER_TTL);
    assert Leads(end.nodes[a].local, a, end.now) && Leads(end.nodes[b].local, b, end.now);
  }

  lemma TakeoverLeadsTwice(hosts: set<HostId>, now: int, a: HostId, b: HostId)
    requires a in hosts && b in hosts && a != b && !ObjectIdValid(b) && now >= LEADER_TTL
    ensures !AtMostOneLeader(Run(Boot(hosts, now), TakeoverSteps(a, b)))
  {
    hide Run, AtMostOneLeader, ObjectIdValid;
    var acquireA := [Begin(a), Execute(a), Reply(a)] + [Execute(a), Reply(a)];
    var acquireB := [Begin(b), Execute(b), Reply(b)] + [Execute(b), Reply(b)];
    var observeA, expire := [Begin(a), Execute(a), Reply(a)], [Tick(LEADER_TTL)];
    var w0, w1 := Boot(hosts, now), FirstLease(hosts, now, a);
    FirstAcquires(hosts, now, a);
    OneStep(w1, Tick(LEADER_TTL));
    SecondAcquires(hosts, now, a, b);
    FirstObserves(hosts, now, a, b);
    assert TakeoverSteps(a, b) == acquireA + (expire + (acquireB + observeA));
    RunSplit(w0, acquireA, expire + (acquireB + observeA));
    RunSplit(w1, expire, acquireB + observeA);
    RunSplit(w1.(now := now + LEADER_TTL), acquireB, observeA);
  }

  lemma {:induction false} RunKeepsHosts(w: World, steps: seq<Step>)
    ensures Run(w, steps).nodes.Keys == w.nodes.Keys
    decreases |steps|
  {
    if steps != [] {
      RunKeepsHosts(Take(w, steps[0]), steps[1..]);
    }
  }

  /** The interleaving of TakeoverSteps, at a time when no lease of a host that never led can be fresh. */
  lemma TakeoverRun(hosts: set<HostId>, now: int, a: HostId, b: HostId) returns (steps: seq<Step>)
    requires a in hosts && b in hosts && a != b && !ObjectIdValid(b)
    ensures !AtMostOneLeader(Run(Boot(hosts, now), steps))
  {
    hide AtMostOneLeader, ObjectIdValid;
    var wait := [Tick(if now < LEADER_TTL then LEADER_TTL - now else 0)];
    OneStep(Boot(hosts, now), wait[0]);
    var later := Run(Boot(hosts, now), wait).now;
    assert Run(Boot(hosts, now), wait) == Boot(hosts, later);
    TakeoverLeadsTwice(hosts, later, a, b);
    RunSplit(Boot(hosts, now), wait, TakeoverSteps(a, b));
    steps := wait + TakeoverSteps(a, b);
  }

  /**
   Exactly these zones have at most one leader in every run: those with no two hosts,
   and those whose host ids all match the pattern.
   */
  lemma SafeExactlyWithValidIds(hosts: set<HostId>, now: int)
    ensures (forall steps :: AtMostOneLeader(Run(Boot(hosts, now), steps))) <==>
            || (forall a, b :: a in hosts && b in hosts ==> a == b)
            || (forall h :: h in hosts ==> ObjectIdValid(h))
  {
    hide ObjectIdValid, Run;
    if forall h :: h in hosts ==> ObjectIdValid(h) {
      forall steps ensures AtMostOneLeader(Run(Boot(hosts, now), steps)) {
        LeaseIsSafe(hosts, now, steps);
      }
    } else if forall a, b :: a in hosts && b in hosts ==> a == b {
      forall steps ensures AtMostOneLeader(Run(Boot(hosts, now), steps)) {
        RunKeepsHosts(Boot(hosts, now), steps);
      }
    } else {
      var b :| b in hosts && !ObjectIdValid(b);
      var x, y :| x in hosts && y in hosts && x != y;
      var steps := TakeoverRun(hosts, now, if x == b then y else x, b);
      assert !AtMostOneLeader(Run(Boot(hosts, now), steps));
    }
  }

  // ---- The refresh as the host executes it ----

  /** What becomes of one store request. */
  datatype Delivery = Answered | RequestLost | ReplyLost

  /** A request after its travel time, and the reply after its own. */
  function Request(w: World, h: HostId, there: nat, back: nat, d: Delivery): World {
    var sent := Take(w, Tick(there));
    var done := if d.RequestLost? then sent else Take(sent, Execute(h));
    if d.Answered? then Take(done, Tick(back)) else Take(Take(done, Tick(back)), Lose(h))
  }

  /** One refresh of one host: the protocol steps it takes, in order. */
  function Refresh(w: World, h: HostId, t: seq<nat>, first: Delivery, second: Delivery): World
    requires |t| == 4 && h in w.nodes
  {
    var asked := Take(Request(Take(w, Begin(h)), h, t[0], t[1], first), Reply(h));
    if asked.nodes[h].phase == Acquiring then Take(Request(asked, h, t[2], t[3], second), Reply(h)) else asked
  }

  /** A refresh is one of the interleavings the safety theorem speaks about. */
  lemma RefreshIsRun(w: World, h: HostId, t: seq<nat>, first: Delivery, second: Delivery) returns (steps: seq<Step>)
    requires |t| == 4 && h in w.nodes
    ensures Run(w, steps) == Refresh(w, h, t, first, second)
  {
    KeepsHosts(w, h, t, first);
    hide Take, Request;
    var w1 := Take(w, Begin(h));
    var s1 := RequestIsRun(w1, h, t[0], t[1], first);
    OneStep(w, Begin(h));
    RunSplit(w, [Begin(h)], s1);
    steps := [Begin(h)] + s1 + [Reply(h)];
    RunSplit(w, [Begin(h)] + s1, [Reply(h)]);
    var sent := Request(w1, h, t[0], t[1], first);
    OneStep(sent, Reply(h));
    var asked := Take(sent, Reply(h));
    if asked.nodes[h].phase == Acquiring {
      var s2 := RequestIsRun(asked, h, t[2], t[3], second);
      RunSplit(w, steps, s2);
      RunSplit(w, steps + s2, [Reply(h)]);
      OneStep(Request(asked, h, t[2], t[3], second), Reply(h));
      steps := steps + s2 + [Reply(h)];
    }
  }

  lemma KeepsHosts(w: World, h: HostId, t: seq<nat>, d: Delivery)
    requires |t| == 4 && h in w.nodes
    ensures h in Take(Request(Take(w, Begin(h)), h, t[0], t[1], d), Reply(h)).nodes
  {
  }

  lemma RequestIsRun(w: World, h: HostId, there: nat, back: nat, d: Delivery) returns (steps: seq<Step>)
    ensures Run(w, steps) == Request(w, h, there, back, d)
  {
    var middle := if d.RequestLost? then [] else [Execute(h)];
    var end := if d.Answered? then [] else [Lose(h)];
    RunSplit(w, [Tick(there)], middle);
    RunSplit(w, [Tick(there)] + middle, [Tick(back)]);
    RunSplit(w, [Tick(there)] + middle + [Tick(back)], end);
    steps := [Tick(there)] + middle + [Tick(back)] + end;
  }

  function Solo(now: int, writes: seq<Record>, late: set<HostId>, h: HostId, node: Node): World {
    World(now, writes, map[h := node], late)
  }

  lemma SoloRequest(now: int, writes: seq<Record>, late: set<HostId>, h: HostId, node: Node,
                    there: nat, back: nat, d: Delivery)
    requires node.phase == Renewing || node.phase == Acquiring || node.phase == Reading
    ensures var sentAt := now + there;
            var write := node.phase != Reading && !d.RequestLost? && CanWrite(writes, h, sentAt);
            var rec := NewRecord(writes, h, sentAt);
            var replied :=
              if !d.Answered? then Idle
              else if node.phase == Reading then
                if Live(writes, sentAt) then Observed(writes[|writes| - 1]) else Absent
              else if !write then Idle
              else if node.phase == Renewing then Renewed(rec) else Acquired(rec);
            Request(Solo(now, writes, late, h, node), h, there, back, d)
            == Solo(sentAt + back, if write then writes + [rec] else writes,
                    if node.phase != Reading && d.RequestLost? then late + {h} else late,
                    h, node.(phase := replied))
  {
    var sent := Take(Solo(now, writes, late, h, node), Tick(there));
    assert sent == Solo(now + there, writes, late, h, node);
    var done := if d.RequestLost? then sent else Take(sent, Execute(h));
    var after := Take(done, Tick(back));
    assert after.now == now + there + back;
    if !d.Answered? {
      assert Take(after, Lose(h)).nodes == map[h := node.(phase := Idle)];
    }
  }

  lemma SoloBegin(now: int, writes: seq<Record>, late: set<HostId>, h: HostId, local: Local)
    ensures Take(Solo(now, writes, late, h, Node(local, Idle)), Begin(h))
            == Solo(now, writes, late, h, Node(local, if Leads(local, h, now) then Renewing else Reading))
  {
  }

  lemma SoloReply(now: int, writes: seq<Record>, late: set<HostId>, h: HostId, node: Node)
    ensures Take(Solo(now, writes, late, h, node), Reply(h)) == Solo(now, writes, late, h, ReplyNode(node, h))
  {
  }

  /** What one refresh does to the store, and to the variables of the host. */
  datatype Outcome = Outcome(now: int, writes: seq<Record>, late: set<HostId>, local: Local)

  /** A write request sent by a host: given up on the way there or on the way back, or answered. */
  function WriteOutcome(o: Outcome, h: HostId, there: nat, back: nat, d: Delivery): Outcome {
    var arrives := o.now + there;
    o.(now := arrives + back,
       writes := if !d.RequestLost? && CanWrite(o.writes, h, arrives) then o.writes + [NewRecord(o.writes, h, arrives)]
                 else o.writes,
       late := if d.RequestLost? then o.late + {h} else o.late)
  }

  predicate Granted(o: Outcome, h: HostId, there: nat, d: Delivery) {
    d.Answered? && CanWrite(o.writes, h, o.now + there)
  }

  function RenewOutcome(o: Outcome, h: HostId, t: seq<nat>, d: Delivery): Outcome
    requires |t| == 4
  {
    var rec := NewRecord(o.writes, h, o.now + t[0]);
    var local := if Granted(o, h, t[0], d) then o.local.(version := rec.version, updated := rec.updated) else o.local;
    WriteOutcome(o, h, t[0], t[1], d).(local := local)
  }

  function AcquireOutcome(o: Outcome, h: HostId, t: seq<nat>, d: Delivery): Outcome
    requires |t| == 4
  {
    var rec := NewRecord(o.writes, h, o.now + t[2]);
    var local := if Granted(o, h, t[2], d) then Local(h, rec.version, rec.updated) else o.local;
    WriteOutcome(o, h, t[2], t[3], d).(local := local)
  }

  function ElectOutcome(o: Outcome, h: HostId, t: seq<nat>, first: Delivery, second: Delivery): Outcome
    requires |t| == 4
  {
    var asked := o.(now := o.now + t[0] + t[1]);
    if !first.Answered? then asked
    else if Live(o.writes, o.now + t[0]) then asked.(local := Observe(o.local, o.writes[|o.writes| - 1]))
    else AcquireOutcome(asked, h, t, second)
  }

  /** A host that did not lead takes a record over, or has its own write granted. */
  predicate TakesOver(o: Outcome, h: HostId, t: seq<nat>, first: Delivery, second: Delivery)
    requires |t| == 4
  {
    first.Answered? &&
    if Live(o.writes, o.now + t[0]) then
      var rec := o.writes[|o.writes| - 1];
      ObjectIdValid(rec.holder) && (rec.holder != o.local.leader || rec.version > o.local.version)
    else Granted(o.(now := o.now + t[0] + t[1]), h, t[2], second)
  }

  function SoloOf(o: Outcome, h: HostId): World {
    Solo(o.now, o.writes, o.late, h, Node(o.local, Idle))
  }

  lemma RenewIsRefresh(o: Outcome, h: HostId, t: seq<nat>, first: Delivery, second: Delivery)
    requires |t| == 4 && Leads(o.local, h, o.now)
    ensures Refresh(SoloOf(o, h), h, t, first, second) == SoloOf(RenewOutcome(o, h, t, first), h)
  {
    hide Request, Take;
    SoloBegin(o.now, o.writes, o.late, h, o.local);
    var node := Node(o.local, Renewing);
    SoloRequest(o.now, o.writes, o.late, h, node, t[0], t[1], first);
    var asked := Request(Solo(o.now, o.writes, o.late, h, node), h, t[0], t[1], first);
    SoloReply(asked.now, asked.writes, asked.late, h, asked.nodes[h]);
  }

  lemma ElectIsRefresh(o: Outcome, h: HostId, t: seq<nat>, first: Delivery, second: Delivery)
    requires |t| == 4 && !Leads(o.local, h, o.now)
    ensures Refresh(SoloOf(o, h), h, t, first, second) == SoloOf(ElectOutcome(o, h, t, first, second), h)
  {
    hide Request, Take;
    SoloBegin(o.now, o.writes, o.late, h, o.local);
    var node := Node(o.local, Reading);
    SoloRequest(o.now, o.writes, o.late, h, node, t[0], t[1], first);
    var asked := Request(Solo(o.now, o.writes, o.late, h, node), h, t[0], t[1], first);
    SoloReply(asked.now, asked.writes, asked.late, h, asked.nodes[h]);
    if asked.nodes[h].phase == Absent {
      var wants := Node(o.local, Acquiring);
      SoloRequest(asked.now, asked.writes, asked.late, h, wants, t[2], t[3], second);
      var won := Request(Solo(asked.now, asked.writes, asked.late, h, wants), h, t[2], t[3], second);
      SoloReply(won.now, won.writes, won.late, h, won.nodes[h]);
    }
  }

  /** After taking over, the variables are the newest stored record; otherwise leader and version stay. */
  lemma TakeoverIsNews(o: Outcome, h: HostId, t: seq<nat>, first: Delivery, second: Delivery)
    requires |t| == 4
    ensures var next := ElectOutcome(o, h, t, first, second);
            if TakesOver(o, h, t, first, second) then
              && next.writes != []
              && next.writes[|next.writes| - 1] == Record(next.local.leader, next.local.version, next.local.updated)
              && (next.local.leader != o.local.leader || next.local.version != o.local.version
                   || |next.writes| > |o.writes|)
            else next.local.leader == o.local.leader && next.local.version == o.local.version
  {
  }

  /** Nothing is stored, it has expired, or it is the host's own. */
  predicate Open(writes: seq<Record>, h: HostId, at: int) {
    || writes == [] || at >= writes[|writes| - 1].updated + LEADER_TTL
    || writes[|writes| - 1].holder == h
  }

  /** The variables are those of the newest stored record, so belief and lease end together. */
  predicate HoldsNewest(local: Local, writes: seq<Record>, h: HostId) {
    && writes != [] && writes[|writes| - 1] == Record(local.leader, local.version, local.updated)
    && local.leader == h
  }

  lemma HolderFollowsLease(local: Local, writes: seq<Record>, h: HostId)
    requires HoldsNewest(local, writes, h)
    ensures forall later :: Leads(local, h, later) <==> Live(writes, later)
  {
  }

  /** What a renewal leaves: answered and granted, the host has the new record; otherwise it keeps what it knew. */
  lemma RenewLearns(o: Outcome, h: HostId, t: seq<nat>, d: Delivery)
    requires |t| == 4 && Leads(o.local, h, o.now)
    ensures var next, arrives := RenewOutcome(o, h, t, d), o.now + t[0];
            && next.now == arrives + t[1]
            && (if d.Answered? && Open(o.writes, h, arrives)
                then HoldsNewest(next.local, next.writes, h) && next.local.updated == arrives
                else next.local == o.local)
            && (if !d.RequestLost? && Open(o.writes, h, arrives)
                then |next.writes| == |o.writes| + 1 && o.writes <= next.writes
                     && next.writes[|o.writes|].holder == h && next.writes[|o.writes|].updated == arrives
                else next.writes == o.writes)
  {
  }

  /**
   What an election leaves. A live record is taken over, except for a malformed name
   and for a version that is known already; its write time always is. Without one
   the host is the leader if its own write is answered and granted.
   */
  lemma ElectLearns(o: Outcome, h: HostId, t: seq<nat>, first: Delivery, second: Delivery)
    requires |t| == 4
    ensures var next := ElectOutcome(o, h, t, first, second);
            var arrives, n := o.now + t[0] + t[1] + t[2], |o.writes|;
            if !first.Answered? then next.local == o.local && next.writes == o.writes
            else if n > 0 && o.now + t[0] < o.writes[n - 1].updated + LEADER_TTL then
              var rec := o.writes[n - 1];
              && next.writes == o.writes && next.local.updated == rec.updated
              && (if ObjectIdValid(rec.holder)
                  then next.local.leader == rec.holder
                       && (|| next.local.version == rec.version
                           || (o.local.leader == rec.holder && next.local.version == o.local.version > rec.version))
                  else next.local.leader == o.local.leader && next.local.version == o.local.version)
            else if second.Answered? && Open(o.writes, h, arrives) then
              HoldsNewest(next.local, next.writes, h) && next.local.updated == arrives && |next.writes| == n + 1
            else next.local == o.local
  {
  }

  /** The store key with its clock. */
  class LeaseStore {
    var now: int
    var row: Option<Record>
    ghost var writes: seq<Record>
    /** The hosts with a write request under way that they have given up. */
    ghost var late: set<HostId>

    ghost predicate Valid()
      reads this
    {
      row == if writes == [] then None else Some(writes[|writes| - 1])
    }

    constructor (start: int)
      ensures Valid() && writes == [] && late == {} && now == start
    {
      now, row, writes, late := start, None, [], {};
    }

    method Wait(ms: nat)
      requires Valid()
      modifies this
      ensures Valid() && now == old(now) + ms && writes == old(writes) && late == old(late)
    {
      now := now + ms;
    }

    method Read() returns (r: Option<Record>)
      requires Valid()
      ensures r == if Live(writes, now) then Some(writes[|writes| - 1]) else None
      ensures r.Some? <==> writes != [] && now < writes[|writes| - 1].updated + LEADER_TTL
    {
      r := if row.Some? && now < row.value.updated + LEADER_TTL then row else None;
    }

    method Write(host: HostId) returns (r: Option<Record>)
      requires Valid()
      modifies this
      ensures Valid() && now == old(now) && late == old(late)
      ensures r == if CanWrite(old(writes), host, now) then Some(NewRecord(old(writes), host, now)) else None
      ensures writes == if r.Some? then old(writes) + [r.value] else old(writes)
      ensures r.Some? <==>
                || old(writes) == [] || now >= old(writes)[|old(writes)| - 1].updated + LEADER_TTL
                || old(writes)[|old(writes)| - 1].holder == host
      ensures r.Some? ==> r.value.holder == host && r.value.updated == now
      ensures r.Some? && old(writes) != [] ==> r.value.version == old(writes)[|old(writes)| - 1].version + 1
    {
      if row.Some? && now < row.value.updated + LEADER_TTL && row.value.holder != host {
        return None;
      }
      var rec := Record(host, if row.None? then 1 else row.value.version + 1, now);
      row, writes := Some(rec), writes + [rec];
      r := Some(rec);
    }
  }

  /** The process-wide leader variables. */
  class Zonelet {
    const hostId: HostId
    const zoneName: string
    var leader: HostId
    var version: nat
    var updated: int

    constructor (hostId: HostId, zoneName: string)
      ensures this.hostId == hostId && this.zoneName == zoneName && Vars() == FRESH
    {
      this.hostId, this.zoneName := hostId, zoneName;
      leader, version, updated := "", 0, 0;
    }

    function Vars(): Local
      reads this
    {
      Local(leader, version, updated)
    }

    predicate IsLeader(now: int)
      reads this
      ensures IsLeader(now) <==> Leads(Vars(), hostId, now)
    {
      leader == hostId && updated + LEADER_TTL > now
    }

    ghost function State(store: LeaseStore): Outcome
      reads this, store
    {
      Outcome(store.now, store.writes, store.late, Vars())
    }

    /** The part of the world this host and the store make up. */
    ghost function View(store: LeaseStore): World
      reads this, store
    {
      SoloOf(State(store), hostId)
    }

    /** Sends one request: after its travel time the store writes, unless the request is lost or late. */
    method SendWrite(store: LeaseStore, there: nat, back: nat, d: Delivery) returns (r: Option<Record>)
      requires store.Valid()
      modifies store
      ensures store.Valid() && State(store) == WriteOutcome(old(State(store)), hostId, there, back, d)
      ensures r == if Granted(old(State(store)), hostId, there, d)
                   then Some(NewRecord(old(store.writes), hostId, old(store.now) + there)) else None
    {
      store.Wait(there);
      r := None;
      if !d.RequestLost? {
        r := store.Write(hostId);
      }
      store.Wait(back);
      if d.RequestLost? {
        store.late := store.late + {hostId};
      }
      if !d.Answered? {
        r := None;
      }
    }

    method Renew(store: LeaseStore, t: seq<nat>, d: Delivery)
      requires store.Valid() && |t| == 4
      modifies this, store
      ensures store.Valid()
      ensures State(store) == RenewOutcome(old(State(store)), hostId, t, d)
      ensures var arrives := old(store.now) + t[0];
              if d.Answered? && Open(old(store.writes), hostId, arrives)
              then store.writes != [] && store.writes[|store.writes| - 1] == Record(hostId, version, updated)
                   && leader == old(leader) && updated == arrives
              else Vars() == old(Vars())
    {
      var rs := SendWrite(store, t[0], t[1], d);
      if rs.Some? {
        version, updated := rs.value.version, rs.value.updated;
      }
    }

    method Elect(store: LeaseStore, t: seq<nat>, first: Delivery, second: Delivery) returns (force: bool)
      requires store.Valid() && |t| == 4
      modifies this, store
      ensures store.Valid()
      ensures State(store) == ElectOutcome(old(State(store)), hostId, t, first, second)
      ensures force <==> TakesOver(old(State(store)), hostId, t, first, second)
    {
      hide NewRecord, ObjectIdValid, CanWrite, WriteOutcome, Granted;
      force := false;
      store.Wait(t[0]);
      var rs := None;
      if !first.RequestLost? {
        rs := store.Read();
      }
      store.Wait(t[1]);
      if !first.Answered? {
        return;
      }
      if rs.None? {
        var rs2 := SendWrite(store, t[2], t[3], second);
        if rs2.Some? {
          leader, version, updated := hostId, rs2.value.version, rs2.value.updated;
          force := true;
        }
        return;
      }
      var rec := rs.value;
      if ObjectIdValid(rec.holder) && (rec.holder != leader || rec.version > version) {
        leader, version := rec.holder, rec.version;
        force := true;
      }
      updated := rec.updated;
    }

    /**
     One refresh. The travel times and the fate of the requests are arbitrary; the
     outcome is that of the protocol steps. A refresh of everything that depends on
     the leader is forced exactly when a host that did not lead took over a newer
     record or was granted the lease, and then its variables are the stored record.
     */
    method LeaderRefresh(store: LeaseStore, t: seq<nat>, first: Delivery, second: Delivery) returns (force: bool)
      requires store.Valid() && |t| == 4
      modifies this, store
      ensures store.Valid()
      ensures View(store) ==
                if zoneName == "" then old(View(store)) else Refresh(old(View(store)), hostId, t, first, second)
      ensures force <==> zoneName != "" && !old(IsLeader(store.now))
                         && TakesOver(old(State(store)), hostId, t, first, second)
      ensures force ==> store.writes != [] && store.writes[|store.writes| - 1] == Record(leader, version, updated)
      ensures force ==> leader != old(leader) || version != old(version) || |store.writes| > |old(store.writes)|
      ensures !force && !old(IsLeader(store.now)) ==> leader == old(leader) && version == old(version)
      ensures zoneName != "" && old(IsLeader(store.now)) ==>
                if first.Answered? && Open(old(store.writes), hostId, old(store.now) + t[0])
                then store.writes != [] && store.writes[|store.writes| - 1] == Record(leader, version, updated)
                     && leader == hostId && updated == old(store.now) + t[0]
                else Vars() == old(Vars())
      ensures zoneName != "" && !old(IsLeader(store.now)) && !first.Answered? ==> Vars() == old(Vars())
      ensures zoneName != "" && !old(IsLeader(store.now)) && first.Answered?
              && Live(old(store.writes), old(store.now) + t[0]) ==>
                updated == old(store.writes)[|old(store.writes)| - 1].updated
      ensures store.writes != [] && leader == hostId
              && store.writes[|store.writes| - 1] == Record(hostId, version, updated) ==>
                forall later :: IsLeader(later) <==> Live(store.writes, later)
    {
      hide RenewOutcome, ElectOutcome, TakesOver, Refresh, ObjectIdValid, NewRecord, CanWrite;
      force := false;
      if zoneName == "" {
        return;
      }
      if IsLeader(store.now) {
        RenewIsRefresh(State(store), hostId, t, first, second);
        RenewLearns(State(store), hostId, t, first);
        Renew(store, t, first);
      } else {
        ElectIsRefresh(State(store), hostId, t, first, second);
        TakeoverIsNews(State(store), hostId, t, first, second);
        ElectLearns(State(store), hostId, t, first, second);
        force := Elect(store, t, first, second);
      }
    }
  }
}
