/**
 What the scheduler works on: instances whose replicas are placed on hosts and claim
 host ports there, how bindings are found for the ports of a spec, and what is
 allocated on a host.
 */
module Scheduler {
  import opened HostPorts

  datatype Port = Port(name: string, port: nat, hostPort: nat)

  /** hostId empty: not placed yet. */
  datatype Replica = Replica(id: nat, hostId: string, ports: seq<Port>)

  datatype SpecPort = SpecPort(name: string, port: nat)

  datatype Alloc = Alloc(cpu: int, mem: int, vol: int) {
    function Plus(other: Alloc): Alloc {
      Alloc(cpu + other.cpu, mem + other.mem, vol + other.vol)
    }
  }

  const NOTHING := Alloc(0, 0, 0)

  datatype App = App(name: string, deleted: bool, spec: seq<SpecPort>, cap: nat, limit: Alloc, replicas: seq<Replica>)

  // ---- Claims on host ports ----

  function CountPorts(ports: seq<Port>, p: nat): nat
    decreases |ports|
  {
    if ports == [] then 0
    else CountPorts(ports[..|ports| - 1], p) + if ports[|ports| - 1].hostPort == p then 1 else 0
  }

  function CountReplica(rep: Replica, h: string, p: nat): nat {
    if rep.hostId == h then CountPorts(rep.ports, p) else 0
  }

  function CountReplicas(reps: seq<Replica>, h: string, p: nat): nat
    decreases |reps|
  {
    if reps == [] then 0
    else CountReplicas(reps[..|reps| - 1], h, p) + CountReplica(reps[|reps| - 1], h, p)
  }

  /** A deleted instance claims nothing. */
  function CountApp(app: App, h: string, p: nat): nat {
    if app.deleted then 0 else CountReplicas(app.replicas, h, p)
  }

  function CountApps(apps: seq<App>, h: string, p: nat): nat
    decreases |apps|
  {
    if apps == [] then 0
    else CountApps(apps[..|apps| - 1], h, p) + CountApp(apps[|apps| - 1], h, p)
  }

  /** No host port of a host is claimed twice, by two replicas or by one. */
  ghost predicate Disjoint(apps: seq<App>) {
    forall h: string, p: nat :: h != "" && p > 0 ==> CountApps(apps, h, p) <= 1
  }

  /** The port list of every host holds all that is claimed on it. */
  ghost predicate Covered(apps: seq<App>, used: map<string, seq<nat>>) {
    forall h: string, p: nat :: h in used && p > 0 && CountApps(apps, h, p) > 0 ==> p in used[h]
  }

  lemma {:induction false} CountReplicasUpdate(reps: seq<Replica>, i: nat, rep: Replica, h: string, p: nat)
    requires i < |reps|
    ensures CountReplicas(reps[i := rep], h, p)
            == CountReplicas(reps, h, p) - CountReplica(reps[i], h, p) + CountReplica(rep, h, p)
    ensures CountReplica(reps[i], h, p) <= CountReplicas(reps, h, p)
    decreases |reps|
  {
    var n := |reps| - 1;
    if i < n {
      assert reps[i := rep][..n] == reps[..n][i := rep];
      CountReplicasUpdate(reps[..n], i, rep, h, p);
    } else {
      assert reps[i := rep][..n] == reps[..n];
    }
  }

  lemma {:induction false} CountAppsUpdate(apps: seq<App>, i: nat, app: App, h: string, p: nat)
    requires i < |apps|
    ensures CountApps(apps[i := app], h, p) == CountApps(apps, h, p) - CountApp(apps[i], h, p) + CountApp(app, h, p)
    ensures CountApp(apps[i], h, p) <= CountApps(apps, h, p)
    decreases |apps|
  {
    hide CountApp;
    var n := |apps| - 1;
    if i < n {
      assert apps[i := app][..n] == apps[..n][i := app];
      CountAppsUpdate(apps[..n], i, app, h, p);
    } else {
      assert apps[i := app][..n] == apps[..n];
    }
  }

  lemma {:induction false} PortsCounted(ports: seq<Port>, a: nat, b: nat, p: nat)
    requires a <= b < |ports| && ports[a].hostPort == p && ports[b].hostPort == p
    ensures CountPorts(ports, p) >= if a == b then 1 else 2
    decreases |ports|
  {
    var n := |ports| - 1;
    if b < n {
      PortsCounted(ports[..n], a, b, p);
    } else if a < n {
      PortsCounted(ports[..n], a, a, p);
    }
  }

  lemma TwoReplicas(reps: seq<Replica>, k: nat, l: nat, h: string, p: nat)
    requires k < |reps| && l < |reps| && k != l
    ensures CountReplica(reps[k], h, p) + CountReplica(reps[l], h, p) <= CountReplicas(reps, h, p)
  {
    hide CountReplicas;
    var none := reps[k].(ports := []);
    CountReplicasUpdate(reps, k, none, h, p);
    CountReplicasUpdate(reps[k := none], l, none, h, p);
  }

  lemma TwoApps(apps: seq<App>, i: nat, j: nat, h: string, p: nat)
    requires i < |apps| && j < |apps| && i != j
    ensures CountApp(apps[i], h, p) + CountApp(apps[j], h, p) <= CountApps(apps, h, p)
  {
    hide CountApps, CountReplicas;
    var none := apps[i].(deleted := true);
    CountAppsUpdate(apps, i, none, h, p);
    CountAppsUpdate(apps[i := none], j, none, h, p);
  }

  /** Replica k of live instance i is on host h and binds port p by its entry a. */
  ghost predicate Claims(apps: seq<App>, i: nat, k: nat, a: nat, h: string, p: nat) {
    && i < |apps| && !apps[i].deleted && k < |apps[i].replicas| && apps[i].replicas[k].hostId == h
    && a < |apps[i].replicas[k].ports| && apps[i].replicas[k].ports[a].hostPort == p
  }

  /** What disjointness means: one host port of one host has one claim. */
  lemma OneClaim(apps: seq<App>, h: string, p: nat, i: nat, k: nat, a: nat, j: nat, l: nat, b: nat)
    requires Disjoint(apps) && h != "" && p > 0
    requires Claims(apps, i, k, a, h, p) && Claims(apps, j, l, b, h, p)
    ensures i == j && k == l && a == b
  {
    hide CountApps, CountReplicas, CountPorts;
    var ri, rj := apps[i].replicas, apps[j].replicas;
    PortsCounted(ri[k].ports, a, a, p);
    PortsCounted(rj[l].ports, b, b, p);
    CountReplicasUpdate(ri, k, ri[k], h, p);
    CountReplicasUpdate(rj, l, rj[l], h, p);
    CountAppsUpdate(apps, i, apps[i], h, p);
    if i != j {
      TwoApps(apps, i, j, h, p);
    } else if k != l {
      TwoReplicas(ri, k, l, h, p);
    } else if a != b {
      PortsCounted(ri[k].ports, if a < b then a else b, if a < b then b else a, p);
    }
  }

  function WithReplica(app: App, k: nat, rep: Replica): App
    requires k < |app.replicas|
  {
    app.(replicas := app.replicas[k := rep])
  }

  /**
   What binding ports may do to a replica: a port that the host's list held before
   is claimed no more often than it was, another one at most once, and the list
   grows by what is claimed.
   */
  ghost predicate Bound(before: Replica, after: Replica, listed: seq<nat>, grown: seq<nat>) {
    && |listed| <= |grown|
    && after.id == before.id && (before.hostId != "" ==> after.hostId == before.hostId)
    && (forall p: nat :: p in listed ==> p in grown)
    && (forall p: nat :: p > 0 && p in listed ==>
          CountPorts(after.ports, p) <= if before.hostId != "" then CountPorts(before.ports, p) else 0)
    && (forall p: nat :: p > 0 && p !in listed ==> CountPorts(after.ports, p) <= 1)
    && (forall p: nat :: p > 0 && p !in grown ==> CountPorts(after.ports, p) == 0)
  }

  /** No instance claims a port twice by itself. */
  ghost predicate Own(apps: seq<App>) {
    forall i: nat, h: string, p: nat :: i < |apps| && h != "" && p > 0 ==> CountApp(apps[i], h, p) <= 1
  }

  /** A port with several claims had as many before. */
  ghost predicate NoNewConflict(before: seq<App>, after: seq<App>) {
    forall h: string, p: nat :: h != "" && p > 0 ==>
      CountApps(after, h, p) <= 1 || CountApps(after, h, p) <= CountApps(before, h, p)
  }

  lemma NoNewConflictChain(a: seq<App>, b: seq<App>, c: seq<App>)
    requires NoNewConflict(a, b) && NoNewConflict(b, c)
    ensures NoNewConflict(a, c)
  {
    hide CountApps;
  }

  /**
   Binding ports that the host's list did not hold makes no port claimed twice that
   was not, and the list covers all claims again.
   */
  lemma BindKeeps(apps: seq<App>, used: map<string, seq<nat>>, i: nat, k: nat, after: Replica, grown: seq<nat>)
    requires Covered(apps, used) && "" !in used
    requires i < |apps| && !apps[i].deleted && k < |apps[i].replicas|
    requires after.hostId in used && Bound(apps[i].replicas[k], after, used[after.hostId], grown)
    ensures var changed := apps[i := WithReplica(apps[i], k, after)];
            NoNewConflict(apps, changed) && Covered(changed, used[after.hostId := grown])
                && (Own(apps) ==> Own(changed))
  {
    hide CountReplicas, CountPorts, CountApps;
    var before, changed := apps[i].replicas[k], apps[i := WithReplica(apps[i], k, after)];
    forall h: string, p: nat | h != "" && p > 0
      ensures CountApps(changed, h, p) <= 1 || CountApps(changed, h, p) <= CountApps(apps, h, p)
      ensures h in used[after.hostId := grown] && CountApps(changed, h, p) > 0 ==> p in used[after.hostId := grown][h]
      ensures CountApp(changed[i], h, p) <= 1 || CountApp(changed[i], h, p) <= CountApp(apps[i], h, p)
    {
      CountReplicasUpdate(apps[i].replicas, k, after, h, p);
      CountAppsUpdate(apps, i, WithReplica(apps[i], k, after), h, p);
    }
  }

  // ---- Collecting ports ----

  function Entries(m: map<string, seq<nat>>, h: string): seq<nat> {
    if h in m then m[h] else []
  }

  method AddPorts(listed: seq<nat>, ports: seq<Port>) returns (all: seq<nat>)
    ensures forall p: nat :: p in all <==> p in listed || (p > 0 && CountPorts(ports, p) > 0)
  {
    all := listed;
    for i := 0 to |ports|
      invariant forall p: nat :: p in all <==> p in listed || (p > 0 && CountPorts(ports[..i], p) > 0)
    {
      assert ports[..i + 1][..i] == ports[..i];
      if ports[i].hostPort > 0 && ports[i].hostPort !in all {
        all := all + [ports[i].hostPort];
      }
    }
    assert ports[..|ports|] == ports;
  }

  method AddReplicas(m: map<string, seq<nat>>, reps: seq<Replica>) returns (all: map<string, seq<nat>>)
    requires "" !in m
    ensures "" !in all
    ensures forall h: string, p: nat :: h != "" ==>
              (p in Entries(all, h) <==> p in Entries(m, h) || (p > 0 && CountReplicas(reps, h, p) > 0))
  {
    hide CountPorts;
    all := m;
    for i := 0 to |reps|
      invariant "" !in all
      invariant forall h: string, p: nat :: h != "" ==>
                  (p in Entries(all, h) <==> p in Entries(m, h) || (p > 0 && CountReplicas(reps[..i], h, p) > 0))
    {
      assert reps[..i + 1][..i] == reps[..i];
      if reps[i].hostId == "" {
        continue;
      }
      var listed := AddPorts(Entries(all, reps[i].hostId), reps[i].ports);
      all := all[reps[i].hostId := listed];
    }
    assert reps[..|reps|] == reps;
  }

  /** The host ports claimed on every host. */
  method CollectPorts(apps: seq<App>) returns (m: map<string, seq<nat>>)
    ensures "" !in m
    ensures forall h: string, p: nat :: h != "" ==> (p in Entries(m, h) <==> p > 0 && CountApps(apps, h, p) > 0)
  {
    hide CountReplicas;
    m := map[];
    for i := 0 to |apps|
      invariant "" !in m
      invariant forall h: string, p: nat :: h != "" ==>
                (p in Entries(m, h) <==> p > 0 && CountApps(apps[..i], h, p) > 0)
    {
      assert apps[..i + 1][..i] == apps[..i];
      if apps[i].deleted {
        continue;
      }
      m := AddReplicas(m, apps[i].replicas);
    }
    assert apps[..|apps|] == apps;
  }

  // ---- Binding ports ----

  predicate HasPort(ports: seq<Port>, port: nat) {
    exists i :: 0 <= i < |ports| && ports[i].port == port
  }

  predicate HasBinding(ports: seq<Port>, port: nat) {
    exists i :: 0 <= i < |ports| && ports[i].port == port && ports[i].hostPort > 0
  }

  /** The bindings that the spec still asks for, one per port. */
  function Kept(ports: seq<Port>, wanted: map<nat, string>): (kept: seq<Port>)
    ensures forall i :: 0 <= i < |kept| ==> kept[i].port in wanted && kept[i].hostPort > 0
    ensures forall i, j :: 0 <= i < j < |kept| ==> kept[i].port != kept[j].port
    decreases |ports|
  {
    if ports == [] then []
    else
      var before, last := Kept(ports[..|ports| - 1], wanted), ports[|ports| - 1];
      if last.port in wanted && last.hostPort > 0 && !HasPort(before, last.port) then before + [last] else before
  }

  lemma {:induction false} KeptCount(ports: seq<Port>, wanted: map<nat, string>, p: nat)
    ensures CountPorts(Kept(ports, wanted), p) <= CountPorts(ports, p)
    decreases |ports|
  {
    if ports != [] {
      var before, last := Kept(ports[..|ports| - 1], wanted), ports[|ports| - 1];
      KeptCount(ports[..|ports| - 1], wanted, p);
      assert (before + [last])[..|before|] == before;
    }
  }

  lemma {:induction false} KeptMembers(ports: seq<Port>, wanted: map<nat, string>, port: Port)
    requires port in Kept(ports, wanted)
    ensures port in ports
    decreases |ports|
  {
    if port != ports[|ports| - 1] {
      KeptMembers(ports[..|ports| - 1], wanted, port);
    }
  }

  /** A kept port is bound, in the kept list and in the old one. */
  lemma KeptBindings(ports: seq<Port>, wanted: map<nat, string>)
    ensures forall port :: HasPort(Kept(ports, wanted), port) ==>
            HasBinding(Kept(ports, wanted), port) && HasBinding(ports, port)
  {
    var kept := Kept(ports, wanted);
    forall port | HasPort(kept, port) ensures HasBinding(kept, port) && HasBinding(ports, port) {
      var i :| 0 <= i < |kept| && kept[i].port == port;
      KeptMembers(ports, wanted, kept[i]);
    }
  }

  /** Every binding is a wanted one: an old one, or one of the wanted name on a port that was not listed. */
  ghost predicate Sourced(ports: seq<Port>, before: seq<Port>, wanted: map<nat, string>, listed: seq<nat>) {
    forall b :: b in ports ==> b.port in wanted && (b in before || (b.name == wanted[b.port] && b.hostPort !in listed))
  }

  /** There is a real binding of its port before it. */
  ghost predicate Repeated(ports: seq<Port>, i: nat)
    requires i < |ports|
  {
    exists j :: 0 <= j < i && ports[j].hostPort > 0 && ports[j].port == ports[i].port
  }

  /** Of the real bindings of a wanted port the first stays. */
  ghost predicate FirstsStay(before: seq<Port>, wanted: map<nat, string>, ports: seq<Port>) {
    forall i :: 0 <= i < |before| && before[i].port in wanted && before[i].hostPort > 0 && !Repeated(before, i) ==>
      before[i] in ports
  }

  lemma {:induction false} KeptSourced(ports: seq<Port>, wanted: map<nat, string>, listed: seq<nat>)
    ensures Sourced(Kept(ports, wanted), ports, wanted, listed)
    ensures FirstsStay(ports, wanted, Kept(ports, wanted))
    decreases |ports|
  {
    var kept := Kept(ports, wanted);
    forall b | b in kept
      ensures b in ports && b.port in wanted
    {
      KeptMembers(ports, wanted, b);
      var k :| 0 <= k < |kept| && kept[k] == b;
    }
    if ports != [] {
      var n := |ports| - 1;
      KeptSourced(ports[..n], wanted, listed);
      KeptFirst(ports, wanted);
    }
  }

  lemma KeptFirst(ports: seq<Port>, wanted: map<nat, string>)
    requires ports != [] && FirstsStay(ports[..|ports| - 1], wanted, Kept(ports[..|ports| - 1], wanted))
    ensures FirstsStay(ports, wanted, Kept(ports, wanted))
  {
    hide Kept, Repeated;
    var n := |ports| - 1;
    var front, kept := ports[..n], Kept(ports, wanted);
    forall i | 0 <= i < |ports| && ports[i].port in wanted && ports[i].hostPort > 0 && !Repeated(ports, i)
      ensures ports[i] in kept
    {
      if i < n {
        RepeatedFront(ports, i);
        assert front[i] == ports[i];
        KeptGrows(ports, wanted, ports[i]);
      } else {
        LastKept(ports, wanted);
      }
    }
  }

  lemma KeptGrows(ports: seq<Port>, wanted: map<nat, string>, b: Port)
    requires ports != [] && b in Kept(ports[..|ports| - 1], wanted)
    ensures b in Kept(ports, wanted)
  {
  }

  lemma LastKept(ports: seq<Port>, wanted: map<nat, string>)
    requires ports != [] && ports[|ports| - 1].port in wanted && ports[|ports| - 1].hostPort > 0
    requires !Repeated(ports, |ports| - 1)
    ensures ports[|ports| - 1] in Kept(ports, wanted)
  {
    KeptIsThere(ports[..|ports| - 1], wanted, ports[|ports| - 1].port);
  }

  lemma KeptIsThere(ports: seq<Port>, wanted: map<nat, string>, port: nat)
    ensures HasPort(Kept(ports, wanted), port) ==>
              exists j :: 0 <= j < |ports| && ports[j].hostPort > 0 && ports[j].port == port
  {
    var kept := Kept(ports, wanted);
    forall k | 0 <= k < |kept| && kept[k].port == port
      ensures kept[k] in ports
    {
      KeptMembers(ports, wanted, kept[k]);
    }
  }

  lemma RepeatedFront(ports: seq<Port>, i: nat)
    requires i < |ports| - 1
    ensures Repeated(ports[..|ports| - 1], i) <==> Repeated(ports, i)
  {
    var front := ports[..|ports| - 1];
    assert forall j :: 0 <= j <= i ==> front[j] == ports[j];
  }

  lemma SourcedMore(ports: seq<Port>, all: seq<Port>, before: seq<Port>, wanted: map<nat, string>, listed: seq<nat>,
                    used: seq<nat>)
    requires Sourced(ports, before, wanted, listed) && |all| == |ports| + 1 && all[..|ports|] == ports
    requires var b := all[|ports|]; b.port in wanted && b.name == wanted[b.port] && b.hostPort !in used
    requires forall p :: p in listed ==> p in used
    ensures Sourced(all, before, wanted, listed)
  {
    assert all == ports + [all[|ports|]];
  }

  lemma FirstsStayMore(before: seq<Port>, wanted: map<nat, string>, ports: seq<Port>, all: seq<Port>)
    requires FirstsStay(before, wanted, ports) && |ports| <= |all| && all[..|ports|] == ports
    ensures FirstsStay(before, wanted, all)
  {
    assert all == ports + all[|ports|..];
  }

  lemma AllStay(before: seq<Port>, wanted: map<nat, string>)
    ensures FirstsStay(before, wanted, before)
  {
  }

  /** As many kept as wanted: all wanted ports are kept. */
  lemma AllKept(kept: seq<Port>, wanted: map<nat, string>)
    requires |kept| == |wanted| && forall i :: 0 <= i < |kept| ==> kept[i].port in wanted
    requires forall i, j :: 0 <= i < j < |kept| ==> kept[i].port != kept[j].port
    ensures forall port :: port in wanted ==> HasPort(kept, port)
  {
    var ports := set port | port in wanted && HasPort(kept, port);
    PortCount(kept, ports);
    forall port | port in wanted
      ensures HasPort(kept, port)
    {
      if !HasPort(kept, port) {
        SubsetSize(ports, wanted.Keys - {port});
      }
    }
  }

  lemma {:induction false} PortCount(kept: seq<Port>, ports: set<nat>)
    requires forall i :: 0 <= i < |kept| ==> kept[i].port in ports
    requires forall i, j :: 0 <= i < j < |kept| ==> kept[i].port != kept[j].port
    requires forall port :: port in ports ==> HasPort(kept, port)
    ensures |ports| == |kept|
  {
    if kept == [] {
      assert ports == {};
    } else {
      var tail := kept[1..];
      assert forall i :: 0 <= i < |tail| ==> tail[i] == kept[i + 1];
      forall port | port in ports - {kept[0].port} ensures HasPort(tail, port) {
        var i :| 0 <= i < |kept| && kept[i].port == port;
        assert tail[i - 1].port == port;
      }
      PortCount(tail, ports - {kept[0].port});
    }
  }

  lemma CountAppend(ports: seq<Port>, port: Port, p: nat)
    ensures CountPorts(ports + [port], p) == CountPorts(ports, p) + if port.hostPort == p then 1 else 0
  {
    assert (ports + [port])[..|ports|] == ports;
  }

  /** The last entry for the port has this name. */
  ghost predicate LastNamed(spec: seq<SpecPort>, port: nat, name: string) {
    exists i :: 0 <= i < |spec| && spec[i] == SpecPort(name, port)
                && forall j :: i < j < |spec| ==> spec[j].port != port
  }

  /** The container ports of a spec: valid ones, a repeated one by its last entry. */
  method WantedPorts(spec: seq<SpecPort>) returns (wanted: map<nat, string>)
    ensures forall port :: port in wanted <==> exists i :: 0 <= i < |spec| && spec[i].port == port && 1 <= port < 65536
    ensures forall port :: port in wanted ==> LastNamed(spec, port, wanted[port])
  {
    wanted := map[];
    for i := 0 to |spec|
      invariant forall port :: port in wanted <==> exists k :: 0 <= k < i && spec[k].port == port && 1 <= port < 65536
      invariant forall port :: port in wanted ==> LastNamed(spec[..i], port, wanted[port])
    {
      assert spec[..i + 1] == spec[..i] + [spec[i]];
      if spec[i].port < 1 || spec[i].port >= 65536 {
        continue;
      }
      wanted := wanted[spec[i].port := spec[i].name];
    }
    assert spec[..|spec|] == spec;
  }

  /** What adding bindings keeps: claims so far, against the host's list at the start. */
  ghost predicate Grows(base: seq<Port>, ports: seq<Port>, listed: seq<nat>, grown: seq<nat>) {
    && (forall p: nat :: p in listed ==> p in grown)
    && (forall p: nat :: p > 0 && p in listed ==> CountPorts(ports, p) == CountPorts(base, p))
    && (forall p: nat :: p > 0 && p !in listed ==> CountPorts(ports, p) <= 1)
    && (forall p: nat :: p > 0 && p !in grown ==> CountPorts(ports, p) == 0)
  }

  /** Binds one container port to a free host port, if the host has one. */
  method BindPort(ghost base: seq<Port>, ports: seq<Port>, ghost listed: seq<nat>, used: seq<nat>, name: string,
                  port: nat)
    returns (all: seq<Port>, grown: seq<nat>, ok: bool)
    requires Grows(base, ports, listed, used)
    ensures Grows(base, all, listed, grown)
    ensures ok == (|used| < HOST_PORT_LIMIT) && |grown| == |used| + if ok then 1 else 0
    ensures !ok ==> all == ports && grown == used
    ensures ok ==>
              && |all| == |ports| + 1 && all[..|ports|] == ports
              && all[|ports|].port == port && all[|ports|].name == name
              && InRange(all[|ports|].hostPort) && all[|ports|].hostPort !in used
  {
    hide CountPorts;
    var hp := HostPortAlloc(used, 0);
    if hp == 0 {
      return ports, used, false;
    }
    grown := SortPorts(used + [hp]);
    SameMembers(grown, used + [hp]);
    forall p: nat
      ensures CountPorts(ports + [Port(name, port, hp)], p) == CountPorts(ports, p) + if hp == p then 1 else 0
    {
      CountAppend(ports, Port(name, port, hp), p);
    }
    all, ok := ports + [Port(name, port, hp)], true;
  }

  /**
   Rebinds a placed replica to what its spec asks for. Bindings that are still
   wanted stay; without a missing port nothing changes, and a port stays missing
   only when the host has run out of ports.
   */
  method RebindReplica(rep: Replica, wanted: map<nat, string>, listed: seq<nat>)
    returns (after: Replica, used: seq<nat>, changed: bool)
    requires rep.hostId != "" && forall p: nat :: p > 0 && CountPorts(rep.ports, p) > 0 ==> p in listed
    ensures !changed ==> after == rep && used == listed
    ensures Bound(rep, after, listed, used) || !changed
    ensures changed ==> var kept := Kept(rep.ports, wanted); |kept| <= |after.ports| && kept == after.ports[..|kept|]
    ensures changed ==> after == rep.(ports := after.ports) && Sourced(after.ports, rep.ports, wanted, listed)
    ensures FirstsStay(rep.ports, wanted, after.ports)
    ensures |listed| <= |used|
    ensures forall port :: port in wanted ==> HasBinding(after.ports, port) || |used| >= HOST_PORT_LIMIT
  {
    hide CountPorts, Sourced, FirstsStay, Kept;
    AllStay(rep.ports, wanted);
    var kept := Kept(rep.ports, wanted);
    KeptBindings(rep.ports, wanted);
    KeptSourced(rep.ports, wanted, listed);
    if |kept| == |wanted| {
      AllKept(kept, wanted);
      return rep, listed, false;
    }
    forall p: nat ensures CountPorts(kept, p) <= CountPorts(rep.ports, p) {
      KeptCount(rep.ports, wanted, p);
    }
    var ports := kept;
    used, changed := listed, false;
    var todo := wanted.Keys;
    while todo != {}
      invariant todo <= wanted.Keys
      invariant Grows(kept, ports, listed, used)
      invariant !changed ==> ports == kept && used == listed
      invariant |kept| <= |ports| && ports[..|kept|] == kept && |listed| <= |used|
      invariant Sourced(ports, rep.ports, wanted, listed) && forall p :: p in listed ==> p in used
      invariant forall port :: port in wanted && port !in todo ==> HasBinding(ports, port) || |used| >= HOST_PORT_LIMIT
    {
      var port :| port in todo;
      todo := todo - {port};
      if HasPort(kept, port) {
        HasBindingGrows(kept, ports, port);
        continue;
      }
      ghost var before, taken := ports, used;
      var ok;
      ports, used, ok := BindPort(kept, ports, listed, used, wanted[port], port);
      changed := changed || ok;
      if ok {
        SourcedMore(before, ports, rep.ports, wanted, listed, taken);
      }
      forall q | q in wanted && q !in todo ensures HasBinding(ports, q) || |used| >= HOST_PORT_LIMIT {
        if q == port && ok {
          assert ports[|before|].port == q;
        } else if HasBinding(before, q) {
          HasBindingGrows(before, ports, q);
        }
      }
    }
    if !changed {
      return rep, listed, false;
    }
    after := rep.(ports := ports);
    FirstsStayMore(rep.ports, wanted, kept, ports);
  }

  lemma HasBindingGrows(a: seq<Port>, b: seq<Port>, port: nat)
    requires HasBinding(a, port) && |a| <= |b| && b[..|a|] == a
    ensures HasBinding(b, port)
  {
    var i :| 0 <= i < |a| && a[i].port == port && a[i].hostPort > 0;
    assert b[i] == b[..|a|][i];
  }

  /** The bindings of a replica that is being placed: its spec, in order. */
  method BindSpec(spec: seq<SpecPort>, listed: seq<nat>) returns (ports: seq<Port>, used: seq<nat>)
    ensures Grows([], ports, listed, used) && |listed| <= |used|
    ensures forall i :: 0 <= i < |spec| && 1 <= spec[i].port < 65536 ==>
            HasBinding(ports, spec[i].port) || |used| >= HOST_PORT_LIMIT
    ensures forall b :: b in ports ==>
              b.hostPort !in listed && InRange(b.hostPort) && SpecPort(b.name, b.port) in spec && 1 <= b.port < 65536
  {
    ports, used := [], listed;
    for i := 0 to |spec|
      invariant forall b :: b in ports ==>
                  b.hostPort !in listed && InRange(b.hostPort)
                  && SpecPort(b.name, b.port) in spec && 1 <= b.port < 65536
      invariant Grows([], ports, listed, used) && |listed| <= |used|
      invariant forall k :: 0 <= k < i && 1 <= spec[k].port < 65536 ==>
                HasBinding(ports, spec[k].port) || |used| >= HOST_PORT_LIMIT
    {
      if spec[i].port < 1 || spec[i].port >= 65536 {
        continue;
      }
      ghost var before := ports;
      var ok;
      ports, used, ok := BindPort([], ports, listed, used, spec[i].name, spec[i].port);
      assert ok ==> ports == before + [ports[|before|]] && SpecPort(spec[i].name, spec[i].port) == spec[i];
      forall k | 0 <= k <= i && 1 <= spec[k].port < 65536
        ensures HasBinding(ports, spec[k].port) || |used| >= HOST_PORT_LIMIT
      {
        if k == i && ok {
          assert ports[|before|].port == spec[k].port;
        } else if HasBinding(before, spec[k].port) {
          HasBindingGrows(before, ports, spec[k].port);
        }
      }
    }
  }

  // ---- Allocations ----

  /** What the replicas on a host take. */
  function AllocReplicas(reps: seq<Replica>, limit: Alloc, h: string): Alloc
    decreases |reps|
  {
    if reps == [] then NOTHING
    else
      var before := AllocReplicas(reps[..|reps| - 1], limit, h);
      if reps[|reps| - 1].hostId == h then before.Plus(limit) else before
  }

  function AllocApps(apps: seq<App>, h: string): Alloc
    decreases |apps|
  {
    if apps == [] then NOTHING
    else
      var before, last := AllocApps(apps[..|apps| - 1], h), apps[|apps| - 1];
      if last.deleted then before else before.Plus(AllocReplicas(last.replicas, last.limit, h))
  }

  /** How many of the replicas are on the host. */
  function ReplicasOn(reps: seq<Replica>, h: string): nat
    decreases |reps|
  {
    if reps == [] then 0
    else ReplicasOn(reps[..|reps| - 1], h) + if reps[|reps| - 1].hostId == h then 1 else 0
  }

  /** A limit times the number of replicas on the host, summed over the live instances. */
  ghost function LimitOn(apps: seq<App>, h: string, limit: App -> int): int
    decreases |apps|
  {
    if apps == [] then 0
    else
      var last := apps[|apps| - 1];
      LimitOn(apps[..|apps| - 1], h, limit) + if last.deleted then 0 else limit(last) * ReplicasOn(last.replicas, h)
  }

  /** Every resource of the host is allocated by its own limits, counted once for each replica there. */
  ghost predicate Allocated(apps: seq<App>, h: string, a: Alloc) {
    && a.cpu == LimitOn(apps, h, (app: App) => app.limit.cpu)
    && a.mem == LimitOn(apps, h, (app: App) => app.limit.mem)
    && a.vol == LimitOn(apps, h, (app: App) => app.limit.vol)
  }

  function Times(limit: Alloc, n: nat): Alloc {
    Alloc(limit.cpu * n, limit.mem * n, limit.vol * n)
  }

  lemma TimesNext(limit: Alloc, n: nat)
    ensures Times(limit, n + 1) == Times(limit, n).Plus(limit)
  {
  }

  lemma {:induction false} AllocReplicasCounts(reps: seq<Replica>, limit: Alloc, h: string)
    ensures AllocReplicas(reps, limit, h) == Times(limit, ReplicasOn(reps, h))
    decreases |reps|
  {
    hide Times;
    if reps != [] {
      AllocReplicasCounts(reps[..|reps| - 1], limit, h);
      TimesNext(limit, ReplicasOn(reps[..|reps| - 1], h));
    } else {
      TimesNothing(limit);
    }
  }

  lemma TimesNothing(limit: Alloc)
    ensures Times(limit, 0) == NOTHING
  {
  }

  lemma AllocSums(apps: seq<App>, h: string)
    ensures forall a :: a == AllocApps(apps, h) <==> Allocated(apps, h, a)
  {
    AllocParts(apps, h, (app: App) => app.limit.cpu, (app: App) => app.limit.mem, (app: App) => app.limit.vol);
    hide AllocApps, LimitOn;
  }

  lemma {:induction false} AllocParts(apps: seq<App>, h: string, cpu: App -> int, mem: App -> int, vol: App -> int)
    requires forall app: App :: app.limit == Alloc(cpu(app), mem(app), vol(app))
    ensures AllocApps(apps, h) == Alloc(LimitOn(apps, h, cpu), LimitOn(apps, h, mem), LimitOn(apps, h, vol))
    decreases |apps|
  {
    hide AllocReplicas, ReplicasOn;
    if apps != [] {
      var last := apps[|apps| - 1];
      AllocParts(apps[..|apps| - 1], h, cpu, mem, vol);
      AllocReplicasCounts(last.replicas, last.limit, h);
    }
  }

  lemma {:induction false} AllocPlaced(reps: seq<Replica>, limit: Alloc, k: nat, rep: Replica, h: string)
    requires k < |reps| && h != "" && reps[k].hostId == ""
    ensures AllocReplicas(reps[k := rep], limit, h)
            == if rep.hostId == h then AllocReplicas(reps, limit, h).Plus(limit) else AllocReplicas(reps, limit, h)
    decreases |reps|
  {
    var n := |reps| - 1;
    if k < n {
      assert reps[k := rep][..n] == reps[..n][k := rep];
      AllocPlaced(reps[..n], limit, k, rep, h);
    } else {
      assert reps[k := rep][..n] == reps[..n];
    }
  }

  lemma {:induction false} AllocAppsPlaced(apps: seq<App>, i: nat, app: App, h: string, more: Alloc)
    requires i < |apps| && !apps[i].deleted && !app.deleted
    requires AllocReplicas(app.replicas, app.limit, h) == AllocReplicas(apps[i].replicas, apps[i].limit, h).Plus(more)
    ensures AllocApps(apps[i := app], h) == AllocApps(apps, h).Plus(more)
    decreases |apps|
  {
    hide AllocReplicas;
    var n := |apps| - 1;
    if i < n {
      assert apps[i := app][..n] == apps[..n][i := app];
      AllocAppsPlaced(apps[..n], i, app, h, more);
    } else {
      assert apps[i := app][..n] == apps[..n];
    }
  }

  method AddLimits(sums: map<string, Alloc>, reps: seq<Replica>, limit: Alloc) returns (all: map<string, Alloc>)
    ensures all.Keys == sums.Keys
    ensures forall h :: h in sums && h != "" ==> all[h] == sums[h].Plus(AllocReplicas(reps, limit, h))
  {
    all := sums;
    for i := 0 to |reps|
      invariant all.Keys == sums.Keys
      invariant forall h :: h in sums && h != "" ==> all[h] == sums[h].Plus(AllocReplicas(reps[..i], limit, h))
    {
      assert reps[..i + 1][..i] == reps[..i];
      if reps[i].hostId == "" || reps[i].hostId !in all {
        continue;
      }
      all := all[reps[i].hostId := all[reps[i].hostId].Plus(limit)];
    }
    assert reps[..|reps|] == reps;
  }
}
