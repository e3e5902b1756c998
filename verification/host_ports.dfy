/** Host port allocation over a list of used ports. */
module HostPorts {

  const HOST_PORT_MIN := 20000
  const HOST_PORT_MAX := 30000
  const HOST_PORT_LIMIT := 10001
  const RANDOM_ATTEMPTS := 10

  predicate InRange(p: int) {
    HOST_PORT_MIN <= p <= HOST_PORT_MAX
  }

  function Elements(s: seq<nat>): (r: set<nat>) {
    set p | p in s
  }

  lemma {:induction false} ElementsSize(s: seq<nat>)
    ensures |Elements(s)| <= |s|
  {
    if s != [] {
      ElementsSize(s[1..]);
      assert s == [s[0]] + s[1..];
      assert Elements(s) == {s[0]} + Elements(s[1..]);
    }
  }

  function Interval(lo: nat, hi: nat): (r: set<nat>)
    requires lo <= hi
    ensures |r| == hi - lo
    ensures forall p: nat :: p in r <==> lo <= p < hi
    decreases hi - lo
  {
    if lo == hi then {} else Interval(lo, hi - 1) + {hi - 1}
  }

  /** Fewer used ports than the range holds leave one of its ports unused. */
  lemma SomePortFree(used: seq<nat>)
    requires |used| < HOST_PORT_LIMIT
    ensures exists p: nat :: InRange(p) && p !in used
  {
    var all := Interval(HOST_PORT_MIN, HOST_PORT_MAX + 1);
    ElementsSize(used);
    if forall p: nat :: InRange(p) ==> p in used {
      SubsetSize(all, Elements(used));
    }
  }

  lemma {:induction false} SubsetSize(a: set<nat>, b: set<nat>)
    requires a <= b
    ensures |a| <= |b|
  {
    if a != {} {
      var x :| x in a;
      SubsetSize(a - {x}, b - {x});
    }
  }

  /**
   A given port is claimed if it is free. Otherwise a few random attempts, then a
   scan from behind the last used port, then from the start of the range.
   */
  method HostPortAlloc(used: seq<nat>, port: nat) returns (p: nat)
    ensures p != 0 ==> p !in used
    ensures port > 0 ==> p == if port in used then 0 else port
    ensures port == 0 ==> (p != 0 <==> |used| < HOST_PORT_LIMIT)
    ensures port == 0 && p != 0 ==> InRange(p)
  {
    if port > 0 {
      return if port in used then 0 else port;
    }
    if |used| >= HOST_PORT_LIMIT {
      return 0;
    }
    for i := 0 to RANDOM_ATTEMPTS {
      var draw: nat := *;
      var q := HOST_PORT_MIN + draw % (HOST_PORT_MAX - HOST_PORT_MIN);
      if q !in used {
        return q;
      }
    }
    var offset := HOST_PORT_MIN;
    if |used| > 0 {
      var last := used[|used| - 1];
      if last + 1 > HOST_PORT_MIN {
        offset := last + 1;
      }
    }
    SomePortFree(used);
    p := offset;
    while p <= HOST_PORT_MAX
      invariant offset <= p
      invariant forall q: nat :: offset <= q < p ==> q in used
    {
      if p !in used {
        return p;
      }
      p := p + 1;
    }
    p := HOST_PORT_MIN;
    while p < offset
      invariant HOST_PORT_MIN <= p
      invariant forall q: nat :: HOST_PORT_MIN <= q < p ==> q in used
      invariant forall q: nat :: offset <= q <= HOST_PORT_MAX ==> q in used
    {
      if p !in used {
        return p;
      }
      p := p + 1;
    }
    assert false;
  }

  predicate Sorted(s: seq<nat>) {
    forall i, j :: 0 <= i < j < |s| ==> s[i] <= s[j]
  }

  /** slices.Sort */
  method SortPorts(ports: seq<nat>) returns (sorted: seq<nat>)
    ensures Sorted(sorted) && multiset(sorted) == multiset(ports)
  {
    sorted := [];
    for i := 0 to |ports|
      invariant Sorted(sorted) && multiset(sorted) == multiset(ports[..i])
    {
      assert ports[..i + 1] == ports[..i] + [ports[i]];
      var k := 0;
      while k < |sorted| && sorted[k] <= ports[i]
        invariant 0 <= k <= |sorted| && forall j :: 0 <= j < k ==> sorted[j] <= ports[i]
      {
        k := k + 1;
      }
      assert sorted == sorted[..k] + sorted[k..];
      sorted := sorted[..k] + [ports[i]] + sorted[k..];
    }
    assert ports[..|ports|] == ports;
  }

  lemma SameMembers(a: seq<nat>, b: seq<nat>)
    requires multiset(a) == multiset(b)
    ensures |a| == |b| && forall p :: p in a <==> p in b
  {
    assert |multiset(a)| == |a| && |multiset(b)| == |b|;
    forall p ensures p in a <==> p in b {
      assert p in a <==> p in multiset(a);
      assert p in b <==> p in multiset(b);
    }
  }
}
