/**
 Package selection: which versions a shortened filter admits, the latest package of
 every name, os and arch, and the host's walk from its own os and arch to the
 more general ones.
 */
module PackageVersions {
  import opened Common
  import opened KeyOrder
  import SemVer

  datatype Package = Package(name: string, os: string, arch: string, version: string, complete: bool)

  /** A list item whose metadata or release may be missing. */
  type Item = Option<Package>

  // ---- Version lines ----

  /** Three parts or more name one release; fewer name every release of their line. */
  predicate VersionMatch(filter: string, version: string) {
    if filter == "" then true
    else if version == "" then false
    else
      var f, v := SemVer.Split(filter, '.'), SemVer.Split(version, '.');
      if |f| >= 3 then filter == version
      else |f| <= |v| && v[..|f|] == f
  }

  method VersionMatches(filter: string, version: string) returns (ok: bool)
    ensures ok == VersionMatch(filter, version)
  {
    if filter == "" {
      return true;
    }
    if version == "" {
      return false;
    }
    var f, v := SemVer.Split(filter, '.'), SemVer.Split(version, '.');
    if |f| >= 3 {
      return filter == version;
    }
    for i := 0 to |f|
      invariant i <= |v| && v[..i] == f[..i]
    {
      if i >= |v| {
        return false;
      }
      if f[i] != v[i] {
        return false;
      }
    }
    assert f[..|f|] == f;
    return true;
  }

  lemma {:induction false} SplitAtDot(a: string, rest: string)
    requires rest != "" && rest[0] == '.'
    ensures SemVer.Split(a + rest, '.') == SemVer.Split(a, '.') + SemVer.Split(rest[1..], '.')
    decreases |a|
  {
    hide SemVer.IndexOf, SemVer.Split;
    var i := SemVer.IndexOf(a, '.');
    var tail := SemVer.Split(rest[1..], '.');
    if i == |a| {
      assert '.' !in a;
      SemVer.IndexOfAfter(a, '.', rest);
      SplitNone(a);
      SplitOnce(a + rest);
      assert (a + rest)[..|a|] == a && (a + rest)[|a| + 1..] == rest[1..];
    } else {
      FirstDot(a, rest);
      SplitOnce(a);
      SplitOnce(a + rest);
      assert (a + rest)[..i] == a[..i] && (a + rest)[i + 1..] == a[i + 1..] + rest;
      SplitAtDot(a[i + 1..], rest);
      Regroup([a[..i]], SemVer.Split(a[i + 1..], '.'), tail);
    }
  }

  lemma SplitNone(s: string)
    requires SemVer.IndexOf(s, '.') == |s|
    ensures SemVer.Split(s, '.') == [s]
  {
  }

  lemma SplitOnce(s: string)
    requires SemVer.IndexOf(s, '.') < |s|
    ensures SemVer.Split(s, '.') == [s[..SemVer.IndexOf(s, '.')]] + SemVer.Split(s[SemVer.IndexOf(s, '.') + 1..], '.')
  {
    hide SemVer.IndexOf;
  }

  lemma Regroup(a: seq<string>, b: seq<string>, c: seq<string>)
    ensures a + (b + c) == a + b + c
  {
  }

  lemma {:induction false} FirstDot(a: string, rest: string)
    requires SemVer.IndexOf(a, '.') < |a|
    ensures SemVer.IndexOf(a + rest, '.') == SemVer.IndexOf(a, '.')
  {
    assert (a + rest)[0] == a[0] && (a + rest)[1..] == a[1..] + rest;
    if a[0] != '.' {
      FirstDot(a[1..], rest);
    }
  }

  /** The parts with dots between them again. */
  function Join(parts: seq<string>): string {
    if parts == [] then "" else if |parts| == 1 then parts[0] else parts[0] + "." + Join(parts[1..])
  }

  lemma {:induction false} JoinSplit(s: string)
    ensures Join(SemVer.Split(s, '.')) == s
    decreases |s|
  {
    hide SemVer.IndexOf, SemVer.Split, Join;
    var i := SemVer.IndexOf(s, '.');
    if i < |s| {
      SplitOnce(s);
      JoinSplit(s[i + 1..]);
      JoinHead(s[..i], SemVer.Split(s[i + 1..], '.'));
      CutAtDot(s, i);
    } else {
      SplitNone(s);
      JoinOne(s);
    }
  }

  lemma JoinOne(s: string)
    ensures Join([s]) == s
  {
  }

  lemma JoinHead(head: string, parts: seq<string>)
    requires parts != []
    ensures Join([head] + parts) == head + "." + Join(parts)
  {
    assert ([head] + parts)[1..] == parts;
  }

  lemma CutAtDot(s: string, i: nat)
    requires i < |s| && s[i] == '.'
    ensures s[..i] + "." + s[i + 1..] == s
  {
  }

  /**
   A filter of one or two parts matches exactly its own text and the versions that
   go on with a dot behind it; so 1 does not match 10, nor 1.2 match 1.20.
   */
  lemma ShortFilterIsLine(filter: string, version: string)
    requires filter != "" && |SemVer.Split(filter, '.')| < 3 && version != ""
    ensures VersionMatch(filter, version) <==>
            version == filter || (|version| > |filter| && version[..|filter|] == filter && version[|filter|] == '.')
  {
    hide SemVer.Split, Join;
    var f, v := SemVer.Split(filter, '.'), SemVer.Split(version, '.');
    if |version| > |filter| && version[..|filter|] == filter && version[|filter|] == '.' {
      LongerOnLine(filter, version);
    }
    if VersionMatch(filter, version) {
      OnLine(filter, version);
    }
    if version == filter {
      assert v[..|f|] == f;
    }
  }

  /** One part more than there are dots. */
  lemma {:induction false} PartCount(s: string)
    ensures |SemVer.Split(s, '.')| == multiset(s)['.'] + 1
    decreases |s|
  {
    hide SemVer.IndexOf, SemVer.Split;
    var i := SemVer.IndexOf(s, '.');
    if i < |s| {
      SplitOnce(s);
      PartCount(s[i + 1..]);
      NoDotBefore(s, i);
      assert s == s[..i] + [s[i]] + s[i + 1..];
    } else {
      SplitNone(s);
      assert '.' !in multiset(s);
    }
  }

  lemma NoDotBefore(s: string, i: nat)
    requires i <= |s| && forall j :: 0 <= j < i ==> s[j] != '.'
    ensures multiset(s[..i])['.'] == 0
  {
    assert '.' !in s[..i];
  }

  /**
   The whole filter in plain terms: no filter admits everything and a missing version
   passes no other; with two dots or more it admits its own text only, with fewer
   also what goes on behind it with a dot.
   */
  lemma FilterMeaning(filter: string, version: string)
    ensures VersionMatch(filter, version) <==>
            filter == ""
            || (version != ""
                && (version == filter
                    || (multiset(filter)['.'] < 2 && |version| > |filter|
                        && version[..|filter|] == filter && version[|filter|] == '.')))
  {
    PartCount(filter);
    if filter != "" && version != "" && multiset(filter)['.'] < 2 {
      ShortFilterIsLine(filter, version);
    }
    hide SemVer.Split;
  }

  lemma LongerOnLine(filter: string, version: string)
    requires |version| > |filter| && version[..|filter|] == filter && version[|filter|] == '.'
    ensures var f, v := SemVer.Split(filter, '.'), SemVer.Split(version, '.'); |f| <= |v| && v[..|f|] == f
  {
    hide SemVer.Split;
    var rest := version[|filter|..];
    assert version == filter + rest;
    SplitAtDot(filter, rest);
    var f, v := SemVer.Split(filter, '.'), SemVer.Split(version, '.');
    assert v[..|f|] == f;
  }

  lemma OnLine(filter: string, version: string)
    requires var f, v := SemVer.Split(filter, '.'), SemVer.Split(version, '.'); |f| <= |v| && v[..|f|] == f
    ensures version == filter || (|version| > |filter| && version[..|filter|] == filter && version[|filter|] == '.')
  {
    hide SemVer.Split, Join;
    JoinSplit(filter);
    JoinSplit(version);
    JoinLonger(SemVer.Split(filter, '.'), SemVer.Split(version, '.'));
  }

  lemma JoinLonger(f: seq<string>, v: seq<string>)
    requires f != [] && |f| <= |v| && v[..|f|] == f
    ensures Join(v) == Join(f)
            || (|Join(v)| > |Join(f)| && Join(v)[..|Join(f)|] == Join(f) && Join(v)[|Join(f)|] == '.')
  {
    hide Join;
    if |v| == |f| {
      assert v == f;
    } else {
      assert v == f + v[|f|..];
      JoinAppend(f, v[|f|..]);
    }
  }

  lemma {:induction false} JoinAppend(a: seq<string>, b: seq<string>)
    requires a != [] && b != []
    ensures Join(a + b) == Join(a) + "." + Join(b)
  {
    assert (a + b)[0] == a[0] && (a + b)[1..] == a[1..] + b;
    if |a| > 1 {
      JoinAppend(a[1..], b);
    } else {
      assert a[1..] + b == b;
    }
  }

  // ---- The latest package of a group ----

  datatype Group = Group(name: string, os: string, arch: string)

  function GroupOf(p: Package): Group {
    Group(p.name, p.os, p.arch)
  }

  predicate GroupLess(a: Group, b: Group) {
    if a.name != b.name then Less(a.name, b.name)
    else if a.os != b.os then Less(a.os, b.os)
    else Less(a.arch, b.arch)
  }

  lemma GroupOrder(a: Group, b: Group, c: Group)
    ensures !GroupLess(a, a)
    ensures a == b || GroupLess(a, b) || GroupLess(b, a)
    ensures GroupLess(a, b) && GroupLess(b, c) ==> GroupLess(a, c)
  {
    hide Less;
    LessIrreflexive(a.arch);
    LessTotal(a.name, b.name);
    LessTotal(a.os, b.os);
    LessTotal(a.arch, b.arch);
    if Less(a.name, b.name) && Less(b.name, c.name) {
      StrictChain(a.name, b.name, c.name);
    }
    if Less(a.os, b.os) && Less(b.os, c.os) {
      StrictChain(a.os, b.os, c.os);
    }
    if Less(a.arch, b.arch) && Less(b.arch, c.arch) {
      StrictChain(a.arch, b.arch, c.arch);
    }
  }

  lemma StrictChain(a: string, b: string, c: string)
    requires Less(a, b) && Less(b, c)
    ensures Less(a, c) && a != c
  {
    LessTransitive(a, b, c);
    LessAsymmetric(a, c);
  }

  ghost predicate Ordered(ps: seq<Package>) {
    forall i, j :: 0 <= i < j < |ps| ==> GroupLess(GroupOf(ps[i]), GroupOf(ps[j]))
  }

  /** Item i is p, the newest of its group, and the first of the newest. */
  ghost predicate Latest(items: seq<Item>, i: int, p: Package) {
    && 0 <= i < |items| && items[i] == Some(p)
    && forall j :: 0 <= j < |items| && items[j].Some? && GroupOf(items[j].value) == GroupOf(p) ==>
         && SemVer.Compare(p.version, items[j].value.version) >= 0
         && (j < i ==> SemVer.Compare(p.version, items[j].value.version) > 0)
  }

  /** One entry per group that occurs, the newest, in strict order of the groups. */
  ghost predicate IsLatestOf(result: seq<Package>, items: seq<Item>) {
    && Ordered(result)
    && (forall p :: p in result ==> exists i :: Latest(items, i, p))
    && (forall j :: 0 <= j < |items| && items[j].Some?
         ==> exists p :: p in result && GroupOf(p) == GroupOf(items[j].value))
  }

  /** There is exactly one such result. */
  lemma LatestIsUnique(a: seq<Package>, b: seq<Package>, items: seq<Item>)
    requires IsLatestOf(a, items) && IsLatestOf(b, items)
    ensures a == b
  {
    hide SemVer.Compare, Less, GroupLess, Latest, Ordered;
    forall p ensures p in a <==> p in b {
      if p in a {
        SameEntry(a, b, items, p);
      }
      if p in b {
        SameEntry(b, a, items, p);
      }
    }
    OrderedUnique(a, b);
  }

  lemma SameEntry(a: seq<Package>, b: seq<Package>, items: seq<Item>, p: Package)
    requires IsLatestOf(a, items) && IsLatestOf(b, items) && p in a
    ensures p in b
  {
    hide SemVer.Compare, Less, GroupLess, Latest, Ordered;
    var i :| Latest(items, i, p);
    LatestIsItem(items, i, p);
    var q :| q in b && GroupOf(q) == GroupOf(items[i].value);
    var j :| Latest(items, j, q);
    OneLatest(items, i, p, j, q);
  }

  lemma LatestIsItem(items: seq<Item>, i: int, p: Package)
    requires Latest(items, i, p)
    ensures 0 <= i < |items| && items[i] == Some(p)
  {
  }

  lemma OneLatest(items: seq<Item>, i: int, p: Package, j: int, q: Package)
    requires Latest(items, i, p) && Latest(items, j, q) && GroupOf(p) == GroupOf(q)
    ensures p == q
  {
    hide SemVer.Compare;
    SemVer.CompareIsTotalPreorder(p.version, q.version, p.version);
  }

  lemma {:induction false} OrderedUnique(a: seq<Package>, b: seq<Package>)
    requires Ordered(a) && Ordered(b) && forall p :: p in a <==> p in b
    ensures a == b
  {
    hide GroupLess;
    assert b != [] ==> b[0] in a;
    if a != [] {
      assert a[0] in b && a[0] in a;
      assert b[0] in a;
      SameFirst(a, b);
      forall p ensures p in a[1..] <==> p in b[1..] {
        InTail(a, p);
        InTail(b, p);
      }
      assert forall k :: 0 <= k < |a| - 1 ==> a[1..][k] == a[k + 1];
      assert forall k :: 0 <= k < |b| - 1 ==> b[1..][k] == b[k + 1];
      OrderedUnique(a[1..], b[1..]);
      assert a == [a[0]] + a[1..] && b == [b[0]] + b[1..];
    }
  }

  lemma SameFirst(a: seq<Package>, b: seq<Package>)
    requires Ordered(a) && Ordered(b) && a != [] && b != [] && a[0] in b && b[0] in a
    ensures a[0] == b[0]
  {
    hide GroupLess;
    var i :| 0 <= i < |b| && b[i] == a[0];
    var j :| 0 <= j < |a| && a[j] == b[0];
    GroupOrder(GroupOf(a[0]), GroupOf(b[0]), GroupOf(a[0]));
  }

  lemma InTail(a: seq<Package>, p: Package)
    requires Ordered(a) && a != []
    ensures p in a[1..] <==> p in a && p != a[0]
  {
    hide GroupLess;
    assert a == [a[0]] + a[1..];
    GroupOrder(GroupOf(a[0]), GroupOf(a[0]), GroupOf(a[0]));
    forall k | 0 <= k < |a| - 1 ensures a[1..][k] != a[0] {
      assert GroupLess(GroupOf(a[0]), GroupOf(a[k + 1]));
    }
  }

  /** Sorting by insertion; the order is strict, so there is only one sorted arrangement. */
  function Insert(ps: seq<Package>, p: Package): seq<Package> {
    if ps == [] || GroupLess(GroupOf(p), GroupOf(ps[0])) then [p] + ps
    else [ps[0]] + Insert(ps[1..], p)
  }

  lemma {:induction false} InsertOrdered(ps: seq<Package>, p: Package)
    requires Ordered(ps) && forall q :: q in ps ==> GroupOf(q) != GroupOf(p)
    ensures Ordered(Insert(ps, p))
    ensures forall q :: q in Insert(ps, p) <==> q == p || q in ps
  {
    hide GroupLess;
    if ps != [] {
      assert ps == [ps[0]] + ps[1..] && ps[0] in ps;
      if GroupLess(GroupOf(p), GroupOf(ps[0])) {
        forall k | 0 <= k < |ps| ensures GroupLess(GroupOf(p), GroupOf(ps[k])) {
          GroupOrder(GroupOf(p), GroupOf(ps[0]), GroupOf(ps[k]));
        }
      } else {
        var tail := ps[1..];
        assert forall k :: 0 <= k < |tail| ==> tail[k] == ps[k + 1];
        InsertOrdered(tail, p);
        GroupOrder(GroupOf(p), GroupOf(ps[0]), GroupOf(p));
        var rest := Insert(tail, p);
        forall k | 0 <= k < |rest| ensures GroupLess(GroupOf(ps[0]), GroupOf(rest[k])) {
          assert rest[k] in rest;
        }
      }
    }
  }

  /** What the map of the newest so far holds after some items: where each came from. */
  ghost predicate Tracks(latest: map<Group, Package>, from: map<Group, int>, items: seq<Item>) {
    && latest.Keys == from.Keys
    && (forall g :: g in latest ==> Latest(items, from[g], latest[g]) && GroupOf(latest[g]) == g)
    && (forall j :: 0 <= j < |items| && items[j].Some? ==> GroupOf(items[j].value) in latest)
  }

  lemma LatestSkip(items: seq<Item>, i: int, p: Package, next: Item)
    requires Latest(items, i, p)
    requires next.Some? && GroupOf(next.value) == GroupOf(p) ==> SemVer.Compare(p.version, next.value.version) >= 0
    ensures Latest(items + [next], i, p)
  {
    hide SemVer.Compare;
  }

  lemma LatestReplace(items: seq<Item>, i: int, p: Package, next: Package)
    requires Latest(items, i, p) && GroupOf(next) == GroupOf(p)
    requires SemVer.Compare(next.version, p.version) > 0
    ensures Latest(items + [Some(next)], |items|, next)
  {
    hide SemVer.Compare;
    SemVer.CompareIsTotalPreorder(next.version, next.version, next.version);
    forall j | 0 <= j < |items| && items[j].Some? && GroupOf(items[j].value) == GroupOf(next)
      ensures SemVer.Compare(next.version, items[j].value.version) > 0
    {
      Newer(next.version, p.version, items[j].value.version);
    }
  }

  lemma Newer(a: string, b: string, c: string)
    requires SemVer.Compare(a, b) > 0 && SemVer.Compare(b, c) >= 0
    ensures SemVer.Compare(a, c) > 0
  {
    hide SemVer.Compare;
    SemVer.CompareIsTotalPreorder(c, b, a);
    SemVer.CompareIsTotalPreorder(b, a, a);
    SemVer.CompareIsTotalPreorder(c, a, a);
    SemVer.CompareIsTotalPreorder(b, c, a);
  }

  lemma LatestNew(items: seq<Item>, next: Package)
    requires forall j :: 0 <= j < |items| && items[j].Some? ==> GroupOf(items[j].value) != GroupOf(next)
    ensures Latest(items + [Some(next)], |items|, next)
  {
    hide SemVer.Compare;
    SemVer.CompareIsTotalPreorder(next.version, next.version, next.version);
  }

  /** The same name, os and arch. */
  predicate SameLine(p: Package, q: Package) {
    p.name == q.name && p.os == q.os && p.arch == q.arch
  }

  /** Every item is represented by one entry of its name, os and arch that is no older, and each entry is an item. */
  ghost predicate Represents(result: seq<Package>, items: seq<Item>) {
    && (forall p :: p in result ==> Some(p) in items)
    && (forall q :: Some(q) in items ==>
          exists p :: p in result && SameLine(p, q) && SemVer.Compare(p.version, q.version) >= 0)
    && forall i, j :: 0 <= i < j < |result| ==> !SameLine(result[i], result[j]) && ListsBefore(result[i], result[j])
  }

  /** By name, then by os, then by arch. */
  predicate ListsBefore(p: Package, q: Package) {
    || Less(p.name, q.name)
    || (p.name == q.name && Less(p.os, q.os))
    || (p.name == q.name && p.os == q.os && Less(p.arch, q.arch))
  }

  lemma LatestRepresents(result: seq<Package>, items: seq<Item>)
    requires IsLatestOf(result, items)
    ensures Represents(result, items)
  {
    hide SemVer.Compare, Less;
    forall q | Some(q) in items
      ensures exists p :: p in result && SameLine(p, q) && SemVer.Compare(p.version, q.version) >= 0
    {
      var j :| 0 <= j < |items| && items[j] == Some(q);
      var p :| p in result && GroupOf(p) == GroupOf(q);
      var i :| Latest(items, i, p);
      AtLeast(items, i, p, q);
      assert SameLine(p, q);
    }
    forall i, j | 0 <= i < j < |result|
      ensures !SameLine(result[i], result[j]) && ListsBefore(result[i], result[j])
    {
      assert GroupLess(GroupOf(result[i]), GroupOf(result[j]));
      GroupOrder(GroupOf(result[i]), GroupOf(result[j]), GroupOf(result[i]));
    }
  }

  method FilterLatestPackages(items: seq<Item>) returns (result: seq<Package>)
    ensures IsLatestOf(result, items) && Represents(result, items)
  {
    var latest, from := GroupLatest(items);
    result := SortedValues(latest, from, items);
    LatestRepresents(result, items);
  }

  method GroupLatest(items: seq<Item>) returns (latest: map<Group, Package>, ghost from: map<Group, int>)
    ensures Tracks(latest, from, items)
  {
    hide SemVer.Compare, Latest;
    latest, from := map[], map[];
    for n := 0 to |items|
      invariant Tracks(latest, from, items[..n])
    {
      assert items[..n + 1] == items[..n] + [items[n]];
      if items[n].None? {
        forall g | g in latest ensures Latest(items[..n + 1], from[g], latest[g]) {
          LatestSkip(items[..n], from[g], latest[g], items[n]);
        }
        continue;
      }
      var pkg := items[n].value;
      var key := GroupOf(pkg);
      ghost var keep := key in latest && SemVer.Compare(pkg.version, latest[key].version) <= 0;
      if key in latest {
        SemVer.CompareIsTotalPreorder(pkg.version, latest[key].version, pkg.version);
      }
      forall g | g in latest && (g != key || keep) ensures Latest(items[..n + 1], from[g], latest[g]) {
        LatestSkip(items[..n], from[g], latest[g], items[n]);
      }
      if key !in latest {
        LatestNew(items[..n], pkg);
        latest, from := latest[key := pkg], from[key := n];
      } else if SemVer.Compare(pkg.version, latest[key].version) > 0 {
        LatestReplace(items[..n], from[key], latest[key], pkg);
        latest, from := latest[key := pkg], from[key := n];
      }
    }
    assert items[..|items|] == items;
  }

  method SortedValues(latest: map<Group, Package>, ghost from: map<Group, int>, ghost items: seq<Item>)
    returns (result: seq<Package>)
    requires Tracks(latest, from, items)
    ensures IsLatestOf(result, items)
  {
    hide SemVer.Compare, Latest, GroupLess;
    result := [];
    var todo := latest.Keys;
    while todo != {}
      invariant todo <= latest.Keys
      invariant Ordered(result)
      invariant forall p :: p in result <==> exists g :: g in latest && g !in todo && latest[g] == p
    {
      var g :| g in todo;
      InsertOrdered(result, latest[g]);
      result := Insert(result, latest[g]);
      todo := todo - {g};
    }
    forall j | 0 <= j < |items| && items[j].Some?
      ensures exists p :: p in result && GroupOf(p) == GroupOf(items[j].value)
    {
      var g := GroupOf(items[j].value);
      assert latest[g] in result;
    }
  }

  // ---- The list query ----

  const PACKAGE_SCAN_LIMIT := 1000

  /** all: also packages whose upload is not complete. Empty fields are no restriction. */
  datatype Query = Query(all: bool, name: string, version: string, os: string, arch: string)

  predicate Matches(p: Package, q: Query) {
    && (q.all || p.complete) && (q.name != "" ==> p.name == q.name)
    && (q.version != "" ==> VersionMatch(q.version, p.version))
    && (q.os != "" ==> p.os == q.os) && (q.arch != "" ==> p.arch == q.arch)
  }

  function Candidates(store: seq<Package>, q: Query): seq<Item> {
    if store == [] then []
    else (if Matches(store[0], q) then [Some(store[0])] else []) + Candidates(store[1..], q)
  }

  lemma {:induction false} CandidateMembers(store: seq<Package>, q: Query, p: Package)
    ensures Some(p) in Candidates(store, q) <==> p in store && Matches(p, q)
    ensures None !in Candidates(store, q)
  {
    hide Matches;
    if store != [] {
      assert store == [store[0]] + store[1..];
      CandidateMembers(store[1..], q, p);
    }
  }

  /**
   One range read of at most 1000 packages, which may come back short, filtered, and
   reduced to the latest ones. read: how many were read.
   */
  method PackageList(store: seq<Package>, q: Query, read: nat) returns (items: seq<Package>)
    requires read <= |store| && read <= PACKAGE_SCAN_LIMIT && (read == 0 <==> store == [])
    ensures IsLatestOf(items, Candidates(store[..read], q))
    ensures forall p :: p in items ==> p in store[..read] && Asked(p, q)
    ensures forall r :: r in store[..read] && Asked(r, q) ==>
              exists p :: p in items && SameLine(p, r) && SemVer.Compare(p.version, r.version) >= 0
  {
    hide Matches, Candidates, Represents, SemVer.Compare, IsLatestOf, VersionMatch;
    var page := store[..read];
    var found: seq<Item> := [];
    assert page[0..] == page;
    for i := 0 to |page|
      invariant found + Candidates(page[i..], q) == Candidates(page, q)
    {
      NextCandidate(found, page, i, q);
      if Matches(page[i], q) {
        found := found + [Some(page[i])];
      }
    }
    NoCandidates(found, page, q);
    items := FilterLatestPackages(found);
    ListedExactly(items, page, q);
  }

  /** What the query asks for, field by field. */
  predicate Asked(p: Package, q: Query) {
    && (p.complete || q.all) && (q.name == "" || q.name == p.name) && (q.os == "" || q.os == p.os)
    && (q.arch == "" || q.arch == p.arch) && VersionMatch(q.version, p.version)
  }

  lemma ListedExactly(items: seq<Package>, page: seq<Package>, q: Query)
    requires Represents(items, Candidates(page, q))
    ensures forall p :: p in items ==> p in page && Asked(p, q)
    ensures forall r :: r in page && Asked(r, q) ==>
              exists p :: p in items && SameLine(p, r) && SemVer.Compare(p.version, r.version) >= 0
  {
    hide VersionMatch, Candidates, SemVer.Compare, Matches, Asked, SameLine, ListsBefore;
    forall p
      ensures Some(p) in Candidates(page, q) <==> p in page && Asked(p, q)
    {
      CandidateMembers(page, q, p);
      AskedMatches(p, q);
    }
  }

  lemma AskedMatches(p: Package, q: Query)
    ensures Matches(p, q) <==> Asked(p, q)
  {
    NoFilter(q);
    hide VersionMatch;
  }

  lemma NoFilter(q: Query)
    ensures q.version == "" ==> forall v :: VersionMatch(q.version, v)
  {
  }

  lemma NextCandidate(found: seq<Item>, store: seq<Package>, i: nat, q: Query)
    requires i < |store|
    ensures (if Matches(store[i], q) then found + [Some(store[i])] else found) + Candidates(store[i + 1..], q)
            == found + Candidates(store[i..], q)
  {
    hide Matches;
    assert store[i..][0] == store[i] && store[i..][1..] == store[i + 1..];
  }

  lemma NoCandidates(found: seq<Item>, store: seq<Package>, q: Query)
    ensures found + Candidates(store[|store|..], q) == found
  {
    assert store[|store|..] == [];
  }

  // ---- The host's choice ----

  const OS_ALL := "all"
  const ARCH_SRC := "src"

  type Rung = (string, string)

  /** The os and arch pairs in order of preference; an unknown native value is left out. */
  function Rungs(os: string, arch: string): seq<Rung> {
    RungsOf(os, arch) + RungsOf(OS_ALL, arch)
  }

  function RungsOf(os: string, arch: string): seq<Rung> {
    if os == "" then [] else (if arch == "" then [] else [(os, arch)]) + [(os, ARCH_SRC)]
  }

  datatype Resolved = Found(p: Package) | QueryFailed | NotReady | NotFound

  /** What the list query answers for an os and arch. */
  type Lister = Rung -> Result<seq<Package>, string>

  /** The first rung whose query fails or finds something decides. */
  function Resolve(list: Lister, rungs: seq<Rung>): Resolved {
    if rungs == [] then NotFound
    else
      match list(rungs[0])
      case Err(_) => QueryFailed
      case Ok(items) =>
        if items == [] then Resolve(list, rungs[1..])
        else if items[0].complete then Found(items[0])
        else NotReady
  }

  method ResolvePackage(list: Lister, os: string, arch: string) returns (r: Resolved)
    ensures r == Resolve(list, Rungs(os, arch))
  {
    var rungs := Rungs(os, arch);
    assert rungs[0..] == rungs;
    for k := 0 to |rungs|
      invariant Resolve(list, rungs) == Resolve(list, rungs[k..])
    {
      assert rungs[k..][0] == rungs[k] && rungs[k..][1..] == rungs[k + 1..];
      var answer := list(rungs[k]);
      if answer.Err? {
        return QueryFailed;
      }
      if |answer.value| == 0 {
        continue;
      }
      var pkg := answer.value[0];
      if !pkg.complete {
        return NotReady;
      }
      return Found(pkg);
    }
    assert rungs[|rungs|..] == [];
    return NotFound;
  }

  predicate Available(store: seq<Package>, q: Query) {
    exists i :: 0 <= i < |store| && Matches(store[i], q)
  }

  function QueryOf(name: string, version: string, rung: Rung): Query {
    Query(false, name, version, rung.0, rung.1)
  }

  /** Every query succeeds and read the whole store. */
  ghost predicate Answers(list: Lister, store: seq<Package>, name: string, version: string, rungs: seq<Rung>) {
    forall k :: 0 <= k < |rungs| ==>
      list(rungs[k]).Ok? && IsLatestOf(list(rungs[k]).value, Candidates(store, QueryOf(name, version, rungs[k])))
  }

  ghost predicate FirstAvailable(store: seq<Package>, name: string, version: string, rungs: seq<Rung>, k: int) {
    0 <= k < |rungs| && Available(store, QueryOf(name, version, rungs[k]))
    && forall j :: 0 <= j < k ==> !Available(store, QueryOf(name, version, rungs[j]))
  }

  /** p is one of the matches, and none is newer. */
  ghost predicate Newest(store: seq<Package>, p: Package, q: Query) {
    p in store && Matches(p, q) && forall i :: 0 <= i < |store| && Matches(store[i], q) ==>
      SemVer.Compare(p.version, store[i].version) >= 0
  }

  /**
   With answers that read the whole store the host gets the newest match of the
   first rung that has any, and nothing exactly when no rung has one.
   */
  lemma {:induction false} ResolvedIsNewest(list: Lister, store: seq<Package>, name: string, version: string,
                                           rungs: seq<Rung>)
    requires name != "" && forall k :: 0 <= k < |rungs| ==> rungs[k].0 != "" && rungs[k].1 != ""
    requires Answers(list, store, name, version, rungs)
    ensures var r := Resolve(list, rungs);
            && (r.NotFound? <==> forall k :: 0 <= k < |rungs| ==> !Available(store, QueryOf(name, version, rungs[k])))
            && (r.Found? <==> !r.NotFound?)
            && (r.Found? ==> exists k :: FirstAvailable(store, name, version, rungs, k)
                                         && Newest(store, r.p, QueryOf(name, version, rungs[k])))
  {
    hide Available, Newest, IsLatestOf, QueryOf, Candidates;
    if rungs != [] {
      var rest, items := rungs[1..], list(rungs[0]).value;
      Listed(store, QueryOf(name, version, rungs[0]), items, name, version, rungs[0]);
      assert forall k :: 0 <= k < |rest| ==> rest[k] == rungs[k + 1];
      ResolvedIsNewest(list, store, name, version, rest);
      if items == [] {
        if Resolve(list, rest).Found? {
          var k :| FirstAvailable(store, name, version, rest, k)
                   && Newest(store, Resolve(list, rest).p, QueryOf(name, version, rest[k]));
          FirstLater(store, name, version, rungs, k);
        }
        forall k | 0 <= k < |rungs|
          ensures Available(store, QueryOf(name, version, rungs[k])) <==>
                  k > 0 && Available(store, QueryOf(name, version, rest[k - 1]))
        {
        }
      } else {
        assert FirstAvailable(store, name, version, rungs, 0);
      }
    }
  }

  /** So does the host, whose rungs all name an os and an arch, whatever its own are. */
  lemma HostGetsNewest(list: Lister, store: seq<Package>, name: string, version: string, os: string, arch: string)
    requires name != "" && Answers(list, store, name, version, Rungs(os, arch))
    ensures var rungs := Rungs(os, arch);
            var r := Resolve(list, rungs);
            && (r.NotFound? <==> forall k :: 0 <= k < |rungs| ==> !Available(store, QueryOf(name, version, rungs[k])))
            && (r.Found? <==> !r.NotFound?)
            && (r.Found? ==> exists k :: FirstAvailable(store, name, version, rungs, k)
                                         && Newest(store, r.p, QueryOf(name, version, rungs[k])))
  {
    RungsNamed(os, arch);
    hide Rungs, Resolve, Available, Newest, QueryOf;
    ResolvedIsNewest(list, store, name, version, Rungs(os, arch));
  }

  /** A complete package of this name, os and arch whose version the filter admits. */
  predicate Offers(p: Package, name: string, version: string, os: string, arch: string) {
    p.complete && p.name == name && p.os == os && p.arch == arch && VersionMatch(version, p.version)
  }

  predicate Offered(store: seq<Package>, name: string, version: string, os: string, arch: string) {
    exists p :: p in store && Offers(p, name, version, os, arch)
  }

  /** The queries that the host can make all succeed and read the whole store. */
  ghost predicate Reads(list: Lister, store: seq<Package>, name: string, version: string, os: string, arch: string) {
    forall o, a :: (o == os || o == "all") && (a == arch || a == "src") && o != "" && a != "" ==>
      list((o, a)).Ok? && IsLatestOf(list((o, a)).value, Candidates(store, Query(false, name, version, o, a)))
  }

  /**
   Rung by rung: the host's own os and arch, its os in source form, any os in its
   arch, any os in source form; own values that are not known are skipped. The
   package is a newest one of the first rung that has any, and nothing is found
   exactly when none of them has.
   */
  lemma HostPreference(list: Lister, store: seq<Package>, name: string, version: string, os: string, arch: string)
    requires name != "" && Reads(list, store, name, version, os, arch)
    ensures var r := Resolve(list, Rungs(os, arch));
            var native := os != "" && arch != "" && Offered(store, name, version, os, arch);
            var source := os != "" && Offered(store, name, version, os, "src");
            var portable := arch != "" && Offered(store, name, version, "all", arch);
            var general := Offered(store, name, version, "all", "src");
            && (r.Found? <==> native || source || portable || general) && (r.NotFound? <==> !r.Found?)
            && (r.Found? ==>
                  && r.p in store
                  && Offers(r.p, name, version, if native || source then os else "all",
                            if native then arch else if source then "src" else if portable then arch else "src")
                  && forall q :: q in store && SameLine(q, r.p) && Offers(q, name, version, q.os, q.arch) ==>
                       SemVer.Compare(r.p.version, q.version) >= 0)
  {
    hide Available, Offered, Newest, Candidates, IsLatestOf, VersionMatch, SemVer.Compare, Resolve;
    var rungs := Rungs(os, arch);
    AllAnswer(list, store, name, version, os, arch);
    HostGetsNewest(list, store, name, version, os, arch);
    forall k | 0 <= k < |rungs|
      ensures Available(store, QueryOf(name, version, rungs[k])) <==>
              Offered(store, name, version, rungs[k].0, rungs[k].1)
    {
      RungsNamed(os, arch);
      AvailableOffered(store, name, version, rungs[k]);
    }
    RungCases(store, name, version, os, arch);
    var r := Resolve(list, rungs);
    if r.Found? {
      var k :| 0 <= k < |rungs| && FirstAvailable(store, name, version, rungs, k)
               && Newest(store, r.p, QueryOf(name, version, rungs[k]));
      FirstRung(store, name, version, os, arch, k);
      RungsNamed(os, arch);
      NewestOffers(store, r.p, name, version, rungs[k]);
    }
  }

  lemma AllAnswer(list: Lister, store: seq<Package>, name: string, version: string, os: string, arch: string)
    requires Reads(list, store, name, version, os, arch)
    ensures Answers(list, store, name, version, Rungs(os, arch))
  {
    hide IsLatestOf, Candidates;
    RungsNamed(os, arch);
  }

  lemma AvailableOffered(store: seq<Package>, name: string, version: string, rung: Rung)
    requires name != "" && rung.0 != "" && rung.1 != ""
    ensures Available(store, QueryOf(name, version, rung)) <==> Offered(store, name, version, rung.0, rung.1)
  {
    var q := QueryOf(name, version, rung);
    NoFilter(q);
    hide VersionMatch;
    forall i | 0 <= i < |store|
      ensures Matches(store[i], q) <==> Offers(store[i], name, version, rung.0, rung.1)
    {
    }
    hide Matches, Offers;
  }

  /** Some rung has a package exactly when one of the four kinds is offered. */
  lemma RungCases(store: seq<Package>, name: string, version: string, os: string, arch: string)
    ensures (exists k :: 0 <= k < |Rungs(os, arch)|
                         && Offered(store, name, version, Rungs(os, arch)[k].0, Rungs(os, arch)[k].1)) <==>
            || (os != "" && arch != "" && Offered(store, name, version, os, arch))
            || (os != "" && Offered(store, name, version, os, "src"))
            || (arch != "" && Offered(store, name, version, "all", arch))
            || Offered(store, name, version, "all", "src")
  {
    hide Offered;
    var rungs := Rungs(os, arch);
    assert rungs[|rungs| - 1] == ("all", "src");
    assert os != "" ==> rungs[if arch == "" then 0 else 1] == (os, "src");
    assert os != "" && arch != "" ==> rungs[0] == (os, arch);
    assert arch != "" ==> rungs[|rungs| - 2] == ("all", arch);
  }

  /** Which kind the first rung with a package is. */
  lemma FirstRung(store: seq<Package>, name: string, version: string, os: string, arch: string, k: int)
    requires name != "" && FirstAvailable(store, name, version, Rungs(os, arch), k)
    requires forall j :: 0 <= j < |Rungs(os, arch)| ==>
               (Available(store, QueryOf(name, version, Rungs(os, arch)[j])) <==>
                Offered(store, name, version, Rungs(os, arch)[j].0, Rungs(os, arch)[j].1))
    ensures 0 <= k < |Rungs(os, arch)|
    ensures var native := os != "" && arch != "" && Offered(store, name, version, os, arch);
            var source := os != "" && Offered(store, name, version, os, "src");
            var portable := arch != "" && Offered(store, name, version, "all", arch);
            Rungs(os, arch)[k] ==
            (if native || source then os else "all",
             if native then arch else if source then "src" else if portable then arch else "src")
  {
    hide Offered, Available;
    var rungs := Rungs(os, arch);
    assert os != "" ==> rungs[if arch == "" then 0 else 1] == (os, "src");
    assert os != "" && arch != "" ==> rungs[0] == (os, arch);
    assert arch != "" ==> rungs[|rungs| - 2] == ("all", arch);
  }

  lemma NewestOffers(store: seq<Package>, p: Package, name: string, version: string, rung: Rung)
    requires name != "" && rung.0 != "" && rung.1 != "" && Newest(store, p, QueryOf(name, version, rung))
    ensures p in store && Offers(p, name, version, rung.0, rung.1)
    ensures forall q :: q in store && SameLine(q, p) && Offers(q, name, version, q.os, q.arch) ==>
              SemVer.Compare(p.version, q.version) >= 0
  {
    hide VersionMatch, SemVer.Compare;
    var query := QueryOf(name, version, rung);
    NoFilter(query);
    forall q | q in store && SameLine(q, p) && Offers(q, name, version, q.os, q.arch)
      ensures SemVer.Compare(p.version, q.version) >= 0
    {
      var i :| 0 <= i < |store| && store[i] == q;
      assert Matches(store[i], query);
    }
  }

  lemma RungsNamed(os: string, arch: string)
    ensures forall k :: 0 <= k < |Rungs(os, arch)| ==> Rungs(os, arch)[k].0 != "" && Rungs(os, arch)[k].1 != ""
  {
  }

  lemma FirstLater(store: seq<Package>, name: string, version: string, rungs: seq<Rung>, k: int)
    requires rungs != [] && !Available(store, QueryOf(name, version, rungs[0]))
    requires FirstAvailable(store, name, version, rungs[1..], k)
    ensures FirstAvailable(store, name, version, rungs, k + 1)
  {
    hide Available, QueryOf;
    forall j | 0 <= j < k + 1 ensures !Available(store, QueryOf(name, version, rungs[j])) {
      if j > 0 {
        assert rungs[1..][j - 1] == rungs[j];
      }
    }
  }

  /** An answer is empty exactly when nothing matches; otherwise its first entry is complete and a newest match. */
  lemma Listed(store: seq<Package>, q: Query, items: seq<Package>, name: string, version: string, rung: Rung)
    requires q == QueryOf(name, version, rung) && name != "" && rung.0 != "" && rung.1 != ""
    requires IsLatestOf(items, Candidates(store, q))
    ensures items == [] <==> !Available(store, q)
    ensures items != [] ==> items[0].complete && Newest(store, items[0], q)
  {
    if items == [] {
      NothingListed(store, q, items);
    } else {
      SomethingListed(store, q, items);
    }
  }

  lemma NothingListed(store: seq<Package>, q: Query, items: seq<Package>)
    requires IsLatestOf(items, Candidates(store, q)) && items == []
    ensures !Available(store, q)
  {
    hide Matches, Latest;
    forall i | 0 <= i < |store| ensures !Matches(store[i], q) {
      CandidateMembers(store, q, store[i]);
    }
  }

  lemma SomethingListed(store: seq<Package>, q: Query, items: seq<Package>)
    requires IsLatestOf(items, Candidates(store, q)) && items != []
    requires q.name != "" && q.os != "" && q.arch != ""
    ensures Available(store, q) && Newest(store, items[0], q)
  {
    hide Matches, SemVer.Compare, Ordered, Candidates, Latest, GroupOf;
    var all, p := Candidates(store, q), items[0];
    assert p in items;
    var i :| Latest(all, i, p);
    LatestIsItem(all, i, p);
    assert all[i] in all;
    CandidateMembers(store, q, p);
    forall j | 0 <= j < |store| && Matches(store[j], q)
      ensures SemVer.Compare(p.version, store[j].version) >= 0
    {
      CandidateMembers(store, q, store[j]);
      OneGroup(store[j], p, q);
      AtLeast(all, i, p, store[j]);
    }
  }

  lemma AtLeast(items: seq<Item>, i: int, p: Package, q: Package)
    requires Latest(items, i, p) && Some(q) in items && GroupOf(q) == GroupOf(p)
    ensures SemVer.Compare(p.version, q.version) >= 0
  {
    hide SemVer.Compare;
    var k :| 0 <= k < |items| && items[k] == Some(q);
  }

  lemma OneGroup(p: Package, r: Package, q: Query)
    requires q.name != "" && q.os != "" && q.arch != "" && Matches(p, q) && Matches(r, q)
    ensures GroupOf(p) == GroupOf(r)
  {
  }
}
