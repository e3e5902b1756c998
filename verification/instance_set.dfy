/**
 The leader's cache of app instances: an index by name and a list in order of
 arrival that share their entries. A reader of either sees the newest version that
 was stored.
 */
module InstanceSet {
  import opened Common
  import opened DeployBarrier

  class Entry {
    const name: string
    var version: nat
    var value: Deploy

    constructor (name: string, version: nat, value: Deploy)
      ensures this.name == name && this.version == version && this.value == value
    {
      this.name, this.version, this.value := name, version, value;
    }
  }

  class AppInstanceSet {
    var idx: map<string, Entry>
    var arr: seq<Entry>
    var version: nat
    var ready: bool

    /** Index and list hold the same entries, each once, each under its own name. */
    ghost predicate Shared()
      reads `idx, `arr
    {
      && (forall i :: 0 <= i < |arr| ==> arr[i].name in idx && idx[arr[i].name] == arr[i])
      && (forall i, j :: 0 <= i < j < |arr| ==> arr[i] != arr[j])
      && (forall name :: name in idx ==> idx[name] in arr && idx[name].name == name)
    }

    /** The version is that of the newest entry or of a later one. */
    ghost predicate Valid()
      reads this, arr
    {
      Shared() && forall i :: 0 <= i < |arr| ==> arr[i].version <= version
    }

    /** What a look-up by name sees. */
    ghost function At(name: string): Option<Record>
      requires Shared()
      reads `idx, `arr, arr
    {
      if name in idx then
        assert idx[name] in arr;
        Some(Record(idx[name].version, idx[name].value))
      else None
    }

    constructor ()
      ensures Valid() && arr == [] && !ready && forall name :: At(name) == None
    {
      idx, arr, version, ready := map[], [], 0, false;
    }

    /** Takes over a stored instance unless the cache has this version or a newer one. */
    method Store(name: string, value: Deploy, v: nat)
      requires Valid()
      modifies this, arr
      ensures Valid() && ready == old(ready)
      ensures forall other :: At(other) ==
                if other == name then Newer(old(At(name)), Record(v, value)) else old(At(other))
      ensures if old(At(name)).Some? then arr == old(arr)
              else && |arr| == |old(arr)| + 1 && arr[..|old(arr)|] == old(arr) && arr[|old(arr)|].name == name
                   && fresh(arr[|old(arr)|])
    {
      if name in idx {
        if v > idx[name].version {
          Replace(name, value, v);
        }
      } else {
        Add(name, value, v);
      }
    }

    method Replace(name: string, value: Deploy, v: nat)
      requires Valid() && name in idx
      modifies `version, arr
      ensures Valid()
      ensures forall other :: At(other) == if other == name then Some(Record(v, value)) else old(At(other))
    {
      var entry := idx[name];
      assert entry in arr;
      entry.version := v;
      entry.value := value;
      if v > version {
        version := v;
      }
    }

    method Add(name: string, value: Deploy, v: nat)
      requires Valid() && name !in idx
      modifies `idx, `arr, `version
      ensures Valid()
      ensures |arr| == |old(arr)| + 1 && arr[..|old(arr)|] == old(arr) && arr[|old(arr)|].name == name
              && fresh(arr[|old(arr)|])
      ensures forall other :: At(other) == if other == name then Some(Record(v, value)) else old(At(other))
    {
      hide Shared;
      var entry := new Entry(name, v, value);
      Append(entry);
      if v > version {
        version := v;
      }
    }

    /** Puts an entry of a new name into index and list. */
    method Append(entry: Entry)
      requires Valid() && entry.name !in idx && entry !in arr
      modifies `idx, `arr
      ensures arr == old(arr) + [entry] && idx == old(idx)[entry.name := entry]
      ensures Shared()
    {
      idx := idx[entry.name := entry];
      arr := arr + [entry];
      forall i, j | 0 <= i < j < |arr| ensures arr[i] != arr[j] {
        assert arr[i] == old(arr)[i];
      }
      forall name | name in idx ensures idx[name] in arr {
        if name == entry.name {
          assert arr[|arr| - 1] == entry;
        } else {
          assert idx[name] in old(arr);
        }
      }
    }

    method Load(name: string) returns (entry: Option<Entry>)
      requires Valid()
      ensures At(name) == if entry.Some? then Some(Record(entry.value.version, entry.value.value)) else None
      ensures entry.Some? ==> entry.value in arr && entry.value.name == name
    {
      return if name in idx then Some(idx[name]) else None;
    }

    /** Takes over everything that a scan of the store returned, in order. */
    method Refresh(items: seq<(string, Record)>)
      requires Valid()
      modifies this, arr
      ensures Valid() && ready
      ensures forall name :: At(name) == Scanned(old(At(name)), items, name)
    {
      assert items[..0] == [];
      for k := 0 to |items|
        invariant Valid() && fresh(set e | e in arr && e !in old(arr))
        invariant forall name :: At(name) == Scanned(old(At(name)), items[..k], name)
      {
        assert items[..k + 1][..k] == items[..k];
        ghost var before := arr;
        Store(items[k].0, items[k].1.deploy, items[k].1.version);
        assert forall e :: e in arr ==> e in before || fresh(e);
      }
      assert items[..|items|] == items;
      ready := true;
    }
  }

  /** The cached record stays unless the other is newer. */
  function Newer(cached: Option<Record>, r: Record): Option<Record> {
    if cached.Some? && r.version <= cached.value.version then cached else Some(r)
  }

  function Scanned(cached: Option<Record>, items: seq<(string, Record)>, name: string): Option<Record>
    decreases |items|
  {
    if items == [] then cached
    else
      var before, last := Scanned(cached, items[..|items| - 1], name), items[|items| - 1];
      if last.0 == name then Newer(before, last.1) else before
  }

  /**
   Whatever a scan returned, in whatever order: nothing cached is forgotten or goes
   back, and afterwards an instance is the newest of its cached and scanned records.
   */
  lemma {:induction false} ScannedIsNewest(cached: Option<Record>, items: seq<(string, Record)>, name: string)
    ensures var after := Scanned(cached, items, name);
            && (after.None? <==> cached.None? && forall k :: 0 <= k < |items| ==> items[k].0 != name)
            && (cached.Some? ==> after.Some? && cached.value.version <= after.value.version)
            && (forall k :: 0 <= k < |items| && items[k].0 == name
                 ==> after.Some? && items[k].1.version <= after.value.version)
            && (after.Some? ==> after == cached || (name, after.value) in items)
    decreases |items|
  {
    if items != [] {
      var rest, last := items[..|items| - 1], items[|items| - 1];
      ScannedIsNewest(cached, rest, name);
      assert items == rest + [last];
    }
  }
}
