/**
 Project ids for disk quotas: one id per container name, taken upwards from a
 moving offset, so that a freed id is not reused at once.
 */
module QuotaAllocator {
  import opened Common

  const ID_MIN := 100
  const OFFSET_END := 100000
  const ID_MAX := 110000
  const SAFE_PROJECTS := 10001

  datatype Project = Project(id: int, name: string, mnt: string)

  predicate HasId(items: seq<Project>, id: int) {
    exists i :: 0 <= i < |items| && items[i].id == id
  }

  predicate HasName(items: seq<Project>, name: string) {
    exists i :: 0 <= i < |items| && items[i].name == name
  }

  ghost predicate WellFormed(items: seq<Project>) {
    && (forall i :: 0 <= i < |items| ==> ID_MIN <= items[i].id <= ID_MAX)
    && (forall i, j :: 0 <= i < j < |items| ==> items[i].id != items[j].id && items[i].name != items[j].name)
  }

  /** Where the scan for a free id begins. */
  function ScanStart(offset: int): int {
    if offset < ID_MIN || offset >= OFFSET_END then ID_MIN else offset
  }

  /** All ids from the start of the scan on are taken. */
  ghost predicate Exhausted(items: seq<Project>, offset: int) {
    forall id :: ScanStart(offset) <= id <= ID_MAX ==> HasId(items, id)
  }

  /** Ids in a range that are all taken need as many projects. */
  lemma {:induction false} TakenIds(items: seq<Project>, lo: int, hi: int)
    requires lo <= hi && forall id :: lo <= id < hi ==> HasId(items, id)
    ensures hi - lo <= |items|
    decreases hi - lo
  {
    if lo < hi {
      assert HasId(items, lo);
      var i :| 0 <= i < |items| && items[i].id == lo;
      var rest := items[..i] + items[i + 1..];
      forall id | lo < id < hi ensures HasId(rest, id) {
        Elsewhere(items, i, id);
      }
      TakenIds(rest, lo + 1, hi);
    }
  }

  lemma Elsewhere(items: seq<Project>, i: nat, id: int)
    requires i < |items| && items[i].id != id && HasId(items, id)
    ensures HasId(items[..i] + items[i + 1..], id)
  {
    var rest := items[..i] + items[i + 1..];
    var k :| 0 <= k < |items| && items[k].id == id;
    assert rest[if k < i then k else k - 1].id == id;
  }

  /** However the offset stands, an id is free while there are no more than SAFE_PROJECTS projects. */
  lemma NeverExhausted(items: seq<Project>, offset: int)
    requires |items| <= SAFE_PROJECTS
    ensures !Exhausted(items, offset)
  {
    if Exhausted(items, offset) {
      TakenIds(items, ScanStart(offset), ID_MAX + 1);
    }
  }

  /** The bound is tight: with one project more and the offset at its end there may be no free id. */
  lemma OneMoreExhausts(items: seq<Project>)
    requires |items| == SAFE_PROJECTS + 1 && forall i :: 0 <= i < |items| ==> items[i].id == OFFSET_END - 1 + i
    ensures Exhausted(items, OFFSET_END - 1)
  {
    forall id | OFFSET_END - 1 <= id <= ID_MAX ensures HasId(items, id) {
      assert items[id - (OFFSET_END - 1)].id == id;
    }
  }

  class QuotaConfig {
    var items: seq<Project>
    var idOffset: int

    constructor (items: seq<Project>, idOffset: int)
      requires WellFormed(items)
      ensures this.items == items && this.idOffset == idOffset
    {
      this.items, this.idOffset := items, idOffset;
    }

    method Fetch(name: string) returns (p: Option<Project>)
      ensures p.Some? <==> HasName(items, name)
      ensures p.Some? ==> p.value in items && p.value.name == name
    {
      for i := 0 to |items|
        invariant forall j :: 0 <= j < i ==> items[j].name != name
      {
        if items[i].name == name {
          return Some(items[i]);
        }
      }
      return None;
    }

    method Has(id: int) returns (has: bool)
      ensures has == HasId(items, id)
    {
      for i := 0 to |items|
        invariant forall j :: 0 <= j < i ==> items[j].id != id
      {
        if items[i].id == id {
          return true;
        }
      }
      return false;
    }

    /**
     A known name keeps its project and changes nothing. A new one gets the lowest
     free id from the offset on; it fails exactly when there is none.
     */
    method FetchOrCreate(mnt: string, name: string) returns (p: Option<Project>)
      requires WellFormed(items)
      modifies this
      ensures WellFormed(items)
      ensures HasName(old(items), name) ==>
                items == old(items) && idOffset == old(idOffset) && p.Some? && p.value in items && p.value.name == name
      ensures !HasName(old(items), name) ==> (p.None? <==> Exhausted(old(items), old(idOffset)))
      ensures !HasName(old(items), name) && p.None? ==> items == old(items) && idOffset == ScanStart(old(idOffset))
      ensures !HasName(old(items), name) && p.Some? ==>
                && items == old(items) + [p.value] && idOffset == p.value.id + 1
                && p.value.name == name && p.value.mnt == (if mnt == "" || mnt == "/" then "/opt" else mnt)
                && ScanStart(old(idOffset)) <= p.value.id <= ID_MAX && !HasId(old(items), p.value.id)
                && forall id :: ScanStart(old(idOffset)) <= id < p.value.id ==> HasId(old(items), id)
      ensures |old(items)| <= SAFE_PROJECTS ==> p.Some?
    {
      NeverExhaustedIf(items, idOffset);
      var found := Fetch(name);
      if found.Some? {
        return found;
      }
      if idOffset < ID_MIN || idOffset >= OFFSET_END {
        idOffset := ID_MIN;
      }
      var bindId := idOffset;
      var taken := Has(bindId);
      while bindId <= ID_MAX && taken
        invariant idOffset == ScanStart(old(idOffset)) <= bindId <= ID_MAX + 1 && items == old(items)
        invariant forall id :: idOffset <= id < bindId ==> HasId(items, id)
        invariant taken == HasId(items, bindId)
        decreases ID_MAX + 1 - bindId
      {
        bindId := bindId + 1;
        taken := Has(bindId);
      }
      if bindId > ID_MAX {
        return None;
      }
      var project := Project(bindId, name, if mnt == "" || mnt == "/" then "/opt" else mnt);
      items := items + [project];
      idOffset := bindId + 1;
      p := Some(project);
    }

    /** Takes the project of this name off the list; the others keep their order. */
    method Remove(name: string)
      requires WellFormed(items)
      modifies `items
      ensures WellFormed(items) && !HasName(items, name)
      ensures !HasName(old(items), name) ==> items == old(items)
      ensures HasName(old(items), name) ==>
                exists i :: 0 <= i < |old(items)| && old(items)[i].name == name
                    && items == old(items)[..i] + old(items)[i + 1..]
    {
      for i := 0 to |items|
        invariant items == old(items) && forall j :: 0 <= j < i ==> items[j].name != name
      {
        if items[i].name == name {
          items := items[..i] + items[i + 1..];
          return;
        }
      }
    }
  }

  lemma NeverExhaustedIf(items: seq<Project>, offset: int)
    ensures |items| <= SAFE_PROJECTS ==> !Exhausted(items, offset)
  {
    if |items| <= SAFE_PROJECTS {
      NeverExhausted(items, offset);
    }
  }
}
