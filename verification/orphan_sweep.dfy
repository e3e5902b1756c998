/**
 The orphan sweep of a host: containers that the zone leader no longer asks for are
 quarantined at once and removed only after a day of unbroken absence. A sweep
 without a fresh, non-empty answer of the leader does nothing.
 */
module OrphanSweep {
  import opened Common

  const ORPHAN_GRACE := 86400
  const ORPHAN_SYNC_STALE_LIMIT := 60

  /** The container names the leader last asked for, and when; ok: the last report was answered. */
  datatype Desired = Desired(names: set<string>, syncedAt: int, ok: bool) {
    predicate IsFresh(now: int) {
      ok && syncedAt > 0 && now - syncedAt <= ORPHAN_SYNC_STALE_LIMIT
    }
  }

  /** One sweep: the time, the desired set, the local containers with whether they run, and which removals fail. */
  datatype Sweep = Sweep(now: int, desired: Desired, local: map<string, bool>, stuck: set<string>) {
    /** Only such a sweep decides anything. */
    predicate Effective() {
      desired.IsFresh(now) && desired.names != {}
    }
  }

  /** What a sweep does to containers. */
  datatype Actions = Actions(restored: set<string>, quarantined: set<string>, stopped: set<string>,
      removed: set<string>)

  const NONE := Actions({}, {}, {}, {})

  predicate LowerAlnum(c: char) {
    'a' <= c <= 'z' || '0' <= c <= '9'
  }

  /** i8k_, an instance name, an underscore, a replica id of up to three digits. */
  predicate ValidName(s: string) {
    exists u :: 5 <= u < |s| && InstanceAndReplica(s, u)
  }

  predicate InstanceAndReplica(s: string, u: int)
    requires 5 <= u < |s|
  {
    && s[..4] == "i8k_" && s[u] == '_'
    && LowerAlnum(s[4]) && LowerAlnum(s[u - 1])
    && (forall i :: 4 <= i < u ==> LowerAlnum(s[i]) || s[i] == '-')
    && 1 <= |s| - u - 1 <= 3
    && forall i :: u < i < |s| ==> '0' <= s[i] <= '9'
  }

  /** The sweep sees this container here and not in the desired set. */
  predicate Sights(w: Sweep, name: string) {
    w.Effective() && name in w.local && ValidName(name) && name !in w.desired.names
  }

  function MarkedAt(marks: map<string, int>, w: Sweep, name: string): int {
    if name in marks then marks[name] else w.now
  }

  predicate Removes(marks: map<string, int>, w: Sweep, name: string) {
    Sights(w, name) && w.now - MarkedAt(marks, w, name) >= ORPHAN_GRACE && name !in w.stuck
  }

  /** The mark of one container after a sweep: kept, set, or cleared by its return or its removal. */
  function NextMark(mark: Option<int>, w: Sweep, name: string): Option<int> {
    if !w.Effective() then mark
    else if name in w.desired.names then None
    else if !Sights(w, name) then mark
    else
      var first := mark.GetOr(w.now);
      if w.now - first >= ORPHAN_GRACE && name !in w.stuck then None else Some(first)
  }

  function MarkOf(marks: map<string, int>, name: string): Option<int> {
    if name in marks then Some(marks[name]) else None
  }

  // ---- Runs ----

  function Mark(sweeps: seq<Sweep>, name: string): Option<int>
    decreases |sweeps|
  {
    if sweeps == [] then None else NextMark(Mark(sweeps[..|sweeps| - 1], name), sweeps[|sweeps| - 1], name)
  }

  /** Sweep number k of the run removes the container. */
  predicate RemovedBy(sweeps: seq<Sweep>, k: nat, name: string)
    requires k < |sweeps|
  {
    var mark := Mark(sweeps[..k], name);
    Sights(sweeps[k], name) && sweeps[k].now - mark.GetOr(sweeps[k].now) >= ORPHAN_GRACE && name !in sweeps[k].stuck
  }

  /**
   Sweep f saw the container abandoned, and from there to sweep k no effective
   sweep saw it desired and none removed it.
   */
  ghost predicate AbsentSince(sweeps: seq<Sweep>, f: nat, k: nat, name: string)
    requires f <= k < |sweeps|
  {
    && Sights(sweeps[f], name)
    && (forall j: nat :: f <= j <= k && sweeps[j].Effective() ==> name !in sweeps[j].desired.names)
    && (forall j: nat :: f <= j < k ==> !RemovedBy(sweeps, j, name))
  }

  /** The first sweep of an unbroken absence. */
  ghost predicate AbsenceBegins(sweeps: seq<Sweep>, f: nat, k: nat, name: string)
    requires f <= k < |sweeps|
  {
    AbsentSince(sweeps, f, k, name) && forall g: nat :: g < f ==> !AbsentSince(sweeps, g, k, name)
  }

  /** A mark is the time of the sweep with which the present absence began, and there is one exactly then. */
  lemma {:induction false} MarkIsFirstSighting(sweeps: seq<Sweep>, name: string)
    requires sweeps != []
    ensures var k := |sweeps| - 1;
            match NextMarkBeforeRemoval(sweeps, name)
            case Some(t) => exists f: nat :: f <= k && AbsenceBegins(sweeps, f, k, name) && sweeps[f].now == t
            case None => forall f: nat :: f <= k ==> !AbsentSince(sweeps, f, k, name)
    decreases |sweeps|
  {
    var k := |sweeps| - 1;
    var before, w := sweeps[..k], sweeps[k];
    if k > 0 {
      MarkIsFirstSighting(before, name);
      MarkAfterSweep(before, name);
    }
    forall f: nat | f < k ensures AbsentSince(sweeps, f, k, name) <==>
      AbsentSince(before, f, k - 1, name) && !RemovedBy(sweeps, k - 1, name)
          && (w.Effective() ==> name !in w.desired.names)
    {
      AbsentLonger(sweeps, f, name);
    }
    if k > 0 {
      SameRemoval(sweeps, k - 1, name);
      var kept := Mark(before, name);
      if kept.Some? && (w.Effective() ==> name !in w.desired.names) {
        var f: nat :| f <= k - 1 && AbsenceBegins(before, f, k - 1, name) && before[f].now == kept.value;
        assert AbsentSince(sweeps, f, k, name);
        assert AbsenceBegins(sweeps, f, k, name) && sweeps[f].now == kept.value;
      } else if Sights(w, name) {
        assert AbsenceBegins(sweeps, k, k, name);
      }
    } else if Sights(w, name) {
      assert AbsenceBegins(sweeps, 0, 0, name);
    }
  }

  /** The mark at the moment the last sweep decides about removal. */
  function NextMarkBeforeRemoval(sweeps: seq<Sweep>, name: string): Option<int>
    requires sweeps != []
  {
    var mark, w := Mark(sweeps[..|sweeps| - 1], name), sweeps[|sweeps| - 1];
    if w.Effective() && name in w.desired.names then None
    else if Sights(w, name) then Some(mark.GetOr(w.now))
    else mark
  }

  lemma MarkAfterSweep(sweeps: seq<Sweep>, name: string)
    requires sweeps != []
    ensures Mark(sweeps, name) ==
              if RemovedBy(sweeps, |sweeps| - 1, name) then None else NextMarkBeforeRemoval(sweeps, name)
  {
  }

  lemma SameRemoval(sweeps: seq<Sweep>, j: nat, name: string)
    requires j + 1 < |sweeps|
    ensures RemovedBy(sweeps, j, name) == RemovedBy(sweeps[..|sweeps| - 1], j, name)
  {
    assert sweeps[..|sweeps| - 1][..j] == sweeps[..j];
  }

  lemma AbsentLonger(sweeps: seq<Sweep>, f: nat, name: string)
    requires f + 1 < |sweeps|
    ensures var k, w := |sweeps| - 1, sweeps[|sweeps| - 1];
            AbsentSince(sweeps, f, k, name) <==>
            AbsentSince(sweeps[..k], f, k - 1, name) && !RemovedBy(sweeps, k - 1, name)
                && (w.Effective() ==> name !in w.desired.names)
  {
    hide RemovedBy, Sights;
    var k := |sweeps| - 1;
    var before := sweeps[..k];
    assert forall j: nat :: j < k ==> before[j] == sweeps[j];
    forall j: nat | j < k ensures RemovedBy(sweeps, j, name) == RemovedBy(before, j, name) {
      SameRemoval(sweeps, j, name);
    }
  }

  /**
   A container is removed at time T exactly when the sweep is effective, sees it
   abandoned and can remove it, and its unbroken absence began with a sweep at
   least the grace period before T. In particular a desired container never is.
   */
  lemma RemovedAfterGrace(sweeps: seq<Sweep>, name: string)
    requires sweeps != []
    ensures var k := |sweeps| - 1;
            RemovedBy(sweeps, k, name) <==>
            && Sights(sweeps[k], name) && name !in sweeps[k].stuck
            && exists f: nat :: f <= k && AbsenceBegins(sweeps, f, k, name)
                 && sweeps[f].now <= sweeps[k].now - ORPHAN_GRACE
  {
    hide Sights, AbsentSince;
    MarkIsFirstSighting(sweeps, name);
    var k := |sweeps| - 1;
    if f: nat, g: nat :| f <= k && g <= k && AbsenceBegins(sweeps, f, k, name) && AbsenceBegins(sweeps, g, k, name) {
      OneBeginning(sweeps, f, g, k, name);
    }
    if Sights(sweeps[k], name) {
      SightedHasMark(sweeps, name);
      var f: nat :| f <= k && AbsenceBegins(sweeps, f, k, name)
          && sweeps[f].now == NextMarkBeforeRemoval(sweeps, name).value;
      forall g: nat | g <= k && AbsenceBegins(sweeps, g, k, name) ensures g == f {
        OneBeginning(sweeps, f, g, k, name);
      }
    }
  }

  lemma SightedHasMark(sweeps: seq<Sweep>, name: string)
    requires sweeps != [] && Sights(sweeps[|sweeps| - 1], name)
    ensures NextMarkBeforeRemoval(sweeps, name).Some?
    ensures RemovedBy(sweeps, |sweeps| - 1, name) <==>
            name !in sweeps[|sweeps| - 1].stuck
            && sweeps[|sweeps| - 1].now - NextMarkBeforeRemoval(sweeps, name).value >= ORPHAN_GRACE
  {
  }

  lemma OneBeginning(sweeps: seq<Sweep>, f: nat, g: nat, k: nat, name: string)
    requires f <= k < |sweeps| && g <= k && AbsenceBegins(sweeps, f, k, name) && AbsenceBegins(sweeps, g, k, name)
    ensures f == g
  {
  }

  // ---- The sweep in place ----

  class Hostlet {
    /** When each tracked orphan was first seen. */
    var orphans: map<string, int>

    constructor ()
      ensures orphans == map[]
    {
      orphans := map[];
    }

    method ContainerOrphanSweep(w: Sweep) returns (done: Actions)
      modifies this
      ensures forall name :: MarkOf(orphans, name) == NextMark(MarkOf(old(orphans), name), w, name)
      ensures !w.Effective() ==> done == NONE
      ensures forall name :: name in done.restored <==> w.Effective() && name in old(orphans) && name in w.desired.names
      ensures forall name :: name in done.quarantined <==> Sights(w, name) && name !in old(orphans)
      ensures forall name :: name in done.stopped <==> Sights(w, name) && name in old(orphans) && w.local[name]
      ensures forall name :: name in done.removed <==> Removes(old(orphans), w, name)
      ensures done.quarantined + done.stopped + done.removed + done.restored != {} ==>
                w.desired.ok && 0 < w.desired.syncedAt && w.now - w.desired.syncedAt <= 60 && w.desired.names != {}
      ensures forall name :: name in done.quarantined + done.stopped + done.removed ==>
                name in w.local && name !in w.desired.names && ValidName(name)
      ensures forall name :: name in done.removed ==>
                name !in w.stuck && name in old(orphans) && w.now - old(orphans)[name] >= 86400
    {
      hide ValidName;
      if !w.desired.IsFresh(w.now) || w.desired.names == {} {
        return NONE;
      }
      var restored := Recover(w);
      var quarantined, stopped, removed := Reap(w);
      done := Actions(restored, quarantined, stopped, removed);
    }

    /** Orphans that are desired again are no orphans. */
    method Recover(w: Sweep) returns (restored: set<string>)
      modifies this
      ensures orphans == map name | name in old(orphans) && name !in w.desired.names :: old(orphans)[name]
      ensures forall name :: name in restored <==> name in old(orphans) && name in w.desired.names
    {
      restored := {};
      var todo := orphans.Keys;
      while todo != {}
        invariant todo <= old(orphans.Keys)
        invariant orphans == map name | name in old(orphans)
                  && (name in todo || name !in w.desired.names) :: old(orphans)[name]
        invariant forall name :: name in restored <==> name in old(orphans) && name !in todo && name in w.desired.names
      {
        var name :| name in todo;
        todo := todo - {name};
        if name in w.desired.names {
          orphans := orphans - {name};
          restored := restored + {name};
        }
      }
    }

    /** Detects, keeps down and, after the grace period, removes. */
    method Reap(w: Sweep) returns (quarantined: set<string>, stopped: set<string>, removed: set<string>)
      requires w.Effective() && forall name :: name in orphans ==> name !in w.desired.names
      modifies this
      ensures forall name :: MarkOf(orphans, name) == NextMark(MarkOf(old(orphans), name), w, name)
      ensures forall name :: name in quarantined <==> Sights(w, name) && name !in old(orphans)
      ensures forall name :: name in stopped <==> Sights(w, name) && name in old(orphans) && w.local[name]
      ensures forall name :: name in removed <==> Removes(old(orphans), w, name)
    {
      hide ValidName;
      quarantined, stopped, removed := {}, {}, {};
      var todo := w.local.Keys;
      while todo != {}
        invariant todo <= w.local.Keys
        invariant forall name :: MarkOf(orphans, name) ==
                    if name in todo then MarkOf(old(orphans), name) else NextMark(MarkOf(old(orphans), name), w, name)
        invariant forall name :: name in quarantined <==> Sights(w, name) && name !in todo && name !in old(orphans)
        invariant forall name :: name in stopped <==>
                  Sights(w, name) && name !in todo && name in old(orphans) && w.local[name]
        invariant forall name :: name in removed <==> name !in todo && Removes(old(orphans), w, name)
      {
        var name :| name in todo;
        assert MarkOf(orphans, name) == MarkOf(old(orphans), name);
        todo := todo - {name};
        if !ValidName(name) || name in w.desired.names {
          continue;
        }
        var firstSeen := MarkedAt(orphans, w, name);
        if name !in orphans {
          orphans := orphans[name := w.now];
          quarantined := quarantined + {name};
        } else if w.local[name] {
          stopped := stopped + {name};
        }
        if w.now - firstSeen >= ORPHAN_GRACE && name !in w.stuck {
          orphans := orphans - {name};
          removed := removed + {name};
        }
      }
    }
  }
}
