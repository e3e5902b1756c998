/**
 Alert evaluation: per rule and target a streak machine decides when an alert
 fires and when it resolves, and every transition is written through to the
 store, from which the next leader resumes.
 */
module Alerts {
  import opened Common

  const ALERT_FIRING_REFRESH_SEC := 60

  /** Consecutive evaluations needed before firing and before resolving. */
  datatype Rule = Rule(id: string, fireStreak: nat, resolveStreak: nat)

  const HOST_DOWN := "host_down"
  const DISK_FULL := "disk_full"
  const REPLICA_CRASHLOOP := "replica_crashloop"

  const RULES := [Rule(HOST_DOWN, 1, 2), Rule(DISK_FULL, 2, 1), Rule(REPLICA_CRASHLOOP, 1, 1)]

  datatype AlertState = Unset | Firing | Resolved

  datatype Alert = Alert(rule: string, target: string, state: AlertState, startTime: int, updateTime: int,
                         breachCount: nat, message: string)

  datatype Entry = Entry(alert: Alert, posRun: nat, negRun: nat, lastWrite: int)

  /** What the leader remembers of one alert, and its stored record. */
  datatype Cell = Cell(entry: Option<Entry>, record: Option<Alert>)

  const NEVER := Cell(None, None)

  predicate FiringInMemory(c: Cell) {
    c.entry.Some? && c.entry.value.alert.state == Firing
  }

  predicate FiringInStore(c: Cell) {
    c.record.Some? && c.record.value.state == Firing
  }

  /** Store and memory tell the same: which alerts fire, and since when. */
  predicate InSync(c: Cell) {
    && FiringInMemory(c) == FiringInStore(c)
    && (FiringInMemory(c) ==> c.entry.value.alert.startTime == c.record.value.startTime)
  }

  // ---- The steps ----

  datatype Step =
    | Evaluate(positive: bool, now: int, message: string, written: bool)
    | Gone(now: int, message: string, written: bool)
    | Failover
    | Expire

  /** A write that fails is logged and forgotten. */
  function Write(record: Option<Alert>, a: Alert, written: bool): Option<Alert> {
    if written then Some(a) else record
  }

  function NewEntry(rule: string, target: string): Entry {
    Entry(Alert(rule, target, Unset, 0, 0, 0, ""), 0, 0, 0)
  }

  function Resolve(c: Cell, now: int, message: string, written: bool): Cell
    requires c.entry.Some?
  {
    var a := c.entry.value.alert;
    var resolved := a.(state := Resolved, updateTime := now, message := if message != "" then message else a.message);
    Cell(None, Write(c.record, resolved, written))
  }

  function EvaluatePositive(c: Cell, rule: Rule, target: string, now: int, message: string, written: bool): Cell {
    var e := c.entry.GetOr(NewEntry(rule.id, target));
    var a := e.alert.(updateTime := now, message := if message != "" then message else e.alert.message);
    if a.state == Firing then
      var counted := a.(breachCount := a.breachCount + 1);
      if now - e.lastWrite >= ALERT_FIRING_REFRESH_SEC then
        Cell(Some(Entry(counted, e.posRun + 1, 0, now)), Write(c.record, counted, written))
      else Cell(Some(Entry(counted, e.posRun + 1, 0, e.lastWrite)), c.record)
    else if e.posRun + 1 >= rule.fireStreak then
      var fired := a.(state := Firing, startTime := now, breachCount := 1);
      Cell(Some(Entry(fired, e.posRun + 1, 0, now)), Write(c.record, fired, written))
    else Cell(Some(Entry(a, e.posRun + 1, 0, e.lastWrite)), c.record)
  }

  function EvaluateNegative(c: Cell, rule: Rule, now: int, written: bool): Cell {
    if c.entry.None? then c
    else
      var e := c.entry.value;
      if e.alert.state != Firing then Cell(None, c.record)
      else
        var counted := Cell(Some(e.(posRun := 0, negRun := e.negRun + 1)), c.record);
        if e.negRun + 1 >= rule.resolveStreak then Resolve(counted, now, "condition cleared", written) else counted
  }

  /** A new leader knows what the store says is firing. */
  function Load(record: Option<Alert>): Option<Entry> {
    if record.Some? && record.value.state == Firing
    then Some(Entry(record.value, record.value.breachCount, 0, record.value.updateTime))
    else None
  }

  function Next(c: Cell, rule: Rule, target: string, step: Step): Cell {
    match step
    case Evaluate(positive, now, message, written) =>
      if positive then EvaluatePositive(c, rule, target, now, message, written)
      else EvaluateNegative(c, rule, now, written)
    case Gone(now, message, written) => if c.entry.Some? then Resolve(c, now, message, written) else c
    case Failover => c.(entry := Load(c.record))
    case Expire => if c.record.Some? && c.record.value.state == Resolved then c.(record := None) else c
  }

  function Run(rule: Rule, target: string, steps: seq<Step>): Cell
    decreases |steps|
  {
    if steps == [] then NEVER
    else Next(Run(rule, target, steps[..|steps| - 1]), rule, target, steps[|steps| - 1])
  }

  // ---- Closed form ----

  /**
   The number of evaluations of this sign that the history ends in. A record that
   expires does not interrupt them; a change of leader or the removal of the
   target does.
   */
  function Streak(steps: seq<Step>, positive: bool): nat
    decreases |steps|
  {
    if steps == [] then 0
    else
      match steps[|steps| - 1]
      case Evaluate(p, _, _, _) => if p == positive then 1 + Streak(steps[..|steps| - 1], positive) else 0
      case Expire => Streak(steps[..|steps| - 1], positive)
      case Gone(_, _, _) => 0
      case Failover => 0
  }

  predicate Raises(rule: Rule, steps: seq<Step>) {
    Streak(steps, true) >= rule.fireStreak
  }

  /** The history ends in a long enough negative run, or with the target gone. */
  predicate Clears(rule: Rule, steps: seq<Step>) {
    Streak(steps, false) >= rule.resolveStreak || (steps != [] && steps[|steps| - 1].Gone?)
  }

  /** Some run reached the fire threshold, and nothing has cleared it since. */
  ghost predicate ShouldFire(rule: Rule, steps: seq<Step>) {
    exists k :: 0 <= k <= |steps| && Raises(rule, steps[..k])
                && forall j :: k < j <= |steps| ==> !Clears(rule, steps[..j])
  }

  /** The time of the evaluation with which the present incident began. */
  ghost function Since(rule: Rule, steps: seq<Step>): int
    decreases |steps|
  {
    if steps == [] then 0
    else
      var before, step := steps[..|steps| - 1], steps[|steps| - 1];
      if ShouldFire(rule, steps) && !ShouldFire(rule, before) && step.Evaluate? then step.now else Since(rule, before)
  }

  predicate GoodRule(rule: Rule) {
    rule.fireStreak >= 1 && rule.resolveStreak >= 1
  }

  lemma {:induction false} OneStreak(steps: seq<Step>)
    ensures Streak(steps, true) == 0 || Streak(steps, false) == 0
    decreases |steps|
  {
    if steps != [] {
      OneStreak(steps[..|steps| - 1]);
    }
  }

  /** One more step: what it does to the closed form depends on this step alone. */
  lemma ShouldFireStep(rule: Rule, steps: seq<Step>)
    requires GoodRule(rule) && steps != []
    ensures ShouldFire(rule, steps) <==>
            Raises(rule, steps) || (!Clears(rule, steps) && ShouldFire(rule, steps[..|steps| - 1]))
  {
    hide Raises, Clears;
    var n, before := |steps|, steps[..|steps| - 1];
    assert steps[..n] == steps;
    assert forall k :: 0 <= k < n ==> steps[..k] == before[..k];
    if Raises(rule, steps) {
      assert Raises(rule, steps[..n]);
    }
    if !Clears(rule, steps) && ShouldFire(rule, before) {
      var k :| 0 <= k <= |before| && Raises(rule, before[..k])
               && forall j :: k < j <= |before| ==> !Clears(rule, before[..j]);
      assert Raises(rule, steps[..k]);
      forall j | k < j <= n ensures !Clears(rule, steps[..j]) {
        if j < n {
          assert steps[..j] == before[..j];
        }
      }
    }
    if ShouldFire(rule, steps) && !Raises(rule, steps) {
      var k :| 0 <= k <= n && Raises(rule, steps[..k]) && forall j :: k < j <= n ==> !Clears(rule, steps[..j]);
      assert !Clears(rule, steps[..n]);
      forall j | k < j <= |before| ensures !Clears(rule, before[..j]) {
        assert steps[..j] == before[..j];
      }
      assert Raises(rule, before[..k]);
    }
  }

  predicate AllWritten(steps: seq<Step>) {
    forall k :: 0 <= k < |steps| ==> (steps[k].Evaluate? || steps[k].Gone?) ==> steps[k].written
  }

  /** What ties the machine to the history it has seen. */
  ghost predicate Tracks(c: Cell, rule: Rule, steps: seq<Step>) {
    && FiringInMemory(c) == ShouldFire(rule, steps)
    && (FiringInMemory(c) ==>
          && c.entry.value.negRun == Streak(steps, false)
          && c.entry.value.alert.startTime == Since(rule, steps))
    && (c.entry.Some? && !FiringInMemory(c) ==> c.entry.value.posRun == Streak(steps, true))
    && (c.entry.None? ==> Streak(steps, true) == 0)
  }

  lemma StreakLast(steps: seq<Step>, step: Step, positive: bool)
    ensures Streak(steps + [step], positive) ==
            match step
            case Evaluate(p, _, _, _) => (if p == positive then 1 + Streak(steps, positive) else 0)
            case Expire => Streak(steps, positive)
            case Gone(_, _, _) => 0
            case Failover => 0
  {
    assert (steps + [step])[..|steps|] == steps;
  }

  lemma NextTracks(c: Cell, rule: Rule, target: string, steps: seq<Step>, step: Step)
    requires GoodRule(rule) && Tracks(c, rule, steps) && (step.Failover? ==> InSync(c))
    ensures Tracks(Next(c, rule, target, step), rule, steps + [step])
  {
    hide ShouldFire, Streak;
    var all := steps + [step];
    assert all[..|all| - 1] == steps;
    StreakLast(steps, step, true);
    StreakLast(steps, step, false);
    OneStreak(steps);
    ShouldFireStep(rule, all);
    if step.Expire? {
      AlreadyDecided(rule, steps);
    }
  }

  /** What the history up to here raises or clears is already in force. */
  lemma AlreadyDecided(rule: Rule, steps: seq<Step>)
    requires GoodRule(rule)
    ensures Raises(rule, steps) ==> ShouldFire(rule, steps)
    ensures Streak(steps, false) >= rule.resolveStreak ==> !ShouldFire(rule, steps)
  {
    hide ShouldFire;
    OneStreak(steps);
    if steps != [] {
      ShouldFireStep(rule, steps);
    }
  }

  lemma NextInSync(c: Cell, rule: Rule, target: string, step: Step)
    requires InSync(c) && ((step.Evaluate? || step.Gone?) ==> step.written)
    ensures InSync(Next(c, rule, target, step))
  {
  }

  /**
   What the leader remembers is the closed form, whatever became of the writes, as
   long as store and memory agree whenever the leader changes.
   */
  lemma {:induction false} MemoryIsClosedForm(rule: Rule, target: string, steps: seq<Step>)
    requires GoodRule(rule)
    requires forall k :: 0 <= k < |steps| && steps[k].Failover? ==> InSync(Run(rule, target, steps[..k]))
    ensures FiringInMemory(Run(rule, target, steps)) <==> ShouldFire(rule, steps)
    ensures Tracks(Run(rule, target, steps), rule, steps)
    decreases |steps|
  {
    hide Next, ShouldFire, InSync;
    if steps == [] {
      NothingHappened(rule);
    } else {
      var before, step := steps[..|steps| - 1], steps[|steps| - 1];
      forall k | 0 <= k < |before| && before[k].Failover? ensures InSync(Run(rule, target, before[..k])) {
        assert before[..k] == steps[..k] && before[k] == steps[k];
      }
      MemoryIsClosedForm(rule, target, before);
      NextTracks(Run(rule, target, before), rule, target, before, step);
      assert before + [step] == steps;
    }
  }

  lemma {:induction false} AllInSync(rule: Rule, target: string, steps: seq<Step>)
    requires AllWritten(steps)
    ensures InSync(Run(rule, target, steps))
    decreases |steps|
  {
    hide Next, InSync;
    if steps == [] {
      NeverInSync();
    } else {
      var before := steps[..|steps| - 1];
      AllInSync(rule, target, before);
      NextInSync(Run(rule, target, before), rule, target, steps[|steps| - 1]);
    }
  }

  lemma NeverInSync()
    ensures InSync(NEVER)
  {
  }

  /**
   The machine is its closed form: after any history of evaluations, removals,
   expiries and changes of leader whose writes went through, the alert fires
   exactly when the latest run that reached its threshold was positive; store and
   memory agree on that and on the time it began.
   */
  lemma RunIsClosedForm(rule: Rule, target: string, steps: seq<Step>)
    requires GoodRule(rule) && AllWritten(steps)
    ensures var c := Run(rule, target, steps);
            && (FiringInMemory(c) <==> ShouldFire(rule, steps))
            && InSync(c)
            && (FiringInStore(c) ==> c.record.value.startTime == Since(rule, steps))
  {
    hide Next, ShouldFire, Run;
    forall k | 0 <= k < |steps| ensures InSync(Run(rule, target, steps[..k])) {
      AllInSync(rule, target, steps[..k]);
    }
    AllInSync(rule, target, steps);
    MemoryIsClosedForm(rule, target, steps);
  }

  lemma NothingHappened(rule: Rule)
    requires GoodRule(rule)
    ensures Tracks(NEVER, rule, [])
  {
    assert forall steps: seq<Step> :: |steps| == 0 ==> steps == [];
  }

  /** A change of leader loses no firing alert and invents none; its start time survives. */
  lemma FailoverRecovers(rule: Rule, target: string, steps: seq<Step>)
    requires GoodRule(rule) && AllWritten(steps)
    ensures var before, after := Run(rule, target, steps), Run(rule, target, steps + [Failover]);
            && FiringInMemory(after) == FiringInMemory(before)
            && (FiringInMemory(after) ==> after.entry.value.alert.startTime == before.entry.value.alert.startTime)
  {
    hide ShouldFire, Tracks;
    RunIsClosedForm(rule, target, steps);
    assert (steps + [Failover])[..|steps|] == steps;
  }

  // ---- Writes that fail ----

  /** The step makes a silent alert fire or a firing one resolve. */
  predicate Transition(c: Cell, rule: Rule, step: Step) {
    match step
    case Evaluate(positive, _, _, _) =>
      if positive then !FiringInMemory(c) && (if c.entry.Some? then c.entry.value.posRun else 0) + 1 >= rule.fireStreak
      else FiringInMemory(c) && c.entry.value.negRun + 1 >= rule.resolveStreak
    case Gone(_, _, _) => FiringInMemory(c)
    case Failover => false
    case Expire => false
  }

  /** The step tries to write: a transition, the refresh of a firing alert, or a target that has gone. */
  predicate Due(c: Cell, rule: Rule, step: Step) {
    match step
    case Evaluate(positive, now, _, _) =>
      Transition(c, rule, step)
      || (positive && FiringInMemory(c) && now - c.entry.value.lastWrite >= ALERT_FIRING_REFRESH_SEC)
    case Gone(_, _, _) => c.entry.Some?
    case Failover => false
    case Expire => false
  }

  /** The step makes store and memory agree, whatever they said before. */
  predicate Settles(c: Cell, rule: Rule, step: Step) {
    step.Failover? || (Due(c, rule, step) && step.written)
  }

  /**
   One step on any cell. A successful write and a change of leader bring store and
   memory together; otherwise a transition parts them, unless the store already
   says what it leads to, and any other step leaves them as they were.
   */
  lemma FailedWriteParts(c: Cell, rule: Rule, target: string, step: Step)
    ensures InSync(Next(c, rule, target, step)) <==>
            || Settles(c, rule, step)
            || (if !Transition(c, rule, step) then InSync(c)
                else if FiringInMemory(c) then !FiringInStore(c)
                else FiringInStore(c) && c.record.value.startTime == step.now)
  {
  }

  /** What the leader says about the alert: whether it fires, and since when. */
  function Told(c: Cell): Option<int> {
    if FiringInMemory(c) then Some(c.entry.value.alert.startTime) else None
  }

  function Stored(c: Cell): Option<int> {
    if FiringInStore(c) then Some(c.record.value.startTime) else None
  }

  /** The number of steps up to the last that settled store and memory. */
  function LastSettled(rule: Rule, target: string, steps: seq<Step>): (k: nat)
    ensures k <= |steps|
    decreases |steps|
  {
    if steps == [] then 0
    else
      var before := steps[..|steps| - 1];
      if Settles(Run(rule, target, before), rule, steps[|steps| - 1]) then |steps|
      else LastSettled(rule, target, before)
  }

  lemma {:induction false} LastSettledIsLast(rule: Rule, target: string, steps: seq<Step>)
    ensures var k := LastSettled(rule, target, steps);
            && (k > 0 ==> Settles(Run(rule, target, steps[..k - 1]), rule, steps[k - 1]))
            && (forall j :: k <= j < |steps| ==> !Settles(Run(rule, target, steps[..j]), rule, steps[j]))
    decreases |steps|
  {
    hide Settles, Run;
    if steps != [] {
      var before := steps[..|steps| - 1];
      LastSettledIsLast(rule, target, before);
      assert forall j :: 0 <= j <= |before| ==> before[..j] == steps[..j];
    }
  }

  lemma SettledOrUnchanged(c: Cell, rule: Rule, target: string, step: Step)
    ensures var next := Next(c, rule, target, step);
            if Settles(c, rule, step) then Stored(next) == Told(next) else Stored(next) == Stored(c)
  {
  }

  /**
   After any history, with any writes failing, the store says what the leader said
   when a write last succeeded or the leader last changed. So the two agree exactly
   when the leader says the same again now: a lost transition stays lost until the
   next refresh of the firing alert, the next transition or a change of leader.
   */
  lemma {:induction false} StoreLags(rule: Rule, target: string, steps: seq<Step>)
    ensures var c, settled := Run(rule, target, steps), Run(rule, target, steps[..LastSettled(rule, target, steps)]);
            && Stored(c) == Told(settled)
            && (InSync(c) <==> Told(c) == Told(settled))
    decreases |steps|
  {
    hide Next, Settles, FiringInMemory, FiringInStore;
    var c := Run(rule, target, steps);
    if steps == [] {
      NothingTold();
    } else {
      var before, step := steps[..|steps| - 1], steps[|steps| - 1];
      SettledOrUnchanged(Run(rule, target, before), rule, target, step);
      if Settles(Run(rule, target, before), rule, step) {
        assert steps[..|steps|] == steps;
      } else {
        StoreLags(rule, target, before);
        var k := LastSettled(rule, target, before);
        assert before[..k] == steps[..k];
      }
    }
    SyncIsSame(c);
  }

  lemma NothingTold()
    ensures Stored(NEVER) == None && Told(NEVER) == None
  {
  }

  lemma SyncIsSame(c: Cell)
    ensures InSync(c) <==> Stored(c) == Told(c)
  {
  }

  /**
   A write of the firing transition fails, and the leader changes: the new leader
   knows nothing of the alert. A refresh a minute later would have repaired it.
   */
  lemma LostTransition(target: string)
    ensures var rule := RULES[0];
            var fired := [Evaluate(true, 100, "down", false)];
            && Told(Run(rule, target, fired)) == Some(100) && Stored(Run(rule, target, fired)) == None
            && ShouldFire(rule, fired + [Failover])
            && Told(Run(rule, target, fired + [Failover])) == None
            && Stored(Run(rule, target, fired + [Evaluate(true, 160, "down", true)])) == Some(100)
  {
    var rule := RULES[0];
    var step, refresh := Evaluate(true, 100, "down", false), Evaluate(true, 160, "down", true);
    var fired := [step];
    assert fired[..0] == [] && (fired + [Failover])[..1] == fired && (fired + [refresh])[..1] == fired;
    assert Run(rule, target, fired) == Next(NEVER, rule, target, step);
    assert Streak([], true) == 0;
    assert Raises(rule, fired);
    assert fired[..1] == fired;
    assert !Clears(rule, fired + [Failover]);
    ShouldFireStep(rule, fired);
    ShouldFireStep(rule, fired + [Failover]);
  }

  // ---- What an alert says ----

  /** The steps since the alert came to the leader's mind. */
  ghost function Episode(rule: Rule, target: string, steps: seq<Step>): seq<Step>
    decreases |steps|
  {
    if steps == [] || Run(rule, target, steps).entry.None? then []
    else Episode(rule, target, steps[..|steps| - 1]) + [steps[|steps| - 1]]
  }

  predicate IsPositive(step: Step) {
    step.Evaluate? && step.positive
  }

  function Positives(steps: seq<Step>): nat
    decreases |steps|
  {
    if steps == [] then 0
    else Positives(steps[..|steps| - 1]) + if IsPositive(steps[|steps| - 1]) then 1 else 0
  }

  /** The time of the last positive evaluation. */
  function LastPositive(steps: seq<Step>): int
    decreases |steps|
  {
    if steps == [] then 0
    else if IsPositive(steps[|steps| - 1]) then steps[|steps| - 1].now
    else LastPositive(steps[..|steps| - 1])
  }

  /** The last text that a positive evaluation gave. */
  function LastMessage(steps: seq<Step>): string
    decreases |steps|
  {
    if steps == [] then ""
    else
      var last := steps[|steps| - 1];
      if IsPositive(last) && last.message != "" then last.message else LastMessage(steps[..|steps| - 1])
  }

  ghost predicate Says(e: Entry, rule: Rule, target: string, episode: seq<Step>) {
    && e.alert.rule == rule.id && e.alert.target == target
    && Positives(episode) > 0 && e.alert.updateTime == LastPositive(episode) && e.alert.message == LastMessage(episode)
    && (e.alert.state == Firing <==> Positives(episode) >= rule.fireStreak)
    && (e.alert.state == Firing ==> e.alert.breachCount == Positives(episode) - rule.fireStreak + 1)
    && (e.alert.state != Firing ==> e.posRun == Positives(episode))
  }

  /**
   Under one leader, an alert that is remembered says when it was last seen and with
   which text; it fires once it has been seen as often as its rule asks, and counts
   the sightings from then on.
   */
  lemma {:induction false} EntrySays(rule: Rule, target: string, steps: seq<Step>)
    requires GoodRule(rule) && forall k :: 0 <= k < |steps| ==> !steps[k].Failover?
    ensures var c := Run(rule, target, steps);
            c.entry.Some? ==> Says(c.entry.value, rule, target, Episode(rule, target, steps))
    decreases |steps|
  {
    hide Next, Says;
    if steps != [] {
      var before, step := steps[..|steps| - 1], steps[|steps| - 1];
      EntrySays(rule, target, before);
      assert !step.Failover?;
      NextSays(Run(rule, target, before), rule, target, step, Episode(rule, target, before));
      if Run(rule, target, before).entry.None? {
        assert Episode(rule, target, before) == [];
      }
    }
  }

  lemma NextSays(c: Cell, rule: Rule, target: string, step: Step, episode: seq<Step>)
    requires GoodRule(rule) && !step.Failover?
    requires if c.entry.Some? then Says(c.entry.value, rule, target, episode) else episode == []
    ensures var next := Next(c, rule, target, step);
            next.entry.Some? ==> Says(next.entry.value, rule, target, episode + [step])
  {
    EpisodeGrows(episode, step);
    hide Positives, LastPositive, LastMessage;
  }

  lemma EpisodeGrows(episode: seq<Step>, step: Step)
    ensures var more := episode + [step];
            if IsPositive(step) then
              && Positives(more) == Positives(episode) + 1 && LastPositive(more) == step.now
              && LastMessage(more) == if step.message != "" then step.message else LastMessage(episode)
            else
              && Positives(more) == Positives(episode) && LastPositive(more) == LastPositive(episode)
              && LastMessage(more) == LastMessage(episode)
    ensures Positives([]) == 0 && LastMessage([]) == ""
  {
    assert (episode + [step])[..|episode|] == episode;
  }

  /** Since when the store knows what a firing alert says: never more than a minute before it was last seen. */
  ghost predicate RecordFresh(c: Cell) {
    FiringInMemory(c) ==>
      var e := c.entry.value;
      && FiringInStore(c) && c.record.value.rule == e.alert.rule && c.record.value.target == e.alert.target
      && c.record.value.startTime == e.alert.startTime && c.record.value.updateTime == e.lastWrite
      && e.alert.updateTime - e.lastWrite < 60
  }

  /** As long as the writes succeed, under any leaders. */
  lemma {:induction false} RecordsAreFresh(rule: Rule, target: string, steps: seq<Step>)
    requires AllWritten(steps)
    ensures RecordFresh(Run(rule, target, steps))
    decreases |steps|
  {
    hide Next, RecordFresh;
    if steps != [] {
      var before, step := steps[..|steps| - 1], steps[|steps| - 1];
      RecordsAreFresh(rule, target, before);
      NextFresh(Run(rule, target, before), rule, target, step);
    } else {
      NeverFresh();
    }
  }

  lemma NeverFresh()
    ensures RecordFresh(NEVER)
  {
  }

  lemma NextFresh(c: Cell, rule: Rule, target: string, step: Step)
    requires RecordFresh(c) && (step.Evaluate? ==> step.written) && (step.Gone? ==> step.written)
    ensures RecordFresh(Next(c, rule, target, step))
  {
  }

  // ---- The leader's runtime ----

  function Id(rule: string, target: string): string {
    rule + "/" + target
  }

  function RuleIndex(rules: seq<Rule>, id: string): (i: nat)
    ensures i <= |rules| && (i < |rules| ==> rules[i].id == id)
  {
    if rules == [] || rules[0].id == id then 0 else 1 + RuleIndex(rules[1..], id)
  }

  /** How often a condition must be seen before it fires, and be gone before it resolves. */
  lemma KnownRules(id: string)
    ensures var i := RuleIndex(RULES, id);
            && (i < |RULES| <==> id in ["host_down", "disk_full", "replica_crashloop"])
            && (id == "host_down" ==> RULES[i] == Rule(id, 1, 2))
            && (id == "disk_full" ==> RULES[i] == Rule(id, 2, 1))
            && (id == "replica_crashloop" ==> RULES[i] == Rule(id, 1, 1))
  {
    var two, one := RULES[1..], RULES[1..][1..];
    assert two == [Rule(DISK_FULL, 2, 1), Rule(REPLICA_CRASHLOOP, 1, 1)];
    assert one == [Rule(REPLICA_CRASHLOOP, 1, 1)] && one[1..] == [];
    assert RuleIndex(one[1..], id) == 0;
    assert RuleIndex(one, id) == if id == REPLICA_CRASHLOOP then 0 else 1;
    assert RuleIndex(two, id) == if id == DISK_FULL then 0 else 1 + RuleIndex(one, id);
    assert RuleIndex(RULES, id) == if id == HOST_DOWN then 0 else 1 + RuleIndex(two, id);
  }

  /** The entry after a positive evaluation, and whether its record is due for a write. */
  method CountPositive(c: Cell, spec: Rule, target: string, now: int, message: string, ghost written: bool)
    returns (e: Entry, due: bool)
    ensures EvaluatePositive(c, spec, target, now, message, written)
            == Cell(Some(e), if due then Write(c.record, e.alert, written) else c.record)
    ensures c.entry.None? ==> e.alert.rule == spec.id && e.alert.target == target
    ensures c.entry.Some? ==> e.alert.rule == c.entry.value.alert.rule && e.alert.target == c.entry.value.alert.target
  {
    e := if c.entry.Some? then c.entry.value else NewEntry(spec.id, target);
    e := e.(negRun := 0, posRun := e.posRun + 1, alert := e.alert.(updateTime := now));
    if message != "" {
      e := e.(alert := e.alert.(message := message));
    }
    due := false;
    if e.alert.state == Firing {
      e := e.(alert := e.alert.(breachCount := e.alert.breachCount + 1));
      due := now - e.lastWrite >= ALERT_FIRING_REFRESH_SEC;
    } else if e.posRun >= spec.fireStreak {
      e := e.(alert := e.alert.(state := Firing, startTime := now, breachCount := 1));
      due := true;
    }
    if due {
      e := e.(lastWrite := now);
    }
  }

  class AlertsRuntime {
    var entries: map<string, Entry>
    /** The shared store. */
    var store: map<string, Alert>

    constructor ()
      ensures entries == map[] && store == map[]
    {
      entries, store := map[], map[];
    }

    /** Every record and entry is kept under its own id. */
    ghost predicate Valid()
      reads this
    {
      && (forall id :: id in store ==> Id(store[id].rule, store[id].target) == id)
      && (forall id :: id in entries ==> Id(entries[id].alert.rule, entries[id].alert.target) == id)
      && (forall id :: id in entries ==> entries[id].alert.rule != "" && entries[id].alert.target != "")
      && (forall id :: id in store ==> store[id].rule != "" && store[id].target != "")
    }

    function CellOf(id: string): Cell
      reads this
    {
      Cell(if id in entries then Some(entries[id]) else None, if id in store then Some(store[id]) else None)
    }

    method AlertsWrite(a: Alert, written: bool)
      requires Valid() && a.rule != "" && a.target != ""
      modifies `store
      ensures Valid()
      ensures store == if written then old(store)[Id(a.rule, a.target) := a] else old(store)
      ensures forall id :: CellOf(id) ==
                if id == Id(a.rule, a.target) then old(CellOf(id)).(record := Write(old(CellOf(id)).record, a, written))
                else old(CellOf(id))
    {
      if written {
        store := store[Id(a.rule, a.target) := a];
      }
    }

    method AlertResolve(id: string, now: int, message: string, written: bool)
      requires Valid() && id in entries
      modifies this
      ensures Valid() && id !in entries
      ensures written ==>
                && var a := old(entries)[id].alert;
                && id in store && store[id].state == Resolved && store[id].updateTime == now
                && store[id].startTime == a.startTime && store[id].breachCount == a.breachCount
                && store[id].message == (if message != "" then message else a.message)
      ensures !written ==> store == old(store)
      ensures forall other :: CellOf(other) ==
                if other == id then Resolve(old(CellOf(id)), now, message, written) else old(CellOf(other))
    {
      var a := entries[id].alert;
      a := a.(state := Resolved, updateTime := now);
      if message != "" {
        a := a.(message := message);
      }
      AlertsWrite(a, written);
      entries := entries - {id};
    }

    /** One evaluation of one rule for one target; a rule that is not known is ignored. */
    method AlertEvalCondition(rule: string, target: string, positive: bool, now: int, message: string, written: bool)
      requires Valid() && target != ""
      modifies this
      ensures Valid()
      ensures var i := RuleIndex(RULES, rule);
              forall id :: CellOf(id) ==
                if i < |RULES| && id == Id(rule, target)
                then Next(old(CellOf(id)), RULES[i], target, Evaluate(positive, now, message, written))
                else old(CellOf(id))
    {
      hide Id, EvaluatePositive, RuleIndex;
      var i := RuleIndex(RULES, rule);
      if i == |RULES| {
        return;
      }
      var spec := RULES[i];
      var id := Id(rule, target);
      assert rule != "" by {
        assert spec.id in [HOST_DOWN, DISK_FULL, REPLICA_CRASHLOOP];
      }
      if positive {
        EvalPositive(spec, target, now, message, written);
        return;
      }
      if id !in entries {
        return;
      }
      var e := entries[id].(posRun := 0);
      if e.alert.state != Firing {
        entries := entries - {id};
        return;
      }
      entries := entries[id := e.(negRun := e.negRun + 1)];
      if e.negRun + 1 >= spec.resolveStreak {
        AlertResolve(id, now, "condition cleared", written);
      }
    }

    method EvalPositive(spec: Rule, target: string, now: int, message: string, written: bool)
      requires Valid() && spec.id != "" && target != ""
      modifies this
      ensures Valid()
      ensures forall id :: CellOf(id) ==
                if id == Id(spec.id, target) then EvaluatePositive(old(CellOf(id)), spec, target, now, message, written)
                else old(CellOf(id))
    {
      hide Id, EvaluatePositive;
      var id := Id(spec.id, target);
      var e, due := CountPositive(CellOf(id), spec, target, now, message, written);
      entries := entries[id := e];
      if due {
        AlertsWrite(e.alert, written);
      }
    }

    /**
     A new term: what the store says is firing, as far as the scan reached, is all
     that is known. scanned: the keys that the range read returned.
     */
    method AlertsLoadFromStore(scanned: seq<string>)
      requires Valid() && forall i :: 0 <= i < |scanned| ==> scanned[i] in store
      modifies `entries
      ensures Valid()
      ensures forall id :: id in entries <==> id in scanned && store[id].state == Firing
      ensures forall id :: id in entries ==>
                entries[id].alert == store[id] && entries[id].lastWrite == store[id].updateTime
      ensures forall id :: CellOf(id) ==
                Cell(if id in scanned then Load(old(CellOf(id)).record) else None, old(CellOf(id)).record)
    {
      entries := map[];
      for i := 0 to |scanned|
        invariant Valid()
        invariant forall id :: CellOf(id) ==
                    Cell(if id in scanned[..i] then Load(old(CellOf(id)).record) else None, old(CellOf(id)).record)
      {
        assert scanned[..i + 1] == scanned[..i] + [scanned[i]];
        var a := store[scanned[i]];
        if a.state != Firing || a.rule == "" || a.target == "" {
          continue;
        }
        entries := entries[Id(a.rule, a.target) := Entry(a, a.breachCount, 0, a.updateTime)];
      }
      assert scanned[..|scanned|] == scanned;
      forall id
        ensures id in entries <==> id in scanned && store[id].state == Firing
        ensures id in entries ==> entries[id].alert == store[id] && entries[id].lastWrite == store[id].updateTime
      {
        assert CellOf(id).entry == if id in scanned then Load(CellOf(id).record) else None;
      }
    }

    /** Targets of host rules that have left the registered hosts resolve at once. */
    method SweepGone(evaluated: set<string>, now: int, written: bool)
      requires Valid()
      modifies this
      ensures Valid()
      ensures forall id :: CellOf(id) ==
                if id in old(entries) && old(entries)[id].alert.rule != REPLICA_CRASHLOOP
                   && old(entries)[id].alert.target !in evaluated
                then Resolve(old(CellOf(id)), now, "target removed from zone", written)
                else old(CellOf(id))
    {
      var todo := entries.Keys;
      while todo != {}
        invariant Valid() && todo <= old(entries.Keys)
        invariant forall id :: CellOf(id) ==
                    if id in old(entries) && id !in todo
                       && old(entries)[id].alert.rule != REPLICA_CRASHLOOP
                       && old(entries)[id].alert.target !in evaluated
                    then Resolve(old(CellOf(id)), now, "target removed from zone", written)
                    else old(CellOf(id))
      {
        var id :| id in todo;
        todo := todo - {id};
        assert CellOf(id) == old(CellOf(id));
        var a := entries[id].alert;
        if a.rule == REPLICA_CRASHLOOP || a.target in evaluated {
          continue;
        }
        AlertResolve(id, now, "target removed from zone", written);
      }
    }
  }
}
