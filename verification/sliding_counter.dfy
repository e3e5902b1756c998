/**
 The sliding counter: a ring of one sample a second over a cumulative counter. The
 ring stands for an unbounded history, a step function of time that starts anew
 whenever the counter falls.
 */
module SlidingCounters {

  /** A cumulative value at a time, in unix seconds. */
  datatype Sample = Sample(time: int, value: int)

  // ---- The unbounded history ----

  /** The last sample is the first one, or falls below the one before. */
  predicate Restarts(history: seq<Sample>)
    requires history != []
  {
    |history| == 1 || history[|history| - 1].value < history[|history| - 2].value
  }

  /** The value at a second. Before the first sample of a history its value holds. */
  function At(history: seq<Sample>, s: int): int
    requires history != []
    decreases |history|
  {
    var last := history[|history| - 1];
    if s >= last.time || Restarts(history) then last.value else At(history[..|history| - 1], s)
  }

  function LastTime(history: seq<Sample>): int {
    if history == [] then 0 else history[|history| - 1].time
  }

  /**
   Histories that the ring can represent: the clock does not run backwards, and no
   second sees the counter rise twice.
   */
  ghost predicate Representable(history: seq<Sample>) {
    && (forall i :: 0 <= i < |history| ==> history[i].time > 0)
    && (forall i, j :: 0 <= i < j < |history| ==> history[i].time <= history[j].time)
    && (forall i :: 0 < i < |history| && history[i - 1].time == history[i].time
         ==> history[i].value <= history[i - 1].value)
  }

  lemma {:induction false} AtMonotone(history: seq<Sample>, s: int)
    requires history != []
    ensures At(history, s) <= history[|history| - 1].value
    decreases |history|
  {
    if !(s >= history[|history| - 1].time || Restarts(history)) {
      AtMonotone(history[..|history| - 1], s);
    }
  }

  // ---- The ring ----

  /** lastSeconds 0: nothing recorded yet. */
  datatype Ring = Ring(samples: seq<int>, lastSeconds: int, lastValue: int)

  /** Carries a value over the seconds from..t. */
  function Carry(samples: seq<int>, from: int, t: int, value: int): (r: seq<int>)
    requires samples != []
    ensures |r| == |samples|
    decreases t - from
  {
    if from >= t then samples
    else
      var before := Carry(samples, from, t - 1, value);
      before[(t - 1) % |samples| := value]
  }

  function Recorded(r: Ring, t: int, value: int): (after: Ring)
    requires r.samples != []
    ensures |after.samples| == |r.samples|
  {
    var n := |r.samples|;
    if r.lastSeconds == 0 || value < r.lastValue then Ring(seq(n, _ => value), t, value)
    else if t == r.lastSeconds then r.(samples := r.samples[t % n := value])
    else Ring(Carry(r.samples, r.lastSeconds + 1, t, r.lastValue)[t % n := value], t, value)
  }

  function DeltaOf(r: Ring, t: int, seconds: int): int
    requires r.samples != []
  {
    var n := |r.samples|;
    var window := if seconds > n then n else seconds;
    var d := r.samples[t % n] - r.samples[(t - window) % n];
    if d > 0 then d else 0
  }

  function Run(n: nat, history: seq<Sample>): (r: Ring)
    requires n > 0
    ensures |r.samples| == n
    decreases |history|
  {
    if history == [] then Ring(seq(n, _ => 0), 0, 0)
    else
      var last := history[|history| - 1];
      Recorded(Run(n, history[..|history| - 1]), last.time, last.value)
  }

  /** The ring says the same as the history, on every second of its window. */
  ghost predicate Agrees(r: Ring, history: seq<Sample>) {
    if history == [] then r.lastSeconds == 0
    else
      var last := history[|history| - 1];
      && r.samples != [] && r.lastSeconds == last.time && r.lastValue == last.value
      && forall s :: last.time - |r.samples| < s <= last.time ==> r.samples[s % |r.samples|] == At(history, s)
  }

  lemma ModDistinct(a: int, b: int, n: int)
    requires 0 < b - a < n
    ensures a % n != b % n
  {
    var p, q := a / n, b / n;
    assert a == p * n + a % n && b == q * n + b % n;
    if a % n == b % n {
      assert b - a == (q - p) * n by {
        assert (q - p) * n == q * n - p * n;
      }
      MulSign(q - p, n);
    }
  }

  lemma MulSign(x: int, n: int)
    requires n > 0
    ensures x <= 0 ==> x * n <= 0
    ensures x >= 1 ==> x * n >= n
  {
  }

  lemma {:induction false} CarryAt(samples: seq<int>, from: int, t: int, value: int, s: int)
    requires samples != [] && t - |samples| <= s < t
    ensures Carry(samples, from, t, value)[s % |samples|] == if s >= from then value else samples[s % |samples|]
    decreases t - from
  {
    if from < t && s < t - 1 {
      ModDistinct(s, t - 1, |samples|);
      CarryAt(samples, from, t - 1, value, s);
    }
  }

  lemma AtAppend(history: seq<Sample>, next: Sample, s: int)
    requires history != []
    ensures At(history + [next], s) ==
            if s >= next.time || next.value < history[|history| - 1].value then next.value else At(history, s)
  {
    assert (history + [next])[..|history|] == history;
  }

  /** Behind the last sample the value stays what it was. */
  lemma AtBehind(history: seq<Sample>, s: int)
    requires history != [] && s >= LastTime(history)
    ensures At(history, s) == history[|history| - 1].value
  {
  }

  lemma RecordedAgrees(r: Ring, history: seq<Sample>, next: Sample)
    requires r.samples != [] && Agrees(r, history)
    requires history != [] ==> next.time >= LastTime(history) && LastTime(history) != 0
    requires history != [] && next.time == LastTime(history) ==> next.value <= history[|history| - 1].value
    ensures Agrees(Recorded(r, next.time, next.value), history + [next])
  {
    hide At, Carry;
    var n, t, after, all := |r.samples|, next.time, Recorded(r, next.time, next.value), history + [next];
    if history == [] {
      assert all == [next];
      forall s ensures At(all, s) == next.value {
        FirstSample(next, s);
      }
    } else {
      forall s | t - n < s <= t ensures after.samples[s % n] == At(all, s) {
        AtAppend(history, next, s);
        if next.value >= r.lastValue && s < t {
          ModDistinct(s, t, n);
          if t > r.lastSeconds {
            CarryAt(r.samples, r.lastSeconds + 1, t, r.lastValue, s);
            if s > r.lastSeconds {
              AtBehind(history, s);
            }
          }
        }
      }
    }
  }

  lemma FirstSample(next: Sample, s: int)
    ensures At([next], s) == next.value
  {
  }

  lemma {:induction false} RunAgrees(n: nat, history: seq<Sample>)
    requires n > 0 && Representable(history)
    ensures Agrees(Run(n, history), history)
    decreases |history|
  {
    hide Agrees, Recorded;
    if history == [] {
      EmptyAgrees(n);
    } else {
      var before, last := history[..|history| - 1], history[|history| - 1];
      RunAgrees(n, before);
      RecordedAgrees(Run(n, before), before, last);
      assert before + [last] == history;
    }
  }

  lemma EmptyAgrees(n: nat)
    requires n > 0
    ensures Agrees(Run(n, []), [])
  {
  }

  /**
   In the second of a Record, for every window shorter than the ring, Delta is the
   difference of the history, over gaps longer than the ring and over restarts of
   the counter. A window of the ring's size or more always yields 0.
   */
  lemma DeltaIsExact(n: nat, history: seq<Sample>, seconds: nat)
    requires n > 0 && Representable(history) && history != []
    ensures var t, r := LastTime(history), Run(n, history);
            if seconds < n then DeltaOf(r, t, seconds) == At(history, t) - At(history, t - seconds)
            else DeltaOf(r, t, seconds) == 0
  {
    hide Run;
    var t, r := LastTime(history), Run(n, history);
    RunAgrees(n, history);
    AtMonotone(history, t - seconds);
    AtBehind(history, t);
    if seconds >= n {
      ModShift(t, n);
    } else {
      assert r.samples[t % n] == At(history, t);
      assert r.samples[(t - seconds) % n] == At(history, t - seconds);
    }
  }

  lemma ModShift(t: int, n: int)
    requires n > 0
    ensures (t - n) % n == t % n
  {
    var q := t / n;
    assert t - n == (q - 1) * n + t % n by {
      assert (q - 1) * n == q * n - n;
    }
    DivUnique(t - n, q - 1, t % n, n);
  }

  lemma DivUnique(a: int, q: int, r: int, n: int)
    requires 0 <= r < n && a == q * n + r
    ensures a % n == r
  {
    var p, m := a / n, a % n;
    assert a == p * n + m;
    assert (q - p) * n == m - r by {
      assert (q - p) * n == q * n - p * n;
    }
    MulSign(q - p, n);
    MulSign(p - q, n);
    assert (p - q) * n == -((q - p) * n);
  }

  /** Behind a clock that steps back, the last second that the ring still shows, unless its cell is overwritten. */
  function LastShown(t: int, back: int, n: int): int
    requires n > 0
  {
    if (t - back) % n == 0 then t - 1 else t
  }

  /**
   What a sample does to the ring's agreement: a rise within the second of the sample
   before breaks it. So does a sample from an earlier second, unless the counter falls
   with it, or has not moved since the first second of the window that ends there.
   */
  ghost predicate Breaks(history: seq<Sample>, n: int, next: Sample)
    requires history != [] && n > 0
  {
    var t, last := LastTime(history), history[|history| - 1].value;
    || (next.time == t && next.value > last)
    || (next.time < t && next.value >= last && n >= 2
        && At(history, next.time - n + 1) != At(history, LastShown(t, next.time, n)))
  }

  /** From agreement, a sample of any time and value keeps it exactly unless it breaks it. */
  lemma AgreementLost(r: Ring, history: seq<Sample>, next: Sample)
    requires r.samples != [] && Agrees(r, history) && (history != [] ==> LastTime(history) != 0)
    ensures Agrees(Recorded(r, next.time, next.value), history + [next])
            <==> history == [] || !Breaks(history, |r.samples|, next)
  {
    hide At;
    if history == [] || next.time >= LastTime(history) {
      if history == [] || !Breaks(history, |r.samples|, next) {
        RecordedAgrees(r, history, next);
      }
    } else if next.value < r.lastValue {
      FallAgrees(r, history, next);
    } else {
      SteppedBack(r, history, next);
    }
  }

  /** A fall starts ring and history anew, at whatever time. */
  lemma FallAgrees(r: Ring, history: seq<Sample>, next: Sample)
    requires r.samples != [] && history != [] && Agrees(r, history) && next.value < r.lastValue
    ensures Agrees(Recorded(r, next.time, next.value), history + [next])
  {
    hide At;
    forall s ensures At(history + [next], s) == next.value {
      AtAppend(history, next, s);
    }
  }

  lemma {:induction false} AtRises(history: seq<Sample>, s: int, u: int)
    requires history != [] && s <= u
    ensures At(history, s) <= At(history, u)
    decreases |history|
  {
    var last := history[|history| - 1];
    if !Restarts(history) && s < last.time {
      var before := history[..|history| - 1];
      if u < last.time {
        AtRises(before, s, u);
      } else {
        AtMonotone(before, s);
      }
    }
  }

  /** The second of the ring's window that shares the cell of s. */
  function Alias(t: int, n: int, s: int): (u: int)
    requires n > 0 && s <= t
    ensures t - n < u <= t && u % n == s % n && s <= u && (s > t - n ==> u == s)
  {
    SameCell(t, n, s);
    t - (t - s) % n
  }

  lemma SameCell(t: int, n: int, s: int)
    requires n > 0 && s <= t
    ensures (t - (t - s) % n) % n == s % n && s <= t - (t - s) % n
    ensures s > t - n ==> (t - s) % n == t - s
  {
    var q := (t - s) / n;
    assert t - s == q * n + (t - s) % n;
    assert t - (t - s) % n == s + q * n;
    MulSign(q, n);
    Shifted(s, q, n);
    if s > t - n {
      DivUnique(t - s, 0, t - s, n);
    }
  }

  lemma Shifted(s: int, q: int, n: int)
    requires n > 0
    ensures (s + q * n) % n == s % n
  {
    var p := s / n;
    assert s == p * n + s % n;
    assert s + q * n == (p + q) * n + s % n;
    DivUnique(s + q * n, p + q, s % n, n);
  }

  /** A sample from an earlier second that is no fall changes one cell only; the others show later seconds. */
  lemma SteppedBack(r: Ring, history: seq<Sample>, next: Sample)
    requires r.samples != [] && history != [] && Agrees(r, history) && LastTime(history) != 0
    requires next.time < LastTime(history) && next.value >= r.lastValue
    ensures Agrees(Recorded(r, next.time, next.value), history + [next]) <==> !Breaks(history, |r.samples|, next)
  {
    hide At, Alias;
    var n, t, back := |r.samples|, LastTime(history), next.time;
    var end, all := Recorded(r, back, next.value), history + [next];
    assert end == Ring(r.samples[back % n := next.value], back, next.value);
    forall s | back - n < s <= back
      ensures At(all, s) == if s == back then next.value else At(history, s)
      ensures end.samples[s % n] == if s == back then next.value else At(history, Alias(t, n, s))
    {
      AtAppend(history, next, s);
      if s < back {
        ModDistinct(s, back, n);
        assert r.samples[Alias(t, n, s) % n] == At(history, Alias(t, n, s));
      }
    }
    FlatBehind(history, n, back);
  }

  /** The cells show what the history says there exactly when it did not move in between. */
  lemma FlatBehind(history: seq<Sample>, n: int, back: int)
    requires history != [] && n > 0 && back < LastTime(history)
    ensures var t := LastTime(history);
            (forall s :: back - n < s < back ==> At(history, Alias(t, n, s)) == At(history, s))
            <==> n == 1 || At(history, back - n + 1) == At(history, LastShown(t, back, n))
  {
    hide At, Alias;
    var t := LastTime(history);
    var first, last := back - n + 1, LastShown(t, back, n);
    if n >= 2 {
      if forall s :: back - n < s < back ==> At(history, Alias(t, n, s)) == At(history, s) {
        var p := Behind(t, back, n);
        Overlap(t, back, n);
        assert At(history, Alias(t, n, first)) == At(history, first);
        assert At(history, Alias(t, n, p)) == At(history, p);
        AtRises(history, first, p);
        AtRises(history, p, Alias(t, n, first));
      }
      if At(history, first) == At(history, last) {
        forall s | back - n < s < back ensures At(history, Alias(t, n, s)) == At(history, s) {
          InBetween(t, back, n, s);
          AtRises(history, first, s);
          AtRises(history, s, Alias(t, n, s));
          AtRises(history, Alias(t, n, s), last);
        }
      }
    }
  }

  /** The second before back that shares the cell of the last one shown. */
  function Behind(t: int, back: int, n: int): int
    requires n > 0
  {
    back - (back - LastShown(t, back, n)) % n
  }

  lemma Overlap(t: int, back: int, n: int)
    requires n >= 2 && back < t
    ensures var p := Behind(t, back, n);
            && back - n < p < back && Alias(t, n, p) == LastShown(t, back, n)
            && Alias(t, n, back - n + 1) > back
  {
    hide Alias;
    var last := LastShown(t, back, n);
    var p := Behind(t, back, n);
    var q := (back - last) / n;
    assert back - last == q * n + (back - last) % n;
    OtherCell(t, back, n);
    Shifted(last, q, n);
    if Alias(t, n, p) != last {
      ModApart(Alias(t, n, p), last, n);
    }
    var first := back - n + 1;
    if Alias(t, n, first) <= back {
      ModApart(Alias(t, n, first), back + 1, n);
      Shifted(first, 1, n);
    }
  }

  /** The cell of back shows the new sample, so the last second shown has another one. */
  lemma OtherCell(t: int, back: int, n: int)
    requires n >= 2 && back < t
    ensures (back - LastShown(t, back, n)) % n != 0 && t - n < LastShown(t, back, n) <= t
  {
    var d := t - back;
    var q := d / n;
    assert d == q * n + d % n;
    if d % n == 0 {
      assert back - (t - 1) == 1 + (-q) * n;
      Shifted(1, -q, n);
      DivUnique(1, 0, 1, n);
    } else {
      assert -d == (-q - 1) * n + (n - d % n);
      DivUnique(-d, -q - 1, n - d % n, n);
    }
  }

  lemma ModApart(a: int, b: int, n: int)
    requires n > 0 && a != b && -n < b - a < n
    ensures a % n != b % n
  {
    if a < b {
      ModDistinct(a, b, n);
    } else {
      ModDistinct(b, a, n);
    }
  }

  lemma InBetween(t: int, back: int, n: int, s: int)
    requires n >= 2 && back < t && back - n < s < back
    ensures Alias(t, n, s) <= LastShown(t, back, n)
  {
    hide Alias;
    if (t - back) % n == 0 && Alias(t, n, s) == t {
      var q := (t - back) / n;
      Shifted(back, q, n);
      ModDistinct(s, back, n);
    }
  }

  /** A clock that steps back: the sample is no rise within the second before, and the agreement is lost. */
  lemma ClockSteppedBack()
    ensures var history, next := [Sample(100, 5), Sample(101, 9)], Sample(95, 10);
            && Agrees(Run(60, history), history)
            && !Agrees(Recorded(Run(60, history), 95, 10), history + [next])
  {
    hide Run, Agrees, Recorded;
    var history, next := [Sample(100, 5), Sample(101, 9)], Sample(95, 10);
    RunAgrees(60, history);
    AgreementLost(Run(60, history), history, next);
    assert history[..1] == [Sample(100, 5)];
    assert At(history[..1], 36) == 5;
  }

  /** The history was at this value on the whole window before its last second. */
  ghost predicate Flat(history: seq<Sample>, n: int, value: int)
    requires history != []
  {
    forall s :: LastTime(history) - n < s < LastTime(history) ==> At(history, s) == value
  }

  /**
   The value before a rise that repeats a second is what later gaps are filled with.
   So after the next sample, whenever it comes and whatever it says, the ring agrees
   with the history again exactly in these cases: the counter falls below that value;
   it does not fall and the sample is one second later; or it falls back to just
   that value, with the repeated second out of the window or with nothing else in it.
   */
  lemma RepeatedSecond(r: Ring, history: seq<Sample>, repeated: int, next: Sample)
    requires |r.samples| >= 2 && history != [] && Agrees(r, history) && LastTime(history) > 0
    requires repeated > r.lastValue && next.time >= LastTime(history)
    ensures var t, n := LastTime(history), |r.samples|;
            var end := Recorded(Recorded(r, t, repeated), next.time, next.value);
            Agrees(end, history + [Sample(t, repeated)] + [next]) <==>
              || next.value < r.lastValue
              || (next.value >= repeated && next.time == t + 1)
              || (next.value == r.lastValue
                   && (next.time - t >= n || (next.time == t && Flat(history, n, r.lastValue))))
  {
    hide At, Carry, Recorded, Expected, Shown, Flat;
    var t, n, t2 := LastTime(history), |r.samples|, next.time;
    var once := Recorded(r, t, repeated);
    var end, all := Recorded(once, t2, next.value), history + [Sample(t, repeated)] + [next];
    RecordedRegisters(r, history, repeated, next);
    forall s | t2 - n < s <= t2 ensures At(all, s) == Expected(history, repeated, next, s) {
      ExpectedValue(history, repeated, next, s);
    }
    if next.value < r.lastValue {
      FallenValue(r, history, repeated, next);
    } else {
      forall s | t2 - n < s <= t2 ensures end.samples[s % n] == Shown(history, r.lastValue, repeated, next, s) {
        ShownValue(r, history, repeated, next, s);
      }
      ShownIsExpected(history, r.lastValue, repeated, next, n);
    }
  }

  lemma RecordedRegisters(r: Ring, history: seq<Sample>, repeated: int, next: Sample)
    requires r.samples != [] && history != [] && Agrees(r, history) && LastTime(history) > 0
    requires repeated > r.lastValue && next.time >= LastTime(history)
    ensures var end := Recorded(Recorded(r, LastTime(history), repeated), next.time, next.value);
            && end.lastSeconds == next.time && |end.samples| == |r.samples|
            && end.lastValue ==
               if next.time == LastTime(history) && next.value >= r.lastValue then r.lastValue else next.value
  {
    hide At, Carry;
  }

  lemma ExpectedValue(history: seq<Sample>, repeated: int, next: Sample, s: int)
    requires history != [] && repeated >= history[|history| - 1].value && next.time >= LastTime(history)
    ensures At(history + [Sample(LastTime(history), repeated)] + [next], s) == Expected(history, repeated, next, s)
  {
    hide At;
    AtAppend(history, Sample(LastTime(history), repeated), s);
    AtAppend(history + [Sample(LastTime(history), repeated)], next, s);
  }

  /** A fall below the value before the rise starts ring and history anew. */
  lemma FallenValue(r: Ring, history: seq<Sample>, repeated: int, next: Sample)
    requires r.samples != [] && history != [] && Agrees(r, history) && LastTime(history) > 0
    requires repeated > r.lastValue > next.value && next.time >= LastTime(history)
    ensures var end := Recorded(Recorded(r, LastTime(history), repeated), next.time, next.value);
            forall s :: end.samples[s % |r.samples|] == next.value == Expected(history, repeated, next, s)
  {
    hide At, Carry;
  }

  /** When what the ring shows is what the history says. */
  lemma ShownIsExpected(history: seq<Sample>, before: int, repeated: int, next: Sample, n: int)
    requires history != [] && n >= 2 && repeated > before && next.time >= LastTime(history) && next.value >= before
    ensures var t, t2 := LastTime(history), next.time;
            (forall s :: t2 - n < s <= t2
                ==> Shown(history, before, repeated, next, s) == Expected(history, repeated, next, s))
            && (t2 == t ==> before == next.value)
            <==>
            || (next.value >= repeated && t2 == t + 1)
            || (next.value == before && (t2 - t >= n || (t2 == t && Flat(history, n, before))))
  {
    hide At;
    var t, t2 := LastTime(history), next.time;
    assert t2 > t ==> t2 - n < t2 - 1 <= t2;
    if forall s :: t2 - n < s <= t2 ==>
         Shown(history, before, repeated, next, s) == Expected(history, repeated, next, s) {
      if t2 > t {
        assert Shown(history, before, repeated, next, t2 - 1) == Expected(history, repeated, next, t2 - 1);
      }
      if t2 - n < t {
        assert Shown(history, before, repeated, next, t) == Expected(history, repeated, next, t);
      }
      if t2 == t && next.value == before {
        forall s | t - n < s < t ensures At(history, s) == before {
          assert Shown(history, before, repeated, next, s) == Expected(history, repeated, next, s);
        }
      }
    }
  }

  /** What the history says about a second up to the next sample. */
  function Expected(history: seq<Sample>, repeated: int, next: Sample, s: int): int
    requires history != []
  {
    if s >= next.time || next.value < repeated then next.value
    else if s >= LastTime(history) then repeated
    else At(history, s)
  }

  /** What the ring shows of it when the next sample does not fall below the value before the rise. */
  function Shown(history: seq<Sample>, before: int, repeated: int, next: Sample, s: int): int
    requires history != []
  {
    if s == next.time then next.value
    else if s > LastTime(history) then before
    else if s == LastTime(history) then repeated
    else At(history, s)
  }

  lemma ShownValue(r: Ring, history: seq<Sample>, repeated: int, next: Sample, s: int)
    requires r.samples != [] && history != [] && Agrees(r, history) && LastTime(history) > 0
    requires repeated > r.lastValue && next.time >= LastTime(history) && next.value >= r.lastValue
    requires next.time - |r.samples| < s <= next.time
    ensures Recorded(Recorded(r, LastTime(history), repeated), next.time, next.value).samples[s % |r.samples|]
            == Shown(history, r.lastValue, repeated, next, s)
  {
    hide At, Carry;
    var t, n := LastTime(history), |r.samples|;
    var once := Recorded(r, t, repeated);
    if s < next.time {
      ModDistinct(s, next.time, n);
      if next.time > t {
        CarryAt(once.samples, t + 1, next.time, r.lastValue, s);
      }
      if s < t {
        ModDistinct(s, t, n);
      }
    }
  }

  // ---- In place ----

  class SlidingCounter {
    const samples: array<int>
    var lastSeconds: int
    var lastValue: int

    /** The ring is never smaller than a minute. */
    constructor (maxSeconds: nat)
      requires maxSeconds >= 60
      ensures fresh(samples) && samples.Length == maxSeconds
      ensures lastSeconds == 0 && Contents() == Run(maxSeconds, [])
    {
      samples := new int[maxSeconds](_ => 0);
      lastSeconds, lastValue := 0, 0;
      new;
      assert samples[..] == seq(maxSeconds, _ => 0);
    }

    ghost function Contents(): Ring
      reads this, samples
    {
      Ring(samples[..], lastSeconds, lastValue)
    }

    method Record(t: int, totalValue: int)
      requires samples.Length > 0 && t >= 0
      modifies this, samples
      ensures Contents() == Recorded(old(Contents()), t, totalValue)
    {
      var size := samples.Length;
      if lastSeconds == 0 || totalValue < lastValue {
        lastSeconds := t;
        lastValue := totalValue;
        for i := 0 to size
          invariant lastSeconds == t && lastValue == totalValue
          invariant forall j :: 0 <= j < i ==> samples[j] == totalValue
        {
          samples[i] := totalValue;
        }
        ghost var filled := samples[..];
        assert filled == seq(size, _ => totalValue);
        IndexInRing(t, size);
        samples[t % size] := totalValue;
        assert samples[..] == filled;
        return;
      }
      IndexInRing(t, size);
      if t == lastSeconds {
        samples[t % size] := totalValue;
      } else {
        if t > lastSeconds {
          FillGap(t);
        }
        samples[t % size] := totalValue;
        lastSeconds := t;
        lastValue := totalValue;
      }
    }

    /** Carries the last value over the seconds that saw no sample. */
    method FillGap(t: int)
      requires samples.Length > 0 && t > lastSeconds
      modifies samples
      ensures samples[..] == Carry(old(samples[..]), lastSeconds + 1, t, lastValue)
    {
      for i := lastSeconds + 1 to t
        invariant samples[..] == Carry(old(samples[..]), lastSeconds + 1, i, lastValue)
      {
        IndexInRing(i, samples.Length);
        samples[i % samples.Length] := lastValue;
      }
    }

    /** seconds reaches back no further than the epoch. */
    method Delta(t: int, seconds: nat) returns (d: int)
      requires samples.Length > 0 && seconds <= t
      ensures d == DeltaOf(Contents(), t, seconds)
    {
      var window := if seconds > samples.Length then samples.Length else seconds;
      IndexInRing(t, samples.Length);
      IndexInRing(t - window, samples.Length);
      d := samples[t % samples.Length] - samples[(t - window) % samples.Length];
      if d < 0 {
        d := 0;
      }
    }
  }

  lemma IndexInRing(t: int, n: int)
    requires n > 0
    ensures 0 <= t % n < n
  {
  }
}
