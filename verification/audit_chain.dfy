/**
 The audit log: a single writer with a logical clock links every record to the
 hash of the one before it, a paged verifier recomputes the chain, and daily
 anchors pin heads so that a chain whose oldest records have expired can still
 be explained. The record hash is a parameter; where it matters it is assumed
 free of collisions.
 */
module AuditChain {
  import opened Common
  import opened KeyOrder
  import opened KvStore

  const SCAN_PAGE_SIZE := 1000
  const VERIFY_SCAN_MAX := 1_000_000
  const TTL_SLACK_MS := 60_000
  const ID_TS_HEX_WIDTH := 12
  const ID_RAND_WIDTH := 4

  /** A record without its hash: what the hash is computed from. */
  datatype Body = Body(id: string, ts: int, droppedBefore: int, prevHash: string, event: string)

  datatype Record = Record(body: Body, hash: string)

  /** A stored row; None is a row whose value does not decode. */
  type Row = Item<Option<Record>>

  type Hash = Body -> string

  /** The record of a row, and a blank one for a row that does not decode. */
  function RecordOf(row: Row): Record {
    if row.value.Some? then row.value.value else Record(Body("", 0, 0, "", ""), "")
  }

  ghost predicate CollisionFree(H: Hash) {
    && (forall a, b :: H(a) == H(b) ==> a == b)
    && (forall a :: H(a) != "")
  }

  // ---- Verification ----

  /** How the oldest live record may be explained. */
  datatype Tail = Tail(anchors: set<string>, retentionMs: int, now: int)

  predicate TailExplained(body: Body, tail: Tail) {
    || body.prevHash == ""
    || body.prevHash in tail.anchors
    || Expiring(body.ts, tail)
  }

  /** A record of this time may expire by now, and with it the records before it. */
  predicate Expiring(ts: int, tail: Tail) {
    tail.retentionMs > 0 && ts <= tail.now - tail.retentionMs + TTL_SLACK_MS
  }

  /** Row k decodes, carries its own hash, and continues the row before it. */
  predicate RowOk(H: Hash, rows: seq<Row>, k: nat, tail: Tail)
    requires k < |rows|
  {
    && rows[k].value.Some?
    && H(rows[k].value.value.body) == rows[k].value.value.hash
    && (k > 0 ==> rows[k - 1].value.Some?)
    && Continues(if k == 0 then None else rows[k - 1].value, rows[k].value.value.body, tail)
  }

  ghost predicate ChainOk(H: Hash, rows: seq<Row>, tail: Tail) {
    forall k :: 0 <= k < |rows| ==> RowOk(H, rows, k, tail)
  }

  predicate Continues(prev: Option<Record>, body: Body, tail: Tail) {
    if prev.None? then TailExplained(body, tail) else body.prevHash == prev.value.hash
  }

  function PrevId(prev: Option<Record>): string {
    if prev.None? then "" else prev.value.body.id
  }

  ghost predicate Checked(H: Hash, rows: seq<Row>, count: nat, tail: Tail) {
    count <= |rows| && forall k :: 0 <= k < count ==> RowOk(H, rows, k, tail)
  }

  ghost predicate FirstBroken(H: Hash, rows: seq<Row>, k: nat, tail: Tail) {
    k < |rows| && !RowOk(H, rows, k, tail) && Checked(H, rows, k, tail)
  }

  function Label(row: Row): string {
    if row.value.None? then row.key else row.value.value.body.id
  }

  datatype VerifyResult = VerifyResult(valid: bool, count: nat, lastId: string, headHash: string, brokenAt: string)

  const SCAN_LIMIT := "(scan limit)"

  /**
   The paged verifier. A store is accepted exactly when every row is in order and
   there are fewer rows than the scan bound; the report names the first row that
   is not, and an accepted store's head.
   */
  method Verify(H: Hash, rows: seq<Row>, tail: Tail) returns (res: VerifyResult)
    requires Sorted(rows) && (forall i :: 0 <= i < |rows| ==> rows[i].key != "")
    ensures res.valid <==> ChainOk(H, rows, tail) && |rows| < VERIFY_SCAN_MAX
    ensures res.valid ==> res.count == |rows|
    ensures res.valid && rows != [] ==>
              res.headHash == RecordOf(rows[|rows| - 1]).hash && res.lastId == RecordOf(rows[|rows| - 1]).body.id
    ensures res.valid && rows == [] ==> res.headHash == ""
    ensures !res.valid ==>
              || (exists k: nat :: FirstBroken(H, rows, k, tail) && res.brokenAt == Label(rows[k]))
              || (res.brokenAt == SCAN_LIMIT && |rows| >= VERIFY_SCAN_MAX)
  {
    var count, lower, prev: Option<Record> := 0, "", None;
    assert After(rows, "") == rows;
    while count < VERIFY_SCAN_MAX
      invariant count <= |rows| && After(rows, lower) == rows[count..]
      invariant Checked(H, rows, count, tail)
      invariant prev == (if count == 0 then None else rows[count - 1].value) && (count > 0 ==> prev.Some?)
      decreases |rows| - count
    {
      var page := ReadRange(rows, lower, SCAN_PAGE_SIZE);
      if page == [] {
        break;
      }
      ghost var start := count;
      var i := 0;
      while i < |page|
        invariant 0 <= i <= |page| && count == start + i
        invariant start + |page| <= |rows| && page == rows[start..][..|page|]
        invariant Checked(H, rows, count, tail)
        invariant prev == (if count == 0 then None else rows[count - 1].value) && (count > 0 ==> prev.Some?)
      {
        assert page[i] == rows[start..][i] == rows[count];
        ghost var k := count;
        if page[i].value.None? {
          assert FirstBroken(H, rows, k, tail);
          return VerifyResult(false, count, PrevId(prev), "", page[i].key);
        }
        var rec := page[i].value.value;
        count := count + 1;
        if H(rec.body) != rec.hash || !Continues(prev, rec.body, tail) {
          assert FirstBroken(H, rows, k, tail);
          return VerifyResult(false, count, rec.body.id, "", rec.body.id);
        }
        assert RowOk(H, rows, k, tail);
        prev := Some(rec);
        i := i + 1;
      }
      AfterLastKey(rows, count);
      assert page[|page| - 1] == rows[start..][|page| - 1] == rows[count - 1];
      lower := page[|page| - 1].key;
    }
    var head := if prev.None? then "" else prev.value.hash;
    if count >= VERIFY_SCAN_MAX {
      return VerifyResult(false, count, PrevId(prev), head, SCAN_LIMIT);
    }
    res := VerifyResult(true, count, PrevId(prev), head, "");
  }

  datatype Anchor = Anchor(date: string, headHash: string)

  function Heads(rows: seq<Item<Option<Anchor>>>): set<string> {
    set r | r in rows && r.value.Some? && r.value.value.headHash != "" :: r.value.value.headHash
  }

  lemma HeadsUnion(a: seq<Item<Option<Anchor>>>, b: seq<Item<Option<Anchor>>>)
    ensures Heads(a + b) == Heads(a) + Heads(b)
  {
  }

  lemma HeadsMonotone(rows: seq<Item<Option<Anchor>>>)
    ensures forall n :: 0 <= n <= |rows| ==> Heads(rows[..n]) <= Heads(rows)
  {
  }

  /** Collects the anchored heads; every page yields at least one row, so 1000 rows are always read. */
  method LoadAnchors(rows: seq<Item<Option<Anchor>>>) returns (heads: set<string>)
    requires Sorted(rows) && (forall i :: 0 <= i < |rows| ==> rows[i].key != "")
    ensures heads <= Heads(rows)
    ensures |rows| <= VERIFY_SCAN_MAX / SCAN_PAGE_SIZE ==> heads == Heads(rows)
  {
    heads := {};
    var lower := "";
    ghost var read := 0;
    assert After(rows, "") == rows;
    assert Heads(rows[..0]) == {};
    HeadsMonotone(rows);
    hide Heads, After, Less;
    for n := 0 to VERIFY_SCAN_MAX / SCAN_PAGE_SIZE
      invariant n <= read <= |rows| && After(rows, lower) == rows[read..]
      invariant heads == Heads(rows[..read])
    {
      var page := ReadRange(rows, lower, SCAN_PAGE_SIZE);
      if page == [] {
        assert rows[..read] == rows;
        break;
      }
      heads := heads + Heads(page);
      HeadsUnion(rows[..read], page);
      assert rows[..read + |page|] == rows[..read] + page;
      read := read + |page|;
      AfterLastKey(rows, read);
      assert page[|page| - 1] == rows[read - 1];
      lower := page[|page| - 1].key;
    }
  }

  // ---- A fixed head fixes the history ----

  /**
   Two stores that verify and show the same head hash agree record for record, as
   far back as the shorter one reaches.
   */
  lemma {:induction false} SameHeadSameHistory(H: Hash, a: seq<Row>, b: seq<Row>, tailA: Tail, tailB: Tail)
    requires CollisionFree(H) && ChainOk(H, a, tailA) && ChainOk(H, b, tailB)
    requires 0 < |a| <= |b| && RecordOf(a[|a| - 1]).hash == RecordOf(b[|b| - 1]).hash
    ensures forall i :: 0 <= i < |a| ==> a[i].value == b[|b| - |a| + i].value
    decreases |a|
  {
    var m, n := |a| - 1, |b| - 1;
    assert RowOk(H, a, m, tailA) && RowOk(H, b, n, tailB);
    assert a[m].value == b[n].value;
    if m > 0 {
      assert RowOk(H, a, m - 1, tailA) && RowOk(H, b, n - 1, tailB);
      forall k | 0 <= k < m ensures RowOk(H, a[..m], k, tailA) {
        assert RowOk(H, a, k, tailA);
      }
      forall k | 0 <= k < n ensures RowOk(H, b[..n], k, tailB) {
        assert RowOk(H, b, k, tailB);
      }
      SameHeadSameHistory(H, a[..m], b[..n], tailA, tailB);
      forall i | 0 <= i < |a|
        ensures a[i].value == b[|b| - |a| + i].value
      {
        if i < m {
          assert a[..m][i] == a[i] && b[..n][n - m + i] == b[n - m + i];
        }
      }
    }
  }

  // ---- The writer ----

  function AuditIdOfTs(ts: nat): string {
    Hex(ID_TS_HEX_WIDTH, ts)
  }

  /** The low 32 bits of a counter, read as a signed number. */
  function ToInt32(n: nat): int {
    var low := n % 0x1_0000_0000;
    if low < 0x8000_0000 then low else low - 0x1_0000_0000
  }

  /**
   Writer and store of one zone. lastBody is what the current chain head is the
   hash of, if there is one.
   */
  datatype Log = Log(
    lastTs: nat, prevHash: string, pending: nat, anchorDate: string,
    lastBody: Option<Body>, rows: seq<Row>, anchors: map<string, string>)

  datatype Event =
    | Write(clock: int, rand: string, event: string, stored: bool)
    | Drop
    | Restart
    | PinHead(date: string, anchored: bool)

  const EMPTY := Log(0, "", 0, "", None, [], map[])

  function NextTs(lastTs: nat, clock: int): (ts: nat)
    ensures ts > lastTs && ts >= clock
  {
    if clock <= lastTs then lastTs + 1 else clock
  }

  function NextRecord(H: Hash, s: Log, clock: int, rand: string, event: string): Record {
    var ts := NextTs(s.lastTs, clock);
    var body := Body(AuditIdOfTs(ts) + rand, ts, ToInt32(s.pending), s.prevHash, event);
    Record(body, H(body))
  }

  function WriteStep(H: Hash, s: Log, clock: int, rand: string, event: string, stored: bool): Log {
    var rec := NextRecord(H, s, clock, rand, event);
    s.(lastTs := NextTs(s.lastTs, clock), prevHash := rec.hash, pending := 0, lastBody := Some(rec.body),
       rows := if stored then Put(s.rows, Item(rec.body.id, Some(rec))) else s.rows)
  }

  /** The chain head a writer continues from, with the body it is the hash of. */
  datatype Head = Head(ts: nat, hash: string, body: Option<Body>)

  const GENESIS := Head(0, "", None)

  /** Adopts the newest record of one zone's rows if it is later than the head known so far. */
  function Adopt(head: Head, rows: seq<Row>): Head {
    if rows == [] then head
    else
      var rec := RecordOf(rows[|rows| - 1]);
      if Less(AuditIdOfTs(head.ts) + "0000", rec.body.id) && rec.body.ts >= 0
      then Head(rec.body.ts, rec.hash, Some(rec.body))
      else head
  }

  /** Recovery over all zones; it stops at a newest row that does not decode. */
  function Recover(head: Head, zones: seq<seq<Row>>): Head
    decreases |zones|
  {
    if zones == [] then head
    else if zones[0] != [] && zones[0][|zones[0]| - 1].value.None? then head
    else Recover(Adopt(head, zones[0]), zones[1..])
  }

  /** A restarted process takes the chain head from the newest stored record. */
  function RestartStep(s: Log): Log {
    var head := Recover(GENESIS, [s.rows]);
    s.(lastTs := head.ts, prevHash := head.hash, pending := 0, anchorDate := "", lastBody := head.body)
  }

  /**
   The head is pinned: there is one, the date is new to this process, and counting
   the records and writing the anchor succeed. A failure uses the date up as well.
   */
  predicate Pins(s: Log, e: Event) {
    e.PinHead? && s.anchorDate != e.date && s.prevHash != "" && e.anchored
  }

  function PinStep(s: Log, date: string, anchored: bool): Log {
    if s.anchorDate == date then s
    else
      s.(anchorDate := date,
         anchors := if Pins(s, PinHead(date, anchored)) then s.anchors[date := s.prevHash] else s.anchors)
  }

  function Step(H: Hash, s: Log, e: Event): Log {
    match e
    case Write(clock, rand, event, stored) => WriteStep(H, s, clock, rand, event, stored)
    case Drop => s.(pending := s.pending + 1)
    case Restart => RestartStep(s)
    case PinHead(date, anchored) => PinStep(s, date, anchored)
  }

  function Run(H: Hash, s: Log, events: seq<Event>): Log
    decreases |events|
  {
    if events == [] then s else Run(H, Step(H, s, events[0]), events[1..])
  }

  /** No record is stored on top of one whose write failed; a restart forgets the failed one. */
  predicate NoLostLink(events: seq<Event>, lost: bool) {
    if events == [] then true
    else
      match events[0]
      case Write(_, _, _, stored) => !(lost && stored) && NoLostLink(events[1..], lost || !stored)
      case Restart => NoLostLink(events[1..], false)
      case _ => NoLostLink(events[1..], lost)
  }

  /** The random suffix has its width and the clock stays below 2^48 milliseconds. */
  predicate PlausibleNext(s: Log, e: Event) {
    e.Write? ==> |e.rand| == ID_RAND_WIDTH && NextTs(s.lastTs, e.clock) < TS_LIMIT
  }

  ghost predicate Plausible(H: Hash, s: Log, events: seq<Event>)
    decreases |events|
  {
    events != [] ==>
      && PlausibleNext(s, events[0])
      && Plausible(H, Step(H, s, events[0]), events[1..])
  }

  /** Timestamps below this fit the width of an id: 2^48 milliseconds. */
  const TS_LIMIT := 0x1_0000_0000_0000

  /** An id the writer gave to a record of that time. */
  predicate IsIdOf(id: string, ts: int) {
    0 < ts < TS_LIMIT && |id| == ID_TS_HEX_WIDTH + ID_RAND_WIDTH && id[..ID_TS_HEX_WIDTH] == AuditIdOfTs(ts)
  }

  /** A row the writer stored: its own record, intact, under its own id. */
  predicate WrittenRow(H: Hash, row: Row) {
    && row.value.Some?
    && row.key == row.value.value.body.id
    && H(row.value.value.body) == row.value.value.hash
    && IsIdOf(row.key, row.value.value.body.ts)
  }

  function TsOf(row: Row): int {
    RecordOf(row).body.ts
  }

  /** Every row is a record of the writer, and the rows are in order of time. */
  ghost predicate Written(H: Hash, rows: seq<Row>) {
    && (forall i :: 0 <= i < |rows| ==> WrittenRow(H, rows[i]))
    && (forall i, j :: 0 <= i < j < |rows| ==> TsOf(rows[i]) < TsOf(rows[j]))
  }

  ghost predicate Linked(rows: seq<Row>) {
    && (rows != [] ==> RecordOf(rows[0]).body.prevHash == "")
    && (forall i :: 0 < i < |rows| ==> RecordOf(rows[i]).body.prevHash == RecordOf(rows[i - 1]).hash)
  }

  function NewestBody(rows: seq<Row>): Option<Body> {
    if rows == [] then None else Some(RecordOf(rows[|rows| - 1]).body)
  }

  /** The writer's variables match the store, up to a head whose write was lost. */
  ghost predicate Consistent(H: Hash, s: Log, lost: bool) {
    && Written(H, s.rows)
    && s.prevHash == (if s.lastBody.None? then "" else H(s.lastBody.value))
    && s.lastTs == (if s.lastBody.None? then 0 else s.lastBody.value.ts)
    && (if lost then s.lastBody.Some? && (s.rows != [] ==> TsOf(s.rows[|s.rows| - 1]) < s.lastTs)
        else s.lastBody == NewestBody(s.rows))
  }

  lemma IdWidth(ts: nat)
    requires ts < TS_LIMIT
    ensures |AuditIdOfTs(ts)| == ID_TS_HEX_WIDTH
  {
    assert Pow16(ID_TS_HEX_WIDTH) == TS_LIMIT;
    HexLength(ID_TS_HEX_WIDTH, ts);
  }

  /** Later records have larger ids, whatever the random suffixes. */
  lemma IdsIncrease(a: string, ta: int, b: string, tb: int)
    requires IsIdOf(a, ta) && IsIdOf(b, tb) && ta < tb
    ensures Less(a, b)
  {
    hide Less, Hex;
    assert Pow16(ID_TS_HEX_WIDTH) == TS_LIMIT;
    HexOrder(ID_TS_HEX_WIDTH, ta, tb);
    IdWidth(ta);
    IdWidth(tb);
    LessExtend(AuditIdOfTs(ta), AuditIdOfTs(tb), a[ID_TS_HEX_WIDTH..], b[ID_TS_HEX_WIDTH..]);
    assert a == AuditIdOfTs(ta) + a[ID_TS_HEX_WIDTH..] && b == AuditIdOfTs(tb) + b[ID_TS_HEX_WIDTH..];
  }

  lemma NewIdIsId(ts: nat, rand: string)
    requires 0 < ts < TS_LIMIT && |rand| == ID_RAND_WIDTH
    ensures IsIdOf(AuditIdOfTs(ts) + rand, ts)
  {
    IdWidth(ts);
  }

  lemma AnyIdAfterZero(id: string, ts: int)
    requires IsIdOf(id, ts)
    ensures Less(AuditIdOfTs(0) + "0000", id)
  {
    hide Less, Hex;
    assert Pow16(ID_TS_HEX_WIDTH) == TS_LIMIT;
    HexOrder(ID_TS_HEX_WIDTH, 0, ts);
    IdWidth(0);
    IdWidth(ts);
    LessExtend(AuditIdOfTs(0), AuditIdOfTs(ts), "0000", id[ID_TS_HEX_WIDTH..]);
    assert id == AuditIdOfTs(ts) + id[ID_TS_HEX_WIDTH..];
  }

  /** The recovery test: an id against the smallest id of a known time. */
  lemma RecoveryTest(id: string, ts: int, known: nat)
    requires IsIdOf(id, ts) && known < TS_LIMIT
    ensures 0 < ts < TS_LIMIT
    ensures known < ts ==> Less(AuditIdOfTs(known) + "0000", id)
    ensures ts < known ==> !Less(AuditIdOfTs(known) + "0000", id)
  {
    hide Less, AuditIdOfTs;
    if 0 < known {
      var bound := AuditIdOfTs(known) + "0000";
      NewIdIsId(known, "0000");
      if known < ts {
        IdsIncrease(bound, known, id, ts);
      } else if ts < known {
        IdsIncrease(id, ts, bound, known);
        LessAsymmetric(id, bound);
      }
    } else {
      AnyIdAfterZero(id, ts);
    }
  }

  /** Time order is key order: ids are strictly increasing, and the store keeps the rows in write order. */
  lemma WrittenSorted(H: Hash, rows: seq<Row>)
    requires Written(H, rows)
    ensures Sorted(rows)
  {
    hide IsIdOf, Less;
    forall i, j | 0 <= i < j < |rows|
      ensures Less(rows[i].key, rows[j].key)
    {
      IdsIncrease(rows[i].key, TsOf(rows[i]), rows[j].key, TsOf(rows[j]));
    }
  }

  lemma StoredAtEnd(H: Hash, s: Log, lost: bool, clock: int, rand: string, event: string)
    requires Consistent(H, s, lost) && |rand| == ID_RAND_WIDTH && NextTs(s.lastTs, clock) < TS_LIMIT
    ensures var rec := NextRecord(H, s, clock, rand, event);
            && Put(s.rows, Item(rec.body.id, Some(rec))) == s.rows + [Item(rec.body.id, Some(rec))]
            && Written(H, s.rows + [Item(rec.body.id, Some(rec))])
  {
    hide IsIdOf, Less, AuditIdOfTs;
    var rec := NextRecord(H, s, clock, rand, event);
    NewIdIsId(rec.body.ts, rand);
    forall i | 0 <= i < |s.rows|
      ensures Less(s.rows[i].key, rec.body.id) && TsOf(s.rows[i]) < rec.body.ts
    {
      assert TsOf(s.rows[i]) <= TsOf(s.rows[|s.rows| - 1]) <= s.lastTs;
      IdsIncrease(s.rows[i].key, TsOf(s.rows[i]), rec.body.id, rec.body.ts);
    }
    PutAtEnd(s.rows, Item(rec.body.id, Some(rec)));
  }

  lemma RestartRecovers(H: Hash, s: Log, lost: bool)
    requires Consistent(H, s, lost)
    ensures Consistent(H, RestartStep(s), false) && RestartStep(s).rows == s.rows
  {
    hide IsIdOf, Less, AuditIdOfTs;
    assert [s.rows][1..] == [];
    assert Recover(GENESIS, [s.rows]) == Recover(Adopt(GENESIS, s.rows), []);
    if s.rows != [] {
      var last := s.rows[|s.rows| - 1];
      RecoveryTest(last.key, TsOf(last), 0);
    }
  }

  function LostAfter(e: Event, lost: bool): bool {
    match e
    case Write(_, _, _, stored) => if stored then false else true
    case Restart => false
    case _ => lost
  }

  lemma WriteKeeps(H: Hash, s: Log, lost: bool, clock: int, rand: string, event: string)
    requires CollisionFree(H) && Consistent(H, s, lost)
    requires |rand| == ID_RAND_WIDTH && NextTs(s.lastTs, clock) < TS_LIMIT
    ensures var t := WriteStep(H, s, clock, rand, event, true);
            && Consistent(H, t, false)
            && s.rows <= t.rows
            && (Linked(t.rows) <==> Linked(s.rows) && !lost)
  {
    StoredAtEnd(H, s, lost, clock, rand, event);
    var t := WriteStep(H, s, clock, rand, event, true);
    var n := |s.rows|;
    assert forall i :: 0 <= i < n ==> t.rows[i] == s.rows[i];
    assert RecordOf(t.rows[n]).body.prevHash == s.prevHash;
    if n > 0 {
      assert lost ==> s.lastBody.value != RecordOf(s.rows[n - 1]).body;
      assert s.prevHash == RecordOf(s.rows[n - 1]).hash <==> !lost;
    } else {
      assert s.prevHash == "" <==> !lost;
    }
  }

  lemma LostWriteKeeps(H: Hash, s: Log, lost: bool, clock: int, rand: string, event: string)
    requires Consistent(H, s, lost)
    ensures Consistent(H, WriteStep(H, s, clock, rand, event, false), true)
  {
  }

  lemma QuietKeeps(H: Hash, s: Log, t: Log, lost: bool)
    requires Consistent(H, s, lost)
    requires t.rows == s.rows && t.lastBody == s.lastBody && t.prevHash == s.prevHash && t.lastTs == s.lastTs
    ensures Consistent(H, t, lost)
  {
  }

  /** One event keeps writer and store together; the links survive unless a lost head is built upon. */
  lemma StepKeeps(H: Hash, s: Log, e: Event, lost: bool)
    requires CollisionFree(H) && Consistent(H, s, lost) && PlausibleNext(s, e)
    ensures Consistent(H, Step(H, s, e), LostAfter(e, lost))
    ensures s.rows <= Step(H, s, e).rows
    ensures Linked(Step(H, s, e).rows) <==> Linked(s.rows) && !(lost && e.Write? && e.stored)
  {
    match e
    case Write(clock, rand, event, stored) =>
      if stored {
        WriteKeeps(H, s, lost, clock, rand, event);
      } else {
        LostWriteKeeps(H, s, lost, clock, rand, event);
      }
    case Restart =>
      RestartRecovers(H, s, lost);
    case _ =>
      QuietKeeps(H, s, Step(H, s, e), lost);
  }

  /**
   Every run of the writer: ids strictly increase, and the chain is linked exactly
   when no lost head was built upon.
   */
  lemma {:induction false} RunLinks(H: Hash, s: Log, events: seq<Event>, lost: bool)
    requires CollisionFree(H) && Consistent(H, s, lost) && Plausible(H, s, events)
    ensures Written(H, Run(H, s, events).rows)
    ensures Linked(Run(H, s, events).rows) <==> Linked(s.rows) && NoLostLink(events, lost)
    decreases |events|
  {
    if events != [] {
      StepKeeps(H, s, events[0], lost);
      RunLinks(H, Step(H, s, events[0]), events[1..], LostAfter(events[0], lost));
      if events[0].Write? && lost && events[0].stored {
        assert !NoLostLink(events, lost);
      }
    }
  }

  lemma LinkedIsOk(H: Hash, rows: seq<Row>, tail: Tail)
    requires Written(H, rows) && (tail.anchors == {} && tail.retentionMs <= 0)
    ensures ChainOk(H, rows, tail) <==> Linked(rows)
  {
    if ChainOk(H, rows, tail) {
      forall i: nat {:trigger rows[i]} | i < |rows|
        ensures i == 0 ==> RecordOf(rows[0]).body.prevHash == ""
        ensures i > 0 ==> RecordOf(rows[i]).body.prevHash == RecordOf(rows[i - 1]).hash
      {
        assert RowOk(H, rows, i, tail);
      }
    }
  }

  /**
   From an empty store: what any run of the writer leaves behind, across clock
   step-backs, restarts and failed writes, verifies without anchors exactly when
   no record was stored on top of one whose write had failed.
   */
  lemma RunVerifiesExactly(H: Hash, events: seq<Event>, now: int)
    requires CollisionFree(H) && Plausible(H, EMPTY, events)
    ensures var rows := Run(H, EMPTY, events).rows;
            && Sorted(rows)
            && (ChainOk(H, rows, Tail({}, 0, now)) <==> NoLostLink(events, false))
  {
    RunLinks(H, EMPTY, events, false);
    WrittenSorted(H, Run(H, EMPTY, events).rows);
    LinkedIsOk(H, Run(H, EMPTY, events).rows, Tail({}, 0, now));
  }

  /**
   Three writes, of which the second fails: the third is stored on a head that is
   nowhere, and the chain breaks there.
   */
  lemma LostWriteBreaks(H: Hash, now: int)
    requires CollisionFree(H)
    ensures var events := [Write(1000, "0000", "a", true), Write(2000, "0000", "b", false),
                           Write(3000, "0000", "c", true)];
            && Plausible(H, EMPTY, events)
            && !ChainOk(H, Run(H, EMPTY, events).rows, Tail({}, 0, now))
  {
    hide ChainOk, WriteStep;
    var first, second := Write(1000, "0000", "a", true), Write(2000, "0000", "b", false);
    var third := Write(3000, "0000", "c", true);
    var events := [first, second, third];
    assert events[1..] == [second, third] && [second, third][1..] == [third] && [third][1..] == [];
    var s1 := Step(H, EMPTY, first);
    var s2 := Step(H, s1, second);
    WriteTime(H, EMPTY, first);
    WriteTime(H, s1, second);
    assert Plausible(H, s2, [third]);
    assert Plausible(H, s1, [second, third]);
    assert !NoLostLink([third], true);
    assert !NoLostLink([second, third], false);
    RunVerifiesExactly(H, events, now);
  }

  lemma WriteTime(H: Hash, s: Log, e: Event)
    requires e.Write?
    ensures Step(H, s, e).lastTs == NextTs(s.lastTs, e.clock)
  {
  }

  /**
   Dropping the oldest k records of a linked chain: what remains verifies exactly
   when nothing or everything was dropped, when the dropped prefix ends at an
   anchored head, or when the oldest record left is old enough to expire itself.
   */
  lemma PrefixRemoval(H: Hash, rows: seq<Row>, k: nat, tail: Tail)
    requires CollisionFree(H) && Written(H, rows) && Linked(rows) && k <= |rows|
    ensures ChainOk(H, rows[k..], tail) <==>
            || k == 0 || k == |rows|
            || RecordOf(rows[k - 1]).hash in tail.anchors
            || (tail.retentionMs > 0 && TsOf(rows[k]) <= tail.now - tail.retentionMs + TTL_SLACK_MS)
  {
    var rest := rows[k..];
    if 0 < k < |rows| {
      assert H(RecordOf(rows[k - 1]).body) != "";
      assert RowOk(H, rest, 0, tail) <==> RecordOf(rows[k - 1]).hash in tail.anchors || Expiring(TsOf(rows[k]), tail);
    }
    forall i | 0 < i < |rest|
      ensures RowOk(H, rest, i, tail)
    {
      assert rest[i] == rows[k + i] && rest[i - 1] == rows[k + i - 1];
    }
  }

  /** The state of the writer in front of event i. */
  function Before(H: Hash, events: seq<Event>, i: nat): Log
    requires i <= |events|
  {
    Run(H, EMPTY, events[..i])
  }

  /** Event i pins the head under its date, and no later event pins another one there. */
  ghost predicate LastPin(H: Hash, events: seq<Event>, i: nat) {
    && i < |events| && Pins(Before(H, events, i), events[i])
    && forall j: nat :: i < j < |events| && Pins(Before(H, events, j), events[j]) ==> events[j].date != events[i].date
  }

  /** A record was the head of the chain when an anchor that still stands was pinned. */
  ghost predicate PinnedAsHead(H: Hash, events: seq<Event>, body: Body) {
    exists i: nat :: LastPin(H, events, i) && Before(H, events, i).lastBody == Some(body)
  }

  lemma {:induction false} RunLast(H: Hash, s: Log, events: seq<Event>, e: Event)
    ensures Run(H, s, events + [e]) == Step(H, Run(H, s, events), e)
    decreases |events|
  {
    hide Step;
    if events == [] {
      assert events + [e] == [e] && [e][1..] == [];
    } else {
      assert (events + [e])[0] == events[0] && (events + [e])[1..] == events[1..] + [e];
      RunLast(H, Step(H, s, events[0]), events[1..], e);
    }
  }

  lemma {:induction false} PlausibleFront(H: Hash, s: Log, events: seq<Event>, e: Event)
    requires Plausible(H, s, events + [e])
    ensures Plausible(H, s, events)
    decreases |events|
  {
    hide Step;
    if events != [] {
      assert (events + [e])[0] == events[0] && (events + [e])[1..] == events[1..] + [e];
      PlausibleFront(H, Step(H, s, events[0]), events[1..], e);
    }
  }

  /** The stored anchors are the heads of the last pins, one for each date. */
  lemma {:induction false} AnchorsOfRun(H: Hash, events: seq<Event>)
    ensures var anchors := Run(H, EMPTY, events).anchors;
            && (forall i: nat :: LastPin(H, events, i) ==>
                  events[i].date in anchors && anchors[events[i].date] == Before(H, events, i).prevHash)
            && (forall date :: date in anchors ==>
                  exists i: nat :: LastPin(H, events, i) && events[i].date == date)
    decreases |events|
  {
    hide Run;
    if events == [] {
      NothingPinned(H, events);
    } else {
      var before, e := events[..|events| - 1], events[|events| - 1];
      AnchorsOfRun(H, before);
      assert before + [e] == events;
      RunLast(H, EMPTY, before, e);
      var s := Run(H, EMPTY, before);
      var n := |before|;
      assert events[..n] == before;
      forall i: nat | i < n ensures Before(H, events, i) == Before(H, before, i) && events[i] == before[i] {
        assert events[..i] == before[..i];
      }
      StepAnchors(H, s, e);
      hide Step;
      forall date | date in Run(H, EMPTY, events).anchors
        ensures exists i: nat :: LastPin(H, events, i) && events[i].date == date
      {
        if Pins(s, e) && date == e.date {
          assert LastPin(H, events, n);
        } else {
          var i: nat :| LastPin(H, before, i) && before[i].date == date;
          assert LastPin(H, events, i);
        }
      }
      forall i: nat | LastPin(H, events, i) && i < n
        ensures LastPin(H, before, i) && (Pins(s, e) ==> e.date != events[i].date)
      {
        assert Before(H, events, n) == s;
      }
    }
  }

  lemma StepAnchors(H: Hash, s: Log, e: Event)
    ensures Step(H, s, e).anchors == if Pins(s, e) then s.anchors[e.date := s.prevHash] else s.anchors
  {
    hide Put, Recover;
  }

  lemma NothingPinned(H: Hash, events: seq<Event>)
    requires events == []
    ensures Run(H, EMPTY, events).anchors == map[]
  {
  }

  /** At every point of a run the writer's head is the hash of the body it remembers. */
  lemma {:induction false} RunConsistent(H: Hash, events: seq<Event>)
    requires CollisionFree(H) && Plausible(H, EMPTY, events)
    ensures exists lost :: Consistent(H, Run(H, EMPTY, events), lost)
    decreases |events|
  {
    hide Step, Consistent;
    if events == [] {
      StartsConsistent(H, events);
    } else {
      var before, e := events[..|events| - 1], events[|events| - 1];
      assert before + [e] == events;
      PlausibleFront(H, EMPTY, before, e);
      RunConsistent(H, before);
      RunLast(H, EMPTY, before, e);
      LastPlausible(H, EMPTY, before, e);
      var lost :| Consistent(H, Run(H, EMPTY, before), lost);
      StepKeeps(H, Run(H, EMPTY, before), e, lost);
    }
  }

  lemma StartsConsistent(H: Hash, events: seq<Event>)
    requires events == []
    ensures Consistent(H, Run(H, EMPTY, events), false)
  {
  }

  lemma {:induction false} LastPlausible(H: Hash, s: Log, events: seq<Event>, e: Event)
    requires Plausible(H, s, events + [e])
    ensures PlausibleNext(Run(H, s, events), e)
    decreases |events|
  {
    hide Step, PlausibleNext;
    if events == [] {
      assert events + [e] == [e];
    } else {
      assert (events + [e])[0] == events[0] && (events + [e])[1..] == events[1..] + [e];
      LastPlausible(H, Step(H, s, events[0]), events[1..], e);
    }
  }

  /**
   Retention on the store that a run leaves behind, checked against the anchors
   that the same run pinned: after dropping the oldest k records the rest verifies
   exactly when nothing or everything was dropped, when the last record dropped was
   the head that a standing anchor pinned, or when the oldest record left is itself
   old enough to expire.
   */
  lemma RunPrefixRemoval(H: Hash, events: seq<Event>, k: nat, retentionMs: int, now: int)
    requires CollisionFree(H) && Plausible(H, EMPTY, events) && NoLostLink(events, false)
    requires k <= |Run(H, EMPTY, events).rows|
    ensures var s := Run(H, EMPTY, events);
            var tail := Tail(s.anchors.Values, retentionMs, now);
            ChainOk(H, s.rows[k..], tail) <==>
              || k == 0 || k == |s.rows|
              || PinnedAsHead(H, events, RecordOf(s.rows[k - 1]).body)
              || (retentionMs > 0 && TsOf(s.rows[k]) <= now - retentionMs + TTL_SLACK_MS)
  {
    hide ChainOk, Run, PinnedAsHead;
    var s := Run(H, EMPTY, events);
    RunLinks(H, EMPTY, events, false);
    PrefixRemoval(H, s.rows, k, Tail(s.anchors.Values, retentionMs, now));
    if k > 0 {
      AnchoredIsPinned(H, events, RecordOf(s.rows[k - 1]).body);
      assert WrittenRow(H, s.rows[k - 1]);
    }
  }

  lemma AnchoredIsPinned(H: Hash, events: seq<Event>, body: Body)
    requires CollisionFree(H) && Plausible(H, EMPTY, events)
    ensures H(body) in Run(H, EMPTY, events).anchors.Values <==> PinnedAsHead(H, events, body)
  {
    hide Run, Plausible, CollisionFree, PinStep;
    AnchorsOfRun(H, events);
    var anchors := Run(H, EMPTY, events).anchors;
    forall i: nat | LastPin(H, events, i)
      ensures Before(H, events, i).prevHash == H(body) <==> Before(H, events, i).lastBody == Some(body)
    {
      PlausiblePrefix(H, events, i);
      RunConsistent(H, events[..i]);
      PinnedHead(H, Before(H, events, i), events[i], body);
    }
    if H(body) in anchors.Values {
      var date :| date in anchors && anchors[date] == H(body);
      var i := PinOf(H, events, date);
      assert LastPin(H, events, i) && Before(H, events, i).lastBody == Some(body);
    }
  }

  lemma PinOf(H: Hash, events: seq<Event>, date: string) returns (i: nat)
    requires date in Run(H, EMPTY, events).anchors
    ensures LastPin(H, events, i) && Run(H, EMPTY, events).anchors[date] == Before(H, events, i).prevHash
  {
    hide Run;
    AnchorsOfRun(H, events);
    i :| LastPin(H, events, i) && events[i].date == date;
  }

  lemma PinnedHead(H: Hash, s: Log, e: Event, body: Body)
    requires CollisionFree(H) && Pins(s, e) && exists lost :: Consistent(H, s, lost)
    ensures s.prevHash == H(body) <==> s.lastBody == Some(body)
  {
  }

  lemma {:induction false} PlausiblePrefix(H: Hash, events: seq<Event>, i: nat)
    requires Plausible(H, EMPTY, events) && i <= |events|
    ensures Plausible(H, EMPTY, events[..i])
    decreases |events|
  {
    if i == |events| {
      assert events[..i] == events;
    } else {
      var before := events[..|events| - 1];
      assert before + [events[|events| - 1]] == events;
      PlausibleFront(H, EMPTY, before, events[|events| - 1]);
      PlausiblePrefix(H, before, i);
      assert before[..i] == events[..i];
    }
  }

  // ---- What the log says ----

  /** The events of the writes that the store took, in order. */
  function StoredEvents(events: seq<Event>): seq<string> {
    if events == [] then []
    else (if events[0].Write? && events[0].stored then [events[0].event] else []) + StoredEvents(events[1..])
  }

  /** For each of these writes, how many events were dropped since the write or the restart before it. */
  function StoredDrops(events: seq<Event>, dropped: nat): seq<nat> {
    if events == [] then []
    else
      match events[0]
      case Write(_, _, _, stored) => (if stored then [dropped] else []) + StoredDrops(events[1..], 0)
      case Drop => StoredDrops(events[1..], dropped + 1)
      case Restart => StoredDrops(events[1..], 0)
      case PinHead(_, _) => StoredDrops(events[1..], dropped)
  }

  /** And when each was written at the earliest. */
  function StoredClocks(events: seq<Event>): seq<int> {
    if events == [] then []
    else (if events[0].Write? && events[0].stored then [events[0].clock] else []) + StoredClocks(events[1..])
  }

  /** A signed 32-bit number that agrees with a count up to multiples of 2^32. */
  predicate CountsIn32Bits(x: int, n: nat) {
    -0x8000_0000 <= x < 0x8000_0000 && (n - x) % 0x1_0000_0000 == 0
  }

  lemma LowBits(n: nat)
    ensures CountsIn32Bits(ToInt32(n), n)
  {
  }

  /** These rows carry these events, drop counts and no earlier times. */
  ghost predicate Tells(rows: seq<Row>, events: seq<string>, drops: seq<nat>, clocks: seq<int>) {
    && |rows| == |events| == |drops| == |clocks|
    && forall i :: 0 <= i < |rows| ==>
         && RecordOf(rows[i]).body.event == events[i]
         && CountsIn32Bits(RecordOf(rows[i]).body.droppedBefore, drops[i])
         && TsOf(rows[i]) >= clocks[i]
  }

  lemma TellsJoin(a: seq<Row>, b: seq<Row>, ea: seq<string>, eb: seq<string>,
                  da: seq<nat>, db: seq<nat>, ca: seq<int>, cb: seq<int>)
    requires Tells(a, ea, da, ca) && Tells(b, eb, db, cb)
    ensures Tells(a + b, ea + eb, da + db, ca + cb)
  {
  }

  /** One write adds one row, which says what was handed in. */
  lemma StoredWriteTells(H: Hash, s: Log, lost: bool, e: Event)
    requires Consistent(H, s, lost) && PlausibleNext(s, e) && e.Write? && e.stored
    ensures var rows := Step(H, s, e).rows;
            && |rows| == |s.rows| + 1 && rows[..|s.rows|] == s.rows
            && Tells(rows[|s.rows|..], [e.event], [s.pending], [e.clock])
  {
    hide Consistent, IsIdOf, Less, AuditIdOfTs, Put;
    StoredAtEnd(H, s, lost, e.clock, e.rand, e.event);
    LowBits(s.pending);
    var next := NextRecord(H, s, e.clock, e.rand, e.event);
    var row := Item(next.body.id, Some(next));
    assert Step(H, s, e).rows == s.rows + [row];
    assert (s.rows + [row])[|s.rows|..] == [row];
  }

  /** Rows stay as they were in every other step, and the count of drops moves as the history says. */
  lemma OtherStepTells(H: Hash, s: Log, e: Event)
    ensures !(e.Write? && e.stored) ==> Step(H, s, e).rows == s.rows
    ensures Step(H, s, e).pending ==
            if e.Drop? then s.pending + 1 else if e.PinHead? then s.pending else 0
  {
    hide Put, Recover;
  }

  /**
   The log of a run is what was handed to the writer and taken by the store: its
   rows carry, in order, the events of the stored writes, and how many events had
   been dropped before each; no row is dated before its clock.
   */
  lemma {:induction false} RunTells(H: Hash, s: Log, events: seq<Event>, lost: bool)
    requires CollisionFree(H) && Consistent(H, s, lost) && Plausible(H, s, events)
    ensures var rows := Run(H, s, events).rows;
            && s.rows <= rows
            && Tells(rows[|s.rows|..], StoredEvents(events), StoredDrops(events, s.pending), StoredClocks(events))
    decreases |events|
  {
    hide Step, Consistent, Tells, PlausibleNext, CollisionFree;
    if events == [] {
      NothingTold(s.rows);
    } else {
      var e, t := events[0], Step(H, s, events[0]);
      StepKept(H, s, e, lost);
      RunTells(H, t, events[1..], LostAfter(e, lost));
      OtherStepTells(H, s, e);
      var rows := Run(H, s, events).rows;
      if e.Write? && e.stored {
        StoredWriteTells(H, s, lost, e);
        assert rows[|s.rows|..] == t.rows[|s.rows|..] + rows[|t.rows|..];
        TellsJoin(t.rows[|s.rows|..], rows[|t.rows|..], [e.event], StoredEvents(events[1..]),
                  [s.pending], StoredDrops(events[1..], t.pending), [e.clock], StoredClocks(events[1..]));
      } else {
        assert StoredEvents(events) == StoredEvents(events[1..]) && StoredClocks(events) == StoredClocks(events[1..]);
        assert StoredDrops(events, s.pending) == StoredDrops(events[1..], t.pending);
      }
    }
  }

  lemma NothingTold(rows: seq<Row>)
    ensures Tells(rows[|rows|..], [], [], [])
  {
  }

  lemma StepKept(H: Hash, s: Log, e: Event, lost: bool)
    requires CollisionFree(H) && Consistent(H, s, lost) && PlausibleNext(s, e)
    ensures Consistent(H, Step(H, s, e), LostAfter(e, lost)) && s.rows <= Step(H, s, e).rows
  {
    hide Consistent, Step, PlausibleNext, CollisionFree, LostAfter;
    StepKeeps(H, s, e, lost);
  }

  /** From an empty store: the whole log. */
  lemma LogIsHistory(H: Hash, events: seq<Event>)
    requires CollisionFree(H) && Plausible(H, EMPTY, events)
    ensures Tells(Run(H, EMPTY, events).rows, StoredEvents(events), StoredDrops(events, 0), StoredClocks(events))
  {
    hide Run, Tells;
    RunTells(H, EMPTY, events, false);
    assert Run(H, EMPTY, events).rows[0..] == Run(H, EMPTY, events).rows;
  }

  ghost predicate EndsAt(rows: seq<Row>, r: Head) {
    rows != [] && r.hash == RecordOf(rows[|rows| - 1]).hash && r.body == NewestBody(rows)
        && r.ts == TsOf(rows[|rows| - 1])
  }

  lemma AdoptTakesLater(H: Hash, head: Head, rows: seq<Row>)
    requires Written(H, rows) && head.ts < TS_LIMIT
    ensures var r := Adopt(head, rows);
            && (r == head || EndsAt(rows, r))
            && head.ts <= r.ts < TS_LIMIT
            && (rows != [] ==> TsOf(rows[|rows| - 1]) <= r.ts)
  {
    hide Less, AuditIdOfTs, IsIdOf;
    if rows != [] {
      assert WrittenRow(H, rows[|rows| - 1]);
      RecoveryTest(rows[|rows| - 1].key, TsOf(rows[|rows| - 1]), head.ts);
    }
  }

  /** Whatever zones hold records, recovery ends at the newest record of one of them, and none is later. */
  lemma {:induction false} RecoverFindsNewest(H: Hash, head: Head, zones: seq<seq<Row>>)
    requires forall z :: 0 <= z < |zones| ==> Written(H, zones[z])
    requires head.ts < TS_LIMIT
    ensures var r := Recover(head, zones);
            && (r == head || exists z :: 0 <= z < |zones| && EndsAt(zones[z], r))
            && head.ts <= r.ts
            && (forall z :: 0 <= z < |zones| && zones[z] != [] ==> TsOf(zones[z][|zones[z]| - 1]) <= r.ts)
    decreases |zones|
  {
    hide Adopt, Written, EndsAt;
    if zones != [] {
      var next, r := Adopt(head, zones[0]), Recover(head, zones);
      AdoptTakesLater(H, head, zones[0]);
      assert r == Recover(next, zones[1..]) by {
        NewestDecodes(H, zones[0]);
      }
      RecoverFindsNewest(H, next, zones[1..]);
      if exists z :: 0 <= z < |zones[1..]| && EndsAt(zones[1..][z], r) {
        var z :| 0 <= z < |zones[1..]| && EndsAt(zones[1..][z], r);
        assert EndsAt(zones[z + 1], r);
      }
      forall z | 0 <= z < |zones| && zones[z] != []
        ensures TsOf(zones[z][|zones[z]| - 1]) <= r.ts
      {
        assert z > 0 ==> zones[z] == zones[1..][z - 1];
      }
    }
  }

  lemma NewestDecodes(H: Hash, rows: seq<Row>)
    requires Written(H, rows)
    ensures rows != [] ==> rows[|rows| - 1].value.Some?
  {
    if rows != [] {
      assert WrittenRow(H, rows[|rows| - 1]);
    }
  }

  // ---- The manager ----

  lemma PutBehind(rows: seq<Row>, row: Row)
    ensures (forall i :: 0 <= i < |rows| ==> Less(rows[i].key, row.key)) ==> Put(rows, row) == rows + [row]
  {
    hide Less, Put;
    if forall i :: 0 <= i < |rows| ==> Less(rows[i].key, row.key) {
      PutAtEnd(rows, row);
    }
  }

  const QUEUE_CAP := 1024

  class AuditStore {
    var rows: seq<Row>
    var anchors: map<string, string>

    constructor ()
      ensures rows == [] && anchors == map[]
    {
      rows, anchors := [], map[];
    }
  }

  class Manager {
    var queue: seq<string>
    var droppedTotal: nat
    var droppedPending: nat
    var lastTs: nat
    var prevHash: string
    var anchorDate: string
    ghost var lastBody: Option<Body>

    /** A new process: nothing queued, no chain yet. */
    constructor ()
      ensures queue == [] && droppedTotal == 0 && droppedPending == 0
      ensures lastTs == 0 && prevHash == "" && anchorDate == "" && lastBody == None
    {
      queue, droppedTotal, droppedPending := [], 0, 0;
      lastTs, prevHash, anchorDate, lastBody := 0, "", "", None;
    }

    ghost function State(store: AuditStore): Log
      reads this, store
    {
      Log(lastTs, prevHash, droppedPending, anchorDate, lastBody, store.rows, store.anchors)
    }

    /** Continues the newest chain head among the zones; only the head changes. */
    method RecoverChainHead(zones: seq<seq<Row>>) returns (ok: bool)
      requires lastTs == 0 && prevHash == "" && lastBody == None
      modifies this
      ensures Head(lastTs, prevHash, lastBody) == Recover(GENESIS, zones)
      ensures queue == old(queue) && droppedTotal == old(droppedTotal) && droppedPending == old(droppedPending)
      ensures anchorDate == old(anchorDate)
    {
      var i := 0;
      while i < |zones|
        invariant 0 <= i <= |zones|
        invariant Recover(Head(lastTs, prevHash, lastBody), zones[i..]) == Recover(GENESIS, zones)
        invariant queue == old(queue) && droppedTotal == old(droppedTotal) && droppedPending == old(droppedPending)
        invariant anchorDate == old(anchorDate)
      {
        var rows := zones[i];
        assert zones[i..][0] == rows && zones[i..][1..] == zones[i + 1..];
        if rows != [] {
          if rows[|rows| - 1].value.None? {
            return false;
          }
          var rec := rows[|rows| - 1].value.value;
          if Less(AuditIdOfTs(lastTs) + "0000", rec.body.id) && rec.body.ts >= 0 {
            prevHash, lastTs, lastBody := rec.hash, rec.body.ts, Some(rec.body);
          }
        }
        i := i + 1;
      }
      ok := true;
    }

    /** Never blocks: an event that finds the queue full is only counted. */
    method Emit(store: AuditStore, event: string)
      modifies this
      ensures if |old(queue)| < QUEUE_CAP
              then queue == old(queue) + [event] && State(store) == old(State(store))
                  && droppedTotal == old(droppedTotal)
              else queue == old(queue) && droppedTotal == old(droppedTotal) + 1
                   && forall H :: State(store) == Step(H, old(State(store)), Drop)
    {
      if |queue| < QUEUE_CAP {
        queue := queue + [event];
      } else {
        droppedTotal, droppedPending := droppedTotal + 1, droppedPending + 1;
      }
    }

    /** Takes the next event off the queue and writes it; the chain head moves even when the store refuses. */
    method WriteNext(H: Hash, store: AuditStore, clock: int, rand: string, accepts: bool)
      requires queue != []
      modifies this, store
      ensures State(store) == Step(H, old(State(store)), Write(clock, rand, old(queue[0]), accepts))
      ensures lastTs > old(lastTs) && lastTs >= clock && (clock > old(lastTs) ==> lastTs == clock)
      ensures lastBody.Some? && prevHash == H(lastBody.value) && droppedPending == 0
      ensures lastBody.value.event == old(queue[0]) && lastBody.value.ts == lastTs
      ensures lastBody.value.prevHash == old(prevHash)
      ensures CountsIn32Bits(lastBody.value.droppedBefore, old(droppedPending))
      ensures store.anchors == old(store.anchors) && (!accepts ==> store.rows == old(store.rows))
      ensures accepts
              && (forall i :: 0 <= i < |old(store.rows)| ==> Less(old(store.rows)[i].key, lastBody.value.id)) ==>
                store.rows == old(store.rows) + [Item(lastBody.value.id, Some(Record(lastBody.value, prevHash)))]
      ensures queue == old(queue[1..]) && droppedTotal == old(droppedTotal)
    {
      hide Less, Put;
      var event := queue[0];
      queue := queue[1..];
      LowBits(droppedPending);
      var now := clock;
      if now <= lastTs {
        now := lastTs + 1;
      }
      lastTs := now;
      var body := Body(AuditIdOfTs(now) + rand, now, ToInt32(droppedPending), prevHash, event);
      droppedPending := 0;
      var rec := Record(body, H(body));
      prevHash, lastBody := rec.hash, Some(body);
      if accepts {
        PutBehind(store.rows, Item(body.id, Some(rec)));
        store.rows := Put(store.rows, Item(body.id, Some(rec)));
      }
    }

    /** Pins the current head, at most once per date. counted, accepts: whether the count and the write succeed. */
    method AnchorRefresh(store: AuditStore, today: string, counted: bool, accepts: bool)
      modifies this, store
      ensures State(store) == PinStep(old(State(store)), today, counted && accepts)
      ensures queue == old(queue) && droppedTotal == old(droppedTotal)
    {
      if anchorDate == today {
        return;
      }
      anchorDate := today;
      if prevHash == "" {
        return;
      }
      if !counted {
        return;
      }
      if accepts {
        store.anchors := store.anchors[today := prevHash];
      }
    }
  }
}
