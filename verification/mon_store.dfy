/**
 Host metrics history. The leader samples all hosts into ten-minute blocks,
 writes a closed block as one encoded row per host and field, and answers range
 queries from the rows. The clock is in unix seconds.
 */
module MonStore {
  import opened Common
  import opened KeyOrder
  import opened KvStore
  import opened BlockCodec

  const MON_BLOCK_SECONDS := 600
  const MON_BLOCK_SCAN_LIMIT := 4096
  /** The number of stored fields. */
  const FIELDS := 9
  const BLOCK_ID_WIDTH := 10
  /** Times below this fit the ten hexadecimal digits of a block id. */
  const TIME_LIMIT := 0x100_0000_0000

  type Row = Item<seq<byte>>

  datatype Sample = Sample(host: string, ts: int64, values: seq<int64>)

  datatype Report = Report(host: string, values: seq<int64>)

  datatype Point = Point(ts: int, value: int64)

  function StartOf(ts: int): int {
    ts - ts % MON_BLOCK_SECONDS
  }

  /** fmt.Sprintf("%010x", n), with the sign in front of negative numbers. */
  function BlockKey(n: int): string {
    if n >= 0 then Hex(BLOCK_ID_WIDTH, n) else "-" + Hex(BLOCK_ID_WIDTH - 1, -n)
  }

  /** Block ids sort like block starts, also against a bound before the epoch. */
  lemma BlockKeyOrder(a: int, b: int)
    requires a < TIME_LIMIT && 0 <= b < TIME_LIMIT
    ensures Less(BlockKey(a), BlockKey(b)) <==> a < b
    ensures Less(BlockKey(b), BlockKey(a)) <==> b < a
    ensures BlockKey(a) == BlockKey(b) <==> a == b
  {
    assert Pow16(BLOCK_ID_WIDTH) == TIME_LIMIT;
    if a >= 0 {
      HexOrder(BLOCK_ID_WIDTH, a, b);
      HexOrder(BLOCK_ID_WIDTH, b, a);
    } else {
      var key := BlockKey(b);
      HexLength(BLOCK_ID_WIDTH, b);
      HexFirst(BLOCK_ID_WIDTH, b);
      assert BlockKey(a)[0] == '-' < key[0];
      LessAsymmetric(BlockKey(a), key);
    }
  }

  lemma {:induction false} HexFirst(w: nat, n: nat)
    ensures Hex(w, n) != [] && '0' <= Hex(w, n)[0] <= 'f'
    decreases n, w
  {
    HexDigitOrder(0, n % 16);
    if n >= 16 || w > 1 {
      HexFirst(if w == 0 then 0 else w - 1, n / 16);
    }
  }

  // ---- One series: blocks as stored rows ----

  predicate GoodBlock(b: Block) {
    && |b.ts| == |b.values| <= SLICE_MAX
    && 0 < b.start as int < TIME_LIMIT - MON_BLOCK_SECONDS
    && b.start as int % MON_BLOCK_SECONDS == 0
    && (forall i :: 0 <= i < |b.ts| ==> b.start <= b.ts[i] && b.ts[i] as int < b.start as int + MON_BLOCK_SECONDS)
    && (forall i, j :: 0 <= i < j < |b.ts| ==> b.ts[i] <= b.ts[j])
  }

  /** The blocks of a series: aligned windows in order, each sample inside its own window. */
  ghost predicate GoodBlocks(blocks: seq<Block>) {
    && (forall k :: 0 <= k < |blocks| ==> GoodBlock(blocks[k]))
    && (forall i, j :: 0 <= i < j < |blocks| ==> blocks[i].start as int + MON_BLOCK_SECONDS <= blocks[j].start as int)
  }

  function RowOf(b: Block): Row
    requires GoodBlock(b)
  {
    Item(BlockKey(b.start as int), Encode(b))
  }

  function RowsOf(blocks: seq<Block>): (rows: seq<Row>)
    requires forall k :: 0 <= k < |blocks| ==> GoodBlock(blocks[k])
    ensures |rows| == |blocks|
    ensures forall k :: 0 <= k < |blocks| ==> rows[k] == RowOf(blocks[k])
  {
    seq(|blocks|, k requires 0 <= k < |blocks| && GoodBlock(blocks[k]) => RowOf(blocks[k]))
  }

  function Points(ts: seq<int64>, values: seq<int64>): seq<Point>
    requires |ts| == |values|
  {
    seq(|ts|, i requires 0 <= i < |ts| => Point(ts[i] as int, values[i]))
  }

  /** The samples of a row; a row that does not decode has none. */
  function RowPoints(row: Row): seq<Point> {
    DecodedPairs(row.value);
    match Decode(row.value)
    case Ok(b) => Points(b.ts, b.values)
    case Err(_) => []
  }

  function AllPoints(rows: seq<Row>): seq<Point> {
    if rows == [] then [] else RowPoints(rows[0]) + AllPoints(rows[1..])
  }

  lemma {:induction false} AllPointsSplit(a: seq<Row>, b: seq<Row>)
    ensures AllPoints(a + b) == AllPoints(a) + AllPoints(b)
  {
    hide RowPoints;
    if a == [] {
      assert a + b == b;
    } else {
      assert (a + b)[0] == a[0] && (a + b)[1..] == a[1..] + b;
      AllPointsSplit(a[1..], b);
      assert RowPoints(a[0]) + (AllPoints(a[1..]) + AllPoints(b))
          == (RowPoints(a[0]) + AllPoints(a[1..])) + AllPoints(b);
    }
  }

  // ---- The window ----

  /** Bounds that are not positive are no bounds. */
  predicate InWindow(ts: int, tsStart: int, tsEnd: int) {
    (tsStart > 0 ==> ts >= tsStart) && (tsEnd > 0 ==> ts <= tsEnd)
  }

  function Window(ps: seq<Point>, tsStart: int, tsEnd: int): seq<Point> {
    if ps == [] then []
    else (if InWindow(ps[0].ts, tsStart, tsEnd) then [ps[0]] else []) + Window(ps[1..], tsStart, tsEnd)
  }

  lemma {:induction false} WindowSplit(a: seq<Point>, b: seq<Point>, tsStart: int, tsEnd: int)
    ensures Window(a + b, tsStart, tsEnd) == Window(a, tsStart, tsEnd) + Window(b, tsStart, tsEnd)
  {
    if a == [] {
      assert a + b == b;
    } else {
      assert (a + b)[0] == a[0] && (a + b)[1..] == a[1..] + b;
      WindowSplit(a[1..], b, tsStart, tsEnd);
      var head := if InWindow(a[0].ts, tsStart, tsEnd) then [a[0]] else [];
      assert head + (Window(a[1..], tsStart, tsEnd) + Window(b, tsStart, tsEnd))
          == (head + Window(a[1..], tsStart, tsEnd)) + Window(b, tsStart, tsEnd);
    }
  }

  lemma {:induction false} WindowEmpty(ps: seq<Point>, tsStart: int, tsEnd: int)
    requires forall i :: 0 <= i < |ps| ==> !InWindow(ps[i].ts, tsStart, tsEnd)
    ensures Window(ps, tsStart, tsEnd) == []
  {
    if ps != [] {
      WindowEmpty(ps[1..], tsStart, tsEnd);
    }
  }

  /** The window keeps exactly the samples inside it, in order. */
  lemma {:induction false} WindowMembers(ps: seq<Point>, tsStart: int, tsEnd: int, p: Point)
    ensures p in Window(ps, tsStart, tsEnd) <==> p in ps && InWindow(p.ts, tsStart, tsEnd)
  {
    if ps != [] {
      assert ps == [ps[0]] + ps[1..];
      WindowMembers(ps[1..], tsStart, tsEnd, p);
    }
  }

  ghost predicate Ascending(ps: seq<Point>) {
    forall i, j :: 0 <= i < j < |ps| ==> ps[i].ts <= ps[j].ts
  }

  lemma AscendingTail(ps: seq<Point>)
    requires Ascending(ps) && ps != []
    ensures Ascending(ps[1..])
  {
    forall i, j | 0 <= i < j < |ps| - 1 ensures ps[1..][i].ts <= ps[1..][j].ts {
      assert ps[1..][i] == ps[i + 1] && ps[1..][j] == ps[j + 1];
    }
  }

  lemma {:induction false} WindowAscending(ps: seq<Point>, tsStart: int, tsEnd: int)
    requires Ascending(ps)
    ensures Ascending(Window(ps, tsStart, tsEnd))
  {
    if ps != [] {
      var rest := Window(ps[1..], tsStart, tsEnd);
      AscendingTail(ps);
      WindowAscending(ps[1..], tsStart, tsEnd);
      forall i | 0 <= i < |rest| ensures ps[0].ts <= rest[i].ts {
        assert rest[i] in rest;
        WindowMembers(ps[1..], tsStart, tsEnd, rest[i]);
        var k :| 0 <= k < |ps| - 1 && ps[1..][k] == rest[i];
        assert ps[k + 1] == rest[i];
      }
    }
  }

  // ---- Downsampling ----

  /** The quotient of the Go code, which truncates toward zero. */
  function Bucket(ts: int, step: int): int
    requires step > 0
  {
    if ts >= 0 then ts / step else -((-ts) / step)
  }

  predicate SameBucket(a: Point, b: Point, step: int) {
    step > 0 && Bucket(a.ts, step) == Bucket(b.ts, step)
  }

  /** The last sample of every bucket; without a step every sample. */
  function Keep(ps: seq<Point>, step: int): (kept: seq<Point>)
    ensures ps != [] ==> kept != []
  {
    if ps == [] then []
    else if |ps| > 1 && SameBucket(ps[0], ps[1], step) then Keep(ps[1..], step)
    else [ps[0]] + Keep(ps[1..], step)
  }

  lemma {:induction false} KeepLast(ps: seq<Point>, step: int)
    requires ps != []
    ensures Keep(ps, step) != [] && Keep(ps, step)[|Keep(ps, step)| - 1] == ps[|ps| - 1]
  {
    if |ps| > 1 {
      KeepLast(ps[1..], step);
    }
  }

  lemma KeepNone(step: int)
    ensures Keep([], step) == []
  {
  }

  /** One more sample opens a bucket or takes the place of the last one. */
  lemma {:induction false} KeepAppend(ps: seq<Point>, p: Point, step: int)
    ensures Keep(ps + [p], step) ==
            if ps != [] && SameBucket(ps[|ps| - 1], p, step) then Keep(ps, step)[..|Keep(ps, step)| - 1] + [p]
            else Keep(ps, step) + [p]
  {
    if ps == [] {
      assert ps + [p] == [p] && [p][1..] == [];
    } else {
      KeepLast(ps, step);
      var tail := ps[1..];
      assert (ps + [p])[0] == ps[0] && (ps + [p])[1..] == tail + [p];
      KeepAppend(tail, p, step);
      if tail == [] {
        assert tail + [p] == [p] && [p][1..] == [];
        assert ps[1..] == [];
        assert (ps + [p])[1] == p;
      } else {
        KeepLast(tail, step);
        assert (ps + [p])[1] == ps[1];
      }
    }
  }

  predicate NextIsOther(ps: seq<Point>, i: nat, step: int)
    requires i < |ps|
  {
    i + 1 < |ps| ==> !SameBucket(ps[i], ps[i + 1], step)
  }

  lemma {:induction false} KeepMembers(ps: seq<Point>, step: int, p: Point)
    ensures p in Keep(ps, step) <==> exists i :: 0 <= i < |ps| && ps[i] == p && NextIsOther(ps, i, step)
  {
    if ps != [] {
      var tail := ps[1..];
      KeepMembers(tail, step, p);
      forall i | 0 <= i < |tail|
        ensures tail[i] == ps[i + 1] && (NextIsOther(tail, i, step) <==> NextIsOther(ps, i + 1, step))
      {
      }
      assert p in Keep(ps, step) <==> (p == ps[0] && NextIsOther(ps, 0, step)) || p in Keep(tail, step);
      if p in Keep(tail, step) {
        var i :| 0 <= i < |tail| && tail[i] == p && NextIsOther(tail, i, step);
        assert ps[i + 1] == p && NextIsOther(ps, i + 1, step);
      }
      forall i | 0 < i < |ps| && ps[i] == p && NextIsOther(ps, i, step)
        ensures p in Keep(tail, step)
      {
        assert tail[i - 1] == p && NextIsOther(tail, i - 1, step);
      }
    }
  }

  ghost predicate LastOfBucket(ps: seq<Point>, i: int, step: int) {
    0 <= i < |ps| && forall j :: i < j < |ps| ==> !SameBucket(ps[i], ps[j], step)
  }

  lemma NextDecides(ps: seq<Point>, i: nat, step: int)
    requires Ascending(ps) && i < |ps|
    ensures NextIsOther(ps, i, step) <==> LastOfBucket(ps, i, step)
  {
    if NextIsOther(ps, i, step) && step > 0 {
      forall j | i < j < |ps| ensures !SameBucket(ps[i], ps[j], step) {
        BucketMonotone(ps[i].ts, ps[i + 1].ts, step);
        if i + 1 < j {
          BucketMonotone(ps[i + 1].ts, ps[j].ts, step);
        }
      }
    }
  }

  lemma {:induction false} KeepIncreases(ps: seq<Point>, step: int)
    requires Ascending(ps) && step > 0
    ensures forall i, j :: 0 <= i < j < |Keep(ps, step)| ==>
              Bucket(Keep(ps, step)[i].ts, step) < Bucket(Keep(ps, step)[j].ts, step)
  {
    if |ps| > 1 {
      var tail := ps[1..];
      KeepIncreases(tail, step);
      if NextIsOther(ps, 0, step) {
        var kept := Keep(tail, step);
        forall j | 0 <= j < |kept| ensures Bucket(ps[0].ts, step) < Bucket(kept[j].ts, step) {
          KeepMembers(tail, step, kept[j]);
          var i :| 0 <= i < |tail| && tail[i] == kept[j];
          BucketMonotone(ps[0].ts, ps[1].ts, step);
          if i > 0 {
            BucketMonotone(ps[1].ts, ps[i + 1].ts, step);
          }
        }
      }
    }
  }

  /**
   What downsampling means: a sample is returned exactly when it is the last one
   of its bucket, and the buckets of the result strictly increase.
   */
  lemma KeepIsLastOfBucket(ps: seq<Point>, step: int)
    requires Ascending(ps) && step > 0
    ensures forall p :: p in Keep(ps, step) <==> exists i :: LastOfBucket(ps, i, step) && ps[i] == p
    ensures forall i, j :: 0 <= i < j < |Keep(ps, step)| ==>
              Bucket(Keep(ps, step)[i].ts, step) < Bucket(Keep(ps, step)[j].ts, step)
  {
    KeepIncreases(ps, step);
    forall p
      ensures p in Keep(ps, step) <==> exists i :: LastOfBucket(ps, i, step) && ps[i] == p
    {
      KeepMembers(ps, step, p);
      if p in Keep(ps, step) {
        var i :| 0 <= i < |ps| && ps[i] == p && NextIsOther(ps, i, step);
        NextDecides(ps, i, step);
        assert LastOfBucket(ps, i, step) && ps[i] == p;
      }
      if i :| LastOfBucket(ps, i, step) && ps[i] == p {
        NextDecides(ps, i, step);
      }
    }
  }

  lemma DivMonotone(a: int, b: int, step: int)
    requires 0 <= a <= b && step > 0
    ensures a / step <= b / step
  {
    MulGap(b / step, a / step, step);
  }

  lemma BucketMonotone(a: int, b: int, step: int)
    requires a <= b && step > 0
    ensures Bucket(a, step) <= Bucket(b, step)
  {
    if a >= 0 {
      DivMonotone(a, b, step);
    } else if b >= 0 {
      DivMonotone(0, b, step);
      DivMonotone(0, -a, step);
    } else {
      DivMonotone(-b, -a, step);
    }
  }

  lemma MulGap(x: int, y: int, z: int)
    requires z > 0
    ensures x < y ==> x * z + z <= y * z
  {
    if x < y {
      MulNatural(y - x - 1, z);
      assert (y - x - 1) * z == y * z - x * z - z;
    }
  }

  lemma MulNatural(x: int, y: int)
    requires x >= 0 && y >= 0
    ensures x * y >= 0
  {
  }

  // ---- The scan range ----

  /** The items up to an inclusive upper bound. */
  function Upto(rows: seq<Row>, to: string): seq<Row> {
    if rows == [] || Less(to, rows[0].key) then []
    else [rows[0]] + Upto(rows[1..], to)
  }

  /** Behind every block key of a series. */
  const PREFIX_END := [255 as char]

  function From(tsStart: int): string {
    if tsStart > 0 then BlockKey(StartOf(tsStart) - MON_BLOCK_SECONDS) else ""
  }

  function To(tsEnd: int): string {
    if tsEnd > 0 then BlockKey(StartOf(tsEnd) + 2 * MON_BLOCK_SECONDS) else PREFIX_END
  }

  function Scan(rows: seq<Row>, tsStart: int, tsEnd: int): seq<Row> {
    Upto(After(rows, From(tsStart)), To(tsEnd))
  }

  lemma FromBound(start: int, tsStart: int)
    requires 0 < start < TIME_LIMIT && tsStart < TIME_LIMIT && !Less(From(tsStart), BlockKey(start))
    ensures tsStart > 0 && start <= StartOf(tsStart) - MON_BLOCK_SECONDS
  {
    HexFirst(BLOCK_ID_WIDTH, start);
    if tsStart > 0 {
      BlockKeyOrder(StartOf(tsStart) - MON_BLOCK_SECONDS, start);
    }
  }

  lemma FromSpares(b: Block, tsStart: int, tsEnd: int)
    requires GoodBlock(b) && tsStart < TIME_LIMIT && !Less(From(tsStart), BlockKey(b.start as int))
    ensures forall i :: 0 <= i < |b.ts| ==> !InWindow(b.ts[i] as int, tsStart, tsEnd)
  {
    hide From, BlockKey, Less;
    FromBound(b.start as int, tsStart);
  }

  lemma ToSpares(b: Block, tsStart: int, tsEnd: int)
    requires GoodBlock(b) && tsEnd < TIME_LIMIT - 2 * MON_BLOCK_SECONDS && Less(To(tsEnd), BlockKey(b.start as int))
    ensures forall i :: 0 <= i < |b.ts| ==> !InWindow(b.ts[i] as int, tsStart, tsEnd)
  {
    if tsEnd > 0 {
      BlockKeyOrder(StartOf(tsEnd) + 2 * MON_BLOCK_SECONDS, b.start as int);
    } else {
      HexFirst(BLOCK_ID_WIDTH, b.start as int);
    }
  }

  lemma BlockPoints(b: Block)
    requires GoodBlock(b)
    ensures RowPoints(RowOf(b)) == Points(b.ts, b.values) && !Panics(RowOf(b))
  {
    hide Encode, Decode;
    BlockRoundTrip(b);
  }

  /** A block outside the window contributes nothing to it. */
  lemma SparedBlock(b: Block, tsStart: int, tsEnd: int)
    requires GoodBlock(b)
    requires forall i :: 0 <= i < |b.ts| ==> !InWindow(b.ts[i] as int, tsStart, tsEnd)
    ensures Window(RowPoints(RowOf(b)), tsStart, tsEnd) == []
  {
    hide RowPoints, RowOf, InWindow, Window;
    BlockPoints(b);
    WindowEmpty(Points(b.ts, b.values), tsStart, tsEnd);
  }

  lemma TailRows(blocks: seq<Block>)
    requires GoodBlocks(blocks) && blocks != []
    ensures GoodBlocks(blocks[1..]) && GoodBlock(blocks[0])
    ensures RowsOf(blocks)[1..] == RowsOf(blocks[1..]) && RowsOf(blocks)[0] == RowOf(blocks[0])
  {
    hide GoodBlock, RowOf;
    assert forall k :: 0 <= k < |blocks| - 1 ==> blocks[1..][k] == blocks[k + 1];
  }

  lemma {:induction false} AfterLosesNothing(blocks: seq<Block>, tsStart: int, tsEnd: int) returns (k: nat)
    requires GoodBlocks(blocks) && tsStart < TIME_LIMIT
    ensures k <= |blocks| && GoodBlocks(blocks[k..])
    ensures After(RowsOf(blocks), From(tsStart)) == RowsOf(blocks[k..])
    ensures Window(AllPoints(After(RowsOf(blocks), From(tsStart))), tsStart, tsEnd)
            == Window(AllPoints(RowsOf(blocks)), tsStart, tsEnd)
  {
    hide GoodBlock, Less, From, BlockKey, RowPoints, Window, InWindow, Encode;
    var rows := RowsOf(blocks);
    k := 0;
    assert blocks[0..] == blocks;
    if blocks != [] && !Less(From(tsStart), rows[0].key) {
      var tail := blocks[1..];
      TailRows(blocks);
      hide GoodBlocks, RowsOf;
      k := AfterLosesNothing(tail, tsStart, tsEnd);
      assert tail[k..] == blocks[k + 1..];
      k := k + 1;
      FromSpares(blocks[0], tsStart, tsEnd);
      SparedBlock(blocks[0], tsStart, tsEnd);
      WindowSplit(RowPoints(rows[0]), AllPoints(RowsOf(tail)), tsStart, tsEnd);
    }
  }

  lemma {:induction false} UptoLosesNothing(blocks: seq<Block>, tsStart: int, tsEnd: int)
    requires GoodBlocks(blocks) && tsEnd < TIME_LIMIT - 2 * MON_BLOCK_SECONDS
    ensures Window(AllPoints(Upto(RowsOf(blocks), To(tsEnd))), tsStart, tsEnd)
            == Window(AllPoints(RowsOf(blocks)), tsStart, tsEnd)
  {
    hide GoodBlock, Less, To, BlockKey, RowPoints, Window, InWindow, Encode;
    var rows := RowsOf(blocks);
    if blocks != [] {
      var tail := blocks[1..];
      assert forall k :: 0 <= k < |tail| ==> tail[k] == blocks[k + 1];
      assert rows[1..] == RowsOf(tail);
      if Less(To(tsEnd), rows[0].key) {
        RestBehind(blocks, tsStart, tsEnd);
      } else {
        UptoLosesNothing(tail, tsStart, tsEnd);
        var upto := Upto(RowsOf(tail), To(tsEnd));
        assert ([rows[0]] + upto)[1..] == upto;
        WindowSplit(RowPoints(rows[0]), AllPoints(RowsOf(tail)), tsStart, tsEnd);
        WindowSplit(RowPoints(rows[0]), AllPoints(upto), tsStart, tsEnd);
      }
    }
  }

  /** Behind the first block past the upper bound nothing is in the window. */
  lemma {:induction false} RestBehind(blocks: seq<Block>, tsStart: int, tsEnd: int)
    requires GoodBlocks(blocks) && tsEnd < TIME_LIMIT - 2 * MON_BLOCK_SECONDS
    requires blocks != [] && Less(To(tsEnd), BlockKey(blocks[0].start as int))
    ensures Window(AllPoints(RowsOf(blocks)), tsStart, tsEnd) == Window([], tsStart, tsEnd)
  {
    hide GoodBlock, Less, To, BlockKey, RowPoints, InWindow, Encode;
    var rows := RowsOf(blocks);
    var tail := blocks[1..];
    assert forall k :: 0 <= k < |tail| ==> tail[k] == blocks[k + 1];
    assert rows[1..] == RowsOf(tail);
    ToSpares(blocks[0], tsStart, tsEnd);
    SparedBlock(blocks[0], tsStart, tsEnd);
    WindowSplit(RowPoints(rows[0]), AllPoints(RowsOf(tail)), tsStart, tsEnd);
    if tail != [] {
      LaterKey(blocks[0], tail[0]);
      LessTransitive(To(tsEnd), BlockKey(blocks[0].start as int), BlockKey(tail[0].start as int));
      RestBehind(tail, tsStart, tsEnd);
    }
  }

  lemma LaterKey(a: Block, b: Block)
    requires GoodBlock(a) && GoodBlock(b) && a.start < b.start
    ensures Less(BlockKey(a.start as int), BlockKey(b.start as int))
  {
    BlockKeyOrder(a.start as int, b.start as int);
  }

  /** The scan bounds drop blocks, never a sample of the window. */
  lemma ScanLosesNothing(blocks: seq<Block>, tsStart: int, tsEnd: int)
    requires GoodBlocks(blocks) && tsStart < TIME_LIMIT && tsEnd < TIME_LIMIT - 2 * MON_BLOCK_SECONDS
    ensures Window(AllPoints(Scan(RowsOf(blocks), tsStart, tsEnd)), tsStart, tsEnd)
            == Window(AllPoints(RowsOf(blocks)), tsStart, tsEnd)
  {
    hide Window, AllPoints, Upto, After, From, To, GoodBlock, RowOf;
    var k := AfterLosesNothing(blocks, tsStart, tsEnd);
    UptoLosesNothing(blocks[k..], tsStart, tsEnd);
  }

  // ---- The query ----

  /**
   The answer after n samples of the window: all of them, or as many as it took
   to reach the limit.
   */
  ghost predicate IsAnswer(points: seq<Point>, n: int, ps: seq<Point>, step: int, limit: int) {
    && 0 <= n <= |ps|
    && points == Keep(ps[..n], step)
    && (n < |ps| ==> |Keep(ps[..n], step)| >= limit)
    && forall m :: 0 <= m < n ==> |Keep(ps[..m], step)| < limit
  }

  /**
   The code indexes an empty list when the first sample of the window falls into
   bucket -1, the value that stands for no bucket. Stored times are not negative,
   so this takes a row that no sampler wrote.
   */
  predicate Crashes(window: seq<Point>, step: int, limit: int) {
    limit > 0 && step > 0 && window != [] && Bucket(window[0].ts, step) == -1
  }

  /** Making the slices for this row panics. */
  predicate Panics(row: Row) {
    Decode(row.value) == Err(Panic)
  }

  /** The number of rows in front of the first that panics. */
  function Clean(rows: seq<Row>): (m: nat)
    ensures m <= |rows| && (m < |rows| ==> Panics(rows[m]))
    ensures forall i :: 0 <= i < m ==> !Panics(rows[i])
  {
    if rows == [] || Panics(rows[0]) then 0 else 1 + Clean(rows[1..])
  }

  /** The limit ends the query within these samples. */
  ghost predicate Reached(window: seq<Point>, step: int, limit: int) {
    exists n :: 0 <= n < |window| && |Keep(window[..n], step)| >= limit
  }

  /**
   The answer from these rows, all of their window samples or cut at the limit; none
   for a crash, on the first sample or on a row that panics and is reached.
   */
  ghost predicate Answers(answer: Option<seq<Point>>, rows: seq<Row>, tsStart: int, tsEnd: int, step: int, limit: int) {
    var window := Window(AllPoints(rows[..Clean(rows)]), tsStart, tsEnd);
    if Crashes(window, step, limit) || (Clean(rows) < |rows| && !Reached(window, step, limit)) then answer == None
    else answer.Some? && exists n: nat :: IsAnswer(answer.value, n, window, step, limit)
  }

  /**
   One range read, which may come back short, then the samples of the window
   downsampled. A row that does not decode is skipped.
   */
  method MonQuery(rows: seq<Row>, tsStart: int, tsEnd: int, step: int, limit: int) returns (answer: Option<seq<Point>>)
    ensures exists read: nat ::
              && read <= |Scan(rows, tsStart, tsEnd)| && read <= MON_BLOCK_SCAN_LIMIT
              && (read == 0 <==> Scan(rows, tsStart, tsEnd) == [])
              && Answers(answer, Scan(rows, tsStart, tsEnd)[..read], tsStart, tsEnd, step, limit)
  {
    hide Scan, Answers;
    var page := ReadScan(rows, tsStart, tsEnd);
    ghost var read := |page|;
    answer := QueryPage(page, tsStart, tsEnd, step, limit);
    assert Answers(answer, Scan(rows, tsStart, tsEnd)[..read], tsStart, tsEnd, step, limit);
  }

  method QueryPage(page: seq<Row>, tsStart: int, tsEnd: int, step: int, limit: int) returns (answer: Option<seq<Point>>)
    ensures Answers(answer, page, tsStart, tsEnd, step, limit)
  {
    hide IsAnswer, Window, AllPoints, Crashes, Reached, Panics;
    ghost var n;
    answer, n := QueryRows(page, tsStart, tsEnd, step, limit);
  }

  /** The outcome of a query that has passed n samples of the window, in front of a row that panics if there is one. */
  ghost predicate Outcome(answer: Option<seq<Point>>, n: int, window: seq<Point>, panics: bool, step: int, limit: int) {
    if Crashes(window, step, limit) || (panics && !Reached(window, step, limit)) then answer == None
    else answer.Some? && IsAnswer(answer.value, n, window, step, limit)
  }

  method QueryRows(page: seq<Row>, tsStart: int, tsEnd: int, step: int, limit: int)
    returns (answer: Option<seq<Point>>, ghost n: nat)
    ensures var window := Window(AllPoints(page[..Clean(page)]), tsStart, tsEnd);
            Outcome(answer, n, window, Clean(page) < |page|, step, limit)
  {
    hide *;
    var points: seq<Point> := [];
    n := 0;
    var lastBucket := -1;
    ghost var done: seq<Point> := [];
    ghost var clean := page[..Clean(page)];
    NothingDone(clean, tsStart, tsEnd, step, limit);
    for r := 0 to |page|
      invariant r <= |clean| && done == Window(AllPoints(clean[..r]), tsStart, tsEnd)
      invariant Progress(points, lastBucket, done, step, limit)
    {
      var block := DecodeBlock(page[r].value);
      CleanRow(page, r, block);
      if block.Err? && block.error.Panic? {
        assert clean[..r] == clean;
        Unreached(points, lastBucket, done, step, limit);
        return None, n;
      }
      WindowRow(clean, r, tsStart, tsEnd);
      PointsOfRow(page[r], tsStart, tsEnd);
      if block.Err? {
        continue;
      }
      var stop;
      points, lastBucket, stop := QueryBlock(block.value, RowPoints(page[r]), tsStart, tsEnd, step, limit,
                                             points, lastBucket, done);
      if stop.Crash? {
        Crashed(clean, r, stop.taken, tsStart, tsEnd, done, Clean(page) < |page|, step, limit);
        return None, n;
      }
      if stop.Limit? {
        Stopped(clean, r, stop.taken, tsStart, tsEnd, points, lastBucket, done, Clean(page) < |page|, step, limit);
        n := |done| + |Window(RowPoints(page[r])[..stop.taken], tsStart, tsEnd)|;
        return Some(points), n;
      }
      done := done + Window(RowPoints(page[r]), tsStart, tsEnd);
    }
    assert clean[..|page|] == clean;
    n := |done|;
    Finished(points, lastBucket, done, step, limit);
    answer := Some(points);
  }

  /** How the loop over the samples of a row ends: behind the last one, or in front of one of them. */
  datatype Stop = End | Limit(taken: nat) | Crash(taken: nat)

  method QueryBlock(b: Block, ghost own: seq<Point>, tsStart: int, tsEnd: int, step: int, limit: int,
                    kept: seq<Point>, bucketBefore: int, ghost before: seq<Point>)
    returns (points: seq<Point>, lastBucket: int, stop: Stop)
    requires |b.ts| == |b.values| == |own|
    requires forall i :: 0 <= i < |b.ts| ==> own[i] == Point(b.ts[i] as int, b.values[i])
    requires Window(own[..0], tsStart, tsEnd) == []
    requires Progress(kept, bucketBefore, before, step, limit)
    ensures !stop.End? ==> stop.taken < |own|
    ensures stop.End? ==> Progress(points, lastBucket, before + Window(own, tsStart, tsEnd), step, limit)
    ensures stop.Limit? ==>
              && |points| >= limit && InWindow(own[stop.taken].ts, tsStart, tsEnd)
              && Progress(points, lastBucket, before + Window(own[..stop.taken], tsStart, tsEnd), step, limit)
    ensures stop.Crash? ==> Crashes(before + Window(own[..stop.taken + 1], tsStart, tsEnd), step, limit)
  {
    hide Progress, Window, Crashes, Bucket;
    points, lastBucket := kept, bucketBefore;
    ghost var done := before;
    for i := 0 to |b.ts|
      invariant done == before + Window(own[..i], tsStart, tsEnd)
      invariant Progress(points, lastBucket, done, step, limit)
    {
      var ts := b.ts[i] as int;
      WindowNext(before, own, i, tsStart, tsEnd);
      if tsStart > 0 && ts < tsStart {
        continue;
      }
      if tsEnd > 0 && ts > tsEnd {
        continue;
      }
      if |points| >= limit {
        return points, lastBucket, Limit(i);
      }
      Advance(points, lastBucket, done, own[i], step, limit);
      done := done + [own[i]];
      if step > 0 {
        var bucket := Bucket(ts, step);
        if bucket == lastBucket {
          if points == [] {
            return points, lastBucket, Crash(i);
          }
          points := points[|points| - 1 := Point(ts, b.values[i])];
          continue;
        }
        lastBucket := bucket;
      }
      points := points + [Point(ts, b.values[i])];
    }
    stop := End;
    assert own[..|b.ts|] == own;
  }

  lemma NothingDone(page: seq<Row>, tsStart: int, tsEnd: int, step: int, limit: int)
    ensures Window(AllPoints(page[..0]), tsStart, tsEnd) == []
    ensures Progress([], -1, [], step, limit)
  {
  }

  lemma Finished(points: seq<Point>, lastBucket: int, done: seq<Point>, step: int, limit: int)
    requires Progress(points, lastBucket, done, step, limit)
    ensures Outcome(Some(points), |done|, done, false, step, limit)
  {
    assert done[..|done|] == done;
  }

  lemma Unreached(points: seq<Point>, lastBucket: int, done: seq<Point>, step: int, limit: int)
    requires Progress(points, lastBucket, done, step, limit)
    ensures forall n :: Outcome(None, n, done, true, step, limit)
  {
  }

  /** In front of the first row that panics no row panics. */
  lemma CleanRow(page: seq<Row>, r: nat, block: Result<Block, ReadError>)
    requires r < |page| && r <= Clean(page) && block == Decode(page[r].value)
    ensures if block == Err(Panic) then r == Clean(page) else r < Clean(page) && page[..Clean(page)][r] == page[r]
  {
    hide Decode;
  }

  lemma PointsOfRow(row: Row, tsStart: int, tsEnd: int)
    ensures match Decode(row.value)
            case Err(_) => RowPoints(row) == [] && Window(RowPoints(row), tsStart, tsEnd) == []
            case Ok(b) =>
              && |b.ts| == |b.values| == |RowPoints(row)|
              && Window(RowPoints(row)[..0], tsStart, tsEnd) == []
              && forall i :: 0 <= i < |b.ts| ==> RowPoints(row)[i] == Point(b.ts[i] as int, b.values[i])
  {
    DecodedPairs(row.value);
  }

  method ReadScan(rows: seq<Row>, tsStart: int, tsEnd: int) returns (page: seq<Row>)
    ensures |page| <= MON_BLOCK_SCAN_LIMIT && |page| <= |Scan(rows, tsStart, tsEnd)|
    ensures page == Scan(rows, tsStart, tsEnd)[..|page|]
    ensures page == [] <==> Scan(rows, tsStart, tsEnd) == []
  {
    hide Scan;
    var range := Scan(rows, tsStart, tsEnd);
    if range == [] {
      return [];
    }
    var n: nat :| 1 <= n <= |range| && n <= MON_BLOCK_SCAN_LIMIT;
    return range[..n];
  }

  /** What the loops of the query maintain over the window samples they have passed. */
  ghost predicate Progress(points: seq<Point>, lastBucket: int, done: seq<Point>, step: int, limit: int) {
    && points == Keep(done, step)
    && !Crashes(done, step, limit)
    && (step > 0 ==> lastBucket == if done == [] then -1 else Bucket(done[|done| - 1].ts, step))
    && (forall m :: 0 <= m < |done| ==> |Keep(done[..m], step)| < limit)
  }

  lemma Advance(points: seq<Point>, lastBucket: int, done: seq<Point>, p: Point, step: int, limit: int)
    requires Progress(points, lastBucket, done, step, limit) && |points| < limit
    ensures var same := step > 0 && Bucket(p.ts, step) == lastBucket;
            if same && points == [] then Crashes(done + [p], step, limit)
            else Progress(if same then points[|points| - 1 := p] else points + [p],
                          if step > 0 then Bucket(p.ts, step) else lastBucket, done + [p], step, limit)
  {
    hide Bucket;
    KeepAppend(done, p, step);
    if done != [] {
      KeepLast(done, step);
    }
    var grown := done + [p];
    forall m | 0 <= m < |grown| ensures |Keep(grown[..m], step)| < limit {
      assert grown[..m] == done[..m];
      assert done[..|done|] == done;
    }
    if step > 0 && Bucket(p.ts, step) == lastBucket && points != [] {
      assert points[|points| - 1 := p] == points[..|points| - 1] + [p];
    }
  }

  /** One more row adds its own window samples. */
  lemma WindowRow(page: seq<Row>, r: nat, tsStart: int, tsEnd: int)
    requires r < |page|
    ensures Window(AllPoints(page[..r + 1]), tsStart, tsEnd)
            == Window(AllPoints(page[..r]), tsStart, tsEnd) + Window(RowPoints(page[r]), tsStart, tsEnd)
  {
    hide RowPoints, Window;
    assert page[..r + 1] == page[..r] + [page[r]];
    AllPointsSplit(page[..r], [page[r]]);
    assert [page[r]][1..] == [];
    assert AllPoints([page[r]]) == RowPoints(page[r]);
    WindowSplit(AllPoints(page[..r]), RowPoints(page[r]), tsStart, tsEnd);
  }

  lemma WindowNext(before: seq<Point>, own: seq<Point>, i: nat, tsStart: int, tsEnd: int)
    requires i < |own|
    ensures var done := before + Window(own[..i], tsStart, tsEnd);
            before + Window(own[..i + 1], tsStart, tsEnd)
            == if InWindow(own[i].ts, tsStart, tsEnd) then done + [own[i]] else done
  {
    assert own[..i + 1] == own[..i] + [own[i]];
    WindowSplit(own[..i], [own[i]], tsStart, tsEnd);
    assert [own[i]][1..] == [];
  }

  lemma FirstInWindow(ps: seq<Point>, tsStart: int, tsEnd: int)
    ensures ps != [] && InWindow(ps[0].ts, tsStart, tsEnd) ==> Window(ps, tsStart, tsEnd) != []
  {
  }

  /** The samples passed before sample i of row r are the beginning of the window. */
  lemma PassedIsPrefix(page: seq<Row>, r: nat, i: nat, tsStart: int, tsEnd: int) returns (rest: seq<Point>)
    requires r < |page| && i <= |RowPoints(page[r])|
    ensures Window(AllPoints(page), tsStart, tsEnd)
            == Window(AllPoints(page[..r]), tsStart, tsEnd) + Window(RowPoints(page[r])[..i], tsStart, tsEnd) + rest
    ensures Window(RowPoints(page[r])[i..], tsStart, tsEnd) != [] ==> rest != []
  {
    hide RowPoints, InWindow, Window, AllPoints;
    var own := RowPoints(page[r]);
    assert own == own[..i] + own[i..];
    WindowSplit(own[..i], own[i..], tsStart, tsEnd);
    WindowRow(page, r, tsStart, tsEnd);
    assert page == page[..r + 1] + page[r + 1..];
    AllPointsSplit(page[..r + 1], page[r + 1..]);
    WindowSplit(AllPoints(page[..r + 1]), AllPoints(page[r + 1..]), tsStart, tsEnd);
    rest := Window(own[i..], tsStart, tsEnd) + Window(AllPoints(page[r + 1..]), tsStart, tsEnd);
  }

  /** Stopping at the limit before sample i of row r answers from the beginning of the window. */
  lemma Stopped(page: seq<Row>, r: nat, i: nat, tsStart: int, tsEnd: int,
                points: seq<Point>, lastBucket: int, before: seq<Point>, panics: bool, step: int, limit: int)
    requires r < |page| && i < |RowPoints(page[r])| && InWindow(RowPoints(page[r])[i].ts, tsStart, tsEnd)
    requires before == Window(AllPoints(page[..r]), tsStart, tsEnd)
    requires Progress(points, lastBucket, before + Window(RowPoints(page[r])[..i], tsStart, tsEnd), step, limit)
    requires |points| >= limit
    ensures var n := |before| + |Window(RowPoints(page[r])[..i], tsStart, tsEnd)|;
            Outcome(Some(points), n, Window(AllPoints(page), tsStart, tsEnd), panics, step, limit)
  {
    hide RowPoints, InWindow, Keep, Window, AllPoints, Bucket;
    var all := Window(AllPoints(page), tsStart, tsEnd);
    var done := before + Window(RowPoints(page[r])[..i], tsStart, tsEnd);
    var rest := PassedIsPrefix(page, r, i, tsStart, tsEnd);
    assert all == done + rest;
    assert all[..|done|] == done;
    assert forall m :: 0 <= m < |done| ==> all[..m] == done[..m];
    KeepNone(step);
    FirstInWindow(RowPoints(page[r])[i..], tsStart, tsEnd);
    assert |all| > |done| && |Keep(all[..|done|], step)| >= limit;
  }

  lemma Crashed(page: seq<Row>, r: nat, i: nat, tsStart: int, tsEnd: int,
                before: seq<Point>, panics: bool, step: int, limit: int)
    requires r < |page| && i < |RowPoints(page[r])|
    requires before == Window(AllPoints(page[..r]), tsStart, tsEnd)
    requires Crashes(before + Window(RowPoints(page[r])[..i + 1], tsStart, tsEnd), step, limit)
    ensures forall n :: Outcome(None, n, Window(AllPoints(page), tsStart, tsEnd), panics, step, limit)
  {
    hide RowPoints, InWindow, Window, AllPoints, Bucket;
    var rest := PassedIsPrefix(page, r, i + 1, tsStart, tsEnd);
  }

  // ---- A truncated answer ----

  lemma {:induction false} KeepSplit(a: seq<Point>, b: seq<Point>, step: int)
    requires a != [] && b != []
    ensures Keep(a + b, step) ==
            (if SameBucket(a[|a| - 1], b[0], step) then Keep(a, step)[..|Keep(a, step)| - 1] else Keep(a, step))
            + Keep(b, step)
  {
    assert (a + b)[0] == a[0] && (a + b)[1..] == a[1..] + b;
    if |a| == 1 {
      assert a[1..] == [] && a[1..] + b == b;
      assert (a + b)[1] == b[0];
    } else {
      KeepSplit(a[1..], b, step);
      KeepLast(a[1..], step);
      assert (a + b)[1] == a[1];
    }
  }

  /** The last sample of the bucket that sample i belongs to. */
  function BucketEnd(ps: seq<Point>, i: nat, step: int): (end: nat)
    requires i < |ps|
    ensures i <= end < |ps| && NextIsOther(ps, end, step)
    ensures i < end ==> SameBucket(ps[i], ps[end], step)
    decreases |ps| - i
  {
    if NextIsOther(ps, i, step) then i else BucketEnd(ps, i + 1, step)
  }

  lemma {:induction false} KeepFirst(ps: seq<Point>, step: int)
    requires ps != []
    ensures Keep(ps, step)[0] == ps[BucketEnd(ps, 0, step)]
  {
    if !NextIsOther(ps, 0, step) {
      KeepFirst(ps[1..], step);
      BucketEndTail(ps, 1, ps[1..], 0, step);
    }
  }

  lemma {:induction false} BucketEndTail(ps: seq<Point>, k: nat, tail: seq<Point>, i: nat, step: int)
    requires k <= |ps| && tail == ps[k..] && i < |tail|
    ensures BucketEnd(ps, k + i, step) == k + BucketEnd(tail, i, step)
    decreases |tail| - i
  {
    if !NextIsOther(tail, i, step) {
      BucketEndTail(ps, k, tail, i + 1, step);
    }
  }

  /** A sequence of samples cut behind the n-th: all but the last point agree, and which sample the last one is. */
  lemma CutKeep(ps: seq<Point>, step: int, n: nat)
    requires 0 < n <= |ps|
    ensures var answer, full := Keep(ps[..n], step), Keep(ps, step);
            && 0 < |answer| <= |full|
            && answer == full[..|answer| - 1] + [ps[n - 1]]
            && full[|answer| - 1] == ps[BucketEnd(ps, n - 1, step)]
  {
    hide Keep, Bucket;
    var a, b := ps[..n], ps[n..];
    assert ps == a + b;
    KeepLast(a, step);
    if b == [] {
      assert a == ps;
    } else {
      KeepSplit(a, b, step);
      KeepFirst(b, step);
      BucketEndTail(ps, n, b, 0, step);
    }
  }

  /**
   An answer cut at the limit has as many points as the limit, and is the
   beginning of the full answer up to its last point, for which the full answer
   has the last sample of the same bucket. So it is the beginning of the full
   answer exactly when the cut comes behind a bucket, or divides a bucket at a
   sample that equals the last one.
   */
  lemma TruncatedAnswer(points: seq<Point>, n: nat, ps: seq<Point>, step: int, limit: int)
    requires IsAnswer(points, n, ps, step, limit) && limit > 0 && ps != [] && Ascending(ps)
    ensures n > 0 && 0 < |points| <= |Keep(ps, step)| && (n < |ps| ==> |points| == limit)
    ensures var full, end := Keep(ps, step), BucketEnd(ps, n - 1, step);
            && points == full[..|points| - 1] + [ps[n - 1]]
            && full[|points| - 1] == ps[end] && LastOfBucket(ps, end, step)
            && (points == full[..|points|] <==> ps[n - 1] == ps[end])
            && (end == n - 1 <==> LastOfBucket(ps, n - 1, step))
  {
    hide Keep, Bucket;
    KeepNone(step);
    assert ps[..0] == [];
    CutKeep(ps, step, n);
    var end := BucketEnd(ps, n - 1, step);
    NextDecides(ps, end, step);
    NextDecides(ps, n - 1, step);
    assert ps[..n] == ps[..n - 1] + [ps[n - 1]];
    KeepAppend(ps[..n - 1], ps[n - 1], step);
  }

  /** A cut that divides a bucket: the answer shows a sample that the full answer does not. */
  lemma CutInsideBucket()
    ensures var b := Block(600, [600, 630], [1, 2]);
            && GoodBlock(b)
            && Answers(Some([Point(600, 1)]), [RowOf(b)], 0, 0, 60, 1)
            && Answers(Some([Point(630, 2)]), [RowOf(b)], 0, 0, 60, 2)
  {
    hide Encode, Decode, RowPoints, BlockKey;
    var b := Block(600, [600, 630], [1, 2]);
    BlockPoints(b);
    TwoSamples([RowOf(b)], Point(600, 1), Point(630, 2), 60);
  }

  /** A row with two samples in one bucket. */
  lemma TwoSamples(rows: seq<Row>, first: Point, last: Point, step: int)
    requires |rows| == 1 && !Panics(rows[0]) && RowPoints(rows[0]) == [first, last]
    requires step > 0 && SameBucket(first, last, step) && Bucket(first.ts, step) >= 0
    ensures Answers(Some([first]), rows, 0, 0, step, 1) && Answers(Some([last]), rows, 0, 0, step, 2)
  {
    hide RowPoints, Bucket, Keep, Window, SameBucket, IsAnswer, Panics;
    var window := [first, last];
    assert Clean(rows) == 1 && rows[..1] == rows;
    assert rows[1..] == [] && AllPoints(rows) == window;
    WindowAll(window);
    TwoAnswers(first, last, step);
    assert IsAnswer([first], 1, window, step, 1);
  }

  lemma TwoAnswers(first: Point, last: Point, step: int)
    requires SameBucket(first, last, step)
    ensures IsAnswer([first], 1, [first, last], step, 1) && IsAnswer([last], 2, [first, last], step, 2)
  {
    hide Bucket, Keep, SameBucket;
    var window := [first, last];
    KeepNone(step);
    KeepAppend([], first, step);
    KeepAppend([first], last, step);
    assert [] + [first] == [first] && [first] + [last] == window && [first][..0] + [last] == [last];
    assert window[..0] == [] && window[..1] == [first] && window[..2] == window;
  }

  /** Without bounds the window holds every sample. */
  lemma {:induction false} WindowAll(ps: seq<Point>)
    ensures Window(ps, 0, 0) == ps
  {
    if ps != [] {
      WindowAll(ps[1..]);
    }
  }

  // ---- Sampling ----

  /** The leader's buffer: the start of the open block, 0 for none, and its samples. */
  datatype Mon = Mon(blockStart: int64, samples: seq<Sample>)

  /** One beat of the zonelet loop; dropped: the flusher is busy and gives up a closed block. */
  datatype Tick = Tick(now: int64, enabled: bool, leader: bool, reports: seq<Report>, dropped: bool)

  function BlockStartOf(ts: int64): int64
    requires ts >= 0
  {
    StartOf(ts as int) as int64
  }

  /** One sample per reported host; a report without a host id is none. */
  function Sampled(now: int64, reports: seq<Report>): (samples: seq<Sample>)
    ensures |samples| <= |reports|
    ensures forall i :: 0 <= i < |samples| ==> samples[i].ts == now
    ensures (forall i :: 0 <= i < |reports| ==> |reports[i].values| == FIELDS) ==>
              forall i :: 0 <= i < |samples| ==> |samples[i].values| == FIELDS
  {
    if reports == [] then []
    else if reports[0].host == "" then Sampled(now, reports[1..])
    else [Sample(reports[0].host, now, reports[0].values)] + Sampled(now, reports[1..])
  }

  predicate GoodTick(t: Tick) {
    && MON_BLOCK_SECONDS <= t.now as int < TIME_LIMIT - MON_BLOCK_SECONDS
    && forall i :: 0 <= i < |t.reports| ==> |t.reports[i].values| == FIELDS
  }

  /** The block a beat closes: the window of the open one has passed. */
  function Closed(m: Mon, t: Tick): Option<Mon> {
    if t.enabled && t.leader && m.blockStart != 0 && t.now as int - m.blockStart as int >= MON_BLOCK_SECONDS
    then Some(m)
    else None
  }

  function Next(m: Mon, t: Tick): Mon
    requires GoodTick(t)
  {
    if !t.enabled then m
    else if !t.leader then if m.blockStart != 0 then Mon(0, []) else m
    else if m.blockStart == 0 then Mon(BlockStartOf(t.now), m.samples + Sampled(t.now, t.reports))
    else if Closed(m, t).Some? then Mon(BlockStartOf(t.now), Sampled(t.now, t.reports))
    else Mon(m.blockStart, m.samples + Sampled(t.now, t.reports))
  }

  /** The samples of one host, in order. */
  function OfHost(samples: seq<Sample>, host: string): (own: seq<Sample>)
    ensures |own| <= |samples|
    ensures forall i :: 0 <= i < |own| ==> own[i] in samples && own[i].host == host
  {
    if samples == [] then []
    else
      var before := OfHost(samples[..|samples| - 1], host);
      var last := samples[|samples| - 1];
      if last.host == host then before + [last] else before
  }

  /** A closed block that the flusher can encode. */
  predicate Flushable(m: Mon) {
    && 0 < m.blockStart as int < TIME_LIMIT
    && |m.samples| <= SLICE_MAX
    && forall i :: 0 <= i < |m.samples| ==> |m.samples[i].values| == FIELDS
  }

  function TsOf(own: seq<Sample>): seq<int64> {
    seq(|own|, i requires 0 <= i < |own| => own[i].ts)
  }

  function ValuesOf(own: seq<Sample>, field: nat): seq<int64>
    requires field < FIELDS && forall i :: 0 <= i < |own| ==> |own[i].values| == FIELDS
  {
    seq(|own|, i requires 0 <= i < |own| && |own[i].values| == FIELDS => own[i].values[field])
  }

  function HostBlock(m: Mon, host: string, field: nat): (b: Block)
    requires Flushable(m) && field < FIELDS
    ensures |b.ts| == |b.values| == |OfHost(m.samples, host)| <= SLICE_MAX
  {
    var own := OfHost(m.samples, host);
    Block(m.blockStart, TsOf(own), ValuesOf(own, field))
  }

  /** The rows of one series after a flush: one more row when the host was sampled. */
  function FlushSeries(rows: seq<Row>, m: Mon, host: string, field: nat): seq<Row>
    requires Flushable(m) && field < FIELDS
  {
    if OfHost(m.samples, host) == [] then rows
    else KvStore.Put(rows, Item(BlockKey(m.blockStart as int), Encode(HostBlock(m, host, field))))
  }

  // ---- Runs ----

  function TotalReports(ticks: seq<Tick>): nat {
    if ticks == [] then 0 else TotalReports(ticks[..|ticks| - 1]) + |ticks[|ticks| - 1].reports|
  }

  /** A clock that does not run backwards, and no more samples than a length can count. */
  ghost predicate GoodRun(ticks: seq<Tick>) {
    && (forall k :: 0 <= k < |ticks| ==> GoodTick(ticks[k]))
    && (forall i, j :: 0 <= i < j < |ticks| ==> ticks[i].now <= ticks[j].now)
    && TotalReports(ticks) <= SLICE_MAX
  }

  function Buffer(ticks: seq<Tick>): Mon
    requires forall k :: 0 <= k < |ticks| ==> GoodTick(ticks[k])
  {
    if ticks == [] then Mon(0, [])
    else Next(Buffer(ticks[..|ticks| - 1]), ticks[|ticks| - 1])
  }

  ghost predicate TimeOrdered(samples: seq<Sample>) {
    forall i, j :: 0 <= i < j < |samples| ==> samples[i].ts <= samples[j].ts
  }

  /** What the buffer of a run satisfies between two beats. */
  ghost predicate BufferOk(m: Mon, last: int, total: nat) {
    && |m.samples| <= total
    && (forall i :: 0 <= i < |m.samples| ==> |m.samples[i].values| == FIELDS)
    && if m.blockStart == 0 then m.samples == []
       else
         && 0 < m.blockStart as int <= last && m.blockStart as int % MON_BLOCK_SECONDS == 0
         && (forall i :: 0 <= i < |m.samples| ==>
               m.blockStart <= m.samples[i].ts && m.samples[i].ts as int < m.blockStart as int + MON_BLOCK_SECONDS)
         && (forall i :: 0 <= i < |m.samples| ==> m.samples[i].ts as int <= last)
         && TimeOrdered(m.samples)
  }

  lemma NextKeepsBuffer(m: Mon, t: Tick, last: int, total: nat)
    requires BufferOk(m, last, total) && GoodTick(t) && last <= t.now as int
    ensures BufferOk(Next(m, t), t.now as int, total + |t.reports|)
  {
  }

  function LastNow(ticks: seq<Tick>): int {
    if ticks == [] then 0 else ticks[|ticks| - 1].now as int
  }

  lemma GoodPrefix(ticks: seq<Tick>)
    requires GoodRun(ticks) && ticks != []
    ensures GoodRun(ticks[..|ticks| - 1]) && LastNow(ticks[..|ticks| - 1]) <= ticks[|ticks| - 1].now as int
  {
  }

  lemma {:induction false} BufferInvariant(ticks: seq<Tick>)
    requires GoodRun(ticks)
    ensures BufferOk(Buffer(ticks), LastNow(ticks), TotalReports(ticks))
  {
    hide BufferOk, GoodTick;
    if ticks == [] {
      EmptyBuffer();
    } else {
      GoodPrefix(ticks);
      BufferInvariant(ticks[..|ticks| - 1]);
      var before := ticks[..|ticks| - 1];
      NextKeepsBuffer(Buffer(before), ticks[|ticks| - 1], LastNow(before), TotalReports(before));
    }
  }

  lemma EmptyBuffer()
    ensures BufferOk(Mon(0, []), 0, 0)
  {
  }

  /** The block that the last beat of a run hands to the flusher and the flusher takes. */
  function LastFlush(ticks: seq<Tick>): (flush: Option<Mon>)
    requires ticks != [] && forall k :: 0 <= k < |ticks| ==> GoodTick(ticks[k])
  {
    var t := ticks[|ticks| - 1];
    if t.dropped then None else Closed(Buffer(ticks[..|ticks| - 1]), t)
  }

  lemma FlushIsFlushable(ticks: seq<Tick>)
    requires GoodRun(ticks) && ticks != [] && LastFlush(ticks).Some?
    ensures var m := LastFlush(ticks).value;
            && Flushable(m)
            && BufferOk(m, LastNow(ticks[..|ticks| - 1]), TotalReports(ticks))
            && m.blockStart as int + MON_BLOCK_SECONDS <= LastNow(ticks) < TIME_LIMIT
  {
    GoodPrefix(ticks);
    BufferInvariant(ticks[..|ticks| - 1]);
  }

  /** The stored rows of one series after a run. */
  ghost function Stored(ticks: seq<Tick>, host: string, field: nat): seq<Row>
    requires GoodRun(ticks) && field < FIELDS
  {
    if ticks == [] then []
    else
      GoodPrefix(ticks);
      var before := Stored(ticks[..|ticks| - 1], host, field);
      match LastFlush(ticks)
      case None => before
      case Some(m) => FlushIsFlushable(ticks); FlushSeries(before, m, host, field)
  }

  /** What a block holds of one series. */
  function SeriesPoints(m: Mon, host: string, field: nat): seq<Point>
    requires Flushable(m) && field < FIELDS
  {
    var own := OfHost(m.samples, host);
    seq(|own|, i requires 0 <= i < |own| && |own[i].values| == FIELDS => Point(own[i].ts as int, own[i].values[field]))
  }

  /** The samples of one series that the run has flushed, in the order they were taken. */
  ghost function Flushed(ticks: seq<Tick>, host: string, field: nat): seq<Point>
    requires GoodRun(ticks) && field < FIELDS
  {
    if ticks == [] then []
    else
      GoodPrefix(ticks);
      var before := Flushed(ticks[..|ticks| - 1], host, field);
      match LastFlush(ticks)
      case None => before
      case Some(m) =>
        FlushIsFlushable(ticks);
        before + SeriesPoints(m, host, field)
  }

  // ---- What a run stores ----

  lemma {:induction false} OfHostAscending(samples: seq<Sample>, host: string)
    requires TimeOrdered(samples)
    ensures TimeOrdered(OfHost(samples, host))
  {
    if samples != [] {
      var before := samples[..|samples| - 1];
      OfHostAscending(before, host);
      var own := OfHost(before, host);
      forall i | 0 <= i < |own| ensures own[i].ts <= samples[|samples| - 1].ts {
        assert own[i] in before;
        var k :| 0 <= k < |before| && before[k] == own[i];
        assert samples[k] == own[i];
      }
      assert samples[|samples| - 1].host == host ==> OfHost(samples, host) == own + [samples[|samples| - 1]];
    }
  }

  lemma HostBlockGood(m: Mon, last: int, total: nat, host: string, field: nat)
    requires BufferOk(m, last, total) && Flushable(m) && field < FIELDS
             && m.blockStart as int < TIME_LIMIT - MON_BLOCK_SECONDS
    ensures GoodBlock(HostBlock(m, host, field))
  {
    hide OfHost;
    var own, b := OfHost(m.samples, host), HostBlock(m, host, field);
    OfHostAscending(m.samples, host);
    forall i | 0 <= i < |own|
      ensures b.start <= b.ts[i] && b.ts[i] as int < b.start as int + MON_BLOCK_SECONDS
    {
      assert own[i] in m.samples;
      var k :| 0 <= k < |m.samples| && m.samples[k] == own[i];
    }
    forall i, j | 0 <= i < j < |own| ensures b.ts[i] <= b.ts[j] {
      assert own[i].ts <= own[j].ts;
    }
  }

  /** All samples of a list of blocks, in order. */
  function BlockSamples(blocks: seq<Block>): seq<Point>
    requires forall k :: 0 <= k < |blocks| ==> |blocks[k].ts| == |blocks[k].values|
  {
    if blocks == [] then []
    else
      var last := blocks[|blocks| - 1];
      BlockSamples(blocks[..|blocks| - 1]) + Points(last.ts, last.values)
  }

  /** A block over before now, and before the open block if there is one. */
  ghost predicate PastBlock(start: int64, m: Mon, now: int) {
    var end := start as int + MON_BLOCK_SECONDS;
    end <= now && (m.blockStart != 0 ==> end <= m.blockStart as int)
  }

  ghost predicate AllPast(blocks: seq<Block>, m: Mon, now: int) {
    forall k :: 0 <= k < |blocks| ==> PastBlock(blocks[k].start, m, now)
  }

  lemma NoBlocks()
    ensures GoodBlocks([]) && AllPast([], Mon(0, []), 0) && RowsOf([]) == []
  {
  }

  lemma StaysPast(b: Block, m: Mon, t: Tick, last: int, total: nat)
    requires GoodBlock(b) && PastBlock(b.start, m, last) && BufferOk(m, last, total) && GoodTick(t)
             && last <= t.now as int
    ensures PastBlock(b.start, Next(m, t), t.now as int)
  {
  }

  lemma AllStayPast(blocks: seq<Block>, m: Mon, t: Tick, last: int, total: nat)
    requires GoodBlocks(blocks) && AllPast(blocks, m, last) && BufferOk(m, last, total) && GoodTick(t)
             && last <= t.now as int
    ensures AllPast(blocks, Next(m, t), t.now as int)
  {
    hide GoodBlock, PastBlock, BufferOk, GoodTick, Next;
    forall k | 0 <= k < |blocks| ensures PastBlock(blocks[k].start, Next(m, t), t.now as int) {
      StaysPast(blocks[k], m, t, last, total);
    }
  }

  lemma BecomesPast(blocks: seq<Block>, m: Mon, t: Tick, last: int, total: nat, host: string, field: nat)
    requires BufferOk(m, last, total) && GoodTick(t) && last <= t.now as int && Closed(m, t).Some?
    requires Flushable(m) && field < FIELDS && AllPast(blocks, Next(m, t), t.now as int)
    ensures AllPast(blocks + [HostBlock(m, host, field)], Next(m, t), t.now as int)
  {
    hide OfHost, TsOf, ValuesOf;
  }

  /**
   The rows of a series are the encodings of aligned, disjoint blocks, and the
   flushed samples are exactly the samples of these blocks: every flushed sample
   lies in one block, the one of its own window.
   */
  lemma {:induction false} StoredBlocks(ticks: seq<Tick>, host: string, field: nat) returns (blocks: seq<Block>)
    requires GoodRun(ticks) && field < FIELDS
    ensures GoodBlocks(blocks)
    ensures Stored(ticks, host, field) == RowsOf(blocks)
    ensures Flushed(ticks, host, field) == BlockSamples(blocks)
    ensures AllPast(blocks, Buffer(ticks), LastNow(ticks))
  {
    hide GoodBlocks, GoodBlock, RowOf, RowsOf, OfHost, Next, BufferOk, AllPast, GoodTick, FlushSeries, SeriesPoints,
        HostBlock;
    NoBlocks();
    blocks := [];
    if ticks != [] {
      var before, t := ticks[..|ticks| - 1], ticks[|ticks| - 1];
      GoodPrefix(ticks);
      blocks := StoredBlocks(before, host, field);
      BufferInvariant(before);
      AllStayPast(blocks, Buffer(before), t, LastNow(before), TotalReports(before));
      if LastFlush(ticks).Some? {
        var m := LastFlush(ticks).value;
        FlushIsFlushable(ticks);
        OneMoreBlock(Stored(before, host, field), Flushed(before, host, field), blocks,
                     m, LastNow(before), TotalReports(ticks), host, field);
        BecomesPast(blocks, m, t, LastNow(before), TotalReports(before), host, field);
        if OfHost(m.samples, host) != [] {
          blocks := blocks + [HostBlock(m, host, field)];
        }
      }
    }
  }

  lemma OneMoreBlock(rows: seq<Row>, flushed: seq<Point>, blocks: seq<Block>,
                     m: Mon, last: int, total: nat, host: string, field: nat)
    requires GoodBlocks(blocks) && rows == RowsOf(blocks) && flushed == BlockSamples(blocks)
    requires AllPast(blocks, m, last)
    requires BufferOk(m, last, total) && Flushable(m) && field < FIELDS
             && m.blockStart as int < TIME_LIMIT - MON_BLOCK_SECONDS
    ensures var more := if OfHost(m.samples, host) == [] then blocks else blocks + [HostBlock(m, host, field)];
            && GoodBlocks(more)
            && FlushSeries(rows, m, host, field) == RowsOf(more)
            && flushed + SeriesPoints(m, host, field) == BlockSamples(more)
  {
    hide GoodBlocks, GoodBlock, BlockKey, Less, Encode, BufferOk, OfHost, KvStore.Put, BlockSamples;
    if OfHost(m.samples, host) == [] {
      assert flushed + SeriesPoints(m, host, field) == flushed;
    } else {
      var b := HostBlock(m, host, field);
      HostBlockGood(m, last, total, host, field);
      AppendBlock(blocks, b);
      assert Points(b.ts, b.values) == SeriesPoints(m, host, field);
    }
  }

  lemma AppendBlock(blocks: seq<Block>, b: Block)
    requires GoodBlocks(blocks) && GoodBlock(b)
    requires forall k :: 0 <= k < |blocks| ==> blocks[k].start as int + MON_BLOCK_SECONDS <= b.start as int
    ensures GoodBlocks(blocks + [b])
    ensures KvStore.Put(RowsOf(blocks), RowOf(b)) == RowsOf(blocks + [b])
    ensures BlockSamples(blocks + [b]) == BlockSamples(blocks) + Points(b.ts, b.values)
  {
    hide GoodBlock, BlockKey, Less, Encode, KvStore.Put, RowsOf;
    var rows, more := RowsOf(blocks), blocks + [b];
    forall k | 0 <= k < |rows| ensures Less(rows[k].key, BlockKey(b.start as int)) {
      LaterKey(blocks[k], b);
    }
    PutAtEnd(rows, RowOf(b));
    assert RowsOf(more) == rows + [RowOf(b)];
    assert more[..|more| - 1] == blocks;
  }

  lemma {:induction false} BlockSamplesAreRows(blocks: seq<Block>)
    requires forall k :: 0 <= k < |blocks| ==> GoodBlock(blocks[k])
    ensures AllPoints(RowsOf(blocks)) == BlockSamples(blocks)
  {
    hide GoodBlock, RowOf, RowPoints, Points;
    if blocks != [] {
      var before, last := blocks[..|blocks| - 1], blocks[|blocks| - 1];
      BlockSamplesAreRows(before);
      BlockPoints(last);
      assert RowsOf(blocks) == RowsOf(before) + [RowOf(last)];
      AllPointsSplit(RowsOf(before), [RowOf(last)]);
      assert [RowOf(last)][1..] == [];
      assert AllPoints([RowOf(last)]) == RowPoints(RowOf(last));
    }
  }

  lemma {:induction false} SamplesAscend(blocks: seq<Block>)
    requires GoodBlocks(blocks)
    ensures Ascending(BlockSamples(blocks))
    ensures forall p :: p in BlockSamples(blocks) ==>
            p.ts >= 0 && blocks != [] && p.ts < blocks[|blocks| - 1].start as int + MON_BLOCK_SECONDS
  {
    if blocks != [] {
      var before, last := blocks[..|blocks| - 1], blocks[|blocks| - 1];
      SamplesAscend(before);
      var a, b := BlockSamples(before), Points(last.ts, last.values);
      forall i | 0 <= i < |a| ensures 0 <= a[i].ts <= last.start as int {
        assert a[i] in a;
      }
      assert BlockSamples(blocks) == a + b;
    }
  }

  /**
   For any host and field, after any run with a clock that does not run backwards:
   the scan of any window sees exactly the flushed samples of the window, and the
   stored rows give the query what it needs.
   */
  lemma WindowOfRun(ticks: seq<Tick>, host: string, field: nat, tsStart: int, tsEnd: int)
    requires GoodRun(ticks) && field < FIELDS
    requires tsStart < TIME_LIMIT && tsEnd < TIME_LIMIT - 2 * MON_BLOCK_SECONDS
    ensures Window(AllPoints(Scan(Stored(ticks, host, field), tsStart, tsEnd)), tsStart, tsEnd)
            == Window(Flushed(ticks, host, field), tsStart, tsEnd)
    ensures Ascending(Flushed(ticks, host, field))
    ensures forall p :: p in Flushed(ticks, host, field) ==> p.ts >= 0
  {
    hide Window, Scan, AllPoints, GoodBlock, Stored, Flushed, GoodTick;
    var blocks := StoredBlocks(ticks, host, field);
    BlockSamplesAreRows(blocks);
    ScanLosesNothing(blocks, tsStart, tsEnd);
    SamplesAscend(blocks);
  }

  /**
   A query that read its whole range does not crash, and one that stayed below
   its limit returns, of the samples the run has flushed for this host and field,
   exactly those in the window, ascending, and of every step bucket the last.
   */
  lemma QueryIsExact(ticks: seq<Tick>, host: string, field: nat, tsStart: int, tsEnd: int,
                     step: int, limit: int, answer: Option<seq<Point>>)
    requires GoodRun(ticks) && field < FIELDS
    requires tsStart < TIME_LIMIT && tsEnd < TIME_LIMIT - 2 * MON_BLOCK_SECONDS
    requires Answers(answer, Scan(Stored(ticks, host, field), tsStart, tsEnd), tsStart, tsEnd, step, limit)
    ensures answer.Some?
    ensures var window := Window(Flushed(ticks, host, field), tsStart, tsEnd);
            && Ascending(window)
            && (forall p :: p in window <==>
                  p in Flushed(ticks, host, field)
                  && (tsStart <= 0 || tsStart <= p.ts) && (tsEnd <= 0 || p.ts <= tsEnd))
            && (|answer.value| < limit && step <= 0 ==> answer.value == window)
            && (|answer.value| < limit && step > 0 ==>
                  && Ascending(answer.value)
                  && forall p :: p in answer.value <==> exists i {:trigger window[i]} ::
                       && 0 <= i < |window| && window[i] == p
                       && forall j :: i < j < |window| ==> window[j].ts / step != p.ts / step)
  {
    hide Window, AllPoints, Scan, Stored, Flushed, Keep, GoodTick, Bucket;
    WindowOfRun(ticks, host, field, tsStart, tsEnd);
    var flushed := Flushed(ticks, host, field);
    var window := Window(flushed, tsStart, tsEnd);
    WindowAscending(flushed, tsStart, tsEnd);
    forall p ensures p in window <==> p in flushed && InWindow(p.ts, tsStart, tsEnd) {
      WindowMembers(flushed, tsStart, tsEnd, p);
    }
    NoCrash(window, step, limit);
    RunRowsClean(ticks, host, field, tsStart, tsEnd);
    var scan := Scan(Stored(ticks, host, field), tsStart, tsEnd);
    assert scan[..|scan|] == scan;
    var n: nat :| IsAnswer(answer.value, n, window, step, limit);
    if |answer.value| < limit {
      assert window[..n] == window;
      if step > 0 {
        KeptInPlainTerms(window, step);
      } else {
        KeepAll(window, step);
      }
    }
  }

  lemma {:induction false} KeepAll(ps: seq<Point>, step: int)
    requires step <= 0
    ensures Keep(ps, step) == ps
  {
    if ps != [] {
      KeepAll(ps[1..], step);
    }
  }

  /** Of times that are not negative the last in each quotient by the step, ascending. */
  lemma KeptInPlainTerms(ps: seq<Point>, step: int)
    requires Ascending(ps) && step > 0 && forall p :: p in ps ==> p.ts >= 0
    ensures Ascending(Keep(ps, step))
    ensures forall p :: p in Keep(ps, step) <==> exists i {:trigger ps[i]} ::
              && 0 <= i < |ps| && ps[i] == p && forall j :: i < j < |ps| ==> ps[j].ts / step != p.ts / step
  {
    KeepIsLastOfBucket(ps, step);
    KeptAscending(ps, step);
    hide Keep;
    forall i | 0 <= i < |ps|
      ensures LastOfBucket(ps, i, step) <==> forall j :: i < j < |ps| ==> ps[j].ts / step != ps[i].ts / step
    {
      assert forall j :: 0 <= j < |ps| ==> ps[j] in ps && (Bucket(ps[j].ts, step) == ps[j].ts / step);
    }
    hide Bucket, LastOfBucket;
  }

  lemma KeptAscending(ps: seq<Point>, step: int)
    requires Ascending(ps) && step > 0
    ensures Ascending(Keep(ps, step))
  {
    KeepIncreases(ps, step);
    var kept := Keep(ps, step);
    hide Keep, Bucket;
    forall i, j | 0 <= i < j < |kept|
      ensures kept[i].ts <= kept[j].ts
    {
      assert Bucket(kept[i].ts, step) < Bucket(kept[j].ts, step);
      if kept[j].ts < kept[i].ts {
        BucketMonotone(kept[j].ts, kept[i].ts, step);
      }
    }
  }

  // ---- Where the samples come from ----

  /** What the reports of one beat say of a series. */
  function ReportPoints(now: int64, reports: seq<Report>, host: string, field: nat): seq<Point>
    requires field < FIELDS && forall i :: 0 <= i < |reports| ==> |reports[i].values| == FIELDS
  {
    if reports == [] then []
    else
      (if reports[0].host == host then [Point(now as int, reports[0].values[field])] else [])
      + ReportPoints(now, reports[1..], host, field)
  }

  /** What the hosts reported of a series while the leader was sampling, beat by beat. */
  ghost function Reported(ticks: seq<Tick>, host: string, field: nat): seq<Point>
    requires field < FIELDS && forall k :: 0 <= k < |ticks| ==> GoodTick(ticks[k])
  {
    if ticks == [] then []
    else
      var t := ticks[|ticks| - 1];
      assert GoodTick(t);
      Reported(ticks[..|ticks| - 1], host, field)
      + if t.enabled && t.leader then ReportPoints(t.now, t.reports, host, field) else []
  }

  /** The samples of a series among these. */
  function HostPoints(samples: seq<Sample>, host: string, field: nat): seq<Point>
    requires field < FIELDS && forall i :: 0 <= i < |samples| ==> |samples[i].values| == FIELDS
  {
    if samples == [] then []
    else
      var last := samples[|samples| - 1];
      HostPoints(samples[..|samples| - 1], host, field)
      + if last.host == host then [Point(last.ts as int, last.values[field])] else []
  }

  lemma {:induction false} HostPointsSplit(a: seq<Sample>, b: seq<Sample>, host: string, field: nat)
    requires field < FIELDS && forall i :: 0 <= i < |a| ==> |a[i].values| == FIELDS
    requires forall i :: 0 <= i < |b| ==> |b[i].values| == FIELDS
    ensures forall i :: 0 <= i < |a + b| ==> |(a + b)[i].values| == FIELDS
    ensures HostPoints(a + b, host, field) == HostPoints(a, host, field) + HostPoints(b, host, field)
    decreases |b|
  {
    if b == [] {
      assert a + b == a;
    } else {
      assert (a + b)[..|a + b| - 1] == a + b[..|b| - 1];
      HostPointsSplit(a, b[..|b| - 1], host, field);
    }
  }

  lemma {:induction false} SampledPoints(now: int64, reports: seq<Report>, host: string, field: nat)
    requires host != "" && field < FIELDS && forall i :: 0 <= i < |reports| ==> |reports[i].values| == FIELDS
    ensures HostPoints(Sampled(now, reports), host, field) == ReportPoints(now, reports, host, field)
  {
    if reports != [] {
      SampledPoints(now, reports[1..], host, field);
      if reports[0].host != "" {
        var first := Sample(reports[0].host, now, reports[0].values);
        HostPointsSplit([first], Sampled(now, reports[1..]), host, field);
        assert [first][..0] == [];
      }
    }
  }

  lemma {:induction false} SeriesAreHostPoints(m: Mon, n: nat, host: string, field: nat)
    requires Flushable(m) && field < FIELDS && n <= |m.samples|
    ensures var own := OfHost(m.samples[..n], host);
            && |own| == |HostPoints(m.samples[..n], host, field)|
            && forall i :: 0 <= i < |own| ==>
                 |own[i].values| == FIELDS
                 && HostPoints(m.samples[..n], host, field)[i] == Point(own[i].ts as int, own[i].values[field])
    decreases n
  {
    if n > 0 {
      assert m.samples[..n][..n - 1] == m.samples[..n - 1];
      SeriesAreHostPoints(m, n - 1, host, field);
    }
  }

  lemma SeriesIsHostPoints(m: Mon, host: string, field: nat)
    requires Flushable(m) && field < FIELDS
    ensures SeriesPoints(m, host, field) == HostPoints(m.samples, host, field)
  {
    SeriesAreHostPoints(m, |m.samples|, host, field);
    assert m.samples[..|m.samples|] == m.samples;
    hide OfHost, HostPoints;
  }

  /** Conservation: the leader has flushed or still holds what it took, block by block, and what a beat moves. */
  lemma BeatMoves(ticks: seq<Tick>, m: Mon, host: string, field: nat)
    requires GoodRun(ticks) && ticks != [] && host != "" && field < FIELDS
    requires m == Buffer(ticks[..|ticks| - 1]) && forall i :: 0 <= i < |m.samples| ==> |m.samples[i].values| == FIELDS
    ensures var t, next := ticks[|ticks| - 1], Buffer(ticks);
            var taken := ReportPoints(t.now, t.reports, host, field);
            && (forall i :: 0 <= i < |next.samples| ==> |next.samples[i].values| == FIELDS)
            && var held, holds := HostPoints(m.samples, host, field), HostPoints(next.samples, host, field);
            && (!t.enabled ==> holds == held && LastFlush(ticks).None?)
            && (t.enabled && !t.leader ==> holds == [] && LastFlush(ticks).None?)
            && (t.enabled && t.leader && Closed(m, t).None? ==> holds == held + taken && LastFlush(ticks).None?)
            && (t.enabled && t.leader && Closed(m, t).Some? ==>
                  holds == taken && LastFlush(ticks) == if t.dropped then None else Some(m))
  {
    var t := ticks[|ticks| - 1];
    GoodPrefix(ticks);
    BufferInvariant(ticks[..|ticks| - 1]);
    SampledPoints(t.now, t.reports, host, field);
    HostPointsSplit(m.samples, Sampled(t.now, t.reports), host, field);
    assert Buffer(ticks) == Next(m, t);
    hide Buffer, HostPoints, Sampled, ReportPoints, GoodTick;
  }

  /** A leader that samples at every beat and whose flusher keeps up loses nothing and adds nothing. */
  lemma {:induction false} NothingLost(ticks: seq<Tick>, host: string, field: nat)
    requires GoodRun(ticks) && host != "" && field < FIELDS
    requires forall k :: 0 <= k < |ticks| ==> ticks[k].enabled && ticks[k].leader && !ticks[k].dropped
    ensures forall i :: 0 <= i < |Buffer(ticks).samples| ==> |Buffer(ticks).samples[i].values| == FIELDS
    ensures Flushed(ticks, host, field) + HostPoints(Buffer(ticks).samples, host, field)
            == Reported(ticks, host, field)
  {
    hide GoodTick, HostPoints, Buffer, LastFlush, SeriesPoints, Closed, Flushed, Reported, ReportPoints, BufferOk;
    BufferInvariant(ticks);
    BufferValues(ticks);
    if ticks == [] {
      NoSamples(host, field);
      NothingFlushed(host, field);
    } else {
      var front := ticks[..|ticks| - 1];
      GoodPrefix(ticks);
      NothingLost(front, host, field);
      BeatMoves(ticks, Buffer(front), host, field);
      FlushedStep(ticks, Buffer(front), host, field);
      ReportedStep(ticks, host, field);
    }
  }

  lemma BufferValues(ticks: seq<Tick>)
    requires GoodRun(ticks) && BufferOk(Buffer(ticks), LastNow(ticks), TotalReports(ticks))
    ensures forall i :: 0 <= i < |Buffer(ticks).samples| ==> |Buffer(ticks).samples[i].values| == FIELDS
  {
    hide Buffer;
  }

  lemma NothingFlushed(host: string, field: nat)
    requires field < FIELDS && GoodRun([])
    ensures Flushed([], host, field) == [] && Reported([], host, field) == []
  {
  }

  lemma FlushedStep(ticks: seq<Tick>, m: Mon, host: string, field: nat)
    requires GoodRun(ticks) && ticks != [] && field < FIELDS && GoodRun(ticks[..|ticks| - 1])
    requires m == Buffer(ticks[..|ticks| - 1]) && forall i :: 0 <= i < |m.samples| ==> |m.samples[i].values| == FIELDS
    ensures var front := ticks[..|ticks| - 1];
            Flushed(ticks, host, field) ==
            if LastFlush(ticks).None? then Flushed(front, host, field)
            else Flushed(front, host, field) + HostPoints(m.samples, host, field)
  {
    hide GoodTick, HostPoints, Buffer, SeriesPoints, BufferOk;
    if LastFlush(ticks).Some? {
      FlushIsFlushable(ticks);
      SeriesIsHostPoints(m, host, field);
    }
  }

  lemma ReportedStep(ticks: seq<Tick>, host: string, field: nat)
    requires GoodRun(ticks) && ticks != [] && field < FIELDS && GoodRun(ticks[..|ticks| - 1])
    ensures var t := ticks[|ticks| - 1];
            && GoodTick(t)
            && Reported(ticks, host, field) ==
               Reported(ticks[..|ticks| - 1], host, field)
               + if t.enabled && t.leader then ReportPoints(t.now, t.reports, host, field) else []
  {
    hide ReportPoints;
  }

  lemma NoSamples(host: string, field: nat)
    requires field < FIELDS
    ensures Buffer([]).samples == [] && HostPoints([], host, field) == []
  {
  }

  /** Whatever is lost on the way, by a new leader or a busy flusher: only reported values are ever flushed. */
  lemma {:induction false} FlushedAreReports(ticks: seq<Tick>, host: string, field: nat)
    requires GoodRun(ticks) && host != "" && field < FIELDS
    ensures forall i :: 0 <= i < |Buffer(ticks).samples| ==> |Buffer(ticks).samples[i].values| == FIELDS
    ensures forall p :: p in Flushed(ticks, host, field) || p in HostPoints(Buffer(ticks).samples, host, field) ==>
              p in Reported(ticks, host, field)
  {
    hide GoodTick, HostPoints, Buffer, LastFlush, SeriesPoints, Closed, Flushed, Reported, ReportPoints, BufferOk;
    BufferInvariant(ticks);
    BufferValues(ticks);
    if ticks == [] {
      NoSamples(host, field);
      NothingFlushed(host, field);
    } else {
      var front := ticks[..|ticks| - 1];
      GoodPrefix(ticks);
      FlushedAreReports(front, host, field);
      BeatMoves(ticks, Buffer(front), host, field);
      FlushedStep(ticks, Buffer(front), host, field);
      ReportedStep(ticks, host, field);
    }
  }

  lemma {:induction false} UptoIsPrefix(rows: seq<Row>, to: string)
    ensures |Upto(rows, to)| <= |rows| && Upto(rows, to) == rows[..|Upto(rows, to)|]
  {
    if rows != [] && !Less(to, rows[0].key) {
      UptoIsPrefix(rows[1..], to);
    }
  }

  lemma RowsClean(blocks: seq<Block>)
    requires forall k :: 0 <= k < |blocks| ==> GoodBlock(blocks[k])
    ensures forall k :: 0 <= k < |blocks| ==> !Panics(RowsOf(blocks)[k])
  {
    hide Panics, GoodBlock, RowOf, RowsOf;
    forall k | 0 <= k < |blocks| ensures !Panics(RowsOf(blocks)[k]) {
      BlockPoints(blocks[k]);
    }
  }

  lemma ScanClean(rows: seq<Row>, tsStart: int, tsEnd: int)
    requires forall k :: 0 <= k < |rows| ==> !Panics(rows[k])
    ensures var scan := Scan(rows, tsStart, tsEnd); Clean(scan) == |scan|
  {
    hide Panics, Upto, After, From, To;
    var after := After(rows, From(tsStart));
    AfterIsSuffix(rows, From(tsStart));
    UptoIsPrefix(after, To(tsEnd));
    var scan := Scan(rows, tsStart, tsEnd);
    var skipped := |rows| - |after|;
    assert forall k :: 0 <= k < |scan| ==> scan[k] == after[k] == rows[skipped + k];
  }

  /** The rows of a run never panic, nor do those that a scan finds among them. */
  lemma RunRowsClean(ticks: seq<Tick>, host: string, field: nat, tsStart: int, tsEnd: int)
    requires GoodRun(ticks) && field < FIELDS
    ensures var scan := Scan(Stored(ticks, host, field), tsStart, tsEnd); Clean(scan) == |scan|
  {
    hide Panics, GoodBlock, RowsOf, Stored, Flushed, Scan, Clean, GoodTick;
    var blocks := StoredBlocks(ticks, host, field);
    RowsClean(blocks);
    ScanClean(RowsOf(blocks), tsStart, tsEnd);
  }

  lemma NoCrash(window: seq<Point>, step: int, limit: int)
    requires forall p :: p in window ==> p.ts >= 0
    ensures !Crashes(window, step, limit)
  {
    if window != [] && step > 0 {
      assert window[0] in window;
      DivMonotone(0, window[0].ts, step);
    }
  }

  // ---- The leader's process ----

  /** The stored rows of a series; a series never written has none. */
  function RowsIn(store: map<(string, nat), seq<Row>>, host: string, field: nat): seq<Row> {
    if (host, field) in store then store[(host, field)] else []
  }

  function Group(byHost: map<string, seq<Sample>>, host: string): seq<Sample> {
    if host in byHost then byHost[host] else []
  }

  /**
   What a flush leaves behind. Whole hosts were written, in any order; a write
   that fails gives up the rest, so that at most one host is left with its first
   fields only.
   */
  ghost predicate FlushedUpTo(before: map<(string, nat), seq<Row>>, after: map<(string, nat), seq<Row>>,
                              block: Mon, failing: set<(string, nat)>, full: set<string>, at: Option<(string, nat)>)
    requires Flushable(block)
  {
    && (forall host: string, field: nat :: host in full && field < FIELDS ==> (host, field) !in failing)
    && (at.None? ==> forall host :: OfHost(block.samples, host) != [] ==> host in full)
    && (at.Some? ==>
          var (host, field) := at.value;
          && host !in full && OfHost(block.samples, host) != [] && field < FIELDS
          && (host, field) in failing && forall f: nat :: f < field ==> (host, f) !in failing)
    && forall host: string, field: nat :: field < FIELDS ==>
         RowsIn(after, host, field) ==
         if host in full || (at.Some? && host == at.value.0 && field < at.value.1)
         then FlushSeries(RowsIn(before, host, field), block, host, field) else RowsIn(before, host, field)
  }

  ghost predicate FlushOutcome(before: map<(string, nat), seq<Row>>, after: map<(string, nat), seq<Row>>,
                               block: Mon, failing: set<(string, nat)>)
    requires Flushable(block)
  {
    exists full, at :: FlushedUpTo(before, after, block, failing, full, at)
  }

  /** Without a failing series of a sampled host the whole block is stored. */
  lemma FlushComplete(before: map<(string, nat), seq<Row>>, after: map<(string, nat), seq<Row>>,
                      block: Mon, failing: set<(string, nat)>)
    requires Flushable(block) && FlushOutcome(before, after, block, failing)
    requires forall host: string, field: nat :: OfHost(block.samples, host) != [] && field < FIELDS ==>
               (host, field) !in failing
    ensures forall host: string, field: nat :: field < FIELDS ==>
              RowsIn(after, host, field) == FlushSeries(RowsIn(before, host, field), block, host, field)
  {
    var full, at :| FlushedUpTo(before, after, block, failing, full, at);
  }

  class Monstore {
    var blockStart: int64
    var samples: seq<Sample>
    /** The shared store. */
    var store: map<(string, nat), seq<Row>>

    constructor ()
      ensures Buf() == Mon(0, []) && store == map[]
    {
      blockStart, samples, store := 0, [], map[];
    }

    function Buf(): Mon
      reads this
    {
      Mon(blockStart, samples)
    }

    /**
     One beat. The block that it closes is flushed unless the flusher is busy;
     the sample of this beat is never part of it. failing: the series whose write fails.
     */
    method MonstoreTick(t: Tick, failing: set<(string, nat)>)
      requires GoodTick(t) && (Closed(Buf(), t).Some? ==> Flushable(Buf()))
      modifies this
      ensures Buf() == Next(old(Buf()), t)
      ensures var flush := if t.dropped then None else Closed(old(Buf()), t);
              && (flush.None? ==> store == old(store))
              && (flush.Some? ==> FlushOutcome(old(store), store, flush.value, failing))
    {
      if !t.enabled {
        return;
      }
      if !t.leader {
        if blockStart != 0 {
          blockStart, samples := 0, [];
        }
        return;
      }
      if blockStart == 0 {
        blockStart := BlockStartOf(t.now);
      }
      if t.now as int - blockStart as int >= MON_BLOCK_SECONDS {
        var block := Mon(blockStart, samples);
        blockStart := BlockStartOf(t.now);
        samples := [];
        if !t.dropped {
          FlushBlock(block, failing);
        }
      }
      label sampling:
      for i := 0 to |t.reports|
        modifies `samples
        invariant samples + Sampled(t.now, t.reports[i..]) == old@sampling(samples) + Sampled(t.now, t.reports)
      {
        assert t.reports[i..][1..] == t.reports[i + 1..];
        if t.reports[i].host != "" {
          samples := samples + [Sample(t.reports[i].host, t.now, t.reports[i].values)];
        }
      }
      assert t.reports[|t.reports|..] == [];
      assert samples + [] == samples;
    }

    /** One row per host and field; a failing write gives up the rest of the block. */
    method FlushBlock(block: Mon, failing: set<(string, nat)>)
      requires Flushable(block)
      modifies `store
      ensures FlushOutcome(old(store), store, block, failing)
    {
      hide OfHost, FlushSeries, RowsIn;
      var byHost := GroupByHost(block.samples);
      var todo := byHost.Keys;
      ghost var full: set<string> := {};
      while todo != {}
        invariant todo + full == byHost.Keys && todo !! full
        invariant forall host: string, field: nat :: host in full && field < FIELDS ==> (host, field) !in failing
        invariant forall host: string, field: nat :: field < FIELDS ==>
                    RowsIn(store, host, field) ==
                    if host in full then FlushSeries(RowsIn(old(store), host, field), block, host, field)
                    else RowsIn(old(store), host, field)
      {
        var host :| host in todo;
        assert byHost[host] == Group(byHost, host);
        var done := FlushHost(block, host, byHost[host], failing);
        if done < FIELDS {
          assert FlushedUpTo(old(store), store, block, failing, full, Some((host, done)));
          return;
        }
        todo, full := todo - {host}, full + {host};
      }
      forall host | OfHost(block.samples, host) != [] ensures host in full {
        assert Group(byHost, host) != [];
      }
      assert FlushedUpTo(old(store), store, block, failing, full, None);
    }

    /** The fields of one host in their order, up to the first whose write fails. */
    method FlushHost(block: Mon, host: string, own: seq<Sample>, failing: set<(string, nat)>) returns (done: nat)
      requires Flushable(block) && own == OfHost(block.samples, host) != []
      modifies `store
      ensures done <= FIELDS && (done < FIELDS ==> (host, done) in failing)
      ensures forall field: nat :: field < done ==> (host, field) !in failing
      ensures forall other: string, field: nat :: field < FIELDS ==>
                RowsIn(store, other, field) ==
                if other == host && field < done then FlushSeries(old(RowsIn(store, other, field)), block, other, field)
                else old(RowsIn(store, other, field))
    {
      hide OfHost, BlockKey, Encode, KvStore.Put;
      for f := 0 to FIELDS
        invariant forall other: string, field: nat :: field < FIELDS && (other != host || field >= f) ==>
                    RowsIn(store, other, field) == old(RowsIn(store, other, field))
        invariant forall field: nat :: field < f ==>
                    RowsIn(store, host, field) == FlushSeries(old(RowsIn(store, host, field)), block, host, field)
        invariant forall field: nat :: field < f ==> (host, field) !in failing
      {
        if (host, f) in failing {
          return f;
        }
        var buf := EncodeBlock(block.blockStart, TsOf(own), ValuesOf(own, f));
        store := store[(host, f) := KvStore.Put(RowsIn(store, host, f), Item(BlockKey(block.blockStart as int), buf))];
      }
      done := FIELDS;
    }
  }

  method GroupByHost(samples: seq<Sample>) returns (byHost: map<string, seq<Sample>>)
    ensures forall host :: Group(byHost, host) == OfHost(samples, host)
    ensures forall host :: host in byHost ==> byHost[host] != []
  {
    byHost := map[];
    for i := 0 to |samples|
      invariant forall host :: Group(byHost, host) == OfHost(samples[..i], host)
      invariant forall host :: host in byHost ==> byHost[host] != []
    {
      var s := samples[i];
      assert samples[..i + 1][..i] == samples[..i];
      byHost := byHost[s.host := Group(byHost, s.host) + [s]];
    }
    assert samples[..|samples|] == samples;
  }
}
