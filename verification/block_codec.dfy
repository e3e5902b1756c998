/**
 The block codec of the metrics store: signed 64-bit numbers as zig-zag base-128
 varints (Protocol Buffers Encoding guide, sections "Base 128 Varints" and
 "Signed Integers"), timestamps as differences that wrap around.
 */
module BlockCodec {
  import opened Common

  const TWO63 := 0x8000_0000_0000_0000
  const TWO64 := 0x1_0000_0000_0000_0000

  newtype int64 = x: int | -0x8000_0000_0000_0000 <= x < 0x8000_0000_0000_0000
  newtype uint64 = x: int | 0 <= x < 0x1_0000_0000_0000_0000

  /** The value of a 64-bit register that holds n. */
  function Wrap(n: int): int64 {
    var low := n % TWO64;
    (if low < TWO63 then low else low - TWO64) as int64
  }

  function WrapAdd(a: int64, b: int64): int64 {
    Wrap(a as int + b as int)
  }

  function WrapSub(a: int64, b: int64): int64 {
    Wrap(a as int - b as int)
  }

  /** Small magnitudes of either sign become small unsigned numbers: x << 1, inverted when negative. */
  function ZigZag(x: int64): uint64 {
    var doubled := (x as int * 2) % TWO64;
    (if x >= 0 then doubled else TWO64 - 1 - doubled) as uint64
  }

  /** u >> 1, inverted when the low bit is set. */
  function UnZigZag(u: uint64): int64 {
    var half := u as int / 2;
    (if u as int % 2 == 0 then half else -1 - half) as int64
  }

  lemma ZigZagInverse(x: int64)
    ensures UnZigZag(ZigZag(x)) == x
  {
  }

  /** Seven bits a byte, low bits first; a set high bit announces another byte. */
  function Varint(u: uint64): (b: seq<byte>)
    decreases u as int
  {
    if u < 0x80 then [u as byte]
    else [(u as int % 0x80 + 0x80) as byte] + Varint((u as int / 0x80) as uint64)
  }

  /** Panic: no error value but the end of the goroutine. */
  datatype ReadError = UnexpectedEnd | Overflow | Panic

  /** A slice of 64-bit numbers with a larger capacity panics: it has no room in 48 bits of address. */
  const SLICE_MAX := 0x2000_0000_0000

  /** A number read off the front of a stream, and what remains of the stream. */
  datatype Read = Read(value: uint64, rest: seq<byte>)

  const MAX_VARINT_LEN := 10

  /**
   Reads byte number i of a varint whose low bytes, of weight below place, sum up
   to sum. The tenth byte may only add one bit.
   */
  function ReadFrom(b: seq<byte>, i: nat, place: int, sum: int): Result<Read, ReadError>
    decreases |b|
  {
    if i == MAX_VARINT_LEN then Err(Overflow)
    else if b == [] then Err(UnexpectedEnd)
    else if b[0] < 0x80 then
      if i == MAX_VARINT_LEN - 1 && b[0] > 1 then Err(Overflow)
      else Ok(Read(((sum + b[0] as int * place) % TWO64) as uint64, b[1..]))
    else ReadFrom(b[1..], i + 1, place * 0x80, sum + (b[0] as int - 0x80) * place)
  }

  function ReadVarint(b: seq<byte>): Result<Read, ReadError> {
    ReadFrom(b, 0, 1, 0)
  }

  function Pow128(i: nat): (p: int)
    ensures p >= 1
  {
    if i == 0 then 1 else 128 * Pow128(i - 1)
  }

  lemma Pow128Values()
    ensures Pow128(9) == TWO63
  {
    assert Pow128(3) == 0x20_0000;
    assert Pow128(6) == 0x400_0000_0000;
  }

  lemma {:induction false} Pow128Grows(i: nat, j: nat)
    requires i <= j
    ensures Pow128(i) <= Pow128(j)
    decreases j
  {
    if i < j {
      Pow128Grows(i, j - 1);
    }
  }

  /** A number whose low bytes were read already is completed by the bytes of its high part. */
  lemma {:induction false} VarintReadFrom(u: uint64, i: nat, sum: nat, rest: seq<byte>)
    requires sum + u as int * Pow128(i) < TWO64 && i < MAX_VARINT_LEN
    ensures ReadFrom(Varint(u) + rest, i, Pow128(i), sum) == Ok(Read((sum + u as int * Pow128(i)) as uint64, rest))
    decreases u as int
  {
    var b, place := Varint(u) + rest, Pow128(i);
    if i == MAX_VARINT_LEN - 1 {
      TenthByte(u as int, i, sum);
    }
    if u < 0x80 {
      assert b[0] as int == u as int && b[1..] == rest;
    } else {
      var low, high := u as int % 0x80, (u as int / 0x80) as uint64;
      assert b[0] as int == low + 0x80 && b[1..] == Varint(high) + rest;
      PlaceValue(u as int, place);
      VarintReadFrom(high, i + 1, sum + low * place, rest);
    }
  }

  /** Ten bytes leave room for one bit in the last. */
  lemma TenthByte(u: nat, i: nat, sum: nat)
    requires sum + u * Pow128(i) < TWO64 && i == MAX_VARINT_LEN - 1
    ensures u <= 1
  {
    Pow128Values();
    assert u * TWO63 < 2 * TWO63;
  }

  lemma PlaceValue(u: nat, place: nat)
    ensures u * place == (u % 0x80) * place + (u / 0x80) * (place * 0x80)
    ensures (u % 0x80) * place >= 0
  {
    var q, m := u / 0x80, u % 0x80;
    assert u == q * 0x80 + m;
    assert (q * 0x80 + m) * place == q * (place * 0x80) + m * place;
  }

  lemma VarintInverse(u: uint64, rest: seq<byte>)
    ensures ReadVarint(Varint(u) + rest) == Ok(Read(u, rest))
  {
    VarintReadFrom(u, 0, 0, rest);
  }

  /** No varint is a proper prefix of another, so numbers can be strung together. */
  lemma VarintPrefixFree(u: uint64, v: uint64, more: seq<byte>)
    requires Varint(v) == Varint(u) + more
    ensures u == v && more == []
  {
    VarintInverse(u, more);
    VarintInverse(v, []);
    assert Varint(v) + [] == Varint(v);
  }

  // ---- The wire format ----

  /** The register holds the number that is congruent to n. */
  lemma WrapMeans(n: int)
    ensures (n - Wrap(n) as int) % TWO64 == 0
    ensures -0x8000_0000_0000_0000 <= n < 0x8000_0000_0000_0000 ==> Wrap(n) as int == n
  {
  }

  /** 0, -1, 1, -2, 2 and so on are 0, 1, 2, 3, 4. */
  lemma ZigZagMeans(x: int64)
    ensures ZigZag(x) as int == if x >= 0 then 2 * x as int else -2 * x as int - 1
  {
  }

  /** The low seven bits of the bytes, the first of lowest weight. */
  function SevenBits(b: seq<byte>): int {
    if b == [] then 0 else b[0] as int % 128 + 128 * SevenBits(b[1..])
  }

  /**
   A varint is its number in base 128, lowest digit first, with no more digits than
   needed; all bytes but the last have the high bit.
   */
  lemma {:induction false} VarintIsBase128(u: uint64)
    ensures var b := Varint(u);
            && SevenBits(b) == u as int && b != [] && (|b| > 1 ==> b[|b| - 1] != 0)
            && forall i :: 0 <= i < |b| ==> (b[i] >= 128 <==> i < |b| - 1)
    decreases u as int
  {
    if u >= 0x80 {
      var high := (u as int / 0x80) as uint64;
      VarintIsBase128(high);
      var b, tail := Varint(u), Varint(high);
      assert b[1..] == tail;
    } else {
      assert Varint(u)[1..] == [];
    }
  }

  // ---- Blocks ----

  datatype Block = Block(start: int64, ts: seq<int64>, values: seq<int64>)

  function Put(x: int64): seq<byte> {
    Varint(ZigZag(x))
  }

  datatype Got = Got(value: int64, rest: seq<byte>)

  function Get(b: seq<byte>): Result<Got, ReadError> {
    match ReadVarint(b)
    case Ok(r) => Ok(Got(UnZigZag(r.value), r.rest))
    case Err(e) => Err(e)
  }

  lemma GetPut(x: int64, rest: seq<byte>)
    ensures Get(Put(x) + rest) == Ok(Got(x, rest))
  {
    VarintInverse(ZigZag(x), rest);
    ZigZagInverse(x);
  }

  function EncodeSamples(prev: int64, ts: seq<int64>, values: seq<int64>): seq<byte>
    requires |ts| == |values|
    decreases |ts|
  {
    if ts == [] then []
    else Put(WrapSub(ts[0], prev)) + Put(values[0]) + EncodeSamples(ts[0], ts[1..], values[1..])
  }

  function Encode(block: Block): seq<byte>
    requires |block.ts| == |block.values| < TWO63
  {
    Put(|block.ts| as int64) + Put(block.start) + EncodeSamples(block.start, block.ts, block.values)
  }

  function DecodeSamples(b: seq<byte>, count: nat, prev: int64): Result<(seq<int64>, seq<int64>), ReadError>
    decreases count
  {
    if count == 0 then Ok(([], []))
    else
      var delta := Get(b);
      if delta.Err? then Err(delta.error)
      else
        var value := Get(delta.value.rest);
        if value.Err? then Err(value.error)
        else
          var ts := WrapAdd(prev, delta.value.value);
          var more := DecodeSamples(value.value.rest, count - 1, ts);
          if more.Err? then more else Ok(([ts] + more.value.0, [value.value.value] + more.value.1))
  }

  /** Bytes behind the announced samples are ignored; no slice can be made for a negative or too large count. */
  function Decode(b: seq<byte>): Result<Block, ReadError> {
    var count := Get(b);
    if count.Err? then Err(count.error)
    else
      var start := Get(count.value.rest);
      if start.Err? then Err(start.error)
      else if count.value.value < 0 || count.value.value as int > SLICE_MAX then Err(Panic)
      else
        var samples := DecodeSamples(start.value.rest, count.value.value as int, start.value.value);
        if samples.Err? then Err(samples.error) else Ok(Block(start.value.value, samples.value.0, samples.value.1))
  }

  lemma {:induction false} DecodedLengths(b: seq<byte>, count: nat, prev: int64)
    ensures var r := DecodeSamples(b, count, prev); r.Ok? ==> |r.value.0| == |r.value.1|
    decreases count
  {
    hide Get, WrapAdd;
    if count > 0 && Get(b).Ok? && Get(Get(b).value.rest).Ok? {
      DecodedLengths(Get(Get(b).value.rest).value.rest, count - 1, WrapAdd(prev, Get(b).value.value));
    }
  }

  lemma DecodedPairs(b: seq<byte>)
    ensures Decode(b).Ok? ==> |Decode(b).value.ts| == |Decode(b).value.values|
  {
    hide Get;
    if Decode(b).Ok? {
      var count := Get(b);
      var start := Get(count.value.rest);
      DecodedLengths(start.value.rest, count.value.value as int, start.value.value);
    }
  }

  lemma WrapDifference(a: int64, b: int64)
    ensures WrapAdd(b, WrapSub(a, b)) == a
  {
  }

  lemma {:induction false} SamplesRoundTrip(prev: int64, ts: seq<int64>, values: seq<int64>)
    requires |ts| == |values|
    ensures DecodeSamples(EncodeSamples(prev, ts, values), |ts|, prev) == Ok((ts, values))
    decreases |ts|
  {
    hide Get, Put, WrapAdd, WrapSub;
    if ts != [] {
      var delta := WrapSub(ts[0], prev);
      var tail := EncodeSamples(ts[0], ts[1..], values[1..]);
      assert Put(delta) + Put(values[0]) + tail == Put(delta) + (Put(values[0]) + tail);
      GetPut(delta, Put(values[0]) + tail);
      GetPut(values[0], tail);
      WrapDifference(ts[0], prev);
      SamplesRoundTrip(ts[0], ts[1..], values[1..]);
      assert [ts[0]] + ts[1..] == ts && [values[0]] + values[1..] == values;
    }
  }

  /** Every block survives encoding, with any values and with timestamps whose differences wrap. */
  lemma BlockRoundTrip(block: Block)
    requires |block.ts| == |block.values| < TWO63
    ensures Decode(Encode(block)) == if |block.ts| <= SLICE_MAX then Ok(block) else Err(Panic)
  {
    var tail := EncodeSamples(block.start, block.ts, block.values);
    assert Encode(block) == Put(|block.ts| as int64) + (Put(block.start) + tail);
    GetPut(|block.ts| as int64, Put(block.start) + tail);
    GetPut(block.start, tail);
    SamplesRoundTrip(block.start, block.ts, block.values);
  }

  lemma {:induction false} EncodeSamplesAppend(prev: int64, ts: seq<int64>, values: seq<int64>, t: int64, v: int64)
    requires |ts| == |values|
    ensures EncodeSamples(prev, ts + [t], values + [v])
            == EncodeSamples(prev, ts, values) + Put(WrapSub(t, if ts == [] then prev else ts[|ts| - 1])) + Put(v)
    decreases |ts|
  {
    hide Put, WrapSub;
    if ts == [] {
      assert EncodeSamples(t, [], []) == [];
      assert (ts + [t])[1..] == [] && (values + [v])[1..] == [];
    } else {
      assert (ts + [t])[1..] == ts[1..] + [t] && (values + [v])[1..] == values[1..] + [v];
      EncodeSamplesAppend(ts[0], ts[1..], values[1..], t, v);
    }
  }

  lemma Regroup(a: seq<byte>, b: seq<byte>, c: seq<byte>, d: seq<byte>)
    ensures a + b + c + d == a + (b + c + d)
  {
  }

  /** The numbers of a block one after the other. */
  function PutAll(numbers: seq<int64>): seq<byte>
    decreases |numbers|
  {
    if numbers == [] then [] else PutAll(numbers[..|numbers| - 1]) + Put(numbers[|numbers| - 1])
  }

  /** How many samples, the start, and for each sample the time since the one before it and the value. */
  ghost predicate Layout(numbers: seq<int64>, count: int64, start: int64, ts: seq<int64>, values: seq<int64>)
    requires |ts| == |values|
  {
    && |numbers| == 2 + 2 * |ts| && numbers[0] == count && numbers[1] == start
    && forall i {:trigger ts[i]} {:trigger values[i]} :: 0 <= i < |ts| ==>
         && numbers[2 + 2 * i] == WrapSub(ts[i], if i == 0 then start else ts[i - 1])
         && numbers[3 + 2 * i] == values[i]
  }

  lemma {:induction false} EncodedNumbers(count: int64, start: int64, ts: seq<int64>, values: seq<int64>)
    returns (numbers: seq<int64>)
    requires |ts| == |values|
    ensures PutAll(numbers) == Put(count) + Put(start) + EncodeSamples(start, ts, values)
    ensures Layout(numbers, count, start, ts, values)
    decreases |ts|
  {
    hide Put, WrapSub, EncodeSamples, PutAll, Layout;
    var n := |ts| - 1;
    if ts == [] {
      numbers := [count, start];
      HeaderNumbers(count, start);
    } else {
      var before := EncodedNumbers(count, start, ts[..n], values[..n]);
      var delta := WrapSub(ts[n], if n == 0 then start else ts[n - 1]);
      numbers := before + [delta] + [values[n]];
      PutTwo(before, delta, values[n]);
      EncodeSamplesAppend(start, ts[..n], values[..n], ts[n], values[n]);
      assert ts == ts[..n] + [ts[n]] && values == values[..n] + [values[n]];
      Regroup(Put(count) + Put(start), EncodeSamples(start, ts[..n], values[..n]), Put(delta), Put(values[n]));
      LayoutGrows(before, count, start, ts, values);
    }
  }

  lemma HeaderNumbers(count: int64, start: int64)
    ensures PutAll([count, start]) == Put(count) + Put(start) + EncodeSamples(start, [], [])
    ensures Layout([count, start], count, start, [], [])
  {
    hide Put, EncodeSamples;
    NoSamples(start);
    assert [count, start][..1] == [count] && [count][..0] == [];
    assert PutAll([count]) == PutAll([]) + Put(count);
  }

  lemma PutTwo(before: seq<int64>, x: int64, y: int64)
    ensures PutAll(before + [x] + [y]) == PutAll(before) + Put(x) + Put(y)
  {
    hide Put;
    assert (before + [x] + [y])[..|before| + 1] == before + [x] && (before + [x])[..|before|] == before;
  }

  lemma LayoutGrows(before: seq<int64>, count: int64, start: int64, ts: seq<int64>, values: seq<int64>)
    requires ts != [] && |ts| == |values| && Layout(before, count, start, ts[..|ts| - 1], values[..|ts| - 1])
    ensures var n := |ts| - 1;
            var delta := WrapSub(ts[n], if n == 0 then start else ts[n - 1]);
            Layout(before + [delta] + [values[n]], count, start, ts, values)
  {
    hide WrapSub;
    var n := |ts| - 1;
    var numbers := before + [WrapSub(ts[n], if n == 0 then start else ts[n - 1])] + [values[n]];
    assert forall k :: 0 <= k < |before| ==> numbers[k] == before[k];
    forall i | 0 <= i < n
      ensures numbers[2 + 2 * i] == WrapSub(ts[i], if i == 0 then start else ts[i - 1])
      ensures numbers[3 + 2 * i] == values[i]
    {
      LayoutAt(before, count, start, ts[..n], values[..n], i);
    }
    hide Layout;
    LayoutFrom(numbers, count, start, ts, values);
  }

  lemma LayoutAt(numbers: seq<int64>, count: int64, start: int64, ts: seq<int64>, values: seq<int64>, i: nat)
    requires |ts| == |values| && Layout(numbers, count, start, ts, values) && i < |ts|
    ensures |numbers| == 2 + 2 * |ts| && numbers[2 + 2 * i] == WrapSub(ts[i], if i == 0 then start else ts[i - 1])
    ensures numbers[3 + 2 * i] == values[i]
  {
    hide WrapSub;
  }

  lemma LayoutFrom(numbers: seq<int64>, count: int64, start: int64, ts: seq<int64>, values: seq<int64>)
    requires |ts| == |values| && |numbers| == 2 + 2 * |ts| && numbers[0] == count && numbers[1] == start
    requires forall i :: 0 <= i < |ts| ==> numbers[2 + 2 * i] == WrapSub(ts[i], if i == 0 then start else ts[i - 1])
    requires forall i :: 0 <= i < |ts| ==> numbers[3 + 2 * i] == values[i]
    ensures Layout(numbers, count, start, ts, values)
  {
    hide WrapSub;
  }

  lemma NoSamples(start: int64)
    ensures EncodeSamples(start, [], []) == []
  {
  }

  /** An encoded block is the varints of these numbers, in this order. */
  lemma BlockLayout(block: Block) returns (numbers: seq<int64>)
    requires |block.ts| == |block.values| < TWO63
    ensures Layout(numbers, |block.ts| as int64, block.start, block.ts, block.values)
    ensures Encode(block) == PutAll(numbers)
  {
    numbers := EncodedNumbers(|block.ts| as int64, block.start, block.ts, block.values);
  }

  method EncodeBlock(start: int64, ts: seq<int64>, values: seq<int64>) returns (buf: seq<byte>)
    requires |ts| == |values| < TWO63
    ensures buf == Encode(Block(start, ts, values))
  {
    buf := Put(|ts| as int64) + Put(start);
    var prev := start;
    ghost var header, samples := buf, [];
    assert EncodeSamples(start, ts[..0], values[..0]) == [];
    hide EncodeSamples, Put;
    for i := 0 to |ts|
      invariant prev == if i == 0 then start else ts[i - 1]
      invariant samples == EncodeSamples(start, ts[..i], values[..i])
      invariant buf == header + samples
    {
      EncodeSamplesAppend(start, ts[..i], values[..i], ts[i], values[i]);
      assert ts[..i + 1] == ts[..i] + [ts[i]] && values[..i + 1] == values[..i] + [values[i]];
      var delta := Put(WrapSub(ts[i], prev));
      var value := Put(values[i]);
      Regroup(header, samples, delta, value);
      samples := samples + delta + value;
      buf := buf + delta;
      prev := ts[i];
      buf := buf + value;
    }
    assert ts[..|ts|] == ts && values[..|ts|] == values;
  }

  function Prepend(ts: seq<int64>, values: seq<int64>, more: Result<(seq<int64>, seq<int64>), ReadError>):
    Result<(seq<int64>, seq<int64>), ReadError>
  {
    if more.Err? then more else Ok((ts + more.value.0, values + more.value.1))
  }

  method DecodeBlock(b: seq<byte>) returns (res: Result<Block, ReadError>)
    ensures res == Decode(b)
  {
    var count := Get(b);
    if count.Err? {
      return Err(count.error);
    }
    var start := Get(count.value.rest);
    if start.Err? {
      return Err(start.error);
    }
    if count.value.value < 0 || count.value.value as int > SLICE_MAX {
      return Err(Panic);
    }
    var n := count.value.value as int;
    var ts, values := [], [];
    var prev, rest := start.value.value, start.value.rest;
    ghost var all := DecodeSamples(rest, n, prev);
    assert all == Prepend([], [], all) by {
      PrependNothing(all);
    }
    hide Get, WrapAdd, Prepend, DecodeSamples;
    for i := 0 to n
      invariant all == Prepend(ts, values, DecodeSamples(rest, n - i, prev))
    {
      DecodeOne(rest, n - i, prev, ts, values);
      var delta := Get(rest);
      if delta.Err? {
        return Err(delta.error);
      }
      prev := WrapAdd(prev, delta.value.value);
      var value := Get(delta.value.rest);
      if value.Err? {
        return Err(value.error);
      }
      rest := value.value.rest;
      ts, values := ts + [prev], values + [value.value.value];
    }
    DecodeNone(rest, prev, ts, values);
    res := Ok(Block(start.value.value, ts, values));
  }

  lemma PrependNothing(more: Result<(seq<int64>, seq<int64>), ReadError>)
    ensures Prepend([], [], more) == more
  {
    if more.Ok? {
      assert [] + more.value.0 == more.value.0 && [] + more.value.1 == more.value.1;
    }
  }

  lemma DecodeNone(b: seq<byte>, prev: int64, ts: seq<int64>, values: seq<int64>)
    ensures Prepend(ts, values, DecodeSamples(b, 0, prev)) == Ok((ts, values))
  {
    assert ts + [] == ts && values + [] == values;
  }

  /** One sample is taken off the stream, or its error is the error of the whole. */
  lemma DecodeOne(b: seq<byte>, count: nat, prev: int64, ts: seq<int64>, values: seq<int64>)
    requires count > 0
    ensures var delta := Get(b);
            var all := Prepend(ts, values, DecodeSamples(b, count, prev));
            if delta.Err? then all == Err(delta.error)
            else
              var value := Get(delta.value.rest);
              if value.Err? then all == Err(value.error)
              else
                var t := WrapAdd(prev, delta.value.value);
                all == Prepend(ts + [t], values + [value.value.value], DecodeSamples(value.value.rest, count - 1, t))
  {
    hide Get, WrapAdd;
    var delta := Get(b);
    if delta.Ok? {
      var value := Get(delta.value.rest);
      if value.Ok? {
        var t := WrapAdd(prev, delta.value.value);
        PrependStep(ts, values, t, value.value.value, DecodeSamples(value.value.rest, count - 1, t));
      }
    }
  }

  lemma PrependStep(ts: seq<int64>, values: seq<int64>, t: int64, v: int64,
                    more: Result<(seq<int64>, seq<int64>), ReadError>)
    ensures Prepend(ts, values, Prepend([t], [v], more)) == Prepend(ts + [t], values + [v], more)
  {
    if more.Ok? {
      assert ts + ([t] + more.value.0) == ts + [t] + more.value.0;
      assert values + ([v] + more.value.1) == values + [v] + more.value.1;
    }
  }
}
