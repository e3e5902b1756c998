/**
 Transfer of one package file: the client slices it, the server collects the
 chunks in any order and keeps track of what it has, and a host fetches the
 chunks of a complete package and joins them. The checksum is a parameter.
 */
module PackageTransfer {
  import opened Common

  /** 1 MiB. */
  const CHUNK_SIZE: nat := 1048576
  /** 1000 MiB. */
  const PACKAGE_MAX_SIZE: nat := 1048576000

  type Crc = seq<byte> -> nat

  datatype FileState = Uploading | Complete

  /** The stored description of a package file and of the progress of its upload. */
  datatype FileInfo = FileInfo(state: FileState, size: int, chunkSize: int, uploaded: seq<int>)

  datatype Chunk = Chunk(crc: nat, data: seq<byte>)

  datatype Store = Store(infos: map<string, FileInfo>, chunks: map<(string, int), Chunk>)

  /** The package header of a first request: whether it passes validation, and the file size it declares. */
  datatype Header = Header(valid: bool, fileSize: int)

  datatype Request = Request(
    id: string, index: int, crc: nat, data: Option<seq<byte>>,
    header: Option<Header>, totalSize: int, chunkSize: int, overwrite: bool)

  datatype Error =
    | IdRequired | DataRequired | PackageRequired | TotalSizeRequired | TooLarge | InvalidHeader
    | FileSizeRequired | InvalidChunkSize | MetaNotFound | InvalidIndex | InvalidLength | InvalidChecksum
    | ChunkNotStored | InfoNotStored | NotReady | ChunkNotFound | Incomplete

  /** Whether the store accepts the two writes of a push. */
  datatype Io = Io(chunk: bool, info: bool)

  // ---- Chunk arithmetic ----

  function TotalChunks(size: int, chunkSize: int): int
    requires chunkSize > 0
  {
    (size + chunkSize - 1) / chunkSize
  }

  /** The only acceptable length of a chunk. */
  function ChunkLength(size: int, chunkSize: int, index: int): int
    requires chunkSize > 0
  {
    if index != TotalChunks(size, chunkSize) - 1 then chunkSize
    else if size % chunkSize == 0 then chunkSize
    else size % chunkSize
  }

  function Slice(file: seq<byte>, index: int): seq<byte>
    requires 0 <= index && index * CHUNK_SIZE <= |file|
  {
    if |file| <= (index + 1) * CHUNK_SIZE then file[index * CHUNK_SIZE..]
    else file[index * CHUNK_SIZE..(index + 1) * CHUNK_SIZE]
  }

  lemma ChunkBounds(size: int, index: int)
    requires size > 0 && (0 < index < TotalChunks(size, CHUNK_SIZE) || index == 0)
    ensures 0 < TotalChunks(size, CHUNK_SIZE) && index * CHUNK_SIZE < size
    ensures ChunkLength(size, CHUNK_SIZE, index) ==
            if size <= (index + 1) * CHUNK_SIZE then size - index * CHUNK_SIZE else CHUNK_SIZE
    ensures size <= (index + 1) * CHUNK_SIZE <==> index == TotalChunks(size, CHUNK_SIZE) - 1
    ensures 0 < ChunkLength(size, CHUNK_SIZE, index) <= CHUNK_SIZE
  {
  }

  lemma SliceLength(file: seq<byte>, index: int)
    requires |file| > 0 && 0 <= index < TotalChunks(|file|, CHUNK_SIZE)
    ensures index * CHUNK_SIZE < |file|
    ensures |Slice(file, index)| == ChunkLength(|file|, CHUNK_SIZE, index)
  {
    ChunkBounds(|file|, index);
  }

  // ---- The list of uploaded indices ----

  ghost predicate Increasing(u: seq<int>) {
    forall i, j :: 0 <= i < j < |u| ==> u[i] < u[j]
  }

  /** Appending and sorting, for a list that is sorted already. */
  function Insert(u: seq<int>, x: int): seq<int> {
    if u == [] || x < u[0] then [x] + u else [u[0]] + Insert(u[1..], x)
  }

  lemma {:induction false} InsertMultiset(u: seq<int>, x: int)
    ensures multiset(Insert(u, x)) == multiset(u) + multiset{x}
    ensures |Insert(u, x)| == |u| + 1
  {
    if u != [] && x >= u[0] {
      InsertMultiset(u[1..], x);
      assert u == [u[0]] + u[1..];
    }
  }

  lemma InsertMembers(u: seq<int>, x: int)
    ensures forall y :: y in Insert(u, x) <==> y == x || y in u
  {
    InsertMultiset(u, x);
    forall y
      ensures y in Insert(u, x) <==> y == x || y in u
    {
      assert y in Insert(u, x) <==> y in multiset(Insert(u, x));
    }
  }

  lemma {:induction false} InsertIncreasing(u: seq<int>, x: int)
    requires Increasing(u) && x !in u
    ensures Increasing(Insert(u, x))
  {
    if u != [] && x > u[0] {
      var rest := u[1..];
      InsertIncreasing(rest, x);
      InsertMembers(rest, x);
      var all, more := Insert(u, x), Insert(rest, x);
      assert all == [u[0]] + more;
      forall j | 0 < j < |all|
        ensures u[0] < all[j]
      {
        assert all[j] in more;
      }
    }
  }

  /** The uploaded list stays sorted without repetition and gains exactly the new index. */
  lemma InsertSorts(u: seq<int>, x: int)
    requires Increasing(u)
    ensures multiset(Insert(u, x)) == multiset(u) + multiset{x}
    ensures forall y :: y in Insert(u, x) <==> y == x || y in u
    ensures x !in u ==> Increasing(Insert(u, x))
    ensures |Insert(u, x)| == |u| + 1
  {
    InsertMultiset(u, x);
    InsertMembers(u, x);
    if x !in u {
      InsertIncreasing(u, x);
    }
  }

  /** n different indices below n are all of them. */
  lemma {:induction false} FullIncreasing(u: seq<int>, n: int)
    requires Increasing(u) && |u| == n && (forall i :: 0 <= i < |u| ==> 0 <= u[i] < n)
    ensures forall i :: 0 <= i < n ==> u[i] == i
  {
    if n > 0 {
      forall i | 0 <= i < n - 1 ensures u[i] < u[n - 1] {
      }
      FullPrefix(u, n - 1);
      FullSuffix(u, 0, n);
    }
  }

  lemma {:induction false} FullPrefix(u: seq<int>, k: int)
    requires Increasing(u) && 0 <= k < |u| && u[0] >= 0
    ensures forall i :: 0 <= i <= k ==> u[i] >= i
  {
    if k > 0 {
      FullPrefix(u, k - 1);
      assert u[k - 1] < u[k];
    }
  }

  lemma {:induction false} FullSuffix(u: seq<int>, k: int, n: int)
    requires Increasing(u) && 0 <= k < |u| == n && u[n - 1] < n
    ensures forall i :: k <= i < n ==> u[i] <= i
    decreases n - k
  {
    if k < n - 1 {
      FullSuffix(u, k + 1, n);
      assert u[k] < u[k + 1];
    }
  }

  // ---- The server ----

  function Validate(r: Request): Option<Error> {
    if r.id == "" then Some(IdRequired)
    else if r.data.None? then Some(DataRequired)
    else if r.index != 0 then None
    else if r.header.None? then Some(PackageRequired)
    else if r.totalSize <= 0 then Some(TotalSizeRequired)
    else if r.totalSize > PACKAGE_MAX_SIZE then Some(TooLarge)
    else if !r.header.value.valid then Some(InvalidHeader)
    else if r.header.value.fileSize <= 0 then Some(FileSizeRequired)
    else if r.chunkSize != CHUNK_SIZE then Some(InvalidChunkSize)
    else None
  }

  function NewInfo(r: Request): FileInfo
    requires r.header.Some?
  {
    FileInfo(Uploading, r.header.value.fileSize, r.chunkSize, [])
  }

  function WithoutChunks(chunks: map<(string, int), Chunk>, id: string, n: int): map<(string, int), Chunk> {
    map k | k in chunks && !(k.0 == id && 0 <= k.1 < n) :: chunks[k]
  }

  /** The description after one more chunk. */
  function Recorded(info: FileInfo, index: int): FileInfo
    requires info.chunkSize > 0
  {
    var uploaded := Insert(info.uploaded, index);
    if |uploaded| == TotalChunks(info.size, info.chunkSize) then info.(state := Complete, uploaded := [])
    else info.(uploaded := uploaded)
  }

  /** The upload of one chunk to a package that is not complete. */
  function Accept(s: Store, r: Request, info: FileInfo, crc: Crc, io: Io): (Store, Result<FileInfo, Error>)
    requires r.data.Some? && info.chunkSize > 0
  {
    var total := TotalChunks(info.size, info.chunkSize);
    if r.index < 0 || r.index >= total then (s, Err(InvalidIndex))
    else if |r.data.value| != ChunkLength(info.size, info.chunkSize, r.index) then (s, Err(InvalidLength))
    else if crc(r.data.value) != r.crc then (s, Err(InvalidChecksum))
    else if r.index in info.uploaded then (s, Ok(info))
    else if !io.chunk then (s, Err(ChunkNotStored))
    else
      var stored := s.(chunks := s.chunks[(r.id, r.index) := Chunk(r.crc, r.data.value)]);
      if !io.info then (stored, Err(InfoNotStored))
      else (stored.(infos := s.infos[r.id := Recorded(info, r.index)]), Ok(Recorded(info, r.index)))
  }

  /** One push request. */
  function Push(s: Store, r: Request, crc: Crc, io: Io): (Store, Result<FileInfo, Error>)
    requires WellFormed(s)
  {
    var invalid := Validate(r);
    if invalid.Some? then (s, Err(invalid.value))
    else if r.id !in s.infos then
      if r.index != 0 then (s, Err(MetaNotFound)) else Accept(s, r, NewInfo(r), crc, io)
    else
      var info := s.infos[r.id];
      if info.state == Uploading then Accept(s, r, info, crc, io)
      else if !r.overwrite then (s, Ok(info))
      else if r.index != 0 then (s, Err(MetaNotFound))
      else
        var cleared := s.(chunks := WithoutChunks(s.chunks, r.id, TotalChunks(info.size, info.chunkSize)));
        Accept(cleared, r, NewInfo(r), crc, io)
  }

  ghost predicate WellFormed(s: Store) {
    forall id :: id in s.infos ==> s.infos[id].size > 0 && s.infos[id].chunkSize == CHUNK_SIZE
  }

  /** The chunk is there, has the exact length, and its checksum is right. */
  ghost predicate Stored(s: Store, id: string, info: FileInfo, index: int, crc: Crc)
    requires info.chunkSize > 0
  {
    && (id, index) in s.chunks
    && |s.chunks[(id, index)].data| == ChunkLength(info.size, info.chunkSize, index)
    && crc(s.chunks[(id, index)].data) == s.chunks[(id, index)].crc
  }

  ghost predicate InfoOk(s: Store, id: string, info: FileInfo, crc: Crc) {
    && info.size > 0 && info.chunkSize == CHUNK_SIZE
    && var total := TotalChunks(info.size, info.chunkSize);
    if info.state == Complete then
      info.uploaded == [] && forall i :: 0 <= i < total ==> Stored(s, id, info, i, crc)
    else
      && Increasing(info.uploaded) && |info.uploaded| < total
      && forall k :: 0 <= k < |info.uploaded|
           ==> 0 <= info.uploaded[k] < total && Stored(s, id, info, info.uploaded[k], crc)
  }

  /** What the store promises: uploaded chunks are there, and complete means all of them. */
  ghost predicate Invariant(s: Store, crc: Crc) {
    forall id :: id in s.infos ==> InfoOk(s, id, s.infos[id], crc)
  }

  lemma InvariantWellFormed(s: Store, crc: Crc)
    requires Invariant(s, crc)
    ensures WellFormed(s)
  {
  }

  lemma OtherInfoKept(s: Store, t: Store, id: string, info: FileInfo, crc: Crc)
    requires InfoOk(s, id, info, crc)
    requires forall i :: (id, i) in s.chunks ==> (id, i) in t.chunks && t.chunks[(id, i)] == s.chunks[(id, i)]
    ensures InfoOk(t, id, info, crc)
  {
    forall i | Stored(s, id, info, i, crc)
      ensures Stored(t, id, info, i, crc)
    {
      assert (id, i) in s.chunks;
    }
  }

  lemma InsertCount(u: seq<int>, n: int)
    requires Increasing(u) && u != [] && forall x :: x in u ==> 0 <= x < n
    ensures |u| <= n
  {
    assert u[0] in u && u[|u| - 1] in u;
    FullPrefix(u, |u| - 1);
  }

  lemma NewChunkStored(s: Store, t: Store, r: Request, info: FileInfo, crc: Crc)
    requires r.data.Some? && InfoOk(s, r.id, info, crc) && info.state == Uploading
    requires |r.data.value| == ChunkLength(info.size, info.chunkSize, r.index) && crc(r.data.value) == r.crc
    requires 0 <= r.index < TotalChunks(info.size, info.chunkSize)
    requires t.chunks == s.chunks[(r.id, r.index) := Chunk(r.crc, r.data.value)]
    ensures forall i :: i == r.index || i in info.uploaded ==>
              0 <= i < TotalChunks(info.size, info.chunkSize) && Stored(t, r.id, info, i, crc)
  {
    hide ChunkLength, TotalChunks;
    forall i | i in info.uploaded && i != r.index
      ensures 0 <= i < TotalChunks(info.size, info.chunkSize) && Stored(t, r.id, info, i, crc)
    {
      var k :| 0 <= k < |info.uploaded| && info.uploaded[k] == i;
      assert Stored(s, r.id, info, info.uploaded[k], crc);
    }
  }

  /** A new chunk next to the ones that are there; the last one makes the package complete. */
  lemma AcceptKeepsInfo(s: Store, r: Request, info: FileInfo, crc: Crc)
    requires r.data.Some? && InfoOk(s, r.id, info, crc) && info.state == Uploading
    requires 0 <= r.index < TotalChunks(info.size, info.chunkSize) && r.index !in info.uploaded
    requires |r.data.value| == ChunkLength(info.size, info.chunkSize, r.index) && crc(r.data.value) == r.crc
    ensures var (t, res) := Accept(s, r, info, crc, Io(true, true));
            res.Ok? && r.id in t.infos && t.infos[r.id] == res.value && InfoOk(t, r.id, res.value, crc)
  {
    var total := TotalChunks(info.size, info.chunkSize);
    var (t, res) := Accept(s, r, info, crc, Io(true, true));
    var uploaded := Insert(info.uploaded, r.index);
    InsertSorts(info.uploaded, r.index);
    NewChunkStored(s, t, r, info, crc);
    hide Insert, ChunkLength, TotalChunks;
    InsertCount(uploaded, total);
    if |uploaded| == total {
      CompleteMeansAll(info, r.index, s, r.id, crc);
      assert forall i :: 0 <= i < total ==> Stored(t, r.id, info, i, crc);
      SameDataStored(t, r.id, info, res.value, crc);
    } else {
      assert forall k :: 0 <= k < |uploaded| ==> uploaded[k] in uploaded;
      SameDataStored(t, r.id, info, res.value, crc);
    }
  }

  lemma SameDataStored(s: Store, id: string, info: FileInfo, next: FileInfo, crc: Crc)
    requires info.chunkSize == next.chunkSize > 0 && info.size == next.size
    ensures forall i :: Stored(s, id, info, i, crc) <==> Stored(s, id, next, i, crc)
  {
  }

  predicate IsComplete(s: Store, id: string) {
    id in s.infos && s.infos[id].state == Complete
  }

  /** Requests that replace a complete package. */
  predicate Overwrites(s: Store, r: Request) {
    Validate(r).None? && IsComplete(s, r.id) && r.overwrite && r.index == 0
  }

  /** What a request that changes anything did. */
  lemma PushChanges(s: Store, r: Request, crc: Crc, io: Io)
    requires WellFormed(s) && !Overwrites(s, r) && Push(s, r, crc, io).0 != s
    ensures Validate(r).None? && (r.id in s.infos || r.index == 0)
    ensures var info := if r.id in s.infos then s.infos[r.id] else NewInfo(r);
            && info.state == Uploading && info.size > 0 && info.chunkSize == CHUNK_SIZE && io.chunk
            && 0 <= r.index < TotalChunks(info.size, info.chunkSize) && r.index !in info.uploaded
            && |r.data.value| == ChunkLength(info.size, info.chunkSize, r.index) && crc(r.data.value) == r.crc
            && Push(s, r, crc, io).0 ==
               Store(if io.info then s.infos[r.id := Recorded(info, r.index)] else s.infos,
                     s.chunks[(r.id, r.index) := Chunk(r.crc, r.data.value)])
  {
    hide Recorded, ChunkLength, TotalChunks;
  }

  /** Every other request keeps the promise, whichever store writes succeed. */
  lemma PushKeepsInvariant(s: Store, r: Request, crc: Crc, io: Io)
    requires Invariant(s, crc) && !Overwrites(s, r)
    ensures WellFormed(s) && Invariant(Push(s, r, crc, io).0, crc)
  {
    InvariantWellFormed(s, crc);
    var (t, res) := Push(s, r, crc, io);
    if t != s {
      PushChanges(s, r, crc, io);
      hide Push, Recorded;
      var info := if r.id in s.infos then s.infos[r.id] else NewInfo(r);
      AcceptKeepsInfo(s, r, info, crc);
      forall id | id in t.infos
        ensures InfoOk(t, id, t.infos[id], crc)
      {
        if id != r.id {
          OtherInfoKept(s, t, id, s.infos[id], crc);
        } else if !io.info {
          UnrecordedChunk(s, t, r, info, crc);
        }
      }
    }
  }

  lemma UnrecordedChunk(s: Store, t: Store, r: Request, info: FileInfo, crc: Crc)
    requires InfoOk(s, r.id, info, crc) && info.state == Uploading && r.index !in info.uploaded && r.data.Some?
    requires t.chunks == s.chunks[(r.id, r.index) := Chunk(r.crc, r.data.value)]
    ensures InfoOk(t, r.id, info, crc)
  {
    forall k | 0 <= k < |info.uploaded|
      ensures Stored(t, r.id, info, info.uploaded[k], crc)
    {
      assert Stored(s, r.id, info, info.uploaded[k], crc);
    }
  }

  /**
   A replacement whose chunk is refused or not stored, or is stored without the new
   description and does not happen to be as long as the whole old package.
   */
  predicate Torn(s: Store, r: Request, crc: Crc, io: Io) {
    && Overwrites(s, r)
    && var data := r.data.value;
       || |data| != ChunkLength(r.header.value.fileSize, CHUNK_SIZE, 0)
       || crc(data) != r.crc
       || !io.chunk
       || (!io.info && |data| != s.infos[r.id].size)
  }

  /** Exactly these replacements of a complete package leave it marked complete without its chunks. */
  lemma OverwriteIsNotAtomic(s: Store, r: Request, crc: Crc, io: Io)
    requires Invariant(s, crc)
    ensures WellFormed(s) && (Invariant(Push(s, r, crc, io).0, crc) <==> !Torn(s, r, crc, io))
  {
    InvariantWellFormed(s, crc);
    if !Overwrites(s, r) {
      PushKeepsInvariant(s, r, crc, io);
    } else {
      var prior := s.infos[r.id];
      var total := TotalChunks(prior.size, prior.chunkSize);
      var cleared := s.(chunks := WithoutChunks(s.chunks, r.id, total));
      var (t, res) := Push(s, r, crc, io);
      assert (t, res) == Accept(cleared, r, NewInfo(r), crc, io);
      ChunkBounds(prior.size, 0);
      forall id | id in s.infos && id != r.id
        ensures InfoOk(t, id, s.infos[id], crc)
      {
        OtherInfoKept(s, t, id, s.infos[id], crc);
      }
      if res.Ok? {
        AcceptKeepsInfo(cleared, r, NewInfo(r), crc);
      } else {
        assert t.infos == s.infos;
        if res.error != InfoNotStored {
          assert !Stored(t, r.id, prior, 0, crc);
        } else {
          OverwriteInfoLost(s, t, r, prior, crc);
        }
      }
    }
  }

  /** One of them: a one-byte package that is replaced with a wrong checksum is complete without its chunk. */
  lemma TornOverwrite(id: string, data: byte, crc: Crc)
    requires id != ""
    ensures var s := Store(map[id := FileInfo(Complete, 1, CHUNK_SIZE, [])],
                           map[(id, 0) := Chunk(crc([data]), [data])]);
            var r := Request(id, 0, crc([data]) + 1, Some([data]), Some(Header(true, 1)), 1, CHUNK_SIZE, true);
            && Invariant(s, crc) && WellFormed(s)
            && Push(s, r, crc, Io(true, true)).1 == Err(InvalidChecksum)
            && Push(s, r, crc, Io(true, true)).0 == Store(s.infos, map[])
            && !Invariant(Push(s, r, crc, Io(true, true)).0, crc)
  {
    var s := Store(map[id := FileInfo(Complete, 1, CHUNK_SIZE, [])], map[(id, 0) := Chunk(crc([data]), [data])]);
    var r := Request(id, 0, crc([data]) + 1, Some([data]), Some(Header(true, 1)), 1, CHUNK_SIZE, true);
    OverwriteIsNotAtomic(s, r, crc, Io(true, true));
    assert WithoutChunks(s.chunks, id, 1) == map[];
  }

  lemma OverwriteInfoLost(s: Store, t: Store, r: Request, prior: FileInfo, crc: Crc)
    requires r.data.Some? && InfoOk(s, r.id, prior, crc) && prior.state == Complete && r.index == 0
    requires r.header.Some? && r.header.value.fileSize > 0 && crc(r.data.value) == r.crc
    requires |r.data.value| == ChunkLength(r.header.value.fileSize, CHUNK_SIZE, 0)
    requires t.chunks ==
               WithoutChunks(s.chunks, r.id, TotalChunks(prior.size, prior.chunkSize))
                 [(r.id, 0) := Chunk(r.crc, r.data.value)]
    ensures InfoOk(t, r.id, prior, crc) <==> |r.data.value| == prior.size
  {
    var total := TotalChunks(prior.size, prior.chunkSize);
    ChunkBounds(prior.size, 0);
    ChunkBounds(r.header.value.fileSize, 0);
    if total > 1 {
      assert !Stored(t, r.id, prior, 1, crc);
    } else {
      assert InfoOk(t, r.id, prior, crc) <==> Stored(t, r.id, prior, 0, crc);
    }
  }

  // ---- What an answered push leaves ----

  /** Descriptions and chunks of every other package are as they were. */
  ghost predicate OthersKept(s: Store, t: Store, id: string) {
    && (forall k :: k != id ==> (k in s.infos <==> k in t.infos) && (k in s.infos ==> t.infos[k] == s.infos[k]))
    && (forall c: (string, int) :: c.0 != id ==>
          (c in s.chunks <==> c in t.chunks) && (c in s.chunks ==> t.chunks[c] == s.chunks[c]))
  }

  lemma OthersKeptTransitive(s: Store, t: Store, u: Store, id: string)
    requires OthersKept(s, t, id) && OthersKept(t, u, id)
    ensures OthersKept(s, u, id)
  {
  }

  lemma PushTouchesOne(s: Store, r: Request, crc: Crc, io: Io)
    requires WellFormed(s)
    ensures OthersKept(s, Push(s, r, crc, io).0, r.id)
  {
    hide Recorded, ChunkLength, TotalChunks;
  }

  /**
   An accepted chunk, in terms of the indices recorded before it: none for a new
   package and for a replacement, which also announces the size, and those listed
   for an upload that goes on. The chunk is stored as it was sent and recorded next
   to the others, and the package is complete once every index is there.
   */
  lemma ChunkIsRecorded(s: Store, r: Request, crc: Crc, io: Io)
    requires Invariant(s, crc) && WellFormed(s) && Push(s, r, crc, io).1.Ok?
    requires IsComplete(s, r.id) ==> r.overwrite
    ensures var (t, res) := Push(s, r, crc, io);
            var begins := r.id !in s.infos || s.infos[r.id].state == Complete;
            var before := if begins then [] else s.infos[r.id].uploaded;
            && t.infos == s.infos[r.id := res.value]
            && (begins ==> r.index == 0 && r.header.Some? && res.value.size == r.header.value.fileSize)
            && (!begins ==> res.value.size == s.infos[r.id].size)
            && res.value.chunkSize == CHUNK_SIZE
            && r.data.Some? && 0 <= r.index && r.index * CHUNK_SIZE < res.value.size
            && (r.index in before ==> t == s)
            && (r.index !in before ==>
                  (r.id, r.index) in t.chunks && t.chunks[(r.id, r.index)] == Chunk(r.crc, r.data.value))
            && (res.value.state == Complete <==>
                forall i :: 0 <= i && i * CHUNK_SIZE < res.value.size ==> i == r.index || i in before)
            && (res.value.state == Complete ==> res.value.uploaded == [])
            && (res.value.state == Uploading ==>
                  Increasing(res.value.uploaded)
                  && forall i :: i in res.value.uploaded <==> i == r.index || i in before)
  {
    var info := if r.id !in s.infos || IsComplete(s, r.id) then NewInfo(r) else s.infos[r.id];
    AnsweredPush(s, r, crc, io, info);
    IndicesBelow(info.size);
    if r.index in info.uploaded {
      ListLacksOne(info.uploaded, TotalChunks(info.size, CHUNK_SIZE));
    } else {
      RecordedMeaning(info, r.index);
    }
    hide Push, Recorded, TotalChunks, Invariant, WellFormed, InfoOk;
  }

  lemma IndicesBelow(size: int)
    ensures forall i :: 0 <= i ==> (i * CHUNK_SIZE < size <==> i < TotalChunks(size, CHUNK_SIZE))
  {
  }

  /** What an answered request had to satisfy, and the new state. */
  lemma AnsweredPush(s: Store, r: Request, crc: Crc, io: Io, info: FileInfo)
    requires Invariant(s, crc) && WellFormed(s) && Push(s, r, crc, io).1.Ok?
    requires IsComplete(s, r.id) ==> r.overwrite
    requires r.id !in s.infos || IsComplete(s, r.id) ==> r.header.Some? && info == NewInfo(r)
    requires r.id in s.infos && !IsComplete(s, r.id) ==> info == s.infos[r.id]
    ensures r.id !in s.infos || IsComplete(s, r.id) ==> r.index == 0
    ensures info.state == Uploading && info.chunkSize == CHUNK_SIZE && Increasing(info.uploaded)
    ensures |info.uploaded| < TotalChunks(info.size, CHUNK_SIZE)
    ensures forall i :: i in info.uploaded ==> 0 <= i < TotalChunks(info.size, CHUNK_SIZE)
    ensures r.data.Some? && 0 <= r.index < TotalChunks(info.size, CHUNK_SIZE)
    ensures r.index in info.uploaded ==> Push(s, r, crc, io) == (s, Ok(info)) && r.id in s.infos
    ensures r.index !in info.uploaded ==>
              var (t, res) := Push(s, r, crc, io);
              && res == Ok(Recorded(info, r.index)) && t.infos == s.infos[r.id := res.value]
              && (r.id, r.index) in t.chunks && t.chunks[(r.id, r.index)] == Chunk(r.crc, r.data.value)
  {
    if r.id !in s.infos || IsComplete(s, r.id) {
      ChunkBounds(info.size, 0);
    } else {
      assert InfoOk(s, r.id, info, crc);
      assert forall k :: 0 <= k < |info.uploaded| ==> 0 <= info.uploaded[k] < TotalChunks(info.size, CHUNK_SIZE);
    }
    hide Recorded, ChunkLength, TotalChunks;
  }

  lemma ListLacksOne(u: seq<int>, n: int)
    requires Increasing(u) && |u| < n && forall x :: x in u ==> 0 <= x < n
    ensures exists i :: 0 <= i < n && i !in u
  {
    if forall i :: 0 <= i < n ==> i in u {
      AllIndicesCount(u, n);
    }
  }

  /** Recording an index: all indices are there exactly when the count is full. */
  lemma RecordedMeaning(info: FileInfo, index: int)
    requires info.state == Uploading && info.chunkSize == CHUNK_SIZE && Increasing(info.uploaded)
    requires index !in info.uploaded && 0 <= index < TotalChunks(info.size, CHUNK_SIZE)
    requires forall i :: i in info.uploaded ==> 0 <= i < TotalChunks(info.size, CHUNK_SIZE)
    ensures var next := Recorded(info, index);
            && next.size == info.size && next.chunkSize == info.chunkSize
            && (next.state == Complete <==>
                forall i :: 0 <= i < TotalChunks(info.size, CHUNK_SIZE) ==> i == index || i in info.uploaded)
            && (next.state == Complete ==> next.uploaded == [])
            && (next.state == Uploading ==>
                  Increasing(next.uploaded) && forall i :: i in next.uploaded <==> i == index || i in info.uploaded)
  {
    var all, total := Insert(info.uploaded, index), TotalChunks(info.size, CHUNK_SIZE);
    InsertSorts(info.uploaded, index);
    hide Insert, TotalChunks;
    InsertCount(all, total);
    assert forall i :: 0 <= i < |all| ==> all[i] in all;
    if |all| == total {
      FullIncreasing(all, total);
      forall i | 0 <= i < total
        ensures i in all
      {
        assert all[i] == i;
      }
    } else if forall i :: 0 <= i < total ==> i == index || i in info.uploaded {
      AllIndicesCount(all, total);
    }
  }

  /**
   A replacement is answered as the first chunk of a new package is by a store that
   has neither the package nor its chunks. When it is accepted both stores end the
   same; when it is refused, the old description stays behind without the chunks.
   */
  lemma ReplacementIsFirstUpload(s: Store, r: Request, crc: Crc, io: Io)
    requires WellFormed(s) && Overwrites(s, r)
    ensures var bare := Store(
                map k | k in s.infos && k != r.id :: s.infos[k],
                map c | c in s.chunks
                        && !(c.0 == r.id && 0 <= c.1 && c.1 * CHUNK_SIZE < s.infos[r.id].size) :: s.chunks[c]);
            WellFormed(bare) && r.id !in bare.infos
            && var (t, res) := Push(s, r, crc, io);
            var (u, same) := Push(bare, r, crc, io);
            res == same && (res.Ok? ==> t == u) && (res.Err? ==> t == Store(s.infos, u.chunks))
  {
    var bare := Store(
      map k | k in s.infos && k != r.id :: s.infos[k],
      map c | c in s.chunks
              && !(c.0 == r.id && 0 <= c.1 && c.1 * CHUNK_SIZE < s.infos[r.id].size) :: s.chunks[c]);
    IndicesBelow(s.infos[r.id].size);
    assert bare.chunks == WithoutChunks(s.chunks, r.id, TotalChunks(s.infos[r.id].size, CHUNK_SIZE));
    var info := NewInfo(r);
    assert bare.infos[r.id := Recorded(info, 0)] == s.infos[r.id := Recorded(info, 0)];
    hide Recorded, ChunkLength, TotalChunks;
  }

  // ---- Runs ----

  function Run(s: Store, reqs: seq<(Request, Io)>, crc: Crc): (t: Store)
    requires WellFormed(s)
    ensures WellFormed(t)
    decreases |reqs|
  {
    if reqs == [] then s
    else
      PushWellFormed(s, reqs[0].0, crc, reqs[0].1);
      Run(Push(s, reqs[0].0, crc, reqs[0].1).0, reqs[1..], crc)
  }

  lemma PushWellFormed(s: Store, r: Request, crc: Crc, io: Io)
    requires WellFormed(s)
    ensures WellFormed(Push(s, r, crc, io).0)
  {
    hide ChunkLength, TotalChunks, Insert;
  }

  /** The stored chunks of the package are slices of the file. */
  ghost predicate FromFile(s: Store, id: string, file: seq<byte>) {
    id in s.infos ==>
      var info := s.infos[id];
      && info.size == |file| > 0 && info.chunkSize == CHUNK_SIZE
      && forall i {:trigger (id, i) in s.chunks} ::
           0 <= i < TotalChunks(|file|, CHUNK_SIZE) && (info.state == Complete || i in info.uploaded) ==>
             && (id, i) in s.chunks
             && i * CHUNK_SIZE <= |file|
             && s.chunks[(id, i)].data == Slice(file, i)
  }

  /** A request for the package announces the file's size and carries a slice of it, or is one the server refuses. */
  ghost predicate Sends(r: Request, id: string, file: seq<byte>, crc: Crc) {
    r.id == id && Validate(r).None? ==>
      && |file| > 0
      && (r.index == 0 ==> r.header.value.fileSize == |file|)
      && (0 <= r.index < TotalChunks(|file|, CHUNK_SIZE) && crc(r.data.value) == r.crc
          && |r.data.value| == ChunkLength(|file|, CHUNK_SIZE, r.index) ==>
            r.index * CHUNK_SIZE <= |file| && r.data.value == Slice(file, r.index))
  }

  /** An accepted replacement by the first slice of the file starts the file anew, whatever the old content was. */
  lemma ReplacementBegins(s: Store, r: Request, file: seq<byte>, crc: Crc, io: Io)
    requires Invariant(s, crc) && WellFormed(s) && Overwrites(s, r)
    requires Sends(r, r.id, file, crc) && Push(s, r, crc, io).1.Ok?
    ensures FromFile(Push(s, r, crc, io).0, r.id, file)
  {
    ChunkIsRecorded(s, r, crc, io);
    ReplacedRequest(s, r, crc, io);
    IndicesBelow(|file|);
    hide Push, TotalChunks, ChunkLength, Invariant, WellFormed, Slice;
  }

  lemma ReplacedRequest(s: Store, r: Request, crc: Crc, io: Io)
    requires WellFormed(s) && Overwrites(s, r) && Push(s, r, crc, io).1.Ok?
    ensures r.data.Some? && r.header.Some? && r.header.value.fileSize > 0 && crc(r.data.value) == r.crc
    ensures |r.data.value| == ChunkLength(r.header.value.fileSize, CHUNK_SIZE, 0)
    ensures 0 < TotalChunks(r.header.value.fileSize, CHUNK_SIZE)
  {
  }

  lemma PushKeepsContent(s: Store, r: Request, id: string, file: seq<byte>, crc: Crc, io: Io)
    requires Invariant(s, crc) && FromFile(s, id, file) && Sends(r, id, file, crc) && !Overwrites(s, r)
    ensures WellFormed(s) && FromFile(Push(s, r, crc, io).0, id, file)
  {
    InvariantWellFormed(s, crc);
    var t := Push(s, r, crc, io).0;
    if t != s {
      PushChanges(s, r, crc, io);
      if r.id == id && io.info {
        var info := if id in s.infos then s.infos[id] else NewInfo(r);
        InsertSorts(info.uploaded, r.index);
        if Recorded(info, r.index).state == Complete {
          CompleteMeansAll(info, r.index, s, id, crc);
        }
        AcceptedContent(s, t, r, file, info, Recorded(info, r.index));
      }
    }
  }

  lemma AcceptedContent(s: Store, t: Store, r: Request, file: seq<byte>, info: FileInfo, next: FileInfo)
    requires r.id in s.infos ==> FromFile(s, r.id, file) && s.infos[r.id] == info
    requires info.state == Uploading && (r.id !in s.infos ==> info.uploaded == [])
    requires |file| > 0 && next.size == |file| && next.chunkSize == CHUNK_SIZE
    requires r.data.Some? && r.index >= 0 && r.index * CHUNK_SIZE <= |file| && r.data.value == Slice(file, r.index)
    requires t == Store(s.infos[r.id := next], s.chunks[(r.id, r.index) := Chunk(r.crc, r.data.value)])
    requires next.state == Complete ==>
               forall i :: 0 <= i < TotalChunks(|file|, CHUNK_SIZE) ==> i == r.index || i in info.uploaded
    requires next.state == Uploading ==> forall i :: i in next.uploaded ==> i == r.index || i in info.uploaded
    ensures FromFile(t, r.id, file)
  {
  }

  lemma CompleteMeansAll(info: FileInfo, index: int, s: Store, id: string, crc: Crc)
    requires InfoOk(s, id, info, crc) && info.state == Uploading && index !in info.uploaded
    requires 0 <= index < TotalChunks(info.size, info.chunkSize)
    requires |Insert(info.uploaded, index)| == TotalChunks(info.size, info.chunkSize)
    ensures forall i :: 0 <= i < TotalChunks(info.size, info.chunkSize) ==> i == index || i in info.uploaded
  {
    var all, total := Insert(info.uploaded, index), TotalChunks(info.size, info.chunkSize);
    InsertSorts(info.uploaded, index);
    forall k | 0 <= k < |all| ensures 0 <= all[k] < total {
      assert all[k] in all;
    }
    FullIncreasing(all, total);
    forall i | 0 <= i < total ensures i in all {
      assert all[i] == i;
    }
  }

  /** No replacement of the run leaves a package without its chunks. */
  ghost predicate Whole(s: Store, reqs: seq<(Request, Io)>, crc: Crc)
    requires WellFormed(s)
    decreases |reqs|
  {
    reqs != [] ==>
      && !Torn(s, reqs[0].0, crc, reqs[0].1)
      && (PushWellFormed(s, reqs[0].0, crc, reqs[0].1);
          Whole(Push(s, reqs[0].0, crc, reqs[0].1).0, reqs[1..], crc))
  }

  /** As when no request asks to overwrite. */
  lemma {:induction false} NoOverwriteIsWhole(s: Store, reqs: seq<(Request, Io)>, crc: Crc)
    requires WellFormed(s) && forall k :: 0 <= k < |reqs| ==> !reqs[k].0.overwrite
    ensures Whole(s, reqs, crc)
    decreases |reqs|
  {
    if reqs != [] {
      assert !reqs[0].0.overwrite;
      PushWellFormed(s, reqs[0].0, crc, reqs[0].1);
      hide Push;
      NoOverwriteIsWhole(Push(s, reqs[0].0, crc, reqs[0].1).0, reqs[1..], crc);
    }
  }

  /** Any order, any repetition, any rejected request, any failed store write: the promise holds. */
  lemma {:induction false} RunKeepsInvariant(s: Store, reqs: seq<(Request, Io)>, crc: Crc)
    requires Invariant(s, crc) && WellFormed(s) && Whole(s, reqs, crc)
    ensures Invariant(Run(s, reqs, crc), crc)
    decreases |reqs|
  {
    if reqs != [] {
      OverwriteIsNotAtomic(s, reqs[0].0, crc, reqs[0].1);
      PushWellFormed(s, reqs[0].0, crc, reqs[0].1);
      hide Push, Invariant, Torn;
      RunKeepsInvariant(Push(s, reqs[0].0, crc, reqs[0].1).0, reqs[1..], crc);
    }
  }

  // ---- The download ----

  function Joined(s: Store, id: string, n: int): seq<byte>
    requires forall i :: 0 <= i < n ==> (id, i) in s.chunks
  {
    if n <= 0 then [] else Joined(s, id, n - 1) + s.chunks[(id, n - 1)].data
  }

  lemma {:induction false} JoinedIsFile(s: Store, id: string, file: seq<byte>, n: int)
    requires |file| > 0 && 0 <= n <= TotalChunks(|file|, CHUNK_SIZE)
    requires forall i :: 0 <= i < n ==> (id, i) in s.chunks
    requires forall i :: 0 <= i < n ==> i * CHUNK_SIZE <= |file| && s.chunks[(id, i)].data == Slice(file, i)
    ensures Joined(s, id, n) == if n == TotalChunks(|file|, CHUNK_SIZE) then file else file[..n * CHUNK_SIZE]
  {
    hide Slice, TotalChunks;
    if n == 0 {
      ChunkBounds(|file|, 0);
    } else {
      var k := n - 1;
      JoinedIsFile(s, id, file, k);
      SliceAppends(file, k);
      assert Joined(s, id, n) == Joined(s, id, k) + Slice(file, k);
    }
  }

  /** The next slice behind the slices before it. */
  lemma SliceAppends(file: seq<byte>, i: int)
    requires |file| > 0 && 0 <= i < TotalChunks(|file|, CHUNK_SIZE)
    ensures i * CHUNK_SIZE <= |file|
    ensures file[..i * CHUNK_SIZE] + Slice(file, i)
            == if i + 1 == TotalChunks(|file|, CHUNK_SIZE) then file else file[..(i + 1) * CHUNK_SIZE]
  {
    ChunkBounds(|file|, i);
  }

  /** A complete package is the file it was sliced from. */
  lemma CompleteIsFile(s: Store, id: string, file: seq<byte>)
    requires FromFile(s, id, file) && id in s.infos && s.infos[id].state == Complete
    ensures var total := TotalChunks(|file|, CHUNK_SIZE);
            (forall i :: 0 <= i < total ==> (id, i) in s.chunks) && Joined(s, id, total) == file
  {
    JoinedIsFile(s, id, file, TotalChunks(|file|, CHUNK_SIZE));
  }

  /** Replacing the file by itself, or leaving its description where its only chunk was replaced by itself. */
  lemma ReplacementKeepsContent(s: Store, r: Request, file: seq<byte>, crc: Crc, io: Io)
    requires Invariant(s, crc) && WellFormed(s) && FromFile(s, r.id, file) && Sends(r, r.id, file, crc)
    requires Overwrites(s, r) && !Torn(s, r, crc, io)
    ensures FromFile(Push(s, r, crc, io).0, r.id, file)
  {
    var t := Push(s, r, crc, io).0;
    ChunkBounds(|file|, 0);
    if io.info {
      ReplacementBegins(s, r, file, crc, io);
    } else {
      assert t.infos == s.infos && t.chunks[(r.id, 0)] == Chunk(r.crc, r.data.value);
      assert |r.data.value| == |file|;
      hide Push, Invariant, WellFormed, Slice;
    }
  }

  lemma StepKeepsContent(s: Store, r: Request, id: string, file: seq<byte>, crc: Crc, io: Io)
    requires Invariant(s, crc) && WellFormed(s) && FromFile(s, id, file) && Sends(r, id, file, crc)
    requires !Torn(s, r, crc, io)
    ensures FromFile(Push(s, r, crc, io).0, id, file)
  {
    PushTouchesOne(s, r, crc, io);
    hide Push, Invariant, Torn, Sends, TotalChunks, Slice;
    if !Overwrites(s, r) {
      PushKeepsContent(s, r, id, file, crc, io);
    } else if r.id == id {
      ReplacementKeepsContent(s, r, file, crc, io);
    }
  }

  lemma {:induction false} RunKeepsContent(s: Store, reqs: seq<(Request, Io)>, id: string, file: seq<byte>, crc: Crc)
    requires Invariant(s, crc) && WellFormed(s) && Whole(s, reqs, crc) && FromFile(s, id, file)
    requires forall k :: 0 <= k < |reqs| ==> Sends(reqs[k].0, id, file, crc)
    ensures FromFile(Run(s, reqs, crc), id, file)
    decreases |reqs|
  {
    if reqs != [] {
      assert Sends(reqs[0].0, id, file, crc);
      OverwriteIsNotAtomic(s, reqs[0].0, crc, reqs[0].1);
      StepKeepsContent(s, reqs[0].0, id, file, crc, reqs[0].1);
      PushWellFormed(s, reqs[0].0, crc, reqs[0].1);
      hide Push, Invariant, Torn, FromFile, Sends;
      RunKeepsContent(Push(s, reqs[0].0, crc, reqs[0].1).0, reqs[1..], id, file, crc);
    }
  }

  /**
   End to end: chunks of the file sent in any order, repeated, damaged or lost on
   the way, among uploads of other packages. The package was not there, or the run
   begins with an accepted replacement of whatever was there. Once the package is
   complete, what a host joins is the file.
   */
  lemma TransferRoundTrip(s: Store, reqs: seq<(Request, Io)>, id: string, file: seq<byte>, crc: Crc)
    requires Invariant(s, crc) && WellFormed(s) && Whole(s, reqs, crc)
    requires forall k :: 0 <= k < |reqs| ==> Sends(reqs[k].0, id, file, crc)
    requires id !in s.infos
             || (reqs != [] && reqs[0].0.id == id && Overwrites(s, reqs[0].0)
                 && Push(s, reqs[0].0, crc, reqs[0].1).1.Ok?)
    ensures var t := Run(s, reqs, crc);
            id in t.infos && t.infos[id].state == Complete ==>
              && (forall i :: 0 <= i < TotalChunks(|file|, CHUNK_SIZE) ==> (id, i) in t.chunks)
              && Joined(t, id, TotalChunks(|file|, CHUNK_SIZE)) == file
  {
    if id !in s.infos {
      RunKeepsContent(s, reqs, id, file, crc);
    } else {
      var (r, io) := reqs[0];
      assert Sends(r, id, file, crc);
      ReplacementBegins(s, r, file, crc, io);
      OverwriteIsNotAtomic(s, r, crc, io);
      PushWellFormed(s, r, crc, io);
      RunKeepsContent(Push(s, r, crc, io).0, reqs[1..], id, file, crc);
    }
    hide Push, Invariant, Torn, FromFile, Sends, Overwrites, Joined;
    var t := Run(s, reqs, crc);
    if id in t.infos && t.infos[id].state == Complete {
      CompleteIsFile(t, id, file);
    }
  }

  // ---- Resuming an upload ----

  /** An upload in progress keeps its size and the chunks it has. */
  ghost predicate Grows(s: Store, t: Store, id: string) {
    id in s.infos && s.infos[id].state == Uploading ==>
      && id in t.infos && t.infos[id].size == s.infos[id].size
      && forall i {:trigger (id, i) in t.chunks} :: i in s.infos[id].uploaded ==>
           && (id, i) in s.chunks && (id, i) in t.chunks && t.chunks[(id, i)] == s.chunks[(id, i)]
           && (t.infos[id].state == Uploading ==> i in t.infos[id].uploaded)
  }

  lemma GrowsTransitive(s: Store, t: Store, u: Store, id: string)
    requires Grows(s, t, id) && Grows(t, u, id) && !IsComplete(t, id)
    ensures Grows(s, u, id)
  {
    if id in s.infos && s.infos[id].state == Uploading {
      forall i | i in s.infos[id].uploaded
        ensures (id, i) in u.chunks && u.chunks[(id, i)] == s.chunks[(id, i)]
        ensures u.infos[id].state == Uploading ==> i in u.infos[id].uploaded
      {
        assert (id, i) in t.chunks;
      }
    }
  }

  lemma UploadedStored(s: Store, id: string, crc: Crc)
    requires Invariant(s, crc) && id in s.infos && s.infos[id].state == Uploading
    ensures forall i :: i in s.infos[id].uploaded ==> (id, i) in s.chunks
  {
    var info := s.infos[id];
    forall i | i in info.uploaded
      ensures (id, i) in s.chunks
    {
      var k :| 0 <= k < |info.uploaded| && info.uploaded[k] == i;
      assert Stored(s, id, info, info.uploaded[k], crc);
    }
  }

  lemma PushGrows(s: Store, r: Request, crc: Crc, io: Io)
    requires Invariant(s, crc) && WellFormed(s)
    ensures Grows(s, Push(s, r, crc, io).0, r.id)
  {
    if r.id in s.infos && s.infos[r.id].state == Uploading {
      UploadedStored(s, r.id, crc);
      var t := Push(s, r, crc, io).0;
      if t != s {
        PushChanges(s, r, crc, io);
        InsertSorts(s.infos[r.id].uploaded, r.index);
      }
      hide Push, Insert, TotalChunks, Invariant, WellFormed;
    }
  }

  /** Chunks of the right lengths that join to the file are its slices. */
  lemma {:induction false} JoinedAreSlices(s: Store, id: string, info: FileInfo, n: int, crc: Crc)
    requires info.size > 0 && info.chunkSize == CHUNK_SIZE && 0 <= n <= TotalChunks(info.size, CHUNK_SIZE)
    requires forall i :: 0 <= i < TotalChunks(info.size, CHUNK_SIZE) ==> Stored(s, id, info, i, crc)
    ensures forall i :: 0 <= i < n ==> (id, i) in s.chunks
    ensures var file := Joined(s, id, n);
            && |file| == (if n == TotalChunks(info.size, CHUNK_SIZE) then info.size else n * CHUNK_SIZE)
            && forall i :: 0 <= i < n ==> i * CHUNK_SIZE <= |file| && s.chunks[(id, i)].data == Slice(file, i)
  {
    hide Slice, TotalChunks, ChunkLength;
    forall i | 0 <= i < n
      ensures (id, i) in s.chunks
    {
      assert Stored(s, id, info, i, crc);
    }
    if n == 0 {
      ChunkBounds(info.size, 0);
    } else {
      var k := n - 1;
      JoinedAreSlices(s, id, info, k, crc);
      assert Stored(s, id, info, k, crc);
      ChunkBounds(info.size, k);
      SlicesAppend(s, id, Joined(s, id, k), k);
      assert Joined(s, id, n) == Joined(s, id, k) + s.chunks[(id, k)].data;
    }
  }

  lemma SlicesAppend(s: Store, id: string, file: seq<byte>, k: int)
    requires 0 <= k && |file| == k * CHUNK_SIZE && (id, k) in s.chunks && 0 < |s.chunks[(id, k)].data| <= CHUNK_SIZE
    requires forall i :: 0 <= i < k ==> (id, i) in s.chunks && s.chunks[(id, i)].data == Slice(file, i)
    ensures var all := file + s.chunks[(id, k)].data;
            forall i :: 0 <= i <= k ==> i * CHUNK_SIZE <= |all| && s.chunks[(id, i)].data == Slice(all, i)
  {
    var all := file + s.chunks[(id, k)].data;
    forall i | 0 <= i < k
      ensures Slice(all, i) == Slice(file, i)
    {
      assert (i + 1) * CHUNK_SIZE <= |file|;
    }
  }

  /** The chunks an upload began with and those it ended with make the file only if it began with its slices. */
  lemma ResumedContent(s: Store, t: Store, id: string, file: seq<byte>, crc: Crc)
    requires Invariant(s, crc) && Invariant(t, crc) && Grows(s, t, id) && IsComplete(t, id)
    requires id in s.infos && s.infos[id].state == Uploading
    requires forall i :: 0 <= i < TotalChunks(t.infos[id].size, CHUNK_SIZE) ==> (id, i) in t.chunks
    requires Joined(t, id, TotalChunks(t.infos[id].size, CHUNK_SIZE)) == file
    ensures FromFile(s, id, file)
  {
    var info, total := t.infos[id], TotalChunks(t.infos[id].size, CHUNK_SIZE);
    assert InfoOk(t, id, info, crc) && InfoOk(s, id, s.infos[id], crc);
    JoinedAreSlices(t, id, info, total, crc);
    hide Joined, Slice, TotalChunks, Invariant;
    forall i {:trigger (id, i) in s.chunks} | 0 <= i < total && i in s.infos[id].uploaded
      ensures (id, i) in s.chunks && i * CHUNK_SIZE <= |file| && s.chunks[(id, i)].data == Slice(file, i)
    {
      assert (id, i) in t.chunks;
    }
  }

  /**
   Resuming is blind to the content: an upload that one file begins and another
   one ends is complete with the first chunk of the one and the second of the other.
   */
  lemma MixedUpload(id: string, first: seq<byte>, second: seq<byte>, crc: Crc)
    requires id != "" && |first| == |second| == 2 * CHUNK_SIZE
    ensures WellFormed(Store(map[], map[]))
    ensures var io := Io(true, true);
            var reqs := [(ClientRequest(id, first, 0, false, crc), io),
                         (ClientRequest(id, second, 0, true, crc), io),
                         (ClientRequest(id, second, 1, true, crc), io)];
            var t := Run(Store(map[], map[]), reqs, crc);
            && IsComplete(t, id) && (id, 0) in t.chunks && (id, 1) in t.chunks
            && Joined(t, id, 2) == first[..CHUNK_SIZE] + second[CHUNK_SIZE..]
  {
    var io := Io(true, true);
    var r0, r1, r2 := ClientRequest(id, first, 0, false, crc), ClientRequest(id, second, 0, true, crc),
                      ClientRequest(id, second, 1, true, crc);
    var s1 := Push(Store(map[], map[]), r0, crc, io).0;
    FirstChunkOfTwo(id, first, crc);
    FirstChunkAgain(s1, id, second, crc);
    SecondChunkOfTwo(s1, id, second, crc);
    hide Push, ClientRequest, Slice;
    var reqs := [(r0, io), (r1, io), (r2, io)];
    assert reqs[1..] == [(r1, io), (r2, io)] && reqs[1..][1..] == [(r2, io)];
    var t := Push(s1, r2, crc, io).0;
    assert Run(Store(map[], map[]), reqs, crc) == Run(s1, reqs[1..], crc);
    assert Run(s1, reqs[1..], crc) == Run(s1, [(r2, io)], crc) == t;
    assert Joined(t, id, 1) == t.chunks[(id, 0)].data;
  }

  lemma FirstChunkOfTwo(id: string, file: seq<byte>, crc: Crc)
    requires id != "" && |file| == 2 * CHUNK_SIZE
    ensures WellFormed(Store(map[], map[]))
    ensures Push(Store(map[], map[]), ClientRequest(id, file, 0, false, crc), crc, Io(true, true)).0 ==
            Store(map[id := FileInfo(Uploading, 2 * CHUNK_SIZE, CHUNK_SIZE, [0])],
                  map[(id, 0) := Chunk(crc(file[..CHUNK_SIZE]), file[..CHUNK_SIZE])])
  {
    assert Insert([], 0) == [0] && Slice(file, 0) == file[..CHUNK_SIZE];
  }

  lemma FirstChunkAgain(s: Store, id: string, file: seq<byte>, crc: Crc)
    requires id != "" && |file| == 2 * CHUNK_SIZE && WellFormed(s)
    requires id in s.infos && s.infos[id] == FileInfo(Uploading, 2 * CHUNK_SIZE, CHUNK_SIZE, [0])
    ensures Push(s, ClientRequest(id, file, 0, true, crc), crc, Io(true, true)).0 == s
  {
  }

  lemma SecondChunkOfTwo(s: Store, id: string, file: seq<byte>, crc: Crc)
    requires id != "" && |file| == 2 * CHUNK_SIZE && WellFormed(s)
    requires id in s.infos && s.infos[id] == FileInfo(Uploading, 2 * CHUNK_SIZE, CHUNK_SIZE, [0])
    ensures Push(s, ClientRequest(id, file, 1, true, crc), crc, Io(true, true)).0 ==
            Store(s.infos[id := FileInfo(Complete, 2 * CHUNK_SIZE, CHUNK_SIZE, [])],
                  s.chunks[(id, 1) := Chunk(crc(file[CHUNK_SIZE..]), file[CHUNK_SIZE..])])
  {
    assert Insert([0], 1) == [0, 1] && Slice(file, 1) == file[CHUNK_SIZE..];
  }

  // ---- The programs ----

  class PackageServer {
    var infos: map<string, FileInfo>
    var chunks: map<(string, int), Chunk>

    constructor ()
      ensures State() == Store(map[], map[])
    {
      infos, chunks := map[], map[];
    }

    function State(): Store
      reads this
    {
      Store(infos, chunks)
    }

    method DeleteChunks(id: string, n: int)
      modifies this`chunks
      ensures chunks == WithoutChunks(old(chunks), id, n)
    {
      var i := 0;
      while i < n
        invariant 0 <= i && (i <= n || i == 0)
        invariant chunks == WithoutChunks(old(chunks), id, i)
      {
        chunks := chunks - {(id, i)};
        i := i + 1;
      }
      assert WithoutChunks(old(chunks), id, i) == WithoutChunks(old(chunks), id, n);
    }

    method AcceptChunk(r: Request, loaded: FileInfo, crc: Crc, io: Io) returns (res: Result<FileInfo, Error>)
      requires r.data.Some? && loaded.chunkSize > 0
      modifies this
      ensures (State(), res) == Accept(old(State()), r, loaded, crc, io)
    {
      var info := loaded;
      var data := r.data.value;
      var total := TotalChunks(info.size, info.chunkSize);
      if r.index < 0 || r.index >= total {
        return Err(InvalidIndex);
      }
      if r.index != total - 1 {
        if |data| != info.chunkSize {
          return Err(InvalidLength);
        }
      } else {
        var expected := info.size % info.chunkSize;
        if expected == 0 {
          expected := info.chunkSize;
        }
        if |data| != expected {
          return Err(InvalidLength);
        }
      }
      if crc(data) != r.crc {
        return Err(InvalidChecksum);
      }
      if r.index in info.uploaded {
        return Ok(info);
      }
      if !io.chunk {
        return Err(ChunkNotStored);
      }
      chunks := chunks[(r.id, r.index) := Chunk(r.crc, data)];
      info := info.(uploaded := Insert(info.uploaded, r.index));
      if |info.uploaded| == total {
        info := info.(state := Complete, uploaded := []);
      }
      if !io.info {
        return Err(InfoNotStored);
      }
      infos := infos[r.id := info];
      res := Ok(info);
    }

    method PackagePush(r: Request, crc: Crc, io: Io) returns (res: Result<FileInfo, Error>)
      requires WellFormed(State())
      modifies this
      ensures (State(), res) == Push(old(State()), r, crc, io)
    {
      var invalid := Validate(r);
      if invalid.Some? {
        return Err(invalid.value);
      }
      var info;
      if r.id in infos {
        info := infos[r.id];
        if info.state == Complete {
          if !r.overwrite {
            return Ok(info);
          }
          if r.index != 0 {
            return Err(MetaNotFound);
          }
          DeleteChunks(r.id, TotalChunks(info.size, info.chunkSize));
          info := NewInfo(r);
        }
      } else {
        if r.index != 0 {
          return Err(MetaNotFound);
        }
        info := NewInfo(r);
      }
      res := AcceptChunk(r, info, crc, io);
    }

    /** Serves one chunk of a complete package. */
    method PackageChunk(id: string, index: int) returns (res: Result<Chunk, Error>)
      requires WellFormed(State())
      ensures res ==
              if id == "" then Err(IdRequired)
              else if index < 0 then Err(InvalidIndex)
              else if id !in infos || infos[id].state != Complete then Err(NotReady)
              else if index >= TotalChunks(infos[id].size, infos[id].chunkSize) then Err(InvalidIndex)
              else if (id, index) !in chunks then Err(ChunkNotFound)
              else Ok(chunks[(id, index)])
    {
      if id == "" {
        return Err(IdRequired);
      }
      if index < 0 {
        return Err(InvalidIndex);
      }
      if id !in infos || infos[id].state != Complete {
        return Err(NotReady);
      }
      if index >= TotalChunks(infos[id].size, infos[id].chunkSize) {
        return Err(InvalidIndex);
      }
      if (id, index) !in chunks {
        return Err(ChunkNotFound);
      }
      res := Ok(chunks[(id, index)]);
    }
  }

  /** Fetches and joins the chunks; info is the description the package list gave. */
  method PackageDownload(server: PackageServer, id: string, info: FileInfo, crc: Crc)
    returns (res: Result<seq<byte>, Error>)
    requires WellFormed(server.State()) && info.chunkSize > 0
    ensures res.Ok? ==>
              && (forall i :: 0 <= i < TotalChunks(info.size, info.chunkSize) ==> (id, i) in server.chunks)
              && res.value == Joined(server.State(), id, TotalChunks(info.size, info.chunkSize))
    ensures (id != "" && id in server.infos && info == server.infos[id] && info.state == Complete
             && Invariant(server.State(), crc)) ==> res.Ok?
  {
    var total := TotalChunks(info.size, info.chunkSize);
    var file := [];
    var i := 0;
    while i < total
      invariant 0 <= i && (i <= total || i == 0)
      invariant forall k :: 0 <= k < i ==> (id, k) in server.chunks
      invariant file == Joined(server.State(), id, i)
    {
      assert (id in server.infos && info == server.infos[id] && info.state == Complete
              && Invariant(server.State(), crc)) ==> Stored(server.State(), id, info, i, crc);
      var chunk := server.PackageChunk(id, i);
      if chunk.Err? {
        return Err(chunk.error);
      }
      if crc(chunk.value.data) != chunk.value.crc {
        return Err(InvalidChecksum);
      }
      file := file + chunk.value.data;
      i := i + 1;
    }
    res := Ok(file);
  }

  /** Reads up to a buffer full at an offset, as from a regular file. */
  method ReadAt(file: seq<byte>, offset: nat, buffer: array<byte>) returns (n: nat)
    requires offset <= |file|
    modifies buffer
    ensures n == if |file| - offset < buffer.Length then |file| - offset else buffer.Length
    ensures buffer[..n] == file[offset..offset + n]
  {
    n := if |file| - offset < buffer.Length then |file| - offset else buffer.Length;
    for i := 0 to n
      invariant buffer[..i] == file[offset..offset + i]
    {
      buffer[i] := file[offset + i];
    }
  }

  function ClientRequest(id: string, file: seq<byte>, index: int, overwrite: bool, crc: Crc): Request
    requires 0 <= index && index * CHUNK_SIZE <= |file|
  {
    var data := Slice(file, index);
    Request(id, index, crc(data), Some(data), if index == 0 then Some(Header(true, |file|)) else None,
            |file|, CHUNK_SIZE, overwrite)
  }

  /** Where the client is after k chunks: they are all in, or the package is complete already. */
  ghost predicate Progress(s: Store, id: string, k: int) {
    k > 0 ==> id in s.infos && (s.infos[id].state == Complete || forall j :: 0 <= j < k ==> j in s.infos[id].uploaded)
  }

  lemma ClientStep(s: Store, id: string, file: seq<byte>, k: int, overwrite: bool, crc: Crc)
    requires Invariant(s, crc) && FromFile(s, id, file) && Progress(s, id, k) && (IsComplete(s, id) ==> !overwrite)
    requires id != "" && 0 < |file| <= PACKAGE_MAX_SIZE && 0 <= k < TotalChunks(|file|, CHUNK_SIZE)
    ensures k * CHUNK_SIZE <= |file| && WellFormed(s)
    ensures var (t, res) := Push(s, ClientRequest(id, file, k, overwrite, crc), crc, Io(true, true));
            && Invariant(t, crc) && FromFile(t, id, file) && Progress(t, id, k + 1)
            && res.Ok? && t.infos[id] == res.value
  {
    SliceLength(file, k);
    InvariantWellFormed(s, crc);
    var r := ClientRequest(id, file, k, overwrite, crc);
    PushKeepsInvariant(s, r, crc, Io(true, true));
    PushKeepsContent(s, r, id, file, crc, Io(true, true));
    ClientProgress(s, id, file, k, overwrite, crc);
  }

  lemma ClientProgress(s: Store, id: string, file: seq<byte>, k: int, overwrite: bool, crc: Crc)
    requires Invariant(s, crc) && FromFile(s, id, file) && Progress(s, id, k) && WellFormed(s)
    requires IsComplete(s, id) ==> !overwrite
    requires id != "" && 0 < |file| <= PACKAGE_MAX_SIZE && 0 <= k < TotalChunks(|file|, CHUNK_SIZE)
    requires k * CHUNK_SIZE <= |file|
    ensures var (t, res) := Push(s, ClientRequest(id, file, k, overwrite, crc), crc, Io(true, true));
            Progress(t, id, k + 1) && res.Ok? && t.infos[id] == res.value
  {
    ClientAnswer(s, id, file, k, overwrite, crc);
    var r := ClientRequest(id, file, k, overwrite, crc);
    var info := if id in s.infos then s.infos[id] else NewInfo(r);
    hide Push, Insert, TotalChunks, Slice, Invariant, FromFile, WellFormed, ClientRequest, NewInfo, InfoOk;
    assert id !in s.infos ==> k == 0;
    InsertMembers(info.uploaded, k);
  }

  /** What the server answers to the next chunk of an upload, and that it has it then. */
  lemma ClientAnswer(s: Store, id: string, file: seq<byte>, k: int, overwrite: bool, crc: Crc)
    requires FromFile(s, id, file) && Progress(s, id, k) && WellFormed(s) && (IsComplete(s, id) ==> !overwrite)
    requires id != "" && 0 < |file| <= PACKAGE_MAX_SIZE && 0 <= k < TotalChunks(|file|, CHUNK_SIZE)
    requires k * CHUNK_SIZE <= |file|
    ensures var r := ClientRequest(id, file, k, overwrite, crc);
            var info := if id in s.infos then s.infos[id] else NewInfo(r);
            var next := if info.state == Complete || k in info.uploaded then info else Recorded(info, k);
            && Push(s, r, crc, Io(true, true)).1 == Ok(next)
            && Push(s, r, crc, Io(true, true)).0.infos == (if next == info then s.infos else s.infos[id := next])
            && (next == info ==> id in s.infos)
  {
    SliceLength(file, k);
    hide Insert, ChunkLength, TotalChunks, Slice, Invariant;
  }

  /** The first chunk that replaces a complete package. */
  lemma ClientReplaces(s: Store, id: string, file: seq<byte>, crc: Crc)
    requires Invariant(s, crc) && WellFormed(s) && IsComplete(s, id)
    requires id != "" && 0 < |file| <= PACKAGE_MAX_SIZE
    ensures var (t, res) := Push(s, ClientRequest(id, file, 0, true, crc), crc, Io(true, true));
            && Invariant(t, crc) && FromFile(t, id, file) && Progress(t, id, 1)
            && res.Ok? && t.infos[id] == res.value
  {
    SliceLength(file, 0);
    var r, io := ClientRequest(id, file, 0, true, crc), Io(true, true);
    OverwriteIsNotAtomic(s, r, crc, io);
    ReplacementBegins(s, r, file, crc, io);
    ChunkIsRecorded(s, r, crc, io);
    hide Push, Invariant, WellFormed, FromFile, Slice, TotalChunks;
  }

  lemma {:induction false} AllIndicesCount(u: seq<int>, n: int)
    requires Increasing(u) && n >= 0
    requires (forall j :: 0 <= j < n ==> j in u) && (forall x :: x in u ==> 0 <= x < n)
    ensures |u| >= n
    decreases n
  {
    if n > 0 {
      assert n - 1 in u;
      var last := |u| - 1;
      assert u[last] == n - 1 by {
        var k :| 0 <= k < |u| && u[k] == n - 1;
        assert u[last] in u;
      }
      var front := u[..last];
      assert u == front + [u[last]];
      forall x | x in front ensures 0 <= x < n - 1 {
        var k :| 0 <= k < last && u[k] == x;
        assert u[k] in u && u[k] < u[last];
      }
      forall j | 0 <= j < n - 1 ensures j in front {
        assert j in u;
        var k :| 0 <= k < |u| && u[k] == j;
        assert front[k] == j;
      }
      AllIndicesCount(front, n - 1);
    }
  }

  lemma ProgressEnds(s: Store, id: string, file: seq<byte>, crc: Crc)
    requires Invariant(s, crc) && FromFile(s, id, file) && |file| > 0
    requires Progress(s, id, TotalChunks(|file|, CHUNK_SIZE))
    ensures id in s.infos && s.infos[id].state == Complete
  {
    var info, total := s.infos[id], TotalChunks(|file|, CHUNK_SIZE);
    assert InfoOk(s, id, info, crc);
    if info.state == Uploading {
      forall x | x in info.uploaded ensures 0 <= x < total {
        var k :| 0 <= k < |info.uploaded| && info.uploaded[k] == x;
        assert Stored(s, id, info, info.uploaded[k], crc);
      }
      AllIndicesCount(info.uploaded, total);
    }
  }

  /**
   The client: slices the file chunk by chunk through one buffer and stops when
   the server reports the package complete. It succeeds for every non-empty file
   within the size bound: it uploads a new package, resumes an upload of that file,
   and replaces a complete package when asked to, which it leaves as it is otherwise.
   */
  method PushFile(server: PackageServer, id: string, file: seq<byte>, overwrite: bool, crc: Crc)
    returns (res: Result<(), Error>)
    requires Invariant(server.State(), crc) && id != ""
    modifies server
    ensures |file| == 0 ==> res == Err(Incomplete)
    ensures |file| > PACKAGE_MAX_SIZE ==> res == Err(TooLarge)
    ensures 0 < |file| <= PACKAGE_MAX_SIZE && old(Ready(server.State(), id, file)) ==> res == Ok(())
    ensures Invariant(server.State(), crc) && OthersKept(old(server.State()), server.State(), id)
    ensures res.Ok? ==> id in server.infos && server.infos[id].state == Complete
    ensures res.Ok? ==>
              var total := TotalChunks(server.infos[id].size, CHUNK_SIZE);
              && (forall i :: 0 <= i < total ==> (id, i) in server.chunks)
              && (overwrite || old(!IsComplete(server.State(), id)) ==>
                    (Joined(server.State(), id, total) == file <==> old(Ready(server.State(), id, file))))
    ensures !(0 < |file| <= PACKAGE_MAX_SIZE) || (!overwrite && old(IsComplete(server.State(), id))) ==>
              server.State() == old(server.State())
  {
    InvariantWellFormed(server.State(), crc);
    ghost var start := server.State();
    hide Push, Invariant, WellFormed, FromFile, OthersKept, Progress, Slice, Joined, Grows, Ready;
    NothingPushed(start, id);
    var total := TotalChunks(|file|, CHUNK_SIZE);
    var buffer := new byte[CHUNK_SIZE];
    var index := 0;
    while index < total
      invariant 0 <= index <= total && (index > 0 ==> |file| <= PACKAGE_MAX_SIZE)
      invariant WellFormed(server.State()) && Invariant(server.State(), crc)
      invariant Pushed(start, server.State(), id, file, index, overwrite)
    {
      SliceLength(file, index);
      var n := ReadAt(file, index * CHUNK_SIZE, buffer);
      var data := buffer[..n];
      assert data == Slice(file, index);
      var r := Request(id, index, crc(data), Some(data), if index == 0 then Some(Header(true, |file|)) else None,
                       |file|, CHUNK_SIZE, overwrite);
      ClientPush(start, server.State(), id, file, index, overwrite, crc);
      var reply := server.PackagePush(r, crc, Io(true, true));
      if reply.Err? {
        return Err(reply.error);
      }
      if reply.value.state == Complete {
        CompletedContent(start, server.State(), id, file, overwrite, crc);
        return Ok(());
      }
      index := index + 1;
    }
    if 0 < |file| && Ready(start, id, file) {
      ProgressEnds(server.State(), id, file, crc);
    }
    res := Err(Incomplete);
  }

  /** The package is new, complete, or an unfinished upload of this very file. */
  ghost predicate Ready(s: Store, id: string, file: seq<byte>) {
    FromFile(s, id, file) || IsComplete(s, id)
  }

  /** How the store of a client that began at another one looks after k chunks. */
  ghost predicate Pushed(start: Store, s: Store, id: string, file: seq<byte>, k: int, overwrite: bool) {
    && OthersKept(start, s, id)
    && (k == 0 ==> s == start)
    && (k > 0 ==>
          && !IsComplete(s, id) && Grows(start, s, id) && (overwrite || !IsComplete(start, id))
          && (Ready(start, id, file) ==> FromFile(s, id, file) && Progress(s, id, k)))
  }

  /** How it looks when the server reports the package complete. */
  ghost predicate Completed(start: Store, s: Store, id: string, file: seq<byte>, overwrite: bool) {
    && OthersKept(start, s, id) && IsComplete(s, id)
    && if !overwrite && IsComplete(start, id) then s == start
       else Grows(start, s, id) && (Ready(start, id, file) ==> FromFile(s, id, file))
  }

  lemma NothingPushed(s: Store, id: string)
    ensures OthersKept(s, s, id)
  {
  }

  /** The next push of the client: what the server answers, and what it has then. */
  lemma ClientPush(start: Store, s: Store, id: string, file: seq<byte>, k: int, overwrite: bool, crc: Crc)
    requires Invariant(s, crc) && WellFormed(s) && Pushed(start, s, id, file, k, overwrite)
    requires id != "" && 0 < |file| && 0 <= k < TotalChunks(|file|, CHUNK_SIZE)
    requires k > 0 ==> |file| <= PACKAGE_MAX_SIZE
    ensures k * CHUNK_SIZE <= |file|
    ensures var (t, res) := Push(s, ClientRequest(id, file, k, overwrite, crc), crc, Io(true, true));
            && WellFormed(t) && Invariant(t, crc) && OthersKept(start, t, id)
            && (|file| > PACKAGE_MAX_SIZE ==> res == Err(TooLarge) && t == s)
            && (|file| <= PACKAGE_MAX_SIZE && Ready(start, id, file) ==> res.Ok?)
            && (res.Ok? ==> id in t.infos && t.infos[id] == res.value)
            && (res.Ok? && res.value.state == Complete ==> Completed(start, t, id, file, overwrite))
            && (res.Ok? && res.value.state == Uploading ==> Pushed(start, t, id, file, k + 1, overwrite))
  {
    SliceLength(file, k);
    var r, io := ClientRequest(id, file, k, overwrite, crc), Io(true, true);
    var (t, res) := Push(s, r, crc, io);
    PushWellFormed(s, r, crc, io);
    PushTouchesOne(s, r, crc, io);
    OthersKeptTransitive(start, s, t, id);
    PushGrows(s, r, crc, io);
    if |file| > PACKAGE_MAX_SIZE {
      assert res == Err(TooLarge) && t == s;
    } else if IsComplete(s, id) {
      assert s == start;
      if overwrite {
        ClientReplaces(s, id, file, crc);
      }
      hide Push, Invariant, WellFormed, FromFile, TotalChunks, OthersKept, ClientRequest, Slice, Grows;
    } else {
      PushKeepsInvariant(s, r, crc, io);
      hide Push, Invariant, WellFormed, FromFile, TotalChunks, OthersKept, ClientRequest, Slice;
      if Ready(start, id, file) {
        ClientStep(s, id, file, k, overwrite, crc);
      }
      if res.Ok? {
        ChunkIsRecorded(s, r, crc, io);
      }
      if k > 0 {
        GrowsTransitive(start, s, t, id);
      }
      hide Grows;
    }
  }

  /** What was pushed is the file exactly when the package was ready for it. */
  lemma CompletedContent(start: Store, t: Store, id: string, file: seq<byte>, overwrite: bool, crc: Crc)
    requires Invariant(start, crc) && Invariant(t, crc) && Completed(start, t, id, file, overwrite) && |file| > 0
    ensures var total := TotalChunks(t.infos[id].size, CHUNK_SIZE);
            && (forall i :: 0 <= i < total ==> (id, i) in t.chunks)
            && (overwrite || !IsComplete(start, id) ==>
                  (Joined(t, id, total) == file <==> Ready(start, id, file)))
  {
    var info, total := t.infos[id], TotalChunks(t.infos[id].size, CHUNK_SIZE);
    assert InfoOk(t, id, info, crc);
    forall i | 0 <= i < total
      ensures (id, i) in t.chunks
    {
      assert Stored(t, id, info, i, crc);
    }
    hide Joined, Invariant, InfoOk, Slice, TotalChunks, Stored;
    if overwrite || !IsComplete(start, id) {
      if Ready(start, id, file) {
        CompleteIsFile(t, id, file);
      } else if Joined(t, id, total) == file {
        ResumedContent(start, t, id, file, crc);
      }
    }
  }
}
