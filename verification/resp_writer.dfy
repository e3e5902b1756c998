/**
 The gateway's response writer: it holds back the beginning of a body until the
 response is known to be large or is flushed, then commits the headers and passes
 everything on, compressed when that is allowed. The client is reached through a
 rate-limited writer that works in chunks.
 */
module RespWriter {
  import opened Common

  const CHUNK_SIZE := 4096
  const GZIP_MIN_SIZE := 1024
  const STATUS_OK := 200

  datatype Header = Header(contentType: string, contentEncoding: string, contentRange: string,
                           contentLength: Option<nat>)

  predicate OccursAt(s: string, part: string, i: int) {
    0 <= i <= |s| - |part| && s[i..i + |part|] == part
  }

  predicate Contains(s: string, part: string) {
    exists i :: 0 <= i <= |s| - |part| && OccursAt(s, part, i)
  }

  predicate EventStream(h: Header) {
    Contains(h.contentType, "text/event-stream")
  }

  /** skipped: the request path ends in one of the extensions that are compressed already. */
  predicate GzipEligible(accepted: bool, h: Header, skipped: bool) {
    && accepted && h.contentEncoding == "" && h.contentRange == ""
    && !EventStream(h) && !Contains(h.contentType, "image/") && !Contains(h.contentType, "video/")
    && !skipped
  }

  datatype Commit = Commit(status: int, header: Header)

  // ---- The rate-limited connection ----

  /** What becomes of one chunk: not admitted by the limiter, cut by the connection after some bytes, or taken. */
  datatype Fate = Refused | Cut(size: nat) | Taken

  class Client {
    /** The fate of every chunk, in the order in which the chunks are sent. */
    const fate: nat -> Fate
    var sent: nat
    var commits: seq<Commit>
    var body: seq<byte>

    constructor (fate: nat -> Fate)
      ensures this.fate == fate && sent == 0 && commits == [] && body == []
    {
      this.fate, sent, commits, body := fate, 0, [], [];
    }

    /** Every chunk sent from the given one on was taken. */
    ghost predicate TakenSince(from: nat)
      reads this
    {
      forall k: nat :: from <= k < sent ==> fate(k).Taken?
    }

    method WriteHeader(status: int, header: Header)
      modifies `commits
      ensures commits == old(commits) + [Commit(status, header)]
    {
      commits := commits + [Commit(status, header)];
    }

    /** One chunk: the wait for the limiter, then the connection. */
    method WriteChunk(p: seq<byte>) returns (n: nat, ok: bool)
      requires |p| <= CHUNK_SIZE
      modifies `body, `sent
      ensures sent == old(sent) + 1 && ok == fate(old(sent)).Taken? && n <= |p|
      ensures n == match fate(old(sent))
                   case Refused => 0
                   case Cut(size) => if size < |p| then size else |p|
                   case Taken => |p|
      ensures body == old(body) + p[..n]
    {
      var f := fate(sent);
      sent := sent + 1;
      n := match f case Refused => 0 case Cut(size) => if size < |p| then size else |p| case Taken => |p|;
      body := body + p[..n];
      ok := f.Taken?;
    }

    /**
     In chunks. What was written is a prefix; it succeeds exactly when every chunk
     was taken, and then that is all of it. It ends with the first chunk that was not.
     */
    method Write(p: seq<byte>) returns (n: nat, ok: bool)
      modifies `body, `sent
      ensures old(sent) <= sent && n <= |p| && body == old(body) + p[..n]
      ensures ok == TakenSince(old(sent)) && (ok ==> n == |p|)
      ensures forall k: nat :: old(sent) <= k < sent - 1 ==> fate(k).Taken?
    {
      n := 0;
      assert old(body) + p[..0] == old(body);
      var i := 0;
      while i < |p|
        invariant 0 <= i <= |p| && n == i && body == old(body) + p[..n]
        invariant old(sent) <= sent && TakenSince(old(sent))
      {
        var end := if i + CHUNK_SIZE > |p| then |p| else i + CHUNK_SIZE;
        var m, written := WriteChunk(p[i..end]);
        Slices(p, i, end, m);
        n := n + m;
        if !written {
          return n, false;
        }
        i := end;
      }
      ok := true;
    }
  }

  lemma Slices(p: seq<byte>, i: nat, end: nat, m: nat)
    requires i <= end <= |p| && m <= end - i
    ensures p[..i] + p[i..end][..m] == p[..i + m]
  {
  }

  datatype Outcome = Written | WriteFailed | Aborted

  // ---- The response writer ----

  /** The compressed stream: what it was given, whether it is open, and whether a write of its output has failed. */
  datatype Gzip = Gzip(input: seq<byte>, open: bool, failed: bool)

  class ResponseWriter {
    const client: Client
    const respMaxSize: int
    const gzipAccept: bool
    const skipped: bool
    var header: Header
    var statusCode: int
    var writeSize: int
    var compSize: int
    var gzip: Option<Gzip>
    var headerDone: bool
    var capChecked: bool
    var capExempt: bool
    var buf: seq<byte>

    /** Everything that was written to this response and accepted. */
    ghost var accepted: seq<byte>
    ghost var finished: bool

    /** What was handed on: into the compressed stream, or to the client. */
    ghost function Handed(): seq<byte>
      reads this, client
    {
      if gzip.Some? then gzip.value.input else client.body
    }

    /** The client has taken every chunk. */
    ghost predicate Intact()
      reads this, client
    {
      client.TakenSince(0)
    }

    /**
     The client has taken what was sent from the given chunk on. A compressed stream
     keeps its first error and fails ever after, so there it is about all chunks.
     */
    ghost predicate Delivered(from: nat)
      reads this, client
    {
      client.TakenSince(if gzip.Some? then 0 else from)
    }

    ghost predicate Valid()
      reads this, client
    {
      && (!headerDone ==> Held())
      && (headerDone ==> |client.commits| == 1 && buf == [])
      && (Intact() ==> accepted == Handed() + buf)
      && compSize == |client.body| && writeSize == |accepted|
      && (gzip.Some? ==> headerDone && gzip.value.open == !finished && gzip.value.failed == !Intact()
                         && client.commits[0].header.contentEncoding == "gzip"
                         && client.commits[0].header.contentLength == None)
      && (respMaxSize > 0 && capChecked && !capExempt ==> writeSize <= respMaxSize)
      && (!capChecked ==> writeSize == 0)
      && (!headerDone ==> |buf| < GZIP_MIN_SIZE && !finished)
    }

    /** Nothing has gone to the client yet; all that was accepted is held. */
    ghost predicate Held()
      reads this, client
    {
      !headerDone && client.commits == [] && client.body == [] && client.sent == 0 && gzip.None? && accepted == buf
    }

    constructor (client: Client, respMaxSize: int, gzipAccept: bool, skipped: bool)
      requires client.commits == [] && client.body == [] && client.sent == 0
      ensures Valid() && this.client == client && !headerDone && accepted == [] && !finished && !capChecked
      ensures this.respMaxSize == respMaxSize && this.gzipAccept == gzipAccept && this.skipped == skipped
              && statusCode == 0
    {
      this.client, this.respMaxSize, this.gzipAccept, this.skipped := client, respMaxSize, gzipAccept, skipped;
      header := Header("", "", "", None);
      statusCode, writeSize, compSize := 0, 0, 0;
      gzip, headerDone, capChecked, capExempt := None, false, false, false;
      buf, accepted, finished := [], [], false;
    }

    /** The first status counts. */
    method WriteHeader(status: int)
      requires Valid()
      modifies `statusCode
      ensures Valid() && statusCode == if old(statusCode) == 0 then status else old(statusCode)
    {
      if statusCode == 0 {
        statusCode := status;
      }
    }

    /** The upstream's headers, copied before or after the commit. */
    method SetHeader(h: Header)
      requires Valid()
      modifies `header
      ensures Valid() && header == h
    {
      header := h;
    }

    /**
     What the one commit says: the status, or 200 for none, and the headers as they
     were; compressed, without a length and marked as such, exactly when the client
     accepts it, the response is not encoded, not a part, not a stream of events, not
     an image or a video, and the path is not one of a compressed kind.
     */
    ghost predicate CommittedOnce(status: int, h: Header)
      reads this, client
    {
      && headerDone && |client.commits| == 1
      && client.commits[0].status == (if status > 0 then status else 200)
      && (gzip.Some? <==>
            gzipAccept && h.contentEncoding == "" && h.contentRange == ""
            && !Contains(h.contentType, "text/event-stream") && !Contains(h.contentType, "image/")
            && !Contains(h.contentType, "video/") && !skipped)
      && client.commits[0].header ==
         if gzip.Some? then h.(contentEncoding := "gzip", contentLength := None) else h
    }

    /**
     A chunk of the body. It is refused exactly when it would exceed the cap; then
     the client sees nothing of it. Otherwise it is the next part of what is accepted,
     and the write fails exactly when the client does not take a chunk of it, or, with
     compression, has ever not taken one.
     */
    method Write(b: seq<byte>) returns (outcome: Outcome)
      requires Valid() && !finished
      modifies this, client`body, client`sent, client`commits
      ensures Valid() && !finished && old(client.sent) <= client.sent
      ensures outcome == Aborted <==>
              respMaxSize > 0 && |old(accepted)| + |b| > respMaxSize
              && !(if old(capChecked) then old(capExempt) else Contains(old(header).contentType, "text/event-stream"))
      ensures capChecked && capExempt ==
              if old(capChecked) then old(capExempt) else Contains(old(header).contentType, "text/event-stream")
      ensures outcome == Aborted ==>
                accepted == old(accepted) && buf == old(buf) && client.body == old(client.body)
                    && client.sent == old(client.sent)
      ensures outcome != Aborted ==> accepted == old(accepted) + b
      ensures outcome == WriteFailed <==> outcome != Aborted && !Delivered(old(client.sent))
      ensures old(headerDone) ==> headerDone && client.commits == old(client.commits)
      ensures !old(headerDone) && outcome != Aborted ==> (headerDone <==> |old(buf)| + |b| >= 1024)
      ensures headerDone && !old(headerDone) ==> CommittedOnce(old(statusCode), old(header))
    {
      hide GzipEligible, CommittedOnce;
      if !capChecked {
        capChecked := true;
        capExempt := EventStream(header);
      }
      if respMaxSize > 0 && !capExempt && writeSize + |b| > respMaxSize {
        return Aborted;
      }
      var ok := Take(b);
      outcome := if ok then Written else WriteFailed;
    }

    /** A chunk within the cap: streamed, or added to what is held. */
    method Take(b: seq<byte>) returns (ok: bool)
      requires Valid() && !finished && capChecked
      requires respMaxSize > 0 && !capExempt ==> writeSize + |b| <= respMaxSize
      modifies this, client`body, client`sent, client`commits
      ensures Valid() && !finished && old(client.sent) <= client.sent
      ensures accepted == old(accepted) + b && ok == Delivered(old(client.sent))
      ensures old(headerDone) ==> headerDone && client.commits == old(client.commits)
      ensures capChecked && capExempt == old(capExempt)
      ensures !old(headerDone) ==> (headerDone <==> |old(buf)| + |b| >= GZIP_MIN_SIZE)
      ensures headerDone && !old(headerDone) ==> CommittedOnce(old(statusCode), old(header))
    {
      hide GzipEligible, CommittedOnce;
      writeSize := writeSize + |b|;
      accepted := accepted + b;
      if headerDone {
        ok := Stream(b);
      } else {
        buf := buf + b;
        ok := CommitIfLarge();
      }
    }

    /** The committed response goes on; b was accepted just now. */
    method Stream(b: seq<byte>) returns (ok: bool)
      requires headerDone && |client.commits| == 1 && buf == [] && !finished
      requires |b| <= |accepted| && (Intact() ==> accepted == Handed() + b)
      requires compSize == |client.body| && writeSize == |accepted| && (!capChecked ==> writeSize == 0)
      requires gzip.Some? ==>
                 gzip.value.open && gzip.value.failed == !Intact()
                 && client.commits[0].header.contentEncoding == "gzip"
                 && client.commits[0].header.contentLength == None
      requires respMaxSize > 0 && capChecked && !capExempt ==> writeSize <= respMaxSize
      modifies `gzip, `compSize, client`body, client`sent
      ensures Valid() && old(client.sent) <= client.sent && ok == Delivered(old(client.sent))
    {
      ok := WriteBody(b);
      assert b[..|b|] == b;
      assert Intact() ==> Handed() + [] == Handed();
    }

    /** A body that has reached the threshold is streamed from now on. */
    method CommitIfLarge() returns (ok: bool)
      requires Committable()
      modifies this, client`body, client`sent, client`commits
      ensures Valid() && !finished && accepted == old(accepted) && statusCode == old(statusCode)
      ensures old(client.sent) <= client.sent && ok == client.TakenSince(old(client.sent))
      ensures headerDone <==> |old(buf)| >= GZIP_MIN_SIZE
      ensures headerDone ==> CommittedOnce(old(statusCode), old(header))
      ensures capChecked == old(capChecked) && capExempt == old(capExempt)
    {
      if |buf| < GZIP_MIN_SIZE {
        return true;
      }
      ok := CommitHeaders(GzipEligible(gzipAccept, header, skipped));
    }

    /** All that was accepted is held, as much as the cap allows. */
    ghost predicate Committable()
      reads this, client
    {
      && Held() && !finished && writeSize == |accepted| && compSize == 0
      && (respMaxSize > 0 && capChecked && !capExempt ==> writeSize <= respMaxSize)
      && (!capChecked ==> writeSize == 0)
    }

    /** The one commit that there is carries this status, or 200 for none. */
    ghost predicate Committed(status: int)
      reads this, client
    {
      headerDone && |client.commits| == 1 && client.commits[0].status == if status > 0 then status else STATUS_OK
    }

    /**
     Hands bytes on, into the compressed stream when there is one, which may pass some
     output on, and takes nothing more after a failure.
     */
    method WriteBody(b: seq<byte>) returns (ok: bool)
      requires headerDone && compSize == |client.body|
      requires gzip.Some? ==> gzip.value.open && gzip.value.failed == !Intact()
      modifies `gzip, `compSize, client`body, client`sent
      ensures compSize == |client.body| && old(client.sent) <= client.sent
      ensures ok == Delivered(old(client.sent)) && gzip.Some? == old(gzip.Some?)
      ensures gzip.Some? ==>
                var input := old(gzip.value.input);
                gzip.value == Gzip(if old(Intact()) then input + b else input, true, !Intact())
      ensures gzip.Some? && !old(Intact()) ==> client.body == old(client.body) && client.sent == old(client.sent)
      ensures gzip.None? ==> exists n :: 0 <= n <= |b| && client.body == old(client.body) + b[..n] && (ok ==> n == |b|)
    {
      if gzip.Some? {
        if gzip.value.failed {
          return false;
        }
        gzip := Some(gzip.value.(input := gzip.value.input + b));
        ok := EmitCompressed();
      } else {
        var n;
        n, ok := client.Write(b);
        compSize := compSize + n;
      }
    }

    /** The compressed stream, sound so far, writes out some of its output; how much is its own affair. */
    method EmitCompressed() returns (ok: bool)
      requires compSize == |client.body| && gzip.Some? && !gzip.value.failed && Intact()
      modifies `gzip, `compSize, client`body, client`sent
      ensures compSize == |client.body| && old(client.sent) <= client.sent
      ensures ok == Intact() && gzip == Some(old(gzip.value).(failed := !ok))
    {
      var out: seq<byte> := *;
      var n;
      n, ok := client.Write(out);
      compSize := compSize + n;
      gzip := Some(gzip.value.(failed := !ok));
    }

    /** Sends the headers, then what was held back. */
    method CommitHeaders(gzipOn: bool) returns (ok: bool)
      requires Committable()
      modifies this, client`body, client`sent, client`commits
      ensures Valid() && headerDone && Committed(statusCode) && !finished
      ensures old(client.sent) <= client.sent && ok == client.TakenSince(old(client.sent))
      ensures accepted == old(accepted) && statusCode == old(statusCode)
      ensures gzip.Some? == gzipOn && capChecked == old(capChecked) && capExempt == old(capExempt)
      ensures client.commits[0].header ==
              if gzipOn then old(header).(contentEncoding := "gzip", contentLength := None) else old(header)
    {
      if gzipOn {
        header := header.(contentLength := None, contentEncoding := "gzip");
        gzip := Some(Gzip([], true, false));
      }
      headerDone := true;
      client.WriteHeader(if statusCode > 0 then statusCode else STATUS_OK, header);
      if |buf| == 0 {
        return true;
      }
      ok := WriteBody(buf);
      assert ok ==> buf[..|buf|] == buf && [] + buf == buf && buf + [] == buf;
      buf := [];
    }

    /** Commits if need be, and pushes on what the compressed stream holds. */
    method Flush()
      requires Valid() && !finished
      modifies this, client`body, client`sent, client`commits
      ensures Valid() && !finished && headerDone && accepted == old(accepted) && old(client.sent) <= client.sent
      ensures old(headerDone) ==> client.commits == old(client.commits)
      ensures !old(headerDone) ==> CommittedOnce(old(statusCode), old(header))
    {
      if !headerDone {
        var _ := CommitHeaders(GzipEligible(gzipAccept, header, skipped));
      }
      if gzip.Some? && !gzip.value.failed {
        var _ := EmitCompressed();
      }
    }

    /**
     Ends the response. If the client has taken every chunk, what was handed on, to
     the compressed stream or to the client, is everything that was accepted, in
     order; without compression both counters agree. Headers were committed exactly
     once, and a response that was never streamed carries its length.
     */
    method Finish()
      requires Valid() && !finished
      modifies this, client`body, client`sent, client`commits
      ensures Valid() && finished && headerDone && |client.commits| == 1 && buf == []
      ensures accepted == old(accepted) && writeSize == |accepted|
      ensures client.TakenSince(0) && gzip.Some? ==> gzip.value == Gzip(accepted, false, false)
      ensures client.TakenSince(0) && gzip.None? ==> client.body == accepted && compSize == writeSize
      ensures old(headerDone) ==> client.commits == old(client.commits)
      ensures !old(headerDone) ==>
                && gzip.None? && client.commits[0].status == (if old(statusCode) > 0 then old(statusCode) else 200)
                && client.commits[0].header ==
                   if |accepted| > 0 then old(header).(contentLength := Some(|accepted|)) else old(header)
    {
      if gzip.Some? {
        gzip := Some(gzip.value.(open := false));
        if !gzip.value.failed {
          var _ := EmitCompressed();
        }
      }
      if !headerDone {
        if |buf| > 0 {
          header := header.(contentLength := Some(|buf|));
        }
        var _ := CommitHeaders(false);
      }
      finished := true;
      assert Intact() ==> Handed() + [] == Handed();
    }
  }
}
