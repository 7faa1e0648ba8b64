/** One client connection (`HttpConnection`) and its fixed input buffer
    (`InputBuffer`). Every read lands at the start of a 4096-byte buffer; the
    buffer's ready length and ready position count what the scan has not yet
    consumed. The connection scans the bytes from the start of the buffer for
    the first CR LF CR LF, which ends a header block (section 3 of RFC 7230);
    if found, the message is consumed and dispatched, otherwise everything is
    consumed and another read is issued. A failed read closes the socket.

    The socket is replaced by the events it delivers (`ReadEvent`); the
    dispatch itself (parse, route, respond) is recorded as the bytes the scan
    framed, in `dispatched`.

    `WaitForHttpMessage` rescans from the start of the buffer as the source
    does; `WaitForPending` is the rescan of the ready window that the source's
    comment describes, kept alongside for comparison. */
module Connection {
  import opened Wrappers

  /** `std::array<char, 4096> _buf`. */
  const Capacity: nat := 4096

  datatype InputBuffer = InputBuffer(buf: seq<char>, readyPos: nat, readyLength: nat)

  /** The buffer holds exactly `Capacity` bytes and the ready window lies
      inside it. */
  predicate Valid(b: InputBuffer) {
    |b.buf| == Capacity && b.readyPos + b.readyLength <= Capacity
  }

  /** A zero-initialised buffer with nothing ready. */
  function NewBuffer(): (b: InputBuffer)
    ensures Valid(b) && b.readyLength == 0 && b.readyPos == 0
    ensures forall i :: 0 <= i < Capacity ==> b.buf[i] == '\0'
  {
    InputBuffer(seq(Capacity, _ => '\0'), 0, 0)
  }

  /** What `async_read_some` into `makeAsioBuffer()` does to the memory: the
      chunk overwrites the front of the buffer, the rest is left as it was. */
  function Fill(b: InputBuffer, chunk: seq<char>): (r: InputBuffer)
    requires Valid(b) && |chunk| <= Capacity
    ensures |r.buf| == Capacity && r.buf[..|chunk|] == chunk && r.buf[|chunk|..] == b.buf[|chunk|..]
    ensures r.readyPos == b.readyPos && r.readyLength == b.readyLength
  {
    b.(buf := chunk + b.buf[|chunk|..])
  }

  /** `obtainedBytes(n)`: `n` bytes are ready, from position 0. */
  function ObtainedBytes(b: InputBuffer, n: nat): (r: InputBuffer)
    ensures r.readyLength == n && r.readyPos == 0 && r.buf == b.buf
    ensures Valid(b) && n <= Capacity ==> Valid(r)
  {
    b.(readyLength := n, readyPos := 0)
  }

  /** `consumedBytes(k)`: the ready window shrinks by `k` from the front; its
      end, position plus length, does not move. */
  function ConsumedBytes(b: InputBuffer, k: nat): (r: InputBuffer)
    requires k <= b.readyLength
    ensures r.readyLength == b.readyLength - k && r.readyPos == b.readyPos + k
    ensures r.readyPos + r.readyLength == b.readyPos + b.readyLength
    ensures r.buf == b.buf
    ensures Valid(b) ==> Valid(r)
  {
    b.(readyLength := b.readyLength - k, readyPos := b.readyPos + k)
  }

  /** `bytes()`: the ready bytes as the scan sees them, `length()` of them
      counted from the start of the buffer, wherever the ready position is. */
  function Bytes(b: InputBuffer): (s: seq<char>)
    requires Valid(b)
    ensures |s| == b.readyLength
    ensures forall i :: 0 <= i < |s| ==> s[i] == b.buf[i]
  {
    b.buf[..b.readyLength]
  }

  /** The four bytes at `i` are CR LF CR LF. */
  predicate TerminatorAt(s: seq<char>, i: nat) {
    i + 4 <= |s| && s[i] == '\r' && s[i + 1] == '\n' && s[i + 2] == '\r' && s[i + 3] == '\n'
  }

  /** The scan of `_consumeData`, from position `d` on: the first position at
      or after `d` that starts CR LF CR LF. Fewer than four bytes never match. */
  function ScanFrom(s: seq<char>, d: nat): (r: Option<nat>)
    ensures r.Some? ==>
      d <= r.value && TerminatorAt(s, r.value) && forall j :: d <= j < r.value ==> !TerminatorAt(s, j)
    ensures r.None? ==> forall j :: d <= j ==> !TerminatorAt(s, j)
    decreases |s| - d
  {
    if d + 4 > |s| then None
    else if TerminatorAt(s, d) then Some(d)
    else ScanFrom(s, d + 1)
  }

  /** The whole scan: the first CR LF CR LF in `s`, if any. */
  function FindTerminator(s: seq<char>): (r: Option<nat>)
    ensures r.Some? ==> TerminatorAt(s, r.value) && forall j :: 0 <= j < r.value ==> !TerminatorAt(s, j)
    ensures r.None? <==> forall j :: 0 <= j ==> !TerminatorAt(s, j)
  {
    ScanFrom(s, 0)
  }

  /** The scan finds the same first terminator when more bytes follow. */
  lemma FindTerminatorExtend(s: seq<char>, rest: seq<char>)
    requires FindTerminator(s).Some?
    ensures FindTerminator(s + rest) == FindTerminator(s)
  {
    var i := FindTerminator(s).value;
    var t := s + rest;
    assert TerminatorAt(t, i);
    forall j | 0 <= j < i
      ensures !TerminatorAt(t, j)
    {
      assert !TerminatorAt(s, j);
    }
    FirstTerminatorUnique(t, i);
  }

  /** A terminator with no earlier one is what the scan returns. */
  lemma FirstTerminatorUnique(s: seq<char>, i: nat)
    requires TerminatorAt(s, i)
    requires forall j :: 0 <= j < i ==> !TerminatorAt(s, j)
    ensures FindTerminator(s) == Some(i)
  {
  }

  /** A connection's phase: constructed and not yet started, a read is
      pending, a request was dispatched and nothing re-arms the connection
      (the response write is a stub, so the source releases the last
      reference and the connection is destroyed), or the socket is closed
      after a read error. */
  datatype Phase = Fresh | Reading | Done | Closed

  datatype Connection = Connection(input: InputBuffer, phase: Phase, dispatched: seq<seq<char>>)

  /** What a pending read completes with. */
  datatype ReadEvent = ReadOk(chunk: seq<char>) | ReadFailed

  predicate EventFits(e: ReadEvent) {
    e.ReadOk? ==> |e.chunk| <= Capacity
  }

  /** A connection as the accept loop creates it: empty buffer, nothing pending. */
  function NewConnection(): (c: Connection)
    ensures Valid(c.input) && c.input.readyLength == 0 && c.phase == Fresh && c.dispatched == []
  {
    Connection(NewBuffer(), Fresh, [])
  }

  /** `_consumeData(bytes(), length())`: on a terminator at `i`, consume
      `i + 4` bytes and dispatch once, after which nothing is pending because
      the response write does not schedule another wait; otherwise consume
      every ready byte and read again. */
  function ConsumeData(c: Connection): (r: Connection)
    requires Valid(c.input)
    ensures Valid(r.input) && r.input.buf == c.input.buf
    ensures r.input.readyPos + r.input.readyLength == c.input.readyPos + c.input.readyLength
    ensures FindTerminator(Bytes(c.input)).Some? ==>
      var i := FindTerminator(Bytes(c.input)).value;
      && r.input.readyLength == c.input.readyLength - (i + 4)
      && r.phase == Done
      && r.dispatched == c.dispatched + [c.input.buf[..i + 4]]
    ensures FindTerminator(Bytes(c.input)).None? ==>
      r.input.readyLength == 0 && r.phase == Reading && r.dispatched == c.dispatched
  {
    var data := Bytes(c.input);
    match FindTerminator(data)
    case Some(i) =>
      assert data[..i + 4] == c.input.buf[..i + 4];
      Connection(ConsumedBytes(c.input, i + 4), Done, c.dispatched + [data[..i + 4]])
    case None =>
      Connection(ConsumedBytes(c.input, c.input.readyLength), Reading, c.dispatched)
  }

  /** `waitForHttpMessage`: leftover ready bytes are scanned again (from the
      start of the buffer); with none, a read is issued. */
  function WaitForHttpMessage(c: Connection): (r: Connection)
    requires Valid(c.input)
    ensures Valid(r.input)
    ensures c.input.readyLength == 0 ==> r == c.(phase := Reading)
    ensures c.input.readyLength != 0 ==> r == ConsumeData(c)
  {
    if c.input.readyLength != 0 then ConsumeData(c) else c.(phase := Reading)
  }

  /** `_afterRead`: a successful read of `n` bytes makes them ready and scans
      them; a failed one closes the socket and scans nothing. */
  function AfterRead(c: Connection, e: ReadEvent): (r: Connection)
    requires Valid(c.input) && EventFits(e)
    ensures Valid(r.input)
    ensures e.ReadFailed? ==> r == c.(phase := Closed)
    ensures e.ReadOk? ==> r == ConsumeData(c.(input := ObtainedBytes(Fill(c.input, e.chunk), |e.chunk|)))
  {
    match e
    case ReadOk(chunk) => ConsumeData(c.(input := ObtainedBytes(Fill(c.input, chunk), |chunk|)))
    case ReadFailed => c.(phase := Closed)
  }

  /** After a successful read the scan sees exactly the chunk just read. */
  lemma ReadScansChunk(c: Connection, chunk: seq<char>)
    requires Valid(c.input) && |chunk| <= Capacity
    ensures Bytes(ObtainedBytes(Fill(c.input, chunk), |chunk|)) == chunk
  {
  }

  /** A read error closes the connection without scanning: the buffer and
      what was dispatched are untouched. */
  lemma ReadErrorCloses(c: Connection)
    requires Valid(c.input)
    ensures AfterRead(c, ReadFailed).phase == Closed
    ensures AfterRead(c, ReadFailed).input == c.input
    ensures AfterRead(c, ReadFailed).dispatched == c.dispatched
  {
  }

  /** One read holding a complete header block is dispatched, framed up to and
      including its first CR LF CR LF, and the bytes after it stay ready. */
  lemma ReadWithTerminator(c: Connection, chunk: seq<char>)
    requires Valid(c.input) && |chunk| <= Capacity && FindTerminator(chunk).Some?
    ensures var i := FindTerminator(chunk).value;
      var r := AfterRead(c, ReadOk(chunk));
      && r.dispatched == c.dispatched + [chunk[..i + 4]]
      && r.phase == Done
      && r.input.readyPos == i + 4
      && r.input.readyLength == |chunk| - (i + 4)
  {
    var b := ObtainedBytes(Fill(c.input, chunk), |chunk|);
    ReadScansChunk(c, chunk);
    var i := FindTerminator(chunk).value;
    assert b.buf[..i + 4] == chunk[..i + 4];
  }

  /** A read without a complete header block is consumed whole and another
      read is issued. */
  lemma ReadWithoutTerminator(c: Connection, chunk: seq<char>)
    requires Valid(c.input) && |chunk| <= Capacity && FindTerminator(chunk).None?
    ensures var r := AfterRead(c, ReadOk(chunk));
      && r.dispatched == c.dispatched
      && r.phase == Reading
      && r.input.readyPos == |chunk|
      && r.input.readyLength == 0
  {
    ReadScansChunk(c, chunk);
  }

  /** A CR LF CR LF split over two reads is never seen: each read is scanned
      on its own from the start of the buffer, so although the two chunks
      together hold a terminator, nothing is dispatched and the connection
      keeps reading. */
  lemma SplitTerminatorMissed(c: Connection, a: seq<char>, b: seq<char>)
    requires Valid(c.input) && c.phase == Reading
    requires 2 <= |a| <= Capacity && 2 <= |b| <= Capacity
    requires FindTerminator(a).None? && FindTerminator(b).None?
    requires a[|a| - 2..] == "\r\n" && b[..2] == "\r\n"
    ensures FindTerminator(a + b).Some?
    ensures var r := AfterRead(AfterRead(c, ReadOk(a)), ReadOk(b));
      r.dispatched == c.dispatched && r.phase == Reading
  {
    var ab := a + b;
    assert ab[|a| - 2] == a[|a| - 2] == '\r' && ab[|a| - 1] == a[|a| - 1] == '\n';
    assert ab[|a|] == b[0] == '\r' && ab[|a| + 1] == b[1] == '\n';
    assert TerminatorAt(ab, |a| - 2);
    ReadWithoutTerminator(c, a);
    ReadWithoutTerminator(AfterRead(c, ReadOk(a)), b);
  }

  /** The rescan in `waitForHttpMessage` reads from the start of the buffer:
      its outcome does not depend on the ready position at all. */
  lemma RescanIgnoresPosition(c: Connection, p: nat)
    requires Valid(c.input) && p + c.input.readyLength <= Capacity
    ensures var c' := c.(input := c.input.(readyPos := p));
      && WaitForHttpMessage(c').dispatched == WaitForHttpMessage(c).dispatched
      && WaitForHttpMessage(c').phase == WaitForHttpMessage(c).phase
      && WaitForHttpMessage(c').input.readyLength == WaitForHttpMessage(c).input.readyLength
  {
  }

  /** The pipelining consequence: two requests arriving in one read, the
      first no longer than the second. The first is dispatched and the second
      is left ready; a rescan of that leftover starts at the buffer's start,
      finds the first request's terminator again and dispatches the first
      request a second time, never the second. */
  lemma PipelineRescansFirst(c: Connection, m1: seq<char>, m2: seq<char>)
    requires Valid(c.input) && |m1| + |m2| <= Capacity
    requires 4 <= |m1| <= |m2|
    requires FindTerminator(m1) == Some(|m1| - 4) && FindTerminator(m2) == Some(|m2| - 4)
    ensures var r := AfterRead(c, ReadOk(m1 + m2));
      && r.dispatched == c.dispatched + [m1]
      && r.input.readyPos == |m1| && r.input.readyLength == |m2|
      && WaitForHttpMessage(r).dispatched == c.dispatched + [m1] + [m1]
  {
    PipelinedRead(c, m1, m2);
    RescanFindsFirst(AfterRead(c, ReadOk(m1 + m2)), m1, m2);
  }

  /** The read step of `PipelineRescansFirst`: the first request is framed,
      the second is left ready, and both stay at the front of the buffer. */
  lemma PipelinedRead(c: Connection, m1: seq<char>, m2: seq<char>)
    requires Valid(c.input) && |m1| + |m2| <= Capacity && 4 <= |m1|
    requires FindTerminator(m1) == Some(|m1| - 4)
    ensures var r := AfterRead(c, ReadOk(m1 + m2));
      && r.dispatched == c.dispatched + [m1]
      && r.input.readyPos == |m1| && r.input.readyLength == |m2|
      && r.input.buf[..|m1| + |m2|] == m1 + m2
  {
    var chunk := m1 + m2;
    FindTerminatorExtend(m1, m2);
    assert chunk[..|m1|] == m1;
    ReadWithTerminator(c, chunk);
  }


  /** The rescan step of `PipelineRescansFirst`: with `m1 + m2` at the front
      of the buffer and `|m2|` bytes ready, the scan stops at `m1`'s end. */
  lemma RescanFindsFirst(r: Connection, m1: seq<char>, m2: seq<char>)
    requires Valid(r.input) && |m1| + |m2| <= Capacity && 4 <= |m1| <= |m2|
    requires FindTerminator(m1) == Some(|m1| - 4)
    requires r.input.buf[..|m1| + |m2|] == m1 + m2 && r.input.readyLength == |m2|
    ensures WaitForHttpMessage(r).dispatched == r.dispatched + [m1]
  {
    var left := Bytes(r.input);
    var tail := m2[..|m2| - |m1|];
    assert left == m1 + tail by {
      assert left == (m1 + m2)[..|m2|];
    }
    FindTerminatorExtend(m1, tail);
    assert r.input.buf[..|m1|] == m1 by {
      assert r.input.buf[..|m1|] == (m1 + m2)[..|m1|];
    }
  }

  // ---------------------------------------------------------------------------
  // The rescan as evidently intended: from the ready position, not from the
  // start of the buffer.
  // ---------------------------------------------------------------------------

  /** The ready window itself: the bytes not yet consumed. */
  function Pending(b: InputBuffer): (s: seq<char>)
    requires Valid(b)
    ensures |s| == b.readyLength
    ensures forall i :: 0 <= i < |s| ==> s[i] == b.buf[b.readyPos + i]
  {
    b.buf[b.readyPos..b.readyPos + b.readyLength]
  }

  /** `_consumeData` applied to the ready window: a terminator at `i` of the
      window frames its first `i + 4` bytes; otherwise the window is consumed
      and another read is issued. */
  function ConsumePending(c: Connection): (r: Connection)
    requires Valid(c.input)
    ensures Valid(r.input) && r.input.buf == c.input.buf
    ensures FindTerminator(Pending(c.input)).Some? ==>
      var i := FindTerminator(Pending(c.input)).value;
      && r.input.readyPos == c.input.readyPos + i + 4
      && r.input.readyLength == c.input.readyLength - (i + 4)
      && r.phase == Done
      && r.dispatched == c.dispatched + [Pending(c.input)[..i + 4]]
    ensures FindTerminator(Pending(c.input)).None? ==>
      r.input.readyLength == 0 && r.phase == Reading && r.dispatched == c.dispatched
  {
    var data := Pending(c.input);
    match FindTerminator(data)
    case Some(i) => Connection(ConsumedBytes(c.input, i + 4), Done, c.dispatched + [data[..i + 4]])
    case None => Connection(ConsumedBytes(c.input, c.input.readyLength), Reading, c.dispatched)
  }

  /** `waitForHttpMessage` with the rescan reading the ready window. */
  function WaitForPending(c: Connection): (r: Connection)
    requires Valid(c.input)
    ensures Valid(r.input)
    ensures c.input.readyLength == 0 ==> r == c.(phase := Reading)
    ensures c.input.readyLength != 0 ==> r == ConsumePending(c)
  {
    if c.input.readyLength != 0 then ConsumePending(c) else c.(phase := Reading)
  }

  /** After a read that frames a request, the ready window is exactly the
      part of the chunk after that request's CR LF CR LF. */
  lemma PendingIsUnconsumed(c: Connection, chunk: seq<char>)
    requires Valid(c.input) && |chunk| <= Capacity && FindTerminator(chunk).Some?
    ensures Pending(AfterRead(c, ReadOk(chunk)).input) == chunk[FindTerminator(chunk).value + 4..]
  {
    var i := FindTerminator(chunk).value;
    ReadWithTerminator(c, chunk);
    var r := AfterRead(c, ReadOk(chunk));
    assert r.input.buf[..|chunk|] == chunk;
    assert Pending(r.input) == r.input.buf[..|chunk|][i + 4..];
  }

  /** With the corrected rescan, two requests arriving in one read are both
      dispatched, each once and in order, and nothing is left ready. */
  lemma PipelineDispatchesBoth(c: Connection, m1: seq<char>, m2: seq<char>)
    requires Valid(c.input) && |m1| + |m2| <= Capacity && 4 <= |m1| && 4 <= |m2|
    requires FindTerminator(m1) == Some(|m1| - 4) && FindTerminator(m2) == Some(|m2| - 4)
    ensures var r := AfterRead(c, ReadOk(m1 + m2));
      && WaitForPending(r).dispatched == c.dispatched + [m1] + [m2]
      && WaitForPending(r).input.readyLength == 0
      && WaitForPending(r).phase == Done
  {
    var chunk := m1 + m2;
    PipelinedRead(c, m1, m2);
    FindTerminatorExtend(m1, m2);
    PendingIsUnconsumed(c, chunk);
    assert chunk[|m1|..] == m2;
    PendingWholeMessage(AfterRead(c, ReadOk(chunk)), m2);
  }

  /** A ready window that is one whole request is framed whole. */
  lemma PendingWholeMessage(r: Connection, m: seq<char>)
    requires Valid(r.input) && 4 <= |m| && Pending(r.input) == m && FindTerminator(m) == Some(|m| - 4)
    ensures WaitForPending(r).dispatched == r.dispatched + [m]
    ensures WaitForPending(r).input.readyLength == 0 && WaitForPending(r).phase == Done
  {
    assert m[..|m|] == m;
  }

  /** The connection's life from `waitForHttpMessage` on: each pending read
      completes with the next event; once nothing is pending (after a
      dispatch) or the socket is closed, no further event is delivered. */
  function Run(c: Connection, events: seq<ReadEvent>): (r: Connection)
    requires Valid(c.input)
    requires forall k :: 0 <= k < |events| ==> EventFits(events[k])
    ensures Valid(r.input)
    decreases |events|
  {
    if |events| == 0 || c.phase != Reading then c
    else Run(AfterRead(c, events[0]), events[1..])
  }

  /** The read before `k` all succeeded without a terminator and read `k`
      holds one. */
  predicate FramedAt(events: seq<ReadEvent>, k: nat) {
    && k < |events|
    && (forall j :: 0 <= j < k ==> events[j].ReadOk? && FindTerminator(events[j].chunk).None?)
    && events[k].ReadOk? && FindTerminator(events[k].chunk).Some?
  }

  /** After a failed first read no read is framed. */
  lemma NoFrameAfterFailure(events: seq<ReadEvent>)
    requires 0 < |events| && events[0].ReadFailed?
    ensures forall k: nat :: !FramedAt(events, k)
  {
    forall k: nat
      ensures !FramedAt(events, k)
    {
      if 0 < k {
        assert !events[0].ReadOk?;
      }
    }
  }

  /** A first read holding a terminator is the only framed one. */
  lemma FramedFirst(events: seq<ReadEvent>)
    requires 0 < |events| && events[0].ReadOk? && FindTerminator(events[0].chunk).Some?
    ensures FramedAt(events, 0)
    ensures forall k: nat :: FramedAt(events, k) ==> k == 0
  {
    forall k: nat | 0 < k
      ensures !FramedAt(events, k)
    {
      assert FindTerminator(events[0].chunk).Some?;
    }
  }

  /** After a first read without a terminator, the framed reads are those of
      the remaining events, one position later. */
  lemma FramedShift(events: seq<ReadEvent>)
    requires 0 < |events| && events[0].ReadOk? && FindTerminator(events[0].chunk).None?
    ensures !FramedAt(events, 0)
    ensures forall k: nat :: FramedAt(events, k + 1) <==> FramedAt(events[1..], k)
    ensures (exists k: nat :: FramedAt(events, k)) <==> (exists k: nat :: FramedAt(events[1..], k))
  {
    var rest := events[1..];
    assert forall k :: 0 <= k < |rest| ==> rest[k] == events[k + 1];
    forall k: nat
      ensures FramedAt(events, k + 1) <==> FramedAt(rest, k)
    {
    }
    if exists k: nat :: FramedAt(events, k) {
      var k: nat :| FramedAt(events, k);
      assert FramedAt(rest, k - 1);
    }
    if exists k: nat :: FramedAt(rest, k) {
      var k: nat :| FramedAt(rest, k);
      assert FramedAt(events, k + 1);
    }
  }

  /** What a fresh connection ends as, `r`, after `events`: at most one
      dispatch; a dispatch exactly when nothing is pending, and exactly when
      some read is framed; the frame is that read up to its first CR LF CR LF. */
  ghost predicate AtMostOnce(events: seq<ReadEvent>, r: Connection) {
    && |r.dispatched| <= 1
    && (r.dispatched != [] <==> r.phase == Done)
    && (r.dispatched != [] <==> exists k: nat :: FramedAt(events, k))
    && forall k: nat :: FramedAt(events, k) ==>
         r.dispatched == [events[k].chunk[..FindTerminator(events[k].chunk).value + 4]]
  }

  /** A failed first read closes the connection with nothing dispatched. */
  lemma RunStopsOnFailure(c: Connection, events: seq<ReadEvent>)
    requires Valid(c.input) && c.phase == Reading && c.dispatched == []
    requires forall k :: 0 <= k < |events| ==> EventFits(events[k])
    requires 0 < |events| && events[0].ReadFailed?
    ensures AtMostOnce(events, Run(c, events))
  {
    assert Run(c, events) == AfterRead(c, events[0]);
    NoFrameAfterFailure(events);
  }

  /** A first read holding a terminator is dispatched and ends the run. */
  lemma RunStopsOnFrame(c: Connection, events: seq<ReadEvent>)
    requires Valid(c.input) && c.phase == Reading && c.dispatched == []
    requires forall k :: 0 <= k < |events| ==> EventFits(events[k])
    requires 0 < |events| && events[0].ReadOk? && FindTerminator(events[0].chunk).Some?
    ensures AtMostOnce(events, Run(c, events))
  {
    ReadWithTerminator(c, events[0].chunk);
    assert Run(c, events) == AfterRead(c, events[0]);
    FramedFirst(events);
  }

  /** An unframed first read shifts the framed positions by one and changes
      nothing else that `AtMostOnce` looks at. */
  lemma AtMostOnceShift(events: seq<ReadEvent>, r: Connection)
    requires 0 < |events| && events[0].ReadOk? && FindTerminator(events[0].chunk).None?
    requires AtMostOnce(events[1..], r)
    ensures AtMostOnce(events, r)
  {
    var rest := events[1..];
    FramedShift(events);
    forall k: nat | FramedAt(events, k)
      ensures r.dispatched == [events[k].chunk[..FindTerminator(events[k].chunk).value + 4]]
    {
      assert FramedAt(rest, k - 1);
      assert rest[k - 1] == events[k];
    }
  }

  /** A fresh connection dispatches at most once: exactly when some read
      holds a complete header block and every earlier read succeeded without
      one; then the frame is that read up to its first CR LF CR LF, and
      nothing is pending afterwards. */
  lemma {:induction false} RunDispatchesAtMostOnce(c: Connection, events: seq<ReadEvent>)
    requires Valid(c.input) && c.phase == Reading && c.dispatched == []
    requires forall k :: 0 <= k < |events| ==> EventFits(events[k])
    ensures AtMostOnce(events, Run(c, events))
    decreases |events|
  {
    if |events| == 0 {
      assert forall k: nat :: !FramedAt(events, k);
    } else if events[0].ReadFailed? {
      RunStopsOnFailure(c, events);
    } else if FindTerminator(events[0].chunk).Some? {
      RunStopsOnFrame(c, events);
    } else {
      var c1 := AfterRead(c, events[0]);
      var rest := events[1..];
      ReadWithoutTerminator(c, events[0].chunk);
      assert Run(c, events) == Run(c1, rest);
      assert forall k :: 0 <= k < |rest| ==> EventFits(rest[k]) by {
        assert forall k :: 0 <= k < |rest| ==> rest[k] == events[k + 1];
      }
      RunDispatchesAtMostOnce(c1, rest);
      AtMostOnceShift(events, Run(c, events));
    }
  }
}
