/**
 Messages: reading a body into the ring, and sending the oldest slot on.
 */
module HttpMessages {
  import opened IndexArithmetic
  import opened BufferPool
  import opened RingState
  import opened ByteStream
  import opened PointerAddition
  import opened CircularBuffers

  const HTTP_MSG_STATUS_INIT := 0
  const HTTP_MSG_STATUS_BODY_INCOMPLETE := 4
  const HTTP_MSG_STATUS_BODY_COMPLETE := 8

  // ---------- reading a body, as a function of the line ----------

  /** How a body is read: the line that is left, the bytes gained, and the number of
      read attempts, the last of which gets nothing. */
  datatype Reading = Reading(line: Line, bytes: string, attempts: nat)

  ghost function ReadBody(l: Line): (r: Reading)
    requires Valid(l)
    ensures Valid(r.line)
    decreases Room(l)
  {
    if Room(l) == 0 then Reading(l, [], 1)
    else
      FedIsValid(l);
      var (n, data, _) := FeedData(l.source, l.ring.maxSize);
      if n <= 0 then Reading(Fed(l), [], 1)
      else
        var r := ReadBody(Fed(l));
        Reading(r.line, data + r.bytes, r.attempts + 1)
  }

  /** Reading ends after at most one attempt more than there is room, even if the
      source never does; what is gained is a prefix of what the source has, and lies at
      the end of the live bytes. */
  lemma {:induction false} ReadBodyGains(l: Line)
    requires Valid(l)
    ensures ReadBody(l).attempts <= Room(l) + 1
    ensures LiveBytes(ReadBody(l).line) == LiveBytes(l) + ReadBody(l).bytes
    ensures ReadBody(l).bytes + Pending(ReadBody(l).line.source) == Pending(l.source)
    decreases Room(l)
  {
    hide Sound, Fed, FeedData, Bytes, Ring.Window, Pending;
    if Room(l) > 0 {
      FedIsValid(l);
      FedSource(l);
      FedBytes(l);
      FeedDataConserves(l.source, l.ring.maxSize);
      var (n, data, rest) := FeedData(l.source, l.ring.maxSize);
      if n > 0 {
        ReadBodyGains(Fed(l));
        var r := ReadBody(Fed(l));
        assert LiveBytes(l) + (data + r.bytes) == (LiveBytes(l) + data) + r.bytes;
        assert (data + r.bytes) + Pending(r.line.source) == data + (r.bytes + Pending(r.line.source));
      }
    }
  }

  /** The number of reads that get something before one gets nothing. */
  ghost function PositiveReads(source: seq<Delivery>, maxSize: nat): nat
    decreases |Pending(source)|
  {
    FeedDataConserves(source, maxSize);
    var (n, data, rest) := FeedData(source, maxSize);
    if n <= 0 then 0 else 1 + PositiveReads(rest, maxSize)
  }

  /** A read of this gets nothing: it fails, or finds no bytes. */
  predicate IsGap(d: Delivery) {
    d.Failure? || d.data == []
  }

  /** A read gets nothing although bytes are still to come. */
  ghost predicate StopsEarly(source: seq<Delivery>) {
    exists k :: 0 <= k < |source| && IsGap(source[k]) && Pending(source[k + 1..]) != []
  }

  lemma StopsEarlyAtOnce(source: seq<Delivery>)
    requires source != [] && IsGap(source[0])
    ensures Pending(source[1..]) == Pending(source)
    ensures StopsEarly(source) <==> Pending(source) != []
  {
    assert Pending(source[1..]) == Pending(source);
    hide Pending;
    if Pending(source) != [] { assert Pending(source[0 + 1..]) != []; }
    if StopsEarly(source) {
      var k :| 0 <= k < |source| && IsGap(source[k]) && Pending(source[k + 1..]) != [];
      PendingTail(source, k + 1);
    }
  }

  lemma {:induction false} PendingTail(source: seq<Delivery>, k: nat)
    requires k <= |source| && Pending(source[k..]) != []
    ensures Pending(source) != []
  {
    if k > 0 {
      assert source[1..][k - 1..] == source[k..];
      PendingTail(source[1..], k - 1);
    } else {
      assert source[0..] == source;
    }
  }

  lemma StopsEarlyLater(source: seq<Delivery>)
    requires source != [] && !IsGap(source[0])
    ensures StopsEarly(source) <==> StopsEarly(source[1..])
  {
    hide Pending;
    var rest := source[1..];
    if StopsEarly(rest) {
      var k :| 0 <= k < |rest| && IsGap(rest[k]) && Pending(rest[k + 1..]) != [];
      assert IsGap(source[k + 1]) && rest[k + 1..] == source[k + 1 + 1..];
    }
    if StopsEarly(source) {
      var k :| 0 <= k < |source| && IsGap(source[k]) && Pending(source[k + 1..]) != [];
      assert IsGap(rest[k - 1]) && rest[k - 1 + 1..] == source[k + 1..];
    }
  }

  /** One read of a source: it gets nothing exactly at the end or at a gap. */
  lemma ReadOnce(source: seq<Delivery>, maxSize: nat)
    requires maxSize > 0
    ensures var (n, data, rest) := FeedData(source, maxSize);
      && (n <= 0 <==> source == [] || IsGap(source[0]))
      && (n <= 0 ==> Pending(rest) == Pending(source) && (StopsEarly(source) <==> Pending(source) != []))
      && (n > 0 ==> Pending(source) != [] && (StopsEarly(rest) <==> StopsEarly(source)))
  {
    if source != [] {
      if IsGap(source[0]) {
        StopsEarlyAtOnce(source);
      } else {
        StopsEarlyLater(source);
        if |source[0].data| > maxSize {
          assert FeedData(source, maxSize).2[1..] == source[1..];
          StopsEarlyLater(FeedData(source, maxSize).2);
        }
      }
    }
  }

  ghost predicate BodyFits(l: Line) {
    && l.ring.Shape() && (l.ring.maxSize > 0 || Pending(l.source) == [])
    && !StopsEarly(l.source)
    && PositiveReads(l.source, l.ring.maxSize) <= Room(l)
  }

  /** http_message_receive_body says BODY_COMPLETE in any case. All of the body is in
      the ring exactly when no read gets nothing, or fails, with bytes still to come, and
      it takes no more reads than there is room; given that a buffer holds anything. */
  lemma {:induction false} BodyIsCompleteIff(l: Line)
    requires Valid(l)
    ensures Pending(ReadBody(l).line.source) == [] <==> BodyFits(l)
    decreases Room(l)
  {
    hide Sound, Fed, FeedData, Pending, BodyFits, ReadBody;
    if l.ring.maxSize == 0 {
      NothingIsRead(l);
    } else if Room(l) > 0 && FeedData(l.source, l.ring.maxSize).0 > 0 {
      FedIsValid(l);
      FitsOneMore(l);
      BodyIsCompleteIff(Fed(l));
    } else {
      FitsHere(l);
    }
  }

  lemma FitsHere(l: Line)
    requires Valid(l) && l.ring.maxSize > 0
    requires Room(l) == 0 || FeedData(l.source, l.ring.maxSize).0 <= 0
    ensures Pending(ReadBody(l).line.source) == [] <==> BodyFits(l)
  {
    hide Sound, Fed, FeedData, Pending, StopsEarly;
    ReadOnce(l.source, l.ring.maxSize);
    if Room(l) > 0 { FedSource(l); }
  }

  lemma FitsOneMore(l: Line)
    requires Valid(l) && l.ring.maxSize > 0 && Room(l) > 0 && FeedData(l.source, l.ring.maxSize).0 > 0
    ensures Valid(Fed(l)) && ReadBody(l).line == ReadBody(Fed(l)).line
    ensures BodyFits(l) <==> BodyFits(Fed(l))
  {
    hide Sound, Fed, FeedData, Pending, StopsEarly;
    ReadOnce(l.source, l.ring.maxSize);
    FedIsValid(l);
    FedSource(l);
  }

  lemma NothingIsRead(l: Line)
    requires Valid(l) && l.ring.maxSize == 0
    ensures Pending(ReadBody(l).line.source) == Pending(l.source) && (BodyFits(l) <==> Pending(l.source) == [])
  {
    hide Sound, Fed, Pending;
    ReadBodyGains(l);
    if StopsEarly(l.source) {
      var k :| 0 <= k < |l.source| && IsGap(l.source[k]) && Pending(l.source[k + 1..]) != [];
      PendingTail(l.source, k + 1);
    }
  }

  /** Three buffers of one byte, and a ring that can take them all. */
  function SmallLine(source: seq<Delivery>): Line {
    Line(Pool(1, [0, 1, 2], [[NUL], [NUL], [NUL]]), NewRing(2, 1), source)
  }

  lemma SmallLineIsValid(source: seq<Delivery>)
    ensures Valid(SmallLine(source)) && Room(SmallLine(source)) == 3
  {
    assert Pow2(1) == 2 && Pow2(2) == 4;
    var l := SmallLine(source);
    InitialFree(3);
    assert l.pool.free == seq(3, i => i);
    NewRingIsValid(l.pool, 2, 1, source);
  }

  /** A failed read in the middle, with room to spare: the second byte is not read, and
      the status says that the body is complete. */
  lemma BodyStopsAtAFailure()
    ensures var l := SmallLine([Chunk("a"), Failure(0), Chunk("b")]);
      && Valid(l) && PositiveReads(l.source, 1) <= Room(l)
      && StopsEarly(l.source) && Pending(ReadBody(l).line.source) != []
  {
    hide Sound;
    var source := [Chunk("a"), Failure(0), Chunk("b")];
    SmallLineIsValid(source);
    assert FeedData(source, 1) == (1, "a", source[1..]);
    assert source[1..][0] == Failure(0);
    assert IsGap(source[1]) && source[2..][0] == Chunk("b");
    BodyIsCompleteIff(SmallLine(source));
  }

  lemma {:induction false} ReadByteByByte(data: string)
    ensures PositiveReads([Chunk(data)], 1) == |data|
  {
    if |data| > 1 {
      assert FeedData([Chunk(data)], 1).2 == [Chunk(data[1..])];
      ReadByteByByte(data[1..]);
    } else {
      assert FeedData([Chunk(data)], 1).2 == [];
    }
  }

  /** More bytes than there is room for, without any gap. */
  lemma BodyOverflows()
    ensures var l := SmallLine([Chunk("abcd")]);
      && Valid(l) && PositiveReads(l.source, 1) == 4 > Room(l)
      && !StopsEarly(l.source) && Pending(ReadBody(l).line.source) != []
  {
    hide Sound, PositiveReads;
    SmallLineIsValid([Chunk("abcd")]);
    ReadByteByByte("abcd");
    BodyIsCompleteIff(SmallLine([Chunk("abcd")]));
  }

  /** What one read attempt reports. */
  ghost function ReadResult(l: Line): int
    requires l.ring.Shape()
  {
    if Room(l) == 0 then 0 else FeedData(l.source, l.ring.maxSize).0
  }

  lemma FeedResult(l: Line)
    requires Valid(l)
    ensures Room(l) > 0 ==> Feed(l).1 == ReadResult(l) == FeedData(l.source, l.ring.maxSize).0
    ensures Room(l) == 0 ==> Feed(l).0 == l && ReadResult(l) == 0
  {
    hide Sound, Feed, Fed, FeedData, Ring.Window;
    if Room(l) == 0 { FeedFails(l); } else { FeedSucceeds(l); }
  }

  /** One round of the reading loop. */
  lemma ReadBodyRound(l: Line)
    requires Valid(l)
    ensures Valid(Feed(l).0) && Room(Feed(l).0) <= Room(l)
    ensures ReadResult(l) <= 0 ==> ReadBody(l) == Reading(Feed(l).0, [], 1)
    ensures ReadResult(l) > 0 ==>
      var r := ReadBody(Feed(l).0);
      && ReadBody(l).line == r.line && |ReadBody(l).bytes| == ReadResult(l) + |r.bytes|
      && ReadBody(l).attempts == 1 + r.attempts
      && Room(Feed(l).0) == Room(l) - 1
  {
    hide Sound, Feed, Fed, Ring.Window;
    FeedKeepsValid(l);
    if Room(l) == 0 {
      FeedFails(l);
    } else {
      FeedSucceeds(l);
      FedIsValid(l);
    }
  }

  // ---------- the code ----------

  /** Where send_data puts the bytes. */
  class Sink {
    var log: string

    constructor ()
      ensures log == []
    {
      log := [];
    }

    /** A negative length, left in the slot by a failed read, puts nothing. */
    method Send(block: string, length: int)
      modifies this
      ensures log == old(log) + if 0 <= length <= |block| then block[..length] else []
    {
      if 0 <= length <= |block| {
        log := log + block[..length];
      } else {
        log := log + [];
      }
    }
  }

  class HttpMessage {
    const buffers: CircularBuffer
    var status: int
    var rawMessageLength: int

    constructor (buffers: CircularBuffer)
      ensures this.buffers == buffers && status == HTTP_MSG_STATUS_INIT && rawMessageLength == -1
    {
      this.buffers := buffers;
      status, rawMessageLength := HTTP_MSG_STATUS_INIT, -1;
    }

    /** A full ring or an empty pool counts as nothing read. */
    method ReadNextBufferFromSource() returns (r: int)
      requires buffers.Ok()
      modifies buffers`nextToBeReceived, buffers.buffers, buffers.dataSizes, buffers.source,
               buffers.pool`last, buffers.pool.freeBufferList, buffers.pool.messages
      ensures buffers.Ok() && buffers.AsLine() == Feed(old(buffers.AsLine())).0
      ensures r == ReadResult(old(buffers.AsLine()))
      ensures old(Room(buffers.AsLine())) == 0 ==> r == 0 && buffers.AsLine() == old(buffers.AsLine())
      ensures old(Room(buffers.AsLine())) > 0 ==> r == FeedData(old(buffers.source.script), buffers.maxSize).0
    {
      hide SharedBuffers.Valid, SharedBuffers.View, Sound, Ring.SizesOk, Ring.Window, FeedData, ReadResult, Room;
      FeedResult(buffers.AsLine());
      var bufferNo := buffers.AllocEntry();
      r := 0;
      if bufferNo >= 0 {
        r := buffers.ReadIntoNextBuffer();
        buffers.SetDataSizeForLastReceivedBuffer(r);
      }
    }

    method HttpMessageReceiveBody() returns (ghost attempts: nat)
      requires buffers.Ok()
      modifies this`status, this`rawMessageLength,
               buffers`nextToBeReceived, buffers.buffers, buffers.dataSizes, buffers.source,
               buffers.pool`last, buffers.pool.freeBufferList, buffers.pool.messages
      ensures buffers.Ok() && status == HTTP_MSG_STATUS_BODY_COMPLETE
      ensures var reading := ReadBody(old(buffers.AsLine()));
        && buffers.AsLine() == reading.line
        && rawMessageLength == old(rawMessageLength) + |reading.bytes|
        && attempts == reading.attempts
    {
      hide ReadBody, ReadResult, Feed, Sound, SharedBuffers.Valid, SharedBuffers.View;
      status := HTTP_MSG_STATUS_BODY_INCOMPLETE;
      ghost var l := buffers.AsLine();
      ghost var all := ReadBody(l);
      ReadBodyRound(l);
      var n := 0;
      rawMessageLength := rawMessageLength + n;
      n := ReadNextBufferFromSource();
      attempts := 1;
      while n > 0
        invariant buffers.Ok()
        invariant n > 0 ==>
          var r := ReadBody(buffers.AsLine());
          && all.line == r.line && all.attempts == attempts + r.attempts
          && |all.bytes| == rawMessageLength - old(rawMessageLength) + n + |r.bytes|
        invariant n <= 0 ==>
          && buffers.AsLine() == all.line && attempts == all.attempts
          && rawMessageLength == old(rawMessageLength) + |all.bytes|
        decreases Room(buffers.AsLine()), n > 0
      {
        ReadBodyRound(buffers.AsLine());
        rawMessageLength := rawMessageLength + n;
        n := ReadNextBufferFromSource();
        attempts := attempts + 1;
      }
      status := HTTP_MSG_STATUS_BODY_COMPLETE;
    }

    /** send_next_buffer_to_destination. */
    method SendNextBufferToDestination(sink: Sink, movePointer: bool)
      requires buffers.Ok()
      modifies sink, buffers`lastSent, buffers.buffers, buffers.dataSizes,
               buffers.pool`last, buffers.pool.freeBufferList, buffers.pool.messages
      ensures buffers.Ok()
      ensures old(buffers.IsEmpty()) ==> sink.log == old(sink.log) && buffers.AsLine() == old(buffers.AsLine())
      ensures !old(buffers.IsEmpty()) ==>
        && sink.log == old(sink.log) + SlotBytes(old(buffers.pool.View()).contents, old(buffers.View()).Window()[0])
        && buffers.AsLine() == if movePointer then AfterSend(old(buffers.AsLine())) else old(buffers.AsLine())
    {
      hide SharedBuffers.Valid, SharedBuffers.View, Sound, SlotBytes, Ring.Window, Sent;
      if !buffers.IsEmpty() {
        var block, length := buffers.GetToBeSent();
        sink.Send(block.value, length);
        if movePointer {
          var _ := buffers.BufferHasBeenSent();
        }
      }
    }
  }
}
