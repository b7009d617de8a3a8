/**
 Fan-out in sequence: the oldest slot of the request goes to every server in turn,
 while the replies are read into their own rings from the same pool.
 */
module RequestReply {
  import opened IndexArithmetic
  import opened BufferPool
  import opened RingState
  import opened ByteStream
  import opened ManyRings
  import opened FanOut
  import opened Reception
  import opened CircularBuffers
  import opened PointerAddition
  import opened HttpMessages
  import opened HttpHeaderDecoder
  import opened HeaderText
  import opened HeaderTable

  class Reply {
    const sink: Sink
    const responseMessage: HttpMessage

    constructor (sink: Sink, responseMessage: HttpMessage)
      ensures this.sink == sink && this.responseMessage == responseMessage
    {
      this.sink, this.responseMessage := sink, responseMessage;
    }
  }

  class RequestReplies {
    const request: HttpMessage
    const replies: seq<Reply>
    const pool: SharedBuffers
    /** The request's ring, and then the rings of the replies. */
    ghost const rings: seq<CircularBuffer>
    /** The pool, the rings, and what has passed through them. */
    ghost var world: World

    constructor (request: HttpMessage, replies: seq<Reply>, pool: SharedBuffers)
      ensures this.request == request && this.replies == replies && this.pool == pool
      ensures |rings| == |replies| + 1 && rings[0] == request.buffers
      ensures forall i :: 0 <= i < |replies| ==> rings[i + 1] == replies[i].responseMessage.buffers
      ensures world == WorldOf(pool, rings)
    {
      this.request, this.replies, this.pool := request, replies, pool;
      this.rings := [request.buffers] + seq(|replies|,
                         i requires 0 <= i < |replies| => replies[i].responseMessage.buffers);
      new;
      world := WorldOf(pool, rings);
    }

    /** Every message has its own ring, all rings draw on the one pool, and every server
        has its own connection. */
    ghost predicate Separate() {
      && |rings| == |replies| + 1 && rings[0] == request.buffers
      && (forall i :: 0 <= i < |replies| ==> rings[i + 1] == replies[i].responseMessage.buffers)
      && (forall i :: 0 <= i < |rings| ==> rings[i].pool == pool)
      && (forall i, j :: 0 <= i < j < |rings| ==> rings[i] != rings[j] && rings[i].source != rings[j].source)
      && (forall i, j :: 0 <= i < |rings| && 0 <= j < |rings| ==> rings[i].buffers != rings[j].dataSizes)
      && (forall i, j :: 0 <= i < j < |rings| ==>
            rings[i].buffers != rings[j].buffers && rings[i].dataSizes != rings[j].dataSizes)
      && (forall i :: 0 <= i < |rings| ==>
            rings[i].buffers != pool.freeBufferList && rings[i].dataSizes != pool.freeBufferList)
      && (forall i, j :: 0 <= i < j < |replies| ==> replies[i].sink != replies[j].sink)
    }

    ghost predicate MatchesAt(i: nat)
      requires i < |rings|
      reads this, rings[i], rings[i].buffers, rings[i].dataSizes, rings[i].source
    {
      && i < |world.channels|
      && world.channels[i].ring == rings[i].View() && world.channels[i].source == rings[i].source.script
    }

    /** The world is what the objects hold. */
    ghost predicate Matches()
      reads this, rings, set r | r in rings :: r.buffers, set r | r in rings :: r.dataSizes,
            set r | r in rings :: r.source,
            pool, pool.freeBufferList, pool.messages
    {
      && world.pool == pool.View() && |world.channels| == |rings|
      && forall i :: 0 <= i < |rings| ==> MatchesAt(i)
    }

    ghost predicate Ok()
      reads this, rings, set r | r in rings :: r.buffers, set r | r in rings :: r.dataSizes,
            set r | r in rings :: r.source,
            pool, pool.freeBufferList, pool.messages
    {
      Separate() && pool.Valid() && Matches() && WorldValid(world) && IsQueue(world)
    }

    lemma RingIsOk(j: nat)
      requires Ok() && j < |rings|
      ensures Shaped(world.channels) && rings[j].Ok() && rings[j].AsLine() == LineOf(world, j)
    {
      hide Sound, SharedBuffers.Valid, SharedBuffers.View, Partitioned, IsQueue;
      assert MatchesAt(j);
      assert Valid(LineOf(world, j));
    }

    /** When only ring j and the pool have changed, and the world with them, it still matches. */
    twostate lemma OnlyRing(j: nat)
      requires Separate() && old(Matches()) && j < |rings|
      requires forall k | 0 <= k < |rings| && k != j ::
        unchanged(rings[k]) && unchanged(rings[k].buffers)
        && unchanged(rings[k].dataSizes) && unchanged(rings[k].source)
      requires world.pool == pool.View() && MatchesAt(j) && |world.channels| == |rings|
      requires forall k :: 0 <= k < |rings| && k != j ==> world.channels[k] == old(world).channels[k]
      ensures Matches()
    {
      hide SharedBuffers.View, CircularBuffer.View;
      forall i | 0 <= i < |rings| ensures MatchesAt(i) {
        assert old(MatchesAt(i));
      }
    }

    /** One read into ring j, whatever the other side sends. */
    method ReadMessage(message: HttpMessage, ghost j: nat)
      requires Ok() && j < |rings| && message.buffers == rings[j]
      modifies this`world, rings[j], rings[j].buffers, rings[j].dataSizes, rings[j].source,
               pool, pool.freeBufferList, pool.messages
      ensures Ok() && world == Step(old(world), ReadOp(j))
    {
      hide SharedBuffers.Valid, SharedBuffers.View, WorldValid, Step, CircularBuffer.View, CircularBuffer.Ok, IsQueue;
      ReadRing(message, j);
      StepFollows(world, ReadOp(j));
      StepIsLocal(world, ReadOp(j));
      world := Step(world, ReadOp(j));
      OnlyRing(j);
    }

    method ReadRing(message: HttpMessage, ghost j: nat)
      requires Ok() && j < |rings| && message.buffers == rings[j]
      modifies rings[j], rings[j].buffers, rings[j].dataSizes, rings[j].source, pool, pool.freeBufferList, pool.messages
      ensures pool.Valid()
      ensures Line(pool.View(), rings[j].View(), rings[j].source.script) == Feed(LineOf(old(world), j)).0
    {
      hide SharedBuffers.Valid, SharedBuffers.View, WorldValid, Feed, CircularBuffer.View, Sound, IsQueue;
      RingIsOk(j);
      var _ := message.ReadNextBufferFromSource();
    }

    method ReadMessageTimes(message: HttpMessage, ghost j: nat, count: nat)
      requires Ok() && j < |rings| && message.buffers == rings[j]
      modifies this`world, rings[j], rings[j].buffers, rings[j].dataSizes, rings[j].source,
               pool, pool.freeBufferList, pool.messages
      ensures Ok() && AllInRange(old(world), ReadOps(j, count)) && world == Run(old(world), ReadOps(j, count))
    {
      hide Ok, CircularBuffer.View;
      WorldIsValid();
      for k := 0 to count
        invariant Ok() && AllInRange(old(world), ReadOps(j, k)) && world == Run(old(world), ReadOps(j, k))
      {
        WorldIsValid();
        RunReadsMore(old(world), j, k, 1);
        RunOneRead(world, j);
        ReadMessage(message, j);
      }
    }

    /** http_message_receive_body on the message of ring j: a run of reads. */
    method ReadBodyOf(message: HttpMessage, ghost j: nat) returns (ghost attempts: nat)
      requires Ok() && j < |rings| && message.buffers == rings[j]
      modifies message`status, message`rawMessageLength
      modifies this`world, rings[j], rings[j].buffers, rings[j].dataSizes, rings[j].source,
               pool, pool.freeBufferList, pool.messages
      ensures Ok() && BodyReceived(old(world), world, j, attempts)
      ensures AllInRange(old(world), ReadOps(j, attempts)) && world == Run(old(world), ReadOps(j, attempts))
      ensures message.status == HTTP_MSG_STATUS_BODY_COMPLETE
      ensures message.rawMessageLength == old(message.rawMessageLength) + Gained(old(world), world, j)
    {
      hide SharedBuffers.Valid, SharedBuffers.View, WorldValid, Run, CircularBuffer.View, CircularBuffer.Ok, IsQueue,
           ReadBody, Sound, BodyReceived, LiveBytes;
      ReadBodyIsARun(world, j);
      BodyIsReceived(world, j);
      GainedByBody(world, j);
      attempts := ReadBodyRing(message, j);
      RunKeepsQueues(world, ReadOps(j, attempts));
      world := Run(world, ReadOps(j, attempts));
      OnlyRing(j);
    }

    method ReadBodyRing(message: HttpMessage, ghost j: nat) returns (ghost attempts: nat)
      requires Ok() && j < |rings| && message.buffers == rings[j]
      modifies message`status, message`rawMessageLength
      modifies rings[j], rings[j].buffers, rings[j].dataSizes, rings[j].source, pool, pool.freeBufferList, pool.messages
      ensures pool.Valid() && Valid(LineOf(old(world), j))
      ensures Line(pool.View(), rings[j].View(), rings[j].source.script) == ReadBody(LineOf(old(world), j)).line
      ensures attempts == ReadBody(LineOf(old(world), j)).attempts
      ensures message.status == HTTP_MSG_STATUS_BODY_COMPLETE
      ensures message.rawMessageLength == old(message.rawMessageLength) + |ReadBody(LineOf(old(world), j)).bytes|
    {
      hide SharedBuffers.Valid, SharedBuffers.View, WorldValid, CircularBuffer.View, Sound, IsQueue, Fed, FeedData;
      RingIsOk(j);
      attempts := message.HttpMessageReceiveBody();
    }

    /** decode_http_message_header on the message of ring j, whose block lies in one slot: a
        run of reads, as many as the decoder feeds its ring. */
    method DecodeHeaderOf(header: HttpHeaders, ghost j: nat, ghost data: string) returns (ghost feeds: nat)
      requires Ok() && j < |rings| && header.buffers == rings[j] && |header.headers| == |HeaderStrings()|
      requires CanDecode(world, j, header.curLoc, data)
      modifies header
      modifies this`world, rings[j], rings[j].buffers, rings[j].dataSizes, rings[j].source,
               pool, pool.freeBufferList, pool.messages
      ensures Ok() && AllInRange(old(world), ReadOps(j, feeds)) && world == Run(old(world), ReadOps(j, feeds))
      ensures DecodedTo(old(world), j, old(header.curLoc), data, header.curLoc, world)
      ensures header.headers == Store(old(header.headers), BlockFields(data[old(header.curLoc.buffPos)..]).value)
    {
      hide SharedBuffers.Valid, SharedBuffers.View, WorldValid, Run, CircularBuffer.View, CircularBuffer.Ok, IsQueue,
           FeedTimes, Sound, Holds, Refilled, HeaderStrings, BlockFields, Store, IsTested, BlockRest;
      feeds := DecodeRing(header, j, data);
      FeedsAreARun(world, j, feeds);
      RunKeepsQueues(world, ReadOps(j, feeds));
      world := Run(world, ReadOps(j, feeds));
      OnlyRing(j);
    }

    method DecodeRing(header: HttpHeaders, ghost j: nat, ghost data: string) returns (ghost feeds: nat)
      requires Ok() && j < |rings| && header.buffers == rings[j] && |header.headers| == |HeaderStrings()|
      requires CanDecode(world, j, header.curLoc, data)
      modifies header
      modifies rings[j], rings[j].buffers, rings[j].dataSizes, rings[j].source, pool, pool.freeBufferList, pool.messages
      ensures pool.Valid()
      ensures FedBy(LineOf(old(world), j), feeds, Line(pool.View(), rings[j].View(), rings[j].source.script))
      ensures header.curLoc.circIndex == old(header.curLoc.circIndex) && 0 <= header.curLoc.buffPos <= |data|
      ensures data[header.curLoc.buffPos..] == BlockRest(data[old(header.curLoc.buffPos)..])
      ensures IsTested(Refilled(LineOf(old(world), j), old(header.curLoc)), old(header.curLoc.circIndex), data,
                       header.curLoc.buffPos, Line(pool.View(), rings[j].View(), rings[j].source.script))
      ensures header.curLoc.buffPos + 2 <= |data| ==>
        Line(pool.View(), rings[j].View(), rings[j].source.script)
          == Refilled(LineOf(old(world), j), old(header.curLoc))
      ensures header.headers == Store(old(header.headers), BlockFields(data[old(header.curLoc.buffPos)..]).value)
    {
      hide SharedBuffers.Valid, SharedBuffers.View, WorldValid, CircularBuffer.View, Sound, IsQueue, FedBy, Holds,
           Refilled, HeaderStrings, BlockFields, Store, BlockRest, IsTested;
      RingIsOk(j);
      feeds := header.DecodeHttpHeaders(data);
    }

    /** Some reads, and then the header: the block that they leave in the ring is decoded. */
    method ReceiveHeader(message: HttpMessage, header: HttpHeaders, ghost j: nat, before: nat, ghost data: string)
      returns (ghost readCount: nat)
      requires Ok() && j < |rings| && message.buffers == header.buffers == rings[j]
      requires |header.headers| == |HeaderStrings()| && CanDecodeAfter(world, j, before, header.curLoc, data)
      modifies header
      modifies this`world, rings[j], rings[j].buffers, rings[j].dataSizes, rings[j].source,
               pool, pool.freeBufferList, pool.messages
      ensures Ok() && readCount >= before
      ensures DecodedTo(AfterReads(old(world), j, before), j, old(header.curLoc), data, header.curLoc, world)
      ensures AllInRange(old(world), ReadOps(j, readCount)) && world == Run(old(world), ReadOps(j, readCount))
      ensures header.headers == Store(old(header.headers), BlockFields(data[old(header.curLoc.buffPos)..]).value)
    {
      hide Ok, CircularBuffer.View, Run, WorldValid, CanDecode, HeaderStrings, BlockFields, Store, DecodedTo;
      WorldIsValid();
      ReadMessageTimes(message, j, before);
      ReadsBefore(old(world), j, before, world);
      var feeds := DecodeHeaderOf(header, j, data);
      readCount := before + feeds;
      RunReadsMore(old(world), j, before, feeds);
    }

    /** receive_new_request_from_client when its header can be decoded after its two reads:
        a run of reads on the request's ring, and the values of the block on the stacks. */
    method ReceiveRequestWithHeader(header: HttpHeaders, ghost data: string) returns (ghost readCount: nat)
      requires Ok() && header.buffers == rings[0]
      requires |header.headers| == |HeaderStrings()| && CanDecodeAfter(world, 0, 2, header.curLoc, data)
      modifies header
      modifies this`world, rings[0], rings[0].buffers, rings[0].dataSizes, rings[0].source,
               pool, pool.freeBufferList, pool.messages
      ensures Ok() && readCount >= 2
      ensures DecodedTo(AfterReads(old(world), 0, 2), 0, old(header.curLoc), data, header.curLoc, world)
      ensures AllInRange(old(world), ReadOps(0, readCount)) && world == Run(old(world), ReadOps(0, readCount))
      ensures header.headers == Store(old(header.headers), BlockFields(data[old(header.curLoc.buffPos)..]).value)
    {
      hide Ok, CircularBuffer.View, Run, WorldValid, CanDecodeAfter, HeaderStrings, BlockFields, Store, DecodedTo;
      WorldIsValid();
      readCount := ReceiveHeader(request, header, 0, 2, data);
    }

    /** receive_reply when its header can be decoded after its one read: that, the header,
        and the body. */
    method ReceiveReplyWithHeader(i: nat, header: HttpHeaders, ghost data: string)
      returns (ghost readCount: nat, ghost bodyReads: nat)
      requires Ok() && i < |replies| && header.buffers == rings[i + 1]
      requires |header.headers| == |HeaderStrings()| && CanDecodeAfter(world, i + 1, 1, header.curLoc, data)
      modifies header, replies[i].responseMessage
      modifies this`world, rings[i + 1], rings[i + 1].buffers, rings[i + 1].dataSizes, rings[i + 1].source,
               pool, pool.freeBufferList, pool.messages
      ensures Ok() && 0 < bodyReads < readCount
      ensures DecodedTo(AfterReads(old(world), i + 1, 1), i + 1, old(header.curLoc), data, header.curLoc,
                        AfterReads(old(world), i + 1, readCount - bodyReads))
      ensures AllInRange(old(world), ReadOps(i + 1, readCount)) && world == Run(old(world), ReadOps(i + 1, readCount))
      ensures BodyReceived(AfterReads(old(world), i + 1, readCount - bodyReads), world, i + 1, bodyReads)
      ensures replies[i].responseMessage.status == HTTP_MSG_STATUS_BODY_COMPLETE
      ensures replies[i].responseMessage.rawMessageLength == old(replies[i].responseMessage.rawMessageLength)
                + Gained(AfterReads(old(world), i + 1, readCount - bodyReads), world, i + 1)
      ensures header.headers == Store(old(header.headers), BlockFields(data[old(header.curLoc.buffPos)..]).value)
    {
      hide Ok, CircularBuffer.View, Run, WorldValid, CanDecodeAfter, HeaderStrings, BlockFields, Store, BodyReceived,
           Gained, DecodedTo;
      WorldIsValid();
      readCount := ReceiveHeader(replies[i].responseMessage, header, i + 1, 1, data);
      WorldIsValid();
      ghost var start := world;
      bodyReads := ReadBodyOf(replies[i].responseMessage, i + 1);
      RunReadsMore(old(world), i + 1, readCount, bodyReads);
      ReadsBefore(old(world), i + 1, readCount, start);
      SomeReads(start, world, i + 1, bodyReads);
      readCount := readCount + bodyReads;
    }

    /** receive_new_request_from_client: two reads, and as many more as decoding the
        header takes. */
    method ReceiveRequest(headerReads: nat)
      requires Ok()
      modifies this`world, rings[0], rings[0].buffers, rings[0].dataSizes, rings[0].source,
               pool, pool.freeBufferList, pool.messages
      ensures Ok() && AllInRange(old(world), ReadOps(0, 2 + headerReads))
      ensures world == Run(old(world), ReadOps(0, 2 + headerReads))
    {
      hide Ok, CircularBuffer.View, Run, WorldValid;
      WorldIsValid();
      RunReadsMore(world, 0, 2, headerReads);
      ReadMessageTimes(request, 0, 2);
      ReadMessageTimes(request, 0, headerReads);
    }

    /** receive_reply: one read, as many as decoding the header takes, and the body. */
    method ReceiveReply(i: nat, headerReads: nat) returns (ghost readCount: nat)
      requires Ok() && i < |replies|
      modifies replies[i].responseMessage
      modifies this`world, rings[i + 1], rings[i + 1].buffers, rings[i + 1].dataSizes, rings[i + 1].source,
               pool, pool.freeBufferList, pool.messages
      ensures Ok() && readCount > 1 + headerReads
      ensures BodyReceived(AfterReads(old(world), i + 1, 1 + headerReads), world, i + 1, readCount - (1 + headerReads))
      ensures replies[i].responseMessage.status == HTTP_MSG_STATUS_BODY_COMPLETE
      ensures replies[i].responseMessage.rawMessageLength == old(replies[i].responseMessage.rawMessageLength)
                + Gained(AfterReads(old(world), i + 1, 1 + headerReads), world, i + 1)
      ensures AllInRange(old(world), ReadOps(i + 1, readCount)) && world == Run(old(world), ReadOps(i + 1, readCount))
    {
      hide Ok, CircularBuffer.View, Run, WorldValid, BodyReceived, Gained;
      WorldIsValid();
      ReadMessageTimes(replies[i].responseMessage, i + 1, 1 + headerReads);
      WorldIsValid();
      ghost var start := world;
      var bodyReads := ReadBodyOf(replies[i].responseMessage, i + 1);
      ReadsBefore(old(world), i + 1, 1 + headerReads, start);
      SomeReads(start, world, i + 1, bodyReads);
      readCount := 1 + headerReads + bodyReads;
      RunReadsMore(old(world), i + 1, 1 + headerReads, bodyReads);
    }

    lemma WorldIsValid()
      requires Ok()
      ensures WorldValid(world) && IsQueue(world) && |world.channels| == |rings| == |replies| + 1
      ensures rings[0] == request.buffers
      ensures forall i :: 0 <= i < |replies| ==> rings[i + 1] == replies[i].responseMessage.buffers
      ensures forall i, j :: 0 <= i < j < |replies| ==>
        replies[i].sink != replies[j].sink && replies[i].responseMessage != replies[j].responseMessage
    {
    }

    /** send_request: only the last server's send moves the request on. */
    method SendRequest(i: nat, last: bool)
      requires Ok() && i < |replies|
      modifies this`world, replies[i].sink, rings[0], rings[0].buffers, rings[0].dataSizes,
               pool, pool.freeBufferList, pool.messages
      ensures Ok() && world == Step(old(world), SendOp(0, last))
      ensures replies[i].sink.log == old(replies[i].sink.log) + HeadOf(old(world))
    {
      hide SharedBuffers.Valid, SharedBuffers.View, WorldValid, Step, CircularBuffer.View, CircularBuffer.Ok,
           IsQueue, HeadOf, AfterSend;
      SendRing(i, last);
      StepFollows(world, SendOp(0, last));
      StepIsLocal(world, SendOp(0, last));
      world := Step(world, SendOp(0, last));
      OnlyRing(0);
    }

    method SendRing(i: nat, last: bool)
      requires Ok() && i < |replies|
      modifies replies[i].sink, rings[0], rings[0].buffers, rings[0].dataSizes, pool, pool.freeBufferList, pool.messages
      ensures pool.Valid() && replies[i].sink.log == old(replies[i].sink.log) + HeadOf(old(world))
      ensures Line(pool.View(), rings[0].View(), rings[0].source.script) ==
        if last && !old(world).channels[0].ring.IsEmpty() then AfterSend(LineOf(old(world), 0))
        else LineOf(old(world), 0)
    {
      hide SharedBuffers.Valid, SharedBuffers.View, WorldValid, Sent, SlotBytes, Sound, Ring.Window, IsQueue;
      RingIsOk(0);
      request.SendNextBufferToDestination(replies[i].sink, last);
    }

    /** One server: send, then read its reply. */
    method SendRequestToServerAndWaitReply(i: nat, last: bool, headerReads: nat) returns (ghost readCount: nat)
      requires Ok() && i < |replies|
      modifies replies[i].responseMessage
      modifies this`world, replies[i].sink, rings[0], rings[0].buffers, rings[0].dataSizes,
               rings[i + 1], rings[i + 1].buffers, rings[i + 1].dataSizes, rings[i + 1].source,
               pool, pool.freeBufferList, pool.messages
      ensures Ok() && readCount > 1 + headerReads && AllInRange(old(world), ServerOps(i, last, readCount))
      ensures world == Run(old(world), ServerOps(i, last, readCount))
      ensures BodyReceived(AfterReads(AfterSending(old(world), last), i + 1, 1 + headerReads), world, i + 1,
                           readCount - (1 + headerReads))
      ensures replies[i].responseMessage.status == HTTP_MSG_STATUS_BODY_COMPLETE
      ensures replies[i].sink.log == old(replies[i].sink.log) + HeadOf(old(world))
    {
      hide Ok, HeadOf, CircularBuffer.View, WorldValid, Step, SharedBuffers.Valid, SharedBuffers.View, BodyReceived,
           Gained, AfterReads;
      WorldIsValid();
      SendRequest(i, last);
      readCount := ReceiveReply(i, headerReads);
      RunServer(old(world), i, last, readCount);
    }

    /** The next server: what holds after i servers holds after i + 1. */
    method ServeNext(i: nat, headerReads: seq<nat>, ghost w: World, ghost readCounts: seq<nat>)
      returns (ghost readCounts': seq<nat>)
      requires Ok() && |readCounts| == i < |replies| == |headerReads|
      requires IsForwarded(w, readCounts, |replies|, world) && IsQueue(w)
      requires AllServed(w, headerReads, readCounts, |replies|, i, world)
      modifies replies[i].responseMessage
      modifies this`world, replies[i].sink, rings[0], rings[0].buffers, rings[0].dataSizes,
               rings[i + 1], rings[i + 1].buffers, rings[i + 1].dataSizes, rings[i + 1].source,
               pool, pool.freeBufferList, pool.messages
      ensures Ok() && |readCounts'| == i + 1 && IsForwarded(w, readCounts', |replies|, world)
      ensures AllServed(w, headerReads, readCounts', |replies|, i + 1, world)
      ensures replies[i].responseMessage.status == HTTP_MSG_STATUS_BODY_COMPLETE
      ensures replies[i].sink.log == old(replies[i].sink.log) + HeadOf(w)
    {
      hide Ok, HeadOf, CircularBuffer.View, WorldValid, SharedBuffers.Valid, SharedBuffers.View, Dropped, IsForwarded,
           Run, AllInRange, ServerOps, IsQueue, Ring.Shape, Sound, Separate, BodyReceived, AfterReads,
           AfterSending, AllServed;
      ghost var before := world;
      ForwardedIs(w, readCounts, |replies|, before);
      var readCount := SendRequestToServerAndWaitReply(i, i == |replies| - 1, headerReads[i]);
      RunOneMoreServer(w, readCounts, |replies|, before, readCount);
      OneMoreServed(w, headerReads, readCounts, |replies|, before, world, readCount);
      readCounts' := readCounts + [readCount];
    }

    /** forward_request_to_all_servers in FORWARD_MODE_SEQ: every server gets the oldest
        slot of the request as it was at entry, and nothing else; the request moves on by
        that slot, once, if there is any server; no reply loses a byte. How many reads
        the header of each reply takes is up to the servers. */
    method ForwardRequestToAllServers(headerReads: seq<nat>) returns (ghost readCounts: seq<nat>)
      requires Ok() && |headerReads| == |replies|
      modifies this`world, set r | r in replies :: r.sink, set r | r in replies :: r.responseMessage
      modifies rings, set r | r in rings :: r.buffers, set r | r in rings :: r.dataSizes, set r | r in rings :: r.source
      modifies pool, pool.freeBufferList, pool.messages
      ensures Ok() && |readCounts| == |replies| && IsForwarded(old(world), readCounts, |replies|, world)
      ensures AllServed(old(world), headerReads, readCounts, |replies|, |replies|, world)
      ensures forall j :: 0 <= j < |replies| ==> replies[j].responseMessage.status == HTTP_MSG_STATUS_BODY_COMPLETE
      ensures forall j :: 0 <= j < |replies| ==> replies[j].sink.log == old(replies[j].sink.log) + HeadOf(old(world))
      ensures request.buffers.View() ==
        if |replies| > 0 then Dropped(old(request.buffers.View())) else old(request.buffers.View())
    {
      hide Ok, HeadOf, CircularBuffer.View, WorldValid, SharedBuffers.Valid, SharedBuffers.View, Dropped, IsForwarded,
           Run, AllInRange, ServerOps, IsQueue, Ring.Shape, Sound, Separate, AllServed;
      WorldIsValid();
      RequestView();
      readCounts := ServeAll(headerReads);
      RunAllServers(old(world), readCounts, world);
      RequestView();
    }

    /** The loop over the servers. */
    method ServeAll(headerReads: seq<nat>) returns (ghost readCounts: seq<nat>)
      requires Ok() && |headerReads| == |replies|
      modifies this`world, set r | r in replies :: r.sink, set r | r in replies :: r.responseMessage
      modifies rings, set r | r in rings :: r.buffers, set r | r in rings :: r.dataSizes, set r | r in rings :: r.source
      modifies pool, pool.freeBufferList, pool.messages
      ensures Ok() && |readCounts| == |replies| && IsForwarded(old(world), readCounts, |replies|, world)
      ensures AllServed(old(world), headerReads, readCounts, |replies|, |replies|, world)
      ensures forall j :: 0 <= j < |replies| ==> replies[j].responseMessage.status == HTTP_MSG_STATUS_BODY_COMPLETE
      ensures forall j :: 0 <= j < |replies| ==> replies[j].sink.log == old(replies[j].sink.log) + HeadOf(old(world))
    {
      hide Ok, HeadOf, CircularBuffer.View, WorldValid, SharedBuffers.Valid, SharedBuffers.View, IsForwarded,
           IsQueue, Separate, AllServed, Shaped;
      WorldIsValid();
      RunNoServer(world, |replies|);
      readCounts := [];
      NoneServed(world, headerReads, |replies|);
      for i := 0 to |replies|
        invariant Ok() && |readCounts| == i && IsForwarded(old(world), readCounts, |replies|, world)
        invariant AllServed(old(world), headerReads, readCounts, |replies|, i, world)
        invariant forall j :: 0 <= j < i ==> Done(j, old(replies[j].sink.log) + HeadOf(old(world)))
        invariant forall j :: i <= j < |replies| ==> replies[j].sink.log == old(replies[j].sink.log)
      {
        readCounts := ServeNext(i, headerReads, old(world), readCounts);
      }
    }

    /** Server j has been sent this in all, and its reply is complete. */
    ghost predicate Done(j: nat, log: string)
      requires j < |replies|
      reads replies[j].sink, replies[j].responseMessage
    {
      replies[j].sink.log == log && replies[j].responseMessage.status == HTTP_MSG_STATUS_BODY_COMPLETE
    }

    /** A whole exchange: the request is read into its empty ring and sent to all servers.
        Each gets exactly what the client delivered to the first read, whatever is read
        after that, on any ring; that much of the request is gone from its ring. */
    method ServeRequest(headerReads: nat, replyReads: seq<nat>) returns (ghost readCounts: seq<nat>)
      requires Ok() && |replyReads| == |replies|
      requires request.buffers.View().IsEmpty() && Room(LineOf(world, 0)) > 0
      modifies this`world, set r | r in replies :: r.sink, set r | r in replies :: r.responseMessage
      modifies rings, set r | r in rings :: r.buffers, set r | r in rings :: r.dataSizes, set r | r in rings :: r.source
      modifies pool, pool.freeBufferList, pool.messages
      ensures Ok()
      ensures forall j :: 0 <= j < |replies| ==> replies[j].responseMessage.status == HTTP_MSG_STATUS_BODY_COMPLETE
      ensures var first := FeedData(old(request.buffers.source.script), request.buffers.maxSize).1;
        && (forall j :: 0 <= j < |replies| ==> replies[j].sink.log == old(replies[j].sink.log) + first)
        && (replies != [] ==> world.channels != [] && world.channels[0].sent == old(world).channels[0].sent + first)
    {
      hide Ok, HeadOf, CircularBuffer.View, WorldValid, SharedBuffers.Valid, SharedBuffers.View, Dropped,
           Run, AllInRange, ServerOps, IsQueue, Sound, Separate, FeedData, Follows, ForwardOps, WorldOf;
      WorldIsValid();
      RequestView();
      FirstReadIsHead(world, 2 + headerReads);
      SentStays(world, 2 + headerReads);
      ReceiveRequest(headerReads);
      ghost var received := world;
      readCounts := ForwardRequestToAllServers(replyReads);
      RunAllServers(received, readCounts, world);
    }

    lemma RequestView()
      requires Ok()
      ensures world.channels != [] && request.buffers.View() == world.channels[0].ring
      ensures world.channels[0].source == request.buffers.source.script
      ensures world.channels[0].ring.maxSize == request.buffers.maxSize
    {
      assert MatchesAt(0);
    }
  }

  ghost function WorldOf(pool: SharedBuffers, rings: seq<CircularBuffer>): World
    reads rings, set r | r in rings :: r.buffers, set r | r in rings :: r.dataSizes, set r | r in rings :: r.source,
          pool, pool.freeBufferList, pool.messages
  {
    World(pool.View(), seq(|rings|, i requires 0 <= i < |rings|
        reads rings, set r | r in rings :: r.buffers, set r | r in rings :: r.dataSizes,
              set r | r in rings :: r.source =>
      Channel(rings[i].View(), rings[i].source.script, [], [])))
  }

  /** new_request_replies: a request and one reply per server, each with its own empty
      ring, on a pool of which nothing has been handed out. (The source leaves the
      message of a reply unset; here each reply gets one.) */
  method NewRequestReplies(pool: SharedBuffers, size: nat, maxSize: nat, requestSource: Source,
                           replySources: seq<Source>)
    returns (rr: RequestReplies)
    requires pool.Valid() && multiset(pool.View().free) == AllBuffers(pool.View().Capacity())
    requires size <= 30 && maxSize <= pool.View().bufferSize
    requires requestSource !in replySources
    requires forall i, j :: 0 <= i < j < |replySources| ==> replySources[i] != replySources[j]
    ensures fresh(rr) && rr.Ok() && |rr.replies| == |replySources| && rr.pool == pool
    ensures forall i :: 0 <= i < |rr.rings| ==> rr.rings[i].IsEmpty() && NewObjects(rr.rings[i])
    ensures |rr.rings| == |rr.replies| + 1 && rr.rings[0] == rr.request.buffers && rr.rings[0].source == requestSource
    ensures rr.rings[0].View() == NewRing(size, maxSize)
    ensures forall i :: 0 <= i < |replySources| ==>
      && rr.replies[i].sink.log == [] && rr.rings[i + 1].source == replySources[i]
      && fresh(rr.replies[i].sink) && fresh(rr.replies[i].responseMessage)
  {
    hide SharedBuffers.Valid, SharedBuffers.View, WorldValid, NewRing, CircularBuffer.View, AllBuffers,
         CircularBuffer.Ok;
    var ring := NewEmptyRing(pool, size, maxSize, requestSource);
    var request := new HttpMessage(ring);
    var replies := NewReplies(ring, pool, size, maxSize, replySources);
    rr := new RequestReplies(request, replies, pool);
    forall i | 0 <= i < |rr.rings| ensures NewObjects(rr.rings[i]) {
      if i > 0 { assert rr.rings[i] == replies[i - 1].responseMessage.buffers; }
    }
    NewIsOk(rr, size, maxSize, requestSource, replySources);
  }

  method NewReplies(ring: CircularBuffer, pool: SharedBuffers, size: nat, maxSize: nat, sources: seq<Source>)
    returns (replies: seq<Reply>)
    requires pool.Valid() && size <= 30 && maxSize <= pool.View().bufferSize
    ensures |replies| == |sources|
    ensures forall j :: 0 <= j < |sources| ==> IsNewReply(replies[j], pool, sources[j], NewRing(size, maxSize))
    ensures AllApart(ring, replies)
    ensures forall j :: 0 <= j < |sources| ==>
      fresh(replies[j].sink) && fresh(replies[j].responseMessage) && NewObjects(replies[j].responseMessage.buffers)
  {
    hide SharedBuffers.Valid, SharedBuffers.View, NewRing, CircularBuffer.View, CircularBuffer.Ok;
    replies := [];
    for i := 0 to |sources|
      invariant |replies| == i && AllApart(ring, replies)
      invariant forall j :: 0 <= j < i ==> IsNewReply(replies[j], pool, sources[j], NewRing(size, maxSize))
      invariant forall j :: 0 <= j < i ==>
        fresh(replies[j].sink) && fresh(replies[j].responseMessage) && NewObjects(replies[j].responseMessage.buffers)
    {
      var buffers := NewEmptyRing(pool, size, maxSize, sources[i]);
      var message := new HttpMessage(buffers);
      var sink := new Sink();
      var reply := new Reply(sink, message);
      replies := replies + [reply];
    }
  }

  twostate predicate NewObjects(new ring: CircularBuffer) {
    fresh(ring) && fresh(ring.buffers) && fresh(ring.dataSizes)
  }

  /** No two of the rings, nor two of the connections, are the same. */
  ghost predicate AllApart(ring: CircularBuffer, replies: seq<Reply>) {
    && (forall j :: 0 <= j < |replies| ==> OwnArrays(ring, replies[j].responseMessage.buffers))
    && (forall j, k :: 0 <= j < k < |replies| ==>
          replies[j].sink != replies[k].sink
          && OwnArrays(replies[j].responseMessage.buffers, replies[k].responseMessage.buffers))
  }

  lemma NewIsOk(rr: RequestReplies, size: nat, maxSize: nat, requestSource: Source, replySources: seq<Source>)
    requires rr.pool.Valid() && multiset(rr.pool.View().free) == AllBuffers(rr.pool.View().Capacity())
    requires size <= 30 && maxSize <= rr.pool.View().bufferSize
    requires requestSource !in replySources
    requires forall i, j :: 0 <= i < j < |replySources| ==> replySources[i] != replySources[j]
    requires |rr.replies| == |replySources| && |rr.rings| == |rr.replies| + 1 && rr.rings[0] == rr.request.buffers
    requires forall i :: 0 <= i < |rr.replies| ==> rr.rings[i + 1] == rr.replies[i].responseMessage.buffers
    requires IsNewRing(rr.rings[0], rr.pool, requestSource, NewRing(size, maxSize))
    requires forall j :: 0 <= j < |replySources| ==>
      IsNewReply(rr.replies[j], rr.pool, replySources[j], NewRing(size, maxSize))
    requires AllApart(rr.rings[0], rr.replies) && rr.world == WorldOf(rr.pool, rr.rings)
    ensures rr.Ok() && forall i :: 0 <= i < |rr.rings| ==> rr.rings[i].IsEmpty()
  {
    hide SharedBuffers.Valid, SharedBuffers.View, WorldValid, AllBuffers, OwnArrays;
    var sources := [requestSource] + replySources;
    PoolViewValid(rr.pool);
    forall i | 0 <= i < |rr.rings| ensures IsNewRing(rr.rings[i], rr.pool, sources[i], NewRing(size, maxSize)) {
      if i > 0 { assert IsNewReply(rr.replies[i - 1], rr.pool, replySources[i - 1], NewRing(size, maxSize)); }
    }
    forall i, j | 0 <= i < j < |rr.rings| ensures OwnArrays(rr.rings[i], rr.rings[j]) {
      assert rr.rings[j] == rr.replies[j - 1].responseMessage.buffers;
      if i > 0 { assert rr.rings[i] == rr.replies[i - 1].responseMessage.buffers; }
    }
    NewIsSeparate(rr, sources, NewRing(size, maxSize));
    NewWorldOk(rr.world, size, maxSize);
  }

  lemma NewIsSeparate(rr: RequestReplies, sources: seq<Source>, r0: Ring)
    requires |rr.rings| == |rr.replies| + 1 == |sources| && rr.rings[0] == rr.request.buffers
    requires forall i :: 0 <= i < |rr.replies| ==> rr.rings[i + 1] == rr.replies[i].responseMessage.buffers
    requires forall i, j :: 0 <= i < j < |sources| ==> sources[i] != sources[j]
    requires forall i :: 0 <= i < |rr.rings| ==> IsNewRing(rr.rings[i], rr.pool, sources[i], r0)
    requires forall i, j :: 0 <= i < j < |rr.rings| ==> OwnArrays(rr.rings[i], rr.rings[j])
    requires forall i, j :: 0 <= i < j < |rr.replies| ==> rr.replies[i].sink != rr.replies[j].sink
    ensures rr.Separate()
  {
    hide CircularBuffer.View, SharedBuffers.View;
  }

  method NewEmptyRing(pool: SharedBuffers, size: nat, maxSize: nat, source: Source) returns (ring: CircularBuffer)
    requires pool.Valid() && size <= 30 && maxSize <= pool.View().bufferSize
    ensures fresh(ring) && fresh(ring.buffers) && fresh(ring.dataSizes)
    ensures IsNewRing(ring, pool, source, NewRing(size, maxSize))
  {
    hide SharedBuffers.Valid, SharedBuffers.View, Sound, Pow2;
    ring := new CircularBuffer(size, maxSize, pool, source);
  }

  ghost predicate IsNewRing(ring: CircularBuffer, pool: SharedBuffers, source: Source, r0: Ring)
    reads ring, ring.buffers, ring.dataSizes
  {
    && ring.pool == pool && ring.source == source && ring.View() == r0
    && ring.buffers != ring.dataSizes && ring.buffers != pool.freeBufferList && ring.dataSizes != pool.freeBufferList
  }

  ghost predicate IsNewReply(reply: Reply, pool: SharedBuffers, source: Source, r0: Ring)
    reads reply.sink, reply.responseMessage.buffers, reply.responseMessage.buffers.buffers,
          reply.responseMessage.buffers.dataSizes
  {
    reply.sink.log == [] && IsNewRing(reply.responseMessage.buffers, pool, source, r0)
  }

  predicate OwnArrays(a: CircularBuffer, b: CircularBuffer) {
    && a != b && a.buffers != b.buffers && a.dataSizes != b.dataSizes
    && a.buffers != b.dataSizes && a.dataSizes != b.buffers
  }

  /** The whole proxy, once, from nothing: whatever the client and the servers deliver,
      and whenever, every server receives exactly the client's first delivery, cut at the
      size of a buffer. */
  method FirstExchange(capacity: nat, bufferSize: nat, size: nat, maxSize: nat, request: seq<Delivery>,
                       replies: seq<seq<Delivery>>, headerReads: nat, replyReads: seq<nat>)
    returns (received: seq<string>)
    requires capacity > 0 && 0 < size <= 30 && maxSize <= bufferSize && |replyReads| == |replies|
    ensures |received| == |replies|
    ensures forall j :: 0 <= j < |replies| ==>
      received[j] == if request == [] || request[0].Failure? then []
                     else if |request[0].data| <= maxSize then request[0].data
                     else request[0].data[..maxSize]
  {
    hide SharedBuffers.Valid, SharedBuffers.View, CircularBuffer.View, RequestReplies.Ok, FeedData,
         RequestReplies.Separate;
    var rr := NewExchange(capacity, bufferSize, size, maxSize, request, replies);
    var _ := rr.ServeRequest(headerReads, replyReads);
    received := [];
    for j := 0 to |replies|
      invariant |received| == j
      invariant forall k :: 0 <= k < j ==> received[k] == FeedData(request, maxSize).1
    {
      received := received + [rr.replies[j].sink.log];
    }
    FeedTakesWhatFits(request, maxSize);
  }

  method NewExchange(capacity: nat, bufferSize: nat, size: nat, maxSize: nat, request: seq<Delivery>,
                     replies: seq<seq<Delivery>>)
    returns (rr: RequestReplies)
    requires capacity > 0 && 0 < size <= 30 && maxSize <= bufferSize
    ensures AllNew(rr) && rr.Ok() && |rr.replies| == |replies|
    ensures rr.request.buffers.View().IsEmpty() && rr.world.channels != [] && Room(LineOf(rr.world, 0)) > 0
    ensures rr.request.buffers.source.script == request && rr.request.buffers.maxSize == maxSize
    ensures forall j :: 0 <= j < |replies| ==> rr.replies[j].sink.log == []
  {
    hide SharedBuffers.Valid, SharedBuffers.View, CircularBuffer.View, AllBuffers, RequestReplies.Ok, NewRing;
    InitialFree(capacity);
    var pool := new SharedBuffers(capacity, bufferSize);
    var requestSource := new Source(request);
    var replySources := NewSources(requestSource, replies);
    rr := NewRequestReplies(pool, size, maxSize, requestSource, replySources);
    NewRequestHasRoom(rr, size, maxSize);
    forall r | r in rr.rings ensures fresh(r.buffers) && fresh(r.dataSizes) && fresh(r.source) {
      var i :| 0 <= i < |rr.rings| && rr.rings[i] == r;
      assert NewObjects(r);
      if i > 0 { assert r.source == replySources[i - 1]; }
    }
  }

  twostate predicate AllNew(new rr: RequestReplies)
    reads rr
  {
    && fresh(rr) && fresh(rr.pool) && fresh(rr.pool.freeBufferList) && fresh(rr.pool.messages)
    && (forall i :: 0 <= i < |rr.rings| ==> fresh(rr.rings[i]))
    && (forall r :: r in rr.rings ==> fresh(r.buffers) && fresh(r.dataSizes) && fresh(r.source))
    && (forall r :: r in rr.replies ==> fresh(r.sink) && fresh(r.responseMessage))
  }

  lemma NewRequestHasRoom(rr: RequestReplies, size: nat, maxSize: nat)
    requires rr.Ok() && 0 < size <= 30 && rr.pool.View().free != []
    requires rr.request.buffers.View() == NewRing(size, maxSize)
    ensures rr.world.channels != [] && rr.request.buffers.View().IsEmpty() && Room(LineOf(rr.world, 0)) > 0
    ensures rr.request.buffers.maxSize == maxSize
  {
    hide WorldValid, SharedBuffers.Valid;
    rr.RequestView();
    assert Pow2(size) == 2 * Pow2(size - 1);
  }

  method NewSources(other: Source, scripts: seq<seq<Delivery>>) returns (sources: seq<Source>)
    ensures |sources| == |scripts| && other !in sources && other.script == old(other.script)
    ensures forall i :: 0 <= i < |sources| ==> fresh(sources[i])
    ensures forall i, j :: 0 <= i < j < |sources| ==> sources[i] != sources[j]
  {
    sources := [];
    for k := 0 to |scripts|
      invariant |sources| == k && other !in sources
      invariant forall i :: 0 <= i < k ==> fresh(sources[i])
      invariant forall i, j :: 0 <= i < j < k ==> sources[i] != sources[j]
    {
      var source := new Source(scripts[k]);
      sources := sources + [source];
    }
  }

  /** New rings on an untouched pool: a valid world of empty queues. */
  lemma NewWorldOk(w: World, size: nat, maxSize: nat)
    requires multiset(w.pool.free) == AllBuffers(w.pool.Capacity()) && w.pool.Valid()
    requires size <= 30 && maxSize <= w.pool.bufferSize
    requires forall i :: 0 <= i < |w.channels| ==>
      w.channels[i] == Channel(NewRing(size, maxSize), w.channels[i].source, [], [])
    ensures WorldValid(w) && IsQueue(w)
  {
    hide AllBuffers, Owned, Sound, NewRing;
    forall i | 0 <= i < |w.channels| ensures Valid(LineOf(w, i)) && w.channels[i].ring.Window() == [] {
      NewRingIsValid(w.pool, size, maxSize, w.channels[i].source);
    }
    NothingOwned(w.channels);
  }
}
