/**
 Sequential fan-out as a run: ring 0 holds the request, ring i + 1 the reply of server i.
 */
module FanOut {
  import opened BufferPool
  import opened RingState
  import opened ByteStream
  import opened ManyRings
  import opened PointerAddition
  import opened HttpMessages

  /** What every server is to be sent: the oldest slot of the request. */
  ghost function HeadOf(w: World): string {
    if !Shaped(w.channels) || w.channels == [] || w.channels[0].ring.IsEmpty() then []
    else SlotBytes(w.pool.contents, w.channels[0].ring.Window()[0])
  }

  /** The request ring after the last send: an empty ring stays as it is. */
  ghost function Dropped(r: Ring): Ring {
    if r.Shape() && !r.IsEmpty() then Popped(r) else r
  }

  function ReadOps(j: nat, count: nat): seq<Op> {
    seq(count, _ => ReadOp(j))
  }

  /** The worlds after some reads, after a send of the request, and after some servers; a
      world that is not valid stays as it is. */
  ghost function AfterReads(w: World, j: nat, count: nat): World {
    if WorldValid(w) && AllInRange(w, ReadOps(j, count)) then Run(w, ReadOps(j, count)) else w
  }

  ghost function AfterSending(w: World, last: bool): World {
    if WorldValid(w) && w.channels != [] then Step(w, SendOp(0, last)) else w
  }

  ghost function AfterServers(w: World, readCounts: seq<nat>, n: nat): World {
    if WorldValid(w) && AllInRange(w, ForwardOps(readCounts, n)) then Run(w, ForwardOps(readCounts, n)) else w
  }

  /** One server: the request is sent to it, and its reply is read. */
  function ServerOps(i: nat, last: bool, readCount: nat): seq<Op> {
    [SendOp(0, last)] + ReadOps(i + 1, readCount)
  }

  /** The first servers of n: as many as there are read counts. */
  function ForwardOps(readCounts: seq<nat>, n: nat): seq<Op> {
    if readCounts == [] then []
    else
      var i := |readCounts| - 1;
      ForwardOps(readCounts[..i], n) + ServerOps(i, i + 1 == n, readCounts[i])
  }

  lemma {:induction false} ForwardInRange(w: World, readCounts: seq<nat>, n: nat)
    requires |readCounts| < |w.channels|
    ensures AllInRange(w, ForwardOps(readCounts, n))
  {
    if readCounts != [] { ForwardInRange(w, readCounts[..|readCounts| - 1], n); }
  }

  lemma {:induction false} RunAppend(w: World, a: seq<Op>, b: seq<Op>)
    requires WorldValid(w) && AllInRange(w, a + b)
    ensures AllInRange(w, a) && WorldValid(Run(w, a)) && |Run(w, a).channels| == |w.channels|
    ensures AllInRange(Run(w, a), b) && Run(w, a + b) == Run(Run(w, a), b)
    decreases |a|
  {
    hide WorldValid, Step;
    assert forall k :: 0 <= k < |a| ==> a[k] == (a + b)[k];
    assert forall k :: 0 <= k < |b| ==> b[k] == (a + b)[|a| + k];
    if a == [] {
      assert a + b == b;
    } else {
      StepKeepsWorld(w, a[0]);
      assert (a + b)[1..] == a[1..] + b;
      RunAppend(Step(w, a[0]), a[1..], b);
    }
  }

  lemma RunOne(w: World, op: Op)
    requires WorldValid(w) && InRange(w, op)
    ensures AllInRange(w, [op]) && Run(w, [op]) == Step(w, op)
  {
    hide WorldValid, Step;
    StepKeepsWorld(w, op);
    assert Run(Step(w, op), [op][1..]) == Step(w, op);
  }

  lemma RunReadsMore(w: World, j: nat, a: nat, b: nat)
    requires WorldValid(w) && j < |w.channels|
    ensures AllInRange(w, ReadOps(j, a)) && WorldValid(Run(w, ReadOps(j, a))) && AllInRange(w, ReadOps(j, a + b))
    ensures |Run(w, ReadOps(j, a)).channels| == |w.channels| && AllInRange(Run(w, ReadOps(j, a)), ReadOps(j, b))
    ensures Run(w, ReadOps(j, a + b)) == Run(Run(w, ReadOps(j, a)), ReadOps(j, b))
  {
    hide WorldValid, Step;
    assert ReadOps(j, a + b) == ReadOps(j, a) + ReadOps(j, b);
    RunAppend(w, ReadOps(j, a), ReadOps(j, b));
  }

  lemma RunOneRead(w: World, j: nat)
    requires WorldValid(w) && j < |w.channels|
    ensures AllInRange(w, ReadOps(j, 1)) && Run(w, ReadOps(j, 1)) == Step(w, ReadOp(j))
  {
    hide WorldValid, Step;
    assert ReadOps(j, 1) == [ReadOp(j)];
    RunOne(w, ReadOp(j));
  }

  /** Reads send nothing. */
  lemma {:induction false} SentStays(w: World, count: nat)
    requires WorldValid(w) && w.channels != []
    ensures AllInRange(w, ReadOps(0, count)) && WorldValid(Run(w, ReadOps(0, count)))
    ensures |Run(w, ReadOps(0, count)).channels| == |w.channels|
    ensures Run(w, ReadOps(0, count)).channels[0].sent == w.channels[0].sent
    decreases count
  {
    hide Sound, Partitioned;
    assert AllInRange(w, ReadOps(0, count));
    if count > 0 {
      StepKeepsWorld(w, ReadOp(0));
      assert ReadOps(0, count)[1..] == ReadOps(0, count - 1);
      SentStays(Step(w, ReadOp(0)), count - 1);
    }
  }

  /** A step changes the pool and its own channel. */
  lemma StepIsLocal(w: World, op: Op)
    requires WorldValid(w) && InRange(w, op)
    ensures |Step(w, op).channels| == |w.channels|
    ensures forall k :: 0 <= k < |w.channels| && k != op.i ==> Step(w, op).channels[k] == w.channels[k]
    ensures LineOf(Step(w, op), op.i) ==
      if op.ReadOp? then Feed(LineOf(w, op.i)).0
      else if op.move && !w.channels[op.i].ring.IsEmpty() then AfterSend(LineOf(w, op.i)) else LineOf(w, op.i)
  {
    hide Sound, Feed, Sent, Ring.Window;
  }

  /** However any ring is read, the oldest slot of the request keeps its bytes. */
  lemma ReadKeepsHead(w: World, j: nat)
    requires WorldValid(w) && j < |w.channels| && (j != 0 || !w.channels[0].ring.IsEmpty())
    ensures Shaped(Step(w, ReadOp(j)).channels) && HeadOf(Step(w, ReadOp(j))) == HeadOf(w)
    ensures j != 0 ==> Step(w, ReadOp(j)).channels[0] == w.channels[0]
    ensures !w.channels[0].ring.IsEmpty() ==> !Step(w, ReadOp(j)).channels[0].ring.IsEmpty()
  {
    hide Sound, Fed, Partitioned, Ring.Window, Step, SlotBytes;
    StepKeepsWorld(w, ReadOp(j));
    StepIsLocal(w, ReadOp(j));
    StepCases(w, ReadOp(j));
    if !Idle(w, ReadOp(j)) && !w.channels[0].ring.IsEmpty() {
      FedKeepsHead(LineOf(w, j), LineOf(w, 0));
      FedKeepsLedger(LineOf(w, j));
    }
  }

  lemma FedKeepsHead(l: Line, other: Line)
    requires Valid(l) && Room(l) > 0 && Valid(other) && other.pool == l.pool && !other.ring.IsEmpty()
    ensures SlotBytes(Fed(l).pool.contents, other.ring.Window()[0])
         == SlotBytes(l.pool.contents, other.ring.Window()[0])
  {
    hide Ledger, AllBuffers, Ring.Window, FeedData;
    AllocatedIsOwned(l);
    LiveIsNotFree(other, 0);
    assert Alloc(l.pool).1 in l.pool.free;
  }

  /** A send that is not the last one changes nothing; the last one moves the oldest
      slot from the live bytes of the request to its sent bytes. */
  lemma SendMovesHead(w: World, last: bool)
    requires WorldValid(w) && w.channels != []
    ensures !last ==> Step(w, SendOp(0, last)) == w
    ensures last ==>
      Step(w, SendOp(0, last)).channels[0] == w.channels[0].(ring := Dropped(w.channels[0].ring),
                              sent := w.channels[0].sent + HeadOf(w))
  {
    hide Sound, Partitioned, Ring.Window, SlotBytes, Popped;
    if last && !w.channels[0].ring.IsEmpty() {
      SentEffect(LineOf(w, 0));
    }
  }

  lemma {:induction false} ReadsKeepRequest(w: World, j: nat, count: nat)
    requires WorldValid(w) && j < |w.channels| && (j != 0 || !w.channels[0].ring.IsEmpty())
    ensures AllInRange(w, ReadOps(j, count)) && WorldValid(Run(w, ReadOps(j, count)))
    ensures |Run(w, ReadOps(j, count)).channels| == |w.channels| && HeadOf(Run(w, ReadOps(j, count))) == HeadOf(w)
    ensures j != 0 ==> Run(w, ReadOps(j, count)).channels[0] == w.channels[0]
    decreases count
  {
    hide Sound, Partitioned, HeadOf, Step;
    assert AllInRange(w, ReadOps(j, count));
    if count > 0 {
      StepKeepsWorld(w, ReadOp(j));
      ReadKeepsHead(w, j);
      assert ReadOps(j, count)[1..] == ReadOps(j, count - 1);
      ReadsKeepRequest(Step(w, ReadOp(j)), j, count - 1);
    }
  }

  /** What any number of reads make of an empty request with room: its head is what the
      first of them delivered. */
  lemma FirstReadIsHead(w: World, count: nat)
    requires WorldValid(w) && w.channels != [] && w.channels[0].ring.IsEmpty()
    requires Room(LineOf(w, 0)) > 0 && count > 0
    ensures AllInRange(w, ReadOps(0, count))
    ensures HeadOf(Run(w, ReadOps(0, count))) == FeedData(w.channels[0].source, w.channels[0].ring.maxSize).1
  {
    hide WorldValid, HeadOf, FeedData, Step;
    assert AllInRange(w, ReadOps(0, count)) && ReadOps(0, count)[1..] == ReadOps(0, count - 1);
    FirstRead(w);
    ReadsKeepRequest(Step(w, ReadOp(0)), 0, count - 1);
  }

  lemma FirstRead(w: World)
    requires WorldValid(w) && w.channels != [] && w.channels[0].ring.IsEmpty() && Room(LineOf(w, 0)) > 0
    ensures WorldValid(Step(w, ReadOp(0))) && |Step(w, ReadOp(0)).channels| == |w.channels|
    ensures !Step(w, ReadOp(0)).channels[0].ring.IsEmpty()
    ensures HeadOf(Step(w, ReadOp(0))) == FeedData(w.channels[0].source, w.channels[0].ring.maxSize).1
  {
    hide Sound, Fed, FeedData, Step, SlotBytes, Ring.Window, Partitioned;
    FirstSlot(LineOf(w, 0));
    StepKeepsWorld(w, ReadOp(0));
    StepCases(w, ReadOp(0));
  }

  lemma FirstSlot(l: Line)
    requires Valid(l) && l.ring.IsEmpty() && Room(l) > 0
    ensures Fed(l).ring.Shape() && !Fed(l).ring.IsEmpty()
    ensures SlotBytes(Fed(l).pool.contents, Fed(l).ring.Window()[0]) == FeedData(l.source, l.ring.maxSize).1
  {
    hide Ledger, AllBuffers, Buffers, Ring.SizesOk;
    FedKeepsLedger(l);
    AllocatedIsOwned(l);
  }

  /** Reading a body is a run of reads: the line it leaves is the line of that run. */
  lemma {:induction false} ReadBodyIsARun(w: World, j: nat)
    requires WorldValid(w) && j < |w.channels|
    ensures Valid(LineOf(w, j))
    ensures var ops := ReadOps(j, ReadBody(LineOf(w, j)).attempts);
      && AllInRange(w, ops) && WorldValid(Run(w, ops)) && |Run(w, ops).channels| == |w.channels|
      && LineOf(Run(w, ops), j) == ReadBody(LineOf(w, j)).line
      && forall k :: 0 <= k < |w.channels| && k != j ==> Run(w, ops).channels[k] == w.channels[k]
    decreases Room(LineOf(w, j))
  {
    hide WorldValid, Sound, Feed, ReadBody, Step, ReadResult;
    LineIsValid(w, j);
    var l, count := LineOf(w, j), ReadBody(LineOf(w, j)).attempts;
    assert AllInRange(w, ReadOps(j, count));
    StepKeepsWorld(w, ReadOp(j));
    StepIsLocal(w, ReadOp(j));
    ReadBodyRound(l);
    assert ReadOps(j, count)[1..] == ReadOps(j, count - 1);
    if ReadResult(l) > 0 { ReadBodyIsARun(Step(w, ReadOp(j)), j); }
  }

  /** So is feeding a line: as many reads on its ring. */
  lemma {:induction false} FeedsAreARun(w: World, j: nat, n: nat)
    requires WorldValid(w) && j < |w.channels|
    ensures AllInRange(w, ReadOps(j, n)) && WorldValid(Run(w, ReadOps(j, n)))
    ensures |Run(w, ReadOps(j, n)).channels| == |w.channels|
    ensures FedBy(LineOf(w, j), n, LineOf(Run(w, ReadOps(j, n)), j))
    ensures forall k :: 0 <= k < |w.channels| && k != j ==> Run(w, ReadOps(j, n)).channels[k] == w.channels[k]
    decreases n
  {
    hide WorldValid, Sound, Feed, Step;
    LineIsValid(w, j);
    assert AllInRange(w, ReadOps(j, n));
    if n == 0 {
      FedOnce(LineOf(w, j));
    } else {
      StepKeepsWorld(w, ReadOp(j));
      StepIsLocal(w, ReadOp(j));
      FedOnce(LineOf(w, j));
      assert ReadOps(j, n)[1..] == ReadOps(j, n - 1);
      FeedsAreARun(Step(w, ReadOp(j)), j, n - 1);
      FedByMore(LineOf(w, j), 1, LineOf(Step(w, ReadOp(j)), j), n - 1, LineOf(Run(w, ReadOps(j, n)), j));
    }
  }

  /** After the body of ring j is read: the attempts made, and that all of it was read
      exactly if it fitted. */
  ghost predicate BodyReceived(w: World, w': World, j: nat, attempts: nat) {
    && WorldValid(w) && j < |w.channels| == |w'.channels|
    && attempts == ReadBody(LineOf(w, j)).attempts
    && (Pending(w'.channels[j].source) == [] <==> BodyFits(LineOf(w, j)))
  }

  lemma BodyIsReceived(w: World, j: nat)
    requires WorldValid(w) && j < |w.channels|
    ensures Valid(LineOf(w, j)) && AllInRange(w, ReadOps(j, ReadBody(LineOf(w, j)).attempts))
    ensures var attempts := ReadBody(LineOf(w, j)).attempts;
      BodyReceived(w, Run(w, ReadOps(j, attempts)), j, attempts)
  {
    hide WorldValid, ReadBody, BodyFits, Sound, Run, Pending;
    LineIsValid(w, j);
    ReadBodyIsARun(w, j);
    BodyIsCompleteIff(LineOf(w, j));
  }

  /** How many live bytes ring j has gained. */
  ghost function Gained(w: World, w': World, j: nat): int {
    if Shaped(w.channels) && Shaped(w'.channels) && j < |w.channels| && j < |w'.channels|
    then |LiveBytes(LineOf(w', j))| - |LiveBytes(LineOf(w, j))| else 0
  }

  lemma GainedByBody(w: World, j: nat)
    requires WorldValid(w) && j < |w.channels|
    ensures Valid(LineOf(w, j))
    ensures var body := ReadBody(LineOf(w, j));
      && AllInRange(w, ReadOps(j, body.attempts))
      && Gained(w, Run(w, ReadOps(j, body.attempts)), j) == |body.bytes|
  {
    hide ReadBody, Sound, Run, Partitioned, Bytes;
    LineIsValid(w, j);
    ReadBodyIsARun(w, j);
    ReadBodyGains(LineOf(w, j));
  }

  lemma LineIsValid(w: World, j: nat)
    requires WorldValid(w) && j < |w.channels|
    ensures Valid(LineOf(w, j))
  {
  }

  /** The request over the first servers of n: untouched up to the last one, and moved on
      by its oldest slot, once, after it. */
  lemma {:induction false} ForwardMovesOnce(w: World, readCounts: seq<nat>, n: nat)
    requires WorldValid(w) && |w.channels| == n + 1 && |readCounts| <= n
    ensures AllInRange(w, ForwardOps(readCounts, n))
    ensures var w' := Run(w, ForwardOps(readCounts, n));
      && WorldValid(w') && |w'.channels| == |w.channels|
      && (|readCounts| < n || n == 0 ==> w'.channels[0] == w.channels[0] && HeadOf(w') == HeadOf(w))
      && (|readCounts| == n > 0 ==>
            w'.channels[0] == w.channels[0].(ring := Dropped(w.channels[0].ring),
                              sent := w.channels[0].sent + HeadOf(w)))
  {
    hide WorldValid, HeadOf, Step, Dropped;
    ForwardInRange(w, readCounts, n);
    if readCounts != [] {
      var i := |readCounts| - 1;
      var last := i + 1 == n;
      ForwardMovesOnce(w, readCounts[..i], n);
      var u := Run(w, ForwardOps(readCounts[..i], n));
      RunAppend(w, ForwardOps(readCounts[..i], n), ServerOps(i, last, readCounts[i]));
      RunServer(u, i, last, readCounts[i]);
      SendMovesHead(u, last);
      ReadsKeepRequest(Step(u, SendOp(0, last)), i + 1, readCounts[i]);
    }
  }

  lemma RunServer(w: World, i: nat, last: bool, readCount: nat)
    requires WorldValid(w) && i + 1 < |w.channels|
    ensures AllInRange(w, ServerOps(i, last, readCount))
    ensures WorldValid(Step(w, SendOp(0, last))) && |Step(w, SendOp(0, last)).channels| == |w.channels|
    ensures AllInRange(Step(w, SendOp(0, last)), ReadOps(i + 1, readCount))
    ensures Run(w, ServerOps(i, last, readCount)) == Run(Step(w, SendOp(0, last)), ReadOps(i + 1, readCount))
  {
    hide WorldValid, Step;
    StepKeepsWorld(w, SendOp(0, last));
    assert ServerOps(i, last, readCount)[1..] == ReadOps(i + 1, readCount);
  }

  /** w' is what serving the first of n servers makes of w: no ring loses, repeats or
      reorders a byte. */
  ghost predicate IsForwarded(w: World, readCounts: seq<nat>, n: nat, w': World) {
    && |readCounts| <= n && |w.channels| == |w'.channels| == n + 1
    && WorldValid(w) && WorldValid(w') && AllInRange(w, ForwardOps(readCounts, n))
    && w' == Run(w, ForwardOps(readCounts, n)) && Follows(w, w')
  }

  lemma RunNoServer(w: World, n: nat)
    requires WorldValid(w) && |w.channels| == n + 1
    ensures IsForwarded(w, [], n, w)
  {
    hide WorldValid, Stream;
  }

  lemma RunOneMoreServer(w: World, readCounts: seq<nat>, n: nat, u: World, readCount: nat)
    requires |readCounts| < n && IsForwarded(w, readCounts, n, u) && IsQueue(w)
    ensures HeadOf(u) == HeadOf(w)
    ensures var ops := ServerOps(|readCounts|, |readCounts| + 1 == n, readCount);
      AllInRange(u, ops) && IsForwarded(w, readCounts + [readCount], n, Run(u, ops))
  {
    hide WorldValid, HeadOf, ServerOps, Run, Dropped, IsQueue, FollowsAt;
    var more := readCounts + [readCount];
    assert more[..|readCounts|] == readCounts;
    ForwardMovesOnce(w, readCounts, n);
    ForwardInRange(w, more, n);
    RunAppend(w, ForwardOps(readCounts, n), ServerOps(|readCounts|, |readCounts| + 1 == n, readCount));
    RunKeepsQueues(w, ForwardOps(more, n));
  }

  /** After all servers the request has moved on by its oldest slot, once, if there was
      any server. */
  lemma RunAllServers(w: World, readCounts: seq<nat>, w': World)
    requires IsForwarded(w, readCounts, |readCounts|, w')
    ensures w'.channels[0] == if readCounts == [] then w.channels[0]
      else w.channels[0].(ring := Dropped(w.channels[0].ring), sent := w.channels[0].sent + HeadOf(w))
  {
    hide WorldValid, HeadOf, Run, Dropped, FollowsAt;
    ForwardMovesOnce(w, readCounts, |readCounts|);
  }

  /** Where reading the body of the reply of server k starts. */
  ghost function BodyStart(w: World, headerReads: seq<nat>, readCounts: seq<nat>, n: nat, k: nat): World
    requires k < |headerReads| && k <= |readCounts|
  {
    AfterReads(AfterSending(AfterServers(w, readCounts[..k], n), k + 1 == n), k + 1, 1 + headerReads[k])
  }

  /** Server k has been served, and now the reply it sent is in its ring: all of its body
      exactly if that fitted. */
  ghost predicate Served(w: World, headerReads: seq<nat>, readCounts: seq<nat>, n: nat, k: nat, now: World) {
    && k < |headerReads| && k < |readCounts| && readCounts[k] >= 1 + headerReads[k]
    && BodyReceived(BodyStart(w, headerReads, readCounts, n, k), now, k + 1, readCounts[k] - (1 + headerReads[k]))
  }

  /** So have all servers before server i. */
  ghost predicate AllServed(w: World, headerReads: seq<nat>, readCounts: seq<nat>, n: nat, i: nat, now: World) {
    forall k :: 0 <= k < i ==> Served(w, headerReads, readCounts, n, k, now)
  }

  lemma NoneServed(w: World, headerReads: seq<nat>, n: nat)
    ensures AllServed(w, headerReads, [], n, 0, w)
  {
  }

  lemma ServedStays(w: World, headerReads: seq<nat>, readCounts: seq<nat>, n: nat, k: nat,
                    now: World, later: World, c: nat)
    requires Served(w, headerReads, readCounts, n, k, now)
    requires |later.channels| == |now.channels| && later.channels[k + 1] == now.channels[k + 1]
    ensures Served(w, headerReads, readCounts + [c], n, k, later)
  {
    hide BodyStart, ReadBody, BodyFits, WorldValid;
    assert (readCounts + [c])[..k] == readCounts[..k];
    SameStart(w, headerReads, readCounts, readCounts + [c], n, k);
  }

  lemma SameStart(w: World, headerReads: seq<nat>, a: seq<nat>, b: seq<nat>, n: nat, k: nat)
    requires k < |headerReads| && k <= |a| && k <= |b| && a[..k] == b[..k]
    ensures BodyStart(w, headerReads, a, n, k) == BodyStart(w, headerReads, b, n, k)
  {
    hide WorldValid, Run, Step;
  }

  /** Serving one server touches the request and the reply of that server. */
  lemma ServerIsLocal(w: World, i: nat, last: bool, readCount: nat, k: nat)
    requires WorldValid(w) && i + 1 < |w.channels| && 0 < k < |w.channels| && k != i + 1
    ensures AllInRange(w, ServerOps(i, last, readCount))
    ensures |Run(w, ServerOps(i, last, readCount)).channels| == |w.channels|
    ensures Run(w, ServerOps(i, last, readCount)).channels[k] == w.channels[k]
  {
    hide WorldValid, Step, FedBy, Run, ServerOps, ReadOps, AllInRange, Feed, AfterSend, Room, Ring.IsEmpty;
    RunServer(w, i, last, readCount);
    StepIsLocal(w, SendOp(0, last));
    FeedsAreARun(Step(w, SendOp(0, last)), i + 1, readCount);
  }

  lemma ReadsBefore(w: World, j: nat, count: nat, u: World)
    requires WorldValid(w) && AllInRange(w, ReadOps(j, count)) && u == Run(w, ReadOps(j, count))
    ensures AfterReads(w, j, count) == u
  {
  }

  lemma SomeReads(w: World, w': World, j: nat, attempts: nat)
    requires BodyReceived(w, w', j, attempts)
    ensures attempts > 0
  {
    hide WorldValid, Sound, BodyFits, Fed, FeedData;
    LineIsValid(w, j);
  }

  lemma ForwardedIs(w: World, readCounts: seq<nat>, n: nat, u: World)
    requires IsForwarded(w, readCounts, n, u)
    ensures WorldValid(u) && |u.channels| == n + 1 && u == AfterServers(w, readCounts, n)
  {
    hide WorldValid, Follows;
  }

  /** One more server served: those served before still are. */
  lemma OneMoreServed(w: World, headerReads: seq<nat>, readCounts: seq<nat>, n: nat, before: World, now: World, c: nat)
    requires |readCounts| < n == |headerReads| && |before.channels| == n + 1 && WorldValid(before)
    requires before == AfterServers(w, readCounts, n) && c >= 1 + headerReads[|readCounts|]
    requires AllInRange(before, ServerOps(|readCounts|, |readCounts| + 1 == n, c))
    requires now == Run(before, ServerOps(|readCounts|, |readCounts| + 1 == n, c))
    requires BodyReceived(AfterReads(AfterSending(before, |readCounts| + 1 == n),
                                        |readCounts| + 1, 1 + headerReads[|readCounts|]),
                          now, |readCounts| + 1, c - (1 + headerReads[|readCounts|]))
    requires AllServed(w, headerReads, readCounts, n, |readCounts|, before)
    ensures AllServed(w, headerReads, readCounts + [c], n, |readCounts| + 1, now)
  {
    hide WorldValid, Run, ServerOps, Served, BodyReceived, AfterReads, AfterSending, AfterServers;
    var i := |readCounts|;
    forall k | 0 <= k <= i ensures Served(w, headerReads, readCounts + [c], n, k, now) {
      if k < i {
        ServerIsLocal(before, i, i + 1 == n, c, k + 1);
        ServedStays(w, headerReads, readCounts, n, k, before, now, c);
      } else {
        JustServed(w, headerReads, readCounts, n, before, now, c);
      }
    }
  }

  lemma JustServed(w: World, headerReads: seq<nat>, readCounts: seq<nat>, n: nat, before: World, now: World, c: nat)
    requires |readCounts| < n == |headerReads| && before == AfterServers(w, readCounts, n)
    requires c >= 1 + headerReads[|readCounts|]
    requires BodyReceived(AfterReads(AfterSending(before, |readCounts| + 1 == n),
                                        |readCounts| + 1, 1 + headerReads[|readCounts|]),
                          now, |readCounts| + 1, c - (1 + headerReads[|readCounts|]))
    ensures Served(w, headerReads, readCounts + [c], n, |readCounts|, now)
  {
    hide BodyReceived, AfterReads, AfterSending, AfterServers;
    assert (readCounts + [c])[..|readCounts|] == readCounts;
  }
}
