/**
 Any number of rings over one pool, and any run of reads and sends on them.
 */
module ManyRings {
  import opened BufferPool
  import opened RingState
  import opened ByteStream
  import opened Holdings

  /** A ring with its source, the bytes that source has delivered so far, and the
      bytes sent on so far. */
  datatype Channel = Channel(ring: Ring, source: seq<Delivery>, received: string, sent: string)

  datatype World = World(pool: Pool, channels: seq<Channel>)

  /** ReadOp is read_next_buffer_from_source; SendOp is send_next_buffer_to_destination,
      which moves the ring head when move is set. */
  datatype Op = ReadOp(i: nat) | SendOp(i: nat, move: bool)

  ghost predicate Shaped(channels: seq<Channel>) {
    forall i :: 0 <= i < |channels| ==> channels[i].ring.Shape()
  }

  /** The buffers behind the live slots of one channel, and of each. */
  ghost function OwnedBy(c: Channel): multiset<int>
    requires c.ring.Shape()
  {
    Buffers(c.ring.Window())
  }

  ghost function OwnedByEach(channels: seq<Channel>): (hs: seq<multiset<int>>)
    requires Shaped(channels)
    ensures |hs| == |channels| && forall i :: 0 <= i < |hs| ==> hs[i] == OwnedBy(channels[i])
  {
    seq(|channels|, i requires 0 <= i < |channels| => OwnedBy(channels[i]))
  }

  ghost function Owned(channels: seq<Channel>): multiset<int>
    requires Shaped(channels)
  {
    Sum(OwnedByEach(channels))
  }

  ghost function LiveCount(channels: seq<Channel>): nat
    requires Shaped(channels)
  {
    if channels == [] then 0
    else LiveCount(channels[..|channels| - 1]) + channels[|channels| - 1].ring.Count()
  }

  function LineOf(w: World, i: nat): Line
    requires i < |w.channels|
  {
    Line(w.pool, w.channels[i].ring, w.channels[i].source)
  }

  /** Every buffer of the pool is in the free list or in one live slot, once. */
  ghost predicate Partitioned(w: World) {
    && Shaped(w.channels)
    && multiset(w.pool.free) + Owned(w.channels) == AllBuffers(w.pool.Capacity())
  }

  ghost predicate WorldValid(w: World) {
    && Shaped(w.channels) && Partitioned(w)
    && forall i :: 0 <= i < |w.channels| ==> Valid(LineOf(w, i))
  }

  /** A channel is a first-in first-out queue: what was sent, followed by what is in
      the live slots, is what was received. */
  ghost predicate QueueAt(w: World, j: nat)
    requires Shaped(w.channels) && j < |w.channels|
  {
    w.channels[j].sent + LiveBytes(LineOf(w, j)) == w.channels[j].received
  }

  ghost predicate IsQueue(w: World)
    requires Shaped(w.channels)
  {
    forall j :: 0 <= j < |w.channels| ==> QueueAt(w, j)
  }

  ghost predicate InRange(w: World, op: Op) {
    op.i < |w.channels|
  }

  ghost function Step(w: World, op: Op): World
    requires WorldValid(w) && InRange(w, op)
  {
    var c, l := w.channels[op.i], LineOf(w, op.i);
    match op
    case ReadOp(i) =>
      var l' := Feed(l).0;
      var data := if Room(l) == 0 then [] else FeedData(l.source, l.ring.maxSize).1;
      World(l'.pool, w.channels[i := Channel(l'.ring, l'.source, c.received + data, c.sent)])
    case SendOp(i, move) =>
      if c.ring.IsEmpty() || !move then w
      else
        var data := SlotBytes(w.pool.contents, c.ring.Window()[0]);
        World(AfterSend(l).pool, w.channels[i := Channel(AfterSend(l).ring, c.source, c.received, c.sent + data)])
  }

  ghost predicate AllInRange(w: World, ops: seq<Op>) {
    forall k :: 0 <= k < |ops| ==> InRange(w, ops[k])
  }

  ghost function Run(w: World, ops: seq<Op>): World
    requires WorldValid(w) && AllInRange(w, ops)
    decreases |ops|
  {
    if ops == [] then w
    else
      StepKeepsWorld(w, ops[0]);
      assert AllInRange(Step(w, ops[0]), ops[1..]);
      Run(Step(w, ops[0]), ops[1..])
  }

  // ---------- sums over channels ----------

  lemma OwnedUpdate(cs: seq<Channel>, i: nat, c: Channel)
    requires Shaped(cs) && i < |cs| && c.ring.Shape()
    ensures Shaped(cs[i := c])
    ensures Owned(cs[i := c]) + OwnedBy(cs[i]) == Owned(cs) + OwnedBy(c)
  {
    hide OwnedBy, Ring.Window, Ring.Shape, Sum;
    assert OwnedByEach(cs[i := c]) == OwnedByEach(cs)[i := OwnedBy(c)];
    SumUpdate(OwnedByEach(cs), i, OwnedBy(c));
  }

  lemma OwnedPart(w: World, i: nat)
    requires Partitioned(w) && i < |w.channels|
    ensures multiset(w.pool.free) + Buffers(w.channels[i].ring.Window()) <= AllBuffers(w.pool.Capacity())
  {
    hide Ring.Window, Buffers, AllBuffers, Sum;
    SumPart(OwnedByEach(w.channels), i);
  }

  lemma {:induction false} OwnedSize(cs: seq<Channel>)
    requires Shaped(cs)
    ensures |Owned(cs)| == LiveCount(cs)
  {
    if cs != [] {
      var n := |cs| - 1;
      OwnedSize(cs[..n]);
      assert OwnedByEach(cs)[..n] == OwnedByEach(cs[..n]);
    }
  }

  // ---------- every step ----------

  /** A change of the pool that leaves a channel's buffers alone leaves it valid. */
  lemma ValidAfterPoolChange(l: Line, p: Pool)
    requires l.ring.Shape() && l.ring.SizesOk() && l.ring.maxSize <= p.bufferSize
    requires multiset(p.free) + Buffers(l.ring.Window()) <= AllBuffers(p.Capacity())
    requires forall k :: 0 <= k < p.Capacity() ==> |p.contents[k]| == p.bufferSize
    ensures Valid(l.(pool := p))
  {
    FreePart(l.(pool := p));
  }

  /** Replacing one channel and the pool, ledger for ledger, keeps the world valid. */
  lemma UpdateKeepsWorld(w: World, i: nat, l': Line, c: Channel)
    requires WorldValid(w) && i < |w.channels|
    requires Valid(l') && Ledger(l') == Ledger(LineOf(w, i))
    requires c.ring == l'.ring && c.source == l'.source
    requires l'.pool.bufferSize == w.pool.bufferSize && l'.pool.Capacity() == w.pool.Capacity()
    ensures WorldValid(World(l'.pool, w.channels[i := c]))
  {
    hide Ring.Window, Buffers, AllBuffers, Sum, Partitioned;
    var w' := World(l'.pool, w.channels[i := c]);
    UpdateKeepsPartition(w, i, l', c);
    forall j | 0 <= j < |w'.channels| ensures Valid(LineOf(w', j)) {
      if j == i {
        assert LineOf(w', i) == l';
      } else {
        OwnedPart(w', j);
        assert w'.channels[j] == w.channels[j];
        assert Valid(LineOf(w, j));
        ValidAfterPoolChange(LineOf(w, j), w'.pool);
      }
    }
  }

  lemma UpdateKeepsPartition(w: World, i: nat, l': Line, c: Channel)
    requires WorldValid(w) && i < |w.channels|
    requires Valid(l') && Ledger(l') == Ledger(LineOf(w, i))
    requires c.ring == l'.ring && l'.pool.Capacity() == w.pool.Capacity()
    ensures Partitioned(World(l'.pool, w.channels[i := c]))
  {
    hide Ring.Window, Buffers, AllBuffers, Owned;
    OwnedUpdate(w.channels, i, c);
    Exchange(multiset(w.pool.free), Owned(w.channels), multiset(l'.pool.free), Owned(w.channels[i := c]),
             OwnedBy(w.channels[i]), OwnedBy(c));
  }

  /** A step does nothing, or feeds one line, or drops one line's oldest slot. */
  ghost predicate Idle(w: World, op: Op)
    requires WorldValid(w) && InRange(w, op)
  {
    if op.ReadOp? then Room(LineOf(w, op.i)) == 0 else !op.move || w.channels[op.i].ring.IsEmpty()
  }

  lemma StepCases(w: World, op: Op)
    requires WorldValid(w) && InRange(w, op)
    ensures Idle(w, op) ==> Step(w, op) == w
    ensures !Idle(w, op) && op.ReadOp? ==>
      var c, l := w.channels[op.i], LineOf(w, op.i);
      var data := FeedData(l.source, l.ring.maxSize).1;
      Step(w, op) == World(Fed(l).pool, w.channels[op.i := Channel(Fed(l).ring,
                                         Fed(l).source, c.received + data, c.sent)])
    ensures !Idle(w, op) && op.SendOp? ==>
      var c, l := w.channels[op.i], LineOf(w, op.i);
      var data := SlotBytes(w.pool.contents, c.ring.Window()[0]);
      Step(w, op) == World(AfterSend(l).pool, w.channels[op.i := Channel(AfterSend(l).ring,
                                         c.source, c.received, c.sent + data)])
  {
    var l := LineOf(w, op.i);
    if op.ReadOp? {
      if Room(l) == 0 {
        FeedFails(l);
        assert Step(w, op).channels[op.i] == w.channels[op.i];
      } else {
        FeedSucceeds(l);
      }
    }
  }

  lemma StepKeepsWorld(w: World, op: Op)
    requires WorldValid(w) && InRange(w, op)
    ensures WorldValid(Step(w, op)) && |Step(w, op).channels| == |w.channels|
    ensures Step(w, op).pool.Capacity() == w.pool.Capacity()
  {
    hide Step, Fed, AfterSend, Ring.Window, Buffers, AllBuffers, Owned, FeedData;
    StepCases(w, op);
    var l := LineOf(w, op.i);
    if !Idle(w, op) {
      if op.ReadOp? {
        FedKeepsLedger(l);
        FedIsValid(l);
        FedPool(l);
        UpdateKeepsWorld(w, op.i, Fed(l), Step(w, op).channels[op.i]);
      } else {
        SentKeepsLedger(l);
        SentIsValid(l);
        SentPool(l);
        UpdateKeepsWorld(w, op.i, AfterSend(l), Step(w, op).channels[op.i]);
      }
    }
  }

  // ---------- the bytes of every channel ----------

  /** The pool contents that a step rewrites: one buffer at most, and never one that
      backs a live slot of another channel. */
  lemma StepLeavesOthers(w: World, op: Op, j: nat)
    requires WorldValid(w) && InRange(w, op) && j < |w.channels| && j != op.i
    ensures WorldValid(Step(w, op)) && Step(w, op).channels[j] == w.channels[j]
    ensures LiveBytes(LineOf(Step(w, op), j)) == LiveBytes(LineOf(w, j))
  {
    hide Step, Fed, AfterSend, Bytes, Ring.Window, Buffers, Owned, Sound;
    StepKeepsWorld(w, op);
    StepCases(w, op);
    var l, v := LineOf(w, op.i), w.channels[j].ring.Window();
    if !Idle(w, op) {
      if op.ReadOp? {
        FreeIsNotLive(LineOf(w, j), Alloc(w.pool).1);
        FedElsewhere(l, v);
      } else {
        NotSharedWithOther(w, op.i, j, 0);
        SentElsewhere(l, v);
      }
    }
  }

  /** No buffer backs live slots of two channels. */
  lemma NotSharedWithOther(w: World, i: nat, j: nat, k: nat)
    requires WorldValid(w) && i < |w.channels| && j < |w.channels| && i != j
    requires k < w.channels[i].ring.Count()
    ensures w.channels[i].ring.Window()[k].buffer !in OwnedBy(w.channels[j])
  {
    hide AllBuffers, Sum, Ring.Window, Sound, Buffers;
    var b := w.channels[i].ring.Window()[k].buffer;
    InBuffers(w.channels[i].ring.Window(), k);
    if i < j { SumTwoParts(OwnedByEach(w.channels), i, j); } else { SumTwoParts(OwnedByEach(w.channels), j, i); }
    assert OwnedBy(w.channels[i])[b] >= 1;
    assert AllBuffers(w.pool.Capacity())[b] <= 1;
    assert (OwnedBy(w.channels[i]) + OwnedBy(w.channels[j]))[b] <= Owned(w.channels)[b];
    assert (multiset(w.pool.free) + Owned(w.channels))[b] <= 1;
  }

  /** Everything that ever passes through channel j: sent, then live, then to come. */
  ghost function Stream(w: World, j: nat): string
    requires Shaped(w.channels) && j < |w.channels|
  {
    w.channels[j].sent + LiveBytes(LineOf(w, j)) + Pending(w.channels[j].source)
  }

  /** The same stream runs through channel j before and after, further on. */
  ghost predicate FollowsAt(w: World, w': World, j: nat)
    requires Shaped(w.channels) && Shaped(w'.channels) && j < |w.channels| && j < |w'.channels|
  {
    Stream(w', j) == Stream(w, j) && w.channels[j].sent <= w'.channels[j].sent
  }

  lemma ReadKeepsQueue(w: World, w': World, i: nat)
    requires WorldValid(w) && i < |w.channels| == |w'.channels|
    requires Shaped(w'.channels) && QueueAt(w, i)
    requires Room(LineOf(w, i)) > 0 && Shaped(w'.channels) && LineOf(w', i) == Fed(LineOf(w, i))
    requires w'.channels[i].sent == w.channels[i].sent
    requires w'.channels[i].received == w.channels[i].received
             + FeedData(w.channels[i].source, w.channels[i].ring.maxSize).1
    ensures QueueAt(w', i) && FollowsAt(w, w', i)
  {
    hide Sound, Bytes, Ring.Window, Pending, FeedData, Partitioned;
    var l := LineOf(w, i);
    FedBytes(l);
    FeedDataConserves(l.source, l.ring.maxSize);
    Regroup(w.channels[i].sent, LiveBytes(l), FeedData(l.source, l.ring.maxSize).1, Pending(Fed(l).source));
  }

  lemma Regroup(sent: string, live: string, data: string, rest: string)
    ensures sent + (live + data) == (sent + live) + data
    ensures (sent + (live + data)) + rest == (sent + live) + (data + rest)
  {
  }

  lemma SendKeepsQueue(w: World, w': World, i: nat)
    requires WorldValid(w) && i < |w.channels| == |w'.channels|
    requires Shaped(w'.channels) && QueueAt(w, i)
    requires !w.channels[i].ring.IsEmpty() && Shaped(w'.channels) && LineOf(w', i) == AfterSend(LineOf(w, i))
    requires w'.channels[i].received == w.channels[i].received
    requires w'.channels[i].sent == w.channels[i].sent + SlotBytes(w.pool.contents, w.channels[i].ring.Window()[0])
    ensures QueueAt(w', i) && FollowsAt(w, w', i)
  {
    hide Sound, Bytes, Ring.Window, Pending, SlotBytes, Partitioned, Sent;
    var l := LineOf(w, i);
    SentBytes(l);
    Regroup(w.channels[i].sent, SlotBytes(l.pool.contents, l.ring.Window()[0]), LiveBytes(AfterSend(l)), []);
  }

  lemma FollowsItself(w: World, j: nat)
    requires Shaped(w.channels) && j < |w.channels|
    ensures FollowsAt(w, w, j)
  {
  }

  lemma StepKeepsOwnQueue(w: World, op: Op)
    requires WorldValid(w) && InRange(w, op)
    requires QueueAt(w, op.i)
    ensures WorldValid(Step(w, op)) && |Step(w, op).channels| == |w.channels|
    ensures QueueAt(Step(w, op), op.i) && FollowsAt(w, Step(w, op), op.i)
  {
    hide Step, Sound, Partitioned, Fed, Sent, FeedData, SlotBytes, QueueAt, FollowsAt, Ring.Window;
    StepKeepsWorld(w, op);
    StepCases(w, op);
    FollowsItself(w, op.i);
    if !Idle(w, op) {
      if op.ReadOp? {
        ReadKeepsQueue(w, Step(w, op), op.i);
      } else {
        SendKeepsQueue(w, Step(w, op), op.i);
      }
    }
  }

  lemma StepKeepsQueues(w: World, op: Op, j: nat)
    requires WorldValid(w) && IsQueue(w) && InRange(w, op) && j < |w.channels|
    ensures WorldValid(Step(w, op)) && |Step(w, op).channels| == |w.channels|
    ensures QueueAt(Step(w, op), j) && FollowsAt(w, Step(w, op), j)
  {
    assert QueueAt(w, j);
    if j != op.i {
      StepKeepsWorld(w, op);
      StepLeavesOthers(w, op, j);
    } else {
      StepKeepsOwnQueue(w, op);
    }
  }

  // ---------- every run ----------

  /** w' comes after w: the same stream runs through every channel, further on. */
  ghost predicate Follows(w: World, w': World)
    requires Shaped(w.channels) && Shaped(w'.channels)
  {
    && |w'.channels| == |w.channels| && w'.pool.Capacity() == w.pool.Capacity()
    && forall j :: 0 <= j < |w.channels| ==> FollowsAt(w, w', j)
  }

  lemma StepFollows(w: World, op: Op)
    requires WorldValid(w) && IsQueue(w) && InRange(w, op)
    ensures WorldValid(Step(w, op)) && IsQueue(Step(w, op)) && Follows(w, Step(w, op))
  {
    hide Sound, QueueAt, FollowsAt, Step, Ring.Shape;
    StepKeepsWorld(w, op);
    var w' := Step(w, op);
    forall j | 0 <= j < |w'.channels| ensures QueueAt(w', j) && FollowsAt(w, w', j) {
      StepKeepsQueues(w, op, j);
    }
  }

  lemma FollowsIsTransitive(u: World, v: World, w: World)
    requires Shaped(u.channels) && Shaped(v.channels) && Shaped(w.channels)
    requires Follows(u, v) && Follows(v, w)
    ensures Follows(u, w)
  {
    hide Shaped, Stream;
    forall j | 0 <= j < |u.channels| ensures FollowsAt(u, w, j) {
      assert FollowsAt(u, v, j) && FollowsAt(v, w, j);
    }
  }

  /** Over any run of reads and sends on any number of rings that share a pool: the
      pool stays partitioned, each ring stays a first-in first-out queue, and no byte
      of any source is lost, duplicated or reordered. */
  lemma {:induction false} RunKeepsQueues(w: World, ops: seq<Op>)
    requires WorldValid(w) && IsQueue(w) && AllInRange(w, ops)
    ensures WorldValid(Run(w, ops)) && IsQueue(Run(w, ops)) && Follows(w, Run(w, ops))
    decreases |ops|
  {
    if ops != [] {
      hide Sound, Step, IsQueue, Ring.Shape, FollowsAt;
      var w1 := Step(w, ops[0]);
      StepFollows(w, ops[0]);
      assert AllInRange(w1, ops[1..]);
      RunKeepsQueues(w1, ops[1..]);
      FollowsIsTransitive(w, w1, Run(w1, ops[1..]));
    }
  }

  /** Conservation: available buffers and live slots add up to the capacity. */
  lemma LiveAndFreeAddUp(w: World)
    requires WorldValid(w)
    ensures |w.pool.free| + LiveCount(w.channels) == w.pool.Capacity()
  {
    OwnedSize(w.channels);
    assert |multiset(w.pool.free) + Owned(w.channels)| == w.pool.Capacity();
  }

  /** Any two live slots, of the same ring or of two rings, name different buffers. */
  lemma LiveSlotsAreExclusive(w: World, i: nat, k: nat, j: nat, m: nat)
    requires WorldValid(w) && i < |w.channels| && j < |w.channels|
    requires k < w.channels[i].ring.Count() && m < w.channels[j].ring.Count()
    requires (i, k) != (j, m)
    ensures w.channels[i].ring.Window()[k].buffer != w.channels[j].ring.Window()[m].buffer
    ensures w.channels[i].ring.Window()[k].buffer !in w.pool.free
  {
    LiveIsNotFree(LineOf(w, i), k);
    if i != j {
      NotSharedWithOther(w, i, j, k);
      InBuffers(w.channels[j].ring.Window(), m);
    } else if k < m {
      LiveIsSingle(LineOf(w, i), k, m);
    } else {
      LiveIsSingle(LineOf(w, i), m, k);
    }
  }

  // ---------- the start ----------

  datatype Setup = Setup(size: nat, maxSize: nat, source: seq<Delivery>)

  function NewWorld(capacity: nat, bufferSize: nat, setups: seq<Setup>): World {
    World(Pool(bufferSize, seq(capacity, i => i), seq(capacity, _ => Zeros(bufferSize))),
          seq(|setups|, i requires 0 <= i < |setups| =>
            Channel(NewRing(setups[i].size, setups[i].maxSize), setups[i].source, [], [])))
  }

  lemma NothingOwned(cs: seq<Channel>)
    requires forall i :: 0 <= i < |cs| ==> cs[i].ring.Shape() && cs[i].ring.IsEmpty()
    ensures Owned(cs) == multiset{}
  {
    SumNothing(OwnedByEach(cs));
  }

  /** A freshly initialised pool with new, empty rings is a valid world of queues. */
  lemma NewWorldIsValid(capacity: nat, bufferSize: nat, setups: seq<Setup>)
    requires forall i :: 0 <= i < |setups| ==> setups[i].size <= 30 && setups[i].maxSize <= bufferSize
    ensures WorldValid(NewWorld(capacity, bufferSize, setups)) && IsQueue(NewWorld(capacity, bufferSize, setups))
  {
    hide AllBuffers, Owned, Bytes;
    var w := NewWorld(capacity, bufferSize, setups);
    InitialFree(capacity);
    NothingOwned(w.channels);
    forall i | 0 <= i < |setups| ensures Valid(LineOf(w, i)) && QueueAt(w, i) {
      NewLineIsValid(capacity, bufferSize, setups[i]);
    }
  }

  lemma NewLineIsValid(capacity: nat, bufferSize: nat, s: Setup)
    requires s.size <= 30 && s.maxSize <= bufferSize
    ensures
      var w := NewWorld(capacity, bufferSize, [s]);
      Valid(LineOf(w, 0)) && LiveBytes(LineOf(w, 0)) == []
  {
    hide AllBuffers;
    InitialFree(capacity);
    assert LineOf(NewWorld(capacity, bufferSize, [s]), 0).ring.Window() == [];
  }
}
