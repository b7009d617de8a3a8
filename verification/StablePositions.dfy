/**
 Pointers over a whole run: the byte a pointer stands for stays the same for as long
 as its slot is live, whatever is read and sent meanwhile, on any ring.
 */
module StablePositions {
  import opened BufferPool
  import opened RingState
  import opened ByteStream
  import opened StreamPointers
  import opened PointerAddition
  import opened ManyRings

  // ---------- pointers select bytes of the flat stream ----------

  ghost predicate SlotsFit(contents: seq<string>, w: seq<Slot>) {
    forall j :: 0 <= j < |w| ==>
      0 <= w[j].buffer < |contents| && w[j].size <= |contents[w[j].buffer]|
  }

  lemma LiveSlotsFit(l: Line)
    requires Valid(l)
    ensures SlotsFit(l.pool.contents, l.ring.Window())
  {
    hide Ledger;
    var w := l.ring.Window();
    forall j | 0 <= j < |w|
      ensures 0 <= w[j].buffer < |l.pool.contents| && w[j].size <= |l.pool.contents[w[j].buffer]|
    {
      LiveBufferExists(l, j);
      assert l.ring.Live(l.ring.At(j));
    }
  }

  lemma LiveBufferExists(l: Line, j: nat)
    requires Valid(l) && j < l.ring.Count()
    ensures 0 <= l.ring.Window()[j].buffer < l.pool.Capacity()
  {
    InBuffers(l.ring.Window(), j);
    assert l.ring.Window()[j].buffer in Ledger(l);
    assert l.ring.Window()[j].buffer in AllBuffers(l.pool.Capacity());
  }

  /** The flat bytes are the slots end to end: slot j starts at Start(w, j). */
  lemma {:induction false} BytesLayout(contents: seq<string>, w: seq<Slot>, j: nat)
    requires SlotsFit(contents, w) && j <= |w|
    ensures |Bytes(contents, w[..j])| == Start(w, j)
    ensures Bytes(contents, w[..j]) + Bytes(contents, w[j..]) == Bytes(contents, w)
  {
    BytesConcat(contents, w[..j], w[j..]);
    assert w == w[..j] + w[j..];
    if j > 0 {
      BytesLayout(contents, w, j - 1);
      OneSlotMore(contents, w, j - 1);
    }
  }

  lemma OneSlotMore(contents: seq<string>, w: seq<Slot>, j: nat)
    requires SlotsFit(contents, w) && j < |w|
    ensures |Bytes(contents, w[..j + 1])| == |Bytes(contents, w[..j])| + Len(w[j])
  {
    hide Bytes;
    var s := w[j];
    assert w[..j + 1] == w[..j] + [s];
    BytesConcat(contents, w[..j], [s]);
    LastSlot(contents, s, contents[s.buffer][..Len(s)]);
  }

  lemma LiveBytesLength(l: Line)
    requires Valid(l)
    ensures |LiveBytes(l)| == Total(l.ring.Window())
  {
    LiveSlotsFit(l);
    var w := l.ring.Window();
    BytesLayout(l.pool.contents, w, |w|);
    assert w[..|w|] == w;
  }

  /** The live bytes from p up to q. */
  ghost function Between(l: Line, p: Ptr, q: Ptr): string
    requires Valid(l) && In(l.ring, p) && In(l.ring, q)
    requires Position(l.ring, p) <= Position(l.ring, q)
  {
    LiveBytesLength(l);
    PositionBounds(l.ring, p);
    PositionBounds(l.ring, q);
    LiveBytes(l)[Position(l.ring, p)..Position(l.ring, q)]
  }

  /** Bytes a to b of slot j are the flat bytes from Start(w, j) + a to Start(w, j) + b. */
  lemma SlotSegment(l: Line, j: nat, a: nat, b: nat)
    requires Valid(l) && j < l.ring.Count() && a <= b <= l.ring.Window()[j].size
    ensures SlotsFit(l.pool.contents, l.ring.Window())
    ensures 0 <= Start(l.ring.Window(), j) && Start(l.ring.Window(), j) + b <= |LiveBytes(l)|
    ensures LiveBytes(l)[Start(l.ring.Window(), j) + a..Start(l.ring.Window(), j) + b]
         == l.pool.contents[l.ring.Window()[j].buffer][a..b]
  {
    hide Sound, Ring.Window;
    LiveSlotsFit(l);
    var c, w := l.pool.contents, l.ring.Window();
    BytesLayout(c, w, j);
    assert Bytes(c, w[j..]) == SlotBytes(c, w[j]) + Bytes(c, w[j..][1..]);
    var front, slot, rest := Bytes(c, w[..j]), SlotBytes(c, w[j]), Bytes(c, w[j..][1..]);
    hide Bytes, Start;
    SliceOfMiddle(front, slot, rest, a, b);
    SliceOfTake(c[w[j].buffer], w[j].size, a, b);
  }

  lemma SliceOfMiddle(front: string, s: string, rest: string, a: nat, b: nat)
    requires a <= b <= |s|
    ensures (front + (s + rest))[|front| + a..|front| + b] == s[a..b]
  {
  }

  lemma SliceOfTake(s: string, n: nat, a: nat, b: nat)
    requires a <= b <= n <= |s|
    ensures s[..n][a..b] == s[a..b]
  {
  }

  /** Slices of adjacent stretches join up, and their lengths add. */
  lemma BetweenComposes(l: Line, p: Ptr, q: Ptr, r: Ptr)
    requires Valid(l) && In(l.ring, p) && In(l.ring, q) && In(l.ring, r)
    requires Position(l.ring, p) <= Position(l.ring, q) <= Position(l.ring, r)
    ensures Between(l, p, q) + Between(l, q, r) == Between(l, p, r)
    ensures |Between(l, p, q)| == Position(l.ring, q) - Position(l.ring, p)
  {
    hide Sound, Ring.Window, Bytes, Start;
    LiveBytesLength(l);
    PositionBounds(l.ring, p);
    PositionBounds(l.ring, q);
    PositionBounds(l.ring, r);
  }

  // ---------- one step ----------

  /** The position of p counted from the first byte the channel ever received. */
  ghost function Absolute(w: World, j: nat, p: Ptr): int
    requires j < |w.channels| && In(w.channels[j].ring, p)
  {
    |w.channels[j].sent| + Position(w.channels[j].ring, p)
  }

  function SendsTo(ops: seq<Op>, j: nat): nat {
    if ops == [] then 0
    else (if ops[0] == SendOp(j, true) then 1 else 0) + SendsTo(ops[1..], j)
  }

  /** p survives with the same absolute position, k slots closer to the head. */
  ghost predicate Survives(w: World, w': World, j: nat, p: Ptr, k: nat) {
    && j < |w.channels| && j < |w'.channels|
    && In(w.channels[j].ring, p) && In(w'.channels[j].ring, p)
    && Absolute(w', j, p) == Absolute(w, j, p)
    && w'.channels[j].ring.Steps(p.circIndex) == w.channels[j].ring.Steps(p.circIndex) - k
  }

  lemma FedKeepsPointer(l: Line, p: Ptr)
    requires Valid(l) && Room(l) > 0 && In(l.ring, p)
    ensures Valid(Fed(l)) && In(Fed(l).ring, p) && Position(Fed(l).ring, p) == Position(l.ring, p)
    ensures Fed(l).ring.Steps(p.circIndex) == l.ring.Steps(p.circIndex)
  {
    hide Sound, Fed, Start;
    FedIsValid(l);
    FedWindow(l);
    FedSource(l);
    AtSteps(l.ring, p.circIndex);
    AtSteps(Fed(l).ring, p.circIndex);
    var j := l.ring.Steps(p.circIndex);
    assert Fed(l).ring.Window()[j] == l.ring.Window()[j];
  }

  lemma SentKeepsPointer(l: Line, p: Ptr)
    requires Valid(l) && In(l.ring, p) && l.ring.Steps(p.circIndex) > 0
    ensures Valid(AfterSend(l)) && In(AfterSend(l).ring, p)
    ensures AfterSend(l).ring.Steps(p.circIndex) == l.ring.Steps(p.circIndex) - 1
    ensures Position(AfterSend(l).ring, p) == Position(l.ring, p) - Len(l.ring.Window()[0])
  {
    hide Sound, Start, AfterSend;
    SentIsValid(l);
    SentPool(l);
    SentEffect(l);
    PoppedWindow(l.ring);
    var j := l.ring.Steps(p.circIndex);
    StartOfTail(l.ring.Window(), j);
    assert Popped(l.ring).Steps(p.circIndex) == j - 1;
    assert Popped(l.ring).dataSizes[p.circIndex] == l.ring.dataSizes[p.circIndex];
  }

  /** The bytes a send puts on the wire are as many as the positions move. */
  lemma HeadSize(l: Line)
    requires Valid(l) && !l.ring.IsEmpty()
    ensures |SlotBytes(l.pool.contents, l.ring.Window()[0])| == Len(l.ring.Window()[0])
  {
    LiveSlotsFit(l);
  }

  lemma StepKeepsPointer(w: World, op: Op, j: nat, p: Ptr)
    requires WorldValid(w) && j < |w.channels| && InRange(w, op) && In(w.channels[j].ring, p)
    requires op == SendOp(j, true) ==> w.channels[j].ring.Steps(p.circIndex) > 0
    ensures WorldValid(Step(w, op)) && j < |Step(w, op).channels|
    ensures Survives(w, Step(w, op), j, p, if op == SendOp(j, true) then 1 else 0)
  {
    hide Step, Sound, Partitioned, Fed, Sent, SlotBytes, Ring.Window;
    StepKeepsWorld(w, op);
    StepCases(w, op);
    var l := LineOf(w, j);
    if op.i != j {
      StepLeavesOthers(w, op, j);
    } else if !Idle(w, op) {
      if op.ReadOp? {
        FedKeepsPointer(l, p);
        assert LineOf(Step(w, op), j) == Fed(l);
      } else {
        SentKeepsPointer(l, p);
        HeadSize(l);
        assert LineOf(Step(w, op), j) == AfterSend(l);
      }
    }
  }

  // ---------- every run ----------

  /** A pointer whose slot is not sent off keeps its absolute stream position over
      any run of reads and sends on any rings. */
  lemma {:induction false} RunKeepsPointer(w: World, ops: seq<Op>, j: nat, p: Ptr)
    requires WorldValid(w) && j < |w.channels| && AllInRange(w, ops) && In(w.channels[j].ring, p)
    requires SendsTo(ops, j) <= w.channels[j].ring.Steps(p.circIndex)
    ensures WorldValid(Run(w, ops)) && j < |Run(w, ops).channels|
    ensures Survives(w, Run(w, ops), j, p, SendsTo(ops, j))
    decreases |ops|
  {
    hide Step, Sound, Partitioned, Ring.Window, Start;
    if ops != [] {
      var w1 := Step(w, ops[0]);
      StepKeepsWorld(w, ops[0]);
      StepKeepsPointer(w, ops[0], j, p);
      assert AllInRange(w1, ops[1..]);
      RunKeepsPointer(w1, ops[1..], j, p);
    }
  }

  /** One step leaves the live slots in place: it may append one, or drop the oldest. */
  lemma StepWindow(w: World, op: Op, j: nat)
    requires WorldValid(w) && j < |w.channels| && InRange(w, op)
    requires op == SendOp(j, true) ==> !w.channels[j].ring.IsEmpty()
    ensures WorldValid(Step(w, op)) && j < |Step(w, op).channels|
    ensures var sent := if op == SendOp(j, true) then 1 else 0;
      w.channels[j].ring.Window()[sent..] <= Step(w, op).channels[j].ring.Window()
  {
    hide Step, Sound, Partitioned, Fed, Sent, SlotBytes, Ring.Window;
    StepKeepsWorld(w, op);
    StepCases(w, op);
    var l := LineOf(w, j);
    if op.i != j {
      StepLeavesOthers(w, op, j);
    } else if !Idle(w, op) {
      if op.ReadOp? {
        FedWindow(l);
        assert LineOf(Step(w, op), j) == Fed(l);
      } else {
        SentEffect(l);
        SentPool(l);
        assert LineOf(Step(w, op), j) == AfterSend(l);
      }
    }
  }

  /** Over a run that does not send them off, the live slots stay as they are, sizes of
      failed reads included; new ones come after them. */
  lemma {:induction false} RunKeepsWindow(w: World, ops: seq<Op>, j: nat)
    requires WorldValid(w) && j < |w.channels| && AllInRange(w, ops)
    requires SendsTo(ops, j) <= w.channels[j].ring.Count()
    ensures WorldValid(Run(w, ops)) && j < |Run(w, ops).channels|
    ensures w.channels[j].ring.Window()[SendsTo(ops, j)..] <= Run(w, ops).channels[j].ring.Window()
    decreases |ops|
  {
    hide Step, Sound, Partitioned, Ring.Window;
    if ops != [] {
      var w1, k := Step(w, ops[0]), if ops[0] == SendOp(j, true) then 1 else 0;
      StepKeepsWorld(w, ops[0]);
      StepWindow(w, ops[0], j);
      var v, v1 := w.channels[j].ring.Window(), w1.channels[j].ring.Window();
      assert AllInRange(w1, ops[1..]);
      RunKeepsWindow(w1, ops[1..], j);
      var n := SendsTo(ops[1..], j);
      assert v[k..][n..] == v[k + n..] && v[k..][n..] <= v1[n..];
    }
  }

  /** What is lost between two slots is the same after a drop of the first n slots and
      whatever is appended. */
  lemma {:induction false} LostShift(v: seq<Slot>, w: seq<Slot>, n: nat, j: nat, k: nat)
    requires n <= j <= k <= |v| && v[n..] <= w
    ensures Lost(w, k - n) - Lost(w, j - n) == Lost(v, k) - Lost(v, j)
  {
    if j < k {
      LostShift(v, w, n, j, k - 1);
      assert w[k - 1 - n] == v[n..][k - 1 - n] == v[k - 1];
    }
  }

  /** The code's distance between p and q loses the same in both rings, and copying from p
      to q is possible in both or in neither. */
  ghost predicate SameFailures(r: Ring, r': Ring, p: Ptr, q: Ptr) {
    && In(r, p) && In(r, q) && In(r', p) && In(r', q)
    && LostBetween(r', p, q) == LostBetween(r, p, q)
    && (r'.Steps(p.circIndex) <= r'.Steps(q.circIndex) <==> r.Steps(p.circIndex) <= r.Steps(q.circIndex))
    && (Unbroken(r'.Window(), r'.Steps(p.circIndex), r'.Steps(q.circIndex))
        <==> Unbroken(r.Window(), r.Steps(p.circIndex), r.Steps(q.circIndex)))
  }

  lemma BackwardUnbroken(w: seq<Slot>, j: nat, k: nat)
    requires j >= k
    ensures Unbroken(w, j, k)
  {
  }

  lemma RunKeepsLost(w: World, ops: seq<Op>, j: nat, p: Ptr, q: Ptr)
    requires WorldValid(w) && j < |w.channels| && AllInRange(w, ops)
    requires In(w.channels[j].ring, p) && In(w.channels[j].ring, q)
    requires SendsTo(ops, j) <= w.channels[j].ring.Steps(p.circIndex)
    requires SendsTo(ops, j) <= w.channels[j].ring.Steps(q.circIndex)
    ensures WorldValid(Run(w, ops)) && j < |Run(w, ops).channels|
    ensures SameFailures(w.channels[j].ring, Run(w, ops).channels[j].ring, p, q)
  {
    hide Step, Run, Sound, Partitioned, Ring.Window, Start, Lost, Unbroken;
    RunKeepsPointer(w, ops, j, p);
    RunKeepsPointer(w, ops, j, q);
    RunKeepsWindow(w, ops, j);
    var r, r', n := w.channels[j].ring, Run(w, ops).channels[j].ring, SendsTo(ops, j);
    var a, b := r.Steps(p.circIndex), r.Steps(q.circIndex);
    if a <= b {
      LostShift(r.Window(), r'.Window(), n, a, b);
      LostNothing(r.Window(), a, b);
      LostNothing(r'.Window(), a - n, b - n);
    } else {
      LostShift(r.Window(), r'.Window(), n, b, a);
      BackwardUnbroken(r.Window(), a, b);
      BackwardUnbroken(r'.Window(), a - n, b - n);
    }
  }

  /** So the bytes between two surviving pointers, the distance between them, what the code
      makes of it, and whether a read between them failed, never change. */
  lemma RunKeepsBetween(w: World, ops: seq<Op>, j: nat, p: Ptr, q: Ptr)
    requires WorldValid(w) && j < |w.channels| && IsQueue(w) && AllInRange(w, ops)
    requires In(w.channels[j].ring, p) && In(w.channels[j].ring, q)
    requires Position(w.channels[j].ring, p) <= Position(w.channels[j].ring, q)
    requires SendsTo(ops, j) <= w.channels[j].ring.Steps(p.circIndex)
    requires SendsTo(ops, j) <= w.channels[j].ring.Steps(q.circIndex)
    ensures WorldValid(Run(w, ops)) && j < |Run(w, ops).channels|
    ensures var l, l' := LineOf(w, j), LineOf(Run(w, ops), j);
      && In(l'.ring, p) && In(l'.ring, q)
      && Position(l'.ring, q) - Position(l'.ring, p) == Position(l.ring, q) - Position(l.ring, p)
      && Between(l', p, q) == Between(l, p, q)
      && SameFailures(l.ring, l'.ring, p, q)
  {
    hide Step, Run, Sound, Partitioned, Ring.Window, Start, Bytes, LiveBytes, SameFailures;
    var w' := Run(w, ops);
    RunKeepsPointer(w, ops, j, p);
    RunKeepsPointer(w, ops, j, q);
    RunKeepsQueues(w, ops);
    assert FollowsAt(w, w', j);
    BetweenIsStream(w, j, p, q);
    BetweenIsStream(w', j, p, q);
    RunKeepsLost(w, ops, j, p, q);
  }

  /** What lies between two pointers is the slice of the channel's stream between
      their absolute positions. */
  lemma BetweenIsStream(w: World, j: nat, p: Ptr, q: Ptr)
    requires WorldValid(w) && j < |w.channels| && In(w.channels[j].ring, p) && In(w.channels[j].ring, q)
    requires Position(w.channels[j].ring, p) <= Position(w.channels[j].ring, q)
    ensures 0 <= Absolute(w, j, p) <= Absolute(w, j, q) <= |Stream(w, j)|
    ensures Between(LineOf(w, j), p, q) == Stream(w, j)[Absolute(w, j, p)..Absolute(w, j, q)]
  {
    hide Sound, Partitioned, Ring.Window, Start, Bytes, LiveBytes, Pending;
    var l := LineOf(w, j);
    LiveBytesLength(l);
    PositionBounds(l.ring, p);
    PositionBounds(l.ring, q);
  }
}
