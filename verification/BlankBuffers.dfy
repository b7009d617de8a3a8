/**
 What a buffer holds besides the message it is used for: nothing. Available buffers are
 all NUL, and behind the bytes of a live slot its buffer is all NUL.
 */
module BlankBuffers {
  import opened BufferPool
  import opened RingState
  import opened ByteStream
  import opened StreamPointers
  import opened ManyRings

  /** Behind its first n bytes a buffer is all NUL. */
  ghost predicate NothingBehind(block: string, n: nat) {
    forall m :: n <= m < |block| ==> block[m] == NUL
  }

  /** The buffers of these slots hold nothing behind the bytes of the slots. */
  ghost predicate Padded(contents: seq<string>, w: seq<Slot>) {
    forall k :: 0 <= k < |w| ==> 0 <= w[k].buffer < |contents| && NothingBehind(contents[w[k].buffer], Len(w[k]))
  }

  ghost predicate PaddedAt(w: World, j: nat)
    requires Shaped(w.channels) && j < |w.channels|
  {
    Padded(w.pool.contents, w.channels[j].ring.Window())
  }

  ghost predicate Tidy(w: World)
    requires Shaped(w.channels)
  {
    Blank(w.pool) && forall j :: 0 <= j < |w.channels| ==> PaddedAt(w, j)
  }

  /** A change of one buffer that these slots do not name. */
  lemma PaddedElsewhere(c: seq<string>, d: seq<string>, w: seq<Slot>, b: int)
    requires Padded(c, w) && |d| == |c| && b !in Buffers(w)
    requires forall k :: 0 <= k < |c| && k != b ==> d[k] == c[k]
    ensures Padded(d, w)
  {
    hide NothingBehind, Buffers;
    forall k | 0 <= k < |w| ensures w[k].buffer != b { InBuffers(w, k); }
  }

  lemma TakenIsBlank(p: Pool, b: int, data: string)
    requires Blank(p) && p.free != [] && Alloc(p).1 == b && b !in Alloc(p).0.free
    requires 0 <= b < p.Capacity() && |data| <= |p.contents[b]| == p.bufferSize
    ensures var p' := Write(Alloc(p).0, b, data);
      && Blank(p') && |p'.contents| == |p.contents| && NothingBehind(p'.contents[b], |data|)
      && forall k :: 0 <= k < p.Capacity() && k != b ==> p'.contents[k] == p.contents[k]
  {
    var p' := Write(Alloc(p).0, b, data);
    assert b in p.free && p.free == p'.free + [b];
    forall c | c in p'.free ensures c in p.free && c != b {}
    assert p'.contents[b] == data + p.contents[b][|data|..];
  }

  lemma FreedIsBlank(p: Pool, b: int)
    requires Blank(p) && 0 <= b < p.Capacity()
    ensures var p' := Free(p, b);
      && Blank(p') && |p'.contents| == |p.contents|
      && forall k :: 0 <= k < p.Capacity() && k != b ==> p'.contents[k] == p.contents[k]
  {
  }

  lemma PaddedPlusOne(c: seq<string>, w: seq<Slot>, s: Slot)
    requires Padded(c, w) && 0 <= s.buffer < |c| && NothingBehind(c[s.buffer], Len(s))
    ensures Padded(c, w + [s])
  {
    hide NothingBehind;
  }

  lemma PaddedTail(c: seq<string>, w: seq<Slot>)
    requires Padded(c, w) && w != []
    ensures Padded(c, w[1..])
  {
    hide NothingBehind;
  }

  lemma FedIsBlank(l: Line)
    requires Valid(l) && Room(l) > 0 && Blank(l.pool)
    ensures Blank(Fed(l).pool)
    ensures Padded(l.pool.contents, l.ring.Window()) ==> Padded(Fed(l).pool.contents, Fed(l).ring.Window())
    ensures |Fed(l).pool.contents| == |l.pool.contents|
    ensures forall k :: 0 <= k < l.pool.Capacity() && k != Alloc(l.pool).1 ==>
      Fed(l).pool.contents[k] == l.pool.contents[k]
  {
    hide Ring.Window, Ring.SizesOk, Ledger, AllBuffers, Buffers, Blank, Padded, NothingBehind, FeedData, Write;
    FedKeepsLedger(l);
    AllocatedIsOwned(l);
    TopIsSingle(l);
    var b := Alloc(l.pool).1;
    var (n, data, _) := FeedData(l.source, l.ring.maxSize);
    TakenIsBlank(l.pool, b, data);
    TopIsNotLive(l);
    if Padded(l.pool.contents, l.ring.Window()) {
      PaddedElsewhere(l.pool.contents, Fed(l).pool.contents, l.ring.Window(), b);
      PaddedPlusOne(Fed(l).pool.contents, l.ring.Window(), Slot(b, n));
    }
  }

  lemma TopIsNotLive(l: Line)
    requires Valid(l) && l.pool.free != []
    ensures Alloc(l.pool).1 !in Buffers(l.ring.Window())
  {
    hide Sound, Ring.Window;
    FreeIsNotLive(l, Alloc(l.pool).1);
  }

  /** The buffer that is handed out next is in the list once. */
  lemma TopIsSingle(l: Line)
    requires Valid(l) && l.pool.free != []
    ensures Alloc(l.pool).1 !in Alloc(l.pool).0.free
  {
    hide Ring.Window, Ring.SizesOk, Buffers;
    var (p, b) := Alloc(l.pool);
    assert l.pool.free == p.free + [b];
    assert multiset(l.pool.free)[b] <= Ledger(l)[b] <= AllBuffers(l.pool.Capacity())[b] <= 1;
  }

  lemma SentIsBlank(l: Line)
    requires Valid(l) && !l.ring.IsEmpty() && Blank(l.pool)
    ensures Blank(AfterSend(l).pool)
    ensures AfterSend(l).ring.Shape()
    ensures Padded(l.pool.contents, l.ring.Window()) ==> Padded(AfterSend(l).pool.contents, AfterSend(l).ring.Window())
    ensures |AfterSend(l).pool.contents| == |l.pool.contents|
    ensures forall k :: 0 <= k < l.pool.Capacity() && k != l.ring.Window()[0].buffer ==>
      AfterSend(l).pool.contents[k] == l.pool.contents[k]
  {
    hide Ring.Window, Ring.SizesOk, Ledger, AllBuffers, Buffers, Blank, Padded, NothingBehind, Free;
    SentEffect(l);
    var w, b := l.ring.Window(), l.ring.Window()[0].buffer;
    FreedIsBlank(l.pool, b);
    HeadIsSingle(l);
    if Padded(l.pool.contents, w) {
      PaddedTail(l.pool.contents, w);
      PaddedElsewhere(l.pool.contents, AfterSend(l).pool.contents, w[1..], b);
    }
  }

  lemma HeadIsSingle(l: Line)
    requires Valid(l) && !l.ring.IsEmpty()
    ensures l.ring.Window()[0].buffer !in Buffers(l.ring.Window()[1..])
  {
    hide Ring.SizesOk;
    var w := l.ring.Window();
    BuffersOfTail(w);
    assert Ledger(l)[w[0].buffer] <= AllBuffers(l.pool.Capacity())[w[0].buffer] <= 1;
  }

  lemma StepKeepsTidy(w: World, op: Op)
    requires WorldValid(w) && InRange(w, op) && Tidy(w)
    ensures WorldValid(Step(w, op)) && |Step(w, op).channels| == |w.channels| && Tidy(Step(w, op))
  {
    hide Step, Sound, Partitioned, Fed, AfterSend, Ring.Window, Padded, Blank;
    StepKeepsWorld(w, op);
    StepCases(w, op);
    var l, w' := LineOf(w, op.i), Step(w, op);
    if !Idle(w, op) {
      if op.ReadOp? { FedIsBlank(l); } else { SentIsBlank(l); }
      forall j | 0 <= j < |w'.channels| ensures PaddedAt(w', j) {
        assert PaddedAt(w, j);
        if j != op.i { StepPadsOthers(w, op, j); }
      }
    }
  }

  lemma StepPadsOthers(w: World, op: Op, j: nat)
    requires WorldValid(w) && InRange(w, op) && Tidy(w) && !Idle(w, op) && j < |w.channels| && j != op.i
    ensures WorldValid(Step(w, op)) && |Step(w, op).channels| == |w.channels| && PaddedAt(Step(w, op), j)
  {
    hide Step, Sound, Partitioned, Fed, AfterSend, Ring.Window, Padded, Blank, Buffers, Owned;
    StepKeepsWorld(w, op);
    StepCases(w, op);
    StepLeavesOthers(w, op, j);
    var l, v := LineOf(w, op.i), w.channels[j].ring.Window();
    assert PaddedAt(w, j);
    if op.ReadOp? {
      FedIsBlank(l);
      FreeIsNotLive(LineOf(w, j), Alloc(w.pool).1);
      PaddedElsewhere(w.pool.contents, Step(w, op).pool.contents, v, Alloc(w.pool).1);
    } else {
      SentIsBlank(l);
      NotSharedWithOther(w, op.i, j, 0);
      PaddedElsewhere(w.pool.contents, Step(w, op).pool.contents, v, w.channels[op.i].ring.Window()[0].buffer);
    }
  }

  /** Over any run of reads and sends on any number of rings: a buffer that is available
      is all NUL, and behind the bytes of a message there is never a byte of another. */
  lemma {:induction false} RunKeepsTidy(w: World, ops: seq<Op>)
    requires WorldValid(w) && AllInRange(w, ops) && Tidy(w)
    ensures WorldValid(Run(w, ops)) && Tidy(Run(w, ops))
    decreases |ops|
  {
    hide WorldValid, Step, Tidy;
    if ops != [] {
      StepKeepsWorld(w, ops[0]);
      StepKeepsTidy(w, ops[0]);
      assert AllInRange(Step(w, ops[0]), ops[1..]);
      RunKeepsTidy(Step(w, ops[0]), ops[1..]);
    }
  }

  lemma NewWorldIsTidy(capacity: nat, bufferSize: nat, setups: seq<Setup>)
    requires forall i :: 0 <= i < |setups| ==> setups[i].size <= 30 && setups[i].maxSize <= bufferSize
    ensures WorldValid(NewWorld(capacity, bufferSize, setups)) && Tidy(NewWorld(capacity, bufferSize, setups))
  {
    hide WorldValid;
    NewWorldIsValid(capacity, bufferSize, setups);
  }
}
