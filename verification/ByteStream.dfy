/**
 The flat byte stream behind a ring: the bytes of its live slots, oldest first, and
 how feeding and sending change them.
 */
module ByteStream {
  import opened BufferPool
  import opened RingState

  function SlotBytes(contents: seq<string>, s: Slot): string {
    if 0 <= s.buffer < |contents| && 0 <= s.size <= |contents[s.buffer]| then contents[s.buffer][..s.size] else []
  }

  function Bytes(contents: seq<string>, w: seq<Slot>): string {
    if w == [] then [] else SlotBytes(contents, w[0]) + Bytes(contents, w[1..])
  }

  function LiveBytes(l: Line): string
    requires l.ring.Shape()
  {
    Bytes(l.pool.contents, l.ring.Window())
  }

  /** Everything a source still has to deliver, in order. */
  function Pending(source: seq<Delivery>): string {
    if source == [] then []
    else (if source[0].Chunk? then source[0].data else []) + Pending(source[1..])
  }

  lemma {:induction false} BytesConcat(contents: seq<string>, v: seq<Slot>, w: seq<Slot>)
    ensures Bytes(contents, v + w) == Bytes(contents, v) + Bytes(contents, w)
  {
    if v == [] {
      assert v + w == w;
    } else {
      assert (v + w)[1..] == v[1..] + w;
      var head, tail, more := SlotBytes(contents, v[0]), Bytes(contents, v[1..]), Bytes(contents, w);
      BytesConcat(contents, v[1..], w);
      assert Bytes(contents, v + w) == head + Bytes(contents, v[1..] + w);
      assert head + (tail + more) == (head + tail) + more;
    }
  }

  /** The bytes of a window depend on nothing but the buffers it names. */
  lemma {:induction false} BytesFrame(c: seq<string>, d: seq<string>, w: seq<Slot>)
    requires |c| == |d|
    requires forall j :: 0 <= j < |w| && 0 <= w[j].buffer < |c| ==> c[w[j].buffer] == d[w[j].buffer]
    ensures Bytes(c, w) == Bytes(d, w)
  {
    if w != [] { BytesFrame(c, d, w[1..]); }
  }

  lemma {:induction false} InBuffers(w: seq<Slot>, j: nat)
    requires j < |w|
    ensures w[j].buffer in Buffers(w)
  {
    if j < |w| - 1 { InBuffers(w[..|w| - 1], j); }
  }

  /** Changing a buffer that a window does not name leaves its bytes alone. */
  lemma OtherBuffer(c: seq<string>, w: seq<Slot>, b: int, x: string)
    requires 0 <= b < |c| && b !in Buffers(w)
    ensures Bytes(c[b := x], w) == Bytes(c, w)
  {
    forall j | 0 <= j < |w| ensures w[j].buffer != b { InBuffers(w, j); }
    BytesFrame(c, c[b := x], w);
  }

  /** What FeedData hands over, it takes off the front of the source. */
  lemma FeedDataConserves(source: seq<Delivery>, maxSize: nat)
    ensures FeedData(source, maxSize).1 + Pending(FeedData(source, maxSize).2) == Pending(source)
  {
    if source != [] && source[0].Chunk? && |source[0].data| > maxSize {
      var d := source[0].data;
      var rest := FeedData(source, maxSize).2;
      assert rest[1..] == source[1..];
      assert d == d[..maxSize] + d[maxSize..];
    }
  }

  /** It is as much of the first chunk as fits, or nothing at the end or at a failure. */
  lemma FeedTakesWhatFits(source: seq<Delivery>, maxSize: nat)
    ensures source == [] ==> FeedData(source, maxSize) == (0, [], [])
    ensures source != [] && source[0].Failure? ==> FeedData(source, maxSize) == (-1 - source[0].errno, [], source[1..])
    ensures source != [] && source[0].Chunk? ==>
      var (n, data, rest), chunk := FeedData(source, maxSize), source[0].data;
      && n == |data| == (if |chunk| <= maxSize then |chunk| else maxSize) && data <= chunk
      && (|chunk| <= maxSize ==> rest == source[1..])
  {
  }

  /** A buffer that is still in the pool backs no live slot. */
  lemma FreeIsNotLive(l: Line, b: int)
    requires Valid(l) && b in multiset(l.pool.free)
    ensures b !in Buffers(l.ring.Window())
  {
    assert Ledger(l)[b] <= AllBuffers(l.pool.Capacity())[b];
  }

  lemma LiveIsNotFree(l: Line, k: nat)
    requires Valid(l) && k < l.ring.Count()
    ensures l.ring.Window()[k].buffer !in l.pool.free
  {
    var b := l.ring.Window()[k].buffer;
    InBuffers(l.ring.Window(), k);
    assert Ledger(l)[b] <= AllBuffers(l.pool.Capacity())[b] <= 1;
  }

  lemma {:induction false} Twice(w: seq<Slot>, k: nat, m: nat)
    requires k < m < |w| && w[k].buffer == w[m].buffer
    ensures Buffers(w)[w[k].buffer] >= 2
  {
    var n := |w| - 1;
    if m == n {
      InBuffers(w[..n], k);
    } else {
      Twice(w[..n], k, m);
    }
  }

  /** Two live slots of a ring name different buffers. */
  lemma LiveIsSingle(l: Line, k: nat, m: nat)
    requires Valid(l) && k < m < l.ring.Count()
    ensures l.ring.Window()[k].buffer != l.ring.Window()[m].buffer
  {
    var b := l.ring.Window()[k].buffer;
    assert Ledger(l)[b] <= AllBuffers(l.pool.Capacity())[b] <= 1;
    if l.ring.Window()[m].buffer == b {
      Twice(l.ring.Window(), k, m);
    }
  }

  lemma LastSlot(c: seq<string>, s: Slot, data: string)
    requires 0 <= s.buffer < |c| && data <= c[s.buffer]
    requires |data| == if s.size < 0 then 0 else s.size
    ensures Bytes(c, [s]) == data
  {
    assert [s][1..] == [] && Bytes(c, []) == [];
  }

  lemma FedBytes(l: Line)
    requires Valid(l) && Room(l) > 0
    ensures Fed(l).ring.Shape() && LiveBytes(Fed(l)) == LiveBytes(l) + FeedData(l.source, l.ring.maxSize).1
  {
    FedKeepsLedger(l);
    AllocatedIsOwned(l);
    var (p, b) := Alloc(l.pool);
    var (n, data, _) := FeedData(l.source, l.ring.maxSize);
    var w, c := l.ring.Window(), Fed(l).pool.contents;
    FreeIsNotLive(l, b);
    assert c == p.contents[b := data + p.contents[b][|data|..]];
    hide Buffers, Ledger, AllBuffers, Ring.Window, Valid, Pool.Valid, FeedData;
    OtherBuffer(p.contents, w, b, c[b]);
    BytesConcat(c, w, [Slot(b, n)]);
    LastSlot(c, Slot(b, n), data);
  }

  lemma SentBytes(l: Line)
    requires Valid(l) && !l.ring.IsEmpty()
    ensures AfterSend(l).ring.Shape()
    ensures LiveBytes(l) == SlotBytes(l.pool.contents, l.ring.Window()[0]) + LiveBytes(AfterSend(l))
  {
    SentEffect(l);
    var w := l.ring.Window();
    BuffersOfTail(w);
    assert Ledger(l)[w[0].buffer] <= AllBuffers(l.pool.Capacity())[w[0].buffer];
    OtherBuffer(l.pool.contents, w[1..], w[0].buffer, Zeros(l.pool.bufferSize));
  }

  /** Feeding and sending on one line rewrite no buffer that another window names. */
  lemma FedElsewhere(l: Line, v: seq<Slot>)
    requires Valid(l) && Room(l) > 0 && Alloc(l.pool).1 !in Buffers(v)
    ensures Bytes(Fed(l).pool.contents, v) == Bytes(l.pool.contents, v)
  {
    AllocatedIsOwned(l);
    var (p, b) := Alloc(l.pool);
    OtherBuffer(p.contents, v, b, Fed(l).pool.contents[b]);
  }

  lemma SentElsewhere(l: Line, v: seq<Slot>)
    requires Valid(l) && !l.ring.IsEmpty() && l.ring.Window()[0].buffer !in Buffers(v)
    ensures Bytes(AfterSend(l).pool.contents, v) == Bytes(l.pool.contents, v)
  {
    SentEffect(l);
    OtherBuffer(l.pool.contents, v, l.ring.Window()[0].buffer, Zeros(l.pool.bufferSize));
  }
}
