/**
 One ring of shared buffers, as a value: its fields, the live window
 [lastSent, next) that they describe, and what feeding and sending do to it.
 */
module RingState {
  import opened IndexArithmetic
  import opened BufferPool

  /** A live slot: the pool buffer it names and the number of bytes it holds. */
  datatype Slot = Slot(buffer: int, size: int)

  datatype Ring = Ring(size: nat, buffers: seq<int>, dataSizes: seq<int>, lastSent: nat, next: nat, maxSize: nat) {
    ghost predicate Shape() {
      && size <= 30 && |buffers| == |dataSizes| == Pow2(size)
      && lastSent < |buffers| && next < |buffers|
    }

    function Count(): nat
      requires Shape()
    {
      if lastSent <= next then next - lastSent else next - lastSent + |buffers|
    }

    /** The slot number j steps after lastSent, and the steps to a slot number. */
    function At(j: nat): (i: nat)
      requires Shape() && j < |buffers|
      ensures i < |buffers| && Steps(i) == j
    {
      if lastSent + j < |buffers| then lastSent + j else lastSent + j - |buffers|
    }

    function Steps(i: nat): (j: nat)
      requires Shape() && i < |buffers|
      ensures j < |buffers|
    {
      if lastSent <= i then i - lastSent else i - lastSent + |buffers|
    }

    predicate Live(i: int)
      requires Shape()
    {
      0 <= i < |buffers| && Steps(i) < Count()
    }

    function Window(): (w: seq<Slot>)
      requires Shape()
      ensures |w| == Count()
      ensures forall j :: 0 <= j < |w| ==> w[j] == Slot(buffers[At(j)], dataSizes[At(j)])
    {
      seq(Count(), j requires 0 <= j < Count() => Slot(buffers[At(j)], dataSizes[At(j)]))
    }

    ghost predicate SizesOk()
      requires Shape()
    {
      forall i :: 0 <= i < |dataSizes| ==> if Live(i) then dataSizes[i] <= maxSize else dataSizes[i] == -1
    }

    predicate IsFull()
      requires Shape()
    {
      Inc(next, |buffers|) == lastSent
    }

    predicate IsEmpty() {
      lastSent == next
    }
  }

  function NewRing(size: nat, maxSize: nat): Ring {
    Ring(size, seq(Pow2(size), _ => -1), seq(Pow2(size), _ => -1), 0, 0, maxSize)
  }

  // ---------- the byte source behind feed_data ----------

  /** What the source has ready: bytes, or a failure reported as -1 - errno. */
  datatype Delivery = Chunk(data: string) | Failure(errno: nat)

  /** One call of feed_data with room for maxSize bytes. A longer chunk is cut, the
      rest stays for the next call; an exhausted source returns 0. */
  function FeedData(source: seq<Delivery>, maxSize: nat): (r: (int, string, seq<Delivery>))
    ensures r.0 <= maxSize && |r.1| == if r.0 < 0 then 0 else r.0
  {
    if source == [] then (0, [], [])
    else match source[0] {
      case Chunk(d) =>
        if |d| <= maxSize then (|d|, d, source[1..])
        else (maxSize, d[..maxSize], [Chunk(d[maxSize..])] + source[1..])
      case Failure(e) => (-1 - e, [], source[1..])
    }
  }

  // ---------- feeding and sending ----------

  /** A ring with the pool it draws from and the source that feeds it. */
  datatype Line = Line(pool: Pool, ring: Ring, source: seq<Delivery>)

  ghost function Buffers(w: seq<Slot>): (m: multiset<int>)
    ensures |m| == |w|
  {
    if w == [] then multiset{} else Buffers(w[..|w| - 1]) + multiset{w[|w| - 1].buffer}
  }

  /** The buffers this line may use: those in the pool and those in its live slots. */
  ghost function Ledger(l: Line): multiset<int>
    requires l.ring.Shape()
  {
    multiset(l.pool.free) + Buffers(l.ring.Window())
  }

  /** Every buffer of the ledger exists and is there once; a slot that is not live
      holds no size. */
  ghost predicate Sound(l: Line)
    requires l.ring.Shape()
  {
    && l.pool.Valid()
    && l.ring.maxSize <= l.pool.bufferSize
    && Ledger(l) <= AllBuffers(l.pool.Capacity())
    && l.ring.SizesOk()
  }

  ghost predicate Valid(l: Line) {
    l.ring.Shape() && Sound(l)
  }

  function AllocEntry(p: Pool, r: Ring): (Pool, Ring, int)
    requires r.Shape()
  {
    if r.IsFull() then (p, r, -2)
    else
      var (p', b) := Alloc(p);
      if b < 0 then (p', r, b)
      else
        var next' := Inc(r.next, |r.buffers|);
        (p', r.(buffers := r.buffers[r.next := b], dataSizes := r.dataSizes[r.next := -1], next := next'), next')
  }

  /** alloc_entry_in_circular_buffer, read_into_next_buffer and
      set_data_size_for_last_received_buffer in a row. */
  function Feed(l: Line): (r: (Line, int))
    requires Valid(l)
  {
    var (p, ring, entry) := AllocEntry(l.pool, l.ring);
    if entry < 0 then (Line(p, ring, l.source), entry)
    else
      AllocatedIsOwned(l);
      var last := Dec(ring.next, |ring.buffers|);
      var (n, data, source') := FeedData(l.source, ring.maxSize);
      (Line(Write(p, ring.buffers[last], data), ring.(dataSizes := ring.dataSizes[last := n]), source'), n)
  }

  function Sent(p: Pool, r: Ring): (Pool, Ring, int)
    requires r.Shape()
  {
    if r.IsEmpty() then (p, r, -2)
    else
      (Free(p, r.buffers[r.lastSent]),
       r.(buffers := r.buffers[r.lastSent := 0], dataSizes := r.dataSizes[r.lastSent := -1],
          lastSent := Inc(r.lastSent, |r.buffers|)),
       r.lastSent as int)
  }

  /** How many more times this line can be fed. */
  function Room(l: Line): (n: nat)
    requires l.ring.Shape()
  {
    var slots := |l.ring.buffers| - 1 - l.ring.Count();
    if slots <= |l.pool.free| then slots else |l.pool.free|
  }

  // ---------- capacity ----------

  /** The live count stays in 0 .. 2^size - 1; empty exactly at 0, full exactly at
      2^size - 1. */
  lemma CountBounds(r: Ring)
    requires r.Shape()
    ensures 0 <= r.Count() <= Pow2(r.size) - 1
    ensures r.IsEmpty() <==> r.Count() == 0
    ensures r.IsFull() <==> r.Count() == Pow2(r.size) - 1
  {
  }

  lemma AllocatedIsOwned(l: Line)
    requires Valid(l)
    ensures l.pool.free != [] ==> 0 <= Alloc(l.pool).1 < l.pool.Capacity()
    ensures forall i :: 0 <= i < |l.pool.free| ==> 0 <= l.pool.free[i] < l.pool.Capacity()
  {
    forall i | 0 <= i < |l.pool.free| ensures 0 <= l.pool.free[i] < l.pool.Capacity() {
      assert l.pool.free[i] in AllBuffers(l.pool.Capacity());
    }
  }

  // ---------- what feeding and sending do to the live window ----------

  /** The ring fields after a slot is allocated and its size is set. */
  function Pushed(r: Ring, b: int, n: int): Ring
    requires r.Shape()
  {
    r.(buffers := r.buffers[r.next := b], dataSizes := r.dataSizes[r.next := n], next := Inc(r.next, |r.buffers|))
  }

  lemma PushedWindow(r: Ring, b: int, n: int)
    requires r.Shape() && r.Count() < |r.buffers| - 1
    ensures Pushed(r, b, n).Shape()
    ensures Pushed(r, b, n).Window() == r.Window() + [Slot(b, n)]
    ensures Pushed(r, b, n).Count() == r.Count() + 1
    ensures forall i :: 0 <= i < |r.buffers| ==> (Pushed(r, b, n).Live(i) <==> r.Live(i) || i == r.next)
  {
    var r' := Pushed(r, b, n);
    assert r'.Count() == r.Count() + 1;
    forall j | 0 <= j < r.Count() ensures r'.Window()[j] == r.Window()[j] {
      assert r'.At(j) == r.At(j) != r.next;
    }
    assert r'.At(r.Count()) == r.next;
  }

  /** The ring fields after the oldest slot is sent. */
  function Popped(r: Ring): Ring
    requires r.Shape()
  {
    r.(buffers := r.buffers[r.lastSent := 0], dataSizes := r.dataSizes[r.lastSent := -1],
       lastSent := Inc(r.lastSent, |r.buffers|))
  }

  lemma PoppedWindow(r: Ring)
    requires r.Shape() && !r.IsEmpty()
    ensures Popped(r).Shape()
    ensures Popped(r).Window() == r.Window()[1..]
    ensures Popped(r).Count() == r.Count() - 1
    ensures forall i :: 0 <= i < |r.buffers| ==> (Popped(r).Live(i) <==> r.Live(i) && i != r.lastSent)
  {
    var r' := Popped(r);
    assert r'.Count() == r.Count() - 1;
    forall j | 0 <= j < r'.Count() ensures r'.Window()[j] == r.Window()[j + 1] {
      assert r'.At(j) == r.At(j + 1) != r.lastSent;
    }
  }

  lemma {:induction false} BuffersOfTail(w: seq<Slot>)
    requires w != []
    ensures Buffers(w) == multiset{w[0].buffer} + Buffers(w[1..])
  {
    var n := |w| - 1;
    if n == 0 {
      assert w[1..] == [] && w[..n] == [];
    } else {
      var front, tail := w[..n], w[1..];
      BuffersOfTail(front);
      assert front[1..] == tail[..n - 1] && tail[n - 1] == w[n];
      assert Buffers(tail) == Buffers(front[1..]) + multiset{w[n].buffer};
      FrontToBack(Buffers(front[1..]), w[0].buffer, w[n].buffer);
    }
  }

  lemma FrontToBack(m: multiset<int>, a: int, b: int)
    ensures (multiset{a} + m) + multiset{b} == multiset{a} + (m + multiset{b})
  {
  }

  lemma BuffersOfSnoc(w: seq<Slot>, s: Slot)
    ensures Buffers(w + [s]) == Buffers(w) + multiset{s.buffer}
  {
    assert (w + [s])[..|w|] == w;
  }

  /** Feeding fails exactly when there is no room, and then changes nothing. */
  lemma FeedFails(l: Line)
    requires Valid(l) && Room(l) == 0
    ensures Feed(l).0 == l && Feed(l).1 < 0
  {
    hide Buffers, Ledger, AllBuffers, Ring.Window;
    CountBounds(l.ring);
    assert l.ring.IsFull() || l.pool.free == [];
  }

  /** The line after a feed that has room: the buffer on top of the pool backs a new
      slot, and holds the delivered bytes. */
  ghost function Fed(l: Line): Line
    requires Valid(l) && Room(l) > 0
  {
    AllocatedIsOwned(l);
    var (p, b) := Alloc(l.pool);
    var (n, data, source') := FeedData(l.source, l.ring.maxSize);
    Line(Write(p, b, data), Pushed(l.ring, b, n), source')
  }

  lemma FeedSucceeds(l: Line)
    requires Valid(l) && Room(l) > 0
    ensures Feed(l) == (Fed(l), FeedData(l.source, l.ring.maxSize).0)
  {
    AllocatedIsOwned(l);
    var (p, ring, entry) := AllocEntry(l.pool, l.ring);
    var n := FeedData(l.source, ring.maxSize).0;
    assert Dec(ring.next, |ring.buffers|) == l.ring.next;
    assert ring.dataSizes[l.ring.next := n] == l.ring.dataSizes[l.ring.next := n];
  }

  lemma FedKeepsLedger(l: Line)
    requires Valid(l) && Room(l) > 0
    ensures Fed(l).ring.Shape() && Ledger(Fed(l)) == Ledger(l)
    ensures Fed(l).ring.Window() == l.ring.Window() + [Slot(Alloc(l.pool).1, FeedData(l.source, l.ring.maxSize).0)]
  {
    hide Buffers, AllBuffers, Ring.Window, Ring.SizesOk, FeedData, Ring.At;
    var (p, b) := Alloc(l.pool);
    var n := FeedData(l.source, l.ring.maxSize).0;
    PushedWindow(l.ring, b, n);
    BuffersOfSnoc(l.ring.Window(), Slot(b, n));
    assert l.pool.free == p.free + [b];
  }

  lemma PushedSizes(r: Ring, b: int, n: int)
    requires r.Shape() && r.SizesOk() && r.Count() < |r.buffers| - 1 && n <= r.maxSize
    ensures Pushed(r, b, n).SizesOk()
  {
    hide Ring.Window, Ring.Live;
    PushedWindow(r, b, n);
  }

  lemma PoppedSizes(r: Ring)
    requires r.Shape() && r.SizesOk() && !r.IsEmpty()
    ensures Popped(r).Shape() && Popped(r).SizesOk()
  {
    hide Ring.Window, Ring.Live;
    PoppedWindow(r);
  }

  lemma FedPool(l: Line)
    requires Valid(l) && Room(l) > 0
    ensures Fed(l).pool.bufferSize == l.pool.bufferSize && Fed(l).pool.Capacity() == l.pool.Capacity()
    ensures forall i :: 0 <= i < l.pool.Capacity() ==> |Fed(l).pool.contents[i]| == l.pool.bufferSize
    ensures |Fed(l).pool.free| == |l.pool.free| - 1
    ensures Fed(l).ring == Pushed(l.ring, Alloc(l.pool).1, FeedData(l.source, l.ring.maxSize).0)
  {
    hide AllBuffers, Buffers, Ledger, Ring.Window, Ring.SizesOk, FeedData;
    AllocatedIsOwned(l);
  }

  lemma FedIsValid(l: Line)
    requires Valid(l) && Room(l) > 0
    ensures Valid(Fed(l)) && Room(Fed(l)) == Room(l) - 1
  {
    hide Fed, FeedData, Alloc, Buffers, AllBuffers, Ring.Window, Ring.SizesOk, Ring.Live, Ledger;
    var b, n := Alloc(l.pool).1, FeedData(l.source, l.ring.maxSize).0;
    FedKeepsLedger(l);
    FedPool(l);
    PushedWindow(l.ring, b, n);
    PushedSizes(l.ring, b, n);
    FreePart(Fed(l));
  }

  lemma FreePart(l: Line)
    requires l.ring.Shape() && Ledger(l) <= AllBuffers(l.pool.Capacity())
    ensures multiset(l.pool.free) <= AllBuffers(l.pool.Capacity())
  {
    hide Buffers, AllBuffers, Ring.Window;
    assert multiset(l.pool.free) <= Ledger(l);
  }

  /** Sending frees the buffer of the oldest slot and drops that slot. */
  lemma SentEffect(l: Line)
    requires Valid(l) && !l.ring.IsEmpty()
    ensures Sent(l.pool, l.ring) == (Free(l.pool, l.ring.Window()[0].buffer), Popped(l.ring), l.ring.lastSent)
    ensures Popped(l.ring).Shape() && Popped(l.ring).Window() == l.ring.Window()[1..]
    ensures 0 <= l.ring.Window()[0].buffer < l.pool.Capacity()
    ensures multiset(l.pool.free) + multiset{l.ring.Window()[0].buffer} <= Ledger(l)
  {
    PoppedWindow(l.ring);
    var w := l.ring.Window();
    BuffersOfTail(w);
    assert w[0].buffer in Ledger(l);
    assert w[0].buffer in AllBuffers(l.pool.Capacity());
  }

  ghost function AfterSend(l: Line): Line
    requires l.ring.Shape()
  {
    Line(Sent(l.pool, l.ring).0, Sent(l.pool, l.ring).1, l.source)
  }

  lemma SentKeepsLedger(l: Line)
    requires Valid(l) && !l.ring.IsEmpty()
    ensures AfterSend(l).ring.Shape() && Ledger(AfterSend(l)) == Ledger(l)
  {
    hide Buffers, AllBuffers, Ring.Window;
    SentEffect(l);
    PoppedWindow(l.ring);
    BuffersOfTail(l.ring.Window());
  }

  lemma SentPool(l: Line)
    requires Valid(l) && !l.ring.IsEmpty()
    ensures AfterSend(l).pool.bufferSize == l.pool.bufferSize && AfterSend(l).pool.Capacity() == l.pool.Capacity()
    ensures forall i :: 0 <= i < l.pool.Capacity() ==> |AfterSend(l).pool.contents[i]| == l.pool.bufferSize
    ensures AfterSend(l).ring == Popped(l.ring) && AfterSend(l).source == l.source
  {
    hide AllBuffers, Buffers, Ledger, Ring.Window, Ring.SizesOk, Sent;
    SentEffect(l);
  }

  lemma SentIsValid(l: Line)
    requires Valid(l) && !l.ring.IsEmpty()
    ensures AfterSend(l).ring.Shape() && Valid(AfterSend(l))
  {
    hide Buffers, Ledger, AllBuffers, Ring.Window, Ring.SizesOk, Ring.Live, AfterSend;
    SentKeepsLedger(l);
    SentPool(l);
    PoppedSizes(l.ring);
    FreePart(AfterSend(l));
  }

  /** An allocated slot that has not been read yet: valid, of size -1. */
  lemma AllocIsValid(l: Line)
    requires Valid(l)
    ensures var (p, r, result) := AllocEntry(l.pool, l.ring);
      && (result < 0 <==> Room(l) == 0)
      && (result < 0 ==> p == l.pool && r == l.ring)
      && (result >= 0 ==>
            && r == Pushed(l.ring, Alloc(l.pool).1, -1) && result == r.next
            && r.Shape() && !r.IsEmpty() && Valid(Line(p, r, l.source)))
  {
    hide Buffers, AllBuffers, Ring.Window, Ring.SizesOk, Ring.Live;
    AllocatedIsOwned(l);
    CountBounds(l.ring);
    if Room(l) > 0 {
      var (p, b) := Alloc(l.pool);
      PushedWindow(l.ring, b, -1);
      PushedSizes(l.ring, b, -1);
      BuffersOfSnoc(l.ring.Window(), Slot(b, -1));
      assert l.pool.free == p.free + [b];
      FreePart(Line(p, Pushed(l.ring, b, -1), l.source));
    }
  }

  /** An allocation without a read is a read whose source fails with -1: what holds of
      every run of reads holds of runs with such allocations in between. */
  lemma AllocIsAFailedRead(l: Line)
    requires Valid(l) && Room(l) > 0
    ensures var (p, r, _) := AllocEntry(l.pool, l.ring);
      Line(p, r, l.source) == Feed(l.(source := [Failure(0)] + l.source)).0
  {
    hide Sound, Ring.Window;
    var failing := l.(source := [Failure(0)] + l.source);
    assert failing.source[1..] == l.source;
    SameValid(l, failing);
    AllocIsValid(l);
    AllocatedIsOwned(l);
    FeedSucceeds(failing);
    var (p, b) := Alloc(l.pool);
    assert [] + p.contents[b][0..] == p.contents[b];
    assert p.contents[b := p.contents[b]] == p.contents;
  }

  lemma SameValid(l: Line, l': Line)
    requires Valid(l) && l' == l.(source := l'.source)
    ensures Valid(l') && Room(l') == Room(l)
  {
  }
}
