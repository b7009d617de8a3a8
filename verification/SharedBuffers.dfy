/**
 The pool of shared buffers: a last-in first-out free list of buffer numbers and
 one block of bytes per buffer. The value Pool is what the pool means between two
 critical sections; class SharedBuffers is the code, working in place on arrays.
 */
module BufferPool {

  const NUL: char := '\0'

  function Zeros(n: nat): string {
    seq(n, _ => NUL)
  }

  /** free lists the available buffers, the next one to be handed out last. */
  datatype Pool = Pool(bufferSize: nat, free: seq<int>, contents: seq<string>) {
    function Capacity(): nat { |contents| }

    ghost predicate Valid() {
      && multiset(free) <= AllBuffers(Capacity())
      && (forall i :: 0 <= i < Capacity() ==> |contents[i]| == bufferSize)
    }
  }

  /** What alloc_buffer does to the pool between sem_wait and sem_post. */
  function Alloc(p: Pool): (r: (Pool, int)) {
    if p.free == [] then (p, -1)
    else (p.(free := p.free[..|p.free| - 1]), p.free[|p.free| - 1])
  }

  /** What free_buffer does to the pool between sem_wait and sem_post. */
  function Free(p: Pool, b: int): Pool {
    if 0 <= b < p.Capacity()
    then p.(free := p.free + [b], contents := p.contents[b := Zeros(p.bufferSize)])
    else p
  }

  /** Every available buffer is all NUL. */
  ghost predicate Blank(p: Pool) {
    forall b :: b in p.free ==> 0 <= b < p.Capacity() && p.contents[b] == seq(p.bufferSize, _ => NUL)
  }

  /** The owner of buffer b overwrites its first bytes. */
  function Write(p: Pool, b: int, data: string): Pool
    requires 0 <= b < p.Capacity() && |data| <= |p.contents[b]|
  {
    p.(contents := p.contents[b := data + p.contents[b][|data|..]])
  }

  /** Every buffer number of a pool of the given capacity, once. */
  ghost function AllBuffers(capacity: nat): (m: multiset<int>)
    ensures |m| == capacity
    ensures forall b :: m[b] == if 0 <= b < capacity then 1 else 0
  {
    if capacity == 0 then multiset{} else AllBuffers(capacity - 1) + multiset{capacity - 1}
  }

  class SharedBuffers {
    var last: int
    const freeBufferList: array<int>
    const messages: array<string>
    const maxBuffers: nat
    const txBufferSize: nat

    ghost predicate Valid()
      reads this, freeBufferList, messages
    {
      && freeBufferList.Length == maxBuffers
      && messages.Length == maxBuffers
      && -1 <= last < maxBuffers
      && (forall i :: last < i < maxBuffers ==> freeBufferList[i] == -1)
      && View().Valid()
    }

    ghost function View(): Pool
      reads this, freeBufferList, messages
    {
      Pool(txBufferSize,
           if -1 <= last < freeBufferList.Length then freeBufferList[..last + 1] else [],
           messages[..])
    }

    /** init_shared_buffers: every buffer is released into an empty list, so buffer
        maxBuffers - 1 will be the first one handed out. */
    constructor (maxBuffers: nat, txBufferSize: nat)
      ensures Valid() && fresh(freeBufferList) && fresh(messages)
      ensures View() == Pool(txBufferSize, seq(maxBuffers, i => i), seq(maxBuffers, _ => Zeros(txBufferSize)))
      ensures this.maxBuffers == maxBuffers && this.txBufferSize == txBufferSize
    {
      this.maxBuffers, this.txBufferSize := maxBuffers, txBufferSize;
      last := -1;
      freeBufferList := new int[maxBuffers](_ => -1);
      messages := new string[maxBuffers](_ => Zeros(txBufferSize));
      new;
      for i := 0 to maxBuffers
        invariant last == i - 1
        invariant forall k :: 0 <= k < i ==> freeBufferList[k] == k
        invariant forall k :: i <= k < maxBuffers ==> freeBufferList[k] == -1
        invariant forall k :: 0 <= k < maxBuffers ==> messages[k] == Zeros(txBufferSize)
      {
        ReleaseBuffer(i);
      }
      last := maxBuffers - 1;
      InitialFree(maxBuffers);
      assert freeBufferList[..last + 1] == seq(maxBuffers, i => i);
    }

    method ReleaseBuffer(bufferNo: int)
      requires freeBufferList.Length == messages.Length == maxBuffers
      requires -1 <= last < maxBuffers - 1 && 0 <= bufferNo < maxBuffers
      modifies this`last, freeBufferList, messages
      ensures last == old(last) + 1
      ensures freeBufferList[..] == old(freeBufferList[..])[last := bufferNo]
      ensures messages[..] == old(messages[..])[bufferNo := Zeros(txBufferSize)]
    {
      messages[bufferNo] := Zeros(txBufferSize);
      last := last + 1;
      freeBufferList[last] := bufferNo;
    }

    method AllocBuffer() returns (current: int)
      requires Valid()
      modifies this`last, freeBufferList
      ensures Valid()
      ensures (View(), current) == Alloc(old(View()))
      ensures old(last) < 0 ==> current == -1 && View() == old(View())
      ensures old(last) >= 0 ==> current == old(freeBufferList[last]) && View().free + [current] == old(View()).free
    {
      ghost var before := View();
      current := -1;
      if last >= 0 {
        current := freeBufferList[last];
        freeBufferList[last] := -1;
        last := last - 1;
        assert before.free == View().free + [current];
      }
    }

    /** The source does not check that the buffer is held: a free of a buffer that is
        available breaks the pool, and exactly that does. With a full list there is no
        place for the entry. */
    method FreeBuffer(bufferNo: int)
      requires Valid()
      requires 0 <= bufferNo < View().Capacity() ==> |View().free| < View().Capacity()
      modifies this`last, freeBufferList, messages
      ensures View() == Free(old(View()), bufferNo)
      ensures Valid() <==> (0 <= bufferNo < View().Capacity() ==> bufferNo !in old(View()).free)
      ensures 0 <= bufferNo < maxBuffers ==>
        && View().free == old(View()).free + [bufferNo]
        && messages[..] == old(messages[..])[bufferNo := seq(txBufferSize, _ => NUL)]
      ensures !(0 <= bufferNo < maxBuffers) ==> View() == old(View())
    {
      hide AllBuffers;
      ghost var before := View();
      if 0 <= bufferNo < maxBuffers {
        FreeIsSafeIff(before.free, bufferNo, maxBuffers);
        ReleaseBuffer(bufferNo);
        assert freeBufferList[..last + 1] == before.free + [bufferNo];
      }
    }

    method WriteBuffer(bufferNo: int, data: string)
      requires Valid() && 0 <= bufferNo < View().Capacity() && |data| <= |View().contents[bufferNo]|
      modifies messages
      ensures Valid()
      ensures View() == Write(old(View()), bufferNo, data)
    {
      messages[bufferNo] := data + messages[bufferNo][|data|..];
    }

    method GetBuffer(num: int) returns (block: string)
      requires Valid() && 0 <= num < View().Capacity()
      ensures block == View().contents[num]
    {
      block := messages[num];
    }

    function AvailableBuffers(): (n: int)
      requires Valid()
      reads this, freeBufferList, messages
      ensures n == |View().free|
    {
      last + 1
    }
  }

  /** The caller that holds a buffer never overruns the list, nor lists it twice. */
  lemma RoomForHeld(free: seq<int>, held: int, capacity: nat)
    requires multiset(free) + multiset{held} <= AllBuffers(capacity)
    ensures |free| < capacity && held !in free
  {
    SubMultisetSize(multiset(free) + multiset{held}, AllBuffers(capacity));
    assert (multiset(free) + multiset{held})[held] <= 1;
  }

  lemma FreeIsSafeIff(free: seq<int>, b: int, capacity: nat)
    requires multiset(free) <= AllBuffers(capacity) && 0 <= b < capacity
    ensures multiset(free + [b]) <= AllBuffers(capacity) <==> b !in free
  {
    assert multiset(free + [b])[b] == multiset(free)[b] + 1;
  }

  lemma SubMultisetSize(a: multiset<int>, b: multiset<int>)
    requires a <= b
    ensures |a| <= |b|
  {
    assert b == a + (b - a);
  }

  lemma {:induction false} InitialFree(n: nat)
    ensures multiset(seq(n, i => i)) == AllBuffers(n)
  {
    if n > 0 {
      InitialFree(n - 1);
      assert seq(n, i => i) == seq(n - 1, i => i) + [n - 1];
    }
  }

  /** Freeing what was just allocated restores the free list exactly: last in,
      first out. */
  lemma FreeAfterAlloc(p: Pool)
    requires p.Valid() && p.free != []
    ensures Free(Alloc(p).0, Alloc(p).1).free == p.free
    ensures Alloc(Free(p, Alloc(p).1)).1 == Alloc(p).1
  {
    var n := |p.free| - 1;
    assert p.free == p.free[..n] + [p.free[n]];
    assert p.free[n] in AllBuffers(p.Capacity());
  }
}
