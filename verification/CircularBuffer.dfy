/**
 The ring as the code has it: arrays updated in place, a pool shared with other
 rings, and a source. Every method is tied to the value model.
 */
module CircularBuffers {
  import opened IndexArithmetic
  import opened BufferPool
  import opened CString
  import opened RingState
  import opened ByteStream
  import opened StreamPointers
  import opened PointerAddition
  import opened PointerSubtraction
  import opened StablePositions

  class Source {
    var script: seq<Delivery>

    constructor (script: seq<Delivery>)
      ensures this.script == script
    {
      this.script := script;
    }

    method Read(maxSize: nat) returns (n: int, data: string)
      modifies this
      ensures (n, data, script) == FeedData(old(script), maxSize)
    {
      var (r, bytes, rest) := FeedData(script, maxSize);
      n, data, script := r, bytes, rest;
    }
  }

  class CircularBuffer {
    const size: nat
    const buffers: array<int>
    const dataSizes: array<int>
    var lastSent: nat
    var nextToBeReceived: nat
    const maxSize: nat
    const pool: SharedBuffers
    const source: Source

    ghost function View(): Ring
      reads this, buffers, dataSizes
    {
      Ring(size, buffers[..], dataSizes[..], lastSent, nextToBeReceived, maxSize)
    }

    ghost function AsLine(): Line
      reads this, buffers, dataSizes, source, pool, pool.freeBufferList, pool.messages
    {
      Line(pool.View(), View(), source.script)
    }

    ghost predicate Ok()
      reads this, buffers, dataSizes, source, pool, pool.freeBufferList, pool.messages
    {
      && buffers != dataSizes && buffers != pool.freeBufferList && dataSizes != pool.freeBufferList
      && pool.Valid() && Valid(AsLine())
    }

    constructor (size: nat, maxSize: nat, pool: SharedBuffers, source: Source)
      requires pool.Valid() && size <= 30 && maxSize <= pool.View().bufferSize
      ensures Ok() && fresh(buffers) && fresh(dataSizes)
      ensures View() == NewRing(size, maxSize) && this.pool == pool && this.source == source
      ensures buffers.Length == dataSizes.Length == Pow2(size) && lastSent == nextToBeReceived == 0
      ensures forall i :: 0 <= i < Pow2(size) ==> buffers[i] == dataSizes[i] == -1
    {
      hide SharedBuffers.Valid, SharedBuffers.View, Sound, Pow2, Ring.Window;
      PoolViewValid(pool);
      this.size, this.maxSize, this.pool, this.source := size, maxSize, pool, source;
      lastSent, nextToBeReceived := 0, 0;
      buffers := new int[Pow2(size)](_ => -1);
      dataSizes := new int[Pow2(size)](_ => -1);
      new;
      assert View() == NewRing(size, maxSize);
      NewRingIsValid(pool.View(), size, maxSize, source.script);
    }

    predicate IsFull()
      requires Ok()
      reads this, buffers, dataSizes, source, pool, pool.freeBufferList, pool.messages
      ensures IsFull() == View().IsFull()
    {
      CircularIncrement(nextToBeReceived, size) == lastSent
    }

    predicate IsEmpty()
      reads this
    {
      lastSent == nextToBeReceived
    }

    method AllocEntry() returns (result: int)
      requires Ok()
      modifies this`nextToBeReceived, buffers, dataSizes, pool`last, pool.freeBufferList
      ensures Ok()
      ensures (pool.View(), View(), result) == RingState.AllocEntry(old(pool.View()), old(View()))
      ensures result < 0 <==> old(Room(AsLine())) == 0
      ensures old(IsFull()) ==> result == -2
      ensures !old(IsFull()) && old(pool.last) < 0 ==> result == -1
      ensures result >= 0 ==> result == nextToBeReceived
      ensures result >= 0 ==> !IsEmpty()
    {
      hide SharedBuffers.Valid, SharedBuffers.View, Sound, Ring.SizesOk, Ring.Window, CircularIncrement, Pow2, Alloc;
      AllocIsValid(AsLine());
      result := -2;
      if !IsFull() {
        result := pool.AllocBuffer();
        if result >= 0 {
          buffers[nextToBeReceived] := result;
          dataSizes[nextToBeReceived] := -1;
          nextToBeReceived := CircularIncrement(nextToBeReceived, size);
          result := nextToBeReceived;
        }
      }
    }

    method ReadIntoNextBuffer() returns (n: int)
      requires Ok() && !IsEmpty()
      modifies source, pool.messages
      ensures Ok() && View() == old(View())
      ensures var newest := old(View().buffers[Dec(nextToBeReceived, |View().buffers|)]);
        var (n', data, rest) := FeedData(old(source.script), maxSize);
        && 0 <= newest < old(pool.View()).Capacity()
        && |data| <= |old(pool.View()).contents[newest]|
        && n == n' && source.script == rest
        && pool.View() == Write(old(pool.View()), newest, data)
    {
      hide SharedBuffers.Valid, SharedBuffers.View, Sound, Ring.SizesOk, Ring.Window, CircularDecrement, FeedData, Pow2;
      NewestExists(AsLine());
      ghost var before := AsLine();
      var newest := buffers[CircularDecrement(nextToBeReceived, size)];
      var data;
      n, data := source.Read(maxSize);
      pool.WriteBuffer(newest, data);
      WriteKeepsValid(before, newest, data, source.script);
    }

    /** The source sets whatever it is given: what keeps the ring in order is a size of a
        live slot that its buffer can hold. */
    method SetDataSizeForLastReceivedBuffer(length: int)
      requires Ok()
      modifies dataSizes
      ensures pool.View() == old(pool.View())
      ensures View() == old(View()).(dataSizes :=
            old(View()).dataSizes[Dec(nextToBeReceived, |View().buffers|) := length])
      ensures Ok() <==> if IsEmpty() then length == -1 else length <= maxSize
    {
      hide SharedBuffers.Valid, SharedBuffers.View, Sound, CircularDecrement, Pow2;
      dataSizes[CircularDecrement(nextToBeReceived, size)] := length;
      NewestResized(old(AsLine()), length);
    }

    /** feed_next_buffer: toLast is where the caller keeps the end of the data. */
    method FeedNextBuffer(toLast: Ptr) returns (result: int, toLast': Ptr)
      requires Ok()
      modifies this`nextToBeReceived, buffers, dataSizes, source, pool`last, pool.freeBufferList, pool.messages
      ensures Ok()
      ensures (AsLine(), result) == Feed(old(AsLine()))
      ensures old(Room(AsLine())) == 0 ==> AsLine() == old(AsLine()) && result == if old(IsFull()) then -2 else -1
      ensures toLast' == if result > 0 then Ptr(Dec(nextToBeReceived, |View().buffers|), result) else toLast
      ensures lastSent == old(lastSent)
    {
      hide SharedBuffers.Valid, SharedBuffers.View, Sound, Ring.SizesOk, Ring.Window, CircularDecrement, FeedData, Pow2;
      ghost var before := AsLine();
      toLast' := toLast;
      result := AllocEntry();
      if result >= 0 {
        result := ReadIntoNextBuffer();
        SetDataSizeForLastReceivedBuffer(result);
        if result > 0 {
          var last := CircularDecrement(nextToBeReceived, size);
          toLast' := Ptr(last, dataSizes[last]);
        }
      }
    }

    method BufferHasBeenSent() returns (result: int)
      requires Ok()
      modifies this`lastSent, buffers, dataSizes, pool`last, pool.freeBufferList, pool.messages
      ensures Ok()
      ensures (pool.View(), View(), result) == Sent(old(pool.View()), old(View()))
      ensures old(IsEmpty()) ==> result == -2
      ensures !old(IsEmpty()) ==>
        && result == old(lastSent) && lastSent == Inc(old(lastSent), buffers.Length)
        && buffers[old(lastSent)] == 0 && dataSizes[old(lastSent)] == -1
    {
      hide SharedBuffers.Valid, SharedBuffers.View, Sound, Ring.SizesOk, Ring.Window, CircularIncrement, Pow2,
           Ring.Count, Ring.Live, Free;
      result := -2;
      ghost var before := AsLine();
      if !IsEmpty() {
        HeadCanBeFreed(before);
        RoomForHeld(before.pool.free, buffers[lastSent], before.pool.Capacity());
        SentIsValid(before);
        pool.FreeBuffer(buffers[lastSent]);
        result := lastSent;
        buffers[lastSent] := 0;
        dataSizes[lastSent] := -1;
        lastSent := CircularIncrement(lastSent, size);
        assert View() == Sent(before.pool, before.ring).1;
      }
    }

    /** The oldest slot: its buffer block, if there is one, and its size. */
    method GetToBeSent() returns (block: Option<string>, length: int)
      requires Ok()
      ensures IsEmpty() ==> block == None && length == -1
      ensures !IsEmpty() ==>
        && block.Some? && length == View().Window()[0].size
        && (if 0 <= length <= |block.value| then block.value[..length] else [])
           == SlotBytes(pool.View().contents, View().Window()[0])
    {
      hide SharedBuffers.Valid, SharedBuffers.View, Ledger, AllBuffers;
      block := None;
      if !IsEmpty() {
        LiveBufferExists(AsLine(), 0);
        var content := pool.GetBuffer(buffers[lastSent]);
        block := Some(content);
      }
      length := dataSizes[lastSent];
    }

    /** Between live slots the sign is the order of (steps from the head, offset), and so
        never against the order of the stream. */
    function Cmp(lhs: Ptr, rhs: Ptr): (result: int)
      requires Ok()
      reads this, buffers, dataSizes, source, pool, pool.freeBufferList, pool.messages
      ensures View().Live(lhs.circIndex) && View().Live(rhs.circIndex) ==>
        var i, j := View().Steps(lhs.circIndex), View().Steps(rhs.circIndex);
        && (result < 0 <==> i < j || (i == j && lhs.buffPos < rhs.buffPos))
        && (result == 0 <==> lhs == rhs)
      ensures In(View(), lhs) && In(View(), rhs) && result < 0 ==> Position(View(), lhs) <= Position(View(), rhs)
    {
      hide SharedBuffers.Valid, SharedBuffers.View, Sound, Ring.Window, Position;
      CmpMeans(View(), lhs, rhs);
      if lhs.circIndex == rhs.circIndex then lhs.buffPos - rhs.buffPos
      else
        var offset := if lastSent > nextToBeReceived then Pow2(size) else 0;
        var l := if lhs.circIndex <= nextToBeReceived then lhs.circIndex + offset else lhs.circIndex;
        var r := if rhs.circIndex <= nextToBeReceived then rhs.circIndex + offset else rhs.circIndex;
        l - r
    }

    /** At or above 0 exactly when no byte of the newest slot comes after p. On a received
        byte never above, and 0 exactly at the last one, except that after a read that got
        nothing, or failed, it is negative there too. */
    function CmpToLastReceived(p: Ptr): (result: int)
      requires Ok()
      reads this, buffers, dataSizes, source, pool, pool.freeBufferList, pool.messages
      ensures result >= 0 <==> NothingAfter(View(), p)
      ensures AtByte(View(), p) ==>
        && result <= 0
        && (result == 0 <==> NewestSize(View()) > 0 && Position(View(), p) == Total(View().Window()) - 1)
    {
      hide SharedBuffers.Valid, SharedBuffers.View, Sound, Ring.Window, Position, Total, CircularDecrement, Pow2;
      LastReceivedMeans(View(), p);
      var lastReceived := CircularDecrement(nextToBeReceived, size);
      if lastReceived == p.circIndex then p.buffPos - dataSizes[lastReceived] + 1 else -1
    }

    /** op_distance_circ_pointers: the difference of the stream positions, less what failed
        reads in between take off. From a later slot back to an earlier one the code goes
        once around the ring, and adds up all of its sizes. */
    method OpDistance(lhs: Ptr, rhs: Ptr) returns (result: int)
      requires Ok() && View().Live(lhs.circIndex) && View().Live(rhs.circIndex)
      ensures result == Position(View(), rhs) - Position(View(), lhs) - LostBetween(View(), lhs, rhs)
                        + if View().Steps(lhs.circIndex) <= View().Steps(rhs.circIndex) then 0 else RingSum(View())
      ensures View().Steps(lhs.circIndex) <= View().Steps(rhs.circIndex) ==>
        (result == Position(View(), rhs) - Position(View(), lhs)
         <==> Unbroken(View().Window(), View().Steps(lhs.circIndex), View().Steps(rhs.circIndex)))
    {
      hide SharedBuffers.Valid, SharedBuffers.View, Sound, Ring.Window, CircularIncrement, Pow2, Unbroken,
           Ring.SizesOk, Start, Lost, RawStart;
      ghost var r := View();
      ghost var j: nat := r.Steps(lhs.circIndex);
      ghost var n, from, lap := r.Steps(rhs.circIndex), RawStart(r, j) + lhs.buffPos, 0;
      AtSteps(r, lhs.circIndex);
      AtSteps(r, rhs.circIndex);
      RawDistance(r, lhs, rhs);
      if lhs.circIndex == rhs.circIndex {
        result := rhs.buffPos - lhs.buffPos;
      } else {
        RawStep(AsLine(), j);
        result := dataSizes[lhs.circIndex] - lhs.buffPos;
        var curIndex := CircularIncrement(lhs.circIndex, size);
        ghost var around := false;
        j := j + 1;
        while curIndex != rhs.circIndex
          invariant j < |r.buffers| && curIndex == r.At(j) && result == lap + RawStart(r, j) - from
          invariant around ==> j <= n < r.Steps(lhs.circIndex) && lap == RingSum(r)
          invariant !around ==> r.Steps(lhs.circIndex) < j && lap == 0 && (r.Steps(lhs.circIndex) < n ==> j <= n)
          decreases !around, |r.buffers| - j
        {
          RawStep(AsLine(), j);
          result := result + dataSizes[curIndex];
          curIndex := CircularIncrement(curIndex, size);
          j := j + 1;
          if j == |r.buffers| { lap, around, j := RingSum(r), true, 0; }
        }
        result := result + rhs.buffPos;
      }
    }

    /** op_add_circ_pointers, when enough bytes can be loaded before a read fails. lhs is updated in
        place in the source; here the new pointer is returned. */
    method OpAdd(lhs: Ptr, ask: int) returns (q: Ptr, ghost feeds: nat)
      requires Ok() && CanAdd(AsLine(), lhs, ask)
      modifies this`nextToBeReceived, buffers, dataSizes, source, pool`last, pool.freeBufferList, pool.messages
      ensures Ok()
      ensures FewestFeeds(old(AsLine()), old(Position(View(), lhs)) + ask, feeds, AsLine())
      ensures LandsForward(View(), lhs, ask, q) && Position(View(), lhs) == old(Position(View(), lhs))
      ensures ask >= 0 ==> CanSub(View(), q, ask)
    {
      hide SharedBuffers.Valid, SharedBuffers.View, Sound, Ring.Window, CircularIncrement, Pow2, FewestFeeds, Feed,
           Passable, Reachable, CanSub;
      ghost var before := AsLine();
      ghost var fuel: nat := View().Count() + Room(AsLine()) + 1;
      ghost var l', q';
      feeds, l', q' := AddMovesForward(before, lhs, ask, fuel);
      if ask >= 0 { CanSubAfterAdd(l'.ring, lhs, ask, q'); }
      var remainder := ask + lhs.buffPos;
      var idx: nat := lhs.circIndex;
      remainder := remainder - dataSizes[idx];
      while remainder > 0
        invariant Ok() && idx < |View().buffers|
        invariant AddRun(AsLine(), idx, remainder + dataSizes[idx], fuel) == Some((l', q'))
        decreases fuel
      {
        AddRunOnce(AsLine(), idx, remainder + dataSizes[idx], fuel);
        if CircularIncrement(idx, size) == nextToBeReceived {
          var _, _ := FeedNextBuffer(lhs);
        }
        idx := CircularIncrement(idx, size);
        remainder := remainder - dataSizes[idx];
        fuel := fuel - 1;
      }
      q := Ptr(idx, remainder + dataSizes[idx]);
    }

    /** op_sub_circ_pointer, when there are as many bytes before lhs in the window, with no
        failed read on the way. */
    method OpSub(lhs: Ptr, ask: int) returns (q: Ptr)
      requires Ok() && CanSub(View(), lhs, ask)
      ensures LandsBack(View(), lhs, ask, q)
      ensures ask >= 0 ==> CanAdd(AsLine(), q, ask) && Position(View(), q) + ask <= Total(View().Window())
    {
      hide SharedBuffers.Valid, SharedBuffers.View, Sound, Ring.Window, CircularDecrement, Pow2, Ring.SizesOk,
           Position, PassableBack, CanAdd, LandsBack;
      ghost var r := View();
      ghost var fuel := SlotsBehind(r, lhs);
      ghost var q' := SubMovesBack(r, lhs, ask, fuel);
      if ask >= 0 { CanAddAfterSub(AsLine(), lhs, ask, q'); }
      var circIndex: nat := lhs.circIndex;
      var left := ask - lhs.buffPos;
      while left > 0
        invariant circIndex < |r.buffers| && SubRun(r, circIndex, left, fuel) == Some(q')
        decreases fuel
      {
        SubRunOnce(r, circIndex, left, fuel);
        circIndex := CircularDecrement(circIndex, size);
        left := left - dataSizes[circIndex];
        fuel := fuel - 1;
      }
      q := Ptr(circIndex, left * -1);
    }

    /** The byte under p, or an arbitrary one when p is past the end of its buffer. */
    method GetChar(p: Ptr) returns (c: char)
      requires Ok() && View().Live(p.circIndex) && p.buffPos >= 0
      ensures p.buffPos < |pool.View().contents[LiveBuffer(AsLine(), p.circIndex)]| ==>
        c == pool.View().contents[LiveBuffer(AsLine(), p.circIndex)][p.buffPos]
    {
      ghost var b := LiveBuffer(AsLine(), p.circIndex);
      var block := pool.GetBuffer(buffers[p.circIndex]);
      if p.buffPos < |block| {
        c := block[p.buffPos];
      } else {
        c := *;
      }
    }

    /** buffer_2_str_copy: to a reader that stops at NUL the copy is the stretch of the
        stream between the two pointers; without a NUL it is that stretch, byte for byte. */
    method Buffer2StrCopy(start: Ptr, end: Ptr) returns (s: string)
      requires Ok() && In(View(), start) && In(View(), end)
      requires View().Steps(start.circIndex) <= View().Steps(end.circIndex)
      requires Unbroken(View().Window(), View().Steps(start.circIndex), View().Steps(end.circIndex))
      requires Position(View(), start) <= Position(View(), end)
      ensures SameCString(s, Between(AsLine(), start, end))
      ensures NUL !in Between(AsLine(), start, end) ==> s == Between(AsLine(), start, end)
    {
      hide SharedBuffers.Valid, SharedBuffers.View, Sound, Ring.Window, CircularIncrement, Pow2, LiveBytes, Start,
           SameCString, CopiedSoFar, LostBetween, Unbroken, Ring.SizesOk;
      ghost var l, r := AsLine(), View();
      ghost var j, n := r.Steps(start.circIndex), r.Steps(end.circIndex);
      AtSteps(r, start.circIndex);
      AtSteps(r, end.circIndex);
      var length := OpDistance(start, end);
      s := [];
      var srcStart := start.buffPos;
      var i: nat := start.circIndex;
      ghost var from := Position(r, start);
      CopyNothing(l, start);
      while i != end.circIndex
        invariant j <= n && i == r.At(j) && Unbroken(r.Window(), j, n) && 0 <= srcStart <= dataSizes[i]
        invariant j == n ==> srcStart <= end.buffPos
        invariant CopiedSoFar(l, from, Start(r.Window(), j) + srcStart, s)
        decreases n - j
      {
        NextUnbroken(r, j, n);
        CopySegment(l, from, j, srcStart, dataSizes[i], s);
        var block := pool.GetBuffer(buffers[i]);
        s := s + StrNCpy(block[srcStart..], dataSizes[i] - srcStart);
        srcStart := 0;
        i := CircularIncrement(i, size);
        j := j + 1;
      }
      CopySegment(l, from, n, srcStart, end.buffPos, s);
      var block := pool.GetBuffer(buffers[i]);
      s := s + StrNCpy(block[srcStart..], end.buffPos - srcStart);
      CopyDone(l, start, end, s);
    }
  }

  /** op_add_circ_pointers and then op_sub_circ_pointer by the same number: the subtraction
      is always possible, and leads back to p unless p is at the end of its slot. */
  method AddAndSubtract(buffer: CircularBuffer, p: Ptr, n: nat) returns (p': Ptr)
    requires buffer.Ok() && CanAdd(buffer.AsLine(), p, n)
    modifies buffer`nextToBeReceived, buffer.buffers, buffer.dataSizes, buffer.source,
             buffer.pool`last, buffer.pool.freeBufferList, buffer.pool.messages
    ensures buffer.Ok() && In(buffer.View(), p) && In(buffer.View(), p')
    ensures Position(buffer.View(), p') == Position(buffer.View(), p) == old(Position(buffer.View(), p))
    ensures p' == p <==> p.buffPos < buffer.dataSizes[p.circIndex] || n == 0
  {
    hide CircularBuffer.Ok, CircularBuffer.AsLine, CanAdd, CanSub, FewestFeeds;
    var q, _ := buffer.OpAdd(p, n);
    p' := buffer.OpSub(q, n);
    AddThenSubtract(buffer.View(), p, n, q, p');
  }

  /** The other way round: the addition is always possible, feeds nothing, and leads back
      to p unless p is at the start of its slot. */
  method SubtractAndAdd(buffer: CircularBuffer, p: Ptr, n: nat) returns (p': Ptr)
    requires buffer.Ok() && CanSub(buffer.View(), p, n)
    modifies buffer`nextToBeReceived, buffer.buffers, buffer.dataSizes, buffer.source,
             buffer.pool`last, buffer.pool.freeBufferList, buffer.pool.messages
    ensures buffer.Ok() && buffer.AsLine() == old(buffer.AsLine()) && In(buffer.View(), p) && In(buffer.View(), p')
    ensures Position(buffer.View(), p') == Position(buffer.View(), p)
    ensures p' == p <==> p.buffPos > 0 || n == 0
  {
    hide SharedBuffers.Valid, SharedBuffers.View, Sound, CircularBuffer.Ok, CanAdd, CanSub, FewestFeeds, Ring.Window;
    ghost var before := buffer.AsLine();
    var q := buffer.OpSub(p, n);
    ghost var feeds;
    p', feeds := buffer.OpAdd(q, n);
    AlreadyThere(before, Position(before.ring, q) + n, feeds, buffer.AsLine());
    SubtractThenAdd(buffer.View(), p, n, q, p');
  }

  /** The sum of the sizes, negative ones included, of the slots up to slot j, of which
      those that are not live count -1. */
  ghost function RawStart(r: Ring, j: nat): int
    requires r.Shape() && j <= |r.buffers|
  {
    if j <= r.Count() then Start(r.Window(), j) - Lost(r.Window(), j)
    else RawStart(r, r.Count()) - (j - r.Count())
  }

  /** The sum of all sizes of the ring. */
  ghost function RingSum(r: Ring): int
    requires r.Shape()
  {
    RawStart(r, |r.buffers|)
  }

  lemma RawStep(l: Line, j: nat)
    requires Valid(l) && j < |l.ring.buffers|
    ensures RawStart(l.ring, j + 1) == RawStart(l.ring, j) + l.ring.dataSizes[l.ring.At(j)]
    ensures Inc(l.ring.At(j), |l.ring.buffers|) == l.ring.At(if j + 1 == |l.ring.buffers| then 0 else j + 1)
    ensures RawStart(l.ring, 0) == 0
  {
    hide Ledger, Ring.Window, AllBuffers;
    if j < l.ring.Count() {
      StartAfter(l.ring, j);
    } else {
      assert !l.ring.Live(l.ring.At(j));
    }
  }

  lemma RawDistance(r: Ring, p: Ptr, q: Ptr)
    requires r.Shape() && r.Live(p.circIndex) && r.Live(q.circIndex)
    ensures Position(r, q) - Position(r, p) - LostBetween(r, p, q)
         == RawStart(r, r.Steps(q.circIndex)) + q.buffPos - (RawStart(r, r.Steps(p.circIndex)) + p.buffPos)
    ensures r.Steps(p.circIndex) <= r.Steps(q.circIndex) ==>
      (LostBetween(r, p, q) == 0 <==> Unbroken(r.Window(), r.Steps(p.circIndex), r.Steps(q.circIndex)))
  {
    hide Ring.Window, Start, Lost, Unbroken;
    if r.Steps(p.circIndex) <= r.Steps(q.circIndex) {
      LostNothing(r.Window(), r.Steps(p.circIndex), r.Steps(q.circIndex));
    }
  }

  /** The pool buffer behind a live slot. */
  ghost function LiveBuffer(l: Line, i: int): (b: nat)
    requires Valid(l) && l.ring.Live(i)
    ensures b < l.pool.Capacity() && b == l.ring.buffers[i]
  {
    AtSteps(l.ring, i);
    LiveBufferExists(l, l.ring.Steps(i));
    l.ring.buffers[i]
  }

  /** On from slot j to the next, with no failed read before slot n. */
  lemma NextUnbroken(r: Ring, j: nat, n: nat)
    requires r.Shape() && j < n < r.Count() && Unbroken(r.Window(), j, n)
    ensures r.dataSizes[r.At(j)] >= 0 && Unbroken(r.Window(), j + 1, n)
    ensures Inc(r.At(j), |r.buffers|) == r.At(j + 1)
    ensures j + 1 < n ==> r.dataSizes[r.At(j + 1)] >= 0
  {
    AtSuccessor(r, j);
    assert r.Window()[j].size >= 0 && (j + 1 < n ==> r.Window()[j + 1].size >= 0);
  }

  ghost predicate CopiedSoFar(l: Line, from: int, to: int, s: string)
    requires l.ring.Shape()
  {
    0 <= from <= to <= |LiveBytes(l)| && SameCString(s, LiveBytes(l)[from..to])
  }

  lemma CopyNothing(l: Line, start: Ptr)
    requires Valid(l) && In(l.ring, start)
    ensures CopiedSoFar(l, Position(l.ring, start), Position(l.ring, start), [])
  {
    hide Sound, Ring.Window, LiveBytes, Start;
    LiveBytesLength(l);
    PositionBounds(l.ring, start);
  }

  /** One strncpy extends the copy by bytes a to b of slot j. */
  lemma CopySegment(l: Line, from: int, j: nat, a: nat, b: nat, s: string)
    requires Valid(l) && j < l.ring.Count() && a <= b <= l.ring.dataSizes[l.ring.At(j)]
    requires CopiedSoFar(l, from, Start(l.ring.Window(), j) + a, s)
    ensures 0 <= l.ring.buffers[l.ring.At(j)] < l.pool.Capacity()
    ensures b <= |l.pool.contents[l.ring.buffers[l.ring.At(j)]]|
    ensures CopiedSoFar(l, from, Start(l.ring.Window(), j) + b,
                        s + StrNCpy(l.pool.contents[l.ring.buffers[l.ring.At(j)]][a..], b - a))
    ensures b == l.ring.dataSizes[l.ring.At(j)] ==> Start(l.ring.Window(), j + 1) == Start(l.ring.Window(), j) + b
  {
    hide Sound, LiveBytes, Start, SameCString;
    SlotSegment(l, j, a, b);
    StartAfter(l.ring, j);
    var block, at := l.pool.contents[l.ring.Window()[j].buffer], Start(l.ring.Window(), j);
    StrNCpyIsPrefix(block[a..], b - a);
    assert block[a..][..b - a] == block[a..b];
    assert LiveBytes(l)[from..at + b] == LiveBytes(l)[from..at + a] + LiveBytes(l)[at + a..at + b];
    AppendSame(s, LiveBytes(l)[from..at + a], StrNCpy(block[a..], b - a), block[a..b]);
  }

  lemma CopyDone(l: Line, start: Ptr, end: Ptr, s: string)
    requires Valid(l) && In(l.ring, start) && In(l.ring, end)
    requires Position(l.ring, start) <= Position(l.ring, end)
    requires CopiedSoFar(l, Position(l.ring, start), Position(l.ring, end), s)
    ensures SameCString(s, Between(l, start, end))
    ensures NUL !in Between(l, start, end) ==> s == Between(l, start, end)
  {
    hide Sound, Ring.Window, LiveBytes, Start, SameCString;
    if NUL !in Between(l, start, end) { SameWithoutNul(s, Between(l, start, end)); }
  }

  /** The newest slot names an existing buffer. */
  lemma NewestExists(l: Line)
    requires Valid(l) && !l.ring.IsEmpty()
    ensures 0 <= l.ring.buffers[Dec(l.ring.next, |l.ring.buffers|)] < l.pool.Capacity()
    ensures l.ring.maxSize <= |l.pool.contents[l.ring.buffers[Dec(l.ring.next, |l.ring.buffers|)]]|
  {
    hide Ledger, Buffers, AllBuffers;
    var i := Dec(l.ring.next, |l.ring.buffers|);
    assert l.ring.Steps(i) == l.ring.Count() - 1;
    AtSteps(l.ring, i);
    LiveBufferExists(l, l.ring.Count() - 1);
  }

  lemma NewestResized(l: Line, length: int)
    requires Valid(l)
    ensures var r := l.ring.(dataSizes := l.ring.dataSizes[Dec(l.ring.next, |l.ring.buffers|) := length]);
      r.Shape() && (Valid(l.(ring := r)) <==> if r.IsEmpty() then length == -1 else length <= r.maxSize)
  {
    hide AllBuffers, Buffers, Ledger;
    var i := Dec(l.ring.next, |l.ring.buffers|);
    var r := l.ring.(dataSizes := l.ring.dataSizes[i := length]);
    assert r.dataSizes[i] == length;
    assert !r.IsEmpty() ==> l.ring.Steps(i) == l.ring.Count() - 1;
    SameBuffers(l.ring.Window(), r.Window());
    SameLedger(l, r);
  }

  lemma SameLedger(l: Line, r: Ring)
    requires l.ring.Shape() && r.Shape() && Buffers(r.Window()) == Buffers(l.ring.Window())
    ensures Ledger(l.(ring := r)) == Ledger(l)
  {
    hide Buffers, Ring.Window;
  }

  lemma WriteKeepsValid(l: Line, b: int, data: string, source: seq<Delivery>)
    requires Valid(l) && 0 <= b < l.pool.Capacity() && |data| <= |l.pool.contents[b]|
    ensures Valid(Line(Write(l.pool, b, data), l.ring, source))
  {
    hide AllBuffers, Buffers, Ring.Window, Ring.SizesOk;
  }

  lemma {:induction false} SameBuffers(v: seq<Slot>, w: seq<Slot>)
    requires |v| == |w| && forall j :: 0 <= j < |v| ==> v[j].buffer == w[j].buffer
    ensures Buffers(v) == Buffers(w)
  {
    if v != [] { SameBuffers(v[..|v| - 1], w[..|w| - 1]); }
  }

  lemma HeadCanBeFreed(l: Line)
    requires Valid(l) && !l.ring.IsEmpty()
    ensures multiset(l.pool.free) + multiset{l.ring.buffers[l.ring.lastSent]} <= AllBuffers(l.pool.Capacity())
  {
    SentEffect(l);
    AtSteps(l.ring, l.ring.lastSent);
  }

  lemma PoolViewValid(pool: SharedBuffers)
    requires pool.Valid()
    ensures pool.View().Valid()
  {
  }

  lemma NewRingIsValid(p: Pool, size: nat, maxSize: nat, source: seq<Delivery>)
    requires p.Valid() && size <= 30 && maxSize <= p.bufferSize
    ensures Valid(Line(p, NewRing(size, maxSize), source))
    ensures NewRing(size, maxSize).Window() == []
  {
    assert NewRing(size, maxSize).Window() == [];
  }
}
