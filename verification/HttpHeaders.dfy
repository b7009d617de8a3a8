/**
 The header decoder as the code has it: four pointers moving over the ring, and a
 stack of values per known header. The block lies in one slot of the ring; the source
 may deliver more data at any time.
 */
module HttpHeaderDecoder {
  import opened IndexArithmetic
  import opened BufferPool
  import opened CString
  import opened RingState
  import opened ByteStream
  import opened StreamPointers
  import opened PointerAddition
  import opened StablePositions
  import opened CircularBuffers
  import opened HeaderTable
  import opened HeaderText
  import opened Decimal

  // ---------- a slot that holds a text ----------

  /** Live slot i holds exactly these bytes. */
  ghost predicate Holds(l: Line, i: int, data: string) {
    && Valid(l) && l.ring.Live(i) && l.ring.dataSizes[i] == |data|
    && 0 <= l.ring.buffers[i] < |l.pool.contents|
    && data <= l.pool.contents[l.ring.buffers[i]]
  }

  /** Nothing comes after slot i: the source is exhausted and the next slot, if it has
      been read at all, is empty. */
  ghost predicate AtEnd(l: Line, i: int) {
    && l.ring.Shape() && 0 <= i < |l.ring.buffers|
    && l.source == [] && l.ring.dataSizes[Inc(i, |l.ring.buffers|)] <= 0
  }

  lemma FeedHolds(l: Line, i: int, data: string)
    requires Holds(l, i, data)
    ensures Holds(Feed(l).0, i, data)
    ensures AtEnd(l, i) ==> AtEnd(Feed(l).0, i)
  {
    hide Sound, Feed, Fed, Ring.Window;
    if Room(l) == 0 {
      FeedFails(l);
    } else {
      FeedSucceeds(l);
      FedIsValid(l);
      FedSlots(l, i);
    }
  }

  lemma FedSlots(l: Line, i: int)
    requires Valid(l) && Room(l) > 0 && l.ring.Live(i)
    ensures Fed(l).ring.Shape() && Fed(l).ring.Live(i)
    ensures Fed(l).ring.dataSizes[i] == l.ring.dataSizes[i] && Fed(l).ring.buffers[i] == l.ring.buffers[i]
    ensures |Fed(l).pool.contents| == |l.pool.contents|
    ensures 0 <= l.ring.buffers[i] < |l.pool.contents|
    ensures Fed(l).pool.contents[l.ring.buffers[i]] == l.pool.contents[l.ring.buffers[i]]
    ensures AtEnd(l, i) ==> AtEnd(Fed(l), i)
  {
    hide Sound, Ring.Window;
    AllocatedIsOwned(l);
    AtSteps(l.ring, i);
    LiveBufferExists(l, l.ring.Steps(i));
    LiveIsNotFree(l, l.ring.Steps(i));
    PushedWindow(l.ring, Alloc(l.pool).1, FeedData(l.source, l.ring.maxSize).0);
    assert Alloc(l.pool).1 in l.pool.free;
  }

  lemma BetweenInSlot(l: Line, i: int, data: string, a: nat, b: nat)
    requires Holds(l, i, data) && a <= b <= |data|
    ensures In(l.ring, Ptr(i, a)) && In(l.ring, Ptr(i, b)) && Position(l.ring, Ptr(i, a)) <= Position(l.ring, Ptr(i, b))
    ensures Between(l, Ptr(i, a), Ptr(i, b)) == data[a..b]
  {
    hide Sound;
    AtSteps(l.ring, i);
    SlotSegment(l, l.ring.Steps(i), a, b);
  }

  /** Moving on inside a slot needs no feeding, and ends up where one expects. */
  lemma CanAddInSlot(l: Line, i: int, data: string, a: nat, n: nat)
    requires Holds(l, i, data) && a + n <= |data|
    ensures CanAdd(l, Ptr(i, a), n) && Position(l.ring, Ptr(i, a)) + n <= Total(l.ring.Window())
  {
    hide Sound, Ring.Window, Start;
    var w, j := l.ring.Window(), l.ring.Steps(i);
    AtSteps(l.ring, i);
    PositionBounds(l.ring, Ptr(i, a + n));
    forall k | j < k < |w| ensures Start(w, k) >= Position(l.ring, Ptr(i, a)) + n {
      StartMonotone(w, j + 1, k);
    }
  }

  lemma AddedInSlot(l: Line, i: int, data: string, a: nat, n: nat, f: nat, l': Line, q: Ptr)
    requires Holds(l, i, data) && a + n <= |data|
    requires FewestFeeds(l, Position(l.ring, Ptr(i, a)) + n, f, l') && LandsForward(l'.ring, Ptr(i, a), n, q)
    ensures l' == l && q == Ptr(i, a + n)
  {
    hide Sound, Ring.Window, FewestFeeds;
    CanAddInSlot(l, i, data, a, n);
    AlreadyThere(l, Position(l.ring, Ptr(i, a)) + n, f, l');
    LandsForwardOnce(l.ring, Ptr(i, a), n, q, Ptr(i, a + n));
  }

  lemma CanSubInSlot(l: Line, i: int, data: string, a: nat, n: nat)
    requires Holds(l, i, data) && n <= a <= |data|
    ensures In(l.ring, Ptr(i, a)) && n <= Position(l.ring, Ptr(i, a))
    ensures PassableBack(l.ring.Window(), l.ring.Steps(i), Position(l.ring, Ptr(i, a)) - n)
    ensures LandsBack(l.ring, Ptr(i, a), n, Ptr(i, a - n))
  {
    hide Sound, Ring.Window, Start;
    var w, j := l.ring.Window(), l.ring.Steps(i);
    AtSteps(l.ring, i);
    PositionBounds(l.ring, Ptr(i, a - n));
    forall k | 0 <= k <= j ensures Start(w, k) <= Position(l.ring, Ptr(i, a)) - n {
      StartMonotone(w, k, j);
    }
  }

  /** When get_next_line reads more before it starts: nothing is left after cur. */
  ghost predicate NeedsRefill(r: Ring, cur: Ptr) {
    r.IsEmpty() || NothingAfter(r, cur)
  }

  /** The line after that. */
  ghost function Refilled(l: Line, cur: Ptr): Line
    requires Valid(l)
  {
    if NeedsRefill(l.ring, cur) then Feed(l).0 else l
  }

  /** In terms of the stream: more is read when there is no byte at all, at the last byte
      received, and at the end of the slot received last; elsewhere it is not. */
  lemma RefillsAtTheEnd(l: Line, cur: Ptr)
    requires Valid(l)
    ensures l.ring.IsEmpty() ==> Refilled(l, cur) == Feed(l).0
    ensures AtByte(l.ring, cur) && NewestSize(l.ring) > 0 ==>
      Refilled(l, cur) == if Position(l.ring, cur) == Total(l.ring.Window()) - 1 then Feed(l).0 else l
    ensures In(l.ring, cur) && cur == Ptr(Dec(l.ring.next, |l.ring.buffers|), NewestSize(l.ring)) ==>
      Refilled(l, cur) == Feed(l).0
  {
    hide Sound, Ring.Window, Feed, Position, Total;
    LastReceivedMeans(l.ring, cur);
  }

  lemma RefilledIsFed(l: Line, cur: Ptr)
    requires Valid(l)
    ensures FedBy(l, if NeedsRefill(l.ring, cur) then 1 else 0, Refilled(l, cur))
  {
    hide Sound, Feed, FeedTimes;
    FedOnce(l);
  }

  lemma OkIsValid(buffers: CircularBuffer)
    requires buffers.Ok()
    ensures Valid(buffers.AsLine())
  {
  }

  lemma RefillHolds(l: Line, cur: Ptr, data: string)
    requires Holds(l, cur.circIndex, data)
    ensures Holds(Refilled(l, cur), cur.circIndex, data)
    ensures AtEnd(l, cur.circIndex) ==> AtEnd(Refilled(l, cur), cur.circIndex)
  {
    FeedHolds(l, cur.circIndex, data);
  }

  /** One byte past the end of a slot is a byte of the next, if that holds any. */
  lemma NextSlotReachable(l: Line, i: int, data: string)
    requires Holds(l, i, data) && l.ring.dataSizes[Inc(i, |l.ring.buffers|)] > 0
    ensures CanAdd(l, Ptr(i, |data|), 1) && Position(l.ring, Ptr(i, |data|)) + 1 <= Total(l.ring.Window())
  {
    hide Ledger, Ring.Window, Start, Loadable;
    var w, j := l.ring.Window(), l.ring.Steps(i);
    NextSlotIsLive(l, i);
    AtSteps(l.ring, i);
    StartAfter(l.ring, j);
    StartAfter(l.ring, j + 1);
    forall m | j + 2 <= m <= |w| ensures Start(w, m) > Position(l.ring, Ptr(i, |data|)) {
      StartMonotone(w, j + 2, m);
    }
  }

  lemma OneIntoNext(l: Line, i: int, data: string)
    requires Holds(l, i, data) && l.ring.dataSizes[Inc(i, |l.ring.buffers|)] > 0
    ensures In(l.ring, Ptr(Inc(i, |l.ring.buffers|), 1))
    ensures LandsForward(l.ring, Ptr(i, |data|), 1, Ptr(Inc(i, |l.ring.buffers|), 1))
  {
    hide Ledger, Ring.Window, Start;
    NextSlotIsLive(l, i);
    AtSteps(l.ring, i);
    StartAfter(l.ring, l.ring.Steps(i));
  }

  lemma NextSlotIsLive(l: Line, i: int)
    requires Valid(l) && l.ring.Live(i) && l.ring.dataSizes[Inc(i, |l.ring.buffers|)] > 0
    ensures var j := l.ring.Steps(i); j + 1 < l.ring.Count() && l.ring.At(j + 1) == Inc(i, |l.ring.buffers|)
  {
    hide Ledger, Ring.Window;
    AtSteps(l.ring, Inc(i, |l.ring.buffers|));
    AtSuccessor(l.ring, l.ring.Steps(i));
  }

  /** The slot after i is read and holds what the source gave, or is not live yet: it is
      not the place of a failed read. */
  ghost predicate NextIsSound(l: Line, i: int) {
    && l.ring.Shape() && 0 <= i < |l.ring.buffers|
    && (l.ring.dataSizes[Inc(i, |l.ring.buffers|)] < 0 ==> Inc(i, |l.ring.buffers|) == l.ring.next)
  }

  lemma FedMovesNext(l: Line)
    requires Valid(l)
    ensures Feed(l).1 >= 0 ==> Dec(Feed(l).0.ring.next, |Feed(l).0.ring.buffers|) == l.ring.next
  {
    hide Sound, Ring.Window;
    if Room(l) == 0 {
      FeedFails(l);
    } else {
      FeedSucceeds(l);
    }
  }

  /** What feed_next_buffer reports is then the size of the slot after i, when that slot
      was not live before; or a failure, and then there is still nothing there. */
  lemma FedNextSlot(l: Line, i: int, data: string)
    requires Holds(l, i, data) && l.ring.dataSizes[Inc(i, |l.ring.buffers|)] < 0
    ensures Holds(Feed(l).0, i, data) && |Feed(l).0.ring.buffers| == |l.ring.buffers|
    ensures AtEnd(l, i) ==> Feed(l).1 <= 0
    ensures NextIsSound(l, i) && Feed(l).1 >= 0 ==> Feed(l).0.ring.dataSizes[Inc(i, |l.ring.buffers|)] == Feed(l).1
    ensures NextIsSound(l, i) && Feed(l).1 < 0 ==> Feed(l).0.ring.dataSizes[Inc(i, |l.ring.buffers|)] < 0
  {
    hide Ledger, Ring.Window;
    FeedHolds(l, i, data);
    if Room(l) == 0 {
      FeedFails(l);
    } else {
      FeedSucceeds(l);
    }
  }

  lemma CharInSlot(l: Line, i: int, data: string, k: nat)
    requires Holds(l, i, data) && k < |data|
    ensures Valid(l) && l.ring.Live(i) && k < |l.pool.contents[LiveBuffer(l, i)]|
    ensures l.pool.contents[LiveBuffer(l, i)][k] == data[k]
  {
    hide Sound;
  }

  // ---------- scanning a line ----------

  /** Offset k lies in the run of the text that goes from start to end. */
  ghost predicate Scanned(data: string, start: nat, k: nat, end: nat) {
    && start <= k <= end <= |data|
    && RunLen(data[start..]) == end - start && RunLen(data[k..]) == end - k
  }

  lemma ScanStart(data: string, pos: nat)
    requires pos <= |data|
    ensures pos + EolLen(data[pos..]) <= |data|
    ensures Scanned(data, pos + EolLen(data[pos..]), pos + EolLen(data[pos..]), pos + Consumed(data[pos..]))
  {
    var n := EolLen(data[pos..]);
    assert data[pos..][n..] == data[pos + n..];
  }

  /** Where the last colon between start and k is; or where it was before. */
  ghost function Mark(i: int, data: string, start: nat, k: nat, before: Ptr): Ptr
    requires start <= k <= |data|
  {
    var c := LastColon(data[start..k]);
    if c >= 0 then Ptr(i, start + c) else before
  }

  lemma ScanStep(i: int, data: string, start: nat, k: nat, end: nat, before: Ptr)
    requires Scanned(data, start, k, end) && k < end
    ensures Scanned(data, start, k + 1, end)
    ensures Mark(i, data, start, k + 1, before)
         == if data[k] == COLON then Ptr(i, k) else Mark(i, data, start, k, before)
  {
    assert data[k..][1..] == data[k + 1..];
    assert data[start..k + 1][..k - start] == data[start..k];
  }

  /** The test of the scanning loop tells the end of the run from the bytes at hand,
      unless the run goes to the end of the text and more may follow. */
  ghost predicate TestResult(data: string, k: nat, atEnd: bool, result: int)
    requires k <= |data|
  {
    && (k + 2 <= |data| ==> result == EolLen(data[k..]))
    && (k + 1 == |data| && data[k] == LF ==> result != 0)
    && (k + 1 == |data| && data[k] != LF && data[k] != CR ==> result == 0)
    && (atEnd ==> (result != 0 <==> k == |data| || EolLen(data[k..]) > 0))
  }

  /** The line after the test at offset k of the text in slot i: it reads on at most once,
      and not at all while two bytes or more follow, or the next slot has been read. */
  ghost function Tested(l: Line, i: int, data: string, k: nat): Line
    requires Valid(l) && 0 <= i < |l.ring.buffers|
  {
    if k + 2 <= |data| || l.ring.dataSizes[Inc(i, |l.ring.buffers|)] >= 0 then l else Feed(l).0
  }

  /** The line after the tests at all offsets from k to end. */
  ghost function TestedUpTo(l: Line, i: int, data: string, k: nat, end: nat): (r: Line)
    requires Valid(l) && 0 <= i < |l.ring.buffers| && k <= end
    ensures Valid(r) && |r.ring.buffers| == |l.ring.buffers|
    decreases end - k
  {
    TestedIsValid(l, i, data, k);
    if k == end then Tested(l, i, data, k) else TestedUpTo(Tested(l, i, data, k), i, data, k + 1, end)
  }

  lemma TestedIsValid(l: Line, i: int, data: string, k: nat)
    requires Valid(l) && 0 <= i < |l.ring.buffers|
    ensures Valid(Tested(l, i, data, k)) && |Tested(l, i, data, k).ring.buffers| == |l.ring.buffers|
  {
    hide Sound, Feed;
    FeedKeepsValid(l);
  }

  /** A run of tests reads on only at its end, if that is close to the end of the text. */
  lemma {:induction false} TestedAtEnd(l: Line, i: int, data: string, k: nat, end: nat)
    requires Valid(l) && 0 <= i < |l.ring.buffers| && k <= end < |data|
    ensures TestedUpTo(l, i, data, k, end) == Tested(l, i, data, end)
    decreases end - k
  {
    hide Sound, Feed;
    if k < end { TestedAtEnd(l, i, data, k + 1, end); }
  }

  ghost predicate TestsLeadTo(l: Line, i: int, data: string, k: nat, end: nat, l': Line) {
    Valid(l) && 0 <= i < |l.ring.buffers| && k <= end && l' == TestedUpTo(l, i, data, k, end)
  }

  ghost predicate IsTested(l: Line, i: int, data: string, k: nat, l': Line) {
    Valid(l) && 0 <= i < |l.ring.buffers| && l' == Tested(l, i, data, k)
  }

  lemma OneTest(l: Line, i: int, data: string, k: nat, l': Line)
    requires IsTested(l, i, data, k, l')
    ensures TestsLeadTo(l, i, data, k, k, l')
  {
    hide Sound, Feed;
  }

  lemma NotTestedBefore(l: Line, i: int, data: string, k: nat, end: nat, l': Line)
    requires TestsLeadTo(l, i, data, k, end, l')
    ensures end < |data| ==> IsTested(l, i, data, end, l')
    ensures end + 2 <= |data| ==> l' == l
  {
    hide Sound, Feed;
    if end < |data| { TestedAtEnd(l, i, data, k, end); }
  }

  lemma OneMoreTest(l: Line, i: int, data: string, k: nat, end: nat, l': Line, l'': Line)
    requires TestsLeadTo(l, i, data, k, end, l') && IsTested(l', i, data, end + 1, l'')
    ensures TestsLeadTo(l, i, data, k, end + 1, l'')
  {
    hide Sound, Feed, Tested;
    TestAfter(l, i, data, k, end);
  }

  lemma {:induction false} TestAfter(l: Line, i: int, data: string, k: nat, end: nat)
    requires Valid(l) && 0 <= i < |l.ring.buffers| && k <= end
    ensures TestedUpTo(l, i, data, k, end + 1) == Tested(TestedUpTo(l, i, data, k, end), i, data, end + 1)
    decreases end - k
  {
    hide Sound, Feed;
    TestedIsValid(l, i, data, k);
    if k < end {
      TestAfter(Tested(l, i, data, k), i, data, k + 1, end);
    } else {
      TestedIsValid(Tested(l, i, data, k), i, data, k + 1);
    }
  }

  /** While two bytes or more follow in the slot, nothing is read before a line. */
  lemma NoRefill(l: Line, cur: Ptr, data: string)
    requires Holds(l, cur.circIndex, data) && 0 <= cur.buffPos && cur.buffPos + 2 <= |data|
    ensures Refilled(l, cur) == l
  {
    hide Sound, Ring.Window, Feed;
  }

  lemma DecodedIsFed(l: Line, cur: Ptr, i: int, data: string, k: nat, l': Line) returns (feeds: nat)
    requires Valid(l) && IsTested(Refilled(l, cur), i, data, k, l')
    ensures FedBy(l, feeds, l')
    ensures k + 2 <= |data| ==> l' == Refilled(l, cur)
  {
    hide Sound, Feed, FeedTimes, Refilled;
    var l1 := Refilled(l, cur);
    RefilledIsFed(l, cur);
    FedOnce(l1);
    var before, after := if NeedsRefill(l.ring, cur) then 1 else 0, if l' == l1 then 0 else 1;
    FedByMore(l, before, l1, after, l');
    feeds := before + after;
  }

  /** Where a field is still to be read, at least two bytes follow. */
  lemma MoreFollows(data: string, pos: nat)
    requires pos <= |data| && Fields(data[pos..]).Some?
    ensures pos + 2 <= |data|
  {
    hide LastColon, ParseLine;
  }

  /** The whole buffer behind a live slot. */
  ghost function BlockAt(l: Line, i: int): string {
    if Valid(l) && l.ring.Live(i) then l.pool.contents[LiveBuffer(l, i)] else []
  }

  /** What is_eol makes of size bytes from offset k of a buffer, as far as it reaches. */
  ghost predicate EolAt(block: string, k: int, size: int, result: int) {
    if size <= 0 then result == -1
    else if size == 1 then 0 <= k < |block| ==> result == EolLen(block[k..k + 1])
    else 0 <= k && k + 2 <= |block| ==> result == EolLen(block[k..k + 2])
  }

  /** The test at the last byte of a text in slot i, and past it. When the next slot holds
      bytes, it is made on two bytes of this buffer, although one of them is not data; or,
      past the last byte, on the bytes of the next slot from the second one on. */
  ghost predicate TestedNearEnd(l: Line, i: int, data: string, k: nat, result: int) {
    && l.ring.Shape() && 0 <= i < |l.ring.buffers| && k <= |data|
    && var next := Inc(i, |l.ring.buffers|);
       var size := l.ring.dataSizes[next];
       && (k + 1 == |data| ==> if size > 0 then EolAt(BlockAt(l, i), k, 2, result) else result == EolLen(data[k..]))
       && (k == |data| ==> if size > 0 then EolAt(BlockAt(l, next), 1, size - 1, result) else result == -1)
  }

  lemma TestIsRight(data: string, start: nat, k: nat, end: nat, atEnd: bool, result: int)
    requires Scanned(data, start, k, end) && TestResult(data, k, atEnd, result)
    requires end < |data| || atEnd
    ensures result == 0 <==> k < end
  {
  }

  lemma SlotPosition(l: Line, i: int, data: string, a: int)
    requires Holds(l, i, data)
    ensures l.ring.Live(i) && Position(l.ring, Ptr(i, a)) == Position(l.ring, Ptr(i, 0)) + a
  {
    hide Sound, Ring.Window;
  }

  lemma SlotDistance(buffers: CircularBuffer, i: int, data: string, p: Ptr, q: Ptr)
    requires Holds(buffers.AsLine(), i, data) && p.circIndex == q.circIndex == i
    ensures buffers.View().Shape() && buffers.View().Live(i)
    ensures Position(buffers.View(), q) - Position(buffers.View(), p) - LostBetween(buffers.View(), p, q)
         == q.buffPos - p.buffPos
  {
    hide Sound, Ring.Window, Start;
  }

  /** After the colon come the spaces, and then the value, up to the end of the line. */
  lemma SkipOneSpace(data: string, k: nat, end: nat)
    requires k < end <= |data| && data[k] == SPACE
    ensures SkipSpaces(data[k..end]) == SkipSpaces(data[k + 1..end])
  {
    assert data[k..end][1..] == data[k + 1..end];
  }

  lemma NoSpace(data: string, k: nat, end: nat)
    requires k <= end < |data| && data[k] != SPACE
    ensures SkipSpaces(data[k..end]) == data[k..end]
  {
  }

  lemma EolIsNotSpace(data: string, end: nat)
    requires end < |data| && EolLen(data[end..]) > 0
    ensures data[end] != SPACE
  {
  }

  lemma NulIsNoEol(data: string, end: nat)
    requires end < |data|
    ensures data[end] == NUL ==> EolLen(data[end..]) == 0
  {
  }

  // ---------- what the loop of the decoder does to a text ----------

  lemma ParseSlices(data: string, start: nat, c: nat, end: nat)
    requires start <= c < end <= |data| && LastColon(data[start..end]) == c - start
    ensures ParseLine(data[start..end]) == Field(UpToNul(data[start..c]), UpToNul(SkipSpaces(data[c + 1..end])))
  {
    hide LastColon, SkipSpaces, UpToNul;
    assert data[start..end][..c - start] == data[start..c];
    assert data[start..end][c - start + 1..] == data[c + 1..end];
  }

  lemma StoreOne(stacks: seq<seq<string>>, f: Field)
    requires |stacks| == |HeaderStrings()|
    ensures var i := IndexOf(HeaderStrings(), f.name);
      Store(stacks, [f]) == if i >= 0 then stacks[i := stacks[i] + [f.value]] else stacks
  {
    hide HeaderStrings, IndexOf;
    assert [f][1..] == [];
  }

  lemma StoreNothing(stacks: seq<seq<string>>)
    requires |stacks| == |HeaderStrings()|
    ensures Store(stacks, []) == stacks
  {
    hide HeaderStrings;
  }

  lemma StoreMore(stacks: seq<seq<string>>, f: Field, rest: seq<Field>)
    requires |stacks| == |HeaderStrings()|
    ensures Store(stacks, [f] + rest) == Store(Store(stacks, [f]), rest)
  {
    hide HeaderStrings, IndexOf;
    StoreOne(stacks, f);
    assert ([f] + rest)[1..] == rest;
  }

  lemma FirstLine(data: string, pos: nat)
    requires pos <= |data| && BlockFields(data[pos..]).Some?
    ensures Consumed(data[pos..]) < |data| - pos
    ensures pos + Consumed(data[pos..]) <= |data|
    ensures BlockFields(data[pos..]) == Fields(data[pos + Consumed(data[pos..])..])
    ensures BlockRest(data[pos..]) == FieldsRest(data[pos + Consumed(data[pos..])..])
  {
    hide EolLen, RunLen, Consumed, LastColon, ParseLine;
    var t := data[pos..];
    assert t[Consumed(t)..] == data[pos + Consumed(t)..];
    NoFields();
  }

  lemma NoFields()
    ensures Fields([]) == None
  {
  }

  /** The line after the line end at pos goes from LineStart to LineEnd. */
  ghost function LineStart(data: string, pos: nat): (start: nat)
    requires pos <= |data|
    ensures start <= |data|
  {
    pos + EolLen(data[pos..])
  }

  ghost function LineEnd(data: string, pos: nat): (end: nat)
    requires pos <= |data|
    ensures LineStart(data, pos) <= end <= |data|
  {
    pos + Consumed(data[pos..])
  }

  ghost function LineAt(data: string, pos: nat): string
    requires pos <= |data|
  {
    data[LineStart(data, pos)..LineEnd(data, pos)]
  }

  lemma FieldsUnfold(data: string, pos: nat)
    requires pos <= |data| && Fields(data[pos..]).Some?
    ensures EolLen(data[pos..]) > 0 && LineEnd(data, pos) < |data|
    ensures var line := LineAt(data, pos);
      Fields(data[pos..]) ==
        if line == [] || LastColon(line) == 0 then Some([])
        else if LastColon(line) < 0 then None
        else match Fields(data[LineEnd(data, pos)..])
          case None => None
          case Some(rest) => Some([ParseLine(line)] + rest)
    ensures var line, after := LineAt(data, pos), data[LineEnd(data, pos)..];
      if line == [] || LastColon(line) == 0 then FieldsRest(data[pos..]) == after
      else Fields(after).Some? && FieldsRest(data[pos..]) == FieldsRest(after)
  {
    hide LastColon, ParseLine, EolLen, RunLen;
    var t := data[pos..];
    var u := t[EolLen(t)..];
    assert u == data[LineStart(data, pos)..];
    var n := RunLen(u);
    assert u[..n] == LineAt(data, pos) && u[n..] == data[LineEnd(data, pos)..];
  }

  /** One line of a text that the decoder can read ends in front of a line end, and is
      blank or has a colon. */
  lemma NextLine(i: int, data: string, pos: nat, before: Ptr)
    requires pos <= |data| && Fields(data[pos..]).Some?
    ensures EolLen(data[pos..]) > 0 && LineEnd(data, pos) < |data| && data[LineEnd(data, pos)] != SPACE
    ensures LineAt(data, pos) != [] ==> LastColon(LineAt(data, pos)) >= 0
    ensures LineAt(data, pos) != [] ==>
      Mark(i, data, LineStart(data, pos), LineEnd(data, pos), before)
        == Ptr(i, LineStart(data, pos) + LastColon(LineAt(data, pos)))
  {
    hide LastColon, ParseLine, EolLen, RunLen, Fields;
    FieldsUnfold(data, pos);
    var u := data[pos..][EolLen(data[pos..])..];
    RunIsMaximal(u);
    assert u[RunLen(u)..] == data[LineEnd(data, pos)..];
    EolIsNotSpace(data, LineEnd(data, pos));
  }

  lemma ScanBounds(data: string, start: nat, k: nat, end: nat)
    requires Scanned(data, start, k, end)
    ensures start <= k <= end <= |data|
  {
  }

  lemma MarkNothing(i: int, data: string, start: nat, before: Ptr)
    requires start <= |data|
    ensures Mark(i, data, start, start, before) == before
  {
    assert data[start..start] == [];
  }

  /** Bitwise "or" with 1. */
  function OrOne(x: int): int {
    if x % 2 == 1 then x else x + 1
  }

  class HttpHeaders {
    const buffers: CircularBuffer
    var headers: seq<seq<string>>
    var startOfLine: Ptr
    var lastSemicolon: Ptr
    var curLoc: Ptr
    var maxLen: Ptr

    constructor (buffers: CircularBuffer)
      ensures this.buffers == buffers && |headers| == |HeaderStrings()|
      ensures forall i :: 0 <= i < |headers| ==> headers[i] == []
      ensures curLoc == startOfLine == maxLen == Ptr(0, 0) && lastSemicolon == Ptr(-1, -1)
    {
      this.buffers := buffers;
      headers := seq(|HeaderStrings()|, _ => []);
      curLoc, startOfLine, maxLen, lastSemicolon := Ptr(0, 0), Ptr(0, 0), Ptr(0, 0), Ptr(-1, -1);
    }

    /** is_eol on the size bytes in front of p. */
    method IsEol(p: Ptr, size: int) returns (result: int)
      requires buffers.Ok() && buffers.View().Live(p.circIndex) && p.buffPos >= 0
      ensures result == -1 <==> size <= 0
      ensures size <= 0 || 0 <= result <= 2
      ensures forall data :: Holds(buffers.AsLine(), p.circIndex, data) && p.buffPos < |data| && size > 0 ==>
        && (size == |data| - p.buffPos ==> result == EolLen(data[p.buffPos..]))
        && (data[p.buffPos] == LF ==> result > 0)
        && (data[p.buffPos] != LF && data[p.buffPos] != CR ==> result == 0)
      ensures EolAt(BlockAt(buffers.AsLine(), p.circIndex), p.buffPos, size, result)
    {
      hide SharedBuffers.Valid, SharedBuffers.View, Sound, Ring.Window, Ring.Shape;
      result := 0;
      if size > 0 {
        var first := buffers.GetChar(p);
        if size >= 2 {
          var second := buffers.GetChar(Ptr(p.circIndex, p.buffPos + 1));
          if (first == LF && second == CR) || (first == CR && second == LF) {
            result := 2;
          }
        }
        if result == 0 && first == LF {
          result := 1;
        }
      } else {
        result := -1;
      }
    }

    /** op_add_circ_pointers within a slot. */
    method Advance(p: Ptr, n: nat, ghost data: string) returns (q: Ptr)
      requires buffers.Ok() && Holds(buffers.AsLine(), p.circIndex, data)
      requires 0 <= p.buffPos && p.buffPos + n <= |data|
      modifies buffers`nextToBeReceived, buffers.buffers, buffers.dataSizes, buffers.source,
               buffers.pool`last, buffers.pool.freeBufferList, buffers.pool.messages
      ensures buffers.Ok() && buffers.AsLine() == old(buffers.AsLine())
      ensures q == Ptr(p.circIndex, p.buffPos + n)
    {
      hide SharedBuffers.Valid, SharedBuffers.View, Sound, Ring.Window, FewestFeeds, LandsForward;
      ghost var before, f := buffers.AsLine(), 0;
      CanAddInSlot(before, p.circIndex, data, p.buffPos, n);
      q, f := buffers.OpAdd(p, n);
      AddedInSlot(before, p.circIndex, data, p.buffPos, n, f, buffers.AsLine(), q);
    }

    /** The size of the slot after ptr, when that has been read; otherwise the ring is fed,
        and it is what the feed reports. */
    method LookAhead(ptr: Ptr, toLast: Ptr, ghost data: string)
      returns (bytesRead: int, toLast': Ptr)
      requires buffers.Ok() && Holds(buffers.AsLine(), ptr.circIndex, data)
      modifies buffers`nextToBeReceived, buffers.buffers, buffers.dataSizes, buffers.source,
               buffers.pool`last, buffers.pool.freeBufferList, buffers.pool.messages
      ensures buffers.Ok() && Holds(buffers.AsLine(), ptr.circIndex, data)
      ensures var size := old(buffers.View().dataSizes[Inc(ptr.circIndex, |buffers.View().buffers|)]);
        && (size >= 0 ==> buffers.AsLine() == old(buffers.AsLine()) && bytesRead == size && toLast' == toLast)
        && (size < 0 ==>
              && (buffers.AsLine(), bytesRead) == Feed(old(buffers.AsLine()))
              && toLast' == if bytesRead > 0 then Ptr(old(buffers.nextToBeReceived), bytesRead) else toLast)
      ensures old(NextIsSound(buffers.AsLine(), ptr.circIndex)) && bytesRead >= 0 ==>
        buffers.View().dataSizes[Inc(ptr.circIndex, |buffers.View().buffers|)] == bytesRead
      ensures old(NextIsSound(buffers.AsLine(), ptr.circIndex)) && bytesRead < 0 ==>
        buffers.View().dataSizes[Inc(ptr.circIndex, |buffers.View().buffers|)] < 0
      ensures old(AtEnd(buffers.AsLine(), ptr.circIndex)) ==> AtEnd(buffers.AsLine(), ptr.circIndex) && bytesRead <= 0
    {
      hide SharedBuffers.Valid, SharedBuffers.View, Sound, Ring.Window, Feed, CircularIncrement;
      ghost var before := buffers.AsLine();
      toLast' := toLast;
      bytesRead := buffers.dataSizes[CircularIncrement(ptr.circIndex, buffers.size)];
      if bytesRead < 0 {
        FeedHolds(before, ptr.circIndex, data);
        FedNextSlot(before, ptr.circIndex, data);
        FedMovesNext(before);
        bytesRead, toLast' := buffers.FeedNextBuffer(toLast);
      }
    }

    /** At ptr, in a slot that holds data: nonzero at a line end, and at the end of the
        stream. At the last byte or past it, more data may be read. */
    method IsPtrPointingToEolOrEos(ptr: Ptr, toLast: Ptr, ghost data: string)
      returns (result: int, toLast': Ptr)
      requires buffers.Ok() && Holds(buffers.AsLine(), ptr.circIndex, data)
      requires 0 <= ptr.buffPos <= |data|
      requires ptr.buffPos < |data| || AtEnd(buffers.AsLine(), ptr.circIndex)
             || NextIsSound(buffers.AsLine(), ptr.circIndex)
      modifies buffers`nextToBeReceived, buffers.buffers, buffers.dataSizes, buffers.source,
               buffers.pool`last, buffers.pool.freeBufferList, buffers.pool.messages
      ensures buffers.Ok() && Holds(buffers.AsLine(), ptr.circIndex, data)
      ensures old(AtEnd(buffers.AsLine(), ptr.circIndex)) ==> AtEnd(buffers.AsLine(), ptr.circIndex)
      ensures TestResult(data, ptr.buffPos, old(AtEnd(buffers.AsLine(), ptr.circIndex)), result)
      ensures IsTested(old(buffers.AsLine()), ptr.circIndex, data, ptr.buffPos, buffers.AsLine())
      ensures old(buffers.View().dataSizes[Inc(ptr.circIndex, |buffers.View().buffers|)]) >= 0 ==>
        buffers.AsLine() == old(buffers.AsLine())
      ensures ptr.buffPos + 2 > |data| ==>
        old(buffers.View().dataSizes[Inc(ptr.circIndex, |buffers.View().buffers|)]) < 0 ==>
        buffers.AsLine() == Feed(old(buffers.AsLine())).0
      ensures ptr.buffPos + 2 <= |data| ==> buffers.AsLine() == old(buffers.AsLine())
      ensures old(NextIsSound(buffers.AsLine(), ptr.circIndex)) ==>
        TestedNearEnd(buffers.AsLine(), ptr.circIndex, data, ptr.buffPos, result)
    {
      hide SharedBuffers.Valid, SharedBuffers.View, Sound, Ring.Window, FewestFeeds, Feed, Total, EolAt, BlockAt;
      toLast' := toLast;
      var p := ptr;
      var distance := buffers.dataSizes[ptr.circIndex] - ptr.buffPos;
      var eof := 0;
      if distance < 2 {
        var bytesRead;
        bytesRead, toLast' := LookAhead(ptr, toLast, data);
        if bytesRead > 0 {
          var next;
          if distance == 1 {
            next := Advance(ptr, 1, data);
            distance := 2;
          } else {
            p := StepOver(ptr, data);
            distance := buffers.dataSizes[p.circIndex] - p.buffPos;
          }
        } else {
          eof := 1;
        }
      }
      result := IsEol(p, distance);
      if eof == 1 && distance == 0 {
        result := OrOne(result);
      }
    }

    /** op_add_circ_pointers by one from the end of a slot into the next one. */
    method StepOver(p: Ptr, ghost data: string) returns (q: Ptr)
      requires buffers.Ok() && Holds(buffers.AsLine(), p.circIndex, data) && p.buffPos == |data|
      requires buffers.View().dataSizes[Inc(p.circIndex, |buffers.View().buffers|)] > 0
      modifies buffers`nextToBeReceived, buffers.buffers, buffers.dataSizes, buffers.source,
               buffers.pool`last, buffers.pool.freeBufferList, buffers.pool.messages
      ensures buffers.Ok() && buffers.AsLine() == old(buffers.AsLine())
      ensures In(buffers.View(), q) && q == Ptr(Inc(p.circIndex, |buffers.View().buffers|), 1)
    {
      hide SharedBuffers.Valid, SharedBuffers.View, Sound, Ring.Window, FewestFeeds, Feed, Total, LandsForward;
      ghost var here, f := buffers.AsLine(), 0;
      NextSlotReachable(here, p.circIndex, data);
      q, f := buffers.OpAdd(p, 1);
      AlreadyThere(here, Position(here.ring, p) + 1, f, buffers.AsLine());
      OneIntoNext(here, p.circIndex, data);
      LandsForwardOnce(here.ring, p, 1, q, Ptr(Inc(p.circIndex, |here.ring.buffers|), 1));
    }

    method SkipEolIfPresent(ghost data: string)
      requires buffers.Ok() && Holds(buffers.AsLine(), curLoc.circIndex, data)
      requires 0 <= curLoc.buffPos <= |data|
      modifies this`curLoc, this`startOfLine, buffers`nextToBeReceived, buffers.buffers, buffers.dataSizes,
               buffers.source, buffers.pool`last, buffers.pool.freeBufferList, buffers.pool.messages
      ensures buffers.Ok() && buffers.AsLine() == old(buffers.AsLine())
      ensures var n := EolLen(data[old(curLoc.buffPos)..]);
        && curLoc == Ptr(old(curLoc.circIndex), old(curLoc.buffPos) + n)
        && startOfLine == if n > 0 then curLoc else old(startOfLine)
    {
      hide SharedBuffers.Valid, SharedBuffers.View, Sound, Ring.Window;
      var offset := IsEol(curLoc, buffers.dataSizes[curLoc.circIndex] - curLoc.buffPos);
      if offset > 0 {
        curLoc := Advance(curLoc, offset, data);
        startOfLine := curLoc;
      }
    }

    /** The test at the top of get_next_line: read more when there is nothing left. */
    method Refill()
      requires buffers.Ok()
      modifies this`maxLen, buffers`nextToBeReceived, buffers.buffers, buffers.dataSizes, buffers.source,
               buffers.pool`last, buffers.pool.freeBufferList, buffers.pool.messages
      ensures buffers.Ok() && buffers.AsLine() == Refilled(old(buffers.AsLine()), curLoc)
      ensures var n := old(if NeedsRefill(buffers.View(), curLoc) then Feed(buffers.AsLine()).1 else 0);
        maxLen == if n > 0 then Ptr(old(buffers.nextToBeReceived), n) else old(maxLen)
    {
      hide SharedBuffers.Valid, SharedBuffers.View, Sound, Feed, CircularBuffer.CmpToLastReceived, NothingAfter;
      FedMovesNext(buffers.AsLine());
      if buffers.IsEmpty() || buffers.CmpToLastReceived(curLoc) >= 0 {
        var _, end := buffers.FeedNextBuffer(maxLen);
        maxLen := end;
      }
    }

    /** The body of the scanning loop: note a colon, and move on by one byte. */
    method ScanByte(ghost data: string)
      requires buffers.Ok() && Holds(buffers.AsLine(), curLoc.circIndex, data)
      requires 0 <= curLoc.buffPos < |data|
      modifies this`curLoc, this`lastSemicolon,
               buffers`nextToBeReceived, buffers.buffers, buffers.dataSizes, buffers.source,
               buffers.pool`last, buffers.pool.freeBufferList, buffers.pool.messages
      ensures buffers.Ok() && buffers.AsLine() == old(buffers.AsLine())
      ensures curLoc == Ptr(old(curLoc.circIndex), old(curLoc.buffPos) + 1)
      ensures lastSemicolon == if data[old(curLoc.buffPos)] == COLON then old(curLoc) else old(lastSemicolon)
    {
      hide SharedBuffers.Valid, SharedBuffers.View, Sound, Holds;
      CharInSlot(buffers.AsLine(), curLoc.circIndex, data, curLoc.buffPos);
      var c := buffers.GetChar(curLoc);
      if c == ':' {
        lastSemicolon := curLoc;
      }
      curLoc := Advance(curLoc, 1, data);
    }

    /** The scanning loop of get_next_line, over the run from start to end. */
    method ScanRun(ghost data: string, ghost end: nat)
      requires buffers.Ok() && Holds(buffers.AsLine(), curLoc.circIndex, data) && curLoc.buffPos >= 0
      requires Scanned(data, curLoc.buffPos, curLoc.buffPos, end)
      requires end < |data| || AtEnd(buffers.AsLine(), curLoc.circIndex)
      modifies this`curLoc, this`lastSemicolon, this`maxLen,
               buffers`nextToBeReceived, buffers.buffers, buffers.dataSizes, buffers.source,
               buffers.pool`last, buffers.pool.freeBufferList, buffers.pool.messages
      ensures buffers.Ok() && Holds(buffers.AsLine(), old(curLoc.circIndex), data)
      ensures old(AtEnd(buffers.AsLine(), curLoc.circIndex)) ==> AtEnd(buffers.AsLine(), old(curLoc.circIndex))
      ensures curLoc == Ptr(old(curLoc.circIndex), end)
      ensures lastSemicolon == Mark(old(curLoc.circIndex), data, old(curLoc.buffPos), end, old(lastSemicolon))
      ensures TestsLeadTo(old(buffers.AsLine()), old(curLoc.circIndex), data, old(curLoc.buffPos), end,
                          buffers.AsLine())
      ensures end + 2 <= |data| ==> buffers.AsLine() == old(buffers.AsLine())
    {
      hide CircularBuffer.Ok, CircularBuffer.AsLine, AtEnd, Scanned, Mark, TestResult, Holds, IsTested, TestsLeadTo;
      ghost var i, start, before := curLoc.circIndex, curLoc.buffPos, lastSemicolon;
      ghost var atEnd, l0 := AtEnd(buffers.AsLine(), i), buffers.AsLine();
      ScanBounds(data, start, start, end);
      MarkNothing(i, data, start, before);
      var atEol;
      atEol, maxLen := IsPtrPointingToEolOrEos(curLoc, maxLen, data);
      TestIsRight(data, start, start, end, atEnd, atEol);
      OneTest(l0, i, data, start, buffers.AsLine());
      while atEol == 0
        invariant buffers.Ok() && Holds(buffers.AsLine(), i, data)
        invariant AtEnd(buffers.AsLine(), i) || !atEnd
        invariant curLoc.circIndex == i && start <= curLoc.buffPos <= end <= |data|
        invariant Scanned(data, start, curLoc.buffPos, end)
        invariant lastSemicolon == Mark(i, data, start, curLoc.buffPos, before)
        invariant atEol == 0 <==> curLoc.buffPos < end
        invariant TestsLeadTo(l0, i, data, start, curLoc.buffPos, buffers.AsLine())
        decreases end - curLoc.buffPos
      {
        ghost var tested, k := buffers.AsLine(), curLoc.buffPos;
        ScanStep(i, data, start, curLoc.buffPos, end, before);
        ScanByte(data);
        ghost var still := AtEnd(buffers.AsLine(), i);
        atEol, maxLen := IsPtrPointingToEolOrEos(curLoc, maxLen, data);
        TestIsRight(data, start, curLoc.buffPos, end, still, atEol);
        OneMoreTest(l0, i, data, start, k, tested, buffers.AsLine());
      }
      NotTestedBefore(l0, i, data, start, end, buffers.AsLine());
    }

    /** What get_next_line leaves behind when it starts at offset pos of the text. */
    ghost predicate LineRead(i: int, data: string, pos: nat, oldStart: Ptr, oldSemicolon: Ptr)
      requires pos <= |data|
      reads this
    {
      var start, end := LineStart(data, pos), LineEnd(data, pos);
      && curLoc == Ptr(i, end)
      && startOfLine == (if EolLen(data[pos..]) > 0 then Ptr(i, start) else oldStart)
      && lastSemicolon == Mark(i, data, start, end, oldSemicolon)
    }

    /** get_next_line, in a slot that holds the text: it stops at the next line end, or
        at the end of the text if nothing follows it. */
    method GetNextLine(ghost data: string)
      requires buffers.Ok() && Holds(Refilled(buffers.AsLine(), curLoc), curLoc.circIndex, data)
      requires 0 <= curLoc.buffPos <= |data|
      requires Consumed(data[curLoc.buffPos..]) < |data| - curLoc.buffPos
            || AtEnd(Refilled(buffers.AsLine(), curLoc), curLoc.circIndex)
      modifies this`curLoc, this`startOfLine, this`lastSemicolon, this`maxLen,
               buffers`nextToBeReceived, buffers.buffers, buffers.dataSizes, buffers.source,
               buffers.pool`last, buffers.pool.freeBufferList, buffers.pool.messages
      ensures buffers.Ok() && Holds(buffers.AsLine(), old(curLoc.circIndex), data)
      ensures old(AtEnd(Refilled(buffers.AsLine(), curLoc), curLoc.circIndex)) ==>
        AtEnd(buffers.AsLine(), old(curLoc.circIndex))
      ensures LineRead(old(curLoc.circIndex), data, old(curLoc.buffPos), old(startOfLine), old(lastSemicolon))
      ensures TestsLeadTo(old(Refilled(buffers.AsLine(), curLoc)), old(curLoc.circIndex), data,
                          LineStart(data, old(curLoc.buffPos)), LineEnd(data, old(curLoc.buffPos)), buffers.AsLine())
      ensures LineEnd(data, old(curLoc.buffPos)) + 2 <= |data| ==>
        buffers.AsLine() == old(Refilled(buffers.AsLine(), curLoc))
    {
      hide SharedBuffers.Valid, SharedBuffers.View, Sound, AtEnd, EolLen, RunLen, LastColon, Scanned,
           Mark, Holds, Refilled, TestsLeadTo;
      ghost var pos := curLoc.buffPos;
      Refill();
      SkipEolIfPresent(data);
      ScanStart(data, pos);
      ScanRun(data, pos + Consumed(data[pos..]));
    }

    /** The bytes from the start of the line to where the reading is, less what failed
        reads in between take off. */
    method HeaderStrlen() returns (n: int)
      requires buffers.Ok() && buffers.View().Live(startOfLine.circIndex) && buffers.View().Live(curLoc.circIndex)
      ensures buffers.View().Steps(startOfLine.circIndex) <= buffers.View().Steps(curLoc.circIndex) ==>
        n == Position(buffers.View(), curLoc) - Position(buffers.View(), startOfLine)
             - LostBetween(buffers.View(), startOfLine, curLoc)
    {
      n := buffers.OpDistance(startOfLine, curLoc);
    }

    /** buffer_2_str_copy within a slot. */
    method CopyInSlot(start: Ptr, end: Ptr, ghost data: string) returns (s: string)
      requires buffers.Ok() && Holds(buffers.AsLine(), start.circIndex, data)
      requires start.circIndex == end.circIndex && 0 <= start.buffPos <= end.buffPos <= |data|
      ensures UpToNul(s) == UpToNul(data[start.buffPos..end.buffPos])
    {
      hide SharedBuffers.Valid, SharedBuffers.View, Sound, Ring.Window;
      BetweenInSlot(buffers.AsLine(), start.circIndex, data, start.buffPos, end.buffPos);
      s := buffers.Buffer2StrCopy(start, end);
    }

    /** The loop that takes lastSemicolon from the colon to the value. */
    method SkipToValue(ghost data: string)
      requires buffers.Ok() && Holds(buffers.AsLine(), curLoc.circIndex, data)
      requires lastSemicolon.circIndex == curLoc.circIndex
      requires 0 <= lastSemicolon.buffPos < curLoc.buffPos < |data| && data[curLoc.buffPos] != SPACE
      modifies this`lastSemicolon, buffers`nextToBeReceived, buffers.buffers, buffers.dataSizes, buffers.source,
               buffers.pool`last, buffers.pool.freeBufferList, buffers.pool.messages
      ensures buffers.Ok() && buffers.AsLine() == old(buffers.AsLine())
      ensures lastSemicolon.circIndex == curLoc.circIndex
      ensures old(lastSemicolon.buffPos) < lastSemicolon.buffPos <= curLoc.buffPos
      ensures data[lastSemicolon.buffPos..curLoc.buffPos]
           == SkipSpaces(data[old(lastSemicolon.buffPos) + 1..curLoc.buffPos])
    {
      hide CircularBuffer.Ok, Holds, EolLen, SkipSpaces, CircularBuffer.AsLine;
      ghost var l, i, end := buffers.AsLine(), curLoc.circIndex, curLoc.buffPos;
      var c := NextByte(data);
      while c == ' '
        invariant buffers.Ok() && buffers.AsLine() == l
        invariant lastSemicolon.circIndex == i && old(lastSemicolon.buffPos) < lastSemicolon.buffPos <= end
        invariant c == data[lastSemicolon.buffPos]
        invariant SkipSpaces(data[old(lastSemicolon.buffPos) + 1..end]) == SkipSpaces(data[lastSemicolon.buffPos..end])
        decreases end - lastSemicolon.buffPos
      {
        SkipOneSpace(data, lastSemicolon.buffPos, end);
        c := NextByte(data);
      }
      NoSpace(data, lastSemicolon.buffPos, end);
    }

    method NextByte(ghost data: string) returns (c: char)
      requires buffers.Ok() && Holds(buffers.AsLine(), lastSemicolon.circIndex, data)
      requires 0 <= lastSemicolon.buffPos < |data| - 1
      modifies this`lastSemicolon, buffers`nextToBeReceived, buffers.buffers, buffers.dataSizes, buffers.source,
               buffers.pool`last, buffers.pool.freeBufferList, buffers.pool.messages
      ensures buffers.Ok() && buffers.AsLine() == old(buffers.AsLine())
      ensures lastSemicolon == Ptr(old(lastSemicolon.circIndex), old(lastSemicolon.buffPos) + 1)
      ensures c == data[lastSemicolon.buffPos]
    {
      hide SharedBuffers.Valid, SharedBuffers.View, Sound, Holds;
      lastSemicolon := Advance(lastSemicolon, 1, data);
      CharInSlot(buffers.AsLine(), lastSemicolon.circIndex, data, lastSemicolon.buffPos);
      c := buffers.GetChar(lastSemicolon);
    }

    /** How far a NUL at the end of the line is stepped back over: not at all. */
    method EndOffset(ghost data: string) returns (offset: int)
      requires buffers.Ok() && Holds(buffers.AsLine(), curLoc.circIndex, data)
      requires 0 <= curLoc.buffPos < |data|
      ensures offset == 0
    {
      hide SharedBuffers.Valid, SharedBuffers.View, Sound, EolLen;
      CharInSlot(buffers.AsLine(), curLoc.circIndex, data, curLoc.buffPos);
      NulIsNoEol(data, curLoc.buffPos);
      var c := buffers.GetChar(curLoc);
      offset := 0;
      if c == NUL {
        offset := IsEol(curLoc, buffers.dataSizes[curLoc.circIndex] - curLoc.buffPos);
      }
    }

    /** http_headers_get_header_value: lastSemicolon moves on to the value. */
    method GetHeaderValue(ghost data: string) returns (value: string)
      requires buffers.Ok() && Holds(buffers.AsLine(), curLoc.circIndex, data)
      requires lastSemicolon.circIndex == curLoc.circIndex
      requires 0 <= lastSemicolon.buffPos < curLoc.buffPos < |data| && data[curLoc.buffPos] != SPACE
      modifies this`lastSemicolon, buffers`nextToBeReceived, buffers.buffers, buffers.dataSizes, buffers.source,
               buffers.pool`last, buffers.pool.freeBufferList, buffers.pool.messages
      ensures buffers.Ok() && buffers.AsLine() == old(buffers.AsLine())
      ensures UpToNul(value) == UpToNul(SkipSpaces(data[old(lastSemicolon.buffPos) + 1..curLoc.buffPos]))
    {
      hide CircularBuffer.Ok, Holds, SkipSpaces, UpToNul, CircularBuffer.AsLine;
      SkipToValue(data);
      var offset := EndOffset(data);
      var endPtr := GoBack(curLoc, offset, data);
      value := CopyInSlot(lastSemicolon, endPtr, data);
    }

    /** op_sub_circ_pointer by nothing, as http_headers_get_header_value calls it when
        the line ends in a line end. */
    method GoBack(p: Ptr, n: nat, ghost data: string) returns (q: Ptr)
      requires buffers.Ok() && Holds(buffers.AsLine(), p.circIndex, data)
      requires n <= p.buffPos <= |data|
      ensures q == Ptr(p.circIndex, p.buffPos - n)
    {
      hide SharedBuffers.Valid, SharedBuffers.View, Sound, Ring.Window;
      SlotPosition(buffers.AsLine(), p.circIndex, data, p.buffPos);
      CanSubInSlot(buffers.AsLine(), p.circIndex, data, p.buffPos, n);
      q := buffers.OpSub(p, n);
      LandsBackOnce(buffers.View(), p, n, q, Ptr(p.circIndex, p.buffPos - n));
    }

    /** http_headers_add: the key goes to the last colon; an unknown one is ignored. */
    method HttpHeadersAdd(ghost data: string)
      requires buffers.Ok() && Holds(buffers.AsLine(), curLoc.circIndex, data)
      requires startOfLine.circIndex == lastSemicolon.circIndex == curLoc.circIndex
      requires 0 <= startOfLine.buffPos <= lastSemicolon.buffPos < curLoc.buffPos < |data|
      requires data[curLoc.buffPos] != SPACE && |headers| == |HeaderStrings()|
      requires LastColon(data[startOfLine.buffPos..curLoc.buffPos]) == lastSemicolon.buffPos - startOfLine.buffPos
      modifies this`lastSemicolon, this`headers,
               buffers`nextToBeReceived, buffers.buffers, buffers.dataSizes, buffers.source,
               buffers.pool`last, buffers.pool.freeBufferList, buffers.pool.messages
      ensures buffers.Ok() && buffers.AsLine() == old(buffers.AsLine())
      ensures headers == Store(old(headers), [ParseLine(data[startOfLine.buffPos..curLoc.buffPos])])
    {
      hide CircularBuffer.Ok, Holds, SkipSpaces, UpToNul, LastColon, CircularBuffer.AsLine, HeaderStrings, Sorted,
           IndexOf, Store, ParseLine, StrCmp;
      ghost var start, c, end := startOfLine.buffPos, lastSemicolon.buffPos, curLoc.buffPos;
      ParseSlices(data, start, c, end);
      HeaderTableIsSorted();
      var key := CopyInSlot(startOfLine, lastSemicolon, data);
      var index, _ := FindHeaderIndex(HeaderStrings(), UpToNul(key));
      IndexIsUnique(HeaderStrings(), UpToNul(key), index, IndexOf(HeaderStrings(), UpToNul(key)));
      if index >= 0 {
        var value := GetHeaderValue(data);
        headers := headers[index := headers[index] + [UpToNul(value)]];
      }
      StoreOne(old(headers), ParseLine(data[start..end]));
    }

    /** decode_http_headers on a block in one slot, of which the decoder can make sense:
        every field is stored, in order, and nothing else changes. */
    method DecodeHttpHeaders(ghost data: string) returns (ghost feeds: nat)
      requires buffers.Ok() && Holds(Refilled(buffers.AsLine(), curLoc), curLoc.circIndex, data)
      requires 0 <= curLoc.buffPos <= |data| && |headers| == |HeaderStrings()|
      requires BlockFields(data[curLoc.buffPos..]).Some?
      modifies this`curLoc, this`startOfLine, this`lastSemicolon, this`maxLen, this`headers,
               buffers`nextToBeReceived, buffers.buffers, buffers.dataSizes, buffers.source,
               buffers.pool`last, buffers.pool.freeBufferList, buffers.pool.messages
      ensures buffers.Ok() && Holds(buffers.AsLine(), old(curLoc.circIndex), data)
      ensures headers == Store(old(headers), BlockFields(data[old(curLoc.buffPos)..]).value)
      ensures curLoc.circIndex == old(curLoc.circIndex) && 0 <= curLoc.buffPos <= |data|
      ensures data[curLoc.buffPos..] == BlockRest(data[old(curLoc.buffPos)..])
      ensures FedBy(old(buffers.AsLine()), feeds, buffers.AsLine())
      ensures IsTested(old(Refilled(buffers.AsLine(), curLoc)), curLoc.circIndex, data,
                       curLoc.buffPos, buffers.AsLine())
      ensures curLoc.buffPos + 2 <= |data| ==> buffers.AsLine() == old(Refilled(buffers.AsLine(), curLoc))
    {
      hide CircularBuffer.Ok, Holds, SkipSpaces, UpToNul, LastColon, CircularBuffer.AsLine, HeaderStrings, Fields,
           EolLen, RunLen, Consumed, Store, ParseLine, Mark, Refilled, FieldsRest,
           CircularBuffer.View, Position, LostBetween, Ring.Live, Ring.Shape, FedBy, IsTested, TestsLeadTo;
      ghost var i, all := curLoc.circIndex, BlockFields(data[curLoc.buffPos..]).value;
      ghost var left := BlockRest(data[curLoc.buffPos..]);
      OkIsValid(buffers);
      ghost var l0, l1, cur := buffers.AsLine(), Refilled(buffers.AsLine(), curLoc), curLoc;
      FirstLine(data, curLoc.buffPos);
      GetNextLine(data);
      MoreFollows(data, curLoc.buffPos);
      var cont := true;
      while cont
        invariant buffers.Ok() && Holds(buffers.AsLine(), i, data)
        invariant curLoc.circIndex == i && 0 <= curLoc.buffPos <= |data| && |headers| == |HeaderStrings()|
        invariant cont ==> Fields(data[curLoc.buffPos..]).Some? && FieldsRest(data[curLoc.buffPos..]) == left
        invariant !cont ==> data[curLoc.buffPos..] == left
        invariant cont ==> Store(headers, Fields(data[curLoc.buffPos..]).value) == Store(old(headers), all)
        invariant !cont ==> headers == Store(old(headers), all)
        invariant cont ==> buffers.AsLine() == l1 && curLoc.buffPos + 2 <= |data|
        invariant !cont ==> IsTested(l1, i, data, curLoc.buffPos, buffers.AsLine())
        decreases cont, |data| - curLoc.buffPos
      {
        ghost var pos := curLoc.buffPos;
        NoRefill(l1, curLoc, data);
        NextLine(i, data, pos, lastSemicolon);
        FieldsUnfold(data, pos);
        GetNextLine(data);
        NotTestedBefore(l1, i, data, LineStart(data, pos), LineEnd(data, pos), buffers.AsLine());
        SlotDistance(buffers, i, data, startOfLine, curLoc);
        var length := HeaderStrlen();
        if length > 0 && buffers.Cmp(lastSemicolon, startOfLine) != 0 {
          ghost var stacks := headers;
          MoreFollows(data, curLoc.buffPos);
          HttpHeadersAdd(data);
          StoreMore(stacks, ParseLine(LineAt(data, pos)), Fields(data[curLoc.buffPos..]).value);
        } else {
          StoreNothing(headers);
          cont := false;
        }
      }
      feeds := DecodedIsFed(l0, cur, i, data, curLoc.buffPos, buffers.AsLine());
    }

    /** decode_body_length: the newest Content-Length value, or 0 without one. A value
        for which the sums of str2int do not fit in an int is not covered. */
    method DecodeBodyLength() returns (result: int32)
      requires CONTENT_LENGTH < |headers| && HasBodyLength(headers)
      ensures result as int == BodyLength(headers)
      ensures headers[CONTENT_LENGTH] == [] ==> result == 0
      ensures headers[CONTENT_LENGTH] != [] ==>
        result as int == Weighted(headers[CONTENT_LENGTH][|headers[CONTENT_LENGTH]| - 1])
    {
      var stack := headers[CONTENT_LENGTH];
      result := 0;
      if stack != [] {
        var value := stack[|stack| - 1];
        assert value[..|value|] == value;
        result := Str2Int(value, |value|);
      }
    }
  }

  /** From nothing: a block that arrives in one delivery, whatever arrives later, is
      decoded to exactly the values that were rendered, but for those with a colon. While
      two bytes or more are left in front of the decoder, nothing else has been read. */
  method DecodeFirstMessage(capacity: nat, bufferSize: nat, size: nat, maxSize: nat, first: string, eol: string,
                            lines: seq<HeaderLine>, blank: string, rest: string, later: seq<Delivery>)
    returns (stacks: seq<seq<string>>, left: seq<Delivery>)
    requires capacity > 0 && 0 < size <= 30 && |Block(first, eol, lines, blank, rest)| <= maxSize <= bufferSize
    requires first != [] && OneLine(first) && IsEol(eol) && IsEol(blank)
    requires forall l :: l in lines ==> Renderable(l)
    ensures |stacks| == |HeaderStrings()|
    ensures forall i :: 0 <= i < |stacks| ==> stacks[i] == ValuesOf(Kept(lines), HeaderStrings()[i])
    ensures |AtBlank(eol, lines, blank, rest)| >= 2 ==> left == later
  {
    hide HeaderStrings, Renderable, OneLine, IsEol, Block, AtBlank, ValuesOf;
    var decoder := DecodeFirst(capacity, bufferSize, size, maxSize, first, eol, lines, blank, rest, later);
    stacks, left := decoder.headers, decoder.buffers.source.script;
  }

  method DecodeFirst(capacity: nat, bufferSize: nat, size: nat, maxSize: nat, first: string, eol: string,
                     lines: seq<HeaderLine>, blank: string, rest: string, later: seq<Delivery>)
    returns (decoder: HttpHeaders)
    requires capacity > 0 && 0 < size <= 30 && |Block(first, eol, lines, blank, rest)| <= maxSize <= bufferSize
    requires first != [] && OneLine(first) && IsEol(eol) && IsEol(blank)
    requires forall l :: l in lines ==> Renderable(l)
    ensures fresh(decoder) && |decoder.headers| == |HeaderStrings()|
    ensures forall i :: 0 <= i < |decoder.headers| ==> decoder.headers[i] == ValuesOf(Kept(lines), HeaderStrings()[i])
    ensures |AtBlank(eol, lines, blank, rest)| >= 2 ==> decoder.buffers.source.script == later
  {
    hide SharedBuffers.Valid, SharedBuffers.View, CircularBuffer.Ok, CircularBuffer.View, Block,
         HeaderStrings, Renderable,
         Refilled, Holds, BlockFields, Store, ValuesOf, OneLine, IsEol, NewRing, Feed, Fed, AtBlank, BlockRest,
         FedBy, IsTested;
    var block := Block(first, eol, lines, blank, rest);
    var pool := new SharedBuffers(capacity, bufferSize);
    var source := new Source([Chunk(block)] + later);
    var ring := new CircularBuffer(size, maxSize, pool, source);
    decoder := new HttpHeaders(ring);
    PoolViewValid(pool);
    NewRingIsValid(pool.View(), size, maxSize, source.script);
    NewRingHolds(ring.AsLine(), size, maxSize, block, later);
    BlockIsRead(first, eol, lines, blank, rest);
    BlockEndsAtBlank(first, eol, lines, blank, rest);
    assert block[0..] == block;
    ghost var empty := decoder.headers;
    var _ := decoder.DecodeHttpHeaders(block);
    forall i | 0 <= i < |decoder.headers| ensures decoder.headers[i] == ValuesOf(Kept(lines), HeaderStrings()[i]) {
      DecodingUndoesRendering(first, eol, lines, blank, rest, empty, i);
    }
  }

  /** From nothing to the body length: that of the last Content-Length without a colon in
      its value, and 0 if there is none. */
  method FirstBodyLength(capacity: nat, bufferSize: nat, size: nat, maxSize: nat, first: string, eol: string,
                         lines: seq<HeaderLine>, blank: string, rest: string, later: seq<Delivery>)
    returns (length: int32)
    requires capacity > 0 && 0 < size <= 30 && |Block(first, eol, lines, blank, rest)| <= maxSize <= bufferSize
    requires first != [] && OneLine(first) && IsEol(eol) && IsEol(blank)
    requires forall l :: l in lines ==> Renderable(l)
    requires forall l :: l in lines && l.name == "Content-Length" && COLON !in l.value ==> Fits(l.value)
    ensures (forall l :: l in lines && l.name == "Content-Length" ==> COLON in l.value) ==> length == 0
    ensures forall k :: 0 <= k < |lines| && IsLastLength(lines, k) ==> length as int == Weighted(lines[k].value)
  {
    hide HeaderStrings, Renderable, OneLine, IsEol, Block, AtBlank, ValuesOf, Fits, IsLastLength, Kept;
    var decoder := DecodeFirst(capacity, bufferSize, size, maxSize, first, eol, lines, blank, rest, later);
    HeaderTableIsSorted();
    LengthsFit(lines);
    length := decoder.DecodeBodyLength();
    if forall l :: l in lines && l.name == "Content-Length" ==> COLON in l.value {
      NoneKept(lines, "Content-Length");
    }
    forall k | 0 <= k < |lines| && IsLastLength(lines, k) ensures length as int == Weighted(lines[k].value) {
      LastLengthIsKept(lines, k);
    }
  }

  /** Line k is the last one that gives a body length. */
  ghost predicate IsLastLength(lines: seq<HeaderLine>, k: nat)
    requires k < |lines|
  {
    && lines[k].name == "Content-Length" && COLON !in lines[k].value
    && forall m :: k < m < |lines| && lines[m].name == "Content-Length" ==> COLON in lines[m].value
  }

  lemma LastLengthIsKept(lines: seq<HeaderLine>, k: nat)
    requires k < |lines| && IsLastLength(lines, k)
    ensures var values := ValuesOf(Kept(lines), "Content-Length");
      values != [] && values[|values| - 1] == lines[k].value
  {
    hide ValuesOf, Kept;
    assert lines == lines[..k] + [lines[k]] + lines[k + 1..];
    forall x | x in lines[k + 1..] && x.name == "Content-Length" ensures COLON in x.value {
      var m :| 0 <= m < |lines[k + 1..]| && lines[k + 1..][m] == x;
      assert lines[k + 1 + m] == x;
    }
    LastOfName(lines[..k], lines[k], lines[k + 1..]);
  }

  lemma {:induction false} LengthsFit(lines: seq<HeaderLine>)
    requires forall l :: l in lines && l.name == "Content-Length" && COLON !in l.value ==> Fits(l.value)
    ensures forall i :: 0 <= i < |ValuesOf(Kept(lines), "Content-Length")| ==>
      Fits(ValuesOf(Kept(lines), "Content-Length")[i])
  {
    hide Fits;
    if lines != [] {
      assert lines[0] in lines;
      LengthsFit(lines[1..]);
      var head := if COLON !in lines[0].value then [Field(lines[0].name, lines[0].value)] else [];
      ValuesOfConcat(head, Kept(lines[1..]), "Content-Length");
      assert head != [] ==> head[1..] == [];
    }
  }

  /** The first delivery fills slot 0 of a new ring. */
  lemma NewRingHolds(l: Line, size: nat, maxSize: nat, data: string, later: seq<Delivery>)
    requires Valid(l) && l.ring == NewRing(size, maxSize) && 0 < size && l.pool.free != []
    requires l.source == [Chunk(data)] + later && |data| <= maxSize
    ensures Holds(Refilled(l, Ptr(0, 0)), 0, data) && Refilled(l, Ptr(0, 0)).source == later
  {
    hide Ledger, AllBuffers, Buffers, Ring.SizesOk, Ring.Window;
    assert Pow2(size) == 2 * Pow2(size - 1);
    FeedSucceeds(l);
    FedIsValid(l);
    AllocatedIsOwned(l);
    PushedWindow(l.ring, Alloc(l.pool).1, |data|);
  }

  predicate HasBodyLength(stacks: seq<seq<string>>) {
    && CONTENT_LENGTH < |stacks|
    && (stacks[CONTENT_LENGTH] != [] ==>
          Fits(stacks[CONTENT_LENGTH][|stacks[CONTENT_LENGTH]| - 1]))
  }

  function BodyLength(stacks: seq<seq<string>>): int
    requires HasBodyLength(stacks)
  {
    if stacks[CONTENT_LENGTH] == [] then 0
    else Weighted(stacks[CONTENT_LENGTH][|stacks[CONTENT_LENGTH]| - 1])
  }

  /** From the wire to the number: whatever other headers there are, the length in the
      last Content-Length line of a block is the body length that is decoded. */
  lemma BodyLengthComesThrough(first: string, eol: string, before: seq<HeaderLine>, l: HeaderLine,
                               after: seq<HeaderLine>, blank: string, rest: string,
                               stacks: seq<seq<string>>, n: nat)
    requires first != [] && OneLine(first) && IsEol(eol) && IsEol(blank)
    requires forall x :: x in before + [l] + after ==> Renderable(x)
    requires l.name == "Content-Length" && l.value == Print(n) && n < 0x8000_0000
    requires forall x :: x in after ==> x.name != l.name
    requires |stacks| == |HeaderStrings()|
    ensures var lines := before + [l] + after;
      && BlockFields(Block(first, eol, lines, blank, rest)).Some?
      && var result := Store(stacks, BlockFields(Block(first, eol, lines, blank, rest)).value);
         HasBodyLength(result) && BodyLength(result) == n
  {
    hide HeaderStrings, BlockFields, Block, Store;
    HeaderTableIsSorted();
    var lines := before + [l] + after;
    DecodingUndoesRendering(first, eol, lines, blank, rest, stacks, CONTENT_LENGTH);
    LastOfName(before, l, after);
    ReadPrinted(n);
    PrintedIsShort(n);
    DigitsFitIff(Print(n));
  }

  /** From the wire: a block with no Content-Length, or with none whose value is without a
      colon, leaves the body length 0. */
  lemma NoLengthIsZero(first: string, eol: string, lines: seq<HeaderLine>, blank: string, rest: string,
                       stacks: seq<seq<string>>)
    requires first != [] && OneLine(first) && IsEol(eol) && IsEol(blank)
    requires forall x :: x in lines ==> Renderable(x)
    requires forall x :: x in lines && x.name == "Content-Length" ==> COLON in x.value
    requires |stacks| == |HeaderStrings()| && CONTENT_LENGTH < |stacks| && stacks[CONTENT_LENGTH] == []
    ensures BlockFields(Block(first, eol, lines, blank, rest)).Some?
    ensures var result := Store(stacks, BlockFields(Block(first, eol, lines, blank, rest)).value);
      HasBodyLength(result) && BodyLength(result) == 0
  {
    hide HeaderStrings, BlockFields, Block, Store;
    HeaderTableIsSorted();
    DecodingUndoesRendering(first, eol, lines, blank, rest, stacks, CONTENT_LENGTH);
    NoneKept(lines, "Content-Length");
  }

  /** The last value of a name is that of its last line, if that holds no colon. */
  lemma LastOfName(before: seq<HeaderLine>, l: HeaderLine, after: seq<HeaderLine>)
    requires COLON !in l.value && forall x :: x in after && x.name == l.name ==> COLON in x.value
    ensures var values := ValuesOf(Kept(before + [l] + after), l.name);
      values != [] && values[|values| - 1] == l.value
  {
    KeptConcat(before + [l], after);
    KeptConcat(before, [l]);
    NoneKept(after, l.name);
    var kept := [Field(l.name, l.value)];
    assert [l][1..] == [] && Kept([l]) == kept;
    assert kept[1..] == [] && ValuesOf(kept, l.name) == [l.value];
    ValuesOfConcat(Kept(before) + kept, Kept(after), l.name);
    ValuesOfConcat(Kept(before), kept, l.name);
  }

  lemma {:induction false} KeptConcat(v: seq<HeaderLine>, w: seq<HeaderLine>)
    ensures Kept(v + w) == Kept(v) + Kept(w)
  {
    if v == [] {
      assert v + w == w;
    } else {
      KeptConcat(v[1..], w);
      assert (v + w)[1..] == v[1..] + w;
      var head := if COLON !in v[0].value then [Field(v[0].name, v[0].value)] else [];
      assert Kept(v + w) == head + (Kept(v[1..]) + Kept(w)) == (head + Kept(v[1..])) + Kept(w);
    }
  }

  lemma {:induction false} NoneKept(lines: seq<HeaderLine>, name: string)
    requires forall x :: x in lines && x.name == name ==> COLON in x.value
    ensures ValuesOf(Kept(lines), name) == []
  {
    if lines != [] {
      NoneKept(lines[1..], name);
      assert lines[0] in lines;
      ValuesOfConcat(if COLON !in lines[0].value then [Field(lines[0].name, lines[0].value)] else [],
                     Kept(lines[1..]), name);
    }
  }
}
