/**
 The pool under threads: alloc_buffer and free_buffer cut into their single memory
 accesses, the semaphore operations among them, and interleaved in any order.
 */
module ThreadedPool {
  import opened BufferPool
  import opened Holdings

  /** Where a thread is: outside, or in front of the named statement of
      alloc_buffer or free_buffer. */
  datatype Pc =
    | Outside
    | AllocWait | AllocTest | AllocTake | AllocClear | AllocDecrement | AllocPost | AllocReturn
    | FreeWait | FreeTest | FreeClear | FreeIncrement | FreeStore | FreePost

  /** buffer is the local variable current of alloc_buffer, or the argument of
      free_buffer; held are the buffers the thread has been given. */
  datatype Thread = Thread(pc: Pc, buffer: int, held: multiset<int>)

  datatype State = State(semaphore: nat, last: int, list: seq<int>, contents: seq<string>, bufferSize: nat,
                         threads: seq<Thread>) {
    function Capacity(): nat { |contents| }
  }

  /** What thread i may do next: go on with the statement it is at; call one of the
      two functions; or write to a buffer that it holds. */
  datatype Action = Advance | CallAlloc | CallFree(b: int) | UserWrite(b: int, data: string)

  function InitialState(threads: nat, capacity: nat, bufferSize: nat): State {
    State(1, capacity - 1, seq(capacity, i => i), seq(capacity, _ => Zeros(bufferSize)), bufferSize,
          seq(threads, _ => Thread(Outside, -1, multiset{})))
  }

  predicate InRange(s: State, b: int) {
    0 <= b < s.Capacity()
  }

  /** A caller frees only what it holds, or a number that is no buffer at all. */
  predicate Allowed(s: State, t: Thread, a: Action) {
    match a
    case Advance => t.pc != Outside && (t.pc in {AllocWait, FreeWait} ==> s.semaphore > 0)
    case CallAlloc => t.pc == Outside
    case CallFree(b) => t.pc == Outside && (InRange(s, b) ==> b in t.held)
    case UserWrite(b, data) =>
      t.pc == Outside && b in t.held && InRange(s, b) && |data| <= |s.contents[b]|
  }

  /** One step of thread i. The memory accesses are guarded so that the function is
      total; GuardsHold shows that the guards never fail. */
  function Step(s: State, i: nat, a: Action): (s': State)
    requires i < |s.threads|
    ensures |s'.threads| == |s.threads|
  {
    var t := s.threads[i];
    if !Allowed(s, t, a) then s
    else match a {
      case CallAlloc => s.(threads := s.threads[i := Thread(AllocWait, -1, t.held)])
      case CallFree(b) =>
        s.(threads := s.threads[i := Thread(FreeWait, b, if InRange(s, b) then t.held - multiset{b} else t.held)])
      case UserWrite(b, data) => s.(contents := s.contents[b := data + s.contents[b][|data|..]])
      case Advance => AdvanceThread(s, i)
    }
  }

  function AdvanceThread(s: State, i: nat): (s': State)
    requires i < |s.threads|
    ensures |s'.threads| == |s.threads|
  {
    var t := s.threads[i];
    var here := 0 <= s.last < |s.list|;
    match t.pc
    case Outside => s
    case AllocWait => Goto(s, i, AllocTest).(semaphore := if s.semaphore > 0 then s.semaphore - 1 else 0)
    case AllocTest => Goto(s, i, if s.last < 0 then AllocPost else AllocTake)
    case AllocTake =>
      if here then s.(threads := s.threads[i := t.(pc := AllocClear, buffer := s.list[s.last])]) else s
    case AllocClear => if here then Goto(s, i, AllocDecrement).(list := s.list[s.last := -1]) else s
    case AllocDecrement => Goto(s, i, AllocPost).(last := s.last - 1)
    case AllocPost => Goto(s, i, AllocReturn).(semaphore := s.semaphore + 1)
    case AllocReturn =>
      s.(threads := s.threads[i := Thread(Outside, -1, if t.buffer >= 0 then t.held + multiset{t.buffer} else t.held)])
    case FreeWait => Goto(s, i, FreeTest).(semaphore := if s.semaphore > 0 then s.semaphore - 1 else 0)
    case FreeTest => Goto(s, i, if InRange(s, t.buffer) then FreeClear else FreePost)
    case FreeClear =>
      if InRange(s, t.buffer) then Goto(s, i, FreeIncrement).(contents := s.contents[t.buffer := Zeros(s.bufferSize)])
      else s
    case FreeIncrement => Goto(s, i, FreeStore).(last := s.last + 1)
    case FreeStore => if here then Goto(s, i, FreePost).(list := s.list[s.last := t.buffer]) else s
    case FreePost => Goto(s, i, Outside).(semaphore := s.semaphore + 1)
  }

  function Goto(s: State, i: nat, pc: Pc): State
    requires i < |s.threads|
  {
    s.(threads := s.threads[i := s.threads[i].(pc := pc)])
  }

  /** A schedule picks a thread and an action at every step; what is not possible
      then is skipped. */
  function Run(s: State, schedule: seq<(nat, Action)>): (r: State)
    ensures |r.threads| == |s.threads|
  {
    if schedule == [] then s
    else
      var n := |schedule| - 1;
      var before := Run(s, schedule[..n]);
      if schedule[n].0 < |s.threads| then Step(before, schedule[n].0, schedule[n].1) else before
  }

  // ---------- who owns what ----------

  predicate Critical(pc: Pc) {
    pc in {AllocTest, AllocTake, AllocClear, AllocDecrement, AllocPost,
           FreeTest, FreeClear, FreeIncrement, FreeStore, FreePost}
  }

  /** Between the two halves of a list update, the entry at last is not in the list. */
  predicate Torn(pc: Pc) {
    pc in {AllocDecrement, FreeStore}
  }

  /** The pc values at which the local variable names a buffer of this thread. */
  predicate Carrying(pc: Pc) {
    pc in {AllocDecrement, AllocPost, AllocReturn, FreeWait, FreeTest, FreeClear, FreeIncrement, FreeStore}
  }

  ghost function Owns(t: Thread, capacity: nat): multiset<int> {
    if Carrying(t.pc) && 0 <= t.buffer < capacity then t.held + multiset{t.buffer} else t.held
  }

  ghost function OwnsEach(threads: seq<Thread>, capacity: nat): (hs: seq<multiset<int>>)
    ensures |hs| == |threads| && forall i :: 0 <= i < |hs| ==> hs[i] == Owns(threads[i], capacity)
  {
    seq(|threads|, i requires 0 <= i < |threads| => Owns(threads[i], capacity))
  }

  ghost function Owned(threads: seq<Thread>, capacity: nat): multiset<int> {
    Sum(OwnsEach(threads, capacity))
  }

  ghost predicate SomeTorn(s: State) {
    exists i :: 0 <= i < |s.threads| && Torn(s.threads[i].pc)
  }

  ghost function FreeList(s: State): seq<int>
    requires -1 <= s.last < |s.list|
  {
    if SomeTorn(s) then (if s.last < 0 then [] else s.list[..s.last]) else s.list[..s.last + 1]
  }

  /** What the shared variables mean as a pool. */
  ghost function AsPool(s: State): Pool
    requires -1 <= s.last < |s.list|
  {
    Pool(s.bufferSize, FreeList(s), s.contents)
  }

  ghost predicate Mutex(s: State) {
    && s.semaphore <= 1
    && (forall i, j :: (0 <= i < |s.threads| && 0 <= j < |s.threads|
                        && Critical(s.threads[i].pc) && Critical(s.threads[j].pc)) ==> i == j)
    && (s.semaphore == 1 ==> forall i :: 0 <= i < |s.threads| ==> !Critical(s.threads[i].pc))
    && (s.semaphore == 0 ==> exists i :: 0 <= i < |s.threads| && Critical(s.threads[i].pc))
  }

  ghost predicate Local(s: State, t: Thread) {
    && (t.pc in {AllocTake, AllocClear, AllocDecrement, FreeStore} ==> 0 <= s.last)
    && (t.pc == AllocClear && 0 <= s.last < |s.list| ==> t.buffer == s.list[s.last])
    && (t.pc in {AllocDecrement, FreeClear, FreeIncrement, FreeStore} ==> InRange(s, t.buffer))
    && (t.pc in {AllocPost, AllocReturn} ==> t.buffer >= -1)
    && (t.pc in {AllocWait, AllocTest, AllocTake} ==> t.buffer == -1)
    && (t.pc in {AllocPost, AllocReturn} && t.buffer >= 0 ==> InRange(s, t.buffer))
    && (t.pc in {FreeIncrement, FreeStore} && InRange(s, t.buffer) ==> s.contents[t.buffer] == Zeros(s.bufferSize))
  }

  ghost predicate Inv(s: State) {
    && |s.list| == s.Capacity() && -1 <= s.last < s.Capacity()
    && Mutex(s)
    && (forall i :: 0 <= i < |s.threads| ==> Local(s, s.threads[i]))
    && (forall b :: 0 <= b < s.Capacity() ==> |s.contents[b]| == s.bufferSize)
    && multiset(FreeList(s)) + Owned(s.threads, s.Capacity()) == AllBuffers(s.Capacity())
  }

  lemma OwnedUpdate(ts: seq<Thread>, i: nat, t: Thread, c: nat)
    requires i < |ts|
    ensures Owned(ts[i := t], c) + Owns(ts[i], c) == Owned(ts, c) + Owns(t, c)
  {
    hide Owns, Sum;
    assert OwnsEach(ts[i := t], c) == OwnsEach(ts, c)[i := Owns(t, c)];
    SumUpdate(OwnsEach(ts, c), i, Owns(t, c));
  }

  // ---------- every step keeps the invariant ----------

  /** A thread in its critical section holds the semaphore, and the list is torn
      exactly while that thread is half way through an update. */
  lemma InsideMeansAlone(s: State, i: nat)
    requires Mutex(s) && i < |s.threads| && Critical(s.threads[i].pc)
    ensures s.semaphore == 0
    ensures forall j :: 0 <= j < |s.threads| && j != i ==> !Critical(s.threads[j].pc)
    ensures SomeTorn(s) <==> Torn(s.threads[i].pc)
  {
  }

  lemma NobodyInside(s: State)
    requires Mutex(s) && s.semaphore == 1
    ensures !SomeTorn(s)
  {
  }

  /** The four ways in which one thread's step changes the mutex. */
  lemma MutexStep(s: State, s': State, i: nat)
    requires Mutex(s) && i < |s.threads| == |s'.threads|
    requires s'.threads == s.threads[i := s'.threads[i]]
    requires
      var was, now := Critical(s.threads[i].pc), Critical(s'.threads[i].pc);
      if was == now then s'.semaphore == s.semaphore
      else if now then s.semaphore > 0 && s'.semaphore == s.semaphore - 1
      else s'.semaphore == s.semaphore + 1
    ensures Mutex(s')
  {
    if Critical(s.threads[i].pc) { InsideMeansAlone(s, i); }
    assert forall j :: 0 <= j < |s.threads| && j != i ==> s'.threads[j] == s.threads[j];
    if s'.semaphore == 0 {
      if !Critical(s'.threads[i].pc) {
        var k :| 0 <= k < |s.threads| && Critical(s.threads[k].pc);
        assert s'.threads[k] == s.threads[k];
      }
    }
  }

  lemma TornElsewhere(s: State, s': State, i: nat)
    requires i < |s.threads| == |s'.threads| && s'.threads == s.threads[i := s'.threads[i]]
    requires !Torn(s.threads[i].pc) && !Torn(s'.threads[i].pc)
    ensures SomeTorn(s') <==> SomeTorn(s)
  {
    assert forall j :: 0 <= j < |s.threads| && j != i ==> s'.threads[j] == s.threads[j];
    if SomeTorn(s) {
      var k :| 0 <= k < |s.threads| && Torn(s.threads[k].pc);
      assert s'.threads[k] == s.threads[k];
    }
  }

  /** A step from one critical statement to the next leaves the mutex and every other
      thread's local facts alone. */
  lemma StepInside(s: State, s': State, i: nat)
    requires Inv(s) && SameShape(s, s', i) && s'.semaphore == s.semaphore
    requires Critical(s.threads[i].pc) && Critical(s'.threads[i].pc)
    ensures Mutex(s') && (SomeTorn(s) <==> Torn(s.threads[i].pc)) && (SomeTorn(s') <==> Torn(s'.threads[i].pc))
    ensures forall j :: 0 <= j < |s.threads| && j != i ==> Local(s', s'.threads[j])
  {
    hide Owned, AllBuffers, FreeList;
    InsideMeansAlone(s, i);
    MutexStep(s, s', i);
    InsideMeansAlone(s', i);
    assert forall j :: 0 <= j < |s.threads| && j != i ==> s'.threads[j] == s.threads[j];
  }

  /** A step between two statements outside, or in or out, that does not touch the
      list leaves the mutex and every other thread's local facts alone. */
  lemma StepOutside(s: State, s': State, i: nat)
    requires Inv(s) && SameShape(s, s', i) && s'.last == s.last && s'.list == s.list
    requires !Torn(s.threads[i].pc) && !Torn(s'.threads[i].pc)
    requires
      var was, now := Critical(s.threads[i].pc), Critical(s'.threads[i].pc);
      if was == now then s'.semaphore == s.semaphore
      else if now then s.semaphore > 0 && s'.semaphore == s.semaphore - 1
      else s'.semaphore == s.semaphore + 1
    ensures Mutex(s') && FreeList(s') == FreeList(s)
    ensures s'.contents == s.contents ==> forall j :: 0 <= j < |s.threads| && j != i ==> Local(s', s'.threads[j])
  {
    hide Owned, AllBuffers;
    MutexStep(s, s', i);
    TornElsewhere(s, s', i);
    hide Mutex;
    assert forall j :: 0 <= j < |s.threads| && j != i ==> s'.threads[j] == s.threads[j];
  }

  /** The list entries name buffers. */
  lemma ListedExists(s: State, k: nat)
    requires Inv(s) && k < |FreeList(s)|
    ensures InRange(s, FreeList(s)[k])
  {
    hide Owned, Mutex, Local;
    assert FreeList(s)[k] in AllBuffers(s.Capacity());
  }

  /** A thread that owns a buffer leaves room for it in the list. */
  lemma OwnerLeavesRoom(s: State, i: nat, b: int)
    requires Inv(s) && i < |s.threads| && b in Owns(s.threads[i], s.Capacity())
    ensures |FreeList(s)| < s.Capacity()
    ensures b !in FreeList(s)
  {
    hide Sum, Mutex, Local, FreeList, Owns;
    SumPart(OwnsEach(s.threads, s.Capacity()), i);
    var f, o := multiset(FreeList(s)), Owned(s.threads, s.Capacity());
    assert o[b] >= 1 && (f + o)[b] <= 1;
    assert |f + o| == |f| + |o| && |o| >= 1 by { assert o == (o - multiset{b}) + multiset{b}; }
  }

  /** What a step is to the pool: an alloc with its result, a free, a write to a buffer
      of the thread's own, or nothing. */
  datatype PoolEvent = NoEvent | AllocEvent(result: int) | FreeEvent(b: int) | WriteEvent(b: int, data: string)

  ghost predicate Explains(e: PoolEvent, p: Pool, p': Pool) {
    match e
    case NoEvent => p' == p
    case AllocEvent(result) => (p', result) == Alloc(p)
    case FreeEvent(b) => 0 <= b < p.Capacity() && p' == Free(p, b)
    case WriteEvent(b, data) => 0 <= b < p.Capacity() && |data| <= |p.contents[b]| && p' == Write(p, b, data)
  }

  /** The event of a step: an alloc takes effect where it clears its entry of the list,
      or where it finds the list empty; a free where it stores its entry. */
  function EventOf(s: State, i: nat, a: Action): PoolEvent
    requires i < |s.threads|
  {
    var t := s.threads[i];
    if !Allowed(s, t, a) then NoEvent
    else match a {
      case CallAlloc => NoEvent
      case CallFree(_) => NoEvent
      case UserWrite(b, data) => WriteEvent(b, data)
      case Advance =>
        if t.pc == AllocTest && s.last < 0 then AllocEvent(-1)
        else if t.pc == AllocClear then AllocEvent(t.buffer)
        else if t.pc == FreeClear then WriteEvent(t.buffer, Zeros(s.bufferSize))
        else if t.pc == FreeStore then FreeEvent(t.buffer)
        else NoEvent
    }
  }

  /** What the event does to the buffers of the thread that causes it. */
  ghost predicate Books(e: PoolEvent, owned: multiset<int>, owned': multiset<int>) {
    match e
    case NoEvent => owned' == owned
    case AllocEvent(result) => owned' == if result >= 0 then owned + multiset{result} else owned
    case FreeEvent(b) => b in owned && owned' == owned - multiset{b}
    case WriteEvent(b, _) => b in owned && owned' == owned
  }

  ghost predicate SameShape(s: State, s': State, i: nat) {
    && i < |s.threads| == |s'.threads| && s'.threads == s.threads[i := s'.threads[i]]
    && |s'.list| == |s.list| && |s'.contents| == |s.contents| && s'.bufferSize == s.bufferSize
    && -1 <= s'.last < |s'.list|
  }

  ghost predicate GoodStep(s: State, s': State, i: nat, e: PoolEvent) {
    && Inv(s) && Inv(s') && SameShape(s, s', i)
    && Explains(e, AsPool(s), AsPool(s'))
    && Books(e, Owns(s.threads[i], s.Capacity()), Owns(s'.threads[i], s.Capacity()))
  }

  lemma EventBalances(e: PoolEvent, p: Pool, p': Pool, o: multiset<int>, o': multiset<int>)
    requires Explains(e, p, p') && Books(e, o, o')
    requires forall k :: 0 <= k < |p.free| ==> p.free[k] >= 0
    ensures multiset(p'.free) + o' == multiset(p.free) + o
    ensures p'.bufferSize == p.bufferSize && |p'.contents| == |p.contents|
    ensures (forall b :: 0 <= b < |p.contents| ==> |p.contents[b]| == p.bufferSize) ==>
      forall b :: 0 <= b < |p.contents| ==> |p'.contents[b]| == p.bufferSize
  {
    match e
    case NoEvent =>
    case AllocEvent(result) => AllocBalances(p, p', result, o, o');
    case FreeEvent(b) => FreeBalances(multiset(p.free), o, b);
    case WriteEvent(b, data) =>
  }

  lemma AllocBalances(p: Pool, p': Pool, result: int, o: multiset<int>, o': multiset<int>)
    requires (p', result) == Alloc(p) && (p.free != [] ==> result >= 0)
    requires o' == if result >= 0 then o + multiset{result} else o
    ensures multiset(p'.free) + o' == multiset(p.free) + o
  {
    if p.free != [] { assert p.free == p'.free + [result]; }
  }

  lemma FreeBalances(f: multiset<int>, o: multiset<int>, b: int)
    requires b in o
    ensures (f + multiset{b}) + (o - multiset{b}) == f + o
  {
  }

  /** A step that an event explains, and whose books it balances, keeps everything. */
  lemma Explained(s: State, s': State, i: nat, e: PoolEvent)
    requires Inv(s) && SameShape(s, s', i) && Mutex(s')
    requires forall j :: 0 <= j < |s.threads| ==> Local(s', s'.threads[j])
    requires Explains(e, AsPool(s), AsPool(s'))
    requires Books(e, Owns(s.threads[i], s.Capacity()), Owns(s'.threads[i], s.Capacity()))
    ensures GoodStep(s, s', i, e)
  {
    hide Mutex, Local, FreeList, Owns, AllBuffers, Owned, Explains, Books;
    var c := s.Capacity();
    forall k | 0 <= k < |FreeList(s)| ensures FreeList(s)[k] >= 0 { ListedExists(s, k); }
    EventBalances(e, AsPool(s), AsPool(s'), Owns(s.threads[i], c), Owns(s'.threads[i], c));
    OwnedUpdate(s.threads, i, s'.threads[i], c);
    Exchange(multiset(FreeList(s)), Owned(s.threads, c), multiset(FreeList(s')), Owned(s'.threads, c),
             Owns(s.threads[i], c), Owns(s'.threads[i], c));
  }

  lemma AllocInside(s: State, i: nat)
    requires Inv(s) && i < |s.threads|
    requires s.threads[i].pc in {AllocTake, AllocDecrement} || (s.threads[i].pc == AllocTest && s.last >= 0)
    ensures GoodStep(s, AdvanceThread(s, i), i, NoEvent)
  {
    hide Owned, AllBuffers, Mutex, SomeTorn;
    var s' := AdvanceThread(s, i);
    StepInside(s, s', i);
    Explained(s, s', i, NoEvent);
  }

  /** The test finds the list empty exactly when the pool is: no buffer is in transit
      while a thread is at it. */
  lemma AllocGivesUp(s: State, i: nat)
    requires Inv(s) && i < |s.threads| && s.threads[i].pc == AllocTest && s.last < 0
    ensures GoodStep(s, AdvanceThread(s, i), i, AllocEvent(-1))
  {
    hide Owned, AllBuffers, Mutex, SomeTorn;
    var s' := AdvanceThread(s, i);
    StepInside(s, s', i);
    Explained(s, s', i, AllocEvent(-1));
  }

  /** The step that takes the top of the list is the one that clears its entry. */
  lemma AllocCommits(s: State, i: nat)
    requires Inv(s) && i < |s.threads| && s.threads[i].pc == AllocClear
    ensures GoodStep(s, AdvanceThread(s, i), i, AllocEvent(s.threads[i].buffer))
  {
    hide Owned, AllBuffers, Mutex, SomeTorn, Explains, Books;
    var s', b := AdvanceThread(s, i), s.threads[i].buffer;
    StepInside(s, s', i);
    ListedExists(s, s.last);
    assert FreeList(s) == s.list[..s.last] + [b] && FreeList(s') == s.list[..s.last];
    hide FreeList;
    TakesTop(s, s', i, b);
    Explained(s, s', i, AllocEvent(b));
  }

  lemma TakesTop(s: State, s': State, i: nat, b: int)
    requires -1 <= s.last < |s.list| && -1 <= s'.last < |s'.list| && i < |s.threads| == |s'.threads|
    requires FreeList(s) == FreeList(s') + [b] && s'.contents == s.contents && s'.bufferSize == s.bufferSize
    requires InRange(s, b) && s.threads[i].pc == AllocClear && s'.threads[i] == s.threads[i].(pc := AllocDecrement)
    requires s.threads[i].buffer == b
    ensures Explains(AllocEvent(b), AsPool(s), AsPool(s'))
    ensures Books(AllocEvent(b), Owns(s.threads[i], s.Capacity()), Owns(s'.threads[i], s.Capacity()))
  {
    hide FreeList;
    assert FreeList(s)[..|FreeList(s)| - 1] == FreeList(s');
  }

  lemma FreeInside(s: State, i: nat)
    requires Inv(s) && i < |s.threads| && s.threads[i].pc in {FreeTest, FreeIncrement}
    ensures GoodStep(s, AdvanceThread(s, i), i, NoEvent)
  {
    hide Owned, AllBuffers, Mutex, SomeTorn;
    var s' := AdvanceThread(s, i);
    if s.threads[i].pc == FreeIncrement { OwnerLeavesRoom(s, i, s.threads[i].buffer); }
    InsideMeansAlone(s, i);
    StepInside(s, s', i);
    Explained(s, s', i, NoEvent);
  }

  lemma FreeClears(s: State, i: nat)
    requires Inv(s) && i < |s.threads| && s.threads[i].pc == FreeClear
    ensures GoodStep(s, AdvanceThread(s, i), i, WriteEvent(s.threads[i].buffer, Zeros(s.bufferSize)))
  {
    hide Owned, AllBuffers, Mutex, SomeTorn;
    var s', b := AdvanceThread(s, i), s.threads[i].buffer;
    StepInside(s, s', i);
    assert Zeros(s.bufferSize) + s.contents[b][s.bufferSize..] == Zeros(s.bufferSize);
    Explained(s, s', i, WriteEvent(b, Zeros(s.bufferSize)));
  }

  /** The step that gives the buffer back is the one that stores it in the list. */
  lemma FreeCommits(s: State, i: nat)
    requires Inv(s) && i < |s.threads| && s.threads[i].pc == FreeStore
    ensures GoodStep(s, AdvanceThread(s, i), i, FreeEvent(s.threads[i].buffer))
  {
    hide Owned, AllBuffers, Mutex, SomeTorn;
    var s', b := AdvanceThread(s, i), s.threads[i].buffer;
    StepInside(s, s', i);
    assert FreeList(s') == s.list[..s.last] + [b] && FreeList(s) == s.list[..s.last];
    assert s.contents[b := Zeros(s.bufferSize)] == s.contents;
    Explained(s, s', i, FreeEvent(b));
  }

  lemma AtTheSemaphore(s: State, i: nat)
    requires Inv(s) && i < |s.threads|
    requires s.threads[i].pc in {AllocPost, FreePost} || (s.threads[i].pc in {AllocWait, FreeWait} && s.semaphore > 0)
    ensures GoodStep(s, AdvanceThread(s, i), i, NoEvent)
  {
    hide Owned, AllBuffers, Mutex, SomeTorn, FreeList;
    var s' := AdvanceThread(s, i);
    StepOutside(s, s', i);
    Explained(s, s', i, NoEvent);
  }

  lemma Calls(s: State, i: nat, a: Action)
    requires Inv(s) && i < |s.threads| && Allowed(s, s.threads[i], a) && (a.CallAlloc? || a.CallFree?)
    ensures GoodStep(s, Step(s, i, a), i, NoEvent)
  {
    hide Owned, AllBuffers, Mutex, SomeTorn, FreeList;
    var s' := Step(s, i, a);
    StepOutside(s, s', i);
    hide Inv;
    CallKeepsOwns(s, i, a);
    Explained(s, s', i, NoEvent);
  }

  lemma CallKeepsOwns(s: State, i: nat, a: Action)
    requires i < |s.threads| && Allowed(s, s.threads[i], a) && (a.CallAlloc? || a.CallFree?)
    ensures |Step(s, i, a).threads| == |s.threads|
    ensures Owns(Step(s, i, a).threads[i], s.Capacity()) == Owns(s.threads[i], s.Capacity())
  {
  }

  lemma Returns(s: State, i: nat)
    requires Inv(s) && i < |s.threads| && s.threads[i].pc == AllocReturn
    ensures GoodStep(s, AdvanceThread(s, i), i, NoEvent)
  {
    hide Owned, AllBuffers, Mutex, SomeTorn, FreeList;
    var s' := AdvanceThread(s, i);
    StepOutside(s, s', i);
    Explained(s, s', i, NoEvent);
  }

  lemma UserWrites(s: State, i: nat, a: Action)
    requires Inv(s) && i < |s.threads| && Allowed(s, s.threads[i], a) && a.UserWrite?
    ensures GoodStep(s, Step(s, i, a), i, WriteEvent(a.b, a.data))
  {
    hide Owned, AllBuffers, Mutex, SomeTorn, FreeList;
    var s' := Step(s, i, a);
    assert s.threads[i := s'.threads[i]] == s.threads;
    StepOutside(s, s', i);
    forall j | 0 <= j < |s.threads| ensures Local(s', s'.threads[j]) {
      if j != i { NotOwnedByTwo(s, i, j, a.b); }
    }
    Explained(s, s', i, WriteEvent(a.b, a.data));
  }

  /** No buffer is owned by two threads, nor by one thread and the list. */
  lemma NotOwnedByTwo(s: State, i: nat, j: nat, b: int)
    requires Inv(s) && i < |s.threads| && j < |s.threads| && i != j
    requires b in Owns(s.threads[i], s.Capacity())
    ensures b !in Owns(s.threads[j], s.Capacity())
  {
    hide Sum, Mutex, Local, FreeList, Owns;
    var c := s.Capacity();
    if i < j { SumTwoParts(OwnsEach(s.threads, c), i, j); } else { SumTwoParts(OwnsEach(s.threads, c), j, i); }
    assert (multiset(FreeList(s)) + Owned(s.threads, c))[b] <= 1;
    assert (Owns(s.threads[i], c) + Owns(s.threads[j], c))[b] <= Owned(s.threads, c)[b];
  }

  // ---------- every interleaving ----------

  ghost predicate FailsOnlyWhenEmpty(s: State, e: PoolEvent) {
    -1 <= s.last < |s.list| && (e.AllocEvent? ==> e.result >= -1 && (e.result == -1 <==> FreeList(s) == []))
  }

  /** An alloc that takes effect fails exactly when no buffer is available. */
  lemma AllocFailsOnlyWhenEmpty(s: State, s': State, i: nat, e: PoolEvent)
    requires GoodStep(s, s', i, e)
    ensures FailsOnlyWhenEmpty(s, e)
  {
    hide Mutex, Local, Owned, Owns, FreeList;
    if e.AllocEvent? && FreeList(s) != [] { ListedExists(s, |FreeList(s)| - 1); }
  }

  /** Every step, of any thread, has the effect of its event on the pool; an alloc among
      them fails exactly when no buffer is available. */
  lemma StepExplained(s: State, i: nat, a: Action)
    requires Inv(s) && i < |s.threads|
    ensures GoodStep(s, Step(s, i, a), i, EventOf(s, i, a))
    ensures FailsOnlyWhenEmpty(s, EventOf(s, i, a))
  {
    StepIsGood(s, i, a);
    hide Inv, GoodStep, EventOf, Step;
    AllocFailsOnlyWhenEmpty(s, Step(s, i, a), i, EventOf(s, i, a));
  }

  lemma StepIsGood(s: State, i: nat, a: Action)
    requires Inv(s) && i < |s.threads|
    ensures GoodStep(s, Step(s, i, a), i, EventOf(s, i, a))
  {
    hide Inv, GoodStep;
    var pc := s.threads[i].pc;
    if !Allowed(s, s.threads[i], a) {
      NoStep(s, i);
    } else if a.UserWrite? {
      UserWrites(s, i, a);
    } else if pc == Outside {
      Calls(s, i, a);
    } else if pc == AllocReturn {
      Returns(s, i);
    } else if pc == AllocTest && s.last < 0 {
      AllocGivesUp(s, i);
    } else if pc == AllocClear {
      AllocCommits(s, i);
    } else if pc == FreeClear {
      FreeClears(s, i);
    } else if pc == FreeStore {
      FreeCommits(s, i);
    } else if pc in {AllocTest, AllocTake, AllocDecrement} {
      AllocInside(s, i);
    } else if pc in {FreeTest, FreeIncrement} {
      FreeInside(s, i);
    } else {
      AtTheSemaphore(s, i);
    }
  }

  lemma NoStep(s: State, i: nat)
    requires Inv(s) && i < |s.threads|
    ensures GoodStep(s, s, i, NoEvent)
  {
    hide Owned, AllBuffers, Mutex, FreeList;
    assert s.threads[i := s.threads[i]] == s.threads;
  }

  /** Step k of a schedule takes the state before it to the state after it by its own
      event: the one of the thread that is scheduled, or none if there is no such thread. */
  ghost predicate ExplainedAt(s: State, schedule: seq<(nat, Action)>, k: nat)
    requires k < |schedule|
  {
    var (i, a) := schedule[k];
    var before, after := Run(s, schedule[..k]), Run(s, schedule[..k + 1]);
    if i < |s.threads| then
      GoodStep(before, after, i, EventOf(before, i, a)) && FailsOnlyWhenEmpty(before, EventOf(before, i, a))
    else after == before
  }

  lemma {:induction false} RunExplained(s: State, schedule: seq<(nat, Action)>)
    requires Inv(s)
    ensures Inv(Run(s, schedule))
    ensures forall k :: 0 <= k < |schedule| ==> ExplainedAt(s, schedule, k)
  {
    hide Mutex, Local, FreeList, Owned, AllBuffers, Step, EventOf, Explains, Books;
    if schedule != [] {
      var n := |schedule| - 1;
      var (i, a) := schedule[n];
      RunExplained(s, schedule[..n]);
      assert schedule[..n + 1] == schedule;
      if i < |s.threads| { StepExplained(Run(s, schedule[..n]), i, a); }
      forall k | 0 <= k < n ensures ExplainedAt(s, schedule, k) { ExplainedBefore(s, schedule, n, k); }
    }
  }

  lemma ExplainedBefore(s: State, schedule: seq<(nat, Action)>, n: nat, k: nat)
    requires k < n <= |schedule| && ExplainedAt(s, schedule[..n], k)
    ensures ExplainedAt(s, schedule, k)
  {
    hide GoodStep, Run, EventOf;
    assert schedule[..n][..k] == schedule[..k] && schedule[..n][..k + 1] == schedule[..k + 1];
  }

  // ---------- every call takes effect once, between its call and its return ----------

  /** What happens on behalf of one thread: how often it calls alloc_buffer, the results
      of its allocs on the pool, and what alloc_buffer returns to it; the buffers it
      calls free_buffer for, and those freed on the pool. */
  datatype History = History(allocCalls: nat, allocs: seq<int>, returned: seq<int>,
                             freeCalls: seq<int>, frees: seq<int>)

  function Record(h: History, s: State, i: nat, a: Action): History
    requires i < |s.threads|
  {
    var t, e := s.threads[i], EventOf(s, i, a);
    var done := Allowed(s, t, a);
    History(
      h.allocCalls + (if done && a.CallAlloc? then 1 else 0),
      h.allocs + (if e.AllocEvent? then [e.result] else []),
      h.returned + (if done && a.Advance? && t.pc == AllocReturn then [t.buffer] else []),
      h.freeCalls + (if done && a.CallFree? && InRange(s, a.b) then [a.b] else []),
      h.frees + (if e.FreeEvent? then [e.b] else []))
  }

  function HistoryOf(s: State, schedule: seq<(nat, Action)>, i: nat): History
    requires i < |s.threads|
  {
    if schedule == [] then History(0, [], [], [], [])
    else
      var n := |schedule| - 1;
      var h := HistoryOf(s, schedule[..n], i);
      if schedule[n].0 == i then Record(h, Run(s, schedule[..n]), i, schedule[n].1) else h
  }

  /** The allocs of a thread on the pool are the results it is returned, in order, and
      at most one that is about to be returned; each follows its call. The frees on the
      pool are the calls, in order, but for at most one that is still to take effect. */
  predicate Linear(s: State, t: Thread, h: History) {
    && h.allocs == h.returned + (if t.pc in {AllocDecrement, AllocPost, AllocReturn} then [t.buffer] else [])
    && h.allocCalls == |h.allocs| + (if t.pc in {AllocWait, AllocTest, AllocTake, AllocClear} then 1 else 0)
    && h.freeCalls == h.frees + (
         if t.pc in {FreeWait, FreeTest, FreeClear, FreeIncrement, FreeStore} && InRange(s, t.buffer)
         then [t.buffer] else [])
  }

  predicate InAlloc(pc: Pc) {
    pc in {AllocWait, AllocTest, AllocTake, AllocClear, AllocDecrement, AllocPost, AllocReturn}
  }

  lemma StepKeepsLinear(s: State, i: nat, a: Action, h: History)
    requires i < |s.threads| && -1 <= s.last < |s.list| && Local(s, s.threads[i]) && Linear(s, s.threads[i], h)
    ensures |Step(s, i, a).threads| == |s.threads|
    ensures Linear(Step(s, i, a), Step(s, i, a).threads[i], Record(h, s, i, a))
  {
    if Allowed(s, s.threads[i], a) && a.Advance? {
      hide AdvanceThread, Record, Linear, Local;
      if InAlloc(s.threads[i].pc) { AllocKeepsLinear(s, i, h); } else { FreeKeepsLinear(s, i, h); }
    } else {
      hide AdvanceThread, Local;
    }
  }

  lemma AllocKeepsLinear(s: State, i: nat, h: History)
    requires i < |s.threads| && -1 <= s.last < |s.list| && Local(s, s.threads[i]) && Linear(s, s.threads[i], h)
    requires Allowed(s, s.threads[i], Advance) && InAlloc(s.threads[i].pc)
    ensures |AdvanceThread(s, i).threads| == |s.threads|
    ensures Linear(AdvanceThread(s, i), AdvanceThread(s, i).threads[i], Record(h, s, i, Advance))
  {
  }

  lemma FreeKeepsLinear(s: State, i: nat, h: History)
    requires i < |s.threads| && -1 <= s.last < |s.list| && Local(s, s.threads[i]) && Linear(s, s.threads[i], h)
    requires Allowed(s, s.threads[i], Advance) && !InAlloc(s.threads[i].pc)
    ensures |AdvanceThread(s, i).threads| == |s.threads|
    ensures Linear(AdvanceThread(s, i), AdvanceThread(s, i).threads[i], Record(h, s, i, Advance))
  {
  }

  lemma LocalFacts(s: State, i: nat)
    requires Inv(s) && i < |s.threads|
    ensures -1 <= s.last < |s.list| && Local(s, s.threads[i])
  {
    hide Mutex, Owned, FreeList, AllBuffers, Local;
  }

  lemma OtherKeepsLinear(s: State, s': State, i: nat, j: nat, e: PoolEvent, h: History)
    requires GoodStep(s, s', j, e) && i < |s.threads| && i != j && Linear(s, s.threads[i], h)
    ensures Linear(s', s'.threads[i], h)
  {
    hide Inv, Explains, Books;
    assert s'.threads[i] == s.threads[i];
  }

  lemma {:induction false} RunIsLinear(s: State, schedule: seq<(nat, Action)>, i: nat)
    requires Inv(s) && i < |s.threads| && s.threads[i].pc == Outside
    ensures Linear(Run(s, schedule), Run(s, schedule).threads[i], HistoryOf(s, schedule, i))
  {
    if schedule == [] {
      hide Inv;
    } else {
      hide Inv, Record, Step, GoodStep, Linear, EventOf, Local;
      var n := |schedule| - 1;
      var before := Run(s, schedule[..n]);
      RunIsLinear(s, schedule[..n], i);
      RunExplained(s, schedule[..n]);
      if schedule[n].0 == i {
        LocalFacts(before, i);
        StepKeepsLinear(before, i, schedule[n].1, HistoryOf(s, schedule[..n], i));
      } else if schedule[n].0 < |s.threads| {
        var (j, a) := schedule[n];
        StepExplained(before, j, a);
        OtherKeepsLinear(before, Step(before, j, a), i, j, EventOf(before, j, a), HistoryOf(s, schedule[..n], i));
      }
    }
  }

  lemma InitialInv(threads: nat, capacity: nat, bufferSize: nat)
    ensures Inv(InitialState(threads, capacity, bufferSize))
    ensures AsPool(InitialState(threads, capacity, bufferSize))
         == Pool(bufferSize, seq(capacity, i => i), seq(capacity, _ => Zeros(bufferSize)))
  {
    hide AllBuffers, Owned;
    var s := InitialState(threads, capacity, bufferSize);
    InitialFree(capacity);
    assert s.list[..s.last + 1] == s.list;
    assert !SomeTorn(s);
    NobodyOwns(s.threads, capacity);
    InitialMutex(s);
    hide Mutex, SomeTorn;
  }

  lemma InitialMutex(s: State)
    requires s.semaphore == 1 && forall i :: 0 <= i < |s.threads| ==> s.threads[i].pc == Outside
    ensures Mutex(s)
  {
  }

  lemma NobodyOwns(ts: seq<Thread>, c: nat)
    requires forall i :: 0 <= i < |ts| ==> ts[i] == Thread(Outside, -1, multiset{})
    ensures Owned(ts, c) == multiset{}
  {
    SumNothing(OwnsEach(ts, c));
  }

  ghost predicate LinearAt(s: State, schedule: seq<(nat, Action)>, i: nat, k: nat)
    requires i < |s.threads| && k <= |schedule|
  {
    Linear(Run(s, schedule[..k]), Run(s, schedule[..k]).threads[i], HistoryOf(s, schedule[..k], i))
  }

  /** Any number of threads, interleaved in any way access by access, act on the pool by
      whole allocs, frees and writes: every step has the effect of its event, and at every
      moment the events of each thread are its calls, in its order, each between its call
      and its return, with the results it is returned. */
  lemma ThreadsRefineThePool(threads: nat, capacity: nat, bufferSize: nat, schedule: seq<(nat, Action)>)
    ensures var s := InitialState(threads, capacity, bufferSize);
      && AsPoolIs(s, Pool(bufferSize, seq(capacity, i => i), seq(capacity, _ => Zeros(bufferSize))))
      && Inv(Run(s, schedule))
      && (forall k :: 0 <= k < |schedule| ==> ExplainedAt(s, schedule, k))
      && (forall i, k :: 0 <= i < threads && 0 <= k <= |schedule| ==> LinearAt(s, schedule, i, k))
  {
    hide Run, HistoryOf, Linear, ExplainedAt, Inv, FreeList;
    var s := InitialState(threads, capacity, bufferSize);
    InitialInv(threads, capacity, bufferSize);
    RunExplained(s, schedule);
    forall i, k | 0 <= i < threads && 0 <= k <= |schedule| ensures LinearAt(s, schedule, i, k) {
      RunIsLinear(s, schedule[..k], i);
    }
  }

  ghost predicate AsPoolIs(s: State, p: Pool) {
    -1 <= s.last < |s.list| && AsPool(s) == p
  }

  // ---------- what that means for the threads ----------

  /** Whatever the schedule: no buffer is owned by two threads, or by one thread and
      the free list; no buffer is listed twice; and when the semaphore is released,
      the available buffers and the owned ones add up to the capacity. */
  lemma ThreadsShareSafely(threads: nat, capacity: nat, bufferSize: nat, schedule: seq<(nat, Action)>)
    ensures var s := Run(InitialState(threads, capacity, bufferSize), schedule);
      && Inv(s)
      && (forall i, j, b | 0 <= i < |s.threads| && 0 <= j < |s.threads| && i != j ::
            b in Owns(s.threads[i], s.Capacity()) ==> b !in Owns(s.threads[j], s.Capacity()))
      && (forall i, b | 0 <= i < |s.threads| :: b in Owns(s.threads[i], s.Capacity()) ==> b !in FreeList(s))
      && (forall b :: multiset(FreeList(s))[b] <= 1)
      && (s.semaphore == 1 ==>
            && FreeList(s) == s.list[..s.last + 1]
            && (s.last + 1) + SizeOf(OwnsEach(s.threads, s.Capacity())) == s.Capacity())
  {
    hide Mutex, Local, Owned, Owns, Run, SizeOf, OwnsEach, FreeList;
    InitialInv(threads, capacity, bufferSize);
    RunExplained(InitialState(threads, capacity, bufferSize), schedule);
    var s := Run(InitialState(threads, capacity, bufferSize), schedule);
    forall i, j, b | 0 <= i < |s.threads| && 0 <= j < |s.threads| && i != j && b in Owns(s.threads[i], s.Capacity())
      ensures b !in Owns(s.threads[j], s.Capacity())
    {
      NotOwnedByTwo(s, i, j, b);
    }
    forall i, b | 0 <= i < |s.threads| && b in Owns(s.threads[i], s.Capacity()) ensures b !in FreeList(s) {
      OwnerLeavesRoom(s, i, b);
    }
    FreeListOnce(s);
    if s.semaphore == 1 {
      ReleasedAddsUp(s);
    }
  }

  lemma ReleasedAddsUp(s: State)
    requires Inv(s) && s.semaphore == 1
    ensures FreeList(s) == s.list[..s.last + 1]
    ensures (s.last + 1) + SizeOf(OwnsEach(s.threads, s.Capacity())) == s.Capacity()
  {
    hide Mutex, Local, Sum, SizeOf, OwnsEach;
    NobodyInside(s);
    SumSize(OwnsEach(s.threads, s.Capacity()));
    assert |multiset(FreeList(s)) + Owned(s.threads, s.Capacity())| == s.Capacity();
  }

  lemma FreeListOnce(s: State)
    requires Inv(s)
    ensures forall b :: multiset(FreeList(s))[b] <= 1
  {
    hide Mutex, Local, Owned, FreeList;
    forall b ensures multiset(FreeList(s))[b] <= 1 {
      assert (multiset(FreeList(s)) + Owned(s.threads, s.Capacity()))[b] <= 1;
    }
  }

  /** Thread j owns buffer b, which holds these bytes. */
  ghost predicate OwnsBytes(s: State, j: nat, b: int, bytes: string) {
    && j < |s.threads| && InRange(s, b) && b in Owns(s.threads[j], s.Capacity())
    && s.contents[b] == bytes
  }

  /** While a thread owns a buffer, no step of another thread changes its bytes. */
  lemma OwnedBytesAreSafe(s: State, i: nat, a: Action, j: nat, b: int, bytes: string)
    requires Inv(s) && i < |s.threads| && j != i && OwnsBytes(s, j, b, bytes)
    ensures OwnsBytes(Step(s, i, a), j, b, bytes)
  {
    hide Mutex, Local, Owned, Owns, FreeList, Step;
    StepExplained(s, i, a);
    NotOwnedByTwo(s, j, i, b);
    assert Step(s, i, a).threads[j] == s.threads[j];
    assert AsPool(Step(s, i, a)).contents == Step(s, i, a).contents;
  }

  // ---------- no thread is ever stuck ----------

  /** The guards in AdvanceThread never fail: a thread that may go on does, so every
      access to the list is within its bounds. */
  lemma GuardsHold(s: State, i: nat)
    requires Inv(s) && i < |s.threads| && Allowed(s, s.threads[i], Advance)
    ensures AdvanceThread(s, i).threads[i].pc != s.threads[i].pc
  {
    hide Mutex, Owned, AllBuffers, FreeList;
  }

  /** There is no deadlock: while any thread is inside a call, some thread may go on. */
  lemma NoDeadlock(s: State, i: nat) returns (j: nat)
    requires Inv(s) && i < |s.threads| && s.threads[i].pc != Outside
    ensures j < |s.threads| && Allowed(s, s.threads[j], Advance)
  {
    hide Local, Owned, AllBuffers, FreeList;
    j := i;
    if s.semaphore == 0 {
      j :| 0 <= j < |s.threads| && Critical(s.threads[j].pc);
    }
  }

  // ---------- every call, made alone, does its work ----------

  /** Thread i goes on n times. */
  function Advances(i: nat, n: nat): seq<(nat, Action)> {
    seq(n, _ => (i, Advance))
  }

  /** n steps of thread i alone. */
  function Steps(s: State, i: nat, n: nat): (r: State)
    requires i < |s.threads|
    ensures |r.threads| == |s.threads|
    decreases n
  {
    if n == 0 then s else Steps(Step(s, i, Advance), i, n - 1)
  }

  lemma {:induction false} StepsAreARun(s: State, i: nat, n: nat, a: Action)
    requires i < |s.threads|
    ensures Run(s, [(i, a)] + Advances(i, n)) == Steps(Step(s, i, a), i, n)
    decreases n
  {
    hide Step;
    var schedule := [(i, a)] + Advances(i, n);
    if n == 0 {
      assert schedule[..0] == [];
      assert Run(s, schedule[..0]) == s;
    } else {
      assert schedule[..n] == [(i, a)] + Advances(i, n - 1);
      StepsAreARun(s, i, n - 1, a);
      StepsOneMore(Step(s, i, a), i, n - 1);
    }
  }

  lemma {:induction false} StepsOneMore(s: State, i: nat, n: nat)
    requires i < |s.threads|
    ensures Steps(s, i, n + 1) == Step(Steps(s, i, n), i, Advance)
    decreases n
  {
    hide Step;
    if n > 0 { StepsOneMore(Step(s, i, Advance), i, n - 1); }
  }

  /** A call of alloc_buffer while a buffer is available and the semaphore is free: after
      seven more steps the thread has the buffer on top of the list. */
  lemma AllocGivesTheTop(s: State, i: nat)
    requires Inv(s) && i < |s.threads| && s.threads[i].pc == Outside && s.semaphore == 1 && s.last >= 0
    ensures var s' := Run(s, [(i, CallAlloc)] + Advances(i, 7));
      && Inv(s') && s'.semaphore == 1 && s'.contents == s.contents
      && s'.threads == s.threads[i := Thread(Outside, -1, s.threads[i].held + multiset{s.list[s.last]})]
      && FreeList(s) == FreeList(s') + [s.list[s.last]]
    ensures Run(s, [(i, CallAlloc)] + Advances(i, 6)).threads[i]
         == Thread(AllocReturn, s.list[s.last], s.threads[i].held)
  {
    hide Inv, Run, Step, Steps, FreeList, Advances;
    var schedule := [(i, CallAlloc)] + Advances(i, 7);
    StepsAreARun(s, i, 7, CallAlloc);
    StepsAreARun(s, i, 6, CallAlloc);
    RunExplained(s, schedule);
    ReleasedList(s);
    AllocSteps(s, i);
    var s' := Run(s, schedule);
    ReleasedList(s');
    assert s.list[..s.last + 1] == s'.list[..s'.last + 1] + [s.list[s.last]];
  }

  /** While nobody is inside, the list is what the array holds up to last. */
  lemma ReleasedList(s: State)
    requires Inv(s)
    ensures -1 <= s.last < |s.list| && (s.semaphore == 1 ==> FreeList(s) == s.list[..s.last + 1])
    ensures forall k :: 0 <= k <= s.last && s.semaphore == 1 ==> s.list[k] >= 0
  {
    hide Mutex, Local, Owned, AllBuffers;
    if s.semaphore == 1 {
      NobodyInside(s);
      forall k | 0 <= k <= s.last ensures s.list[k] >= 0 {
        ListedExists(s, k);
        assert FreeList(s)[k] == s.list[k];
      }
    }
  }

  lemma AllocSteps(s: State, i: nat)
    requires i < |s.threads| && s.threads[i].pc == Outside && s.semaphore == 1 && 0 <= s.last < |s.list|
    requires s.list[s.last] >= 0
    ensures var s', b := Steps(Step(s, i, CallAlloc), i, 7), s.list[s.last];
      && s'.semaphore == 1 && s'.contents == s.contents && s'.last == s.last - 1
      && s'.list == s.list[s.last := -1]
      && s'.threads == s.threads[i := Thread(Outside, -1, s.threads[i].held + multiset{b})]
    ensures Steps(Step(s, i, CallAlloc), i, 6).threads[i] == Thread(AllocReturn, s.list[s.last], s.threads[i].held)
  {
    var h, b := s.threads[i].held, s.list[s.last];
    var s0 := s.(threads := s.threads[i := Thread(AllocWait, -1, h)]);
    var s1 := s.(semaphore := 0, threads := s.threads[i := Thread(AllocTest, -1, h)]);
    var s2 := s1.(threads := s.threads[i := Thread(AllocTake, -1, h)]);
    var s3 := s1.(threads := s.threads[i := Thread(AllocClear, b, h)]);
    var s4 := s1.(threads := s.threads[i := Thread(AllocDecrement, b, h)], list := s.list[s.last := -1]);
    var s5 := s4.(threads := s.threads[i := Thread(AllocPost, b, h)], last := s.last - 1);
    var s6 := s5.(threads := s.threads[i := Thread(AllocReturn, b, h)], semaphore := 1);
    var s7 := s6.(threads := s.threads[i := Thread(Outside, -1, h + multiset{b})]);
    assert Step(s, i, CallAlloc) == s0;
    assert Step(s0, i, Advance) == s1;
    assert Step(s1, i, Advance) == s2;
    assert Step(s2, i, Advance) == s3;
    assert Step(s3, i, Advance) == s4;
    assert Step(s4, i, Advance) == s5;
    assert Step(s5, i, Advance) == s6;
    assert Step(s6, i, Advance) == s7;
    hide Step;
    assert Steps(s4, i, 3) == Steps(s5, i, 2) == Steps(s6, i, 1) == Steps(s7, i, 0) == s7;
    assert Steps(s0, i, 7) == Steps(s1, i, 6) == Steps(s2, i, 5) == Steps(s3, i, 4) == Steps(s4, i, 3);
    assert Steps(s4, i, 2) == Steps(s5, i, 1) == Steps(s6, i, 0) == s6;
    assert Steps(s0, i, 6) == Steps(s1, i, 5) == Steps(s2, i, 4) == Steps(s3, i, 3) == Steps(s4, i, 2);
  }

  /** While none is available: after four more steps nothing has changed but the thread's
      local variable, and what is returned is -1. */
  lemma AllocGivesNothing(s: State, i: nat)
    requires Inv(s) && i < |s.threads| && s.threads[i].pc == Outside && s.semaphore == 1 && s.last < 0
    ensures Run(s, [(i, CallAlloc)] + Advances(i, 4)) == s.(threads := s.threads[i := s.threads[i].(buffer := -1)])
    ensures Run(s, [(i, CallAlloc)] + Advances(i, 3)).threads[i] == Thread(AllocReturn, -1, s.threads[i].held)
  {
    hide Inv, Run, Step, Steps, Advances;
    StepsAreARun(s, i, 3, CallAlloc);
    StepsAreARun(s, i, 4, CallAlloc);
    EmptySteps(s, i);
  }

  lemma EmptySteps(s: State, i: nat)
    requires i < |s.threads| && s.threads[i].pc == Outside && s.semaphore == 1 && s.last < 0
    ensures Steps(Step(s, i, CallAlloc), i, 4) == s.(threads := s.threads[i := s.threads[i].(buffer := -1)])
    ensures Steps(Step(s, i, CallAlloc), i, 3).threads[i] == Thread(AllocReturn, -1, s.threads[i].held)
  {
    var h := s.threads[i].held;
    var s0 := s.(threads := s.threads[i := Thread(AllocWait, -1, h)]);
    var s1 := s.(semaphore := 0, threads := s.threads[i := Thread(AllocTest, -1, h)]);
    var s2 := s1.(threads := s.threads[i := Thread(AllocPost, -1, h)]);
    var s3 := s.(threads := s.threads[i := Thread(AllocReturn, -1, h)]);
    assert Step(s, i, CallAlloc) == s0;
    assert Step(s0, i, Advance) == s1;
    assert Step(s1, i, Advance) == s2;
    assert Step(s2, i, Advance) == s3;
    var s4 := s.(threads := s.threads[i := Thread(Outside, -1, h)]);
    assert Step(s3, i, Advance) == s4;
    hide Step;
    assert Steps(s1, i, 2) == Steps(s2, i, 1) == Steps(s3, i, 0) == s3;
    assert Steps(s1, i, 3) == Steps(s2, i, 2) == Steps(s3, i, 1) == Steps(s4, i, 0) == s4;
  }

  /** A call of free_buffer for a buffer that the thread holds: after six more steps that
      buffer is blank, on top of the list, and no longer held. */
  lemma FreePutsOnTop(s: State, i: nat, b: int)
    requires Inv(s) && i < |s.threads| && s.threads[i].pc == Outside && s.semaphore == 1
    requires InRange(s, b) && b in s.threads[i].held
    ensures var s', t := Run(s, [(i, CallFree(b))] + Advances(i, 6)), s.threads[i];
      && Inv(s') && s'.semaphore == 1
      && s'.threads == s.threads[i := Thread(Outside, b, t.held - multiset{b})]
      && s'.contents == s.contents[b := seq(s.bufferSize, _ => NUL)]
      && FreeList(s') == FreeList(s) + [b]
  {
    hide Inv, Run, Step, Steps, FreeList, Owns, Advances;
    var schedule := [(i, CallFree(b))] + Advances(i, 6);
    StepsAreARun(s, i, 6, CallFree(b));
    RunExplained(s, schedule);
    ReleasedList(s);
    HolderLeavesRoom(s, i, b);
    FreeSteps(s, i, b);
    var s' := Run(s, schedule);
    ReleasedList(s');
    assert s'.list[..s'.last + 1] == s.list[..s.last + 1] + [b];
  }

  lemma HolderLeavesRoom(s: State, i: nat, b: int)
    requires Inv(s) && i < |s.threads| && InRange(s, b) && b in s.threads[i].held
    ensures |FreeList(s)| < s.Capacity() == |s.list|
  {
    hide Mutex, Local, Owned, AllBuffers, FreeList;
    OwnerLeavesRoom(s, i, b);
  }

  lemma FreeSteps(s: State, i: nat, b: int)
    requires i < |s.threads| && s.threads[i].pc == Outside && s.semaphore == 1 && -1 <= s.last < |s.list| - 1
    requires InRange(s, b) && b in s.threads[i].held
    ensures var s' := Steps(Step(s, i, CallFree(b)), i, 6);
      && s'.semaphore == 1 && s'.last == s.last + 1 && s'.list == s.list[s.last + 1 := b]
      && s'.threads == s.threads[i := Thread(Outside, b, s.threads[i].held - multiset{b})]
      && s'.contents == s.contents[b := seq(s.bufferSize, _ => NUL)]
  {
    var h, l := s.threads[i].held - multiset{b}, s.list[s.last + 1 := b];
    var c := s.contents[b := Zeros(s.bufferSize)];
    var s0 := s.(threads := s.threads[i := Thread(FreeWait, b, h)]);
    var s1 := s.(semaphore := 0, threads := s.threads[i := Thread(FreeTest, b, h)]);
    var s2 := s1.(threads := s.threads[i := Thread(FreeClear, b, h)]);
    var s3 := s1.(threads := s.threads[i := Thread(FreeIncrement, b, h)], contents := c);
    var s4 := s3.(threads := s.threads[i := Thread(FreeStore, b, h)], last := s.last + 1);
    var s5 := s4.(threads := s.threads[i := Thread(FreePost, b, h)], list := l);
    var s6 := s5.(threads := s.threads[i := Thread(Outside, b, h)], semaphore := 1);
    assert Step(s, i, CallFree(b)) == s0;
    assert Step(s0, i, Advance) == s1;
    assert Step(s1, i, Advance) == s2;
    assert Step(s2, i, Advance) == s3;
    assert Step(s3, i, Advance) == s4;
    assert Step(s4, i, Advance) == s5;
    assert Step(s5, i, Advance) == s6;
    hide Step;
    assert Steps(s3, i, 3) == Steps(s4, i, 2) == Steps(s5, i, 1) == Steps(s6, i, 0) == s6;
    assert Steps(s0, i, 6) == Steps(s1, i, 5) == Steps(s2, i, 4) == Steps(s3, i, 3);
  }

  /** A call for a number that is no buffer changes nothing but the thread's argument. */
  lemma FreeIgnoresOthers(s: State, i: nat, b: int)
    requires i < |s.threads| && s.threads[i].pc == Outside && s.semaphore == 1 && !InRange(s, b)
    ensures Run(s, [(i, CallFree(b))] + Advances(i, 3)) == s.(threads := s.threads[i := s.threads[i].(buffer := b)])
  {
    hide Run, Step, Steps, Advances;
    StepsAreARun(s, i, 3, CallFree(b));
    IgnoredSteps(s, i, b);
  }

  lemma IgnoredSteps(s: State, i: nat, b: int)
    requires i < |s.threads| && s.threads[i].pc == Outside && s.semaphore == 1 && !InRange(s, b)
    ensures Steps(Step(s, i, CallFree(b)), i, 3) == s.(threads := s.threads[i := s.threads[i].(buffer := b)])
  {
    var h := s.threads[i].held;
    var s0 := s.(threads := s.threads[i := Thread(FreeWait, b, h)]);
    var s1 := s.(semaphore := 0, threads := s.threads[i := Thread(FreeTest, b, h)]);
    var s2 := s1.(threads := s.threads[i := Thread(FreePost, b, h)]);
    var s3 := s.(threads := s.threads[i := Thread(Outside, b, h)]);
    assert Step(s, i, CallFree(b)) == s0;
    assert Step(s0, i, Advance) == s1;
    assert Step(s1, i, Advance) == s2;
    assert Step(s2, i, Advance) == s3;
    hide Step;
    assert Steps(s1, i, 2) == Steps(s2, i, 1) == Steps(s3, i, 0) == s3;
  }

  /** A thread writes to the buffers that it holds, and to no others. */
  lemma HolderWrites(s: State, i: nat, b: int, data: string)
    requires Inv(s) && i < |s.threads| && s.threads[i].pc == Outside
    requires InRange(s, b) && b in s.threads[i].held && |data| <= s.bufferSize
    ensures var s' := Step(s, i, UserWrite(b, data));
      && s' == s.(contents := s'.contents) && |s'.contents| == |s.contents|
      && |s'.contents[b]| == s.bufferSize && data <= s'.contents[b]
      && s'.contents[b][|data|..] == s.contents[b][|data|..]
      && forall c :: 0 <= c < s.Capacity() && c != b ==> s'.contents[c] == s.contents[c]
  {
    hide Mutex, Local, Owned, AllBuffers, FreeList;
  }

  /** From the start: any thread that calls alloc_buffer first is given the last buffer. */
  lemma FirstAlloc(threads: nat, capacity: nat, bufferSize: nat, i: nat)
    requires i < threads && capacity > 0
    ensures var s := Run(InitialState(threads, capacity, bufferSize), [(i, CallAlloc)] + Advances(i, 7));
      |s.threads| == threads && s.threads[i].pc == Outside && s.threads[i].held == multiset{capacity - 1}
  {
    hide Inv, Run, FreeList;
    InitialInv(threads, capacity, bufferSize);
    AllocGivesTheTop(InitialState(threads, capacity, bufferSize), i);
  }

  // ---------- every available buffer is blank ----------

  ghost predicate ListIsBlank(s: State) {
    -1 <= s.last < |s.list| && Blank(AsPool(s))
  }

  lemma StepKeepsBlank(s: State, i: nat, a: Action)
    requires Inv(s) && i < |s.threads| && ListIsBlank(s)
    ensures ListIsBlank(Step(s, i, a))
  {
    StepExplained(s, i, a);
    hide Inv, Step, EventOf, FreeList, Owns;
    var e, s' := EventOf(s, i, a), Step(s, i, a);
    if e.WriteEvent? { OwnerLeavesRoom(s, i, e.b); }
    EventKeepsBlank(e, AsPool(s), AsPool(s'));
  }

  lemma EventKeepsBlank(e: PoolEvent, p: Pool, p': Pool)
    requires Explains(e, p, p') && Blank(p)
    requires e.WriteEvent? ==> e.b !in p.free
    ensures Blank(p')
  {
    forall b | b in p'.free ensures 0 <= b < p'.Capacity() && p'.contents[b] == seq(p'.bufferSize, _ => NUL) {
      match e
      case NoEvent =>
      case AllocEvent(_) => assert b in p.free;
      case FreeEvent(c) => if b != c { assert b in p.free; }
      case WriteEvent(_, _) => assert b in p.free;
    }
  }

  /** In every interleaving, at every moment, every available buffer is all NUL: no thread
      is ever given the bytes that another has left. */
  lemma {:induction false} RunKeepsBlank(s: State, schedule: seq<(nat, Action)>)
    requires Inv(s) && ListIsBlank(s)
    ensures ListIsBlank(Run(s, schedule))
  {
    hide Inv, Step, ListIsBlank;
    if schedule != [] {
      var n := |schedule| - 1;
      RunKeepsBlank(s, schedule[..n]);
      RunExplained(s, schedule[..n]);
      if schedule[n].0 < |s.threads| { StepKeepsBlank(Run(s, schedule[..n]), schedule[n].0, schedule[n].1); }
    }
  }

  lemma ThreadsShareBlankBuffers(threads: nat, capacity: nat, bufferSize: nat, schedule: seq<(nat, Action)>)
    ensures var s := Run(InitialState(threads, capacity, bufferSize), schedule);
      && Inv(s) && forall b :: b in FreeList(s) ==> 0 <= b < |s.contents| && s.contents[b] == seq(bufferSize, _ => NUL)
  {
    hide Inv, Run, FreeList;
    InitialInv(threads, capacity, bufferSize);
    RunKeepsBlank(InitialState(threads, capacity, bufferSize), schedule);
    RunExplained(InitialState(threads, capacity, bufferSize), schedule);
    RunKeepsSize(InitialState(threads, capacity, bufferSize), schedule);
  }

  lemma {:induction false} RunKeepsSize(s: State, schedule: seq<(nat, Action)>)
    requires Inv(s)
    ensures Run(s, schedule).bufferSize == s.bufferSize
  {
    hide Inv, Step, EventOf, Explains, Books;
    if schedule != [] {
      var n := |schedule| - 1;
      RunKeepsSize(s, schedule[..n]);
      RunExplained(s, schedule[..n]);
      if schedule[n].0 < |s.threads| { StepExplained(Run(s, schedule[..n]), schedule[n].0, schedule[n].1); }
    }
  }
}
