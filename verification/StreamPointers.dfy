/**
 Pointers (slot, offset) into a ring, read as positions in one flat byte stream.
 */
module StreamPointers {
  import opened IndexArithmetic
  import opened RingState

  datatype Option<T> = None | Some(value: T)

  datatype Ptr = Ptr(circIndex: int, buffPos: int)

  /** The bytes a slot holds: none after a failed read, which leaves a negative size. */
  function Len(s: Slot): nat {
    if s.size > 0 then s.size else 0
  }

  /** The stream position where slot j of the window starts, counted from its head. */
  function Start(w: seq<Slot>, j: nat): nat
    requires j <= |w|
  {
    if j == 0 then 0 else Start(w, j - 1) + Len(w[j - 1])
  }

  function Total(w: seq<Slot>): nat {
    Start(w, |w|)
  }

  /** No read into slots j to k failed; it may have got no bytes. */
  ghost predicate Unbroken(w: seq<Slot>, j: nat, k: nat) {
    forall m :: j <= m < k && m < |w| ==> w[m].size >= 0
  }

  /** p points into a live slot of r: at a byte, or at the end of the slot. */
  ghost predicate In(r: Ring, p: Ptr) {
    r.Shape() && r.Live(p.circIndex) && 0 <= p.buffPos <= r.dataSizes[p.circIndex]
  }

  /** The stream position of p. */
  function Position(r: Ring, p: Ptr): int
    requires r.Shape() && r.Live(p.circIndex)
  {
    Start(r.Window(), r.Steps(p.circIndex)) + p.buffPos
  }

  lemma AtSteps(r: Ring, i: nat)
    requires r.Shape() && i < |r.buffers|
    ensures r.At(r.Steps(i)) == i
    ensures r.Live(i) ==> r.Window()[r.Steps(i)] == Slot(r.buffers[i], r.dataSizes[i])
  {
  }

  lemma {:induction false} StartMonotone(w: seq<Slot>, j: nat, k: nat)
    requires j <= k <= |w|
    ensures Start(w, j) <= Start(w, k)
  {
    if j < k { StartMonotone(w, j, k - 1); }
  }

  lemma {:induction false} StartOfPrefix(v: seq<Slot>, w: seq<Slot>, j: nat)
    requires j <= |v| <= |w| && v == w[..|v|]
    ensures Start(w, j) == Start(v, j)
  {
    if j > 0 { StartOfPrefix(v, w, j - 1); }
  }

  lemma {:induction false} StartOfTail(w: seq<Slot>, j: nat)
    requires 0 < j <= |w|
    ensures Start(w[1..], j - 1) == Start(w, j) - Len(w[0])
  {
    if j > 1 { StartOfTail(w, j - 1); }
  }

  lemma PositionBounds(r: Ring, p: Ptr)
    requires In(r, p)
    ensures 0 <= Position(r, p) <= Total(r.Window())
    ensures Position(r, p) <= Start(r.Window(), r.Steps(p.circIndex) + 1)
  {
    var j := r.Steps(p.circIndex);
    AtSteps(r, p.circIndex);
    StartMonotone(r.Window(), 0, j);
    StartMonotone(r.Window(), j + 1, r.Count());
  }

  // ---------- where an addition and a subtraction land ----------

  /** q is n bytes after p, in the first slot from p on whose end reaches that far. */
  ghost predicate LandsForward(r: Ring, p: Ptr, n: int, q: Ptr) {
    && In(r, p) && In(r, q)
    && Position(r, q) == Position(r, p) + n
    && r.Steps(p.circIndex) <= r.Steps(q.circIndex)
    && (q.circIndex != p.circIndex ==> q.buffPos > 0)
  }

  /** q is n bytes before p, in the first slot from p back that starts that early. */
  ghost predicate LandsBack(r: Ring, p: Ptr, n: int, q: Ptr) {
    && In(r, p) && In(r, q)
    && Position(r, q) == Position(r, p) - n
    && r.Steps(q.circIndex) <= r.Steps(p.circIndex)
    && (q.circIndex != p.circIndex ==> q.buffPos < r.dataSizes[q.circIndex])
  }

  /** Two places in the window at the same position, in slots j < k, can only be the
      end of slot j and the start of slot k. */
  lemma SamePosition(r: Ring, p: Ptr, q: Ptr)
    requires In(r, p) && In(r, q)
    requires Position(r, p) == Position(r, q)
    requires r.Steps(p.circIndex) < r.Steps(q.circIndex)
    ensures p.buffPos == r.dataSizes[p.circIndex] && q.buffPos == 0
  {
    var j, k := r.Steps(p.circIndex), r.Steps(q.circIndex);
    AtSteps(r, p.circIndex);
    StartMonotone(r.Window(), j + 1, k);
  }

  lemma SameSteps(r: Ring, i: int, k: int)
    requires r.Shape() && r.Live(i) && r.Live(k) && r.Steps(i) == r.Steps(k)
    ensures i == k
  {
  }

  /** Both landings are determined: there is no second place to land. */
  lemma LandsForwardOnce(r: Ring, p: Ptr, n: nat, q: Ptr, q': Ptr)
    requires LandsForward(r, p, n, q) && LandsForward(r, p, n, q')
    ensures q == q'
  {
    if r.Steps(q.circIndex) < r.Steps(q'.circIndex) {
      SamePosition(r, q, q');
    } else if r.Steps(q'.circIndex) < r.Steps(q.circIndex) {
      SamePosition(r, q', q);
    } else {
      SameSteps(r, q.circIndex, q'.circIndex);
    }
  }

  lemma LandsBackOnce(r: Ring, p: Ptr, n: nat, q: Ptr, q': Ptr)
    requires LandsBack(r, p, n, q) && LandsBack(r, p, n, q')
    ensures q == q'
  {
    if r.Steps(q.circIndex) < r.Steps(q'.circIndex) {
      SamePosition(r, q, q');
    } else if r.Steps(q'.circIndex) < r.Steps(q.circIndex) {
      SamePosition(r, q', q);
    } else {
      SameSteps(r, q.circIndex, q'.circIndex);
    }
  }

  /** Subtracting what was added always returns to the same stream position; it
      returns to the same pointer exactly when that pointer was not at the end of its
      slot, or nothing was added. */
  lemma AddThenSubtract(r: Ring, p: Ptr, n: nat, q: Ptr, p': Ptr)
    requires LandsForward(r, p, n, q) && LandsBack(r, q, n, p')
    ensures Position(r, p') == Position(r, p)
    ensures p' == p <==> p.buffPos < r.dataSizes[p.circIndex] || n == 0
  {
    AtSteps(r, p.circIndex);
    AtSteps(r, p'.circIndex);
    var i, j, k := r.Steps(p.circIndex), r.Steps(q.circIndex), r.Steps(p'.circIndex);
    if k < i {
      SamePosition(r, p', p);
    } else if i < k {
      SamePosition(r, p, p');
      if n == 0 { StartMonotone(r.Window(), i + 1, j); }
    } else {
      SameSteps(r, p.circIndex, p'.circIndex);
    }
  }

  /** The other way round, the pointer comes back unless it was at the start of its
      slot and something was subtracted. */
  lemma SubtractThenAdd(r: Ring, p: Ptr, n: nat, q: Ptr, p': Ptr)
    requires LandsBack(r, p, n, q) && LandsForward(r, q, n, p')
    ensures Position(r, p') == Position(r, p)
    ensures p' == p <==> p.buffPos > 0 || n == 0
  {
    AtSteps(r, p.circIndex);
    AtSteps(r, p'.circIndex);
    var i, j, k := r.Steps(p.circIndex), r.Steps(q.circIndex), r.Steps(p'.circIndex);
    if k < i {
      SamePosition(r, p', p);
      if n == 0 { SamePosition(r, q, p); }
    } else if i < k {
      SamePosition(r, p, p');
    } else {
      SameSteps(r, p.circIndex, p'.circIndex);
    }
  }

  // ---------- distances as the code adds them up ----------

  /** What the negative sizes of failed reads take off a sum of sizes up to slot j. */
  function Lost(w: seq<Slot>, j: nat): nat
    requires j <= |w|
  {
    if j == 0 then 0 else Lost(w, j - 1) + (if w[j - 1].size < 0 then -w[j - 1].size else 0)
  }

  /** What failed reads take off the distance that the code adds up. */
  ghost function LostBetween(r: Ring, p: Ptr, q: Ptr): int
    requires r.Shape() && r.Live(p.circIndex) && r.Live(q.circIndex)
  {
    Lost(r.Window(), r.Steps(q.circIndex)) - Lost(r.Window(), r.Steps(p.circIndex))
  }

  /** Nothing is lost between two slots exactly when no read in between failed. */
  lemma {:induction false} LostNothing(w: seq<Slot>, j: nat, k: nat)
    requires j <= k <= |w|
    ensures Lost(w, j) <= Lost(w, k)
    ensures Lost(w, j) == Lost(w, k) <==> Unbroken(w, j, k)
  {
    if j < k { LostNothing(w, j, k - 1); }
  }

  /** From slot j back to the target position there is no slot whose read failed. */
  ghost predicate PassableBack(w: seq<Slot>, j: nat, target: int) {
    forall k :: 0 <= k < j && k < |w| && Start(w, k + 1) > target ==> w[k].size >= 0
  }

  // ---------- comparing pointers ----------

  function CmpCircularPtr(r: Ring, lhs: Ptr, rhs: Ptr): int {
    if lhs.circIndex == rhs.circIndex then lhs.buffPos - rhs.buffPos
    else
      var offset := if r.lastSent > r.next then |r.buffers| else 0;
      var l := if lhs.circIndex <= r.next then lhs.circIndex + offset else lhs.circIndex;
      var h := if rhs.circIndex <= r.next then rhs.circIndex + offset else rhs.circIndex;
      l - h
  }

  /** Between live slots, wrapped around or not, the sign of the comparison is the
      lexicographic order of (steps from the head, offset). */
  lemma CmpIsLexicographic(r: Ring, p: Ptr, q: Ptr)
    requires r.Shape() && r.Live(p.circIndex) && r.Live(q.circIndex)
    ensures var i, j := r.Steps(p.circIndex), r.Steps(q.circIndex);
      && (CmpCircularPtr(r, p, q) < 0 <==> i < j || (i == j && p.buffPos < q.buffPos))
      && (CmpCircularPtr(r, p, q) == 0 <==> p == q)
      && (CmpCircularPtr(r, p, q) > 0 <==> CmpCircularPtr(r, q, p) < 0)
  {
  }

  /** Both at once, for whatever pointers they are about. */
  lemma CmpMeans(r: Ring, p: Ptr, q: Ptr)
    requires r.Shape()
    ensures r.Live(p.circIndex) && r.Live(q.circIndex) ==>
      var i, j := r.Steps(p.circIndex), r.Steps(q.circIndex);
      && (CmpCircularPtr(r, p, q) < 0 <==> i < j || (i == j && p.buffPos < q.buffPos))
      && (CmpCircularPtr(r, p, q) == 0 <==> p == q)
    ensures In(r, p) && In(r, q) && CmpCircularPtr(r, p, q) < 0 ==> Position(r, p) <= Position(r, q)
  {
    hide Ring.Window, Position;
    if r.Live(p.circIndex) && r.Live(q.circIndex) {
      CmpIsLexicographic(r, p, q);
      if In(r, p) && In(r, q) { CmpFollowsTheStream(r, p, q); }
    }
  }

  /** It refines the order of the stream: a pointer further on in the stream compares
      greater, and one that compares less is not further on. */
  lemma CmpFollowsTheStream(r: Ring, p: Ptr, q: Ptr)
    requires In(r, p) && In(r, q)
    ensures Position(r, p) < Position(r, q) ==> CmpCircularPtr(r, p, q) < 0
    ensures CmpCircularPtr(r, p, q) < 0 ==> Position(r, p) <= Position(r, q)
  {
    CmpIsLexicographic(r, p, q);
    PositionsInOrder(r, p, q);
    PositionsInOrder(r, q, p);
  }

  lemma PositionsInOrder(r: Ring, p: Ptr, q: Ptr)
    requires In(r, p) && In(r, q)
    requires r.Steps(p.circIndex) != r.Steps(q.circIndex) || p.circIndex == q.circIndex
    ensures r.Steps(p.circIndex) < r.Steps(q.circIndex) ==> Position(r, p) <= Position(r, q)
  {
    AtSteps(r, p.circIndex);
    if r.Steps(p.circIndex) < r.Steps(q.circIndex) {
      StartMonotone(r.Window(), r.Steps(p.circIndex) + 1, r.Steps(q.circIndex));
    }
  }

  function CmpPtrToLastReceived(r: Ring, p: Ptr): int
    requires r.Shape()
  {
    var lastReceived := Dec(r.next, |r.buffers|);
    if lastReceived == p.circIndex then p.buffPos - r.dataSizes[lastReceived] + 1 else -1
  }

  /** p points at a received byte. */
  ghost predicate AtByte(r: Ring, p: Ptr) {
    In(r, p) && p.buffPos < r.dataSizes[p.circIndex]
  }

  /** The size of the slot received last. */
  function NewestSize(r: Ring): int
    requires r.Shape()
  {
    r.dataSizes[Dec(r.next, |r.buffers|)]
  }

  /** p is in the slot received last, and no byte of that slot comes after it. */
  ghost predicate NothingAfter(r: Ring, p: Ptr) {
    r.Shape() && p.circIndex == Dec(r.next, |r.buffers|) && p.buffPos >= NewestSize(r) - 1
  }

  lemma LastReceivedMeans(r: Ring, p: Ptr)
    requires r.Shape()
    ensures CmpPtrToLastReceived(r, p) >= 0 <==> NothingAfter(r, p)
    ensures AtByte(r, p) ==>
      && CmpPtrToLastReceived(r, p) <= 0
      && (CmpPtrToLastReceived(r, p) == 0 <==> NewestSize(r) > 0 && Position(r, p) == Total(r.Window()) - 1)
  {
    hide Ring.Window, Position, Total;
    if AtByte(r, p) { CmpToLastReceived(r, p); }
  }

  /** If the newest slot holds a byte, the result is 0 exactly at the last byte
      received, and negative before it. After a read that got nothing, or failed, it is
      negative everywhere, at the last byte too. */
  lemma CmpToLastReceived(r: Ring, p: Ptr)
    requires AtByte(r, p)
    ensures CmpPtrToLastReceived(r, p) <= 0
    ensures NewestSize(r) > 0 ==> (CmpPtrToLastReceived(r, p) == 0 <==> Position(r, p) == Total(r.Window()) - 1)
    ensures NewestSize(r) <= 0 ==> CmpPtrToLastReceived(r, p) < 0
  {
    var n, j := r.Count(), r.Steps(p.circIndex);
    AtSteps(r, p.circIndex);
    AtSteps(r, Dec(r.next, |r.buffers|));
    assert r.Steps(Dec(r.next, |r.buffers|)) == n - 1;
    if j < n - 1 {
      StartMonotone(r.Window(), j + 1, n - 1);
    } else {
      SameSteps(r, p.circIndex, Dec(r.next, |r.buffers|));
    }
  }
}
