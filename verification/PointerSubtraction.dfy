/**
 Moving a pointer back: the loop of op_sub_circ_pointer, exactly when it is right, and
 what it and op_add_circ_pointers undo of each other.
 */
module PointerSubtraction {
  import opened IndexArithmetic
  import opened RingState
  import opened StreamPointers
  import opened PointerAddition

  /** The loop, for at most fuel rounds, with left bytes still to go back from the start
      of slot idx: None when it has not stopped by then. */
  function SubRun(r: Ring, idx: nat, left: int, fuel: nat): Option<Ptr>
    requires r.Shape() && idx < |r.buffers|
    decreases fuel
  {
    if fuel == 0 then None
    else if left <= 0 then Some(Ptr(idx, -left))
    else
      var before := Dec(idx, |r.buffers|);
      SubRun(r, before, left - r.dataSizes[before], fuel - 1)
  }

  /** What op_sub_circ_pointer needs: as many bytes before p in the window, and no failed
      read on the way; and, for a negative number, as many after it in its slot. */
  ghost predicate CanSub(r: Ring, p: Ptr, ask: int) {
    && In(r, p) && p.buffPos - ask <= r.dataSizes[p.circIndex]
    && ask <= Position(r, p)
    && PassableBack(r.Window(), r.Steps(p.circIndex), Position(r, p) - ask)
  }

  /** The slots from p back to the head: as many rounds the loop makes before it leaves
      the live window. */
  function SlotsBehind(r: Ring, p: Ptr): nat
    requires r.Shape() && r.Live(p.circIndex)
  {
    r.Steps(p.circIndex) + 1
  }

  /** q is at the target position, in the first slot from j back that starts that early. */
  ghost predicate LandsBackAt(r: Ring, j: nat, target: int, q: Ptr) {
    && In(r, q) && j < |r.buffers|
    && Position(r, q) == target && r.Steps(q.circIndex) <= j
    && (q.circIndex != r.At(j) ==> q.buffPos < r.dataSizes[q.circIndex])
  }

  lemma SubRunStops(r: Ring, idx: nat, left: int, fuel: nat)
    requires r.Shape() && idx < |r.buffers| && fuel > 0 && left <= 0
    ensures SubRun(r, idx, left, fuel) == Some(Ptr(idx, -left))
  {
  }

  lemma SubRunOnce(r: Ring, idx: nat, left: int, fuel: nat)
    requires r.Shape() && idx < |r.buffers| && left > 0
    ensures var before := Dec(idx, |r.buffers|);
      && before < |r.buffers|
      && SubRun(r, idx, left, fuel)
         == if fuel == 0 then None else SubRun(r, before, left - r.dataSizes[before], fuel - 1)
  {
  }

  lemma AtPredecessor(r: Ring, j: nat)
    requires r.Shape() && 0 < j < r.Count()
    ensures Dec(r.At(j), |r.buffers|) == r.At(j - 1) && r.Window()[j - 1].size == r.dataSizes[r.At(j - 1)]
    ensures Start(r.Window(), j) == Start(r.Window(), j - 1) + Len(r.Window()[j - 1])
  {
  }

  /** With no failed read on the way the loop stops at the target position. */
  lemma {:induction false} SubRunReaches(r: Ring, j: nat, target: int, fuel: nat) returns (q: Ptr)
    requires r.Shape() && j < r.Count() && target >= 0 && fuel > j
    requires PassableBack(r.Window(), j, target) && target - Start(r.Window(), j) <= r.Window()[j].size
    ensures SubRun(r, r.At(j), Start(r.Window(), j) - target, fuel) == Some(q)
    ensures LandsBackAt(r, j, target, q)
    decreases j
  {
    hide Ring.Window, Start, SubRun, LandsBackAt, PassableBack;
    var left := Start(r.Window(), j) - target;
    if left <= 0 {
      SubRunStops(r, r.At(j), left, fuel);
      q := Ptr(r.At(j), -left);
      LandsBackHere(r, j, target);
    } else {
      HeadStart(r.Window(), j);
      AtPredecessor(r, j);
      SubRunOnce(r, r.At(j), left, fuel);
      PassableBackOne(r.Window(), j, target);
      q := SubRunReaches(r, j - 1, target, fuel - 1);
      LandsBackEarlier(r, j, target, q);
    }
  }

  lemma HeadStart(w: seq<Slot>, j: nat)
    requires j <= |w|
    ensures Start(w, j) > 0 ==> j > 0
  {
  }

  lemma PassableBackOne(w: seq<Slot>, j: nat, target: int)
    requires 0 < j <= |w| && Start(w, j) > target
    ensures PassableBack(w, j, target) <==> w[j - 1].size >= 0 && PassableBack(w, j - 1, target)
  {
    hide Start;
  }

  lemma LandsBackHere(r: Ring, j: nat, target: int)
    requires r.Shape() && j < r.Count() && 0 <= target - Start(r.Window(), j) <= r.Window()[j].size
    ensures LandsBackAt(r, j, target, Ptr(r.At(j), target - Start(r.Window(), j)))
  {
    hide Start;
  }

  lemma LandsBackEarlier(r: Ring, j: nat, target: int, q: Ptr)
    requires 0 < j && r.Shape() && j < r.Count() && LandsBackAt(r, j - 1, target, q) && Start(r.Window(), j) > target
    ensures LandsBackAt(r, j, target, q)
  {
    hide Ring.Window, Start;
    AtSteps(r, q.circIndex);
    if r.Steps(q.circIndex) == j - 1 {
      AtPredecessor(r, j);
    }
  }

  /** Once more is left than there is down to the target, the loop ends up before it. */
  lemma {:induction false} Undershoots(r: Ring, j: nat, target: int, left: int, fuel: nat, q: Ptr)
    requires r.Shape() && j < r.Count() && fuel <= j + 1 && left > Start(r.Window(), j) - target
    requires SubRun(r, r.At(j), left, fuel) == Some(q) && In(r, q)
    ensures Position(r, q) < target
    decreases fuel
  {
    hide Ring.Window, Start;
    if left > 0 {
      SubRunOnce(r, r.At(j), left, fuel);
      if j > 0 {
        AtPredecessor(r, j);
        Undershoots(r, j - 1, target, left - r.dataSizes[r.At(j - 1)], fuel - 1, q);
      }
    }
  }

  /** A loop that ends at the target has come over no failed read. */
  lemma {:induction false} RightBackOnlyIf(r: Ring, j: nat, target: int, fuel: nat, q: Ptr)
    requires r.Shape() && j < r.Count() && fuel <= j + 1
    requires SubRun(r, r.At(j), Start(r.Window(), j) - target, fuel) == Some(q)
    requires In(r, q) && Position(r, q) == target
    ensures PassableBack(r.Window(), j, target)
    decreases fuel
  {
    hide Ring.Window, Start, PassableBack;
    var w, left := r.Window(), Start(r.Window(), j) - target;
    if left <= 0 {
      NothingBehind(w, j, target);
    } else {
      SubRunOnce(r, r.At(j), left, fuel);
      if j > 0 {
        AtPredecessor(r, j);
        PassableBackOne(w, j, target);
        if w[j - 1].size < 0 {
          Undershoots(r, j - 1, target, left - w[j - 1].size, fuel - 1, q);
        } else {
          RightBackOnlyIf(r, j - 1, target, fuel - 1, q);
        }
      }
    }
  }

  lemma NothingBehind(w: seq<Slot>, j: nat, target: int)
    requires j <= |w| && Start(w, j) <= target
    ensures PassableBack(w, j, target)
  {
    hide Start;
    forall k | 0 <= k <= j ensures Start(w, k) <= target { StartMonotone(w, k, j); }
  }

  /** The loop stops within fuel rounds, ask bytes before p. */
  ghost predicate SubIsRight(r: Ring, p: Ptr, ask: int, fuel: nat)
    requires In(r, p)
  {
    match SubRun(r, p.circIndex, ask - p.buffPos, fuel)
    case None => false
    case Some(q) => In(r, q) && Position(r, q) == Position(r, p) - ask
  }

  lemma SubMovesBack(r: Ring, p: Ptr, ask: int, fuel: nat) returns (q: Ptr)
    requires CanSub(r, p, ask) && fuel >= SlotsBehind(r, p)
    ensures SubRun(r, p.circIndex, ask - p.buffPos, fuel) == Some(q) && LandsBack(r, p, ask, q)
  {
    hide Ring.Window, Start, SubRun, PassableBack;
    AtSteps(r, p.circIndex);
    q := SubRunReaches(r, r.Steps(p.circIndex), Position(r, p) - ask, fuel);
  }

  /** On any ring, failed reads or not, op_sub_circ_pointer stops ask bytes earlier without
      leaving the live window exactly when that many bytes are there, with no failed read
      on the way. */
  lemma SubIsRightIff(r: Ring, p: Ptr, ask: int)
    requires In(r, p)
    ensures SubIsRight(r, p, ask, SlotsBehind(r, p)) <==> CanSub(r, p, ask)
  {
    hide Ring.Window, Start, SubRun, PassableBack;
    var fuel, j, target := SlotsBehind(r, p), r.Steps(p.circIndex), Position(r, p) - ask;
    AtSteps(r, p.circIndex);
    if CanSub(r, p, ask) {
      var q := SubMovesBack(r, p, ask, fuel);
    } else if SubIsRight(r, p, ask, fuel) {
      var q := SubRun(r, p.circIndex, ask - p.buffPos, fuel).value;
      PositionBounds(r, q);
      if ask - p.buffPos <= 0 { SubRunStops(r, p.circIndex, ask - p.buffPos, fuel); }
      RightBackOnlyIf(r, j, target, fuel, q);
    }
  }

  // ---------- what one undoes of the other ----------

  /** After an addition of n bytes that many can be subtracted again. */
  lemma CanSubAfterAdd(r: Ring, p: Ptr, n: nat, q: Ptr)
    requires LandsForward(r, p, n, q) && Passable(r.Window(), r.Steps(p.circIndex), Position(r, p) + n)
    ensures CanSub(r, q, n)
  {
    hide Ring.Window, Start;
    var w, i, j := r.Window(), r.Steps(p.circIndex), r.Steps(q.circIndex);
    AtSteps(r, p.circIndex);
    AtSteps(r, q.circIndex);
    PositionBounds(r, p);
    forall k | 0 <= k < j && Start(w, k + 1) > Position(r, p) ensures w[k].size >= 0 {
      if k < i { StartMonotone(w, k + 1, i); }
      StartMonotone(w, k, j);
    }
  }

  /** After a subtraction of n bytes that many can be added again, and nothing is fed. */
  lemma CanAddAfterSub(l: Line, p: Ptr, n: nat, q: Ptr)
    requires Valid(l) && CanSub(l.ring, p, n) && LandsBack(l.ring, p, n, q)
    ensures CanAdd(l, q, n) && Position(l.ring, q) + n <= Total(l.ring.Window())
  {
    hide Sound, Ring.Window, Start, Loadable;
    var w, i, j := l.ring.Window(), l.ring.Steps(q.circIndex), l.ring.Steps(p.circIndex);
    AtSteps(l.ring, p.circIndex);
    AtSteps(l.ring, q.circIndex);
    PositionBounds(l.ring, p);
    StartAfter(l.ring, i);
    forall k | i < k < |w| && Start(w, k) < Position(l.ring, p) ensures w[k].size >= 0 {
      if k > j { StartMonotone(w, j + 1, k); }
      StartMonotone(w, i + 1, k + 1);
    }
  }

  /** op_add_circ_pointers and then op_sub_circ_pointer by the same number: both stop, at
      the same stream position, and back at p unless p is at the end of its slot. */
  lemma AddThenSub(l: Line, p: Ptr, n: nat) returns (l': Line, q: Ptr, p': Ptr)
    requires Valid(l) && CanAdd(l, p, n)
    ensures AddRun(l, p.circIndex, n + p.buffPos, SlotsAhead(l, p)) == Some((l', q)) && In(l'.ring, p) && In(l'.ring, q)
    ensures SubRun(l'.ring, q.circIndex, n - q.buffPos, SlotsBehind(l'.ring, q)) == Some(p') && In(l'.ring, p')
    ensures Position(l'.ring, p') == Position(l'.ring, p) == Position(l.ring, p)
    ensures p' == p <==> p.buffPos < l'.ring.dataSizes[p.circIndex] || n == 0
  {
    hide Sound, Ring.Window, Start, AddRun, SubRun, FewestFeeds, Passable, PassableBack;
    var f;
    f, l', q := AddMovesForward(l, p, n, SlotsAhead(l, p));
    StillThere(l, p, Position(l.ring, p) + n, f, l');
    CanSubAfterAdd(l'.ring, p, n, q);
    p' := SubMovesBack(l'.ring, q, n, SlotsBehind(l'.ring, q));
    AddThenSubtract(l'.ring, p, n, q, p');
  }

  /** The other way round: nothing is fed, and it leads back to p unless p is at the start
      of its slot. */
  lemma SubThenAdd(l: Line, p: Ptr, n: nat) returns (q: Ptr, p': Ptr)
    requires Valid(l) && CanSub(l.ring, p, n)
    ensures SubRun(l.ring, p.circIndex, n - p.buffPos, SlotsBehind(l.ring, p)) == Some(q) && In(l.ring, q)
    ensures AddRun(l, q.circIndex, n + q.buffPos, SlotsAhead(l, q)) == Some((l, p')) && In(l.ring, p')
    ensures Position(l.ring, p') == Position(l.ring, p)
    ensures p' == p <==> p.buffPos > 0 || n == 0
  {
    hide Sound, Ring.Window, Start, AddRun, SubRun, FewestFeeds, Passable, PassableBack;
    q := SubMovesBack(l.ring, p, n, SlotsBehind(l.ring, p));
    CanAddAfterSub(l, p, n, q);
    var f, l';
    f, l', p' := AddMovesForward(l, q, n, SlotsAhead(l, q));
    AlreadyThere(l, Position(l.ring, q) + n, f, l');
    SubtractThenAdd(l.ring, p, n, q, p');
  }
}
