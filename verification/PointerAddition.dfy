/**
 Moving a pointer forward, loading data on the way: the loop of
 op_add_circ_pointers, what it reaches, and exactly when it is right.
 */
module PointerAddition {
  import opened IndexArithmetic
  import opened BufferPool
  import opened RingState
  import opened StreamPointers

  /** The loop, for at most fuel rounds: None when it has not stopped by then. A
      failed feed is ignored, as the source ignores it. */
  function AddRun(l: Line, idx: nat, remainder: int, fuel: nat): Option<(Line, Ptr)>
    requires Valid(l) && idx < |l.ring.buffers|
    decreases fuel
  {
    if fuel == 0 then None
    else
      var rest := remainder - l.ring.dataSizes[idx];
      if rest <= 0 then Some((l, Ptr(idx, rest + l.ring.dataSizes[idx])))
      else
        FeedKeepsValid(l);
        var l' := if Inc(idx, |l.ring.buffers|) == l.ring.next then Feed(l).0 else l;
        AddRun(l', Inc(idx, |l.ring.buffers|), rest, fuel - 1)
  }

  lemma FeedKeepsValid(l: Line)
    requires Valid(l)
    ensures Valid(Feed(l).0) && Feed(l).0.ring.size == l.ring.size && Feed(l).0.ring.lastSent == l.ring.lastSent
  {
    if Room(l) == 0 {
      FeedFails(l);
    } else {
      FeedSucceeds(l);
      FedIsValid(l);
    }
  }

  /** n feeds in a row. */
  ghost function FeedTimes(l: Line, n: nat): (r: Line)
    requires Valid(l)
    ensures Valid(r)
    decreases n
  {
    hide Sound, Feed;
    if n == 0 then l
    else
      FeedKeepsValid(l);
      FeedTimes(Feed(l).0, n - 1)
  }

  /** What the next n reads of a source add up to, before the first that fails. */
  function Loadable(source: seq<Delivery>, maxSize: nat, n: nat): nat
    decreases n
  {
    if n == 0 || FeedData(source, maxSize).0 < 0 then 0
    else FeedData(source, maxSize).0 + Loadable(FeedData(source, maxSize).2, maxSize, n - 1)
  }

  /** The bytes that are live, plus those that fit in the slots and buffers left. */
  function Reachable(l: Line): nat
    requires l.ring.Shape()
  {
    Total(l.ring.Window()) + Loadable(l.source, l.ring.maxSize, Room(l))
  }

  /** None of the next n reads fails. */
  ghost predicate SucceedsFor(source: seq<Delivery>, maxSize: nat, n: nat)
    decreases n
  {
    n == 0 || (FeedData(source, maxSize).0 >= 0 && SucceedsFor(FeedData(source, maxSize).2, maxSize, n - 1))
  }

  /** From slot j to the target position there is no slot whose read failed. */
  ghost predicate Passable(w: seq<Slot>, j: nat, target: int) {
    j < |w| ==> w[j].size >= 0 && forall k :: j < k < |w| && Start(w, k) < target ==> w[k].size >= 0
  }

  lemma FedWindow(l: Line)
    requires Valid(l) && Room(l) > 0
    ensures l.ring.Window() <= Fed(l).ring.Window() && |Fed(l).ring.Window()| == l.ring.Count() + 1
    ensures forall j :: 0 <= j <= l.ring.Count() ==> Start(Fed(l).ring.Window(), j) == Start(l.ring.Window(), j)
    ensures Fed(l).ring.Window()[l.ring.Count()].size == FeedData(l.source, l.ring.maxSize).0
    ensures FeedData(l.source, l.ring.maxSize).0 >= 0 ==> Reachable(Fed(l)) == Reachable(l)
  {
    hide Sound, Fed, FeedData, Alloc;
    FedIsValid(l);
    FedKeepsLedger(l);
    FedSource(l);
    var v, w := l.ring.Window(), Fed(l).ring.Window();
    assert w[..|v|] == v;
    forall j | 0 <= j <= |v| ensures Start(w, j) == Start(v, j) { StartOfPrefix(v, w, j); }
  }

  lemma FedSource(l: Line)
    requires Valid(l) && Room(l) > 0
    ensures Fed(l).source == FeedData(l.source, l.ring.maxSize).2 && Fed(l).ring.maxSize == l.ring.maxSize
    ensures Fed(l).ring.size == l.ring.size && Fed(l).ring.lastSent == l.ring.lastSent
  {
    hide Sound, FeedData;
  }

  lemma AtSuccessor(r: Ring, j: nat)
    requires r.Shape() && j < r.Count()
    ensures Inc(r.At(j), |r.buffers|) == r.next <==> j + 1 == r.Count()
    ensures j + 1 < |r.buffers| && Inc(r.At(j), |r.buffers|) == r.At(j + 1)
  {
  }

  /** Started in slot j of the window, the loop stops within fuel rounds, with q. */
  ghost predicate Stops(l: Line, j: nat, target: int, fuel: nat, l': Line, q: Ptr) {
    && Valid(l) && j < |l.ring.buffers| && j <= l.ring.Count()
    && AddRun(l, l.ring.At(j), target - Start(l.ring.Window(), j), fuel) == Some((l', q))
  }

  lemma StopsHere(l: Line, j: nat, target: int, fuel: nat)
    requires Valid(l) && j < l.ring.Count() && fuel > 0
    requires target <= Start(l.ring.Window(), j + 1) && l.ring.Window()[j].size >= 0
    ensures Stops(l, j, target, fuel, l, Ptr(l.ring.At(j), target - Start(l.ring.Window(), j)))
  {
    hide Sound, Feed, Ring.Window, Start;
    StartAfter(l.ring, j);
  }

  lemma AddRunOnce(l: Line, idx: nat, remainder: int, fuel: nat)
    requires Valid(l) && idx < |l.ring.buffers| && fuel > 0
    requires remainder > l.ring.dataSizes[idx]
    ensures
      var l' := if Inc(idx, |l.ring.buffers|) == l.ring.next then Feed(l).0 else l;
      && Valid(l') && l'.ring.size == l.ring.size
      && AddRun(l, idx, remainder, fuel)
         == AddRun(l', Inc(idx, |l.ring.buffers|), remainder - l.ring.dataSizes[idx], fuel - 1)
  {
    hide Feed, Sound;
    FeedKeepsValid(l);
  }

  /** One more round: on to the next slot, which is fed first if it is not live. */
  lemma StopsLater(l: Line, j: nat, target: int, fuel: nat, l1: Line, l': Line, q: Ptr)
    requires Valid(l) && j < l.ring.Count() && fuel > 0
    requires target > Start(l.ring.Window(), j + 1) && l.ring.Window()[j].size >= 0
    requires l1 == if j + 1 == l.ring.Count() then Feed(l).0 else l
    requires Valid(l1) && l1.ring.size == l.ring.size && l1.ring.lastSent == l.ring.lastSent
    requires j + 1 <= l1.ring.Count() && Start(l1.ring.Window(), j + 1) == Start(l.ring.Window(), j + 1)
    requires Stops(l1, j + 1, target, fuel - 1, l', q)
    ensures Stops(l, j, target, fuel, l', q)
  {
    hide Feed, Ring.Window, Start, Ledger, Ring.SizesOk, Pool.Valid, AddRun;
    StartAfter(l.ring, j);
    AtSuccessor(l.ring, j);
    AddRunOnce(l, l.ring.At(j), target - Start(l.ring.Window(), j), fuel);
    assert l1.ring.At(j + 1) == l.ring.At(j + 1);
  }

  lemma StartAfter(r: Ring, j: nat)
    requires r.Shape() && j < r.Count()
    ensures r.Window()[j].size == r.dataSizes[r.At(j)]
    ensures Start(r.Window(), j + 1) == Start(r.Window(), j) + Len(r.Window()[j])
  {
  }

  /** q is at the target position of r, in the first slot from j on whose end reaches
      it. */
  ghost predicate LandsAt(r: Ring, j: nat, target: int, q: Ptr) {
    && In(r, q) && j < |r.buffers|
    && Position(r, q) == target && r.Steps(q.circIndex) >= j
    && (q.circIndex != r.At(j) ==> q.buffPos > 0)
  }

  /** l' is l fed f times, and no fewer feeds would have made the target live. */
  ghost predicate FewestFeeds(l: Line, target: int, f: nat, l': Line) {
    && Valid(l) && Valid(l')
    && l' == FeedTimes(l, f)
    && (forall g :: 0 <= g < f ==> Total(FeedTimes(l, g).ring.Window()) < target)
    && l.ring.Window() <= l'.ring.Window()
  }

  lemma LandsHere(r: Ring, j: nat, target: int)
    requires r.Shape() && j < r.Count()
    requires Start(r.Window(), j) <= target <= Start(r.Window(), j + 1) && r.Window()[j].size >= 0
    ensures LandsAt(r, j, target, Ptr(r.At(j), target - Start(r.Window(), j)))
  {
    hide Ring.Window;
    StartAfter(r, j);
  }

  /** Landing from slot j + 1 on, past its start, is landing from slot j on. */
  lemma LandsLater(r: Ring, j: nat, target: int, q: Ptr)
    requires LandsAt(r, j + 1, target, q) && j + 1 < r.Count()
    requires Start(r.Window(), j + 1) < target
    ensures LandsAt(r, j, target, q)
  {
    hide Ring.Window;
    AtSteps(r, q.circIndex);
  }

  lemma NoFeed(l: Line, target: int)
    requires Valid(l)
    ensures FewestFeeds(l, target, 0, l)
  {
    hide Sound;
  }

  lemma OneMoreFeed(l: Line, target: int, f: nat, l': Line)
    requires Valid(l) && Room(l) > 0 && FewestFeeds(Fed(l), target, f, l')
    requires Total(l.ring.Window()) < target
    ensures FewestFeeds(l, target, f + 1, l')
  {
    hide Sound, Fed, Feed, Start, Ring.Window, FeedTimes;
    FeedSucceeds(l);
    FedWindow(l);
    FeedTimesSplit(l, f);
    forall g | 0 <= g < f + 1 ensures Total(FeedTimes(l, g).ring.Window()) < target {
      FeedTimesSplit(l, g);
    }
  }

  lemma FeedTimesSplit(l: Line, f: nat)
    requires Valid(l)
    ensures Valid(Feed(l).0) && FeedTimes(l, f + 1) == FeedTimes(Feed(l).0, f)
    ensures FeedTimes(l, f) == if f == 0 then l else FeedTimes(Feed(l).0, f - 1)
  {
    hide Sound, Feed;
    FeedKeepsValid(l);
  }

  /** l' is l after n feeds. */
  ghost predicate FedBy(l: Line, n: nat, l': Line) {
    Valid(l) && l' == FeedTimes(l, n)
  }

  lemma FedOnce(l: Line)
    requires Valid(l)
    ensures FedBy(l, 0, l) && FedBy(l, 1, Feed(l).0)
  {
    hide Sound, Feed;
    FeedTimesSplit(l, 0);
  }

  lemma {:induction false} FedByMore(l: Line, m: nat, l': Line, n: nat, l'': Line)
    requires FedBy(l, m, l') && FedBy(l', n, l'')
    ensures FedBy(l, m + n, l'')
    decreases m
  {
    hide Sound, Feed;
    if m > 0 {
      FeedTimesSplit(l, m - 1);
      FeedTimesSplit(l, m + n - 1);
      FedByMore(Feed(l).0, m - 1, l', n, l'');
    }
  }

  /** The fed line still has the old slots in place. */
  lemma {:induction false} FeedTimesKeepsHead(l: Line, n: nat)
    requires Valid(l)
    ensures FeedTimes(l, n).ring.size == l.ring.size && FeedTimes(l, n).ring.lastSent == l.ring.lastSent
    decreases n
  {
    hide Sound, Feed;
    if n > 0 {
      FeedKeepsValid(l);
      FeedTimesKeepsHead(Feed(l).0, n - 1);
    }
  }

  /** If enough bytes can be loaded, the loop stops, at the target position, after the
      fewest feeds that do. */
  lemma {:induction false} AddRunReaches(l: Line, j: nat, target: int, fuel: nat) returns (f: nat, l': Line, q: Ptr)
    requires Valid(l) && j < l.ring.Count() && Passable(l.ring.Window(), j, target)
    requires Start(l.ring.Window(), j) <= target <= Reachable(l)
    requires fuel >= l.ring.Count() + Room(l) - j
    ensures Stops(l, j, target, fuel, l', q)
    ensures FewestFeeds(l, target, f, l') && LandsAt(l'.ring, j, target, q)
    ensures Passable(l'.ring.Window(), j, target)
    decreases l.ring.Count() + Room(l) - j
  {
    hide AddRun, Feed, Fed, Stops, Ring.Window, Sound, FewestFeeds, LandsAt;
    var w := l.ring.Window();
    if target <= Start(w, j + 1) {
      f, l', q := 0, l, Ptr(l.ring.At(j), target - Start(w, j));
      StopsHere(l, j, target, fuel);
      NoFeed(l, target);
      LandsHere(l.ring, j, target);
    } else {
      var l1 := l;
      if j + 1 == l.ring.Count() {
        l1 := Fed(l);
        FeedSucceeds(l);
        FedWindow(l);
        FedSource(l);
        FedIsValid(l);
      }
      assert l1.ring.size == l.ring.size && l1.ring.lastSent == l.ring.lastSent;
      assert Start(l1.ring.Window(), j + 1) == Start(w, j + 1) && Passable(l1.ring.Window(), j + 1, target);
      assert j + 1 == l.ring.Count() ==> Total(w) < target;
      f, l', q := AddRunReaches(l1, j + 1, target, fuel - 1);
      StopsLater(l, j, target, fuel, l1, l', q);
      StartKept(l1, j + 1, target, f, l', q);
      LandsLater(l'.ring, j, target, q);
      PassableBefore(l1, j, target, f, l');
      if j + 1 == l.ring.Count() {
        OneMoreFeed(l, target, f, l');
        f := f + 1;
      }
    }
  }

  lemma PassableBefore(l: Line, j: nat, target: int, f: nat, l': Line)
    requires FewestFeeds(l, target, f, l') && j + 1 < l.ring.Count()
    requires l.ring.Window()[j].size >= 0 && Passable(l'.ring.Window(), j + 1, target)
    ensures Passable(l'.ring.Window(), j, target)
  {
    hide Sound, Ring.Window, Start, FeedTimes;
  }

  lemma StartKept(l: Line, j: nat, target: int, f: nat, l': Line, q: Ptr)
    requires FewestFeeds(l, target, f, l') && j <= l.ring.Count() && LandsAt(l'.ring, j, target, q)
    ensures j < l'.ring.Count() && Start(l'.ring.Window(), j) == Start(l.ring.Window(), j)
  {
    hide Ring.Window, Sound, Start, Total, FeedTimes;
    StartOfPrefix(l.ring.Window(), l'.ring.Window(), j);
  }

  // ---------- op_add_circ_pointers as a whole ----------

  /** What op_add_circ_pointers needs: no failed read on the way, and enough bytes that
      are live or can be loaded before one fails. */
  ghost predicate CanAdd(l: Line, p: Ptr, ask: int) {
    && In(l.ring, p) && p.buffPos + ask >= 0
    && Passable(l.ring.Window(), l.ring.Steps(p.circIndex), Position(l.ring, p) + ask)
    && Position(l.ring, p) + ask <= Reachable(l)
  }

  /** The number of slots from p on that are live or can still be fed: as many rounds the
      loop makes before it comes once around. */
  function SlotsAhead(l: Line, p: Ptr): nat
    requires l.ring.Shape() && l.ring.Live(p.circIndex)
  {
    l.ring.Count() + Room(l) - l.ring.Steps(p.circIndex)
  }

  /** Enough bytes can be loaded before a read fails: the pointer moves by exactly ask,
      loading no more than it must, and the old pointer keeps its position. */
  lemma AddMovesForward(l: Line, p: Ptr, ask: int, fuel: nat) returns (f: nat, l': Line, q: Ptr)
    requires Valid(l) && CanAdd(l, p, ask) && fuel >= SlotsAhead(l, p)
    ensures AddRun(l, p.circIndex, ask + p.buffPos, fuel) == Some((l', q))
    ensures FewestFeeds(l, Position(l.ring, p) + ask, f, l')
    ensures LandsForward(l'.ring, p, ask, q) && Position(l'.ring, p) == Position(l.ring, p)
    ensures Passable(l'.ring.Window(), l'.ring.Steps(p.circIndex), Position(l.ring, p) + ask)
  {
    hide Sound, AddRun, Ring.Window, FewestFeeds, Passable;
    var j := l.ring.Steps(p.circIndex);
    AtSteps(l.ring, p.circIndex);
    PassableFrom(l, p, ask);
    f, l', q := AddRunReaches(l, j, Position(l.ring, p) + ask, fuel);
    StillThere(l, p, Position(l.ring, p) + ask, f, l');
  }

  lemma PassableFrom(l: Line, p: Ptr, ask: int)
    requires Valid(l) && CanAdd(l, p, ask)
    ensures Passable(l.ring.Window(), l.ring.Steps(p.circIndex), Position(l.ring, p) + ask)
  {
    hide Passable;
  }

  /** Feeding leaves every pointer where it was. */
  lemma StillThere(l: Line, p: Ptr, target: int, f: nat, l': Line)
    requires FewestFeeds(l, target, f, l') && In(l.ring, p)
    ensures In(l'.ring, p) && Position(l'.ring, p) == Position(l.ring, p)
    ensures l'.ring.Steps(p.circIndex) == l.ring.Steps(p.circIndex)
    ensures l'.ring.At(l.ring.Steps(p.circIndex)) == p.circIndex
  {
    hide Sound, FeedTimes, Start;
    FeedTimesKeepsHead(l, f);
    var j, v, w := l.ring.Steps(p.circIndex), l.ring.Window(), l'.ring.Window();
    StartOfPrefix(v, w, j);
    AtSteps(l.ring, p.circIndex);
    AtSteps(l'.ring, p.circIndex);
    assert w[j] == v[j];
  }

  /** A target that is live needs no feed. */
  lemma AlreadyThere(l: Line, target: int, f: nat, l': Line)
    requires FewestFeeds(l, target, f, l') && target <= Total(l.ring.Window())
    ensures l' == l
  {
    hide Sound, Ring.Window;
    assert FeedTimes(l, 0) == l;
  }

  /** The loop stops within fuel rounds, ask bytes after p. */
  ghost predicate AddIsRight(l: Line, p: Ptr, ask: int, fuel: nat)
    requires Valid(l) && In(l.ring, p)
  {
    match AddRun(l, p.circIndex, ask + p.buffPos, fuel)
    case None => false
    case Some((l', q)) => In(l'.ring, q) && Position(l'.ring, q) == Position(l.ring, p) + ask
  }

  /** On any ring and any source, failed reads or not, op_add_circ_pointers stops ask bytes
      further, without going once around the ring, exactly when there is no failed read on
      the way and enough bytes are live or can be loaded before one fails. */
  lemma AddIsRightIff(l: Line, p: Ptr, ask: int)
    requires Valid(l) && In(l.ring, p)
    ensures AddIsRight(l, p, ask, SlotsAhead(l, p)) <==> CanAdd(l, p, ask)
  {
    hide Sound, AddRun, Ring.Window, FewestFeeds, Passable, Start;
    var fuel, j, target := SlotsAhead(l, p), l.ring.Steps(p.circIndex), Position(l.ring, p) + ask;
    AtSteps(l.ring, p.circIndex);
    if CanAdd(l, p, ask) {
      var f, l', q := AddMovesForward(l, p, ask, fuel);
    } else if AddIsRight(l, p, ask, fuel) {
      var (l', q) := AddRun(l, p.circIndex, ask + p.buffPos, fuel).value;
      if p.buffPos + ask < 0 {
        AddRunStops(l, p.circIndex, ask + p.buffPos, fuel);
      } else {
        RightOnlyIf(l, j, target, fuel, l', q);
      }
    }
  }

  lemma AddRunStops(l: Line, idx: nat, remainder: int, fuel: nat)
    requires Valid(l) && idx < |l.ring.buffers| && fuel > 0 && remainder <= l.ring.dataSizes[idx]
    ensures AddRun(l, idx, remainder, fuel) == Some((l, Ptr(idx, remainder)))
  {
  }

  /** The line after one round that goes on to the next slot, fed if need be. */
  ghost function FedIfLast(l: Line, j: nat): Line
    requires Valid(l)
  {
    if j + 1 == l.ring.Count() then Feed(l).0 else l
  }

  /** One round that goes on: unless there is nothing left to feed, and then the fuel is
      used up, slot j + 1 is live after it, and the slots before it are what they were. */
  lemma NextRound(l: Line, j: nat, remainder: int, fuel: nat)
    requires Valid(l) && j < l.ring.Count() && 0 < fuel <= l.ring.Count() + Room(l) - j
    requires remainder > l.ring.dataSizes[l.ring.At(j)]
    requires AddRun(l, l.ring.At(j), remainder, fuel).Some?
    ensures var l1 := FedIfLast(l, j);
      && Valid(l1) && j + 1 < l1.ring.Count() && 0 < fuel - 1 <= l1.ring.Count() + Room(l1) - (j + 1)
      && l.ring.Window() <= l1.ring.Window() && Start(l1.ring.Window(), j + 1) == Start(l.ring.Window(), j + 1)
      && AddRun(l, l.ring.At(j), remainder, fuel)
         == AddRun(l1, l1.ring.At(j + 1), remainder - l.ring.dataSizes[l.ring.At(j)], fuel - 1)
    ensures j + 1 == l.ring.Count() ==>
      && Room(l) > 0 && FedIfLast(l, j) == Fed(l)
  {
    hide Sound, Feed, Fed, Ring.Window, Start, AddRun;
    AtSuccessor(l.ring, j);
    AddRunOnce(l, l.ring.At(j), remainder, fuel);
    var l1 := FedIfLast(l, j);
    if j + 1 == l.ring.Count() {
      if Room(l) == 0 {
        FeedFails(l);
        NoFuel(l1, l1.ring.At(j + 1), remainder - l.ring.dataSizes[l.ring.At(j)]);
      } else {
        FeedSucceeds(l);
        FedWindow(l);
        FedSource(l);
        FedIsValid(l);
        SomeFuel(l1, l1.ring.At(j + 1), remainder - l.ring.dataSizes[l.ring.At(j)], fuel - 1);
      }
    } else {
      SomeFuel(l1, l1.ring.At(j + 1), remainder - l.ring.dataSizes[l.ring.At(j)], fuel - 1);
    }
  }

  lemma NoFuel(l: Line, idx: nat, remainder: int)
    requires Valid(l) && idx < |l.ring.buffers|
    ensures AddRun(l, idx, remainder, 0) == None
  {
  }

  lemma SomeFuel(l: Line, idx: nat, remainder: int, fuel: nat)
    requires Valid(l) && idx < |l.ring.buffers| && AddRun(l, idx, remainder, fuel).Some?
    ensures fuel > 0
  {
  }

  /** Once more is asked for than there is up to the target, the loop ends up past it. */
  lemma {:induction false} Overshoots(l: Line, j: nat, target: int, remainder: int, fuel: nat, l': Line, q: Ptr)
    requires Valid(l) && j < l.ring.Count() && fuel <= l.ring.Count() + Room(l) - j
    requires remainder > target - Start(l.ring.Window(), j)
    requires AddRun(l, l.ring.At(j), remainder, fuel) == Some((l', q)) && In(l'.ring, q)
    ensures Position(l'.ring, q) > target
    decreases fuel
  {
    hide Sound, Feed, Fed, Ring.Window, Start, AddRun;
    SomeFuel(l, l.ring.At(j), remainder, fuel);
    StartAfter(l.ring, j);
    if remainder <= l.ring.dataSizes[l.ring.At(j)] {
      AddRunStops(l, l.ring.At(j), remainder, fuel);
    } else {
      NextRound(l, j, remainder, fuel);
      Overshoots(FedIfLast(l, j), j + 1, target, remainder - l.ring.dataSizes[l.ring.At(j)], fuel - 1, l', q);
    }
  }

  /** A loop that ends at the target has come over no failed read, and there were enough
      bytes. */
  lemma {:induction false} RightOnlyIf(l: Line, j: nat, target: int, fuel: nat, l': Line, q: Ptr)
    requires Valid(l) && j < l.ring.Count() && fuel <= l.ring.Count() + Room(l) - j
    requires Start(l.ring.Window(), j) <= target
    requires target > Start(l.ring.Window(), j) || l.ring.Window()[j].size >= 0
    requires Stops(l, j, target, fuel, l', q) && In(l'.ring, q) && Position(l'.ring, q) == target
    ensures Passable(l.ring.Window(), j, target) && target <= Reachable(l)
    decreases fuel
  {
    hide Sound, Feed, Fed, Ring.Window, Start, AddRun, Passable, Loadable;
    var w, remainder := l.ring.Window(), target - Start(l.ring.Window(), j);
    SomeFuel(l, l.ring.At(j), remainder, fuel);
    StartAfter(l.ring, j);
    if remainder <= w[j].size {
      NothingOnTheWay(w, j, target);
    } else {
      NextRound(l, j, remainder, fuel);
      var l1 := FedIfLast(l, j);
      if w[j].size < 0 {
        Overshoots(l1, j + 1, target, remainder - w[j].size, fuel - 1, l', q);
      } else {
        RightOnlyIf(l1, j + 1, target, fuel - 1, l', q);
        PassableEarlier(w, l1.ring.Window(), j, target);
        if j + 1 == l.ring.Count() { FedWindow(l); }
      }
    }
  }

  lemma NothingOnTheWay(w: seq<Slot>, j: nat, target: int)
    requires j < |w| && w[j].size >= 0 && target <= Start(w, j) + w[j].size
    ensures Passable(w, j, target) && target <= Total(w)
  {
    hide Start;
    assert Start(w, j + 1) == Start(w, j) + Len(w[j]) by { StartOneMore(w, j); }
    forall k | j < k <= |w| ensures Start(w, k) >= target { StartMonotone(w, j + 1, k); }
  }

  lemma StartOneMore(w: seq<Slot>, j: nat)
    requires j < |w|
    ensures Start(w, j + 1) == Start(w, j) + Len(w[j])
  {
  }

  lemma PassableEarlier(v: seq<Slot>, w: seq<Slot>, j: nat, target: int)
    requires j < |v| && v <= w && v[j].size >= 0 && j + 1 < |w| && Passable(w, j + 1, target)
    ensures Passable(v, j, target) && w[j + 1].size >= 0
  {
    hide Start;
    forall k | j < k < |v| ensures Start(w, k) == Start(v, k) && v[k] == w[k] { StartOfPrefix(v, w, k); }
  }

  /** When no read fails, going around the ring does not help: the loop stops ask bytes
      further, sooner or later, exactly when that many bytes are live or can be loaded. */
  lemma AddIsEverRightIff(l: Line, p: Ptr, ask: nat)
    requires Valid(l) && In(l.ring, p) && Unbroken(l.ring.Window(), l.ring.Steps(p.circIndex), l.ring.Count())
    requires SucceedsFor(l.source, l.ring.maxSize, Room(l))
    ensures (exists fuel: nat :: AddIsRight(l, p, ask, fuel)) <==> Position(l.ring, p) + ask <= Reachable(l)
  {
    hide Sound, AddRun, Ring.Window, FewestFeeds, Start, Loadable;
    if Position(l.ring, p) + ask <= Reachable(l) {
      var f, l', q := AddMovesForward(l, p, ask, SlotsAhead(l, p));
      assert AddIsRight(l, p, ask, SlotsAhead(l, p));
    }
    if fuel: nat :| AddIsRight(l, p, ask, fuel) {
      var (l', q) := AddRun(l, p.circIndex, ask + p.buffPos, fuel).value;
      AddRunKeepsReachable(l, p.circIndex, ask + p.buffPos, fuel);
      PositionBounds(l'.ring, q);
    }
  }

  /** Whatever the loop does, right or wrong, it cannot make more bytes reachable. */
  lemma {:induction false} AddRunKeepsReachable(l: Line, idx: nat, remainder: int, fuel: nat)
    requires Valid(l) && idx < |l.ring.buffers| && SucceedsFor(l.source, l.ring.maxSize, Room(l))
    ensures AddRun(l, idx, remainder, fuel).Some? ==>
      var l' := AddRun(l, idx, remainder, fuel).value.0;
      Valid(l') && Reachable(l') == Reachable(l)
    decreases fuel
  {
    hide Sound, Feed, Fed, Ring.Window, FeedData;
    if fuel > 0 && remainder > l.ring.dataSizes[idx] {
      var l1 := if Inc(idx, |l.ring.buffers|) == l.ring.next then Feed(l).0 else l;
      FeedKeepsValid(l);
      if Room(l) == 0 {
        FeedFails(l);
      } else {
        FeedSucceeds(l);
        FedWindow(l);
        FedSource(l);
        FedIsValid(l);
      }
      AddRunKeepsReachable(l1, Inc(idx, |l.ring.buffers|), remainder - l.ring.dataSizes[idx], fuel - 1);
    }
  }

  /** What happens otherwise: with one full slot of 3 bytes in a ring of two, asking
      for 5 bytes ignores the failed feed, runs through the empty slot (whose size is
      -1) and once around the ring, and stops 3 bytes after the start. */
  lemma AddLapsWhenDry()
    ensures
      var l := Line(Pool(3, [], ["abc"]), Ring(1, [0, -1], [3, -1], 0, 1, 3), []);
      Valid(l) && AddRun(l, 0, 5 + 0, 3) == Some((l, Ptr(0, 3)))
  {
    var l := Line(Pool(3, [], ["abc"]), Ring(1, [0, -1], [3, -1], 0, 1, 3), []);
    assert Pow2(1) == 2;
    assert l.ring.Window() == [Slot(0, 3)];
    assert Buffers([Slot(0, 3)]) == Buffers([]) + multiset{0};
    assert Valid(l);
    assert Room(l) == 0;
    FeedFails(l);
    assert AddRun(l, 0, 3, 1) == Some((l, Ptr(0, 3)));
    assert AddRun(l, 1, 2, 2) == AddRun(l, 0, 3, 1);
    assert AddRun(l, 0, 5, 3) == AddRun(l, 1, 2, 2);
  }

  /** What AddIsRightIff leaves out, going once around: asked for 5 bytes over a failed
      read the loop stops at byte 11; but asked for 10 it laps the ring and, the negative
      size counted twice, stops at byte 10 by accident. */
  lemma AddPastAFailedRead()
    ensures var l := BrokenLine();
      && Valid(l) && Reachable(l) == 13
      && AddRun(l, 0, 5, 3) == Some((l, Ptr(2, 8))) && Position(l.ring, Ptr(2, 8)) == 11
      && AddRun(l, 0, 10, 7) == Some((l, Ptr(2, 7))) && Position(l.ring, Ptr(2, 7)) == 10
  {
    var l := BrokenLine();
    BrokenLineIsValid();
    assert Position(l.ring, Ptr(2, 8)) == Start(l.ring.Window(), 2) + 8;
    hide Sound;
    FeedFails(l);
    hide Feed, Ring.Window;
    assert AddRun(l, 2, 8, 1) == Some((l, Ptr(2, 8)));
    assert AddRun(l, 1, 2, 2) == AddRun(l, 2, 8, 1);
    assert AddRun(l, 2, 7, 1) == Some((l, Ptr(2, 7)));
    assert AddRun(l, 1, 1, 2) == AddRun(l, 2, 7, 1);
    assert AddRun(l, 0, 4, 3) == AddRun(l, 1, 1, 2);
    assert AddRun(l, 3, 3, 4) == AddRun(l, 0, 4, 3);
    assert AddRun(l, 2, 13, 5) == AddRun(l, 3, 3, 4);
    assert AddRun(l, 1, 7, 6) == AddRun(l, 2, 13, 5);
  }

  /** A full ring of 3 bytes, a read that failed with -6, and 10 bytes. */
  function BrokenLine(): Line {
    Line(Pool(10, [], [Zeros(10), Zeros(10), Zeros(10)]), Ring(2, [0, 1, 2, -1], [3, -6, 10, -1], 0, 3, 10), [])
  }

  function BrokenWindow(): seq<Slot> {
    [Slot(0, 3), Slot(1, -6), Slot(2, 10)]
  }

  lemma BrokenLineIsValid()
    ensures Valid(BrokenLine()) && Room(BrokenLine()) == 0
    ensures BrokenLine().ring.Window() == BrokenWindow()
    ensures Start(BrokenWindow(), 2) == 3 && Total(BrokenWindow()) == 13
  {
    hide Buffers;
    BrokenBuffers();
    var l := BrokenLine();
    assert Pow2(1) == 2 && Pow2(2) == 4;
    assert l.ring.Window() == BrokenWindow();
    assert Start(BrokenWindow(), 1) == 3 && Start(BrokenWindow(), 2) == 3;
    assert multiset(l.pool.free) == multiset{};
  }

  lemma BrokenBuffers()
    ensures Buffers(BrokenWindow()) == multiset{0, 1, 2}
  {
    BuffersOfSnoc([], Slot(0, 3));
    BuffersOfSnoc([Slot(0, 3)], Slot(1, -6));
    BuffersOfSnoc([Slot(0, 3), Slot(1, -6)], Slot(2, 10));
    assert [] + [Slot(0, 3)] == [Slot(0, 3)];
    assert [Slot(0, 3)] + [Slot(1, -6)] == [Slot(0, 3), Slot(1, -6)];
    assert [Slot(0, 3), Slot(1, -6)] + [Slot(2, 10)] == BrokenWindow();
  }
}
