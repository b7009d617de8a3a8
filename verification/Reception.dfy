/**
 Messages that arrive with a header block in their first delivery: when a run of reads
 leaves the decoder something that it can decode.
 */
module Reception {
  import opened BufferPool
  import opened RingState
  import opened StreamPointers
  import opened ManyRings
  import opened FanOut
  import opened HttpHeaderDecoder
  import opened HeaderText

  /** From cur on, ring j holds a block that the decoder can make sense of, in one slot. */
  ghost predicate CanDecode(w: World, j: nat, cur: Ptr, data: string) {
    && WorldValid(w) && j < |w.channels|
    && Holds(Refilled(LineOf(w, j), cur), cur.circIndex, data)
    && 0 <= cur.buffPos <= |data| && BlockFields(data[cur.buffPos..]).Some?
  }

  ghost predicate CanDecodeAfter(w: World, j: nat, readCount: nat, cur: Ptr, data: string) {
    && WorldValid(w) && j < |w.channels| && AllInRange(w, ReadOps(j, readCount))
    && CanDecode(Run(w, ReadOps(j, readCount)), j, cur, data)
  }

  /** The header of ring j is decoded, from w on, and the decoder stands at cur': it has
      read what it had to, and no more. */
  ghost predicate DecodedTo(w: World, j: nat, cur: Ptr, data: string, cur': Ptr, w': World) {
    && CanDecode(w, j, cur, data) && |w'.channels| == |w.channels|
    && cur'.circIndex == cur.circIndex && 0 <= cur'.buffPos <= |data|
    && data[cur'.buffPos..] == BlockRest(data[cur.buffPos..])
    && IsTested(Refilled(LineOf(w, j), cur), cur.circIndex, data, cur'.buffPos, LineOf(w', j))
    && (cur'.buffPos + 2 <= |data| ==> LineOf(w', j) == Refilled(LineOf(w, j), cur))
  }

  lemma {:induction false} ReadsKeepHolds(w: World, j: nat, readCount: nat, i: int, data: string)
    requires WorldValid(w) && j < |w.channels| && Holds(LineOf(w, j), i, data)
    ensures AllInRange(w, ReadOps(j, readCount)) && WorldValid(Run(w, ReadOps(j, readCount)))
    ensures |Run(w, ReadOps(j, readCount)).channels| == |w.channels|
    ensures Holds(LineOf(Run(w, ReadOps(j, readCount)), j), i, data)
    decreases readCount
  {
    hide WorldValid, Feed, Step, Holds;
    assert AllInRange(w, ReadOps(j, readCount));
    if readCount > 0 {
      LineIsValid(w, j);
      StepKeepsWorld(w, ReadOp(j));
      StepIsLocal(w, ReadOp(j));
      FeedHolds(LineOf(w, j), i, data);
      assert ReadOps(j, readCount)[1..] == ReadOps(j, readCount - 1);
      ReadsKeepHolds(Step(w, ReadOp(j)), j, readCount - 1, i, data);
    }
  }

  /** The first delivery to an empty ring with room fills its next slot. */
  lemma FirstDeliveryHolds(l: Line, data: string, later: seq<Delivery>)
    requires Valid(l) && l.ring.IsEmpty() && Room(l) > 0
    requires l.source == [Chunk(data)] + later && |data| <= l.ring.maxSize
    ensures Holds(Feed(l).0, l.ring.next, data)
  {
    hide Ledger, AllBuffers, Buffers, Ring.SizesOk, Ring.Window;
    FeedSucceeds(l);
    FedIsValid(l);
    AllocatedIsOwned(l);
    PushedWindow(l.ring, Alloc(l.pool).1, |data|);
  }

  /** A rendered block in the first delivery to an empty ring can be decoded after any
      number of reads, whatever they bring. */
  lemma RenderedCanBeDecoded(w: World, j: nat, readCount: nat, first: string, eol: string, lines: seq<HeaderLine>,
                             blank: string, rest: string, later: seq<Delivery>)
    requires WorldValid(w) && j < |w.channels| && w.channels[j].ring.IsEmpty() && Room(LineOf(w, j)) > 0
    requires first != [] && OneLine(first) && IsEol(eol) && IsEol(blank)
    requires forall l :: l in lines ==> Renderable(l)
    requires |Block(first, eol, lines, blank, rest)| <= w.channels[j].ring.maxSize && readCount > 0
    requires w.channels[j].source == [Chunk(Block(first, eol, lines, blank, rest))] + later
    ensures CanDecodeAfter(w, j, readCount, Ptr(w.channels[j].ring.next, 0), Block(first, eol, lines, blank, rest))
  {
    hide WorldValid, Holds, Refilled, Feed, Step, Block, BlockFields, Renderable, OneLine, IsEol;
    var data, i := Block(first, eol, lines, blank, rest), w.channels[j].ring.next;
    LineIsValid(w, j);
    FirstDeliveryHolds(LineOf(w, j), data, later);
    StepKeepsWorld(w, ReadOp(j));
    StepIsLocal(w, ReadOp(j));
    assert AllInRange(w, ReadOps(j, readCount)) && ReadOps(j, readCount)[1..] == ReadOps(j, readCount - 1);
    ReadsKeepHolds(Step(w, ReadOp(j)), j, readCount - 1, i, data);
    var w' := Run(w, ReadOps(j, readCount));
    RefillHolds(LineOf(w', j), Ptr(i, 0), data);
    BlockIsRead(first, eol, lines, blank, rest);
    assert data[0..] == data;
  }
}
