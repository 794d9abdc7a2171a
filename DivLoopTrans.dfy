/**
 * The per-loop state of the divergent-loop transformation: a session is
 * created for a loop that is confirmed divergent and collects the blocks
 * and trackers the transformation introduces for it.
 */
module DivLoopTrans {
  import opened Wrappers
  import Vectorization

  type Block = nat

  /** A phi node, by identity. */
  type Phi = nat

  /**
   * The three phi placeholders of a tracker: the kill-exit live-out wrapper
   * and the divergent live-out tracker (both at the header) and the divergent
   * live-out updater (at the pure latch). None stands for a null pointer.
   */
  datatype TrackerDesc = TrackerDesc(wrapPhi: Option<Phi>, trackerPhi: Option<Phi>, updatePhi: Option<Phi>)

  /** TrackerDesc's default constructor: a tracker with none of its phis yet. */
  function EmptyTrackerDesc(): (desc: TrackerDesc)
    ensures desc.wrapPhi == None && desc.trackerPhi == None && desc.updatePhi == None
  {
    TrackerDesc(None, None, None)
  }

  class TransformSession {
    /** The loop under transformation and its header (from the loop structure). */
    const loop: Vectorization.LoopId
    const header: Block

    var testHead: Option<Block>
    var offsetHead: Option<Block>
    /** None while the latch is not pure (yet). */
    var pureLatch: Option<Block>
    /** When there is a pure latch, its unique predecessor. */
    var oldLatch: Option<Block>

    var liveMaskDesc: TrackerDesc
    /** The exit tracker of each exit block of the loop. */
    var exitDescs: map<Block, TrackerDesc>
    /** The tracker of each live-out value. */
    var liveOutDescs: map<Vectorization.Value, TrackerDesc>

    var numKillExits: nat

    /**
     * The latch invariant over the CFG's predecessor lists: a pure latch
     * has exactly one predecessor, and that predecessor is oldLatch.
     */
    ghost predicate LatchInvariant(preds: map<Block, seq<Block>>)
      reads this
    {
      pureLatch.Some? ==> oldLatch.Some? && pureLatch.value in preds && preds[pureLatch.value] == [oldLatch.value]
    }

    constructor (loop: Vectorization.LoopId, header: Block)
      ensures this.loop == loop && this.header == header
      ensures testHead == None && offsetHead == None && pureLatch == None && oldLatch == None
      ensures liveMaskDesc == EmptyTrackerDesc()
      ensures exitDescs == map[] && liveOutDescs == map[]
      ensures numKillExits == 0
      ensures forall preds :: LatchInvariant(preds)
    {
      this.loop := loop;
      this.header := header;
      testHead := None;
      offsetHead := None;
      pureLatch := None;
      oldLatch := None;
      liveMaskDesc := EmptyTrackerDesc();
      exitDescs := map[];
      liveOutDescs := map[];
      numKillExits := 0;
    }

    /** Trackers of an exit through the header are booked on the offset header instead. */
    function RemapExitingBlock(exitingBlock: Block): (b: Option<Block>)
      reads this
      ensures exitingBlock == header ==> b == offsetHead
      ensures exitingBlock != header ==> b == Some(exitingBlock)
    {
      if exitingBlock == header then offsetHead else Some(exitingBlock)
    }

    /** The tracker of v, created empty when v has none; an existing tracker is never replaced. */
    method RequestTrackerDesc(v: Vectorization.Value) returns (desc: TrackerDesc)
      modifies this`liveOutDescs
      ensures v in old(liveOutDescs) ==> liveOutDescs == old(liveOutDescs) && desc == old(liveOutDescs)[v]
      ensures v !in old(liveOutDescs) ==>
        liveOutDescs == old(liveOutDescs)[v := EmptyTrackerDesc()] && desc == EmptyTrackerDesc()
      ensures old(liveOutDescs).Keys <= liveOutDescs.Keys
      ensures v in liveOutDescs && GetTrackerDesc(v) == desc
      ensures forall preds :: old(LatchInvariant(preds)) ==> LatchInvariant(preds)
    {
      if v !in liveOutDescs {
        liveOutDescs := liveOutDescs[v := EmptyTrackerDesc()];
      }
      desc := liveOutDescs[v];
    }

    /** The asserting getter: v must already have a tracker. */
    function GetTrackerDesc(v: Vectorization.Value): (desc: TrackerDesc)
      reads this
      requires v in liveOutDescs
      ensures desc == liveOutDescs[v]
    {
      liveOutDescs[v]
    }
  }
}
