/**
 * VectorizationInfo: the metadata store of the region vectorizer. It
 * records a vector shape per value and a predicate per block, the set of
 * divergent loops and the set of mandatory blocks, and it answers the shape
 * and region queries the rest of the vectorizer asks.
 */
module Vectorization {
  import opened Wrappers

  type Block = nat
  type LoopId = nat

  /**
   * The values the store tells apart: constants, instructions (with the
   * block they belong to) and every other value, such as a function argument.
   */
  datatype Value =
    | Constant(id: nat)
    | Instruction(id: nat, parent: Block)
    | Argument(index: nat)

  /** How a value varies across the lanes of a SIMD group. */
  datatype VectorShape = Uniform | Varying | Strided(stride: int) | Undefined

  /** A vectorization region: the blocks it contains and its entry block. */
  datatype Region = Region(blocks: set<Block>, regionEntry: Block)

  /** What the store needs of a function: the number of arguments and the first block. */
  datatype Function = Function(numArgs: nat, entry: Block)

  /** The scalar and vector function, the vector width and the argument and result shapes. */
  datatype VectorMapping = VectorMapping(
    scalarFn: Function,
    vectorFn: Function,
    vectorWidth: nat,
    argShapes: seq<VectorShape>,
    resultShape: VectorShape)

  /** A shape query on an in-region instruction that has no recorded shape. */
  datatype ShapeError = MissingShape

  class VectorizationInfo {
    var mapping: VectorMapping
    /** The region restriction; None stands for a null region (the whole function). */
    const region: Option<Region>
    /** The shape a constant's literal yields (VectorShape::fromConstant). */
    const fromConstant: nat -> VectorShape
    var shapes: map<Value, VectorShape>
    var predicates: map<Block, Value>
    var divergentLoops: set<LoopId>
    var mandatoryBlocks: set<Block>

    /** Exactly the first |argShapes| arguments have a recorded shape, the one argShapes gives. */
    ghost predicate ArgumentShapes(argShapes: seq<VectorShape>)
      reads this
    {
      && (forall v :: v in shapes <==> v.Argument? && v.index < |argShapes|)
      && (forall i :: 0 <= i < |argShapes| ==> shapes[Argument(i)] == argShapes[i])
    }

    /** The store for a region of parentFn: every argument is uniform. */
    constructor ForRegion(parentFn: Function, vectorWidth: nat, region: Region, fromConstant: nat -> VectorShape)
      ensures this.region == Some(region) && this.fromConstant == fromConstant
      ensures mapping.scalarFn == parentFn && mapping.vectorFn == parentFn && mapping.vectorWidth == vectorWidth
      ensures mapping.resultShape == Uniform
      ensures |mapping.argShapes| == parentFn.numArgs
      ensures forall i :: 0 <= i < |mapping.argShapes| ==> mapping.argShapes[i] == Uniform
      ensures ArgumentShapes(mapping.argShapes)
      ensures predicates == map[] && divergentLoops == {} && mandatoryBlocks == {}
    {
      this.region := Some(region);
      this.fromConstant := fromConstant;
      mapping := VectorMapping(parentFn, parentFn, vectorWidth, [], Uniform);
      shapes := map[];
      predicates := map[];
      divergentLoops := {};
      mandatoryBlocks := {};
      new;
      for i := 0 to parentFn.numArgs
        invariant mapping.scalarFn == parentFn && mapping.vectorFn == parentFn && mapping.vectorWidth == vectorWidth
        invariant mapping.resultShape == Uniform
        invariant |mapping.argShapes| == i
        invariant forall k :: 0 <= k < i ==> mapping.argShapes[k] == Uniform
        invariant ArgumentShapes(mapping.argShapes)
        invariant predicates == map[] && divergentLoops == {} && mandatoryBlocks == {}
      {
        mapping := mapping.(argShapes := mapping.argShapes + [Uniform]);
        SetVectorShape(Argument(i), Uniform);
      }
    }

    /** The store for a whole function: each argument gets the shape the mapping gives it. */
    constructor (mapping: VectorMapping, fromConstant: nat -> VectorShape)
      requires |mapping.argShapes| == mapping.scalarFn.numArgs
      ensures this.mapping == mapping && region == None && this.fromConstant == fromConstant
      ensures ArgumentShapes(mapping.argShapes)
      ensures predicates == map[] && divergentLoops == {} && mandatoryBlocks == {}
    {
      this.mapping := mapping;
      region := None;
      this.fromConstant := fromConstant;
      shapes := map[];
      predicates := map[];
      divergentLoops := {};
      mandatoryBlocks := {};
      new;
      var argShapes := mapping.argShapes;
      for i := 0 to |argShapes|
        invariant this.mapping == mapping
        invariant ArgumentShapes(argShapes[..i])
        invariant predicates == map[] && divergentLoops == {} && mandatoryBlocks == {}
      {
        SetVectorShape(Argument(i), argShapes[i]);
      }
      assert argShapes[..|argShapes|] == argShapes;
    }

    // -------------------------------------------------------------------
    // Region
    // -------------------------------------------------------------------

    /** A block is in the region when there is no region or the region contains it. */
    predicate InRegion(block: Block)
      reads this
      ensures region.None? ==> InRegion(block)
    {
      region.None? || block in region.value.blocks
    }

    /** The instruction overload: decided by the instruction's parent block. */
    predicate InRegionInst(inst: Value)
      reads this
      requires inst.Instruction?
      ensures InRegionInst(inst) <==> InRegion(inst.parent)
    {
      region.None? || inst.parent in region.value.blocks
    }

    /** The region's entry, or the first block of the scalar function when there is no region. */
    function GetEntry(): (entry: Block)
      reads this
      ensures region.Some? ==> entry == region.value.regionEntry
      ensures region.None? ==> entry == mapping.scalarFn.entry
    {
      if region.Some? then region.value.regionEntry else mapping.scalarFn.entry
    }

    // -------------------------------------------------------------------
    // Shapes
    // -------------------------------------------------------------------

    /** Whether the store can give v a shape: only an in-region instruction without a record has none. */
    predicate HasKnownShape(v: Value)
      reads this
      ensures !HasKnownShape(v) ==> v.Instruction? && v !in shapes && InRegion(v.parent)
    {
      // explicit shape annotations take precedence
      if v in shapes then true
      // an in-region instruction must have an explicit shape
      else if v.Instruction? && InRegionInst(v) then false
      // out-of-region values default to uniform
      else true
    }

    /** The shape of v, or MissingShape for an in-region instruction without a record. */
    function GetVectorShape(v: Value): (r: Result<VectorShape, ShapeError>)
      reads this
      ensures r.Err? ==> v.Instruction? && v !in shapes && InRegion(v.parent)
      ensures v in shapes && !v.Constant? ==> r == Ok(shapes[v])
    {
      if v.Constant? then Ok(fromConstant(v.id))
      else if v in shapes then Ok(shapes[v])
      else if !v.Instruction? || !InRegionInst(v) then Ok(Uniform)
      else Err(MissingShape)
    }

    /**
     * The order in which a shape query is resolved: a constant's literal,
     * even over a recorded shape; then the recorded shape; then uniform for
     * a value that is not an in-region instruction; otherwise the query fails.
     */
    lemma ShapeResolutionOrder(v: Value)
      ensures v.Constant? ==> GetVectorShape(v) == Ok(fromConstant(v.id))
      ensures !v.Constant? && v in shapes ==> GetVectorShape(v) == Ok(shapes[v])
      ensures !v.Constant? && v !in shapes && !(v.Instruction? && InRegion(v.parent)) ==>
                GetVectorShape(v) == Ok(Uniform)
      ensures !v.Constant? && v !in shapes && v.Instruction? && InRegion(v.parent) ==>
                GetVectorShape(v) == Err(MissingShape)
    {
    }

    /** A shape is known exactly when the shape query does not fail. */
    lemma KnownShapeIffResolves(v: Value)
      ensures HasKnownShape(v) <==> GetVectorShape(v).Ok?
      ensures HasKnownShape(v) <==> v in shapes || !(v.Instruction? && InRegion(v.parent))
    {
    }

    method SetVectorShape(v: Value, shape: VectorShape)
      modifies this`shapes
      ensures shapes == old(shapes)[v := shape]
      ensures !v.Constant? ==> GetVectorShape(v) == Ok(shape)
      ensures HasKnownShape(v)
      ensures forall u :: u != v ==> GetVectorShape(u) == old(GetVectorShape(u))
    {
      shapes := shapes[v := shape];
    }

    method DropVectorShape(v: Value)
      modifies this`shapes
      ensures shapes == old(shapes) - {v}
      ensures v !in old(shapes) ==> shapes == old(shapes)
      ensures forall u :: u != v ==> GetVectorShape(u) == old(GetVectorShape(u))
      ensures HasKnownShape(v) <==> !(v.Instruction? && InRegion(v.parent))
    {
      if v !in shapes {
        return;
      }
      shapes := shapes - {v};
    }

    // -------------------------------------------------------------------
    // Predicates
    // -------------------------------------------------------------------

    /** The block's predicate, or None (a null pointer) when it has none. */
    function GetPredicate(block: Block): (p: Option<Value>)
      reads this
      ensures p.Some? <==> block in predicates
      ensures p.Some? ==> p.value == predicates[block]
    {
      if block !in predicates then None else Some(predicates[block])
    }

    method SetPredicate(block: Block, pred: Value)
      modifies this`predicates
      ensures predicates == old(predicates)[block := pred]
      ensures GetPredicate(block) == Some(pred)
      ensures forall b :: b != block ==> GetPredicate(b) == old(GetPredicate(b))
    {
      predicates := predicates[block := pred];
    }

    method DropPredicate(block: Block)
      modifies this`predicates
      ensures predicates == old(predicates) - {block}
      ensures block !in old(predicates) ==> predicates == old(predicates)
      ensures GetPredicate(block) == None
      ensures forall b :: b != block ==> GetPredicate(b) == old(GetPredicate(b))
    {
      if block !in predicates {
        return;
      }
      predicates := predicates - {block};
    }

    /** Every block whose predicate is oldPred gets dest instead; no block gains or loses a predicate. */
    method RemapPredicate(dest: Value, oldPred: Value)
      modifies this`predicates
      ensures predicates.Keys == old(predicates).Keys
      ensures forall b :: b in predicates ==>
        predicates[b] == if old(predicates)[b] == oldPred then dest else old(predicates)[b]
    {
      var todo := predicates.Keys;
      while todo != {}
        invariant todo <= predicates.Keys
        invariant predicates.Keys == old(predicates).Keys
        invariant forall b :: b in predicates ==>
          predicates[b] == if b in todo || old(predicates)[b] != oldPred then old(predicates)[b] else dest
        decreases todo
      {
        var b :| b in todo;
        todo := todo - {b};
        if predicates[b] == oldPred {
          predicates := predicates[b := dest];
        }
      }
    }

    // -------------------------------------------------------------------
    // Divergent loops
    // -------------------------------------------------------------------

    /** Removes the loop from the divergent set, whichever way toUniform points. */
    method SetLoopDivergence(loop: LoopId, toUniform: bool)
      modifies this`divergentLoops
      ensures divergentLoops == old(divergentLoops) - {loop}
      ensures !IsDivergentLoop(loop)
    {
      divergentLoops := divergentLoops - {loop};
    }

    method SetDivergentLoop(loop: LoopId)
      modifies this`divergentLoops
      ensures divergentLoops == old(divergentLoops) + {loop}
      ensures IsDivergentLoop(loop)
    {
      divergentLoops := divergentLoops + {loop};
    }

    predicate IsDivergentLoop(loop: LoopId)
      reads this
    {
      loop in divergentLoops
    }

    /**
     * A divergent loop whose parent (given by the loop nest, None for a
     * top-level loop) is absent or not divergent.
     */
    predicate IsDivergentLoopTopLevel(loop: LoopId, parent: Option<LoopId>)
      reads this
      ensures IsDivergentLoopTopLevel(loop, parent) <==>
        loop in divergentLoops && (parent == None || parent.value !in divergentLoops)
    {
      IsDivergentLoop(loop) && (parent.None? || !IsDivergentLoop(parent.value))
    }

    // -------------------------------------------------------------------
    // Mandatory blocks
    // -------------------------------------------------------------------

    method MarkMandatory(block: Block)
      modifies this`mandatoryBlocks
      ensures mandatoryBlocks == old(mandatoryBlocks) + {block}
      ensures old(mandatoryBlocks) <= mandatoryBlocks
      ensures IsMandatory(block) && !IsKillExit(block)
    {
      mandatoryBlocks := mandatoryBlocks + {block};
    }

    predicate IsMandatory(block: Block)
      reads this
    {
      block in mandatoryBlocks
    }

    /** A kill exit is a block that is not mandatory. */
    predicate IsKillExit(block: Block)
      reads this
      ensures IsKillExit(block) <==> block !in mandatoryBlocks
    {
      !IsMandatory(block)
    }
  }
}
