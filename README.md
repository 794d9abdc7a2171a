# Divergence machinery of the Region Vectorizer, in Dafny

This project is a Dafny model of the parts of the Region Vectorizer (RV) that decide which control decisions
can diverge across SIMD lanes, and of the bookkeeping around them. It covers:

- **Branch-dependence analysis** (`BranchDependence.dfy`).
  - Blocks are the numbers `0 .. n-1` of a function. The analysis is given the CFG's predecessor and
    successor lists, a terminator kind per block, and the control-dependence graph (CDG) and dominance
    frontier graph (DFG) as predecessor relations.
  - It computes each block's reflexive post-dominance closure (over CDG predecessors) and dominance
    closure (over DFG predecessors).
  - For every join block `z` it computes the set of branch blocks that make `z` depend on a divergent
    branch. This uses the early "x reaches y" rule, then a disjoint-path test on the candidates common
    to both predecessors' closures.
  - It walks the loop forest: any loop exit edge aborts the analysis, as an `UnimplementedTopology`
    error.
  - It inverts the result into a table from each conditional branch or switch to the joins it affects.
- **VectorizationInfo** (`Vectorization.dfy`). A class with the store's maps and sets: vector shapes
  per value, predicates per block, divergent loops and mandatory blocks. It also holds the optional
  region, the region and shape queries (in their resolution order), and the setters and droppers.
- **Divergent-loop transform session** (`DivLoopTrans.dfy`). The tracker triple, a session's initial
  state, `remapExitingBlock`, `requestTrackerDesc` / `getTrackerDesc`, and the pure-latch invariant.
- **Memory access grouping** (`Native.dfy`).
  - `MemoryGroup` holds address expressions in lane-sized slots. Its `insert` has three branches:
    empty group, grow-and-write, and shift-and-prepend.
  - `MemoryAccessGrouper.add` is a first-match scan over the groups.
  - `getConstantOffset` classifies the difference of two addresses.
- **Loop annotations** (`LoopAnnotations.dfy`). The `Optional<T>` container, `iter_t`,
  `ParallelDistance` and `LoopMD`.

`Wrappers.dfy` holds `Option` and `Result`.

How the model is shaped:

- Null pointers are `None`.
- Two failing checks of the source are `Err` values: a missing shape (`MissingShape`) and the loop-exit abort
  (`UnimplementedTopology`). The source's unchecked out-of-bounds write in `MemoryGroup::insert`, which is
  undefined behaviour rather than a detected failure, is modelled as `Err(OutOfBoundsWrite)`. The other
  asserts of the core are preconditions or types; they are listed under "## Left out".
- `VectorizationInfo`, `TransformSession`, `MemoryGroup`, `MemoryAccessGrouper`, `Optional` and `LoopMD` are
  classes, with `modifies` clauses on the methods that update their fields in place.
- The branch-dependence analysis is modelled on values: `Analyze` returns its closure maps and table as an
  `Analysis` value, and the set helpers (`MergeIn`, `IntersectAndMerge`, `Subtract`, the closure DFS) return
  new sets where the source updates `ConstBlockSet &` arguments. No caller aliases those arguments.
- ScalarEvolution's difference of two addresses is a function-valued field of the grouper, whose result
  is classified by the `Difference` datatype.
- `VectorShape::fromConstant` is a function-valued field of the store.
- Everything the source reads from LLVM is an input: the CFG, the CDG and DFG, the loop forest, the
  dominator tree and the loop header.

RV's intended rule for divergent loop exits and the code differ, and the model follows the code:

- Intended: each loop exit's phi block inherits the branch-dependence set already computed for it, so
  values leaving a loop through a divergent exit become divergent.
- In the code, `addDivergenceInducingExits` asserts and aborts
  (`src/analysis/BranchDependenceAnalysis.cpp:358-362`).
- So `Analyze` fails exactly when some loop of the forest has an exit edge.

## Model

| member | source | states |
|---|---|---|
| BranchDependence.Intersect | src/analysis/BranchDependenceAnalysis.cpp:35-45 | The result is exactly the common elements of the two sets. |
| BranchDependence.MergeIn | src/analysis/BranchDependenceAnalysis.cpp:47-49 | The updated set is the union of the old set and `other`. |
| BranchDependence.IntersectAndMerge | src/analysis/BranchDependenceAnalysis.cpp:51-58 | `accu` gains `a ∩ b` and keeps its prior contents. |
| BranchDependence.Subtract | src/analysis/BranchDependenceAnalysis.cpp:60-65 | Every element of `b` is removed from `a`, and nothing else. |
| BranchDependence.GetDomRegion | src/analysis/BranchDependenceAnalysis.cpp:75-81 | The region gains exactly the blocks of the dominator subtree rooted at the node. |
| BranchDependence.Closure | src/analysis/BranchDependenceAnalysis.cpp:330-355 | The DFS only grows `closure`. It adds nothing for a block without a node. Every added block is reached by one or more predecessor steps, and its own predecessors are already in the result. |
| BranchDependence.FreshClosureExact | src/analysis/BranchDependenceAnalysis.cpp:330-342 | A result closed under predecessors and made only of reached blocks is exactly the reachable set. |
| BranchDependence.ComputePostDomClosure | src/analysis/BranchDependenceAnalysis.cpp:330-342 | Started empty, the result is exactly the blocks reachable by one or more CDG-predecessor steps. It is unchanged for a block without a CDG node. |
| BranchDependence.ComputeDomClosure | src/analysis/BranchDependenceAnalysis.cpp:344-355 | Started empty, the result is exactly the blocks reachable by one or more DFG-predecessor steps. It is unchanged for a block without a DFG node. |
| BranchDependence.ComputeClosureMaps | src/analysis/BranchDependenceAnalysis.cpp:95-111 | Both maps have exactly the function's blocks as keys. Each block's entry holds the block itself plus everything it reaches. |
| BranchDependence.ClosuresReflexive | src/analysis/BranchDependenceAnalysis.cpp:101-102 | Every block's closure contains the block. |
| BranchDependence.ClosureWithinBlocks | src/analysis/BranchDependenceAnalysis.cpp:97-110 | Closures contain only blocks of the function. |
| BranchDependence.DisjointPathExists | src/analysis/BranchDependenceAnalysis.cpp:172-190 | The flag is set iff two successors, at different positions and different from each other, both have `z` in their dominance closure. |
| BranchDependence.AddDisjointCandidates | src/analysis/BranchDependenceAnalysis.cpp:165-231 | The set gains exactly the candidates that pass the disjoint-path test. Candidates already present are skipped without changing the outcome. |
| BranchDependence.AddPairContribution | src/analysis/BranchDependenceAnalysis.cpp:145-232 | One predecessor pair adds the early-rule block plus the candidates of `pd(x) ∩ pd(y)` that pass the test. |
| BranchDependence.AddRow | src/analysis/BranchDependenceAnalysis.cpp:141-233 | The pass for predecessor `x` at position `i` adds, to the set built so far, the contributions of the pairs `(x, y)` for every `y` at a position below `i`. |
| BranchDependence.JoinBranchBlocks | src/analysis/BranchDependenceAnalysis.cpp:138-236 | `z`'s set is the union over all predecessor-position pairs `j < i` of the pair contributions. |
| BranchDependence.ComputeInverseMap | src/analysis/BranchDependenceAnalysis.cpp:133-236 | Every block of the function gets exactly its join set, and no other key exists. |
| BranchDependence.JoinSetMembership | src/analysis/BranchDependenceAnalysis.cpp:141-232 | iff: a block is in `z`'s set exactly when some pair `j < i` adds it, either by the early rule or because it lies in both closures and passes the disjoint-path test. |
| BranchDependence.EarlyRuleAdds | src/analysis/BranchDependenceAnalysis.cpp:151-160 | If `x ∈ pd(y)`, `x` is added. Otherwise, if `y ∈ pd(x)`, `y` is added. |
| BranchDependence.JoinSetWitness | src/analysis/BranchDependenceAnalysis.cpp:138-235 | Every member lies in `pd(x) ∩ pd(y)` for two distinct predecessor positions. A block with fewer than two predecessors gets `{}`. |
| BranchDependence.JoinSetWithinBlocks | src/analysis/BranchDependenceAnalysis.cpp:141-166 | Join sets contain only blocks of the function. |
| BranchDependence.NestHasExitEdgeAppend | src/analysis/BranchDependenceAnalysis.cpp:250-259 | A loop stack has an exit edge iff one of its two parts has. |
| BranchDependence.AddDivergenceInducingExits | src/analysis/BranchDependenceAnalysis.cpp:358-362 | Always fails with `UnimplementedTopology`. |
| BranchDependence.TaintLoopExits | src/analysis/BranchDependenceAnalysis.cpp:249-269 | It fails iff some loop of the forest, at any depth, has an exit edge. Otherwise the inverse map is unchanged. |
| BranchDependence.InvertOne | src/analysis/BranchDependenceAnalysis.cpp:274-283 | The table gains `phiBlock` for exactly the blocks of its set that end in a conditional branch or a switch. |
| BranchDependence.InvertToEffectedBlocks | src/analysis/BranchDependenceAnalysis.cpp:272-284 | `z ∈ table[a]` iff `a ∈ inverseMap[z]` and `a` ends in a conditional branch or a switch. No entry is empty. |
| BranchDependence.EffectedTableMeaning | src/analysis/BranchDependenceAnalysis.cpp:236-284 | An inversion of the complete inverse map relates `a` to `z` exactly when `a` is in `z`'s join set and ends in a conditional branch or a switch. |
| BranchDependence.Analyze | src/analysis/BranchDependenceAnalysis.cpp:83-284 | It fails iff a loop has an exit edge. Otherwise both closure maps are exact, and `z ∈ table[a]` iff `a` is in `z`'s join set and ends in a diverging terminator. |
| BranchDependence.GetEffectedBlocks | src/analysis/BranchDependenceAnalysis.cpp:26 | A terminator with no entry yields the shared empty set defined at this line. The getter itself is declared in BranchDependenceAnalysis.h, which is not part of this model. |
| BranchDependence.GetEffectedBlocksMeaning | src/analysis/BranchDependenceAnalysis.cpp:26 | For a successful analysis, `z` is in the getter's result iff the terminator's block is in `z`'s join set and can diverge. The getter is declared in BranchDependenceAnalysis.h, which is not part of this model. |
| Vectorization.VectorizationInfo.ForRegion | src/vectorizationInfo.cpp:117-125 | The mapping is `parentFn` to itself with a uniform result. Every argument gets a uniform entry in `argShapes` and a uniform recorded shape. No other shape is recorded. |
| Vectorization.VectorizationInfo.constructor | src/vectorizationInfo.cpp:128-139 | With `|argShapes|` equal to the argument count, argument `i` gets `argShapes[i]` and nothing else has a shape. There is no region. |
| Vectorization.VectorizationInfo.InRegion | src/vectorizationInfo.cpp:25-28 | With no region every block is in it. The instruction overload is stated against it. |
| Vectorization.VectorizationInfo.InRegionInst | src/vectorizationInfo.cpp:25-33 | An instruction is in the region iff its parent block is, and a block is in it iff there is no region or the region contains it. |
| Vectorization.VectorizationInfo.GetEntry | src/vectorizationInfo.cpp:270-274 | The region's entry, or the scalar function's first block when there is no region. |
| Vectorization.VectorizationInfo.HasKnownShape | src/vectorizationInfo.cpp:141-153 | Only an in-region instruction without a recorded shape has no known shape. |
| Vectorization.VectorizationInfo.GetVectorShape | src/vectorizationInfo.cpp:155-180 | Fails only for an in-region instruction without a record. A non-constant with a record gets the recorded shape. |
| Vectorization.VectorizationInfo.ShapeResolutionOrder | src/vectorizationInfo.cpp:155-180 | A constant's literal shape wins even over a record. Then the record. Then uniform outside the region. An in-region instruction without a record fails with `MissingShape`. |
| Vectorization.VectorizationInfo.KnownShapeIffResolves | src/vectorizationInfo.cpp:141-153 | iff: a shape is known exactly when the shape query succeeds, that is, when there is a record or the value is not an in-region instruction. |
| Vectorization.VectorizationInfo.SetVectorShape | src/vectorizationInfo.cpp:198-202 | After the call a non-constant value's shape is the one set, and no other value's shape query changes. |
| Vectorization.VectorizationInfo.DropVectorShape | src/vectorizationInfo.cpp:182-188 | Only the value's own record is removed. A missing record changes nothing. |
| Vectorization.VectorizationInfo.GetPredicate | src/vectorizationInfo.cpp:204-216 | Some exactly for blocks with a predicate, with that predicate; otherwise null. |
| Vectorization.VectorizationInfo.SetPredicate | src/vectorizationInfo.cpp:218-222 | `getPredicate` then returns the value set, and no other block's predicate changes. |
| Vectorization.VectorizationInfo.DropPredicate | src/vectorizationInfo.cpp:190-196 | The block then has no predicate. Other blocks keep theirs. A missing key changes nothing. |
| Vectorization.VectorizationInfo.RemapPredicate | src/vectorizationInfo.cpp:35-45 | Blocks whose predicate was `old` get `dest`. Other blocks keep theirs and no key is added or removed. |
| Vectorization.VectorizationInfo.SetLoopDivergence | src/vectorizationInfo.cpp:224-227 | The loop leaves the divergent set whatever `toUniform` is. |
| Vectorization.VectorizationInfo.SetDivergentLoop | src/vectorizationInfo.cpp:229-239 | The loop joins the divergent set, and `isDivergentLoop` then holds. |
| Vectorization.VectorizationInfo.IsDivergentLoop | src/vectorizationInfo.cpp:235-239 | The divergent-loop query. It has no contract of its own; it holds after `SetDivergentLoop` and fails after `SetLoopDivergence`. |
| Vectorization.VectorizationInfo.IsDivergentLoopTopLevel | src/vectorizationInfo.cpp:241-247 | iff: the loop is divergent and its parent is absent or not divergent. |
| Vectorization.VectorizationInfo.MarkMandatory | src/vectorizationInfo.cpp:250-260 | The mandatory set only grows. The block is then mandatory and not a kill exit. |
| Vectorization.VectorizationInfo.IsMandatory | src/vectorizationInfo.cpp:256-260 | The mandatory-block query. It has no contract of its own; it holds after `MarkMandatory`, and `IsKillExit` is its negation. |
| Vectorization.VectorizationInfo.IsKillExit | src/vectorizationInfo.cpp:262-265 | A kill exit is exactly a block that is not mandatory. |
| DivLoopTrans.EmptyTrackerDesc | include/rv/transform/divLoopTrans.h:41-51 | A default tracker has all three phis null. |
| DivLoopTrans.TransformSession.constructor | include/rv/transform/divLoopTrans.h:84-97 | A new session has every block field null, an empty live mask tracker, empty tracker maps and no kill exits. The pure-latch invariant holds. |
| DivLoopTrans.TransformSession.RemapExitingBlock | include/rv/transform/divLoopTrans.h:76-80 | The header maps to `offsetHead`; any other block maps to itself. |
| DivLoopTrans.TransformSession.RequestTrackerDesc | include/rv/transform/divLoopTrans.h:73 | Returns the existing tracker, or inserts and returns an empty one. It never overwrites. The value then has a tracker, the pure-latch invariant is kept, and no key is lost. |
| DivLoopTrans.TransformSession.GetTrackerDesc | include/rv/transform/divLoopTrans.h:74 | Requires that the value already has a tracker, and returns it. |
| Native.Resize | src/native/MemoryAccessGrouper.cpp:37 | `std::vector::resize` with null fill: the new length, with the old slots kept and the new slots null. |
| Native.MoveWithin | src/native/MemoryAccessGrouper.cpp:48 | `memmove` within the buffer: the target range holds the source range, and the other slots keep their values. |
| Native.MemoryGroup.Of | src/native/MemoryAccessGrouper.cpp:21-23 | A group built from one address is `[addr]` with `topIdx == 1`. |
| Native.MemoryGroup.constructor | src/native/MemoryAccessGrouper.cpp:25-27 | The default group is empty with `topIdx == 0`. |
| Native.MemoryGroup.Insert | src/native/MemoryAccessGrouper.cpp:29-56 | The new state is the corrected insert of the old one, which is the written insert whenever that stays in bounds (`InsertedAgreesWhenInBounds`). `topIdx <= |elements|` is kept. |
| Native.InsertAsWrittenOutOfBounds | src/native/MemoryAccessGrouper.cpp:36-39 | iff: the insert as written writes out of bounds exactly when `offset == topIdx == |elements|` in a non-empty group. |
| Native.InsertAsWritten | src/native/MemoryAccessGrouper.cpp:29-56 | `insert` exactly as written. An `OutOfBoundsWrite` error names an index at or past the vector's size. A successful insert never shrinks the slots. |
| Native.Inserted | src/native/MemoryAccessGrouper.cpp:29-56 | The corrected insert. It keeps a group well formed, never shrinks the slots and never lowers `topIdx`. |
| Native.AdjacentInsertIntoSingletonOverflows | src/native/MemoryAccessGrouper.cpp:36-39 | A one-address group and offset 1 make the written code write slot 1 of a one-slot vector. The corrected insert yields two slots. |
| Native.InsertedAgreesWhenInBounds | src/native/MemoryAccessGrouper.cpp:29-56 | Every insert that the written code performs in bounds gives the same group under the corrected guard. |
| Native.InsertInPlaceAtTop | src/native/MemoryAccessGrouper.cpp:36-40 | Inserts at offsets 2, 4 and 5 into a one-address group: the last one meets `offset == topIdx` with a free slot, and both readings write it in place, keeping six slots. |
| Native.InsertAsWrittenWellFormed | src/native/MemoryAccessGrouper.cpp:21-55 | Every in-bounds written insert keeps `topIdx <= |elements|`. |
| Native.InsertedIntoEmpty | src/native/MemoryAccessGrouper.cpp:30-32 | Inserting into an empty group ignores the offset and yields `[scev]` with `topIdx == 1`. |
| Native.InsertedAtOffset | src/native/MemoryAccessGrouper.cpp:34-40 | `elements[offset] == scev` and `topIdx == max(old, offset + 1)`. Other slots are unchanged and any growth is null. |
| Native.InsertedBelow | src/native/MemoryAccessGrouper.cpp:42-55 | For offset `-k`: the length grows by `k`, the new slot 0 is the address, slots `1..k-1` are null, the old slots follow at `+k`, and `topIdx` grows by `k`. |
| Native.InsertedWellFormed | src/native/MemoryAccessGrouper.cpp:21-55 | Insert keeps the group well formed and keeps an address in slot 0. |
| Native.Int32 | src/native/MemoryAccessGrouper.cpp:105 | The `(int)` cast: a 32-bit value congruent to its input modulo 2^32. |
| Native.ConstantOffsetAsWritten | src/native/MemoryAccessGrouper.cpp:91-133 | `getConstantOffset` as written. For a constant byte difference the offset is never negative, below 2^32 divided by the lane size. |
| Native.ConstantOffset | src/native/MemoryAccessGrouper.cpp:91-133 | `getConstantOffset` with signed lane arithmetic. Every offset fits the 32-bit `int` it is returned in. |
| Native.ConstantOffsetCountsLanes | src/native/MemoryAccessGrouper.cpp:103-110 | iff: a constant byte difference gives an offset exactly when it is divisible by the lane size. Offset times lane size is then the 32-bit byte offset. |
| Native.ConstantOffsetShapes | src/native/MemoryAccessGrouper.cpp:97-132 | A sizeof-unit difference gives offset 1. A product gives its factor exactly when its stride is a lane component. Any other shape gives no offset. |
| Native.AsWrittenDivisibilityAgrees | src/native/MemoryAccessGrouper.cpp:105-108 | The unsigned reading decides divisibility exactly like the signed one. |
| Native.AsWrittenAgreesOnNonNegative | src/native/MemoryAccessGrouper.cpp:103-111 | For non-negative byte differences the written and the signed offsets agree. |
| Native.NegativeByteOffsetMisread | src/native/MemoryAccessGrouper.cpp:105-108 | A difference of -4 bytes at lane size 4 gives 2^30 - 1 as written, and -1 as corrected. |
| Native.FirstMatch | src/native/MemoryAccessGrouper.cpp:76-83 | The first group whose front has a constant offset to the address, with that offset. No earlier group has one, and None means no group has one. |
| Native.Added | src/native/MemoryAccessGrouper.cpp:71-89 | The groups after `add`. The count is unchanged, or one more group is appended after the old ones, and that group is the new address alone. |
| Native.AddedKeepsGroups | src/native/MemoryAccessGrouper.cpp:71-89 | `add` keeps every group valid. It appends a singleton exactly when no group matches, and otherwise changes only the first matching group. |
| Native.AddBelowFrontPrepends | src/native/MemoryAccessGrouper.cpp:76-83 | With the signed offset, an address one lane (4 bytes) below a singleton group's front is prepended to it through `insert`'s negative branch. |
| Native.MemoryAccessGrouper.constructor | src/native/MemoryAccessGrouper.cpp:62-69 | The lane size is 4 or 8 (by its type), and there are no groups. |
| Native.MemoryAccessGrouper.Add | src/native/MemoryAccessGrouper.cpp:71-89 | Returns the address. The groups become the first-match insert of it, or gain a singleton group, and stay valid. |
| Native.MemoryAccessGrouper.InsertIntoGroup | src/native/MemoryAccessGrouper.cpp:76-83 | For the first matching group and its offset, the groups become `Added`: that group takes the corrected insert, which is the written insert whenever that stays in bounds. The grouper stays valid. |
| Native.MemoryAccessGrouper.AppendGroup | src/native/MemoryAccessGrouper.cpp:85-88 | When no group matches, a fresh singleton group is pushed back, which is the no-match step of `add`. The grouper stays valid. |
| LoopAnnotations.ParallelDistanceIsMax | include/rv/analysis/loopAnnotations.h:13 | `ParallelDistance` is the largest `iter_t`. |
| LoopAnnotations.Optional.constructor | include/rv/analysis/loopAnnotations.h:23 | A default `Optional` is unset, so `safeGet(d)` is `d`. |
| LoopAnnotations.Optional.Of | include/rv/analysis/loopAnnotations.h:24-27 | `Optional(val)` is set and `get()` returns `val`. |
| LoopAnnotations.Optional.IsSet | include/rv/analysis/loopAnnotations.h:26 | The flag query. It has no contract of its own; the constructors and `Assign` are stated against it. |
| LoopAnnotations.Optional.Get | include/rv/analysis/loopAnnotations.h:27 | The stored value. It has no contract of its own; `Of`, `Assign` and `SafeGet` are stated against it. |
| LoopAnnotations.Optional.SafeGet | include/rv/analysis/loopAnnotations.h:28-30 | The stored value when set, and the default otherwise. |
| LoopAnnotations.Optional.Assign | include/rv/analysis/loopAnnotations.h:32-36 | Sets both the value and the flag and returns the container itself. `safeGet` then yields the value for every default. |
| LoopAnnotations.LoopMD.constructor | include/rv/analysis/loopAnnotations.h:39-52 | All three hints start unset. |

## Left out

- Diagnostic output is not modelled because it is console I/O: `DumpSet`, every `errs()` line, `F.dump()`, the `IF_DEBUG` dumps, the PDA comparison block and `VectorizationInfo::dump*`.
- The `#if 0` blocks of `BranchDependenceAnalysis.cpp` (lines 113-127 and 191-223) are not modelled because they are compiled out.
- The unused `bcDomClosure` (line 184) is not modelled because it has no effect.
- `IntersectInPlace` is not modelled: it is never called, and it erases from a set while iterating over it.
- CFG and dominance edge cases:
  - The CFG, CDG, DFG, dominator-tree and loop-forest construction are inputs, not recomputed.
  - `pdClosureMap[x]` on a missing key would default-insert in the source. Here every block has an entry by construction.
- The intended loop-exit rule (phi blocks inheriting dependence sets) is not modelled, because the code aborts instead.
- `ScalarEvolution::getSCEV` and `getMinusSCEV` are not modelled, because they are foreign calls. The difference is the grouper's `difference` field.
- `isSizeOf` tests and the LLVM `Type` setup (`laneFloatTy`, `laneIntTy`) are not modelled, because they are foreign calls. Their outcome is the `Difference` classification.
- Native.Int32: models `getLimitedValue` for constants of at most 64 bits. The saturation to `UINT64_MAX` for wider constants is not modelled.
- Native.ConstantOffset: the factor of a product difference goes through the same 32-bit cast. Nothing else about ScalarEvolution's folding is modelled.
- `VectorShape::fromConstant`'s internals are not modelled; it is an uninterpreted field of the store.
- `getContext` is not modelled, because it is an LLVM accessor.
- The bodies of `transformLoop`, `finalizeLiveOutTrackers`, `finalizeLiveOutTracker`, `requestPureLatch` and class `DivLoopTrans` are not modelled: only their declarations exist here, and divLoopTrans.cpp is not part of this model.
- DivLoopTrans.TransformSession.RequestTrackerDesc: modelled over `liveOutDescs` only, as the header's comment describes. Its definition, which may also consult `exitDescs`, is in divLoopTrans.cpp, which is not part of this model. It returns a copy of the tracker, where the source returns a `TrackerDesc &` into the map: writes through the returned reference are not modelled, because the code that fills the phis through it is not part of this model.
- Native.FirstMatch: matches with the signed `ConstantOffset`, the corrected reading of `src/native/MemoryAccessGrouper.cpp:105-108`. An address below a group's front therefore gets a negative offset, where the unsigned reading as written gives a large positive one.
- Native.MemoryAccessGrouper.Add: stated through `FirstMatch` and `Added`, so it uses the signed offset. An address below a group's front goes through `insert`'s negative branch (`AddBelowFrontPrepends`), unlike the code as written, which would grow the group to about 2^30 slots.
- Native.MemoryAccessGrouper.InsertIntoGroup: inserts at the signed offset that `FirstMatch` finds. The group update at the unsigned as-written offset is not modelled at `add`'s level; `ConstantOffsetAsWritten` shows that offset.
- DivLoopTrans.TransformSession.GetTrackerDesc: the asserting getter's assert is a precondition (the value has a tracker), not an error value.
- Vectorization.VectorizationInfo.constructor: the assert that `argShapes` has one entry per argument (`src/vectorizationInfo.cpp:131`) is a precondition, not an error value.
- Native.MemoryAccessGrouper.constructor: the lane-size assert (`src/native/MemoryAccessGrouper.cpp:68`) is the `LaneByteSize` type, so no other lane size can be passed.
- Native.MemoryAccessGrouper.Add: takes the address's scalar-evolution expression itself, so the assert that one can be computed (`src/native/MemoryAccessGrouper.cpp:72-73`) is not modelled; `getSCEV` is a foreign call.
- LoopAnnotations.LoopMD.constructor: the three `Optional`s are object references, where the C++ struct holds them by value. A copy of a `LoopMD` would share its hints here; no modelled member copies one.
- The session's `loopName`, `loopInfo`, `vecInfo`, `platInfo` and `maskEx` references are not modelled, because no modelled member reads them.
- `DepDistToString`, `ClearLoopVectorizeAnnotations`, `SetLLVMLoopAnnotations`, `OptimisticJoin`, `GetLoopAnnotation`, `LoopMD::print` and `LoopMD::dump` are declared only, so there is nothing to model.
- `unsigned` wrap-around in `MemoryGroup::insert` (`(unsigned) offset + 1`, `elements.size() * 2`) is not modelled. It needs a buffer of 2^31 slots (about 32 doubling inserts); the wrapped resize would then drop only null slots above `topIdx`.
- The floating-point SIMD math library, the pass entry points and the test programs are outside the modelled core.

## Findings

| source | as written | input that shows it | evidently intended | confidence | as-written member | corrected member |
|---|---|---|---|---|---|---|
| src/native/MemoryAccessGrouper.cpp:36-39 | The buffer grows only when `offset > topIdx`, then writes `elements[offset]`. | A group built from one address (`topIdx == 1`, one slot) and an address one lane above it (offset 1) write slot 1 of a one-slot vector. | Grow also when the slot does not exist yet: `offset > topIdx` or `offset >= elements.size()`. | not executed; high | Native.InsertAsWritten, Native.AdjacentInsertIntoSingletonOverflows | Native.MemoryGroup.Insert, Native.InsertedWellFormed |
| src/native/MemoryAccessGrouper.cpp:105-108 | `byteOffset % laneByteSize` and `byteOffset / laneByteSize` with the `unsigned` lane size taken by the constructor. C++ converts the `int` to `unsigned` first. | A byte difference of -4 at lane size 4 (an access one lane below the group's front) gives offset 1073741823 instead of -1. So, as written, a constant byte difference never reaches `insert`'s negative branch from `add`; a negative factor of a product difference still does. | Signed division in lanes: offset -1. | not executed; medium (the member's declared type is in a header that is not part of this model) | Native.ConstantOffsetAsWritten, Native.NegativeByteOffsetMisread | Native.ConstantOffset, Native.ConstantOffsetCountsLanes, Native.FirstMatch, Native.MemoryAccessGrouper.Add, Native.AddBelowFrontPrepends |
