/**
 * Branch-dependence analysis of the region vectorizer.
 *
 * For every join block z the analysis finds the blocks whose branch can make
 * the lanes of a SIMD group disagree about which predecessor of z they come
 * from, and then inverts that relation into a table from each conditional
 * branch or switch to the join blocks it affects.
 *
 * Blocks are the numbers 0 .. n-1 of a function's block list. The control
 * dependence graph (CDG) and the dominance frontier graph (DFG) are given as
 * predecessor relations: a block that has a node in the graph maps to the set
 * of its predecessors there; a block without a node is absent from the map.
 */
module BranchDependence {
  import opened Wrappers

  type Block = nat

  /** A set of blocks (the analysis' ConstBlockSet). */
  type BlockSet = set<Block>

  /** Predecessor links of the CDG or the DFG; a missing key is a block without a node. */
  type PredRelation = map<Block, BlockSet>

  /** The kinds of block terminator the analysis distinguishes. */
  datatype Terminator = UnconditionalBranch | ConditionalBranch | Switch | OtherTerminator

  /**
   * The inputs of the analysis: predecessor and successor lists (in the
   * order the function's CFG lists them, duplicates allowed), each block's
   * terminator kind, and the CDG and DFG predecessor relations.
   */
  datatype Cfg = Cfg(
    preds: seq<seq<Block>>,
    succs: seq<seq<Block>>,
    term: seq<Terminator>,
    cdgPreds: PredRelation,
    dfgPreds: PredRelation)
  {
    function NumBlocks(): nat { |term| }

    /** Every list has one entry per block and every edge names a block of the function. */
    ghost predicate Valid() {
      && |preds| == |term|
      && |succs| == |term|
      && (forall b, i :: 0 <= b < |preds| && 0 <= i < |preds[b]| ==> preds[b][i] < |term|)
      && (forall b, i :: 0 <= b < |succs| && 0 <= i < |succs[b]| ==> succs[b][i] < |term|)
      && (forall b, c :: b in cdgPreds && c in cdgPreds[b] ==> b < |term| && c < |term|)
      && (forall b, c :: b in dfgPreds && c in dfgPreds[b] ==> b < |term| && c < |term|)
    }
  }

  // ---------------------------------------------------------------------
  // Set helpers. The source mutates its first argument in place; here the
  // updated set is returned.
  // ---------------------------------------------------------------------

  /** The common elements of x and y (both sets are scanned, as in the source). */
  method Intersect(x: BlockSet, y: BlockSet) returns (res: BlockSet)
    ensures res == x * y
  {
    res := {};
    var todo := x;
    while todo != {}
      invariant todo <= x
      invariant res == (x - todo) * y
      decreases todo
    {
      var a :| a in todo;
      if a in y {
        res := res + {a};
      }
      todo := todo - {a};
    }
    todo := y;
    while todo != {}
      invariant todo <= y
      invariant res == x * y
      decreases todo
    {
      var b :| b in todo;
      if b in x {
        res := res + {b};
      }
      todo := todo - {b};
    }
  }

  /** Adds every element of other to m. */
  method MergeIn(m: BlockSet, other: BlockSet) returns (m': BlockSet)
    ensures m' == m + other
  {
    m' := m;
    var todo := other;
    while todo != {}
      invariant todo <= other
      invariant m' == m + (other - todo)
      decreases todo
    {
      var b :| b in todo;
      m' := m' + {b};
      todo := todo - {b};
    }
  }

  /** Adds the common elements of a and b to accu, keeping what accu held. */
  method IntersectAndMerge(accu: BlockSet, a: BlockSet, b: BlockSet) returns (accu': BlockSet)
    ensures accu' == accu + a * b
  {
    accu' := accu;
    var todo := a;
    while todo != {}
      invariant todo <= a
      invariant accu' == accu + (a - todo) * b
      decreases todo
    {
      var x :| x in todo;
      if x in b {
        accu' := accu' + {x};
      }
      todo := todo - {x};
    }
  }

  /** Removes every element of b from a. */
  method Subtract(a: BlockSet, b: BlockSet) returns (a': BlockSet)
    ensures a' == a - b
  {
    a' := a;
    var todo := b;
    while todo != {}
      invariant todo <= b
      invariant a' == a - (b - todo)
      decreases todo
    {
      var y :| y in todo;
      a' := a' - {y};
      todo := todo - {y};
    }
  }

  // ---------------------------------------------------------------------
  // Reachability along a predecessor relation
  // ---------------------------------------------------------------------

  /** w takes one or more steps, each from a block to one of its predecessors in rel. */
  ghost predicate IsWalk(rel: PredRelation, w: seq<Block>) {
    |w| >= 2 && forall i :: 0 <= i < |w| - 1 ==> w[i] in rel && w[i + 1] in rel[w[i]]
  }

  /** b is reached from x by one or more predecessor steps. */
  ghost predicate Reaches(rel: PredRelation, x: Block, b: Block) {
    exists w :: IsWalk(rel, w) && w[0] == x && w[|w| - 1] == b
  }

  /** Every block of s that has a node has all its predecessors in s. */
  ghost predicate ClosedUnder(rel: PredRelation, s: BlockSet) {
    forall b :: b in s && b in rel ==> rel[b] <= s
  }

  /** All blocks that occur as a predecessor in rel. */
  ghost function Universe(rel: PredRelation): BlockSet {
    set k, b | k in rel && b in rel[k] :: b
  }

  lemma StepReaches(rel: PredRelation, x: Block, p: Block)
    requires x in rel && p in rel[x]
    ensures Reaches(rel, x, p)
  {
    assert IsWalk(rel, [x, p]);
  }

  lemma PrependReaches(rel: PredRelation, x: Block, p: Block, b: Block)
    requires x in rel && p in rel[x]
    requires Reaches(rel, p, b)
    ensures Reaches(rel, x, b)
  {
    var w :| IsWalk(rel, w) && w[0] == p && w[|w| - 1] == b;
    var w' := [x] + w;
    forall i | 0 <= i < |w'| - 1
      ensures w'[i] in rel && w'[i + 1] in rel[w'[i]]
    {
      if i > 0 {
        assert w'[i] == w[i - 1] && w'[i + 1] == w[i];
      }
    }
    assert IsWalk(rel, w');
  }

  lemma {:induction false} WalkStaysIn(rel: PredRelation, s: BlockSet, w: seq<Block>, k: nat)
    requires IsWalk(rel, w)
    requires w[0] in rel ==> rel[w[0]] <= s
    requires ClosedUnder(rel, s)
    requires 1 <= k < |w|
    ensures w[k] in s
    decreases k
  {
    assert w[k - 1] in rel && w[k] in rel[w[k - 1]];
    if k > 1 {
      WalkStaysIn(rel, s, w, k - 1);
    }
  }

  /** A set that holds x's predecessors and is closed holds everything x reaches. */
  lemma ReachesInClosed(rel: PredRelation, s: BlockSet, x: Block, b: Block)
    requires x in rel ==> rel[x] <= s
    requires ClosedUnder(rel, s)
    requires Reaches(rel, x, b)
    ensures b in s
  {
    var w :| IsWalk(rel, w) && w[0] == x && w[|w| - 1] == b;
    WalkStaysIn(rel, s, w, |w| - 1);
  }

  /** Whatever is reached is some block's predecessor. */
  lemma ReachesInUniverse(rel: PredRelation, x: Block, b: Block)
    requires Reaches(rel, x, b)
    ensures b in Universe(rel)
  {
    var w :| IsWalk(rel, w) && w[0] == x && w[|w| - 1] == b;
    var k := |w| - 2;
    assert w[k] in rel && w[k + 1] in rel[w[k]];
  }

  lemma ShrinkingDifference(u: BlockSet, small: BlockSet, large: BlockSet, p: Block)
    requires small <= large && p in large && p !in small && p in u
    ensures |u - large| < |u - small|
  {
    var a, b := u - large, u - small;
    assert a <= b - {p};
    assert b == (b - {p}) + {p};
    assert |a| <= |b - {p}| by {
      assert b - {p} == a + (b - {p} - a);
    }
  }

  /**
   * The depth-first closure both closure computations share: every
   * predecessor of x that is not yet in the closure is inserted and then
   * explored. Blocks the call adds are reached from x, are fully explored
   * (closed), and x's own predecessors end up in the result.
   */
  method Closure(rel: PredRelation, x: Block, closure: BlockSet) returns (result: BlockSet)
    ensures closure <= result
    ensures x !in rel ==> result == closure
    ensures x in rel ==> rel[x] <= result
    ensures forall b :: b in result && b !in closure && b in rel ==> rel[b] <= result
    ensures forall b :: b in result && b !in closure ==> Reaches(rel, x, b)
    decreases |Universe(rel) - closure|
  {
    result := closure;
    if x !in rel {
      return;
    }
    var todo := rel[x];
    while todo != {}
      invariant todo <= rel[x]
      invariant closure <= result
      invariant rel[x] - todo <= result
      invariant forall b :: b in result && b !in closure && b in rel ==> rel[b] <= result
      invariant forall b :: b in result && b !in closure ==> Reaches(rel, x, b)
      decreases todo
    {
      var p :| p in todo;
      todo := todo - {p};
      if p !in result {
        StepReaches(rel, x, p);
        assert p in Universe(rel);
        ghost var before := result;
        result := result + {p};
        ShrinkingDifference(Universe(rel), closure, result, p);
        result := Closure(rel, p, result);
        forall b | b in result && b !in before && b != p
          ensures Reaches(rel, x, b)
        {
          PrependReaches(rel, x, p, b);
        }
      }
    }
  }

  /** Started from an empty set, the closure is exactly what x reaches. */
  lemma FreshClosureExact(rel: PredRelation, x: Block, result: BlockSet)
    requires x in rel ==> rel[x] <= result
    requires forall b :: b in result && b in rel ==> rel[b] <= result
    requires forall b :: b in result ==> Reaches(rel, x, b)
    ensures forall b :: b in result <==> Reaches(rel, x, b)
  {
    forall b | Reaches(rel, x, b)
      ensures b in result
    {
      ReachesInClosed(rel, result, x, b);
    }
  }

  /** The iterated control dependence of x: closure over CDG predecessors. */
  method ComputePostDomClosure(g: Cfg, x: Block, closure: BlockSet) returns (result: BlockSet)
    ensures closure <= result
    ensures x !in g.cdgPreds ==> result == closure
    ensures closure == {} ==> forall b :: b in result <==> Reaches(g.cdgPreds, x, b)
  {
    result := Closure(g.cdgPreds, x, closure);
    if closure == {} {
      FreshClosureExact(g.cdgPreds, x, result);
    }
  }

  /** The closure over DFG (dominance frontier) predecessors. */
  method ComputeDomClosure(g: Cfg, b: Block, closure: BlockSet) returns (result: BlockSet)
    ensures closure <= result
    ensures b !in g.dfgPreds ==> result == closure
    ensures closure == {} ==> forall c :: c in result <==> Reaches(g.dfgPreds, b, c)
  {
    result := Closure(g.dfgPreds, b, closure);
    if closure == {} {
      FreshClosureExact(g.dfgPreds, b, result);
    }
  }

  // ---------------------------------------------------------------------
  // The closure maps
  // ---------------------------------------------------------------------

  /** m has one entry per block, holding the block itself and everything it reaches in rel. */
  ghost predicate IsClosureMap(n: nat, rel: PredRelation, m: map<Block, BlockSet>) {
    && (forall b: Block :: b in m <==> b < n)
    && (forall b, c :: b in m ==> (c in m[b] <==> c == b || Reaches(rel, b, c)))
  }

  /** The first loop of the constructor: pdClosureMap and domClosureMap. */
  method ComputeClosureMaps(g: Cfg) returns (pdClosureMap: map<Block, BlockSet>, domClosureMap: map<Block, BlockSet>)
    ensures IsClosureMap(g.NumBlocks(), g.cdgPreds, pdClosureMap)
    ensures IsClosureMap(g.NumBlocks(), g.dfgPreds, domClosureMap)
  {
    pdClosureMap, domClosureMap := map[], map[];
    for block := 0 to g.NumBlocks()
      invariant forall b: Block :: b in pdClosureMap <==> b < block
      invariant forall b: Block :: b in domClosureMap <==> b < block
      invariant forall b, c :: b in pdClosureMap ==> (c in pdClosureMap[b] <==> c == b || Reaches(g.cdgPreds, b, c))
      invariant forall b, c :: b in domClosureMap ==> (c in domClosureMap[b] <==> c == b || Reaches(g.dfgPreds, b, c))
    {
      var pdClosure := ComputePostDomClosure(g, block, {});
      var domClosure := ComputeDomClosure(g, block, {});
      domClosure := domClosure + {block};
      pdClosure := pdClosure + {block};
      pdClosureMap := pdClosureMap[block := pdClosure];
      domClosureMap := domClosureMap[block := domClosure];
    }
  }

  /** Every block's closure contains the block itself. */
  lemma ClosuresReflexive(n: nat, rel: PredRelation, m: map<Block, BlockSet>, b: Block)
    requires IsClosureMap(n, rel, m)
    requires b < n
    ensures b in m && b in m[b]
  {
  }

  /** A closure of a valid CFG names only blocks of the function. */
  lemma ClosureWithinBlocks(g: Cfg, rel: PredRelation, m: map<Block, BlockSet>, b: Block, c: Block)
    requires g.Valid()
    requires rel == g.cdgPreds || rel == g.dfgPreds
    requires IsClosureMap(g.NumBlocks(), rel, m)
    requires b in m && c in m[b]
    ensures c < g.NumBlocks()
  {
    if c != b {
      ReachesInUniverse(rel, b, c);
    }
  }

  // ---------------------------------------------------------------------
  // Per-join branch dependence
  // ---------------------------------------------------------------------

  /** m has an entry for every block. */
  ghost predicate CoversBlocks(g: Cfg, m: map<Block, BlockSet>) {
    forall b: Block :: b < g.NumBlocks() ==> b in m
  }

  /** The early rule for the predecessor pair (x, y). */
  function EarlyRule(pd: map<Block, BlockSet>, x: Block, y: Block): BlockSet
    requires x in pd && y in pd
  {
    if x in pd[y] then {x} else if y in pd[x] then {y} else {}
  }

  /** Successor positions l < k of a lead to different blocks whose dom closures both hold z. */
  ghost predicate DisjointPair(g: Cfg, dom: map<Block, BlockSet>, a: Block, z: Block, k: int, l: int) {
    && a < |g.succs|
    && 0 <= l < k < |g.succs[a]|
    && g.succs[a][k] != g.succs[a][l]
    && g.succs[a][k] in dom && g.succs[a][l] in dom
    && z in dom[g.succs[a][k]] && z in dom[g.succs[a][l]]
  }

  /** The disjoint-path test for the candidate a and the join z. */
  ghost predicate HasDisjointPaths(g: Cfg, dom: map<Block, BlockSet>, a: Block, z: Block) {
    exists k, l :: DisjointPair(g, dom, a, z, k, l)
  }

  /** The candidates of s that pass the disjoint-path test. */
  ghost function Found(g: Cfg, dom: map<Block, BlockSet>, z: Block, s: BlockSet): BlockSet {
    set a | a in s && HasDisjointPaths(g, dom, a, z)
  }

  /** What the pair of predecessors (x, y) of z contributes to z's set. */
  ghost function PairSet(g: Cfg, pd: map<Block, BlockSet>, dom: map<Block, BlockSet>, z: Block, x: Block, y: Block): BlockSet
    requires x in pd && y in pd
  {
    EarlyRule(pd, x, y) + Found(g, dom, z, pd[y] * pd[x])
  }

  /** Contributions of the pairs (i, j') with j' < j. */
  ghost function RowPrefix(g: Cfg, pd: map<Block, BlockSet>, dom: map<Block, BlockSet>, z: Block, i: nat, j: nat): BlockSet
    requires g.Valid() && CoversBlocks(g, pd)
    requires z < |g.preds| && j <= i < |g.preds[z]|
    decreases j
  {
    if j == 0 then {}
    else RowPrefix(g, pd, dom, z, i, j - 1) + PairSet(g, pd, dom, z, g.preds[z][i], g.preds[z][j - 1])
  }

  /** Contributions of all pairs (i', j') with j' < i' < i. */
  ghost function RowsBelow(g: Cfg, pd: map<Block, BlockSet>, dom: map<Block, BlockSet>, z: Block, i: nat): BlockSet
    requires g.Valid() && CoversBlocks(g, pd)
    requires z < |g.preds| && i <= |g.preds[z]|
    decreases i
  {
    if i == 0 then {}
    else RowsBelow(g, pd, dom, z, i - 1) + RowPrefix(g, pd, dom, z, i - 1, i - 1)
  }

  /** The set of branch blocks the analysis records for the join z. */
  ghost function JoinSet(g: Cfg, pd: map<Block, BlockSet>, dom: map<Block, BlockSet>, z: Block): BlockSet
    requires g.Valid() && CoversBlocks(g, pd)
    requires z < |g.preds|
  {
    RowsBelow(g, pd, dom, z, |g.preds[z]|)
  }

  /** The early-exit search for two successors of a whose dom closures contain z. */
  method DisjointPathExists(g: Cfg, dom: map<Block, BlockSet>, a: Block, z: Block) returns (foundDisjointPath: bool)
    requires g.Valid() && CoversBlocks(g, dom)
    requires a < g.NumBlocks()
    ensures foundDisjointPath <==> HasDisjointPaths(g, dom, a, z)
  {
    foundDisjointPath := false;
    var ss := g.succs[a];
    var k := 0;
    while !foundDisjointPath && k < |ss|
      invariant 0 <= k <= |ss|
      invariant foundDisjointPath ==> HasDisjointPaths(g, dom, a, z)
      invariant !foundDisjointPath ==> forall k', l' :: 0 <= l' < k' < k ==> !DisjointPair(g, dom, a, z, k', l')
    {
      var b := ss[k];
      var bClosure := dom[b];
      var l := 0;
      while !foundDisjointPath && l < k
        invariant 0 <= l <= k
        invariant foundDisjointPath ==> HasDisjointPaths(g, dom, a, z)
        invariant !foundDisjointPath ==> forall k', l' :: 0 <= l' < k' < k ==> !DisjointPair(g, dom, a, z, k', l')
        invariant !foundDisjointPath ==> forall l' :: 0 <= l' < l ==> !DisjointPair(g, dom, a, z, k, l')
      {
        var c := ss[l];
        if b != c {
          var cClosure := dom[c];
          if z in bClosure && z in cClosure {
            foundDisjointPath := true;
            assert DisjointPair(g, dom, a, z, k, l);
          }
        }
        l := l + 1;
      }
      k := k + 1;
    }
    if !foundDisjointPath {
      forall k', l' ensures !DisjointPair(g, dom, a, z, k', l') {
      }
    }
  }

  /**
   * The candidate loop for one predecessor pair: each candidate not yet in
   * branchBlocks is added when the disjoint-path test succeeds.
   */
  method AddDisjointCandidates(g: Cfg, dom: map<Block, BlockSet>, z: Block, xyPostDomClosure: BlockSet, branchBlocks: BlockSet)
    returns (branchBlocks': BlockSet)
    requires g.Valid() && CoversBlocks(g, dom)
    requires forall a :: a in xyPostDomClosure ==> a < g.NumBlocks()
    ensures branchBlocks' == branchBlocks + Found(g, dom, z, xyPostDomClosure)
  {
    branchBlocks' := branchBlocks;
    var todo := xyPostDomClosure;
    while todo != {}
      invariant todo <= xyPostDomClosure
      invariant branchBlocks' == branchBlocks + Found(g, dom, z, xyPostDomClosure - todo)
      decreases todo
    {
      var brBlock :| brBlock in todo;
      ghost var done := xyPostDomClosure - todo;
      todo := todo - {brBlock};
      assert xyPostDomClosure - todo == done + {brBlock};
      if brBlock in branchBlocks' {
        // already added by the early rule or another candidate
        assert Found(g, dom, z, done + {brBlock}) <= Found(g, dom, z, done) + {brBlock};
        continue;
      }
      var foundDisjointPath := DisjointPathExists(g, dom, brBlock, z);
      if foundDisjointPath {
        branchBlocks' := branchBlocks' + {brBlock};
      }
      assert Found(g, dom, z, done + {brBlock})
        == Found(g, dom, z, done) + (if foundDisjointPath then {brBlock} else {});
    }
  }

  /** The body of the pair loop: the early rule, then the disjoint-path test over pd(x) * pd(y). */
  method AddPairContribution(g: Cfg, pd: map<Block, BlockSet>, dom: map<Block, BlockSet>, z: Block, x: Block, y: Block, branchBlocks: BlockSet)
    returns (branchBlocks': BlockSet)
    requires g.Valid() && IsClosureMap(g.NumBlocks(), g.cdgPreds, pd) && CoversBlocks(g, dom)
    requires x < g.NumBlocks() && y < g.NumBlocks()
    ensures branchBlocks' == branchBlocks + PairSet(g, pd, dom, z, x, y)
  {
    var xClosure, yClosure := pd[x], pd[y];
    branchBlocks' := branchBlocks;
    // early exit on: x reaches y or y reaches x
    if x in yClosure {
      branchBlocks' := branchBlocks' + {x};
    } else if y in xClosure {
      branchBlocks' := branchBlocks' + {y};
    }
    var xyPostDomClosure := Intersect(yClosure, xClosure);
    forall a | a in xyPostDomClosure
      ensures a < g.NumBlocks()
    {
      ClosureWithinBlocks(g, g.cdgPreds, pd, x, a);
    }
    branchBlocks' := AddDisjointCandidates(g, dom, z, xyPostDomClosure, branchBlocks');
  }

  /** The inner loop: the pairs (x, y) with y at a position before x's position i. */
  method AddRow(g: Cfg, pd: map<Block, BlockSet>, dom: map<Block, BlockSet>, z: Block, i: nat, branchBlocks: BlockSet)
    returns (branchBlocks': BlockSet)
    requires g.Valid() && IsClosureMap(g.NumBlocks(), g.cdgPreds, pd) && CoversBlocks(g, dom)
    requires z < g.NumBlocks() && i < |g.preds[z]|
    ensures branchBlocks' == branchBlocks + RowPrefix(g, pd, dom, z, i, i)
  {
    branchBlocks' := branchBlocks;
    var ps := g.preds[z];
    var x := ps[i];
    for j := 0 to i
      invariant branchBlocks' == branchBlocks + RowPrefix(g, pd, dom, z, i, j)
    {
      var y := ps[j];
      branchBlocks' := AddPairContribution(g, pd, dom, z, x, y, branchBlocks');
    }
  }

  /** The nested loop over predecessor pairs of z in the constructor. */
  method JoinBranchBlocks(g: Cfg, pd: map<Block, BlockSet>, dom: map<Block, BlockSet>, z: Block)
    returns (branchBlocks: BlockSet)
    requires g.Valid() && IsClosureMap(g.NumBlocks(), g.cdgPreds, pd) && CoversBlocks(g, dom)
    requires z < g.NumBlocks()
    ensures branchBlocks == JoinSet(g, pd, dom, z)
  {
    branchBlocks := {};
    for i := 0 to |g.preds[z]|
      invariant branchBlocks == RowsBelow(g, pd, dom, z, i)
    {
      branchBlocks := AddRow(g, pd, dom, z, i, branchBlocks);
    }
  }

  /** The join loop of the constructor: inverseMap, from each block to its branch blocks. */
  method ComputeInverseMap(g: Cfg, pd: map<Block, BlockSet>, dom: map<Block, BlockSet>)
    returns (inverseMap: map<Block, BlockSet>)
    requires g.Valid() && IsClosureMap(g.NumBlocks(), g.cdgPreds, pd) && CoversBlocks(g, dom)
    ensures forall z: Block :: z in inverseMap <==> z < g.NumBlocks()
    ensures forall z :: z in inverseMap ==> inverseMap[z] == JoinSet(g, pd, dom, z)
  {
    inverseMap := map[];
    for z := 0 to g.NumBlocks()
      invariant forall z': Block :: z' in inverseMap <==> z' < z
      invariant forall z' :: z' in inverseMap ==> inverseMap[z'] == JoinSet(g, pd, dom, z')
    {
      var branchBlocks := JoinBranchBlocks(g, pd, dom, z);
      inverseMap := inverseMap[z := branchBlocks];
    }
  }

  // ---------------------------------------------------------------------
  // Properties of the per-join sets
  // ---------------------------------------------------------------------

  /** The pair of predecessor positions (i, j) of z contributes a. */
  ghost predicate PairAdds(g: Cfg, pd: map<Block, BlockSet>, dom: map<Block, BlockSet>, z: Block, i: nat, j: nat, a: Block)
    requires g.Valid() && CoversBlocks(g, pd)
    requires z < |g.preds| && j < i < |g.preds[z]|
  {
    a in PairSet(g, pd, dom, z, g.preds[z][i], g.preds[z][j])
  }

  /** A pair adds a by the early rule, or because a is in both closures and passes the disjoint-path test. */
  lemma PairAddsMeaning(g: Cfg, pd: map<Block, BlockSet>, dom: map<Block, BlockSet>, z: Block, i: nat, j: nat, a: Block)
    requires g.Valid() && CoversBlocks(g, pd)
    requires z < |g.preds| && j < i < |g.preds[z]|
    ensures PairAdds(g, pd, dom, z, i, j, a) <==>
      || a in EarlyRule(pd, g.preds[z][i], g.preds[z][j])
      || (a in pd[g.preds[z][i]] && a in pd[g.preds[z][j]] && HasDisjointPaths(g, dom, a, z))
  {
  }

  lemma {:induction false} RowPrefixMembership(g: Cfg, pd: map<Block, BlockSet>, dom: map<Block, BlockSet>, z: Block, i: nat, j: nat, a: Block)
    requires g.Valid() && CoversBlocks(g, pd)
    requires z < |g.preds| && j <= i < |g.preds[z]|
    ensures a in RowPrefix(g, pd, dom, z, i, j) <==> exists j' :: 0 <= j' < j && PairAdds(g, pd, dom, z, i, j', a)
    decreases j
  {
    if j > 0 {
      RowPrefixMembership(g, pd, dom, z, i, j - 1, a);
      assert a in RowPrefix(g, pd, dom, z, i, j) <==>
        a in RowPrefix(g, pd, dom, z, i, j - 1) || PairAdds(g, pd, dom, z, i, j - 1, a);
    }
  }

  /** Every member of the rows below i comes from some pair of positions j' < i' < i. */
  lemma {:induction false} RowsBelowSound(g: Cfg, pd: map<Block, BlockSet>, dom: map<Block, BlockSet>, z: Block, i: nat, a: Block)
    requires g.Valid() && CoversBlocks(g, pd)
    requires z < |g.preds| && i <= |g.preds[z]|
    requires a in RowsBelow(g, pd, dom, z, i)
    ensures exists i', j' :: 0 <= j' < i' < i && PairAdds(g, pd, dom, z, i', j', a)
    decreases i
  {
    if a in RowsBelow(g, pd, dom, z, i - 1) {
      RowsBelowSound(g, pd, dom, z, i - 1, a);
      var i', j' :| 0 <= j' < i' < i - 1 && PairAdds(g, pd, dom, z, i', j', a);
      assert 0 <= j' < i' < i;
    } else {
      RowPrefixMembership(g, pd, dom, z, i - 1, i - 1, a);
      var j' :| 0 <= j' < i - 1 && PairAdds(g, pd, dom, z, i - 1, j', a);
      assert 0 <= j' < i - 1 < i;
    }
  }

  /** Every contribution of a pair of positions j' < i' < i is in the rows below i. */
  lemma {:induction false} RowsBelowComplete(g: Cfg, pd: map<Block, BlockSet>, dom: map<Block, BlockSet>, z: Block, i: nat, i': nat, j': nat, a: Block)
    requires g.Valid() && CoversBlocks(g, pd)
    requires z < |g.preds| && i <= |g.preds[z]|
    requires j' < i' < i && PairAdds(g, pd, dom, z, i', j', a)
    ensures a in RowsBelow(g, pd, dom, z, i)
    decreases i
  {
    if i' < i - 1 {
      RowsBelowComplete(g, pd, dom, z, i - 1, i', j', a);
    } else {
      RowPrefixMembership(g, pd, dom, z, i - 1, i - 1, a);
    }
  }

  lemma RowsBelowMembership(g: Cfg, pd: map<Block, BlockSet>, dom: map<Block, BlockSet>, z: Block, i: nat, a: Block)
    requires g.Valid() && CoversBlocks(g, pd)
    requires z < |g.preds| && i <= |g.preds[z]|
    ensures a in RowsBelow(g, pd, dom, z, i) <==> exists i', j' :: 0 <= j' < i' < i && PairAdds(g, pd, dom, z, i', j', a)
  {
    if a in RowsBelow(g, pd, dom, z, i) {
      RowsBelowSound(g, pd, dom, z, i, a);
    }
    if exists i', j' :: 0 <= j' < i' < i && PairAdds(g, pd, dom, z, i', j', a) {
      var i', j' :| 0 <= j' < i' < i && PairAdds(g, pd, dom, z, i', j', a);
      RowsBelowComplete(g, pd, dom, z, i, i', j', a);
    }
  }

  /**
   * a is in z's set exactly when some pair of predecessor positions j < i
   * adds it: by the early rule, or because a lies in both predecessors'
   * post-dominance closures and passes the disjoint-path test.
   */
  lemma JoinSetMembership(g: Cfg, pd: map<Block, BlockSet>, dom: map<Block, BlockSet>, z: Block, a: Block)
    requires g.Valid() && CoversBlocks(g, pd)
    requires z < g.NumBlocks()
    ensures a in JoinSet(g, pd, dom, z) <==>
      exists i, j :: 0 <= j < i < |g.preds[z]| &&
        (|| a in EarlyRule(pd, g.preds[z][i], g.preds[z][j])
         || (a in pd[g.preds[z][i]] && a in pd[g.preds[z][j]] && HasDisjointPaths(g, dom, a, z)))
  {
    var n := |g.preds[z]|;
    RowsBelowMembership(g, pd, dom, z, n, a);
    if a in JoinSet(g, pd, dom, z) {
      var i, j :| 0 <= j < i < n && PairAdds(g, pd, dom, z, i, j, a);
      PairAddsMeaning(g, pd, dom, z, i, j, a);
    }
    if exists i, j :: 0 <= j < i < n &&
        (|| a in EarlyRule(pd, g.preds[z][i], g.preds[z][j])
         || (a in pd[g.preds[z][i]] && a in pd[g.preds[z][j]] && HasDisjointPaths(g, dom, a, z)))
    {
      var i, j :| 0 <= j < i < n &&
        (|| a in EarlyRule(pd, g.preds[z][i], g.preds[z][j])
         || (a in pd[g.preds[z][i]] && a in pd[g.preds[z][j]] && HasDisjointPaths(g, dom, a, z)));
      PairAddsMeaning(g, pd, dom, z, i, j, a);
    }
  }

  /** The early rule: x in y's closure adds x; otherwise y in x's closure adds y. */
  lemma EarlyRuleAdds(g: Cfg, pd: map<Block, BlockSet>, dom: map<Block, BlockSet>, z: Block, i: nat, j: nat)
    requires g.Valid() && CoversBlocks(g, pd)
    requires z < g.NumBlocks() && j < i < |g.preds[z]|
    ensures g.preds[z][i] in pd[g.preds[z][j]] ==> g.preds[z][i] in JoinSet(g, pd, dom, z)
    ensures g.preds[z][i] !in pd[g.preds[z][j]] && g.preds[z][j] in pd[g.preds[z][i]] ==>
              g.preds[z][j] in JoinSet(g, pd, dom, z)
  {
    var x, y := g.preds[z][i], g.preds[z][j];
    if x in pd[y] {
      JoinSetMembership(g, pd, dom, z, x);
      assert x in EarlyRule(pd, x, y);
    } else if y in pd[x] {
      JoinSetMembership(g, pd, dom, z, y);
      assert y in EarlyRule(pd, x, y);
    }
  }

  /**
   * Every block recorded for z lies in the post-dominance closures of two
   * predecessors of z at distinct positions; a block with fewer than two
   * predecessors gets the empty set.
   */
  lemma JoinSetWitness(g: Cfg, pd: map<Block, BlockSet>, dom: map<Block, BlockSet>, z: Block, a: Block)
    requires g.Valid() && IsClosureMap(g.NumBlocks(), g.cdgPreds, pd)
    requires z < g.NumBlocks()
    ensures a in JoinSet(g, pd, dom, z) ==>
      exists i, j :: 0 <= j < i < |g.preds[z]| && a in pd[g.preds[z][i]] && a in pd[g.preds[z][j]]
    ensures |g.preds[z]| < 2 ==> JoinSet(g, pd, dom, z) == {}
  {
    JoinSetMembership(g, pd, dom, z, a);
    if a in JoinSet(g, pd, dom, z) {
      var i, j :| 0 <= j < i < |g.preds[z]| &&
        (|| a in EarlyRule(pd, g.preds[z][i], g.preds[z][j])
         || (a in pd[g.preds[z][i]] && a in pd[g.preds[z][j]] && HasDisjointPaths(g, dom, a, z)));
      var x, y := g.preds[z][i], g.preds[z][j];
      ClosuresReflexive(g.NumBlocks(), g.cdgPreds, pd, x);
      ClosuresReflexive(g.NumBlocks(), g.cdgPreds, pd, y);
    }
    if |g.preds[z]| < 2 {
      forall b | b in JoinSet(g, pd, dom, z) ensures false {
        JoinSetMembership(g, pd, dom, z, b);
      }
    }
  }

  /** Every recorded branch block is a block of the function. */
  lemma JoinSetWithinBlocks(g: Cfg, pd: map<Block, BlockSet>, dom: map<Block, BlockSet>, z: Block, a: Block)
    requires g.Valid() && IsClosureMap(g.NumBlocks(), g.cdgPreds, pd)
    requires z < g.NumBlocks()
    requires a in JoinSet(g, pd, dom, z)
    ensures a < g.NumBlocks()
  {
    JoinSetWitness(g, pd, dom, z, a);
    var i, j :| 0 <= j < i < |g.preds[z]| && a in pd[g.preds[z][i]] && a in pd[g.preds[z][j]];
    ClosureWithinBlocks(g, g.cdgPreds, pd, g.preds[z][i], a);
  }

  // ---------------------------------------------------------------------
  // Loop-exit divergence
  // ---------------------------------------------------------------------

  datatype Edge = Edge(from: Block, to: Block)

  /** A loop of the loop forest: its exit edges and its immediate sub-loops. */
  datatype Loop = Loop(exitEdges: seq<Edge>, subLoops: seq<Loop>)

  datatype BdaError = UnimplementedTopology

  function LoopSize(l: Loop): nat
    decreases l, 1
  {
    1 + NestSize(l.subLoops)
  }

  /** The number of loops in a sequence of loop trees. */
  function NestSize(ls: seq<Loop>): nat
    decreases ls, 0
  {
    if ls == [] then 0 else LoopSize(ls[0]) + NestSize(ls[1..])
  }

  /** The loop or one of its nested loops has an exit edge. */
  ghost predicate HasExitEdge(l: Loop)
    decreases l, 1
  {
    |l.exitEdges| > 0 || NestHasExitEdge(l.subLoops)
  }

  ghost predicate NestHasExitEdge(ls: seq<Loop>)
    decreases ls, 0
  {
    exists i :: 0 <= i < |ls| && HasExitEdge(ls[i])
  }

  lemma {:induction false} NestSizeAppend(a: seq<Loop>, b: seq<Loop>)
    ensures NestSize(a + b) == NestSize(a) + NestSize(b)
    decreases |a|
  {
    if a != [] {
      assert (a + b)[1..] == a[1..] + b;
      NestSizeAppend(a[1..], b);
    } else {
      assert a + b == b;
    }
  }

  lemma NestHasExitEdgeAppend(a: seq<Loop>, b: seq<Loop>)
    ensures NestHasExitEdge(a + b) <==> NestHasExitEdge(a) || NestHasExitEdge(b)
  {
    if NestHasExitEdge(a) {
      var i :| 0 <= i < |a| && HasExitEdge(a[i]);
      assert (a + b)[i] == a[i];
    }
    if NestHasExitEdge(b) {
      var i :| 0 <= i < |b| && HasExitEdge(b[i]);
      assert (a + b)[|a| + i] == b[i];
    }
    if NestHasExitEdge(a + b) {
      var i :| 0 <= i < |a + b| && HasExitEdge((a + b)[i]);
      if i >= |a| {
        assert (a + b)[i] == b[i - |a|];
      }
    }
  }

  /** Taints the LCSSA phis of a loop exit; the source aborts here (not implemented). */
  method AddDivergenceInducingExits(exitEdge: Edge, branchBlocks: BlockSet) returns (outcome: Result<BlockSet, BdaError>)
    ensures outcome == Err(UnimplementedTopology)
  {
    outcome := Err(UnimplementedTopology);
  }

  function Lookup(m: map<Block, BlockSet>, b: Block): BlockSet {
    if b in m then m[b] else {}
  }

  /**
   * The loop-stack walk over the loop forest: it visits every loop and
   * calls AddDivergenceInducingExits for each exit edge, so it fails exactly
   * when some loop of the forest has an exit edge.
   */
  method TaintLoopExits(topLevelLoops: seq<Loop>, inverseMap: map<Block, BlockSet>)
    returns (outcome: Result<map<Block, BlockSet>, BdaError>)
    ensures outcome.Err? <==> NestHasExitEdge(topLevelLoops)
    ensures outcome.Err? ==> outcome.error == UnimplementedTopology
    ensures outcome.Ok? ==> outcome.value == inverseMap
  {
    var loopStack := topLevelLoops;
    while loopStack != []
      invariant NestHasExitEdge(loopStack) <==> NestHasExitEdge(topLevelLoops)
      decreases NestSize(loopStack)
    {
      var loop := loopStack[|loopStack| - 1];
      var rest := loopStack[..|loopStack| - 1];
      assert loopStack == rest + [loop];
      NestSizeAppend(rest, [loop]);
      NestSizeAppend(rest, loop.subLoops);
      NestHasExitEdgeAppend(rest, [loop]);
      NestHasExitEdgeAppend(rest, loop.subLoops);
      assert NestSize([loop]) == LoopSize(loop);
      assert NestHasExitEdge([loop]) <==> HasExitEdge(loop) by {
        assert [loop][0] == loop;
      }
      loopStack := rest + loop.subLoops;
      // the loop over the exit edges never gets past its first edge:
      // AddDivergenceInducingExits always fails, and the failure returns
      for k := 0 to |loop.exitEdges|
        invariant k == 0
      {
        var exitEdge := loop.exitEdges[k];
        var lcPhiBlock := exitEdge.to;
        var r := AddDivergenceInducingExits(exitEdge, Lookup(inverseMap, lcPhiBlock));
        if r.Err? {
          return Err(r.error);
        }
      }
    }
    outcome := Ok(inverseMap);
  }

  // ---------------------------------------------------------------------
  // Inversion into the branch -> affected joins table
  // ---------------------------------------------------------------------

  /** Only a conditional branch or a switch can diverge. */
  predicate CanDiverge(t: Terminator) {
    match t
    case UnconditionalBranch => false
    case ConditionalBranch => true
    case Switch => true
    case OtherTerminator => false
  }

  /**
   * eff' is eff with phiBlock recorded under exactly those blocks of
   * branchBlocks that can diverge.
   */
  ghost predicate RecordedJoin(g: Cfg, eff: map<Block, BlockSet>, eff': map<Block, BlockSet>,
                               phiBlock: Block, branchBlocks: BlockSet) {
    forall a: Block, z: Block :: z in Lookup(eff', a) <==>
      z in Lookup(eff, a) || (z == phiBlock && a in branchBlocks && a < g.NumBlocks() && CanDiverge(g.term[a]))
  }

  /** Records phiBlock under each of the given branch blocks that can diverge. */
  method InvertOne(g: Cfg, phiBlock: Block, branchBlocks: BlockSet, effectedBlocks: map<Block, BlockSet>)
    returns (effectedBlocks': map<Block, BlockSet>)
    requires forall a :: a in branchBlocks ==> a < g.NumBlocks()
    ensures RecordedJoin(g, effectedBlocks, effectedBlocks', phiBlock, branchBlocks)
    ensures forall a :: a in effectedBlocks' ==> a in effectedBlocks || effectedBlocks'[a] != {}
    ensures forall a :: a in effectedBlocks ==> a in effectedBlocks' && effectedBlocks[a] <= effectedBlocks'[a]
  {
    effectedBlocks' := effectedBlocks;
    var todo := branchBlocks;
    while todo != {}
      invariant todo <= branchBlocks
      invariant RecordedJoin(g, effectedBlocks, effectedBlocks', phiBlock, branchBlocks - todo)
      invariant forall a :: a in effectedBlocks' ==> a in effectedBlocks || effectedBlocks'[a] != {}
      invariant forall a :: a in effectedBlocks ==> a in effectedBlocks' && effectedBlocks[a] <= effectedBlocks'[a]
      decreases todo
    {
      var branchBlock :| branchBlock in todo;
      ghost var done := branchBlocks - todo;
      ghost var prev := effectedBlocks';
      todo := todo - {branchBlock};
      assert branchBlocks - todo == done + {branchBlock};
      var term := g.term[branchBlock];
      if !CanDiverge(term) {
        RecordedJoinSkip(g, effectedBlocks, prev, phiBlock, done, branchBlock);
        continue; // an unconditional branch or no branch at all
      }
      effectedBlocks' := effectedBlocks'[branchBlock := Lookup(effectedBlocks', branchBlock) + {phiBlock}];
      RecordedJoinAdd(g, effectedBlocks, prev, effectedBlocks', phiBlock, done, branchBlock);
    }
    assert branchBlocks - todo == branchBlocks;
  }

  lemma RecordedJoinSkip(g: Cfg, eff: map<Block, BlockSet>, eff': map<Block, BlockSet>,
                         phiBlock: Block, done: BlockSet, b: Block)
    requires b < g.NumBlocks() && !CanDiverge(g.term[b])
    requires RecordedJoin(g, eff, eff', phiBlock, done)
    ensures RecordedJoin(g, eff, eff', phiBlock, done + {b})
  {
    forall a: Block, z: Block
      ensures z in Lookup(eff', a) <==>
        z in Lookup(eff, a) || (z == phiBlock && a in done + {b} && a < g.NumBlocks() && CanDiverge(g.term[a]))
    {
      assert z in Lookup(eff', a) <==>
        z in Lookup(eff, a) || (z == phiBlock && a in done && a < g.NumBlocks() && CanDiverge(g.term[a]));
    }
  }

  lemma RecordedJoinAdd(g: Cfg, eff: map<Block, BlockSet>, prev: map<Block, BlockSet>, next: map<Block, BlockSet>,
                        phiBlock: Block, done: BlockSet, b: Block)
    requires b < g.NumBlocks() && CanDiverge(g.term[b])
    requires RecordedJoin(g, eff, prev, phiBlock, done)
    requires next == prev[b := Lookup(prev, b) + {phiBlock}]
    ensures RecordedJoin(g, eff, next, phiBlock, done + {b})
  {
    forall a: Block, z: Block
      ensures z in Lookup(next, a) <==>
        z in Lookup(eff, a) || (z == phiBlock && a in done + {b} && a < g.NumBlocks() && CanDiverge(g.term[a]))
    {
      assert z in Lookup(prev, a) <==>
        z in Lookup(eff, a) || (z == phiBlock && a in done && a < g.NumBlocks() && CanDiverge(g.term[a]));
      if a == b {
        assert Lookup(next, a) == Lookup(prev, a) + {phiBlock};
      } else {
        assert Lookup(next, a) == Lookup(prev, a);
      }
    }
  }

  /**
   * eff is the inversion of inverseMap restricted to the joins in done:
   * z is recorded under a exactly when a is in z's set and a can diverge.
   */
  ghost predicate InvertedOn(g: Cfg, inverseMap: map<Block, BlockSet>, done: set<Block>, eff: map<Block, BlockSet>) {
    forall a: Block, z: Block :: z in Lookup(eff, a) <==>
      z in done && z in inverseMap && a in inverseMap[z] && a < g.NumBlocks() && CanDiverge(g.term[a])
  }

  /** Every entry of the table is nonempty. */
  ghost predicate NoEmptyEntries(eff: map<Block, BlockSet>) {
    forall a :: a in eff ==> eff[a] != {}
  }

  lemma InvertedOnEmpty(g: Cfg, inverseMap: map<Block, BlockSet>)
    ensures InvertedOn(g, inverseMap, {}, map[])
  {
  }

  lemma InvertedOnStep(g: Cfg, inverseMap: map<Block, BlockSet>, done: set<Block>, phiBlock: Block,
                       eff: map<Block, BlockSet>, eff': map<Block, BlockSet>)
    requires phiBlock in inverseMap && phiBlock !in done
    requires InvertedOn(g, inverseMap, done, eff)
    requires RecordedJoin(g, eff, eff', phiBlock, inverseMap[phiBlock])
    ensures InvertedOn(g, inverseMap, done + {phiBlock}, eff')
  {
    forall a: Block, z: Block
      ensures z in Lookup(eff', a) <==>
        z in done + {phiBlock} && z in inverseMap && a in inverseMap[z] && a < g.NumBlocks() && CanDiverge(g.term[a])
    {
      assert z in Lookup(eff', a) <==>
        z in Lookup(eff, a) || (z == phiBlock && a in inverseMap[phiBlock] && a < g.NumBlocks() && CanDiverge(g.term[a]));
      assert z in Lookup(eff, a) <==>
        z in done && z in inverseMap && a in inverseMap[z] && a < g.NumBlocks() && CanDiverge(g.term[a]);
    }
  }

  /**
   * Inverts inverseMap into effectedBlocks: the table maps the branch block
   * (standing for its terminator) to the joins whose sets contain it, and
   * only branch blocks ending in a conditional branch or a switch get an entry.
   */
  method InvertToEffectedBlocks(g: Cfg, inverseMap: map<Block, BlockSet>)
    returns (effectedBlocks: map<Block, BlockSet>)
    requires forall z: Block, a: Block :: z in inverseMap && a in inverseMap[z] ==> a < g.NumBlocks()
    ensures InvertedOn(g, inverseMap, inverseMap.Keys, effectedBlocks)
    ensures NoEmptyEntries(effectedBlocks)
  {
    effectedBlocks := map[];
    var phiBlocks := inverseMap.Keys;
    InvertedOnEmpty(g, inverseMap);
    assert inverseMap.Keys - phiBlocks == {};
    while phiBlocks != {}
      invariant phiBlocks <= inverseMap.Keys
      invariant InvertedOn(g, inverseMap, inverseMap.Keys - phiBlocks, effectedBlocks)
      invariant NoEmptyEntries(effectedBlocks)
      decreases phiBlocks
    {
      var phiBlock :| phiBlock in phiBlocks;
      ghost var done := inverseMap.Keys - phiBlocks;
      ghost var before := effectedBlocks;
      effectedBlocks := InvertOne(g, phiBlock, inverseMap[phiBlock], effectedBlocks);
      InvertedOnStep(g, inverseMap, done, phiBlock, before, effectedBlocks);
      phiBlocks := phiBlocks - {phiBlock};
      assert done + {phiBlock} == inverseMap.Keys - phiBlocks;
    }
    assert inverseMap.Keys - phiBlocks == inverseMap.Keys;
  }

  // ---------------------------------------------------------------------
  // The constructor
  // ---------------------------------------------------------------------

  datatype Analysis = Analysis(
    pdClosureMap: map<Block, BlockSet>,
    domClosureMap: map<Block, BlockSet>,
    effectedBlocks: map<Block, BlockSet>)

  /** The joins a affects: those whose join set holds a, when a can diverge. */
  ghost function EffectedRow(g: Cfg, pd: map<Block, BlockSet>, dom: map<Block, BlockSet>, a: Block): BlockSet
    requires g.Valid() && CoversBlocks(g, pd)
  {
    set z: Block | z < g.NumBlocks() && a < g.NumBlocks() && a in JoinSet(g, pd, dom, z) && CanDiverge(g.term[a])
  }

  /**
   * The table relates each branch block to the joins it affects: z is
   * recorded under a exactly when a is in z's join set and can diverge.
   */
  ghost predicate EffectedTable(g: Cfg, pd: map<Block, BlockSet>, dom: map<Block, BlockSet>, eff: map<Block, BlockSet>)
    requires g.Valid() && CoversBlocks(g, pd)
  {
    forall a: Block :: Lookup(eff, a) == EffectedRow(g, pd, dom, a)
  }

  /** The inverted table relates branch blocks to the joins whose join sets hold them. */
  lemma EffectedTableMeaning(g: Cfg, pd: map<Block, BlockSet>, dom: map<Block, BlockSet>,
                             inverseMap: map<Block, BlockSet>, eff: map<Block, BlockSet>)
    requires g.Valid() && CoversBlocks(g, pd)
    requires forall z: Block :: z in inverseMap <==> z < g.NumBlocks()
    requires forall z :: z in inverseMap ==> inverseMap[z] == JoinSet(g, pd, dom, z)
    requires InvertedOn(g, inverseMap, inverseMap.Keys, eff)
    ensures EffectedTable(g, pd, dom, eff)
  {
    forall a: Block
      ensures Lookup(eff, a) == EffectedRow(g, pd, dom, a)
    {
      forall z: Block
        ensures z in Lookup(eff, a) <==> z in EffectedRow(g, pd, dom, a)
      {
        EffectedEntryMeaning(g, pd, dom, inverseMap, eff, a, z);
      }
    }
  }

  /** One entry of the inverted table, for the branch block a and the join z. */
  lemma EffectedEntryMeaning(g: Cfg, pd: map<Block, BlockSet>, dom: map<Block, BlockSet>,
                             inverseMap: map<Block, BlockSet>, eff: map<Block, BlockSet>, a: Block, z: Block)
    requires g.Valid() && CoversBlocks(g, pd)
    requires forall z: Block :: z in inverseMap <==> z < g.NumBlocks()
    requires forall z :: z in inverseMap ==> inverseMap[z] == JoinSet(g, pd, dom, z)
    requires InvertedOn(g, inverseMap, inverseMap.Keys, eff)
    ensures z in Lookup(eff, a) <==>
      && z < g.NumBlocks() && a < g.NumBlocks()
      && a in JoinSet(g, pd, dom, z)
      && CanDiverge(g.term[a])
  {
    assert z in Lookup(eff, a) <==>
      z in inverseMap.Keys && z in inverseMap && a in inverseMap[z] && a < g.NumBlocks() && CanDiverge(g.term[a]);
    assert z in inverseMap <==> z < g.NumBlocks();
    if z in inverseMap {
      assert inverseMap[z] == JoinSet(g, pd, dom, z);
    }
  }

  /**
   * The analysis as a whole. It fails with UnimplementedTopology whenever
   * a loop has an exit edge; otherwise it yields the two closure maps and the
   * table from each diverging branch block to the joins it affects.
   */
  method Analyze(g: Cfg, topLevelLoops: seq<Loop>) returns (r: Result<Analysis, BdaError>)
    requires g.Valid()
    ensures r.Err? <==> NestHasExitEdge(topLevelLoops)
    ensures r.Ok? ==>
      && IsClosureMap(g.NumBlocks(), g.cdgPreds, r.value.pdClosureMap)
      && IsClosureMap(g.NumBlocks(), g.dfgPreds, r.value.domClosureMap)
      && EffectedTable(g, r.value.pdClosureMap, r.value.domClosureMap, r.value.effectedBlocks)
  {
    var pdClosureMap, domClosureMap := ComputeClosureMaps(g);
    var inverseMap := ComputeInverseMap(g, pdClosureMap, domClosureMap);
    var tainted := TaintLoopExits(topLevelLoops, inverseMap);
    if tainted.Err? {
      return Err(tainted.error);
    }
    forall z, a | z in inverseMap && a in inverseMap[z]
      ensures a < g.NumBlocks()
    {
      JoinSetWithinBlocks(g, pdClosureMap, domClosureMap, z, a);
    }
    var effectedBlocks := InvertToEffectedBlocks(g, inverseMap);
    EffectedTableMeaning(g, pdClosureMap, domClosureMap, inverseMap, effectedBlocks);
    r := Ok(Analysis(pdClosureMap, domClosureMap, effectedBlocks));
  }

  /** The table's lookup for a terminator: the joins it affects, or the empty set. */
  function GetEffectedBlocks(a: Analysis, branchBlock: Block): (r: BlockSet)
    ensures branchBlock !in a.effectedBlocks ==> r == {}
  {
    Lookup(a.effectedBlocks, branchBlock)
  }

  /** For a successful analysis, the getter yields exactly the joins the terminator affects. */
  lemma GetEffectedBlocksMeaning(g: Cfg, an: Analysis, branchBlock: Block, z: Block)
    requires g.Valid() && CoversBlocks(g, an.pdClosureMap)
    requires EffectedTable(g, an.pdClosureMap, an.domClosureMap, an.effectedBlocks)
    ensures z in GetEffectedBlocks(an, branchBlock) <==>
      && z < g.NumBlocks() && branchBlock < g.NumBlocks()
      && branchBlock in JoinSet(g, an.pdClosureMap, an.domClosureMap, z)
      && CanDiverge(g.term[branchBlock])
  {
    assert GetEffectedBlocks(an, branchBlock) == EffectedRow(g, an.pdClosureMap, an.domClosureMap, branchBlock);
  }

  // ---------------------------------------------------------------------
  // Dominator-tree regions
  // ---------------------------------------------------------------------

  /** A node of the dominator tree. */
  datatype DomNode = DomNode(block: Block, children: seq<DomNode>)

  ghost predicate InDomSubtree(node: DomNode, b: Block)
    decreases node
  {
    b == node.block || exists i :: 0 <= i < |node.children| && InDomSubtree(node.children[i], b)
  }

  /** Adds every block of the dominator subtree rooted at domNode to domRegion. */
  method GetDomRegion(domNode: DomNode, domRegion: BlockSet) returns (region: BlockSet)
    ensures forall b :: b in region <==> b in domRegion || InDomSubtree(domNode, b)
    decreases domNode
  {
    region := domRegion + {domNode.block};
    for i := 0 to |domNode.children|
      invariant forall b :: b in region <==>
        b in domRegion || b == domNode.block ||
        exists k :: 0 <= k < i && InDomSubtree(domNode.children[k], b)
    {
      region := GetDomRegion(domNode.children[i], region);
    }
  }
}
