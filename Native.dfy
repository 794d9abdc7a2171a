/**
 * Grouping of memory accesses by constant offsets: a group keeps the
 * address expressions of one base in lane-sized slots, and the grouper
 * files each new address into the first group it has a constant lane
 * offset to, or opens a new group for it.
 */
module Native {
  import opened Wrappers

  /** A scalar-evolution expression, by identity. */
  type Scev = nat

  /** A slot of a group: an address expression, or a null pointer. */
  type Element = Option<Scev>

  /** The lane sizes the grouper supports, in bytes. */
  type LaneByteSize = n: nat | n == 4 || n == 8 witness 4

  function Max(a: int, b: int): int { if a < b then b else a }

  /** k null slots. */
  function Nulls(k: nat): (r: seq<Element>)
    ensures |r| == k && forall i :: 0 <= i < k ==> r[i] == None
  {
    seq(k, _ => None)
  }

  /** std::vector's resize with nullptr fill: truncates or pads with nulls. */
  function Resize(s: seq<Element>, n: nat): (r: seq<Element>)
    ensures |r| == n
    ensures forall i :: 0 <= i < n ==> r[i] == (if i < |s| then s[i] else None)
  {
    if n <= |s| then s[..n] else s + Nulls(n - |s|)
  }

  /** memmove of count slots from src to dst within s: the other slots keep their values. */
  function MoveWithin(s: seq<Element>, dst: nat, src: nat, count: nat): (r: seq<Element>)
    requires dst + count <= |s| && src + count <= |s|
    ensures |r| == |s|
    ensures forall i :: 0 <= i < |s| ==> r[i] == (if dst <= i < dst + count then s[src + i - dst] else s[i])
  {
    s[..dst] + s[src..src + count] + s[dst + count..]
  }

  // ---------------------------------------------------------------------
  // Groups as values
  // ---------------------------------------------------------------------

  /** The state of a group: its slots and the number of slots in use. */
  datatype GroupState = GroupState(elements: seq<Element>, topIdx: nat)

  /** topIdx never exceeds the slots, and is zero exactly for the empty group. */
  predicate WellFormed(g: GroupState)
  {
    g.topIdx <= |g.elements| && (g.topIdx == 0 <==> |g.elements| == 0)
  }

  /** The group has an address in its first slot, which the grouper compares against. */
  predicate Fronted(g: GroupState)
  {
    |g.elements| > 0 && g.elements[0].Some?
  }

  function Front(g: GroupState): Scev
    requires Fronted(g)
  {
    g.elements[0].value
  }

  /** The group the constructor builds from one address. */
  function Singleton(scev: Scev): GroupState
  {
    GroupState([Some(scev)], 1)
  }

  datatype InsertError = OutOfBoundsWrite(index: int, size: nat)

  /**
   * insert exactly as written: it grows the slots only when offset > topIdx,
   * so an offset equal to a topIdx that already fills every slot writes one
   * past the end, reported here as an error.
   */
  function InsertAsWritten(g: GroupState, scev: Scev, offset: int): (r: Result<GroupState, InsertError>)
    ensures r.Err? ==> 0 <= r.error.size <= r.error.index
    ensures r.Ok? ==> |g.elements| <= |r.value.elements|
  {
    if |g.elements| == 0 then Ok(Singleton(scev))
    else if offset >= 0 then
      var grown := if offset > g.topIdx then Resize(g.elements, Max(2 * |g.elements|, offset + 1)) else g.elements;
      if offset < |grown| then Ok(GroupState(grown[offset := Some(scev)], Max(g.topIdx, offset + 1)))
      else Err(OutOfBoundsWrite(offset, |grown|))
    else
      Ok(GroupState([Some(scev)] + Nulls(-offset - 1) + g.elements, g.topIdx - offset))
  }

  /**
   * insert that also grows the slots when offset names no existing slot,
   * which keeps every write in bounds.
   */
  function Inserted(g: GroupState, scev: Scev, offset: int): (r: GroupState)
    requires WellFormed(g)
    ensures WellFormed(r)
    ensures |g.elements| <= |r.elements| && g.topIdx <= r.topIdx
  {
    if |g.elements| == 0 then Singleton(scev)
    else if offset >= 0 then
      var grown := if offset > g.topIdx || offset >= |g.elements| then Resize(g.elements, Max(2 * |g.elements|, offset + 1)) else g.elements;
      GroupState(grown[offset := Some(scev)], Max(g.topIdx, offset + 1))
    else
      GroupState([Some(scev)] + Nulls(-offset - 1) + g.elements, g.topIdx - offset)
  }

  /** The written insert goes out of bounds exactly when offset == topIdx == the number of slots. */
  lemma InsertAsWrittenOutOfBounds(g: GroupState, scev: Scev, offset: int)
    requires WellFormed(g)
    ensures InsertAsWritten(g, scev, offset).Err? <==>
      |g.elements| > 0 && offset == g.topIdx == |g.elements|
  {
  }

  /**
   * A group built from one address a, and an address one lane above a:
   * the written insert writes slot 1 of a one-slot vector.
   */
  lemma AdjacentInsertIntoSingletonOverflows(a: Scev, b: Scev)
    ensures InsertAsWritten(Singleton(a), b, 1) == Err(OutOfBoundsWrite(1, 1))
    ensures Inserted(Singleton(a), b, 1) == GroupState([Some(a), Some(b)], 2)
  {
    var grown := Resize([Some(a)], 2);
    assert grown == [Some(a), None];
  }

  /** The corrected insert changes no insert that the written code performs in bounds. */
  lemma InsertedAgreesWhenInBounds(g: GroupState, scev: Scev, offset: int)
    requires WellFormed(g)
    ensures InsertAsWritten(g, scev, offset).Ok? ==> InsertAsWritten(g, scev, offset) == Ok(Inserted(g, scev, offset))
  {
  }

  /**
   * Inserts at offsets 2, 4 and 5 into a one-address group: the last one
   * finds topIdx == 5 with six slots and writes in place, in both readings.
   */
  lemma InsertInPlaceAtTop(a: Scev, b: Scev, c: Scev, d: Scev)
    ensures var g1 := Inserted(Singleton(a), b, 2);
      var g2 := Inserted(g1, c, 4);
      var g3 := Inserted(g2, d, 5);
      g2 == GroupState([Some(a), None, Some(b), None, Some(c), None], 5) &&
      g3 == GroupState([Some(a), None, Some(b), None, Some(c), Some(d)], 6) &&
      InsertAsWritten(g2, d, 5) == Ok(g3)
  {
    var g1 := Inserted(Singleton(a), b, 2);
    assert Resize([Some(a)], 3) == [Some(a), None, None];
    assert g1 == GroupState([Some(a), None, Some(b)], 3);
    assert Resize(g1.elements, 6) == [Some(a), None, Some(b), None, None, None];
  }

  /** Whenever the written insert stays in bounds, its result is well formed. */
  lemma InsertAsWrittenWellFormed(g: GroupState, scev: Scev, offset: int)
    requires WellFormed(g)
    ensures InsertAsWritten(g, scev, offset).Ok? ==> WellFormed(InsertAsWritten(g, scev, offset).value)
  {
  }

  /** Insert into the empty group: the address alone, in use. */
  lemma InsertedIntoEmpty(g: GroupState, scev: Scev, offset: int)
    requires WellFormed(g) && |g.elements| == 0
    ensures Inserted(g, scev, offset) == Singleton(scev)
  {
  }

  /**
   * Insert at a non-negative offset: the address lands in slot offset, no
   * other address moves, new slots are null, and topIdx covers the new slot.
   */
  lemma InsertedAtOffset(g: GroupState, scev: Scev, offset: int)
    requires WellFormed(g) && |g.elements| > 0 && offset >= 0
    ensures var r := Inserted(g, scev, offset);
      offset < |r.elements| && |g.elements| <= |r.elements| &&
      r.elements[offset] == Some(scev) &&
      r.topIdx == Max(g.topIdx, offset + 1) &&
      forall i :: 0 <= i < |r.elements| && i != offset ==>
        r.elements[i] == (if i < |g.elements| then g.elements[i] else None)
  {
  }

  /**
   * Insert at a negative offset -k: the address goes to slot 0, slots
   * 1..k-1 are null, the old slots follow shifted by k, and topIdx grows by k.
   */
  lemma InsertedBelow(g: GroupState, scev: Scev, offset: int)
    requires WellFormed(g) && |g.elements| > 0 && offset < 0
    ensures var r := Inserted(g, scev, offset); var k := -offset;
      |r.elements| == |g.elements| + k &&
      r.elements[0] == Some(scev) &&
      (forall i :: 1 <= i < k ==> r.elements[i] == None) &&
      r.elements[k..] == g.elements &&
      r.topIdx == g.topIdx + k
  {
    var r := Inserted(g, scev, offset);
    assert r.elements == [Some(scev)] + Nulls(-offset - 1) + g.elements;
    assert r.elements[-offset..] == g.elements;
  }

  /** Insert keeps a group well formed, and keeps an address in its first slot. */
  lemma InsertedWellFormed(g: GroupState, scev: Scev, offset: int)
    requires WellFormed(g)
    ensures WellFormed(Inserted(g, scev, offset))
    ensures Fronted(g) || |g.elements| == 0 ==> Fronted(Inserted(g, scev, offset))
  {
  }

  class MemoryGroup {
    var topIdx: nat
    var elements: seq<Element>

    function State(): GroupState
      reads this
    {
      GroupState(elements, topIdx)
    }

    ghost predicate Valid()
      reads this
    {
      WellFormed(State())
    }

    /** A group holding one address. */
    constructor Of(scev: Scev)
      ensures State() == Singleton(scev)
      ensures Valid() && Fronted(State())
    {
      topIdx := 1;
      elements := [Some(scev)];
    }

    /** The empty group. */
    constructor ()
      ensures State() == GroupState([], 0)
      ensures Valid()
    {
      topIdx := 0;
      elements := [];
    }

    /** Files scev at the given lane offset relative to the first slot. */
    method Insert(scev: Scev, offset: int)
      requires Valid()
      modifies this
      ensures Valid()
      ensures State() == Inserted(old(State()), scev, offset)
    {
      if |elements| == 0 {
        topIdx := 1;
        elements := elements + [Some(scev)];
      } else if offset >= 0 {
        if offset > topIdx || offset >= |elements| {
          elements := Resize(elements, Max(|elements| * 2, offset + 1));
        }
        elements := elements[offset := Some(scev)];
        topIdx := Max(topIdx, offset + 1);
      } else {
        ghost var old_elements, old_topIdx := elements, topIdx;
        var shiftValue: nat := -offset;
        var oldSize := |elements|;
        elements := Resize(elements, |elements| + shiftValue);
        elements := MoveWithin(elements, shiftValue, 0, oldSize);
        ghost var moved := elements;
        for i := 1 to shiftValue
          invariant |elements| == oldSize + shiftValue && topIdx == old_topIdx
          invariant forall j :: 0 <= j < |elements| ==> elements[j] == (if 1 <= j < i then None else moved[j])
        {
          elements := elements[i := None];
        }
        elements := elements[0 := Some(scev)];
        topIdx := topIdx + shiftValue;
        assert elements == [Some(scev)] + Nulls(shiftValue - 1) + old_elements;
      }
    }
  }

  // ---------------------------------------------------------------------
  // Constant offsets
  // ---------------------------------------------------------------------

  /** The shape of the difference a - b that scalar evolution returns. */
  datatype Difference =
    /** An unknown that is the size of float or of i32. */
    | UnitSize
    /** A constant number of bytes, of at most 64 bits. */
    | ConstantBytes(bytes: int)
    /** A product of a constant and an unknown; componentStride when the unknown is the size of the lane type. */
    | ScaledSize(factor: int, componentStride: bool)
    /** Anything else. */
    | Other

  /** The (int) cast of a value of at most 64 bits: its low 32 bits in two's complement. */
  function Int32(x: int): (r: int)
    ensures -0x8000_0000 <= r < 0x8000_0000
    ensures (r - x) % 0x1_0000_0000 == 0
  {
    (x + 0x8000_0000) % 0x1_0000_0000 - 0x8000_0000
  }

  /**
   * getConstantOffset as written: with an unsigned lane size, byteOffset % laneByteSize
   * and byteOffset / laneByteSize convert byteOffset to unsigned first.
   */
  function ConstantOffsetAsWritten(diff: Difference, laneByteSize: LaneByteSize): (r: Option<int>)
    ensures diff.ConstantBytes? && r.Some? ==> 0 <= r.value < 0x1_0000_0000 / laneByteSize
  {
    match diff
    case UnitSize => Some(1)
    case ConstantBytes(d) =>
      var asUnsigned := Int32(d) % 0x1_0000_0000;
      if asUnsigned % laneByteSize != 0 then None else Some(asUnsigned / laneByteSize)
    case ScaledSize(factor, componentStride) => if componentStride then Some(Int32(factor)) else None
    case Other => None
  }

  /**
   * getConstantOffset with signed arithmetic on the byte offset. Dafny's
   * remainder is zero exactly when C's is, and the quotient is exact then.
   */
  function ConstantOffset(diff: Difference, laneByteSize: LaneByteSize): (r: Option<int>)
    ensures r.Some? ==> -0x8000_0000 <= r.value < 0x8000_0000
  {
    match diff
    case UnitSize => Some(1)
    case ConstantBytes(d) =>
      var byteOffset := Int32(d);
      if byteOffset % laneByteSize != 0 then None else Some(byteOffset / laneByteSize)
    case ScaledSize(factor, componentStride) => if componentStride then Some(Int32(factor)) else None
    case Other => None
  }

  /**
   * A constant difference yields an offset exactly when its 32-bit byte offset
   * is a multiple of the lane size, and the offset counts lanes between the addresses.
   */
  lemma ConstantOffsetCountsLanes(d: int, laneByteSize: LaneByteSize)
    ensures ConstantOffset(ConstantBytes(d), laneByteSize).Some? <==> Int32(d) % laneByteSize == 0
    ensures ConstantOffset(ConstantBytes(d), laneByteSize).Some? ==>
      ConstantOffset(ConstantBytes(d), laneByteSize).value * laneByteSize == Int32(d)
  {
    var b := Int32(d);
    if b % laneByteSize == 0 {
      assert b == laneByteSize * (b / laneByteSize) + b % laneByteSize;
    }
  }

  /** Only a difference of the three recognised shapes yields an offset. */
  lemma ConstantOffsetShapes(diff: Difference, laneByteSize: LaneByteSize)
    ensures diff == UnitSize ==> ConstantOffset(diff, laneByteSize) == Some(1)
    ensures diff.Other? ==> ConstantOffset(diff, laneByteSize) == None
    ensures diff.ScaledSize? ==>
      (ConstantOffset(diff, laneByteSize).Some? <==> diff.componentStride) &&
      (diff.componentStride ==> ConstantOffset(diff, laneByteSize) == Some(Int32(diff.factor)))
  {
  }

  /** The unsigned reading decides divisibility like the signed one, since 4 and 8 divide 2^32. */
  lemma AsWrittenDivisibilityAgrees(d: int, laneByteSize: LaneByteSize)
    ensures ConstantOffsetAsWritten(ConstantBytes(d), laneByteSize).Some? <==>
      ConstantOffset(ConstantBytes(d), laneByteSize).Some?
  {
    var b := Int32(d);
    if b < 0 {
      assert b % 0x1_0000_0000 == b + 0x1_0000_0000;
      assert (b + 0x1_0000_0000) % laneByteSize == b % laneByteSize by {
        if laneByteSize == 4 {
          assert b + 0x1_0000_0000 == b + 4 * 0x4000_0000;
        } else {
          assert b + 0x1_0000_0000 == b + 8 * 0x2000_0000;
        }
      }
    }
  }

  /** For non-negative byte offsets the written and the signed reading agree. */
  lemma AsWrittenAgreesOnNonNegative(diff: Difference, laneByteSize: LaneByteSize)
    requires diff.ConstantBytes? ==> Int32(diff.bytes) >= 0
    ensures ConstantOffsetAsWritten(diff, laneByteSize) == ConstantOffset(diff, laneByteSize)
  {
  }

  /** An address one lane below the group's front: the written code reports 2^30 - 1 lanes above it. */
  lemma NegativeByteOffsetMisread()
    ensures ConstantOffsetAsWritten(ConstantBytes(-4), 4) == Some(0x3FFF_FFFF)
    ensures ConstantOffset(ConstantBytes(-4), 4) == Some(-1)
  {
  }

  // ---------------------------------------------------------------------
  // The grouper
  // ---------------------------------------------------------------------

  /** Every group is well formed and has an address in its first slot. */
  predicate GroupsValid(states: seq<GroupState>)
  {
    forall i :: 0 <= i < |states| ==> WellFormed(states[i]) && Fronted(states[i])
  }

  /** The first group at index from or later with a constant offset to addr, with that offset. */
  function FirstMatch(states: seq<GroupState>, addr: Scev, laneByteSize: LaneByteSize,
                      difference: (Scev, Scev) -> Difference, from: nat): (r: Option<(nat, int)>)
    requires GroupsValid(states) && from <= |states|
    ensures r.Some? ==> (from <= r.value.0 < |states| &&
      ConstantOffset(difference(addr, Front(states[r.value.0])), laneByteSize) == Some(r.value.1))
    ensures r.Some? ==> forall j :: from <= j < r.value.0 ==>
      ConstantOffset(difference(addr, Front(states[j])), laneByteSize).None?
    ensures r.None? ==> forall j :: from <= j < |states| ==>
      ConstantOffset(difference(addr, Front(states[j])), laneByteSize).None?
    decreases |states| - from
  {
    if from == |states| then None
    else match ConstantOffset(difference(addr, Front(states[from])), laneByteSize)
      case Some(offset) => Some((from, offset))
      case None => FirstMatch(states, addr, laneByteSize, difference, from + 1)
  }

  /** The groups after add(addr): the first matching group takes addr, or a new group opens. */
  function Added(states: seq<GroupState>, addr: Scev, laneByteSize: LaneByteSize,
                 difference: (Scev, Scev) -> Difference): (r: seq<GroupState>)
    requires GroupsValid(states)
    ensures |r| == |states| || (|r| == |states| + 1 && r[..|states|] == states && r[|states|] == Singleton(addr))
  {
    match FirstMatch(states, addr, laneByteSize, difference, 0)
    case Some((k, offset)) => states[k := Inserted(states[k], addr, offset)]
    case None => states + [Singleton(addr)]
  }

  /**
   * add keeps every group valid; it opens a new group exactly when no
   * existing group has a constant offset to the address, and otherwise
   * changes only the first group that has one.
   */
  lemma AddedKeepsGroups(states: seq<GroupState>, addr: Scev, laneByteSize: LaneByteSize,
                         difference: (Scev, Scev) -> Difference)
    requires GroupsValid(states)
    ensures var r := Added(states, addr, laneByteSize, difference);
      GroupsValid(r) &&
      (|r| == |states| + 1 <==>
        forall j :: 0 <= j < |states| ==> ConstantOffset(difference(addr, Front(states[j])), laneByteSize).None?) &&
      (|r| == |states| + 1 ==> r[..|states|] == states && r[|states|] == Singleton(addr)) &&
      (|r| == |states| ==> (exists k ::
        0 <= k < |states| && r == states[k := r[k]] &&
        ConstantOffset(difference(addr, Front(states[k])), laneByteSize).Some? &&
        (forall j :: 0 <= j < k ==> ConstantOffset(difference(addr, Front(states[j])), laneByteSize).None?)))
  {
    var m := FirstMatch(states, addr, laneByteSize, difference, 0);
    var r := Added(states, addr, laneByteSize, difference);
    match m
    case Some((k, offset)) =>
      InsertedWellFormed(states[k], addr, offset);
      assert r == states[k := r[k]];
    case None =>
      assert r[..|states|] == states;
  }

  /**
   * add uses the signed offset: an address one lane below the only group's
   * front is prepended to that group through insert's negative branch.
   */
  lemma AddBelowFrontPrepends(a: Scev, b: Scev, difference: (Scev, Scev) -> Difference)
    requires difference(b, a) == ConstantBytes(-4)
    ensures Added([Singleton(a)], b, 4, difference) == [GroupState([Some(b), Some(a)], 2)]
  {
    assert ConstantOffset(ConstantBytes(-4), 4) == Some(-1);
    assert FirstMatch([Singleton(a)], b, 4, difference, 0) == Some((0, -1));
    assert Inserted(Singleton(a), b, -1) == GroupState([Some(b)] + Nulls(0) + [Some(a)], 2);
    assert [Some(b)] + Nulls(0) + [Some(a)] == [Some(b), Some(a)];
  }

  class MemoryAccessGrouper {
    const laneByteSize: LaneByteSize
    /** Scalar evolution's difference a - b, classified. */
    const difference: (Scev, Scev) -> Difference
    var memoryGroups: seq<MemoryGroup>
    /** The states of memoryGroups, in order. */
    ghost var groupStates: seq<GroupState>
    ghost var Repr: set<object>

    ghost predicate Valid()
      reads this, Repr
    {
      this in Repr &&
      |groupStates| == |memoryGroups| &&
      (forall i :: 0 <= i < |memoryGroups| ==>
        memoryGroups[i] in Repr && memoryGroups[i].State() == groupStates[i]) &&
      (forall i, j :: 0 <= i < j < |memoryGroups| ==> memoryGroups[i] != memoryGroups[j]) &&
      GroupsValid(groupStates)
    }

    constructor (difference: (Scev, Scev) -> Difference, laneByteSize: LaneByteSize)
      ensures Valid() && fresh(Repr)
      ensures this.laneByteSize == laneByteSize && this.difference == difference
      ensures groupStates == []
    {
      this.laneByteSize := laneByteSize;
      this.difference := difference;
      memoryGroups := [];
      groupStates := [];
      Repr := {this};
    }

    /** The insert into group i, the first one with a constant offset to addr. */
    method InsertIntoGroup(i: nat, addr: Scev, offset: int)
      requires Valid() && i < |memoryGroups|
      requires FirstMatch(groupStates, addr, laneByteSize, difference, 0) == Some((i, offset))
      modifies Repr
      ensures Valid() && Repr == old(Repr)
      ensures groupStates == Added(old(groupStates), addr, laneByteSize, difference)
    {
      var group := memoryGroups[i];
      InsertedWellFormed(groupStates[i], addr, offset);
      group.Insert(addr, offset);
      groupStates := groupStates[i := group.State()];
    }

    /** A new singleton group for addr, when no group has a constant offset to it. */
    method AppendGroup(addr: Scev)
      requires Valid()
      requires FirstMatch(groupStates, addr, laneByteSize, difference, 0) == None
      modifies this
      ensures Valid() && fresh(Repr - old(Repr))
      ensures groupStates == Added(old(groupStates), addr, laneByteSize, difference)
    {
      var freshGroup := new MemoryGroup.Of(addr);
      memoryGroups := memoryGroups + [freshGroup];
      groupStates := groupStates + [freshGroup.State()];
      Repr := Repr + {freshGroup};
    }

    /** Files the address into the groups; returns it unchanged. */
    method Add(addr: Scev) returns (r: Scev)
      requires Valid()
      modifies Repr
      ensures Valid() && fresh(Repr - old(Repr))
      ensures r == addr
      ensures groupStates == Added(old(groupStates), addr, laneByteSize, difference)
    {
      // the scan changes nothing; the matching group, if any, is updated after it
      var i := 0;
      while i < |memoryGroups|
        invariant 0 <= i <= |memoryGroups|
        invariant FirstMatch(groupStates, addr, laneByteSize, difference, i) ==
                  FirstMatch(groupStates, addr, laneByteSize, difference, 0)
      {
        var offset := ConstantOffset(difference(addr, memoryGroups[i].elements[0].value), laneByteSize);
        if offset.Some? {
          break;
        }
        i := i + 1;
      }
      if i < |memoryGroups| {
        var offset := ConstantOffset(difference(addr, memoryGroups[i].elements[0].value), laneByteSize).value;
        InsertIntoGroup(i, addr, offset);
      } else {
        AppendGroup(addr);
      }
      r := addr;
    }
  }
}
