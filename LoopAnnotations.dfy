/** Loop annotations: the iteration-count type and a minimal optional container. */
module LoopAnnotations {

  /** iter_t: a signed 64-bit integer. */
  newtype int64 = x: int | -0x8000_0000_0000_0000 <= x < 0x8000_0000_0000_0000

  /** The dependence distance of a loop without loop-carried dependences. */
  const ParallelDistance: int64 := 0x7FFF_FFFF_FFFF_FFFF

  /** ParallelDistance is the largest iter_t. */
  lemma ParallelDistanceIsMax(d: int64)
    ensures d <= ParallelDistance
  {
  }

  /** A value that may be unset. */
  class Optional<T(0)> {
    var hasValue: bool
    var value: T

    /** An unset container; its value is left uninitialised. */
    constructor ()
      ensures !IsSet()
      ensures forall d :: SafeGet(d) == d
    {
      hasValue := false;
    }

    constructor Of(val: T)
      ensures IsSet() && Get() == val
      ensures forall d :: SafeGet(d) == val
    {
      hasValue := true;
      value := val;
    }

    predicate IsSet()
      reads this
    {
      hasValue
    }

    /** The stored value; for an unset container, whatever the field holds. */
    function Get(): T
      reads this
    {
      value
    }

    /** The stored value when set, defaultVal otherwise. */
    function SafeGet(defaultVal: T): (r: T)
      reads this
      ensures IsSet() ==> r == Get()
      ensures !IsSet() ==> r == defaultVal
    {
      if IsSet() then Get() else defaultVal
    }

    /** Assignment of a value: stores it and marks the container set. */
    method Assign(v: T) returns (self: Optional<T>)
      modifies this
      ensures self == this
      ensures IsSet() && Get() == v
      ensures forall d :: SafeGet(d) == v
    {
      value := v;
      hasValue := true;
      self := this;
    }
  }

  /** The vectorization hints of a loop; every hint starts unset. */
  class LoopMD {
    /** Whether the loop explicitly enables or disables vectorization. */
    const vectorizeEnable: Optional<bool>
    /** A mandatory vector width. */
    const explicitVectorWidth: Optional<int64>
    /** The minimum dependence distance between two iterations. */
    const minDepDist: Optional<int64>

    constructor ()
      ensures fresh(vectorizeEnable) && fresh(explicitVectorWidth) && fresh(minDepDist)
      ensures !vectorizeEnable.IsSet() && !explicitVectorWidth.IsSet() && !minDepDist.IsSet()
    {
      vectorizeEnable := new Optional();
      explicitVectorWidth := new Optional();
      minDepDist := new Optional();
    }
  }
}
