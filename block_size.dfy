/** The `size` query parameter: how many pixels wide and high each value's
    block is. Out-of-range requests are clamped, never rejected. */
module BlockSize {
  import opened Wrappers
  import opened JavaBits

  const MinSize: int := 1
  const MaxSize: int := 128

  /** Guava's Ints.constrainToRange: the value moved into [min, max]. */
  function ConstrainToRange(value: int, min: int, max: int): (r: int)
    requires min <= max
    ensures min <= r <= max
    ensures min <= value <= max ==> r == value
    ensures value < min ==> r == min
    ensures value > max ==> r == max
  {
    if value < min then min else if value > max then max else value
  }

  /** Main.getSize: the parsed `size` parameter clamped to [1, 128], or 1 when
      it is absent. */
  function GetSize(sizeParam: Option<Int>): (size: int)
    ensures MinSize <= size <= MaxSize
    ensures sizeParam.None? ==> size == 1
    ensures sizeParam.Some? && MinSize <= sizeParam.value <= MaxSize ==> size == sizeParam.value
    ensures sizeParam.Some? && sizeParam.value < MinSize ==> size == MinSize
    ensures sizeParam.Some? && sizeParam.value > MaxSize ==> size == MaxSize
  {
    match sizeParam
    case None => 1
    case Some(i) => ConstrainToRange(i, MinSize, MaxSize)
  }
}
