/** Java's primitive `int`: the width of the node counts and of every ring position. */
module JavaTypes {

  const MinInt32: int := -0x8000_0000
  const MaxInt32: int := 0x7fff_ffff

  /** A signed 32-bit value, ordered as a signed integer (not by unsigned magnitude). */
  type Int32 = x: int | MinInt32 <= x <= MaxInt32
}
