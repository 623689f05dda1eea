/** The value types shared by the snake engine: directions, tile kinds,
    grid points, and the unsigned integer ranges the engine computes in. */
module Types {

  /** One more than the largest `std::size_t` (64-bit). */
  const SIZE_LIMIT: nat := 0x1_0000_0000_0000_0000
  const SIZE_MAX: nat := SIZE_LIMIT - 1

  /** One more than the largest `uint32_t`. */
  const U32_LIMIT: nat := 0x1_0000_0000

  /** A value of type `std::size_t`. */
  type Size = x: nat | x < SIZE_LIMIT

  /** A value of type `uint32_t`. */
  type U32 = x: nat | x < U32_LIMIT

  datatype Direction = North | South | East | West

  /** The kind of one grid cell; `Empty` is the zero value of the enumeration. */
  datatype Tile = Empty | Fruit | Body

  /** A grid coordinate: row `i`, column `j`, both unsigned. */
  datatype Point = Point(i: Size, j: Size)

  datatype Option<T> = None | Some(value: T)

  /** The zero- or one-element sequence holding the value of `o`. */
  function OptionSeq<T>(o: Option<T>): seq<T> {
    match o
    case None => []
    case Some(v) => [v]
  }
}
