/** The fixed-width C integer types that the modelled code declares its
    variables with. */
module StdInt {

  /** `int8_t`: the three-way result of a comparator callback. */
  newtype int8 = x: int | -128 <= x < 0x80

  /** `uint8_t`. */
  newtype uint8 = x: int | 0 <= x < 0x100

  /** `uint16_t`. */
  newtype uint16 = x: int | 0 <= x < 0x1_0000
}
