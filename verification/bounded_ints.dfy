/** The fixed-width C++ integer types the grid stores and computes with. */
module BoundedInts {
  newtype int16 = x: int | -0x8000 <= x < 0x8000
  newtype uint8 = x: int | 0 <= x < 0x100
  newtype uint16 = x: int | 0 <= x < 0x1_0000
  newtype uint32 = x: int | 0 <= x < 0x1_0000_0000
}
