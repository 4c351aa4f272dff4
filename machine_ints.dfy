/** The fixed-width integer types of the source, as ranges of unbounded integers. */
module MachineInts {
  type Byte = x: int | 0 <= x < 0x100
  type U16 = x: int | 0 <= x < 0x1_0000
  type I16 = x: int | -0x8000 <= x < 0x8000
  type U32 = x: int | 0 <= x < 0x1_0000_0000
  type I32 = x: int | -0x8000_0000 <= x < 0x8000_0000
}
