/** The fixed-width integers of the C and Go sources.  Every intermediate result of the
    source is stored in a variable of one of these types, so the verifier checks that
    nothing overflows. */
module MachineInts {
  type int64 = x: int | -0x8000_0000_0000_0000 <= x < 0x8000_0000_0000_0000
  type uint32 = x: int | 0 <= x < 0x1_0000_0000
  type uint8 = x: int | 0 <= x < 0x100
}
