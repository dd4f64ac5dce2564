/** The fixed-width integer types of the C++ code, as bounded newtypes:
    the unsigned ones hold bytes and bit patterns, the signed ones hold
    the payloads of the integral tags. */
module FixedWidth {

  newtype byte = x: int | 0 <= x < 0x100
  newtype uint32 = x: int | 0 <= x < 0x1_0000_0000
  newtype uint64 = x: int | 0 <= x < 0x1_0000_0000_0000_0000

  newtype int8 = x: int | -0x80 <= x < 0x80
  newtype int16 = x: int | -0x8000 <= x < 0x8000
  newtype int32 = x: int | -0x8000_0000 <= x < 0x8000_0000
  newtype int64 = x: int | -0x8000_0000_0000_0000 <= x < 0x8000_0000_0000_0000

  /** A std::string: a run of bytes with no encoding imposed. */
  type Bytes = seq<byte>
}
