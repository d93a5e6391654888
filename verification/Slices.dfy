/** Byte strings. The repository passes them around as `Slice`, a pointer and a length. */
module Slices {

  type Byte = b: int | 0 <= b < 256

  type Slice = seq<Byte>
}
