/** Machine integers of the program, and the optional value that stands for its null pointers. */
module Basics {

  type byte = x: int | 0 <= x < 0x100
  type uint16 = x: int | 0 <= x < 0x1_0000
  type uint32 = x: int | 0 <= x < 0x1_0000_0000
  type uint64 = x: int | 0 <= x < 0x1_0000_0000_0000_0000

  /** A C string without its terminator, or any run of bytes of a file. */
  type Text = seq<byte>

  datatype Option<+T> = None | Some(value: T)
}
