/** Types shared by the client and the tracker. A C++ `std::string` is a
    sequence of bytes here, whether it holds a name, a path or file contents. */
module Common {

  datatype Option<+T> = None | Some(value: T)

  type byte = x: int | 0 <= x < 256

  type bytes = seq<byte>

  const TWO_16: nat := 0x1_0000
  const TWO_31: nat := 0x8000_0000
  const TWO_32: nat := 0x1_0000_0000
  const TWO_64: nat := 0x1_0000_0000_0000_0000

  type uint32 = x: int | 0 <= x < TWO_32

  type Hash = x: int | 0 <= x < TWO_64
}
