/** Machine integers of the driver. As subset types they make Dafny check, at every assignment,
    that the arithmetic of the C++ code stays in range. */
module MachineTypes {
  type byte = x: int | 0 <= x < 0x100
  type uint16 = x: int | 0 <= x < 0x1_0000
  type uint32 = x: int | 0 <= x < 0x1_0000_0000

  /** A MAC address or BSSID. */
  type Mac = m: seq<byte> | |m| == 6 witness [0, 0, 0, 0, 0, 0]

  const ZERO_MAC: Mac := [0, 0, 0, 0, 0, 0]

  /** A `const uint8_t *` argument: null, or the bytes readable through it. The callee never writes
      them, so they are a value. */
  datatype ConstBytes = Null | At(bytes: seq<byte>) {
    /** The caller's promise that `len` bytes are readable. */
    predicate Holds(len: nat) { At? ==> len <= |bytes| }

    /** The bytes an (address, length) pair denotes; null denotes no bytes. */
    function Bytes(len: nat): seq<byte>
      requires Holds(len)
    {
      if Null? then [] else bytes[..len]
    }
  }
}
