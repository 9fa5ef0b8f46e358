/** The fixed-width unsigned integers of the source, and the size of the TCP receive window. */
module Common {
  const TWO16: int := 0x1_0000
  const TWO31: int := 0x8000_0000
  const TWO32: int := 0x1_0000_0000

  newtype uint8 = x: int | 0 <= x < 0x100

  type uint16 = x: nat | x < TWO16
  type uint32 = x: nat | x < TWO32
  type uint64 = x: nat | x < 0x1_0000_0000_0000_0000

  /** The two bytes of a number in network order. */
  function BigEndian(x: uint16): seq<uint8> {
    [(x / 256) as uint8, (x % 256) as uint8]
  }

  const WINDOW: nat := 65536

  /** A place in the receive window: the low 16 bits of a sequence number. */
  type Position = p: nat | p < WINDOW

  /** The payload of a packet; its length is a 16-bit number. */
  type Payload = s: seq<uint8> | |s| < TWO16

  datatype Option<+T> = None | Some(value: T)
}
