/** Numbers as the target machine holds them, and the constants of `ymodem.h`, `common.h` and `JumpApp.h`. */
module Machine {
  datatype Option<+T> = None | Some(value: T)

  type byte = b: int | 0 <= b < 0x100
  type word = w: int | 0 <= w < 0x1_0000_0000

  /** Conversion of any integer to `uint32_t`. */
  function ToU32(x: int): word {
    x % 0x1_0000_0000
  }

  /** Conversion of a `uint32_t` to `int32_t` (two's complement). */
  function ToI32(w: word): int {
    if w < 0x8000_0000 then w else w - 0x1_0000_0000
  }

  const SOH: byte := 0x01
  const STX: byte := 0x02
  const EOT: byte := 0x04
  const ACK: byte := 0x06
  const NAK: byte := 0x15
  const CA: byte := 0x18
  const CRC16: byte := 0x43
  const ABORT1: byte := 0x41
  const ABORT2: byte := 0x61
  const SPACE: byte := 0x20

  const PACKET_SEQNO_INDEX: nat := 1
  const PACKET_SEQNO_COMP_INDEX: nat := 2
  const PACKET_HEADER: nat := 3
  const PACKET_OVERHEAD: nat := 5
  const PACKET_SIZE: nat := 128
  const PACKET_1K_SIZE: nat := 1024
  const PACKET_BUFFER: nat := PACKET_1K_SIZE + PACKET_OVERHEAD
  const FILE_NAME_LENGTH: nat := 256
  const FILE_SIZE_LENGTH: nat := 16
  const NAK_TIMEOUT: nat := 0x10_0000
  const MAX_ERRORS: nat := 5

  const PAGE_SIZE: nat := 0x800
  const FLASH_SIZE: nat := 0x80000 - 0x5000
  const APPLICATION_ADDRESS: nat := 0x0800_5000
  const ERASED: word := 0xFFFF_FFFF
}
