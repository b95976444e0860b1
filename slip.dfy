/// The SLIP escape codes (RFC 1055, section "PROTOCOL") and the byte type
/// that the encoder and the decoder work on.
module Slip {

  /** One element of a Uint8Array. */
  newtype byte = x: int | 0 <= x < 256

  /** Frame delimiter. */
  const END: byte := 0xC0
  /** Starts a two-byte escape sequence. */
  const ESC: byte := 0xDB
  /** Second byte of the escape sequence standing for END. */
  const ESC_END: byte := 0xDC
  /** Second byte of the escape sequence standing for ESC. */
  const ESC_ESC: byte := 0xDD
}
