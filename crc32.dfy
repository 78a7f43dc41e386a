/** The constants of the abstract class CRC32 in crc32.php: the polynomials, in the
    reflected (low bit first) form the table builder expects, and the checksum size. */
module Crc32 {

  /** IEEE 802.3, as used by Ethernet, gzip, zip and png. */
  const IEEE: bv32 := 0xedb8_8320

  /** Castagnoli's polynomial (CRC-32C), as used by iSCSI and SCTP. */
  const CASTAGNOLI: bv32 := 0x82f6_3b78

  /** Koopman's polynomial. */
  const KOOPMAN: bv32 := 0xeb31_d82e

  /** The size of a checksum in bytes. */
  const SIZE: nat := 4
}
