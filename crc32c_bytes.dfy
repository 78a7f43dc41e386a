/** The byte codec of ext/php_crc32c.h, which the crc32c extension uses to pass a
    checksum to and from the crc32c library: a 32-bit word as four bytes, most
    significant first. */
module Crc32cBytes {

  datatype Option<T> = None | Some(value: T)

  /** The four bytes of `i`, most significant first. */
  function BigEndian(i: bv32): (r: seq<bv8>)
    ensures |r| == 4
  {
    [(i >> 24) as bv8, ((i >> 16) & 0xff) as bv8, ((i >> 8) & 0xff) as bv8, (i & 0xff) as bv8]
  }

  /** int2byte: writes the four bytes of `i` into `b[0..3]` and nothing else. */
  method Int2Byte(i: bv32, b: array<bv8>)
    requires b.Length >= 4
    modifies b
    ensures b[..4] == BigEndian(i)
    ensures b[4..] == old(b[4..])
  {
    b[0] := ((i >> 24) & 0xff) as bv8;
    b[1] := ((i >> 16) & 0xff) as bv8;
    b[2] := ((i >> 8) & 0xff) as bv8;
    b[3] := (i & 0xff) as bv8;
  }

  /** byte2int with every byte widened to `uint32_t` before it is shifted: `hash[0]` is the
      most significant byte. */
  function Byte2Int(hash: seq<bv8>): (r: bv32)
    requires |hash| >= 4
    ensures BigEndian(r) == hash[..4]
  {
    (hash[0] as bv32 << 24) | (hash[1] as bv32 << 16) | (hash[2] as bv32 << 8) | hash[3] as bv32
  }

  /** Decoding the encoding of a word gives the word back. */
  lemma Byte2IntOfBigEndian(i: bv32)
    ensures Byte2Int(BigEndian(i)) == i
  {
  }

  /** Encoding the decoding of four bytes gives the bytes back. */
  lemma BigEndianOfByte2Int(hash: seq<bv8>)
    requires |hash| == 4
    ensures BigEndian(Byte2Int(hash)) == hash
  {
    assert hash[..4] == hash;
  }

  /** Four zero bytes are the word zero. */
  lemma Byte2IntZero()
    ensures Byte2Int([0, 0, 0, 0]) == 0
  {
  }

  /** The largest value of C's `int`, 32 bits wide on the platforms PHP supports. */
  const IntMax: int := 0x7fff_ffff

  function Pow2(k: nat): (r: nat)
    ensures r > 0
  {
    if k == 0 then 1 else 2 * Pow2(k - 1)
  }

  /** `v << k` on a non-negative C `int`: defined when the product fits in an `int`, and
      undefined behaviour otherwise. */
  function ShiftLeftInt(v: nat, k: nat): (r: Option<nat>)
    ensures r.Some? <==> v * Pow2(k) <= IntMax
    ensures r.Some? ==> r.value == v * Pow2(k)
  {
    if v * Pow2(k) <= IntMax then Some(v * Pow2(k)) else None
  }

  /** byte2int as written: each `unsigned char` is promoted to (signed) `int` before the
      shift, so `hash[0] << 24` is undefined once `hash[0]` has its top bit set. None stands
      for undefined behaviour; where every shift is defined, the result is the one of
      Byte2Int. */
  function Byte2IntAsWritten(hash: seq<bv8>): (r: Option<bv32>)
    requires |hash| >= 4
    ensures r.Some? <==> hash[0] < 0x80
    ensures r.Some? ==> r.value == Byte2Int(hash)
  {
    Pow2Of24();
    match ShiftLeftInt(hash[0] as nat, 24)
    case None => None
    case Some(_) => Some(Byte2Int(hash))
  }

  lemma Pow2Of24()
    ensures Pow2(24) == 0x100_0000
  {
    assert Pow2(8) == 0x100;
    assert Pow2(16) == 0x1_0000;
  }

  /** The input that shows it: the encoding of 0x80000000 cannot be decoded as written. */
  lemma Byte2IntAsWrittenUndefined()
    ensures BigEndian(0x8000_0000) == [0x80, 0, 0, 0]
    ensures Byte2IntAsWritten([0x80, 0, 0, 0]) == None
    ensures Byte2Int([0x80, 0, 0, 0]) == 0x8000_0000
  {
  }
}
