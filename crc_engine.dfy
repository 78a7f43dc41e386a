/** The streaming CRC-32 engine of crc32.php (class CRC32_PHP): a register folded over the
    input bytes through the lookup table, and its checksum formatted by crc_hash. */
module CrcEngine {
  import Crc32
  import CrcTable
  import CrcFormat

  /** `~0` on a PHP integer, seen through its low 32 bits: every update keeps only the
      low 32 bits of the register, so they are all the model keeps. */
  const AllOnes: bv32 := 0xffff_ffff

  /** The per-byte update of `update`: the register moves eight bits down and absorbs the
      table entry selected by its low byte combined with the input byte. */
  function UpdateByte(table: seq<bv32>, crc: bv32, b: bv8): bv32
    requires |table| == 256
  {
    ((crc >> 8) & 0xff_ffff) ^ table[(((crc ^ b as bv32) & 0xff) as bv8) as int]
  }

  /** The register after folding `data`, byte by byte in order, into `crc`. */
  function Fold(table: seq<bv32>, crc: bv32, data: seq<bv8>): bv32
    requires |table| == 256
  {
    if data == [] then crc
    else UpdateByte(table, Fold(table, crc, data[..|data| - 1]), data[|data| - 1])
  }

  /** Folding two pieces one after the other is folding their concatenation. */
  lemma {:induction false} FoldAppend(table: seq<bv32>, crc: bv32, a: seq<bv8>, b: seq<bv8>)
    requires |table| == 256
    ensures Fold(table, crc, a + b) == Fold(table, Fold(table, crc, a), b)
  {
    if b == [] {
      assert a + b == a;
    } else {
      FoldAppend(table, crc, a, b[..|b| - 1]);
      assert (a + b)[..|a + b| - 1] == a + b[..|b| - 1];
    }
  }

  /** The checksum of `data` under `poly`: the complemented register after a reset and
      one pass over the data. */
  function Checksum(poly: bv32, data: seq<bv8>): bv32 {
    !Fold(CrcTable.Table(poly), AllOnes, data)
  }

  class Crc32Php {
    const polynomial: bv32
    const table: seq<bv32>
    var crc: bv32
    /** The bytes passed to `update` since the last reset. */
    ghost var consumed: seq<bv8>

    ghost predicate TableOk()
      reads this
    {
      table == CrcTable.Table(polynomial)
    }

    /** The register holds the fold of everything consumed since the last reset. */
    ghost predicate Valid()
      reads this
    {
      TableOk() && crc == Fold(table, AllOnes, consumed)
    }

    constructor (poly: bv32, cache: CrcTable.TableCache)
      requires cache.Valid()
      modifies cache
      ensures Valid() && polynomial == poly
      ensures crc == AllOnes && consumed == []
      ensures cache.Valid() && cache.tables == old(cache.tables)[poly as int := table]
    {
      polynomial := poly;
      var t := cache.Get(poly);
      table := t;
      new;
      Reset();
    }

    method Reset()
      requires TableOk()
      modifies this
      ensures Valid()
      ensures crc == AllOnes && consumed == []
    {
      crc := AllOnes;
      consumed := [];
    }

    method Update(buffer: seq<bv8>)
      requires Valid()
      modifies this
      ensures Valid()
      ensures consumed == old(consumed) + buffer
      ensures crc == Fold(table, old(crc), buffer)
    {
      var c := crc;
      for i := 0 to |buffer|
        invariant c == Fold(table, crc, buffer[..i])
      {
        assert buffer[..i + 1][..i] == buffer[..i];
        c := UpdateByte(table, c, buffer[i]);
      }
      assert buffer[..|buffer|] == buffer;
      FoldAppend(table, AllOnes, consumed, buffer);
      crc := c;
      consumed := consumed + buffer;
    }

    /** The checksum of the bytes consumed since the last reset, as crc_hash formats it. */
    function Hash(rawOutput: bool): (r: CrcFormat.PhpString)
      reads this
      requires Valid()
      ensures r == CrcFormat.CrcHash(Checksum(polynomial, consumed) as bv64, rawOutput)
    {
      CrcFormat.CrcHash((!crc) as bv64, rawOutput)
    }
  }
}
