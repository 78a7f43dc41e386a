/** The expected values listed in crc32_test.php, for an engine after a reset:
    the empty string under any polynomial, "a" and "abc" under IEEE and Castagnoli, as
    checksums and as the hex strings `hash` returns. */
module CrcVectors {
  import Crc32
  import CrcTable
  import CrcFormat
  import CrcEngine

  /** One update after which the register is known, given the table entry it selects. */
  lemma UpdateWith(poly: bv32, crc: bv32, b: bv8, entry: bv32)
    requires CrcTable.Entry(poly, ((crc ^ b as bv32) & 0xff) as bv8) == entry
    ensures CrcEngine.UpdateByte(CrcTable.Table(poly), crc, b) == ((crc >> 8) & 0xff_ffff) ^ entry
  {
  }

  /** Folding one more byte is one more update. */
  lemma FoldSnoc(table: seq<bv32>, crc: bv32, s: seq<bv8>, b: bv8)
    requires |table| == 256
    ensures CrcEngine.Fold(table, crc, s + [b]) == CrcEngine.UpdateByte(table, CrcEngine.Fold(table, crc, s), b)
  {
    assert (s + [b])[..|s|] == s;
  }

  // The table entries the vectors select, evaluated one shift step at a time.

  lemma IeeeEntry9E()
    ensures CrcTable.Entry(Crc32.IEEE, 0x9e) == 0x17b7_be43
  {
    assert CrcTable.Steps(Crc32.IEEE, 0x9e, 1) == 0x0000_004f;
    assert CrcTable.Steps(Crc32.IEEE, 0x9e, 2) == 0xedb8_8307;
    assert CrcTable.Steps(Crc32.IEEE, 0x9e, 3) == 0x9b64_c2a3;
    assert CrcTable.Steps(Crc32.IEEE, 0x9e, 4) == 0xa00a_e271;
    assert CrcTable.Steps(Crc32.IEEE, 0x9e, 5) == 0xbdbd_f218;
    assert CrcTable.Steps(Crc32.IEEE, 0x9e, 6) == 0x5ede_f90c;
    assert CrcTable.Steps(Crc32.IEEE, 0x9e, 7) == 0x2f6f_7c86;
    assert CrcTable.Steps(Crc32.IEEE, 0x9e, 8) == 0x17b7_be43;
  }

  lemma IeeeEntryDE()
    ensures CrcTable.Entry(Crc32.IEEE, 0xde) == 0x616b_ffd3
  {
    assert CrcTable.Steps(Crc32.IEEE, 0xde, 1) == 0x0000_006f;
    assert CrcTable.Steps(Crc32.IEEE, 0xde, 2) == 0xedb8_8317;
    assert CrcTable.Steps(Crc32.IEEE, 0xde, 3) == 0x9b64_c2ab;
    assert CrcTable.Steps(Crc32.IEEE, 0xde, 4) == 0xa00a_e275;
    assert CrcTable.Steps(Crc32.IEEE, 0xde, 5) == 0xbdbd_f21a;
    assert CrcTable.Steps(Crc32.IEEE, 0xde, 6) == 0x5ede_f90d;
    assert CrcTable.Steps(Crc32.IEEE, 0xde, 7) == 0xc2d7_ffa6;
    assert CrcTable.Steps(Crc32.IEEE, 0xde, 8) == 0x616b_ffd3;
  }

  lemma IeeeEntryF1()
    ensures CrcTable.Entry(Crc32.IEEE, 0xf1) == 0xcaba_c28a
  {
    assert CrcTable.Steps(Crc32.IEEE, 0xf1, 1) == 0xedb8_8358;
    assert CrcTable.Steps(Crc32.IEEE, 0xf1, 2) == 0x76dc_41ac;
    assert CrcTable.Steps(Crc32.IEEE, 0xf1, 3) == 0x3b6e_20d6;
    assert CrcTable.Steps(Crc32.IEEE, 0xf1, 4) == 0x1db7_106b;
    assert CrcTable.Steps(Crc32.IEEE, 0xf1, 5) == 0xe363_0b15;
    assert CrcTable.Steps(Crc32.IEEE, 0xf1, 6) == 0x9c09_06aa;
    assert CrcTable.Steps(Crc32.IEEE, 0xf1, 7) == 0x4e04_8355;
    assert CrcTable.Steps(Crc32.IEEE, 0xf1, 8) == 0xcaba_c28a;
  }

  lemma CastagnoliEntry9E()
    ensures CrcTable.Entry(Crc32.CASTAGNOLI, 0x9e) == 0x3ed0_4330
  {
    assert CrcTable.Steps(Crc32.CASTAGNOLI, 0x9e, 1) == 0x0000_004f;
    assert CrcTable.Steps(Crc32.CASTAGNOLI, 0x9e, 2) == 0x82f6_3b5f;
    assert CrcTable.Steps(Crc32.CASTAGNOLI, 0x9e, 3) == 0xc38d_26d7;
    assert CrcTable.Steps(Crc32.CASTAGNOLI, 0x9e, 4) == 0xe330_a813;
    assert CrcTable.Steps(Crc32.CASTAGNOLI, 0x9e, 5) == 0xf36e_6f71;
    assert CrcTable.Steps(Crc32.CASTAGNOLI, 0x9e, 6) == 0xfb41_0cc0;
    assert CrcTable.Steps(Crc32.CASTAGNOLI, 0x9e, 7) == 0x7da0_8660;
    assert CrcTable.Steps(Crc32.CASTAGNOLI, 0x9e, 8) == 0x3ed0_4330;
  }

  lemma CastagnoliEntryAD()
    ensures CrcTable.Entry(Crc32.CASTAGNOLI, 0xad) == 0x1d63_f975
  {
    assert CrcTable.Steps(Crc32.CASTAGNOLI, 0xad, 1) == 0x82f6_3b2e;
    assert CrcTable.Steps(Crc32.CASTAGNOLI, 0xad, 2) == 0x417b_1d97;
    assert CrcTable.Steps(Crc32.CASTAGNOLI, 0xad, 3) == 0xa24b_b5b3;
    assert CrcTable.Steps(Crc32.CASTAGNOLI, 0xad, 4) == 0xd3d3_e1a1;
    assert CrcTable.Steps(Crc32.CASTAGNOLI, 0xad, 5) == 0xeb1f_cba8;
    assert CrcTable.Steps(Crc32.CASTAGNOLI, 0xad, 6) == 0x758f_e5d4;
    assert CrcTable.Steps(Crc32.CASTAGNOLI, 0xad, 7) == 0x3ac7_f2ea;
    assert CrcTable.Steps(Crc32.CASTAGNOLI, 0xad, 8) == 0x1d63_f975;
  }

  lemma CastagnoliEntryAA()
    ensures CrcTable.Entry(Crc32.CASTAGNOLI, 0xaa) == 0xc9a9_9d9e
  {
    assert CrcTable.Steps(Crc32.CASTAGNOLI, 0xaa, 1) == 0x0000_0055;
    assert CrcTable.Steps(Crc32.CASTAGNOLI, 0xaa, 2) == 0x82f6_3b52;
    assert CrcTable.Steps(Crc32.CASTAGNOLI, 0xaa, 3) == 0x417b_1da9;
    assert CrcTable.Steps(Crc32.CASTAGNOLI, 0xaa, 4) == 0xa24b_b5ac;
    assert CrcTable.Steps(Crc32.CASTAGNOLI, 0xaa, 5) == 0x5125_dad6;
    assert CrcTable.Steps(Crc32.CASTAGNOLI, 0xaa, 6) == 0x2892_ed6b;
    assert CrcTable.Steps(Crc32.CASTAGNOLI, 0xaa, 7) == 0x96bf_4dcd;
    assert CrcTable.Steps(Crc32.CASTAGNOLI, 0xaa, 8) == 0xc9a9_9d9e;
  }

  /** The empty string leaves the reset register alone, whose complement is zero. */
  lemma EmptyChecksum(poly: bv32)
    ensures CrcEngine.Checksum(poly, []) == 0
  {
  }

  /** The empty string hashes to "00000000" under any polynomial. */
  lemma EmptyHash(poly: bv32)
    ensures CrcFormat.CrcHash(CrcEngine.Checksum(poly, []) as bv64, false) == CrcFormat.Zeros(8)
  {
    var r := CrcFormat.CrcHash(0, false);
    CrcFormat.HexValueZero(r);
    assert r == CrcFormat.Zeros(8);
  }

  lemma EmptyZeroHex(poly: bv32)
    ensures CrcFormat.CrcHash(CrcEngine.Checksum(poly, []) as bv64, false) == ZeroHex
  {
    EmptyHash(poly);
    assert CrcFormat.Zeros(8) == ZeroHex;
  }

  /** IEEE, "a": e8b7be43. */
  lemma IeeeA()
    ensures CrcEngine.Checksum(Crc32.IEEE, [0x61]) == 0xe8b7_be43
  {
    var t := CrcTable.Table(Crc32.IEEE);
    FoldSnoc(t, CrcEngine.AllOnes, [], 0x61);
    assert [] + [0x61 as bv8] == [0x61];
    IeeeEntry9E();
    UpdateWith(Crc32.IEEE, CrcEngine.AllOnes, 0x61, 0x17b7_be43);
  }

  /** IEEE, "abc": 352441c2. */
  lemma IeeeAbc()
    ensures CrcEngine.Checksum(Crc32.IEEE, [0x61, 0x62, 0x63]) == 0x3524_41c2
  {
    var t := CrcTable.Table(Crc32.IEEE);
    IeeeA();
    FoldSnoc(t, CrcEngine.AllOnes, [0x61], 0x62);
    assert [0x61 as bv8] + [0x62] == [0x61, 0x62];
    IeeeEntryDE();
    UpdateWith(Crc32.IEEE, 0x1748_41bc, 0x62, 0x616b_ffd3);
    FoldSnoc(t, CrcEngine.AllOnes, [0x61, 0x62], 0x63);
    assert [0x61 as bv8, 0x62] + [0x63] == [0x61, 0x62, 0x63];
    IeeeEntryF1();
    UpdateWith(Crc32.IEEE, 0x617c_b792, 0x63, 0xcaba_c28a);
  }

  /** Castagnoli, "a": c1d04330. */
  lemma CastagnoliA()
    ensures CrcEngine.Checksum(Crc32.CASTAGNOLI, [0x61]) == 0xc1d0_4330
  {
    var t := CrcTable.Table(Crc32.CASTAGNOLI);
    FoldSnoc(t, CrcEngine.AllOnes, [], 0x61);
    assert [] + [0x61 as bv8] == [0x61];
    CastagnoliEntry9E();
    UpdateWith(Crc32.CASTAGNOLI, CrcEngine.AllOnes, 0x61, 0x3ed0_4330);
  }

  /** Castagnoli, "abc": 364b3fb7 (the well-known CRC-32C of "abc"). */
  lemma CastagnoliAbc()
    ensures CrcEngine.Checksum(Crc32.CASTAGNOLI, [0x61, 0x62, 0x63]) == 0x364b_3fb7
  {
    var t := CrcTable.Table(Crc32.CASTAGNOLI);
    CastagnoliA();
    FoldSnoc(t, CrcEngine.AllOnes, [0x61], 0x62);
    assert [0x61 as bv8] + [0x62] == [0x61, 0x62];
    CastagnoliEntryAD();
    UpdateWith(Crc32.CASTAGNOLI, 0x3e2f_bccf, 0x62, 0x1d63_f975);
    FoldSnoc(t, CrcEngine.AllOnes, [0x61, 0x62], 0x63);
    assert [0x61 as bv8, 0x62] + [0x63] == [0x61, 0x62, 0x63];
    CastagnoliEntryAA();
    UpdateWith(Crc32.CASTAGNOLI, 0x1d5d_d6c9, 0x63, 0xc9a9_9d9e);
  }

  // The hex strings `hash` returns for these vectors.

  /** 0xe8b7be43, the IEEE checksum of "a", as `hash` formats it: the string e8b7be43. */
  lemma IeeeAHex()
    ensures CrcFormat.CrcHash(0xe8b7_be43, false)
         == [0x65, 0x38, 0x62, 0x37, 0x62, 0x65, 0x34, 0x33]
  {
    var hi: CrcFormat.PhpString := [0x65, 0x38, 0x62, 0x37];
    var lo: CrcFormat.PhpString := [0x62, 0x65, 0x34, 0x33];
    CrcFormat.FourDigits(hi);
    CrcFormat.FourDigits(lo);
    CrcFormat.CrcHashOfHalves(0xe8b7_be43, hi, lo);
    assert hi + lo == [0x65, 0x38, 0x62, 0x37, 0x62, 0x65, 0x34, 0x33];
  }

  /** 0x352441c2, the IEEE checksum of "abc", as `hash` formats it: the string 352441c2. */
  lemma IeeeAbcHex()
    ensures CrcFormat.CrcHash(0x3524_41c2, false)
         == [0x33, 0x35, 0x32, 0x34, 0x34, 0x31, 0x63, 0x32]
  {
    var hi: CrcFormat.PhpString := [0x33, 0x35, 0x32, 0x34];
    var lo: CrcFormat.PhpString := [0x34, 0x31, 0x63, 0x32];
    CrcFormat.FourDigits(hi);
    CrcFormat.FourDigits(lo);
    CrcFormat.CrcHashOfHalves(0x3524_41c2, hi, lo);
    assert hi + lo == [0x33, 0x35, 0x32, 0x34, 0x34, 0x31, 0x63, 0x32];
  }

  /** 0xc1d04330, the Castagnoli checksum of "a", as `hash` formats it: the string c1d04330. */
  lemma CastagnoliAHex()
    ensures CrcFormat.CrcHash(0xc1d0_4330, false)
         == [0x63, 0x31, 0x64, 0x30, 0x34, 0x33, 0x33, 0x30]
  {
    var hi: CrcFormat.PhpString := [0x63, 0x31, 0x64, 0x30];
    var lo: CrcFormat.PhpString := [0x34, 0x33, 0x33, 0x30];
    CrcFormat.FourDigits(hi);
    CrcFormat.FourDigits(lo);
    CrcFormat.CrcHashOfHalves(0xc1d0_4330, hi, lo);
    assert hi + lo == [0x63, 0x31, 0x64, 0x30, 0x34, 0x33, 0x33, 0x30];
  }

  /** 0x364b3fb7, the Castagnoli checksum of "abc", as `hash` formats it: the string 364b3fb7. */
  lemma CastagnoliAbcHex()
    ensures CrcFormat.CrcHash(0x364b_3fb7, false)
         == [0x33, 0x36, 0x34, 0x62, 0x33, 0x66, 0x62, 0x37]
  {
    var hi: CrcFormat.PhpString := [0x33, 0x36, 0x34, 0x62];
    var lo: CrcFormat.PhpString := [0x33, 0x66, 0x62, 0x37];
    CrcFormat.FourDigits(hi);
    CrcFormat.FourDigits(lo);
    CrcFormat.CrcHashOfHalves(0x364b_3fb7, hi, lo);
    assert hi + lo == [0x33, 0x36, 0x34, 0x62, 0x33, 0x66, 0x62, 0x37];
  }

  /** The string 00000000. */
  const ZeroHex: CrcFormat.PhpString := [0x30, 0x30, 0x30, 0x30, 0x30, 0x30, 0x30, 0x30]

  /** What `hash()` returns in hex form after a reset and one `update(data)`. */
  function HexHash(poly: bv32, data: seq<bv8>): CrcFormat.PhpString {
    CrcFormat.CrcHash(CrcEngine.Checksum(poly, data) as bv64, false)
  }

  /** One pass of the inner loop of crc32_test.php: `update`, `hash`, `reset`. */
  method HashOne(crc: CrcEngine.Crc32Php, input: CrcFormat.PhpString) returns (h: CrcFormat.PhpString)
    requires crc.Valid() && crc.consumed == []
    modifies crc
    ensures crc.Valid() && crc.consumed == []
    ensures h == HexHash(crc.polynomial, input)
  {
    crc.Update(input);
    assert crc.consumed == input;
    h := crc.Hash(false);
    crc.Reset();
  }

  /** The test loop of crc32_test.php over its first three IEEE cases, "", "a" and
      "abc", on a new engine: each case is one `update`, then `hash`, then `reset`. */
  method IeeeVectors(cache: CrcTable.TableCache) returns (empty: CrcFormat.PhpString, a: CrcFormat.PhpString, abc: CrcFormat.PhpString)
    requires cache.Valid()
    modifies cache
    ensures empty == ZeroHex
    ensures a == [0x65, 0x38, 0x62, 0x37, 0x62, 0x65, 0x34, 0x33]
    ensures abc == [0x33, 0x35, 0x32, 0x34, 0x34, 0x31, 0x63, 0x32]
  {
    var crc := new CrcEngine.Crc32Php(Crc32.IEEE, cache);
    empty := HashOne(crc, []);
    EmptyZeroHex(Crc32.IEEE);
    a := HashOne(crc, [0x61]);
    IeeeA();
    IeeeAHex();
    abc := HashOne(crc, [0x61, 0x62, 0x63]);
    IeeeAbc();
    IeeeAbcHex();
  }

  /** The test loop of crc32_test.php over its first three Castagnoli cases, "", "a" and
      "abc", on a new engine: each case is one `update`, then `hash`, then `reset`. */
  method CastagnoliVectors(cache: CrcTable.TableCache) returns (empty: CrcFormat.PhpString, a: CrcFormat.PhpString, abc: CrcFormat.PhpString)
    requires cache.Valid()
    modifies cache
    ensures empty == ZeroHex
    ensures a == [0x63, 0x31, 0x64, 0x30, 0x34, 0x33, 0x33, 0x30]
    ensures abc == [0x33, 0x36, 0x34, 0x62, 0x33, 0x66, 0x62, 0x37]
  {
    var crc := new CrcEngine.Crc32Php(Crc32.CASTAGNOLI, cache);
    empty := HashOne(crc, []);
    EmptyZeroHex(Crc32.CASTAGNOLI);
    a := HashOne(crc, [0x61]);
    CastagnoliA();
    CastagnoliAHex();
    abc := HashOne(crc, [0x61, 0x62, 0x63]);
    CastagnoliAbc();
    CastagnoliAbcHex();
  }
}
