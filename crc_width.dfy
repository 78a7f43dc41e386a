/** PHP integers are 64 bits wide, in two's complement, and `>>` on them is an arithmetic
    shift. The rest of the model keeps 32-bit words; this module shows, on 64-bit values,
    why that loses nothing: table entries and updated registers stay below 2^32, and an
    update reads only the low 32 bits of the register. */
module PhpWidth {
  import CrcTable
  import CrcFormat
  import CrcEngine

  const SignBit: bv64 := 0x8000_0000_0000_0000
  const Word: bv64 := 0xffff_ffff

  predicate Fits(x: bv64) {
    x & !Word == 0
  }

  /** PHP's `$x >> $k`: the sign bit is copied into the vacated high bits. */
  function Sar(x: bv64, k: bv64): (r: bv64)
    requires k < 64
    ensures x & SignBit == 0 ==> r == x >> k
  {
    if x & SignBit == 0 then x >> k else !((!x) >> k)
  }

  /** What an arithmetic shift is, for the two shifts crc32.php makes: below the vacated high
      bits it agrees with the logical shift, which moves every bit of `x` down and drops the
      low ones ... */
  lemma SarByOne(x: bv64)
    ensures Sar(x, 1) & (!0 >> 1) == x >> 1
  {
    if x & SignBit == 0 {
      assert Sar(x, 1) == x >> 1;
    } else {
      assert Sar(x, 1) == !((!x) >> 1);
    }
  }

  lemma SarByEight(x: bv64)
    ensures Sar(x, 8) & (!0 >> 8) == x >> 8
  {
    if x & SignBit == 0 {
      assert Sar(x, 8) == x >> 8;
    } else {
      assert Sar(x, 8) == !((!x) >> 8);
    }
  }

  /** ... and the `k` vacated high bits are copies of the sign bit. */
  lemma SarFillsSign(x: bv64, k: bv64)
    requires k < 64
    ensures Sar(x, k) & !(!0 >> k) == if x & SignBit == 0 then 0 else !(!0 >> k)
  {
  }

  /** One step of the table loop of crc32.php on PHP integers. */
  function Step64(poly: bv64, c: bv64): bv64 {
    if c & 1 == 1 then Sar(c, 1) ^ poly else Sar(c, 1)
  }

  lemma Step64Fits(poly: bv64, c: bv64)
    requires Fits(poly) && Fits(c)
    ensures Fits(Step64(poly, c))
  {
    assert c & SignBit == 0;
  }

  function Steps64(poly: bv64, c: bv64, n: nat): bv64 {
    if n == 0 then c else Step64(poly, Steps64(poly, c, n - 1))
  }

  /** For a polynomial below 2^32 every table entry crc32.php computes is below 2^32. */
  lemma {:induction false} Steps64Fits(poly: bv64, c: bv64, n: nat)
    requires Fits(poly) && Fits(c)
    ensures Fits(Steps64(poly, c, n))
  {
    if n > 0 {
      Steps64Fits(poly, c, n - 1);
      Step64Fits(poly, Steps64(poly, c, n - 1));
    }
  }

  /** The table key of `update`: the low byte of the register combined with the input byte. */
  function Key64(crc: bv64, b: bv8): (k: int)
    ensures 0 <= k < 256
  {
    ((crc ^ b as bv64) & 0xff) as int
  }

  /** The per-byte update of `update` on a 64-bit PHP register and PHP table. */
  function Update64(table: seq<bv64>, crc: bv64, b: bv8): bv64
    requires |table| == 256
  {
    (Sar(crc, 8) & 0xff_ffff) ^ table[Key64(crc, b)]
  }

  /** Whichever bits the arithmetic shift copies in, the mask keeps bits 8..31 only. */
  lemma ShiftedLow(crc: bv64)
    ensures Sar(crc, 8) & 0xff_ffff == (crc & Word) >> 8
  {
    if crc & SignBit == 0 {
      assert Sar(crc, 8) == crc >> 8;
    } else {
      assert Sar(crc, 8) == !((!crc) >> 8);
    }
  }

  lemma ShiftedFits(crc: bv64)
    ensures Fits((crc & Word) >> 8)
  {
  }

  lemma WordIdempotent(crc: bv64)
    ensures (crc & Word) & Word == crc & Word
  {
  }

  lemma KeyLow(crc: bv64, b: bv8)
    ensures Key64(crc & Word, b) == Key64(crc, b)
  {
    assert ((crc & Word) ^ b as bv64) & 0xff == (crc ^ b as bv64) & 0xff;
  }

  lemma FitsXor(x: bv64, y: bv64)
    requires Fits(x) && Fits(y)
    ensures Fits(x ^ y)
  {
  }

  /** An update is the low 32 bits of the register shifted down, combined with an entry. */
  lemma Update64Shape(table: seq<bv64>, crc: bv64, b: bv8)
    requires |table| == 256
    ensures Update64(table, crc, b) == ((crc & Word) >> 8) ^ table[Key64(crc, b)]
  {
    ShiftedLow(crc);
  }

  /** Whatever the register holds (after a reset it is `~0`, that is -1), an update reads
      only its low 32 bits. */
  lemma Update64Low(table: seq<bv64>, crc: bv64, b: bv8)
    requires |table| == 256
    ensures Update64(table, crc, b) == Update64(table, crc & Word, b)
  {
    Update64Shape(table, crc, b);
    Update64Shape(table, crc & Word, b);
    WordIdempotent(crc);
    KeyLow(crc, b);
  }

  /** With table entries below 2^32, an update leaves a register below 2^32. */
  lemma Update64Fits(table: seq<bv64>, crc: bv64, b: bv8)
    requires |table| == 256 && forall i :: 0 <= i < 256 ==> Fits(table[i])
    ensures Fits(Update64(table, crc, b))
  {
    Update64Shape(table, crc, b);
    ShiftedFits(crc);
    FitsXor((crc & Word) >> 8, table[Key64(crc, b)]);
  }

  /** PHP's `~0`, the value `reset` stores: -1 on a 64-bit build. */
  const Reset64: bv64 := !0

  /** `~0` in PHP is -1, whose low 32 bits are the model's reset value. */
  lemma ResetWord()
    ensures CrcFormat.Low32(Reset64) == CrcEngine.AllOnes
  {
  }

  /** `hash` masks `~$crc` to 32 bits, so only the low 32 bits of the register matter. */
  lemma HashWord(crc: bv64)
    ensures CrcFormat.Low32(!crc) == !CrcFormat.Low32(crc)
  {
  }

  /** A 64-bit PHP table holding the same entries as a 32-bit table of the model. */
  ghost predicate Tied(t64: seq<bv64>, t32: seq<bv32>) {
    |t64| == 256 && |t32| == 256 && forall i :: 0 <= i < 256 ==> t64[i] == t32[i] as bv64
  }

  lemma KeyTie(crc: bv64, b: bv8)
    ensures Key64(crc, b) == (((CrcFormat.Low32(crc) ^ b as bv32) & 0xff) as bv8) as int
  {
  }

  lemma ShiftTie(crc: bv64)
    ensures (crc & Word) >> 8 == ((CrcFormat.Low32(crc) >> 8) & 0xff_ffff) as bv64
  {
  }

  lemma XorTie(x: bv32, y: bv32)
    ensures (x ^ y) as bv64 == x as bv64 ^ y as bv64
  {
  }

  /** One update of the 64-bit PHP register is, as a value, the update of the model's 32-bit
      register holding its low 32 bits. */
  lemma UpdateTie(t64: seq<bv64>, t32: seq<bv32>, crc: bv64, b: bv8)
    requires Tied(t64, t32)
    ensures Update64(t64, crc, b) == CrcEngine.UpdateByte(t32, CrcFormat.Low32(crc), b) as bv64
  {
    var low := CrcFormat.Low32(crc);
    Update64Shape(t64, crc, b);
    KeyTie(crc, b);
    ShiftTie(crc);
    XorTie((low >> 8) & 0xff_ffff, t32[Key64(crc, b)]);
  }

  /** `update` on the 64-bit PHP register: bytes folded in order through Update64. */
  function Fold64(table: seq<bv64>, crc: bv64, data: seq<bv8>): bv64
    requires |table| == 256
  {
    if data == [] then crc
    else Update64(table, Fold64(table, crc, data[..|data| - 1]), data[|data| - 1])
  }

  /** The low 32 bits of the 64-bit register after any input are the model's register. */
  lemma {:induction false} Fold64Tie(t64: seq<bv64>, t32: seq<bv32>, crc: bv64, data: seq<bv8>)
    requires Tied(t64, t32)
    ensures CrcFormat.Low32(Fold64(t64, crc, data)) == CrcEngine.Fold(t32, CrcFormat.Low32(crc), data)
  {
    if data != [] {
      var init := data[..|data| - 1];
      Fold64Tie(t64, t32, crc, init);
      UpdateTie(t64, t32, Fold64(t64, crc, init), data[|data| - 1]);
      CrcFormat.Low32OfWord(CrcEngine.Fold(t32, CrcFormat.Low32(crc), data));
    }
  }

  /** crc_hash looks only at the low 32 bits of its argument. */
  lemma CrcHashLow(x: bv64, y: bv64, rawOutput: bool)
    requires CrcFormat.Low32(x) == CrcFormat.Low32(y)
    ensures CrcFormat.CrcHash(x, rawOutput) == CrcFormat.CrcHash(y, rawOutput)
  {
  }

  /** After `~0` and any input, the low 32 bits of the register are the model's register after
      its reset and the same input. */
  lemma ResetTie(t64: seq<bv64>, t32: seq<bv32>, data: seq<bv8>)
    requires Tied(t64, t32)
    ensures CrcFormat.Low32(Fold64(t64, Reset64, data)) == CrcEngine.Fold(t32, CrcEngine.AllOnes, data)
  {
    ResetWord();
    Fold64Tie(t64, t32, Reset64, data);
  }

  lemma HashOfLow(x: bv64, sum: bv32, rawOutput: bool)
    requires CrcFormat.Low32(x) == sum
    ensures CrcFormat.CrcHash(x, rawOutput) == CrcFormat.CrcHash(sum as bv64, rawOutput)
  {
    CrcFormat.Low32OfWord(sum);
    CrcHashLow(x, sum as bv64, rawOutput);
  }

  /** After `~0` and any input, the low 32 bits of `~$crc` are the complemented register of
      the model after its reset and the same input. */
  lemma PhpChecksumTie(t64: seq<bv64>, t32: seq<bv32>, data: seq<bv8>, reg: bv64)
    requires Tied(t64, t32)
    requires reg == Fold64(t64, Reset64, data)
    ensures CrcFormat.Low32(!reg) == !CrcEngine.Fold(t32, CrcEngine.AllOnes, data)
  {
    ResetTie(t64, t32, data);
    HashWord(reg);
  }

  /** The whole PHP computation on 64-bit integers, `~0` then `update` then `hash`, gives the
      formatted checksum of the model: `reg` is the PHP register after the input, `sum` the
      model's checksum of the same input. */
  lemma PhpHashTie(poly: bv32, t64: seq<bv64>, data: seq<bv8>, reg: bv64, sum: bv32, rawOutput: bool)
    requires Tied(t64, CrcTable.Table(poly))
    requires reg == Fold64(t64, Reset64, data)
    requires sum == CrcEngine.Checksum(poly, data)
    ensures CrcFormat.CrcHash(!reg, rawOutput) == CrcFormat.CrcHash(sum as bv64, rawOutput)
  {
    PhpChecksumTie(t64, CrcTable.Table(poly), data, reg);
    HashOfLow(!reg, sum, rawOutput);
  }
}
