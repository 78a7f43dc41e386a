/** Formatting of a checksum (the functions int2hex and crc_hash of crc32.php).
    A PHP string is a sequence of bytes. */
module CrcFormat {
  import Crc32

  type PhpString = seq<bv8>

  /** The characters `dechex` writes: '0'..'9' and 'a'..'f'. */
  const HexDigits: PhpString :=
    [0x30, 0x31, 0x32, 0x33, 0x34, 0x35, 0x36, 0x37,
     0x38, 0x39, 0x61, 0x62, 0x63, 0x64, 0x65, 0x66]

  predicate IsHexDigit(c: bv8) {
    0x30 <= c <= 0x39 || 0x61 <= c <= 0x66
  }

  predicate AllHex(s: PhpString) {
    forall i :: 0 <= i < |s| ==> IsHexDigit(s[i])
  }

  function DigitValue(c: bv8): nat
    requires IsHexDigit(c)
  {
    if c <= 0x39 then c as int - 0x30 else c as int - 0x61 + 10
  }

  /** The lowercase digit of value `d`. */
  function HexDigit(d: nat): (c: bv8)
    requires d < 16
    ensures IsHexDigit(c) && DigitValue(c) == d
  {
    HexDigits[d]
  }

  function Pow16(n: nat): (r: nat)
    ensures r > 0
  {
    if n == 0 then 1 else 16 * Pow16(n - 1)
  }

  /** The number a string of hex digits denotes, most significant digit first. */
  function HexValue(s: PhpString): (v: nat)
    requires AllHex(s)
    ensures v < Pow16(|s|)
  {
    if s == [] then 0 else HexValue(s[..|s| - 1]) * 16 + DigitValue(s[|s| - 1])
  }

  lemma HexValueSnoc(s: PhpString, c: bv8)
    requires AllHex(s) && IsHexDigit(c)
    ensures AllHex(s + [c])
    ensures HexValue(s + [c]) == HexValue(s) * 16 + DigitValue(c)
  {
    assert (s + [c])[..|s|] == s;
  }

  /** The value of one more digit of a string's prefix. */
  lemma HexValuePrefix(s: PhpString, k: nat)
    requires k < |s| && AllHex(s)
    ensures AllHex(s[..k]) && AllHex(s[..k + 1])
    ensures HexValue(s[..k + 1]) == HexValue(s[..k]) * 16 + DigitValue(s[k])
  {
    assert s[..k + 1][..k] == s[..k];
  }

  lemma ShiftPlace(a: nat, p: nat, h: nat, d: nat)
    ensures (a * p + h) * 16 + d == a * (p * 16) + (h * 16 + d)
  {
  }

  /** The digits of `s` followed by those of `t`: `s` moves up by one place per digit of `t`. */
  lemma {:induction false} HexValueAppend(s: PhpString, t: PhpString)
    requires AllHex(s) && AllHex(t)
    ensures AllHex(s + t)
    ensures HexValue(s + t) == HexValue(s) * Pow16(|t|) + HexValue(t)
  {
    if t == [] {
      assert s + t == s;
    } else {
      var u, c := t[..|t| - 1], t[|t| - 1];
      assert t == u + [c];
      assert s + t == (s + u) + [c];
      HexValueAppend(s, u);
      HexValueSnoc(s + u, c);
      HexValueSnoc(u, c);
      ShiftPlace(HexValue(s), Pow16(|u|), HexValue(u), DigitValue(c));
    }
  }

  /** PHP's `dechex` on a non-negative integer: lowercase digits, no leading zeros. */
  function Dechex(n: nat): (r: PhpString)
    ensures 1 <= |r| && AllHex(r) && HexValue(r) == n
  {
    if n < 16 then [HexDigit(n)]
    else
      HexValueSnoc(Dechex(n / 16), HexDigit(n % 16));
      Dechex(n / 16) + [HexDigit(n % 16)]
  }

  /** `dechex` writes no leading zero: its first digit is '0' only for zero itself. */
  lemma {:induction false} DechexLeadingDigit(n: nat)
    ensures Dechex(n)[0] == 0x30 <==> n == 0
  {
    if n >= 16 {
      DechexLeadingDigit(n / 16);
    }
  }

  /** `dechex` uses as few digits as the value needs. */
  lemma {:induction false} DechexMinimal(n: nat)
    ensures |Dechex(n)| == 1 || Pow16(|Dechex(n)| - 1) <= n
  {
    if n >= 16 {
      DechexMinimal(n / 16);
      var high := Dechex(n / 16);
      assert Pow16(|high|) == 16 * Pow16(|high| - 1);
    }
  }

  /** PHP's `str_pad` with STR_PAD_LEFT and a one-character pad. */
  function StrPadLeft(s: PhpString, length: nat, pad: bv8): (r: PhpString)
    ensures |r| == if |s| < length then length else |s|
    ensures r[|r| - |s|..] == s
    ensures forall i :: 0 <= i < |r| - |s| ==> r[i] == pad
  {
    if |s| < length then seq(length - |s|, _ => pad) + s else s
  }

  /** `k` zero digits. */
  function Zeros(k: nat): (z: PhpString)
    ensures |z| == k && forall i :: 0 <= i < k ==> z[i] == 0x30
  {
    seq(k, _ => 0x30)
  }

  /** Leading zero digits do not change the value. */
  lemma {:induction false} HexValueZeroPad(k: nat, s: PhpString)
    requires AllHex(s)
    ensures AllHex(Zeros(k) + s)
    ensures HexValue(Zeros(k) + s) == HexValue(s)
  {
    if k > 0 {
      var rest := Zeros(k - 1) + s;
      assert Zeros(k) + s == [0x30] + rest;
      HexValueZeroPad(k - 1, s);
      ZeroDigitPrefix(rest);
    } else {
      assert Zeros(k) + s == s;
    }
  }

  /** A leading zero digit does not change the value. */
  lemma {:induction false} ZeroDigitPrefix(s: PhpString)
    requires AllHex(s)
    ensures AllHex([0x30] + s) && HexValue([0x30] + s) == HexValue(s)
  {
    if s != [] {
      var init := s[..|s| - 1];
      ZeroDigitPrefix(init);
      assert ([0x30] + s)[..|s|] == [0x30] + init;
      assert ([0x30] + s)[|s|] == s[|s| - 1];
    }
  }

  /** int2hex: the value in lowercase hex, zero-padded on the left to eight characters. */
  function Int2Hex(i: nat): (r: PhpString)
    ensures AllHex(r) && HexValue(r) == i
    ensures 8 <= |r|
    ensures i < Pow16(8) ==> |r| == 8
  {
    var digits := Dechex(i);
    PadDigits(digits);
    if i < Pow16(8) then
      DechexLength(i, 8);
      StrPadLeft(digits, 8, 0x30)
    else
      StrPadLeft(digits, 8, 0x30)
  }

  /** A value below 16^k needs at most k digits. */
  lemma DechexLength(n: nat, k: nat)
    requires 1 <= k && n < Pow16(k)
    ensures |Dechex(n)| <= k
  {
    DechexMinimal(n);
    if |Dechex(n)| > k {
      Pow16Monotone(k, |Dechex(n)| - 1);
    }

  }

  /** Zero-padding a string of digits on the left keeps its value. */
  lemma PadDigits(digits: PhpString)
    requires AllHex(digits)
    ensures AllHex(StrPadLeft(digits, 8, 0x30))
    ensures HexValue(StrPadLeft(digits, 8, 0x30)) == HexValue(digits)
  {
    if |digits| < 8 {
      HexValueZeroPad(8 - |digits|, digits);
      assert StrPadLeft(digits, 8, 0x30) == Zeros(8 - |digits|) + digits;
    }
  }

  lemma {:induction false} Pow16Monotone(a: nat, b: nat)
    requires a <= b
    ensures Pow16(a) <= Pow16(b)
  {
    if a < b {
      Pow16Monotone(a, b - 1);
    }
  }

  /** Different values have different hex forms. */
  lemma Int2HexInjective(a: nat, b: nat)
    requires Int2Hex(a) == Int2Hex(b)
    ensures a == b
  {
  }

  /** A number written as digits below 16 determines those digits. */
  lemma DigitSplitUnique(h1: nat, d1: nat, h2: nat, d2: nat)
    requires d1 < 16 && d2 < 16 && h1 * 16 + d1 == h2 * 16 + d2
    ensures h1 == h2 && d1 == d2
  {
  }

  lemma DigitValueInjective(x: bv8, y: bv8)
    requires IsHexDigit(x) && IsHexDigit(y) && DigitValue(x) == DigitValue(y)
    ensures x == y
  {
  }

  lemma LastSplit(s: PhpString)
    requires s != []
    ensures s == s[..|s| - 1] + [s[|s| - 1]]
  {
  }

  /** Two digit strings of one length with one value are the same string. */
  lemma {:induction false} HexValueInjective(a: PhpString, b: PhpString)
    requires AllHex(a) && AllHex(b) && |a| == |b| && HexValue(a) == HexValue(b)
    ensures a == b
  {
    if a != [] {
      var n := |a| - 1;
      DigitSplitUnique(HexValue(a[..n]), DigitValue(a[n]), HexValue(b[..n]), DigitValue(b[n]));
      HexValueInjective(a[..n], b[..n]);
      DigitValueInjective(a[n], b[n]);
      LastSplit(a);
      LastSplit(b);
    }
  }

  /** pack('L', v): the 32-bit value as four bytes in machine order, taken as little-endian. */
  function PackL(v: bv32): (r: PhpString)
    ensures |r| == Crc32.SIZE
  {
    [(v & 0xff) as bv8, ((v >> 8) & 0xff) as bv8, ((v >> 16) & 0xff) as bv8, (v >> 24) as bv8]
  }

  /** unpack('L', s), the inverse of PackL. */
  function UnpackL(s: PhpString): bv32
    requires |s| == 4
  {
    s[0] as bv32 | (s[1] as bv32 << 8) | (s[2] as bv32 << 16) | (s[3] as bv32 << 24)
  }

  lemma UnpackPack(v: bv32)
    ensures UnpackL(PackL(v)) == v
  {
  }

  lemma PackUnpack(s: PhpString)
    requires |s| == 4
    ensures PackL(UnpackL(s)) == s
  {
  }

  /** `$crc & 0xffffffff` on a (64-bit, two's complement) PHP integer: its low 32 bits. */
  function Low32(crc: bv64): (r: bv32)
    ensures r as bv64 == crc & 0xffff_ffff
  {
    (crc & 0xffff_ffff) as bv32
  }

  /** A value that already fits in 32 bits is kept whole. */
  lemma Low32OfWord(x: bv32)
    ensures Low32(x as bv64) == x
  {
  }

  /** Only zero digits denote zero. */
  lemma {:induction false} HexValueZero(s: PhpString)
    requires AllHex(s) && HexValue(s) == 0
    ensures forall i :: 0 <= i < |s| ==> s[i] == 0x30
  {
    if s != [] {
      var n := |s| - 1;
      HexValueZero(s[..n]);
      assert forall i :: 0 <= i < n ==> s[..n][i] == s[i];
    }
  }

  /** crc_hash of a 32-bit checksum in hex form: the one eight-digit string that denotes it. */
  lemma CrcHashHex(x: bv32, s: PhpString)
    requires |s| == 8 && AllHex(s) && HexValue(s) == x as int
    ensures CrcHash(x as bv64, false) == s
  {
    Low32OfWord(x);
    HexValueInjective(CrcHash(x as bv64, false), s);
  }

  /** The value of four hex digits, most significant first. */
  lemma FourDigits(s: PhpString)
    requires |s| == 4 && AllHex(s)
    ensures HexValue(s)
         == ((DigitValue(s[0]) * 16 + DigitValue(s[1])) * 16 + DigitValue(s[2])) * 16 + DigitValue(s[3])
  {
    assert s[..0] == [] && s[..4] == s;
    HexValuePrefix(s, 0);
    HexValuePrefix(s, 1);
    HexValuePrefix(s, 2);
    HexValuePrefix(s, 3);
  }

  /** crc_hash of a 32-bit checksum in hex form, given as its high and low four digits. */
  lemma CrcHashOfHalves(x: bv32, hi: PhpString, lo: PhpString)
    requires |hi| == 4 && |lo| == 4 && AllHex(hi) && AllHex(lo)
    requires HexValue(hi) * 0x1_0000 + HexValue(lo) == x as int
    ensures CrcHash(x as bv64, false) == hi + lo
  {
    HexValueAppend(hi, lo);
    assert Pow16(4) == 0x1_0000;
    CrcHashHex(x, hi + lo);
  }

  /** crc_hash of a 32-bit checksum in hex form: eight digits that denote the checksum. */
  lemma CrcHashWord(x: bv32)
    ensures |CrcHash(x as bv64, false)| == 8 && AllHex(CrcHash(x as bv64, false))
    ensures HexValue(CrcHash(x as bv64, false)) == x as int
  {
    Low32OfWord(x);
  }

  /** crc_hash of a 32-bit checksum in raw form: the checksum's four bytes. */
  lemma CrcHashRaw(x: bv32)
    ensures CrcHash(x as bv64, true) == PackL(x)
  {
    Low32OfWord(x);
    PackUnpack(CrcHash(x as bv64, true));
  }

  /** crc_hash: the low 32 bits of a PHP integer, as four raw bytes or as eight hex digits. */
  function CrcHash(crc: bv64, rawOutput: bool): (r: PhpString)
    ensures rawOutput ==> |r| == Crc32.SIZE && UnpackL(r) == Low32(crc)
    ensures !rawOutput ==> |r| == 8 && AllHex(r) && HexValue(r) == Low32(crc) as int
  {
    var masked := Low32(crc);
    if rawOutput then
      UnpackPack(masked);
      PackL(masked)
    else
      Int2Hex(masked as int)
  }
}
