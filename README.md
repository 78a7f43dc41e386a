# php-crc32 in Dafny

This project models the pure-PHP CRC-32 engine of google/php-crc32 and the small byte
codec of its C extension, and proves properties of the model.

The engine computes reflected CRC-32 checksums for any 32-bit polynomial. The repository
names three polynomials: IEEE 802.3 (`0xedb88320`), Castagnoli (`0x82f63b78`) and Koopman
(`0xeb31d82e`). The engine works in four stages:

- `CRC32Table::create` builds a 256-entry lookup table from the polynomial. Each entry takes
  eight shift-and-conditional-xor steps.
- `CRC32Table::get` keeps every table it builds in a static map.
- `CRC32_PHP` holds a register. `reset` sets it to all ones. `update` folds bytes into it
  through the table. `hash` complements it and formats it.
- `crc_hash` and `int2hex` do the formatting: eight lowercase hex digits, or four raw bytes
  via `pack('L')`.

The C header `ext/php_crc32c.h` encodes a 32-bit word as four bytes, most significant
first, and decodes it back.

Modules:

- `Crc32` (`crc32.dfy`): the constants `IEEE`, `CASTAGNOLI`, `KOOPMAN` and `SIZE`.
- `CrcTable` (`crc_table.dfy`): the table.
  - `Table` defines it entry by entry.
  - `Create` is the nested loop of the source, on a sequence that grows the way the PHP
    array does.
  - `TableCache` is the static cache, a class whose map field `Get` updates.
- `CrcFormat` (`crc_format.dfy`): PHP strings as byte sequences, plus `dechex`, `str_pad`,
  `int2hex`, `pack('L')` and `crc_hash`.
- `CrcEngine` (`crc_engine.dfy`):
  - `Fold` is the recursive definition of what `update` computes.
  - `Checksum` is the checksum of a byte string.
  - `Crc32Php` is the engine class. Its register field is rewritten by `Reset` and `Update`.
- `PhpWidth` (`crc_width.dfy`): PHP's 64-bit integers and arithmetic `>>`. It carries the
  whole PHP computation on 64-bit values and proves that its hash equals the 32-bit model's.
- `CrcVectors` (`crc_vectors.dfy`): the expected values of crc32_test.php, as checksums and
  as hex strings. It also models the test loop of crc32_test.php over its first three cases
  for each polynomial on an engine: one `update` per case, then `hash`, then `reset`.
- `Crc32cBytes` (`crc32c_bytes.dfy`): `int2byte` and `byte2int`.

Two details of the code shape the model:

- The code has only the byte-at-a-time loop; there is no slicing-by-4 variant.
- `array_fill(0, 255, 0)` (crc32.php:165) pre-sizes 255 slots; the write at key 255 appends
  the last entry, and `Create` proves the result has 256 entries.

Representation choices:

- The register, the polynomial and the table entries are `bv32`. PHP integers are 64 bits
  wide. `PhpWidth` proves on 64-bit values:
  - table entries stay below 2^32;
  - an update reads only the low 32 bits of the register and leaves a value below 2^32;
  - with a 64-bit table holding the same entries, one update and any sequence of updates
    keep the low 32 bits equal to the 32-bit register;
  - `~$crc & 0xffffffff` depends only on those 32 bits, so `hash` on the 64-bit register
    returns what the 32-bit model returns.
- The pad character of `str_pad` is the byte `'0'` (0x30).
- Hex digits are the bytes of '0'..'9' and 'a'..'f'.

## Model

| member | source | states |
|---|---|---|
| CrcTable.Table | crc32.php:163-180 | the table has exactly 256 entries, and entry `i` is eight steps of the shift register started at `i` |
| CrcTable.Create | crc32.php:163-180 | the nested loops, starting from 255 pre-filled slots and appending at key 255, return exactly the table: 256 entries, each the eight-step value of its key |
| CrcTable.StepsOfZero | crc32.php:168-175 | any number of steps from a zero register leaves zero |
| CrcTable.TableAtZero | crc32.php:167-176 | entry 0 of every table is 0 |
| CrcTable.RememberedInsert | crc32.php:159 | storing the table of a polynomial under its key keeps every remembered table equal to the table of its key |
| CrcTable.TableCache.constructor | crc32.php:138 | the cache starts empty |
| CrcTable.TableCache.Get | crc32.php:154-161 | returns the table `create` would build and remembers it under the polynomial; entries for other polynomials are untouched, and a polynomial already present leaves the cache unchanged |
| CrcFormat.HexDigit | crc32.php:15 | the digit written for a value below 16 is a lowercase hex digit denoting that value |
| CrcFormat.HexValue | crc32.php:15 | a string of k hex digits denotes a number below 16^k |
| CrcFormat.Dechex | crc32.php:15 | `dechex(n)` is a non-empty string of lowercase hex digits denoting `n` |
| CrcFormat.DechexLeadingDigit | crc32.php:15 | `dechex(n)` starts with '0' exactly when `n` is zero |
| CrcFormat.DechexMinimal | crc32.php:15 | `dechex(n)` has no more digits than `n` needs |
| CrcFormat.DechexLength | crc32.php:15 | a value below 16^k has at most k digits under `dechex` |
| CrcFormat.StrPadLeft | crc32.php:15 | `str_pad(s, n, pad, STR_PAD_LEFT)` has length max(n, len(s)), ends with `s`, and has only `pad` before it |
| CrcFormat.HexValueAppend | crc32.php:15 | the value of two digit strings written one after the other: the first moves up one place per digit of the second |
| CrcFormat.HexValueZeroPad | crc32.php:15 | leading '0' digits do not change the value |
| CrcFormat.ZeroDigitPrefix | crc32.php:15 | one leading '0' digit does not change the value |
| CrcFormat.PadDigits | crc32.php:15 | zero-padding digits to eight keeps them hex digits with the same value |
| CrcFormat.Int2Hex | crc32.php:13-16 | `int2hex(i)` consists of hex digits denoting `i`, is at least 8 long, and is exactly 8 long when `i` < 2^32 |
| CrcFormat.Int2HexInjective | crc32.php:13-16 | different values have different `int2hex` forms |
| CrcFormat.DigitValueInjective | crc32.php:15 | different hex digits have different values |
| CrcFormat.HexValueInjective | crc32.php:13-16 | two digit strings of one length and one value are equal |
| CrcFormat.HexValueZero | crc32.php:13-16 | the only digit strings denoting zero are all '0' |
| CrcFormat.PackL | crc32.php:22 | `pack('L', v)` is `CRC32::SIZE` = 4 bytes |
| CrcFormat.UnpackPack | crc32.php:22 | reading the four bytes back as a little-endian word gives the word |
| CrcFormat.PackUnpack | crc32.php:22 | every four-byte string is the packing of the word it reads as |
| CrcFormat.CrcHash | crc32.php:18-25 | raw output is 4 bytes reading back as the masked value; hex output is 8 hex digits denoting the masked value |
| CrcFormat.CrcHashWord | crc32.php:18-25 | the hex form of a 32-bit checksum is 8 hex digits denoting the checksum |
| CrcFormat.CrcHashHex | crc32.php:18-25 | the hex form of a 32-bit checksum is the only 8-digit string denoting it |
| CrcFormat.FourDigits | crc32.php:15 | four hex digits denote their place-value sum, most significant first |
| CrcFormat.CrcHashOfHalves | crc32.php:18-25 | the hex form of a 32-bit checksum is its high four digits followed by its low four |
| CrcFormat.CrcHashRaw | crc32.php:18-25 | the raw form of a 32-bit checksum is its `pack('L')` bytes |
| CrcEngine.FoldAppend | crc32.php:201-209 | folding `a` and then `b` into the register equals folding `a + b` |
| CrcEngine.Crc32Php.constructor | crc32.php:189-194 | the new engine takes its table from the cache and is in the reset state: register all ones, nothing consumed; the cache now remembers the polynomial |
| CrcEngine.Crc32Php.Reset | crc32.php:196-199 | sets the register to all ones and forgets the consumed bytes; the whole state is fixed, so resetting twice is resetting once, and a fresh engine is a reset one |
| CrcEngine.Crc32Php.Update | crc32.php:201-209 | the loop leaves the register equal to the bytes folded in order into its old value, and the engine keeps the fold of everything consumed since the reset; `update("")` changes nothing |
| CrcEngine.Crc32Php.Hash | crc32.php:211-214 | without changing the engine, returns the checksum of the bytes consumed since the reset, formatted by `crc_hash` |
| PhpWidth.SarByOne | crc32.php:171-173 | below its top bit, PHP's arithmetic `$crc >> 1` agrees with the logical shift, whatever the sign |
| PhpWidth.SarByEight | crc32.php:206 | below its top eight bits, PHP's arithmetic `$crc >> 8` agrees with the logical shift, whatever the sign |
| PhpWidth.SarFillsSign | crc32.php:171-173 | the `k` high bits an arithmetic shift vacates are all copies of the sign bit: all zero for a non-negative integer, all one for a negative one |
| PhpWidth.Step64Fits | crc32.php:170-174 | a 64-bit table step on a polynomial and register below 2^32 stays below 2^32 |
| PhpWidth.Steps64Fits | crc32.php:167-176 | every 64-bit table entry for a polynomial below 2^32 is below 2^32 |
| PhpWidth.Key64 | crc32.php:206 | the table key of an update is in 0..255 |
| PhpWidth.ShiftedLow | crc32.php:206 | `($crc >> 8) & 0xffffff` is bits 8..31 of the register, whatever its sign |
| PhpWidth.KeyLow | crc32.php:206 | the table key depends only on the low 32 bits of the register |
| PhpWidth.Update64Shape | crc32.php:206 | a 64-bit update is the low word shifted down by 8 xor the selected entry |
| PhpWidth.Update64Low | crc32.php:203-207 | an update of a 64-bit register, including `~0` = -1, depends only on its low 32 bits |
| PhpWidth.Update64Fits | crc32.php:203-207 | with entries below 2^32, an updated register is below 2^32 |
| PhpWidth.ResetWord | crc32.php:198 | the low 32 bits of `~0` are the all-ones reset value of the model |
| PhpWidth.HashWord | crc32.php:213 | `~$crc & 0xffffffff` is the complement of the low 32 bits of the register |
| PhpWidth.KeyTie | crc32.php:206 | the table key computed on the 64-bit register is the key computed on its low 32 bits |
| PhpWidth.UpdateTie | crc32.php:206 | with a 64-bit table holding the model's entries, one 64-bit update gives exactly the model's 32-bit update of the low 32 bits |
| PhpWidth.Fold64Tie | crc32.php:201-209 | after `update` on any input, the low 32 bits of the 64-bit register are the model's register after the same input |
| PhpWidth.ResetTie | crc32.php:196-209 | after `~0` and any input, the low 32 bits of the 64-bit register are the model's register after its reset and the same input |
| PhpWidth.PhpChecksumTie | crc32.php:196-214 | after `~0` and any input, `~$crc & 0xffffffff` is the model's checksum of that input |
| PhpWidth.CrcHashLow | crc32.php:18-25 | `crc_hash` gives the same string for two integers with the same low 32 bits |
| PhpWidth.HashOfLow | crc32.php:18-25 | `crc_hash` of an integer is `crc_hash` of its low 32 bits |
| PhpWidth.PhpHashTie | crc32.php:189-214 | `reset`, `update` and `hash` on 64-bit PHP integers return, raw or hex, exactly the string the 32-bit model returns for the same input |
| CrcVectors.IeeeEntry9E | crc32.php:167-176 | the IEEE table entry at 0x9e is 0x17b7be43 |
| CrcVectors.IeeeEntryDE | crc32.php:167-176 | the IEEE table entry at 0xde is 0x616bffd3 |
| CrcVectors.IeeeEntryF1 | crc32.php:167-176 | the IEEE table entry at 0xf1 is 0xcabac28a |
| CrcVectors.CastagnoliEntry9E | crc32.php:167-176 | the Castagnoli table entry at 0x9e is 0x3ed04330 |
| CrcVectors.CastagnoliEntryAD | crc32.php:167-176 | the Castagnoli table entry at 0xad is 0x1d63f975 |
| CrcVectors.CastagnoliEntryAA | crc32.php:167-176 | the Castagnoli table entry at 0xaa is 0xc9a99d9e |
| CrcVectors.EmptyChecksum | crc32_test.php:8 | the checksum of the empty string is 0 for every polynomial |
| CrcVectors.EmptyHash | crc32_test.php:8 | the empty string hashes to "00000000" for every polynomial |
| CrcVectors.EmptyZeroHex | crc32_test.php:8-17 | the empty string hashes to the string 00000000 under IEEE and under Castagnoli alike |
| CrcVectors.IeeeA | crc32_test.php:9 | IEEE checksum of "a" is 0xe8b7be43 |
| CrcVectors.IeeeAbc | crc32_test.php:10 | IEEE checksum of "abc" is 0x352441c2 |
| CrcVectors.CastagnoliA | crc32_test.php:18 | Castagnoli checksum of "a" is 0xc1d04330 |
| CrcVectors.CastagnoliAbc | crc32_test.php:19 | Castagnoli checksum of "abc" is 0x364b3fb7 |
| CrcVectors.IeeeAHex | crc32_test.php:9 | 0xe8b7be43 is formatted by `hash` as the string e8b7be43 |
| CrcVectors.IeeeAbcHex | crc32_test.php:10 | 0x352441c2 is formatted by `hash` as the string 352441c2 |
| CrcVectors.CastagnoliAHex | crc32_test.php:18 | 0xc1d04330 is formatted by `hash` as the string c1d04330 |
| CrcVectors.CastagnoliAbcHex | crc32_test.php:19 | 0x364b3fb7 is formatted by `hash` as the string 364b3fb7 |
| CrcVectors.HashOne | crc32_test.php:30-38 | one case of the test loop, `update(input)`, `hash()` and `reset()` on a reset engine, returns the hex hash of the input and leaves the engine reset |
| CrcVectors.IeeeVectors | crc32_test.php:27-39 | a new IEEE engine run through the test loop on "", "a" and "abc" returns 00000000, e8b7be43 and 352441c2 |
| CrcVectors.CastagnoliVectors | crc32_test.php:27-39 | a new Castagnoli engine run through the test loop on "", "a" and "abc" returns 00000000, c1d04330 and 364b3fb7 |
| Crc32cBytes.BigEndian | ext/php_crc32c.h:32-37 | a word is four bytes |
| Crc32cBytes.Int2Byte | ext/php_crc32c.h:32-37 | writes the big-endian bytes of `i` into `b[0..3]` and leaves the rest of `b` alone |
| Crc32cBytes.Byte2Int | ext/php_crc32c.h:39-41 | with `uint32_t` shifts, the decoded word's big-endian bytes are the first four input bytes, `hash[0]` most significant |
| Crc32cBytes.Byte2IntOfBigEndian | ext/php_crc32c.h:32-41 | decoding the encoding of any word gives the word |
| Crc32cBytes.BigEndianOfByte2Int | ext/php_crc32c.h:32-41 | encoding the decoding of any four bytes gives the bytes |
| Crc32cBytes.Byte2IntZero | ext/php_crc32c.h:39-41 | four zero bytes decode to 0 |
| Crc32cBytes.Byte2IntAsWritten | ext/php_crc32c.h:39-41 | as written, byte2int is defined exactly when `hash[0]` < 0x80, and then agrees with `Byte2Int` |
| Crc32cBytes.Byte2IntAsWrittenUndefined | ext/php_crc32c.h:40 | the bytes of 0x80000000 are an input for which the as-written decoding is undefined, though the corrected one returns 0x80000000 |

## Left out

- `CRC32::create` (crc32.php:44-68): it picks a backend by probing the runtime
  (`hash_algos()`, `function_exists`). That is not modelled.
- `CRC32C_Google` and `CRC32_Builtin` (crc32.php:74-134): thin wrappers over the native
  `crc32c()` function and PHP's `hash_init`/`hash_update`/`hash_final`, whose code is not
  part of this model.
- `CRC32Table::print` and every `version()`: this is console output and text labels only.
- ext/crc32c.c and ext/hash_crc32c.c: Zend module glue forwarding to Google's crc32c
  library, which is not part of this model. crc32_benchmark.php: file I/O and timing.
- `CrcFormat.PackL`: `pack('L')` uses the machine's byte order. The model fixes it as
  little-endian.
- The register of `Crc32Php` is a 32-bit word. PHP holds `~0` as the 64-bit value -1.
  `PhpWidth` models the 64-bit computation as functions and proves its hash equal to the
  model's, but the engine class does not carry a 64-bit register.
- `PhpWidth.Steps64Fits`: stated on 64-bit values only. It is not tied to `CrcTable.Steps`
  by a conversion between widths; such conversion proofs exceed the solver budget. The
  tie lemmas from `PhpWidth.UpdateTie` to `PhpWidth.PhpHashTie` therefore take the 64-bit
  table as a parameter that holds the model's entries, rather than building it.
- `CrcFormat.Dechex`: covers non-negative integers only. `int2hex` only ever receives
  masked, non-negative values from `crc_hash`.
- `CrcVectors`: covers the vectors for "", "a" and "abc". The longer strings of
  crc32_test.php are not evaluated, and the modelled test loop stops after those three
  cases.
- The table-driven fold is not proved equal to a bit-serial CRC definition.
- Slicing-by-4: the code has no such variant.
- The cache `TableCache` is one object that callers pass in. The PHP class keeps a single
  static map for the whole process.

## Findings

| source | as written | input that shows it | evidently intended | confidence | as-written member | corrected member |
|---|---|---|---|---|---|---|
| ext/php_crc32c.h:40 | `hash[0] << 24` shifts an `unsigned char` promoted to signed `int`; for `hash[0]` >= 0x80 the result does not fit in an `int`, which is undefined behaviour in C | `{0x80, 0, 0, 0}`, the encoding of 0x80000000 | widen each byte to `uint32_t` before shifting, so every word decodes | not executed; common compilers produce the intended bits | Crc32cBytes.Byte2IntAsWrittenUndefined | Crc32cBytes.Byte2IntOfBigEndian |
