/** The lookup table of the reflected CRC-32 (class CRC32Table in crc32.php):
    its construction from a polynomial and the per-process cache of built tables. */
module CrcTable {

  /** One step of the reflected shift register: the low bit leaves, and when it was
      set the polynomial is folded back in. */
  function Step(poly: bv32, c: bv32): bv32 {
    if c & 1 == 1 then (c >> 1) ^ poly else c >> 1
  }

  lemma StepOdd(poly: bv32, c: bv32)
    requires c & 1 == 1
    ensures Step(poly, c) == (c >> 1) ^ poly
  {
  }

  lemma StepEven(poly: bv32, c: bv32)
    requires c & 1 != 1
    ensures Step(poly, c) == c >> 1
  {
  }

  /** `n` steps of the shift register, starting from `c`. */
  function Steps(poly: bv32, c: bv32, n: nat): bv32 {
    if n == 0 then c else Step(poly, Steps(poly, c, n - 1))
  }

  /** The table entry for the byte `b`: its eight bits shifted out, low bit first. */
  function Entry(poly: bv32, b: bv8): bv32 {
    Steps(poly, b as bv32, 8)
  }

  /** The whole table for a polynomial: one entry per byte value, at the key of that value. */
  function Table(poly: bv32): (t: seq<bv32>)
    ensures |t| == 256
    ensures forall i :: 0 <= i < 256 ==> t[i] == Entry(poly, i as bv8)
  {
    seq(256, i requires 0 <= i < 256 => Entry(poly, i as bv8))
  }

  /** crc32.php builds the table with `array_fill(0, 255, 0)`, which holds keys 0..254 only;
      a PHP array grows when a new key is written, so the write at key 255 appends.
      The local `table` is that PHP array as a value. */
  method Create(poly: bv32) returns (table: seq<bv32>)
    ensures |table| == 256
    ensures table == Table(poly)
  {
    table := seq(255, _ => 0);
    for i := 0 to 256
      invariant |table| == if i < 255 then 255 else i
      invariant forall k :: 0 <= k < i ==> table[k] == Entry(poly, k as bv8)
    {
      var crc: bv32 := (i as bv8) as bv32;
      for j := 0 to 8
        invariant crc == Steps(poly, (i as bv8) as bv32, j)
      {
        if crc & 1 == 1 {
          StepOdd(poly, crc);
          crc := (crc >> 1) ^ poly;
        } else {
          StepEven(poly, crc);
          crc := crc >> 1;
        }
      }
      if i < |table| {
        table := table[i := crc];
      } else {
        table := table + [crc];
      }
    }
  }

  /** Shifting the all-zero register never folds the polynomial in. */
  lemma {:induction false} StepsOfZero(poly: bv32, n: nat)
    ensures Steps(poly, 0, n) == 0
  {
    if n > 0 {
      StepsOfZero(poly, n - 1);
    }
  }

  lemma TableAtZero(poly: bv32)
    ensures Table(poly)[0] == 0
  {
    StepsOfZero(poly, 8);
  }

  /** The tables remembered so far, keyed by the polynomial as a PHP integer: every
      key is a 32-bit polynomial and holds the table of that polynomial. */
  ghost predicate Remembered(tables: map<int, seq<bv32>>) {
    && (forall k :: k in tables ==> 0 <= k < 0x1_0000_0000)
    && (forall p: bv32 :: p as int in tables ==> tables[p as int] == Table(p))
  }

  lemma KeyInjective(p: bv32, q: bv32)
    requires p as int == q as int
    ensures p == q
  {
    assert (p as int) as bv32 == p;
    assert (q as int) as bv32 == q;
  }

  /** Remembering the table of `poly` keeps every remembered table correct. */
  lemma RememberedInsert(tables: map<int, seq<bv32>>, poly: bv32)
    requires Remembered(tables)
    ensures Remembered(tables[poly as int := Table(poly)])
  {
    var updated := tables[poly as int := Table(poly)];
    forall p: bv32 | p as int in updated
      ensures updated[p as int] == Table(p)
    {
      if p as int == poly as int {
        KeyInjective(p, poly);
      }
    }
  }

  /** The static `$tables` map of CRC32Table. */
  class TableCache {
    var tables: map<int, seq<bv32>>

    ghost predicate Valid()
      reads this
    {
      Remembered(tables)
    }

    constructor ()
      ensures Valid() && tables == map[]
    {
      tables := map[];
    }

    /** Returns the table for `poly`, building and remembering it on first use. */
    method Get(poly: bv32) returns (table: seq<bv32>)
      requires Valid()
      modifies this
      ensures Valid()
      ensures table == Table(poly)
      ensures tables == old(tables)[poly as int := table]
      ensures poly as int in old(tables) ==> tables == old(tables)
    {
      var key := poly as int;
      if key in tables {
        assert tables[key := tables[key]] == tables;
        return tables[key];
      }
      var created := Create(poly);
      RememberedInsert(tables, poly);
      tables := tables[key := created];
      return tables[key];
    }
  }
}
