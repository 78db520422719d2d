/** The CRC-32 of `std.checksum` (asteria/src/library/bindings_checksum.cpp): ISO/IEC 3309,
    divisor 0x04C11DB7, processed in its reflected form 0xEDB88320 one byte at a time
    through a 256-entry lookup table. */
module Crc32 {

  /** The reflected divisor `0xEDB88320` passed to `do_generate_table`. */
  const Divisor: bv32 := 0xEDB8_8320

  /** `Generator<value, divisor, round>`: one round `(v >> 1) ^ (-(v & 1) & divisor)`
      per template level, until round 8 yields the value. */
  function Generator(value: bv32, divisor: bv32, round: nat): bv32
    requires round <= 8
    decreases 8 - round
  {
    if round == 8 then value
    else Generator((value >> 1) ^ ((0 - (value & 1)) & divisor), divisor, round + 1)
  }

  /** Entry `i` of the table: `Generator<uint8_t(i), 0xEDB88320, 0>`. */
  function TableEntry(i: int): bv32
    requires 0 <= i < 256
  {
    Generator(i as bv32, Divisor, 0)
  }

  /** `s_iso3309_table`, filled by `do_generate_table<0xEDB88320>()`. */
  function Iso3309Table(): (t: seq<bv32>)
    ensures |t| == 256
    ensures forall i :: 0 <= i < 256 ==> t[i] == TableEntry(i)
  {
    seq(256, TableEntry)
  }

  /** The table slot `(reg ^ b) & 0xFF` that one step of `Hasher::write` looks up. */
  function Index(r: bv32, b: bv8): (k: int)
    ensures 0 <= k < 256
  {
    ((r ^ (b as bv32)) & 0xFF) as int
  }

  /** One iteration of the loop in `Hasher::write`: `reg = (reg >> 8) ^ table[...]`. */
  function TableStep(table: seq<bv32>, r: bv32, b: bv8): bv32
    requires |table| == 256
  {
    (r >> 8) ^ table[Index(r, b)]
  }

  /** The register after hashing `data` through `table`, starting from `r`. */
  function Update(table: seq<bv32>, r: bv32, data: seq<bv8>): bv32
    requires |table| == 256
  {
    if |data| == 0 then r
    else TableStep(table, Update(table, r, data[..|data| - 1]), data[|data| - 1])
  }

  /** The register of a freshly created hasher (`UINT32_MAX`). */
  const InitialRegister: bv32 := 0xFFFF_FFFF

  /** What `std.checksum.crc32(data)` returns: the complemented register after hashing
      `data` with a fresh hasher. Its high-order 32 bits are zero. */
  function Checksum(data: seq<bv8>): (r: int)
    ensures 0 <= r < 0x1_0000_0000
  {
    (!Update(Iso3309Table(), InitialRegister, data)) as int
  }

  // ---------------------------------------------------------------------------
  // An independent reference for the table: the textbook bit-at-a-time reflected CRC.

  /** Shift one bit out of the register, reducing by the divisor when that bit was set. */
  function ShiftBit(r: bv32): bv32
  {
    if r & 1 == 1 then (r >> 1) ^ Divisor else r >> 1
  }

  /** `n` such shifts. */
  function ShiftBits(r: bv32, n: nat): bv32
    decreases n
  {
    if n == 0 then r else ShiftBits(ShiftBit(r), n - 1)
  }

  /** The branch-free round of `Generator` is the conditional reduction. */
  lemma RoundIsShiftBit(v: bv32)
    ensures (v >> 1) ^ ((0 - (v & 1)) & Divisor) == ShiftBit(v)
  {
    if v & 1 == 1 {
      assert 0 - (v & 1) == 0xFFFF_FFFF;
    } else {
      assert v & 1 == 0;
    }
  }

  /** The rounds still to run from `round` shift `v` by `8 - round` bits. */
  lemma {:induction false} GeneratorIsShiftBits(v: bv32, round: nat)
    requires round <= 8
    ensures Generator(v, Divisor, round) == ShiftBits(v, 8 - round)
    decreases 8 - round
  {
    if round < 8 {
      RoundIsShiftBit(v);
      GeneratorIsShiftBits(ShiftBit(v), round + 1);
    }
  }

  /** Every table entry is its index pushed bit by bit through eight reductions. */
  lemma TableEntryIsShiftBits(i: int)
    requires 0 <= i < 256
    ensures Iso3309Table()[i] == ShiftBits(i as bv32, 8)
  {
    GeneratorIsShiftBits(i as bv32, 0);
  }

  /** Three well-known entries of the ISO/IEC 3309 table. */
  lemma KnownTableEntries()
    ensures Iso3309Table()[0] == 0
    ensures Iso3309Table()[1] == 0x7707_3096
    ensures Iso3309Table()[128] == Divisor
  {
  }

  // ---------------------------------------------------------------------------
  // The register carries over from one write to the next.

  lemma UpdateSnoc(t: seq<bv32>, r: bv32, data: seq<bv8>, i: int)
    requires |t| == 256 && 0 <= i < |data|
    ensures Update(t, r, data[..i + 1]) == TableStep(t, Update(t, r, data[..i]), data[i])
  {
    assert data[..i + 1][..i] == data[..i];
  }

  /** Writing `a` and then `b` leaves the same register as writing `a + b`. */
  lemma {:induction false} UpdateConcat(t: seq<bv32>, r: bv32, a: seq<bv8>, b: seq<bv8>)
    requires |t| == 256
    ensures Update(t, Update(t, r, a), b) == Update(t, r, a + b)
    decreases |b|
  {
    if |b| == 0 {
      assert a + b == a;
    } else {
      var ab := a + b;
      assert ab[..|ab| - 1] == a + b[..|b| - 1];
      UpdateConcat(t, r, a, b[..|b| - 1]);
    }
  }

  /** The empty message has checksum zero: the initial register is all ones. */
  lemma ChecksumOfEmpty()
    ensures Checksum([]) == 0
  {
    assert Update(Iso3309Table(), InitialRegister, []) == InitialRegister;
  }

  /** The entries of the table that hashing "123456789" looks up. */
  lemma CheckEntries()
    ensures TableEntry(1) == 0x7707_3096
    ensures TableEntry(25) == 0x646B_A8C0
    ensures TableEntry(88) == 0x65B0_D9C6
    ensures TableEntry(105) == 0x346E_D9FC
    ensures TableEntry(122) == 0xB0D0_9822
    ensures TableEntry(169) == 0xAF0A_1B4C
    ensures TableEntry(206) == 0x7CDC_EFB7
    ensures TableEntry(213) == 0xF6B9_265B
  {
  }

  /** One step of the loop with a known table entry. */
  lemma CheckStep(r: bv32, b: bv8, i: int, r2: bv32)
    requires 0 <= i < 256 && Index(r, b) == i && (r >> 8) ^ TableEntry(i) == r2
    ensures TableStep(Iso3309Table(), r, b) == r2
  {
  }

  /** The check value of CRC-32 in its ISO/IEC 3309 form: the ASCII digits "123456789"
      give 0xCBF43926, so the table and the loop together compute the standard CRC. */
  lemma CheckValue(data: seq<bv8>)
    requires data == [0x31, 0x32, 0x33, 0x34, 0x35, 0x36, 0x37, 0x38, 0x39]
    ensures Checksum(data) == 0xCBF4_3926
  {
    var t := Iso3309Table();
    CheckEntries();
    assert Update(t, InitialRegister, data[..0]) == InitialRegister;
    CheckStep(0xFFFF_FFFF, data[0], 206, 0x7C23_1048);
    UpdateSnoc(t, InitialRegister, data, 0);
    CheckStep(0x7C23_1048, data[1], 122, 0xB0AC_BB32);
    UpdateSnoc(t, InitialRegister, data, 1);
    CheckStep(0xB0AC_BB32, data[2], 1, 0x77B7_9C2D);
    UpdateSnoc(t, InitialRegister, data, 2);
    CheckStep(0x77B7_9C2D, data[3], 25, 0x641C_1F5C);
    UpdateSnoc(t, InitialRegister, data, 3);
    CheckStep(0x641C_1F5C, data[4], 105, 0x340A_C5E3);
    UpdateSnoc(t, InitialRegister, data, 4);
    CheckStep(0x340A_C5E3, data[5], 213, 0xF68D_2C9E);
    UpdateSnoc(t, InitialRegister, data, 5);
    CheckStep(0xF68D_2C9E, data[6], 169, 0xAFFC_9660);
    UpdateSnoc(t, InitialRegister, data, 6);
    CheckStep(0xAFFC_9660, data[7], 88, 0x651F_2550);
    UpdateSnoc(t, InitialRegister, data, 7);
    CheckStep(0x651F_2550, data[8], 105, 0x340B_C6D9);
    UpdateSnoc(t, InitialRegister, data, 8);
    assert data[..9] == data;
  }

  /** `CRC32::Hasher`: a register that `write` updates and `finish` reads and resets. The
      hasher reads the static table through `table`. */
  class Hasher {
    const table: seq<bv32>
    var reg: bv32

    ghost predicate Valid()
      reads this
    {
      |table| == 256
    }

    /** `Hasher()`: the register starts at `UINT32_MAX`. */
    constructor ()
      ensures Valid() && table == Iso3309Table()
      ensures reg == InitialRegister
    {
      table := Iso3309Table();
      reg := InitialRegister;
    }

    /** `write(data)`: hashes the bytes one at a time, carrying the register over. */
    method Write(data: seq<bv8>)
      requires Valid()
      modifies this
      ensures reg == Update(table, old(reg), data)
    {
      var r := reg;
      var i := 0;
      while i != |data|
        invariant 0 <= i <= |data|
        invariant r == Update(table, old(reg), data[..i])
      {
        UpdateSnoc(table, old(reg), data, i);
        r := (r >> 8) ^ table[Index(r, data[i])];
        i := i + 1;
      }
      assert data[..i] == data;
      reg := r;
    }

    /** `finish()`: returns the complemented register as a non-negative integer below
        2^32 and resets the register, as if the hasher had just been created. */
    method Finish() returns (ck: int)
      modifies this
      ensures ck == (!old(reg)) as int && 0 <= ck < 0x1_0000_0000
      ensures reg == InitialRegister
    {
      ck := (!reg) as int;
      reg := InitialRegister;
    }
  }

  /** `std_checksum_crc32(data)`: a new hasher, one `write`, then `finish`. */
  method StdChecksumCrc32(data: seq<bv8>) returns (ck: int)
    ensures ck == Checksum(data)
    ensures 0 <= ck < 0x1_0000_0000
  {
    var h := new Hasher();
    h.Write(data);
    ck := h.Finish();
  }

  /** Two writes followed by `finish` checksum the concatenation, and the reset hasher
      then checksums the next message on its own. */
  method HashTwice(a: seq<bv8>, b: seq<bv8>, c: seq<bv8>) returns (first: int, second: int)
    ensures first == Checksum(a + b)
    ensures second == Checksum(c)
  {
    var h := new Hasher();
    h.Write(a);
    h.Write(b);
    UpdateConcat(h.table, InitialRegister, a, b);
    first := h.Finish();
    h.Write(c);
    second := h.Finish();
  }
}
