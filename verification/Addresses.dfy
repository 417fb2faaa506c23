/** Virtual addresses, table addresses and descriptors as the page-table code computes them, with the
    arithmetic meaning of each bit-level expression. The granule is 4K; descriptors follow the
    VMSAv8-64 layout (section D8.3 of the Arm Architecture Reference Manual, DDI 0487). */
module Addresses {
  import opened Words

  function VaFromU64(bits: nat): nat { Bzhi(bits, 48) }

  function LevelIndex(va: nat, level: nat): nat
    requires level <= 3
  {
    BitAnd(Shr(va, (3 - level) * 9 + 12), Pow2(9) - 1)
  }

  function PageOffset(va: nat, level: nat): nat
    requires 1 <= level <= 3
  {
    BitAnd(va, Bzhi(WORD - 1, 12 + 9 * (3 - level)))
  }

  function FromIndices(i0: nat, i1: nat, i2: nat, i3: nat, offset: nat): nat
    requires i0 < 512 && i1 < 512 && i2 < 512 && i3 < 512 && offset < 4096
  {
    BitOr(BitOr(BitOr(BitOr(BitOr(0, Shl64(i0, 39)), Shl64(i1, 30)), Shl64(i2, 21)), Shl64(i3, 12)), offset)
  }

  function TableAddress(base: nat, ix: nat): nat { base + Shl64(ix, 12) }

  function NewTable(base: nat, ix: nat): nat { BitOr(TableAddress(base, ix), 3) }

  function ConcreteTableAddress(desc: nat): nat { BitAnd(desc, Not64(3)) }

  lemma Powers()
    ensures Pow2(2) == 4 && Pow2(3) == 8 && Pow2(9) == 0x200 && Pow2(12) == 0x1000 && Pow2(21) == 0x20_0000
    ensures Pow2(30) == 0x4000_0000 && Pow2(36) == 0x10_0000_0000 && Pow2(39) == 0x80_0000_0000
    ensures Pow2(48) == 0x1_0000_0000_0000
  {
    assert Pow2(2) == 4 && Pow2(3) == 8 && Pow2(6) == 64 && Pow2(9) == 0x200;
    hide Pow2;
    PowAdd(6, 6);
    PowAdd(12, 9);
    PowAdd(21, 9);
    PowAdd(30, 6);
    PowAdd(30, 9);
    PowAdd(36, 12);
  }

  /** A virtual address is the low 48 bits of a word. */
  lemma VaValue(bits: nat)
    ensures VaFromU64(bits) == bits % 0x1_0000_0000_0000
  {
    Powers();
    AndLow(bits, 48);
  }

  lemma IndexValue(va: nat, level: nat)
    requires level <= 3
    ensures LevelIndex(va, level) < 512
    ensures level == 0 ==> LevelIndex(va, level) == va / 0x80_0000_0000 % 512
    ensures level == 1 ==> LevelIndex(va, level) == va / 0x4000_0000 % 512
    ensures level == 2 ==> LevelIndex(va, level) == va / 0x20_0000 % 512
    ensures level == 3 ==> LevelIndex(va, level) == va / 0x1000 % 512
  {
    Powers();
    AndLow(Shr(va, (3 - level) * 9 + 12), 9);
  }

  lemma OffsetValue(va: nat)
    ensures PageOffset(va, 3) == va % 4096
  {
    Powers();
    assert Bzhi(WORD - 1, 12) == 4095 by {
      AndLow(WORD - 1, 12);
      assert (WORD - 1) % 4096 == 4095;
    }
    AndLow(va, 12);
  }

  lemma ShiftValue(x: nat, n: nat, p: nat)
    requires p == Pow2(n) && x * p < WORD
    ensures Shl64(x, n) == x * p
  {
    SmallMod(x * p, WORD);
  }

  lemma FromIndicesValue(i0: nat, i1: nat, i2: nat, i3: nat, offset: nat)
    requires i0 < 512 && i1 < 512 && i2 < 512 && i3 < 512 && offset < 4096
    ensures FromIndices(i0, i1, i2, i3, offset) ==
            i0 * 0x80_0000_0000 + i1 * 0x4000_0000 + i2 * 0x20_0000 + i3 * 0x1000 + offset
  {
    Powers();
    hide Pow2, BitOr, Shl64;
    ShiftValue(i0, 39, 0x80_0000_0000);
    ShiftValue(i1, 30, 0x4000_0000);
    ShiftValue(i2, 21, 0x20_0000);
    ShiftValue(i3, 12, 0x1000);
    OrZero(i0 * 0x80_0000_0000);
    var a := i0 * 0x80_0000_0000;
    OrDisjoint(i0, i1 * 0x4000_0000, 39);
    var b := a + i1 * 0x4000_0000;
    OrDisjoint(i0 * 0x200 + i1, i2 * 0x20_0000, 30);
    OrDisjoint(i0 * 0x4_0000 + i1 * 0x200 + i2, i3 * 0x1000, 21);
    OrDisjoint(i0 * 0x800_0000 + i1 * 0x4_0000 + i2 * 0x200 + i3, offset, 12);
  }

  lemma Aligned(base: nat, ix: nat, k: nat)
    requires base % 4096 == 0 && k < 512
    ensures (base + 4096 * ix) % 4 == 0
    ensures (base + 4096 * ix + 8 * k) % 4096 == 8 * k && (base + 4096 * ix + 8 * k) % 8 == 0
    ensures (base + 4096 * ix) / 4 * 4 == base + 4096 * ix
  {
    var q := base / 4096 + ix;
    DivisionOf(base, 4096);
    PageMultiple(q, k);
  }

  lemma PageMultiple(q: nat, k: nat)
    requires k < 512
    ensures 4096 * q % 4 == 0 && 4096 * q / 4 * 4 == 4096 * q
    ensures (4096 * q + 8 * k) % 4096 == 8 * k && (4096 * q + 8 * k) % 8 == 0
  {
    DivMod(4096 * q, 4, 1024 * q, 0);
    DivMod(4096 * q + 8 * k, 4096, q, 8 * k);
    DivMod(4096 * q + 8 * k, 8, 512 * q + k, 0);
  }

  lemma TableShift(ix: nat)
    ensures Shr(4096 * ix, 12) == ix
  {
    Powers();
    DivMod(4096 * ix, 4096, ix, 0);
  }

  lemma LowBits(q: nat)
    requires q * 4 + 4 <= WORD
    ensures BitOr(q * 4, 3) == q * 4 + 3 && BitAnd(q * 4 + 3, Not64(3)) == q * 4
  {
    Powers();
    hide Pow2, BitOr, BitAnd;
    OrDisjoint(q, 3, 2);
    ClearLow(q * 4 + 3, 2);
  }

  /** The descriptor of a table leads back to that table. */
  lemma TableValue(base: nat, ix: nat)
    requires base % 4096 == 0 && base + 4096 * (ix + 1) <= WORD
    ensures TableAddress(base, ix) == base + 4096 * ix
    ensures NewTable(base, ix) == base + 4096 * ix + 3 < WORD
    ensures ConcreteTableAddress(NewTable(base, ix)) == base + 4096 * ix
    ensures Shr(4096 * ix, 12) == ix
  {
    Powers();
    Aligned(base, ix, 0);
    TableShift(ix);
    hide Pow2, BitOr, BitAnd, Shl64, Shr;
    ShiftValue(ix, 12, 4096);
    var q := (base + 4096 * ix) / 4;
    assert q * 4 == base + 4096 * ix;
    LowBits(q);
  }

  /** Reading a table entry's address apart: its table, its alignment and its offset. */
  lemma EntryValue(base: nat, ix: nat, k: nat)
    requires base % 4096 == 0 && base + 4096 * (ix + 1) <= WORD && k < 512
    ensures var addr := base + 4096 * ix + 8 * k;
            && BitAnd(addr, Not64(0xFFF)) == base + 4096 * ix
            && BitAnd(addr, 7) == 0
            && Shr(BitAnd(addr, 0xFFF), 3) == k
            && Shr(4096 * ix, 12) == ix
  {
    Powers();
    Aligned(base, ix, k);
    TableShift(ix);
    assert Div(8 * k, 8) == k;
    var addr := base + 4096 * ix + 8 * k;
    hide Pow2, BitAnd, Div;
    ClearLow(addr, 12);
    AndLow(addr, 3);
    AndLow(addr, 12);
  }
}
