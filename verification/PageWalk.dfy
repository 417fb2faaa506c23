/** The initial translation table walk over frozen page tables. */
module PageWalk {
  import opened Wrappers
  import opened Words
  import opened Addresses
  import opened Descriptors
  import opened PageTables

  /** Page tables once frozen into a read-only memory region. */
  datatype Frozen = Frozen(base: nat, tables: seq<seq<nat>>)

  function InitialDescriptor(f: Frozen, addr: nat): Option<nat> {
    var tableAddr := BitAnd(addr, Not64(0xFFF));
    if BitAnd(addr, 7) != 0 || tableAddr < f.base then None
    else
      var offset := Shr(BitAnd(addr, 0xFFF), 3);
      var i := Shr(tableAddr - f.base, 12);
      if i < |f.tables| && offset < |f.tables[i]| then Some(f.tables[i][offset]) else None
  }

  /** One byte of the region, if the address lies in it. */
  function InitialByte(f: Frozen, addr: nat): Option<nat> {
    if !(f.base <= addr < f.base + 4096 * |f.tables|) then None
    else
      var desc := InitialDescriptor(f, BitAnd(addr, Not64(7)));
      var offset := BitAnd(addr, 7);
      if desc.Some? then Some(Bzhi(Shr(desc.value, offset * 8), 8)) else None
  }

  /** Bytes `j` to 7 of the little-endian word at `addr`. */
  function ReadBytes(f: Frozen, addr: nat, j: nat): Option<nat>
    requires j <= 8
    decreases 8 - j
  {
    if j == 8 then Some(0)
    else
      var low := InitialByte(f, addr + j);
      var high := ReadBytes(f, addr, j + 1);
      if low.Some? && high.Some? then Some(low.value + 256 * high.value) else None
  }

  function ReadInitial(f: Frozen, addr: nat): Option<nat> {
    if addr + 8 <= WORD then ReadBytes(f, addr, 0) else None
  }

  datatype Walk = Walk(
    l0pte: nat, l0desc: nat, l1pte: nat, l1desc: nat, l2pte: nat, l2desc: nat, l3pte: nat, l3desc: nat, pa: nat)

  predicate IsBlock(desc: nat) { BitAnd(desc, 3) == 1 }

  predicate IsInvalid(desc: nat) { BitAnd(desc, 1) == 0 }

  function EntryAddress(table: nat, va: nat, level: nat): nat
    requires level <= 3
  {
    table + LevelIndex(va, level) * 8
  }

  /** The walk; `None` stands for a failed memory read. Fields not reached stay zero. */
  function InitialWalk(va: nat, tableAddr: nat, f: Frozen): Option<Walk> {
    var pte := EntryAddress(tableAddr, va, 0);
    var desc := ReadInitial(f, pte);
    if desc.None? then None
    else
      var w := Walk(pte, desc.value, 0, 0, 0, 0, 0, 0, 0);
      if IsInvalid(desc.value) then Some(w) else WalkLevel1(va, w, f)
  }

  function WalkLevel1(va: nat, w: Walk, f: Frozen): Option<Walk> {
    var pte := EntryAddress(ConcreteTableAddress(w.l0desc), va, 1);
    var desc := ReadInitial(f, pte);
    if desc.None? then None
    else
      var w := w.(l1pte := pte, l1desc := desc.value);
      if IsBlock(desc.value) then Some(w.(pa := PhysicalAddress(desc.value, va, 1)))
      else if IsInvalid(desc.value) then Some(w)
      else WalkLevel2(va, w, f)
  }

  function WalkLevel2(va: nat, w: Walk, f: Frozen): Option<Walk> {
    var pte := EntryAddress(ConcreteTableAddress(w.l1desc), va, 2);
    var desc := ReadInitial(f, pte);
    if desc.None? then None
    else
      var w := w.(l2pte := pte, l2desc := desc.value);
      if IsBlock(desc.value) then Some(w.(pa := PhysicalAddress(desc.value, va, 2)))
      else if IsInvalid(desc.value) then Some(w)
      else WalkLevel3(va, w, f)
  }

  /** The validity test is on the level 2 descriptor, which is valid here. */
  function WalkLevel3(va: nat, w: Walk, f: Frozen): Option<Walk> {
    var pte := EntryAddress(ConcreteTableAddress(w.l2desc), va, 3);
    var desc := ReadInitial(f, pte);
    if desc.None? then None
    else
      var w := w.(l3pte := pte, l3desc := desc.value);
      if IsInvalid(w.l2desc) then Some(w) else Some(w.(pa := PhysicalAddress(desc.value, va, 3)))
  }

  // ----- reading a descriptor back through memory

  lemma BytePowers()
    ensures Pow2(0) == 1 && Pow2(8) == 0x100 && Pow2(16) == 0x1_0000 && Pow2(24) == 0x100_0000 && Pow2(32) == 0x1_0000_0000
    ensures Pow2(40) == 0x100_0000_0000 && Pow2(48) == 0x1_0000_0000_0000 && Pow2(56) == 0x100_0000_0000_0000
    ensures Pow2(64) == WORD
  {
    assert Pow2(0) == 1 && Pow2(8) == 0x100;
    hide Pow2;
    Pow64();
    PowAdd(8, 8);
    PowAdd(16, 8);
    PowAdd(16, 16);
    PowAdd(32, 8);
    PowAdd(40, 8);
    PowAdd(48, 8);
  }

  lemma DivDiv(x: nat, p: nat, q: nat, pq: nat)
    requires p > 0 && q > 0 && pq == p * q
    ensures pq > 0 && x / pq == x / p / q
    ensures x / p == x / p % q + q * (x / pq)
  {
    var a, r := x / p, x % p;
    var b, s := a / q, a % q;
    DivisionOf(x, p);
    DivisionOf(a, q);
    NestedDivision(x, p, q, pq, a, r, b, s);
    hide *;
    DivMod(x, pq, b, s * p + r);
  }

  lemma NestedDivision(x: nat, p: nat, q: nat, pq: nat, a: nat, r: nat, b: nat, s: nat)
    requires pq == p * q && x == a * p + r && a == b * q + s && r < p && s < q
    ensures x == b * pq + (s * p + r) && s * p + r < pq && a == s + q * b
  {
    Nested(b, q, s, p, r);
  }

  lemma Nested(b: nat, q: nat, s: nat, p: nat, r: nat)
    requires s < q && r < p
    ensures (b * q + s) * p + r == b * (p * q) + (s * p + r) && s * p + r < p * q
  {
    assert (b * q + s) * p == b * (p * q) + s * p;
    MulStep(s, q, p);
  }

  lemma MulStep(s: nat, q: nat, p: nat)
    requires s < q
    ensures s * p + p <= p * q
  {
    MulLe(s + 1, q, p);
  }

  lemma MulLe(a: nat, b: nat, p: nat)
    requires a <= b
    ensures a * p <= p * b
  {
  }

  lemma ByteAt(x: nat, p: nat, pq: nat, j: nat)
    requires j < 8 && p == Pow2(8 * j) && pq == Pow2(8 * (j + 1))
    ensures x / p == Bzhi(Shr(x, j * 8), 8) + 256 * (x / pq)
  {
    PowAdd(8 * j, 8);
    BytePowers();
    hide Pow2, BitAnd;
    AndLow(Shr(x, j * 8), 8);
    DivDiv(x, p, 0x100, pq);
  }

  /** The address of entry `k` of table `ix`. */
  function At(f: Frozen, ix: nat, k: nat): nat { f.base + 4096 * ix + 8 * k }

  predicate InRange(f: Frozen, ix: nat, k: nat) {
    && f.base % 4096 == 0 && f.base + 4096 * |f.tables| <= WORD
    && ix < |f.tables| && |f.tables[ix]| == 512 && k < 512 && f.tables[ix][k] < WORD
  }

  lemma DescriptorAt(f: Frozen, ix: nat, k: nat)
    requires InRange(f, ix, k)
    ensures At(f, ix, k) + 8 <= WORD && InitialDescriptor(f, At(f, ix, k)) == Some(f.tables[ix][k])
  {
    hide BitAnd, Shr;
    EntryValue(f.base, ix, k);
    assert f.base + 4096 * (ix + 1) <= f.base + 4096 * |f.tables|;
  }

  lemma WithinWord(f: Frozen, ix: nat, k: nat, j: nat)
    requires InRange(f, ix, k) && j < 8
    ensures BitAnd(At(f, ix, k) + j, Not64(7)) == At(f, ix, k) && BitAnd(At(f, ix, k) + j, 7) == j
    ensures f.base <= At(f, ix, k) + j < f.base + 4096 * |f.tables|
  {
    Aligned(f.base, ix, k);
    assert 4096 * (ix + 1) <= 4096 * |f.tables|;
    hide Pow2, BitAnd;
    MaskEight(At(f, ix, k), j);
  }

  lemma MaskEight(a: nat, j: nat)
    requires a % 8 == 0 && j < 8 && a + j < WORD
    ensures BitAnd(a + j, Not64(7)) == a && BitAnd(a + j, 7) == j
  {
    Powers();
    hide Pow2, BitAnd;
    DivisionOf(a, 8);
    DivMod(a + j, 8, a / 8, j);
    ClearLow(a + j, 3);
    AndLow(a + j, 3);
  }

  lemma ByteOf(f: Frozen, ix: nat, k: nat, j: nat)
    requires InRange(f, ix, k) && j < 8
    ensures InitialByte(f, At(f, ix, k) + j) == Some(Bzhi(Shr(f.tables[ix][k], j * 8), 8))
  {
    hide BitAnd, Shr, InitialDescriptor, Bzhi;
    WithinWord(f, ix, k, j);
    DescriptorAt(f, ix, k);
  }

  /** A descriptor without its low j bytes. */
  function HighBytes(d: nat, j: nat): nat { Div(d, Pow2(8 * j)) }

  lemma HighBytesStep(d: nat, j: nat)
    ensures j < 8 ==> HighBytes(d, j) == Bzhi(Shr(d, j * 8), 8) + 256 * HighBytes(d, j + 1)
    ensures HighBytes(d, 0) == d
    ensures d < WORD ==> HighBytes(d, 8) == 0
  {
    BytePowers();
    hide Pow2;
    if j < 8 { ByteAt(d, Pow2(8 * j), Pow2(8 * (j + 1)), j); }
  }

  lemma {:induction false} BytesAt(f: Frozen, ix: nat, k: nat, j: nat)
    requires InRange(f, ix, k) && j <= 8
    ensures ReadBytes(f, At(f, ix, k), j) == Some(HighBytes(f.tables[ix][k], j))
    decreases 8 - j
  {
    hide Bzhi, Shr, InitialByte, HighBytes, At;
    HighBytesStep(f.tables[ix][k], j);
    if j < 8 {
      BytesAt(f, ix, k, j + 1);
      ByteOf(f, ix, k, j);
    }
  }

  /** Reading eight bytes at an entry's address gives the descriptor stored there. */
  lemma ReadsEntry(f: Frozen, ix: nat, k: nat)
    requires InRange(f, ix, k)
    ensures ReadInitial(f, At(f, ix, k)) == Some(f.tables[ix][k])
  {
    hide ReadBytes, HighBytes, InitialDescriptor;
    BytesAt(f, ix, k, 0);
    DescriptorAt(f, ix, k);
    HighBytesStep(f.tables[ix][k], 0);
  }

  // ----- the walk reads what the updates wrote

  lemma TableDescriptor(addr: nat)
    requires addr % 4 == 0 && addr + 4 <= WORD
    ensures !IsInvalid(addr + 3) && !IsBlock(addr + 3)
    ensures IsInvalid(0) && !IsBlock(0)
  {
    Powers();
    assert Pow2(1) == 2;
    assert (addr + 3) % 2 == 1 && (addr + 3) % 4 == 3;
    AndLow(addr + 3, 1);
    AndLow(addr + 3, 2);
  }

  lemma ForestRange(f: Frozen, at: Places, n: Node, k: nat)
    requires Forest(f.base, f.tables, at) && n in at && k < 512
    ensures InRange(f, at[n], k) && f.base + 4096 * (at[n] + 1) <= WORD
    ensures |n.path| < 3 ==> Linked(f.base, f.tables, at, n, k)
  {
    PlacedOf(f.base, f.tables, at, n);
  }

  /** One step down: the descriptor read at a place is invalid if there is no table below, and
      otherwise leads to the table below. */
  lemma StepDown(f: Frozen, at: Places, n: Node, va: nat)
    requires Forest(f.base, f.tables, at) && n in at && |n.path| < 3
    ensures at[n] < |f.tables|
    ensures var i := LevelIndex(va, |n.path|);
            var d := ReadInitial(f, EntryAddress(f.base + 4096 * at[n], va, |n.path|));
            && i < 512
            && (Child(n, i) !in at ==> d == Some(0) && IsInvalid(0) && !IsBlock(0))
            && (Child(n, i) in at ==> d.Some? && !IsInvalid(d.value) && !IsBlock(d.value)
                                      && ConcreteTableAddress(d.value) == f.base + 4096 * at[Child(n, i)])
  {
    hide Pow2, BitAnd, BitOr, ReadInitial, LevelIndex, Forest, NewTable, ConcreteTableAddress, IsInvalid, IsBlock;
    var i := LevelIndex(va, |n.path|);
    IndexValue(va, |n.path|);
    ForestRange(f, at, n, i);
    ReadsEntry(f, at[n], i);
    if Child(n, i) in at {
      ForestRange(f, at, Child(n, i), 0);
      TableValue(f.base, at[Child(n, i)]);
      Aligned(f.base, at[Child(n, i)], 0);
      TableDescriptor(f.base + 4096 * at[Child(n, i)]);
    } else {
      TableDescriptor(0);
    }
  }

  /** What a walk below the table at `n` finds for `va`, given what it recorded above. */
  ghost predicate Finds(f: Frozen, at: Places, n: Node, va: nat, w: Option<Walk>) {
    var leaf := Node(n.root, Indices(va)[..3]);
    && w.Some?
    && w.value.l3desc == EntryAt(f.tables, at, n.root, Indices(va))
    && (leaf in at ==> w.value.pa == PhysicalAddress(w.value.l3desc, va, 3)
                       && w.value.l3pte == EntryAddress(f.base + 4096 * at[leaf], va, 3))
    && (leaf !in at ==> w.value.pa == 0)
  }

  predicate Blank(w: Walk) { w.l3desc == 0 && w.pa == 0 }

  lemma MissingTable(f: Frozen, at: Places, n: Node, va: nat)
    requires Forest(f.base, f.tables, at) && |n.path| <= 3 && n.path == Indices(va)[..|n.path|] && n !in at
    ensures Node(n.root, Indices(va)[..3]) !in at && EntryAt(f.tables, at, n.root, Indices(va)) == 0
    decreases 3 - |n.path|
  {
    if |n.path| < 3 {
      var c := Child(n, Indices(va)[|n.path|]);
      PlacedOf(f.base, f.tables, at, n);
      assert c.path == Indices(va)[..|c.path|];
      MissingTable(f, at, c, va);
    } else {
      assert n == Node(n.root, Indices(va)[..3]);
    }
  }

  lemma Level3Reads(f: Frozen, at: Places, n: Node, va: nat, w: Walk)
    requires Forest(f.base, f.tables, at) && n in at && |n.path| == 3 && n.path == Indices(va)[..3] && Blank(w)
    requires ConcreteTableAddress(w.l2desc) == f.base + 4096 * at[n] && !IsInvalid(w.l2desc)
    ensures Finds(f, at, n, va, WalkLevel3(va, w, f))
    ensures WalkLevel3(va, w, f).value.(l3pte := 0, l3desc := 0, pa := 0) == w.(l3pte := 0)
  {
    hide BitAnd, ReadInitial, LevelIndex, IsInvalid, ConcreteTableAddress, PhysicalAddress, Forest, EntryAddress;
    LastStep(f, at, n, va);
    EntryOf(f, at, n.root, Indices(va));
    assert n == Node(n.root, Indices(va)[..3]);
  }

  lemma Level2Reads(f: Frozen, at: Places, n: Node, va: nat, w: Walk)
    requires Forest(f.base, f.tables, at) && n in at && |n.path| == 2 && n.path == Indices(va)[..2] && Blank(w)
    requires ConcreteTableAddress(w.l1desc) == f.base + 4096 * at[n]
    ensures Finds(f, at, n, va, WalkLevel2(va, w, f))
    ensures WalkLevel2(va, w, f).value.(l2pte := 0, l2desc := 0, l3pte := 0, l3desc := 0, pa := 0) == w.(l2pte := 0, l2desc := 0, l3pte := 0)
    ensures WalkLevel2(va, w, f).value.l2pte == EntryAddress(f.base + 4096 * at[n], va, 2)
  {
    hide BitAnd, ReadInitial, LevelIndex, IsInvalid, IsBlock, ConcreteTableAddress, PhysicalAddress, Forest, EntryAddress;
    hide EntryAt, WalkLevel3;
    StepDown(f, at, n, va);
    var c := Child(n, Indices(va)[2]);
    assert c.path == Indices(va)[..3];
    var pte := EntryAddress(ConcreteTableAddress(w.l1desc), va, 2);
    var desc := ReadInitial(f, pte);
    if c in at {
      Level3Reads(f, at, c, va, w.(l2pte := pte, l2desc := desc.value));
    } else {
      MissingTable(f, at, c, va);
    }
  }

  lemma Level1Reads(f: Frozen, at: Places, n: Node, va: nat, w: Walk)
    requires Forest(f.base, f.tables, at) && n in at && |n.path| == 1 && n.path == Indices(va)[..1] && Blank(w)
    requires ConcreteTableAddress(w.l0desc) == f.base + 4096 * at[n]
    ensures Finds(f, at, n, va, WalkLevel1(va, w, f))
    ensures WalkLevel1(va, w, f).value.l0pte == w.l0pte
    ensures WalkLevel1(va, w, f).value.l1pte == EntryAddress(f.base + 4096 * at[n], va, 1)
    ensures var c := Child(n, Indices(va)[1]);
            c in at ==> WalkLevel1(va, w, f).value.l2pte == EntryAddress(f.base + 4096 * at[c], va, 2)
  {
    hide BitAnd, ReadInitial, LevelIndex, IsInvalid, IsBlock, ConcreteTableAddress, PhysicalAddress, Forest, EntryAddress;
    hide EntryAt, WalkLevel2;
    StepDown(f, at, n, va);
    var c := Child(n, Indices(va)[1]);
    assert c.path == Indices(va)[..2];
    var pte := EntryAddress(ConcreteTableAddress(w.l0desc), va, 1);
    var desc := ReadInitial(f, pte);
    if c in at {
      Level2Reads(f, at, c, va, w.(l1pte := pte, l1desc := desc.value));
    } else {
      MissingTable(f, at, c, va);
    }
  }

  /** For every root and every virtual address the walk succeeds, its level 3 descriptor is the entry
      the updates describe, and the physical address combines that descriptor with the page offset
      whenever the walk reaches level 3. */
  lemma WalkReads(f: Frozen, at: Places, root: nat, va: nat)
    requires Forest(f.base, f.tables, at) && Node(root, []) in at
    ensures Finds(f, at, Node(root, []), va, InitialWalk(va, f.base + 4096 * root, f))
    ensures var w := InitialWalk(va, f.base + 4096 * root, f).value;
            var n1 := Node(root, Indices(va)[..1]);
            var n2 := Node(root, Indices(va)[..2]);
            && w.l0pte == EntryAddress(f.base + 4096 * root, va, 0)
            && (n1 in at ==> w.l1pte == EntryAddress(f.base + 4096 * at[n1], va, 1))
            && (n1 in at && n2 in at ==> w.l2pte == EntryAddress(f.base + 4096 * at[n2], va, 2))
  {
    hide BitAnd, ReadInitial, LevelIndex, IsInvalid, IsBlock, ConcreteTableAddress, PhysicalAddress, Forest, EntryAddress;
    hide EntryAt, WalkLevel1;
    var n := Node(root, []);
    assert at[n] == root by { PlacedOf(f.base, f.tables, at, n); }
    StepDown(f, at, n, va);
    var c := Child(n, Indices(va)[0]);
    assert c.path == Indices(va)[..1] && Child(c, Indices(va)[1]).path == Indices(va)[..2];
    var pte := EntryAddress(f.base + 4096 * root, va, 0);
    var desc := ReadInitial(f, pte);
    if c in at {
      Level1Reads(f, at, c, va, Walk(pte, desc.value, 0, 0, 0, 0, 0, 0, 0));
    } else {
      MissingTable(f, at, c, va);
    }
  }

  lemma EntryOf(f: Frozen, at: Places, root: nat, ixs: seq<nat>)
    requires |ixs| == 4
    ensures var n := Node(root, ixs[..3]);
            n in at && at[n] < |f.tables| && ixs[3] < |f.tables[at[n]]| ==>
              EntryAt(f.tables, at, root, ixs) == f.tables[at[n]][ixs[3]]
  {
  }

  lemma LastStep(f: Frozen, at: Places, n: Node, va: nat)
    requires Forest(f.base, f.tables, at) && n in at && |n.path| == 3
    ensures at[n] < |f.tables| && LevelIndex(va, 3) < |f.tables[at[n]]|
    ensures ReadInitial(f, EntryAddress(f.base + 4096 * at[n], va, 3)) == Some(f.tables[at[n]][LevelIndex(va, 3)])
  {
    hide Pow2, BitAnd, ReadInitial, LevelIndex, Forest;
    IndexValue(va, 3);
    ForestRange(f, at, n, LevelIndex(va, 3));
    ReadsEntry(f, at[n], LevelIndex(va, 3));
  }

  // ----- what the walk says about mapped and unmapped pages

  /** A page last mapped with known attributes translates to its page plus the offset. */
  lemma MappedAddress(f: Frozen, at: Places, root: nat, va: nat, page: nat, known: nat, lo: nat, hi: nat)
    requires Forest(f.base, f.tables, at) && Node(root, []) in at && Outside(known, lo, hi)
    requires EntryAt(f.tables, at, root, Indices(va)) == PageDesc(page, AttrBits(known, 0))
    ensures var w := InitialWalk(va, f.base + 4096 * root, f);
            w.Some? && w.value.pa == PageNumber(page) * 4096 + va % 4096
  {
    hide InitialWalk, Forest, Indices, PageDesc, PhysicalAddress, PageNumber;
    WalkReads(f, at, root, va);
    PageDescAddress(page, known, lo, hi, va);
    PageDescValue(page, known, lo, hi);
    assert EntryAt(f.tables, at, root, Indices(va)) != 0;
  }

  /** An invalid page does not always get physical address 0, as the documentation of the walk says:
      it gets the page offset if its level 3 table exists. */
  lemma InvalidAddress(f: Frozen, at: Places, root: nat, va: nat)
    requires Forest(f.base, f.tables, at) && Node(root, []) in at
    requires EntryAt(f.tables, at, root, Indices(va)) == 0
    ensures var w := InitialWalk(va, f.base + 4096 * root, f);
            w.Some? && w.value.pa == if Node(root, Indices(va)[..3]) in at then va % 4096 else 0
  {
    assert PhysicalAddress(0, va, 3) == va % 4096 by { OffsetValue(va); }
    hide InitialWalk, Forest, Indices, PhysicalAddress, EntryAt;
    WalkReads(f, at, root, va);
  }

  /** What an update reports, beside the walk: the tables are those the walk reads, level by level, and
      the address taken for an entry is the one the walk reads exactly for index 0. */
  lemma ReportedAddressExact(f: Frozen, at: Places, root: nat, va: nat, u: UpdateWalk)
    requires Forest(f.base, f.tables, at) && Reports(u, f.base, at, root, Indices(va))
    ensures var w := InitialWalk(va, f.base + 4096 * root, f);
            && w.Some?
            && w.value.l1pte == u.tables[0] + 8 * LevelIndex(va, 1)
            && w.value.l2pte == u.tables[1] + 8 * LevelIndex(va, 2)
            && w.value.l3pte == u.tables[2] + 8 * LevelIndex(va, 3)
            && (u.ptes[0] == w.value.l0pte <==> LevelIndex(va, 0) == 0)
            && (u.ptes[1] == w.value.l1pte <==> LevelIndex(va, 1) == 0)
            && (u.ptes[2] == w.value.l2pte <==> LevelIndex(va, 2) == 0)
            && (u.ptes[3] == w.value.l3pte <==> LevelIndex(va, 3) == 0)
  {
    assert Indices(va)[..0] == [];
    hide InitialWalk, Forest, LevelIndex, EntryAt;
    WalkReads(f, at, root, va);
  }

  /** Build the tables with any sequence of calls, freeze them, and walk: the level 3 descriptor is the
      last one written for the page, and a page last mapped with known attributes has its address. */
  method BuildAndWalk(pt: PageTables, ops: seq<Op>, root: nat, va: nat) returns (walk: Walk)
    requires pt.Valid() && pt.Fits(3 * |ops|) && pt.IsRoot(root)
    requires forall op | op in ops :: pt.IsRoot(op.root) && (!op.InvalidOp? ==> Representable(op.bits))
    modifies pt
    ensures walk.l3desc == LastWritten(ops, root, Indices(va), old(pt.Entry(root, Indices(va))))
    ensures forall page, bits | walk.l3desc == PageDesc(page, bits) && bits.unknown == 0 && Representable(bits) ::
              walk.pa == PageNumber(page) * 4096 + va % 4096
  {
    pt.Replay(ops);
    var f := Frozen(pt.baseAddr, pt.tables);
    WalkReads(f, pt.at, root, va);
    var found := InitialWalk(va, f.base + 4096 * root, f);
    walk := found.value;
    forall page, bits | walk.l3desc == PageDesc(page, bits) && bits.unknown == 0 && Representable(bits)
      ensures walk.pa == PageNumber(page) * 4096 + va % 4096
    {
      var lo, hi :| Outside(bits.known, lo, hi);
      assert bits == AttrBits(bits.known, 0);
      MappedAddress(f, pt.at, root, va, page, bits.known, lo, hi);
    }
  }
}
