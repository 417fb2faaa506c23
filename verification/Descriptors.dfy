/** Page attributes and the level 3 page descriptors built from them. */
module Descriptors {
  import opened Wrappers
  import opened Words
  import opened Addresses

  /** Two words: the bits that are set, and the bits that are unknown. */
  datatype AttrBits = AttrBits(known: nat, unknown: nat)

  function Bit(b: bool): (n: nat)
    ensures n < 2
  {
    if b then 1 else 0
  }

  function AttrBool(bits: AttrBits, field: Option<bool>, n: nat): AttrBits {
    match field
    case Some(b) => bits.(known := BitOr(bits.known, Shl64(Bit(b), n)))
    case None => bits.(unknown := BitOr(bits.unknown, Shl64(1, n)))
  }

  function AttrU8(bits: AttrBits, field: Option<nat>, hi: nat, lo: nat): AttrBits
    requires hi >= lo
  {
    match field
    case Some(v) => bits.(known := BitOr(bits.known, Shl64(Bzhi(v, hi - lo + 1), lo)))
    case None => bits.(unknown := BitOr(bits.unknown, Shl64(Bzhi(WORD - 1, hi - lo + 1), lo)))
  }

  /** Stage 1 attributes; `None` is an unknown field. */
  datatype S1Attrs = S1Attrs(
    uxn: Option<bool>, pxn: Option<bool>, contiguous: Option<bool>, nG: Option<bool>, af: Option<bool>,
    sh: Option<nat>, ap: Option<nat>, ns: Option<bool>, attrIndx: Option<nat>)
  {
    function Bits(): AttrBits {
      var b := AttrBool(AttrBits(0, 0), uxn, 53);
      var b := AttrBool(b, pxn, 54);
      LowBits(AttrBool(b, contiguous, 52))
    }

    function LowBits(b: AttrBits): AttrBits {
      var b := AttrBool(b, nG, 11);
      var b := AttrBool(b, af, 10);
      var b := AttrU8(b, sh, 9, 8);
      var b := AttrU8(b, ap, 7, 6);
      var b := AttrBool(b, ns, 5);
      AttrU8(b, attrIndx, 4, 2)
    }

    predicate Known() {
      uxn.Some? && pxn.Some? && contiguous.Some? && nG.Some? && af.Some? && sh.Some? && ap.Some? && ns.Some?
      && attrIndx.Some?
    }
  }

  /** The bits of a level 3 page descriptor, if every attribute is known. */
  function PageDescBits(page: nat, attrs: AttrBits): Option<nat> {
    if attrs.unknown == 0 then
      Some(BitOr(BitOr(BitAnd(page, Shl64(Pow2(36) - 1, 12)), 3), attrs.known))
    else None
  }

  /** A page descriptor; one with unknown attributes is written as an invalid entry. */
  function PageDesc(page: nat, attrs: AttrBits): nat {
    var bits := PageDescBits(page, attrs);
    if bits.Some? then bits.value else 0
  }

  function PhysicalAddress(desc: nat, va: nat, level: nat): nat
    requires 1 <= level <= 3
  {
    BitAnd(desc, Bzhi(Not64(0xFFF), 48)) + PageOffset(va, level)
  }

  // ----- the words, field by field

  lemma MulLess(v: nat, q: nat, p: nat)
    requires v < q && p > 0
    ensures v * p < q * p
  {
  }

  lemma Distribute(m: nat, q: nat, v: nat, p: nat)
    ensures m * (q * p) + v * p == (m * q + v) * p
  {
  }

  /** A field below everything set so far is added, not merged. */
  lemma AddField(acc: nat, m: nat, v: nat, n: nat, w: nat, p: nat, q: nat)
    requires p == Pow2(n) && q == Pow2(w) && n + w <= 64 && v < q && acc == m * (q * p)
    ensures Shl64(v, n) == v * p && BitOr(acc, v * p) == (m * q + v) * p
  {
    PowAdd(w, n);
    assert Pow2(n + w) <= WORD by {
      PowMono(n + w, 64);
      Pow64();
    }
    hide Pow2, BitOr, Shl64;
    MulLess(v, q, p);
    ShiftValue(v, n, p);
    OrDisjoint(m, v * p, w + n);
    Distribute(m, q, v, p);
  }

  lemma BoolField(bits: AttrBits, m: nat, b: bool, n: nat, p: nat)
    requires p == Pow2(n) && n < 64 && bits.known == m * (2 * p)
    ensures AttrBool(bits, Some(b), n) == bits.(known := (m * 2 + Bit(b)) * p)
  {
    assert Pow2(1) == 2;
    AddField(bits.known, m, Bit(b), n, 1, p, 2);
  }

  lemma U8Field(bits: AttrBits, m: nat, v: nat, hi: nat, lo: nat, p: nat, q: nat)
    requires hi >= lo && hi < 64 && p == Pow2(lo) && q == Pow2(hi - lo + 1) && bits.known == m * (q * p) && q > 0
    ensures AttrU8(bits, Some(v), hi, lo).known == (m * q + v % q) * p
    ensures AttrU8(bits, Some(v), hi, lo).unknown == bits.unknown
  {
    AndLow(v, hi - lo + 1);
    AddField(bits.known, m, v % q, lo, hi - lo + 1, p, q);
  }

  lemma FieldPowers()
    ensures Pow2(2) == 4 && Pow2(3) == 8 && Pow2(5) == 0x20 && Pow2(6) == 0x40 && Pow2(8) == 0x100
    ensures Pow2(10) == 0x400 && Pow2(11) == 0x800
    ensures Pow2(52) == 0x10_0000_0000_0000 && Pow2(53) == 0x20_0000_0000_0000 && Pow2(54) == 0x40_0000_0000_0000
  {
    assert Pow2(2) == 4 && Pow2(3) == 8 && Pow2(5) == 0x20 && Pow2(6) == 0x40 && Pow2(4) == 16;
    Powers();
    PowStep(53);
    PowStep(54);
    hide Pow2;
    PowAdd(6, 2);
    PowAdd(8, 2);
    PowAdd(8, 3);
    PowAdd(48, 4);
  }

  /** The two execute-never bits are merged out of order. */
  lemma ExecuteNever(u: bool, p: bool)
    ensures var b := AttrBool(AttrBool(AttrBits(0, 0), Some(u), 53), Some(p), 54);
            b == AttrBits(Bit(u) * 0x20_0000_0000_0000 + Bit(p) * 0x40_0000_0000_0000, 0)
  {
    FieldPowers();
    var x, y := Bit(u) * 0x20_0000_0000_0000, Bit(p) * 0x40_0000_0000_0000;
    hide Pow2, BitOr, Shl64;
    ShiftValue(Bit(u), 53, 0x20_0000_0000_0000);
    ShiftValue(Bit(p), 54, 0x40_0000_0000_0000);
    OrZero(x);
    OrSym(x, y);
    OrDisjoint(Bit(p), x, 54);
  }

  /** The known bits of fully known attributes, as a sum over the fields. */
  function S1Sum(a: S1Attrs): nat
    requires a.Known()
  {
    S1High(a) * 0x10_0000_0000_0000 + S1Low(a) * 4
  }

  function S1High(a: S1Attrs): nat
    requires a.Known()
  {
    Bit(a.pxn.value) * 4 + Bit(a.uxn.value) * 2 + Bit(a.contiguous.value)
  }

  function S1Low(a: S1Attrs): nat
    requires a.Known()
  {
    Bit(a.nG.value) * 0x200 + Bit(a.af.value) * 0x100 + (a.sh.value % 4) * 0x40
    + (a.ap.value % 4) * 0x10 + Bit(a.ns.value) * 8 + a.attrIndx.value % 8
  }

  lemma S1LowKnown(b: AttrBits, h: nat, a: S1Attrs)
    requires a.Known() && b.known == h * 0x1000
    ensures a.LowBits(b) == AttrBits(h * 0x1000 + S1Low(a) * 4, b.unknown)
  {
    hide Pow2, AttrBool, AttrU8, Bit;
    FieldPowers();
    var b, m := b, h;
    BoolField(b, m, a.nG.value, 11, 0x800);
    b, m := AttrBool(b, a.nG, 11), m * 2 + Bit(a.nG.value);
    BoolField(b, m, a.af.value, 10, 0x400);
    b, m := AttrBool(b, a.af, 10), m * 2 + Bit(a.af.value);
    U8Field(b, m, a.sh.value, 9, 8, 0x100, 4);
    b, m := AttrU8(b, a.sh, 9, 8), m * 4 + a.sh.value % 4;
    U8Field(b, m, a.ap.value, 7, 6, 0x40, 4);
    b, m := AttrU8(b, a.ap, 7, 6), m * 4 + a.ap.value % 4;
    BoolField(b, m, a.ns.value, 5, 0x20);
    b, m := AttrBool(b, a.ns, 5), m * 2 + Bit(a.ns.value);
    U8Field(b, m, a.attrIndx.value, 4, 2, 4, 8);
  }

  lemma S1Known(a: S1Attrs)
    requires a.Known()
    ensures a.Bits() == AttrBits(S1Sum(a), 0)
  {
    hide Pow2, AttrBool, AttrU8, Bit, S1Low;
    FieldPowers();
    ExecuteNever(a.uxn.value, a.pxn.value);
    var b := AttrBool(AttrBool(AttrBits(0, 0), a.uxn, 53), a.pxn, 54);
    BoolField(b, Bit(a.pxn.value) * 2 + Bit(a.uxn.value), a.contiguous.value, 52, 0x10_0000_0000_0000);
    S1LowKnown(AttrBool(b, a.contiguous, 52), S1High(a) * 0x100_0000_0000, a);
  }

  lemma {:induction false} OrAtLeast(x: nat, y: nat)
    ensures BitOr(x, y) >= x && BitOr(x, y) >= y
    decreases x + y
  {
    if x + y > 0 { OrAtLeast(x / 2, y / 2); }
  }

  lemma UnknownStays(bits: AttrBits, b: Option<bool>, v: Option<nat>, n: nat, hi: nat, lo: nat)
    requires n < 64 && lo <= hi < 64
    ensures AttrBool(bits, b, n).unknown == 0 ==> bits.unknown == 0 && b.Some?
    ensures AttrU8(bits, v, hi, lo).unknown == 0 ==> bits.unknown == 0 && v.Some?
  {
    var w := hi - lo + 1;
    OnesBelow(w);
    PowStep(1);
    PowStep(w);
    hide Pow2, BitOr, Shl64, Bzhi;
    OneBit(n, 1, 1);
    OneBit(lo, w, Pow2(w) - 1);
    OrAtLeast(bits.unknown, Shl64(1, n));
    OrAtLeast(bits.unknown, Shl64(Pow2(w) - 1, lo));
  }

  lemma OnesBelow(w: nat)
    requires w <= 64
    ensures Bzhi(WORD - 1, w) == Pow2(w) - 1
  {
    hide Pow2, BitAnd;
    WordFactors(w);
    AndLow(WORD - 1, w);
    OneLess(Pow2(64 - w), Pow2(w));
    DivMod(WORD - 1, Pow2(w), Pow2(64 - w) - 1, Pow2(w) - 1);
  }

  lemma OneBit(n: nat, w: nat, v: nat)
    requires n + w <= 64 && 0 < v < Pow2(w)
    ensures Shl64(v, n) > 0
  {
    PowAdd(w, n);
    PowMono(n + w, 64);
    Pow64();
    hide Pow2;
    MulLess(v, Pow2(w), Pow2(n));
    ShiftValue(v, n, Pow2(n));
    MulLess(0, v, Pow2(n));
  }

  /** No unknown bits are left exactly when every attribute is known. */
  lemma S1UnknownExactly(a: S1Attrs)
    ensures a.Bits().unknown == 0 <==> a.Known()
  {
    if a.Known() { S1Known(a); }
    var b1 := AttrBool(AttrBits(0, 0), a.uxn, 53);
    var b2 := AttrBool(b1, a.pxn, 54);
    var b3 := AttrBool(b2, a.contiguous, 52);
    var b4 := AttrBool(b3, a.nG, 11);
    var b5 := AttrBool(b4, a.af, 10);
    var b6 := AttrU8(b5, a.sh, 9, 8);
    var b7 := AttrU8(b6, a.ap, 7, 6);
    var b8 := AttrBool(b7, a.ns, 5);
    assert a.Bits() == AttrU8(b8, a.attrIndx, 4, 2);
    hide AttrBool, AttrU8;
    UnknownStays(AttrBits(0, 0), a.uxn, None, 53, 0, 0);
    UnknownStays(b1, a.pxn, None, 54, 0, 0);
    UnknownStays(b2, a.contiguous, None, 52, 0, 0);
    UnknownStays(b3, a.nG, None, 11, 0, 0);
    UnknownStays(b4, a.af, None, 10, 0, 0);
    UnknownStays(b5, None, a.sh, 0, 9, 8);
    UnknownStays(b6, None, a.ap, 0, 7, 6);
    UnknownStays(b7, a.ns, None, 5, 0, 0);
    UnknownStays(b8, None, a.attrIndx, 0, 4, 2);
  }

  // ----- the page descriptor

  /** Attribute words touch neither the output address nor the type of a descriptor. */
  predicate Outside(known: nat, lo: nat, hi: nat) {
    lo < 0x400 && hi < 0x1000 && known == 4 * lo + hi * 0x10_0000_0000_0000
  }

  /** The 36 bits of a page number that a descriptor holds. */
  function PageNumber(page: nat): (n: nat)
    ensures n < 0x10_0000_0000
  {
    page / 4096 % 0x10_0000_0000
  }

  lemma PageMask(x: nat)
    ensures BitAnd(x, Shl64(Pow2(36) - 1, 12)) == PageNumber(x) * 4096
    ensures BitAnd(x, Bzhi(Not64(0xFFF), 48)) == PageNumber(x) * 4096
  {
    Powers();
    ShiftValue(0xF_FFFF_FFFF, 12, 4096);
    AndLow(Not64(0xFFF), 48);
    AndField(x, 0xF_FFFF_FFFF * 4096, 12, 36);
    assert Not64(0xFFF) % 0x1_0000_0000_0000 == 0xF_FFFF_FFFF * 4096;
  }

  lemma PageDescValue(page: nat, known: nat, lo: nat, hi: nat)
    requires Outside(known, lo, hi)
    ensures PageDescBits(page, AttrBits(known, 0)) == Some(hi * 0x10_0000_0000_0000 + PageNumber(page) * 4096 + 4 * lo + 3)
    ensures PageDesc(page, AttrBits(known, 0)) == hi * 0x10_0000_0000_0000 + PageNumber(page) * 4096 + 4 * lo + 3 < WORD
  {
    hide Pow2, BitOr, BitAnd, Shl64, PageNumber;
    PageMask(page);
    MergeAttrs(PageNumber(page), lo, hi);
  }

  lemma MergeAttrs(p: nat, lo: nat, hi: nat)
    requires p < 0x10_0000_0000 && lo < 0x400
    ensures BitOr(BitOr(p * 4096, 3), 4 * lo + hi * 0x10_0000_0000_0000) ==
            hi * 0x10_0000_0000_0000 + p * 4096 + 4 * lo + 3
  {
    Powers();
    assert Pow2(40) == 0x100_0000_0000 by { PowAdd(36, 4); assert Pow2(4) == 16; }
    hide Pow2, BitOr;
    OrDisjoint(p, 3, 12);
    OrDisjoint(hi, p, 40);
    OrDisjoint(lo, 3, 2);
    OrSym(p, hi * 0x100_0000_0000);
    OrSym(3, lo * 4);
    SplitOr(p * 4096 + 3, 4 * lo + hi * 0x10_0000_0000_0000, p, 3, hi * 0x100_0000_0000, 4 * lo, 12);
  }

  /** The address field of a page descriptor gives back the page, low 12 and high 16 bits cleared. */
  lemma PageDescAddress(page: nat, known: nat, lo: nat, hi: nat, va: nat)
    requires Outside(known, lo, hi)
    ensures PhysicalAddress(PageDesc(page, AttrBits(known, 0)), va, 3) == PageNumber(page) * 4096 + va % 4096
  {
    PageDescValue(page, known, lo, hi);
    var d := PageDesc(page, AttrBits(known, 0));
    PageMask(d);
    OffsetValue(va);
    NumberOf(d, hi, PageNumber(page), 4 * lo + 3);
  }

  lemma NumberOf(d: nat, hi: nat, p: nat, low: nat)
    requires d == hi * 0x10_0000_0000_0000 + p * 4096 + low && p < 0x10_0000_0000 && low < 4096
    ensures PageNumber(d) == p
  {
    DivMod(d, 4096, hi * 0x100_0000_0000 + p, low);
    DivMod(hi * 0x100_0000_0000 + p, 0x10_0000_0000, hi * 16, p);
  }

  lemma S1Outside(a: S1Attrs)
    requires a.Known()
    ensures Outside(S1Sum(a), S1Low(a), S1High(a))
  {
    assert Outside(S1Sum(a), S1Low(a), S1High(a));
  }

  /** The field at bits `hi` to `lo` of a word. */
  function Field(word: nat, hi: nat, lo: nat): nat
    requires hi >= lo
  {
    word / Pow2(lo) % Pow2(hi - lo + 1)
  }

  lemma FieldIs(word: nat, hi: nat, lo: nat, p: nat, q: nat, high: nat, v: nat, low: nat)
    requires hi >= lo && p == Pow2(lo) && q == Pow2(hi - lo + 1)
    requires word == (high * q + v) * p + low && v < q && low < p
    ensures Field(word, hi, lo) == v
  {
    hide Pow2;
    DivMod(word, p, high * q + v, low);
    DivMod(high * q + v, q, high, v);
  }

  /** Reading a stage 1 page descriptor at the documented positions gives back the page number and
      every attribute, except that UXN and PXN are exchanged. */
  lemma S1FieldsRead(page: nat, a: S1Attrs)
    requires a.Known()
    ensures var d := PageDesc(page, a.Bits());
            && Field(d, 47, 12) == PageNumber(page)
            && Field(d, 54, 54) == Bit(a.pxn.value) && Field(d, 53, 53) == Bit(a.uxn.value)
            && Field(d, 52, 52) == Bit(a.contiguous.value)
            && Field(d, 11, 11) == Bit(a.nG.value) && Field(d, 10, 10) == Bit(a.af.value)
            && Field(d, 9, 8) == a.sh.value % 4 && Field(d, 7, 6) == a.ap.value % 4
            && Field(d, 5, 5) == Bit(a.ns.value) && Field(d, 4, 2) == a.attrIndx.value % 8
            && Field(d, 1, 0) == 3
  {
    hide Pow2, PageDesc, PageNumber, Field, PageDescBits, Bit;
    S1Known(a);
    S1Outside(a);
    PageDescValue(page, S1Sum(a), S1Low(a), S1High(a));
    HighFields(PageDesc(page, a.Bits()), Bit(a.pxn.value), Bit(a.uxn.value), Bit(a.contiguous.value), PageNumber(page),
               S1Low(a) * 4 + 3);
    LowFields(PageDesc(page, a.Bits()), S1High(a) * 0x100_0000_0000 + PageNumber(page), Bit(a.nG.value), Bit(a.af.value),
              a.sh.value % 4, a.ap.value % 4, Bit(a.ns.value), a.attrIndx.value % 8);
  }

  lemma HighFields(d: nat, p: nat, u: nat, c: nat, n: nat, low: nat)
    requires p < 2 && u < 2 && c < 2 && n < 0x10_0000_0000 && low < 4096
    requires d == (p * 4 + u * 2 + c) * 0x10_0000_0000_0000 + n * 4096 + low
    ensures Field(d, 54, 54) == p && Field(d, 53, 53) == u && Field(d, 52, 52) == c && Field(d, 47, 12) == n
  {
    hide Pow2, Field;
    Powers();
    FieldPowers();
    PowStep(1);
    FieldIs(d, 54, 54, 0x40_0000_0000_0000, 2, 0, p, u * 0x20_0000_0000_0000 + c * 0x10_0000_0000_0000 + n * 4096 + low);
    FieldIs(d, 53, 53, 0x20_0000_0000_0000, 2, p, u, c * 0x10_0000_0000_0000 + n * 4096 + low);
    FieldIs(d, 52, 52, 0x10_0000_0000_0000, 2, p * 2 + u, c, n * 4096 + low);
    FieldIs(d, 47, 12, 4096, 0x10_0000_0000, (p * 4 + u * 2 + c) * 16, n, low);
  }

  lemma LowFields(d: nat, h: nat, g: nat, f: nat, sh: nat, ap: nat, ns: nat, ix: nat)
    requires g < 2 && f < 2 && sh < 4 && ap < 4 && ns < 2 && ix < 8
    requires d == h * 0x1000 + g * 0x800 + f * 0x400 + sh * 0x100 + ap * 0x40 + ns * 0x20 + ix * 4 + 3
    ensures Field(d, 11, 11) == g && Field(d, 10, 10) == f && Field(d, 9, 8) == sh && Field(d, 7, 6) == ap
    ensures Field(d, 5, 5) == ns && Field(d, 4, 2) == ix && Field(d, 1, 0) == 3
  {
    hide Pow2, Field;
    FieldPowers();
    PowStep(1);
    FieldIs(d, 11, 11, 0x800, 2, h, g, f * 0x400 + sh * 0x100 + ap * 0x40 + ns * 0x20 + ix * 4 + 3);
    FieldIs(d, 10, 10, 0x400, 2, h * 2 + g, f, sh * 0x100 + ap * 0x40 + ns * 0x20 + ix * 4 + 3);
    FieldIs(d, 9, 8, 0x100, 4, h * 4 + g * 2 + f, sh, ap * 0x40 + ns * 0x20 + ix * 4 + 3);
    FieldIs(d, 7, 6, 0x40, 4, h * 16 + g * 8 + f * 4 + sh, ap, ns * 0x20 + ix * 4 + 3);
    FieldIs(d, 5, 5, 0x20, 2, h * 64 + g * 32 + f * 16 + sh * 4 + ap, ns, ix * 4 + 3);
    FieldIs(d, 4, 2, 4, 8, h * 128 + g * 64 + f * 32 + sh * 8 + ap * 2 + ns, ix, 3);
    FieldIs(d, 1, 0, 1, 4, h * 1024 + g * 512 + f * 256 + sh * 64 + ap * 16 + ns * 8 + ix, 3, 0);
  }

  /** So the execute-never fields come back as they were given exactly when they agree. */
  lemma ExecuteNeverExact(page: nat, a: S1Attrs)
    requires a.Known()
    ensures var d := PageDesc(page, a.Bits());
            (Field(d, 54, 54) == Bit(a.uxn.value) && Field(d, 53, 53) == Bit(a.pxn.value)) <==> a.uxn == a.pxn
  {
    S1FieldsRead(page, a);
  }
}
