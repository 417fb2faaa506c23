/** Symbolic relocation: which bits of an opcode become symbolic, and what the solver computes for them. */
module Relocations {
  import opened Wrappers
  import opened Words
  import opened BitText

  // ----- operations

  datatype Operation =
    | S | A | P
    | Add(lhs: Operation, rhs: Operation)
    | Sub(lhs: Operation, rhs: Operation)
    | Page(exp: Operation)

  /** A signed 64-bit integer as a word. */
  function AsWord(i: int): nat { i % WORD }

  /** The value the relocation tables of the ELF supplement give, on unbounded integers. */
  function Meaning(op: Operation, symbol: int, addend: int, place: int): int {
    match op
    case S => symbol
    case A => addend
    case P => place
    case Add(l, r) => Meaning(l, symbol, addend, place) + Meaning(r, symbol, addend, place)
    case Sub(l, r) => Meaning(l, symbol, addend, place) - Meaning(r, symbol, addend, place)
    case Page(e) => Meaning(e, symbol, addend, place) - Meaning(e, symbol, addend, place) % 0x1000
  }

  /** Evaluation on words; built with overflow checks it stops where a sum or a difference does not fit. */
  function Evaluate(op: Operation, symbol: nat, addend: int, place: nat, checked: bool): (r: Option<nat>)
    requires symbol < WORD && place < WORD
    ensures r.Some? ==> r.value < WORD
    ensures !checked ==> r.Some?
  {
    match op
    case S => Some(symbol)
    case A => Some(AsWord(addend))
    case P => Some(place)
    case Add(l, r) =>
      var x, y := Evaluate(l, symbol, addend, place, checked), Evaluate(r, symbol, addend, place, checked);
      if x.None? || y.None? || (checked && x.value + y.value >= WORD) then None else Some((x.value + y.value) % WORD)
    case Sub(l, r) =>
      var x, y := Evaluate(l, symbol, addend, place, checked), Evaluate(r, symbol, addend, place, checked);
      if x.None? || y.None? || (checked && x.value < y.value) then None else Some((x.value - y.value) % WORD)
    case Page(e) =>
      var x := Evaluate(e, symbol, addend, place, checked);
      if x.None? then None
      else
        ClearLow(x.value, 12);
        PageMask();
        Some(BitAnd(x.value, Not64(0xFFF)))
  }

  lemma PageMask()
    ensures Pow2(12) == 0x1000
  {
    assert Pow2(4) == 16;
    assert Pow2(8) == 256;
  }

  // ----- the same as a solver expression

  datatype Exp = Var(sym: nat) | Const(n: nat) | Bvadd(l: Exp, r: Exp) | Bvsub(l: Exp, r: Exp) | Bvand(l: Exp, r: Exp)

  function Smt(op: Operation, symbol: nat, addend: int, place: nat): Exp {
    match op
    case S => Var(symbol)
    case A => Const(AsWord(addend))
    case P => Var(place)
    case Add(l, r) => Bvadd(Smt(l, symbol, addend, place), Smt(r, symbol, addend, place))
    case Sub(l, r) => Bvsub(Smt(l, symbol, addend, place), Smt(r, symbol, addend, place))
    case Page(e) => Bvand(Smt(e, symbol, addend, place), Const(Not64(0xFFF)))
  }

  function ValueOf(e: Exp, sigma: nat -> nat): nat {
    match e
    case Var(sym) => sigma(sym)
    case Const(n) => n
    case Bvadd(l, r) => AsWord(ValueOf(l, sigma) + ValueOf(r, sigma))
    case Bvsub(l, r) => AsWord(ValueOf(l, sigma) - ValueOf(r, sigma))
    case Bvand(l, r) => BitAnd(ValueOf(l, sigma), ValueOf(r, sigma))
  }

  lemma AddMod(a: int, b: int)
    ensures AsWord(AsWord(a) + AsWord(b)) == AsWord(a + b) < WORD
  {
    assert a + b == WORD * (a / WORD + b / WORD) + (a % WORD + b % WORD);
  }

  lemma SubMod(a: int, b: int)
    ensures AsWord(AsWord(a) - AsWord(b)) == AsWord(a - b) < WORD
  {
    assert a - b == WORD * (a / WORD - b / WORD) + (a % WORD - b % WORD);
  }

  /** Clearing the low bits of a word is clearing them in any integer it stands for. */
  lemma PageMod(a: int)
    ensures (a % WORD) - (a % WORD) % 0x1000 == (a - a % 0x1000) % WORD
  {
    var q, w := a / WORD, a % WORD;
    assert a == q * WORD + w;
    assert a % 0x1000 == w % 0x1000 by { assert a == 0x1000 * (q * 0x10_0000_0000_0000) + w; }
    assert a - a % 0x1000 == q * WORD + (w - w % 0x1000);
  }

  lemma PageMeans(v: nat, a: int)
    requires v == AsWord(a)
    ensures BitAnd(v, Not64(0xFFF)) == AsWord(a - a % 0x1000) < WORD
  {
    hide BitAnd;
    ClearLow(v, 12);
    PageMask();
    PageMod(a);
  }

  lemma WordBound(i: int)
    ensures AsWord(i) < WORD && (0 <= i < WORD ==> AsWord(i) == i)
  {
  }

  /** The solver's expression has the value of the relocation modulo 2^64. */
  lemma {:induction false} SmtMeans(op: Operation, symbol: nat, addend: int, place: nat, sigma: nat -> nat)
    requires sigma(symbol) < WORD && sigma(place) < WORD
    ensures ValueOf(Smt(op, symbol, addend, place), sigma) == AsWord(Meaning(op, sigma(symbol), addend, sigma(place)))
    ensures ValueOf(Smt(op, symbol, addend, place), sigma) < WORD
    decreases op
  {
    hide AsWord, BitAnd;
    WordBound(Meaning(op, sigma(symbol), addend, sigma(place)));
    match op
    case S =>
    case A =>
    case P =>
    case Add(l, r) =>
      SmtMeans(l, symbol, addend, place, sigma);
      SmtMeans(r, symbol, addend, place, sigma);
      AddMod(Meaning(l, sigma(symbol), addend, sigma(place)), Meaning(r, sigma(symbol), addend, sigma(place)));
    case Sub(l, r) =>
      SmtMeans(l, symbol, addend, place, sigma);
      SmtMeans(r, symbol, addend, place, sigma);
      SubMod(Meaning(l, sigma(symbol), addend, sigma(place)), Meaning(r, sigma(symbol), addend, sigma(place)));
    case Page(e) =>
      SmtMeans(e, symbol, addend, place, sigma);
      PageMeans(ValueOf(Smt(e, symbol, addend, place), sigma), Meaning(e, sigma(symbol), addend, sigma(place)));
  }

  /** The solver's expression and evaluation agree: always without overflow checks, and wherever
      evaluation gives a result with them. */
  lemma {:induction false} SmtAgrees(op: Operation, symbol: nat, addend: int, place: nat, sigma: nat -> nat, checked: bool)
    requires sigma(symbol) < WORD && sigma(place) < WORD
    ensures var r := Evaluate(op, sigma(symbol), addend, sigma(place), checked);
            r.Some? ==> r.value == ValueOf(Smt(op, symbol, addend, place), sigma)
    decreases op
  {
    match op
    case S =>
    case A =>
    case P =>
    case Add(l, r) =>
      SmtAgrees(l, symbol, addend, place, sigma, checked);
      SmtAgrees(r, symbol, addend, place, sigma, checked);
    case Sub(l, r) =>
      SmtAgrees(l, symbol, addend, place, sigma, checked);
      SmtAgrees(r, symbol, addend, place, sigma, checked);
    case Page(e) =>
      SmtAgrees(e, symbol, addend, place, sigma, checked);
  }

  // ----- immediates

  datatype Slice = Slice(hi: nat, lo: nat)

  datatype Immediate = NoImm | Imm2(hi: nat, lo: nat) | Imm4(hi1: nat, lo1: nat, hi2: nat, lo2: nat)

  /** The bounds of a slice and of the fields are the right way round. */
  predicate Ordered(imm: Immediate, slice: Slice) {
    && slice.lo <= slice.hi < 64
    && match imm
       case NoImm => true
       case Imm2(hi, lo) => lo <= hi < 0x8000_0000
       case Imm4(hi1, lo1, hi2, lo2) => lo1 <= hi1 < 0x8000_0000 && lo2 <= hi2 < 0x8000_0000
  }

  function SliceLen(s: Slice): int { s.hi - s.lo + 1 }

  function ImmLen(imm: Immediate): int {
    match imm
    case NoImm => 32
    case Imm2(hi, lo) => hi - lo + 1
    case Imm4(hi1, lo1, hi2, lo2) => (hi1 - lo1) + (hi2 - lo2) + 2
  }

  /** A bit-vector, lowest bit first. */
  type Bv = seq<bool>

  /** The relocation's result, or bits of it. */
  datatype Term = X | Extract(hi: nat, lo: nat, of: Term)

  function TermBits(t: Term, x: Bv): Option<Bv> {
    match t
    case X => Some(x)
    case Extract(hi, lo, of) =>
      var b := TermBits(of, x);
      if b.Some? && lo <= hi < |b.value| then Some(b.value[lo..hi + 1]) else None
  }

  datatype Segment = Concrete(bits: Bv) | Symbolic(t: Term)

  function SegmentBits(s: Segment, x: Bv): Option<Bv> {
    match s
    case Concrete(bits) => Some(bits)
    case Symbolic(t) => TermBits(t, x)
  }

  /** The first segment holds the highest bits. */
  function Concat(segments: seq<Segment>, x: Bv): Option<Bv> {
    if segments == [] then Some([])
    else
      var first, rest := SegmentBits(segments[0], x), Concat(segments[1..], x);
      if first.Some? && rest.Some? then Some(rest.value + first.value) else None
  }

  const U32 := 0x1_0000_0000

  /** `low - 1` on 32 bits: built with overflow checks it stops at zero, otherwise it wraps round. */
  function Below(low: nat, checked: bool): Option<nat> {
    if low > 0 then Some(low - 1) else if checked then None else Some(U32 - 1)
  }

  datatype Push = Pushed(segments: seq<Segment>) | Refused

  /** Adds bits `high..low` of the opcode; the wrapped bound below bit zero adds nothing. */
  method PushConcrete(segments: seq<Segment>, bv: Bv, high: nat, low: nat) returns (p: Push)
    requires high < U32 && low < U32
    ensures p == PushedField(segments, bv, high, low)
  {
    if high < low { return Refused; }
    if (high - low + 1) % U32 > 0 {
      if high >= |bv| { return Refused; }
      p := Pushed(segments + [Concrete(bv[low..high + 1])]);
    } else {
      p := Pushed(segments);
    }
  }

  function PushedField(segments: seq<Segment>, bv: Bv, high: nat, low: nat): Push {
    if high < low then Refused
    else if high == U32 - 1 && low == 0 then Pushed(segments)
    else if high >= |bv| then Refused
    else Pushed(segments + [Concrete(bv[low..high + 1])])
  }

  /** The two fields of an immediate, highest bits of the immediate first; one field for a plain one. */
  predicate InField(imm: Immediate, i: int) {
    match imm
    case NoImm => true
    case Imm2(hi, lo) => lo <= i <= hi
    case Imm4(hi1, lo1, hi2, lo2) => lo1 <= i <= hi1 || lo2 <= i <= hi2
  }

  /** The condition under which patching succeeds: the slice fits the immediate, no field reaches the top
      bit, two fields have a bit between them, and no field reaches bit zero if overflow is checked. */
  predicate Patchable(imm: Immediate, slice: Slice, len: nat, checked: bool) {
    && SliceLen(slice) == ImmLen(imm) <= len
    && match imm
       case NoImm => len == 64
       case Imm2(hi, lo) => hi + 1 < len && (checked ==> lo > 0)
       case Imm4(hi1, lo1, hi2, lo2) =>
         && hi1 + 1 < len && hi2 + 1 < len && (checked ==> lo1 > 0 && lo2 > 0)
         && (hi1 + 1 < lo2 || hi2 + 1 < lo1)
  }

  /** What the patched opcode is, bit by bit, under a value of the relocation: the fields hold the slice,
      high part in the first and low part in the second, and every other bit is the opcode's. */
  predicate Patched(imm: Immediate, slice: Slice, opcode: Bv, x: Bv, result: Bv)
    requires |x| == 64 && Ordered(imm, slice) && SliceLen(slice) == ImmLen(imm)
  {
    && |result| == |opcode|
    && (forall i | 0 <= i < |opcode| && !InField(imm, i) :: result[i] == opcode[i])
    && match imm
       case NoImm => result == x
       case Imm2(hi, lo) => hi < |result| && result[lo..hi + 1] == x[slice.lo..slice.hi + 1]
       case Imm4(hi1, lo1, hi2, lo2) =>
         hi1 < |result| && hi2 < |result| && result[lo2..hi2 + 1] + result[lo1..hi1 + 1] == x[slice.lo..slice.hi + 1]
  }

  /** Five segments, lowest last. */
  lemma ConcatThree(a: Segment, b: Segment, c: seq<Segment>, x: Bv)
    requires SegmentBits(a, x).Some? && SegmentBits(b, x).Some? && Concat(c, x).Some?
    ensures Concat([a, b] + c, x) == Some(Concat(c, x).value + SegmentBits(b, x).value + SegmentBits(a, x).value)
  {
    assert ([a, b] + c)[1..] == [b] + c;
    assert ([b] + c)[1..] == c;
  }

  /** The end of the segments: the bits below the lowest field, none if it starts at zero. */
  function Tail(opcode: Bv, lo: nat): seq<Segment>
    requires lo <= |opcode|
  {
    if lo == 0 then [] else [Concrete(opcode[0..lo])]
  }

  lemma TailBits(opcode: Bv, lo: nat, x: Bv)
    requires lo <= |opcode|
    ensures Concat(Tail(opcode, lo), x) == Some(opcode[..lo])
  {
    if lo > 0 {
      assert Tail(opcode, lo)[1..] == [];
      assert [] + opcode[0..lo] == opcode[..lo];
    }
  }

  function Segments2(opcode: Bv, hi: nat, lo: nat, imm: Term): seq<Segment>
    requires lo <= hi && hi + 1 < |opcode|
  {
    [Concrete(opcode[hi + 1..]), Symbolic(imm)] + Tail(opcode, lo)
  }

  /** One field: its bits are the term's, the others the opcode's. */
  lemma OneField(opcode: Bv, hi: nat, lo: nat, imm: Term, x: Bv)
    requires lo <= hi && hi + 1 < |opcode| && TermBits(imm, x).Some? && |TermBits(imm, x).value| == hi - lo + 1
    ensures Concat(Segments2(opcode, hi, lo, imm), x) == Some(opcode[..lo] + TermBits(imm, x).value + opcode[hi + 1..])
  {
    TailBits(opcode, lo, x);
    ConcatThree(Concrete(opcode[hi + 1..]), Symbolic(imm), Tail(opcode, lo), x);
  }

  function Segments4(opcode: Bv, hi1: nat, lo1: nat, hi2: nat, lo2: nat, upper: Term, lower: Term): seq<Segment>
    requires lo2 <= hi2 && hi2 + 1 < lo1 <= hi1 && hi1 + 1 < |opcode|
  {
    [Concrete(opcode[hi1 + 1..]), Symbolic(upper)]
    + ([Concrete(opcode[hi2 + 1..lo1]), Symbolic(lower)] + Tail(opcode, lo2))
  }

  lemma TwoFields(opcode: Bv, hi1: nat, lo1: nat, hi2: nat, lo2: nat, upper: Term, lower: Term, x: Bv)
    requires lo2 <= hi2 && hi2 + 1 < lo1 <= hi1 && hi1 + 1 < |opcode|
    requires TermBits(upper, x).Some? && |TermBits(upper, x).value| == hi1 - lo1 + 1
    requires TermBits(lower, x).Some? && |TermBits(lower, x).value| == hi2 - lo2 + 1
    ensures Concat(Segments4(opcode, hi1, lo1, hi2, lo2, upper, lower), x)
         == Some(opcode[..lo2] + TermBits(lower, x).value + opcode[hi2 + 1..lo1] + TermBits(upper, x).value + opcode[hi1 + 1..])
  {
    TailBits(opcode, lo2, x);
    ConcatThree(Concrete(opcode[hi2 + 1..lo1]), Symbolic(lower), Tail(opcode, lo2), x);
    ConcatThree(Concrete(opcode[hi1 + 1..]), Symbolic(upper),
                [Concrete(opcode[hi2 + 1..lo1]), Symbolic(lower)] + Tail(opcode, lo2), x);
  }

  method Patch2(opcode: Bv, hi: nat, lo: nat, imm: Term, checked: bool) returns (r: Option<seq<Segment>>)
    requires lo <= hi < 0x8000_0000 && 0 < |opcode| < 0x8000_0000
    ensures r.Some? <==> hi + 1 < |opcode| && (checked ==> lo > 0)
    ensures r.Some? ==> r.value == Segments2(opcode, hi, lo, imm)
  {
    var p := PushConcrete([], opcode, |opcode| - 1, hi + 1);
    if p.Refused? { return None; }
    var low := Below(lo, checked);
    if low.None? { return None; }
    ghost var top := p.segments;
    p := PushConcrete(p.segments + [Symbolic(imm)], opcode, low.value, 0);
    if p.Refused? { return None; }
    assert opcode[hi + 1..|opcode|] == opcode[hi + 1..];
    r := Some(p.segments);
  }

  /** Two fields, the one given first the higher in the opcode. */
  method Patch4(opcode: Bv, hi1: nat, lo1: nat, hi2: nat, lo2: nat, upper: Term, lower: Term, checked: bool)
      returns (r: Option<seq<Segment>>)
    requires lo1 <= hi1 < 0x8000_0000 && lo2 <= hi2 < 0x8000_0000 && 0 < |opcode| < 0x8000_0000
    ensures r.Some? <==> hi2 + 1 < lo1 && hi1 + 1 < |opcode| && (checked ==> lo2 > 0)
    ensures r.Some? ==> r.value == Segments4(opcode, hi1, lo1, hi2, lo2, upper, lower)
  {
    var p := PushConcrete([], opcode, |opcode| - 1, hi1 + 1);
    if p.Refused? { return None; }
    var middle := Below(lo1, checked);
    if middle.None? { return None; }
    p := PushConcrete(p.segments + [Symbolic(upper)], opcode, middle.value, hi2 + 1);
    if p.Refused? { return None; }
    var low := Below(lo2, checked);
    if low.None? { return None; }
    p := PushConcrete(p.segments + [Symbolic(lower)], opcode, low.value, 0);
    if p.Refused? { return None; }
    assert opcode[hi1 + 1..|opcode|] == opcode[hi1 + 1..];
    r := Some(p.segments);
  }

  lemma PatchedOne(opcode: Bv, hi: nat, lo: nat, slice: Slice, x: Bv)
    requires Ordered(Imm2(hi, lo), slice) && Patchable(Imm2(hi, lo), slice, |opcode|, false) && |x| == 64
    ensures var r := Concat(Segments2(opcode, hi, lo, Extract(slice.hi, slice.lo, X)), x);
            r.Some? && Patched(Imm2(hi, lo), slice, opcode, x, r.value)
  {
    OneField(opcode, hi, lo, Extract(slice.hi, slice.lo, X), x);
    hide Concat, Segments2;
    var v := x[slice.lo..slice.hi + 1];
    var result := opcode[..lo] + v + opcode[hi + 1..];
    assert result[lo..hi + 1] == v;
  }

  /** The two parts of the slice. */
  lemma Parts(slice: Slice, len: nat, mid: nat, x: Bv)
    requires slice.lo <= slice.hi < 64 && |x| == 64 && SliceLen(slice) == len && mid + 1 < len
    ensures var slot := Extract(slice.hi, slice.lo, X);
            && TermBits(Extract(len - 1, mid + 1, slot), x) == Some(x[slice.lo + mid + 1..slice.hi + 1])
            && TermBits(Extract(mid, 0, slot), x) == Some(x[slice.lo..slice.lo + mid + 1])
  {
    var v := x[slice.lo..slice.hi + 1];
    assert TermBits(Extract(slice.hi, slice.lo, X), x) == Some(v);
    assert v[mid + 1..len] == x[slice.lo + mid + 1..slice.hi + 1];
    assert v[0..mid + 1] == x[slice.lo..slice.lo + mid + 1];
  }

  lemma PatchedTwo(opcode: Bv, hi1: nat, lo1: nat, hi2: nat, lo2: nat, a: Bv, b: Bv)
    requires lo2 <= hi2 && hi2 + 1 < lo1 <= hi1 && hi1 + 1 < |opcode| && |a| == hi1 - lo1 + 1 && |b| == hi2 - lo2 + 1
    ensures var r := opcode[..lo2] + b + opcode[hi2 + 1..lo1] + a + opcode[hi1 + 1..];
            && |r| == |opcode| && r[lo1..hi1 + 1] == a && r[lo2..hi2 + 1] == b
            && forall i | 0 <= i < |opcode| && !(lo1 <= i <= hi1) && !(lo2 <= i <= hi2) :: r[i] == opcode[i]
  {
  }

  /** The segments have a value under every value of the relocation, and it is the patched opcode. */
  ghost predicate Patches(imm: Immediate, slice: Slice, opcode: Bv, segments: seq<Segment>)
    requires Ordered(imm, slice) && SliceLen(slice) == ImmLen(imm)
  {
    forall x: Bv | |x| == 64 :: Concat(segments, x).Some? && Patched(imm, slice, opcode, x, Concat(segments, x).value)
  }

  function Split4(opcode: Bv, imm: Immediate, slice: Slice): seq<Segment>
    requires imm.Imm4? && Ordered(imm, slice) && Patchable(imm, slice, |opcode|, false)
  {
    var slot := Extract(slice.hi, slice.lo, X);
    var mid: nat := imm.hi2 - imm.lo2;
    var upper, lower := Extract(ImmLen(imm) - 1, mid + 1, slot), Extract(mid, 0, slot);
    if imm.hi1 > imm.hi2 then Segments4(opcode, imm.hi1, imm.lo1, imm.hi2, imm.lo2, upper, lower)
    else Segments4(opcode, imm.hi2, imm.lo2, imm.hi1, imm.lo1, lower, upper)
  }

  lemma PatchedHighFirst(opcode: Bv, imm: Immediate, slice: Slice, x: Bv)
    requires imm.Imm4? && Ordered(imm, slice) && Patchable(imm, slice, |opcode|, false) && |x| == 64 && imm.hi1 > imm.hi2
    ensures Concat(Split4(opcode, imm, slice), x).Some?
    ensures Patched(imm, slice, opcode, x, Concat(Split4(opcode, imm, slice), x).value)
  {
    var Imm4(hi1, lo1, hi2, lo2) := imm;
    var mid: nat := hi2 - lo2;
    Parts(slice, ImmLen(imm), mid, x);
    var a, b := x[slice.lo + mid + 1..slice.hi + 1], x[slice.lo..slice.lo + mid + 1];
    assert b + a == x[slice.lo..slice.hi + 1];
    hide Concat, Segments4, TermBits, Patched;
    var slot := Extract(slice.hi, slice.lo, X);
    PatchedTwo(opcode, hi1, lo1, hi2, lo2, a, b);
    TwoFields(opcode, hi1, lo1, hi2, lo2, Extract(ImmLen(imm) - 1, mid + 1, slot), Extract(mid, 0, slot), x);
    hide SliceLen, ImmLen;
    BothPatched(imm, slice, opcode, x, Concat(Split4(opcode, imm, slice), x).value, a, b);
  }

  /** A result that has the two parts of the slice in the two fields is patched. */
  lemma BothPatched(imm: Immediate, slice: Slice, opcode: Bv, x: Bv, result: Bv, a: Bv, b: Bv)
    requires imm.Imm4? && Ordered(imm, slice) && |x| == 64 && SliceLen(slice) == ImmLen(imm) && |result| == |opcode|
    requires imm.hi1 < |opcode| && imm.hi2 < |opcode| && b + a == x[slice.lo..slice.hi + 1]
    requires result[imm.lo1..imm.hi1 + 1] == a && result[imm.lo2..imm.hi2 + 1] == b
    requires forall i | 0 <= i < |opcode| && !(imm.lo1 <= i <= imm.hi1) && !(imm.lo2 <= i <= imm.hi2) :: result[i] == opcode[i]
    ensures Patched(imm, slice, opcode, x, result)
  {
  }

  lemma PatchedLowFirst(opcode: Bv, imm: Immediate, slice: Slice, x: Bv)
    requires imm.Imm4? && Ordered(imm, slice) && Patchable(imm, slice, |opcode|, false) && |x| == 64 && imm.hi1 <= imm.hi2
    ensures Concat(Split4(opcode, imm, slice), x).Some?
    ensures Patched(imm, slice, opcode, x, Concat(Split4(opcode, imm, slice), x).value)
  {
    var Imm4(hi1, lo1, hi2, lo2) := imm;
    var mid: nat := hi2 - lo2;
    Parts(slice, ImmLen(imm), mid, x);
    var a, b := x[slice.lo + mid + 1..slice.hi + 1], x[slice.lo..slice.lo + mid + 1];
    assert b + a == x[slice.lo..slice.hi + 1];
    hide Concat, Segments4, TermBits, Patched;
    var slot := Extract(slice.hi, slice.lo, X);
    PatchedTwo(opcode, hi2, lo2, hi1, lo1, b, a);
    TwoFields(opcode, hi2, lo2, hi1, lo1, Extract(mid, 0, slot), Extract(ImmLen(imm) - 1, mid + 1, slot), x);
    hide SliceLen, ImmLen;
    BothPatched(imm, slice, opcode, x, Concat(Split4(opcode, imm, slice), x).value, a, b);
  }

  lemma AllPatched(opcode: Bv, imm: Immediate, slice: Slice)
    requires Ordered(imm, slice) && Patchable(imm, slice, |opcode|, false)
    ensures imm.NoImm? ==> Patches(imm, slice, opcode, [Symbolic(X)])
    ensures imm.Imm2? ==> Patches(imm, slice, opcode, Segments2(opcode, imm.hi, imm.lo, Extract(slice.hi, slice.lo, X)))
    ensures imm.Imm4? ==> Patches(imm, slice, opcode, Split4(opcode, imm, slice))
  {
    forall x: Bv | |x| == 64
      ensures imm.Imm2? ==> (var r := Concat(Segments2(opcode, imm.hi, imm.lo, Extract(slice.hi, slice.lo, X)), x);
                             r.Some? && Patched(imm, slice, opcode, x, r.value))
      ensures imm.Imm4? ==> Concat(Split4(opcode, imm, slice), x).Some?
                            && Patched(imm, slice, opcode, x, Concat(Split4(opcode, imm, slice), x).value)
    {
      if imm.Imm2? { PatchedOne(opcode, imm.hi, imm.lo, slice, x); }
      if imm.Imm4? && imm.hi1 > imm.hi2 { PatchedHighFirst(opcode, imm, slice, x); }
      if imm.Imm4? && imm.hi1 <= imm.hi2 { PatchedLowFirst(opcode, imm, slice, x); }
      hide Concat, Patched, Segments2, Segments4;
    }
    assert [Symbolic(X)][1..] == [];
    forall x: Bv | |x| == 64
      ensures Concat([Symbolic(X)], x) == Some(x)
    {
      assert [] + x == x;
    }
  }

  /** Applies a relocation to an opcode. It succeeds exactly when the immediate is patchable, and then
      patches the immediate and nothing else, in either order of its fields. */
  method ImmediateSymbolic(imm: Immediate, opcode: Bv, slice: Slice, checked: bool) returns (r: Option<seq<Segment>>)
    requires Ordered(imm, slice) && |opcode| < 0x8000_0000
    ensures r.Some? <==> Patchable(imm, slice, |opcode|, checked)
    ensures r.Some? ==> Patches(imm, slice, opcode, r.value)
  {
    if SliceLen(slice) != ImmLen(imm) || |opcode| < SliceLen(slice) { return None; }
    hide Patches, Segments2, Segments4;
    match imm {
      case NoImm =>
        r := if |opcode| == 64 then Some([Symbolic(X)]) else None;
      case Imm2(hi, lo) =>
        r := Patch2(opcode, hi, lo, Extract(slice.hi, slice.lo, X), checked);
      case Imm4(hi1, lo1, hi2, lo2) =>
        var slot := Extract(slice.hi, slice.lo, X);
        var mid := hi2 - lo2;
        var upper, lower := Extract(ImmLen(imm) - 1, mid + 1, slot), Extract(mid, 0, slot);
        if hi1 > hi2 {
          r := Patch4(opcode, hi1, lo1, hi2, lo2, upper, lower, checked);
        } else {
          r := Patch4(opcode, hi2, lo2, hi1, lo1, lower, upper, checked);
        }
    }
    if r.Some? { AllPatched(opcode, imm, slice); }
  }

  // ----- an entry of the relocation table

  datatype TableEntry = TableEntry(operation: Operation, check: Option<(int, int)>, slice: Slice, immediate: Immediate)

  /** A word read as a signed number. */
  function Signed(n: nat): int { if n < 0x8000_0000_0000_0000 then n else n - WORD }

  /** Signed comparisons of words that the solver is given. */
  datatype Assertion = Bvsle(l: Exp, r: Exp) | Bvslt(l: Exp, r: Exp)

  predicate Asserted(a: Assertion, sigma: nat -> nat) {
    if a.Bvsle? then Signed(ValueOf(a.l, sigma)) <= Signed(ValueOf(a.r, sigma))
    else Signed(ValueOf(a.l, sigma)) < Signed(ValueOf(a.r, sigma))
  }

  /** What an entry adds to the solver, and the patched opcode. */
  datatype Relocation = Relocation(x: Exp, asserts: seq<Assertion>, opcode: seq<Segment>)

  /** The bounds of the check are signed 64-bit integers. */
  predicate InBounds(check: Option<(int, int)>) {
    check.Some? ==>
      && -0x8000_0000_0000_0000 <= check.value.0 && check.value.0 < 0x8000_0000_0000_0000
      && -0x8000_0000_0000_0000 <= check.value.1 && check.value.1 < 0x8000_0000_0000_0000
  }

  lemma SignedBack(i: int)
    requires -0x8000_0000_0000_0000 <= i < 0x8000_0000_0000_0000
    ensures Signed(AsWord(i)) == i
  {
  }

  /** Under these values of the symbol and the place, the assertions hold exactly when the relocation, as a
      signed word, is within the bounds of the check, and the immediate of the patched opcode holds the
      slice of it. */
  ghost predicate RelocatesAt(entry: TableEntry, opcode: Bv, symbol: nat, addend: int, place: nat, r: Relocation,
                              sigma: nat -> nat)
    requires Ordered(entry.immediate, entry.slice) && SliceLen(entry.slice) == ImmLen(entry.immediate)
  {
    var meant := AsWord(Meaning(entry.operation, sigma(symbol), addend, sigma(place)));
    var patched := Concat(r.opcode, LowBits(ValueOf(r.x, sigma), 64));
    && ((forall a | a in r.asserts :: Asserted(a, sigma)) <==>
          entry.check.None? || entry.check.value.0 <= Signed(meant) < entry.check.value.1)
    && patched.Some? && Patched(entry.immediate, entry.slice, opcode, LowBits(meant, 64), patched.value)
  }

  ghost predicate Relocates(entry: TableEntry, opcode: Bv, symbol: nat, addend: int, place: nat, r: Relocation)
    requires Ordered(entry.immediate, entry.slice) && SliceLen(entry.slice) == ImmLen(entry.immediate)
  {
    forall sigma: nat -> nat | sigma(symbol) < WORD && sigma(place) < WORD ::
      RelocatesAt(entry, opcode, symbol, addend, place, r, sigma)
  }

  function Bounds(check: Option<(int, int)>, x: Exp): seq<Assertion> {
    if check.None? then [] else [Bvsle(Const(AsWord(check.value.0)), x), Bvslt(x, Const(AsWord(check.value.1)))]
  }

  lemma BoundsMean(check: Option<(int, int)>, x: Exp, sigma: nat -> nat)
    requires InBounds(check)
    ensures (forall a | a in Bounds(check, x) :: Asserted(a, sigma)) <==>
              check.None? || check.value.0 <= Signed(ValueOf(x, sigma)) < check.value.1
  {
    if check.Some? {
      SignedBack(check.value.0);
      SignedBack(check.value.1);
      var bs := Bounds(check, x);
      hide Signed, AsWord;
      assert (forall a | a in bs :: Asserted(a, sigma)) <==> Asserted(bs[0], sigma) && Asserted(bs[1], sigma);
    }
  }

  /** The whole entry, for every symbol and place. */
  lemma EntryExact(entry: TableEntry, opcode: Bv, segments: seq<Segment>, symbol: nat, addend: int, place: nat,
                   sigma: nat -> nat)
    requires sigma(symbol) < WORD && sigma(place) < WORD && InBounds(entry.check)
    requires Ordered(entry.immediate, entry.slice) && SliceLen(entry.slice) == ImmLen(entry.immediate)
    requires Patches(entry.immediate, entry.slice, opcode, segments)
    ensures var x := Smt(entry.operation, symbol, addend, place);
            RelocatesAt(entry, opcode, symbol, addend, place, Relocation(x, Bounds(entry.check, x), segments), sigma)
  {
    SmtMeans(entry.operation, symbol, addend, place, sigma);
    BoundsMean(entry.check, Smt(entry.operation, symbol, addend, place), sigma);
    hide Patched, Concat, Smt, Meaning, Signed, AsWord, Bounds, Asserted;
    assert |LowBits(ValueOf(Smt(entry.operation, symbol, addend, place), sigma), 64)| == 64;
  }

  /** Builds the relocation of an entry: the operation as an expression, the overflow check as assertions and
      the patched opcode. It succeeds exactly when the immediate is patchable. */
  method EntrySymbolic(entry: TableEntry, opcode: Bv, symbol: nat, addend: int, place: nat, checked: bool)
      returns (r: Option<Relocation>)
    requires Ordered(entry.immediate, entry.slice) && InBounds(entry.check) && |opcode| < 0x8000_0000
    ensures r.Some? <==> Patchable(entry.immediate, entry.slice, |opcode|, checked)
    ensures r.Some? ==> Relocates(entry, opcode, symbol, addend, place, r.value)
  {
    var x := Smt(entry.operation, symbol, addend, place);
    var asserts: seq<Assertion> := [];
    if entry.check.Some? {
      asserts := asserts + [Bvsle(Const(AsWord(entry.check.value.0)), x)];
      asserts := asserts + [Bvslt(x, Const(AsWord(entry.check.value.1)))];
    }
    assert asserts == Bounds(entry.check, x);
    var segments := ImmediateSymbolic(entry.immediate, opcode, entry.slice, checked);
    if segments.None? { return None; }
    r := Some(Relocation(x, asserts, segments.value));
    hide Patches, RelocatesAt, Smt, AsWord, Bounds;
    forall sigma: nat -> nat | sigma(symbol) < WORD && sigma(place) < WORD
      ensures RelocatesAt(entry, opcode, symbol, addend, place, r.value, sigma)
    {
      EntryExact(entry, opcode, segments.value, symbol, addend, place, sigma);
    }
  }
}
