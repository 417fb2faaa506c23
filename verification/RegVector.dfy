/** Reading and writing one of a vector of registers at a symbolic index. */
module RegVector {
  import opened Wrappers
  import opened Words

  // ----- how many bits an index needs

  /** 64 less the leading zeros of a word. */
  function BitLength(x: nat): nat { if x == 0 then 0 else 1 + BitLength(x / 2) }

  lemma {:induction false} BitLengthExact(x: nat)
    ensures x < Pow2(BitLength(x))
    ensures x > 0 ==> BitLength(x) > 0 && Pow2(BitLength(x) - 1) <= x
    decreases x
  {
    if x > 0 { BitLengthExact(x / 2); }
  }

  function RequiredIndexBits(n: nat): nat { BitLength(if n == 0 then 0 else n - 1) }

  /** The number of index bits is the least that tells n indices apart. */
  lemma RequiredBitsLeast(n: nat, b: nat)
    ensures n <= Pow2(b) <==> RequiredIndexBits(n) <= b
  {
    var r := RequiredIndexBits(n);
    BitLengthExact(if n == 0 then 0 else n - 1);
    if r <= b {
      PowMono(r, b);
    } else {
      PowMono(b, r - 1);
    }
  }

  // ----- values as the solver sees them

  /** An index as compared with: the symbol, its low bits, or the symbol with zeros above it. */
  datatype Index = Whole(sym: nat) | Extract(sym: nat, len: nat) | ZeroExtend(sym: nat, extra: nat)

  /** A word constant; building one whose value does not fit its length is refused. */
  datatype Const = Bits64(n: nat, len: nat)

  datatype Term = Known(n: nat) | Unknown(sym: nat) | Ite(index: Index, constant: Const, yes: Term, no: Term)

  function WordConst(n: nat, len: nat): Const
    requires n < Pow2(len)
  {
    Bits64(n, len)
  }

  type Valuation = nat -> nat

  function IndexValue(i: Index, sigma: Valuation): nat {
    match i
    case Whole(sym) => sigma(sym)
    case Extract(sym, len) => sigma(sym) % Pow2(len)
    case ZeroExtend(sym, _) => sigma(sym)
  }

  function Eval(t: Term, sigma: Valuation): nat {
    match t
    case Known(n) => n
    case Unknown(sym) => sigma(sym)
    case Ite(i, c, yes, no) => if IndexValue(i, sigma) == c.n then Eval(yes, sigma) else Eval(no, sigma)
  }

  datatype Error = TypeError | Panicked

  /** The index argument: a word, an integer, a symbol with its length if the solver knows it. */
  datatype Arg = Bits(lower: nat) | Int(i: int) | Symbolic(sym: nat, len: Option<nat>) | Other

  datatype RegIndex = ConcreteIndex(position: nat) | SymbolicIndex(index: Index)

  function FixIndexLength(sym: nat, from: nat, to: nat): (r: Result<Index, Error>)
    ensures r.Failure? <==> from > 0 && to == 0
    ensures r.Success? ==> forall sigma: Valuation :: sigma(sym) < Pow2(from) ==> IndexValue(r.value, sigma) == sigma(sym) % Pow2(to)
  {
    if from == to then
      assert forall sigma: Valuation :: sigma(sym) < Pow2(from) ==> sigma(sym) % Pow2(to) == sigma(sym) by {
        forall sigma: Valuation | sigma(sym) < Pow2(from) ensures sigma(sym) % Pow2(to) == sigma(sym) { Fits(sigma(sym), from, to); }
      }
      Success(Whole(sym))
    else if from > to then if to == 0 then Failure(Panicked) else Success(Extract(sym, to))
    else
      assert forall sigma: Valuation :: sigma(sym) < Pow2(from) ==> sigma(sym) % Pow2(to) == sigma(sym) by {
        forall sigma: Valuation | sigma(sym) < Pow2(from) ensures sigma(sym) % Pow2(to) == sigma(sym) { Fits(sigma(sym), from, to); }
      }
      Success(ZeroExtend(sym, to - from))
  }

  lemma Fits(x: nat, from: nat, to: nat)
    requires x < Pow2(from) && from <= to
    ensures x % Pow2(to) == x
  {
    PowMono(from, to);
    SmallMod(x, Pow2(to));
  }

  function Names(elems: seq<Option<string>>): (r: Result<seq<string>, Error>)
    ensures r.Failure? <==> None in elems
    ensures r.Failure? ==> r.error == TypeError
    ensures r.Success? ==> |r.value| == |elems| && forall i | 0 <= i < |elems| :: elems[i] == Some(r.value[i])
  {
    if elems == [] then Success([])
    else if elems[0].None? then Failure(TypeError)
    else
      var rest := Names(elems[1..]);
      if rest.Failure? then rest else Success([elems[0].value] + rest.value)
  }

  function IndexOf(n: Arg, rib: nat): Result<RegIndex, Error> {
    match n
    case Bits(lower) => Success(ConcreteIndex(lower))
    case Int(i) => if 0 <= i < WORD then Success(ConcreteIndex(i)) else Failure(TypeError)
    case Symbolic(sym, len) =>
      if len.None? then Failure(TypeError)
      else
        var v := FixIndexLength(sym, len.value, rib);
        if v.Failure? then Failure(v.error) else Success(SymbolicIndex(v.value))
    case Other => Failure(TypeError)
  }

  /** The argument's value under a valuation, for those the executor can index with. */
  ghost predicate IndexedBy(n: Arg, sigma: Valuation, i: nat) {
    match n
    case Bits(lower) => i == lower
    case Int(k) => i == k
    case Symbolic(sym, len) => len.Some? && sigma(sym) < Pow2(len.value) && i == sigma(sym)
    case Other => false
  }

  /** The index an access compares with: a symbolic index keeps only the bits it needs. */
  function Wrapped(i: nat, count: nat): nat { i % Pow2(RequiredIndexBits(count)) }

  lemma InRangeUnchanged(i: nat, count: nat)
    requires i < count
    ensures Wrapped(i, count) == i
  {
    RequiredBitsLeast(count, RequiredIndexBits(count));
    SmallMod(i, Pow2(RequiredIndexBits(count)));
  }

  /** The term has the value of the register at `k`, or of the first register if there is none there. */
  ghost predicate ReadAt(regs: map<string, Term>, names: seq<string>, k: nat, t: Term, sigma: Valuation)
    requires names != [] && forall r | r in names :: r in regs
  {
    Eval(t, sigma) == Eval(regs[names[if k < |names| then k else 0]], sigma)
  }

  /** Of the first `count` names, the register at `k` has the new value; all others are as before. */
  ghost predicate WrittenAt(before: map<string, Term>, after: map<string, Term>, names: seq<string>, k: nat, count: nat,
                            value: Term, sigma: Valuation)
    requires count <= |names|
  {
    && after.Keys == before.Keys
    && (k < count && names[k] in after ==> Eval(after[names[k]], sigma) == Eval(value, sigma))
    && forall reg | reg in after && !(k < count && names[k] == reg) :: Eval(after[reg], sigma) == Eval(before[reg], sigma)
  }

  /** Why an access to one of `count` registers is refused, if it is: the argument is no index, the index
      is past the end, or a symbolic one would be cut to no bits. */
  function Refusal(n: Arg, count: nat): Option<Error> {
    match n
    case Bits(i) => if i < count then None else Some(Panicked)
    case Int(i) => if i < 0 || i >= WORD then Some(TypeError) else if i < count then None else Some(Panicked)
    case Symbolic(_, len) =>
      if len.None? then Some(TypeError) else if len.value > 0 && count <= 1 then Some(Panicked) else None
    case Other => Some(TypeError)
  }

  class RegisterFile {
    var regs: map<string, Term>

    /** The registers named by a vector of references. */
    ghost predicate Refers(names: seq<string>)
      reads this
    {
      forall r | r in names :: r in regs
    }

    /** The value read is that of the register at the index; a symbolic index past the end, once cut to
        the bits it needs, reads the first. */
    method Read(n: Arg, elems: seq<Option<string>>) returns (r: Result<Term, Error>)
      requires Names(elems).Success? ==> Refers(Names(elems).value)
      ensures Names(elems).Failure? ==> r == Failure(TypeError)
      ensures Names(elems).Success? ==>
                var names := Names(elems).value;
                && (r.Success? ==> names != [])
                && (r.Failure? <==> names == [] || Refusal(n, |names|).Some?)
                && (r.Failure? ==> r.error == if Refusal(n, |names|).Some? then Refusal(n, |names|).value else Panicked)
                && forall sigma: Valuation, i: nat | IndexedBy(n, sigma, i) ::
                     && (i < |names| && |names| >= 2 && i < WORD ==> r.Success?)
                     && (r.Success? ==> ReadAt(regs, names, if n.Symbolic? then Wrapped(i, |names|) else i, r.value, sigma))
                     && (r.Success? && !n.Symbolic? ==> i < |names|)
    {
      var ns := Names(elems);
      if ns.Failure? { return Failure(ns.error); }
      var names := ns.value;
      var rib := RequiredIndexBits(|names|);
      var index := IndexOf(n, rib);
      if index.Failure? { return Failure(index.error); }
      IndexFacts(n, |names|);
      hide IndexOf, IndexedBy, Wrapped, RequiredIndexBits, Eval, Names, IndexValue, Refusal;
      match index.value {
        case ConcreteIndex(i) =>
          if i >= |names| { return Failure(Panicked); }
          r := Success(regs[names[i]]);
        case SymbolicIndex(i) =>
          if names == [] { return Failure(Panicked); }
          var chain := ReadChain(i, names);
          r := Success(chain);
      }
    }

    /** The chain of comparisons with every index but the first. */
    method ReadChain(i: Index, names: seq<string>) returns (chain: Term)
      requires names != [] && Refers(names)
      ensures forall sigma: Valuation :: ReadAt(regs, names, IndexValue(i, sigma), chain, sigma)
    {
      var rib := RequiredIndexBits(|names|);
      RequiredBitsLeast(|names|, rib);
      hide RequiredIndexBits, IndexValue, Pow2;
      chain := regs[names[0]];
      for j := 1 to |names|
        invariant forall sigma: Valuation ::
          Eval(chain, sigma) == Eval(regs[names[if IndexValue(i, sigma) < j then IndexValue(i, sigma) else 0]], sigma)
      {
        chain := Ite(i, WordConst(j, rib), regs[names[j]], chain);
      }
    }

    /** The register at the index takes the value and every other register keeps its own; a symbolic
        index past the end, once cut to the bits it needs, writes nothing. */
    method Write(n: Arg, value: Term, elems: seq<Option<string>>) returns (r: Result<(), Error>)
      requires Names(elems).Success? ==> Refers(Names(elems).value)
      modifies this
      ensures r.Failure? ==> regs == old(regs)
      ensures Names(elems).Failure? ==> r == Failure(TypeError)
      ensures regs.Keys == old(regs.Keys)
      ensures Names(elems).Success? ==>
                var names := Names(elems).value;
                && (r.Failure? <==> Refusal(n, |names|).Some?)
                && (r.Failure? ==> r.error == Refusal(n, |names|).value)
                && forall sigma: Valuation, i: nat | IndexedBy(n, sigma, i) ::
                  && (i < |names| && |names| >= 2 && i < WORD ==> r.Success?)
                  && (r.Success? ==>
                        WrittenAt(old(regs), regs, names, if n.Symbolic? then Wrapped(i, |names|) else i, |names|, value, sigma))
    {
      var ns := Names(elems);
      if ns.Failure? { return Failure(ns.error); }
      var names := ns.value;
      var rib := RequiredIndexBits(|names|);
      var index := IndexOf(n, rib);
      if index.Failure? { return Failure(index.error); }
      IndexFacts(n, |names|);
      hide IndexOf, IndexedBy, Wrapped, RequiredIndexBits, Eval, Names, IndexValue, Refusal;
      match index.value {
        case ConcreteIndex(i) =>
          if i >= |names| { return Failure(Panicked); }
          regs := regs[names[i] := value];
        case SymbolicIndex(i) =>
          WriteEach(i, value, names);
      }
      r := Success(());
    }

    /** Every register is given a choice between the new value and its own. */
    method WriteEach(i: Index, value: Term, names: seq<string>)
      requires Refers(names)
      modifies this
      ensures regs.Keys == old(regs.Keys)
      ensures forall sigma: Valuation :: WrittenAt(old(regs), regs, names, IndexValue(i, sigma), |names|, value, sigma)
    {
      var rib := RequiredIndexBits(|names|);
      RequiredBitsLeast(|names|, rib);
      hide RequiredIndexBits, IndexValue, Pow2;
      for j := 0 to |names|
        invariant regs.Keys == old(regs.Keys)
        invariant forall sigma: Valuation :: WrittenAt(old(regs), regs, names, IndexValue(i, sigma), j, value, sigma)
      {
        regs := regs[names[j] := Ite(i, WordConst(j, rib), value, regs[names[j]])];
      }
    }
  }

  predicate PastEnd(index: RegIndex, count: nat) { index.ConcreteIndex? && index.position >= count }

  /** What an index argument becomes, for every value it can have. */
  lemma IndexFacts(n: Arg, count: nat)
    ensures var r := IndexOf(n, RequiredIndexBits(count));
            && (r.Success? ==> r.value.SymbolicIndex? == n.Symbolic?)
            && (r.Success? ==> Refusal(n, count) == if PastEnd(r.value, count) then Some(Panicked) else None)
            && (r.Failure? ==> Refusal(n, count) == Some(r.error))
            && forall sigma: Valuation, i: nat | IndexedBy(n, sigma, i) ::
                 && (i < count && count >= 2 && i < WORD ==> r.Success?)
                 && (r.Success? && r.value.ConcreteIndex? ==> r.value.position == i)
                 && (r.Success? && r.value.SymbolicIndex? ==> IndexValue(r.value.index, sigma) == Wrapped(i, count))
  {
    RequiredBitsLeast(count, 0);
    assert Pow2(0) == 1;
    hide RequiredIndexBits, IndexValue, Pow2;
  }

  /** Within range, an access at a symbolic index is the access at the concrete index it stands for. */
  lemma ReadAgrees(sym: nat, len: nat, count: nat, sigma: Valuation)
    requires count >= 2 && sigma(sym) < Pow2(len)
    ensures var i := IndexOf(Symbolic(sym, Some(len)), RequiredIndexBits(count));
            && i.Success? && i.value.SymbolicIndex?
            && IndexValue(i.value.index, sigma) == Wrapped(sigma(sym), count)
            && (sigma(sym) < count ==> IndexValue(i.value.index, sigma) == sigma(sym))
  {
    RequiredBitsLeast(count, 0);
    if sigma(sym) < count { InRangeUnchanged(sigma(sym), count); }
  }
}
