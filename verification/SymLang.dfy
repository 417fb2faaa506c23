/** The instruction language of the symbolic executor, over an arbitrary kind of value. */
module SymLang {
  import opened Wrappers
  import opened Words

  type Name = string
  type Sym = nat

  datatype Ty = TBool | TBits(len: nat)

  datatype CVal = Unit | Poison | Bool(b: bool) | Bits(len: nat, n: nat)

  datatype Val = Concrete(c: CVal) | Symbolic(v: Sym)

  /** `IllSorted` is the solver refusing to branch on a symbol of the wrong sort, `Unsplittable` its
      refusing to split on one. */
  datatype Error =
    TypeError | VariableNotFound | NoFunction | MatchFailure | AssertionFailure | Panicked | IllSorted | Unsplittable | Timeout

  /** The type of a value the solver can represent. */
  function TypeOf(c: CVal): Option<Ty> {
    match c
    case Bool(_) => Some(TBool)
    case Bits(len, n) => if n < Pow2(len) then Some(TBits(len)) else None
    case _ => None
  }

  // ----- primitive operations: one meaning on values, one on types

  datatype Op = Not | And | Or | Eq | Neq | Bvnot | Bvadd | Bvsub | Bvult

  function OpType(op: Op, tys: seq<Ty>): Option<Ty> {
    match op
    case Not => if tys == [TBool] then Some(TBool) else None
    case And => if tys == [TBool, TBool] then Some(TBool) else None
    case Or => if tys == [TBool, TBool] then Some(TBool) else None
    case Eq => if |tys| == 2 && tys[0] == tys[1] then Some(TBool) else None
    case Neq => if |tys| == 2 && tys[0] == tys[1] then Some(TBool) else None
    case Bvnot => if |tys| == 1 && tys[0].TBits? then Some(tys[0]) else None
    case Bvadd => if |tys| == 2 && tys[0] == tys[1] && tys[0].TBits? then Some(tys[0]) else None
    case Bvsub => if |tys| == 2 && tys[0] == tys[1] && tys[0].TBits? then Some(tys[0]) else None
    case Bvult => if |tys| == 2 && tys[0] == tys[1] && tys[0].TBits? then Some(TBool) else None
  }

  function TypesOf(cs: seq<CVal>): Option<seq<Ty>> {
    if cs == [] then Some([])
    else
      var t, ts := TypeOf(cs[0]), TypesOf(cs[1..]);
      if t.Some? && ts.Some? then Some([t.value] + ts.value) else None
  }

  /** What an operation computes on well-typed arguments. */
  function Compute(op: Op, cs: seq<CVal>): CVal
    requires TypesOf(cs).Some? && OpType(op, TypesOf(cs).value).Some?
  {
    Arity(cs);
    match op
    case Not => Bool(!cs[0].b)
    case And => Bool(cs[0].b && cs[1].b)
    case Or => Bool(cs[0].b || cs[1].b)
    case Eq => Bool(cs[0] == cs[1])
    case Neq => Bool(cs[0] != cs[1])
    case Bvnot => Bits(cs[0].len, Pow2(cs[0].len) - 1 - cs[0].n)
    case Bvadd => Bits(cs[0].len, (cs[0].n + cs[1].n) % Pow2(cs[0].len))
    case Bvsub => Bits(cs[0].len, (cs[0].n + Pow2(cs[0].len) - cs[1].n) % Pow2(cs[0].len))
    case Bvult => Bool(cs[0].n < cs[1].n)
  }

  function ApplyOp(op: Op, cs: seq<CVal>): Option<CVal> {
    if TypesOf(cs).Some? && OpType(op, TypesOf(cs).value).Some? then Some(Compute(op, cs)) else None
  }

  lemma {:induction false} Arity(cs: seq<CVal>)
    requires TypesOf(cs).Some?
    ensures |TypesOf(cs).value| == |cs|
    ensures forall i | 0 <= i < |cs| :: TypeOf(cs[i]) == Some(TypesOf(cs).value[i])
    decreases cs
  {
    if cs != [] { Arity(cs[1..]); }
  }

  lemma ComputeTyped(op: Op, cs: seq<CVal>)
    requires TypesOf(cs).Some? && OpType(op, TypesOf(cs).value).Some?
    ensures TypeOf(Compute(op, cs)) == OpType(op, TypesOf(cs).value)
  {
    Arity(cs);
  }

  // ----- programs

  datatype Exp = Id(name: Name) | Lit(c: CVal) | Prim(op: Op, args: seq<Exp>) | Undefined(ty: Ty)

  datatype ExitCause = ByMatchFailure | ByAssertionFailure | Explicit

  datatype Instr =
    | Decl(v: Name, ty: Ty)
    | Init(v: Name, exp: Exp)
    | Jump(exp: Exp, target: nat)
    | Goto(target: nat)
    | Copy(dest: Name, exp: Exp)
    | Primop(dest: Name, op: Op, args: seq<Exp>)
    | Call(dest: Name, f: Name, args: seq<Exp>)
    | End
    | Monomorphize(id: Name, mono: Option<Ty>)
    | Arbitrary
    | Exit(cause: ExitCause)

  datatype Fn = Fn(params: seq<Name>, retTy: Ty, instrs: seq<Instr>)

  type Program = map<Name, Fn>

  const RETURN: Name := "return"

  // ----- frames

  datatype UVal<V> = Uninit(ty: Ty) | Inited(value: V)

  type Bindings<V> = map<Name, UVal<V>>

  /** Where a call returns to: the closure of the program, as data. */
  datatype Return = Return(fn: Name, pc: nat, dest: Name)

  datatype Frame<V> = Frame(
    fn: Name,
    pc: nat,
    vars: Bindings<V>,
    regs: Bindings<V>,
    lets: Bindings<V>,
    stackVars: seq<Bindings<V>>,
    stackCall: seq<Return>)

  datatype Scope = Vars | Regs | Lets

  /** Reading looks at variables, then registers, then let-bindings. */
  function ReadScope<V>(fr: Frame<V>, id: Name): Option<Scope> {
    if id in fr.vars then Some(Vars) else if id in fr.regs then Some(Regs) else if id in fr.lets then Some(Lets) else None
  }

  function ScopeOf<V>(fr: Frame<V>, s: Scope): Bindings<V> {
    match s case Vars => fr.vars case Regs => fr.regs case Lets => fr.lets
  }

  function SetIn<V>(fr: Frame<V>, s: Scope, id: Name, u: UVal<V>): Frame<V> {
    match s
    case Vars => fr.(vars := fr.vars[id := u])
    case Regs => fr.(regs := fr.regs[id := u])
    case Lets => fr.(lets := fr.lets[id := u])
  }

  /** Assigning looks at variables, then let-bindings; everything else is a register. */
  function Assign<V>(fr: Frame<V>, id: Name, v: V): Frame<V> {
    SetIn(fr, if id in fr.vars then Vars else if id in fr.lets then Lets else Regs, id, Inited(v))
  }

  function Advance<V>(fr: Frame<V>): Frame<V> { fr.(pc := fr.pc + 1) }

  /** Entering a function: the caller's variables go on the stack. */
  function Enter<V>(fr: Frame<V>, f: Name, fn: Fn, dest: Name, args: seq<V>): Frame<V>
    requires |args| <= |fn.params|
  {
    Frame(f, 0, BindParams(map[RETURN := Uninit(fn.retTy)], fn.params, args), fr.regs, fr.lets,
          fr.stackVars + [fr.vars], fr.stackCall + [Return(fr.fn, fr.pc, dest)])
  }

  function BindParams<V>(vars: Bindings<V>, params: seq<Name>, args: seq<V>): Bindings<V>
    requires |args| <= |params|
    decreases |args|
  {
    if args == [] then vars
    else BindParams(vars, params[..|args| - 1], args[..|args| - 1])[params[|args| - 1] := Inited(args[|args| - 1])]
  }

  /** Returning: the caller's variables, function and position come back, and the result is assigned. */
  function Leave<V>(fr: Frame<V>, v: V): Frame<V>
    requires fr.stackCall != []
  {
    var r := fr.stackCall[|fr.stackCall| - 1];
    var n := |fr.stackVars|;
    var vars := if n == 0 then fr.vars else fr.stackVars[n - 1];
    var stackVars := if n == 0 then [] else fr.stackVars[..n - 1];
    Assign(Frame(r.fn, r.pc + 1, vars, fr.regs, fr.lets, stackVars, fr.stackCall[..|fr.stackCall| - 1]), r.dest, v)
  }

  /** Returning from a call restores the caller, one instruction on: whatever the callee did to its own
      variables, the caller's variables, function and stacks are as they were, and only the registers,
      the let-bindings and the destination can differ. */
  lemma ReturnUndoesCall<V>(fr: Frame<V>, f: Name, fn: Fn, dest: Name, args: seq<V>, callee: Frame<V>, v: V)
    requires |args| <= |fn.params|
    requires callee.stackVars == Enter(fr, f, fn, dest, args).stackVars
    requires callee.stackCall == Enter(fr, f, fn, dest, args).stackCall
    ensures Leave(callee, v)
         == Assign(Frame(fr.fn, fr.pc + 1, fr.vars, callee.regs, callee.lets, fr.stackVars, fr.stackCall), dest, v)
  {
    assert (fr.stackVars + [fr.vars])[..|fr.stackVars|] == fr.stackVars;
    var r := Return(fr.fn, fr.pc, dest);
    assert (fr.stackCall + [r])[..|fr.stackCall|] == fr.stackCall;
  }

  /** A callee starts with its parameters bound to the arguments — the last one, for a repeated name —
      and its result unassigned unless a parameter has that name. */
  lemma {:induction false} ParamsBound<V>(vars: Bindings<V>, params: seq<Name>, args: seq<V>, i: nat, other: Name)
    requires |args| <= |params|
    ensures i < |args| && (forall j | i < j < |args| :: params[j] != params[i]) ==>
              params[i] in BindParams(vars, params, args) && BindParams(vars, params, args)[params[i]] == Inited(args[i])
    ensures (forall j | 0 <= j < |args| :: params[j] != other) ==>
              (other in BindParams(vars, params, args) <==> other in vars)
              && (other in vars ==> BindParams(vars, params, args)[other] == vars[other])
    decreases |args|
  {
    if args != [] { ParamsBound(vars, params[..|args| - 1], args[..|args| - 1], i, other); }
  }

  datatype Outcome<V> = Finished(v: V) | Exited | Dead | Failed(error: Error)

  function ExitOutcome<V>(cause: ExitCause): Outcome<V> {
    match cause
    case ByMatchFailure => Failed(MatchFailure)
    case ByAssertionFailure => Failed(AssertionFailure)
    case Explicit => Exited
  }
}
