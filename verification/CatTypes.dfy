/** Type inference for cat expressions over a mutable typing context. */
module CatTypes {
  import opened Wrappers
  import opened Sexps
  import opened CatExps
  import opened CatCompiler

  type Bindings = map<string, seq<Ty>>

  /** The innermost binding of a name. */
  function Innermost(bindings: Bindings, id: string): Option<Ty> {
    if id in bindings && bindings[id] != [] then Some(bindings[id][|bindings[id]| - 1]) else None
  }

  predicate LetFree<T>(e: Exp<T>) {
    match e
    case Empty(_) => true
    case Id(_, _) => true
    case Let(_, _, _, _) => false
    case TryWith(x, y, _) => LetFree(x) && LetFree(y)
    case Union(x, y, _) => LetFree(x) && LetFree(y)
    case Inter(x, y, _) => LetFree(x) && LetFree(y)
    case Diff(x, y, _) => LetFree(x) && LetFree(y)
    case Seq(x, y) => LetFree(x) && LetFree(y)
    case Cartesian(x, y) => LetFree(x) && LetFree(y)
    case Compl(x, _) => LetFree(x)
    case Identity(x) => LetFree(x)
    case IdentityUnion(x) => LetFree(x)
    case Inverse(x) => LetFree(x)
    case App(_, x, _) => LetFree(x)
  }

  /** The names that the `let` expressions of an expression bind. */
  function LetNames(e: Exp<()>): set<string> {
    match e
    case Empty(_) => {}
    case Id(_, _) => {}
    case Let(v, x, y, _) => {v} + LetNames(x) + LetNames(y)
    case TryWith(x, y, _) => LetNames(x) + LetNames(y)
    case Union(x, y, _) => LetNames(x) + LetNames(y)
    case Inter(x, y, _) => LetNames(x) + LetNames(y)
    case Diff(x, y, _) => LetNames(x) + LetNames(y)
    case Seq(x, y) => LetNames(x) + LetNames(y)
    case Cartesian(x, y) => LetNames(x) + LetNames(y)
    case Compl(x, _) => LetNames(x)
    case Identity(x) => LetNames(x)
    case IdentityUnion(x) => LetNames(x)
    case Inverse(x) => LetNames(x)
    case App(_, x, _) => LetNames(x)
  }

  /** The bindings differ at most on the given names. */
  predicate SameOutside(before: Bindings, after: Bindings, names: set<string>) {
    && (forall n | n in before && n !in names :: n in after && after[n] == before[n])
    && (forall n | n in after && n !in names :: n in before)
  }

  lemma SameTrans(a: Bindings, b: Bindings, c: Bindings, m: set<string>, n: set<string>)
    requires SameOutside(a, b, m) && SameOutside(b, c, n)
    ensures SameOutside(a, c, m + n) && SameOutside(a, c, n + m)
  {
  }

  /** `t` is `e` with type annotations. The only change of structure allowed is dropping the first
      operand of a `try` whose type cannot be found. */
  predicate Annotates(t: Exp<Ty>, e: Exp<()>)
    decreases e
  {
    match e
    case Empty(_) => t.Empty?
    case Id(name, _) => t.Id? && t.name == name
    case Let(v, x, y, _) => t.Let? && t.name == v && Annotates(t.x, x) && Annotates(t.y, y)
    case TryWith(x, y, _) => (t.TryWith? && Annotates(t.x, x) && Annotates(t.y, y)) || Annotates(t, y)
    case Union(x, y, _) => t.Union? && Annotates(t.x, x) && Annotates(t.y, y)
    case Inter(x, y, _) => t.Inter? && Annotates(t.x, x) && Annotates(t.y, y)
    case Diff(x, y, _) => t.Diff? && Annotates(t.x, x) && Annotates(t.y, y)
    case Seq(x, y) => t.Seq? && Annotates(t.x, x) && Annotates(t.y, y)
    case Cartesian(x, y) => t.Cartesian? && Annotates(t.x, x) && Annotates(t.y, y)
    case Compl(x, _) => t.Compl? && Annotates(t.x, x)
    case Identity(x) => t.Identity? && Annotates(t.x, x)
    case IdentityUnion(x) => t.IdentityUnion? && Annotates(t.x, x)
    case Inverse(x) => t.Inverse? && Annotates(t.x, x)
    case App(f, x, _) => t.App? && t.fn == f && Annotates(t.x, x)
  }

  /** Every identifier carries the type its innermost binding gives it, or is a parameter. */
  predicate Scoped(bindings: Bindings, unknowns: set<string>, t: Exp<Ty>) {
    match t
    case Empty(_) => true
    case Id(name, ty) => name in unknowns || Innermost(bindings, name) == Some(ty)
    case Let(_, _, _, _) => false
    case TryWith(x, y, _) => Scoped(bindings, unknowns, x) && Scoped(bindings, unknowns, y)
    case Union(x, y, _) => Scoped(bindings, unknowns, x) && Scoped(bindings, unknowns, y)
    case Inter(x, y, _) => Scoped(bindings, unknowns, x) && Scoped(bindings, unknowns, y)
    case Diff(x, y, _) => Scoped(bindings, unknowns, x) && Scoped(bindings, unknowns, y)
    case Seq(x, y) => Scoped(bindings, unknowns, x) && Scoped(bindings, unknowns, y)
    case Cartesian(x, y) => Scoped(bindings, unknowns, x) && Scoped(bindings, unknowns, y)
    case Compl(x, _) => Scoped(bindings, unknowns, x)
    case Identity(x) => Scoped(bindings, unknowns, x)
    case IdentityUnion(x) => Scoped(bindings, unknowns, x)
    case Inverse(x) => Scoped(bindings, unknowns, x)
    case App(_, x, _) => Scoped(bindings, unknowns, x)
  }

  /** The typing rules of cat, without `let`: an empty set or relation has either type, but an operation
      that can have either needs an operand whose type is known; a `try` has the type of its second
      operand if its first has none. */
  predicate HasType(bindings: Bindings, functions: Signatures, e: Exp<()>, ty: Ty) {
    match e
    case Empty(_) => true
    case Id(name, _) => Innermost(bindings, name) == Some(ty)
    case Let(_, _, _, _) => false
    case TryWith(x, y, _) =>
      if !x.Empty? && (HasType(bindings, functions, x, Rel) || HasType(bindings, functions, x, Set))
      then HasType(bindings, functions, x, ty) && HasType(bindings, functions, y, ty)
      else !y.Empty? && HasType(bindings, functions, y, ty)
    case Union(x, y, _) => Together(x, y) && HasType(bindings, functions, x, ty) && HasType(bindings, functions, y, ty)
    case Inter(x, y, _) => Together(x, y) && HasType(bindings, functions, x, ty) && HasType(bindings, functions, y, ty)
    case Diff(x, y, _) => Together(x, y) && HasType(bindings, functions, x, ty) && HasType(bindings, functions, y, ty)
    case Seq(x, y) => ty == Rel && HasType(bindings, functions, x, Rel) && HasType(bindings, functions, y, Rel)
    case Cartesian(x, y) => ty == Rel && HasType(bindings, functions, x, Set) && HasType(bindings, functions, y, Set)
    case Compl(x, _) => !x.Empty? && HasType(bindings, functions, x, ty)
    case Identity(x) => ty == Rel && HasType(bindings, functions, x, Set)
    case IdentityUnion(x) => ty == Rel && HasType(bindings, functions, x, Rel)
    case Inverse(x) => ty == Rel && HasType(bindings, functions, x, Rel)
    case App(f, x, _) => f in functions && ty == functions[f].1 && HasType(bindings, functions, x, functions[f].0)
  }

  /** One of two operands can fix the type of both. */
  predicate Together(x: Exp<()>, y: Exp<()>) { !x.Empty? || !y.Empty? }

  /** The type of the expression is known from its parts. */
  predicate Infers(bindings: Bindings, functions: Signatures, e: Exp<()>, ty: Ty) {
    !e.Empty? && HasType(bindings, functions, e, ty)
  }

  /** A known type is the only one. */
  lemma {:induction false} OneType(bindings: Bindings, functions: Signatures, e: Exp<()>)
    ensures !(Infers(bindings, functions, e, Rel) && Infers(bindings, functions, e, Set))
    decreases e
  {
    match e
    case TryWith(x, y, _) => OneType(bindings, functions, x); OneType(bindings, functions, y);
    case Union(x, y, _) => OneType(bindings, functions, x); OneType(bindings, functions, y);
    case Inter(x, y, _) => OneType(bindings, functions, x); OneType(bindings, functions, y);
    case Diff(x, y, _) => OneType(bindings, functions, x); OneType(bindings, functions, y);
    case Compl(x, _) => OneType(bindings, functions, x);
    case _ =>
  }

  /** The inference gives the known type, and fails if there is none. */
  predicate Decides(bindings: Bindings, functions: Signatures, e: Exp<()>, r: Option<Exp<Ty>>) {
    && (Infers(bindings, functions, e, Rel) <==> r.Some? && TyOf(r.value) == Rel)
    && (Infers(bindings, functions, e, Set) <==> r.Some? && TyOf(r.value) == Set)
  }

  /** The binary operation of `e`, on annotated operands. */
  function Rebuild(e: Exp<()>, x: Exp<Ty>, y: Exp<Ty>, ty: Ty): Exp<Ty>
    requires e.Union? || e.Inter? || e.Diff?
  {
    match e
    case Union(_, _, _) => Union(x, y, ty)
    case Inter(_, _, _) => Inter(x, y, ty)
    case Diff(_, _, _) => Diff(x, y, ty)
  }

  class Tcx {
    var bindings: Bindings
    const functions: Signatures
    var unknowns: set<string>
    var found: map<string, Ty>

    constructor (functions: Signatures)
      ensures bindings == map[] && this.functions == functions && unknowns == {} && found == map[]
    {
      this.functions := functions;
      bindings, unknowns, found := map[], {}, map[];
    }

    method Push(name: string, ty: Ty)
      modifies this`bindings
      ensures Innermost(bindings, name) == Some(ty)
      ensures forall n | n != name :: Innermost(bindings, n) == Innermost(old(bindings), n)
      ensures bindings == old(bindings)[name := (if name in old(bindings) then old(bindings)[name] else []) + [ty]]
    {
      bindings := bindings[name := (if name in bindings then bindings[name] else []) + [ty]];
    }

    /** Popping undoes a push, except that a name bound for the first time keeps an empty stack. */
    method Pop(name: string)
      modifies this`bindings
      ensures name in old(bindings) && old(bindings)[name] != [] ==>
                bindings == old(bindings)[name := old(bindings)[name][..|old(bindings)[name]| - 1]]
      ensures !(name in old(bindings) && old(bindings)[name] != []) ==> bindings == old(bindings)
    {
      if name in bindings && bindings[name] != [] {
        bindings := bindings[name := bindings[name][..|bindings[name]| - 1]];
      }
    }

    /** What a successful inference promises about its result. */
    twostate predicate Elaborated(e: Exp<()>, new r: Option<Exp<Ty>>)
      reads this
    {
      && unknowns == old(unknowns)
      && (r.Some? ==> Typed(functions, r.value) && Annotates(r.value, e))
      && (LetFree(e) ==> bindings == old(bindings)) && SameOutside(old(bindings), bindings, LetNames(e))
      && (LetFree(e) && r.Some? ==> Scoped(bindings, unknowns, r.value))
    }

    /** The inference succeeds exactly as the typing rules say, without parameters. */
    twostate predicate Exact(e: Exp<()>, new r: Option<Exp<Ty>>)
      reads this
    {
      LetFree(e) && unknowns == {} ==> Decides(old(bindings), functions, e, r)
    }

    method CheckExp(e: Exp<()>, ty: Ty) returns (r: Option<Exp<Ty>>)
      modifies this
      ensures Elaborated(e, r) && (r.Some? ==> TyOf(r.value) == ty)
      ensures LetFree(e) && unknowns == {} ==> (r.Some? <==> HasType(old(bindings), functions, e, ty))
      decreases e, 2
    {
      if e.Empty? {
        return Some(Empty(ty));
      } else if e.Id? && e.name in unknowns {
        var clash := e.name in found && found[e.name] != ty;
        found := found[e.name := ty];
        if clash {
          return None;
        }
        return Some(Id(e.name, ty));
      }
      var t :- InferExp(e);
      if ty != TyOf(t) {
        return None;
      }
      return Some(t);
    }

    method InferExp(e: Exp<()>) returns (r: Option<Exp<Ty>>)
      modifies this
      ensures Elaborated(e, r) && Exact(e, r)
      decreases e, 1
    {
      match e {
        case Empty(_) => return None;
        case Id(name, _) =>
          var ty :- Innermost(bindings, name);
          return Some(Id(name, ty));
        case Let(_, _, _, _) => r := InferLet(e);
        case TryWith(_, _, _) => r := InferTry(e);
        case Union(_, _, _) => r := InferBinary(e);
        case Inter(_, _, _) => r := InferBinary(e);
        case Diff(_, _, _) => r := InferBinary(e);
        case Seq(_, _) => r := InferPair(e, Rel);
        case Cartesian(_, _) => r := InferPair(e, Set);
        case Compl(x, _) =>
          var x' :- InferExp(x);
          return Some(Compl(x', TyOf(x')));
        case Identity(x) =>
          var x' :- CheckExp(x, Set);
          return Some(Identity(x'));
        case IdentityUnion(x) =>
          var x' :- CheckExp(x, Rel);
          return Some(IdentityUnion(x'));
        case Inverse(x) =>
          var x' :- CheckExp(x, Rel);
          return Some(Inverse(x'));
        case App(f, x, _) =>
          if f !in functions {
            return None;
          }
          var x' :- CheckExp(x, functions[f].0);
          return Some(App(f, x', functions[f].1));
      }
    }

    method InferLet(e: Exp<()>) returns (r: Option<Exp<Ty>>)
      requires e.Let?
      modifies this
      ensures Elaborated(e, r) && Exact(e, r)
      decreases e, 0
    {
      var x' :- InferExp(e.x);
      Push(e.name, TyOf(x'));
      var y' :- InferExp(e.y);
      Pop(e.name);
      return Some(Let(e.name, x', y', TyOf(y')));
    }

    /** Checks both operands of a composition or a product. */
    method InferPair(e: Exp<()>, ty: Ty) returns (r: Option<Exp<Ty>>)
      requires (e.Seq? && ty == Rel) || (e.Cartesian? && ty == Set)
      modifies this
      ensures Elaborated(e, r) && Exact(e, r)
      decreases e, 0
    {
      var x' :- CheckExp(e.x, ty);
      var y' :- CheckExp(e.y, ty);
      return Some(if e.Seq? then Exp.Seq(x', y') else Cartesian(x', y'));
    }

    /** Infers one operand and checks the other against its type, the first operand first. */
    method InferBinary(e: Exp<()>) returns (r: Option<Exp<Ty>>)
      requires e.Union? || e.Inter? || e.Diff?
      modifies this
      ensures Elaborated(e, r) && Exact(e, r)
      decreases e, 0
    {
      hide SameOutside;
      ghost var start := bindings;
      var first := InferExp(e.x);
      ghost var between := bindings;
      var second;
      if first.Some? {
        second := CheckExp(e.y, TyOf(first.value));
        SameTrans(start, between, bindings, LetNames(e.x), LetNames(e.y));
      } else {
        second := InferExp(e.y);
        SameTrans(start, between, bindings, LetNames(e.x), LetNames(e.y));
        if second.Some? {
          between := bindings;
          first := CheckExp(e.x, TyOf(second.value));
          SameTrans(start, between, bindings, LetNames(e), LetNames(e.x));
          assert LetNames(e) + LetNames(e.x) == LetNames(e);
        }
      }
      var x' :- first;
      var y' :- second;
      return Some(Rebuild(e, x', y', TyOf(x')));
    }

    method InferTry(e: Exp<()>) returns (r: Option<Exp<Ty>>)
      requires e.TryWith?
      modifies this
      ensures Elaborated(e, r) && Exact(e, r)
      decreases e, 0
    {
      var first := InferExp(e.x);
      if first.Some? {
        var y' :- CheckExp(e.y, TyOf(first.value));
        return Some(TryWith(first.value, y', TyOf(first.value)));
      }
      var y' :- InferExp(e.y);
      var second := CheckExp(e.x, TyOf(y'));
      return Some(if second.Some? then TryWith(second.value, y', TyOf(second.value)) else y');
    }
  }

  /** Compiling a well-typed expression, with any event names and counter, either succeeds or panics:
      it succeeds exactly for the supported expressions. */
  lemma {:induction false} CompilesExactly(e: Exp<Ty>, ev1: EventId, ev2: EventId, c: EventId)
    requires Typed(BUILTINS, e)
    ensures Compile(e, ev1, ev2, c).r.Ok? == Supported(e)
    ensures Compile(e, ev1, ev2, c).r.Panic? == !Supported(e)
    decreases e
  {
    match e
    case Empty(_) =>
    case Id(_, _) =>
    case Let(_, _, _, _) =>
    case TryWith(x, _, _) => CompilesExactly(x, ev1, ev2, c);
    case Union(x, y, _) => BothCompile(e, x, y, ev1, ev2, ev1, ev2, c);
    case Inter(x, y, _) => BothCompile(e, x, y, ev1, ev2, ev1, ev2, c);
    case Diff(x, y, _) => BothCompile(e, x, y, ev1, ev2, ev1, ev2, c);
    case Seq(x, y) => BothCompile(e, x, y, ev1, c, c, ev2, Next(c));
    case Cartesian(x, y) => BothCompile(e, x, y, ev1, ev2, ev2, ev1, c);
    case Compl(x, _) => CompilesExactly(x, ev1, ev2, c);
    case Identity(x) => BothCompile(e, x, x, ev1, ev2, ev2, ev1, c);
    case IdentityUnion(x) => CompilesExactly(x, ev1, ev2, c);
    case Inverse(x) => CompilesExactly(x, ev2, ev1, c);
    case App(f, x, ty) => if ty.Set? && f == "range" { CompilesExactly(x, c, ev1, Next(c)); }
  }

  lemma {:induction false} BothCompile(e: Exp<Ty>, x: Exp<Ty>, y: Exp<Ty>, a: EventId, b: EventId,
                                       a': EventId, b': EventId, c: EventId)
    requires x < e && y < e && Typed(BUILTINS, x) && Typed(BUILTINS, y)
    ensures Compile(x, a, b, c).r.Ok? == Supported(x) && Compile(x, a, b, c).r.Panic? == !Supported(x)
    ensures var c' := Compile(x, a, b, c).c;
            Compile(y, a', b', c').r.Ok? == Supported(y) && Compile(y, a', b', c').r.Panic? == !Supported(y)
    decreases e, 0
  {
    CompilesExactly(x, a, b, c);
    CompilesExactly(y, a', b', Compile(x, a, b, c).c);
  }

  predicate WithoutDomain(e: Exp<()>) {
    match e
    case Empty(_) => true
    case Id(_, _) => true
    case Let(_, x, y, _) => WithoutDomain(x) && WithoutDomain(y)
    case TryWith(x, y, _) => WithoutDomain(x) && WithoutDomain(y)
    case Union(x, y, _) => WithoutDomain(x) && WithoutDomain(y)
    case Inter(x, y, _) => WithoutDomain(x) && WithoutDomain(y)
    case Diff(x, y, _) => WithoutDomain(x) && WithoutDomain(y)
    case Seq(x, y) => WithoutDomain(x) && WithoutDomain(y)
    case Cartesian(x, y) => WithoutDomain(x) && WithoutDomain(y)
    case Compl(x, _) => WithoutDomain(x)
    case Identity(x) => WithoutDomain(x)
    case IdentityUnion(x) => WithoutDomain(x)
    case Inverse(x) => WithoutDomain(x)
    case App(f, x, _) => f != "domain" && WithoutDomain(x)
  }

  lemma {:induction false} AcceptedSupported(t: Exp<Ty>, e: Exp<()>)
    requires Typed(BUILTINS, t) && Annotates(t, e) && LetFree(e) && WithoutDomain(e)
    ensures Supported(t)
    decreases e
  {
    match e
    case Empty(_) =>
    case Id(_, _) =>
    case Let(_, _, _, _) =>
    case TryWith(x, y, _) => if t.TryWith? && Annotates(t.x, x) { AcceptedSupported(t.x, x); } else { AcceptedSupported(t, y); }
    case Union(x, y, _) => BothSupported(t, e, x, y);
    case Inter(x, y, _) => BothSupported(t, e, x, y);
    case Diff(x, y, _) => BothSupported(t, e, x, y);
    case Seq(x, y) => BothSupported(t, e, x, y);
    case Cartesian(x, y) => BothSupported(t, e, x, y);
    case Compl(x, _) => AcceptedSupported(t.x, x);
    case Identity(x) => AcceptedSupported(t.x, x);
    case IdentityUnion(x) => AcceptedSupported(t.x, x);
    case Inverse(x) => AcceptedSupported(t.x, x);
    case App(_, x, _) => AcceptedSupported(t.x, x);
  }

  lemma {:induction false} BothSupported(t: Exp<Ty>, e: Exp<()>, x: Exp<()>, y: Exp<()>)
    requires t.Union? || t.Inter? || t.Diff? || t.Seq? || t.Cartesian?
    requires x < e && y < e && Typed(BUILTINS, t.x) && Typed(BUILTINS, t.y) && Annotates(t.x, x) && Annotates(t.y, y)
    requires LetFree(x) && LetFree(y) && WithoutDomain(x) && WithoutDomain(y)
    ensures Supported(t.x) && Supported(t.y)
    decreases e, 0
  {
    AcceptedSupported(t.x, x);
    AcceptedSupported(t.y, y);
  }

  /** Inference is enough: whatever it makes of an expression without `let` and `domain` compiles, so the
      compiler may unwrap the result. */
  lemma AcceptedCompiles(t: Exp<Ty>, e: Exp<()>, c: EventId)
    requires Typed(BUILTINS, t) && Annotates(t, e) && LetFree(e) && WithoutDomain(e)
    ensures CompileToplevel(t, c).r.Ok?
  {
    AcceptedSupported(t, e);
    CompilesExactly(t, 1, 2, c);
  }
}
