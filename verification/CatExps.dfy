/** Cat expressions: relation algebra over events, their types and the sets and relations they denote. */
module CatExps {
  import opened Sexps

  datatype Ty = Rel | Set

  datatype Exp<T> =
    | Empty(ty: T)
    | Id(name: string, ty: T)
    | Let(name: string, x: Exp<T>, y: Exp<T>, ty: T)
    | TryWith(x: Exp<T>, y: Exp<T>, ty: T)
    | Union(x: Exp<T>, y: Exp<T>, ty: T)
    | Inter(x: Exp<T>, y: Exp<T>, ty: T)
    | Diff(x: Exp<T>, y: Exp<T>, ty: T)
    | Seq(x: Exp<T>, y: Exp<T>)
    | Cartesian(x: Exp<T>, y: Exp<T>)
    | Compl(x: Exp<T>, ty: T)
    | Identity(x: Exp<T>)
    | IdentityUnion(x: Exp<T>)
    | Inverse(x: Exp<T>)
    | App(fn: string, x: Exp<T>, ty: T)

  function TyOf(e: Exp<Ty>): Ty {
    match e
    case Empty(ty) => ty
    case Id(_, ty) => ty
    case Let(_, _, _, ty) => ty
    case TryWith(_, _, ty) => ty
    case Union(_, _, ty) => ty
    case Inter(_, _, ty) => ty
    case Diff(_, _, ty) => ty
    case Seq(_, _) => Rel
    case Cartesian(_, _) => Rel
    case Compl(_, ty) => ty
    case Identity(_) => Rel
    case IdentityUnion(_) => Rel
    case Inverse(_) => Rel
    case App(_, _, ty) => ty
  }

  type Signatures = map<string, (Ty, Ty)>

  /** The functions every cat model may use. */
  const BUILTINS: Signatures := map[
    "domain" := (Rel, Set), "range" := (Rel, Set), "fencerel" := (Set, Rel), "ctrlcfence" := (Set, Rel)]

  /** Every annotation agrees with the types of the parts. */
  predicate Typed(fns: Signatures, e: Exp<Ty>) {
    match e
    case Empty(_) => true
    case Id(_, _) => true
    case Let(_, x, y, ty) => Typed(fns, x) && Typed(fns, y) && TyOf(y) == ty
    case TryWith(x, y, ty) => Typed(fns, x) && Typed(fns, y) && TyOf(x) == TyOf(y) == ty
    case Union(x, y, ty) => Typed(fns, x) && Typed(fns, y) && TyOf(x) == TyOf(y) == ty
    case Inter(x, y, ty) => Typed(fns, x) && Typed(fns, y) && TyOf(x) == TyOf(y) == ty
    case Diff(x, y, ty) => Typed(fns, x) && Typed(fns, y) && TyOf(x) == TyOf(y) == ty
    case Seq(x, y) => Typed(fns, x) && Typed(fns, y) && TyOf(x) == TyOf(y) == Rel
    case Cartesian(x, y) => Typed(fns, x) && Typed(fns, y) && TyOf(x) == TyOf(y) == Set
    case Compl(x, ty) => Typed(fns, x) && TyOf(x) == ty
    case Identity(x) => Typed(fns, x) && TyOf(x) == Set
    case IdentityUnion(x) => Typed(fns, x) && TyOf(x) == Rel
    case Inverse(x) => Typed(fns, x) && TyOf(x) == Rel
    case App(f, x, ty) => f in fns && Typed(fns, x) && TyOf(x) == fns[f].0 && ty == fns[f].1
  }

  /** The compiler panics on `Let`, and on every function except `range` where a set is expected. */
  predicate Supported(e: Exp<Ty>) {
    match e
    case Empty(_) => true
    case Id(_, _) => true
    case Let(_, _, _, _) => false
    case App(f, x, ty) => ty.Rel? || (f == "range" && Supported(x))
    case TryWith(x, _, _) => Supported(x)
    case Union(x, y, _) => Supported(x) && Supported(y)
    case Inter(x, y, _) => Supported(x) && Supported(y)
    case Diff(x, y, _) => Supported(x) && Supported(y)
    case Seq(x, y) => Supported(x) && Supported(y)
    case Cartesian(x, y) => Supported(x) && Supported(y)
    case Compl(x, _) => Supported(x)
    case Identity(x) => Supported(x)
    case IdentityUnion(x) => Supported(x)
    case Inverse(x) => Supported(x)
  }

  /** Event `a` is in the set denoted by `e`. */
  ghost predicate InSet(e: Exp<Ty>, m: Interp, a: Event) {
    match e
    case Empty(_) => false
    case Id(name, _) => name == "_" || (name != "emptyset" && m.Member(name, a))
    case TryWith(x, _, _) => InSet(x, m, a)
    case Union(x, y, _) => InSet(x, m, a) || InSet(y, m, a)
    case Inter(x, y, _) => InSet(x, m, a) && InSet(y, m, a)
    case Diff(x, y, _) => InSet(x, m, a) && !InSet(y, m, a)
    case Compl(x, _) => !InSet(x, m, a)
    case App(f, x, _) => f == "range" && exists d | d in m.dom :: InRel(x, m, d, a)
    case _ => false
  }

  /** The pair (a, b) is in the relation denoted by `e`. Functions that yield relations denote the
      empty relation, as the compiler treats them. */
  ghost predicate InRel(e: Exp<Ty>, m: Interp, a: Event, b: Event) {
    match e
    case Empty(_) => false
    case Id(name, _) => if name == "id" then a == b else m.Rel(name, a, b)
    case TryWith(x, _, _) => InRel(x, m, a, b)
    case Union(x, y, _) => InRel(x, m, a, b) || InRel(y, m, a, b)
    case Inter(x, y, _) => InRel(x, m, a, b) && InRel(y, m, a, b)
    case Diff(x, y, _) => InRel(x, m, a, b) && !InRel(y, m, a, b)
    case Seq(x, y) => exists c | c in m.dom :: InRel(x, m, a, c) && InRel(y, m, c, b)
    case Cartesian(x, y) => InSet(x, m, a) && InSet(y, m, b)
    case Compl(x, _) => !InRel(x, m, a, b)
    case Identity(x) => InSet(x, m, a) && a == b
    case IdentityUnion(x) => InRel(x, m, a, b) || a == b
    case Inverse(x) => InRel(x, m, b, a)
    case _ => false
  }

  /** Membership by type: a set ignores the second event. */
  ghost predicate Denotes(e: Exp<Ty>, m: Interp, a: Event, b: Event) {
    if TyOf(e).Rel? then InRel(e, m, a, b) else InSet(e, m, a)
  }
}
