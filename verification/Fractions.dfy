/** The credit carried by tasks: fractions whose denominator is a power of two. */
module Fractions {
  import opened Words

  datatype Frac = Frac(num: nat, pow: nat) {
    ghost function Value(): real { num as real / Pow2(pow) as real }

    function Half(): Frac { Frac(num, pow + 1) }

    function DividePow(n: nat): Frac { Frac(num * Pow2(n), pow + n) }

    /** What `min_split` splits: a numerator of one is first refined by 2^n. */
    function Refined(n: nat): Frac { if num == 1 then DividePow(n) else this }

    /** What `min_split` leaves behind: one unit of the refined denominator. */
    function Kept(n: nat): Frac { Frac(1, Refined(n).pow) }

    /** What `min_split` hands out: everything but that unit. */
    function Rest(n: nat): Frac
      requires num >= 1
    {
      Frac(Refined(n).num - 1, Refined(n).pow)
    }

    function Add(other: Frac): Frac {
      if pow < other.pow then Frac(num * Pow2(other.pow - pow) + other.num, other.pow)
      else Frac(num + other.num * Pow2(pow - other.pow), pow)
    }

    predicate IsOne() { num == Pow2(pow) }
  }

  const ZERO := Frac(0, 0)
  const ONE := Frac(1, 0)

  lemma Ratio(a: real, p: real, q: real)
    requires p > 0.0 && q > 0.0
    ensures (a * q) / (p * q) == a / p
  {
    var r := a / p;
    assert r * (p * q) == (r * p) * q;
  }

  lemma Sum(a: real, b: real, p: real)
    requires p > 0.0
    ensures a / p + b / p == (a + b) / p
  {
  }

  lemma Unit(a: real, p: real)
    requires p > 0.0
    ensures (1.0 / p) * a == a / p
  {
  }

  lemma Sign(a: real, p: real)
    requires a >= 0.0 && p > 0.0
    ensures a / p >= 0.0
    ensures a / p == 0.0 <==> a == 0.0
    ensures a / p == 1.0 <==> a == p
  {
    var r := a / p;
    assert a == r * p;
  }

  lemma Scaled(f: Frac, n: nat)
    ensures f.DividePow(n).Value() == f.Value()
  {
    PowAdd(f.pow, n);
    Casts(f.num, Pow2(n));
    Casts(Pow2(f.pow), Pow2(n));
    Ratio(f.num as real, Pow2(f.pow) as real, Pow2(n) as real);
  }

  lemma Casts(x: nat, y: nat)
    ensures (x * y) as real == x as real * y as real
  {
  }

  lemma HalfValue(f: Frac)
    ensures f.Half().Value() + f.Half().Value() == f.Value()
  {
    var a, p := f.num as real, Pow2(f.pow) as real;
    Ratio(a, p, 2.0);
    Sum(a, a, p * 2.0);
  }

  lemma SplitValue(f: Frac, n: nat)
    requires f.num >= 1
    ensures f.Kept(n).Value() + f.Rest(n).Value() == f.Value()
    ensures f.Kept(n).num >= 1 && (n > 0 ==> f.Rest(n).num >= 1)
    ensures f.num == 1 ==> f.Kept(n).Value() * Pow2(n) as real == f.Value()
  {
    Scaled(f, n);
    hide Pow2;
    var r := f.Refined(n);
    var a, p := r.num as real, Pow2(r.pow) as real;
    Sum(1.0, a - 1.0, p);
    Unit(a, p);
    PowStep(n);
  }

  lemma AddValue(f: Frac, g: Frac)
    ensures f.Add(g).Value() == f.Value() + g.Value()
  {
    var f', g' := f, g;
    if f.pow < g.pow {
      Scaled(f, g.pow - f.pow);
      f' := f.DividePow(g.pow - f.pow);
    } else {
      Scaled(g, f.pow - g.pow);
      g' := g.DividePow(f.pow - g.pow);
    }
    Sum(f'.num as real, g'.num as real, Pow2(f'.pow) as real);
  }

  lemma ValueSign(f: Frac)
    ensures f.Value() >= 0.0
    ensures f.Value() == 0.0 <==> f.num == 0
    ensures f.Value() == 1.0 <==> f.IsOne()
  {
    Sign(f.num as real, Pow2(f.pow) as real);
  }

  /** The mutable fraction of the program, tied to the value it stands for. */
  class Fraction {
    var num: nat
    var denomPow: nat

    function View(): Frac reads this { Frac(num, denomPow) }

    constructor Zero()
      ensures View().Value() == 0.0
    {
      num, denomPow := 0, 0;
    }

    constructor One()
      ensures View().Value() == 1.0
    {
      num, denomPow := 1, 0;
    }

    constructor Of(f: Frac)
      ensures View() == f
    {
      num, denomPow := f.num, f.pow;
    }

    method Halve()
      modifies this
      ensures View() == old(View()).Half()
      ensures View().Value() == old(View()).Value() / 2.0
    {
      HalfValue(View());
      denomPow := denomPow + 1;
    }

    method DividePow(pow: nat)
      requires pow < 64
      modifies this
      ensures View() == old(View()).DividePow(pow)
      ensures View().Value() == old(View()).Value()
    {
      Scaled(View(), pow);
      num := num * Pow2(pow);
      denomPow := denomPow + pow;
    }

    method MinSplit(pow: nat) returns (split: Fraction)
      requires pow < 64 && num >= 1
      modifies this
      ensures fresh(split)
      ensures View() == old(View()).Kept(pow) && split.View() == old(View()).Rest(pow)
      ensures View().Value() + split.View().Value() == old(View()).Value()
    {
      SplitValue(View(), pow);
      if num == 1 {
        DividePow(pow);
      }
      split := new Fraction.Of(Frac(num - 1, denomPow));
      num := 1;
    }

    method IsOne() returns (b: bool)
      ensures b <==> View().Value() == 1.0
    {
      ValueSign(View());
      b := num == Pow2(denomPow);
    }

    /** `rhs` is passed by value: the method aligns a copy of it. */
    method AddAssign(rhs: Frac)
      modifies this
      ensures View() == old(View()).Add(rhs)
      ensures View().Value() == old(View()).Value() + rhs.Value()
    {
      AddValue(View(), rhs);
      var rhsNum := rhs.num;
      if denomPow < rhs.pow {
        num := num * Pow2(rhs.pow - denomPow);
        denomPow := rhs.pow;
      } else if denomPow > rhs.pow {
        rhsNum := rhsNum * Pow2(denomPow - rhs.pow);
      }
      num := num + rhsNum;
    }
  }
}
