/** Enumerating every choice of one path per thread, with a counter that has one digit per thread. */
module Candidates {
  import opened Wrappers
  import opened Words

  // ----- choices as numbers

  predicate InRange(digits: seq<nat>, max: seq<nat>) {
    |digits| == |max| && forall i | 0 <= i < |max| :: digits[i] < max[i]
  }

  /** How many choices there are from thread `c` on. */
  function Product(max: seq<nat>, c: nat): nat
    requires c <= |max|
    decreases |max| - c
  {
    if c == |max| then 1 else max[c] * Product(max, c + 1)
  }

  /** The number of a choice; the first thread is the fastest digit. */
  function Rank(digits: seq<nat>, max: seq<nat>, c: nat): nat
    requires |digits| == |max| && c <= |max|
    decreases |max| - c
  {
    if c == |max| then 0 else digits[c] + max[c] * Rank(digits, max, c + 1)
  }

  /** The choice with a number. */
  function Digits(max: seq<nat>, c: nat, k: nat): seq<nat>
    requires c <= |max| && k < Product(max, c)
    ensures |Digits(max, c, k)| == |max| - c
    decreases |max| - c
  {
    if c == |max| then []
    else
      SplitDigit(max[c], Product(max, c + 1), k);
      [k % max[c]] + Digits(max, c + 1, k / max[c])
  }

  lemma SplitDigit(m: nat, p: nat, k: nat)
    requires k < m * p
    ensures m > 0 && 0 <= k / m < p
  {
    if m > 0 { QuotientBound(k, m, p); }
  }

  lemma Products(m: nat, r: nat, p: nat)
    requires r < p
    ensures m * r == r * m && m * r + m <= m * p
  {
    assert m * (r + 1) <= m * p;
  }

  lemma JoinDigit(m: nat, p: nat, d: nat, r: nat)
    requires d < m && r < p
    ensures d + m * r < m * p && (d + m * r) % m == d && (d + m * r) / m == r
  {
    Products(m, r, p);
    DivMod(d + m * r, m, r, d);
  }

  lemma {:induction false} RankBounded(digits: seq<nat>, max: seq<nat>, c: nat)
    requires InRange(digits, max) && c <= |max|
    ensures Rank(digits, max, c) < Product(max, c)
    decreases |max| - c
  {
    if c < |max| {
      RankBounded(digits, max, c + 1);
      JoinDigit(max[c], Product(max, c + 1), digits[c], Rank(digits, max, c + 1));
    }
  }

  lemma {:induction false} DigitsOfRank(digits: seq<nat>, max: seq<nat>, c: nat)
    requires InRange(digits, max) && c <= |max|
    ensures Rank(digits, max, c) < Product(max, c) && Digits(max, c, Rank(digits, max, c)) == digits[c..]
    decreases |max| - c
  {
    RankBounded(digits, max, c);
    if c < |max| {
      RankBounded(digits, max, c + 1);
      DigitsOfRank(digits, max, c + 1);
      JoinDigit(max[c], Product(max, c + 1), digits[c], Rank(digits, max, c + 1));
      assert digits[c..] == [digits[c]] + digits[c + 1..];
    }
  }

  lemma {:induction false} RankOfDigits(max: seq<nat>, c: nat, k: nat, digits: seq<nat>)
    requires c <= |max| && k < Product(max, c) && |digits| == |max| && digits[c..] == Digits(max, c, k)
    ensures Rank(digits, max, c) == k && forall i | c <= i < |max| :: digits[i] < max[i]
    decreases |max| - c
  {
    if c < |max| {
      SplitDigit(max[c], Product(max, c + 1), k);
      assert digits[c] == digits[c..][0] && digits[c + 1..] == digits[c..][1..];
      RankOfDigits(max, c + 1, k / max[c], digits);
    }
  }

  /** Counting from zero up to the product meets every choice, and none twice. */
  lemma EveryChoiceOnce(max: seq<nat>, digits: seq<nat>)
    requires |digits| == |max|
    ensures InRange(digits, max) ==> exists k: nat :: k < Product(max, 0) && Digits(max, 0, k) == digits
    ensures forall k: nat | k < Product(max, 0) && Digits(max, 0, k) == digits :: InRange(digits, max) && k == Rank(digits, max, 0)
  {
    assert digits[0..] == digits;
    if InRange(digits, max) { DigitsOfRank(digits, max, 0); }
    forall k: nat | k < Product(max, 0) && Digits(max, 0, k) == digits
      ensures InRange(digits, max) && k == Rank(digits, max, 0)
    {
      RankOfDigits(max, 0, k, digits);
    }
  }

  lemma {:induction false} EmptyThread(max: seq<nat>, c: nat)
    requires c <= |max|
    ensures Product(max, c) == 0 <==> exists i :: c <= i < |max| && max[i] == 0
    decreases |max| - c
  {
    if c < |max| { EmptyThread(max, c + 1); }
  }

  // ----- the counter

  /** Adds one to the digits from `carry` on; true when they have all wrapped round. */
  method IncrementIndex(index: array<nat>, max: seq<nat>, carry: nat) returns (over: bool)
    requires carry <= index.Length == |max| && InRange(index[..], max)
    modifies index
    ensures InRange(index[..], max) && index[..carry] == old(index[..carry])
    ensures !over ==> Rank(index[..], max, carry) == old(Rank(index[..], max, carry)) + 1
    ensures over ==> Rank(index[..], max, carry) == 0 && old(Rank(index[..], max, carry)) + 1 == Product(max, carry)
    decreases index.Length - carry
  {
    if carry == index.Length { return true; }
    ghost var before := index[..];
    var digit := index[carry] + 1;
    if digit == max[carry] {
      index[carry] := 0;
      SuffixRank(before, index[..], max, carry + 1);
      over := IncrementIndex(index, max, carry + 1);
      assert index[carry] == index[..carry + 1][carry] == 0;
      Carried(max[carry], Rank(before, max, carry + 1));
    } else {
      index[carry] := digit;
      SuffixRank(before, index[..], max, carry + 1);
      over := false;
    }
  }

  lemma Carried(m: nat, r: nat)
    ensures m * (r + 1) == m - 1 + m * r + 1
  {
  }

  lemma {:induction false} SuffixRank(a: seq<nat>, b: seq<nat>, max: seq<nat>, c: nat)
    requires |a| == |b| == |max| && c <= |max| && forall i | c <= i < |max| :: a[i] == b[i]
    ensures Rank(a, max, c) == Rank(b, max, c)
    decreases |max| - c
  {
    if c < |max| { SuffixRank(a, b, max, c + 1); }
  }

  function Sizes<T>(threads: seq<seq<T>>): seq<nat> { seq(|threads|, i requires 0 <= i < |threads| => |threads[i]|) }

  function Chosen<T>(threads: seq<seq<T>>, digits: seq<nat>): seq<T>
    requires InRange(digits, Sizes(threads))
  {
    seq(|threads|, i requires 0 <= i < |threads| =>
      (assert digits[i] < Sizes(threads)[i]; threads[i][digits[i]]))
  }

  class Candidates<T> {
    const threads: seq<seq<T>>
    const index: array<nat>
    const maxIndex: seq<nat>
    var outOfBounds: bool

    ghost predicate Valid()
      reads this, index
    {
      && index.Length == |threads| && maxIndex == Sizes(threads)
      && (!outOfBounds ==> InRange(index[..], maxIndex))
    }

    /** How many candidates there are to give, in all. */
    ghost function All(): nat { Product(Sizes(threads), 0) }

    /** How many have been given. */
    ghost function Given(): nat
      requires Valid()
      reads this, index
    {
      if outOfBounds then All() else Rank(index[..], maxIndex, 0)
    }

    constructor (threads: seq<seq<T>>)
      ensures Valid() && fresh(index) && this.threads == threads && Given() == 0
    {
      this.threads := threads;
      index := new nat[|threads|](i => 0);
      maxIndex := Sizes(threads);
      outOfBounds := exists i :: 0 <= i < |threads| && |threads[i]| == 0;
      new;
      EmptyThread(maxIndex, 0);
      if outOfBounds {
        var i :| 0 <= i < |threads| && |threads[i]| == 0;
        assert maxIndex[i] == 0;
      } else {
        ZeroRank(index[..], maxIndex, 0);
      }
    }

    /** The number of candidates — except that for no threads at all this says none, where one, empty,
        is given. */
    method Total() returns (n: nat)
      requires Valid()
      ensures n == if threads == [] then 0 else All()
      ensures threads == [] ==> All() == 1
    {
      if threads == [] { return 0; }
      n := 1;
      var i := |maxIndex|;
      while i > 0
        invariant 0 <= i <= |maxIndex| && n == Product(maxIndex, i)
      {
        i := i - 1;
        n := maxIndex[i] * n;
      }
    }

    /** Gives the candidates in the order of their numbers, and then none for ever. */
    method Next() returns (r: Option<seq<T>>)
      requires Valid()
      modifies this, index
      ensures Valid()
      ensures old(Given()) < All() ==>
                && Given() == old(Given()) + 1
                && var digits := Digits(Sizes(threads), 0, old(Given()));
                   InRange(digits, Sizes(threads)) && r == Some(Chosen(threads, digits))
      ensures old(Given()) >= All() ==> r == None && Given() == old(Given())
    {
      if outOfBounds { return None; }
      ghost var digits := index[..];
      DigitsOfRank(digits, maxIndex, 0);
      assert digits[0..] == digits;
      var result: seq<T> := [];
      for i := 0 to |threads|
        invariant |result| == i && forall j | 0 <= j < i :: index[j] < |threads[j]| && result[j] == threads[j][index[j]]
      {
        assert index[..][i] < maxIndex[i];
        result := result + [threads[i][index[i]]];
      }
      r := Some(result);
      assert result == Chosen(threads, digits);
      outOfBounds := IncrementIndex(index, maxIndex, 0);
    }
  }

  lemma {:induction false} ZeroRank(digits: seq<nat>, max: seq<nat>, c: nat)
    requires |digits| == |max| && c <= |max| && forall i | 0 <= i < |digits| :: digits[i] == 0
    ensures Rank(digits, max, c) == 0
    decreases |max| - c
  {
    if c < |max| { ZeroRank(digits, max, c + 1); }
  }
}
