/** Machine words as natural numbers, with the bitwise operations of the program spelled out bit by
    bit. The lemmas turn masks and shifts into division and remainder, once, for every user. */
module Words {

  function Pow2(n: nat): (p: nat)
    ensures p >= 1
  {
    if n == 0 then 1 else 2 * Pow2(n - 1)
  }

  /** The number of 64-bit words. */
  const WORD := 0x1_0000_0000_0000_0000

  function BitAnd(x: nat, y: nat): nat {
    if x == 0 then 0 else 2 * BitAnd(x / 2, y / 2) + (x % 2) * (y % 2)
  }

  function BitOr(x: nat, y: nat): nat
    decreases x + y
  {
    if x == 0 && y == 0 then 0
    else 2 * BitOr(x / 2, y / 2) + (if x % 2 == 1 || y % 2 == 1 then 1 else 0)
  }

  function Div(x: nat, p: nat): nat
    requires p > 0
  {
    x / p
  }

  function Shr(x: nat, n: nat): nat { Div(x, Pow2(n)) }

  /** `x << n` on a 64-bit word: the bits shifted out are lost. */
  function Shl64(x: nat, n: nat): nat { x * Pow2(n) % WORD }

  /** `bzhi_u64`: clear every bit from position `len` up. */
  function Bzhi(x: nat, len: nat): nat { BitAnd(x, Pow2(len) - 1) }

  /** `!x` on a 64-bit word. */
  function Not64(x: nat): nat
    requires x < WORD
  {
    WORD - 1 - x
  }

  lemma {:induction false} PowAdd(m: nat, n: nat)
    ensures Pow2(m + n) == Pow2(m) * Pow2(n)
    decreases m
  {
    if m > 0 {
      PowAdd(m - 1, n);
      assert Pow2(m + n) == 2 * (Pow2(m - 1) * Pow2(n));
    }
  }

  lemma {:induction false} PowMono(m: nat, n: nat)
    requires m <= n
    ensures Pow2(m) <= Pow2(n)
    decreases n
  {
    if m < n { PowMono(m, n - 1); }
  }

  lemma MulGe(d: int, p: nat)
    ensures d >= 1 ==> d * p >= p
    ensures d <= -1 ==> d * p <= 0 - p
  {
  }

  lemma DivMod(x: nat, p: nat, q: nat, r: nat)
    requires r < p && x == q * p + r
    ensures x / p == q && x % p == r
  {
    DivisionOf(x, p);
    MulGe(x / p - q, p);
  }

  lemma PowStep(k: nat)
    ensures k > 0 ==> Pow2(k) == 2 * Pow2(k - 1)
    ensures Pow2(0) == 1
  {
  }

  /** Both operations work separately above and below any bit position. */
  lemma {:induction false} SplitAnd(x: nat, y: nat, a: nat, b: nat, c: nat, d: nat, k: nat)
    requires b < Pow2(k) && d < Pow2(k)
    requires x == a * Pow2(k) + b && y == c * Pow2(k) + d
    ensures BitAnd(x, y) == BitAnd(a, c) * Pow2(k) + BitAnd(b, d)
    decreases k
  {
    PowStep(k);
    if k == 0 {
      assert x == a && y == c && b == 0 && d == 0;
    } else {
      hide *;
      var p := Pow2(k - 1);
      Halves(x, a, b, p);
      Halves(y, c, d, p);
      SplitAnd(x / 2, y / 2, a, b / 2, c, d / 2, k - 1);
      StepAnd(x, y, b, d, BitAnd(a, c) * p);
      Doubled(BitAnd(a, c), p);
    }
  }

  lemma {:induction false} SplitOr(x: nat, y: nat, a: nat, b: nat, c: nat, d: nat, k: nat)
    requires b < Pow2(k) && d < Pow2(k)
    requires x == a * Pow2(k) + b && y == c * Pow2(k) + d
    ensures BitOr(x, y) == BitOr(a, c) * Pow2(k) + BitOr(b, d)
    decreases k
  {
    PowStep(k);
    if k == 0 {
      assert x == a && y == c && b == 0 && d == 0;
    } else {
      hide *;
      var p := Pow2(k - 1);
      Halves(x, a, b, p);
      Halves(y, c, d, p);
      SplitOr(x / 2, y / 2, a, b / 2, c, d / 2, k - 1);
      StepOr(x, y, b, d, BitOr(a, c) * p);
      Doubled(BitOr(a, c), p);
    }
  }

  lemma Doubled(a: nat, p: nat)
    ensures a * (2 * p) == 2 * (a * p)
  {
  }

  lemma Halves(x: nat, a: nat, b: nat, p: nat)
    requires x == a * (2 * p) + b
    ensures x / 2 == a * p + b / 2 && x % 2 == b % 2
  {
    Doubled(a, p);
  }

  lemma StepAnd(x: nat, y: nat, b: nat, d: nat, m: nat)
    requires x % 2 == b % 2 && y % 2 == d % 2
    requires BitAnd(x / 2, y / 2) == m + BitAnd(b / 2, d / 2)
    ensures BitAnd(x, y) == 2 * m + BitAnd(b, d)
  {
    UnfoldAnd(x, y);
    UnfoldAnd(b, d);
  }

  lemma StepOr(x: nat, y: nat, b: nat, d: nat, m: nat)
    requires x % 2 == b % 2 && y % 2 == d % 2
    requires BitOr(x / 2, y / 2) == m + BitOr(b / 2, d / 2)
    ensures BitOr(x, y) == 2 * m + BitOr(b, d)
  {
    UnfoldOr(x, y);
    UnfoldOr(b, d);
  }

  lemma UnfoldAnd(x: nat, y: nat)
    ensures BitAnd(x, y) == 2 * BitAnd(x / 2, y / 2) + (x % 2) * (y % 2)
  {
  }

  lemma UnfoldOr(x: nat, y: nat)
    ensures BitOr(x, y) == 2 * BitOr(x / 2, y / 2) + (if x % 2 == 1 || y % 2 == 1 then 1 else 0)
  {
  }

  lemma {:induction false} AndZero(x: nat)
    ensures BitAnd(x, 0) == 0 && BitAnd(0, x) == 0
    decreases x
  {
    if x > 0 { AndZero(x / 2); }
  }

  lemma {:induction false} OrZero(x: nat)
    ensures BitOr(x, 0) == x && BitOr(0, x) == x
    decreases x
  {
    if x > 0 { OrZero(x / 2); }
  }

  lemma {:induction false} AndOnes(x: nat, n: nat)
    requires x < Pow2(n)
    ensures BitAnd(x, Pow2(n) - 1) == x
    decreases n
  {
    if n > 0 { AndOnes(x / 2, n - 1); }
  }

  lemma {:induction false} OrSym(x: nat, y: nat)
    ensures BitOr(x, y) == BitOr(y, x)
    decreases x + y
  {
    if x + y > 0 { OrSym(x / 2, y / 2); }
  }

  lemma DivisionOf(x: nat, p: nat)
    requires p > 0
    ensures x == (x / p) * p + x % p && 0 <= x % p < p
  {
  }

  /** Masking with n ones from bit k selects that field and nothing else. */
  lemma AndField(x: nat, m: nat, k: nat, n: nat)
    requires m == (Pow2(n) - 1) * Pow2(k)
    ensures BitAnd(x, m) == (x / Pow2(k) % Pow2(n)) * Pow2(k)
  {
    hide Pow2;
    var h, l := x / Pow2(k), x % Pow2(k);
    DivisionOf(x, Pow2(k));
    SplitAnd(x, m, h, l, Pow2(n) - 1, 0, k);
    AndZero(l);
    AndLow(h, n);
  }

  /** Masking with 2^n - 1 is the remainder modulo 2^n. */
  lemma AndLow(x: nat, n: nat)
    ensures BitAnd(x, Pow2(n) - 1) == x % Pow2(n)
  {
    hide Pow2;
    var h, l := x / Pow2(n), x % Pow2(n);
    DivisionOf(x, Pow2(n));
    SplitAnd(x, Pow2(n) - 1, h, l, 0, Pow2(n) - 1, n);
    AndZero(h);
    AndOnes(l, n);
  }

  lemma QuotientBound(x: nat, p: nat, q: nat)
    requires p > 0 && x < q * p
    ensures x / p < q
  {
    DivisionOf(x, p);
    MulGe(x / p - q + 1, p);
  }

  lemma Pow64()
    ensures Pow2(64) == WORD
  {
    assert Pow2(8) == 0x100;
    hide Pow2;
    PowAdd(8, 8);
    PowAdd(16, 16);
    PowAdd(32, 32);
  }

  lemma WordFactors(k: nat)
    requires k <= 64
    ensures Pow2(64 - k) * Pow2(k) == WORD && Pow2(k) <= WORD
  {
    hide Pow2;
    Pow64();
    PowAdd(64 - k, k);
    PowMono(k, 64);
  }

  lemma OneLess(q: nat, p: nat)
    ensures (q - 1) * p == q * p - p
  {
  }

  /** Clearing the low k bits of a 64-bit word. */
  lemma ClearLow(x: nat, k: nat)
    requires x < WORD && k <= 64
    ensures Pow2(k) <= WORD
    ensures BitAnd(x, Not64(Pow2(k) - 1)) == x - x % Pow2(k)
  {
    hide Pow2;
    WordFactors(k);
    OneLess(Pow2(64 - k), Pow2(k));
    AndField(x, Not64(Pow2(k) - 1), k, 64 - k);
    FloorTo(x, Pow2(k), Pow2(64 - k));
  }

  lemma FloorTo(x: nat, p: nat, q: nat)
    requires p > 0 && q > 0 && x < q * p
    ensures (x / p % q) * p == x - x % p
  {
    QuotientBound(x, p, q);
    DivisionOf(x, p);
    SmallMod(x / p, q);
  }

  lemma SmallMod(x: nat, q: nat)
    requires x < q
    ensures x % q == x
  {
  }

  /** A low part fits under a multiple of 2^k without touching it. */
  lemma OrDisjoint(a: nat, b: nat, k: nat)
    requires b < Pow2(k)
    ensures BitOr(a * Pow2(k), b) == a * Pow2(k) + b
  {
    SplitOr(a * Pow2(k), b, a, 0, 0, b, k);
    OrZero(a);
    OrZero(b);
  }
}
