/** Bit-vectors as text: the printer for 64-bit words and the parser. */
module BitText {
  import opened Wrappers
  import opened Words

  /** What parsing a string gives; a panic is the source indexing outside a string or a vector. */
  datatype Parse = Bits(value: seq<bool>) | NoParse | Panic

  /** Bit `i` of a number. */
  predicate BitOf(x: nat, i: nat) { Shr(x, i) % 2 == 1 }

  /** The low bits of a number, lowest first. */
  function LowBits(x: nat, len: nat): seq<bool> { seq(len, i requires 0 <= i < len => BitOf(x, i)) }

  // ----- digits

  function HexDigit(d: nat): char
    requires d < 16
  {
    "0123456789abcdef"[d]
  }

  function ToDigit(c: char): (d: Option<nat>)
    ensures d.Some? ==> d.value < 16
  {
    if '0' <= c <= '9' then Some((c - '0') as nat)
    else if 'a' <= c <= 'f' then Some((c - 'a') as nat + 10)
    else if 'A' <= c <= 'F' then Some((c - 'A') as nat + 10)
    else None
  }

  lemma DigitBack(d: nat)
    requires d < 16
    ensures ToDigit(HexDigit(d)) == Some(d)
  {
  }

  function Nibble(d: nat): (bits: seq<bool>)
    ensures |bits| == 4
  {
    [d % 2 == 1, d / 2 % 2 == 1, d / 4 % 2 == 1, d / 8 % 2 == 1]
  }

  // ----- text

  /** The `n` lowest hexadecimal digits, highest first. */
  function HexText(x: nat, n: nat): (s: string)
    ensures |s| == n
  {
    if n == 0 then "" else [HexDigit(Shr(x, 4 * (n - 1)) % 16)] + HexText(x, n - 1)
  }

  function BinText(x: nat, n: nat): (s: string)
    ensures |s| == n
  {
    if n == 0 then "" else [if BitOf(x, n - 1) then '1' else '0'] + BinText(x, n - 1)
  }

  function Text(x: nat, len: nat): string {
    if len % 4 == 0 then "#x" + HexText(x, len / 4) else "#b" + BinText(x, len)
  }

  method WriteHex(bits: nat, n: nat) returns (text: string)
    ensures text == HexText(bits, n)
  {
    text := "";
    var i := n;
    while i > 0
      invariant 0 <= i <= n && text + HexText(bits, i) == HexText(bits, n)
    {
      i := i - 1;
      AndLow(Shr(bits, i * 4), 4);
      Power16();
      ghost var before := text;
      var d := BitAnd(Shr(bits, i * 4), 0xF);
      hide BitAnd, Shr, HexDigit, Pow2;
      assert HexText(bits, i + 1) == [HexDigit(d)] + HexText(bits, i);
      text := text + [HexDigit(d)];
      assert before + HexText(bits, i + 1) == text + HexText(bits, i);
    }
  }

  method WriteBin(bits: nat, n: nat) returns (text: string)
    ensures text == BinText(bits, n)
  {
    text := "";
    var i := n;
    while i > 0
      invariant 0 <= i <= n && text + BinText(bits, i) == BinText(bits, n)
    {
      i := i - 1;
      AndLow(Shr(bits, i), 1);
      assert Pow2(1) == 2;
      ghost var before := text;
      var bit := BitAnd(Shr(bits, i), 1);
      hide BitAnd, Shr, Pow2;
      assert BinText(bits, i + 1) == [if bit == 1 then '1' else '0'] + BinText(bits, i);
      text := text + [if bit == 1 then '1' else '0'];
      assert before + BinText(bits, i + 1) == text + BinText(bits, i);
    }
  }

  method WriteBits64(bits: nat, len: nat) returns (text: string)
    requires bits < WORD && len <= 64
    ensures text == Text(bits, len)
  {
    if len == 4 {
      AndLow(bits, 4);
      Power16();
      assert Shr(bits, 0) == bits;
      text := "#x" + [HexDigit(BitAnd(bits, 0xF))];
    } else if len % 4 == 0 {
      var digits := WriteHex(bits, len / 4);
      text := "#x" + digits;
    } else {
      var digits := WriteBin(bits, len);
      text := "#b" + digits;
    }
  }

  lemma Power16()
    ensures Pow2(4) == 16
  {
    assert Pow2(2) == 4;
    assert Pow2(3) == 8;
  }

  /** The bits of hexadecimal digits, lowest first; `None` if one is not a digit. */
  function HexBits(hex: string): Option<seq<bool>> {
    if hex == "" then Some([])
    else
      var n := |hex| - 1;
      var d, rest := ToDigit(hex[n]), HexBits(hex[..n]);
      if d.None? || rest.None? then None else Some(Nibble(d.value) + rest.value)
  }

  function BinBits(bin: string): Option<seq<bool>> {
    if bin == "" then Some([])
    else
      var n := |bin| - 1;
      var rest := BinBits(bin[..n]);
      if (bin[n] != '0' && bin[n] != '1') || rest.None? then None else Some([bin[n] == '1'] + rest.value)
  }

  function Parsed(bits: Option<seq<bool>>): Parse { if bits.None? then NoParse else Bits(bits.value) }

  predicate HasPrefix(s: string, c: char) { |s| >= 2 && (s[0] == '0' || s[0] == '#') && s[1] == c }

  /** How many characters from the start are digits. */
  function Leading(s: string): (n: nat)
    ensures n <= |s|
  {
    if s == "" || ToDigit(s[0]).None? then 0 else 1 + Leading(s[1..])
  }

  function Zeros(n: nat): (z: seq<bool>)
    ensures |z| == n
  {
    seq(n, _ => false)
  }

  /** A 129-bit capability: one tag bit, then at most 32 digits, which fill the other bits from the top.
      A 33rd character leaves the vector: at once in a build with overflow checks, and without them only
      if it is a digit. */
  function CapBits(checked: bool, cap: string): Parse {
    if cap == "" then Panic
    else if cap[0] != '0' && cap[0] != '1' then NoParse
    else
      var rest := cap[1..];
      var bits := HexBits(rest);
      if Leading(rest) == |rest| <= 32 && bits.Some? && |bits.value| <= 128 then
        Bits(Zeros(128 - |bits.value|) + bits.value + [cap[0] == '1'])
      else if Leading(rest) < 32 || (Leading(rest) == 32 && !checked) then NoParse
      else Panic
  }

  function ParseText(checked: bool, s: string): Parse {
    if HasPrefix(s, 'x') then Parsed(HexBits(s[2..]))
    else if HasPrefix(s, 'b') then Parsed(BinBits(s[2..]))
    else if HasPrefix(s, 'c') then CapBits(checked, s[2..])
    else NoParse
  }

  lemma {:induction false} HexLength(hex: string)
    ensures HexBits(hex).Some? ==> |HexBits(hex).value| == 4 * |hex|
    ensures HexBits(hex).Some? <==> Leading(hex) == |hex|
    decreases hex
  {
    if hex != "" {
      HexLength(hex[..|hex| - 1]);
      LeadingSnoc(hex);
    }
  }

  lemma {:induction false} LeadingSnoc(s: string)
    requires s != ""
    ensures var n := |s| - 1;
            Leading(s) == if Leading(s[..n]) < n then Leading(s[..n]) else if ToDigit(s[n]).Some? then n + 1 else n
    decreases s
  {
    var n := |s| - 1;
    if n > 0 && ToDigit(s[0]).Some? {
      LeadingSnoc(s[1..]);
      assert s[1..][..n - 1] == s[..n][1..];
    }
  }

  /** Once a character is not a digit, more characters change nothing. */
  lemma {:induction false} LeadingPrefix(s: string, k: nat)
    requires k <= |s|
    ensures Leading(s[..k]) == if Leading(s) < k then Leading(s) else k
    decreases s
  {
    if k > 0 && ToDigit(s[0]).Some? {
      LeadingPrefix(s[1..], k - 1);
      assert s[1..][..k - 1] == s[..k][1..];
    }
  }

  /** One more digit, or the first character that is not one. */
  lemma OneMore(cs: string, k: nat)
    requires k < |cs| && HexBits(cs[..k]).Some?
    ensures Leading(cs) >= k && |HexBits(cs[..k]).value| == 4 * k
    ensures var d := ToDigit(cs[k]);
            && (d.Some? ==> HexBits(cs[..k + 1]) == Some(Nibble(d.value) + HexBits(cs[..k]).value))
            && (if d.None? then Leading(cs) == k else Leading(cs) > k)
  {
    HexLength(cs[..k]);
    LeadingPrefix(cs, k);
    LeadingPrefix(cs, k + 1);
    assert cs[..k + 1][..k] == cs[..k];
    LeadingSnoc(cs[..k + 1]);
  }

  /** Fills a vector with the bits of digits, from bit `top` down; `ok` is false at a character that is not
      a digit, and `over` when the vector has no room for one. */
  method FillDigits(checked: bool, value: array<bool>, top: nat, cs: string) returns (k: nat, ok: bool, over: bool)
    requires top <= value.Length && top % 4 == 0
    modifies value
    ensures k <= |cs| && 4 * k <= top && !(over && !ok)
    ensures ok && !over ==> k == |cs| && HexBits(cs).Some?
    ensures over ==> k < |cs| && 4 * k == top && (if checked then Leading(cs) >= k else Leading(cs) > k)
    ensures !ok ==> k < |cs| && Leading(cs) == k && (checked ==> 4 * k < top)
    ensures Filled(old(value[..]), value[..], top - 4 * k, top, cs[..k])
  {
    k := 0;
    var i := top;
    ghost var start := value[..];
    while k < |cs|
      invariant k <= |cs| && i == top - 4 * k && i >= 0
      invariant Filled(start, value[..], i, top, cs[..k])
    {
      OneMore(cs, k);
      hide HexBits, Leading, ToDigit, Nibble, Filled;
      if i < 4 && checked {
        return k, true, true;
      }
      var digit := ToDigit(cs[k]);
      if digit.None? || i < 4 {
        return k, digit.Some?, digit.Some?;
      }
      ghost var before := value[..];
      FillNibble(value, i - 4, digit.value);
      FilledNext(start, before, value[..], i, top, cs, k, digit.value);
      i := i - 4;
      k := k + 1;
    }
    assert cs[..k] == cs;
    FilledMeans(start, value[..], i, top, cs[..k]);
    ok, over := true, false;
  }

  /** The bits from `i` to `top` are those of the digits, the others as they were at the start. */
  ghost predicate Filled(start: seq<bool>, now: seq<bool>, i: nat, top: nat, digits: string) {
    && |start| == |now| && i <= top <= |now|
    && HexBits(digits).Some? && now[i..top] == HexBits(digits).value
    && (forall j | 0 <= j < |now| && !(i <= j < top) :: now[j] == start[j])
  }

  lemma FilledMeans(start: seq<bool>, now: seq<bool>, i: nat, top: nat, digits: string)
    requires Filled(start, now, i, top, digits)
    ensures |start| == |now| && i <= top <= |now| && HexBits(digits).Some? && now[i..top] == HexBits(digits).value
    ensures now[..i] == start[..i] && now[top..] == start[top..]
  {
  }

  lemma SameFrom(before: seq<bool>, now: seq<bool>, i: nat, top: nat)
    requires |now| == |before| && i <= top <= |now| && now[i..] == before[i..]
    ensures now[i..top] == before[i..top] && forall j | i <= j < |now| :: now[j] == before[j]
  {
    forall j | i <= j < |now| ensures now[j] == before[j] {
      assert now[i..][j - i] == now[j] && before[i..][j - i] == before[j];
    }
  }

  /** Four bits written below those written before. */
  lemma FilledNext(start: seq<bool>, before: seq<bool>, now: seq<bool>, i: nat, top: nat, cs: string, k: nat, d: nat)
    requires k < |cs| && 4 <= i && |now| == |before| && Filled(start, before, i, top, cs[..k])
    requires HexBits(cs[..k + 1]) == Some(Nibble(d) + HexBits(cs[..k]).value)
    requires now[i - 4..i] == Nibble(d) && now[..i - 4] == before[..i - 4] && now[i..] == before[i..]
    ensures Filled(start, now, i - 4, top, cs[..k + 1])
  {
    hide HexBits, Nibble;
    SameFrom(before, now, i, top);
    forall j | 0 <= j < i - 4
      ensures now[j] == before[j]
    {
      assert now[..i - 4][j] == before[..i - 4][j];
    }
    assert now[i - 4..top] == now[i - 4..i] + now[i..top];
  }

  method FillNibble(value: array<bool>, i: nat, d: nat)
    requires i + 4 <= value.Length
    modifies value
    ensures value[i..i + 4] == Nibble(d)
    ensures value[..i] == old(value[..i]) && value[i + 4..] == old(value[i + 4..])
  {
    var digit := d;
    for j := 0 to 4
      invariant digit == (if j == 0 then d else if j == 1 then d / 2 else if j == 2 then d / 4 else if j == 3 then d / 8 else d / 16)
      invariant forall k | 0 <= k < j :: value[i + k] == Nibble(d)[k]
      invariant value[..i] == old(value[..i]) && value[i + 4..] == old(value[i + 4..])
    {
      value[i + j] := digit % 2 == 1;
      digit := digit / 2;
    }
  }

  method BitVectorFromStr(checked: bool, s: string) returns (p: Parse)
    ensures p == ParseText(checked, s)
  {
    if HasPrefix(s, 'x') {
      p := ParseHex(checked, s[2..]);
    } else if HasPrefix(s, 'b') {
      p := ParseBin(s[2..]);
    } else if HasPrefix(s, 'c') {
      p := ParseCap(checked, s[2..]);
    } else {
      p := NoParse;
    }
  }

  method ParseHex(checked: bool, hex: string) returns (p: Parse)
    ensures p == Parsed(HexBits(hex))
  {
    HexLength(hex);
    var value := new bool[4 * |hex|](_ => false);
    ghost var start := value[..];
    var k, ok, over := FillDigits(checked, value, 4 * |hex|, hex);
    if !ok { return NoParse; }
    assert hex[..k] == hex;
    FilledMeans(start, value[..], 0, 4 * |hex|, hex);
    p := Bits(value[..]);
  }

  method ParseBin(bin: string) returns (p: Parse)
    ensures p == Parsed(BinBits(bin))
  {
    var size := |bin|;
    var value := new bool[size](_ => false);
    for i := 0 to size
      invariant BinBits(bin[..i]).Some? && value[size - i..] == BinBits(bin[..i]).value
      invariant forall k | 0 <= k < size - i :: !value[k]
    {
      assert bin[..i + 1][..i] == bin[..i];
      if bin[i] != '0' && bin[i] != '1' {
        BinStops(bin, i + 1);
        return NoParse;
      }
      ghost var after := value[size - i..];
      if bin[i] == '1' { value[size - i - 1] := true; }
      assert value[size - (i + 1)..] == [value[size - i - 1]] + after;
    }
    assert bin[..size] == bin;
    p := Bits(value[..]);
  }

  lemma {:induction false} BinStops(bin: string, k: nat)
    requires k <= |bin| && BinBits(bin[..k]).None?
    ensures BinBits(bin).None?
    decreases |bin| - k
  {
    if k == |bin| {
      assert bin[..k] == bin;
    } else {
      assert bin[..k + 1][..k] == bin[..k];
      BinStops(bin, k + 1);
    }
  }

  method ParseCap(checked: bool, cap: string) returns (p: Parse)
    ensures p == CapBits(checked, cap)
  {
    CapStarts(checked, cap);
    hide CapBits, HexBits, Leading, Zeros, ToDigit, Nibble, Filled;
    if cap == "" { return Panic; }
    if cap[0] != '0' && cap[0] != '1' { return NoParse; }
    var value := TagVector(cap[0] == '1');
    ghost var start := value[..];
    var k, ok, over := FillDigits(checked, value, 128, cap[1..]);
    if !ok || over {
      CapFails(checked, cap, k, ok);
      return if ok then Panic else NoParse;
    }
    CapFilled(checked, cap, k, start, value[..]);
    p := Bits(value[..]);
  }

  /** A capability with its tag bit and no digits yet. */
  method TagVector(tag: bool) returns (value: array<bool>)
    ensures fresh(value) && value[..] == Zeros(128) + [tag]
  {
    value := new bool[129](_ => false);
    value[128] := tag;
    ZerosUnder(value[..], tag);
  }

  lemma ZerosUnder(start: seq<bool>, tag: bool)
    requires |start| == 129 && start[128] == tag && forall i | 0 <= i < 128 :: !start[i]
    ensures start == Zeros(128) + [tag]
  {
  }

  lemma CapStarts(checked: bool, cap: string)
    ensures cap == "" ==> CapBits(checked, cap) == Panic
    ensures cap != "" && cap[0] != '0' && cap[0] != '1' ==> CapBits(checked, cap) == NoParse
    ensures |Zeros(128)| == 128 && forall i | 0 <= i < 128 :: !Zeros(128)[i]
  {
  }

  /** The digits stop at character k, or the vector is full there. */
  lemma CapFails(checked: bool, cap: string, k: nat, ok: bool)
    requires cap != "" && (cap[0] == '0' || cap[0] == '1') && k < |cap[1..]|
    requires ok ==> k == 32 && if checked then Leading(cap[1..]) >= k else Leading(cap[1..]) > k
    requires !ok ==> k <= 32 && Leading(cap[1..]) == k && (checked ==> k < 32)
    ensures CapBits(checked, cap) == if ok then Panic else NoParse
  {
    HexLength(cap[1..]);
  }

  lemma CapFilled(checked: bool, cap: string, k: nat, start: seq<bool>, value: seq<bool>)
    requires cap != "" && (cap[0] == '0' || cap[0] == '1')
    requires k == |cap[1..]| <= 32 && start == Zeros(128) + [cap[0] == '1']
    requires Filled(start, value, 128 - 4 * k, 128, cap[1..][..k])
    ensures CapBits(checked, cap) == Bits(value)
  {
    var rest := cap[1..];
    assert rest[..k] == rest;
    HexLength(rest);
    var low := 128 - 4 * k;
    FilledMeans(start, value, low, 128, rest);
    assert start[..low] == Zeros(low) && start[128..] == [cap[0] == '1'];
    assert value == value[..low] + value[low..128] + value[128..];
  }

  // ----- printing and parsing undo each other

  lemma DivHalf(x: nat, p: nat)
    requires p > 0
    ensures x / (2 * p) == x / p / 2
  {
    DivisionOf(x, p);
    var q := x / p;
    assert x == (q / 2) * (2 * p) + ((q % 2) * p + x % p) by { Regroup(q, p); }
    assert (q % 2) * p + x % p < 2 * p;
    DivMod(x, 2 * p, q / 2, (q % 2) * p + x % p);
  }

  lemma Regroup(q: nat, p: nat)
    ensures q * p == (q / 2) * (2 * p) + (q % 2) * p
  {
    assert q == 2 * (q / 2) + q % 2;
    Distribute(q / 2, q % 2, p);
  }

  lemma Distribute(h: nat, b: nat, p: nat)
    ensures (2 * h + b) * p == h * (2 * p) + b * p
  {
  }

  lemma {:induction false} ShiftTwice(x: nat, a: nat, b: nat)
    ensures Shr(Shr(x, a), b) == Shr(x, a + b)
    decreases b
  {
    if b > 0 {
      ShiftTwice(x, a, b - 1);
      DivHalf(Shr(x, a), Pow2(b - 1));
      DivHalf(x, Pow2(a + b - 1));
    }
  }

  /** A bit below a multiple of 2 * p does not depend on the multiple. */
  lemma BitBelow(x: nat, p: nat, q: nat, d: nat)
    requires p > 0 && x == (2 * q) * p + d
    ensures x / p % 2 == d / p % 2
  {
    DivisionOf(d, p);
    Distribute2(q, d / p, p);
    DivMod(x, p, 2 * q + d / p, d % p);
    DivisionOf(d / p, 2);
    DivMod(2 * q + d / p, 2, q + d / p / 2, d / p % 2);
  }

  lemma Distribute2(q: nat, e: nat, p: nat)
    ensures (2 * q) * p + e * p == (2 * q + e) * p
  {
  }

  lemma NibbleBits(x: nat, i: nat)
    requires i < 4
    ensures Nibble(x % 16)[i] == BitOf(x, i)
  {
    DivisionOf(x, 16);
    var q, d := x / 16, x % 16;
    BitBelow(x, 1, 8 * q, d);
    BitBelow(x, 2, 4 * q, d);
    BitBelow(x, 4, 2 * q, d);
    BitBelow(x, 8, q, d);
    assert Pow2(0) == 1 && Pow2(1) == 2 && Pow2(2) == 4 && Pow2(3) == 8;
    hide Pow2;
    assert Shr(x, i) == x / Pow2(i);
  }

  lemma LowBitsSplit(x: nat, n: nat)
    ensures LowBits(x, n + 4) == Nibble(x % 16) + LowBits(Shr(x, 4), n)
  {
    forall i | 0 <= i < n + 4
      ensures LowBits(x, n + 4)[i] == (Nibble(x % 16) + LowBits(Shr(x, 4), n))[i]
    {
      if i < 4 { NibbleBits(x, i); } else { ShiftTwice(x, 4, i - 4); }
    }
  }

  lemma {:induction false} HexSnoc(x: nat, n: nat)
    requires n > 0
    ensures HexText(x, n) == HexText(Shr(x, 4), n - 1) + [HexDigit(x % 16)]
    decreases n
  {
    if n == 1 {
      assert Shr(x, 0) == x;
    } else {
      HexSnoc(x, n - 1);
      ShiftTwice(x, 4, 4 * (n - 2));
    }
  }

  lemma {:induction false} HexBack(x: nat, n: nat)
    ensures HexBits(HexText(x, n)) == Some(LowBits(x, 4 * n))
    decreases n
  {
    if n > 0 {
      HexBack(Shr(x, 4), n - 1);
      HexSnoc(x, n);
      DigitBack(x % 16);
      LowBitsSplit(x, 4 * (n - 1));
      assert HexText(x, n)[..n - 1] == HexText(Shr(x, 4), n - 1);
    } else {
      assert LowBits(x, 0) == [];
    }
  }

  lemma {:induction false} BinSnoc(x: nat, n: nat)
    requires n > 0
    ensures BinText(x, n) == BinText(Shr(x, 1), n - 1) + [if BitOf(x, 0) then '1' else '0']
    decreases n
  {
    if n > 1 {
      BinSnoc(x, n - 1);
      ShiftTwice(x, 1, n - 2);
    }
  }

  lemma {:induction false} BinBack(x: nat, n: nat)
    ensures BinBits(BinText(x, n)) == Some(LowBits(x, n))
    decreases n
  {
    if n > 0 {
      BinBack(Shr(x, 1), n - 1);
      BinSnoc(x, n);
      assert BinText(x, n)[..n - 1] == BinText(Shr(x, 1), n - 1);
      forall i | 0 <= i < n
        ensures LowBits(x, n)[i] == ([BitOf(x, 0)] + LowBits(Shr(x, 1), n - 1))[i]
      {
        if i > 0 { ShiftTwice(x, 1, i - 1); }
      }
      assert LowBits(x, n) == [BitOf(x, 0)] + LowBits(Shr(x, 1), n - 1);
    } else {
      assert LowBits(x, 0) == [];
    }
  }

  /** Parsing what was printed gives back exactly the low bits of the word, in hexadecimal, in binary and
      when there are none. */
  lemma PrintParse(checked: bool, x: nat, len: nat)
    ensures ParseText(checked, Text(x, len)) == Bits(LowBits(x, len))
  {
    hide HexBits, BinBits, HexText, BinText, LowBits, CapBits;
    if len % 4 == 0 {
      HexBack(x, len / 4);
      assert Text(x, len)[2..] == HexText(x, len / 4);
    } else {
      BinBack(x, len);
      assert Text(x, len)[2..] == BinText(x, len);
    }
  }

  // ----- what each text stands for, character by character

  /** A hexadecimal digit, in lower or upper case, and its value. */
  predicate IsHex(c: char, d: nat) { d < 16 && (c == "0123456789abcdef"[d] || c == "0123456789ABCDEF"[d]) }

  lemma DigitExact(c: char, d: nat)
    ensures ToDigit(c) == Some(d) <==> IsHex(c, d)
  {
  }

  predicate AllHex(s: string) { forall k | 0 <= k < |s| :: ToDigit(s[k]).Some? }

  /** Bit `b` of the value of a digit. */
  predicate DigitBit(c: char, b: nat)
    requires ToDigit(c).Some? && b < 4
  {
    ToDigit(c).value / (if b == 0 then 1 else if b == 1 then 2 else if b == 2 then 4 else 8) % 2 == 1
  }

  lemma NibbleBit(d: nat, c: char, b: nat)
    requires ToDigit(c) == Some(d) && b < 4
    ensures Nibble(d)[b] == DigitBit(c, b)
  {
  }

  /** Hexadecimal text is digits only; the digit at place k gives the four bits that many digits from the
      top, its highest bit first. */
  lemma {:induction false} HexExact(hex: string)
    ensures HexBits(hex).Some? <==> AllHex(hex)
    ensures HexBits(hex).Some? ==> |HexBits(hex).value| == 4 * |hex|
    ensures HexBits(hex).Some? ==>
              forall k, b | 0 <= k < |hex| && 0 <= b < 4 ::
                HexBits(hex).value[4 * (|hex| - 1 - k) + b] == DigitBit(hex[k], b)
    decreases hex
  {
    hide Nibble, DigitBit, ToDigit;
    if hex != "" {
      var n := |hex| - 1;
      HexExact(hex[..n]);
      assert forall k | 0 <= k < n :: hex[..n][k] == hex[k];
      if AllHex(hex) {
        var d := ToDigit(hex[n]).value;
        var rest := HexBits(hex[..n]).value;
        forall k, b | 0 <= k < |hex| && 0 <= b < 4
          ensures HexBits(hex).value[4 * (n - k) + b] == DigitBit(hex[k], b)
        {
          if k == n {
            NibbleBit(d, hex[n], b);
          } else {
            assert rest[4 * (n - 1 - k) + b] == DigitBit(hex[..n][k], b);
          }
        }
      }
    }
  }

  /** Binary text is zeros and ones only, the highest bit first. */
  lemma {:induction false} BinExact(bin: string)
    ensures BinBits(bin).Some? <==> forall k | 0 <= k < |bin| :: bin[k] == '0' || bin[k] == '1'
    ensures BinBits(bin).Some? ==>
              && |BinBits(bin).value| == |bin|
              && forall i | 0 <= i < |bin| :: BinBits(bin).value[i] == (bin[|bin| - 1 - i] == '1')
    decreases bin
  {
    if bin != "" {
      var n := |bin| - 1;
      BinExact(bin[..n]);
      assert forall k | 0 <= k < n :: bin[..n][k] == bin[k];
    }
  }

  lemma {:induction false} LeadingExact(s: string)
    ensures forall k | 0 <= k < Leading(s) :: ToDigit(s[k]).Some?
    ensures Leading(s) < |s| ==> ToDigit(s[Leading(s)]).None?
    decreases s
  {
    hide ToDigit;
    if s != "" && ToDigit(s[0]).Some? {
      LeadingExact(s[1..]);
      assert forall k | 0 < k < |s| :: s[k] == s[1..][k - 1];
    }
  }

  /** Bit by bit: the tag on top, the digits below it from the top down, and zeros. */
  predicate IsCapability(value: seq<bool>, tag: char, digits: string)
    requires AllHex(digits) && |digits| <= 32
  {
    && |value| == 129 && value[128] == (tag == '1')
    && (forall k, b | 0 <= k < |digits| && 0 <= b < 4 :: value[124 - 4 * k + b] == DigitBit(digits[k], b))
    && (forall i | 0 <= i < 128 - 4 * |digits| :: !value[i])
  }

  lemma CapFits(cap: string, value: seq<bool>)
    requires cap != "" && AllHex(cap[1..]) && |cap[1..]| <= 32
    requires HexBits(cap[1..]).Some?
    requires value == Zeros(128 - 4 * |cap[1..]|) + HexBits(cap[1..]).value + [cap[0] == '1']
    ensures IsCapability(value, cap[0], cap[1..])
  {
    hide ToDigit, DigitBit, HexBits, Leading;
    var rest := cap[1..];
    HexExact(rest);
    var bits := HexBits(rest).value;
    var low := 128 - 4 * |rest|;
    forall k, b | 0 <= k < |rest| && 0 <= b < 4 ensures value[124 - 4 * k + b] == DigitBit(rest[k], b) {
      assert value[low + (4 * (|rest| - 1 - k) + b)] == bits[4 * (|rest| - 1 - k) + b];
    }
  }

  lemma CapLeading(rest: string)
    ensures HexBits(rest).Some? <==> AllHex(rest)
    ensures HexBits(rest).Some? ==> |HexBits(rest).value| == 4 * |rest|
    ensures AllHex(rest) <==> Leading(rest) == |rest|
    ensures |rest| > 32 ==> (AllHex(rest[..32]) <==> Leading(rest) >= 32)
    ensures |rest| > 32 && Leading(rest) >= 32 ==> (ToDigit(rest[32]).Some? <==> Leading(rest) > 32)
  {
    HexExact(rest);
    HexLength(rest);
    LeadingExact(rest);
    hide ToDigit, HexBits;
    if |rest| > 32 { assert forall k | 0 <= k < 32 :: rest[..32][k] == rest[k]; }
  }

  /** The text of a capability: what it gives, and exactly when it is refused and when it panics. */
  lemma CapExact(checked: bool, cap: string)
    ensures var p := CapBits(checked, cap);
            if cap == "" then p == Panic
            else if cap[0] != '0' && cap[0] != '1' then p == NoParse
            else
              var rest := cap[1..];
              if AllHex(rest) && |rest| <= 32 then p.Bits? && IsCapability(p.value, cap[0], rest)
              else if |rest| > 32 && AllHex(rest[..32]) && (checked || ToDigit(rest[32]).Some?) then p == Panic
              else p == NoParse
  {
    hide ToDigit, HexBits, Leading, AllHex, IsCapability, Zeros;
    if cap != "" && (cap[0] == '0' || cap[0] == '1') {
      CapLeading(cap[1..]);
      if AllHex(cap[1..]) && |cap[1..]| <= 32 { CapFits(cap, CapBits(checked, cap).value); }
    }
  }

  /** The first two characters decide how the others are read. */
  lemma PrefixExact(checked: bool, s: string)
    ensures |s| >= 2 && (s[..2] == "0x" || s[..2] == "#x") ==> ParseText(checked, s) == Parsed(HexBits(s[2..]))
    ensures |s| >= 2 && (s[..2] == "0b" || s[..2] == "#b") ==> ParseText(checked, s) == Parsed(BinBits(s[2..]))
    ensures |s| >= 2 && (s[..2] == "0c" || s[..2] == "#c") ==> ParseText(checked, s) == CapBits(checked, s[2..])
    ensures |s| < 2 || s[..2] !in ["0x", "#x", "0b", "#b", "0c", "#c"] ==> ParseText(checked, s) == NoParse
  {
    if |s| >= 2 {
      assert s[..2] == [s[0], s[1]];
      hide HexBits, BinBits, CapBits;
    }
  }

  lemma {:induction false} HexTextAt(x: nat, n: nat, k: nat)
    requires k < n
    ensures HexText(x, n)[k] == "0123456789abcdef"[x / Pow2(4 * (n - 1 - k)) % 16]
    decreases n
  {
    if k > 0 { HexTextAt(x, n - 1, k - 1); }
  }

  lemma {:induction false} BinTextAt(x: nat, n: nat, k: nat)
    requires k < n
    ensures BinText(x, n)[k] == "01"[x / Pow2(n - 1 - k) % 2]
    decreases n
  {
    if k > 0 { BinTextAt(x, n - 1, k - 1); }
  }

  /** The printed text, character by character: lower-case hexadecimal for whole digits, and binary. */
  lemma TextExact(x: nat, len: nat, k: nat)
    ensures len % 4 == 0 ==> |Text(x, len)| == 2 + len / 4 && Text(x, len)[..2] == "#x"
    ensures len % 4 != 0 ==> |Text(x, len)| == 2 + len && Text(x, len)[..2] == "#b"
    ensures len % 4 == 0 && k < len / 4 ==>
              Text(x, len)[2 + k] == "0123456789abcdef"[x / Pow2(4 * (len / 4 - 1 - k)) % 16]
    ensures len % 4 != 0 && k < len ==> Text(x, len)[2 + k] == "01"[x / Pow2(len - 1 - k) % 2]
  {
    if len % 4 == 0 && k < len / 4 { HexTextAt(x, len / 4, k); }
    if len % 4 != 0 && k < len { BinTextAt(x, len, k); }
  }
}
