/** Numerals in bases 2 to 16: the value of a digit string, the numeral of a value, and that each determines the
    other. */
module Numerals {
  import opened Prelude

  function Pow(base: nat, e: nat): nat { if e == 0 then 1 else base * Pow(base, e - 1) }

  lemma {:induction false} PowAdd(base: nat, a: nat, b: nat)
    ensures Pow(base, a + b) == Pow(base, a) * Pow(base, b)
  {
    if a > 0 {
      PowAdd(base, a - 1, b);
      MulAssoc(base, Pow(base, a - 1), Pow(base, b));
    }
  }

  lemma MulAssoc(a: int, b: int, c: int)
    ensures a * (b * c) == (a * b) * c
  {
  }

  function DigitByte(d: nat): Byte
    requires d < 16
  {
    if d < 10 then ZERO + d else 97 + (d - 10)
  }

  /** The value of a digit byte; 16 for any other byte. */
  function DigitValue(b: Byte): nat
  {
    if ZERO <= b <= NINE then b - ZERO else if 97 <= b <= 102 then b - 87 else 16
  }

  /** The digits are the characters 0 to 9 and a to f, and only these have a value. */
  lemma DigitsAreHex(d: nat, b: Byte)
    requires d < 16
    ensures DigitByte(d) == "0123456789abcdef"[d] as int && DigitValue(DigitByte(d)) == d
    ensures DigitValue(b) < 16 ==> DigitByte(DigitValue(b)) == b
  {
    assert "0123456789"[if d < 10 then d else 0] as int == ZERO + if d < 10 then d else 0;
  }

  predicate AllDigits(s: seq<Byte>, base: nat) { forall i :: 0 <= i < |s| ==> DigitValue(s[i]) < base }

  /** The number that a digit string denotes, most significant digit first. */
  function Value(s: seq<Byte>, base: nat): nat
  {
    if s == [] then 0 else Value(s[..|s| - 1], base) * base + DigitValue(s[|s| - 1])
  }

  predicate IsNumeral(s: seq<Byte>, base: nat)
  {
    s != [] && AllDigits(s, base) && (s[0] == ZERO ==> |s| == 1)
  }

  /** One more digit at the end. */
  lemma AppendDigit(s: seq<Byte>, d: nat, base: nat)
    requires d < base <= 16
    ensures Value(s + [DigitByte(d)], base) == Value(s, base) * base + d
    ensures AllDigits(s, base) ==> AllDigits(s + [DigitByte(d)], base)
  {
    assert (s + [DigitByte(d)])[..|s|] == s;
  }

  lemma DivMod(n: nat, base: nat)
    requires base >= 2
    ensures (n / base) * base + n % base == n && n % base < base
    ensures n >= base ==> 0 < n / base < n
  {
  }

  lemma OneDigitNumeral(d: nat, base: nat)
    requires d < base <= 16
    ensures IsNumeral([DigitByte(d)], base) && Value([DigitByte(d)], base) == d
  {
    ValueOfOne(DigitByte(d), base);
    hide Value;
  }

  lemma ValueOfOne(b: Byte, base: nat)
    ensures Value([], base) == 0 && Value([b], base) == DigitValue(b)
  {
    var none: seq<Byte> := [];
    assert [b][..0] == none && Value(none, base) == 0;
    assert Value([b], base) == Value(none, base) * base + DigitValue(b);
  }

  lemma NumeralGrows(s: seq<Byte>, n: nat, base: nat)
    requires 2 <= base <= 16 && IsNumeral(s, base) && s[0] != ZERO && Value(s, base) == n / base
    ensures var r := s + [DigitByte(n % base)];
      IsNumeral(r, base) && Value(r, base) == n && r[0] != ZERO
  {
    hide Value;
    DivMod(n, base);
    AppendDigit(s, n % base, base);
  }

  function Numeral(n: nat, base: nat): (s: seq<Byte>)
    requires 2 <= base <= 16
    ensures IsNumeral(s, base) && Value(s, base) == n
    ensures n > 0 ==> s[0] != ZERO
  {
    DivMod(n, base);
    if n < base then
      OneDigitNumeral(n, base);
      [DigitByte(n)]
    else
      NumeralGrows(Numeral(n / base, base), n, base);
      Numeral(n / base, base) + [DigitByte(n % base)]
  }

  /** A numeral without leading zeros is determined by its value. */
  lemma {:induction false} NumeralUnique(s: seq<Byte>, base: nat)
    requires 2 <= base <= 16 && IsNumeral(s, base)
    ensures s == Numeral(Value(s, base), base)
    decreases |s|
  {
    var init, last := s[..|s| - 1], s[|s| - 1];
    var v, d := Value(init, base), DigitValue(last);
    assert s == init + [last] && last == DigitByte(d);
    if init == [] {
      ValueOfOne(last, base);
    } else {
      assert Value(s, base) == v * base + d;
      hide Numeral, Value;
      NumeralUnique(init, base);
      LeadingDigit(init, base);
      NumeralStep(v, d, base);
    }
  }

  lemma LeadingDigit(s: seq<Byte>, base: nat)
    requires 2 <= base && IsNumeral(s, base) && s[0] != ZERO
    ensures Value(s, base) > 0
  {
    hide Value;
    assert s[..1] == [s[0]];
    ValueOfOne(s[0], base);
    ValueOfPrefix(s, 1, base);
  }

  lemma NumeralStep(v: nat, d: nat, base: nat)
    requires 2 <= base <= 16 && v > 0 && d < base
    ensures Numeral(v * base + d, base) == Numeral(v, base) + [DigitByte(d)]
  {
    MulGrows(v, base);
    DivModUnique(v * base + d, base, v, d);
  }

  lemma MulGrows(v: nat, base: nat)
    requires v > 0
    ensures v * base >= base
  {
  }

  lemma DivModUnique(n: nat, base: nat, q: nat, r: nat)
    requires base > 0 && r < base && n == q * base + r
    ensures n / base == q && n % base == r
  {
    DivModIsUnique(n / base, n % base, q, r, base);
  }

  lemma DivModIsUnique(q0: nat, r0: nat, q1: nat, r1: nat, base: nat)
    requires r0 < base && r1 < base && q0 * base + r0 == q1 * base + r1
    ensures q0 == q1 && r0 == r1
  {
    assert (q0 - q1) * base == r1 - r0;
    if q0 > q1 { MulGrows(q0 - q1, base); } else if q1 > q0 {
      assert (q1 - q0) * base == r0 - r1;
      MulGrows(q1 - q0, base);
    }
  }

  /** The sign, if any, and the numeral of the magnitude. */
  function SignedNumeral(n: int, base: nat): (s: seq<Byte>)
    requires 2 <= base <= 16
    ensures s != []
  {
    if n < 0 then [MINUS] + Numeral(-n, base) else Numeral(n, base)
  }

  lemma {:induction false} ValueAppend(s: seq<Byte>, t: seq<Byte>, base: nat)
    ensures Value(s + t, base) == Value(s, base) * Pow(base, |t|) + Value(t, base)
    decreases |t|
  {
    if t == [] {
      assert s + t == s;
    } else {
      var init, d := t[..|t| - 1], DigitValue(t[|t| - 1]);
      assert (s + t)[..|s + t| - 1] == s + init;
      ValueAppend(s, init, base);
      var v, p := Value(s, base), Pow(base, |init|);
      Distribute(v, p, Value(init, base), base, d);
    }
  }

  lemma Distribute(v: nat, p: nat, w: nat, base: nat, d: nat)
    ensures (v * p + w) * base + d == v * (base * p) + (w * base + d)
  {
    assert v * p * base == v * (base * p);
  }

  /** A prefix of a digit string denotes at most what the whole string does. */
  lemma {:induction false} ValueOfPrefix(s: seq<Byte>, k: nat, base: nat)
    requires k <= |s| && base > 0
    ensures Value(s[..k], base) <= Value(s, base)
    decreases |s| - k
  {
    if k < |s| {
      ValueOfPrefix(s, k + 1, base);
      assert s[..k + 1][..k] == s[..k];
      MulAtLeast(Value(s[..k], base), base);
    } else {
      assert s[..k] == s;
    }
  }

  lemma MulAtLeast(v: nat, base: nat)
    requires base > 0
    ensures v <= v * base
  {
  }

  /** `n < Pow(base, e)` bounds the numeral's length. */
  lemma {:induction false} NumeralLength(n: nat, base: nat, e: nat)
    requires 2 <= base <= 16 && n < Pow(base, e) && e > 0
    ensures |Numeral(n, base)| <= e
    decreases e
  {
    if n >= base {
      assert e > 1 by { assert Pow(base, 1) == base; }
      DivBelow(n, base, Pow(base, e - 1));
      NumeralLength(n / base, base, e - 1);
    }
  }

  lemma DivBelow(n: nat, base: nat, p: nat)
    requires base > 0 && n < base * p
    ensures n / base < p
  {
    var q := n / base;
    assert n == q * base + n % base;
    if q >= p { MulMonotone(p, q, base); assert false; }
  }

  lemma MulMonotone(a: nat, b: nat, c: nat)
    requires a <= b
    ensures a * c <= b * c
  {
  }

  lemma ModShift(x: int, m: nat, k: int)
    requires m > 0
    ensures (x + m * k) % m == x % m
  {
    var q0, q1 := x / m, (x + m * k) / m;
    assert x == m * q0 + x % m && x + m * k == m * q1 + (x + m * k) % m;
    SameResidue(m, q0 + k - q1, (x + m * k) % m - x % m);
  }

  lemma SameResidue(m: nat, q: int, d: int)
    requires m > 0 && 0 - m < d < m && m * q == d
    ensures d == 0
  {
    if q > 0 { MulGrows(q, m); } else if q < 0 { MulGrows(0 - q, m); }
  }

  lemma {:induction false} PowPositive(base: nat, e: nat)
    requires base > 0
    ensures Pow(base, e) > 0
  {
    if e > 0 { PowPositive(base, e - 1); }
  }
}
