/** Fixed-point division and the two number printers of examples/game.c. */
module FixedPoint {
  import opened Prelude
  import opened Numerals
  import opened Files
  import opened Fmt

  /** Unsigned 64-bit arithmetic wraps. */
  function U64(x: int): (r: nat)
    ensures 0 <= x < TWO64 ==> r == x
  {
    SmallMod(x, TWO64);
    x % TWO64
  }

  function Times(a: nat, b: nat): nat { U64(a * b) }

  function Over(a: nat, b: nat): nat requires b > 0 { a / b }

  lemma SmallMod(x: int, m: nat)
    requires m > 0
    ensures 0 <= x < m ==> x % m == x
  {
  }

  /** `num * facc / den`, to the nearest integer, halves rounded up. */
  function Rounded(num: nat, den: nat, facc: nat): nat
    requires den > 0
  {
    (2 * (num * facc) + den) / (2 * den)
  }

  /** Its distance from the quotient is at most half a unit. */
  lemma RoundedIsNearest(num: nat, den: nat, facc: nat)
    requires den > 0
    ensures var r := Rounded(num, den, facc);
      2 * (r * den) <= 2 * (num * facc) + den < 2 * (r * den) + 2 * den
  {
    var n, d := 2 * (num * facc) + den, 2 * den;
    DivBounds(n, d);
    Double(n / d, den);
  }

  lemma DivIs(n: nat, d: nat, x: nat, p: nat)
    requires d > 0 && p == x * d && p <= n < p + d
    ensures n / d == x
  {
    DivModIsUnique(n / d, n % d, x, n - p, d);
  }

  lemma DivBounds(n: nat, d: nat)
    requires d > 0
    ensures n / d >= 0 && (n / d) * d <= n < (n / d + 1) * d
  {
    var q := n / d;
    assert n == q * d + n % d;
    Step(q, d);
  }

  /** The fractional part before rounding is below `facc`. */
  lemma FractionBelow(num: nat, den: nat, facc: nat)
    requires den > 0 && facc > 0
    ensures 0 <= num * facc / den - (num / den) * facc < facc
  {
    NatProduct(num, facc);
    DivBounds(num, den);
    DivBounds(num * facc, den);
    FractionOf(num, den, facc, num / den, num * facc / den);
  }

  lemma NatProduct(a: nat, b: nat)
    ensures a * b >= 0
  {
  }

  lemma FractionOf(num: nat, den: nat, facc: nat, a: nat, q: nat)
    requires a * den <= num < (a + 1) * den && q * den <= num * facc < (q + 1) * den && facc > 0 && den > 0
    ensures 0 <= q - a * facc < facc
  {
    LowProduct(num, den, facc, a);
    CancelLess(a * facc, q + 1, den);
    HighProduct(num, den, facc, a + 1);
    CancelLess(q, (a + 1) * facc, den);
    Step(a, facc);
  }

  lemma CancelLess(x: nat, y: nat, den: nat)
    requires x * den < y * den
    ensures x < y
  {
    if y <= x { MulMonotone(y, x, den); }
  }

  lemma LowProduct(num: nat, den: nat, facc: nat, a: nat)
    requires a * den <= num
    ensures (a * facc) * den <= num * facc
  {
    MulMonotone(a * den, num, facc);
    Swap3(a, den, facc);
  }

  lemma HighProduct(num: nat, den: nat, facc: nat, b: nat)
    requires num < b * den && facc > 0
    ensures num * facc < (b * facc) * den
  {
    MulMonotone(num + 1, b * den, facc);
    Swap3(b, den, facc);
    Step(num, facc);
  }

  lemma Step(a: nat, b: nat)
    ensures (a + 1) * b == a * b + b
  {
  }

  lemma Swap3(a: nat, b: nat, c: nat)
    ensures (a * b) * c == (a * c) * b
  {
    assert (a * b) * c == a * (b * c) && (a * c) * b == a * (c * b);
  }

  /** The tested expression is the rounding bit: 1 exactly if the remainder is at least a half. */
  lemma RoundingBit(n: nat, den: nat)
    requires den > 0
    ensures 2 * n / den - 2 * (n / den) == (2 * n + den) / (2 * den) - n / den
    ensures 0 <= 2 * n / den - 2 * (n / den) <= 1
  {
    var q, r := n / den, n % den;
    var p := q * den;
    assert n == p + r;
    Double(q, den);
    if 2 * r >= den {
      DivIs(2 * n, den, 2 * q + 1, 2 * p + den);
      DivIs(2 * n + den, 2 * den, q + 1, 2 * p + 2 * den);
    } else {
      DivIs(2 * n, den, 2 * q, 2 * p);
      DivIs(2 * n + den, 2 * den, q, 2 * p);
    }
  }

  lemma Double(q: nat, d: nat)
    ensures (2 * q) * d == 2 * (q * d) && (2 * q + 1) * d == 2 * (q * d) + d
    ensures q * (2 * d) == 2 * (q * d) && (q + 1) * (2 * d) == 2 * (q * d) + 2 * d
  {
  }

  /** `fdiv`: the quotient in units of 1/facc, rounded half up, with a proper fractional part, as long as the largest
      product fits 64 bits. */
  method Fdiv(num: nat, den: nat, facc: nat) returns (ipart: nat, fpart: nat)
    requires den > 0 && 0 < facc < TWO64 && 2 * num * facc < TWO64
    ensures ipart * facc + fpart == Rounded(num, den, facc)
    ensures fpart < facc
  {
    hide U64, Times, Over, Rounded;
    ghost var p := NoWrap(num, den, facc);
    ipart := Over(num, den);
    fpart := Over(Times(num, facc), den);
    fpart := U64(fpart - Times(ipart, facc));
    var bit := U64(Over(Times(Times(2, num), facc), den) - Times(Times(2, ipart), facc));
    bit := U64(bit - Times(2, fpart));
    if bit != 0 {
      fpart := U64(fpart + 1);  // at most `facc`
    }
    Step(ipart, facc);
    if fpart == facc {
      ipart := U64(ipart + 1);
      fpart := 0;
    }
  }

  /** No operation of `fdiv` wraps, and what they compute: the whole part `p` in units, and a rounding bit. */
  lemma NoWrap(num: nat, den: nat, facc: nat) returns (p: nat)
    requires den > 0 && facc > 0 && 2 * num * facc < TWO64 && facc < TWO64
    ensures p == Over(num, den) * facc && Times(Over(num, den), facc) == p
    ensures p <= Over(Times(num, facc), den) < p + facc
    ensures Times(Times(2, Over(num, den)), facc) == 2 * p
    ensures 2 * Over(Times(num, facc), den) < TWO64 && Over(num, den) < TWO64 - 1
    ensures var q, q2 := Over(Times(num, facc), den), Over(Times(Times(2, num), facc), den);
      0 <= q2 - 2 * q <= 1 && q2 < TWO64 && Rounded(num, den, facc) == q + (q2 - 2 * q)
    ensures forall f: nat :: 2 * f < TWO64 ==> Times(2, f) == 2 * f
  {
    hide Times, Over;
    var n, a := num * facc, Over(num, den);
    p := a * facc;
    OverIs(num, den);
    OverIs(n, den);
    OverIs(2 * n, den);
    Double(num, facc);
    Double(a, facc);
    MulAtLeast(2 * num, facc);
    FractionBelow(num, den, facc);
    DivAtMost(num, den);
    BitOf(n, den);
    TimesIs(num, facc, n);
    TimesIs(2, num, 2 * num);
    TimesIs(2 * num, facc, 2 * n);
    TimesIs(a, facc, p);
    TimesIs(2, a, 2 * a);
    TimesIs(2 * a, facc, 2 * p);
    forall f: nat | 2 * f < TWO64 ensures Times(2, f) == 2 * f { TimesIs(2, f, 2 * f); }
  }

  lemma TimesIs(a: nat, b: nat, p: nat)
    requires a * b == p < TWO64
    ensures Times(a, b) == p
  {
  }

  lemma OverIs(n: nat, d: nat)
    requires d > 0
    ensures Over(n, d) == n / d
  {
  }

  lemma BitOf(n: nat, den: nat)
    requires den > 0
    ensures n / den <= n && 2 * n / den <= 2 * n && 0 <= 2 * n / den - 2 * (n / den) <= 1
    ensures (2 * n + den) / (2 * den) == n / den + (2 * n / den - 2 * (n / den))
  {
    DivAtMost(n, den);
    DivAtMost(2 * n, den);
    RoundingBit(n, den);
  }

  lemma DivAtMost(n: nat, d: nat)
    requires d > 0
    ensures n / d <= n
  {
    MulAtLeast(n + 1, d);
    DivBelow(n, d, n + 1);
  }

  // ------------------------------------------------------------------ printing

  function DigitAt(f: nat, div: nat): Byte requires div > 0 { ZERO + f / div % 10 }

  lemma DigitsStep(f: nat, div: nat)
    ensures Digits(f, div) == if div == 0 then [] else [DigitAt(f, div)] + Digits(f, div / 10)
  {
  }

  /** The digits of `f` from the one worth `div` downwards. */
  function Digits(f: nat, div: nat): seq<Byte>
  {
    if div == 0 then [] else [DigitAt(f, div)] + Digits(f, div / 10)
  }

  function FixedText(ipart: nat, fpart: nat, facc: nat): seq<Byte>
  {
    Numeral(ipart, 10) + ([DOT] + Digits(fpart, facc / 10))
  }

  /** The digit loops of both printers: `fprintc` for each digit of `f` from the one worth `div` downwards. */
  method FprintDigits(f: nat, div: nat, file: File) returns (err: Err, ghost taken: nat)
    requires file.Valid() && file.Writable()
    modifies file.Repr
    ensures file.Valid() && Wrote(old(file.Output()), file.Output(), Digits(f, div), err, taken)
    ensures file.Progressing() ==> err == Ok
  {
    hide File.Valid, File.Output, File.Stream, File.Below, Wrote, DigitAt, Digits;
    var d := div;
    taken, err := 0, Ok;
    ghost var done: seq<Byte> := [];
    Nothing(file.Output());
    while d > 0
      invariant file.Valid() && taken == |done| && err == Ok
      invariant Wrote(old(file.Output()), file.Output(), done, Ok, |done|)
      invariant done + Digits(f, d) == Digits(f, div)
    {
      ghost var t;
      var b := DigitAt(f, d);
      DigitsStep(f, d);
      err, t := FprintNext(b, file, old(file.Output()), done);
      taken := taken + t;
      if err != Ok {
        WroteFirst(old(file.Output()), file.Output(), done + [b], Digits(f, d / 10), err, taken);
        assert (done + [b]) + Digits(f, d / 10) == done + Digits(f, d);
        return;
      }
      assert (done + [b]) + Digits(f, d / 10) == done + Digits(f, d);
      done := done + [b];
      d := d / 10;
    }
    DigitsStep(f, 0);
    assert done + [] == done;
  }

  /** One more byte after `done`, which has been written since the output was `o`. */
  method FprintNext(b: Byte, file: File, ghost o: seq<Byte>, ghost done: seq<Byte>) returns (err: Err, ghost t: nat)
    requires file.Valid() && file.Writable() && Wrote(o, file.Output(), done, Ok, |done|)
    modifies file.Repr
    ensures file.Valid() && Wrote(o, file.Output(), done + [b], err, |done| + t) && (err == Ok ==> t == 1)
    ensures file.Progressing() ==> err == Ok
  {
    hide File.Valid, File.Output, File.Stream, File.Below, Wrote;
    var n;
    ghost var p := file.Output();
    n, err, t := Fprintc(b, file);
    OneByte(p, b, file.Output(), err, t);
    WroteBoth(o, p, file.Output(), done, [b], err, t);
  }

  /** `fprintfixed`. */
  method FprintFixed(ipart: nat, fpart: nat, facc: nat, file: File) returns (err: Err, ghost taken: nat)
    requires ipart < TWO64 && file.Valid() && file.Writable()
    modifies file.Repr
    ensures file.Valid() && Wrote(old(file.Output()), file.Output(), FixedText(ipart, fpart, facc), err, taken)
    ensures file.Progressing() ==> err == Ok
  {
    hide File.Valid, File.Output, File.Stream, File.Below, Numeral, Digits;
    ghost var o, whole, rest := file.Output(), Numeral(ipart, 10), Digits(fpart, facc / 10);
    var n;
    n, err, taken := FprintUnsigned(ipart, Decimal, file);
    if err != Ok {
      WroteFirst(o, file.Output(), whole, [DOT] + rest, err, taken);
      return;
    }
    ghost var p, t := file.Output(), 0;
    n, err, t := Fprintc(DOT, file);
    OneByte(p, DOT, file.Output(), err, t);
    if err != Ok {
      WroteFirst(p, file.Output(), [DOT], rest, err, t);
      WroteBoth(o, p, file.Output(), whole, [DOT] + rest, err, t);
      taken := taken + t;
      return;
    }
    ghost var q := file.Output();
    ghost var u;
    err, u := FprintDigits(fpart, facc / 10, file);
    WroteBoth(p, q, file.Output(), [DOT], rest, err, u);
    WroteBoth(o, p, file.Output(), whole, [DOT] + rest, err, 1 + u);
    taken := taken + 1 + u;
  }

  /** The fraction digits of a power of ten: as many as it has zeros, denoting the low part of `f`. */
  lemma {:induction false} DigitsDenote(f: nat, k: nat)
    ensures var ds := Digits(f, Pow(10, k) / 10);
      |ds| == k && AllDigits(ds, 10) && Value(ds, 10) == f % Pow(10, k)
    decreases k
  {
    hide Value;
    PowTen(k);
    if k == 0 {
      ValueOfOne(ZERO, 10);
    } else {
      var p := Pow(10, k - 1);
      var d, rest := f / p % 10, Digits(f, p / 10);
      DigitsDenote(f, k - 1);
      var b: Byte := ZERO + d;
      assert Digits(f, p) == [b] + rest;
      ValueAppend([b], rest, 10);
      ValueOfOne(b, 10);
      TopDigit(f, p);
    }
  }

  lemma {:induction false} PowTen(k: nat)
    ensures Pow(10, k) > 0 && Pow(10, 0) == 1
    ensures k > 0 ==> Pow(10, k) == 10 * Pow(10, k - 1) && Pow(10, k) / 10 == Pow(10, k - 1)
    decreases k
  {
    if k > 0 { PowTen(k - 1); }
  }

  lemma TopDigit(f: nat, p: nat)
    requires p > 0
    ensures (f / p % 10) * p + f % p == f % (10 * p)
  {
    var q, r := f / p, f % p;
    var a, d := q / 10, q % 10;
    assert f == q * p + r && q == a * 10 + d;
    TopParts(a, d, p);
    DigitTimes(d, p, r);
    DivModUnique(f, 10 * p, a, d * p + r);
  }

  lemma TopParts(a: nat, d: nat, p: nat)
    ensures (a * 10 + d) * p == a * (10 * p) + d * p
  {
    assert (a * 10) * p == a * (10 * p) by { MulAssoc(a, 10, p); }
  }

  lemma DigitTimes(d: nat, p: nat, r: nat)
    requires d < 10 && r < p
    ensures d * p + r < 10 * p
  {
    MulMonotone(d, 9, p);
  }

  /** What `fprintfixed` prints after `fdiv`, with `facc` the k-th power of ten: k digits after the point, and with
      the point removed the digits denote the quotient in units of 1/facc, rounded half up. */
  lemma PrintedQuotientIsRounded(num: nat, den: nat, k: nat, ipart: nat, fpart: nat)
    requires den > 0 && fpart < Pow(10, k) && ipart * Pow(10, k) + fpart == Rounded(num, den, Pow(10, k))
    ensures var fraction := Digits(fpart, Pow(10, k) / 10);
      FixedText(ipart, fpart, Pow(10, k)) == Numeral(ipart, 10) + ([DOT] + fraction) && |fraction| == k &&
      AllDigits(fraction, 10) && Value(Numeral(ipart, 10) + fraction, 10) == Rounded(num, den, Pow(10, k))
  {
    hide Rounded, Numeral, Value, Digits;
    var fraction := Digits(fpart, Pow(10, k) / 10);
    PowTen(k);
    DigitsDenote(fpart, k);
    SmallMod(fpart, Pow(10, k));
    ValueAppend(Numeral(ipart, 10), fraction, 10);
  }

  // ------------------------------------------------------------------ grouping

  /** The last three digits of `n`. */
  function Three(n: nat): seq<Byte>
  {
    [ZERO + n / 100 % 10, ZERO + n / 10 % 10, ZERO + n % 10]
  }

  /** The numeral of `n` with a comma before every group of three digits but the first. */
  function Grouped(n: nat): (s: seq<Byte>)
    ensures s != []
  {
    if n < 1000 then Numeral(n, 10) else Grouped(n / 1000) + ([COMMA] + Three(n))
  }

  /** Three more digits. */
  lemma NumeralThree(n: nat)
    requires n >= 1000
    ensures Numeral(n, 10) == Numeral(n / 1000, 10) + Three(n)
  {
    hide Numeral;
    NumeralLast(n);
    NumeralLast(n / 10);
    NumeralLast(n / 10 / 10);
    assert n / 10 / 10 / 10 == n / 1000 && n / 10 / 10 == n / 100;
  }

  lemma NumeralLast(n: nat)
    requires n >= 10
    ensures Numeral(n, 10) == Numeral(n / 10, 10) + [ZERO + n % 10]
  {
  }

  /** With the commas removed, the grouped text is the numeral. */
  lemma {:induction false} GroupedWithoutCommas(n: nat)
    ensures Without(Grouped(n), COMMA) == Numeral(n, 10)
    decreases n
  {
    hide Without, Numeral;
    if n < 1000 {
      NoComma(Numeral(n, 10));
    } else {
      GroupedWithoutCommas(n / 1000);
      WithoutConcat(Grouped(n / 1000), [COMMA] + Three(n), COMMA);
      WithoutConcat([COMMA], Three(n), COMMA);
      OnlyComma();
      assert AllDigits(Three(n), 10);
      NoComma(Three(n));
      NumeralThree(n);
    }
  }

  lemma OnlyComma()
    ensures Without([COMMA], COMMA) == []
  {
    assert [COMMA][1..] == [];
  }

  lemma NoComma(s: seq<Byte>)
    requires AllDigits(s, 10)
    ensures COMMA !in s && Without(s, COMMA) == s
  {
    assert DigitValue(COMMA) == 16;
  }

  /** Byte `i` is a comma exactly if it is the fourth, eighth, ... from the end. */
  ghost predicate CommaPlaced(s: seq<Byte>, i: nat)
    requires i < |s|
  {
    s[i] == COMMA <==> (|s| - 1 - i) % 4 == 3
  }

  ghost predicate CommasPlaced(s: seq<Byte>)
  {
    (forall i :: 0 <= i < |s| ==> CommaPlaced(s, i)) && s != [] && s[0] != COMMA && |s| % 4 != 0
  }

  /** Every group after the first has exactly three digits, and the first has one to three. */
  lemma {:induction false} CommasEveryThreeDigits(n: nat)
    ensures CommasPlaced(Grouped(n))
    decreases n
  {
    hide Numeral, CommasPlaced;
    if n < 1000 {
      FirstGroup(n);
    } else {
      CommasEveryThreeDigits(n / 1000);
      GroupAppended(Grouped(n / 1000), Three(n));
    }
  }

  lemma FirstGroup(n: nat)
    requires n < 1000
    ensures CommasPlaced(Numeral(n, 10))
  {
    hide Numeral;
    NoComma(Numeral(n, 10));
    assert Pow(10, 3) == 1000;
    NumeralLength(n, 10, 3);
  }

  lemma GroupAppended(head: seq<Byte>, three: seq<Byte>)
    requires CommasPlaced(head)
    requires |three| == 3 && three[0] != COMMA && three[1] != COMMA && three[2] != COMMA
    ensures CommasPlaced(head + ([COMMA] + three))
  {
    var s := head + ([COMMA] + three);
    forall i | 0 <= i < |s| ensures CommaPlaced(s, i) {
      if i < |head| {
        assert CommaPlaced(head, i) && s[i] == head[i];
        assert |s| - 1 - i == (|head| - 1 - i) + 4;
      } else {
        assert s[i] == ([COMMA] + three)[i - |head|];
      }
    }
  }

  /** A power of 1000. */
  predicate Thousands(d: nat) { d == 1 || (d >= 1000 && d % 1000 == 0 && Thousands(d / 1000)) }

  /** The groups from the one worth `div` downwards, each after its comma. */
  function Tail(n: nat, div: nat): seq<Byte>
  {
    if div == 0 then [] else ([COMMA] + Three(n / div)) + Tail(n, div / 1000)
  }

  lemma DivDiv(n: nat, a: nat)
    requires a > 0
    ensures n / a / 1000 == n / (a * 1000)
  {
    var q, r := n / a, n % a;
    var p, s := q / 1000, q % 1000;
    assert n == q * a + r && q == p * 1000 + s;
    GroupParts(p, s, a);
    GroupBelow(s, a, r);
    DivModUnique(n, a * 1000, p, s * a + r);
  }

  lemma GroupParts(p: nat, s: nat, a: nat)
    ensures (p * 1000 + s) * a == p * (a * 1000) + s * a
  {
    assert (p * 1000) * a == p * (a * 1000) by { MulAssoc(p, 1000, a); }
  }

  lemma GroupBelow(s: nat, a: nat, r: nat)
    requires s < 1000 && r < a
    ensures s * a + r < a * 1000
  {
    MulMonotone(s, 999, a);
  }

  /** The leading group and the groups after it make up the grouped text. */
  lemma {:induction false} GroupedSplit(n: nat, div: nat)
    requires Thousands(div) && (n / div > 0 || div == 1)
    ensures Grouped(n) == Grouped(n / div) + Tail(n, div / 1000)
    decreases div
  {
    hide Grouped, Tail, Three, Thousands;
    ThousandsLess(div);
    TailStep(n, div / 1000);
    if div == 1 {
      assert Grouped(n) + [] == Grouped(n) && Tail(n, 0) == [];
    } else {
      var d := div / 1000;
      DivDiv(n, d);
      GroupedSplit(n, d);
      GroupedStep(n / d);
      var head, group, rest := Grouped(n / div), [COMMA] + Three(n / d), Tail(n, d / 1000);
      assert (head + group) + rest == head + (group + rest);
    }
  }

  lemma ThousandsLess(d: nat)
    requires Thousands(d)
    ensures d > 0 && (d == 1 || (d / 1000 > 0 && d / 1000 * 1000 == d && d / 1000 < d && Thousands(d / 1000)))
  {
  }

  lemma GroupedStep(n: nat)
    requires n / 1000 > 0
    ensures Grouped(n) == Grouped(n / 1000) + ([COMMA] + Three(n))
  {
    hide Three;
  }

  /** The first loop of `fprintgrouped`: the divisor never exceeds the number, so it does not overflow. */
  method TopDivisor(n: nat) returns (div: nat)
    requires n < TWO64
    ensures Thousands(div) && div > 0 && Over(n, div) < 1000 && (Over(n, div) > 0 || div == 1) && (div <= n || div == 1)
  {
    hide U64, Over, Thousands;
    div := 1;
    ThousandsTimes(1);
    while Over(n, div) / 1000 != 0
      invariant Thousands(div) && div > 0 && (Over(n, div) > 0 || div == 1) && (div <= n || div == 1)
      decreases n - div
    {
      MoreGroups(n, div);
      ThousandsTimes(div);
      div := U64(div * 1000);
    }
  }

  lemma ThousandsTimes(d: nat)
    ensures Thousands(1) && (Thousands(d) ==> Thousands(d * 1000))
  {
    assert d * 1000 % 1000 == 0 && d * 1000 / 1000 == d;
  }

  lemma MoreGroups(n: nat, div: nat)
    requires div > 0 && Over(n, div) >= 1000
    ensures div * 1000 <= n && Over(n, div * 1000) > 0
  {
    DivDiv(n, div);
    var q := n / (div * 1000);
    DivBounds(n, div * 1000);
    MulAtLeast(div * 1000, q);
    assert q * (div * 1000) == (div * 1000) * q;
  }

  /** `fprintgrouped`. */
  method FprintGrouped(n: nat, file: File) returns (err: Err, ghost taken: nat)
    requires n < TWO64 && file.Valid() && file.Writable()
    modifies file.Repr
    ensures file.Valid() && Wrote(old(file.Output()), file.Output(), Grouped(n), err, taken)
    ensures file.Progressing() ==> err == Ok
  {
    hide File.Valid, File.Output, File.Stream, File.Below, File.Progressing, File.Exact;
    hide Grouped, Tail, Wrote, Three, Thousands, StillToCome, GroupText;
    var div := TopDivisor(n);
    OverIs(n, div);
    GroupedSplit(n, div);
    FirstToCome(n, div);
    var first := true;
    taken, err := 0, Ok;
    ghost var done: seq<Byte> := [];
    Nothing(file.Output());
    ThousandsPositive(div);
    while div > 0
      invariant file.Valid() && taken == |done| && err == Ok
      invariant Wrote(old(file.Output()), file.Output(), done, Ok, |done|)
      invariant StillToCome(n, div, first, done)
      decreases div
    {
      ghost var o := file.Output();
      ghost var text := GroupText(n, div, first);
      GroupNext(n, div, first, done);
      ghost var t;
      err, t := FprintGroup(n, div, first, file);
      WroteBoth(old(file.Output()), o, file.Output(), done, text, err, t);
      taken := taken + t;
      if err != Ok {
        WroteFirst(old(file.Output()), file.Output(), done + text, Tail(n, div / 1000), err, taken);
        return;
      }
      WroteAll(o, file.Output(), text, t);
      first := false;
      done := done + text;
      div := div / 1000;
    }
    AllGroups(n, first, done);
  }

  /** What the body of its second loop writes. */
  function GroupText(n: nat, div: nat, first: bool): seq<Byte>
    requires div > 0
  {
    if first then Grouped(n / div) else [COMMA] + Three(n / div)
  }

  /** `done` has been written, and the groups from the one worth `div` on are to follow. */
  ghost predicate StillToCome(n: nat, div: nat, first: bool, done: seq<Byte>)
  {
    if first then done == [] && div > 0 && n / div < 1000 && Grouped(n) == Grouped(n / div) + Tail(n, div / 1000)
    else Grouped(n) == done + Tail(n, div)
  }

  lemma FirstToCome(n: nat, div: nat)
    requires div > 0
    ensures n / div < 1000 && Grouped(n) == Grouped(n / div) + Tail(n, div / 1000) ==> StillToCome(n, div, true, [])
  {
  }

  lemma GroupNext(n: nat, div: nat, first: bool, done: seq<Byte>)
    requires div > 0
    ensures StillToCome(n, div, first, done) ==>
      (first ==> n / div < 1000) && Grouped(n) == (done + GroupText(n, div, first)) + Tail(n, div / 1000) &&
      StillToCome(n, div / 1000, false, done + GroupText(n, div, first))
  {
    hide Grouped, Tail, Three;
    TailStep(n, div);
    assert [] + Grouped(n / div) == Grouped(n / div);
  }

  lemma AllGroups(n: nat, first: bool, done: seq<Byte>)
    requires StillToCome(n, 0, first, done)
    ensures done == Grouped(n)
  {
    TailStep(n, 0);
    assert done + [] == done;
  }

  lemma ThousandsPositive(d: nat)
    requires Thousands(d)
    ensures d > 0
  {
  }

  lemma TailStep(n: nat, div: nat)
    ensures Tail(n, div) == if div == 0 then [] else ([COMMA] + Three(n / div)) + Tail(n, div / 1000)
  {
  }

  lemma WroteAll(o: seq<Byte>, p: seq<Byte>, text: seq<Byte>, t: nat)
    requires Wrote(o, p, text, Ok, t)
    ensures t == |text|
  {
  }

  /** The body of its second loop. */
  method FprintGroup(n: nat, div: nat, first: bool, file: File) returns (err: Err, ghost taken: nat)
    requires n < TWO64 && div > 0 && (first ==> n / div < 1000) && file.Valid() && file.Writable()
    modifies file.Repr
    ensures file.Valid() && Wrote(old(file.Output()), file.Output(), GroupText(n, div, first), err, taken)
    ensures file.Progressing() ==> err == Ok
  {
    hide File.Valid, File.Output, File.Stream, File.Below, Numeral, Digits, Three;
    DivAtMost(n, div);
    var k;
    if first {
      k, err, taken := FprintUnsigned(n / div, Decimal, file);
    } else {
      k, err, taken := Fprintc(COMMA, file);
      OneByte(old(file.Output()), COMMA, file.Output(), err, taken);
      if err != Ok {
        WroteFirst(old(file.Output()), file.Output(), [COMMA], Three(n / div), err, taken);
        return;
      }
      ghost var o, t := file.Output(), 0;
      err, t := FprintDigits(n / div, 100, file);
      ThreeDigits(n / div);
      WroteBoth(old(file.Output()), o, file.Output(), [COMMA], Three(n / div), err, t);
      taken := 1 + t;
    }
  }

  lemma ThreeDigits(m: nat)
    ensures Digits(m, 100) == Three(m)
  {
    assert Digits(m, 0) == [];
    assert Digits(m, 1) == [ZERO + m / 1 % 10] + Digits(m, 0);
    assert Digits(m, 10) == [ZERO + m / 10 % 10] + Digits(m, 1);
  }
}
