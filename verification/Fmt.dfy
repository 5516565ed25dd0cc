/** The integer printers of src/ministd_fmt.c. */
module Fmt {
  import opened Prelude
  import opened Numerals
  import opened Files
  import opened LineIO

  const TWO63: int := 0x8000_0000_0000_0000

  // ------------------------------------------------------------------ printing

  /** The base of a family of printers, and the sizes of their digit buffers. */
  datatype Radix = Decimal | Binary | Hex {
    function Base(): (b: nat) ensures 2 <= b <= 16 { match this case Decimal => 10 case Binary => 2 case Hex => 16 }

    function SignedCap(): nat { match this case Decimal => 20 case Binary => 63 case Hex => 16 }

    function UnsignedCap(): nat { match this case Decimal => 21 case Binary => 64 case Hex => 16 }
  }

  /** The buffers are large enough for every value of their type. */
  lemma BuffersSuffice(r: Radix)
    ensures TWO63 <= Pow(r.Base(), r.SignedCap()) && TWO64 <= Pow(r.Base(), r.UnsignedCap())
  {
    match r
    case Decimal =>
      assert Pow(10, 5) == 100_000;
      PowAdd(10, 5, 5);
      PowAdd(10, 10, 10);
      assert Pow(10, 21) == 10 * Pow(10, 20);
    case Binary =>
      assert Pow(2, 4) == 16;
      PowAdd(2, 4, 4);
      PowAdd(2, 8, 8);
      PowAdd(2, 16, 16);
      PowAdd(2, 32, 32);
      assert Pow(2, 64) == 2 * Pow(2, 63);
    case Hex =>
      assert Pow(16, 2) == 256;
      PowAdd(16, 2, 2);
      PowAdd(16, 4, 4);
      PowAdd(16, 8, 8);
  }

  /** The bases, by what ten looks like in each. */
  lemma TenInEachRadix()
    ensures Numeral(10, Decimal.Base()) == ['1' as int, '0' as int]
    ensures Numeral(10, Binary.Base()) == ['1' as int, '0' as int, '1' as int, '0' as int]
    ensures Numeral(10, Hex.Base()) == ['a' as int]
  {
    assert Numeral(1, 10) == [49];
    assert Numeral(2, 2) == [49, 48] by { assert Numeral(1, 2) == [49]; }
    assert Numeral(5, 2) == Numeral(2, 2) + [49];
    assert Numeral(10, 2) == Numeral(5, 2) + [48];
  }

  /** The digit loop: the buffer is filled from the right while the value is divided. It stops because the value
      has reached 0, never because of the length cap, and no index leaves the buffer. */
  method FillDigits(value: nat, base: nat, cap: nat) returns (buf: array<Byte>, len: nat)
    requires 2 <= base <= 16 && 0 < value < Pow(base, cap)
    ensures fresh(buf) && buf.Length == cap + 1 && 0 < len <= cap
    ensures buf[cap - len..cap] == Numeral(value, base) && buf[cap] == NUL
  {
    hide Numeral, Filled, Pow;
    buf := new Byte[cap + 1];
    buf[cap] := NUL;
    len := 1;
    var n: nat := value;
    FilledStart(value, base, buf[cap..cap]);
    while len <= cap && n > 0
      invariant 1 <= len <= cap + 1 && buf[cap] == NUL
      invariant n < Pow(base, cap + 1 - len)
      invariant Filled(value, base, n, buf[cap + 1 - len..cap])
      decreases n
    {
      n := PutDigit(buf, cap, len, value, n, base);
      len := len + 1;
    }
    PowStep(base, 0);
    FilledEnd(value, base, buf[cap + 1 - len..cap]);
    len := len - 1;
  }

  /** The body of the digit loop. */
  method PutDigit(buf: array<Byte>, cap: nat, len: nat, ghost value: nat, n: nat, base: nat) returns (rest: nat)
    requires 2 <= base <= 16 && buf.Length == cap + 1 && 1 <= len <= cap && 0 < n < Pow(base, cap + 1 - len)
    requires Filled(value, base, n, buf[cap + 1 - len..cap])
    modifies buf
    ensures rest < n && rest < Pow(base, cap - len) && buf[cap] == old(buf[cap])
    ensures Filled(value, base, rest, buf[cap - len..cap])
  {
    hide Numeral, Filled, Pow;
    ghost var done := buf[cap + 1 - len..cap];
    PowStep(base, cap - len);
    NextDigit(n, base, Pow(base, cap - len));
    var d := n % base;
    rest := n / base;
    FilledStep(value, base, n, done, rest, d);
    buf[cap - len] := DigitByte(d);
    assert buf[cap - len..cap] == [DigitByte(d)] + done;
  }

  lemma NextDigit(n: nat, base: nat, p: nat)
    requires 2 <= base && 0 < n < base * p
    ensures 0 <= n / base < n && n / base < p && 0 <= n % base < base
  {
    DivMod(n, base);
    DivBelow(n, base, p);
    if n < base { DivModUnique(n, base, 0, n); }
  }

  lemma PowStep(base: nat, e: nat)
    ensures Pow(base, e + 1) == base * Pow(base, e) && Pow(base, 0) == 1
  {
  }

  lemma FilledStart(value: nat, base: nat, done: seq<Byte>)
    requires 2 <= base <= 16 && done == [] && value > 0
    ensures Filled(value, base, value, done)
  {
  }

  lemma FilledEnd(value: nat, base: nat, done: seq<Byte>)
    requires 2 <= base <= 16 && Filled(value, base, 0, done)
    ensures done == Numeral(value, base) && done != []
  {
    assert [] + done == done;
  }

  lemma NumeralSplit(n: nat, base: nat)
    requires 2 <= base <= 16
    ensures Numeral(n, base) == (if n / base > 0 then Numeral(n / base, base) else []) + [DigitByte(n % base)]
  {
    DivMod(n, base);
    if n < base { assert n / base == 0 && n % base == n; }
  }

  /** `done` holds the digits that have been split off `value`, leaving `n`. */
  ghost predicate Filled(value: nat, base: nat, n: nat, done: seq<Byte>)
    requires 2 <= base <= 16
  {
    Numeral(value, base) == (if n > 0 then Numeral(n, base) else []) + done
  }

  lemma FilledStep(value: nat, base: nat, n: nat, done: seq<Byte>, rest: nat, d: nat)
    requires 2 <= base <= 16 && n > 0 && rest == n / base && d == n % base && d < base
    requires Filled(value, base, n, done)
    ensures Filled(value, base, rest, [DigitByte(d)] + done)
  {
    hide Numeral;
    NumeralSplit(n, base);
    var high := if rest > 0 then Numeral(rest, base) else [];
    assert (high + [DigitByte(d)]) + done == high + ([DigitByte(d)] + done);
  }

  /** The part of a text that has been written when an error stops the writing. */
  ghost predicate Wrote(before: seq<Byte>, after: seq<Byte>, text: seq<Byte>, err: Err, taken: nat)
  {
    taken <= |text| && after == before + text[..taken] && (err == Ok ==> taken == |text|)
  }

  lemma WroteBoth(o: seq<Byte>, p: seq<Byte>, q: seq<Byte>, a: seq<Byte>, b: seq<Byte>, err: Err, t: nat)
    requires Wrote(o, p, a, Ok, |a|) && Wrote(p, q, b, err, t)
    ensures Wrote(o, q, a + b, err, |a| + t)
  {
    assert a[..|a|] == a;
    assert (a + b)[..|a| + t] == a + b[..t];
  }

  lemma WroteFirst(o: seq<Byte>, p: seq<Byte>, a: seq<Byte>, b: seq<Byte>, err: Err, t: nat)
    requires Wrote(o, p, a, err, t) && err != Ok
    ensures Wrote(o, p, a + b, err, t)
  {
    assert (a + b)[..t] == a[..t];
  }

  lemma Nothing(o: seq<Byte>)
    ensures Wrote(o, o, [], Ok, 0)
  {
  }

  lemma IsWrote(o: seq<Byte>, p: seq<Byte>, text: seq<Byte>, err: Err, t: nat)
    ensures Wrote(o, p, text, err, t) <==> t <= |text| && p == o + text[..t] && (err == Ok ==> t == |text|)
  {
  }

  lemma OneByte(o: seq<Byte>, b: Byte, p: seq<Byte>, err: Err, t: nat)
    requires t <= 1 && p == o + [b][..t] && (err == Ok ==> t == 1)
    ensures Wrote(o, p, [b], err, t)
  {
  }

  /** `fprintc`. */
  method Fprintc(c: Byte, file: File) returns (n: nat, err: Err, ghost taken: nat)
    requires file.Valid() && file.Writable()
    modifies file.Repr
    ensures file.Valid() && file.ReadSideKept() && taken <= 1
    ensures file.Output() == old(file.Output()) + [c][..taken]
    ensures n == (if err == Ok then 1 else 0) && (err == Ok ==> taken == 1)
    ensures file.Progressing() ==> err == Ok
  {
    err, taken := file.Fputc(c);
    n := if err == Ok then 1 else 0;
  }

  /** `fprintul`, `fprintulb` and `fprintulx`. */
  method FprintUnsigned(value: nat, r: Radix, file: File) returns (n: nat, err: Err, ghost taken: nat)
    requires value < TWO64 && file.Valid() && file.Writable()
    modifies file.Repr
    ensures file.Valid() && file.ReadSideKept() && taken <= |Numeral(value, r.Base())|
    ensures file.Output() == old(file.Output()) + Numeral(value, r.Base())[..taken]
    ensures err == Ok ==> n == taken == |Numeral(value, r.Base())|
    ensures err != Ok ==> n == 0
    ensures file.Progressing() ==> err == Ok
  {
    hide File.Valid, File.Stream, File.Output, File.Below;
    if value == 0 {
      assert Numeral(0, r.Base()) == [ZERO];
      n, err, taken := Fprintc(ZERO, file);
      return;
    }
    BuffersSuffice(r);
    var cap := r.UnsignedCap();
    var buf, len := FillDigits(value, r.Base(), cap);
    n, err, taken := FputsDigits(buf, cap, len, value, r.Base(), file);
  }

  /** `fputs` of the digits that end just before index `cap`. */
  method FputsDigits(buf: array<Byte>, cap: nat, len: nat, ghost value: nat, ghost base: nat, file: File)
    returns (n: nat, err: Err, ghost taken: nat)
    requires 2 <= base <= 16 && buf.Length == cap + 1 && len <= cap
    requires buf[cap - len..cap] == Numeral(value, base) && buf[cap] == NUL
    requires file.Valid() && file.Writable() && buf !in file.Repr
    modifies file.Repr
    ensures file.Valid() && file.ReadSideKept() && taken <= |Numeral(value, base)|
    ensures file.Output() == old(file.Output()) + Numeral(value, base)[..taken]
    ensures n == (if err == Ok then |Numeral(value, base)| else 0)
    ensures err == Ok ==> taken == |Numeral(value, base)|
    ensures file.Progressing() ==> err == Ok
  {
    hide File.Valid, File.Stream, File.Output, File.Below;
    ghost var digits := Numeral(value, base);
    assert buf[cap - len..] == digits + [NUL];
    assert NUL !in digits by { assert DigitValue(NUL) == 16; }
    CStringUnique(buf[cap - len..], digits);
    n, err, taken := Fputs(buf[cap - len..], file);
  }

  /** The cast of a long to unsigned long. */
  function CastUnsigned(l: int): (u: nat)
    requires -TWO63 <= l < TWO63
    ensures u < TWO64
  {
    if l < 0 then l + TWO64 else l
  }

  /** `(~u)+1` on 64 bits: equal to `u` for 0 and for the least long only. */
  function Negated(u: nat): nat
    requires u < TWO64
  {
    if u == 0 then 0 else TWO64 - u
  }

  /** `fprintl`, `fprintlb` and `fprintlx`: the least value is printed through its unsigned twin, the other negative
      ones through their magnitude. */
  method FprintSigned(value: int, r: Radix, file: File) returns (n: nat, err: Err, ghost taken: nat)
    requires -TWO63 <= value < TWO63 && file.Valid() && file.Writable()
    modifies file.Repr
    decreases value < 0, 1
    ensures file.Valid() && file.ReadSideKept() && taken <= |SignedNumeral(value, r.Base())|
    ensures file.Output() == old(file.Output()) + SignedNumeral(value, r.Base())[..taken]
    ensures err == Ok ==> n == taken == |SignedNumeral(value, r.Base())|
    ensures err != Ok ==> n == 0 || (n == 1 && value < 0)
    ensures file.Progressing() ==> err == Ok
  {
    hide File.Valid, File.Stream, File.Output, File.Below;
    assert Numeral(0, r.Base()) == [ZERO];
    hide Numeral;
    if value == 0 {
      n, err, taken := Fprintc(ZERO, file);
      return;
    }
    var u := CastUnsigned(value);
    if u == Negated(u) || value < 0 {
      n, err, taken := FprintNegative(value, u, r, file);
      return;
    }
    BuffersSuffice(r);
    var cap := r.SignedCap();
    var buf, len := FillDigits(value, r.Base(), cap);
    n, err, taken := FputsDigits(buf, cap, len, value, r.Base(), file);
  }

  /** The two branches for negative values. */
  method FprintNegative(value: int, u: nat, r: Radix, file: File) returns (n: nat, err: Err, ghost taken: nat)
    requires -TWO63 <= value < 0 && u == CastUnsigned(value) && file.Valid() && file.Writable()
    modifies file.Repr
    decreases true, 0
    ensures file.Valid() && file.ReadSideKept() && taken <= |SignedNumeral(value, r.Base())|
    ensures file.Output() == old(file.Output()) + SignedNumeral(value, r.Base())[..taken]
    ensures err == Ok ==> n == taken == |SignedNumeral(value, r.Base())|
    ensures err != Ok ==> n <= 1
    ensures file.Progressing() ==> err == Ok
  {
    hide File.Valid, File.Stream, File.Output, File.Below, Numeral, SignedNumeral, Wrote;
    ghost var o, digits := file.Output(), Numeral(-value, r.Base());
    MinusFirst(value, r.Base());
    n, err, taken := Fprintc(MINUS, file);
    ghost var p, t := file.Output(), 0;
    OneByte(o, MINUS, p, err, taken);
    if err != Ok {
      WroteFirst(o, p, [MINUS], digits, err, taken);
      IsWrote(o, p, SignedNumeral(value, r.Base()), err, taken);
      return 0, err, taken;
    }
    if u == Negated(u) {
      n, err, t := FprintUnsigned(u, r, file);
    } else {
      n, err, t := FprintSigned(-value, r, file);
    }
    IsWrote(p, file.Output(), digits, err, t);
    WroteBoth(o, p, file.Output(), [MINUS], digits, err, t);
    n, taken := n + 1, t + 1;
    IsWrote(o, file.Output(), SignedNumeral(value, r.Base()), err, taken);
  }

  lemma MinusFirst(value: int, base: nat)
    requires value < 0 && 2 <= base <= 16
    ensures SignedNumeral(value, base) == [MINUS] + Numeral(-value, base)
    ensures SignedNumeral(-value, base) == Numeral(-value, base)
  {
    hide Numeral;
  }
}
