/** The integer scanners of src/ministd_fmt.c, and that scanning undoes printing. */
module Scan {
  import opened Prelude
  import opened Numerals
  import opened Files

  /** short, int and long are 16, 32 and 64 bits wide. */
  datatype Width = W16 | W32 | W64 {
    function Modulus(): (m: nat) ensures m > 0 && m % 2 == 0 {
      match this case W16 => 0x1_0000 case W32 => 0x1_0000_0000 case W64 => TWO64
    }
  }

  datatype IntType = IntType(signed: bool, width: Width) {
    predicate Has(x: int) {
      var m := width.Modulus();
      if signed then -(m / 2) <= x < m / 2 else 0 <= x < m
    }

    /** The value of this type that `x` is converted to: it wraps. */
    function Convert(x: int): (r: int)
      ensures Has(r) && (Has(x) ==> r == x)
    {
      var m := width.Modulus();
      if signed then WrapSmall(x, m / 2, m); (x + m / 2) % m - m / 2 else WrapSmall(x, 0, m); x % m
    }
  }

  lemma WrapSmall(x: int, half: nat, m: nat)
    requires m > 0
    ensures 0 <= x + half < m ==> (x + half) % m == x + half
  {
  }

  /** A conversion changes a number by a multiple of the modulus only. */
  lemma ConvertIsCongruent(t: IntType, x: int)
    ensures (t.Convert(x) - x) % t.width.Modulus() == 0
  {
    var m := t.width.Modulus();
    var half := if t.signed then m / 2 else 0;
    var q := (x + half) / m;
    assert t.Convert(x) - x == 0 + m * (0 - q);
    ModShift(0, m, 0 - q);
  }

  /** `char c` holds a byte or EOF: bytes from 128 on turn negative. */
  function AsChar(c: int): int { if c >= 128 then c - 256 else c }

  predicate IsSpace(b: Byte) { AsChar(b) <= SPACE && AsChar(b) != -1 }

  predicate IsDecimal(b: Byte) { ZERO <= b <= NINE }

  function SpaceEnd(s: seq<Byte>, i: nat): (j: nat)
    requires i <= |s|
    ensures i <= j <= |s| && (forall k :: i <= k < j ==> IsSpace(s[k])) && (j < |s| ==> !IsSpace(s[j]))
    decreases |s| - i
  {
    if i < |s| && IsSpace(s[i]) then SpaceEnd(s, i + 1) else i
  }

  function DigitEnd(s: seq<Byte>, i: nat): (j: nat)
    requires i <= |s|
    ensures i <= j <= |s| && (forall k :: i <= k < j ==> IsDecimal(s[k])) && (j < |s| ==> !IsDecimal(s[j]))
    decreases |s| - i
  {
    if i < |s| && IsDecimal(s[i]) then DigitEnd(s, i + 1) else i
  }

  // ------------------------------------------------------------------ the digit loop

  function Signed(neg: bool, x: int): int { if neg then -x else x }

  /** The new `res` after one digit. */
  function Step(t: IntType, neg: bool, res: int, d: nat): (r: int)
    ensures t.Has(r)
  {
    t.Convert(t.Convert(res * 10) + Signed(neg, d))
  }

  /** The overflow test. */
  predicate Alarm(neg: bool, old_: int, new_: int) { if neg then new_ > old_ else new_ < old_ }

  /** What the digit loop makes of the digits `ds`: how many it consumes, whether it raises ERR_OVERFLOW on the
      last of these, and the value it has. */
  datatype Fold = Fold(used: nat, alarm: bool, res: int)

  function FoldDigits(t: IntType, neg: bool, res: int, ds: seq<Byte>): (f: Fold)
    requires AllDigits(ds, 10)
    decreases |ds|
    ensures f.used <= |ds| && (!f.alarm ==> f.used == |ds|) && (f.alarm ==> f.used > 0)
  {
    if ds == [] then Fold(0, false, res)
    else
      var r := Step(t, neg, res, DigitValue(ds[0]));
      if Alarm(neg, res, r) then Fold(1, true, r)
      else
        var f := FoldDigits(t, neg, r, ds[1..]);
        f.(used := f.used + 1)
  }

  lemma FoldCons(t: IntType, neg: bool, res: int, b: Byte, ds: seq<Byte>)
    requires AllDigits([b] + ds, 10)
    ensures AllDigits(ds, 10) && DigitValue(b) < 10
    ensures var r := Step(t, neg, res, DigitValue(b));
      FoldDigits(t, neg, res, [b] + ds) ==
        if Alarm(neg, res, r) then Fold(1, true, r)
        else FoldDigits(t, neg, r, ds).(used := FoldDigits(t, neg, r, ds).used + 1)
  {
    assert ([b] + ds)[0] == b && ([b] + ds)[1..] == ds;
    forall i | 0 <= i < |ds| ensures DigitValue(ds[i]) < 10 { assert ([b] + ds)[i + 1] == ds[i]; }
  }

  /** The number that a digit string and sign denote. */
  function Denoted(neg: bool, ds: seq<Byte>): int { Signed(neg, Value(ds, 10)) }

  lemma DenotedStep(neg: bool, done: seq<Byte>, b: Byte)
    ensures Denoted(neg, done + [b]) == Denoted(neg, done) * 10 + Signed(neg, DigitValue(b))
  {
    assert (done + [b])[..|done|] == done;
  }

  /** Conversions compose: only the residue matters. */
  lemma StepConverts(t: IntType, neg: bool, x: int, d: nat)
    ensures Step(t, neg, t.Convert(x), d) == t.Convert(x * 10 + Signed(neg, d))
  {
    var m := t.width.Modulus();
    var half := if t.signed then m / 2 else 0;
    var s := Signed(neg, d);
    var r := t.Convert(x);
    var q := (x + half) / m;
    assert x == r + m * q;
    var p := (r * 10 + half) / m;
    assert r * 10 == t.Convert(r * 10) + m * p;
    assert x * 10 + s == (t.Convert(r * 10) + s) + m * (p + 10 * q);
    ConvertShift(t, t.Convert(r * 10) + s, p + 10 * q);
  }

  lemma ConvertShift(t: IntType, x: int, k: int)
    ensures t.Convert(x + t.width.Modulus() * k) == t.Convert(x)
  {
    var m := t.width.Modulus();
    ModShift(x + if t.signed then m / 2 else 0, m, k);
  }

  /** Without an alarm the result is the denoted number, wrapped to the type. */
  lemma {:induction false} FoldIsConverted(t: IntType, neg: bool, done: seq<Byte>, ds: seq<Byte>)
    requires AllDigits(ds, 10)
    ensures var f := FoldDigits(t, neg, t.Convert(Denoted(neg, done)), ds);
      !f.alarm ==> f.res == t.Convert(Denoted(neg, done + ds))
    decreases |ds|
  {
    if ds == [] {
      assert done + ds == done;
    } else {
      DenotedStep(neg, done, ds[0]);
      StepConverts(t, neg, Denoted(neg, done), DigitValue(ds[0]));
      FoldIsConverted(t, neg, done + [ds[0]], ds[1..]);
      assert done + [ds[0]] + ds[1..] == done + ds;
    }
  }

  lemma AlarmMeansOutOfRange(t: IntType, neg: bool, done: seq<Byte>, b: Byte)
    requires DigitValue(b) < 10 && (neg ==> t.signed)
    ensures Alarm(neg, t.Convert(Denoted(neg, done)), t.Convert(Denoted(neg, done + [b]))) ==>
      !t.Has(Denoted(neg, done + [b]))
  {
    DenotedStep(neg, done, b);
  }

  lemma OneDigitOver(done: seq<Byte>, ds: seq<Byte>)
    requires AllDigits(done, 10) && AllDigits(ds, 10) && ds != []
    ensures AllDigits(done + [ds[0]], 10) && AllDigits(ds[1..], 10) && [ds[0]] + ds[1..] == ds
  {
  }

  /** No false alarms: the digits up to the one that raises ERR_OVERFLOW denote a number outside the type. */
  lemma {:induction false} NoFalseAlarm(t: IntType, neg: bool, done: seq<Byte>, ds: seq<Byte>)
    requires AllDigits(done, 10) && AllDigits(ds, 10) && (neg ==> t.signed)
    ensures var f := FoldDigits(t, neg, t.Convert(Denoted(neg, done)), ds);
      f.alarm ==> !t.Has(Denoted(neg, done + ds[..f.used]))
    decreases |ds|
  {
    hide FoldDigits, IntType.Convert, Denoted, AllDigits, IntType.Has, Step;
    if ds == [] {
      FoldNone(t, neg, t.Convert(Denoted(neg, done)));
    } else {
      var next := done + [ds[0]];
      OneDigitOver(done, ds);
      var f := FoldDigits(t, neg, t.Convert(Denoted(neg, next)), ds[1..]);
      FoldCons(t, neg, t.Convert(Denoted(neg, done)), ds[0], ds[1..]);
      AlarmMeansOutOfRange(t, neg, done, ds[0]);
      assert done + ds[..1] == next;
      DenotedStep(neg, done, ds[0]);
      StepConverts(t, neg, Denoted(neg, done), DigitValue(ds[0]));
      NoFalseAlarm(t, neg, next, ds[1..]);
      assert next + ds[1..][..f.used] == done + ds[..f.used + 1];
    }
  }

  /** Reading one more digit than `k` makes the wrapped value fall (or rise, when it is negative). */
  ghost predicate Turns(t: IntType, neg: bool, s: seq<Byte>, k: nat)
    requires k < |s|
  {
    var before, after := t.Convert(Denoted(neg, s[..k])), t.Convert(Denoted(neg, s[..k + 1]));
    if neg then before < after else after < before
  }

  /** ERR_OVERFLOW is raised exactly at the first digit that makes the wrapped value turn, if there is one. */
  lemma {:induction false} AlarmExactlyAtFirstTurn(t: IntType, neg: bool, done: seq<Byte>, ds: seq<Byte>)
    requires AllDigits(ds, 10)
    ensures var f, all := FoldDigits(t, neg, t.Convert(Denoted(neg, done)), ds), done + ds;
      f.used <= |ds| && (forall k: nat :: |done| <= k < |done| + f.used - 1 ==> !Turns(t, neg, all, k)) &&
      (f.used > 0 ==> (f.alarm <==> Turns(t, neg, all, |done| + f.used - 1))) && (!f.alarm ==> f.used == |ds|)
    decreases |ds|
  {
    hide FoldDigits, IntType.Convert, Denoted, AllDigits, Step;
    if ds == [] {
      FoldNone(t, neg, t.Convert(Denoted(neg, done)));
    } else {
      var next, all := done + [ds[0]], done + ds;
      OneDigitMore(ds);
      assert next + ds[1..] == all && all[..|done|] == done && all[..|done| + 1] == next;
      FoldCons(t, neg, t.Convert(Denoted(neg, done)), ds[0], ds[1..]);
      DenotedStep(neg, done, ds[0]);
      StepConverts(t, neg, Denoted(neg, done), DigitValue(ds[0]));
      AlarmExactlyAtFirstTurn(t, neg, next, ds[1..]);
    }
  }

  lemma OneDigitMore(ds: seq<Byte>)
    requires AllDigits(ds, 10) && ds != []
    ensures AllDigits(ds[1..], 10) && [ds[0]] + ds[1..] == ds
  {
  }

  /** A prefix of an in-range numeral is in range. */
  lemma PrefixInRange(t: IntType, neg: bool, ds: seq<Byte>, k: nat)
    requires k <= |ds| && t.Has(Denoted(neg, ds)) && (neg ==> t.signed)
    ensures t.Has(Denoted(neg, ds[..k]))
  {
    ValueOfPrefix(ds, k, 10);
  }

  /** Every in-range numeral, leading zeros included, is read exactly; and a result without an alarm is the denoted
      number exactly when that number is in range. */
  lemma ScannedExactlyIfInRange(t: IntType, neg: bool, ds: seq<Byte>)
    requires AllDigits(ds, 10) && (neg ==> t.signed)
    ensures var f := FoldDigits(t, neg, 0, ds);
      t.Has(Denoted(neg, ds)) <==> (!f.alarm && f.res == Denoted(neg, ds))
  {
    var f := FoldDigits(t, neg, 0, ds);
    assert [] + ds == ds && [] + ds[..f.used] == ds[..f.used];
    assert Denoted(neg, []) == 0 && t.Convert(0) == 0;
    FoldIsConverted(t, neg, [], ds);
    NoFalseAlarm(t, neg, [], ds);
    if t.Has(Denoted(neg, ds)) { PrefixInRange(t, neg, ds, f.used); }
  }

  /** The overflow test misses some wraps: 90000 is read as 24464 into an unsigned short. */
  lemma AlarmIsIncomplete()
    ensures Value([57, 48, 48, 48, 48], 10) == 90000
    ensures FoldDigits(IntType(false, W16), false, 0, [57, 48, 48, 48, 48]) == Fold(5, false, 24464)
  {
    ValueOf90000();
    ShortSteps();
    hide FoldDigits, Value, Step;
    FoldNone(IntType(false, W16), false, 24464);
    QuietStep(9000, 48, 24464, []);
    QuietStep(900, 48, 9000, [48]);
    QuietStep(90, 48, 900, [48, 48]);
    QuietStep(9, 48, 90, [48, 48, 48]);
    QuietStep(0, 57, 9, [48, 48, 48, 48]);
    assert [48] + [] == [48] && [48] + [48] == [48, 48] && [48] + [48, 48] == [48, 48, 48];
    assert [48] + [48, 48, 48] == [48, 48, 48, 48] && [57] + [48, 48, 48, 48] == [57, 48, 48, 48, 48];
  }

  lemma ShortSteps()
    ensures var t := IntType(false, W16);
      Step(t, false, 0, 9) == 9 && Step(t, false, 9, 0) == 90 && Step(t, false, 90, 0) == 900 &&
      Step(t, false, 900, 0) == 9000 && Step(t, false, 9000, 0) == 24464
  {
  }

  /** A digit of an unsigned short that raises no alarm. */
  lemma QuietStep(res: int, b: Byte, r: int, ds: seq<Byte>)
    requires DigitValue(b) < 10 && AllDigits(ds, 10)
    requires r >= res && Step(IntType(false, W16), false, res, DigitValue(b)) == r
    ensures AllDigits([b] + ds, 10)
    ensures var f := FoldDigits(IntType(false, W16), false, r, ds);
      FoldDigits(IntType(false, W16), false, res, [b] + ds) == f.(used := f.used + 1)
  {
    hide FoldDigits, Step;
    FoldCons(IntType(false, W16), false, res, b, ds);
  }

  lemma ValueOf90000()
    ensures Value([57, 48, 48, 48, 48], 10) == 90000
  {
    hide Value;
    assert Value([57], 10) == 9 by { ValueOfOne(57, 10); }
    var ds: seq<Byte> := [57];
    var i := 0;
    while i < 4
      invariant 0 <= i <= 4 && |ds| == i + 1 && ds[0] == 57 && (forall k :: 1 <= k <= i ==> ds[k] == 48)
      invariant Value(ds, 10) ==
        if i == 0 then 9 else if i == 1 then 90 else if i == 2 then 900 else if i == 3 then 9000 else 90000
    {
      AppendDigit(ds, 0, 10);
      ds := ds + [48];
      i := i + 1;
    }
    assert ds == [57, 48, 48, 48, 48];
  }

  // ------------------------------------------------------------------ a whole scan

  datatype Scanned = Scanned(value: int, err: Err, rest: seq<Byte>)

  /** The scan from where the digits should start. A byte 0xFF after them looks like EOF and is swallowed. */
  function ScanFrom(t: IntType, neg: bool, s: seq<Byte>, j: nat): (r: Scanned)
    requires j <= |s|
    ensures t.Has(r.value) && (r.err != Ok ==> r.value == 0)
  {
    if j == |s| || !IsDecimal(s[j]) then Scanned(0, Parse, s[j..])
    else
      var e := DigitEnd(s, j);
      var f := FoldDigits(t, neg, 0, s[j..e]);
      FoldHasType(t, neg, 0, s[j..e]);
      if f.alarm then Scanned(0, Overflow, s[j + f.used..])
      else Scanned(f.res, Ok, s[if e < |s| && s[e] == 255 then e + 1 else e..])
  }

  /** What scanning one integer makes of a stream on which no read fails. */
  function ScanInt(t: IntType, s: seq<Byte>): (r: Scanned)
    ensures t.Has(r.value) && (r.err != Ok ==> r.value == 0)
  {
    var i := SpaceEnd(s, 0);
    if i == |s| || s[i] == 255 then Scanned(0, Eof, s[i..])
    else if t.signed && s[i] == MINUS then ScanFrom(t, true, s, i + 1)
    else ScanFrom(t, false, s, i)
  }

  lemma {:induction false} FoldHasType(t: IntType, neg: bool, res: int, ds: seq<Byte>)
    requires AllDigits(ds, 10) && t.Has(res)
    ensures !FoldDigits(t, neg, res, ds).alarm ==> t.Has(FoldDigits(t, neg, res, ds).res)
    decreases |ds|
  {
    if ds != [] { FoldHasType(t, neg, Step(t, neg, res, DigitValue(ds[0])), ds[1..]); }
  }

  /** What may follow a numeral without being taken for a part of it or being swallowed. */
  predicate Terminates(rest: seq<Byte>) { rest == [] || (!IsDecimal(rest[0]) && rest[0] != 255) }

  lemma {:induction false} SpacesSkipped(blanks: seq<Byte>, rest: seq<Byte>, i: nat)
    requires (forall k :: 0 <= k < |blanks| ==> IsSpace(blanks[k])) && i <= |blanks|
    requires rest != [] ==> !IsSpace(rest[0])
    ensures SpaceEnd(blanks + rest, i) == |blanks|
    decreases |blanks| - i
  {
    if i < |blanks| { SpacesSkipped(blanks, rest, i + 1); }
  }

  /** The blanks of the scanners, by their codes: up to the space, and, as char is signed, 128 to 254. */
  lemma SpaceBytes(b: Byte)
    ensures IsSpace(b) <==> b <= 32 || 128 <= b <= 254
  {
  }

  /** What is refused: with nothing after the blanks, or the byte that looks like EOF, ERR_EOF; with no digit there,
      ERR_PARSE, a minus sign before it having been consumed. The value is 0, and the stream is left at what was
      found instead of a digit. */
  lemma ScanRefuses(t: IntType, blanks: seq<Byte>, rest: seq<Byte>)
    requires forall k :: 0 <= k < |blanks| ==> IsSpace(blanks[k])
    requires rest != [] ==> !IsSpace(rest[0])
    ensures rest == [] || rest[0] == 255 ==> ScanInt(t, blanks + rest) == Scanned(0, Eof, rest)
    ensures rest != [] && rest[0] != 255 && !IsDecimal(rest[0]) && !(t.signed && rest[0] == MINUS) ==>
      ScanInt(t, blanks + rest) == Scanned(0, Parse, rest)
    ensures rest != [] && t.signed && rest[0] == MINUS && (|rest| == 1 || !IsDecimal(rest[1])) ==>
      ScanInt(t, blanks + rest) == Scanned(0, Parse, rest[1..])
  {
    var s := blanks + rest;
    SpacesSkipped(blanks, rest, 0);
    assert s[|blanks|..] == rest;
    if rest != [] { assert s[|blanks| + 1..] == rest[1..]; }
  }

  /** What follows the digits of an overflow: after blanks, a sign and digits that raise the alarm, the value is 0, the
      error ERR_OVERFLOW, and the stream is left just behind the digit that raised it. */
  lemma ScanOverflows(t: IntType, neg: bool, before: seq<Byte>, ds: seq<Byte>, rest: seq<Byte>)
    requires AllDigits(ds, 10) && ds != [] && (rest == [] || !IsDecimal(rest[0]))
    requires FoldDigits(t, neg, 0, ds).alarm
    ensures ScanFrom(t, neg, before + (ds + rest), |before|) ==
      Scanned(0, Overflow, ds[FoldDigits(t, neg, 0, ds).used..] + rest)
  {
    hide FoldDigits, DigitEnd;
    var s, j, e := before + (ds + rest), |before|, |before| + |ds|;
    Middle(before, ds, rest);
    forall k | j <= k < e ensures IsDecimal(s[k]) { assert s[k] == ds[k - j] && DigitValue(ds[k - j]) < 10; }
    assert e < |s| ==> s[e] == rest[0];
    DigitsFound(s, j, e);
    var n := FoldDigits(t, neg, 0, ds).used;
    assert s[j + n..] == ds[n..] + rest;
  }

  lemma {:induction false} DigitsFound(s: seq<Byte>, i: nat, e: nat)
    requires i <= e <= |s| && (forall k :: i <= k < e ==> IsDecimal(s[k])) && (e < |s| ==> !IsDecimal(s[e]))
    ensures DigitEnd(s, i) == e
    decreases e - i
  {
    if i < e { DigitsFound(s, i + 1, e); }
  }

  /** Scan undoes print: after any blanks, a printed integer of the type is read back, and the stream is left
      exactly at what follows it. */
  lemma ScanUndoesPrint(t: IntType, x: int, blanks: seq<Byte>, rest: seq<Byte>)
    requires t.Has(x) && Terminates(rest) && forall k :: 0 <= k < |blanks| ==> IsSpace(blanks[k])
    ensures ScanInt(t, blanks + (SignedNumeral(x, 10) + rest)) == Scanned(x, Ok, rest)
  {
    hide Numeral, ScanInt, ScanFrom, SignedNumeral;
    var before, ds := SignFound(t, x, blanks, rest);
    NumeralScanned(t, x < 0, before, ds, rest);
  }

  lemma DigitsOf(t: IntType, x: int) returns (ds: seq<Byte>)
    requires t.Has(x)
    ensures AllDigits(ds, 10) && ds != [] && Denoted(x < 0, ds) == x && (x < 0 ==> t.signed)
    ensures IsDecimal(ds[0]) && SignedNumeral(x, 10) == (if x < 0 then [MINUS] else []) + ds
  {
    hide Numeral;
    ds := Numeral(if x < 0 then -x else x, 10);
    assert DigitValue(ds[0]) < 10;
  }

  /** The scan of a printed integer comes down to that of its digits, after the blanks and the sign. */
  lemma SignFound(t: IntType, x: int, blanks: seq<Byte>, rest: seq<Byte>) returns (before: seq<Byte>, ds: seq<Byte>)
    requires t.Has(x) && forall k :: 0 <= k < |blanks| ==> IsSpace(blanks[k])
    ensures AllDigits(ds, 10) && ds != [] && Denoted(x < 0, ds) == x && (x < 0 ==> t.signed)
    ensures ScanInt(t, blanks + (SignedNumeral(x, 10) + rest)) ==
      ScanFrom(t, x < 0, before + (ds + rest), |before|)
  {
    ds := DigitsOf(t, x);
    hide SignedNumeral, ScanInt, ScanFrom, SpaceEnd, IsSpace, AllDigits, Denoted, IntType.Has;
    var sign := if x < 0 then [MINUS] else [];
    var text := (sign + ds) + rest;
    before := blanks + sign;
    SignSplit(blanks, sign, ds, rest);
    SpaceBytes(text[0]);
    SpacesSkipped(blanks, text, 0);
    StartOfScan(t, blanks + text);
  }

  lemma SignSplit(blanks: seq<Byte>, sign: seq<Byte>, ds: seq<Byte>, rest: seq<Byte>)
    requires ds != [] && (sign == [] || sign == [MINUS])
    ensures var s := blanks + ((sign + ds) + rest);
      s == (blanks + sign) + (ds + rest) && |s| > |blanks| && s[|blanks|] == ((sign + ds) + rest)[0] &&
      s[|blanks|] == if sign == [] then ds[0] else MINUS
  {
  }

  /** And only then: whatever else follows a printed integer, the scan does not stop exactly at it. */
  lemma ScanUndoesPrintExactlyIfTerminated(t: IntType, x: int, blanks: seq<Byte>, rest: seq<Byte>)
    requires t.Has(x) && forall k :: 0 <= k < |blanks| ==> IsSpace(blanks[k])
    ensures ScanInt(t, blanks + (SignedNumeral(x, 10) + rest)) == Scanned(x, Ok, rest) <==> Terminates(rest)
  {
    hide Numeral, ScanInt, ScanFrom, SignedNumeral, Terminates;
    var before, ds := SignFound(t, x, blanks, rest);
    if Terminates(rest) {
      NumeralScanned(t, x < 0, before, ds, rest);
    } else {
      ScansFurther(t, x < 0, before, ds, rest);
    }
  }

  lemma ScansFurther(t: IntType, neg: bool, before: seq<Byte>, ds: seq<Byte>, rest: seq<Byte>)
    requires AllDigits(ds, 10) && ds != [] && !Terminates(rest) && (neg ==> t.signed)
    ensures var r := ScanFrom(t, neg, before + (ds + rest), |before|); r.err == Ok ==> |r.rest| < |rest|
  {
    hide FoldDigits, DigitEnd;
    var s, j, e := before + (ds + rest), |before|, |before| + |ds|;
    Middle(before, ds, rest);
    forall k | j <= k < e ensures IsDecimal(s[k]) { assert s[k] == ds[k - j] && DigitValue(ds[k - j]) < 10; }
    assert s[e] == rest[0];
    if !IsDecimal(rest[0]) { DigitsFound(s, j, e); }
    assert DigitEnd(s, j) >= e;
  }

  lemma Middle(a: seq<Byte>, b: seq<Byte>, c: seq<Byte>)
    ensures (a + (b + c))[|a|..|a| + |b|] == b && (a + (b + c))[|a| + |b|..] == c
  {
  }

  /** From its first digit on. */
  lemma NumeralScanned(t: IntType, neg: bool, before: seq<Byte>, ds: seq<Byte>, rest: seq<Byte>)
    requires AllDigits(ds, 10) && ds != [] && t.Has(Denoted(neg, ds)) && Terminates(rest) && (neg ==> t.signed)
    ensures ScanFrom(t, neg, before + (ds + rest), |before|) == Scanned(Denoted(neg, ds), Ok, rest)
  {
    hide FoldDigits, Value, Denoted, IntType.Has, DigitEnd;
    var s, j, e := before + (ds + rest), |before|, |before| + |ds|;
    Middle(before, ds, rest);
    forall k | j <= k < e ensures IsDecimal(s[k]) { assert s[k] == ds[k - j] && DigitValue(ds[k - j]) < 10; }
    assert e < |s| ==> s[e] == rest[0];
    DigitsFound(s, j, e);
    ScannedExactlyIfInRange(t, neg, ds);
  }

  // ------------------------------------------------------------------ lists

  /** An integer of some type, and the blanks printed after it. */
  datatype Item = Item(t: IntType, x: int, gap: seq<Byte>) {
    predicate Printable() { t.Has(x) && gap != [] && forall k :: 0 <= k < |gap| ==> IsSpace(gap[k]) }
  }

  function Print(items: seq<Item>): seq<Byte>
  {
    if items == [] then [] else SignedNumeral(items[0].x, 10) + (items[0].gap + Print(items[1..]))
  }

  /** Scanning once for each type, until an error. */
  function ScanList(ts: seq<IntType>, s: seq<Byte>): (seq<int>, Err, seq<Byte>)
  {
    if ts == [] then ([], Ok, s)
    else
      var r := ScanInt(ts[0], s);
      if r.err != Ok then ([], r.err, r.rest)
      else
        var (vs, err, rest) := ScanList(ts[1..], r.rest);
        ([r.value] + vs, err, rest)
  }

  function Types(items: seq<Item>): seq<IntType> { if items == [] then [] else [items[0].t] + Types(items[1..]) }

  function Values(items: seq<Item>): seq<int> { if items == [] then [] else [items[0].x] + Values(items[1..]) }

  lemma GapTerminates(it: Item, more: seq<Byte>)
    requires it.Printable()
    ensures Terminates(it.gap + more)
  {
    assert IsSpace(it.gap[0]);
  }

  /** Any list of integers of any supported types, printed with blanks in between, is scanned back unchanged, and
      the stream is left at the blanks after the last one. */
  lemma {:induction false} ScanListUndoesPrint(items: seq<Item>, blanks: seq<Byte>)
    requires forall i :: 0 <= i < |items| ==> items[i].Printable()
    requires forall k :: 0 <= k < |blanks| ==> IsSpace(blanks[k])
    ensures var r := ScanList(Types(items), blanks + Print(items));
      r.0 == Values(items) && r.1 == Ok &&
      r.2 == if items == [] then blanks else items[|items| - 1].gap
    decreases |items|
  {
    if items == [] {
      assert blanks + Print(items) == blanks;
    } else {
      var it, more := items[0], items[1..];
      assert it.Printable();
      GapTerminates(it, Print(more));
      FirstItem(items);
      ScanFirst(it.t, Types(more), blanks + Print(items));
      hide ScanInt, ScanList, SignedNumeral, Terminates, IsSpace, Item.Printable, Print, Types, Values;
      ScanUndoesPrint(it.t, it.x, blanks, it.gap + Print(more));
      ScanListUndoesPrint(more, it.gap);
      if more == [] { NoItems(it.gap); }
    }
  }

  lemma FirstItem(items: seq<Item>)
    requires items != []
    ensures Print(items) == SignedNumeral(items[0].x, 10) + (items[0].gap + Print(items[1..]))
    ensures Types(items) == [items[0].t] + Types(items[1..]) && Values(items) == [items[0].x] + Values(items[1..])
  {
  }

  lemma NoItems(s: seq<Byte>)
    ensures s + Print([]) == s && Values([]) == []
  {
  }

  lemma ScanFirst(t: IntType, ts: seq<IntType>, s: seq<Byte>)
    ensures var r := ScanInt(t, s);
      ScanList([t] + ts, s) ==
        if r.err != Ok then ([], r.err, r.rest)
        else var more := ScanList(ts, r.rest); ([r.value] + more.0, more.1, more.2)
  {
    assert ([t] + ts)[1..] == ts;
  }

  // ------------------------------------------------------------------ the methods

  /** The `fscan*` macros, signed and unsigned: unless a read of the file failed (`io`), exactly `ScanInt`. */
  method FscanInt(t: IntType, file: File) returns (value: int, err: Err, ghost io: bool)
    requires file.Valid() && file.Readable()
    modifies file.Repr
    ensures file.Valid() && file.Output() == old(file.Output()) && t.Has(value)
    ensures io ==> err != Ok && value == 0
    ensures !io ==> Scanned(value, err, file.Stream()) == ScanInt(t, old(file.Stream()))
    ensures file.Reliable() ==> !io
  {
    hide File.Valid, File.Stream, File.Output, File.Below, File.Readable, File.Reliable, IntType.Has, ScanInt, ScanFrom;
    ghost var s := file.Stream();
    var c;
    ghost var i;
    DigitsTypes(t);
    value, io := 0, false;
    c, err, i := SkipSpaces(file);
    StartOfScan(t, s);
    if err != Ok { io := true; return; }
    if c == -1 { err := Eof; return; }
    var neg := t.signed && c == MINUS as int;
    ghost var j := if neg then i + 1 else i;
    if neg {
      c, err := AfterMinus(file);
      io, c := err != Ok, AsChar(c);
      assert s[i..][1..] == s[j..];
    }
    DigitsOfScan(t, neg, s, j);
    if c < ZERO as int || c > NINE as int { err := Parse; return; }
    value, err, io := ScanDigits(t, neg, file, s, j);
    if err != Ok { value := 0; }
  }

  lemma StartOfScan(t: IntType, s: seq<Byte>)
    ensures var i := SpaceEnd(s, 0);
      ScanInt(t, s) ==
        if i == |s| || s[i] == 255 then Scanned(0, Eof, s[i..])
        else if t.signed && s[i] == MINUS then ScanFrom(t, true, s, i + 1) else ScanFrom(t, false, s, i)
  {
  }

  lemma DigitsOfScan(t: IntType, neg: bool, s: seq<Byte>, j: nat)
    requires j <= |s|
    ensures j == |s| || !IsDecimal(s[j]) ==> ScanFrom(t, neg, s, j) == Scanned(0, Parse, s[j..])
    ensures j < |s| && IsDecimal(s[j]) ==>
      var e := DigitEnd(s, j);
      var f := FoldDigits(t, neg, 0, s[j..e]);
      ScanFrom(t, neg, s, j) ==
        if f.alarm then Scanned(0, Overflow, s[j + f.used..])
        else Scanned(f.res, Ok, s[if e < |s| && s[e] == 255 then e + 1 else e..])
  {
  }

  lemma DigitsTypes(t: IntType)
    ensures t.Has(0)
  {
  }

  /** The first loop: blanks are consumed and the byte after them is peeked at. */
  method SkipSpaces(file: File) returns (c: int, err: Err, ghost used: nat)
    requires file.Valid() && file.Readable()
    modifies file.Repr
    ensures file.Valid() && file.Output() == old(file.Output())
    ensures used <= |old(file.Stream())| && file.Stream() == old(file.Stream())[used..]
    ensures err == Ok ==> used == SpaceEnd(old(file.Stream()), 0)
    ensures err == Ok ==> c == if file.Stream() == [] then -1 else AsChar(file.Stream()[0])
    ensures err == Ok && c != -1 ==> file.hasUngot
    ensures file.Reliable() ==> err == Ok
  {
    hide File.Valid, File.Stream, File.Output, File.Below, File.Readable, File.Reliable;
    ghost var s := file.Stream();
    used := 0;
    c, err := file.Peekc();
    c := AsChar(c);
    while c != -1 && c <= SPACE
      invariant file.Valid() && file.Output() == old(file.Output())
      invariant used <= |s| && SpaceEnd(s, 0) == SpaceEnd(s, used) && file.Stream() == s[used..]
      invariant c == if err == Ok && file.Stream() != [] then AsChar(file.Stream()[0]) else -1
      invariant c != -1 ==> file.hasUngot
      invariant file.Reliable() ==> err == Ok
      decreases |s| - used
    {
      c, err := file.Fgetc();
      used := used + 1;
      assert file.Stream() == s[used..];
      c, err := file.Peekc();
      c := AsChar(c);
    }
  }

  /** Consuming the minus sign; neither call's error is looked at. */
  method AfterMinus(file: File) returns (c: int, err: Err)
    requires file.Valid() && file.Readable() && file.Stream() != [] && file.hasUngot
    modifies file.Repr
    ensures file.Valid() && file.Output() == old(file.Output())
    ensures file.Stream() == old(file.Stream())[1..]
    ensures c == if err == Ok && file.Stream() != [] then file.Stream()[0] else -1
    ensures file.Reliable() ==> err == Ok
  {
    hide File.Valid, File.Stream, File.Output, File.Below, File.Readable, File.Reliable;
    c, err := file.Fgetc();
    assert old(file.Stream())[1..] == file.Stream();
    c, err := file.Peekc();
  }

  /** `fgetc` into a char. */
  method NextChar(file: File, ghost s: seq<Byte>, ghost k: nat) returns (c: int, err: Err)
    requires file.Valid() && file.Readable() && k <= |s| && file.Stream() == s[k..]
    modifies file.Repr
    ensures file.Valid() && file.Output() == old(file.Output()) && !file.hasUngot
    ensures err == Ok ==> AheadOf(s, k, c, file.Stream())
    ensures err != Ok ==> c == -1
    ensures file.Reliable() ==> err == Ok
  {
    hide File.Valid, File.Stream, File.Output, File.Below, File.Readable, File.Reliable;
    c, err := file.Fgetc();
    assert c != -1 ==> s[k..] == [c] + file.Stream() && s[k..][1..] == s[k + 1..];
    c := AsChar(c);
  }

  /** `c` was read at index `k`, or the end was found there. */
  ghost predicate AheadOf(s: seq<Byte>, k: nat, c: int, stream: seq<Byte>)
  {
    if k < |s| then c == AsChar(s[k]) && stream == s[k + 1..] else c == -1 && stream == []
  }

  /** After `n` digits the loop has the fold `f` of the others still to do. */
  ghost predicate Resumes(whole: Fold, n: int, f: Fold)
  {
    n >= 0 && whole == Fold(n + f.used, f.alarm, f.res)
  }

  lemma StartFold(f: Fold)
    ensures Resumes(f, 0, f)
  {
  }

  /** One more digit. */
  lemma DigitTaken(t: IntType, neg: bool, value: int, s: seq<Byte>, k: nat, e: nat, whole: Fold, n: nat)
    requires k < |s| && IsDecimal(s[k]) && e == DigitEnd(s, k) && AllDigits(s[k..e], 10)
    requires Resumes(whole, n, FoldDigits(t, neg, value, s[k..e]))
    ensures e == DigitEnd(s, k + 1) && AllDigits(s[k + 1..e], 10)
    ensures var r := Step(t, neg, value, s[k] - ZERO);
      if Alarm(neg, value, r) then whole.alarm && whole.used == n + 1
      else Resumes(whole, n + 1, FoldDigits(t, neg, r, s[k + 1..e]))
  {
    hide FoldDigits, Step, Alarm;
    DigitsAreDigits(s, k + 1);
    assert s[k..e] == [s[k]] + s[k + 1..e];
    FoldCons(t, neg, value, s[k], s[k + 1..e]);
  }

  lemma NoDigitLeft(t: IntType, neg: bool, value: int, s: seq<Byte>, k: nat, e: nat, whole: Fold, n: nat)
    requires k <= |s| && (k == |s| || !IsDecimal(s[k])) && e == DigitEnd(s, k) && AllDigits(s[k..e], 10)
    requires Resumes(whole, n, FoldDigits(t, neg, value, s[k..e]))
    ensures e == k && whole == Fold(n, false, value)
  {
    assert s[k..e] == [];
    FoldNone(t, neg, value);
  }

  lemma FoldNone(t: IntType, neg: bool, res: int)
    ensures FoldDigits(t, neg, res, []) == Fold(0, false, res)
  {
  }

  lemma DigitsAreDigits(s: seq<Byte>, k: nat)
    requires k <= |s|
    ensures AllDigits(s[k..DigitEnd(s, k)], 10)
  {
  }

  /** The digit loop, with `s[j..]` ahead: the byte after the last digit is pushed back, unless it looks like EOF. */
  method ScanDigits(t: IntType, neg: bool, file: File, ghost s: seq<Byte>, ghost j: nat)
    returns (value: int, err: Err, ghost io: bool)
    requires file.Valid() && file.Readable() && j <= |s| && file.Stream() == s[j..]
    modifies file.Repr
    ensures file.Valid() && file.Output() == old(file.Output())
    ensures io ==> err != Ok
    ensures file.Reliable() ==> !io
    ensures t.Has(value)
    ensures !io ==>
      var e := DigitEnd(s, j);
      var f := FoldDigits(t, neg, 0, s[j..e]);
      if f.alarm then err == Overflow && file.Stream() == s[j + f.used..]
      else err == Ok && value == f.res && file.Stream() == s[if e < |s| && s[e] == 255 then e + 1 else e..]
  {
    hide File.Valid, File.Stream, File.Output, File.Below, File.Readable, File.Reliable;
    hide Step, Alarm, FoldDigits, DigitEnd, AllDigits, IntType.Has, Resumes;
    DigitsTypes(t);
    DigitsAreDigits(s, j);
    ghost var k, e := j, DigitEnd(s, j);
    ghost var whole := FoldDigits(t, neg, 0, s[j..e]);
    assert Resumes(whole, 0, whole) by { StartFold(whole); }
    value, io := 0, false;
    var c;
    c, err := NextChar(file, s, j);
    while ZERO as int <= c <= NINE as int
      invariant file.Valid() && file.Output() == old(file.Output()) && !file.hasUngot && t.Has(value)
      invariant j <= k <= |s| && e == DigitEnd(s, k) && AllDigits(s[k..e], 10)
      invariant if err == Ok then AheadOf(s, k, c, file.Stream()) else c == -1
      invariant file.Reliable() ==> err == Ok
      invariant Resumes(whole, k - j, FoldDigits(t, neg, value, s[k..e]))
      decreases |s| - k
    {
      var oldres, d := value, c - ZERO;
      DigitTaken(t, neg, value, s, k, e, whole, k - j);
      value := Step(t, neg, value, d);
      k := k + 1;
      if Alarm(neg, oldres, value) { return 0, Overflow, false; }
      c, err := NextChar(file, s, k);
    }
    if err != Ok { return 0, err, true; }
    NoDigitLeft(t, neg, value, s, k, e, whole, k - j);
    if c != -1 { err := PutBack(file, c, s, k); }
  }

  /** `ungetc` of the byte after the digits. */
  method PutBack(file: File, c: int, ghost s: seq<Byte>, ghost k: nat) returns (err: Err)
    requires file.Valid() && !file.hasUngot && c != -1 && AheadOf(s, k, c, file.Stream())
    modifies file
    ensures file.Valid() && file.Output() == old(file.Output())
    ensures err == Ok && k < |s| && s[k] != 255 && file.Stream() == s[k..]
  {
    hide File.Valid, File.Stream, File.Output, File.Below, File.Readable, File.Reliable;
    PushedBack(s, k, c);
    err := file.Ungetc(if c < 0 then c + 256 else c);
  }

  lemma PushedBack(s: seq<Byte>, k: nat, c: int)
    requires k < |s| && c == AsChar(s[k])
    ensures s[k..] == [if c < 0 then c + 256 else c] + s[k + 1..]
  {
  }
}
