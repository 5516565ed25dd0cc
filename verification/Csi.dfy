/** The control sequences of src/ministd_term.c, and a decoder for them after section 5.4 of ECMA-48. */
module Csi {
  import opened Prelude
  import opened Numerals
  import opened Strings
  import opened Files
  import opened Fmt
  import opened StringIO

  /** What is sent to the terminal: a control sequence with one or two parameters, or a byte of text. */
  datatype Command = One(n: int, end: Byte) | Two(n: int, m: int, end: Byte) | Plain(b: Byte) {
    /** Parameters are ints, `end` is a final byte, and text holds no ESC. */
    predicate Sent() {
      match this
      case One(n, end) => IsInt(n) && IsFinal(end)
      case Two(n, m, end) => IsInt(n) && IsInt(m) && IsFinal(end)
      case Plain(b) => b != ESC
    }

    predicate NonNegative() {
      match this
      case One(n, _) => n >= 0
      case Two(n, m, _) => n >= 0 && m >= 0
      case Plain(_) => true
    }
  }

  predicate IsInt(n: int) { -0x8000_0000 <= n < 0x8000_0000 }

  predicate IsParam(b: Byte) { 0x30 <= b <= 0x3F }

  predicate IsIntermediate(b: Byte) { 0x20 <= b <= 0x2F }

  predicate NotSemicolon(b: Byte) { b != SEMICOLON }

  predicate IsFinal(b: Byte) { 0x40 <= b <= 0x7E }

  function ParamText(c: Command): seq<Byte>
    requires !c.Plain?
  {
    if c.One? then SignedNumeral(c.n, 10)
    else SignedNumeral(c.n, 10) + ([SEMICOLON] + SignedNumeral(c.m, 10))
  }

  /** The bytes of a command. */
  function Encode(c: Command): seq<Byte>
  {
    if c.Plain? then [c.b] else [ESC, BRACKET] + (ParamText(c) + [c.end])
  }

  function EncodeAll(cs: seq<Command>): seq<Byte>
  {
    if cs == [] then [] else Encode(cs[0]) + EncodeAll(cs[1..])
  }

  /** The bytes on the wire, by an example: the two parameters in order, with a semicolon between them. */
  lemma CursorToExample()
    ensures Encode(Two(12, 3, 'H' as int)) ==
      [0x1B, '[' as int, '1' as int, '2' as int, ';' as int, '3' as int, 'H' as int]
    ensures Encode(One(7, 'A' as int)) == [0x1B, '[' as int, '7' as int, 'A' as int]
    ensures Encode(Plain('x' as int)) == ['x' as int]
  {
    assert Numeral(12, 10) == Numeral(1, 10) + [50];
  }

  // ------------------------------------------------------------------ the encoders

  /** `csi_helper_n` and `csi_helper_nm`: the sequence is put together in a String through a StringFile, and then
      written out in one go. */
  method SendControl(c: Command, file: File) returns (err: Err, ghost taken: nat)
    requires !c.Plain? && c.Sent() && file.Valid() && file.Writable()
    modifies file.Repr
    ensures file.Valid() && file.ReadSideKept() && taken <= |Encode(c)|
    ensures file.Output() == old(file.Output()) + Encode(c)[..taken]
    ensures err == Ok ==> taken == |Encode(c)|
    ensures file.Progressing() ==> err == Ok
  {
    hide File.Valid, File.Stream, File.Below, File.Output, SignedNumeral;
    var str := new String(128);
    var n;
    Assemble(c, str);
    n, err, taken := SFprint(str, file);
  }

  /** The part that writes to the StringFile, where nothing can fail. */
  method Assemble(c: Command, str: String)
    requires !c.Plain? && c.Sent() && str.Valid() && str.Contents() == []
    modifies str
    ensures str.Valid() && str.Contents() == Encode(c)
  {
    hide File.Valid, File.Stream, File.Below, File.Output, File.Writable, File.Progressing, File.Exact, SignedNumeral;
    var sf := new File.OverString(str);
    CsiStart(sf);
    PrintParams(c, sf);
    var n, err, t := Fprintc(c.end, sf);
    assert sf.Output() == [ESC, BRACKET] + (ParamText(c) + [c.end]);
    SinkHolds(sf);
  }

  /** `csi_start`, on a file that takes everything. */
  method CsiStart(file: File)
    requires file.Valid() && file.Writable() && file.Progressing()
    modifies file.Repr
    ensures file.Valid() && file.Output() == old(file.Output()) + [ESC, BRACKET]
  {
    hide File.Valid, File.Stream, File.Below, File.Output, File.Writable, File.Progressing, File.Exact;
    var n, err, t := Fprintc(ESC, file);
    n, err, t := Fprintc(BRACKET, file);
  }

  method PrintParams(c: Command, file: File)
    requires !c.Plain? && c.Sent() && file.Valid() && file.Writable() && file.Progressing()
    modifies file.Repr
    ensures file.Valid() && file.Output() == old(file.Output()) + ParamText(c)
  {
    hide File.Valid, File.Stream, File.Below, File.Output, File.Writable, File.Progressing, File.Exact, SignedNumeral;
    var n, err, t := FprintSigned(c.n, Decimal, file);
    ghost var params := SignedNumeral(c.n, 10);
    assert params[..|params|] == params;
    if c.Two? {
      n, err, t := Fprintc(SEMICOLON, file);
      n, err, t := FprintSigned(c.m, Decimal, file);
      ghost var second := SignedNumeral(c.m, 10);
      assert second[..|second|] == second;
      assert file.Output() == old(file.Output()) + (params + ([SEMICOLON] + second));
    }
  }

  // ------------------------------------------------------------------ the decoder

  /** A parameter: left out, or a number. */
  datatype Param = Default | Given(n: nat)

  datatype Item = Control(params: seq<Param>, inter: seq<Byte>, final: Byte) | Text(b: Byte)

  datatype Maybe<T> = Nothing | Just(value: T)

  /** Where the run of bytes satisfying `p` that starts at `i` ends. */
  function RunEnd(s: seq<Byte>, i: nat, p: Byte -> bool): (j: nat)
    requires i <= |s|
    ensures i <= j <= |s| && (forall k :: i <= k < j ==> p(s[k])) && (j < |s| ==> !p(s[j]))
    decreases |s| - i
  {
    if i < |s| && p(s[i]) then RunEnd(s, i + 1, p) else i
  }

  lemma {:induction false} RunEndIs(s: seq<Byte>, i: nat, j: nat, p: Byte -> bool)
    requires i <= j <= |s| && (forall k :: i <= k < j ==> p(s[k])) && (j < |s| ==> !p(s[j]))
    ensures RunEnd(s, i, p) == j
    decreases j - i
  {
    if i < j { RunEndIs(s, i + 1, j, p); }
  }

  /** One parameter sub-string: decimal digits, or nothing. */
  function ReadParam(s: seq<Byte>): Maybe<Param>
  {
    if s == [] then Just(Default) else if AllDigits(s, 10) then Just(Given(Value(s, 10))) else Nothing
  }

  /** A parameter string: sub-strings separated by 03/11. */
  function ReadParams(s: seq<Byte>): Maybe<seq<Param>>
    decreases |s|
  {
    var i := RunEnd(s, 0, NotSemicolon);
    match ReadParam(s[..i])
    case Nothing => Nothing
    case Just(p) =>
      if i == |s| then Just([p])
      else
        match ReadParams(s[i + 1..])
        case Nothing => Nothing
        case Just(ps) => Just([p] + ps)
  }

  /** CSI, parameter bytes, intermediate bytes, a final byte; any other byte is text. */
  function Decode(s: seq<Byte>): Maybe<seq<Item>>
    decreases |s|
  {
    if s == [] then Just([])
    else if s[0] != ESC then Prepend(Just(Text(s[0])), Decode(s[1..]))
    else if |s| < 2 || s[1] != BRACKET then Nothing
    else
      var p := RunEnd(s, 2, IsParam);
      var q := RunEnd(s, p, IsIntermediate);
      if q == |s| || !IsFinal(s[q]) then Nothing
      else
        var item := match ReadParams(s[2..p])
                    case Nothing => Nothing
                    case Just(ps) => Just(Control(ps, s[p..q], s[q]));
        Prepend(item, Decode(s[q + 1..]))
  }

  function Prepend(item: Maybe<Item>, rest: Maybe<seq<Item>>): Maybe<seq<Item>>
  {
    if item.Just? && rest.Just? then Just([item.value] + rest.value) else Nothing
  }

  /** What a command means. */
  function Meaning(c: Command): Item
    requires c.NonNegative()
  {
    match c
    case One(n, end) => Control([Given(n)], [], end)
    case Two(n, m, end) => Control([Given(n), Given(m)], [], end)
    case Plain(b) => Text(b)
  }

  function Meanings(cs: seq<Command>): (r: seq<Item>)
    requires forall i :: 0 <= i < |cs| ==> cs[i].NonNegative()
    ensures |r| == |cs| && forall i :: 0 <= i < |cs| ==> r[i] == Meaning(cs[i])
  {
    if cs == [] then [] else [Meaning(cs[0])] + Meanings(cs[1..])
  }

  // ------------------------------------------------------------------ decoding undoes encoding

  lemma ParamBytes(n: nat)
    ensures var s := Numeral(n, 10);
      (forall k :: 0 <= k < |s| ==> IsParam(s[k]) && s[k] != SEMICOLON) && ReadParam(s) == Just(Given(n))
  {
    var s := Numeral(n, 10);
    forall k | 0 <= k < |s| ensures IsParam(s[k]) && s[k] != SEMICOLON { assert DigitValue(s[k]) < 10; }
  }

  lemma ReadOne(s: seq<Byte>)
    requires forall k :: 0 <= k < |s| ==> s[k] != SEMICOLON
    ensures ReadParams(s) == match ReadParam(s) case Nothing => Nothing case Just(p) => Just([p])
  {
    RunEndIs(s, 0, |s|, NotSemicolon);
    assert s[..|s|] == s;
  }

  lemma ReadTwo(s: seq<Byte>, t: seq<Byte>)
    requires (forall k :: 0 <= k < |s| ==> s[k] != SEMICOLON) && (forall k :: 0 <= k < |t| ==> t[k] != SEMICOLON)
    requires ReadParam(s).Just? && ReadParam(t).Just?
    ensures ReadParams(s + ([SEMICOLON] + t)) == Just([ReadParam(s).value, ReadParam(t).value])
  {
    var u := s + ([SEMICOLON] + t);
    assert u[|s|] == SEMICOLON;
    RunEndIs(u, 0, |s|, NotSemicolon);
    assert u[..|s|] == s && u[|s| + 1..] == t;
    ReadOne(t);
    assert [ReadParam(s).value] + [ReadParam(t).value] == [ReadParam(s).value, ReadParam(t).value];
  }

  /** Where the parts of a control sequence end, as the decoder finds them. */
  lemma ControlRuns(params: seq<Byte>, inter: seq<Byte>, b: Byte, rest: seq<Byte>)
    requires forall k :: 0 <= k < |params| ==> IsParam(params[k])
    requires forall k :: 0 <= k < |inter| ==> IsIntermediate(inter[k])
    requires !IsIntermediate(b) && (inter != [] || !IsParam(b))
    ensures var s := [ESC, BRACKET] + (params + (inter + ([b] + rest)));
      var p, q := 2 + |params|, 2 + |params| + |inter|;
      RunEnd(s, 2, IsParam) == p && RunEnd(s, p, IsIntermediate) == q &&
      s[2..p] == params && s[p..q] == inter && s[q] == b && s[q + 1..] == rest
  {
    var s := [ESC, BRACKET] + (params + (inter + ([b] + rest)));
    var p, q := 2 + |params|, 2 + |params| + |inter|;
    ControlSlices(params, inter, b, rest);
    forall k | 2 <= k < p ensures IsParam(s[k]) { assert s[k] == s[2..p][k - 2]; }
    forall k | p <= k < q ensures IsIntermediate(s[k]) { assert s[k] == s[p..q][k - p]; }
    assert p < q ==> s[p] == s[p..q][0];
    RunEndIs(s, 2, p, IsParam);
    RunEndIs(s, p, q, IsIntermediate);
  }

  lemma ControlSlices(params: seq<Byte>, inter: seq<Byte>, b: Byte, rest: seq<Byte>)
    ensures var s := [ESC, BRACKET] + (params + (inter + ([b] + rest)));
      var p, q := 2 + |params|, 2 + |params| + |inter|;
      s[2..p] == params && s[p..q] == inter && s[q] == b && s[q + 1..] == rest
  {
  }

  /** A control sequence at the front of a stream is cut off exactly at its final byte. */
  lemma DecodeControl(params: seq<Byte>, inter: seq<Byte>, end: Byte, rest: seq<Byte>)
    requires forall k :: 0 <= k < |params| ==> IsParam(params[k])
    requires forall k :: 0 <= k < |inter| ==> IsIntermediate(inter[k])
    requires !IsParam(end) && !IsIntermediate(end)
    ensures var s := [ESC, BRACKET] + (params + (inter + ([end] + rest)));
      Decode(s) ==
        if !IsFinal(end) then Nothing
        else Prepend(match ReadParams(params) case Nothing => Nothing case Just(ps) => Just(Control(ps, inter, end)),
                     Decode(rest))
  {
    var s := [ESC, BRACKET] + (params + (inter + ([end] + rest)));
    ControlRuns(params, inter, end, rest);
    hide RunEnd, IsParam, IsIntermediate, ReadParams, Prepend, Decode;
    assert |s| == 3 + |params| + |inter| + |rest| && s[0] == ESC && s[1] == BRACKET;
    DecodeAt(s, 2 + |params|, 2 + |params| + |inter|, params, inter, end, rest);
  }

  /** The decoder on a control sequence whose parts have been found. */
  lemma DecodeAt(s: seq<Byte>, p: nat, q: nat,
                                    params: seq<Byte>, inter: seq<Byte>, end: Byte, rest: seq<Byte>)
    requires 2 <= p <= q < |s| && s[0] == ESC && s[1] == BRACKET
    requires RunEnd(s, 2, IsParam) == p && RunEnd(s, p, IsIntermediate) == q
    requires s[2..p] == params && s[p..q] == inter && s[q] == end && s[q + 1..] == rest
    ensures Decode(s) ==
      if !IsFinal(end) then Nothing
      else Prepend(match ReadParams(params) case Nothing => Nothing case Just(ps) => Just(Control(ps, inter, end)),
                   Decode(rest))
  {
    hide RunEnd, IsParam, IsIntermediate, ReadParams, Prepend, Decode, IsFinal;
    DecodeStep(s);
  }

  /** The decoder on a stream that starts with the introducer. */
  lemma DecodeStep(s: seq<Byte>)
    requires |s| >= 2 && s[0] == ESC && s[1] == BRACKET
    ensures var p := RunEnd(s, 2, IsParam);
      var q := RunEnd(s, p, IsIntermediate);
      Decode(s) ==
        if q == |s| || !IsFinal(s[q]) then Nothing
        else Prepend(match ReadParams(s[2..p])
                     case Nothing => Nothing
                     case Just(ps) => Just(Control(ps, s[p..q], s[q])),
                     Decode(s[q + 1..]))
  {
    hide RunEnd, ReadParams, Prepend;
  }

  lemma DecodeCommand(c: Command, rest: seq<Byte>)
    requires c.Sent() && c.NonNegative()
    ensures Decode(Encode(c) + rest) == Prepend(Just(Meaning(c)), Decode(rest))
  {
    hide Decode, ReadParams, ReadParam, Numeral;
    match c
    case One(n, end) =>
      ParamBytes(n);
      ReadOne(Numeral(n, 10));
      DecodeControl(Numeral(n, 10), [], end, rest);
      Rebracket(Numeral(n, 10), end, rest);
    case Two(n, m, end) =>
      ParamBytes(n);
      ParamBytes(m);
      ReadTwo(Numeral(n, 10), Numeral(m, 10));
      DecodeControl(ParamText(c), [], end, rest);
      Rebracket(ParamText(c), end, rest);
    case Plain(b) => DecodePlain(b, rest);
  }

  lemma DecodePlain(b: Byte, rest: seq<Byte>)
    requires b != ESC
    ensures Decode([b] + rest) == Prepend(Just(Text(b)), Decode(rest))
  {
    assert ([b] + rest)[1..] == rest;
  }

  lemma Rebracket(p: seq<Byte>, end: Byte, rest: seq<Byte>)
    ensures ([ESC, BRACKET] + (p + [end])) + rest == [ESC, BRACKET] + (p + ([] + ([end] + rest)))
  {
  }

  /** Any list of commands with non-negative parameters, mixed with text free of ESC, is recovered in order from the
      bytes sent. */
  lemma {:induction false} DecodeUndoesEncode(cs: seq<Command>)
    requires forall i :: 0 <= i < |cs| ==> cs[i].Sent() && cs[i].NonNegative()
    ensures Decode(EncodeAll(cs)) == Just(Meanings(cs))
    decreases |cs|
  {
    hide Encode, Meaning;
    if cs != [] {
      DecodeUndoesEncode(cs[1..]);
      DecodeCommand(cs[0], EncodeAll(cs[1..]));
    }
  }

  lemma MeaningInjective(c: Command, d: Command)
    requires c.NonNegative() && d.NonNegative() && Meaning(c) == Meaning(d)
    ensures c == d
  {
  }

  /** So no two lists of commands are sent as the same bytes. */
  lemma UniquelyDecodable(cs: seq<Command>, ds: seq<Command>)
    requires forall i :: 0 <= i < |cs| ==> cs[i].Sent() && cs[i].NonNegative()
    requires forall i :: 0 <= i < |ds| ==> ds[i].Sent() && ds[i].NonNegative()
    requires EncodeAll(cs) == EncodeAll(ds)
    ensures cs == ds
  {
    hide Meaning, Meanings;
    DecodeUndoesEncode(cs);
    DecodeUndoesEncode(ds);
    forall i | 0 <= i < |cs| ensures cs[i] == ds[i] {
      assert Meanings(cs)[i] == Meanings(ds)[i];
      MeaningInjective(cs[i], ds[i]);
    }
  }

  /** A minus sign is an intermediate byte, so a control sequence is well formed exactly if its parameters are not
      negative. */
  lemma WellFormedExactlyIfNonNegative(c: Command, rest: seq<Byte>)
    requires c.Sent() && Decode(rest).Just?
    ensures Decode(Encode(c) + rest).Just? <==> c.NonNegative()
  {
    if c.NonNegative() {
      hide Decode, Encode;
      DecodeCommand(c, rest);
    } else if c.n < 0 {
      NegativeFirst(c, rest);
    } else {
      NegativeSecond(c, rest);
    }
  }

  lemma NegativeFirst(c: Command, rest: seq<Byte>)
    requires !c.Plain? && c.n < 0
    ensures Decode(Encode(c) + rest) == Nothing
  {
    hide Decode, Numeral;
    var ds, tail := Numeral(-c.n, 10), if c.One? then [] else [SEMICOLON] + SignedNumeral(c.m, 10);
    assert Encode(c) == [ESC, BRACKET] + ((([MINUS] + ds) + tail) + [c.end]) by {
      if c.One? { assert ([MINUS] + ds) + [] == [MINUS] + ds; }
    }
    Regroup([], ds, tail, c.end, rest);
    MinusInside([], ds, tail + ([c.end] + rest));
  }

  lemma NegativeSecond(c: Command, rest: seq<Byte>)
    requires c.Two? && c.n >= 0 && c.m < 0
    ensures Decode(Encode(c) + rest) == Nothing
  {
    hide Decode, ReadParam, Numeral;
    var params, ds := Numeral(c.n, 10) + [SEMICOLON], Numeral(-c.m, 10);
    ParamBytes(c.n);
    assert Encode(c) == [ESC, BRACKET] + ((params + (([MINUS] + ds) + [])) + [c.end]) by {
      assert ParamText(c) == params + (([MINUS] + ds) + []);
    }
    Regroup(params, ds, [], c.end, rest);
    MinusInside(params, ds, [] + ([c.end] + rest));
  }

  lemma Regroup(p: seq<Byte>, ds: seq<Byte>, tail: seq<Byte>, end: Byte, rest: seq<Byte>)
    ensures ([ESC, BRACKET] + ((p + (([MINUS] + ds) + tail)) + [end])) + rest ==
      [ESC, BRACKET] + (p + ([MINUS] + (ds + (tail + ([end] + rest)))))
    ensures [] + (([MINUS] + ds) + tail) == ([MINUS] + ds) + tail
  {
  }

  lemma MinusInside(params: seq<Byte>, ds: seq<Byte>, more: seq<Byte>)
    requires (forall k :: 0 <= k < |params| ==> IsParam(params[k])) && ds != [] && AllDigits(ds, 10)
    ensures Decode([ESC, BRACKET] + (params + ([MINUS] + (ds + more)))) == Nothing
  {
    hide Decode, ReadParams;
    assert DigitValue(ds[0]) < 10;
    DecodeControlFails(params, [MINUS], ds[0], ds[1..] + more);
    assert ds + more == [ds[0]] + (ds[1..] + more);
  }

  /** After an intermediate byte, a parameter byte is no final byte. */
  lemma DecodeControlFails(params: seq<Byte>, inter: seq<Byte>, b: Byte, rest: seq<Byte>)
    requires forall k :: 0 <= k < |params| ==> IsParam(params[k])
    requires forall k :: 0 <= k < |inter| ==> IsIntermediate(inter[k])
    requires inter != [] && IsParam(b)
    ensures Decode([ESC, BRACKET] + (params + (inter + ([b] + rest)))) == Nothing
  {
    ControlRuns(params, inter, b, rest);
    DecodeStep([ESC, BRACKET] + (params + (inter + ([b] + rest))));
  }
}
