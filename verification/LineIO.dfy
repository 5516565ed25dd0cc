/** The whole-string writers and the word and line readers of src/ministd_io.c, and the copy loop of
    examples/cat2.c that is built from them. */
module LineIO {
  import opened Prelude
  import opened Files

  // ------------------------------------------------------------------ writing

  /** The write loop that `fputs`, `s_fprint` and `sv_fprint` share; a count of 0 is an ERR_IO. */
  method WriteAll(text: seq<Byte>, file: File) returns (n: nat, err: Err, ghost taken: nat)
    requires file.Valid() && file.Writable()
    modifies file.Repr
    ensures file.Valid() && file.ReadSideKept() && taken <= |text|
    ensures file.Output() == old(file.Output()) + text[..taken]
    ensures n == if err == Ok then |text| else 0
    ensures err == Ok ==> taken == |text|
    ensures file.Bufferless() ==>
      var end := file.FlushFrom(old(file.Calls()), |text|);
      taken == |text| - end.left && file.Calls() == end.calls &&
      err == if end.left > 0 && end.err == Ok then Io else end.err
    ensures file.Exact() && taken == |text| ==> err == Ok
    ensures file.Progressing() ==> err == Ok
  {
    hide File.Valid, File.Stream, File.Output, File.Below, File.Readable, File.Reliable, File.Progressing, File.Exact;
    hide File.Bufferless, File.FlushFrom, File.Accepts;
    n, err, taken := 0, Ok, 0;
    while n < |text|
      invariant file.Valid() && file.ReadSideKept() && taken == n <= |text|
      invariant file.Bufferless() ==>
        file.FlushFrom(file.Calls(), |text| - n) == file.FlushFrom(old(file.Calls()), |text|)
      invariant file.Output() == old(file.Output()) + text[..n]
      invariant err == Ok
    {
      var k;
      ghost var t;
      file.FlushFromStep(file.Calls(), |text| - n);
      k, err, t := file.Write(text[n..]);
      assert text[..n] + text[n..][..t] == text[..n + t];
      if err != Ok { return 0, err, n + t; }
      if k == 0 { return 0, Io, n + t; }
      n, taken := n + k, n + k;
    }
    file.FlushFromStep(file.Calls(), 0);
  }

  /** `fputs`: the C string at the start of `s`. */
  method Fputs(s: seq<Byte>, file: File) returns (n: nat, err: Err, ghost taken: nat)
    requires NUL in s && file.Valid() && file.Writable()
    modifies file.Repr
    ensures file.Valid() && file.ReadSideKept() && taken <= |CString(s)|
    ensures file.Output() == old(file.Output()) + CString(s)[..taken]
    ensures n == if err == Ok then |CString(s)| else 0
    ensures err == Ok ==> taken == |CString(s)|
    ensures file.Bufferless() ==>
      var end := file.FlushFrom(old(file.Calls()), |CString(s)|);
      taken == |CString(s)| - end.left && file.Calls() == end.calls &&
      err == if end.left > 0 && end.err == Ok then Io else end.err
    ensures file.Exact() && taken == |CString(s)| ==> err == Ok
    ensures file.Progressing() ==> err == Ok
  {
    hide File.Valid, File.Stream, File.Output, File.Below, File.Readable, File.Reliable, File.Progressing, File.Exact;
    var len := Strlen(s);
    n, err, taken := WriteAll(s[..len], file);
  }

  // ------------------------------------------------------------------ words

  /** A "space" for `fgets`: any byte up to the space character. */
  predicate IsBlank(b: Byte) { b <= SPACE }

  /** Where the blanks that start at index `i` end. */
  function BlankEnd(s: seq<Byte>, i: nat): (j: nat)
    requires i <= |s|
    ensures i <= j <= |s| && (forall k :: i <= k < j ==> IsBlank(s[k])) && (j < |s| ==> !IsBlank(s[j]))
    decreases |s| - i
  {
    if i < |s| && IsBlank(s[i]) then BlankEnd(s, i + 1) else i
  }

  /** Where the word that starts at index `i` ends. */
  function WordEnd(s: seq<Byte>, i: nat): (j: nat)
    requires i <= |s|
    ensures i <= j <= |s| && (forall k :: i <= k < j ==> !IsBlank(s[k])) && (j < |s| ==> IsBlank(s[j]))
    decreases |s| - i
  {
    if i < |s| && !IsBlank(s[i]) then WordEnd(s, i + 1) else i
  }

  /** Nothing but `buf[off..off + cap]` has changed in `buf`. */
  twostate predicate UntouchedOutside(buf: array<Byte>, off: nat, cap: nat)
    reads buf
  {
    forall k :: 0 <= k < buf.Length && !(off <= k < off + cap) ==> buf[k] == old(buf[k])
  }

  /** The first loop of `fgets`: leading blanks are consumed, the next byte is only peeked at. */
  method SkipLeading(file: File) returns (c: int, err: Err, ghost used: nat)
    requires file.Valid() && file.Readable()
    modifies file.Repr
    ensures file.Valid() && file.Output() == old(file.Output())
    ensures used <= old(|file.Stream()|) && file.Stream() == old(file.Stream())[used..]
    ensures err == Ok ==> used == BlankEnd(old(file.Stream()), 0)
    ensures err == Ok ==> c == if file.Stream() == [] then -1 else file.Stream()[0]
    ensures err != Ok ==> c == -1
    ensures file.Reliable() ==> err == Ok
  {
    hide File.Valid, File.Stream, File.Output, File.Below, File.Readable, File.Reliable, File.Progressing, File.Exact;
    ghost var s := file.Stream();
    used := 0;
    c, err := file.Peekc();
    while c <= SPACE && c != -1
      invariant file.Valid() && file.Output() == old(file.Output())
      invariant used <= BlankEnd(s, 0) == BlankEnd(s, used) && file.Stream() == s[used..]
      invariant c == if err == Ok && file.Stream() != [] then file.Stream()[0] else -1
      invariant c != -1 ==> file.hasUngot
      invariant file.Reliable() ==> err == Ok
      decreases |s| - used
    {
      c, err := NextAfterPeek(file);
      used := used + 1;
    }
  }

  /** Consuming the byte that was just peeked at, and peeking at the one after it. */
  method NextAfterPeek(file: File) returns (c: int, err: Err)
    requires file.Valid() && file.Readable() && file.Stream() != []
    requires file.hasUngot
    modifies file.Repr
    ensures file.Valid() && file.Output() == old(file.Output())
    ensures file.Stream() == old(file.Stream())[1..]
    ensures c == if err == Ok && file.Stream() != [] then file.Stream()[0] else -1
    ensures file.hasUngot <==> c != -1
    ensures file.Reliable() ==> err == Ok
  {
    hide File.Valid, File.Stream, File.Output, File.Below, File.Readable, File.Reliable, File.Progressing, File.Exact;
    c, err := file.Fgetc();
    assert old(file.Stream())[1..] == file.Stream();
    c, err := file.Peekc();
  }

  /** `fgets`: the next word, or as much of it as fits in `cap - 1` bytes, as a C string. The result tells
      whether the whole word was stored. A capacity of 1 or less reads nothing. */
  method Fgets(buf: array<Byte>, off: nat, cap: nat, file: File) returns (whole: bool, err: Err, ghost used: nat)
    requires file.Valid() && file.Readable() && buf !in file.Repr && off + cap <= buf.Length
    modifies file.Repr, buf
    ensures file.Valid() && file.Output() == old(file.Output())
    ensures used <= old(|file.Stream()|) && file.Stream() == old(file.Stream())[used..]
    ensures UntouchedOutside(buf, off, cap)
    ensures cap < 2 ==> !whole && err == Ok && used == 0
    ensures cap == 1 ==> buf[off] == NUL
    ensures cap >= 2 && err == Ok ==>
      var s := old(file.Stream());
      var i := BlankEnd(s, 0);
      used == Min(WordEnd(s, i), i + cap - 1) && buf[off..off + used - i + 1] == s[i..used] + [NUL] &&
      whole == (used == WordEnd(s, i))
    ensures err != Ok ==> !whole
    ensures file.Reliable() ==> err == Ok
  {
    hide File.Valid, File.Stream, File.Output, File.Below, File.Readable, File.Reliable, File.Progressing, File.Exact;
    used := 0;
    if cap == 0 { return false, Ok, 0; }
    buf[off] := NUL;
    if cap == 1 { return false, Ok, 0; }
    var c;
    c, err, used := SkipLeading(file);
    hide BlankEnd, WordEnd, IsBlank, Min;
    ghost var s := old(file.Stream());
    if c == -1 {
      assert buf[off..off + 1] == [NUL] && (err == Ok ==> used == |s| && s[used..used] == []);
      return err == Ok, err, used;
    }
    ghost var more;
    whole, err, more := FgetsWord(buf, off, cap, file, s, used);
    used := used + more;
  }

  /** The second loop of `fgets`, entered with the first byte of the word peeked at; `s[i..]` is the stream. */
  method FgetsWord(buf: array<Byte>, off: nat, cap: nat, file: File, ghost s: seq<Byte>, ghost i: nat)
    returns (whole: bool, err: Err, ghost n: nat)
    requires file.Valid() && file.Readable() && buf !in file.Repr && off + cap <= buf.Length && cap >= 2
    requires i < |s| && file.Stream() == s[i..] && !IsBlank(s[i])
    modifies file.Repr, buf
    ensures file.Valid() && file.Output() == old(file.Output())
    ensures i + n <= |s| && file.Stream() == s[i + n..]
    ensures UntouchedOutside(buf, off, cap)
    ensures err == Ok ==> i + n == Min(WordEnd(s, i), i + cap - 1) && whole == (i + n == WordEnd(s, i))
    ensures err == Ok ==> buf[off..off + n + 1] == s[i..i + n] + [NUL]
    ensures err != Ok ==> !whole
    ensures file.Reliable() ==> err == Ok
  {
    hide File.Valid, File.Stream, File.Output, File.Below, File.Readable, File.Reliable, File.Progressing, File.Exact;
    var len, c := 0, 0;
    while true
      invariant file.Valid() && file.Output() == old(file.Output())
      invariant 0 <= len < cap - 1 && i + len < WordEnd(s, i) && file.Stream() == s[i + len..]
      invariant UntouchedOutside(buf, off, cap)
      invariant buf[off..off + len] == s[i..i + len]
      decreases cap - len
    {
      ghost var got;
      ghost var stored := buf[off..off + len];
      c, err, got := FgetsByte(buf, off + len, file);
      assert s[i + len..][got..] == s[i + len + got..];
      assert buf[off..off + len] == stored;
      len := len + 1;
      if err != Ok { return false, err, len - 1 + got; }
      assert buf[off..off + len] == stored + [s[i + len - 1]] == s[i..i + len];
      assert c == if i + len < |s| then s[i + len] else -1;
      if c == -1 || c <= SPACE { return true, Ok, len; }
      if len == cap - 1 { return false, Ok, len; }
    }
  }

  /** One round of that loop: the next byte is stored with a terminator after it, and the one that follows is
      peeked at. */
  method FgetsByte(buf: array<Byte>, at: nat, file: File) returns (c: int, err: Err, ghost got: nat)
    requires file.Valid() && file.Readable() && buf !in file.Repr && at + 1 < buf.Length && file.Stream() != []
    modifies file.Repr, buf
    ensures file.Valid() && file.Output() == old(file.Output())
    ensures got <= 1 && file.Stream() == old(file.Stream())[got..]
    ensures err == Ok ==> got == 1 && buf[at] == old(file.Stream())[0] && buf[at + 1] == NUL
    ensures err == Ok ==> c == if file.Stream() != [] then file.Stream()[0] else -1
    ensures UntouchedOutside(buf, at, 2)
    ensures file.Reliable() ==> err == Ok
  {
    hide File.Valid, File.Stream, File.Output, File.Below, File.Readable, File.Reliable, File.Progressing, File.Exact;
    got := 0;
    c, err := file.Fgetc();
    if err != Ok { return; }
    got := 1;
    assert old(file.Stream())[1..] == file.Stream();
    buf[at] := c;
    buf[at + 1] := NUL;
    c, err := file.Peekc();
  }

  // ------------------------------------------------------------------ lines

  /** What one `fgetline` takes: up to and including a newline, at most `max` bytes. */
  function LinePiece(s: seq<Byte>, max: nat): (r: seq<Byte>)
    ensures r <= s && |r| <= max
    ensures forall i :: 0 <= i < |r| - 1 ==> r[i] != NEWLINE
    ensures |r| < max && |r| < |s| ==> r != [] && r[|r| - 1] == NEWLINE
  {
    if max == 0 || s == [] then []
    else if s[0] == NEWLINE then [NEWLINE]
    else [s[0]] + LinePiece(s[1..], max - 1)
  }

  lemma {:induction false} LinePieceUnique(s: seq<Byte>, max: nat, r: seq<Byte>)
    requires r <= s && |r| <= max && (forall i :: 0 <= i < |r| - 1 ==> r[i] != NEWLINE)
    requires |r| == max || r == s || (r != [] && r[|r| - 1] == NEWLINE)
    ensures LinePiece(s, max) == r
  {
    if r != [] && s[0] != NEWLINE {
      assert forall i :: 0 <= i < |r[1..]| - 1 ==> r[1..][i] == r[i + 1];
      LinePieceUnique(s[1..], max - 1, r[1..]);
    }
  }

  /** `fgetline`. */
  method Fgetline(buf: array<Byte>, off: nat, cap: nat, file: File) returns (done: bool, err: Err, ghost used: nat)
    requires file.Valid() && file.Readable() && buf !in file.Repr && off + cap <= buf.Length
    modifies file.Repr, buf
    ensures file.Valid() && file.Output() == old(file.Output())
    ensures used <= old(|file.Stream()|) && file.Stream() == old(file.Stream())[used..]
    ensures UntouchedOutside(buf, off, cap)
    ensures cap < 2 ==> !done && err == Ok && used == 0
    ensures cap > 0 ==> NUL in buf[off..off + cap]
    ensures cap >= 2 && err == Ok ==>
      var piece := LinePiece(old(file.Stream()), cap - 1);
      used == |piece| && buf[off..off + |piece| + 1] == piece + [NUL] &&
      done == (|piece| < cap - 1 || piece[|piece| - 1] == NEWLINE)
    ensures err != Ok ==> !done
    ensures file.Reliable() ==> err == Ok
  {
    hide File.Valid, File.Stream, File.Output, File.Below, File.Readable, File.Reliable, File.Progressing, File.Exact;
    hide LinePiece, LineSoFar, File.Full, File.ReadErr;
    if cap == 0 { return false, Ok, 0; }
    buf[off] := NUL;
    assert buf[off..off + cap][0] == NUL;
    if cap == 1 { return false, Ok, 0; }
    ghost var s := file.Stream();
    var len := 0;
    done, err := false, Ok;
    LineStart(s, cap - 1);
    while len < cap - 1 && !done && err == Ok
      invariant file.Valid() && file.Output() == old(file.Output())
      invariant 0 <= len <= cap - 1 && len <= |s| && file.Stream() == s[len..]
      invariant UntouchedOutside(buf, off, cap)
      invariant buf[off..off + len] == s[..len] && buf[off + len] == NUL
      invariant LineSoFar(s, len, cap - 1, done) && (err != Ok ==> !done)
      invariant file.Reliable() ==> err == Ok
      decreases cap - len, !done && err == Ok
    {
      var n;
      n, done, err := FgetlineRound(buf, off, cap, len, file, s);
      len := len + n;
    }
    assert buf[off..off + cap][len] == NUL;
    used := len;
    if err == Ok { LineDone(s, len, cap - 1, done); }
  }

  /** The body of that loop: a byte more, or the end. */
  method FgetlineRound(buf: array<Byte>, off: nat, cap: nat, len: nat, file: File, ghost s: seq<Byte>)
    returns (n: nat, done: bool, err: Err)
    requires file.Valid() && file.Readable() && buf !in file.Repr && off + cap <= buf.Length
    requires len < cap - 1 && len <= |s| && file.Stream() == s[len..]
    requires buf[off..off + len] == s[..len] && LineSoFar(s, len, cap - 1, false)
    modifies file.Repr, buf
    ensures file.Valid() && file.Output() == old(file.Output())
    ensures n <= 1 && len + n <= |s| && file.Stream() == s[len + n..] && (n == 0 ==> done || err != Ok)
    ensures UntouchedOutside(buf, off, cap)
    ensures buf[off..off + len + n] == s[..len + n] && buf[off + len + n] == NUL
    ensures LineSoFar(s, len + n, cap - 1, done) && (err != Ok ==> !done)
    ensures file.Reliable() ==> err == Ok
  {
    hide File.Valid, File.Stream, File.Output, File.Below, File.Readable, File.Reliable, LineSoFar;
    ghost var stored := buf[off..off + len];
    done := false;
    n, err := FgetlineByte(buf, off + len, file);
    assert buf[off..off + len] == stored;
    if n == 1 {
      ghost var now := buf[off..off + len + 1];
      assert now[..len] == buf[off..off + len] && now[len] == buf[off + len];
      OneMore(s, len, now);
      LineGrows(s, len, cap - 1);
      done := buf[off + len] == NEWLINE;
    } else if err == Ok {
      done := true;
      LineEnds(s, len, cap - 1);
    }
  }

  lemma OneMore(s: seq<Byte>, len: nat, t: seq<Byte>)
    requires len < |s| && |t| == len + 1 && t[..len] == s[..len] && t[len] == s[len]
    ensures t == s[..len + 1] && s[len..][1..] == s[len + 1..] && s[len..][0] == s[len]
  {
    assert t == t[..len] + [t[len]];
  }

  /** `len` bytes are stored; `done` tells that they end in a newline, or that the stream ended before the buffer. */
  ghost predicate LineSoFar(s: seq<Byte>, len: nat, max: nat, done: bool)
  {
    len <= |s| && (forall i :: 0 <= i < len - 1 ==> s[i] != NEWLINE) &&
    if done then (len == |s| && len < max) || (len > 0 && s[len - 1] == NEWLINE)
    else len > 0 ==> s[len - 1] != NEWLINE
  }

  lemma LineStart(s: seq<Byte>, max: nat)
    ensures LineSoFar(s, 0, max, false)
  {
  }

  lemma LineGrows(s: seq<Byte>, len: nat, max: nat)
    requires LineSoFar(s, len, max, false) && len < |s|
    ensures LineSoFar(s, len + 1, max, s[len] == NEWLINE)
  {
  }

  lemma LineEnds(s: seq<Byte>, len: nat, max: nat)
    requires LineSoFar(s, len, max, false) && len == |s| && len < max
    ensures LineSoFar(s, len, max, true)
  {
  }

  lemma LineDone(s: seq<Byte>, len: nat, max: nat, done: bool)
    requires 0 < max && len <= max && LineSoFar(s, len, max, done) && (done || len == max)
    ensures LinePiece(s, max) == s[..len] && done == (len < max || s[len - 1] == NEWLINE)
  {
    LinePieceUnique(s, max, s[..len]);
  }

  /** One round of the `fgetline` loop: a byte at `at` with a terminator after it, or the terminator at `at`. */
  method FgetlineByte(buf: array<Byte>, at: nat, file: File) returns (n: nat, err: Err)
    requires file.Valid() && file.Readable() && buf !in file.Repr && at + 1 < buf.Length
    modifies file.Repr, buf
    ensures file.Valid() && file.Output() == old(file.Output())
    ensures n == (if err == Ok && old(file.Stream()) != [] then 1 else 0)
    ensures file.Stream() == old(file.Stream())[n..]
    ensures buf[at] == if n == 1 then old(file.Stream())[0] else NUL
    ensures buf[at + 1] == NUL
    ensures forall k :: 0 <= k < buf.Length && k != at && k != at + 1 ==> buf[k] == old(buf[k])
    ensures file.Reliable() ==> err == Ok
  {
    hide File.Valid, File.Stream, File.Output, File.Below, File.Readable, File.Reliable, File.Progressing, File.Exact;
    buf[at + 1] := NUL;
    ghost var b := buf[..];
    n, err := file.Read(buf, at, 1);
    if err != Ok || n == 0 {
      assert buf[..] == b;
      buf[at] := NUL;
      if err != Ok && n == 1 { assert false; }
    } else {
      assert forall k :: 0 <= k < buf.Length ==> buf[k] == buf[..][k];
    }
  }

  /** The pieces that repeated `fgetline` calls return. */
  function Lines(s: seq<Byte>, max: nat): seq<seq<Byte>>
    requires max > 0
  {
    if s == [] then []
    else var p := LinePiece(s, max); [p] + Lines(s[|p|..], max)
  }

  function Flatten(ps: seq<seq<Byte>>): seq<Byte> { if ps == [] then [] else ps[0] + Flatten(ps[1..]) }

  /** A piece that fits the buffer, holds no newline before its last byte, and, unless it is the last, is full or
      ends in a newline. */
  ghost predicate OneLine(p: seq<Byte>, max: nat, last: bool)
  {
    0 < |p| <= max && (forall i :: 0 <= i < |p| - 1 ==> p[i] != NEWLINE) &&
    (last || |p| == max || p[|p| - 1] == NEWLINE)
  }

  /** Nothing is lost between the pieces, and each is a line or a full buffer. */
  lemma {:induction false} LinesPartitionTheStream(s: seq<Byte>, max: nat)
    requires max > 0
    ensures Flatten(Lines(s, max)) == s
    ensures forall i :: 0 <= i < |Lines(s, max)| ==> OneLine(Lines(s, max)[i], max, i == |Lines(s, max)| - 1)
  {
    hide LinePiece, OneLine;
    if s != [] {
      var p := LinePiece(s, max);
      var rest := Lines(s[|p|..], max);
      PieceIsOneLine(s, max);
      LinesPartitionTheStream(s[|p|..], max);
      assert ([p] + rest)[1..] == rest;
      assert Lines(s, max) == [p] + rest;
    }
  }

  lemma PieceIsOneLine(s: seq<Byte>, max: nat)
    requires max > 0 && s != []
    ensures var p := LinePiece(s, max); OneLine(p, max, Lines(s[|p|..], max) == [])
  {
  }

  /** What the copy loop of cat2 prints: the C strings of the pieces, up to the first empty one. */
  function CatText(s: seq<Byte>, max: nat): (r: seq<Byte>)
    requires max > 0
    ensures |r| <= |s|
  {
    if s == [] then []
    else
      var p := LinePiece(s, max);
      var t := CString(p);
      if t == [] then [] else t + CatText(s[|p|..], max)
  }

  /** The copy is faithful exactly for input without NUL bytes. */
  lemma {:induction false} CatCopiesExactlyNulFree(s: seq<Byte>, max: nat)
    requires max > 0
    ensures CatText(s, max) == s <==> NUL !in s
  {
    if s != [] {
      var p := LinePiece(s, max);
      var t, rest := CString(p), s[|p|..];
      assert s == p + rest;
      CatCopiesExactlyNulFree(rest, max);
      if NUL in p {
        assert |t| < |p|;
      } else {
        CStringUnique(p, p);
      }
    }
  }

  /** The C strings of pieces. */
  function CStrings(ps: seq<seq<Byte>>): (ts: seq<seq<Byte>>)
    ensures |ts| == |ps| && forall i :: 0 <= i < |ts| ==> ts[i] == CString(ps[i])
  {
    seq(|ps|, i requires 0 <= i < |ps| => CString(ps[i]))
  }

  /** For any input: the C strings of the first `n` lines, where line `n`, if there is one, is the first whose
      C string is empty. */
  lemma {:induction false} CatTextIsLines(s: seq<Byte>, max: nat) returns (n: nat)
    requires max > 0
    ensures n <= |Lines(s, max)| && CatText(s, max) == Flatten(CStrings(Lines(s, max)[..n]))
    ensures forall i :: 0 <= i < n ==> CString(Lines(s, max)[i]) != []
    ensures n < |Lines(s, max)| ==> CString(Lines(s, max)[n]) == []
  {
    n := 0;
    if s != [] {
      var p := LinePiece(s, max);
      var rest := Lines(s[|p|..], max);
      if CString(p) != [] {
        n := CatTextIsLines(s[|p|..], max);
        var texts := CStrings(([p] + rest)[..n + 1]);
        assert texts[1..] == CStrings(rest[..n]) && texts[0] == CString(p);
        n := n + 1;
      }
    }
  }

  lemma CatStep(s: seq<Byte>, max: nat)
    requires max > 0
    ensures var t := CString(LinePiece(s, max));
      CatText(s, max) == if t == [] then [] else t + CatText(s[|LinePiece(s, max)|..], max)
  {
  }

  /** The main loop of cat2, over any input and output file: it returns -1 when an error was noticed. */
  method Cat2(input: File, output: File, buf: array<Byte>) returns (code: int, err: Err, ghost taken: nat)
    requires input.Valid() && input.Readable() && output.Valid() && output.Writable()
    requires input.Repr !! output.Repr && buf !in input.Repr && buf !in output.Repr && buf.Length >= 2
    modifies input.Repr, output.Repr, buf
    ensures input.Valid() && output.Valid()
    ensures var text := CatText(old(input.Stream()), buf.Length - 1);
      taken <= |text| && output.Output() == old(output.Output()) + text[..taken] &&
      (err == Ok ==> taken == |text| && code == 0)
    ensures code == if err != Ok && CString(buf[..]) != [] then -1 else 0
    ensures err == Ok && NUL !in old(input.Stream()) ==>
      output.Output() == old(output.Output()) + old(input.Stream())
    ensures input.Reliable() && output.Progressing() ==> err == Ok && code == 0
  {
    hide File.Valid, File.Stream, File.Output, File.Below, File.Readable, File.Reliable, File.Progressing, File.Exact;
    hide CatText, LinePiece, CString;
    ghost var max := buf.Length - 1;
    ghost var text := CatText(input.Stream(), max);
    ghost var whole := input.Stream();
    taken, err, code := 0, Ok, 0;
    var stop := false;
    while !stop
      invariant input.Valid() && output.Valid() && taken <= |text|
      invariant output.Output() == old(output.Output()) + text[..taken]
      invariant err == Ok && !stop ==> text[taken..] == CatText(input.Stream(), max)
      invariant err == Ok && stop ==> taken == |text| && code == 0
      invariant stop ==> code == if err != Ok && CString(buf[..]) != [] then -1 else 0
      invariant input.Reliable() && output.Progressing() ==> err == Ok
      decreases !stop, err == Ok, |input.Stream()|
    {
      ghost var t, before := 0, taken;
      stop, code, err, t := CatRound(input, output, buf, err, text[taken..]);
      assert text[..before] + text[before..][..t] == text[..before + t];
      assert text[before..][t..] == text[before + t..];
      taken := taken + t;
    }
    if err == Ok {
      assert text[..taken] == text;
      CatCopiesExactlyNulFree(whole, max);
    }
  }

  /** One round of that loop; `pending` is the error that the previous round left in `err`, and `text` is what is
      still to be printed. */
  method CatRound(input: File, output: File, buf: array<Byte>, pending: Err, ghost text: seq<Byte>)
    returns (stop: bool, code: int, err: Err, ghost t: nat)
    requires input.Valid() && input.Readable() && output.Valid() && output.Writable()
    requires input.Repr !! output.Repr && buf !in input.Repr && buf !in output.Repr && buf.Length >= 2
    requires pending == Ok ==> text == CatText(input.Stream(), buf.Length - 1)
    modifies input.Repr, output.Repr, buf
    ensures input.Valid() && output.Valid() && t <= |text|
    ensures output.Output() == old(output.Output()) + text[..t]
    ensures pending != Ok ==> stop && err != Ok
    ensures err == Ok && stop ==> t == |text| && code == 0
    ensures stop ==> code == if err != Ok && CString(buf[..]) != [] then -1 else 0
    ensures err == Ok && !stop ==> text[t..] == CatText(input.Stream(), buf.Length - 1)
    ensures !stop ==> |input.Stream()| < old(|input.Stream()|)
    ensures input.Reliable() && output.Progressing() && pending == Ok ==> err == Ok
  {
    hide File.Valid, File.Stream, File.Output, File.Below, File.Readable, File.Reliable, File.Progressing, File.Exact;
    hide CatText, LinePiece, CString;
    CatStep(input.Stream(), buf.Length - 1);
    var len, e := CatLine(input, buf);
    var noticed := if e != Ok then e else pending;
    if len == 0 || noticed != Ok {
      return true, if len == 0 then 0 else -1, noticed, 0;
    }
    var n;
    n, err, t := Fputs(buf[..], output);
    stop, code := false, 0;
    assert text[..t] == CString(buf[..])[..t];
  }

  /** The controlling expression of that loop: a line is read and its C string measured. */
  method CatLine(input: File, buf: array<Byte>) returns (len: nat, err: Err)
    requires input.Valid() && input.Readable() && buf !in input.Repr && buf.Length >= 2
    modifies input.Repr, buf
    ensures input.Valid() && len == |CString(buf[..])|
    ensures |input.Stream()| <= old(|input.Stream()|)
    ensures err == Ok ==>
      var piece := LinePiece(old(input.Stream()), buf.Length - 1);
      input.Stream() == old(input.Stream())[|piece|..] && CString(buf[..]) == CString(piece) && NUL in buf[..]
    ensures err == Ok && len > 0 ==> |input.Stream()| < old(|input.Stream()|)
    ensures input.Reliable() ==> err == Ok
  {
    hide File.Valid, File.Stream, File.Output, File.Below, File.Readable, File.Reliable, File.Progressing, File.Exact;
    hide LinePiece;
    var done;
    ghost var used;
    done, err, used := Fgetline(buf, 0, buf.Length, input);
    len := Strnlen(buf[..], buf.Length);
    assert buf[..][..buf.Length] == buf[..];
    if err == Ok {
      ghost var piece := LinePiece(old(input.Stream()), buf.Length - 1);
      assert buf[..used + 1] == piece + [NUL];
      FirstPiece(buf[..], piece);
    }
  }

  /** A buffer that starts with a piece and its terminator holds that piece's C string. */
  lemma FirstPiece(buf: seq<Byte>, piece: seq<Byte>)
    requires piece + [NUL] <= buf
    ensures CString(buf) == CString(piece) && NUL in buf
    ensures buf[..|buf|] == buf
  {
    assert buf[|piece|] == NUL;
    assert CString(piece) <= buf;
    if |CString(piece)| < |piece| {
      assert buf[|CString(piece)|] == piece[|CString(piece)|];
    }
    CStringUnique(buf, CString(piece));
  }
}
