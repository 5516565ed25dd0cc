/** The FILE stack of src/ministd_io.c: descriptors, the one-byte pushback every FILE carries, and the buffered
    and locked layers that may be stacked on top of one another, together with the string files of
    src/ministd_string.c. Function pointers become the `kind` of a File. */
module Files {
  import opened Prelude
  import opened Strings

  /** What the kernel answers to the i-th read or write on a descriptor. A count is clipped to what was asked for
      and, for reads, to what is left; a read of a non-empty remainder yields at least one byte. */
  datatype Reply = Count(n: nat) | Fails(errno: int)

  datatype Kind = Raw | Buffered | Locked | StringSink | StringView

  /** What the caller of a write is told, against what was really taken from its buffer. */
  ghost predicate WriteOutcome(data: seq<Byte>, n: nat, taken: nat)
  {
    taken <= |data| && (n == taken || (n == 0 && taken == |data| > 0 && data[taken - 1] == NEWLINE))
  }

  /** How a flush ends: the number of writes made by then, how many bytes are left, and the error. */
  datatype FlushEnd = FlushEnd(calls: nat, left: nat, err: Err)

  class File {
    const kind: Kind

    // the FILE header
    var hasUngot: bool
    var ungot: Byte

    // Raw: the bytes the descriptor will still yield, those it has accepted, and its answers
    var incoming: seq<Byte>
    var delivered: seq<Byte>
    var readCalls: nat
    var writeCalls: nat         // also counted at a string file
    const onRead: nat -> Reply
    const onWrite: nat -> Reply

    // Buffered and Locked: the wrapped file
    const raw: File?

    // Buffered
    const readBuf: array<Byte>
    var readPos: nat
    var readEnd: nat
    const writeBuf: array<Byte>
    var writePos: nat
    var writeEnd: nat

    // Locked
    var lock: int

    // StringSink and StringView
    const str: String?
    const view: seq<Byte>
    var viewPos: nat

    ghost const depth: nat
    ghost const Repr: set<object>

    ghost predicate Valid()
      reads this, Repr
      decreases depth
      ensures Valid() ==> this in Repr
      ensures Valid() && kind.Buffered? ==>
        raw != null && raw.depth < depth && raw in Repr && raw.Repr <= Repr && raw.Valid() &&
        writeBuf in Repr && writePos <= writeEnd <= writeBuf.Length
    {
      this in Repr &&
      (kind.Buffered? || kind.Locked? ==>
         raw != null && raw in Repr && raw.Repr <= Repr && this !in raw.Repr && raw.depth < depth &&
         raw.Valid() && !raw.hasUngot) &&
      match kind
      case Raw => true
      case Buffered =>
        readBuf in Repr && writeBuf in Repr && readBuf != writeBuf &&
        readBuf !in raw.Repr && writeBuf !in raw.Repr &&
        readPos <= readEnd <= readBuf.Length && writePos <= writeEnd <= writeBuf.Length
      case Locked => lock == 0
      case StringSink => str != null && str in Repr && str.Valid()
      case StringView => viewPos <= |view|
    }

    /** The bytes that reading this file will yield: pushback, then buffered bytes, then what lies below. */
    ghost function Stream(): seq<Byte>
      reads this, Repr
      requires Valid()
      decreases depth, 1
    {
      (if hasUngot then [ungot] else []) + Below()
    }

    ghost function Below(): seq<Byte>
      reads this, Repr
      requires Valid()
      decreases depth, 0
    {
      match kind
      case Raw => incoming
      case Buffered => readBuf[readPos..readEnd] + raw.Stream()
      case Locked => raw.Stream()
      case StringSink => []
      case StringView => view[viewPos..]
    }

    /** What a write must leave alone. */
    twostate predicate ReadSideKept()
      reads this, Repr
      requires old(Valid()) && Valid()
    {
      Below() == old(Below()) && hasUngot == old(hasUngot) && ungot == old(ungot)
    }

    /** Everything written so far: what the descriptor (or string) has, then what is still buffered. */
    ghost function Output(): seq<Byte>
      reads this, Repr
      requires Valid()
      decreases depth
    {
      match kind
      case Raw => delivered
      case Buffered => raw.Output() + writeBuf[writePos..writeEnd]
      case Locked => raw.Output()
      case StringSink => str.Contents()
      case StringView => []
    }

    /** Reading is modelled for every stack that does not end in a string sink. */
    ghost predicate Readable()
      decreases depth
    {
      match kind
      case Buffered => raw != null && raw.depth < depth && raw.Readable()
      case Locked => raw != null && raw.depth < depth && raw.Readable()
      case StringSink => false
      case _ => true
    }

    /** The end of the stack answers every read with a count. */
    ghost predicate Reliable()
      decreases depth
    {
      match kind
      case Raw => forall i :: onRead(i).Count?
      case Buffered => raw != null && raw.depth < depth && raw.Reliable()
      case Locked => raw != null && raw.depth < depth && raw.Reliable()
      case StringSink => false
      case StringView => true
    }

    /** The end of the stack accepts at least one byte of every write, and never fails. */
    ghost predicate Progressing()
      decreases depth
    {
      match kind
      case Raw => forall i :: onWrite(i).Count? && onWrite(i).n > 0
      case Buffered => raw != null && raw.depth < depth && raw.Progressing()
      case Locked => raw != null && raw.depth < depth && raw.Progressing()
      case StringSink => true
      case StringView => false
    }

    /** There is no buffer above the end of the stack, which yields `cap` bytes at once if it has them. */
    ghost predicate Full(cap: nat)
      decreases depth
    {
      match kind
      case Raw => forall i :: onRead(i).Count? && onRead(i).n >= cap
      case Locked => raw != null && raw.depth < depth && raw.Full(cap)
      case StringView => true
      case _ => false
    }

    lemma {:induction false} FullForLess(cap: nat, less: nat)
      requires Full(cap) && less <= cap
      ensures Full(less)
      decreases depth
    {
      if kind.Locked? { raw.FullForLess(cap, less); }
    }

    /** A write of `want` bytes is stored whole: by a string, or by a buffer that is large enough and over a file that
        accepts what is flushed. */
    ghost predicate TakesAll(want: nat)
      decreases depth
    {
      match kind
      case Buffered => raw != null && raw.depth < depth && raw.Progressing() && want <= writeBuf.Length
      case Locked => raw != null && raw.depth < depth && raw.TakesAll(want)
      case StringSink => true
      case _ => false
    }

    /** No buffer lies between this file and the end of the stack. */
    ghost predicate Bufferless()
      decreases depth
    {
      match kind
      case Buffered => false
      case Locked => raw != null && raw.depth < depth && raw.Bufferless()
      case _ => true
    }

    /** How many bytes the end of the stack accepts when its `i`-th write is one of `want` bytes. */
    ghost function Accepts(i: nat, want: nat): (n: nat)
      decreases depth
      ensures n <= want
    {
      match kind
      case Raw => if onWrite(i).Fails? then 0 else Min(onWrite(i).n, want)
      case Locked => if raw != null && raw.depth < depth then raw.Accepts(i, want) else 0
      case StringSink => want
      case _ => 0
    }

    /** The error that its `i`-th write ends with. */
    ghost function WriteErr(i: nat): (err: Err)
      decreases depth
    {
      match kind
      case Raw => (match onWrite(i) case Count(_) => Ok case Fails(errno) => Os(errno))
      case Locked => if raw != null && raw.depth < depth then raw.WriteErr(i) else Ok
      case StringView => BadF
      case _ => Ok
    }

    /** How `want` bytes fare that are written again and again, from the `i`-th write on, until a write stalls. */
    ghost function FlushFrom(i: nat, want: nat): (end: FlushEnd)
      decreases want
      ensures end.left <= want
    {
      if want == 0 then FlushEnd(i, 0, Ok)
      else if Accepts(i, want) == 0 then FlushEnd(i + 1, want, WriteErr(i))
      else FlushFrom(i + 1, want - Accepts(i, want))
    }

    /** It ends without an error when nothing is left, and otherwise with the error of its last write, which accepted
        nothing of what is left. */
    lemma {:induction false} FlushEndsAtAStall(i: nat, want: nat)
      ensures var end := FlushFrom(i, want);
        end.calls >= i && if end.left == 0 then end.err == Ok
        else end.calls > i && Accepts(end.calls - 1, end.left) == 0 && end.err == WriteErr(end.calls - 1)
      decreases want
    {
      if want > 0 && Accepts(i, want) > 0 { FlushEndsAtAStall(i + 1, want - Accepts(i, want)); }
    }

    /** How many writes have reached the end of the stack. */
    ghost function Calls(): nat
      reads this, Repr
      requires Valid()
      decreases depth
    {
      if kind.Locked? then raw.Calls() else writeCalls
    }

    /** The count a write returns is the number of bytes taken: there is no buffered layer below, or nothing stalls. */
    ghost predicate Exact()
      decreases depth
    {
      match kind
      case Buffered => raw != null && raw.depth < depth && raw.Exact() && raw.Progressing()
      case Locked => raw != null && raw.depth < depth && raw.Exact()
      case _ => true
    }

    /** Every buffered layer sits on an exact file. */
    ghost predicate Writable()
      decreases depth
    {
      match kind
      case Buffered => raw != null && raw.depth < depth && raw.Exact() && raw.Writable()
      case Locked => raw != null && raw.depth < depth && raw.Writable()
      case _ => true
    }

    /** This is a buffered file over a bufferless one, with room for `more` bytes. */
    ghost predicate HasRoom(more: nat)
      reads this, Repr
      requires Valid()
      ensures HasRoom(more) ==> kind.Buffered?
    {
      kind.Buffered? && raw.Bufferless() && writeEnd + more <= writeBuf.Length
    }

    /** Its flush would get everything through that is pending, and `more` bytes after that. */
    ghost predicate FlushDrains(more: nat)
      reads this, Repr
      requires Valid() && kind.Buffered?
    {
      raw.FlushFrom(raw.Calls(), writeEnd - writePos + more).left == 0
    }

    /** How its flush would end. */
    ghost function FlushOutcome(): FlushEnd
      reads this, Repr
      requires Valid() && kind.Buffered?
    {
      raw.FlushFrom(raw.Calls(), writeEnd - writePos)
    }

    /** At most one buffered layer on the way down. */
    ghost predicate Flat()
      decreases depth
    {
      match kind
      case Buffered => raw != null && raw.depth < depth && raw.Bufferless()
      case Locked => raw != null && raw.depth < depth && raw.Flat()
      case _ => true
    }

    /** The error that a flush of a flat stack ends with. */
    ghost function FlushErr(): Err
      reads this, Repr
      requires Valid()
      decreases depth
    {
      match kind
      case Buffered => FlushOutcome().err
      case Locked => raw.FlushErr()
      case _ => Ok
    }

    /** The error that a write of `want` bytes to a flat stack ends with: a buffered file takes what fits behind what
        is pending; otherwise it is that of the flush, if this leaves something, or that of passing on a write larger
        than the buffer. */
    ghost function WriteErrOf(want: nat): Err
      reads this, Repr
      requires Valid()
      decreases depth
    {
      match kind
      case Buffered =>
        var end := FlushOutcome();
        if writeEnd + want <= writeBuf.Length then Ok
        else if end.left > 0 then end.err
        else if want <= writeBuf.Length then Ok
        else raw.WriteErr(end.calls)
      case Locked => raw.WriteErrOf(want)
      case _ => WriteErr(writeCalls)
    }

    /** How many of `want` bytes a flat stack takes. */
    ghost function TakenOf(want: nat): nat
      reads this, Repr
      requires Valid()
      decreases depth
    {
      match kind
      case Buffered =>
        var end := FlushOutcome();
        if writeEnd + want <= writeBuf.Length then want
        else if end.left > 0 then 0
        else if want <= writeBuf.Length then want
        else raw.Accepts(end.calls, want)
      case Locked => raw.TakenOf(want)
      case _ => Accepts(writeCalls, want)
    }

    /** How `want` bytes fare that do not fit behind what is pending for this file in a buffer of `room` bytes, once the
        flush ended as `end`. */
    ghost predicate RefillTakes(end: FlushEnd, room: nat, want: nat, err: Err, taken: nat)
    {
      if end.left > 0 then taken == 0 && err == end.err
      else if want <= room then taken == want && err == Ok
      else taken == Accepts(end.calls, want) && err == WriteErr(end.calls)
    }

    /** The error that the layer's next read of at least one byte ends with: that of the descriptor, unless buffered
        bytes serve it. */
    ghost function ReadErr(): Err
      reads this, Repr
      requires Valid()
      decreases depth
    {
      match kind
      case Raw => (match onRead(readCalls) case Count(_) => Ok case Fails(errno) => Os(errno))
      case Buffered => if readPos < readEnd then Ok else raw.ReadErr()
      case Locked => raw.ReadErr()
      case _ => Ok
    }

    // ---------------------------------------------------------------- reading

    /** `read`: a pushed back byte first, then the layer's own read. */
    method Read(buf: array<Byte>, off: nat, cap: nat) returns (n: nat, err: Err)
      requires Valid() && Readable() && buf !in Repr && off + cap <= buf.Length
      modifies Repr, buf
      decreases depth, 3, hasUngot
      ensures Valid() && Output() == old(Output())
      ensures n <= cap && n <= old(|Stream()|)
      ensures buf[..] == Splice(old(buf[..]), off, old(Stream())[..n])
      ensures Stream() == old(Stream())[n..]
      ensures err == Ok && n == 0 < cap ==> old(Stream()) == []
      ensures if cap == 0 then hasUngot == old(hasUngot) && ungot == old(ungot) else !hasUngot
      ensures err == if cap == 0 || (old(hasUngot) && cap == 1) then Ok else old(ReadErr())
      ensures err != Ok ==> n == if old(hasUngot) then 1 else 0
      ensures Full(cap) ==> n == Min(cap, old(|Stream()|))
      ensures Reliable() ==> err == Ok
    {
      hide Valid, Output, Below, Pending, ReadErr, Reliable, Readable, Full;
      if cap == 0 { return 0, Ok; }
      hide Splice;
      if hasUngot {
        TakeUngot(buf, off);
        ghost var s := Stream();
        if Full(cap) { FullForLess(cap, cap - 1); }
        n, err := Read(buf, off + 1, cap - 1);
        SpliceHead(old(buf[..]), off, old(ungot), s, n);
        n := n + 1;
      } else {
        assert Stream() == Below();
        n, err := ReadLayer(buf, off, cap);
        assert Stream() == Below();
      }
    }

    /** Moving the pushed back byte into the caller's buffer touches nothing below. */
    method TakeUngot(buf: array<Byte>, off: nat)
      requires Valid() && hasUngot && buf !in Repr && off < buf.Length
      modifies `hasUngot, buf
      ensures Valid() && !hasUngot && Output() == old(Output())
      ensures old(Stream()) == [old(ungot)] + Stream() && ReadErr() == old(ReadErr())
      ensures buf[..] == old(buf[..])[off := old(ungot)]
    {
      hasUngot := false;
      buf[off] := ungot;
      assert Stream() == Below() == old(Below());
    }

    /** `file->read`: dispatch on the kind of file. */
    method ReadLayer(buf: array<Byte>, off: nat, cap: nat) returns (n: nat, err: Err)
      requires Valid() && Readable() && buf !in Repr && off + cap <= buf.Length && cap > 0 && !hasUngot
      modifies Repr, buf
      decreases depth, 2
      ensures Valid() && Output() == old(Output())
      ensures n <= cap && n <= old(|Below()|)
      ensures buf[..] == Splice(old(buf[..]), off, old(Below())[..n])
      ensures Below() == old(Below())[n..]
      ensures err == Ok && n == 0 ==> old(Below()) == []
      ensures hasUngot == old(hasUngot) && ungot == old(ungot)
      ensures err == old(ReadErr()) && (err != Ok ==> n == 0)
      ensures Full(cap) ==> n == Min(cap, old(|Below()|))
      ensures Reliable() ==> err == Ok
    {
      match kind
      case Raw => n, err := RawRead(buf, off, cap);
      case Buffered => n, err := BfRead(buf, off, cap);
      case Locked => n, err := LfRead(buf, off, cap);
      case StringView => n, err := SvfRead(buf, off, cap);
    }

    /** `lf_read`: the file below, between taking the lock and releasing it. */
    method LfRead(buf: array<Byte>, off: nat, cap: nat) returns (n: nat, err: Err)
      requires Valid() && Readable() && buf !in Repr && off + cap <= buf.Length && cap > 0 && !hasUngot
      requires kind.Locked?
      modifies Repr, buf
      decreases depth, 0
      ensures Valid() && Output() == old(Output())
      ensures n <= cap && n <= old(|Below()|)
      ensures buf[..] == Splice(old(buf[..]), off, old(Below())[..n])
      ensures Below() == old(Below())[n..]
      ensures err == Ok && n == 0 ==> old(Below()) == []
      ensures hasUngot == old(hasUngot) && ungot == old(ungot)
      ensures err == old(ReadErr()) == old(raw.ReadErr()) && (err != Ok ==> n == 0)
      ensures raw.Full(cap) ==> n == Min(cap, old(|Below()|))
      ensures Reliable() ==> err == Ok
    {
      MutexLock();
      assert raw.ReadErr() == old(raw.ReadErr());
      assert raw.Stream() == old(Below());
      n, err := raw.Read(buf, off, cap);
      lock := 0;
      assert raw.Stream() == Below();
    }

    /** `mutex_try_lock`: the swap leaves 1 in any case, and succeeds only for the one that found 0. */
    method MutexTryLock() returns (acquired: bool)
      modifies `lock
      ensures lock == 1 && (acquired <==> old(lock) == 0)
    {
      var was := lock;
      lock := 1;
      acquired := was == 0;
    }

    /** `mutex_lock` on a file that no other thread uses: the first try succeeds. */
    method MutexLock()
      requires lock == 0
      modifies `lock
      ensures lock == 1
    {
      var acquired := false;
      while !acquired
        invariant acquired || lock == 0
        invariant acquired ==> lock == 1
        decreases !acquired
      {
        acquired := MutexTryLock();
      }
    }

    /** `svf_read`. */
    method SvfRead(buf: array<Byte>, off: nat, cap: nat) returns (n: nat, err: Err)
      requires Valid() && buf !in Repr && off + cap <= buf.Length && kind.StringView?
      modifies `viewPos, buf
      ensures Valid() && err == Ok
      ensures n == Min(cap, old(|Below()|)) && Below() == old(Below())[n..]
      ensures buf[..] == Splice(old(buf[..]), off, old(Below())[..n])
    {
      n, err := Min(|view| - viewPos, cap), Ok;
      Memmove(buf, off, view[viewPos..viewPos + n]);
      viewPos := viewPos + n;
    }

    /** `raw_file_read` over `fd_read`. */
    method RawRead(buf: array<Byte>, off: nat, cap: nat) returns (n: nat, err: Err)
      requires kind.Raw? && off + cap <= buf.Length && cap > 0
      modifies `incoming, `readCalls, buf
      ensures n <= cap && n <= old(|incoming|) && incoming == old(incoming)[n..]
      ensures buf[..] == Splice(old(buf[..]), off, old(incoming)[..n])
      ensures err == Ok && n == 0 ==> old(incoming) == []
      ensures err == match onRead(old(readCalls)) case Count(_) => Ok case Fails(errno) => Os(errno)
      ensures err != Ok ==> n == 0
      ensures err == Ok ==>
        var k := onRead(old(readCalls)).n;
        n == Min(Min(if k == 0 then 1 else k, cap), old(|incoming|)) && readCalls == old(readCalls) + 1
    {
      var reply := onRead(readCalls);
      readCalls := readCalls + 1;
      if reply.Fails? { return 0, Os(reply.errno); }
      n, err := Min(Min(if reply.n == 0 then 1 else reply.n, cap), |incoming|), Ok;
      Memmove(buf, off, incoming[..n]);
      incoming := incoming[n..];
    }

    /** `bf_read`: a large read bypasses an empty buffer; otherwise the buffer is refilled when empty. */
    method BfRead(buf: array<Byte>, off: nat, cap: nat) returns (n: nat, err: Err)
      requires Valid() && Readable() && buf !in Repr && off + cap <= buf.Length && cap > 0
      requires kind.Buffered? && !hasUngot
      modifies Repr, buf
      decreases depth, 1
      ensures Valid() && Output() == old(Output())
      ensures n <= cap && n <= old(|Below()|)
      ensures buf[..] == Splice(old(buf[..]), off, old(Below())[..n])
      ensures Below() == old(Below())[n..]
      ensures err == Ok && n == 0 ==> old(Below()) == []
      ensures hasUngot == old(hasUngot) && ungot == old(ungot)
      ensures err == old(ReadErr()) && (err != Ok ==> n == 0)
      ensures err == if old(readPos < readEnd) then Ok else old(raw.ReadErr())
      ensures old(readPos < readEnd) ==> n == Min(cap, old(readEnd - readPos))
      ensures old(readPos == readEnd) && raw.Full(cap) && raw.Full(readBuf.Length) ==> n == Min(cap, old(|Below()|))
      ensures old(readPos < readEnd) ==> raw.Stream() == old(raw.Stream())
      ensures old(readPos == readEnd) && cap > readBuf.Length ==> readPos == readEnd
      ensures old(readPos == readEnd) && cap <= readBuf.Length && raw.Full(readBuf.Length) ==>
        n + (readEnd - readPos) == Min(readBuf.Length, old(|Below()|))
      ensures Reliable() ==> err == Ok
    {
      hide Output, Below, Full;
      if readPos == readEnd && cap > readBuf.Length {
        Layers();
        n, err := raw.Read(buf, off, cap);
        Layers();
        assert Below() == raw.Stream();
        return;
      }
      if readPos == readEnd {
        err := BfRefill();
        if err != Ok || readPos == readEnd { return 0, err; }
      }
      n := BfTake(buf, off, cap);
      err := Ok;
    }

    /** The refill of an empty read buffer: at most one read of the file below. */
    method BfRefill() returns (err: Err)
      requires Valid() && Readable() && kind.Buffered? && readPos == readEnd
      modifies Repr
      decreases depth, 0
      ensures Valid() && Output() == old(Output()) && hasUngot == old(hasUngot) && ungot == old(ungot)
      ensures Below() == old(Below())
      ensures err == Ok && readPos == readEnd && readBuf.Length > 0 ==> old(Below()) == []
      ensures err == if readBuf.Length > 0 then old(raw.ReadErr()) else Ok
      ensures err != Ok ==> readPos == readEnd
      ensures raw.Full(readBuf.Length) ==> readEnd - readPos == Min(readBuf.Length, old(|Below()|))
      ensures raw.Reliable() ==> err == Ok
    {
      hide Output, Below, Full;
      Layers();
      ghost var s := raw.Stream();
      assert old(Below()) == s;
      var got;
      got, err := raw.Read(readBuf, 0, readBuf.Length);
      Layers();
      if err != Ok || got == 0 { return; }
      readPos, readEnd := 0, got;
      Layers();
      assert readBuf[0..got] == readBuf[..][0..got] == s[..got];
      assert s == readBuf[0..got] + raw.Stream();
    }

    /** Serving a read from the buffer. */
    method BfTake(buf: array<Byte>, off: nat, cap: nat) returns (n: nat)
      requires Valid() && buf !in Repr && off + cap <= buf.Length
      requires kind.Buffered?
      modifies `readPos, buf
      ensures Valid() && Output() == old(Output())
      ensures n == Min(old(readEnd - readPos), cap)
      ensures n <= old(|Below()|) && Below() == old(Below())[n..]
      ensures buf[..] == Splice(old(buf[..]), off, old(Below())[..n])
      ensures raw.Stream() == old(raw.Stream()) && readPos == old(readPos) + n && readEnd == old(readEnd)
    {
      n := Min(readEnd - readPos, cap);
      ghost var held, rest := readBuf[readPos..readEnd], raw.Stream();
      assert (held + rest)[..n] == held[..n] == readBuf[readPos..readPos + n];
      assert (held + rest)[n..] == held[n..] + rest;
      Memmove(buf, off, readBuf[readPos..readPos + n]);
      readPos := readPos + n;
      assert raw.Stream() == rest && readBuf[readPos..readEnd] == held[n..];
    }

    // ---------------------------------------------------------------- pushback

    /** `ungetc`. */
    method Ungetc(c: Byte) returns (err: Err)
      requires Valid()
      modifies `hasUngot, `ungot
      ensures Valid() && Output() == old(Output()) && hasUngot
      ensures err == if old(hasUngot) then Perm else Ok
      ensures Stream() == if old(hasUngot) then old(Stream()) else [c] + old(Stream())
    {
      if hasUngot { return Perm; }
      hasUngot, ungot := true, c;
      assert Below() == old(Below());
      err := Ok;
    }

    /** `fgetc`: the next byte, or -1 at the end of the stream or on an error. */
    method Fgetc() returns (c: int, err: Err)
      requires Valid() && Readable()
      modifies Repr
      ensures Valid() && Output() == old(Output()) && !hasUngot
      ensures err == if old(hasUngot) then Ok else old(ReadErr())
      ensures -1 <= c < 256
      ensures err != Ok ==> c == -1 && Stream() == old(Stream())
      ensures err == Ok && c == -1 ==> Stream() == old(Stream()) == []
      ensures c != -1 ==> old(Stream()) == [c] + Stream()
      ensures Reliable() ==> err == Ok
    {
      var one := new Byte[1];
      var n;
      n, err := Read(one, 0, 1);
      if err != Ok || n != 1 { return -1, err; }
      c := one[..][0];
    }

    /** `peekc`: the head of the stream, which stays as it was. */
    method Peekc() returns (c: int, err: Err)
      requires Valid() && Readable()
      modifies Repr
      ensures Valid() && Output() == old(Output())
      ensures Stream() == old(Stream())
      ensures c == if err == Ok && old(Stream()) != [] then old(Stream())[0] else -1
      ensures hasUngot <==> c != -1
      ensures err == if old(hasUngot) then Ok else old(ReadErr())
      ensures Reliable() ==> err == Ok
    {
      hide Output, Below, Readable, Reliable, Full, Pending, ReadErr;
      var one := new Byte[1];
      var n;
      n, err := Read(one, 0, 1);
      if n == 0 || err != Ok { return -1, err; }
      c := one[..][0];
      err := Ungetc(c);
    }

    // ---------------------------------------------------------------- writing

    /** `write`: dispatch on the kind of file. `taken` is how much of the data this file now answers for. */
    method Write(data: seq<Byte>) returns (n: nat, err: Err, ghost taken: nat)
      requires Valid() && Writable() && data != []
      modifies Repr
      decreases depth, 4
      ensures Valid() && WriteOutcome(data, n, taken)
      ensures Output() == old(Output()) + data[..taken]
      ensures ReadSideKept()
      ensures err != Ok ==> taken == 0
      ensures Exact() ==> n == taken
      ensures Progressing() ==> err == Ok && n > 0
      ensures Bufferless() ==> n == taken == Accepts(old(Calls()), |data|) && Calls() == old(Calls()) + 1
      ensures Bufferless() ==> err == WriteErr(old(Calls()))
      ensures Flat() ==> err == old(WriteErrOf(|data|)) && taken == old(TakenOf(|data|))
      ensures TakesAll(|data|) ==> n == taken == |data| && err == Ok
      ensures kind.Buffered? && raw.Bufferless() && old(writeEnd) + |data| > writeBuf.Length ==>
        n == taken && raw.RefillTakes(old(FlushOutcome()), writeBuf.Length, |data|, err, taken)
      ensures old(HasRoom(|data|)) ==>
        taken == |data| && n == if data[|data| - 1] == NEWLINE && !old(FlushDrains(|data|)) then 0 else taken
    {
      match kind
      case Raw => n, err := RawWrite(data); taken := n;
      case Buffered =>
        ghost var surplus;
        n, err, taken, surplus := BfWrite(data);
      case Locked => n, err, taken := LfWrite(data);
      case StringSink => n := SfWrite(data); err, taken := Ok, n;
      case StringView => n, err, taken := SvfWrite(data);
    }

    /** `svf_write` refuses. */
    method SvfWrite(data: seq<Byte>) returns (n: nat, err: Err, ghost taken: nat)
      requires Valid() && kind.StringView?
      modifies `writeCalls
      ensures Valid() && n == taken == 0 && err == BadF && writeCalls == old(writeCalls) + 1
      ensures Output() == old(Output()) && ReadSideKept()
    {
      writeCalls := writeCalls + 1;
      n, err, taken := 0, BadF, 0;
    }

    /** `lf_write`: the file below, between taking the lock and releasing it. */
    method LfWrite(data: seq<Byte>) returns (n: nat, err: Err, ghost taken: nat)
      requires Valid() && Writable() && data != [] && kind.Locked?
      modifies Repr
      decreases depth, 3
      ensures Valid() && WriteOutcome(data, n, taken)
      ensures Output() == old(Output()) + data[..taken]
      ensures ReadSideKept()
      ensures err != Ok ==> taken == 0
      ensures raw.Exact() ==> n == taken
      ensures raw.Progressing() ==> err == Ok && n > 0
      ensures raw.Bufferless() ==> n == taken == raw.Accepts(old(raw.Calls()), |data|)
      ensures raw.Bufferless() ==> raw.Calls() == old(raw.Calls()) + 1 && err == raw.WriteErr(old(raw.Calls()))
      ensures raw.Flat() ==> err == old(WriteErrOf(|data|)) && taken == old(TakenOf(|data|))
      ensures raw.TakesAll(|data|) ==> n == taken == |data| && err == Ok
      ensures (raw.kind.Buffered? && raw.raw != null && raw.raw.Bufferless() &&
               old(raw.writeEnd) + |data| > raw.writeBuf.Length) ==>
        n == taken && raw.raw.RefillTakes(old(raw.FlushOutcome()), raw.writeBuf.Length, |data|, err, taken)
    {
      MutexLock();
      n, err, taken := raw.Write(data);
      lock := 0;
    }

    /** `sf_write`: appending to the string cannot fail here. */
    method SfWrite(data: seq<Byte>) returns (n: nat)
      requires Valid() && kind.StringSink?
      modifies Repr
      ensures Valid() && n == |data| && Output() == old(Output()) + data && ReadSideKept()
      ensures writeCalls == old(writeCalls) + 1
    {
      writeCalls := writeCalls + 1;
      str.Append(data);
      n := |data|;
    }

    /** `raw_file_write` over `fd_write`. */
    method RawWrite(data: seq<Byte>) returns (n: nat, err: Err)
      requires kind.Raw?
      modifies `delivered, `writeCalls
      ensures n <= |data| && delivered == old(delivered) + data[..n]
      ensures err != Ok ==> n == 0
      ensures n == match onWrite(old(writeCalls)) case Count(k) => Min(k, |data|) case Fails(_) => 0
      ensures n == Accepts(old(writeCalls), |data|) && writeCalls == old(writeCalls) + 1
      ensures err == match onWrite(old(writeCalls)) case Count(_) => Ok case Fails(errno) => Os(errno)
      ensures Progressing() && data != [] ==> err == Ok && n > 0
    {
      var reply := onWrite(writeCalls);
      writeCalls := writeCalls + 1;
      if reply.Fails? { return 0, Os(reply.errno); }
      n, err := Min(reply.n, |data|), Ok;
      delivered := delivered + data[..n];
    }

    /** What a write or flush may have sent below although it is still pending: nothing over an exact file. */
    ghost predicate Surplus(surplus: seq<Byte>)
      reads this, Repr
      requires Valid() && kind.Buffered?
    {
      surplus == [] ||
      (surplus == writeBuf[writePos..writeEnd] && surplus[|surplus| - 1] == NEWLINE && !raw.Exact())
    }

    /** `bf_flush`: a stalled or failing write below leaves the rest pending, to be resumed later. */
    method BfFlush() returns (err: Err, ghost surplus: seq<Byte>)
      requires Valid() && kind.Buffered? && raw.Writable()
      modifies Repr
      decreases depth, 1
      ensures Valid() && Output() == old(Output()) + surplus && Surplus(surplus)
      ensures ReadSideKept()
      ensures writePos < writeEnd || (writePos == writeEnd == 0 && surplus == [])
      ensures err != Ok || raw.Progressing() ==> (err == Ok <==> writePos == writeEnd)
      ensures raw.Progressing() ==> err == Ok
      ensures raw.Bufferless() ==> FlushEnd(raw.Calls(), writeEnd - writePos, err) == old(FlushOutcome())
      ensures var held := old(writeBuf[writePos..writeEnd]);
        held != [] && held[|held| - 1] == NEWLINE && old(raw.HasRoom(|held|)) ==>
          surplus == (if old(raw.FlushDrains(|held|)) then [] else held) && (surplus == [] <==> writePos == writeEnd)
    {
      hide Valid, Output, Below, Stream, FlushFrom, Accepts, Exact, Progressing, Writable, HasRoom;
      hide FlushDrains, FlushOutcome, Surplus;
      surplus := [];
      NothingLeft();
      ghost var first, held := true, writeBuf[writePos..writeEnd];
      ghost var fits := held != [] && held[|held| - 1] == NEWLINE && raw.HasRoom(|held|);
      ghost var through := fits && raw.FlushDrains(|held|);
      NoSurplus();
      while writeEnd > writePos
        invariant Valid() && Output() == old(Output()) && surplus == [] && Surplus([])
        invariant ReadSideKept()
        invariant raw.Bufferless() ==> FlushOutcome() == old(FlushOutcome())
        invariant writePos == writeEnd ==> FlushOutcome() == FlushEnd(raw.Calls(), 0, Ok)
        invariant fits && first ==>
          writeBuf[writePos..writeEnd] == held && held[|held| - 1] == NEWLINE && raw.HasRoom(|held|) &&
          raw.FlushDrains(|held|) == through
        invariant fits && !first ==> writePos == writeEnd && through
        decreases writeEnd - writePos
      {
        var n;
        ghost var taken;
        n, err, taken, surplus := BfFlushStep();
        first := false;
        if err != Ok || n == 0 { return; }
        NothingLeft();
      }
      BfReset();
      err := Ok;
    }

    /** The end of `bf_flush`: an empty buffer starts over. */
    method BfReset()
      requires Valid() && kind.Buffered? && writePos == writeEnd
      modifies `writePos, `writeEnd
      ensures Valid() && Output() == old(Output()) && ReadSideKept() && writePos == writeEnd == 0 && Surplus([])
      ensures raw.Calls() == old(raw.Calls())
    {
      writePos, writeEnd := 0, 0;
      assert Below() == old(Below());
    }

    lemma NoSurplus()
      requires Valid() && kind.Buffered?
      ensures Surplus([])
    {
    }

    lemma NothingLeft()
      requires Valid() && kind.Buffered?
      ensures writePos == writeEnd ==> FlushOutcome() == FlushEnd(raw.Calls(), 0, Ok)
    {
    }

    /** One round of the flush loop. If the file below took more than it admitted, those bytes are now both
        below and still pending; over an exact file, nothing is added. */
    method BfFlushStep() returns (n: nat, err: Err, ghost taken: nat, ghost surplus: seq<Byte>)
      requires Valid() && kind.Buffered? && raw.Writable() && writePos < writeEnd
      modifies Repr
      decreases depth, 0
      ensures Valid() && WriteOutcome(old(writeBuf[writePos..writeEnd]), n, taken)
      ensures surplus == old(writeBuf[writePos..writeEnd])[n..taken] && Surplus(surplus)
      ensures Output() == old(Output()) + surplus
      ensures ReadSideKept() && writePos == old(writePos) + n && writeEnd == old(writeEnd)
      ensures writeBuf[writePos..writeEnd] == old(writeBuf[writePos..writeEnd])[n..]
      ensures err != Ok ==> n == 0
      ensures raw.Exact() ==> n == taken
      ensures raw.Progressing() ==> err == Ok && n > 0
      ensures n == taken ==> surplus == []
      ensures raw.Bufferless() ==>
        old(FlushOutcome()) == if n == 0 then FlushEnd(raw.Calls(), writeEnd - writePos, err) else FlushOutcome()
      ensures var held := old(writeBuf[writePos..writeEnd]);
        held[|held| - 1] == NEWLINE && old(raw.HasRoom(|held|)) ==>
          taken == |held| && n == if old(raw.FlushDrains(|held|)) then taken else 0
    {
      hide Output, Below, FlushFrom, Accepts, Exact, Progressing, Writable, HasRoom, FlushDrains, FlushOutcome, Surplus;
      var held := writeBuf[writePos..writeEnd];
      ghost var below := raw.Output();
      Layers();
      raw.FlushFromStep(raw.Calls(), |held|);
      OutcomeIs(|held|, writePos);
      n, err, taken := raw.Write(held);
      assert raw.Stream() == old(raw.Stream());
      surplus := held[n..taken];
      writePos := writePos + n;
      assert writeBuf[writePos..writeEnd] == held[n..];
      OutcomeIs(|held| - n, writePos);
      Layers();
      Resent(below, held, n, taken);
      SurplusIs(held, n, taken);
    }

    lemma OutcomeIs(want: nat, at: nat)
      requires Valid() && kind.Buffered? && at == writePos && want == writeEnd - writePos
      ensures FlushOutcome() == raw.FlushFrom(raw.Calls(), want)
    {
    }

    /** A buffered file's output and input, layer by layer. */
    lemma Layers()
      requires Valid() && kind.Buffered?
      ensures Output() == raw.Output() + writeBuf[writePos..writeEnd]
      ensures Below() == readBuf[readPos..readEnd] + raw.Stream()
    {
    }

    lemma SurplusIs(held: seq<Byte>, n: nat, taken: nat)
      requires Valid() && kind.Buffered? && WriteOutcome(held, n, taken) && (raw.Exact() ==> n == taken)
      requires writeBuf[writePos..writeEnd] == held[n..]
      ensures Surplus(held[n..taken])
    {
      hide Exact;
      assert held[..|held|] == held;
    }

    lemma FlushFromStep(i: nat, want: nat)
      ensures FlushFrom(i, want) ==
        if want == 0 then FlushEnd(i, 0, Ok)
        else if Accepts(i, want) == 0 then FlushEnd(i + 1, want, WriteErr(i))
        else FlushFrom(i + 1, want - Accepts(i, want))
    {
    }

    /** `bf_write`. */
    method BfWrite(data: seq<Byte>) returns (n: nat, err: Err, ghost taken: nat, ghost surplus: seq<Byte>)
      requires Valid() && kind.Buffered? && raw.Writable() && data != []
      modifies Repr
      decreases depth, 3
      ensures Valid() && WriteOutcome(data, n, taken)
      ensures Output() == old(Output()) + data[..taken] + surplus && Surplus(surplus)
      ensures ReadSideKept()
      ensures err != Ok ==> taken == 0
      ensures raw.Exact() && raw.Progressing() ==> n == taken && err == Ok && n > 0
      ensures old(writeEnd) + |data| <= writeBuf.Length ==> taken == |data| && err == Ok
      ensures old(writeEnd) + |data| <= writeBuf.Length && data[|data| - 1] != NEWLINE ==> surplus == []
      ensures old(writeEnd) + |data| <= writeBuf.Length && data[|data| - 1] != NEWLINE ==>
        raw.Output() == old(raw.Output()) && writeBuf[writePos..writeEnd] == old(writeBuf[writePos..writeEnd]) + data
      ensures old(writeEnd) + |data| <= writeBuf.Length && data[|data| - 1] == NEWLINE && raw.Progressing() ==>
        writePos == writeEnd
      ensures old(writeEnd) + |data| > writeBuf.Length && taken > 0 ==>
        writeBuf[writePos..writeEnd] == if |data| <= writeBuf.Length then data else []
      ensures raw.Bufferless() && old(writeEnd) + |data| <= writeBuf.Length ==>
        n == if data[|data| - 1] == NEWLINE && !old(FlushDrains(|data|)) then 0 else taken
      ensures raw.Bufferless() ==> err == old(WriteErrOf(|data|)) && taken == old(TakenOf(|data|))
      ensures raw.Progressing() && |data| <= writeBuf.Length ==> n == taken == |data| && err == Ok
      ensures raw.Bufferless() && old(writeEnd) + |data| > writeBuf.Length ==>
        n == taken && raw.RefillTakes(old(FlushOutcome()), writeBuf.Length, |data|, err, taken)
      ensures (old(writeEnd) + |data| <= writeBuf.Length && data[|data| - 1] == NEWLINE &&
               old(raw.HasRoom(writeEnd - writePos + |data|))) ==>
        n == (if surplus == [] then |data| else 0) && surplus ==
          if old(raw.FlushDrains(writeEnd - writePos + |data|)) then [] else old(writeBuf[writePos..writeEnd]) + data
    {
      hide Valid, Output, Below, Stream, FlushFrom, Exact, Progressing, Writable, HasRoom, FlushDrains, FlushOutcome;
      hide Surplus;
      if writeEnd + |data| > writeBuf.Length {
        n, err, taken, surplus := BfWriteFull(data);
      } else {
        n, surplus := BfAppend(data);
        err, taken := Ok, |data|;
        assert data[..taken] == data;
      }
    }

    /** The refill path: the buffer is flushed first; when that leaves nothing pending, the write is stored at its
        start or, when it is larger than the buffer, passed on. */
    method BfWriteFull(data: seq<Byte>) returns (n: nat, err: Err, ghost taken: nat, ghost surplus: seq<Byte>)
      requires Valid() && kind.Buffered? && raw.Writable() && data != [] && writeEnd + |data| > writeBuf.Length
      modifies Repr
      decreases depth, 2
      ensures Valid() && WriteOutcome(data, n, taken)
      ensures Output() == old(Output()) + data[..taken] + surplus && Surplus(surplus)
      ensures ReadSideKept()
      ensures err != Ok ==> taken == 0
      ensures surplus != [] ==> taken == 0
      ensures raw.Exact() && raw.Progressing() ==> n == taken && err == Ok && n > 0
      ensures raw.Bufferless() ==> err == old(WriteErrOf(|data|)) && n == taken == old(TakenOf(|data|))
      ensures |data| <= writeBuf.Length ==>
        if taken == 0 then n == 0 && writePos < writeEnd else n == taken == |data| && err == Ok
      ensures raw.Progressing() && |data| <= writeBuf.Length ==> n == taken == |data| && err == Ok
      ensures raw.Bufferless() && old(FlushOutcome()).left == 0 ==>
        if |data| <= writeBuf.Length then n == taken == |data| && err == Ok
        else n == taken == raw.Accepts(old(FlushOutcome()).calls, |data|) &&
             err == raw.WriteErr(old(FlushOutcome()).calls)
      ensures raw.Bufferless() && old(FlushOutcome()).left > 0 ==> n == taken == 0 && err == old(FlushOutcome()).err
      ensures raw.Bufferless() ==>
        raw.Calls() == old(FlushOutcome()).calls +
          (if old(FlushOutcome()).left == 0 && |data| > writeBuf.Length then 1 else 0)
      ensures taken > 0 ==> writeBuf[writePos..writeEnd] == if |data| <= writeBuf.Length then data else []
      ensures var held := old(writeBuf[writePos..writeEnd]);
        held != [] && held[|held| - 1] == NEWLINE && old(raw.HasRoom(|held|)) ==>
          surplus == if old(raw.FlushDrains(|held|)) then [] else held
    {
      hide Valid, Output, Below, Stream, FlushFrom, Exact, Progressing, Writable, HasRoom, FlushDrains, FlushOutcome;
      hide Surplus;
      err, surplus := BfFlush();
      n, taken := 0, 0;
      if err != Ok || writePos < writeEnd { return; }
      ghost var o := Output();
      assert o == old(Output());
      if |data| > writeBuf.Length {
        n, err, taken := BfBypass(data);
      } else {
        BfStore(data);
        n, err, taken := |data|, Ok, |data|;
        assert data[..taken] == data;
      }
      assert o + data[..taken] + [] == o + data[..taken];
      surplus := [];
      NoSurplus();
    }

    /** A write larger than the whole (now empty) buffer goes straight to the file below. */
    method BfBypass(data: seq<Byte>) returns (n: nat, err: Err, ghost taken: nat)
      requires Valid() && kind.Buffered? && raw.Writable() && data != [] && writePos == writeEnd
      modifies Repr
      decreases depth, 0
      ensures Valid() && WriteOutcome(data, n, taken) && (err != Ok ==> taken == 0)
      ensures Output() == old(Output()) + data[..taken] && ReadSideKept()
      ensures raw.Exact() ==> n == taken
      ensures raw.Progressing() ==> err == Ok && n > 0
      ensures raw.Bufferless() ==>
        n == taken == raw.Accepts(old(raw.Calls()), |data|) && err == raw.WriteErr(old(raw.Calls()))
      ensures raw.Bufferless() ==> raw.Calls() == old(raw.Calls()) + 1
      ensures writePos == writeEnd
    {
      assert Output() == raw.Output();
      n, err, taken := raw.Write(data);
      assert Output() == raw.Output();
    }

    /** The append path of `bf_write`, with its flush after a newline: the error of that flush is dropped,
        and a flush that leaves something pending makes the count 0 although every byte was taken. */
    method BfAppend(data: seq<Byte>) returns (n: nat, ghost surplus: seq<Byte>)
      requires Valid() && kind.Buffered? && raw.Writable() && data != [] && writeEnd + |data| <= writeBuf.Length
      modifies Repr
      decreases depth, 2
      ensures Valid() && Output() == old(Output()) + data + surplus && Surplus(surplus) && ReadSideKept()
      ensures n == if data[|data| - 1] == NEWLINE && writePos < writeEnd then 0 else |data|
      ensures raw.Progressing() ==> n == |data|
      ensures data[|data| - 1] != NEWLINE ==> surplus == []
      ensures data[|data| - 1] != NEWLINE ==> raw.Output() == old(raw.Output()) && raw.Calls() == old(raw.Calls())
      ensures data[|data| - 1] != NEWLINE ==>
        writeBuf[writePos..writeEnd] == old(writeBuf[writePos..writeEnd]) + data
      ensures data[|data| - 1] == NEWLINE && raw.Progressing() ==> writePos == writeEnd
      ensures data[|data| - 1] == NEWLINE && raw.Bufferless() ==>
        var end := raw.FlushFrom(old(raw.Calls()), old(writeEnd - writePos) + |data|);
        raw.Calls() == end.calls && writeEnd - writePos == end.left
      ensures raw.Bufferless() ==>
        n == if data[|data| - 1] == NEWLINE && !old(FlushDrains(|data|)) then 0 else |data|
      ensures data[|data| - 1] == NEWLINE && old(raw.HasRoom(writeEnd - writePos + |data|)) ==>
        n == (if surplus == [] then |data| else 0) && surplus ==
          if old(raw.FlushDrains(writeEnd - writePos + |data|)) then [] else old(writeBuf[writePos..writeEnd]) + data
    {
      hide Valid, Output, Below, Stream, FlushFrom, Exact, Progressing, Writable, HasRoom, Surplus;
      BfStore(data);
      n, surplus := |data|, [];
      NoSurplus();
      assert data[n - 1] == writeBuf[writeEnd - n..writeEnd][n - 1];
      if writeBuf[writeEnd - 1] == NEWLINE {
        var ignored;
        ignored, surplus := BfFlush();
        if writePos < writeEnd { n := 0; }
      }
    }

    /** Storing a write behind what is pending. */
    method BfStore(data: seq<Byte>)
      requires Valid() && kind.Buffered? && writeEnd + |data| <= writeBuf.Length
      modifies `writeEnd, writeBuf
      ensures Valid() && Output() == old(Output()) + data && writePos == old(writePos)
      ensures writeEnd == old(writeEnd) + |data| && writeBuf[old(writeEnd)..writeEnd] == data
      ensures writeBuf[writePos..writeEnd] == old(writeBuf[writePos..writeEnd]) + data
      ensures raw.Output() == old(raw.Output()) && raw.Calls() == old(raw.Calls())
      ensures ReadSideKept()
    {
      Memmove(writeBuf, writeEnd, data);
      writeEnd := writeEnd + |data|;
      assert writeBuf[writePos..writeEnd] == old(writeBuf[writePos..writeEnd]) + data;
      assert raw.Output() == old(raw.Output()) && raw.Stream() == old(raw.Stream());
    }

    /** `fputc`: a count other than 1 is reported as ERR_IO, even when a stalled newline was taken. */
    method Fputc(c: Byte) returns (err: Err, ghost taken: nat)
      requires Valid() && Writable()
      modifies Repr
      ensures Valid() && taken <= 1 && ReadSideKept()
      ensures Output() == old(Output()) + [c][..taken]
      ensures err == Ok ==> taken == 1
      ensures c != NEWLINE || Exact() ==> (err == Ok <==> taken == 1)
      ensures Flat() && old(WriteErrOf(1)) != Ok ==> err == old(WriteErrOf(1))
      ensures Progressing() ==> err == Ok
    {
      var n;
      n, err, taken := Write([c]);
      if err == Ok && n != 1 { err := Io; }
    }

    /** What this file's own buffered layer has taken but not yet passed on. */
    ghost function Pending(): seq<Byte>
      reads this, Repr
      requires Valid()
      decreases depth
    {
      match kind
      case Buffered => writeBuf[writePos..writeEnd]
      case Locked => raw.Pending()
      case _ => []
    }

    /** `flush`, that is `run_op` with FO_FLUSH on each kind of file. */
    method Flush() returns (err: Err)
      requires Valid() && Writable()
      modifies Repr
      decreases depth, 2
      ensures Valid() && Output() == old(Output()) && ReadSideKept()
      ensures Flat() ==> err == old(FlushErr())
      ensures kind.Buffered? && raw.Bufferless() ==> FlushEnd(raw.Calls(), |Pending()|, err) == old(FlushOutcome())
      ensures err != Ok ==> Pending() != []
      ensures Progressing() ==> err == Ok && Pending() == []
    {
      err := Ok;
      match kind
      case Buffered =>
        ghost var surplus;
        err, surplus := BfFlush();
      case Locked =>
        MutexLock();
        err := raw.Flush();
        lock := 0;
      case _ =>
    }

    // ---------------------------------------------------------------- construction

    /** A descriptor with the given remaining input and kernel answers. */
    constructor FromFd(input: seq<Byte>, onRead: nat -> Reply, onWrite: nat -> Reply)
      ensures Valid() && kind == Raw && !hasUngot && fresh(Repr)
      ensures incoming == input && delivered == [] && readCalls == writeCalls == 0
      ensures this.onRead == onRead && this.onWrite == onWrite
    {
      kind, hasUngot, ungot := Raw, false, 0;
      incoming, delivered, readCalls, writeCalls := input, [], 0, 0;
      this.onRead, this.onWrite := onRead, onWrite;
      raw, str := null, null;
      depth, Repr := 0, {this};
    }

    /** `bf_new_from`. */
    constructor Buffer(file: File, readCap: nat, writeCap: nat)
      requires file.Valid() && !file.hasUngot
      ensures Valid() && kind == Buffered && raw == file && !hasUngot
      ensures fresh(Repr - file.Repr) && depth == file.depth + 1
      ensures readBuf.Length == readCap && writeBuf.Length == writeCap
      ensures readPos == readEnd == writePos == writeEnd == 0
      ensures Stream() == file.Stream() && Output() == file.Output() && (Reliable() <==> file.Reliable())
    {
      kind, hasUngot, ungot, raw, str := Buffered, false, 0, file, null;
      var r, w := new Byte[readCap], new Byte[writeCap];
      readBuf, writeBuf := r, w;
      readPos, readEnd, writePos, writeEnd := 0, 0, 0, 0;
      depth, Repr := file.depth + 1, {this, r, w} + file.Repr;
    }

    /** `lf_new`. */
    constructor Lock(file: File)
      requires file.Valid() && !file.hasUngot
      ensures Valid() && kind == Locked && raw == file && !hasUngot && lock == 0
      ensures fresh(Repr - file.Repr) && depth == file.depth + 1
      ensures Stream() == file.Stream() && Output() == file.Output() && (Reliable() <==> file.Reliable())
    {
      kind, hasUngot, ungot, raw, str, lock := Locked, false, 0, file, null, 0;
      depth, Repr := file.depth + 1, {this} + file.Repr;
    }

    /** `sf_open`. */
    constructor OverString(s: String)
      requires s.Valid()
      ensures Valid() && kind == StringSink && str == s && fresh(Repr - {s})
      ensures Output() == s.Contents() && Writable() && Progressing()
    {
      kind, hasUngot, ungot, raw, str := StringSink, false, 0, null, s;
      depth, Repr := 0, {this, s};
    }

    /** `svf_open`. */
    constructor OverView(bytes: seq<Byte>)
      ensures Valid() && Readable() && Reliable() && kind == StringView && fresh(Repr)
      ensures Stream() == bytes && !hasUngot
    {
      kind, hasUngot, ungot, raw, str, view, viewPos := StringView, false, 0, null, null, bytes, 0;
      depth, Repr := 0, {this};
    }
  }

  /** Bytes sent below and still kept. */
  lemma Resent(below: seq<Byte>, pending: seq<Byte>, n: nat, taken: nat)
    requires n <= taken <= |pending|
    ensures (below + pending[..taken]) + pending[n..] == (below + pending) + pending[n..taken] ||
      (n != taken && taken != |pending|)
  {
    if n == taken {
      assert pending[..taken] + pending[n..] == pending;
    } else if taken == |pending| {
      assert pending[..taken] == pending && pending[n..taken] == pending[n..];
    }
  }

  /** `stdin_read`: standard output is flushed first; a failing flush means nothing is read. */
  method StdinRead(input: File, stdout: File, buf: array<Byte>, off: nat, cap: nat) returns (n: nat, err: Err)
    requires input.Valid() && input.Readable() && input.kind.Locked? && !input.hasUngot
    requires stdout.Valid() && stdout.Writable() && stdout.Repr !! input.Repr
    requires buf !in input.Repr && buf !in stdout.Repr && off + cap <= buf.Length && cap > 0
    modifies input.Repr, stdout.Repr, buf
    ensures input.Valid() && stdout.Valid()
    ensures stdout.Output() == old(stdout.Output()) && input.Output() == old(input.Output())
    ensures n <= cap && n <= old(|input.Stream()|) && input.Stream() == old(input.Stream())[n..]
    ensures buf[..] == Splice(old(buf[..]), off, old(input.Stream())[..n])
    ensures err == Ok && n == 0 ==> old(input.Stream()) == []
    ensures err != Ok ==> n == 0
    ensures err == Ok && stdout.Progressing() ==> stdout.Pending() == []
    ensures stdout.Progressing() && input.Reliable() ==> err == Ok
    ensures stdout.Flat() && old(stdout.FlushErr()) != Ok ==>
      err == old(stdout.FlushErr()) && unchanged(input.Repr) && unchanged(buf)
    ensures stdout.Flat() && old(stdout.FlushErr()) == Ok ==> err == old(input.ReadErr())
  {
    err := stdout.Flush();
    if err != Ok { return 0, err; }
    n, err := input.LfRead(buf, off, cap);
  }

  /** `stderr_write`: standard output is flushed first, and stderr is written whatever came of that. The flush
      error is reported only when the write failed as well (then the count is -1). */
  method StderrWrite(stderr: File, stdout: File, data: seq<Byte>)
    returns (n: int, err: Err, ghost taken: nat, ghost flushErr: Err)
    requires stderr.Valid() && stderr.Writable() && stderr.Exact() && data != []
    requires stdout.Valid() && stdout.Writable() && stdout.Repr !! stderr.Repr
    modifies stderr.Repr, stdout.Repr
    ensures stderr.Valid() && stdout.Valid() && stdout.Output() == old(stdout.Output())
    ensures taken <= |data| && stderr.Output() == old(stderr.Output()) + data[..taken]
    ensures n == -1 <==> flushErr != Ok && err != Ok
    ensures if n == -1 then err == flushErr && taken == 0 else n == taken
    ensures stderr.Progressing() ==> err == Ok && n > 0
    ensures stdout.Flat() ==> flushErr == old(stdout.FlushErr())
    ensures stderr.Flat() ==>
      var e := old(stderr.WriteErrOf(|data|)); err == if e != Ok && flushErr != Ok then flushErr else e
    ensures flushErr != Ok ==> stdout.Pending() != []
    ensures stdout.Progressing() ==> flushErr == Ok && stdout.Pending() == []
  {
    var flushed := stdout.Flush();
    flushErr := flushed;
    n, err, taken := stderr.Write(data);
    if flushed != Ok && err != Ok {
      n, err := -1, flushed;
    }
  }

  /** Why `Writable` asks every buffered layer to sit on an exact file. A line that is written to a buffered file over
      another one, with room in both buffers, is taken; the output grows by exactly what was taken if and only if the
      flush of the inner file gets everything through that the two hold. Otherwise all that the outer file held, the
      line included, is now in the output twice. */
  method BufferOverBuffer(outer: File, inner: File, line: seq<Byte>)
    returns (n: nat, err: Err, ghost taken: nat, ghost surplus: seq<Byte>)
    requires outer.Valid() && outer.kind.Buffered? && outer.raw == inner
    requires inner.Writable() && line != [] && line[|line| - 1] == NEWLINE
    requires outer.writeEnd + |line| <= outer.writeBuf.Length
    requires inner.HasRoom(outer.writeEnd - outer.writePos + |line|)
    modifies outer.Repr
    ensures outer.Valid() && taken == |line| && err == Ok && n == if surplus == [] then |line| else 0
    ensures outer.Output() == old(outer.Output()) + line[..taken] + surplus
    ensures surplus == [] || surplus == old(outer.writeBuf[outer.writePos..outer.writeEnd]) + line
    ensures outer.Output() == old(outer.Output()) + line[..taken] <==>
      old(inner.FlushDrains(outer.writeEnd - outer.writePos + |line|))
  {
    n, err, taken, surplus := outer.BfWrite(line);
  }

  /** The failing case: over a descriptor that accepts nothing, a newline ends up in the output twice. */
  method DuplicatedNewline() returns (outer: File, n: nat, ghost taken: nat)
    ensures outer.Valid() && n == 0 && taken == 1 && outer.Output() == [NEWLINE, NEWLINE]
  {
    var descriptor := new File.FromFd([], _ => Count(0), _ => Count(0));
    var inner := new File.Buffer(descriptor, 8, 8);
    outer := new File.Buffer(inner, 8, 8);
    assert descriptor.FlushFrom(0, 1).left == 1 by { assert descriptor.Accepts(0, 1) == 0; }
    var err;
    ghost var surplus;
    n, err, taken, surplus := BufferOverBuffer(outer, inner, [NEWLINE]);
  }

  /** A string file's output is its string's text. */
  lemma SinkHolds(sink: File)
    requires sink.Valid() && sink.kind.StringSink?
    ensures sink.str != null && sink.str.Valid() && sink.Output() == sink.str.Contents()
  {
  }
}
