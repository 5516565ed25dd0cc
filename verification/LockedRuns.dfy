/** Any number of threads using one LockedFile over a BufferedFile over a descriptor (src/ministd_io.c,
    src/ministd_threads.c), interleaved at every access to shared memory: a swap on the lock, a load or store of
    `write_buf_pos` or `write_buf_end`, each byte of a `memmove`, each system call. */
module LockedRuns {
  import opened Prelude
  import opened Files

  /** `lf_write`, `lf_misc` with FO_FLUSH, and `lf_misc` with FO_HASFD or FO_GETFD. */
  datatype Call = Write(data: seq<Byte>) | Flush | Query

  datatype Why = ForRoom | ForNewline | ForMisc

  /** The next thing a thread does. */
  datatype Pc =
    | Idle                            // outside any call
    | Spinning                        // the swap in `mutex_lock`
    | Start                           // the first test of `bf_write`, or the switch of `bf_misc`
    | FlushTest(why: Why)             // the loop condition of `bf_flush`
    | FlushWrite(why: Why)            // its write to the descriptor
    | FlushAdvance(why: Why, n: nat)  // moving `write_buf_pos`
    | FlushReset(why: Why)            // after the loop: `write_buf_pos` ...
    | FlushResetEnd(why: Why)         // ... and `write_buf_end`
    | AfterFlush(why: Why, failed: bool)
    | Bypass                          // the write of an oversized block
    | RefillPos
    | RefillEnd
    | Copy(at: nat, i: nat, refill: bool)  // byte `i` of the `memmove` to index `at`
    | Publish                         // moving `write_buf_end` past the appended bytes
    | NewlineTest
    | Leaving(ret: nat)               // the swap in `mutex_unlock`
  {
    predicate Inside() { !Idle? && !Spinning? }
  }

  /** The BufferedFile's write side, and what the descriptor has accepted. */
  datatype Shared = Shared(buf: seq<Byte>, pos: nat, end: nat, out: seq<Byte>) {
    predicate Ordered() { pos <= end <= |buf| }

    function Pending(): seq<Byte> requires Ordered() { buf[pos..end] }
  }

  // ------------------------------------------------------------------ the critical section

  /** The holder's view: shared state, program counter, and the bytes of its data taken so far. */
  datatype Crit = Crit(sh: Shared, pc: Pc, taken: seq<Byte>, refused: bool)

  /** How many bytes the descriptor accepts of `want`. */
  function Accepted(r: Reply, want: nat): (n: nat)
    ensures n <= want
  {
    if r.Fails? then 0 else Min(r.n, want)
  }

  /** One step inside the lock; `r` is the kernel's answer when the step is a system call. */
  function CritStep(c: Crit, call: Call, r: Reply): Crit
    requires c.sh.Ordered()
    requires c.pc.Copy? && call.Write? && c.pc.i < |call.data| ==> c.pc.at + c.pc.i < |c.sh.buf|
  {
    var sh := c.sh;
    var data := Data(call);
    match c.pc
    case Start =>
      if call.Flush? then c.(pc := FlushTest(ForMisc))
      else if call.Query? then c.(pc := Leaving(0))
      else if sh.end + |data| > |sh.buf| then c.(pc := FlushTest(ForRoom))
      else c.(pc := Copy(sh.end, 0, false))
    case FlushTest(why) => c.(pc := if sh.end > sh.pos then FlushWrite(why) else FlushReset(why))
    case FlushWrite(why) =>
      var n := Accepted(r, sh.end - sh.pos);
      if n == 0 then c.(pc := AfterFlush(why, r.Fails?), refused := true)
      else c.(sh := sh.(out := sh.out + sh.buf[sh.pos..sh.pos + n]), pc := FlushAdvance(why, n))
    case FlushAdvance(why, n) => c.(sh := sh.(pos := sh.pos + n), pc := FlushTest(why))
    case FlushReset(why) => c.(sh := sh.(pos := 0), pc := FlushResetEnd(why))
    case FlushResetEnd(why) => c.(sh := sh.(end := 0), pc := AfterFlush(why, false))
    case AfterFlush(why, failed) =>
      (match why
       case ForRoom =>
         if failed || sh.pos < sh.end then c.(pc := Leaving(0))
         else c.(pc := if |data| > |sh.buf| then Bypass else RefillPos)
       case ForNewline => c.(pc := Leaving(if sh.pos < sh.end then 0 else |data|))
       case ForMisc => c.(pc := Leaving(0)))
    case Bypass =>
      var n := Accepted(r, |data|);
      Crit(sh.(out := sh.out + data[..n]), Leaving(n), data[..n], c.refused || n == 0)
    case RefillPos => c.(sh := sh.(pos := 0), pc := RefillEnd)
    case RefillEnd => c.(sh := sh.(end := |data|), pc := Copy(0, 0, true))
    case Copy(at, i, refill) =>
      if i < |data| then c.(sh := sh.(buf := sh.buf[at + i := data[i]]), pc := Copy(at, i + 1, refill))
      else if refill then c.(pc := Leaving(|data|), taken := data)
      else c.(pc := Publish)
    case Publish => c.(sh := sh.(end := sh.end + |data|), pc := NewlineTest, taken := data)
    case NewlineTest =>
      c.(pc := if 0 < sh.end && sh.buf[sh.end - 1] == NEWLINE then FlushTest(ForNewline) else Leaving(|data|))
    case _ => c
  }

  function Data(call: Call): seq<Byte> { if call.Write? then call.data else [] }

  /** What has been taken when a flush runs for this reason. */
  function TakenBy(why: Why, call: Call): seq<Byte> { if why.ForNewline? then Data(call) else [] }

  ghost predicate Asked(why: Why, call: Call)
  {
    match why
    case ForRoom => call.Write?
    case ForNewline => call.Write? && call.data != [] && call.data[|call.data| - 1] == NEWLINE
    case ForMisc => call.Flush?
  }

  /** The buffered bytes that are still to be delivered; while the flush loop is between a write and the update that
      follows it, and while the buffer is being refilled, the two pointers alone do not tell. */
  function View(sh: Shared, pc: Pc): seq<Byte>
    requires sh.Ordered()
  {
    match pc
    case FlushAdvance(_, n) => if sh.pos + n <= sh.end then sh.buf[sh.pos + n..sh.end] else []
    case FlushResetEnd(_) => []
    case Copy(_, _, true) => []
    case _ => sh.buf[sh.pos..sh.end]
  }

  /** What holds before each step of the thread that has the lock; `before` is all that earlier holders took. */
  ghost predicate CritOk(c: Crit, call: Call, before: seq<Byte>)
  {
    c.sh.Ordered() && before + c.taken == c.sh.out + View(c.sh, c.pc) && PcOk(c, call)
  }

  ghost predicate PcOk(c: Crit, call: Call)
    requires c.sh.Ordered()
  {
    var sh, data := c.sh, Data(call);
    (call.Write? ==> data != []) &&
    match c.pc
    case Idle => false
    case Spinning => false
    case Start => c.taken == []
    case FlushTest(why) => Asked(why, call) && c.taken == TakenBy(why, call)
    case FlushWrite(why) => Asked(why, call) && c.taken == TakenBy(why, call) && sh.pos < sh.end
    case FlushAdvance(why, n) => Asked(why, call) && c.taken == TakenBy(why, call) && 0 < n <= sh.end - sh.pos
    case FlushReset(why) => Asked(why, call) && c.taken == TakenBy(why, call) && sh.pos == sh.end
    case FlushResetEnd(why) => Asked(why, call) && c.taken == TakenBy(why, call) && sh.pos == 0
    case AfterFlush(why, failed) =>
      Asked(why, call) && c.taken == TakenBy(why, call) && (sh.pos < sh.end || sh.pos == sh.end == 0)
    case Bypass => call.Write? && c.taken == [] && sh.pos == sh.end == 0
    case RefillPos => call.Write? && c.taken == [] && sh.pos == sh.end == 0 && |data| <= |sh.buf|
    case RefillEnd => call.Write? && c.taken == [] && sh.pos == sh.end == 0 && |data| <= |sh.buf|
    case Copy(at, i, refill) =>
      call.Write? && c.taken == [] && i <= |data| && at + |data| <= |sh.buf| && sh.buf[at..at + i] == data[..i] &&
      if refill then at == sh.pos == 0 && sh.end == |data| else at == sh.end
    case Publish =>
      call.Write? && c.taken == [] && sh.end + |data| <= |sh.buf| && sh.buf[sh.end..sh.end + |data|] == data
    case NewlineTest =>
      call.Write? && c.taken == data && |data| <= sh.end && sh.buf[sh.end - |data|..sh.end] == data
    case Leaving(ret) => if call.Write? then Outcome(data, ret, c.taken) else c.taken == []
  }

  /** What a finished write took, and what it reports. */
  ghost predicate Outcome(data: seq<Byte>, ret: nat, taken: seq<Byte>)
  {
    taken <= data && WriteOutcome(data, ret, |taken|)
  }

  /** Every step inside the lock keeps the bytes: delivered, then buffered, they are what has been taken. */
  lemma CritKeeps(c: Crit, call: Call, before: seq<Byte>, r: Reply)
    requires CritOk(c, call, before)
    ensures CritOk(CritStep(c, call, r), call, before)
  {
    if c.pc.FlushWrite? {
      FlushWriteKeeps(c, call, before, r);
    } else if c.pc.FlushTest? || c.pc.FlushAdvance? || c.pc.FlushReset? || c.pc.FlushResetEnd? {
      FlushKeeps(c, call, before, r);
    } else if c.pc.Bypass? || c.pc.RefillPos? || c.pc.RefillEnd? {
      RoomKeeps(c, call, before, r);
    } else if c.pc.Copy? {
      if c.pc.i < |Data(call)| { CopyByteKeeps(c, call, before, r); } else { CopyEndKeeps(c, call, before, r); }
    } else if c.pc.Publish? {
      PublishKeeps(c, call, before, r);
    } else if c.pc.NewlineTest? {
      NewlineKeeps(c, call, before, r);
    } else if c.pc.Start? {
      StartKeeps(c, call, before, r);
    } else if c.pc.AfterFlush? {
      AfterFlushKeeps(c, call, before, r);
    }
  }

  /** What the flush loop's write delivers is still in the buffer until the position has moved. */
  lemma FlushWriteKeeps(c: Crit, call: Call, before: seq<Byte>, r: Reply)
    requires CritOk(c, call, before) && c.pc.FlushWrite?
    ensures CritOk(CritStep(c, call, r), call, before)
  {
    if Accepted(r, c.sh.end - c.sh.pos) > 0 {
      FlushPassesOn(c, call, before, r, Accepted(r, c.sh.end - c.sh.pos));
    } else {
      hide Asked, TakenBy, Data;
    }
  }

  lemma FlushPassesOn(c: Crit, call: Call, before: seq<Byte>, r: Reply, n: nat)
    requires CritOk(c, call, before) && c.pc.FlushWrite?
    requires n == Accepted(r, c.sh.end - c.sh.pos) && n > 0
    ensures CritOk(CritStep(c, call, r), call, before)
  {
    var sh := c.sh;
    FlushWriteIs(c, call, r, n);
    hide Asked, TakenBy, Data, Accepted, CritStep;
    SplitPending(sh.out, sh.buf, sh.pos, sh.pos + n, sh.end);
    assert before + c.taken == (sh.out + sh.buf[sh.pos..sh.pos + n]) + sh.buf[sh.pos + n..sh.end];
  }

  lemma FlushWriteIs(c: Crit, call: Call, r: Reply, n: nat)
    requires c.sh.Ordered() && c.pc.FlushWrite? && n == Accepted(r, c.sh.end - c.sh.pos) && n > 0
    ensures CritStep(c, call, r) ==
      Crit(Shared(c.sh.buf, c.sh.pos, c.sh.end, c.sh.out + c.sh.buf[c.sh.pos..c.sh.pos + n]),
           FlushAdvance(c.pc.why, n), c.taken, c.refused)
  {
  }

  lemma SplitPending(out: seq<Byte>, buf: seq<Byte>, lo: nat, mid: nat, hi: nat)
    requires lo <= mid <= hi <= |buf|
    ensures (out + buf[lo..mid]) + buf[mid..hi] == out + buf[lo..hi]
  {
    assert buf[lo..mid] + buf[mid..hi] == buf[lo..hi];
  }

  /** The other steps of `bf_flush`. */
  lemma FlushKeeps(c: Crit, call: Call, before: seq<Byte>, r: Reply)
    requires CritOk(c, call, before)
    requires c.pc.FlushTest? || c.pc.FlushAdvance? || c.pc.FlushReset? || c.pc.FlushResetEnd?
    ensures CritOk(CritStep(c, call, r), call, before)
  {
    if c.pc.FlushReset? { assert c.sh.buf[c.sh.pos..c.sh.end] == []; }
    if c.pc.FlushResetEnd? { assert c.sh.buf[0..0] == []; }
  }

  /** The oversized write, and the refill up to its `memmove`. */
  lemma RoomKeeps(c: Crit, call: Call, before: seq<Byte>, r: Reply)
    requires CritOk(c, call, before) && (c.pc.Bypass? || c.pc.RefillPos? || c.pc.RefillEnd?)
    ensures CritOk(CritStep(c, call, r), call, before)
  {
    var sh, data := c.sh, Data(call);
    assert sh.buf[0..0] == [] && data[..0] == [] && before + c.taken == before && sh.out + [] == sh.out;
    if c.pc.Bypass? {
      var out := sh.out + data[..Accepted(r, |data|)];
      assert out + [] == out;
    }
  }

  lemma CopyByteKeeps(c: Crit, call: Call, before: seq<Byte>, r: Reply)
    requires CritOk(c, call, before) && c.pc.Copy? && c.pc.i < |Data(call)|
    ensures CritOk(CritStep(c, call, r), call, before)
  {
    hide Outcome, Asked, TakenBy, Accepted;
    var sh, data, at, i := c.sh, Data(call), c.pc.at, c.pc.i;
    CopiedByte(sh.buf, at, i, data);
    assert !c.pc.refill ==> sh.buf[at + i := data[i]][sh.pos..sh.end] == sh.buf[sh.pos..sh.end];
  }

  lemma CopiedByte(buf: seq<Byte>, at: nat, i: nat, data: seq<Byte>)
    requires i < |data| && at + i < |buf| && buf[at..at + i] == data[..i]
    ensures buf[at + i := data[i]][at..at + i + 1] == data[..i + 1]
  {
    var b := buf[at + i := data[i]];
    assert b[at..at + i] == buf[at..at + i];
    assert b[at..at + i + 1] == b[at..at + i] + [data[i]];
  }

  lemma CopyEndKeeps(c: Crit, call: Call, before: seq<Byte>, r: Reply)
    requires CritOk(c, call, before) && c.pc.Copy? && c.pc.i == |Data(call)|
    ensures CritOk(CritStep(c, call, r), call, before)
  {
    var sh, data := c.sh, Data(call);
    assert data[..c.pc.i] == data;
    assert before + [] == before && sh.out + [] == sh.out;
  }

  /** The appended bytes count once the end has moved. */
  lemma PublishKeeps(c: Crit, call: Call, before: seq<Byte>, r: Reply)
    requires CritOk(c, call, before) && c.pc.Publish?
    ensures CritOk(CritStep(c, call, r), call, before)
  {
    var sh, data := c.sh, Data(call);
    var pending := sh.buf[sh.pos..sh.end];
    assert sh.buf[sh.pos..sh.end + |data|] == pending + data;
    assert before == sh.out + pending by { assert before + [] == before; }
    assert sh.out + (pending + data) == (sh.out + pending) + data;
  }

  lemma NewlineKeeps(c: Crit, call: Call, before: seq<Byte>, r: Reply)
    requires CritOk(c, call, before) && c.pc.NewlineTest?
    ensures CritOk(CritStep(c, call, r), call, before)
  {
    var sh, data := c.sh, Data(call);
    assert sh.buf[sh.end - 1] == sh.buf[sh.end - |data|..sh.end][|data| - 1];
    assert data[..|data|] == data;
  }

  /** The branches before and after a flush. */
  lemma StartKeeps(c: Crit, call: Call, before: seq<Byte>, r: Reply)
    requires CritOk(c, call, before) && c.pc.Start?
    ensures CritOk(CritStep(c, call, r), call, before)
  {
    assert c.sh.buf[c.sh.end..c.sh.end + 0] == [] && Data(call)[..0] == [];
  }

  lemma AfterFlushKeeps(c: Crit, call: Call, before: seq<Byte>, r: Reply)
    requires CritOk(c, call, before) && c.pc.AfterFlush?
    ensures CritOk(CritStep(c, call, r), call, before)
  {
    assert Data(call)[..|Data(call)|] == Data(call);
  }

  // ------------------------------------------------------------------ the threads

  /** A thread: where it is, and the calls it has begun, in its program's order. */
  datatype Thread = Thread(pc: Pc, calls: seq<Call>)

  /** A holder of the lock, in order of acquisition: the file as it found it, what it took, whether the descriptor
      refused one of its writes and, once it has left, what it returned. */
  datatype Entry = Entry(tid: nat, call: Call, start: Shared, taken: seq<Byte>, refused: bool, left: bool, ret: nat) {
    function Seen(sh: Shared, pc: Pc): Crit { Crit(sh, pc, taken, refused) }
  }

  datatype State = State(lock: int, sh: Shared, threads: map<nat, Thread>, log: seq<Entry>) {
    function Get(t: nat): Thread { if t in threads then threads[t] else Thread(Idle, []) }
  }

  datatype Action = Begin(t: nat, call: Call) | Run(t: nat, r: Reply)

  /** One step of one thread. A write of no bytes is not begun. */
  function Do(s: State, a: Action): State
  {
    match a
    case Begin(t, call) =>
      if s.Get(t).pc.Idle? && (call.Write? ==> call.data != []) then
        s.(threads := s.threads[t := Thread(Spinning, s.Get(t).calls + [call])])
      else s
    case Run(t, r) =>
      var th := s.Get(t);
      if th.pc.Idle? || th.calls == [] then s
      else if th.pc.Spinning? then Swap(s, t)
      else if th.pc.Leaving? then Unlock(s, t)
      else Inside(s, t, r)
  }

  /** The entry of a thread that finds the lock free. */
  function Acquired(sh: Shared, t: nat, call: Call): Entry
  {
    Entry(t, call, sh, [], false, false, 0)
  }

  /** `mutex_try_lock`: the cell is set to 1 in any case; only the thread that found 0 goes on. */
  function Swap(s: State, t: nat): State
    requires s.Get(t).calls != []
  {
    var calls := s.Get(t).calls;
    if s.lock == 0 then
      State(1, s.sh, s.threads[t := Thread(Start, calls)], s.log + [Acquired(s.sh, t, calls[|calls| - 1])])
    else s.(lock := 1)
  }

  function Unlock(s: State, t: nat): State
    requires s.Get(t).pc.Leaving?
  {
    var n := |s.log| - 1;
    State(0, s.sh, s.threads[t := s.Get(t).(pc := Idle)],
          if n < 0 then s.log else s.log[n := s.log[n].(left := true, ret := s.Get(t).pc.ret)])
  }

  /** A step inside the lock; the bytes it takes are booked on the last entry. */
  function Inside(s: State, t: nat, r: Reply): State
    requires s.Get(t).calls != []
  {
    var n, th := |s.log| - 1, s.Get(t);
    var call := th.calls[|th.calls| - 1];
    if n < 0 || !s.sh.Ordered() ||
       (th.pc.Copy? && call.Write? && th.pc.i < |call.data| && th.pc.at + th.pc.i >= |s.sh.buf|) then s
    else
      var c := CritStep(s.log[n].Seen(s.sh, th.pc), call, r);
      State(s.lock, c.sh, s.threads[t := th.(pc := c.pc)],
            s.log[n := s.log[n].(taken := c.taken, refused := c.refused)])
  }

  function Execute(s: State, run: seq<Action>): State
  {
    if run == [] then s else Do(Execute(s, run[..|run| - 1]), run[|run| - 1])
  }

  /** An unlocked file with an empty buffer of `cap` bytes. */
  function Init(cap: nat): State { State(0, Shared(seq(cap, _ => 0), 0, 0, []), map[], []) }

  /** The bytes taken, in order of acquisition. */
  function Taken(log: seq<Entry>): seq<Byte>
  {
    if log == [] then [] else Taken(log[..|log| - 1]) + log[|log| - 1].taken
  }

  /** The calls with which thread `t` acquired the lock, in order. */
  function CallsOf(log: seq<Entry>, t: nat): seq<Call>
  {
    if log == [] then []
    else CallsOf(log[..|log| - 1], t) + if log[|log| - 1].tid == t then [log[|log| - 1].call] else []
  }

  // ------------------------------------------------------------------ the invariant

  ghost predicate Holds(s: State, t: nat) { s.lock == 1 && s.log != [] && s.log[|s.log| - 1].tid == t }

  /** A thread is inside exactly if the lock is held and it is the last to have acquired it; what it acquired it
      for, so far, is what its program asked for. */
  ghost predicate ThreadOk(s: State, t: nat)
  {
    var th := s.Get(t);
    (th.pc.Inside() <==> Holds(s, t)) && (th.pc.Spinning? ==> th.calls != []) &&
    (forall i :: 0 <= i < |th.calls| && th.calls[i].Write? ==> th.calls[i].data != []) &&
    CallsOf(s.log, t) == if th.pc.Spinning? then th.calls[..|th.calls| - 1] else th.calls
  }

  /** An entry whose thread has left: what it returned, against what was taken. */
  ghost predicate Left(e: Entry)
  {
    e.left && if e.call.Write? then Outcome(e.call.data, e.ret, e.taken) else e.taken == []
  }

  ghost predicate Inv(s: State)
  {
    (s.lock == 0 || s.lock == 1) && (s.lock == 1 ==> s.log != []) &&
    (forall t :: ThreadOk(s, t)) &&
    (forall i :: 0 <= i < |s.log| - s.lock ==> Left(s.log[i])) &&
    if s.lock == 0 then s.sh.Ordered() && Taken(s.log) == s.sh.out + s.sh.Pending()
    else HolderOk(s)
  }

  ghost predicate HolderOk(s: State)
    requires s.log != []
  {
    var n := |s.log| - 1;
    var th, e := s.Get(s.log[n].tid), s.log[n];
    th.calls != [] && e.call == th.calls[|th.calls| - 1] && !e.left && th.pc.Inside() &&
    CritOk(e.Seen(s.sh, th.pc), e.call, Taken(s.log[..n]))
  }

  lemma {:induction false} CallsOfSame(l: seq<Entry>, m: seq<Entry>, t: nat)
    requires |l| == |m| && forall i :: 0 <= i < |l| ==> l[i].tid == m[i].tid && l[i].call == m[i].call
    ensures CallsOf(l, t) == CallsOf(m, t)
    decreases |l|
  {
    if l != [] { CallsOfSame(l[..|l| - 1], m[..|m| - 1], t); }
  }

  lemma InsideKeeps(s: State, t: nat, r: Reply)
    requires Inv(s) && Holds(s, t) && !s.Get(t).pc.Leaving?
    ensures s.Get(t).calls != [] && Inv(Inside(s, t, r))
  {
    hide View, CritStep, PcOk, Taken, CallsOf;
    var n, th := |s.log| - 1, s.Get(t);
    var e := s.log[n];
    var c := e.Seen(s.sh, th.pc);
    CopyInBuffer(c, e.call);
    CritKeeps(c, e.call, Taken(s.log[..n]), r);
    StaysInside(c, e.call, r, Taken(s.log[..n]));
    var s' := Inside(s, t, r);
    assert s'.log[..n] == s.log[..n];
    forall u ensures ThreadOk(s', u) {
      assert ThreadOk(s, u);
      CallsOfSame(s.log, s'.log, u);
    }
  }

  lemma CopyInBuffer(c: Crit, call: Call)
    requires c.sh.Ordered() && PcOk(c, call)
    ensures c.pc.Copy? && call.Write? && c.pc.i < |call.data| ==> c.pc.at + c.pc.i < |c.sh.buf|
  {
  }

  /** No step but the unlock leaves the critical section. */
  lemma StaysInside(c: Crit, call: Call, r: Reply, before: seq<Byte>)
    requires CritOk(c, call, before) && c.pc.Inside()
    ensures CritStep(c, call, r).pc.Inside()
  {
    CopyInBuffer(c, call);
  }

  lemma SwapKeeps(s: State, t: nat)
    requires Inv(s) && s.Get(t).pc.Spinning?
    ensures s.Get(t).calls != [] && Inv(Swap(s, t))
  {
    hide View, CritStep, Taken, CallsOf;
    assert ThreadOk(s, t);
    var s', n := Swap(s, t), |s.log|;
    if s.lock == 0 {
      var calls := s.Get(t).calls;
      var e := Acquired(s.sh, t, calls[|calls| - 1]);
      assert s'.log[..n] == s.log && s'.log[n] == e;
      StartOk(s.sh, e.call, Taken(s.log));
      forall u ensures ThreadOk(s', u) {
        assert ThreadOk(s, u);
        CallsOfAppend(s.log, e, u);
      }
    } else {
      assert s' == s;
    }
  }

  lemma CallsOfAppend(l: seq<Entry>, e: Entry, t: nat)
    ensures CallsOf(l + [e], t) == CallsOf(l, t) + if e.tid == t then [e.call] else []
  {
    assert (l + [e])[..|l|] == l;
  }

  lemma StartOk(sh: Shared, call: Call, before: seq<Byte>)
    requires sh.Ordered() && before == sh.out + sh.Pending() && (call.Write? ==> call.data != [])
    ensures CritOk(Crit(sh, Start, [], false), call, before)
  {
    assert before + [] == before;
  }

  lemma UnlockKeeps(s: State, t: nat)
    requires Inv(s) && Holds(s, t) && s.Get(t).pc.Leaving?
    ensures Inv(Unlock(s, t))
  {
    hide CritStep, CallsOf;
    var s', n := Unlock(s, t), |s.log| - 1;
    assert s'.log[..n] == s.log[..n];
    forall u ensures ThreadOk(s', u) {
      assert ThreadOk(s, u);
      CallsOfSame(s.log, s'.log, u);
    }
  }

  lemma StepKeepsInv(s: State, a: Action)
    requires Inv(s)
    ensures Inv(Do(s, a))
  {
    hide Swap, Unlock, Inside, CallsOf, Taken, CritOk;
    assert ThreadOk(s, a.t);
    match a
    case Begin(t, call) =>
      var s' := Do(s, a);
      forall u ensures ThreadOk(s', u) { assert ThreadOk(s, u); }
    case Run(t, r) =>
      if s.Get(t).pc.Spinning? { SwapKeeps(s, t); }
      else if s.Get(t).pc.Leaving? { UnlockKeeps(s, t); }
      else if s.Get(t).pc.Inside() { InsideKeeps(s, t, r); }
  }

  lemma {:induction false} Reachable(cap: nat, run: seq<Action>)
    ensures Inv(Execute(Init(cap), run))
    decreases |run|
  {
    if run == [] {
      forall t ensures ThreadOk(Init(cap), t) { assert CallsOf([], t) == []; }
      assert Init(cap).sh.Pending() == [];
    } else {
      Reachable(cap, run[..|run| - 1]);
      StepKeepsInv(Execute(Init(cap), run[..|run| - 1]), run[|run| - 1]);
    }
  }

  // ------------------------------------------------------------------ results

  /** Mutual exclusion: in every interleaving, the lock cell holds 1 exactly when a thread is inside, and then only
      one is. */
  lemma MutualExclusion(cap: nat, run: seq<Action>, t: nat, u: nat)
    ensures var s := Execute(Init(cap), run);
      (s.lock == 0 || s.lock == 1) &&
      (s.Get(t).pc.Inside() ==> s.lock == 1) &&
      (s.Get(t).pc.Inside() && s.Get(u).pc.Inside() ==> t == u) &&
      (s.lock == 1 ==> exists h :: s.Get(h).pc.Inside())
  {
    Reachable(cap, run);
    var s := Execute(Init(cap), run);
    assert ThreadOk(s, t) && ThreadOk(s, u);
    if s.lock == 1 { assert ThreadOk(s, s.log[|s.log| - 1].tid); }
  }

  /** Nothing is lost, duplicated or reordered: whenever the lock is free, what the descriptor has accepted followed
      by what is buffered is what the calls took, in the order in which they acquired the lock; each thread's calls
      are in that order as in its program; and every finished write took all of its data, or the part it reports. */
  lemma BytesInAcquisitionOrder(cap: nat, run: seq<Action>, t: nat)
    ensures var s := Execute(Init(cap), run);
      (s.lock == 0 || s.lock == 1) &&
      (s.lock == 0 ==> s.sh.Ordered() && s.sh.out + s.sh.Pending() == Taken(s.log)) &&
      (CallsOf(s.log, t) == if s.Get(t).pc.Spinning? && s.Get(t).calls != []
                            then s.Get(t).calls[..|s.Get(t).calls| - 1] else s.Get(t).calls) &&
      (forall i :: 0 <= i < |s.log| - s.lock ==> Left(s.log[i]))
  {
    Reachable(cap, run);
    assert ThreadOk(Execute(Init(cap), run), t);
  }

  /** At every step of every run, also inside the lock: what the descriptor has accepted, followed by what is still to
      come in the view of the thread inside, is what has been taken; so nothing is delivered that was not taken. */
  lemma DeliveredIsTaken(cap: nat, run: seq<Action>)
    ensures var s := Execute(Init(cap), run);
      s.sh.Ordered() && s.sh.out <= Taken(s.log) &&
      (s.lock == 1 ==> s.log != [] && Taken(s.log) == s.sh.out + View(s.sh, s.Get(s.log[|s.log| - 1].tid).pc)) &&
      (s.lock == 0 ==> Taken(s.log) == s.sh.out + s.sh.Pending())
  {
    Reachable(cap, run);
  }

  // ------------------------------------------------------------------ what a call achieves

  /** A write to the descriptor that makes progress. */
  predicate Accepting(r: Reply) { r.Count? && r.n > 0 }

  ghost predicate EndsLine(call: Call) { Data(call) != [] && Data(call)[|Data(call)| - 1] == NEWLINE }

  predicate Fits(start: Shared, call: Call) { start.end + |Data(call)| <= |start.buf| }

  /** What a call that is over has done to the file that it found as `start`. A query does nothing; data that fits is
      taken, and is appended with nothing delivered if it does not end a line. Unless the descriptor refused one of its
      writes, a write took something and reports exactly how much; after a flush, an appended line or an oversized write
      nothing is pending, and after any other write exactly its data. After a refusal a write reports 0, and took
      nothing if its data did not fit. */
  ghost predicate Achieved(sh: Shared, call: Call, start: Shared, taken: seq<Byte>, refused: bool, ret: nat)
    requires sh.Ordered() && start.Ordered()
  {
    (call.Query? ==> sh == start) &&
    (call.Write? && Fits(start, call) ==> taken == call.data) &&
    (call.Write? && refused ==> RefusedWrite(call, start, taken, ret)) &&
    (call.Write? && Fits(start, call) && !EndsLine(call) ==>
       !refused && sh.out == start.out && sh.Pending() == start.Pending() + call.data) &&
    (!refused ==>
       (call.Flush? ==> sh.Pending() == []) &&
       (call.Write? ==> ret == |taken| && ret > 0) &&
       (call.Write? && Fits(start, call) && EndsLine(call) ==> sh.Pending() == []) &&
       (call.Write? && !Fits(start, call) ==>
          sh.Pending() == if |call.data| <= |start.buf| then call.data else []))
  }

  ghost predicate RefusedWrite(call: Call, start: Shared, taken: seq<Byte>, ret: nat)
  {
    ret == 0 && (!Fits(start, call) ==> taken == [])
  }

  /** What leads there, inside the lock. */
  ghost predicate Aims(c: Crit, call: Call, start: Shared)
    requires c.sh.Ordered() && start.Ordered()
  {
    var full := call.Write? && !Fits(start, call) && !c.refused;
    var quiet := call.Write? && Fits(start, call) && !c.refused && c.sh.out == start.out;
    |c.sh.buf| == |start.buf| && (call.Query? ==> c.sh == start) &&
    match c.pc
    case Start => c.sh == start && !c.refused
    case FlushTest(why) => Purpose(why, call, start) && !c.refused
    case FlushWrite(why) => Purpose(why, call, start) && !c.refused
    case FlushAdvance(why, _) => Purpose(why, call, start) && !c.refused
    case FlushReset(why) => Purpose(why, call, start) && !c.refused
    case FlushResetEnd(why) => Purpose(why, call, start) && !c.refused
    case AfterFlush(why, failed) =>
      Purpose(why, call, start) && if c.refused then c.sh.pos < c.sh.end else !failed && c.sh.pos == c.sh.end
    case Bypass => full && |call.data| > |start.buf|
    case RefillPos => full && |call.data| <= |start.buf|
    case RefillEnd => full && |call.data| <= |start.buf|
    case Copy(_, _, refill) =>
      if refill then full && |call.data| <= |start.buf| else quiet && c.sh.Pending() == start.Pending()
    case Publish => quiet && c.sh.Pending() == start.Pending()
    case NewlineTest => quiet && c.sh.Pending() == start.Pending() + call.data
    case Leaving(ret) => Achieved(c.sh, call, start, c.taken, c.refused, ret)
    case _ => true
  }

  /** Why a flush runs. */
  ghost predicate Purpose(why: Why, call: Call, start: Shared)
  {
    match why
    case ForRoom => call.Write? && !Fits(start, call)
    case ForNewline => call.Write? && Fits(start, call) && EndsLine(call)
    case ForMisc => call.Flush?
  }

  lemma CritKeepsAim(c: Crit, call: Call, before: seq<Byte>, r: Reply, start: Shared)
    requires CritOk(c, call, before) && start.Ordered() && Aims(c, call, start)
    ensures CritStep(c, call, r).sh.Ordered() && Aims(CritStep(c, call, r), call, start)
  {
    CritKeeps(c, call, before, r);
    CopyInBuffer(c, call);
    if c.pc.Copy? {
      if c.pc.i < |Data(call)| {
        CopyKeepsAim(c, call, before, r, start);
      } else {
        CopyEndKeepsAim(c, call, before, r, start);
      }
    } else if c.pc.Publish? {
      PublishKeepsAim(c, call, before, r, start);
    } else if c.pc.NewlineTest? {
      NewlineKeepsAim(c, call, before, r, start);
    } else if c.pc.Bypass? || c.pc.RefillPos? || c.pc.RefillEnd? || c.pc.AfterFlush? || c.pc.Start? {
      BranchKeepsAim(c, call, before, r, start);
    } else {
      hide Achieved, Fits, EndsLine;
    }
  }

  lemma BranchKeepsAim(c: Crit, call: Call, before: seq<Byte>, r: Reply, start: Shared)
    requires CritOk(c, call, before) && start.Ordered() && Aims(c, call, start)
    requires c.pc.Bypass? || c.pc.RefillPos? || c.pc.RefillEnd? || c.pc.AfterFlush? || c.pc.Start?
    requires CritOk(CritStep(c, call, r), call, before)
    ensures Aims(CritStep(c, call, r), call, start)
  {
  }

  lemma CopyKeepsAim(c: Crit, call: Call, before: seq<Byte>, r: Reply, start: Shared)
    requires CritOk(c, call, before) && start.Ordered() && Aims(c, call, start)
    requires c.pc.Copy? && c.pc.i < |Data(call)|
    requires CritOk(CritStep(c, call, r), call, before)
    ensures Aims(CritStep(c, call, r), call, start)
  {
    CopyInBuffer(c, call);
    hide Achieved, Fits, View, Purpose;
    var sh, data := c.sh, Data(call);
    var buf := sh.buf[c.pc.at + c.pc.i := data[c.pc.i]];
    assert !c.pc.refill ==> buf[sh.pos..sh.end] == sh.buf[sh.pos..sh.end];
    assert CritStep(c, call, r).sh == sh.(buf := buf);
    hide CritStep, PcOk, CritOk;
  }

  lemma CopyEndKeepsAim(c: Crit, call: Call, before: seq<Byte>, r: Reply, start: Shared)
    requires CritOk(c, call, before) && start.Ordered() && Aims(c, call, start)
    requires c.pc.Copy? && c.pc.i == |Data(call)|
    requires CritOk(CritStep(c, call, r), call, before)
    ensures Aims(CritStep(c, call, r), call, start)
  {
    CopyInBuffer(c, call);
    hide View, Purpose, RefusedWrite, Outcome;
    assert Data(call)[..|Data(call)|] == Data(call);
  }

  lemma PublishKeepsAim(c: Crit, call: Call, before: seq<Byte>, r: Reply, start: Shared)
    requires CritOk(c, call, before) && start.Ordered() && Aims(c, call, start)
    requires c.pc.Publish?
    requires CritOk(CritStep(c, call, r), call, before)
    ensures Aims(CritStep(c, call, r), call, start)
  {
    hide Achieved, View, Purpose, RefusedWrite, Outcome, Fits;
    var sh, data := c.sh, Data(call);
    assert sh.buf[sh.end..sh.end + |data|] == data;
    assert sh.buf[sh.pos..sh.end + |data|] == sh.buf[sh.pos..sh.end] + sh.buf[sh.end..sh.end + |data|];
    assert CritStep(c, call, r) == Crit(sh.(end := sh.end + |data|), NewlineTest, data, c.refused);
    hide CritOk, PcOk, CritStep;
  }

  lemma NewlineKeepsAim(c: Crit, call: Call, before: seq<Byte>, r: Reply, start: Shared)
    requires CritOk(c, call, before) && start.Ordered() && Aims(c, call, start)
    requires c.pc.NewlineTest?
    requires CritOk(CritStep(c, call, r), call, before)
    ensures Aims(CritStep(c, call, r), call, start)
  {
    hide View;
    var sh, data := c.sh, Data(call);
    assert sh.buf[sh.end - 1] == sh.buf[sh.end - |data|..sh.end][|data| - 1];
  }

  /** Only a write to the descriptor that is not accepted counts as refused. */
  lemma RefusedOnlyByDescriptor(c: Crit, call: Call, before: seq<Byte>, r: Reply)
    requires CritOk(c, call, before) && !c.refused
    ensures CritStep(c, call, r).refused ==> (c.pc.FlushWrite? || c.pc.Bypass?) && !Accepting(r)
  {
    CopyInBuffer(c, call);
  }

  /** A finished write reported all it took. */
  ghost predicate Reported(e: Entry) { e.call.Write? && !e.refused ==> e.ret == |e.taken| && e.ret > 0 }

  ghost predicate AimInv(s: State)
  {
    (s.log != [] ==>
       var e := s.log[|s.log| - 1];
       s.sh.Ordered() && e.start.Ordered() &&
       if s.lock == 1 then Aims(e.Seen(s.sh, s.Get(e.tid).pc), e.call, e.start)
       else Achieved(s.sh, e.call, e.start, e.taken, e.refused, e.ret)) &&
    forall i :: 0 <= i < |s.log| && i < |s.log| - s.lock ==> Reported(s.log[i])
  }

  lemma StepKeepsAim(s: State, a: Action)
    requires Inv(s) && AimInv(s)
    ensures AimInv(Do(s, a))
  {
    hide CritStep, CallsOf, Taken, CritOk, Achieved;
    assert ThreadOk(s, a.t);
    var n := |s.log| - 1;
    if s.log != [] && s.lock == 0 { LastReported(s); }
    if a.Run? && s.Get(a.t).pc.Inside() {
      var th, e := s.Get(a.t), s.log[n];
      var c := e.Seen(s.sh, th.pc);
      assert CritOk(c, e.call, Taken(s.log[..n]));
      if th.pc.Leaving? {
        AchievedReported(s.sh, e, th.pc.ret);
        assert Do(s, a).log == s.log[n := e.(left := true, ret := th.pc.ret)] && Do(s, a).sh == s.sh;
      } else {
        CritKeepsAim(c, e.call, Taken(s.log[..n]), a.r, e.start);
      }
    }
  }

  lemma LastReported(s: State)
    requires AimInv(s) && s.log != [] && s.lock == 0
    ensures Reported(s.log[|s.log| - 1])
  {
  }

  lemma AchievedReported(sh: Shared, e: Entry, ret: nat)
    requires sh.Ordered() && e.start.Ordered() && Achieved(sh, e.call, e.start, e.taken, e.refused, ret)
    ensures Reported(e.(left := true, ret := ret))
  {
  }

  lemma {:induction false} AimReachable(cap: nat, run: seq<Action>)
    ensures AimInv(Execute(Init(cap), run))
    decreases |run|
  {
    if run != [] {
      AimReachable(cap, run[..|run| - 1]);
      Reachable(cap, run[..|run| - 1]);
      StepKeepsAim(Execute(Init(cap), run[..|run| - 1]), run[|run| - 1]);
    }
  }

  /** In every interleaving, whatever the descriptor answers: when the lock is free, the last call to have held it has
      done its work on the file it found. So after a flush, or a line that was appended, everything taken has been
      delivered, unless the descriptor refused a write of that very call; and each finished write took something and
      reported exactly how much, with the same exception. */
  lemma FlushDelivers(cap: nat, run: seq<Action>)
    ensures var s := Execute(Init(cap), run);
      (s.lock == 0 && s.log != [] ==>
         var e := s.log[|s.log| - 1];
         s.sh.Ordered() && e.start.Ordered() && Achieved(s.sh, e.call, e.start, e.taken, e.refused, e.ret) &&
         (!e.refused && (e.call.Flush? || (Fits(e.start, e.call) && EndsLine(e.call))) ==> s.sh.out == Taken(s.log))) &&
      forall i :: 0 <= i < |s.log| && i < |s.log| - s.lock ==> Reported(s.log[i])
  {
    Reachable(cap, run);
    AimReachable(cap, run);
    var s := Execute(Init(cap), run);
    if s.lock == 0 && s.log != [] && s.sh.Pending() == [] { assert s.sh.out + [] == s.sh.out; }
  }

  ghost predicate NoneRefused(s: State) { forall i :: 0 <= i < |s.log| ==> !s.log[i].refused }

  lemma StepRefusesNothing(s: State, a: Action)
    requires Inv(s) && NoneRefused(s) && (a.Run? ==> Accepting(a.r))
    ensures NoneRefused(Do(s, a))
  {
    hide CritStep, CallsOf, Taken, CritOk;
    assert ThreadOk(s, a.t);
    if a.Run? && s.Get(a.t).pc.Inside() && !s.Get(a.t).pc.Leaving? {
      var e := s.log[|s.log| - 1];
      RefusedOnlyByDescriptor(e.Seen(s.sh, s.Get(a.t).pc), e.call, Taken(s.log[..|s.log| - 1]), a.r);
    }
  }

  /** Over a descriptor that accepts something of every write nothing is refused, so that in every interleaving each
      finished write took something and reported exactly how much, and each flush delivers all that has been taken. */
  lemma {:induction false} CountsExact(cap: nat, run: seq<Action>)
    requires forall i :: 0 <= i < |run| && run[i].Run? ==> Accepting(run[i].r)
    ensures var s := Execute(Init(cap), run);
      NoneRefused(s) &&
      (forall i :: 0 <= i < |s.log| && i < |s.log| - s.lock && s.log[i].call.Write? ==>
         s.log[i].ret == |s.log[i].taken| && s.log[i].ret > 0) &&
      (s.lock == 0 && s.log != [] && s.log[|s.log| - 1].call.Flush? ==> s.sh.out == Taken(s.log))
    decreases |run|
  {
    if run != [] {
      CountsExact(cap, run[..|run| - 1]);
      Reachable(cap, run[..|run| - 1]);
      StepRefusesNothing(Execute(Init(cap), run[..|run| - 1]), run[|run| - 1]);
    }
    FlushDelivers(cap, run);
    var s := Execute(Init(cap), run);
    assert forall i :: 0 <= i < |s.log| && i < |s.log| - s.lock ==> Reported(s.log[i]);
  }

  // ------------------------------------------------------------------ progress

  /** A bound on the steps that the thread inside has before it. */
  function Steps(c: Crit, call: Call): nat
    requires c.sh.Ordered()
  {
    var size, pending := |Data(call)|, c.sh.end - c.sh.pos;
    match c.pc
    case Start => FlushBase(ForRoom, size) + 6 + 3 * pending + 3 * size
    case FlushTest(why) => FlushBase(why, size) + 3 + 3 * pending
    case FlushWrite(why) => FlushBase(why, size) + 2 + 3 * pending
    case FlushAdvance(why, _) => FlushBase(why, size) + 1 + 3 * pending
    case FlushReset(why) => FlushBase(why, size) + 2
    case FlushResetEnd(why) => FlushBase(why, size) + 1
    case AfterFlush(why, _) => FlushBase(why, size)
    case Bypass => 1
    case RefillPos => 9 + 7 * size
    case RefillEnd => 8 + 7 * size
    case Copy(_, i, _) => 7 + 3 * (pending + size) + if i < size then size - i else 0
    case Publish => 6 + 3 * (pending + size)
    case NewlineTest => 5 + 3 * pending
    case _ => 0
  }

  function FlushBase(why: Why, size: nat): nat { if why.ForRoom? then 10 + 7 * size else 1 }

  /** Every step inside the lock comes closer to leaving it: neither the flush loop nor the copy loop spins. */
  lemma StepsDown(c: Crit, call: Call, r: Reply)
    requires c.sh.Ordered() && PcOk(c, call) && c.pc.Inside() && !c.pc.Leaving?
    requires CritStep(c, call, r).sh.Ordered()
    ensures Steps(CritStep(c, call, r), call) < Steps(c, call)
  {
    if c.pc.Start? || c.pc.AfterFlush? || c.pc.Bypass? || c.pc.RefillPos? || c.pc.RefillEnd? {
      BranchDown(c, call, r);
    } else if c.pc.Copy? || c.pc.Publish? || c.pc.NewlineTest? {
      AppendDown(c, call, r);
    } else {
      FlushDown(c, call, r);
    }
  }

  lemma BranchDown(c: Crit, call: Call, r: Reply)
    requires c.sh.Ordered() && PcOk(c, call) && CritStep(c, call, r).sh.Ordered()
    requires c.pc.Start? || c.pc.AfterFlush? || c.pc.Bypass? || c.pc.RefillPos? || c.pc.RefillEnd?
    ensures Steps(CritStep(c, call, r), call) < Steps(c, call)
  {
    hide Outcome;
  }

  lemma AppendDown(c: Crit, call: Call, r: Reply)
    requires c.sh.Ordered() && PcOk(c, call) && CritStep(c, call, r).sh.Ordered()
    requires c.pc.Copy? || c.pc.Publish? || c.pc.NewlineTest?
    ensures Steps(CritStep(c, call, r), call) < Steps(c, call)
  {
    CopyInBuffer(c, call);
    hide PcOk;
  }

  lemma FlushDown(c: Crit, call: Call, r: Reply)
    requires c.sh.Ordered() && PcOk(c, call) && CritStep(c, call, r).sh.Ordered()
    requires c.pc.FlushTest? || c.pc.FlushWrite? || c.pc.FlushAdvance? || c.pc.FlushReset? || c.pc.FlushResetEnd?
    ensures Steps(CritStep(c, call, r), call) < Steps(c, call)
  {
    hide Outcome, TakenBy, Asked;
  }

  /** Thread `t` running alone. */
  function Alone(s: State, t: nat, rs: seq<Reply>): State
    decreases |rs|
  {
    if rs == [] then s else Alone(Do(s, Run(t, rs[0])), t, rs[1..])
  }

  /** Whatever the descriptor answers, a thread inside that runs alone has left after a bounded number of steps. */
  lemma {:induction false} HolderLeaves(s: State, t: nat, rs: seq<Reply>) returns (k: nat)
    requires Inv(s) && Holds(s, t) && s.sh.Ordered()
    requires |rs| > Steps(s.log[|s.log| - 1].Seen(s.sh, s.Get(t).pc), s.log[|s.log| - 1].call)
    ensures k <= |rs| && var u := Alone(s, t, rs[..k]);
      Inv(u) && u.lock == 0 && u.Get(t).pc.Idle? && |u.log| == |s.log|
    decreases |rs|
  {
    hide CritStep, CallsOf, Taken, CritOk, Steps;
    assert ThreadOk(s, t);
    var a := Run(t, rs[0]);
    var n := |s.log| - 1;
    var u := Do(s, a);
    StepKeepsInv(s, a);
    if s.Get(t).pc.Leaving? {
      k := 1;
      assert rs[..1][1..] == [] && rs[..1][0] == rs[0];
      assert Alone(s, t, rs[..1]) == Alone(u, t, rs[..1][1..]) == u;
    } else {
      var c := s.log[n].Seen(s.sh, s.Get(t).pc);
      assert CritOk(c, s.log[n].call, Taken(s.log[..n]));
      HolderSteps(c, s.log[n].call, Taken(s.log[..n]), rs[0]);
      StaysInside(c, s.log[n].call, rs[0], Taken(s.log[..n]));
      assert u.log[n].call == s.log[n].call && u.log[n].tid == t;
      assert u.log[n].Seen(u.sh, u.Get(t).pc) == CritStep(c, s.log[n].call, rs[0]);
      k := HolderLeaves(u, t, rs[1..]);
      k := k + 1;
      assert rs[..k][1..] == rs[1..][..k - 1] && rs[..k][0] == rs[0];
    }
  }

  lemma HolderSteps(c: Crit, call: Call, before: seq<Byte>, r: Reply)
    requires CritOk(c, call, before) && c.pc.Inside() && !c.pc.Leaving?
    ensures c.pc.Copy? && call.Write? && c.pc.i < |call.data| ==> c.pc.at + c.pc.i < |c.sh.buf|
    ensures CritStep(c, call, r).sh.Ordered() && Steps(CritStep(c, call, r), call) < Steps(c, call)
  {
    hide Steps, CritStep;
    CopyInBuffer(c, call);
    CritKeeps(c, call, before, r);
    StepsDown(c, call, r);
  }

  /** A call that finds the lock free and runs alone acquires it at once, and is over after a bounded number of
      steps. */
  lemma CompletesAlone(s: State, t: nat, rs: seq<Reply>) returns (k: nat)
    requires Inv(s) && s.lock == 0 && s.Get(t).pc.Spinning? && s.Get(t).calls != [] && s.sh.Ordered()
    requires var calls := s.Get(t).calls;
      |rs| > 1 + Steps(Crit(s.sh, Start, [], false), calls[|calls| - 1])
    ensures k <= |rs| && var u := Alone(s, t, rs[..k]);
      Inv(u) && u.lock == 0 && u.Get(t).pc.Idle? && |u.log| == |s.log| + 1
  {
    hide CritStep, CallsOf, Taken, CritOk, Steps;
    var u := Do(s, Run(t, rs[0]));
    StepKeepsInv(s, Run(t, rs[0]));
    k := HolderLeaves(u, t, rs[1..]);
    k := k + 1;
    assert rs[..k][1..] == rs[1..][..k - 1] && rs[..k][0] == rs[0];
  }
}
