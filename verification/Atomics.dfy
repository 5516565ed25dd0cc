/** The atomic read-modify-write operations of src/ministd_atomic.c as interleaved steps of any number of threads.
    A load, an `xchg`, a `lock xadd` and a `lock cmpxchg` are one step each; the fetch_or/xor/and/min/max calls are
    the retry loop around a compare-exchange. */
module Atomics {
  import opened Numerals

  datatype Op = Or | Xor | And | MinOf | MaxOf | Swap | Add | Sub {
    /** Whether the operation is a single instruction rather than a retry loop. */
    predicate Single() { Swap? || Add? || Sub? }
  }

  datatype Call<T> = Call(op: Op, val: T)

  /** Where a thread is: between calls, before its first load, in the loop with the value `old` that was current
      after `seen` updates, or about to return. `id` is the position of the invocation in the history. */
  datatype Pc<T> =
    | Idle
    | Invoked(call: Call<T>, id: nat)
    | Looping(call: Call<T>, id: nat, old_: T, seen: nat)
    | Done(id: nat, ret: T)

  /** An update of the cell that took effect: whose call it was, and the value the call returns. */
  datatype Entry<T> = Entry(tid: nat, id: nat, call: Call<T>, ret: T)

  datatype Event<T> = Inv(tid: nat, call: Call<T>) | Res(tid: nat, id: nat, ret: T)

  /** The shared cell and the threads; `lin` lists the updates in the order they took effect, `hist` the invocations
      and returns in the order they happened. */
  datatype State<T> = State(cell: T, threads: map<nat, Pc<T>>, lin: seq<Entry<T>>, hist: seq<Event<T>>) {
    function Get(t: nat): Pc<T> { if t in threads then threads[t] else Idle }
  }

  datatype Action<T> = Invoke(t: nat, call: Call<T>) | Run(t: nat)

  /** One step of a thread: it invokes a call when idle, or takes the next step of the call it is in. */
  function Do<T(==)>(f: (Op, T, T) -> T, s: State<T>, a: Action<T>): State<T>
  {
    match a
    case Invoke(t, call) =>
      if s.Get(t).Idle? then
        s.(threads := s.threads[t := Invoked(call, |s.hist|)], hist := s.hist + [Inv(t, call)])
      else s
    case Run(t) =>
      match s.Get(t)
      case Idle => s
      case Invoked(call, id) =>
        if call.op.Single() then Update(f, s, t, id, call)
        else s.(threads := s.threads[t := Looping(call, id, s.cell, |s.lin|)])
      case Looping(call, id, old_, seen) =>
        if s.cell == old_ then Update(f, s, t, id, call)
        else s.(threads := s.threads[t := Looping(call, id, s.cell, |s.lin|)])
      case Done(id, ret) =>
        s.(threads := s.threads[t := Idle], hist := s.hist + [Res(t, id, ret)])
  }

  /** The atomic update itself. */
  function Update<T>(f: (Op, T, T) -> T, s: State<T>, t: nat, id: nat, call: Call<T>): State<T>
  {
    State(f(call.op, s.cell, call.val), s.threads[t := Done(id, s.cell)],
          s.lin + [Entry(t, id, call, s.cell)], s.hist)
  }

  function Execute<T(==)>(f: (Op, T, T) -> T, s: State<T>, run: seq<Action<T>>): State<T>
  {
    if run == [] then s else Do(f, Execute(f, s, run[..|run| - 1]), run[|run| - 1])
  }

  function Init<T>(c: T): State<T> { State(c, map[], [], []) }

  /** The cell after the updates `lin`, one after another. */
  function Fold<T>(f: (Op, T, T) -> T, c: T, lin: seq<Entry<T>>): T
  {
    if lin == [] then c
    else var e := lin[|lin| - 1]; f(e.call.op, Fold(f, c, lin[..|lin| - 1]), e.call.val)
  }

  // ------------------------------------------------------------------ the invariant

  /** Every update saw, and returns, the value that the earlier updates leave. */
  ghost predicate Sequential<T(!new)>(f: (Op, T, T) -> T, c: T, lin: seq<Entry<T>>)
  {
    forall i :: 0 <= i < |lin| ==> lin[i].ret == Fold(f, c, lin[..i])
  }

  /** Every update belongs to an invocation, and to one only. */
  ghost predicate Invocations<T(!new)>(lin: seq<Entry<T>>, hist: seq<Event<T>>)
  {
    (forall i :: 0 <= i < |lin| ==>
       lin[i].id < |hist| && hist[lin[i].id] == Inv(lin[i].tid, lin[i].call)) &&
    (forall i, j :: 0 <= i < j < |lin| ==> lin[i].id != lin[j].id)
  }

  ghost predicate HasEntry<T(!new)>(lin: seq<Entry<T>>, t: nat, id: nat, ret: T)
  {
    exists i :: 0 <= i < |lin| && lin[i].tid == t && lin[i].id == id && lin[i].ret == ret
  }

  /** Every return is preceded by the invocation's one update, and returns what that update saw. */
  ghost predicate Returns<T(!new)>(lin: seq<Entry<T>>, hist: seq<Event<T>>)
  {
    forall p :: 0 <= p < |hist| && hist[p].Res? ==>
      hist[p].id < p && HasEntry(lin, hist[p].tid, hist[p].id, hist[p].ret)
  }

  /** The updates are in an order consistent with real time: a call that returned before another was invoked
      took effect before it. */
  ghost predicate RealTime<T(!new)>(lin: seq<Entry<T>>, hist: seq<Event<T>>)
  {
    forall i, j, p :: 0 <= i < j < |lin| && 0 <= p < |hist| && hist[p].Res? && hist[p].id == lin[j].id ==> lin[i].id < p
  }

  ghost predicate ThreadOk<T(!new)>(f: (Op, T, T) -> T, c: T, s: State<T>, t: nat)
  {
    match s.Get(t)
    case Idle => true
    case Invoked(call, id) => Pending(s, t, call, id)
    case Looping(call, id, old_, seen) =>
      Pending(s, t, call, id) && seen <= |s.lin| && old_ == Fold(f, c, s.lin[..seen]) &&
      forall k :: seen <= k < |s.lin| ==> s.lin[k].tid != t
    case Done(id, ret) => HasEntry(s.lin, t, id, ret) && id < |s.hist|
  }

  /** A call that was invoked and has not taken effect. */
  ghost predicate Pending<T(!new)>(s: State<T>, t: nat, call: Call<T>, id: nat)
  {
    id < |s.hist| && s.hist[id] == Inv(t, call) && forall i :: 0 <= i < |s.lin| ==> s.lin[i].id != id
  }

  ghost predicate Inv1<T(!new)>(f: (Op, T, T) -> T, c: T, s: State<T>)
  {
    s.cell == Fold(f, c, s.lin) && Sequential(f, c, s.lin) && Invocations(s.lin, s.hist) &&
    Returns(s.lin, s.hist) && RealTime(s.lin, s.hist) && forall t :: t in s.threads ==> ThreadOk(f, c, s, t)
  }

  /** One more update at the end of the order. */
  lemma {:induction false} LinGrows<T(!new)>(f: (Op, T, T) -> T, c: T,
                                             lin: seq<Entry<T>>, hist: seq<Event<T>>, e: Entry<T>)
    requires Sequential(f, c, lin) && Invocations(lin, hist) && Returns(lin, hist) && RealTime(lin, hist)
    requires e.id < |hist| && hist[e.id] == Inv(e.tid, e.call) && e.ret == Fold(f, c, lin)
    requires forall i :: 0 <= i < |lin| ==> lin[i].id != e.id
    ensures Sequential(f, c, lin + [e]) && Invocations(lin + [e], hist)
    ensures Returns(lin + [e], hist) && RealTime(lin + [e], hist)
  {
    SequentialGrows(f, c, lin, e);
    hide Fold, Sequential;
    var lin' := lin + [e];
    forall p | 0 <= p < |hist| && hist[p].Res?
      ensures hist[p].id < p && hist[p].id != e.id && HasEntry(lin', hist[p].tid, hist[p].id, hist[p].ret)
    {
      assert HasEntry(lin, hist[p].tid, hist[p].id, hist[p].ret);
      EntryKept(lin, lin', hist[p].tid, hist[p].id, hist[p].ret);
    }
    RealTimeGrows(lin, hist, e);
  }

  lemma {:induction false} SequentialGrows<T(!new)>(f: (Op, T, T) -> T, c: T, lin: seq<Entry<T>>, e: Entry<T>)
    requires Sequential(f, c, lin) && e.ret == Fold(f, c, lin)
    ensures Sequential(f, c, lin + [e])
  {
    hide Fold;
    var lin' := lin + [e];
    forall i | 0 <= i < |lin'| ensures lin'[i].ret == Fold(f, c, lin'[..i]) {
      assert lin'[..i] == lin[..i];
      if i == |lin| { assert lin[..i] == lin; }
    }
  }

  lemma {:induction false} RealTimeGrows<T(!new)>(lin: seq<Entry<T>>, hist: seq<Event<T>>, e: Entry<T>)
    requires RealTime(lin, hist) && forall p :: 0 <= p < |hist| && hist[p].Res? ==> hist[p].id != e.id
    ensures RealTime(lin + [e], hist)
  {
  }

  /** One more event in the history. */
  lemma {:induction false} HistGrows<T(!new)>(lin: seq<Entry<T>>, hist: seq<Event<T>>, e: Event<T>)
    requires Invocations(lin, hist) && Returns(lin, hist) && RealTime(lin, hist)
    requires e.Res? ==> e.id < |hist| && HasEntry(lin, e.tid, e.id, e.ret)
    ensures Invocations(lin, hist + [e]) && Returns(lin, hist + [e]) && RealTime(lin, hist + [e])
  {
  }

  lemma {:induction false} EntryKept<T(!new)>(lin: seq<Entry<T>>, longer: seq<Entry<T>>, u: nat, k: nat, ret: T)
    requires lin <= longer && HasEntry(lin, u, k, ret)
    ensures HasEntry(longer, u, k, ret)
  {
    var i :| 0 <= i < |lin| && lin[i].tid == u && lin[i].id == k && lin[i].ret == ret;
    assert longer[i] == lin[i];
  }

  /** A thread that does not move stays as it is while others add updates and events. */
  lemma {:induction false} BystanderOk<T(!new)>(f: (Op, T, T) -> T, c: T, s: State<T>, s': State<T>, u: nat, mover: nat)
    requires ThreadOk(f, c, s, u) && s'.Get(u) == s.Get(u) && u != mover
    requires s.hist <= s'.hist && s.lin <= s'.lin
    requires forall k :: |s.lin| <= k < |s'.lin| ==> s'.lin[k].tid == mover && Owner(s, s'.lin[k].id, mover)
    ensures ThreadOk(f, c, s', u)
  {
    hide Fold;
    match s.Get(u)
    case Idle =>
    case Invoked(call, id) => assert Owner(s, id, u);
    case Looping(call, id, old_, seen) =>
      assert Owner(s, id, u);
      assert s'.lin[..seen] == s.lin[..seen];
    case Done(id, ret) => EntryKept(s.lin, s'.lin, u, id, ret);
  }

  ghost predicate Owner<T(!new)>(s: State<T>, id: nat, t: nat)
  {
    id < |s.hist| && s.hist[id].Inv? && s.hist[id].tid == t
  }

  lemma {:induction false} UpdateKeepsInv<T(!new)>(f: (Op, T, T) -> T, c: T,
                                                   s: State<T>, t: nat, id: nat, call: Call<T>)
    requires Inv1(f, c, s) && Pending(s, t, call, id) && t in s.threads
    ensures Inv1(f, c, Update(f, s, t, id, call))
  {
    hide Fold, Sequential, Invocations, Returns, RealTime;
    var s', e := Update(f, s, t, id, call), Entry(t, id, call, s.cell);
    LinGrows(f, c, s.lin, s.hist, e);
    CellIsFold(f, c, s, t, id, call);
    forall u | u in s'.threads ensures ThreadOk(f, c, s', u) {
      if u != t { BystanderOk(f, c, s, s', u, t); } else { assert s'.lin[|s.lin|] == e; }
    }
  }

  lemma {:induction false} CellIsFold<T(!new)>(f: (Op, T, T) -> T, c: T, s: State<T>, t: nat, id: nat, call: Call<T>)
    requires s.cell == Fold(f, c, s.lin)
    ensures var s' := Update(f, s, t, id, call); s'.cell == Fold(f, c, s'.lin)
  {
    assert (s.lin + [Entry(t, id, call, s.cell)])[..|s.lin|] == s.lin;
  }

  lemma {:induction false} StepKeepsInv<T(!new)>(f: (Op, T, T) -> T, c: T, s: State<T>, a: Action<T>)
    requires Inv1(f, c, s)
    ensures Inv1(f, c, Do(f, s, a))
  {
    hide Sequential, Invocations, Returns, RealTime, Fold;
    var s' := Do(f, s, a);
    var pc := s.Get(a.t);
    if a.Run? && pc != Idle { assert a.t in s.threads && ThreadOk(f, c, s, a.t); }
    if a.Run? && (if pc.Invoked? then pc.call.op.Single() else pc.Looping? && s.cell == pc.old_) {
      UpdateKeepsInv(f, c, s, a.t, pc.id, pc.call);
    } else {
      assert s.lin[..|s.lin|] == s.lin;
      if s'.hist != s.hist { HistGrows(s.lin, s.hist, s'.hist[|s.hist|]); }
      LinIdsBelow(s);
      forall u | u in s'.threads ensures ThreadOk(f, c, s', u) {
        if u != a.t && u in s.threads { BystanderOk(f, c, s, s', u, a.t); }
      }
    }
  }

  lemma {:induction false} LinIdsBelow<T(!new)>(s: State<T>)
    requires Invocations(s.lin, s.hist)
    ensures forall i :: 0 <= i < |s.lin| ==> s.lin[i].id < |s.hist|
  {
  }

  // ------------------------------------------------------------------ results

  /** Linearizability, for every interleaving of any number of threads: the updates that took effect form a
      sequential run that ends in the cell's value; every completed call is one of them and returned the value just
      before it; and their order respects the order in which non-overlapping calls happened. */
  lemma {:induction false} Linearizable<T(!new)>(f: (Op, T, T) -> T, c: T, run: seq<Action<T>>)
    ensures var s := Execute(f, Init(c), run);
      s.cell == Fold(f, c, s.lin) && Sequential(f, c, s.lin) && Invocations(s.lin, s.hist) &&
      Returns(s.lin, s.hist) && RealTime(s.lin, s.hist)
  {
    Reachable(f, c, run);
  }

  lemma {:induction false} Reachable<T(!new)>(f: (Op, T, T) -> T, c: T, run: seq<Action<T>>)
    ensures Inv1(f, c, Execute(f, Init(c), run))
    decreases |run|
  {
    if run != [] {
      Reachable(f, c, run[..|run| - 1]);
      StepKeepsInv(f, c, Execute(f, Init(c), run[..|run| - 1]), run[|run| - 1]);
    }
  }

  /** A compare-exchange fails only if, since its expected value was read, another thread's update took effect and
      changed the value. */
  lemma {:induction false} FailedCasWasInterfered<T(!new)>(f: (Op, T, T) -> T, c: T, run: seq<Action<T>>, t: nat)
    returns (k: nat)
    requires var s := Execute(f, Init(c), run);
      s.Get(t).Looping? && s.cell != s.Get(t).old_
    ensures var s := Execute(f, Init(c), run);
      s.Get(t).seen <= k < |s.lin| && s.lin[k].tid != t && Fold(f, c, s.lin[..k + 1]) != s.lin[k].ret
  {
    Reachable(f, c, run);
    var s := Execute(f, Init(c), run);
    assert ThreadOk(f, c, s, t);
    assert s.lin[..|s.lin|] == s.lin;
    k := FirstChange(f, c, s.lin, s.Get(t).seen);
    assert s.lin[k].ret == Fold(f, c, s.lin[..k]);
  }

  lemma {:induction false} FirstChange<T(!new)>(f: (Op, T, T) -> T, c: T, lin: seq<Entry<T>>, from: nat)
    returns (k: nat)
    requires from <= |lin| && Fold(f, c, lin[..from]) != Fold(f, c, lin[..|lin|])
    ensures from <= k < |lin| && Fold(f, c, lin[..k + 1]) != Fold(f, c, lin[..k])
    decreases |lin| - from
  {
    k := from;
    if Fold(f, c, lin[..k + 1]) == Fold(f, c, lin[..k]) {
      k := FirstChange(f, c, lin, from + 1);
    }
  }

  /** `n` steps of thread `t` and of no other. */
  function Repeat<T>(t: nat, n: nat): seq<Action<T>>
  {
    if n == 0 then [] else Repeat(t, n - 1) + [Run(t)]
  }

  lemma {:induction false} RepeatOnce<T(!new)>(f: (Op, T, T) -> T, s: State<T>, t: nat, n: nat)
    ensures Execute(f, s, Repeat(t, n + 1)) == Do(f, Execute(f, s, Repeat(t, n)), Run(t))
  {
    assert Repeat<T>(t, n + 1)[..|Repeat<T>(t, n + 1)| - 1] == Repeat<T>(t, n);
  }

  /** The state after the call `call` with id `id` of thread `t` ran from start to end in state `s`. */
  ghost predicate Completed<T(!new)>(f: (Op, T, T) -> T, s: State<T>, s': State<T>, t: nat, call: Call<T>, id: nat)
  {
    s'.cell == f(call.op, s.cell, call.val) && s'.lin == s.lin + [Entry(t, id, call, s.cell)] &&
    s'.hist == s.hist + [Res(t, id, s.cell)] && s'.Get(t) == Idle && forall u :: u != t ==> s'.Get(u) == s.Get(u)
  }

  /** Progress: a thread that runs alone, from wherever in the call it is, applies its update once, to the value that
      is in the cell then, and has returned that value after at most three steps. */
  lemma {:induction false} CompletesAlone<T(!new)>(f: (Op, T, T) -> T, s: State<T>, t: nat) returns (n: nat)
    requires s.Get(t).Invoked? || s.Get(t).Looping?
    ensures 2 <= n <= 3 && Completed(f, s, Execute(f, s, Repeat(t, n)), t, s.Get(t).call, s.Get(t).id)
  {
    var pc := s.Get(t);
    RepeatOnce(f, s, t, 0);
    RepeatOnce(f, s, t, 1);
    var s1 := Do(f, s, Run(t));
    hide Execute, Repeat;
    if (pc.Invoked? && pc.call.op.Single()) || (pc.Looping? && s.cell == pc.old_) {
      n := 2;
    } else {
      n := 3;
      RepeatOnce(f, s, t, 2);
      assert s1 == s.(threads := s.threads[t := Looping(pc.call, pc.id, s.cell, |s.lin|)]);
    }
  }

  /** Updates by one commuting operation may be reordered at will. */
  ghost predicate Commutes<T(!new)>(g: (T, T) -> T)
  {
    forall c, x, y :: g(g(c, x), y) == g(g(c, y), x)
  }

  function FoldVals<T>(g: (T, T) -> T, c: T, vals: seq<T>): T
  {
    if vals == [] then c else g(FoldVals(g, c, vals[..|vals| - 1]), vals[|vals| - 1])
  }

  /** The last operand can be brought to any earlier place. */
  lemma {:induction false} MoveToEnd<T(!new)>(g: (T, T) -> T, c: T, vals: seq<T>, i: nat)
    requires Commutes(g) && i < |vals|
    ensures FoldVals(g, c, vals) == g(FoldVals(g, c, vals[..i] + vals[i + 1..]), vals[i])
    decreases |vals|
  {
    var init, last := vals[..|vals| - 1], vals[|vals| - 1];
    if i == |vals| - 1 {
      assert vals[..i] + vals[i + 1..] == init;
    } else {
      MoveToEnd(g, c, init, i);
      var shorter := init[..i] + init[i + 1..];
      assert vals[..i] + vals[i + 1..] == shorter + [last];
      assert (shorter + [last])[..|shorter|] == shorter;
      var d := FoldVals(g, c, shorter);
      assert g(g(d, vals[i]), last) == g(g(d, last), vals[i]);
    }
  }

  /** So the final value does not depend on the schedule: only on which operands were applied. */
  lemma {:induction false} OrderIrrelevant<T(!new)>(g: (T, T) -> T, c: T, xs: seq<T>, ys: seq<T>)
    requires Commutes(g) && multiset(xs) == multiset(ys)
    ensures FoldVals(g, c, xs) == FoldVals(g, c, ys)
    decreases |xs|
  {
    assert |xs| == |multiset(xs)| == |multiset(ys)| == |ys|;
    if xs != [] {
      var init, last := xs[..|xs| - 1], xs[|xs| - 1];
      assert xs == init + [last];
      assert last in multiset(ys);
      var i :| 0 <= i < |ys| && ys[i] == last;
      WithoutOne(ys, i);
      MoveToEnd(g, c, ys, i);
      assert multiset(init) == multiset(xs) - multiset{last};
      OrderIrrelevant(g, c, init, ys[..i] + ys[i + 1..]);
    }
  }

  lemma {:induction false} WithoutOne<T>(ys: seq<T>, i: nat)
    requires i < |ys|
    ensures multiset(ys[..i] + ys[i + 1..]) == multiset(ys) - multiset{ys[i]}
  {
    assert ys == (ys[..i] + [ys[i]]) + ys[i + 1..];
  }

  /** The operands of a run that uses one operation only. */
  function Operands<T>(lin: seq<Entry<T>>): seq<T>
  {
    if lin == [] then [] else Operands(lin[..|lin| - 1]) + [lin[|lin| - 1].call.val]
  }

  ghost predicate OnlyOp<T(!new)>(op: Op, lin: seq<Entry<T>>)
  {
    forall i :: 0 <= i < |lin| ==> lin[i].call.op == op
  }

  lemma {:induction false} FoldOfOneOp<T(!new)>(f: (Op, T, T) -> T, op: Op, c: T, lin: seq<Entry<T>>)
    requires OnlyOp(op, lin)
    ensures Fold(f, c, lin) == FoldVals((a, b) => f(op, a, b), c, Operands(lin))
    decreases |lin|
  {
    if lin != [] {
      FoldOfOneOp(f, op, c, lin[..|lin| - 1]);
      assert Operands(lin)[..|Operands(lin)| - 1] == Operands(lin[..|lin| - 1]);
    }
  }

  ghost predicate CommutesWithItself<T(!new)>(f: (Op, T, T) -> T, op: Op)
  {
    forall d, x, y :: f(op, f(op, d, x), y) == f(op, f(op, d, y), x)
  }

  /** Two runs in which the same operands were applied by one commuting operation, in whatever interleaving, leave the
      same value in the cell. */
  lemma {:induction false} ScheduleIndependent<T(!new)>(f: (Op, T, T) -> T, op: Op, c: T,
                                                        run1: seq<Action<T>>, run2: seq<Action<T>>)
    requires CommutesWithItself(f, op)
    requires var s1, s2 := Execute(f, Init(c), run1), Execute(f, Init(c), run2);
      OnlyOp(op, s1.lin) && OnlyOp(op, s2.lin) && multiset(Operands(s1.lin)) == multiset(Operands(s2.lin))
    ensures Execute(f, Init(c), run1).cell == Execute(f, Init(c), run2).cell
  {
    var s1, s2 := Execute(f, Init(c), run1), Execute(f, Init(c), run2);
    Reachable(f, c, run1);
    Reachable(f, c, run2);
    FoldOfOneOp(f, op, c, s1.lin);
    FoldOfOneOp(f, op, c, s2.lin);
    var g := (a, b) => f(op, a, b);
    forall d, x, y ensures g(g(d, x), y) == g(g(d, y), x) {
      assert f(op, f(op, d, x), y) == f(op, f(op, d, y), x);
    }
    OrderIrrelevant(g, c, Operands(s1.lin), Operands(s2.lin));
  }

  // ------------------------------------------------------------------ the operations on words of any width

  /** A cell of `width` bits, signed or not; its content is known by its residue. */
  datatype Cell = Cell(signed: bool, width: nat) {
    function Modulus(): nat { Pow(2, width) }

    /** The content as a bit pattern. */
    function Bits(a: int): (r: nat)
      ensures r < Modulus()
    {
      PowPositive(2, width);
      a % Modulus()
    }

    /** The number it stands for in the cell's type. */
    function Number(a: int): int
    {
      if signed && 2 * Bits(a) >= Modulus() then Bits(a) - Modulus() else Bits(a)
    }

    function Lesser(a: int, b: int): int { if Number(a) < Number(b) then Bits(a) else Bits(b) }

    function Greater(a: int, b: int): int { if Number(a) > Number(b) then Bits(a) else Bits(b) }

    function Apply(op: Op, a: int, b: int): int
    {
      match op
      case Or => Bitwise(EitherBit, width, a, b)
      case Xor => Bitwise(OneBit, width, a, b)
      case And => Bitwise(BothBits, width, a, b)
      case MinOf => Lesser(a, b)
      case MaxOf => Greater(a, b)
      case Swap => Bits(b)
      case Add => Bits(a + b)
      case Sub => Bits(a - b)
    }
  }

  predicate EitherBit(p: bool, q: bool) { p || q }
  predicate OneBit(p: bool, q: bool) { p != q }
  predicate BothBits(p: bool, q: bool) { p && q }

  predicate Odd(a: int) { a % 2 == 1 }

  /** The low `width` bits of `a` and `b`, combined one by one. */
  function Bitwise(g: (bool, bool) -> bool, width: nat, a: int, b: int): (r: nat)
  {
    if width == 0 then 0
    else 2 * Bitwise(g, width - 1, a / 2, b / 2) + if g(Odd(a), Odd(b)) then 1 else 0
  }

  predicate Bit(a: int, i: nat)
    decreases i
  {
    if i == 0 then Odd(a) else Bit(a / 2, i - 1)
  }

  /** Each bit of the result comes from the two bits in its place. */
  lemma {:induction false} BitOfBitwise(g: (bool, bool) -> bool, width: nat, a: int, b: int, i: nat)
    requires i < width
    ensures Bit(Bitwise(g, width, a, b), i) == g(Bit(a, i), Bit(b, i))
    decreases i
  {
    HalfBitwise(g, width, a, b);
    if i > 0 { BitOfBitwise(g, width - 1, a / 2, b / 2, i - 1); }
  }

  /** Which bits an operation sets: those set in either operand, in one of them, in both. */
  lemma ApplyCombinesBits(k: Cell, a: int, b: int, i: nat)
    requires i < k.width
    ensures Bit(k.Apply(Or, a, b), i) == (Bit(a, i) || Bit(b, i))
    ensures Bit(k.Apply(Xor, a, b), i) == (Bit(a, i) != Bit(b, i))
    ensures Bit(k.Apply(And, a, b), i) == (Bit(a, i) && Bit(b, i))
  {
    BitOfBitwise(EitherBit, k.width, a, b, i);
    BitOfBitwise(OneBit, k.width, a, b, i);
    BitOfBitwise(BothBits, k.width, a, b, i);
  }

  /** A bit is a binary digit. */
  lemma {:induction false} BitIsDigit(a: nat, i: nat)
    ensures Pow(2, i) > 0 && (Bit(a, i) <==> a / Pow(2, i) % 2 == 1)
    decreases i
  {
    PowPositive(2, i);
    if i > 0 {
      BitIsDigit(a / 2, i - 1);
      PowPositive(2, i - 1);
      HalveThenDivide(a, Pow(2, i - 1));
    }
  }

  lemma HalveThenDivide(a: nat, c: nat)
    requires c > 0
    ensures a / 2 / c == a / (2 * c)
  {
    var q, u, v := a / 2 / c, a / 2 % c, a % 2;
    assert a == 2 * (c * q + u) + v;
    assert q * (2 * c) == 2 * (c * q);
    DivModUnique(a, 2 * c, q, 2 * u + v);
  }

  /** What a word stands for: the one number of the cell's type that is congruent to it. */
  lemma NumberInRange(k: Cell, a: int)
    ensures k.signed ==> 0 <= 2 * k.Number(a) + k.Modulus() < 2 * k.Modulus()
    ensures !k.signed ==> 0 <= k.Number(a) < k.Modulus()
    ensures k.Bits(k.Number(a)) == k.Bits(a)
  {
    hide Pow;
    PowPositive(2, k.width);
    var x, m := k.Bits(a), k.Modulus();
    SmallResidue(x, m);
    if k.Number(a) != x {
      ModShift(k.Number(a), m, 1);
      assert k.Number(a) + m == x;
    }
  }

  /** What the other operations leave, as numbers of the cell's type: the lesser, the greater, the new one, and the sum
      and the difference up to multiples of the modulus. */
  lemma ApplyNumbers(k: Cell, a: int, b: int)
    ensures k.Number(k.Apply(MinOf, a, b)) == if k.Number(a) <= k.Number(b) then k.Number(a) else k.Number(b)
    ensures k.Number(k.Apply(MaxOf, a, b)) == if k.Number(a) >= k.Number(b) then k.Number(a) else k.Number(b)
    ensures k.Number(k.Apply(Swap, a, b)) == k.Number(b)
    ensures k.Modulus() > 0 && k.Apply(Add, a, b) % k.Modulus() == (a + b) % k.Modulus()
    ensures k.Apply(Sub, a, b) % k.Modulus() == (a - b) % k.Modulus()
  {
    PowPositive(2, k.width);
    BitsOnly(k, a, b);
    BitsOnly(k, b, a);
    BitsOnly(k, a + b, a - b);
    BitsOnly(k, a - b, a + b);
    hide Cell.Number;
  }

  lemma HalfBitwise(g: (bool, bool) -> bool, width: nat, a: int, b: int)
    requires width > 0
    ensures var r := Bitwise(g, width, a, b);
      r / 2 == Bitwise(g, width - 1, a / 2, b / 2) && Odd(r) == g(Odd(a), Odd(b))
  {
    DoubleBit(Bitwise(g, width - 1, a / 2, b / 2), g(Odd(a), Odd(b)));
  }

  lemma DoubleBit(h: nat, bit: bool)
    ensures var r := 2 * h + if bit then 1 else 0; r / 2 == h && Odd(r) == bit
  {
  }

  lemma BitwiseStep(g: (bool, bool) -> bool, width: nat, a: int, b: int)
    ensures Bitwise(g, width, a, b) ==
      if width == 0 then 0 else 2 * Bitwise(g, width - 1, a / 2, b / 2) + if g(Odd(a), Odd(b)) then 1 else 0
  {
  }

  lemma {:induction false} BitwiseCommutes(g: (bool, bool) -> bool, width: nat, c: int, x: int, y: int)
    requires Commutes(g)
    ensures Bitwise(g, width, Bitwise(g, width, c, x), y) == Bitwise(g, width, Bitwise(g, width, c, y), x)
  {
    hide Bitwise;
    BitwiseStep(g, width, Bitwise(g, width, c, x), y);
    BitwiseStep(g, width, Bitwise(g, width, c, y), x);
    if width > 0 {
      HalfBitwise(g, width, c, x);
      HalfBitwise(g, width, c, y);
      BitwiseCommutes(g, width - 1, c / 2, x / 2, y / 2);
      assert g(g(Odd(c), Odd(x)), Odd(y)) == g(g(Odd(c), Odd(y)), Odd(x));
    }
  }

  lemma BitsOnly(k: Cell, a: int, b: int)
    ensures k.Bits(k.Bits(a)) == k.Bits(a) && k.Number(k.Bits(a)) == k.Number(a)
    ensures k.Number(a) == k.Number(b) ==> k.Bits(a) == k.Bits(b)
  {
    hide Pow;
    SmallResidue(k.Bits(a), k.Modulus());
  }

  lemma SmallResidue(x: int, m: nat)
    requires 0 <= x < m
    ensures x % m == x
  {
  }

  lemma ExtremesCommute(k: Cell, c: int, x: int, y: int)
    ensures k.Lesser(k.Lesser(c, x), y) == k.Lesser(k.Lesser(c, y), x)
    ensures k.Greater(k.Greater(c, x), y) == k.Greater(k.Greater(c, y), x)
  {
    BitsOnly(k, c, x);
    BitsOnly(k, x, y);
    BitsOnly(k, y, c);
    hide Cell.Bits, Cell.Number;
  }

  lemma SumsCommute(k: Cell, c: int, x: int, y: int)
    ensures k.Bits(k.Bits(c + x) + y) == k.Bits(k.Bits(c + y) + x)
  {
    hide Cell.Bits;
    BitsOfSum(k, c + x, y);
    BitsOfSum(k, c + y, x);
    assert c + x + y == c + y + x;
  }

  lemma BitsOfSum(k: Cell, a: int, b: int)
    ensures k.Bits(k.Bits(a) + b) == k.Bits(a + b)
  {
    hide Pow;
    PowPositive(2, k.width);
    var m, q := k.Modulus(), a / k.Modulus();
    assert a == k.Bits(a) + m * q;
    ModShift(k.Bits(a) + b, m, q);
    assert (k.Bits(a) + b) + m * q == a + b;
  }

  /** Every operation but the swap commutes with itself, on signed and unsigned cells of any width; the swap does not,
      on any cell. */
  lemma OpsCommute(k: Cell, op: Op)
    requires k.width > 0
    ensures op != Swap <==> Commutes((a, b) => k.Apply(op, a, b))
  {
    var g := (a, b) => k.Apply(op, a, b);
    if op == Swap {
      PowPositive(2, k.width - 1);
      assert k.Modulus() > 1;
      SmallResidue(0, k.Modulus());
      SmallResidue(1, k.Modulus());
      assert g(g(0, 0), 1) != g(g(0, 1), 0);
    } else {
      forall c, x, y ensures g(g(c, x), y) == g(g(c, y), x) { OpCommutes(k, op, c, x, y); }
    }
  }

  lemma OpCommutes(k: Cell, op: Op, c: int, x: int, y: int)
    requires op != Swap
    ensures k.Apply(op, k.Apply(op, c, x), y) == k.Apply(op, k.Apply(op, c, y), x)
  {
    hide Cell.Lesser, Cell.Greater, Cell.Bits, Bitwise;
    match op
    case Or => BitwiseCommutes(EitherBit, k.width, c, x, y);
    case Xor => BitwiseCommutes(OneBit, k.width, c, x, y);
    case And => BitwiseCommutes(BothBits, k.width, c, x, y);
    case MinOf => ExtremesCommute(k, c, x, y);
    case MaxOf => ExtremesCommute(k, c, x, y);
    case Add => SumsCommute(k, c, x, y);
    case Sub => SumsCommute(k, c, -x, -y);
  }

  /** So on a cell of any type, runs in which the same operands were applied by one operation other than the swap leave
      the same value, whatever the interleavings. */
  lemma CellsScheduleIndependent(k: Cell, op: Op, c: int, run1: seq<Action<int>>, run2: seq<Action<int>>)
    requires op != Swap
    requires var f := (o, a, b) => k.Apply(o, a, b);
      var s1, s2 := Execute(f, Init(c), run1), Execute(f, Init(c), run2);
      OnlyOp(op, s1.lin) && OnlyOp(op, s2.lin) && multiset(Operands(s1.lin)) == multiset(Operands(s2.lin))
    ensures var f := (o, a, b) => k.Apply(o, a, b);
      Execute(f, Init(c), run1).cell == Execute(f, Init(c), run2).cell
  {
    hide Execute, Init, OnlyOp, Operands, Cell.Apply;
    var f := (o, a, b) => k.Apply(o, a, b);
    forall d, x, y ensures f(op, f(op, d, x), y) == f(op, f(op, d, y), x) { OpCommutes(k, op, d, x, y); }
    ScheduleIndependent(f, op, c, run1, run2);
  }
}
