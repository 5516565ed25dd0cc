/** The poll list of src/ministd_poll.c. A pointer into the array is modelled by its distance from `polls`. */
module PollList {
  import opened Prelude

  datatype PollFd = PollFd(fd: int, events: int, revents: int)

  datatype Ptr = Null | At(index: int)

  class List {
    var polls: array<PollFd>  // its length is `cap`
    var len: nat

    ghost predicate Valid() reads this { 0 < polls.Length && len <= polls.Length }

    ghost function Contents(): seq<PollFd>
      reads this, polls
      requires Valid()
    {
      polls[..len]
    }

    /** `poll_list_new`. */
    constructor ()
      ensures Valid() && fresh(polls) && Contents() == [] && polls.Length == 16
    {
      polls := new PollFd[16](_ => PollFd(0, 0, 0));
      len := 0;
    }

    /** `poll_list_add`: a full array is replaced by one of twice the size. */
    method Add(p: PollFd)
      requires Valid()
      modifies this, polls
      ensures Valid() && (polls == old(polls) || fresh(polls))
      ensures Contents() == old(Contents()) + [p]
      ensures polls.Length == if old(len) == old(polls.Length) then 2 * old(polls.Length) else old(polls.Length)
    {
      if len == polls.Length {
        var bigger := new PollFd[2 * polls.Length](
          i requires 0 <= i < 2 * polls.Length reads this, polls =>
            if i < polls.Length then polls[i] else PollFd(0, 0, 0));
        assert bigger[..len] == polls[..len];
        polls := bigger;
      }
      polls[len] := p;
      len := len + 1;
    }

    /** `poll_list_remove`: the entries after the removed one are shifted down in place. */
    method Remove(idx: nat) returns (err: Err)
      requires Valid()
      modifies this, polls
      ensures Valid() && polls == old(polls)
      ensures err == if idx >= old(len) then Inval else Ok
      ensures idx >= old(len) ==> Contents() == old(Contents())
      ensures idx < old(len) ==> len == old(len) - 1
      ensures idx < old(len) ==> forall k :: 0 <= k < idx ==> polls[k] == old(polls[k])
      ensures idx < old(len) ==> forall k :: idx <= k < len ==> polls[k] == old(polls[k + 1])
      ensures Contents() == Removed(old(Contents()), idx)
    {
      if idx >= len { return Inval; }
      ghost var c := polls[..len];
      len := len - 1;
      var i := idx;
      while i < len
        invariant polls == old(polls) && len == old(len) - 1 < polls.Length && idx <= i <= len && |c| == len + 1
        invariant forall k :: 0 <= k < idx ==> polls[k] == c[k]
        invariant forall k :: idx <= k < i ==> polls[k] == c[k + 1]
        invariant forall k :: i <= k <= len ==> polls[k] == c[k]
      {
        assert polls[i + 1] == c[i + 1];
        polls[i] := polls[i + 1];
        i := i + 1;
      }
      assert polls[..len] == c[..idx] + c[idx + 1..];
      err := Ok;
    }

    /** `poll_list_poll`: the kernel fills in the events that occurred. */
    method Poll(answers: seq<int>)
      requires Valid() && |answers| == len
      modifies polls
      ensures Valid() && Contents() == Answered(old(Contents()), answers)
    {
      for i := 0 to len
        invariant forall k :: 0 <= k < i ==> polls[k] == old(polls[k]).(revents := answers[k])
        invariant forall k :: i <= k < len ==> polls[k] == old(polls[k])
      {
        polls[i] := polls[i].(revents := answers[i]);
      }
      assert Contents() == Answered(old(Contents()), answers);
    }

    /** The loop of both iteration functions: the first entry from index `i` on that has events. */
    method Search(from: nat) returns (p: Ptr)
      requires Valid() && from <= len
      ensures p == FirstReady(Contents(), from)
    {
      var i := from;
      while i < len
        invariant from <= i <= len && FirstReady(Contents(), from) == FirstReady(Contents(), i)
      {
        if polls[i].revents != 0 { return At(i); }
        i := i + 1;
      }
      p := Null;
    }

    /** `poll_list_first`. */
    method First() returns (p: Ptr)
      requires Valid()
      ensures p == FirstReady(Contents(), 0)
    {
      p := Search(0);
    }

    /** `poll_list_next`: a pointer outside the list is refused. */
    method Next(poll: int) returns (p: Ptr, err: Err)
      requires Valid()
      ensures err == if 0 <= poll < len then Ok else Inval
      ensures p == if 0 <= poll < len then FirstReady(Contents(), poll + 1) else Null
    {
      if poll < 0 { return Null, Inval; }
      if poll >= len { return Null, Inval; }
      p := Search(poll + 1);
      err := Ok;
    }

    /** The loop a client writes with them: from `poll_list_first`, `poll_list_next` until NULL. */
    method Visit() returns (seen: seq<PollFd>)
      requires Valid()
      ensures seen == Ready(Contents())
    {
      hide Ready, FirstReady;
      seen := [];
      var p := First();
      var err;
      ghost var from := 0;
      FirstReadyIsNext(Contents(), 0);
      while p != Null
        invariant from <= len && p == FirstReady(Contents(), from)
        invariant Ready(Contents()) == seen + Ready(Contents()[from..])
        decreases len - from
      {
        FirstReadyIsNext(Contents(), from);
        ghost var x, rest := Contents()[p.index], Ready(Contents()[p.index + 1..]);
        assert seen + ([x] + rest) == (seen + [x]) + rest;
        seen := seen + [polls[p.index]];
        from := p.index + 1;
        p, err := Next(p.index);
      }
      FirstReadyIsNext(Contents(), from);
      assert seen + [] == seen;
    }
  }

  /** `s` without its entry `i`, if it has one. */
  function Removed<T>(s: seq<T>, i: nat): (r: seq<T>)
    ensures i >= |s| ==> r == s
    ensures i < |s| ==> |r| == |s| - 1
    ensures i < |s| ==> forall k :: 0 <= k < i ==> r[k] == s[k]
    ensures i < |s| ==> forall k :: i <= k < |r| ==> r[k] == s[k + 1]
  {
    if i < |s| then s[..i] + s[i + 1..] else s
  }

  /** The entries with the events that occurred. */
  function Answered(s: seq<PollFd>, answers: seq<int>): (r: seq<PollFd>)
    requires |answers| == |s|
    ensures |r| == |s| && forall i :: 0 <= i < |s| ==> r[i] == s[i].(revents := answers[i])
  {
    seq(|s|, i requires 0 <= i < |s| => s[i].(revents := answers[i]))
  }

  /** The first entry from index `i` on that has events. */
  function FirstReady(s: seq<PollFd>, i: nat): (p: Ptr)
    requires i <= |s|
    ensures p.At? ==> i <= p.index < |s| && s[p.index].revents != 0
    ensures p.At? ==> forall k :: i <= k < p.index ==> s[k].revents == 0
    ensures p.Null? ==> forall k :: i <= k < |s| ==> s[k].revents == 0
    decreases |s| - i
  {
    if i == |s| then Null else if s[i].revents != 0 then At(i) else FirstReady(s, i + 1)
  }

  /** The entries that have events, in order. */
  function Ready(s: seq<PollFd>): seq<PollFd>
  {
    if s == [] then [] else (if s[0].revents != 0 then [s[0]] else []) + Ready(s[1..])
  }

  lemma {:induction false} FirstReadyIsNext(s: seq<PollFd>, i: nat)
    requires i <= |s|
    ensures Ready(s[i..]) == match FirstReady(s, i) case Null => [] case At(j) => [s[j]] + Ready(s[j + 1..])
    ensures i == 0 ==> s[i..] == s
    decreases |s| - i
  {
    hide Ready;
    ReadyStep(s, i);
    if i < |s| { FirstReadyIsNext(s, i + 1); }
  }

  lemma ReadyStep(s: seq<PollFd>, i: nat)
    requires i <= |s|
    ensures Ready(s[i..]) ==
      if i == |s| then [] else (if s[i].revents != 0 then [s[i]] else []) + Ready(s[i + 1..])
  {
    if i < |s| { assert s[i..][1..] == s[i + 1..]; }
  }

  // ------------------------------------------------------------------ runs

  /** A client's requests; a poll comes with the events that occurred, by the place of the entry in the list. */
  datatype Request = Insert(p: PollFd) | Drop(idx: nat) | Await(occurred: nat -> int)

  /** An insertion of a run that has not been dropped, by its place in the run, and the events last reported for it. */
  datatype Survivor = Survivor(at: nat, revents: int)

  function Survivors(run: seq<Request>): (ks: seq<Survivor>)
    ensures forall i :: 0 <= i < |ks| ==> ks[i].at < |run| && run[ks[i].at].Insert?
  {
    if run == [] then []
    else
      var n := |run| - 1;
      var ks := Survivors(run[..n]);
      match run[n]
      case Insert(p) => ks + [Survivor(n, p.revents)]
      case Drop(i) => Removed(ks, i)
      case Await(occurred) => seq(|ks|, i requires 0 <= i < |ks| => ks[i].(revents := occurred(i)))
  }

  /** Which entries one more request leaves, place by place: an insertion goes behind the others, a removal takes out
      exactly the entry of the given place and lets those behind it move up, and a poll moves none. */
  lemma SurvivorsOfOneMore(run: seq<Request>, a: Request, ks: seq<Survivor>, next: seq<Survivor>)
    requires ks == Survivors(run) && next == Survivors(run + [a])
    ensures a.Insert? ==> |next| == |ks| + 1 && next[|ks|] == Survivor(|run|, a.p.revents)
    ensures a.Insert? ==> forall k :: 0 <= k < |ks| ==> next[k] == ks[k]
    ensures a.Drop? ==> |next| == if a.idx < |ks| then |ks| - 1 else |ks|
    ensures a.Drop? ==> forall k :: 0 <= k < |next| ==> next[k] == if k < a.idx then ks[k] else ks[k + 1]
    ensures a.Await? ==> |next| == |ks|
    ensures a.Await? ==> forall k :: 0 <= k < |ks| ==> next[k] == Survivor(ks[k].at, a.occurred(k))
  {
    assert (run + [a])[..|run|] == run;
  }

  function Entries(run: seq<Request>, ks: seq<Survivor>): (s: seq<PollFd>)
    requires forall i :: 0 <= i < |ks| ==> ks[i].at < |run| && run[ks[i].at].Insert?
    ensures |s| == |ks| && forall i :: 0 <= i < |ks| ==> s[i] == run[ks[i].at].p.(revents := ks[i].revents)
  {
    seq(|ks|, i requires 0 <= i < |ks| => run[ks[i].at].p.(revents := ks[i].revents))
  }

  /** They are listed in insertion order, each once. */
  lemma {:induction false} SurvivorsInOrder(run: seq<Request>)
    ensures forall i, j :: 0 <= i < j < |Survivors(run)| ==> Survivors(run)[i].at < Survivors(run)[j].at
    decreases |run|
  {
    if run != [] { SurvivorsInOrder(run[..|run| - 1]); }
  }

  /** What a run leaves in the list. */
  function Remaining(run: seq<Request>): seq<PollFd> { Entries(run, Survivors(run)) }

  function Events(occurred: nat -> int, n: nat): seq<int> { seq(n, i requires 0 <= i < n => occurred(i)) }

  lemma RemainingStep(run: seq<Request>, n: nat)
    requires n < |run|
    ensures Remaining(run[..n + 1]) ==
      match run[n]
      case Insert(p) => Remaining(run[..n]) + [p]
      case Drop(i) => Removed(Remaining(run[..n]), i)
      case Await(occurred) => Answered(Remaining(run[..n]), Events(occurred, |Remaining(run[..n])|))
  {
    var more, ks := run[..n + 1], Survivors(run[..n]);
    assert more[..n] == run[..n];
    assert run[..n] <= more;
    match run[n]
    case Insert(p) =>
      hide Survivors;
      assert Survivors(more) == ks + [Survivor(n, p.revents)] by { SurvivorsStep(run, n); }
      assert p.(revents := p.revents) == p;
    case Drop(i) =>
      hide Survivors, Entries;
      assert Survivors(more) == Removed(ks, i) by { SurvivorsStep(run, n); }
      if i < |ks| { assert Entries(more, Removed(ks, i)) == Removed(Entries(run[..n], ks), i); }
    case Await(occurred) =>
      hide Survivors, Entries;
      SurvivorsStep(run, n);
      assert forall i :: 0 <= i < |ks| ==> Entries(run[..n], ks)[i] == run[ks[i].at].p.(revents := ks[i].revents);
  }

  lemma SurvivorsStep(run: seq<Request>, n: nat)
    requires n < |run|
    ensures var ks := Survivors(run[..n]);
      Survivors(run[..n + 1]) ==
        match run[n]
        case Insert(p) => ks + [Survivor(n, p.revents)]
        case Drop(i) => Removed(ks, i)
        case Await(occurred) => seq(|ks|, i requires 0 <= i < |ks| => ks[i].(revents := occurred(i)))
  {
    assert run[..n + 1][..n] == run[..n];
  }

  /** A run of additions, removals and polls leaves exactly the surviving entries with the events last reported, so
      that visiting the list yields those of them that have events, each once and in insertion order. */
  method RunRequests(run: seq<Request>) returns (list: List, seen: seq<PollFd>)
    ensures fresh(list) && list.Valid() && list.Contents() == Entries(run, Survivors(run))
    ensures seen == Ready(Entries(run, Survivors(run)))
  {
    hide Ready, FirstReady, Survivors, Entries, Answered, Removed;
    list := new List();
    assert run[..0] == [];
    NothingRemains();
    for n := 0 to |run|
      invariant fresh(list) && fresh(list.polls) && list.Valid()
      invariant list.Contents() == Remaining(run[..n])
    {
      RemainingStep(run, n);
      match run[n] {
        case Insert(p) => list.Add(p);
        case Drop(i) => var err := list.Remove(i);
        case Await(occurred) => list.Poll(Events(occurred, list.len));
      }
    }
    assert run[..|run|] == run;
    seen := list.Visit();
  }

  lemma NothingRemains()
    ensures Remaining([]) == []
  {
  }
}
