/** The growable `String` of src/ministd_string.c and the `realloc` it relies on. */
module Strings {
  import opened Prelude

  /** `std_realloc`. The block's size is its header field, and NULL, as no block is empty, is the empty block. A size
      of 0 frees the block; one that is already large enough is returned as it is, otherwise all of it is copied. */
  method StdRealloc(block: seq<Byte>, bytes: nat) returns (r: seq<Byte>, ghost copied: nat)
    ensures if bytes == 0 then r == [] else block <= r
    ensures bytes > 0 ==> |r| == if |block| >= bytes then |block| else bytes
    ensures copied == if |block| >= bytes then 0 else |block|
  {
    if bytes == 0 { return [], 0; }
    if |block| >= bytes {
      return block, 0;
    }
    r := block + seq(bytes - |block|, _ => 0);
    copied := |block|;
  }

  /** The doubling loop of `s_append`, as a function. */
  function DoubleUntil(growBy: nat, over: nat): (r: nat)
    requires growBy > 0
    ensures r >= over && r >= growBy
    ensures r == growBy || r < 2 * over
    decreases over - growBy
  {
    if growBy < over then DoubleUntil(growBy * 2, over) else growBy
  }

  /** A number doubled `k` times. */
  function Doubled(g: nat, k: nat): nat { if k == 0 then g else 2 * Doubled(g, k - 1) }

  /** Doubling from the capacity ends if and only if it does not start at 0, or there is nothing to reach: appending to
      a string of capacity 0 loops forever, unless what is appended is empty. */
  lemma DoublingEndsExactlyIf(cap: nat, over: nat)
    ensures (exists k :: Doubled(cap, k) >= over) <==> cap > 0 || over == 0
  {
    if cap == 0 {
      forall k ensures Doubled(0, k) == 0 { StaysZero(k); }
      assert over == 0 ==> Doubled(cap, 0) >= over;
    } else {
      DoubledGrows(cap, over);
    }
  }

  lemma {:induction false} StaysZero(k: nat)
    ensures Doubled(0, k) == 0
  {
    if k > 0 { StaysZero(k - 1); }
  }

  lemma {:induction false} DoubledGrows(cap: nat, k: nat)
    requires cap > 0
    ensures Doubled(cap, k) >= k && Doubled(cap, k) > 0
  {
    if k > 0 { DoubledGrows(cap, k - 1); }
  }

  lemma {:induction false} DoubledOnce(g: nat, k: nat)
    ensures Doubled(2 * g, k) == Doubled(g, k + 1)
  {
    if k > 0 { DoubledOnce(g, k - 1); }
  }

  /** The loop stops as soon as doubling has reached what is missing. */
  lemma {:induction false} DoublingStopsInTime(growBy: nat, over: nat) returns (k: nat)
    requires growBy > 0
    ensures DoubleUntil(growBy, over) == Doubled(growBy, k) >= over
    ensures forall j :: 0 <= j < k ==> Doubled(growBy, j) < over
    decreases over - growBy
  {
    k := 0;
    if growBy < over {
      k := DoublingStopsInTime(growBy * 2, over);
      DoubledOnce(growBy, k);
      forall j | 0 <= j <= k ensures Doubled(growBy, j) < over {
        if j > 0 {
          DoubledOnce(growBy, j - 1);
          assert Doubled(growBy * 2, j - 1) < over;
        }
      }
      k := k + 1;
    }
  }

  /** The size fields of a String, and the bytes its reallocations have copied so far. */
  datatype Shape = Shape(len: nat, cap: nat, block: nat, copied: nat) {
    ghost predicate Valid() { 0 < cap <= block && len <= cap }
  }

  /** What appending `n` bytes does to the sizes. */
  function Grown(s: Shape, n: nat): (r: Shape)
    requires s.Valid()
    ensures r.Valid() && r.len == s.len + n
  {
    var over := if n > s.cap - s.len then n - (s.cap - s.len) else 0;
    if over == 0 then s.(len := s.len + n)
    else
      var cap := s.cap + DoubleUntil(s.cap, over);
      Shape(s.len + n, cap, if s.block >= cap then s.block else cap,
            s.copied + if s.block >= cap then 0 else s.block)
  }

  class String {
    var block: seq<Byte>
    var len: nat
    var cap: nat
    ghost var copied: nat

    /** A string of capacity 0 has no buffer, and cannot grow. */
    ghost predicate Sized() reads this { len <= cap <= |block| }

    ghost predicate Valid() reads this { Sizes().Valid() }

    ghost function Sizes(): Shape reads this { Shape(len, cap, |block|, copied) }

    ghost function Contents(): seq<Byte>
      reads this
      requires Sized()
    {
      block[..len]
    }

    /** `s_with_capacity`. */
    constructor (cap: nat)
      ensures Sized() && (cap > 0 ==> Valid()) && Contents() == []
      ensures Sizes() == Shape(0, cap, cap, 0)
    {
      this.block, this.len, this.cap, this.copied := seq(cap, _ => 0), 0, cap, 0;
    }

    /** `s_reserve`: a smaller capacity truncates the contents but keeps the block, unless it is 0. */
    method Reserve(cap: nat)
      requires Sized()
      modifies this
      ensures Sized() && (cap > 0 ==> Valid())
      ensures this.cap == cap && len == Min(old(len), cap)
      ensures Contents() == old(Contents())[..len]
      ensures if cap == 0 && old(this.cap) > 0 then block == [] else old(block) <= block
      ensures cap > 0 ==> |block| == if cap == old(this.cap) || old(|block|) >= cap then old(|block|) else cap
      ensures copied == old(copied) + (if cap == old(this.cap) || old(|block|) >= cap then 0 else old(|block|))
    {
      if cap == this.cap { return; }
      ghost var n;
      block, n := StdRealloc(block, cap);
      copied := copied + n;
      this.cap := cap;
      if len > cap { len := cap; }
    }

    /** `s_push`. */
    method Push(c: Byte)
      requires Valid()
      modifies this
      ensures Valid()
      ensures Contents() == old(Contents()) + [c]
      ensures Sizes() == Grown(old(Sizes()), 1)
    {
      if len == cap {
        Reserve(cap + len);
      }
      block := block[len := c];
      len := len + 1;
    }

    /** `s_append`, where its loop ends. */
    method Append(data: seq<Byte>)
      requires Sized() && (cap > 0 || data == [])
      modifies this
      ensures Sized() && Contents() == old(Contents()) + data
      ensures old(cap > 0) ==> Valid() && Sizes() == Grown(old(Sizes()), |data|)
    {
      var freeBytes := cap - len;
      var over := if |data| > freeBytes then |data| - freeBytes else 0;
      var growBy := if over != 0 then cap else 0;
      while growBy < over
        invariant over != 0 ==> growBy > 0 && DoubleUntil(growBy, over) == DoubleUntil(cap, over)
        invariant over == 0 ==> growBy == 0
        decreases over - growBy
      {
        growBy := growBy * 2;
      }
      Reserve(cap + growBy);
      block := block[..len] + data + block[len + |data|..];
      len := len + |data|;
    }
  }

  /** The sizes after a run of appends (`s_push` is the append of one byte). */
  ghost function Run(s: Shape, ns: seq<nat>): (r: Shape)
    requires s.Valid()
    ensures r.Valid()
    decreases |ns|
  {
    if ns == [] then s else Run(Grown(s, ns[0]), ns[1..])
  }

  function Sum(ns: seq<nat>): nat { if ns == [] then 0 else ns[0] + Sum(ns[1..]) }

  /** Which capacity an append leaves: the old one when the bytes fit, and otherwise the old one plus its least doubling
      with which they fit; the block is replaced, and copied, only if it is smaller than that. */
  lemma CapacityAfterAppend(s: Shape, n: nat, r: Shape) returns (k: nat)
    requires s.Valid() && r == Grown(s, n)
    ensures s.len + n <= s.cap ==> r.cap == s.cap && r.block == s.block && r.copied == s.copied
    ensures s.len + n > s.cap ==> r.cap == s.cap + Doubled(s.cap, k) >= s.len + n
    ensures s.len + n > s.cap ==> forall j :: 0 <= j < k ==> s.cap + Doubled(s.cap, j) < s.len + n
    ensures s.block >= r.cap ==> r.block == s.block && r.copied == s.copied
    ensures s.block < r.cap ==> r.block == r.cap && r.copied == s.copied + s.block
  {
    k := 0;
    if s.len + n > s.cap { k := DoublingStopsInTime(s.cap, s.len + n - s.cap); }
  }

  /** Whenever an append has to grow, the new capacity is less than twice the new length. */
  lemma GrowthIsTight(s: Shape, n: nat)
    requires s.Valid()
    ensures var r := Grown(s, n);
      r.cap != s.cap ==> 2 * s.cap <= r.cap < 2 * r.len
  {
  }

  /** Amortised cost: from a freshly sized string, the bytes copied by all reallocations of any run of pushes
      and appends stay below twice the final length (and no byte is copied while the first block suffices). */
  lemma AmortisedCopying(s: Shape, ns: seq<nat>)
    requires s.Valid() && s.block == s.cap && s.copied == 0
    ensures var r := Run(s, ns);
      r.len == s.len + Sum(ns) && r.block == r.cap &&
      (r.copied == 0 || r.copied < 2 * r.len)
  {
    AmortisedFrom(s, ns);
  }

  /** The potential argument: copied bytes stay below the capacity, which each growth at least doubles. */
  lemma {:induction false} AmortisedFrom(s: Shape, ns: seq<nat>)
    requires s.Valid() && s.block == s.cap
    requires s.copied < s.cap && (s.copied == 0 || s.cap < 2 * s.len)
    ensures var r := Run(s, ns);
      r.len == s.len + Sum(ns) && r.block == r.cap && r.copied < r.cap &&
      (r.copied == 0 || r.cap < 2 * r.len)
    decreases |ns|
  {
    if ns != [] {
      GrowthIsTight(s, ns[0]);
      AmortisedFrom(Grown(s, ns[0]), ns[1..]);
    }
  }

  datatype Edit = PushByte(c: Byte) | AppendBytes(data: seq<Byte>) {
    function Added(): seq<Byte> { if PushByte? then [c] else data }
  }

  function Joined(edits: seq<Edit>): seq<Byte> { if edits == [] then [] else edits[0].Added() + Joined(edits[1..]) }

  function Lengths(edits: seq<Edit>): (ns: seq<nat>)
    ensures Sum(ns) == |Joined(edits)|
  {
    if edits == [] then [] else [|edits[0].Added()|] + Lengths(edits[1..])
  }

  /** Any run of pushes and appends on a new string: the text is all that was added, in order, and the bytes that the
      reallocations have copied are below twice its length. */
  method Build(cap: nat, edits: seq<Edit>) returns (s: String)
    requires cap > 0
    ensures s.Valid() && s.Contents() == Joined(edits) && s.cap == |s.block|
    ensures s.copied == 0 || s.copied < 2 * |s.Contents()|
  {
    hide Grown, Run, Joined, Lengths;
    s := new String(cap);
    ghost var start := s.Sizes();
    assert edits[0..] == edits;
    for i := 0 to |edits|
      invariant fresh(s) && s.Valid()
      invariant s.Contents() + Joined(edits[i..]) == Joined(edits)
      invariant Run(s.Sizes(), Lengths(edits[i..])) == Run(start, Lengths(edits))
    {
      EditStep(edits, i, s.Sizes());
      ApplyEdit(s, edits[i]);
    }
    NoEdits(s.Sizes());
    assert edits[|edits|..] == [] && s.Contents() + [] == s.Contents();
    AmortisedCopying(start, Lengths(edits));
  }

  method ApplyEdit(s: String, e: Edit)
    requires s.Valid()
    modifies s
    ensures s.Valid() && s.Contents() == old(s.Contents()) + e.Added()
    ensures s.Sizes() == Grown(old(s.Sizes()), |e.Added()|)
    ensures forall rest :: s.Contents() + rest == old(s.Contents()) + (e.Added() + rest)
  {
    hide Grown;
    match e
    case PushByte(c) => s.Push(c);
    case AppendBytes(data) => s.Append(data);
  }

  lemma NoEdits(sizes: Shape)
    requires sizes.Valid()
    ensures Joined([]) == [] && Run(sizes, Lengths([])) == sizes
  {
  }

  lemma EditStep(edits: seq<Edit>, i: nat, sizes: Shape)
    requires i < |edits| && sizes.Valid()
    ensures Joined(edits[i..]) == edits[i].Added() + Joined(edits[i + 1..])
    ensures Run(sizes, Lengths(edits[i..])) == Run(Grown(sizes, |edits[i].Added()|), Lengths(edits[i + 1..]))
  {
    hide Grown;
    assert edits[i..][1..] == edits[i + 1..];
  }

  /** `srf_read` on a string file at `readPos`: it is bounded by the capacity, not by the length. */
  function StringFileRead(block: seq<Byte>, cap: nat, readPos: nat, want: nat): (r: seq<Byte>)
    requires readPos <= cap <= |block|
  {
    block[readPos..readPos + Min(cap - readPos, want)]
  }

  /** Reading a string back through a string file yields the string exactly when it is full:
      otherwise the unused tail of the buffer is delivered after it. */
  lemma StringFileReadsContents(block: seq<Byte>, len: nat, cap: nat, want: nat)
    requires len <= cap <= |block| && want >= cap
    ensures StringFileRead(block, cap, 0, want) == block[..len] <==> len == cap
  {
    assert |StringFileRead(block, cap, 0, want)| == cap;
  }
}
