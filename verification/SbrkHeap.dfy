/** The first-fit allocator over a moving program break (src/ministd_memory.c). Addresses are numbers, 0 is NULL;
    the header fields of a block are kept typed, by address, beside the bytes of memory. A block is known by the
    address of its header; clients hold the address HEADER bytes further on. */
module SbrkHeap {
  import opened Prelude

  /** `sizeof(sbrk_header_t)`. */
  const HEADER: nat := 24
  const SEARCH_LIMIT: nat := 0x1_0000

  datatype Header = Header(size: nat, free: bool, next: nat)

  ghost function EndOf(headers: map<nat, Header>, h: nat): nat
    requires h in headers
  {
    h + HEADER + headers[h].size
  }

  ghost function Next(chain: seq<nat>, i: nat, last: nat): nat
  {
    if i + 1 < |chain| then chain[i + 1] else last
  }

  /** The i-th block of a list: it links to the next one, and ends before that one starts. */
  ghost predicate Node(headers: map<nat, Header>, chain: seq<nat>, base: nat, brk: nat, i: nat)
    requires i < |chain|
  {
    chain[i] in headers && base <= chain[i] &&
    EndOf(headers, chain[i]) <= Next(chain, i, brk) && headers[chain[i]].next == Next(chain, i, 0)
  }

  /** `chain` is the list of headers in link order, the last block ending at or below the break. Gaps are allowed. */
  ghost predicate Linked(headers: map<nat, Header>, chain: seq<nat>, base: nat, brk: nat)
  {
    forall i :: 0 <= i < |chain| ==> Node(headers, chain, base, brk, i)
  }

  /** The list is strictly address-ordered: every block ends before any later one, and below the break. */
  lemma {:induction false} ChainOrdered(headers: map<nat, Header>, chain: seq<nat>, base: nat, brk: nat, i: nat, j: nat)
    requires Linked(headers, chain, base, brk) && i < j <= |chain|
    ensures chain[i] in headers && base <= chain[i]
    ensures EndOf(headers, chain[i]) <= (if j < |chain| then chain[j] else brk)
    decreases j - i
  {
    assert Node(headers, chain, base, brk, i);
    if i + 1 < j {
      ChainOrdered(headers, chain, base, brk, i + 1, j);
    }
  }

  /** Only the tail's block can end at the break. */
  lemma OnlyTheTailEndsAtTheBreak(headers: map<nat, Header>, chain: seq<nat>, base: nat, brk: nat, i: nat)
    requires Linked(headers, chain, base, brk) && i < |chain|
    requires chain[i] in headers && EndOf(headers, chain[i]) == brk
    ensures i == |chain| - 1
  {
    if i + 1 < |chain| {
      assert Node(headers, chain, base, brk, i);
      ChainOrdered(headers, chain, base, brk, i + 1, |chain|);
    }
  }

  /** Two blocks of the list never share a byte, headers included. */
  lemma BlocksDisjoint(headers: map<nat, Header>, chain: seq<nat>, base: nat, brk: nat, i: nat, j: nat)
    requires Linked(headers, chain, base, brk) && i < |chain| && j < |chain| && i != j
    ensures chain[i] in headers && chain[j] in headers
    ensures EndOf(headers, chain[i]) <= chain[j] || EndOf(headers, chain[j]) <= chain[i]
  {
    assert Node(headers, chain, base, brk, i) && Node(headers, chain, base, brk, j);
    ChainOrdered(headers, chain, base, brk, Min(i, j), if i < j then j else i);
  }

  class Heap {
    const base: nat
    var brk: nat
    var head: nat
    var tail: nat
    var headers: map<nat, Header>
    var mem: seq<Byte>          // the bytes from `base` to the break

    const grants: nat -> bool   // whether the kernel grants the i-th change of the break
    var brkCalls: nat

    ghost var chain: seq<nat>   // the headers from `head` to `tail`
    ghost var live: set<nat>    // the blocks handed out and not yet freed

    ghost predicate Valid() reads this
    {
      0 < base <= brk < TWO64 && |mem| == brk - base &&
      Linked(headers, chain, base, brk) &&
      head == (if chain == [] then 0 else chain[0]) &&
      tail == (if chain == [] then 0 else chain[|chain| - 1]) &&
      (forall h :: h in live ==> IsLive(h))
    }

    ghost predicate IsLive(h: nat) reads this
    {
      h in chain && h in headers && !headers[h].free
    }

    ghost predicate InRange(h: nat) reads this
    {
      h in headers && base <= h && EndOf(headers, h) <= base + |mem|
    }

    /** The bytes of a block, without its header. */
    ghost function Payload(h: nat): seq<Byte>
      reads this
      requires InRange(h)
    {
      mem[h + HEADER - base..EndOf(headers, h) - base]
    }

    /** What clients see: every live block with its bytes. */
    ghost function Contents(): (c: map<nat, seq<Byte>>)
      reads this
      requires Valid()
      ensures c.Keys == live
    {
      map h | h in live :: LiveInRange(h); Payload(h)
    }

    lemma LiveInRange(h: nat)
      requires Valid() && h in chain
      ensures InRange(h)
    {
      var i :| 0 <= i < |chain| && chain[i] == h;
      ChainOrdered(headers, chain, base, brk, i, |chain|);
    }

    lemma SizeOf(h: nat)
      requires Valid() && h in live
      ensures h in headers && headers[h].size == |Contents()[h]|
    {
      assert IsLive(h);
      LiveInRange(h);
    }

    /** No two live blocks overlap. */
    lemma LiveBlocksDisjoint(g: nat, h: nat)
      requires Valid() && g in live && h in live && g != h
      ensures g in headers && h in headers
      ensures EndOf(headers, g) <= h || EndOf(headers, h) <= g
    {
      assert IsLive(g) && IsLive(h);
      var i :| 0 <= i < |chain| && chain[i] == g;
      var j :| 0 <= j < |chain| && chain[j] == h;
      BlocksDisjoint(headers, chain, base, brk, i, j);
    }

    /** A program that has not allocated yet; the break is not at address 0. */
    constructor (start: nat, grants: nat -> bool)
      requires 0 < start < TWO64
      ensures Valid() && Contents() == map[] && brk == base == start && mem == []
      ensures chain == [] && live == {} && headers == map[]
      ensures this.grants == grants && brkCalls == 0
    {
      base, brk, head, tail, headers, mem, brkCalls := start, start, 0, 0, map[], [], 0;
      this.grants := grants;
      chain, live := [], {};
    }

    ghost function Now(): Moment reads this { Moment(headers, chain, brk, brkCalls) }

    /** The kernel grants every change of the break. */
    ghost predicate Generous() { forall i :: grants(i) }

    /** The break can move far enough for a new block of `bytes`, and the kernel will let it. */
    ghost predicate CanGrow(bytes: nat) reads this
    {
      brk + HEADER + bytes < TWO64 && grants(brkCalls)
    }

    /** The kernel was asked at most for what was done; a failure with room left used up its refusal. */
    twostate predicate AskedKernel(bytes: nat, err: Err) reads this
    {
      old(brkCalls) <= brkCalls &&
      (err != Ok && old(brk) + HEADER + bytes < TWO64 ==> brkCalls == old(brkCalls) + 1)
    }

    /** `sbrk`: the sum wraps like a 64-bit pointer, and a sum below the break is refused. So a negative `n` whose
        magnitude is at most the break never moves it. */
    method Sbrk(n: int) returns (p: nat, err: Err)
      requires Valid()
      modifies `brk, `mem, `brkCalls
      ensures Valid() && Contents() == old(Contents())
      ensures n == 0 || err != Ok ==> brk == old(brk) && mem == old(mem)
      ensures n == 0 ==> p == brk && err == Ok
      ensures err != Ok ==> p == 0 && err == NoMem
      ensures err == Ok ==> p == old(brk) <= brk == (old(brk) + n) % TWO64
      ensures n < 0 && -n <= old(brk) ==> err == NoMem
      ensures 0 < n < TWO64 ==> (err == Ok <==> old(brk) + n < TWO64 && grants(old(brkCalls)))
      ensures old(brkCalls) <= brkCalls <= old(brkCalls) + 1
      ensures 0 < n < TWO64 && old(brk) + n < TWO64 ==> brkCalls == old(brkCalls) + 1
    {
      hide Contents, Payload;
      if n == 0 { return brk, Ok; }
      var incrementTo := (brk + n) % TWO64;
      Wrapped(brk, n);
      if incrementTo < brk { return 0, NoMem; }
      var granted := grants(brkCalls);
      brkCalls := brkCalls + 1;
      KeptContents();
      if !granted { return 0, NoMem; }
      p := brk;  // the value returned by the kernel less `n`
      assert p == (incrementTo - n) % TWO64;
      mem := mem + seq(incrementTo - brk, _ => 0);
      brk, err := incrementTo, Ok;
      LinkedBelowHigherBreak(headers, chain, base, p, brk);
      KeptContents();
    }

    /** Clients see no change when memory only grows and no live block's size changes. */
    twostate lemma KeptContents()
      requires old(Valid()) && Valid() && live == old(live) && old(mem) <= mem
      requires forall h :: h in live ==> h in headers && h in old(headers) && headers[h].size == old(headers)[h].size
      ensures Contents() == old(Contents())
    {
      forall h | h in live ensures Contents()[h] == old(Contents())[h] {
        assert IsLive(h) && old(IsLive(h));
        LiveInRange(h);
        OldLiveInRange(h);
      }
    }

    twostate lemma OldLiveInRange(h: nat)
      requires old(Valid()) && old(h in live)
      ensures old(InRange(h))
    {
      assert old(IsLive(h));
      var i :| 0 <= i < |old(chain)| && old(chain)[i] == h;
      ChainOrdered(old(headers), old(chain), base, old(brk), i, |old(chain)|);
    }

    /** Every block but `b` has the size and the free flag it had. */
    twostate predicate OthersKept(b: int) reads this
    {
      forall h :: h in old(headers) && h != b ==>
        h in headers && headers[h].size == old(headers)[h].size && headers[h].free == old(headers)[h].free
    }

    ghost predicate Fits(h: nat, bytes: nat) reads this
    {
      h in headers && headers[h].free && headers[h].size >= bytes
    }

    /** `sbrk_get_free_block`: the first free block of the list that is large enough. */
    method GetFreeBlock(bytes: nat) returns (res: nat, ghost i: nat)
      requires Valid()
      ensures i <= |chain| && res == (if i < |chain| then chain[i] else 0)
      ensures i < |chain| ==> res != 0 && Fits(res, bytes)
      ensures forall j :: 0 <= j < i ==> !Fits(chain[j], bytes)
      ensures if res == 0 then NoneFits(headers, chain, |chain|, bytes) else FirstFit(headers, chain, res, bytes)
    {
      res, i := head, 0;
      if chain != [] { assert Node(headers, chain, base, brk, 0); }
      while res != 0
        invariant i <= |chain| && res == (if i < |chain| then chain[i] else 0) && (i < |chain| ==> res > 0)
        invariant forall j :: 0 <= j < i ==> !Fits(chain[j], bytes)
        decreases |chain| - i
      {
        assert Node(headers, chain, base, brk, i);
        if headers[res].free && headers[res].size >= bytes { return; }
        res := headers[res].next;
        i := i + 1;
        if i < |chain| { assert Node(headers, chain, base, brk, i); }
      }
    }

    /** `sbrk_alloc`; HEADER + `bytes` must not wrap. A free block that fits is reused, the first one in the list;
        only when there is none does the break move. */
    method Alloc(bytes: nat) returns (p: nat, err: Err)
      requires Valid() && HEADER + bytes < TWO64
      modifies this
      ensures Valid()
      ensures p == 0 ==> Contents() == old(Contents()) && live == old(live) && brk == old(brk) && chain == old(chain)
      ensures p == 0 ==> headers == old(headers)
      ensures OthersKept(p - HEADER)
      ensures p == 0 <==> bytes == 0 || err != Ok
      ensures bytes == 0 ==> err == Ok
      ensures err != Ok ==> err == NoMem
      ensures err != Ok <==>
        bytes > 0 && NoneFits(old(headers), old(chain), |old(chain)|, bytes) && !old(CanGrow(bytes))
      ensures AskedKernel(bytes, err)
      ensures p != 0 ==> p >= HEADER && p - HEADER !in old(live) && live == old(live) + {p - HEADER}
      ensures p != 0 ==> |Contents()[p - HEADER]| >= bytes && Contents() - {p - HEADER} == old(Contents())
      ensures p != 0 && brk > old(brk) ==> |Contents()[p - HEADER]| == bytes
      ensures p != 0 && brk == old(brk) ==>
        old(p - HEADER in headers) && |Contents()[p - HEADER]| == old(headers)[p - HEADER].size
      ensures p != 0 ==>
        || (brk == old(brk) && chain == old(chain) && FirstFit(old(headers), chain, p - HEADER, bytes))
        || (brk == old(brk) + HEADER + bytes && p == old(brk) + HEADER && chain == old(chain) + [old(brk)] &&
            NoneFits(old(headers), old(chain), |old(chain)|, bytes))
    {
      hide Contents;
      if bytes == 0 { return 0, Ok; }
      var header;
      ghost var i;
      header, i := GetFreeBlock(bytes);
      if header != 0 {
        assert FirstFit(headers, chain, header, bytes);
        Reuse(header, i);
        return header + HEADER, Ok;
      }
      var block;
      block, err := Sbrk(HEADER + bytes);
      if err != Ok { return 0, err; }
      Link(block, bytes);
      p := block + HEADER;
    }

    /** Handing out a block of the list that is not live. */
    method Reuse(header: nat, ghost i: nat)
      requires Valid() && i < |chain| && chain[i] == header && header in headers && headers[header].free
      modifies `headers, `live
      ensures Valid() && header !in old(live) && live == old(live) + {header}
      ensures Contents() - {header} == old(Contents()) && |Contents()[header]| == old(headers[header].size)
      ensures OthersKept(header)
    {
      assert header in live ==> IsLive(header);
      headers := headers[header := headers[header].(free := false)];
      live := live + {header};
      RelinkedSameShape(old(headers), headers, chain, base, brk);
      assert IsLive(header) && forall h :: h in old(live) ==> old(IsLive(h)) && IsLive(h);
      OneMoreBlock(header);
    }

    /** A fresh block between the old break and the new one becomes the tail. */
    method Link(block: nat, bytes: nat)
      requires Valid() && base <= block && block + HEADER + bytes == brk
      requires Linked(headers, chain, base, block)
      modifies `headers, `live, `head, `tail, `chain
      ensures Valid() && chain == old(chain) + [block] && block !in old(live) && live == old(live) + {block}
      ensures Contents() - {block} == old(Contents()) && |Contents()[block]| == bytes
      ensures OthersKept(block)
    {
      hide Contents, Linked, OthersKept;
      NotInChainYet(headers, chain, base, block);
      EndsLinked(headers, chain, base, block);
      assert block in live ==> IsLive(block);
      headers := headers[block := Header(bytes, false, 0)];
      if head == 0 { head := block; }
      if tail != 0 { headers := headers[tail := headers[tail].(next := block)]; }
      RestKept(old(headers), headers, tail, block, bytes);
      tail := block;
      chain := chain + [block];
      live := live + {block};
      LinkedAppend(old(headers), headers, old(chain), base, block, brk);
      assert IsLive(block) && forall h :: h in old(live) ==> old(IsLive(h)) && IsLive(h);
      OneMoreBlock(block);
      assert OthersKept(block) by { LinkKept(block); }
    }

    /** The headers that `Link` has not written keep their sizes and flags. */
    twostate lemma LinkKept(block: nat)
      requires forall h :: h in old(headers) && h != block ==>
        h in headers && headers[h] == old(headers)[h].(next := headers[h].next)
      ensures OthersKept(block)
    {
    }

    /** Clients see one more block, and the others as they were. */
    twostate lemma OneMoreBlock(b: nat)
      requires old(Valid()) && Valid() && b !in old(live) && live == old(live) + {b} && mem == old(mem)
      requires forall h :: h in old(live) ==>
        h in headers && h in old(headers) && headers[h].size == old(headers)[h].size
      ensures Contents() - {b} == old(Contents()) && b in headers && |Contents()[b]| == headers[b].size
    {
      assert IsLive(b);
      LiveInRange(b);
      forall h | h in old(live) ensures Contents()[h] == old(Contents())[h] {
        assert IsLive(h);
        LiveInRange(h);
        OldLiveInRange(h);
      }
    }

    /** A byte of a live block, by the address of its header. */
    method Load(h: nat, k: nat) returns (v: Byte)
      requires Valid() && h in live && k < |Contents()[h]|
      ensures v == Contents()[h][k]
    {
      assert IsLive(h);
      LiveInRange(h);
      v := mem[h + HEADER + k - base];
    }

    /** Writing a byte of a live block is seen in that block and in no other. */
    method Store(h: nat, k: nat, v: Byte)
      requires Valid() && h in live && k < |Contents()[h]|
      modifies `mem
      ensures Valid() && Contents() == old(Contents())[h := Splice(old(Contents())[h], k, [v])]
    {
      assert IsLive(h);
      LiveInRange(h);
      mem := mem[h + HEADER + k - base := v];
      forall g | g in live && g != h ensures Contents()[g] == old(Contents())[g] {
        assert IsLive(g);
        LiveInRange(g);
        LiveBlocksDisjoint(g, h);
      }
      assert Contents()[h] == Splice(old(Contents())[h], k, [v]);
    }

    /** `sbrk_free`. The block at the break is unlinked (unless its predecessor lies beyond the search limit) and
        abandoned: the break itself never goes down. Any other block is marked free. */
    method Free(buf: nat)
      requires Valid() && (buf != 0 ==> buf >= HEADER && buf - HEADER in live)
      modifies this
      ensures Valid() && brk == old(brk) && brkCalls >= old(brkCalls)
      ensures buf == 0 ==> Contents() == old(Contents()) && chain == old(chain) && live == old(live)
      ensures buf != 0 ==> live == old(live) - {buf - HEADER}
      ensures buf != 0 ==> Contents() == old(Contents()) - {buf - HEADER}
      ensures OthersKept(buf - HEADER)
      ensures buf != 0 ==> old(buf - HEADER in headers) && buf - HEADER in headers
      ensures buf != 0 ==> headers[buf - HEADER].size == old(headers)[buf - HEADER].size
      ensures buf != 0 && old(EndOf(headers, buf - HEADER)) == brk ==>
        old(chain) == if old(|chain|) <= SEARCH_LIMIT + 1 then chain + [buf - HEADER] else chain
      ensures buf != 0 && old(EndOf(headers, buf - HEADER)) != brk ==>
        chain == old(chain) && buf - HEADER in headers && headers[buf - HEADER].free
    {
      if buf == 0 { return; }
      hide Contents;
      var header := buf - HEADER;
      assert IsLive(header);
      LiveInRange(header);
      var programBreak, err := Sbrk(0);
      if buf + headers[header].size == programBreak {
        UnlinkAtBreak(header);
        var p;
        p, err := Sbrk(-(HEADER + headers[header].size));
      } else {
        MarkFree(header);
      }
    }

    method MarkFree(header: nat)
      requires Valid() && header in live && header in headers
      modifies `headers, `live
      ensures Valid() && live == old(live) - {header} && Contents() == old(Contents()) - {header}
      ensures headers == old(headers)[header := old(headers)[header].(free := true)] && OthersKept(header)
    {
      headers := headers[header := headers[header].(free := true)];
      live := live - {header};
      RelinkedSameShape(old(headers), headers, chain, base, brk);
      forall h | h in live ensures IsLive(h) { assert old(IsLive(h)); }
      FewerBlocks(header);
    }

    /** The branch of `sbrk_free` for the block that ends at the break. */
    method UnlinkAtBreak(header: nat)
      requires Valid() && header in live && header in headers && EndOf(headers, header) == brk
      modifies `headers, `live, `head, `tail, `chain
      ensures Valid() && live == old(live) - {header} && Contents() == old(Contents()) - {header}
      ensures old(chain) == if old(|chain|) <= SEARCH_LIMIT + 1 then chain + [header] else chain
      ensures OthersKept(header)
      ensures header in headers && headers[header].size == old(headers[header].size)
    {
      hide Contents;
      assert IsLive(header);
      ghost var i :| 0 <= i < |chain| && chain[i] == header;
      OnlyTheTailEndsAtTheBreak(headers, chain, base, brk, i);
      live := live - {header};
      if head == tail {
        if |chain| > 1 { ChainOrdered(headers, chain, base, brk, 0, |chain| - 1); }
        forall h | h in old(live) ensures h == header { assert old(IsLive(h)); }
        head, tail, chain := 0, 0, [];
      } else {
        UnlinkTail();
      }
      FewerBlocks(header);
    }

    /** Clients see one block less, and the others as they were. */
    twostate lemma FewerBlocks(b: nat)
      requires old(Valid()) && Valid() && live == old(live) - {b} && mem == old(mem)
      requires forall h :: h in live ==> h in headers && h in old(headers) && headers[h].size == old(headers)[h].size
      ensures Contents() == old(Contents()) - {b}
    {
      forall h | h in live ensures Contents()[h] == old(Contents())[h] {
        assert IsLive(h);
        LiveInRange(h);
        OldLiveInRange(h);
      }
    }

    /** The predecessor search of `sbrk_free`, which gives up after SEARCH_LIMIT blocks. */
    method UnlinkTail()
      requires Valid() && |chain| >= 2 && tail !in live
      modifies `headers, `tail, `chain
      ensures Valid()
      ensures chain == if old(|chain|) <= SEARCH_LIMIT + 1 then old(chain)[..old(|chain|) - 1] else old(chain)
      ensures forall h :: h in old(headers) ==>
        h in headers && headers[h] == old(headers)[h].(next := headers[h].next)
    {
      var tmp, counter := head, 0;
      ghost var last, unlinked := |chain| - 1, false;
      assert Node(headers, chain, base, brk, 0);
      while tmp != 0 && counter < SEARCH_LIMIT
        invariant Valid()
        invariant unlinked ==> tmp == 0 && last <= SEARCH_LIMIT && chain == old(chain)[..last]
        invariant !unlinked ==> counter < last && 0 < tmp == old(chain)[counter] && chain == old(chain)
        invariant !unlinked ==> headers == old(headers) && tail == old(tail)
        invariant forall h :: h in old(headers) ==>
          h in headers && headers[h] == old(headers)[h].(next := headers[h].next)
        decreases SEARCH_LIMIT - counter
      {
        assert Node(headers, chain, base, brk, counter);
        if counter + 1 < last { ChainOrdered(headers, chain, base, brk, counter + 1, last); }
        if headers[tmp].next == tail {
          UnlinkAfter(tmp, counter);
          unlinked := true;
        }
        if !unlinked { assert Node(headers, chain, base, brk, counter + 1); }
        tmp := headers[tmp].next;
        counter := counter + 1;
      }
    }

    /** The block at index `i`, last but one, becomes the tail. */
    method UnlinkAfter(tmp: nat, ghost i: nat)
      requires Valid() && i + 2 == |chain| && chain[i] == tmp && tmp in headers && tail !in live
      modifies `headers, `tail, `chain
      ensures Valid() && chain == old(chain)[..i + 1] && tail == tmp
      ensures headers == old(headers)[tmp := old(headers)[tmp].(next := 0)]
    {
      headers := headers[tmp := headers[tmp].(next := 0)];
      tail := tmp;
      chain := chain[..i + 1];
      LinkedInit(old(headers), headers, old(chain), base, brk);
      forall h | h in live ensures IsLive(h) {
        assert old(IsLive(h));
        ghost var j :| 0 <= j < |old(chain)| && old(chain)[j] == h;
        assert j != i + 1 && chain[j] == h;
      }
    }

    /** What has become of the freed block `h` after a new one was allocated: it is in the list and free, or it ended at
        the break, which has not moved, and is cut off the list, or left there if the list is beyond the search
        limit. */
    twostate predicate GivenBack(h: nat) reads this
    {
      old(h in headers) && h in headers && headers[h].size == old(headers)[h].size && old(h in chain) &&
      if brk == old(brk) && old(EndOf(headers, h)) == brk
      then old(chain) == if old(|chain|) <= SEARCH_LIMIT + 1 then chain + [h] else chain
      else headers[h].free && chain == if brk == old(brk) then old(chain) else old(chain) + [old(brk)]
    }

    /** The block at `q` was the first fit, or the break has moved to make room for it because nothing fits. */
    twostate predicate Placed(q: int, bytes: nat) reads this
    {
      || (brk == old(brk) && q >= 0 && FirstFit(old(headers), old(chain), q, bytes))
      || (brk == old(brk) + HEADER + bytes && q == old(brk) &&
          NoneFits(old(headers), old(chain), |old(chain)|, bytes))
    }

    /** Every block but `b` and `c` has the size and the free flag it had. */
    twostate predicate RestKeptBut(b: int, c: int) reads this
    {
      forall h :: h in old(headers) && h != b && h != c ==>
        h in headers && headers[h].size == old(headers)[h].size && headers[h].free == old(headers)[h].free
    }

    lemma EndsBelowBreak(h: nat)
      requires Valid() && h in live
      ensures h in chain && h in headers && EndOf(headers, h) <= brk
    {
      assert IsLive(h);
      LiveInRange(h);
    }

    /** `sbrk_realloc`. A block that is large enough stays; otherwise its whole payload is copied to the front of a
        new block and it is freed. A size of 0 returns NULL and leaves the block alone. */
    method Realloc(buf: nat, bytes: nat) returns (p: nat, err: Err)
      requires Valid() && (buf != 0 ==> buf >= HEADER && buf - HEADER in live) && HEADER + bytes < TWO64
      modifies this
      ensures Valid() && brk >= old(brk)
      ensures p == 0 ==> Contents() == old(Contents()) && live == old(live)
      ensures p >= HEADER && buf == 0 ==> live == old(live) + {p - HEADER}
      ensures p >= HEADER && buf >= HEADER ==> live == (old(live) - {buf - HEADER}) + {p - HEADER}
      ensures p == 0 <==> bytes == 0 || err != Ok
      ensures p != 0 ==> p >= HEADER && p - HEADER in live && |Contents()[p - HEADER]| >= bytes
      ensures p != 0 && buf == 0 ==> p - HEADER !in old(live) && Contents() - {p - HEADER} == old(Contents())
      ensures p != 0 && buf != 0 ==> old(Contents())[buf - HEADER] <= Contents()[p - HEADER]
      ensures p != 0 && buf != 0 && p != buf ==>
        p - HEADER !in old(live) && Contents() - {p - HEADER} == old(Contents()) - {buf - HEADER}
      ensures p != 0 && p == buf ==> Contents() == old(Contents())
      ensures p == 0 || p == buf ==> brk == old(brk) && chain == old(chain) && headers == old(headers)
      ensures p != 0 && p != buf ==> Placed(p - HEADER, bytes) && RestKeptBut(p - HEADER, buf - HEADER)
      ensures p != 0 && p != buf && buf != 0 ==> GivenBack(buf - HEADER)
      ensures p != 0 && buf != 0 && |old(Contents())[buf - HEADER]| >= bytes ==> p == buf
      ensures brk <= old(brk) + HEADER + bytes
      ensures err != Ok <==>
        bytes > 0 && (buf == 0 || |old(Contents())[buf - HEADER]| < bytes) &&
        NoneFits(old(headers), old(chain), |old(chain)|, bytes) && !old(CanGrow(bytes))
      ensures AskedKernel(bytes, err)
    {
      hide Valid, Contents, NoneFits, FirstFit;
      if buf == 0 || bytes == 0 {
        p, err := Alloc(bytes);
        return;
      }
      SizeOf(buf - HEADER);
      if headers[buf - HEADER].size >= bytes { return buf, Ok; }
      p, err := Move(buf, bytes);
    }

    /** The growing branch of `sbrk_realloc`. */
    method Move(buf: nat, bytes: nat) returns (p: nat, err: Err)
      requires Valid() && buf >= HEADER && buf - HEADER in live && HEADER + bytes < TWO64
      requires |Contents()[buf - HEADER]| < bytes
      modifies this
      ensures Valid() && brk >= old(brk)
      ensures p == 0 ==> Contents() == old(Contents()) && live == old(live)
      ensures p == 0 <==> err != Ok
      ensures err != Ok <==> NoneFits(old(headers), old(chain), |old(chain)|, bytes) && !old(CanGrow(bytes))
      ensures AskedKernel(bytes, err)
      ensures brk <= old(brk) + HEADER + bytes
      ensures p >= HEADER ==> live == (old(live) - {buf - HEADER}) + {p - HEADER}
      ensures p != 0 ==> p >= HEADER && p - HEADER in live && p - HEADER !in old(live)
      ensures p != 0 ==> |Contents()[p - HEADER]| >= bytes && old(Contents())[buf - HEADER] <= Contents()[p - HEADER]
      ensures p != 0 ==> Contents() - {p - HEADER} == old(Contents()) - {buf - HEADER}
      ensures p == 0 ==> brk == old(brk) && chain == old(chain) && headers == old(headers)
      ensures p != 0 ==> Placed(p - HEADER, bytes) && RestKeptBut(p - HEADER, buf - HEADER) && GivenBack(buf - HEADER)
    {
      hide Valid, Contents, NoneFits, FirstFit;
      var header := buf - HEADER;
      EndsBelowBreak(header);
      p, err := Alloc(bytes);
      if err != Ok { return 0, err; }
      ghost var grown := Contents();
      assert header in grown - {p - HEADER} && grown[header] == old(Contents())[header];
      CopyPayload(header, p - HEADER);
      Free(buf);
      Moved(grown, header, p - HEADER, Contents());
    }

    /** The copy loop of `sbrk_realloc`. */
    method CopyPayload(from: nat, to: nat)
      requires Valid() && from in live && to in live && from != to && |Contents()[from]| <= |Contents()[to]|
      modifies `mem
      ensures Valid()
      ensures Contents() == old(Contents())[to :=
        old(Contents())[from] + old(Contents())[to][|old(Contents())[from]|..]]
    {
      hide Valid, Contents, Copied;
      ghost var was := Contents();
      SizeOf(from);
      var size := headers[from].size;
      var i := 0;
      CopiedEnds(was[from], was[to]);
      while i < size
        invariant Valid() && 0 <= i <= size == |was[from]|
        invariant live == was.Keys && Contents() == was[to := Copied(was[from], was[to], i)]
      {
        var v := Load(from, i);
        CopiedStep(was[from], was[to], i);
        Store(to, i, v);
        i := i + 1;
      }
    }
  }

  lemma Moved(c: map<nat, seq<Byte>>, from: nat, to: nat, d: map<nat, seq<Byte>>)
    requires from in c && to in c && from != to && to in d && d == c[to := d[to]] - {from}
    ensures d - {to} == (c - {to}) - {from}
  {
  }

  /** `to` with its first `i` bytes taken from `from`. */
  function Copied(from: seq<Byte>, to: seq<Byte>, i: nat): seq<Byte>
    requires i <= |from| && i <= |to|
  {
    from[..i] + to[i..]
  }

  lemma CopiedEnds(from: seq<Byte>, to: seq<Byte>)
    requires |from| <= |to|
    ensures Copied(from, to, 0) == to && Copied(from, to, |from|) == from + to[|from|..]
  {
  }

  lemma CopiedStep(from: seq<Byte>, to: seq<Byte>, i: nat)
    requires i < |from| && i < |to|
    ensures |Copied(from, to, i)| == |to| && Splice(Copied(from, to, i), i, [from[i]]) == Copied(from, to, i + 1)
  {
  }

  /** No free block among the first `n` of the list has room for `bytes`. */
  ghost predicate NoneFits(headers: map<nat, Header>, chain: seq<nat>, n: nat, bytes: nat)
  {
    forall j :: 0 <= j < n && j < |chain| && chain[j] in headers && headers[chain[j]].free ==>
      headers[chain[j]].size < bytes
  }

  /** `h` is the first block of the list that is free and large enough. */
  ghost predicate FirstFit(headers: map<nat, Header>, chain: seq<nat>, h: nat, bytes: nat)
  {
    exists i :: 0 <= i < |chain| && chain[i] == h && h in headers && headers[h].free && headers[h].size >= bytes &&
      NoneFits(headers, chain, i, bytes)
  }

  /** Adding to a 64-bit address. */
  lemma Wrapped(at: nat, n: int)
    requires at < TWO64
    ensures var r := (at + n) % TWO64;
      0 <= r < TWO64 && (r - n) % TWO64 == at && (0 < n < TWO64 ==> (r >= at <==> at + n < TWO64)) &&
      (n < 0 && -n <= at ==> r < at)
  {
  }

  lemma LinkedBelowHigherBreak(headers: map<nat, Header>, chain: seq<nat>,
                                                  base: nat, brk: nat, higher: nat)
    requires Linked(headers, chain, base, brk) && brk <= higher
    ensures Linked(headers, chain, base, higher)
  {
    forall i | 0 <= i < |chain| ensures Node(headers, chain, base, higher, i) {
      assert Node(headers, chain, base, brk, i);
    }
  }

  lemma EndsLinked(headers: map<nat, Header>, chain: seq<nat>, base: nat, brk: nat)
    requires Linked(headers, chain, base, brk) && base > 0
    ensures chain != [] ==> chain[0] in headers && chain[0] > 0
    ensures chain != [] ==> chain[|chain| - 1] in headers && chain[|chain| - 1] > 0
  {
    if chain != [] { assert Node(headers, chain, base, brk, 0) && Node(headers, chain, base, brk, |chain| - 1); }
  }

  /** A new header, and a link to it from the old tail, if there was one. */
  lemma RestKept(h0: map<nat, Header>, h1: map<nat, Header>, tail: nat, block: nat, bytes: nat)
    requires tail != 0 ==> tail in h0 && tail != block
    requires var h := h0[block := Header(bytes, false, 0)];
      h1 == if tail != 0 then h[tail := h[tail].(next := block)] else h
    ensures block in h1 && h1[block] == Header(bytes, false, 0)
    ensures forall h :: h in h0 && h != block ==>
      h in h1 && h1[h] == h0[h].(next := if h == tail && tail != 0 then block else h0[h].next)
  {
  }

  /** Only the free flags have changed. */
  lemma RelinkedSameShape(h0: map<nat, Header>, h1: map<nat, Header>, chain: seq<nat>,
                                             base: nat, brk: nat)
    requires Linked(h0, chain, base, brk)
    requires forall h :: h in chain && h in h0 ==> h in h1 && h1[h] == h0[h].(free := h1[h].free)
    ensures Linked(h1, chain, base, brk)
  {
    forall i | 0 <= i < |chain| ensures Node(h1, chain, base, brk, i) {
      assert Node(h0, chain, base, brk, i);
    }
  }

  lemma NotInChainYet(headers: map<nat, Header>, chain: seq<nat>, base: nat, brk: nat)
    requires Linked(headers, chain, base, brk)
    ensures brk !in chain
  {
    forall i | 0 <= i < |chain| ensures chain[i] != brk {
      ChainOrdered(headers, chain, base, brk, i, |chain|);
    }
  }

  /** Cutting the last block off. */
  lemma LinkedInit(h0: map<nat, Header>, h1: map<nat, Header>, chain: seq<nat>, base: nat, brk: nat)
    requires Linked(h0, chain, base, brk) && |chain| >= 2 && chain[|chain| - 2] in h0
    requires h1 == h0[chain[|chain| - 2] := h0[chain[|chain| - 2]].(next := 0)]
    ensures Linked(h1, chain[..|chain| - 1], base, brk)
    ensures chain[|chain| - 1] in h0 && chain[|chain| - 1] in h1
    ensures chain[|chain| - 1] !in chain[..|chain| - 1]
  {
    var init := chain[..|chain| - 1];
    assert Node(h0, chain, base, brk, |chain| - 1);
    forall i | 0 <= i < |init| ensures Node(h1, init, base, brk, i) && chain[i] != chain[|chain| - 1] {
      assert Node(h0, chain, base, brk, i);
      ChainOrdered(h0, chain, base, brk, i, |chain| - 1);
      if i + 1 < |init| { ChainOrdered(h0, chain, base, brk, i, |chain| - 2); }
    }
  }

  /** Linking a block that starts at the old end of the list. */
  lemma LinkedAppend(h0: map<nat, Header>, h1: map<nat, Header>, chain: seq<nat>,
                                        base: nat, block: nat, brk: nat)
    requires Linked(h0, chain, base, block) && base <= block
    requires block in h1 && h1[block].next == 0 && EndOf(h1, block) <= brk
    requires forall h :: h in chain && h in h0 ==>
      (h in h1 && h1[h] == h0[h].(next := if h == chain[|chain| - 1] then block else h0[h].next))
    ensures Linked(h1, chain + [block], base, brk)
  {
    forall i | 0 <= i < |chain| + 1 ensures Node(h1, chain + [block], base, brk, i) {
      if i < |chain| { assert Node(h0, chain, base, block, i); }
      if i + 1 < |chain| { ChainOrdered(h0, chain, base, block, i, |chain| - 1); }
    }
  }

  // ------------------------------------------------------------------ whole runs

  /** What a client may ask for; it names the blocks it holds by the slot it keeps their address in. */
  datatype Request =
    | Allocate(bytes: nat)
    | Resize(slot: nat, bytes: nat)
    | Release(slot: nat)
    | Poke(slot: nat, k: nat, v: Byte)

  /** The non-null slots are different live blocks, none of them among `others`. */
  ghost predicate Owned(slots: seq<nat>, live: set<nat>, others: set<nat>)
  {
    (forall i :: 0 <= i < |slots| && slots[i] != 0 ==>
       slots[i] >= HEADER && slots[i] - HEADER in live && slots[i] - HEADER !in others) &&
    (forall i, j :: 0 <= i < j < |slots| && slots[i] == slots[j] ==> slots[i] == 0)
  }

  /** What a client knows of a slot: NULL, or a block of at least the size asked for, with the bytes it has written. */
  datatype Slot = Null | Block(asked: nat, known: map<nat, Byte>)

  /** What a request does to the client's slots, when it succeeds (`ok`) and when it fails. */
  function Apply(model: seq<Slot>, r: Request, ok: bool): seq<Slot>
  {
    match r
    case Allocate(bytes) => model + [if ok && bytes > 0 then Block(bytes, map[]) else Null]
    case Resize(i, bytes) =>
      if i >= |model| || !ok || bytes == 0 then model
      else if model[i].Null? then model[i := Block(bytes, map[])]
      else model[i := Block(if bytes > model[i].asked then bytes else model[i].asked, model[i].known)]
    case Release(i) => if i < |model| then model[i := Null] else model
    case Poke(i, k, v) =>
      if i < |model| && model[i].Block? && k < model[i].asked
      then model[i := Block(model[i].asked, model[i].known[k := v])] else model
  }

  function Replay(script: seq<Request>, oks: seq<bool>): seq<Slot>
    requires |oks| == |script|
  {
    if script == [] then []
    else var n := |script| - 1; Apply(Replay(script[..n], oks[..n]), script[n], oks[n])
  }

  /** A slot that is not released keeps its block, at no smaller size, and every byte but one that is overwritten. */
  ghost predicate SlotKept(s: Slot, s': Slot, r: Request, i: nat)
    requires s.Block?
  {
    s'.Block? && s'.asked >= s.asked &&
    forall k :: k in s.known && !(r.Poke? && r.slot == i && r.k == k) ==> k in s'.known && s'.known[k] == s.known[k]
  }

  lemma ApplyKeepsSlot(model: seq<Slot>, r: Request, ok: bool, i: nat)
    requires i < |model| && model[i].Block? && r != Release(i)
    ensures |Apply(model, r, ok)| >= |model| && SlotKept(model[i], Apply(model, r, ok)[i], r, i)
  {
  }

  /** What one request gives its slot: the size asked for, the byte stored, NULL again. */
  lemma ApplyServes(model: seq<Slot>, r: Request, ok: bool)
    ensures var next := Apply(model, r, ok);
      (r.Allocate? && ok && r.bytes > 0 ==> |next| == |model| + 1 && next[|model|] == Block(r.bytes, map[])) &&
      (r.Resize? && ok && r.bytes > 0 && r.slot < |model| ==> next[r.slot].Block? && next[r.slot].asked >= r.bytes) &&
      (r.Poke? && r.slot < |model| && model[r.slot].Block? && r.k < model[r.slot].asked ==>
         next[r.slot].Block? && r.k in next[r.slot].known && next[r.slot].known[r.k] == r.v) &&
      (r.Release? && r.slot < |model| ==> next[r.slot].Null?)
  {
  }

  /** Over a whole script: what a client stored last at a place of a block that it has not released since is what its
      slot still holds there, and the block is at least as large as it was. */
  lemma {:induction false} LastStoreIsKept(script: seq<Request>, oks: seq<bool>, m: nat, i: nat, k: nat)
    requires m <= |script| == |oks|
    requires var s := Replay(script[..m], oks[..m]); i < |s| && s[i].Block? && k in s[i].known
    requires forall j :: m <= j < |script| ==>
      script[j] != Release(i) && !(script[j].Poke? && script[j].slot == i && script[j].k == k)
    ensures var s, s' := Replay(script[..m], oks[..m]), Replay(script, oks);
      i < |s'| && s'[i].Block? && s'[i].asked >= s[i].asked && k in s'[i].known && s'[i].known[k] == s[i].known[k]
    decreases |script|
  {
    var n := |script| - 1;
    if m == |script| {
      assert script[..m] == script && oks[..m] == oks;
    } else {
      assert Replay(script, oks) == Apply(Replay(script[..n], oks[..n]), script[n], oks[n]);
      hide Apply, Replay;
      assert script[..n][..m] == script[..m] && oks[..n][..m] == oks[..m];
      assert forall j :: m <= j < n ==> script[..n][j] == script[j];
      LastStoreIsKept(script[..n], oks[..n], m, i, k);
      ApplyKeepsSlot(Replay(script[..n], oks[..n]), script[n], oks[n], i);
    }
  }

  /** How far a request may move the break. */
  function Need(r: Request): nat { if r.Allocate? || r.Resize? then HEADER + r.bytes else 0 }

  function NeedAll(script: seq<Request>): nat
  {
    if script == [] then 0 else NeedAll(script[..|script| - 1]) + Need(script[|script| - 1])
  }

  /** The slot `p` and the blocks `c` bear out what the client knows. */
  ghost predicate SlotHolds(p: nat, s: Slot, c: map<nat, seq<Byte>>)
  {
    match s
    case Null => p == 0
    case Block(asked, known) =>
      p >= HEADER && p - HEADER in c && |c[p - HEADER]| >= asked &&
      forall k :: k in known ==> k < asked && c[p - HEADER][k] == known[k]
  }

  ghost predicate Represents(slots: seq<nat>, model: seq<Slot>, c: map<nat, seq<Byte>>)
  {
    |slots| == |model| && forall i :: 0 <= i < |slots| ==> SlotHolds(slots[i], model[i], c)
  }

  /** The blocks of all slots but `i` are unchanged. */
  ghost predicate OthersSame(slots: seq<nat>, i: nat, c: map<nat, seq<Byte>>, d: map<nat, seq<Byte>>)
  {
    forall j :: 0 <= j < |slots| && j != i && slots[j] >= HEADER && slots[j] - HEADER in c ==>
      slots[j] - HEADER in d && d[slots[j] - HEADER] == c[slots[j] - HEADER]
  }

  lemma SlotChanged(slots: seq<nat>, model: seq<Slot>, c: map<nat, seq<Byte>>,
                                       i: nat, p: nat, s: Slot, d: map<nat, seq<Byte>>)
    requires Represents(slots, model, c) && i < |slots| && OthersSame(slots, i, c, d) && SlotHolds(p, s, d)
    ensures Represents(slots[i := p], model[i := s], d)
  {
    var slots', model' := slots[i := p], model[i := s];
    forall j | 0 <= j < |slots| ensures SlotHolds(slots'[j], model'[j], d) {
      assert SlotHolds(slots[j], model[j], c);
    }
  }

  lemma SlotAdded(slots: seq<nat>, model: seq<Slot>, c: map<nat, seq<Byte>>,
                                     p: nat, s: Slot, d: map<nat, seq<Byte>>)
    requires Represents(slots, model, c) && OthersSame(slots, |slots|, c, d) && SlotHolds(p, s, d)
    ensures Represents(slots + [p], model + [s], d)
  {
    var slots', model' := slots + [p], model + [s];
    forall j | 0 <= j < |slots'| ensures SlotHolds(slots'[j], model'[j], d) {
      if j < |slots| { assert SlotHolds(slots[j], model[j], c); }
    }
  }

  /** What the allocator knows at some moment of a run. */
  datatype Moment = Moment(headers: map<nat, Header>, chain: seq<nat>, brk: nat, brkCalls: nat)

  /** No free block fits, and the break cannot move: there is no address space, or the kernel refuses. */
  ghost predicate Refused(m: Moment, bytes: nat, grants: nat -> bool)
  {
    NoneFits(m.headers, m.chain, |m.chain|, bytes) && !(m.brk + HEADER + bytes < TWO64 && grants(m.brkCalls))
  }

  /** Why a request between two moments succeeded or failed. */
  ghost predicate Explained(r: Request, ok: bool, m: Moment, n: Moment, grants: nat -> bool)
  {
    (!ok ==> (r.Allocate? || r.Resize?) && Refused(m, r.bytes, grants)) &&
    (r.Allocate? && r.bytes > 0 && Refused(m, r.bytes, grants) ==> !ok) &&
    m.brk <= n.brk <= m.brk + Need(r) && m.brkCalls <= n.brkCalls &&
    (!ok && m.brk + HEADER + r.bytes < TWO64 ==> n.brkCalls == m.brkCalls + 1)
  }

  ghost predicate AllExplained(script: seq<Request>, oks: seq<bool>, trace: seq<Moment>, grants: nat -> bool)
    ensures AllExplained(script, oks, trace, grants) ==> |oks| == |script| && |trace| == |script| + 1
  {
    |oks| == |script| && |trace| == |script| + 1 &&
    forall i :: 0 <= i < |script| ==> Explained(script[i], oks[i], trace[i], trace[i + 1], grants)
  }

  /** With enough address space, every failed request of a run used up a refusal of the kernel of its own. So a kernel
      that refuses k times makes at most k requests fail, and one that never refuses none. */
  lemma FailuresAreRefusals(script: seq<Request>, oks: seq<bool>, trace: seq<Moment>, grants: nat -> bool,
                            i: nat, j: nat)
    requires AllExplained(script, oks, trace, grants) && trace[0].brk + NeedAll(script) < TWO64
    requires i <= j < |script| && !oks[j]
    ensures !grants(trace[j].brkCalls)
    ensures i < j && !oks[i] ==> trace[i].brkCalls < trace[j].brkCalls
  {
    BreakBelow(script, oks, trace, grants, j);
    assert Explained(script[j], oks[j], trace[j], trace[j + 1], grants);
    if i < j && !oks[i] {
      BreakBelow(script, oks, trace, grants, i);
      assert Explained(script[i], oks[i], trace[i], trace[i + 1], grants);
      CallsGrow(script, oks, trace, grants, i + 1, j);
    }
  }

  lemma {:induction false} CallsGrow(script: seq<Request>, oks: seq<bool>, trace: seq<Moment>, grants: nat -> bool,
                                     i: nat, j: nat)
    requires AllExplained(script, oks, trace, grants) && i <= j <= |script|
    ensures trace[i].brkCalls <= trace[j].brkCalls
    decreases j - i
  {
    if i < j {
      assert Explained(script[i], oks[i], trace[i], trace[i + 1], grants);
      CallsGrow(script, oks, trace, grants, i + 1, j);
    }
  }

  /** The break never gets further than the requests before it may have moved it. */
  lemma {:induction false} BreakBelow(script: seq<Request>, oks: seq<bool>, trace: seq<Moment>, grants: nat -> bool,
                                      i: nat)
    requires AllExplained(script, oks, trace, grants) && i < |script|
    ensures trace[i].brk + Need(script[i]) <= trace[0].brk + NeedAll(script)
    ensures trace[i].brk <= trace[0].brk + NeedAll(script[..i])
  {
    assert script[..i + 1][..i] == script[..i];
    NeedOfPrefix(script, i + 1);
    if i > 0 {
      BreakBelow(script, oks, trace, grants, i - 1);
      assert Explained(script[i - 1], oks[i - 1], trace[i - 1], trace[i], grants);
      assert script[..i][..i - 1] == script[..i - 1];
    }
  }

  /** One request: the client's slots become what it asked for, the blocks of others keep their bytes, and a failure
      has its reason. */
  method Serve(heap: Heap, slots: seq<nat>, r: Request, ghost model: seq<Slot>, ghost others: set<nat>)
    returns (after: seq<nat>, ghost ok: bool)
    requires heap.Valid() && others <= heap.live && Owned(slots, heap.live, others)
    requires Represents(slots, model, heap.Contents()) && Need(r) < TWO64
    modifies heap
    ensures heap.Valid() && others <= heap.live && Owned(after, heap.live, others)
    ensures Represents(after, Apply(model, r, ok), heap.Contents())
    ensures forall h :: h in others ==> heap.Contents()[h] == old(heap.Contents())[h]
    ensures old(heap.brk) <= heap.brk <= old(heap.brk) + Need(r)
    ensures Explained(r, ok, old(heap.Now()), heap.Now(), heap.grants)
  {
    hide Heap.Valid, Heap.Contents, NoneFits, Represents, Owned, SlotHolds;
    match r
    case Allocate(bytes) => after, ok := ServeAllocate(heap, slots, bytes, model, others);
    case Resize(i, bytes) =>
      after, ok := slots, true;
      SameLength(slots, model, heap.Contents());
      if i < |slots| { after, ok := ServeResize(heap, slots, i, bytes, model, others); }
    case Release(i) =>
      after, ok := slots, true;
      SameLength(slots, model, heap.Contents());
      if i < |slots| { after := ServeRelease(heap, slots, i, model, others); }
    case Poke(i, k, v) =>
      after, ok := slots, true;
      SameLength(slots, model, heap.Contents());
      if i < |slots| { ServePoke(heap, slots, i, k, v, model, others); }
  }

  lemma SameLength(slots: seq<nat>, model: seq<Slot>, c: map<nat, seq<Byte>>)
    requires Represents(slots, model, c)
    ensures |slots| == |model|
  {
  }

  method ServeAllocate(heap: Heap, slots: seq<nat>, bytes: nat, ghost model: seq<Slot>, ghost others: set<nat>)
    returns (after: seq<nat>, ghost ok: bool)
    requires heap.Valid() && others <= heap.live && Owned(slots, heap.live, others)
    requires Represents(slots, model, heap.Contents()) && HEADER + bytes < TWO64
    modifies heap
    ensures heap.Valid() && others <= heap.live && Owned(after, heap.live, others)
    ensures Represents(after, Apply(model, Allocate(bytes), ok), heap.Contents())
    ensures forall h :: h in others ==> heap.Contents()[h] == old(heap.Contents())[h]
    ensures old(heap.brk) <= heap.brk <= old(heap.brk) + HEADER + bytes
    ensures Explained(Allocate(bytes), ok, old(heap.Now()), heap.Now(), heap.grants)
  {
    hide Heap.Valid, Heap.Contents, NoneFits, FirstFit, Represents;
    ghost var c := heap.Contents();
    var p, err := heap.Alloc(bytes);
    after, ok := slots + [p], err == Ok;
    ghost var d := heap.Contents();
    assert forall h :: h in c.Keys ==> h in d && d[h] == c[h] by {
      if p != 0 { assert forall h :: h in c ==> h in d - {p - HEADER}; }
    }
    ghost var s := if ok && bytes > 0 then Block(bytes, map[]) else Null;
    SlotAdded(slots, model, c, p, s, d);
  }

  method ServeResize(heap: Heap, slots: seq<nat>, i: nat, bytes: nat, ghost model: seq<Slot>, ghost others: set<nat>)
    returns (after: seq<nat>, ghost ok: bool)
    requires heap.Valid() && others <= heap.live && Owned(slots, heap.live, others) && i < |slots|
    requires Represents(slots, model, heap.Contents()) && HEADER + bytes < TWO64
    modifies heap
    ensures heap.Valid() && others <= heap.live && Owned(after, heap.live, others)
    ensures Represents(after, Apply(model, Resize(i, bytes), ok), heap.Contents())
    ensures forall h :: h in others ==> heap.Contents()[h] == old(heap.Contents())[h]
    ensures old(heap.brk) <= heap.brk <= old(heap.brk) + HEADER + bytes
    ensures Explained(Resize(i, bytes), ok, old(heap.Now()), heap.Now(), heap.grants)
  {
    hide Heap.Valid, Heap.Contents, NoneFits, FirstFit, Represents;
    ghost var c := heap.Contents();
    SlotOf(slots, model, c, i);
    var buf := slots[i];
    var p, err := heap.Realloc(buf, bytes);
    ghost var d := heap.Contents();
    after, ok := slots, err == Ok;
    if p != 0 {
      after := slots[i := p];
      if p != buf {
        assert forall h :: h in c && h != buf - HEADER ==> h in (c - {buf - HEADER});
        assert forall h :: h in d - {p - HEADER} ==> h in d && d[h] == (d - {p - HEADER})[h];
      }
      ghost var s := Apply(model, Resize(i, bytes), true)[i];
      assert SlotHolds(p, s, d);
      SlotChanged(slots, model, c, i, p, s, d);
    }
  }

  lemma SlotOf(slots: seq<nat>, model: seq<Slot>, c: map<nat, seq<Byte>>, i: nat)
    requires Represents(slots, model, c) && i < |slots|
    ensures |slots| == |model| && SlotHolds(slots[i], model[i], c)
  {
  }

  method ServeRelease(heap: Heap, slots: seq<nat>, i: nat, ghost model: seq<Slot>, ghost others: set<nat>)
    returns (after: seq<nat>)
    requires heap.Valid() && others <= heap.live && Owned(slots, heap.live, others) && i < |slots|
    requires Represents(slots, model, heap.Contents())
    modifies heap
    ensures heap.Valid() && others <= heap.live && Owned(after, heap.live, others)
    ensures Represents(after, Apply(model, Release(i), true), heap.Contents())
    ensures forall h :: h in others ==> heap.Contents()[h] == old(heap.Contents())[h]
    ensures heap.brk == old(heap.brk) && heap.brkCalls >= old(heap.brkCalls)
  {
    hide Heap.Valid, Heap.Contents, Represents;
    ghost var c := heap.Contents();
    SlotOf(slots, model, c, i);
    heap.Free(slots[i]);
    after := slots[i := 0];
    SlotChanged(slots, model, c, i, 0, Null, heap.Contents());
  }

  method ServePoke(heap: Heap, slots: seq<nat>, i: nat, k: nat, v: Byte, ghost model: seq<Slot>, ghost others: set<nat>)
    requires heap.Valid() && others <= heap.live && Owned(slots, heap.live, others) && i < |slots|
    requires Represents(slots, model, heap.Contents())
    modifies heap`mem
    ensures heap.Valid() && Represents(slots, Apply(model, Poke(i, k, v), true), heap.Contents())
    ensures forall h :: h in others ==> heap.Contents()[h] == old(heap.Contents())[h]
  {
    hide Heap.Valid, Heap.Contents, Represents;
    ghost var c := heap.Contents();
    SlotOf(slots, model, c, i);
    if slots[i] == 0 { return; }
    ghost var h := slots[i] - HEADER;
    heap.SizeOf(h);
    if k < heap.headers[slots[i] - HEADER].size {
      heap.Store(slots[i] - HEADER, k, v);
      ghost var s := if k < model[i].asked then Block(model[i].asked, model[i].known[k := v]) else model[i];
      Poked(c[h], k, v);
      assert SlotHolds(slots[i], s, heap.Contents());
      SlotChanged(slots, model, c, i, slots[i], s, heap.Contents());
      assert slots[i := slots[i]] == slots;
      assert k >= model[i].asked ==> model[i := model[i]] == model;
    }
  }

  lemma Poked(b: seq<Byte>, k: nat, v: Byte)
    requires k < |b|
    ensures Splice(b, k, [v]) == b[k := v]
  {
  }

  /** Every run: whatever one client asks for, in any order, its slots are what its script makes of them, with every
      byte it has stored, across all later growing, moving and freeing; every block that was live before keeps its
      bytes; and with enough address space and a kernel that grants every change of the break, nothing fails. */
  method RunClient(heap: Heap, script: seq<Request>)
    returns (slots: seq<nat>, ghost oks: seq<bool>, ghost trace: seq<Moment>)
    requires heap.Valid()
    requires forall i :: 0 <= i < |script| ==> Need(script[i]) < TWO64
    modifies heap
    ensures heap.Valid() && old(heap.brk) <= heap.brk <= old(heap.brk) + NeedAll(script)
    ensures |oks| == |script| && Represents(slots, Replay(script, oks), heap.Contents())
    ensures AllExplained(script, oks, trace, heap.grants)
    ensures trace[0] == old(heap.Now()) && trace[|script|] == heap.Now()
    ensures (heap.Generous() && old(heap.brk) + NeedAll(script) < TWO64) ==> AllOk(oks)
    ensures old(heap.live) <= heap.live && Owned(slots, heap.live, old(heap.live))
    ensures forall h :: h in old(heap.live) ==> heap.Contents()[h] == old(heap.Contents())[h]
  {
    hide Heap.Valid, Heap.Contents, Represents, Apply, Explained, AllExplained;
    slots, oks, trace := [], [], [heap.Now()];
    ghost var others, c := heap.live, heap.Contents();
    NothingHeld(heap.Contents(), heap.Now(), heap.grants);
    assert script[..0] == [];
    for i := 0 to |script|
      invariant heap.Valid() && old(heap.brk) <= heap.brk <= old(heap.brk) + NeedAll(script[..i])
      invariant |oks| == i && Represents(slots, Replay(script[..i], oks), heap.Contents())
      invariant AllExplained(script[..i], oks, trace, heap.grants)
      invariant trace[0] == old(heap.Now()) && trace[i] == heap.Now()
      invariant others <= heap.live && Owned(slots, heap.live, others)
      invariant forall h :: h in others ==> heap.Contents()[h] == c[h]
    {
      ghost var ok;
      ghost var model := Replay(script[..i], oks);
      slots, ok := Serve(heap, slots, script[i], model, others);
      RunStep(script, oks, i, ok);
      assert script[..i + 1] == script[..i] + [script[i]];
      ExplainedSoFar(script[..i], oks, trace, heap.grants, script[i], ok, heap.Now());
      oks, trace := oks + [ok], trace + [heap.Now()];
    }
    assert script[..|script|] == script;
    if heap.Generous() && old(heap.brk) + NeedAll(script) < TWO64 {
      forall i | 0 <= i < |oks| ensures oks[i] {
        if !oks[i] { FailuresAreRefusals(script, oks, trace, heap.grants, i, i); }
      }
    }
  }

  lemma ExplainedSoFar(script: seq<Request>, oks: seq<bool>, trace: seq<Moment>, grants: nat -> bool,
                       r: Request, ok: bool, m: Moment)
    requires AllExplained(script, oks, trace, grants) && Explained(r, ok, trace[|script|], m, grants)
    ensures AllExplained(script + [r], oks + [ok], trace + [m], grants)
  {
    hide Explained;
  }

  predicate AllOk(oks: seq<bool>) { forall i :: 0 <= i < |oks| ==> oks[i] }

  lemma NothingHeld(c: map<nat, seq<Byte>>, m: Moment, grants: nat -> bool)
    ensures Represents([], [], c) && AllExplained([], [], [m], grants)
  {
  }

  /** One request further into a run. */
  lemma RunStep(script: seq<Request>, oks: seq<bool>, i: nat, ok: bool)
    requires i < |script| && |oks| == i
    ensures NeedAll(script[..i + 1]) == NeedAll(script[..i]) + Need(script[i]) <= NeedAll(script)
    ensures Replay(script[..i + 1], oks + [ok]) == Apply(Replay(script[..i], oks), script[i], ok)
  {
    hide Apply;
    var more := script[..i + 1];
    assert more[..i] == script[..i] && more[i] == script[i];
    assert (oks + [ok])[..i] == oks;
    NeedOfPrefix(script, i + 1);
  }

  lemma {:induction false} NeedOfPrefix(script: seq<Request>, i: nat)
    requires i <= |script|
    ensures NeedAll(script[..i]) <= NeedAll(script)
    decreases |script| - i
  {
    if i < |script| {
      assert script[..i + 1][..i] == script[..i];
      NeedOfPrefix(script, i + 1);
    } else {
      assert script[..i] == script;
    }
  }
}
