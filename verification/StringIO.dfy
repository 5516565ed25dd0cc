/** Printing a String and scanning a word into one (src/ministd_string.c), and `fscans` (src/ministd_fmt.c). */
module StringIO {
  import opened Prelude
  import opened Strings
  import opened Files
  import opened LineIO

  /** `s_fprint`. */
  method SFprint(s: String, file: File) returns (n: nat, err: Err, ghost taken: nat)
    requires s.Sized() && file.Valid() && file.Writable() && s !in file.Repr
    modifies file.Repr
    ensures file.Valid() && file.ReadSideKept() && taken <= |s.Contents()|
    ensures file.Output() == old(file.Output()) + s.Contents()[..taken]
    ensures n == if err == Ok then |s.Contents()| else 0
    ensures err == Ok ==> taken == |s.Contents()|
    ensures file.Bufferless() ==>
      var end := file.FlushFrom(old(file.Calls()), |s.Contents()|);
      taken == |s.Contents()| - end.left && file.Calls() == end.calls &&
      err == if end.left > 0 && end.err == Ok then Io else end.err
    ensures file.Exact() && taken == |s.Contents()| ==> err == Ok
    ensures file.Progressing() ==> err == Ok
  {
    n, err, taken := WriteAll(s.block[..s.len], file);
  }

  /** How a word comes to lie in a buffer that is filled in chunks: every chunk but the last is cut off by the
      terminator `fgets` wrote, which stays in place. `room` is the size of the first chunk, `next` of the second;
      later ones double. A chunk of size 1 holds only its terminator. */
  function Chunked(w: seq<Byte>, room: nat, next: nat): (r: seq<Byte>)
    requires room > 0 && next > 0
    decreases |w|, if room > 1 then 0 else if next > 1 then 1 else 2
  {
    if room > 1 && |w| < room then w
    else if room == 1 then [NUL] + Chunked(w, next, 2 * next)
    else w[..room - 1] + ([NUL] + Chunked(w[room - 1..], next, 2 * next))
  }

  /** Dropping the terminators gives the word back, whatever its length. */
  lemma {:induction false} ChunksSpellTheWord(w: seq<Byte>, room: nat, next: nat)
    requires room > 0 && next > 0 && NUL !in w
    ensures Without(Chunked(w, room, next), NUL) == w
    decreases |w|, if room > 1 then 0 else if next > 1 then 1 else 2
  {
    hide Without;
    if room == 1 {
      ChunksSpellTheWord(w, next, 2 * next);
      AfterTerminator([], Chunked(w, next, 2 * next));
    } else if |w| >= room {
      ChunksSpellTheWord(w[room - 1..], next, 2 * next);
      AfterTerminator(w[..room - 1], Chunked(w[room - 1..], next, 2 * next));
      assert w[..room - 1] + w[room - 1..] == w;
    }
  }

  /** Where the terminators are: at the end of every chunk that the word does not end in, where chunk `k` (from 0) ends
      `next * (2^k - 1)` bytes after the first. */
  lemma {:induction false} TerminatorsEndChunks(w: seq<Byte>, room: nat, next: nat, i: nat)
    requires room > 0 && next > 0 && NUL !in w && i < |Chunked(w, room, next)|
    ensures Chunked(w, room, next)[i] == NUL <==> exists k :: i + 1 == room + Doubled(next, k) - next
    decreases |w|, if room > 1 then 0 else if next > 1 then 1 else 2
  {
    ChunkedStep(w, room, next);
    var c := Chunked(w, room, next);
    assert Doubled(next, 0) == next;
    forall k ensures Doubled(next, k) >= next && (k > 0 ==> Doubled(next, k) >= 2 * next) { DoublesUp(next, k); }
    if room > 1 && |w| < room {
    } else if i < room {
      assert i + 1 < room ==> c[i] == w[i] && w[i] in w && forall k :: i + 1 != room + Doubled(next, k) - next;
      assert i + 1 == room ==> c[i] == NUL && i + 1 == room + Doubled(next, 0) - next;
    } else {
      TerminatorsEndChunks(w[room - 1..], next, 2 * next, i - room);
      var more := Chunked(w[room - 1..], next, 2 * next);
      assert c[i] == more[i - room];
      forall k: nat ensures i + 1 == room + Doubled(next, k + 1) - next <==>
          i - room + 1 == next + Doubled(2 * next, k) - 2 * next {
        DoubledOnce(next, k);
      }
      if k: nat :| i + 1 == room + Doubled(next, k) - next {
        assert k > 0;
        DoubledOnce(next, k - 1);
        assert i - room + 1 == next + Doubled(2 * next, k - 1) - 2 * next;
      }
    }
  }

  lemma {:induction false} DoublesUp(g: nat, k: nat)
    ensures Doubled(g, k) >= g && (k > 0 ==> Doubled(g, k) >= 2 * g)
  {
    if k > 0 { DoublesUp(g, k - 1); }
  }

  lemma AfterTerminator(head: seq<Byte>, rest: seq<Byte>)
    requires NUL !in head
    ensures Without(head + ([NUL] + rest), NUL) == head + Without(rest, NUL)
    ensures [] + ([NUL] + rest) == [NUL] + rest
  {
    assert ([NUL] + rest)[1..] == rest;
    WithoutConcat(head, [NUL] + rest, NUL);
  }

  /** The stored text is the word itself exactly when the word and its terminator fit the first chunk; as a C string
      it never reaches beyond that chunk. */
  lemma ChunkedIsWholeExactlyIfItFits(w: seq<Byte>, room: nat, next: nat, tail: seq<Byte>)
    requires room > 0 && next > 0 && NUL !in w
    ensures Chunked(w, room, next) == w <==> |w| < room && room > 1
    ensures CString(Chunked(w, room, next) + [NUL] + tail) == w[..Min(|w|, room - 1)]
  {
    var c := Chunked(w, room, next);
    var n := Min(|w|, room - 1);
    assert w[..|w|] == w;
    assert (c + [NUL] + tail)[..n] == w[..n] && (c + [NUL] + tail)[n] == NUL;
    CStringUnique(c + [NUL] + tail, w[..n]);
  }

  /** The next word of a stream. */
  function NextWord(s: seq<Byte>): (w: seq<Byte>)
    ensures NUL !in w
  {
    var i := BlankEnd(s, 0);
    s[i..WordEnd(s, i)]
  }

  /** What is left after it. */
  function AfterWord(s: seq<Byte>): seq<Byte> { s[WordEnd(s, BlankEnd(s, 0))..] }

  /** A stream is blanks, that is bytes up to the space, then the next word, which holds none, then the rest, which is
      empty or starts with a blank. */
  lemma StreamIsBlanksWordRest(s: seq<Byte>) returns (blanks: seq<Byte>)
    ensures s == blanks + NextWord(s) + AfterWord(s)
    ensures forall k :: 0 <= k < |blanks| ==> blanks[k] <= 32
    ensures forall k :: 0 <= k < |NextWord(s)| ==> NextWord(s)[k] > 32
    ensures AfterWord(s) != [] ==> AfterWord(s)[0] <= 32
    ensures NextWord(s) == [] ==> AfterWord(s) == []
  {
    blanks := s[..BlankEnd(s, 0)];
  }

  lemma {:induction false} WordEndOfTail(s: seq<Byte>, k: nat, i: nat)
    requires k <= i <= |s|
    ensures WordEnd(s[k..], i - k) == WordEnd(s, i) - k
    decreases |s| - i
  {
    if i < |s| && !IsBlank(s[i]) { WordEndOfTail(s, k, i + 1); }
  }

  /** Having read `used` bytes into a word, that many bytes of it are gone. */
  lemma {:induction false} WordContinues(s: seq<Byte>, used: nat)
    requires BlankEnd(s, 0) <= used < WordEnd(s, BlankEnd(s, 0))
    ensures NextWord(s[used..]) == NextWord(s)[used - BlankEnd(s, 0)..]
    ensures AfterWord(s[used..]) == AfterWord(s)
  {
    var i := BlankEnd(s, 0);
    assert !IsBlank(s[used..][0]);
    WordEndOfTail(s, used, used);
    WordEndWithin(s, i, used);
  }

  lemma {:induction false} WordEndWithin(s: seq<Byte>, i: nat, k: nat)
    requires i <= |s| && i <= k <= WordEnd(s, i)
    ensures WordEnd(s, k) == WordEnd(s, i)
    decreases k - i
  {
    if i < k { WordEndWithin(s, i + 1, k); }
  }

  /** `t` lies at `off` as a C string. */
  ghost predicate Stored(block: seq<Byte>, off: nat, t: seq<Byte>)
  {
    off + |t| < |block| && block[off..off + |t|] == t && block[off + |t|] == NUL
  }

  /** `fgets` into part of a heap block. When the word does not fit, `cap - 1` bytes of it are stored. */
  method FgetsBlock(block: seq<Byte>, off: nat, cap: nat, file: File)
    returns (r: seq<Byte>, whole: bool, err: Err)
    requires file.Valid() && file.Readable() && off + cap <= |block| && cap > 0
    modifies file.Repr
    ensures file.Valid() && file.Output() == old(file.Output())
    ensures |r| == |block| && r[..off] == block[..off]
    ensures err != Ok ==> !whole
    ensures err == Ok && cap == 1 ==> !whole && r[off] == NUL && file.Stream() == old(file.Stream())
    ensures err == Ok && cap > 1 ==> whole == (|NextWord(old(file.Stream()))| < cap)
    ensures whole ==> Stored(r, off, NextWord(old(file.Stream()))) && file.Stream() == AfterWord(old(file.Stream()))
    ensures err == Ok && cap > 1 && !whole ==> Stored(r, off, NextWord(old(file.Stream()))[..cap - 1])
    ensures err == Ok && cap > 1 && !whole ==> NextWord(file.Stream()) == NextWord(old(file.Stream()))[cap - 1..]
    ensures err == Ok && cap > 1 && !whole ==> AfterWord(file.Stream()) == AfterWord(old(file.Stream()))
    ensures file.Reliable() ==> err == Ok
  {
    hide File.Valid, File.Stream, File.Output, File.Below, File.Readable, File.Reliable;
    var buf := new Byte[|block|](i requires 0 <= i < |block| => block[i]);
    assert buf[..] == block;
    ghost var used;
    ghost var s := file.Stream();
    whole, err, used := Fgets(buf, off, cap, file);
    r := buf[..];
    assert forall k :: 0 <= k < off ==> r[k] == block[k];
    if err == Ok && cap > 1 {
      hide NextWord, AfterWord, Stored;
      WordStored(s, used, r, off, cap);
    }
  }

  lemma SliceOfSlice(s: seq<Byte>, i: nat, j: nat, k: nat)
    requires i <= j <= k <= |s|
    ensures s[i..k][..j - i] == s[i..j]
  {
  }

  lemma BeforeTerminator(r: seq<Byte>, off: nat, t: seq<Byte>)
    requires off + |t| < |r| && r[off..off + |t| + 1] == t + [NUL]
    ensures Stored(r, off, t)
  {
    var n := |t|;
    assert r[off..off + n] == r[off..off + n + 1][..n] == t;
    assert r[off + n] == r[off..off + n + 1][n];
  }

  /** What a successful `fgets` means for the word it has read. */
  lemma {:induction false} WordStored(s: seq<Byte>, used: nat, r: seq<Byte>, off: nat, cap: nat)
    requires off + cap <= |r| && cap > 1
    requires var i := BlankEnd(s, 0);
      used == Min(WordEnd(s, i), i + cap - 1) && r[off..off + used - i + 1] == s[i..used] + [NUL]
    ensures var w := NextWord(s);
      var whole := used == WordEnd(s, BlankEnd(s, 0));
      whole == (|w| < cap) && Stored(r, off, if whole then w else w[..cap - 1]) &&
      if whole then s[used..] == AfterWord(s)
      else NextWord(s[used..]) == w[cap - 1..] && AfterWord(s[used..]) == AfterWord(s)
  {
    var i := BlankEnd(s, 0);
    BeforeTerminator(r, off, s[i..used]);
    SliceOfSlice(s, i, used, WordEnd(s, i));
    hide Stored, WordEnd, BlankEnd;
    if used < WordEnd(s, i) { WordContinues(s, used); }
  }

  /** `s_fscan_into`: the next word is appended chunk by chunk, the string doubling between chunks. */
  method SFscanInto(s: String, file: File) returns (err: Err)
    requires s.Valid() && file.Valid() && file.Readable() && s !in file.Repr
    modifies s, file.Repr
    ensures s.Valid() && file.Valid() && file.Output() == old(file.Output())
    ensures err == Ok ==> file.Stream() == AfterWord(old(file.Stream()))
    ensures var cap := if old(s.len == s.cap) then 2 * old(s.cap) else old(s.cap);
      err == Ok ==>
        s.Contents() == old(s.Contents()) + Chunked(NextWord(old(file.Stream())), cap - old(s.len), cap)
    ensures err != Ok ==> old(s.Contents()) <= s.Contents()
    ensures file.Reliable() ==> err == Ok
  {
    hide File.Valid, File.Stream, File.Output, File.Below, File.Readable, File.Reliable;
    hide NextWord, AfterWord, Chunked, ChunkRead;
    if s.len == s.cap {
      s.Reserve(s.cap + s.cap);
    }
    assert s.Contents() == old(s.Contents());
    ghost var w, after := NextWord(file.Stream()), AfterWord(file.Stream());
    ghost var total := s.Contents() + Chunked(w, s.cap - s.len, s.cap);
    var whole;
    whole, err := ReadChunk(s, file, w, after);
    while !whole && err == Ok
      invariant s.Valid() && file.Valid() && file.Output() == old(file.Output())
      invariant old(s.Contents()) <= s.Contents() && s.len < s.cap && NUL !in w
      invariant ChunkRead(s.block, s.len, s.cap, file, w, after, whole, err)
      invariant err == Ok ==> total == s.Contents() + Chunked(w, s.cap - s.len, s.cap)
      invariant file.Reliable() ==> err == Ok
      decreases !whole && err == Ok, |w|, if s.cap - s.len > 1 then 0 else if s.cap > 1 then 1 else 2
    {
      whole, err, w := NextChunk(s, file, w, after, total);
    }
    if err == Ok {
      ChunkedStep(w, s.cap - s.len, s.cap);
      LastChunk(s.block, s.len, s.cap, file, w, after);
      FinishChunk(s, file, w, after);
    }
  }

  /** What a call of `fgets` on `block[len..cap]` leaves behind when `w` was to be read. */
  ghost predicate ChunkRead(block: seq<Byte>, len: nat, cap: nat, file: File,
                            w: seq<Byte>, after: seq<Byte>, whole: bool, err: Err)
    reads file, file.Repr
    requires file.Valid() && len < cap <= |block|
  {
    var room := cap - len;
    (whole ==> err == Ok && 1 < room && |w| < room && Stored(block, len, w) && file.Stream() == after) &&
    (err == Ok && !whole ==>
       (room == 1 || room <= |w|) && Stored(block, len, w[..room - 1]) &&
       NextWord(file.Stream()) == w[room - 1..] && AfterWord(file.Stream()) == after)
  }

  method ReadChunk(s: String, file: File, ghost w: seq<Byte>, ghost after: seq<Byte>) returns (whole: bool, err: Err)
    requires s.Valid() && file.Valid() && file.Readable() && s !in file.Repr && s.len < s.cap
    requires w == NextWord(file.Stream()) && after == AfterWord(file.Stream())
    modifies s`block, file.Repr
    ensures s.Valid() && file.Valid() && file.Output() == old(file.Output())
    ensures s.Contents() == old(s.Contents())
    ensures ChunkRead(s.block, s.len, s.cap, file, w, after, whole, err)
    ensures err != Ok ==> !whole
    ensures file.Reliable() ==> err == Ok
  {
    hide File.Valid, File.Stream, File.Output, File.Below, File.Readable, File.Reliable, NextWord, AfterWord, ChunkRead;
    var block;
    block, whole, err := ReadBlock(s.block, s.len, s.cap - s.len, file, w, after);
    s.block := block;
  }

  /** One round of the loop: the cut off chunk is closed, the string doubles, and the next chunk is read. */
  method NextChunk(s: String, file: File, ghost w: seq<Byte>, ghost after: seq<Byte>, ghost total: seq<Byte>)
    returns (whole: bool, err: Err, ghost tail: seq<Byte>)
    requires s.Valid() && file.Valid() && file.Readable() && s !in file.Repr && s.len < s.cap && NUL !in w
    requires ChunkRead(s.block, s.len, s.cap, file, w, after, false, Ok)
    requires total == s.Contents() + Chunked(w, s.cap - s.len, s.cap)
    modifies s, file.Repr
    ensures s.Valid() && file.Valid() && file.Output() == old(file.Output())
    ensures old(s.Contents()) <= s.Contents() && s.len == old(s.cap) && s.cap == 2 * old(s.cap)
    ensures |tail| == |w| - (old(s.cap - s.len) - 1) && tail == w[|w| - |tail|..]
    ensures ChunkRead(s.block, s.len, s.cap, file, tail, after, whole, err) && (err != Ok ==> !whole)
    ensures total == s.Contents() + Chunked(tail, s.cap - s.len, s.cap)
    ensures file.Reliable() ==> err == Ok
  {
    hide File.Valid, File.Stream, File.Output, File.Below, File.Readable, File.Reliable;
    hide NextWord, AfterWord, Chunked, ChunkRead;
    CutChunk(s.block, s.len, s.cap, file, w, after);
    ghost var room, before := s.cap - s.len, s.Contents();
    ghost var chunk := w[..room - 1] + [NUL];
    tail := w[room - 1..];
    ChunkedStep(w, room, s.cap);
    s.len := s.cap;
    assert s.Contents() == before + chunk;
    s.Reserve(s.cap + s.cap);
    assert s.Contents() == before + chunk;
    assert before + (chunk + Chunked(tail, s.len, s.cap)) == (before + chunk) + Chunked(tail, s.len, s.cap);
    whole, err := ReadChunk(s, file, tail, after);
  }

  /** The free part is full: chunk and terminator become part of the text once its length is the capacity. */
  lemma CutChunk(block: seq<Byte>, len: nat, cap: nat, file: File, w: seq<Byte>, after: seq<Byte>)
    requires file.Valid() && len < cap <= |block| && ChunkRead(block, len, cap, file, w, after, false, Ok)
    ensures var room := cap - len;
      (room == 1 || room <= |w|) && block[..cap] == block[..len] + (w[..room - 1] + [NUL]) &&
      NextWord(file.Stream()) == w[room - 1..] && AfterWord(file.Stream()) == after
  {
    hide File.Valid, File.Stream, NextWord, AfterWord;
    hide Stored;
    TextAndTerminator(block, len, w[..cap - len - 1]);
  }

  lemma TextAndTerminator(block: seq<Byte>, len: nat, t: seq<Byte>)
    requires Stored(block, len, t)
    ensures block[..len + |t| + 1] == block[..len] + (t + [NUL])
  {
    assert block[len..len + |t| + 1] == t + [NUL];
  }

  lemma LastChunk(block: seq<Byte>, len: nat, cap: nat, file: File, w: seq<Byte>, after: seq<Byte>)
    requires file.Valid() && len < cap <= |block| && ChunkRead(block, len, cap, file, w, after, true, Ok)
    ensures file.Stream() == after && 1 < cap - len && |w| < cap - len && Stored(block, len, w)
  {
    hide File.Valid, File.Stream, NextWord, AfterWord;
  }

  lemma ChunkedStep(w: seq<Byte>, room: nat, next: nat)
    requires room > 0 && next > 0
    ensures room == 1 || room <= |w| ==>
      Chunked(w, room, next) == (w[..room - 1] + [NUL]) + Chunked(w[room - 1..], next, 2 * next)
    ensures 1 < room && |w| < room ==> Chunked(w, room, next) == w
  {
    if room == 1 { assert w[..0] + [NUL] == [NUL] && w[0..] == w; }
  }

  /** Measuring the last chunk. */
  method FinishChunk(s: String, file: File, ghost w: seq<Byte>, ghost after: seq<Byte>)
    requires s.Valid() && file.Valid() && s.len < s.cap && NUL !in w
    requires ChunkRead(s.block, s.len, s.cap, file, w, after, true, Ok)
    modifies s`len
    ensures s.Valid() && s.Contents() == old(s.Contents()) + w
  {
    hide File.Valid, File.Stream, File.Output, File.Below, File.Readable, File.Reliable, NextWord, AfterWord, Stored;
    LastChunk(s.block, s.len, s.cap, file, w, after);
    hide ChunkRead;
    StoredText(s.block, s.len, s.cap, w);
    var n := Strnlen(s.block[s.len..s.cap], s.cap - s.len);
    s.len := s.len + n;
  }

  /** The C string of a chunk that holds a whole word is the word. */
  lemma StoredText(block: seq<Byte>, len: nat, cap: nat, w: seq<Byte>)
    requires len + |w| < cap <= |block| && Stored(block, len, w) && NUL !in w
    ensures CString(block[len..cap][..cap - len]) == w && block[..len + |w|] == block[..len] + w
  {
    assert block[len..cap][..cap - len] == block[len..cap];
    assert block[len..cap][..|w|] == w;
    CStringUnique(block[len..cap], w);
  }

  /** `fscans`: a block of 128 bytes that doubles until the word has been read; the result is used as a C string. */
  method Fscans(file: File) returns (r: seq<Byte>, err: Err)
    requires file.Valid() && file.Readable()
    modifies file.Repr
    ensures file.Valid() && file.Output() == old(file.Output())
    ensures err == Ok ==> var w := NextWord(old(file.Stream()));
      file.Stream() == AfterWord(old(file.Stream())) && Chunked(w, 128, 128) + [NUL] <= r &&
      CString(r) == w[..Min(|w|, 127)] && (CString(r) == w <==> |w| < 128)
    ensures err != Ok ==> r == []
    ensures file.Reliable() ==> err == Ok
  {
    hide File.Valid, File.Stream, File.Output, File.Below, File.Readable, File.Reliable;
    hide NextWord, AfterWord, Chunked, ChunkRead;
    ghost var w, after, len := NextWord(file.Stream()), AfterWord(file.Stream()), 0;
    ghost var word, total := w, Chunked(w, 128, 128);
    var cap, whole := 128, false;
    r := seq(128, _ => 0);
    r, whole, err := ReadBlock(r, 0, cap, file, w, after);
    assert r[..0] + total == total;
    while !whole && err == Ok
      invariant file.Valid() && file.Output() == old(file.Output())
      invariant 0 <= len < cap == |r| && cap - len >= 128 && NUL !in w
      invariant ChunkRead(r, len, cap, file, w, after, whole, err)
      invariant err == Ok ==> total == r[..len] + Chunked(w, cap - len, cap)
      invariant file.Reliable() ==> err == Ok
      decreases !whole && err == Ok, |w|
    {
      TextAfterCut(r, len, cap, file, w, after, total);
      w := w[cap - len - 1..];
      ghost var copied, before := 0, r[..cap];
      r, copied := StdRealloc(r, 2 * cap);
      assert r[..cap] == before;
      r, whole, err := ReadBlock(r, cap, cap, file, w, after);
      len, cap := cap, 2 * cap;
    }
    if err != Ok { return [], err; }
    TextAtEnd(r, len, cap, file, w, after, total);
    ChunkedIsWholeExactlyIfItFits(word, 128, 128, r[|total| + 1..]);
  }

  /** Closing a chunk moves it from what is to come to what is stored. */
  lemma TextAfterCut(r: seq<Byte>, len: nat, cap: nat, file: File,
                                        w: seq<Byte>, after: seq<Byte>, total: seq<Byte>)
    requires file.Valid() && len < cap == |r| && ChunkRead(r, len, cap, file, w, after, false, Ok)
    requires total == r[..len] + Chunked(w, cap - len, cap)
    ensures cap - len - 1 <= |w| && total == r[..cap] + Chunked(w[cap - len - 1..], cap, 2 * cap)
    ensures NextWord(file.Stream()) == w[cap - len - 1..] && AfterWord(file.Stream()) == after
  {
    hide File.Valid, File.Stream, NextWord, AfterWord, Chunked, ChunkRead;
    CutChunk(r, len, cap, file, w, after);
    ChunkedStep(w, cap - len, cap);
  }

  lemma TextAtEnd(r: seq<Byte>, len: nat, cap: nat, file: File,
                                     w: seq<Byte>, after: seq<Byte>, total: seq<Byte>)
    requires file.Valid() && len < cap == |r| && ChunkRead(r, len, cap, file, w, after, true, Ok)
    requires total == r[..len] + Chunked(w, cap - len, cap)
    ensures |total| < |r| && total + [NUL] <= r && r == total + [NUL] + r[|total| + 1..] && file.Stream() == after
  {
    hide File.Valid, File.Stream, NextWord, AfterWord, Chunked, ChunkRead;
    LastChunk(r, len, cap, file, w, after);
    ChunkedStep(w, cap - len, cap);
    assert r[..|total|] == total && r[|total|] == NUL;
  }

  method ReadBlock(block: seq<Byte>, len: nat, room: nat, file: File, ghost w: seq<Byte>, ghost after: seq<Byte>)
    returns (r: seq<Byte>, whole: bool, err: Err)
    requires file.Valid() && file.Readable() && room > 0 && len + room <= |block|
    requires w == NextWord(file.Stream()) && after == AfterWord(file.Stream())
    modifies file.Repr
    ensures file.Valid() && file.Output() == old(file.Output())
    ensures |r| == |block| && r[..len] == block[..len]
    ensures ChunkRead(r, len, len + room, file, w, after, whole, err)
    ensures err != Ok ==> !whole
    ensures file.Reliable() ==> err == Ok
  {
    hide File.Valid, File.Stream, File.Output, File.Below, File.Readable, File.Reliable, NextWord, AfterWord;
    r, whole, err := FgetsBlock(block, len, room, file);
  }
}
