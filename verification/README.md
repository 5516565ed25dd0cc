# ministdlib, verified

ministdlib is a freestanding C runtime: beneath the system calls lie a few small stateful algorithms. This project
models nine of them in Dafny and proves what each keeps over every run. Source paths are relative to the root of the
ministdlib repository.

- `Files.dfy`, `LineIO.dfy`, `StringIO.dfy`: the FILE stack. Pushback, buffered and locked layers, raw descriptors and
  string files can be stacked in any order. Reading refines one byte stream, and writing conserves bytes, whatever the
  kernel answers. A write reports `taken` as a ghost result: the bytes the file now answers for.
- `LockedRuns.dfy`: threads that share a LockedFile over a BufferedFile, interleaved at every access to memory.
- `Atomics.dfy`: the read-modify-write operations and their compare-exchange loops, interleaved.
- `SbrkHeap.dfy`: the first-fit allocator over the program break. The client's view is a map from live blocks to bytes.
- `Strings.dfy`: the growable String and its amortised cost.
- `Numerals.dfy`, `Fmt.dfy`, `Scan.dfy`, `RoundTrip.dfy`: the integer printers and scanners, and that scanning undoes
  printing.
- `FixedPoint.dfy`: fixed-point division and grouped printing from `examples/game.c`.
- `Csi.dfy`: terminal control sequences, with a decoder after section 5.4 of ECMA-48.
- `PollList.dfy`: the poll list and its iteration.

The kernel appears as a function from call numbers to arbitrary answers (`onRead`, `onWrite`, `grants`), or as an
argument of a step in the interleaved models. An error transfers nothing; a write takes 0 to n bytes; a read of a
non-empty remainder yields at least one. `Reliable` means that the kernel fails no read, `Progressing` that it accepts
something of every write; contracts say that an operation succeeds under these and what holds without them.

Where code and documentation disagree, the model follows the code:

- A stalled newline flush makes `bf_write` return 0 although the bytes are buffered (src/ministd_io.c:550-555).
  Conservation is stated over the bytes taken. A buffered layer over another one can therefore duplicate bytes;
  `BufferOverBuffer` says exactly when, and `Writable` is the condition on a stack that excludes it.
- `stderr_write` reports the error of flushing stdout only when its own write failed too (src/ministd_io.c:716-735).
- The words that `fscans` and `s_fscan_into` read keep a NUL byte wherever a chunk ended, so the
  result for a long word is not the growing buffer with the word in it that features.md:1623-1625 describes.
- `sbrk` refuses every negative change, so `sbrk_free` abandons the block it unlinks (src/ministd_memory.c:197).
- The overflow test of the scanners has no false alarms but misses some wraps (src/ministd_fmt.c:301).
- `srf_read` is bounded by the capacity of a string, not its length (src/ministd_string.c:495).

## Model

| member | source | states |
|---|---|---|
| `LockedRuns.BytesInAcquisitionOrder` | src/ministd_io.c:648-676 | In every interleaving of any number of threads that call `lf_write`/`lf_misc` on a LockedFile over a BufferedFile, whenever the lock is free the delivered bytes followed by the pending buffer are exactly the bytes taken, call by call in lock-acquisition order; each thread's calls appear in its program order; each finished write took all it reports, or everything in the stalled-newline case |
| `LockedRuns.MutualExclusion` | src/ministd_threads.c:10-24 | In every interleaving the lock cell holds 1 exactly when some thread is inside, and then exactly one is |
| `LockedRuns.DeliveredIsTaken` | src/ministd_io.c:499-560 | At every step of every run, also in the middle of a flush, a refill or a byte copy: what the descriptor has accepted, followed by what the thread inside has still to deliver, is exactly what was taken, in acquisition order; so only taken bytes are delivered |
| `LockedRuns.CountsExact` | src/ministd_io.c:525-560 | Over a descriptor that accepts something of every write, in every interleaving: nothing is refused, each finished write took something and reported exactly how much, and whenever the lock is free after a flush the descriptor has everything that was taken |
| `LockedRuns.FlushDelivers` | src/ministd_io.c:526-590 | In every interleaving, whatever the kernel answers: when the lock is free, the last call to have held it has done its work on the file it found. After a flush, and after an appended line, nothing is pending and the descriptor has everything taken, unless it refused a write of that very call; a write that fits is taken, and without a newline delivers nothing; after a write that did not fit exactly its data is pending, or nothing if it is larger than the buffer; a refused write reports 0, and took nothing if it did not fit |
| `LockedRuns.CritKeepsAim` | src/ministd_io.c:499-590 | Every micro-step under the lock keeps what leads there: why a flush runs, that nothing was delivered on the append path, and that a refusal ends the call |
| `LockedRuns.RefusedOnlyByDescriptor` | src/ministd_io.c:505-516 | A call counts as refused only through a system call of its own that failed or accepted nothing |
| `LockedRuns.CompletesAlone` | src/ministd_threads.c:15-24 | Progress: a call that finds the lock free and runs alone acquires it and is over after a bounded number of steps, whatever the kernel answers |
| `LockedRuns.HolderLeaves` | src/ministd_io.c:499-560 | Wherever the holder is under the lock, running alone it leaves after a bounded number of steps: neither the flush loop nor the copy loop spins |
| `LockedRuns.CritKeeps` | src/ministd_io.c:499-560 | Every micro-step of `bf_write`/`bf_flush`/`bf_misc` under the lock (each pointer store, each copied byte, each system call, whatever the kernel answers) keeps "taken = delivered ++ logically pending" and the facts its later steps rely on |
| `LockedRuns.StepKeepsInv` | src/ministd_io.c:648-676 | Every step of every thread keeps the global invariant: one holder, bytes conserved, program order, outcomes of finished calls |
| `Files.File.Read` | src/ministd_io.c:165-175 | For any stack of pushback, locked, buffered and raw (or string-view) layers: a read delivers a prefix of the one logical stream into the given part of the buffer and leaves the rest as the new stream; 0 bytes without an error means the stream is empty; an error loses nothing and is the one the kernel gave to the read that was needed; over a view, or a descriptor that gives what it is asked for, the read is as long as buffer or stream allow |
| `Files.File.BfRead` | src/ministd_io.c:465-498 | The buffered read delivers a prefix of buffered bytes ++ stream below and leaves the rest. Buffered bytes are delivered first, as many as fit, without an error and without touching the file below; with none, a request larger than the buffer bypasses it and any other refills it, the error being that of the file below, and without short reads there the read is complete and the rest of the refill stays buffered |
| `Files.File.BfRefill` | src/ministd_io.c:477-488 | A refill does not change the logical stream, also when it fails, which takes a failing descriptor; an unsuccessful one without an error means end of stream; without short reads below it fills the buffer as far as the stream goes |
| `Files.File.BfTake` | src/ministd_io.c:489-497 | Serving from the buffer hands over its oldest bytes and keeps the others in order |
| `Files.File.LfRead` | src/ministd_io.c:639-647 | A locked read is a read of the file below, error included, and the lock is free again afterwards, on errors too |
| `Files.File.SvfRead` | src/ministd_string.c:586-598 | Reading a string view delivers the next bytes of the view and never fails |
| `Files.File.RawRead` | src/ministd_io.c:98-111 | A descriptor read delivers 1..cap bytes of what is left, as many as the kernel answers, 0 at its end, and nothing on an error; the error is the errno the kernel answered with, if it did |
| `Files.File.Ungetc` | src/ministd_io.c:196-204 | One byte can be pushed in front of the stream; a second one is refused with ERR_PERM and changes nothing |
| `Files.File.Fgetc` | src/ministd_io.c:321-334 | Removes and returns the head of the stream; -1 leaves the stream unchanged and means that it is empty, or that the kernel failed a read |
| `Files.File.Peekc` | src/ministd_io.c:205-220 | Returns the head of the stream and leaves the stream unchanged; without a failing kernel -1 means that it is empty |
| `Files.File.Write` | src/ministd_io.c:176-180 | On every writable stack, under any pattern of short, stalled or failing writes: the total output (delivered ++ buffered) grows by exactly the bytes taken; the count returned is that number except for a stalled newline flush, where it is 0 with everything taken; what fits the buffer of a buffered file over an accepting one is taken whole; when it does not fit behind what is pending, nothing is taken if the flush leaves something, and otherwise all that fits the buffer, or what the next write below accepts; the read side is untouched |
| `Files.File.BfWrite` | src/ministd_io.c:525-560 | Conservation across append, refill, oversize bypass and resumed partial flush, over any file below: the output grows by what was taken, and by a surplus only if that file under-reports what it takes. What fits is taken whole, with nothing passed on if it does not end a line, and with nothing left pending if it does and the file below accepts; otherwise nothing is taken if the flush leaves something, and else all that fits the buffer, or what the next write below accepts |
| `Files.File.BfWriteFull` | src/ministd_io.c:530-545 | When the data does not fit behind what is pending: if the flush leaves something, nothing is taken and its error is reported; otherwise fitting data is taken whole without an error and is all that is pending then, and larger data is taken as far as the next write below accepts it, with that file's error |
| `Files.File.BfAppend` | src/ministd_io.c:547-559 | The append path takes everything; without a newline at the end nothing goes below, and with one the flush makes exactly the writes, and leaves exactly the bytes, that the answers determine; the count is 0 exactly when the data ends in a newline and that flush left something pending |
| `Files.File.BfBypass` | src/ministd_io.c:535-540 | A write larger than the buffer goes below as it is, in one write, and the count is the number of bytes taken |
| `Files.File.BfStore` | src/ministd_io.c:541-549 | The stored bytes follow what is pending, which is not disturbed |
| `Files.File.BfFlush` | src/ministd_io.c:499-524 | The flush terminates, changes no byte of delivered ++ pending over an exact file, and keeps the unsent rest for the next flush; over a bufferless file the number of writes, the bytes left and the error are exactly those that the kernel's next answers determine: a failing answer is reported, a mere stall is not |
| `Files.File.FlushEndsAtAStall` | src/ministd_io.c:505-519 | A flush ends with nothing left and no error, or at a write that accepted nothing of what is left, with the error of that write |
| `Files.File.BfFlushStep` | src/ministd_io.c:505-519 | One write of the flush loop: bytes move below without loss; if the file below took more than it admitted, exactly that surplus is duplicated |
| `Files.BufferOverBuffer` | src/ministd_io.c:525-560 | A property that is false of the code, with its exact condition: writing a line to a buffered file over another one, with room in both, takes the line; the output grows by exactly what was taken if and only if the inner flush gets everything through, a condition on the kernel's answers from the next write on; otherwise all that the outer file held is in the output twice |
| `Files.DuplicatedNewline` | src/ministd_io.c:525-560 | The input that shows it: two 8-byte buffers over a descriptor that accepts nothing; a single newline is in the output twice, with count 0 |
| `Files.File.LfWrite` | src/ministd_io.c:648-656 | A locked write is a write of the file below, count, bytes taken and error included, and the lock is free again afterwards |
| `Files.File.SfWrite` | src/ministd_string.c:505-514 | Writing to a string file appends all of the data to the string |
| `Files.File.RawWrite` | src/ministd_io.c:112-125 | A descriptor write delivers a prefix of as many bytes as the kernel accepts, none on an error, which is the errno the kernel answered with |
| `Files.File.Fputc` | src/ministd_io.c:241-255 | At most the one byte is taken, and it was taken whenever no error is reported; an error reported for a byte that was taken can only concern a newline |
| `Files.File.Flush` | src/ministd_io.c:191-195 | A flush of any stack changes neither the total output nor the read side; for a buffered file over a bufferless one the writes made, the bytes left and the error are those the kernel's next answers determine, and through any locks above it the error is the same; over a progressing file it drains the buffer |
| `Files.File.FromFd` | src/ministd_io.c:148-164 | A new descriptor file has delivered nothing and yields the whole input |
| `Files.File.Buffer` | src/ministd_io.c:432-463 | A new buffered layer has the stream and output of the file it wraps |
| `Files.File.Lock` | src/ministd_io.c:616-637 | A new locked layer has the stream and output of the file it wraps and is unlocked |
| `Files.File.OverString` | src/ministd_string.c:461-475 | The output of a string file is the text of its string |
| `Files.File.OverView` | src/ministd_string.c:570-584 | The stream of a string-view file is the view |
| `Files.StdinRead` | src/ministd_io.c:705-715 | Reading stdin first flushes stdout; if that flush fails, its error is returned and stdin and the buffer are untouched; otherwise the result is that of the locked read, and with progress on stdout nothing is pending there |
| `Files.StderrWrite` | src/ministd_io.c:716-735 | stderr is written whatever became of the flush of stdout, conserving both outputs; stdout is drained if it makes progress; the error of that flush is reported, with -1, if and only if the write failed too, and otherwise the error of the write |
| `Prelude.Memmove` | src/ministd_memory.c:164-171 | The byte loop replaces exactly the target range by the source bytes |
| `Prelude.Strnlen` | src/ministd_string.c:16-24 | The length found is that of the C string within the first `max` bytes; the byte at index `max` is read, so it must exist when none of them is NUL |
| `Prelude.Strlen` | src/ministd_string.c:7-15 | The length found is that of the C string |
| `LineIO.WriteAll` | src/ministd_string.c:223-243 | A successful whole-string write adds exactly the string, despite short writes; a failed one adds a prefix; over a file without buffers the writes made, the bytes taken and the error are those the kernel's next answers determine, a mere stall being ERR_IO |
| `LineIO.Fputs` | src/ministd_io.c:222-240 | A successful `fputs` adds exactly the C string; a failed one a prefix, which over a file without buffers ends exactly where the kernel's next answers stop it; it cannot fail over a progressing file |
| `LineIO.SkipLeading` | src/ministd_io.c:284-294 | Exactly the leading blanks are consumed and the next byte is only peeked at; no error without a failing read |
| `LineIO.Fgets` | src/ministd_io.c:277-320 | Exactly the leading blanks and the next word (or its first cap-1 bytes) are consumed; the buffer holds them as a C string and nothing outside it changes; the result tells whether the word is complete; on a stream whose reads do not fail this is what happens |
| `LineIO.FgetsWord` | src/ministd_io.c:296-319 | The word loop stores the bytes from the peeked one up to the word's end or the buffer's, and leaves the stream exactly there, unless a read fails |
| `LineIO.Fgetline` | src/ministd_io.c:335-364 | The piece stored is the stream up to and including the first newline, cut at cap-1 bytes; exactly that piece is consumed; the result tells whether the line is complete; on a stream whose reads do not fail this is what happens, and the buffer is a C string in any case |
| `LineIO.LinePieceUnique` | src/ministd_io.c:335-364 | The piece is the only prefix with a newline at most at its end that is full, newline-ended or the whole stream |
| `LineIO.LinesPartitionTheStream` | src/ministd_io.c:335-364 | Repeated calls lose nothing: the pieces concatenate to the stream; each is non-empty, at most cap-1 long, has a newline only at its end, and, unless last, is full or newline-ended |
| `LineIO.CatCopiesExactlyNulFree` | examples/cat2.c:14-20 | The copy loop reproduces its input if and only if the input holds no NUL byte |
| `LineIO.CatTextIsLines` | examples/cat2.c:14-20 | For any input the text printed is the concatenated C strings of its lines, up to the first line whose C string is empty |
| `LineIO.Cat2` | examples/cat2.c:10-23 | The whole program over any input and output stack: what it prints is a prefix of the input's text; it returns -1 if and only if an error was noticed and the buffer holds a non-empty line then, else 0; when no read fails and every write makes progress it ends with code 0 and no error, having printed all of it, and for NUL-free input that is the input unchanged |
| `StringIO.SFprint` | src/ministd_string.c:223-243 | A successful print of a String adds exactly its contents, NUL bytes included; over a file without buffers a failed one stops exactly where the kernel's next answers stop it |
| `StringIO.Fscans` | src/ministd_fmt.c:246-275 | For a word of any length, on a stream whose reads do not fail, exactly blanks and word are consumed; the block holds its chunks; the C string is the first 127 bytes of the word, so the whole word if and only if it is shorter than 128 |
| `StringIO.SFscanInto` | src/ministd_string.c:260-291 | For a word of any length, on a stream whose reads do not fail, exactly blanks and word are consumed and its chunks are appended after the old text, which an error leaves as a prefix |
| `StringIO.ChunksSpellTheWord` | src/ministd_fmt.c:246-275 | However the word is cut into chunks, dropping the terminators between them gives the word |
| `StringIO.ChunkedIsWholeExactlyIfItFits` | src/ministd_fmt.c:246-275 | The stored text is the word if and only if it fits the first chunk |
| `StringIO.TerminatorsEndChunks` | src/ministd_fmt.c:246-275 | The NUL bytes in the stored text are exactly those at the ends of the doubling chunks that the word outgrows |
| `StringIO.StreamIsBlanksWordRest` | src/ministd_io.c:284-320 | Any stream is blanks (bytes up to 32), then the next word (bytes above 32), then a rest that is empty or starts with a blank; without a word it is blanks only |
| `StringIO.NextChunk` | src/ministd_string.c:268-284 | One round keeps the sum of what is stored and what is still to come and doubles the capacity; the rest loses as many bytes as the closed chunk had room for beside its terminator |
| `StringIO.FgetsBlock` | src/ministd_io.c:277-320 | What a chunked reader needs of `fgets`: a whole word is stored, and a cut-off one continues as the next word of the remaining stream; no error without a failing read |
| `StringIO.WordContinues` | src/ministd_io.c:277-320 | After part of a word has been read, the rest of it is the next word of the stream and what follows is unchanged |
| `Strings.StdRealloc` | src/ministd_memory.c:76-102 | A grown block keeps the whole old block as its prefix; a large enough one is kept and nothing is copied; a NULL block is allocated afresh, and a size of 0 frees the block |
| `Strings.String.constructor` | src/ministd_string.c:39-58 | A new string is empty with the asked capacity, 0 included |
| `Strings.String.Reserve` | src/ministd_string.c:130-142 | The text is kept up to the new capacity, 0 included, where the buffer is freed; the bytes copied are counted |
| `Strings.String.Push` | src/ministd_string.c:184-195 | Appends one byte; sizes and copying as one growing append |
| `Strings.String.Append` | src/ministd_string.c:196-211 | Appends the data, for every string on which the doubling loop ends; sizes and copying as the specification `Grown` |
| `Strings.DoubleUntil` | src/ministd_string.c:204 | The doubled increment covers the overflow and, once doubled, is less than twice it |
| `Strings.DoublingStopsInTime` | src/ministd_string.c:202-204 | The increment found is the least doubling of the capacity that covers what is missing |
| `Strings.CapacityAfterAppend` | src/ministd_string.c:196-211 | Which sizes an append leaves: the old capacity when the bytes fit, else the old one plus its least doubling with which they fit; the block is replaced, and copied once, exactly if it is smaller than that |
| `Strings.DoublingEndsExactlyIf` | src/ministd_string.c:202-204 | The doubling loop ends if and only if the capacity is not 0 or nothing is to be gained: a false promise of termination with its exact condition |
| `Strings.GrowthIsTight` | src/ministd_string.c:196-211 | Any growth at least doubles the capacity and leaves it below twice the new length |
| `Strings.AmortisedCopying` | src/ministd_string.c:130-211 | Over any run of pushes and appends on a fresh string the bytes copied by all reallocations are below twice the final length |
| `Strings.AmortisedFrom` | src/ministd_string.c:130-211 | The potential argument behind it: bytes copied so far stay below the capacity |
| `Strings.Build` | src/ministd_string.c:130-211 | Any run of pushes and appends on a new String: its text is all that was added, in order, and its reallocations have copied less than twice that many bytes |
| `Strings.StringFileReadsContents` | src/ministd_string.c:492-504 | Reading a string back through `srf_read` gives its text if and only if length equals capacity |
| `SbrkHeap.RunClient` | src/ministd_memory.c:184-345 | For every sequence of alloc, realloc, free and byte writes by a client: its slots are what replaying the script on a map of known bytes gives, so every byte it stored survives all later growing, moving and freeing; the list stays linked and ordered, the client's blocks are pairwise different, blocks that were live before keep their bytes, the break never falls, and every success and failure is explained by the state it met: with address space and a granting kernel no request fails |
| `SbrkHeap.FailuresAreRefusals` | src/ministd_memory.c:184-268 | With enough address space every failed request of a run used up a refusal of the kernel of its own, so k refusals make at most k requests fail |
| `SbrkHeap.Serve` | src/ministd_memory.c:237-345 | One request changes the client's slots as asked and no byte of any other block; it fails only if no free block fits and the break cannot move, and a new block is refused exactly then |
| `SbrkHeap.LastStoreIsKept` | src/ministd_memory.c:237-345 | In the map that a script is replayed on: what was stored last at a place of a block that has not been released since is what its slot still holds there, at no smaller size, whatever else was asked for |
| `SbrkHeap.ApplyServes` | src/ministd_memory.c:237-345 | A successful allocation gives a block of the size asked for, a successful resize one of at least that size, a store puts the byte in its place, and a release leaves NULL |
| `SbrkHeap.ChainOrdered` | src/ministd_memory.c:222-229 | The `next` chain is strictly address-ordered (so acyclic): each block ends before any later one starts, the last below the break |
| `SbrkHeap.BlocksDisjoint` | src/ministd_memory.c:222-229 | Header and payload ranges of different blocks of the list never overlap |
| `SbrkHeap.Heap.LiveBlocksDisjoint` | src/ministd_memory.c:222-229 | No two live blocks overlap |
| `SbrkHeap.OnlyTheTailEndsAtTheBreak` | src/ministd_memory.c:311-324 | The block that ends at the break can only be the tail, so unlinking it at the tail is right |
| `SbrkHeap.Heap.constructor` | src/ministd_memory.c:222-229 | A heap that has allocated nothing: an empty list, the break and the kernel as given, nothing asked of the kernel yet |
| `SbrkHeap.Heap.Sbrk` | src/ministd_memory.c:184-212 | The break only ever rises; a negative change is refused; a positive one succeeds if and only if the sum does not wrap and the kernel grants it; the blocks keep their bytes |
| `SbrkHeap.Heap.GetFreeBlock` | src/ministd_memory.c:269-279 | The first free block of the list that is large enough is found, if there is one |
| `SbrkHeap.Heap.Alloc` | src/ministd_memory.c:237-268 | The block handed out was not live, holds at least the bytes asked for, and is the first fit, unsplit, or a new one of exactly the size asked for; the break moves, by exactly that block, only if no free block fits; live blocks keep their bytes, all other blocks their size and free flag; it fails, changing nothing, if and only if no free block fits and the address space or the kernel refuses |
| `SbrkHeap.Heap.Reuse` | src/ministd_memory.c:244-248 | Marking a free block as used adds it to the live blocks and disturbs no other |
| `SbrkHeap.Heap.Link` | src/ministd_memory.c:250-267 | The fresh block becomes the tail of a list that stays ordered, and disturbs no other |
| `SbrkHeap.Heap.Free` | src/ministd_memory.c:303-345 | Exactly that block stops being live and all others keep their bytes; a block at the break is cut off the end of the list if and only if the list is within the search limit; any other stays in the list and is marked free |
| `SbrkHeap.Heap.UnlinkAtBreak` | src/ministd_memory.c:311-341 | Cutting off the block at the break keeps the list well formed, the case of the only block included |
| `SbrkHeap.Heap.UnlinkTail` | src/ministd_memory.c:322-337 | The bounded predecessor search removes exactly the last block, or nothing when the predecessor is beyond 2^16 blocks |
| `SbrkHeap.Heap.Realloc` | src/ministd_memory.c:280-302 | The old payload is a prefix of the new one; a block that is large enough stays where it is; otherwise the new block is the first fit, or a new one at the break if nothing fits, and the old one is given back to the allocator: it is in the list and free, or it ended at the break and is cut off, or left there because of the search limit; all other blocks keep bytes, size and flag; it fails, changing nothing, if and only if it has to grow, no free block fits and the break cannot move |
| `SbrkHeap.Heap.Move` | src/ministd_memory.c:291-301 | Growing allocates, by first fit or at the break if nothing fits, copies the whole payload and then gives the old block back: free in the list, or cut off at the break, or left there because of the search limit; all other blocks keep size and flag; it fails, changing nothing, exactly when the allocation does |
| `SbrkHeap.Heap.CopyPayload` | src/ministd_memory.c:295-297 | The copy loop replaces exactly the front of the new block by the whole old payload |
| `Numerals.NumeralUnique` | src/ministd_fmt.c:49-208 | A digit string without a leading zero is the only one that denotes its value, in each base |
| `Numerals.DigitsAreHex` | src/ministd_fmt.c:152-208 | The digit of each value below 16 is the character 0 to 9 or a to f in its place, and only these characters have a value |
| `Fmt.FillDigits` | src/ministd_fmt.c:70-77 | The digit loop leaves exactly the numeral of the value at the right end of the buffer; no index leaves the buffer, and it stops because the value is 0, never because of the cap |
| `Fmt.BuffersSuffice` | src/ministd_fmt.c:49-208 | Every value of the type fits the digit buffer of its printer, in bases 2, 10 and 16, signed and unsigned |
| `Fmt.TenInEachRadix` | src/ministd_fmt.c:49-208 | Ten prints as 10, 1010 and a in the three families of printers |
| `Fmt.FprintUnsigned` | src/ministd_fmt.c:81-100 | The three unsigned printers emit the unique numeral of the value and return its length |
| `Fmt.FprintSigned` | src/ministd_fmt.c:49-80 | The three signed printers emit sign and numeral of the magnitude for every long, the least one included, and return the length |
| `Fmt.FprintNegative` | src/ministd_fmt.c:58-68 | Both negative branches print a minus and the magnitude; only -2^63 takes the unsigned detour |
| `Fmt.Fprintc` | src/ministd_fmt.c:35-42 | One byte is written, or an error reported and 0 returned |
| `Scan.ScanListUndoesPrint` | src/ministd_fmt.c:49-359 | On the level of streams: any list of integers of any of the six types, minima included, printed with blanks in between, is scanned back unchanged with no error, and the stream is left at the blanks after the last |
| `RoundTrip.ScanPrinted` | src/ministd_fmt.c:277-359 | Scan undoes print, with the scanners themselves: from any file stack on which no read fails, a printed list of integers of any types is read back unchanged and without an error, the stream left at the blanks after the last |
| `RoundTrip.PrintThenScan` | src/ministd_fmt.c:49-359 | The whole way through the library: a list printed into a String by the printers and scanned back through a view of it gives the same list, no error, and the exact rest of the stream |
| `RoundTrip.PrintList` | src/ministd_fmt.c:49-100 | Over a file that makes progress the printers emit exactly the texts of the list; otherwise a prefix |
| `Scan.ScanUndoesPrintExactlyIfTerminated` | src/ministd_fmt.c:306-309 | A printed integer is read back with the stream left exactly behind it if and only if what follows is neither a digit nor a byte 0xFF |
| `Scan.AlarmExactlyAtFirstTurn` | src/ministd_fmt.c:294-304 | ERR_OVERFLOW is raised exactly at the first digit that makes the wrapped value fall (rise, for negative numbers), and not at all if there is none |
| `Scan.ScanUndoesPrint` | src/ministd_fmt.c:277-359 | One printed integer after any blanks and before any terminator is read back exactly, with the stream left at the terminator |
| `Scan.ScannedExactlyIfInRange` | src/ministd_fmt.c:293-304 | For digits of any number, leading zeros included: the scanner raises no alarm and returns the number they denote if and only if that number is in the type |
| `Scan.NoFalseAlarm` | src/ministd_fmt.c:301-303 | ERR_OVERFLOW is raised only if the digits read so far denote a number outside the type |
| `Scan.FoldIsConverted` | src/ministd_fmt.c:294-304 | Without an alarm the result is the number denoted, reduced to the type's width |
| `Scan.AlarmIsIncomplete` | src/ministd_fmt.c:301-303 | A false property with its witness: 90000 is read into an unsigned short as 24464 with no alarm |
| `Scan.ScanRefuses` | src/ministd_fmt.c:324-337 | After any blanks, the end of the stream or a byte 0xFF gives ERR_EOF; anything else that is no digit, also behind a minus sign, ERR_PARSE, value 0, and the stream left at it |
| `Scan.ScanOverflows` | src/ministd_fmt.c:294-304 | Digits that raise the alarm give ERR_OVERFLOW, value 0, and the stream left just behind the digit that raised it |
| `Scan.ConvertIsCongruent` | src/ministd_fmt.c:298-299 | A value is stored in its type up to a multiple of two to the width only |
| `Scan.SpaceBytes` | src/ministd_fmt.c:285 | The blanks of the scanners are the bytes up to 32 and, as `char` is signed, 128 to 254 |
| `Scan.FscanInt` | src/ministd_fmt.c:315-358 | The scanners on any file stack: unless the kernel fails a read, value, error and remaining stream are those of the scan of the logical stream |
| `Scan.ScanDigits` | src/ministd_fmt.c:338-355 | Unless a read fails, the digit loop consumes the digits and leaves the byte after them in the stream, except that a byte 0xFF looks like EOF and is swallowed |
| `Scan.SkipSpaces` | src/ministd_fmt.c:285-289 | Exactly the leading blanks are consumed, unless a read fails; bytes from 0x80 on count as blanks and 0xFF as the end, as `char` is signed |
| `Atomics.Linearizable` | src/ministd_atomic.c:98-108 | In every interleaving of any number of threads: the updates form a sequential run that ends in the cell's value; every returned call is exactly one of them and returned the value just before it; their order respects real time (ABA included, as nothing but equality of values is used) |
| `Atomics.StepKeepsInv` | src/ministd_atomic.c:98-159 | Every load, compare-exchange, single-instruction update, call and return keeps the linearization invariant |
| `Atomics.UpdateKeepsInv` | src/ministd_atomic.c:70-108 | A successful update, by `xchg`, `xadd` or compare-exchange, extends the sequential run by one entry |
| `Atomics.FailedCasWasInterfered` | src/ministd_atomic.c:142-158 | A compare-exchange fails only if another thread's update took effect, and changed the value, since the expected value was read |
| `Atomics.CompletesAlone` | src/ministd_atomic.c:98-108 | Progress: a thread that runs alone from anywhere in a call, also with a stale value in the retry loop, applies its update exactly once, to the value the cell has then, and has returned that value after at most three steps, the return included |
| `Atomics.OpsCommute` | src/ministd_atomic.c:110-138 | On cells of any width, signed or not: each operation commutes with itself if and only if it is not the swap |
| `Atomics.BitOfBitwise` | src/ministd_atomic.c:110-126 | Each bit of or, xor and and comes from the two bits in its place |
| `Atomics.ApplyCombinesBits` | src/ministd_atomic.c:110-126 | fetch_or, fetch_xor and fetch_and set a bit exactly if it is set in one of cell and operand, in just one, in both |
| `Atomics.ApplyNumbers` | src/ministd_atomic.c:70-138 | fetch_min and fetch_max leave the lesser and the greater of the two numbers in the cell's type, a swap the new one, and fetch_add and fetch_sub the sum and the difference modulo two to the width |
| `Atomics.NumberInRange` | src/ministd_atomic.c:110-138 | The number a word stands for is in the range of its signed or unsigned type and has the bits of the word |
| `Atomics.BitIsDigit` | src/ministd_atomic.c:110-126 | Bit i of a word is its binary digit worth 2^i |
| `Atomics.OrderIrrelevant` | src/ministd_atomic.c:98-138 | Commuting updates give the same cell in any order |
| `Atomics.ScheduleIndependent` | src/ministd_atomic.c:98-138 | Two interleaved runs in which one commuting operation was applied to the same operands leave the same value in the cell |
| `Atomics.CellsScheduleIndependent` | src/ministd_atomic.c:98-138 | On a cell of any width, signed or not, the final value of a run that uses one operation other than the swap depends only on the operands applied, not on the interleaving |
| `FixedPoint.Fdiv` | examples/game.c:29-42 | ipart*facc + fpart is num*facc/den rounded half up, with fpart < facc after the carry, in wrapping 64-bit arithmetic |
| `FixedPoint.RoundedIsNearest` | examples/game.c:29-42 | The rounded quotient is at most half a unit away from num*facc/den |
| `FixedPoint.RoundingBit` | examples/game.c:35 | The tested difference is 1 exactly when the remainder is at least half the divisor, else 0 |
| `FixedPoint.FractionBelow` | examples/game.c:32-33 | The fraction before rounding is never negative and below facc |
| `FixedPoint.FprintFixed` | examples/game.c:46-60 | The text written is whole part, point and fraction digits, or a prefix of it when an error stops it |
| `FixedPoint.PrintedQuotientIsRounded` | examples/game.c:46-60 | For facc = 10^k: k digits follow the point, and without the point the digits denote the rounded quotient in units of 1/facc |
| `FixedPoint.DigitsDenote` | examples/game.c:56-59 | The fraction loop prints k digits that denote the fraction modulo 10^k |
| `FixedPoint.FprintGrouped` | examples/game.c:62-87 | The text written is the grouped numeral, or a prefix of it when an error stops it |
| `FixedPoint.GroupedWithoutCommas` | examples/game.c:62-87 | With the commas removed the text is the decimal numeral |
| `FixedPoint.CommasEveryThreeDigits` | examples/game.c:71-86 | Commas stand exactly at every fourth place from the end, and the first group has one to three digits |
| `FixedPoint.TopDivisor` | examples/game.c:69 | The divisor found leads to a first group of one to three digits, and it never exceeds n, so its multiplication never wraps |
| `FixedPoint.GroupedSplit` | examples/game.c:71-86 | Leading group and following groups, taken from the top divisor down, make up the grouped numeral |
| `Csi.DecodeUndoesEncode` | src/ministd_term.c:7-70 | A decoder after section 5.4 of ECMA-48 recovers every list of commands with non-negative parameters, mixed with ESC-free text, in order |
| `Csi.UniquelyDecodable` | src/ministd_term.c:7-70 | Different lists of such commands never produce the same bytes |
| `Csi.WellFormedExactlyIfNonNegative` | src/ministd_term.c:17-70 | A sequence sent is well formed if and only if its parameters are not negative (a minus sign is an intermediate byte) |
| `Csi.CursorToExample` | src/ministd_term.c:17-70 | The bytes on the wire for a sequence with two parameters, with one, and for text |
| `Csi.SendControl` | src/ministd_term.c:17-70 | The bytes written are those of the command, all of them unless an error is reported |
| `Csi.Assemble` | src/ministd_term.c:29-34 | The string put together through the string file is exactly the command's bytes; nothing on that way can fail |
| `PollList.RunRequests` | src/ministd_poll.c:64-139 | After any run of adds, removes and polls, visiting the list yields exactly the surviving entries for which the last poll reported events, each once, in insertion order; which entries survive a request is said by `SurvivorsOfOneMore` |
| `PollList.SurvivorsOfOneMore` | src/ministd_poll.c:64-113 | Place by place: an add puts its entry behind the others, a remove takes out exactly the entry at the given place while those behind it move up by one, and a poll moves none |
| `PollList.SurvivorsInOrder` | src/ministd_poll.c:64-108 | The survivors of any run are listed in insertion order, each once |
| `PollList.FirstReadyIsNext` | src/ministd_poll.c:114-139 | The entries with events from any place on are the first one found there and those after it |
| `PollList.List.Visit` | src/ministd_poll.c:114-139 | Following first and next until NULL visits exactly the entries with events, and stops |
| `PollList.List.First` | src/ministd_poll.c:114-124 | The first entry with events, or NULL if there is none |
| `PollList.List.Next` | src/ministd_poll.c:125-139 | The next entry with events after the given one; a pointer outside the list is refused |
| `PollList.List.Add` | src/ministd_poll.c:64-80 | The entry is appended; a full array is replaced by one of twice the size with the same entries |
| `PollList.List.Remove` | src/ministd_poll.c:97-108 | The entry at the given index is taken out: those before it stay and each later one moves up by one; an index outside the list is refused and changes nothing |
| `PollList.List.Poll` | src/ministd_poll.c:109-113 | Polling changes only the events that occurred |
| `PollList.List.constructor` | src/ministd_poll.c:47-58 | A new list is empty |

## Left out

- Files.File.Write: a write of no bytes is excluded, because `bf_write` looks at the last byte stored (src/ministd_io.c:551); every buffered layer is to sit on a file whose counts are exact (`Writable`), since otherwise bytes can be duplicated.
- Files.File.BfRefill: the wrapped file holds no pushed-back byte (`Valid`), because `bf_read` would lose such a byte when the read after it fails; nobody but the wrapper is meant to use it.
- Files.File.RawRead: a kernel that answers 0 before the end of input is not modelled; the code takes such an answer for the end.
- Files.File.LfRead: takes the lock with one thread only, as `LfWrite` does; contention is the subject of `LockedRuns`.
- Files.BufferOverBuffer: the exact condition is for a line with room in both buffers and two buffered layers; elsewhere `BfWrite` says what a surplus can be, not when it occurs.
- Files.File.Flush: with several buffered layers the error is only known to leave something pending; which one it is is stated for at most one such layer (`Flat`), as in the standard streams.
- LockedRuns.BytesInAcquisitionOrder: writes, flushes and the descriptor queries only; reading and pushback on a shared LockedFile are left out, since `has_ungot` is touched outside the lock (src/ministd_io.c:169-173).
- SbrkHeap.Heap.Alloc: assumes that header and payload size do not wrap 64 bits; header fields are kept typed by address beside the bytes of memory, so a client write through a stray pointer is not modelled.
- SbrkHeap.Heap.Sbrk: a failed `brk` is taken to be -1, as the code assumes (src/ministd_memory.c:203).
- SbrkHeap.Heap.Free: double free and pointers that were never handed out are excluded.
- FixedPoint.Fdiv: assumes that 2*num*facc fits 64 bits and that facc is not 0; beyond that the C code wraps.
- Scan.FoldIsConverted: a signed overflow wraps to the type's width, which C leaves undefined for int and long.
- Atomics.Linearizable: sequentially consistent single steps; memory orders weaker than MO_STRICT and fences are not modelled.
- Strings.String.Append: allocation succeeds, sizes do not wrap, and a string is not appended to itself; for capacity 0, where the loop does not end on data that is not empty, see `DoublingEndsExactlyIf`.
- Strings.String.Push: a string of capacity 0 is excluded: it would be written through NULL (src/ministd_string.c:189-194).
- Strings.StdRealloc: the block is a sequence, so addresses and aliasing are not captured; `mmap` behind it is foreign.
- StringIO.FgetsBlock: reads into a copy of the heap block and puts it back, as blocks are sequences here.
- StringIO.SFscanInto: on an error only the old text is known to be kept; how many chunks were added is not stated.
- LineIO.Cat2: input and output are two unrelated files; the tie of stdin to stdout is modelled by `Files.StdinRead` alone, and the error message is not printed.
- Csi.DecodeUndoesEncode: the 7-bit form of the control sequence introducer only, which is the one sent.
- PollList.List.Poll: the kernel's answers are an argument; a failing `poll` and its timeout are not modelled.
- Reading a string sink back through the FILE stack: only `StringFileRead` models `srf_read`.
- Fairness of the spin lock and of the retry loops under contention: the code gives none; progress is proved for a thread that runs alone.
- Closing files, `bf_new`/`lf_new` failures and other allocation failures in files and strings.
- `s_shrink`, `s_clear`, `s_set`, string-view moves and conversions: easy members.
- `mmap`, `clone`, process start, descriptors' `open`/`close`, sleeping, error texts, exit hooks, arguments and environment, and the sphere demo: foreign calls, tables or user interface.
