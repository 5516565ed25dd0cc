/** Printing integers to a file and scanning them back, with the printers and scanners themselves. */
module RoundTrip {
  import opened Prelude
  import opened Numerals
  import opened Strings
  import opened Files
  import opened LineIO
  import opened Fmt
  import opened Scan

  /** Every type's values are longs or unsigned longs. */
  lemma FitsLong(t: IntType, x: int)
    requires t.Has(x)
    ensures if t.signed then -TWO63 <= x < TWO63 else 0 <= x < TWO64
  {
  }

  /** One item: the printer of its kind, then its blanks. */
  method PrintItem(it: Item, file: File) returns (err: Err, ghost taken: nat)
    requires it.Printable() && file.Valid() && file.Writable()
    modifies file.Repr
    ensures file.Valid()
    ensures Wrote(old(file.Output()), file.Output(), SignedNumeral(it.x, 10) + it.gap, err, taken)
    ensures file.Progressing() ==> err == Ok
  {
    hide File.Valid, File.Stream, File.Output, File.Below, SignedNumeral, Wrote;
    FitsLong(it.t, it.x);
    ghost var o, text := file.Output(), SignedNumeral(it.x, 10);
    err, taken := PrintInteger(it.t, it.x, file);
    ghost var p := file.Output();
    if err != Ok {
      WroteFirst(o, p, text, it.gap, err, taken);
      return;
    }
    IsWrote(o, p, text, err, taken);
    var n;
    ghost var t;
    n, err, t := WriteAll(it.gap, file);
    IsWrote(p, file.Output(), it.gap, err, t);
    WroteBoth(o, p, file.Output(), text, it.gap, err, t);
    taken := taken + t;
  }

  method PrintInteger(t: IntType, x: int, file: File) returns (err: Err, ghost taken: nat)
    requires t.Has(x) && file.Valid() && file.Writable()
    modifies file.Repr
    ensures file.Valid() && Wrote(old(file.Output()), file.Output(), SignedNumeral(x, 10), err, taken)
    ensures file.Progressing() ==> err == Ok
  {
    hide File.Valid, File.Stream, File.Output, File.Below, Numeral;
    FitsLong(t, x);
    var n;
    if t.signed {
      n, err, taken := FprintSigned(x, Decimal, file);
    } else {
      n, err, taken := FprintUnsigned(x, Decimal, file);
    }
  }

  /** A list of integers, each with blanks after it. */
  method PrintList(items: seq<Item>, file: File) returns (err: Err)
    requires (forall i :: 0 <= i < |items| ==> items[i].Printable()) && file.Valid() && file.Writable()
    modifies file.Repr
    ensures file.Valid()
    ensures old(file.Output()) <= file.Output() <= old(file.Output()) + Print(items)
    ensures err == Ok ==> file.Output() == old(file.Output()) + Print(items)
    ensures file.Progressing() ==> err == Ok
  {
    hide File.Valid, File.Stream, File.Output, File.Below, Item.Printable, SignedNumeral;
    err := Ok;
    ghost var o := file.Output();
    for i := 0 to |items|
      invariant file.Valid() && err == Ok && o <= file.Output()
      invariant file.Output() + Print(items[i..]) == o + Print(items)
    {
      ghost var p, text := file.Output(), SignedNumeral(items[i].x, 10) + items[i].gap;
      ghost var taken;
      err, taken := PrintItem(items[i], file);
      PrintStep(items, i);
      assert p + (text + Print(items[i + 1..])) == (p + text) + Print(items[i + 1..]);
      assert text[..|text|] == text;
      assert p + text[..taken] <= p + (text + Print(items[i + 1..]));
      if err != Ok { return; }
    }
  }

  lemma PrintStep(items: seq<Item>, i: nat)
    requires i < |items|
    ensures Print(items[i..]) == (SignedNumeral(items[i].x, 10) + items[i].gap) + Print(items[i + 1..])
  {
    assert items[i..][1..] == items[i + 1..];
  }

  /** Scanning one integer of each type, until an error. */
  method ScanAll(ts: seq<IntType>, file: File) returns (values: seq<int>, err: Err)
    requires file.Valid() && file.Readable() && file.Reliable()
    modifies file.Repr
    ensures file.Valid() && (values, err, file.Stream()) == ScanList(ts, old(file.Stream()))
  {
    hide File.Valid, File.Stream, File.Output, File.Below, File.Readable, File.Reliable, ScanInt;
    values, err := [], Ok;
    ghost var whole := ScanList(ts, file.Stream());
    assert ts[0..] == ts && [] + whole.0 == whole.0;
    for i := 0 to |ts|
      invariant file.Valid() && err == Ok
      invariant Continues(whole, values, ScanList(ts[i..], file.Stream()))
    {
      var v;
      ghost var io;
      ghost var s := file.Stream();
      ScanFirst(ts[i], ts[i + 1..], s);
      assert ts[i..] == [ts[i]] + ts[i + 1..];
      v, err, io := FscanInt(ts[i], file);
      assert Scanned(v, err, file.Stream()) == ScanInt(ts[i], s);
      if err != Ok {
        assert values + [] == values;
        return;
      }
      ghost var more := ScanList(ts[i + 1..], file.Stream());
      assert values + ([v] + more.0) == (values + [v]) + more.0;
      values := values + [v];
    }
    assert values + [] == values;
  }

  /** The values read so far, before what `r` still reads. */
  ghost predicate Continues(whole: (seq<int>, Err, seq<Byte>), values: seq<int>, r: (seq<int>, Err, seq<Byte>))
  {
    whole == (values + r.0, r.1, r.2)
  }

  /** Scan undoes print: from any file on which no read fails, whatever layers it has, a printed list is read back
      unchanged and without an error, and the stream is left at the blanks after the last integer. */
  method ScanPrinted(items: seq<Item>, ghost blanks: seq<Byte>, file: File) returns (values: seq<int>, err: Err)
    requires forall i :: 0 <= i < |items| ==> items[i].Printable()
    requires forall k :: 0 <= k < |blanks| ==> IsSpace(blanks[k])
    requires file.Valid() && file.Readable() && file.Reliable() && file.Stream() == blanks + Print(items)
    modifies file.Repr
    ensures file.Valid() && values == Values(items) && err == Ok
    ensures file.Stream() == if items == [] then blanks else items[|items| - 1].gap
  {
    hide File.Valid, File.Stream, File.Output, File.Below, File.Readable, File.Reliable, ScanList, Print;
    values, err := ScanAll(Types(items), file);
    ScanListUndoesPrint(items, blanks);
  }

  /** The whole way: a list is printed into a String, and scanned back through a view of it. */
  method PrintThenScan(items: seq<Item>) returns (values: seq<int>, err: Err, ghost rest: seq<Byte>)
    requires forall i :: 0 <= i < |items| ==> items[i].Printable()
    ensures values == Values(items) && err == Ok
    ensures rest == if items == [] then [] else items[|items| - 1].gap
  {
    var str := new String(128);
    var output := new File.OverString(str);
    err := PrintList(items, output);
    SinkHolds(output);
    var input := new File.OverView(str.block[..str.len]);
    assert input.Stream() == [] + Print(items);
    values, err := ScanPrinted(items, [], input);
    rest := input.Stream();
  }
}
