/** Bytes, error codes and the few sequence facts every other module uses. */
module Prelude {

  type Byte = b: int | 0 <= b < 256 witness 0

  const NUL: Byte := 0
  const NEWLINE: Byte := 10
  const ESC: Byte := 27
  const SPACE: Byte := 32
  const COMMA: Byte := 44
  const MINUS: Byte := 45
  const DOT: Byte := 46
  const ZERO: Byte := 48
  const NINE: Byte := 57
  const SEMICOLON: Byte := 59
  const BRACKET: Byte := 91

  /** The bytes above, as the characters the program's text has for them. */
  lemma Ascii()
    ensures NUL == '\0' as int && NEWLINE == '\n' as int && ESC == 0x1B && SPACE == ' ' as int && COMMA == ',' as int
    ensures MINUS == '-' as int && DOT == '.' as int && ZERO == '0' as int && NINE == '9' as int
    ensures SEMICOLON == ';' as int && BRACKET == '[' as int
  {
  }

  const TWO64: nat := 0x1_0000_0000_0000_0000

  /** The `err_t` values that the modelled functions produce; `Os` is an errno passed up from a system call. */
  datatype Err = Ok | Perm | Io | NoMem | Inval | BadF | Overflow | Eof | Parse | Os(code: int)

  function Min(a: int, b: int): (m: int)
    ensures m <= a && m <= b && (m == a || m == b)
  {
    if a < b then a else b
  }

  /** The C string at the start of `s`: everything before the first NUL. */
  function CString(s: seq<Byte>): (r: seq<Byte>)
    ensures r <= s && NUL !in r
    ensures |r| < |s| ==> s[|r|] == NUL
  {
    if s == [] || s[0] == NUL then [] else [s[0]] + CString(s[1..])
  }

  lemma {:induction false} CStringUnique(s: seq<Byte>, t: seq<Byte>)
    requires t <= s && NUL !in t
    requires |t| == |s| || s[|t|] == NUL
    ensures CString(s) == t
  {
    if t != [] {
      assert t[0] == s[0];
      CStringUnique(s[1..], t[1..]);
    }
  }

  /** Every byte of `s` that is not equal to `b`, in order. */
  function Without(s: seq<Byte>, b: Byte): (r: seq<Byte>)
    ensures |r| <= |s|
    ensures |r| == |s| <==> b !in s
    ensures b !in s ==> r == s
  {
    if s == [] then []
    else if s[0] == b then Without(s[1..], b)
    else [s[0]] + Without(s[1..], b)
  }

  lemma {:induction false} WithoutConcat(s: seq<Byte>, t: seq<Byte>, b: Byte)
    ensures Without(s + t, b) == Without(s, b) + Without(t, b)
  {
    if s == [] {
      assert s + t == t;
    } else {
      assert (s + t)[1..] == s[1..] + t;
      WithoutConcat(s[1..], t, b);
    }
  }

  /** `s` with the bytes from index `off` on replaced by `d`. */
  function Splice(s: seq<Byte>, off: nat, d: seq<Byte>): (r: seq<Byte>)
    requires off + |d| <= |s|
    ensures |r| == |s| && r[..off] == s[..off] && r[off..off + |d|] == d
  {
    s[..off] + d + s[off + |d|..]
  }

  /** Byte by byte: `d` from `off` on, and `s` everywhere else. */
  lemma SpliceAt(s: seq<Byte>, off: nat, d: seq<Byte>, k: nat)
    requires off + |d| <= |s| && k < |s|
    ensures Splice(s, off, d)[k] == if off <= k < off + |d| then d[k - off] else s[k]
  {
  }

  /** Reading `[x] + t` is reading `x`, then `t`. */
  lemma SpliceHead(s: seq<Byte>, off: nat, x: Byte, t: seq<Byte>, n: nat)
    requires n <= |t| && off + n < |s|
    ensures ([x] + t)[n + 1..] == t[n..]
    ensures Splice(s[off := x], off + 1, t[..n]) == Splice(s, off, ([x] + t)[..n + 1])
  {
    assert ([x] + t)[..n + 1] == [x] + t[..n];
    assert s[off := x][..off + 1] == s[..off] + [x];
  }

  /** `memmove` between distinct objects: the byte loop, filling `dest` from offset `off`. */
  method Memmove(dest: array<Byte>, off: nat, src: seq<Byte>)
    requires off + |src| <= dest.Length
    modifies dest
    ensures dest[..] == Splice(old(dest[..]), off, src)
  {
    var i := 0;
    while i < |src|
      invariant 0 <= i <= |src|
      invariant dest[..] == Splice(old(dest[..]), off, src[..i])
    {
      dest[off + i] := src[i];
      i := i + 1;
    }
  }

  /** `strnlen`: the length of the C string within the first `max` bytes. The byte at index `max` is still looked at, so
      it has to exist when none of these is NUL. */
  method Strnlen(s: seq<Byte>, max: nat) returns (len: nat)
    requires max <= |s| && (max < |s| || NUL in s[..max])
    ensures len == |CString(s[..max])|
  {
    len := 0;
    while s[len] != NUL && len < max
      invariant 0 <= len <= max && NUL !in s[..len]
      invariant len < |s|
      decreases max - len
    {
      len := len + 1;
    }
    assert s[..max][..len] == s[..len];
    CStringUnique(s[..max], s[..len]);
  }

  /** `strlen`. */
  method Strlen(s: seq<Byte>) returns (len: nat)
    requires NUL in s
    ensures len == |CString(s)|
  {
    len := 0;
    while s[len] != NUL
      invariant 0 <= len < |s| && NUL !in s[..len]
      decreases |s| - len
    {
      len := len + 1;
    }
    CStringUnique(s, s[..len]);
  }
}
