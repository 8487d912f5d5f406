/** Characters and C strings as the console firmware sees them. */
module Bytes {
  /** An 8-bit character; `char` is unsigned on this target. */
  type byte = x: int | 0 <= x < 256

  type Text = seq<byte>

  const NUL: byte := 0
  const SPACE: byte := 0x20

  /** The C locale's `isprint`. */
  predicate IsPrint(ch: byte) {
    0x20 <= ch <= 0x7e
  }

  predicate AllPrint(s: Text) {
    forall i :: 0 <= i < |s| ==> IsPrint(s[i])
  }

  /** What the command-line buffer is made of: printable characters and NUL. */
  predicate AllPlain(s: Text) {
    forall i :: 0 <= i < |s| ==> s[i] == NUL || IsPrint(s[i])
  }

  /** The string a C function sees when it is handed the address of `s[0]`: everything before the first NUL. */
  function CString(s: seq<byte>): (r: Text)
    ensures |r| <= |s| && r == s[..|r|]
    ensures NUL !in r
    ensures |r| < |s| ==> s[|r|] == NUL
  {
    if s == [] || s[0] == NUL then [] else [s[0]] + CString(s[1..])
  }

  lemma {:induction false} CStringIs(s: seq<byte>, n: nat)
    requires n < |s| && s[n] == NUL && NUL !in s[..n]
    ensures CString(s) == s[..n]
  {
    if n > 0 {
      assert s[0] == s[..n][0];
      assert s[1..][..n - 1] == s[..n][1..];
      CStringIs(s[1..], n - 1);
    }
  }

  /** Of a string that is followed by a NUL, C sees what comes before its own first NUL. */
  lemma {:induction false} CStringBefore(s: seq<byte>, n: nat)
    requires n < |s| && s[n] == NUL
    ensures CString(s) == CString(s[..n])
  {
    if n > 0 && s[0] != NUL {
      assert s[1..][..n - 1] == s[..n][1..];
      CStringBefore(s[1..], n - 1);
    }
  }

  /** What C sees of a string in front of another: of both, unless the first holds a NUL. */
  lemma {:induction false} CStringAppend(a: Text, b: Text)
    ensures CString(a + b) == if NUL in a then CString(a) else a + CString(b)
  {
    if a == [] {
      assert a + b == b;
    } else if a[0] != NUL {
      assert (a + b)[1..] == a[1..] + b;
      CStringAppend(a[1..], b);
    }
  }

  lemma {:induction false} CStringWithoutNul(s: Text)
    requires NUL !in s
    ensures CString(s) == s
  {
    if s != [] {
      CStringWithoutNul(s[1..]);
    }
  }

  lemma CStringOfStart(a: Text, b: Text)
    ensures CString(a) <= CString(a + b)
  {
    CStringAppend(a, b);
    if NUL !in a {
      CStringWithoutNul(a);
    }
  }

  /** A line reaches C whole exactly when it is printable. */
  lemma CStringIsWhole(s: Text)
    requires AllPlain(s)
    ensures CString(s) == s <==> AllPrint(s)
  {
    var r := CString(s);
    if |r| == |s| {
      assert r == s;
    }
  }

  const TWO32: int := 0x1_0000_0000

  /** Unsigned 32-bit subtraction, which wraps. */
  function Sub32(a: nat, b: nat): (r: nat)
    requires a < TWO32 && b < TWO32
    ensures r < TWO32 && (r + b) % TWO32 == a
  {
    if a >= b then a - b else a - b + TWO32
  }

  /** The bytes of a string literal; a character that no literal here contains becomes a question mark. */
  function Ascii(s: string): (r: Text)
    ensures |r| == |s|
    ensures forall i :: 0 <= i < |s| ==> r[i] != NUL && (0 < s[i] as int < 256 ==> r[i] == s[i] as int)
  {
    seq(|s|, i requires 0 <= i < |s| => if 0 < s[i] as int < 256 then s[i] as int else 0x3f)
  }

  lemma AsciiAppend(a: string, b: string)
    ensures Ascii(a + b) == Ascii(a) + Ascii(b)
  {
  }

  lemma SliceOfSlice<T>(s: seq<T>, from: nat, to: nat, a: nat, b: nat)
    requires from <= to <= |s| && a <= b <= to - from
    ensures s[from..to][a..b] == s[from + a..from + b]
  {
    var inner, outer := s[from..to][a..b], s[from + a..from + b];
    forall k | 0 <= k < |inner| ensures inner[k] == outer[k] {
    }
  }
}
