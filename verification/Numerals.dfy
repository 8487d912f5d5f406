/** Number printing and octal parsing: `ultoa`, `ulltoa` and `parseOctal`. */
module Numerals {
  import opened Bytes

  const TWO61: int := 0x2000_0000_0000_0000
  const TWO64: int := 0x1_0000_0000_0000_0000

  /** One digit, from the lower- or the upper-case digit string. */
  function Digit(d: nat, upper: bool): byte
    requires d < 36
  {
    if d < 10 then 0x30 + d else (if upper then 0x41 else 0x61) + d - 10
  }

  /** The shortest numeral for `v`. */
  function Numeral(v: nat, radix: nat, upper: bool): (s: Text)
    requires 2 <= radix <= 36
    ensures |s| >= 1
    decreases v
  {
    (if v / radix != 0 then Numeral(Quotient(v, radix), radix, upper) else []) + [Digit(v % radix, upper)]
  }

  function Quotient(v: nat, radix: nat): (q: nat)
    requires 2 <= radix
    ensures q == v / radix && (v > 0 ==> q < v) && v == q * radix + v % radix
  {
    QuotientFacts(v, radix, v / radix);
    v / radix
  }

  lemma QuotientFacts(v: nat, radix: nat, q: nat)
    requires 2 <= radix && q == v / radix
    ensures v == q * radix + v % radix && (v > 0 ==> q < v)
  {
    assert v == q * radix + v % radix;
    assert q * radix == 2 * q + q * (radix - 2);
    assert q * (radix - 2) >= 0;
  }

  /** The digit a character stands for, in either case; 36 when it is none. */
  function DigitValue(ch: byte): nat {
    if 0x30 <= ch <= 0x39 then ch - 0x30
    else if 0x41 <= ch <= 0x5a then ch - 0x41 + 10
    else if 0x61 <= ch <= 0x7a then ch - 0x61 + 10
    else 36
  }

  /** Positional value, most significant digit first. */
  function Value(s: Text, radix: nat): nat {
    if s == [] then 0 else Value(s[..|s| - 1], radix) * radix + DigitValue(s[|s| - 1])
  }

  predicate AreDigits(s: Text, radix: nat) {
    forall i :: 0 <= i < |s| ==> DigitValue(s[i]) < radix
  }

  lemma DigitReadsBack(d: nat, upper: bool)
    requires d < 36
    ensures DigitValue(Digit(d, upper)) == d
  {
  }

  lemma ValueSnoc(s: Text, ch: byte, radix: nat)
    ensures Value(s + [ch], radix) == Value(s, radix) * radix + DigitValue(ch)
  {
    assert (s + [ch])[..|s|] == s;
  }

  /** No superfluous leading zero. */
  lemma {:induction false} NoLeadingZero(v: nat, radix: nat, upper: bool)
    requires 2 <= radix <= 36 && v > 0
    ensures DigitValue(Numeral(v, radix, upper)[0]) != 0
    decreases v
  {
    var q := Quotient(v, radix);
    DigitReadsBack(v % radix, upper);
    if q != 0 {
      NoLeadingZero(q, radix, upper);
    }
  }

  lemma DigitAppended(high: Text, q: nat, ch: byte, d: nat, radix: nat)
    requires Value(high, radix) == q && AreDigits(high, radix) && DigitValue(ch) == d < radix
    ensures Value(high + [ch], radix) == q * radix + d && AreDigits(high + [ch], radix)
  {
    ValueSnoc(high, ch, radix);
  }

  /** The digits are the usual ones, in lower and in upper case. */
  lemma DigitsAre(d: nat)
    requires d < 16
    ensures Digit(d, false) == Ascii("0123456789abcdef")[d] && Digit(d, true) == Ascii("0123456789ABCDEF")[d]
    ensures DigitValue(Ascii("0123456789abcdef")[d]) == d == DigitValue(Ascii("0123456789ABCDEF")[d])
  {
  }

  /** A digit of the radix; letters only in hexadecimal, and of the case asked for. */
  predicate IsDigitOf(ch: byte, radix: nat, upper: bool) {
    if radix == 8 then '0' as int <= ch <= '7' as int
    else '0' as int <= ch <= '9' as int
         || (radix == 16 && if upper then 'A' as int <= ch <= 'F' as int else 'a' as int <= ch <= 'f' as int)
  }

  lemma {:induction false} NumeralLetters(v: nat, radix: nat, upper: bool)
    requires radix == 8 || radix == 10 || radix == 16
    ensures forall i :: 0 <= i < |Numeral(v, radix, upper)| ==> IsDigitOf(Numeral(v, radix, upper)[i], radix, upper)
    decreases v
  {
    var high: Text := if v / radix != 0 then Numeral(Quotient(v, radix), radix, upper) else [];
    if v / radix != 0 {
      NumeralLetters(Quotient(v, radix), radix, upper);
    }
    assert IsDigitOf(Digit(v % radix, upper), radix, upper);
    assert Numeral(v, radix, upper) == high + [Digit(v % radix, upper)];
  }

  /** A numeral reads back as the number, whatever the radix and case. */
  lemma {:induction false} NumeralReadsBack(v: nat, radix: nat, upper: bool)
    requires 2 <= radix <= 36
    ensures var s := Numeral(v, radix, upper);
            Value(s, radix) == v && AreDigits(s, radix)
    decreases v
  {
    var q, d := Quotient(v, radix), v % radix;
    DigitReadsBack(d, upper);
    var high: Text := if q != 0 then Numeral(q, radix, upper) else [];
    if q != 0 {
      NumeralReadsBack(q, radix, upper);
    }
    DigitAppended(high, q, Digit(d, upper), d, radix);
  }

  predicate IsDecimal(ch: byte) {
    0x30 <= ch <= 0x39
  }

  lemma DecimalNumeral(n: nat)
    ensures forall i :: 0 <= i < |Numeral(n, 10, false)| ==> IsDecimal(Numeral(n, 10, false)[i])
    ensures n > 0 ==> Numeral(n, 10, false)[0] != 0x30
  {
    NumeralReadsBack(n, 10, false);
    assert forall i :: 0 <= i < |Numeral(n, 10, false)| ==> DigitValue(Numeral(n, 10, false)[i]) < 10;
    if n > 0 {
      NoLeadingZero(n, 10, false);
    }
  }

  function Pow(radix: nat, n: nat): nat {
    if n == 0 then 1 else radix * Pow(radix, n - 1)
  }

  /** A numeral has at most n digits exactly when the number is below the n-th power of the radix. */
  lemma {:induction false} NumeralLength(v: nat, radix: nat, upper: bool, n: nat)
    requires 2 <= radix <= 36 && n >= 1
    ensures |Numeral(v, radix, upper)| <= n <==> v < Pow(radix, n)
    decreases n
  {
    var q, p := Quotient(v, radix), Pow(radix, n - 1);
    assert Pow(radix, n) == radix * p;
    if n == 1 {
      assert p == 1;
      if q == 0 {
        assert v < radix;
      } else {
        assert q * radix >= radix;
      }
    } else {
      DivBelow(v, radix, p);
      if q != 0 {
        NumeralLength(q, radix, upper, n - 1);
      } else {
        PowPositive(radix, n - 1);
      }
    }
  }

  lemma {:induction false} PowPositive(radix: nat, n: nat)
    requires radix >= 1
    ensures Pow(radix, n) >= 1
  {
    if n > 0 {
      PowPositive(radix, n - 1);
    }
  }

  lemma DivBelow(v: nat, radix: nat, p: nat)
    requires radix >= 2
    ensures Quotient(v, radix) < p <==> v < radix * p
  {
    var q := Quotient(v, radix);
    if q < p {
      assert (q + 1) * radix <= p * radix;
    } else {
      assert q * radix >= p * radix;
    }
  }

  // ---------------------------------------------------------------- the printers

  /** `now` is `before` with `text` and a NUL stored from `at` on. */
  ghost predicate Stored(before: seq<byte>, now: seq<byte>, at: nat, text: Text) {
    && at + |text| < |before|
    && now == before[..at] + text + [NUL] + before[at + |text| + 1..]
  }

  lemma StoredSnoc(before: seq<byte>, mid: seq<byte>, now: seq<byte>, at: nat, text: Text, ch: byte)
    requires at + |text| + 1 < |before| == |mid|
    requires (text == [] && mid == before) || Stored(before, mid, at, text)
    requires now == mid[at + |text| := ch][at + |text| + 1 := NUL]
    ensures Stored(before, now, at, text + [ch])
  {
  }

  /** `unsigned long` to text at `buffer[at..]`, NUL-terminated; the result is the index of the NUL. */
  method Ultoa(value: nat, buffer: array<byte>, at: nat, radix: nat, upper: bool) returns (end: nat)
    requires value < TWO32 && 2 <= radix <= 36
    requires at + |Numeral(value, radix, upper)| < buffer.Length
    modifies buffer
    ensures end == at + |Numeral(value, radix, upper)|
    ensures Stored(old(buffer[..]), buffer[..], at, Numeral(value, radix, upper))
    decreases value
  {
    end := at;
    var quotient := Quotient(value, radix);
    ghost var high := if quotient != 0 then Numeral(quotient, radix, upper) else [];
    if quotient != 0 {
      end := Ultoa(quotient, buffer, at, radix, upper);
    }
    PutDigit(buffer, end, old(buffer[..]), at, high, Digit(value % radix, upper));
    end := end + 1;
  }

  /** `*buffer++ = digit; *buffer = 0;` */
  method PutDigit(buffer: array<byte>, end: nat, ghost before: seq<byte>, ghost at: nat, ghost high: Text, digit: byte)
    requires end == at + |high|
    requires end + 1 < buffer.Length == |before|
    requires (high == [] && buffer[..] == before) || Stored(before, buffer[..], at, high)
    modifies buffer
    ensures Stored(before, buffer[..], at, high + [digit])
  {
    buffer[end] := digit;
    buffer[end + 1] := NUL;
    StoredSnoc(before, old(buffer[..]), buffer[..], at, high, digit);
  }

  const NOT_IMPLEMENTED: Text :=
    [0x4e, 0x6f, 0x74, 0x20, 0x69, 0x6d, 0x70, 0x6c, 0x65, 0x6d, 0x65, 0x6e, 0x74, 0x65, 0x64]

  function LongLongText(value: nat, radix: nat, upper: bool): Text
    requires 2 <= radix <= 36
  {
    if radix in {8, 16} then Numeral(value, radix, upper) else NOT_IMPLEMENTED
  }

  method StrCpy(buffer: array<byte>, at: nat, text: Text)
    requires at + |text| < buffer.Length
    modifies buffer
    ensures Stored(old(buffer[..]), buffer[..], at, text)
  {
    for i := 0 to |text|
      invariant forall j :: 0 <= j < i ==> buffer[at + j] == text[j]
      invariant forall j :: 0 <= j < buffer.Length && !(at <= j < at + i) ==> buffer[j] == old(buffer[j])
    {
      buffer[at + i] := text[i];
    }
    buffer[at + |text|] := NUL;
    assert buffer[at..at + |text|] == text;
  }

  /** `unsigned long long` to text by shifting: octal and hexadecimal only. */
  method Ulltoa(value: nat, buffer: array<byte>, at: nat, radix: nat, upper: bool) returns (end: nat)
    requires value < TWO64 && 2 <= radix <= 36
    requires at + |LongLongText(value, radix, upper)| < buffer.Length
    modifies buffer
    ensures end == if radix in {8, 16} then at + |LongLongText(value, radix, upper)| else at
    ensures Stored(old(buffer[..]), buffer[..], at, LongLongText(value, radix, upper))
    decreases value
  {
    end := at;
    if radix != 16 && radix != 8 {
      StrCpy(buffer, at, NOT_IMPLEMENTED);
      return;
    }
    var shifted := Quotient(value, radix);
    ghost var high := if shifted != 0 then Numeral(shifted, radix, upper) else [];
    if shifted != 0 {
      end := Ulltoa(shifted, buffer, at, radix, upper);
    }
    PutDigit(buffer, end, old(buffer[..]), at, high, Digit(value % radix, upper));
    end := end + 1;
  }

  // ---------------------------------------------------------------- the parser

  predicate IsOctal(ch: byte) {
    0x30 <= ch <= 0x37
  }

  /** The longest prefix of octal digits, but no more than `limit` of them. */
  function OctalPrefix(s: Text, limit: nat): (r: Text)
    ensures |r| <= |s| && r == s[..|r|] && |r| <= limit
    ensures forall i :: 0 <= i < |r| ==> IsOctal(r[i])
    ensures |r| < |s| && |r| < limit ==> !IsOctal(s[|r|])
  {
    if s == [] || limit == 0 || !IsOctal(s[0]) then [] else [s[0]] + OctalPrefix(s[1..], limit - 1)
  }

  lemma {:induction false} OctalPrefixIs(s: Text, limit: nat, n: nat)
    requires n <= |s| && n <= limit
    requires forall i :: 0 <= i < n ==> IsOctal(s[i])
    requires n == |s| || n == limit || !IsOctal(s[n])
    ensures OctalPrefix(s, limit) == s[..n]
  {
    var r := OctalPrefix(s, limit);
    if n > 0 {
      OctalPrefixIs(s[1..], limit - 1, n - 1);
      assert s[..n] == [s[0]] + s[1..][..n - 1];
    }
  }

  lemma ShiftStep(v: nat, d: nat)
    requires d < 8
    ensures ((8 * v) % TWO64 + d) * 8 % TWO64 == (8 * (8 * v + d)) % TWO64
    ensures (8 * v) % TWO64 + d < TWO64
  {
    var q, r := (8 * v) / TWO64, (8 * v) % TWO64;
    assert 8 * v == q * TWO64 + r;
    assert r % 8 == 0;
    assert 8 * (8 * v + d) == (8 * q) * TWO64 + (r + d) * 8;
    ModUnique(8 * q, (r + d) * 8);
  }

  lemma ModUnique(k: int, x: int)
    ensures (k * TWO64 + x) % TWO64 == x % TWO64
  {
  }

  lemma ShiftBack(v: nat)
    ensures (8 * v) % TWO64 / 8 == v % TWO61
  {
  }

  lemma DigitTaken(buf: seq<byte>, p: nat, num: nat)
    requires p < |buf| && IsOctal(buf[p]) && num == 8 * Value(buf[..p], 8) % TWO64
    ensures buf[..p + 1] == buf[..p] + [buf[p]]
    ensures (num + buf[p] - 0x30) % TWO64 * 8 % TWO64 == 8 * Value(buf[..p + 1], 8) % TWO64
  {
    var v, d := Value(buf[..p], 8), buf[p] - 0x30;
    assert buf[..p + 1] == buf[..p] + [buf[p]];
    ValueSnoc(buf[..p], buf[p], 8);
    ShiftStep(v, d);
  }

  /** At most 22 octal digits; every digit shifts ahead once too often, which the last shift takes back. */
  method ParseOctal(buf: seq<byte>) returns (num: nat)
    requires NUL in buf
    ensures num == Value(OctalPrefix(buf, 22), 8) % TWO61
  {
    num := 0;
    var p := 0;
    var i := 0;
    while i < 64
      invariant i == 3 * p && 0 <= p <= 22 && p <= |buf|
      invariant NUL !in buf[..p]
      invariant forall k :: 0 <= k < p ==> IsOctal(buf[k])
      invariant num == 8 * Value(buf[..p], 8) % TWO64
    {
      if 0x30 <= buf[p] <= 0x37 {
        DigitTaken(buf, p, num);
        num := (num + buf[p] - 0x30) % TWO64;
        num := num * 8 % TWO64;
        p := p + 1;
      } else {
        break;
      }
      i := i + 3;
    }
    OctalPrefixIs(buf, 22, p);
    ShiftBack(Value(buf[..p], 8));
    num := num / 8;
  }

  // ---------------------------------------------------------------- printing and parsing again

  /** `text` right-justified in a field at least `width` wide. */
  function Padded(width: nat, pad: byte, text: Text): (r: Text)
    ensures |r| == if width < |text| then |text| else width
  {
    seq(if width < |text| then 0 else width - |text|, _ => pad) + text
  }

  lemma {:induction false} ZeroPadding(n: nat, s: Text, radix: nat)
    requires radix >= 1
    ensures Value(seq(n, _ => 0x30) + s, radix) == Value(s, radix)
  {
    var z := seq(n, _ => 0x30);
    if s != [] {
      ZeroPadding(n, s[..|s| - 1], radix);
      assert (z + s)[..|z + s| - 1] == z + s[..|s| - 1];
    } else if n > 0 {
      ZeroPadding(n - 1, [], radix);
      assert (z + s)[..n - 1] == seq(n - 1, _ => 0x30) + [];
      assert (z + s)[n - 1] == 0x30;
    }
  }

  lemma PowersOfEight()
    ensures Pow(8, 12) == 0x10_0000_0000 && Pow(8, 22) == 4 * TWO64
  {
    assert Pow(8, 6) == 0x4_0000;
    assert Pow(8, 12) == 0x10_0000_0000;
    assert Pow(8, 18) == 0x40_0000_0000_0000;
  }

  lemma PaddedOctal(v: nat, width: nat, upper: bool)
    requires v < TWO64 && width <= 22
    ensures var p := Padded(width, 0x30, Numeral(v, 8, upper));
            |p| <= 22 && Value(p, 8) == v && forall i :: 0 <= i < |p| ==> IsOctal(p[i])
  {
    var s := Numeral(v, 8, upper);
    var p := Padded(width, 0x30, s);
    NumeralReadsBack(v, 8, upper);
    NumeralLength(v, 8, upper, 22);
    PowersOfEight();
    ZeroPadding(|p| - |s|, s, 8);
    PaddedDigits(width, s);
  }

  lemma PaddedDigits(width: nat, s: Text)
    requires AreDigits(s, 8)
    ensures var p := Padded(width, 0x30, s);
            forall i :: 0 <= i < |p| ==> IsOctal(p[i])
  {
    var p := Padded(width, 0x30, s);
    forall i | 0 <= i < |p| ensures IsOctal(p[i]) {
      if i >= |p| - |s| {
        assert p[i] == s[i - (|p| - |s|)];
      }
    }
  }

  /**
   `parseOctal` undoes octal printing modulo 2^61 for every 64-bit value, whether or not the numeral is padded with
   zeros to any width up to 22, and whatever follows the terminator.
   */
  lemma PrintedOctalParses(v: nat, width: nat, upper: bool, rest: Text)
    requires v < TWO64 && width <= 22
    ensures Value(OctalPrefix(Padded(width, 0x30, Numeral(v, 8, upper)) + [NUL] + rest, 22), 8) % TWO61 == v % TWO61
  {
    var p := Padded(width, 0x30, Numeral(v, 8, upper));
    PaddedOctal(v, width, upper);
    var buf := p + [NUL] + rest;
    assert buf[..|p|] == p && buf[|p|] == NUL;
    OctalPrefixIs(buf, 22, |p|);
  }

  /** A 36-bit word printed as `%012llo` takes exactly twelve characters and parses back to the word. */
  lemma WordRoundTrip(w: nat, rest: Text)
    requires w < 0x10_0000_0000
    ensures var p := Padded(12, 0x30, Numeral(w, 8, false));
            |p| == 12 && Value(OctalPrefix(p + [NUL] + rest, 22), 8) % TWO61 == w
  {
    NumeralLength(w, 8, false, 12);
    PowersOfEight();
    PrintedOctalParses(w, 12, false, rest);
    assert w % TWO61 == w;
  }
}
