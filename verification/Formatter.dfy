/** The format engine behind `sprintf`: `strout` and `vsnprintf`. */
module Formatter {
  import opened Bytes
  import opened Numerals

  const PERCENT: byte := 0x25
  const TWO31: int := 0x8000_0000

  datatype Arg = Num(v: int) | Str(s: Text)

  // ---------------------------------------------------------------- reading a conversion

  /** The format character at `i`; a C string ends in NUL. */
  function At(f: Text, i: nat): byte {
    if i < |f| then f[i] else NUL
  }

  function SkipDigits(f: Text, i: nat): (j: nat)
    requires i <= |f|
    ensures i <= j <= |f| && !IsDecimal(At(f, j))
    ensures forall k :: i <= k < j ==> IsDecimal(f[k])
    decreases |f| - i
  {
    if IsDecimal(At(f, i)) then SkipDigits(f, i + 1) else i
  }

  /** A width held in an unsigned int and used as an int: from 2^31 on it is negative and pads nothing. */
  function FieldWidth(v: nat): nat {
    if v % TWO32 < TWO31 then v % TWO32 else 0
  }

  /** Padding, width, number of `l` modifiers, conversion character (NUL at the end of the format), where it ends. */
  datatype Conversion = Conversion(pad: byte, width: nat, long: nat, kind: byte, next: nat)

  /** The conversion whose `%` stands just before `i`. */
  function Convert(f: Text, i: nat): (c: Conversion)
    requires i <= |f|
    ensures i <= c.next <= |f| && (c.pad == SPACE || c.pad == 0x30)
  {
    var (pad, z) := Flags(f, i);
    var w := SkipDigits(f, z);
    var p := if At(f, w) == 0x2e then SkipDigits(f, w + 1) else w;
    var (long, l) := Modifiers(f, p);
    Conversion(pad, FieldWidth(Value(f[z..w], 10)), long, At(f, l), if l < |f| then l + 1 else l)
  }

  /** The minus sign is read and ignored; a zero asks for zero padding. */
  function Flags(f: Text, i: nat): (r: (byte, nat))
    requires i <= |f|
    ensures i <= r.1 <= |f| && (r.0 == SPACE || r.0 == 0x30)
  {
    var a := if At(f, i) == 0x2d then i + 1 else i;
    if At(f, a) == 0x30 then (0x30, a + 1) else (SPACE, a)
  }

  function Modifiers(f: Text, p: nat): (r: (nat, nat))
    requires p <= |f|
    ensures p <= r.1 <= |f|
  {
    if At(f, p) != 0x6c then (0, p) else if At(f, p + 1) != 0x6c then (1, p + 1) else (2, p + 2)
  }

  // ---------------------------------------------------------------- what the format says

  /** Does the conversion take an argument? */
  predicate Takes(kind: byte) {
    kind in {0x75, 0x64, 0x6f, 0x78, 0x58, 0x63, 0x73}
  }

  function Radix(kind: byte): (r: nat)
    ensures r in {8, 10, 16}
  {
    if kind == 0x6f then 8 else if kind == 0x78 || kind == 0x58 then 16 else 10
  }

  /** An argument of the type the conversion reads: strings for `s`, numbers of 32 or 64 bits for the rest. */
  predicate Fits(c: Conversion, arg: Arg) {
    match c.kind
    case 0x73 => arg.Str? && NUL !in arg.s
    case 0x63 => arg.Num?
    case 0x64 => arg.Num?
    case _ => arg.Num? && 0 <= arg.v < if c.long == 2 then TWO64 else TWO32
  }

  /** The digits of a number: 64-bit ones only in octal and hexadecimal. */
  function NumberText(c: Conversion, v: nat): Text {
    if c.long == 2 then LongLongText(v, Radix(c.kind), c.kind == 0x58) else Numeral(v, Radix(c.kind), c.kind == 0x58)
  }

  function SignedText(v: int): Text {
    (if v < 0 then [0x2d] else []) + NOT_IMPLEMENTED
  }

  /** What a conversion with an argument puts out; every signed one goes through the 64-bit printer in decimal. */
  function Expand(c: Conversion, arg: Arg): Text
    requires Fits(c, arg)
  {
    match c.kind
    case 0x73 => Padded(c.width, NUL, arg.s)
    case 0x63 => [arg.v % 0x100]
    case 0x64 => Padded(c.width, c.pad, SignedText(arg.v))
    case _ => Padded(c.width, c.pad, NumberText(c, arg.v))
  }

  /** The text, and whether the format was read to its end. */
  datatype Output = Output(text: Text, ended: bool)

  predicate Suitable(f: Text, i: nat, args: seq<Arg>)
    requires i <= |f|
    decreases |f| - i
  {
    if i == |f| then true
    else if f[i] != PERCENT then f[i] != NUL && Suitable(f, i + 1, args)
    else
      var c := Convert(f, i + 1);
      if c.kind == NUL then true
      else if Takes(c.kind) then args != [] && Fits(c, args[0]) && Suitable(f, c.next, args[1..])
      else Suitable(f, c.next, args)
  }

  function Render(f: Text, i: nat, args: seq<Arg>): Output
    requires i <= |f| && Suitable(f, i, args)
    decreases |f| - i
  {
    if i == |f| then Output([], true)
    else if f[i] != PERCENT then
      var rest := Render(f, i + 1, args);
      rest.(text := [f[i]] + rest.text)
    else
      var c := Convert(f, i + 1);
      if c.kind == NUL then Output([], false)
      else if Takes(c.kind) then
        var rest := Render(f, c.next, args[1..]);
        rest.(text := Expand(c, args[0]) + rest.text)
      else
        var rest := Render(f, c.next, args);
        rest.(text := (if c.kind == PERCENT then [PERCENT] else []) + rest.text)
  }

  // ---------------------------------------------------------------- conversion by conversion

  /** `text` is a field of the width given, padded with `pad` in front only, of a numeral of v. */
  predicate IsNumber(text: Text, width: nat, pad: byte, radix: nat, v: nat, n: nat) {
    && n < |text| && |text| >= width && (n > 0 ==> |text| == width)
    && (forall i :: 0 <= i < n ==> text[i] == pad)
    && Value(text[n..], radix) == v
    && (|text| > n + 1 ==> DigitValue(text[n]) != 0)
  }

  /** From `n` on the text has only decimal digits, and letters from `first` on for the digits from ten. */
  predicate HasLetters(text: Text, n: nat, first: char) {
    forall i :: n <= i < |text| ==>
      '0' as int <= text[i] <= '9' as int || first as int <= text[i] < first as int + 6
  }

  lemma NumeralStart(v: nat, radix: nat, upper: bool)
    requires 2 <= radix <= 36
    ensures |Numeral(v, radix, upper)| > 1 ==> DigitValue(Numeral(v, radix, upper)[0]) != 0
  {
    if v > 0 {
      NoLeadingZero(v, radix, upper);
    }
  }

  lemma PaddedNumber(width: nat, pad: byte, v: nat, radix: nat, upper: bool, text: Text) returns (n: nat)
    requires 2 <= radix <= 36 && text == Padded(width, pad, Numeral(v, radix, upper))
    ensures IsNumber(text, width, pad, radix, v, n) && text[n..] == Numeral(v, radix, upper)
  {
    var digits := Numeral(v, radix, upper);
    n := if width < |digits| then 0 else width - |digits|;
    NumeralReadsBack(v, radix, upper);
    NumeralStart(v, radix, upper);
    assert text[n..] == digits;
    assert text[n] == digits[0];
  }

  lemma LettersBehind(text: Text, n: nat, v: nat, upper: bool)
    requires n <= |text| && text[n..] == Numeral(v, 16, upper)
    ensures HasLetters(text, n, if upper then 'A' else 'a')
  {
    NumeralLetters(v, 16, upper);
    forall i | n <= i < |text| ensures IsDigitOf(text[i], 16, upper) {
      assert text[n..][i - n] == text[i];
    }
  }

  lemma ExpandNumber(c: Conversion, v: nat)
    requires c.kind in {0x6f, 0x78, 0x58, 0x75} && (c.kind != 0x75 || c.long != 2) && Fits(c, Num(v))
    ensures Expand(c, Num(v)) == Padded(c.width, c.pad, Numeral(v, Radix(c.kind), c.kind == 0x58))
  {
  }

  /** `%o`, whatever the modifiers. */
  lemma OctalField(c: Conversion, v: nat) returns (n: nat)
    requires c.kind == 'o' as int && Fits(c, Num(v))
    ensures IsNumber(Expand(c, Num(v)), c.width, c.pad, 8, v, n)
  {
    ExpandNumber(c, v);
    n := PaddedNumber(c.width, c.pad, v, 8, false, Expand(c, Num(v)));
  }

  /** `%x`, whatever the modifiers: hexadecimal in lower case. */
  lemma HexField(c: Conversion, v: nat) returns (n: nat)
    requires c.kind == 'x' as int && Fits(c, Num(v))
    ensures IsNumber(Expand(c, Num(v)), c.width, c.pad, 16, v, n) && HasLetters(Expand(c, Num(v)), n, 'a')
  {
    ExpandNumber(c, v);
    n := PaddedNumber(c.width, c.pad, v, 16, false, Expand(c, Num(v)));
    LettersBehind(Expand(c, Num(v)), n, v, false);
  }

  /** `%X`, the same in upper case. */
  lemma UpperHexField(c: Conversion, v: nat) returns (n: nat)
    requires c.kind == 'X' as int && Fits(c, Num(v))
    ensures IsNumber(Expand(c, Num(v)), c.width, c.pad, 16, v, n) && HasLetters(Expand(c, Num(v)), n, 'A')
  {
    ExpandNumber(c, v);
    n := PaddedNumber(c.width, c.pad, v, 16, true, Expand(c, Num(v)));
    LettersBehind(Expand(c, Num(v)), n, v, true);
  }

  /** `%u` and `%lu`. */
  lemma UnsignedField(c: Conversion, v: nat) returns (n: nat)
    requires c.kind == 'u' as int && c.long != 2 && Fits(c, Num(v))
    ensures IsNumber(Expand(c, Num(v)), c.width, c.pad, 10, v, n)
  {
    ExpandNumber(c, v);
    n := PaddedNumber(c.width, c.pad, v, 10, false, Expand(c, Num(v)));
  }

  /** `%llu` and every `%d` print no number, a minus sign at most. */
  lemma DecimalLongField(c: Conversion, v: int)
    requires (c.kind == 'u' as int && c.long == 2 && Fits(c, Num(v))) || c.kind == 'd' as int
    ensures var message := Ascii("Not implemented");
            Expand(c, Num(v)) == Padded(c.width, c.pad, if v < 0 then [0x2d] + message else message)
  {
    assert NOT_IMPLEMENTED == Ascii("Not implemented");
    assert [] + NOT_IMPLEMENTED == NOT_IMPLEMENTED;
  }

  /** `%c` is the low byte; `%s` is the string, with NULs in front up to the width. */
  lemma TextFields(c: Conversion, v: int, s: Text)
    requires NUL !in s
    ensures c.kind == 'c' as int ==> Expand(c, Num(v)) == [v % 0x100]
    ensures c.kind == 's' as int ==>
              var text, n := Expand(c, Str(s)), if c.width > |s| then c.width - |s| else 0;
              && |text| == n + |s| && text[n..] == s && forall i :: 0 <= i < n ==> text[i] == 0
  {
  }

  /** Any other character after the percent sign takes no argument and prints nothing, except a second percent sign. */
  lemma OtherConversion(f: Text, i: nat, args: seq<Arg>)
    requires i < |f| && f[i] == '%' as int && Suitable(f, i, args)
    requires var kind := Convert(f, i + 1).kind;
             kind != 0 && forall k :: 0 <= k < 7 ==> kind != Ascii("udoxXcs")[k]
    ensures var c := Convert(f, i + 1);
            && Suitable(f, c.next, args)
            && Render(f, i, args).text
               == (if c.kind == '%' as int then [0x25] else []) + Render(f, c.next, args).text
  {
    var kind := Convert(f, i + 1).kind;
    var s := Ascii("udoxXcs");
    assert s[0] == 0x75 && s[1] == 0x64 && s[2] == 0x6f && s[3] == 0x78 && s[4] == 0x58 && s[5] == 0x63 && s[6] == 0x73;
  }

  /** A width from 2^31 on, counted in 32 bits, is negative as an int and pads nothing. */
  lemma WideField(v: nat)
    ensures FieldWidth(v) == if v % 0x1_0000_0000 < 0x8000_0000 then v % 0x1_0000_0000 else 0
  {
  }

  /** A minus sign in front of the flags makes no difference. */
  lemma MinusIgnored(f: Text, i: nat)
    requires i < |f| && f[i] == '-' as int && At(f, i + 1) != '-' as int
    ensures Convert(f, i) == Convert(f, i + 1)
  {
  }

  // ---------------------------------------------------------------- when the text is a C string of that length

  /** No conversion reached from `i` on is cut off by the end of the format. */
  predicate Complete(f: Text, i: nat)
    requires i <= |f|
    decreases |f| - i
  {
    i == |f| ||
    if f[i] != PERCENT then Complete(f, i + 1)
    else
      var c := Convert(f, i + 1);
      c.kind != NUL && Complete(f, c.next)
  }

  /** The format is read to its end, and the text hence terminated, exactly when it is complete. */
  lemma {:induction false} EndedWhenComplete(f: Text, i: nat, args: seq<Arg>)
    requires i <= |f| && Suitable(f, i, args)
    ensures Render(f, i, args).ended <==> Complete(f, i)
    decreases |f| - i
  {
    if i < |f| {
      var c := Convert(f, i + 1);
      if f[i] != PERCENT {
        EndedWhenComplete(f, i + 1, args);
      } else if c.kind != NUL {
        EndedWhenComplete(f, c.next, if Takes(c.kind) then args[1..] else args);
      }
    }
  }

  /** Such a format is a single percent sign. */
  lemma PercentIsIncomplete()
    ensures Suitable([PERCENT], 0, []) && !Complete([PERCENT], 0)
  {
  }

  lemma {:induction false} NumeralHasNoNul(v: nat, radix: nat, upper: bool)
    requires 2 <= radix <= 36
    ensures NUL !in Numeral(v, radix, upper)
    decreases v
  {
    if v / radix != 0 {
      NumeralHasNoNul(Quotient(v, radix), radix, upper);
    }
  }

  /** `%s` pads with NUL and `%c` may be one; nothing else puts out a NUL. */
  predicate PutsNul(c: Conversion, arg: Arg)
    requires Fits(c, arg)
  {
    match c.kind
    case 0x73 => c.width > |arg.s|
    case 0x63 => arg.v % 0x100 == 0
    case _ => false
  }

  lemma PaddedHasNul(width: nat, pad: byte, s: Text)
    requires NUL !in s
    ensures NUL in Padded(width, pad, s) <==> pad == NUL && width > |s|
  {
    var p := Padded(width, pad, s);
    if width > |s| {
      assert p[0] == pad;
    }
  }

  lemma NumberHasNoNul(c: Conversion, v: nat)
    ensures NUL !in NumberText(c, v)
  {
    NumeralHasNoNul(v, Radix(c.kind), c.kind == 0x58);
  }

  lemma ExpandHasNul(c: Conversion, arg: Arg)
    requires Fits(c, arg) && (c.pad == SPACE || c.pad == 0x30)
    ensures NUL in Expand(c, arg) <==> PutsNul(c, arg)
  {
    match c.kind
    case 0x73 => PaddedHasNul(c.width, NUL, arg.s);
    case 0x63 =>
    case 0x64 => PaddedHasNul(c.width, c.pad, SignedText(arg.v));
    case _ =>
      NumberHasNoNul(c, arg.v);
      PaddedHasNul(c.width, c.pad, NumberText(c, arg.v));
  }

  /** No `%s` reached from `i` on asks for more than its string has, and no `%c` prints a NUL. */
  predicate NulFree(f: Text, i: nat, args: seq<Arg>)
    requires i <= |f| && Suitable(f, i, args)
    decreases |f| - i
  {
    i == |f| ||
    if f[i] != PERCENT then NulFree(f, i + 1, args)
    else
      var c := Convert(f, i + 1);
      if c.kind == NUL then true
      else if Takes(c.kind) then !PutsNul(c, args[0]) && NulFree(f, c.next, args[1..])
      else NulFree(f, c.next, args)
  }

  lemma NulIn(a: Text, b: Text)
    ensures NUL in a + b <==> NUL in a || NUL in b
  {
  }

  lemma {:induction false} RenderHasNul(f: Text, i: nat, args: seq<Arg>)
    requires i <= |f| && Suitable(f, i, args)
    ensures NUL !in Render(f, i, args).text <==> NulFree(f, i, args)
    decreases |f| - i
  {
    if i < |f| {
      var c := Convert(f, i + 1);
      if f[i] != PERCENT {
        RenderHasNul(f, i + 1, args);
        NulIn([f[i]], Render(f, i + 1, args).text);
      } else if c.kind != NUL && Takes(c.kind) {
        RenderHasNul(f, c.next, args[1..]);
        ExpandHasNul(c, args[0]);
        NulIn(Expand(c, args[0]), Render(f, c.next, args[1..]).text);
      } else if c.kind != NUL {
        RenderHasNul(f, c.next, args);
        NulIn(if c.kind == PERCENT then [PERCENT] else [], Render(f, c.next, args).text);
      }
    }
  }

  /** What C reads from the buffer is the whole text that `ret` counts exactly when the format puts out no NUL. */
  lemma TextIsCString(f: Text, args: seq<Arg>)
    requires Suitable(f, 0, args)
    ensures var text := Render(f, 0, args).text;
            CString(text + [NUL]) == text <==> NulFree(f, 0, args)
  {
    var text := Render(f, 0, args).text;
    RenderHasNul(f, 0, args);
    if NUL !in text {
      assert (text + [NUL])[..|text|] == text;
      CStringIs(text + [NUL], |text|);
    }
  }

  /** A case where it is shorter: `%3s` of a string of two. */
  lemma PaddedStringIsCut(s: Text)
    requires |s| == 2 && NUL !in s
    ensures var f := [PERCENT, 0x33, 0x73];
            Suitable(f, 0, [Str(s)]) && Complete(f, 0) && !NulFree(f, 0, [Str(s)])
  {
    var f := [PERCENT, 0x33, 0x73];
    assert SkipDigits(f, 1) == 2 by { assert SkipDigits(f, 2) == 2; }
    assert f[1..2] == [0x33] && [0x33][..0] == [];
    assert Value([0x33], 10) == 3;
    assert Convert(f, 1) == Conversion(SPACE, 3, 0, 0x73, 3);
  }

  // ---------------------------------------------------------------- writing into the buffer

  /** `text` has been written over `before` from `at` on. */
  ghost predicate Wrote(before: seq<byte>, now: seq<byte>, at: nat, text: Text) {
    && at + |text| <= |before|
    && now == before[..at] + text + before[at + |text|..]
  }

  lemma WroteMore(before: seq<byte>, mid: seq<byte>, now: seq<byte>, at: nat, a: Text, b: Text)
    requires Wrote(before, mid, at, a) && Wrote(mid, now, at + |a|, b)
    ensures Wrote(before, now, at, a + b)
  {
  }

  lemma WroteByte(before: seq<byte>, at: nat, ch: byte)
    requires at < |before|
    ensures Wrote(before, before[at := ch], at, [ch])
  {
  }

  /** `*dest++ = ch`, extending what has been written. */
  method PutByte(buf: array<byte>, ghost before: seq<byte>, ghost at: nat, ghost done: Text, dest: nat, ch: byte)
    requires dest == at + |done| < buf.Length == |before| && Wrote(before, buf[..], at, done)
    modifies buf
    ensures Wrote(before, buf[..], at, done + [ch])
  {
    WroteByte(buf[..], dest, ch);
    WroteMore(before, buf[..], buf[..][dest := ch], at, done, [ch]);
    buf[dest] := ch;
  }

  /** `src` holds `text` as a C string. */
  ghost predicate Holds(src: seq<byte>, text: Text) {
    && |text| < |src| && src[|text|] == NUL
    && forall j :: 0 <= j < |text| ==> src[j] == text[j] && text[j] != NUL
  }

  function Pads(n: nat, pad: byte): (s: Text)
    ensures |s| == n
  {
    seq(n, _ => pad)
  }

  method PutPadding(buf: array<byte>, dest: nat, padchar: byte, left: nat) returns (ret: nat)
    requires dest + left <= buf.Length
    modifies buf
    ensures ret == left && Wrote(old(buf[..]), buf[..], dest, Pads(left, padchar))
  {
    var n: nat := left;
    ret := 0;
    while n > 0
      invariant n + ret == left && Wrote(old(buf[..]), buf[..], dest, Pads(ret, padchar))
    {
      PutByte(buf, old(buf[..]), dest, Pads(ret, padchar), dest + ret, padchar);
      assert Pads(ret + 1, padchar) == Pads(ret, padchar) + [padchar];
      n := n - 1;
      ret := ret + 1;
    }
  }

  method PutString(buf: array<byte>, dest: nat, src: array<byte>, ghost text: Text) returns (ret: nat)
    requires buf != src && Holds(src[..], text) && dest + |text| <= buf.Length
    modifies buf
    ensures ret == |text| && Wrote(old(buf[..]), buf[..], dest, text)
  {
    ret := 0;
    while src[ret] != NUL
      invariant ret <= |text| && src[..] == old(src[..])
      invariant Wrote(old(buf[..]), buf[..], dest, text[..ret])
      decreases |text| - ret
    {
      PutByte(buf, old(buf[..]), dest, text[..ret], dest + ret, src[ret]);
      assert text[..ret + 1] == text[..ret] + [text[ret]];
      ret := ret + 1;
    }
    assert ret == |text|;
    assert text[..ret] == text;
  }

  /** Pads on the left, then copies the string. */
  method StrOut(width: nat, padchar: byte, buf: array<byte>, dest: nat, src: array<byte>, ghost text: Text)
    returns (ret: nat)
    requires buf != src && Holds(src[..], text)
    requires dest + |Padded(width, padchar, text)| <= buf.Length
    modifies buf
    ensures ret == |Padded(width, padchar, text)|
    ensures Wrote(old(buf[..]), buf[..], dest, Padded(width, padchar, text))
  {
    var left: nat := width;
    var p := 0;
    while src[p] != NUL && left > 0
      invariant 0 <= p <= |text| && left + p == width
      decreases left
    {
      p := p + 1;
      left := left - 1;
    }
    assert left == if width < |text| then 0 else width - |text|;
    var padding := PutPadding(buf, dest, padchar, left);
    ghost var mid := buf[..];
    ret := PutString(buf, dest + padding, src, text);
    WroteMore(old(buf[..]), mid, buf[..], dest, Pads(left, padchar), text);
    assert Padded(width, padchar, text) == Pads(left, padchar) + text;
    ret := ret + padding;
  }

  // ---------------------------------------------------------------- one conversion

  lemma ShortNumeral(v: nat, radix: nat, upper: bool)
    requires v < TWO64 && radix in {8, 10, 16}
    ensures |Numeral(v, radix, upper)| <= 22
  {
    PowersOfEight();
    assert Pow(10, 11) == 100_000_000_000;
    assert Pow(10, 22) >= TWO64;
    assert Pow(16, 11) == 0x1000_0000_0000;
    assert Pow(16, 22) >= TWO64;
    NumeralLength(v, radix, upper, 22);
  }

  lemma StoredHolds(before: seq<byte>, now: seq<byte>, text: Text)
    requires Stored(before, now, 0, text) && forall j :: 0 <= j < |text| ==> text[j] != NUL
    ensures Holds(now, text)
  {
  }

  /** `lltoa` in decimal: a sign, and then the 64-bit printer, which has no decimal. */
  method PutSigned(v: int, temp: array<byte>)
    requires temp.Length == 80
    modifies temp
    ensures Holds(temp[..], SignedText(v))
  {
    var at := 0;
    if v < 0 {
      temp[0] := 0x2d;
      at := 1;
    }
    StrCpy(temp, at, NOT_IMPLEMENTED);
  }

  method PutUnsigned(c: Conversion, v: nat, temp: array<byte>)
    requires temp.Length == 80
    requires v < if c.long == 2 then TWO64 else TWO32
    modifies temp
    ensures Holds(temp[..], NumberText(c, v))
  {
    ghost var before := temp[..];
    var radix, upper := Radix(c.kind), c.kind == 0x58;
    ShortNumeral(v, radix, upper);
    NumeralHasNoNul(v, radix, upper);
    if c.long == 2 {
      var _ := Ulltoa(v, temp, 0, radix, upper);
    } else {
      var _ := Ultoa(v, temp, 0, radix, upper);
    }
    StoredHolds(before, temp[..], NumberText(c, v));
  }

  /** A string argument in memory. */
  method CopyOfString(s: Text) returns (src: array<byte>)
    requires NUL !in s
    ensures fresh(src) && Holds(src[..], s)
  {
    src := new byte[|s| + 1](i => if 0 <= i < |s| then s[i] else NUL);
    assert forall j :: 0 <= j < |s| ==> s[j] in s;
  }

  /** One conversion that takes an argument. */
  method PutArgument(buf: array<byte>, at: nat, c: Conversion, arg: Arg) returns (ret: nat)
    requires Takes(c.kind) && Fits(c, arg) && at + |Expand(c, arg)| <= buf.Length
    modifies buf
    ensures ret == |Expand(c, arg)| && Wrote(old(buf[..]), buf[..], at, Expand(c, arg))
  {
    if c.kind == 0x63 {
      WroteByte(buf[..], at, arg.v % 0x100);
      buf[at] := arg.v % 0x100;
      ret := 1;
    } else if c.kind == 0x73 {
      var src := CopyOfString(arg.s);
      ret := StrOut(c.width, NUL, buf, at, src, arg.s);
    } else {
      var temp := new byte[80];
      if c.kind == 0x64 {
        PutSigned(arg.v, temp);
        ret := StrOut(c.width, c.pad, buf, at, temp, SignedText(arg.v));
      } else {
        PutUnsigned(c, arg.v, temp);
        ret := StrOut(c.width, c.pad, buf, at, temp, NumberText(c, arg.v));
      }
    }
  }

  // ---------------------------------------------------------------- reading the format

  lemma WidthStep(v: nat, d: nat)
    ensures (v % TWO32 * 10 + d) % TWO32 == (v * 10 + d) % TWO32
  {
    var q, r := v / TWO32, v % TWO32;
    assert v * 10 + d == (10 * q) * TWO32 + (r * 10 + d);
    ModTwo32(10 * q, r * 10 + d);
  }

  lemma ModTwo32(k: int, x: int)
    ensures (k * TWO32 + x) % TWO32 == x % TWO32
  {
  }

  /** A run of decimal digits, as an unsigned int. */
  method ParseWidth(fmt: Text, from: nat) returns (width: nat, p: nat)
    requires from <= |fmt|
    ensures p == SkipDigits(fmt, from) && width == Value(fmt[from..p], 10) % TWO32
  {
    width, p := 0, from;
    ghost var end := SkipDigits(fmt, from);
    while IsDecimal(At(fmt, p))
      invariant from <= p <= end && SkipDigits(fmt, p) == end
      invariant width == Value(fmt[from..p], 10) % TWO32
      decreases |fmt| - p
    {
      WidthStep(Value(fmt[from..p], 10), fmt[p] - 0x30);
      assert fmt[from..p + 1][..p - from] == fmt[from..p];
      width := (width * 10 + (fmt[p] as int - 0x30)) % TWO32;
      p := p + 1;
    }
  }

  method ParseFlags(fmt: Text, from: nat) returns (pad: byte, p: nat)
    requires from <= |fmt|
    ensures (pad, p) == Flags(fmt, from)
  {
    p := from;
    pad := SPACE;
    if At(fmt, p) == 0x2d {
      p := p + 1;
    }
    if At(fmt, p) == 0x30 {
      pad := 0x30;
      p := p + 1;
    }
  }

  method ParseModifiers(fmt: Text, from: nat) returns (long: nat, p: nat)
    requires from <= |fmt|
    ensures (long, p) == Modifiers(fmt, from)
  {
    p := from;
    long := 0;
    if At(fmt, p) == 0x6c {
      p := p + 1;
      long := 1;
      if At(fmt, p) == 0x6c {
        p := p + 1;
        long := 2;
      }
    }
  }

  /** Reads flags, width, precision, modifiers and conversion character. */
  method ParseConversion(fmt: Text, from: nat) returns (c: Conversion)
    requires from <= |fmt|
    ensures c == Convert(fmt, from)
  {
    var pad, p := ParseFlags(fmt, from);
    var width;
    width, p := ParseWidth(fmt, p);
    if At(fmt, p) == 0x2e {
      var prec;
      prec, p := ParseWidth(fmt, p + 1);
    }
    var long;
    long, p := ParseModifiers(fmt, p);
    c := Conversion(pad, if width < TWO31 then width else 0, long, At(fmt, p), if p < |fmt| then p + 1 else p);
  }

  // ---------------------------------------------------------------- the engine

  /** What is left to put out at `i` with the arguments from `k` on. */
  ghost predicate Progress(f: Text, args: seq<Arg>, i: nat, k: nat, done: Text) {
    && i <= |f| && k <= |args|
    && Suitable(f, 0, args) && Suitable(f, i, args[k..])
    && Render(f, 0, args).text == done + Render(f, i, args[k..]).text
    && Render(f, 0, args).ended == Render(f, i, args[k..]).ended
  }

  lemma ProgressLiteral(f: Text, args: seq<Arg>, i: nat, k: nat, done: Text)
    requires Progress(f, args, i, k, done) && i < |f| && f[i] != PERCENT
    ensures Progress(f, args, i + 1, k, done + [f[i]])
    ensures |done| < |Render(f, 0, args).text|
  {
    var rest := Render(f, i + 1, args[k..]).text;
    assert done + ([f[i]] + rest) == done + [f[i]] + rest;
  }

  lemma ProgressArgument(f: Text, args: seq<Arg>, i: nat, k: nat, done: Text, c: Conversion)
    requires Progress(f, args, i, k, done) && i < |f| && f[i] == PERCENT
    requires c == Convert(f, i + 1) && Takes(c.kind)
    ensures k < |args| && Fits(c, args[k])
    ensures Progress(f, args, c.next, k + 1, done + Expand(c, args[k]))
    ensures |done + Expand(c, args[k])| <= |Render(f, 0, args).text|
  {
    assert args[k..][1..] == args[k + 1..];
    var rest := Render(f, c.next, args[k + 1..]).text;
    assert done + (Expand(c, args[k]) + rest) == done + Expand(c, args[k]) + rest;
  }

  lemma ProgressPlain(f: Text, args: seq<Arg>, i: nat, k: nat, done: Text, c: Conversion)
    requires Progress(f, args, i, k, done) && i < |f| && f[i] == PERCENT
    requires c == Convert(f, i + 1) && !Takes(c.kind) && c.kind != NUL
    ensures var out := if c.kind == PERCENT then [PERCENT] else [];
            Progress(f, args, c.next, k, done + out) && |done + out| <= |Render(f, 0, args).text|
  {
    var out: Text := if c.kind == PERCENT then [PERCENT] else [];
    var rest := Render(f, c.next, args[k..]).text;
    assert done + (out + rest) == done + out + rest;
  }

  /** A complete conversion that stands at `i`. */
  method PutConversion(buf: array<byte>, at: nat, fmt: Text, args: seq<Arg>, i: nat, k: nat, ret: nat, c: Conversion,
                       ghost before: seq<byte>, ghost done: Text)
    returns (ret': nat, k': nat, ghost done': Text)
    requires Progress(fmt, args, i, k, done) && i < |fmt| && fmt[i] == PERCENT
    requires c == Convert(fmt, i + 1) && c.kind != NUL
    requires ret == |done| && at + |Render(fmt, 0, args).text| < buf.Length == |before|
    requires Wrote(before, buf[..], at, done)
    modifies buf
    ensures Progress(fmt, args, c.next, k', done')
    ensures ret' == |done'| <= |Render(fmt, 0, args).text| && Wrote(before, buf[..], at, done')
  {
    if Takes(c.kind) {
      ProgressArgument(fmt, args, i, k, done, c);
      ghost var mid := buf[..];
      var n := PutArgument(buf, at + ret, c, args[k]);
      WroteMore(before, mid, buf[..], at, done, Expand(c, args[k]));
      ret', k', done' := ret + n, k + 1, done + Expand(c, args[k]);
    } else {
      ProgressPlain(fmt, args, i, k, done, c);
      ret', k', done' := ret, k, done + [];
      if c.kind == PERCENT {
        PutByte(buf, before, at, done, at + ret, PERCENT);
        ret', done' := ret + 1, done + [PERCENT];
      }
    }
  }

  /**
   Writes the text at `buf[at..]` and returns its length. It is NUL-terminated exactly when the format is complete;
   nothing else in the buffer changes.
   */
  method Vsnprintf(buf: array<byte>, at: nat, fmt: Text, args: seq<Arg>) returns (ret: nat)
    requires Suitable(fmt, 0, args)
    requires at + |Render(fmt, 0, args).text| < buf.Length
    modifies buf
    ensures var out := Render(fmt, 0, args);
            && ret == |out.text|
            && (out.ended <==> Complete(fmt, 0))
            && Wrote(old(buf[..]), buf[..], at, out.text + if Complete(fmt, 0) then [NUL] else [])
  {
    EndedWhenComplete(fmt, 0, args);
    ghost var before, all := buf[..], Render(fmt, 0, args);
    var i, k := 0, 0;
    ret := 0;
    ghost var done: Text := [];
    assert args[0..] == args;
    while i < |fmt|
      invariant Progress(fmt, args, i, k, done)
      invariant ret == |done| <= |all.text| && Wrote(before, buf[..], at, done)
      decreases |fmt| - i
    {
      if fmt[i] != PERCENT {
        ProgressLiteral(fmt, args, i, k, done);
        PutByte(buf, before, at, done, at + ret, fmt[i]);
        done := done + [fmt[i]];
        ret := ret + 1;
        i := i + 1;
      } else {
        var c := ParseConversion(fmt, i + 1);
        if c.kind == NUL {
          ProgressEnd(fmt, args, i, k, done);
          return;
        }
        ret, k, done := PutConversion(buf, at, fmt, args, i, k, ret, c, before, done);
        i := c.next;
      }
    }
    ProgressEnd(fmt, args, i, k, done);
    PutByte(buf, before, at, done, at + ret, NUL);
  }

  lemma ProgressEnd(f: Text, args: seq<Arg>, i: nat, k: nat, done: Text)
    requires Progress(f, args, i, k, done)
    requires i == |f| || (f[i] == PERCENT && Convert(f, i + 1).kind == NUL)
    ensures Render(f, 0, args) == Output(done, i == |f|)
    ensures done + [] == done
  {
    assert done + [] == done;
  }
}
