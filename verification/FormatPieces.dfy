/** Format strings as lists of pieces: writing a list down and rendering it puts out the pieces one after the other. */
module FormatPieces {
  import opened Bytes
  import opened Numerals
  import opened Formatter

  /** A literal character, or a field with optional zero padding and minimum width. */
  datatype Piece = Lit(ch: byte) | Field(zero: bool, width: nat, long: nat, kind: byte)

  predicate Writable(p: Piece) {
    match p
    case Lit(ch) => ch != NUL
    case Field(_, width, long, kind) => width < TWO31 && long <= 2 && Takes(kind)
  }

  predicate AllWritable(ps: seq<Piece>) {
    forall i :: 0 <= i < |ps| ==> Writable(ps[i])
  }

  function WidthDigits(width: nat): Text {
    if width == 0 then [] else Numeral(width, 10, false)
  }

  function LongMarks(long: nat): Text
    requires long <= 2
  {
    if long == 0 then [] else if long == 1 then [0x6c] else [0x6c, 0x6c]
  }

  /** How a piece is written in a format string. */
  function FormatOf(p: Piece): (f: Text)
    requires Writable(p)
    ensures |f| >= 1
  {
    match p
    case Lit(ch) => if ch == PERCENT then [PERCENT, PERCENT] else [ch]
    case Field(zero, width, long, kind) =>
      [PERCENT] + (if zero then [0x30] else []) + WidthDigits(width) + LongMarks(long) + [kind]
  }

  function FormatText(ps: seq<Piece>): Text
    requires AllWritable(ps)
  {
    if ps == [] then [] else FormatOf(ps[0]) + FormatText(ps[1..])
  }

  function Reading(p: Piece, next: nat): Conversion
    requires p.Field?
  {
    Conversion(if p.zero then 0x30 else SPACE, p.width, p.long, p.kind, next)
  }

  predicate Supplies(args: seq<Arg>, ps: seq<Piece>) {
    if ps == [] then true
    else if ps[0].Lit? then Supplies(args, ps[1..])
    else args != [] && Fits(Reading(ps[0], 0), args[0]) && Supplies(args[1..], ps[1..])
  }

  /** The pieces' texts, one after the other. */
  function TextOf(ps: seq<Piece>, args: seq<Arg>): Text
    requires Supplies(args, ps)
  {
    if ps == [] then []
    else if ps[0].Lit? then [ps[0].ch] + TextOf(ps[1..], args)
    else Expand(Reading(ps[0], 0), args[0]) + TextOf(ps[1..], args[1..])
  }

  // ---------------------------------------------------------------- fields are read as they were written

  lemma {:induction false} SkipDigitsIs(f: Text, i: nat, j: nat)
    requires i <= j <= |f| && !IsDecimal(At(f, j))
    requires forall k :: i <= k < j ==> IsDecimal(f[k])
    ensures SkipDigits(f, i) == j
    decreases j - i
  {
    if i < j {
      SkipDigitsIs(f, i + 1, j);
    }
  }

  /** A precision, a point with digits behind it, is read and makes no difference. */
  lemma PrecisionIgnored(f: Text, i: nat, w: nat, q: nat)
    requires i <= w < q <= |f| && f[w] == '.' as int
    requires (forall k :: i <= k < w ==> IsDecimal(f[k])) && (i < w ==> f[i] != '0' as int)
    requires (forall k :: w < k < q ==> IsDecimal(f[k])) && !IsDecimal(At(f, q)) && At(f, q) != 'l' as int
    ensures Convert(f, i)
         == Conversion(SPACE, FieldWidth(Value(f[i..w], 10)), 0, At(f, q), if q < |f| then q + 1 else q)
  {
    SkipDigitsIs(f, i, w);
    SkipDigitsIs(f, w + 1, q);
    assert Flags(f, i) == (SPACE, i);
    assert Modifiers(f, q) == (0, q);
  }

  lemma WidthReadsBack(width: nat)
    requires width < TWO31
    ensures FieldWidth(Value(WidthDigits(width), 10)) == width
    ensures forall i :: 0 <= i < |WidthDigits(width)| ==> IsDecimal(WidthDigits(width)[i])
    ensures WidthDigits(width) != [] ==> WidthDigits(width)[0] != 0x30
  {
    SmallWidth(width);
    if width > 0 {
      NumeralReadsBack(width, 10, false);
      DecimalNumeral(width);
    }
  }

  lemma SmallWidth(width: nat)
    requires width < TWO31
    ensures FieldWidth(width) == width && FieldWidth(0) == 0
  {
  }

  /** The parts of a written field, by position in it. */
  lemma PartsOf(p: Piece, a: nat, w: nat, l: nat)
    requires p.Field? && Writable(p)
    requires a == 1 + (if p.zero then 1 else 0) && w == a + |WidthDigits(p.width)| && l == w + p.long
    ensures var g := FormatOf(p);
            && |g| == l + 1 && g[0] == PERCENT && (p.zero ==> g[1] == 0x30)
            && g[a..w] == WidthDigits(p.width) && g[w..l] == LongMarks(p.long) && g[l] == p.kind
  {
  }

  lemma Embedded(f: Text, i: nat, g: Text, a: nat, w: nat, l: nat)
    requires i + |g| <= |f| && f[i..i + |g|] == g && 0 < a <= w <= l < |g|
    ensures f[i] == g[0] && f[i + 1] == g[1] && f[i + l] == g[l]
    ensures f[i + a..i + w] == g[a..w] && f[i + w..i + l] == g[w..l]
  {
    SliceOfSlice(f, i, i + |g|, a, w);
    SliceOfSlice(f, i, i + |g|, w, l);
    assert f[i..i + |g|][0] == f[i] && f[i..i + |g|][1] == f[i + 1] && f[i..i + |g|][l] == f[i + l];
  }

  lemma MarksRead(f: Text, w: nat, long: nat, kind: byte)
    requires long <= 2 && w + long < |f|
    requires f[w..w + long] == LongMarks(long) && f[w + long] == kind && Takes(kind)
    ensures Modifiers(f, w) == (long, w + long)
    ensures !IsDecimal(f[w]) && f[w] != 0x2e && f[w] != 0x30 && f[w] != 0x2d
  {
    if long > 0 {
      assert f[w] == f[w..w + long][0];
    }
    if long > 1 {
      assert f[w + 1] == f[w..w + long][1];
    }
  }

  lemma FlagsRead(f: Text, i: nat, zero: bool)
    requires i < |f| && if zero then f[i] == 0x30 else f[i] != 0x30 && f[i] != 0x2d
    ensures Flags(f, i) == if zero then (0x30, i + 1) else (SPACE, i)
  {
  }

  lemma ConvertIs(f: Text, i: nat, pad: byte, a: nat, w: nat, long: nat, kind: byte)
    requires i <= |f| && Flags(f, i) == (pad, a) && a <= |f| && SkipDigits(f, a) == w
    requires At(f, w) != 0x2e && Modifiers(f, w) == (long, w + long)
    requires w + long < |f| && f[w + long] == kind
    ensures Convert(f, i) == Conversion(pad, FieldWidth(Value(f[a..w], 10)), long, kind, w + long + 1)
  {
  }

  /** The width digits stop at the modifiers or the conversion character. */
  lemma WidthRead(f: Text, a: nat, w: nat, width: nat)
    requires width < TWO31 && a <= w < |f| && f[a..w] == WidthDigits(width) && !IsDecimal(f[w])
    ensures SkipDigits(f, a) == w && FieldWidth(Value(f[a..w], 10)) == width
    ensures a < w ==> IsDecimal(f[a]) && f[a] != 0x30
  {
    WidthReadsBack(width);
    forall k | a <= k < w ensures IsDecimal(f[k]) && (k == a ==> f[k] != 0x30) {
      assert f[a..w][k - a] == f[k];
    }
    SkipDigitsIs(f, a, w);
  }

  /** The parts of a written field, by position in the format. */
  lemma FieldLayout(f: Text, i: nat, p: Piece, a: nat, w: nat, l: nat)
    requires p.Field? && Writable(p) && i + |FormatOf(p)| <= |f|
    requires f[i..i + |FormatOf(p)|] == FormatOf(p)
    requires a == 1 + (if p.zero then 1 else 0) && w == a + |WidthDigits(p.width)| && l == w + p.long
    ensures l + 1 == |FormatOf(p)|
    ensures f[i] == PERCENT && (p.zero ==> f[i + 1] == 0x30)
    ensures f[i + a..i + w] == WidthDigits(p.width) && f[i + w..i + l] == LongMarks(p.long) && f[i + l] == p.kind
  {
    PartsOf(p, a, w, l);
    Embedded(f, i, FormatOf(p), a, w, l);
  }

  /** The parts, found where they were written, are read back one by one. */
  lemma PartsRead(f: Text, i: nat, zero: bool, a: nat, w: nat, width: nat, long: nat, kind: byte)
    requires width < TWO31 && long <= 2 && Takes(kind) && w + long < |f|
    requires a == i + (if zero then 1 else 0) && w == a + |WidthDigits(width)|
    requires zero ==> f[i] == 0x30
    requires f[a..w] == WidthDigits(width) && f[w..w + long] == LongMarks(long) && f[w + long] == kind
    ensures Convert(f, i) == Conversion(if zero then 0x30 else SPACE, width, long, kind, w + long + 1)
  {
    MarksRead(f, w, long, kind);
    WidthRead(f, a, w, width);
    FlagsRead(f, i, zero);
    ConvertIs(f, i, if zero then 0x30 else SPACE, a, w, long, kind);
  }

  /** A written field is read as the conversion it stands for. */
  lemma FieldReadsBack(f: Text, i: nat, p: Piece)
    requires p.Field? && Writable(p) && i + |FormatOf(p)| <= |f|
    requires f[i..i + |FormatOf(p)|] == FormatOf(p)
    ensures f[i] == PERCENT
    ensures Convert(f, i + 1) == Reading(p, i + |FormatOf(p)|)
  {
    var a := 1 + if p.zero then 1 else 0;
    var w := a + |WidthDigits(p.width)|;
    FieldLayout(f, i, p, a, w, w + p.long);
    PlacedPartsRead(f, i, p.zero, a, w, p.width, p.long, p.kind);
    assert |FormatOf(p)| == w + p.long + 1;
  }

  lemma PlacedPartsRead(f: Text, i: nat, zero: bool, a: nat, w: nat, width: nat, long: nat, kind: byte)
    requires width < TWO31 && long <= 2 && Takes(kind) && i + w + long < |f|
    requires a == 1 + (if zero then 1 else 0) && w == a + |WidthDigits(width)|
    requires zero ==> f[i + 1] == 0x30
    requires f[i + a..i + w] == WidthDigits(width) && f[i + w..i + (w + long)] == LongMarks(long)
    requires f[i + (w + long)] == kind
    ensures Convert(f, i + 1) == Conversion(if zero then 0x30 else SPACE, width, long, kind, i + (w + long + 1))
  {
    PartsRead(f, i + 1, zero, i + a, i + w, width, long, kind);
  }

  lemma FirstPiece(f: Text, i: nat, ps: seq<Piece>)
    requires ps != [] && AllWritable(ps) && i <= |f| && f[i..] == FormatText(ps)
    ensures var n := |FormatOf(ps[0])|;
            && i + n <= |f| && f[i..i + n] == FormatOf(ps[0]) && f[i + n..] == FormatText(ps[1..])
  {
    FrontOf(f, i, FormatOf(ps[0]), FormatText(ps[1..]));
  }

  lemma FrontOf(f: Text, i: nat, a: Text, b: Text)
    requires i <= |f| && f[i..] == a + b
    ensures i + |a| <= |f| && f[i..i + |a|] == a && f[i + |a|..] == b
  {
    assert f[i..i + |a|] == f[i..][..|a|];
    assert f[i + |a|..] == f[i..][|a|..];
  }

  /** From `i` on, the format puts out the texts of these pieces and is read to its end. */
  ghost predicate Renders(f: Text, i: nat, ps: seq<Piece>, args: seq<Arg>) {
    && i <= |f| && Supplies(args, ps) && Suitable(f, i, args)
    && Render(f, i, args) == Output(TextOf(ps, args), true)
  }

  lemma FieldStep(f: Text, i: nat, ps: seq<Piece>, args: seq<Arg>, next: nat)
    requires ps != [] && ps[0].Field? && Writable(ps[0]) && Supplies(args, ps)
    requires i < next <= |f| && f[i] == PERCENT && Convert(f, i + 1) == Reading(ps[0], next)
    requires Renders(f, next, ps[1..], args[1..])
    ensures Renders(f, i, ps, args)
  {
    assert Expand(Reading(ps[0], next), args[0]) == Expand(Reading(ps[0], 0), args[0]);
  }

  lemma LiteralStep(f: Text, i: nat, ps: seq<Piece>, args: seq<Arg>, next: nat)
    requires ps != [] && ps[0].Lit? && ps[0].ch != NUL && Supplies(args, ps)
    requires i < next <= |f| && f[i] == ps[0].ch
    requires if f[i] != PERCENT then next == i + 1
             else Convert(f, i + 1).kind == PERCENT && Convert(f, i + 1).next == next
    requires Renders(f, next, ps[1..], args)
    ensures Renders(f, i, ps, args)
  {
  }

  lemma OneMoreField(f: Text, i: nat, ps: seq<Piece>, args: seq<Arg>, next: nat)
    requires ps != [] && ps[0].Field? && Writable(ps[0]) && Supplies(args, ps)
    requires next == i + |FormatOf(ps[0])| <= |f| && f[i..next] == FormatOf(ps[0])
    requires Renders(f, next, ps[1..], args[1..])
    ensures Renders(f, i, ps, args)
  {
    FieldReadsBack(f, i, ps[0]);
    FieldStep(f, i, ps, args, next);
  }

  lemma OneMoreLiteral(f: Text, i: nat, ps: seq<Piece>, args: seq<Arg>, next: nat)
    requires ps != [] && ps[0].Lit? && Writable(ps[0]) && Supplies(args, ps)
    requires next == i + |FormatOf(ps[0])| <= |f| && f[i..next] == FormatOf(ps[0])
    requires Renders(f, next, ps[1..], args)
    ensures Renders(f, i, ps, args)
  {
    assert ps[0] == Lit(ps[0].ch);
    LiteralReadsBack(f, i, ps[0].ch);
    LiteralStep(f, i, ps, args, next);
  }

  lemma RestOfPieces(ps: seq<Piece>, args: seq<Arg>)
    requires ps != [] && AllWritable(ps) && Supplies(args, ps)
    ensures Writable(ps[0]) && AllWritable(ps[1..])
    ensures ps[0].Field? ==> args != []
    ensures Supplies(if ps[0].Field? then args[1..] else args, ps[1..])
  {
  }

  lemma NoPieces(f: Text, i: nat, args: seq<Arg>)
    requires i <= |f| && f[i..] == FormatText([])
    ensures Renders(f, i, [], args)
  {
  }

  /** Rendering a written list of pieces puts out exactly their texts in order, and reads the format to its end. */
  lemma {:induction false} PiecesRender(f: Text, i: nat, ps: seq<Piece>, args: seq<Arg>)
    requires AllWritable(ps) && Supplies(args, ps)
    requires i <= |f| && f[i..] == FormatText(ps)
    ensures Renders(f, i, ps, args)
    decreases |ps|
  {
    if ps == [] {
      NoPieces(f, i, args);
    } else {
      RestOfPieces(ps, args);
      FirstPiece(f, i, ps);
      var next, rest, args' := i + |FormatOf(ps[0])|, ps[1..], if ps[0].Field? then args[1..] else args;
      PiecesRender(f, next, rest, args');
      if ps[0].Field? {
        OneMoreField(f, i, ps, args, next);
      } else {
        OneMoreLiteral(f, i, ps, args, next);
      }
    }
  }

  lemma LiteralReadsBack(f: Text, i: nat, ch: byte)
    requires ch != NUL && i + |FormatOf(Lit(ch))| <= |f|
    requires f[i..i + |FormatOf(Lit(ch))|] == FormatOf(Lit(ch))
    ensures f[i] == ch
    ensures ch == PERCENT ==> Convert(f, i + 1).kind == PERCENT && Convert(f, i + 1).next == i + 2
  {
    var g := f[i..i + |FormatOf(Lit(ch))|];
    assert g[0] == f[i];
    if ch == PERCENT {
      assert g[1] == f[i + 1];
      SkipDigitsIs(f, i + 1, i + 1);
    }
  }
}
