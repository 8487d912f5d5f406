/** The PDP-10 disassembler's text: `opSTD`, `opIOT`, `opJRST` and their dispatch. */
module Disassembler {
  import opened Bytes
  import opened Numerals
  import opened Formatter
  import opened FormatPieces

  const TAB: byte := 0x09
  const COMMA: byte := 0x2c
  const MINUS: byte := 0x2d
  const AT_SIGN: byte := 0x40
  const OPEN: byte := 0x28
  const CLOSE: byte := 0x29
  const WORD36: int := 0x10_0000_0000
  const SIGN18: int := 0x2_0000

  // ---------------------------------------------------------------- fields of an instruction

  function Op(w: nat): nat { w / 0x800_0000 % 0x200 }
  function Ac(w: nat): nat { w / 0x80_0000 % 0x10 }
  function In(w: nat): nat { w / 0x40_0000 % 2 }
  function Xr(w: nat): nat { w / 0x4_0000 % 0x10 }
  function Ea(w: nat): nat { w % 0x4_0000 }

  /** The index into the table of I/O instructions. */
  function IotIndex(w: nat): nat { w / 0x80_0000 % 0x40 }

  const IOT700: seq<string> :=
    ["APRID", "70004", "70010", "70014", "WRAPR", "RDAPR", "70030", "70034", "70040", "70044", "70050",
     "70054", "WRPI", "RDPI", "70070", "70014"]

  const IOT701: seq<string> :=
    ["70100", "RDUBR", "CLRPT", "WRUBR", "WREBR", "RDEBR", "70130", "70134", "70140", "70144", "70150",
     "70154", "70160", "70164", "70170", "70174"]

  const IOT702: seq<string> :=
    ["RDSPB", "RDCSB", "RDPUR", "RDCSTM", "RDTIM", "RDINT", "RDHSB", "70234", "WRSPB", "WRCSB", "WRPUR",
     "WRCSTM", "WRTIM", "WRINT", "WRHSB", "70274"]

  /** The table of the I/O instructions, sixteen to an opcode. */
  const IOT_NAMES: seq<string> := IOT700 + IOT701 + IOT702

  const JRST_NAMES: seq<string> :=
    ["JRST", "PORTAL", "JRSTF", "UUO", "HALT", "XJRSTF", "XJEN", "XPCW", "JRST10", "UUO", "JEN", "UUO", "SFM",
     "UUO", "UUO", "UUO"]

  // ---------------------------------------------------------------- the text

  function Oct(v: nat): Text {
    Numeral(v, 8, false)
  }

  /** `%01o %02o %06o` and a tab. */
  const HEADER_END: seq<Piece> :=
    [Field(true, 1, 0, 0x6f), Lit(SPACE)]
    + ([Field(true, 2, 0, 0x6f), Lit(SPACE)] + ([Field(true, 6, 0, 0x6f), Lit(TAB)] + []))

  /** `%03o %02o %01o %02o %06o` and a tab. */
  const HEADER: seq<Piece> :=
    [Field(true, 3, 0, 0x6f), Lit(SPACE)] + ([Field(true, 2, 0, 0x6f), Lit(SPACE)] + HEADER_END)

  /** The five fields in octal at fixed widths. */
  function HeaderText(w: nat): Text {
    Padded(3, 0x30, Oct(Op(w))) + [SPACE] + Padded(2, 0x30, Oct(Ac(w))) + [SPACE]
    + Padded(1, 0x30, Oct(In(w))) + [SPACE] + Padded(2, 0x30, Oct(Xr(w))) + [SPACE]
    + Padded(6, 0x30, Oct(Ea(w))) + [TAB]
  }

  /** The 18-bit address as a signed number; 400000 has magnitude zero. */
  function Magnitude(ea: nat): nat {
    if SIGN18 < ea <= 2 * SIGN18 then 2 * SIGN18 - ea else 0
  }

  function AddressText(ea: nat): Text {
    if ea >= SIGN18 then [MINUS] + Oct(Magnitude(ea)) else Oct(ea)
  }

  function IndexText(xr: nat): Text {
    if xr != 0 then [OPEN] + Oct(xr) + [CLOSE] else []
  }

  function AcText(ac: nat): Text {
    if ac != 0 then Oct(ac) + [COMMA] else []
  }

  function IndirectText(ind: nat): Text {
    if ind != 0 then [AT_SIGN] else []
  }

  /** Accumulator, indirect mark, signed address and index register, each only when it says something. */
  function OperandText(ac: nat, ind: nat, xr: nat, ea: nat): Text {
    AcText(ac) + IndirectText(ind)
    + (if ac != 0 || ind != 0 || xr != 0 || ea != 0 then AddressText(ea) else []) + IndexText(xr)
  }

  /** The operand of the instructions whose accumulator field selects the name: no accumulator, unsigned address. */
  function PlainOperandText(ind: nat, xr: nat, ea: nat): Text {
    IndirectText(ind) + (if ind != 0 || xr != 0 || ea != 0 then Oct(ea) else []) + IndexText(xr)
  }

  function StandardText(name: Text, w: nat): Text {
    HeaderText(w) + name + [TAB] + OperandText(Ac(w), In(w), Xr(w), Ea(w))
  }

  function PlainText(name: Text, w: nat): Text {
    HeaderText(w) + name + [TAB] + PlainOperandText(In(w), Xr(w), Ea(w))
  }

  // ---------------------------------------------------------------- the text is unambiguous

  predicate StartsOctal(s: Text) {
    s != [] && IsOctal(s[0])
  }

  lemma OctDigits(v: nat)
    ensures forall i :: 0 <= i < |Oct(v)| ==> IsOctal(Oct(v)[i])
  {
    NumeralReadsBack(v, 8, false);
    OctalDigits(Oct(v));
  }

  lemma OctalDigits(s: Text)
    requires AreDigits(s, 8)
    ensures forall i :: 0 <= i < |s| ==> IsOctal(s[i])
  {
  }

  /** An octal numeral followed by something else is found again whole. */
  lemma NumeralFound(v: nat, rest: Text)
    requires !StartsOctal(rest)
    ensures var s := Oct(v) + rest;
            OctalPrefix(s, |s|) == Oct(v) && Value(Oct(v), 8) == v && s[|Oct(v)|..] == rest
  {
    var s := Oct(v) + rest;
    OctDigits(v);
    NumeralReadsBack(v, 8, false);
    OctalPrefixIs(s, |s|, |Oct(v)|);
    assert s[..|Oct(v)|] == Oct(v);
  }

  /** Reads an optional accumulator. */
  function TakeAc(s: Text): (nat, Text) {
    var d := OctalPrefix(s, |s|);
    if d != [] && |d| < |s| && s[|d|] == COMMA then (Value(d, 8), s[|d| + 1..]) else (0, s)
  }

  function TakeIndirect(s: Text): (nat, Text) {
    if s != [] && s[0] == AT_SIGN then (1, s[1..]) else (0, s)
  }

  /** Reads a signed address; minus zero is 400000. */
  function TakeAddress(s: Text): (nat, Text) {
    if s != [] && s[0] == MINUS then TakeNegative(s[1..]) else
    var d := OctalPrefix(s, |s|);
    (Value(d, 8), s[|d|..])
  }

  function TakeNegative(s: Text): (nat, Text) {
    var d := OctalPrefix(s, |s|);
    var m := Value(d, 8);
    (if m == 0 then SIGN18 else if m <= 2 * SIGN18 then 2 * SIGN18 - m else 0, s[|d|..])
  }

  function TakeIndex(s: Text): nat {
    if s != [] && s[0] == OPEN then Value(OctalPrefix(s[1..], |s| - 1), 8) else 0
  }

  /** Indirect bit, index register and address of what follows the accumulator. */
  function ReadTail(s: Text): (nat, nat, nat) {
    var (ind, s2) := TakeIndirect(s);
    var (ea, s3) := TakeAddress(s2);
    (ind, TakeIndex(s3), ea)
  }

  /** Accumulator, indirect bit, index register and address of an operand. */
  function ReadOperand(s: Text): (nat, nat, nat, nat) {
    var (ac, tail) := TakeAc(s);
    var (ind, xr, ea) := ReadTail(tail);
    (ac, ind, xr, ea)
  }

  lemma AcFound(ac: nat, rest: Text)
    requires ac != 0
    ensures TakeAc(Oct(ac) + [COMMA] + rest) == (ac, rest)
  {
    NumeralFound(ac, [COMMA] + rest);
    var s := Oct(ac) + ([COMMA] + rest);
    assert s == Oct(ac) + [COMMA] + rest;
    assert s[|Oct(ac)| + 1..] == rest;
  }

  lemma NoAcFound(s: Text)
    requires forall i :: 0 <= i < |s| ==> s[i] != COMMA
    ensures TakeAc(s) == (0, s)
  {
  }

  lemma NegativeFound(m: nat, rest: Text)
    requires m < SIGN18 && !StartsOctal(rest)
    ensures TakeNegative(Oct(m) + rest) == (if m == 0 then SIGN18 else 2 * SIGN18 - m, rest)
  {
    NumeralFound(m, rest);
  }

  lemma PositiveFound(ea: nat, rest: Text)
    requires !StartsOctal(rest)
    ensures TakeAddress(Oct(ea) + rest) == (ea, rest)
  {
    var s := Oct(ea) + rest;
    NumeralFound(ea, rest);
    OctDigits(ea);
    assert s[0] == Oct(ea)[0];
  }

  lemma MinusFound(m: nat, rest: Text)
    requires m < SIGN18 && !StartsOctal(rest)
    ensures TakeAddress([MINUS] + Oct(m) + rest) == (if m == 0 then SIGN18 else 2 * SIGN18 - m, rest)
  {
    var s := [MINUS] + Oct(m) + rest;
    NegativeFound(m, rest);
    assert s[1..] == Oct(m) + rest;
  }

  lemma AddressFound(ea: nat, rest: Text)
    requires ea < 2 * SIGN18 && !StartsOctal(rest)
    ensures TakeAddress(AddressText(ea) + rest) == (ea, rest)
  {
    if ea >= SIGN18 {
      MinusFound(Magnitude(ea), rest);
    } else {
      PositiveFound(ea, rest);
    }
  }

  lemma IndexFound(xr: nat)
    ensures TakeIndex(IndexText(xr)) == xr && !StartsOctal(IndexText(xr))
  {
    if xr != 0 {
      NumeralFound(xr, [CLOSE]);
      assert IndexText(xr)[1..] == Oct(xr) + [CLOSE];
    }
  }

  /** What follows the accumulator, when there is an operand at all. */
  function TailText(ind: nat, xr: nat, ea: nat): Text {
    IndirectText(ind) + (AddressText(ea) + IndexText(xr))
  }

  lemma AddressStart(ea: nat)
    ensures AddressText(ea) != [] && AddressText(ea)[0] != AT_SIGN
  {
    OctDigits(ea);
  }

  lemma IndirectFound(ind: nat, rest: Text)
    requires ind < 2 && rest != [] && rest[0] != AT_SIGN
    ensures TakeIndirect(IndirectText(ind) + rest) == (ind, rest)
  {
    var s := IndirectText(ind) + rest;
    if ind != 0 {
      assert s[1..] == rest;
    } else {
      assert s == rest;
    }
  }

  lemma TailIs(s: Text, ind: nat, s2: Text, ea: nat, s3: Text, xr: nat)
    requires TakeIndirect(s) == (ind, s2) && TakeAddress(s2) == (ea, s3) && TakeIndex(s3) == xr
    ensures ReadTail(s) == (ind, xr, ea)
  {
  }

  lemma TailFound(ind: nat, xr: nat, ea: nat, tail: Text)
    requires ind < 2 && ea < 2 * SIGN18 && tail == IndirectText(ind) + (AddressText(ea) + IndexText(xr))
    ensures ReadTail(tail) == (ind, xr, ea)
  {
    IndexFound(xr);
    AddressStart(ea);
    AddressFound(ea, IndexText(xr));
    IndirectFound(ind, AddressText(ea) + IndexText(xr));
    TailIs(tail, ind, AddressText(ea) + IndexText(xr), ea, IndexText(xr), xr);
  }

  lemma TailHasNoComma(ind: nat, xr: nat, ea: nat)
    ensures forall i :: 0 <= i < |TailText(ind, xr, ea)| ==> TailText(ind, xr, ea)[i] != COMMA
  {
    OctDigits(ea);
    OctDigits(Magnitude(ea));
    OctDigits(xr);
    NoneOfThree(IndirectText(ind), AddressText(ea), IndexText(xr), COMMA);
  }

  lemma NoneOfThree(a: Text, b: Text, c: Text, ch: byte)
    requires forall i :: 0 <= i < |a| ==> a[i] != ch
    requires forall i :: 0 <= i < |b| ==> b[i] != ch
    requires forall i :: 0 <= i < |c| ==> c[i] != ch
    ensures forall i :: 0 <= i < |a + (b + c)| ==> (a + (b + c))[i] != ch
  {
  }

  lemma OperandIs(s: Text, ac: nat, tail: Text, ind: nat, xr: nat, ea: nat)
    requires TakeAc(s) == (ac, tail) && ReadTail(tail) == (ind, xr, ea)
    ensures ReadOperand(s) == (ac, ind, xr, ea)
  {
  }

  lemma OperandRegrouped(a: Text, b: Text, c: Text, d: Text)
    ensures b + c + d == b + (c + d)
    ensures a + b + c + d == a + (b + (c + d))
  {
  }

  lemma OperandInParts(ac: nat, ind: nat, xr: nat, ea: nat)
    ensures OperandText(ac, ind, xr, ea)
         == if ac != 0 then Oct(ac) + [COMMA] + TailText(ind, xr, ea)
            else if ind != 0 || xr != 0 || ea != 0 then TailText(ind, xr, ea) else []
  {
    OperandRegrouped(Oct(ac) + [COMMA], IndirectText(ind), AddressText(ea), IndexText(xr));
  }

  lemma WithAcReadsBack(ac: nat, ind: nat, xr: nat, ea: nat, tail: Text)
    requires ac != 0 && ReadTail(tail) == (ind, xr, ea)
    ensures ReadOperand(Oct(ac) + [COMMA] + tail) == (ac, ind, xr, ea)
  {
    AcFound(ac, tail);
    OperandIs(Oct(ac) + [COMMA] + tail, ac, tail, ind, xr, ea);
  }

  lemma WithoutAcReadsBack(ind: nat, xr: nat, ea: nat, tail: Text)
    requires ReadTail(tail) == (ind, xr, ea) && forall i :: 0 <= i < |tail| ==> tail[i] != COMMA
    ensures ReadOperand(tail) == (0, ind, xr, ea)
  {
    NoAcFound(tail);
    OperandIs(tail, 0, tail, ind, xr, ea);
  }

  /** The operand text alone determines accumulator, indirect bit, index register and address. */
  lemma OperandReadsBack(ac: nat, ind: nat, xr: nat, ea: nat)
    requires ind < 2 && ea < 2 * SIGN18
    ensures ReadOperand(OperandText(ac, ind, xr, ea)) == (ac, ind, xr, ea)
  {
    OperandInParts(ac, ind, xr, ea);
    TailFound(ind, xr, ea, TailText(ind, xr, ea));
    if ac != 0 {
      WithAcReadsBack(ac, ind, xr, ea, TailText(ind, xr, ea));
    } else if ind != 0 || xr != 0 || ea != 0 {
      TailHasNoComma(ind, xr, ea);
      WithoutAcReadsBack(ind, xr, ea, TailText(ind, xr, ea));
    } else {
      NothingRead();
    }
  }

  lemma NothingRead()
    ensures ReadOperand([]) == (0, 0, 0, 0) && ReadTail([]) == (0, 0, 0)
  {
  }

  lemma PlainInParts(ind: nat, xr: nat, ea: nat)
    ensures PlainOperandText(ind, xr, ea)
         == if ind != 0 || xr != 0 || ea != 0 then IndirectText(ind) + (Oct(ea) + IndexText(xr)) else []
  {
    assert IndirectText(ind) + Oct(ea) + IndexText(xr) == IndirectText(ind) + (Oct(ea) + IndexText(xr));
  }

  /** Likewise for the instructions without an accumulator: their operand determines the other three fields. */
  lemma PlainOperandReadsBack(ind: nat, xr: nat, ea: nat)
    requires ind < 2
    ensures ReadTail(PlainOperandText(ind, xr, ea)) == (ind, xr, ea)
  {
    PlainInParts(ind, xr, ea);
    if ind != 0 || xr != 0 || ea != 0 {
      IndexFound(xr);
      OctDigits(ea);
      PositiveFound(ea, IndexText(xr));
      IndirectFound(ind, Oct(ea) + IndexText(xr));
      TailIs(IndirectText(ind) + (Oct(ea) + IndexText(xr)), ind, Oct(ea) + IndexText(xr), ea, IndexText(xr), xr);
    } else {
      NothingRead();
    }
  }

  /** A field of a given width, and how a fixed-width field reads. */
  lemma FieldIs(v: nat, width: nat)
    requires 1 <= width && v < Pow(8, width)
    ensures |Padded(width, 0x30, Oct(v))| == width && Value(Padded(width, 0x30, Oct(v)), 8) == v
  {
    NumeralLength(v, 8, false, width);
    NumeralReadsBack(v, 8, false);
    ZeroPadding(width - |Oct(v)|, Oct(v), 8);
  }

  lemma HeaderWidths(w: nat)
    ensures Op(w) < Pow(8, 3) && Ac(w) < Pow(8, 2) && In(w) < Pow(8, 1) && Xr(w) < Pow(8, 2) && Ea(w) < Pow(8, 6)
  {
    assert Pow(8, 6) == 0x4_0000;
  }

  /** The word whose fields stand at the header's fixed places. */
  function ReadHeader(s: Text): nat
    requires |s| >= 19
  {
    Value(s[0..3], 8) * 0x800_0000 + Value(s[4..6], 8) * 0x80_0000 + Value(s[7..8], 8) * 0x40_0000
    + Value(s[9..11], 8) * 0x4_0000 + Value(s[12..18], 8)
  }

  lemma FieldsMakeWord(w: nat)
    ensures Op(w) * 0x800_0000 + Ac(w) * 0x80_0000 + In(w) * 0x40_0000 + Xr(w) * 0x4_0000 + Ea(w) == w % WORD36
  {
    assert w / 0x40_0000 == w / 0x4_0000 / 0x10;
    assert w / 0x80_0000 == w / 0x40_0000 / 2;
    assert w / 0x800_0000 == w / 0x80_0000 / 0x10;
    assert w / WORD36 == w / 0x800_0000 / 0x200;
  }

  /** The header alone determines all 36 bits, whatever follows it. */
  lemma HeaderReadsBack(w: nat, rest: Text)
    ensures |HeaderText(w)| == 19
    ensures ReadHeader(HeaderText(w) + rest) == w % WORD36
  {
    HeaderWidths(w);
    FieldIs(Op(w), 3);
    FieldIs(Ac(w), 2);
    FieldIs(In(w), 1);
    FieldIs(Xr(w), 2);
    FieldIs(Ea(w), 6);
    FixedPlaces(Padded(3, 0x30, Oct(Op(w))), Padded(2, 0x30, Oct(Ac(w))), Padded(1, 0x30, Oct(In(w))),
                Padded(2, 0x30, Oct(Xr(w))), Padded(6, 0x30, Oct(Ea(w))), rest, HeaderText(w) + rest);
    FieldsMakeWord(w);
  }

  lemma FixedPlaces(a: Text, b: Text, c: Text, d: Text, e: Text, rest: Text, s: Text)
    requires |a| == 3 && |b| == 2 && |c| == 1 && |d| == 2 && |e| == 6
    requires s == a + [SPACE] + b + [SPACE] + c + [SPACE] + d + [SPACE] + e + [TAB] + rest
    ensures |s| == 19 + |rest|
    ensures s[0..3] == a && s[4..6] == b && s[7..8] == c && s[9..11] == d && s[12..18] == e
  {
    var h1 := a + [SPACE] + b;
    var h2 := h1 + [SPACE] + c;
    var h3 := h2 + [SPACE] + d;
    var h4 := h3 + [SPACE] + e;
    assert h1[0..3] == a && h1[4..6] == b;
    assert h2[..6] == h1 && h2[7..8] == c;
    assert h3[..8] == h2 && h3[9..11] == d;
    assert h4[..11] == h3 && h4[12..18] == e;
    assert s[..18] == h4;
    SliceOfPrefix(s, h4, 12, 18);
    SliceOfPrefix(s, h3, 9, 11);
    SliceOfPrefix(s, h2, 7, 8);
    SliceOfPrefix(s, h1, 0, 3);
    SliceOfPrefix(s, h1, 4, 6);
  }

  lemma SliceOfPrefix(s: Text, p: Text, a: nat, b: nat)
    requires p <= s && a <= b <= |p|
    ensures s[a..b] == p[a..b]
  {
    assert s[..|p|] == p;
    SliceOfSlice(s, 0, |p|, a, b);
  }

  /** Dispatch never indexes the I/O table out of bounds, and only the opcodes 700 to 702 are safe to send there. */
  lemma IotIndexInTable(w: nat)
    ensures IotIndex(w) == Op(w) % 4 * 0x10 + Ac(w)
    ensures IotIndex(w) < |IOT_NAMES| <==> Op(w) % 4 != 3
    ensures 0x1c0 <= Op(w) <= 0x1c2 ==> IotIndex(w) < |IOT_NAMES|
  {
    assert w / 0x800_0000 == w / 0x80_0000 / 0x10;
  }

  // ---------------------------------------------------------------- how long the text gets

  lemma OctLengths(w: nat)
    ensures |Oct(Ac(w))| <= 2 && |Oct(Xr(w))| <= 2 && |Oct(Ea(w))| <= 6 && |Oct(Magnitude(Ea(w)))| <= 6
  {
    HeaderWidths(w);
    NumeralLength(Ac(w), 8, false, 2);
    NumeralLength(Xr(w), 8, false, 2);
    NumeralLength(Ea(w), 8, false, 6);
    NumeralLength(Magnitude(Ea(w)), 8, false, 6);
  }

  /** Beyond its name, an instruction's text takes at most 35 characters. */
  const ROOM: nat := 35

  lemma TextLength(name: Text, w: nat)
    ensures |StandardText(name, w)| <= |name| + ROOM && |PlainText(name, w)| <= |name| + ROOM
  {
    OctLengths(w);
    HeaderReadsBack(w, []);
  }

  // ---------------------------------------------------------------- the printers

  const OCTAL: Piece := Field(false, 0, 0, 0x6f)
  const STRING: Piece := Field(false, 0, 0, 0x73)

  lemma FormatCons(p: Piece, ps: seq<Piece>)
    requires Writable(p) && AllWritable(ps)
    ensures AllWritable([p] + ps) && FormatText([p] + ps) == FormatOf(p) + FormatText(ps)
  {
    assert ([p] + ps)[1..] == ps;
  }

  lemma FieldWritten(width: nat)
    requires 1 <= width <= 9
    ensures FormatOf(Field(true, width, 0, 0x6f)) == [PERCENT, 0x30, 0x30 + width, 0x6f]
  {
    assert Numeral(width, 10, false) == [0x30 + width];
  }

  /** A zero-padded octal field and the character after it. */
  lemma FieldFormat(width: nat, ch: byte, ps: seq<Piece>, later: Text)
    requires 1 <= width <= 9 && ch != NUL && ch != PERCENT
    requires AllWritable(ps) && FormatText(ps) == later
    ensures var qs := [Field(true, width, 0, 0x6f), Lit(ch)] + ps;
            AllWritable(qs) && FormatText(qs) == [PERCENT, 0x30, 0x30 + width, 0x6f, ch] + later
  {
    var rest := [Lit(ch)] + ps;
    FormatCons(Lit(ch), ps);
    FormatCons(Field(true, width, 0, 0x6f), rest);
    FieldWritten(width);
    assert [Field(true, width, 0, 0x6f), Lit(ch)] + ps == [Field(true, width, 0, 0x6f)] + rest;
    FourThenOne(PERCENT, 0x30, 0x30 + width, 0x6f, ch, later);
  }

  lemma FourThenOne(a: byte, b: byte, c: byte, d: byte, e: byte, later: Text)
    ensures [a, b, c, d] + ([e] + later) == [a, b, c, d, e] + later
  {
  }

  lemma HeaderEndFormat()
    ensures AllWritable(HEADER_END)
    ensures FormatText(HEADER_END)
         == [0x25, 0x30, 0x31, 0x6f, 0x20] + ([0x25, 0x30, 0x32, 0x6f, 0x20] + ([0x25, 0x30, 0x36, 0x6f, 0x09] + []))
  {
    FieldFormat(6, TAB, [], []);
    var f4 := [Field(true, 6, 0, 0x6f), Lit(TAB)] + [];
    FieldFormat(2, SPACE, f4, [0x25, 0x30, 0x36, 0x6f, 0x09] + []);
    FieldFormat(1, SPACE, [Field(true, 2, 0, 0x6f), Lit(SPACE)] + f4,
                [0x25, 0x30, 0x32, 0x6f, 0x20] + ([0x25, 0x30, 0x36, 0x6f, 0x09] + []));
  }

  lemma HeaderBytes(end: Text)
    requires end == [0x25, 0x30, 0x31, 0x6f, 0x20]
                    + ([0x25, 0x30, 0x32, 0x6f, 0x20] + ([0x25, 0x30, 0x36, 0x6f, 0x09] + []))
    ensures [0x25, 0x30, 0x33, 0x6f, 0x20] + ([0x25, 0x30, 0x32, 0x6f, 0x20] + end)
         == Ascii("%03o %02o %01o %02o %06o\t")
  {
  }

  /** The pieces of the header are its format string. */
  lemma HeaderFormat()
    ensures AllWritable(HEADER) && FormatText(HEADER) == Ascii("%03o %02o %01o %02o %06o\t")
  {
    HeaderEndFormat();
    var end := FormatText(HEADER_END);
    HeaderBytes(end);
    FieldFormat(2, SPACE, HEADER_END, end);
    FieldFormat(3, SPACE, [Field(true, 2, 0, 0x6f), Lit(SPACE)] + HEADER_END, [0x25, 0x30, 0x32, 0x6f, 0x20] + end);
  }

  /** `len += sprintf(&ptr[len], ...)`: the text goes over the terminator of what was there. */
  method Append(buf: array<byte>, len: nat, ps: seq<Piece>, args: seq<Arg>, ghost before: seq<byte>, ghost done: Text)
    returns (len': nat)
    requires AllWritable(ps) && Supplies(args, ps) && |before| == buf.Length
    requires len == |done| && len + |TextOf(ps, args)| < buf.Length
    requires (done == [] && buf[..] == before) || Wrote(before, buf[..], 0, done + [NUL])
    modifies buf
    ensures len' == len + |TextOf(ps, args)|
    ensures Wrote(before, buf[..], 0, done + TextOf(ps, args) + [NUL])
  {
    ghost var mid := buf[..];
    var fmt := FormatText(ps);
    assert fmt[0..] == fmt;
    PiecesRender(fmt, 0, ps, args);
    var n := Vsnprintf(buf, len, fmt, args);
    OverTerminator(before, mid, buf[..], done, TextOf(ps, args));
    len' := len + n;
  }

  lemma OverTerminator(before: seq<byte>, mid: seq<byte>, now: seq<byte>, done: Text, text: Text)
    requires |mid| == |before| && |done| + |text| < |before|
    requires (done == [] && mid == before) || Wrote(before, mid, 0, done + [NUL])
    requires Wrote(mid, now, |done|, text + [NUL])
    ensures Wrote(before, now, 0, done + text + [NUL])
  {
    assert mid[..|done|] == done;
  }

  lemma FieldText(width: nat, ch: byte, v: nat, ps: seq<Piece>, args: seq<Arg>)
    requires v < TWO32 && width < TWO31 && Supplies(args, ps)
    ensures var qs, bs := [Field(true, width, 0, 0x6f), Lit(ch)] + ps, [Num(v)] + args;
            Supplies(bs, qs) && TextOf(qs, bs) == Padded(width, 0x30, Oct(v)) + ([ch] + TextOf(ps, args))
  {
    var qs := [Field(true, width, 0, 0x6f), Lit(ch)] + ps;
    assert qs[1..] == [Lit(ch)] + ps && ([Lit(ch)] + ps)[1..] == ps;
    assert ([Num(v)] + args)[1..] == args;
  }

  function HeaderArgs(w: nat): seq<Arg> {
    [Num(Op(w))] + ([Num(Ac(w))] + ([Num(In(w))] + ([Num(Xr(w))] + ([Num(Ea(w))] + []))))
  }

  lemma HeaderEndText(w: nat)
    ensures var args := [Num(In(w))] + ([Num(Xr(w))] + ([Num(Ea(w))] + []));
            && Supplies(args, HEADER_END)
            && TextOf(HEADER_END, args)
               == Padded(1, 0x30, Oct(In(w))) + ([SPACE] + (Padded(2, 0x30, Oct(Xr(w))) + ([SPACE]
                  + (Padded(6, 0x30, Oct(Ea(w))) + ([TAB] + [])))))
  {
    FieldText(6, TAB, Ea(w), [], []);
    var ps, args: seq<Arg> := [Field(true, 6, 0, 0x6f), Lit(TAB)] + [], [Num(Ea(w))] + [];
    FieldText(2, SPACE, Xr(w), ps, args);
    FieldText(1, SPACE, In(w), [Field(true, 2, 0, 0x6f), Lit(SPACE)] + ps, [Num(Xr(w))] + args);
  }

  /** What the header's format puts out. */
  lemma HeaderTextOf(w: nat)
    ensures Supplies(HeaderArgs(w), HEADER) && TextOf(HEADER, HeaderArgs(w)) == HeaderText(w)
  {
    HeaderEndText(w);
    var args := [Num(In(w))] + ([Num(Xr(w))] + ([Num(Ea(w))] + []));
    FieldText(2, SPACE, Ac(w), HEADER_END, args);
    FieldText(3, SPACE, Op(w), [Field(true, 2, 0, 0x6f), Lit(SPACE)] + HEADER_END, [Num(Ac(w))] + args);
    HeaderRegrouped(Padded(3, 0x30, Oct(Op(w))), Padded(2, 0x30, Oct(Ac(w))), Padded(1, 0x30, Oct(In(w))),
                    Padded(2, 0x30, Oct(Xr(w))), Padded(6, 0x30, Oct(Ea(w))));
  }

  lemma HeaderRegrouped(a: Text, b: Text, c: Text, d: Text, e: Text)
    ensures a + ([SPACE] + (b + ([SPACE] + (c + ([SPACE] + (d + ([SPACE] + (e + ([TAB] + [])))))))))
         == a + [SPACE] + b + [SPACE] + c + [SPACE] + d + [SPACE] + e + [TAB]
  {
  }

  predicate NoNul(s: Text) {
    forall i :: 0 <= i < |s| ==> s[i] != NUL
  }

  function Literals(s: Text): seq<Piece> {
    seq(|s|, i requires 0 <= i < |s| => Lit(s[i]))
  }

  lemma {:induction false} LiteralsText(s: Text)
    requires NoNul(s)
    ensures AllWritable(Literals(s)) && Supplies([], Literals(s)) && TextOf(Literals(s), []) == s
    decreases |s|
  {
    if s != [] {
      LiteralsText(s[1..]);
      assert Literals(s)[1..] == Literals(s[1..]);
      assert [s[0]] + s[1..] == s;
    }
  }

  lemma LiteralCons(ch: byte, ps: seq<Piece>, args: seq<Arg>)
    requires ch != NUL && AllWritable(ps) && Supplies(args, ps)
    ensures var qs := [Lit(ch)] + ps;
            AllWritable(qs) && Supplies(args, qs) && TextOf(qs, args) == [ch] + TextOf(ps, args)
  {
    assert ([Lit(ch)] + ps)[1..] == ps;
  }

  lemma FieldCons(p: Piece, arg: Arg, ps: seq<Piece>, args: seq<Arg>)
    requires p.Field? && Writable(p) && Fits(Reading(p, 0), arg) && AllWritable(ps) && Supplies(args, ps)
    ensures var qs, bs := [p] + ps, [arg] + args;
            AllWritable(qs) && Supplies(bs, qs) && TextOf(qs, bs) == Expand(Reading(p, 0), arg) + TextOf(ps, args)
  {
    assert ([p] + ps)[1..] == ps && ([arg] + args)[1..] == args;
  }

  lemma FieldThenLiterals(p: Piece, arg: Arg, close: Text)
    requires p.Field? && Writable(p) && Fits(Reading(p, 0), arg) && NoNul(close)
    ensures var ps := [p] + Literals(close);
            AllWritable(ps) && Supplies([arg], ps) && TextOf(ps, [arg]) == Expand(Reading(p, 0), arg) + close
  {
    LiteralsText(close);
    FieldCons(p, arg, Literals(close), []);
    assert [arg] + [] == [arg];
  }

  /** A field with nothing around it but literal characters. */
  lemma BetweenLiterals(open: Text, p: Piece, arg: Arg, close: Text)
    requires p.Field? && Writable(p) && Fits(Reading(p, 0), arg)
    requires |open| <= 1 && NoNul(open) && NoNul(close)
    ensures var ps := Literals(open) + ([p] + Literals(close));
            AllWritable(ps) && Supplies([arg], ps) && TextOf(ps, [arg]) == open + (Expand(Reading(p, 0), arg) + close)
  {
    var tail, text := [p] + Literals(close), Expand(Reading(p, 0), arg) + close;
    FieldThenLiterals(p, arg, close);
    if open == [] {
      assert Literals(open) + tail == tail && open + text == text;
    } else {
      LiteralCons(open[0], tail, [arg]);
      assert Literals(open) == [Lit(open[0])] && open == [open[0]];
    }
  }

  lemma UnpaddedText(v: nat, name: Text)
    requires v < TWO32
    ensures Expand(Reading(OCTAL, 0), Num(v)) == Oct(v)
    ensures NUL !in name ==> Expand(Reading(STRING, 0), Str(name)) == name
  {
    assert Padded(0, SPACE, Oct(v)) == Oct(v);
    assert Padded(0, NUL, name) == name;
  }

  // ---------------------------------------------------------------- the instructions

  /** `sprintf` of one octal number or one string between literal characters. */
  method AppendField(buf: array<byte>, len: nat, open: Text, p: Piece, arg: Arg, close: Text, ghost text: Text,
                     ghost before: seq<byte>, ghost done: Text)
    returns (len': nat)
    requires p.Field? && Writable(p) && Fits(Reading(p, 0), arg) && text == open + (Expand(Reading(p, 0), arg) + close)
    requires |open| <= 1 && NoNul(open) && NoNul(close)
    requires |before| == buf.Length && len == |done| && len + |text| < buf.Length
    requires Wrote(before, buf[..], 0, done + [NUL])
    modifies buf
    ensures len' == len + |text| && Wrote(before, buf[..], 0, done + text + [NUL])
  {
    BetweenLiterals(open, p, arg, close);
    len' := Append(buf, len, Literals(open) + ([p] + Literals(close)), [arg], before, done);
  }

  /** The header and the name, which every instruction starts with. */
  method PutHeader(buf: array<byte>, insn: nat, name: Text) returns (len: nat)
    requires NUL !in name && |HeaderText(insn)| + |name| + 1 < buf.Length
    modifies buf
    ensures var text := HeaderText(insn) + name + [TAB];
            len == |text| && Wrote(old(buf[..]), buf[..], 0, text + [NUL])
  {
    HeaderFormat();
    HeaderTextOf(insn);
    ghost var before := buf[..];
    len := Append(buf, 0, HEADER, HeaderArgs(insn), before, []);
    assert [] + HeaderText(insn) == HeaderText(insn);
    len := PutName(buf, len, name, before, HeaderText(insn));
  }

  method PutName(buf: array<byte>, len: nat, name: Text, ghost before: seq<byte>, ghost done: Text) returns (len': nat)
    requires NUL !in name && |before| == buf.Length && len == |done| && len + |name| + 1 < buf.Length
    requires Wrote(before, buf[..], 0, done + [NUL])
    modifies buf
    ensures len' == len + |name| + 1 && Wrote(before, buf[..], 0, done + name + [TAB] + [NUL])
  {
    UnpaddedText(0, name);
    ghost var text: Text := [] + (name + [TAB]);
    len' := AppendField(buf, len, [], STRING, Str(name), [TAB], text, before, done);
    assert done + text + [NUL] == done + name + [TAB] + [NUL];
  }

  /** The optional index register, which every instruction ends with. */
  method PutIndex(buf: array<byte>, len: nat, xr: nat, ghost before: seq<byte>, ghost done: Text) returns (len': nat)
    requires xr < 0x10 && |before| == buf.Length && len == |done| && len + |IndexText(xr)| < buf.Length
    requires Wrote(before, buf[..], 0, done + [NUL])
    modifies buf
    ensures len' == len + |IndexText(xr)| && Wrote(before, buf[..], 0, done + IndexText(xr) + [NUL])
  {
    if xr != 0 {
      UnpaddedText(xr, []);
      assert IndexText(xr) == [OPEN] + (Oct(xr) + [CLOSE]);
      len' := AppendField(buf, len, [OPEN], OCTAL, Num(xr), [CLOSE], IndexText(xr), before, done);
    } else {
      assert done + [] + [NUL] == done + [NUL];
      len' := len;
    }
  }

  /** `(~ea + 1) & 0377777` in 32 bits. */
  lemma NegatedAddress(ea: nat)
    requires SIGN18 <= ea < 2 * SIGN18
    ensures (TWO32 - 1 - ea + 1) % SIGN18 == Magnitude(ea)
  {
    assert TWO32 == 0x8000 * SIGN18;
  }

  method PutAddress(buf: array<byte>, len: nat, ea: nat, ghost before: seq<byte>, ghost done: Text) returns (len': nat)
    requires ea < 2 * SIGN18 && |before| == buf.Length && len == |done| && len + |AddressText(ea)| < buf.Length
    requires Wrote(before, buf[..], 0, done + [NUL])
    modifies buf
    ensures len' == len + |AddressText(ea)| && Wrote(before, buf[..], 0, done + AddressText(ea) + [NUL])
  {
    if ea >= SIGN18 {
      NegatedAddress(ea);
      var m := (TWO32 - 1 - ea + 1) % SIGN18;
      UnpaddedText(m, []);
      assert AddressText(ea) == [MINUS] + (Oct(m) + []);
      len' := AppendField(buf, len, [MINUS], OCTAL, Num(m), [], AddressText(ea), before, done);
    } else {
      len' := PutNumber(buf, len, ea, before, done);
    }
  }

  method PutNumber(buf: array<byte>, len: nat, v: nat, ghost before: seq<byte>, ghost done: Text) returns (len': nat)
    requires v < TWO32 && |before| == buf.Length && len == |done| && len + |Oct(v)| < buf.Length
    requires Wrote(before, buf[..], 0, done + [NUL])
    modifies buf
    ensures len' == len + |Oct(v)| && Wrote(before, buf[..], 0, done + Oct(v) + [NUL])
  {
    UnpaddedText(v, []);
    assert Oct(v) == [] + (Oct(v) + []);
    len' := AppendField(buf, len, [], OCTAL, Num(v), [], Oct(v), before, done);
  }

  method PutAc(buf: array<byte>, len: nat, ac: nat, ghost before: seq<byte>, ghost done: Text) returns (len': nat)
    requires ac < 0x10 && |before| == buf.Length && len == |done| && len + |AcText(ac)| < buf.Length
    requires Wrote(before, buf[..], 0, done + [NUL])
    modifies buf
    ensures len' == len + |AcText(ac)| && Wrote(before, buf[..], 0, done + AcText(ac) + [NUL])
  {
    if ac != 0 {
      UnpaddedText(ac, []);
      assert AcText(ac) == [] + (Oct(ac) + [COMMA]);
      len' := AppendField(buf, len, [], OCTAL, Num(ac), [COMMA], AcText(ac), before, done);
    } else {
      assert done + [] + [NUL] == done + [NUL];
      len' := len;
    }
  }

  method PutIndirect(buf: array<byte>, len: nat, ind: nat, ghost before: seq<byte>, ghost done: Text)
    returns (len': nat)
    requires |before| == buf.Length && len == |done| && len + |IndirectText(ind)| < buf.Length
    requires Wrote(before, buf[..], 0, done + [NUL])
    modifies buf
    ensures len' == len + |IndirectText(ind)| && Wrote(before, buf[..], 0, done + IndirectText(ind) + [NUL])
  {
    if ind != 0 {
      LiteralsText([AT_SIGN]);
      len' := Append(buf, len, Literals([AT_SIGN]), [], before, done);
    } else {
      assert done + [] + [NUL] == done + [NUL];
      len' := len;
    }
  }

  /** An ordinary instruction. */
  method OpStd(buf: array<byte>, insn: nat, name: Text)
    requires NUL !in name && |StandardText(name, insn)| < buf.Length
    modifies buf
    ensures Wrote(old(buf[..]), buf[..], 0, StandardText(name, insn) + [NUL])
  {
    ghost var before, done := buf[..], HeaderText(insn) + name + [TAB];
    var ac, ind, xr, ea := Ac(insn), In(insn), Xr(insn), Ea(insn);
    ghost var address := if ac != 0 || ind != 0 || xr != 0 || ea != 0 then AddressText(ea) else [];
    Regrouped(done, AcText(ac), IndirectText(ind), address, IndexText(xr));
    var len := PutHeader(buf, insn, name);
    len := PutAc(buf, len, ac, before, done);
    done := done + AcText(ac);
    len := PutIndirect(buf, len, ind, before, done);
    done := done + IndirectText(ind);
    if ac != 0 || ind != 0 || xr != 0 || ea != 0 {
      len := PutAddress(buf, len, ea, before, done);
    } else {
      assert done + [] == done;
    }
    done := done + address;
    len := PutIndex(buf, len, xr, before, done);
  }

  /** An instruction whose accumulator field, or more, selects its name. */
  method OpTable(buf: array<byte>, insn: nat, name: Text)
    requires NUL !in name && |PlainText(name, insn)| < buf.Length
    modifies buf
    ensures Wrote(old(buf[..]), buf[..], 0, PlainText(name, insn) + [NUL])
  {
    ghost var before, done := buf[..], HeaderText(insn) + name + [TAB];
    var ind, xr, ea := In(insn), Xr(insn), Ea(insn);
    ghost var address := if ind != 0 || xr != 0 || ea != 0 then Oct(ea) else [];
    Regrouped(done, [], IndirectText(ind), address, IndexText(xr));
    assert done + [] == done && [] + IndirectText(ind) == IndirectText(ind);
    var len := PutHeader(buf, insn, name);
    len := PutIndirect(buf, len, ind, before, done);
    done := done + IndirectText(ind);
    if ind != 0 || xr != 0 || ea != 0 {
      len := PutNumber(buf, len, ea, before, done);
    } else {
      assert done + [] == done;
    }
    done := done + address;
    len := PutIndex(buf, len, xr, before, done);
  }

  lemma Regrouped(h: Text, a: Text, b: Text, c: Text, d: Text)
    ensures h + (a + b + c + d) == h + a + b + c + d
  {
  }

  /** Name and operand of an instruction, whichever form it has; `names` are the opcode names of the dispatch table. */
  function NameOf(names: seq<Text>, w: nat): Text
    requires |names| == 0x200
  {
    if Op(w) == 0xac then Ascii(JRST_NAMES[Ac(w)])
    else if 0x1c0 <= Op(w) <= 0x1c2 then IotIndexInTable(w); Ascii(IOT_NAMES[IotIndex(w)])
    else names[Op(w)]
  }

  function OperandOf(w: nat): Text {
    if Op(w) == 0xac || 0x1c0 <= Op(w) <= 0x1c2 then PlainOperandText(In(w), Xr(w), Ea(w))
    else OperandText(Ac(w), In(w), Xr(w), Ea(w))
  }

  function DasmText(names: seq<Text>, w: nat): Text
    requires |names| == 0x200
  {
    HeaderText(w) + NameOf(names, w) + [TAB] + OperandOf(w)
  }

  /** The whole disassembler: the opcode selects how the word is printed. */
  method Dasm(buf: array<byte>, insn: nat, names: seq<Text>)
    requires |names| == 0x200 && forall i :: 0 <= i < |names| ==> NUL !in names[i]
    requires |DasmText(names, insn)| < buf.Length
    modifies buf
    ensures Wrote(old(buf[..]), buf[..], 0, DasmText(names, insn) + [NUL])
  {
    var op := Op(insn);
    if op == 0xac {
      OpTable(buf, insn, Ascii(JRST_NAMES[Ac(insn)]));
    } else if 0x1c0 <= op <= 0x1c2 {
      IotIndexInTable(insn);
      OpTable(buf, insn, Ascii(IOT_NAMES[IotIndex(insn)]));
    } else {
      OpStd(buf, insn, names[op]);
    }
  }

  lemma FieldsAre(w: nat)
    ensures Op(w) == w / 0x800_0000 % 0x200 && Ac(w) == w / 0x80_0000 % 0x10 && In(w) == w / 0x40_0000 % 2
    ensures Xr(w) == w / 0x4_0000 % 0x10 && Ea(w) == w % 0x4_0000
  {
  }

  /** Opcode 254: the accumulator selects the name, and the operand is the unsigned address. */
  lemma JrstText(names: seq<Text>, w: nat)
    requires |names| == 0x200 && w / 0x800_0000 % 0x200 == 0xac
    ensures DasmText(names, w)
         == HeaderText(w) + Ascii(JRST_NAMES[w / 0x80_0000 % 0x10]) + [0x09] + PlainOperandText(In(w), Xr(w), Ea(w))
  {
    FieldsAre(w);
  }

  /** Opcodes 700 to 702: so do opcode and accumulator together. */
  lemma IotText(names: seq<Text>, w: nat, i: nat)
    requires |names| == 0x200 && 0x1c0 <= w / 0x800_0000 % 0x200 <= 0x1c2
    requires i == (w / 0x800_0000 % 0x200 - 0x1c0) * 0x10 + w / 0x80_0000 % 0x10
    ensures i < |IOT_NAMES|
    ensures DasmText(names, w) == HeaderText(w) + Ascii(IOT_NAMES[i]) + [0x09] + PlainOperandText(In(w), Xr(w), Ea(w))
  {
    FieldsAre(w);
    IotIndexInTable(w);
    IotIndexIs(w);
    assert NameOf(names, w) == Ascii(IOT_NAMES[i]) && OperandOf(w) == PlainOperandText(In(w), Xr(w), Ea(w));
  }

  lemma IotIndexIs(w: nat)
    requires 0x1c0 <= Op(w) <= 0x1c2
    ensures IotIndex(w) == (Op(w) - 0x1c0) * 0x10 + Ac(w)
  {
    assert w / 0x800_0000 == w / 0x80_0000 / 0x10;
    LowSixBits(w / 0x80_0000, w / 0x800_0000);
    LowTwoBits(w / 0x800_0000, Op(w));
  }

  lemma LowSixBits(d: nat, q: nat)
    requires q == d / 0x10
    ensures d % 0x40 == q % 4 * 0x10 + d % 0x10
  {
  }

  lemma LowTwoBits(q: nat, op: nat)
    requires op == q % 0x200 && 0x1c0 <= op <= 0x1c2
    ensures q % 4 == op - 0x1c0
  {
    assert q == q / 0x200 * 0x200 + op;
  }

  /** Every other opcode: its own name, and the operand with accumulator and signed address. */
  lemma OrdinaryText(names: seq<Text>, w: nat)
    requires |names| == 0x200 && w / 0x800_0000 % 0x200 != 0xac && !(0x1c0 <= w / 0x800_0000 % 0x200 <= 0x1c2)
    ensures DasmText(names, w)
         == HeaderText(w) + names[w / 0x800_0000 % 0x200] + [0x09] + OperandText(Ac(w), In(w), Xr(w), Ea(w))
  {
    FieldsAre(w);
  }

  /** Text and NUL fit the 32 bytes of the static buffer exactly when name and operand have at most 11 characters. */
  lemma TextFits(names: seq<Text>, w: nat)
    requires |names| == 0x200
    ensures |DasmText(names, w)| < 32 <==> |NameOf(names, w)| + |OperandOf(w)| <= 11
  {
    HeaderReadsBack(w, []);
  }

  /** `MOVE 1,1000(17)`: 200 01 0 17 001000. */
  const MOVE: nat := 0x80 * 0x800_0000 + 0x80_0000 + 15 * 0x4_0000 + 0x200

  lemma FieldsOfMove()
    ensures Op(MOVE) == 0x80 && Ac(MOVE) == 1 && In(MOVE) == 0 && Xr(MOVE) == 15 && Ea(MOVE) == 0x200
  {
  }

  lemma OctIs(v: nat, text: string)
    requires |text| > 0 && text[|text| - 1] as int == 0x30 + v % 8
    requires forall i :: 0 <= i < |text| ==> '0' <= text[i] <= '7'
    requires if |text| == 1 then v < 8 else v >= 8 && Oct(v / 8) == Ascii(text[..|text| - 1])
    ensures Oct(v) == Ascii(text)
  {
    var front := if v / 8 != 0 then Oct(v / 8) else [];
    assert Oct(v) == front + [0x30 + v % 8];
    assert Ascii(text) == Ascii(text[..|text| - 1]) + [0x30 + v % 8];
  }

  lemma SmallOctals()
    ensures Oct(0) == Ascii("0") && Oct(1) == Ascii("1") && Oct(15) == Ascii("17")
    ensures Oct(0x80) == Ascii("200") && Oct(0x200) == Ascii("1000")
  {
    OctIs(0, "0");
    OctIs(1, "1");
    assert "17"[..1] == "1";
    OctIs(15, "17");
    OctIs(2, "2");
    assert "20"[..1] == "2";
    OctIs(16, "20");
    assert "200"[..2] == "20";
    OctIs(0x80, "200");
    assert "10"[..1] == "1";
    OctIs(8, "10");
    assert "100"[..2] == "10";
    OctIs(0x40, "100");
    assert "1000"[..3] == "100";
    OctIs(0x200, "1000");
  }

  lemma PaddedIs(width: nat, text: string, zeros: string)
    requires |zeros| + |text| == width && forall i :: 0 <= i < |zeros| ==> zeros[i] == '0'
    requires forall i :: 0 <= i < |text| ==> '0' <= text[i] <= '7'
    ensures Padded(width, 0x30, Ascii(text)) == Ascii(zeros + text)
  {
    assert seq(|zeros|, _ => 0x30) == Ascii(zeros);
    assert Ascii(zeros + text) == Ascii(zeros) + Ascii(text);
  }

  /** Two literals after each other. */
  lemma Joined(a: string, b: string, both: string, s: Text, t: Text)
    requires both == a + b && s == Ascii(a) && t == Ascii(b)
    ensures s + t == Ascii(both)
  {
    AsciiAppend(a, b);
  }

  lemma HeaderOfMove()
    ensures HeaderText(MOVE) == Ascii("200 01 0 17 001000\t")
  {
    FieldsOfMove();
    SmallOctals();
    PaddedIs(3, "200", "");
    PaddedIs(2, "1", "0");
    PaddedIs(1, "0", "");
    PaddedIs(2, "17", "");
    PaddedIs(6, "1000", "00");
    assert "" + "200" == "200" && "0" + "1" == "01" && "" + "0" == "0" && "" + "17" == "17";
    assert "00" + "1000" == "001000";
    HeaderJoined();
  }

  lemma HeaderJoined()
    ensures Ascii("200") + [SPACE] + Ascii("01") + [SPACE] + Ascii("0") + [SPACE] + Ascii("17") + [SPACE]
            + Ascii("001000") + [0x09] == Ascii("200 01 0 17 001000\t")
  {
  }

  lemma MoveOperand()
    ensures OperandText(1, 0, 15, 0x200) == Ascii("1,1000(17)")
  {
    SmallOctals();
    var ac := AcText(1);
    assert ac == Ascii("1,") by { Joined("1", ",", "1,", Oct(1), [0x2c]); }
    assert ac + [] == ac;
    var front := ac + Oct(0x200);
    assert front == Ascii("1,1000") by { Joined("1,", "1000", "1,1000", ac, Oct(0x200)); }
    var index := IndexText(15);
    assert index == Ascii("(17)") by {
      Joined("(", "17", "(17", [0x28], Oct(15));
      Joined("(17", ")", "(17)", [0x28] + Oct(15), [0x29]);
    }
    Joined("1,1000", "(17)", "1,1000(17)", front, index);
  }

  lemma TextJoined(header: string, name: string, operand: string)
    ensures Ascii(header) + Ascii(name) + [0x09] + Ascii(operand) == Ascii(header + name + "\t" + operand)
  {
    AsciiAppend(header, name);
    AsciiAppend(header + name, "\t");
    AsciiAppend(header + name + "\t", operand);
    assert Ascii("\t") == [0x09];
  }

  lemma NameAndOperandOfMove(names: seq<Text>)
    requires |names| == 0x200
    ensures NameOf(names, MOVE) == names[0x80] && OperandOf(MOVE) == Ascii("1,1000(17)")
  {
    FieldsOfMove();
    MoveOperand();
  }

  /** The whole text. */
  lemma MoveText(names: seq<Text>)
    requires |names| == 0x200 && names[0x80] == Ascii("MOVE")
    ensures DasmText(names, MOVE) == Ascii("200 01 0 17 001000\t" + "MOVE" + "\t" + "1,1000(17)")
  {
    HeaderOfMove();
    NameAndOperandOfMove(names);
    TextJoined("200 01 0 17 001000\t", "MOVE", "1,1000(17)");
  }

  /** The indirect mark, and the sign of an address from 400000 on. */
  lemma MarkAndSign()
    ensures OperandText(0, 1, 0, 0x3_ffff) == Ascii("@-1")
    ensures OperandText(0, 0, 0, 0x2_0000) == Ascii("-0")
  {
    SmallOctals();
    Joined("-", "1", "-1", [0x2d], Oct(1));
    Joined("-", "0", "-0", [0x2d], Oct(0));
    Joined("@", "-1", "@-1", [0x40], [0x2d] + Oct(1));
    assert AddressText(0x3_ffff) == Ascii("-1") && AddressText(0x2_0000) == Ascii("-0");
    assert [] + [0x40] + Ascii("-1") + [] == [0x40] + Ascii("-1");
    assert [] + [] + Ascii("-0") + [] == Ascii("-0");
  }

  /** The address is printed as a signed 18-bit number, minus zero being 400000. */
  lemma AddressReadsAsSigned(ea: nat)
    requires ea < 0x4_0000
    ensures ea < 0x2_0000 ==> AddressText(ea)[0] != '-' as int && Value(AddressText(ea), 8) == ea
    ensures ea >= 0x2_0000 ==>
              AddressText(ea)[0] == '-' as int && Value(AddressText(ea)[1..], 8) == (0x4_0000 - ea) % 0x2_0000
  {
    if ea < 0x2_0000 {
      NumeralReadsBack(ea, 8, false);
      OctDigits(ea);
    } else {
      MagnitudeIs(ea);
      NumeralReadsBack(Magnitude(ea), 8, false);
      Behind(MINUS, Oct(Magnitude(ea)));
    }
  }

  lemma Behind(first: byte, rest: Text)
    ensures ([first] + rest)[1..] == rest && ([first] + rest)[0] == first
  {
  }

  lemma MagnitudeIs(ea: nat)
    requires 0x2_0000 <= ea < 0x4_0000
    ensures Magnitude(ea) == (0x4_0000 - ea) % 0x2_0000
  {
  }

  /** It does not fit: with its NUL it takes 35 bytes. */
  lemma MoveDoesNotFit(names: seq<Text>)
    requires |names| == 0x200 && |names[0x80]| == 4
    ensures |DasmText(names, MOVE)| == 34
  {
    HeaderOfMove();
    NameAndOperandOfMove(names);
  }

  /** Nothing is lost: words with different low 36 bits have different texts. */
  lemma DasmIsInjective(names: seq<Text>, v: nat, w: nat)
    requires |names| == 0x200
    ensures DasmText(names, v) == DasmText(names, w) ==> v % WORD36 == w % WORD36
  {
    HeaderFirst(names, v);
    HeaderFirst(names, w);
    HeaderReadsBack(v, DasmText(names, v)[19..]);
    HeaderReadsBack(w, DasmText(names, w)[19..]);
  }

  lemma HeaderFirst(names: seq<Text>, w: nat)
    requires |names| == 0x200
    ensures |DasmText(names, w)| >= 19 && DasmText(names, w) == HeaderText(w) + DasmText(names, w)[19..]
  {
    HeaderReadsBack(w, []);
    assert DasmText(names, w)[..19] == HeaderText(w);
  }
}
