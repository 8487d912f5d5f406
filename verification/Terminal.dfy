/** A VT100 showing the row the cursor is on, fed one byte at a time. */
module Terminal {
  import opened Bytes
  import opened Numerals

  const BEL: byte := 0x07
  const BS: byte := 0x08
  const LF: byte := 0x0a
  const CR: byte := 0x0d
  const ESC: byte := 0x1b

  /** Where the terminal is in an escape sequence; `Csi` holds the numeric parameter read so far. */
  datatype Mode = Ground | Escape | Csi(param: nat)

  /** The cells of the row, the cursor's column, the column saved by `CSI s`, and the parser's mode. */
  datatype Screen = Screen(row: Text, col: nat, saved: nat, mode: Mode)

  predicate WellFormed(t: Screen) {
    t.col < |t.row| && t.saved < |t.row| && AllPrint(t.row)
  }

  function Blanks(n: nat): (s: Text)
    ensures |s| == n && AllPrint(s)
  {
    seq(n, _ => SPACE)
  }

  /** ECMA-48 gives a missing or zero cursor-movement parameter the value one. */
  function Count(param: nat): nat {
    if param == 0 then 1 else param
  }

  /** CUF, section 8.3.20 of ECMA-48: right, held at the last column. */
  function CursorForward(t: Screen, n: nat): Screen
    requires WellFormed(t)
  {
    t.(col := if t.col + n < |t.row| then t.col + n else |t.row| - 1)
  }

  /** CUB, section 8.3.18 of ECMA-48: left, held at the first column. */
  function CursorBack(t: Screen, n: nat): Screen {
    t.(col := if t.col >= n then t.col - n else 0)
  }

  /** EL, section 8.3.41 of ECMA-48. */
  function EraseInLine(t: Screen, param: nat): Screen
    requires WellFormed(t)
  {
    match param
    case 0 => t.(row := t.row[..t.col] + Blanks(|t.row| - t.col))
    case 1 => t.(row := Blanks(t.col + 1) + t.row[t.col + 1..])
    case 2 => t.(row := Blanks(|t.row|))
    case _ => t
  }

  /** A graphic character: shown at the cursor, which then moves right but not past the last column. */
  function Show(t: Screen, ch: byte): Screen
    requires WellFormed(t) && IsPrint(ch)
  {
    CursorForward(t.(row := t.row[t.col := ch]), 1)
  }

  /** The effect of one byte from the line. */
  function Receive(t: Screen, b: byte): (r: Screen)
    requires WellFormed(t)
    ensures WellFormed(r) && |r.row| == |t.row|
  {
    match t.mode
    case Ground =>
      if b == ESC then t.(mode := Escape)
      else if b == CR then t.(col := 0)
      else if b == LF then t.(row := Blanks(|t.row|))
      else if b == BS then CursorBack(t, 1)
      else if IsPrint(b) then Show(t, b)
      else t
    case Escape =>
      t.(mode := if b == 0x5b then Csi(0) else Ground)
    case Csi(n) =>
      if IsDecimal(b) then t.(mode := Csi(n * 10 + b - 0x30))
      else
        var g := t.(mode := Ground);
        if b == 0x43 then CursorForward(g, Count(n))
        else if b == 0x44 then CursorBack(g, Count(n))
        else if b == 0x4b then EraseInLine(g, n)
        else if b == 0x73 then g.(saved := g.col)
        else if b == 0x75 then g.(col := g.saved)
        else g
  }

  function ReceiveAll(t: Screen, s: Text): (r: Screen)
    requires WellFormed(t)
    ensures WellFormed(r) && |r.row| == |t.row|
  {
    if s == [] then t else Receive(ReceiveAll(t, s[..|s| - 1]), s[|s| - 1])
  }

  /** What a string leaves on the row: the terminal ignores NUL. */
  function Printed(s: Text): (r: Text)
    ensures |r| <= |s| && AllPrint(r)
    ensures AllPrint(s) ==> r == s
  {
    if s == [] then [] else
    Printed(s[..|s| - 1]) + if IsPrint(s[|s| - 1]) then [s[|s| - 1]] else []
  }

  lemma PlainWithoutNul(s: Text)
    requires AllPlain(s) && NUL !in s
    ensures AllPrint(s) && Printed(s) == s && CString(s) == s
  {
    CStringWithoutNul(s);
  }

  lemma OneMorePrinted(front: Text, last: byte)
    requires AllPlain(front) && (last == NUL || IsPrint(last)) && CString(front) <= Printed(front)
    ensures CString(front + [last]) <= Printed(front + [last])
  {
    CStringAppend(front, [last]);
    PrintedSnoc(front, last);
    if NUL !in front {
      PlainWithoutNul(front);
      if last != NUL {
        CStringWithoutNul([last]);
      }
    }
  }

  /** It begins with what comes before the first NUL. */
  lemma {:induction false} PrintedStart(s: Text)
    requires AllPlain(s)
    ensures CString(s) <= Printed(s)
  {
    if s != [] {
      var front, last := s[..|s| - 1], s[|s| - 1];
      PrintedStart(front);
      OneMorePrinted(front, last);
      assert front + [last] == s;
    }
  }

  lemma PrintedSnoc(s: Text, b: byte)
    ensures Printed(s + [b]) == if IsPrint(b) then Printed(s) + [b] else Printed(s)
  {
    assert (s + [b])[..|s|] == s;
  }

  lemma ReceiveSnoc(t: Screen, s: Text, b: byte)
    requires WellFormed(t)
    ensures ReceiveAll(t, s + [b]) == Receive(ReceiveAll(t, s), b)
  {
    assert (s + [b])[..|s + [b]| - 1] == s;
  }

  /** The control sequence introducer, a decimal parameter and a final byte. */
  function Control(n: nat, final: byte): Text {
    [ESC, 0x5b] + Numeral(n, 10, false) + [final]
  }

  lemma {:induction false} DigitsAccumulate(t: Screen, s: Text)
    requires WellFormed(t) && t.mode == Csi(0)
    requires forall i :: 0 <= i < |s| ==> IsDecimal(s[i])
    ensures ReceiveAll(t, s) == t.(mode := Csi(Value(s, 10)))
  {
    if s != [] {
      DigitsAccumulate(t, s[..|s| - 1]);
    }
  }

  lemma {:induction false} ReceiveAppend(t: Screen, s: Text, u: Text)
    requires WellFormed(t)
    ensures ReceiveAll(t, s + u) == ReceiveAll(ReceiveAll(t, s), u)
  {
    if u == [] {
      assert s + u == s;
    } else {
      ReceiveAppend(t, s, u[..|u| - 1]);
      assert (s + u)[..|s + u| - 1] == s + u[..|u| - 1];
    }
  }

  lemma IntroducerReceived(t: Screen)
    requires WellFormed(t) && t.mode == Ground
    ensures ReceiveAll(t, [ESC, 0x5b]) == t.(mode := Csi(0))
  {
    assert [ESC, 0x5b] == [ESC] + [0x5b];
    ReceiveSnoc(t, [ESC], 0x5b);
    assert [ESC] == [] + [ESC];
    ReceiveSnoc(t, [], ESC);
  }

  /** The terminal reads the decimal parameter that was printed: the sequence acts as its final byte with it. */
  lemma ControlReceived(t: Screen, n: nat, final: byte)
    requires WellFormed(t) && t.mode == Ground
    ensures ReceiveAll(t, Control(n, final)) == Receive(t.(mode := Csi(n)), final)
  {
    var d := Numeral(n, 10, false);
    NumeralReadsBack(n, 10, false);
    DecimalNumeral(n);
    IntroducerReceived(t);
    ReceiveAppend(t, [ESC, 0x5b], d);
    DigitsAccumulate(t.(mode := Csi(0)), d);
    ReceiveSnoc(t, [ESC, 0x5b] + d, final);
  }

  /** What the five control sequences do, by their final characters; 0 counts as 1 for the two movements. */
  lemma FinalCharacters(t: Screen, n: nat)
    requires WellFormed(t) && t.mode == Ground
    ensures var r, to := Receive(t.(mode := Csi(n)), 'C' as int), t.col + if n == 0 then 1 else n;
            r == t.(col := if to < |t.row| then to else |t.row| - 1)
    ensures var r, to := Receive(t.(mode := Csi(n)), 'D' as int), t.col - if n == 0 then 1 else n;
            r == t.(col := if to < 0 then 0 else to)
    ensures var r := Receive(t.(mode := Csi(0)), 'K' as int);
            && r == t.(row := r.row) && |r.row| == |t.row| && r.row[..t.col] == t.row[..t.col]
            && forall i :: t.col <= i < |t.row| ==> r.row[i] == ' ' as int
    ensures Receive(t.(mode := Csi(n)), 's' as int) == t.(saved := t.col)
    ensures Receive(t.(mode := Csi(n)), 'u' as int) == t.(col := t.saved)
  {
  }

  /** Control characters, and graphic ones, which stand at the cursor and move it on. */
  lemma SingleCharacters(t: Screen, ch: byte)
    requires WellFormed(t) && t.mode == Ground
    ensures Receive(t, 0x0d) == t.(col := 0)
    ensures Receive(t, 0x08) == t.(col := if t.col == 0 then 0 else t.col - 1)
    ensures forall i :: 0 <= i < |t.row| ==> Receive(t, 0x0a).row[i] == ' ' as int
    ensures Receive(t, 0x0a) == t.(row := Receive(t, 0x0a).row)
    ensures 0x20 <= ch <= 0x7e ==>
              Receive(t, ch) == t.(row := t.row[t.col := ch], col := if t.col + 1 < |t.row| then t.col + 1 else t.col)
    ensures ch < 0x20 && ch !in {0x08, 0x0a, 0x0d, 0x1b} ==> Receive(t, ch) == t
  {
  }

  /** A two-byte introducer and a final byte, without a parameter. */
  lemma PlainControlReceived(t: Screen, final: byte)
    requires WellFormed(t) && t.mode == Ground
    ensures ReceiveAll(t, [ESC, 0x5b, final]) == Receive(t.(mode := Csi(0)), final)
  {
    assert [ESC, 0x5b, final] == [ESC, 0x5b] + [final];
    ReceiveSnoc(t, [ESC, 0x5b], final);
    IntroducerReceived(t);
  }
}
