/** The in-place line editor, `cmdline_t`. */
module CommandLine {
  import opened Bytes
  import opened Terminal
  import opened CursorControl
  import opened Display
  import opened Editing
  import HR = HistoryRing

  function Moved(b: Text, dst: nat, src: nat, n: nat): (r: Text)
    requires dst + n <= |b| && src + n <= |b|
    ensures |r| == |b|
  {
    b[..dst] + b[src..src + n] + b[dst + n..]
  }

  /** The library's overlapping copy, within one array. */
  method Memmove(a: array<byte>, dst: nat, src: nat, n: nat)
    requires dst + n <= a.Length && src + n <= a.Length
    modifies a
    ensures a[..] == Moved(old(a[..]), dst, src, n)
  {
    forall i | 0 <= i < n {
      a[dst + i] := a[src + i];
    }
  }

  method Memset(a: array<byte>)
    modifies a
    ensures forall i :: 0 <= i < a.Length ==> a[i] == NUL
  {
    forall i | 0 <= i < a.Length {
      a[i] := NUL;
    }
  }

  // ---------------------------------------------------------------- the in-place edits of the buffer

  /** The three parts of an editor's buffer: cursor at `p`, line of `n` bytes. */
  predicate Holds(e: Editor, b: Text, p: nat, n: nat) {
    && p <= n <= MAXLINE && |b| == MAXLINE + 1
    && e.before == b[..p] && e.after == b[p..n] && e.rest == b[n..]
  }

  /** The editor with another buffer, cut at the cursor and at the end of the line. */
  function With(e: Editor, b: Text, p: nat, n: nat): Editor
    requires p <= n <= |b|
  {
    e.(before := b[..p], after := b[p..n], rest := b[n..])
  }

  /** Makes room at `p` in a line of `n` bytes and stores `ch` there. */
  method OpenGap(a: array<byte>, p: nat, n: nat, ch: byte)
    requires p <= n < a.Length
    modifies a
    ensures a[..] == Opened(old(a[..]), p, n, ch)
  {
    OpenedIs(a[..], p, n, ch);
    Memmove(a, p + 1, p, n - p);
    a[p] := ch;
  }

  function Opened(b: Text, p: nat, n: nat, ch: byte): Text
    requires p <= n < |b|
  {
    b[..p] + [ch] + b[p..n] + b[n + 1..]
  }

  lemma OpenedIs(b: Text, p: nat, n: nat, ch: byte)
    requires p <= n < |b|
    ensures Moved(b, p + 1, p, n - p)[p := ch] == Opened(b, p, n, ch)
  {
  }

  lemma OpenedInserts(e: Editor, b: Text, p: nat, n: nat, ch: byte)
    requires Holds(e, b, p, n) && n < MAXLINE
    ensures var now := Opened(b, p, n, ch);
            && Apply(e, Insert(ch)) == With(e, now, p + 1, n + 1)
            && now[..p + 1] == b[..p] + [ch] && now[p + 1..n + 1] == b[p..n]
  {
    var now := Opened(b, p, n, ch);
    assert now[n + 1..] == e.rest[1..];
  }

  /** Closes the place at `p` in a line of `n` bytes. */
  method CloseGap(a: array<byte>, p: nat, n: nat)
    requires p < n < a.Length
    modifies a
    ensures a[..] == Closed(old(a[..]), p, n)
  {
    ClosedIs(a[..], p, n);
    Memmove(a, p, p + 1, n - p - 1);
    a[n - 1] := NUL;
  }

  /** The same for the place before `p`, copying one byte more. */
  method CloseGapBefore(a: array<byte>, p: nat, n: nat)
    requires 0 < p <= n < a.Length
    modifies a
    ensures a[..] == Closed(old(a[..]), p - 1, n)
  {
    ClosedIs(a[..], p - 1, n);
    Memmove(a, p - 1, p, n - p + 1);
    a[n - 1] := NUL;
  }

  function Closed(b: Text, p: nat, n: nat): Text
    requires p < n <= |b|
  {
    b[..p] + b[p + 1..n] + [NUL] + b[n..]
  }

  /** The byte copied too many lands where the NUL goes. */
  lemma ClosedIs(b: Text, p: nat, n: nat)
    requires p < n < |b|
    ensures Moved(b, p, p + 1, n - p - 1)[n - 1 := NUL] == Closed(b, p, n)
    ensures Moved(b, p, p + 1, n - p)[n - 1 := NUL] == Closed(b, p, n)
  {
  }

  lemma ClosedDeletes(e: Editor, b: Text, p: nat, n: nat)
    requires Holds(e, b, p, n) && p < n
    ensures var now := Closed(b, p, n);
            && Apply(e, Delete) == With(e, now, p, n - 1)
            && now[..p] == b[..p] && now[p..n - 1] == b[p + 1..n]
  {
    var now := Closed(b, p, n);
    assert now[p..n - 1] == e.after[1..];
    assert now[n - 1..] == [NUL] + e.rest;
  }

  lemma ClosedBackspaces(e: Editor, b: Text, p: nat, n: nat)
    requires Holds(e, b, p, n) && p > 0
    ensures var now := Closed(b, p - 1, n);
            && Apply(e, Backspace) == With(e, now, p - 1, n - 1)
            && now[..p - 1] == b[..p - 1] && now[p - 1..n - 1] == b[p..n]
  {
    var now := Closed(b, p - 1, n);
    assert now[..p - 1] == ButLast(e.before);
    assert now[n - 1..] == [NUL] + e.rest;
  }

  method SwapBefore(a: array<byte>, p: nat)
    requires 0 < p < a.Length
    modifies a
    ensures a[..] == Swapped(old(a[..]), p)
  {
    var temp := a[p];
    a[p] := a[p - 1];
    a[p - 1] := temp;
  }

  function Swapped(b: Text, p: nat): Text
    requires 0 < p < |b|
  {
    b[p - 1 := b[p]][p := b[p - 1]]
  }

  /** The swap seen on the three parts of the buffer, in the middle and at the end of the line. */
  lemma SwappedTransposes(e: Editor, b: Text, p: nat, n: nat)
    requires Holds(e, b, p, n) && p > 0
    ensures var now := Swapped(b, p);
            now[..p - 1] == b[..p - 1] && Apply(e, Transpose) == With(e, now, p, n)
  {
    var now := Swapped(b, p);
    assert now[..p] == ButLast(e.before) + [b[p]];
    if p < n {
      assert now[p..n] == [e.before[p - 1]] + e.after[1..];
      assert now[n..] == e.rest;
    } else {
      assert now[p..] == [e.before[p - 1]] + e.rest[1..];
    }
  }

  /** The line stays printable unless the byte behind it comes in and is not. */
  lemma SwappedPrints(b: Text, p: nat, n: nat)
    requires 0 < p <= n < |b|
    ensures AllPrint(b[..n]) ==> (AllPrint(Swapped(b, p)[..n]) <==> p < n || IsPrint(b[n]))
  {
    var now := Swapped(b, p);
    assert now[..n][p - 1] == b[p];
    if AllPrint(b[..n]) && (p < n || IsPrint(b[n])) {
      assert IsPrint(b[p]) by { assert p < n ==> b[p] == b[..n][p]; }
      assert IsPrint(b[p - 1]) by { assert b[p - 1] == b[..n][p - 1]; }
      forall i | 0 <= i < n ensures IsPrint(now[..n][i]) {
        assert b[i] == b[..n][i];
      }
    }
  }

  lemma MovedByOne(e: Editor, b: Text, p: nat, n: nat)
    requires Holds(e, b, p, n)
    ensures p > 0 ==> Apply(e, Left) == With(e, b, p - 1, n)
    ensures p < n ==> Apply(e, Right) == With(e, b, p + 1, n)
  {
    if p > 0 {
      assert b[..p - 1] == ButLast(b[..p]);
      assert b[p - 1..n] == [b[p - 1]] + b[p..n];
    }
    if p < n {
      assert b[..p + 1] == b[..p] + [b[p]];
      assert b[p + 1..n] == b[p..n][1..];
    }
  }

  lemma MovedToEnd(e: Editor, b: Text, p: nat, n: nat)
    requires Holds(e, b, p, n)
    ensures Apply(e, LineStart) == With(e, b, 0, n)
    ensures Apply(e, LineEnd) == With(e, b, n, n) == Apply(e, Redraw)
  {
    assert b[..p] + b[p..n] == b[..n];
  }

  lemma LineKilled(e: Editor, b: Text, p: nat, n: nat)
    requires Holds(e, b, p, n)
    ensures Apply(e, Kill) == With(e, b, p, p)
    ensures Apply(e, ClearLine) == With(e, b, 0, 0)
    ensures Buffer(e) == b
  {
    assert b[p..n] + b[n..] == b[p..];
    assert b[..p] + b[p..n] + b[n..] == b;
  }

  lemma LineRecalled(e: Editor, b: Text, p: nat, n: nat, dir: HR.Dir, now: Text)
    requires Holds(e, b, p, n) && !(dir == HR.Up && e.hist.index == |e.hist.entries|)
    requires var h := HR.Step(e.hist, HR.Recall(dir));
             var line := HR.Shown(h.entries, h.index);
             |line| <= MAXLINE && now == line + b[|line|..]
    ensures var h := HR.Step(e.hist, HR.Recall(dir));
            var n := |HR.Shown(h.entries, h.index)|;
            Apply(e, Action.History(dir)) == With(e, now, n, n).(hist := h)
  {
    LineKilled(e, b, p, n);
  }

  /** The keys outside escape sequences that concern nothing but the line. */
  predicate IsEditing(ch: byte) {
    ch in {0x01, 0x02, 0x03, 0x04, 0x05, 0x06, 0x08, 0x0b, 0x0c, 0x14, 0x15, 0x7f} || IsPrint(ch)
  }

  lemma EditingKeys(ch: byte)
    ensures IsEditing(ch) ==> KeyAction(ch) != Enter && KeyAction(ch) != Dump
    ensures ch == 0x14 <==> KeyAction(ch) == Transpose
  {
  }

  // ---------------------------------------------------------------- edits on buffer and screen

  lemma InsertEdit(e: Editor, b: Text, p: nat, n: nat, ch: byte, t: Screen)
    requires Holds(e, b, p, n) && n < MAXLINE && Editing.Valid(e) && IsPrint(ch)
    ensures var now := Opened(b, p, n, ch);
            && Apply(e, Insert(ch)) == With(e, now, p + 1, n + 1) && Editing.Valid(With(e, now, p + 1, n + 1))
            && (Tracks(t, b[..n], p) ==> TracksUpTo(Receive(t, ch), now[..p + 1]))
  {
    ApplyKeepsValid(e, Insert(ch));
    OpenedInserts(e, b, p, n, ch);
    InsertTracks(t, b, p, n, ch);
  }

  lemma DeleteEdit(e: Editor, b: Text, p: nat, n: nat, t: Screen)
    requires Holds(e, b, p, n) && p < n && Editing.Valid(e)
    ensures var now := Closed(b, p, n);
            && Apply(e, Delete) == With(e, now, p, n - 1) && Editing.Valid(With(e, now, p, n - 1))
            && (Tracks(t, b[..n], p) ==> TracksUpTo(t, now[..p]))
  {
    ApplyKeepsValid(e, Delete);
    ClosedDeletes(e, b, p, n);
    DeleteTracks(t, b, p, n);
  }

  lemma BackspaceEdit(e: Editor, b: Text, p: nat, n: nat, t: Screen)
    requires Holds(e, b, p, n) && p > 0 && Editing.Valid(e)
    ensures var now := Closed(b, p - 1, n);
            && Apply(e, Backspace) == With(e, now, p - 1, n - 1) && Editing.Valid(With(e, now, p - 1, n - 1))
            && (Tracks(t, b[..n], p) ==> TracksUpTo(CursorBack(t, 1), now[..p - 1]))
  {
    ApplyKeepsValid(e, Backspace);
    ClosedBackspaces(e, b, p, n);
    BackspaceTracks(t, b, p, n);
  }

  lemma TransposeEdit(e: Editor, b: Text, p: nat, n: nat, t: Screen)
    requires Holds(e, b, p, n) && p > 0 && Editing.Valid(e)
    ensures var now := Swapped(b, p);
            && Apply(e, Transpose) == With(e, now, p, n) && Editing.Valid(With(e, now, p, n))
            && AllPlain(now[p - 1..n])
            && (Tracks(t, b[..n], p) ==> TracksUpTo(CursorBack(t, 1), now[..p - 1]))
  {
    ApplyKeepsValid(e, Transpose);
    SwappedTransposes(e, b, p, n);
    BackspaceTracks(t, b, p, n);
    assert Swapped(b, p)[p - 1..n] == [Swapped(b, p)[..p][p - 1]] + Swapped(b, p)[p..n];
  }

  method ClearBuffer() returns (buffer: array<byte>)
    ensures fresh(buffer) && buffer.Length == MAXLINE + 1 && buffer[..] == Nuls(MAXLINE + 1)
  {
    buffer := new byte[MAXLINE + 1](_ => NUL);
  }

  method BootHistory() returns (hist: HR.History)
    ensures hist.Valid() && fresh(hist) && fresh(hist.buffer)
    ensures hist.Abs() == Initial().hist
  {
    hist := new HR.History();
    var cmd := new byte[|BOOT|](i requires 0 <= i < |BOOT| => BOOT[i]);
    assert cmd[..] == BOOT && cmd[..|BOOT|] == BOOT;
    hist.Save(cmd, |BOOT|);
  }

  class Cmdline {
    const hist: HR.History
    const cursor: Cursor
    const uart: Uart
    const cmdline: array<byte>
    var cmdlen: nat
    var state: State
    /** The strings the command processor was started with. */
    var executed: seq<Text>
    /** The lines that were ended with <RET>. */
    ghost var entered: seq<Text>

    ghost var Repr: set<object>

    ghost predicate Sound()
      reads this, hist, cursor, uart, cmdline
    {
      && Repr == {this, hist, hist.buffer, cursor, uart, cmdline}
      && cmdline.Length == MAXLINE + 1
      && cmdline != hist.buffer
      && cursor.uart == uart
      && uart.Ready() && |uart.screen.row| >= PS + 80
      && cursor.curpos <= cmdlen <= MAXLINE
    }

    ghost function Abs(): (e: Editor)
      requires Sound()
      reads this, hist, cursor, uart, cmdline
    {
      Editor(state, cmdline[..cursor.curpos], cmdline[cursor.curpos..cmdlen], cmdline[cmdlen..],
             hist.Abs(), entered, executed)
    }

    /** All that editing the line takes. */
    ghost predicate Editable()
      reads this, hist, cursor, uart, cmdline
    {
      Sound() && Editing.Valid(Abs())
    }

    ghost predicate Valid()
      reads this, hist, hist.buffer, cursor, uart, cmdline
    {
      Editable() && hist.Valid()
    }

    /** The terminal shows the line, with its cursor at the editor's cursor. */
    ghost predicate Faithful()
      reads this, cursor, uart, cmdline
    {
      cmdlen <= cmdline.Length && Shows(uart.screen, cmdline[..cmdlen], cursor.curpos)
    }

    /** The row is right as far as the line's first NUL, and shows the whole of a printable line. */
    ghost predicate Tracking()
      reads this, cursor, uart, cmdline
    {
      cmdlen <= cmdline.Length && Tracks(uart.screen, cmdline[..cmdlen], cursor.curpos)
    }

    /** A tracked line is shown exactly when it is printable. */
    lemma TrackingMeans()
      requires Sound()
      ensures Line(Abs()) == cmdline[..cmdlen]
      ensures Faithful() ==> Tracking()
      ensures Tracking() ==> (Faithful() <==> AllPrint(Line(Abs())))
    {
      assert cmdline[..cursor.curpos] + cmdline[cursor.curpos..cmdlen] == cmdline[..cmdlen];
      if Faithful() {
        ShownIsTracked(uart.screen, cmdline[..cmdlen], cursor.curpos);
      }
      if Tracking() {
        TrackedIsShown(uart.screen, cmdline[..cmdlen], cursor.curpos);
      }
    }

    /** A fresh editor, with the boot command already in its history. */
    constructor (uart: Uart)
      requires uart.Ready() && |uart.screen.row| >= PS + 80
      ensures Valid() && this.uart == uart
      ensures fresh(Repr - {uart})
      ensures Abs() == Initial()
      ensures Faithful() <==> Shows(uart.screen, [], 0)
    {
      this.uart := uart;
      state := StateNone;
      cmdlen := 0;
      executed, entered := [], [];
      var boot := BootHistory();
      hist := boot;
      cursor := new Cursor(uart);
      var buffer := ClearBuffer();
      cmdline := buffer;
      new;
      Repr := {this, hist, hist.buffer, cursor, uart, cmdline};
      InitialIsValid();
    }

    /** Erases from the cursor to the end of the line and prints the rest of the command line there. */
    method Update()
      requires Sound() && AllPlain(cmdline[cursor.curpos..cmdlen])
      modifies cursor, uart
      ensures Sound() && cursor.curpos == old(cursor.curpos)
      ensures var t, text := old(uart.screen), cmdline[cursor.curpos..cmdlen];
              t.col + |text| < |t.row| ==> uart.screen == Redrawn(t, text)
    {
      ghost var t, p, b := uart.screen, cursor.curpos, cmdline[..];
      cursor.Save();
      cursor.EraseEol();
      var i := cursor.curpos;
      assert b[p..p] == [];
      while i < cmdlen
        invariant p <= i <= cmdlen && cursor.curpos == i && cursor.cursav == p && cmdline[..] == b
        invariant uart.Ready() && |uart.screen.row| == |t.row| && uart.screen.saved == t.col
        invariant t.col + (cmdlen - p) < |t.row| ==> PrintedFrom(t, uart.screen, Printed(b[p..i]))
      {
        NextPrinted(t, uart.screen, b, p, i, cmdlen);
        cursor.PutChar(cmdline[i]);
        i := i + 1;
      }
      cursor.Restore();
    }

    /** Redraws the text after the cursor once the text before it is right on the screen. */
    method UpdateTracked()
      requires Sound() && AllPlain(cmdline[cursor.curpos..cmdlen])
      modifies cursor, uart
      ensures Sound() && cursor.curpos == old(cursor.curpos)
      ensures TracksUpTo(old(uart.screen), cmdline[..cursor.curpos]) ==> Tracking()
    {
      Update();
      if TracksUpTo(old(uart.screen), cmdline[..cursor.curpos]) {
        RedrawnTracks(old(uart.screen), cmdline[..cursor.curpos], cmdline[cursor.curpos..cmdlen]);
        assert cmdline[..cursor.curpos] + cmdline[cursor.curpos..cmdlen] == cmdline[..cmdlen];
      }
    }

    // ---------------------------------------------------------------- editing

    /** Inserts a character at the cursor, unless the line is full. */
    method InsChar(ch: byte)
      requires Editable() && IsPrint(ch)
      modifies this`cmdlen, cmdline, cursor, uart
      ensures Editable() && Abs() == Apply(old(Abs()), Insert(ch))
      ensures old(Tracking()) ==> Tracking()
    {
      if cmdlen < cmdline.Length - 1 {
        var curpos := cursor.curpos;
        InsertEdit(Abs(), cmdline[..], curpos, cmdlen, ch, uart.screen);
        InsertAt(curpos, ch);
      }
    }

    /** Opens a gap, prints the character and redraws what follows it. */
    method InsertAt(curpos: nat, ch: byte)
      requires Sound() && curpos == cursor.curpos && cmdlen < MAXLINE && IsPrint(ch)
      requires AllPlain(Opened(cmdline[..], curpos, cmdlen, ch)[curpos + 1..cmdlen + 1])
      modifies this`cmdlen, cmdline, cursor, uart
      ensures Sound() && cursor.curpos == curpos + 1 && cmdlen == old(cmdlen) + 1
      ensures cmdline[..] == Opened(old(cmdline[..]), curpos, old(cmdlen), ch)
      ensures TracksUpTo(Receive(old(uart.screen), ch), cmdline[..curpos + 1]) ==> Tracking()
    {
      OpenGap(cmdline, curpos, cmdlen, ch);
      cursor.PutChar(ch);
      cmdlen := cmdlen + 1;
      if curpos != cmdlen {
        UpdateTracked();
      }
    }

    /** Deletes the character under the cursor, if there is one. */
    method DelChar()
      requires Editable()
      modifies this`cmdlen, cmdline, cursor, uart
      ensures Editable() && Abs() == Apply(old(Abs()), Delete)
      ensures old(Tracking()) ==> Tracking()
    {
      var curpos := cursor.curpos;
      if curpos != cmdlen {
        DeleteEdit(Abs(), cmdline[..], curpos, cmdlen, uart.screen);
        CloseGap(cmdline, curpos, cmdlen);
        cmdlen := cmdlen - 1;
        UpdateTracked();
      }
    }

    /** Deletes the character before the cursor, if there is one. */
    method DoBackspace()
      requires Editable()
      modifies this`cmdlen, cmdline, cursor, uart
      ensures Editable() && Abs() == Apply(old(Abs()), Backspace)
      ensures old(Tracking()) ==> Tracking()
    {
      var curpos := cursor.curpos;
      if curpos > 0 {
        ghost var e, now := Abs(), Closed(cmdline[..], curpos - 1, cmdlen);
        BackspaceEdit(e, cmdline[..], curpos, cmdlen, uart.screen);
        EraseBefore(curpos);
        assert Abs() == With(e, now, curpos - 1, cmdlen);
      }
    }

    /** Closes the gap, moves back and redraws what follows. */
    method EraseBefore(curpos: nat)
      requires Sound() && 0 < curpos == cursor.curpos
      requires AllPlain(Closed(cmdline[..], curpos - 1, cmdlen)[curpos - 1..cmdlen - 1])
      modifies this`cmdlen, cmdline, cursor, uart
      ensures Sound() && cursor.curpos == curpos - 1 && cmdlen == old(cmdlen) - 1
      ensures cmdline[..] == Closed(old(cmdline[..]), curpos - 1, old(cmdlen))
      ensures TracksUpTo(CursorBack(old(uart.screen), 1), cmdline[..curpos - 1]) ==> Tracking()
    {
      CloseGapBefore(cmdline, curpos, cmdlen);
      cmdlen := cmdlen - 1;
      BackOne();
      UpdateTracked();
    }

    /** `cursor.back()`, away from the start of the line. */
    method BackOne()
      requires uart.Ready() && cursor.uart == uart && cursor.curpos > 0
      modifies cursor`curpos, uart
      ensures uart.Ready() && cursor.curpos == old(cursor.curpos) - 1
      ensures uart.screen == CursorBack(old(uart.screen), 1)
    {
      cursor.Back(1);
    }

    /**
     Exchanges the characters to the left of and under the cursor. At the end of the line the byte under the cursor is
     what an earlier line left there, or NUL; the screen then follows exactly when it is printable.
     */
    method DoTranspose()
      requires Editable() && cursor.curpos > 0
      modifies cmdline, cursor, uart
      ensures Editable() && Abs() == Apply(old(Abs()), Transpose)
      ensures old(Faithful()) ==>
                (Faithful() <==> old(cursor.curpos) < cmdlen || IsPrint(old(cmdline[cmdlen])))
      ensures old(Tracking()) ==> Tracking()
    {
      var curpos := cursor.curpos;
      TrackingMeans();
      SwappedPrints(cmdline[..], curpos, cmdlen);
      TransposeEdit(Abs(), cmdline[..], curpos, cmdlen, uart.screen);
      SwapBefore(cmdline, curpos);
      BackOne();
      UpdateTracked();
      ForwardTracks(uart.screen, cmdline[..cmdlen], curpos - 1, 1);
      cursor.Fwd(1);
      TrackingMeans();
    }

    // ---------------------------------------------------------------- moving

    /** Moves the cursor to either end of the line. */
    method MoveTo(pos: nat)
      requires Editable() && pos in {0, cmdlen}
      modifies cursor, uart
      ensures Editable() && cursor.curpos == pos
      ensures Abs() == Apply(old(Abs()), if pos == 0 then LineStart else LineEnd)
      ensures old(Tracking()) ==> Tracking()
    {
      ApplyKeepsValid(Abs(), if pos == 0 then LineStart else LineEnd);
      MovedToEnd(Abs(), cmdline[..], cursor.curpos, cmdlen);
      if Tracking() {
        MoveTracks(uart.screen, cmdline[..cmdlen], cursor.curpos, pos);
      }
      cursor.Move(pos);
    }

    method MoveLeft()
      requires Editable()
      modifies cursor, uart
      ensures Editable() && Abs() == Apply(old(Abs()), Left)
      ensures old(Tracking()) ==> Tracking()
    {
      ApplyKeepsValid(Abs(), Left);
      if cursor.curpos > 0 {
        BackTracks(uart.screen, cmdline[..cmdlen], cursor.curpos);
        MovedByOne(Abs(), cmdline[..], cursor.curpos, cmdlen);
        cursor.Back(1);
      }
    }

    method MoveRight()
      requires Editable()
      modifies cursor, uart
      ensures Editable() && Abs() == Apply(old(Abs()), Right)
      ensures old(Tracking()) ==> Tracking()
    {
      ApplyKeepsValid(Abs(), Right);
      if cursor.curpos < cmdlen {
        ForwardTracks(uart.screen, cmdline[..cmdlen], cursor.curpos, 1);
        MovedByOne(Abs(), cmdline[..], cursor.curpos, cmdlen);
        cursor.Fwd(1);
      }
    }

    // ---------------------------------------------------------------- whole lines

    /** Erases from the cursor on. */
    method KillToEnd()
      requires Editable()
      modifies this`cmdlen, uart
      ensures Editable() && Abs() == Apply(old(Abs()), Kill)
      ensures old(Tracking()) ==> Tracking()
    {
      ApplyKeepsValid(Abs(), Kill);
      LineKilled(Abs(), cmdline[..], cursor.curpos, cmdlen);
      KillTracks(uart.screen, cmdline[..], cursor.curpos, cmdlen);
      cursor.EraseEol();
      cmdlen := cursor.curpos;
    }

    method Clear()
      requires Editable()
      modifies this`cmdlen, cursor, uart
      ensures Editable() && Abs() == Apply(old(Abs()), ClearLine)
      ensures old(Tracking()) ==> Tracking()
    {
      ApplyKeepsValid(Abs(), ClearLine);
      LineKilled(Abs(), cmdline[..], cursor.curpos, cmdlen);
      StartTracks(uart.screen, cmdline[..cmdlen], cursor.curpos);
      cursor.Move(0);
      if TracksUpTo(uart.screen, []) {
        ErasedTracks(uart.screen, []);
      }
      cursor.EraseEol();
      cmdlen := 0;
      assert cmdline[..0] == [];
    }

    /** Prints the whole line again and leaves the cursor at its end. */
    method RedrawLine()
      requires Editable()
      modifies cursor, uart
      ensures Editable() && Abs() == Apply(old(Abs()), Redraw)
      ensures old(Tracking()) ==> Tracking()
    {
      ApplyKeepsValid(Abs(), Redraw);
      MovedToEnd(Abs(), cmdline[..], cursor.curpos, cmdlen);
      StartTracks(uart.screen, cmdline[..cmdlen], cursor.curpos);
      cursor.Move(0);
      PrintFromStart();
    }

    /** With the cursor at the start: `update(); cursor.fwd(cmdlen);`. */
    method PrintFromStart()
      requires Sound() && AllPlain(cmdline[..cmdlen]) && cursor.curpos == 0
      modifies cursor, uart
      ensures Sound() && cursor.curpos == cmdlen
      ensures TracksUpTo(old(uart.screen), []) ==> Tracking()
    {
      assert cmdline[..0] == [] && cmdline[0..cmdlen] == cmdline[..cmdlen];
      UpdateTracked();
      ForwardTracks(uart.screen, cmdline[..cmdlen], 0, cmdlen);
      cursor.Fwd(cmdlen);
    }

    /** Recalls a line from the history, unless that is already at its oldest entry. */
    method GetHist(dir: HR.Dir)
      requires Valid()
      modifies this`cmdlen, cmdline, cursor, uart, hist
      ensures Valid() && Abs() == Apply(old(Abs()), Action.History(dir))
      ensures old(Tracking()) ==> Tracking()
    {
      ApplyKeepsValid(Abs(), Action.History(dir));
      StartTracks(uart.screen, cmdline[..cmdlen], cursor.curpos);
      ghost var e, b, p, n := Abs(), cmdline[..], cursor.curpos, cmdlen;
      var len := hist.Recall(cmdline, dir);
      if len >= 0 {
        LineRecalled(e, b, p, n, dir, cmdline[..]);
        ShowRecalled(len);
      }
    }

    /** `cmdlen = len; cursor.move(0); update(); cursor.fwd(cmdlen);`. */
    method ShowRecalled(len: nat)
      requires Sound() && len <= MAXLINE && AllPlain(cmdline[..len])
      modifies this`cmdlen, cursor, uart
      ensures Sound() && cursor.curpos == cmdlen == len
      ensures TracksUpTo(CursorForward(CursorBack(old(uart.screen), 99), PS), []) ==> Tracking()
    {
      cmdlen := len;
      cursor.Move(0);
      PrintFromStart();
    }

    /** Saves the line, starts a fresh row and hands the line to the command processor, which prints the next prompt. */
    method Newline()
      requires Valid()
      modifies this`cmdlen, this`executed, this`entered, cmdline, cursor, uart, hist, hist.buffer
      ensures Valid() && Abs() == Apply(old(Abs()), Enter)
      ensures Faithful()
    {
      ApplyKeepsValid(Abs(), Enter);
      assert cmdline[..cursor.curpos] + cmdline[cursor.curpos..cmdlen] == cmdline[..cmdlen];
      hist.Save(cmdline, cmdlen);
      entered := entered + [cmdline[..cmdlen]];
      RunLine();
    }

    /** Terminates the line, starts a fresh row, executes the line and clears the buffer. */
    method RunLine()
      requires Sound()
      modifies this`cmdlen, this`executed, cmdline, cursor, uart
      ensures Sound() && cmdlen == 0 && cursor.curpos == 0 && cmdline[..] == Nuls(MAXLINE + 1)
      ensures executed == old(executed) + [CString(old(cmdline[..cmdlen]))]
      ensures Shows(uart.screen, [], 0)
    {
      cmdline[cmdlen] := NUL;
      FreshPromptShows(uart.screen);
      cursor.PutChar(LF);
      CStringBefore(cmdline[..], cmdlen);
      assert cmdline[..cmdlen] == old(cmdline[..cmdlen]);
      cmdlen := 0;
      TaskExecute();
      Memset(cmdline);
    }

    /** The command processor sees the buffer as a C string; when the command is done it prints the prompt. */
    method TaskExecute()
      requires uart.Ready() && |uart.screen.row| >= PS + 80
      modifies this`executed, uart
      ensures executed == old(executed) + [CString(cmdline[..])]
      ensures uart.screen == ReceiveAll(old(uart.screen), PROMPT)
    {
      executed := executed + [CString(cmdline[..])];
      uart.Print(PROMPT);
    }

    // ---------------------------------------------------------------- the key dispatch

    /** The first line of the PF1 debugging dump, which lands on the editor's row. */
    method DumpHistory()
      requires Editable()
      modifies uart
      ensures Editable() && Abs() == old(Abs())
      ensures !Faithful()
    {
      uart.Print(DUMP_TITLE);
      uart.PutChar(LF);
      uart.PutChar(LF);
      assert uart.screen.row[0] == SPACE;
    }

    /**
     What becomes of the screen at an action: <RET> makes it faithful, the PF1 dump spoils it, and otherwise it goes on
     tracking the line if it did before.
     */
    ghost predicate Follows(was: bool, a: Action)
      reads this, cursor, uart, cmdline
    {
      && (a == Enter ==> Faithful())
      && (a == Dump ==> !Faithful())
      && (a != Dump && a != Enter && was ==> Tracking())
    }

    /** Keys outside escape sequences that move the cursor. */
    method ProcessMotion(ch: byte)
      requires Editable() && ch in {0x01, 0x02, 0x05, 0x06}
      modifies cursor, uart
      ensures Editable() && Abs() == Apply(old(Abs()), KeyAction(ch))
      ensures old(Tracking()) ==> Tracking()
    {
      match ch {
        case 0x01 => MoveTo(0);
        case 0x02 => MoveLeft();
        case 0x05 => MoveTo(cmdlen);
        case _ => MoveRight();
      }
    }

    /** Keys outside escape sequences that erase or redraw the line. */
    method ProcessLine(ch: byte)
      requires Editable() && ch in {0x0b, 0x0c, 0x15}
      modifies this`cmdlen, cursor, uart
      ensures Editable() && Abs() == Apply(old(Abs()), KeyAction(ch))
      ensures old(Tracking()) ==> Tracking()
    {
      match ch {
        case 0x0b =>
          assert KeyAction(ch) == Kill;
          KillToEnd();
        case 0x0c =>
          assert KeyAction(ch) == Redraw;
          RedrawLine();
        case _ =>
          assert KeyAction(ch) == ClearLine;
          Clear();
      }
    }

    /** Keys outside escape sequences that change the line at the cursor. */
    method ProcessEdit(ch: byte)
      requires Editable() && (ch in {0x03, 0x04, 0x08, 0x14, 0x7f} || IsPrint(ch))
      requires ch == 0x14 ==> cursor.curpos > 0
      modifies this`cmdlen, cmdline, cursor, uart
      ensures Editable() && Abs() == Apply(old(Abs()), KeyAction(ch))
      ensures old(Tracking()) ==> Tracking()
    {
      match ch {
        case 0x03 => DoBackspace();
        case 0x04 => DelChar();
        case 0x08 => DoBackspace();
        case 0x14 => DoTranspose();
        case 0x7f => DelChar();
        case _ => InsChar(ch);
      }
    }

    /** The rest: <RET>, the history, the bell, and keys that do nothing. */
    method ProcessOther(ch: byte)
      requires Valid() && !IsEditing(ch) && ch != ESC
      modifies this`cmdlen, this`executed, this`entered, cmdline, cursor, uart, hist, hist.buffer
      ensures Valid() && Abs() == Apply(old(Abs()), KeyAction(ch))
      ensures Follows(old(Tracking()), KeyAction(ch))
    {
      match ch {
        case 0x0d => Newline();
        case 0x0e => GetHist(HR.Down);
        case 0x10 => GetHist(HR.Up);
        case 0x07 => uart.PutChar(ch);
        case _ =>
      }
    }

    /** All keys outside escape sequences that concern nothing but the line. */
    method ProcessEditing(ch: byte)
      requires Editable() && IsEditing(ch)
      requires ch == 0x14 ==> cursor.curpos > 0
      modifies this`cmdlen, cmdline, cursor, uart
      ensures Editable() && Abs() == Apply(old(Abs()), KeyAction(ch))
      ensures old(Tracking()) ==> Tracking()
    {
      if ch in {0x01, 0x02, 0x05, 0x06} {
        ProcessMotion(ch);
      } else if ch in {0x0b, 0x0c, 0x15} {
        ProcessLine(ch);
      } else {
        ProcessEdit(ch);
      }
    }

    /** Keys outside escape sequences. */
    method ProcessNone(ch: byte)
      requires Valid() && state == StateNone && ch != ESC
      requires KeyAction(ch) == Transpose ==> cursor.curpos > 0
      modifies this`cmdlen, this`executed, this`entered, cmdline, cursor, uart, hist, hist.buffer
      ensures Valid() && Abs() == Apply(old(Abs()), KeyAction(ch))
      ensures Follows(old(Tracking()), KeyAction(ch))
    {
      EditingKeys(ch);
      if IsEditing(ch) {
        ProcessEditing(ch);
      } else {
        ProcessOther(ch);
      }
    }

    /** The third byte of a cursor-key sequence. */
    method ProcessEscBrk(ch: byte)
      requires Valid() && state == StateEscBrk
      modifies this`cmdlen, this`state, cmdline, cursor, uart, hist
      ensures Valid() && Abs() == Press(old(Abs()), ch)
      ensures Follows(old(Tracking()), Decode(old(state), ch).0)
    {
      ghost var e := Abs();
      ProcessArrow(ch);
      ArrowPressed(e, ch);
      state := AfterBracket(ch);
    }

    /** The four cursor keys. */
    method ProcessArrow(ch: byte)
      requires Valid()
      modifies this`cmdlen, cmdline, cursor, uart, hist
      ensures Valid() && Abs() == Apply(old(Abs()), ArrowAction(ch))
      ensures old(Tracking()) ==> Tracking()
    {
      match ch {
        case 0x41 => GetHist(HR.Up);
        case 0x42 => GetHist(HR.Down);
        case 0x43 => MoveRight();
        case 0x44 => MoveLeft();
        case _ =>
      }
    }

    /** The other bytes of escape sequences: keypad keys and those that only change the state. */
    method ProcessKeypad(ch: byte)
      requires Valid() && state != StateNone && state != StateEscBrk
      modifies this`state, cursor, uart
      ensures Valid() && Abs() == Press(old(Abs()), ch)
      ensures Follows(old(Tracking()), Decode(old(state), ch).0)
    {
      ghost var e := Abs();
      KeypadPressed(e, ch);
      ActOnKeypad(ch);
      state := AfterKeypad(state, ch);
    }

    method ActOnKeypad(ch: byte)
      requires Editable()
      modifies cursor, uart
      ensures Editable() && Abs() == Apply(old(Abs()), KeypadAction(state, ch))
      ensures Follows(old(Tracking()), KeypadAction(state, ch))
    {
      if state == StatePFn && ch == 0x50 {
        DumpHistory();
      } else if state == StateHome && ch == 0x7e {
        MoveTo(0);
      } else if state == StateEnd && ch == 0x7e {
        MoveTo(cmdlen);
      }
    }

    /** The dispatch on the state. */
    method Dispatch(ch: byte)
      requires Valid() && InBounds(Abs(), ch)
      modifies this`cmdlen, this`state, this`executed, this`entered, cmdline, cursor, uart, hist, hist.buffer
      ensures Valid() && Abs() == Press(old(Abs()), ch)
      ensures Follows(old(Tracking()), Decode(old(state), ch).0)
    {
      match state {
        case StateNone =>
          if ch == ESC {
            state := StateEsc;
          } else {
            ProcessNone(ch);
          }
        case StateEscBrk =>
          ProcessEscBrk(ch);
        case _ =>
          ProcessKeypad(ch);
      }
    }

    /**
     One byte from the keyboard. The line, the history and the executed commands change as `Press` says. A screen that
     tracks the line goes on tracking it, and so shows it exactly when it is printable, except that the PF1 dump spoils
     it; <RET> makes it faithful whatever it showed before.
     */
    method Process(ch: byte)
      requires Valid() && InBounds(Abs(), ch)
      modifies Repr
      ensures Repr == old(Repr) && Valid() && Abs() == Press(old(Abs()), ch)
      ensures old(state) == StateNone && ch == 0x0d ==> Tracking() && Faithful()
      ensures old(state) == StatePFn && ch == 0x50 ==> !Faithful()
      ensures !(old(state) == StatePFn && ch == 0x50) && old(Tracking()) ==>
                Tracking() && (Faithful() <==> AllPrint(Line(Abs())))
    {
      SpecialKeys(state, ch);
      Dispatch(ch);
      TrackingMeans();
    }
  }

  function ArrowAction(ch: byte): Action {
    match ch
    case 0x41 => Action.History(HR.Up)
    case 0x42 => Action.History(HR.Down)
    case 0x43 => Right
    case 0x44 => Left
    case _ => Nothing
  }

  function AfterBracket(ch: byte): State {
    match ch
    case 0x31 => StateHome
    case 0x32 => StateIns
    case 0x34 => StateEnd
    case 0x35 => StatePgUp
    case 0x36 => StatePgDn
    case _ => StateNone
  }

  lemma ArrowPressed(e: Editor, ch: byte)
    requires e.state == StateEscBrk
    ensures Decode(e.state, ch) == (ArrowAction(ch), AfterBracket(ch))
    ensures Press(e, ch) == Apply(e, ArrowAction(ch)).(state := AfterBracket(ch))
    ensures ArrowAction(ch) != Enter && ArrowAction(ch) != Dump
  {
  }

  function KeypadAction(state: State, ch: byte): Action {
    if state == StatePFn && ch == 0x50 then Dump
    else if state == StateHome && ch == 0x7e then LineStart
    else if state == StateEnd && ch == 0x7e then LineEnd
    else Nothing
  }

  function AfterKeypad(state: State, ch: byte): State {
    if state == StateEsc && ch == 0x5b then StateEscBrk
    else if state == StateEsc && ch == 0x4f then StatePFn
    else StateNone
  }

  lemma KeypadPressed(e: Editor, ch: byte)
    requires e.state != StateNone && e.state != StateEscBrk
    ensures Decode(e.state, ch) == (KeypadAction(e.state, ch), AfterKeypad(e.state, ch))
    ensures Press(e, ch) == Apply(e, KeypadAction(e.state, ch)).(state := AfterKeypad(e.state, ch))
  {
  }

  /** Keys the console itself echoes, on the editor's row, before the editor sees them: ^C, ^Q and ^S. */
  predicate IsEchoed(ch: byte) {
    ch == 0x03 || ch == 0x11 || ch == 0x13
  }

  lemma EchoedKeys(ch: byte)
    ensures IsEchoed(ch) <==> ch in {0x03, 0x11, 0x13}
  {
  }

  /** Nothing but the editor has written to the row since the last <RET>: no PF1 dump and no echo of the console's. */
  predicate Undisturbed(e: Editor, keys: seq<byte>)
    decreases |keys|, 1
  {
    keys == [] || UndisturbedBy(e, keys[..|keys| - 1], keys[|keys| - 1])
  }

  predicate UndisturbedBy(e: Editor, keys: seq<byte>, ch: byte)
    decreases |keys|, 2
  {
    var a := Decode(PressAll(e, keys).state, ch).0;
    a == Enter || (a != Dump && !IsEchoed(ch) && Undisturbed(e, keys))
  }

  /** The console's own echo; ^C also starts a fresh row with a prompt. */
  method Echo(uart: Uart, ch: byte)
    requires uart.Ready()
    modifies uart
    ensures uart.Ready() && |uart.screen.row| == |old(uart.screen).row|
    ensures !IsEchoed(ch) ==> uart.screen == old(uart.screen)
    ensures ch == 0x11 || ch == 0x13 ==>
              uart.screen == Receive(Receive(old(uart.screen), '^' as int),
                                     if ch == 0x11 then 'Q' as int else 'S' as int)
    ensures ch == 0x03 && |uart.screen.row| >= PS + 80 ==> Shows(uart.screen, [], 0)
  {
    if IsEchoed(ch) {
      uart.PutChar(0x5e);
      uart.PutChar(ch + 0x40);
      if ch == 0x03 {
        uart.PutChar(CR);
        uart.PutChar(LF);
        FreshPromptIsReady(uart.screen);
        if |uart.screen.row| >= PS + 80 {
          PromptOnFreshRow(uart.screen);
        }
        uart.Print(PROMPT);
      }
    }
  }

  lemma OneKeyMore(e: Editor, keys: seq<byte>, ch: byte)
    ensures PressAll(e, keys + [ch]) == Press(PressAll(e, keys), ch)
    ensures AllInBounds(e, keys + [ch]) <==> AllInBounds(e, keys) && InBounds(PressAll(e, keys), ch)
    ensures Undisturbed(e, keys + [ch]) <==> UndisturbedBy(e, keys, ch)
  {
    assert (keys + [ch])[..|keys|] == keys;
  }

  /** Outside escape sequences, a key that neither begins one nor is echoed leaves the row undisturbed. */
  lemma KeyLeavesUndisturbed(e: Editor, keys: seq<byte>, ch: byte)
    requires Undisturbed(e, keys) && PressAll(e, keys).state == StateNone && !IsEchoed(ch) && ch != ESC
    ensures Undisturbed(e, keys + [ch])
  {
    OneKeyMore(e, keys, ch);
  }

  lemma TwoUndisturbed(e: Editor, a: byte, b: byte)
    requires e.state == StateNone && Press(e, a).state == StateNone
    requires !IsEchoed(a) && a != ESC && !IsEchoed(b) && b != ESC
    ensures Undisturbed(e, [a, b])
  {
    KeyLeavesUndisturbed(e, [], a);
    assert [] + [a] == [a] && [a] + [b] == [a, b];
    OneKeyMore(e, [], a);
    KeyLeavesUndisturbed(e, [a], b);
  }

  /** `A` and ^T at a fresh prompt: nothing disturbs the row, but the line is then one NUL, which no row shows. */
  lemma NulIsNotShown(e: Editor)
    requires e.state == StateNone && Line(e) == [] && |e.rest| == MAXLINE + 1 && e.rest[1] == NUL
    ensures AllInBounds(e, [0x41, 0x14]) && Undisturbed(e, [0x41, 0x14])
    ensures !AllPrint(Line(PressAll(e, [0x41, 0x14])))
  {
    TransposeAfterOneCharacter(e);
    NulIsNotPrintable(PressAll(e, [0x41, 0x14]));
    CharacterTyped(e, 0x41);
    TwoUndisturbed(e, 0x41, 0x14);
  }

  /** One backspace later the NUL is gone, and the row, undisturbed still, shows the empty line. */
  lemma NulIsRubbedOut(e: Editor)
    requires e.state == StateNone && Line(e) == [] && |e.rest| == MAXLINE + 1 && e.rest[1] == NUL
    ensures AllInBounds(e, [0x41, 0x14, 0x08]) && Undisturbed(e, [0x41, 0x14, 0x08])
    ensures Line(PressAll(e, [0x41, 0x14, 0x08])) == []
  {
    NulIsNotShown(e);
    TransposeAfterOneCharacter(e);
    assert [0x41, 0x14] + [0x08] == [0x41, 0x14, 0x08];
    OneKeyMore(e, [0x41, 0x14], 0x08);
    KeyLeavesUndisturbed(e, [0x41, 0x14], 0x08);
    BackspacePressed(PressAll(e, [0x41, 0x14]));
  }

  lemma BackspacePressed(e: Editor)
    requires e.state == StateNone && |e.before| == 1 && e.after == []
    ensures InBounds(e, 0x08) && Line(Press(e, 0x08)) == []
  {
  }

  lemma NulIsNotPrintable(e: Editor)
    requires e.before == [NUL]
    ensures !AllPrint(Line(e))
  {
    assert Line(e)[0] == NUL;
  }

  /** The echo leaves the editor alone. */
  method EchoBeside(editor: Cmdline, ch: byte)
    requires editor.Valid()
    modifies editor.uart
    ensures editor.Valid() && editor.Abs() == old(editor.Abs())
    ensures !IsEchoed(ch) && old(editor.Tracking()) ==> editor.Tracking()
  {
    Echo(editor.uart, ch);
  }

  method ServeKey(editor: Cmdline, ch: byte)
    requires editor.Valid() && InBounds(editor.Abs(), ch)
    modifies editor.Repr
    ensures editor.Repr == old(editor.Repr) && editor.Valid() && editor.Abs() == Press(old(editor.Abs()), ch)
    ensures var a := Decode(old(editor.state), ch).0;
            a == Enter || (a != Dump && !IsEchoed(ch) && old(editor.Tracking())) ==> editor.Tracking()
  {
    SpecialKeys(editor.state, ch);
    EchoBeside(editor, ch);
    editor.Process(ch);
  }

  method ServeNext(editor: Cmdline, ch: byte, ghost e: Editor, ghost keys: seq<byte>)
    requires editor.Valid() && editor.Abs() == PressAll(e, keys) && AllInBounds(e, keys + [ch])
    requires Undisturbed(e, keys) ==> editor.Tracking()
    modifies editor.Repr
    ensures editor.Repr == old(editor.Repr) && editor.Valid() && editor.Abs() == PressAll(e, keys + [ch])
    ensures Undisturbed(e, keys + [ch]) ==> editor.Tracking()
  {
    OneKeyMore(e, keys, ch);
    ServeKey(editor, ch);
  }

  /** Feeds keys to the editor as they arrive. */
  method Serve(editor: Cmdline, keys: seq<byte>, ghost e: Editor)
    requires editor.Valid() && editor.Abs() == e && AllInBounds(e, keys) && editor.Tracking()
    modifies editor.Repr
    ensures editor.Valid() && editor.Abs() == PressAll(e, keys)
    ensures Undisturbed(e, keys) ==> editor.Tracking()
  {
    ghost var done: seq<byte> := [];
    for i := 0 to |keys|
      invariant done == keys[..i]
      invariant editor.Valid() && editor.Repr == old(editor.Repr)
      invariant editor.Abs() == PressAll(e, done)
      invariant Undisturbed(e, done) ==> editor.Tracking()
    {
      NextPrefix(e, keys, i);
      ServeNext(editor, keys[i], e, done);
      done := done + [keys[i]];
    }
    assert done == keys;
  }

  lemma PrefixSnoc<T>(s: seq<T>, i: nat)
    requires i < |s|
    ensures s[..i] + [s[i]] == s[..i + 1]
  {
  }

  lemma NextPrefix(e: Editor, keys: seq<byte>, i: nat)
    requires AllInBounds(e, keys) && i < |keys|
    ensures keys[..i] + [keys[i]] == keys[..i + 1] && AllInBounds(e, keys[..i] + [keys[i]])
  {
    PrefixSnoc(keys, i);
    BoundsOfPrefix(e, keys, i + 1);
  }

  /**
   The console task: prints the prompt and feeds every key that arrives to the editor. An undisturbed row begins with
   prompt and line as far as the line's first NUL, and shows the line exactly when the line is printable.
   */
  method TaskConsole(uart: Uart, keys: seq<byte>) returns (editor: Cmdline)
    requires uart.Ready() && |uart.screen.row| >= PS + 80
    requires uart.screen.col == 0 && uart.screen.row == Blanks(|uart.screen.row|)
    requires AllInBounds(Initial(), keys)
    modifies uart
    ensures editor.Valid() && editor.Abs() == PressAll(Initial(), keys)
    ensures Undisturbed(Initial(), keys) ==>
              editor.Tracking() && (editor.Faithful() <==> AllPrint(Line(PressAll(Initial(), keys))))
  {
    FreshPromptShows(uart.screen);
    assert uart.screen == Receive(Receive(uart.screen, CR), LF);
    uart.Print(PROMPT);
    editor := new Cmdline(uart);
    editor.TrackingMeans();
    Serve(editor, keys, Initial());
    editor.TrackingMeans();
  }

  lemma {:induction false} BoundsOfPrefix(e: Editor, keys: seq<byte>, n: nat)
    requires AllInBounds(e, keys) && n <= |keys|
    ensures AllInBounds(e, keys[..n])
    decreases |keys|
  {
    if n == |keys| {
      assert keys[..n] == keys;
    } else {
      BoundsOfPrefix(e, keys[..|keys| - 1], n);
      assert keys[..|keys| - 1][..n] == keys[..n];
    }
  }

  /** `Dump of command history:` */
  const DUMP_TITLE: Text :=
    [0x44, 0x75, 0x6d, 0x70, 0x20, 0x6f, 0x66, 0x20, 0x63, 0x6f, 0x6d, 0x6d, 0x61, 0x6e, 0x64, 0x20,
     0x68, 0x69, 0x73, 0x74, 0x6f, 0x72, 0x79, 0x3a]
}
