/** When the terminal shows a line, and what the editor's incremental redraws do to the row. */
module Display {
  import opened Bytes
  import opened Terminal
  import opened CursorControl
  import opened Editing

  const PS: nat := 6

  /** The row reads prompt, line, blanks, with the terminal's cursor over position `pos` of the line. */
  ghost predicate Shows(t: Screen, line: Text, pos: nat) {
    && WellFormed(t) && t.mode == Ground && |t.row| >= PS + 80
    && pos <= |line| <= MAXLINE
    && t.row == PROMPT + line + Blanks(|t.row| - PS - |line|)
    && t.col == PS + pos
  }

  /** A row wide enough, with the terminal's cursor over position `pos` of a line. */
  ghost predicate Placed(t: Screen, pos: nat) {
    && WellFormed(t) && t.mode == Ground && |t.row| >= PS + 80
    && pos <= MAXLINE && t.col == PS + pos
  }

  /** The row begins with the prompt and `text`. */
  ghost predicate Begins(t: Screen, text: Text) {
    PROMPT + text <= t.row
  }

  /**
   What the editor keeps up over every key: the row begins with prompt and line as far as the line's first NUL, and
   shows the whole of a printable line.
   */
  ghost predicate Tracks(t: Screen, line: Text, pos: nat) {
    && Placed(t, pos) && pos <= |line| <= MAXLINE
    && Begins(t, CString(line))
    && (AllPrint(line) ==> Shows(t, line, pos))
  }

  /** The same of what lies before the cursor alone; the rest is still to be redrawn. */
  ghost predicate TracksUpTo(t: Screen, before: Text) {
    Placed(t, |before|) && Begins(t, CString(before))
  }

  /** A shown row, cell by cell. */
  lemma ShownCells(t: Screen, line: Text, pos: nat)
    requires Shows(t, line, pos)
    ensures t.row[..6] == Ascii("KS10> ") && t.row[6..6 + |line|] == line && t.col == 6 + pos
    ensures forall i :: 6 + |line| <= i < |t.row| ==> t.row[i] == ' ' as int
  {
    assert PROMPT == Ascii("KS10> ");
  }

  /** Only a printable line can be shown. */
  lemma ShownIsPrintable(t: Screen, line: Text, pos: nat)
    requires Shows(t, line, pos)
    ensures AllPrint(line)
  {
    forall i | 0 <= i < |line| ensures IsPrint(line[i]) {
      assert t.row[PS + i] == line[i];
    }
  }

  /** The row from the cursor on replaced by `text` as it prints, and blanks; the cursor stays, and is saved. */
  function Redrawn(t: Screen, text: Text): Screen
    requires WellFormed(t) && t.col + |text| < |t.row|
  {
    var shown := Printed(text);
    t.(row := t.row[..t.col] + shown + Blanks(|t.row| - t.col - |shown|), saved := t.col)
  }

  /** A shown line is tracked, and a tracked line is shown exactly when it is printable. */
  lemma ShownIsTracked(t: Screen, line: Text, pos: nat)
    requires Shows(t, line, pos)
    ensures Tracks(t, line, pos)
  {
    ShownIsPrintable(t, line, pos);
    CStringWithoutNul(line);
  }

  lemma TrackedIsShown(t: Screen, line: Text, pos: nat)
    requires Tracks(t, line, pos)
    ensures Shows(t, line, pos) <==> AllPrint(line)
  {
    if Shows(t, line, pos) {
      ShownIsPrintable(t, line, pos);
    }
  }

  lemma BeginsWithLess(t: Screen, a: Text, b: Text)
    requires Begins(t, b) && a <= b
    ensures Begins(t, a)
  {
  }

  /** The row is right up to any place of a tracked line. */
  lemma TrackedFront(t: Screen, line: Text, pos: nat, p: nat)
    requires Tracks(t, line, pos) && p <= |line|
    ensures Begins(t, CString(line[..p]))
  {
    assert line[..p] + line[p..] == line;
    CStringOfStart(line[..p], line[p..]);
    BeginsWithLess(t, CString(line[..p]), CString(line));
  }

  lemma StartKept(row: Text, now: Text, col: nat, start: Text)
    requires start <= row && |start| <= col <= |row| && col <= |now| && now[..col] == row[..col]
    ensures start <= now
  {
    assert row[..|start|] == row[..col][..|start|] && now[..|start|] == now[..col][..|start|];
  }

  lemma StartExtended(left: Text, start: Text, shown: Text, rest: Text)
    requires start <= shown
    ensures left + start <= left + shown + rest
  {
  }

  lemma FrontKept(a: Text, b: Text, c: Text)
    ensures (a + b + c)[..|a|] == a
  {
  }

  lemma RedrawnAfterNul(t: Screen, before: Text, after: Text)
    requires TracksUpTo(t, before) && |before| + |after| <= MAXLINE
    ensures Begins(Redrawn(t, after), CString(before))
  {
    var front, shown := t.row[..t.col], Printed(after);
    var row := front + shown + Blanks(|t.row| - t.col - |shown|);
    assert row == Redrawn(t, after).row;
    FrontKept(front, shown, Blanks(|t.row| - t.col - |shown|));
    StartKept(t.row, row, t.col, PROMPT + CString(before));
  }

  lemma RedrawnBehind(t: Screen, before: Text, after: Text)
    requires Placed(t, |before|) && Begins(t, before) && |before| + |after| <= MAXLINE && AllPlain(after)
    ensures Begins(Redrawn(t, after), before + CString(after))
  {
    var shown := Printed(after);
    PrintedStart(after);
    RowOfFront(t, before);
    StartExtended(PROMPT + before, CString(after), shown, Blanks(|t.row| - t.col - |shown|));
    StartRegrouped(before, CString(after));
  }

  lemma StartRegrouped(a: Text, b: Text)
    ensures PROMPT + a + b == PROMPT + (a + b)
  {
  }

  /** Before the first NUL the row is as it was; without one before the cursor, the redrawn text follows. */
  lemma RedrawnBegins(t: Screen, before: Text, after: Text)
    requires TracksUpTo(t, before) && |before| + |after| <= MAXLINE && AllPlain(after)
    ensures Begins(Redrawn(t, after), CString(before + after))
  {
    CStringAppend(before, after);
    if NUL in before {
      RedrawnAfterNul(t, before, after);
    } else {
      CStringWithoutNul(before);
      RedrawnBehind(t, before, after);
    }
  }

  lemma RowOfFront(t: Screen, before: Text)
    requires Placed(t, |before|) && Begins(t, before)
    ensures t.row[..t.col] == PROMPT + before
  {
  }

  lemma RedrawnIsWhole(t: Screen, before: Text, after: Text)
    requires TracksUpTo(t, before) && |before| + |after| <= MAXLINE && AllPrint(before + after)
    ensures Shows(Redrawn(t, after), before + after, |before|)
  {
    var line := before + after;
    assert AllPrint(before) by { assert forall i :: 0 <= i < |before| ==> before[i] == line[i]; }
    assert AllPrint(after) by { assert forall i :: 0 <= i < |after| ==> after[i] == line[|before| + i]; }
    CStringWithoutNul(before);
    assert t.row[..t.col] == PROMPT + before;
    assert PROMPT + before + after == PROMPT + line;
  }

  /** A redraw from the cursor completes a row that was right up to there. */
  lemma RedrawnTracks(t: Screen, before: Text, after: Text)
    requires TracksUpTo(t, before) && |before| + |after| <= MAXLINE && AllPlain(after)
    ensures Tracks(Redrawn(t, after), before + after, |before|)
  {
    RedrawnBegins(t, before, after);
    if AllPrint(before + after) {
      RedrawnIsWhole(t, before, after);
    }
  }

  /** `shown` has been printed from the cursor of `t0` on, over a row erased from there. */
  ghost predicate PrintedFrom(t0: Screen, t: Screen, shown: Text)
    requires WellFormed(t0)
  {
    && t0.col + |shown| < |t0.row|
    && t.col == t0.col + |shown|
    && t.row == t0.row[..t0.col] + shown + Blanks(|t0.row| - t0.col - |shown|)
  }

  lemma CellPrinted(left: Text, shown: Text, n: nat, ch: byte)
    requires n > 0
    ensures (left + shown + Blanks(n))[|left| + |shown| := ch] == left + (shown + [ch]) + Blanks(n - 1)
  {
  }

  lemma CharacterReceived(t: Screen, ch: byte)
    requires WellFormed(t) && t.mode == Ground && t.col + 1 < |t.row|
    ensures IsPrint(ch) ==> Receive(t, ch) == t.(row := t.row[t.col := ch], col := t.col + 1)
    ensures ch == NUL ==> Receive(t, ch) == t
  {
  }

  lemma CharacterShown(t0: Screen, t: Screen, shown: Text, ch: byte)
    requires WellFormed(t0) && WellFormed(t) && t.mode == Ground && IsPrint(ch)
    requires PrintedFrom(t0, t, shown) && t0.col + |shown| + 1 < |t0.row|
    ensures PrintedFrom(t0, Receive(t, ch), shown + [ch])
  {
    CellPrinted(t0.row[..t0.col], shown, |t0.row| - t0.col - |shown|, ch);
    CharacterReceived(t, ch);
  }

  lemma PrintedMore(t0: Screen, t: Screen, text: Text, ch: byte)
    requires WellFormed(t0) && WellFormed(t) && t.mode == Ground && (ch == NUL || IsPrint(ch))
    ensures t0.col + |text| + 1 < |t0.row| && PrintedFrom(t0, t, Printed(text)) ==>
              PrintedFrom(t0, Receive(t, ch), Printed(text + [ch]))
  {
    PrintedSnoc(text, ch);
    if t0.col + |text| + 1 < |t0.row| && PrintedFrom(t0, t, Printed(text)) {
      if IsPrint(ch) {
        CharacterShown(t0, t, Printed(text), ch);
      } else {
        CharacterReceived(t, ch);
      }
    }
  }

  /** Printing the next byte of `b[p..n]`. */
  lemma NextPrinted(t0: Screen, t: Screen, b: Text, p: nat, i: nat, n: nat)
    requires WellFormed(t0) && WellFormed(t) && t.mode == Ground
    requires p <= i < n <= |b| && AllPlain(b[p..n])
    ensures b[i] == NUL || IsPrint(b[i])
    ensures t0.col + (n - p) < |t0.row| && PrintedFrom(t0, t, Printed(b[p..i])) ==>
              PrintedFrom(t0, Receive(t, b[i]), Printed(b[p..i + 1]))
  {
    assert b[i] == b[p..n][i - p];
    assert b[p..i + 1] == b[p..i] + [b[i]];
    PrintedMore(t0, t, b[p..i], b[i]);
  }

  /** Erasing from the cursor leaves the line before it. */
  lemma ErasedTracks(t: Screen, before: Text)
    requires TracksUpTo(t, before)
    ensures Tracks(EraseInLine(t, 0), before, |before|)
  {
    var r := EraseInLine(t, 0);
    assert r.row[..t.col] == t.row[..t.col];
    if AllPrint(before) {
      CStringWithoutNul(before);
      assert t.row[..t.col] == PROMPT + before;
    }
  }

  /** Printing a character over the cursor extends the part that is right. */
  lemma TypedTracksUpTo(t: Screen, before: Text, ch: byte)
    requires TracksUpTo(t, before) && |before| < MAXLINE && IsPrint(ch)
    ensures TracksUpTo(Receive(t, ch), before + [ch])
  {
    var r := Receive(t, ch);
    CStringAppend(before, [ch]);
    CStringWithoutNul([ch]);
    CharacterReceived(t, ch);
    assert r.row[..t.col] == t.row[..t.col];
    if NUL !in before {
      CStringWithoutNul(before);
      assert t.row[..t.col] == PROMPT + before;
      assert r.row[..t.col + 1] == t.row[..t.col] + [ch];
      assert PROMPT + (before + [ch]) == (PROMPT + before) + [ch];
    }
  }

  /** Moving the cursor alone leaves the line tracked. */
  lemma MovedTracks(t: Screen, r: Screen, line: Text, pos: nat, target: nat)
    requires Tracks(t, line, pos) && target <= |line| && r == t.(col := PS + target)
    ensures Tracks(r, line, target)
  {
  }

  /** `cursor_t::move` finds any place in the line from any other. */
  lemma MoveTracks(t: Screen, line: Text, pos: nat, target: nat)
    requires Tracks(t, line, pos) && target <= |line|
    ensures Tracks(CursorForward(CursorBack(t, 99), PS + target), line, target)
  {
    MovedTracks(t, CursorForward(CursorBack(t, 99), PS + target), line, pos, target);
  }

  lemma PromptOnFreshRow(s: Screen)
    requires WellFormed(s) && s.mode == Ground && |s.row| >= PS + 80
    requires s.col == 0 && s.row == Blanks(|s.row|)
    ensures Shows(ReceiveAll(s, PROMPT), [], 0)
  {
    PromptPrinted(s, |PROMPT|);
    assert PROMPT[..|PROMPT|] == PROMPT;
    var r := ReceiveAll(s, PROMPT);
    assert r.row == r.row[..PS] + r.row[PS..];
    assert PROMPT + [] == PROMPT;
  }

  /** Carriage return, line feed and the prompt make a faithful empty line out of any screen wide enough. */
  lemma FreshPromptShows(t: Screen)
    requires WellFormed(t) && t.mode == Ground && |t.row| >= PS + 80
    ensures Shows(ReceiveAll(Receive(Receive(t, CR), LF), PROMPT), [], 0)
  {
    PromptOnFreshRow(Receive(Receive(t, CR), LF));
  }

  lemma FreshPromptIsReady(t: Screen)
    requires WellFormed(t) && t.mode == Ground
    ensures ReceiveAll(t, PROMPT).mode == Ground
  {
    PrintableKeepsGround(t, PROMPT);
  }

  lemma {:induction false} PrintableKeepsGround(t: Screen, s: Text)
    requires WellFormed(t) && t.mode == Ground && AllPrint(s)
    ensures ReceiveAll(t, s).mode == Ground
  {
    if s != [] {
      PrintableKeepsGround(t, s[..|s| - 1]);
    }
  }

  lemma {:induction false} PromptPrinted(s: Screen, n: nat)
    requires WellFormed(s) && s.mode == Ground && |s.row| >= PS + 80
    requires s.col == 0 && s.row == Blanks(|s.row|) && n <= |PROMPT|
    ensures var r := ReceiveAll(s, PROMPT[..n]);
            && r.mode == Ground && r.col == n
            && r.row == PROMPT[..n] + Blanks(|s.row| - n)
  {
    if n > 0 {
      PromptPrinted(s, n - 1);
      assert PROMPT[..n] == PROMPT[..n - 1] + [PROMPT[n - 1]];
      ReceiveSnoc(s, PROMPT[..n - 1], PROMPT[n - 1]);
      OneMoreOnBlanks(ReceiveAll(s, PROMPT[..n - 1]), PROMPT[..n - 1], PROMPT[n - 1]);
    }
  }

  lemma OneMoreOnBlanks(t: Screen, left: Text, ch: byte)
    requires WellFormed(t) && t.mode == Ground && IsPrint(ch)
    requires t.col == |left| && |left| + 1 < |t.row| && t.row == left + Blanks(|t.row| - |left|)
    ensures var r := Receive(t, ch);
            && r.mode == Ground && r.col == |left| + 1
            && r.row == left + [ch] + Blanks(|t.row| - |left| - 1)
  {
    CharacterReceived(t, ch);
  }

  // ---------------------------------------------------------------- edits of a buffer that starts with the line

  /** The text before any place of the line, with the cursor moved there. */
  lemma FrontTracked(t: Screen, b: Text, p: nat, n: nat, q: nat)
    requires p <= n <= |b| && q <= n && Tracks(t, b[..n], p)
    ensures TracksUpTo(t.(col := PS + q), b[..q])
  {
    TrackedFront(t, b[..n], p, q);
    assert b[..n][..q] == b[..q];
  }

  lemma InsertTracks(t: Screen, b: Text, p: nat, n: nat, ch: byte)
    requires p <= n <= |b| && n < MAXLINE && IsPrint(ch)
    ensures Tracks(t, b[..n], p) ==> TracksUpTo(Receive(t, ch), b[..p] + [ch])
  {
    if Tracks(t, b[..n], p) {
      FrontTracked(t, b, p, n, p);
      TypedTracksUpTo(t, b[..p], ch);
    }
  }

  lemma DeleteTracks(t: Screen, b: Text, p: nat, n: nat)
    requires p <= n <= |b|
    ensures Tracks(t, b[..n], p) ==> TracksUpTo(t, b[..p])
  {
    if Tracks(t, b[..n], p) {
      FrontTracked(t, b, p, n, p);
    }
  }

  lemma BackspaceTracks(t: Screen, b: Text, p: nat, n: nat)
    requires 0 < p <= n <= |b|
    ensures Tracks(t, b[..n], p) ==> TracksUpTo(CursorBack(t, 1), b[..p - 1])
  {
    if Tracks(t, b[..n], p) {
      FrontTracked(t, b, p, n, p - 1);
    }
  }

  lemma KillTracks(t: Screen, b: Text, p: nat, n: nat)
    requires WellFormed(t) && p <= n <= |b|
    ensures Tracks(t, b[..n], p) ==> Tracks(EraseInLine(t, 0), b[..p], p)
  {
    if Tracks(t, b[..n], p) {
      FrontTracked(t, b, p, n, p);
      ErasedTracks(t, b[..p]);
    }
  }

  lemma ForwardTracks(t: Screen, line: Text, p: nat, n: nat)
    requires WellFormed(t) && p + n <= |line|
    ensures Tracks(t, line, p) ==> Tracks(CursorForward(t, n), line, p + n)
  {
    if Tracks(t, line, p) {
      MovedTracks(t, CursorForward(t, n), line, p, p + n);
    }
  }

  lemma BackTracks(t: Screen, line: Text, p: nat)
    requires 0 < p <= |line|
    ensures Tracks(t, line, p) ==> Tracks(CursorBack(t, 1), line, p - 1)
  {
    if Tracks(t, line, p) {
      MovedTracks(t, CursorBack(t, 1), line, p, p - 1);
    }
  }

  /** Going to the start over the whole row; the prompt is then all that has to be right. */
  lemma StartTracks(t: Screen, line: Text, p: nat)
    requires WellFormed(t) && p <= |line|
    ensures Tracks(t, line, p) ==> TracksUpTo(CursorForward(CursorBack(t, 99), PS), [])
  {
    if Tracks(t, line, p) {
      MoveTracks(t, line, p, 0);
      TrackedFront(CursorForward(CursorBack(t, 99), PS), line, 0, 0);
    }
  }
}
