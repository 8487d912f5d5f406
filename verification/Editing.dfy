/**
 What the line editor is for, stated without buffers or terminals: a line split at the cursor, the command history,
 and the lines handed to the command processor.
 */
module Editing {
  import opened Bytes
  import HR = HistoryRing

  const MAXLINE: nat := 79

  /** The command the editor's constructor puts into the history: `ds unit=2;bt 1`. */
  const BOOT: Text := [0x64, 0x73, 0x20, 0x75, 0x6e, 0x69, 0x74, 0x3d, 0x32, 0x3b, 0x62, 0x74, 0x20, 0x31]

  datatype State =
    | StateNone | StateEsc | StateEscBrk | StatePFn
    | StateHome | StateIns | StateEnd | StatePgUp | StatePgDn

  datatype Action =
    | Nothing | Bell | Dump
    | Insert(ch: byte) | Delete | Backspace | Transpose
    | LineStart | LineEnd | Left | Right
    | Kill | ClearLine | Redraw
    | History(dir: HR.Dir)
    | Enter

  /**
   The line in two halves at the cursor, and the bytes left over behind it in the 80-byte buffer; the history; the
   lines ended with <RET>, and the strings the command processor was started with for them.
   */
  datatype Editor = Editor(state: State, before: Text, after: Text, rest: Text,
                           hist: HR.Model, entered: seq<Text>, executed: seq<Text>)

  function Line(e: Editor): Text {
    e.before + e.after
  }

  function Buffer(e: Editor): Text {
    e.before + e.after + e.rest
  }

  // ---------------------------------------------------------------- what each key means

  /** The action of a control key or character, outside escape sequences. */
  function KeyAction(ch: byte): Action {
    match ch
    case 0x0d => Enter
    case 0x01 => LineStart
    case 0x02 => Left
    case 0x03 => Backspace
    case 0x04 => Delete
    case 0x05 => LineEnd
    case 0x06 => Right
    case 0x07 => Bell
    case 0x08 => Backspace
    case 0x0b => Kill
    case 0x0c => Redraw
    case 0x0e => History(HR.Down)
    case 0x10 => History(HR.Up)
    case 0x14 => Transpose
    case 0x15 => ClearLine
    case 0x7f => Delete
    case _ => if IsPrint(ch) then Insert(ch) else Nothing
  }

  /** The action of a byte in a given state, and the state after it. */
  function Decode(state: State, ch: byte): (Action, State) {
    match state
    case StateNone => if ch == 0x1b then (Nothing, StateEsc) else (KeyAction(ch), StateNone)
    case StateEsc => (Nothing, if ch == 0x5b then StateEscBrk else if ch == 0x4f then StatePFn else StateNone)
    case StateEscBrk =>
      (match ch
       case 0x41 => (History(HR.Up), StateNone)
       case 0x42 => (History(HR.Down), StateNone)
       case 0x43 => (Right, StateNone)
       case 0x44 => (Left, StateNone)
       case 0x31 => (Nothing, StateHome)
       case 0x32 => (Nothing, StateIns)
       case 0x34 => (Nothing, StateEnd)
       case 0x35 => (Nothing, StatePgUp)
       case 0x36 => (Nothing, StatePgDn)
       case _ => (Nothing, StateNone))
    case StatePFn => (if ch == 0x50 then Dump else Nothing, StateNone)
    case StateHome => (if ch == 0x7e then LineStart else Nothing, StateNone)
    case StateEnd => (if ch == 0x7e then LineEnd else Nothing, StateNone)
    case _ => (Nothing, StateNone)
  }

  // ---------------------------------------------------------------- what each action does

  function ButLast<T>(s: seq<T>): seq<T>
    requires s != []
  {
    s[..|s| - 1]
  }

  function Last<T>(s: seq<T>): T
    requires s != []
  {
    s[|s| - 1]
  }

  function Nuls(n: nat): (s: Text)
    ensures |s| == n && AllPlain(s)
  {
    seq(n, _ => NUL)
  }

  /** ^T; with the cursor at the end of the line the byte left over behind it is the one exchanged. */
  function Transposed(e: Editor): Editor {
    if e.before == [] then e else
    var n := |e.before|;
    if e.after != [] then
      e.(before := ButLast(e.before) + [e.after[0]], after := [e.before[n - 1]] + e.after[1..])
    else if e.rest != [] then
      e.(before := ButLast(e.before) + [e.rest[0]], rest := [e.before[n - 1]] + e.rest[1..])
    else e
  }

  function Recalled(e: Editor, dir: HR.Dir): Editor {
    var h := HR.Step(e.hist, HR.Recall(dir));
    var line := HR.Shown(h.entries, h.index);
    if (dir == HR.Up && e.hist.index == |e.hist.entries|) || |line| > |Buffer(e)| then e
    else e.(before := line, after := [], rest := Buffer(e)[|line|..], hist := h)
  }

  function Apply(e: Editor, a: Action): Editor {
    match a
    case Nothing | Bell | Dump => e
    case Insert(ch) =>
      if |e.before| + |e.after| < MAXLINE && e.rest != [] then e.(before := e.before + [ch], rest := e.rest[1..]) else e
    case Delete => if e.after == [] then e else e.(after := e.after[1..], rest := [NUL] + e.rest)
    case Backspace => if e.before == [] then e else e.(before := ButLast(e.before), rest := [NUL] + e.rest)
    case Transpose => Transposed(e)
    case LineStart => e.(before := [], after := e.before + e.after)
    case LineEnd => e.(before := e.before + e.after, after := [])
    case Left =>
      if e.before == [] then e else
      e.(before := ButLast(e.before), after := [e.before[|e.before| - 1]] + e.after)
    case Right => if e.after == [] then e else e.(before := e.before + [e.after[0]], after := e.after[1..])
    case Kill => e.(after := [], rest := e.after + e.rest)
    case ClearLine => e.(before := [], after := [], rest := Buffer(e))
    case Redraw => e.(before := e.before + e.after, after := [])
    case History(dir) => Recalled(e, dir)
    case Enter =>
      e.(before := [], after := [], rest := Nuls(MAXLINE + 1), hist := HR.Step(e.hist, HR.Save(Line(e))),
         entered := e.entered + [Line(e)], executed := e.executed + [CString(Line(e))])
  }

  function Press(e: Editor, ch: byte): Editor {
    var (a, next) := Decode(e.state, ch);
    Apply(e, a).(state := next)
  }

  /** ^T has no bounds check of its own: with nothing before the cursor it would reach before the buffer. */
  predicate InBounds(e: Editor, ch: byte) {
    Decode(e.state, ch).0 == Transpose ==> e.before != []
  }

  /** At the end of the line ^T takes in the byte behind it, which may be NUL. */
  predicate TakesPrintable(e: Editor, ch: byte) {
    Decode(e.state, ch).0 == Transpose && e.after == [] ==> e.rest != [] && IsPrint(e.rest[0])
  }

  function PressAll(e: Editor, keys: seq<byte>): Editor {
    if keys == [] then e else Press(PressAll(e, keys[..|keys| - 1]), keys[|keys| - 1])
  }

  predicate AllInBounds(e: Editor, keys: seq<byte>) {
    keys != [] ==>
      && AllInBounds(e, keys[..|keys| - 1])
      && InBounds(PressAll(e, keys[..|keys| - 1]), keys[|keys| - 1])
  }

  predicate AllTakePrintable(e: Editor, keys: seq<byte>) {
    keys != [] ==>
      && AllTakePrintable(e, keys[..|keys| - 1])
      && TakesPrintable(PressAll(e, keys[..|keys| - 1]), keys[|keys| - 1])
  }

  // ---------------------------------------------------------------- key by key

  /** The sequence ESC [ with one more byte. */
  function Bracket(e: Editor, ch: byte): Editor {
    Press(Press(Press(e, 0x1b), 0x5b), ch)
  }

  /** The sequence ESC [ with two more bytes. */
  function Bracket2(e: Editor, ch: byte, end: byte): Editor {
    Press(Bracket(e, ch), end)
  }

  /** Nothing but line, cursor and buffer differs, and no escape sequence is under way. */
  predicate SameRecord(e: Editor, now: Editor) {
    now.state == StateNone && now.hist == e.hist && now.entered == e.entered && now.executed == e.executed
  }

  /** The same bytes, with `p` of them before the cursor. */
  predicate CursorAt(e: Editor, now: Editor, p: nat) {
    SameRecord(e, now) && Line(now) == Line(e) && |now.before| == p && now.rest == e.rest
  }

  lemma KeyDone(e: Editor, ch: byte)
    requires e.state == StateNone && ch != 0x1b
    ensures Press(e, ch) == Apply(e, KeyAction(ch)) && Press(e, ch).state == StateNone
  {
  }

  lemma EscapePressed(e: Editor)
    requires e.state == StateNone
    ensures Press(Press(e, 0x1b), 0x5b) == e.(state := StateEscBrk)
    ensures Press(Press(e, 0x1b), 0x4f) == e.(state := StatePFn)
  {
    assert Press(e, 0x1b) == e.(state := StateEsc);
  }

  lemma ApplyIgnoresState(e: Editor, a: Action, s: State)
    ensures Apply(e.(state := s), a) == Apply(e, a).(state := s)
  {
  }

  lemma ArrowDone(e: Editor, ch: byte)
    requires e.state == StateNone && Decode(StateEscBrk, ch).1 == StateNone
    ensures Bracket(e, ch) == Apply(e, Decode(StateEscBrk, ch).0) && Bracket(e, ch).state == StateNone
  {
    EscapePressed(e);
    ApplyIgnoresState(e, Decode(StateEscBrk, ch).0, StateEscBrk);
    ApplyIgnoresState(e, Decode(StateEscBrk, ch).0, StateNone);
  }

  lemma KeypadDone(e: Editor, ch: byte, end: byte)
    requires e.state == StateNone && ch in {0x31, 0x32, 0x34, 0x35, 0x36}
    ensures Bracket(e, ch) == e.(state := Decode(StateEscBrk, ch).1)
    ensures var s := Decode(StateEscBrk, ch).1;
            Bracket2(e, ch, end) == Apply(e, Decode(s, end).0) && Bracket2(e, ch, end).state == StateNone
  {
    EscapePressed(e);
    var s := Decode(StateEscBrk, ch).1;
    ApplyIgnoresState(e, Decode(s, end).0, s);
    ApplyIgnoresState(e, Decode(s, end).0, StateNone);
  }

  /** ^B and the left arrow. */
  lemma LeftKeys(e: Editor)
    requires e.state == StateNone
    ensures var p := if |e.before| > 0 then |e.before| - 1 else 0;
            CursorAt(e, Press(e, 0x02), p) && CursorAt(e, Bracket(e, 0x44), p)
  {
    KeyDone(e, 0x02);
    ArrowDone(e, 0x44);
    if e.before != [] {
      LineSplit(ButLast(e.before), Last(e.before), e.after);
    }
  }

  /** ^F and the right arrow. */
  lemma RightKeys(e: Editor)
    requires e.state == StateNone
    ensures var p := if |e.after| > 0 then |e.before| + 1 else |e.before|;
            CursorAt(e, Press(e, 0x06), p) && CursorAt(e, Bracket(e, 0x43), p)
  {
    KeyDone(e, 0x06);
    ArrowDone(e, 0x43);
    if e.after != [] {
      LineSplit(e.before, e.after[0], e.after[1..]);
    }
  }

  lemma LineSplit(a: Text, ch: byte, b: Text)
    ensures (a + [ch]) + b == a + ([ch] + b)
  {
  }

  /** ^A and Home, ESC [ 1 ~. */
  lemma StartKeys(e: Editor)
    requires e.state == StateNone
    ensures CursorAt(e, Press(e, 0x01), 0) && CursorAt(e, Bracket2(e, 0x31, 0x7e), 0)
  {
    KeyDone(e, 0x01);
    KeypadDone(e, 0x31, 0x7e);
  }

  /** ^E and End, ESC [ 4 ~; ^L prints the line again and ends there too. */
  lemma EndKeys(e: Editor)
    requires e.state == StateNone
    ensures CursorAt(e, Press(e, 0x05), |Line(e)|) && CursorAt(e, Bracket2(e, 0x34, 0x7e), |Line(e)|)
    ensures CursorAt(e, Press(e, 0x0c), |Line(e)|)
  {
    KeyDone(e, 0x05);
    KeyDone(e, 0x0c);
    KeypadDone(e, 0x34, 0x7e);
  }

  /** ^K and ^U: what goes from the line stays in the buffer. */
  lemma KillKeys(e: Editor)
    requires e.state == StateNone
    ensures var now := Press(e, 0x0b);
            SameRecord(e, now) && now.before == e.before && now.after == [] && Buffer(now) == Buffer(e)
    ensures var now := Press(e, 0x15);
            SameRecord(e, now) && Line(now) == [] && Buffer(now) == Buffer(e)
  {
    KeyDone(e, 0x0b);
    KeyDone(e, 0x15);
    assert e.before + [] + (e.after + e.rest) == e.before + e.after + e.rest;
    assert [] + [] + Buffer(e) == Buffer(e);
  }

  /** ^D and DEL take the character under the cursor, and leave a NUL behind the line. */
  lemma DeleteKeys(e: Editor)
    requires e.state == StateNone
    ensures var now := Press(e, 0x04);
            && SameRecord(e, now) && now.before == e.before && Press(e, 0x7f) == now
            && (if e.after == [] then now == e else e.after == [e.after[0]] + now.after && now.rest == [NUL] + e.rest)
  {
    KeyDone(e, 0x04);
    KeyDone(e, 0x7f);
  }

  /** ^H and ^C take the character before it. */
  lemma BackspaceKeys(e: Editor)
    requires e.state == StateNone
    ensures var now := Press(e, 0x08);
            && SameRecord(e, now) && now.after == e.after && Press(e, 0x03) == now
            && (if e.before == [] then now == e
                else e.before == now.before + [e.before[|e.before| - 1]] && now.rest == [NUL] + e.rest)
  {
    KeyDone(e, 0x08);
    KeyDone(e, 0x03);
  }

  /** ^T exchanges bytes p - 1 and p of the buffer, p being the cursor, and nothing else. */
  lemma TransposeKey(e: Editor)
    requires e.state == StateNone && e.before != [] && (e.after != [] || e.rest != [])
    ensures var now, p := Press(e, 0x14), |e.before|;
            && SameRecord(e, now) && |now.before| == p && |now.after| == |e.after|
            && Buffer(now) == Buffer(e)[p - 1 := Buffer(e)[p]][p := Buffer(e)[p - 1]]
  {
    KeyDone(e, 0x14);
    TransposedBuffer(e);
  }

  lemma TransposedBuffer(e: Editor)
    requires e.before != [] && (e.after != [] || e.rest != [])
    ensures var p := |e.before|;
            Buffer(Transposed(e)) == Buffer(e)[p - 1 := Buffer(e)[p]][p := Buffer(e)[p - 1]]
  {
    var p, b, now := |e.before|, Buffer(e), Buffer(Transposed(e));
    assert b[p - 1] == e.before[p - 1];
    assert b[p] == if e.after != [] then e.after[0] else e.rest[0];
  }

  /** A printable character goes in before the cursor, as long as the line has fewer than 79. */
  lemma CharacterKey(e: Editor, ch: byte)
    requires e.state == StateNone && 0x20 <= ch <= 0x7e && e.rest != []
    ensures var now := Press(e, ch);
            && SameRecord(e, now) && now.after == e.after
            && (if |Line(e)| < 79 then now.before == e.before + [ch] && now.rest == e.rest[1..] else now == e)
  {
    KeyDone(e, ch);
  }

  /** ^P and the up arrow: the next older entry, unless the oldest is on display already. */
  lemma UpKeys(e: Editor)
    requires e.state == StateNone && Recallable(e.hist.entries) && e.hist.index <= |e.hist.entries|
    requires |Buffer(e)| > 79
    ensures Bracket(e, 0x41) == Press(e, 0x10)
    ensures e.hist.index == |e.hist.entries| ==> Press(e, 0x10) == e
    ensures e.hist.index < |e.hist.entries| ==>
              var now, line := Press(e, 0x10), e.hist.entries[|e.hist.entries| - e.hist.index - 1];
              && now.before == line && now.after == [] && now.rest == Buffer(e)[|line|..]
              && now.hist == e.hist.(index := e.hist.index + 1)
              && now.state == StateNone && now.entered == e.entered && now.executed == e.executed
  {
    KeyDone(e, 0x10);
    ArrowDone(e, 0x41);
  }

  /** ^N and the down arrow: the next newer entry, and below the newest the empty line. */
  lemma DownKeys(e: Editor)
    requires e.state == StateNone && Recallable(e.hist.entries) && e.hist.index <= |e.hist.entries|
    requires |Buffer(e)| > 79
    ensures Bracket(e, 0x42) == Press(e, 0x0e)
    ensures var now, i := Press(e, 0x0e), if e.hist.index > 0 then e.hist.index - 1 else 0;
            var line := if i > 0 then e.hist.entries[|e.hist.entries| - i] else [];
            && now.before == line && now.after == [] && now.rest == Buffer(e)[|line|..]
            && now.hist == e.hist.(index := i)
            && now.state == StateNone && now.entered == e.entered && now.executed == e.executed
  {
    KeyDone(e, 0x0e);
    ArrowDone(e, 0x42);
  }

  /** <RET> empties line and buffer, and hands the line over; an empty line leaves the recall where it was. */
  lemma ReturnKey(e: Editor)
    requires e.state == StateNone && |Line(e)| <= 79
    ensures var now := Press(e, 0x0d);
            && now.state == StateNone && Line(now) == []
            && |now.rest| == 80 && (forall i :: 0 <= i < 80 ==> now.rest[i] == 0)
            && now.entered == e.entered + [Line(e)] && now.executed == e.executed + [CString(Line(e))]
            && now.hist == if Line(e) == [] then e.hist
                           else HR.Model(HR.Evict(e.hist.entries, |Line(e)|) + [Line(e)], 0)
  {
    KeyDone(e, 0x0d);
  }

  /** The keys of `process` outside escape sequences; every other byte does nothing. */
  lemma OtherKeys(e: Editor, ch: byte)
    requires e.state == StateNone && !(0x20 <= ch <= 0x7f)
    requires ch !in {0x01, 0x02, 0x03, 0x04, 0x05, 0x06, 0x08, 0x0b, 0x0c, 0x0d, 0x0e, 0x10, 0x14, 0x15, 0x1b}
    ensures Press(e, ch) == e
  {
    KeyDone(e, ch);
  }

  /** Escape sequences that do nothing but end: an unknown second or third byte, and a wrong or idle last one. */
  lemma OtherSequences(e: Editor, ch: byte, end: byte)
    requires e.state == StateNone
    ensures ch != 0x5b && ch != 0x4f ==> Press(Press(e, 0x1b), ch) == e
    ensures Press(Press(Press(e, 0x1b), 0x4f), ch) == e
    ensures ch !in {0x41, 0x42, 0x43, 0x44, 0x31, 0x32, 0x34, 0x35, 0x36} ==> Bracket(e, ch) == e
    ensures ch in {0x32, 0x35, 0x36} || (ch in {0x31, 0x34} && end != 0x7e) ==> Bracket2(e, ch, end) == e
  {
    EscapePressed(e);
    assert Press(e, 0x1b) == e.(state := StateEsc);
    if ch in {0x31, 0x32, 0x34, 0x35, 0x36} {
      KeypadDone(e, ch, end);
    }
  }

  /** The keys with an effect beyond the line: return, and PF1 after ESC O. */
  lemma SpecialKeys(state: State, ch: byte)
    ensures Decode(state, ch).0 == Enter <==> state == StateNone && ch == 0x0d
    ensures Decode(state, ch).0 == Dump <==> state == StatePFn && ch == 0x50
  {
  }

  /** The only byte that may reach outside the buffer is ^T, and that outside escape sequences and at the start. */
  lemma OutOfBounds(e: Editor, ch: byte)
    ensures InBounds(e, ch) <==> !(e.state == StateNone && ch == 0x14 && e.before == [])
  {
  }

  // ---------------------------------------------------------------- what every keystroke keeps

  /** Every line in the history can be recalled into the buffer. */
  predicate Recallable(es: seq<Text>) {
    forall i :: 0 <= i < |es| ==> 1 <= |es[i]| <= MAXLINE && AllPlain(es[i])
  }

  predicate Printable(es: seq<Text>) {
    forall i :: 0 <= i < |es| ==> AllPrint(es[i])
  }

  predicate Valid(e: Editor) {
    && |e.before| + |e.after| <= MAXLINE
    && |e.before| + |e.after| + |e.rest| == MAXLINE + 1
    && AllPlain(e.before) && AllPlain(e.after) && AllPlain(e.rest)
    && Recallable(e.hist.entries)
    && e.hist.index <= |e.hist.entries|
  }

  /** Nothing but printable characters on the line and in the history. */
  predicate Clean(e: Editor) {
    AllPrint(e.before) && AllPrint(e.after) && Printable(e.hist.entries)
  }

  lemma {:induction false} EvictKeeps(es: seq<Text>, size: nat)
    requires Recallable(es)
    ensures Recallable(HR.Evict(es, size))
    ensures Printable(es) ==> Printable(HR.Evict(es, size))
  {
    if es != [] {
      EvictKeeps(es[1..], size);
    }
  }

  lemma SaveKeepsRecallable(es: seq<Text>, line: Text)
    requires Recallable(es) && |line| <= MAXLINE && AllPlain(line)
    ensures Recallable(HR.SaveEntries(es, line))
    ensures Printable(es) && AllPrint(line) ==> Printable(HR.SaveEntries(es, line))
  {
    EvictKeeps(es, |line|);
  }

  lemma EnterKeepsValid(e: Editor)
    requires Valid(e)
    ensures Valid(Apply(e, Enter))
    ensures Clean(e) ==> Clean(Apply(e, Enter))
  {
    SaveKeepsRecallable(e.hist.entries, Line(e));
  }

  lemma RecalledKeepsValid(e: Editor, dir: HR.Dir)
    requires Valid(e)
    ensures Valid(Recalled(e, dir))
    ensures Clean(e) ==> Clean(Recalled(e, dir))
  {
    assert AllPlain(Buffer(e));
  }

  lemma TransposedKeepsValid(e: Editor)
    requires Valid(e)
    ensures Valid(Transposed(e))
    ensures Clean(e) && e.before != [] ==> (Clean(Transposed(e)) <==> e.after != [] || IsPrint(e.rest[0]))
  {
    var e' := Transposed(e);
    if e.before != [] && e.after == [] {
      assert e'.before[|e'.before| - 1] == e.rest[0];
    }
  }

  lemma ApplyKeepsValid(e: Editor, a: Action)
    requires Valid(e) && (a.Insert? ==> IsPrint(a.ch))
    ensures Valid(Apply(e, a))
    ensures Clean(e) && a != Transpose ==> Clean(Apply(e, a))
  {
    match a
    case Enter => EnterKeepsValid(e);
    case History(dir) => RecalledKeepsValid(e, dir);
    case Transpose => TransposedKeepsValid(e);
    case _ =>
  }

  /**
   Whatever is pressed, the line stays within 79 characters, each printable or NUL, and every stored line can be
   recalled into it. Line and history stay printable except by ^T at the end of the line when the byte behind is NUL.
   */
  lemma PressKeepsValid(e: Editor, ch: byte)
    requires Valid(e) && InBounds(e, ch)
    ensures Valid(Press(e, ch))
    ensures Clean(e) ==> (Clean(Press(e, ch)) <==> TakesPrintable(e, ch))
  {
    var a := Decode(e.state, ch).0;
    ApplyKeepsValid(e, a);
    if a == Transpose {
      TransposedKeepsValid(e);
    }
  }

  // ---------------------------------------------------------------- whole runs

  /** A command that can be put into the history at boot. */
  predicate IsBoot(boot: Text) {
    1 <= |boot| <= MAXLINE && AllPrint(boot)
  }

  /** An editor with one command in its history. */
  function Start(boot: Text): Editor {
    Editor(StateNone, [], [], Nuls(MAXLINE + 1), HR.Model([boot], 0), [], [])
  }

  function Initial(): Editor {
    Start(BOOT)
  }

  lemma BootIsPrintable()
    ensures |BOOT| == 14 && IsBoot(BOOT) && BOOT == Ascii("ds unit=2;bt 1")
  {
  }

  function NonEmpty(lines: seq<Text>): seq<Text> {
    if lines == [] then [] else
    NonEmpty(lines[..|lines| - 1]) + if lines[|lines| - 1] == [] then [] else [lines[|lines| - 1]]
  }

  lemma NonEmptySnoc(lines: seq<Text>, line: Text)
    ensures NonEmpty(lines + [line]) == if line == [] then NonEmpty(lines) else NonEmpty(lines) + [line]
  {
    assert (lines + [line])[..|lines|] == lines;
  }

  /** The history `es` is the longest run of the newest non-empty ones among the lines `all` that fits its buffer. */
  predicate Keeps(es: seq<Text>, all: seq<Text>) {
    es == HR.Newest(NonEmpty(all))
  }

  lemma SaveKeeps(es: seq<Text>, all: seq<Text>, line: Text)
    requires Keeps(es, all) && |line| <= MAXLINE
    ensures Keeps(HR.SaveEntries(es, line), all + [line])
  {
    NonEmptySnoc(all, line);
    if line != [] {
      HR.EvictThenAppend(es, line);
      HR.NewestThenAppend(NonEmpty(all), line);
    }
  }

  /** What C sees of each line. */
  predicate SeenByC(lines: seq<Text>, seen: seq<Text>) {
    |seen| == |lines| && forall i :: 0 <= i < |lines| ==> seen[i] == CString(lines[i])
  }

  predicate ShortAndPlain(lines: seq<Text>) {
    forall i :: 0 <= i < |lines| ==> |lines[i]| <= MAXLINE && AllPlain(lines[i])
  }

  /** The boot command and every line ended with <RET>; likewise every command started. */
  function Lines(boot: Text, e: Editor): seq<Text> {
    [boot] + e.entered
  }

  function Commands(boot: Text, e: Editor): seq<Text> {
    [boot] + e.executed
  }

  /** The history against the lines, and the lines against the commands. */
  predicate Agree(es: seq<Text>, lines: seq<Text>, commands: seq<Text>) {
    Keeps(es, lines) && SeenByC(lines, commands) && ShortAndPlain(lines)
  }

  /** What is true of history and commands after every run of keys. */
  predicate Agrees(boot: Text, e: Editor) {
    Agree(e.hist.entries, Lines(boot, e), Commands(boot, e))
  }

  lemma StartIsValid(boot: Text)
    requires IsBoot(boot)
    ensures Valid(Start(boot)) && Clean(Start(boot))
  {
  }

  lemma InitialIsValid()
    ensures Valid(Initial()) && Clean(Initial())
    ensures Initial() == Editor(StateNone, [], [], Nuls(80), HR.Model([BOOT], 0), [], [])
  {
    BootIsPrintable();
    StartIsValid(BOOT);
  }

  lemma FirstLine(boot: Text)
    requires IsBoot(boot)
    ensures Agree([boot], [boot], [boot])
  {
    NonEmptySnoc([], boot);
    HR.EncodeSnoc([], boot);
    assert [] + [boot] == [boot];
    CStringIsWhole(boot);
  }

  lemma StartAgrees(boot: Text)
    requires IsBoot(boot)
    ensures Agrees(boot, Start(boot))
  {
    FirstLine(boot);
    assert [boot] + [] == [boot];
  }

  lemma LineAgrees(es: seq<Text>, lines: seq<Text>, commands: seq<Text>, line: Text)
    requires Agree(es, lines, commands) && |line| <= MAXLINE && AllPlain(line)
    ensures Agree(HR.SaveEntries(es, line), lines + [line], commands + [CString(line)])
  {
    SaveKeeps(es, lines, line);
    SeenOneMore(lines, commands, line);
    PlainOneMore(lines, line);
  }

  lemma SeenOneMore(lines: seq<Text>, seen: seq<Text>, line: Text)
    requires SeenByC(lines, seen)
    ensures SeenByC(lines + [line], seen + [CString(line)])
  {
  }

  lemma PlainOneMore(lines: seq<Text>, line: Text)
    requires ShortAndPlain(lines) && |line| <= MAXLINE && AllPlain(line)
    ensures ShortAndPlain(lines + [line])
  {
  }

  lemma EnterKeepsAgreement(boot: Text, e: Editor)
    requires Valid(e) && Agrees(boot, e)
    ensures Agrees(boot, Apply(e, Enter))
  {
    var line := Line(e);
    assert AllPlain(line) && |line| <= MAXLINE;
    LineAgrees(e.hist.entries, Lines(boot, e), Commands(boot, e), line);
    FirstAndLast(boot, e.entered, line);
    FirstAndLast(boot, e.executed, CString(line));
  }

  lemma FirstAndLast<T>(first: T, middle: seq<T>, last: T)
    ensures [first] + middle + [last] == [first] + (middle + [last])
  {
  }

  lemma OnlyEnterExecutes(e: Editor, a: Action)
    requires a != Enter
    ensures var e' := Apply(e, a);
            e'.entered == e.entered && e'.executed == e.executed && e'.hist.entries == e.hist.entries
  {
  }

  lemma PressKeepsAgreement(boot: Text, e: Editor, ch: byte)
    requires Valid(e) && Agrees(boot, e)
    ensures Agrees(boot, Press(e, ch))
  {
    var a := Decode(e.state, ch).0;
    if a == Enter {
      EnterKeepsAgreement(boot, e);
    } else {
      OnlyEnterExecutes(e, a);
    }
  }

  lemma {:induction false} RunKeepsValid(e: Editor, keys: seq<byte>)
    requires Valid(e) && AllInBounds(e, keys)
    ensures Valid(PressAll(e, keys))
  {
    if keys != [] {
      RunKeepsValid(e, ButLast(keys));
      PressKeepsValid(PressAll(e, ButLast(keys)), Last(keys));
    }
  }

  lemma {:induction false} RunKeepsAgreement(boot: Text, e: Editor, keys: seq<byte>)
    requires Valid(e) && Agrees(boot, e) && AllInBounds(e, keys)
    ensures Agrees(boot, PressAll(e, keys))
  {
    if keys != [] {
      RunKeepsValid(e, ButLast(keys));
      RunKeepsAgreement(boot, e, ButLast(keys));
      PressKeepsAgreement(boot, PressAll(e, ButLast(keys)), Last(keys));
    }
  }

  /**
   Over every run of keystrokes that stays inside the buffer, the history is exactly the longest run of newest
   non-empty lines that fits its own buffer, and each command executed is its line up to the first NUL.
   */
  lemma HistoryMatchesLines(boot: Text, keys: seq<byte>, e: Editor)
    requires IsBoot(boot) && AllInBounds(Start(boot), keys) && e == PressAll(Start(boot), keys)
    ensures Valid(e) && Keeps(e.hist.entries, Lines(boot, e))
    ensures SeenByC(Lines(boot, e), Commands(boot, e)) && ShortAndPlain(Lines(boot, e))
  {
    StartIsValid(boot);
    StartAgrees(boot);
    RunKeepsValid(Start(boot), keys);
    RunKeepsAgreement(boot, Start(boot), keys);
  }

  lemma PrintableAreWhole(lines: seq<Text>, seen: seq<Text>)
    requires SeenByC(lines, seen) && ShortAndPlain(lines)
    ensures seen == lines <==> Printable(lines)
  {
    forall i | 0 <= i < |lines| ensures seen[i] == lines[i] <==> AllPrint(lines[i]) {
      CStringIsWhole(lines[i]);
    }
  }

  /** The commands executed are the lines entered, and hence what the history holds, exactly when all were printable. */
  lemma HistoryMatchesCommands(boot: Text, keys: seq<byte>, e: Editor)
    requires IsBoot(boot) && AllInBounds(Start(boot), keys) && e == PressAll(Start(boot), keys)
    ensures Commands(boot, e) == Lines(boot, e) <==> Printable(Lines(boot, e))
    ensures Printable(Lines(boot, e)) ==> Keeps(e.hist.entries, Commands(boot, e))
  {
    HistoryMatchesLines(boot, keys, e);
    PrintableAreWhole(Lines(boot, e), Commands(boot, e));
  }

  /** Line and history are printable after each of the keys. */
  predicate AlwaysClean(e: Editor, keys: seq<byte>) {
    Clean(PressAll(e, keys)) && (keys != [] ==> AlwaysClean(e, keys[..|keys| - 1]))
  }

  /** They are so throughout a run exactly when no ^T in it takes in a NUL. */
  lemma {:induction false} CleanRuns(e: Editor, keys: seq<byte>)
    requires Valid(e) && Clean(e) && AllInBounds(e, keys)
    ensures AlwaysClean(e, keys) <==> AllTakePrintable(e, keys)
  {
    if keys != [] {
      CleanRuns(e, ButLast(keys));
      RunKeepsValid(e, ButLast(keys));
      PressKeepsValid(PressAll(e, ButLast(keys)), Last(keys));
    }
  }

  /** Then so are all lines entered, and so history and commands agree. */
  lemma {:induction false} CleanRunsAgree(boot: Text, e: Editor, keys: seq<byte>)
    requires Valid(e) && Clean(e) && AllInBounds(e, keys) && AllTakePrintable(e, keys)
    requires Printable(Lines(boot, e))
    ensures Printable(Lines(boot, PressAll(e, keys)))
  {
    if keys != [] {
      CleanRuns(e, ButLast(keys));
      CleanRunsAgree(boot, e, ButLast(keys));
      LinesStayPrintable(boot, PressAll(e, ButLast(keys)), Last(keys));
    }
  }

  lemma LinesStayPrintable(boot: Text, e: Editor, ch: byte)
    requires Clean(e) && Printable(Lines(boot, e))
    ensures Printable(Lines(boot, Press(e, ch)))
  {
    var a := Decode(e.state, ch).0;
    if a == Enter {
      assert Lines(boot, Press(e, ch)) == Lines(boot, e) + [Line(e)];
    } else {
      OnlyEnterExecutes(e, a);
    }
  }

  lemma {:induction false} NonEmptyKeepsShort(lines: seq<Text>)
    requires ShortAndPlain(lines)
    ensures ShortAndPlain(NonEmpty(lines))
  {
    if lines != [] {
      NonEmptyKeepsShort(ButLast(lines));
    }
  }

  /** The newest entry is the last non-empty line. */
  lemma NewestIsLast(es: seq<Text>, all: seq<Text>)
    requires Keeps(es, all) && ShortAndPlain(all) && NonEmpty(all) != []
    ensures es != [] && Last(es) == Last(NonEmpty(all))
  {
    NonEmptyKeepsShort(all);
    var lines := NonEmpty(all);
    assert lines == ButLast(lines) + [Last(lines)];
    HR.NewestKeepsLast(ButLast(lines), Last(lines));
  }

  /** If the last non-empty line holds no NUL, it is also the last non-empty string that C sees. */
  lemma {:induction false} LastSeenWhole(lines: seq<Text>, seen: seq<Text>)
    requires SeenByC(lines, seen) && ShortAndPlain(lines)
    requires NonEmpty(lines) != [] && AllPrint(Last(NonEmpty(lines)))
    ensures NonEmpty(seen) != [] && Last(NonEmpty(seen)) == Last(NonEmpty(lines))
  {
    CStringIsWhole(Last(lines));
    if Last(lines) == [] {
      LastSeenWhole(ButLast(lines), ButLast(seen));
    }
  }

  lemma {:induction false} SeenHaveNoNul(lines: seq<Text>, seen: seq<Text>)
    requires SeenByC(lines, seen)
    ensures forall i :: 0 <= i < |NonEmpty(seen)| ==> NUL !in NonEmpty(seen)[i]
  {
    if seen != [] {
      SeenHaveNoNul(ButLast(lines), ButLast(seen));
    }
  }

  lemma {:induction false} FirstStays(first: Text, lines: seq<Text>)
    requires first != []
    ensures NonEmpty([first] + lines) != []
  {
    if lines != [] {
      assert [first] + lines == ([first] + ButLast(lines)) + [Last(lines)];
      NonEmptySnoc([first] + ButLast(lines), Last(lines));
      FirstStays(first, ButLast(lines));
    } else {
      assert [first] + lines == [] + [first];
      NonEmptySnoc([], first);
    }
  }

  lemma NewestAgainstCommands(es: seq<Text>, lines: seq<Text>, commands: seq<Text>)
    requires Keeps(es, lines) && SeenByC(lines, commands) && ShortAndPlain(lines)
    requires NonEmpty(lines) != [] && NonEmpty(commands) != []
    ensures es != [] && Last(es) == Last(NonEmpty(lines))
    ensures Last(es) == Last(NonEmpty(commands)) <==> AllPrint(Last(es))
  {
    NewestIsLast(es, lines);
    NonEmptyKeepsShort(lines);
    assert AllPlain(Last(es));
    if AllPrint(Last(es)) {
      LastSeenWhole(lines, commands);
    } else {
      SeenHaveNoNul(lines, commands);
    }
  }

  /**
   Over every run of keystrokes inside the buffer, the newest history entry is the last non-empty line; it is also the
   last non-empty command exactly when it is printable.
   */
  lemma NewestEntryIsLastCommand(boot: Text, keys: seq<byte>, e: Editor)
    requires IsBoot(boot) && AllInBounds(Start(boot), keys) && e == PressAll(Start(boot), keys)
    ensures NonEmpty(Lines(boot, e)) != [] && NonEmpty(Commands(boot, e)) != []
    ensures e.hist.entries != [] && Last(e.hist.entries) == Last(NonEmpty(Lines(boot, e)))
    ensures Last(e.hist.entries) == Last(NonEmpty(Commands(boot, e))) <==> AllPrint(Last(e.hist.entries))
  {
    HistoryMatchesLines(boot, keys, e);
    FirstStays(boot, e.entered);
    FirstStays(boot, e.executed);
    NewestAgainstCommands(e.hist.entries, Lines(boot, e), Commands(boot, e));
  }

  /** <RET> on a non-empty line: it becomes the newest entry, and is the command executed exactly when printable. */
  lemma EnteredLineIsNewest(e: Editor)
    requires Valid(e) && Line(e) != []
    ensures var e' := Apply(e, Enter);
            && e'.hist.entries != [] && Last(e'.hist.entries) == Line(e)
            && (Last(e'.executed) == Last(e'.hist.entries) <==> AllPrint(Line(e)))
  {
    CStringIsWhole(Line(e));
  }

  lemma StoredBehind(first: Text, line: Text)
    requires 1 <= |first| && 1 <= |line| && |first| + |line| <= MAXLINE
    ensures HR.SaveEntries([first], line) == [first, line]
  {
    HR.EncodeSnoc([], first);
    assert [] + [first] == [first];
  }

  lemma PressedTwice(e: Editor, a: byte, b: byte)
    ensures PressAll(e, [a, b]) == Press(Press(e, a), b)
    ensures AllInBounds(e, [a, b]) <==> InBounds(e, a) && InBounds(Press(e, a), b)
  {
    assert [a][..0] == [] && [a, b][..1] == [a];
    assert PressAll(e, []) == e && PressAll(e, [a]) == Press(e, a);
    assert AllInBounds(e, [a]) == InBounds(e, a);
  }

  /** `A` and ^T on an empty line: the byte behind the line takes its place. */
  lemma TransposeAfterOneCharacter(e: Editor)
    requires e.state == StateNone && Line(e) == [] && |e.rest| == MAXLINE + 1
    ensures AllInBounds(e, [0x41, 0x14])
    ensures PressAll(e, [0x41, 0x14]) == e.(before := [e.rest[1]], rest := [0x41] + e.rest[2..])
  {
    PressedTwice(e, 0x41, 0x14);
    CharacterTyped(e, 0x41);
    TransposePressed(e.(before := [0x41], rest := e.rest[1..]), 0x41);
    assert e.before == [] && e.after == [] && [] + [0x41] == [0x41];
    assert e.rest[1..][1..] == e.rest[2..];
  }

  lemma TransposePressed(e: Editor, ch: byte)
    requires e.state == StateNone && e.before == [ch] && e.after == [] && e.rest != []
    ensures InBounds(e, 0x14)
    ensures Press(e, 0x14) == e.(before := [e.rest[0]], rest := [ch] + e.rest[1..])
  {
    assert Press(e, 0x14) == Transposed(e);
    assert ButLast([ch]) == [];
  }

  lemma NulEntered(e: Editor, boot: Text)
    requires e.state == StateNone && Line(e) == [NUL] && e.hist.entries == [boot] && 1 <= |boot| < MAXLINE
    ensures Press(e, 0x0d).hist.entries == [boot, [NUL]] && Press(e, 0x0d).executed == e.executed + [[]]
  {
    EnterPressed(e);
    StoredBehind(boot, [NUL]);
  }

  /** At a fresh prompt that byte is NUL: <RET> stores the NUL as a line, while the command executed is empty. */
  lemma NulIsStored(boot: Text)
    requires IsBoot(boot) && |boot| < MAXLINE
    ensures AllInBounds(Start(boot), [0x41, 0x14, 0x0d])
    ensures Line(PressAll(Start(boot), [0x41, 0x14])) == [NUL]
    ensures var e := PressAll(Start(boot), [0x41, 0x14, 0x0d]);
            e.hist.entries == [boot, [NUL]] && e.executed == [[]]
  {
    var e0 := Start(boot);
    TransposeAfterOneCharacter(e0);
    assert [0x41, 0x14, 0x0d][..2] == [0x41, 0x14];
    var e := PressAll(e0, [0x41, 0x14]);
    assert PressAll(e0, [0x41, 0x14, 0x0d]) == Press(e, 0x0d);
    NulEntered(e, boot);
  }

  /** ^T at a fresh prompt, and after `A` and ^A: with nothing before the cursor it is out of bounds. */
  lemma TransposeOutOfBounds(e: Editor)
    requires e.state == StateNone && Line(e) == [] && e.rest != []
    ensures !AllInBounds(e, [0x14])
    ensures AllInBounds(e, [0x41, 0x01]) && !InBounds(PressAll(e, [0x41, 0x01]), 0x14)
  {
    assert [0x14][..0] == [] && PressAll(e, []) == e;
    assert !InBounds(e, 0x14);
    PressedTwice(e, 0x41, 0x01);
    CharacterTyped(e, 0x41);
    StartPressed(Press(e, 0x41));
  }

  lemma StartPressed(e: Editor)
    requires e.state == StateNone
    ensures InBounds(e, 0x01) && !InBounds(Press(e, 0x01), 0x14)
  {
  }

  lemma CharacterTyped(e: Editor, ch: byte)
    requires e.state == StateNone && IsPrint(ch) && |e.before| + |e.after| < MAXLINE && e.rest != []
    ensures Press(e, ch) == e.(before := e.before + [ch], rest := e.rest[1..])
  {
  }

  lemma {:induction false} TypingInserts(e: Editor, s: Text)
    requires e.state == StateNone && AllPrint(s)
    requires |e.before| + |e.after| + |s| <= MAXLINE && |s| <= |e.rest|
    ensures PressAll(e, s) == e.(before := e.before + s, rest := e.rest[|s|..])
  {
    if s == [] {
      assert e.before + s == e.before;
    } else {
      var mid := e.(before := e.before + ButLast(s), rest := e.rest[|s| - 1..]);
      TypingInserts(e, ButLast(s));
      CharacterTyped(mid, Last(s));
      OneMoreTyped(e.before, e.rest, s);
    }
  }

  lemma OneMoreTyped(before: Text, rest: Text, s: Text)
    requires s != [] && |s| <= |rest|
    ensures before + ButLast(s) + [Last(s)] == before + s
    ensures rest[|s| - 1..][1..] == rest[|s|..]
  {
  }

  lemma EnterPressed(e: Editor)
    requires e.state == StateNone
    ensures Press(e, 0x0d) == Apply(e, Enter)
  {
  }

  lemma PrintableEntered(e: Editor, s: Text)
    requires e.state == StateNone && Line(e) == s && AllPrint(s)
    ensures Press(e, 0x0d).executed == e.executed + [s] && Line(Press(e, 0x0d)) == []
  {
    EnterPressed(e);
    CStringIsWhole(s);
  }

  /** A line of up to 79 printable characters typed at an empty prompt and ended with <RET> is executed as typed. */
  lemma TypedLineIsExecuted(e: Editor, s: Text)
    requires Valid(e) && e.state == StateNone && Line(e) == [] && AllPrint(s) && |s| <= MAXLINE
    ensures var e' := Press(PressAll(e, s), 0x0d);
            e'.executed == e.executed + [s] && Line(e') == []
  {
    TypingInserts(e, s);
    assert e.before == [] && e.after == [] && [] + s == s + [] == s;
    PrintableEntered(PressAll(e, s), s);
  }

  lemma UpPressed(e: Editor)
    requires e.state == StateNone && e.hist.index == 0 && e.hist.entries != []
    requires |Last(e.hist.entries)| <= |Buffer(e)|
    ensures Press(e, 0x10).before == Last(e.hist.entries) && Press(e, 0x10).after == []
  {
    assert Press(e, 0x10) == Recalled(e, HR.Up);
  }

  /** <RET>, then up: the line just ended is back with the cursor at its end. */
  lemma UpRecallsLastCommand(e: Editor)
    requires Valid(e) && e.state == StateNone && Line(e) != []
    ensures var e' := Press(Press(e, 0x0d), 0x10);
            e'.before == Line(e) && e'.after == []
  {
    EnterPressed(e);
    EnteredLineIsNewest(e);
    UpPressed(Apply(e, Enter));
  }

  /** The arrow keys do exactly what ^P, ^N, ^F and ^B do. */
  lemma ArrowIsControlKey(e: Editor, arrow: byte, key: byte)
    requires e.state == StateNone
    requires (arrow, key) in {(0x41, 0x10), (0x42, 0x0e), (0x43, 0x06), (0x44, 0x02)}
    ensures Press(Press(Press(e, 0x1b), 0x5b), arrow) == Press(e, key)
  {
    EscapePressed(e);
    var a := Decode(StateNone, key).0;
    assert Decode(StateEscBrk, arrow) == (a, StateNone) && Decode(StateNone, key) == (a, StateNone);
    ApplyIgnoresState(e, a, StateEscBrk);
  }

  /** Backspace takes back a typed character exactly when the line had room for it. */
  lemma BackspaceUndoesInsert(e: Editor, ch: byte)
    requires Valid(e) && e.state == StateNone && IsPrint(ch)
    ensures var e' := Press(Press(e, ch), 0x08);
            e'.before == e.before && e'.after == e.after <==> |Line(e)| < MAXLINE || e.before == []
  {
    if |Line(e)| < MAXLINE {
      CharacterTyped(e, ch);
      assert ButLast(e.before + [ch]) == e.before;
    } else {
      assert Press(e, ch) == e;
    }
  }

  /** Transposing twice at the same place restores line and buffer, at the end of the line too. */
  lemma TransposeTwice(e: Editor)
    requires e.before != [] && (e.after != [] || e.rest != [])
    ensures Apply(Apply(e, Transpose), Transpose) == e
  {
    var n := |e.before|;
    var e' := Apply(e, Transpose);
    assert ButLast(e'.before) == ButLast(e.before);
    assert ButLast(e.before) + [e.before[n - 1]] == e.before;
    if e.after != [] {
      assert e'.after[1..] == e.after[1..];
      assert [e.after[0]] + e.after[1..] == e.after;
    } else {
      assert e'.rest[1..] == e.rest[1..];
      assert [e.rest[0]] + e.rest[1..] == e.rest;
    }
  }
}
