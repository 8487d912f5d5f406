/** The command task's in-place tokenizer: commands separated by `;`, arguments separated by spaces. */
module Tokenizer {
  import opened Bytes

  const SEMICOLON: byte := 0x3b
  const MAXARG: nat := 16

  // ---------------------------------------------------------------- splitting, stated on text

  /** Length of the longest prefix free of `sep`. */
  function Span(s: Text, sep: byte): (n: nat)
    ensures n <= |s| && (n < |s| ==> s[n] == sep)
    ensures forall j :: 0 <= j < n ==> s[j] != sep
  {
    if s == [] || s[0] == sep then 0 else 1 + Span(s[1..], sep)
  }

  lemma {:induction false} SpanIs(s: Text, sep: byte, n: nat)
    requires n <= |s| && (n < |s| ==> s[n] == sep)
    requires forall j :: 0 <= j < n ==> s[j] != sep
    ensures Span(s, sep) == n
  {
    if n > 0 {
      SpanIs(s[1..], sep, n - 1);
    }
  }

  /** The pieces between semicolons; a line always has at least one. */
  function Commands(line: Text): (r: seq<Text>)
    ensures r != []
    decreases |line|
  {
    var n := Span(line, SEMICOLON);
    if n == |line| then [line] else [line[..n]] + Commands(line[n + 1..])
  }

  /** The non-empty pieces between spaces. */
  function Words(s: Text): seq<Text>
    decreases |s|
  {
    if s == [] then []
    else if s[0] == SPACE then Words(s[1..])
    else [s[..Span(s, SPACE)]] + Words(s[Span(s, SPACE)..])
  }

  function Limit<T>(s: seq<T>): seq<T> {
    if |s| <= MAXARG then s else s[..MAXARG]
  }

  /** The argument lists of the commands that are executed: blank commands are passed over. */
  function Executed(commands: seq<Text>): seq<seq<Text>> {
    if commands == [] then [] else Batch(Limit(Words(commands[0]))) + Executed(commands[1..])
  }

  function Batch(args: seq<Text>): seq<seq<Text>> {
    if args == [] then [] else [args]
  }

  function Joined(parts: seq<Text>, sep: byte): Text
    requires parts != []
  {
    if |parts| == 1 then parts[0] else parts[0] + [sep] + Joined(parts[1..], sep)
  }

  predicate Without(s: Text, sep: byte) {
    forall j :: 0 <= j < |s| ==> s[j] != sep
  }

  /** Splitting at semicolons undoes joining with them, and the other way round. */
  lemma {:induction false} CommandsOfJoined(parts: seq<Text>)
    requires parts != [] && forall i :: 0 <= i < |parts| ==> Without(parts[i], SEMICOLON)
    ensures Commands(Joined(parts, SEMICOLON)) == parts
    decreases |parts|
  {
    var s, first, n := Joined(parts, SEMICOLON), parts[0], |parts[0]|;
    if |parts| > 1 {
      CommandsCons(s, first, Joined(parts[1..], SEMICOLON));
      CommandsOfJoined(parts[1..]);
      assert parts == [first] + parts[1..];
    } else {
      SpanIs(s, SEMICOLON, n);
      assert parts == [first];
    }
  }

  lemma CommandsCons(s: Text, first: Text, later: Text)
    requires Without(first, SEMICOLON) && s == first + [SEMICOLON] + later
    ensures Commands(s) == [first] + Commands(later)
  {
    SpanIs(s, SEMICOLON, |first|);
    assert s[..|first|] == first && s[|first| + 1..] == later;
  }

  lemma {:induction false} JoinedCommands(line: Text)
    ensures Joined(Commands(line), SEMICOLON) == line
    decreases |line|
  {
    var n := Span(line, SEMICOLON);
    if n < |line| {
      var later := Commands(line[n + 1..]);
      JoinedCommands(line[n + 1..]);
      JoinedCons(line[..n], later);
      CutAt(line, n);
    }
  }

  lemma CutAt(line: Text, n: nat)
    requires n < |line|
    ensures line[..n] + [line[n]] + line[n + 1..] == line
  {
  }

  lemma JoinedCons(first: Text, later: seq<Text>)
    requires later != []
    ensures Joined([first] + later, SEMICOLON) == first + [SEMICOLON] + Joined(later, SEMICOLON)
  {
    assert ([first] + later)[1..] == later;
  }

  lemma {:induction false} CommandsAreSeparated(line: Text)
    ensures forall i :: 0 <= i < |Commands(line)| ==> Without(Commands(line)[i], SEMICOLON)
    decreases |line|
  {
    var n := Span(line, SEMICOLON);
    if n < |line| {
      CommandsAreSeparated(line[n + 1..]);
    }
  }

  lemma Separators()
    ensures SEMICOLON == ';' as int && SPACE == ' ' as int && MAXARG == 16
  {
  }

  /** A text without spaces is one word, and none when it is empty. */
  lemma OneWord(s: Text)
    requires forall j :: 0 <= j < |s| ==> s[j] != ' ' as int
    ensures Words(s) == if s == [] then [] else [s]
  {
    if s != [] {
      SpanIs(s, SPACE, |s|);
      assert s[|s|..] == [] && s[..|s|] == s;
    }
  }

  /** What is executed for several commands is what is executed for each, in order. */
  lemma {:induction false} ExecutedAppend(a: seq<Text>, b: seq<Text>)
    ensures Executed(a + b) == Executed(a) + Executed(b)
  {
    if a == [] {
      assert a + b == b;
    } else {
      assert (a + b)[1..] == a[1..] + b;
      ExecutedAppend(a[1..], b);
    }
  }

  /** For one: nothing when it is blank, and otherwise its first sixteen words. */
  lemma ExecutedOne(s: Text)
    ensures Words(s) == [] ==> Executed([s]) == []
    ensures Words(s) != [] ==> Executed([s]) == [Words(s)[..if |Words(s)| < 16 then |Words(s)| else 16]]
  {
    assert [s][1..] == [];
    assert Words(s)[..|Words(s)|] == Words(s);
  }

  lemma SpanInFront(a: Text, b: Text)
    requires a != [] && a[0] != SPACE
    ensures var n := Span(a, SPACE);
            && 0 < n && Span(a + [SPACE] + b, SPACE) == n
            && (a + [SPACE] + b)[..n] == a[..n] && (a + [SPACE] + b)[n..] == a[n..] + [SPACE] + b
  {
    var n, s := Span(a, SPACE), a + [SPACE] + b;
    SpanIs(s, SPACE, n);
  }

  /** A space, wherever it stands and however many there are, does nothing but separate. */
  lemma {:induction false} WordsApart(a: Text, b: Text)
    ensures Words(a + [SPACE] + b) == Words(a) + Words(b)
    decreases |a|
  {
    var s := a + [SPACE] + b;
    if a == [] {
      assert s[1..] == b;
    } else if a[0] == SPACE {
      assert s[1..] == a[1..] + [SPACE] + b;
      WordsApart(a[1..], b);
    } else {
      SpanInFront(a, b);
      WordsApart(a[Span(a, SPACE)..], b);
    }
  }

  /** Words separated by single spaces are found again, with an extra space in front too. */
  lemma {:induction false} WordsOfJoined(words: seq<Text>)
    requires words != [] && forall i :: 0 <= i < |words| ==> words[i] != [] && Without(words[i], SPACE)
    ensures Words(Joined(words, SPACE)) == words
    ensures Words([SPACE] + Joined(words, SPACE)) == words
    decreases |words|
  {
    var s, n := Joined(words, SPACE), |words[0]|;
    assert s[..n] == words[0];
    assert s[0] == words[0][0];
    SpanIs(s, SPACE, n);
    if |words| > 1 {
      assert s[n..] == [SPACE] + Joined(words[1..], SPACE);
      WordsOfJoined(words[1..]);
    } else {
      assert s[n..] == [];
    }
    assert ([SPACE] + s)[1..] == s;
  }

  // ---------------------------------------------------------------- pointers into the buffer

  /** Where the words of `s` start, `s` standing at offset `at`. */
  function Starts(s: Text, at: nat): seq<nat>
    decreases |s|
  {
    if s == [] then []
    else if s[0] == SPACE then Starts(s[1..], at + 1)
    else [at] + Starts(s[Span(s, SPACE)..], at + Span(s, SPACE))
  }

  /** The strings that a command sees through its argument pointers. */
  function Strings(b: seq<byte>, argv: seq<nat>): seq<Text>
    requires forall i :: 0 <= i < |argv| ==> argv[i] < |b|
  {
    if argv == [] then [] else [CString(b[argv[0]..])] + Strings(b, argv[1..])
  }

  lemma {:induction false} StringsTake(b: seq<byte>, argv: seq<nat>, n: nat)
    requires forall i :: 0 <= i < |argv| ==> argv[i] < |b|
    requires n <= |argv|
    ensures |Strings(b, argv)| == |argv|
    ensures Strings(b, argv[..n]) == Strings(b, argv)[..n]
  {
    if argv != [] {
      StringsTake(b, argv[1..], if n == 0 then 0 else n - 1);
      if n > 0 {
        assert argv[..n][1..] == argv[1..][..n - 1];
      }
    }
  }

  /** `b` holds `s` at `at` with its spaces, and the byte after it, replaced by NUL. */
  ghost predicate Cut(b: seq<byte>, s: Text, at: nat) {
    && at + |s| < |b|
    && (forall j :: 0 <= j < |s| ==> s[j] != NUL)
    && b[at + |s|] == NUL
    && forall j :: 0 <= j < |s| ==> b[at + j] == if s[j] == SPACE then NUL else s[j]
  }

  lemma CutTail(b: seq<byte>, s: Text, at: nat, n: nat)
    requires Cut(b, s, at) && n <= |s|
    ensures Cut(b, s[n..], at + n)
  {
    forall j | 0 <= j < |s| - n
      ensures b[at + n + j] == if s[n..][j] == SPACE then NUL else s[n..][j]
    {
      assert b[at + (n + j)] == if s[n + j] == SPACE then NUL else s[n + j];
    }
  }

  lemma {:induction false} StartsAreWords(b: seq<byte>, s: Text, at: nat)
    requires Cut(b, s, at)
    ensures forall i :: 0 <= i < |Starts(s, at)| ==> Starts(s, at)[i] < |b|
    ensures Strings(b, Starts(s, at)) == Words(s)
    decreases |s|
  {
    if s != [] {
      if s[0] == SPACE {
        CutTail(b, s, at, 1);
        StartsAreWords(b, s[1..], at + 1);
      } else {
        var n := Span(s, SPACE);
        CutTail(b, s, at, n);
        StartsAreWords(b, s[n..], at + n);
        FirstWord(b, s, at, n);
        assert Starts(s, at)[1..] == Starts(s[n..], at + n);
      }
    }
  }

  lemma FirstWord(b: seq<byte>, s: Text, at: nat, n: nat)
    requires Cut(b, s, at) && n == Span(s, SPACE)
    ensures CString(b[at..]) == s[..n]
  {
    var tail := b[at..];
    forall j | 0 <= j < n ensures tail[..n][j] == s[j] && s[j] != NUL {
      assert s[j] == s[..n][j];
    }
    assert tail[..n] == s[..n];
    CStringIs(tail, n);
  }

  // ---------------------------------------------------------------- the loops

  /** The text up to the next semicolon or NUL. */
  function Piece(b: seq<byte>): Text {
    CString(b)[..Span(CString(b), SEMICOLON)]
  }

  predicate NoStops(s: Text) {
    forall j :: 0 <= j < |s| ==> s[j] != NUL && s[j] != SEMICOLON
  }

  lemma PieceBounds(b: seq<byte>, n: nat)
    requires NUL in b && n == |Piece(b)|
    ensures n < |b| && Piece(b) == b[..n]
    ensures NoStops(b[..n]) && (b[n] == NUL || b[n] == SEMICOLON)
  {
    var c := CString(b);
    assert |c| == |b| ==> c == b;
    assert c[..n] == b[..n];
    if n < |c| {
      assert c[n] == b[n];
    }
  }

  /** The words still to be found from `p` on, given whether the next non-space starts one. */
  function Pending(rest: Text, p: nat, process: bool): seq<nat> {
    if process then Starts(rest, p) else Starts(rest[Span(rest, SPACE)..], p + Span(rest, SPACE))
  }

  /** At `p`, `argv` holds the words found so far, up to sixteen. */
  ghost predicate Scanned(s: Text, start: nat, p: nat, argv: seq<nat>, process: bool) {
    && start <= p <= start + |s|
    && |argv| <= MAXARG
    && (if |argv| == MAXARG then argv <= Starts(s, start)
        else Starts(s, start) == argv + Pending(s[p - start..], p, process))
  }

  lemma PendingStep(rest: Text, p: nat, process: bool)
    requires rest != []
    ensures rest[0] == SPACE ==> Pending(rest, p, process) == Pending(rest[1..], p + 1, true)
    ensures rest[0] != SPACE && process ==> Pending(rest, p, process) == [p] + Pending(rest[1..], p + 1, false)
    ensures rest[0] != SPACE && !process ==> Pending(rest, p, process) == Pending(rest[1..], p + 1, false)
  {
    if rest[0] == SPACE {
      assert rest[0..] == rest;
    } else {
      var n := Span(rest[1..], SPACE);
      assert rest[1..][n..] == rest[n + 1..];
    }
  }

  lemma ScanStep(s: Text, start: nat, p: nat, argv: seq<nat>, process: bool)
    requires Scanned(s, start, p, argv, process) && p < start + |s|
    ensures s[p - start] == SPACE ==> Scanned(s, start, p + 1, argv, true)
    ensures s[p - start] != SPACE && process && |argv| < MAXARG ==> Scanned(s, start, p + 1, argv + [p], false)
    ensures s[p - start] != SPACE && !(process && |argv| < MAXARG) ==> Scanned(s, start, p + 1, argv, process)
  {
    var rest := s[p - start..];
    assert rest[1..] == s[p + 1 - start..];
    PendingStep(rest, p, process);
    if s[p - start] != SPACE && process && |argv| < MAXARG {
      var later := Pending(rest[1..], p + 1, false);
      assert argv + ([p] + later) == argv + [p] + later;
    }
  }

  lemma ScanDone(s: Text, start: nat, argv: seq<nat>, process: bool)
    requires Scanned(s, start, start + |s|, argv, process)
    ensures argv == Limit(Starts(s, start))
  {
  }

  /** At `start` stands `s`, up to the first semicolon or NUL. */
  ghost predicate PieceAt(b: seq<byte>, start: nat, s: Text) {
    && start + |s| < |b| && b[start..start + |s|] == s && NoStops(s)
    && (b[start + |s|] == NUL || b[start + |s|] == SEMICOLON)
  }

  /** The buffer with the spaces from `start` to `p` replaced by NUL. */
  function Blanked(b: seq<byte>, start: nat, p: nat): (r: seq<byte>)
    ensures |r| == |b|
  {
    seq(|b|, j requires 0 <= j < |b| => if start <= j < p && b[j] == SPACE then NUL else b[j])
  }

  lemma BlankedStep(b: seq<byte>, start: nat, p: nat)
    requires start <= p < |b|
    ensures Blanked(b, start, p)[p] == b[p]
    ensures Blanked(b, start, p + 1) == if b[p] == SPACE then Blanked(b, start, p)[p := NUL] else Blanked(b, start, p)
  {
  }

  lemma SliceAt(b: seq<byte>, start: nat, s: Text)
    requires start + |s| <= |b| && b[start..start + |s|] == s
    ensures forall i :: start <= i < start + |s| ==> b[i] == s[i - start]
  {
    forall i | start <= i < start + |s| ensures b[i] == s[i - start] {
      assert b[start..start + |s|][i - start] == b[i];
    }
  }

  lemma BlankedLeavesRest(b: seq<byte>, start: nat, n: nat)
    requires start + n < |b|
    ensures Blanked(b, start, start + n)[start + n := NUL][start + n + 1..] == b[start..][n + 1..]
  {
  }

  /** With its terminator made a NUL as well, the blanked piece is cut into C strings. */
  lemma BlankedIsCut(b: seq<byte>, start: nat, s: Text)
    requires PieceAt(b, start, s)
    ensures Cut(Blanked(b, start, start + |s|)[start + |s| := NUL], s, start)
  {
    SliceAt(b, start, s);
  }

  /** The loop of `FormArguments` at `p`. */
  ghost predicate AtByte(now: seq<byte>, was: seq<byte>, start: nat, s: Text, p: nat, argv: seq<nat>, process: bool) {
    && PieceAt(was, start, s)
    && now == Blanked(was, start, p)
    && Scanned(s, start, p, argv, process)
  }

  lemma AtByteMeans(now: seq<byte>, was: seq<byte>, start: nat, s: Text, p: nat, argv: seq<nat>, process: bool)
    requires AtByte(now, was, start, s, p, argv, process)
    ensures p < |now| && now[p] == was[p]
    ensures now[p] == NUL || now[p] == SEMICOLON <==> p == start + |s|
    ensures p < start + |s| ==> now[p] == s[p - start]
  {
    BlankedStep(was, start, p);
    if p < start + |s| {
      assert was[start..start + |s|][p - start] == was[p];
    }
  }

  /** One byte of the scan: a space is cut out, anything else may start an argument. */
  method ScanByte(buf: array<byte>, p: nat, argv: seq<nat>, process: bool, ghost was: seq<byte>, ghost start: nat,
                  ghost s: Text)
    returns (argv': seq<nat>, process': bool)
    requires AtByte(buf[..], was, start, s, p, argv, process) && p < start + |s|
    modifies buf
    ensures AtByte(buf[..], was, start, s, p + 1, argv', process')
  {
    AtByteMeans(buf[..], was, start, s, p, argv, process);
    ScanStep(s, start, p, argv, process);
    BlankedStep(was, start, p);
    argv', process' := argv, process;
    if buf[p] == SPACE {
      buf[p] := NUL;
      process' := true;
    } else if process && |argv| < MAXARG {
      argv' := argv + [p];
      process' := false;
    }
  }

  /** The byte at `p` ends the scan exactly when it is the piece's terminator, and has not been touched. */
  ghost predicate Faces(now: seq<byte>, was: seq<byte>, start: nat, s: Text, p: nat) {
    && p < |now| == |was| && now[p] == was[p]
    && (now[p] == NUL || now[p] == SEMICOLON <==> p == start + |s|)
  }

  /** One byte, with what is then known of the next. */
  method ScanNext(buf: array<byte>, p: nat, argv: seq<nat>, process: bool, ghost was: seq<byte>, ghost start: nat,
                  ghost s: Text)
    returns (argv': seq<nat>, process': bool)
    requires AtByte(buf[..], was, start, s, p, argv, process) && p < start + |s| && |was| == buf.Length
    modifies buf
    ensures AtByte(buf[..], was, start, s, p + 1, argv', process') && Faces(buf[..], was, start, s, p + 1)
  {
    argv', process' := ScanByte(buf, p, argv, process, was, start, s);
    AtByteMeans(buf[..], was, start, s, p + 1, argv', process');
  }

  /** The scan up to the terminator. */
  method ScanPiece(buf: array<byte>, start: nat, ghost was: seq<byte>, ghost s: Text)
    returns (p: nat, argv: seq<nat>, process: bool)
    requires PieceAt(buf[..], start, s) && was == buf[..]
    modifies buf
    ensures p == start + |s| && AtByte(buf[..], was, start, s, p, argv, process) && Faces(buf[..], was, start, s, p)
  {
    p, argv, process := start, [], true;
    ScanFirst(was, start, s);
    AtByteMeans(buf[..], was, start, s, p, argv, process);
    while buf[p] != NUL && buf[p] != SEMICOLON
      invariant start <= p <= start + |s|
      invariant AtByte(buf[..], was, start, s, p, argv, process) && Faces(buf[..], was, start, s, p)
      decreases buf.Length - p
    {
      argv, process := ScanNext(buf, p, argv, process, was, start, s);
      p := p + 1;
    }
  }

  /**
   Forms argc and argv for the command at `start`, cutting the buffer at its spaces. Nothing before the command or
   from its terminator on is touched, and nothing beyond the final NUL is read.
   */
  method FormArguments(buf: array<byte>, start: nat, ghost s: Text) returns (p: nat, argv: seq<nat>)
    requires PieceAt(buf[..], start, s)
    modifies buf
    ensures p == start + |s| && buf[p] == old(buf[p])
    ensures argv == Limit(Starts(s, start))
    ensures buf[..] == Blanked(old(buf[..]), start, p)
  {
    ghost var was := buf[..];
    var process;
    p, argv, process := ScanPiece(buf, start, was, s);
    ScanDone(s, start, argv, process);
  }

  lemma ScanFirst(was: seq<byte>, start: nat, s: Text)
    requires PieceAt(was, start, s)
    ensures AtByte(was, was, start, s, start, [], true)
  {
    assert s[0..] == s;
    assert Blanked(was, start, start) == was;
  }

  /** `tail`, as a C string, reads as these commands. */
  ghost predicate Reads(tail: seq<byte>, commands: seq<Text>) {
    NUL in tail && commands == Commands(CString(tail))
  }

  /** The first command is the piece at the front; the others are read from behind its semicolon. */
  lemma NextCommand(tail: seq<byte>, commands: seq<Text>, n: nat)
    requires Reads(tail, commands) && n == |Piece(tail)|
    ensures n < |tail| && commands != [] && commands[0] == Piece(tail)
    ensures tail[n] == SEMICOLON <==> |commands| > 1
    ensures tail[n] == SEMICOLON ==> Reads(tail[n + 1..], commands[1..])
  {
    PieceBounds(tail, n);
    var c := CString(tail);
    if tail[n] == SEMICOLON {
      var later := tail[n + 1..];
      assert later[..|c| - n - 1] == c[n + 1..];
      assert later[|c| - n - 1] == tail[|c|];
      CStringIs(later, |c| - n - 1);
    } else {
      assert n == |c|;
      assert c[..n] == c;
    }
  }

  /** Through the pointers a command sees the first sixteen words of its piece. */
  lemma ArgumentStrings(b: seq<byte>, s: Text, start: nat, argv: seq<nat>)
    requires Cut(b, s, start) && argv == Limit(Starts(s, start))
    ensures forall i :: 0 <= i < |argv| ==> argv[i] < |b|
    ensures Strings(b, argv) == Limit(Words(s))
    ensures argv == [] <==> Words(s) == []
  {
    StartsAreWords(b, s, start);
    StringsTake(b, Starts(s, start), |argv|);
  }

  /** The first command stands at `start`, and the others are read from behind it. */
  lemma CommandAt(was: seq<byte>, start: nat, tail: seq<byte>, commands: seq<Text>)
    requires start <= |was| && tail == was[start..] && Reads(tail, commands)
    ensures commands != [] && PieceAt(was, start, commands[0])
    ensures was[start + |commands[0]|] == SEMICOLON <==> |commands| > 1
    ensures |commands| > 1 ==> Reads(tail[|commands[0]| + 1..], commands[1..])
  {
    PieceInBuffer(was, start);
    NextCommand(tail, commands, |Piece(tail)|);
  }

  /** One command: its argument strings, none when it is blank, and where the next one starts. */
  method NextArguments(buf: array<byte>, start: nat, ghost s: Text)
    returns (p: nat, args: seq<Text>, more: bool)
    requires PieceAt(buf[..], start, s)
    modifies buf
    ensures p == start + |s| + 1 <= buf.Length
    ensures args == Limit(Words(s))
    ensures more == (old(buf[start + |s|]) == SEMICOLON)
    ensures buf[p..] == old(buf[..])[start..][|s| + 1..]
  {
    ghost var was := buf[..];
    var argv;
    p, argv := FormArguments(buf, start, s);
    more := buf[p] == SEMICOLON;
    args := Terminate(buf, p, argv, was, start, s);
    p := p + 1;
  }

  /** Ends the piece with a NUL, which makes C strings of its arguments. */
  method Terminate(buf: array<byte>, p: nat, argv: seq<nat>, ghost was: seq<byte>, ghost start: nat, ghost s: Text)
    returns (args: seq<Text>)
    requires PieceAt(was, start, s) && p == start + |s|
    requires buf[..] == Blanked(was, start, p) && argv == Limit(Starts(s, start))
    modifies buf
    ensures args == Limit(Words(s))
    ensures buf[p + 1..] == was[start..][|s| + 1..]
  {
    BlankedIsCut(was, start, s);
    BlankedLeavesRest(was, start, |s|);
    buf[p] := NUL;
    args := ArgumentsAt(buf, argv, s, start);
    assert buf[p + 1..] == buf[..][p + 1..];
  }

  /** The strings behind `argv`. */
  method ArgumentsAt(buf: array<byte>, argv: seq<nat>, ghost s: Text, ghost start: nat) returns (args: seq<Text>)
    requires Cut(buf[..], s, start) && argv == Limit(Starts(s, start))
    ensures args == Limit(Words(s))
  {
    ArgumentStrings(buf[..], s, start, argv);
    args := Strings(buf[..], argv);
  }

  lemma PieceInBuffer(b: seq<byte>, start: nat)
    requires start <= |b| && NUL in b[start..]
    ensures var s := Piece(b[start..]);
            PieceAt(b, start, s) && b[start + |s|] == b[start..][|s|]
  {
    var s := Piece(b[start..]);
    PieceBounds(b[start..], |s|);
    assert b[start..start + |s|] == b[start..][..|s|];
  }

  /**
   The command task: executes the commands of the line in the buffer one after the other, blank ones aside. What each
   command gets as arguments is recorded in `executed`.
   */
  method TaskCommand(buf: array<byte>, ghost commands: seq<Text>) returns (executed: seq<seq<Text>>)
    requires Reads(buf[..], commands)
    modifies buf
    ensures executed == Executed(commands)
  {
    executed := [];
    var p := 0;
    var more := true;
    ghost var left := commands;
    assert buf[0..] == buf[..];
    while more
      invariant p <= buf.Length
      invariant more ==> Reads(buf[p..], left)
      invariant !more ==> left == []
      invariant executed + Executed(left) == Executed(commands)
      decreases buf.Length - p
    {
      var args;
      p, args, more := ReadCommand(buf, p, left);
      ExecutedStep(executed, left, args);
      if |args| != 0 {
        executed := executed + [args];
      }
      left := left[1..];
    }
  }

  /** The first of the commands that are left, and where the others start. */
  method ReadCommand(buf: array<byte>, start: nat, ghost left: seq<Text>) returns (p: nat, args: seq<Text>, more: bool)
    requires start <= buf.Length && Reads(buf[start..], left)
    modifies buf
    ensures left != [] && start < p <= buf.Length && args == Limit(Words(left[0]))
    ensures more ==> Reads(buf[p..], left[1..])
    ensures !more ==> left[1..] == []
  {
    CommandAt(buf[..], start, buf[start..], left);
    assert buf[start..] == buf[..][start..];
    p, args, more := NextArguments(buf, start, left[0]);
  }

  lemma ExecutedStep(before: seq<seq<Text>>, left: seq<Text>, args: seq<Text>)
    requires left != [] && args == Limit(Words(left[0]))
    ensures before + Executed(left) == (if args == [] then before else before + [args]) + Executed(left[1..])
  {
    var later := Executed(left[1..]);
    assert Executed(left) == Batch(args) + later;
    assert before + (Batch(args) + later) == before + Batch(args) + later;
  }
}
