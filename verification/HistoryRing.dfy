/**
 The command-line history: a 128-byte ring of variable-length records, each a
 length byte followed by the text, with a zero length byte after the newest.
 */
module HistoryRing {
  import opened Bytes

  const BUFSIZE: nat := 128

  datatype Dir = Up | Down

  // ---------------------------------------------------------------- the specification: a bounded list of lines

  predicate Storable(es: seq<Text>) {
    forall i :: 0 <= i < |es| ==> 1 <= |es[i]| <= BUFSIZE - 2
  }

  /** The records of `es` laid end to end, without the terminator. */
  function Encode(es: seq<Text>): seq<int> {
    if es == [] then [] else [|es[0]|] + es[0] + Encode(es[1..])
  }

  /** Room for the records and the terminator. */
  predicate Fits(es: seq<Text>) {
    |Encode(es)| + 1 <= BUFSIZE
  }

  /** What is left after dropping oldest entries until a record of `size` bytes and the terminator fit. */
  function Evict(es: seq<Text>, size: nat): seq<Text> {
    if es == [] || |Encode(es)| + size + 2 <= BUFSIZE then es else Evict(es[1..], size)
  }

  function SaveEntries(es: seq<Text>, line: Text): seq<Text> {
    if 1 <= |line| <= BUFSIZE - 2 then Evict(es, |line|) + [line] else es
  }

  /** The line on display after stepping `index` entries back; stepping below the newest shows the empty line. */
  function Shown(es: seq<Text>, index: nat): Text {
    if 1 <= index <= |es| then es[|es| - index] else []
  }

  /** Up stops at the oldest entry, Down at the empty line below the newest. */
  function NextIndex(n: nat, index: nat, dir: Dir): nat {
    match dir
    case Up => if index < n then index + 1 else index
    case Down => if index > 0 then index - 1 else 0
  }

  datatype Model = Model(entries: seq<Text>, index: nat)

  datatype Op = Save(line: Text) | Recall(dir: Dir)

  function Step(m: Model, op: Op): Model {
    match op
    case Save(line) => Model(SaveEntries(m.entries, line), if 1 <= |line| <= BUFSIZE - 2 then 0 else m.index)
    case Recall(dir) => m.(index := NextIndex(|m.entries|, m.index, dir))
  }

  function Run(m: Model, ops: seq<Op>): Model {
    if ops == [] then m else Step(Run(m, ops[..|ops| - 1]), ops[|ops| - 1])
  }

  // ---------------------------------------------------------------- facts about encodings

  lemma {:induction false} EncodeAppend(es: seq<Text>, fs: seq<Text>)
    ensures Encode(es + fs) == Encode(es) + Encode(fs)
  {
    if es == [] {
      assert es + fs == fs;
    } else {
      assert (es + fs)[1..] == es[1..] + fs;
      EncodeAppend(es[1..], fs);
    }
  }

  lemma EncodeSnoc(es: seq<Text>, line: Text)
    ensures Encode(es + [line]) == Encode(es) + [|line|] + line
  {
    EncodeAppend(es, [line]);
    assert Encode([line]) == [|line|] + line + Encode([line][1..]);
  }

  lemma {:induction false} EncodeLength(es: seq<Text>)
    requires Storable(es)
    ensures 2 * |es| <= |Encode(es)|
  {
    if es != [] {
      EncodeLength(es[1..]);
    }
  }

  /** `Evict` drops the least number of oldest entries that makes room. */
  lemma {:induction false} EvictIsLeast(es: seq<Text>, size: nat) returns (k: nat)
    requires size <= BUFSIZE - 2
    ensures k <= |es| && Evict(es, size) == es[k..]
    ensures |Encode(es[k..])| + size + 2 <= BUFSIZE
    ensures forall j :: 0 <= j < k ==> |Encode(es[j..])| + size + 2 > BUFSIZE
  {
    if es == [] || |Encode(es)| + size + 2 <= BUFSIZE {
      k := 0;
      assert es[0..] == es;
    } else {
      var k' := EvictIsLeast(es[1..], size);
      k := k' + 1;
      assert es[1..][k'..] == es[k..];
      forall j | 0 <= j < k ensures |Encode(es[j..])| + size + 2 > BUFSIZE {
        if j == 0 {
          assert es[0..] == es;
        } else {
          assert es[1..][j - 1..] == es[j..];
        }
      }
    }
  }

  // ---------------------------------------------------------------- properties of whole runs

  function Min(a: int, b: int): int {
    if a < b then a else b
  }

  function Max(a: int, b: int): int {
    if a < b then b else a
  }

  /** The longest run of newest lines that fits the buffer. */
  function Newest(all: seq<Text>): (r: seq<Text>)
    ensures Fits(r)
  {
    if all == [] || Fits(all) then all else Newest(all[1..])
  }

  lemma {:induction false} NewestIsLongest(all: seq<Text>) returns (k: nat)
    ensures k <= |all| && Newest(all) == all[k..]
    ensures Fits(all[k..])
    ensures forall j :: 0 <= j < k ==> !Fits(all[j..])
  {
    assert all[0..] == all;
    if all == [] || Fits(all) {
      k := 0;
    } else {
      var k' := NewestIsLongest(all[1..]);
      k := k' + 1;
      assert forall j :: 0 < j <= |all| ==> all[1..][j - 1..] == all[j..];
    }
  }

  lemma {:induction false} EvictThenAppend(es: seq<Text>, line: Text)
    requires 1 <= |line| <= BUFSIZE - 2
    ensures Evict(es, |line|) + [line] == Newest(es + [line])
  {
    EncodeSnoc(es, line);
    if es == [] {
      assert es + [line] == [line];
    } else {
      assert (es + [line])[1..] == es[1..] + [line];
      EvictThenAppend(es[1..], line);
    }
  }

  lemma {:induction false} NewestThenAppend(all: seq<Text>, line: Text)
    ensures Newest(Newest(all) + [line]) == Newest(all + [line])
  {
    if all != [] && !Fits(all) {
      NewestThenAppend(all[1..], line);
      EncodeSnoc(all, line);
      assert (all + [line])[1..] == all[1..] + [line];
    }
  }

  /** The newest line is always among those that are kept. */
  lemma NewestKeepsLast(all: seq<Text>, line: Text)
    requires |line| <= BUFSIZE - 2
    ensures var es := Newest(all + [line]);
            es != [] && es[|es| - 1] == line
  {
    var k := NewestIsLongest(all + [line]);
    assert (all + [line])[|all|..] == [line];
    EncodeSnoc([], line);
    assert [] + [line] == [line];
    assert Fits((all + [line])[|all|..]);
  }

  /** The lines of a run that are storable at all, oldest first. */
  function Lines(ops: seq<Op>): (r: seq<Text>)
    ensures Storable(r)
  {
    if ops == [] then [] else
    var op := ops[|ops| - 1];
    var rest := Lines(ops[..|ops| - 1]);
    if op.Save? && 1 <= |op.line| <= BUFSIZE - 2 then rest + [op.line] else rest
  }

  /**
   However saves and recalls are interleaved, the history is the longest run of newest lines that fits, so evicting
   greedily at each save never forgets a line that the buffer could still hold.
   */
  lemma {:induction false} HistoryIsNewestThatFits(ops: seq<Op>)
    ensures var m := Run(Model([], 0), ops);
            m.entries == Newest(Lines(ops)) && Storable(m.entries) && m.index <= |m.entries|
  {
    if ops != [] {
      HistoryIsNewestThatFits(ops[..|ops| - 1]);
      var op, all := ops[|ops| - 1], Lines(ops[..|ops| - 1]);
      if op.Save? && 1 <= |op.line| <= BUFSIZE - 2 {
        EvictThenAppend(Newest(all), op.line);
        NewestThenAppend(all, op.line);
      }
      var _ := NewestIsLongest(Lines(ops));
    }
  }

  function Recalls(dir: Dir, k: nat): (r: seq<Op>)
    ensures |r| == k
  {
    if k == 0 then [] else Recalls(dir, k - 1) + [Recall(dir)]
  }

  lemma {:induction false} RecallsMove(m: Model, dir: Dir, k: nat)
    requires m.index <= |m.entries|
    ensures Run(m, Recalls(dir, k)).entries == m.entries
    ensures Run(m, Recalls(dir, k)).index
         == if dir == Up then Min(m.index + k, |m.entries|) else Max(m.index - k, 0)
  {
    if k > 0 {
      RecallsMove(m, dir, k - 1);
      RunSnoc(m, Recalls(dir, k - 1), Recall(dir));
    }
  }

  lemma RunSnoc(m: Model, ops: seq<Op>, op: Op)
    ensures Run(m, ops + [op]) == Step(Run(m, ops), op)
    ensures Lines(ops + [op])
         == if op.Save? && 1 <= |op.line| <= BUFSIZE - 2 then Lines(ops) + [op.line] else Lines(ops)
  {
    assert (ops + [op])[..|ops + [op]| - 1] == ops;
  }

  /** An empty line, or one beyond 126 bytes, is not stored, and recall goes on from where it was. */
  lemma UnstorableSave(m: Model, line: Text)
    requires line == [] || |line| > 126
    ensures Step(m, Save(line)) == m
  {
  }

  lemma {:induction false} RunAppend(m: Model, a: seq<Op>, b: seq<Op>)
    ensures Run(m, a + b) == Run(Run(m, a), b)
  {
    if b == [] {
      assert a + b == a;
    } else {
      var front, last := b[..|b| - 1], b[|b| - 1];
      RunAppend(m, a, front);
      RunSnoc(m, a + front, last);
      AppendSnoc(a, b);
    }
  }

  lemma AppendSnoc<T>(a: seq<T>, b: seq<T>)
    requires b != []
    ensures a + b == (a + b[..|b| - 1]) + [b[|b| - 1]]
  {
  }

  /** So it makes no difference anywhere in a run. */
  lemma UnstorableSaveInRun(m: Model, before: seq<Op>, line: Text, later: seq<Op>)
    requires line == [] || |line| > 126
    ensures Run(m, before + [Save(line)] + later) == Run(m, before + later)
  {
    RunAppend(m, before + [Save(line)], later);
    RunAppend(m, before, later);
    RunSnoc(m, before, Save(line));
    UnstorableSave(Run(m, before), line);
  }

  /** Bytes taken by the records: a length byte and the text each. */
  function Total(es: seq<Text>): nat {
    if es == [] then 0 else 1 + |es[0]| + Total(es[1..])
  }

  /** A history fits when its records and one byte more take no more than 128. */
  lemma {:induction false} EncodeTotal(es: seq<Text>)
    ensures |Encode(es)| == Total(es)
    ensures Fits(es) <==> Total(es) + 1 <= 128
  {
    if es != [] {
      EncodeTotal(es[1..]);
    }
  }

  /** After any run that ends in a save, the history is the longest tail of all the lines ever saved that fits. */
  lemma SavedRun(ops: seq<Op>, line: Text) returns (d: nat)
    requires 1 <= |line| <= BUFSIZE - 2
    ensures d <= |Lines(ops)| && Fits((Lines(ops) + [line])[d..])
    ensures forall j :: 0 <= j < d ==> !Fits((Lines(ops) + [line])[j..])
    ensures Run(Model([], 0), ops + [Save(line)]) == Model((Lines(ops) + [line])[d..], 0)
  {
    RunSnoc(Model([], 0), ops, Save(line));
    HistoryIsNewestThatFits(ops + [Save(line)]);
    d := NewestIsLongest(Lines(ops) + [line]);
    assert (Lines(ops) + [line])[d..] != [];
  }

  /**
   From the state such a run leaves, k steps up and then j steps down display the back-th newest of all the lines ever
   saved, where back is k held to the number of entries, less j; and the empty line when that is not positive.
   */
  lemma RecallShowsNewest(all: seq<Text>, d: nat, k: nat, j: nat, up: Model, end: Model)
    requires d <= |all|
    requires up == Run(Model(all[d..], 0), Recalls(Up, k)) && end == Run(up, Recalls(Down, j))
    ensures var back := Max(Min(k, |all| - d) - j, 0);
            && end == Model(all[d..], back)
            && Shown(end.entries, end.index) == if back == 0 then [] else all[|all| - back]
  {
    RecallsMove(Model(all[d..], 0), Up, k);
    RecallsMove(up, Down, j);
  }

  // ---------------------------------------------------------------- the ring as a byte string

  function Wrap(i: nat): nat {
    if i >= BUFSIZE then i - BUFSIZE else i
  }

  /** The buffer read once around from `h`. */
  function Ring(b: seq<byte>, h: nat): (r: seq<byte>)
    requires |b| == BUFSIZE && h < BUFSIZE
    ensures |r| == BUFSIZE
    ensures forall k :: 0 <= k < BUFSIZE ==> r[k] == b[Wrap(h + k)]
  {
    b[h..] + b[..h]
  }

  /** The records tile the ring from `head` to `tail`, and a zero length byte stands at `tail`. */
  ghost predicate Represents(b: seq<byte>, head: nat, tail: nat, es: seq<Text>) {
    && |b| == BUFSIZE
    && head < BUFSIZE
    && Storable(es)
    && Fits(es)
    && tail == Wrap(head + |Encode(es)|)
    && Encode(es) + [0] <= Ring(b, head)
  }

  lemma HeadByte(b: seq<byte>, head: nat, tail: nat, es: seq<Text>)
    requires Represents(b, head, tail, es)
    ensures tail < BUFSIZE && b[tail] == 0
    ensures b[head] == if es == [] then 0 else |es[0]|
    ensures head == tail <==> es == []
  {
    var r, e := Ring(b, head), Encode(es);
    assert (e + [0])[0] == r[0];
    assert (e + [0])[|e|] == r[|e|];
    if es != [] {
      assert e[0] == |es[0]|;
    }
  }

  lemma DropOldest(b: seq<byte>, head: nat, tail: nat, es: seq<Text>)
    requires Represents(b, head, tail, es) && es != []
    ensures b[head] == |es[0]|
    ensures Represents(b, Wrap(head + |es[0]| + 1), tail, es[1..])
    ensures forall i :: 0 <= i < |es[0]| ==> b[Wrap(head + 1 + i)] == es[0][i]
  {
    HeadByte(b, head, tail, es);
    var n := |es[0]| + 1;
    var e, e' := Encode(es), Encode(es[1..]);
    var h' := Wrap(head + n);
    assert e == [|es[0]|] + es[0] + e';
    forall k | 0 <= k <= |e'| ensures (e' + [0])[k] == Ring(b, h')[k] {
      assert (e + [0])[n + k] == Ring(b, head)[n + k];
    }
    forall i | 0 <= i < |es[0]| ensures b[Wrap(head + 1 + i)] == es[0][i] {
      assert (e + [0])[1 + i] == Ring(b, head)[1 + i];
      assert e[1 + i] == es[0][i];
    }
  }

  /** The walk stands at the header of entry i, or at the terminator after the last. */
  ghost predicate AtEntry(b: seq<byte>, header: nat, tail: nat, es: seq<Text>, i: nat) {
    && i <= |es| && Represents(b, header, tail, es[i..])
    && header < |b| && (b[header] == 0 <==> i == |es|)
  }

  lemma WalkStart(b: seq<byte>, head: nat, tail: nat, es: seq<Text>)
    requires Represents(b, head, tail, es)
    ensures AtEntry(b, head, tail, es, 0)
  {
    assert es[0..] == es;
    HeadByte(b, head, tail, es);
  }

  /** One step of the walk from record to record. */
  lemma WalkStep(b: seq<byte>, header: nat, tail: nat, es: seq<Text>, i: nat)
    requires AtEntry(b, header, tail, es, i) && i < |es|
    ensures AtEntry(b, Wrap(header + b[header] + 1), tail, es, i + 1)
  {
    DropOldest(b, header, tail, es[i..]);
    assert es[i..][1..] == es[i + 1..];
    HeadByte(b, Wrap(header + b[header] + 1), tail, es[i + 1..]);
  }

  /** The bytes of the ring determine the entries: no two lists share a representation. */
  lemma {:induction false} DecodingIsUnique(b: seq<byte>, head: nat, t1: nat, es: seq<Text>, t2: nat, fs: seq<Text>)
    requires Represents(b, head, t1, es) && Represents(b, head, t2, fs)
    ensures es == fs && t1 == t2
    decreases |es|
  {
    HeadByte(b, head, t1, es);
    HeadByte(b, head, t2, fs);
    if es != [] {
      DropOldest(b, head, t1, es);
      DropOldest(b, head, t2, fs);
      assert es[0] == fs[0];
      DecodingIsUnique(b, Wrap(head + |es[0]| + 1), t1, es[1..], t2, fs[1..]);
      assert es == [es[0]] + es[1..] && fs == [fs[0]] + fs[1..];
    }
  }

  lemma PrefixOfRing(b: seq<byte>, head: nat, tail: nat, es: seq<Text>)
    requires Represents(b, head, tail, es)
    ensures Encode(es) <= Ring(b, head)
  {
    assert Encode(es) == (Encode(es) + [0])[..|Encode(es)|];
  }

  lemma EvictMakesRoom(es: seq<Text>, size: nat)
    requires size <= BUFSIZE - 2
    ensures |Encode(Evict(es, size))| + size + 2 <= BUFSIZE
  {
    var _ := EvictIsLeast(es, size);
  }

  /** The length byte may be stored at `head` of an empty ring before the record is: nothing is lost. */
  lemma FirstByteStored(b: seq<byte>, head: nat, tail: nat, es: seq<Text>, size: byte)
    requires Represents(b, head, tail, es)
    ensures Encode(es) <= Ring(b, head)
    ensures b[head] == 0 ==> Encode(es) == [] && Encode(es) <= Ring(b[head := size], head)
  {
    HeadByte(b, head, tail, es);
    PrefixOfRing(b, head, tail, es);
  }

  lemma RecordStored(b: seq<byte>, head: nat, tail: nat, es: seq<Text>, line: Text)
    requires |b| == BUFSIZE && head < BUFSIZE && Storable(es)
    requires 1 <= |line| && |Encode(es)| + |line| + 2 <= BUFSIZE
    requires tail == Wrap(head + |Encode(es)| + 1 + |line|)
    requires Encode(es) + [|line|] + line + [0] <= Ring(b, head)
    ensures Represents(b, head, tail, es + [line])
  {
    EncodeSnoc(es, line);
    var e := Encode(es) + [|line|] + line;
    assert Encode(es + [line]) == e && |e| == |Encode(es)| + 1 + |line|;
  }

  lemma RingUpdate(b: seq<byte>, head: nat, n: nat, v: byte)
    requires |b| == BUFSIZE && head < BUFSIZE && n < BUFSIZE
    ensures Ring(b[Wrap(head + n) := v], head) == Ring(b, head)[n := v]
  {
  }

  /** The line found at entry i; behind the newest there is the empty one. */
  function Entry(es: seq<Text>, i: nat): Text {
    if i < |es| then es[i] else []
  }

  /** The entry that a step from `index` displays, or the terminator when there is none. */
  function Target(n: nat, index: nat, dir: Dir): (i: int) {
    match dir
    case Up => if index < n then n - (index + 1) else n
    case Down => if index > 0 then n - (index - 1) else n
  }

  /** What the walk looks for in 32 bits is that entry; `num - 1` wraps on an empty history. */
  lemma TargetFound(n: nat, index: nat)
    requires index <= n < TWO32 - 1
    ensures Min(Sub32(Sub32(n, 1), index), n) == Target(n, index, Up)
    ensures Min(Sub32(n + 1, index), n) == Target(n, index, Down)
  {
  }

  lemma TargetShown(es: seq<Text>, index: nat)
    requires index <= |es|
    ensures index < |es| ==> Shown(es, index + 1) == Entry(es, Target(|es|, index, Up))
    ensures index > 0 ==> Shown(es, index - 1) == Entry(es, Target(|es|, index, Down))
  {
  }

  // ---------------------------------------------------------------- the class

  class History {
    const buffer: array<byte>
    var head: nat
    var tail: nat
    var index: nat
    ghost var entries: seq<Text>

    ghost predicate Valid()
      reads this, buffer
    {
      && buffer.Length == BUFSIZE
      && Represents(buffer[..], head, tail, entries)
      && index <= |entries|
    }

    ghost function Abs(): Model
      reads this
    {
      Model(entries, index)
    }

    constructor ()
      ensures Valid() && fresh(buffer) && buffer.Length == 128
      ensures Abs() == Model([], 0)
    {
      head, tail, index := 0, 0, 0;
      buffer := new byte[BUFSIZE](_ => 0);
      entries := [];
    }

    /** Moves `head` past the oldest entries until a record of `size` bytes fits. */
    method FindFree(size: nat)
      requires Valid() && size <= BUFSIZE - 2
      modifies this`head, this`entries
      ensures buffer.Length == BUFSIZE && Represents(buffer[..], head, tail, entries)
      ensures entries == Evict(old(entries), size)
    {
      while true
        invariant buffer.Length == BUFSIZE && Represents(buffer[..], head, tail, entries)
        invariant Evict(entries, size) == Evict(old(entries), size)
        decreases |entries|
      {
        HeadByte(buffer[..], head, tail, entries);
        if buffer[head] == 0 {
          return;
        }
        if tail < head {
          if size < head - tail - 1 {
            return;
          }
        } else {
          if size < BUFSIZE + head - tail - 1 {
            return;
          }
        }
        DropOldest(buffer[..], head, tail, entries);
        head := Wrap(head + buffer[head] + 1);
        entries := entries[1..];
      }
    }

    /** Appends a line, dropping as few of the oldest entries as make room; the survivors' bytes are not touched. */
    method Save(cmdline: array<byte>, size: byte)
      requires Valid() && cmdline != buffer && size <= cmdline.Length
      modifies this, buffer
      ensures Valid()
      ensures Abs() == Step(old(Abs()), Op.Save(cmdline[..size]))
      ensures size == 0 || size > 126 ==>
                head == old(head) && tail == old(tail) && index == old(index) && entries == old(entries)
                && buffer[..] == old(buffer[..])
      ensures 1 <= size <= 126 ==> index == 0 && entries == Evict(old(entries), size) + [cmdline[..size]]
      ensures 1 <= size <= BUFSIZE - 2 ==>
                var kept := |Encode(Evict(old(entries), size))|;
                kept <= BUFSIZE && Ring(buffer[..], head)[..kept] == Ring(old(buffer[..]), head)[..kept]
    {
      if size > BUFSIZE - 2 || size == 0 {
        return;
      }
      FindFree(size);
      EvictMakesRoom(old(entries), size);
      FirstByteStored(buffer[..], head, tail, entries, size);
      if buffer[head] == 0 {
        buffer[head] := size;
      }
      PutRecord(Encode(entries), cmdline, size);
      index := 0;
      RecordStored(buffer[..], head, tail, entries, cmdline[..size]);
      entries := entries + [cmdline[..size]];
    }

    /** Writes length byte, text and terminator at `tail`. */
    method PutRecord(ghost done: seq<int>, cmdline: array<byte>, size: byte)
      requires buffer.Length == BUFSIZE && head < BUFSIZE && |done| + size + 2 <= BUFSIZE
      requires tail == Wrap(head + |done|) && done <= Ring(buffer[..], head)
      requires cmdline != buffer && size <= cmdline.Length
      modifies this`tail, buffer
      ensures tail == Wrap(head + |done| + 1 + size)
      ensures done + [size] + cmdline[..size] + [0] <= Ring(buffer[..], head)
      ensures Ring(buffer[..], head)[..|done|] == done
    {
      PutByte(done, size);
      PutLine(done + [size], cmdline, size);
      RingUpdate(buffer[..], head, |done| + 1 + size, 0);
      buffer[tail] := 0;
      assert (done + [size] + cmdline[..size] + [0])[..|done|] == done;
    }

    /** Stores the text of a record byte by byte. */
    method PutLine(ghost done: seq<int>, cmdline: array<byte>, size: byte)
      requires buffer.Length == BUFSIZE && head < BUFSIZE && |done| + size < BUFSIZE
      requires tail == Wrap(head + |done|) && done <= Ring(buffer[..], head)
      requires cmdline != buffer && size <= cmdline.Length
      modifies this`tail, buffer
      ensures tail == Wrap(head + |done| + size)
      ensures done + cmdline[..size] <= Ring(buffer[..], head)
    {
      var i := 0;
      assert cmdline[..0] == [] && done + [] == done;
      while i < size
        invariant 0 <= i <= size
        invariant tail == Wrap(head + |done| + i)
        invariant done + cmdline[..i] <= Ring(buffer[..], head)
        invariant cmdline[..] == old(cmdline[..])
      {
        assert done + cmdline[..i + 1] == (done + cmdline[..i]) + [cmdline[i]];
        PutByte(done + cmdline[..i], cmdline[i]);
        i := i + 1;
      }
    }

    /** Stores one byte at `tail` and advances it, extending the written part of the ring. */
    method PutByte(ghost done: seq<int>, v: byte)
      requires buffer.Length == BUFSIZE && head < BUFSIZE && |done| < BUFSIZE - 1
      requires tail == Wrap(head + |done|)
      requires done <= Ring(buffer[..], head)
      modifies this`tail, buffer
      ensures tail == Wrap(head + |done| + 1)
      ensures done + [v] <= Ring(buffer[..], head)
      ensures buffer[..] == old(buffer[..])[old(tail) := v]
    {
      RingUpdate(buffer[..], head, |done|, v);
      buffer[tail] := v;
      tail := Wrap(tail + 1);
    }

    /** Counts the entries. */
    method Entries() returns (i: nat)
      requires Valid()
      ensures i == |entries|
    {
      i := 0;
      var header := head;
      WalkStart(buffer[..], head, tail, entries);
      while buffer[header] != 0
        invariant AtEntry(buffer[..], header, tail, entries, i)
        decreases |entries| - i
      {
        WalkStep(buffer[..], header, tail, entries, i);
        header := Wrap(header + buffer[header] + 1);
        i := i + 1;
      }
    }

    /** Walks from the oldest entry until `num - i == idx` in 32-bit arithmetic, or to the terminator. */
    method Find(num: nat, idx: nat) returns (header: nat)
      requires Valid()
      requires num < TWO32 && idx < TWO32
      ensures AtEntry(buffer[..], header, tail, entries, Min(Sub32(num, idx), |entries|))
    {
      header := head;
      var i := 0;
      EncodeLength(entries);
      WalkStart(buffer[..], head, tail, entries);
      while buffer[header] != 0
        invariant AtEntry(buffer[..], header, tail, entries, i)
        invariant i <= Sub32(num, idx)
        decreases |entries| - i
      {
        if Sub32(num, i) == idx {
          break;
        }
        WalkStep(buffer[..], header, tail, entries, i);
        header := Wrap(header + buffer[header] + 1);
        i := i + 1;
      }
    }

    /** Copies the record at `header` out of the ring. */
    method CopyBuffer(dest: array<byte>, header: nat, ghost es: seq<Text>) returns (len: nat)
      requires buffer.Length == BUFSIZE && dest != buffer
      requires Represents(buffer[..], header, tail, es)
      requires es != [] ==> |es[0]| <= dest.Length
      modifies dest
      ensures len == if es == [] then 0 else |es[0]|
      ensures dest[..] == (if es == [] then [] else es[0]) + old(dest[..])[len..]
    {
      HeadByte(buffer[..], header, tail, es);
      ghost var text: seq<byte> := [];
      if es != [] {
        DropOldest(buffer[..], header, tail, es);
        text := es[0];
      }
      CopyText(dest, header, text);
      return buffer[header];
    }

    /** Copies out the entry that a walk has found. */
    method CopyEntry(dest: array<byte>, header: nat, ghost i: nat) returns (len: nat)
      requires buffer.Length == BUFSIZE && dest != buffer && AtEntry(buffer[..], header, tail, entries, i)
      requires |Entry(entries, i)| <= dest.Length
      modifies dest
      ensures len == |Entry(entries, i)| && dest[..] == Entry(entries, i) + old(dest[..])[len..]
    {
      len := CopyBuffer(dest, header, entries[i..]);
    }

    /** Copies the bytes after the length byte at `header`, around the ring. */
    method CopyText(dest: array<byte>, header: nat, ghost text: Text)
      requires buffer.Length == BUFSIZE && dest != buffer && header < BUFSIZE
      requires buffer[header] == |text| < BUFSIZE && |text| <= dest.Length
      requires forall i :: 0 <= i < |text| ==> buffer[Wrap(header + 1 + i)] == text[i]
      modifies dest
      ensures dest[..] == text + old(dest[..])[|text|..]
    {
      var temp := Wrap(header + 1);
      var i := 0;
      while i < buffer[header]
        invariant i <= |text| && temp == Wrap(header + 1 + i)
        invariant buffer[..] == old(buffer[..])
        invariant forall j :: 0 <= j < i ==> dest[j] == text[j]
        invariant forall j :: i <= j < dest.Length ==> dest[j] == old(dest[j])
      {
        dest[i] := buffer[temp];
        temp := Wrap(temp + 1);
        i := i + 1;
      }
      assert dest[..|text|] == text;
    }

    /**
     One step through the history. Up returns -1 at the oldest entry and changes nothing; otherwise the line now on
     display is copied out and its length returned. Down past the newest entry displays the empty line.
     */
    method Recall(cmdline: array<byte>, dir: Dir) returns (len: int)
      requires Valid() && cmdline != buffer
      requires forall i :: 0 <= i < |entries| ==> |entries[i]| <= cmdline.Length
      modifies this`index, cmdline
      ensures Valid()
      ensures Abs() == Step(old(Abs()), Op.Recall(dir))
      ensures len == -1 <==> dir == Up && old(index) == |entries|
      ensures len == -1 ==> cmdline[..] == old(cmdline[..])
      ensures len != -1 ==>
                len == |Shown(entries, index)| && cmdline[..] == Shown(entries, index) + old(cmdline[..])[len..]
    {
      var num := Entries();
      TargetShown(entries, index);
      if dir == Up {
        var header := FindTarget(num, Up);
        if index <= num && buffer[header] != 0 {
          index := index + 1;
          len := CopyEntry(cmdline, header, Target(num, old(index), Up));
          return;
        }
        return -1;
      } else {
        var header := FindTarget(num, Down);
        if index > 0 {
          index := index - 1;
          len := CopyEntry(cmdline, header, Target(num, old(index), Down));
          return;
        }
        return 0;
      }
    }

    /** `find(head, num - 1, index)` for up and `find(head, num + 1, index)` for down. */
    method FindTarget(num: nat, dir: Dir) returns (header: nat)
      requires Valid() && num == |entries|
      ensures Target(num, index, dir) >= 0 && AtEntry(buffer[..], header, tail, entries, Target(num, index, dir))
    {
      EncodeLength(entries);
      TargetFound(num, index);
      header := Find(if dir == Up then Sub32(num, 1) else num + 1, index);
    }
  }
}
