/** Ethernet frames in the controller's word FIFOs: `EthernetPacketGetInternal` and `EthernetPacketPutInternal`. */
module EthernetFifo {
  import opened Bytes

  type word = x: int | 0 <= x < 0x1_0000_0000

  // ---------------------------------------------------------------- words and bytes

  /** The bytes of a word in memory order, least significant first. */
  function Split(w: word): (b: seq<byte>)
    ensures |b| == 4
  {
    [w % 0x100, w / 0x100 % 0x100, w / 0x1_0000 % 0x100, w / 0x100_0000]
  }

  function Join(b: seq<byte>): word
    requires |b| == 4
  {
    b[0] as int + b[1] as int * 0x100 + b[2] as int * 0x1_0000 + b[3] as int * 0x100_0000
  }

  lemma SplitJoin(b: seq<byte>)
    requires |b| == 4
    ensures Split(Join(b)) == b
  {
    DigitsOf(b[0], b[1], b[2], b[3]);
  }

  lemma DigitsOf(a: int, b: int, c: int, d: int)
    requires 0 <= a < 0x100 && 0 <= b < 0x100 && 0 <= c < 0x100 && 0 <= d < 0x100
    ensures var w := a + b * 0x100 + c * 0x1_0000 + d * 0x100_0000;
            w % 0x100 == a && w / 0x100 % 0x100 == b && w / 0x1_0000 % 0x100 == c && w / 0x100_0000 == d
  {
    var w := a + b * 0x100 + c * 0x1_0000 + d * 0x100_0000;
    assert w / 0x100 == b + c * 0x100 + d * 0x1_0000;
    assert w / 0x1_0000 == c + d * 0x100;
  }

  /** The FIFO's contents as the byte stream it stands for. */
  function Stream(ws: seq<word>): (s: seq<byte>)
    ensures |s| == 4 * |ws|
  {
    if ws == [] then [] else Stream(ws[..|ws| - 1]) + Split(ws[|ws| - 1])
  }

  lemma {:induction false} StreamAppend(a: seq<word>, b: seq<word>)
    ensures Stream(a + b) == Stream(a) + Stream(b)
  {
    if b == [] {
      assert a + b == a;
    } else {
      StreamAppend(a, b[..|b| - 1]);
      assert (a + b)[..|a + b| - 1] == a + b[..|b| - 1];
    }
  }

  lemma StreamTake(ws: seq<word>, k: nat)
    requires k <= |ws|
    ensures Stream(ws) == Stream(ws[..k]) + Stream(ws[k..])
  {
    assert ws == ws[..k] + ws[k..];
    StreamAppend(ws[..k], ws[k..]);
  }

  lemma StreamOfOne(w: word)
    ensures Stream([w]) == Split(w)
  {
    assert [w][..0] == [];
  }

  /** The bytes of word k stand at 4 * k. */
  lemma WordInStream(ws: seq<word>, k: nat)
    requires k < |ws|
    ensures 4 * k + 4 <= |Stream(ws)| && Stream(ws)[4 * k..4 * k + 4] == Split(ws[k])
  {
    StreamTake(ws, k);
    StreamTake(ws[k..], 1);
    assert ws[k..][..1] == [ws[k]];
    StreamOfOne(ws[k]);
    var front, back := Stream(ws[..k]), Stream(ws[k..]);
    assert back[..4] == Split(ws[k]);
    assert (front + back)[4 * k..4 * k + 4] == back[..4];
  }

  /** Where the four bytes of a word stand in the stream, least significant first. */
  lemma WordBytes(ws: seq<word>, k: nat)
    requires k < |ws|
    ensures |Stream(ws)| == 4 * |ws|
    ensures Stream(ws)[4 * k] == ws[k] % 0x100 && Stream(ws)[4 * k + 1] == ws[k] / 0x100 % 0x100
    ensures Stream(ws)[4 * k + 2] == ws[k] / 0x1_0000 % 0x100 && Stream(ws)[4 * k + 3] == ws[k] / 0x100_0000
  {
    WordInStream(ws, k);
    FourOf(Stream(ws), 4 * k, Split(ws[k]));
  }

  lemma FourOf(s: seq<byte>, at: nat, b: seq<byte>)
    requires at + 4 <= |s| && s[at..at + 4] == b
    ensures s[at] == b[0] && s[at + 1] == b[1] && s[at + 2] == b[2] && s[at + 3] == b[3]
  {
    assert s[at..at + 4][0] == s[at] && s[at..at + 4][1] == s[at + 1];
    assert s[at..at + 4][2] == s[at + 2] && s[at..at + 4][3] == s[at + 3];
  }

  // ---------------------------------------------------------------- what a receive does

  /** The FL field: the low half of the first word. */
  function FrameLength(w: word): (fl: int)
    ensures 0 <= fl < 0x1_0000 && fl == w % 0x1_0000
  {
    LowHalf(w);
    Split(w)[0] as int + Split(w)[1] as int * 0x100
  }

  lemma LowHalf(w: word)
    ensures Split(w)[0] as int + Split(w)[1] as int * 0x100 == w % 0x1_0000
  {
    TwoBytes(w);
  }

  lemma TwoBytes(w: int)
    requires w >= 0
    ensures w % 0x1_0000 == w % 0x100 + w / 0x100 % 0x100 * 0x100
  {
    assert w / 0x1_0000 == w / 0x100 / 0x100;
  }

  lemma FrameLengthIsLowHalf(w: word)
    ensures FrameLength(w) == w % 0x1_0000
  {
  }

  /** Words a frame occupies in the receive FIFO; even a zero length occupies the word that holds it. */
  function WordCount(fl: nat): nat {
    if fl == 0 then 1 else (fl + 3) / 4
  }

  /** Bytes stored: all but length and check sequence, held to the buffer; but the first two always. */
  function StoredCount(fl: nat, bufLen: int): nat {
    var n := if bufLen < fl - 6 then bufLen else fl - 6;
    if n < 2 then 2 else n
  }

  /** The count stays within the length the caller gave exactly when that is not one. */
  lemma StoredFits(fl: nat, bufLen: nat)
    requires bufLen > 0
    ensures StoredCount(fl, bufLen) <= bufLen <==> bufLen >= 2
  {
  }

  predicate HoldsFrame(ws: seq<word>) {
    ws != [] && |ws| >= WordCount(FrameLength(ws[0]))
  }

  function Result(fl: nat, bufLen: int): int {
    if fl - 6 > bufLen then -(fl - 6) else fl - 6
  }

  class Fifo {
    var words: seq<word>

    method Read() returns (w: word)
      requires words != []
      modifies this
      ensures w == old(words)[0] && words == old(words)[1..]
    {
      w := words[0];
      words := words[1..];
    }

    method Write(w: word)
      modifies this
      ensures words == old(words) + [w]
    {
      words := words + [w];
    }
  }

  /** Reads the words of the frame that did not fit into the buffer. */
  method DrainFrame(fifo: Fifo, ghost ws: seq<word>, ghost k: nat, i: int, fl: int)
    requires 0 <= fl && |ws| >= WordCount(fl)
    requires i == 4 * k - 2 && 1 <= k <= WordCount(fl) && fifo.words == ws[k..]
    modifies fifo
    ensures fifo.words == ws[WordCount(fl)..]
  {
    var i, k := i, k;
    while i < fl - 2
      invariant i == 4 * k - 2 && 1 <= k <= WordCount(fl)
      invariant fifo.words == ws[k..]
    {
      var _ := fifo.Read();
      i, k := i + 4, k + 1;
    }
  }

  /** The first `n` bytes after the length field are in the buffer; the rest of it is as it was. */
  ghost predicate Filled(b: seq<byte>, was: seq<byte>, ws: seq<word>, n: nat) {
    && n <= |was| && 2 + n <= |Stream(ws)|
    && b == Stream(ws)[2..2 + n] + was[n..]
  }

  /** One more word, of which the first m bytes are stored. */
  lemma FilledStep(b: seq<byte>, b': seq<byte>, was: seq<byte>, ws: seq<word>, k: nat, m: nat)
    requires 1 <= k < |ws| && 1 <= m <= 4 && 4 * k - 2 + m <= |was|
    requires Filled(b, was, ws, 4 * k - 2)
    requires b' == b[..4 * k - 2] + Split(ws[k])[..m] + b[4 * k - 2 + m..]
    ensures Filled(b', was, ws, 4 * k - 2 + m)
  {
    WordInStream(ws, k);
    var i, s := 4 * k - 2, Stream(ws);
    SliceOfSlice(s, 4 * k, 4 * k + 4, 0, m);
    assert s[4 * k..4 * k + m] == Split(ws[k])[..m];
    assert s[2..2 + i + m] == s[2..2 + i] + s[4 * k..4 * k + m];
  }

  lemma FilledFirst(was: seq<byte>, ws: seq<word>)
    requires ws != [] && 2 <= |was|
    ensures Filled(was[0 := Split(ws[0])[2]][1 := Split(ws[0])[3]], was, ws, 2)
  {
    WordInStream(ws, 0);
    var s, b := Stream(ws), Split(ws[0]);
    assert s[2] == s[0..4][2] == b[2] && s[3] == s[0..4][3] == b[3];
  }

  /** Bytes stored one by one. */
  lemma OneStored(b: seq<byte>, i: nat, s: seq<byte>)
    requires |s| == 4 && i + 1 <= |b|
    ensures b[i := s[0]] == b[..i] + s[..1] + b[i + 1..]
  {
  }

  lemma TwoStored(b: seq<byte>, i: nat, s: seq<byte>)
    requires |s| == 4 && i + 2 <= |b|
    ensures b[i := s[0]][i + 1 := s[1]] == b[..i] + s[..2] + b[i + 2..]
  {
  }

  lemma ThreeStored(b: seq<byte>, i: nat, s: seq<byte>)
    requires |s| == 4 && i + 3 <= |b|
    ensures b[i := s[0]][i + 1 := s[1]][i + 2 := s[2]] == b[..i] + s[..3] + b[i + 3..]
  {
  }

  lemma FourStored(b: seq<byte>, i: nat, s: seq<byte>)
    requires |s| == 4 && i + 4 <= |b|
    ensures b[i := s[0]][i + 1 := s[1]][i + 2 := s[2]][i + 3 := s[3]] == b[..i] + s[..4] + b[i + 4..]
  {
  }

  method PutFour(buf: array<byte>, i: nat, b: seq<byte>)
    requires |b| == 4 && i + 4 <= buf.Length
    modifies buf
    ensures buf[..] == old(buf[..])[..i] + b[..4] + old(buf[..])[i + 4..]
  {
    FourStored(buf[..], i, b);
    buf[i], buf[i + 1], buf[i + 2], buf[i + 3] := b[0], b[1], b[2], b[3];
  }

  /** A word of the frame, stored with one little-endian word store. */
  method StoreWord(fifo: Fifo, buf: array<byte>, i: nat, ghost k: nat, ghost ws: seq<word>, ghost was: seq<byte>)
    requires i == 4 * k - 2 && 1 <= k < |ws| && fifo.words == ws[k..] && |was| == buf.Length && i + 4 <= buf.Length
    requires Filled(buf[..], was, ws, i)
    modifies fifo, buf
    ensures fifo.words == ws[k + 1..] && Filled(buf[..], was, ws, i + 4)
  {
    var w := fifo.Read();
    PutFour(buf, i, Split(w));
    FilledStep(old(buf[..]), buf[..], was, ws, k, 4);
  }

  /** The last one to three bytes of a frame, from one more word. */
  method StoreTail(fifo: Fifo, buf: array<byte>, i: nat, n: nat, ghost k: nat, ghost ws: seq<word>,
                   ghost was: seq<byte>)
    requires i == 4 * k - 2 && 1 <= k < |ws| && fifo.words == ws[k..] && |was| == buf.Length
    requires i < n <= i + 3 && n <= buf.Length && Filled(buf[..], was, ws, i)
    modifies fifo, buf
    ensures fifo.words == ws[k + 1..] && Filled(buf[..], was, ws, n)
  {
    var w := fifo.Read();
    PutBytes(buf, i, n, Split(w));
    FilledStep(old(buf[..]), buf[..], was, ws, k, n - i);
  }

  method PutBytes(buf: array<byte>, i: nat, n: nat, b: seq<byte>)
    requires |b| == 4 && i < n <= i + 3 && n <= buf.Length
    modifies buf
    ensures buf[..] == old(buf[..])[..i] + b[..n - i] + old(buf[..])[n..]
  {
    if i == n - 3 {
      ThreeStored(buf[..], i, b);
      buf[i], buf[i + 1], buf[i + 2] := b[0], b[1], b[2];
    } else if i == n - 2 {
      TwoStored(buf[..], i, b);
      buf[i], buf[i + 1] := b[0], b[1];
    } else {
      OneStored(buf[..], i, b);
      buf[i] := b[0];
    }
  }

  /** The part of the frame that fits: whole words first, then a tail of up to three bytes. */
  method FillBuffer(fifo: Fifo, buf: array<byte>, n: int, ghost ws: seq<word>, ghost was: seq<byte>)
    returns (i: int, ghost k: nat)
    requires n <= buf.Length && n + 2 <= 4 * |ws| && ws != []
    requires fifo.words == ws[1..] && |was| == buf.Length && Filled(buf[..], was, ws, 2)
    modifies fifo, buf
    ensures i == 4 * k - 2 && 1 <= k <= |ws| && (k == 1 || i < n + 4) && n <= i
    ensures fifo.words == ws[k..]
    ensures Filled(buf[..], was, ws, if n < 2 then 2 else n)
  {
    i, k := 2, 1;
    while i <= n - 4
      invariant i == 4 * k - 2 && 1 <= k <= |ws| && (i == 2 || i <= n)
      invariant fifo.words == ws[k..]
      invariant Filled(buf[..], was, ws, i)
    {
      StoreWord(fifo, buf, i, k, ws, was);
      i, k := i + 4, k + 1;
    }
    if i < n {
      StoreTail(fifo, buf, i, n, k, ws, was);
      i, k := i + 4, k + 1;
    }
  }

  /** Reads one frame: exactly its words are consumed, exactly the bytes that fit are stored, whatever the lengths. */
  method PacketGetInternal(fifo: Fifo, buf: array<byte>, bufLen: int) returns (r: int)
    requires 0 < bufLen <= buf.Length && 2 <= buf.Length
    requires HoldsFrame(fifo.words)
    modifies fifo, buf
    ensures var ws := old(fifo.words);
            var fl := FrameLength(ws[0]);
            && fifo.words == ws[WordCount(fl)..]
            && Filled(buf[..], old(buf[..]), ws, StoredCount(fl, bufLen))
            && r == Result(fl, bufLen)
            && (bufLen >= 2 ==> ReceivesOne(ws, bufLen, (r, buf[..StoredCount(fl, bufLen)]), fifo.words))
    ensures var ws := old(fifo.words);
            var fl := ws[0] % 0x1_0000;
            var n := if bufLen < fl - 6 then bufLen else fl - 6;
            var m := if n < 2 then 2 else n;
            && fifo.words == ws[if fl == 0 then 1 else (fl + 3) / 4..]
            && r == (if fl - 6 > bufLen then 6 - fl else fl - 6)
            && m <= buf.Length && m + 2 <= 4 * |ws| && buf[m..] == old(buf[..])[m..]
            && (forall k :: 0 <= k < |ws| ==>
                  && (0 <= 4 * k - 2 < m ==> buf[4 * k - 2] == ws[k] % 0x100)
                  && (0 <= 4 * k - 1 < m ==> buf[4 * k - 1] == ws[k] / 0x100 % 0x100)
                  && (4 * k < m ==> buf[4 * k] == ws[k] / 0x1_0000 % 0x100)
                  && (4 * k + 1 < m ==> buf[4 * k + 1] == ws[k] / 0x100_0000))
  {
    ghost var ws, was := fifo.words, buf[..];
    var first := fifo.Read();
    var fl := FrameLength(first);
    FilledFirst(was, ws);
    buf[0] := Split(first)[2];
    buf[1] := Split(first)[3];
    var tempLen := if bufLen < fl - 6 then bufLen else fl - 6;
    var i, k := FillBuffer(fifo, buf, tempLen, ws, was);
    DrainFrame(fifo, ws, k, i, fl);
    r := Result(fl, bufLen);
    FilledPart(buf[..], was, ws, StoredCount(fl, bufLen));
    FilledBytes(buf[..], was, ws, StoredCount(fl, bufLen));
    FrameLengthIsLowHalf(ws[0]);
  }

  lemma FilledBytes(b: seq<byte>, was: seq<byte>, ws: seq<word>, m: nat)
    requires Filled(b, was, ws, m)
    ensures m <= |b| && m + 2 <= 4 * |ws| && b[m..] == was[m..]
    ensures forall k :: 0 <= k < |ws| ==>
              && (0 <= 4 * k - 2 < m ==> b[4 * k - 2] == ws[k] % 0x100)
              && (0 <= 4 * k - 1 < m ==> b[4 * k - 1] == ws[k] / 0x100 % 0x100)
              && (4 * k < m ==> b[4 * k] == ws[k] / 0x1_0000 % 0x100)
              && (4 * k + 1 < m ==> b[4 * k + 1] == ws[k] / 0x100_0000)
  {
    var s := Stream(ws);
    assert forall i :: 0 <= i < m ==> b[i] == s[2..2 + m][i] == s[2 + i];
    forall k | 0 <= k < |ws|
      ensures 0 <= 4 * k - 2 < m ==> b[4 * k - 2] == ws[k] % 0x100
      ensures 0 <= 4 * k - 1 < m ==> b[4 * k - 1] == ws[k] / 0x100 % 0x100
      ensures 4 * k < m ==> b[4 * k] == ws[k] / 0x1_0000 % 0x100
      ensures 4 * k + 1 < m ==> b[4 * k + 1] == ws[k] / 0x100_0000
    {
      WordBytes(ws, k);
    }
  }

  lemma FilledPart(b: seq<byte>, was: seq<byte>, ws: seq<word>, n: nat)
    requires Filled(b, was, ws, n)
    ensures b[..n] == Stream(ws)[2..2 + n]
  {
  }

  // ---------------------------------------------------------------- framing over whole runs

  /** What one receive returns, the bytes it stores, and the words it leaves. */
  function Received(ws: seq<word>, bufLen: nat): (int, seq<byte>, seq<word>)
    requires HoldsFrame(ws) && bufLen >= 2
    requires StoredCount(FrameLength(ws[0]), bufLen) + 2 <= |Stream(ws)|
  {
    var fl := FrameLength(ws[0]);
    (Result(fl, bufLen), Stream(ws)[2..2 + StoredCount(fl, bufLen)], ws[WordCount(fl)..])
  }

  function LengthField(n: nat): seq<byte>
    requires n < 0x1_0000
  {
    [n % 0x100, n / 0x100]
  }

  /** The words the controller stores for a frame: length, frame and check sequence, the last word filled up anyhow. */
  ghost predicate Carries(ws: seq<word>, frame: seq<byte>, fcs: seq<byte>) {
    && 2 <= |frame| && |frame| + 6 < 0x1_0000 && |fcs| == 4
    && |ws| == WordCount(|frame| + 6)
    && LengthField(|frame| + 6) + frame + fcs <= Stream(ws)
  }

  function Fitting(frame: seq<byte>, bufLen: nat): seq<byte> {
    if bufLen < |frame| then frame[..bufLen] else frame
  }

  /** The length, negated when the frame does not fit, and the bytes stored. */
  function Outcome(frame: seq<byte>, bufLen: nat): (int, seq<byte>) {
    (if |frame| > bufLen then -|frame| else |frame|, Fitting(frame, bufLen))
  }

  lemma LengthOfFirstWord(ws: seq<word>, n: nat)
    requires n < 0x1_0000 && ws != [] && LengthField(n) <= Stream(ws)
    ensures FrameLength(ws[0]) == n
  {
    WordInStream(ws, 0);
    var s, f := Stream(ws), LengthField(n);
    assert s[0..4][0] == s[0] == f[0] && s[0..4][1] == s[1] == f[1];
    LengthInBytes(ws[0], n, Split(ws[0])[0], Split(ws[0])[1]);
  }

  lemma LengthInBytes(w: word, n: nat, low: byte, high: byte)
    requires n < 0x1_0000 && low == Split(w)[0] && high == Split(w)[1]
    requires low == n % 0x100 && high == n / 0x100
    ensures FrameLength(w) == n
  {
  }

  /** A frame at the front of the FIFO is received whole, or cut to the buffer with a negated length. */
  lemma FrameReceived(ws: seq<word>, frame: seq<byte>, fcs: seq<byte>, rest: seq<word>, bufLen: nat)
    requires Carries(ws, frame, fcs) && bufLen >= 2
    ensures ReceivesOne(ws + rest, bufLen, Outcome(frame, bufLen), rest)
  {
    var n := if bufLen < |frame| then bufLen else |frame|;
    StreamAppend(ws, rest);
    FramePrefix(Stream(ws), frame, fcs, n);
    LengthOfFirstWord(ws, |frame| + 6);
    assert Stream(ws + rest)[2..2 + n] == Stream(ws)[2..2 + n];
    assert (ws + rest)[|ws|..] == rest;
    assert Fitting(frame, bufLen) == frame[..n];
    assert StoredCount(|frame| + 6, bufLen) == n;
  }

  lemma FramePrefix(s: seq<byte>, frame: seq<byte>, fcs: seq<byte>, n: nat)
    requires |frame| + 6 < 0x1_0000 && n <= |frame|
    requires LengthField(|frame| + 6) + frame + fcs <= s
    ensures LengthField(|frame| + 6) <= s
    ensures n + 2 <= |s| && s[2..2 + n] == frame[..n]
  {
    var all := LengthField(|frame| + 6) + frame + fcs;
    assert all[..2] == LengthField(|frame| + 6);
    assert all[2..2 + n] == frame[..n];
    assert s[..|all|] == all;
    assert s[2..2 + n] == s[..|all|][2..2 + n];
  }

  datatype Packet = Packet(words: seq<word>, frame: seq<byte>, fcs: seq<byte>)

  function Queue(ps: seq<Packet>): seq<word> {
    if ps == [] then [] else ps[0].words + Queue(ps[1..])
  }

  /** One receive returns and stores `got`, and leaves `rest`. */
  ghost predicate ReceivesOne(ws: seq<word>, bufLen: nat, got: (int, seq<byte>), rest: seq<word>) {
    && bufLen >= 2 && HoldsFrame(ws)
    && StoredCount(FrameLength(ws[0]), bufLen) + 2 <= |Stream(ws)|
    && Received(ws, bufLen) == (got.0, got.1, rest)
  }

  /** `r` is what successive receives with the given buffer lengths return and store, leaving `rest` in the FIFO. */
  ghost predicate Receives(ws: seq<word>, bufLens: seq<nat>, r: seq<(int, seq<byte>)>, rest: seq<word>)
    decreases |bufLens|
  {
    if bufLens == [] then r == [] && ws == rest
    else r != [] && exists next :: ReceivesOne(ws, bufLens[0], r[0], next) && Receives(next, bufLens[1..], r[1..], rest)
  }

  function Expected(ps: seq<Packet>, bufLens: seq<nat>): seq<(int, seq<byte>)>
    requires |ps| == |bufLens|
  {
    if ps == [] then [] else
    [Outcome(ps[0].frame, bufLens[0])] + Expected(ps[1..], bufLens[1..])
  }

  /** Any series of receives over queued packets returns the packets in order, whichever of them are truncated. */
  lemma {:induction false} PacketsReceivedInOrder(ps: seq<Packet>, bufLens: seq<nat>, rest: seq<word>)
    requires |ps| == |bufLens|
    requires forall i :: 0 <= i < |ps| ==> bufLens[i] >= 2 && Carries(ps[i].words, ps[i].frame, ps[i].fcs)
    ensures Receives(Queue(ps) + rest, bufLens, Expected(ps, bufLens), rest)
  {
    if ps == [] {
      assert Queue(ps) + rest == rest;
    } else {
      var later := Queue(ps[1..]) + rest;
      assert Queue(ps) + rest == ps[0].words + later;
      FrameReceived(ps[0].words, ps[0].frame, ps[0].fcs, later, bufLens[0]);
      PacketsReceivedInOrder(ps[1..], bufLens[1..], rest);
      assert Expected(ps, bufLens)[1..] == Expected(ps[1..], bufLens[1..]);
    }
  }

  lemma ReceivedOnce(ws: seq<word>, bufLen: nat, a: (int, seq<byte>), x: seq<word>, b: (int, seq<byte>), y: seq<word>)
    requires ReceivesOne(ws, bufLen, a, x) && ReceivesOne(ws, bufLen, b, y)
    ensures a == b && x == y
  {
  }

  lemma {:induction false} ExpectedOneMore(ps: seq<Packet>, bufLens: seq<nat>, i: nat)
    requires |ps| == |bufLens| && i < |ps|
    ensures Expected(ps[..i + 1], bufLens[..i + 1])
         == Expected(ps[..i], bufLens[..i]) + [Outcome(ps[i].frame, bufLens[i])]
  {
    if i > 0 {
      ExpectedOneMore(ps[1..], bufLens[1..], i - 1);
      RestOfFront(ps, i);
      RestOfFront(bufLens, i);
    }
  }

  lemma RestOfFront<T>(s: seq<T>, i: nat)
    requires 0 < i < |s|
    ensures s[..i + 1][1..] == s[1..][..i] && s[..i][1..] == s[1..][..i - 1]
  {
  }

  /** One receive of the series, into a buffer of its own. */
  method GetPacket(fifo: Fifo, bufLen: nat, ghost p: Packet, ghost rest: seq<word>) returns (got: (int, seq<byte>))
    requires bufLen >= 2 && Carries(p.words, p.frame, p.fcs) && fifo.words == p.words + rest
    modifies fifo
    ensures got == Outcome(p.frame, bufLen) && fifo.words == rest
  {
    FrameReceived(p.words, p.frame, p.fcs, rest, bufLen);
    ghost var ws := fifo.words;
    var buf := new byte[bufLen];
    var r := PacketGetInternal(fifo, buf, bufLen);
    ghost var stored := buf[..StoredCount(FrameLength(ws[0]), bufLen)];
    ReceivedOnce(ws, bufLen, Outcome(p.frame, bufLen), rest, (r, stored), fifo.words);
    got := (r, buf[..if r < 0 then bufLen else r]);
  }

  lemma FirstInQueue(ps: seq<Packet>, i: nat, rest: seq<word>)
    requires i < |ps|
    ensures Queue(ps[i..]) + rest == ps[i].words + (Queue(ps[i + 1..]) + rest)
  {
    assert ps[i..][1..] == ps[i + 1..];
  }

  /** A series of receives over queued packets. */
  method GetPackets(fifo: Fifo, bufLens: seq<nat>, ghost ps: seq<Packet>, ghost rest: seq<word>)
    returns (got: seq<(int, seq<byte>)>)
    requires |ps| == |bufLens| && fifo.words == Queue(ps) + rest
    requires forall i :: 0 <= i < |ps| ==> bufLens[i] >= 2 && Carries(ps[i].words, ps[i].frame, ps[i].fcs)
    modifies fifo
    ensures got == Expected(ps, bufLens) && fifo.words == rest
    ensures Receives(old(fifo.words), bufLens, got, rest)
  {
    got := [];
    EmptyQueue(ps, bufLens, rest);
    for i := 0 to |bufLens|
      invariant fifo.words == Queue(ps[i..]) + rest
      invariant got == Expected(ps[..i], bufLens[..i])
    {
      FirstInQueue(ps, i, rest);
      var one := GetPacket(fifo, bufLens[i], ps[i], Queue(ps[i + 1..]) + rest);
      ExpectedOneMore(ps, bufLens, i);
      got := got + [one];
    }
    PacketsReceivedInOrder(ps, bufLens, rest);
  }

  lemma EmptyQueue(ps: seq<Packet>, bufLens: seq<nat>, rest: seq<word>)
    requires |ps| == |bufLens|
    ensures ps[0..] == ps && Queue(ps[|ps|..]) + rest == rest
    ensures Expected(ps[..0], bufLens[..0]) == [] && ps[..|ps|] == ps && bufLens[..|bufLens|] == bufLens
  {
    assert [] + rest == rest;
  }

  // ---------------------------------------------------------------- what a transmit does

  function Zeros(n: nat): seq<byte> {
    seq(n, _ => 0)
  }

  /**
   The first word: payload length and two bytes of the frame. Below a 14-byte header the length is negative, and its
   upper half, all ones, hides the two bytes.
   */
  function FirstWord(n: nat, b0: byte, b1: byte): (s: seq<byte>)
    requires n <= 2046
    ensures |s| == 4
  {
    if n >= 14 then LengthField(n - 14) + [b0, b1] else LengthField(0x1_0000 + n - 14) + [0xff, 0xff]
  }

  /** What follows it: the rest of the frame, and zeros up to a whole word. */
  function LaterWords(frame: seq<byte>): seq<byte> {
    if |frame| <= 2 then [] else frame[2..] + Zeros((2 + 3 * |frame|) % 4)
  }

  /** The byte stream of a transmitted frame. */
  function Sent(frame: seq<byte>): seq<byte>
    requires 1 <= |frame| <= 2046
  {
    FirstWord(|frame|, frame[0], if |frame| > 1 then frame[1] else 0) + LaterWords(frame)
  }

  /** A frame with a whole header starts with itself; a shorter one only if it starts with two bytes of ones. */
  lemma SentStartsWithFrame(frame: seq<byte>)
    requires 2 <= |frame| <= 2046
    ensures Sent(frame)[2..4] == frame[..2] <==> |frame| >= 14 || frame[..2] == [0xff, 0xff]
  {
    assert Sent(frame)[2..4] == FirstWord(|frame|, frame[0], frame[1])[2..4];
    if |frame| >= 14 {
      assert FirstWord(|frame|, frame[0], frame[1])[2..4] == [frame[0], frame[1]];
      assert frame[..2] == [frame[0], frame[1]];
    } else {
      assert FirstWord(|frame|, frame[0], frame[1])[2..4] == [0xff, 0xff];
    }
  }

  lemma SentWhole(frame: seq<byte>)
    requires 14 <= |frame| <= 2046
    ensures Sent(frame) == LengthField(|frame| - 14) + frame + Zeros((2 + 3 * |frame|) % 4)
  {
    assert [frame[0], frame[1]] + frame[2..] == frame;
  }

  lemma StreamSnoc(ws: seq<word>, b: seq<byte>)
    requires |b| == 4
    ensures Stream(ws + [Join(b)]) == Stream(ws) + b
  {
    SplitJoin(b);
    assert (ws + [Join(b)])[..|ws|] == ws;
  }

  /** The remaining one to three bytes in a last word. */
  method PutTail(fifo: Fifo, buf: array<byte>, i: nat, bufLen: nat) returns (ghost w: word)
    requires i < bufLen <= i + 3 && bufLen <= buf.Length
    modifies fifo
    ensures fifo.words == old(fifo.words) + [w]
    ensures forall ws :: Stream(ws + [w]) == Stream(ws) + (buf[i..bufLen] + Zeros(4 + i - bufLen))
  {
    var tail :=
      if i == bufLen - 3 then [buf[i], buf[i + 1], buf[i + 2], 0]
      else if i == bufLen - 2 then [buf[i], buf[i + 1], 0, 0]
      else [buf[i], 0, 0, 0];
    fifo.Write(Join(tail));
    w := Join(tail);
    forall ws ensures Stream(ws + [w]) == Stream(ws) + (buf[i..bufLen] + Zeros(4 + i - bufLen)) {
      StreamSnoc(ws, tail);
      assert tail == buf[i..bufLen] + Zeros(4 + i - bufLen);
    }
  }

  method PutFirst(fifo: Fifo, buf: array<byte>, bufLen: nat) returns (ghost w: word)
    requires 2 <= buf.Length && bufLen <= 2046
    modifies fifo
    ensures fifo.words == old(fifo.words) + [w]
    ensures Stream([w]) == FirstWord(bufLen, buf[0], buf[1])
  {
    var first := FirstWord(bufLen, buf[0], buf[1]);
    fifo.Write(Join(first));
    w := Join(first);
    StreamOfOne(w);
    SplitJoin(first);
  }

  /** Writes one frame; one that is too large for the FIFO is refused untouched. */
  method PacketPutInternal(fifo: Fifo, buf: array<byte>, bufLen: int) returns (r: int, ghost ws: seq<word>)
    requires 0 < bufLen <= buf.Length && 2 <= buf.Length
    modifies fifo
    ensures bufLen > 2048 - 2 ==> r == -bufLen && ws == []
    ensures bufLen <= 2048 - 2 ==> r == bufLen && Stream(ws) == Sent(buf[..bufLen])
    ensures fifo.words == old(fifo.words) + ws
    ensures bufLen <= 2046 ==> |ws| == (if bufLen == 1 then 1 else (bufLen + 5) / 4)
    ensures bufLen <= 2046 ==> ws[0] % 0x1_0000 == if bufLen >= 14 then bufLen - 14 else 0x1_0000 + bufLen - 14
    ensures bufLen < 14 ==> ws[0] / 0x1_0000 == 0xffff
    ensures bufLen <= 2046 ==>
              forall k :: 1 <= k < |ws| || (k == 0 && bufLen >= 14) ==>
                && (k > 0 ==> ws[k] % 0x100 == if 4 * k - 2 < bufLen then buf[4 * k - 2] else 0)
                && (k > 0 ==> ws[k] / 0x100 % 0x100 == if 4 * k - 1 < bufLen then buf[4 * k - 1] else 0)
                && ws[k] / 0x1_0000 % 0x100 == (if 4 * k < bufLen then buf[4 * k] else 0)
                && ws[k] / 0x100_0000 == (if 4 * k + 1 < bufLen then buf[4 * k + 1] else 0)
  {
    ws := [];
    if bufLen > 2048 - 2 {
      return -bufLen, ws;
    }
    ws := PutFrame(fifo, buf, bufLen);
    r := bufLen;
    assert buf[..][..bufLen] == buf[..bufLen];
    SentFirst(buf[..bufLen], ws);
    SentWords(buf[..], bufLen, ws);
  }

  /** All the words of a frame that is not too large. */
  method PutFrame(fifo: Fifo, buf: array<byte>, bufLen: nat) returns (ghost ws: seq<word>)
    requires 0 < bufLen <= buf.Length && 2 <= buf.Length && bufLen <= 2046
    modifies fifo
    ensures fifo.words == old(fifo.words) + ws && Stream(ws) == Sent(buf[..bufLen])
  {
    ghost var was := fifo.words;
    ghost var first := PutFirst(fifo, buf, bufLen);
    ws := PutLater(fifo, buf, bufLen, was, first);
    assert FirstWord(bufLen, buf[0], buf[1]) == FirstWord(bufLen, buf[0], if bufLen > 1 then buf[1] else 0);
  }

  lemma SentLength(frame: seq<byte>)
    requires 1 <= |frame| <= 2046
    ensures |Sent(frame)| == 4 * if |frame| == 1 then 1 else (|frame| + 5) / 4
  {
  }

  lemma SentAt(frame: seq<byte>, j: nat)
    requires 1 <= |frame| <= 2046 && j < |Sent(frame)| && (j >= 4 || (j >= 2 && |frame| >= 14))
    ensures Sent(frame)[j] == if j - 2 < |frame| then frame[j - 2] else 0
  {
    if |frame| >= 14 {
      SentWhole(frame);
    }
  }

  /** What stands in the stream of a transmit from `from` on: the frame, and zeros behind it. */
  ghost predicate FramedFrom(s: seq<byte>, frame: seq<byte>, from: nat)
    requires from >= 2
  {
    forall j :: from <= j < |s| ==> s[j] == if j - 2 < |frame| then frame[j - 2] else 0
  }

  lemma SentIsFramed(frame: seq<byte>)
    requires 1 <= |frame| <= 2046
    ensures FramedFrom(Sent(frame), frame, if |frame| >= 14 then 2 else 4)
  {
    forall j | (if |frame| >= 14 then 2 else 4) <= j < |Sent(frame)|
      ensures Sent(frame)[j] == if j - 2 < |frame| then frame[j - 2] else 0
    {
      SentAt(frame, j);
    }
  }

  /** Place j of the stream, and the byte i of the buffer or the zero that stands there. */
  lemma FramedAt(s: seq<byte>, b: seq<byte>, n: nat, from: nat, j: nat, i: nat, v: int)
    requires n <= |b| && 2 <= from <= j < |s| && j == i + 2 && FramedFrom(s, b[..n], from) && v == s[j]
    ensures v == if i < n then b[i] else 0
  {
  }

  lemma LowestByte(b: seq<byte>, n: nat, ws: seq<word>, from: nat, k: nat, s: seq<byte>)
    requires n <= |b| && 2 <= from <= 4 && FramedFrom(s, b[..n], from) && s == Stream(ws)
    requires 1 <= k < |ws|
    ensures ws[k] % 0x100 == if 4 * k - 2 < n then b[4 * k - 2] else 0
  {
    WordBytes(ws, k);
    FramedAt(s, b, n, from, 4 * k, 4 * k - 2, ws[k] % 0x100);
  }

  lemma SecondByte(b: seq<byte>, n: nat, ws: seq<word>, from: nat, k: nat, s: seq<byte>)
    requires n <= |b| && 2 <= from <= 4 && FramedFrom(s, b[..n], from) && s == Stream(ws)
    requires 1 <= k < |ws|
    ensures ws[k] / 0x100 % 0x100 == if 4 * k - 1 < n then b[4 * k - 1] else 0
  {
    WordBytes(ws, k);
    FramedAt(s, b, n, from, 4 * k + 1, 4 * k - 1, ws[k] / 0x100 % 0x100);
  }

  lemma ThirdByte(b: seq<byte>, n: nat, ws: seq<word>, from: nat, k: nat, s: seq<byte>)
    requires n <= |b| && 2 <= from && FramedFrom(s, b[..n], from) && s == Stream(ws)
    requires k < |ws| && from <= 4 * k + 2
    ensures ws[k] / 0x1_0000 % 0x100 == if 4 * k < n then b[4 * k] else 0
  {
    WordBytes(ws, k);
    FramedAt(s, b, n, from, 4 * k + 2, 4 * k, ws[k] / 0x1_0000 % 0x100);
  }

  lemma HighestByte(b: seq<byte>, n: nat, ws: seq<word>, from: nat, k: nat, s: seq<byte>)
    requires n <= |b| && 2 <= from && FramedFrom(s, b[..n], from) && s == Stream(ws)
    requires k < |ws| && from <= 4 * k + 2
    ensures ws[k] / 0x100_0000 == if 4 * k + 1 < n then b[4 * k + 1] else 0
  {
    WordBytes(ws, k);
    FramedAt(s, b, n, from, 4 * k + 3, 4 * k + 1, ws[k] / 0x100_0000);
  }

  /** The words of a transmit, byte by byte. */
  lemma SentWords(b: seq<byte>, n: nat, ws: seq<word>)
    requires 1 <= n <= 2046 && n <= |b| && Stream(ws) == Sent(b[..n])
    ensures forall k :: 1 <= k < |ws| || (k == 0 && n >= 14 && ws != []) ==>
              && (k > 0 ==> ws[k] % 0x100 == if 4 * k - 2 < n then b[4 * k - 2] else 0)
              && (k > 0 ==> ws[k] / 0x100 % 0x100 == if 4 * k - 1 < n then b[4 * k - 1] else 0)
              && ws[k] / 0x1_0000 % 0x100 == (if 4 * k < n then b[4 * k] else 0)
              && ws[k] / 0x100_0000 == (if 4 * k + 1 < n then b[4 * k + 1] else 0)
  {
    SentIsFramed(b[..n]);
    ghost var from := if n >= 14 then 2 else 4;
    forall k | 1 <= k < |ws| || (k == 0 && n >= 14 && ws != [])
      ensures k > 0 ==> ws[k] % 0x100 == if 4 * k - 2 < n then b[4 * k - 2] else 0
      ensures k > 0 ==> ws[k] / 0x100 % 0x100 == if 4 * k - 1 < n then b[4 * k - 1] else 0
      ensures ws[k] / 0x1_0000 % 0x100 == if 4 * k < n then b[4 * k] else 0
      ensures ws[k] / 0x100_0000 == if 4 * k + 1 < n then b[4 * k + 1] else 0
    {
      if k > 0 {
        LowestByte(b, n, ws, from, k, Stream(ws));
        SecondByte(b, n, ws, from, k, Stream(ws));
      }
      ThirdByte(b, n, ws, from, k, Stream(ws));
      HighestByte(b, n, ws, from, k, Stream(ws));
    }
  }

  lemma SentStart(frame: seq<byte>, s: seq<byte>)
    requires 1 <= |frame| <= 2046 && s == Sent(frame)
    ensures |s| == 4 * if |frame| == 1 then 1 else (|frame| + 5) / 4
    ensures var n := if |frame| >= 14 then |frame| - 14 else 0x1_0000 + |frame| - 14;
            s[0] == n % 0x100 && s[1] == n / 0x100
    ensures |frame| < 14 ==> s[2] == 0xff && s[3] == 0xff
  {
    SentLength(frame);
    var first := FirstWord(|frame|, frame[0], if |frame| > 1 then frame[1] else 0);
    FirstFour(s, first, LaterWords(frame));
  }

  lemma FirstFour(s: seq<byte>, a: seq<byte>, b: seq<byte>)
    requires |a| == 4 && s == a + b
    ensures s[0] == a[0] && s[1] == a[1] && s[2] == a[2] && s[3] == a[3]
  {
  }

  /** The first word holds the length, in sixteen bits, and behind a negative one all ones. */
  lemma SentFirst(frame: seq<byte>, ws: seq<word>)
    requires 1 <= |frame| <= 2046 && Stream(ws) == Sent(frame)
    ensures |ws| == if |frame| == 1 then 1 else (|frame| + 5) / 4
    ensures ws[0] % 0x1_0000 == if |frame| >= 14 then |frame| - 14 else 0x1_0000 + |frame| - 14
    ensures |frame| < 14 ==> ws[0] / 0x1_0000 == 0xffff
  {
    SentStart(frame, Stream(ws));
    WordBytes(ws, 0);
    var s := Stream(ws);
    WordOfBytes(ws[0], s[0], s[1], s[2], s[3]);
    LengthBytes(if |frame| >= 14 then |frame| - 14 else 0x1_0000 + |frame| - 14);
  }

  lemma WordOfBytes(w: word, a: byte, b: byte, c: byte, d: byte)
    requires w % 0x100 == a && w / 0x100 % 0x100 == b && w / 0x1_0000 % 0x100 == c && w / 0x100_0000 == d
    ensures w % 0x1_0000 == a + b * 0x100 && w / 0x1_0000 == c + d * 0x100
  {
  }

  lemma LengthBytes(n: nat)
    ensures n == n % 0x100 + n / 0x100 * 0x100
  {
  }

  method PutLater(fifo: Fifo, buf: array<byte>, bufLen: nat, ghost was: seq<word>, ghost first: word)
    returns (ghost ws: seq<word>)
    requires 0 < bufLen <= buf.Length && 2 <= buf.Length && fifo.words == was + [first]
    modifies fifo
    ensures fifo.words == was + ws && Stream(ws) == Stream([first]) + LaterWords(buf[..bufLen])
  {
    var i;
    i, ws := PutWords(fifo, buf, bufLen, was, first, Stream([first]));
    LaterInParts(buf[..], bufLen, i);
    if i < bufLen {
      ghost var w := PutTail(fifo, buf, i, bufLen);
      ws := ws + [w];
    }
  }

  lemma LaterInParts(b: seq<byte>, n: nat, i: nat)
    requires n <= |b| && 2 <= i <= |b| && n <= i + 3 && i % 4 == 2 && (i == 2 || i <= n)
    ensures i >= n ==> LaterWords(b[..n]) == b[2..i]
    ensures i < n ==> LaterWords(b[..n]) == b[2..i] + (b[i..n] + Zeros(4 + i - n))
  {
    if n > 2 {
      PadLength(n, i);
      assert b[..n][2..] == b[2..i] + b[i..n];
    }
  }

  /** Whole words of the frame, while there are any. */
  method PutWords(fifo: Fifo, buf: array<byte>, bufLen: nat, ghost was: seq<word>, ghost first: word,
                  ghost head: seq<byte>)
    returns (i: nat, ghost ws: seq<word>)
    requires 0 < bufLen <= buf.Length && 2 <= buf.Length
    requires fifo.words == was + [first] && Stream([first]) == head
    modifies fifo
    ensures bufLen <= i + 3 && i % 4 == 2 && (i == 2 || i <= bufLen)
    ensures fifo.words == was + ws && Stream(ws) == head + buf[2..i]
  {
    i, ws := 2, [first];
    while i <= bufLen - 4
      invariant i % 4 == 2 && (i == 2 || i <= bufLen)
      invariant fifo.words == was + ws && Stream(ws) == head + buf[2..i]
    {
      fifo.Write(Join(buf[i..i + 4]));
      StreamSnoc(ws, buf[i..i + 4]);
      ws := ws + [Join(buf[i..i + 4])];
      assert buf[2..i + 4] == buf[2..i] + buf[i..i + 4];
      i := i + 4;
    }
  }

  lemma PadLength(n: nat, i: nat)
    requires i <= n <= i + 3 && i % 4 == 2
    ensures (2 + 3 * n) % 4 == if n == i then 0 else 4 + i - n
  {
  }

  /** The frame the controller puts on the wire for the words of a transmit: as many bytes as the length field says. */
  function OnWire(ws: seq<word>): seq<byte>
    requires ws != [] && FrameLength(ws[0]) + 16 <= |Stream(ws)|
  {
    Stream(ws)[2..FrameLength(ws[0]) + 16]
  }

  /**
   Transmit then receive: whatever words carry the transmitted frame with a check sequence at the other end, the
   receiver stores exactly the frame that was put, for every length modulo four.
   */
  lemma TransmitReceive(frame: seq<byte>, tx: seq<word>, fcs: seq<byte>, rx: seq<word>, rest: seq<word>, bufLen: nat)
    requires 14 <= |frame| <= 2046 && Stream(tx) == Sent(frame)
    ensures tx != [] && FrameLength(tx[0]) + 16 <= |Stream(tx)| && OnWire(tx) == frame
    ensures Carries(rx, OnWire(tx), fcs) && bufLen >= |frame| ==>
              ReceivesOne(rx + rest, bufLen, (|frame|, frame), rest)
  {
    SentWhole(frame);
    assert LengthField(|frame| - 14) == Sent(frame)[..2];
    LengthOfFirstWord(tx, |frame| - 14);
    assert Sent(frame)[2..2 + |frame|] == frame;
    if Carries(rx, frame, fcs) && bufLen >= |frame| {
      FrameReceived(rx, frame, fcs, rest, bufLen);
    }
  }
}
