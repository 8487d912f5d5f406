/** The `.SAV` image loader: 5-byte groups to 36-bit words, and `-n,,a-1` records to memory. */
module SavLoader {
  import opened Bytes

  const HALF: int := 0x4_0000
  const SIGN: int := 0x2_0000
  const OP_JRST: int := 0x1_5800

  type word36 = x: int | 0 <= x < 0x10_0000_0000
  type address = x: int | 0 <= x < HALF

  // ---------------------------------------------------------------- words in the file

  /** Seven bits from each byte, and the last bit of the word from the top of the fifth byte. */
  function RdWord(b: seq<byte>): word36
    requires |b| == 5
  {
    (b[0] as int % 0x80) * 0x2000_0000 + (b[1] as int % 0x80) * 0x40_0000 + (b[2] as int % 0x80) * 0x8000
    + (b[3] as int % 0x80) * 0x100 + (b[4] as int % 0x80) * 2 + b[4] as int / 0x80
  }

  /** The group of bytes that the ANSI-ASCII mode of the tape format uses for a word. */
  function Group(w: word36): (b: seq<byte>)
    ensures |b| == 5
  {
    [w / 0x2000_0000, w / 0x40_0000 % 0x80, w / 0x8000 % 0x80, w / 0x100 % 0x80, w / 2 % 0x80 + w % 2 * 0x80]
  }

  predicate Canonical(b: seq<byte>) {
    |b| == 5 && b[0] < 0x80 && b[1] < 0x80 && b[2] < 0x80 && b[3] < 0x80
  }

  /** A word as base-128 digits over its last bit. */
  lemma RdWordDigits(b: seq<byte>)
    requires Canonical(b)
    ensures RdWord(b) == ((((b[0] as int * 0x80 + b[1]) * 0x80 + b[2]) * 0x80 + b[3]) * 0x80 + b[4] % 0x80) * 2
                         + b[4] / 0x80
  {
    assert b[0] % 0x80 == b[0] && b[1] % 0x80 == b[1];
    assert b[2] % 0x80 == b[2] && b[3] % 0x80 == b[3];
  }

  /** The top bits of the first four bytes are not looked at. */
  lemma HighBitsIgnored(b: seq<byte>)
    requires |b| == 5
    ensures RdWord(b) == RdWord([b[0] % 0x80, b[1] % 0x80, b[2] % 0x80, b[3] % 0x80, b[4]])
  {
    MaskedTwice(b[0]);
    MaskedTwice(b[1]);
    MaskedTwice(b[2]);
    MaskedTwice(b[3]);
  }

  lemma MaskedTwice(a: byte)
    ensures a % 0x80 % 0x80 == a % 0x80
  {
  }

  lemma NestedQuotients(w: int)
    requires w >= 0
    ensures w / 0x100 == w / 2 / 0x80 && w / 0x8000 == w / 0x100 / 0x80
    ensures w / 0x40_0000 == w / 0x8000 / 0x80 && w / 0x2000_0000 == w / 0x40_0000 / 0x80
  {
    assert w / 0x100 == w / 2 / 0x80;
    assert w / 0x8000 == w / 0x100 / 0x80;
    assert w / 0x40_0000 == w / 0x8000 / 0x80;
    assert w / 0x2000_0000 == w / 0x40_0000 / 0x80;
  }

  lemma HornerDigits(w: int, q4: int, q3: int, q2: int, q1: int, q0: int)
    requires w >= 0 && q4 == w / 2 && q3 == q4 / 0x80 && q2 == q3 / 0x80 && q1 == q2 / 0x80 && q0 == q1 / 0x80
    ensures w == ((((q0 * 0x80 + q1 % 0x80) * 0x80 + q2 % 0x80) * 0x80 + q3 % 0x80) * 0x80 + q4 % 0x80) * 2 + w % 2
  {
    assert q1 == q0 * 0x80 + q1 % 0x80;
    assert q2 == q1 * 0x80 + q2 % 0x80;
    assert q3 == q2 * 0x80 + q3 % 0x80;
    assert q4 == q3 * 0x80 + q4 % 0x80;
    assert w == q4 * 2 + w % 2;
  }

  lemma LastByte(low: int, bit: int)
    requires 0 <= low < 0x80 && 0 <= bit < 2
    ensures (low + bit * 0x80) % 0x80 == low && (low + bit * 0x80) / 0x80 == bit
  {
  }

  /** Canonical groups and words correspond one to one. */
  lemma GroupRoundTrip(w: word36)
    ensures Canonical(Group(w)) && RdWord(Group(w)) == w
  {
    NestedQuotients(w);
    HornerDigits(w, w / 2, w / 0x100, w / 0x8000, w / 0x40_0000, w / 0x2000_0000);
    LastByte(w / 2 % 0x80, w % 2);
    RdWordDigits(Group(w));
  }

  lemma DigitOut(q: int, d: int)
    requires 0 <= d < 0x80
    ensures (q * 0x80 + d) / 0x80 == q && (q * 0x80 + d) % 0x80 == d
  {
  }

  lemma WordRoundTrip(b: seq<byte>)
    requires Canonical(b)
    ensures Group(RdWord(b)) == b
  {
    var w := RdWord(b);
    RdWordDigits(b);
    NestedQuotients(w);
    var q0: int := b[0];
    var q1 := q0 * 0x80 + b[1];
    var q2 := q1 * 0x80 + b[2];
    var q3 := q2 * 0x80 + b[3];
    var q4 := q3 * 0x80 + b[4] % 0x80;
    assert w / 2 == q4 && w % 2 == b[4] / 0x80;
    DigitOut(q3, b[4] % 0x80);
    DigitOut(q2, b[3]);
    DigitOut(q1, b[2]);
    DigitOut(q0, b[1]);
  }

  /** The words of a file; bytes after the last whole group are not read. */
  function Words(f: seq<byte>): seq<word36> {
    if |f| < 5 then [] else [RdWord(f[..5])] + Words(f[5..])
  }

  function Groups(ws: seq<word36>): seq<byte> {
    if ws == [] then [] else Group(ws[0]) + Groups(ws[1..])
  }

  lemma {:induction false} WordsOfGroups(ws: seq<word36>)
    ensures Words(Groups(ws)) == ws
  {
    if ws != [] {
      GroupRoundTrip(ws[0]);
      assert Groups(ws)[..5] == Group(ws[0]) && Groups(ws)[5..] == Groups(ws[1..]);
      WordsOfGroups(ws[1..]);
    }
  }

  // ---------------------------------------------------------------- records and images

  function Lh(w: word36): address {
    w / HALF
  }

  function Rh(w: word36): address {
    w % HALF
  }

  /** `(a + 1) & 0777777`. */
  function Next(a: address): address {
    if a == HALF - 1 then 0 else a + 1
  }

  function Previous(a: address): address {
    if a == 0 then HALF - 1 else a - 1
  }

  datatype Segment = Segment(start: address, data: seq<word36>)

  datatype Image = Truncated | Image(segments: seq<Segment>, last: word36)

  /** Splits the words of a file into records; the first word whose sign bit is clear ends the image. */
  function Parse(ws: seq<word36>): Image {
    if ws == [] then Truncated
    else if Lh(ws[0]) < SIGN then Image([], ws[0])
    else
      var n := HALF - Lh(ws[0]);
      if |ws| < n + 1 then Truncated else
      match Parse(ws[n + 1..])
      case Truncated => Truncated
      case Image(segments, last) => Image([Segment(Next(Rh(ws[0])), ws[1..n + 1])] + segments, last)
  }

  predicate Encodable(s: Segment) {
    1 <= |s.data| <= SIGN
  }

  /** A record: minus the count and the address before the first, then the data. */
  function Record(s: Segment): seq<word36>
    requires Encodable(s)
  {
    [(HALF - |s.data|) * HALF + Previous(s.start)] + s.data
  }

  function Records(segments: seq<Segment>): seq<word36>
    requires forall i :: 0 <= i < |segments| ==> Encodable(segments[i])
  {
    if segments == [] then [] else Record(segments[0]) + Records(segments[1..])
  }

  lemma HeaderFields(n: int, a: address)
    requires 1 <= n <= SIGN
    ensures var w := (HALF - n) * HALF + a;
            0 <= w < 0x10_0000_0000 && Lh(w) == HALF - n && Rh(w) == a
  {
  }

  /** Every list of segments written out as records, then any word whose sign bit is clear, is read back as it was. */
  lemma {:induction false} RecordsParse(segments: seq<Segment>, later: seq<word36>)
    requires forall i :: 0 <= i < |segments| ==> Encodable(segments[i])
    requires later != [] && Lh(later[0]) < SIGN
    ensures Parse(Records(segments) + later) == Image(segments, later[0])
  {
    if segments == [] {
      assert Records(segments) + later == later;
    } else {
      RecordsParse(segments[1..], later);
      RecordParses(segments[0], Records(segments[1..]) + later);
      assert Records(segments) + later == Record(segments[0]) + (Records(segments[1..]) + later);
      assert [segments[0]] + segments[1..] == segments;
    }
  }

  lemma RecordParses(s: Segment, later: seq<word36>)
    requires Encodable(s) && Parse(later).Image?
    ensures Parse(Record(s) + later) == Image([s] + Parse(later).segments, Parse(later).last)
  {
    var ws, n := Record(s) + later, |s.data|;
    HeaderFields(n, Previous(s.start));
    assert ws[0] == Record(s)[0];
    assert ws[1..n + 1] == s.data && ws[n + 1..] == later;
  }

  // ---------------------------------------------------------------- the memory afterwards

  /** Consecutive stores from an address on, wrapping after the last virtual address. */
  function StoreWords(mem: map<int, word36>, a: address, data: seq<word36>): map<int, word36>
    decreases |data|
  {
    if data == [] then mem else StoreWords(mem[a := data[0]], Next(a), data[1..])
  }

  function Overlay(mem: map<int, word36>, segments: seq<Segment>): map<int, word36>
    decreases |segments|
  {
    if segments == [] then mem else
    Overlay(StoreWords(mem, segments[0].start, segments[0].data), segments[1..])
  }

  /** How far into a segment an address lies, counting around the address space. */
  function Offset(s: Segment, x: address): (k: nat)
    ensures k < 0x4_0000 && (s.start + k) % 0x4_0000 == x
  {
    if x >= s.start then x - s.start else x - s.start + HALF
  }

  predicate Covers(s: Segment, x: address) {
    Offset(s, x) < |s.data|
  }

  lemma {:induction false} StoreWordsAt(mem: map<int, word36>, s: Segment, x: address)
    requires |s.data| <= HALF
    ensures var m := StoreWords(mem, s.start, s.data);
            if Covers(s, x) then x in m && m[x] == s.data[Offset(s, x)]
            else (x in m <==> x in mem) && (x in mem ==> m[x] == mem[x])
    decreases |s.data|
  {
    if s.data != [] {
      StoreWordsAt(mem[s.start := s.data[0]], Segment(Next(s.start), s.data[1..]), x);
    }
  }

  lemma {:induction false} StoreWordsOutside(mem: map<int, word36>, a: address, data: seq<word36>, x: int)
    requires !(0 <= x < HALF)
    ensures var m := StoreWords(mem, a, data);
            (x in m <==> x in mem) && (x in mem ==> m[x] == mem[x])
    decreases |data|
  {
    if data != [] {
      StoreWordsOutside(mem[a := data[0]], Next(a), data[1..], x);
    }
  }

  /** An address that no segment covers, inside the address space or not, keeps its contents. */
  lemma {:induction false} OverlayElsewhere(mem: map<int, word36>, segments: seq<Segment>, x: int)
    requires forall i :: 0 <= i < |segments| ==> Encodable(segments[i]) && (0 <= x < HALF ==> !Covers(segments[i], x))
    ensures var m := Overlay(mem, segments);
            (x in m <==> x in mem) && (x in mem ==> m[x] == mem[x])
    decreases |segments|
  {
    if segments != [] {
      var s := segments[0];
      if 0 <= x < HALF {
        StoreWordsAt(mem, s, x);
      } else {
        StoreWordsOutside(mem, s.start, s.data, x);
      }
      OverlayElsewhere(StoreWords(mem, s.start, s.data), segments[1..], x);
    }
  }

  /** An address holds the word of the last segment that covers it. */
  lemma {:induction false} OverlayAt(mem: map<int, word36>, segments: seq<Segment>, x: address, k: nat)
    requires forall i :: 0 <= i < |segments| ==> Encodable(segments[i])
    requires k < |segments| && Covers(segments[k], x)
    requires forall i :: k < i < |segments| ==> !Covers(segments[i], x)
    ensures x in Overlay(mem, segments)
    ensures Overlay(mem, segments)[x] == segments[k].data[Offset(segments[k], x)]
    decreases |segments|
  {
    var s := segments[0];
    var mem' := StoreWords(mem, s.start, s.data);
    if k == 0 {
      StoreWordsAt(mem, s, x);
      OverlayElsewhere(mem', segments[1..], x);
    } else {
      OverlayAt(mem', segments[1..], x, k - 1);
    }
  }

  // ---------------------------------------------------------------- the loader

  class File {
    /** What has not been read yet. */
    var rest: seq<byte>

    method GetData() returns (w: word36)
      requires Words(rest) != []
      modifies this
      ensures w == Words(old(rest))[0] && Words(rest) == Words(old(rest))[1..]
    {
      w := RdWord(rest[..5]);
      rest := rest[5..];
    }
  }

  class Ks10 {
    var mem: map<int, word36>
    var cir: word36

    method WriteMem(addr: address, data: word36)
      modifies this`mem
      ensures mem == old(mem)[addr := data]
    {
      mem := mem[addr := data];
    }
  }

  lemma ModShift(a: int, q: int)
    ensures (a + q * HALF) % HALF == a % HALF
  {
  }

  lemma NextIs(header: word36, k: nat)
    requires k < HALF
    ensures (Next(Rh(header)) as int + k) % HALF == (header as int + 1 + k) % HALF
  {
    var q: int, r: int := header / HALF, Rh(header);
    assert header + 1 + k == (r + 1 + k) + q * HALF;
    ModShift(r + 1 + k, q);
    if r == HALF - 1 {
      ModShift(k, 1);
    }
  }

  lemma OffsetIs(s: Segment, x: address, k: nat)
    requires k < HALF && (s.start as int + k) % HALF == x
    ensures Offset(s, x) == k
  {
  }

  lemma OffsetFrom(header: word36, s: Segment, x: address)
    requires s.start == Next(Rh(header))
    ensures Offset(s, x) == (x as int - header as int - 1) % HALF
  {
    var q: int, r: int := header / HALF, Rh(header);
    assert x - header - 1 == (x - r - 1) + (-q) * HALF;
    ModShift(x - r - 1, -q);
    assert Offset(s, x) == if x >= r + 1 then x - r - 1 else x - r - 1 + HALF;
  }

  predicate Has(mem: map<int, word36>, x: int, w: word36) {
    x in mem && mem[x] == w
  }

  /** The words of a record, from the address after the one in its header on. */
  lemma StoredInOrder(mem: map<int, word36>, header: word36, data: seq<word36>)
    requires |data| <= HALF
    ensures var m := StoreWords(mem, Next(Rh(header)), data);
            forall k :: 0 <= k < |data| ==> Has(m, (header as int + 1 + k) % HALF, data[k])
  {
    var s := Segment(Next(Rh(header)), data);
    var m := StoreWords(mem, s.start, data);
    forall k | 0 <= k < |data| ensures Has(m, (header as int + 1 + k) % HALF, data[k]) {
      var x := (header as int + 1 + k) % HALF;
      NextIs(header, k);
      OffsetIs(s, x, k);
      StoreWordsAt(mem, s, x);
    }
  }

  /** Nothing else changes. */
  lemma StoredNowhereElse(mem: map<int, word36>, header: word36, data: seq<word36>)
    requires |data| <= HALF
    ensures var m := StoreWords(mem, Next(Rh(header)), data);
            forall x :: x in mem && (x < 0 || x >= HALF || (x - header as int - 1) % HALF >= |data|) ==>
              x in m && m[x] == mem[x]
  {
    var s := Segment(Next(Rh(header)), data);
    var m := StoreWords(mem, s.start, data);
    forall x | x in mem && (x < 0 || x >= HALF || (x - header as int - 1) % HALF >= |data|)
      ensures x in m && m[x] == mem[x]
    {
      if 0 <= x < HALF {
        OffsetFrom(header, s, x);
        StoreWordsAt(mem, s, x);
      } else {
        StoreWordsOutside(mem, s.start, data, x);
      }
    }
  }

  /** One record: stores its words at successive addresses. */
  method ReadRecord(fp: File, ks10: Ks10, header: word36)
    requires Lh(header) >= SIGN && |Words(fp.rest)| >= HALF - Lh(header)
    modifies fp, ks10`mem
    ensures var n := HALF - Lh(header);
            var ws := old(Words(fp.rest));
            && Words(fp.rest) == ws[n..]
            && ks10.mem == StoreWords(old(ks10.mem), Next(Rh(header)), ws[..n])
    ensures var n, ws := 0x4_0000 - header / 0x4_0000, old(Words(fp.rest));
            forall k :: 0 <= k < n ==> Has(ks10.mem, (header as int + 1 + k) % 0x4_0000, ws[k])
    ensures var n := 0x4_0000 - header / 0x4_0000;
            forall x :: x in old(ks10.mem) && (x < 0 || x >= 0x4_0000 || (x - header as int - 1) % 0x4_0000 >= n) ==>
              x in ks10.mem && ks10.mem[x] == old(ks10.mem)[x]
  {
    var words: int, addr := Lh(header), Rh(header);
    ghost var ws, k, n := Words(fp.rest), 0, HALF - Lh(header);
    ghost var all := StoreWords(ks10.mem, Next(addr), ws[..n]);
    assert ws[0..n] == ws[..n];
    while words >= SIGN
      invariant 0 <= k <= n <= |ws| && words == if k == n then 0 else HALF - (n - k)
      invariant 0 <= addr < HALF
      invariant Words(fp.rest) == ws[k..]
      invariant StoreWords(ks10.mem, Next(addr), ws[k..n]) == all
      decreases n - k
    {
      var data36 := fp.GetData();
      addr := Next(addr);
      assert ws[k..n][1..] == ws[k + 1..n];
      ks10.WriteMem(addr, data36);
      words := Next(words);
      k := k + 1;
    }
    StoredInOrder(old(ks10.mem), header, ws[..n]);
    StoredNowhereElse(old(ks10.mem), header, ws[..n]);
    assert forall k :: 0 <= k < n ==> ws[..n][k] == ws[k];
  }

  /**
   Loads an image that is not truncated: memory gets the segments in order, and the console instruction register gets
   the final word exactly when that is a JRST.
   */
  method LoadCode(fp: File, ks10: Ks10)
    requires Parse(Words(fp.rest)).Image?
    modifies fp, ks10
    ensures var image := old(Parse(Words(fp.rest)));
            && ks10.mem == Overlay(old(ks10.mem), image.segments)
            && ks10.cir == if image.last / 0x4_0000 == 0x1_5800 then image.last else old(ks10.cir)
  {
    ghost var image := Parse(Words(fp.rest));
    ghost var all := Overlay(ks10.mem, image.segments);
    while true
      invariant ks10.cir == old(ks10.cir)
      invariant Parse(Words(fp.rest)).Image? && Parse(Words(fp.rest)).last == image.last
      invariant Overlay(ks10.mem, Parse(Words(fp.rest)).segments) == all
      decreases |Words(fp.rest)|
    {
      ghost var ws := Words(fp.rest);
      var data36 := fp.GetData();
      if Lh(data36) < SIGN {
        if Lh(data36) == OP_JRST {
          ks10.cir := data36;
        }
        return;
      }
      ghost var n := HALF - Lh(data36);
      assert ws[1..][..n] == ws[1..n + 1] && ws[1..][n..] == ws[n + 1..];
      ghost var segments := Parse(ws).segments;
      assert segments[1..] == Parse(ws[n + 1..]).segments;
      ReadRecord(fp, ks10, data36);
    }
  }

  /** What a record is written as: minus the count, and the address before the first, in halves of 18 bits. */
  lemma RecordHeader(s: Segment)
    requires 1 <= |s.data| <= 0x2_0000
    ensures Record(s)[0] == (0x4_0000 - |s.data|) * 0x4_0000 + (s.start + 0x3_ffff) % 0x4_0000
    ensures Record(s)[1..] == s.data
  {
  }

  /** From bytes to memory: a file that holds the groups of an encoded image parses as that image. */
  lemma ImageFileParses(segments: seq<Segment>, later: seq<word36>)
    requires forall i :: 0 <= i < |segments| ==> 1 <= |segments[i].data| <= 0x2_0000
    requires later != [] && later[0] < 0x8_0000_0000
    ensures forall i :: 0 <= i < |segments| ==> Encodable(segments[i])
    ensures Parse(Words(Groups(Records(segments) + later))) == Image(segments, later[0])
  {
    WordsOfGroups(Records(segments) + later);
    RecordsParse(segments, later);
  }
}
