/**
 The console terminal mailbox: one word of KS10 memory in each direction, shared by the console and the KS10. Every
 step below is one bus transaction, and steps of the two sides interleave freely.
 */
module CtyMailbox {
  import opened Bytes

  const CTY_VALID: nat := 0x100

  type word = x: int | 0 <= x < 0x10_0000_0000

  predicate IsValid(w: word) {
    w / CTY_VALID % 2 == 1
  }

  function Char(w: word): byte {
    w % 0x100
  }

  /** `cty_valid | ch`. */
  function Full(ch: byte): word {
    CTY_VALID + ch
  }

  /** Where the console is: between calls, or between the read and the write of one; `since` is the step that read. */
  datatype Console = Idle | Putting(ch: byte, seen: word, since: nat) | Getting(seen: word)

  /** Where the KS10's input service is: a character read but its slot not yet cleared. */
  datatype Input = Waiting | Taken(ch: byte)

  /** Where the KS10's output service is: the slot seen clear, the character not yet stored. */
  datatype Output = Ready | Storing(ch: byte)

  /** What became of a character handed to `putchar`, and the step at which it looked at the slot. */
  datatype Fate = Fate(ch: byte, accepted: bool, since: nat)

  datatype State = State(
    time: nat,
    ctyIn: word, ctyOut: word,
    console: Console, input: Input, output: Output,
    offered: seq<Fate>, consumed: seq<byte>,
    produced: seq<byte>, returned: seq<byte>)

  datatype Step =
    | PutRead(arg: int) // putchar: readMem(ctyin)
    | PutWrite          // putchar: test, then writeMem(ctyin) or nothing
    | GetRead           // getchar: readMem(ctyout)
    | GetWrite          // getchar: test, then writeMem(ctyout, 0) or return -1
    | TakeIn            // KS10: reads ctyin
    | ClearIn           // KS10: clears ctyin
    | CheckOut(ch: byte) // KS10: reads ctyout
    | StoreOut          // KS10: stores ctyout

  function Initial(): State {
    State(0, 0, 0, Idle, Waiting, Ready, [], [], [], [])
  }

  function Take(s: State, step: Step): State {
    Act(s, step).(time := s.time + 1)
  }

  /** One step; a step that its side cannot take where it is does nothing. */
  function Act(s: State, step: Step): State {
    match step
    case PutRead(arg) =>
      if s.console == Idle then s.(console := Putting(arg % 0x100, s.ctyIn, s.time)) else s
    case PutWrite =>
      if !s.console.Putting? then s
      else
        var free := !IsValid(s.console.seen);
        s.(console := Idle,
           ctyIn := if free then Full(s.console.ch) else s.ctyIn,
           offered := s.offered + [Fate(s.console.ch, free, s.console.since)])
    case GetRead =>
      if s.console == Idle then s.(console := Getting(s.ctyOut)) else s
    case GetWrite =>
      if !s.console.Getting? then s
      else if IsValid(s.console.seen) then
        s.(console := Idle, ctyOut := 0, returned := s.returned + [s.console.seen % 0x80])
      else s.(console := Idle)
    case TakeIn =>
      if s.input == Waiting && IsValid(s.ctyIn) then
        s.(input := Taken(Char(s.ctyIn)), consumed := s.consumed + [Char(s.ctyIn)])
      else s
    case ClearIn =>
      if s.input.Taken? then s.(input := Waiting, ctyIn := 0) else s
    case CheckOut(ch) =>
      if s.output == Ready && !IsValid(s.ctyOut) then s.(output := Storing(ch)) else s
    case StoreOut =>
      if s.output.Storing? then
        s.(output := Ready, ctyOut := Full(s.output.ch), produced := s.produced + [s.output.ch])
      else s
  }

  function Run(steps: seq<Step>): State {
    if steps == [] then Initial() else Take(Run(steps[..|steps| - 1]), steps[|steps| - 1])
  }

  /** The characters that `putchar` stored, in the order of the calls. */
  function Accepted(offered: seq<Fate>): seq<byte> {
    if offered == [] then [] else
    var last := offered[|offered| - 1];
    Accepted(offered[..|offered| - 1]) + if last.accepted then [last.ch] else []
  }

  /** Seven-bit characters. */
  function Strip(s: seq<byte>): seq<byte> {
    seq(|s|, i requires 0 <= i < |s| => s[i] % 0x80)
  }

  /** A stored character that the KS10 has not taken yet. */
  function InFlight(s: State): seq<byte> {
    if IsValid(s.ctyIn) && s.input == Waiting then [Char(s.ctyIn)] else []
  }

  /** A character from the KS10 that `getchar` has not returned yet. */
  function OutFlight(s: State): seq<byte> {
    if IsValid(s.ctyOut) then [Char(s.ctyOut)] else []
  }

  ghost predicate InSafe(s: State) {
    && Accepted(s.offered) == s.consumed + InFlight(s)
    && (s.input.Taken? ==> IsValid(s.ctyIn))
    && (s.console.Putting? && !IsValid(s.console.seen) ==> !IsValid(s.ctyIn))
  }

  ghost predicate OutSafe(s: State) {
    && Strip(s.produced) == s.returned + Strip(OutFlight(s))
    && (s.console.Getting? && IsValid(s.console.seen) ==> s.ctyOut == s.console.seen)
    && (s.output.Storing? ==> !IsValid(s.ctyOut))
  }

  lemma FullFields(ch: byte)
    ensures IsValid(Full(ch)) && Char(Full(ch)) == ch
    ensures !IsValid(0)
  {
  }

  lemma StripSnoc(s: seq<byte>, ch: byte)
    ensures Strip(s + [ch]) == Strip(s) + [ch % 0x80]
  {
  }

  lemma CharStrip(w: word)
    ensures w % 0x80 == Char(w) % 0x80
  {
  }

  lemma AcceptedSnoc(offered: seq<Fate>, fate: Fate)
    ensures Accepted(offered + [fate]) == Accepted(offered) + if fate.accepted then [fate.ch] else []
  {
    assert (offered + [fate])[..|offered|] == offered;
  }

  lemma InStep(s: State, step: Step)
    requires InSafe(s)
    ensures InSafe(Take(s, step))
  {
    if step.PutWrite? && s.console.Putting? {
      FullFields(s.console.ch);
      AcceptedSnoc(s.offered, Fate(s.console.ch, !IsValid(s.console.seen), s.console.since));
    }
    FullFields(0);
  }

  lemma OutStep(s: State, step: Step)
    requires OutSafe(s)
    ensures OutSafe(Take(s, step))
  {
    FullFields(0);
    if step.StoreOut? && s.output.Storing? {
      FullFields(s.output.ch);
      StripSnoc(s.produced, s.output.ch);
      StripSnoc([], s.output.ch);
      assert [] + [s.output.ch] == [s.output.ch];
    }
    if step.GetWrite? && s.console.Getting? && IsValid(s.console.seen) {
      CharStrip(s.console.seen);
      StripSnoc([], Char(s.ctyOut));
      assert [] + [Char(s.ctyOut)] == [Char(s.ctyOut)];
    }
  }

  /**
   Over every interleaving: what the KS10 takes in is what `putchar` accepted, in order, with at most one character
   still in the slot; and what `getchar` returns is what the KS10 put out, in order and to seven bits, with at most one
   still in its slot.
   */
  lemma {:induction false} MailboxIsSafe(steps: seq<Step>)
    ensures var s := Run(steps);
            && InSafe(s) && OutSafe(s)
            && s.consumed <= Accepted(s.offered) && |Accepted(s.offered)| <= |s.consumed| + 1
            && s.returned <= Strip(s.produced) && |s.produced| <= |s.returned| + 1
  {
    if steps == [] {
      FullFields(0);
    } else {
      MailboxIsSafe(steps[..|steps| - 1]);
      InStep(Run(steps[..|steps| - 1]), steps[|steps| - 1]);
      OutStep(Run(steps[..|steps| - 1]), steps[|steps| - 1]);
    }
  }

  /** Step k of the run is a call of `putchar` with `ch` that looks at the slot. */
  predicate Looks(steps: seq<Step>, k: nat, ch: byte) {
    && k < |steps| && steps[k].PutRead? && steps[k].arg % 0x100 == ch
    && Run(steps[..k]).console == Idle
  }

  /** What the slot held when step k looked. */
  function SlotAt(steps: seq<Step>, k: nat): word
    requires k <= |steps|
  {
    Run(steps[..k]).ctyIn
  }

  /** The calls answered so far are calls of the run, in order, each answered by what the slot held at its look. */
  ghost predicate Answered(steps: seq<Step>, s: State) {
    && (s.console.Putting? ==>
          && Looks(steps, s.console.since, s.console.ch) && s.console.seen == SlotAt(steps, s.console.since))
    && (forall i :: 0 <= i < |s.offered| ==>
          && Looks(steps, s.offered[i].since, s.offered[i].ch)
          && (s.offered[i].accepted <==> !IsValid(SlotAt(steps, s.offered[i].since))))
    && (forall i, j :: 0 <= i < j < |s.offered| ==> s.offered[i].since < s.offered[j].since)
    && (forall i :: 0 <= i < |s.offered| && s.console.Putting? ==> s.offered[i].since < s.console.since)
  }

  lemma LooksEarlier(steps: seq<Step>, step: Step, k: nat, ch: byte)
    requires Looks(steps, k, ch)
    ensures Looks(steps + [step], k, ch) && SlotAt(steps + [step], k) == SlotAt(steps, k)
  {
    assert (steps + [step])[..k] == steps[..k];
  }

  lemma StillAnswered(steps: seq<Step>, step: Step, s: State)
    requires Answered(steps, s)
    ensures Answered(steps + [step], s)
  {
    if s.console.Putting? {
      LooksEarlier(steps, step, s.console.since, s.console.ch);
    }
    forall i | 0 <= i < |s.offered|
      ensures Looks(steps + [step], s.offered[i].since, s.offered[i].ch)
      ensures SlotAt(steps + [step], s.offered[i].since) == SlotAt(steps, s.offered[i].since)
    {
      LooksEarlier(steps, step, s.offered[i].since, s.offered[i].ch);
    }
  }

  lemma LookedNow(steps: seq<Step>, arg: int, s: State)
    requires s == Run(steps) && s.console == Idle
    ensures Looks(steps + [PutRead(arg)], |steps|, arg % 0x100)
    ensures SlotAt(steps + [PutRead(arg)], |steps|) == s.ctyIn
  {
    assert (steps + [PutRead(arg)])[..|steps|] == steps;
  }

  lemma AnswersKept(all: seq<Step>, s: State, t: State)
    requires Answered(all, s) && t.offered == s.offered && (t.console == s.console || !t.console.Putting?)
    ensures Answered(all, t)
  {
  }

  lemma CallBegun(all: seq<Step>, s: State, t: State, since: nat, ch: byte)
    requires Answered(all, s) && t.offered == s.offered && Looks(all, since, ch)
    requires t.console == Putting(ch, SlotAt(all, since), since)
    requires forall i :: 0 <= i < |s.offered| ==> s.offered[i].since < since
    ensures Answered(all, t)
  {
  }

  lemma CallEnded(all: seq<Step>, s: State, t: State)
    requires Answered(all, s) && s.console.Putting? && t.console == Idle
    requires t.offered == s.offered + [Fate(s.console.ch, !IsValid(s.console.seen), s.console.since)]
    ensures Answered(all, t)
  {
  }

  /** Steps that neither begin nor end a call of `putchar`. */
  lemma OtherStep(s: State, step: Step)
    requires !(step.PutRead? && s.console == Idle) && !(step.PutWrite? && s.console.Putting?)
    ensures var t := Take(s, step);
            t.offered == s.offered && (t.console == s.console || !t.console.Putting?)
  {
  }

  lemma BeginStep(s: State, arg: int)
    requires s.console == Idle
    ensures Take(s, PutRead(arg)).offered == s.offered
    ensures Take(s, PutRead(arg)).console == Putting(arg % 0x100, s.ctyIn, s.time)
  {
  }

  lemma EndStep(s: State)
    requires s.console.Putting?
    ensures Take(s, PutWrite).console == Idle
    ensures Take(s, PutWrite).offered == s.offered + [Fate(s.console.ch, !IsValid(s.console.seen), s.console.since)]
  {
  }

  lemma LaterThanAll(steps: seq<Step>, s: State)
    requires Answered(steps, s)
    ensures forall i :: 0 <= i < |s.offered| ==> s.offered[i].since < |steps|
  {
  }

  lemma NowAnswered(steps: seq<Step>, step: Step, s: State, t: State)
    requires s == Run(steps) && s.time == |steps| && Answered(steps, s) && t == Take(s, step)
    ensures Answered(steps + [step], t)
  {
    var all := steps + [step];
    StillAnswered(steps, step, s);
    if step.PutRead? && s.console == Idle {
      LookedNow(steps, step.arg, s);
      BeginStep(s, step.arg);
      LaterThanAll(steps, s);
      CallBegun(all, s, t, |steps|, step.arg % 0x100);
    } else if step.PutWrite? && s.console.Putting? {
      EndStep(s);
      CallEnded(all, s, t);
    } else {
      OtherStep(s, step);
      AnswersKept(all, s, t);
    }
  }

  /**
   Over every interleaving: each character handed to `putchar` was accepted exactly when the slot was clear at the bus
   transaction with which that very call looked at it, and refused exactly when it was full then.
   */
  lemma {:induction false} RefusedOnlyWhenFull(steps: seq<Step>)
    ensures Run(steps).time == |steps| && Answered(steps, Run(steps))
  {
    if steps != [] {
      var front, last := steps[..|steps| - 1], steps[|steps| - 1];
      RefusedOnlyWhenFull(front);
      assert front + [last] == steps;
      NowAnswered(front, last, Run(front), Run(steps));
    }
  }

  /** The look of step k has been answered, or its call is still between its two transactions. */
  ghost predicate HasAnswer(s: State, k: nat) {
    || (s.console.Putting? && s.console.since == k)
    || exists i :: 0 <= i < |s.offered| && s.offered[i].since == k
  }

  lemma AnswerKept(s: State, step: Step, k: nat)
    requires HasAnswer(s, k)
    ensures HasAnswer(Take(s, step), k)
  {
    if step.PutRead? && s.console == Idle {
      BeginStep(s, step.arg);
    } else if step.PutWrite? && s.console.Putting? {
      EndStep(s);
      var t := Take(s, step);
      if s.console.since == k {
        assert t.offered[|s.offered|].since == k;
      } else {
        var i :| 0 <= i < |s.offered| && s.offered[i].since == k;
        assert t.offered[i].since == k;
      }
    } else {
      OtherStep(s, step);
    }
  }

  /** The calls' second transactions, from what their first one read, and the KS10's: each written out. */
  lemma Transactions(s: State)
    ensures s.console.Putting? ==>
              var t := Take(s, PutWrite);
              && t.console == Idle
              && t.ctyIn == if s.console.seen / 0x100 % 2 == 1 then s.ctyIn else 0x100 + s.console.ch
    ensures s.console.Getting? ==>
              var t, full := Take(s, GetWrite), s.console.seen / 0x100 % 2 == 1;
              && t.console == Idle && t.ctyOut == (if full then 0 else s.ctyOut)
              && t.returned == s.returned + if full then [s.console.seen % 0x80] else []
    ensures s.console == Idle ==> Take(s, GetRead).console == Getting(s.ctyOut)
    ensures s.input == Waiting && s.ctyIn / 0x100 % 2 == 1 ==>
              var t := Take(s, TakeIn);
              t.input.Taken? && t.consumed == s.consumed + [s.ctyIn % 0x100] && Take(t, ClearIn).ctyIn == 0
    ensures forall ch: byte :: s.output == Ready && s.ctyOut / 0x100 % 2 == 0 ==>
              var t := Take(s, CheckOut(ch));
              && t.output == Storing(ch) && Take(t, StoreOut).ctyOut == 0x100 + ch
              && Take(t, StoreOut).produced == s.produced + [ch]
  {
  }

  /** And no call goes unanswered: with `RefusedOnlyWhenFull`, looks and answers correspond one to one. */
  lemma {:induction false} EveryCallAnswered(steps: seq<Step>, k: nat, ch: byte)
    requires Looks(steps, k, ch)
    ensures HasAnswer(Run(steps), k)
  {
    var front, last := steps[..|steps| - 1], steps[|steps| - 1];
    if k == |front| {
      RefusedOnlyWhenFull(front);
      BeginStep(Run(front), last.arg);
    } else {
      assert steps[..k] == front[..k];
      EveryCallAnswered(front, k, ch);
      AnswerKept(Run(front), last, k);
    }
  }

  /** A full slot holds an accepted character that the KS10 has not cleared: it is in flight or just being taken. */
  lemma FullMeansOccupied(steps: seq<Step>)
    ensures var s := Run(steps);
            IsValid(s.ctyIn) <==> InFlight(s) != [] || s.input.Taken?
  {
    MailboxIsSafe(steps);
  }

  // ---------------------------------------------------------------- the calls, when nothing comes in between

  /** A call of `putchar` that nothing comes in between. */
  lemma PutInARow(s: State, ch: int)
    requires s.console == Idle && s.offered == []
    ensures var t := Take(Take(s, PutRead(ch)), PutWrite);
            && t.ctyIn == (if IsValid(s.ctyIn) then s.ctyIn else Full(ch % 0x100))
            && |Accepted(t.offered)| == if IsValid(s.ctyIn) then 0 else 1
  {
    BeginStep(s, ch);
    EndStep(Take(s, PutRead(ch)));
    AcceptedSnoc([], Fate(ch % 0x100, !IsValid(s.ctyIn), s.time));
  }

  class Memory {
    var ctyIn: word
    var ctyOut: word
    var interrupts: nat

    ghost function Idling(): State
      reads this
    {
      Initial().(ctyIn := ctyIn, ctyOut := ctyOut)
    }

    /** Stores the low eight bits and interrupts the KS10, unless the slot is full. */
    method PutChar(ch: int)
      modifies this
      ensures var s := Take(Take(old(Idling()), PutRead(ch)), PutWrite);
              && ctyIn == s.ctyIn && ctyOut == old(ctyOut)
              && interrupts == old(interrupts) + |Accepted(s.offered)|
      ensures if old(ctyIn) / 0x100 % 2 == 1 then ctyIn == old(ctyIn) && interrupts == old(interrupts)
              else ctyIn == 0x100 + ch % 0x100 && interrupts == old(interrupts) + 1
    {
      PutInARow(Idling(), ch);
      var seen := ctyIn;
      if !IsValid(seen) {
        ctyIn := Full(ch % 0x100);
        interrupts := interrupts + 1;
      }
    }

    /** The character in the slot, to seven bits, or -1 when there is none. */
    method GetChar() returns (r: int)
      modifies this
      ensures var s := Take(Take(old(Idling()), GetRead), GetWrite);
              && ctyOut == s.ctyOut && ctyIn == old(ctyIn) && interrupts == old(interrupts)
              && r == if s.returned == [] then -1 else s.returned[0]
      ensures if old(ctyOut) / 0x100 % 2 == 1 then r == old(ctyOut) % 0x80 && ctyOut == 0
              else r == -1 && ctyOut == old(ctyOut)
    {
      var seen := ctyOut;
      if IsValid(seen) {
        ctyOut := 0;
        return seen % 0x80;
      }
      return -1;
    }
  }
}
