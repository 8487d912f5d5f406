/** The serial line to the terminal, and the cursor that tracks where the terminal's cursor is. */
module CursorControl {
  import opened Bytes
  import opened Numerals
  import opened Terminal

  const PROMPT: Text := [0x4b, 0x53, 0x31, 0x30, 0x3e, 0x20]

  /** Unsigned 8-bit arithmetic, which wraps. */
  function Add8(a: byte, b: byte): (r: byte)
    ensures r == (a as int + b as int) % 0x100
  {
    if a + b < 256 then a + b else a + b - 256
  }

  function Sub8(a: byte, b: byte): (r: byte)
    ensures r == (a as int - b as int) % 0x100
  {
    if a >= b then a - b else a - b + 256
  }

  /** The console's serial port with the terminal at its far end. */
  class Uart {
    var screen: Screen

    ghost predicate Ready()
      reads this
    {
      WellFormed(screen) && screen.mode == Ground
    }

    constructor (screen: Screen)
      ensures this.screen == screen
    {
      this.screen := screen;
    }

    method PutUart(b: byte)
      requires WellFormed(screen)
      modifies this
      ensures screen == Receive(old(screen), b)
    {
      screen := Receive(screen, b);
    }

    /** `putchar`: a newline is sent as carriage return and line feed. */
    method PutChar(ch: byte)
      requires WellFormed(screen)
      modifies this
      ensures screen == if ch == LF then Receive(Receive(old(screen), CR), LF) else Receive(old(screen), ch)
    {
      if ch == LF {
        PutUart(CR);
      }
      PutUart(ch);
    }

    method Print(s: Text)
      requires WellFormed(screen) && LF !in s
      modifies this
      ensures screen == ReceiveAll(old(screen), s)
    {
      for i := 0 to |s|
        invariant WellFormed(screen)
        invariant screen == ReceiveAll(old(screen), s[..i])
      {
        ReceiveSnoc(old(screen), s[..i], s[i]);
        assert s[..i + 1] == s[..i] + [s[i]];
        PutChar(s[i]);
      }
      assert s[..|s|] == s;
    }

    /** Sends a control sequence with a decimal parameter. */
    method PrintControl(n: byte, final: byte)
      requires Ready() && final != LF
      modifies this
      ensures screen == Receive(old(screen).(mode := Csi(n)), final)
    {
      DecimalNumeral(n);
      ControlReceived(screen, n, final);
      Print(Control(n, final));
    }

    method PrintPlainControl(final: byte)
      requires Ready() && final != LF
      modifies this
      ensures screen == Receive(old(screen).(mode := Csi(0)), final)
    {
      PlainControlReceived(screen, final);
      Print([ESC, 0x5b, final]);
    }
  }

  /** The tracked cursor: its position in the line, and the sequences that keep the terminal in step. */
  class Cursor {
    const uart: Uart
    var curpos: byte
    var cursav: byte

    constructor (uart: Uart)
      ensures this.uart == uart && curpos == 0
    {
      this.uart := uart;
      curpos := 0;
      cursav := 0;
    }

    method Fwd(offset: byte)
      requires uart.Ready()
      modifies this`curpos, uart
      ensures uart.Ready()
      ensures curpos == Add8(old(curpos), offset)
      ensures uart.screen == if offset != 0 then CursorForward(old(uart.screen), offset) else old(uart.screen)
    {
      if offset != 0 {
        curpos := Add8(curpos, offset);
        uart.PrintControl(offset, 0x43);
      }
    }

    method Back(offset: byte)
      requires uart.Ready()
      modifies this`curpos, uart
      ensures uart.Ready()
      ensures curpos == Sub8(old(curpos), offset)
      ensures uart.screen == if offset != 0 then CursorBack(old(uart.screen), offset) else old(uart.screen)
    {
      if offset != 0 {
        curpos := Sub8(curpos, offset);
        uart.PrintControl(offset, 0x44);
      }
    }

    /** Back past the left margin, then forward over the prompt to the wanted place, counted in eight bits. */
    method Move(pos: byte)
      requires uart.Ready()
      modifies this`curpos, uart
      ensures uart.Ready()
      ensures curpos == pos
      ensures var left, offset := CursorBack(old(uart.screen), 99), Add8(6, pos);
              uart.screen == if offset != 0 then CursorForward(left, offset) else left
    {
      Back(99);
      Fwd(Add8(|PROMPT|, pos));
      curpos := pos;
    }

    method EraseEol()
      requires uart.Ready()
      modifies uart
      ensures uart.Ready()
      ensures uart.screen == EraseInLine(old(uart.screen), 0)
    {
      uart.PrintPlainControl(0x4b);
    }

    method Save()
      requires uart.Ready()
      modifies this`cursav, uart
      ensures uart.Ready()
      ensures cursav == curpos
      ensures uart.screen == old(uart.screen).(saved := old(uart.screen).col)
    {
      cursav := curpos;
      uart.PrintPlainControl(0x73);
    }

    method Restore()
      requires uart.Ready()
      modifies this`curpos, uart
      ensures uart.Ready()
      ensures curpos == cursav
      ensures uart.screen == old(uart.screen).(col := old(uart.screen).saved)
    {
      curpos := cursav;
      uart.PrintPlainControl(0x75);
    }

    method PutChar(ch: byte)
      requires uart.Ready()
      modifies this`curpos, uart
      ensures WellFormed(uart.screen) && (ch != ESC ==> uart.Ready())
      ensures curpos == if ch == BEL then old(curpos) else if ch == BS then Sub8(old(curpos), 1)
                        else if ch == LF then 0 else Add8(old(curpos), 1)
      ensures var t := old(uart.screen);
              uart.screen == if ch == LF then Receive(Receive(t, CR), LF) else Receive(t, ch)
    {
      uart.PutChar(ch);
      match ch {
        case 0x07 =>
        case 0x08 => curpos := Sub8(curpos, 1);
        case 0x0a => curpos := 0;
        case _ => curpos := Add8(curpos, 1);
      }
    }
  }
}
