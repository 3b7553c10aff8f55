/**
 * The sequential logic of src/interrupts.rs: the vector numbers of the
 * hardware interrupts, the keyboard handler from an already decoded key, and
 * the PS/2 mouse handler, which assembles four-byte packets and turns the
 * wheel byte into terminal scrolling.
 *
 * The programmable interrupt controllers are represented by the log of the
 * end-of-interrupt notifications they receive; the port reads that fetch the
 * scancode or the mouse byte become parameters of the handlers.
 */
module Interrupts {
  import opened Wrappers
  import opened Terminal
  import opened VgaBuffer

  /** The primary PIC's interrupts start right after the 32 CPU exception vectors. */
  const Pic1Offset: nat := 32
  const Pic2Offset: nat := Pic1Offset + 8

  datatype InterruptIndex = Timer | Keyboard | Mouse
  {
    /** `as_u8`: the discriminants are `PIC_1_OFFSET`, the next value, and `PIC_2_OFFSET + 4`. */
    function AsU8(): (v: nat)
      ensures v < 0x100
    {
      match this
      case Timer => Pic1Offset
      case Keyboard => Pic1Offset + 1
      case Mouse => Pic2Offset + 4
    }

    /** `as_usize`: the same number, widened. */
    function AsUsize(): (v: nat)
      ensures v == AsU8()
    {
      AsU8()
    }

    /** The interrupt request line of the device on the PC/AT: timer 0, keyboard 1, PS/2 mouse 12. */
    function Irq(): nat
    {
      match this
      case Timer => 0
      case Keyboard => 1
      case Mouse => 12
    }
  }

  /** The vector the chained PICs raise for request line `irq`: lines 0-7 on the primary, 8-15 on the secondary. */
  function VectorOfIrq(irq: nat): (v: nat)
    requires irq < 16
    ensures Pic1Offset <= v < Pic2Offset + 8
  {
    if irq < 8 then Pic1Offset + irq else Pic2Offset + (irq - 8)
  }

  /**
   * The vector layout: timer 32, keyboard 33, mouse 44, each the vector the
   * chained PICs raise for the device's request line, none of them among
   * the 32 exception vectors, and no two alike.
   */
  lemma VectorLayout(i: InterruptIndex, j: InterruptIndex)
    ensures Timer.AsU8() == 32 && Keyboard.AsU8() == 33 && Mouse.AsU8() == 44
    ensures i.Irq() < 16 && i.AsUsize() == VectorOfIrq(i.Irq())
    ensures 32 <= i.AsU8()
    ensures i != j ==> i.AsU8() != j.AsU8()
  {
  }

  /** The controllers, as the sequence of end-of-interrupt notifications sent to them. */
  class ChainedPics {
    var acknowledged: seq<nat>

    constructor ()
      ensures acknowledged == []
    {
      acknowledged := [];
    }

    /** `notify_end_of_interrupt`: the write to the command ports is recorded, not performed. */
    method NotifyEndOfInterrupt(vector: nat)
      modifies this
      ensures acknowledged == old(acknowledged) + [vector]
    {
      acknowledged := acknowledged + [vector];
    }
  }

  /** `timer_interrupt_handler`: nothing but the acknowledgement. */
  method TimerInterrupt(pics: ChainedPics)
    modifies pics
    ensures pics.acknowledged == old(pics.acknowledged) + [Timer.AsU8()]
  {
    pics.NotifyEndOfInterrupt(Timer.AsU8());
  }

  // ---------------------------------------------------------------------------
  // Keyboard

  /** The non-character keys the handler looks at; every other key is `OtherKey`. */
  datatype KeyCode = ArrowUp | ArrowDown | ArrowLeft | ArrowRight | Backspace | OtherKey

  datatype DecodedKey = Unicode(ch: char) | RawKey(code: KeyCode)

  /** `ENTER_PRESSED`, `UP_PRESSED`, `DOWN_PRESSED`, `LEFT_PRESSED`, `RIGHT_PRESSED`. */
  datatype KeyFlags = KeyFlags(enter: bool, up: bool, down: bool, left: bool, right: bool)

  class InputFlags {
    var enter: bool
    var up: bool
    var down: bool
    var left: bool
    var right: bool

    constructor ()
      ensures Value() == KeyFlags(false, false, false, false, false)
    {
      enter, up, down, left, right := false, false, false, false, false;
    }

    function Value(): KeyFlags
      reads this
    {
      KeyFlags(enter, up, down, left, right)
    }
  }

  /** `c as u8`: the low eight bits of the code point. */
  function CharByte(c: char): (b: bv8)
    ensures (c as int) < 0x100 ==> b == (c as int) as bv8
  {
    ((c as int) % 0x100) as bv8
  }

  /** What the keyboard handler does to the terminal for a decoded key, or for a scancode that completed none. */
  function KeyWriter(t: WriterState, key: Option<DecodedKey>): (r: WriterState)
    requires WellFormed(t)
    ensures WellFormed(r)
    ensures key.None? ==> r == t
    ensures r.color == t.color
  {
    match key
    case None => t
    case Some(Unicode(c)) =>
      if c == '\U{0008}' then Terminal.Backspace(t)
      else if c == '\n' || c == '\r' then Terminal.WriteByte(t, Newline)
      else Terminal.WriteByte(t, CharByte(c))
    case Some(RawKey(k)) =>
      if k == Backspace then Terminal.Backspace(t) else t
  }

  /**
   * What the keyboard handler does to the flags: Enter or carriage return
   * raises `enter` and the up and down arrows raise `up` and `down`; flags
   * are only ever raised, and the left and right arrows are never recorded.
   */
  function KeyFlagsAfter(f: KeyFlags, key: Option<DecodedKey>): (r: KeyFlags)
    ensures key == Some(Unicode('\n')) || key == Some(Unicode('\r')) ==> r.enter
    ensures key == Some(RawKey(ArrowUp)) ==> r.up
    ensures key == Some(RawKey(ArrowDown)) ==> r.down
    ensures key.None? ==> r == f
    ensures (f.enter ==> r.enter) && (f.up ==> r.up) && (f.down ==> r.down)
    ensures r.left == f.left && r.right == f.right
  {
    match key
    case Some(Unicode(c)) => if c == '\n' || c == '\r' then f.(enter := true) else f
    case Some(RawKey(ArrowUp)) => f.(up := true)
    case Some(RawKey(ArrowDown)) => f.(down := true)
    case _ => f
  }

  /**
   * Each key raises at most the flag that names it: Enter or carriage
   * return `enter`, the arrows `up` and `down`.
   */
  lemma KeyFlagsRaised(f: KeyFlags, key: Option<DecodedKey>)
    ensures var r := KeyFlagsAfter(f, key);
      && (r.enter != f.enter ==> key == Some(Unicode('\n')) || key == Some(Unicode('\r')))
      && (r.up != f.up ==> key == Some(RawKey(ArrowUp)))
      && (r.down != f.down ==> key == Some(RawKey(ArrowDown)))
  {
  }

  /**
   * Keys that reach the terminal: the backspace character and the raw
   * Backspace key both erase, Enter and carriage return both start a new
   * line with a newline echoed, and the raw keys other than Backspace leave
   * the terminal as it is.
   */
  lemma KeyWriterCases(t: WriterState, k: KeyCode)
    requires WellFormed(t)
    ensures KeyWriter(t, Some(Unicode('\U{0008}'))) == Terminal.Backspace(t)
    ensures KeyWriter(t, Some(RawKey(Backspace))) == Terminal.Backspace(t)
    ensures KeyWriter(t, Some(Unicode('\n'))) == Terminal.WriteByte(t, Newline)
    ensures KeyWriter(t, Some(Unicode('\r'))) == KeyWriter(t, Some(Unicode('\n')))
    ensures KeyWriter(t, Some(Unicode('\n'))).echo == PushByte(t.echo, Newline)
    ensures k != Backspace ==> KeyWriter(t, Some(RawKey(k))) == t
  {
  }

  /** A printable ASCII character is stored at the cursor in the current colour and echoed as itself. */
  lemma TypedCharacterEchoed(t: WriterState, c: char)
    requires WellFormed(t) && 0x20 <= c as int <= 0x7e
    ensures Printable(CharByte(c))
    ensures var r := KeyWriter(t, Some(Unicode(c)));
      && r.echo == PushByte(t.echo, CharByte(c))
      && r.rows[r.writeRow][r.column - 1] == Cell(CharByte(c), t.color)
  {
    var b := CharByte(c);
    assert Printable(b);
    assert KeyWriter(t, Some(Unicode(c))) == Terminal.WriteByte(t, b);
  }

  /**
   * `keyboard_interrupt_handler` from the decoded key on: at most one
   * terminal operation, the flags, and always the keyboard acknowledgement.
   */
  method KeyboardInterrupt(key: Option<DecodedKey>, w: Writer, flags: InputFlags, pics: ChainedPics)
    requires w.Valid()
    modifies w.Repr(), flags, pics
    ensures w.Valid() && w.View() == KeyWriter(old(w.View()), key)
    ensures flags.Value() == KeyFlagsAfter(old(flags.Value()), key)
    ensures pics.acknowledged == old(pics.acknowledged) + [Keyboard.AsU8()]
  {
    HandleKey(key, w, flags);
    pics.NotifyEndOfInterrupt(Keyboard.AsU8());
  }

  /** The match on the decoded key in the keyboard handler. */
  method HandleKey(key: Option<DecodedKey>, w: Writer, flags: InputFlags)
    requires w.Valid()
    modifies w.Repr(), flags
    ensures w.Valid() && w.View() == KeyWriter(old(w.View()), key)
    ensures flags.Value() == KeyFlagsAfter(old(flags.Value()), key)
  {
    match key {
      case None =>
      case Some(Unicode(c)) => TypeCharacter(c, w, flags);
      case Some(RawKey(k)) => PressRawKey(k, w, flags);
    }
  }

  /** The `DecodedKey::Unicode` arm of the keyboard handler. */
  method TypeCharacter(c: char, w: Writer, flags: InputFlags)
    requires w.Valid()
    modifies w.Repr(), flags
    ensures w.Valid() && w.View() == KeyWriter(old(w.View()), Some(Unicode(c)))
    ensures flags.Value() == KeyFlagsAfter(old(flags.Value()), Some(Unicode(c)))
  {
    if c == '\U{0008}' {
      w.Backspace();
    } else if c == '\n' || c == '\r' {
      PressEnter(w, flags);
    } else {
      w.WriteByte(CharByte(c));
    }
  }

  /** Enter or carriage return: a newline through `write_byte`, and the `enter` flag raised. */
  method PressEnter(w: Writer, flags: InputFlags)
    requires w.Valid()
    modifies w.Repr(), flags
    ensures w.Valid() && w.View() == Terminal.WriteByte(old(w.View()), Newline)
    ensures flags.Value() == old(flags.Value()).(enter := true)
  {
    w.WriteByte(Newline);
    flags.enter := true;
  }

  /** The `DecodedKey::RawKey` arm of the keyboard handler. */
  method PressRawKey(k: KeyCode, w: Writer, flags: InputFlags)
    requires w.Valid()
    modifies w.Repr(), flags
    ensures w.Valid() && w.View() == KeyWriter(old(w.View()), Some(RawKey(k)))
    ensures flags.Value() == KeyFlagsAfter(old(flags.Value()), Some(RawKey(k)))
  {
    if k == ArrowUp {
      flags.up := true;
    } else if k == ArrowDown {
      flags.down := true;
    } else if k == Backspace {
      w.Backspace();
    }
  }

  // ---------------------------------------------------------------------------
  // Mouse

  /** `MOUSE_PACKET` and `MOUSE_PACKET_INDEX` as values. */
  datatype MouseState = MouseState(packet: seq<bv8>, index: nat)

  predicate ValidMouse(m: MouseState)
  {
    |m.packet| == 4 && m.index < 4
  }

  /**
   * One byte through the mouse handler: at index 0 a byte without the
   * always-one bit 3 is taken for a byte out of step and dropped; otherwise
   * it is stored at the index, and the fourth byte completes the packet and
   * starts the next one.
   */
  function MouseStep(m: MouseState, data: bv8): (r: MouseState)
    requires ValidMouse(m)
    ensures ValidMouse(r)
  {
    if m.index == 0 && data & 0x08 == 0 then m
    else
      var packet := m.packet[m.index := data];
      if m.index + 1 == 4 then MouseState(packet, 0) else MouseState(packet, m.index + 1)
  }

  /** Several bytes through the handler, in order. */
  function MouseSteps(m: MouseState, data: seq<bv8>): (r: MouseState)
    requires ValidMouse(m)
    ensures ValidMouse(r)
    decreases |data|
  {
    if data == [] then m else MouseSteps(MouseStep(m, data[0]), data[1..])
  }

  /** A byte is dropped exactly when it arrives at index 0 with bit 3 clear; otherwise the index moves on by one, modulo 4. */
  lemma MouseStepIndex(m: MouseState, data: bv8)
    requires ValidMouse(m)
    ensures MouseStep(m, data) == m <==> m.index == 0 && data & 0x08 == 0
    ensures !(m.index == 0 && data & 0x08 == 0) ==>
      MouseStep(m, data).index == (m.index + 1) % 4 && MouseStep(m, data).packet[m.index] == data
  {
    if !(m.index == 0 && data & 0x08 == 0) {
      assert MouseStep(m, data).index != m.index;
    }
  }

  /** Bytes that arrive between packets without bit 3 are all discarded. */
  lemma {:induction false} MouseResync(m: MouseState, data: seq<bv8>)
    requires ValidMouse(m) && m.index == 0
    requires forall i | 0 <= i < |data| :: data[i] & 0x08 == 0
    ensures MouseSteps(m, data) == m
    decreases |data|
  {
    if data != [] {
      MouseResync(m, data[1..]);
    }
  }

  /** From the start of a packet, four bytes of which the first has bit 3 set make up the next packet, in order. */
  lemma MousePacketAssembled(m: MouseState, data: seq<bv8>)
    requires ValidMouse(m) && m.index == 0
    requires |data| == 4 && data[0] & 0x08 != 0
    ensures MouseSteps(m, data) == MouseState(data, 0)
  {
    var m1 := MouseStep(m, data[0]);
    var m2 := MouseStep(m1, data[1]);
    var m3 := MouseStep(m2, data[2]);
    var m4 := MouseStep(m3, data[3]);
    assert m1.index == 1 && m2.index == 2 && m3.index == 3 && m4.index == 0;
    assert m4.packet == data;
    calc {
      MouseSteps(m, data);
      MouseSteps(m1, data[1..]);
      { assert data[1..][0] == data[1] && data[1..][1..] == data[2..]; }
      MouseSteps(m2, data[2..]);
      { assert data[2..][0] == data[2] && data[2..][1..] == data[3..]; }
      MouseSteps(m3, data[3..]);
      { assert data[3..][0] == data[3] && data[3..][1..] == []; }
      MouseSteps(m4, []);
    }
  }

  /** `packet[3] as i8`: the wheel movement in two's complement. */
  function AsI8(b: bv8): (v: int)
    ensures -0x80 <= v < 0x80
    ensures v % 0x100 == b as int
  {
    if b < 0x80 then b as int else b as int - 0x100
  }

  /** The wheel movement of a completed packet: -1 scrolls up and advances the write row, 1 scrolls down and retracts it, anything else does nothing. */
  function WheelScroll(t: WriterState, wheel: int): (r: WriterState)
    requires WellFormed(t)
    ensures WellFormed(r)
    ensures wheel == -1 ==> r.writeRow == t.writeRow + 1
    ensures wheel == 1 ==> r.writeRow == t.writeRow - 1
    ensures wheel != -1 && wheel != 1 ==> r == t
    ensures r.column == t.column && r.color == t.color && r.echo == t.echo
  {
    if wheel == -1 then ScrollUpAndAdvance(t)
    else if wheel == 1 then ScrollDownAndRetract(t)
    else t
  }

  /** Only the bytes 0xff and 0x01 move the terminal, by exactly one row, in opposite directions. */
  lemma WheelBytes(t: WriterState, b: bv8)
    requires WellFormed(t)
    ensures b == 0xff ==> WheelScroll(t, AsI8(b)) == ScrollUpAndAdvance(t)
    ensures b == 0x01 ==> WheelScroll(t, AsI8(b)) == ScrollDownAndRetract(t)
    ensures b != 0xff && b != 0x01 ==> WheelScroll(t, AsI8(b)) == t
    ensures WheelScroll(t, AsI8(b)).writeRow == t.writeRow - AsI8(b) || WheelScroll(t, AsI8(b)) == t
  {
  }

  class MouseDriver {
    /** `MOUSE_PACKET`. */
    const packet: array<bv8>
    /** `MOUSE_PACKET_INDEX`. */
    var index: nat

    ghost predicate Valid()
      reads this
    {
      packet.Length == 4 && index < 4
    }

    ghost function State(): MouseState
      reads this, packet
    {
      MouseState(packet[..], index)
    }

    constructor ()
      ensures Valid() && fresh(packet) && State() == MouseState([0, 0, 0, 0], 0)
    {
      packet := new bv8[4](_ => 0);
      index := 0;
      new;
      assert packet[..] == [0, 0, 0, 0];
    }

    /**
     * `mouse_interrupt_handler` from the port read on: the packet state
     * moves by `MouseStep`, a completed packet scrolls by its wheel byte,
     * and every path ends with exactly one acknowledgement of vector 44.
     */
    method Interrupt(data: bv8, w: Writer, pics: ChainedPics)
      requires Valid() && w.Valid()
      modifies this, packet, w.Repr(), pics
      ensures Valid() && w.Valid()
      ensures State() == MouseStep(old(State()), data)
      ensures old(index) == 3 ==> w.View() == WheelScroll(old(w.View()), AsI8(packet[3]))
      ensures old(index) != 3 ==> w.View() == old(w.View())
      ensures pics.acknowledged == old(pics.acknowledged) + [Mouse.AsU8()]
    {
      if index == 0 {
        if data & 0x08 == 0 {
          index := 0;
          pics.NotifyEndOfInterrupt(Mouse.AsU8());
          return;
        }
      }
      packet[index] := data;
      index := index + 1;
      if index == 4 {
        Scroll(AsI8(packet[3]), w);
        index := 0;
      }
      pics.NotifyEndOfInterrupt(Mouse.AsU8());
    }
  }

  /** The `match wheel` of the mouse handler. */
  method Scroll(wheel: int, w: Writer)
    requires w.Valid()
    modifies w, w.grid, w.up, w.down
    ensures w.Valid() && w.View() == WheelScroll(old(w.View()), wheel)
  {
    if wheel == -1 {
      w.ScrollUp();
      w.PlusWriteRow();
    } else if wheel == 1 {
      w.ScrollDown();
      w.MinusWriteRow();
    }
  }
}
