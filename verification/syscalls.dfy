/**
 * The system-call layer of src/syscalls.rs: the dispatcher, the `write`
 * call that feeds a user buffer to the terminal byte by byte, and the
 * values `init_syscall` programs into the SYSCALL model-specific registers.
 *
 * The caller's buffer is the byte sequence found at its address; the
 * trampoline and the `syscall` instruction wrapper are not modelled.
 */
module Syscalls {
  import opened Terminal
  import opened VgaBuffer

  const SyscallWrite: nat := 1

  const Ia32Lstar: nat := 0xC000_0082
  const Ia32Star: nat := 0xC000_0081
  const Ia32Fmask: nat := 0xC000_0084

  // ---------------------------------------------------------------------------
  // sys_write as a function of the terminal state

  /** One byte of `sys_write`: a newline goes straight to `new_line`, other bytes through `write_byte`, non-printable ones as 0xfe. */
  function SysWriteByte(t: WriterState, b: bv8): (r: WriterState)
    requires WellFormed(t)
    ensures WellFormed(r)
    ensures r.color == t.color
  {
    if Printable(b) || b == Newline then
      (if b == Newline then Terminal.NewLine(t) else Terminal.WriteByte(t, b))
    else
      Terminal.WriteByte(t, Substitute)
  }

  /** The bytes of `s` in order through `SysWriteByte`. */
  function SysWrite(t: WriterState, s: seq<bv8>): (r: WriterState)
    requires WellFormed(t)
    ensures WellFormed(r)
    ensures r.color == t.color
    decreases |s|
  {
    if s == [] then t else SysWriteByte(SysWrite(t, s[..|s| - 1]), s[|s| - 1])
  }

  /** The glyphs `sys_write` echoes: every byte but the newlines, non-printable ones as 0xfe. */
  function EchoedGlyphs(s: seq<bv8>): (g: seq<bv8>)
    ensures |g| <= |s|
    ensures forall i | 0 <= i < |g| :: Printable(g[i]) || g[i] == Substitute
    decreases |s|
  {
    if s == [] then []
    else if s[|s| - 1] == Newline then EchoedGlyphs(s[..|s| - 1])
    else EchoedGlyphs(s[..|s| - 1]) + [Glyph(s[|s| - 1])]
  }

  /**
   * Without newlines, `sys_write` and `write_string` agree: both send every
   * printable byte as itself and every other byte as 0xfe through
   * `write_byte`.
   */
  lemma {:induction false} SysWriteIsWriteString(t: WriterState, s: seq<bv8>)
    requires WellFormed(t) && Newline !in s
    ensures SysWrite(t, s) == WriteString(t, s)
    decreases |s|
  {
    if s != [] {
      var p := s[..|s| - 1];
      assert Newline !in p by {
        forall i | 0 <= i < |p| ensures p[i] != Newline { assert p[i] == s[i]; }
      }
      SysWriteIsWriteString(t, p);
      var b := s[|s| - 1];
      assert b in s;
      if !Printable(b) && b != Substitute {
        WriteGlyphIsWriteByte(WriteString(t, p), b);
      }
    }
  }

  /**
   * A newline in `sys_write` differs from one in `write_string`: it is not
   * echoed and the write row is not clamped first.
   */
  lemma SysWriteNewline(t: WriterState)
    requires WellFormed(t)
    ensures SysWrite(t, [Newline]) == Terminal.NewLine(t)
    ensures SysWrite(t, [Newline]).echo == t.echo
    ensures WriteString(t, [Newline]).echo == PushByte(t.echo, Newline)
  {
    assert [Newline][..0] == [];
  }

  /** The first `InputBufferSize` bytes of `all`, or all of them if fewer. */
  function Capped(all: seq<bv8>): (r: seq<bv8>)
    ensures |r| <= InputBufferSize
  {
    all[..Min(InputBufferSize, |all|)]
  }

  /**
   * What `sys_write` leaves in the echo buffer: the old contents followed
   * by the echoed glyphs, cut off at the 100-byte capacity.
   */
  lemma {:induction false} SysWriteEcho(t: WriterState, s: seq<bv8>)
    requires WellFormed(t)
    ensures SysWrite(t, s).echo == Capped(t.echo + EchoedGlyphs(s))
    decreases |s|
  {
    if s == [] {
      assert t.echo + [] == t.echo;
    } else {
      var p := s[..|s| - 1];
      var b := s[|s| - 1];
      SysWriteEcho(t, p);
      var before := SysWrite(t, p);
      assert SysWrite(t, s) == SysWriteByte(before, b);
      var g := EchoedGlyphs(p);
      if b == Newline {
        assert EchoedGlyphs(s) == g;
        assert SysWriteByte(before, b).echo == before.echo;
      } else {
        var glyph := Glyph(b);
        assert EchoedGlyphs(s) == g + [glyph];
        assert SysWriteByte(before, b).echo == PushByte(before.echo, glyph) by {
          if !Printable(b) { assert glyph == Substitute; }
        }
        var all := t.echo + g;
        PushOntoCapped(all, glyph);
        assert t.echo + (g + [glyph]) == all + [glyph];
      }
    }
  }

  /** Pushing onto a buffer cut off at capacity is cutting off the longer sequence. */
  lemma PushOntoCapped(all: seq<bv8>, b: bv8)
    ensures PushByte(Capped(all), b) == Capped(all + [b])
  {
    assert (all + [b])[..|all|] == all;
    if |all| < InputBufferSize {
      assert (all + [b])[..|all| + 1] == all + [b];
    } else {
      assert (all + [b])[..InputBufferSize] == all[..InputBufferSize];
    }
  }

  // ---------------------------------------------------------------------------
  // The calls

  /**
   * `sys_write`: the `len` bytes at the caller's buffer, in order, one
   * `Writer` call each; the result is always `len`. The file descriptor is
   * ignored.
   */
  method SysWriteCall(fd: nat, buffer: seq<bv8>, len: nat, w: Writer) returns (written: nat)
    requires w.Valid() && len <= |buffer|
    modifies w.Repr()
    ensures w.Valid() && w.View() == SysWrite(old(w.View()), buffer[..len])
    ensures written == len
  {
    var slice := buffer[..len];
    for i := 0 to |slice|
      invariant w.Valid()
      invariant w.View() == SysWrite(old(w.View()), slice[..i])
    {
      WriteOneByte(slice[i], w);
      assert slice[..i + 1][..i] == slice[..i];
    }
    assert slice[..|slice|] == slice;
    written := len;
  }

  /** The body of the loop in `sys_write`. */
  method WriteOneByte(b: bv8, w: Writer)
    requires w.Valid()
    modifies w.Repr()
    ensures w.Valid() && w.View() == SysWriteByte(old(w.View()), b)
  {
    if Printable(b) || b == Newline {
      if b == Newline {
        w.NewLine();
      } else {
        w.WriteByte(b);
      }
    } else {
      w.WriteByte(Substitute);
    }
  }

  /**
   * `syscall_dispatcher`: number 1 is `sys_write` on the first three
   * arguments, every other number returns 0 and does nothing.
   */
  method SyscallDispatcher(number: nat, arg1: nat, buffer: seq<bv8>, arg3: nat, w: Writer) returns (result: nat)
    requires w.Valid()
    requires number == SyscallWrite ==> arg3 <= |buffer|
    modifies w.Repr()
    ensures w.Valid()
    ensures number == SyscallWrite ==> result == arg3 && w.View() == SysWrite(old(w.View()), buffer[..arg3])
    ensures number != SyscallWrite ==> result == 0 && w.View() == old(w.View())
  {
    if number == SyscallWrite {
      result := SysWriteCall(arg1, buffer, arg3, w);
    } else {
      result := 0;
    }
  }

  // ---------------------------------------------------------------------------
  // init_syscall

  /** `(0x08 << 32) | (0x10 << 48)`: 0x08 in bits 47:32 and 0x10 in bits 63:48. */
  function StarValue(): (v: bv64)
    ensures v == 0x0010_0008_0000_0000
  {
    (0x08 as bv64 << 32) | (0x10 as bv64 << 48)
  }

  /** The selector `syscall` loads into CS (bits 47:32 of STAR); SS is the next descriptor. */
  function SyscallSelector(star: bv64): bv64 { (star >> 32) & 0xffff }

  /** The base selector `sysret` uses (bits 63:48 of STAR): 64-bit CS is base + 16, SS is base + 8. */
  function SysretSelector(star: bv64): bv64 { star >> 48 }

  /**
   * The STAR value selects the kernel code segment 0x08 (and stack segment
   * 0x10) on `syscall`, and base 0x10 on `sysret`, which makes the user
   * code segment 0x20 and the user stack segment 0x18; the low 32 bits,
   * unused in long mode, are zero.
   */
  lemma StarLayout()
    ensures SyscallSelector(StarValue()) == 0x08 && SyscallSelector(StarValue()) + 8 == 0x10
    ensures SysretSelector(StarValue()) == 0x10
    ensures SysretSelector(StarValue()) + 16 == 0x20 && SysretSelector(StarValue()) + 8 == 0x18
    ensures StarValue() & 0xffff_ffff == 0
  {
  }

  /** The model-specific registers, as the values written to them. */
  class ModelSpecificRegisters {
    var values: map<nat, bv64>

    constructor ()
      ensures values == map[]
    {
      values := map[];
    }

    /** `Msr::write`. */
    method Write(register: nat, value: bv64)
      modifies this
      ensures values == old(values)[register := value]
    {
      values := values[register := value];
    }
  }

  /**
   * `init_syscall`: LSTAR receives the entry point, STAR the segment
   * selectors and FMASK zero, so no RFLAGS bit is cleared on entry.
   */
  method InitSyscall(msrs: ModelSpecificRegisters, entry: bv64)
    modifies msrs
    ensures msrs.values == old(msrs.values)[Ia32Lstar := entry][Ia32Star := StarValue()][Ia32Fmask := 0]
  {
    msrs.Write(Ia32Lstar, entry);
    msrs.Write(Ia32Star, (0x08 as bv64 << 32) | (0x10 as bv64 << 48));
    msrs.Write(Ia32Fmask, 0);
  }
}
