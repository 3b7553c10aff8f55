/**
 * UTF-8, as far as the kernel relies on it: `core::str::from_utf8` decides
 * whether the echo buffer can be handed out as a `&str`, and
 * `str::as_bytes` turns the text of a shell `write` command into file bytes.
 */
module Utf8 {

  predicate Continuation(b: bv8) { 0x80 <= b <= 0xbf }

  /**
   * The length of the well-formed byte sequence that starts `s`, following
   * the table of well-formed UTF-8 byte sequences of the Unicode Standard
   * (section 3.9, table 3-7); 0 when `s` does not start with one.
   */
  function SequenceLength(s: seq<bv8>): (n: nat)
    requires s != []
    ensures n <= 4 && n <= |s|
    ensures s[0] < 0x80 <==> n == 1
    ensures 0x80 <= s[0] <= 0xc1 || 0xf5 <= s[0] ==> n == 0
  {
    var b := s[0];
    if b < 0x80 then 1
    else if 0xc2 <= b <= 0xdf then
      (if |s| >= 2 && Continuation(s[1]) then 2 else 0)
    else if b == 0xe0 then
      (if |s| >= 3 && 0xa0 <= s[1] <= 0xbf && Continuation(s[2]) then 3 else 0)
    else if 0xe1 <= b <= 0xec || 0xee <= b <= 0xef then
      (if |s| >= 3 && Continuation(s[1]) && Continuation(s[2]) then 3 else 0)
    else if b == 0xed then
      (if |s| >= 3 && 0x80 <= s[1] <= 0x9f && Continuation(s[2]) then 3 else 0)
    else if b == 0xf0 then
      (if |s| >= 4 && 0x90 <= s[1] <= 0xbf && Continuation(s[2]) && Continuation(s[3]) then 4 else 0)
    else if 0xf1 <= b <= 0xf3 then
      (if |s| >= 4 && Continuation(s[1]) && Continuation(s[2]) && Continuation(s[3]) then 4 else 0)
    else if b == 0xf4 then
      (if |s| >= 4 && 0x80 <= s[1] <= 0x8f && Continuation(s[2]) && Continuation(s[3]) then 4 else 0)
    else 0
  }

  /** `core::str::from_utf8(s).is_ok()`: `s` splits into well-formed sequences. */
  predicate IsValid(s: seq<bv8>)
    decreases |s|
  {
    s == [] || (var n := SequenceLength(s); n > 0 && IsValid(s[n..]))
  }

  /**
   * For bytes that are ASCII or the 0xfe glyph (the only bytes the terminal
   * ever echoes), the text is valid UTF-8 exactly when no 0xfe is present:
   * 0xfe can neither start nor continue a well-formed sequence.
   */
  lemma {:induction false} AsciiOrFeValidity(s: seq<bv8>)
    requires forall i | 0 <= i < |s| :: s[i] < 0x80 || s[i] == 0xfe
    ensures IsValid(s) <==> 0xfe !in s
    decreases |s|
  {
    if s != [] {
      AsciiOrFeValidity(s[1..]);
      assert s == [s[0]] + s[1..];
    }
  }

  /** `char::encode_utf8`: one to four bytes per scalar value. */
  function EncodeChar(c: char): (r: seq<bv8>)
    ensures 1 <= |r| <= 4
    ensures (c as int) < 0x80 <==> |r| == 1
    ensures (c as int) < 0x80 ==> r == [(c as int) as bv8]
  {
    var cp := c as int;
    if cp < 0x80 then [cp as bv8]
    else if cp < 0x800 then [Lead(0xc0, cp / 0x40, 0x20), Trail(cp)]
    else if cp < 0x1_0000 then [Lead(0xe0, cp / 0x1000, 0x10), Trail(cp / 0x40), Trail(cp)]
    else [Lead(0xf0, cp / 0x4_0000, 0x08), Trail(cp / 0x1000), Trail(cp / 0x40), Trail(cp)]
  }

  /** A leading byte: the length marker `marker` with the top bits `high` of the scalar value. */
  function Lead(marker: int, high: int, bound: int): (b: bv8)
    requires 0xc0 <= marker && 0 <= high < bound && marker + bound <= 0x100
    ensures !Continuation(b) && 0x80 <= b
  {
    (marker + high) as bv8
  }

  /** A continuation byte carrying the low six bits of `x`. */
  function Trail(x: int): (b: bv8)
    requires 0 <= x
    ensures Continuation(b)
  {
    (0x80 + x % 0x40) as bv8
  }

  /** `str::as_bytes`: the UTF-8 encoding of a string. */
  function Encode(s: string): (r: seq<bv8>)
    ensures |r| >= |s|
    ensures (forall i | 0 <= i < |s| :: (s[i] as int) < 0x80) ==> |r| == |s|
  {
    if s == [] then [] else EncodeChar(s[0]) + Encode(s[1..])
  }

  /**
   * The encoding is valid UTF-8: each character's bytes form one
   * well-formed sequence, so what `write` stores reads back as text.
   */
  lemma {:induction false} EncodeIsValid(s: string)
    ensures IsValid(Encode(s))
    decreases |s|
  {
    if s != [] {
      var e := EncodeChar(s[0]);
      var rest := Encode(s[1..]);
      EncodeIsValid(s[1..]);
      EncodeCharLength(s[0], rest);
      assert (e + rest)[|e|..] == rest;
    }
  }

  /** A character's encoding, whatever follows it, is one well-formed sequence of its own length. */
  lemma EncodeCharLength(c: char, rest: seq<bv8>)
    ensures SequenceLength(EncodeChar(c) + rest) == |EncodeChar(c)|
  {
    var cp := c as int;
    if cp < 0x80 {
    } else if cp < 0x800 {
      TwoByteLength(cp, rest);
    } else if cp < 0x1_0000 {
      ThreeByteLength(cp, rest);
    } else {
      FourByteLength(cp, rest);
    }
  }

  /** A two-byte encoding is read back as one sequence of that length. */
  lemma TwoByteLength(cp: int, rest: seq<bv8>)
    requires 0x80 <= cp < 0x800
    ensures SequenceLength([Lead(0xc0, cp / 0x40, 0x20), Trail(cp)] + rest) == 2
  {
    var t := [Lead(0xc0, cp / 0x40, 0x20), Trail(cp)] + rest;
    assert 0xc2 <= t[0] <= 0xdf;
    assert Continuation(t[1]);
  }

  /** A three-byte encoding is read back as one sequence of that length. */
  lemma ThreeByteLength(cp: int, rest: seq<bv8>)
    requires 0x800 <= cp < 0x1_0000 && !(0xd800 <= cp < 0xe000)
    ensures SequenceLength([Lead(0xe0, cp / 0x1000, 0x10), Trail(cp / 0x40), Trail(cp)] + rest) == 3
  {
    var t := [Lead(0xe0, cp / 0x1000, 0x10), Trail(cp / 0x40), Trail(cp)] + rest;
    ThreeByteSecond(cp);
    ThreeByteLead(cp / 0x1000);
    assert Continuation(t[1]) && Continuation(t[2]);
  }

  /** A four-byte encoding is read back as one sequence of that length. */
  lemma FourByteLength(cp: int, rest: seq<bv8>)
    requires 0x1_0000 <= cp < 0x11_0000
    ensures SequenceLength([Lead(0xf0, cp / 0x4_0000, 0x08), Trail(cp / 0x1000), Trail(cp / 0x40), Trail(cp)] + rest) == 4
  {
    var t := [Lead(0xf0, cp / 0x4_0000, 0x08), Trail(cp / 0x1000), Trail(cp / 0x40), Trail(cp)] + rest;
    FourByteSecond(cp);
    FourByteLead(cp / 0x4_0000);
    assert Continuation(t[1]) && Continuation(t[2]) && Continuation(t[3]);
  }

  /** The leading byte of a three-byte sequence is E0, ED or one of the other E1..EF. */
  lemma ThreeByteLead(h: int)
    requires 0 <= h < 0x10
    ensures var b := Lead(0xe0, h, 0x10);
      && (h == 0 <==> b == 0xe0) && (h == 0xd <==> b == 0xed) && 0xe0 <= b <= 0xef
  {
    assert Lead(0xe0, h, 0x10) == 0xe0 + h as bv8;
  }

  /** The leading byte of a four-byte sequence is F0, F4 or one of F1..F3. */
  lemma FourByteLead(h: int)
    requires 0 <= h < 0x08
    ensures var b := Lead(0xf0, h, 0x08);
      && (h == 0 <==> b == 0xf0) && (h == 4 <==> b == 0xf4) && 0xf0 <= b <= 0xf7
  {
    assert Lead(0xf0, h, 0x08) == 0xf0 + h as bv8;
  }

  /** The second byte of a three-byte sequence respects the E0 and ED limits of table 3-7. */
  lemma ThreeByteSecond(cp: int)
    requires 0x800 <= cp < 0x1_0000 && !(0xd800 <= cp < 0xe000)
    ensures cp / 0x1000 == 0 ==> 0xa0 <= Trail(cp / 0x40)
    ensures cp / 0x1000 == 0xd ==> Trail(cp / 0x40) <= 0x9f
  {
    if cp / 0x1000 == 0 {
      assert 0x20 <= cp / 0x40 < 0x40;
      TrailAtLeast(cp / 0x40, 0x20);
    } else if cp / 0x1000 == 0xd {
      assert 0x340 <= cp / 0x40 < 0x360;
      TrailBelow(cp / 0x40, 0x20);
    }
  }

  /** The second byte of a four-byte sequence respects the F0 and F4 limits of table 3-7. */
  lemma FourByteSecond(cp: int)
    requires 0x1_0000 <= cp < 0x11_0000
    ensures cp / 0x4_0000 == 0 ==> 0x90 <= Trail(cp / 0x1000)
    ensures cp / 0x4_0000 == 4 ==> Trail(cp / 0x1000) <= 0x8f
  {
    if cp / 0x4_0000 == 0 {
      assert 0x10 <= cp / 0x1000 < 0x40;
      TrailAtLeast(cp / 0x1000, 0x10);
    } else if cp / 0x4_0000 == 4 {
      assert 0x100 <= cp / 0x1000 < 0x110;
      TrailBelow(cp / 0x1000, 0x10);
    }
  }

  /** Low six bits of at least `low` give a continuation byte of at least 0x80 + `low`. */
  lemma TrailAtLeast(x: int, low: int)
    requires 0 <= x && (low == 0x10 || low == 0x20) && low <= x % 0x40
    ensures (0x80 + low) as bv8 <= Trail(x)
  {
  }

  /** Low six bits below `bound` give a continuation byte below 0x80 + `bound`. */
  lemma TrailBelow(x: int, bound: int)
    requires 0 <= x && (bound == 0x10 || bound == 0x20) && x % 0x40 < bound
    ensures Trail(x) < (0x80 + bound) as bv8
  {
  }
}
