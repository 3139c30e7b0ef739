// Bug frames: the records the BUG, WARN and ASSERT macros leave in a
// dedicated section, one per call site. A frame is two 32-bit words. Each
// word holds a signed 24-bit displacement from the frame to something (the
// faulting instruction, the file name) in its low 24 bits, and 7 bits of
// the call site's line number above it. The assembler writes each word as
// the 32-bit sum of the displacement and the shifted half of the line, so a
// negative displacement borrows one from the line half; decoding adds it
// back.

module BugFrame {

  /** Frame types: run a function, warn, bug, failed assertion. */
  const BUGFRAME_RUN_FN: int := 0
  const BUGFRAME_WARN: int := 1
  const BUGFRAME_BUG: int := 2
  const BUGFRAME_ASSERT: int := 3
  const BUGFRAME_NR: int := 4

  /** Widths of the displacement and of the two halves of the line number. */
  const BUG_DISP_WIDTH: int := 24
  const BUG_LINE_LO_WIDTH: int := 31 - BUG_DISP_WIDTH
  const BUG_LINE_HI_WIDTH: int := 31 - BUG_DISP_WIDTH

  /** Addresses are 64-bit unsigned longs and wrap modulo 2^64. */
  const ADDR_LIMIT: int := 0x1_0000_0000_0000_0000

  // ---------------------------------------------------------------------
  // Encoding, as the assembler emits a frame
  // ---------------------------------------------------------------------

  const WORD: int := 0x1_0000_0000
  const DISP_RANGE: int := 0x100_0000   // 2^24
  const HALF_RANGE: int := 0x80         // 2^7

  /** The line number has no bit at or above position 14 (the two 7-bit halves). */
  predicate LineFits(line: nat)
  {
    line / 0x4000 == 0
  }

  /**
   * The build-time checks on a frame: the line number fits, and the type
   * is one of the four frame types.
   */
  predicate Buildable(frameType: int, line: nat)
  {
    LineFits(line) && 0 <= frameType < BUGFRAME_NR
  }

  /** The low 7 bits of the line, moved above the displacement. */
  function LineLo(line: nat): nat
  {
    line % HALF_RANGE * DISP_RANGE
  }

  /** The line shifted down by 7 bits, moved above the displacement. */
  function LineHi(line: nat): nat
  {
    line / HALF_RANGE * DISP_RANGE
  }

  /** A displacement the signed 24-bit field can hold: [-2^23, 2^23). */
  predicate IsDisp24(d: int)
  {
    -0x80_0000 <= d < 0x80_0000
  }

  /** A frame word: the displacement plus the line half, as a 32-bit sum that wraps. */
  function FrameWord(disp: int, half: nat): (w: int)
    ensures 0 <= w < WORD
  {
    (disp + half) % WORD
  }

  /** The two words of a frame: the first locates the instruction, the second the pointer. */
  datatype Frame = Frame(locWord: int, ptrWord: int)

  /**
   * The frame built for a call site at the given line whose instruction
   * lies locDisp bytes and whose pointer lies ptrDisp bytes from the frame:
   * the high half of the line rides on the first word, the low half on the
   * second.
   */
  function Encode(line: nat, locDisp: int, ptrDisp: int): Frame
  {
    Frame(FrameWord(locDisp, LineHi(line)), FrameWord(ptrDisp, LineLo(line)))
  }

  // ---------------------------------------------------------------------
  // Decoding, as the bit fields of the frame structure read it
  // ---------------------------------------------------------------------

  /** The 24-bit displacement field of a word, read unsigned. */
  function DispField(w: int): (f: int)
    ensures 0 <= f < DISP_RANGE
  {
    w % DISP_RANGE
  }

  /** The displacement field is negative: its top bit is set. */
  predicate DispNegative(w: int)
  {
    DispField(w) >= 0x80_0000
  }

  /** The displacement field read as a signed 24-bit number. */
  function SignedDisp(w: int): (d: int)
    ensures IsDisp24(d)
  {
    if DispNegative(w) then DispField(w) - DISP_RANGE else DispField(w)
  }

  /** The 7-bit line field above the displacement (bit 31 is padding). */
  function LineField(w: int): (f: int)
    requires 0 <= w
    ensures 0 <= f < HALF_RANGE
  {
    w / DISP_RANGE % HALF_RANGE
  }

  /** One line half: the field plus the borrow of a negative displacement, in 7 bits. */
  function LineHalf(w: int): (h: int)
    requires 0 <= w
    ensures 0 <= h < HALF_RANGE
  {
    (LineField(w) + (if DispNegative(w) then 1 else 0)) % HALF_RANGE
  }

  /** The line number of a frame: the high half from the first word above the low half from the second. */
  function BugLine(b: Frame): (line: int)
    requires 0 <= b.locWord && 0 <= b.ptrWord
    ensures 0 <= line < 0x4000
  {
    LineHalf(b.locWord) * HALF_RANGE + LineHalf(b.ptrWord)
  }

  /** The address a word points at: the frame address plus its signed displacement, as a 64-bit sum. */
  function Target(frameAddr: int, w: int): (a: int)
    requires 0 <= frameAddr < ADDR_LIMIT
    ensures 0 <= a < ADDR_LIMIT
  {
    (frameAddr + SignedDisp(w)) % ADDR_LIMIT
  }

  /** Address of the faulting instruction. */
  function BugLoc(frameAddr: int, b: Frame): (a: int)
    requires 0 <= frameAddr < ADDR_LIMIT
    ensures 0 <= a < ADDR_LIMIT
  {
    Target(frameAddr, b.locWord)
  }

  /** Address of the frame's pointer (the function to run, or the file name). */
  function BugPtr(frameAddr: int, b: Frame): (a: int)
    requires 0 <= frameAddr < ADDR_LIMIT
    ensures 0 <= a < ADDR_LIMIT
  {
    Target(frameAddr, b.ptrWord)
  }

  // ---------------------------------------------------------------------
  // Round trip
  // ---------------------------------------------------------------------

  /**
   * The word holding displacement d and line half h: its low 24 bits are d
   * modulo 2^24, and its line field is h, less one (modulo 2^7) when d is
   * negative.
   */
  lemma WordParts(d: int, h: int)
    requires IsDisp24(d) && 0 <= h < HALF_RANGE
    ensures var w := FrameWord(d, h * DISP_RANGE);
      && DispField(w) == (if d < 0 then d + DISP_RANGE else d)
      && LineField(w) == (if d < 0 then (h + HALF_RANGE - 1) % HALF_RANGE else h)
  {
    var w := FrameWord(d, h * DISP_RANGE);
    if d >= 0 {
      assert w == d + h * DISP_RANGE;
    } else if h > 0 {
      assert w == (d + DISP_RANGE) + (h - 1) * DISP_RANGE;
    } else {
      assert w == (d + DISP_RANGE) + (HALF_RANGE * 2 - 1) * DISP_RANGE;
    }
  }

  /** Decoding one word gives back its displacement and its line half. */
  lemma WordRoundTrip(d: int, h: int)
    requires IsDisp24(d) && 0 <= h < HALF_RANGE
    ensures SignedDisp(FrameWord(d, h * DISP_RANGE)) == d
    ensures LineHalf(FrameWord(d, h * DISP_RANGE)) == h
  {
    WordParts(d, h);
  }

  /**
   * For a buildable line and displacements in the signed 24-bit range,
   * decoding a frame gives back the line, the instruction address and the
   * pointer it was built from, whatever the signs of the displacements.
   */
  lemma RoundTrip(frameAddr: int, line: nat, locDisp: int, ptrDisp: int)
    requires 0 <= frameAddr < ADDR_LIMIT
    requires LineFits(line) && IsDisp24(locDisp) && IsDisp24(ptrDisp)
    ensures BugLine(Encode(line, locDisp, ptrDisp)) == line
    ensures BugLoc(frameAddr, Encode(line, locDisp, ptrDisp)) == (frameAddr + locDisp) % ADDR_LIMIT
    ensures BugPtr(frameAddr, Encode(line, locDisp, ptrDisp)) == (frameAddr + ptrDisp) % ADDR_LIMIT
  {
    var hi, lo := line / HALF_RANGE, line % HALF_RANGE;
    assert hi < HALF_RANGE && hi * HALF_RANGE + lo == line;
    WordRoundTrip(locDisp, hi);
    WordRoundTrip(ptrDisp, lo);
  }

  /**
   * Why the build rejects wide lines: line 0x4000 has a bit in neither
   * half and decodes as line 0.
   */
  lemma WideLineLost()
    ensures BugLine(Encode(0x4000, 0, 0)) == 0
  {
  }

  /**
   * Why the displacement must fit in 24 signed bits: a displacement of
   * 2^23 reads back as -2^23, and the decoder adds one to a half nothing was
   * borrowed from.
   */
  lemma WideDispLost()
    ensures SignedDisp(Encode(0, 0x80_0000, 0).locWord) == -0x80_0000
    ensures BugLine(Encode(0, 0x80_0000, 0)) == 0x80
  {
  }

  /** The frame types are the four below BUGFRAME_NR, and the lines are those below 2^14. */
  lemma BuildableRange(frameType: int, line: nat)
    ensures Buildable(frameType, line) <==> 0 <= frameType <= BUGFRAME_ASSERT && line < 0x4000
  {
  }
}
