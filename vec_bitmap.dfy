// The register page of the virtual LAPIC and the three 256-bit vector
// bitmaps (ISR, TMR, IRR) that live in it, one 32-bit word at the start of
// every 16-byte register slot; the kernel's fls() and the scan for the
// highest set vector.

module VecBitmap {

  import opened Bits32
  import opened ApicRegs

  /** fls restricted to the low k bits: 1 + index of the highest set bit below k, or 0. */
  function FlsBelow(w: bv32, k: int): (r: int)
    requires 0 <= k <= 32
    ensures 0 <= r <= k
    decreases k
  {
    if k == 0 then 0 else if Test(w, BitOf(k - 1)) then k else FlsBelow(w, k - 1)
  }

  lemma {:induction false} FlsBelowSpec(w: bv32, k: int)
    requires 0 <= k <= 32
    ensures var r := FlsBelow(w, k);
      (r > 0 ==> Test(w, BitOf(r - 1))) && forall j :: r <= j < k ==> !Test(w, BitOf(j))
    decreases k
  {
    hide Test, Bit, BitOf;
    if k > 0 && !Test(w, BitOf(k - 1)) {
      FlsBelowSpec(w, k - 1);
    }
  }

  /** The width of a register word. A function rather than a literal, so that
      the verifier does not unroll FlsBelow over all 32 bits at every use. */
  function WordBits(w: bv32): (n: int)
    ensures n == 32
  {
    32
  }

  /** fls(): one-based position of the most significant set bit, 0 for a zero word. */
  function Fls(w: bv32): (r: int)
    ensures 0 <= r <= 32
  {
    FlsBelow(w, WordBits(w))
  }

  lemma FlsSpec(w: bv32)
    ensures Fls(w) == 0 <==> w == 0
    ensures Fls(w) > 0 ==> Test(w, BitOf(Fls(w) - 1))
    ensures forall j :: Fls(w) <= j < 32 ==> !Test(w, BitOf(j))
  {
    hide Test, Bit, BitOf;
    FlsBelowSpec(w, WordBits(w));
    if Fls(w) > 0 {
      ZeroNoBits(BitOf(Fls(w) - 1));
    } else {
      forall k: bv5
        ensures !Test(w, k)
      {
        BitOfNum(k);
      }
      NoBitsZero(w);
    }
  }

  // ---------------------------------------------------------------------
  // The register page and its vector bitmaps
  // ---------------------------------------------------------------------

  type RegPage = p: seq<bv32> | |p| == PAGE_WORDS witness seq(PAGE_WORDS, _ => 0)

  /** The 32-bit register at a byte offset (the low word of its slot). */
  function Reg(p: RegPage, off: int): bv32
    requires 0 <= off < PAGE_SIZE
  {
    p[off / 4]
  }

  function SetReg(p: RegPage, off: int, val: bv32): (r: RegPage)
    requires 0 <= off < PAGE_SIZE
    ensures Reg(r, off) == val
    ensures forall i :: 0 <= i < PAGE_WORDS && i != off / 4 ==> r[i] == p[i]
  {
    p[off / 4 := val]
  }

  predicate IsBitmap(base: int)
  {
    base == APIC_ISR || base == APIC_TMR || base == APIC_IRR
  }

  /** Page word holding vector v of a bitmap: word k of the bitmap sits 16 bytes after word k-1. */
  function VecWord(base: int, v: int): (i: int)
    requires IsBitmap(base) && 0 <= v < 256
    ensures base / 4 <= i < base / 4 + 32 && 0 <= i < PAGE_WORDS
  {
    base / 4 + (v / 32) * 4
  }

  predicate TestVec(p: RegPage, base: int, v: int)
    requires IsBitmap(base) && 0 <= v < 256
  {
    Test(p[VecWord(base, v)], BitOf(v))
  }

  /** Two (bitmap, vector) pairs share a page word only within one bitmap's 32-vector block. */
  lemma VecWordShared(b: int, u: int, base: int, v: int)
    requires IsBitmap(b) && 0 <= u < 256 && IsBitmap(base) && 0 <= v < 256
    ensures VecWord(b, u) == VecWord(base, v) <==> b == base && u / 32 == v / 32
  {
    hide Test, Bit, BitOf;
  }

  /** Vector u of a bitmap is bit u % 32 of the bitmap's word number u / 32. */
  lemma TestVecInWord(p: RegPage, base: int, k: int, u: int)
    requires IsBitmap(base) && 0 <= k < 8 && 32 * k <= u < 32 * k + 32
    ensures VecWord(base, u) == base / 4 + 4 * k
    ensures TestVec(p, base, u) == Test(p[base / 4 + 4 * k], BitOf(u - 32 * k))
  {
    hide Test, Bit, BitOf;
    assert u / 32 == k && u % 32 == (u - 32 * k) % 32;
    BitOfSame(u, u - 32 * k);
  }

  /** Within one word, two vectors are the same exactly when their bit numbers are. */
  lemma SameWordBit(v: int, u: int)
    requires 0 <= u < 256 && 0 <= v < 256 && u / 32 == v / 32
    ensures (u == v) == (BitOf(u) == BitOf(v))
  {
    hide Test, Bit, BitOf;
    BitOfSame(u, v);
  }

  function SetVec(p: RegPage, base: int, v: int): RegPage
    requires IsBitmap(base) && 0 <= v < 256
  {
    var i := VecWord(base, v);
    p[i := p[i] | Bit(BitOf(v))]
  }

  function ClearVec(p: RegPage, base: int, v: int): RegPage
    requires IsBitmap(base) && 0 <= v < 256
  {
    var i := VecWord(base, v);
    p[i := p[i] & !Bit(BitOf(v))]
  }

  /** Setting vector v sets its bit, keeps every other bit of every bitmap, and only touches v's word. */
  lemma SetVecOne(p: RegPage, base: int, v: int, b: int, u: int)
    requires IsBitmap(base) && 0 <= v < 256 && IsBitmap(b) && 0 <= u < 256
    ensures TestVec(SetVec(p, base, v), b, u) == ((b == base && u == v) || TestVec(p, b, u))
  {
    hide Test, Bit, BitOf;
    VecWordShared(b, u, base, v);
    if VecWord(b, u) == VecWord(base, v) {
      SetVecSame(p, base, v, u);
    } else {
      SetVecOther(p, base, v, b, u);
    }
  }

  lemma SetVecSame(p: RegPage, base: int, v: int, u: int)
    requires IsBitmap(base) && 0 <= v < 256 && 0 <= u < 256 && u / 32 == v / 32
    ensures TestVec(SetVec(p, base, v), base, u) == (u == v || TestVec(p, base, u))
  {
    hide Test, Bit, BitOf;
    var i := VecWord(base, v);
    assert VecWord(base, u) == i;
    SameWordBit(v, u);
    SetBitTest(p[i], BitOf(v), BitOf(u));
  }

  lemma SetVecOther(p: RegPage, base: int, v: int, b: int, u: int)
    requires IsBitmap(base) && 0 <= v < 256 && IsBitmap(b) && 0 <= u < 256
    requires VecWord(b, u) != VecWord(base, v)
    ensures TestVec(SetVec(p, base, v), b, u) == TestVec(p, b, u)
  {
    hide Test, Bit, BitOf;
    var j := VecWord(b, u);
    assert SetVec(p, base, v)[j] == p[j];
  }

  lemma SetVecSpec(p: RegPage, base: int, v: int)
    requires IsBitmap(base) && 0 <= v < 256
    ensures var r := SetVec(p, base, v);
      (forall b, u {:trigger TestVec(r, b, u)} :: IsBitmap(b) && 0 <= u < 256 ==>
         TestVec(r, b, u) == ((b == base && u == v) || TestVec(p, b, u))) &&
      forall i :: 0 <= i < PAGE_WORDS && i != VecWord(base, v) ==> r[i] == p[i]
  {
    hide Test, Bit, BitOf;
    forall b, u | IsBitmap(b) && 0 <= u < 256
      ensures TestVec(SetVec(p, base, v), b, u) == ((b == base && u == v) || TestVec(p, b, u))
    {
      SetVecOne(p, base, v, b, u);
    }
  }

  /** Clearing vector v clears its bit, keeps every other bit of every bitmap, and only touches v's word. */
  lemma ClearVecOne(p: RegPage, base: int, v: int, b: int, u: int)
    requires IsBitmap(base) && 0 <= v < 256 && IsBitmap(b) && 0 <= u < 256
    ensures TestVec(ClearVec(p, base, v), b, u) == (!(b == base && u == v) && TestVec(p, b, u))
  {
    hide Test, Bit, BitOf;
    VecWordShared(b, u, base, v);
    if VecWord(b, u) == VecWord(base, v) {
      ClearVecSame(p, base, v, u);
    } else {
      ClearVecOther(p, base, v, b, u);
    }
  }

  lemma ClearVecSame(p: RegPage, base: int, v: int, u: int)
    requires IsBitmap(base) && 0 <= v < 256 && 0 <= u < 256 && u / 32 == v / 32
    ensures TestVec(ClearVec(p, base, v), base, u) == (u != v && TestVec(p, base, u))
  {
    hide Test, Bit, BitOf;
    var i := VecWord(base, v);
    assert VecWord(base, u) == i;
    SameWordBit(v, u);
    ClearBitTest(p[i], BitOf(v), BitOf(u));
  }

  lemma ClearVecOther(p: RegPage, base: int, v: int, b: int, u: int)
    requires IsBitmap(base) && 0 <= v < 256 && IsBitmap(b) && 0 <= u < 256
    requires VecWord(b, u) != VecWord(base, v)
    ensures TestVec(ClearVec(p, base, v), b, u) == TestVec(p, b, u)
  {
    hide Test, Bit, BitOf;
    var j := VecWord(b, u);
    assert ClearVec(p, base, v)[j] == p[j];
  }

  lemma ClearVecSpec(p: RegPage, base: int, v: int)
    requires IsBitmap(base) && 0 <= v < 256
    ensures var r := ClearVec(p, base, v);
      (forall b, u {:trigger TestVec(r, b, u)} :: IsBitmap(b) && 0 <= u < 256 ==>
         TestVec(r, b, u) == (!(b == base && u == v) && TestVec(p, b, u))) &&
      forall i :: 0 <= i < PAGE_WORDS && i != VecWord(base, v) ==> r[i] == p[i]
  {
    hide Test, Bit, BitOf;
    forall b, u | IsBitmap(b) && 0 <= u < 256
      ensures TestVec(ClearVec(p, base, v), b, u) == (!(b == base && u == v) && TestVec(p, b, u))
    {
      ClearVecOne(p, base, v, b, u);
    }
  }

  /** Highest vector set among the first k 32-vector blocks of a bitmap, or -1. */
  function HighestBelow(p: RegPage, base: int, k: int): int
    requires IsBitmap(base) && 0 <= k <= 8
    decreases k
  {
    if k == 0 then -1
    else
      var w := p[base / 4 + 4 * (k - 1)];
      if w != 0 then 32 * (k - 1) + Fls(w) - 1 else HighestBelow(p, base, k - 1)
  }

  lemma HighestBelowSpec(p: RegPage, base: int, k: int)
    requires IsBitmap(base) && 0 <= k <= 8
    ensures var r := HighestBelow(p, base, k);
      -1 <= r < 32 * k &&
      (r == -1 <==> forall u :: 0 <= u < 32 * k ==> !TestVec(p, base, u)) &&
      (r >= 0 ==> TestVec(p, base, r)) &&
      forall u :: r < u < 32 * k ==> !TestVec(p, base, u)
  {
    hide Test, Bit, BitOf;
    HighestBelowRange(p, base, k);
    HighestBelowFound(p, base, k);
    HighestBelowAbove(p, base, k);
  }

  /** A non-negative result names a set vector. */
  lemma {:induction false} HighestBelowFound(p: RegPage, base: int, k: int)
    requires IsBitmap(base) && 0 <= k <= 8
    ensures 0 <= HighestBelow(p, base, k) < 256 ==> TestVec(p, base, HighestBelow(p, base, k))
    decreases k
  {
    hide Test, Bit, BitOf;
    if k > 0 {
      if p[base / 4 + 4 * (k - 1)] != 0 {
        TopBlockHighest(p, base, k - 1);
      } else {
        HighestBelowFound(p, base, k - 1);
      }
    }
  }

  /** No vector of the first k blocks above the result is set. */
  lemma {:induction false} HighestBelowAbove(p: RegPage, base: int, k: int)
    requires IsBitmap(base) && 0 <= k <= 8
    ensures forall u :: 0 <= u < 32 * k && HighestBelow(p, base, k) < u ==> !TestVec(p, base, u)
    decreases k
  {
    hide Test, Bit, BitOf;
    if k > 0 {
      if p[base / 4 + 4 * (k - 1)] != 0 {
        TopBlockHighest(p, base, k - 1);
      } else {
        HighestBelowAbove(p, base, k - 1);
        HighestBelowRange(p, base, k - 1);
        TopBlockEmpty(p, base, k - 1);
      }
    }
  }

  lemma {:induction false} HighestBelowRange(p: RegPage, base: int, k: int)
    requires IsBitmap(base) && 0 <= k <= 8
    ensures -1 <= HighestBelow(p, base, k) < 32 * k
    decreases k
  {
    hide Test, Bit, BitOf;
    if k > 0 && p[base / 4 + 4 * (k - 1)] == 0 {
      HighestBelowRange(p, base, k - 1);
    }
  }

  /** When word k is nonzero, its fls locates the highest vector of blocks 0..k. */
  lemma TopBlockHighest(p: RegPage, base: int, k: int)
    requires IsBitmap(base) && 0 <= k < 8 && p[base / 4 + 4 * k] != 0
    ensures var r := 32 * k + Fls(p[base / 4 + 4 * k]) - 1;
      32 * k <= r < 32 * k + 32 && TestVec(p, base, r) &&
      forall u :: r < u < 32 * k + 32 ==> !TestVec(p, base, u)
  {
    hide Test, Bit, BitOf;
    var w := p[base / 4 + 4 * k];
    var r := 32 * k + Fls(w) - 1;
    FlsSpec(w);
    TestVecInWord(p, base, k, r);
    forall u | r < u < 32 * k + 32
      ensures !TestVec(p, base, u)
    {
      TestVecInWord(p, base, k, u);
    }
  }

  /** A zero word k holds no vector of block k. */
  lemma TopBlockEmpty(p: RegPage, base: int, k: int)
    requires IsBitmap(base) && 0 <= k < 8 && p[base / 4 + 4 * k] == 0
    ensures forall u :: 32 * k <= u < 32 * k + 32 ==> !TestVec(p, base, u)
  {
    hide Test, Bit, BitOf;
    forall u | 32 * k <= u < 32 * k + 32
      ensures !TestVec(p, base, u)
    {
      TestVecInWord(p, base, k, u);
      ZeroNoBits(BitOf(u - 32 * k));
    }
  }

  /**
   * The number of 32-bit words of a bitmap. A function of the bitmap rather
   * than the literal 8, so that the verifier does not unroll every scan.
   */
  function BitmapWords(base: int): (n: int)
    ensures n == 8
  {
    8
  }

  /** The highest vector set in a bitmap, or -1 when it is empty. */
  function Highest(p: RegPage, base: int): (r: int)
    requires IsBitmap(base)
    ensures -1 <= r < 256
  {
    HighestBelowRange(p, base, BitmapWords(base));
    HighestBelow(p, base, BitmapWords(base))
  }

  /** Highest finds the top set vector, and -1 exactly when the bitmap is empty. */
  lemma HighestSpec(p: RegPage, base: int)
    requires IsBitmap(base)
    ensures -1 <= Highest(p, base) < 256
    ensures Highest(p, base) == -1 <==> forall u :: 0 <= u < 256 ==> !TestVec(p, base, u)
    ensures Highest(p, base) >= 0 ==> TestVec(p, base, Highest(p, base))
    ensures forall u :: Highest(p, base) < u < 256 ==> !TestVec(p, base, u)
  {
    hide Test, Bit, BitOf;
    HighestBelowSpec(p, base, 8);
  }

  /** Two pages whose bitmap agrees on every vector have the same highest vector. */
  lemma HighestDeterminedByBits(p: RegPage, q: RegPage, base: int)
    requires IsBitmap(base)
    requires forall u :: 0 <= u < 256 ==> TestVec(p, base, u) == TestVec(q, base, u)
    ensures Highest(p, base) == Highest(q, base)
  {
    hide Test, Bit, BitOf;
    var a, b := Highest(p, base), Highest(q, base);
    HighestSpec(p, base);
    HighestSpec(q, base);
    if b >= 0 {
      assert TestVec(p, base, b);
    }
    if a >= 0 {
      assert TestVec(q, base, a);
    }
  }

  /** Zero words above block k leave the highest vector to the blocks below. */
  lemma {:induction false} HighestBelowZeroWords(p: RegPage, base: int, k: int, m: int)
    requires IsBitmap(base) && 0 <= k <= m <= 8
    requires forall j :: k <= j < m ==> p[base / 4 + 4 * j] == 0
    ensures HighestBelow(p, base, m) == HighestBelow(p, base, k)
    decreases m - k
  {
    hide Test, Bit, BitOf;
    if k < m {
      HighestBelowZeroWords(p, base, k, m - 1);
    }
  }

  /**
   * Where the downward scan stops (on word j: the first nonzero word from the
   * top, or word 0 when every word is zero), fls of word j gives Highest.
   */
  lemma ScanStop(p: RegPage, base: int, k: int, j: int)
    requires IsBitmap(base) && 0 <= k <= 8
    requires forall i :: k <= i < 8 ==> p[base / 4 + 4 * i] == 0
    requires if k == 0 then p[base / 4] == 0 else p[base / 4 + 4 * (k - 1)] != 0
    requires j == if k == 0 then 0 else k - 1
    ensures Fls(p[base / 4 + j * 4]) - 1 + j * 32 == Highest(p, base)
  {
    hide Test, Bit, BitOf;
    HighestBelowZeroWords(p, base, k, 8);
    if k == 0 {
      ScanStopEmpty(p, base);
    } else {
      ScanStopFound(p, base, k);
    }
  }

  lemma ScanStopEmpty(p: RegPage, base: int)
    requires IsBitmap(base) && p[base / 4] == 0
    ensures Fls(p[base / 4]) - 1 == HighestBelow(p, base, 0)
  {
    hide Test, Bit, BitOf;
    FlsSpec(p[base / 4]);
  }

  lemma ScanStopFound(p: RegPage, base: int, k: int)
    requires IsBitmap(base) && 0 < k <= 8 && p[base / 4 + 4 * (k - 1)] != 0
    ensures Fls(p[base / 4 + (k - 1) * 4]) - 1 + (k - 1) * 32 == HighestBelow(p, base, k)
  {
    hide Test, Bit, BitOf;
  }

  // ---------------------------------------------------------------------
  // Bitmaps as sets of vectors
  // ---------------------------------------------------------------------

  /** The vectors a bitmap holds. */
  function Bits(p: RegPage, base: int): set<int>
    requires IsBitmap(base)
  {
    set u | 0 <= u < 256 && TestVec(p, base, u)
  }

  /** Membership in Bits is the bit test. */
  lemma InBits(p: RegPage, base: int, v: int)
    requires IsBitmap(base) && 0 <= v < 256
    ensures v in Bits(p, base) <==> TestVec(p, base, v)
  {
    hide Test, Bit, BitOf;
  }

  /** Page words of the ISR, TMR and IRR blocks; every other register lies outside. */
  predicate InBitmaps(i: int)
  {
    APIC_ISR / 4 <= i < (APIC_IRR + 0x80) / 4
  }

  /** Two pages that agree on every register outside the three bitmaps. */
  predicate SameOutsideBitmaps(p: RegPage, q: RegPage)
  {
    forall i :: 0 <= i < PAGE_WORDS && !InBitmaps(i) ==> p[i] == q[i]
  }

  /** Setting a vector adds it to its bitmap and leaves everything else alone. */
  lemma BitsSetVec(p: RegPage, base: int, v: int)
    requires IsBitmap(base) && 0 <= v < 256
    ensures Bits(SetVec(p, base, v), base) == Bits(p, base) + {v}
    ensures forall b :: IsBitmap(b) && b != base ==> Bits(SetVec(p, base, v), b) == Bits(p, b)
    ensures SameOutsideBitmaps(p, SetVec(p, base, v))
  {
    hide Test, Bit, BitOf;
    var r := SetVec(p, base, v);
    SetVecSpec(p, base, v);
    forall b | IsBitmap(b)
      ensures Bits(r, b) == if b == base then Bits(p, b) + {v} else Bits(p, b)
    {
      assert forall u :: 0 <= u < 256 ==> (TestVec(r, b, u) == ((b == base && u == v) || TestVec(p, b, u)));
    }
  }

  /** Clearing a vector removes it from its bitmap and leaves everything else alone. */
  lemma BitsClearVec(p: RegPage, base: int, v: int)
    requires IsBitmap(base) && 0 <= v < 256
    ensures Bits(ClearVec(p, base, v), base) == Bits(p, base) - {v}
    ensures forall b :: IsBitmap(b) && b != base ==> Bits(ClearVec(p, base, v), b) == Bits(p, b)
    ensures SameOutsideBitmaps(p, ClearVec(p, base, v))
  {
    hide Test, Bit, BitOf;
    var r := ClearVec(p, base, v);
    ClearVecSpec(p, base, v);
    forall b | IsBitmap(b)
      ensures Bits(r, b) == if b == base then Bits(p, b) - {v} else Bits(p, b)
    {
      assert forall u :: 0 <= u < 256 ==> (TestVec(r, b, u) == (!(b == base && u == v) && TestVec(p, b, u)));
    }
  }

  /** Highest, stated on the set of vectors: -1 for the empty set, else its maximum. */
  lemma HighestIsMax(p: RegPage, base: int)
    requires IsBitmap(base)
    ensures Highest(p, base) == -1 <==> Bits(p, base) == {}
    ensures Highest(p, base) != -1 ==> Highest(p, base) in Bits(p, base)
    ensures forall u :: u in Bits(p, base) ==> u <= Highest(p, base)
  {
    hide Test, Bit, BitOf;
    HighestSpec(p, base);
    var h := Highest(p, base);
    if h == -1 {
      assert Bits(p, base) == {};
    } else {
      assert h in Bits(p, base);
    }
  }

  /** Pages with the same vectors in a bitmap have the same highest vector. */
  lemma HighestOfBits(p: RegPage, q: RegPage, base: int)
    requires IsBitmap(base) && Bits(p, base) == Bits(q, base)
    ensures Highest(p, base) == Highest(q, base)
  {
    hide Test, Bit, BitOf;
    forall u | 0 <= u < 256
      ensures TestVec(p, base, u) == TestVec(q, base, u)
    {
      assert TestVec(p, base, u) <==> u in Bits(p, base);
    }
    HighestDeterminedByBits(p, q, base);
  }

  /**
   * Scan of a bitmap from its top word down, one 32-bit word in every four,
   * as the emulation does it; the result is the highest set vector or -1.
   */
  method FindHighestVector(regs: array<bv32>, base: int) returns (r: int)
    requires regs.Length == PAGE_WORDS && IsBitmap(base)
    ensures r == Highest(regs[..], base)
  {
    hide Test, Bit, BitOf;
    ghost var p: RegPage := regs[..];
    var wordOffset := X86_IDT_VECTORS / 32;
    while wordOffset != 0 && regs[base / 4 + (wordOffset - 1) * 4] == 0
      invariant 0 <= wordOffset <= 8
      invariant forall i :: wordOffset <= i < 8 ==> p[base / 4 + 4 * i] == 0
      invariant wordOffset == 0 ==> p[base / 4] == 0
    {
      wordOffset := wordOffset - 1;
    }
    ghost var stop := wordOffset;
    // the scan stops on the lowest word when every word is zero
    if wordOffset != 0 {
      wordOffset := wordOffset - 1;
    }
    ScanStop(p, base, stop, wordOffset);
    assert regs[base / 4 + wordOffset * 4] == p[base / 4 + wordOffset * 4];
    r := (Fls(regs[base / 4 + wordOffset * 4]) - 1) + wordOffset * 32;
  }
}
