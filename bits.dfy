// Single bits of a 32-bit register word.
//
// A bit number is a 5-bit value, so that every fact about single bits is a
// statement about bit-vectors alone; BitOf turns a vector number into the
// number of its bit within a word without converting integers to
// bit-vectors, which keeps these facts cheap to use in larger proofs.

module Bits32 {

  /** The word with only bit k set. */
  function Bit(k: bv5): bv32
  {
    (1 as bv32) << k
  }

  /** Bit k of w is set. */
  predicate Test(w: bv32, k: bv5)
  {
    w & Bit(k) != 0
  }

  /** The bit number of n within its 32-bit word: n modulo 32. */
  function BitOf(n: int): (k: bv5)
    requires 0 <= n
    ensures k as int == n % 32
  {
    BitNum(n % 32)
  }

  // BitNum counts up instead of converting the integer, and BitOf wraps it
  // in a non-recursive function so that every use of BitOf(n) is one and
  // the same term for the verifier.
  function BitNum(m: int): (k: bv5)
    requires 0 <= m < 32
    ensures k as int == m
  {
    if m == 0 then 0 else BitSucc(BitNum(m - 1))
  }

  /** The next bit number, for one below 31. */
  function BitSucc(k: bv5): (r: bv5)
    requires k as int < 31
    ensures r as int == k as int + 1
  {
    k + 1
  }

  /** Two numbers have the same bit number exactly when they agree modulo 32. */
  lemma BitOfSame(n: int, m: int)
    requires 0 <= n && 0 <= m
    ensures BitOf(n) == BitOf(m) <==> n % 32 == m % 32
  {
    if n % 32 == m % 32 {
      BitNumEq(BitOf(n), BitOf(m));
    }
  }

  lemma BitNumEq(a: bv5, b: bv5)
    requires a as int == b as int
    ensures a == b
  {
  }

  /** Every bit number is the bit number of itself read as an integer. */
  lemma BitOfNum(k: bv5)
    ensures BitOf(k as int) == k
  {
    hide BitOf, BitNum;
    var n := k as int;
    assert 0 <= n < 32;
    BitNumEq(BitOf(n), k);
  }

  lemma ZeroNoBits(k: bv5)
    ensures !Test(0, k)
  {
  }

  lemma BitNonZero(k: bv5)
    ensures Bit(k) != 0
  {
  }

  lemma BitsDisjoint(k: bv5, j: bv5)
    requires k != j
    ensures Bit(k) & Bit(j) == 0
  {
  }

  /** Two single-bit words share a bit exactly when they are the same bit. */
  lemma BitsMeet(k: bv5, j: bv5)
    ensures Bit(k) & Bit(j) != 0 <==> k == j
    ensures Bit(k) == Bit(j) <==> k == j
  {
    if k != j {
      BitsDisjoint(k, j);
      BitNonZero(k);
    } else {
      BitNonZero(k);
    }
  }

  lemma OrSelf(w: bv32, x: bv32)
    ensures (w | x) & x == x
  {
  }

  lemma OrDisjoint(w: bv32, x: bv32, y: bv32)
    requires x & y == 0
    ensures (w | x) & y == w & y
  {
  }

  lemma AndNotSelf(w: bv32, x: bv32)
    ensures (w & !x) & x == 0
  {
  }

  lemma AndNotDisjoint(w: bv32, x: bv32, y: bv32)
    requires x & y == 0
    ensures (w & !x) & y == w & y
  {
  }

  lemma SetOwnBit(w: bv32, k: bv5)
    ensures Test(w | Bit(k), k)
  {
    BitNonZero(k);
    OrSelf(w, Bit(k));
  }

  lemma SetOtherBit(w: bv32, k: bv5, j: bv5)
    requires j != k
    ensures Test(w | Bit(k), j) == Test(w, j)
  {
    BitsDisjoint(k, j);
    OrDisjoint(w, Bit(k), Bit(j));
  }

  lemma ClearOwnBit(w: bv32, k: bv5)
    ensures !Test(w & !Bit(k), k)
  {
    AndNotSelf(w, Bit(k));
  }

  lemma ClearOtherBit(w: bv32, k: bv5, j: bv5)
    requires j != k
    ensures Test(w & !Bit(k), j) == Test(w, j)
  {
    BitsDisjoint(k, j);
    AndNotDisjoint(w, Bit(k), Bit(j));
  }

  /** Setting bit k sets exactly bit k. */
  lemma SetBitTest(w: bv32, k: bv5, j: bv5)
    ensures Test(w | Bit(k), j) == (j == k || Test(w, j))
  {
    if j == k {
      SetOwnBit(w, k);
    } else {
      SetOtherBit(w, k, j);
    }
  }

  /** w with bit k set, as an error latch records a new error. */
  function SetBit(w: bv32, k: bv5): bv32
  {
    w | Bit(k)
  }

  /** Setting a bit sets it and keeps every bit already set. */
  lemma SetBitKeeps(w: bv32, k: bv5)
    ensures Test(SetBit(w, k), k)
    ensures forall j: bv5 :: Test(w, j) ==> Test(SetBit(w, k), j)
  {
    hide Test, Bit;
    SetOwnBit(w, k);
    forall j: bv5 | Test(w, j)
      ensures Test(SetBit(w, k), j)
    {
      SetBitTest(w, k, j);
    }
  }

  /** Clearing bit k clears exactly bit k. */
  lemma ClearBitTest(w: bv32, k: bv5, j: bv5)
    ensures Test(w & !Bit(k), j) == (j != k && Test(w, j))
  {
    if j == k {
      ClearOwnBit(w, k);
    } else {
      ClearOtherBit(w, k, j);
    }
  }

  /** A bit of a conjunction is set exactly when it is set in both words. */
  lemma AndTest(w: bv32, m: bv32, k: bv5)
    ensures Test(w & m, k) == (Test(w, k) && Test(m, k))
  {
  }

  /** A word is nonzero exactly when some bit of it is set. */
  lemma NonZeroHasBit(w: bv32)
    ensures w != 0 <==> exists k: bv5 :: Test(w, k)
  {
    hide Test, Bit;
    if w != 0 {
      if forall k: bv5 :: !Test(w, k) {
        NoBitsZero(w);
      }
    } else {
      forall k: bv5 ensures !Test(w, k) {
        ZeroNoBits(k);
      }
    }
  }

  /** Two words share a set bit exactly when their conjunction is nonzero. */
  lemma CommonBit(w: bv32, m: bv32)
    ensures w & m != 0 <==> exists k: bv5 :: Test(w, k) && Test(m, k)
  {
    hide Test, Bit;
    NonZeroHasBit(w & m);
    forall k: bv5 ensures Test(w & m, k) == (Test(w, k) && Test(m, k)) {
      AndTest(w, m, k);
    }
  }

  /** A word with no bit set is zero. */
  lemma NoBitsZero(w: bv32)
    requires forall k: bv5 :: !Test(w, k)
    ensures w == 0
  {
    assert !Test(w, 0) && !Test(w, 1) && !Test(w, 2) && !Test(w, 3)
        && !Test(w, 4) && !Test(w, 5) && !Test(w, 6) && !Test(w, 7)
        && !Test(w, 8) && !Test(w, 9) && !Test(w, 10) && !Test(w, 11)
        && !Test(w, 12) && !Test(w, 13) && !Test(w, 14) && !Test(w, 15)
        && !Test(w, 16) && !Test(w, 17) && !Test(w, 18) && !Test(w, 19)
        && !Test(w, 20) && !Test(w, 21) && !Test(w, 22) && !Test(w, 23)
        && !Test(w, 24) && !Test(w, 25) && !Test(w, 26) && !Test(w, 27)
        && !Test(w, 28) && !Test(w, 29) && !Test(w, 30) && !Test(w, 31);
  }
}
