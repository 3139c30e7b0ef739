// Destination matching for interrupts sent between local APICs: physical
// and logical (flat, cluster and x2APIC) destinations, the destination
// shorthands, and the test for a destination that may name several vCPUs.

module Destination {
  import opened Bits32
  import opened ApicRegs

  /**
   * What matching needs to know of a target local APIC: its vCPU, whether
   * it is in x2APIC mode, and its ID, LDR and DFR registers.
   */
  datatype Target = Target(vcpuId: int, x2apic: bool, id: bv32, ldr: bv32, dfr: bv32)

  /** The 8-bit xAPIC logical ID: bits 31 to 24 of the LDR. */
  function XapicLogicalId(ldr: bv32): (r: bv32)
    ensures r < 0x100
  {
    (ldr >> 24) & 0xFF
  }

  /** The x2APIC cluster: the upper 16 bits of a logical ID or destination. */
  function Cluster(x: bv32): bv32
  {
    x >> 16
  }

  /** The low byte of a destination, as xAPIC logical matching sees it. */
  function LowByte(x: bv32): (r: bv32)
    ensures r < 0x100
  {
    x & 0xFF
  }

  /** The low 16 bits of a word. */
  function Low16(x: bv32): bv32
  {
    x & 0xFFFF
  }

  /** The low nibble of a word. */
  function LowNibble(x: bv32): bv32
  {
    x & 0xF
  }

  /** The xAPIC cluster of an 8-bit logical ID or destination: its high nibble. */
  function HighNibble(x: bv32): bv32
  {
    x >> 4
  }

  /** x2APIC logical match: the clusters agree and the low 16 bits share a set bit. */
  function MatchX2apicLogical(ldr: bv32, mda: bv32): bool
  {
    Cluster(ldr) == Cluster(mda) && Low16(ldr & mda) != 0
  }

  /** xAPIC flat-model match: the 8-bit logical ID and destination share a set bit. */
  function MatchFlat(id: bv32, m: bv32): bool
  {
    id & m != 0
  }

  /** xAPIC cluster-model match: the high nibbles agree and the low nibbles share a set bit. */
  function MatchCluster(id: bv32, m: bv32): bool
  {
    HighNibble(id) == HighNibble(m) && LowNibble(id & m) != 0
  }

  /**
   * Logical-destination match, by the target's mode and DFR model; a DFR
   * holding neither the flat nor the cluster value matches nothing.
   */
  function MatchLogical(t: Target, mda: bv32): bool
  {
    if t.x2apic then MatchX2apicLogical(t.ldr, mda)
    else if t.dfr == APIC_DFR_FLAT then MatchFlat(XapicLogicalId(t.ldr), LowByte(mda))
    else if t.dfr == APIC_DFR_CLUSTER then MatchCluster(XapicLogicalId(t.ldr), LowByte(mda))
    else false
  }

  /** The APIC ID as destinations name it: bits 31 to 24 in xAPIC mode, the whole register in x2APIC mode. */
  function ApicIdOf(x2apic: bool, idReg: bv32): bv32
  {
    if x2apic then idReg else (idReg >> 24) & 0xFF
  }

  /** The broadcast destination: all ones, cut down to the xAPIC ID width in xAPIC mode. */
  function Broadcast(x2apic: bool): bv32
  {
    ApicIdOf(x2apic, 0xFFFF_FFFF)
  }

  /**
   * Whether target t is a destination of an interrupt sent by the vCPU
   * sourceId with the given shorthand, destination and destination mode
   * (true for logical).
   */
  function MatchDest(t: Target, sourceId: int, shortHand: bv32, dest: bv32, destMode: bool): bool
  {
    if shortHand == APIC_DEST_NOSHORT then
      if destMode then MatchLogical(t, dest)
      else dest == Broadcast(t.x2apic) || dest == ApicIdOf(t.x2apic, t.id)
    else if shortHand == APIC_DEST_SELF then t.vcpuId == sourceId
    else if shortHand == APIC_DEST_ALLINC then true
    else if shortHand == APIC_DEST_ALLBUT then t.vcpuId != sourceId
    else false
  }

  // ---------------------------------------------------------------------
  // Logical matching as shared set bits
  // ---------------------------------------------------------------------

  lemma Low16Mask(k: bv5)
    ensures Test(0xFFFF, k) == (k < 16)
  {
  }

  lemma LowNibbleMask(k: bv5)
    ensures Test(0xF, k) == (k < 4)
  {
  }

  lemma Low16Test(x: bv32, k: bv5)
    ensures Test(Low16(x), k) == (k < 16 && Test(x, k))
  {
    hide Test;
    AndTest(x, 0xFFFF, k);
    Low16Mask(k);
  }

  lemma LowNibbleTest(x: bv32, k: bv5)
    ensures Test(LowNibble(x), k) == (k < 4 && Test(x, k))
  {
    hide Test;
    AndTest(x, 0xF, k);
    LowNibbleMask(k);
  }

  /**
   * In x2APIC mode a target matches exactly when the destination names its
   * cluster and one of the 16 logical-ID bits set in its LDR.
   */
  lemma MatchLogicalX2apic(t: Target, mda: bv32)
    requires t.x2apic
    ensures MatchLogical(t, mda) <==>
      Cluster(t.ldr) == Cluster(mda) && exists k: bv5 :: k < 16 && Test(t.ldr, k) && Test(mda, k)
  {
    hide Test, Bit, Cluster, Low16;
    var a, b := t.ldr, mda;
    NonZeroHasBit(Low16(a & b));
    if Low16(a & b) != 0 {
      var k: bv5 :| Test(Low16(a & b), k);
      Low16Test(a & b, k);
      AndTest(a, b, k);
    }
    if k: bv5 :| k < 16 && Test(a, k) && Test(b, k) {
      Low16Test(a & b, k);
      AndTest(a, b, k);
    }
  }

  /**
   * In xAPIC flat mode a target matches exactly when its 8-bit logical ID
   * and the low byte of the destination share a set bit.
   */
  lemma MatchLogicalFlat(t: Target, mda: bv32)
    requires !t.x2apic && t.dfr == APIC_DFR_FLAT
    ensures MatchLogical(t, mda) <==>
      exists k: bv5 :: Test(XapicLogicalId(t.ldr), k) && Test(LowByte(mda), k)
  {
    hide Test, Bit, XapicLogicalId, LowByte, MatchX2apicLogical, MatchCluster;
    CommonBit(XapicLogicalId(t.ldr), LowByte(mda));
  }

  /**
   * In xAPIC cluster mode a target matches exactly when the destination's
   * high nibble names the target's cluster and the low nibbles share a set
   * bit.
   */
  lemma MatchLogicalCluster(t: Target, mda: bv32)
    requires !t.x2apic && t.dfr == APIC_DFR_CLUSTER
    ensures var id := XapicLogicalId(t.ldr); var m := LowByte(mda);
      MatchLogical(t, mda) <==>
        HighNibble(id) == HighNibble(m) && exists k: bv5 :: k < 4 && Test(id, k) && Test(m, k)
  {
    hide Test, Bit, XapicLogicalId, LowByte, HighNibble, LowNibble, MatchX2apicLogical, MatchFlat;
    var id := XapicLogicalId(t.ldr);
    var m := LowByte(mda);
    NonZeroHasBit(LowNibble(id & m));
    if LowNibble(id & m) != 0 {
      var k: bv5 :| Test(LowNibble(id & m), k);
      LowNibbleTest(id & m, k);
      AndTest(id, m, k);
    }
    if k: bv5 :| k < 4 && Test(id, k) && Test(m, k) {
      LowNibbleTest(id & m, k);
      AndTest(id, m, k);
    }
  }

  /** A DFR in neither flat nor cluster form matches no logical destination. */
  lemma MatchLogicalBadDfr(t: Target, mda: bv32)
    requires !t.x2apic && t.dfr != APIC_DFR_FLAT && t.dfr != APIC_DFR_CLUSTER
    ensures !MatchLogical(t, mda)
  {
    hide MatchX2apicLogical, MatchFlat, MatchCluster;
  }

  // ---------------------------------------------------------------------
  // Shorthands and physical destinations
  // ---------------------------------------------------------------------

  /**
   * The shorthands: "self" reaches exactly the sender, "all including self"
   * every target, and "all but self" exactly the targets "self" does not
   * reach; the destination field is ignored by all three.
   */
  lemma Shorthands(t: Target, sourceId: int, dest: bv32, dest2: bv32, destMode: bool, destMode2: bool)
    ensures MatchDest(t, sourceId, APIC_DEST_SELF, dest, destMode) <==> t.vcpuId == sourceId
    ensures MatchDest(t, sourceId, APIC_DEST_ALLINC, dest, destMode)
    ensures MatchDest(t, sourceId, APIC_DEST_ALLBUT, dest, destMode) <==>
      MatchDest(t, sourceId, APIC_DEST_ALLINC, dest2, destMode2) &&
      !MatchDest(t, sourceId, APIC_DEST_SELF, dest2, destMode2)
  {
    hide MatchLogical, ApicIdOf, Broadcast;
  }

  /** A shorthand field outside the four encodings reaches nobody. */
  lemma UnknownShorthand(t: Target, sourceId: int, shortHand: bv32, dest: bv32, destMode: bool)
    requires shortHand !in {APIC_DEST_NOSHORT, APIC_DEST_SELF, APIC_DEST_ALLINC, APIC_DEST_ALLBUT}
    ensures !MatchDest(t, sourceId, shortHand, dest, destMode)
  {
    hide MatchLogical, ApicIdOf, Broadcast;
  }

  /**
   * A physical destination reaches every target when it is the broadcast ID
   * of the target's mode, and otherwise exactly the targets whose APIC ID it
   * is; so two targets in the same mode with different APIC IDs are never
   * both reached by one non-broadcast physical destination.
   */
  lemma PhysicalDest(t: Target, u: Target, sourceId: int, dest: bv32)
    ensures MatchDest(t, sourceId, APIC_DEST_NOSHORT, Broadcast(t.x2apic), false)
    ensures dest != Broadcast(t.x2apic) ==>
      (MatchDest(t, sourceId, APIC_DEST_NOSHORT, dest, false) <==> dest == ApicIdOf(t.x2apic, t.id))
    ensures t.x2apic == u.x2apic && dest != Broadcast(t.x2apic) &&
            ApicIdOf(t.x2apic, t.id) != ApicIdOf(u.x2apic, u.id) ==>
      !(MatchDest(t, sourceId, APIC_DEST_NOSHORT, dest, false) &&
        MatchDest(u, sourceId, APIC_DEST_NOSHORT, dest, false))
  {
    hide MatchLogical, ApicIdOf, Broadcast;
  }

  // ---------------------------------------------------------------------
  // Destinations that may name several vCPUs
  // ---------------------------------------------------------------------

  /** More than one bit is set: clearing the lowest set bit leaves some bit. */
  predicate MultipleBitsSet(x: bv32)
  {
    x & (x - 1) != 0
  }

  /** Below the higher of two set bits, subtracting one borrows no further than the lower. */
  lemma TwoBitsSurvive(x: bv32, j: bv5, k: bv5)
    requires j < k && Test(x, j) && Test(x, k)
    ensures Test(x & (x - 1), k)
  {
  }

  /** A word whose only set bit is k is Bit(k). */
  lemma OnlyBit(x: bv32, k: bv5)
    requires Test(x, k) && forall j: bv5 :: j != k ==> !Test(x, j)
    ensures x == Bit(k)
  {
    hide Test;
    var y := x & !Bit(k);
    forall j: bv5 ensures !Test(y, j) {
      ClearBitTest(x, k, j);
    }
    NoBitsZero(y);
    assert x & !Bit(k) == 0;
  }

  lemma SingleBitAlone(k: bv5)
    ensures Bit(k) & (Bit(k) - 1) == 0
  {
  }

  /** multiple_bits_set holds exactly when two different bits are set. */
  lemma MultipleBitsSetSpec(x: bv32)
    ensures MultipleBitsSet(x) <==> exists j: bv5, k: bv5 :: j != k && Test(x, j) && Test(x, k)
  {
    hide Test, Bit;
    if exists j: bv5, k: bv5 :: j != k && Test(x, j) && Test(x, k) {
      var j: bv5, k: bv5 :| j != k && Test(x, j) && Test(x, k);
      if j < k {
        TwoBitsSurvive(x, j, k);
      } else {
        TwoBitsSurvive(x, k, j);
      }
      ZeroNoBits(if j < k then k else j);
    } else if MultipleBitsSet(x) {
      NonZeroHasBit(x & (x - 1));
      var k: bv5 :| Test(x & (x - 1), k);
      AndTest(x, x - 1, k);
      OnlyBit(x, k);
      SingleBitAlone(k);
      assert false;
    }
  }

  /**
   * Whether an interrupt may go to several vCPUs, used only to batch the
   * wake-ups: never with two vCPUs or fewer; with a shorthand, unless it is
   * "self"; for a logical destination, when it names several logical-ID
   * bits (in xAPIC mode only those the sender's DFR model field keeps); for
   * a physical one, when it is the broadcast ID.
   */
  function IsMulticast(maxVcpus: int, x2apic: bool, dfr: bv32, shortHand: bv32, dest: bv32, destMode: bool): bool
  {
    if maxVcpus <= 2 then false
    else if shortHand != 0 then shortHand != APIC_DEST_SELF
    else if x2apic then
      if destMode then MultipleBitsSet(Low16(dest)) else dest == 0xFFFF_FFFF
    else if destMode then MultipleBitsSet(LowByte(dest & ((dfr >> 24) & 0xFF)))
    else dest == 0xFF
  }

  /**
   * A physical destination other than the broadcast ID, the "self"
   * shorthand, and a logical destination naming at most one logical-ID bit
   * are never treated as multicast.
   */
  lemma SingleDestinations(maxVcpus: int, x2apic: bool, dfr: bv32, dest: bv32)
    ensures !IsMulticast(maxVcpus, x2apic, dfr, APIC_DEST_SELF, dest, false)
    ensures !IsMulticast(maxVcpus, x2apic, dfr, APIC_DEST_SELF, dest, true)
    ensures dest != Broadcast(x2apic) ==> !IsMulticast(maxVcpus, x2apic, dfr, APIC_DEST_NOSHORT, dest, false)
    ensures x2apic && (forall j: bv5, k: bv5 :: j != k && Test(Low16(dest), j) ==> !Test(Low16(dest), k)) ==>
      !IsMulticast(maxVcpus, x2apic, dfr, APIC_DEST_NOSHORT, dest, true)
  {
    hide Test, Bit, MultipleBitsSet, Low16, LowByte;
    MultipleBitsSetSpec(Low16(dest));
  }
}
