// The domain-wide side of the virtual LAPIC (xen/arch/x86/hvm/vlapic.c):
// lowest-priority arbitration, interprocessor interrupts, and the register
// writes that reach them (MMIO, APIC-virtualisation traps and x2APIC MSRs).

module DomainApic {
  import opened Bits32
  import opened ApicRegs
  import opened VecBitmap
  import opened Lapic
  import opened Destination
  import opened Timer
  import opened RegFile
  import opened Vlapic

  // ---------------------------------------------------------------------
  // The round-robin order of lowest-priority arbitration
  // ---------------------------------------------------------------------

  /**
   * Where vCPU i comes in a scan of n vCPUs that starts just after prev and
   * wraps around: prev + 1 first, prev itself last.
   */
  function RoundRobinPos(n: nat, prev: nat, i: nat): (pos: nat)
    requires prev < n && i < n
    ensures pos < n
    ensures i == prev ==> pos == n - 1
  {
    if i > prev then i - prev - 1 else i + n - prev - 1
  }

  /** The vCPU visited at step m (counting from 1) of that scan: the only one at position m - 1. */
  function RoundRobinAt(n: nat, prev: nat, m: nat): (i: nat)
    requires prev < n && 1 <= m <= n
    ensures i < n && RoundRobinPos(n, prev, i) == m - 1
    ensures forall j :: 0 <= j < n && RoundRobinPos(n, prev, j) == m - 1 ==> j == i
  {
    if prev + m < n then prev + m else prev + m - n
  }

  /** Two vCPUs never share a place in the scan. */
  lemma RoundRobinPosInjective(n: nat, prev: nat, i: nat, j: nat)
    requires prev < n && i < n && j < n
    ensures RoundRobinPos(n, prev, i) == RoundRobinPos(n, prev, j) <==> i == j
  {
  }

  // ---------------------------------------------------------------------
  // How an interprocessor interrupt is routed
  // ---------------------------------------------------------------------

  /**
   * The routes of an IPI: INIT and STARTUP are latched for a deferred
   * worker; a lowest-priority message goes through arbitration (and is
   * refused afterwards when its vector is illegal); a fixed message with an
   * illegal vector is refused; everything else goes to every destination.
   */
  datatype Route = Latch | Arbitrate(illegal: bool) | Refuse | ToAll

  function RouteOf(icrLow: bv32): (r: Route)
    ensures r == Latch <==> !Acceptable(icrLow)
    ensures r.Arbitrate? <==> DeliveryMode(icrLow) == APIC_DM_LOWEST
    ensures r.Arbitrate? ==> (r.illegal <==> !VectorValid(icrLow))
    ensures r == Refuse <==> DeliveryMode(icrLow) == APIC_DM_FIXED && !VectorValid(icrLow)
    ensures r == ToAll <==> Acceptable(icrLow) && DeliveryMode(icrLow) != APIC_DM_LOWEST &&
                            (DeliveryMode(icrLow) == APIC_DM_FIXED ==> VectorValid(icrLow))
  {
    var dm := DeliveryMode(icrLow);
    if dm == APIC_DM_INIT || dm == APIC_DM_STARTUP then Latch
    else if dm == APIC_DM_LOWEST then Arbitrate(!VectorValid(icrLow))
    else if dm == APIC_DM_FIXED && !VectorValid(icrLow) then Refuse
    else ToAll
  }

  /** The destination field of ICR2 as the sender's mode reads it. */
  function IpiDest(x2apic: bool, icrHigh: bv32): bv32
  {
    ApicIdOf(x2apic, icrHigh)
  }

  function ShortHand(icrLow: bv32): bv32
  {
    icrLow & APIC_SHORT_MASK
  }

  function LogicalDest(icrLow: bv32): bool
  {
    icrLow & APIC_DEST_MASK != 0
  }

  /**
   * The value an MMIO write of len bytes at byte al of a register hands to
   * the register write: a one- or two-byte write is merged into the
   * register's current value; any other length passes the low 32 bits of
   * the value through unchanged.
   */
  function MmioValue(current: bv32, val: bv64, al: int, len: int): bv32
    requires 0 <= al && 0 <= len && al + len <= 4
  {
    if 1 <= len < 3 then SubMerge(current, Lo32(val), al, len) else Lo32(val)
  }

  /**
   * A one-byte MMIO write reads back as the byte written and keeps the
   * other three bytes; a two-byte write reads back as the half written and
   * keeps the other two bytes; any other length stores the low 32 bits.
   */
  lemma MmioValueReadBack(current: bv32, val: bv64, al: int, len: int)
    requires 0 <= al && 0 <= len && al + len <= 4
    ensures var r := MmioValue(current, val, al, len);
      && (len == 1 ==> SubRead(r, al, 1) == Lo32(val) & 0xFF)
      && (len == 1 ==> forall b :: 0 <= b < 4 && b != al ==> SubRead(r, b, 1) == SubRead(current, b, 1))
      && (len == 2 ==> SubRead(r, al, 2) == Lo32(val) & 0xFFFF)
      && (len == 2 ==> forall b :: 0 <= b < 4 && b != al && b != al + 1 ==> SubRead(r, b, 1) == SubRead(current, b, 1))
      && (len == 0 || len >= 3 ==> r == Lo32(val))
  {
    hide SubRead, SubMerge, Lo32;
    var v := Lo32(val);
    if len == 1 {
      ByteWriteReadBack(current, v, al, al);
      forall b | 0 <= b < 4 && b != al
        ensures SubRead(SubMerge(current, v, al, 1), b, 1) == SubRead(current, b, 1)
      {
        ByteWriteReadBack(current, v, al, b);
      }
    } else if len == 2 {
      HalfWriteReadBack(current, v, al, 0);
      forall b | 0 <= b < 4 && b != al && b != al + 1
        ensures SubRead(SubMerge(current, v, al, 2), b, 1) == SubRead(current, b, 1)
      {
        HalfWriteReadBack(current, v, al, b);
      }
    }
  }

  /**
   * The register write an APIC-write exit at the given offset replays, or
   * None when it cannot be handled: in x2APIC mode only a self-IPI can be,
   * and it becomes an ICR write of a fixed interrupt to self with the
   * vector written; in xAPIC mode the value found in the register holding
   * the offset is written again at that offset.
   */
  function ApicvWriteOf(x2apic: bool, offset: int, page: RegPage): (r: Option<(int, bv32)>)
    requires 0 <= offset < PAGE_SIZE
    ensures r.None? <==> x2apic && offset != APIC_SELF_IPI
    ensures x2apic && r.Some? ==>
      r.value.0 == APIC_ICR && DeliveryMode(r.value.1) == APIC_DM_FIXED && ShortHand(r.value.1) == APIC_DEST_SELF
      && r.value.1 & APIC_VECTOR_MASK == Reg(page, APIC_SELF_IPI) & APIC_VECTOR_MASK
    ensures !x2apic ==> r == Some((offset, Reg(page, offset - offset % 16)))
  {
    var val := Reg(page, offset - offset % 16);
    if !x2apic then Some((offset, val))
    else if offset != APIC_SELF_IPI then None
    else Some((APIC_ICR, APIC_DEST_SELF | (val & APIC_VECTOR_MASK)))
  }

  // ---------------------------------------------------------------------
  // The domain
  // ---------------------------------------------------------------------

  class Domain {
    /** The vCPUs' LAPICs, in vCPU order; vCPU i has the i-th. */
    const vcpus: seq<VLapic>
    /** The vCPU lowest-priority arbitration chose last; the next scan starts after it. */
    var roundRobinPrev: nat
    /** Set once a restored x2APIC LDR is found derived from the vCPU number rather than the APIC ID. */
    var bugLdrFromVcpu: bool

    /** Every LAPIC object and register page of the domain. */
    ghost function Objects(): set<object>
    {
      (set i | 0 <= i < |vcpus| :: vcpus[i] as object) + (set i | 0 <= i < |vcpus| :: vcpus[i].regs as object)
    }

    /** vCPU i has the i-th LAPIC, and no two vCPUs share a LAPIC or a register page. */
    ghost predicate Layout()
    {
      && (forall i :: 0 <= i < |vcpus| ==> vcpus[i].vcpuIndex == i)
      && (forall i, j :: 0 <= i < j < |vcpus| ==> vcpus[i] != vcpus[j] && vcpus[i].regs != vcpus[j].regs)
    }

    ghost predicate Valid()
      reads Objects()
    {
      Layout() && forall i :: 0 <= i < |vcpus| ==> vcpus[i].Valid()
    }

    /** A domain over the given LAPICs, with the round-robin cursor at vCPU 0. */
    constructor (lapics: seq<VLapic>)
      requires forall i :: 0 <= i < |lapics| ==> lapics[i].vcpuIndex == i && lapics[i].Valid()
      requires forall i, j :: 0 <= i < j < |lapics| ==> lapics[i] != lapics[j] && lapics[i].regs != lapics[j].regs
      ensures Valid() && vcpus == lapics && roundRobinPrev == 0 && !bugLdrFromVcpu
    {
      vcpus := lapics;
      roundRobinPrev := 0;
      bugLdrFromVcpu := false;
    }

    /** vCPU i is a destination of the message from vCPU src and its LAPIC is enabled. */
    predicate Eligible(src: nat, i: nat, sh: bv32, dest: bv32, destMode: bool)
      reads vcpus[i], vcpus[i].regs
      requires i < |vcpus| && vcpus[i].Valid()
    {
      MatchDest(vcpus[i].TargetOf(), src, sh, dest, destMode) && vcpus[i].Enabled()
    }

    /** The processor priority of vCPU i. */
    function PprAt(i: nat): int
      reads vcpus[i].regs
      requires i < |vcpus| && vcpus[i].regs.Length == PAGE_WORDS
    {
      Ppr(vcpus[i].regs[..])
    }

    /** No vCPU among the first bound of the scan after prev is eligible. */
    ghost predicate NoneEligible(src: nat, prev: nat, bound: nat, sh: bv32, dest: bv32, destMode: bool)
      reads Objects()
      requires Valid() && prev < |vcpus|
    {
      forall i :: 0 <= i < |vcpus| && RoundRobinPos(|vcpus|, prev, i) < bound ==> !Eligible(src, i, sh, dest, destMode)
    }

    /**
     * vCPU t beats every eligible vCPU among the first bound of the scan
     * after prev: by a lower PPR, or by an equal one and an earlier place.
     */
    ghost predicate Beats(src: nat, t: nat, prev: nat, bound: nat, sh: bv32, dest: bv32, destMode: bool)
      reads Objects()
      requires Valid() && t < |vcpus| && prev < |vcpus|
    {
      forall i :: 0 <= i < |vcpus| && RoundRobinPos(|vcpus|, prev, i) < bound && Eligible(src, i, sh, dest, destMode) ==>
        PprAt(t) < PprAt(i) ||
        (PprAt(t) == PprAt(i) && RoundRobinPos(|vcpus|, prev, t) <= RoundRobinPos(|vcpus|, prev, i))
    }

    /**
     * vCPU t wins lowest-priority arbitration for a scan starting after
     * prev: it is eligible, no eligible vCPU has a lower PPR, and among
     * those with its PPR it comes first in the scan.
     */
    ghost predicate IsLowest(src: nat, t: nat, prev: nat, sh: bv32, dest: bv32, destMode: bool)
      reads Objects()
      requires Valid() && t < |vcpus| && prev < |vcpus|
    {
      Eligible(src, t, sh, dest, destMode) && Beats(src, t, prev, |vcpus|, sh, dest, destMode)
    }

    /** Arbitration has at most one winner. */
    lemma LowestUnique(src: nat, t: nat, u: nat, prev: nat, sh: bv32, dest: bv32, destMode: bool)
      requires Valid() && t < |vcpus| && u < |vcpus| && prev < |vcpus|
      requires IsLowest(src, t, prev, sh, dest, destMode) && IsLowest(src, u, prev, sh, dest, destMode)
      ensures t == u
    {
      RoundRobinPosInjective(|vcpus|, prev, t, u);
    }

    /** A whole scan covers every vCPU. */
    lemma NoneEligibleAll(src: nat, prev: nat, sh: bv32, dest: bv32, destMode: bool)
      requires Valid() && prev < |vcpus|
      ensures NoneEligible(src, prev, |vcpus|, sh, dest, destMode) <==>
        forall i :: 0 <= i < |vcpus| ==> !Eligible(src, i, sh, dest, destMode)
    {
    }

    /** One more step of the scan that finds nothing eligible. */
    lemma NoneStep(src: nat, prev: nat, m: nat, sh: bv32, dest: bv32, destMode: bool)
      requires Valid() && prev < |vcpus| && 1 <= m <= |vcpus|
      requires NoneEligible(src, prev, m - 1, sh, dest, destMode)
      requires !Eligible(src, RoundRobinAt(|vcpus|, prev, m), sh, dest, destMode)
      ensures NoneEligible(src, prev, m, sh, dest, destMode)
    {
    }

    /** A step of the scan that finds no better vCPU keeps the winner so far. */
    lemma KeepStep(src: nat, t: nat, prev: nat, m: nat, sh: bv32, dest: bv32, destMode: bool)
      requires Valid() && t < |vcpus| && prev < |vcpus| && 1 <= m <= |vcpus|
      requires RoundRobinPos(|vcpus|, prev, t) < m - 1 && Beats(src, t, prev, m - 1, sh, dest, destMode)
      requires var i := RoundRobinAt(|vcpus|, prev, m);
        !Eligible(src, i, sh, dest, destMode) || PprAt(t) <= PprAt(i)
      ensures Beats(src, t, prev, m, sh, dest, destMode)
    {
    }

    /** A step of the scan that finds the first eligible vCPU, or one of strictly lower PPR, makes it the winner. */
    lemma TakeStep(src: nat, t: int, prev: nat, m: nat, sh: bv32, dest: bv32, destMode: bool)
      requires Valid() && -1 <= t < |vcpus| && prev < |vcpus| && 1 <= m <= |vcpus|
      requires t == -1 ==> NoneEligible(src, prev, m - 1, sh, dest, destMode)
      requires t != -1 ==> Beats(src, t, prev, m - 1, sh, dest, destMode) &&
                           PprAt(RoundRobinAt(|vcpus|, prev, m)) < PprAt(t)
      ensures Beats(src, RoundRobinAt(|vcpus|, prev, m), prev, m, sh, dest, destMode)
    {
    }

    /**
     * After the first bound steps of the scan after prev: t is -1 exactly
     * when nothing eligible was seen (best is then UINT_MAX); otherwise t is
     * an eligible vCPU seen so far that beats all others seen, and best is
     * its PPR.
     */
    ghost predicate ScanSoFar(src: nat, prev: nat, bound: nat, t: int, best: int, sh: bv32, dest: bv32, destMode: bool)
      reads Objects()
      requires Valid() && prev < |vcpus|
    {
      && -1 <= t < |vcpus|
      && (t == -1 <==> NoneEligible(src, prev, bound, sh, dest, destMode))
      && (t == -1 ==> best == 0xFFFF_FFFF)
      && (t != -1 ==>
            && RoundRobinPos(|vcpus|, prev, t) < bound && Eligible(src, t, sh, dest, destMode) && best == PprAt(t)
            && Beats(src, t, prev, bound, sh, dest, destMode))
    }

    /** Step m of the scan: visit the next vCPU and keep it if it is eligible with a PPR below the best so far. */
    method ScanStep(src: nat, prev: nat, m: nat, t: int, best: int, sh: bv32, dest: bv32, destMode: bool)
      returns (t': int, best': int)
      requires Valid() && prev < |vcpus| && 1 <= m <= |vcpus|
      requires ScanSoFar(src, prev, m - 1, t, best, sh, dest, destMode)
      ensures ScanSoFar(src, prev, m, t', best', sh, dest, destMode)
    {
      hide Eligible, Ppr, RoundRobinPos, RoundRobinAt;
      t', best' := t, best;
      var i := RoundRobinAt(|vcpus|, prev, m);
      if Eligible(src, i, sh, dest, destMode) {
        var ppr := vcpus[i].GetPpr();
        PprCoversService(vcpus[i].regs[..]);
        if ppr < best {
          TakeStep(src, t, prev, m, sh, dest, destMode);
          t', best' := i, ppr;
        } else {
          KeepStep(src, t, prev, m, sh, dest, destMode);
        }
      } else if t == -1 {
        NoneStep(src, prev, m, sh, dest, destMode);
      } else {
        KeepStep(src, t, prev, m, sh, dest, destMode);
      }
    }

    /** Scan every vCPU once, starting after prev, for the winner of arbitration (-1 for none). */
    method Scan(src: nat, prev: nat, sh: bv32, dest: bv32, destMode: bool) returns (t: int)
      requires Valid() && prev < |vcpus|
      ensures -1 <= t < |vcpus|
      ensures t == -1 <==> NoneEligible(src, prev, |vcpus|, sh, dest, destMode)
      ensures t != -1 ==> IsLowest(src, t, prev, sh, dest, destMode) && Eligible(src, t, sh, dest, destMode)
    {
      hide Eligible, Beats, NoneEligible;
      t := -1;
      var best := 0xFFFF_FFFF;
      assert ScanSoFar(src, prev, 0, t, best, sh, dest, destMode) by {
        assert NoneEligible(src, prev, 0, sh, dest, destMode) by {
          NoneEligibleEmpty(src, prev, sh, dest, destMode);
        }
      }
      hide ScanSoFar;
      var m := 1;
      while m <= |vcpus|
        invariant 1 <= m <= |vcpus| + 1
        invariant ScanSoFar(src, prev, m - 1, t, best, sh, dest, destMode)
      {
        t, best := ScanStep(src, prev, m, t, best, sh, dest, destMode);
        m := m + 1;
      }
      ScanSoFarDone(src, prev, t, best, sh, dest, destMode);
    }

    /** At the start of the scan nothing has been seen. */
    lemma NoneEligibleEmpty(src: nat, prev: nat, sh: bv32, dest: bv32, destMode: bool)
      requires Valid() && prev < |vcpus|
      ensures NoneEligible(src, prev, 0, sh, dest, destMode)
    {
    }

    /** At the end of the scan the state says who won. */
    lemma ScanSoFarDone(src: nat, prev: nat, t: int, best: int, sh: bv32, dest: bv32, destMode: bool)
      requires Valid() && prev < |vcpus| && ScanSoFar(src, prev, |vcpus|, t, best, sh, dest, destMode)
      ensures -1 <= t < |vcpus|
      ensures t == -1 <==> NoneEligible(src, prev, |vcpus|, sh, dest, destMode)
      ensures t != -1 ==> IsLowest(src, t, prev, sh, dest, destMode) && Eligible(src, t, sh, dest, destMode)
    {
    }

    /**
     * Lowest-priority arbitration: scan every vCPU once, starting after the
     * one chosen last, and keep the first eligible vCPU of strictly lowest
     * PPR; the cursor moves to the winner. There is no winner when no vCPU
     * is eligible or when the cursor names no vCPU.
     */
    method LowestPrio(src: nat, sh: bv32, dest: bv32, destMode: bool) returns (t: int)
      requires Valid()
      modifies this`roundRobinPrev
      ensures -1 <= t < |vcpus|
      ensures old(roundRobinPrev) >= |vcpus| ==> t == -1
      ensures old(roundRobinPrev) < |vcpus| ==>
        (t == -1 <==> forall i :: 0 <= i < |vcpus| ==> !old(Eligible(src, i, sh, dest, destMode)))
      ensures t != -1 ==> old(IsLowest(src, t, roundRobinPrev, sh, dest, destMode))
      ensures roundRobinPrev == if t == -1 then old(roundRobinPrev) else t
    {
      hide IsLowest, NoneEligible;
      t := -1;
      var prev := roundRobinPrev;
      if prev >= |vcpus| {
        return;
      }
      t := Scan(src, prev, sh, dest, destMode);
      NoneEligibleAll(src, prev, sh, dest, destMode);
      forall i | 0 <= i < |vcpus|
        ensures Eligible(src, i, sh, dest, destMode) == old(Eligible(src, i, sh, dest, destMode))
      {
      }
      if t != -1 {
        assert this !in Objects();
        roundRobinPrev := t;
        assert Eligible(src, t, sh, dest, destMode);
        assert IsLowest(src, t, prev, sh, dest, destMode);
      }
    }

    /**
     * What vCPU i becomes on receiving the message from vCPU src: a
     * destination accepts it, any other vCPU is left as it is.
     */
    ghost function Received(src: nat, i: nat, icrLow: bv32, sh: bv32, dest: bv32, destMode: bool): Accepted
      reads vcpus[i], vcpus[i].regs
      requires i < |vcpus| && vcpus[i].Valid() && Acceptable(icrLow)
    {
      var v := vcpus[i];
      if MatchDest(v.TargetOf(), src, sh, dest, destMode) then Accept(v.Snap(), icrLow, v.Enabled(), v.isInitialised, v.plat)
      else Accepted(v.Snap(), false)
    }

    /** ICR2 lies outside the vector bitmaps. */
    static lemma Icr2OutsideBitmaps(p: RegPage, q: RegPage)
      ensures SameOutsideBitmaps(p, q) ==> q[APIC_ICR2 / 4] == p[APIC_ICR2 / 4]
    {
    }

    /** Receiving a message changes no register of the receiver outside its vector bitmaps. */
    lemma ReceivedKeepsRegisters(src: nat, i: nat, icrLow: bv32, sh: bv32, dest: bv32, destMode: bool)
      requires i < |vcpus| && vcpus[i].Valid() && Acceptable(icrLow)
      ensures SameOutsideBitmaps(vcpus[i].regs[..], Received(src, i, icrLow, sh, dest, destMode).d.page)
    {
      var v := vcpus[i];
      AcceptKeepsRegisters(v.Snap(), icrLow, v.Enabled(), v.isInitialised, v.plat);
    }

    /** Deliver a message to vCPU k if it is a destination. */
    method DeliverTo(src: nat, k: nat, icrLow: bv32, sh: bv32, dest: bv32, destMode: bool) returns (crash: bool)
      requires Valid() && k < |vcpus| && Acceptable(icrLow)
      modifies vcpus[k], vcpus[k].regs
      ensures Valid()
      ensures var r := old(Received(src, k, icrLow, sh, dest, destMode));
        vcpus[k].Snap() == r.d && crash == r.crash && vcpus[k].Conf() == old(vcpus[k].Conf())
    {
      hide Accept, VLapic.Snap, VLapic.Conf, MatchDest, VLapic.TargetOf;
      var v := vcpus[k];
      crash := false;
      if MatchDest(v.TargetOf(), src, sh, dest, destMode) {
        crash := v.AcceptIrq(icrLow);
      }
    }

    /**
     * Deliver a message to every vCPU it matches, in vCPU order. The domain
     * crashes when some destination cannot accept its delivery mode.
     */
    method Broadcast(src: nat, icrLow: bv32, sh: bv32, dest: bv32, destMode: bool) returns (crash: bool)
      requires Valid() && Acceptable(icrLow)
      modifies Objects()
      ensures Valid()
      ensures forall i :: 0 <= i < |vcpus| ==>
        vcpus[i].Snap() == old(Received(src, i, icrLow, sh, dest, destMode)).d && vcpus[i].Conf() == old(vcpus[i].Conf())
      ensures crash <==> exists i :: 0 <= i < |vcpus| && old(Received(src, i, icrLow, sh, dest, destMode)).crash
    {
      hide Accept, VLapic.Valid, VLapic.Snap, VLapic.Conf, MatchDest, VLapic.TargetOf;
      crash := false;
      for k := 0 to |vcpus|
        invariant Valid()
        invariant forall i :: 0 <= i < k ==>
          vcpus[i].Snap() == old(Received(src, i, icrLow, sh, dest, destMode)).d && vcpus[i].Conf() == old(vcpus[i].Conf())
        invariant forall i :: k <= i < |vcpus| ==> unchanged(vcpus[i], vcpus[i].regs)
        invariant crash <==> exists i :: 0 <= i < k && old(Received(src, i, icrLow, sh, dest, destMode)).crash
      {
        var c := DeliverTo(src, k, icrLow, sh, dest, destMode);
        crash := crash || c;
      }
    }

    /** Only vCPU k's LAPIC (and page) may have changed since the old state. */
    twostate predicate OthersUnchanged(k: int)
      reads Objects()
    {
      forall i :: 0 <= i < |vcpus| && i != k ==> unchanged(vcpus[i], vcpus[i].regs)
    }

    /**
     * The lowest-priority route: arbitrate first (the cursor moves even when
     * the vector is then found illegal); an illegal vector latches "send
     * illegal vector" on the sender; otherwise the winner, if any, accepts
     * the message and no other vCPU changes.
     */
    method IpiArbitrate(src: nat, icrLow: bv32, sh: bv32, dest: bv32, destMode: bool)
      returns (crash: bool, target: int)
      requires Valid() && src < |vcpus| && DeliveryMode(icrLow) == APIC_DM_LOWEST
      modifies this`roundRobinPrev, Objects()
      ensures Valid()
      ensures -1 <= target < |vcpus|
      ensures target == -1 <==>
        old(roundRobinPrev) >= |vcpus| || forall i :: 0 <= i < |vcpus| ==> !old(Eligible(src, i, sh, dest, destMode))
      ensures target != -1 ==> old(IsLowest(src, target, roundRobinPrev, sh, dest, destMode))
      ensures roundRobinPrev == if target == -1 then old(roundRobinPrev) else target
      ensures !VectorValid(icrLow) ==>
        && var r := RaiseError(old(vcpus[src].regs[..]), old(vcpus[src].pendingEsr), ESR_SENDILL_BIT, vcpus[src].plat);
        && vcpus[src].regs[..] == r.page && vcpus[src].pendingEsr == r.esr && vcpus[src].events == old(vcpus[src].events) + r.out
        && !crash && OthersUnchanged(src)
      ensures VectorValid(icrLow) && target == -1 ==> !crash && OthersUnchanged(-1)
      ensures VectorValid(icrLow) && target != -1 ==>
        && var a := old(Accept(vcpus[target].Snap(), icrLow, vcpus[target].Enabled(), vcpus[target].isInitialised,
                               vcpus[target].plat));
        && vcpus[target].Snap() == a.d && vcpus[target].Conf() == old(vcpus[target].Conf()) && crash == a.crash
        && OthersUnchanged(target)
    {
      hide Eligible, IsLowest, Accept, RaiseError, VLapic.Snap, VLapic.Conf;
      target := LowestPrio(src, sh, dest, destMode);
      crash := false;
      if !VectorValid(icrLow) {
        vcpus[src].Error(ESR_SENDILL_BIT);
      } else if target != -1 {
        crash := vcpus[target].AcceptIrq(icrLow);
      }
    }

    /**
     * An interprocessor interrupt sent by vCPU src with the given ICR pair,
     * routed as RouteOf says. The destination field is read as the sender's
     * mode reads it.
     */
    method Ipi(src: nat, icrLow: bv32, icrHigh: bv32) returns (crash: bool, ghost target: int)
      requires Valid() && src < |vcpus|
      modifies this`roundRobinPrev, Objects()
      ensures Valid()
      ensures vcpus[src].regs[APIC_ICR2 / 4] == old(vcpus[src].regs[APIC_ICR2 / 4])
      ensures !RouteOf(icrLow).Arbitrate? ==> roundRobinPrev == old(roundRobinPrev)
      ensures RouteOf(icrLow) == Latch ==>
        && !crash && OthersUnchanged(src) && unchanged(vcpus[src].regs)
        && (old(vcpus[src].initSipiIcr) != 0 ==>
              vcpus[src].initSipiIcr == old(vcpus[src].initSipiIcr) && vcpus[src].initSipiDest == old(vcpus[src].initSipiDest)
              && vcpus[src].events == old(vcpus[src].events))
        && (old(vcpus[src].initSipiIcr) == 0 ==>
              vcpus[src].initSipiIcr == icrLow && vcpus[src].initSipiDest == old(IpiDest(vcpus[src].X2apic(), icrHigh))
              && vcpus[src].events == old(vcpus[src].events) + [InitSipiScheduled])
      ensures RouteOf(icrLow) == Refuse || RouteOf(icrLow) == Arbitrate(true) ==>
        && var r := RaiseError(old(vcpus[src].regs[..]), old(vcpus[src].pendingEsr), ESR_SENDILL_BIT, vcpus[src].plat);
        && vcpus[src].regs[..] == r.page && vcpus[src].pendingEsr == r.esr && vcpus[src].events == old(vcpus[src].events) + r.out
        && !crash && OthersUnchanged(src)
      ensures RouteOf(icrLow).Arbitrate? ==>
        && var dest := old(IpiDest(vcpus[src].X2apic(), icrHigh));
        && -1 <= target < |vcpus|
        && (target == -1 <==>
              (old(roundRobinPrev) >= |vcpus| ||
               forall i :: 0 <= i < |vcpus| ==> !old(Eligible(src, i, ShortHand(icrLow), dest, LogicalDest(icrLow)))))
        && (target != -1 ==> old(IsLowest(src, target, roundRobinPrev, ShortHand(icrLow), dest, LogicalDest(icrLow))))
        && roundRobinPrev == if target == -1 then old(roundRobinPrev) else target
      ensures RouteOf(icrLow) == Arbitrate(false) && target == -1 ==> !crash && OthersUnchanged(-1)
      ensures RouteOf(icrLow) == Arbitrate(false) && target != -1 ==>
        && var a := old(Accept(vcpus[target].Snap(), icrLow, vcpus[target].Enabled(), vcpus[target].isInitialised,
                               vcpus[target].plat));
        && vcpus[target].Snap() == a.d && vcpus[target].Conf() == old(vcpus[target].Conf()) && crash == a.crash
        && OthersUnchanged(target)
      ensures RouteOf(icrLow) == ToAll ==>
        && var dest := old(IpiDest(vcpus[src].X2apic(), icrHigh));
        && (forall i :: 0 <= i < |vcpus| ==>
              vcpus[i].Snap() == old(Received(src, i, icrLow, ShortHand(icrLow), dest, LogicalDest(icrLow))).d
              && vcpus[i].Conf() == old(vcpus[i].Conf()))
        && (crash <==> exists i :: 0 <= i < |vcpus| && old(Received(src, i, icrLow, ShortHand(icrLow), dest, LogicalDest(icrLow))).crash)
    {
      hide Eligible, IsLowest, Accept, RaiseError, Received, VLapic.Snap, VLapic.Conf, SameOutsideBitmaps;
      var sh := ShortHand(icrLow);
      var destMode := LogicalDest(icrLow);
      var dest := IpiDest(vcpus[src].X2apic(), icrHigh);
      var route := RouteOf(icrLow);
      crash := false;
      target := -1;
      vcpus[src].SnapParts();
      ghost var d0, en0, init0 := vcpus[src].Snap(), vcpus[src].Enabled(), vcpus[src].isInitialised;
      match route
      case Latch =>
        vcpus[src].LatchInitSipi(icrLow, dest);
      case Arbitrate(illegal) =>
        crash, target := IpiArbitrate(src, icrLow, sh, dest, destMode);
        if illegal {
          RaiseErrorDelivers(d0.page, d0.esr, ESR_SENDILL_BIT, vcpus[src].plat);
          Icr2OutsideBitmaps(d0.page, vcpus[src].regs[..]);
        } else if target == src {
          AcceptKeepsRegisters(d0, icrLow, en0, init0, vcpus[src].plat);
          vcpus[src].SnapParts();
          Icr2OutsideBitmaps(d0.page, vcpus[src].regs[..]);
        }
      case Refuse =>
        vcpus[src].Error(ESR_SENDILL_BIT);
        RaiseErrorDelivers(d0.page, d0.esr, ESR_SENDILL_BIT, vcpus[src].plat);
        Icr2OutsideBitmaps(d0.page, vcpus[src].regs[..]);
      case ToAll =>
        ReceivedKeepsRegisters(src, src, icrLow, sh, dest, destMode);
        crash := Broadcast(src, icrLow, sh, dest, destMode);
        vcpus[src].SnapParts();
        Icr2OutsideBitmaps(d0.page, vcpus[src].regs[..]);
    }

    /**
     * What a register write by vCPU src leaves behind: a write to any
     * register but ICR touches no other vCPU, sends nothing and leaves the
     * writer as OwnWritten says; ICR keeps the value with its busy bit
     * cleared.
     */
    twostate predicate RegWritten(src: nat, reg: int, val: bv32, inp: Inputs, crash: bool)
      requires src < |vcpus| && old(Valid()) && Valid()
      reads this, Objects()
    {
      && (reg != APIC_ICR ==>
            !crash && roundRobinPrev == old(roundRobinPrev) && OthersUnchanged(src) && vcpus[src].OwnWritten(reg, val, inp))
      && (reg == APIC_ICR ==> vcpus[src].regs[APIC_ICR / 4] == IcrStore(val))
    }

    /**
     * A register write by vCPU src. Writing ICR sends the interprocessor
     * interrupt it describes, with ICR2 as the destination, and then stores
     * the value; the timer registers reprogram the timer; every other
     * register is handled by the LAPIC itself.
     */
    method RegWrite(src: nat, reg: int, val: bv32, inp: Inputs) returns (crash: bool)
      requires Valid() && src < |vcpus|
      modifies this`roundRobinPrev, Objects()
      ensures Valid() && RegWritten(src, reg, val, inp, crash)
      ensures reg == APIC_ICR ==> vcpus[src].regs[APIC_ICR2 / 4] == old(vcpus[src].regs[APIC_ICR2 / 4])
    {
      if reg == APIC_ICR {
        crash := IcrWrite(src, val);
      } else {
        LocalWrite(src, reg, val, inp);
        crash := false;
      }
    }

    /**
     * An ICR write: the busy bit is cleared, the interrupt is sent and the
     * value is stored; ICR2 keeps the destination the interrupt went to.
     */
    method IcrWrite(src: nat, val: bv32) returns (crash: bool)
      requires Valid() && src < |vcpus|
      modifies this`roundRobinPrev, Objects()
      ensures Valid() && vcpus[src].regs[APIC_ICR / 4] == IcrStore(val)
      ensures vcpus[src].regs[APIC_ICR2 / 4] == old(vcpus[src].regs[APIC_ICR2 / 4])
    {
      hide SetReg, Stored, LvtWrite, LvtIndex, IcrStore, OthersUnchanged;
      var v := vcpus[src];
      v.EndLoad();
      var icr := IcrStore(val);
      ghost var target;
      crash, target := Ipi(src, icr, v.regs[APIC_ICR2 / 4]);
      v.Store(APIC_ICR, icr);
    }

    /** A write to any register but ICR, which only the writer's LAPIC sees. */
    method LocalWrite(src: nat, reg: int, val: bv32, inp: Inputs)
      requires Valid() && src < |vcpus| && reg != APIC_ICR
      modifies vcpus[src], vcpus[src].regs
      ensures Valid() && RegWritten(src, reg, val, inp, false)
    {
      hide VLapic.OwnWritten;
      vcpus[src].RegWriteOwn(reg, val, inp);
    }

    /**
     * An MMIO write of len bytes at the given offset of vCPU src's page. It
     * is served only when it lies within one register at or below TDCR; a
     * narrower write is merged into the register's current value first.
     */
    method MmioWrite(src: nat, offset: int, len: int, val: bv64, inp: Inputs) returns (crash: bool, ghost written: bv32)
      requires Valid() && src < |vcpus| && 0 <= offset < PAGE_SIZE && 0 <= len
      modifies this`roundRobinPrev, Objects()
      ensures Valid()
      ensures !MmioWriteInRange(offset, len) ==> !crash && roundRobinPrev == old(roundRobinPrev) && OthersUnchanged(-1)
      ensures MmioWriteInRange(offset, len) ==>
        && var reg := offset - offset % 16;
        && var v := vcpus[src];
        && written == MmioValue(old(RegRead(v.regs[..], reg, v.divisor, v.timerLast, inp.now)), val, offset % 16, len)
        && RegWritten(src, reg, written, inp, crash)
    {
      hide RegRead, MmioValue, RegWritten;
      var al := offset % 16;
      var reg := offset - al;
      crash, written := false, 0;
      if al + len <= 4 && reg <= APIC_TDCR {
        var v := vcpus[src];
        var current := RegRead(v.regs[..], reg, v.divisor, v.timerLast, inp.now);
        var w := MmioValue(current, val, al, len);
        written := w;
        crash := RegWrite(src, reg, w, inp);
      }
    }

    /**
     * Replay of a register write the processor has already performed on
     * the page (APIC-write exit): the write ApicvWriteOf names is carried
     * out, or the exit is reported unhandled.
     */
    method ApicvWrite(src: nat, offset: int, inp: Inputs) returns (handled: bool, crash: bool)
      requires Valid() && src < |vcpus| && 0 <= offset < PAGE_SIZE
      modifies this`roundRobinPrev, Objects()
      ensures Valid()
      ensures var w := old(ApicvWriteOf(vcpus[src].X2apic(), offset, vcpus[src].regs[..]));
        && (handled <==> w.Some?)
        && (w.None? ==> !crash && roundRobinPrev == old(roundRobinPrev) && OthersUnchanged(-1))
        && (w.Some? ==> RegWritten(src, w.value.0, w.value.1, inp, crash))
    {
      hide ApicvWriteOf, RegWritten;
      var v := vcpus[src];
      var w := ApicvWriteOf(v.X2apic(), offset, v.regs[..]);
      if w.None? {
        return false, false;
      }
      handled := true;
      crash := RegWrite(src, w.value.0, w.value.1, inp);
    }

    /**
     * A write of an x2APIC MSR: refused as WrmsrCheck says; otherwise an
     * ICR write first stores the upper half of the value in ICR2 (so that
     * the interrupt goes where it names), and the register write follows.
     */
    method Wrmsr(src: nat, msr: int, val: bv64, inp: Inputs) returns (ok: bool, crash: bool)
      requires Valid() && src < |vcpus| && 0 <= msr < 0x1_0000_0000
      modifies this`roundRobinPrev, Objects()
      ensures Valid()
      ensures var w := old(WrmsrCheck(vcpus[src].X2apic(), msr, val));
        && (ok <==> w.Done?)
        && (!w.Done? ==> !crash && roundRobinPrev == old(roundRobinPrev) && OthersUnchanged(-1))
        && (w.Done? ==> RegWritten(src, w.value.offset, w.value.val, inp, crash))
      ensures var w := old(WrmsrCheck(vcpus[src].X2apic(), msr, val));
        w.Done? && w.value.icr2.Some? ==> vcpus[src].regs[APIC_ICR2 / 4] == Hi32(val)
    {
      hide WrmsrCheck;
      var v := vcpus[src];
      var w := WrmsrCheck(v.X2apic(), msr, val);
      if !w.Done? {
        return false, false;
      }
      ok := true;
      WrmsrIcr2(v.X2apic(), msr, val);
      if w.value.icr2.Some? {
        v.Store(APIC_ICR2, w.value.icr2.value);
      }
      crash := RegWrite(src, w.value.offset, w.value.val, inp);
    }

    /**
     * Restore of vCPU i's hidden record. The record must pass CheckHiddenRecord,
     * the corrected check, which also refuses a divisor outside 1..128 that
     * lapic_check_hidden as written lets through (see the Findings in the
     * README); a fixup that finds an LDR derived from the vCPU number flags the
     * domain, so that later x2APIC IDs are derived the same way.
     */
    method LoadHiddenAt(i: nat, h: Hidden) returns (f: Fixup)
      requires Valid() && i < |vcpus| && CheckHiddenRecord(vcpus[i].plat.hasVlapic, true, Some(h)) == 0
      modifies this`bugLdrFromVcpu, vcpus[i], vcpus[i].regs
      ensures Valid() && OthersUnchanged(i)
      ensures vcpus[i].baseMsr == h.baseMsr && vcpus[i].hwDisabled == h.hwDisabled && vcpus[i].swDisabled == h.swDisabled
      ensures vcpus[i].divisor == h.divisor && vcpus[i].tdt == h.tdt && vcpus[i].pendingEsr == h.pendingEsr
      ensures vcpus[i].loadedHw && vcpus[i].events == old(vcpus[i].events)
      ensures f == (if old(vcpus[i].loadedRegs)
                    then RegFile.LoadFixup(vcpus[i].X2apic(), vcpus[i].loadedId, vcpus[i].loadedLdr, vcpus[i].vcpuId)
                    else NoFixup)
      ensures f != RecomputeIds ==> vcpus[i].regs[..] == old(vcpus[i].regs[..])
      ensures f == RecomputeIds ==> var ids := X2apicIds(vcpus[i].vcpuId, old(bugLdrFromVcpu));
        vcpus[i].regs[..] == SetReg(SetReg(old(vcpus[i].regs[..]), APIC_ID, ids.id), APIC_LDR, ids.ldr)
      ensures bugLdrFromVcpu == (old(bugLdrFromVcpu) || f == SetLdrFromVcpuFlag)
    {
      hide RegFile.LoadFixup, X2apicIds, SetReg;
      f := vcpus[i].LoadHidden(h, bugLdrFromVcpu);
      if f == SetLdrFromVcpuFlag {
        bugLdrFromVcpu := true;
      }
    }

    /** Restore of vCPU i's register record, with the same domain flagging as LoadHiddenAt. */
    method LoadRegsAt(i: nat, page: seq<bv32>, guestTsc: u64, untilDeadline: u64, now: u64) returns (f: Fixup)
      requires Valid() && i < |vcpus| && |page| == PAGE_WORDS
      modifies this`bugLdrFromVcpu, vcpus[i], vcpus[i].regs
      ensures Valid() && OthersUnchanged(i)
      ensures vcpus[i].loadedRegs && vcpus[i].loadedId == page[APIC_ID / 4] && vcpus[i].loadedLdr == page[APIC_LDR / 4]
      ensures f == (if vcpus[i].loadedHw
                    then RegFile.LoadFixup(vcpus[i].X2apic(), vcpus[i].loadedId, vcpus[i].loadedLdr, vcpus[i].vcpuId)
                    else NoFixup)
      ensures f != RecomputeIds ==> vcpus[i].regs[..] == page
      ensures f == RecomputeIds ==> var ids := X2apicIds(vcpus[i].vcpuId, old(bugLdrFromVcpu));
        vcpus[i].regs[..] == SetReg(SetReg(page, APIC_ID, ids.id), APIC_LDR, ids.ldr)
      ensures bugLdrFromVcpu == (old(bugLdrFromVcpu) || f == SetLdrFromVcpuFlag)
    {
      hide RegFile.LoadFixup, X2apicIds, SetReg, Timer.Rearm, TimerEvents, Count;
      f := vcpus[i].LoadRegs(page, bugLdrFromVcpu, guestTsc, untilDeadline, now);
      if f == SetLdrFromVcpuFlag {
        bugLdrFromVcpu := true;
      }
    }
  }
}
