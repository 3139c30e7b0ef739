// The virtual local APIC of one vCPU as an object: the register page is an
// array of 32-bit words that the operations update in place, next to the
// hidden state the hypervisor keeps per vCPU (base MSR, disable flags, the
// pending error bits, the timer's divisor and last update, the TSC-deadline
// MSR, the INIT/SIPI latch and the record of a restore in progress). Every
// method is proved against the pure definitions of lapic.dfy, regfile.dfy
// and timer.dfy; what the rest of the hypervisor is asked to do is appended
// to the events log.

module Vlapic {
  import opened Bits32
  import opened ApicRegs
  import opened VecBitmap
  import opened Lapic
  import opened Destination
  import opened Timer
  import opened RegFile

  // ---------------------------------------------------------------------
  // Accepting an interrupt message on one vCPU
  // ---------------------------------------------------------------------

  /** The part of a vCPU an interrupt message can change. */
  datatype Delivery = Delivery(page: RegPage, esr: bv32, nmiPending: bool, down: bool, out: seq<Event>)

  /** A vCPU's delivery state after a message, and whether the message crashes the domain. */
  datatype Accepted = Accepted(d: Delivery, crash: bool)

  /** The delivery-mode field of an interrupt command. */
  function DeliveryMode(icr: bv32): (dm: bv32)
    ensures dm in {APIC_DM_FIXED, APIC_DM_LOWEST, APIC_DM_SMI, APIC_DM_REMRD,
                   APIC_DM_NMI, APIC_DM_INIT, APIC_DM_STARTUP, APIC_DM_EXTINT}
  {
    icr & APIC_DM_MASK
  }

  /** INIT and start-up messages are handled by the sender and never accepted as interrupts. */
  predicate Acceptable(icr: bv32)
  {
    DeliveryMode(icr) != APIC_DM_INIT && DeliveryMode(icr) != APIC_DM_STARTUP
  }

  /**
   * A message accepted by a vCPU: a fixed or lowest-priority message
   * delivers its vector, edge-triggered, if the APIC is enabled; remote
   * read and SMI are ignored; an NMI is latched once, waking a vCPU that
   * is initialised but down, and kicks it; any other mode crashes the
   * domain.
   */
  function Accept(d: Delivery, icrLow: bv32, enabled: bool, initialised: bool, plat: Platform): Accepted
    requires Acceptable(icrLow)
  {
    var dm := DeliveryMode(icrLow);
    if dm == APIC_DM_FIXED || dm == APIC_DM_LOWEST then
      if enabled then
        var r := Lapic.SetIrq(d.page, d.esr, VectorOf(icrLow), false, plat);
        Accepted(d.(page := r.page, esr := r.esr, out := d.out + r.out), false)
      else Accepted(d, false)
    else if dm == APIC_DM_REMRD || dm == APIC_DM_SMI then Accepted(d, false)
    else if dm == APIC_DM_NMI then
      if d.nmiPending then Accepted(d, false)
      else
        var wake := initialised && d.down;
        Accepted(d.(nmiPending := true, down := d.down && !initialised,
                    out := d.out + (if wake then [Wake] else []) + [Kick]), false)
    else Accepted(d, true)
  }

  /**
   * A fixed or lowest-priority message with a valid vector raises it in
   * IRR (or posts it) on an enabled APIC and changes nothing on a disabled
   * one; it never crashes the domain nor touches the NMI latch.
   */
  lemma AcceptFixed(d: Delivery, icrLow: bv32, enabled: bool, initialised: bool, plat: Platform)
    requires DeliveryMode(icrLow) == APIC_DM_FIXED || DeliveryMode(icrLow) == APIC_DM_LOWEST
    requires VectorValid(icrLow)
    ensures var a := Accept(d, icrLow, enabled, initialised, plat);
      && !a.crash && a.d.nmiPending == d.nmiPending && a.d.down == d.down && a.d.esr == d.esr
      && (!enabled ==> a.d == d)
      && (enabled ==>
            (Bits(a.d.page, APIC_IRR) ==
             (if plat.postedIntr then Bits(d.page, APIC_IRR) else Bits(d.page, APIC_IRR) + {VectorOf(icrLow)})))
      && (enabled ==> Bits(a.d.page, APIC_TMR) == Bits(d.page, APIC_TMR) - {VectorOf(icrLow)})
  {
    hide Lapic.SetIrq, DeliveryMode;
    if enabled {
      SetIrqDelivers(d.page, d.esr, VectorOf(icrLow), false, plat);
    }
  }

  /**
   * An NMI is latched at most once: while one is pending another changes
   * nothing; otherwise the latch is set, the register page kept, the vCPU
   * kicked, and first woken exactly when it is initialised and down (after
   * which it is no longer down).
   */
  lemma AcceptNmi(d: Delivery, icrLow: bv32, enabled: bool, initialised: bool, plat: Platform)
    requires DeliveryMode(icrLow) == APIC_DM_NMI
    ensures var a := Accept(d, icrLow, enabled, initialised, plat);
      && !a.crash && a.d.nmiPending && a.d.page == d.page && a.d.esr == d.esr
      && (d.nmiPending ==> a.d == d)
      && (!d.nmiPending ==>
            && a.d.out == d.out + (if initialised && d.down then [Wake, Kick] else [Kick])
            && !(initialised && a.d.down))
  {
    hide DeliveryMode, Lapic.SetIrq;
  }

  /** Remote read and SMI are dropped, the external-interrupt mode crashes the domain, and nothing else does. */
  lemma AcceptOthers(d: Delivery, icrLow: bv32, enabled: bool, initialised: bool, plat: Platform)
    requires Acceptable(icrLow)
    ensures var a := Accept(d, icrLow, enabled, initialised, plat);
      && (DeliveryMode(icrLow) == APIC_DM_REMRD || DeliveryMode(icrLow) == APIC_DM_SMI ==> a == Accepted(d, false))
      && (a.crash <==> DeliveryMode(icrLow) == APIC_DM_EXTINT)
      && (a.crash ==> a.d == d)
  {
    hide Lapic.SetIrq;
  }

  /**
   * Accepting a message changes no register outside the three vector
   * bitmaps: in particular the receiver's ICR and ICR2 keep their values.
   */
  lemma AcceptKeepsRegisters(d: Delivery, icrLow: bv32, enabled: bool, initialised: bool, plat: Platform)
    requires Acceptable(icrLow)
    ensures SameOutsideBitmaps(d.page, Accept(d, icrLow, enabled, initialised, plat).d.page)
  {
    hide RaiseError, SetValidIrq;
    var dm := DeliveryMode(icrLow);
    if (dm == APIC_DM_FIXED || dm == APIC_DM_LOWEST) && enabled {
      var vec := VectorOf(icrLow);
      if vec >= 16 {
        SetIrqDelivers(d.page, d.esr, vec, false, plat);
      } else {
        RaiseErrorDelivers(d.page, d.esr, ESR_RECVILL_BIT, plat);
      }
    }
  }

  /** The vCPU number as an index, and as the machine word the ID registers are derived from. */
  function Word(n: int): bv32
  {
    (n % 0x1_0000_0000) as bv32
  }

  /** The initial count register as a number. */
  function Count(w: bv32): (n: int)
    ensures 0 <= n < 0x1_0000_0000
  {
    w as int
  }

  /**
   * What the periodic-timer service is asked to do for a timer action:
   * nothing when the timer is kept, otherwise one request.
   */
  function TimerEvents(a: Action): (r: seq<Event>)
    ensures a.Keep? <==> r == []
    ensures a.Arm? ==> r == [TimerArm(a.delta, a.period, a.period != 0)]
  {
    match a
    case Arm(delta, period) => [TimerArm(delta, period, period != 0)]
    case Stop => [TimerStop]
    case Keep => []
  }

  /**
   * A 32-bit read of the register at a 16-byte-aligned offset: PPR is
   * computed from TPR and ISR; the current count is computed from the time
   * since the last update; both timer counts read 0 outside the count-down
   * modes; every other register reads as stored.
   */
  function RegRead(p: RegPage, offset: int, divisor: int, last: u64, now: u64): bv32
    requires |p| == PAGE_WORDS && 0 <= offset < PAGE_SIZE && IsDivisor(divisor)
  {
    var mode := ModeOf(Reg(p, APIC_LVTT));
    if offset == APIC_PROCPRI then PprRange(p); Word(Ppr(p))
    else if offset == APIC_TMCCT then
      if Counting(mode) then
        var tmict := Count(Reg(p, APIC_TMICT));
        TmcctBounds(tmict, mode == Periodic, divisor, last, now);
        Word(Tmcct(tmict, mode == Periodic, divisor, last, now))
      else 0
    else if offset == APIC_TMICT && !Counting(mode) then 0
    else Reg(p, offset)
  }

  lemma PprRange(p: RegPage)
    ensures 0 <= Ppr(p) < 256
  {
  }

  /**
   * PPR reads as the computed priority and the current count as the
   * computed count; both timer counts read 0 outside the count-down modes,
   * and TMICT reads as stored in them; every other register reads as
   * stored.
   */
  lemma RegReadSpec(p: RegPage, offset: int, divisor: int, last: u64, now: u64)
    requires |p| == PAGE_WORDS && 0 <= offset < PAGE_SIZE && IsDivisor(divisor)
    ensures var r := RegRead(p, offset, divisor, last, now);
      var mode := ModeOf(Reg(p, APIC_LVTT));
      && (offset == APIC_PROCPRI ==> r == Word(Ppr(p)))
      && (offset == APIC_TMCCT && Counting(mode) ==>
            r == Word(Tmcct(Count(Reg(p, APIC_TMICT)), mode == Periodic, divisor, last, now)) &&
            Tmcct(Count(Reg(p, APIC_TMICT)), mode == Periodic, divisor, last, now) <= Count(Reg(p, APIC_TMICT)))
      && ((offset == APIC_TMCCT || offset == APIC_TMICT) && !Counting(mode) ==> r == 0)
      && (offset == APIC_TMICT && Counting(mode) ==> r == Reg(p, APIC_TMICT))
      && (offset != APIC_PROCPRI && offset != APIC_TMCCT && offset != APIC_TMICT ==> r == Reg(p, offset))
  {
    hide Tmcct, Ppr, Word, Count;
    var mode := ModeOf(Reg(p, APIC_LVTT));
    TmcctBounds(Count(Reg(p, APIC_TMICT)), mode == Periodic, divisor, last, now);
  }

  /** The 64-bit value with high in its upper half and low in its lower half. */
  function Join(high: bv32, low: bv32): (r: bv64)
    ensures Lo32(r) == low && Hi32(r) == high
  {
    ((high as bv64) << 32) | (low as bv64)
  }

  /** The page with every vector-bitmap word zeroed. */
  function ZeroBitmaps(p: RegPage): RegPage
    requires |p| == PAGE_WORDS
  {
    seq(PAGE_WORDS, j requires 0 <= j < PAGE_WORDS => if IsBitmapWord(j) then 0 else p[j])
  }

  /** The page with every LVT entry reduced to its mask bit. */
  function MaskedLvts(p: RegPage): RegPage
    requires |p| == PAGE_WORDS
  {
    seq(PAGE_WORDS, j requires 0 <= j < PAGE_WORDS => if IsLvtWord(j) then APIC_LVT_MASKED else p[j])
  }

  /** The page with the command, priority, count, divide and format registers reset (LDR too outside x2APIC mode). */
  function InitScalarRegs(p: RegPage, x2apic: bool): RegPage
    requires |p| == PAGE_WORDS
  {
    seq(PAGE_WORDS, j requires 0 <= j < PAGE_WORDS =>
      if j in {APIC_ICR / 4, APIC_ICR2 / 4, APIC_TASKPRI / 4, APIC_TMICT / 4, APIC_TMCCT / 4, APIC_TDCR / 4} then 0
      else if j == APIC_LDR / 4 && !x2apic then 0
      else if j == APIC_DFR / 4 then 0xFFFF_FFFF
      else p[j])
  }

  /** INIT's steps, one after the other, give InitPage. */
  lemma InitPageSteps(p: RegPage, x2apic: bool)
    requires |p| == PAGE_WORDS
    ensures InitPage(p, x2apic) ==
      SetReg(MaskedLvts(InitScalarRegs(ZeroBitmaps(SetReg(p, APIC_LVR, VLAPIC_VERSION)), x2apic)), APIC_SPIV, 0xFF)
  {
    var q := SetReg(MaskedLvts(InitScalarRegs(ZeroBitmaps(SetReg(p, APIC_LVR, VLAPIC_VERSION)), x2apic)), APIC_SPIV, 0xFF);
    forall j | 0 <= j < PAGE_WORDS
      ensures InitPage(p, x2apic)[j] == q[j]
    {
    }
  }

  /** The registers whose write stores a value computed from the written one (or, for ESR, from the latch). */
  predicate PlainReg(reg: int)
  {
    reg == APIC_ID || reg == APIC_ESR || reg == APIC_TASKPRI || reg == APIC_LDR || reg == APIC_DFR || reg == APIC_ICR2
  }

  /** The LVT entries other than the timer's. */
  predicate OtherLvt(reg: int)
  {
    reg == APIC_LVTTHMR || reg == APIC_LVTPC || reg == APIC_LVT0 || reg == APIC_LVT1 || reg == APIC_LVTERR
  }

  /** The number of an LVT entry other than the timer's, from its offset. */
  function LvtIndex(reg: int): (i: int)
    requires OtherLvt(reg)
    ensures 1 <= i < VLAPIC_LVT_NUM && LvtOffset(i) == reg
  {
    (reg - APIC_LVTT) / 16
  }

  /** The timer registers, whose writes re-arm the timer. */
  predicate TimerReg(reg: int)
  {
    reg == APIC_LVTT || reg == APIC_TMICT || reg == APIC_TDCR
  }

  /** The registers a write other than to ICR changes. */
  predicate WritableReg(reg: int)
  {
    PlainReg(reg) || OtherLvt(reg) || TimerReg(reg) || reg == APIC_EOI || reg == APIC_SPIV
  }

  /**
   * The value a plain register keeps after a write of val: ID as written,
   * ESR the latched errors, TPR its low byte, LDR and ICR2 their top byte,
   * DFR with its reserved low bits forced to ones.
   */
  function Stored(reg: int, val: bv32, esr: bv32): (r: bv32)
    requires PlainReg(reg)
    ensures reg == APIC_ID ==> r == val
    ensures reg == APIC_ESR ==> r == esr
    ensures reg == APIC_TASKPRI ==> r & 0xFFFF_FF00 == 0 && r & 0xFF == val & 0xFF
    ensures reg in {APIC_LDR, APIC_ICR2} ==> r & 0x00FF_FFFF == 0 && r & 0xFF00_0000 == val & 0xFF00_0000
    ensures reg == APIC_DFR ==> r & 0x0FFF_FFFF == 0x0FFF_FFFF && r & 0xF000_0000 == val & 0xF000_0000
  {
    if reg == APIC_ID then val
    else if reg == APIC_ESR then esr
    else if reg == APIC_TASKPRI then val & 0xFF
    else if reg == APIC_DFR then val | 0x0FFF_FFFF
    else val & 0xFF00_0000
  }

  /** What a register write needs from outside: guest time, the Hyper-V EOI state, the event-channel upcall. */
  datatype Inputs = Inputs(now: u64, env: Env, upcallVector: Vector, upcallPending: bool)

  /**
   * A saved hidden-state record: base MSR, the two disable reasons, the timer
   * divisor, the deadline MSR and the latched error bits.
   */
  datatype Hidden = Hidden(baseMsr: bv64, hwDisabled: bool, swDisabled: bool, divisor: int, tdt: u64, pendingEsr: bv32)

  /**
   * The check of the saved hidden state as it is written accepts a record
   * whatever its timer divisor: a record with divisor 0 passes, and reading
   * the current count afterwards divides by the bus cycle times 0.
   */
  lemma ZeroDivisorRecordAccepted()
    ensures var h := Hidden(0, true, false, 0, 0, 0);
      && CheckHidden(true, true, Some(h.baseMsr)) == 0
      && APIC_BUS_CYCLE_NS * h.divisor == 0 && !IsDivisor(h.divisor)
  {
    ModeBits(0);
  }

  /**
   * The check of the saved hidden state with the divisor validated too: a
   * record is accepted exactly when the plain check accepts its base MSR
   * and its divisor is one the divide configuration register can select.
   */
  function CheckHiddenRecord(hasVlapic: bool, vcpuExists: bool, record: Option<Hidden>): (rc: int)
    ensures rc == 0 <==>
      && hasVlapic && vcpuExists && record.Some?
      && ModeOfBase(record.value.baseMsr) != InvalidMode && IsDivisor(record.value.divisor)
    ensures rc != 0 ==>
      rc == CheckHidden(hasVlapic, vcpuExists, if record.Some? then Some(record.value.baseMsr) else None) || rc == -EINVAL
  {
    var rc := CheckHidden(hasVlapic, vcpuExists, if record.Some? then Some(record.value.baseMsr) else None);
    if rc != 0 then rc
    else if !IsDivisor(record.value.divisor) then -EINVAL
    else 0
  }

  /** The state of a LAPIC that delivering a message leaves alone. */
  datatype Config = Config(baseMsr: bv64, hwDisabled: bool, swDisabled: bool, divisor: int, tdt: u64,
                           timerLast: u64, ptIrq: int, loadedId: bv32, loadedLdr: bv32, loadedHw: bool,
                           loadedRegs: bool, initSipiIcr: bv32, initSipiDest: bv32, isInitialised: bool)

  // ---------------------------------------------------------------------
  // The device
  // ---------------------------------------------------------------------

  class VLapic {
    /** The register page: 1024 words, register at byte offset o in word o / 4. */
    const regs: array<bv32>
    /** The vCPU's number, as an index into its domain and as a 32-bit word. */
    const vcpuIndex: nat
    const vcpuId: bv32
    /** Which hardware-assist hooks and guest features the platform offers. */
    const plat: Platform

    /** Hidden state: the APIC base MSR, the two disable reasons, the latched errors. */
    var baseMsr: bv64
    var hwDisabled: bool
    var swDisabled: bool
    var pendingEsr: bv32
    /** Timer: the decoded divisor, the TSC-deadline MSR, the time of the last update, the timer's vector. */
    var divisor: int
    var tdt: u64
    var timerLast: u64
    var ptIrq: int
    /** What a restore has loaded so far: the ID and LDR from the register record, and which records. */
    var loadedId: bv32
    var loadedLdr: bv32
    var loadedHw: bool
    var loadedRegs: bool
    /** The single-slot INIT/SIPI latch: the command and its destination (command 0 when free). */
    var initSipiIcr: bv32
    var initSipiDest: bv32
    /** vCPU state the LAPIC touches: the NMI latch, whether it was initialised, whether it is down. */
    var nmiPending: bool
    var isInitialised: bool
    var down: bool
    /** What the LAPIC has asked of the rest of the hypervisor, in order. */
    var events: seq<Event>

    ghost predicate Valid()
      reads this
    {
      regs.Length == PAGE_WORDS && IsDivisor(divisor)
    }

    /**
     * A fresh LAPIC. Without an emulated local APIC it is hardware disabled
     * and its zeroed page is never used. Otherwise its page starts zeroed
     * and is reset: enabled at the default base address, ID twice the vCPU
     * number, the INIT register values, software disabled.
     */
    constructor (index: nat, plat: Platform)
      requires index < 0x1_0000_0000
      ensures Valid() && fresh(regs)
      ensures vcpuIndex == index && vcpuId == Word(index) && this.plat == plat
      ensures hwDisabled == !plat.hasVlapic
      ensures !plat.hasVlapic ==> regs[..] == seq(PAGE_WORDS, _ => 0) && baseMsr == 0 && !swDisabled && events == []
      ensures plat.hasVlapic ==>
        && baseMsr == ResetBase(index == 0)
        && regs[..] == InitPage(SetReg(seq(PAGE_WORDS, _ => 0), APIC_ID, (vcpuId * 2) << 24), false)
        && swDisabled && divisor == SetTdcr(0).divisor && events == [TimerStop]
      ensures pendingEsr == 0 && tdt == 0 && initSipiIcr == 0 && !nmiPending && !loadedHw && !loadedRegs
    {
      regs := new bv32[PAGE_WORDS](_ => 0);
      vcpuIndex := index;
      vcpuId := Word(index);
      this.plat := plat;
      baseMsr := 0;
      hwDisabled := !plat.hasVlapic;
      swDisabled := false;
      pendingEsr := 0;
      divisor := 1;
      tdt := 0;
      timerLast := 0;
      ptIrq := 0;
      loadedId := 0;
      loadedLdr := 0;
      loadedHw := false;
      loadedRegs := false;
      initSipiIcr := 0;
      initSipiDest := 0;
      nmiPending := false;
      isInitialised := false;
      down := false;
      events := [];
      new;
      hide InitPage, SetReg, SetTdcr;
      Reset();
    }

    /** Neither software nor hardware disabled. */
    predicate Enabled()
      reads this
    {
      !hwDisabled && !swDisabled
    }

    /** In x2APIC mode: the extended bit of the base MSR is set. */
    predicate X2apic()
      reads this
    {
      baseMsr & APIC_BASE_EXTD != 0
    }

    /** The register page as a value. */
    ghost function Page(): RegPage
      reads this, regs
      requires Valid()
    {
      regs[..]
    }

    /** What destination matching reads of this vCPU. */
    function TargetOf(): Target
      reads this, regs
      requires Valid()
    {
      Target(vcpuIndex, X2apic(), regs[APIC_ID / 4], regs[APIC_LDR / 4], regs[APIC_DFR / 4])
    }

    /** The part of this vCPU an interrupt message leaves alone. */
    ghost function Conf(): Config
      reads this
    {
      Config(baseMsr, hwDisabled, swDisabled, divisor, tdt, timerLast, ptIrq, loadedId, loadedLdr, loadedHw,
             loadedRegs, initSipiIcr, initSipiDest, isInitialised)
    }

    /** The part of this vCPU an interrupt message can change. */
    ghost function Snap(): Delivery
      reads this, regs
      requires Valid()
    {
      Delivery(regs[..], pendingEsr, nmiPending, down, events)
    }

    /** The page and error latch of a snapshot, for callers that keep Snap hidden. */
    lemma SnapParts()
      requires Valid()
      ensures Snap().page == regs[..] && Snap().esr == pendingEsr
    {
    }

    // -------------------------------------------------------------------
    // Vector bitmaps in place
    // -------------------------------------------------------------------

    method SetVector(base: int, v: Vector)
      requires Valid() && IsBitmap(base)
      modifies regs
      ensures regs[..] == SetVec(old(regs[..]), base, v)
    {
      hide Bit, BitOf;
      var i := VecWord(base, v);
      regs[i] := regs[i] | Bit(BitOf(v));
    }

    method ClearVector(base: int, v: Vector)
      requires Valid() && IsBitmap(base)
      modifies regs
      ensures regs[..] == ClearVec(old(regs[..]), base, v)
    {
      hide Bit, BitOf;
      var i := VecWord(base, v);
      regs[i] := regs[i] & !Bit(BitOf(v));
    }

    // -------------------------------------------------------------------
    // Accepting a vector and the error latch
    // -------------------------------------------------------------------

    /** The delivery of a vector already known to be valid: TMR, then IRR or the posting hook. */
    method DeliverValid(vec: Vector, trig: bool)
      requires Valid() && vec >= 16
      modifies regs, this`events
      ensures var r := SetValidIrq(old(regs[..]), vec, trig, plat);
        regs[..] == r.page && events == old(events) + r.out
    {
      hide SetVec, ClearVec, TestVec;
      if trig {
        SetVector(APIC_TMR, vec);
      } else {
        ClearVector(APIC_TMR, vec);
      }
      if plat.eoiExitBitmap {
        events := events + [EoiExitBitmap(vec, trig)];
      }
      if plat.postedIntr {
        events := events + [PostedIntr(vec)];
      } else if !TestVec(regs[..], APIC_IRR, vec) {
        SetVector(APIC_IRR, vec);
        events := events + [Kick];
      }
    }

    /** Deliver a vector with a trigger mode; vectors 0 to 15 latch "receive illegal vector" instead. */
    method SetIrq(vec: Vector, trig: bool)
      requires Valid()
      modifies regs, this`events, this`pendingEsr
      ensures var r := Lapic.SetIrq(old(regs[..]), old(pendingEsr), vec, trig, plat);
        regs[..] == r.page && pendingEsr == r.esr && events == old(events) + r.out
    {
      if vec < 16 {
        Error(ESR_RECVILL_BIT);
        return;
      }
      DeliverValid(vec, trig);
    }

    /**
     * Latch an error bit; a newly latched bit raises LVTERR if it is
     * unmasked and holds a valid vector, and latches "receive illegal
     * vector" instead if its vector is reserved, so that the error path
     * never re-enters itself.
     */
    method Error(errBit: bv5)
      requires Valid()
      modifies regs, this`events, this`pendingEsr
      ensures var r := RaiseError(old(regs[..]), old(pendingEsr), errBit, plat);
        regs[..] == r.page && pendingEsr == r.esr && events == old(events) + r.out
    {
      if Test(pendingEsr, errBit) {
        return;
      }
      pendingEsr := SetBit(pendingEsr, errBit);
      var lvterr := regs[APIC_LVTERR / 4];
      var inj := false;
      if lvterr & APIC_LVT_MASKED == 0 {
        if VectorValid(lvterr) {
          inj := true;
        } else {
          pendingEsr := SetBit(pendingEsr, ESR_RECVILL_BIT);
        }
      }
      if inj {
        // set_irq with a valid vector goes straight to delivery
        DeliverValid(VectorOf(lvterr), false);
      }
    }

    // -------------------------------------------------------------------
    // Acknowledge, EOI, pending query, priority
    // -------------------------------------------------------------------

    /** Acknowledge vec: it moves from IRR to ISR unless hardware does this itself. */
    method AckPendingIrq(vec: Vector, forceAck: bool, env: Env)
      requires Valid()
      modifies regs, this`events
      ensures var r := Lapic.Ack(old(regs[..]), vec, forceAck, plat, env);
        regs[..] == r.page && events == old(events) + r.out
    {
      hide SetVec, ClearVec, TestVec, Highest;
      if !forceAck && plat.virtualIntrDelivery {
        return;
      }
      if plat.viridianAssist && !TestVec(regs[..], APIC_TMR, vec) {
        var isr := FindHighestVector(regs, APIC_ISR);
        if isr == -1 && vec > 0x10 {
          events := events + [AssistSet];
        }
      }
      if !plat.synic || vec !in env.autoEoi {
        SetVector(APIC_ISR, vec);
      }
      ClearVector(APIC_IRR, vec);
    }

    /** The EOI broadcast for vector: the I/O APIC if it is level-triggered, passed-through MSIs always. */
    method HandleEoi(vector: Vector)
      requires Valid()
      modifies this`events
      ensures events == old(events) + (if TestVec(regs[..], APIC_TMR, vector) then [IoapicEoi(vector)] else [])
                                    + [MsiEoi(vector)]
    {
      if TestVec(regs[..], APIC_TMR, vector) {
        events := events + [IoapicEoi(vector)];
      }
      events := events + [MsiEoi(vector)];
    }

    /** One EOI pass for the in-service vector: clear it, tell the hooks, broadcast the EOI. */
    method EoiPassStep(vector: Vector, missed: bool)
      requires Valid()
      modifies regs, this`events
      ensures var r := EoiPass(old(regs[..]), vector, missed, plat);
        regs[..] == r.page && events == old(events) + r.out
    {
      hide ClearVec, TestVec, Highest;
      if !missed {
        events := events + [AssistClear];
      }
      ClearVector(APIC_ISR, vector);
      if plat.handleEoi {
        var next := FindHighestVector(regs, APIC_ISR);
        events := events + [Event.HandleEoi(vector, next)];
      }
      HandleEoi(vector);
    }

    /**
     * EOI: end the highest in-service vector; when Hyper-V assist let the
     * guest skip an EOI, go round again for the next one.
     */
    method EoiSet(env: Env)
      requires Valid()
      modifies regs, this`events
      ensures var r := EoiFrom(old(regs[..]), env.assistCompleted, plat);
        regs[..] == r.page && events == old(events) + r.out
    {
      hide Highest, EoiPass;
      var missed := env.assistCompleted;
      ghost var goal := EoiFrom(regs[..], missed, plat);
      while true
        invariant regs.Length == PAGE_WORDS && Valid()
        invariant |old(events)| <= |events|
        invariant goal.page == EoiFrom(regs[..], missed, plat).page
        invariant old(events) + goal.out == events + EoiFrom(regs[..], missed, plat).out
        decreases if missed then 1 else 0
      {
        var vector := FindHighestVector(regs, APIC_ISR);
        if vector == -1 {
          return;
        }
        EoiPassStep(vector, missed);
        if missed {
          missed := false;
        } else {
          return;
        }
      }
    }

    /** The processor priority: the larger of the task-priority class and the class in service. */
    method GetPpr() returns (ppr: int)
      requires Valid()
      ensures ppr == Ppr(regs[..])
    {
      var tpr := regs[APIC_TASKPRI / 4];
      var isr := FindHighestVector(regs, APIC_ISR);
      ppr := PprOf(tpr, isr);
    }

    /**
     * The vector the vCPU should take next, or -1: nothing while the APIC
     * is disabled; else the highest requested vector, held back while a
     * vector of the same or a higher class is in service.
     */
    method HasPendingIrq(env: Env) returns (irr: int)
      requires Valid()
      modifies regs, this`events
      ensures var (v, r) := HasPending(old(regs[..]), old(Enabled()), plat, env);
        irr == v && regs[..] == r.page && events == old(events) + r.out
    {
      hide Highest, EoiFrom;
      if !Enabled() {
        return -1;
      }
      irr := FindHighestVector(regs, APIC_IRR);
      if irr == -1 {
        return -1;
      }
      if plat.virtualIntrDelivery && !env.nestedGuestMode {
        return irr;
      }
      if env.assistCompleted {
        EoiSet(env.(assistCompleted := false));
      }
      var isr := FindHighestVector(regs, APIC_ISR);
      if isr >= 0 && irr / 16 <= isr / 16 {
        events := events + [AssistClear];
        return -1;
      }
    }

    /**
     * Accept an interrupt message: the delivery-mode switch of the target
     * vCPU. Returns whether the domain must be crashed.
     */
    method AcceptIrq(icrLow: bv32) returns (crash: bool)
      requires Valid() && Acceptable(icrLow)
      modifies regs, this`events, this`pendingEsr, this`nmiPending, this`down
      ensures Valid() && Conf() == old(Conf())
      ensures var a := Accept(old(Snap()), icrLow, old(Enabled()), isInitialised, plat);
        Snap() == a.d && crash == a.crash
    {
      hide Lapic.SetIrq;
      var dm := DeliveryMode(icrLow);
      crash := false;
      if dm == APIC_DM_FIXED || dm == APIC_DM_LOWEST {
        if Enabled() {
          SetIrq(VectorOf(icrLow), false);
        }
      } else if dm == APIC_DM_REMRD || dm == APIC_DM_SMI {
        // ignored
      } else if dm == APIC_DM_NMI {
        if !nmiPending {
          nmiPending := true;
          var wake := false;
          if isInitialised {
            wake := down;
            down := false;
          }
          if wake {
            events := events + [Wake];
          }
          events := events + [Kick];
        }
      } else {
        crash := true;
      }
    }

    // -------------------------------------------------------------------
    // Register reads
    // -------------------------------------------------------------------

    /** A 32-bit read of the register at an aligned offset, at guest time now. */
    method ReadAligned(offset: int, now: u64) returns (r: bv32)
      requires Valid() && 0 <= offset < PAGE_SIZE
      ensures r == RegRead(regs[..], offset, divisor, timerLast, now)
    {
      var mode := ModeOf(regs[APIC_LVTT / 4]);
      if offset == APIC_PROCPRI {
        var ppr := GetPpr();
        PprRange(regs[..]);
        return Word(ppr);
      } else if offset == APIC_TMCCT {
        if !Counting(mode) {
          return 0;
        }
        var tmict := Count(regs[APIC_TMICT / 4]);
        TmcctBounds(tmict, mode == Periodic, divisor, timerLast, now);
        return Word(Tmcct(tmict, mode == Periodic, divisor, timerLast, now));
      } else if offset == APIC_TMICT && !Counting(mode) {
        return 0;
      }
      return regs[offset / 4];
    }

    /**
     * An MMIO read of len bytes at offset: served only within one register
     * at or below TDCR, as the byte, half-word or word of the aligned
     * register; anything else reads 0.
     */
    method MmioRead(offset: int, len: int, now: u64) returns (r: bv32)
      requires Valid() && 0 <= offset && 0 <= len
      ensures r == if MmioReadInRange(offset, len) && 1 <= len
                   then SubRead(RegRead(regs[..], offset - offset % 16, divisor, timerLast, now), offset % 16, len)
                   else 0
    {
      r := 0;
      var alignment := offset % 16;
      if alignment + len <= 4 && offset <= APIC_TDCR + 3 {
        var reg := ReadAligned(offset - alignment, now);
        if len == 1 || len == 2 || len == 4 {
          r := SubRead(reg, alignment, len);
        }
      }
    }

    /**
     * An x2APIC MSR read: a fault outside x2APIC mode or for a register
     * that cannot be read; otherwise the register in the low half, and for
     * ICR the destination (ICR2) in the high half.
     */
    method Rdmsr(msr: int, now: u64) returns (r: Access<bv64>)
      requires Valid() && 0 <= msr < 0x1_0000_0000
      ensures r.Done? <==> RdmsrOffset(X2apic(), msr).Done?
      ensures r.Done? ==> var off := RdmsrOffset(X2apic(), msr).value;
        && Lo32(r.value) == RegRead(regs[..], off, divisor, timerLast, now)
        && Hi32(r.value) == (if off == APIC_ICR then RegRead(regs[..], APIC_ICR2, divisor, timerLast, now) else 0)
      ensures r == Fault || r.Done?
    {
      var o := RdmsrOffset(X2apic(), msr);
      if !o.Done? {
        return Fault;
      }
      var high: bv32 := 0;
      if o.value == APIC_ICR {
        high := ReadAligned(APIC_ICR2, now);
      }
      var low := ReadAligned(o.value, now);
      r := Done(Join(high, low));
    }

    // -------------------------------------------------------------------
    // The timer
    // -------------------------------------------------------------------

    /**
     * Re-arm or stop the periodic timer after a write to LVTT (whose new
     * value is lvtt, stored afterwards), TMICT (stored before) or TDCR (the
     * previous divisor is oldDivisor).
     */
    method TimerUpdate(lvtt: bv32, tmictUpdated: bool, oldDivisor: int, now: u64)
      requires Valid() && IsDivisor(oldDivisor)
      modifies this`events, this`timerLast
      ensures var u := UpdateTimer(Count(regs[APIC_TMICT / 4]), ModeOf(lvtt), ModeOf(regs[APIC_LVTT / 4]) == Periodic,
                                   tmictUpdated, oldDivisor, divisor, old(timerLast), now);
        events == old(events) + TimerEvents(u.action) && timerLast == u.last
    {
      hide Tick, Period, Remaining, Sub64;
      var tmict := Count(regs[APIC_TMICT / 4]);
      var period := Period(tmict, oldDivisor);
      // what is left of the count, under the old divisor
      var delta := Remaining(tmict, ModeOf(regs[APIC_LVTT / 4]) == Periodic, tmictUpdated, oldDivisor, timerLast, now);
      var mode := ModeOf(lvtt);
      if delta != 0 && (mode == OneShot || mode == Periodic) {
        var oldDelta := delta;
        if divisor != oldDivisor {
          period := Period(tmict, divisor);
          delta := delta * divisor / oldDivisor;
        }
        ScaleWithin(tmict, oldDelta, oldDivisor, divisor);
        var timerPeriod := if mode == Periodic then period else 0;
        events := events + [TimerArm(delta, timerPeriod, mode == Periodic)];
        timerLast := if tmictUpdated then now else Sub64(now, period - delta);
      } else {
        events := events + [TimerStop];
        timerLast := 0;
      }
    }

    /** The TSC-deadline MSR as the guest reads it. */
    method TdtMsrGet() returns (r: u64)
      requires Valid()
      ensures r == TdtGet(ModeOf(regs[APIC_LVTT / 4]), tdt)
      ensures ModeOf(regs[APIC_LVTT / 4]) != TscDeadline ==> r == 0
    {
      if ModeOf(regs[APIC_LVTT / 4]) != TscDeadline {
        return 0;
      }
      return tdt;
    }

    /**
     * A write of value to the TSC-deadline MSR, with the guest TSC now at
     * guestTsc and untilDeadline the guest time until value.
     */
    method TdtMsrSet(value: u64, guestTsc: u64, untilDeadline: u64, now: u64)
      requires Valid()
      modifies this`tdt, this`timerLast, this`events
      ensures var d := TdtSet(hwDisabled, ModeOf(regs[APIC_LVTT / 4]), old(tdt), old(timerLast),
                              value, guestTsc, untilDeadline, now);
        tdt == d.tdt && timerLast == d.last && events == old(events) + TimerEvents(d.action)
    {
      if hwDisabled || ModeOf(regs[APIC_LVTT / 4]) != TscDeadline {
        return;
      }
      if value > guestTsc {
        var delta := if untilDeadline >= 0x8000_0000_0000_0000 then 0 else untilDeadline;
        tdt := value;
        events := events + [TimerArm(delta, 0, false)];
        timerLast := now;
      } else {
        tdt := 0;
        if value > 0 {
          events := events + [TimerArm(0, 0, false)];
          timerLast := now;
        } else {
          events := events + [TimerStop];
        }
      }
    }

    /**
     * Restart the timer after a restore: the timer vector from LVTT; a
     * stored deadline written again in TSC-deadline mode; otherwise a full
     * period from now when the initial count is not 0.
     */
    method Rearm(guestTsc: u64, untilDeadline: u64, now: u64)
      requires Valid()
      modifies this`ptIrq, this`tdt, this`timerLast, this`events
      ensures var r := Timer.Rearm(regs[APIC_LVTT / 4], Count(regs[APIC_TMICT / 4]), divisor, hwDisabled,
                                   old(tdt), old(timerLast), guestTsc, untilDeadline, now);
        && ptIrq == r.irq && tdt == r.deadline.tdt && timerLast == r.deadline.last
        && events == old(events) + TimerEvents(r.deadline.action)
    {
      hide Tick, TdtSet, ModeOf, VectorOf, Period, TdtGet, Count, TimerEvents;
      var lvtt := regs[APIC_LVTT / 4];
      var tmict := Count(regs[APIC_TMICT / 4]);
      ghost var r := Timer.Rearm(lvtt, tmict, divisor, hwDisabled, tdt, timerLast, guestTsc, untilDeadline, now);
      ptIrq := VectorOf(lvtt);
      if ModeOf(lvtt) == TscDeadline {
        var t := TdtMsrGet();
        if t != 0 {
          assert r == Rearmed(ptIrq, TdtSet(hwDisabled, TscDeadline, tdt, timerLast, t, guestTsc, untilDeadline, now));
          TdtMsrSet(t, guestTsc, untilDeadline, now);
        } else {
          assert r == Rearmed(ptIrq, Deadline(tdt, Keep, timerLast));
        }
      } else if tmict == 0 {
        assert r == Rearmed(ptIrq, Deadline(tdt, Keep, timerLast));
      } else {
        var period := Period(tmict, divisor);
        var periodic := ModeOf(lvtt) == Periodic;
        assert r == Rearmed(ptIrq, Deadline(tdt, Arm(period, if periodic then period else 0), now));
        events := events + TimerEvents(Arm(period, if periodic then period else 0));
        timerLast := now;
      }
    }

    // -------------------------------------------------------------------
    // Register writes
    // -------------------------------------------------------------------

    /**
     * The state after a SPIV write: the APIC is software disabled exactly
     * when the enable bit is clear, and then every LVT entry is masked; once
     * enabled, a pending event-channel upcall is delivered like any other
     * interrupt (latching an error for a reserved vector).
     */
    twostate predicate SpivWritten(val: bv32, upcallVector: Vector, upcallPending: bool)
      requires old(Valid()) && Valid()
      reads this, regs
    {
      && swDisabled == (val & APIC_SPIV_APIC_ENABLED == 0)
      && var p := SetReg(old(regs[..]), APIC_SPIV, val & 0x3FF);
        if swDisabled then regs[..] == MaskAllLvts(p) && events == old(events) && pendingEsr == old(pendingEsr)
        else if upcallVector != 0 && upcallPending then
          var r := Lapic.SetIrq(p, old(pendingEsr), upcallVector, false, plat);
          regs[..] == r.page && pendingEsr == r.esr && events == old(events) + r.out
        else regs[..] == p && events == old(events) && pendingEsr == old(pendingEsr)
    }

    /**
     * Write SPIV (keeping its low ten bits). Clearing the enable bit
     * software-disables the APIC and masks every LVT entry; setting it
     * enables the APIC and delivers a pending event-channel upcall.
     */
    method WriteSpiv(val: bv32, upcallVector: Vector, upcallPending: bool)
      requires Valid()
      modifies regs, this`swDisabled, this`events, this`pendingEsr
      ensures Valid() && SpivWritten(val, upcallVector, upcallPending)
    {
      regs[APIC_SPIV / 4] := val & 0x3FF;
      if val & APIC_SPIV_APIC_ENABLED == 0 {
        swDisabled := true;
        MaskLvts();
      } else {
        swDisabled := false;
        if upcallVector != 0 && upcallPending {
          SetIrq(upcallVector, false);
        }
      }
    }

    /** Set the mask bit of every LVT entry. */
    method MaskLvts()
      requires Valid()
      modifies regs
      ensures regs[..] == MaskAllLvts(old(regs[..]))
    {
      for i := 0 to VLAPIC_LVT_NUM
        invariant forall j :: 0 <= j < PAGE_WORDS ==>
          regs[j] == if IsLvtWord(j) && j < APIC_LVTT / 4 + 4 * i then old(regs[j]) | APIC_LVT_MASKED else old(regs[j])
      {
        var k := LvtOffset(i) / 4;
        regs[k] := regs[k] | APIC_LVT_MASKED;
      }
      assert regs[..] == MaskAllLvts(old(regs[..]));
    }

    /** Write LVT entry i other than the timer's: masked while software disabled, cut to its writable bits. */
    method WriteLvt(i: int, val: bv32)
      requires Valid() && 1 <= i < VLAPIC_LVT_NUM
      modifies regs
      ensures regs[..] == SetReg(old(regs[..]), LvtOffset(i), LvtWrite(val, swDisabled, i))
    {
      regs[LvtOffset(i) / 4] := LvtWrite(val, swDisabled, i);
    }

    /**
     * The state after an LVTT write: a switch into or out of TSC-deadline
     * mode has zeroed the initial count and the deadline, the timer vector
     * is the written one, the entry holds its LVT write value, and the timer
     * is armed or stopped as UpdateTimer says for the new mode.
     */
    twostate predicate LvttWritten(val: bv32, now: u64)
      requires old(Valid()) && Valid()
      reads this, regs
    {
      var switched := (ModeOf(old(regs[APIC_LVTT / 4])) == TscDeadline) != (ModeOf(val) == TscDeadline);
      var p := if switched then SetReg(old(regs[..]), APIC_TMICT, 0) else old(regs[..]);
      var u := UpdateTimer(Count(Reg(p, APIC_TMICT)), ModeOf(val), ModeOf(old(regs[APIC_LVTT / 4])) == Periodic,
                           false, old(divisor), old(divisor), old(timerLast), now);
      && regs[..] == SetReg(p, APIC_LVTT, LvtWrite(val, swDisabled, 0))
      && tdt == (if switched then 0 else old(tdt))
      && ptIrq == VectorOf(val)
      && events == old(events) + TimerEvents(u.action) && timerLast == u.last
    }

    /**
     * Write LVTT: a switch into or out of TSC-deadline mode zeroes the
     * initial count and the deadline; the timer vector is taken from the
     * value; the timer is re-armed for the new mode; then the entry is
     * stored like any LVT entry.
     */
    method WriteLvtt(val: bv32, now: u64)
      requires Valid()
      modifies regs, this`tdt, this`ptIrq, this`events, this`timerLast
      ensures Valid() && LvttWritten(val, now)
    {
      if (ModeOf(regs[APIC_LVTT / 4]) == TscDeadline) != (ModeOf(val) == TscDeadline) {
        regs[APIC_TMICT / 4] := 0;
        tdt := 0;
      }
      ptIrq := VectorOf(val);
      TimerUpdate(val, false, divisor, now);
      regs[APIC_LVTT / 4] := LvtWrite(val, swDisabled, 0);
    }

    /**
     * The state after a TMICT write: nothing changes outside the count-down
     * modes; otherwise the count is stored and the timer restarts a full
     * count as UpdateTimer says.
     */
    twostate predicate TmictWritten(val: bv32, now: u64)
      requires old(Valid()) && Valid()
      reads this, regs
    {
      && (!Counting(ModeOf(old(regs[APIC_LVTT / 4]))) ==>
            regs[..] == old(regs[..]) && events == old(events) && timerLast == old(timerLast))
      && (Counting(ModeOf(old(regs[APIC_LVTT / 4]))) ==>
            var u := UpdateTimer(Count(val), ModeOf(regs[APIC_LVTT / 4]), ModeOf(regs[APIC_LVTT / 4]) == Periodic,
                                 true, old(divisor), old(divisor), old(timerLast), now);
            && regs[..] == SetReg(old(regs[..]), APIC_TMICT, val)
            && events == old(events) + TimerEvents(u.action) && timerLast == u.last)
    }

    /** Write TMICT: ignored outside the count-down modes; otherwise stored, and the timer restarts a full count. */
    method WriteTmict(val: bv32, now: u64)
      requires Valid()
      modifies regs, this`events, this`timerLast
      ensures Valid() && TmictWritten(val, now)
    {
      if !Counting(ModeOf(regs[APIC_LVTT / 4])) {
        return;
      }
      regs[APIC_TMICT / 4] := val;
      TimerUpdate(regs[APIC_LVTT / 4], true, divisor, now);
    }

    /**
     * The state after a TDCR write: the divide bits are stored, the divisor
     * is the one they select, and the timer is re-armed from the old tick to
     * the new one as UpdateTimer says.
     */
    twostate predicate TdcrWritten(val: bv32, now: u64)
      requires old(Valid()) && Valid()
      reads this, regs
    {
      var t := SetTdcr(val);
      var u := UpdateTimer(Count(regs[APIC_TMICT / 4]), ModeOf(regs[APIC_LVTT / 4]), ModeOf(regs[APIC_LVTT / 4]) == Periodic,
                           false, old(divisor), t.divisor, old(timerLast), now);
      && regs[..] == SetReg(old(regs[..]), APIC_TDCR, t.reg) && divisor == t.divisor
      && events == old(events) + TimerEvents(u.action) && timerLast == u.last
    }

    /** Write TDCR: store the divide bits, decode the divisor, and re-arm the timer to the new tick. */
    method WriteTdcr(val: bv32, now: u64)
      requires Valid()
      modifies regs, this`divisor, this`events, this`timerLast
      ensures Valid() && TdcrWritten(val, now)
    {
      var current := divisor;
      var t := SetTdcr(val);
      regs[APIC_TDCR / 4] := t.reg;
      divisor := t.divisor;
      TimerUpdate(regs[APIC_LVTT / 4], false, current, now);
    }

    /** Any register write ends the view of a restore in progress. */
    method EndLoad()
      modifies this`loadedHw, this`loadedRegs, this`loadedId, this`loadedLdr
      ensures !loadedHw && !loadedRegs && loadedId == 0 && loadedLdr == 0
    {
      loadedHw, loadedRegs, loadedId, loadedLdr := false, false, 0, 0;
    }

    /** The timer state a register write outside the timer registers leaves alone. */
    twostate predicate TimerKept()
      reads this
    {
      tdt == old(tdt) && ptIrq == old(ptIrq) && divisor == old(divisor) && timerLast == old(timerLast)
    }

    /**
     * What a register write other than ICR leaves behind on this LAPIC. The
     * view of a restore in progress is over. A plain register holds the
     * value Stored gives (an ESR write also empties the latch); EOI ends the
     * in-service vector as EoiFrom says; SPIV, LVTT, TMICT and TDCR leave
     * the state their own writes describe; another LVT entry holds its LVT
     * write value; a register with no write rule keeps its value. Nothing
     * else changes: the latch only for ESR and SPIV, the disable flag only
     * for SPIV, the deadline and timer vector only for LVTT, the divisor
     * only for TDCR, and the timer timestamp only for the timer registers.
     */
    twostate predicate OwnWritten(reg: int, val: bv32, inp: Inputs)
      requires old(Valid()) && Valid()
      reads this, regs
    {
      && !loadedHw && !loadedRegs && loadedId == 0 && loadedLdr == 0
      && if PlainReg(reg) then
           && regs[..] == SetReg(old(regs[..]), reg, Stored(reg, val, old(pendingEsr)))
           && pendingEsr == (if reg == APIC_ESR then 0 else old(pendingEsr))
           && events == old(events) && swDisabled == old(swDisabled) && TimerKept()
         else if reg == APIC_EOI then
           var r := EoiFrom(old(regs[..]), inp.env.assistCompleted, plat);
           && regs[..] == r.page && events == old(events) + r.out
           && pendingEsr == old(pendingEsr) && swDisabled == old(swDisabled) && TimerKept()
         else if reg == APIC_SPIV then
           SpivWritten(val, inp.upcallVector, inp.upcallPending) && TimerKept()
         else if OtherLvt(reg) then
           && regs[..] == SetReg(old(regs[..]), reg, LvtWrite(val, swDisabled, LvtIndex(reg)))
           && events == old(events) && pendingEsr == old(pendingEsr) && swDisabled == old(swDisabled) && TimerKept()
         else if reg == APIC_LVTT then
           LvttWritten(val, inp.now) && pendingEsr == old(pendingEsr) && swDisabled == old(swDisabled)
           && divisor == old(divisor)
         else if reg == APIC_TMICT then
           TmictWritten(val, inp.now) && pendingEsr == old(pendingEsr) && swDisabled == old(swDisabled)
           && tdt == old(tdt) && ptIrq == old(ptIrq) && divisor == old(divisor)
         else if reg == APIC_TDCR then
           TdcrWritten(val, inp.now) && pendingEsr == old(pendingEsr) && swDisabled == old(swDisabled)
           && tdt == old(tdt) && ptIrq == old(ptIrq)
         else
           && regs[..] == old(regs[..]) && events == old(events)
           && pendingEsr == old(pendingEsr) && swDisabled == old(swDisabled) && TimerKept()
    }

    /**
     * A register write other than ICR (which needs the whole domain): any
     * write ends the view of a restore in progress, and then the register
     * behaves as its own write rule says; any other offset is ignored.
     */
    method RegWriteOwn(reg: int, val: bv32, inp: Inputs)
      requires Valid() && reg != APIC_ICR
      modifies regs, this`loadedHw, this`loadedRegs, this`loadedId, this`loadedLdr, this`pendingEsr,
        this`swDisabled, this`events, this`tdt, this`ptIrq, this`timerLast, this`divisor
      ensures Valid() && OwnWritten(reg, val, inp)
    {
      hide OwnWritten;
      if PlainReg(reg) {
        RegWritePlain(reg, val, inp);
      } else if reg == APIC_EOI {
        RegWriteEoi(val, inp);
      } else if reg == APIC_SPIV {
        RegWriteSpiv(val, inp);
      } else if OtherLvt(reg) {
        RegWriteLvt(reg, val, inp);
      } else if reg == APIC_LVTT {
        RegWriteLvtt(val, inp);
      } else if reg == APIC_TMICT {
        RegWriteTmict(val, inp);
      } else if reg == APIC_TDCR {
        RegWriteTdcr(val, inp);
      } else {
        RegWriteIgnored(reg, val, inp);
      }
    }

    /**
     * ID is stored as written; ESR hands the latched errors over and
     * empties the latch; TPR keeps its low byte; LDR and ICR2 keep their top
     * byte; DFR forces its reserved bits to ones.
     */
    method RegWritePlain(reg: int, val: bv32, inp: Inputs)
      requires Valid() && PlainReg(reg)
      modifies regs, this`loadedHw, this`loadedRegs, this`loadedId, this`loadedLdr, this`pendingEsr
      ensures Valid() && OwnWritten(reg, val, inp)
    {
      hide SetReg, Stored, LvtWrite, LvtIndex, EoiFrom, SpivWritten, LvttWritten, TmictWritten, TdcrWritten,
        UpdateTimer, TimerEvents, SetTdcr, Count, ModeOf, Lapic.SetIrq, MaskAllLvts;
      EndLoad();
      StorePlain(reg, val);
    }

    /** Store one of the registers whose write is a plain store of the value Stored gives. */
    method StorePlain(reg: int, val: bv32)
      requires Valid() && PlainReg(reg)
      modifies regs, this`pendingEsr
      ensures regs[..] == SetReg(old(regs[..]), reg, Stored(reg, val, old(pendingEsr)))
      ensures pendingEsr == if reg == APIC_ESR then 0 else old(pendingEsr)
    {
      regs[reg / 4] := Stored(reg, val, pendingEsr);
      if reg == APIC_ESR {
        pendingEsr := 0;
      }
    }

    /** EOI ends the highest in-service vector (two, after an EOI the Hyper-V assist let the guest skip). */
    method RegWriteEoi(val: bv32, inp: Inputs)
      requires Valid()
      modifies regs, this`loadedHw, this`loadedRegs, this`loadedId, this`loadedLdr, this`events
      ensures Valid() && OwnWritten(APIC_EOI, val, inp)
    {
      hide SetReg, Stored, LvtWrite, LvtIndex, EoiFrom, SpivWritten, LvttWritten, TmictWritten, TdcrWritten,
        UpdateTimer, TimerEvents, SetTdcr, Count, ModeOf, Lapic.SetIrq, MaskAllLvts;
      EndLoad();
      EoiSet(inp.env);
    }

    /** SPIV software-enables or -disables the APIC. */
    method RegWriteSpiv(val: bv32, inp: Inputs)
      requires Valid()
      modifies regs, this`loadedHw, this`loadedRegs, this`loadedId, this`loadedLdr, this`pendingEsr,
        this`swDisabled, this`events
      ensures Valid() && OwnWritten(APIC_SPIV, val, inp)
    {
      hide SetReg, Stored, LvtWrite, LvtIndex, EoiFrom, LvttWritten, TmictWritten, TdcrWritten,
        UpdateTimer, TimerEvents, SetTdcr, Count, ModeOf, Lapic.SetIrq, MaskAllLvts;
      EndLoad();
      WriteSpiv(val, inp.upcallVector, inp.upcallPending);
    }

    /** An LVT entry other than the timer's keeps its writable bits, masked while software disabled. */
    method RegWriteLvt(reg: int, val: bv32, inp: Inputs)
      requires Valid() && OtherLvt(reg)
      modifies regs, this`loadedHw, this`loadedRegs, this`loadedId, this`loadedLdr
      ensures Valid() && OwnWritten(reg, val, inp)
    {
      hide SetReg, Stored, LvtWrite, LvtIndex, EoiFrom, SpivWritten, LvttWritten, TmictWritten, TdcrWritten,
        UpdateTimer, TimerEvents, SetTdcr, Count, ModeOf, Lapic.SetIrq, MaskAllLvts;
      EndLoad();
      WriteLvt(LvtIndex(reg), val);
    }

    /** LVTT reprograms the timer for its mode. */
    method RegWriteLvtt(val: bv32, inp: Inputs)
      requires Valid()
      modifies regs, this`loadedHw, this`loadedRegs, this`loadedId, this`loadedLdr, this`events, this`tdt,
        this`ptIrq, this`timerLast
      ensures Valid() && OwnWritten(APIC_LVTT, val, inp)
    {
      hide SetReg, Stored, LvtWrite, LvtIndex, EoiFrom, SpivWritten, TmictWritten, TdcrWritten,
        UpdateTimer, TimerEvents, SetTdcr, Count, ModeOf, Lapic.SetIrq, MaskAllLvts;
      EndLoad();
      WriteLvtt(val, inp.now);
    }

    /** TMICT restarts the count. */
    method RegWriteTmict(val: bv32, inp: Inputs)
      requires Valid()
      modifies regs, this`loadedHw, this`loadedRegs, this`loadedId, this`loadedLdr, this`events, this`timerLast
      ensures Valid() && OwnWritten(APIC_TMICT, val, inp)
    {
      hide SetReg, Stored, LvtWrite, LvtIndex, EoiFrom, SpivWritten, LvttWritten, TdcrWritten,
        UpdateTimer, TimerEvents, SetTdcr, Count, ModeOf, Lapic.SetIrq, MaskAllLvts;
      EndLoad();
      WriteTmict(val, inp.now);
    }

    /** TDCR changes the divisor and re-arms the timer to the new tick. */
    method RegWriteTdcr(val: bv32, inp: Inputs)
      requires Valid()
      modifies regs, this`loadedHw, this`loadedRegs, this`loadedId, this`loadedLdr, this`events, this`timerLast,
        this`divisor
      ensures Valid() && OwnWritten(APIC_TDCR, val, inp)
    {
      hide SetReg, Stored, LvtWrite, LvtIndex, EoiFrom, SpivWritten, LvttWritten, TmictWritten,
        UpdateTimer, TimerEvents, SetTdcr, Count, ModeOf, Lapic.SetIrq, MaskAllLvts;
      EndLoad();
      WriteTdcr(val, inp.now);
    }

    /** A write to a register with no write rule only ends the view of a restore in progress. */
    method RegWriteIgnored(reg: int, val: bv32, inp: Inputs)
      requires Valid() && !WritableReg(reg) && reg != APIC_ICR
      modifies this`loadedHw, this`loadedRegs, this`loadedId, this`loadedLdr
      ensures Valid() && OwnWritten(reg, val, inp)
    {
      hide SetReg, Stored, LvtWrite, LvtIndex, EoiFrom, SpivWritten, LvttWritten, TmictWritten, TdcrWritten,
        UpdateTimer, TimerEvents, SetTdcr, Count, ModeOf, Lapic.SetIrq, MaskAllLvts;
      EndLoad();
    }

    // -------------------------------------------------------------------
    // IDs, INIT, reset and the base MSR
    // -------------------------------------------------------------------

    /** In x2APIC mode the ID is twice the vCPU number and the LDR is derived from it (or from the vCPU number on flagged domains). */
    method SetX2apicId(bugLdrFromVcpu: bool)
      requires Valid()
      modifies regs
      ensures var ids := X2apicIds(vcpuId, bugLdrFromVcpu);
        regs[..] == SetReg(SetReg(old(regs[..]), APIC_ID, ids.id), APIC_LDR, ids.ldr)
    {
      var id := vcpuId * 2;
      var ldr := X2apicLdr(if bugLdrFromVcpu then vcpuId else id);
      regs[APIC_ID / 4] := id;
      regs[APIC_LDR / 4] := ldr;
    }

    /** Zero the three vector bitmaps, eight words each. */
    method ClearBitmaps()
      requires Valid()
      modifies regs
      ensures regs[..] == ZeroBitmaps(old(regs[..]))
    {
      for i := 0 to 8
        invariant forall j :: 0 <= j < PAGE_WORDS ==>
          regs[j] == if IsBitmapWord(j) && (j < APIC_ISR / 4 + 4 * i || APIC_TMR / 4 <= j < APIC_TMR / 4 + 4 * i
                                             || APIC_IRR / 4 <= j < APIC_IRR / 4 + 4 * i) then 0 else old(regs[j])
      {
        regs[APIC_IRR / 4 + 4 * i] := 0;
        regs[APIC_ISR / 4 + 4 * i] := 0;
        regs[APIC_TMR / 4 + 4 * i] := 0;
      }
      assert regs[..] == ZeroBitmaps(old(regs[..]));
    }

    /** Set every LVT entry to just its mask bit. */
    method MaskedLvtEntries()
      requires Valid()
      modifies regs
      ensures regs[..] == MaskedLvts(old(regs[..]))
    {
      for i := 0 to VLAPIC_LVT_NUM
        invariant forall j :: 0 <= j < PAGE_WORDS ==>
          regs[j] == if IsLvtWord(j) && j < APIC_LVTT / 4 + 4 * i then APIC_LVT_MASKED else old(regs[j])
      {
        regs[LvtOffset(i) / 4] := APIC_LVT_MASKED;
      }
      assert regs[..] == MaskedLvts(old(regs[..]));
    }

    /** The single registers INIT zeroes or sets, between the bitmaps and the LVT entries. */
    method InitScalars(x2apic: bool)
      requires Valid()
      modifies regs
      ensures regs[..] == InitScalarRegs(old(regs[..]), x2apic)
    {
      regs[APIC_ICR / 4] := 0;
      regs[APIC_ICR2 / 4] := 0;
      if !x2apic {
        regs[APIC_LDR / 4] := 0;
      }
      regs[APIC_TASKPRI / 4] := 0;
      regs[APIC_TMICT / 4] := 0;
      regs[APIC_TMCCT / 4] := 0;
      regs[APIC_TDCR / 4] := SetTdcr(0).reg;
      regs[APIC_DFR / 4] := 0xFFFF_FFFF;
      assert SetTdcr(0).reg == 0;
      assert regs[..] == InitScalarRegs(old(regs[..]), x2apic);
    }

    /**
     * An INIT or STARTUP message is latched in a single slot and handed to
     * a deferred worker while the sender is paused; a second one while the
     * slot is busy is dropped.
     */
    method LatchInitSipi(icrLow: bv32, dest: bv32)
      modifies this`initSipiIcr, this`initSipiDest, this`events
      ensures old(initSipiIcr) != 0 ==> initSipiIcr == old(initSipiIcr) && initSipiDest == old(initSipiDest)
                                        && events == old(events)
      ensures old(initSipiIcr) == 0 ==> initSipiIcr == icrLow && initSipiDest == dest
                                        && events == old(events) + [InitSipiScheduled]
    {
      if initSipiIcr != 0 {
        return;
      }
      initSipiIcr := icrLow;
      initSipiDest := dest;
      events := events + [InitSipiScheduled];
    }

    /** Store one register of the page. */
    method Store(off: int, val: bv32)
      requires Valid() && 0 <= off < PAGE_SIZE
      modifies regs
      ensures regs[..] == SetReg(old(regs[..]), off, val)
    {
      regs[off / 4] := val;
    }

    /**
     * INIT: the register page becomes InitPage of the old one, the divisor
     * is decoded from a TDCR of 0, the APIC is software disabled and the
     * timer is stopped. Nothing happens without an emulated local APIC.
     */
    method DoInit()
      requires Valid()
      modifies regs, this`divisor, this`swDisabled, this`events
      ensures Valid()
      ensures !plat.hasVlapic ==> regs[..] == old(regs[..]) && divisor == old(divisor)
                                  && swDisabled == old(swDisabled) && events == old(events)
      ensures plat.hasVlapic ==>
        && regs[..] == InitPage(old(regs[..]), X2apic())
        && divisor == SetTdcr(0).divisor && swDisabled && events == old(events) + [TimerStop]
    {
      hide InitPage, ZeroBitmaps, MaskedLvts, InitScalarRegs, SetReg;
      if !plat.hasVlapic {
        return;
      }
      ghost var p0 := regs[..];
      Store(APIC_LVR, VLAPIC_VERSION);
      ClearBitmaps();
      InitScalars(X2apic());
      divisor := SetTdcr(0).divisor;
      MaskedLvtEntries();
      Store(APIC_SPIV, 0xFF);
      swDisabled := true;
      events := events + [TimerStop];
      InitPageSteps(p0, X2apic());
    }

    /**
     * Reset: base MSR enabled at the default address (bootstrap flag on
     * vCPU 0), xAPIC ID twice the vCPU number, then INIT.
     */
    method Reset()
      requires Valid()
      modifies regs, this`baseMsr, this`divisor, this`swDisabled, this`events
      ensures Valid()
      ensures !plat.hasVlapic ==> regs[..] == old(regs[..]) && baseMsr == old(baseMsr) && events == old(events)
                                  && swDisabled == old(swDisabled) && divisor == old(divisor)
      ensures plat.hasVlapic ==>
        && baseMsr == ResetBase(vcpuIndex == 0)
        && regs[..] == InitPage(SetReg(old(regs[..]), APIC_ID, (vcpuId * 2) << 24), false)
        && swDisabled && divisor == SetTdcr(0).divisor && events == old(events) + [TimerStop]
    {
      if !plat.hasVlapic {
        return;
      }
      baseMsr := APIC_BASE_ENABLE | APIC_DEFAULT_PHYS_BASE;
      if vcpuIndex == 0 {
        baseMsr := baseMsr | APIC_BASE_BSP;
      }
      regs[APIC_ID / 4] := (vcpuId * 2) << 24;
      DoInit();
    }

    /**
     * A guest write of val to the APIC base MSR; false is a fault, which
     * changes nothing. An accepted write that sets the enable bit resets
     * the APIC and clears the hardware disable; one that clears it
     * hardware-disables the APIC and keeps the page; then the value is
     * stored, the view of a restore in progress ends, and in x2APIC mode the
     * IDs are derived from the vCPU number.
     */
    method WrmsrApicBase(val: bv64, bugLdrFromVcpu: bool) returns (ok: bool)
      requires Valid()
      modifies regs, this`baseMsr, this`hwDisabled, this`swDisabled, this`divisor, this`events,
        this`loadedHw, this`loadedRegs, this`loadedId, this`loadedLdr
      ensures Valid()
      ensures var w := BaseWrite(plat.hasVlapic, plat.x2apic, old(baseMsr), val);
        && (ok <==> w.Done?)
        && (!ok ==>
              && regs[..] == old(regs[..]) && baseMsr == old(baseMsr) && hwDisabled == old(hwDisabled)
              && swDisabled == old(swDisabled) && divisor == old(divisor) && events == old(events)
              && loadedHw == old(loadedHw) && loadedRegs == old(loadedRegs)
              && loadedId == old(loadedId) && loadedLdr == old(loadedLdr))
        && (ok ==> baseMsr == val && !loadedHw && !loadedRegs && loadedId == 0 && loadedLdr == 0)
        && (ok && w.value == Enable ==>
              && val & APIC_BASE_EXTD == 0 && !hwDisabled
              && regs[..] == InitPage(SetReg(old(regs[..]), APIC_ID, (vcpuId * 2) << 24), false)
              && swDisabled && divisor == SetTdcr(0).divisor && events == old(events) + [TimerStop])
        && (ok && w.value != Enable ==>
              && swDisabled == old(swDisabled) && divisor == old(divisor) && events == old(events)
              && hwDisabled == (w.value == Disable || old(hwDisabled)))
        && (ok && w.value == Disable ==> val & APIC_BASE_EXTD == 0 && regs[..] == old(regs[..]))
        && (ok && w.value == NoToggle ==>
              var ids := X2apicIds(vcpuId, bugLdrFromVcpu);
              regs[..] == if val & APIC_BASE_EXTD != 0
                          then SetReg(SetReg(old(regs[..]), APIC_ID, ids.id), APIC_LDR, ids.ldr)
                          else old(regs[..]))
    {
      hide InitPage, SetReg, SetTdcr, X2apicIds;
      var w := BaseWrite(plat.hasVlapic, plat.x2apic, baseMsr, val);
      if !w.Done? {
        return false;
      }
      if w.value == Enable {
        Reset();
        hwDisabled := false;
      } else if w.value == Disable {
        hwDisabled := true;
      }
      baseMsr := val;
      EndLoad();
      if X2apic() {
        SetX2apicId(bugLdrFromVcpu);
      }
      ok := true;
    }

    // -------------------------------------------------------------------
    // Restore
    // -------------------------------------------------------------------

    /**
     * Once both records are loaded: in x2APIC mode, an LDR of 1 is
     * recomputed from the vCPU number; the returned fixup tells the domain
     * whether to flag the vCPU-number derivation.
     */
    method LoadFixup(bugLdrFromVcpu: bool) returns (f: Fixup)
      requires Valid()
      modifies regs
      ensures f == RegFile.LoadFixup(X2apic(), loadedId, loadedLdr, vcpuId)
      ensures f == RecomputeIds ==> var ids := X2apicIds(vcpuId, bugLdrFromVcpu);
        regs[..] == SetReg(SetReg(old(regs[..]), APIC_ID, ids.id), APIC_LDR, ids.ldr)
      ensures f != RecomputeIds ==> regs[..] == old(regs[..])
    {
      f := RegFile.LoadFixup(X2apic(), loadedId, loadedLdr, vcpuId);
      if f == RecomputeIds {
        SetX2apicId(bugLdrFromVcpu);
      }
    }

    /** Load the hidden-state record (already checked), and run the fixup if the registers are loaded too. */
    method LoadHidden(h: Hidden, bugLdrFromVcpu: bool) returns (f: Fixup)
      requires Valid() && IsDivisor(h.divisor)
      modifies regs, this`baseMsr, this`hwDisabled, this`swDisabled, this`divisor, this`tdt, this`pendingEsr,
        this`loadedHw
      ensures Valid()
      ensures baseMsr == h.baseMsr && hwDisabled == h.hwDisabled && swDisabled == h.swDisabled
      ensures divisor == h.divisor && tdt == h.tdt && pendingEsr == h.pendingEsr && loadedHw
      ensures f == (if old(loadedRegs) then RegFile.LoadFixup(X2apic(), loadedId, loadedLdr, vcpuId) else NoFixup)
      ensures f != RecomputeIds ==> regs[..] == old(regs[..])
      ensures f == RecomputeIds ==> var ids := X2apicIds(vcpuId, bugLdrFromVcpu);
        regs[..] == SetReg(SetReg(old(regs[..]), APIC_ID, ids.id), APIC_LDR, ids.ldr)
    {
      hide RegFile.LoadFixup, X2apicIds, SetReg;
      baseMsr, hwDisabled, swDisabled, divisor, tdt := h.baseMsr, h.hwDisabled, h.swDisabled, h.divisor, h.tdt;
      pendingEsr := h.pendingEsr;
      loadedHw := true;
      f := NoFixup;
      if loadedRegs {
        f := LoadFixup(bugLdrFromVcpu);
      }
    }

    /** Overwrite the register page with a saved one. */
    method CopyPage(page: seq<bv32>)
      requires Valid() && |page| == PAGE_WORDS
      modifies regs
      ensures regs[..] == page
    {
      for j := 0 to PAGE_WORDS
        invariant regs[..j] == page[..j]
      {
        regs[j] := page[j];
      }
    }

    /**
     * Load the register record: copy the page, remember its ID and LDR,
     * run the fixup if the hidden state is loaded too, and re-arm the timer.
     */
    method LoadRegs(page: seq<bv32>, bugLdrFromVcpu: bool, guestTsc: u64, untilDeadline: u64, now: u64)
      returns (f: Fixup)
      requires Valid() && |page| == PAGE_WORDS
      modifies regs, this`loadedId, this`loadedLdr, this`loadedRegs, this`ptIrq, this`tdt, this`timerLast, this`events
      ensures Valid()
      ensures loadedRegs && loadedId == page[APIC_ID / 4] && loadedLdr == page[APIC_LDR / 4]
      ensures f == (if loadedHw then RegFile.LoadFixup(X2apic(), loadedId, loadedLdr, vcpuId) else NoFixup)
      ensures f != RecomputeIds ==> regs[..] == page
      ensures f == RecomputeIds ==> var ids := X2apicIds(vcpuId, bugLdrFromVcpu);
        regs[..] == SetReg(SetReg(page, APIC_ID, ids.id), APIC_LDR, ids.ldr)
      ensures var r := Timer.Rearm(page[APIC_LVTT / 4], Count(page[APIC_TMICT / 4]), divisor, hwDisabled,
                                   old(tdt), old(timerLast), guestTsc, untilDeadline, now);
        && ptIrq == r.irq && tdt == r.deadline.tdt && timerLast == r.deadline.last
        && events == old(events) + TimerEvents(r.deadline.action)
    {
      hide RegFile.LoadFixup, X2apicIds, SetReg, Timer.Rearm, TimerEvents, Count;
      f := LoadPage(page, bugLdrFromVcpu);
      Rearm(guestTsc, untilDeadline, now);
    }

    /** The first half of LoadRegs: copy the page, remember its ID and LDR, and run the fixup. */
    method LoadPage(page: seq<bv32>, bugLdrFromVcpu: bool) returns (f: Fixup)
      requires Valid() && |page| == PAGE_WORDS
      modifies regs, this`loadedId, this`loadedLdr, this`loadedRegs
      ensures loadedRegs && loadedId == page[APIC_ID / 4] && loadedLdr == page[APIC_LDR / 4]
      ensures f == (if loadedHw then RegFile.LoadFixup(X2apic(), loadedId, loadedLdr, vcpuId) else NoFixup)
      ensures f != RecomputeIds ==> regs[..] == page
      ensures f == RecomputeIds ==> var ids := X2apicIds(vcpuId, bugLdrFromVcpu);
        regs[..] == SetReg(SetReg(page, APIC_ID, ids.id), APIC_LDR, ids.ldr)
      ensures regs[APIC_LVTT / 4] == page[APIC_LVTT / 4] && regs[APIC_TMICT / 4] == page[APIC_TMICT / 4]
    {
      hide RegFile.LoadFixup, X2apicIds;
      CopyPage(page);
      loadedId := regs[APIC_ID / 4];
      loadedLdr := regs[APIC_LDR / 4];
      loadedRegs := true;
      f := NoFixup;
      if loadedHw {
        f := LoadFixup(bugLdrFromVcpu);
      }
    }
  }
}
