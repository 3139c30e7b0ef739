// The interrupt-delivery state machine of one virtual local APIC: accepting
// a vector into IRR, the error latch, acknowledging the highest pending
// vector into ISR, end-of-interrupt, the pending-interrupt query and the
// processor priority. Each operation is a function of the parts of the
// state it reads (the register page, the error latch) and returns the new
// parts together with the events it emits towards the rest of the
// hypervisor; the class in vlapic.dfy applies these in place.

module Lapic {
  import opened Bits32
  import opened ApicRegs
  import opened VecBitmap

  type Vector = v: int | 0 <= v < 256

  /**
   * What the LAPIC asks of the rest of the hypervisor, in order: scheduler
   * kicks and wake-ups, hardware-assist hooks, EOI broadcasts to the I/O APIC
   * and to passed-through MSIs, Hyper-V APIC-assist updates, arming or
   * stopping of the periodic-timer service, and the pause of a vCPU whose
   * INIT or STARTUP message is handed to a deferred worker.
   */
  datatype Event =
    | Kick
    | Wake
    | PostedIntr(vector: int)
    | EoiExitBitmap(vector: int, trig: bool)
    | HandleEoi(vector: int, nextIsr: int)
    | IoapicEoi(vector: int)
    | MsiEoi(vector: int)
    | AssistSet
    | AssistClear
    | TimerArm(delta: int, period: int, periodic: bool)
    | TimerStop
    | InitSipiScheduled

  /** Which optional hardware-assist hooks and guest features are present. */
  datatype Platform = Platform(
    hasVlapic: bool,             // the domain has an emulated local APIC
    postedIntr: bool,            // vectors are posted to hardware instead of IRR
    eoiExitBitmap: bool,         // hardware tracks level-triggered vectors
    handleEoi: bool,             // hardware is told about every EOI
    virtualIntrDelivery: bool,   // hardware acknowledges interrupts itself
    viridianAssist: bool,        // Hyper-V APIC assist is offered
    synic: bool,                 // Hyper-V synthetic interrupt controller
    x2apic: bool)                // the CPU policy offers x2APIC

  /**
   * Inputs the LAPIC reads from outside at the time of a call: whether the
   * Hyper-V assist completed (an EOI was skipped), the Hyper-V auto-EOI
   * vectors, and whether the vCPU runs a nested guest.
   */
  datatype Env = Env(
    assistCompleted: bool,
    autoEoi: set<int>,
    nestedGuestMode: bool)

  /** The register page after an operation, and the events the operation emitted. */
  datatype Irq = Irq(page: RegPage, out: seq<Event>)

  /** The same, for operations that may also latch an error status bit. */
  datatype Latched = Latched(page: RegPage, esr: bv32, out: seq<Event>)

  // ---------------------------------------------------------------------
  // Accepting a vector, and the error latch
  // ---------------------------------------------------------------------

  /** Accept a deliverable vector: record its trigger mode in TMR, then post it or raise it in IRR. */
  function SetValidIrq(p: RegPage, vec: Vector, trig: bool, plat: Platform): Irq
    requires vec >= 16
  {
    var page := if trig then SetVec(p, APIC_TMR, vec) else ClearVec(p, APIC_TMR, vec);
    var out := if plat.eoiExitBitmap then [EoiExitBitmap(vec, trig)] else [];
    if plat.postedIntr then Irq(page, out + [PostedIntr(vec)])
    else if TestVec(page, APIC_IRR, vec) then Irq(page, out)
    else Irq(SetVec(page, APIC_IRR, vec), out + [Kick])
  }

  /**
   * Latch an error bit. Only a newly latched bit raises the LVTERR
   * interrupt, and only if LVTERR is unmasked; an LVTERR holding a reserved
   * vector is not delivered and latches "receive illegal vector" instead.
   */
  function RaiseError(p: RegPage, esr: bv32, errBit: bv5, plat: Platform): Latched
  {
    if Test(esr, errBit) then Latched(p, esr, [])
    else
      var esr1 := SetBit(esr, errBit);
      var lvterr := Reg(p, APIC_LVTERR);
      if lvterr & APIC_LVT_MASKED != 0 then Latched(p, esr1, [])
      else if VectorValid(lvterr) then
        var r := SetValidIrq(p, VectorOf(lvterr), false, plat);
        Latched(r.page, esr1, r.out)
      else Latched(p, SetBit(esr1, ESR_RECVILL_BIT), [])
  }

  /** Deliver a vector with a trigger mode; vectors 0 to 15 are refused with an error. */
  function SetIrq(p: RegPage, esr: bv32, vec: Vector, trig: bool, plat: Platform): Latched
  {
    if vec < 16 then RaiseError(p, esr, ESR_RECVILL_BIT, plat)
    else
      var r := SetValidIrq(p, vec, trig, plat);
      Latched(r.page, esr, r.out)
  }

  /**
   * A valid vector lands in IRR (or is posted), TMR records its trigger mode,
   * ISR and every other register are untouched, and the vCPU is kicked
   * exactly when the vector was not already requested.
   */
  lemma SetIrqDelivers(p: RegPage, esr: bv32, vec: Vector, trig: bool, plat: Platform)
    requires vec >= 16
    ensures var r := SetIrq(p, esr, vec, trig, plat);
      r.esr == esr && SameOutsideBitmaps(p, r.page) &&
      Bits(r.page, APIC_ISR) == Bits(p, APIC_ISR)
    ensures var r := SetIrq(p, esr, vec, trig, plat);
      Bits(r.page, APIC_TMR) == (if trig then Bits(p, APIC_TMR) + {vec} else Bits(p, APIC_TMR) - {vec})
    ensures var r := SetIrq(p, esr, vec, trig, plat);
      Bits(r.page, APIC_IRR) == (if plat.postedIntr then Bits(p, APIC_IRR) else Bits(p, APIC_IRR) + {vec})
    ensures var r := SetIrq(p, esr, vec, trig, plat);
      (PostedIntr(vec) in r.out <==> plat.postedIntr) &&
      (Kick in r.out <==> !plat.postedIntr && vec !in Bits(p, APIC_IRR))
  {
    hide Test, Bit, BitOf, SetBit, TestVec, SetVec, ClearVec, Bits, Highest;
    var page := if trig then SetVec(p, APIC_TMR, vec) else ClearVec(p, APIC_TMR, vec);
    if trig {
      BitsSetVec(p, APIC_TMR, vec);
    } else {
      BitsClearVec(p, APIC_TMR, vec);
    }
    InBits(page, APIC_IRR, vec);
    if !plat.postedIntr && !TestVec(page, APIC_IRR, vec) {
      BitsSetVec(page, APIC_IRR, vec);
    }
  }

  /** Raising an error latches its bit and never clears another. */
  lemma RaiseErrorLatches(p: RegPage, esr: bv32, errBit: bv5, plat: Platform)
    ensures var r := RaiseError(p, esr, errBit, plat);
      Test(r.esr, errBit) && (forall j: bv5 :: Test(esr, j) ==> Test(r.esr, j))
  {
    hide Test, Bit, BitOf, SetBit, TestVec, SetVec, ClearVec, Bits, Highest, SetValidIrq, VectorOf;
    var r := RaiseError(p, esr, errBit, plat);
    if !Test(esr, errBit) {
      var esr1 := SetBit(esr, errBit);
      SetBitKeeps(esr, errBit);
      var lvterr := Reg(p, APIC_LVTERR);
      if lvterr & APIC_LVT_MASKED != 0 || VectorValid(lvterr) {
        assert r.esr == esr1;
      } else {
        assert r.esr == SetBit(esr1, ESR_RECVILL_BIT);
        SetBitKeeps(esr1, ESR_RECVILL_BIT);
      }
    }
  }

  /** A bit already latched is not raised again: nothing changes and nothing is delivered. */
  lemma RaiseErrorLatched(p: RegPage, esr: bv32, errBit: bv5, plat: Platform)
    requires Test(esr, errBit)
    ensures RaiseError(p, esr, errBit, plat) == Latched(p, esr, [])
  {
    hide Test, Bit, BitOf, SetBit, TestVec, SetVec, ClearVec, Bits, Highest, SetValidIrq, VectorOf;
  }

  /**
   * The register page changes only when LVTERR is unmasked with a valid
   * vector, which is then delivered edge-triggered; an unmasked LVTERR with
   * a reserved vector folds in "receive illegal vector" rather than
   * delivering it, so the error path never re-enters itself.
   */
  lemma RaiseErrorDelivers(p: RegPage, esr: bv32, errBit: bv5, plat: Platform)
    ensures var r := RaiseError(p, esr, errBit, plat);
      var lvterr := Reg(p, APIC_LVTERR);
      !Test(esr, errBit) && lvterr & APIC_LVT_MASKED == 0 && !VectorValid(lvterr) ==>
        Test(r.esr, ESR_RECVILL_BIT)
    ensures var r := RaiseError(p, esr, errBit, plat);
      var lvterr := Reg(p, APIC_LVTERR);
      var inject := !Test(esr, errBit) && lvterr & APIC_LVT_MASKED == 0 && VectorValid(lvterr);
      (!inject ==> r.page == p && r.out == []) &&
      (inject ==> SameOutsideBitmaps(p, r.page) &&
                  Bits(r.page, APIC_TMR) == Bits(p, APIC_TMR) - {VectorOf(lvterr)} &&
                  Bits(r.page, APIC_ISR) == Bits(p, APIC_ISR) &&
                  Bits(r.page, APIC_IRR) == (if plat.postedIntr then Bits(p, APIC_IRR)
                                             else Bits(p, APIC_IRR) + {VectorOf(lvterr)}))
  {
    hide Test, Bit, BitOf, SetBit, TestVec, SetVec, ClearVec, Bits, Highest, SetValidIrq, VectorOf;
    var lvterr := Reg(p, APIC_LVTERR);
    if !Test(esr, errBit) && lvterr & APIC_LVT_MASKED == 0 {
      if VectorValid(lvterr) {
        SetIrqDelivers(p, SetBit(esr, errBit), VectorOf(lvterr), false, plat);
      } else {
        SetBitKeeps(SetBit(esr, errBit), ESR_RECVILL_BIT);
      }
    }
  }

  /** Each error bit is reported once: raising it again before the ESR is read changes nothing more. */
  lemma RaiseErrorOnce(p: RegPage, esr: bv32, errBit: bv5, plat: Platform)
    ensures var r := RaiseError(p, esr, errBit, plat);
      RaiseError(r.page, r.esr, errBit, plat) == Latched(r.page, r.esr, [])
  {
    hide Test, Bit, BitOf, SetBit, TestVec, SetVec, ClearVec, Bits, Highest, SetValidIrq, RaiseError;
    RaiseErrorLatches(p, esr, errBit, plat);
    var r := RaiseError(p, esr, errBit, plat);
    RaiseErrorLatched(r.page, r.esr, errBit, plat);
  }

  /**
   * A reserved vector is never accepted: ISR is untouched, "receive illegal
   * vector" is latched, and IRR and TMR change at most at the LVTERR vector,
   * and not at all while LVTERR is masked.
   */
  lemma SetIrqRejectsReserved(p: RegPage, esr: bv32, vec: Vector, trig: bool, plat: Platform)
    requires vec < 16
    ensures Test(SetIrq(p, esr, vec, trig, plat).esr, ESR_RECVILL_BIT)
    ensures var r := SetIrq(p, esr, vec, trig, plat);
      Bits(r.page, APIC_ISR) == Bits(p, APIC_ISR) &&
      vec !in Bits(r.page, APIC_IRR) - Bits(p, APIC_IRR) &&
      (Reg(p, APIC_LVTERR) & APIC_LVT_MASKED != 0 ==> r.page == p)
    ensures var r := SetIrq(p, esr, vec, trig, plat);
      forall u :: u != VectorOf(Reg(p, APIC_LVTERR)) ==>
        (u in Bits(r.page, APIC_IRR) <==> u in Bits(p, APIC_IRR)) &&
        (u in Bits(r.page, APIC_TMR) <==> u in Bits(p, APIC_TMR))
  {
    hide Test, Bit, BitOf, SetBit, TestVec, SetVec, ClearVec, Bits, Highest, RaiseError, VectorOf;
    RaiseErrorLatches(p, esr, ESR_RECVILL_BIT, plat);
    RaiseErrorDelivers(p, esr, ESR_RECVILL_BIT, plat);
  }

  // ---------------------------------------------------------------------
  // Acknowledge and end-of-interrupt
  // ---------------------------------------------------------------------

  /**
   * Acknowledge a vector the vCPU is about to take: unless hardware does it,
   * move it from IRR to ISR (ISR is skipped for a Hyper-V auto-EOI vector),
   * and offer Hyper-V APIC assist for an edge-triggered vector above 0x10
   * when nothing else is in service.
   */
  function Ack(p: RegPage, vec: Vector, forceAck: bool, plat: Platform, env: Env): Irq
  {
    if !forceAck && plat.virtualIntrDelivery then Irq(p, [])
    else
      var assist := plat.viridianAssist && !TestVec(p, APIC_TMR, vec)
                    && Highest(p, APIC_ISR) == -1 && vec > 0x10;
      var page := if !plat.synic || vec !in env.autoEoi then SetVec(p, APIC_ISR, vec) else p;
      Irq(ClearVec(page, APIC_IRR, vec), if assist then [AssistSet] else [])
  }

  /** An acknowledged vector leaves IRR and enters ISR; TMR and all other registers are kept. */
  lemma AckMovesToService(p: RegPage, vec: Vector, forceAck: bool, plat: Platform, env: Env)
    ensures !forceAck && plat.virtualIntrDelivery ==> Ack(p, vec, forceAck, plat, env) == Irq(p, [])
    ensures var r := Ack(p, vec, forceAck, plat, env);
      SameOutsideBitmaps(p, r.page) &&
      (forceAck || !plat.virtualIntrDelivery ==>
        Bits(r.page, APIC_IRR) == Bits(p, APIC_IRR) - {vec} &&
        Bits(r.page, APIC_ISR) == (if plat.synic && vec in env.autoEoi then Bits(p, APIC_ISR)
                                   else Bits(p, APIC_ISR) + {vec}) &&
        Bits(r.page, APIC_TMR) == Bits(p, APIC_TMR))
  {
    hide Test, Bit, BitOf, SetBit, TestVec, SetVec, ClearVec, Bits, Highest;
    if forceAck || !plat.virtualIntrDelivery {
      var page := if !plat.synic || vec !in env.autoEoi then SetVec(p, APIC_ISR, vec) else p;
      if !plat.synic || vec !in env.autoEoi {
        BitsSetVec(p, APIC_ISR, vec);
      }
      BitsClearVec(page, APIC_IRR, vec);
    }
  }

  /**
   * APIC assist is offered exactly for an edge-triggered vector above 0x10
   * acknowledged while nothing is in service.
   */
  lemma AckAssist(p: RegPage, vec: Vector, forceAck: bool, plat: Platform, env: Env)
    requires forceAck || !plat.virtualIntrDelivery
    ensures AssistSet in Ack(p, vec, forceAck, plat, env).out <==>
      plat.viridianAssist && vec !in Bits(p, APIC_TMR) && Bits(p, APIC_ISR) == {} && vec > 0x10
  {
    hide Test, Bit, BitOf, SetBit, TestVec, SetVec, ClearVec, Bits, Highest;
    HighestIsMax(p, APIC_ISR);
    InBits(p, APIC_TMR, vec);
  }

  /**
   * One pass of EOI for the in-service vector vec: clear it from ISR, clear
   * Hyper-V assist unless the EOI is one the assist let the guest skip, tell
   * the hardware hook, the I/O APIC if vec is level-triggered, and the MSI
   * passthrough in every case.
   */
  function EoiPass(p: RegPage, vec: Vector, missed: bool, plat: Platform): Irq
  {
    var page := ClearVec(p, APIC_ISR, vec);
    var hook := if plat.handleEoi then [HandleEoi(vec, Highest(page, APIC_ISR))] else [];
    var ioapic := if TestVec(page, APIC_TMR, vec) then [IoapicEoi(vec)] else [];
    Irq(page, (if missed then [] else [AssistClear]) + hook + ioapic + [MsiEoi(vec)])
  }

  /**
   * EOI as written to the EOI register: nothing when ISR is empty, else one
   * pass for the highest in-service vector, and a second pass when Hyper-V
   * assist completed (an earlier EOI was skipped).
   */
  function EoiFrom(p: RegPage, missed: bool, plat: Platform): Irq
    decreases missed
  {
    var vec := Highest(p, APIC_ISR);
    if vec == -1 then Irq(p, [])
    else
      var r := EoiPass(p, vec, missed, plat);
      if missed then
        var r2 := EoiFrom(r.page, false, plat);
        Irq(r2.page, r.out + r2.out)
      else r
  }

  /**
   * A pass clears exactly the in-service vector h, leaves IRR, TMR and every
   * other register alone, and signals the I/O APIC exactly when h is
   * level-triggered.
   */
  lemma EoiPassSpec(p: RegPage, h: Vector, missed: bool, plat: Platform)
    ensures var r := EoiPass(p, h, missed, plat);
      SameOutsideBitmaps(p, r.page) &&
      Bits(r.page, APIC_ISR) == Bits(p, APIC_ISR) - {h} &&
      Bits(r.page, APIC_IRR) == Bits(p, APIC_IRR) &&
      Bits(r.page, APIC_TMR) == Bits(p, APIC_TMR)
    ensures var r := EoiPass(p, h, missed, plat);
      (IoapicEoi(h) in r.out <==> h in Bits(p, APIC_TMR)) &&
      MsiEoi(h) in r.out &&
      (AssistClear in r.out <==> !missed)
  {
    hide Test, Bit, BitOf, SetBit, TestVec, SetVec, ClearVec, Bits, Highest;
    BitsClearVec(p, APIC_ISR, h);
    InBits(ClearVec(p, APIC_ISR, h), APIC_TMR, h);
  }

  /**
   * EOI with nothing in service changes nothing; otherwise it clears the
   * highest in-service vector and, only after a skipped EOI, the next one
   * too: never more than two vectors. IRR and TMR are kept.
   */
  lemma EoiClearsAtMostTwo(p: RegPage, missed: bool, plat: Platform)
    ensures Bits(p, APIC_ISR) == {} ==> EoiFrom(p, missed, plat) == Irq(p, [])
    ensures var r := EoiFrom(p, missed, plat);
      SameOutsideBitmaps(p, r.page) &&
      Bits(r.page, APIC_IRR) == Bits(p, APIC_IRR) &&
      Bits(r.page, APIC_TMR) == Bits(p, APIC_TMR)
    ensures var r := EoiFrom(p, missed, plat);
      var isr := Bits(p, APIC_ISR);
      isr != {} ==>
        exists h :: h in isr && (forall u :: u in isr ==> u <= h) &&
          var rest := isr - {h};
          Bits(r.page, APIC_ISR) == rest ||
          (missed && exists h2 :: h2 in rest && (forall u :: u in rest ==> u <= h2) &&
                                  Bits(r.page, APIC_ISR) == rest - {h2})
  {
    hide Test, Bit, BitOf, SetBit, TestVec, SetVec, ClearVec, Bits, EoiPass;
    HighestIsMax(p, APIC_ISR);
    var h := Highest(p, APIC_ISR);
    if h != -1 {
      EoiPassSpec(p, h, missed, plat);
      var r := EoiPass(p, h, missed, plat);
      var rest := Bits(p, APIC_ISR) - {h};
      HighestIsMax(r.page, APIC_ISR);
      var h2 := Highest(r.page, APIC_ISR);
      if missed && h2 != -1 {
        EoiPassSpec(r.page, h2, false, plat);
        assert Bits(EoiFrom(p, missed, plat).page, APIC_ISR) == rest - {h2};
      }
    }
  }

  /** EOI with no skipped EOI to make up for ends the highest in-service vector and no other. */
  lemma EoiOnce(p: RegPage, plat: Platform)
    ensures Bits(EoiFrom(p, false, plat).page, APIC_ISR) ==
      if Bits(p, APIC_ISR) == {} then {} else Bits(p, APIC_ISR) - {Highest(p, APIC_ISR)}
  {
    hide Test, Bit, BitOf, SetBit, TestVec, SetVec, ClearVec, Bits, EoiPass;
    HighestIsMax(p, APIC_ISR);
    if Highest(p, APIC_ISR) != -1 {
      EoiPassSpec(p, Highest(p, APIC_ISR), false, plat);
    }
  }

  // ---------------------------------------------------------------------
  // Processor priority and the pending-interrupt query
  // ---------------------------------------------------------------------

  /** PPR from the task-priority register and the highest in-service vector (-1 for none). */
  function PprOf(tpr: bv32, isr: int): int
    requires -1 <= isr < 256
  {
    var t := VectorOf(tpr);
    var isrv := if isr != -1 then isr else 0;
    if t / 16 >= isrv / 16 then t else isrv / 16 * 16
  }

  function Ppr(p: RegPage): int
  {
    PprOf(Reg(p, APIC_TASKPRI), Highest(p, APIC_ISR))
  }

  /**
   * The priority class of PPR is the larger of the task-priority class and
   * the class of the highest in-service vector; its low nibble is the TPR's
   * when the TPR class wins and zero otherwise.
   */
  lemma PprRule(tpr: bv32, isr: int)
    requires -1 <= isr < 256
    ensures var t := VectorOf(tpr); var isrv := if isr != -1 then isr else 0;
      var ppr := PprOf(tpr, isr);
      0 <= ppr < 256 &&
      ppr / 16 == (if t / 16 >= isrv / 16 then t / 16 else isrv / 16) &&
      ppr % 16 == (if t / 16 >= isrv / 16 then t % 16 else 0)
  {
    hide VectorOf;
  }

  lemma PprExamples()
    ensures PprOf(0x40, -1) == 0x40
    ensures PprOf(0x10, 0x53) == 0x50
    ensures PprOf(0x5F, 0x53) == 0x5F
  {
  }

  /** No in-service vector has a priority class above PPR's, nor does the TPR. */
  lemma PprCoversService(p: RegPage)
    ensures 0 <= Ppr(p) < 256
    ensures VectorOf(Reg(p, APIC_TASKPRI)) / 16 <= Ppr(p) / 16
    ensures forall u :: u in Bits(p, APIC_ISR) ==> u / 16 <= Ppr(p) / 16
  {
    hide Test, Bit, BitOf, SetBit, TestVec, SetVec, ClearVec, Bits, Highest, VectorOf;
    HighestIsMax(p, APIC_ISR);
    PprRule(Reg(p, APIC_TASKPRI), Highest(p, APIC_ISR));
  }

  /**
   * The highest vector the vCPU should take next, or -1, with the page after
   * the EOI the Hyper-V assist let the guest skip. Without hardware delivery,
   * a request is held back unless its priority class is above that of every
   * vector in service. Asking whether the assist completed also clears it, so
   * the EOI run for the skipped one finds no further skipped EOI: one pass.
   */
  function HasPending(p: RegPage, enabled: bool, plat: Platform, env: Env): (int, Irq)
  {
    if !enabled then (-1, Irq(p, []))
    else
      var irr := Highest(p, APIC_IRR);
      if irr == -1 then (-1, Irq(p, []))
      else if plat.virtualIntrDelivery && !env.nestedGuestMode then (irr, Irq(p, []))
      else
        var r := if env.assistCompleted then EoiFrom(p, false, plat) else Irq(p, []);
        var isr := Highest(r.page, APIC_ISR);
        if isr >= 0 && irr / 16 <= isr / 16 then (-1, Irq(r.page, r.out + [AssistClear]))
        else (irr, r)
  }

  /**
   * A disabled APIC or an empty IRR reports nothing; a reported vector is the
   * highest in IRR, and IRR itself is never changed by the query.
   */
  lemma HasPendingHighest(p: RegPage, enabled: bool, plat: Platform, env: Env)
    ensures var (v, r) := HasPending(p, enabled, plat, env);
      (!enabled || Bits(p, APIC_IRR) == {} ==> v == -1 && r == Irq(p, [])) &&
      (v != -1 ==> v in Bits(p, APIC_IRR) && forall u :: u in Bits(p, APIC_IRR) ==> u <= v) &&
      Bits(r.page, APIC_IRR) == Bits(p, APIC_IRR)
  {
    hide Test, Bit, BitOf, SetBit, TestVec, SetVec, ClearVec, Bits, EoiFrom;
    HighestIsMax(p, APIC_IRR);
    EoiClearsAtMostTwo(p, false, plat);
  }

  /**
   * Unless hardware delivers interrupts, a reported vector outranks the
   * class of every vector still in service, and a request held back has an
   * in-service vector of equal or higher class. The vectors in service
   * afterwards are those before, less the highest one exactly when the
   * assist completed: the skipped EOI is made up for once.
   */
  lemma HasPendingOutranks(p: RegPage, enabled: bool, plat: Platform, env: Env)
    requires !(plat.virtualIntrDelivery && !env.nestedGuestMode)
    ensures var (v, r) := HasPending(p, enabled, plat, env);
      (v != -1 ==> forall u :: u in Bits(r.page, APIC_ISR) ==> u / 16 < v / 16) &&
      (v == -1 && enabled && Bits(p, APIC_IRR) != {} ==>
         exists u :: u in Bits(r.page, APIC_ISR) && Highest(p, APIC_IRR) / 16 <= u / 16)
    ensures var (v, r) := HasPending(p, enabled, plat, env);
      enabled && Bits(p, APIC_IRR) != {} ==>
        Bits(r.page, APIC_ISR) ==
          if env.assistCompleted && Bits(p, APIC_ISR) != {}
          then Bits(p, APIC_ISR) - {Highest(p, APIC_ISR)} else Bits(p, APIC_ISR)
  {
    hide Test, Bit, BitOf, SetBit, TestVec, SetVec, ClearVec, Bits, EoiFrom;
    HighestIsMax(p, APIC_IRR);
    HighestIsMax(p, APIC_ISR);
    if enabled && Highest(p, APIC_IRR) != -1 {
      var r := if env.assistCompleted then EoiFrom(p, false, plat) else Irq(p, []);
      HighestIsMax(r.page, APIC_ISR);
      if env.assistCompleted {
        EoiOnce(p, plat);
      }
    }
  }
}
