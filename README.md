# Xen: virtual local APIC, LZO1X safe decompressor, bug frames

This project models three parts of the Xen hypervisor and proves properties of
the models in Dafny.

* **The emulated local APIC of an HVM guest** (`xen/arch/x86/hvm/vlapic.c`).
  * The register page is a 4 KiB page of 32-bit registers at a 16-byte stride.
  * It holds three 256-bit vector bitmaps: IRR (requested), ISR (in service)
    and TMR (level-triggered).
  * The model covers:
    * delivery, acknowledgement and EOI of interrupts;
    * the processor priority (PPR);
    * the error status latch (ESR);
    * destination matching, lowest-priority arbitration and interprocessor
      interrupts;
    * register writes and reads through MMIO and through x2APIC MSRs;
    * the APIC base MSR;
    * INIT and reset;
    * the timer (divide configuration, current count, re-arming, TSC
      deadline);
    * the restore path (checks and fixups of saved records).
  * Pure rules are Dafny functions with lemmas. The state a LAPIC updates in
    place is the class `Vlapic.VLapic`: its register page is an
    `array<bv32>`, and its hidden fields (ESR latch, disable flags, divisor,
    deadline, timer timestamp, restore flags, INIT/SIPI slot) are fields.
  * A domain (`DomainApic.Domain`) owns its vCPUs' LAPICs and the
    round-robin cursor of lowest-priority arbitration.
  * Each method is proved against the pure function that specifies it.
* **`lzo1x_decompress_safe`** (`xen/common/lzo.c`), byte-by-byte path.
  * `Lzo.Decode` is the decoder as a function over the input bytes and the
    capacity.
  * `Lzo.DecompressSafe` is the imperative decoder. It writes into an
    `array<byte>` and is proved to produce exactly what `Decode` gives.
  * Lemmas about `Decode` cover the capacity, the end marker, where output
    bytes come from, and two round trips.
* **Bug-frame packing** (`xen/include/xen/bug.h`).
  * A frame is two 32-bit words. Each holds a signed 24-bit displacement and
    one 7-bit half of the line number.
  * `bug_line`, `bug_loc` and `bug_ptr` decode a frame; the model proves
    they recover what was encoded.

Files:

| file | module | contents |
|---|---|---|
| `bits.dfy` | `Bits32` | bit tests on `bv32` words |
| `apic_regs.dfy` | `ApicRegs` | register offsets, field masks, LVT masks |
| `vec_bitmap.dfy` | `VecBitmap` | register page, vector bitmaps, highest-vector search |
| `lapic.dfy` | `Lapic` | delivery, error latch, acknowledgement, EOI, PPR, pending query |
| `dest.dfy` | `Destination` | logical and physical destination matching, multicast test |
| `timer.dfy` | `Timer` | divide configuration, current count, timer update, TSC deadline |
| `regfile.dfy` | `RegFile` | register write rules, sub-word access, x2APIC MSRs, base MSR, INIT page, restore checks |
| `vlapic.dfy` | `Vlapic` | the `VLapic` class and interrupt acceptance |
| `domain.dfy` | `DomainApic` | the `Domain` class: arbitration, IPIs, register writes, restore |
| `bug_frame.dfy` | `BugFrame` | bug-frame encoding and decoding |
| `lzo.dfy` | `Lzo` | LZO1X decoder specification and its imperative implementation |

Header constants that are not part of this model (`APIC_*` offsets and
masks, `APIC_DM_*`, `APIC_TDR_DIV_MASK`, `APIC_BUS_CYCLE_NS`,
`MSR_X2APIC_FIRST`, the LZO result codes) take their architectural values.
These come from the Intel 64 and IA-32 Architectures Software Developer's
Manual, Volume 3A, chapter "Advanced Programmable Interrupt Controller
(APIC)", and from the LZO library. `M2_MAX_OFFSET` is defined by the decoder
itself (xen/common/lzo.c:32) and has the same value in `Lzo`.

## Model

| member | source | states |
|---|---|---|
| ApicRegs.LvtMask | xen/arch/x86/hvm/vlapic.c:37-56 | every LVT entry can hold the mask, delivery-status and vector bits |
| VecBitmap.FlsBelowSpec | xen/arch/x86/hvm/vlapic.c:72-82 | the bit-scan of the low k bits names a set bit, and no bit above it is set |
| VecBitmap.FlsSpec | xen/arch/x86/hvm/vlapic.c:72-82 | fls is 0 exactly for a zero word, otherwise one more than the highest set bit |
| VecBitmap.SetReg | xen/arch/x86/hvm/vlapic.c:88-96 | storing a register changes that register's word and no other |
| VecBitmap.SetVecSpec | xen/arch/x86/hvm/vlapic.c:88-91 | setting vector v of one bitmap sets exactly that bit, keeps every other bit of every bitmap, and touches only v's word |
| VecBitmap.ClearVecSpec | xen/arch/x86/hvm/vlapic.c:93-96 | clearing vector v removes exactly that bit and touches only v's word |
| VecBitmap.HighestBelowSpec | xen/arch/x86/hvm/vlapic.c:72-82 | the search over the first k words gives -1 exactly when none of their vectors is set, else a set vector with none above it |
| VecBitmap.HighestSpec | xen/arch/x86/hvm/vlapic.c:72-82 | the highest-vector search returns the top set vector, and -1 exactly for an empty bitmap |
| VecBitmap.HighestIsMax | xen/arch/x86/hvm/vlapic.c:72-82 | as a set: -1 for the empty set, else the maximum of the vectors the bitmap holds |
| VecBitmap.HighestOfBits | xen/arch/x86/hvm/vlapic.c:72-82 | the search depends only on the set of vectors the bitmap holds |
| VecBitmap.BitsSetVec | xen/arch/x86/hvm/vlapic.c:88-91 | setting a vector adds it to its bitmap, leaves the other bitmaps alone, and leaves every register outside the bitmaps alone |
| VecBitmap.BitsClearVec | xen/arch/x86/hvm/vlapic.c:93-96 | clearing a vector removes it from its bitmap and leaves everything else alone |
| VecBitmap.FindHighestVector | xen/arch/x86/hvm/vlapic.c:72-82 | the downward scan over words 7 to 0, one word in four, returns Highest of the page |
| Lapic.SetIrqDelivers | xen/arch/x86/hvm/vlapic.c:149-171 | a valid vector lands in IRR, or is posted; TMR records the trigger mode; ISR and the other registers are untouched; the vCPU is kicked exactly when the vector was not already requested |
| Lapic.SetIrqRejectsReserved | xen/arch/x86/hvm/vlapic.c:149-157 | vectors 0 to 15 latch "receive illegal vector", never reach ISR, and change IRR and TMR at most at the LVTERR vector (not at all while LVTERR is masked) |
| Lapic.RaiseErrorLatches | xen/arch/x86/hvm/vlapic.c:105-135 | an error bit is latched and no latched bit is cleared |
| Lapic.RaiseErrorLatched | xen/arch/x86/hvm/vlapic.c:105-113 | a bit already latched changes nothing and delivers nothing |
| Lapic.RaiseErrorDelivers | xen/arch/x86/hvm/vlapic.c:115-135 | LVTERR is raised, edge-triggered, only for a new bit with LVTERR unmasked and valid; a reserved LVTERR vector latches "receive illegal vector" instead, so the error path does not recurse |
| Lapic.RaiseErrorOnce | xen/arch/x86/hvm/vlapic.c:105-135 | raising the same error again before ESR is read changes nothing |
| Lapic.AckMovesToService | xen/arch/x86/hvm/vlapic.c:1383-1416 | without hardware virtual-interrupt delivery, or when forced, the vector leaves IRR and enters ISR (not for a Hyper-V auto-EOI vector); TMR and all other registers are kept; otherwise nothing changes |
| Lapic.AckAssist | xen/arch/x86/hvm/vlapic.c:1393-1409 | Hyper-V APIC assist is offered exactly for an edge-triggered vector above 0x10 acknowledged with nothing in service |
| Lapic.EoiPassSpec | xen/arch/x86/hvm/vlapic.c:419-472 | one EOI pass clears exactly the in-service vector, keeps IRR and TMR, signals the I/O APIC exactly when the vector is level-triggered, always tells passed-through MSIs, and clears assist unless the EOI was skipped |
| Lapic.EoiClearsAtMostTwo | xen/arch/x86/hvm/vlapic.c:419-461 | EOI with an empty ISR changes nothing; otherwise it clears the highest in-service vector, and the next highest only after a skipped EOI; IRR and TMR are kept |
| Lapic.PprRule | xen/arch/x86/hvm/vlapic.c:178-197 | the PPR class is the larger of the TPR class and the class of the highest in-service vector; its low nibble is the TPR's when the TPR wins, else 0 |
| Lapic.PprExamples | xen/arch/x86/hvm/vlapic.c:178-197 | TPR 0x40 with nothing in service gives 0x40; TPR 0x10 with 0x53 in service gives 0x50; TPR 0x5F with 0x53 gives 0x5F |
| Lapic.PprCoversService | xen/arch/x86/hvm/vlapic.c:178-197 | neither the TPR nor any in-service vector has a class above the PPR's |
| Lapic.HasPendingHighest | xen/arch/x86/hvm/vlapic.c:1335-1381 | a disabled APIC or an empty IRR reports -1 and changes nothing; a reported vector is the highest in IRR, on the page after the posted-vector sync; IRR is never changed |
| Lapic.HasPendingOutranks | xen/arch/x86/hvm/vlapic.c:1358-1380 | without hardware delivery a reported vector outranks every in-service class, and a held-back request has an in-service vector of equal or higher class; with a request pending, a completed Hyper-V assist makes up for its skipped EOI by ending exactly the highest in-service vector, once |
| Lapic.EoiOnce | xen/arch/x86/hvm/vlapic.c:419-461 | an EOI with no skipped EOI to make up for ends the highest in-service vector and no other |
| Destination.XapicLogicalId | xen/arch/x86/hvm/vlapic.c:207-237 | the xAPIC logical ID is an 8-bit value |
| Destination.MatchLogicalX2apic | xen/arch/x86/hvm/vlapic.c:212-217 | in x2APIC mode: a match exactly when the clusters are equal and the low 16 bits share a set bit |
| Destination.MatchLogicalFlat | xen/arch/x86/hvm/vlapic.c:219-225 | in the flat model: a match exactly when the logical ID and the destination byte share a set bit |
| Destination.MatchLogicalCluster | xen/arch/x86/hvm/vlapic.c:226-231 | in the cluster model: a match exactly when the high nibbles are equal and the low nibbles share a set bit |
| Destination.MatchLogicalBadDfr | xen/arch/x86/hvm/vlapic.c:232-236 | a DFR that is neither flat nor cluster never matches |
| Destination.Shorthands | xen/arch/x86/hvm/vlapic.c:239-270 | "self" reaches exactly the sender, "all including self" every target, "all but self" exactly the others; the destination field is ignored |
| Destination.UnknownShorthand | xen/arch/x86/hvm/vlapic.c:239-270 | a shorthand outside the four encodings reaches nobody |
| Destination.PhysicalDest | xen/arch/x86/hvm/vlapic.c:249-256 | a physical destination reaches every target when it is the broadcast ID, otherwise exactly the target with that APIC ID |
| Destination.MultipleBitsSetSpec | xen/arch/x86/hvm/vlapic.c:474-494 | the multiple-bits test holds exactly when two different bits are set |
| Destination.SingleDestinations | xen/arch/x86/hvm/vlapic.c:474-494 | "self", a non-broadcast physical ID, and an x2APIC logical destination with one bit are never treated as multicast |
| Timer.Sub64 | xen/arch/x86/hvm/vlapic.c:565-570 | unsigned 64-bit subtraction is the difference modulo 2^64, and adding the subtrahend back modulo 2^64 gives the minuend |
| Timer.SubSub | xen/arch/x86/hvm/vlapic.c:736-770 | subtracting a time difference (the `time_passed` of line 736-737) back out (the `timer_last_update -=` of line 769-770) recovers the earlier time |
| Timer.ModeOf | xen/arch/x86/hvm/vlapic.c:58-68 | the timer mode is periodic, one-shot or TSC-deadline exactly when the LVTT mode field says so |
| Timer.Divisor | xen/arch/x86/hvm/vlapic.c:585-597 | every divide configuration decodes to a power of two from 1 to 128 |
| Timer.SetTdcr | xen/arch/x86/hvm/vlapic.c:585-597 | TDCR keeps only the divide bits, and the divisor is a power of two from 1 to 128 |
| Timer.DivisorTable | xen/arch/x86/hvm/vlapic.c:585-597 | the architectural table: 0000b gives 2, 0001b 4, 0010b 8, 0011b 16, 1000b 32, 1001b 64, 1010b 128, 1011b 1 |
| Timer.SetTdcrIdempotent | xen/arch/x86/hvm/vlapic.c:585-597 | writing back what TDCR reads changes nothing |
| Timer.Tick | xen/arch/x86/hvm/vlapic.c:559-583 | one timer count lasts between 10 and 1280 ns |
| Timer.TmcctBounds | xen/arch/x86/hvm/vlapic.c:559-583 | the current count is at most the initial count; it is 0 when stopped or when the initial count is 0, never 0 while a periodic timer runs, and the full count at the moment of arming |
| Timer.TmcctOneShotCountsDown | xen/arch/x86/hvm/vlapic.c:559-583 | a one-shot count only goes down, and is 0 once a whole period has passed |
| Timer.TmcctPeriodicRepeats | xen/arch/x86/hvm/vlapic.c:559-583 | a periodic count repeats every period |
| Timer.Period | xen/arch/x86/hvm/vlapic.c:719-790 | a period is 0 exactly when the initial count is 0 |
| Timer.Remaining | xen/arch/x86/hvm/vlapic.c:726-760 | the time left at an update is between 0 and one full period |
| Timer.UpdateTimerArms | xen/arch/x86/hvm/vlapic.c:719-790 | the timer is armed exactly when time is left in a count-down mode; it never fires more than a period away; it repeats exactly in periodic mode; a stop clears the timestamp |
| Timer.TmictWriteStartsCount | xen/arch/x86/hvm/vlapic.c:894-902 | a TMICT write in a count-down mode arms a full period from now, and the current count then reads the initial count |
| Timer.RewriteKeepsCount | xen/arch/x86/hvm/vlapic.c:719-790 | rewriting LVTT in the same mode with the same divisor leaves the current count unchanged |
| Timer.TdtGet | xen/arch/x86/hvm/vlapic.c:1203-1209 | the deadline MSR reads 0 outside TSC-deadline mode |
| Timer.TdtRoundTrip | xen/arch/x86/hvm/vlapic.c:1211-1271 | a write while hardware disabled or outside TSC-deadline mode changes nothing; otherwise a future deadline reads back as written and arms a one-shot timer, a past deadline fires at once and reads 0, and 0 stops the timer |
| Timer.RearmRestarts | xen/arch/x86/hvm/vlapic.c:1482-1516 | after a restore the timer vector comes from LVTT, a non-zero count restarts a whole count, and a future deadline is kept |
| RegFile.ClusterOfLdr | xen/arch/x86/hvm/vlapic.c:1089-1092 | the derived x2APIC LDR names the ID's cluster |
| RegFile.Low16OfLdr | xen/arch/x86/hvm/vlapic.c:1089-1092 | the derived x2APIC LDR sets one bit, for the ID's place in its cluster |
| RegFile.X2apicLdrUnique | xen/arch/x86/hvm/vlapic.c:1089-1092 | for IDs below 2^20 the derived LDRs are equal, or match each other as logical destinations, exactly when the IDs are equal |
| RegFile.X2apicIds | xen/arch/x86/hvm/vlapic.c:1094-1109 | the x2APIC ID is twice the vCPU number; the LDR is derived from it, or from the vCPU number on a flagged domain |
| RegFile.LvtOffset | xen/arch/x86/hvm/vlapic.c:835-840 | the LVT entries lie from LVTT to LVTERR at 16-byte steps |
| RegFile.LvtWriteSpec | xen/arch/x86/hvm/vlapic.c:874-892 | a stored LVT value has no bits outside its mask, is masked while software disabled and otherwise keeps the written mask bit, is idempotent, and is stored as written when within its mask |
| RegFile.MaskAllLvtsSpec | xen/arch/x86/hvm/vlapic.c:828-841 | software disabling sets the mask bit of every LVT entry, keeps their other bits and every other register, and is idempotent |
| RegFile.IcrStore | xen/arch/x86/hvm/vlapic.c:852-856 | the stored ICR has its delivery-status bit clear and is otherwise the written value |
| RegFile.SubRead | xen/arch/x86/hvm/vlapic.c:638-654 | a byte read fits in 8 bits, a half-word in 16, a three-byte read gives 0, and a word read the register |
| RegFile.ByteWriteReadBack | xen/arch/x86/hvm/vlapic.c:940-963 | a merged one-byte write reads back as written and keeps the other bytes |
| RegFile.HalfWriteReadBack | xen/arch/x86/hvm/vlapic.c:940-963 | a merged two-byte write reads back as written and keeps the other two bytes |
| RegFile.X2apicReg | xen/arch/x86/hvm/vlapic.c:657-697 | the MSR-to-register computation stays in 32 bits |
| RegFile.RdmsrOffset | xen/arch/x86/hvm/vlapic.c:657-697 | an accepted MSR read is served from a 16-byte-aligned register at or below the self-IPI register |
| RegFile.RdmsrReadable | xen/arch/x86/hvm/vlapic.c:657-697 | a read is served exactly in x2APIC mode for a readable register, from offset 16 times its number; EOI, self-IPI, ICR2 and DFR are not readable |
| RegFile.WrmsrIcr2 | xen/arch/x86/hvm/vlapic.c:1034-1040 | only an accepted ICR write carries an ICR2 value, and it is the upper half written |
| RegFile.WrmsrLvtStoredAsWritten | xen/arch/x86/hvm/vlapic.c:1009-1031 | an accepted LVT MSR write is stored as written while the APIC is software enabled |
| RegFile.WrmsrLvtCase | xen/arch/x86/hvm/vlapic.c:1009-1031 | an LVT MSR write is accepted exactly when the value lies within the entry's writable bits |
| RegFile.WrmsrSelfIpi | xen/arch/x86/hvm/vlapic.c:1055-1062 | a self-IPI write is accepted exactly for a value holding only a vector, and becomes a fixed interrupt to self for that vector |
| RegFile.MsrNeedsX2apic | xen/arch/x86/hvm/vlapic.c:657-697 | outside x2APIC mode every x2APIC MSR read and write faults |
| RegFile.ModeBits | xen/arch/x86/hvm/vlapic.c:1111-1201 | the base MSR's enable and extended bits give the four APIC modes |
| RegFile.BaseWriteTransitions | xen/arch/x86/hvm/vlapic.c:1111-1201 | accepted base writes make only the architectural mode transitions, and enable or disable exactly when the enable bit changes |
| RegFile.BaseWriteGuards | xen/arch/x86/hvm/vlapic.c:1111-1201 | no emulated APIC, the extended bit without x2APIC support, or an xAPIC mode away from the default base address fault |
| RegFile.ResetBase | xen/arch/x86/hvm/vlapic.c:1466-1479 | after reset the base MSR is xAPIC-enabled at the default address, with the bootstrap flag exactly on vCPU 0 |
| RegFile.InitPageSpec | xen/arch/x86/hvm/vlapic.c:1425-1463 | after INIT: IRR, ISR and TMR are empty; TPR is 0; every LVT entry is just masked; SPIV is 0xFF with the APIC disabled; ID is kept; LDR is zeroed unless in x2APIC mode; DFR is flat |
| RegFile.LoadFixupSpec | xen/arch/x86/hvm/vlapic.c:1540-1576 | the fixup does nothing in xAPIC mode or for a derived LDR; an LDR of 1 is recomputed, and the result then passes; the flag is set only for an LDR derived from the vCPU number |
| RegFile.CheckHidden | xen/arch/x86/hvm/vlapic.c:1595-1614 | the hidden record is accepted exactly with an emulated APIC, an existing vCPU, a record present and a base MSR not in the invalid mode |
| RegFile.CheckHiddenMatchesWrites | xen/arch/x86/hvm/vlapic.c:1111-1201 | every accepted base MSR write from an accepted state lands in an accepted state |
| Vlapic.DeliveryMode | xen/arch/x86/hvm/vlapic.c:340-386 | the delivery-mode field is one of the eight architectural modes |
| Vlapic.AcceptFixed | xen/arch/x86/hvm/vlapic.c:348-356 | a fixed or lowest-priority message raises its vector, edge-triggered, on an enabled APIC and changes nothing on a disabled one |
| Vlapic.AcceptNmi | xen/arch/x86/hvm/vlapic.c:363-368 | an NMI is latched once, waking an initialised vCPU that is down, then kicking it |
| Vlapic.AcceptOthers | xen/arch/x86/hvm/vlapic.c:358-385 | remote read and SMI are dropped, and exactly the external-interrupt mode crashes the domain |
| Vlapic.AcceptKeepsRegisters | xen/arch/x86/hvm/vlapic.c:340-386 | accepting a message changes no register of the receiver outside IRR, ISR and TMR, so its ICR and ICR2 keep their values |
| Vlapic.TimerEvents | xen/arch/x86/hvm/vlapic.c:719-790 | keeping the timer asks the timer service for nothing; arming asks it once |
| Vlapic.RegReadSpec | xen/arch/x86/hvm/vlapic.c:599-621 | PPR reads as computed, TMCCT as the current count, both timer counts as 0 outside the count-down modes, and everything else as stored |
| Vlapic.Join | xen/arch/x86/hvm/vlapic.c:657-697 | the 64-bit ICR read puts ICR2 in the high half |
| Vlapic.InitPageSteps | xen/arch/x86/hvm/vlapic.c:1425-1463 | INIT's steps, in order, give the INIT page |
| Vlapic.LvtIndex | xen/arch/x86/hvm/vlapic.c:874-881 | a non-timer LVT offset gives its entry number |
| Vlapic.Stored | xen/arch/x86/hvm/vlapic.c:800-823 | ID is stored as written, ESR as the latched errors, TPR's low byte, the top byte of LDR and ICR2, and DFR with its low 28 bits set |
| Vlapic.ZeroDivisorRecordAccepted | xen/arch/x86/hvm/vlapic.c:1595-1614 | as written, the hidden-state check accepts a record with divisor 0 |
| Vlapic.CheckHiddenRecord | xen/arch/x86/hvm/vlapic.c:1595-1614 | the corrected check accepts a record exactly when the plain check does and the divisor is valid |
| Vlapic.VLapic.constructor | xen/arch/x86/hvm/vlapic.c:1681-1716 | a new LAPIC is hardware disabled exactly when the domain has no emulated APIC, and then keeps a zeroed page; otherwise it is reset: base MSR as ResetBase, the INIT page over a page holding ID twice the vCPU number, software disabled, the divisor of TDCR 0, the timer stopped; the error latch, deadline, INIT/SIPI slot and restore flags start empty |
| Vlapic.VLapic.SetVector | xen/arch/x86/hvm/vlapic.c:88-91 | the page becomes SetVec of the old page |
| Vlapic.VLapic.ClearVector | xen/arch/x86/hvm/vlapic.c:93-96 | the page becomes ClearVec of the old page |
| Vlapic.VLapic.DeliverValid | xen/arch/x86/hvm/vlapic.c:159-170 | page and events follow SetValidIrq |
| Vlapic.VLapic.SetIrq | xen/arch/x86/hvm/vlapic.c:149-171 | page, ESR latch and events follow Lapic.SetIrq |
| Vlapic.VLapic.Error | xen/arch/x86/hvm/vlapic.c:105-135 | page, ESR latch and events follow RaiseError |
| Vlapic.VLapic.AckPendingIrq | xen/arch/x86/hvm/vlapic.c:1383-1416 | page and events follow Ack |
| Vlapic.VLapic.HandleEoi | xen/arch/x86/hvm/vlapic.c:463-472 | the I/O APIC is told exactly for a level-triggered vector; MSIs are always told |
| Vlapic.VLapic.EoiPassStep | xen/arch/x86/hvm/vlapic.c:419-461 | page and events follow EoiPass |
| Vlapic.VLapic.EoiSet | xen/arch/x86/hvm/vlapic.c:419-461 | page and events follow EoiFrom |
| Vlapic.VLapic.GetPpr | xen/arch/x86/hvm/vlapic.c:178-197 | returns Ppr of the page |
| Vlapic.VLapic.HasPendingIrq | xen/arch/x86/hvm/vlapic.c:1335-1381 | result, page and events follow HasPending, whose one catch-up EOI ends only the highest in-service vector |
| Vlapic.VLapic.AcceptIrq | xen/arch/x86/hvm/vlapic.c:340-386 | the interrupt-visible state follows Accept; the configuration is unchanged |
| Vlapic.VLapic.ReadAligned | xen/arch/x86/hvm/vlapic.c:599-621 | returns RegRead |
| Vlapic.VLapic.MmioRead | xen/arch/x86/hvm/vlapic.c:623-655 | a read within one register at or below TDCR returns the bytes read from RegRead; anything else reads 0 |
| Vlapic.VLapic.Rdmsr | xen/arch/x86/hvm/vlapic.c:657-697 | faults exactly when RdmsrOffset does; otherwise the register in the low half, and ICR2 in the high half for ICR |
| Vlapic.VLapic.TimerUpdate | xen/arch/x86/hvm/vlapic.c:719-790 | events and timestamp follow UpdateTimer |
| Vlapic.VLapic.TdtMsrGet | xen/arch/x86/hvm/vlapic.c:1203-1209 | returns TdtGet; 0 outside TSC-deadline mode |
| Vlapic.VLapic.TdtMsrSet | xen/arch/x86/hvm/vlapic.c:1211-1271 | deadline, timestamp and events follow TdtSet |
| Vlapic.VLapic.Rearm | xen/arch/x86/hvm/vlapic.c:1482-1516 | timer vector, deadline, timestamp and events follow Timer.Rearm |
| Vlapic.VLapic.WriteSpiv | xen/arch/x86/hvm/vlapic.c:825-850 | SpivWritten: the low ten bits are stored; the software-disable flag follows the enable bit; disabling masks every LVT entry; enabling delivers a pending event-channel upcall; nothing else changes |
| Vlapic.VLapic.MaskLvts | xen/arch/x86/hvm/vlapic.c:835-840 | the page becomes MaskAllLvts of the old page |
| Vlapic.VLapic.WriteLvt | xen/arch/x86/hvm/vlapic.c:874-892 | the entry holds LvtWrite of the value |
| Vlapic.VLapic.WriteLvtt | xen/arch/x86/hvm/vlapic.c:862-892 | LvttWritten: a mode switch into or out of TSC deadline zeroes TMICT and the deadline; the timer vector comes from the value; the timer is re-armed with the old divisor as UpdateTimer says; the entry is stored as an LVT |
| Vlapic.VLapic.WriteTmict | xen/arch/x86/hvm/vlapic.c:894-902 | TmictWritten: ignored outside the count-down modes; otherwise stored, and the timer restarts a full count as UpdateTimer says |
| Vlapic.VLapic.WriteTdcr | xen/arch/x86/hvm/vlapic.c:904-915 | TdcrWritten: stores the divide bits, decodes the divisor they select and re-arms the timer from the old tick to the new one |
| Vlapic.VLapic.EndLoad | xen/arch/x86/hvm/vlapic.c:796 | every register write ends the view of a restore in progress |
| Vlapic.VLapic.StorePlain | xen/arch/x86/hvm/vlapic.c:800-823 | stores Stored; an ESR write empties the latch |
| Vlapic.VLapic.RegWriteOwn | xen/arch/x86/hvm/vlapic.c:792-917 | a write to any register but ICR ends the restore view and leaves the state OwnWritten gives for that register: its own write rule's page, latch, disable flag, divisor, deadline, timer vector and events, everything else kept; a register with no rule changes nothing |
| Vlapic.VLapic.RegWritePlain | xen/arch/x86/hvm/vlapic.c:800-823 | ID, ESR, TPR, LDR, DFR and ICR2 store Stored; an ESR write empties the latch; the timer and disable flag are kept |
| Vlapic.VLapic.RegWriteEoi | xen/arch/x86/hvm/vlapic.c:813-815 | the page and events follow EoiFrom; nothing else changes |
| Vlapic.VLapic.RegWriteSpiv | xen/arch/x86/hvm/vlapic.c:825-850 | the state SpivWritten describes, with the timer kept |
| Vlapic.VLapic.RegWriteLvt | xen/arch/x86/hvm/vlapic.c:874-892 | a non-timer LVT entry holds LvtWrite of the value; nothing else changes |
| Vlapic.VLapic.RegWriteLvtt | xen/arch/x86/hvm/vlapic.c:862-892 | the state LvttWritten describes; the latch, disable flag and divisor are kept |
| Vlapic.VLapic.RegWriteTmict | xen/arch/x86/hvm/vlapic.c:894-902 | the state TmictWritten describes; the latch, disable flag and divisor are kept |
| Vlapic.VLapic.RegWriteTdcr | xen/arch/x86/hvm/vlapic.c:904-915 | the state TdcrWritten describes; the latch and disable flag are kept |
| Vlapic.VLapic.RegWriteIgnored | xen/arch/x86/hvm/vlapic.c:796-917 | a register with no write rule only ends the restore view |
| Vlapic.VLapic.SetX2apicId | xen/arch/x86/hvm/vlapic.c:1094-1109 | ID and LDR become X2apicIds |
| Vlapic.VLapic.ClearBitmaps | xen/arch/x86/hvm/vlapic.c:1434-1439 | the page becomes ZeroBitmaps of the old page |
| Vlapic.VLapic.MaskedLvtEntries | xen/arch/x86/hvm/vlapic.c:1455-1456 | the page becomes MaskedLvts of the old page |
| Vlapic.VLapic.InitScalars | xen/arch/x86/hvm/vlapic.c:1440-1453 | the page becomes InitScalarRegs of the old page |
| Vlapic.VLapic.LatchInitSipi | xen/arch/x86/hvm/vlapic.c:511-519 | an INIT or STARTUP message fills the single slot when it is free and is dropped when it is busy |
| Vlapic.VLapic.DoInit | xen/arch/x86/hvm/vlapic.c:1425-1463 | the page becomes InitPage; the divisor is decoded from TDCR 0; the APIC is software disabled; the timer is stopped; nothing happens without an emulated APIC |
| Vlapic.VLapic.Reset | xen/arch/x86/hvm/vlapic.c:1466-1479 | base MSR as ResetBase, ID twice the vCPU number, then INIT; without an emulated APIC nothing changes |
| Vlapic.VLapic.WrmsrApicBase | xen/arch/x86/hvm/vlapic.c:1111-1201 | succeeds exactly when BaseWrite accepts, and then stores the value and ends the restore view; enabling (only from xAPIC mode) resets the page to INIT with the ID set, software-disables and stops the timer; disabling hardware-disables and keeps the page; entering x2APIC mode sets the derived ID and LDR; a refused write changes nothing |
| Vlapic.VLapic.LoadFixup | xen/arch/x86/hvm/vlapic.c:1540-1576 | returns LoadFixup; only a recompute changes ID and LDR |
| Vlapic.VLapic.LoadHidden | xen/arch/x86/hvm/vlapic.c:1616-1635 | the base MSR, disable flags, divisor, deadline and error latch come from the record, and the fixup runs once both records are loaded; a recompute rewrites only ID and LDR |
| Vlapic.VLapic.LoadRegs | xen/arch/x86/hvm/vlapic.c:1652-1674 | the page comes from the record (corrected by a recompute fixup); loaded ID and LDR are remembered; the timer follows Timer.Rearm |
| Vlapic.VLapic.LoadPage | xen/arch/x86/hvm/vlapic.c:1652-1670 | the page comes from the record and the fixup runs once both records are loaded |
| DomainApic.RoundRobinPos | xen/arch/x86/hvm/vlapic.c:388-417 | the vCPU the cursor names comes last in the scan |
| DomainApic.RoundRobinAt | xen/arch/x86/hvm/vlapic.c:388-417 | each step of the scan visits exactly one vCPU |
| DomainApic.RoundRobinPosInjective | xen/arch/x86/hvm/vlapic.c:388-417 | no two vCPUs share a place in the scan |
| DomainApic.RouteOf | xen/arch/x86/hvm/vlapic.c:496-557 | INIT and STARTUP are latched; lowest priority is arbitrated; a fixed message with a reserved vector is refused; everything else goes to all destinations |
| DomainApic.MmioValueReadBack | xen/arch/x86/hvm/vlapic.c:919-966 | a one- or two-byte MMIO write merges into the current value and reads back as written; other lengths store the low 32 bits |
| DomainApic.ApicvWriteOf | xen/arch/x86/hvm/vlapic.c:968-985 | in x2APIC mode only a self-IPI is replayed, as a fixed ICR write to self; in xAPIC mode the register on the page is replayed |
| DomainApic.Domain.LowestUnique | xen/arch/x86/hvm/vlapic.c:388-417 | lowest-priority arbitration has at most one winner |
| DomainApic.Domain.NoneEligibleAll | xen/arch/x86/hvm/vlapic.c:388-417 | a whole scan covers every vCPU |
| DomainApic.Domain.ScanStep | xen/arch/x86/hvm/vlapic.c:398-411 | one step keeps the scan invariant: the best so far beats every eligible vCPU seen |
| DomainApic.Domain.Scan | xen/arch/x86/hvm/vlapic.c:395-411 | the scan returns -1 exactly when nobody is eligible, else the winner |
| DomainApic.Domain.ScanSoFarDone | xen/arch/x86/hvm/vlapic.c:388-417 | the invariant after the whole scan names the winner |
| DomainApic.Domain.LowestPrio | xen/arch/x86/hvm/vlapic.c:388-417 | returns the first eligible vCPU of strictly lowest PPR after the cursor, or -1 exactly when none is eligible; the cursor moves only to a winner |
| DomainApic.Domain.DeliverTo | xen/arch/x86/hvm/vlapic.c:540-553 | a destination vCPU accepts the message; any other vCPU is unchanged |
| DomainApic.Domain.ReceivedKeepsRegisters | xen/arch/x86/hvm/vlapic.c:540-553 | a vCPU that receives a broadcast message changes no register outside its vector bitmaps |
| DomainApic.Domain.Broadcast | xen/arch/x86/hvm/vlapic.c:540-553 | every vCPU ends as Received says, and the domain crashes exactly when some destination cannot accept the mode |
| DomainApic.Domain.IpiArbitrate | xen/arch/x86/hvm/vlapic.c:518-538 | arbitration moves the cursor; a reserved vector latches "send illegal vector" on the sender; otherwise only the winner accepts the message |
| DomainApic.Domain.Ipi | xen/arch/x86/hvm/vlapic.c:496-557 | each route as RouteOf says: latch on the sender, send-illegal error, arbitrated delivery, or delivery to every destination; on every route the sender's ICR2 keeps its value |
| DomainApic.Domain.RegWrite | xen/arch/x86/hvm/vlapic.c:792-917 | a write to any register but ICR leaves the writer as OwnWritten says and the other vCPUs unchanged; ICR stores the value with its busy bit clear and keeps ICR2 |
| DomainApic.Domain.IcrWrite | xen/arch/x86/hvm/vlapic.c:852-856 | ICR stores the value with its busy bit clear, after the interrupt is sent; ICR2 keeps the destination it was sent to |
| DomainApic.Domain.LocalWrite | xen/arch/x86/hvm/vlapic.c:792-917 | a write to any register but ICR leaves the writer as OwnWritten says and the other vCPUs unchanged |
| DomainApic.Domain.MmioWrite | xen/arch/x86/hvm/vlapic.c:919-966 | an out-of-range write changes nothing; otherwise the merged value is written to the aligned register, with the effect RegWrite states |
| DomainApic.Domain.ApicvWrite | xen/arch/x86/hvm/vlapic.c:968-985 | the write ApicvWriteOf names is replayed, or the exit is unhandled and nothing changes |
| DomainApic.Domain.Wrmsr | xen/arch/x86/hvm/vlapic.c:987-1071 | succeeds exactly when WrmsrCheck accepts; a refused write changes nothing; an accepted one is the register write named, and an accepted x2APIC ICR write leaves the upper half of the value in ICR2 |
| DomainApic.Domain.LoadHiddenAt | xen/arch/x86/hvm/vlapic.c:1616-1635 | restores one vCPU's hidden record (base MSR, disable flags, divisor, deadline, error latch), accepted by the corrected check CheckHiddenRecord, and flags the domain when the fixup finds an LDR derived from the vCPU number; nothing else changes |
| DomainApic.Domain.LoadRegsAt | xen/arch/x86/hvm/vlapic.c:1652-1674 | restores one vCPU's page with the same flagging; nothing else changes |
| BugFrame.FrameWord | xen/include/xen/bug.h:67-77 | a frame word is a 32-bit value |
| BugFrame.DispField | xen/include/xen/bug.h:25-31 | the displacement field is 24 bits |
| BugFrame.SignedDisp | xen/include/xen/bug.h:25-31 | the signed displacement lies in [-2^23, 2^23) |
| BugFrame.LineField | xen/include/xen/bug.h:25-31 | each line field is 7 bits |
| BugFrame.LineHalf | xen/include/xen/bug.h:37-41 | each decoded line half is 7 bits |
| BugFrame.BugLine | xen/include/xen/bug.h:37-41 | a decoded line is below 2^14 |
| BugFrame.Target | xen/include/xen/bug.h:33-35 | a decoded address is a 64-bit value |
| BugFrame.BugLoc | xen/include/xen/bug.h:33 | the instruction address is a 64-bit value |
| BugFrame.BugPtr | xen/include/xen/bug.h:35 | the pointer address is a 64-bit value |
| BugFrame.WordParts | xen/include/xen/bug.h:72-73 | a word holds the displacement modulo 2^24, and its line field is the line half less the borrow of a negative displacement |
| BugFrame.WordRoundTrip | xen/include/xen/bug.h:37-41 | decoding one word gives back its displacement and its line half |
| BugFrame.RoundTrip | xen/include/xen/bug.h:37-41 | for a line below 2^14 and 24-bit displacements, decoding gives back the line, the instruction address and the pointer |
| BugFrame.WideLineLost | xen/include/xen/bug.h:45-46 | line 0x4000 would decode as line 0, which is why the build rejects it |
| BugFrame.WideDispLost | xen/include/xen/bug.h:26-29 | a displacement of 2^23 would decode as -2^23 and corrupt the line |
| BugFrame.BuildableRange | xen/include/xen/bug.h:91-93 | a frame builds exactly for the four types below BUGFRAME_NR and lines below 2^14 |
| Lzo.Code | xen/common/lzo.c:315-331 | the result is 0 exactly for success, and negative otherwise |
| Lzo.Zeros | xen/common/lzo.c:142-145 | counts exactly the zero bytes from a position on |
| Lzo.Extend | xen/common/lzo.c:142-151 | an extended length is larger than its base, consumes input, and stays clear of size_t overflow |
| Lzo.ShiftSubIs255Times | xen/common/lzo.c:150 | the shift-and-subtract in size_t computes 255 times the count exactly for counts up to MAX_255_COUNT |
| Lzo.Parse | xen/common/lzo.c:134-254 | every instruction consumes input, and every match source lies before the output position |
| Lzo.CopyBack | xen/common/lzo.c:284-294 | a match copy appends t bytes, each of which is already in the output |
| Lzo.LiteralRun | xen/common/lzo.c:171-177 | a literal run only appends within capacity, and a stop is never success |
| Lzo.NextRun | xen/common/lzo.c:305-311 | the trailing literals only append within capacity |
| Lzo.MatchThenNext | xen/common/lzo.c:284-311 | a match and its trailing literals only append within capacity |
| Lzo.ExtendLen | xen/common/lzo.c:142-151 | the zero-byte loop computes Extend |
| Lzo.ReadInstr | xen/common/lzo.c:134-254 | the opcode decoding computes Parse |
| Lzo.CopyInput | xen/common/lzo.c:174-176 | copies n input bytes to the output and changes nothing after them |
| Lzo.CopyLiteral | xen/common/lzo.c:171-177 | output room is checked, then input; the result agrees with LiteralRun |
| Lzo.CopyNext | xen/common/lzo.c:305-311 | input is checked, then room; the result agrees with NextRun |
| Lzo.CopyMatch | xen/common/lzo.c:284-294 | the byte-by-byte match copy agrees with MatchCopy |
| Lzo.MatchAndNext | xen/common/lzo.c:284-311 | the match and its trailing literals agree with MatchThenNext |
| Lzo.LoopPass | xen/common/lzo.c:134-313 | one pass of the main loop either stops with Run's outcome or goes on from a later position with the same Run |
| Lzo.DecompressSafe | xen/common/lzo.c:109-332 | status, *out_len and the output bytes are those of Decode, and nothing after them is written |
| Lzo.RunBounds | xen/common/lzo.c:315-331 | the decoder only appends and never passes the capacity; *out_len is the length written, except after a run too long for size_t |
| Lzo.DecodeBounds | xen/common/lzo.c:118-124 | the whole decode stays within capacity, and an input shorter than 3 bytes is an input overrun with nothing written |
| Lzo.StepDrawn | xen/common/lzo.c:171-311 | literal runs, matches and trailing literals only write bytes found in the input |
| Lzo.RunDrawn | xen/common/lzo.c:134-313 | every byte the loop writes occurs in the input |
| Lzo.DecodeDrawn | xen/common/lzo.c:109-332 | every output byte occurs in the input |
| Lzo.EndMarker | xen/common/lzo.c:227-252 | the only instruction ending the stream with length 3 is the bytes 17, a byte below 4, 0 |
| Lzo.RunOk | xen/common/lzo.c:315-319 | success means the end marker is the last three input bytes |
| Lzo.DecodeOk | xen/common/lzo.c:315-319 | success means the input ends with the end marker, and *out_len is the length written |
| Lzo.RunMoreRoom | xen/common/lzo.c:94-96 | a successful run gives the same result with a larger capacity |
| Lzo.DecodeMoreRoom | xen/common/lzo.c:94-96 | a successful decode gives the same result with a larger output buffer |
| Lzo.LiteralRoundTrip | xen/common/lzo.c:125-132 | a stream of one literal run and the end marker decodes to its bytes when they fit, and is an output overrun with nothing written otherwise |
| Lzo.OverlapParse | xen/common/lzo.c:198-252 | the overlap stream parses as a three-byte match one byte back with no trailing literals, followed by the end marker |
| Lzo.OverlapCopy | xen/common/lzo.c:284-294 | a match one byte back repeats the last byte |
| Lzo.OverlappingMatch | xen/common/lzo.c:198-203 | a literal run then a match one byte back decodes to the run followed by three copies of its last byte |

## Left out

- DomainApic.Domain.RegWrite: for an ICR write, the contract states only the stored ICR value and the kept ICR2. The interrupt it sends is stated by DomainApic.Domain.Ipi.
- DomainApic.Domain.IcrWrite: states only the stored ICR value and the kept ICR2, as above.
- `hvm_sync_pir_to_irr` (vlapic.c:98-102) copies posted vectors into IRR before every IRR search (`vlapic_find_highest_irr`, reached from `vlapic_has_pending_irq` at vlapic.c:1352). The model neither performs the sync nor takes it as an input. `Lapic.HasPending` and `Vlapic.VLapic.HasPendingIrq` start from the page after the sync, so a vector that `SetIrq` only posted (recorded as a `PostedIntr` event) is not reported until a sync has put it in IRR.
- `viridian_synic_poll` (vlapic.c:1349-1350) may assert a synthetic interrupt before IRR is searched. The model takes the page after the poll as the page `Lapic.HasPending` starts from.
- Vlapic.VLapic.constructor: without an emulated APIC the divisor starts at 1, where the zeroed structure holds 0. The contract does not state the divisor in that case.
- DomainApic.Domain.Ipi: for the INIT/STARTUP route, the contract states the sender's slot, events and page, but not that its other fields are unchanged.
- Multicast wake-up batching (`cpu_raise_softirq_batch_*`, vlapic.c:496-557) is a performance wrapper; only the test `is_multicast_dest` is modelled, as `Destination.IsMulticast`.
- The INIT/STARTUP worker (`vlapic_init_sipi_action`, `vlapic_init_sipi_one`) runs as a tasklet while vCPUs are paused. Only the single-slot latch is modelled.
- Pausing, kicking, waking and locking are not modelled. Atomic bit operations and `xchg` are sequential updates. Kicks and wakes are recorded as events.
- Calls into other components are parameters (`Lapic.Platform`, `Lapic.Env`) or recorded events:
  - the posted-interrupt delivery and EOI-exit hooks and `process_isr` (the IRR sync is listed separately above);
  - the Hyper-V (viridian) hooks;
  - `vioapic_update_EOI` and `hvm_dpci_msi_eoi`;
  - `vpmu_lvtpc_update`, `pt_may_unmask_irq` and `vlapic_adjust_i8259_target`;
  - `hvm_update_vlapic_mode`.
- `__vlapic_accept_pic_intr` and `vlapic_accept_pic_intr` (i8259 routing through the I/O APIC) are not part of this model.
- Guest time, the guest TSC and the time until a TSC deadline are parameters. The periodic-time service is a `TimerArm`/`TimerStop` event.
- `vlapic_destroy`, and the page allocation and MMIO registration of `vlapic_init`, are not modelled; the rest of `vlapic_init` is `Vlapic.VLapic.constructor`.
- The save side of the save/restore framework is not modelled. `lapic_check_common` and `lapic_check_regs` are modelled only through `RegFile.CheckHidden`, which folds in the common vCPU checks.
- Logging and tracing are left out.
- The model is of the 64-bit build. `size_t` and `unsigned long` are 64 bits wide: `Lzo.SIZE_MAX`, and with it `Lzo.MAX_255_COUNT`, are for a 64-bit `size_t`, and `BugFrame.Target` wraps modulo 2^64. On a 32-bit build (32-bit Arm) `MAX_255_COUNT` would be 0xFFFFFFFF/255 - 2 and `bug_loc` would wrap at 2^32.
- The LZO paths under `CONFIG_HAVE_EFFICIENT_UNALIGNED_ACCESS` (lzo.c:155-169, 256-282, 298-304) copy in 8- and 16-byte blocks and may write past the bytes they produce. Only the byte-by-byte path is modelled.
- In LZO, the output capacity (`*out_len` on entry) is the length of the output array.
- After a run length too long for `size_t` (lzo.c:147-148, 215-216, 240-241), `lzo1x_decompress_safe` returns without storing `*out_len`, so the model leaves it at the capacity. The code is followed here: the other exits store the length written.
- On INIT the divide configuration register is written as 0, which selects a divisor of 2, not 1. The model follows the code (vlapic.c:1451).

## Findings

| source | as written | input that shows it | evidently intended | confidence | as-written member | corrected member |
|---|---|---|---|---|---|---|
| xen/arch/x86/hvm/vlapic.c:1595-1614 | `lapic_check_hidden` validates the base MSR but not `timer_divisor`, which `lapic_load_hidden` copies into the LAPIC | a hidden record with `timer_divisor` 0 is accepted; `vlapic_get_tmcct` (vlapic.c:559-583) then divides by `APIC_BUS_CYCLE_NS * 0` | `lapic_check_hidden` refuses a divisor the divide configuration register cannot select (1, 2, 4, ..., 128) | not executed | Vlapic.ZeroDivisorRecordAccepted | Vlapic.CheckHiddenRecord |
