// Register offsets and field masks of the local APIC, as the x86
// architecture defines them and the virtual LAPIC uses them.

module ApicRegs {

  // ---------------------------------------------------------------------
  // Register page layout (byte offsets into the 4 KiB page)
  // ---------------------------------------------------------------------

  const PAGE_SIZE: int := 4096
  /** The page as 32-bit words: register at byte offset o is word o / 4. */
  const PAGE_WORDS: int := 1024

  const APIC_ID: int := 0x20
  const APIC_LVR: int := 0x30
  const APIC_TASKPRI: int := 0x80
  const APIC_PROCPRI: int := 0xA0
  const APIC_EOI: int := 0xB0
  const APIC_LDR: int := 0xD0
  const APIC_DFR: int := 0xE0
  const APIC_SPIV: int := 0xF0
  const APIC_ISR: int := 0x100
  const APIC_TMR: int := 0x180
  const APIC_IRR: int := 0x200
  const APIC_ESR: int := 0x280
  const APIC_CMCI: int := 0x2F0
  const APIC_ICR: int := 0x300
  const APIC_ICR2: int := 0x310
  const APIC_LVTT: int := 0x320
  const APIC_LVTTHMR: int := 0x330
  const APIC_LVTPC: int := 0x340
  const APIC_LVT0: int := 0x350
  const APIC_LVT1: int := 0x360
  const APIC_LVTERR: int := 0x370
  const APIC_TMICT: int := 0x380
  const APIC_TMCCT: int := 0x390
  const APIC_TDCR: int := 0x3E0
  const APIC_SELF_IPI: int := 0x3F0

  /** Number of local vector table entries, LVTT through LVTERR. */
  const VLAPIC_LVT_NUM: int := 6
  const X86_IDT_VECTORS: int := 256
  /** Version register contents: version 0x14, six LVT entries, no directed EOI. */
  const VLAPIC_VERSION: bv32 := 0x0005_0014

  // ---------------------------------------------------------------------
  // Register fields
  // ---------------------------------------------------------------------

  const APIC_VECTOR_MASK: bv32 := 0xFF
  const APIC_LVT_MASKED: bv32 := 0x1_0000
  const APIC_SEND_PENDING: bv32 := 0x1000
  const APIC_INPUT_POLARITY: bv32 := 0x2000
  const APIC_LVT_REMOTE_IRR: bv32 := 0x4000
  const APIC_LVT_LEVEL_TRIGGER: bv32 := 0x8000
  const APIC_DM_MASK: bv32 := 0x700
  const APIC_TIMER_MODE_MASK: bv32 := 0x6_0000
  const APIC_TIMER_MODE_ONESHOT: bv32 := 0
  const APIC_TIMER_MODE_PERIODIC: bv32 := 0x2_0000
  const APIC_TIMER_MODE_TSC_DEADLINE: bv32 := 0x4_0000

  const LVT_MASK: bv32 := APIC_LVT_MASKED | APIC_SEND_PENDING | APIC_VECTOR_MASK
  const LINT_MASK: bv32 := LVT_MASK | APIC_DM_MASK | APIC_INPUT_POLARITY
                           | APIC_LVT_REMOTE_IRR | APIC_LVT_LEVEL_TRIGGER

  /** Writable bits of each LVT entry, indexed by (offset - LVTT) / 16. */
  function LvtMask(i: int): (m: bv32)
    requires 0 <= i < VLAPIC_LVT_NUM
    ensures m & LVT_MASK == LVT_MASK
  {
    if i == 0 then LVT_MASK | APIC_TIMER_MODE_MASK
    else if i <= 2 then LVT_MASK | APIC_DM_MASK
    else if i <= 4 then LINT_MASK
    else LVT_MASK
  }

  const APIC_SPIV_APIC_ENABLED: bv32 := 0x100
  const APIC_SPIV_FOCUS_DISABLED: bv32 := 0x200
  const APIC_SPIV_DIRECTED_EOI: bv32 := 0x1000
  const APIC_LVR_DIRECTED_EOI: bv32 := 0x100_0000
  /** Writable SPIV bits: vector, enable, focus, and directed EOI only if advertised. */
  const SPIV_WRITE_MASK: bv32 :=
    APIC_VECTOR_MASK | APIC_SPIV_APIC_ENABLED | APIC_SPIV_FOCUS_DISABLED
    | (if VLAPIC_VERSION & APIC_LVR_DIRECTED_EOI != 0 then APIC_SPIV_DIRECTED_EOI else 0)

  const APIC_TPRI_MASK: bv32 := 0xFF
  const APIC_LDR_MASK: bv32 := 0xFF00_0000
  const APIC_ICR2_MASK: bv32 := 0xFF00_0000
  const APIC_DFR_FLAT: bv32 := 0xFFFF_FFFF
  const APIC_DFR_CLUSTER: bv32 := 0x0FFF_FFFF
  const APIC_TDR_DIV_MASK: bv32 := 0xB

  const APIC_DEST_NOSHORT: bv32 := 0
  const APIC_DEST_SELF: bv32 := 0x4_0000
  const APIC_DEST_ALLINC: bv32 := 0x8_0000
  const APIC_DEST_ALLBUT: bv32 := 0xC_0000
  const APIC_SHORT_MASK: bv32 := 0xC_0000
  const APIC_DEST_MASK: bv32 := 0x800
  const APIC_INT_ASSERT: bv32 := 0x4000
  const APIC_INT_LEVELTRIG: bv32 := 0x8000
  /** Delivery status bit of the ICR, never stored by the virtual LAPIC. */
  const APIC_ICR_BUSY: bv32 := 0x1000

  const APIC_DM_FIXED: bv32 := 0
  const APIC_DM_LOWEST: bv32 := 0x100
  const APIC_DM_SMI: bv32 := 0x200
  const APIC_DM_REMRD: bv32 := 0x300
  const APIC_DM_NMI: bv32 := 0x400
  const APIC_DM_INIT: bv32 := 0x500
  const APIC_DM_STARTUP: bv32 := 0x600
  const APIC_DM_EXTINT: bv32 := 0x700

  /** Error status bits, as bit numbers (send illegal vector, receive illegal vector). */
  const ESR_SENDILL_BIT: bv5 := 5
  const ESR_RECVILL_BIT: bv5 := 6

  /** The low byte of a register as a vector number. */
  function VectorOf(w: bv32): (v: int)
    ensures 0 <= v < 256
  {
    (w & 0xFF) as int
  }

  /** A vector that may be delivered: 0 to 15 are reserved. */
  predicate VectorValid(w: bv32)
  {
    VectorOf(w) >= 16
  }
}
