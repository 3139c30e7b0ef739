// Register-file semantics of the virtual local APIC that do not depend on
// the rest of the vCPU: the value transformations of register writes, the
// register read path, sub-word MMIO accesses, the x2APIC MSR checks, the
// APIC base MSR state machine, INIT, the x2APIC logical ID derivation and
// the restore-time fixups.

module RegFile {
  import opened Bits32
  import opened ApicRegs
  import opened VecBitmap
  import opened Destination

  // ---------------------------------------------------------------------
  // x2APIC logical IDs
  // ---------------------------------------------------------------------

  /** Low nibble of an APIC ID as a bit number. */
  function IdBit(id: bv32): bv5
  {
    (id & 0xF) as bv5
  }

  /**
   * The x2APIC logical ID derived from an APIC ID: the cluster (ID bits 31
   * to 4) in the upper 16 bits, and one bit for the ID's position in its
   * cluster in the lower 16.
   */
  function X2apicLdr(id: bv32): bv32
  {
    ((id & !0xF) << 12) | Bit(IdBit(id))
  }

  lemma IdBitLow(id: bv32)
    ensures IdBit(id) < 16
  {
  }

  lemma ClusterOfLdr(id: bv32)
    requires id < 0x10_0000
    ensures Cluster(X2apicLdr(id)) == id >> 4
  {
    IdBitLow(id);
  }

  lemma Low16OfLdr(id: bv32)
    ensures Low16(X2apicLdr(id)) == Bit(IdBit(id))
  {
    IdBitLow(id);
  }

  lemma SameIdParts(a: bv32, b: bv32)
    requires a >> 4 == b >> 4 && IdBit(a) == IdBit(b)
    ensures a == b
  {
  }

  /**
   * For APIC IDs below 2^20 the derived logical ID holds the cluster and
   * the position exactly, so two such IDs share a logical ID only if they
   * are equal, and a logical destination equal to one APIC's derived
   * logical ID reaches that APIC and no other.
   */
  lemma X2apicLdrUnique(a: bv32, b: bv32)
    requires a < 0x10_0000 && b < 0x10_0000
    ensures Cluster(X2apicLdr(a)) == a >> 4 && Low16(X2apicLdr(a)) == Bit(IdBit(a))
    ensures X2apicLdr(a) == X2apicLdr(b) <==> a == b
    ensures MatchX2apicLogical(X2apicLdr(b), X2apicLdr(a)) <==> a == b
  {
    hide Bit, Test, Cluster, Low16, X2apicLdr, IdBit;
    ClusterOfLdr(a);
    ClusterOfLdr(b);
    Low16OfLdr(a);
    Low16OfLdr(b);
    Low16AndBits(X2apicLdr(b), X2apicLdr(a));
    BitsMeet(IdBit(b), IdBit(a));
    if a >> 4 == b >> 4 && IdBit(a) == IdBit(b) {
      SameIdParts(a, b);
    }
  }

  lemma Low16AndBits(x: bv32, y: bv32)
    ensures Low16(x & y) == Low16(x) & Low16(y)
  {
  }

  /** APIC ID and logical ID given to a vCPU in x2APIC mode. */
  datatype IdRegs = IdRegs(id: bv32, ldr: bv32)

  /**
   * In x2APIC mode a vCPU's APIC ID is twice its vCPU number; its logical ID
   * is derived from that, or from the vCPU number itself for a domain
   * migrated from a hypervisor that derived it so.
   */
  function X2apicIds(vcpu: bv32, bugLdrFromVcpu: bool): (r: IdRegs)
    ensures r.id == vcpu * 2
    ensures r.ldr == X2apicLdr(if bugLdrFromVcpu then vcpu else vcpu * 2)
  {
    IdRegs(vcpu * 2, X2apicLdr(if bugLdrFromVcpu then vcpu else vcpu * 2))
  }

  // ---------------------------------------------------------------------
  // Values stored by register writes
  // ---------------------------------------------------------------------

  /** LVT register number i (0 for LVTT up to 5 for LVTERR) as a byte offset. */
  function LvtOffset(i: int): (off: int)
    requires 0 <= i < VLAPIC_LVT_NUM
    ensures APIC_LVTT <= off <= APIC_LVTERR && off % 16 == 0
  {
    APIC_LVTT + 0x10 * i
  }

  /**
   * The value an LVT write stores: masked when the APIC is software
   * disabled, and cut down to the entry's writable bits.
   */
  function LvtWrite(val: bv32, swDisabled: bool, i: int): bv32
    requires 0 <= i < VLAPIC_LVT_NUM
  {
    Keep(if swDisabled then Force(val, APIC_LVT_MASKED) else val, LvtMask(i))
  }

  /** The bits of v that m keeps. */
  function Keep(v: bv32, m: bv32): bv32
  {
    v & m
  }

  /** v with the bits of b forced on. */
  function Force(v: bv32, b: bv32): bv32
  {
    v | b
  }

  /**
   * A stored LVT value has no bits outside its entry's mask, is masked
   * whenever the APIC is software disabled, otherwise keeps exactly the
   * written mask bit, and is stored unchanged when written back.
   */
  lemma LvtWriteSpec(val: bv32, swDisabled: bool, i: int)
    requires 0 <= i < VLAPIC_LVT_NUM
    ensures var r := LvtWrite(val, swDisabled, i);
      && r & !LvtMask(i) == 0
      && (swDisabled ==> r & APIC_LVT_MASKED != 0)
      && (!swDisabled ==> (r & APIC_LVT_MASKED != 0 <==> val & APIC_LVT_MASKED != 0))
      && LvtWrite(r, swDisabled, i) == r
      && (!swDisabled && val & !LvtMask(i) == 0 ==> r == val)
  {
    hide LvtWrite, Keep, Force, LvtMask;
    LvtWriteWithin(val, swDisabled, i);
    LvtWriteMaskBit(val, swDisabled, i);
    LvtWriteIdem(val, swDisabled, i);
  }

  lemma LvtWriteWithin(val: bv32, swDisabled: bool, i: int)
    requires 0 <= i < VLAPIC_LVT_NUM
    ensures LvtWrite(val, swDisabled, i) & !LvtMask(i) == 0
  {
    var v := if swDisabled then Force(val, APIC_LVT_MASKED) else val;
    assert LvtWrite(val, swDisabled, i) == Keep(v, LvtMask(i));
    hide LvtWrite, Keep, Force, LvtMask;
    KeepOnly(v, LvtMask(i));
  }

  lemma LvtWriteMaskBit(val: bv32, swDisabled: bool, i: int)
    requires 0 <= i < VLAPIC_LVT_NUM
    ensures var r := LvtWrite(val, swDisabled, i);
      && (swDisabled ==> r & APIC_LVT_MASKED != 0)
      && (!swDisabled ==> (r & APIC_LVT_MASKED != 0 <==> val & APIC_LVT_MASKED != 0))
  {
    var m := LvtMask(i);
    var b := APIC_LVT_MASKED;
    assert m & b == b;
    var v := if swDisabled then Force(val, b) else val;
    assert LvtWrite(val, swDisabled, i) == Keep(v, m);
    hide LvtWrite, Keep, Force, LvtMask;
    KeepBit(v, m, b);
    if swDisabled {
      ForceBit(val, b);
    }
  }

  lemma LvtWriteIdem(val: bv32, swDisabled: bool, i: int)
    requires 0 <= i < VLAPIC_LVT_NUM
    ensures var r := LvtWrite(val, swDisabled, i);
      && LvtWrite(r, swDisabled, i) == r
      && (!swDisabled && val & !LvtMask(i) == 0 ==> r == val)
  {
    var m := LvtMask(i);
    var b := APIC_LVT_MASKED;
    assert m & b == b;
    var v := if swDisabled then Force(val, b) else val;
    var r := Keep(v, m);
    assert LvtWrite(val, swDisabled, i) == r;
    assert LvtWrite(r, swDisabled, i) == Keep(if swDisabled then Force(r, b) else r, m);
    hide LvtWrite, Keep, Force, LvtMask;
    AndTwice(v, m);
    if swDisabled {
      OrAbsorb(val, m, b);
    } else if val & !m == 0 {
      WithinMask(val, m);
    }
  }

  lemma KeepOnly(v: bv32, m: bv32)
    ensures Keep(v, m) & !m == 0
  {
  }

  lemma AndTwice(v: bv32, m: bv32)
    ensures Keep(Keep(v, m), m) == Keep(v, m)
  {
  }

  /** A bit of the mask survives keeping the mask's bits. */
  lemma KeepBit(v: bv32, m: bv32, b: bv32)
    requires m & b == b
    ensures Keep(v, m) & b == v & b
  {
  }

  lemma ForceBit(v: bv32, b: bv32)
    ensures Force(v, b) & b == b
  {
  }

  /** Forcing b again into a value that already has it changes nothing. */
  lemma OrAbsorb(v: bv32, m: bv32, b: bv32)
    requires m & b == b
    ensures Force(Keep(Force(v, b), m), b) == Keep(Force(v, b), m)
  {
  }

  lemma WithinMask(v: bv32, m: bv32)
    requires v & !m == 0
    ensures Keep(v, m) == v
  {
  }

  /** Page words of the six LVT registers. */
  predicate IsLvtWord(j: int)
  {
    APIC_LVTT / 4 <= j <= APIC_LVTERR / 4 && j % 4 == 0
  }

  /** The page after software disabling: every LVT entry gains its mask bit, nothing else changes. */
  function MaskAllLvts(p: RegPage): RegPage
  {
    seq(PAGE_WORDS, j requires 0 <= j < PAGE_WORDS => if IsLvtWord(j) then p[j] | APIC_LVT_MASKED else p[j])
  }

  /** Software disabling masks every LVT entry, keeps their other bits, and is idempotent. */
  lemma MaskAllLvtsSpec(p: RegPage)
    ensures forall i :: 0 <= i < VLAPIC_LVT_NUM ==>
      Reg(MaskAllLvts(p), LvtOffset(i)) == Reg(p, LvtOffset(i)) | APIC_LVT_MASKED
    ensures forall j :: 0 <= j < PAGE_WORDS && !IsLvtWord(j) ==> MaskAllLvts(p)[j] == p[j]
    ensures MaskAllLvts(MaskAllLvts(p)) == MaskAllLvts(p)
  {
    forall j | 0 <= j < PAGE_WORDS && IsLvtWord(j)
      ensures (p[j] | APIC_LVT_MASKED) | APIC_LVT_MASKED == p[j] | APIC_LVT_MASKED
    {
      OrTwice(p[j], APIC_LVT_MASKED);
    }
  }

  lemma OrTwice(w: bv32, m: bv32)
    ensures (w | m) | m == w | m
  {
  }

  /** The ICR write stores the command without its delivery-status bit. */
  function IcrStore(val: bv32): (r: bv32)
    ensures r & APIC_ICR_BUSY == 0
    ensures r | (val & APIC_ICR_BUSY) == val
  {
    val & !APIC_ICR_BUSY
  }

  // ---------------------------------------------------------------------
  // Sub-word MMIO accesses
  // ---------------------------------------------------------------------

  /** The byte or half-word at byte position al of a register, as a read of len bytes returns it. */
  function SubRead(reg: bv32, al: int, len: int): (r: bv32)
    requires 0 <= al < 4 && 1 <= len && al + len <= 4
    ensures len == 1 ==> r < 0x100
    ensures len == 2 ==> r < 0x1_0000
    ensures len == 3 ==> r == 0
    ensures len == 4 ==> r == reg
  {
    var shifted := ShiftDown(reg, al);
    if len == 1 then shifted & 0xFF
    else if len == 2 then shifted & 0xFFFF
    else if len == 4 then reg
    else 0
  }

  /** reg shifted down by al bytes, for the four byte positions. */
  function ShiftDown(reg: bv32, al: int): bv32
    requires 0 <= al < 4
  {
    if al == 0 then reg else if al == 1 then reg >> 8 else if al == 2 then reg >> 16 else reg >> 24
  }

  /** val shifted up by al bytes. */
  function ShiftUp(val: bv32, al: int): bv32
    requires 0 <= al < 4
  {
    if al == 0 then val else if al == 1 then val << 8 else if al == 2 then val << 16 else val << 24
  }

  /**
   * A write of len bytes at byte position al merged into the register's
   * current value: one or two bytes replace that part of it; a three-byte
   * write passes its value through unmerged.
   */
  function SubMerge(reg: bv32, val: bv32, al: int, len: int): bv32
    requires 0 <= al < 4 && 1 <= len && al + len <= 4
  {
    if len == 1 then (reg & !ShiftUp(0xFF, al)) | ShiftUp(val & 0xFF, al)
    else if len == 2 then (reg & !ShiftUp(0xFFFF, al)) | ShiftUp(val & 0xFFFF, al)
    else val
  }

  /**
   * A one-byte merged write reads back as the byte written and keeps every
   * other byte of the register; likewise for a two-byte write and the two
   * bytes it covers.
   */
  lemma ByteWriteReadBack(reg: bv32, val: bv32, al: int, b: int)
    requires 0 <= al < 4 && 0 <= b < 4
    ensures SubRead(SubMerge(reg, val, al, 1), b, 1) == if b == al then val & 0xFF else SubRead(reg, b, 1)
  {
    hide SubRead, SubMerge;
    if al == 0 { ByteWriteAt0(reg, val, b); }
    else if al == 1 { ByteWriteAt1(reg, val, b); }
    else if al == 2 { ByteWriteAt2(reg, val, b); }
    else { ByteWriteAt3(reg, val, b); }
  }

  /** ByteWriteReadBack for the write at each of the four byte positions. */
  lemma ByteWriteAt0(reg: bv32, val: bv32, b: int)
    requires 0 <= b < 4
    ensures SubRead(SubMerge(reg, val, 0, 1), b, 1) == if b == 0 then val & 0xFF else SubRead(reg, b, 1)
  {
    if b == 0 { } else if b == 1 { } else if b == 2 { } else { }
  }

  lemma ByteWriteAt1(reg: bv32, val: bv32, b: int)
    requires 0 <= b < 4
    ensures SubRead(SubMerge(reg, val, 1, 1), b, 1) == if b == 1 then val & 0xFF else SubRead(reg, b, 1)
  {
    if b == 0 { } else if b == 1 { } else if b == 2 { } else { }
  }

  lemma ByteWriteAt2(reg: bv32, val: bv32, b: int)
    requires 0 <= b < 4
    ensures SubRead(SubMerge(reg, val, 2, 1), b, 1) == if b == 2 then val & 0xFF else SubRead(reg, b, 1)
  {
    if b == 0 { } else if b == 1 { } else if b == 2 { } else { }
  }

  lemma ByteWriteAt3(reg: bv32, val: bv32, b: int)
    requires 0 <= b < 4
    ensures SubRead(SubMerge(reg, val, 3, 1), b, 1) == if b == 3 then val & 0xFF else SubRead(reg, b, 1)
  {
    if b == 0 { } else if b == 1 { } else if b == 2 { } else { }
  }

  lemma HalfWriteReadBack(reg: bv32, val: bv32, al: int, b: int)
    requires 0 <= al <= 2 && 0 <= b < 4
    ensures SubRead(SubMerge(reg, val, al, 2), al, 2) == val & 0xFFFF
    ensures b != al && b != al + 1 ==> SubRead(SubMerge(reg, val, al, 2), b, 1) == SubRead(reg, b, 1)
  {
    if al == 0 {
      if b == 0 { } else if b == 1 { } else if b == 2 { } else { }
    } else if al == 1 {
      if b == 0 { } else if b == 1 { } else if b == 2 { } else { }
    } else {
      if b == 0 { } else if b == 1 { } else if b == 2 { } else { }
    }
  }

  /** An MMIO read is served only if it lies within one 32-bit register at or below TDCR. */
  predicate MmioReadInRange(offset: int, len: int)
  {
    offset % 16 + len <= 4 && offset <= APIC_TDCR + 3
  }

  /** An MMIO write is served only if it lies within one 32-bit register at or below TDCR. */
  predicate MmioWriteInRange(offset: int, len: int)
  {
    offset % 16 + len <= 4 && offset - offset % 16 <= APIC_TDCR
  }

  // ---------------------------------------------------------------------
  // x2APIC MSR access
  // ---------------------------------------------------------------------

  const MSR_X2APIC_FIRST: int := 0x800

  /** Register number (offset / 16) of an x2APIC MSR, as the 32-bit subtraction computes it. */
  function X2apicReg(msr: int): (r: int)
    requires 0 <= msr < 0x1_0000_0000
    ensures 0 <= r < 0x1_0000_0000
  {
    if msr >= MSR_X2APIC_FIRST then msr - MSR_X2APIC_FIRST else msr - MSR_X2APIC_FIRST + 0x1_0000_0000
  }

  /**
   * The x2APIC registers that may be read through MSRs: ID, version, TPR,
   * PPR, LDR, SPIV, ESR, ICR, CMCI, the LVT entries, the timer registers and
   * the three vector bitmaps.
   */
  predicate X2apicReadable(reg: int)
  {
    reg in {APIC_ID / 16, APIC_LVR / 16, APIC_TASKPRI / 16, APIC_PROCPRI / 16,
            APIC_LDR / 16, APIC_SPIV / 16, APIC_ESR / 16, APIC_ICR / 16,
            APIC_CMCI / 16, APIC_LVTT / 16, APIC_LVTTHMR / 16, APIC_LVTPC / 16,
            APIC_LVT0 / 16, APIC_LVT1 / 16, APIC_LVTERR / 16, APIC_TMICT / 16,
            APIC_TMCCT / 16, APIC_TDCR / 16}
    || APIC_ISR / 16 <= reg < APIC_ISR / 16 + 8
    || APIC_TMR / 16 <= reg < APIC_TMR / 16 + 8
    || APIC_IRR / 16 <= reg < APIC_IRR / 16 + 8
  }

  /** The result of an emulated access: a value, or a fault the guest sees. */
  datatype Access<T> = Done(value: T) | Fault | Unhandleable

  /**
   * The register offset an x2APIC MSR read is served from, or a fault:
   * outside x2APIC mode, beyond the 64 registers, or for a register that is
   * not readable.
   */
  function RdmsrOffset(x2apic: bool, msr: int): (r: Access<int>)
    requires 0 <= msr < 0x1_0000_0000
    ensures r.Done? ==> 0 <= r.value < APIC_SELF_IPI + 16 && r.value % 16 == 0
  {
    var reg := X2apicReg(msr);
    if !x2apic || reg >= 64 then Fault
    else if !X2apicReadable(reg) then Fault
    else Done(reg * 16)
  }

  /**
   * The readable set: every readable register is one the register page
   * holds below the self-IPI register, and the write-only EOI and self-IPI
   * registers, the ICR's upper half (read as part of ICR) and the DFR (which
   * does not exist in x2APIC mode) fault.
   */
  lemma RdmsrReadable(x2apic: bool, msr: int)
    requires 0 <= msr < 0x1_0000_0000
    ensures var r := RdmsrOffset(x2apic, msr);
      (r.Done? <==> x2apic && msr >= MSR_X2APIC_FIRST && X2apicReadable(msr - MSR_X2APIC_FIRST)) &&
      (r.Done? ==> r.value == (msr - MSR_X2APIC_FIRST) * 16)
    ensures !X2apicReadable(APIC_EOI / 16) && !X2apicReadable(APIC_SELF_IPI / 16)
    ensures !X2apicReadable(APIC_ICR2 / 16) && !X2apicReadable(APIC_DFR / 16)
  {
  }

  /** An accepted x2APIC MSR write: the register write to perform, and an ICR2 value to store first. */
  datatype MsrWrite = MsrWrite(offset: int, val: bv32, icr2: Option<bv32>)

  datatype Option<T> = None | Some(value: T)

  function Lo32(val: bv64): bv32
  {
    (val & 0xFFFF_FFFF) as bv32
  }

  function Hi32(val: bv64): bv32
  {
    (val >> 32) as bv32
  }

  /** The bits an x2APIC ICR write may set. */
  const ICR_WRITE_MASK: bv32 := APIC_VECTOR_MASK | APIC_DM_MASK | APIC_DEST_MASK | APIC_INT_ASSERT
                                | APIC_INT_LEVELTRIG | APIC_SHORT_MASK

  /** No bit of the 64-bit value lies outside a 32-bit mask. */
  predicate Within(val: bv64, mask: bv32)
  {
    val & !(mask as bv64) == 0
  }

  /**
   * Validation of an x2APIC MSR write: it faults outside x2APIC mode, for a
   * register that cannot be written, and for a value with a bit the register
   * does not implement; EOI and ESR accept only 0. A self-IPI becomes an ICR
   * write of a fixed vector to self, and an ICR write also stores the upper
   * half of the value in ICR2.
   */
  function WrmsrCheck(x2apic: bool, msr: int, val: bv64): Access<MsrWrite>
    requires 0 <= msr < 0x1_0000_0000
  {
    var offset := X2apicReg(msr) * 16 % 0x1_0000_0000;
    var lo := Lo32(val);
    if !x2apic then Fault
    else if offset == APIC_TASKPRI then
      if Within(val, APIC_TPRI_MASK) then Done(MsrWrite(offset, lo, None)) else Fault
    else if offset == APIC_SPIV then
      if Within(val, SPIV_WRITE_MASK) then Done(MsrWrite(offset, lo, None)) else Fault
    else if offset == APIC_LVTT then
      if Within(val, LVT_MASK | APIC_TIMER_MODE_MASK) then Done(MsrWrite(offset, lo, None)) else Fault
    else if offset == APIC_LVTTHMR || offset == APIC_LVTPC || offset == APIC_CMCI then
      if Within(val, LVT_MASK | APIC_DM_MASK) then Done(MsrWrite(offset, lo, None)) else Fault
    else if offset == APIC_LVT0 || offset == APIC_LVT1 then
      if Within(val, LINT_MASK) then Done(MsrWrite(offset, lo, None)) else Fault
    else if offset == APIC_LVTERR then
      if Within(val, LVT_MASK) then Done(MsrWrite(offset, lo, None)) else Fault
    else if offset == APIC_TMICT then Done(MsrWrite(offset, lo, None))
    else if offset == APIC_TDCR then
      if Within(val, APIC_TDR_DIV_MASK) then Done(MsrWrite(offset, lo, None)) else Fault
    else if offset == APIC_ICR then
      if lo & !ICR_WRITE_MASK == 0 then Done(MsrWrite(offset, lo, Some(Hi32(val)))) else Fault
    else if offset == APIC_SELF_IPI then
      if Within(val, APIC_VECTOR_MASK) then Done(MsrWrite(APIC_ICR, APIC_DEST_SELF | (lo & APIC_VECTOR_MASK), None))
      else Fault
    else if offset == APIC_EOI || offset == APIC_ESR then
      if val == 0 then Done(MsrWrite(offset, lo, None)) else Fault
    else Fault
  }

  /** Only an accepted ICR write carries an ICR2 value, and it is the upper half of the value written. */
  lemma WrmsrIcr2(x2apic: bool, msr: int, val: bv64)
    requires 0 <= msr < 0x1_0000_0000
    ensures var w := WrmsrCheck(x2apic, msr, val);
      w.Done? && w.value.icr2.Some? ==> w.value.offset == APIC_ICR && w.value.icr2.value == Hi32(val)
  {
    hide Within, Lo32, Hi32;
  }

  lemma WithinLo(val: bv64, mask: bv32)
    requires Within(val, mask)
    ensures Lo32(val) & !mask == 0
    ensures Lo32(val) as bv64 == val
  {
  }

  /**
   * An accepted LVT write from an x2APIC MSR carries no bit its register
   * write would drop: with the APIC software enabled the entry stores the
   * value as written.
   */
  lemma WrmsrLvtStoredAsWritten(msr: int, val: bv64, i: int)
    requires 0 <= msr < 0x1_0000_0000 && 0 <= i < VLAPIC_LVT_NUM
    requires X2apicReg(msr) == LvtOffset(i) / 16
    requires WrmsrCheck(true, msr, val).Done?
    ensures WrmsrCheck(true, msr, val).value.offset == LvtOffset(i)
    ensures LvtWrite(WrmsrCheck(true, msr, val).value.val, false, i) == Lo32(val)
  {
    WrmsrLvtCase(msr, val, i);
    hide WrmsrCheck, Within, Lo32;
    WithinLo(val, LvtMask(i));
    LvtWriteSpec(Lo32(val), false, i);
  }

  /** For an LVT register, WrmsrCheck accepts exactly the values within the entry's writable bits. */
  lemma WrmsrLvtCase(msr: int, val: bv64, i: int)
    requires 0 <= msr < 0x1_0000_0000 && 0 <= i < VLAPIC_LVT_NUM
    requires X2apicReg(msr) == LvtOffset(i) / 16
    ensures WrmsrCheck(true, msr, val) ==
      if Within(val, LvtMask(i)) then Done(MsrWrite(LvtOffset(i), Lo32(val), None)) else Fault
  {
    hide Within, Lo32, Hi32;
  }

  /**
   * A self-IPI through its MSR is accepted exactly for values holding a
   * vector only, and becomes a fixed interrupt to self for that vector.
   */
  lemma WrmsrSelfIpi(val: bv64)
    ensures var r := WrmsrCheck(true, MSR_X2APIC_FIRST + APIC_SELF_IPI / 16, val);
      (r.Done? <==> val < 0x100) &&
      (r.Done? ==> r.value.offset == APIC_ICR && r.value.icr2 == None &&
                   r.value.val & APIC_SHORT_MASK == APIC_DEST_SELF &&
                   r.value.val & APIC_DM_MASK == APIC_DM_FIXED &&
                   r.value.val & APIC_VECTOR_MASK == Lo32(val))
  {
  }

  /** Outside x2APIC mode every MSR access faults. */
  lemma MsrNeedsX2apic(msr: int, val: bv64)
    requires 0 <= msr < 0x1_0000_0000
    ensures WrmsrCheck(false, msr, val) == Fault && RdmsrOffset(false, msr) == Fault
  {
  }

  // ---------------------------------------------------------------------
  // The APIC base MSR
  // ---------------------------------------------------------------------

  const APIC_BASE_BSP: bv64 := 0x100
  const APIC_BASE_EXTD: bv64 := 0x400
  const APIC_BASE_ENABLE: bv64 := 0x800
  const APIC_BASE_ADDR_MASK: bv64 := 0x000F_FFFF_FFFF_F000
  const APIC_DEFAULT_PHYS_BASE: bv64 := 0xFEE0_0000

  /** The architectural modes of a local APIC, from the enable and extended bits of its base MSR. */
  datatype ApicMode = Disabled | XApic | X2Apic | InvalidMode

  function ModeOfBase(msr: bv64): ApicMode
  {
    var en := msr & APIC_BASE_ENABLE != 0;
    var extd := msr & APIC_BASE_EXTD != 0;
    if !en && !extd then Disabled
    else if en && !extd then XApic
    else if en && extd then X2Apic
    else InvalidMode
  }

  /** What an accepted base MSR write does besides storing the value. */
  datatype BaseEffect = Enable | Disable | NoToggle

  /**
   * Validation of a write to the APIC base MSR: it faults without an
   * emulated local APIC, for reserved bits (the extended bit is reserved
   * unless x2APIC is offered), for an xAPIC-mode base other than the default
   * address, when the enable bit changes while the extended bit is set, and
   * when the extended bit changes on an APIC not in xAPIC mode. Otherwise it
   * reports whether the APIC is being enabled (a reset), disabled, or
   * neither.
   */
  function BaseWrite(hasVlapic: bool, x2apicOffered: bool, msr: bv64, val: bv64): Access<BaseEffect>
  {
    var allowed := APIC_BASE_ADDR_MASK | APIC_BASE_ENABLE | APIC_BASE_BSP
                   | (if x2apicOffered then APIC_BASE_EXTD else 0);
    if !hasVlapic then Fault
    else if val & !allowed != 0 then Fault
    else if val & (APIC_BASE_EXTD | APIC_BASE_ENABLE) == APIC_BASE_ENABLE
            && val & APIC_BASE_ADDR_MASK != APIC_DEFAULT_PHYS_BASE then Fault
    else if (msr ^ val) & APIC_BASE_ENABLE != 0 then
      if val & APIC_BASE_EXTD != 0 then Fault
      else if val & APIC_BASE_ENABLE != 0 then Done(Enable)
      else Done(Disable)
    else if (msr ^ val) & APIC_BASE_EXTD != 0 && ModeOfBase(msr) != XApic then Fault
    else Done(NoToggle)
  }

  lemma ModeBits(msr: bv64)
    ensures ModeOfBase(msr) == Disabled <==> msr & (APIC_BASE_EXTD | APIC_BASE_ENABLE) == 0
    ensures ModeOfBase(msr) == XApic <==> msr & (APIC_BASE_EXTD | APIC_BASE_ENABLE) == APIC_BASE_ENABLE
    ensures ModeOfBase(msr) == X2Apic <==> msr & (APIC_BASE_EXTD | APIC_BASE_ENABLE) == APIC_BASE_EXTD | APIC_BASE_ENABLE
    ensures ModeOfBase(msr) == InvalidMode <==> msr & (APIC_BASE_EXTD | APIC_BASE_ENABLE) == APIC_BASE_EXTD
  {
  }

  /**
   * The mode transitions an accepted write can make are exactly those the
   * architecture allows: disabled to xAPIC, xAPIC to x2APIC, either enabled
   * mode to disabled, or staying in the same mode; so x2APIC is never left
   * for xAPIC, never entered from disabled, and the invalid extended-only
   * state is never reached.
   */
  lemma BaseWriteTransitions(hasVlapic: bool, x2apicOffered: bool, msr: bv64, val: bv64)
    requires ModeOfBase(msr) != InvalidMode
    ensures var r := BaseWrite(hasVlapic, x2apicOffered, msr, val);
      var from, to := ModeOfBase(msr), ModeOfBase(val);
      r.Done? ==>
        && to != InvalidMode
        && (from == to || (from == Disabled && to == XApic) || (from == XApic && to == X2Apic)
            || to == Disabled)
        && (r.value == Enable <==> from == Disabled && to != Disabled)
        && (r.value == Disable <==> from != Disabled && to == Disabled)
  {
    hide APIC_BASE_ADDR_MASK;
    ModeBits(msr);
    ModeBits(val);
  }

  /**
   * An xAPIC-mode write is accepted only with the default base address,
   * and the extended bit is refused when x2APIC is not offered.
   */
  lemma BaseWriteGuards(hasVlapic: bool, x2apicOffered: bool, msr: bv64, val: bv64)
    ensures var r := BaseWrite(hasVlapic, x2apicOffered, msr, val);
      && (!hasVlapic ==> r == Fault)
      && (r.Done? && ModeOfBase(val) == XApic ==> val & APIC_BASE_ADDR_MASK == APIC_DEFAULT_PHYS_BASE)
      && (!x2apicOffered && val & APIC_BASE_EXTD != 0 ==> r == Fault)
  {
    ModeBits(val);
  }

  /** The base MSR value after reset: enabled, at the default address, with the bootstrap flag on vCPU 0. */
  function ResetBase(vcpu0: bool): (msr: bv64)
    ensures ModeOfBase(msr) == XApic
    ensures msr & APIC_BASE_ADDR_MASK == APIC_DEFAULT_PHYS_BASE
    ensures (msr & APIC_BASE_BSP != 0) == vcpu0
  {
    APIC_BASE_ENABLE | APIC_DEFAULT_PHYS_BASE | (if vcpu0 then APIC_BASE_BSP else 0)
  }

  // ---------------------------------------------------------------------
  // INIT and reset
  // ---------------------------------------------------------------------

  predicate IsBitmapWord(j: int)
  {
    (APIC_ISR / 4 <= j < APIC_ISR / 4 + 32 || APIC_TMR / 4 <= j < APIC_TMR / 4 + 32
     || APIC_IRR / 4 <= j < APIC_IRR / 4 + 32) && j % 4 == 0
  }

  /**
   * The register page after INIT: version set; IRR, ISR and TMR cleared;
   * ICR, TPR and the timer counts zeroed; the LDR zeroed unless the APIC is
   * in x2APIC mode (where it is read-only); TDCR 0; the flat DFR model;
   * every LVT entry masked; SPIV with the APIC software disabled; all other
   * registers, the APIC ID among them, kept.
   */
  function InitWord(p: RegPage, x2apic: bool, j: int): bv32
    requires 0 <= j < PAGE_WORDS
  {
    if j == APIC_LVR / 4 then VLAPIC_VERSION
    else if IsBitmapWord(j) then 0
    else if j == APIC_ICR / 4 || j == APIC_ICR2 / 4 then 0
    else if j == APIC_LDR / 4 then (if x2apic then p[j] else 0)
    else if j == APIC_TASKPRI / 4 || j == APIC_TMICT / 4 || j == APIC_TMCCT / 4 then 0
    else if j == APIC_TDCR / 4 then 0
    else if j == APIC_DFR / 4 then 0xFFFF_FFFF
    else if IsLvtWord(j) then APIC_LVT_MASKED
    else if j == APIC_SPIV / 4 then 0xFF
    else p[j]
  }

  function InitPage(p: RegPage, x2apic: bool): RegPage
  {
    seq(PAGE_WORDS, j requires 0 <= j < PAGE_WORDS => InitWord(p, x2apic, j))
  }

  /**
   * After INIT nothing is requested, in service or level-triggered, the
   * priority is 0, every LVT entry is masked, the APIC is software disabled
   * (SPIV enable bit clear) with spurious vector 0xFF, and the ID is kept.
   */
  lemma InitPageSpec(p: RegPage, x2apic: bool)
    ensures var q := InitPage(p, x2apic);
      && Bits(q, APIC_IRR) == {} && Bits(q, APIC_ISR) == {} && Bits(q, APIC_TMR) == {}
      && Reg(q, APIC_TASKPRI) == 0
      && (forall i :: 0 <= i < VLAPIC_LVT_NUM ==> Reg(q, LvtOffset(i)) == APIC_LVT_MASKED)
      && Reg(q, APIC_SPIV) & APIC_SPIV_APIC_ENABLED == 0 && Reg(q, APIC_SPIV) == 0xFF
      && Reg(q, APIC_ID) == Reg(p, APIC_ID)
      && Reg(q, APIC_LDR) == (if x2apic then Reg(p, APIC_LDR) else 0)
      && Reg(q, APIC_DFR) == APIC_DFR_FLAT
  {
    var q := InitPage(p, x2apic);
    EmptyBitmap(q, APIC_IRR);
    EmptyBitmap(q, APIC_ISR);
    EmptyBitmap(q, APIC_TMR);
  }

  lemma EmptyBitmap(q: RegPage, base: int)
    requires IsBitmap(base)
    requires forall j :: 0 <= j < PAGE_WORDS && IsBitmapWord(j) ==> q[j] == 0
    ensures Bits(q, base) == {}
  {
    hide Test, Bit, BitOf;
    forall u | 0 <= u < 256 ensures !TestVec(q, base, u) {
      ZeroNoBits(BitOf(u));
    }
  }

  // ---------------------------------------------------------------------
  // Restore-time fixups
  // ---------------------------------------------------------------------

  /** What the restore fixup does to a vCPU's x2APIC ID and logical ID. */
  datatype Fixup = NoFixup | RecomputeIds | SetLdrFromVcpuFlag | Bogus

  /**
   * Once both halves of a vCPU's saved state are loaded: nothing in xAPIC
   * mode or when the loaded LDR is the one derived from the loaded ID; the
   * all-APICs-LDR-1 record of very old hypervisors is recomputed; an LDR
   * derived from the vCPU number marks the domain so that later vCPUs are
   * derived the same way; anything else is left as it is (and reported).
   */
  function LoadFixup(x2apic: bool, loadedId: bv32, loadedLdr: bv32, vcpu: bv32): Fixup
  {
    if !x2apic || loadedLdr == X2apicLdr(loadedId) then NoFixup
    else if loadedLdr == 1 then RecomputeIds
    else if loadedLdr == X2apicLdr(vcpu) then SetLdrFromVcpuFlag
    else Bogus
  }

  /**
   * Only x2APIC records whose LDR is not derived from their ID are touched;
   * a recomputed vCPU then needs no fixup, and after the domain is
   * flagged the loaded LDR is exactly what the flagged derivation gives.
   */
  lemma LoadFixupSpec(x2apic: bool, loadedId: bv32, loadedLdr: bv32, vcpu: bv32)
    ensures var f := LoadFixup(x2apic, loadedId, loadedLdr, vcpu);
      && (!x2apic ==> f == NoFixup)
      && (x2apic && loadedLdr == X2apicLdr(loadedId) ==> f == NoFixup)
      && (f == RecomputeIds ==> (loadedLdr == 1 &&
            LoadFixup(x2apic, X2apicIds(vcpu, false).id, X2apicIds(vcpu, false).ldr, vcpu) == NoFixup))
      && (f == SetLdrFromVcpuFlag ==> X2apicIds(vcpu, true).ldr == loadedLdr)
  {
  }

  /** Error codes of the save-record check. */
  const ENODEV: int := 19
  const EINVAL: int := 22
  const ENODATA: int := 61

  /**
   * Check of the saved hidden state before it is loaded: no emulated local
   * APIC, no such vCPU, a missing record, and a base MSR in the invalid
   * extended-without-enable state are refused, in that order.
   */
  function CheckHidden(hasVlapic: bool, vcpuExists: bool, record: Option<bv64>): (rc: int)
    ensures rc == 0 <==> hasVlapic && vcpuExists && record.Some? && ModeOfBase(record.value) != InvalidMode
  {
    ModeBits(if record.Some? then record.value else 0);
    if !hasVlapic then -ENODEV
    else if !vcpuExists then -EINVAL
    else if record.None? then -ENODATA
    else if record.value & (APIC_BASE_ENABLE | APIC_BASE_EXTD) == APIC_BASE_EXTD then -EINVAL
    else 0
  }

  /**
   * The check admits exactly the base MSR states the write path can reach:
   * any accepted base MSR write from an admitted state lands in an admitted
   * state.
   */
  lemma CheckHiddenMatchesWrites(hasVlapic: bool, x2apicOffered: bool, msr: bv64, val: bv64)
    requires CheckHidden(true, true, Some(msr)) == 0
    requires BaseWrite(hasVlapic, x2apicOffered, msr, val).Done?
    ensures CheckHidden(true, true, Some(val)) == 0
  {
    BaseWriteTransitions(hasVlapic, x2apicOffered, msr, val);
  }
}
