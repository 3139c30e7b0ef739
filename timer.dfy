// The local APIC timer: the divide configuration, the current-count
// register computed from guest time, re-arming the timer when one of its
// registers is written, the TSC-deadline MSR, and re-arming after restore.
//
// Times are guest nanoseconds held in 64-bit unsigned words; a difference of
// two times wraps modulo 2^64 exactly as the unsigned subtraction does.

module Timer {
  import opened ApicRegs

  const U64: int := 0x1_0000_0000_0000_0000
  type u64 = x: int | 0 <= x < U64

  /** Nanoseconds per timer bus cycle. */
  const APIC_BUS_CYCLE_NS: int := 10

  /** Unsigned 64-bit subtraction, wrapping modulo 2^64. */
  function Sub64(a: u64, b: u64): (r: u64)
    ensures r == (a - b) % U64
    ensures (r + b) % U64 == a
  {
    if a >= b then a - b else a - b + U64
  }

  /** Subtracting a difference back out recovers the earlier time. */
  lemma SubSub(now: u64, last: u64)
    ensures Sub64(now, Sub64(now, last)) == last
  {
  }

  // ---------------------------------------------------------------------
  // Timer mode (bits 18:17 of LVTT)
  // ---------------------------------------------------------------------

  datatype Mode = OneShot | Periodic | TscDeadline | ReservedMode

  function ModeOf(lvtt: bv32): (m: Mode)
    ensures m == Periodic <==> lvtt & APIC_TIMER_MODE_MASK == APIC_TIMER_MODE_PERIODIC
    ensures m == OneShot <==> lvtt & APIC_TIMER_MODE_MASK == APIC_TIMER_MODE_ONESHOT
    ensures m == TscDeadline <==> lvtt & APIC_TIMER_MODE_MASK == APIC_TIMER_MODE_TSC_DEADLINE
  {
    var f := lvtt & APIC_TIMER_MODE_MASK;
    if f == APIC_TIMER_MODE_ONESHOT then OneShot
    else if f == APIC_TIMER_MODE_PERIODIC then Periodic
    else if f == APIC_TIMER_MODE_TSC_DEADLINE then TscDeadline
    else ReservedMode
  }

  /** The count-down modes, in which TMICT and TMCCT are live. */
  predicate Counting(m: Mode)
  {
    m == OneShot || m == Periodic
  }

  // ---------------------------------------------------------------------
  // Divide configuration
  // ---------------------------------------------------------------------

  /** The divisors the divide configuration register can select. */
  predicate IsDivisor(d: int)
  {
    d in {1, 2, 4, 8, 16, 32, 64, 128}
  }

  /**
   * The shift the divide configuration encodes: bits 0, 1 and 3 form a
   * three-bit field, and the divisor is 2 to the power of one more than
   * it, modulo 8.
   */
  function DivideShift(tdcr: bv32): (s: bv32)
    ensures s < 8
  {
    (((tdcr & 3) | ((tdcr & 8) >> 1)) + 1) & 7
  }

  function Pow2Below8(s: bv32): (d: int)
    requires s < 8
    ensures IsDivisor(d)
  {
    if s == 0 then 1 else if s == 1 then 2 else if s == 2 then 4 else if s == 3 then 8
    else if s == 4 then 16 else if s == 5 then 32 else if s == 6 then 64 else 128
  }

  /** Divisor selected by a divide configuration value. */
  function Divisor(tdcr: bv32): (d: int)
    ensures IsDivisor(d)
  {
    Pow2Below8(DivideShift(tdcr))
  }

  /** A TDCR write: only bits 0, 1 and 3 are kept; the divisor follows from them. */
  datatype Tdcr = Tdcr(reg: bv32, divisor: int)

  function SetTdcr(val: bv32): (t: Tdcr)
    ensures t.reg & !APIC_TDR_DIV_MASK == 0
    ensures IsDivisor(t.divisor)
  {
    var reg := val & APIC_TDR_DIV_MASK;
    Tdcr(reg, Divisor(reg))
  }

  /**
   * The divide configuration table of the architecture: 0000b divides by
   * 2, 0001b by 4, 0010b by 8, 0011b by 16, 1000b by 32, 1001b by 64,
   * 1010b by 128 and 1011b by 1; bit 2 and the bits above 3 are ignored.
   */
  lemma DivisorTable(val: bv32)
    ensures SetTdcr(val).divisor == Divisor(val)
    ensures Divisor(0x0) == 2 && Divisor(0x1) == 4 && Divisor(0x2) == 8 && Divisor(0x3) == 16
    ensures Divisor(0x8) == 32 && Divisor(0x9) == 64 && Divisor(0xA) == 128 && Divisor(0xB) == 1
  {
    assert DivideShift(val & APIC_TDR_DIV_MASK) == DivideShift(val);
  }

  /** Writing back what TDCR reads is a no-op. */
  lemma SetTdcrIdempotent(val: bv32)
    ensures SetTdcr(SetTdcr(val).reg) == SetTdcr(val)
  {
  }

  // ---------------------------------------------------------------------
  // Current count
  // ---------------------------------------------------------------------

  /** Length in nanoseconds of one count of the timer. */
  function Tick(divisor: int): (c: int)
    requires IsDivisor(divisor)
    ensures 10 <= c <= 1280
  {
    APIC_BUS_CYCLE_NS * divisor
  }

  /**
   * The current-count register: the initial count less the ticks elapsed
   * since the timer was last started (modulo the initial count in periodic
   * mode), zero once a one-shot count is exhausted, and zero whenever the
   * timer is stopped (last update 0) or the initial count is 0.
   */
  function Tmcct(tmict: int, periodic: bool, divisor: int, last: u64, now: u64): int
    requires 0 <= tmict < 0x1_0000_0000 && IsDivisor(divisor)
  {
    var counter := Sub64(now, last) / Tick(divisor);
    if tmict != 0 && last != 0 then
      var c := if periodic then counter % tmict else counter;
      if c < tmict then tmict - c else 0
    else 0
  }

  /**
   * The current count never exceeds the initial count, reads 0 when the
   * timer is stopped or the initial count is 0, never reads 0 in periodic
   * mode while the timer runs, and reads the full initial count at the
   * instant the timer was started.
   */
  lemma TmcctBounds(tmict: int, periodic: bool, divisor: int, last: u64, now: u64)
    requires 0 <= tmict < 0x1_0000_0000 && IsDivisor(divisor)
    ensures var r := Tmcct(tmict, periodic, divisor, last, now);
      && 0 <= r <= tmict
      && (tmict == 0 || last == 0 ==> r == 0)
      && (periodic && tmict != 0 && last != 0 ==> r >= 1)
      && (tmict != 0 && last != 0 && now == last ==> r == tmict)
  {
  }

  /** A one-shot count only goes down as time advances, and is 0 once a whole period has passed. */
  lemma TmcctOneShotCountsDown(tmict: int, divisor: int, last: u64, now1: u64, now2: u64)
    requires 0 <= tmict < 0x1_0000_0000 && IsDivisor(divisor)
    requires last <= now1 <= now2
    ensures Tmcct(tmict, false, divisor, last, now2) <= Tmcct(tmict, false, divisor, last, now1)
    ensures now1 - last >= tmict * Tick(divisor) ==> Tmcct(tmict, false, divisor, last, now1) == 0
  {
    hide Tick;
    var c := Tick(divisor);
    DivMonotone(now1 - last, now2 - last, c);
    if now1 - last >= tmict * c {
      DivLowerBound(now1 - last, tmict, c);
    }
  }

  /** A periodic count repeats itself every period. */
  lemma TmcctPeriodicRepeats(tmict: int, divisor: int, last: u64, now: u64)
    requires 0 < tmict < 0x1_0000_0000 && IsDivisor(divisor)
    requires last <= now && now + tmict * Tick(divisor) < U64
    ensures Tmcct(tmict, true, divisor, last, now + tmict * Tick(divisor)) == Tmcct(tmict, true, divisor, last, now)
  {
    hide Tick;
    var c := Tick(divisor);
    var t := now - last;
    DivShift(t, tmict, c);
    ModShift(t / c, tmict);
  }

  // ---------------------------------------------------------------------
  // Arithmetic helpers
  // ---------------------------------------------------------------------

  lemma DivModUnique(n: int, d: int, q: int, r: int)
    requires d > 0 && 0 <= r < d && n == q * d + r
    ensures n / d == q && n % d == r
  {
    var q0, r0 := n / d, n % d;
    MulApart(q - q0, d);
    assert (q - q0) * d == q * d - q0 * d;
  }

  /** A non-zero multiple of d is at least d away from 0. */
  lemma MulApart(k: int, d: int)
    requires d > 0
    ensures k == 0 || k * d >= d || k * d <= -d
  {
    if k > 0 {
      MulLe(1, k, d);
    } else if k < 0 {
      MulLe(k, -1, d);
    }
  }

  lemma MulLe(a: int, b: int, d: int)
    requires a <= b && d >= 0
    ensures a * d <= b * d
  {
    assert b * d - a * d == (b - a) * d;
  }

  lemma DivMonotone(a: int, b: int, c: int)
    requires 0 <= a <= b && c > 0
    ensures a / c <= b / c
  {
    if a / c > b / c {
      MulLe(b / c + 1, a / c, c);
    }
  }

  lemma DivLowerBound(a: int, k: int, c: int)
    requires a >= k * c && c > 0 && k >= 0
    ensures a / c >= k
  {
    if a / c < k {
      MulLe(a / c + 1, k, c);
    }
  }

  lemma DivShift(t: int, k: int, c: int)
    requires t >= 0 && k >= 0 && c > 0
    ensures (t + k * c) / c == t / c + k
  {
    DivModUnique(t + k * c, c, t / c + k, t % c);
  }

  lemma ModShift(q: int, k: int)
    requires q >= 0 && k > 0
    ensures (q + k) % k == q % k
  {
    DivModUnique(q + k, k, q / k + 1, q % k);
  }

  /** Reducing modulo a whole number of ticks, then counting ticks, is counting ticks modulo the count. */
  lemma ModTicks(t: int, k: int, c: int)
    requires t >= 0 && k > 0 && c > 0
    ensures (t % (k * c)) / c == (t / c) % k
    ensures t % (k * c) <= t
  {
    var q, r := t / c, t % c;
    var a, b := q / k, q % k;
    TickParts(t, k, c, q, r, a, b);
    DivModUnique(t, k * c, a, b * c + r);
    DivModUnique(b * c + r, c, b, r);
  }

  /** t split into a whole counts of k ticks, b more ticks and r nanoseconds. */
  lemma TickParts(t: int, k: int, c: int, q: int, r: int, a: int, b: int)
    requires k > 0 && c > 0 && a >= 0
    requires t == q * c + r && q == a * k + b && 0 <= b < k && 0 <= r < c
    ensures t == a * (k * c) + (b * c + r)
    ensures 0 <= b * c + r < k * c && a * (k * c) >= 0
  {
    assert q * c == a * (k * c) + b * c;
    MulLe(b + 1, k, c);
    MulLe(0, b, c);
    MulLe(0, a, k * c);
  }

  // ---------------------------------------------------------------------
  // Re-arming on a register write
  // ---------------------------------------------------------------------

  /** What a timer update does to the periodic timer: arm it, stop it, or leave it alone. */
  datatype Action = Arm(delta: int, period: int) | Stop | Keep

  /** The timer's new action and new last-update time. */
  datatype Armed = Armed(action: Action, last: u64)

  /** Initial count times tick length: the nanoseconds one full count takes. */
  function Period(tmict: int, divisor: int): (p: int)
    requires 0 <= tmict < 0x1_0000_0000 && IsDivisor(divisor)
    ensures 0 <= p < 0x1_0000_0000 * 1280
    ensures p == 0 <==> tmict == 0
  {
    tmict * Tick(divisor)
  }

  /**
   * Time still to run at the moment of the update, under the old divisor:
   * a full period when TMICT was just written, otherwise the rest of the
   * current period (in the previous mode) if the timer was running.
   */
  function Remaining(tmict: int, oldPeriodic: bool, tmictUpdated: bool, oldDivisor: int, last: u64, now: u64): (delta: int)
    requires 0 <= tmict < 0x1_0000_0000 && IsDivisor(oldDivisor)
    ensures 0 <= delta <= Period(tmict, oldDivisor)
  {
    var period := Period(tmict, oldDivisor);
    if tmictUpdated then period
    else if period != 0 && last != 0 then
      var passed := Sub64(now, last);
      var passed' := if oldPeriodic then passed % period else passed;
      if passed' < period then period - passed' else 0
    else 0
  }

  /**
   * The timer update after a write to LVTT, TMICT or TDCR. With time left
   * and a count-down mode the timer is armed for what is left (scaled to a
   * new divisor), repeating every full period in periodic mode, and the
   * last-update time is set back so that the current count carries on from
   * where it was; otherwise the timer is stopped and the last update
   * cleared.
   */
  function UpdateTimer(tmict: int, newMode: Mode, oldPeriodic: bool, tmictUpdated: bool,
                       oldDivisor: int, divisor: int, last: u64, now: u64): (u: Armed)
    requires 0 <= tmict < 0x1_0000_0000 && IsDivisor(oldDivisor) && IsDivisor(divisor)
  {
    var delta := Remaining(tmict, oldPeriodic, tmictUpdated, oldDivisor, last, now);
    if delta != 0 && Counting(newMode) then
      var period := Period(tmict, divisor);
      var delta' := if divisor != oldDivisor then delta * divisor / oldDivisor else delta;
      ScaleWithin(tmict, delta, oldDivisor, divisor);
      var last' := if tmictUpdated then now else Sub64(now, period - delta');
      Armed(Arm(delta', if newMode == Periodic then period else 0), last')
    else Armed(Stop, 0)
  }

  lemma ScaleWithin(tmict: int, delta: int, oldDivisor: int, divisor: int)
    requires 0 <= tmict < 0x1_0000_0000 && IsDivisor(oldDivisor) && IsDivisor(divisor)
    requires 0 <= delta <= Period(tmict, oldDivisor)
    ensures 0 <= delta * divisor / oldDivisor <= Period(tmict, divisor)
  {
    var k := tmict * APIC_BUS_CYCLE_NS;
    assert Period(tmict, oldDivisor) == k * oldDivisor;
    assert Period(tmict, divisor) == k * divisor;
    Scale(k, delta, oldDivisor, divisor);
  }

  /** Scaling an amount of at most k * a by b / a gives at most k * b. */
  lemma Scale(k: int, delta: int, a: int, b: int)
    requires k >= 0 && a > 0 && b >= 0 && 0 <= delta <= k * a
    ensures 0 <= delta * b / a <= k * b
  {
    MulLe(delta, k * a, b);
    MulLe(0, delta, b);
    assert (k * a) * b == (k * b) * a;
    DivMonotone(delta * b, (k * b) * a, a);
    DivModUnique((k * b) * a, a, k * b, 0);
  }

  /**
   * The timer is armed exactly when there is time left and the new mode
   * counts down; it never fires later than one full period away, repeats
   * exactly in periodic mode, and stopping clears the last-update time.
   */
  lemma UpdateTimerArms(tmict: int, newMode: Mode, oldPeriodic: bool, tmictUpdated: bool,
                        oldDivisor: int, divisor: int, last: u64, now: u64)
    requires 0 <= tmict < 0x1_0000_0000 && IsDivisor(oldDivisor) && IsDivisor(divisor)
    ensures var u := UpdateTimer(tmict, newMode, oldPeriodic, tmictUpdated, oldDivisor, divisor, last, now);
      var delta := Remaining(tmict, oldPeriodic, tmictUpdated, oldDivisor, last, now);
      && (u.action.Arm? <==> delta != 0 && Counting(newMode))
      && (u.action.Stop? <==> !u.action.Arm?)
      && (u.action.Stop? ==> u.last == 0)
      && (u.action.Arm? ==>
            && 0 <= u.action.delta <= Period(tmict, divisor)
            && (u.action.period != 0 <==> newMode == Periodic)
            && (u.action.period != 0 ==> u.action.period == Period(tmict, divisor)))
  {
    var delta := Remaining(tmict, oldPeriodic, tmictUpdated, oldDivisor, last, now);
    if delta != 0 && Counting(newMode) {
      ScaleWithin(tmict, delta, oldDivisor, divisor);
    }
  }

  /**
   * Writing TMICT in a count-down mode starts a full count: the timer is
   * armed for one whole period from now, and the current count then reads
   * the whole initial count.
   */
  lemma TmictWriteStartsCount(tmict: int, mode: Mode, divisor: int, last: u64, now: u64)
    requires 0 < tmict < 0x1_0000_0000 && IsDivisor(divisor) && Counting(mode) && now != 0
    ensures var u := UpdateTimer(tmict, mode, mode == Periodic, true, divisor, divisor, last, now);
      && u == Armed(Arm(Period(tmict, divisor), if mode == Periodic then Period(tmict, divisor) else 0), now)
      && Tmcct(tmict, mode == Periodic, divisor, u.last, now) == tmict
  {
  }

  /**
   * Re-writing LVTT in the same count-down mode, with the divisor
   * unchanged, leaves the current count as it was: the timer is re-armed
   * for the rest of the running period and the last-update time moves by
   * whole periods only.
   */
  lemma RewriteKeepsCount(tmict: int, mode: Mode, divisor: int, last: u64, now: u64)
    requires 0 <= tmict < 0x1_0000_0000 && IsDivisor(divisor) && Counting(mode)
    requires 0 < last <= now
    ensures var p := mode == Periodic;
      var u := UpdateTimer(tmict, mode, p, false, divisor, divisor, last, now);
      Tmcct(tmict, p, divisor, u.last, now) == Tmcct(tmict, p, divisor, last, now)
  {
    hide Tick;
    var p := mode == Periodic;
    var c := Tick(divisor);
    var period := Period(tmict, divisor);
    var t := now - last;
    if tmict != 0 {
      if p {
        ModTicks(t, tmict, c);
        var r := t % period;
        SubSub(now, r);
        assert (r / c) % tmict == r / c by {
          DivModUnique(r / c, tmict, 0, r / c);
        }
      } else if t < period {
        SubSub(now, last);
      } else {
        DivLowerBound(t, tmict, c);
      }
    }
  }

  // ---------------------------------------------------------------------
  // TSC-deadline mode
  // ---------------------------------------------------------------------

  /** The TSC-deadline MSR reads as written in TSC-deadline mode and as 0 otherwise. */
  function TdtGet(mode: Mode, tdt: u64): (r: u64)
    ensures mode != TscDeadline ==> r == 0
  {
    if mode == TscDeadline then tdt else 0
  }

  datatype Deadline = Deadline(tdt: u64, action: Action, last: u64)

  /**
   * A TSC-deadline MSR write. It is ignored while the APIC is hardware
   * disabled or not in TSC-deadline mode. A deadline in the future is
   * stored and arms a one-shot timer for the time until it (converted to
   * guest nanoseconds, and taken as 0 if that is negative as a signed
   * 64-bit value); a deadline already passed fires at once and a deadline
   * of 0 stops the timer, and both read back as 0.
   *
   * untilDeadline is the guest-time conversion of value - guestTsc, which
   * depends on the domain's TSC scaling and is not part of this model.
   */
  function TdtSet(hwDisabled: bool, mode: Mode, tdt: u64, last: u64,
                  value: u64, guestTsc: u64, untilDeadline: u64, now: u64): Deadline
  {
    if hwDisabled || mode != TscDeadline then Deadline(tdt, Keep, last)
    else if value > guestTsc then
      var delta := if untilDeadline >= 0x8000_0000_0000_0000 then 0 else untilDeadline;
      Deadline(value, Arm(delta, 0), now)
    else if value > 0 then Deadline(0, Arm(0, 0), now)
    else Deadline(0, Stop, last)
  }

  /**
   * In TSC-deadline mode a future deadline reads back as written and arms
   * a one-shot timer; a past deadline or 0 reads back as 0, the first
   * firing immediately, the second stopping the timer. Outside the mode,
   * or with the APIC disabled, nothing changes.
   */
  lemma TdtRoundTrip(hwDisabled: bool, mode: Mode, tdt: u64, last: u64,
                     value: u64, guestTsc: u64, untilDeadline: u64, now: u64)
    ensures var d := TdtSet(hwDisabled, mode, tdt, last, value, guestTsc, untilDeadline, now);
      && (hwDisabled || mode != TscDeadline ==> d == Deadline(tdt, Keep, last))
      && (!hwDisabled && mode == TscDeadline ==>
            && TdtGet(mode, d.tdt) == (if value > guestTsc then value else 0)
            && (d.action.Arm? <==> value != 0)
            && (d.action.Arm? ==> d.action.period == 0 && 0 <= d.action.delta < 0x8000_0000_0000_0000
                                  && d.last == now)
            && (value <= guestTsc && d.action.Arm? ==> d.action.delta == 0))
  {
  }

  // ---------------------------------------------------------------------
  // Re-arming after restore
  // ---------------------------------------------------------------------

  datatype Rearmed = Rearmed(irq: int, deadline: Deadline)

  /**
   * After a restore the timer interrupt vector is taken from LVTT; in
   * TSC-deadline mode a stored deadline is written again; otherwise a
   * non-zero initial count arms a full period, repeating in periodic
   * mode, and the last-update time becomes now.
   */
  function Rearm(lvtt: bv32, tmict: int, divisor: int, hwDisabled: bool, tdt: u64, last: u64,
                 guestTsc: u64, untilDeadline: u64, now: u64): Rearmed
    requires 0 <= tmict < 0x1_0000_0000 && IsDivisor(divisor)
  {
    var irq := VectorOf(lvtt);
    var mode := ModeOf(lvtt);
    if mode == TscDeadline then
      var t := TdtGet(mode, tdt);
      if t != 0 then Rearmed(irq, TdtSet(hwDisabled, mode, tdt, last, t, guestTsc, untilDeadline, now))
      else Rearmed(irq, Deadline(tdt, Keep, last))
    else if tmict == 0 then Rearmed(irq, Deadline(tdt, Keep, last))
    else
      var period := Period(tmict, divisor);
      Rearmed(irq, Deadline(tdt, Arm(period, if mode == Periodic then period else 0), now))
  }

  /**
   * A restored count-down timer with a non-zero initial count restarts a
   * whole count, so its current count reads the initial count; a restored
   * deadline is kept when it is still in the future.
   */
  lemma RearmRestarts(lvtt: bv32, tmict: int, divisor: int, hwDisabled: bool, tdt: u64, last: u64,
                      guestTsc: u64, untilDeadline: u64, now: u64)
    requires 0 <= tmict < 0x1_0000_0000 && IsDivisor(divisor)
    ensures var r := Rearm(lvtt, tmict, divisor, hwDisabled, tdt, last, guestTsc, untilDeadline, now);
      && r.irq == VectorOf(lvtt)
      && (ModeOf(lvtt) != TscDeadline && tmict != 0 && now != 0 ==>
            r.deadline.action.Arm? && r.deadline.action.delta == Period(tmict, divisor) &&
            Tmcct(tmict, ModeOf(lvtt) == Periodic, divisor, r.deadline.last, now) == tmict)
      && (ModeOf(lvtt) == TscDeadline && !hwDisabled && tdt > guestTsc ==> r.deadline.tdt == tdt)
      && (ModeOf(lvtt) != TscDeadline && tmict == 0 ==> r.deadline == Deadline(tdt, Keep, last))
  {
  }
}
