// The LZO1X "safe" decompressor, byte-by-byte path: every read of the
// compressed stream and every write of the output buffer is preceded by a
// bound check, and a back-reference before the start of the output is
// refused. Decode states the decoder as a function of the input and the
// output capacity; DecompressSafe works on an output array as the C code
// does and is proved to compute exactly Decode.

module Lzo {

  type byte = b: int | 0 <= b < 256

  datatype Option<T> = None | Some(value: T)

  /** size_t on the 64-bit targets. */
  const SIZE_MAX: int := 0xFFFF_FFFF_FFFF_FFFF

  /** How many 255-steps a run length may take before the sum could overflow a size_t. */
  const MAX_255_COUNT: int := SIZE_MAX / 255 - 2

  /** The farthest a state-4 two-byte match may reach back (lzo.c:32). */
  const M2_MAX_OFFSET: int := 0x0800

  /** The decoder's results. */
  datatype Status = Ok | Error | InputOverrun | OutputOverrun | LookbehindOverrun | InputNotConsumed

  /** The result codes of the LZO library's header, which is not part of this model. */
  function Code(s: Status): (c: int)
    ensures c == 0 <==> s == Ok
    ensures c < 0 || s == Ok
  {
    match s
    case Ok => 0
    case Error => -1
    case InputOverrun => -4
    case OutputOverrun => -5
    case LookbehindOverrun => -6
    case InputNotConsumed => -8
  }

  /** The result, the bytes written, and the value left in *out_len. */
  datatype Outcome = Outcome(status: Status, out: seq<byte>, outLen: nat)

  // ---------------------------------------------------------------------
  // The stream format
  // ---------------------------------------------------------------------

  /** The number of zero bytes from position i on. */
  function Zeros(input: seq<byte>, i: nat): (n: nat)
    requires i <= |input|
    ensures i + n <= |input|
    ensures forall k :: i <= k < i + n ==> input[k] == 0
    ensures i + n < |input| ==> input[i + n] != 0
    decreases |input| - i
  {
    if i < |input| && input[i] == 0 then 1 + Zeros(input, i + 1) else 0
  }

  datatype Ext = ExtOverrun | ExtTooLong | ExtOk(len: nat, ip: nat)

  /**
   * A length that does not fit its opcode continues with n zero bytes, each
   * worth 255, and a final nonzero byte added to base. Running out of input
   * inside the zeros is an input overrun; more than MAX_255_COUNT zeros is
   * refused before the length is formed.
   */
  function Extend(input: seq<byte>, ip: nat, base: nat): (e: Ext)
    requires ip < |input|
    ensures e.ExtOk? ==> ip < e.ip <= |input| && base < e.len <= SIZE_MAX - 255 + base
  {
    var n := Zeros(input, ip);
    if ip + n == |input| then ExtOverrun
    else if n > MAX_255_COUNT then ExtTooLong
    else ExtOk(255 * n + base + input[ip + n], ip + n + 1)
  }

  /**
   * The source forms 255 * n as (n << 8) - n in size_t. The shift can wrap
   * for the largest counts allowed, and the subtraction then wraps back, so
   * the value is 255 * n exactly.
   */
  lemma ShiftSubIs255Times(n: int)
    requires 0 <= n <= MAX_255_COUNT
    ensures ((n * 256) % (SIZE_MAX + 1) - n) % (SIZE_MAX + 1) == 255 * n
  {
    var M := SIZE_MAX + 1;
    var a := n * 256;
    assert 255 * n <= SIZE_MAX - 510;
    if a < M {
      assert a % M == a;
      assert (a - n) % M == a - n;
    } else {
      assert a < 2 * M;
      assert a % M == a - M;
      assert a - M - n == 255 * n - M;
      assert (255 * n - M) % M == 255 * n;
    }
  }

  /** A little-endian 16-bit field. */
  function Le16(input: seq<byte>, i: nat): int
    requires i + 2 <= |input|
  {
    input[i] as int + 256 * (input[i + 1] as int)
  }

  /**
   * One decoded instruction: a literal run of t bytes; a two-byte match
   * from m; a match of t bytes from m; the end marker; or a failure while
   * reading a length. A match is followed by next literal bytes.
   */
  datatype Instr =
    | Literal(t: nat, ip: nat)
    | Short(m: int, next: nat, ip: nat)
    | Match(m: int, t: nat, next: nat, ip: nat)
    | End(t: nat, ip: nat)
    | Overrun
    | TooLong

  /**
   * The instruction at ip, with op bytes already written and the given
   * state (0 after a match with no trailing literals or at the start, 1-3
   * after a match with that many, 4 after a literal run). At least three
   * bytes are available at ip. Back-references always lie before op, every
   * length fits a size_t with room for the three bytes of look-ahead, and
   * every instruction consumes input.
   */
  function Parse(input: seq<byte>, ip: nat, op: nat, state: nat): (r: Instr)
    requires ip + 3 <= |input| && state <= 4
    ensures r.Literal? ==> ip < r.ip <= |input| && 3 <= r.t && r.t + 3 <= SIZE_MAX
    ensures r.Short? ==> ip < r.ip <= |input| && r.m < op && r.next < 4
    ensures r.Match? ==> ip < r.ip <= |input| && r.m < op && 3 <= r.t <= SIZE_MAX && r.next < 4
    ensures r.End? ==> ip < r.ip <= |input|
  {
    var t: int := input[ip];
    var ip1 := ip + 1;
    var b: int := input[ip1];
    if t < 16 then
      if state == 0 then
        if t == 0 then
          match Extend(input, ip1, 15)
          case ExtOverrun => Overrun
          case ExtTooLong => TooLong
          case ExtOk(len, ip2) => Literal(len + 3, ip2)
        else Literal(t + 3, ip1)
      else if state != 4 then
        Short(op - 1 - t / 4 - 4 * b, t % 4, ip1 + 1)
      else
        Match(op - (1 + M2_MAX_OFFSET) - t / 4 - 4 * b, 3, t % 4, ip1 + 1)
    else if t >= 64 then
      Match(op - 1 - (t / 4) % 8 - 8 * b, t / 32 - 1 + (3 - 1), t % 4, ip1 + 1)
    else if t >= 32 then
      var len := t % 32 + (3 - 1);
      if len == 2 then
        match Extend(input, ip1, 31)
        case ExtOverrun => Overrun
        case ExtTooLong => TooLong
        case ExtOk(more, ip2) =>
          if |input| - ip2 < 2 then Overrun
          else Match(op - 1 - Le16(input, ip2) / 4, len + more, Le16(input, ip2) % 4, ip2 + 2)
      else Match(op - 1 - Le16(input, ip1) / 4, len, Le16(input, ip1) % 4, ip1 + 2)
    else
      var far: int := op - (t / 8 % 2) * 0x4000;
      var len := t % 8 + (3 - 1);
      if len == 2 then
        match Extend(input, ip1, 7)
        case ExtOverrun => Overrun
        case ExtTooLong => TooLong
        case ExtOk(more, ip2) =>
          if |input| - ip2 < 2 then Overrun
          else FarMatch(far - Le16(input, ip2) / 4, op, len + more, Le16(input, ip2) % 4, ip2 + 2)
      else FarMatch(far - Le16(input, ip1) / 4, op, len, Le16(input, ip1) % 4, ip1 + 2)
  }

  /** A far match whose distance works out to zero is the end marker. */
  function FarMatch(m: int, op: nat, t: nat, next: nat, ip: nat): Instr
  {
    if m == op then End(t, ip) else Match(m - 0x4000, t, next, ip)
  }

  /** The result at the end marker: the marker must carry length 3 and end the input. */
  function EndStatus(t: nat, ip: nat, inLen: nat): Status
  {
    if t != 3 then Error
    else if ip == inLen then Ok
    else if ip < inLen then InputNotConsumed
    else InputOverrun
  }

  // ---------------------------------------------------------------------
  // Copies
  // ---------------------------------------------------------------------

  /** Where the decoder goes on: on to ip with the output so far, or out with a status. */
  datatype Step = Go(ip: nat, out: seq<byte>) | Stop(status: Status, out: seq<byte>)

  /**
   * A back-reference copy of t bytes from position m, one byte at a time,
   * so that a copy overlapping the bytes it produces repeats them. Only
   * bytes already in the output are read.
   */
  function CopyBack(out: seq<byte>, m: nat, t: nat): (r: seq<byte>)
    requires m < |out|
    ensures |r| == |out| + t && r[..|out|] == out
    ensures forall k :: |out| <= k < |r| ==> r[k] in out
    decreases t
  {
    if t == 0 then out
    else
      var r := CopyBack(out + [out[m]], m + 1, t - 1);
      assert forall k :: |out| <= k < |r| ==> r[k] in out by {
        forall k | |out| <= k < |r|
          ensures r[k] in out
        {
          if k == |out| {
            assert r[k] == (r[..|out| + 1])[k];
          } else {
            assert r[k] in out + [out[m]];
          }
        }
      }
      r
  }

  /** A literal run: room for t bytes of output, t bytes of input plus three of look-ahead. */
  function LiteralRun(input: seq<byte>, cap: nat, ip: nat, out: seq<byte>, t: nat): (r: Step)
    requires ip <= |input| && |out| <= cap
    ensures r.Go? ==> r.ip == ip + t && r.ip + 3 <= |input| && |r.out| <= cap
    ensures |out| <= |r.out| <= cap && r.out[..|out|] == out && (r.Stop? ==> r.status != Ok)
  {
    if cap - |out| < t then Stop(OutputOverrun, out)
    else if |input| - ip < t + 3 then Stop(InputOverrun, out)
    else Go(ip + t, out + input[ip..ip + t])
  }

  /** A match: its source must not lie before the output, and there must be room for t bytes. */
  function MatchCopy(cap: nat, ip: nat, out: seq<byte>, m: int, t: nat): Step
    requires m < |out| <= cap
  {
    if m < 0 then Stop(LookbehindOverrun, out)
    else if cap - |out| < t then Stop(OutputOverrun, out)
    else Go(ip, CopyBack(out, m, t))
  }

  /** The up to three literal bytes after a match, with three bytes of look-ahead. */
  function NextRun(input: seq<byte>, cap: nat, ip: nat, out: seq<byte>, next: nat): (r: Step)
    requires ip <= |input| && |out| <= cap
    ensures r.Go? ==> r.ip == ip + next && r.ip + 3 <= |input| && |r.out| <= cap
    ensures |out| <= |r.out| <= cap && r.out[..|out|] == out && (r.Stop? ==> r.status != Ok)
  {
    if |input| - ip < next + 3 then Stop(InputOverrun, out)
    else if cap - |out| < next then Stop(OutputOverrun, out)
    else Go(ip + next, out + input[ip..ip + next])
  }

  /** A match followed by its trailing literals. */
  function MatchThenNext(input: seq<byte>, cap: nat, ip: nat, out: seq<byte>, m: int, t: nat, next: nat): (r: Step)
    requires ip <= |input| && m < |out| <= cap
    ensures r.Go? ==> r.ip == ip + next && r.ip + 3 <= |input| && |r.out| <= cap
    ensures |out| <= |r.out| <= cap && r.out[..|out|] == out && (r.Stop? ==> r.status != Ok)
  {
    match MatchCopy(cap, ip, out, m, t)
    case Stop(s, o) => Stop(s, o)
    case Go(_, o) => NextRun(input, cap, ip, o, next)
  }

  /** The decoder from the head of its main loop on. */
  function Run(input: seq<byte>, cap: nat, ip: nat, out: seq<byte>, state: nat): Outcome
    requires ip + 3 <= |input| && |out| <= cap && state <= 4
    decreases |input| - ip
  {
    match Parse(input, ip, |out|, state)
    case Overrun => Outcome(InputOverrun, out, |out|)
    case TooLong => Outcome(Error, out, cap)
    case End(t, ip1) => Outcome(EndStatus(t, ip1, |input|), out, |out|)
    case Literal(t, ip1) =>
      (match LiteralRun(input, cap, ip1, out, t)
       case Stop(s, o) => Outcome(s, o, |o|)
       case Go(ip2, o) => Run(input, cap, ip2, o, 4))
    case Short(m, next, ip1) =>
      (match MatchThenNext(input, cap, ip1, out, m, 2, next)
       case Stop(s, o) => Outcome(s, o, |o|)
       case Go(ip2, o) => Run(input, cap, ip2, o, next))
    case Match(m, t, next, ip1) =>
      (match MatchThenNext(input, cap, ip1, out, m, t, next)
       case Stop(s, o) => Outcome(s, o, |o|)
       case Go(ip2, o) => Run(input, cap, ip2, o, next))
  }

  /**
   * The whole decoder: fewer than three input bytes is an input overrun; a
   * first byte above 17 starts with a literal run of that byte less 17, or
   * with trailing literals only when that is below 4.
   */
  function Decode(input: seq<byte>, cap: nat): Outcome
  {
    if |input| < 3 then Outcome(InputOverrun, [], 0)
    else if input[0] > 17 then
      var t := input[0] - 17;
      var s := if t < 4 then NextRun(input, cap, 1, [], t) else LiteralRun(input, cap, 1, [], t);
      match s
      case Stop(st, o) => Outcome(st, o, |o|)
      case Go(ip, o) => Run(input, cap, ip, o, if t < 4 then t else 4)
    else Run(input, cap, 0, [], 0)
  }

  // ---------------------------------------------------------------------
  // The decompressor over an output buffer
  // ---------------------------------------------------------------------

  /** A helper's results agree with the step its specification takes. */
  predicate Agrees(s: Step, fail: Option<Status>, ip: nat, out: seq<byte>)
  {
    match s
    case Stop(st, o) => fail == Some(st) && o == out
    case Go(i, o) => fail == None && i == ip && o == out
  }

  /** Read a length extension: skip zero bytes, checking for input after each. */
  method ExtendLen(input: seq<byte>, ip: nat, base: nat) returns (e: Ext)
    requires ip < |input|
    ensures e == Extend(input, ip, base)
  {
    var p := ip;
    while input[p] == 0
      invariant ip <= p < |input|
      invariant Zeros(input, ip) == (p - ip) + Zeros(input, p)
      decreases |input| - p
    {
      p := p + 1;
      if |input| - p < 1 {
        return ExtOverrun;
      }
    }
    var n := p - ip;
    if n > MAX_255_COUNT {
      return ExtTooLong;
    }
    // (n << 8) - n in size_t, which is 255 * n (ShiftSubIs255Times)
    return ExtOk(255 * n + base + input[p], p + 1);
  }

  /** Decode the instruction at ip, as Parse describes it. */
  method ReadInstr(input: seq<byte>, ip: nat, op: nat, state: nat) returns (r: Instr)
    requires ip + 3 <= |input| && state <= 4
    ensures r == Parse(input, ip, op, state)
  {
    hide Extend;
    var t: int := input[ip];
    var p := ip + 1;
    if t < 16 {
      if state == 0 {
        if t == 0 {
          var e := ExtendLen(input, p, 15);
          match e
          case ExtOverrun => return Overrun;
          case ExtTooLong => return TooLong;
          case ExtOk(len, p2) => return Literal(len + 3, p2);
        }
        return Literal(t + 3, p);
      } else if state != 4 {
        var b: int := input[p];
        return Short(op - 1 - t / 4 - 4 * b, t % 4, p + 1);
      } else {
        var b: int := input[p];
        return Match(op - (1 + M2_MAX_OFFSET) - t / 4 - 4 * b, 3, t % 4, p + 1);
      }
    } else if t >= 64 {
      var b: int := input[p];
      return Match(op - 1 - (t / 4) % 8 - 8 * b, t / 32 - 1 + (3 - 1), t % 4, p + 1);
    } else if t >= 32 {
      var len := t % 32 + (3 - 1);
      if len == 2 {
        var e := ExtendLen(input, p, 31);
        match e
        case ExtOverrun => return Overrun;
        case ExtTooLong => return TooLong;
        case ExtOk(more, p2) =>
          if |input| - p2 < 2 {
            return Overrun;
          }
          len, p := len + more, p2;
      }
      var next := Le16(input, p);
      return Match(op - 1 - next / 4, len, next % 4, p + 2);
    } else {
      var far: int := op - (t / 8 % 2) * 0x4000;
      var len := t % 8 + (3 - 1);
      if len == 2 {
        var e := ExtendLen(input, p, 7);
        match e
        case ExtOverrun => return Overrun;
        case ExtTooLong => return TooLong;
        case ExtOk(more, p2) =>
          if |input| - p2 < 2 {
            return Overrun;
          }
          len, p := len + more, p2;
      }
      var next := Le16(input, p);
      var m := far - next / 4;
      if m == op {
        return End(len, p + 2);
      }
      return Match(m - 0x4000, len, next % 4, p + 2);
    }
  }

  /** Copy n input bytes from ip to the output at op. */
  method CopyInput(input: seq<byte>, out: array<byte>, ip: nat, op: nat, n: nat)
    requires ip + n <= |input| && op + n <= out.Length
    modifies out
    ensures out[..op + n] == old(out[..op]) + input[ip..ip + n]
    ensures forall i :: op + n <= i < out.Length ==> out[i] == old(out[i])
  {
    var k := 0;
    while k < n
      invariant 0 <= k <= n
      invariant out[..op + k] == old(out[..op]) + input[ip..ip + k]
      invariant forall i :: op + k <= i < out.Length ==> out[i] == old(out[i])
    {
      out[op + k] := input[ip + k];
      assert input[ip..ip + k + 1] == input[ip..ip + k] + [input[ip + k]];
      assert out[..op + k + 1] == out[..op + k] + [out[op + k]];
      k := k + 1;
    }
  }

  /** A literal run (copy_literal_run): check room for t bytes, then t input bytes and three of look-ahead. */
  method CopyLiteral(input: seq<byte>, out: array<byte>, ip: nat, op: nat, t: nat)
    returns (fail: Option<Status>, ip': nat, op': nat)
    requires ip <= |input| && op <= out.Length
    modifies out
    ensures op <= op' <= out.Length
    ensures Agrees(LiteralRun(input, out.Length, ip, old(out[..op]), t), fail, ip', out[..op'])
    ensures forall i :: op' <= i < out.Length ==> out[i] == old(out[i])
  {
    if out.Length - op < t {
      return Some(OutputOverrun), ip, op;
    }
    if |input| - ip < t + 3 {
      return Some(InputOverrun), ip, op;
    }
    CopyInput(input, out, ip, op, t);
    return None, ip + t, op + t;
  }

  /** The trailing literals after a match (match_next): input is checked before room. */
  method CopyNext(input: seq<byte>, out: array<byte>, ip: nat, op: nat, next: nat)
    returns (fail: Option<Status>, ip': nat, op': nat)
    requires ip <= |input| && op <= out.Length
    modifies out
    ensures op <= op' <= out.Length
    ensures Agrees(NextRun(input, out.Length, ip, old(out[..op]), next), fail, ip', out[..op'])
    ensures forall i :: op' <= i < out.Length ==> out[i] == old(out[i])
  {
    if |input| - ip < next + 3 {
      return Some(InputOverrun), ip, op;
    }
    if out.Length - op < next {
      return Some(OutputOverrun), ip, op;
    }
    CopyInput(input, out, ip, op, next);
    return None, ip + next, op + next;
  }

  /**
   * A match of t bytes from m: refused when m lies before the output or
   * there is no room; otherwise the first two bytes and then the rest are
   * copied one at a time (t is 2 for the short match and at least 3
   * otherwise, so the source's do-while and this loop agree).
   */
  method CopyMatch(out: array<byte>, op: nat, m: int, t: nat) returns (fail: Option<Status>, op': nat)
    requires m < op <= out.Length && 2 <= t
    modifies out
    ensures op <= op' <= out.Length
    ensures Agrees(MatchCopy(out.Length, 0, old(out[..op]), m, t), fail, 0, out[..op'])
    ensures forall i :: op' <= i < out.Length ==> out[i] == old(out[i])
  {
    if m < 0 {
      return Some(LookbehindOverrun), op;
    }
    if out.Length - op < t {
      return Some(OutputOverrun), op;
    }
    CopyBytes(out, op, m, t);
    return None, op + t;
  }

  /** The byte-by-byte copy of a match that has passed its checks. */
  method CopyBytes(out: array<byte>, op: nat, m: nat, t: nat)
    requires m < op && op + t <= out.Length
    modifies out
    ensures out[..op + t] == CopyBack(old(out[..op]), m, t)
    ensures forall i :: op + t <= i < out.Length ==> out[i] == old(out[i])
  {
    hide CopyBack;
    ghost var init := out[..op];
    var q, src := op, m;
    while q < op + t
      invariant op <= q <= op + t && src - m == q - op && src < q
      invariant CopyBack(init, m, t) == CopyBack(out[..q], src, op + t - q)
      invariant forall i :: q <= i < out.Length ==> out[i] == old(out[i])
    {
      CopyBackStep(out[..q], src, op + t - q);
      out[q] := out[src];
      assert out[..q + 1] == out[..q] + [out[src]];
      q, src := q + 1, src + 1;
    }
    CopyBackNone(out[..q], src);
  }

  /** One byte of a back-reference copy. */
  lemma CopyBackStep(out: seq<byte>, m: nat, t: nat)
    requires m < |out| && 0 < t
    ensures CopyBack(out, m, t) == CopyBack(out + [out[m]], m + 1, t - 1)
  {
  }

  /** A copy of no bytes leaves the output as it is. */
  lemma CopyBackNone(out: seq<byte>, m: nat)
    requires m < |out|
    ensures CopyBack(out, m, 0) == out
  {
  }

  /**
   * lzo1x_decompress_safe, byte-by-byte path: decompress input into out,
   * whose length is the capacity the caller passes in *out_len. It returns
   * the status and the value left in *out_len, and leaves in out exactly
   * the bytes Decode produces; the rest of out is untouched.
   */
  method DecompressSafe(input: seq<byte>, out: array<byte>) returns (status: Status, outLen: nat)
    modifies out
    ensures var r := Decode(input, out.Length);
      status == r.status && outLen == r.outLen && |r.out| <= out.Length && out[..|r.out|] == r.out
    ensures forall i :: |Decode(input, out.Length).out| <= i < out.Length ==> out[i] == old(out[i])
  {
    var cap := out.Length;
    if |input| < 3 {
      return InputOverrun, 0;
    }
    var ip: nat, op: nat, state: nat := 0, 0, 0;
    if input[0] > 17 {
      var t := input[0] - 17;
      var fail: Option<Status>;
      assert out[..0] == [];
      if t < 4 {
        fail, ip, op := CopyNext(input, out, 1, 0, t);
        state := t;
      } else {
        fail, ip, op := CopyLiteral(input, out, 1, 0, t);
        state := 4;
      }
      if fail.Some? {
        return fail.value, op;
      }
    }
    hide Run, Parse;
    while true
      invariant ip + 3 <= |input| && op <= cap && state <= 4
      invariant Run(input, cap, ip, out[..op], state) == Decode(input, cap)
      invariant forall i :: op <= i < cap ==> out[i] == old(out[i])
      decreases |input| - ip
    {
      var stop;
      stop, ip, op, state := LoopPass(input, out, ip, op, state);
      if stop.Some? {
        return stop.value.0, stop.value.1;
      }
    }
  }

  /**
   * One pass of the main loop from the instruction at ip: either the
   * decoder stops, with the status and *out_len that Run gives, or it goes
   * on from a later ip, and Run from there is Run from here.
   */
  method LoopPass(input: seq<byte>, out: array<byte>, ip: nat, op: nat, state: nat)
    returns (stop: Option<(Status, nat)>, ip': nat, op': nat, state': nat)
    requires ip + 3 <= |input| && op <= out.Length && state <= 4
    modifies out
    ensures op <= op' <= out.Length
    ensures forall i :: op' <= i < out.Length ==> out[i] == old(out[i])
    ensures stop.Some? ==>
      Run(input, out.Length, ip, old(out[..op]), state) == Outcome(stop.value.0, out[..op'], stop.value.1)
    ensures stop.None? ==>
      ip < ip' && ip' + 3 <= |input| && state' <= 4 &&
      Run(input, out.Length, ip, old(out[..op]), state) == Run(input, out.Length, ip', out[..op'], state')
  {
    hide Parse, CopyBack, LiteralRun, MatchThenNext;
    var cap := out.Length;
    var ins := ReadInstr(input, ip, op, state);
    stop, ip', op', state' := None, ip, op, state;
    match ins
    case Overrun =>
      return Some((InputOverrun, op)), ip, op, state;
    case TooLong =>
      // the source returns without storing *out_len
      return Some((Error, cap)), ip, op, state;
    case End(t, ip1) =>
      return Some((EndStatus(t, ip1, |input|), op)), ip, op, state;
    case Literal(t, ip1) =>
      var fail;
      fail, ip', op' := CopyLiteral(input, out, ip1, op, t);
      if fail.Some? {
        return Some((fail.value, op')), ip', op', state;
      }
      state' := 4;
    case Short(m, next, ip1) =>
      var fail;
      fail, ip', op' := MatchAndNext(input, out, ip1, op, m, 2, next);
      if fail.Some? {
        return Some((fail.value, op')), ip', op', state;
      }
      state' := next;
    case Match(m, t, next, ip1) =>
      var fail;
      fail, ip', op' := MatchAndNext(input, out, ip1, op, m, t, next);
      if fail.Some? {
        return Some((fail.value, op')), ip', op', state;
      }
      state' := next;
  }

  /** A match copy and then its trailing literals (match_next). */
  method MatchAndNext(input: seq<byte>, out: array<byte>, ip: nat, op: nat, m: int, t: nat, next: nat)
    returns (fail: Option<Status>, ip': nat, op': nat)
    requires ip <= |input| && m < op <= out.Length && 2 <= t
    modifies out
    ensures op <= op' <= out.Length
    ensures Agrees(MatchThenNext(input, out.Length, ip, old(out[..op]), m, t, next), fail, ip', out[..op'])
    ensures forall i :: op' <= i < out.Length ==> out[i] == old(out[i])
  {
    ghost var before := out[..op];
    var op1;
    fail, op1 := CopyMatch(out, op, m, t);
    assert MatchCopy(out.Length, ip, before, m, t).out == MatchCopy(out.Length, 0, before, m, t).out;
    if fail.Some? {
      return fail, ip, op1;
    }
    fail, ip', op' := CopyNext(input, out, ip, op1, next);
  }

  // ---------------------------------------------------------------------
  // Properties of the decoder
  // ---------------------------------------------------------------------

  /**
   * The decoder only appends to its output and never writes past the
   * capacity; *out_len is the length written, except after a run length
   * too long for a size_t, where the source returns before storing it and
   * it keeps the capacity the caller passed in.
   */
  lemma {:induction false} RunBounds(input: seq<byte>, cap: nat, ip: nat, out: seq<byte>, state: nat)
    requires ip + 3 <= |input| && |out| <= cap && state <= 4
    ensures var r := Run(input, cap, ip, out, state);
      |out| <= |r.out| <= cap && r.out[..|out|] == out &&
      (r.outLen == |r.out| || (r.status == Error && r.outLen == cap))
    decreases |input| - ip
  {
    hide Parse, LiteralRun, MatchThenNext;
    match Parse(input, ip, |out|, state)
    case Overrun =>
    case TooLong =>
    case End(_, _) =>
    case Literal(t, ip1) =>
      match LiteralRun(input, cap, ip1, out, t) {
      case Stop(_, _) =>
      case Go(ip2, o) =>
        RunBounds(input, cap, ip2, o, 4);
        assert Run(input, cap, ip2, o, 4).out[..|out|] == o[..|out|];
      }
    case Short(m, next, ip1) =>
      match MatchThenNext(input, cap, ip1, out, m, 2, next) {
      case Stop(_, _) =>
      case Go(ip2, o) =>
        RunBounds(input, cap, ip2, o, next);
        assert Run(input, cap, ip2, o, next).out[..|out|] == o[..|out|];
      }
    case Match(m, t, next, ip1) =>
      match MatchThenNext(input, cap, ip1, out, m, t, next) {
      case Stop(_, _) =>
      case Go(ip2, o) =>
        RunBounds(input, cap, ip2, o, next);
        assert Run(input, cap, ip2, o, next).out[..|out|] == o[..|out|];
      }
  }

  /**
   * The whole decoder keeps within the capacity, and an input too short to
   * hold the end marker is an input overrun with nothing written.
   */
  lemma DecodeBounds(input: seq<byte>, cap: nat)
    ensures var r := Decode(input, cap);
      |r.out| <= cap && (r.outLen == |r.out| || (r.status == Error && r.outLen == cap))
    ensures |input| < 3 ==> Decode(input, cap) == Outcome(InputOverrun, [], 0)
  {
    hide Run, LiteralRun, NextRun;
    if 3 <= |input| {
      if input[0] > 17 {
        var t := input[0] - 17;
        var s := if t < 4 then NextRun(input, cap, 1, [], t) else LiteralRun(input, cap, 1, [], t);
        if s.Go? {
          RunBounds(input, cap, s.ip, s.out, if t < 4 then t else 4);
        }
      } else {
        RunBounds(input, cap, 0, [], 0);
      }
    }
  }

  /** Every byte of s occurs somewhere in the compressed input. */
  predicate Drawn(s: seq<byte>, input: seq<byte>)
  {
    forall k :: 0 <= k < |s| ==> s[k] in input
  }

  lemma StepDrawn(input: seq<byte>, cap: nat, ip: nat, out: seq<byte>, m: int, t: nat, next: nat)
    requires ip <= |input| && m < |out| <= cap && Drawn(out, input)
    ensures Drawn(LiteralRun(input, cap, ip, out, t).out, input)
    ensures Drawn(NextRun(input, cap, ip, out, next).out, input)
    ensures Drawn(MatchThenNext(input, cap, ip, out, m, t, next).out, input)
  {
    var mc := MatchCopy(cap, ip, out, m, t);
    assert Drawn(mc.out, input) by {
      forall k | 0 <= k < |mc.out|
        ensures mc.out[k] in input
      {
        if k >= |out| {
          var j :| 0 <= j < |out| && out[j] == mc.out[k];
        } else {
          assert mc.out[k] == mc.out[..|out|][k];
        }
      }
    }
  }

  /**
   * Nothing is invented: every byte the decoder writes is a literal byte of
   * the input or a copy of a byte it wrote before, so it occurs in the input.
   */
  lemma {:induction false} RunDrawn(input: seq<byte>, cap: nat, ip: nat, out: seq<byte>, state: nat)
    requires ip + 3 <= |input| && |out| <= cap && state <= 4 && Drawn(out, input)
    ensures Drawn(Run(input, cap, ip, out, state).out, input)
    decreases |input| - ip
  {
    hide Parse, LiteralRun, MatchThenNext, NextRun, Drawn;
    match Parse(input, ip, |out|, state)
    case Overrun =>
    case TooLong =>
    case End(_, _) =>
    case Literal(t, ip1) =>
      StepDrawn(input, cap, ip1, out, -1, t, 0);
      match LiteralRun(input, cap, ip1, out, t) {
      case Stop(_, _) =>
      case Go(ip2, o) => RunDrawn(input, cap, ip2, o, 4);
      }
    case Short(m, next, ip1) =>
      StepDrawn(input, cap, ip1, out, m, 2, next);
      match MatchThenNext(input, cap, ip1, out, m, 2, next) {
      case Stop(_, _) =>
      case Go(ip2, o) => RunDrawn(input, cap, ip2, o, next);
      }
    case Match(m, t, next, ip1) =>
      StepDrawn(input, cap, ip1, out, m, t, next);
      match MatchThenNext(input, cap, ip1, out, m, t, next) {
      case Stop(_, _) =>
      case Go(ip2, o) => RunDrawn(input, cap, ip2, o, next);
      }
  }

  lemma DecodeDrawn(input: seq<byte>, cap: nat)
    ensures forall k :: 0 <= k < |Decode(input, cap).out| ==> Decode(input, cap).out[k] in input
  {
    hide Run, LiteralRun, NextRun;
    if 3 <= |input| {
      if input[0] > 17 {
        var t := input[0] - 17;
        StepDrawn(input, cap, 1, [], -1, t, t);
        var s := if t < 4 then NextRun(input, cap, 1, [], t) else LiteralRun(input, cap, 1, [], t);
        if s.Go? {
          RunDrawn(input, cap, s.ip, s.out, if t < 4 then t else 4);
        }
      } else {
        RunDrawn(input, cap, 0, [], 0);
      }
    }
  }

  /**
   * The only instruction that ends the stream with length 3 is the three
   * bytes 17, a byte below 4, 0: a far match with no distance.
   */
  lemma EndMarker(input: seq<byte>, ip: nat, op: nat, state: nat)
    requires ip + 3 <= |input| && state <= 4
    requires Parse(input, ip, op, state).End? && Parse(input, ip, op, state).t == 3
    ensures Parse(input, ip, op, state).ip == ip + 3
    ensures input[ip] == 17 && input[ip + 1] < 4 && input[ip + 2] == 0
  {
    var t: int := input[ip];
    assert 16 <= t < 32;
    assert t % 8 == 1;
    var far: int := op - (t / 8 % 2) * 0x4000;
    assert far - Le16(input, ip + 1) / 4 == op;
  }

  /**
   * A decode reports success only when the input ends with the end-of-stream
   * marker and that marker is reached exactly at the end of the input.
   */
  lemma {:induction false} RunOk(input: seq<byte>, cap: nat, ip: nat, out: seq<byte>, state: nat)
    requires ip + 3 <= |input| && |out| <= cap && state <= 4
    requires Run(input, cap, ip, out, state).status == Ok
    ensures input[|input| - 3] == 17 && input[|input| - 2] < 4 && input[|input| - 1] == 0
    decreases |input| - ip
  {
    hide Parse, LiteralRun, MatchThenNext;
    match Parse(input, ip, |out|, state)
    case End(t, ip1) =>
      EndMarker(input, ip, |out|, state);
    case Literal(t, ip1) =>
      match LiteralRun(input, cap, ip1, out, t) {
      case Go(ip2, o) => RunOk(input, cap, ip2, o, 4);
      }
    case Short(m, next, ip1) =>
      match MatchThenNext(input, cap, ip1, out, m, 2, next) {
      case Go(ip2, o) => RunOk(input, cap, ip2, o, next);
      }
    case Match(m, t, next, ip1) =>
      match MatchThenNext(input, cap, ip1, out, m, t, next) {
      case Go(ip2, o) => RunOk(input, cap, ip2, o, next);
      }
  }

  lemma DecodeOk(input: seq<byte>, cap: nat)
    requires Decode(input, cap).status == Ok
    ensures 3 <= |input| && input[|input| - 3] == 17 && input[|input| - 2] < 4 && input[|input| - 1] == 0
    ensures Decode(input, cap).outLen == |Decode(input, cap).out|
  {
    hide Run, LiteralRun, NextRun;
    DecodeBounds(input, cap);
    if input[0] > 17 {
      var t := input[0] - 17;
      var s := if t < 4 then NextRun(input, cap, 1, [], t) else LiteralRun(input, cap, 1, [], t);
      RunOk(input, cap, s.ip, s.out, if t < 4 then t else 4);
    } else {
      RunOk(input, cap, 0, [], 0);
    }
  }

  /**
   * A successful decode does not depend on the capacity beyond what it
   * needed: with a larger output buffer the result is the same.
   */
  lemma {:induction false} RunMoreRoom(input: seq<byte>, cap: nat, cap': nat, ip: nat, out: seq<byte>, state: nat)
    requires ip + 3 <= |input| && |out| <= cap <= cap' && state <= 4
    requires Run(input, cap, ip, out, state).status == Ok
    ensures Run(input, cap', ip, out, state) == Run(input, cap, ip, out, state)
    decreases |input| - ip
  {
    hide Parse;
    match Parse(input, ip, |out|, state)
    case End(t, ip1) =>
    case Literal(t, ip1) =>
      match LiteralRun(input, cap, ip1, out, t) {
      case Go(ip2, o) => RunMoreRoom(input, cap, cap', ip2, o, 4);
      }
    case Short(m, next, ip1) =>
      match MatchThenNext(input, cap, ip1, out, m, 2, next) {
      case Go(ip2, o) => RunMoreRoom(input, cap, cap', ip2, o, next);
      }
    case Match(m, t, next, ip1) =>
      match MatchThenNext(input, cap, ip1, out, m, t, next) {
      case Go(ip2, o) => RunMoreRoom(input, cap, cap', ip2, o, next);
      }
  }

  lemma DecodeMoreRoom(input: seq<byte>, cap: nat, cap': nat)
    requires cap <= cap' && Decode(input, cap).status == Ok
    ensures Decode(input, cap') == Decode(input, cap)
  {
    hide Run;
    if input[0] > 17 {
      var t := input[0] - 17;
      var s := if t < 4 then NextRun(input, cap, 1, [], t) else LiteralRun(input, cap, 1, [], t);
      RunMoreRoom(input, cap, cap', s.ip, s.out, if t < 4 then t else 4);
    } else {
      RunMoreRoom(input, cap, cap', 0, [], 0);
    }
  }

  /**
   * A stream made of one literal run of 4 to 238 bytes (announced by its
   * first byte) and the end marker decodes to those bytes when they fit,
   * and is an output overrun with nothing written when they do not.
   */
  lemma LiteralRoundTrip(data: seq<byte>, cap: nat)
    requires 4 <= |data| <= 238
    ensures var r := Decode([17 + |data|] + data + [17, 0, 0], cap);
      if |data| <= cap then r == Outcome(Ok, data, |data|)
      else r == Outcome(OutputOverrun, [], 0)
  {
    var n := |data|;
    var input: seq<byte> := [17 + n] + data + [17, 0, 0];
    assert input[1..1 + n] == data;
    if n <= cap {
      assert LiteralRun(input, cap, 1, [], n) == Go(1 + n, data);
      assert input[n + 1] == 17 && input[n + 2] == 0 && input[n + 3] == 0;
      assert Parse(input, n + 1, n, 4) == End(3, n + 4);
    }
  }

  /** The stream of OverlappingMatch: a four-byte literal run, a match one byte back, the end marker. */
  function OverlapStream(w: byte, x: byte, y: byte, z: byte): seq<byte>
  {
    [21, w, x, y, z, 64, 0, 17, 0, 0]
  }

  lemma OverlapParse(w: byte, x: byte, y: byte, z: byte)
    ensures Parse(OverlapStream(w, x, y, z), 5, 4, 4) == Match(3, 3, 0, 7)
    ensures Parse(OverlapStream(w, x, y, z), 7, 7, 0) == End(3, 10)
  {
  }

  lemma OverlapCopy(w: byte, x: byte, y: byte, z: byte, cap: nat)
    requires 7 <= cap
    ensures MatchThenNext(OverlapStream(w, x, y, z), cap, 7, [w, x, y, z], 3, 3, 0) == Go(7, [w, x, y, z, z, z, z])
  {
    var all := [w, x, y, z, z, z, z];
    assert CopyBack([w, x, y, z], 3, 3) == all;
    assert OverlapStream(w, x, y, z)[7..7] == [] && all + [] == all;
  }

  /**
   * A match one byte back overlaps the bytes it produces: after the literal
   * run w, x, y, z the opcode 64 with distance byte 0 copies three bytes
   * from the last one, repeating z.
   */
  lemma OverlappingMatch(w: byte, x: byte, y: byte, z: byte, cap: nat)
    requires 7 <= cap
    ensures Decode(OverlapStream(w, x, y, z), cap) == Outcome(Ok, [w, x, y, z, z, z, z], 7)
  {
    var input := OverlapStream(w, x, y, z);
    var lit := [w, x, y, z];
    var all := [w, x, y, z, z, z, z];
    OverlapParse(w, x, y, z);
    OverlapCopy(w, x, y, z, cap);
    hide Parse, MatchThenNext, CopyBack, OverlapStream;
    assert input[1..5] == lit;
    assert LiteralRun(input, cap, 1, [], 4) == Go(5, lit);
    assert Run(input, cap, 7, all, 0) == Outcome(Ok, all, 7);
  }
}
