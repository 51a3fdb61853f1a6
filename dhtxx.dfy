/**
 * The DHT11/DHT22 acquisition engine (src/dhtxx.c, `dhtxx_get`).
 *
 * The sensor line is seen only through successive reads of the pin's level:
 * `level(k)` is what the k-th read after switching the pin to input returns
 * (true = high). Every polling loop of the source consumes reads from that
 * stream, one per iteration, as the source does. Physical values are exact
 * integers in tenths (of %RH and of degrees Celsius) instead of floats.
 *
 * Each loop of the source is a method here, proved against a function that
 * states its result; the lemmas then say what those functions mean.
 */
module Dhtxx {
  import opened Results
  import Gpio

  /** Ceiling on the ticks of every polling loop (DHTXX_TICK_MAX). */
  const TickMax: nat := 32000

  /** One start pulse followed by 40 data bits. */
  const PulseCount: nat := 41
  const DataBits: nat := 40
  const FrameBytes: nat := 5

  /** The sensor types as the C enumeration numbers them. */
  const TypeDht11: int := 0
  const TypeDht22: int := 1

  datatype Variant = Dht11 | Dht22

  /** Why an acquisition failed; `Code` is the value `dhtxx_get` returns. */
  datatype Error =
    | InvalidArguments
    | MappingFailed
    | NoResponse
    | AssertTimeout(bit: nat)
    | DeassertTimeout(bit: nat)
    | ChecksumMismatch
    | HumidityOutOfRange(humidity: int)
    | TemperatureOutOfRange(temperature: int)
  {
    /** The distinct codes keep the failure kinds apart: 1 to 8 in the order of the
        steps that can fail. */
    function Code(): (c: int)
      ensures 1 <= c <= 8
      ensures c == 1 <==> InvalidArguments?
      ensures c == 2 <==> MappingFailed?
      ensures c == 3 <==> NoResponse?
      ensures c == 4 <==> AssertTimeout?
      ensures c == 5 <==> DeassertTimeout?
      ensures c == 6 <==> ChecksumMismatch?
      ensures c == 7 <==> HumidityOutOfRange?
      ensures c == 8 <==> TemperatureOutOfRange?
    {
      match this
      case InvalidArguments => 1
      case MappingFailed => 2
      case NoResponse => 3
      case AssertTimeout(_) => 4
      case DeassertTimeout(_) => 5
      case ChecksumMismatch => 6
      case HumidityOutOfRange(_) => 7
      case TemperatureOutOfRange(_) => 8
    }
  }

  /** A reading in tenths: `humidity` of %RH, `temperature` of degrees Celsius. */
  datatype Reading = Reading(humidity: int, temperature: int)

  /** The value `dhtxx_get` returns for an outcome. */
  function ReturnCode(res: Result<Reading, Error>): int {
    match res
    case Ok(_) => 0
    case Err(e) => e.Code()
  }

  // ---------------------------------------------------------------------------
  // Polling: counting reads of one level.
  // ---------------------------------------------------------------------------

  /** Polling with read `q` next and `c` reads of level `want` already counted: the
      count when a read returns the other level, capped at the tick ceiling. A result
      of `TickMax` means the ceiling was reached first. */
  function Run(level: nat -> bool, q: nat, want: bool, c: nat): (r: nat)
    requires c < TickMax
    decreases TickMax - c
    ensures c <= r <= TickMax
  {
    if level(q) != want then c
    else if c + 1 >= TickMax then TickMax
    else Run(level, q + 1, want, c + 1)
  }

  /** A run ends at the first read of the other level: every read before it returns
      `want`, the read that ends it does not, and it reaches the ceiling exactly when
      all the reads up to the ceiling return `want`. */
  lemma {:induction false} RunMeaning(level: nat -> bool, q: nat, want: bool, c: nat)
    requires c < TickMax
    decreases TickMax - c
    ensures forall j: nat :: q <= j < q + (Run(level, q, want, c) - c) ==> level(j) == want
    ensures Run(level, q, want, c) < TickMax ==> level(q + (Run(level, q, want, c) - c)) != want
    ensures Run(level, q, want, c) == TickMax <==> forall j: nat :: q <= j < q + (TickMax - c) ==> level(j) == want
  {
    if level(q) == want && c + 1 < TickMax {
      RunMeaning(level, q + 1, want, c + 1);
    }
  }

  /** Step 3 of the source: wait for the sensor to pull the line low. On success `used`
      is the number of reads made, the last of them low. At most `TickMax` reads are
      made, and the wait fails exactly when the first `TickMax` reads are all high. */
  method WaitForDeassert(level: nat -> bool) returns (ok: bool, used: nat)
    ensures used <= TickMax
    ensures ok <==> Run(level, 0, true, 0) < TickMax
    ensures !ok <==> forall j :: 0 <= j < TickMax ==> level(j)
    ensures ok ==> used == Run(level, 0, true, 0) + 1 && !level(used - 1)
  {
    var i: nat := 0;
    while true
      invariant i <= TickMax
      invariant forall j :: 0 <= j < i ==> level(j)
      invariant i < TickMax ==> Run(level, 0, true, 0) == Run(level, i, true, i)
      decreases TickMax - i
    {
      if i >= TickMax {
        RunMeaning(level, 0, true, 0);
        return false, i;
      }
      var value := level(i);
      if !value {
        return true, i + 1;
      }
      i := i + 1;
    }
  }

  // ---------------------------------------------------------------------------
  // Step 4: recording the 41 pulses.
  // ---------------------------------------------------------------------------

  /** What the capture loop produces: both tick tables and the index of the next read,
      or the pulse at which the line stayed low (`LowTooLong`) or high (`HighTooLong`)
      for the whole tick ceiling. */
  datatype Capture =
    | Captured(low: seq<nat>, high: seq<nat>, next: nat)
    | LowTooLong(bit: nat)
    | HighTooLong(bit: nat)

  /** One pulse read from `p` on: the low count, then the high count from the read after
      the low phase ended, and the index of the read after the high phase ended; or the
      phase that reached the ceiling. */
  datatype Pulse = Pulse(low: nat, high: nat, next: nat) | LowStuck | HighStuck

  function PulseAt(level: nat -> bool, p: nat): (r: Pulse)
    ensures r.Pulse? ==> r.low < TickMax && r.high < TickMax && r.next == p + r.low + r.high + 2
  {
    var l := Run(level, p, false, 0);
    if l >= TickMax then LowStuck
    else
      var h := Run(level, p + l + 1, true, 0);
      if h >= TickMax then HighStuck
      else Pulse(l, h, p + l + 1 + h + 1)
  }

  /** The capture of pulses `i..40`, starting at read `p`, given the counts of the pulses
      before `i`. */
  function CaptureFrom(level: nat -> bool, p: nat, i: nat, low: seq<nat>, high: seq<nat>): (c: Capture)
    requires i <= PulseCount && |low| == i && |high| == i
    decreases PulseCount - i
    ensures c.Captured? ==> |c.low| == PulseCount && |c.high| == PulseCount
    ensures c.LowTooLong? ==> i <= c.bit < PulseCount
    ensures c.HighTooLong? ==> i <= c.bit < PulseCount
  {
    if i == PulseCount then Captured(low, high, p)
    else
      match PulseAt(level, p)
      case LowStuck => LowTooLong(i)
      case HighStuck => HighTooLong(i)
      case Pulse(l, h, q) => CaptureFrom(level, q, i + 1, low + [l], high + [h])
  }

  /** Every count of a completed capture is below the ceiling. */
  lemma {:induction false} CaptureBounds(level: nat -> bool, p: nat, i: nat, low: seq<nat>, high: seq<nat>)
    requires i <= PulseCount && |low| == i && |high| == i
    requires forall k :: 0 <= k < i ==> low[k] < TickMax && high[k] < TickMax
    decreases PulseCount - i
    ensures var c := CaptureFrom(level, p, i, low, high);
            c.Captured? ==> forall k :: 0 <= k < PulseCount ==> c.low[k] < TickMax && c.high[k] < TickMax
  {
    if i < PulseCount {
      var u := PulseAt(level, p);
      if u.Pulse? {
        CaptureBounds(level, u.next, i + 1, low + [u.low], high + [u.high]);
      }
    }
  }

  /** One phase of a pulse, one `while (1)` loop of the source: read from `t` on until a
      read returns the other level, incrementing the zeroed table entry `table[i]` for
      each read that returns `want`, and give up when the entry reaches the ceiling. A
      phase that ends below the ceiling has made `table[i] + 1` reads. */
  method CountPhase(level: nat -> bool, t: nat, want: bool, table: array<nat>, i: nat)
    requires i < table.Length && table[i] == 0
    modifies table
    ensures table[i] == Run(level, t, want, 0)
    ensures forall k :: 0 <= k < table.Length && k != i ==> table[k] == old(table[k])
  {
    var next := t;
    ghost var count: nat := 0;
    while true
      invariant table[i] == count < TickMax && next == t + count
      invariant Run(level, t, want, 0) == Run(level, next, want, count)
      invariant forall k :: 0 <= k < table.Length && k != i ==> table[k] == old(table[k])
      decreases TickMax - count
    {
      var value := level(next);
      next := next + 1;
      if value != want {
        return;
      }
      table[i] := table[i] + 1;
      count := count + 1;
      if table[i] >= TickMax {
        return;
      }
    }
  }

  /** One pulse, the two `while (1)` loops of one round of the source's capture loop:
      the low phase from read `t` into `low[i]`, then the high phase from the read after
      it ended into `high[i]`. */
  method ReadPulse(level: nat -> bool, t: nat, low: array<nat>, high: array<nat>, i: nat) returns (r: Pulse)
    requires low != high && i < low.Length && i < high.Length && low[i] == 0 && high[i] == 0
    modifies low, high
    ensures r == PulseAt(level, t)
    ensures r.Pulse? ==> low[i] == r.low && high[i] == r.high
    ensures forall k :: 0 <= k < low.Length && k != i ==> low[k] == old(low[k])
    ensures forall k :: 0 <= k < high.Length && k != i ==> high[k] == old(high[k])
  {
    // count ticks until the sensor asserts the line
    CountPhase(level, t, false, low, i);
    var l := low[i];
    if l >= TickMax {
      return LowStuck;
    }
    // count ticks until the sensor de-asserts the line
    CountPhase(level, t + l + 1, true, high, i);
    var h := high[i];
    if h >= TickMax {
      return HighStuck;
    }
    return Pulse(l, h, t + l + 1 + h + 1);
  }

  /** Pulses `i..n-1` read back to back: pulse `k` starts at `pos[k]` and ends just
      before `pos[k + 1]`, with the counts `lows[k]` and `highs[k]`. */
  ghost predicate Chained(level: nat -> bool, pos: seq<nat>, lows: seq<nat>, highs: seq<nat>, i: nat)
  {
    && |lows| == |highs| && |pos| == |lows| + 1 && i <= |lows|
    && forall k :: i <= k < |lows| ==> PulseAt(level, pos[k]) == Pulse(lows[k], highs[k], pos[k + 1])
  }

  /** A chain of completed pulses can be replayed by the capture. */
  lemma {:induction false} CaptureChained(level: nat -> bool, pos: seq<nat>, lows: seq<nat>, highs: seq<nat>, i: nat)
    requires |lows| <= PulseCount && Chained(level, pos, lows, highs, i)
    decreases |lows| - i
    ensures CaptureFrom(level, pos[i], i, lows[..i], highs[..i])
         == CaptureFrom(level, pos[|lows|], |lows|, lows, highs)
  {
    if i < |lows| {
      assert lows[..i + 1] == lows[..i] + [lows[i]] && highs[..i + 1] == highs[..i] + [highs[i]];
      CaptureChained(level, pos, lows, highs, i + 1);
    } else {
      assert lows[..i] == lows && highs[..i] == highs;
    }
  }

  /** The source's capture loop: for each of the 41 pulses, count reads while the line is
      low, then while it is high, giving up with the pulse's index when a count reaches
      the ceiling. The tables start zeroed, as after `memset`. */
  method RecordPulses(level: nat -> bool, start: nat) returns (c: Capture)
    ensures c == CaptureFrom(level, start, 0, [], [])
    ensures c.Captured? ==> forall k :: 0 <= k < PulseCount ==> c.low[k] < TickMax && c.high[k] < TickMax
  {
    var low := new nat[PulseCount](_ => 0);
    var high := new nat[PulseCount](_ => 0);
    var t := start;
    var i := 0;
    ghost var pos: seq<nat>, lows: seq<nat>, highs: seq<nat> := [start], [], [];
    while i < PulseCount
      invariant i <= PulseCount && |lows| == i && |highs| == i && |pos| == i + 1
      invariant pos[0] == start && pos[i] == t
      invariant low[..i] == lows && high[..i] == highs
      invariant forall k :: i <= k < PulseCount ==> low[k] == 0 && high[k] == 0
      invariant Chained(level, pos, lows, highs, 0)
    {
      var pulse := ReadPulse(level, t, low, high, i);
      if !pulse.Pulse? {
        CaptureChained(level, pos, lows, highs, 0);
        return if pulse.LowStuck? then LowTooLong(i) else HighTooLong(i);
      }
      lows, highs, pos := lows + [pulse.low], highs + [pulse.high], pos + [pulse.next];
      t, i := pulse.next, i + 1;
    }
    assert low[..] == lows && high[..] == highs;
    CaptureChained(level, pos, lows, highs, 0);
    CaptureBounds(level, start, 0, [], []);
    return Captured(low[..], high[..], t);
  }

  // ---------------------------------------------------------------------------
  // Decoding: the low-tick average and the 40 bits.
  // ---------------------------------------------------------------------------

  /** The sum of a sequence, added up from the front as the source's loop does. */
  function Sum(s: seq<nat>): nat {
    if s == [] then 0 else Sum(s[..|s| - 1]) + s[|s| - 1]
  }

  /** Every sequence of counts below the ceiling sums to less than that many ceilings. */
  lemma {:induction false} SumBelow(s: seq<nat>)
    requires forall k :: 0 <= k < |s| ==> s[k] < TickMax
    ensures Sum(s) <= |s| * (TickMax - 1)
  {
    if s != [] {
      SumBelow(s[..|s| - 1]);
    }
  }

  /** The average low count over the 40 data pulses, truncated; pulse 0 (the start
      pulse) is left out. */
  function AverageLow(low: seq<nat>): nat
    requires |low| == PulseCount
  {
    Sum(low[1..]) / DataBits
  }

  /** The source's averaging loop, on a 32-bit unsigned accumulator: the accumulator
      never wraps, so the result is the truncated average, below the tick ceiling. */
  method AverageLowTicks(low: seq<nat>) returns (avg: nat)
    requires |low| == PulseCount
    requires forall k :: 0 <= k < |low| ==> low[k] < TickMax
    ensures avg == AverageLow(low)
    ensures avg * DataBits <= Sum(low[1..]) < (avg + 1) * DataBits
    ensures avg < TickMax
  {
    var total: nat := 0;
    for i := 0 to DataBits
      invariant total == Sum(low[1..i + 1])
    {
      ghost var prefix := low[1..i + 2];
      assert |prefix| == i + 1;
      assert prefix[..i] == low[1..i + 1];
      assert prefix[i] == low[i + 1];
      SumBelow(prefix);
      total := (total + low[i + 1]) % 0x1_0000_0000;
    }
    assert low[1..DataBits + 1] == low[1..];
    SumBelow(low[1..]);
    avg := total / DataBits;
  }

  /** 2 to the power `k`. */
  function Pow2(k: nat): (r: nat)
    ensures r >= 1
  {
    if k == 0 then 1 else 2 * Pow2(k - 1)
  }

  /** The places below bit 7 are worth at most 128. */
  lemma {:induction false} Pow2Byte(j: nat)
    requires j < 8
    decreases 8 - j
    ensures Pow2(j) <= 128
  {
    if j < 7 {
      Pow2Byte(j + 1);
    } else {
      assert Pow2(7) == 128;
    }
  }

  /** `d >> k` on naturals. */
  function Shr(d: nat, k: nat): nat {
    if k == 0 then d else Shr(d / 2, k - 1)
  }

  /** Whether bit `k` of `d` is set, `(d >> k) & 1`. */
  predicate BitSet(d: nat, k: nat) {
    Shr(d, k) % 2 == 1
  }

  /** The number whose binary digits, most significant first, are `bits`: the value the
      source builds by shifting each bit in with `(x << 1) | bit`. */
  function PackMsb(bits: seq<bool>): (r: nat)
    ensures r < Pow2(|bits|)
  {
    if bits == [] then 0
    else 2 * PackMsb(bits[..|bits| - 1]) + (if bits[|bits| - 1] then 1 else 0)
  }

  /** Packing one more bit doubles the value so far and adds the bit. */
  lemma PackMsbSnoc(bits: seq<bool>, j: nat)
    requires j < |bits|
    ensures PackMsb(bits[..j + 1]) == 2 * PackMsb(bits[..j]) + (if bits[j] then 1 else 0)
  {
    assert bits[..j + 1][..j] == bits[..j];
  }

  /** Bit `|bits| - 1 - j` of the packed number is `bits[j]`: the first bit lands in the
      most significant place. */
  lemma {:induction false} PackMsbBit(bits: seq<bool>, j: nat)
    requires j < |bits|
    ensures BitSet(PackMsb(bits), |bits| - 1 - j) == bits[j]
  {
    var n := |bits|;
    var init := bits[..n - 1];
    var b := if bits[n - 1] then 1 else 0;
    assert PackMsb(bits) == 2 * PackMsb(init) + b;
    ShiftIn(PackMsb(init), b, n - 2 - j);
    if j < n - 1 {
      PackMsbBit(init, j);
    }
  }

  /** Shifting bit `b` in at the bottom moves every other bit up by one place. */
  lemma ShiftIn(p: nat, b: nat, k: int)
    requires b < 2
    ensures Shr(2 * p + b, 0) % 2 == b
    ensures k >= 0 ==> Shr(2 * p + b, k + 1) == Shr(p, k)
  {
    assert (2 * p + b) / 2 == p;
  }

  lemma {:induction false} ShrStep(d: nat, k: nat)
    ensures Shr(d, k + 1) == Shr(d, k) / 2
  {
    if k > 0 {
      ShrStep(d / 2, k - 1);
    }
  }

  lemma {:induction false} ShrBeyond(d: nat, k: nat)
    requires d < Pow2(k)
    ensures Shr(d, k) == 0
  {
    if k > 0 {
      ShrBeyond(d / 2, k - 1);
    }
  }

  /** The eight bits of a byte, most significant first. */
  function BitsOf(b: nat): (bits: seq<bool>)
    ensures |bits| == 8
  {
    seq(8, j requires 0 <= j < 8 => BitSet(b, 7 - j))
  }

  lemma {:induction false} PackMsbPrefix(b: nat, n: nat)
    requires b < 256 && n <= 8
    ensures PackMsb(BitsOf(b)[..n]) == Shr(b, 8 - n)
  {
    if n == 0 {
      assert Pow2(8) == 256;
      ShrBeyond(b, 8);
    } else {
      var bits := BitsOf(b);
      PackMsbPrefix(b, n - 1);
      assert bits[..n][..n - 1] == bits[..n - 1];
      ShrStep(b, 8 - n);
    }
  }

  /** Packing a byte's own bits gives the byte back. */
  lemma PackMsbOfBitsOf(b: nat)
    requires b < 256
    ensures PackMsb(BitsOf(b)) == b
  {
    PackMsbPrefix(b, 8);
    assert BitsOf(b)[..8] == BitsOf(b);
  }

  /** Data bit `k` (0..39, pulse `k + 1`) is 1 when its high count reaches the average. */
  predicate DataBit(high: seq<nat>, avg: nat, k: nat)
    requires |high| == PulseCount && k < DataBits
  {
    high[k + 1] >= avg
  }

  /** The eight data bits of byte `i`, most significant first. */
  function ByteBits(high: seq<nat>, avg: nat, i: nat): (bits: seq<bool>)
    requires |high| == PulseCount && i < FrameBytes
    ensures |bits| == 8
  {
    seq(8, j requires 0 <= j < 8 => DataBit(high, avg, i * 8 + j))
  }

  /** Five bytes, each a byte value. */
  predicate IsFrame(data: seq<nat>) {
    |data| == FrameBytes && forall i :: 0 <= i < FrameBytes ==> data[i] < 256
  }

  /** Byte `i` of the decoded frame: it packs data bits `8i .. 8i+7`. */
  function FrameByte(high: seq<nat>, avg: nat, i: nat): (b: nat)
    requires |high| == PulseCount && i < FrameBytes
    ensures b < 256
  {
    assert Pow2(8) == 256;
    PackMsb(ByteBits(high, avg, i))
  }

  /** The decoded frame. */
  function Frame(high: seq<nat>, avg: nat): (data: seq<nat>)
    requires |high| == PulseCount
    ensures IsFrame(data)
    ensures forall i :: 0 <= i < FrameBytes ==> data[i] == FrameByte(high, avg, i)
  {
    [FrameByte(high, avg, 0), FrameByte(high, avg, 1), FrameByte(high, avg, 2),
     FrameByte(high, avg, 3), FrameByte(high, avg, 4)]
  }

  /** Bit `7 - j` of byte `i` is set exactly when the high count of pulse `8i + j + 1`
      reaches the average. */
  lemma FrameBit(high: seq<nat>, avg: nat, i: nat, j: nat)
    requires |high| == PulseCount && i < FrameBytes && j < 8
    ensures BitSet(Frame(high, avg)[i], 7 - j) <==> high[i * 8 + j + 1] >= avg
  {
    PackMsbBit(ByteBits(high, avg, i), j);
  }

  /** A high-count table that encodes `data` the way the sensor does: pulse `k + 1`
      is `long` when data bit `k` (most significant bit of byte 0 first) is 1 and
      `short` when it is 0; the start pulse is left at 0. */
  function PulseTable(data: seq<nat>, short: nat, long: nat): (high: seq<nat>)
    requires IsFrame(data)
    ensures |high| == PulseCount
  {
    seq(PulseCount, k requires 0 <= k < PulseCount =>
      if k == 0 then 0 else if BitSet(data[(k - 1) / 8], 7 - (k - 1) % 8) then long else short)
  }

  /** Decoding inverts the sensor's encoding: whenever the average lies above the short
      pulses and at or below the long ones, the frame read back is `data`. */
  lemma FrameOfPulseTable(data: seq<nat>, short: nat, long: nat, avg: nat)
    requires IsFrame(data) && short < avg <= long
    ensures Frame(PulseTable(data, short, long), avg) == data
  {
    var high := PulseTable(data, short, long);
    forall i | 0 <= i < FrameBytes
      ensures FrameByte(high, avg, i) == data[i]
    {
      forall j | 0 <= j < 8
        ensures ByteBits(high, avg, i)[j] == BitsOf(data[i])[j]
      {
        var k := i * 8 + j + 1;
        assert (k - 1) / 8 == i && (k - 1) % 8 == j;
        assert high[k] == if BitSet(data[i], 7 - j) then long else short;
        assert ByteBits(high, avg, i)[j] == DataBit(high, avg, i * 8 + j);
        assert BitsOf(data[i])[j] == BitSet(data[i], 7 - j);
      }
      assert ByteBits(high, avg, i) == BitsOf(data[i]);
      PackMsbOfBitsOf(data[i]);
    }
  }

  /** One round of the source's inner packing loop: the eight `uint8_t` stores
      `data[i] = (data[i] << 1) | bit` into a zeroed byte, which never drop a bit. */
  method ShiftInByte(d: array<nat>, high: seq<nat>, avg: nat, i: nat)
    requires |high| == PulseCount && i < FrameBytes && i < d.Length && d[i] == 0
    modifies d
    ensures d[i] == FrameByte(high, avg, i)
    ensures forall k :: 0 <= k < d.Length && k != i ==> d[k] == old(d[k])
  {
    ghost var bits := ByteBits(high, avg, i);
    for j := 0 to 8
      invariant d[i] == PackMsb(bits[..j])
      invariant forall k :: 0 <= k < d.Length && k != i ==> d[k] == old(d[k])
    {
      var bit := if high[(i * 8) + j + 1] >= avg then 1 else 0;
      PackMsbSnoc(bits, j);
      Pow2Byte(j);
      assert bits[j] <==> bit == 1;
      var shifted := d[i] * 2 + bit;
      assert shifted == PackMsb(bits[..j + 1]);
      ByteFits(shifted);
      d[i] := shifted % 256;
    }
    assert bits[..8] == bits;
  }

  /** A value below 256 survives a `uint8_t` store. */
  lemma ByteFits(x: nat)
    requires x < 256
    ensures x % 256 == x
  {
  }

  /** The source's nested packing loop over a zeroed 5-byte buffer. */
  method PackBytes(high: seq<nat>, avg: nat) returns (data: seq<nat>)
    requires |high| == PulseCount
    ensures data == Frame(high, avg)
  {
    var d := new nat[FrameBytes](_ => 0);
    for i := 0 to FrameBytes
      invariant forall k :: 0 <= k < i ==> d[k] == FrameByte(high, avg, k)
      invariant forall k :: i <= k < FrameBytes ==> d[k] == 0
    {
      ShiftInByte(d, high, avg, i);
    }
    data := d[..];
    assert forall k :: 0 <= k < FrameBytes ==> data[k] == Frame(high, avg)[k];
  }

  // ---------------------------------------------------------------------------
  // Checksum, conversion, ranges.
  // ---------------------------------------------------------------------------

  /** The fifth byte is the low eight bits of the sum of the first four (`& 0xff` on a
      non-negative sum is `% 256`): the sum of the four bytes less the fifth is a multiple
      of 256. */
  predicate ChecksumOk(data: seq<nat>): (ok: bool)
    requires IsFrame(data)
    ensures ok <==> ((data[0] + data[1] + data[2] + data[3]) as int - data[4]) % 256 == 0
  {
    LowByteCongruent(data[0] + data[1] + data[2] + data[3], data[4]);
    data[4] == (data[0] + data[1] + data[2] + data[3]) % 256
  }

  /** A byte is the low eight bits of `x` exactly when `x` less the byte is a multiple
      of 256. */
  lemma LowByteCongruent(x: nat, c: nat)
    requires c < 256
    ensures c == x % 256 <==> (x - c) % 256 == 0
  {
    if c == x % 256 {
      assert x - c == 256 * (x / 256);
    }
    if (x - c) % 256 == 0 {
      var k := (x - c) / 256;
      assert x == 256 * k + c;
    }
  }

  /** For any four leading bytes exactly one checksum byte passes. */
  lemma ChecksumSelectsOneByte(prefix: seq<nat>, c: nat)
    requires IsFrame(prefix + [c])
    ensures ChecksumOk(prefix + [c]) <==> c == (prefix[0] + prefix[1] + prefix[2] + prefix[3]) % 256
  {
  }

  function Abs(x: int): nat {
    if x < 0 then -x else x
  }

  /** The reading a frame encodes: DHT11 sends whole and tenths bytes, DHT22 sends
      16-bit tenths, with the temperature's sign in bit 7 of byte 2. */
  function Convert(v: Variant, data: seq<nat>): (r: Reading)
    requires IsFrame(data)
    ensures v == Dht11 ==> r.humidity / 10 == data[0] + data[1] / 10 && r.humidity % 10 == data[1] % 10
    ensures v == Dht11 ==> r.temperature / 10 == data[2] + data[3] / 10 && r.temperature % 10 == data[3] % 10
    ensures v == Dht22 ==> 0 <= r.humidity < 65536 && Abs(r.temperature) < 32768
    ensures v == Dht22 ==> (r.temperature < 0 ==> data[2] >= 128) && (data[2] < 128 ==> r.temperature >= 0)
  {
    match v
    case Dht11 =>
      Reading(10 * data[0] + data[1], 10 * data[2] + data[3])
    case Dht22 =>
      var magnitude: int := (data[2] % 128) * 256 + data[3];
      Reading(data[0] * 256 + data[1], if data[2] >= 128 then -magnitude else magnitude)
  }

  /** The checksum byte for four leading bytes. */
  function ChecksumOf(b0: nat, b1: nat, b2: nat, b3: nat): nat {
    (b0 + b1 + b2 + b3) % 256
  }

  /** The frame a DHT22 sends for a reading it can represent. */
  function Dht22Frame(r: Reading): (data: seq<nat>)
    requires 0 <= r.humidity < 65536 && Abs(r.temperature) < 32768
    ensures IsFrame(data)
  {
    var t := Abs(r.temperature);
    var b2 := (if r.temperature < 0 then 128 else 0) + t / 256;
    [r.humidity / 256, r.humidity % 256, b2, t % 256,
     ChecksumOf(r.humidity / 256, r.humidity % 256, b2, t % 256)]
  }

  /** Every DHT22 reading survives being sent and decoded. */
  lemma Dht22RoundTrip(r: Reading)
    requires 0 <= r.humidity < 65536 && Abs(r.temperature) < 32768
    ensures ChecksumOk(Dht22Frame(r))
    ensures Convert(Dht22, Dht22Frame(r)) == r
  {
  }

  /** Every valid DHT22 frame is the frame of its reading, except the "negative zero"
      frames (sign bit set, magnitude 0), which decode like positive zero. */
  lemma Dht22FrameOfConvert(data: seq<nat>)
    requires IsFrame(data) && ChecksumOk(data)
    requires !(data[2] == 128 && data[3] == 0)
    ensures Dht22Frame(Convert(Dht22, data)) == data
  {
    var r := Convert(Dht22, data);
    SplitBytes(data[0], data[1]);
    SplitBytes(data[2] % 128, data[3]);
    assert Abs(r.temperature) == (data[2] % 128) * 256 + data[3];
    assert (if r.temperature < 0 then 128 else 0) + (data[2] % 128) == data[2];
  }

  /** The "negative zero" DHT22 frame (sign bit set, magnitude 0) decodes to the same
      temperature as with the sign bit clear: zero. */
  lemma Dht22NegativeZero(data: seq<nat>)
    requires IsFrame(data) && data[2] == 128 && data[3] == 0
    ensures Convert(Dht22, data).temperature == 0
    ensures Convert(Dht22, data) == Convert(Dht22, data[2 := 0])
  {
  }

  /** A 16-bit value splits back into its high and low bytes. */
  lemma SplitBytes(hi: nat, lo: nat)
    requires lo < 256
    ensures (hi * 256 + lo) / 256 == hi && (hi * 256 + lo) % 256 == lo
  {
  }

  /** The frame a DHT11 sends for a reading held to whole and tenths digits. */
  function Dht11Frame(r: Reading): (data: seq<nat>)
    requires 0 <= r.humidity < 2560 && 0 <= r.temperature < 2560
    ensures IsFrame(data)
  {
    var h0, h1, t0, t1 := r.humidity / 10, r.humidity % 10, r.temperature / 10, r.temperature % 10;
    [h0, h1, t0, t1, ChecksumOf(h0, h1, t0, t1)]
  }

  lemma Dht11RoundTrip(r: Reading)
    requires 0 <= r.humidity < 2560 && 0 <= r.temperature < 2560
    ensures ChecksumOk(Dht11Frame(r))
    ensures Convert(Dht11, Dht11Frame(r)) == r
  {
  }

  /** Every checksum-valid DHT11 frame whose tenths bytes are single digits is the frame
      of the reading it converts to. */
  lemma Dht11FrameOfConvert(data: seq<nat>)
    requires IsFrame(data) && ChecksumOk(data) && data[1] < 10 && data[3] < 10
    ensures Dht11Frame(Convert(Dht11, data)) == data
  {
    TenthsSplit(data[0], data[1]);
    TenthsSplit(data[2], data[3]);
  }

  /** A whole part and a tenths digit split back out of their value in tenths. */
  lemma TenthsSplit(whole: nat, tenths: nat)
    requires tenths < 10
    ensures (10 * whole + tenths) / 10 == whole && (10 * whole + tenths) % 10 == tenths
  {
  }

  /** A DHT11 tenths byte of 10 or more carries into the whole part, as the source's
      `data[0] + data[1] * 0.1` does: bytes 25 and 25 give 27.5. */
  lemma Dht11CarryExample()
    ensures Convert(Dht11, [25, 25, 26, 12, 88]) == Reading(275, 272)
    ensures ChecksumOk([25, 25, 26, 12, 88])
  {
  }

  /** Valid ranges in tenths (closed intervals, DHTXX_DHT11_* and DHTXX_DHT22_*). */
  function HumidityMin(v: Variant): int { match v case Dht11 => 200 case Dht22 => 0 }
  function HumidityMax(v: Variant): int { match v case Dht11 => 900 case Dht22 => 1000 }
  function TemperatureMin(v: Variant): int { match v case Dht11 => 0 case Dht22 => -400 }
  function TemperatureMax(v: Variant): int { match v case Dht11 => 500 case Dht22 => 800 }

  predicate HumidityInRange(v: Variant, h: int) { HumidityMin(v) <= h <= HumidityMax(v) }
  predicate TemperatureInRange(v: Variant, t: int) { TemperatureMin(v) <= t <= TemperatureMax(v) }

  /** Range validation: humidity is checked first, then temperature; a reading passes
      unchanged exactly when both are inside their closed intervals. */
  function Validate(v: Variant, r: Reading): (res: Result<Reading, Error>)
    ensures res.Ok? <==> HumidityInRange(v, r.humidity) && TemperatureInRange(v, r.temperature)
    ensures res.Ok? ==> res.value == r
    ensures res == Err(HumidityOutOfRange(r.humidity)) <==> !HumidityInRange(v, r.humidity)
    ensures res == Err(TemperatureOutOfRange(r.temperature))
        <==> HumidityInRange(v, r.humidity) && !TemperatureInRange(v, r.temperature)
  {
    if r.humidity < HumidityMin(v) || r.humidity > HumidityMax(v) then Err(HumidityOutOfRange(r.humidity))
    else if r.temperature < TemperatureMin(v) || r.temperature > TemperatureMax(v) then
      Err(TemperatureOutOfRange(r.temperature))
    else Ok(r)
  }

  /** Everything after the capture: average, bits, checksum, conversion, ranges. */
  function Interpret(v: Variant, low: seq<nat>, high: seq<nat>): (res: Result<Reading, Error>)
    requires |low| == PulseCount && |high| == PulseCount
    ensures res.Ok? <==> (ChecksumOk(Frame(high, AverageLow(low)))
                          && Validate(v, Convert(v, Frame(high, AverageLow(low)))).Ok?)
    ensures res.Ok? ==> HumidityInRange(v, res.value.humidity) && TemperatureInRange(v, res.value.temperature)
    ensures res == Err(ChecksumMismatch) <==> !ChecksumOk(Frame(high, AverageLow(low)))
    ensures res.Err? ==> res.error == ChecksumMismatch || res.error.HumidityOutOfRange? || res.error.TemperatureOutOfRange?
    ensures res.Err? ==> 6 <= res.error.Code() <= 8
  {
    var data := Frame(high, AverageLow(low));
    if !ChecksumOk(data) then Err(ChecksumMismatch)
    else Validate(v, Convert(v, data))
  }

  // ---------------------------------------------------------------------------
  // The whole acquisition.
  // ---------------------------------------------------------------------------

  /** The two tick tables of a complete capture. */
  datatype Ticks = Ticks(low: seq<nat>, high: seq<nat>)

  /** Steps 3 and 4: the wait for the sensor's response, then the capture of the 41
      pulses from the read after it. */
  function Sample(level: nat -> bool): (res: Result<Ticks, Error>)
    ensures res.Ok? ==> |res.value.low| == PulseCount && |res.value.high| == PulseCount
    ensures res.Err? ==> || res.error == NoResponse
                         || (res.error.AssertTimeout? && res.error.bit < PulseCount)
                         || (res.error.DeassertTimeout? && res.error.bit < PulseCount)
    ensures res == Err(NoResponse) <==> Run(level, 0, true, 0) == TickMax
    ensures res.Err? ==> 3 <= res.error.Code() <= 5
  {
    var k := Run(level, 0, true, 0);
    SampleOf(k, CaptureFrom(level, k + 1, 0, [], []))
  }

  /** The outcome of steps 3 and 4 for a wait that counted `k` high reads and the
      capture that follows it. */
  function SampleOf(k: nat, c: Capture): Result<Ticks, Error> {
    if k == TickMax then Err(NoResponse)
    else
      match c
      case LowTooLong(i) => Err(AssertTimeout(i))
      case HighTooLong(i) => Err(DeassertTimeout(i))
      case Captured(low, high, _) => Ok(Ticks(low, high))
  }

  /** The argument check, made before anything touches the hardware. */
  predicate ArgumentsOk(pin: int, stype: int, hasHumidity: bool, hasTemperature: bool): (ok: bool)
    ensures ok ==> pin >= 0 && Gpio.SelectWord(pin) <= 4 && Gpio.ClearWord + Gpio.Bank(pin) < Gpio.WindowWords
  {
    0 < pin <= 40 && (stype == TypeDht11 || stype == TypeDht22) && hasHumidity && hasTemperature
  }

  /** The argument check lets pins 31 to 40 through, but the source's `read` and
      `write` shift `1 << num` on a signed `int`, which is defined only below 31
      (`Gpio.SourceMask`). Pin 31 passes the check and its bit, 2^31, does not fit in
      an `int`. Pin 33 passes the check; its level and output bits are bit 1 of the
      second bank. */
  lemma HighPinPassesCheck()
    ensures ArgumentsOk(31, TypeDht11, true, true) && Gpio.Bank(31) == 0
    ensures Gpio.PinMask(31) == 0x8000_0000 && 0x8000_0000 > 0x7FFF_FFFF
    ensures ArgumentsOk(33, TypeDht11, true, true) && !(33 < 31)
    ensures Gpio.Bank(33) == 1 && Gpio.PinMask(33) == 2
  {
  }

  function VariantOf(stype: int): Variant {
    if stype == TypeDht11 then Dht11 else Dht22
  }

  /** Steps 3 to the end, once the arguments are good and the window is mapped: every
      failure here has a code from 3 to 8. */
  function Measure(v: Variant, level: nat -> bool): (res: Result<Reading, Error>)
    ensures res.Err? ==> 3 <= res.error.Code() <= 8
  {
    match Sample(level)
    case Err(e) => Err(e)
    case Ok(t) => Interpret(v, t.low, t.high)
  }

  /** The outcome of one call of `dhtxx_get`, given whether the register window could be
      mapped and the levels the pin reads after the handshake. */
  function Acquisition(pin: int, stype: int, hasHumidity: bool, hasTemperature: bool,
                       mapped: bool, level: nat -> bool): (res: Result<Reading, Error>)
    ensures res.Ok? ==> HumidityInRange(VariantOf(stype), res.value.humidity)
                        && TemperatureInRange(VariantOf(stype), res.value.temperature)
    ensures res.Err? && res.error.Code() >= 3 ==> ArgumentsOk(pin, stype, hasHumidity, hasTemperature) && mapped
  {
    if !ArgumentsOk(pin, stype, hasHumidity, hasTemperature) then Err(InvalidArguments)
    else if !mapped then Err(MappingFailed)
    else Measure(VariantOf(stype), level)
  }

  /** Code 1 is returned exactly when the arguments are bad, code 2 exactly when they are
      good and the window cannot be mapped. */
  lemma EarlyFailuresExactly(pin: int, stype: int, hasHumidity: bool, hasTemperature: bool,
                             mapped: bool, level: nat -> bool)
    ensures ReturnCode(Acquisition(pin, stype, hasHumidity, hasTemperature, mapped, level)) == 1
        <==> !ArgumentsOk(pin, stype, hasHumidity, hasTemperature)
    ensures ReturnCode(Acquisition(pin, stype, hasHumidity, hasTemperature, mapped, level)) == 2
        <==> ArgumentsOk(pin, stype, hasHumidity, hasTemperature) && !mapped
  {
  }

  /** With good arguments and a mapped window, code 3 is returned exactly when the first
      `TickMax` reads are all high: the wait always ends. */
  lemma NoResponseExactly(pin: int, stype: int, hasHumidity: bool, hasTemperature: bool,
                          mapped: bool, level: nat -> bool)
    requires ArgumentsOk(pin, stype, hasHumidity, hasTemperature) && mapped
    ensures Acquisition(pin, stype, hasHumidity, hasTemperature, mapped, level) == Err(NoResponse)
        <==> forall j :: 0 <= j < TickMax ==> level(j)
  {
    RunMeaning(level, 0, true, 0);
  }

  /** A timeout at a pulse names a pulse index 0..40. */
  lemma TimeoutsNamePulse(pin: int, stype: int, hasHumidity: bool, hasTemperature: bool,
                          mapped: bool, level: nat -> bool)
    ensures var res := Acquisition(pin, stype, hasHumidity, hasTemperature, mapped, level);
            (res.Err? && (res.error.AssertTimeout? || res.error.DeassertTimeout?)) ==> res.error.bit < PulseCount
  {
  }

  /** A success carries a reading inside the variant's ranges, decoded from a frame whose
      checksum holds, out of tick counts that all stayed below the ceiling. */
  lemma SuccessMeans(pin: int, stype: int, hasHumidity: bool, hasTemperature: bool,
                     mapped: bool, level: nat -> bool)
    ensures var res := Acquisition(pin, stype, hasHumidity, hasTemperature, mapped, level);
            res.Ok? ==>
              && ArgumentsOk(pin, stype, hasHumidity, hasTemperature) && mapped
              && Sample(level).Ok?
              && var t := Sample(level).value;
                 var data := Frame(t.high, AverageLow(t.low));
                 && ChecksumOk(data)
                 && res.value == Convert(VariantOf(stype), data)
                 && HumidityInRange(VariantOf(stype), res.value.humidity)
                 && TemperatureInRange(VariantOf(stype), res.value.temperature)
  {
  }

  /** Steps 3 and 4 as the source performs them. */
  method Sense(level: nat -> bool) returns (res: Result<Ticks, Error>)
    ensures res == Sample(level)
    ensures res.Ok? ==> forall k :: 0 <= k < PulseCount ==> res.value.low[k] < TickMax
  {
    var ok, used := WaitForDeassert(level);
    if !ok {
      return Err(NoResponse);
    }
    var capture := RecordPulses(level, used);
    SampleAfterWait(level, used, capture);
    match capture
    case LowTooLong(i) => return Err(AssertTimeout(i));
    case HighTooLong(i) => return Err(DeassertTimeout(i));
    case Captured(low, high, _) => return Ok(Ticks(low, high));
  }

  /** Once the wait has ended after `used` reads, the sample is decided by the capture
      from the next read on. */
  lemma SampleAfterWait(level: nat -> bool, used: nat, c: Capture)
    requires Run(level, 0, true, 0) < TickMax && used == Run(level, 0, true, 0) + 1
    requires c == CaptureFrom(level, used, 0, [], [])
    ensures Sample(level) == SampleOf(Run(level, 0, true, 0), c)
  {
  }

  /** Steps 5 to 7 as the source performs them: average, bits, checksum, conversion and
      the two range checks. */
  method DecodeTicks(v: Variant, t: Ticks) returns (res: Result<Reading, Error>)
    requires |t.low| == PulseCount && |t.high| == PulseCount
    requires forall k :: 0 <= k < PulseCount ==> t.low[k] < TickMax
    ensures res == Interpret(v, t.low, t.high)
  {
    var avg := AverageLowTicks(t.low);
    var data := PackBytes(t.high, avg);

    if data[4] != (data[0] + data[1] + data[2] + data[3]) % 256 {
      return Err(ChecksumMismatch);
    }

    var reading := Convert(v, data);

    if reading.humidity < HumidityMin(v) || reading.humidity > HumidityMax(v) {
      return Err(HumidityOutOfRange(reading.humidity));
    }
    if reading.temperature < TemperatureMin(v) || reading.temperature > TemperatureMax(v) {
      return Err(TemperatureOutOfRange(reading.temperature));
    }
    return Ok(reading);
  }

  // ---------------------------------------------------------------------------
  // The handshake on the register window and the entry point.
  // ---------------------------------------------------------------------------

  /** The window after the handshake's four primitive calls, in the source's order:
      output mode, drive high, drive low, input mode. */
  function Handshake(regs: seq<bv32>, pin: nat): (r: seq<bv32>)
    requires |regs| == Gpio.WindowWords && pin <= 40
    ensures |r| == |regs|
    ensures Gpio.Field(r[Gpio.SelectWord(pin)], pin) == Gpio.ModeInput
  {
    Gpio.SetInputRegs(Gpio.WriteRegs(Gpio.WriteRegs(Gpio.SetOutputRegs(regs, pin), pin, true), pin, false), pin)
  }

  /** After the handshake the pin is in input mode, its word is exactly as `set_input`
      alone would leave it (the output mode leaves no trace), both the set and the
      clear register hold the pin's mask, and every other word is unchanged. */
  lemma HandshakeMeaning(regs: seq<bv32>, pin: nat)
    requires |regs| == Gpio.WindowWords && pin <= 40
    ensures |Handshake(regs, pin)| == |regs|
    ensures Gpio.Field(Handshake(regs, pin)[Gpio.SelectWord(pin)], pin) == Gpio.ModeInput
    ensures Handshake(regs, pin)[Gpio.SelectWord(pin)] == Gpio.SetInputRegs(regs, pin)[Gpio.SelectWord(pin)]
    ensures Handshake(regs, pin)[Gpio.SetWord + Gpio.Bank(pin)] == Gpio.PinMask(pin)
    ensures Handshake(regs, pin)[Gpio.ClearWord + Gpio.Bank(pin)] == Gpio.PinMask(pin)
    ensures forall k :: 0 <= k < |regs| && k != Gpio.SelectWord(pin)
                     && k != Gpio.SetWord + Gpio.Bank(pin) && k != Gpio.ClearWord + Gpio.Bank(pin)
                     ==> Handshake(regs, pin)[k] == regs[k]
  {
    var s := Gpio.SelectWord(pin);
    var r1 := Gpio.SetOutputRegs(regs, pin);
    var r2 := Gpio.WriteRegs(r1, pin, true);
    var r3 := Gpio.WriteRegs(r2, pin, false);
    assert r3[s] == r1[s];
    Gpio.SetInputUndoesOutput(regs, pin);
    assert Gpio.SetInputRegs(r3, pin)[s] == Gpio.ClearField(r1[s], pin);
  }

  /** A location receiving a reading (`float *ahum`, `float *atmp`), in tenths. */
  class Tenths {
    var value: int
    constructor ()
      ensures value == 0
    {
      value := 0;
    }
  }

  /** `dhtxx_get`: validate the arguments, map the window, run the handshake, wait for the
      sensor, record the pulses, decode and validate. The outputs are written only on
      success (temperature last, so it wins when both pointers are the same); the
      window is untouched when the call fails before the handshake. */
  method Get(pin: int, stype: int, ahum: Tenths?, atmp: Tenths?,
             platform: Gpio.Platform, gpio: array<bv32>, level: nat -> bool) returns (rc: int)
    requires gpio.Length == Gpio.WindowWords
    modifies gpio, ahum, atmp
    ensures var res := Acquisition(pin, stype, ahum != null, atmp != null, Gpio.Init(platform).Ok?, level);
            && rc == ReturnCode(res)
            && (rc == 0 ==> (atmp.value == res.value.temperature
                             && (ahum != atmp ==> ahum.value == res.value.humidity)))
    ensures rc != 0 && ahum != null ==> ahum.value == old(ahum.value)
    ensures rc != 0 && atmp != null ==> atmp.value == old(atmp.value)
    ensures rc == 1 || rc == 2 ==> gpio[..] == old(gpio[..])
    ensures rc != 1 && rc != 2 ==> 0 < pin <= 40 && gpio[..] == Handshake(old(gpio[..]), pin)
  {
    if pin <= 0 || pin > 40 || (stype != TypeDht11 && stype != TypeDht22) || ahum == null || atmp == null {
      return 1;
    }
    if Gpio.Init(platform).Err? {
      return 2;
    }
    // Raising the scheduling priority has no effect on the outcome.

    // step 1: output mode, assert for 500 ms, de-assert for 20 ms (the delays are not modelled)
    ghost var regs := gpio[..];
    var ignored := Gpio.SetOutput(gpio, pin);
    ignored := Gpio.Write(gpio, pin, 1);
    ignored := Gpio.Write(gpio, pin, 0);

    // step 2: input mode, then a fixed settling loop that has no effect here
    ignored := Gpio.SetInput(gpio, pin);
    assert gpio[..] == Handshake(regs, pin);

    // steps 3 and 4: the sensor's response and the 41 pulses
    var sensed := Sense(level);
    if sensed.Err? {
      return sensed.error.Code();
    }
    // Restoring the normal priority has no effect on the outcome.

    // steps 5 to 7
    var decoded := DecodeTicks(VariantOf(stype), sensed.value);
    if decoded.Err? {
      return decoded.error.Code();
    }

    ahum.value := decoded.value.humidity;
    atmp.value := decoded.value.temperature;
    return 0;
  }

  // ---------------------------------------------------------------------------
  // Worked frames.
  // ---------------------------------------------------------------------------

  /** DHT11 frame [25, 0, 26, 0, 51]: 25.0 %RH and 26.0 degrees, accepted. */
  lemma Dht11Example()
    ensures ChecksumOk([25, 0, 26, 0, 51])
    ensures Validate(Dht11, Convert(Dht11, [25, 0, 26, 0, 51])) == Ok(Reading(250, 260))
  {
  }

  /** DHT22 frame [0x01, 0x90, 0x00, 0xFA, 0x8B]: 40.0 %RH and 25.0 degrees, accepted. */
  lemma Dht22Example()
    ensures ChecksumOk([0x01, 0x90, 0x00, 0xFA, 0x8B])
    ensures Validate(Dht22, Convert(Dht22, [0x01, 0x90, 0x00, 0xFA, 0x8B])) == Ok(Reading(400, 250))
  {
  }

  /** DHT22 temperatures of exactly -40.0 and 80.0 are accepted, one tenth beyond is not. */
  lemma Dht22TemperatureBounds(h: int)
    requires 0 <= h <= 1000
    ensures Validate(Dht22, Reading(h, -400)).Ok? && Validate(Dht22, Reading(h, 800)).Ok?
    ensures Validate(Dht22, Reading(h, -401)) == Err(TemperatureOutOfRange(-401))
    ensures Validate(Dht22, Reading(h, 801)) == Err(TemperatureOutOfRange(801))
  {
  }

  /** A negative DHT22 frame: sign bit set, magnitude 0x065 = 101 tenths. */
  lemma Dht22NegativeExample()
    ensures Convert(Dht22, [0x02, 0x8C, 0x80, 0x65, 0x73]).temperature == -101
    ensures ChecksumOk([0x02, 0x8C, 0x80, 0x65, 0x73])
  {
  }
}
