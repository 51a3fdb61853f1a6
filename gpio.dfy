/**
 * The GPIO register layer (src/gpio.c).
 *
 * The controller's register window is memory mapped as 4096 bytes, i.e. 1024
 * 32-bit words. A handle is a possibly-null reference to that window, modelled
 * as `array?<bv32>`. Each mutating primitive is a method on the array; the pure
 * functions over `seq<bv32>` (`SetInputRegs`, `SetOutputRegs`, `WriteRegs`)
 * state what the whole window looks like afterwards, and the lemmas below
 * prove what those new states mean: which field or word changed, and that
 * nothing else did.
 */
module Gpio {
  import opened Results

  /** Length of the mapped window in bytes (DHTXX_GPIO_LEN) and in words. */
  const WindowBytes: nat := 4096
  const WindowWords: nat := WindowBytes / 4

  /** Offset of the GPIO block from the parent-bus base address (DHTXX_GPIO_BASE_OFFSET). */
  const BaseOffset: bv32 := 0x200000

  /** Word offsets of the first "set", "clear" and "level" registers of the controller. */
  const SetWord: nat := 7
  const ClearWord: nat := 10
  const LevelWord: nat := 13

  /** Function-select codes held in a pin's 3-bit field. */
  const ModeInput: bv32 := 0
  const ModeOutput: bv32 := 1

  // ---------------------------------------------------------------------------
  // Function-select fields: ten pins per word, three bits per pin.
  // ---------------------------------------------------------------------------

  /** Index of the function-select word that holds pin `num`. */
  function SelectWord(num: nat): nat { num / 10 }

  /** Bit offset of pin `num`'s field inside its function-select word, `(num % 10) * 3`
      (written out per field so that the solver sees bit-vector constants). */
  function FieldShift(num: nat): bv32 {
    match num % 10
    case 0 => 0  case 1 => 3  case 2 => 6  case 3 => 9  case 4 => 12
    case 5 => 15 case 6 => 18 case 7 => 21 case 8 => 24 case _ => 27
  }

  lemma FieldShiftValue(num: nat)
    ensures FieldShift(num) as int == (num % 10) * 3
  {
  }

  // A 3-bit field at bit offset `s` of a word, on bit-vectors only.

  function FieldAt(w: bv32, s: bv32): bv32
    requires s <= 27
  {
    (w >> s) & 7
  }

  function ClearAt(w: bv32, s: bv32): bv32
    requires s <= 27
  {
    w & !(7 << s)
  }

  /** Word `w` with the lowest bit of the field at offset `s` set. */
  function SetLowAt(w: bv32, s: bv32): bv32
    requires s <= 27
  {
    w | (1 << s)
  }

  function OutputAt(w: bv32, s: bv32): bv32
    requires s <= 27
  {
    SetLowAt(ClearAt(w, s), s)
  }

  /** The bits of a word outside the field at offset `s`. This is the same mask as
      `ClearAt`: clearing a field keeps exactly the bits outside it, so "the bits outside
      the field are unchanged" says that masking twice is masking once. */
  function OutsideAt(w: bv32, s: bv32): bv32
    requires s <= 27
  {
    w & !(7 << s)
  }

  lemma ClearAtMeaning(w: bv32, s: bv32)
    requires s <= 27
    ensures FieldAt(ClearAt(w, s), s) == 0
    ensures OutsideAt(ClearAt(w, s), s) == OutsideAt(w, s)
  {
  }

  lemma OutputAtMeaning(w: bv32, s: bv32)
    requires s <= 27
    ensures FieldAt(OutputAt(w, s), s) == 1
    ensures OutsideAt(OutputAt(w, s), s) == OutsideAt(w, s)
  {
  }

  /** A field update at offset `s` leaves the field at any other offset `t` alone, for
      offsets on the 3-bit grid. */
  lemma ClearAtKeepsOther(w: bv32, s: bv32, t: bv32)
    requires s <= 27 && t <= 27 && s % 3 == 0 && t % 3 == 0 && s != t
    ensures FieldAt(ClearAt(w, s), t) == FieldAt(w, t)
  {
  }

  lemma OutputAtKeepsOther(w: bv32, s: bv32, t: bv32)
    requires s <= 27 && t <= 27 && s % 3 == 0 && t % 3 == 0 && s != t
    ensures FieldAt(OutputAt(w, s), t) == FieldAt(w, t)
  {
  }

  lemma ClearAtAbsorbsClear(w: bv32, s: bv32)
    requires s <= 27
    ensures ClearAt(ClearAt(w, s), s) == ClearAt(w, s)
  {
  }

  lemma ClearAtAbsorbsOutput(w: bv32, s: bv32)
    requires s <= 27
    ensures ClearAt(OutputAt(w, s), s) == ClearAt(w, s)
  {
  }

  lemma ShiftsDiffer(num: nat, other: nat)
    requires other % 10 != num % 10
    ensures FieldShift(num) != FieldShift(other)
  {
  }

  lemma ShiftsSpaced(num: nat)
    ensures FieldShift(num) <= 27 && FieldShift(num) % 3 == 0
  {
  }

  // The same, per pin.

  /** The 3-bit function-select code of pin `num` read out of word `w`. */
  function Field(w: bv32, num: nat): bv32 { FieldAt(w, FieldShift(num)) }

  /** The bits of word `w` outside pin `num`'s field. */
  function Outside(w: bv32, num: nat): bv32 { OutsideAt(w, FieldShift(num)) }

  /** Word `w` with the field of pin `num` cleared (input mode). */
  function ClearField(w: bv32, num: nat): bv32 { ClearAt(w, FieldShift(num)) }

  /** Word `w` with the lowest bit of pin `num`'s field set. */
  function SetLowField(w: bv32, num: nat): bv32 { SetLowAt(w, FieldShift(num)) }

  /** Word `w` with the field of pin `num` cleared and then set to 001 (output mode). */
  function OutputField(w: bv32, num: nat): bv32 { OutputAt(w, FieldShift(num)) }

  /** Clearing a field makes it 000, keeps every bit outside the field, and keeps the
      fields of the nine other pins that share the word. */
  lemma ClearFieldMeaning(w: bv32, num: nat, other: nat)
    ensures Field(ClearField(w, num), num) == ModeInput
    ensures Outside(ClearField(w, num), num) == Outside(w, num)
    ensures other % 10 != num % 10 ==> Field(ClearField(w, num), other) == Field(w, other)
  {
    ShiftsSpaced(num);
    ShiftsSpaced(other);
    ClearAtMeaning(w, FieldShift(num));
    if other % 10 != num % 10 {
      ShiftsDiffer(num, other);
      ClearAtKeepsOther(w, FieldShift(num), FieldShift(other));
    }
  }

  /** Setting output mode makes the field 001, keeps every bit outside the field, and
      keeps the fields of the other pins in the word. */
  lemma OutputFieldMeaning(w: bv32, num: nat, other: nat)
    ensures Field(OutputField(w, num), num) == ModeOutput
    ensures Outside(OutputField(w, num), num) == Outside(w, num)
    ensures other % 10 != num % 10 ==> Field(OutputField(w, num), other) == Field(w, other)
  {
    ShiftsSpaced(num);
    ShiftsSpaced(other);
    OutputAtMeaning(w, FieldShift(num));
    if other % 10 != num % 10 {
      ShiftsDiffer(num, other);
      OutputAtKeepsOther(w, FieldShift(num), FieldShift(other));
    }
  }

  // ---------------------------------------------------------------------------
  // Specifications of the three mutators, as functions of the whole window.
  // ---------------------------------------------------------------------------

  /** The window after `set_input(num)`: pin `num`'s field is 000, every other bit of
      its word and every other word are as before. */
  function SetInputRegs(regs: seq<bv32>, num: nat): (r: seq<bv32>)
    requires SelectWord(num) < |regs|
    ensures |r| == |regs|
    ensures Field(r[SelectWord(num)], num) == ModeInput
    ensures Outside(r[SelectWord(num)], num) == Outside(regs[SelectWord(num)], num)
    ensures forall m: nat :: m % 10 != num % 10 ==>
              Field(r[SelectWord(num)], m) == Field(regs[SelectWord(num)], m)
    ensures forall k :: 0 <= k < |regs| && k != SelectWord(num) ==> r[k] == regs[k]
  {
    var k := SelectWord(num);
    forall m: nat | m % 10 != num % 10
      ensures Field(ClearField(regs[k], num), m) == Field(regs[k], m)
    {
      ClearFieldMeaning(regs[k], num, m);
    }
    ClearFieldMeaning(regs[k], num, num);
    regs[k := ClearField(regs[k], num)]
  }

  /** The window after `set_output(num)`: pin `num`'s field is 001, every other bit of
      its word and every other word are as before. */
  function SetOutputRegs(regs: seq<bv32>, num: nat): (r: seq<bv32>)
    requires SelectWord(num) < |regs|
    ensures |r| == |regs|
    ensures Field(r[SelectWord(num)], num) == ModeOutput
    ensures Outside(r[SelectWord(num)], num) == Outside(regs[SelectWord(num)], num)
    ensures forall m: nat :: m % 10 != num % 10 ==>
              Field(r[SelectWord(num)], m) == Field(regs[SelectWord(num)], m)
    ensures forall k :: 0 <= k < |regs| && k != SelectWord(num) ==> r[k] == regs[k]
  {
    var k := SelectWord(num);
    forall m: nat | m % 10 != num % 10
      ensures Field(OutputField(regs[k], num), m) == Field(regs[k], m)
    {
      OutputFieldMeaning(regs[k], num, m);
    }
    OutputFieldMeaning(regs[k], num, num);
    regs[k := OutputField(regs[k], num)]
  }

  /** Calling `set_output` twice leaves the same window as calling it once. */
  lemma SetOutputIdempotent(regs: seq<bv32>, num: nat)
    requires SelectWord(num) < |regs|
    ensures SetOutputRegs(SetOutputRegs(regs, num), num) == SetOutputRegs(regs, num)
  {
    var k, w, sh := SelectWord(num), regs[SelectWord(num)], FieldShift(num);
    ShiftsSpaced(num);
    ClearAtAbsorbsOutput(w, sh);
    assert OutputField(OutputField(w, num), num) == OutputField(w, num);
    assert SetOutputRegs(regs, num) == regs[k := OutputField(w, num)];
  }

  /** Calling `set_input` twice leaves the same window as calling it once. */
  lemma SetInputIdempotent(regs: seq<bv32>, num: nat)
    requires SelectWord(num) < |regs|
    ensures SetInputRegs(SetInputRegs(regs, num), num) == SetInputRegs(regs, num)
  {
    var k, w, sh := SelectWord(num), regs[SelectWord(num)], FieldShift(num);
    ShiftsSpaced(num);
    ClearAtAbsorbsClear(w, sh);
    assert ClearField(ClearField(w, num), num) == ClearField(w, num);
    assert SetInputRegs(regs, num) == regs[k := ClearField(w, num)];
  }

  /** `set_input` after `set_output` leaves what `set_input` alone leaves: output mode
      leaves no trace once the pin is switched back. */
  lemma SetInputUndoesOutput(regs: seq<bv32>, num: nat)
    requires SelectWord(num) < |regs|
    ensures SetInputRegs(SetOutputRegs(regs, num), num) == SetInputRegs(regs, num)
  {
    var k, w, sh := SelectWord(num), regs[SelectWord(num)], FieldShift(num);
    ShiftsSpaced(num);
    ClearAtAbsorbsOutput(w, sh);
    assert ClearField(OutputField(w, num), num) == ClearField(w, num);
    assert SetOutputRegs(regs, num) == regs[k := OutputField(w, num)];
  }

  // ---------------------------------------------------------------------------
  // Level, set and clear registers: one bit per pin.
  // ---------------------------------------------------------------------------

  /** The bank of a pin: the block of 32 pins it lies in (0 for pins 0..31, 1 for 32..63). */
  function Bank(num: nat): (b: nat)
    ensures b * 32 <= num < b * 32 + 32
  {
    num / 32
  }

  /** The word with only pin `num`'s bit set, as stored into a set or clear register:
      bit `num % 32` of the pin's bank. */
  function PinMask(num: nat): (m: bv32)
    ensures m != 0 && m & (m - 1) == 0 && m >> (num % 32) == 1
  {
    1 << (num % 32)
  }

  /** The source's `1 << num` on a signed 32-bit `int`, which C defines only while the
      result fits in one, that is for `num < 31`: the word with bit `num` set and no
      other, below 2^31. */
  function SourceMask(num: nat): (m: bv32)
    requires num < 31
    ensures m != 0 && m & (m - 1) == 0 && m >> num == 1
    ensures m < 0x8000_0000
  {
    1 << num
  }

  /** For every pin the source can shift, the bank-aware mask is the source's mask
      and the bank-aware registers are the source's registers. */
  lemma PinMaskAgreesBelow31(num: nat)
    requires num < 31
    ensures PinMask(num) == SourceMask(num)
    ensures Bank(num) == 0
  {
  }

  /** Whether the level register says pin `num` is high. */
  predicate LevelOf(regs: seq<bv32>, num: nat): (high: bool)
    requires LevelWord + Bank(num) < |regs|
    ensures high <==> (regs[LevelWord + Bank(num)] >> (num % 32)) & 1 == 1
  {
    regs[LevelWord + Bank(num)] & PinMask(num) != 0
  }

  /** The window after `write(num, high)`: the set register (high) or the clear register
      (low) of the pin's bank holds exactly the pin's mask; nothing else changes. */
  function WriteRegs(regs: seq<bv32>, num: nat, high: bool): (r: seq<bv32>)
    requires ClearWord + Bank(num) < |regs|
    ensures |r| == |regs|
    ensures high ==> r[SetWord + Bank(num)] == PinMask(num)
    ensures !high ==> r[ClearWord + Bank(num)] == PinMask(num)
    ensures forall k :: 0 <= k < |regs| && k != (if high then SetWord else ClearWord) + Bank(num) ==>
              r[k] == regs[k]
  {
    regs[(if high then SetWord else ClearWord) + Bank(num) := PinMask(num)]
  }

  // ---------------------------------------------------------------------------
  // The four primitives over a handle. Return code 1 means "invalid handle or pin".
  // ---------------------------------------------------------------------------

  /** An output location for a byte (the `uint8_t *value` of `read`). */
  class ByteCell {
    var value: bv8
    constructor ()
      ensures value == 0
    {
      value := 0;
    }
  }

  method SetInput(gpio: array?<bv32>, num: int) returns (rc: int)
    requires gpio != null && num >= 0 ==> SelectWord(num) < gpio.Length
    modifies gpio
    ensures rc == (if gpio == null || num < 0 then 1 else 0)
    ensures gpio != null && rc == 1 ==> gpio[..] == old(gpio[..])
    ensures rc == 0 ==> gpio[..] == SetInputRegs(old(gpio[..]), num)
  {
    if gpio == null || num < 0 {
      return 1;
    }
    var k := num / 10;
    gpio[k] := ClearField(gpio[k], num);
    return 0;
  }

  method SetOutput(gpio: array?<bv32>, num: int) returns (rc: int)
    requires gpio != null && num >= 0 ==> SelectWord(num) < gpio.Length
    modifies gpio
    ensures rc == (if gpio == null || num < 0 then 1 else 0)
    ensures gpio != null && rc == 1 ==> gpio[..] == old(gpio[..])
    ensures rc == 0 ==> gpio[..] == SetOutputRegs(old(gpio[..]), num)
  {
    if gpio == null || num < 0 {
      return 1;
    }
    var k := num / 10;
    gpio[k] := ClearField(gpio[k], num);
    gpio[k] := SetLowField(gpio[k], num);
    return 0;
  }

  /** Reads pin `num` into `value` (1 when high, 0 when low); the registers are only read. */
  method Read(gpio: array?<bv32>, num: int, value: ByteCell?) returns (rc: int)
    requires gpio != null && num >= 0 ==> LevelWord + Bank(num) < gpio.Length
    modifies value
    ensures rc == (if gpio == null || num < 0 || value == null then 1 else 0)
    ensures rc == 1 && value != null ==> value.value == old(value.value)
    ensures rc == 0 ==> value.value == (if LevelOf(gpio[..], num) then 1 else 0)
  {
    if gpio == null || num < 0 || value == null {
      return 1;
    }
    value.value := if gpio[LevelWord + num / 32] & PinMask(num) != 0 then 1 else 0;
    return 0;
  }

  /** Drives pin `num` high (`value != 0`) or low (`value == 0`). */
  method Write(gpio: array?<bv32>, num: int, value: bv8) returns (rc: int)
    requires gpio != null && num >= 0 ==> ClearWord + Bank(num) < gpio.Length
    modifies gpio
    ensures rc == (if gpio == null || num < 0 then 1 else 0)
    ensures gpio != null && rc == 1 ==> gpio[..] == old(gpio[..])
    ensures rc == 0 ==> gpio[..] == WriteRegs(old(gpio[..]), num, value != 0)
  {
    if gpio == null || num < 0 {
      return 1;
    }
    gpio[(if value != 0 then SetWord else ClearWord) + num / 32] := 1 << (num % 32);
    return 0;
  }

  // ---------------------------------------------------------------------------
  // Base address discovery and mapping.
  // ---------------------------------------------------------------------------

  /** The word made of four bytes, the first one most significant. */
  function Compose(b0: bv8, b1: bv8, b2: bv8, b3: bv8): bv32 {
    ((b0 as bv32) << 24) | ((b1 as bv32) << 16) | ((b2 as bv32) << 8) | ((b3 as bv32) << 0)
  }

  /** The four bytes of a word composed most significant first (`buf[0] << 24 | ...`):
      the first byte occupies exactly the top eight bits. */
  function BigEndian(b: seq<bv8>): (r: bv32)
    requires |b| == 4
    ensures r >> 24 == b[0] as bv32
  {
    Compose(b[0], b[1], b[2], b[3])
  }

  /** The four bytes of a word, most significant first. */
  function WordBytes(x: bv32): (b: seq<bv8>)
    ensures |b| == 4
  {
    [(x >> 24) as bv8, ((x >> 16) & 0xFF) as bv8, ((x >> 8) & 0xFF) as bv8, (x & 0xFF) as bv8]
  }

  lemma {:induction false} BigEndianOfWordBytes(x: bv32)
    ensures BigEndian(WordBytes(x)) == x
  {
  }

  lemma ComposeByte0(b0: bv8, b1: bv8, b2: bv8, b3: bv8)
    ensures (Compose(b0, b1, b2, b3) >> 24) as bv8 == b0
  {
  }

  lemma ComposeByte1(b0: bv8, b1: bv8, b2: bv8, b3: bv8)
    ensures ((Compose(b0, b1, b2, b3) >> 16) & 0xFF) as bv8 == b1
  {
  }

  lemma ComposeByte2(b0: bv8, b1: bv8, b2: bv8, b3: bv8)
    ensures ((Compose(b0, b1, b2, b3) >> 8) & 0xFF) as bv8 == b2
  {
  }

  lemma ComposeByte3(b0: bv8, b1: bv8, b2: bv8, b3: bv8)
    ensures (Compose(b0, b1, b2, b3) & 0xFF) as bv8 == b3
  {
  }

  lemma {:induction false} WordBytesOfBigEndian(b: seq<bv8>)
    requires |b| == 4
    ensures WordBytes(BigEndian(b)) == b
  {
    ComposeByte0(b[0], b[1], b[2], b[3]);
    ComposeByte1(b[0], b[1], b[2], b[3]);
    ComposeByte2(b[0], b[1], b[2], b[3]);
    ComposeByte3(b[0], b[1], b[2], b[3]);
  }

  /** The source's `buf[0] << 24` as C evaluates it: `buf[0]` is promoted to a signed
      32-bit `int`, so the shift is defined only while the result fits in one, that is
      for a first byte below 0x80. */
  function SourceLeadShift(b0: bv8): (r: int)
    requires (b0 as int) * 0x100_0000 <= 0x7FFF_FFFF
    ensures 0 <= r < 0x8000_0000 && r % 0x100_0000 == 0
  {
    (b0 as int) * 0x100_0000
  }

  /** A parent-bus address of 0xFE000000 has first byte 0xFE, outside the domain of the
      signed shift, while the unsigned composition yields the address. */
  lemma HighBaseOverflows()
    ensures !((0xFE as int) * 0x100_0000 <= 0x7FFF_FFFF)
    ensures BigEndian([0xFE, 0x00, 0x00, 0x00]) == 0xFE00_0000
  {
  }

  /** What the platform's address-translation file yields: it may be missing, the seek
      to offset 4 or the read may fail, and otherwise it holds `bytes`. */
  datatype RangesFile = Missing | Present(bytes: seq<bv8>, seekFails: bool, readFails: bool)

  /** `dhtxx_gpio_base`: the parent-bus address, the big-endian word at offset 4, or the
      source's code for the step that failed (2 open, 3 seek, 4 read error, 5 short read). */
  function Base(f: RangesFile): (r: Result<bv32, int>)
    ensures r.Err? ==> 2 <= r.error <= 5
    ensures r == Err(2) <==> f.Missing?
    ensures r == Err(3) <==> f.Present? && f.seekFails
    ensures r == Err(4) <==> f.Present? && !f.seekFails && f.readFails
    ensures r.Err? && r.error == 5 <==> f.Present? && !f.seekFails && !f.readFails && |f.bytes| < 8
    ensures r.Ok? <==> f.Present? && !f.seekFails && !f.readFails && |f.bytes| >= 8
    ensures r.Ok? ==> WordBytes(r.value) == f.bytes[4..8]
  {
    match f
    case Missing => Err(2)
    case Present(bytes, seekFails, readFails) =>
      if seekFails then Err(3)
      else if readFails then Err(4)
      else if |bytes| < 8 then Err(5)
      else
        WordBytesOfBigEndian(bytes[4..8]);
        Ok(BigEndian(bytes[4..8]))
  }

  /** What the operating system does with the two later steps of mapping. */
  datatype Platform = Platform(ranges: RangesFile, memOpens: bool, mapSucceeds: bool)

  /** `dhtxx_gpio_init`: the physical address the window is mapped at (base plus the
      fixed offset, in 32-bit arithmetic), or 2 (no base address), 3 (memory device
      not opened) or 4 (mapping refused). */
  function Init(p: Platform): (r: Result<bv32, int>)
    ensures r.Err? ==> r.error in {2, 3, 4}
    ensures r.Err? && r.error == 2 <==> Base(p.ranges).Err?
    ensures r == Err(3) <==> Base(p.ranges).Ok? && !p.memOpens
    ensures r == Err(4) <==> Base(p.ranges).Ok? && p.memOpens && !p.mapSucceeds
    ensures r.Ok? <==> Base(p.ranges).Ok? && p.memOpens && p.mapSucceeds
    ensures r.Ok? ==> r.value - BaseOffset == Base(p.ranges).value
  {
    match Base(p.ranges)
    case Err(_) => Err(2)
    case Ok(base) =>
      if !p.memOpens then Err(3)
      else if !p.mapSucceeds then Err(4)
      else Ok(base + BaseOffset)
  }
}
