# dhtxx-standalone in Dafny

This project models the two parts of the dhtxx-standalone driver that decide what a
reading is:

- `dhtxx_get`, the DHT11/DHT22 acquisition engine (module `Dhtxx`, file `dhtxx.dfy`);
- the GPIO register primitives and the base-address assembly (module `Gpio`, file
  `gpio.dfy`).

`results.dfy` holds the shared `Result` datatype.

**Registers.** The memory-mapped GPIO window is an `array<bv32>` of 1024 words (4096
bytes). A handle that may be null is an `array?<bv32>`.

- `SetInput`, `SetOutput` and `Write` are methods that update words of that array in
  place.
- `Read` writes its result into a `ByteCell`, which stands for the `uint8_t *value`
  out-parameter.
- Each method's new state is stated by a function over `seq<bv32>`: `SetInputRegs`,
  `SetOutputRegs` or `WriteRegs`. Lemmas then prove what those states mean: which 3-bit
  function-select field or which word changed, that nothing else changed, and
  idempotence.
- The base address is the big-endian word read at offset 4 of the platform's ranges file.
- `Init` returns the mapping's outcome: the physical address (base plus 0x200000), or
  error 2, 3 or 4.

**Sensor line.** After the handshake, the sensor line is seen only through successive
reads of the pin's level. The model takes those reads as a stream `level: nat -> bool`:
`level(k)` is what the k-th read returns after the pin is switched to input.

- Every polling loop consumes that stream one read per iteration, as the C loops do.
- The de-assert wait is the method `WaitForDeassert`.
- The capture is `RecordPulses`. It calls `ReadPulse` once per pulse, and `ReadPulse`
  runs `CountPhase`, which increments a zeroed table entry in place.
- The specification function of the capture is `CaptureFrom`. It is built from `Run`,
  one capped polling run, and `PulseAt`, one low-then-high pulse.

**Decoding.**

- `AverageLowTicks` sums the 40 data-pulse low counts in a 32-bit accumulator and
  divides by 40.
- `PackBytes` and `ShiftInByte` shift the 40 comparisons into five zeroed bytes. They
  are proved equal to `Frame`, whose bit meaning is `FrameBit`. `FrameOfPulseTable`
  proves that decoding inverts the sensor's encoding.
- The checksum, `Convert` (the DHT11 and DHT22 formats, in exact tenths of %RH and of
  degrees Celsius) and `Validate` (closed ranges, humidity first) follow.
- `Interpret` is the specification of all of decoding, and `DecodeTicks` is proved
  equal to it.

**Whole call.** `Acquisition` is the outcome of a whole call as a function of:

- the arguments;
- whether the window could be mapped;
- the level stream.

`Get` is the entry point. It:

- runs the argument check;
- runs `Gpio.Init` on a given `Platform`;
- runs the handshake on the register array through the four primitives;
- runs `Sense` and `DecodeTicks`;
- writes the two outputs through `Tenths` cells, only on success.

Its return code is proved to be `ReturnCode(Acquisition(...))`.

## Model

| member | source | states |
|---|---|---|
| Gpio.SetInputRegs | src/gpio.c:174-175 | set_input's new window: the pin's 3-bit field in word num/10 is 000; the other bits of that word, the other nine pins' fields and every other word are unchanged |
| Gpio.SetOutputRegs | src/gpio.c:192-194 | set_output's new window: the pin's field is 001; every other bit and word is unchanged |
| Gpio.ClearFieldMeaning | src/gpio.c:175 | clearing the field gives mode 000, keeps the bits outside the field and keeps every other pin's field in the word |
| Gpio.OutputFieldMeaning | src/gpio.c:193-194 | clear-then-set gives mode 001, keeps the bits outside the field and keeps every other pin's field in the word |
| Gpio.SetOutputIdempotent | src/gpio.c:192-194 | calling set_output twice leaves the same window as calling it once |
| Gpio.SetInputIdempotent | src/gpio.c:174-175 | calling set_input twice leaves the same window as calling it once |
| Gpio.SetInputUndoesOutput | src/gpio.c:174-194 | set_input after set_output leaves exactly what set_input alone leaves |
| Gpio.SetInput | src/gpio.c:165-178 | returns 1 and leaves the window untouched for a null handle or a negative pin; otherwise returns 0 and the window becomes SetInputRegs of the old window |
| Gpio.SetOutput | src/gpio.c:183-197 | returns 1 and leaves the window untouched for a null handle or a negative pin; otherwise returns 0 and the window becomes SetOutputRegs of the old window |
| Gpio.WriteRegs | src/gpio.c:228 | write's new window: the set register (value nonzero) or the clear register (value zero) holds exactly the pin's mask; no other word changes |
| Gpio.Write | src/gpio.c:221-231 | returns 1 with the window untouched for a null handle or a negative pin; otherwise returns 0 and the window becomes WriteRegs of the old window |
| Gpio.Read | src/gpio.c:204-214 | returns 1 and writes nothing for a null handle, a null value cell or a negative pin; otherwise returns 0 and stores 1 exactly when the pin's level bit is set, else 0; the registers are not modified |
| Gpio.Bank | src/gpio.c:211-228 | the bank of a pin is the block of 32 pins holding it: bank * 32 <= num < bank * 32 + 32 |
| Gpio.PinMask | src/gpio.c:211-228 | the corrected mask stored into a set or clear register and tested against the level word: exactly one bit set, bit num % 32 |
| Gpio.SourceMask | src/gpio.c:211 | the source's `1 << num` on a signed int, defined only for pins below 31: the word with bit num set and no other, below 2^31 |
| Gpio.LevelOf | src/gpio.c:211 | a pin reads high exactly when bit num % 32 of its bank's level word is set |
| Gpio.PinMaskAgreesBelow31 | src/gpio.c:211 | for every pin below 31 the bank-aware mask is the source's `1 << num` and the bank is 0, so the corrected read and write are the source's |
| Gpio.BigEndian | src/gpio.c:98 | the corrected composition of the four bytes in 32-bit unsigned arithmetic: buf[0] occupies exactly the top eight bits |
| Gpio.BigEndianOfWordBytes | src/gpio.c:98 | composing a word's four bytes most significant first gives the word back |
| Gpio.WordBytesOfBigEndian | src/gpio.c:98 | splitting the composed word gives the four bytes back, buf[0] as the most significant |
| Gpio.Base | src/gpio.c:29-102 | the base address is the big-endian word at offset 4 of the ranges file; error 2 exactly when the file cannot be opened, 3 exactly when the seek fails, 4 exactly when the read fails, 5 exactly on a short read, and success exactly otherwise |
| Gpio.SourceLeadShift | src/gpio.c:98 | the source's `buf[0] << 24` on a signed int, defined only for a first byte below 0x80: a multiple of 2^24 below 2^31 |
| Gpio.HighBaseOverflows | src/gpio.c:98 | the parent address 0xFE000000 lies outside the signed shift's domain, while the unsigned composition yields it |
| Gpio.Init | src/gpio.c:108-160 | error 2 exactly when the base address fails; error 3 exactly when the base is found and the memory device does not open; error 4 exactly when it opens and the mapping fails; success exactly when the base is found, the memory device opens and the mapping succeeds; the mapped address minus 0x200000 is the base; no other error code |
| Dhtxx.Error.Code | src/dhtxx.c:153-359 | the value `dhtxx_get` returns for each failure kind: 1 bad arguments, 2 mapping, 3 no response, 4 and 5 the two pulse timeouts, 6 checksum, 7 humidity range, 8 temperature range, each code exactly for its kind |
| Dhtxx.Run | src/dhtxx.c:186-257 | one polling loop's count: at least the count it started from and at most the 32000 ceiling (its meaning is RunMeaning) |
| Dhtxx.RunMeaning | src/dhtxx.c:215-257 | a polling run ends at the first read of the other level: every earlier read has the polled level, and the run reaches the tick ceiling exactly when every read up to the ceiling does |
| Dhtxx.WaitForDeassert | src/dhtxx.c:186-205 | at most 32000 reads; it fails exactly when the first 32000 reads are all high; on success the last read made is low and the count of reads equals the high run plus one |
| Dhtxx.PulseAt | src/dhtxx.c:215-257 | a completed pulse has both counts below 32000 and ends two reads after its low and high counts |
| Dhtxx.CountPhase | src/dhtxx.c:215-234 | the in-place count in table[i] ends equal to the capped run of the polled level from the given read; no other entry changes |
| Dhtxx.ReadPulse | src/dhtxx.c:215-257 | one round of the capture loop is PulseAt at its start read, and on success low[i] and high[i] hold the pulse's counts; no other entry changes |
| Dhtxx.CaptureFrom | src/dhtxx.c:209-258 | a complete capture has 41 low and 41 high counts; a timeout names a pulse index from 0 to 40 |
| Dhtxx.CaptureBounds | src/dhtxx.c:226-249 | every count of a complete capture stays below 32000 |
| Dhtxx.CaptureChained | src/dhtxx.c:209-258 | a chain of pulses read back to back replays as the capture from its first read |
| Dhtxx.RecordPulses | src/dhtxx.c:209-258 | the method's result is CaptureFrom from its start read: the two zeroed tables filled in place, or LowTooLong(i) (code 4) or HighTooLong(i) (code 5) for the pulse that hit the ceiling; on success all 82 counts are below 32000 |
| Dhtxx.SumBelow | src/dhtxx.c:270-273 | counts below the ceiling sum to no more than their number times 31999, so the 32-bit accumulator cannot wrap |
| Dhtxx.AverageLowTicks | src/dhtxx.c:270-275 | the loop on a 32-bit accumulator gives the truncated mean of low counts 1 to 40 (index 0 left out): avg*40 <= sum < (avg+1)*40, and avg < 32000 |
| Dhtxx.PackMsb | src/dhtxx.c:287 | shifting n bits in at the bottom gives a number below 2^n |
| Dhtxx.PackMsbBit | src/dhtxx.c:283-288 | the first bit shifted in lands in the most significant place: bit n-1-j of the packed number is bits[j] |
| Dhtxx.PackMsbOfBitsOf | src/dhtxx.c:283-288 | packing a byte's eight bits, most significant first, gives the byte back |
| Dhtxx.Frame | src/dhtxx.c:281-289 | the decoded frame is five byte values, byte i packing data bits 8i to 8i+7 |
| Dhtxx.FrameBit | src/dhtxx.c:285-287 | bit 7-j of byte i is set exactly when the high count of pulse 8i+j+1 is at least the average |
| Dhtxx.FrameOfPulseTable | src/dhtxx.c:281-289 | for any five-byte frame, high counts that are long for 1-bits and short for 0-bits decode back to that frame whenever short < average <= long |
| Dhtxx.ShiftInByte | src/dhtxx.c:283-288 | the eight uint8_t shift-or stores into a zeroed byte give FrameByte i (no bit is lost to truncation); no other byte changes |
| Dhtxx.PackBytes | src/dhtxx.c:281-289 | the nested loop over the zeroed 5-byte buffer gives exactly Frame |
| Dhtxx.ChecksumOk | src/dhtxx.c:294 | the checksum holds exactly when the sum of the four leading bytes less the fifth is a multiple of 256 |
| Dhtxx.ChecksumSelectsOneByte | src/dhtxx.c:294 | for any four leading bytes exactly one fifth byte passes the check: the low 8 bits of their sum |
| Dhtxx.Convert | src/dhtxx.c:305-316 | DHT11: in tenths, humidity and temperature have whole part byte 0 (byte 2) plus byte 1 / 10 (byte 3 / 10) and tenths digit byte 1 % 10 (byte 3 % 10), which is `data[0] + data[1] * 0.1` for any byte; DHT22: humidity is 16 bits, temperature magnitude is 15 bits, negative only with bit 7 of byte 2 set |
| Dhtxx.Dht22RoundTrip | src/dhtxx.c:311-315 | every reading a DHT22 can represent, encoded as humidity word, sign-and-magnitude temperature word and checksum, passes the checksum and converts back to itself |
| Dhtxx.Dht22FrameOfConvert | src/dhtxx.c:311-315 | every checksum-valid DHT22 frame except "negative zero" is the encoding of the reading it converts to |
| Dhtxx.Dht22NegativeZero | src/dhtxx.c:314 | the DHT22 frame with the sign bit set and magnitude 0 decodes to temperature 0, the same as with the sign bit clear |
| Dhtxx.Dht11FrameOfConvert | src/dhtxx.c:307-310 | every checksum-valid DHT11 frame with single-digit tenths bytes is the encoding of the reading it converts to |
| Dhtxx.Dht11CarryExample | src/dhtxx.c:308-309 | tenths bytes of 10 or more carry into the whole part: bytes 25, 25 give 27.5 %RH and bytes 26, 12 give 27.2 degrees |
| Dhtxx.Dht11RoundTrip | src/dhtxx.c:307-310 | every reading held to whole and tenths digits, encoded as DHT11 bytes, passes the checksum and converts back to itself |
| Dhtxx.Validate | src/dhtxx.c:320-363 | accepted unchanged exactly when humidity and temperature are both in the closed intervals (DHT11 [20,90] and [0,50], DHT22 [0,100] and [-40,80], in tenths); humidity failure (code 7) exactly when humidity is out; temperature failure (code 8) exactly when humidity is in and temperature is out |
| Dhtxx.Dht22TemperatureBounds | src/dhtxx.c:353-360 | -40.0 and 80.0 are accepted; -40.1 and 80.1 fail with code 8 |
| Dhtxx.Interpret | src/dhtxx.c:270-363 | success exactly when the frame's checksum holds and the converted reading passes validation; checksum failure (code 6) exactly when the checksum does not hold; every failure has code 6, 7 or 8 |
| Dhtxx.DecodeTicks | src/dhtxx.c:270-363 | the source's averaging, packing, checksum, conversion and range checks give exactly Interpret |
| Dhtxx.Sample | src/dhtxx.c:186-258 | no response (code 3) exactly when the wait's run reaches the ceiling; every failure is code 3, 4 or 5 with a pulse index below 41; a success holds 41 low and 41 high counts |
| Dhtxx.SampleAfterWait | src/dhtxx.c:205-209 | once the wait has ended, the sample is decided by the capture that starts at the next read |
| Dhtxx.Sense | src/dhtxx.c:186-258 | the wait loop followed by the capture loops gives exactly Sample, with every low count below 32000 on success |
| Dhtxx.ArgumentsOk | src/dhtxx.c:147 | the argument check; every pin it accepts has its select word, set and clear registers inside the 1024-word window |
| Dhtxx.Acquisition | src/dhtxx.c:133-369 | the outcome of one call: a success lies inside both ranges of the variant, and every failure with a code from 3 up had good arguments and a mapped window |
| Dhtxx.Measure | src/dhtxx.c:186-363 | once the arguments are good and the window is mapped, every failure has a code from 3 to 8 |
| Dhtxx.EarlyFailuresExactly | src/dhtxx.c:147-159 | code 1 exactly when the pin is outside 1..40, the type is neither DHT11 nor DHT22, or an output is null; code 2 exactly when the arguments are good and the mapping fails |
| Dhtxx.NoResponseExactly | src/dhtxx.c:186-197 | with good arguments and a mapped window, code 3 exactly when the first 32000 reads are all high |
| Dhtxx.TimeoutsNamePulse | src/dhtxx.c:226-256 | a code 4 or 5 failure names a pulse index from 0 to 40 |
| Dhtxx.SuccessMeans | src/dhtxx.c:294-368 | a success implies good arguments and a complete capture; the frame decoded from it passes the checksum; the reading is that frame's conversion and lies inside both ranges |
| Dhtxx.Handshake | src/dhtxx.c:165-177 | the window after set_output, write 1, write 0, set_input keeps its size and leaves the pin in input mode (000) |
| Dhtxx.HandshakeMeaning | src/dhtxx.c:165-177 | after set_output, write 1, write 0, set_input: the pin is in input mode (000), its select word is what set_input alone leaves, the set and clear registers hold the pin's mask, and no other word changes |
| Dhtxx.HighPinPassesCheck | src/dhtxx.c:147 | pins 31 and 33 pass the argument check although the source's signed `1 << num` is defined only below 31: pin 31's bit is 2^31, beyond the largest `int`, and pin 33's level and output bit is bit 1 of the second bank |
| Dhtxx.Get | src/dhtxx.c:133-369 | either code 0 with the reading's humidity and temperature written out, or the failure's code with both outputs untouched; the window is untouched on codes 1 and 2, and otherwise is as the handshake leaves it |
| Dhtxx.Dht11Example | src/dhtxx.c:307-341 | frame [25, 0, 26, 0, 51] is accepted as 25.0 %RH and 26.0 degrees |
| Dhtxx.Dht22Example | src/dhtxx.c:311-362 | frame [0x01, 0x90, 0x00, 0xFA, 0x8B] is accepted as 40.0 %RH and 25.0 degrees |
| Dhtxx.Dht22NegativeExample | src/dhtxx.c:314 | a DHT22 frame with the sign bit set and magnitude 0x065 decodes to -10.1 degrees |

## Left out

- Scheduling priority changes (`dhtxx_set_priority_max` and `dhtxx_set_priority_normal`,
  src/dhtxx.c:37-68): these are operating-system calls whose result `dhtxx_get` ignores.
- The timing helpers `dhtxx_millisleep` and `dhtxx_milliwait` (src/dhtxx.c:71-128) and
  the volatile 50-step delay loop (src/dhtxx.c:182): wall-clock and compiler concerns,
  modelled as no-ops.
- The sensor's timing: the level stream is an input. Nothing ties it to the pulses the
  handshake provokes or to the time between reads.
- `Get` does not call `Gpio.Read` per poll. The reads of the level register are the
  stream `level`. `Gpio.Read` specifies what one read returns, but the model does not
  tie the stream to the window's level word, which hardware changes behind the
  program's back.
- The `errstr` messages (`snprintf` text and the `%8.3f` formatting): only the return
  codes and the error kinds are modelled.
- Floating point: readings are exact integers in tenths, not `float`s. The float
  comparisons against the range limits are modelled as exact comparisons, so float
  rounding at a limit is not modelled.
- File and memory plumbing in `dhtxx_gpio_base` and `dhtxx_gpio_init` (`open`, `lseek`,
  `read`, `mmap`, `close`). Each step's success or failure is a field of
  `Gpio.RangesFile` or `Gpio.Platform`. The mapped window itself is a given array, and
  `Get` only learns whether `Gpio.Init` succeeded.
- Gpio.Init: the null-argument case (code 1) cannot arise, because `dhtxx_get` always
  passes the address of its own variable.
- Gpio.Base: the null-argument case (code 1) cannot arise, because `dhtxx_gpio_init`
  always passes the address of its own variable.
- Gpio.Base: composes the bytes in 32-bit unsigned arithmetic, the corrected half of the
  second finding below, rather than the source's signed `buf[0] << 24`.
- Dhtxx.Convert: the source yields the float -0.0 for the DHT22 "negative zero" frame;
  the model yields 0 tenths, which passes the range checks as -0.0 does
  (`Dhtxx.Dht22NegativeZero`).
- Concurrency and the `volatile` qualifier on the register window: the window changes
  only through the model's own methods.
- src/main.c (the command-line front end) and src/modpython.c (the Python binding) are
  not part of this model.

## Findings

In the first row, `Dhtxx.HighPinPassesCheck` exhibits pins 31 and 33, which pass the
argument check but lie outside the domain of `Gpio.SourceMask`. The corrected `Gpio.WriteRegs`,
`Gpio.Write` and `Gpio.Read` address the pin's bank with `Gpio.PinMask` and `Gpio.Bank`,
and `Gpio.PinMaskAgreesBelow31` proves they agree with the source below 31. In the second
row, `Gpio.HighBaseOverflows` exhibits the overflowing address. `Gpio.BigEndian` is
proved a bijection with `Gpio.WordBytes` by `Gpio.BigEndianOfWordBytes` and
`Gpio.WordBytesOfBigEndian`.

| source | as written | input that shows it | evidently intended | confidence | as-written member | corrected member |
|---|---|---|---|---|---|---|
| src/gpio.c:211 | `dhtxx_get` accepts pins up to 40 (src/dhtxx.c:147). `dhtxx_gpio_read` and `dhtxx_gpio_write` (src/gpio.c:228) then compute `1 << num` on a signed 32-bit `int`, which is undefined for pins 31 to 40 (for 31 the result 2^31 exceeds 0x7FFFFFFF, from 32 on the count reaches the width), and always address the first level, set and clear registers | pin 31, pin 33 | pin 31 uses bit 31 of the first bank; pins 32 and up use the second bank: word 13 + num/32 (level), 7 + num/32 (set) and 10 + num/32 (clear), bit num % 32 | not executed; the undefined shift is certain, the intended behaviour is inferred | Gpio.SourceMask | Gpio.WriteRegs |
| src/gpio.c:98 | `buf[0] << 24` shifts a byte promoted to a signed 32-bit `int`, which C leaves undefined once the result exceeds 0x7FFFFFFF | a ranges file whose parent address is 0xFE000000 (first byte 0xFE) | the unsigned big-endian composition of the four bytes | not executed; the overflow follows from the C rules for `<<` on a signed `int`, the intended value from the `uint32_t` destination | Gpio.SourceLeadShift | Gpio.BigEndian |
