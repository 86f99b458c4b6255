# co2mon in Dafny

A model of `co2meter::Co2meter` from `co2mon.hpp`. This is the driver for
USB CO2 monitors that report over HID. The device sends 8-byte input reports
scrambled with a fixed key.

The model covers four parts:

- **Cipher** (`cipher.dfy`): `Decrypt`, the two loops that unscramble a
  frame.
  - The first loop is a shuffled XOR with the key. The second subtracts a
    nibble-swapped constant after rotating the 64-bit frame right by three
    bits.
  - Both loops are written as imperative methods over local arrays.
  - Each is proved against a value function (`XorStage`, `RotateStage`,
    `UnmaskStage`).
  - The value functions are proved to have an inverse (`Encrypted`), so
    decryption is a bijection on frames.
- **Records** (`records.dfy`): what the validation half of `ReadDataRaw`
  does with a decrypted frame.
  - The marker byte `0x0d` at index 4 is checked first. Then byte 3 is
    compared with the checksum, the sum of bytes 0..2 in an `unsigned char`
    accumulator, i.e. modulo 256.
  - A frame that passes yields its record code (byte 0) and its big-endian
    payload (bytes 1 and 2).
  - Code `0x50` is CO2 in ppm. Code `0x42` is temperature, stored as
    `raw/16 - 273.15` degrees Celsius.
  - Also here: the 9-byte feature report `SendKey` sends, with its check of
    the response, and the failure cases of `Open`.
- **NumericText** (`numeric_text.dfy`): `join_numeric`, which writes the
  hexadecimal byte dump carried by both validation errors. It is proved to
  read back into the eight bytes.
- **Monitor** (`monitor.dfy`): the `Co2meter` class.
  - **State:** the two `std::optional` slots, whether a monitor thread
    exists, and the stop flag. A ghost log of accepted frames states what
    the slots mean (`Valid`): each slot holds the reading of the most recent
    accepted frame of its kind.
  - **`ReadDataRaw`:** decrypts, validates and updates a slot. It returns
    either the code or the error that the source throws.
  - **`ReadData`:** the poll cycle. It makes at most `max_requests` reads and
    ends early once a temperature and a CO2 frame have both been seen. A
    validation error ends it, and what earlier frames stored is kept.
  - **Lifecycle:** `StartMonitoring` and `StopMonitoring` are a state
    machine over the thread handle. One pass of the monitor thread's loop is
    `MonitorIteration`.
  - **Getters:** `GetCo2` and `GetTemp`.

The device and the clock are parameters. In a poll cycle, `device(k)` is the
frame returned by the k-th `hid_read_timeout`. `clock(k)` is the
`system_clock::now()` reading taken when that frame is stored.

A thrown `std::runtime_error` becomes the `Err` side of a `Result`, and
`ReadData`'s early exit through an exception becomes the `Aborted` outcome.

The loop bound compares a `size_t` counter with the `int` argument, so a
negative `max_requests` is converted to a 64-bit unsigned bound. `ReadBound`
models this conversion as written.

## Model

| member | source | states |
|---|---|---|
| Cipher.ShuffleIsPermutation | co2mon.hpp:155 | the shuffle table is a permutation of 0..7 and its own inverse, so each working byte is written once |
| Cipher.SwapNibbles | co2mon.hpp:165 | the nibble swap on an unsigned char is a rotation by four bits and undoes itself |
| Cipher.XorStagePlacement | co2mon.hpp:158-162 | after stage one, position `shuffle[i]` holds input byte i XORed with key byte `shuffle[i]` |
| Cipher.Prev | co2mon.hpp:166 | `(i - 1 + 8) % 8` is the cyclic predecessor of i |
| Cipher.RotateStageIsWordRotation | co2mon.hpp:163-167 | the shift-and-or of each byte with its predecessor is the 64-bit big-endian frame rotated right by 3 |
| Cipher.DecryptedByte | co2mon.hpp:163-167 | byte i of the decryption joins the high five bits of stage-one byte i with the low three of byte i-1, minus the nibble-swapped constant byte i |
| Cipher.ShuffleXor | co2mon.hpp:156-162 | the first loop leaves exactly the stage-one frame in `data_xor`, every position written |
| Cipher.RotateSubtract | co2mon.hpp:163-167 | the second loop leaves the rotated, unmasked frame in `results` |
| Cipher.Decrypt | co2mon.hpp:152-169 | the method returns exactly the decryption of its input |
| Cipher.DecryptEncrypt | co2mon.hpp:152-169 | every frame is the decryption of some raw frame, namely its encryption |
| Cipher.EncryptDecrypt | co2mon.hpp:152-169 | decryption loses nothing: encryption recovers the raw frame, so decryption is a bijection |
| Records.ChecksumIsLowByte | co2mon.hpp:189 | the checksum is the sum of bytes 0..2 modulo 256, as the unsigned char accumulator of `std::reduce` gives |
| Records.Payload | co2mon.hpp:207 | the value is `d[1] * 256 + d[2]`, in 0..65535 |
| Records.Validate | co2mon.hpp:188-206 | a frame is accepted iff byte 4 is 0x0d and byte 3 equals the checksum; its code is byte 0; otherwise a marker error, or a checksum error naming both values, with the decrypted bytes |
| Records.MarkerCheckedFirst | co2mon.hpp:190-199 | a wrong marker is reported as a marker error whatever byte 3 holds |
| Records.ChecksumIgnoresByte3 | co2mon.hpp:189 | the checksum does not depend on byte 3 |
| Records.ChecksumDecides | co2mon.hpp:195-199 | with the marker right, exactly one value of byte 3 is accepted; any other is a checksum error with that byte and the true sum |
| Records.DumpReadsBack | co2mon.hpp:193 | the error dump splits at spaces into eight hexadecimal numbers that are the decrypted bytes in order |
| Records.Celsius | co2mon.hpp:212 | the stored temperature t satisfies `(t + 273.15) * 16 == raw` |
| Records.CelsiusOrder | co2mon.hpp:212 | the temperature scale is strictly increasing in the raw value |
| Records.CelsiusRange | co2mon.hpp:212 | a 16-bit raw value gives a temperature in [-273.15, 3822.85) |
| Records.KeyReport | co2mon.hpp:173-174 | the report is nine bytes: report id 0, then the eight key bytes |
| Records.SendKeyStatus | co2mon.hpp:175-180 | sending the key succeeds iff the response equals the report size, 9; otherwise the error carries the response and 9 |
| Records.OpenStatus | co2mon.hpp:74-84 | Open succeeds iff a device with ids 0x4d9/0xa052 is found and the key is then sent in full; each failure names its cause |
| Records.TemperatureExample | co2mon.hpp:206-218 | a concrete temperature frame validates with code 0x42, payload 0x1234, 18.1 degrees |
| Records.Co2Example | co2mon.hpp:219-228 | a concrete CO2 frame validates with code 0x50 and 1000 ppm |
| NumericText.DigitsShape | co2mon.hpp:44 | a number's text is non-empty, uses only the base's digits and has no leading zero |
| NumericText.DigitsRoundTrip | co2mon.hpp:44 | a number's text in any of the three bases reads back as the number |
| NumericText.JoinNumeric | co2mon.hpp:33-47 | the loop builds the items' texts with the delimiter before each item but the first |
| NumericText.JoinSplit | co2mon.hpp:33-47 | with a one-character non-digit delimiter, the joined text splits back into the items' texts |
| NumericText.JoinReadsBack | co2mon.hpp:33-47 | the joined text splits into as many numbers as items, each reading back as its item |
| Monitor.ReadBound | co2mon.hpp:90 | the read bound is `max_requests` for non-negative values and `max_requests + 2^64` for negative ones |
| Monitor.ReadSpec | co2mon.hpp:183-229 | a raw frame is accepted iff its decryption has the marker and a matching checksum; it is then the sample of code, payload and time; otherwise the validation error |
| Monitor.Latest | co2mon.hpp:208-228 | the index of the last sample with a code, none iff no sample has it |
| Monitor.LatestSpec | co2mon.hpp:140-149 | a slot is empty iff no frame of its kind was accepted; otherwise it holds the reading and time of the most recent one |
| Monitor.Samples | co2mon.hpp:88-103 | when all n reads are accepted, the cycle logs exactly those n samples, in order |
| Monitor.SeenIff | co2mon.hpp:92-100 | a kind has been seen iff some earlier read was accepted with its code |
| Monitor.PollFromSpec | co2mon.hpp:88-103 | from any state the flags describe, the rest of the loop completes or aborts as the two lemmas below state |
| Monitor.PollCompleted | co2mon.hpp:88-103 | a completed cycle read only good frames, at most the bound; it stopped at the first read after which both kinds were seen, or at the bound |
| Monitor.PollAborted | co2mon.hpp:88-103 | an aborted cycle stopped at its first bad frame, within the bound, before both kinds were seen, with that frame's error |
| Monitor.PollWithGoodFrames | co2mon.hpp:88-103 | with only good frames within the bound, a cycle completes |
| Monitor.EarlyEndRefreshesBoth | co2mon.hpp:101-102 | a cycle that ends before the bound leaves both slots holding readings from frames of this cycle |
| Monitor.FreshestFromCycle | co2mon.hpp:92-100 | if a kind was seen in the cycle, its latest sample is the cycle's last frame of that kind |
| Monitor.Co2meter.constructor | co2mon.hpp:73 | both slots start empty, no monitor runs, the stop flag is down |
| Monitor.Co2meter.ReadDataRaw | co2mon.hpp:183-230 | returns the code or the validation error; an accepted temperature or CO2 frame replaces just its slot with the time stamp; a rejected frame changes nothing |
| Monitor.Co2meter.ReadData | co2mon.hpp:86-104 | the outcome is the poll specification over the device's frames with the converted bound; the log grows by exactly the cycle's accepted samples |
| Monitor.Co2meter.PollCycle | co2mon.hpp:88-103 | the loop computes the poll specification and keeps the slots consistent with the log |
| Monitor.Co2meter.MonitorIteration | co2mon.hpp:112-121 | with the stop flag raised the pass exits and changes nothing; otherwise it runs one poll cycle with the default bound of 50 |
| Monitor.Co2meter.StartMonitoring | co2mon.hpp:107-123 | afterwards a monitor exists; a new one is started only if none existed |
| Monitor.Co2meter.StopMonitoring | co2mon.hpp:126-138 | afterwards no monitor exists; if one existed, the stop flag is down again; otherwise nothing changes |
| Monitor.Co2meter.GetCo2 | co2mon.hpp:140-144 | returns the most recent accepted CO2 reading, or none |
| Monitor.Co2meter.GetTemp | co2mon.hpp:145-149 | returns the most recent accepted temperature reading, or none |

## Left out

- hidapi I/O is not modelled (`hid_open`, `hid_read_timeout`, `hid_send_feature_report`, `hid_close`, `hid_exit`). Reading is the `device` parameter and the outcome of `hid_open` and of sending the key are parameters of `OpenStatus`. The source also ignores the return value of `hid_read_timeout`. A read that times out leaves the buffer uninitialised, so it is modelled as an arbitrary frame.
- `std::chrono::system_clock::now()` is the `clock` parameter.
- Threads, `std::mutex`, `MutexData` and `sleep_for` are not modelled, because each method is taken to run to completion, one at a time.
- Monitor.Co2meter.StartMonitoring: records only that a monitor now runs. The thread body is `MonitorIteration`, and the observation cycle is unused because sleeping is not modelled.
- Monitor.Co2meter.StopMonitoring: `join` is modelled as the thread having exited at its next check of the stop flag.
- `thread_monitoring.release()` drops the thread object without deleting it. That leak is not modelled.
- An exception that escapes the monitor thread calls `std::terminate`. This is modelled only as the `Aborted` outcome of the pass.
- Records.Celsius: the `double` computation `value * 0.0625 - 273.15` is modelled in exact real arithmetic, so floating-point rounding is not captured.
- `format` is not modelled, and neither are the exception message texts other than the byte dump or the `%x` formatting of the single values. The error datatypes carry the values the messages print.
- The DEBUG output is not modelled; it is compiled out (`DEBUG` is `false`).
- NumericText.JoinNumeric: `join_numeric` is a template over any container. It is modelled for byte sequences, the only kind it is used on, with the promotion `+(*iter)` to int.
- `logger/main.cpp` and the rest of the repository are not part of this model.
- Monitor.Co2meter.PollCycle: takes a ghost parameter naming what each read yields. `ReadData` supplies it from the device and the clock, so callers see only the source's arguments.
