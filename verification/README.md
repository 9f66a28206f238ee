# cef168 lens adapter: a Dafny model

The cef168 adapter drives an electronic camera lens over I2C. This project
models the two parts of its software that carry the logic:

- the Linux V4L2 sub-device driver, `cef168.c` and `cef168.h`. It turns
  control writes into 4-byte command frames, each sealed with a CRC-8 and
  retried on transient bus errors. It turns control reads into checked
  15-byte telemetry frames.
- the user-space calibration tool, `calibrate.cpp`. It starts the adapter's
  focus sweep over the raw I2C bus or through the driver. It polls
  telemetry until the sweep ends and builds a piecewise-linear (PWL) map
  from inverse focus distance to lens position, keeping the smallest
  position per distance. It prints the parameters for the `rpi.af` section
  of a camera tuning file.

Modules, one per concern:

- `Wrappers`: `Option` and `Result`.
- `Bytes`: byte and 16/32-bit ranges, and the little-endian split.
- `Crc8`: two forms of the checksum.
  - the bit-serial CRC (polynomial 0xA8, MSB first, seed 0xFF);
  - the kernel's table-driven form, proved equal to it;
  - a proof that every single-bit error is detected.
- `Protocol`: command codes, control ids, the command frame and the
  telemetry frame with their encoders and decoders.
- `Driver`: `cef168_i2c_write` with its retry policy, `cef168_i2c_read`,
  `cef168_set_ctrl` and `cef168_get_ctrl`.
- `Pwl`: the ordered point set and its `update`.
- `Calibrate`: the two transports, the polling loop, the reduction to the
  report, and a whole session.
- `Cli`: `toLower`, `parseArgs`, `parseAddr` with `std::stoi` in base 16,
  and the choice of transport.

The device is an oracle everywhere:

- a send is the sequence of `i2c_master_send` results;
- a receive is what `i2c_master_recv` or `read` delivered, as bytes or an
  error;
- a poll is the telemetry read plus the elapsed milliseconds that the loop
  condition reads.

Three facts about the code shape the model:

- The telemetry frame is 15 bytes (`struct cef168_data` is packed: 1 + 1 +
  6×2 + 1).
- Both sides seed the CRC with 0xFF: `CRC8_INIT_VALUE` at cef168.c:41 and
  cef168.c:70, the default argument at calibrate.cpp:157.
- Only the kernel retries a failed write: the tool's own I2C `calibrate`
  writes once.

## Model

| member | source | states |
|---|---|---|
| Bytes.Le16 | cef168.c:78-83 | a 16-bit field read little-endian from its two bytes has those bytes as its low and high byte |
| Bytes.Le16OfSplit | cef168.c:39-40 | splitting a value into `val & 0xff` and `val >> 8` and reading the bytes back gives the value |
| Bytes.ToU16 | cef168.c:34 | passing the control's `int` value as the `u16` argument keeps every value in 0..65535 and reduces the rest modulo 2^16 |
| Crc8.Crc8Msb | calibrate.cpp:157-169 | the tool's nested bit loop computes the CRC of the data from the given seed |
| Crc8.Table | cef168.c:287 | the table `crc8_populate_msb` fills has 256 entries, one per byte value |
| Crc8.TableCrc | cef168.c:69-70 | the kernel's `crc8()`, one table lookup per byte, gives the same CRC as the bit-serial loop, for every seed and input |
| Crc8.CrcAppend | calibrate.cpp:159-167 | absorbing a concatenation is absorbing its parts in turn |
| Crc8.StepLinear | calibrate.cpp:161-165 | one shift of the register is linear over XOR |
| Crc8.ShiftLinear | calibrate.cpp:161-165 | any number of shifts is linear over XOR |
| Crc8.XorShiftDifference | calibrate.cpp:160-166 | absorbing the same byte into two registers keeps the shifted difference of the registers |
| Crc8.CrcSeedDifference | calibrate.cpp:159-167 | the difference of two CRC runs over the same data depends only on the difference of the seeds and the data length |
| Crc8.StepAvoidsUndetectable | cef168.h:38 | with polynomial 0xA8, a register difference outside the eight undetectable values stays outside after a shift |
| Crc8.ShiftAvoidsUndetectable | cef168.h:38 | a difference outside the undetectable values stays outside after any number of shifts |
| Crc8.ShiftRoundsAvoidsUndetectable | cef168.h:38 | a difference outside the undetectable values stays outside after any number of bytes |
| Crc8.SingleBitDetectable | cef168.h:38 | no single-bit pattern is one of the undetectable values |
| Crc8.FirstByteDifference | calibrate.cpp:159-167 | two runs that differ only in the first byte end apart by that byte difference carried through the rest |
| Crc8.RegisterDetectsError | calibrate.cpp:159-167 | changing one input byte by a pattern outside the undetectable values always changes the CRC |
| Crc8.CrcDetectsSingleBitError | calibrate.cpp:134-136 | inverting any one bit of the data changes the checksum, whatever the seed |
| Protocol.CommandCodesDistinct | cef168.h:30-36 | the seven command codes are pairwise different |
| Protocol.PolynomialFitsByte | cef168.h:38 | the polynomial 168 fits the 8-bit register |
| Protocol.CustomIndex | cef168.h:9 | the four custom controls are numbered 0 to 3 in declaration order |
| Protocol.CustomIds | cef168.h:6-9 | a custom control id, `CustomId`, is `V4L2_CID_USER_BASE` with bits 168 set, plus its index, 0x009809A8..0x009809AB, and different controls have different ids |
| Protocol.CustomIdsAreNotStandard | cef168.c:93-104 | no custom id collides with the four standard focus and iris ids the driver also handles |
| Protocol.CrcValid | cef168.c:69-75 | a frame passes the check exactly when it is 15 bytes long and its last byte is the kernel's table CRC of the 14 bytes before it, which is also the tool's bit-serial CRC |
| Protocol.EncodeCommand | cef168.c:39-41 | a command frame is 4 bytes: the command, the argument low byte then high byte, then the CRC of those three |
| Protocol.DecodeCommand | cef168.c:39-41 | a 4-byte frame decodes exactly when its last byte is the CRC of the first three |
| Protocol.DecodeEncodeCommand | cef168.c:39-41 | decoding an encoded command gives back the command and its argument |
| Protocol.EncodeDecodeCommand | cef168.c:39-41 | every frame that decodes is the encoding of what it decodes to |
| Protocol.CalibrateChecksum | calibrate.cpp:116 | the CRC of `0x22 0 0` is 0x30 |
| Protocol.CalibrateFrameIsEncoded | calibrate.cpp:116 | the tool's fixed frame `{0x22, 0, 0, 0x30}` is the driver's encoding of the calibrate command with argument 0 |
| Protocol.Serialize | cef168.h:14-25 | a record lays out as 15 packed bytes: id, flag byte, six little-endian 16-bit fields, CRC |
| Protocol.Telemetry.Moving | cef168.h:16 | the `moving` bitfield is bit 0 of the flag byte |
| Protocol.Telemetry.Calibrating | cef168.h:16-17 | the `calibrating` bitfield is bits 1 and 2 of the flag byte, so with `moving` it makes up the low three bits |
| Protocol.Parse | cef168.c:78-83 | a 15-byte frame reads as a record with each field taken from its bytes |
| Protocol.ParseSerialize | cef168.c:78-83 | reading a laid-out record gives the record back |
| Protocol.SerializeParse | cef168.c:78-83 | laying out a read frame gives the frame back |
| Protocol.Seal | cef168.h:24 | a record with its CRC byte recomputed passes the check and differs from the original in that byte only |
| Protocol.CorruptedFrameRejected | cef168.c:69-76 | a valid frame with any one bit inverted, data or CRC byte, fails the CRC check |
| Protocol.CorruptedDataRejected | cef168.c:69-76 | inverting one bit among the 14 covered bytes makes the frame fail the check |
| Protocol.CorruptedCrcRejected | cef168.c:71-76 | inverting one bit of the CRC byte makes the frame fail the check |
| Driver.Transient | cef168.c:47 | the two send results the write retries after are error codes, never a byte count |
| Driver.WriteSpecUnique | cef168.c:43-54 | the send results determine the outcome of the write and the number of attempts |
| Driver.Retry | cef168.c:43-50 | from any attempt reached after transient failures only, the retry loop ends as the write policy says |
| Driver.Write | cef168.c:43-54 | a write makes 1 to 3 attempts; it retries only after -EIO or -EREMOTEIO; it returns 0 exactly when the last attempt sent 4 bytes, and -EIO otherwise |
| Driver.I2cWrite | cef168.c:34-55 | the retry loop meets the write policy, and it succeeds exactly when some attempt sent all 4 bytes |
| Driver.I2cWriteIsWrite | cef168.c:43-54 | the loop and the functional model of the write agree on every send sequence |
| Driver.Command | cef168.c:88-110 | the driver sends a command for the focus and iris absolute/relative ids and the calibrate id, and for nothing else |
| Driver.RelativeCommandRoundTrip | cef168.c:96-103 | a relative move within the control's range becomes the N or P command with the magnitude, which together give the signed steps back |
| Driver.AbsoluteCommandExact | cef168.c:94-100 | an absolute focus or iris value within the control's range is sent unchanged with the set-focus or set-aperture command |
| Driver.SetCtrl | cef168.c:88-110 | an unknown id gives -EINVAL and sends nothing; a known id sends its encoded command as often as the write attempts it and returns the write's result |
| Driver.CommandCalibrate | cef168.c:104-105 | the calibrate button sends the calibrate command with argument 0, whatever the value |
| Driver.SetCalibrateSendsCalibrateFrame | cef168.c:104-105 | every frame the calibrate button puts on the bus is `{0x22, 0, 0, 0x30}` |
| Driver.KernelChecksum | cef168.c:69-70 | the kernel's `crc8()` with the populated table and `CRC8_INIT_VALUE` computes the protocol checksum |
| Driver.KernelRead | cef168.c:57-86 | a read succeeds exactly when 15 bytes arrived and their CRC checks; it then returns the record those bytes encode, and -EIO otherwise |
| Driver.KernelReadSealed | cef168.c:57-86 | a frame the adapter sealed is read back as that record |
| Driver.FocusRangeWord | cef168.c:131-135 | the focus range word holds the minimum position in its high half and the maximum in its low half |
| Driver.Readable | cef168.c:117-119 | of the three controls the driver reads, only the focus position can also be set; the calibrate button cannot be read |
| Driver.GetCtrl | cef168.c:112-142 | an unreadable id gives -EINVAL; a readable one succeeds exactly when the read does and fails with -EIO otherwise |
| Driver.GetCtrlRejectsBeforeRead | cef168.c:117-120 | an unreadable id is refused whatever the bus would deliver, so no read takes place |
| Driver.GetCtrlDataIsFrame | cef168.c:136-138 | the data control of a valid frame hands back exactly the 15 received bytes |
| Driver.GetCtrlFocusIsPosition | cef168.c:128-130 | the focus-absolute control reports the current focus position |
| Driver.GetCtrlFocusRange | cef168.c:131-135 | the focus-range control reports both position limits, which the word gives back |
| Pwl.Lookup | calibrate.cpp:172-180 | the set, ordered by distance alone, finds a position for a distance exactly when that distance is one of its keys |
| Pwl.Update | calibrate.cpp:182-196 | `update` keeps the set strictly ordered; it adds the new distance to the keys and grows by one exactly when the distance was new |
| Pwl.UpdateLookup | calibrate.cpp:182-196 | after `update` the new distance holds the smaller of the stored and the new position, and every other distance is unchanged |
| Pwl.SortedUnique | calibrate.cpp:176-179 | two ordered sets that agree on every lookup are equal |
| Pwl.UpdateIdempotent | calibrate.cpp:182-196 | inserting the same point twice changes nothing the second time |
| Pwl.Fold | calibrate.cpp:309-317 | inserting samples one after the other keeps the set ordered |
| Pwl.FoldLookup | calibrate.cpp:309-317 | after inserting samples, every distance holds the minimum over the stored position and the sampled ones |
| Pwl.BuildIsPerKeyMinimum | calibrate.cpp:291-317 | a set built from empty stores, for each distance, the smallest position sampled there |
| Pwl.FoldSnoc | calibrate.cpp:306-317 | inserting one more sample is one more `update` on the set built so far |
| Calibrate.I2cTrigger | calibrate.cpp:114-123 | the raw-bus trigger writes once, and what it writes is the driver's encoding of the calibrate command with argument 0; it succeeds exactly when all 4 bytes were written |
| Calibrate.SubDeviceTrigger | calibrate.cpp:52-66 | the sub-device trigger sets the calibrate control; the driver sends 1 to 3 frames and the trigger succeeds exactly when the driver's write did |
| Calibrate.TriggersSendCalibrateFrame | calibrate.cpp:114-123 | both transports put only the calibrate frame on the bus |
| Calibrate.I2cGetData | calibrate.cpp:125-155 | a raw read succeeds exactly when 15 bytes arrive with a valid CRC; a CRC mismatch reports the computed and the received byte |
| Calibrate.SubDeviceGetData | calibrate.cpp:68-93 | a read through the driver fails only as a failed control read |
| Calibrate.TransportsAgree | calibrate.cpp:125-155 | the tool's own CRC check and the driver's accept the same transfers and decode them to the same record |
| Calibrate.Sampled | calibrate.cpp:309-310 | a poll is sampled exactly when bit 2 of its flag byte is set, bit 1 is clear, and the minimum distance is nonzero |
| Calibrate.InverseDistanceOrder | calibrate.cpp:311-316 | the key `InverseDistance(d)`, which is `100 / (double)d`, orders distances in reverse: nearer distances give larger keys, and different distances give different keys |
| Calibrate.SampleOf | calibrate.cpp:309-316 | a sampled poll contributes its current focus position at key 100 / minimum distance |
| Calibrate.Continue | calibrate.cpp:326-329 | the loop goes on during the first 100 ms and after every sampled poll; it stops only once both calibrating bits of the flag byte are clear |
| Calibrate.CurveStep | calibrate.cpp:306-317 | one more successful poll updates the set with its sample exactly when it was sampled |
| Calibrate.Run | calibrate.cpp:304-329 | the polling loop reads at least once; it ends at the first failed read with that error, or at the first read showing the sweep over after 100 ms with the set of all samples so far |
| Calibrate.CalibrationLoop | calibrate.cpp:304-329 | the `do … while` loop meets the same polling contract |
| Calibrate.LoopSpecUnique | calibrate.cpp:304-329 | the polls determine how the loop ends |
| Calibrate.Reduce | calibrate.cpp:333-366 | an empty set is the "No PWL points" error; otherwise min is the smallest key, max and default are the largest, and the map is the whole ordered set |
| Calibrate.Session | calibrate.cpp:302-366 | a failed trigger is reported; a report comes only from a loop that finished; any other error comes from a failed read or from an empty set |
| Calibrate.CurveIsPerKeyMinimum | calibrate.cpp:306-317 | the set has a distance exactly when some poll was sampled there, and it stores the smallest position sampled there |
| Calibrate.ReportIsPerKeyMinimum | calibrate.cpp:333-366 | the printed map of a finished loop holds the smallest position sampled at each distance; min and max are sampled keys bounding every key, and default equals max |
| Cli.ToLower | calibrate.cpp:198-204 | lower-casing keeps the length and lowers each character with `LowerChar`, which models `::tolower` and changes only ASCII capitals |
| Cli.ToLowerIdempotent | calibrate.cpp:198-204 | lower-casing twice is lower-casing once |
| Cli.Find | calibrate.cpp:236 | `find('=')` gives the first position of the character, or none when it is absent |
| Cli.ParseFrom | calibrate.cpp:215-258 | parsing only adds or overwrites options: every key present before is present after |
| Cli.ParseArgs | calibrate.cpp:207-259 | every default is still set after parsing, unless the help text ends the program, which happens only when some argument asks for help |
| Cli.HelpOnlyWhenAsked | calibrate.cpp:221-232 | the help exit happens only when some argument is `-h` or `--help` in any case |
| Cli.HelpFirst | calibrate.cpp:221-232 | a help argument in first place ends parsing with the help exit |
| Cli.KeyEqualsValue | calibrate.cpp:235-240 | `--key=value` stores the lowered key with the value in its original case, and parsing goes on with the next argument |
| Cli.KeySpaceValue | calibrate.cpp:241-246 | `--key value` stores the lowered key with the next argument and consumes it |
| Cli.ShortOption | calibrate.cpp:247-256 | `-d value` and `-a value` store the device or the address and consume the value |
| Cli.DanglingLongOption | calibrate.cpp:241-246 | a `--key` without `=` as the last argument has no value to take and changes nothing |
| Cli.DanglingShortOption | calibrate.cpp:249-256 | `-d` or `-a` as the last argument has no value to take and changes nothing |
| Cli.ParseLeavesAlone | calibrate.cpp:215-258 | an option that no argument can set keeps the value it had before parsing |
| Cli.DefaultsSurvive | calibrate.cpp:279-287 | after parsing, the device and the address are always set, and each keeps its default, `/dev/v4l-subdev1` or `0x0d`, when no argument can set it |
| Cli.SelectDevice | calibrate.cpp:294-300 | the raw bus is selected exactly when the path has `i` or `I`, then `2`, then `c` or `C` somewhere; any other path selects the sub-device |
| Cli.SelectDeviceIgnoresCase | calibrate.cpp:295 | a path and its lower-cased form select the same transport |
| Cli.SelectDeviceExamples | calibrate.cpp:281-300 | the default `/dev/v4l-subdev1` selects the sub-device and `/dev/I2C-1` the raw bus |
| Cli.ReadDigits | calibrate.cpp:267 | `std::stoi` fails without a digit or with a value outside `int`, and otherwise returns the hexadecimal value, negated after a `-` |
| Cli.Stoi16 | calibrate.cpp:267 | `std::stoi` in base 16 returns only values that fit an `int`, and fails on a string without any hexadecimal digit |
| Cli.Stoi16Digits | calibrate.cpp:267 | a plain string of hexadecimal digits whose value fits an `int` is read whole |
| Cli.Stoi16Signed | calibrate.cpp:267 | digits behind `-` are read negated and behind `+` as they are, each exactly when the result fits an `int` |
| Cli.Stoi16Extremes | calibrate.cpp:267 | `-80000000` reads as the least `int`, `7fffffff` as the greatest, and `80000000` fails as out of range |
| Cli.ParseAddr | calibrate.cpp:261-273 | `parseAddr` returns only values that fit an `int`, and fails on an address without any hexadecimal digit |
| Cli.ParseAddrToHex | calibrate.cpp:261-273 | `0x` followed by the hexadecimal digits of an address parses back to that address |
| Cli.DefaultAddress | calibrate.cpp:285 | the default address `0x0d` is 13 |

## Left out

- lib/crc8.c is not part of this model. The table `crc8_populate_msb`
  fills is defined as the eight-shift image of each index, which is what
  an MSB-first table holds, and `crc8()` as one lookup per byte.
- Opening devices, `ioctl(I2C_SLAVE)`, `VIDIOC_S_CTRL`, `VIDIOC_G_EXT_CTRLS`
  and their errno values are left out. Each transfer's outcome is a
  parameter, and the V4L2 framework's dispatch of control ids to the
  driver callbacks is assumed.
- The driver's probe, power management, regulator and control
  registration are not modelled. Only the registered control ranges are
  used, as `Driver.InRange`.
- Big-endian hosts are not modelled: `cpu_to_le16`, `le16_to_cpu` and
  `le32_to_cpu` are the identity, as on the Raspberry Pi.
- Logging, the help text, the verbose print-out, the report's print
  formatting (`setprecision(3)`) and `usleep` are left out.
- The clock is left out. The elapsed time the loop condition reads after
  each poll is part of the poll.
- `double` arithmetic is not modelled: keys are exact reals `100 / d`. For
  16-bit `d` the rounded doubles keep the same order and distinctness, so
  the set behaves the same.
- The tool leaks the device object when an exception is thrown between
  `new` and `delete`. Memory is not modelled.
- Driver.FocusRangeWord: the `(min << 16) | max` word is stated as
  `min * 65536 + max`. The two agree because both halves are 16-bit.
- Driver.Write: the send oracle must supply three results, even when the
  write stops after fewer attempts.
- Driver.SetCtrl: the same three-result oracle applies to every control
  write.
- Calibrate.SubDeviceTrigger: the same three-result oracle applies.
- Calibrate.SubDeviceGetData: its own contract states only the error
  kind. The agreement with the raw-bus read is stated by
  `Calibrate.TransportsAgree`.
- Calibrate.Session: the loop is not modelled past the end of the supplied
  polls. Running out of polls is reported as no result.
- Driver.SetCalibrateSendsCalibrateFrame: this lemma states only the
  frames. `Driver.SetCtrl` states the return value.
- Crc8.Table: the contract states the size only. `Crc8.TableCrc`
  states what the entries are for.
- Cli.ReadDigits: `std::stoi` is modelled over the "C" locale's white
  space, sign, optional `0x` and hexadecimal digits. The two exceptions
  it throws are both modelled as no result, as `parseAddr` catches both.
- Cli.ParseLeavesAlone: the condition is sufficient, not exact. It also
  asks that values and longer keys starting with the key stay clear of
  `--key`, although parsing consumes values without reading them as options.
