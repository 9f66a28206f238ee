/**
  The logic of the cef168 kernel driver (`cef168.c`): the command write
  with its bounded retry, the checked telemetry read, and the two V4L2
  control callbacks built on them. The I2C bus is an oracle: the values
  successive `i2c_master_send` calls return, and what one
  `i2c_master_recv` call delivers.
 */
module Driver {
  import opened Bytes
  import opened Crc8
  import opened Protocol
  import opened Wrappers

  /** `EIO`: the error every failed transfer is reported as. */
  const EIO: int := 5
  /** `EREMOTEIO`: the other error an I2C adapter reports for a transfer the device did not acknowledge. */
  const EREMOTEIO: int := 121
  /** `EINVAL`: the answer to a control id the driver does not handle. */
  const EINVAL: int := 22

  /** The number of send attempts `cef168_i2c_write` makes at most. */
  const MaxAttempts: nat := 3

  /** A send result the driver tries again after: `-EIO` or `-EREMOTEIO`. */
  predicate Transient(ret: int): (t: bool)
    ensures t ==> ret < 0 && ret != CommandLen
  {
    ret == -EIO || ret == -EREMOTEIO
  }

  /** The result of a command write: the return value and how many sends it took. */
  datatype WriteOutcome = WriteOutcome(ret: int, attempts: nat)

  /**
    What `cef168_i2c_write` promises for the send results `sends`: it made
    between one and three attempts, every attempt but the last met a
    transient error, it stopped early only on a result it does not retry,
    and it returns 0 exactly when the last attempt sent all four bytes and
    `-EIO` otherwise.
   */
  ghost predicate WriteSpec(sends: seq<int>, w: WriteOutcome) {
    && 1 <= w.attempts <= MaxAttempts <= |sends|
    && (forall j :: 0 <= j < w.attempts - 1 ==> Transient(sends[j]))
    && (w.attempts < MaxAttempts ==> !Transient(sends[w.attempts - 1]))
    && (w.ret == 0 <==> sends[w.attempts - 1] == CommandLen)
    && (w.ret != 0 ==> w.ret == -EIO)
  }

  /** The send results determine the outcome of a write: two outcomes that both meet the promise are the same. */
  lemma WriteSpecUnique(sends: seq<int>, a: WriteOutcome, b: WriteOutcome)
    requires WriteSpec(sends, a) && WriteSpec(sends, b)
    ensures a == b
  {
  }

  /** The retry loop of `cef168_i2c_write` from attempt `attempt` on. */
  function Retry(sends: seq<int>, attempt: nat): (w: WriteOutcome)
    requires attempt < MaxAttempts <= |sends|
    requires forall j :: 0 <= j < attempt ==> Transient(sends[j])
    ensures WriteSpec(sends, w)
    decreases MaxAttempts - attempt
  {
    if sends[attempt] == CommandLen then WriteOutcome(0, attempt + 1)
    else if !Transient(sends[attempt]) || attempt + 1 == MaxAttempts then WriteOutcome(-EIO, attempt + 1)
    else Retry(sends, attempt + 1)
  }

  /** `cef168_i2c_write` as a function of the send results. */
  function Write(sends: seq<int>): (w: WriteOutcome)
    requires MaxAttempts <= |sends|
    ensures WriteSpec(sends, w)
  {
    Retry(sends, 0)
  }

  /**
    `cef168_i2c_write`'s loop: send the frame until it goes through, a
    non-transient error occurs or three attempts are spent. `sends[j]` is
    what the `j`-th `i2c_master_send` returns.
   */
  method I2cWrite(sends: seq<int>) returns (ret: int, attempts: nat)
    requires MaxAttempts <= |sends|
    ensures WriteSpec(sends, WriteOutcome(ret, attempts))
    ensures ret == 0 <==> exists j :: 0 <= j < attempts && sends[j] == CommandLen
  {
    var retry := 0;
    ret := sends[0];
    while retry < MaxAttempts
      invariant 0 <= retry <= MaxAttempts
      invariant forall j :: 0 <= j < retry ==> Transient(sends[j])
      invariant retry > 0 ==> ret == sends[retry - 1]
    {
      ret := sends[retry];
      if ret == CommandLen {
        return 0, retry + 1;
      } else if !Transient(ret) {
        break;
      }
      retry := retry + 1;
    }
    if retry == MaxAttempts {
      attempts := MaxAttempts;
    } else {
      attempts := retry + 1;
    }
    ret := -EIO;
  }

  /** The loop and the functional model of the write agree on every bus behaviour. */
  lemma I2cWriteIsWrite(sends: seq<int>, ret: int, attempts: nat)
    requires MaxAttempts <= |sends| && WriteSpec(sends, WriteOutcome(ret, attempts))
    ensures Write(sends) == WriteOutcome(ret, attempts)
  {
    WriteSpecUnique(sends, Write(sends), WriteOutcome(ret, attempts));
  }

  /** `S16_MIN` and `S16_MAX`, the bounds of the signed controls. */
  const S16Min: int := -0x8000
  const S16Max: int := 0x7FFF

  /** The value range the driver registers for control `id`: 0..S16_MAX for the absolute ones, S16_MIN..S16_MAX for the relative ones. */
  predicate InRange(id: int, val: int) {
    if id == CidFocusAbsolute || id == CidIrisAbsolute then 0 <= val <= S16Max
    else if id == CidFocusRelative || id == CidIrisRelative then S16Min <= val <= S16Max
    else true
  }

  /** `abs()` on a control value. */
  function Abs(x: int): (a: nat)
    ensures a == x || a == -x
  {
    if x < 0 then -x else x
  }

  /**
    The command and argument `cef168_set_ctrl` writes for control `id` set
    to `val`, or `None` for an id it does not handle. The argument is
    converted to `u16` as the call to `cef168_i2c_write` does.
   */
  function Command(id: int, val: int): (r: Option<(byte, u16)>)
    ensures r.Some? <==> id in {CidFocusAbsolute, CidFocusRelative, CidIrisAbsolute, CidIrisRelative, CustomId(Calibrate)}
  {
    if id == CidFocusAbsolute then Some((InpSetFocus, ToU16(val)))
    else if id == CidFocusRelative then Some((if val < 0 then InpSetFocusN else InpSetFocusP, ToU16(Abs(val))))
    else if id == CidIrisAbsolute then Some((InpSetAperture, ToU16(val)))
    else if id == CidIrisRelative then Some((if val < 0 then InpSetApertureN else InpSetApertureP, ToU16(Abs(val))))
    else if id == CustomId(Calibrate) then Some((InpCalibrate, 0))
    else None
  }

  /** How the adapter reads a relative command back as a signed step count. */
  function SignedSteps(cmd: byte, magnitude: u16): int {
    if cmd == InpSetFocusN || cmd == InpSetApertureN then -(magnitude as int) else magnitude
  }

  /** A relative control value in range reaches the adapter intact: sign in the command, magnitude in the argument. */
  lemma RelativeCommandRoundTrip(id: int, val: int)
    requires id == CidFocusRelative || id == CidIrisRelative
    requires InRange(id, val)
    ensures Command(id, val).Some?
    ensures SignedSteps(Command(id, val).value.0, Command(id, val).value.1) == val
    ensures Command(id, val).value.0 ==
      if id == CidFocusRelative then (if val < 0 then InpSetFocusN else InpSetFocusP)
      else (if val < 0 then InpSetApertureN else InpSetApertureP)
    ensures Command(id, val).value.1 == Abs(val)
  {
  }

  /** An absolute control value in range is sent unchanged. */
  lemma AbsoluteCommandExact(id: int, val: int)
    requires id == CidFocusAbsolute || id == CidIrisAbsolute
    requires InRange(id, val)
    ensures Command(id, val) == Some((if id == CidFocusAbsolute then InpSetFocus else InpSetAperture, val))
  {
  }

  /** The result of a control write: the return value and every frame put on the bus, in order. */
  datatype SetOutcome = SetOutcome(ret: int, frames: seq<seq<byte>>)

  /** `cef168_set_ctrl`: dispatch on the control id, then write the command with retries. */
  function SetCtrl(id: int, val: int, sends: seq<int>): (r: SetOutcome)
    requires MaxAttempts <= |sends|
    ensures Command(id, val).None? ==> r == SetOutcome(-EINVAL, [])
    ensures Command(id, val).Some? ==>
      && 1 <= |r.frames| == Write(sends).attempts <= MaxAttempts
      && r.ret == Write(sends).ret
      && (forall j :: 0 <= j < |r.frames| ==> r.frames[j] == EncodeCommand(Command(id, val).value.0, Command(id, val).value.1))
      && (forall j :: 0 <= j < |r.frames| ==> DecodeCommand(r.frames[j]) == Command(id, val))
  {
    match Command(id, val)
    case None => SetOutcome(-EINVAL, [])
    case Some((cmd, arg)) =>
      var w := Write(sends);
      DecodeEncodeCommand(cmd, arg);
      SetOutcome(w.ret, seq(w.attempts, _ => EncodeCommand(cmd, arg)))
  }

  /** Pressing the calibrate button writes the calibrate frame, and nothing else, one to three times. */
  lemma SetCalibrateSendsCalibrateFrame(val: int, sends: seq<int>)
    requires MaxAttempts <= |sends|
    ensures var r := SetCtrl(CustomId(Calibrate), val, sends);
      forall j :: 0 <= j < |r.frames| ==> r.frames[j] == CalibrateFrame
  {
    CommandCalibrate(val);
    CalibrateFrameIsEncoded();
  }

  /** The calibrate button, whatever value it is set to, asks for `INP_CALIBRATE` with argument 0. */
  lemma CommandCalibrate(val: int)
    ensures Command(CustomId(Calibrate), val) == Some((InpCalibrate, 0))
  {
    CustomIdsAreNotStandard(Calibrate);
  }

  /** The kernel's checksum: `crc8()` with the table `crc8_populate_msb` fills and `CRC8_INIT_VALUE`. */
  function KernelChecksum(data: seq<byte>): (c: byte)
    ensures c == Checksum(data)
  {
    TableCrc(InitValue, Regs(data)) as int
  }

  /**
    `cef168_i2c_read`. `recv` is what `i2c_master_recv` delivered: the bytes
    it received (their number is its return value) or a negative error.
   */
  function KernelRead(recv: Result<seq<byte>, int>): (r: Result<Telemetry, int>)
    ensures r.Success? <==> recv.Success? && CrcValid(recv.value)
    ensures r.Success? ==> Serialize(r.value) == recv.value
    ensures r.Failure? ==> r.error == -EIO
  {
    match recv
    case Failure(_) => Failure(-EIO)
    case Success(bytes) =>
      if |bytes| != FrameLen then Failure(-EIO)
      else if KernelChecksum(bytes[..CoveredLen]) != bytes[CoveredLen] then Failure(-EIO)
      else
        SerializeParse(bytes);
        Success(Parse(bytes))
  }

  /** A read of a frame the adapter sealed returns that record. */
  lemma KernelReadSealed(t: Telemetry)
    ensures KernelRead(Success(Serialize(Seal(t)))) == Success(Seal(t))
  {
    ParseSerialize(Seal(t));
  }

  /** The value a control read reports: a plain integer, a 32-bit word or the raw structure bytes. */
  datatype CtrlValue = IntValue(i: int) | U32Value(u: u32) | ByteArray(bytes: seq<byte>)

  /**
    The controls `cef168_get_ctrl` answers: focus position, focus range and
    the raw data. Of these only the focus position can also be set; the
    range and the data are read-only, and the calibrate button cannot be read.
   */
  predicate Readable(id: int): (r: bool)
    ensures r && Command(id, 0).Some? ==> id == CidFocusAbsolute
    ensures r ==> id != CustomId(Calibrate)
  {
    CustomIds(Data, Calibrate);
    CustomIds(FocusRange, Calibrate);
    CustomIds(Data, FocusRange);
    CustomIdsAreNotStandard(Data);
    CustomIdsAreNotStandard(FocusRange);
    CustomIdsAreNotStandard(Calibrate);
    id == CidFocusAbsolute || id == CustomId(Data) || id == CustomId(FocusRange)
  }

  /**
    The focus range word `(min << 16) | max`: the minimum position in the
    high half, the maximum in the low half. Both are 16-bit, so the shift is
    a multiplication and the OR an addition.
   */
  function FocusRangeWord(t: Telemetry): (v: u32)
    ensures v / 0x1_0000 == t.focusPositionMin && v % 0x1_0000 == t.focusPositionMax
  {
    t.focusPositionMin * 0x1_0000 + t.focusPositionMax
  }

  /** `cef168_get_ctrl`: reject unknown ids before touching the bus, then read and report. */
  function GetCtrl(id: int, recv: Result<seq<byte>, int>): (r: Result<CtrlValue, int>)
    ensures !Readable(id) ==> r == Failure(-EINVAL)
    ensures Readable(id) ==> (r.Success? <==> KernelRead(recv).Success?)
    ensures Readable(id) && r.Failure? ==> r.error == -EIO
  {
    if !Readable(id) then Failure(-EINVAL)
    else
      match KernelRead(recv)
      case Failure(e) => Failure(e)
      case Success(t) =>
        if id == CidFocusAbsolute then Success(IntValue(t.focusPositionCur))
        else if id == CustomId(FocusRange) then Success(U32Value(FocusRangeWord(t)))
        else Success(ByteArray(Serialize(t)))
  }

  /** An id the driver does not read is refused whatever the bus would have delivered: no read happens. */
  lemma GetCtrlRejectsBeforeRead(id: int, r1: Result<seq<byte>, int>, r2: Result<seq<byte>, int>)
    requires !Readable(id)
    ensures GetCtrl(id, r1) == GetCtrl(id, r2) == Failure(-EINVAL)
  {
  }

  /** Reading the data control of a valid frame hands user space exactly the 15 received bytes. */
  lemma GetCtrlDataIsFrame(bytes: seq<byte>)
    requires CrcValid(bytes)
    ensures GetCtrl(CustomId(Data), Success(bytes)) == Success(ByteArray(bytes))
  {
    CustomIds(Data, FocusRange);
    CustomIdsAreNotStandard(Data);
  }

  /** Reading the focus-absolute control of a valid frame reports the current focus position. */
  lemma GetCtrlFocusIsPosition(bytes: seq<byte>)
    requires CrcValid(bytes)
    ensures GetCtrl(CidFocusAbsolute, Success(bytes)) == Success(IntValue(Parse(bytes).focusPositionCur))
  {
  }

  /** Reading the focus-range control of a valid frame reports both limits, which the word gives back. */
  lemma GetCtrlFocusRange(bytes: seq<byte>)
    requires CrcValid(bytes)
    ensures var r := GetCtrl(CustomId(FocusRange), Success(bytes));
      && r.Success? && r.value.U32Value?
      && r.value.u / 0x1_0000 == Parse(bytes).focusPositionMin
      && r.value.u % 0x1_0000 == Parse(bytes).focusPositionMax
  {
    CustomIdsAreNotStandard(FocusRange);
  }
}
