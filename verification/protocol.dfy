/**
  The cef168 wire protocol as `cef168.h` declares it: the command codes the
  host writes, the V4L2 control ids the driver exposes, the 4-byte command
  frame and the 15-byte telemetry frame the adapter returns.
 */
module Protocol {
  import opened Bytes
  import opened Crc8
  import opened Wrappers

  /** `INP_CALIBRATE`: start the lens calibration sweep. */
  const InpCalibrate: byte := 0x22
  /** `INP_SET_FOCUS`: move focus to an absolute position. */
  const InpSetFocus: byte := 0x80
  /** `INP_SET_FOCUS_P`: move focus by a positive step count. */
  const InpSetFocusP: byte := 0x81
  /** `INP_SET_FOCUS_N`: move focus by a negative step count. */
  const InpSetFocusN: byte := 0x82
  /** `INP_SET_APERTURE`: set the iris to an absolute value. */
  const InpSetAperture: byte := 0x7A
  /** `INP_SET_APERTURE_P`: open the iris by a number of steps. */
  const InpSetApertureP: byte := 0x7B
  /** `INP_SET_APERTURE_N`: close the iris by a number of steps. */
  const InpSetApertureN: byte := 0x7C

  /** Every command code of the protocol, in declaration order. */
  const CommandCodes: seq<byte> :=
    [InpCalibrate, InpSetFocus, InpSetFocusP, InpSetFocusN, InpSetAperture, InpSetApertureP, InpSetApertureN]

  /** The adapter can tell every command apart: the seven codes are pairwise distinct bytes. */
  lemma CommandCodesDistinct()
    ensures |CommandCodes| == 7
    ensures forall i, j :: 0 <= i < j < |CommandCodes| ==> CommandCodes[i] != CommandCodes[j]
  {
  }

  /** `CEF_CRC8_POLYNOMIAL` is 168 and is stored without loss in the 8-bit CRC register. */
  lemma PolynomialFitsByte()
    ensures Polynomial as int == 168 && 168 < 0x100
  {
  }

  /** `V4L2_CID_USER_BASE` from the V4L2 user-space API. */
  const CidUserBase: bv32 := 0x0098_0900
  /** `V4L2_CID_FOCUS_ABSOLUTE`. */
  const CidFocusAbsolute: int := 0x009A_090A
  /** `V4L2_CID_FOCUS_RELATIVE`. */
  const CidFocusRelative: int := 0x009A_090B
  /** `V4L2_CID_IRIS_ABSOLUTE`. */
  const CidIrisAbsolute: int := 0x009A_0911
  /** `V4L2_CID_IRIS_RELATIVE`. */
  const CidIrisRelative: int := 0x009A_0912

  /** The driver's own controls, in the order of their anonymous enum. */
  datatype CustomControl = LensId | Data | FocusRange | Calibrate

  /** The position of a custom control in its enum: `custom_lens_id` is 0, `custom_calibrate` 3. */
  function CustomIndex(c: CustomControl): (k: nat)
    ensures k < 4
  {
    match c
    case LensId => 0
    case Data => 1
    case FocusRange => 2
    case Calibrate => 3
  }

  /** `CEF168_V4L2_CID_CUSTOM(ctrl)`: `(V4L2_CID_USER_BASE | 168) + custom_ctrl`. */
  function CustomId(c: CustomControl): int {
    (CidUserBase | 168) as int + CustomIndex(c)
  }

  /** The custom ids are consecutive from 0x009809A8, so no two controls share an id. */
  lemma CustomIds(a: CustomControl, b: CustomControl)
    ensures CustomId(a) == 0x0098_09A8 + CustomIndex(a)
    ensures CustomId(a) == CustomId(b) <==> a == b
  {
    assert (CidUserBase | 168) as int == 0x0098_09A8;
  }

  /** No custom id collides with one of the standard focus or iris controls the driver registers. */
  lemma CustomIdsAreNotStandard(c: CustomControl)
    ensures CustomId(c) !in {CidFocusAbsolute, CidFocusRelative, CidIrisAbsolute, CidIrisRelative}
  {
    CustomIds(c, c);
  }

  /** The number of bytes in a command frame (`tx_data[4]`). */
  const CommandLen: nat := 4

  /** The frame `cef168_i2c_write` sends for `cmd` and `val`: the command, the value little-endian, the CRC of those three bytes. */
  function EncodeCommand(cmd: byte, val: u16): (frame: seq<byte>)
    ensures |frame| == CommandLen
    ensures frame[0] == cmd && frame[1] == Lo(val) && frame[2] == Hi(val)
    ensures frame[3] == Checksum(frame[..3])
  {
    var header := [cmd, Lo(val), Hi(val)];
    assert (header + [Checksum(header)])[..3] == header;
    header + [Checksum(header)]
  }

  /** How the adapter reads a command frame: the command and value, when the length and CRC are right. */
  function DecodeCommand(frame: seq<byte>): (r: Option<(byte, u16)>)
    ensures r.Some? <==> |frame| == CommandLen && frame[3] == Checksum(frame[..3])
  {
    if |frame| == CommandLen && frame[3] == Checksum(frame[..3]) then Some((frame[0], Le16(frame[1], frame[2])))
    else None
  }

  /** Decoding an encoded command returns the command and the value. */
  lemma DecodeEncodeCommand(cmd: byte, val: u16)
    ensures DecodeCommand(EncodeCommand(cmd, val)) == Some((cmd, val))
  {
    Le16OfSplit(val);
  }

  /** A frame that decodes is the encoding of what it decodes to. */
  lemma EncodeDecodeCommand(frame: seq<byte>)
    requires DecodeCommand(frame).Some?
    ensures EncodeCommand(DecodeCommand(frame).value.0, DecodeCommand(frame).value.1) == frame
  {
    var v := Le16(frame[1], frame[2]);
    assert Lo(v) == frame[1] && Hi(v) == frame[2];
    assert frame[..3] == [frame[0], frame[1], frame[2]];
    assert EncodeCommand(frame[0], v) == [frame[0], Lo(v), Hi(v)] + [Checksum([frame[0], Lo(v), Hi(v)])];
  }

  /** The frame `I2CDev::calibrate` writes without computing anything: `{ INP_CALIBRATE, 0, 0, 0x30 }`. */
  const CalibrateFrame: seq<byte> := [0x22, 0, 0, 0x30]

  /** The CRC of the calibrate command header `{ 0x22, 0, 0 }` with seed 0xFF is 0x30. */
  lemma CalibrateChecksum()
    ensures Checksum([0x22, 0, 0]) == 0x30
  {
    var regs := Regs([0x22, 0, 0]);
    assert regs == [0x22, 0, 0];
    assert Step(0xDD) == 0x12;
  }

  /** The hard-coded calibrate frame is exactly the driver's encoding of `INP_CALIBRATE` with value 0. */
  lemma CalibrateFrameIsEncoded()
    ensures EncodeCommand(InpCalibrate, 0) == CalibrateFrame
    ensures DecodeCommand(CalibrateFrame) == Some((InpCalibrate, 0))
  {
    CalibrateChecksum();
    var header := [InpCalibrate, Lo(0), Hi(0)];
    assert header == [0x22, 0, 0];
    assert EncodeCommand(InpCalibrate, 0) == header + [Checksum(header)];
    assert CalibrateFrame[..3] == header;
  }

  /** `sizeof(struct cef168_data)`: one byte, one flag byte, six 16-bit fields and the CRC, packed. */
  const FrameLen: nat := 15

  /** The number of leading frame bytes the CRC covers. */
  const CoveredLen: nat := FrameLen - 1

  /**
    `struct cef168_data` after `le16_to_cpu`. `flags` is the byte that holds
    the `moving` and `calibrating` bit-fields, padding bits included, since
    the driver hands the whole structure to user space.
   */
  datatype Telemetry = Telemetry(
    lensId: byte,
    flags: byte,
    movingTime: u16,
    focusPositionMin: u16,
    focusPositionMax: u16,
    focusPositionCur: u16,
    focusDistanceMin: u16,
    focusDistanceMax: u16,
    crc: byte)
  {
    /** The one-bit field `moving`, allocated first: bit 0 of the flag byte. */
    function Moving(): (m: nat)
      ensures m < 2
      ensures m == 1 <==> flags % 2 == 1
    {
      flags % 2
    }

    /** The two-bit field `calibrating`, allocated next: bits 1 and 2 of the flag byte. */
    function Calibrating(): (c: nat)
      ensures c < 4
      ensures c * 2 + Moving() == flags % 8
    {
      (flags / 2) % 4
    }
  }

  /** The bytes of a telemetry record as they travel on the bus. */
  function Serialize(t: Telemetry): (frame: seq<byte>)
    ensures |frame| == FrameLen
    ensures frame[0] == t.lensId && frame[1] == t.flags && frame[14] == t.crc
    ensures Le16(frame[2], frame[3]) == t.movingTime
    ensures Le16(frame[4], frame[5]) == t.focusPositionMin
    ensures Le16(frame[6], frame[7]) == t.focusPositionMax
    ensures Le16(frame[8], frame[9]) == t.focusPositionCur
    ensures Le16(frame[10], frame[11]) == t.focusDistanceMin
    ensures Le16(frame[12], frame[13]) == t.focusDistanceMax
  {
    [t.lensId, t.flags,
     Lo(t.movingTime), Hi(t.movingTime),
     Lo(t.focusPositionMin), Hi(t.focusPositionMin),
     Lo(t.focusPositionMax), Hi(t.focusPositionMax),
     Lo(t.focusPositionCur), Hi(t.focusPositionCur),
     Lo(t.focusDistanceMin), Hi(t.focusDistanceMin),
     Lo(t.focusDistanceMax), Hi(t.focusDistanceMax),
     t.crc]
  }

  /** The structure overlaid on 15 received bytes, with every 16-bit field read little-endian. */
  function Parse(frame: seq<byte>): (t: Telemetry)
    requires |frame| == FrameLen
    ensures t.lensId == frame[0] && t.flags == frame[1] && t.crc == frame[14]
  {
    Telemetry(frame[0], frame[1],
      Le16(frame[2], frame[3]),
      Le16(frame[4], frame[5]),
      Le16(frame[6], frame[7]),
      Le16(frame[8], frame[9]),
      Le16(frame[10], frame[11]),
      Le16(frame[12], frame[13]),
      frame[14])
  }

  /** Parsing the serialized bytes of a record gives the record back. */
  lemma ParseSerialize(t: Telemetry)
    ensures Parse(Serialize(t)) == t
  {
    Le16OfSplit(t.movingTime);
    Le16OfSplit(t.focusPositionMin);
    Le16OfSplit(t.focusPositionMax);
    Le16OfSplit(t.focusPositionCur);
    Le16OfSplit(t.focusDistanceMin);
    Le16OfSplit(t.focusDistanceMax);
  }

  /** Serializing a parsed frame gives the same 15 bytes back: no byte of the frame is lost. */
  lemma SerializeParse(frame: seq<byte>)
    requires |frame| == FrameLen
    ensures Serialize(Parse(frame)) == frame
  {
  }

  /**
    A frame whose last byte is the CRC of the 14 bytes before it; the check
    the kernel makes with its table-driven `crc8()` is the same.
   */
  predicate CrcValid(frame: seq<byte>): (v: bool)
    ensures v <==> |frame| == FrameLen && TableCrc(InitValue, Regs(frame[..CoveredLen])) as int == frame[CoveredLen]
  {
    |frame| == FrameLen && frame[CoveredLen] == Checksum(frame[..CoveredLen])
  }

  /** The record the adapter sends: `t` with its CRC byte computed over the other fields. */
  function Seal(t: Telemetry): (s: Telemetry)
    ensures CrcValid(Serialize(s))
    ensures s.(crc := t.crc) == t
  {
    var body := Serialize(t)[..CoveredLen];
    var s := t.(crc := Checksum(body));
    assert Serialize(s)[..CoveredLen] == body;
    s
  }

  /** A valid frame with any one bit inverted, in the data or in the CRC byte itself, fails the check. */
  lemma CorruptedFrameRejected(frame: seq<byte>, i: nat, k: nat)
    requires CrcValid(frame) && i < FrameLen && k < 8
    ensures !CrcValid(FlipBit(frame, i, k))
  {
    if i < CoveredLen {
      CorruptedDataRejected(frame, i, k);
    } else {
      CorruptedCrcRejected(frame, k);
    }
  }

  /** An inverted bit among the 14 covered bytes changes their checksum. */
  lemma CorruptedDataRejected(frame: seq<byte>, i: nat, k: nat)
    requires CrcValid(frame) && i < CoveredLen && k < 8
    ensures !CrcValid(FlipBit(frame, i, k))
  {
    var bad := FlipBit(frame, i, k);
    FlipBitPrefix(frame, i, k, CoveredLen);
    CrcDetectsSingleBitError(InitValue, frame[..CoveredLen], i, k);
    ChecksumChanged(frame, bad);
  }

  /** An inverted bit in the CRC byte leaves the covered bytes, and so their checksum, as they were. */
  lemma CorruptedCrcRejected(frame: seq<byte>, k: nat)
    requires CrcValid(frame) && k < 8
    ensures !CrcValid(FlipBit(frame, CoveredLen, k))
  {
    var bad := FlipBit(frame, CoveredLen, k);
    assert bad[..CoveredLen] == frame[..CoveredLen];
  }

  /** A frame whose covered bytes have a different checksum from a valid frame, but the same CRC byte, is invalid. */
  lemma ChecksumChanged(frame: seq<byte>, bad: seq<byte>)
    requires CrcValid(frame) && |bad| == FrameLen && bad[CoveredLen] == frame[CoveredLen]
    requires Checksum(bad[..CoveredLen]) != Checksum(frame[..CoveredLen])
    ensures !CrcValid(bad)
  {
  }

  /** Inverting a bit inside a prefix commutes with taking the prefix. */
  lemma FlipBitPrefix(frame: seq<byte>, i: nat, k: nat, n: nat)
    requires i < n <= |frame| && k < 8
    ensures FlipBit(frame, i, k)[..n] == FlipBit(frame[..n], i, k)
  {
  }
}
