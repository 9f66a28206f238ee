/**
  The calibration tool (`calibrate.cpp`): trigger the sweep over either
  transport, poll telemetry until the sweep is over, fold the samples into
  the PWL curve and reduce the curve to the tuning parameters. The device
  and the clock are oracles: what each transfer delivers, and the elapsed
  milliseconds the loop condition reads after each poll.
 */
module Calibrate {
  import opened Bytes
  import opened Crc8
  import opened Protocol
  import opened Driver
  import opened Pwl
  import opened Wrappers

  /** The reasons the tool stops with an error message. */
  datatype CalibError =
    | WriteFailed              // `I2CDev::calibrate`: short or failed write
    | SetControlFailed         // `V4L2SubDev::calibrate`: `VIDIOC_S_CTRL` failed
    | ReadFailed               // `I2CDev::getData`: short or failed read
    | CrcMismatch(computed: byte, read: byte)  // `I2CDev::getData`: CRC check failed
    | GetControlFailed         // `V4L2SubDev::getData`: `VIDIOC_G_EXT_CTRLS` failed
    | NoPwlPoints              // no sample was taken during the sweep

  /** The two ways to reach the adapter: the raw I2C bus, or the driver's V4L2 sub-device. */
  datatype Transport = I2cBus | SubDevice

  /** What starting the sweep did: whether it reported success, and the frames it put on the bus. */
  datatype TriggerOutcome = TriggerOutcome(ok: bool, frames: seq<seq<byte>>)

  /**
    `I2CDev::calibrate`: one `write` of the fixed frame, no retry; `written`
    is what `write` returns. The fixed bytes are the driver's encoding of the
    calibrate command.
   */
  function I2cTrigger(written: int): (t: TriggerOutcome)
    ensures t.frames == [EncodeCommand(InpCalibrate, 0)]
    ensures t.ok <==> written == CommandLen
  {
    assert EncodeCommand(InpCalibrate, 0) == CalibrateFrame by { CalibrateFrameIsEncoded(); }
    TriggerOutcome(written == CommandLen, [CalibrateFrame])
  }

  /** `V4L2SubDev::calibrate`: set the calibrate button control, which the driver turns into a retried write. */
  function SubDeviceTrigger(sends: seq<int>): (t: TriggerOutcome)
    requires MaxAttempts <= |sends|
    ensures 1 <= |t.frames| <= MaxAttempts
    ensures t.ok <==> Write(sends).ret == 0
  {
    CommandCalibrate(0);
    var r := SetCtrl(CustomId(Calibrate), 0, sends);
    TriggerOutcome(r.ret == 0, r.frames)
  }

  /** Both transports put the same frame on the bus, the calibrate command; only the driver's path repeats it. */
  lemma TriggersSendCalibrateFrame(written: int, sends: seq<int>)
    requires MaxAttempts <= |sends|
    ensures forall f :: f in I2cTrigger(written).frames ==> f == CalibrateFrame
    ensures forall f :: f in SubDeviceTrigger(sends).frames ==> f == CalibrateFrame
  {
    assert EncodeCommand(InpCalibrate, 0) == CalibrateFrame by { CalibrateFrameIsEncoded(); }
    assert I2cTrigger(written).frames == [CalibrateFrame];
    SetCalibrateSendsCalibrateFrame(0, sends);
  }

  /**
    `I2CDev::getData`: read 15 bytes, check the CRC the tool computes
    itself, and decode. `recv` is what `read` delivered.
   */
  function I2cGetData(recv: Result<seq<byte>, int>): (r: Result<Telemetry, CalibError>)
    ensures r.Success? <==> recv.Success? && CrcValid(recv.value)
    ensures r.Success? ==> Serialize(r.value) == recv.value
    ensures r.Failure? && recv.Success? && |recv.value| == FrameLen ==>
      r.error == CrcMismatch(Checksum(recv.value[..CoveredLen]), recv.value[CoveredLen])
  {
    match recv
    case Failure(_) => Failure(ReadFailed)
    case Success(bytes) =>
      if |bytes| != FrameLen then Failure(ReadFailed)
      else if Checksum(bytes[..CoveredLen]) != bytes[CoveredLen] then
        Failure(CrcMismatch(Checksum(bytes[..CoveredLen]), bytes[CoveredLen]))
      else
        SerializeParse(bytes);
        Success(Parse(bytes))
  }

  /**
    `V4L2SubDev::getData`: ask the driver for the data control and overlay
    the bytes it returns on the structure. The driver's read sees `recv`.
   */
  function SubDeviceGetData(recv: Result<seq<byte>, int>): (r: Result<Telemetry, CalibError>)
    ensures r.Failure? ==> r.error == GetControlFailed
  {
    match GetCtrl(CustomId(Data), recv)
    case Failure(_) => Failure(GetControlFailed)
    case Success(v) =>
      if v.ByteArray? && |v.bytes| == FrameLen then Success(Parse(v.bytes)) else Failure(GetControlFailed)
  }

  /**
    The two transports accept the same transfers and decode them to the
    same record: the tool's own CRC check on the I2C path matches the
    driver's table-driven one behind the sub-device.
   */
  lemma TransportsAgree(recv: Result<seq<byte>, int>)
    ensures I2cGetData(recv).Success? <==> SubDeviceGetData(recv).Success?
    ensures I2cGetData(recv).Success? ==> I2cGetData(recv).value == SubDeviceGetData(recv).value
    ensures I2cGetData(recv).Success? <==> KernelRead(recv).Success?
    ensures I2cGetData(recv).Success? ==> I2cGetData(recv).value == KernelRead(recv).value
  {
    CustomIds(Data, FocusRange);
    CustomIdsAreNotStandard(Data);
  }

  /**
    A poll is sampled during the sweep proper (`calibrating == 2`) when it
    reports a nonzero minimum distance. On the flag byte: bit 2 set, bit 1
    clear, whatever `moving` is.
   */
  predicate Sampled(t: Telemetry): (s: bool)
    ensures s <==> (t.flags % 8 == 4 || t.flags % 8 == 5) && t.focusDistanceMin != 0
  {
    t.Calibrating() == 2 && t.focusDistanceMin != 0
  }

  /** The inverse focus distance, in 1/m, of a distance reported in cm. */
  function InverseDistance(cm: u16): real
    requires cm != 0
  {
    100.0 / cm as real
  }

  /** Nearer distances give larger keys, so different distances never share a key. */
  lemma InverseDistanceOrder(a: u16, b: u16)
    requires a != 0 && b != 0
    ensures InverseDistance(a) < InverseDistance(b) <==> b < a
    ensures InverseDistance(a) == InverseDistance(b) <==> a == b
  {
    if b < a {
      InverseDecreasing(a as real, b as real);
    } else if a < b {
      InverseDecreasing(b as real, a as real);
    }
  }

  /** Dividing 100 by a larger positive number gives a smaller quotient. */
  lemma InverseDecreasing(x: real, y: real)
    requires 0.0 < y < x
    ensures 100.0 / x < 100.0 / y
  {
    var p, q := 100.0 / x, 100.0 / y;
    assert p * x == 100.0 && q * y == 100.0;
    assert 0.0 < q;
    assert q * y < q * x;
    if q <= p {
      assert false;
    }
  }

  /** The PWL point a sampled poll contributes: the inverse minimum distance and the current focus position. */
  function SampleOf(t: Telemetry): (p: Point)
    requires t.focusDistanceMin != 0
    ensures p.position == t.focusPositionCur
    ensures p.distance * t.focusDistanceMin as real == 100.0
  {
    Point(InverseDistance(t.focusDistanceMin), t.focusPositionCur)
  }

  /** One turn of the polling loop: the result of `getData` and the elapsed time the loop condition then reads. */
  datatype Poll = Poll(reading: Result<Telemetry, CalibError>, elapsedMs: int)

  /** The minimum time the loop runs, in milliseconds. */
  const MinRunMs: int := 100

  /**
    The `do … while` condition: go on while the adapter still calibrates or
    less than 100 ms have passed. The loop never ends on a sampled poll, and
    it ends only once both calibrating bits of the flag byte are clear.
   */
  predicate Continue(t: Telemetry, elapsedMs: int): (c: bool)
    ensures Sampled(t) ==> c
    ensures elapsedMs < MinRunMs ==> c
    ensures !c <==> t.flags % 8 < 2 && MinRunMs <= elapsedMs
  {
    t.Calibrating() != 0 || elapsedMs < MinRunMs
  }

  /** The samples the first polls contribute, in poll order. */
  function Samples(polls: seq<Poll>): seq<Point>
    decreases |polls|
  {
    if |polls| == 0 then []
    else
      var last := polls[|polls| - 1];
      Samples(polls[..|polls| - 1]) +
        (if last.reading.Success? && Sampled(last.reading.value) then [SampleOf(last.reading.value)] else [])
  }

  /** The curve the loop has built after the polls `polls`. */
  function Curve(polls: seq<Poll>): (s: seq<Point>)
    ensures Sorted(s)
  {
    Fold([], Samples(polls))
  }

  /** How the polling loop ended: the adapter finished, a read failed, or the oracle ran out of polls. */
  datatype LoopOutcome =
    | Finished(points: seq<Point>, polled: nat)
    | Aborted(error: CalibError, polled: nat)
    | Unfinished(points: seq<Point>)

  /** The first `k` polls all succeeded and all said to go on. */
  ghost predicate WentOn(polls: seq<Poll>, k: nat) {
    k <= |polls| &&
    forall j :: 0 <= j < k ==> polls[j].reading.Success? && Continue(polls[j].reading.value, polls[j].elapsedMs)
  }

  /** One more poll that succeeded and said to go on extends the run of such polls. */
  lemma WentOnStep(polls: seq<Poll>, i: nat)
    requires i < |polls| && WentOn(polls, i)
    requires polls[i].reading.Success? && Continue(polls[i].reading.value, polls[i].elapsedMs)
    ensures WentOn(polls, i + 1)
  {
  }

  /**
    What the loop promises: it reads at least once; it ends after the first
    read that fails, with that error, or after the first read that shows the
    sweep over with at least 100 ms elapsed, holding the curve of every
    sample read so far.
   */
  ghost predicate LoopSpec(polls: seq<Poll>, o: LoopOutcome) {
    match o
    case Finished(points, n) =>
      && 1 <= n <= |polls| && WentOn(polls, n - 1)
      && polls[n - 1].reading.Success?
      && !Continue(polls[n - 1].reading.value, polls[n - 1].elapsedMs)
      && points == Curve(polls[..n])
    case Aborted(e, n) =>
      && 1 <= n <= |polls| && WentOn(polls, n - 1)
      && polls[n - 1].reading == Failure(e)
    case Unfinished(points) =>
      && WentOn(polls, |polls|)
      && points == Curve(polls)
  }

  /** The polls determine how the loop ends. */
  lemma LoopSpecUnique(polls: seq<Poll>, a: LoopOutcome, b: LoopOutcome)
    requires LoopSpec(polls, a) && LoopSpec(polls, b)
    ensures a == b
  {
  }

  /** The curve after a successful poll `t`: updated with its sample if it has one, else unchanged. */
  function Absorb(points: seq<Point>, t: Telemetry): (r: seq<Point>)
    requires Sorted(points)
    ensures Sorted(r)
  {
    if Sampled(t) then Update(points, SampleOf(t)) else points
  }

  /** The curve after one more successful poll absorbs that poll. */
  lemma CurveStep(polls: seq<Poll>, i: nat)
    requires i < |polls| && polls[i].reading.Success?
    ensures Curve(polls[..i + 1]) == Absorb(Curve(polls[..i]), polls[i].reading.value)
  {
    var t := polls[i].reading.value;
    assert polls[..i + 1][..i] == polls[..i];
    if Sampled(t) {
      FoldSnoc([], Samples(polls[..i]), SampleOf(t));
    } else {
      var front := polls[..i + 1];
      assert front[|front| - 1] == polls[i];
      assert Samples(front) == Samples(front[..|front| - 1]) + [];
      assert Samples(front) == Samples(polls[..i]);
    }
  }

  /** A failed read after polls that all went on aborts the loop with its error. */
  lemma AbortsHere(polls: seq<Poll>, i: nat)
    requires i < |polls| && WentOn(polls, i) && polls[i].reading.Failure?
    ensures LoopSpec(polls, Aborted(polls[i].reading.error, i + 1))
  {
  }

  /** A read that shows the sweep over after polls that all went on finishes the loop with the curve so far. */
  lemma FinishesHere(polls: seq<Poll>, i: nat, points: seq<Point>)
    requires i < |polls| && WentOn(polls, i) && polls[i].reading.Success?
    requires !Continue(polls[i].reading.value, polls[i].elapsedMs)
    requires points == Curve(polls[..i + 1])
    ensures LoopSpec(polls, Finished(points, i + 1))
  {
  }

  /** Polls that all went on leave the loop unfinished, with the curve of all of them. */
  lemma UnfinishedAtEnd(polls: seq<Poll>, points: seq<Point>)
    requires WentOn(polls, |polls|) && points == Curve(polls[..|polls|])
    ensures LoopSpec(polls, Unfinished(points))
  {
    assert polls[..|polls|] == polls;
  }

  /** The polling loop of `main`, as a function of the polls from `i` on with `points` built so far. */
  function Run(polls: seq<Poll>, i: nat, points: seq<Point>): (o: LoopOutcome)
    requires i <= |polls| && WentOn(polls, i) && points == Curve(polls[..i])
    ensures LoopSpec(polls, o)
    decreases |polls| - i
  {
    if i == |polls| then
      UnfinishedAtEnd(polls, points);
      Unfinished(points)
    else if polls[i].reading.Failure? then
      AbortsHere(polls, i);
      Aborted(polls[i].reading.error, i + 1)
    else
      var t := polls[i].reading.value;
      CurveStep(polls, i);
      var next := Absorb(points, t);
      if Continue(t, polls[i].elapsedMs) then
        WentOnStep(polls, i);
        Run(polls, i + 1, next)
      else
        FinishesHere(polls, i, next);
        Finished(next, i + 1)
  }

  /** `main`'s `do … while` loop over the polls, sampling as it goes. */
  method CalibrationLoop(polls: seq<Poll>) returns (o: LoopOutcome)
    ensures LoopSpec(polls, o)
  {
    var points: seq<Point> := [];
    var i := 0;
    while i < |polls|
      invariant i <= |polls| && WentOn(polls, i)
      invariant points == Curve(polls[..i])
      decreases |polls| - i
    {
      var poll := polls[i];
      if poll.reading.Failure? {
        AbortsHere(polls, i);
        return Aborted(poll.reading.error, i + 1);
      }
      var t := poll.reading.value;
      CurveStep(polls, i);
      points := Absorb(points, t);
      if !Continue(t, poll.elapsedMs) {
        FinishesHere(polls, i, points);
        return Finished(points, i + 1);
      }
      WentOnStep(polls, i);
      i := i + 1;
    }
    UnfinishedAtEnd(polls, points);
    o := Unfinished(points);
  }

  /** The parameters printed for the `rpi.af` section: the key range, the default key and the PWL map. */
  datatype Report = Report(min: real, max: real, default: real, pwl: seq<Point>)

  /** The reduction after the loop: refuse an empty curve, else report its first and last keys and all its points. */
  function Reduce(points: seq<Point>): (r: Result<Report, CalibError>)
    requires Sorted(points)
    ensures r.Failure? <==> |points| == 0
    ensures r.Failure? ==> r.error == NoPwlPoints
    ensures r.Success? ==>
      && r.value.min in Keys(points) && r.value.max in Keys(points)
      && (forall d :: d in Keys(points) ==> r.value.min <= d <= r.value.max)
      && r.value.default == r.value.max
      && r.value.pwl == points
  {
    if |points| == 0 then Failure(NoPwlPoints)
    else
      assert points[0].distance in Keys(points);
      assert points[|points| - 1].distance in Keys(points);
      Success(Report(points[0].distance, points[|points| - 1].distance, points[|points| - 1].distance, points))
  }

  /** The error the tool reports when starting the sweep fails on `via`. */
  function TriggerError(via: Transport): CalibError {
    if via == I2cBus then WriteFailed else SetControlFailed
  }

  /**
    What `main` does once the device is open: start the sweep, poll until
    the loop ends, reduce the curve. `None` when the polls run out first.
   */
  function Session(via: Transport, trigger: TriggerOutcome, polls: seq<Poll>): (r: Option<Result<Report, CalibError>>)
    ensures !trigger.ok ==> r == Some(Failure(TriggerError(via)))
    ensures r.None? ==> trigger.ok && LoopSpec(polls, Unfinished(Curve(polls)))
    ensures r.Some? && r.value.Success? ==>
      && trigger.ok
      && (exists n :: LoopSpec(polls, Finished(r.value.value.pwl, n)))
      && Sorted(r.value.value.pwl) && Reduce(r.value.value.pwl) == r.value
    ensures r.Some? && r.value.Failure? && trigger.ok ==>
      (exists n :: LoopSpec(polls, Aborted(r.value.error, n))) ||
      (r.value.error == NoPwlPoints && exists n :: LoopSpec(polls, Finished([], n)))
  {
    if !trigger.ok then Some(Failure(TriggerError(via)))
    else
      assert polls[..0] == [];
      match Run(polls, 0, [])
      case Unfinished(points) => None
      case Aborted(e, n) => Some(Failure(e))
      case Finished(points, n) => Some(Reduce(points))
  }

  /** A sample is in the samples of the polls exactly when some successful poll was sampled with that point. */
  lemma {:induction false} SamplesMember(polls: seq<Poll>, p: Point)
    ensures p in Samples(polls) <==>
      exists j :: 0 <= j < |polls| && polls[j].reading.Success? && Sampled(polls[j].reading.value)
        && SampleOf(polls[j].reading.value) == p
    decreases |polls|
  {
    if |polls| > 0 {
      var k := |polls| - 1;
      var front := polls[..k];
      SamplesMember(front, p);
      forall j | 0 <= j < k
        ensures front[j] == polls[j]
      {
      }
    }
  }

  /** The samples hold a point at distance `d` exactly when the smallest position there is defined. */
  lemma {:induction false} MinPositionDefined(samples: seq<Point>, d: real)
    ensures MinPosition(samples, d).Some? <==> exists i :: 0 <= i < |samples| && samples[i].distance == d
    decreases |samples|
  {
    if |samples| > 0 {
      MinPositionDefined(samples[1..], d);
      forall i | 0 < i < |samples|
        ensures samples[1..][i - 1] == samples[i]
      {
      }
      if samples[0].distance != d && exists i :: 0 <= i < |samples| && samples[i].distance == d {
        var i :| 0 <= i < |samples| && samples[i].distance == d;
        assert samples[1..][i - 1].distance == d;
      }
    }
  }

  /**
    The curve the loop built has a point at distance `d` exactly when some
    poll was sampled there, and it stores the smallest position sampled
    there.
   */
  lemma CurveIsPerKeyMinimum(polls: seq<Poll>, d: real)
    ensures Lookup(Curve(polls), d) == MinPosition(Samples(polls), d)
    ensures d in Keys(Curve(polls)) <==>
      exists j :: 0 <= j < |polls| && polls[j].reading.Success? && Sampled(polls[j].reading.value)
        && SampleOf(polls[j].reading.value).distance == d
  {
    var samples := Samples(polls);
    BuildIsPerKeyMinimum(samples, d);
    MinPositionDefined(samples, d);
    if exists i :: 0 <= i < |samples| && samples[i].distance == d {
      var i :| 0 <= i < |samples| && samples[i].distance == d;
      SamplesMember(polls, samples[i]);
    }
    if exists j :: 0 <= j < |polls| && polls[j].reading.Success? && Sampled(polls[j].reading.value)
        && SampleOf(polls[j].reading.value).distance == d {
      var j :| 0 <= j < |polls| && polls[j].reading.Success? && Sampled(polls[j].reading.value)
        && SampleOf(polls[j].reading.value).distance == d;
      SamplesMember(polls, SampleOf(polls[j].reading.value));
      var i :| 0 <= i < |samples| && samples[i] == SampleOf(polls[j].reading.value);
    }
  }

  /**
    A report the tool prints covers the polls the loop read: its map holds,
    for every distance sampled, the smallest focus position seen there, and
    its range runs from the farthest to the nearest distance sampled. Every
    report `Session` returns is such a reduction of a finished loop.
   */
  lemma ReportIsPerKeyMinimum(polls: seq<Poll>, n: nat, rep: Report, d: real)
    requires LoopSpec(polls, Finished(rep.pwl, n))
    requires n <= |polls| && Reduce(Curve(polls[..n])) == Success(rep)
    ensures Lookup(rep.pwl, d) == MinPosition(Samples(polls[..n]), d)
    ensures d in Keys(rep.pwl) ==> rep.min <= d <= rep.max
    ensures rep.min in Keys(rep.pwl) && rep.max in Keys(rep.pwl) && rep.default == rep.max
  {
    CurveIsPerKeyMinimum(polls[..n], d);
  }
}
