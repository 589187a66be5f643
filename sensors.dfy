/**
  The sensor run of a frame (packet.cpp `extractSens` and the calibrations of
  `parseSens`): seven comma-terminated ADC counts, read left to right, each
  turned into a physical value by a fixed affine formula.
 */
module Sensors {
  import opened Wrappers
  import opened CText
  import opened Whalebone
  import opened Base

  /** The string `extractSens` throws. */
  const INVALID: string := "Invalid"

  /** Pressure, humidity, three accelerations and two temperatures. */
  const CHANNELS: nat := 7

  /** One count taken off the front of the run, and the text after its comma. */
  datatype Field = Field(count: real, rest: string)

  /** `k` is the first `SENSDLIM` at or after index 1 of `raw`: where `extractSens` cuts. */
  predicate FieldEnd(raw: string, k: nat)
  {
    1 <= k < |raw| && raw[k] == SENSDLIM && forall i :: 1 <= i < k ==> raw[i] != SENSDLIM
  }

  lemma FieldEndUnique(raw: string, k: nat, m: nat)
    requires FieldEnd(raw, k) && FieldEnd(raw, m)
    ensures k == m
  {
  }

  /**
    `extractSens`: the comma is searched from index 1; there must be one, it must
    not sit at index 1, and `atof` of the first `endx - 1` characters (the
    character just before the comma is not part of them) must not be 0. On
    success the text after the comma is what remains of `raw`.
   */
  function ExtractSens(raw: string): Result<Field>
  {
    match FindChar(raw, SENSDLIM, 1)
    case None => Err(INVALID)
    case Some(endx) =>
      if endx == 1 then Err(INVALID)
      else
        var reslt := Atof(raw[..endx - 1]);
        if reslt == 0.0 then Err(INVALID) else Ok(Field(reslt, raw[endx + 1..]))
  }

  /**
    `extractSens` succeeds exactly when there is a comma after index 1 and the
    text before its preceding character reads as a non-zero number; it then
    yields that number and the text after the comma.
   */
  lemma ExtractSensOutcome(raw: string)
    ensures var r := ExtractSens(raw);
      (r.Ok? <==> exists k :: FieldEnd(raw, k) && 2 <= k && Atof(raw[..k - 1]) != 0.0)
      && (forall k :: FieldEnd(raw, k) && r.Ok? ==> r.value == Field(Atof(raw[..k - 1]), raw[k + 1..]))
  {
    match FindChar(raw, SENSDLIM, 1)
    case None =>
      assert forall k :: !FieldEnd(raw, k);
    case Some(endx) =>
      FieldAt(raw, endx);
  }

  /** When the comma search stops at `endx`, that is the one field end, and it alone decides the outcome. */
  lemma FieldAt(raw: string, endx: nat)
    requires FindChar(raw, SENSDLIM, 1) == Some(endx)
    ensures FieldEnd(raw, endx) && forall k :: FieldEnd(raw, k) ==> k == endx
    ensures ExtractSens(raw).Ok? <==> 2 <= endx && Atof(raw[..endx - 1]) != 0.0
    ensures ExtractSens(raw).Ok? ==> ExtractSens(raw).value == Field(Atof(raw[..endx - 1]), raw[endx + 1..])
  {
    forall k | FieldEnd(raw, k)
      ensures k == endx
    {
      FieldEndUnique(raw, k, endx);
    }
  }

  /**
    A count `extractSens` returns is never 0 and costs at least its comma, one
    character before it and one digit; anything else throws `INVALID`.
   */
  lemma ExtractSensConsumes(raw: string)
    ensures ExtractSens(raw).Ok? ==> ExtractSens(raw).value.count != 0.0 && |ExtractSens(raw).value.rest| + 3 <= |raw|
    ensures ExtractSens(raw).Err? ==> ExtractSens(raw).msg == INVALID
  {
  }

  /**
    On a run of digits followed by a comma, the value read is that of the digits
    without their last one: "512," yields 51.
   */
  lemma ExtractDropsLastDigit(digits: string, rest: string)
    requires 2 <= |digits| && AllDigits(digits) && Whole(digits[..|digits| - 1]) != 0
    ensures ExtractSens(digits + [SENSDLIM] + rest) == Ok(Field(Whole(digits[..|digits| - 1]) as real, rest))
  {
    var raw := digits + [SENSDLIM] + rest;
    var k := |digits|;
    assert FieldEnd(raw, k);
    assert raw[..k - 1] == digits[..k - 1];
    AtofOfDigits(digits[..k - 1]);
    assert raw[k + 1..] == rest;
  }

  /** "512," is read as 51 and leaves nothing. */
  lemma ExtractExample()
    ensures ExtractSens("512,") == Ok(Field(51.0, ""))
  {
    assert "512," == "512" + [SENSDLIM] + "";
    assert "512"[..2] == "51" && "51"[..1] == "5" && "5"[..0] == "";
    assert Whole("51") == 51;
    ExtractDropsLastDigit("512", "");
  }

  /** The counts `parseSens` obtained, what is left of the text, and whether a field failed. */
  datatype Run = Run(counts: seq<real>, rest: string, failed: bool)

  /**
    `n` successive `extractSens` calls, each on what the previous one left,
    stopping at the first that throws.
   */
  function ExtractRun(raw: string, n: nat): (r: Run)
    ensures |r.counts| <= n
    ensures !r.failed <==> |r.counts| == n
    ensures forall i :: 0 <= i < |r.counts| ==> r.counts[i] != 0.0
    ensures r.failed ==> ExtractSens(r.rest).Err?
    ensures |r.rest| + 3 * |r.counts| <= |raw|
  {
    if n == 0 then Run([], raw, false)
    else match ExtractSens(raw)
      case Err(_) => Run([], raw, true)
      case Ok(f) =>
        ExtractSensConsumes(raw);
        var tail := ExtractRun(f.rest, n - 1);
        Run([f.count] + tail.counts, tail.rest, tail.failed)
  }

  /** Extend a run already taken with the counts and ending of a further one. */
  function Glue(done: seq<real>, r: Run): Run
  {
    Run(done + r.counts, r.rest, r.failed)
  }

  /** One more successful field moves a count from the remaining run to the taken prefix. */
  lemma RunStep(raw0: string, raw: string, done: seq<real>, n: nat)
    requires |done| < n && ExtractSens(raw).Ok?
    requires Glue(done, ExtractRun(raw, n - |done|)) == ExtractRun(raw0, n)
    ensures Glue(done + [ExtractSens(raw).value.count], ExtractRun(ExtractSens(raw).value.rest, n - |done| - 1))
         == ExtractRun(raw0, n)
  {
    var f := ExtractSens(raw).value;
    var tail := ExtractRun(f.rest, n - |done| - 1);
    assert ExtractRun(raw, n - |done|) == Run([f.count] + tail.counts, tail.rest, tail.failed);
    assert done + ([f.count] + tail.counts) == done + [f.count] + tail.counts;
  }

  /** A field that fails ends the run with the counts taken so far and the text it failed on. */
  lemma RunStop(raw0: string, raw: string, done: seq<real>, n: nat)
    requires |done| < n && ExtractSens(raw).Err?
    requires Glue(done, ExtractRun(raw, n - |done|)) == ExtractRun(raw0, n)
    ensures ExtractRun(raw0, n) == Run(done, raw, true)
  {
    assert ExtractRun(raw, n - |done|) == Run([], raw, true);
    assert done + [] == done;
  }

  /** The operator-facing name of the group channel `j` belongs to. */
  function ChannelGroup(j: nat): string
    requires j < CHANNELS
  {
    if j == 0 then "pressure data"
    else if j == 1 then "humidity data"
    else if j < 5 then "acceleration data"
    else "temperature data"
  }

  /** The calibration of channel `j` applied to count `v`, with `LOWV` the ADC reference. */
  function Calibrate(j: nat, v: real): real
    requires j < CHANNELS
  {
    if j == 0 then v / (1024.0 * 0.00776)
    else if j == 1 then ((LOWV * v / 1024.0) - 0.958) / 0.03068
    else if j < 5 then ((LOWV * v / 1024.0) - 1.0725) * (-1000.0 / 0.22)
    else (LOWV * v / 1024.0) / 0.01 - 32.0
  }

  /** The count a channel reading came from: the inverse of `Calibrate`. */
  function Uncalibrate(j: nat, x: real): real
    requires j < CHANNELS
  {
    if j == 0 then x * (1024.0 * 0.00776)
    else if j == 1 then (x * 0.03068 + 0.958) * 1024.0 / LOWV
    else if j < 5 then (x / (-1000.0 / 0.22) + 1.0725) * 1024.0 / LOWV
    else (x + 32.0) * 0.01 * 1024.0 / LOWV
  }

  /** Every calibration is invertible: a reading determines its count and back. */
  lemma CalibrationRoundTrip(j: nat, v: real, x: real)
    requires j < CHANNELS
    ensures Uncalibrate(j, Calibrate(j, v)) == v
    ensures Calibrate(j, Uncalibrate(j, x)) == x
  {
  }

  /**
    A larger count gives a larger pressure, humidity and temperature and a
    smaller acceleration (the acceleration gain is negative).
   */
  lemma CalibrationMonotone(j: nat, v: real, w: real)
    requires j < CHANNELS && v < w
    ensures 2 <= j < 5 ==> Calibrate(j, w) < Calibrate(j, v)
    ensures !(2 <= j < 5) ==> Calibrate(j, v) < Calibrate(j, w)
  {
  }

  /** The three accelerometer axes share one calibration, and so do the two thermometers. */
  lemma SharedCalibrations(v: real)
    ensures Calibrate(2, v) == Calibrate(3, v) == Calibrate(4, v)
    ensures Calibrate(5, v) == Calibrate(6, v)
  {
  }

  /**
    Storing the calibrated value of the next count over the channel it belongs to
    extends the calibrated prefix by one and shortens the untouched suffix by one.
   */
  lemma StoreNext(done: seq<real>, before: seq<real>, x: real)
    requires |done| < CHANNELS && |before| == CHANNELS
    ensures (Calibrated(done) + before[|done|..])[|done| := Calibrate(|done|, x)]
         == Calibrated(done + [x]) + before[|done| + 1..]
  {
  }

  /** The calibrated readings of the first `|counts|` channels. */
  function Calibrated(counts: seq<real>): (r: seq<real>)
    requires |counts| <= CHANNELS
    ensures |r| == |counts|
  {
    seq(|counts|, j requires 0 <= j < |counts| => Calibrate(j, counts[j]))
  }

  /**
    What `parseSens` leaves, given the text it was handed and the seven channel
    values before and after: `raw` is what the run did not consume, the channels
    read are stored calibrated and the others keep their values, and an error
    names the group of the first channel that failed.
   */
  ghost predicate SensParsed(raw0: string, before: seq<real>, after: seq<real>, error: Option<string>, raw: string)
    requires |before| == CHANNELS
  {
    var run := ExtractRun(raw0, CHANNELS);
    raw == run.rest
    && after == Calibrated(run.counts) + before[|run.counts|..]
    && (error.Some? <==> run.failed)
    && (run.failed ==> |run.counts| < CHANNELS && error == Some(INVALID + " " + ChannelGroup(|run.counts|) + ".\n"))
  }

  /** Part way through `parseSens`: the counts `done` are taken and stored, `raw` is what is left. */
  ghost predicate SensProgress(raw0: string, before: seq<real>, after: seq<real>, done: seq<real>, raw: string)
    requires |before| == CHANNELS
  {
    |done| <= CHANNELS
    && Glue(done, ExtractRun(raw, CHANNELS - |done|)) == ExtractRun(raw0, CHANNELS)
    && after == Calibrated(done) + before[|done|..]
  }

  lemma ProgressStart(raw0: string, before: seq<real>)
    requires |before| == CHANNELS
    ensures SensProgress(raw0, before, before, [], raw0)
  {
    assert Glue([], ExtractRun(raw0, CHANNELS)) == ExtractRun(raw0, CHANNELS);
    assert Calibrated([]) + before[0..] == before;
  }

  /** A successful field is stored calibrated over the next channel. */
  lemma ProgressStep(raw0: string, before: seq<real>, after: seq<real>, done: seq<real>, raw: string)
    requires |before| == CHANNELS && SensProgress(raw0, before, after, done, raw)
    requires |done| < CHANNELS && ExtractSens(raw).Ok?
    ensures var f := ExtractSens(raw).value;
      SensProgress(raw0, before, after[|done| := Calibrate(|done|, f.count)], done + [f.count], f.rest)
  {
    RunStep(raw0, raw, done, CHANNELS);
    StoreNext(done, before, ExtractSens(raw).value.count);
  }

  /** A failing field ends `parseSens` with the error naming its group. */
  lemma ProgressFail(raw0: string, before: seq<real>, after: seq<real>, done: seq<real>, raw: string)
    requires |before| == CHANNELS && SensProgress(raw0, before, after, done, raw)
    requires |done| < CHANNELS && ExtractSens(raw).Err?
    ensures SensParsed(raw0, before, after, Some(ExtractSens(raw).msg + " " + ChannelGroup(|done|) + ".\n"), raw)
  {
    RunStop(raw0, raw, done, CHANNELS);
  }

  /** Seven stored fields end `parseSens` without error. */
  lemma ProgressDone(raw0: string, before: seq<real>, after: seq<real>, done: seq<real>, raw: string)
    requires |before| == CHANNELS && SensProgress(raw0, before, after, done, raw)
    requires |done| == CHANNELS
    ensures SensParsed(raw0, before, after, None, raw)
  {
    assert ExtractRun(raw, 0) == Run([], raw, false);
    assert done + [] == done;
  }
}
