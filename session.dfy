/**
  The polling loop of main.cpp:63-108. Each cycle reads one frame from the
  port, decodes it into a fresh `Packet` and sends one command. The loop is
  left when `sendCMD` returns true, or when `std::out_of_range` escapes
  `parseData`, which no handler catches, and so ends the program.
 */
module Session {
  import opened CText
  import opened Whalebone
  import opened Base
  import opened Sensors
  import opened Gga
  import Telemetry

  /**
    One read of the port (main.cpp:84-86): `RS232_PollComport` is asked for at
    most `MAXBUF - 1` bytes of the `MAXBUF`-byte buffer and `frame` is what it
    delivered. The buffer then holds the frame, and the NUL written at
    `buff[buff_size]` lies inside it.
   */
  method Poll(frame: seq<Byte>) returns (buff: array<Byte>, buffSize: int)
    requires |frame| <= MAXBUF - 1
    ensures fresh(buff) && buff.Length == MAXBUF
    ensures buffSize == |frame| && 0 <= buffSize < buff.Length
    ensures buff[..buffSize] == frame && buff[buffSize] == 0
  {
    buff := new Byte[MAXBUF];
    buffSize := |frame|;
    forall i | 0 <= i < buffSize {
      buff[i] := frame[i];
    }
    buff[buffSize] := 0;
  }

  /**
    Whether decoding `frame` lets `std::out_of_range` escape `parseData`: the
    frame is not empty and the GGA sentence after the sensor run makes `at`
    read past its end.
   */
  predicate Escapes(frame: seq<Byte>)
  {
    |frame| > 0 &&
    var run := ExtractRun(Telemetry.AfterDelim(Telemetry.Received(frame)), CHANNELS);
    ParseGga(Telemetry.AfterDelim(run.rest)).status == Escaped
  }

  /**
    The read and decode of one cycle (main.cpp:84-91): the frame is polled into
    the buffer and handed to `parseData` of a fresh `Packet`; `aborted` tells
    whether `std::out_of_range` escaped it.
   */
  method ReadFrame(frame: seq<Byte>) returns (buffSize: int, aborted: bool)
    requires |frame| <= MAXBUF - 1
    ensures buffSize == |frame| && 0 <= buffSize < MAXBUF
    ensures aborted <==> Escapes(frame)
  {
    var buff;
    buff, buffSize := Poll(frame);
    var pket := new Telemetry.Packet();
    assert buff[..][..buffSize] == frame;
    var exit := pket.ParseData(buff[..], buffSize);
    aborted := exit == Unwound;
  }

  /** How the polling loop ended. */
  datatype End =
    | Stopped    // `sendCMD` returned true
    | Aborted    // `std::out_of_range` left `parseData`, ending the program
    | Exhausted  // every cycle given was run

  /** Whether each cycle ends the loop: its frame escapes `parseData`, or its command file holds `STOPSAIL`. */
  function Ending(frames: seq<seq<Byte>>, cmdFiles: seq<string>): seq<bool>
    requires |frames| == |cmdFiles|
  {
    seq(|frames|, i requires 0 <= i < |frames| => Escapes(frames[i]) || FirstToken(cmdFiles[i]) == STOPSAIL)
  }

  /** The first cycle at or after `from` that ends the loop, or `|ends|` when there is none. */
  function FirstEnd(ends: seq<bool>, from: nat): nat
    requires from <= |ends|
    decreases |ends| - from
  {
    if from == |ends| || ends[from] then from else FirstEnd(ends, from + 1)
  }

  /**
    `FirstEnd` is the first ending cycle: no cycle from `from` up to it ends
    the loop, and the cycle it names does.
   */
  lemma {:induction false} FirstEndIsFirst(ends: seq<bool>, from: nat)
    requires from <= |ends|
    ensures var e := FirstEnd(ends, from);
      from <= e <= |ends|
      && (forall i :: from <= i < e ==> !ends[i])
      && (e < |ends| ==> ends[e])
    decreases |ends| - from
  {
    if from < |ends| && !ends[from] {
      FirstEndIsFirst(ends, from + 1);
    }
  }

  /**
    The loop over the cycles given: cycle `i` polls `frames[i]`, decodes it,
    reads command file `cmdFiles[i]`, and the transport reports
    `sendResults[i]`. The loop runs up to and including the first ending cycle
    of `FirstEnd`: it is left there by the escape when the frame escapes, and
    by `sendCMD` returning true otherwise; with no ending cycle every cycle
    runs.
   */
  method RunSession(frames: seq<seq<Byte>>, cmdFiles: seq<string>, sendResults: seq<int>, dfltcmd: string)
    returns (cycles: nat, end: End)
    requires |frames| == |cmdFiles| == |sendResults|
    requires forall i :: 0 <= i < |frames| ==> |frames[i]| <= MAXBUF - 1
    ensures var e := FirstEnd(Ending(frames, cmdFiles), 0);
      cycles == (if e < |frames| then e + 1 else |frames|)
      && (end == Exhausted <==> e == |frames|)
      && (end == Aborted <==> e < |frames| && Escapes(frames[e]))
      && (end == Stopped <==> e < |frames| && !Escapes(frames[e]) && FirstToken(cmdFiles[e]) == STOPSAIL)
  {
    cycles, end := 0, Exhausted;
    while cycles < |cmdFiles|
      invariant cycles <= |cmdFiles|
      invariant FirstEnd(Ending(frames, cmdFiles), 0) == FirstEnd(Ending(frames, cmdFiles), cycles)
    {
      var _, aborted := ReadFrame(frames[cycles]);
      cycles := cycles + 1;
      if aborted {
        end := Aborted;
        return;
      }
      var stop, _ := Base.SendCmd(cmdFiles[cycles - 1], dfltcmd, sendResults[cycles - 1]);
      if stop {
        end := Stopped;
        return;
      }
    }
  }
}
