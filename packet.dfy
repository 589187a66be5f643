/**
  The `Packet` class of packet.h: the decoded contents of one frame. A frame is
  `echo#sensors#gps`: the command the balloon echoes, a run of seven
  comma-terminated ADC counts, and an NMEA text holding a GGA sentence.
  The sensor and position parts are decoded independently and each has its
  own validity flag.
 */
module Telemetry {
  import opened Wrappers
  import opened CText
  import opened Whalebone
  import opened Sensors
  import opened Gga
  import opened LogRow

  /** The frame as a string: the received bytes as characters, up to a NUL if one came in. */
  function Received(bytes: seq<Byte>): string
  {
    CString(seq(|bytes|, i requires 0 <= i < |bytes| => CharOf(bytes[i])))
  }

  /** The text before the first `DATDLIM`, or all of `data` when there is none. */
  function EchoOf(data: string): (e: string)
    ensures DATDLIM !in e
    ensures DATDLIM in data ==> |e| < |data| && data[..|e|] == e && data[|e|] == DATDLIM
    ensures DATDLIM !in data ==> e == data
  {
    match FindChar(data, DATDLIM, 0)
    case None => data
    case Some(k) => data[..k]
  }

  /**
    `data.substr(data.find(DATDLIM) + 1)`: the text after the first `DATDLIM`;
    with no `DATDLIM`, `npos + 1` wraps to 0 and the text is unchanged.
   */
  function AfterDelim(data: string): (r: string)
    ensures DATDLIM in data ==> data == EchoOf(data) + [DATDLIM] + r
    ensures DATDLIM !in data ==> r == data
  {
    match FindChar(data, DATDLIM, 0)
    case None => data
    case Some(k) => data[k + 1..]
  }

  /**
    Storing into channel `j` of pressure, humidity, the accelerations `a` and the
    temperatures `t` replaces exactly the member or array cell channel `j` lives in.
   */
  lemma StoreChannel(p: real, h: real, a: seq<real>, t: seq<real>, j: nat, v: real)
    requires |a| == 3 && |t| == 2 && j < CHANNELS
    ensures j == 0 ==> ([p, h] + a + t)[j := v] == [v, h] + a + t
    ensures j == 1 ==> ([p, h] + a + t)[j := v] == [p, v] + a + t
    ensures 2 <= j < 5 ==> ([p, h] + a + t)[j := v] == [p, h] + a[j - 2 := v] + t
    ensures 5 <= j ==> ([p, h] + a + t)[j := v] == [p, h] + a + t[j - 5 := v]
  {
  }

  class Packet {
    /** The command the balloon reports having received. */
    var echo: string
    var pres: real
    var humd: real
    const accel: array<real>
    const temp: array<real>
    var lat: real
    var lng: real
    /** The position part of the last frame parsed. */
    var gps: bool
    /** The sensor part of the last frame parsed. */
    var sens: bool

    /** `accel[3]` and `temp[2]` are two distinct fixed-size arrays. */
    ghost predicate Valid()
    {
      accel.Length == 3 && temp.Length == 2 && accel != temp
    }

    /** The seven sensor channels in the order the frame carries them. */
    ghost function Channels(): (ch: seq<real>)
      requires Valid()
      reads this`pres, this`humd, accel, temp
      ensures |ch| == CHANNELS
    {
      [pres, humd] + accel[..] + temp[..]
    }

    /** A packet with nothing decoded; C++ leaves the members uninitialised, here they are zero. */
    constructor ()
      ensures Valid() && fresh(accel) && fresh(temp)
      ensures echo == "" && !gps && !sens
    {
      echo, pres, humd, lat, lng := "", 0.0, 0.0, 0.0, 0.0;
      accel := new real[3](_ => 0.0);
      temp := new real[2](_ => 0.0);
      gps, sens := false, false;
    }

    /**
      Stores count `v` of channel `j` calibrated in the member or array cell
      that holds channel `j` (packet.cpp:60-84), and nothing else.
     */
    method Store(j: nat, v: real)
      requires Valid() && j < CHANNELS
      modifies this, accel, temp
      ensures Valid() && Channels() == old(Channels())[j := Calibrate(j, v)]
      ensures echo == old(echo) && lat == old(lat) && lng == old(lng) && gps == old(gps) && sens == old(sens)
    {
      ghost var p, h, a, t := pres, humd, accel[..], temp[..];
      StoreChannel(p, h, a, t, j, Calibrate(j, v));
      if j == 0 {
        pres := v / (1024.0 * 0.00776);
      } else if j == 1 {
        humd := ((LOWV * v / 1024.0) - 0.958) / 0.03068;
      } else if j < 5 {
        accel[j - 2] := ((LOWV * v / 1024.0) - 1.0725) * (-1000.0 / 0.22);
      } else {
        temp[j - 5] := (LOWV * v / 1024.0) / 0.01 - 32.0;
      }
    }

    /**
      `parseSens(raw)`: the seven counts are taken off `raw` in order and stored
      calibrated; a channel that fails leaves the later ones unchanged and
      rethrows "Invalid" with the failing group's name. `raw` ends as the text
      left after the last successful field.
     */
    method ParseSens(raw0: string) returns (error: Option<string>, raw: string)
      requires Valid()
      modifies this, accel, temp
      ensures Valid()
      ensures SensParsed(raw0, old(Channels()), Channels(), error, raw)
      ensures echo == old(echo) && lat == old(lat) && lng == old(lng) && gps == old(gps) && sens == old(sens)
    {
      ghost var before := Channels();
      raw := raw0;
      ghost var done: seq<real> := [];
      ProgressStart(raw0, before);
      var dattyp := "pressure data";
      error, raw, done := ReadChannel(raw0, before, done, 0, raw, dattyp);
      if error.Some? {
        return;
      }

      dattyp := "humidity data";
      error, raw, done := ReadChannel(raw0, before, done, 1, raw, dattyp);
      if error.Some? {
        return;
      }

      dattyp := "acceleration data";
      for i := 0 to 3
        invariant |done| == 2 + i
        invariant SensProgress(raw0, before, Channels(), done, raw) && error == None
        invariant echo == old(echo) && lat == old(lat) && lng == old(lng) && gps == old(gps) && sens == old(sens)
      {
        error, raw, done := ReadChannel(raw0, before, done, 2 + i, raw, dattyp);
        if error.Some? {
          return;
        }
      }

      dattyp := "temperature data";
      for i := 0 to 2
        invariant |done| == 5 + i
        invariant SensProgress(raw0, before, Channels(), done, raw) && error == None
        invariant echo == old(echo) && lat == old(lat) && lng == old(lng) && gps == old(gps) && sens == old(sens)
      {
        error, raw, done := ReadChannel(raw0, before, done, 5 + i, raw, dattyp);
        if error.Some? {
          return;
        }
      }
      ProgressDone(raw0, before, Channels(), done, raw);
    }

    /**
      One field of `parseSens` (the body repeated at packet.cpp:58-90): the
      count is extracted and stored calibrated in the next channel, or the
      extraction error is returned with the channel group's name.
     */
    method ReadChannel(ghost raw0: string, ghost before: seq<real>, ghost done: seq<real>, j: nat, raw: string, dattyp: string)
      returns (error: Option<string>, rest: string, ghost done': seq<real>)
      requires Valid() && |before| == CHANNELS && j == |done| < CHANNELS
      requires SensProgress(raw0, before, Channels(), done, raw) && dattyp == ChannelGroup(j)
      modifies this, accel, temp
      ensures Valid()
      ensures error.Some? ==> SensParsed(raw0, before, Channels(), error, rest)
      ensures error.None? ==> |done'| == |done| + 1 && SensProgress(raw0, before, Channels(), done', rest)
      ensures echo == old(echo) && lat == old(lat) && lng == old(lng) && gps == old(gps) && sens == old(sens)
    {
      var f := ExtractSens(raw);
      if f.Err? {
        ProgressFail(raw0, before, Channels(), done, raw);
        return Some(f.msg + " " + dattyp + ".\n"), raw, done;
      }
      ProgressStep(raw0, before, Channels(), done, raw);
      Store(j, f.value.count);
      error, rest, done' := None, f.value.rest, done + [f.value.count];
    }

    /**
      `parseGPS(raw)`: `raw` is only read; `lat` and `lng` take the values
      `ParseGga` says were assigned, and every other member is unchanged.
     */
    method ParseGPS(raw: string) returns (status: GpsStatus)
      modifies this
      ensures var f := ParseGga(raw);
        status == f.status && lat == f.lat.GetOr(old(lat)) && lng == f.lng.GetOr(old(lng))
      ensures echo == old(echo) && pres == old(pres) && humd == old(humd)
      ensures gps == old(gps) && sens == old(sens)
    {
      var tag := FindText(raw, GGATAG, 0);
      if tag.None? {
        return Thrown(NOTAG);
      }
      var indx: nat := tag.value;
      if |raw| - indx < MINGGA {
        return Thrown(TRUNCATED);
      }
      ghost var p := indx;
      for i := 0 to 2
        invariant indx == Hops(raw, p, i)
      {
        var tmp := raw[indx..];
        match FindChar(tmp, ',', 0) {
          case None =>
          case Some(k) => indx := indx + k + 1;
        }
      }
      ReadsFromCursor(raw);
      status := ReadCoordinates(raw, indx);
    }

    /**
      The latitude field of `parseGPS` (packet.cpp:121-156), read from cursor
      `indx`, then the longitude: `lat` and `lng` take the values `Coordinates`
      says were assigned before the outcome, and every other member is
      unchanged.
     */
    method ReadCoordinates(raw: string, indx: nat) returns (status: GpsStatus)
      requires indx <= |raw|
      modifies this
      ensures var f := Coordinates(raw, indx);
        status == f.status && lat == f.lat.GetOr(old(lat)) && lng == f.lng.GetOr(old(lng))
      ensures echo == old(echo) && pres == old(pres) && humd == old(humd)
      ensures gps == old(gps) && sens == old(sens)
    {
      LatitudeCases(raw, indx);
      if indx >= |raw| {
        return Escaped;
      }
      if raw[indx] == ',' {
        return Thrown(NOLAT);
      }
      var scan := ScanDigits(raw, indx, 9, 4);
      if scan == OutOfRange {
        return Escaped;
      } else if scan == NotDigit {
        return Thrown(BADLAT);
      }
      status := AssignLatitude(raw, indx);
    }

    /**
      The latitude value of `parseGPS` (packet.cpp:143-156) once its digits
      are checked, then the longitude.
     */
    method AssignLatitude(raw: string, indx: nat) returns (status: GpsStatus)
      requires indx < |raw| && raw[indx] != ',' && CheckDigits(raw, indx, 9, 4, 0) == Digits
      modifies this
      ensures var f := Coordinates(raw, indx);
        status == f.status && lat == f.lat.GetOr(old(lat)) && lng == f.lng.GetOr(old(lng))
      ensures echo == old(echo) && pres == old(pres) && humd == old(humd)
      ensures gps == old(gps) && sens == old(sens)
    {
      LatitudeValueCases(raw, indx);
      ghost var mag := ConvrtData(raw[indx..indx + 9]);
      lat := ConvrtData(raw[indx..indx + 9]);
      if indx + 10 >= |raw| {
        return Escaped;
      }
      var dir := raw[indx + 10];
      if dir == 'S' {
        lat := -lat;
      }
      assert lat == Hemisphere(raw[indx + 10], 'S', mag);
      status := ReadLongitude(raw, indx);
    }

    /**
      The longitude field of `parseGPS` (packet.cpp:158-196), at cursor `indx`
      + 12, once `lat` is assigned: `lng` takes the value `Longitude` says was
      assigned before the outcome, and every other member is unchanged.
     */
    method ReadLongitude(raw: string, indx: nat) returns (status: GpsStatus)
      modifies this
      ensures var f := Longitude(raw, indx, old(lat));
        status == f.status && lat == f.lat.GetOr(old(lat)) && lng == f.lng.GetOr(old(lng))
      ensures echo == old(echo) && pres == old(pres) && humd == old(humd)
      ensures gps == old(gps) && sens == old(sens)
    {
      LongitudeCases(raw, indx, lat);
      if indx + 12 >= |raw| {
        return Escaped;
      }
      if raw[indx + 12] == ',' {
        return Thrown(NOLNG);
      }
      var scan := ScanDigits(raw, indx + 12, 10, 5);
      if scan == OutOfRange {
        return Escaped;
      } else if scan == NotDigit {
        return Thrown(BADLNG);
      }
      lng := ConvrtData(raw[indx + 12..indx + 22]);
      if indx + 23 >= |raw| {
        return Escaped;
      }
      var dir := raw[indx + 23];
      if dir == 'W' {
        lng := -lng;
      }
      status := Parsed;
    }

    /**
      `parseData(buff, buff_size)` (packet.cpp:317-383). An empty buffer clears
      both flags and decodes nothing. Otherwise the bytes are cast to
      characters in a NUL-filled buffer and read as a C string, and the frame
      is decoded as `ParseFrame` says.
     */
    method ParseData(buff: seq<Byte>, buffSize: int) returns (exit: Exit)
      requires Valid()
      requires 0 <= buffSize < MAXBUF && buffSize <= |buff|
      modifies this, accel, temp
      ensures Valid()
      ensures buffSize == 0 ==>
        exit == Returned && echo == "" && !sens && !gps
        && Channels() == old(Channels()) && lat == old(lat) && lng == old(lng)
      ensures buffSize != 0 ==>
        var data := Received(buff[..buffSize]);
        var run := ExtractRun(AfterDelim(data), CHANNELS);
        var fix := ParseGga(AfterDelim(run.rest));
        echo == EchoOf(data)
        && sens == !run.failed
        && Channels() == Calibrated(run.counts) + old(Channels())[|run.counts|..]
        && lat == fix.lat.GetOr(old(lat)) && lng == fix.lng.GetOr(old(lng))
        && (exit == Unwound <==> fix.status == Escaped)
        && (exit == Returned ==> gps == (fix.status == Parsed))
        && (exit == Unwound ==> gps == old(gps))
    {
      echo := "";
      if buffSize == 0 {
        gps, sens := false, false;
        return Returned;
      }

      var data := Repackage(buff, buffSize);
      exit := ParseFrame(data);
    }

    /**
      The repackaging step of `parseData` (packet.cpp:345-348): the bytes are
      cast into a NUL-filled `char[MAXBUF]` and read back as a C string.
     */
    static method Repackage(buff: seq<Byte>, buffSize: int) returns (data: string)
      requires 0 <= buffSize < MAXBUF && buffSize <= |buff|
      ensures data == Received(buff[..buffSize])
    {
      var tmp := new char[MAXBUF](_ => '\0');
      CastToChars(buff, tmp, buffSize);
      ghost var bytes := buff[..buffSize];
      ghost var chars := seq(buffSize, i requires 0 <= i < buffSize => CharOf(bytes[i]));
      assert tmp[..] == chars + tmp[buffSize..];
      CStringPadded(chars, tmp[buffSize..]);
      data := CString(tmp[..]);
    }

    /**
      The decoding part of `parseData` (packet.cpp:345-382), on the frame as a
      string: the echo is the text before the first `DATDLIM` (kept as it was
      when the frame starts with `DATDLIM`), the sensor run is read from the
      text after it, and the GGA sentence from the text after the next
      `DATDLIM` in what the sensor run left.
     */
    method ParseFrame(data0: string) returns (exit: Exit)
      requires Valid()
      modifies this, accel, temp
      ensures Valid()
      ensures var run := ExtractRun(AfterDelim(data0), CHANNELS);
        var fix := ParseGga(AfterDelim(run.rest));
        echo == (if |data0| > 0 && data0[0] == DATDLIM then old(echo) else EchoOf(data0))
        && sens == !run.failed
        && Channels() == Calibrated(run.counts) + old(Channels())[|run.counts|..]
        && lat == fix.lat.GetOr(old(lat)) && lng == fix.lng.GetOr(old(lng))
        && (exit == Unwound <==> fix.status == Escaped)
        && (exit == Returned ==> gps == (fix.status == Parsed))
        && (exit == Unwound ==> gps == old(gps))
    {
      var data := data0;
      var found := FindChar(data, DATDLIM, 0);
      var indx: int := if found.Some? then found.value else -1;
      if indx != 0 {
        echo := if indx < 0 then data else data[..indx];
      }
      data := data[indx + 1..];
      assert data == AfterDelim(data0);
      data := TrySens(data);
      exit := TryGps(data);
    }

    /**
      The sensor block of `parseData` (packet.cpp:355-365): `parseSens` on
      `data`, whose text it leaves behind is returned, and `sens` set to
      whether it threw.
     */
    method TrySens(data: string) returns (rest: string)
      requires Valid()
      modifies this, accel, temp
      ensures Valid()
      ensures var run := ExtractRun(data, CHANNELS);
        rest == run.rest && sens == !run.failed
        && Channels() == Calibrated(run.counts) + old(Channels())[|run.counts|..]
      ensures echo == old(echo) && lat == old(lat) && lng == old(lng) && gps == old(gps)
    {
      var error;
      error, rest := ParseSens(data);
      sens := error.None?;
    }

    /**
      The GPS block of `parseData` (packet.cpp:367-382): the text after the
      next `DATDLIM` goes to `parseGPS`; `gps` is set to whether it parsed,
      unless an `std::out_of_range` unwinds first.
     */
    method TryGps(data0: string) returns (exit: Exit)
      requires Valid()
      modifies this
      ensures Valid()
      ensures var fix := ParseGga(AfterDelim(data0));
        lat == fix.lat.GetOr(old(lat)) && lng == fix.lng.GetOr(old(lng))
        && (exit == Unwound <==> fix.status == Escaped)
        && (exit == Returned ==> gps == (fix.status == Parsed))
        && (exit == Unwound ==> gps == old(gps))
      ensures echo == old(echo) && sens == old(sens) && pres == old(pres) && humd == old(humd)
    {
      var found := FindChar(data0, DATDLIM, 0);
      var indx: int := if found.Some? then found.value else -1;
      var data := data0[indx + 1..];
      assert data == AfterDelim(data0);
      var status := ParseGPS(data);
      if status == Escaped {
        return Unwound;
      }
      gps := status == Parsed;
      exit := Returned;
    }

    /**
      `writeData`: an error when the data file did not open; otherwise no row
      when neither part is valid, and the tab-separated row of this packet when
      either is. `render` is `ofstream << double`. The packet is only read.
     */
    method WriteData(fileOpen: bool, render: real -> string) returns (r: Result<Option<string>>)
      requires Valid()
      ensures !fileOpen <==> r == Err("Error opening the datafile.\n")
      ensures fileOpen && !sens && !gps ==> r == Ok(None)
      ensures fileOpen && (sens || gps) ==>
        r == Ok(Some(Tabbed(Columns(sens, gps, SensorTexts(pres, humd, accel[..], temp[..], render),
                                    render(lat), render(lng))) + "\n"))
    {
      if !fileOpen {
        return Err("Error opening the datafile.\n");
      }
      var texts := SensorTexts(pres, humd, accel[..], temp[..], render);
      r := Ok(Row(sens, gps, texts, render(lat), render(lng)));
    }
  }
}
