# sail ground station: a Dafny model

sail is the ground station of a weather balloon. Each cycle it reads one
telemetry frame from the serial line. It decodes the frame into a `Packet`:

- the command the balloon echoes;
- seven calibrated sensor channels;
- a position from an NMEA 0183 GGA sentence.

It then appends a tab-separated row to a data file, plots the logged positions
on a map and sends the balloon one uplink command from a command file. An older
program, balloon-data.cpp, rewrites the GGA text of a frame in place instead.

The model has these modules:

- **CText** (`ctext.dfy`): the C and C++ text primitives the code relies on:
  - `find` (with `npos` as `None`), `substr`, `operator>>` into a string;
  - a `char[]` read as a C string;
  - `atof` over sign, digits and an optional fraction;
  - the two byte casts.
- **Sensors** (`sensors.dfy`): `extractSens`, the run of seven counts
  `parseSens` takes, and the four calibrations.
- **Gga** (`gga.dfy`): `convrtData` and the checks of `parseGPS`, stated as
  the function `ParseGga` of the text handed to it.
  - An `at` past the end throws `std::out_of_range`, which no `catch (string)`
    catches. This outcome is `Escaped`.
- **Telemetry** (`packet.dfy`): the class `Packet` with the fields of
  packet.h.
  - Its methods `ParseData`, `ParseSens`, `ParseGPS` and `WriteData` update
    the fields in place.
  - Each is proved against the specification functions of Sensors and Gga.
- **LogRow** (`logrow.dfy`): the row `writeData` writes and how it splits back
  into columns.
- **Whalebone** (`whalebone.dfy`): the constants of whalebone.h and the
  `castArray` copy loops.
  - `sendCMD`, over the staging buffer `mssg[MAXCMD + 1]`.
  - The ring counters `pnt`/`numpts` of `writePts`.
  - The column arithmetic `writePts` applies to each text it reads.
- **Base** (`base.dfy`): the keywords and delimiters of base.h, and
  `sendCMD(Param&)`, both as written and as its header promises.
- **Session** (`session.dfy`): the polling loop of main.cpp.
  - Each cycle polls a frame into the buffer, decodes it with a fresh
    `Packet`'s `ParseData`, and sends the command file's directive.
  - The loop ends at the first cycle whose frame lets `std::out_of_range`
    escape `parseData`, which nothing catches and so ends the program, or
    whose command file holds "Stop", which makes `sendCMD` return true.
- **BalloonData** (`balloon_data.dfy`): the in-place GGA rewrite
  `parseData`, on a `char` array, and that program's `$`-terminated
  `sendCMD`.

`size_t` and `int` are taken to be 32 bits wide, as on the MinGW build the
code targets. `npos` is therefore 2^32 - 1, and `npos + 1` wraps to 0.
Numbers are reals. `ofstream << double` is a parameter that yields text
without tabs or newlines.

## Model

| member | source | states |
|---|---|---|
| CText.ByteOf | whalebone.cpp:25 | `static_cast<unsigned char>` keeps the code of an eight-bit character |
| CText.CharOf | whalebone.cpp:32 | `static_cast<char>` gives the character with the byte's code |
| CText.CastsRoundTrip | base.cpp:21-33 | the two casts undo each other on eight-bit characters |
| CText.FindChar | packet.cpp:25 | `find` returns the first index at or after the start that holds the character, and `npos` only when there is none |
| CText.FindText | packet.cpp:103 | `find` of a text returns its first occurrence at or after the start, and `npos` only when there is none |
| CText.Substr | balloon-data.cpp:410-411 | `substr` throws exactly when the position is past the end; otherwise it returns the slice, with its length clamped to what is left |
| CText.CString | packet.cpp:348 | a `char[]` read as a string is its longest NUL-free prefix, stopped by the NUL when there is one |
| CText.CStringPadded | packet.cpp:346-348 | bytes after a NUL do not change the string read |
| CText.FirstToken | whalebone.cpp:265-266 | `>>` skips leading white space and yields the maximal run without white space that follows |
| CText.AtofOfDigits | packet.cpp:38 | `atof` of a run of digits is its positional value |
| CText.AtofOfDecimal | packet.cpp:206 | `atof` of `digits.digits` is the whole part plus the fraction |
| CText.Atof | packet.cpp:38 | `atof` over an optional sign, digits and an optional `.` and digits, read up to the first character outside that grammar; its values are stated by `AtofOfDigits`, `AtofOfDecimal` and `AtofOfNonNumber` |
| CText.AtofOfNonNumber | whalebone.cpp:221 | text that starts with neither a sign, a digit nor a point, such as the newline left at the end of a row, reads as 0 |
| Whalebone.DefaultCommandIsDelimited | whalebone.h:41-45 | `DFLTCMD` ends with `CMDDLIM` and fits in `mssg`, so it would itself pass the literal test |
| Whalebone.DelimitersDiffer | whalebone.h:41-48 | `DATDLIM` and `CMDDLIM` are different characters |
| Whalebone.DconvIsOneSixtieth | whalebone.h:51 | `DCONV` is within 1e-15 of 1/60 |
| Whalebone.CastArray | balloon-data.cpp:243-249 | the template copies exactly the first `arr_size` elements through the cast; every other cell of `array2` is unchanged |
| Whalebone.CastToBytes | whalebone.cpp:21-26 | the `char` to `unsigned char` overload copies the first `arr_size` cells cast and leaves the rest |
| Whalebone.CastToChars | whalebone.cpp:28-33 | the `unsigned char` to `char` overload copies the first `arr_size` cells cast and leaves the rest |
| Whalebone.Stage | whalebone.cpp:269-286 | a message of at most `MAXCMD + 1` bytes is sent as its bytes, and an error is reported exactly when the sent count differs from its length; a longer one overruns `mssg` |
| Whalebone.Transmit | whalebone.cpp:270-286 | an empty token is the undefined `cmd[-1]` case; otherwise a token ending in the delimiter is sent as it is, and the default is sent when it does not end so |
| Whalebone.SendCmd | whalebone.cpp:258-290 | what goes out always ends with `@`; it is the file's first token exactly when that token ends with `@`, and `DFLTCMD` otherwise; an error is reported exactly on a short send; the file is only read |
| Whalebone.Latest | whalebone.cpp:226 | the line a ring slot holds is the last line stored there: no later line maps to that slot |
| Whalebone.ColumnValue | whalebone.cpp:211-215 | an empty column reads as 0 |
| Whalebone.AsSize | whalebone.cpp:207 | an `int` converted to `size_t` lies in [0, 2^32) and agrees with it modulo 2^32 |
| Whalebone.AsInt | whalebone.cpp:211 | a `size_t` value stored in an `int` lies in [-2^31, 2^31) and agrees with it modulo 2^32 |
| Whalebone.NextTab | whalebone.cpp:207 | `find('\t', ind + 1)` is `npos` or the index of a tab at or after `ind + 1` |
| Whalebone.NextTabIsFirst | whalebone.cpp:207 | that tab is the first one from `ind + 1` on; `npos` comes back when there is no tab there, and, for strings shorter than `npos`, only then |
| Whalebone.SkipColumns | whalebone.cpp:205-208 | the seven `find('\t', ind + 1)` hops, each result stored back into the `int` cursor; where they land is stated by `SkipFromStart`, `SkipFromEmptyStart` and `SkipWithoutTabs` |
| Whalebone.ColumnAt | whalebone.cpp:211-218 | one column read: its length from the next tab, 0 for an empty column, and the cursor moved past it; stated by `ColumnBetweenTabs` and `WrappedColumn` |
| Whalebone.TokenPoint | whalebone.cpp:203-223 | one pass of the read loop on the text `tmp`: seven hops, then the latitude and longitude columns; stated by `TokenPointOfWord`, `TokenPointOfLine` and `GpsOnlyRowMisread` |
| Whalebone.LinePoint | whalebone.cpp:210-223 | the position a pass is meant to read: the eighth and ninth tab-separated columns; stated by `LinePointOfRow` |
| Whalebone.ColumnBetweenTabs | whalebone.cpp:211-218 | a column between the cursor and the next tab reads as the value of its text, and the cursor moves onto that tab |
| Whalebone.HopInside | whalebone.cpp:207 | a hop whose search starts inside column k lands on the tab that ends column k |
| Whalebone.SkipFromInside | whalebone.cpp:206-208 | hops started inside column k land on the tab before column j after j - k hops |
| Whalebone.SkipFromStart | whalebone.cpp:205-208 | on a line whose first column is not empty, the search from index 1 still starts inside it, and the seven hops land on the tab before the eighth column |
| Whalebone.SkipFromEmptyStart | whalebone.cpp:205-208 | on a line whose first two columns are empty, the first search from index 1 skips the tab at index 0, and the seven hops land on the tab before the ninth column |
| Whalebone.TokenPointBetweenTabs | whalebone.cpp:210-223 | after the hops, two tab-ended columns are read as latitude and longitude |
| Whalebone.TokenPointAfterLastTab | whalebone.cpp:210-223 | when no tab follows the second column read, its length wraps and it reads the rest of the text |
| Whalebone.TokenPointOfColumns | whalebone.cpp:203-223 | on tab-terminated columns whose first is not empty, the pass reads the eighth and ninth columns |
| Whalebone.TokenPointOfLine | whalebone.cpp:203-223 | on a whole line of nine or more tab-free cells with a non-empty first cell, the pass reads what `LinePoint` reads |
| Whalebone.SensorRowPoint | whalebone.cpp:203-223 | a whole row with sensor data whose first column is not empty is read at its own position |
| Whalebone.GpsOnlyColumns | whalebone.cpp:205-223 | on a line whose first two columns are empty, the pass reads the ninth column as latitude and the rest of the line as longitude |
| Whalebone.GpsOnlyRowMisread | whalebone.cpp:205-223 | a whole GPS-only row as packet.cpp:404-408 writes it is read as (longitude, 0), while its own position is (latitude, longitude) |
| Whalebone.TokenPointOfWord | whalebone.cpp:203-223 | for a text without tabs, as `>>` yields, the cursor wraps to -1, `lnth` wraps to -1 and both coordinates are the value of the whole text |
| Whalebone.SkipWithoutTabs | whalebone.cpp:205-208 | without a tab, every `find` hop leaves the cursor at -1 |
| Whalebone.WrappedColumn | whalebone.cpp:211-218 | at cursor -1 without a tab, `substr(0, npos)` reads the whole text and the cursor stays at -1 |
| Whalebone.TokenPointExample | whalebone.cpp:204 | a line whose first column is "7" is plotted at (7, 7) |
| Whalebone.LinePointOfRow | packet.cpp:399-410 | reading the eighth and ninth tab-separated columns of a row `writeData` wrote with a valid position gives back the values of its latitude and longitude texts |
| Whalebone.WritePts | whalebone.cpp:196-241 | after the read loop and `--numpts`, slot i of each output loop holds the latitude and longitude columns of the last pass stored at slot i, for min(passes, MAXPTS) - 1 slots; every store and output stays in bounds |
| Whalebone.StorePoint | whalebone.cpp:213-223 | one pass stores its two column values at slot `k % MAXPTS`, changes nothing else and keeps the ring invariant |
| Whalebone.LatestStep | whalebone.cpp:226 | a store at slot `k % MAXPTS` makes line k the latest of that slot only |
| Whalebone.RingStep | whalebone.cpp:226-228 | `(pnt + 1) % MAXPTS` tracks the pass count modulo `MAXPTS`, and `numpts` counts up to `MAXPTS` and stays there |
| Whalebone.PointsInFileOrderBeforeWrap | whalebone.cpp:226-236 | until the ring wraps, slot i holds line i |
| Whalebone.EndOfFileReadShownAfterWrap | whalebone.cpp:231-236 | after a wrap, `--numpts` no longer drops the end-of-file read unless it sits in the last slot |
| Base.DelimitersPairwiseDistinct | base.h:47-54 | `@`, `#` and `,` are pairwise distinct |
| Base.KeywordsExclusive | base.h:41-48 | "Stop" and "Silent" differ and neither ends in `@` |
| Base.Select | base.h:127-134 | the directive is Terminate exactly on "Stop" and Silent exactly on "Silent"; a literal is sent exactly when the token ends in `@`; otherwise the default is sent |
| Base.SendCmdAsWritten | base.cpp:144-175 | the body as written sends `inst.dfltcmd` on "Stop" and "Silent" and has no result to stop the caller; for any non-empty token it sends the token exactly when it ends in `@` and `inst.dfltcmd` otherwise, overruns `mssg` exactly when the message chosen is longer than `MAXCMD + 1`, and reports an error exactly on a short send |
| Base.SendCmd | base.h:127-134 | returns true exactly on "Stop"; sends nothing exactly on "Stop" or "Silent"; otherwise the literal or `inst.dfltcmd` overruns `mssg` exactly when it is longer than `MAXCMD + 1`, and is sent with its own length when it is not, with an error reported exactly on a short send |
| Session.Poll | main.cpp:84-86 | the frame polled is copied to the front of a fresh `MAXBUF`-byte buffer, and `buff_size`, the index of the NUL written after it, lies inside the buffer |
| Session.ReadFrame | main.cpp:84-91 | `buff_size` is the frame's length, inside the buffer, and `parseData` on a fresh `Packet` lets an exception escape exactly when the frame's GGA sentence makes `parseGPS` read past the end of `raw` |
| Session.FirstEndIsFirst | main.cpp:63-108 | the cycle the loop ends at is the first ending one: no cycle before it ends the loop, and it does unless every cycle has run |
| Session.RunSession | main.cpp:63-108 | the loop runs up to and including the first cycle whose frame escapes `parseData` or whose command file holds "Stop", and every cycle when there is none; it ends by the escape exactly when that cycle's frame escapes, by `sendCMD` returning true exactly when that frame does not escape and its command is "Stop", and by running out of cycles exactly when no cycle ends it |
| Sensors.ExtractSens | packet.cpp:21-48 | `extractSens`: the comma search from index 1, the `npos` and index-1 checks, `atof` of the text before the character preceding the comma, the zero check, and the rest after the comma; stated by `ExtractSensOutcome` and `ExtractSensConsumes` |
| Sensors.Calibrate | packet.cpp:60-84 | the calibration of channel j; stated by `CalibrationRoundTrip`, `CalibrationMonotone` and `SharedCalibrations` |
| Sensors.FieldEndUnique | packet.cpp:25 | the cut position of `extractSens` is unique |
| Sensors.ExtractSensOutcome | packet.cpp:21-48 | `extractSens` succeeds exactly when a comma follows index 1, is not at index 1, and the text before its preceding character reads as non-zero; it then yields that value and the text after the comma |
| Sensors.FieldAt | packet.cpp:25-44 | the comma the search stops at alone decides the outcome and the value |
| Sensors.ExtractSensConsumes | packet.h:37-41 | a returned count is non-zero and consumes at least three characters; every failure throws "Invalid" |
| Sensors.ExtractDropsLastDigit | packet.cpp:34 | on digits followed by a comma, the value read omits the last digit |
| Sensors.ExtractExample | packet.cpp:34-44 | "512," reads as 51 and leaves nothing |
| Sensors.ExtractRun | packet.cpp:56-85 | the counts are taken in order, are all non-zero, and consume their text; there are exactly n of them unless a field failed, and then the text left is the one that failed |
| Sensors.RunStep | packet.cpp:57-81 | one more successful field moves a count from the remaining run into the taken prefix |
| Sensors.RunStop | packet.cpp:87-89 | a failing field ends the run with the counts taken so far |
| Sensors.CalibrationRoundTrip | packet.cpp:60-84 | each calibration is invertible |
| Sensors.CalibrationMonotone | packet.cpp:60-84 | pressure, humidity and temperature rise with the count; acceleration falls |
| Sensors.SharedCalibrations | packet.cpp:75-84 | the three axes share one formula and the two thermometers share another |
| Sensors.StoreNext | packet.cpp:57-84 | storing the next count calibrated extends the calibrated prefix by one |
| Sensors.Calibrated | packet.cpp:60-84 | one calibrated value per count |
| Sensors.ProgressStart | packet.cpp:53-56 | before the first field nothing is taken and every channel is unchanged |
| Sensors.ProgressStep | packet.cpp:57-84 | a successful field is stored calibrated over the next channel |
| Sensors.ProgressFail | packet.cpp:87-89 | a failing field ends `parseSens` with "Invalid" followed by its group's name |
| Sensors.ProgressDone | packet.cpp:92-93 | seven stored fields end `parseSens` without error |
| Gga.ConvrtData | packet.cpp:202-217 | `convrtData`: the last seven characters read as minutes and scaled by `DCONV`, plus the leading characters read as degrees; stated by `ConvrtDataOfField` and `ConvrtDataIsDecimalDegrees` |
| Gga.ConvrtDataOfField | packet.cpp:202-217 | on a `d..dmm.mmmm` field, `convrtData` is the degrees plus the minutes times `DCONV` |
| Gga.MinutesBelowHundred | packet.cpp:205 | two minute digits and a fraction stay below 100 |
| Gga.ScaleError | packet.cpp:209 | scaling by `DCONV` errs from division by 60 by less than 1e-13 below 100 minutes |
| Gga.ConvrtDataIsDecimalDegrees | packet.h:55-57 | `convrtData` of a well-formed field is within 1e-13 of degrees + minutes / 60 |
| Gga.LatitudeExample | packet.cpp:202-217 | 4209.9180 converts to 42.1653 within 1e-12 |
| Gga.LongitudeExample | packet.cpp:202-217 | 08326.7240 converts to 83.4454 within 1e-12 |
| Gga.ExampleWholes | packet.cpp:213 | the example's degree and minute digits read as 42, 9, 83 and 26 |
| Gga.ExampleFractions | packet.cpp:206 | the example's minute fractions read as 0.918 and 0.724 |
| Gga.Hop | packet.cpp:116-119 | one comma hop moves the cursor just past the next comma, and leaves it in place exactly when no comma follows |
| Gga.Hops | packet.cpp:116-119 | the hops never move the cursor back or past the end |
| Gga.CheckDigits | packet.cpp:128-141 | the check passes exactly when every checked position exists and holds a digit; it runs out of range only when the field passes the end |
| Gga.ScanDigits | packet.cpp:166-178 | the loop ends with the outcome `CheckDigits` gives: the first position past the end, the first non-digit, or all digits |
| Gga.ParseGga | packet.cpp:96-200 | `parseGPS` on its text: the tag search, the 42-character check, the two comma hops, then `Coordinates`; stated by `ParseGgaOutcome` and `SentenceParses` |
| Gga.Coordinates | packet.cpp:121-196 | the latitude field at the cursor and its hemisphere, then `Longitude`; stated by `CoordinatesOutcome` |
| Gga.Longitude | packet.cpp:160-196 | the longitude field at cursor + 12 and its hemisphere; stated by `LongitudeOutcome` |
| Gga.CoordinatesOutcome | packet.cpp:121-196 | the fields parse exactly when the 24 characters at the cursor hold a well-formed latitude and longitude field; a parse is a complete `Fix`; a latitude error assigns nothing; a longitude error assigns the latitude only |
| Gga.LongitudeOutcome | packet.cpp:160-196 | the longitude keeps the latitude assigned; a parse has a well-formed field and the signed value, and a longitude error assigns no longitude |
| Gga.ParseGgaOutcome | packet.cpp:96-200 | "Unable to find $GPGGA" exactly when the tag is absent, and "Truncated GPS Data" exactly when fewer than 42 characters follow it; the sentence parses exactly when, past both checks, well-formed fields sit two comma hops past the tag, and a parse is then the complete fix there |
| Gga.SentenceCursor | packet.cpp:116-119 | two comma hops from the tag land just past a comma-free time field |
| Gga.SentenceFields | packet.cpp:121-178 | well-formed field texts at the cursor pass the digit checks at the cursor and at cursor + 12 |
| Gga.SentenceParses | packet.cpp:96-200 | a sentence of the tag, a time field and well-formed fields with their hemisphere letters, 42 characters or more, parses to the converted fields, negated for `S` and `W` |
| Gga.SentenceExample | packet.cpp:96-217 | `$GPGGA,123519,4209.9180,N,08326.7240,W,1,08,0.9` parses to 42.1653 and -83.4454 within 1e-12 |
| Gga.NoEscapeNearTag | packet.cpp:110 | when the cursor is at most 18 characters past the tag, the 42-character check covers every `at` and nothing escapes |
| Gga.MissingCommaKeepsCursor | packet.cpp:116-119 | without a comma after the tag the cursor stays on the `$`, and the result is "Bad Latitude Format" |
| Gga.CursorStays | packet.cpp:118 | without a comma, both hops leave the cursor where it was |
| Gga.TagIsNotLatitude | packet.cpp:135-138 | the tag's `$` read as a latitude is a bad one |
| Gga.ReadsFromCursor | packet.cpp:108-121 | past the tag and length checks, the fields are read at the cursor |
| Gga.LeadingNonDigitIsBadLatitude | packet.cpp:135-157 | a first latitude character that is neither a comma nor a digit gives "Bad Latitude Format" |
| Gga.EscapeExists | packet.cpp:110-122 | some frame passes the 42-character check and still makes `at` read past the end |
| Telemetry.EchoOf | packet.cpp:351-353 | the echo is the text before the first `#`, and all of the text when there is none |
| Telemetry.AfterDelim | packet.cpp:354 | the text after the first `#`; with none, `npos + 1` wraps to 0 and the text is unchanged |
| Telemetry.StoreChannel | packet.h:28-31 | storing channel j replaces exactly the member or array cell that holds it |
| Telemetry.Packet.Channels | packet.h:28-31 | the seven channels are pressure, humidity, three accelerations and two temperatures |
| Telemetry.Packet.constructor | packet.h:23-35 | a fresh packet has `accel[3]` and `temp[2]`, an empty echo and both flags false |
| Telemetry.Packet.Store | packet.cpp:60-84 | stores one calibrated channel and changes nothing else |
| Telemetry.Packet.ParseSens | packet.cpp:50-94 | the channels read are stored calibrated in order and the later ones keep their values; `raw` ends as the text left; a failure names the failing group |
| Telemetry.Packet.ReadChannel | packet.cpp:56-90 | one field is extracted and stored, or its error is returned with the group's name |
| Telemetry.Packet.ParseGPS | packet.cpp:96-200 | `raw` is only read; `lat` and `lng` take exactly the values `ParseGga` assigned before its outcome; every other member is unchanged |
| Telemetry.Packet.ReadCoordinates | packet.cpp:121-196 | the latitude and then the longitude fields are read from the cursor as `Coordinates` says |
| Telemetry.Packet.AssignLatitude | packet.cpp:143-156 | the latitude value is assigned and signed, then the longitude is read |
| Telemetry.Packet.ReadLongitude | packet.cpp:160-196 | the longitude is read as `Longitude` says, with the latitude already assigned |
| Telemetry.Packet.ParseData | packet.cpp:317-383 | an empty buffer clears both flags and decodes nothing; otherwise the echo, the channels, `sens`, `lat`, `lng` and `gps` are what the decoders of the frame's text give, and `gps` keeps its old value only when an exception escapes |
| Telemetry.Packet.Repackage | packet.cpp:345-348 | the text is the first `buff_size` bytes cast to characters, read up to a NUL |
| Telemetry.Packet.ParseFrame | packet.cpp:350-382 | the echo, the sensor run after the first `#` and the GGA sentence after the next `#` in what the run left |
| Telemetry.Packet.TrySens | packet.cpp:359-368 | `sens` is set to whether the run completed; only the channels and `sens` change |
| Telemetry.Packet.TryGps | packet.cpp:370-382 | `gps` is set to whether the sentence parsed, unless an exception escapes; only `lat`, `lng` and `gps` change |
| Telemetry.Packet.Valid | packet.h:28-31 | `accel[3]` and `temp[2]` are two distinct arrays of their declared sizes |
| Telemetry.Packet.WriteData | packet.cpp:385-433 | no data file is an error; no row when both flags are false; otherwise the row of the packet's columns, with `temp[1]` as the seventh where packet.cpp:402 prints `temp[2]` (see Findings); the packet is only read |
| LogRow.Tabbed | packet.cpp:399-408 | every column followed by a tab; stated by `TabbedTabCount`, `SplitTabbed` and `TabbedConcat` |
| LogRow.TabbedConcat | packet.cpp:399-408 | writing two runs of columns one after the other is writing them together |
| LogRow.Row | packet.cpp:391-410 | no row ("No data to write") when both flags are false, otherwise the nine columns and a newline; stated by `RowLayout` |
| LogRow.SplitTabs | packet.cpp:399-410 | splitting at tabs gives at least one piece, and no piece holds a tab |
| LogRow.SplitTabbed | packet.cpp:399-410 | splitting tab-terminated tab-free cells at tabs gives back the cells, then the tail |
| LogRow.SplitFirst | packet.cpp:399 | a tab-free cell and its tab come off as the first piece |
| LogRow.TabbedTabCount | packet.cpp:399-410 | tab-terminated tab-free cells hold exactly one tab per cell |
| LogRow.SensorTexts | packet.cpp:399-402 | the seven sensor columns render pressure, humidity, the three accelerations and the two temperatures in order |
| LogRow.SensorTextsAsWritten | packet.cpp:399-402 | the sensor columns as written, with `temp[2]` taken from the declared layout, where it is `lat` |
| LogRow.TemperatureReadPastEnd | packet.cpp:399-408 | a row written as the code has it repeats the latitude in the seventh column, where the second temperature belongs; the first six columns are the intended ones |
| LogRow.Columns | packet.cpp:398-410 | a row has nine columns |
| LogRow.RowLayout | packet.cpp:391-410 | a row has exactly nine tabs and ends in a newline; it splits back into the sensor texts or seven empty columns, then the position or two empty columns |
| LogRow.ColumnsTabFree | packet.cpp:398-410 | every column of a row built from cells is tab-free |
| LogRow.PositionColumns | packet.cpp:407-408 | the latitude and longitude texts are the eighth and ninth columns of a GPS row |
| BalloonData.RewriteGga | balloon-data.cpp:388-434 | the rewrite of the GGA text: the tag search, two comma hops from the start, the latitude comma test and the erase at cursor + 4, then `RewriteLatitude`; stated by `RewriteOutcome`, `StandardFieldsRewrite` and `SentenceRewrite` |
| BalloonData.RewriteLatitude | balloon-data.cpp:410-417 | the latitude cut from the once-edited text and signed by its hemisphere, then `RewriteLongitude`; stated by `LatitudeOutcome` |
| BalloonData.RewriteLongitude | balloon-data.cpp:419-434 | the longitude comma test, the erase at cursor + 16 and the longitude cut; stated by `LongitudeOutcome` |
| BalloonData.Erase1 | balloon-data.cpp:409 | `erase(pos, 1)` throws exactly when `pos` is past the end, removes the character at `pos`, and is a no-op at the end |
| BalloonData.RewriteOutcome | balloon-data.cpp:388-449 | the missing tag is caught exactly when the tag is absent, and "Bad Latitude Format" exactly when a comma is at the cursor; only the three messages are caught; a rewrite holds a point in each bounded text |
| BalloonData.CursorOutcome | balloon-data.cpp:403-434 | the comma test at the cursor, then only "Bad Longitude Format" is left to catch |
| BalloonData.LatitudeOutcome | balloon-data.cpp:410-434 | after the latitude step, the only caught error is "Bad Longitude Format"; both texts are bounded and hold a point |
| BalloonData.LongitudeOutcome | balloon-data.cpp:419-434 | the longitude step keeps the latitude, and its own text is bounded and holds a point |
| BalloonData.SignedPoint | balloon-data.cpp:410-417 | a signed `a.b` holds a point and is at most two characters longer than its pieces |
| BalloonData.LatitudeRewrite | balloon-data.cpp:409-417 | after erasing cursor + 4, the latitude pieces are the original characters c..c+2, c+2..c+4, c+5..c+9 and the hemisphere at c+10 |
| BalloonData.LatitudePieces | balloon-data.cpp:410-411 | the three latitude substrings of the edited text are those characters of the original |
| BalloonData.LongitudeRewrite | balloon-data.cpp:419-434 | with no comma at the longitude, the longitude text is made of the original characters c+12..c+15, c+15..c+17, c+18..c+22 and the hemisphere at c+23 |
| BalloonData.LongitudePieces | balloon-data.cpp:420-428 | the longitude comma test and substrings of the twice-edited text are those characters of the original |
| BalloonData.FieldsAt | balloon-data.cpp:403-434 | on well-formed fields at the cursor, both steps succeed with the shifted texts |
| BalloonData.StandardFieldsRewrite | balloon-data.cpp:388-434 | on well-formed fields at the cursor, the rewrite removes each decimal point and puts one after the degrees, leaving the minute digits as they were |
| BalloonData.SentenceRewrite | balloon-data.cpp:388-434 | a sentence made of the tag, a comma-free time and well-formed fields is rewritten from those fields alone |
| BalloonData.FieldSlices | balloon-data.cpp:410-427 | the slices the rewrite takes equal the slices of the field texts |
| BalloonData.DecimalShiftExample | balloon-data.cpp:408-434 | the example fix becomes "42.099180" and "-083.267240", while `convrtData` gives more than 42.16 degrees |
| BalloonData.ExampleSentence | balloon-data.cpp:390-400 | the example sentence is made of the tag, the time and the two fields |
| BalloonData.ExampleFields | balloon-data.cpp:403-423 | the example fields are well formed |
| BalloonData.ExampleShift | balloon-data.cpp:414-434 | the example texts signed by their hemispheres |
| BalloonData.CopyText | balloon-data.cpp:439-440 | the text is copied to the front of `data`, and the rest is left as it was |
| BalloonData.ParseData | balloon-data.cpp:376-450 | an exception escapes exactly when the rewrite escapes; on a rewrite, `data` starts with `lat,lng,` and a NUL, `data_size` is that length and the rest is unchanged; on a caught error both are unchanged |
| BalloonData.WriteResult | balloon-data.cpp:437-441 | `data` becomes `lat,lng,` and a NUL followed by its old rest, and the size is the two lengths plus 2 |
| BalloonData.SendCmd | balloon-data.cpp:548-580 | an empty token is the undefined `cmd[-1]` case; a token ending with `$` overruns `mssg` exactly when it is longer than `MAXCMD + 1`; otherwise what goes out ends with `$`, is the literal exactly when the token ends with `$` and "OKAY$" otherwise; an error is reported exactly on a short send |

## Left out

- Console output, the serial port (`RS232_PollComport`, `RS232_SendBuf`),
  files and sleeping. The bytes polled, the command file's text, whether the
  data file opened and the count `RS232_SendBuf` returns are all parameters.
- `loadParam`, `promptParam`, `openPort`, `openDFile` and `openCFile`: console,
  file and port setup.
- rsfile.cpp, rsfile.h, sail.cpp, rigging.h and version.h are not part of this
  model.
- The HTML writers `writeHTML`, `writeHeader` and `writeEnd`. Also the file
  shell of `writePts`: opening the file, `gpsdat.good()` and the output text.
- The balloon-data.cpp `writePts` is not modelled. Its variable-length arrays
  `lat[pkts]` and `lon[pkts]` (balloon-data.cpp:505) are filled from a file
  whose length nothing bounds.
- `verifyPacket`: a stub that always accepts.
- Floating point: values are reals, and `PRECSN` and IEEE rounding are not
  modelled. `atof` covers a sign, digits and an optional fraction only: no
  white space, exponents or hex.
- Whalebone.WritePts: takes the two texts each pass extracts and models the
  counters, the stores and the output loops over them. How a pass extracts its
  texts is modelled apart, by `TokenPoint` (as written) and `LinePoint` (as
  intended).
- Telemetry.Packet.ParseSens: `extractSens` shortens `raw` by reference. The
  model returns the remaining text instead, and `ParseSens` reassigns its
  local copy.
- Telemetry.Packet.ParseData: `buff` is only read, so it is a sequence of
  bytes rather than an array.
  - `data = tmp` reads `tmp[buff_size]`, which the cast never wrote. The model
    fills `tmp` with NULs first, so the text is exactly the first `buff_size`
    bytes, up to a NUL.
- Telemetry.Packet.WriteData: writes `temp[1]` as the seventh column, the
  intended value, where packet.cpp:402 reads `temp[2]` past the array. The
  row as written is modelled apart by `LogRow.TemperatureReadPastEnd` (see
  Findings).
- Session.Poll: `RS232_PollComport` is trusted to return at most the `MAXBUF - 1`
  bytes it is asked for. Its error return, a negative count that would make
  `buff[buff_size]` write before the buffer, is not modelled.
- Whalebone.TokenPointOfLine, Whalebone.SensorRowPoint and
  Whalebone.GpsOnlyRowMisread: stated for lines shorter than 2^31
  characters, where the `int` cursor cannot wrap.
- Telemetry.Packet.constructor: C++ leaves the members uninitialised; the
  model starts them at zero.
- BalloonData.ParseData: `string raw = data` reads up to the first NUL
  anywhere in the 1000-byte array. `data[data_size]` is never written before
  this read (balloon-data.cpp:206-210), so the model reads the C string of the
  whole array as it stands.
- Session.RunSession: does not call `writeData` (main.cpp:94-102). Its
  failures are thrown strings that the loop catches, so it never decides when
  the loop ends; `Telemetry.Packet.WriteData` models it on its own. The
  per-cycle sleep and console output are left out too.
- base.h, whalebone.h and rigging.h share the include guard `__WHALEBONE_H__`
  (base.h:7-8, whalebone.h:7-8, rigging.h:7-8). packet.h:14 includes
  whalebone.h, and main.cpp:14-15 and base.cpp:11-12 include packet.h before
  base.h, so base.h's contents are skipped there; packet.cpp:11-12 never sees
  base.h at all. As written, `SENSDLIM` (packet.cpp:25) is undeclared,
  base.cpp:163-164 read `inst.dfltcmd`, which whalebone.h's `Param`
  (whalebone.h:64) lacks, and main.cpp:105 sees only whalebone.h's
  `void sendCMD(const string&, const int)` (whalebone.h:138). The model reads
  base.h's constants (`SENSDLIM`, base.h:54), `Param::dfltcmd` (base.h:87) and
  `bool sendCMD(Param&)` (base.h:127) as if base.h were included, which is
  why Sensors takes `SENSDLIM` from Base.
- The `size_t` width is taken to be 32 bits. On an LP64 build, the
  `unsigned int endx == npos` test of `extractSens` never holds.
- Division of the minutes by 60: `convrtData` scales them by the literal
  `DCONV` (whalebone.h:51), and so does the model; `Gga.ScaleError` bounds
  the difference.
- A digit check on sensor fields: `extractSens` (packet.cpp:21-48) reads any
  `atof` prefix and checks no digits, and so does the model.
- The helper methods `ReadChannel`, `ReadCoordinates`, `AssignLatitude`,
  `ReadLongitude`, `ParseFrame`, `TrySens`, `TryGps`, `Repackage`, `Stage`,
  `StorePoint`, `CopyText`, `WriteResult`, `Poll` and `ReadFrame` are parts of single C++
  functions. They are cut at the source's own block boundaries.

## Findings

| source | as written | input that shows it | evidently intended | confidence | as-written member | corrected member |
|---|---|---|---|---|---|---|
| packet.cpp:402 | the last sensor column prints `temp[2]`, past the end of `double temp[2]`; with the declared layout that is `lat` | any packet with valid sensor data | print `temp[1]`, the second thermometer | high, not executed | LogRow.TemperatureReadPastEnd | LogRow.SensorTexts |
| base.cpp:144 | `void sendCMD(Param&)` never tests "Stop" or "Silent"; those tokens do not end in `@`, so the default command is sent, and the caller cannot be told to stop | a command file holding `Stop` | return true on "Stop" and send nothing on "Stop" or "Silent", as base.h:127-134 declares and main.cpp:105 expects | high, not executed | Base.SendCmdAsWritten | Base.SendCmd |
| balloon-data.cpp:408-434 | the rewrite moves the decimal point behind the degrees, so the minutes are read as a decimal fraction of a degree | `$GPGGA,123519,4209.9180,N,08326.7240,W,1` gives 42.099180 instead of about 42.1653 | degrees plus minutes / 60, as `convrtData` computes in packet.cpp:202-217 | medium, not executed | BalloonData.DecimalShiftExample | Gga.ConvrtDataIsDecimalDegrees |
| whalebone.cpp:204 | `gpsdat >> tmp` reads one white-space-free word, so the tab search finds no tab. Both indices wrap to -1, and each word of the file becomes a point at (value, value). The same code is at packet.cpp:258 | a data file whose first column is `7` | read a whole line and take its eighth and ninth tab-separated columns | high, not executed | Whalebone.TokenPointOfWord | Whalebone.LinePointOfRow |
| whalebone.cpp:205-207 | latent behind the whalebone.cpp:204 defect: as written, `>>` never hands the hops a whole row. Once line 204 reads whole lines, the first `find('\t', ind + 1)` starts at index 1, so a tab at index 0 is never found. A GPS-only row begins with seven empty columns, so the seven hops end one column late; the longitude is read as the latitude and the newline after it as the longitude | the row `\t\t\t\t\t\t\t1\t2\t` followed by a newline, when read as a whole line, gives (2, 0); with line 204 as written it is read word by word as (1, 1) and (2, 2) | start the first search at index 0, so every row gives its eighth and ninth columns | high, not executed | Whalebone.GpsOnlyRowMisread | Whalebone.LinePointOfRow |
