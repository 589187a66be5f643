/**
  The older ground-station program of balloon-data.cpp: it keeps no `Packet`,
  but rewrites the received text in place into `lat,lng,` by cutting the GGA
  latitude and longitude fields out of it (`parseData`), and its `sendCMD`
  uses `$` as the command delimiter.
 */
module BalloonData {
  import opened Wrappers
  import opened CText
  import Whalebone
  import Gga

  /** Serial buffer size: `data` is a `char[MAXBUF]` (balloon-data.cpp:26, 206). */
  const MAXBUF: nat := 1000

  /** The command delimiter of this program (balloon-data.cpp:38). */
  const CMDDLIM: char := '$'

  /** The default command of this program (balloon-data.cpp:41). */
  const DFLTCMD: string := "OKAY$"

  /** The strings `parseData` throws and catches. */
  const NOTAG: string := "Unable to find $GPGGA."
  const BADLAT: string := "Bad Latitude Format."
  const BADLNG: string := "Bad Longitude Format."

  /**
    `s.erase(pos, 1)`: throws `std::out_of_range` (here `None`) when `pos` is
    past the end; removes the character at `pos` when there is one.
   */
  function Erase1(s: string, pos: nat): (r: Option<string>)
    ensures r.None? <==> pos > |s|
    ensures r.Some? && pos < |s| ==> r.value == s[..pos] + s[pos + 1..] && |r.value| + 1 == |s|
    ensures r.Some? && pos == |s| ==> r.value == s
  {
    if pos > |s| then None
    else if pos == |s| then Some(s)
    else Some(s[..pos] + s[pos + 1..])
  }

  /** `"-" + text` when the hemisphere text is `negative`, `text` otherwise. */
  function Signed(dir: string, negative: string, text: string): string
  {
    if dir == negative then "-" + text else text
  }

  /** How `parseData` ends: the two texts it built, a caught `string`, or an escaping `std::out_of_range`. */
  datatype Rewrite = Rewritten(lat: string, lng: string) | Caught(msg: string) | Escaped

  /**
    The string work of `parseData` (balloon-data.cpp:388-436) on the received
    text `raw`. The tag must occur; the cursor then skips two commas counted
    from the start of `raw`, not from the tag. The latitude is rebuilt after
    erasing the character at cursor + 4, the longitude after erasing the one at
    cursor + 16 of that edited text.
   */
  function RewriteGga(raw: string): Rewrite
  {
    if FindText(raw, Gga.GGATAG, 0).None? then Caught(NOTAG)
    else
      var ind := Gga.Hops(raw, 0, 2);
      if Substr(raw, ind, 1) == Some(",") then Caught(BADLAT)
      else match Erase1(raw, ind + 4)
        case None => Escaped
        case Some(r1) => RewriteLatitude(r1, ind)
  }

  /** The latitude text cut from the once-edited text `r1` (balloon-data.cpp:410-417), then the longitude. */
  function RewriteLatitude(r1: string, ind: nat): Rewrite
  {
    var deg, mins, dir := Substr(r1, ind, 2), Substr(r1, ind + 2, 6), Substr(r1, ind + 9, 1);
    if deg.None? || mins.None? || dir.None? then Escaped
    else RewriteLongitude(r1, ind, Signed(dir.value, "S", deg.value + "." + mins.value))
  }

  /** The longitude comma check, edit and cut on `r1` (balloon-data.cpp:419-434). */
  function RewriteLongitude(r1: string, ind: nat, lat: string): Rewrite
  {
    match Substr(r1, ind + 11, 1)
    case None => Escaped
    case Some(c) =>
      if c == "," then Caught(BADLNG)
      else match Erase1(r1, ind + 16)
        case None => Escaped
        case Some(r2) =>
          var ldeg, lmins, ldir := Substr(r2, ind + 11, 3), Substr(r2, ind + 14, 6), Substr(r2, ind + 21, 1);
          if ldeg.None? || lmins.None? || ldir.None? then Escaped
          else Rewritten(lat, Signed(ldir.value, "W", ldeg.value + "." + lmins.value))
  }

  /**
    The outcomes of `parseData`: a missing tag, a comma at the cursor, and a
    comma at cursor + 11 of the edited text are the three caught errors; a
    successful rewrite yields a latitude of at most 10 characters and a
    longitude of at most 11, each holding one `.`.
   */
  lemma RewriteOutcome(raw: string)
    ensures RewriteGga(raw) == Caught(NOTAG) <==> forall i :: !Occurs(raw, Gga.GGATAG, i)
    ensures RewriteGga(raw) == Caught(BADLAT) <==>
      FindText(raw, Gga.GGATAG, 0).Some? && Gga.Hops(raw, 0, 2) < |raw| && raw[Gga.Hops(raw, 0, 2)] == ','
    ensures RewriteGga(raw).Caught? ==> RewriteGga(raw).msg in {NOTAG, BADLAT, BADLNG}
    ensures RewriteGga(raw).Rewritten? ==>
      var r := RewriteGga(raw);
      |r.lat| <= 10 && |r.lng| <= 11 && '.' in r.lat && '.' in r.lng
  {
    if FindText(raw, Gga.GGATAG, 0).Some? {
      CursorOutcome(raw, Gga.Hops(raw, 0, 2));
    }
  }

  /** From the cursor on: the latitude comma check, then the outcomes `LatitudeOutcome` allows. */
  lemma CursorOutcome(raw: string, ind: nat)
    requires ind <= |raw|
    ensures Substr(raw, ind, 1) == Some(",") <==> ind < |raw| && raw[ind] == ','
    ensures Substr(raw, ind, 1) != Some(",") && Erase1(raw, ind + 4).Some? ==>
      var r := RewriteLatitude(Erase1(raw, ind + 4).value, ind);
      (r.Caught? ==> r.msg == BADLNG)
      && (r.Rewritten? ==> |r.lat| <= 10 && '.' in r.lat && |r.lng| <= 11 && '.' in r.lng)
  {
    if ind < |raw| {
      assert raw[ind..ind + 1] == [raw[ind]];
    }
    if Substr(raw, ind, 1) != Some(",") && Erase1(raw, ind + 4).Some? {
      LatitudeOutcome(Erase1(raw, ind + 4).value, ind);
    }
  }

  /** After the latitude step, the only caught error left is `BADLNG`, and both texts are bounded and hold a point. */
  lemma LatitudeOutcome(r1: string, ind: nat)
    ensures var r := RewriteLatitude(r1, ind);
      (r.Caught? ==> r.msg == BADLNG)
      && (r.Rewritten? ==> |r.lat| <= 10 && '.' in r.lat && |r.lng| <= 11 && '.' in r.lng)
  {
    var deg, mins, dir := Substr(r1, ind, 2), Substr(r1, ind + 2, 6), Substr(r1, ind + 9, 1);
    if deg.Some? && mins.Some? && dir.Some? {
      SignedPoint(dir.value, "S", deg.value, mins.value);
      LongitudeOutcome(r1, ind, Signed(dir.value, "S", deg.value + "." + mins.value));
    }
  }

  /** The longitude step keeps `lat`; its own text is bounded and holds a point. */
  lemma LongitudeOutcome(r1: string, ind: nat, lat: string)
    ensures var r := RewriteLongitude(r1, ind, lat);
      (r.Caught? ==> r.msg == BADLNG)
      && (r.Rewritten? ==> r.lat == lat && |r.lng| <= 11 && '.' in r.lng)
  {
    if Substr(r1, ind + 11, 1).Some? && Erase1(r1, ind + 16).Some? {
      var r2 := Erase1(r1, ind + 16).value;
      var ldeg, lmins, ldir := Substr(r2, ind + 11, 3), Substr(r2, ind + 14, 6), Substr(r2, ind + 21, 1);
      if ldeg.Some? && lmins.Some? && ldir.Some? {
        SignedPoint(ldir.value, "W", ldeg.value, lmins.value);
      }
    }
  }

  /** A signed `a.b` holds a point and is at most two characters longer than `a` and `b`. */
  lemma SignedPoint(dir: string, negative: string, a: string, b: string)
    ensures var t := Signed(dir, negative, a + "." + b);
      '.' in t && |t| <= |a| + |b| + 2
  {
    var text := a + "." + b;
    assert text[|a|] == '.';
    if dir == negative {
      assert Signed(dir, negative, text)[1 + |a|] == '.';
    }
  }

  /** The text after the latitude edit: the character at `c + 4` removed. */
  function LatEdited(raw: string, c: nat): string
    requires c + 5 <= |raw|
  {
    raw[..c + 4] + raw[c + 5..]
  }

  /** The latitude step cuts its pieces out of `LatEdited(raw, c)` at the positions of `raw` they came from. */
  lemma {:induction false} LatitudeRewrite(raw: string, c: nat)
    requires c + 24 <= |raw|
    ensures Erase1(raw, c + 4) == Some(LatEdited(raw, c))
    ensures RewriteLatitude(LatEdited(raw, c), c)
         == RewriteLongitude(LatEdited(raw, c), c, Signed([raw[c + 10]], "S", raw[c..c + 2] + "." + raw[c + 2..c + 4] + raw[c + 5..c + 9]))
  {
    var r1 := LatEdited(raw, c);
    LatitudePieces(raw, c);
    var text := raw[c..c + 2] + "." + raw[c + 2..c + 4] + raw[c + 5..c + 9];
    assert RewriteLatitude(r1, c) == RewriteLongitude(r1, c, Signed([raw[c + 10]], "S", text));
  }

  /** The three latitude pieces, cut from the edited text, as positions of `raw`. */
  lemma LatitudePieces(raw: string, c: nat)
    requires c + 24 <= |raw|
    ensures Substr(LatEdited(raw, c), c, 2) == Some(raw[c..c + 2])
    ensures Substr(LatEdited(raw, c), c + 2, 6) == Some(raw[c + 2..c + 4] + raw[c + 5..c + 9])
    ensures Substr(LatEdited(raw, c), c + 9, 1) == Some([raw[c + 10]])
  {
    var r1 := LatEdited(raw, c);
    assert forall i :: 0 <= i < c + 4 ==> r1[i] == raw[i];
    assert forall i :: c + 4 <= i < |r1| ==> r1[i] == raw[i + 1];
    assert r1[c..c + 2] == raw[c..c + 2];
    assert r1[c + 2..c + 8] == raw[c + 2..c + 4] + raw[c + 5..c + 9];
    assert r1[c + 9..c + 10] == [raw[c + 10]];
  }

  /** The text after both edits: the character at `c + 16` of `LatEdited(raw, c)` removed as well. */
  function LngEdited(raw: string, c: nat): string
    requires c + 18 <= |raw|
  {
    var r1 := LatEdited(raw, c);
    r1[..c + 16] + r1[c + 17..]
  }

  /** The longitude step on `LatEdited(raw, c)`, when `raw[c + 12]` is not a comma, keeps `lat` and cuts its own pieces. */
  lemma {:induction false} LongitudeRewrite(raw: string, c: nat, lat: string)
    requires c + 24 <= |raw| && raw[c + 12] != ','
    ensures RewriteLongitude(LatEdited(raw, c), c, lat)
         == Rewritten(lat, Signed([raw[c + 23]], "W", raw[c + 12..c + 15] + "." + raw[c + 15..c + 17] + raw[c + 18..c + 22]))
  {
    LongitudePieces(raw, c);
  }

  /** The longitude comma test and the three longitude pieces, cut from the twice-edited text, as positions of `raw`. */
  lemma LongitudePieces(raw: string, c: nat)
    requires c + 24 <= |raw|
    ensures Substr(LatEdited(raw, c), c + 11, 1) == Some([raw[c + 12]])
    ensures Erase1(LatEdited(raw, c), c + 16) == Some(LngEdited(raw, c))
    ensures Substr(LngEdited(raw, c), c + 11, 3) == Some(raw[c + 12..c + 15])
    ensures Substr(LngEdited(raw, c), c + 14, 6) == Some(raw[c + 15..c + 17] + raw[c + 18..c + 22])
    ensures Substr(LngEdited(raw, c), c + 21, 1) == Some([raw[c + 23]])
  {
    var r1 := LatEdited(raw, c);
    assert r1[c + 11..c + 12] == [raw[c + 12]];
    var r2 := LngEdited(raw, c);
    assert forall i :: c + 11 <= i < c + 16 ==> r2[i] == raw[i + 1];
    assert forall i :: c + 16 <= i < c + 22 ==> r2[i] == raw[i + 2];
    assert r2[c + 11..c + 14] == raw[c + 12..c + 15];
    assert r2[c + 14..c + 20] == raw[c + 15..c + 17] + raw[c + 18..c + 22];
    assert r2[c + 21..c + 22] == [raw[c + 23]];
  }

  /** Both stages on well-formed fields at `c`, stated apart from how `c` was found. */
  lemma {:induction false} FieldsAt(raw: string, c: nat)
    requires c + 24 <= |raw| && Gga.LatitudeField(raw, c) && Gga.LongitudeField(raw, c + 12)
    ensures Substr(raw, c, 1) != Some(",")
    ensures Erase1(raw, c + 4) == Some(LatEdited(raw, c))
    ensures RewriteLatitude(LatEdited(raw, c), c) == Rewritten(
        Signed([raw[c + 10]], "S", raw[c..c + 2] + "." + raw[c + 2..c + 4] + raw[c + 5..c + 9]),
        Signed([raw[c + 23]], "W", raw[c + 12..c + 15] + "." + raw[c + 15..c + 17] + raw[c + 18..c + 22]))
  {
    assert Gga.DigitAt(raw, c, 0) && Gga.DigitAt(raw, c + 12, 0);
    assert raw[c..c + 1] == [raw[c]];
    LatitudeRewrite(raw, c);
    LongitudeRewrite(raw, c, Signed([raw[c + 10]], "S", raw[c..c + 2] + "." + raw[c + 2..c + 4] + raw[c + 5..c + 9]));
  }

  /**
    On well-formed GGA fields at the cursor (`ddmm.mmmm,H,dddmm.mmmm,H`) the
    rewrite removes the decimal point of each field and puts a new one after
    the degrees: the minutes are moved behind the point as they are, not
    divided by 60.
   */
  lemma StandardFieldsRewrite(raw: string, c: nat)
    requires FindText(raw, Gga.GGATAG, 0).Some? && c == Gga.Hops(raw, 0, 2)
    requires c + 24 <= |raw| && Gga.LatitudeField(raw, c) && Gga.LongitudeField(raw, c + 12)
    ensures RewriteGga(raw) == Rewritten(
        Signed([raw[c + 10]], "S", raw[c..c + 2] + "." + raw[c + 2..c + 4] + raw[c + 5..c + 9]),
        Signed([raw[c + 23]], "W", raw[c + 12..c + 15] + "." + raw[c + 15..c + 17] + raw[c + 18..c + 22]))
  {
    FieldsAt(raw, c);
  }

  /**
    A sentence that starts with the tag and carries a comma-free time field
    and well-formed fields after it is rewritten from those fields alone.
   */
  lemma {:induction false} SentenceRewrite(time: string, lat: string, ns: char, lng: string, ew: char, tail: string)
    requires ',' !in time
    requires |lat| == 9 && Gga.LatitudeField(lat, 0) && |lng| == 10 && Gga.LongitudeField(lng, 0)
    ensures RewriteGga(Gga.GGATAG + "," + time + "," + lat + "," + [ns] + "," + lng + "," + [ew] + tail)
         == Rewritten(Signed([ns], "S", lat[..2] + "." + lat[2..4] + lat[5..]),
                      Signed([ew], "W", lng[..3] + "." + lng[3..5] + lng[6..]))
  {
    var head := Gga.GGATAG + "," + time + ",";
    var fields := lat + "," + [ns] + "," + lng + "," + [ew] + tail;
    var raw := Gga.GGATAG + "," + time + "," + lat + "," + [ns] + "," + lng + "," + [ew] + tail;
    assert raw == head + fields;
    var c := |head|;
    Gga.SentenceCursor(raw, time);
    Gga.SentenceFields(raw, c, lat, ns, lng, ew, tail);
    StandardFieldsRewrite(raw, c);
    FieldSlices(raw, c, lat, lng);
  }

  /** The pieces of the rewrite, read from the fields instead of the sentence. */
  lemma FieldSlices(raw: string, c: nat, lat: string, lng: string)
    requires c + 22 <= |raw| && raw[c..c + 9] == lat && raw[c + 12..c + 22] == lng
    ensures raw[c..c + 2] == lat[..2] && raw[c + 2..c + 4] == lat[2..4] && raw[c + 5..c + 9] == lat[5..]
    ensures raw[c + 12..c + 15] == lng[..3] && raw[c + 15..c + 17] == lng[3..5] && raw[c + 18..c + 22] == lng[6..]
  {
    assert forall i :: 0 <= i < 9 ==> raw[c + i] == lat[i];
    assert forall i :: 0 <= i < 10 ==> raw[c + 12 + i] == lng[i];
    assert raw[c + 2..c + 4] == [lat[2], lat[3]] == lat[2..4];
    assert raw[c + 15..c + 17] == [lng[3], lng[4]] == lng[3..5];
  }

  /**
    The example fix `4209.9180,N,08326.7240,W` becomes `42.099180` and
    `-083.267240`: read back these are 42.09918 and -83.26724 degrees, where
    `convrtData` gives about 42.1653 and -83.4454.
   */
  lemma DecimalShiftExample()
    ensures RewriteGga("$GPGGA,123519,4209.9180,N,08326.7240,W,1")
         == Rewritten("42.099180", "-083.267240")
    ensures Gga.ConvrtData("4209.9180") > 42.16
  {
    var lat, lng := "4209.9180", "08326.7240";
    ExampleFields(lat, lng);
    SentenceRewrite("123519", lat, 'N', lng, 'W', ",1");
    ExampleSentence(lat, lng);
    ExampleShift(lat, lng);
    Gga.LatitudeExample();
  }

  /** The example sentence is the tag, the time and the two fields with their hemispheres. */
  lemma ExampleSentence(lat: string, lng: string)
    requires lat == "4209.9180" && lng == "08326.7240"
    ensures "$GPGGA,123519,4209.9180,N,08326.7240,W,1"
         == Gga.GGATAG + "," + "123519" + "," + lat + "," + ['N'] + "," + lng + "," + ['W'] + ",1"
  {
    var s := Gga.GGATAG + "," + "123519" + ",";
    assert s == "$GPGGA,123519,";
    s := s + lat;
    assert s == "$GPGGA,123519,4209.9180";
    s := s + "," + ['N'] + ",";
    assert s == "$GPGGA,123519,4209.9180,N,";
    s := s + lng;
    assert s == "$GPGGA,123519,4209.9180,N,08326.7240";
    s := s + "," + ['W'] + ",1";
    assert s == "$GPGGA,123519,4209.9180,N,08326.7240,W,1";
  }

  /** The example fields are well formed. */
  lemma ExampleFields(lat: string, lng: string)
    requires lat == "4209.9180" && lng == "08326.7240"
    ensures ',' !in "123519"
    ensures |lat| == 9 && Gga.LatitudeField(lat, 0) && |lng| == 10 && Gga.LongitudeField(lng, 0)
  {
  }

  /** The example's shifted texts, signed by their hemispheres. */
  lemma ExampleShift(lat: string, lng: string)
    requires lat == "4209.9180" && lng == "08326.7240"
    ensures Signed(['N'], "S", lat[..2] + "." + lat[2..4] + lat[5..]) == "42.099180"
    ensures Signed(['W'], "W", lng[..3] + "." + lng[3..5] + lng[6..]) == "-083.267240"
  {
    assert ['N'] != "S";
    assert lat[..2] + "." + lat[2..4] + lat[5..] == "42.099180";
    assert lng[..3] + "." + lng[3..5] + lng[6..] == "083.267240";
  }

  /**
    The copy loop of `parseData` (balloon-data.cpp:439-440): `text` goes to the
    front of `data`, the rest is left as it was.
   */
  method CopyText(data: array<char>, text: string)
    requires |text| <= data.Length
    modifies data
    ensures data[..] == text + old(data[|text|..])
  {
    for i := 0 to |text|
      invariant forall k :: 0 <= k < i ==> data[k] == text[k]
      invariant forall k :: i <= k < data.Length ==> data[k] == old(data[k])
    {
      data[i] := text[i];
    }
    assert data[..] == text + old(data[|text|..]);
  }

  /**
    `parseData(data, data_size)`: the text is `data` up to its first NUL. On a
    rewrite, `data` starts with `lat + "," + lng + ","` and a NUL, the size is
    that text's length, and the rest of `data` is untouched; on a caught error
    or an escaping exception, `data` and the size are unchanged.
   */
  method ParseData(data: array<char>, dataSize: nat) returns (newSize: nat, exit: Exit)
    requires data.Length == MAXBUF
    modifies data
    ensures var r := RewriteGga(CString(old(data[..])));
      (exit == Unwound <==> r.Escaped?)
      && (r.Rewritten? ==>
            newSize == |r.lat| + |r.lng| + 2
            && data[..] == r.lat + "," + r.lng + "," + ['\0'] + old(data[newSize + 1..]))
      && (!r.Rewritten? ==> newSize == dataSize && data[..] == old(data[..]))
  {
    var raw := CString(data[..]);
    var r := RewriteGga(raw);
    RewriteOutcome(raw);
    match r {
      case Escaped =>
        return dataSize, Unwound;
      case Caught(_) =>
        return dataSize, Returned;
      case Rewritten(lat, lng) =>
        newSize := WriteResult(data, lat, lng);
        exit := Returned;
    }
  }

  /** The rewrite of `data` (balloon-data.cpp:437-441): `lat,lng,`, a NUL, and the old rest. */
  method WriteResult(data: array<char>, lat: string, lng: string) returns (newSize: nat)
    requires |lat| + |lng| + 2 < data.Length
    modifies data
    ensures newSize == |lat| + |lng| + 2
    ensures data[..] == lat + "," + lng + "," + ['\0'] + old(data[newSize + 1..])
  {
    var result := lat + "," + lng + ",";
    newSize := |lat| + |lng| + 2;
    ghost var before := data[..];
    CopyText(data, result);
    data[newSize] := '\0';
    assert data[..] == result + ['\0'] + before[newSize + 1..];
  }

  /**
    `sendCMD(cfilenm, comnum)` of balloon-data.cpp: the token of the command
    file is sent verbatim when it ends with `$`, and `OKAY$` otherwise; every
    message that goes out ends with `$`.
   */
  method SendCmd(cmdFile: string, sendResult: int) returns (t: Whalebone.Transmission)
    ensures t == Whalebone.EmptyToken <==> FirstToken(cmdFile) == ""
    ensures t.Overrun? <==> |FirstToken(cmdFile)| > Whalebone.MAXCMD + 1 && FirstToken(cmdFile)[|FirstToken(cmdFile)| - 1] == CMDDLIM
    ensures t.Sent? ==> |t.mssg| > 0 && t.mssg[|t.mssg| - 1] == ByteOf(CMDDLIM)
    ensures t.Sent? ==> (t.sendError <==> sendResult != |t.mssg|)
    ensures t.Sent? ==> t.mssg == Whalebone.Bytes(if t.literal then FirstToken(cmdFile) else DFLTCMD)
    ensures t.Sent? ==> (t.literal <==> FirstToken(cmdFile)[|FirstToken(cmdFile)| - 1] == CMDDLIM)
  {
    t := Whalebone.Transmit(FirstToken(cmdFile), CMDDLIM, DFLTCMD, sendResult);
  }
}
