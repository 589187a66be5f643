/**
  The GGA sentence ("Global Positioning System Fix Data") of NMEA 0183 as
  packet.cpp reads it: `convrtData` and the checks and conversions of
  `parseGPS`, stated as a function of the text handed to it.

  `parseGPS` throws a `string` on the errors it detects, but `std::string::at`
  throws `std::out_of_range`, which the `catch (string)` around it does not
  catch; that outcome is `Escaped`.
 */
module Gga {
  import opened Wrappers
  import opened CText
  import opened Whalebone

  const GGATAG: string := "$GPGGA"
  /** The number of characters `parseGPS` demands from the tag to the end. */
  const MINGGA: nat := 42

  const NOTAG: string := "Unable to find $GPGGA.\n"
  const TRUNCATED: string := "Truncated GPS Data.\n"
  const NOLAT: string := "No Latitude Data.\n"
  const BADLAT: string := "Bad Latitude Format.\n"
  const NOLNG: string := "No Longitude Data.\n"
  const BADLNG: string := "Bad Longitude Format.\n"

  /**
    `convrtData`: the last seven characters (`mm.mmmm`) read as minutes and
    scaled by `DCONV`, plus the leading characters read as degrees.
   */
  function ConvrtData(raw: string): real
    requires |raw| >= 7
  {
    var fixd := Atof(raw[|raw| - 7..]) * DCONV;
    fixd + Atof(raw[..|raw| - 7])
  }

  /** On a `d..dmm.mmmm` field, `convrtData` is degrees plus minutes times `DCONV`. */
  lemma ConvrtDataOfField(deg: string, mm: string, frac: string)
    requires |mm| == 2 && |frac| == 4
    requires AllDigits(deg) && AllDigits(mm) && AllDigits(frac)
    ensures ConvrtData(deg + mm + "." + frac) == Whole(deg) as real + (Whole(mm) as real + Fraction(frac)) * DCONV
  {
    var raw := deg + mm + "." + frac;
    var minutes := mm + "." + frac;
    assert raw[|raw| - 7..] == minutes;
    assert raw[..|raw| - 7] == deg;
    assert minutes[..2] == mm && minutes[3..] == frac;
    AtofOfDecimal(minutes, 2);
    AtofOfDigits(deg);
  }

  /** Two digits of minutes and a fraction stay below 100. */
  lemma MinutesBelowHundred(mm: string, frac: string)
    requires |mm| == 2 && AllDigits(mm) && AllDigits(frac)
    ensures 0.0 <= Whole(mm) as real + Fraction(frac) < 100.0
  {
    assert mm[..1][..0] == "";
    assert Whole(mm[..1]) <= 9;
  }

  /** Scaling by `DCONV` instead of dividing by 60 errs by less than 1e-13 below 100 minutes. */
  lemma ScaleError(minutes: real)
    requires 0.0 <= minutes < 100.0
    ensures minutes / 60.0 - 0.0000000000001 < minutes * DCONV < minutes / 60.0 + 0.0000000000001
  {
  }

  /**
    `convrtData` yields decimal degrees: on a `d..dmm.mmmm` field it is within
    1e-13 of degrees plus minutes / 60.
   */
  lemma ConvrtDataIsDecimalDegrees(deg: string, mm: string, frac: string)
    requires |mm| == 2 && |frac| == 4
    requires AllDigits(deg) && AllDigits(mm) && AllDigits(frac)
    ensures var exact := Whole(deg) as real + (Whole(mm) as real + Fraction(frac)) / 60.0;
      exact - 0.0000000000001 < ConvrtData(deg + mm + "." + frac) < exact + 0.0000000000001
  {
    ConvrtDataOfField(deg, mm, frac);
    MinutesBelowHundred(mm, frac);
    ScaleError(Whole(mm) as real + Fraction(frac));
  }

  /** The latitude of the example fix: 4209.9180 is about 42.1653 degrees. */
  lemma LatitudeExample()
    ensures 42.1653 - 0.000000000001 < ConvrtData("4209.9180") < 42.1653 + 0.000000000001
  {
    var deg, mm, frac := "42", "09", "9180";
    assert "4209.9180" == deg + mm + "." + frac;
    ExampleWholes();
    ExampleFractions();
    ConvrtDataOfField(deg, mm, frac);
  }

  /** The longitude of the example fix: 08326.7240 is about 83.4454 degrees. */
  lemma LongitudeExample()
    ensures 83.4454 - 0.000000000001 < ConvrtData("08326.7240") < 83.4454 + 0.000000000001
  {
    var deg, mm, frac := "083", "26", "7240";
    assert "08326.7240" == deg + mm + "." + frac;
    ExampleWholes();
    ExampleFractions();
    ConvrtDataOfField(deg, mm, frac);
  }

  /** The degree and minute digits of the example fix. */
  lemma ExampleWholes()
    ensures AllDigits("42") && Whole("42") == 42 && AllDigits("09") && Whole("09") == 9
    ensures AllDigits("083") && Whole("083") == 83 && AllDigits("26") && Whole("26") == 26
  {
    assert "42"[..1] == "4" && "09"[..1] == "0" && "4"[..0] == "" && "0"[..0] == "";
    assert "083"[..2] == "08" && "08"[..1] == "0" && "26"[..1] == "2" && "2"[..0] == "";
  }

  /** The minute fractions of the example fix. */
  lemma ExampleFractions()
    ensures AllDigits("9180") && Fraction("9180") == 0.918
    ensures AllDigits("7240") && Fraction("7240") == 0.724
  {
    assert "9180"[1..] == "180" && "180"[1..] == "80" && "80"[1..] == "0" && "0"[1..] == "";
    assert Fraction("9180") == 0.918;
    assert "7240"[1..] == "240" && "240"[1..] == "40" && "40"[1..] == "0" && "0"[1..] == "";
  }

  /**
    One pass of the comma loop: `tmp = raw.substr(indx)` and
    `indx = indx + tmp.find(",") + 1`. When there is no comma, `npos + 1` wraps
    to 0 and the cursor stays where it was.
   */
  function Hop(raw: string, indx: nat): (r: nat)
    requires indx <= |raw|
    ensures indx <= r <= |raw|
    ensures r == indx <==> forall i :: indx <= i < |raw| ==> raw[i] != ','
    ensures r != indx ==> raw[r - 1] == ',' && forall i :: indx <= i < r - 1 ==> raw[i] != ','
  {
    var tmp := raw[indx..];
    match FindChar(tmp, ',', 0)
    case None => indx
    case Some(k) => indx + k + 1
  }

  /** The cursor after `n` passes of the comma loop started at `p`. */
  function Hops(raw: string, p: nat, n: nat): (r: nat)
    requires p <= |raw|
    ensures p <= r <= |raw|
  {
    if n == 0 then p else Hop(raw, Hops(raw, p, n - 1))
  }

  /** How a fixed-offset digit check ends. */
  datatype Scan = Digits | NotDigit | OutOfRange

  /** Position `base + j` exists and holds `0`..`9`. */
  predicate DigitAt(raw: string, base: nat, j: nat)
  {
    base + j < |raw| && IsDigit(raw[base + j])
  }

  /**
    The digit check of `parseGPS` from position `i` on: positions `base + j` for
    `i <= j < width`, except `j == skip` (the decimal point), are read with
    `at`, in order, until one is not `0`..`9` or lies past the end.
   */
  function CheckDigits(raw: string, base: nat, width: nat, skip: nat, i: nat): (r: Scan)
    decreases width - i
    ensures r == Digits <==> forall j :: i <= j < width && j != skip ==> DigitAt(raw, base, j)
    ensures r == Digits && i < width && skip != width - 1 ==> base + width <= |raw|
    ensures r == OutOfRange ==> |raw| < base + width
  {
    if i >= width then Digits
    else if i == skip then CheckDigits(raw, base, width, skip, i + 1)
    else if base + i >= |raw| then assert !DigitAt(raw, base, i); OutOfRange
    else if !IsDigit(raw[base + i]) then assert !DigitAt(raw, base, i); NotDigit
    else CheckDigits(raw, base, width, skip, i + 1)
  }

  /**
    The digit loops of `parseGPS` (packet.cpp:128-141 and 166-178): walks the
    field left to right, skipping the decimal point, and stops at the first
    position past the end (where `at` throws) or the first non-digit.
   */
  method ScanDigits(raw: string, base: nat, width: nat, skip: nat) returns (r: Scan)
    ensures r == CheckDigits(raw, base, width, skip, 0)
  {
    var i := 0;
    while i < width
      invariant i <= width
      invariant CheckDigits(raw, base, width, skip, 0) == CheckDigits(raw, base, width, skip, i)
    {
      if i != skip {
        if base + i >= |raw| {
          return OutOfRange;
        }
        var num := raw[base + i];
        if num > '9' || num < '0' {
          return NotDigit;
        }
      }
      i := i + 1;
    }
    return Digits;
  }

  /** The 9-character latitude field `ddmm.mmmm` at `c`: digits but for index 4. */
  predicate LatitudeField(raw: string, c: nat)
  {
    c + 9 <= |raw| && forall j :: 0 <= j < 9 && j != 4 ==> DigitAt(raw, c, j)
  }

  /** The 10-character longitude field `dddmm.mmmm` at `c`: digits but for index 5. */
  predicate LongitudeField(raw: string, c: nat)
  {
    c + 10 <= |raw| && forall j :: 0 <= j < 10 && j != 5 ==> DigitAt(raw, c, j)
  }

  /** `parseGPS` outcome: success, a thrown `string`, or an escaping `std::out_of_range`. */
  datatype GpsStatus = Parsed | Thrown(msg: string) | Escaped

  /** The outcome and the values `parseGPS` assigned to `lat` and `lng` before it ended. */
  datatype GgaFix = GgaFix(status: GpsStatus, lat: Option<real>, lng: Option<real>)

  /** A coordinate is negated exactly when its hemisphere letter is the negative one. */
  function Hemisphere(dir: char, negative: char, magnitude: real): real
  {
    if dir == negative then -magnitude else magnitude
  }

  /**
    A complete fix read from cursor `c`: both fields well formed, both
    hemisphere letters present, and the coordinates their converted values,
    negated for `S` and `W`.
   */
  predicate Fix(raw: string, c: nat, f: GgaFix)
  {
    c + 24 <= |raw| && LatitudeField(raw, c) && LongitudeField(raw, c + 12)
    && f.lat == Some(Hemisphere(raw[c + 10], 'S', ConvrtData(raw[c..c + 9])))
    && f.lng == Some(Hemisphere(raw[c + 23], 'W', ConvrtData(raw[c + 12..c + 22])))
  }

  /**
    `parseGPS(raw)`. The tag must occur and at least 42 characters must follow
    it (tag included); the cursor then skips two commas from the tag. The
    latitude is the 9 characters at the cursor (digits but for index 4), its
    hemisphere at cursor + 10; the longitude is the 10 characters at cursor + 12
    (digits but for index 5), its hemisphere at cursor + 23. `lat` is assigned
    before its hemisphere letter is read, and `lng` before its own.
   */
  function ParseGga(raw: string): GgaFix
  {
    match FindText(raw, GGATAG, 0)
    case None => GgaFix(Thrown(NOTAG), None, None)
    case Some(p) =>
      if |raw| - p < MINGGA then GgaFix(Thrown(TRUNCATED), None, None)
      else Coordinates(raw, Hops(raw, p, 2))
  }

  /** The latitude field read from cursor `c` on, then the longitude. */
  function Coordinates(raw: string, c: nat): GgaFix
    requires c <= |raw|
  {
    if c >= |raw| then GgaFix(Escaped, None, None)
    else if raw[c] == ',' then GgaFix(Thrown(NOLAT), None, None)
    else match CheckDigits(raw, c, 9, 4, 0)
      case OutOfRange => GgaFix(Escaped, None, None)
      case NotDigit => GgaFix(Thrown(BADLAT), None, None)
      case Digits =>
        var mag := ConvrtData(raw[c..c + 9]);
        if c + 10 >= |raw| then GgaFix(Escaped, Some(mag), None)
        else Longitude(raw, c, Hemisphere(raw[c + 10], 'S', mag))
  }

  /** The longitude field at cursor `c` + 12, once the latitude `lat` is assigned. */
  function Longitude(raw: string, c: nat, lat: real): GgaFix
  {
    if c + 12 >= |raw| then GgaFix(Escaped, Some(lat), None)
    else if raw[c + 12] == ',' then GgaFix(Thrown(NOLNG), Some(lat), None)
    else match CheckDigits(raw, c + 12, 10, 5, 0)
      case OutOfRange => GgaFix(Escaped, Some(lat), None)
      case NotDigit => GgaFix(Thrown(BADLNG), Some(lat), None)
      case Digits =>
        var lmag := ConvrtData(raw[c + 12..c + 22]);
        if c + 23 >= |raw| then GgaFix(Escaped, Some(lat), Some(lmag))
        else GgaFix(Parsed, Some(lat), Some(Hemisphere(raw[c + 23], 'W', lmag)))
  }

  /** Proof step: the latitude half of `Coordinates` unfolded, one case per way it can end. */
  lemma LatitudeCases(raw: string, c: nat)
    requires c <= |raw|
    ensures c == |raw| ==> Coordinates(raw, c) == GgaFix(Escaped, None, None)
    ensures c < |raw| && raw[c] == ',' ==> Coordinates(raw, c) == GgaFix(Thrown(NOLAT), None, None)
    ensures c < |raw| && raw[c] != ',' && CheckDigits(raw, c, 9, 4, 0) == OutOfRange ==>
      Coordinates(raw, c) == GgaFix(Escaped, None, None)
    ensures c < |raw| && raw[c] != ',' && CheckDigits(raw, c, 9, 4, 0) == NotDigit ==>
      Coordinates(raw, c) == GgaFix(Thrown(BADLAT), None, None)
  {
  }

  /** Proof step: `Coordinates` unfolded once the latitude digits are checked. */
  lemma LatitudeValueCases(raw: string, c: nat)
    requires c < |raw| && raw[c] != ',' && CheckDigits(raw, c, 9, 4, 0) == Digits
    ensures c + 9 <= |raw|
    ensures c + 10 >= |raw| ==> Coordinates(raw, c) == GgaFix(Escaped, Some(ConvrtData(raw[c..c + 9])), None)
    ensures c + 10 < |raw| ==>
      Coordinates(raw, c) == Longitude(raw, c, Hemisphere(raw[c + 10], 'S', ConvrtData(raw[c..c + 9])))
  {
  }

  /** Proof step: `Longitude` unfolded, one case per way it can end. */
  lemma LongitudeCases(raw: string, c: nat, lat: real)
    ensures c + 12 >= |raw| ==> Longitude(raw, c, lat) == GgaFix(Escaped, Some(lat), None)
    ensures c + 12 < |raw| && raw[c + 12] == ',' ==> Longitude(raw, c, lat) == GgaFix(Thrown(NOLNG), Some(lat), None)
    ensures c + 12 < |raw| && raw[c + 12] != ',' && CheckDigits(raw, c + 12, 10, 5, 0) == OutOfRange ==>
      Longitude(raw, c, lat) == GgaFix(Escaped, Some(lat), None)
    ensures c + 12 < |raw| && raw[c + 12] != ',' && CheckDigits(raw, c + 12, 10, 5, 0) == NotDigit ==>
      Longitude(raw, c, lat) == GgaFix(Thrown(BADLNG), Some(lat), None)
    ensures c + 12 < |raw| && raw[c + 12] != ',' && CheckDigits(raw, c + 12, 10, 5, 0) == Digits ==>
      c + 22 <= |raw|
      && (c + 23 >= |raw| ==> Longitude(raw, c, lat) == GgaFix(Escaped, Some(lat), Some(ConvrtData(raw[c + 12..c + 22]))))
      && (c + 23 < |raw| ==>
            Longitude(raw, c, lat)
            == GgaFix(Parsed, Some(lat), Some(Hemisphere(raw[c + 23], 'W', ConvrtData(raw[c + 12..c + 22])))))
  {
  }

  /**
    What the fields at cursor `c` yield: never a tag or length error; a parse
    exactly when both fields and both hemisphere letters are there, and then a
    complete `Fix`; a latitude error assigns nothing and a longitude error
    assigns the latitude only.
   */
  lemma CoordinatesOutcome(raw: string, c: nat)
    requires c <= |raw|
    ensures var f := Coordinates(raw, c);
      f.status != Thrown(NOTAG) && f.status != Thrown(TRUNCATED)
      && (f.status == Parsed <==> c + 24 <= |raw| && LatitudeField(raw, c) && LongitudeField(raw, c + 12))
      && (f.status == Parsed ==> Fix(raw, c, f))
      && (f.status == Thrown(NOLAT) || f.status == Thrown(BADLAT) ==> f.lat.None? && f.lng.None?)
      && (f.status == Thrown(NOLNG) || f.status == Thrown(BADLNG) ==> f.lat.Some? && f.lng.None?)
  {
    LatitudeCases(raw, c);
    if c < |raw| && raw[c] != ',' && CheckDigits(raw, c, 9, 4, 0) == Digits {
      LatitudeValueCases(raw, c);
      if c + 10 < |raw| {
        var lat := Hemisphere(raw[c + 10], 'S', ConvrtData(raw[c..c + 9]));
        LongitudeOutcome(raw, c, lat);
        LongitudeCases(raw, c, lat);
      }
    }
    if c + 24 <= |raw| && LatitudeField(raw, c) && LongitudeField(raw, c + 12) {
      assert DigitAt(raw, c, 0) && DigitAt(raw, c + 12, 0);
    }
  }

  /**
    The longitude half: the latitude passed in stays assigned; only the
    longitude errors and a parse are possible, and a parse has a well-formed
    longitude field and its signed value.
   */
  lemma LongitudeOutcome(raw: string, c: nat, lat: real)
    ensures var f := Longitude(raw, c, lat);
      f.lat == Some(lat)
      && (f.status == Escaped || f.status == Parsed || f.status == Thrown(NOLNG) || f.status == Thrown(BADLNG))
      && (f.status == Parsed ==>
            c + 24 <= |raw| && LongitudeField(raw, c + 12)
            && f.lng == Some(Hemisphere(raw[c + 23], 'W', ConvrtData(raw[c + 12..c + 22]))))
      && (f.status != Parsed && f.status != Escaped ==> f.lng.None?)
  {
    LongitudeCases(raw, c, lat);
  }

  /**
    Which error `parseGPS` throws, and when: no tag, too short after it. It
    parses exactly when the tag has 42 characters from it on and well-formed
    fields and hemisphere letters follow the cursor two commas past the tag,
    and a parsed fix is the complete `Fix` at that cursor.
   */
  lemma ParseGgaOutcome(raw: string)
    ensures var f := ParseGga(raw);
      (f.status == Thrown(NOTAG) <==> forall i :: !Occurs(raw, GGATAG, i))
      && (f.status == Thrown(TRUNCATED) <==>
          FindText(raw, GGATAG, 0).Some? && |raw| - FindText(raw, GGATAG, 0).value < MINGGA)
      && (f.status == Parsed <==>
          FindText(raw, GGATAG, 0).Some? && |raw| - FindText(raw, GGATAG, 0).value >= MINGGA
          && var c := Hops(raw, FindText(raw, GGATAG, 0).value, 2);
             c + 24 <= |raw| && LatitudeField(raw, c) && LongitudeField(raw, c + 12))
      && (f.status == Parsed ==>
          FindText(raw, GGATAG, 0).Some? && Fix(raw, Hops(raw, FindText(raw, GGATAG, 0).value, 2), f))
      && (f.status == Thrown(NOLAT) || f.status == Thrown(BADLAT) ==> f.lat.None? && f.lng.None?)
      && (f.status == Thrown(NOLNG) || f.status == Thrown(BADLNG) ==> f.lat.Some? && f.lng.None?)
  {
    match FindText(raw, GGATAG, 0)
    case None =>
    case Some(p) =>
      if |raw| - p >= MINGGA {
        CoordinatesOutcome(raw, Hops(raw, p, 2));
      }
  }

  /** Behind the tag and a comma-free time field, the cursor lands on the latitude. */
  lemma {:induction false} SentenceCursor(raw: string, time: string)
    requires ',' !in time && 8 + |time| <= |raw| && raw[..8 + |time|] == GGATAG + "," + time + ","
    ensures FindText(raw, GGATAG, 0).Some? && Hops(raw, 0, 2) == 8 + |time|
  {
    var c := 8 + |time|;
    assert forall i :: 0 <= i < c ==> raw[i] == (GGATAG + "," + time + ",")[i];
    assert raw[..6] == GGATAG;
    assert Occurs(raw, GGATAG, 0);
    assert forall i :: 0 <= i < 6 ==> raw[i] != ',';
    assert raw[6] == ',';
    assert Hop(raw, 0) == 7;
    assert Hops(raw, 0, 1) == 7;
    assert forall i :: 7 <= i < c - 1 ==> raw[i] == time[i - 7];
    assert raw[c - 1] == ',';
    assert Hop(raw, 7) == c;
  }

  /** The fields at the cursor are read from their own texts. */
  lemma {:induction false} SentenceFields(raw: string, c: nat, lat: string, ns: char, lng: string, ew: char, tail: string)
    requires |lat| == 9 && LatitudeField(lat, 0) && |lng| == 10 && LongitudeField(lng, 0)
    requires c <= |raw| && raw[c..] == lat + "," + [ns] + "," + lng + "," + [ew] + tail
    ensures c + 24 <= |raw| && raw[c..c + 9] == lat && raw[c + 12..c + 22] == lng
    ensures raw[c + 10] == ns && raw[c + 23] == ew
    ensures LatitudeField(raw, c) && LongitudeField(raw, c + 12)
  {
    var fields := lat + "," + [ns] + "," + lng + "," + [ew] + tail;
    assert forall i :: 0 <= i < 9 ==> raw[c + i] == lat[i];
    assert forall i :: 0 <= i < 10 ==> raw[c + 12 + i] == lng[i];
    assert raw[c + 10] == fields[10] == ns;
    assert raw[c + 23] == fields[23] == ew;
    assert LatitudeField(raw, c) by {
      forall j | 0 <= j < 9 && j != 4
        ensures DigitAt(raw, c, j)
      {
        assert DigitAt(lat, 0, j);
      }
    }
    var d := c + 12;
    assert LongitudeField(raw, d) by {
      forall j | 0 <= j < 10 && j != 5
        ensures DigitAt(raw, d, j)
      {
        assert DigitAt(lng, 0, j);
        assert raw[d + j] == lng[j];
      }
    }
  }

  /**
    A sentence of the tag, a comma-free time field and well-formed fields with
    their hemisphere letters, at least 42 characters long, parses to the
    converted fields, negated for `S` and `W`.
   */
  lemma {:induction false} SentenceParses(time: string, lat: string, ns: char, lng: string, ew: char, tail: string)
    requires ',' !in time && 10 <= |time| + |tail|
    requires |lat| == 9 && LatitudeField(lat, 0) && |lng| == 10 && LongitudeField(lng, 0)
    ensures ParseGga(GGATAG + "," + time + "," + lat + "," + [ns] + "," + lng + "," + [ew] + tail)
         == GgaFix(Parsed, Some(Hemisphere(ns, 'S', ConvrtData(lat))), Some(Hemisphere(ew, 'W', ConvrtData(lng))))
  {
    var head := GGATAG + "," + time + ",";
    var raw := GGATAG + "," + time + "," + lat + "," + [ns] + "," + lng + "," + [ew] + tail;
    var fields := lat + "," + [ns] + "," + lng + "," + [ew] + tail;
    assert raw == head + fields;
    var c := |head|;
    assert raw[c..] == fields;
    SentenceCursor(raw, time);
    assert FindText(raw, GGATAG, 0) == Some(0);
    SentenceFields(raw, c, lat, ns, lng, ew, tail);
    CoordinatesOutcome(raw, c);
  }

  /**
    The example fix `4209.9180,N,08326.7240,W` in a whole sentence parses to
    about 42.1653 and -83.4454.
   */
  lemma SentenceExample()
    ensures var f := ParseGga("$GPGGA,123519,4209.9180,N,08326.7240,W,1,08,0.9");
      f.status == Parsed && f.lat.Some? && f.lng.Some?
      && 42.1653 - 0.000000000001 < f.lat.value < 42.1653 + 0.000000000001
      && -83.4454 - 0.000000000001 < f.lng.value < -83.4454 + 0.000000000001
  {
    var lat, lng := "4209.9180", "08326.7240";
    var tail := ",1,08,0.9";
    assert |lat| == 9 && LatitudeField(lat, 0) && |lng| == 10 && LongitudeField(lng, 0);
    assert ',' !in "123519";
    SentenceParses("123519", lat, 'N', lng, 'W', tail);
    ExampleSentenceText(lat, lng, tail);
    LatitudeExample();
    LongitudeExample();
  }

  /** The example sentence is the tag, the time and the two fields with their hemispheres. */
  lemma ExampleSentenceText(lat: string, lng: string, tail: string)
    requires lat == "4209.9180" && lng == "08326.7240" && tail == ",1,08,0.9"
    ensures "$GPGGA,123519,4209.9180,N,08326.7240,W,1,08,0.9"
         == GGATAG + "," + "123519" + "," + lat + "," + ['N'] + "," + lng + "," + ['W'] + tail
  {
    var s := GGATAG + "," + "123519" + "," + lat;
    assert s == "$GPGGA,123519,4209.9180";
    s := s + "," + ['N'] + "," + lng;
    assert s == "$GPGGA,123519,4209.9180,N,08326.7240";
    s := s + "," + ['W'];
    assert s == "$GPGGA,123519,4209.9180,N,08326.7240,W";
    s := s + tail;
    assert s == "$GPGGA,123519,4209.9180,N,08326.7240,W,1,08,0.9";
  }

  /**
    No `std::out_of_range` can escape once the cursor is at most 18 characters
    past the tag (a time field of up to 10 characters), because the 42-character
    check then covers the furthest index read, cursor + 23.
   */
  lemma NoEscapeNearTag(raw: string)
    requires FindText(raw, GGATAG, 0).Some?
    requires Hops(raw, FindText(raw, GGATAG, 0).value, 2) <= FindText(raw, GGATAG, 0).value + 18
    ensures ParseGga(raw).status != Escaped
  {
    var p := FindText(raw, GGATAG, 0).value;
    if |raw| - p >= MINGGA {
      var c := Hops(raw, p, 2);
      assert c + 24 <= |raw|;
      var f := Coordinates(raw, c);
      if CheckDigits(raw, c, 9, 4, 0) == Digits && raw[c] != ',' {
        if raw[c + 12] != ',' {
          assert CheckDigits(raw, c + 12, 10, 5, 0) != OutOfRange;
        }
      }
      assert CheckDigits(raw, c, 9, 4, 0) != OutOfRange;
    }
  }

  /**
    A missing comma after the tag leaves the cursor on the tag's `$`, which is
    then rejected as a bad latitude.
   */
  lemma MissingCommaKeepsCursor(raw: string)
    requires FindText(raw, GGATAG, 0).Some?
    requires |raw| - FindText(raw, GGATAG, 0).value >= MINGGA
    requires forall i :: FindText(raw, GGATAG, 0).value <= i < |raw| ==> raw[i] != ','
    ensures Hops(raw, FindText(raw, GGATAG, 0).value, 2) == FindText(raw, GGATAG, 0).value
    ensures ParseGga(raw).status == Thrown(BADLAT)
  {
    var p := FindText(raw, GGATAG, 0).value;
    CursorStays(raw, p);
    TagIsNotLatitude(raw, p);
    ReadsFromCursor(raw);
  }

  /** With no comma from `p` on, both hops leave the cursor at `p`. */
  lemma CursorStays(raw: string, p: nat)
    requires p <= |raw| && forall i :: p <= i < |raw| ==> raw[i] != ','
    ensures Hops(raw, p, 2) == p
  {
    assert Hops(raw, p, 1) == p;
  }

  /** Read as a latitude, the tag's `$` is a bad one. */
  lemma TagIsNotLatitude(raw: string, p: nat)
    requires Occurs(raw, GGATAG, p)
    ensures Coordinates(raw, p).status == Thrown(BADLAT)
  {
    OccursAt(raw, GGATAG, p, 0);
    LeadingNonDigitIsBadLatitude(raw, p);
  }

  /** Past the tag and length checks, `parseGPS` reads the fields at the cursor. */
  lemma ReadsFromCursor(raw: string)
    requires FindText(raw, GGATAG, 0).Some?
    requires |raw| - FindText(raw, GGATAG, 0).value >= MINGGA
    ensures ParseGga(raw) == Coordinates(raw, Hops(raw, FindText(raw, GGATAG, 0).value, 2))
  {
  }

  /** A first latitude character that is neither a comma nor a digit is a bad latitude. */
  lemma LeadingNonDigitIsBadLatitude(raw: string, c: nat)
    requires c < |raw| && raw[c] != ',' && !IsDigit(raw[c])
    ensures Coordinates(raw, c).status == Thrown(BADLAT)
  {
    assert CheckDigits(raw, c, 9, 4, 0) == NotDigit;
  }

  /**
    The 42-character check does not cover the cursor: with long fields before
    the second comma, a frame that passes it makes `at` read past the end.
   */
  lemma EscapeExists()
    ensures exists raw :: ParseGga(raw).status == Escaped
  {
    var raw := GGATAG + "," + seq(33, _ => 'x') + ",12";
    assert |raw| == 43;
    assert raw[..6] == GGATAG;
    assert Occurs(raw, GGATAG, 0);
    assert FindText(raw, GGATAG, 0) == Some(0);
    assert raw[6] == ',';
    assert Hop(raw, 0) == 7;
    assert Hops(raw, 0, 1) == 7;
    assert raw[40] == ',';
    assert forall i :: 7 <= i < 40 ==> raw[i] == 'x';
    assert Hop(raw, 7) == 41;
    assert Hops(raw, 0, 2) == 41;
    assert raw[41] == '1' && raw[42] == '2';
    assert CheckDigits(raw, 41, 9, 4, 2) == OutOfRange;
    assert CheckDigits(raw, 41, 9, 4, 0) == OutOfRange;
    assert ParseGga(raw).status == Escaped;
  }
}
