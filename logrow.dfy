/**
  The row `Packet::writeData` appends to the data file (packet.cpp:391-410):
  seven sensor columns and then latitude and longitude, every column followed
  by a tab, and a newline. A number is printed by `ofstream << double`; the model
  takes that rendering as a parameter and asks only that it contain no tab and
  no newline.
 */
module LogRow {
  import opened Wrappers
  import opened CText

  /** Text that can stand in a column: no tab and no newline. */
  predicate Cell(s: string)
  {
    '\t' !in s && '\n' !in s
  }

  /** Each cell followed by a tab. */
  function Tabbed(cells: seq<string>): string
  {
    if cells == [] then "" else cells[0] + "\t" + Tabbed(cells[1..])
  }

  /** The pieces of `s` between tabs, in order: what a reader splitting the row at tabs sees. */
  function SplitTabs(s: string): (r: seq<string>)
    decreases |s|
    ensures 1 <= |r|
    ensures forall i :: 0 <= i < |r| ==> '\t' !in r[i]
  {
    match FindChar(s, '\t', 0)
    case None => [s]
    case Some(k) => [s[..k]] + SplitTabs(s[k + 1..])
  }

  /** Splitting tab-terminated cells at tabs gives the cells back, then what follows the last tab. */
  lemma {:induction false} SplitTabbed(cells: seq<string>, tail: string)
    requires forall i :: 0 <= i < |cells| ==> '\t' !in cells[i]
    requires '\t' !in tail
    ensures SplitTabs(Tabbed(cells) + tail) == cells + [tail]
  {
    if cells == [] {
      assert Tabbed(cells) + tail == tail;
      assert FindChar(tail, '\t', 0).None?;
    } else {
      var c := cells[0];
      var after := Tabbed(cells[1..]) + tail;
      assert Tabbed(cells) + tail == c + "\t" + after;
      SplitFirst(c, after);
      SplitTabbed(cells[1..], tail);
      assert cells == [c] + cells[1..];
    }
  }

  /** A tab-free cell and its tab split off as the first piece. */
  lemma SplitFirst(c: string, after: string)
    requires '\t' !in c
    ensures SplitTabs(c + "\t" + after) == [c] + SplitTabs(after)
  {
    var s := c + "\t" + after;
    assert s[|c|] == '\t';
    assert forall i :: 0 <= i < |c| ==> s[i] == c[i];
    assert FindChar(s, '\t', 0) == Some(|c|);
    assert s[..|c|] == c && s[|c| + 1..] == after;
  }

  /** Tab-terminating two runs of cells one after the other is tab-terminating their concatenation. */
  lemma {:induction false} TabbedConcat(a: seq<string>, b: seq<string>)
    ensures Tabbed(a + b) == Tabbed(a) + Tabbed(b)
  {
    if a != [] {
      assert (a + b)[1..] == a[1..] + b;
      TabbedConcat(a[1..], b);
    } else {
      assert a + b == b;
    }
  }

  /** Tab-terminated tab-free cells hold exactly one tab per cell. */
  lemma {:induction false} TabbedTabCount(cells: seq<string>, tail: string)
    requires forall i :: 0 <= i < |cells| ==> '\t' !in cells[i]
    requires '\t' !in tail
    ensures multiset(Tabbed(cells) + tail)['\t'] == |cells|
  {
    if cells == [] {
      assert Tabbed(cells) + tail == tail;
    } else {
      var c := cells[0];
      var rest := Tabbed(cells[1..]) + tail;
      TabbedTabCount(cells[1..], tail);
      assert Tabbed(cells) == c + "\t" + Tabbed(cells[1..]);
      assert multiset(Tabbed(cells)) == multiset(c) + multiset("\t") + multiset(Tabbed(cells[1..]));
      assert multiset(Tabbed(cells) + tail) == multiset(Tabbed(cells)) + multiset(tail);
      assert multiset(rest) == multiset(Tabbed(cells[1..])) + multiset(tail);
      assert '\t' !in multiset(c);
    }
  }

  /** The seven sensor columns: pressure, humidity, the three accelerations and the two temperatures. */
  function SensorTexts(pres: real, humd: real, accel: seq<real>, temp: seq<real>, render: real -> string): (r: seq<string>)
    requires |accel| == 3 && |temp| == 2
    ensures |r| == 7
    ensures forall j :: 0 <= j < 7 ==> r[j] == render(([pres, humd] + accel + temp)[j])
  {
    [render(pres), render(humd), render(accel[0]), render(accel[1]), render(accel[2]),
     render(temp[0]), render(temp[1])]
  }

  /**
    The sensor columns as packet.cpp:399-402 writes them, with `temp[2]` for the
    last. `temp` is declared `double temp[2]` (packet.h:31), so `temp[2]` reads
    past the array: undefined behaviour. Taken here as the declared layout
    gives it, the doubles `temp[0]`, `temp[1]`, `lat` and `lng` lie one after
    another and `temp[2]` is `lat`.
   */
  function SensorTextsAsWritten(pres: real, humd: real, accel: seq<real>, temp: seq<real>, lat: real, lng: real, render: real -> string): (r: seq<string>)
    requires |accel| == 3 && |temp| == 2
    ensures |r| == 7
  {
    var layout := temp + [lat, lng];
    [render(pres), render(humd), render(accel[0]), render(accel[1]), render(accel[2]),
     render(layout[0]), render(layout[2])]
  }

  /**
    A row written as packet.cpp:399-408 has it, with valid sensors and
    position: the seventh column, meant for the second temperature, repeats the
    latitude of the eighth column, while the first six are the intended ones.
   */
  lemma TemperatureReadPastEnd(pres: real, humd: real, accel: seq<real>, temp: seq<real>, lat: real, lng: real, render: real -> string)
    requires |accel| == 3 && |temp| == 2
    requires forall x :: Cell(render(x))
    ensures var texts := SensorTextsAsWritten(pres, humd, accel, temp, lat, lng, render);
      var cols := SplitTabs(Row(true, true, texts, render(lat), render(lng)).value);
      |cols| == 10 && cols[6] == cols[7] == render(lat)
      && cols[..6] == SensorTexts(pres, humd, accel, temp, render)[..6]
  {
    var texts := SensorTextsAsWritten(pres, humd, accel, temp, lat, lng, render);
    assert texts == [render(pres), render(humd), render(accel[0]), render(accel[1]), render(accel[2]),
                     render(temp[0]), render(lat)];
    forall j | 0 <= j < 7
      ensures Cell(texts[j])
    {
      var x := [pres, humd, accel[0], accel[1], accel[2], temp[0], lat][j];
      assert texts[j] == render(x);
    }
    RowLayout(true, true, texts, render(lat), render(lng));
  }

  /** Seven empty sensor columns, written when the sensor run did not parse. */
  const NOSENSORS: seq<string> := ["", "", "", "", "", "", ""]

  /** The nine columns of a row, with empty columns for the invalid part. */
  function Columns(sens: bool, gps: bool, sensorTexts: seq<string>, latText: string, lngText: string): (r: seq<string>)
    requires |sensorTexts| == 7
    ensures |r| == 9
  {
    (if sens then sensorTexts else NOSENSORS) + (if gps then [latText, lngText] else ["", ""])
  }

  /** The row for one packet: nothing when neither part is valid ("No data to write"). */
  function Row(sens: bool, gps: bool, sensorTexts: seq<string>, latText: string, lngText: string): Option<string>
    requires |sensorTexts| == 7
  {
    if !sens && !gps then None
    else Some(Tabbed(Columns(sens, gps, sensorTexts, latText, lngText)) + "\n")
  }

  /**
    A written row has exactly nine tabs and ends in a newline, and splitting it
    at tabs gives back the nine columns: the sensor texts or seven empty
    columns, then latitude and longitude or two empty ones.
   */
  lemma RowLayout(sens: bool, gps: bool, sensorTexts: seq<string>, latText: string, lngText: string)
    requires |sensorTexts| == 7 && (sens || gps)
    requires forall j :: 0 <= j < 7 ==> Cell(sensorTexts[j])
    requires Cell(latText) && Cell(lngText)
    ensures var row := Row(sens, gps, sensorTexts, latText, lngText);
      row.Some? && multiset(row.value)['\t'] == 9 && row.value[|row.value| - 1] == '\n'
      && SplitTabs(row.value) == Columns(sens, gps, sensorTexts, latText, lngText) + ["\n"]
  {
    var cols := Columns(sens, gps, sensorTexts, latText, lngText);
    ColumnsTabFree(sens, gps, sensorTexts, latText, lngText);
    SplitTabbed(cols, "\n");
    TabbedTabCount(cols, "\n");
    var text := Tabbed(cols) + "\n";
    assert text[|text| - 1] == '\n';
  }

  /** Every column of a row built from cells is free of tabs. */
  lemma ColumnsTabFree(sens: bool, gps: bool, sensorTexts: seq<string>, latText: string, lngText: string)
    requires |sensorTexts| == 7
    requires forall j :: 0 <= j < 7 ==> Cell(sensorTexts[j])
    requires Cell(latText) && Cell(lngText)
    ensures var cols := Columns(sens, gps, sensorTexts, latText, lngText);
      forall j :: 0 <= j < 9 ==> '\t' !in cols[j]
  {
    var cols := Columns(sens, gps, sensorTexts, latText, lngText);
    forall j | 0 <= j < 9
      ensures '\t' !in cols[j]
    {
      if j < 7 {
        assert cols[j] == (if sens then sensorTexts[j] else "");
      }
    }
  }

  /** The latitude and longitude texts are the eighth and ninth tab-separated columns of a GPS row. */
  lemma PositionColumns(sens: bool, sensorTexts: seq<string>, latText: string, lngText: string)
    requires |sensorTexts| == 7
    requires forall j :: 0 <= j < 7 ==> Cell(sensorTexts[j])
    requires Cell(latText) && Cell(lngText)
    ensures var cols := SplitTabs(Row(sens, true, sensorTexts, latText, lngText).value);
      |cols| == 10 && cols[7] == latText && cols[8] == lngText
  {
    RowLayout(sens, true, sensorTexts, latText, lngText);
  }
}
