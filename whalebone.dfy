/**
  The backbone of the ground station (whalebone.h and whalebone.cpp): its
  constants, the element-copy `castArray`, the uplink `sendCMD`, and the point
  counters of `writePts`.
 */
module Whalebone {
  import opened Wrappers
  import opened CText
  import LogRow

  /** Serial buffer size. */
  const MAXBUF: int := 1000
  /** Maximum number of map points kept by `writePts`. */
  const MAXPTS: int := 4000
  /** Maximum command length; the outbound buffer holds `MAXCMD + 1` bytes. */
  const MAXCMD: int := 100
  /** The byte that ends an uplink command. */
  const CMDDLIM: char := '@'
  /** The command sent when the command file holds no valid one. */
  const DFLTCMD: string := "OKAY@"
  /** The byte that separates the segments of a telemetry frame. */
  const DATDLIM: char := '#'
  /** Minutes to degrees. */
  const DCONV: real := 0.016666666666667
  /** Reference voltage of the analogue channels. */
  const LOWV: real := 3.3

  /** The default command would itself pass the literal-command test. */
  lemma DefaultCommandIsDelimited()
    ensures |DFLTCMD| > 0 && DFLTCMD[|DFLTCMD| - 1] == CMDDLIM
    ensures |DFLTCMD| <= MAXCMD + 1
  {
  }

  /** The frame separator and the command terminator are different bytes. */
  lemma DelimitersDiffer()
    ensures DATDLIM != CMDDLIM
  {
  }

  /** DCONV is the minutes-to-degrees factor 1/60 to within 1e-15. */
  lemma DconvIsOneSixtieth()
    ensures -0.000000000000001 < DCONV - 1.0 / 60.0 < 0.000000000000001
  {
  }

  /**
    `castArray`: copies the first `arrSize` elements of `src` (`array1`) into `dst` (`array2`)
    through `cast` and leaves the rest of `dst` alone. A negative size copies
    nothing. `src` is read-only, so it is given as its contents.
   */
  method CastArray<T, R>(src: seq<T>, dst: array<R>, arrSize: int, cast: T -> R)
    requires arrSize <= |src| && arrSize <= dst.Length
    modifies dst
    ensures forall i :: 0 <= i < arrSize ==> dst[i] == cast(src[i])
    ensures forall i :: 0 <= i < dst.Length && !(0 <= i < arrSize) ==> dst[i] == old(dst[i])
  {
    var i := 0;
    while i < arrSize
      invariant 0 <= i && (i == 0 || i <= arrSize)
      invariant forall j :: 0 <= j < i ==> dst[j] == cast(src[j])
      invariant forall j :: i <= j < dst.Length ==> dst[j] == old(dst[j])
    {
      dst[i] := cast(src[i]);
      i := i + 1;
    }
  }

  /** `castArray(const char[], unsigned char[], int)`. */
  method CastToBytes(src: string, dst: array<Byte>, arrSize: int)
    requires arrSize <= |src| && arrSize <= dst.Length
    modifies dst
    ensures forall i :: 0 <= i < arrSize ==> dst[i] == ByteOf(src[i])
    ensures forall i :: 0 <= i < dst.Length && !(0 <= i < arrSize) ==> dst[i] == old(dst[i])
  {
    CastArray(src, dst, arrSize, ByteOf);
  }

  /** `castArray(const unsigned char[], char[], int)`. */
  method CastToChars(src: seq<Byte>, dst: array<char>, arrSize: int)
    requires arrSize <= |src| && arrSize <= dst.Length
    modifies dst
    ensures forall i :: 0 <= i < arrSize ==> dst[i] == CharOf(src[i])
    ensures forall i :: 0 <= i < dst.Length && !(0 <= i < arrSize) ==> dst[i] == old(dst[i])
  {
    CastArray(src, dst, arrSize, CharOf);
  }

  /** The bytes of a string under `static_cast<unsigned char>`. */
  function Bytes(s: string): seq<Byte>
  {
    seq(|s|, i requires 0 <= i < |s| => ByteOf(s[i]))
  }

  /** What one `sendCMD` call puts on the serial line. */
  datatype Transmission =
    | Sent(mssg: seq<Byte>, literal: bool, sendError: bool)
      // `literal`: the command file's token was sent; `sendError`: "Error sending command" was printed
    | EmptyToken
      // the token is empty, so the delimiter test reads `cmd[-1]`: undefined behaviour
    | Overrun(size: nat)
      // the message is longer than `mssg[MAXCMD + 1]`, so `castArray` writes past it

  /**
    The staging and transmission step of every `sendCMD`: the message is copied
    into the `MAXCMD + 1` byte buffer `mssg` and sent; an error is reported
    exactly when the transport's count `sendResult` differs from the message length.
   */
  method Stage(msg: string, literal: bool, sendResult: int) returns (t: Transmission)
    ensures |msg| <= MAXCMD + 1 ==> t == Sent(Bytes(msg), literal, sendResult != |msg|)
    ensures |msg| > MAXCMD + 1 ==> t == Overrun(|msg|)
  {
    var mssg := new Byte[MAXCMD + 1];
    var mssgSize := |msg|;
    if mssgSize > mssg.Length {
      return Overrun(mssgSize);
    }
    CastToBytes(msg, mssg, mssgSize);
    assert mssg[..mssgSize] == Bytes(msg);
    t := Sent(mssg[..mssgSize], literal, sendResult != mssgSize);
  }

  /**
    The body shared by every `sendCMD`: the token read from the command file is
    sent verbatim when its last character is `delim`, and `dflt` is sent
    otherwise. The delimiter test reads the token's last character, which an
    empty token does not have.
   */
  method Transmit(cmd: string, delim: char, dflt: string, sendResult: int) returns (t: Transmission)
    ensures |cmd| == 0 <==> t == EmptyToken
    ensures |cmd| > 0 && cmd[|cmd| - 1] == delim ==>
      if |cmd| <= MAXCMD + 1 then t == Sent(Bytes(cmd), true, sendResult != |cmd|) else t == Overrun(|cmd|)
    ensures |cmd| > 0 && cmd[|cmd| - 1] != delim ==>
      if |dflt| <= MAXCMD + 1 then t == Sent(Bytes(dflt), false, sendResult != |dflt|) else t == Overrun(|dflt|)
  {
    var mssgSize := |cmd|;
    if mssgSize == 0 {
      return EmptyToken;
    }
    if cmd[mssgSize - 1] == delim {
      t := Stage(cmd, true, sendResult);
    } else {
      t := Stage(dflt, false, sendResult);
    }
  }

  /**
    `sendCMD(cfilenm, comnum)`: the command file holds `cmdFile` and the
    transport reports `sendResult` bytes sent. Every message that goes out ends
    with `CMDDLIM`; it is the file's first token when that token ends with
    `CMDDLIM`, and `DFLTCMD` otherwise. The file is only read.
   */
  method SendCmd(cmdFile: string, sendResult: int) returns (t: Transmission)
    ensures t == EmptyToken <==> FirstToken(cmdFile) == ""
    ensures t.Overrun? <==> |FirstToken(cmdFile)| > MAXCMD + 1 && FirstToken(cmdFile)[|FirstToken(cmdFile)| - 1] == CMDDLIM
    ensures t.Sent? ==> |t.mssg| > 0 && t.mssg[|t.mssg| - 1] == ByteOf(CMDDLIM)
    ensures t.Sent? ==> (t.sendError <==> sendResult != |t.mssg|)
    ensures t.Sent? ==> t.mssg == Bytes(if t.literal then FirstToken(cmdFile) else DFLTCMD)
    ensures t.Sent? && t.literal ==> FirstToken(cmdFile)[|FirstToken(cmdFile)| - 1] == CMDDLIM
    ensures t.Sent? && !t.literal ==> FirstToken(cmdFile)[|FirstToken(cmdFile)| - 1] != CMDDLIM
  {
    DefaultCommandIsDelimited();
    t := Transmit(FirstToken(cmdFile), CMDDLIM, DFLTCMD, sendResult);
  }

  function Min(a: int, b: int): int
  {
    if a <= b then a else b
  }

  /**
    The line whose value occupies ring slot `slot` after `k` lines were stored at
    slots `0, 1, ..., (k - 1) % MAXPTS`: the last line that landed there.
   */
  function Latest(k: nat, slot: nat): (j: nat)
    requires slot < k && slot < MAXPTS
    ensures j < k && j % MAXPTS == slot
    ensures forall m :: j < m < k ==> m % MAXPTS != slot
    decreases k
  {
    if (k - 1) % MAXPTS == slot then k - 1 else Latest(k - 1, slot)
  }

  /** A column of a data-file line: its `atof` value, and 0 when the column is empty. */
  function ColumnValue(column: string): (v: real)
    ensures column == "" ==> v == 0.0
  {
    if |column| != 0 then Atof(column) else 0.0
  }

  /** 2^32: `size_t` and `int` are taken to be 32 bits wide. */
  const SIZE: int := 0x1_0000_0000
  /** `std::string::npos` as a 32-bit `size_t`. */
  const NPOS: int := SIZE - 1

  /** A value converted to `size_t`: taken modulo 2^32. */
  function AsSize(i: int): (n: nat)
    ensures n < SIZE && (n - i) % SIZE == 0
  {
    i % SIZE
  }

  /** A value taken modulo 2^32 and stored in an `int`: from 2^31 on it reads as negative. */
  function AsInt(i: int): (r: int)
    ensures -SIZE / 2 <= r < SIZE / 2 && AsSize(r) == AsSize(i)
  {
    var n := i % SIZE;
    if n >= SIZE / 2 then n - SIZE else n
  }

  /**
    `tmp.find('\t', ind + 1)`, a `size_t`: the first tab at or after
    `ind + 1`, or `npos` when there is none (for strings shorter than `npos`,
    `npos` means exactly that).
   */
  function NextTab(tmp: string, ind: int): (n: nat)
    ensures n == NPOS || (AsSize(ind + 1) <= n < |tmp| && tmp[n] == '\t')
  {
    match FindChar(tmp, '\t', AsSize(ind + 1))
    case None => NPOS
    case Some(k) => k
  }

  /**
    `NextTab` finds the first tab from `ind + 1` on; it gives `npos` when there
    is no tab there, and, for strings shorter than `npos`, only then.
   */
  lemma NextTabIsFirst(tmp: string, ind: int)
    ensures var n := NextTab(tmp, ind);
      (n != NPOS ==> forall i :: AsSize(ind + 1) <= i < n ==> tmp[i] != '\t')
      && ((forall i :: AsSize(ind + 1) <= i < |tmp| ==> tmp[i] != '\t') ==> n == NPOS)
      && (|tmp| <= NPOS && n == NPOS ==> forall i :: AsSize(ind + 1) <= i < |tmp| ==> tmp[i] != '\t')
  {
  }

  /** The cursor `ind` after `n` passes of `ind = tmp.find('\t', ind + 1)` (whalebone.cpp:205-208). */
  function SkipColumns(tmp: string, ind: int, n: nat): int
    decreases n
  {
    if n == 0 then ind else SkipColumns(tmp, AsInt(NextTab(tmp, ind)), n - 1)
  }

  /**
    One column read at cursor `ind` (whalebone.cpp:211-218): its length
    `lnth`, its `atof` value (0 when `lnth` is 0) and the cursor `ind + lnth + 1`;
    `None` when `substr` throws `std::out_of_range`.
   */
  function ColumnAt(tmp: string, ind: int): Option<(real, int)>
  {
    var lnth := AsInt(NextTab(tmp, ind) - AsSize(ind) - 1);
    if lnth == 0 then Some((0.0, AsInt(ind + 1)))
    else match Substr(tmp, AsSize(ind + 1), AsSize(lnth))
      case None => None
      case Some(text) => Some((Atof(text), AsInt(ind + lnth + 1)))
  }

  /**
    The latitude and longitude one pass of the `writePts` loop stores, as the
    code is written, for the text `tmp` that `gpsdat >> tmp` read
    (whalebone.cpp:203-223).
   */
  function TokenPoint(tmp: string): Option<(real, real)>
  {
    match ColumnAt(tmp, SkipColumns(tmp, 0, 7))
    case None => None
    case Some((lat, ind)) =>
      match ColumnAt(tmp, ind)
      case None => None
      case Some((lon, _)) => Some((lat, lon))
  }

  /**
    `>>` stops at white space, so `tmp` holds no tab: every `find` is `npos`,
    the cursor wraps to -1, `lnth` to -1, and `substr(0, npos)` is all of `tmp`.
    Both coordinates are then the value of the whole token, whichever column it was.
   */
  lemma {:induction false} TokenPointOfWord(tmp: string)
    requires '\t' !in tmp && |tmp| < NPOS
    ensures TokenPoint(tmp) == Some((ColumnValue(tmp), ColumnValue(tmp)))
  {
    SkipWithoutTabs(tmp, 0, 7);
    WrappedColumn(tmp);
    if tmp == "" {
      assert Span(tmp, IsDigit) == 0;
      assert Atof(tmp) == 0.0;
    }
  }

  /** Without a tab every hop lands on `npos`, which reads as -1. */
  lemma {:induction false} SkipWithoutTabs(tmp: string, ind: int, n: nat)
    requires '\t' !in tmp && 0 < n
    ensures SkipColumns(tmp, ind, n) == -1
    decreases n
  {
    assert NextTab(tmp, ind) == NPOS;
    if n > 1 {
      SkipWithoutTabs(tmp, AsInt(NextTab(tmp, ind)), n - 1);
    }
  }

  /** At cursor -1 without a tab, the column read is the whole text and the cursor stays at -1. */
  lemma WrappedColumn(tmp: string)
    requires '\t' !in tmp && |tmp| < NPOS
    ensures ColumnAt(tmp, -1) == Some((Atof(tmp), -1))
  {
    assert NextTab(tmp, -1) == NPOS;
    assert AsSize(-1) == NPOS;
    assert Substr(tmp, 0, NPOS) == Some(tmp);
  }

  /** A data-file line whose first column reads "7" is put on the map at (7, 7). */
  lemma TokenPointExample()
    ensures TokenPoint("7") == Some((7.0, 7.0))
  {
    AtofOfDigits("7");
    assert Whole("7") == 7 by {
      assert "7"[..0] == "";
    }
    assert ColumnValue("7") == 7.0;
    TokenPointOfWord("7");
  }

  /**
    The position a line of the data file holds: the values of its eighth and
    ninth tab-separated columns, `None` when it has fewer than nine.
   */
  function LinePoint(line: string): Option<(real, real)>
  {
    var cols := LogRow.SplitTabs(line);
    if |cols| < 9 then None else Some((ColumnValue(cols[7]), ColumnValue(cols[8])))
  }

  /** A row `writeData` wrote with a valid position gives that position back. */
  lemma LinePointOfRow(sens: bool, sensorTexts: seq<string>, latText: string, lngText: string)
    requires |sensorTexts| == 7
    requires forall j :: 0 <= j < 7 ==> LogRow.Cell(sensorTexts[j])
    requires LogRow.Cell(latText) && LogRow.Cell(lngText)
    ensures LinePoint(LogRow.Row(sens, true, sensorTexts, latText, lngText).value)
      == Some((ColumnValue(latText), ColumnValue(lngText)))
  {
    LogRow.PositionColumns(sens, sensorTexts, latText, lngText);
  }

  /** Where column `k` of a line of tab-terminated cells starts: after the first `k` cells and their tabs. */
  function ColumnStart(cols: seq<string>, k: nat): nat
    requires k <= |cols|
  {
    if k == 0 then 0 else ColumnStart(cols, k - 1) + |cols[k - 1]| + 1
  }

  /** The cell `c` sits in `line` at `s`, and a tab follows it. */
  predicate CellAt(line: string, s: nat, c: string)
  {
    s + |c| < |line| && line[s..s + |c|] == c && line[s + |c|] == '\t'
  }

  /** `line` starts with the tab-free cells `cols`, each followed by a tab. */
  ghost predicate Columned(line: string, cols: seq<string>)
  {
    (forall k :: 0 <= k < |cols| ==> '\t' !in cols[k])
    && ColumnStart(cols, |cols|) <= |line|
    && forall k {:trigger CellAt(line, ColumnStart(cols, k), cols[k])} ::
         0 <= k < |cols| ==> CellAt(line, ColumnStart(cols, k), cols[k])
  }

  /** A row of tab-terminated tab-free cells and a tail is columned by its cells, and the tail follows them. */
  lemma {:induction false} LineColumned(cols: seq<string>, tail: string)
    requires forall i :: 0 <= i < |cols| ==> '\t' !in cols[i]
    ensures var line := LogRow.Tabbed(cols) + tail;
      Columned(line, cols) && line[ColumnStart(cols, |cols|)..] == tail
  {
    var line := LogRow.Tabbed(cols) + tail;
    forall k | 0 <= k < |cols|
      ensures CellAt(line, ColumnStart(cols, k), cols[k])
    {
      ColumnInLine(cols, tail, k);
    }
    TabbedPrefixLength(cols, |cols|);
    assert cols[..|cols|] == cols;
  }

  /** The first `k` cells with their tabs are as long as the start of column `k` says. */
  lemma {:induction false} TabbedPrefixLength(cols: seq<string>, k: nat)
    requires k <= |cols|
    ensures |LogRow.Tabbed(cols[..k])| == ColumnStart(cols, k)
  {
    if k == 0 {
      assert cols[..0] == [];
    } else {
      TabbedPrefixLength(cols, k - 1);
      LogRow.TabbedConcat(cols[..k - 1], [cols[k - 1]]);
      assert cols[..k] == cols[..k - 1] + [cols[k - 1]];
      assert LogRow.Tabbed([cols[k - 1]]) == cols[k - 1] + "\t" + LogRow.Tabbed([]);
    }
  }

  /** Column `k` of a line of tab-terminated cells holds the cell, and its tab follows. */
  lemma {:induction false} ColumnInLine(cols: seq<string>, tail: string, k: nat)
    requires k < |cols|
    ensures CellAt(LogRow.Tabbed(cols) + tail, ColumnStart(cols, k), cols[k])
  {
    var before := LogRow.Tabbed(cols[..k]);
    var after := LogRow.Tabbed(cols[k + 1..]);
    TabbedAround(cols, k);
    TabbedPrefixLength(cols, k);
    CellInText(before, cols[k], after + tail);
    assert LogRow.Tabbed(cols) + tail == before + cols[k] + "\t" + (after + tail);
  }

  /** Tab-terminated cells are the cells before `k`, cell `k` and its tab, then the cells after `k`. */
  lemma {:induction false} TabbedAround(cols: seq<string>, k: nat)
    requires k < |cols|
    ensures LogRow.Tabbed(cols) == LogRow.Tabbed(cols[..k]) + cols[k] + "\t" + LogRow.Tabbed(cols[k + 1..])
  {
    LogRow.TabbedConcat(cols[..k], cols[k..]);
    assert cols[..k] + cols[k..] == cols;
    assert cols[k..][0] == cols[k] && cols[k..][1..] == cols[k + 1..];
  }

  /** In `before + c + "\t" + rest`, `c` starts at `|before|` and its tab follows it. */
  lemma {:induction false} CellInText(before: string, c: string, rest: string)
    ensures CellAt(before + c + "\t" + rest, |before|, c)
  {
    var text := before + c + "\t" + rest;
    assert text == before + (c + "\t" + rest);
    assert (c + "\t" + rest)[..|c|] == c;
  }

  /** A search that starts inside column `k` of a columned line stops at the tab after it. */
  lemma {:induction false} NextTabInColumn(line: string, cols: seq<string>, k: nat, ind: int)
    requires Columned(line, cols) && k < |cols|
    requires ColumnStart(cols, k) <= AsSize(ind + 1) <= ColumnStart(cols, k) + |cols[k]|
    ensures NextTab(line, ind) == ColumnStart(cols, k + 1) - 1
  {
    var s, e := ColumnStart(cols, k), ColumnStart(cols, k) + |cols[k]|;
    assert CellAt(line, s, cols[k]);
    forall i | s <= i < e
      ensures line[i] != '\t'
    {
      assert line[i] == line[s..e][i - s] == cols[k][i - s];
    }
    var r := FindChar(line, '\t', AsSize(ind + 1));
    assert r.Some? && r.value == e;
  }

  /** Values below 2^31 are the same as `size_t` and as `int`. */
  lemma {:induction false} Small(i: int)
    requires 0 <= i < SIZE / 2
    ensures AsSize(i) == i && AsInt(i) == i
  {
  }

  /**
    A column read at cursor `ind` whose next tab is at `next`, all below 2^31:
    the value of the text between them, and the cursor moves to `next`.
   */
  lemma {:induction false} ColumnBetweenTabs(tmp: string, ind: int, next: int, text: string)
    requires 0 <= ind < next <= |tmp| < SIZE / 2 && NextTab(tmp, ind) == next && tmp[ind + 1..next] == text
    ensures ColumnAt(tmp, ind) == Some((ColumnValue(text), next))
  {
    var lnth := next - ind - 1;
    Small(ind);
    Small(ind + 1);
    Small(lnth);
    Small(next);
    assert AsInt(NextTab(tmp, ind) - AsSize(ind) - 1) == lnth;
    if lnth != 0 {
      assert Substr(tmp, ind + 1, lnth) == Some(tmp[ind + 1..next]);
      assert ind + lnth + 1 == next;
    }
  }

  /**
    A column read at cursor `ind` with no tab after it: `lnth` wraps to a
    negative value, `substr` reads the rest of the text and the cursor wraps to -1.
   */
  lemma {:induction false} ColumnAfterLastTab(tmp: string, ind: int)
    requires 0 <= ind < |tmp| < SIZE / 2 && NextTab(tmp, ind) == NPOS
    ensures ColumnAt(tmp, ind) == Some((Atof(tmp[ind + 1..]), -1))
  {
    Small(ind);
    Small(ind + 1);
    var lnth := AsInt(NPOS - ind - 1);
    assert lnth == -2 - ind;
    assert AsSize(lnth) == SIZE - 2 - ind;
    assert Substr(tmp, ind + 1, SIZE - 2 - ind) == Some(tmp[ind + 1..]);
    assert AsInt(ind + lnth + 1) == -1;
  }

  /** A search that starts at the tab before a tab-free cell stops at the tab after it. */
  lemma {:induction false} TabAfterCell(line: string, s: nat, c: string)
    requires 1 <= s && CellAt(line, s, c) && '\t' !in c && |line| < SIZE / 2
    ensures NextTab(line, s - 1) == s + |c|
  {
    var e := s + |c|;
    forall i | s <= i < e
      ensures line[i] != '\t'
    {
      assert line[i] == line[s..e][i - s] == c[i - s];
    }
    Small(s);
    assert s - 1 + 1 == s;
    var r := FindChar(line, '\t', AsSize(s));
    assert r.Some? && r.value == e;
  }

  /** `TokenPoint` from the cursor after the seven hops and the two column reads. */
  lemma TokenPointFrom(tmp: string, p7: int, lat: real, p8: int, lon: real, p9: int)
    requires SkipColumns(tmp, 0, 7) == p7 && ColumnAt(tmp, p7) == Some((lat, p8)) && ColumnAt(tmp, p8) == Some((lon, p9))
    ensures TokenPoint(tmp) == Some((lat, lon))
  {
  }

  /**
    When the seven hops end on a tab at `x` and the next two tabs are at `q`
    and `r`, the code reads the two texts between them.
   */
  lemma {:induction false} TokenPointBetweenTabs(tmp: string, x: int, q: int, r: int, lat: string, lng: string)
    requires 0 <= x < q < r <= |tmp| < SIZE / 2
    requires SkipColumns(tmp, 0, 7) == x && NextTab(tmp, x) == q && NextTab(tmp, q) == r
    requires tmp[x + 1..q] == lat && tmp[q + 1..r] == lng
    ensures TokenPoint(tmp) == Some((ColumnValue(lat), ColumnValue(lng)))
  {
    ColumnBetweenTabs(tmp, x, q, lat);
    ColumnBetweenTabs(tmp, q, r, lng);
    TokenPointFrom(tmp, x, ColumnValue(lat), q, ColumnValue(lng), r);
  }

  /**
    When the seven hops end on a tab at `x`, the next tab is at `q` and no tab
    follows, the code reads the text between them and then the rest of the text.
   */
  lemma {:induction false} TokenPointAfterLastTab(tmp: string, x: int, q: int, lat: string, rest: string)
    requires 0 <= x < q < |tmp| < SIZE / 2
    requires SkipColumns(tmp, 0, 7) == x && NextTab(tmp, x) == q && NextTab(tmp, q) == NPOS
    requires tmp[x + 1..q] == lat && tmp[q + 1..] == rest
    ensures TokenPoint(tmp) == Some((ColumnValue(lat), Atof(rest)))
  {
    ColumnBetweenTabs(tmp, x, q, lat);
    ColumnAfterLastTab(tmp, q);
    TokenPointFrom(tmp, x, ColumnValue(lat), q, Atof(rest), -1);
  }

  /** A hop that starts inside column `k` of a columned line lands on the tab after it. */
  lemma {:induction false} HopInside(line: string, cols: seq<string>, k: nat, ind: int, n: nat)
    requires Columned(line, cols) && k < |cols| && |line| < SIZE / 2 && 0 < n
    requires ColumnStart(cols, k) <= AsSize(ind + 1) <= ColumnStart(cols, k) + |cols[k]|
    ensures SkipColumns(line, ind, n) == SkipColumns(line, ColumnStart(cols, k + 1) - 1, n - 1)
  {
    assert CellAt(line, ColumnStart(cols, k), cols[k]);
    NextTabInColumn(line, cols, k, ind);
    Small(ColumnStart(cols, k + 1) - 1);
  }

  /** The cursor on the tab before column `k` of a columned line is inside that column for the next search. */
  lemma {:induction false} TabBefore(line: string, cols: seq<string>, k: nat)
    requires Columned(line, cols) && 1 <= k < |cols| && |line| < SIZE / 2
    ensures ColumnStart(cols, k) <= AsSize(ColumnStart(cols, k) - 1 + 1) <= ColumnStart(cols, k) + |cols[k]|
  {
    assert CellAt(line, ColumnStart(cols, k), cols[k]);
    Small(ColumnStart(cols, k));
  }

  /**
    Hops that start inside column `k` of a columned line: the first lands on
    the tab after column `k`, and `j - k` of them on the tab before column `j`.
   */
  lemma {:induction false} SkipFromInside(line: string, cols: seq<string>, k: nat, j: nat, ind: int)
    requires Columned(line, cols) && k < j <= |cols| && |line| < SIZE / 2
    requires ColumnStart(cols, k) <= AsSize(ind + 1) <= ColumnStart(cols, k) + |cols[k]|
    ensures SkipColumns(line, ind, j - k) == ColumnStart(cols, j) - 1
    decreases j - k
  {
    HopInside(line, cols, k, ind, j - k);
    if k + 1 < j {
      TabBefore(line, cols, k + 1);
      SkipFromInside(line, cols, k + 1, j, ColumnStart(cols, k + 1) - 1);
    }
  }

  /** On a columned line whose first column is not empty, the seven hops end on the tab before column 7. */
  lemma {:induction false} SkipFromStart(line: string, cols: seq<string>)
    requires Columned(line, cols) && 8 <= |cols| && cols[0] != "" && |line| < SIZE / 2
    ensures SkipColumns(line, 0, 7) == ColumnStart(cols, 7) - 1
  {
    Small(1);
    SkipFromInside(line, cols, 0, 7, 0);
  }

  /**
    On a columned line whose first two columns are empty, the first search
    starts past the tab at index 0 and stops at the tab at index 1, so the
    seven hops end on the tab before column 8.
   */
  lemma {:induction false} SkipFromEmptyStart(line: string, cols: seq<string>)
    requires Columned(line, cols) && 9 <= |cols| && cols[0] == "" && cols[1] == "" && |line| < SIZE / 2
    ensures SkipColumns(line, 0, 7) == ColumnStart(cols, 8) - 1
  {
    assert ColumnStart(cols, 1) == 1;
    Small(1);
    SkipFromInside(line, cols, 1, 8, 0);
  }

  /** The tabs before and after column `k` of a columned line, and the cell between them. */
  lemma {:induction false} ColumnTabs(line: string, cols: seq<string>, k: nat) returns (x: int, q: int)
    requires Columned(line, cols) && 1 <= k < |cols| && |line| < SIZE / 2
    ensures x == ColumnStart(cols, k) - 1 && q == ColumnStart(cols, k) + |cols[k]| && 0 <= x < q < |line|
    ensures NextTab(line, x) == q && line[x + 1..q] == cols[k]
  {
    var s := ColumnStart(cols, k);
    x, q := s - 1, s + |cols[k]|;
    assert CellAt(line, s, cols[k]);
    TabAfterCell(line, s, cols[k]);
    assert x + 1 == s;
  }

  /** The tabs around columns 7 and 8 of a columned line, and the cells between them. */
  lemma {:induction false} PositionTabs(line: string, cols: seq<string>) returns (x: int, q: int, r: int)
    requires Columned(line, cols) && 9 <= |cols| && |line| < SIZE / 2
    ensures x == ColumnStart(cols, 7) - 1 && 0 <= x < q < r <= |line|
    ensures NextTab(line, x) == q && NextTab(line, q) == r
    ensures line[x + 1..q] == cols[7] && line[q + 1..r] == cols[8]
  {
    var q';
    x, q := ColumnTabs(line, cols, 7);
    q', r := ColumnTabs(line, cols, 8);
    assert q' == q;
  }

  /** The tabs around the ninth and last column of a columned line whose tail holds no tab. */
  lemma {:induction false} LastColumnTabs(line: string, cols: seq<string>) returns (x: int, q: int)
    requires Columned(line, cols) && |cols| == 9 && |line| < SIZE / 2
    requires '\t' !in line[ColumnStart(cols, 9)..]
    ensures x == ColumnStart(cols, 8) - 1 && 0 <= x < q < |line|
    ensures NextTab(line, x) == q && NextTab(line, q) == NPOS
    ensures line[x + 1..q] == cols[8] && line[q + 1..] == line[ColumnStart(cols, 9)..]
  {
    x, q := ColumnTabs(line, cols, 8);
    assert q + 1 == ColumnStart(cols, 9);
    Small(q + 1);
    assert NextTab(line, q) == NPOS by {
      var tail := line[q + 1..];
      assert forall i :: q + 1 <= i < |line| ==> line[i] == tail[i - (q + 1)];
    }
  }

  /**
    On a line whose first column is not empty, the column arithmetic of
    whalebone.cpp:205-223 reads the eighth and ninth columns.
   */
  lemma {:induction false} TokenPointOfColumns(line: string, cols: seq<string>)
    requires Columned(line, cols) && 9 <= |cols| && cols[0] != "" && |line| < SIZE / 2
    ensures TokenPoint(line) == Some((ColumnValue(cols[7]), ColumnValue(cols[8])))
  {
    SkipFromStart(line, cols);
    var x, q, r := PositionTabs(line, cols);
    TokenPointBetweenTabs(line, x, q, r, cols[7], cols[8]);
  }

  /**
    On a line whose first column is not empty, the column arithmetic of
    whalebone.cpp:205-223 reads the eighth and ninth columns, as splitting the
    line at its tabs does.
   */
  lemma {:induction false} TokenPointOfLine(cols: seq<string>, tail: string)
    requires forall i :: 0 <= i < |cols| ==> '\t' !in cols[i]
    requires '\t' !in tail && 9 <= |cols| && cols[0] != "" && |LogRow.Tabbed(cols) + tail| < SIZE / 2
    ensures TokenPoint(LogRow.Tabbed(cols) + tail) == LinePoint(LogRow.Tabbed(cols) + tail)
         == Some((ColumnValue(cols[7]), ColumnValue(cols[8])))
  {
    LineColumned(cols, tail);
    TokenPointOfColumns(LogRow.Tabbed(cols) + tail, cols);
    LogRow.SplitTabbed(cols, tail);
  }

  /**
    A row `writeData` wrote with valid sensors whose first column is not empty is
    put on the map at its position, whether read by the code's column
    arithmetic or by splitting it at tabs.
   */
  lemma {:induction false} SensorRowPoint(sensorTexts: seq<string>, latText: string, lngText: string)
    requires |sensorTexts| == 7 && sensorTexts[0] != ""
    requires forall j :: 0 <= j < 7 ==> LogRow.Cell(sensorTexts[j])
    requires LogRow.Cell(latText) && LogRow.Cell(lngText)
    requires |LogRow.Row(true, true, sensorTexts, latText, lngText).value| < SIZE / 2
    ensures var row := LogRow.Row(true, true, sensorTexts, latText, lngText).value;
      TokenPoint(row) == LinePoint(row) == Some((ColumnValue(latText), ColumnValue(lngText)))
  {
    var cols := LogRow.Columns(true, true, sensorTexts, latText, lngText);
    LogRow.ColumnsTabFree(true, true, sensorTexts, latText, lngText);
    TokenPointOfLine(cols, "\n");
  }

  /**
    A row `writeData` wrote without sensor data starts with seven tabs. The
    first search of whalebone.cpp:207 starts at index 1, past the first tab, so
    the seven hops end one column late: even read as a whole line, the row is
    put on the map at (longitude, 0) instead of (latitude, longitude).
   */
  lemma {:induction false} GpsOnlyRowMisread(latText: string, lngText: string)
    requires LogRow.Cell(latText) && LogRow.Cell(lngText)
    requires |LogRow.Row(false, true, LogRow.NOSENSORS, latText, lngText).value| < SIZE / 2
    ensures var row := LogRow.Row(false, true, LogRow.NOSENSORS, latText, lngText).value;
      TokenPoint(row) == Some((ColumnValue(lngText), 0.0))
      && LinePoint(row) == Some((ColumnValue(latText), ColumnValue(lngText)))
  {
    var cols := LogRow.Columns(false, true, LogRow.NOSENSORS, latText, lngText);
    var line := LogRow.Tabbed(cols) + "\n";
    assert forall j :: 0 <= j < 7 ==> LogRow.Cell(LogRow.NOSENSORS[j]);
    assert TokenPoint(line) == Some((ColumnValue(lngText), Atof("\n"))) by {
      LogRow.ColumnsTabFree(false, true, LogRow.NOSENSORS, latText, lngText);
      LineColumned(cols, "\n");
      GpsOnlyColumns(line, cols);
    }
    AtofOfNonNumber("\n");
    assert LinePoint(line) == Some((ColumnValue(latText), ColumnValue(lngText))) by {
      LinePointOfRow(false, LogRow.NOSENSORS, latText, lngText);
    }
  }

  /** On a columned line whose first two columns are empty, the code reads the ninth column and the tail. */
  lemma {:induction false} GpsOnlyColumns(line: string, cols: seq<string>)
    requires Columned(line, cols) && |cols| == 9 && cols[0] == "" && cols[1] == "" && |line| < SIZE / 2
    requires '\t' !in line[ColumnStart(cols, 9)..]
    ensures TokenPoint(line) == Some((ColumnValue(cols[8]), Atof(line[ColumnStart(cols, 9)..])))
  {
    SkipFromEmptyStart(line, cols);
    var x, q := LastColumnTabs(line, cols);
    TokenPointAfterLastTab(line, x, q, cols[8], line[ColumnStart(cols, 9)..]);
  }

  /**
    The counters of `writePts`: every line read stores its latitude and longitude
    columns at ring slot `pnt`, which advances modulo `MAXPTS`, while `numpts`
    counts up to `MAXPTS`; the final read (the end of the file) is then dropped by
    `--numpts` and slots `0 .. numpts - 1` are printed. `columns` holds the two
    column texts of each loop iteration; the stream was open, so there is at
    least one. Every store and both output loops stay inside the arrays.
   */
  method WritePts(columns: seq<(string, string)>) returns (lats: seq<real>, lons: seq<real>)
    requires |columns| >= 1
    ensures |lats| == |lons| == Min(|columns|, MAXPTS) - 1
    ensures forall i :: 0 <= i < |lats| ==>
      lats[i] == ColumnValue(columns[Latest(|columns|, i)].0) && lons[i] == ColumnValue(columns[Latest(|columns|, i)].1)
  {
    var lat := new real[MAXPTS];
    var lon := new real[MAXPTS];
    var numpts, pnt := 0, 0;
    var k := 0;
    while k < |columns|
      invariant 0 <= k <= |columns|
      invariant pnt == k % MAXPTS && numpts == Min(k, MAXPTS)
      invariant lat != lon && lat.Length == lon.Length == MAXPTS
      invariant RingHolds(lat, lon, columns, k)
    {
      StorePoint(lat, lon, columns, k);
      RingStep(k);
      pnt := (pnt + 1) % MAXPTS;
      if numpts < MAXPTS {
        numpts := numpts + 1;
      }
      k := k + 1;
    }
    numpts := numpts - 1;
    lats := lat[..numpts];
    lons := lon[..numpts];
  }

  /** Each of the first `Min(k, MAXPTS)` slots holds the columns of the latest of the first `k` lines stored there. */
  ghost predicate RingHolds(lat: array<real>, lon: array<real>, columns: seq<(string, string)>, k: nat)
    reads lat, lon
  {
    k <= |columns| && Min(k, MAXPTS) <= lat.Length && Min(k, MAXPTS) <= lon.Length
    && forall i :: 0 <= i < Min(k, MAXPTS) ==>
         lat[i] == ColumnValue(columns[Latest(k, i)].0) && lon[i] == ColumnValue(columns[Latest(k, i)].1)
  }

  /** One pass of the `writePts` read loop: line `k` is stored at slot `k % MAXPTS`. */
  method StorePoint(lat: array<real>, lon: array<real>, columns: seq<(string, string)>, k: nat)
    requires lat != lon && lat.Length == lon.Length == MAXPTS && k < |columns|
    requires RingHolds(lat, lon, columns, k)
    modifies lat, lon
    ensures RingHolds(lat, lon, columns, k + 1)
    ensures lat[..] == old(lat[..])[k % MAXPTS := ColumnValue(columns[k].0)]
    ensures lon[..] == old(lon[..])[k % MAXPTS := ColumnValue(columns[k].1)]
  {
    var pnt := k % MAXPTS;
    lat[pnt] := ColumnValue(columns[k].0);
    lon[pnt] := ColumnValue(columns[k].1);
    forall i | 0 <= i < Min(k + 1, MAXPTS)
      ensures lat[i] == ColumnValue(columns[Latest(k + 1, i)].0) && lon[i] == ColumnValue(columns[Latest(k + 1, i)].1)
    {
      LatestStep(k, i);
    }
  }

  /** Storing line `k` at slot `k % MAXPTS` changes the latest line of that slot only. */
  lemma LatestStep(k: nat, slot: nat)
    requires slot < k + 1 && slot < MAXPTS
    ensures Latest(k + 1, slot) == if slot == k % MAXPTS then k else Latest(k, slot)
  {
    if slot != k % MAXPTS {
      assert slot != k;
    }
  }

  /** Advancing `pnt` modulo `MAXPTS` keeps it equal to the number of stores modulo `MAXPTS`. */
  lemma RingStep(k: nat)
    ensures (k % MAXPTS + 1) % MAXPTS == (k + 1) % MAXPTS
    ensures Min(k + 1, MAXPTS) == if Min(k, MAXPTS) < MAXPTS then Min(k, MAXPTS) + 1 else MAXPTS
  {
  }

  /** Until the ring wraps, slot `i` holds line `i`, so the map shows every line but the last in file order. */
  lemma PointsInFileOrderBeforeWrap(k: nat, i: nat)
    requires i < k <= MAXPTS
    ensures Latest(k, i) == i
  {
    var j := Latest(k, i);
    assert j < MAXPTS;
  }

  /**
    Once more than `MAXPTS` lines were read, `--numpts` no longer drops the
    end-of-file read: it stays on the map unless it happens to sit in the last slot.
   */
  lemma EndOfFileReadShownAfterWrap(k: nat)
    requires k > MAXPTS && (k - 1) % MAXPTS < MAXPTS - 1
    ensures (k - 1) % MAXPTS < Min(k, MAXPTS) - 1 && Latest(k, (k - 1) % MAXPTS) == k - 1
  {
  }
}
