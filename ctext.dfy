/**
  The C and C++ text primitives the ground station is built on, stated on Dafny
  strings: `std::string::find` (with `npos` as `None`), a `char[]` read as a C
  string, `operator>>` into a `std::string`, `atof`, and the two byte casts.
  A C++ `char` is identified with the character whose code is its byte.
 */
module CText {
  import opened Wrappers

  /** An `unsigned char`. */
  newtype Byte = b: int | 0 <= b < 256

  /** `static_cast<unsigned char>(c)`: the low eight bits of the character code. */
  function ByteOf(c: char): (b: Byte)
    ensures c as int < 256 ==> b as int == c as int
  {
    (c as int % 256) as Byte
  }

  /** `static_cast<char>(b)`: the character with that code. */
  function CharOf(b: Byte): (c: char)
    ensures c as int == b as int
  {
    (b as int) as char
  }

  /** The two casts undo each other on eight-bit characters. */
  lemma CastsRoundTrip(b: Byte, c: char)
    ensures ByteOf(CharOf(b)) == b
    ensures c as int < 256 ==> CharOf(ByteOf(c)) == c
  {
  }

  /** `s.find(c, from)`: the first index at or after `from` holding `c`; `None` is `npos`. */
  function FindChar(s: string, c: char, from: nat): (r: Option<nat>)
    decreases |s| - from
    ensures r.Some? ==> from <= r.value < |s| && s[r.value] == c
    ensures r.Some? ==> forall i :: from <= i < r.value ==> s[i] != c
    ensures r.None? ==> forall i :: from <= i < |s| ==> s[i] != c
  {
    if from >= |s| then None
    else if s[from] == c then Some(from)
    else FindChar(s, c, from + 1)
  }

  /** `t` occurs in `s` starting at index `i`. */
  predicate Occurs(s: string, t: string, i: nat)
  {
    i + |t| <= |s| && s[i..i + |t|] == t
  }

  /** Where `t` occurs, each of its characters is found at its offset. */
  lemma OccursAt(s: string, t: string, i: nat, j: nat)
    requires Occurs(s, t, i) && j < |t|
    ensures s[i + j] == t[j]
  {
    assert s[i..i + |t|][j] == t[j];
  }

  /** `s.find(t, from)`: the first index at or after `from` where `t` occurs. */
  function FindText(s: string, t: string, from: nat): (r: Option<nat>)
    decreases |s| - from
    ensures r.Some? ==> from <= r.value && Occurs(s, t, r.value)
    ensures r.Some? ==> forall i :: from <= i < r.value ==> !Occurs(s, t, i)
    ensures r.None? ==> forall i :: from <= i ==> !Occurs(s, t, i)
  {
    if from + |t| > |s| then None
    else if s[from..from + |t|] == t then Some(from)
    else FindText(s, t, from + 1)
  }

  /** A `char[]` read as a C string (`string s = arr;`): everything before the first NUL. */
  function CString(chars: seq<char>): (r: string)
    ensures |r| <= |chars| && r == chars[..|r|] && '\0' !in r
    ensures |r| < |chars| ==> chars[|r|] == '\0'
  {
    match FindChar(chars, '\0', 0)
    case None => chars
    case Some(k) => chars[..k]
  }

  /** Bytes after a NUL do not change the C string, so a NUL-filled tail can be dropped. */
  lemma CStringPadded(chars: seq<char>, pad: seq<char>)
    requires 0 < |pad| && pad[0] == '\0'
    ensures CString(chars + pad) == CString(chars)
  {
    var s := chars + pad;
    match FindChar(chars, '\0', 0)
    case None =>
      assert FindChar(s, '\0', 0) == Some(|chars|) by {
        assert s[|chars|] == '\0';
      }
      assert s[..|chars|] == chars;
    case Some(k) =>
      assert forall i :: 0 <= i < k ==> s[i] == chars[i];
      assert s[k] == chars[k];
      assert FindChar(s, '\0', 0) == Some(k);
      assert s[..k] == chars[..k];
  }

  /**
    How a C++ function ends: it returns, or an exception that no `catch` of its
    own matches (an `std::out_of_range` from `at`, `substr` or `erase` where only
    `string` is caught) unwinds out of it.
   */
  datatype Exit = Returned | Unwound

  /**
    `s.substr(pos, len)`: throws `std::out_of_range` (here `None`) when `pos`
    is past the end, and otherwise clamps the length to what is left.
   */
  function Substr(s: string, pos: nat, len: nat): (r: Option<string>)
    ensures r.None? <==> pos > |s|
    ensures r.Some? ==> |r.value| == (if len <= |s| - pos then len else |s| - pos)
    ensures r.Some? ==> r.value == s[pos..pos + |r.value|]
  {
    if pos > |s| then None
    else if pos + len <= |s| then Some(s[pos..pos + len])
    else Some(s[pos..])
  }

  /** The length of the longest prefix of `s` whose characters all satisfy `keep`. */
  function Span(s: string, keep: char -> bool): (n: nat)
    ensures n <= |s|
    ensures forall i :: 0 <= i < n ==> keep(s[i])
    ensures n < |s| ==> !keep(s[n])
  {
    if |s| == 0 || !keep(s[0]) then 0 else 1 + Span(s[1..], keep)
  }

  /** The characters `isspace` accepts: blank, tab, newline, vertical tab, form feed, return. */
  predicate IsSpace(c: char)
  {
    c == ' ' || 9 <= c as int <= 13
  }

  predicate IsWordChar(c: char)
  {
    !IsSpace(c)
  }

  /**
    `in >> token` on a stream holding `s`: leading white space is skipped and the
    token runs up to the next white space or the end. Nothing is read from a
    stream that is empty, blank or failed to open, so the token stays empty.
   */
  function FirstToken(s: string): (token: string)
    ensures forall i :: 0 <= i < |token| ==> !IsSpace(token[i])
    ensures var k := Span(s, IsSpace);
      k + |token| <= |s| && s[k..k + |token|] == token
      && (forall i :: 0 <= i < k ==> IsSpace(s[i]))
      && (k + |token| < |s| ==> IsSpace(s[k + |token|]))
  {
    var k := Span(s, IsSpace);
    var rest := s[k..];
    rest[..Span(rest, IsWordChar)]
  }

  predicate IsDigit(c: char)
  {
    '0' <= c <= '9'
  }

  predicate AllDigits(s: string)
  {
    forall i :: 0 <= i < |s| ==> IsDigit(s[i])
  }

  function DigitValue(c: char): (d: nat)
    requires IsDigit(c)
    ensures d <= 9
  {
    c as int - '0' as int
  }

  /** The value of a run of decimal digits, most significant first. */
  function Whole(s: string): nat
    requires AllDigits(s)
  {
    if |s| == 0 then 0 else 10 * Whole(s[..|s| - 1]) + DigitValue(s[|s| - 1])
  }

  /** The value of the digits written after a decimal point: 0.d1d2d3... */
  function Fraction(s: string): (r: real)
    requires AllDigits(s)
    ensures 0.0 <= r < 1.0
  {
    if |s| == 0 then 0.0 else (DigitValue(s[0]) as real + Fraction(s[1..])) / 10.0
  }

  /** An unsigned decimal number at the start of `s`: digits, then optionally `.` and digits. */
  function Magnitude(s: string): (r: real)
    ensures r >= 0.0
  {
    var n := Span(s, IsDigit);
    var rest := s[n..];
    var frac := if |rest| > 0 && rest[0] == '.' then rest[1..][..Span(rest[1..], IsDigit)] else "";
    Whole(s[..n]) as real + Fraction(frac)
  }

  /**
    `atof` restricted to the grammar the station meets: an optional sign, digits,
    optionally `.` and digits, read up to the first character outside that grammar;
    0 when no digit is read.
   */
  function Atof(s: string): real
  {
    if |s| > 0 && s[0] == '-' then -Magnitude(s[1..])
    else if |s| > 0 && s[0] == '+' then Magnitude(s[1..])
    else Magnitude(s)
  }

  /** A run made only of digits reads as its positional value. */
  lemma AtofOfDigits(s: string)
    requires AllDigits(s)
    ensures Atof(s) == Whole(s) as real
  {
    assert Span(s, IsDigit) == |s|;
    assert s[..|s|] == s;
  }

  /** `digits.digits` reads as the whole part plus the fraction. */
  lemma AtofOfDecimal(s: string, k: nat)
    requires k < |s| && s[k] == '.'
    requires AllDigits(s[..k]) && AllDigits(s[k + 1..])
    ensures Atof(s) == Whole(s[..k]) as real + Fraction(s[k + 1..])
  {
    assert forall i :: 0 <= i < k ==> IsDigit(s[..k][i]);
    assert Span(s, IsDigit) == k;
    var frac := s[k + 1..];
    assert Span(frac, IsDigit) == |frac|;
    assert s[k..][1..] == frac && frac[..|frac|] == frac;
  }

  /** Text that starts with neither a sign, a digit nor a decimal point reads as 0. */
  lemma AtofOfNonNumber(s: string)
    requires |s| > 0 && s[0] !in "+-." && !IsDigit(s[0])
    ensures Atof(s) == 0.0
  {
    assert Span(s, IsDigit) == 0;
    assert s[..0] == "";
  }
}
