/** Decimal integer text as the level file uses it: `operator<<` on an `int`
    for writing, and `operator>>` into an `int` for reading, plus splitting
    text at a delimiter to describe the file's line and column layout. */
module Text {

  import opened Wrappers
  import opened Codes

  /** The characters `isspace` accepts in the "C" locale, which `operator>>`
      skips before a number. */
  predicate IsSpace(ch: char) {
    ch == ' ' || ch == '\t' || ch == '\n' || ch == '\U{0B}' || ch == '\U{0C}' || ch == '\r'
  }

  predicate IsDigit(ch: char) {
    '0' <= ch <= '9'
  }

  predicate AllDigits(s: string) {
    forall i :: 0 <= i < |s| ==> IsDigit(s[i])
  }

  /** True when a digit run is not continued by `rest`. */
  predicate EndsNumber(rest: string) {
    |rest| == 0 || !IsDigit(rest[0])
  }

  function DigitChar(d: int): (ch: char)
    requires 0 <= d < 10
    ensures IsDigit(ch)
  {
    ('0' as int + d) as char
  }

  function DigitValue(ch: char): int
  {
    ch as int - '0' as int
  }

  /** Decimal digits of a natural number, most significant first, no
      leading zeros. */
  function NatToString(n: nat): (s: string)
    ensures |s| > 0 && AllDigits(s)
    ensures n > 0 ==> s[0] != '0'
    ensures n == 0 ==> s == "0"
  {
    if n < 10 then [DigitChar(n)] else NatToString(n / 10) + [DigitChar(n % 10)]
  }

  /** `operator<<` on an `int`: an optional '-' and the digits. */
  function IntToString(v: int): (s: string)
    ensures |s| > 0
    ensures v >= 0 ==> AllDigits(s)
    ensures v < 0 ==> s[0] == '-' && |s| > 1 && AllDigits(s[1..])
    ensures v == 0 ==> s == "0"
    ensures v > 0 ==> s[0] != '0'
    ensures v < 0 ==> s[1] != '0'
  {
    if v < 0 then "-" + NatToString(-v) else NatToString(v)
  }

  /** A printed number holds no white space, so it is one token. */
  lemma PrintedHasNoSpace(v: int)
    ensures forall i :: 0 <= i < |IntToString(v)| ==> !IsSpace(IntToString(v)[i])
  {
  }

  /** Value of a digit string read most significant first. */
  function ParseNat(ds: string): int
  {
    if |ds| == 0 then 0 else ParseNat(ds[..|ds| - 1]) * 10 + DigitValue(ds[|ds| - 1])
  }

  predicate EndsSpaces(t: string) {
    |t| == 0 || !IsSpace(t[0])
  }

  /** Length of the run of digits at the front of `s`. */
  function DigitRun(s: string): (k: nat)
    ensures k <= |s|
  {
    if |s| > 0 && IsDigit(s[0]) then 1 + DigitRun(s[1..]) else 0
  }

  /** The run is all digits and is not followed by another digit. */
  lemma {:induction false} DigitRunIsMaximal(s: string)
    ensures AllDigits(s[..DigitRun(s)]) && EndsNumber(s[DigitRun(s)..])
  {
    if |s| > 0 && IsDigit(s[0]) {
      DigitRunIsMaximal(s[1..]);
      var k := DigitRun(s);
      assert s[..k] == [s[0]] + s[1..][..k - 1];
      assert s[k..] == s[1..][k - 1..];
    }
  }

  /** `operator>>` into an `int`: skip white space, then read a number. */
  function ReadInt(s: string): (res: Option<(int, string)>)
    ensures res.Some? ==> InInt32(res.value.0)
    ensures res.Some? ==> |res.value.1| < |s|
    decreases |s|
  {
    if |s| > 0 && IsSpace(s[0]) then ReadInt(s[1..]) else ReadNumber(s)
  }

  /** The number at the front of `t`: an optional sign and the longest run
      of decimal digits. It fails when there is no digit or the value does
      not fit in an `int`; otherwise it yields the value and the text after
      the digits. */
  function ReadNumber(t: string): (res: Option<(int, string)>)
    ensures res.Some? ==> InInt32(res.value.0)
    ensures res.Some? ==> |res.value.1| < |t|
  {
    var signLen := if |t| > 0 && (t[0] == '-' || t[0] == '+') then 1 else 0;
    var u := t[signLen..];
    var k := DigitRun(u);
    if k == 0 then None
    else
      var magnitude := ParseNat(u[..k]);
      var v: int := if signLen == 1 && t[0] == '-' then -magnitude else magnitude;
      if InInt32(v) then Some((v, u[k..])) else None
  }

  lemma {:induction false} ParsePrinted(n: nat)
    ensures ParseNat(NatToString(n)) == n
  {
    if n >= 10 {
      var s := NatToString(n);
      assert s[..|s| - 1] == NatToString(n / 10);
      ParsePrinted(n / 10);
    }
  }

  lemma {:induction false} DigitRunOfDigits(d: string, rest: string)
    requires AllDigits(d) && EndsNumber(rest)
    ensures DigitRun(d + rest) == |d|
  {
    if |d| > 0 {
      assert (d + rest)[1..] == d[1..] + rest;
      DigitRunOfDigits(d[1..], rest);
    }
  }

  /** The digits of a natural number followed by a non-digit are read back
      as that number. */
  lemma ReadNatDigits(n: nat, rest: string)
    requires EndsNumber(rest)
    ensures var d := NatToString(n);
            DigitRun(d + rest) == |d| && ParseNat((d + rest)[..|d|]) == n && (d + rest)[|d|..] == rest
  {
    var d := NatToString(n);
    ParsePrinted(n);
    DigitRunOfDigits(d, rest);
    assert (d + rest)[..|d|] == d;
  }

  lemma ReadNumberNat(n: nat, rest: string)
    requires n <= Int32Max && EndsNumber(rest)
    ensures ReadNumber(NatToString(n) + rest) == Some((n, rest))
  {
    var d := NatToString(n);
    ReadNatDigits(n, rest);
    assert (d + rest)[0] == d[0];
    assert (d + rest)[0..] == d + rest;
  }

  lemma ReadNumberNegative(n: nat, rest: string)
    requires 0 < n <= -Int32Min && EndsNumber(rest)
    ensures ReadNumber("-" + NatToString(n) + rest) == Some((-(n as int), rest))
  {
    var d := NatToString(n);
    ReadNatDigits(n, rest);
    assert ("-" + d + rest)[1..] == d + rest;
  }

  /** Reading back what `operator<<` wrote gives the same `int`, and stops
      right after it when the next character is not a digit. */
  lemma ReadPrinted(v: int, rest: string)
    requires InInt32(v) && EndsNumber(rest)
    ensures ReadInt(IntToString(v) + rest) == Some((v, rest))
  {
    var s := IntToString(v) + rest;
    if v < 0 {
      assert s == "-" + NatToString(-v) + rest;
      ReadNumberNegative(-v, rest);
    } else {
      assert s == NatToString(v) + rest;
      ReadNumberNat(v, rest);
    }
    ReadIntAtNumber(s);
  }

  /** Without white space in front, `operator>>` reads the number at once. */
  lemma ReadIntAtNumber(s: string)
    requires |s| > 0 && (s[0] == '-' || IsDigit(s[0]))
    ensures ReadInt(s) == ReadNumber(s)
  {
  }

  lemma ReadNumberNatTooLarge(n: nat, rest: string)
    requires n > Int32Max && EndsNumber(rest)
    ensures ReadNumber(NatToString(n) + rest).None?
  {
    var d := NatToString(n);
    ReadNatDigits(n, rest);
    assert (d + rest)[0] == d[0];
    assert (d + rest)[0..] == d + rest;
  }

  lemma ReadNumberNegativeTooLarge(n: nat, rest: string)
    requires n > -Int32Min && EndsNumber(rest)
    ensures ReadNumber("-" + NatToString(n) + rest).None?
  {
    var d := NatToString(n);
    ReadNatDigits(n, rest);
    assert ("-" + d + rest)[1..] == d + rest;
  }

  /** A numeric extraction whose number does not fit in an `int` fails. */
  lemma ReadPrintedOutOfRange(v: int, rest: string)
    requires !InInt32(v) && EndsNumber(rest)
    ensures ReadInt(IntToString(v) + rest).None?
  {
    var s := IntToString(v) + rest;
    if v < 0 {
      assert s == "-" + NatToString(-v) + rest;
      ReadNumberNegativeTooLarge(-v, rest);
    } else {
      assert s == NatToString(v) + rest;
      ReadNumberNatTooLarge(v, rest);
    }
    ReadIntAtNumber(s);
  }

  /** Text holding nothing but white space yields no number. */
  lemma {:induction false} ReadFailsOnBlank(s: string)
    requires forall i :: 0 <= i < |s| ==> IsSpace(s[i])
    ensures ReadInt(s).None?
    decreases |s|
  {
    if |s| > 0 {
      ReadFailsOnBlank(s[1..]);
    }
  }

  /** Text starting with a character that is neither white space, nor a
      digit, nor a sign directly followed by a digit yields no number. */
  lemma ReadFailsOnNonNumber(s: string)
    requires |s| > 0 && !IsSpace(s[0]) && !IsDigit(s[0])
    requires !((s[0] == '-' || s[0] == '+') && |s| > 1 && IsDigit(s[1]))
    ensures ReadInt(s).None?
  {
    var signLen := if s[0] == '-' || s[0] == '+' then 1 else 0;
    var u := s[signLen..];
    assert |u| == 0 || !IsDigit(u[0]);
    assert DigitRun(u) == 0;
  }

  lemma Regroup(a: string, ch: char, b: string)
    ensures a + [ch] + b == a + ([ch] + b)
  {
  }

  lemma Regroup3(a: string, ch: char, b: string, c: string)
    ensures a + [ch] + b + c == a + ([ch] + (b + c))
  {
  }

  /** White space in front of a number does not change what is read. */
  lemma ReadSkipsSpace(ch: char, s: string)
    requires IsSpace(ch)
    ensures ReadInt([ch] + s) == ReadInt(s)
  {
    assert ([ch] + s)[1..] == s;
  }

  /** The pieces of `s` between occurrences of `d`; there is one more piece
      than there are delimiters. */
  function Split(s: string, d: char): (pieces: seq<string>)
    ensures |pieces| > 0
    ensures forall i :: 0 <= i < |pieces| ==> d !in pieces[i]
  {
    if d !in s then [s]
    else
      var i := FirstIndex(s, d);
      [s[..i]] + Split(s[i + 1..], d)
  }

  function FirstIndex(s: string, d: char): (i: nat)
    requires d in s
    ensures i < |s| && s[i] == d && d !in s[..i]
  {
    if s[0] == d then 0
    else
      assert d in s[1..];
      var i := 1 + FirstIndex(s[1..], d);
      assert s[..i] == [s[0]] + s[1..][..i - 1];
      i
  }

  /** Splitting at the first delimiter of a text peels off the piece in
      front of it. */
  lemma SplitFront(a: string, d: char, b: string)
    requires d !in a
    ensures Split(a + [d] + b, d) == [a] + Split(b, d)
  {
    var s := a + [d] + b;
    assert s[|a|] == d;
    assert s[..|a|] == a;
    var i := FirstIndex(s, d);
    assert forall j :: 0 <= j < |a| ==> s[j] == a[j];
    assert i >= |a|;
    assert i <= |a| by {
      assert forall j :: 0 <= j < i ==> s[..i][j] == s[j];
    }
    assert s[|a| + 1..] == b;
  }
}
