/**
 * The catalog's timestamp: `time.strftime('%Y%m%d-%H%M%S', time.gmtime())`.
 * The clock is injected as a broken-down UTC time; formatting is a pure function of it.
 */
module Timestamp {
  import opened Values

  /** Broken-down UTC time, the fields of the struct that time.gmtime() returns. */
  datatype DateTime = DateTime(year: nat, month: nat, day: nat, hour: nat, minute: nat, second: nat)

  /** The ranges gmtime() produces (second 61 is allowed, as in C's struct tm). */
  predicate ValidTime(t: DateTime) {
    1 <= t.month <= 12 && 1 <= t.day <= 31 && t.hour < 24 && t.minute < 60 && t.second <= 61
  }

  /** A year that %Y renders with exactly four digits. */
  predicate FourDigitYear(t: DateTime) {
    1000 <= t.year <= 9999
  }

  predicate IsDigit(c: char) {
    '0' <= c <= '9'
  }

  predicate AllDigits(s: string) {
    forall i :: 0 <= i < |s| ==> IsDigit(s[i])
  }

  function DigitChar(d: nat): (c: char)
    requires d < 10
    ensures IsDigit(c)
  {
    ('0' as int + d) as char
  }

  function DigitValue(c: char): (d: nat)
    requires IsDigit(c)
    ensures d < 10 && DigitChar(d) == c
  {
    c as int - '0' as int
  }

  /** The decimal text of n without padding, as C's %d prints it. */
  function Decimal(n: nat): (s: string)
    ensures 1 <= |s| && AllDigits(s)
  {
    if n < 10 then [DigitChar(n)] else Decimal(n / 10) + [DigitChar(n % 10)]
  }

  /** The value of a string of decimal digits. */
  function ParseDecimal(s: string): nat
    requires AllDigits(s)
  {
    if |s| == 0 then 0 else 10 * ParseDecimal(s[..|s| - 1]) + DigitValue(s[|s| - 1])
  }

  lemma {:induction false} DecimalRoundTrip(n: nat)
    ensures ParseDecimal(Decimal(n)) == n
  {
    if n >= 10 {
      var s := Decimal(n);
      assert s[..|s| - 1] == Decimal(n / 10);
      DecimalRoundTrip(n / 10);
    }
  }

  lemma {:induction false} DecimalLength(n: nat)
    ensures (n < 10 ==> |Decimal(n)| == 1)
    ensures 10 <= n < 100 ==> |Decimal(n)| == 2
    ensures 100 <= n < 1000 ==> |Decimal(n)| == 3
    ensures 1000 <= n < 10000 ==> |Decimal(n)| == 4
  {
    if n >= 10 {
      DecimalLength(n / 10);
    }
  }

  /** %02d: at least two digits, zero-padded on the left. */
  function Pad2(n: nat): (s: string)
    ensures AllDigits(s)
    ensures n < 100 ==> |s| == 2
  {
    DecimalLength(n);
    if n < 10 then ['0'] + Decimal(n) else Decimal(n)
  }

  lemma Pad2RoundTrip(n: nat)
    requires n < 100
    ensures ParseDecimal(Pad2(n)) == n
  {
    DecimalRoundTrip(n);
    if n < 10 {
      assert Pad2(n)[..1] == ['0'];
    }
  }

  /** BaseDataManager.TimestampFormat, '%Y%m%d-%H%M%S', applied to t. */
  function Format(t: DateTime): (s: string)
    ensures ValidTime(t) && FourDigitYear(t) ==> |s| == 15 && s[8] == '-'
  {
    DecimalLength(t.year);
    Decimal(t.year) + Pad2(t.month) + Pad2(t.day) + "-" + Pad2(t.hour) + Pad2(t.minute) + Pad2(t.second)
  }

  /** Reads a 15-character '%Y%m%d-%H%M%S' stamp back into its fields. */
  function Parse(s: string): Option<DateTime> {
    if |s| == 15 && s[8] == '-' && AllDigits(s[..8]) && AllDigits(s[9..]) then
      Some(DateTime(ParseDecimal(s[..4]), ParseDecimal(s[4..6]), ParseDecimal(s[6..8]),
                    ParseDecimal(s[9..11]), ParseDecimal(s[11..13]), ParseDecimal(s[13..])))
    else
      None
  }

  lemma AllDigitsAppend(a: string, b: string)
    requires AllDigits(a) && AllDigits(b)
    ensures AllDigits(a + b)
  {
    assert forall i :: |a| <= i < |a + b| ==> (a + b)[i] == b[i - |a|];
  }

  /** Cutting `y + mo + d` back into its three pieces. */
  lemma ThreePieces<T>(x: seq<T>, y: seq<T>, z: seq<T>)
    ensures (x + y + z)[..|x|] == x
    ensures (x + y + z)[|x|..|x| + |y|] == y
    ensures (x + y + z)[|x| + |y|..] == z
  {
    assert x + y + z == x + (y + z);
  }

  /** Cutting a stamp at its separator. */
  lemma AroundSeparator<T>(x: seq<T>, y: seq<T>, z: seq<T>, sep: seq<T>, u: seq<T>, v: seq<T>, w: seq<T>)
    requires |sep| == 1
    ensures x + y + z + sep + u + v + w == (x + y + z) + sep + (u + v + w)
    ensures ((x + y + z) + sep + (u + v + w))[..|x + y + z|] == x + y + z
    ensures ((x + y + z) + sep + (u + v + w))[|x + y + z| + 1..] == u + v + w
  {
  }

  /** Every stamp the catalog writes for a four-digit year reads back as the time it was made from. */
  lemma FormatRoundTrip(t: DateTime)
    requires ValidTime(t) && FourDigitYear(t)
    ensures Parse(Format(t)) == Some(t)
  {
    DecimalLength(t.year);
    var y, mo, d := Decimal(t.year), Pad2(t.month), Pad2(t.day);
    var h, mi, se := Pad2(t.hour), Pad2(t.minute), Pad2(t.second);
    var s := Format(t);
    var date, clock := y + mo + d, h + mi + se;
    AroundSeparator(y, mo, d, "-", h, mi, se);
    assert s == date + "-" + clock;
    assert s[..8] == date && s[9..] == clock;
    ThreePieces(y, mo, d);
    ThreePieces(h, mi, se);
    assert s[..4] == y && s[4..6] == mo && s[6..8] == d;
    assert s[9..11] == h && s[11..13] == mi && s[13..] == se;
    AllDigitsAppend(y, mo);
    AllDigitsAppend(y + mo, d);
    AllDigitsAppend(h, mi);
    AllDigitsAppend(h + mi, se);
    DecimalRoundTrip(t.year);
    Pad2RoundTrip(t.month);
    Pad2RoundTrip(t.day);
    Pad2RoundTrip(t.hour);
    Pad2RoundTrip(t.minute);
    Pad2RoundTrip(t.second);
  }

  /** Distinct times give distinct stamps. */
  lemma FormatInjective(t: DateTime, u: DateTime)
    requires ValidTime(t) && FourDigitYear(t) && ValidTime(u) && FourDigitYear(u)
    requires Format(t) == Format(u)
    ensures t == u
  {
    FormatRoundTrip(t);
    FormatRoundTrip(u);
  }
}
