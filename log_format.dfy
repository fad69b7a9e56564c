/**
 * The text write_to_log appends for one exchange:
 * `[dd.mm.yyyy hh:mm:ss] Input: <input> | Response: <response>` and a newline,
 * formatted from a broken-down local time as fprintf's %02d and %d do.
 */
module LogFormat {
  import opened Wrappers

  /** The fields of C's struct tm that the log line prints. */
  datatype Tm = Tm(tmSec: int, tmMin: int, tmHour: int, tmMday: int, tmMon: int, tmYear: int)

  /** The ranges localtime produces, with a four-digit calendar year. */
  predicate InRange(t: Tm) {
    && 0 <= t.tmSec <= 60
    && 0 <= t.tmMin <= 59
    && 0 <= t.tmHour <= 23
    && 1 <= t.tmMday <= 31
    && 0 <= t.tmMon <= 11
    && 1000 <= t.tmYear + 1900 <= 9999
  }

  predicate IsDigit(c: char) {
    '0' <= c <= '9'
  }

  predicate AllDigits(s: seq<char>) {
    forall i :: 0 <= i < |s| ==> IsDigit(s[i])
  }

  function DigitChar(d: nat): (c: char)
    requires d < 10
    ensures IsDigit(c)
  {
    ('0' as int + d) as char
  }

  function DigitValue(c: char): nat
    requires IsDigit(c)
  {
    c as int - '0' as int
  }

  function Pow10(k: nat): nat {
    if k == 0 then 1 else 10 * Pow10(k - 1)
  }

  /** The decimal digits of n, most significant first, without leading zeros. */
  function Digits(n: nat): (d: seq<char>)
    ensures d != [] && AllDigits(d)
  {
    if n < 10 then [DigitChar(n)] else Digits(n / 10) + [DigitChar(n % 10)]
  }

  /** The value of a string of decimal digits. */
  function ParseDecimal(s: seq<char>): nat
    requires AllDigits(s)
  {
    if s == [] then 0 else 10 * ParseDecimal(s[..|s| - 1]) + DigitValue(s[|s| - 1])
  }

  /** Parsing undoes Digits. */
  lemma {:induction false} ParseDigits(n: nat)
    ensures ParseDecimal(Digits(n)) == n
    decreases n
  {
    if n >= 10 {
      var d := Digits(n / 10) + [DigitChar(n % 10)];
      assert d[..|d| - 1] == Digits(n / 10);
      ParseDigits(n / 10);
    }
  }

  /** A number between 10^k and 10^(k+1) has k + 1 digits. */
  lemma {:induction false} DigitsLength(n: nat, k: nat)
    requires Pow10(k) <= n < Pow10(k + 1)
    ensures |Digits(n)| == k + 1
    decreases k
  {
    if k > 0 {
      DigitsLength(n / 10, k - 1);
    }
  }

  function Zeros(k: nat): (z: seq<char>)
    ensures |z| == k && AllDigits(z)
    ensures forall i :: 0 <= i < k ==> z[i] == '0'
  {
    seq(k, _ => '0')
  }

  /** printf's "%0<width>d": a minus sign for negatives, then zeros up to width, then the digits. */
  function FormatDecimal(n: int, width: nat): (r: seq<char>)
    ensures |r| >= width
  {
    var sign: seq<char> := if n < 0 then "-" else "";
    var digits := Digits(if n < 0 then -n else n);
    var pad := if |sign| + |digits| < width then width - |sign| - |digits| else 0;
    sign + Zeros(pad) + digits
  }

  /** %02d of a number below 100 is two digits that parse back to it. */
  lemma TwoDigitField(n: int)
    requires 0 <= n <= 99
    ensures |FormatDecimal(n, 2)| == 2 && AllDigits(FormatDecimal(n, 2))
    ensures ParseDecimal(FormatDecimal(n, 2)) == n
  {
    var f := FormatDecimal(n, 2);
    if n < 10 {
      assert f == ['0', DigitChar(n)];
      assert f[..1] == ['0'] && f[..1][..0] == [];
      assert ParseDecimal(f[..1]) == 0;
    } else {
      DigitsLength(n, 1);
      assert f == Digits(n);
      ParseDigits(n);
    }
  }

  /** %d of a four-digit year is four digits that parse back to it. */
  lemma FourDigitField(n: int)
    requires 1000 <= n <= 9999
    ensures |FormatDecimal(n, 0)| == 4 && AllDigits(FormatDecimal(n, 0))
    ensures ParseDecimal(FormatDecimal(n, 0)) == n
  {
    DigitsLength(n, 3);
    assert FormatDecimal(n, 0) == Digits(n);
    ParseDigits(n);
  }

  /** `dd.mm.yyyy`: the day, the month (tm_mon + 1) and the year (tm_year + 1900). */
  function DatePart(t: Tm): seq<char> {
    FormatDecimal(t.tmMday, 2) + "." + FormatDecimal(t.tmMon + 1, 2) + "." + FormatDecimal(t.tmYear + 1900, 0)
  }

  /** `hh:mm:ss`. */
  function TimePart(t: Tm): seq<char> {
    FormatDecimal(t.tmHour, 2) + ":" + FormatDecimal(t.tmMin, 2) + ":" + FormatDecimal(t.tmSec, 2)
  }

  /** The bracketed timestamp at the head of a log line. */
  function Timestamp(t: Tm): seq<char> {
    "[" + DatePart(t) + " " + TimePart(t) + "]"
  }

  /** The text fprintf writes for one exchange, newline included. */
  function LogLine(t: Tm, input: seq<char>, response: seq<char>): seq<char> {
    Timestamp(t) + " Input: " + input + " | Response: " + response + "\n"
  }

  /** Reads `dd.mm.yyyy` back into (tm_mday, tm_mon, tm_year). */
  function ParseDate(d: seq<char>): Option<(int, int, int)> {
    if |d| == 10 && d[2] == '.' && d[5] == '.' && AllDigits(d[0..2]) && AllDigits(d[3..5]) && AllDigits(d[6..10])
    then Some((ParseDecimal(d[0..2]), ParseDecimal(d[3..5]) - 1, ParseDecimal(d[6..10]) - 1900))
    else None
  }

  /** Reads `hh:mm:ss` back into (tm_hour, tm_min, tm_sec). */
  function ParseTime(c: seq<char>): Option<(int, int, int)> {
    if |c| == 8 && c[2] == ':' && c[5] == ':' && AllDigits(c[0..2]) && AllDigits(c[3..5]) && AllDigits(c[6..8])
    then Some((ParseDecimal(c[0..2]), ParseDecimal(c[3..5]), ParseDecimal(c[6..8])))
    else None
  }

  /** Reads a `[dd.mm.yyyy hh:mm:ss]` stamp back into the fields it was printed from. */
  function ParseTimestamp(s: seq<char>): Option<Tm> {
    if |s| == 21 && s[0] == '[' && s[11] == ' ' && s[20] == ']' then
      match (ParseDate(s[1..11]), ParseTime(s[12..20]))
      case (Some((mday, mon, year)), Some((hour, min, sec))) => Some(Tm(sec, min, hour, mday, mon, year))
      case _ => None
    else None
  }

  /** Reading back a date assembled from digit fields of the right widths. */
  lemma ParseAssembledDate(dd: seq<char>, mm: seq<char>, yyyy: seq<char>)
    requires |dd| == 2 && |mm| == 2 && |yyyy| == 4
    requires AllDigits(dd) && AllDigits(mm) && AllDigits(yyyy)
    ensures ParseDate(dd + "." + mm + "." + yyyy) == Some((ParseDecimal(dd), ParseDecimal(mm) - 1, ParseDecimal(yyyy) - 1900))
  {
    var q := dd + ".";
    var p := q + mm + ".";
    var d := p + yyyy;
    assert d[6..10] == yyyy;
    assert d[..6] == p;
    assert p[..3] == q && p[3..5] == mm;
    assert d[0..2] == dd;
    assert d[3..5] == mm;
    assert d[2] == '.' && d[5] == '.';
  }

  /** Reading back a time assembled from two-digit fields. */
  lemma ParseAssembledTime(hh: seq<char>, mi: seq<char>, ss: seq<char>)
    requires |hh| == 2 && |mi| == 2 && |ss| == 2
    requires AllDigits(hh) && AllDigits(mi) && AllDigits(ss)
    ensures ParseTime(hh + ":" + mi + ":" + ss) == Some((ParseDecimal(hh), ParseDecimal(mi), ParseDecimal(ss)))
  {
    var q := hh + ":";
    var p := q + mi + ":";
    var c := p + ss;
    assert c[6..8] == ss;
    assert c[..6] == p;
    assert p[..3] == q && p[3..5] == mi;
    assert c[0..2] == hh;
    assert c[3..5] == mi;
    assert c[2] == ':' && c[5] == ':';
  }

  lemma DateRoundTrip(t: Tm)
    requires InRange(t)
    ensures |DatePart(t)| == 10
    ensures ParseDate(DatePart(t)) == Some((t.tmMday, t.tmMon, t.tmYear))
  {
    TwoDigitField(t.tmMday);
    TwoDigitField(t.tmMon + 1);
    FourDigitField(t.tmYear + 1900);
    ParseAssembledDate(FormatDecimal(t.tmMday, 2), FormatDecimal(t.tmMon + 1, 2), FormatDecimal(t.tmYear + 1900, 0));
  }

  lemma TimeRoundTrip(t: Tm)
    requires InRange(t)
    ensures |TimePart(t)| == 8
    ensures ParseTime(TimePart(t)) == Some((t.tmHour, t.tmMin, t.tmSec))
  {
    TwoDigitField(t.tmHour);
    TwoDigitField(t.tmMin);
    TwoDigitField(t.tmSec);
    ParseAssembledTime(FormatDecimal(t.tmHour, 2), FormatDecimal(t.tmMin, 2), FormatDecimal(t.tmSec, 2));
  }

  /** For the times localtime produces, the stamp is 21 characters wide and parses back to the same time. */
  lemma TimestampRoundTrip(t: Tm)
    requires InRange(t)
    ensures |Timestamp(t)| == 21
    ensures ParseTimestamp(Timestamp(t)) == Some(t)
  {
    DateRoundTrip(t);
    TimeRoundTrip(t);
    var s := Timestamp(t);
    assert s[1..11] == DatePart(t) && s[12..20] == TimePart(t);
  }

  /**
   * A log line is the stamp, then " Input: " and the input verbatim, then
   * " | Response: ", the response verbatim and one newline.
   */
  lemma LogLineLayout(t: Tm, input: seq<char>, response: seq<char>)
    requires InRange(t)
    ensures var line := LogLine(t, input, response);
      && ParseTimestamp(line[..21]) == Some(t)
      && line[21..29] == " Input: "
      && line[29..29 + |input|] == input
      && line[29 + |input|..] == " | Response: " + response + "\n"
  {
    TimestampRoundTrip(t);
    var line := LogLine(t, input, response);
    assert line == Timestamp(t) + " Input: " + input + (" | Response: " + response + "\n");
    assert line[..21] == Timestamp(t);
  }
}
