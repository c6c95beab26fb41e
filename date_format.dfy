/** The `ShiftDate` text of a row: day, month and year of the date in
    plain decimal without zero padding, separated by slashes. A parser for
    that text is given beside it as its inverse, and shows that different
    dates never share a `ShiftDate`. */
module DateFormat {
  import opened Text
  import opened Calendar

  datatype Option<T> = None | Some(value: T)

  predicate IsDigit(c: char) {
    '0' <= c <= '9'
  }

  predicate AllDigits(s: string) {
    forall k :: 0 <= k < |s| ==> IsDigit(s[k])
  }

  function DigitChar(n: int): (c: char)
    requires 0 <= n < 10
    ensures IsDigit(c)
  {
    ('0' as int + n) as char
  }

  function DigitValue(c: char): (n: int)
    requires IsDigit(c)
    ensures 0 <= n < 10
  {
    c as int - '0' as int
  }

  /** Python's `str(n)` for a non-negative integer: at least one digit, and
      no leading zero unless the number is zero itself. */
  function Decimal(n: nat): (s: string)
    ensures |s| >= 1 && AllDigits(s)
    ensures n > 0 ==> s[0] != '0'
  {
    if n < 10 then [DigitChar(n)] else Decimal(n / 10) + [DigitChar(n % 10)]
  }

  /** The value of a string of decimal digits. */
  function DecimalValue(s: string): nat
    requires AllDigits(s)
  {
    if s == [] then 0
    else DecimalValue(s[..|s| - 1]) * 10 + DigitValue(s[|s| - 1])
  }

  /** Reading back what `Decimal` writes gives the number. */
  lemma {:induction false} DecimalRoundTrip(n: nat)
    ensures DecimalValue(Decimal(n)) == n
  {
    if n >= 10 {
      DecimalRoundTrip(n / 10);
      var s := Decimal(n);
      assert s[..|s| - 1] == Decimal(n / 10);
    } else {
      assert Decimal(n)[..0] == [];
    }
  }

  /** `ShiftDate` of a row for the date `d`. */
  function FormatDate(d: Date): (s: string)
    requires Valid(d)
  {
    Decimal(d.day) + "/" + Decimal(d.month) + "/" + Decimal(d.year)
  }

  /** Reads a `D/M/YYYY` text back into a date. */
  function ParseDate(s: string): Option<Date> {
    var parts := Split(s, '/');
    if |parts| == 3 && AllDigits(parts[0]) && AllDigits(parts[1]) && AllDigits(parts[2])
    then Some(Date(DecimalValue(parts[2]), DecimalValue(parts[1]), DecimalValue(parts[0])))
    else None
  }

  lemma DecimalHasNoSlash(n: nat)
    ensures '/' !in Decimal(n)
  {
    var s := Decimal(n);
    forall k | 0 <= k < |s| ensures s[k] != '/' {
      assert IsDigit(s[k]);
    }
  }

  /** `ShiftDate` is three unpadded decimal fields, day first, that read
      back as the date. */
  lemma FormatDateFields(d: Date)
    requires Valid(d)
    ensures Split(FormatDate(d), '/') == [Decimal(d.day), Decimal(d.month), Decimal(d.year)]
    ensures Decimal(d.day)[0] != '0' && Decimal(d.month)[0] != '0' && Decimal(d.year)[0] != '0'
  {
    var parts := [Decimal(d.day), Decimal(d.month), Decimal(d.year)];
    DecimalHasNoSlash(d.day);
    DecimalHasNoSlash(d.month);
    DecimalHasNoSlash(d.year);
    SplitJoin(parts, '/');
    assert parts[1..][1..] == [Decimal(d.year)];
    assert Join(parts[1..], '/') == Decimal(d.month) + ['/'] + Decimal(d.year);
    assert Join(parts, '/') == Decimal(d.day) + ['/'] + (Decimal(d.month) + ['/'] + Decimal(d.year));
    assert FormatDate(d) == Decimal(d.day) + ['/'] + (Decimal(d.month) + ['/'] + Decimal(d.year));
  }

  /** Reading back a `ShiftDate` gives the date it was written for. */
  lemma FormatDateRoundTrip(d: Date)
    requires Valid(d)
    ensures ParseDate(FormatDate(d)) == Some(d)
  {
    FormatDateFields(d);
    DecimalRoundTrip(d.day);
    DecimalRoundTrip(d.month);
    DecimalRoundTrip(d.year);
  }

  /** Different dates get different `ShiftDate` texts. */
  lemma FormatDateInjective(a: Date, b: Date)
    requires Valid(a) && Valid(b)
    ensures FormatDate(a) == FormatDate(b) <==> a == b
  {
    FormatDateRoundTrip(a);
    FormatDateRoundTrip(b);
  }
}
