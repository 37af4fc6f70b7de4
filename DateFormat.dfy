/**
  The folder names Retrieve.py builds with `strftime`: `%Y` for the year
  folder and `%Y-%m-%d` for the day folder, each field zero-padded to its
  width. A parser for day-folder names shows that the format loses nothing.
*/
module DateFormat {
  import opened Calendar

  predicate IsDigit(c: char) {
    '0' <= c <= '9'
  }

  predicate AllDigits(s: string) {
    forall i :: 0 <= i < |s| ==> IsDigit(s[i])
  }

  function DigitChar(k: int): (c: char)
    requires 0 <= k < 10
    ensures IsDigit(c)
  {
    (('0' as int) + k) as char
  }

  function DigitValue(c: char): int {
    (c as int) - ('0' as int)
  }

  function Pow10(w: nat): nat {
    if w == 0 then 1 else 10 * Pow10(w - 1)
  }

  /** The last `width` decimal digits of `n`, with leading zeros. */
  function Pad(n: nat, width: nat): (s: string)
    ensures |s| == width && AllDigits(s)
  {
    if width == 0 then "" else Pad(n / 10, width - 1) + [DigitChar(n % 10)]
  }

  /** The number a string of decimal digits denotes. */
  function DecimalValue(s: string): nat
    requires AllDigits(s)
  {
    if s == [] then 0 else 10 * DecimalValue(s[..|s| - 1]) + DigitValue(s[|s| - 1])
  }

  /** Padding keeps every number that fits its width. */
  lemma {:induction false} PadRoundTrip(n: nat, width: nat)
    requires n < Pow10(width)
    ensures DecimalValue(Pad(n, width)) == n
  {
    if width > 0 {
      var s := Pad(n, width);
      assert s[..|s| - 1] == Pad(n / 10, width - 1);
      PadRoundTrip(n / 10, width - 1);
    }
  }

  /** `date.strftime('%Y')`: four digits that read back as the year. */
  function YearName(d: Date): (s: string)
    requires ValidDate(d)
    ensures |s| == 4 && AllDigits(s) && DecimalValue(s) == d.year
  {
    assert Pow10(4) == 10000;
    PadRoundTrip(d.year, 4);
    Pad(d.year, 4)
  }

  /**
    `date.strftime('%Y-%m-%d')`: ten characters, digits with dashes at
    positions 4 and 7, so never a path separator.
  */
  function DateName(d: Date): (s: string)
    requires ValidDate(d)
    ensures |s| == 10 && s[4] == '-' && s[7] == '-'
    ensures forall i :: 0 <= i < |s| && i != 4 && i != 7 ==> IsDigit(s[i])
  {
    var y, m, dd := Pad(d.year, 4), Pad(d.month, 2), Pad(d.day, 2);
    var s := y + "-" + m + "-" + dd;
    assert forall i :: 0 <= i < 4 ==> s[i] == y[i];
    assert forall i :: 5 <= i < 7 ==> s[i] == m[i - 5];
    assert forall i :: 8 <= i < 10 ==> s[i] == dd[i - 8];
    s
  }

  predicate IsDateNameShape(s: string) {
    && |s| == 10
    && AllDigits(s[..4]) && AllDigits(s[5..7]) && AllDigits(s[8..])
  }

  /** Reads a `%Y-%m-%d` name back into a date. */
  function ParseDateName(s: string): Date
    requires IsDateNameShape(s)
  {
    Date(DecimalValue(s[..4]), DecimalValue(s[5..7]), DecimalValue(s[8..]))
  }

  /** Every valid date is read back from its day-folder name. */
  lemma DateNameRoundTrip(d: Date)
    requires ValidDate(d)
    ensures IsDateNameShape(DateName(d))
    ensures ParseDateName(DateName(d)) == d
  {
    var s := DateName(d);
    assert s[..4] == Pad(d.year, 4);
    assert s[5..7] == Pad(d.month, 2);
    assert s[8..] == Pad(d.day, 2);
    PadRoundTrip(d.year, 4);
    PadRoundTrip(d.month, 2);
    PadRoundTrip(d.day, 2);
  }

  /** Distinct dates get distinct day folders. */
  lemma DateNameInjective(a: Date, b: Date)
    requires ValidDate(a) && ValidDate(b)
    ensures DateName(a) == DateName(b) ==> a == b
  {
    DateNameRoundTrip(a);
    DateNameRoundTrip(b);
  }
}
