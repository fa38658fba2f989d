/**
 * Dates as text: `datetime.strptime(value, '%d-%m-%Y')`, restricted to the
 * zero-padded form DD-MM-YYYY, and `strftime('%d-%m-%Y')`.
 */
module DateText {
  import opened Failures
  import opened Calendar
  import Phones

  predicate AllDigits(s: string) {
    forall i :: 0 <= i < |s| ==> Phones.IsDigit(s[i])
  }

  /** The number a string of decimal digits denotes. */
  function NumberOf(s: string): nat
    requires AllDigits(s)
  {
    if s == [] then 0 else NumberOf(s[..|s| - 1]) * 10 + (s[|s| - 1] as int - '0' as int)
  }

  function Pow10(w: nat): nat {
    if w == 0 then 1 else 10 * Pow10(w - 1)
  }

  /** `n` in decimal, zero-padded on the left to `width` digits (digits above the width are dropped). */
  function PaddedDigits(n: nat, width: nat): (r: string)
    ensures |r| == width && AllDigits(r)
  {
    if width == 0 then [] else PaddedDigits(n / 10, width - 1) + [DigitChar(n % 10)]
  }

  /** The dashes and digits of "DD-MM-YYYY". */
  predicate IsDateShape(s: string) {
    && |s| == 10
    && AllDigits(s[0..2]) && s[2] == '-'
    && AllDigits(s[3..5]) && s[5] == '-'
    && AllDigits(s[6..10])
  }

  /**
   * The Birthday setter's parse: the date a "DD-MM-YYYY" string names, or
   * ValueError when the string has another shape or names no calendar date.
   */
  function ParseDate(s: string): (r: Result<ValidDate>)
    ensures r.Ok? ==> IsValidDate(r.value)
    ensures r.Err? ==> r.error == ValueError
  {
    if !IsDateShape(s) then Err(ValueError)
    else
      var d := Date(NumberOf(s[6..10]), NumberOf(s[3..5]), NumberOf(s[0..2]));
      if IsValidDate(d) then Ok(d) else Err(ValueError)
  }

  /** `strftime('%d-%m-%Y')`. */
  function FormatDate(d: Date): (r: string)
    requires IsValidDate(d)
    ensures IsDateShape(r)
  {
    PaddedDigits(d.day, 2) + "-" + PaddedDigits(d.month, 2) + "-" + PaddedDigits(d.year, 4)
  }

  /** Padding a number that fits, then reading it back, gives the number. */
  lemma {:induction false} NumberOfPadded(n: nat, width: nat)
    requires n < Pow10(width)
    ensures NumberOf(PaddedDigits(n, width)) == n
  {
    if width > 0 {
      var s := PaddedDigits(n, width);
      assert s[..|s| - 1] == PaddedDigits(n / 10, width - 1);
      NumberOfPadded(n / 10, width - 1);
    }
  }

  /** Reading digits, then padding to the same width, gives the digits back. */
  lemma {:induction false} PaddedNumberOf(s: string)
    requires AllDigits(s)
    ensures PaddedDigits(NumberOf(s), |s|) == s
  {
    if s != [] {
      var init := s[..|s| - 1];
      PaddedNumberOf(init);
      assert s == init + [s[|s| - 1]];
    }
  }

  /** Formatting a calendar date and parsing the text gives the date. */
  lemma ParseFormat(d: Date)
    requires IsValidDate(d)
    ensures ParseDate(FormatDate(d)) == Ok(d)
  {
    var s := FormatDate(d);
    assert s[0..2] == PaddedDigits(d.day, 2);
    assert s[3..5] == PaddedDigits(d.month, 2);
    assert s[6..10] == PaddedDigits(d.year, 4);
    NumberOfPadded(d.day, 2);
    NumberOfPadded(d.month, 2);
    NumberOfPadded(d.year, 4);
  }

  /** A string the parser accepts is returned unchanged by re-formatting its date. */
  lemma FormatParse(s: string)
    requires ParseDate(s).Ok?
    ensures FormatDate(ParseDate(s).value) == s
  {
    PaddedNumberOf(s[0..2]);
    PaddedNumberOf(s[3..5]);
    PaddedNumberOf(s[6..10]);
    assert s == s[0..2] + "-" + s[3..5] + "-" + s[6..10];
  }
}
