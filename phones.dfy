/**
 * Phone numbers: the check `Phone.check_phone` performs and the `Phone`
 * field whose setter runs it.
 *
 * The check searches the string for the regular expression
 * `\([0-9]{3}\)[0-9]{3}-[0-9]{2}-[0-9]{2}`; it accepts a string that merely
 * CONTAINS such a 14-character piece anywhere, and stores the string as given.
 */
module Phones {
  import opened Failures

  /** Length of a piece matching the phone pattern. */
  const PatternLength: nat := 14

  /** `[0-9]`: an ASCII digit. */
  predicate IsDigit(c: char) {
    '0' <= c <= '9'
  }

  /** The 14 characters of `t` are exactly `(ddd)ddd-dd-dd`, d an ASCII digit. */
  predicate IsPhoneShape(t: string) {
    && |t| == PatternLength
    && t[0] == '(' && IsDigit(t[1]) && IsDigit(t[2]) && IsDigit(t[3]) && t[4] == ')'
    && IsDigit(t[5]) && IsDigit(t[6]) && IsDigit(t[7]) && t[8] == '-'
    && IsDigit(t[9]) && IsDigit(t[10]) && t[11] == '-'
    && IsDigit(t[12]) && IsDigit(t[13])
  }

  /** The pattern matches the piece of `s` that starts at position `i`. */
  predicate MatchesAt(s: string, i: nat) {
    i + PatternLength <= |s| && IsPhoneShape(s[i..i + PatternLength])
  }

  /** `s` contains a piece matching the pattern: what a regex search finds. */
  ghost predicate ContainsPhone(s: string) {
    exists i: nat :: MatchesAt(s, i)
  }

  /**
   * The scan of a regex search: the first position at or after `i` where the
   * pattern matches, or None when it matches nowhere from `i` on.
   */
  function FirstMatchFrom(s: string, i: nat): (r: Option<nat>)
    decreases |s| - i
    ensures r.Some? ==> i <= r.value && MatchesAt(s, r.value)
    ensures r.Some? ==> forall j: nat :: i <= j < r.value ==> !MatchesAt(s, j)
    ensures r.None? ==> forall j: nat :: i <= j ==> !MatchesAt(s, j)
  {
    if i + PatternLength > |s| then None
    else if MatchesAt(s, i) then Some(i)
    else FirstMatchFrom(s, i + 1)
  }

  /**
   * `Phone.check_phone`: the string unchanged when the pattern occurs in it,
   * PhoneFormatError otherwise (`re.findall` finds nothing exactly when no
   * position matches).
   */
  function CheckPhone(value: string): (r: Result<string>)
    ensures r.Ok? <==> ContainsPhone(value)
    ensures r.Ok? ==> r.value == value
    ensures r.Err? ==> r.error == PhoneFormatError
  {
    if FirstMatchFrom(value, 0).None? then Err(PhoneFormatError) else Ok(value)
  }

  /** A `Phone` field. Its value passes the check whenever it was built or set through the check. */
  class Phone {
    var value: string

    /** The value passes the check. */
    ghost predicate Valid()
      reads this
    {
      ContainsPhone(value)
    }

    constructor (raw: string)
      requires ContainsPhone(raw)
      ensures Valid() && value == raw
    {
      value := raw;
    }

    /**
     * `Phone(value)`: a new phone holding `raw`, or PhoneFormatError (and no
     * phone) when the check rejects it.
     */
    static method New(raw: string) returns (r: Result<Phone>)
      ensures r.Ok? <==> ContainsPhone(raw)
      ensures r.Ok? ==> fresh(r.value) && r.value.Valid() && r.value.value == raw
      ensures r.Err? ==> r.error == PhoneFormatError
    {
      if CheckPhone(raw).Ok? {
        var p := new Phone(raw);
        r := Ok(p);
      } else {
        r := Err(PhoneFormatError);
      }
    }

    /**
     * The validating setter: stores `raw` when it passes the check; otherwise
     * raises PhoneFormatError before any assignment, keeping the old value.
     */
    method SetValue(raw: string) returns (o: Outcome)
      modifies this
      ensures o == (if ContainsPhone(raw) then Pass else Fail(PhoneFormatError))
      ensures value == (if o.Pass? then raw else old(value))
      ensures old(Valid()) ==> Valid()
    {
      if CheckPhone(raw).Ok? {
        value := raw;
        o := Pass;
      } else {
        o := Fail(PhoneFormatError);
      }
    }
  }

  /** Containment, not exact match: text around a phone does not matter. */
  lemma {:induction false} CheckPhoneAllowsSurroundingText(prefix: string, phone: string, suffix: string)
    requires IsPhoneShape(phone)
    ensures CheckPhone(prefix + phone + suffix) == Ok(prefix + phone + suffix)
  {
    var s := prefix + phone + suffix;
    assert s[|prefix|..|prefix| + PatternLength] == phone;
    assert MatchesAt(s, |prefix|);
  }

  /** No string shorter than the pattern passes the check. */
  lemma CheckPhoneRejectsShort(s: string)
    requires |s| < PatternLength
    ensures CheckPhone(s) == Err(PhoneFormatError)
  {
    assert forall i: nat :: !MatchesAt(s, i);
  }
}
