/**
 * The text operations the `search` command combines: `str.lower`,
 * keeping only the digits of a string, and `str.find`; and the rule that
 * decides whether a contact is shown. Characters are treated as ASCII.
 */
module TextSearch {
  import Phones

  /** `needle` occurs in `hay` starting at position `i`. */
  predicate OccursAt(hay: string, needle: string, i: nat) {
    i + |needle| <= |hay| && hay[i..i + |needle|] == needle
  }

  ghost predicate Contains(hay: string, needle: string) {
    exists i: nat :: OccursAt(hay, needle, i)
  }

  /** The scan of `str.find` from position `i`: the first occurrence, or -1. */
  function FindFrom(hay: string, needle: string, i: nat): (r: int)
    decreases |hay| - i
    ensures r == -1 || (i <= r && OccursAt(hay, needle, r))
    ensures r == -1 ==> forall j: nat :: i <= j ==> !OccursAt(hay, needle, j)
    ensures r >= 0 ==> forall j: nat :: i <= j < r ==> !OccursAt(hay, needle, j)
  {
    if i + |needle| > |hay| then -1
    else if hay[i..i + |needle|] == needle then i
    else FindFrom(hay, needle, i + 1)
  }

  /** `hay.find(needle)`: the lowest index where `needle` occurs, -1 if none. */
  function Find(hay: string, needle: string): (r: int)
    ensures r >= 0 <==> Contains(hay, needle)
    ensures r >= 0 ==> OccursAt(hay, needle, r)
    ensures r >= 0 ==> forall j: nat :: j < r ==> !OccursAt(hay, needle, j)
  {
    FindFrom(hay, needle, 0)
  }

  function LowerChar(c: char): char {
    if 'A' <= c <= 'Z' then (c as int - 'A' as int + 'a' as int) as char else c
  }

  /** `str.lower` on ASCII text. */
  function Lower(s: string): (r: string)
    ensures |r| == |s|
    ensures forall i :: 0 <= i < |s| ==> r[i] == LowerChar(s[i])
  {
    seq(|s|, i requires 0 <= i < |s| => LowerChar(s[i]))
  }

  /** `''.join(filter(str.isdigit, s))`: the digits of `s`, in order. */
  function DigitsOnly(s: string): string {
    if s == [] then []
    else (if Phones.IsDigit(s[0]) then [s[0]] else []) + DigitsOnly(s[1..])
  }

  /**
   * The search rule: a contact is shown when its lower-cased name contains
   * the text (the text itself is not lower-cased), or when the digits of
   * some phone contain it.
   */
  predicate Matches(name: string, phones: seq<string>, text: string) {
    || Find(Lower(name), text) >= 0
    || exists k :: 0 <= k < |phones| && Find(DigitsOnly(phones[k]), text) >= 0
  }

  /** The search rule, stated with substrings instead of `find`. */
  lemma MatchesMeansContains(name: string, phones: seq<string>, text: string)
    ensures Matches(name, phones, text) <==>
      || Contains(Lower(name), text)
      || exists k :: 0 <= k < |phones| && Contains(DigitsOnly(phones[k]), text)
  {
    if exists k :: 0 <= k < |phones| && Contains(DigitsOnly(phones[k]), text) {
      var k :| 0 <= k < |phones| && Contains(DigitsOnly(phones[k]), text);
      assert Find(DigitsOnly(phones[k]), text) >= 0;
    }
  }

  /** The projection holds only digits, is no longer than the string, and leaves a string of digits as it is. */
  lemma {:induction false} DigitsOnlyKeepsDigits(s: string)
    ensures forall i :: 0 <= i < |DigitsOnly(s)| ==> Phones.IsDigit(DigitsOnly(s)[i])
    ensures |DigitsOnly(s)| <= |s|
    ensures (forall i :: 0 <= i < |s| ==> Phones.IsDigit(s[i])) ==> DigitsOnly(s) == s
  {
    if s != [] {
      DigitsOnlyKeepsDigits(s[1..]);
    }
  }

  /** The digits of a joined string are the digits of the first part, then those of the second. */
  lemma {:induction false} DigitsOnlyConcat(a: string, b: string)
    ensures DigitsOnly(a + b) == DigitsOnly(a) + DigitsOnly(b)
  {
    if a == [] {
      assert a + b == b;
    } else {
      var ab := a + b;
      assert ab[0] == a[0] && ab[1..] == a[1..] + b;
      DigitsOnlyConcat(a[1..], b);
    }
  }

  /**
   * One character is kept exactly when it is a digit; with `DigitsOnlyConcat`
   * this fixes the digits of every string, in order.
   */
  lemma DigitsOnlyChar(c: char)
    ensures DigitsOnly([c]) == (if Phones.IsDigit(c) then [c] else [])
  {
    assert [c][1..] == [];
  }

  /** Lower-cased text holds no capital letter, and text without one is left as it is. */
  lemma LowerNoCapitals(s: string)
    ensures forall i :: 0 <= i < |s| ==> !('A' <= Lower(s)[i] <= 'Z')
    ensures forall i :: 0 <= i < |s| && !('A' <= s[i] <= 'Z') ==> Lower(s)[i] == s[i]
    ensures Lower(s) == s <==> forall i :: 0 <= i < |s| ==> !('A' <= s[i] <= 'Z')
  {
    if Lower(s) == s {
      forall i | 0 <= i < |s|
        ensures !('A' <= s[i] <= 'Z')
      {
        assert s[i] == Lower(s)[i];
      }
    }
  }

  /**
   * The search rule as evidently intended: the name is compared without
   * regard to case, the text being lower-cased as well as the name.
   */
  predicate MatchesIgnoringCase(name: string, phones: seq<string>, text: string) {
    || Find(Lower(name), Lower(text)) >= 0
    || exists k :: 0 <= k < |phones| && Find(DigitsOnly(phones[k]), text) >= 0
  }

  /** As written, a contact named "Bob" is not found by searching for "Bob"; as intended, it is. */
  lemma CapitalisedNameNotFound()
    ensures !Matches("Bob", [], "Bob")
    ensures MatchesIgnoringCase("Bob", [], "Bob")
  {
    var low := Lower("Bob");
    assert low == "bob";
    assert low[0..3][0] != "Bob"[0];
    assert forall i: nat :: 0 < i ==> !OccursAt(low, "Bob", i);
    assert Lower("Bob") == low && OccursAt(low, low, 0);
  }

  /** As intended, every name is found by any text that differs from it only in case (such as "BOB" for "Bob"). */
  lemma NameFindsItself(name: string, phones: seq<string>, text: string)
    requires Lower(text) == Lower(name)
    ensures MatchesIgnoringCase(name, phones, text)
  {
    assert OccursAt(Lower(name), Lower(name), 0);
  }

  /** Text found among the digits of a phone is all digits. */
  lemma FoundInDigitsIsDigits(p: string, t: string)
    requires Find(DigitsOnly(p), t) >= 0
    ensures forall i :: 0 <= i < |t| ==> Phones.IsDigit(t[i])
  {
    var r := Find(DigitsOnly(p), t);
    DigitsOnlyKeepsDigits(p);
    forall i | 0 <= i < |t|
      ensures Phones.IsDigit(t[i])
    {
      assert t[i] == DigitsOnly(p)[r + i];
    }
  }

  /** A text of digits is the only text that lower-cases to it. */
  lemma DigitsFixedByLower(t: string, u: string)
    requires forall i :: 0 <= i < |t| ==> Phones.IsDigit(t[i])
    requires Lower(t) == Lower(u)
    ensures t == u
  {
    assert |t| == |u|;
    forall i | 0 <= i < |t|
      ensures t[i] == u[i]
    {
      assert LowerChar(t[i]) == LowerChar(u[i]);
    }
  }

  /** The intended rule ignores the case of the text: texts equal up to case select the same records. */
  lemma MatchesIgnoringCaseIgnoresCase(name: string, phones: seq<string>, t: string, u: string)
    requires Lower(t) == Lower(u)
    ensures MatchesIgnoringCase(name, phones, t) <==> MatchesIgnoringCase(name, phones, u)
  {
    if exists k :: 0 <= k < |phones| && Find(DigitsOnly(phones[k]), t) >= 0 {
      var k :| 0 <= k < |phones| && Find(DigitsOnly(phones[k]), t) >= 0;
      FoundInDigitsIsDigits(phones[k], t);
      DigitsFixedByLower(t, u);
    }
    if exists k :: 0 <= k < |phones| && Find(DigitsOnly(phones[k]), u) >= 0 {
      var k :| 0 <= k < |phones| && Find(DigitsOnly(phones[k]), u) >= 0;
      FoundInDigitsIsDigits(phones[k], u);
      DigitsFixedByLower(u, t);
    }
  }

  /** Text found in lower-cased text is itself lower-cased. */
  lemma FoundInLowerIsLower(s: string, t: string, r: nat)
    requires OccursAt(Lower(s), t, r)
    ensures Lower(t) == t
  {
    forall i | 0 <= i < |t|
      ensures Lower(t)[i] == t[i]
    {
      assert t[i] == Lower(s)[r + i];
    }
  }

  /** Every contact the rule as written shows, the intended rule shows too. */
  lemma IntendedAcceptsAsWritten(name: string, phones: seq<string>, text: string)
    requires Matches(name, phones, text)
    ensures MatchesIgnoringCase(name, phones, text)
  {
    var r := Find(Lower(name), text);
    if r >= 0 {
      FoundInLowerIsLower(name, text, r);
    }
  }
}
