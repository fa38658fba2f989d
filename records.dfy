/**
 * The fields of a contact (`Name`, `Birthday`) and the `Record` that holds a
 * name, a list of phones and a birthday, with the operations that change its
 * phone list in place.
 */
module Records {
  import opened Failures
  import opened Phones
  import opened Calendar
  import opened DateText
  import TextSearch

  /**
   * A contact's name. The class defines no equality, so as a dictionary key
   * it is compared by identity; a Dafny class reference behaves the same way.
   * Nothing assigns a name after construction.
   */
  class Name {
    const value: string

    constructor (value: string)
      ensures this.value == value
    {
      this.value := value;
    }
  }

  /** A birthday field: no date until a string in the right format is set. */
  class Birthday {
    var value: Option<ValidDate>

    constructor ()
      ensures value == None
    {
      value := None;
    }

    /**
     * The Birthday setter: stores the date a "DD-MM-YYYY" string names; on a
     * ValueError it reports the format (the printed diagnostic, here the
     * outcome) and keeps the previous value.
     */
    method SetValue(raw: string) returns (o: Outcome)
      modifies this
      ensures o == (if ParseDate(raw).Ok? then Pass else Fail(ValueError))
      ensures value == (if ParseDate(raw).Ok? then Some(ParseDate(raw).value) else old(value))
    {
      match ParseDate(raw)
      case Ok(d) =>
        value := Some(d);
        o := Pass;
      case Err(e) =>
        o := Fail(e);
    }

    /**
     * `days_to_birthday` with the clock read passed in as `today`: the
     * countdown text, AttributeError when no date is set, ValueError when the
     * next birthday cannot be built.
     */
    function DaysToBirthday(today: Date): (r: Result<string>)
      reads this
      requires IsValidDate(today)
      ensures value.None? ==> r == Err(AttributeError)
      ensures value.Some? ==> (r.Err? <==> Calendar.DaysToBirthday(value.value, today).Err?)
      ensures value.Some? && r.Err? ==> r.error == ValueError
      ensures r.Ok? ==> r.value == CountdownMessage(Calendar.DaysToBirthday(value.value, today).value)
      ensures r.Ok? ==> exists n :: && 0 <= n <= 365 && r.value == CountdownMessage(n)
                                    && (n == 0 <==> value.value.month == today.month && value.value.day == today.day)
      ensures r.Ok? ==> (r.value == "Today birthday" <==>
                         value.value.month == today.month && value.value.day == today.day)
    {
      match value
      case None => Err(AttributeError)
      case Some(b) =>
        match Calendar.DaysToBirthday(b, today)
        case Err(e) =>
          DaysToBirthdayFails(b, today);
          Err(e)
        case Ok(days) =>
          DaysToBirthdayBounds(b, today);
          Ok(CountdownMessage(days))
    }
  }

  /** `s` without its element at position `j`. */
  function RemoveAt<T>(s: seq<T>, j: nat): (r: seq<T>)
    requires j < |s|
    ensures |r| == |s| - 1
    ensures forall i :: 0 <= i < j ==> r[i] == s[i]
    ensures forall i :: j <= i < |r| ==> r[i] == s[i + 1]
  {
    s[..j] + s[j + 1..]
  }

  /** The position of the first occurrence of `x` in `s`. */
  function IndexOf<T(==)>(s: seq<T>, x: T): (r: nat)
    requires x in s
    ensures r < |s| && s[r] == x
    ensures forall i :: 0 <= i < r ==> s[i] != x
  {
    if s[0] == x then 0 else 1 + IndexOf(s[1..], x)
  }

  /**
   * Python's reading of a list index: a negative index counts from the end;
   * none is valid outside [-len, len).
   */
  function NormalIndex(index: int, len: nat): (r: Option<nat>)
    ensures r.Some? <==> -(len as int) <= index < len
    ensures r.Some? ==> r.value < len
    ensures r.Some? && index >= 0 ==> r.value == index
    ensures r.Some? && index < 0 ==> r.value == len + index
  {
    if 0 <= index < len then Some(index)
    else if -(len as int) <= index < 0 then Some(len + index)
    else None
  }

  /**
   * Every valid index, negative or not, names the position congruent to it
   * modulo the length; and the two indices naming a position are it and it
   * minus the length.
   */
  lemma NormalIndexIsModulo(index: int, len: nat)
    ensures NormalIndex(index, len) == (if -(len as int) <= index < len then Some(index % len) else None)
    ensures forall j :: 0 <= j < len ==> NormalIndex(j, len) == Some(j) && NormalIndex(j - len, len) == Some(j)
  {
    if 0 <= index < len {
      ModOfShift(index, len, 0);
    } else if -(len as int) <= index < 0 {
      ModOfShift(len + index, len, -1);
    }
  }

  /** `m + q * len` is `m` modulo `len`, for `q` of 0 or -1. */
  lemma ModOfShift(m: int, len: nat, q: int)
    requires 0 <= m < len && (q == 0 || q == -1)
    ensures (m + q * len) % len == m
  {
    var x := m + q * len;
    assert x == (x / len) * len + x % len && 0 <= x % len < len;
  }

  /**
   * What `delete_phone` does to the phone values. It removes matching
   * phones while iterating over the same list, so the element that follows a
   * removed one moves into the slot already visited and is never examined.
   */
  function DeleteAsWritten(s: seq<string>, p: string): seq<string>
  {
    if s == [] then []
    else if s[0] != p then [s[0]] + DeleteAsWritten(s[1..], p)
    else if |s| == 1 then []
    else [s[1]] + DeleteAsWritten(s[2..], p)
  }

  /** `s` with every occurrence of `p` removed. */
  function Without(s: seq<string>, p: string): seq<string>
  {
    if s == [] then [] else (if s[0] == p then [] else [s[0]]) + Without(s[1..], p)
  }

  /** `n` copies of `p`. */
  function Repeat(p: string, n: nat): (r: seq<string>)
  {
    if n == 0 then [] else [p] + Repeat(p, n - 1)
  }

  /** `edit_phone` on the phone values: every phone equal to `a` becomes `b`. */
  function ReplaceAll(s: seq<string>, a: string, b: string): seq<string>
  {
    if s == [] then [] else [if s[0] == a then b else s[0]] + ReplaceAll(s[1..], a, b)
  }

  /** No phone object occurs twice. */
  ghost predicate Distinct(ps: seq<Phone>) {
    forall i, j :: 0 <= i < j < |ps| ==> ps[i] != ps[j]
  }

  /** No other position of a list of distinct phones holds the phone at `i`. */
  lemma DistinctAt(ps: seq<Phone>, i: nat)
    requires Distinct(ps) && i < |ps|
    ensures forall j :: 0 <= j < |ps| && j != i ==> ps[j] != ps[i]
  {
  }

  lemma DistinctRemoveAt(ps: seq<Phone>, j: nat)
    requires Distinct(ps) && j < |ps|
    ensures Distinct(RemoveAt(ps, j))
  {
    var r := RemoveAt(ps, j);
    forall a, b | 0 <= a < b < |r|
      ensures r[a] != r[b]
    {
      var a', b' := if a < j then a else a + 1, if b < j then b else b + 1;
      assert r[a] == ps[a'] && r[b] == ps[b'] && a' < b';
    }
  }

  /** Deleting never lengthens the list, and shortens it when `p` is present. */
  lemma {:induction false} DeleteShortens(s: seq<string>, p: string)
    ensures |DeleteAsWritten(s, p)| <= |s|
    ensures p in s ==> |DeleteAsWritten(s, p)| < |s|
  {
    if s == [] {
    } else if s[0] != p {
      DeleteShortens(s[1..], p);
    } else if |s| > 1 {
      DeleteShortens(s[2..], p);
    }
  }

  /** Every phone other than `p` survives, in its original relative order. */
  lemma {:induction false} DeleteKeepsOthers(s: seq<string>, p: string)
    ensures Without(DeleteAsWritten(s, p), p) == Without(s, p)
  {
    if s == [] {
    } else if s[0] != p {
      DeleteKeepsOthers(s[1..], p);
      assert ([s[0]] + DeleteAsWritten(s[1..], p))[1..] == DeleteAsWritten(s[1..], p);
    } else if |s| > 1 {
      DeleteKeepsOthers(s[2..], p);
      assert ([s[1]] + DeleteAsWritten(s[2..], p))[1..] == DeleteAsWritten(s[2..], p);
      assert s[1..][1..] == s[2..];
    }
  }

  /** Deleting a phone that is not in the list changes nothing. */
  lemma {:induction false} DeleteAbsent(s: seq<string>, p: string)
    requires p !in s
    ensures DeleteAsWritten(s, p) == s
  {
    if s != [] {
      assert p !in s[1..];
      DeleteAbsent(s[1..], p);
    }
  }

  /**
   * The first occurrence of `p` (at `i`) is always removed: the list is kept
   * up to it, and the element after it takes its place.
   */
  lemma {:induction false} DeleteRemovesFirst(s: seq<string>, p: string, i: nat)
    requires i < |s| && s[i] == p && p !in s[..i]
    ensures var r := DeleteAsWritten(s, p);
      && i <= |r| && r[..i] == s[..i]
      && (i + 1 < |s| ==> i < |r| && r[i] == s[i + 1])
      && (i + 1 == |s| ==> |r| == i)
  {
    if i > 0 {
      assert s[0] in s[..i];
      assert s[1..][..i - 1] == s[1..i];
      assert p !in s[1..][..i - 1];
      DeleteRemovesFirst(s[1..], p, i - 1);
      var r := DeleteAsWritten(s, p);
      assert r == [s[0]] + DeleteAsWritten(s[1..], p);
      assert r[..i] == [s[0]] + DeleteAsWritten(s[1..], p)[..i - 1];
      assert s[..i] == [s[0]] + s[1..][..i - 1];
    }
  }

  /** Of a run of `n` equal phones, every second one survives: `n / 2` remain. */
  lemma {:induction false} DeleteRun(p: string, n: nat)
    ensures DeleteAsWritten(Repeat(p, n), p) == Repeat(p, n / 2)
  {
    if n >= 2 {
      var s := Repeat(p, n);
      assert s[1..] == Repeat(p, n - 1);
      assert s[2..] == Repeat(p, n - 2);
      DeleteRun(p, n - 2);
      assert Repeat(p, n / 2) == [p] + Repeat(p, (n - 2) / 2);
    }
  }

  /** Each phone equal to `a` becomes `b`; length, order and the other phones are kept. */
  lemma {:induction false} ReplaceAllAt(s: seq<string>, a: string, b: string)
    ensures |ReplaceAll(s, a, b)| == |s|
    ensures forall i :: 0 <= i < |s| ==> ReplaceAll(s, a, b)[i] == (if s[i] == a then b else s[i])
  {
    if s != [] {
      ReplaceAllAt(s[1..], a, b);
    }
  }

  /** Editing a phone that is not in the list changes nothing. */
  lemma ReplaceAllAbsent(s: seq<string>, a: string, b: string)
    requires a !in s
    ensures ReplaceAll(s, a, b) == s
  {
    ReplaceAllAt(s, a, b);
  }

  /** After an edit to a different value, no phone equal to `a` is left. */
  lemma ReplaceAllRemoves(s: seq<string>, a: string, b: string)
    requires a != b
    ensures a !in ReplaceAll(s, a, b)
  {
    ReplaceAllAt(s, a, b);
  }

  /**
   * `DeleteAsWritten` on the phone objects themselves: `vs` holds their
   * values, and the objects follow the values' fate.
   */
  function DeleteObjects(ps: seq<Phone>, vs: seq<string>, p: string): (r: seq<Phone>)
    requires |ps| == |vs|
  {
    if ps == [] then []
    else if vs[0] != p then [ps[0]] + DeleteObjects(ps[1..], vs[1..], p)
    else if |ps| == 1 then []
    else [ps[1]] + DeleteObjects(ps[2..], vs[2..], p)
  }

  /** In a list of distinct phones, `list.remove` of the phone at `i` finds it at `i`. */
  lemma IndexOfDistinct(ps: seq<Phone>, i: nat)
    requires Distinct(ps) && i < |ps|
    ensures IndexOf(ps, ps[i]) == i
  {
    var j := IndexOf(ps, ps[i]);
    if j < i {
      assert false;
    }
  }

  /**
   * A phone whose value `vs[k]` differs from `p` is kept: it moves from the
   * unscanned rest to the kept prefix.
   */
  lemma DeleteKeepStep(pre: seq<Phone>, ps: seq<Phone>, vs: seq<string>, p: string, k: nat)
    requires |ps| == |vs| && k < |ps| && vs[k] != p
    ensures (pre + [ps[k]]) + ps[k + 1..] == pre + ps[k..]
    ensures (pre + [ps[k]]) + DeleteObjects(ps[k + 1..], vs[k + 1..], p) == pre + DeleteObjects(ps[k..], vs[k..], p)
  {
    assert ps[k..] == [ps[k]] + ps[k + 1..];
    assert ps[k..][1..] == ps[k + 1..];
    assert vs[k..][1..] == vs[k + 1..];
  }

  /**
   * A phone whose value `vs[k]` equals `p` is removed; its successor, if
   * any, takes its slot and is kept without being compared.
   */
  lemma DeleteRemoveStep(pre: seq<Phone>, ps: seq<Phone>, vs: seq<string>, p: string, k: nat)
    requires |ps| == |vs| && k < |ps| && vs[k] == p
    ensures k + 1 < |ps| ==> RemoveAt(pre + ps[k..], |pre|) == (pre + [ps[k + 1]]) + ps[k + 2..]
    ensures k + 1 < |ps| ==>
      (pre + [ps[k + 1]]) + DeleteObjects(ps[k + 2..], vs[k + 2..], p) == pre + DeleteObjects(ps[k..], vs[k..], p)
    ensures k + 1 == |ps| ==> RemoveAt(pre + ps[k..], |pre|) == pre
    ensures k + 1 == |ps| ==> pre == pre + DeleteObjects(ps[k..], vs[k..], p)
  {
    if k + 1 < |ps| {
      assert ps[k..][2..] == ps[k + 2..];
      assert vs[k..][2..] == vs[k + 2..];
      assert ps[k..][1] == ps[k + 1];
      assert RemoveAt(pre + ps[k..], |pre|) == pre + ps[k + 1..];
      assert ps[k + 1..] == [ps[k + 1]] + ps[k + 2..];
    } else {
      assert RemoveAt(pre + ps[k..], |pre|) == pre;
    }
  }

  /** The phones deletion leaves hold the values deletion leaves. */
  lemma {:induction false} DeleteObjectsValues(ps: seq<Phone>, vs: seq<string>, p: string)
    requires |ps| == |vs| && forall m :: 0 <= m < |ps| ==> ps[m].value == vs[m]
    ensures |DeleteObjects(ps, vs, p)| == |DeleteAsWritten(vs, p)|
    ensures forall m :: 0 <= m < |DeleteObjects(ps, vs, p)| ==> DeleteObjects(ps, vs, p)[m].value == DeleteAsWritten(vs, p)[m]
  {
    if ps != [] {
      if vs[0] != p {
        DeleteObjectsValues(ps[1..], vs[1..], p);
      } else if |ps| > 1 {
        DeleteObjectsValues(ps[2..], vs[2..], p);
      }
    }
  }

  lemma {:induction false} DeleteObjectsSubset(ps: seq<Phone>, vs: seq<string>, p: string)
    requires |ps| == |vs|
    ensures forall q :: q in DeleteObjects(ps, vs, p) ==> q in ps
  {
    if ps != [] {
      if vs[0] != p {
        DeleteObjectsSubset(ps[1..], vs[1..], p);
      } else if |ps| > 1 {
        DeleteObjectsSubset(ps[2..], vs[2..], p);
      }
    }
  }

  /**
   * The loop of `delete_phone` on the list `orig`: it walks the list by
   * position while `list.remove` takes out the first element identical to
   * the one visited, so the element after a removed one is skipped. `vals`
   * holds the values of the phones, which the loop does not change.
   */
  method DeleteWhileIterating(orig: seq<Phone>, phone: string, ghost vals: seq<string>) returns (ps: seq<Phone>)
    requires Distinct(orig)
    requires |vals| == |orig| && forall m :: 0 <= m < |orig| ==> orig[m].value == vals[m]
    ensures ps == DeleteObjects(orig, vals, phone)
    ensures Distinct(ps)
  {
    ghost var pre: seq<Phone> := [];
    ghost var k := 0;
    // `ps` is the list being iterated, which is also the list being changed
    var i := 0;
    ps := orig;
    while i < |ps|
      invariant 0 <= k <= |orig| && ps == pre + orig[k..]
      invariant i == |pre| || (i == |pre| + 1 && k == |orig|)
      invariant Distinct(ps)
      invariant pre + DeleteObjects(orig[k..], vals[k..], phone) == DeleteObjects(orig, vals, phone)
      decreases |orig| - k
    {
      var elem := ps[i];
      assert elem == orig[k] && elem.value == vals[k];
      if elem.value == phone {
        IndexOfDistinct(ps, i);
        var j := IndexOf(ps, elem);
        DistinctRemoveAt(ps, j);
        DeleteRemoveStep(pre, orig, vals, phone, k);
        ps := RemoveAt(ps, j);
        if k + 1 < |orig| {
          pre, k := pre + [orig[k + 1]], k + 2;
        } else {
          k := k + 1;
        }
      } else {
        DeleteKeepStep(pre, orig, vals, phone, k);
        pre, k := pre + [orig[k]], k + 1;
      }
      i := i + 1;
    }
    assert orig[k..] == [] && vals[k..] == [];
  }

  /** Every phone string passes the check. */
  ghost predicate AllPass(vs: seq<string>) {
    forall k :: 0 <= k < |vs| ==> ContainsPhone(vs[k])
  }

  /** Deleting phones keeps every remaining phone one that passed the check. */
  lemma {:induction false} DeleteKeepsPassing(s: seq<string>, p: string)
    requires AllPass(s)
    ensures AllPass(DeleteAsWritten(s, p))
  {
    if s == [] {
    } else if s[0] != p {
      DeleteKeepsPassing(s[1..], p);
    } else if |s| > 1 {
      DeleteKeepsPassing(s[2..], p);
    }
  }

  /** Removing one phone keeps the rest passing. */
  lemma RemoveAtKeepsPassing(s: seq<string>, j: nat)
    requires AllPass(s) && j < |s|
    ensures AllPass(RemoveAt(s, j))
  {
  }

  /** An edit keeps every phone passing when the replacement passes, or when nothing is replaced. */
  lemma ReplaceKeepsPassing(s: seq<string>, a: string, b: string)
    requires AllPass(s) && (a in s ==> ContainsPhone(b))
    ensures AllPass(ReplaceAll(s, a, b))
  {
    ReplaceAllAt(s, a, b);
  }

  /**
   * A `Record` as its `__init__` is written: the list is bound to a local
   * `phones`, so the object never gets a `phones` attribute (None here), and
   * `self.birthday` is set to None instead of a `Birthday`.
   */
  class RecordAsWritten {
    const name: Name
    var phones: Option<seq<Phone>>
    var birthday: Option<Birthday>

    /** Lines 96-97: the name is set and the birthday is None; no `phones` attribute exists. */
    constructor (name: string)
      ensures this.name.value == name && phones == None && birthday == None
    {
      this.name := new Name(name);
      phones := None;
      birthday := None;
    }

    /**
     * `add_phone` on this object: looking up `self.phones` raises
     * AttributeError before `Phone(phone)` is even built, so the phone is
     * never checked.
     */
    method AddPhone(raw: string) returns (o: Outcome)
      modifies this
      ensures birthday == old(birthday)
      ensures old(phones).None? ==> o == Fail(AttributeError) && phones == None
      ensures old(phones).Some? ==>
        && o == (if ContainsPhone(raw) then Pass else Fail(PhoneFormatError))
        && phones.Some? && |phones.value| == |old(phones).value| + (if o.Pass? then 1 else 0)
    ensures old(phones).Some? && o.Pass? ==>
      && phones.value[..|old(phones).value|] == old(phones).value
      && phones.value[|old(phones).value|].value == raw
      && fresh(phones.value[|old(phones).value|])
    ensures old(phones).Some? && o.Fail? ==> phones == old(phones)
    {
      match phones
      case None =>
        o := Fail(AttributeError);
      case Some(ps) =>
        var p := Phone.New(raw);
        match p
        case Ok(q) =>
          phones := Some(ps + [q]);
          o := Pass;
        case Err(e) =>
          o := Fail(e);
    }

    /**
     * `Record(name, phone, birthday)` as written, with "" for an argument not
     * given: the `add_phone` call, or else the assignment to
     * `self.birthday.value` on None, raises AttributeError, so a record is
     * created only when neither is given, and then it has no phones list.
     */
    static method Create(name: string, phone: string, birthday: string) returns (r: Result<RecordAsWritten>)
      ensures r.Ok? <==> phone == "" && birthday == ""
      ensures r.Err? ==> r.error == AttributeError
      ensures r.Ok? ==> r.value.name.value == name && r.value.phones == None && r.value.birthday == None
    {
      var rec := new RecordAsWritten(name);
      if phone != "" {
        var o := rec.AddPhone(phone);
        if o.Fail? {
          return Err(o.error);
        }
      }
      if birthday != "" {
        // `self.birthday.value = birthday` with `self.birthday` still None
        assert rec.birthday == None;
        return Err(AttributeError);
      }
      r := Ok(rec);
    }
  }

  /**
   * One contact, in the evidently intended state: a `phones` field that
   * starts empty and a `Birthday` that starts with no date.
   * `RecordAsWritten` models the state `Record.__init__` actually builds.
   */
  class Record {
    const name: Name
    var phones: seq<Phone>
    var birthday: Birthday

    /** The phones are distinct objects. */
    ghost predicate Valid()
      reads this
    {
      Distinct(phones)
    }

    /** The phone strings, in list order. */
    function Values(): (r: seq<string>)
      reads this, phones
      ensures |r| == |phones|
      ensures forall i :: 0 <= i < |phones| ==> r[i] == phones[i].value
    {
      var ps := phones;
      seq(|ps|, i requires 0 <= i < |ps| reads ps => ps[i].value)
    }

    /** A record with no phones and no birthday. */
    constructor (name: string)
      ensures Valid() && fresh(this.name) && fresh(birthday)
      ensures this.name.value == name && phones == [] && birthday.value == None
    {
      this.name := new Name(name);
      phones := [];
      birthday := new Birthday();
    }

    /**
     * `Record(name, phone, birthday)`, with "" for an argument not given: the
     * phone is added when given (PhoneFormatError, and no record, when it
     * fails the check); the birthday is set when given, and stays unset when
     * it does not parse.
     */
    static method Create(name: string, phone: string, birthday: string) returns (r: Result<Record>)
      ensures r.Ok? <==> (phone == "" || ContainsPhone(phone))
      ensures r.Err? ==> r.error == PhoneFormatError
      ensures r.Ok? ==> fresh(r.value) && fresh(r.value.name) && fresh(r.value.birthday)
      ensures r.Ok? ==> (forall q :: q in r.value.phones ==> fresh(q)) && r.value.Valid()
      ensures r.Ok? ==> r.value.name.value == name
      ensures r.Ok? ==> r.value.Values() == (if phone == "" then [] else [phone])
      ensures r.Ok? ==> (r.value.birthday.value ==
        if birthday != "" && ParseDate(birthday).Ok? then Some(ParseDate(birthday).value) else None)
    {
      var rec := new Record(name);
      if phone != "" {
        var o := rec.AddPhone(phone);
        if o.Fail? {
          return Err(o.error);
        }
      }
      if birthday != "" {
        var _ := rec.birthday.SetValue(birthday);
      }
      r := Ok(rec);
    }

    /** `add_phone`: appends a new phone, or raises PhoneFormatError leaving the list as it was. */
    method AddPhone(raw: string) returns (o: Outcome)
      requires Valid()
      modifies this`phones
      ensures Valid()
      ensures o == (if ContainsPhone(raw) then Pass else Fail(PhoneFormatError))
      ensures Values() == (if o.Pass? then old(Values()) + [raw] else old(Values()))
      ensures o.Pass? ==> |phones| == |old(phones)| + 1 && phones[..|old(phones)|] == old(phones)
      ensures o.Pass? ==> fresh(phones[|old(phones)|])
      ensures o.Fail? ==> phones == old(phones)
    {
      var p := Phone.New(raw);
      match p
      case Ok(q) =>
        phones := phones + [q];
        o := Pass;
      case Err(e) =>
        o := Fail(e);
    }

    /**
     * `delete_phone`: walks the list by position, and removes each phone
     * whose value equals `phone` with `list.remove`, which takes out the
     * first element identical to it (the phones being distinct objects, the
     * one just visited).
     */
    method DeletePhone(phone: string)
      requires Valid()
      modifies this`phones
      ensures Valid()
      ensures Values() == DeleteAsWritten(old(Values()), phone)
      ensures forall q :: q in phones ==> q in old(phones)
      ensures phones == DeleteObjects(old(phones), old(Values()), phone)
    {
      ghost var orig, vals := phones, Values();
      var ps := DeleteWhileIterating(phones, phone, vals);
      DeleteObjectsSubset(orig, vals, phone);
      phones := ps;
      DeleteObjectsValues(orig, vals, phone);
    }

    /**
     * `delete_phone_index`, i.e. `list.pop(index)`: removes the phone at that
     * index, counting from the end when it is negative; IndexError outside
     * [-len, len), the list unchanged.
     */
    method DeletePhoneIndex(index: int) returns (o: Outcome)
      requires Valid()
      modifies this`phones
      ensures Valid()
      ensures o.Pass? <==> -|old(phones)| <= index < |old(phones)|
      ensures o.Fail? ==> o == Fail(IndexError) && phones == old(phones)
      ensures o.Pass? ==>
        var j := NormalIndex(index, |old(phones)|).value;
        phones == RemoveAt(old(phones), j) && Values() == RemoveAt(old(Values()), j)
    {
      match NormalIndex(index, |phones|)
      case None =>
        o := Fail(IndexError);
      case Some(j) =>
        ghost var before := Values();
        DistinctRemoveAt(phones, j);
        phones := RemoveAt(phones, j);
        assert Values() == RemoveAt(before, j);
        o := Pass;
    }

    /**
     * `edit_phone`: sets every phone equal to `oldPhone` to `newPhone`
     * through the validating setter. The list itself is untouched. When
     * `newPhone` fails the check, the setter raises at the first match,
     * before any phone was changed.
     */
    method EditPhone(oldPhone: string, newPhone: string) returns (o: Outcome)
      requires Valid()
      modifies phones
      ensures Valid()
      ensures o == (if oldPhone in old(Values()) && !ContainsPhone(newPhone) then Fail(PhoneFormatError) else Pass)
      ensures Values() == (if o.Pass? then ReplaceAll(old(Values()), oldPhone, newPhone) else old(Values()))
    {
      ghost var orig := Values();
      o := Pass;
      var i := 0;
      while i < |phones|
        invariant 0 <= i <= |phones| && o == Pass
        invariant !ContainsPhone(newPhone) ==> forall j :: 0 <= j < i ==> orig[j] != oldPhone
        invariant forall j :: 0 <= j < i ==> phones[j].value == (if orig[j] == oldPhone then newPhone else orig[j])
        invariant forall j :: i <= j < |phones| ==> phones[j].value == orig[j]
      {
        var elem := phones[i];
        if elem.value == oldPhone {
          DistinctAt(phones, i);
          o := elem.SetValue(newPhone);
          if o.Fail? {
            break;
          }
        }
        i := i + 1;
      }
      if o.Fail? {
        assert forall j :: 0 <= j < |orig| ==> Values()[j] == orig[j];
      } else {
        ReplaceAllAt(orig, oldPhone, newPhone);
        assert forall j :: 0 <= j < |orig| ==> Values()[j] == ReplaceAll(orig, oldPhone, newPhone)[j];
      }
    }

    /** The search rule applied to this record. */
    predicate Matches(text: string)
      reads this, phones
    {
      TextSearch.Matches(name.value, Values(), text)
    }

    /**
     * The test `search` makes on this record: whether the lower-cased name
     * contains `text`, then, phone by phone, whether its digits contain it.
     */
    method ShownBy(text: string) returns (show: bool)
      ensures show == Matches(text)
    {
      show := TextSearch.Find(TextSearch.Lower(name.value), text) >= 0;
      var ps := phones;
      for k := 0 to |ps|
        invariant show <==> || TextSearch.Find(TextSearch.Lower(name.value), text) >= 0
                            || exists m :: 0 <= m < k && TextSearch.Find(TextSearch.DigitsOnly(ps[m].value), text) >= 0
      {
        if TextSearch.Find(TextSearch.DigitsOnly(ps[k].value), text) >= 0 {
          show := true;
        }
      }
      assert Values() == seq(|ps|, m requires 0 <= m < |ps| reads ps => ps[m].value);
    }
  }
}
