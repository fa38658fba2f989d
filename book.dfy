/**
 * The `AddressBook`: a dictionary from `Name` keys to `Record`s, kept in
 * insertion order, with `add_record`, iteration, paging, lookup of a key by
 * its name, and the selection the `search` command makes.
 *
 * The dictionary is a sequence of entries in insertion order. Keys are `Name`
 * objects compared by identity, as a Python dictionary compares objects
 * that define no equality of their own.
 */
module Book {
  import opened Failures
  import opened Records
  import Phones
  import TextSearch

  /** One key and its value, at its place in insertion order. */
  datatype Entry = Entry(key: Name, record: Record)

  /** No key object is stored twice. */
  predicate KeysDistinct(es: seq<Entry>) {
    forall i, j :: 0 <= i < j < |es| ==> es[i].key != es[j].key
  }

  /** The keys, in insertion order. */
  function Keys(es: seq<Entry>): (r: seq<Name>)
    ensures |r| == |es| && forall i :: 0 <= i < |es| ==> r[i] == es[i].key
  {
    seq(|es|, i requires 0 <= i < |es| => es[i].key)
  }

  /** The position of key `k`, or None when it is not stored. */
  function IndexOfKey(es: seq<Entry>, k: Name): (r: Option<nat>)
    ensures r.Some? ==> r.value < |es| && es[r.value].key == k
    ensures r.None? <==> forall i :: 0 <= i < |es| ==> es[i].key != k
  {
    if es == [] then None
    else if es[0].key == k then Some(0)
    else match IndexOfKey(es[1..], k)
      case None => None
      case Some(i) => Some(i + 1)
  }

  /** `self.data[key]`: the record stored under `key`, KeyError when there is none. */
  function Lookup(es: seq<Entry>, key: Name): (r: Result<Record>)
    ensures r.Err? <==> key !in Keys(es)
    ensures r.Err? ==> r.error == KeyError
    ensures r.Ok? ==> exists i :: 0 <= i < |es| && es[i].key == key && r.value == es[i].record
  {
    match IndexOfKey(es, key)
    case None => Err(KeyError)
    case Some(i) => Ok(es[i].record)
  }

  /**
   * `self.data[record.name] = record`: a key already stored keeps its place
   * and gets the new record; a new key is appended.
   */
  function Insert(es: seq<Entry>, r: Record): (res: seq<Entry>)
  {
    match IndexOfKey(es, r.name)
    case Some(i) => es[i := Entry(r.name, r)]
    case None => es + [Entry(r.name, r)]
  }

  /** After `add_record(r)`, looking up `r.name` gives `r`. */
  lemma LookupInsertSame(es: seq<Entry>, r: Record)
    requires KeysDistinct(es)
    ensures Lookup(Insert(es, r), r.name) == Ok(r)
  {
    var res := Insert(es, r);
    match IndexOfKey(es, r.name)
    case Some(i) =>
      assert res[i] == Entry(r.name, r);
      InsertKeepsDistinct(es, r);
      KeyUnique(res, i, r.name);
    case None =>
      assert res[|es|] == Entry(r.name, r);
      InsertKeepsDistinct(es, r);
      KeyUnique(res, |es|, r.name);
  }

  /** In a book with distinct keys, the key at `i` is found at `i`. */
  lemma KeyUnique(es: seq<Entry>, i: nat, k: Name)
    requires KeysDistinct(es) && i < |es| && es[i].key == k
    ensures IndexOfKey(es, k) == Some(i)
  {
    var j := IndexOfKey(es, k).value;
    if j < i {
      assert false;
    } else if i < j {
      assert false;
    }
  }

  /** `add_record(r)` leaves the record of every other key as it was, present or absent. */
  lemma LookupInsertOther(es: seq<Entry>, r: Record, key: Name)
    requires KeysDistinct(es) && key != r.name
    ensures Lookup(Insert(es, r), key) == Lookup(es, key)
  {
    var res := Insert(es, r);
    InsertKeepsDistinct(es, r);
    InsertPositions(es, r);
    match IndexOfKey(es, key)
    case None =>
      assert key !in Keys(res);
    case Some(i) =>
      assert res[i] == es[i];
      KeyUnique(res, i, key);
  }

  /**
   * `add_record(r)` overwrites only the entry whose key is `r.name`, in
   * place, and otherwise appends: every other entry keeps its position and
   * its record, and the key order is kept.
   */
  lemma InsertPositions(es: seq<Entry>, r: Record)
    ensures r.name in Keys(es) ==> |Insert(es, r)| == |es| && Keys(Insert(es, r)) == Keys(es)
    ensures r.name !in Keys(es) ==> Insert(es, r) == es + [Entry(r.name, r)]
    ensures forall i :: 0 <= i < |es| && es[i].key != r.name ==> Insert(es, r)[i] == es[i]
  {
    match IndexOfKey(es, r.name)
    case Some(i) =>
      assert r.name in Keys(es) by {
        assert Keys(es)[i] == r.name;
      }
    case None =>
      assert r.name !in Keys(es);
  }

  lemma InsertKeepsDistinct(es: seq<Entry>, r: Record)
    requires KeysDistinct(es)
    ensures KeysDistinct(Insert(es, r))
  {
    var res := Insert(es, r);
    match IndexOfKey(es, r.name)
    case Some(i) =>
      forall a, b | 0 <= a < b < |res|
        ensures res[a].key != res[b].key
      {
        assert res[a].key == es[a].key && res[b].key == es[b].key;
      }
    case None =>
  }

  /** Adding the same record twice is the same as adding it once. */
  lemma InsertIdempotent(es: seq<Entry>, r: Record)
    requires KeysDistinct(es)
    ensures Insert(Insert(es, r), r) == Insert(es, r)
  {
    var res := Insert(es, r);
    InsertKeepsDistinct(es, r);
    match IndexOfKey(es, r.name)
    case Some(i) =>
      KeyUnique(res, i, r.name);
    case None =>
      KeyUnique(res, |es|, r.name);
  }

  /**
   * What `iterator(count)` yields, as written: one page per entry, in order;
   * the inner loop stores the same single pair `count` times, so a page holds
   * that pair when `count >= 1` and nothing when `count <= 0`.
   */
  function IteratorPages(es: seq<Entry>, count: int): (r: seq<map<Name, Record>>)
  {
    seq(|es|, i requires 0 <= i < |es| => if count >= 1 then map[es[i].key := es[i].record] else map[])
  }

  /** The pages of `iterator`, whatever `count` is, hold one entry each (or none). */
  lemma IteratorOnePerRecord(es: seq<Entry>, count: int)
    ensures |IteratorPages(es, count)| == |es|
    ensures forall i :: 0 <= i < |es| ==> |IteratorPages(es, count)[i]| == (if count >= 1 then 1 else 0)
    ensures forall i :: 0 <= i < |es| && count >= 1 ==>
      es[i].key in IteratorPages(es, count)[i] && IteratorPages(es, count)[i][es[i].key] == es[i].record
  {
    forall i | 0 <= i < |es|
      ensures |IteratorPages(es, count)[i]| == (if count >= 1 then 1 else 0)
    {
      var page := IteratorPages(es, count)[i];
      if count >= 1 {
        assert page.Keys == {es[i].key};
      } else {
        assert page.Keys == {};
      }
    }
  }

  /** The entries of consecutive pages, joined. */
  function Flatten(pages: seq<seq<Entry>>): seq<Entry> {
    if pages == [] then [] else pages[0] + Flatten(pages[1..])
  }

  /**
   * Paging with `size` entries per page, what `iterator(count)` is evidently
   * meant to do: consecutive runs of `size` entries, the last one possibly
   * shorter.
   */
  function Pages(es: seq<Entry>, size: nat): (r: seq<seq<Entry>>)
    requires size >= 1
    decreases |es|
  {
    if es == [] then []
    else if |es| <= size then [es]
    else [es[..size]] + Pages(es[size..], size)
  }

  /** The pages together hold every entry once, in order. */
  lemma {:induction false} PagesFlatten(es: seq<Entry>, size: nat)
    requires size >= 1
    decreases |es|
    ensures Flatten(Pages(es, size)) == es
  {
    if |es| > size {
      var rest := es[size..];
      PagesFlatten(rest, size);
      var ps := Pages(es, size);
      assert ps[1..] == Pages(rest, size);
      assert es[..size] + rest == es;
    } else if es != [] {
      assert Flatten([es]) == es + Flatten([]);
    }
  }

  /** Every page holds 1 to `size` entries, and all but the last exactly `size`. */
  lemma {:induction false} PagesSizes(es: seq<Entry>, size: nat)
    requires size >= 1
    decreases |es|
    ensures forall p :: 0 <= p < |Pages(es, size)| ==> 1 <= |Pages(es, size)[p]| <= size
    ensures forall p :: 0 <= p < |Pages(es, size)| - 1 ==> |Pages(es, size)[p]| == size
  {
    if |es| > size {
      var rest := es[size..];
      PagesSizes(rest, size);
      var ps := Pages(es, size);
      assert forall p :: 1 <= p < |ps| ==> ps[p] == Pages(rest, size)[p - 1];
    }
  }

  /** A book of two entries paged two at a time: as written two pages, as intended one. */
  lemma IteratorIgnoresCount(es: seq<Entry>)
    requires |es| == 2
    ensures |IteratorPages(es, 2)| == 2
    ensures |Pages(es, 2)| == 1 && Pages(es, 2)[0] == es
  {
  }

  /** The records of `rs` whose flag in `keep` is set, in order. */
  function Filter(rs: seq<Record>, keep: seq<bool>): seq<Record>
    requires |rs| == |keep|
  {
    if rs == [] then []
    else
      var n := |rs| - 1;
      Filter(rs[..n], keep[..n]) + (if keep[n] then [rs[n]] else [])
  }

  /** Filtering one more record adds it when its flag is set. */
  lemma FilterStep(rs: seq<Record>, keep: seq<bool>, n: nat)
    requires |rs| == |keep| && n < |rs|
    ensures Filter(rs[..n + 1], keep[..n + 1]) == Filter(rs[..n], keep[..n]) + (if keep[n] then [rs[n]] else [])
  {
    assert rs[..n + 1][..n] == rs[..n];
    assert keep[..n + 1][..n] == keep[..n];
  }

  /** A record is kept exactly when it sits at a position whose flag is set. */
  lemma {:induction false} FilterMembers(rs: seq<Record>, keep: seq<bool>, r: Record)
    requires |rs| == |keep|
    ensures r in Filter(rs, keep) <==> exists i :: 0 <= i < |rs| && rs[i] == r && keep[i]
  {
    if rs != [] {
      var n := |rs| - 1;
      FilterMembers(rs[..n], keep[..n], r);
      if exists i :: 0 <= i < n && rs[..n][i] == r && keep[..n][i] {
        var i :| 0 <= i < n && rs[..n][i] == r && keep[..n][i];
        assert rs[i] == r && keep[i];
      }
      if exists i :: 0 <= i < |rs| && rs[i] == r && keep[i] {
        var i :| 0 <= i < |rs| && rs[i] == r && keep[i];
        if i < n {
          assert rs[..n][i] == r && keep[..n][i];
        }
      }
    }
  }

  lemma {:induction false} FilterLength(rs: seq<Record>, keep: seq<bool>)
    requires |rs| == |keep|
    ensures |Filter(rs, keep)| <= |rs|
  {
    if rs != [] {
      FilterLength(rs[..|rs| - 1], keep[..|keep| - 1]);
    }
  }

  /** The records of the entries, in insertion order. */
  function RecordList(es: seq<Entry>): (r: seq<Record>)
    ensures |r| == |es| && forall i :: 0 <= i < |es| ==> r[i] == es[i].record
  {
    seq(|es|, i requires 0 <= i < |es| => es[i].record)
  }

  /** Whether each entry's record matches `text`. */
  ghost function Shown(es: seq<Entry>, text: string): (r: seq<bool>)
    reads RecordsOf(es), PhonesOf(es)
    ensures |r| == |es| && forall i :: 0 <= i < |es| ==> r[i] == es[i].record.Matches(text)
  {
    if es == [] then []
    else
      var init := es[..|es| - 1];
      var last := es[|es| - 1].record;
      assert RecordsOf(init) <= RecordsOf(es) && PhonesOf(init) <= PhonesOf(es);
      assert last in RecordsOf(es) && forall q :: q in last.phones ==> q in PhonesOf(es);
      Shown(init, text) + [last.Matches(text)]
  }

  /** The records shown by `search` for `text`: those that match, in insertion order. */
  ghost function Selected(es: seq<Entry>, text: string): seq<Record>
    reads RecordsOf(es), PhonesOf(es)
  {
    Filter(RecordList(es), Shown(es, text))
  }

  /** The records of the entries. */
  function RecordsOf(es: seq<Entry>): set<Record> {
    set i | 0 <= i < |es| :: es[i].record
  }

  /** The phones held by the records of the entries. */
  function PhonesOf(es: seq<Entry>): set<Phones.Phone>
    reads RecordsOf(es)
  {
    set i, q | 0 <= i < |es| && q in es[i].record.phones :: q
  }

  /** A record is shown exactly when it is the record of some entry and matches. */
  lemma SelectedMembers(es: seq<Entry>, text: string, r: Record)
    ensures r in Selected(es, text) <==> exists i :: 0 <= i < |es| && es[i].record == r && r.Matches(text)
  {
    var rs, keep := RecordList(es), Shown(es, text);
    FilterMembers(rs, keep, r);
    if exists i :: 0 <= i < |es| && es[i].record == r && r.Matches(text) {
      var i :| 0 <= i < |es| && es[i].record == r && r.Matches(text);
      assert rs[i] == r && keep[i];
    }
  }

  /** `search` never shows more records than the book holds. */
  lemma SelectedLength(es: seq<Entry>, text: string)
    ensures |Selected(es, text)| <= |es|
  {
    FilterLength(RecordList(es), Shown(es, text));
  }

  class AddressBook {
    var entries: seq<Entry>

    /** Keys are distinct, and each record is stored under its own name object. */
    ghost predicate Valid()
      reads this
    {
      && KeysDistinct(entries)
      && forall i :: 0 <= i < |entries| ==> entries[i].key == entries[i].record.name
    }

    /** An empty book. */
    constructor ()
      ensures Valid() && entries == []
    {
      entries := [];
    }

    /** `add_record`: stores `r` under its own name object. */
    method AddRecord(r: Record)
      requires Valid()
      modifies this
      ensures Valid()
      ensures entries == Insert(old(entries), r)
    {
      InsertKeepsDistinct(entries, r);
      InsertPositions(entries, r);
      entries := Insert(entries, r);
    }

    /** `__iter__`: the (key, record) pairs in insertion order. */
    method Items() returns (items: seq<(Name, Record)>)
      ensures |items| == |entries|
      ensures forall i :: 0 <= i < |entries| ==> items[i] == (entries[i].key, entries[i].record)
    {
      items := [];
      for i := 0 to |entries|
        invariant |items| == i
        invariant forall j :: 0 <= j < i ==> items[j] == (entries[j].key, entries[j].record)
      {
        items := items + [(entries[i].key, entries[i].record)];
      }
    }

    /**
     * `iterator(count)`: for each pair, a fresh dictionary into which the
     * `while i <= count` loop stores that same pair `count` times.
     */
    method Iterator(count: int) returns (pages: seq<map<Name, Record>>)
      ensures pages == IteratorPages(entries, count)
    {
      var items := Items();
      pages := [];
      for n := 0 to |items|
        invariant |pages| == n
        invariant forall j :: 0 <= j < n ==> pages[j] == IteratorPages(entries, count)[j]
      {
        var (key, value) := items[n];
        var i := 1;
        var page: map<Name, Record> := map[];
        while i <= count
          invariant 1 <= i <= (if count >= 1 then count + 1 else 1)
          invariant page == if i == 1 then map[] else map[key := value]
        {
          page := page[key := value];
          i := i + 1;
        }
        pages := pages + [page];
      }
    }

    /** `get_key_by_name`: the first key, in insertion order, whose string is `name`; None when no key has it. */
    method GetKeyByName(name: string) returns (r: Option<Name>)
      ensures r.None? <==> forall i :: 0 <= i < |entries| ==> entries[i].key.value != name
      ensures r.Some? ==> r.value.value == name && exists i :: (&& 0 <= i < |entries| && entries[i].key == r.value
                                                               && forall j :: 0 <= j < i ==> entries[j].key.value != name)
    {
      var items := Items();
      for i := 0 to |items|
        invariant forall j :: 0 <= j < i ==> entries[j].key.value != name
      {
        var (key, _) := items[i];
        if key.value == name {
          return Some(key);
        }
      }
      return None;
    }

    /**
     * The selection of `search`: each record in insertion order is shown when
     * its lower-cased name contains `text`, or when the digits of one of its
     * phones contain it.
     */
    method Search(text: string) returns (found: seq<Record>)
      ensures found == Selected(entries, text)
    {
      ghost var rs, keep := RecordList(entries), Shown(entries, text);
      found := [];
      var items := Items();
      for n := 0 to |items|
        invariant found == Filter(rs[..n], keep[..n])
      {
        var data := items[n].1;
        assert data == rs[n];
        var show := data.ShownBy(text);
        assert show == keep[n];
        FilterStep(rs, keep, n);
        if show {
          found := found + [data];
        }
      }
      assert rs[..|items|] == rs && keep[..|items|] == keep;
      assert unchanged(RecordsOf(entries), PhonesOf(entries));
    }
  }
}
