# Contact book, modelled in Dafny

This project models the core of a command-line contact book written in Python (`phone_book_Mod_12_DZ.py`):

- the `AddressBook` dictionary from `Name` keys to `Record`s;
- the `Record` with its list of `Phone`s and its `Birthday`;
- the phone format check;
- the birthday parser and countdown;
- the rule the `search` command uses to pick records.

Modules follow the program's entities:

| module | file | models |
|---|---|---|
| `Failures` | `failures.dfy` | the exceptions raised (`PhoneFormatError`, `ValueError`, `IndexError`, `KeyError`, `AttributeError`) as values, plus `Option`, `Result` and `Outcome` |
| `Phones` | `phones.dfy` | `Phone.check_phone`, and `Phone` as a class with a validating setter |
| `Calendar` | `calendar.dfy` | the proleptic Gregorian calendar of `datetime.date` (validity, ordinals, comparison), and the countdown of `days_to_birthday` |
| `DateText` | `datetext.dfy` | `strptime(value, '%d-%m-%Y')` and `strftime('%d-%m-%Y')` on zero-padded DD-MM-YYYY text |
| `TextSearch` | `textsearch.dfy` | `str.find`, ASCII `str.lower`, keeping only the digits of a phone, and the search match rule |
| `Records` | `records.dfy` | `Name`, `Birthday` and `Record` as classes, with the phone-list operations changing the list in place |
| `Book` | `book.dfy` | `AddressBook` as a class whose `entries` sequence is the dictionary in insertion order, with `add_record`, `__iter__`, `iterator`, `get_key_by_name` and the `search` selection |

Objects the program changes in place are classes:

- `Phone`, `Birthday`, `Record` and `AddressBook` have fields that their methods update.
- `Name` is a class with a constant value. Python compares dictionary keys that define no equality by identity, and Dafny compares class references the same way.

How the model treats time, text and exceptions:

- **The clock.** The clock read `datetime.date.today()` is not modelled. `today` is a parameter of `Birthday.DaysToBirthday`.
- **Text.** Text is handled as ASCII: `str.lower` changes only `A`-`Z`, and `str.isdigit` accepts only `0`-`9`.
- **Exceptions.** Where the program raises, a method returns an outcome, or a function its `Result`. The setters that print a diagnostic instead of raising return `Fail`, and keep the old value.

Where what the program evidently means to do differs from what its code does, the model follows the code:

- `add_record` overwrites the record stored under an existing key. It does not refuse a duplicate contact.
- `delete_phone` removes from the list while iterating over it. So of two adjacent equal phones, the second survives (`DeleteAsWritten`). It is neither remove-first nor remove-all.
- `list.pop` accepts negative indices.
- `iterator(count)` yields one page per record. The page holds that record when `count >= 1` and is empty otherwise. It never rejects a page size.
- A February 29 birthday in a common year raises `ValueError`. The countdown does not move it to March 1.
- A phone is valid when its string *contains* a `(ddd)ddd-dd-dd` pattern anywhere. The whole string does not have to match.
- Removing a contact from the book is not something the code does, so it is not modelled.

## Model

| member | source | states |
|---|---|---|
| `Phones.FirstMatchFrom` | phone_book_Mod_12_DZ.py:82-83 | the regex scan: returns the first position at or after `i` where a `(ddd)ddd-dd-dd` piece starts; None exactly when there is none |
| `Phones.CheckPhone` | phone_book_Mod_12_DZ.py:80-85 | returns the string unchanged exactly when it contains a `(ddd)ddd-dd-dd` piece; otherwise PhoneFormatError |
| `Phones.CheckPhoneAllowsSurroundingText` | phone_book_Mod_12_DZ.py:82-85 | any text before or after a well-formed phone still passes the check, returned whole |
| `Phones.CheckPhoneRejectsShort` | phone_book_Mod_12_DZ.py:82-84 | a string shorter than the 14-character pattern always fails the check |
| `Phones.ContainsPhone` | phone_book_Mod_12_DZ.py:82-83 | defines what `re.findall` finding something means: the pattern matches at some position |
| `Phones.Phone.New` | phone_book_Mod_12_DZ.py:77-78 | `Phone(value)`: a new valid phone holding the string exactly when it passes the check; PhoneFormatError otherwise |
| `Phones.Phone.SetValue` | phone_book_Mod_12_DZ.py:87-89 | the setter stores the string exactly when it passes the check; otherwise it raises PhoneFormatError and leaves the value unchanged; a valid phone stays valid |
| `Calendar.NextBirthday` | phone_book_Mod_12_DZ.py:47-49 | defines the next birthday: `datetime.date` of today's year, or of the next year when that date is before today; its result is always a calendar date; `NextBirthdayIsNext` and `DaysToBirthdayFails` state what it gives |
| `Calendar.DaysToBirthday` | phone_book_Mod_12_DZ.py:51 | defines `(next_birthday - today).days` as the difference of ordinals; `DaysToBirthdayBounds` and `DaysToBirthdayFails` state its range and its errors |
| `Calendar.CountdownMessage` | phone_book_Mod_12_DZ.py:53-56 | defines the returned text, "Today birthday" or "N days to next birthday"; `CountdownMessageDistinct` states when it is which |
| `Calendar.OrdinalOrder` | phone_book_Mod_12_DZ.py:48-51 | on calendar dates, `a < b` holds exactly when `a`'s ordinal is smaller, and equal ordinals mean equal dates, so the comparison at line 48 and the subtraction at line 51 agree |
| `Calendar.NextBirthdayIsNext` | phone_book_Mod_12_DZ.py:47-49 | the next birthday has the birthday's month and day, falls in today's year or the next one, is never before today, and is in the next year only when this year's has passed |
| `Calendar.DaysToBirthdayBounds` | phone_book_Mod_12_DZ.py:51-56 | the countdown is 0 to 365 days; it is 0, and the text is "Today birthday", exactly when the month and day are today's |
| `Calendar.DaysToBirthdayFails` | phone_book_Mod_12_DZ.py:47-49 | the countdown raises exactly in three cases, always with ValueError: a February 29 birthday in a common year; a February 29 birthday after February 29 of a leap year; a passed birthday in the year 9999 |
| `Calendar.SameYearDistance` | phone_book_Mod_12_DZ.py:51 | between two dates of one year, the day difference is 0 to 365, and 0 only for the same date |
| `Calendar.NextYearDistance` | phone_book_Mod_12_DZ.py:49-51 | from today to a birthday moved to next year, the difference is 1 to 365 days |
| `Calendar.DayOfYearMonotone` | phone_book_Mod_12_DZ.py:48 | within a year, `<` on dates agrees with `<` on the day of the year |
| `Calendar.DaysBeforeYearStep` | phone_book_Mod_12_DZ.py:51 | consecutive years' ordinals differ by that year's length (365 or 366) |
| `Calendar.LeapYearsApart` | phone_book_Mod_12_DZ.py:47-49 | two consecutive years are never both leap years |
| `Calendar.CountdownMessageDistinct` | phone_book_Mod_12_DZ.py:53-56 | the returned text is "Today birthday" exactly for a difference of 0 days |
| `DateText.ParseDate` | phone_book_Mod_12_DZ.py:61 | gives a calendar date, or ValueError when the text is not DD-MM-YYYY or names no date |
| `DateText.FormatDate` | phone_book_Mod_12_DZ.py:201 | `strftime('%d-%m-%Y')` always has the DD-MM-YYYY shape |
| `DateText.ParseFormat` | phone_book_Mod_12_DZ.py:58-64 | formatting a calendar date and parsing the text gives back that date |
| `DateText.FormatParse` | phone_book_Mod_12_DZ.py:201 | formatting the date parsed from an accepted string gives back that string |
| `DateText.NumberOfPadded` | phone_book_Mod_12_DZ.py:201 | reading back the zero-padded digits of a number that fits gives the number |
| `DateText.PaddedNumberOf` | phone_book_Mod_12_DZ.py:61 | padding the number read from a digit string to the same width gives that string |
| `TextSearch.FindFrom` | phone_book_Mod_12_DZ.py:224 | the scan of `str.find` from `i` returns -1 when there is no occurrence at or after `i`, and otherwise the first such occurrence |
| `TextSearch.Find` | phone_book_Mod_12_DZ.py:224 | `find` returns a non-negative result exactly when the text occurs, and then the lowest index where it occurs |
| `TextSearch.LowerNoCapitals` | phone_book_Mod_12_DZ.py:224 | lower-cased text holds no capital letter and leaves every other character as it was; text is unchanged by `lower` exactly when it has no capital |
| `TextSearch.DigitsOnly` | phone_book_Mod_12_DZ.py:226 | defines `''.join(filter(str.isdigit, s))`; the three lemmas below state its properties |
| `TextSearch.DigitsOnlyKeepsDigits` | phone_book_Mod_12_DZ.py:226 | keeping the digits gives only digits, never a longer string, and leaves a digit string unchanged |
| `TextSearch.DigitsOnlyConcat` | phone_book_Mod_12_DZ.py:226 | the digits of a joined string are the digits of the first part followed by those of the second |
| `TextSearch.DigitsOnlyChar` | phone_book_Mod_12_DZ.py:226 | one character is kept exactly when it is a digit; with `DigitsOnlyConcat` this fixes the digits of every string, in order |
| `TextSearch.Matches` | phone_book_Mod_12_DZ.py:224-227 | defines the rule as written: with `find`, the lower-cased name against the text, or the digits of any phone against it; `MatchesMeansContains` restates it with substrings |
| `TextSearch.MatchesMeansContains` | phone_book_Mod_12_DZ.py:224-227 | a record matches exactly when its lower-cased name contains the (not lower-cased) text, or the digits of one of its phones do |
| `TextSearch.CapitalisedNameNotFound` | phone_book_Mod_12_DZ.py:224 | as written, the name "Bob" is not found by the text "Bob"; under the intended rule it is |
| `TextSearch.MatchesIgnoringCase` | phone_book_Mod_12_DZ.py:224-227 | defines the intended rule: the text is lower-cased as well as the name |
| `TextSearch.NameFindsItself` | phone_book_Mod_12_DZ.py:224 | under the intended rule, a name is found by every text that equals it up to case ("BOB" finds "Bob") |
| `TextSearch.MatchesIgnoringCaseIgnoresCase` | phone_book_Mod_12_DZ.py:224-227 | under the intended rule, two texts equal up to case select exactly the same records (a text found among digits has no letters) |
| `TextSearch.IntendedAcceptsAsWritten` | phone_book_Mod_12_DZ.py:224-227 | every record the rule as written shows, the intended rule shows too |
| `Records.Name.constructor` | phone_book_Mod_12_DZ.py:30-32 | a name holds the string it was created with |
| `Records.Birthday.constructor` | phone_book_Mod_12_DZ.py:97-98 | a new birthday holds no date |
| `Records.Birthday.SetValue` | phone_book_Mod_12_DZ.py:58-64 | stores the parsed date when the text parses; otherwise gives ValueError and keeps the previous value |
| `Records.Birthday.DaysToBirthday` | phone_book_Mod_12_DZ.py:44-56 | AttributeError when no date is stored; otherwise ValueError exactly when the next birthday cannot be built; the text is the countdown message of the calendar countdown, for some count from 0 to 365 that is 0 exactly on the birthday's month and day, so "Today birthday" exactly then |
| `Records.NormalIndexIsModulo` | phone_book_Mod_12_DZ.py:118 | `pop`'s index rule: an index in [-len, len) names the position congruent to it modulo the length, any other names none; position `j` is named by `j` and by `j - len` |
| `Records.DeleteAsWritten` | phone_book_Mod_12_DZ.py:112-115 | defines what `delete_phone` leaves of the values: a matching value is dropped, and the value after it is kept unexamined; the lemmas below state its properties |
| `Records.DeleteShortens` | phone_book_Mod_12_DZ.py:112-115 | `delete_phone` never lengthens the list, and shortens it when the phone is present |
| `Records.DeleteKeepsOthers` | phone_book_Mod_12_DZ.py:112-115 | the phones different from the deleted one all survive, in their original order |
| `Records.DeleteAbsent` | phone_book_Mod_12_DZ.py:112-115 | deleting a phone that is not in the list changes nothing |
| `Records.DeleteRemovesFirst` | phone_book_Mod_12_DZ.py:112-115 | the first occurrence of the phone is always removed: the list before it is kept, and the next phone takes its place |
| `Records.DeleteRun` | phone_book_Mod_12_DZ.py:113-115 | of `n` equal adjacent phones, the deletion leaves `n / 2`: removing while iterating skips every other copy |
| `Records.ReplaceAll` | phone_book_Mod_12_DZ.py:120-123 | defines what `edit_phone` makes of the values: each value equal to the old phone becomes the new one |
| `Records.ReplaceAllAt` | phone_book_Mod_12_DZ.py:120-123 | each position holds the new phone where it held the old one, and is otherwise unchanged |
| `Records.ReplaceAllAbsent` | phone_book_Mod_12_DZ.py:120-123 | editing a phone that is not present changes nothing |
| `Records.ReplaceAllRemoves` | phone_book_Mod_12_DZ.py:120-123 | after editing to a different phone, the old phone no longer occurs |
| `Records.DeleteKeepsPassing` | phone_book_Mod_12_DZ.py:112-115 | when every phone passes the check before `delete_phone`, every remaining one still does |
| `Records.RemoveAtKeepsPassing` | phone_book_Mod_12_DZ.py:117-118 | when every phone passes the check before `delete_phone_index`, every remaining one still does |
| `Records.ReplaceKeepsPassing` | phone_book_Mod_12_DZ.py:120-123 | when every phone and the new phone pass the check, every edited phone still passes |
| `Records.RecordAsWritten.constructor` | phone_book_Mod_12_DZ.py:96-97 | the state `__init__` builds as written: the name set, `birthday` None, and no `phones` attribute |
| `Records.RecordAsWritten.AddPhone` | phone_book_Mod_12_DZ.py:109-110 | with no `phones` attribute, AttributeError before the phone is checked; with one, the check and the append of `add_phone`: on a pass the old phones are kept and a fresh phone holding the string is appended, on a failure the list is unchanged |
| `Records.RecordAsWritten.Create` | phone_book_Mod_12_DZ.py:95-107 | `Record(name, phone, birthday)` as written succeeds exactly when neither a phone nor a birthday is given, and then has no phones list and no Birthday; otherwise it raises AttributeError, whether or not the phone passes the check |
| `Records.Record.constructor` | phone_book_Mod_12_DZ.py:95-103 | a new record has the name, no phones and a birthday with no date |
| `Records.Record.Create` | phone_book_Mod_12_DZ.py:95-107 | `Record(name, phone, birthday)` as intended: a record exists exactly when the phone is absent or passes the check (otherwise PhoneFormatError); it holds that phone, and the birthday's date when the text parses |
| `Records.Record.AddPhone` | phone_book_Mod_12_DZ.py:109-110 | appends a new phone holding the string when it passes the check; otherwise PhoneFormatError and the list is unchanged |
| `Records.Record.DeletePhone` | phone_book_Mod_12_DZ.py:112-115 | the phone values become those `DeleteAsWritten` gives, and the list becomes `DeleteObjects` of the old one: the phone objects the iteration leaves, in order |
| `Records.DeleteWhileIterating` | phone_book_Mod_12_DZ.py:113-115 | the loop of `delete_phone`, removing from the list it walks, leaves exactly the phone objects `DeleteObjects` gives for their values, still distinct |
| `Records.Record.DeletePhoneIndex` | phone_book_Mod_12_DZ.py:117-118 | removes the phone at the normalised index exactly when the index is in [-len, len); IndexError and no change otherwise |
| `Records.Record.EditPhone` | phone_book_Mod_12_DZ.py:120-123 | every phone equal to the old one gets the new value; when the old phone is present and the new one fails the check, PhoneFormatError and no phone changes |
| `Records.Record.ShownBy` | phone_book_Mod_12_DZ.py:224-227 | the test made on one record, name first and then phone by phone, gives exactly the search rule for that record |
| `Book.IndexOfKey` | phone_book_Mod_12_DZ.py:9 | the position of a key object, or None exactly when it is not stored |
| `Book.Lookup` | phone_book_Mod_12_DZ.py:174 | `data[key]` (also at :163 and :191; the store is at :9) raises KeyError exactly when the key is not stored, and otherwise gives the record stored under that key |
| `Book.Insert` | phone_book_Mod_12_DZ.py:9 | defines `data[record.name] = record` on the entries: overwrite in place, or append; the lemmas below state its properties |
| `Book.LookupInsertSame` | phone_book_Mod_12_DZ.py:8-9 | after `add_record(r)`, the record stored under `r.name` is `r` |
| `Book.LookupInsertOther` | phone_book_Mod_12_DZ.py:8-9 | `add_record(r)` leaves what every other key looks up unchanged |
| `Book.InsertPositions` | phone_book_Mod_12_DZ.py:8-9 | a stored key keeps its place with the same keys in order; a new key is appended at the end; other entries do not move |
| `Book.InsertKeepsDistinct` | phone_book_Mod_12_DZ.py:8-9 | `add_record` never stores a key twice |
| `Book.InsertIdempotent` | phone_book_Mod_12_DZ.py:8-9 | adding the same record twice is the same as adding it once |
| `Book.AddressBook.AddRecord` | phone_book_Mod_12_DZ.py:8-9 | stores the record under its name object, overwriting in place or appending, and keeps keys distinct |
| `Book.AddressBook.Items` | phone_book_Mod_12_DZ.py:20-22 | `__iter__` yields each key and its record, in insertion order |
| `Book.AddressBook.Iterator` | phone_book_Mod_12_DZ.py:11-18 | `iterator(count)` yields the pages the code builds, one per stored record |
| `Book.IteratorPages` | phone_book_Mod_12_DZ.py:11-18 | defines the pages `iterator` yields as written: one per entry, holding its pair when `count >= 1` |
| `Book.IteratorOnePerRecord` | phone_book_Mod_12_DZ.py:11-18 | there are as many pages as records; each holds exactly its own key and record when `count >= 1`, and nothing otherwise |
| `Book.IteratorIgnoresCount` | phone_book_Mod_12_DZ.py:11-18 | for two records and `count` 2, the code yields two pages, while paging by two gives one page of both |
| `Book.Pages` | phone_book_Mod_12_DZ.py:11-18 | defines the intended paging: consecutive runs of `size` entries |
| `Book.PagesFlatten` | phone_book_Mod_12_DZ.py:11-18 | intended paging: the pages joined are the entries, once each, in order |
| `Book.PagesSizes` | phone_book_Mod_12_DZ.py:11-18 | intended paging: each page holds 1 to `size` entries, and all but the last exactly `size` |
| `Book.AddressBook.GetKeyByName` | phone_book_Mod_12_DZ.py:24-27 | the first key whose value is the name; None exactly when no key has that value |
| `Book.AddressBook.Search` | phone_book_Mod_12_DZ.py:220-229 | the records `search` shows: those matching the rule, in insertion order |
| `Book.Selected` | phone_book_Mod_12_DZ.py:222-229 | defines the records `search` prints: the records of the entries, in order, filtered by the rule |
| `Book.Filter` | phone_book_Mod_12_DZ.py:229 | defines the order-preserving selection of the records whose flag is set |
| `Book.FilterMembers` | phone_book_Mod_12_DZ.py:229 | a record is kept exactly when it is at a position whose shown flag is set |
| `Book.SelectedMembers` | phone_book_Mod_12_DZ.py:222-229 | a record is shown exactly when it is stored in the book and matches the text |
| `Book.SelectedLength` | phone_book_Mod_12_DZ.py:222-229 | never more records are shown than the book holds |

## Left out

- Persistence with `pickle` at startup and at `stop` (lines 125-129 and 232-236): file I/O.
- The command loop, parsing input, the handler table, `error_handler` and the command handlers (lines 132-288): user I/O and dispatch. The model covers only the operations these handlers call.
- Printing: the `search` and `show` output lines and the setters' printed diagnostics. The printed diagnostic becomes the `Fail` outcome.
- `datetime.date.today()`: the clock becomes the `today` parameter.
- Unicode: `str.lower` and `str.isdigit` are modelled on ASCII letters and digits only.
- `DateText.ParseDate`: accepts only `DD-MM-YYYY` with two ASCII digits for the day and for the month, and four for the year. `strptime` also accepts a single-digit day or month (`1-1-2000`), a day padded with a space (` 1-01-2000`), and non-ASCII decimal digits, which its `\d` matches; those inputs give ValueError here. Like `strptime`, it requires exactly four year digits.
- `DateText.FormatDate`: always pads the year to 4 digits. Some platforms' `strftime` write years before 1000 unpadded.
- `Records.Birthday`: stores the date alone. The `datetime` that `strptime` returns also carries a time of 00:00, which the countdown never reads.
- `Records.Birthday.constructor`: models the intended `Birthday()` with no date. In Python, `Birthday()` itself calls `strptime(None, ...)` and raises TypeError, which the setter does not catch.
- `Records.Record.Create`: models the evidently intended `__init__` (a `phones` field that starts empty, a `Birthday` object), which the rest of the model uses. The code as written is modelled by `Records.RecordAsWritten`, whose only operation besides creation is `add_phone`.
- Generators: `iterator` and `__iter__` are modelled as sequences built eagerly. Interleaving them with changes to the book is not modelled.
- `Records.Record.Valid`: says only that the record's phones are distinct objects. That every stored string passes the check is stated per phone by `Phone.Valid` and on value lists by the `*KeepsPassing` lemmas. It is not a record invariant.
- `Book.PagesSizes`: does not state the number of pages, the ceiling of entries over size.
- `Book.AddressBook.Search` and `Book.AddressBook.Iterator`: keep the behaviour of the code. The corrected matching rule (`TextSearch.MatchesIgnoringCase`) and paging (`Book.Pages`) are defined and proved beside them, but nothing calls them.
- What happens when identical `Phone` objects appear twice in a list is not modelled. Every method requires the phones to be distinct. The program never builds such a list, since each `add_phone` call creates a new object.

## Findings

| source | as written | input that shows it | evidently intended | confidence | as-written member | corrected member |
|---|---|---|---|---|---|---|
| phone_book_Mod_12_DZ.py:11-18 | the inner loop stores the same single pair `count` times, so each page holds one record and `count` only decides whether the page is empty | any book of two records, `iterator(2)`: two pages of one record each | pages of `count` consecutive records, the last possibly shorter | medium, not executed | `Book.IteratorIgnoresCount` | `Book.PagesSizes` |
| phone_book_Mod_12_DZ.py:224 | the name is lower-cased but the search text is not, so a text with a capital letter never matches a name | a contact named "Bob", `search Bob`: not shown | match names regardless of case, lower-casing the text too | medium, not executed | `TextSearch.CapitalisedNameNotFound` | `TextSearch.NameFindsItself` |
| phone_book_Mod_12_DZ.py:97-107 | `phones = []` binds a local and `self.birthday = None`, so `Record(name, phone)` raises AttributeError in `add_phone`, and `Record(name, None, birthday)` raises on `self.birthday.value` | `Record("Ann", "(050)123-45-67")` | the commented-out lines 98-102: a `phones` field and a `Birthday()` object | high, not executed | `Records.RecordAsWritten.Create` | `Records.Record.Create` |
