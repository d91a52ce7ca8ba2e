# Address book: a verified model

This project models the in-memory contact directory of `address_book.py`.
A `Record` is one contact. It has a name, fixed when the record is made, and an
ordered list of phone numbers, which may hold duplicates. Phones are added,
removed, edited and looked up in place. Every phone the record stores has
passed one validation gate: exactly ten characters, all digits. Invalid input
and misses are silent no-ops. An `AddressBook` maps contact names to records.
Adding a record files it under its own name and replaces any earlier record
with that name. Lookups of a missing name give `None`. Deleting a missing name
does nothing.

Layout:

- `wrappers.dfy`, module `Wrappers`: the `Option` result used where the original returns `None`.
- `phone_lists.dfy`, module `PhoneLists`: the pure part. It holds the validation gate
  `IsPhoneValid` and the value functions `Appended`, `Removed` and `Edited`. These say
  what adding, removing and editing make of a phone list. It also holds the `"; "` join
  used to show a record. The lemmas state what those operations promise.
- `address_book.dfy`, module `Contacts`: the classes `Record` (field `phones: seq<string>`)
  and `AddressBook` (field `data: map<string, Record>`). Their methods update those fields
  in place. Each `Record` mutator's `ensures` ties the new phone list to a `PhoneLists`
  function of the old one. The `AddressBook` mutators state the new map as an update or
  removal of the old map. Every mutator keeps its class invariant `Valid()`. `RemovePhone`, `EditPhone` and
  `FindPhone` keep the original's first-match scanning loops.
- `scenarios.dfy`, module `Scenarios`: the repository's own usage scenarios, written as
  client methods whose outcomes follow from the class contracts.

`is_phone_valid` does not read the record, so it is the module-level function
`PhoneLists.IsPhoneValid`. Names and phones are plain strings.

## Model

| member | source | states |
|---|---|---|
| PhoneLists.DigitsFrom | address_book.py:57 | the character-by-character numeric check holds exactly when every character from the given position on is a digit |
| PhoneLists.IsPhoneValid | address_book.py:49-57 | a phone is valid exactly when it has length 10 and every character is a digit; a valid phone never contains the separator character |
| PhoneLists.AppendedValid | address_book.py:59-66 | adding keeps every stored phone valid |
| PhoneLists.AddThenFind | address_book.py:59-66 | in every list the record can reach (all phones valid), and in any list not yet holding the phone, the phone is present after adding it exactly when it is valid |
| PhoneLists.RemovedAbsent | address_book.py:68-77 | removing a phone that is not stored leaves the list unchanged |
| PhoneLists.RemovedAtFirst | address_book.py:74-77 | removing deletes exactly the element at the first index holding the phone: the result is the part before it followed by the part after it |
| PhoneLists.RemovedCount | address_book.py:68-77 | removing takes away one occurrence of the phone if there is one, and every other element stays |
| PhoneLists.RemovedKeepsDuplicates | address_book.py:74-77 | when the phone occurs at least twice, a later duplicate remains after removing, with one occurrence fewer |
| PhoneLists.RemovedValid | address_book.py:68-77 | removing keeps every stored phone valid |
| PhoneLists.EditedNoop | address_book.py:79-90 | editing is a no-op when the new value is invalid or the old value is absent |
| PhoneLists.EditedAtFirst | address_book.py:86-90 | a successful edit puts the new value at the first index holding the old value; the length and every other position are unchanged |
| PhoneLists.EditedValid | address_book.py:79-90 | editing keeps every stored phone valid |
| PhoneLists.EditedCount | address_book.py:79-90 | a successful edit trades one occurrence of the old value for one of the new value |
| PhoneLists.EditedFinds | address_book.py:79-102 | after editing the only occurrence of a value to a different valid value, the old value is no longer stored and the new one is |
| PhoneLists.Join | address_book.py:110 | the joined text is as long as all parts together plus one separator between each two neighbours, and it starts with the first part |
| PhoneLists.SplitJoin | address_book.py:110 | the "; "-joined phones of a valid list read back as exactly that list; the reader checks every phone and every separator, so the rendering is unambiguous |
| PhoneLists.JoinSplit | address_book.py:110 | conversely, any text that reads back as a list consists of valid phones and is exactly their "; "-joined rendering |
| Contacts.Record.ToString | address_book.py:104-110 | the text starts with "Contact name: <name>, phones: "; with no phones that is the whole text, and otherwise the first phone follows it directly |
| Contacts.Record.constructor | address_book.py:40-47 | a new record has the given name and an empty phone list, and satisfies the invariant |
| Contacts.Record.AddPhone | address_book.py:59-66 | the list becomes the old list with the phone appended when the phone is valid, and is otherwise unchanged; the invariant is kept |
| Contacts.Record.RemovePhone | address_book.py:68-77 | the list becomes the old list with its first occurrence of the phone deleted, or is unchanged when there is none; the invariant is kept |
| Contacts.Record.EditPhone | address_book.py:79-90 | the list becomes the old list with its first occurrence of the old value overwritten, when the new value is valid; otherwise it is unchanged; the invariant is kept |
| Contacts.Record.FindPhone | address_book.py:92-102 | the result is absent exactly when no stored phone equals the argument, and otherwise it is the phone equal to it |
| Contacts.Record.ToStringShows | address_book.py:104-110 | the shown text starts with "Contact name: <name>, phones: ", and the rest of it reads back, separators included, as exactly the phone list; with no phones nothing follows the header |
| Contacts.AddressBook.constructor | address_book.py:112-116 | a new directory is empty and satisfies its invariant |
| Contacts.AddressBook.AddRecord | address_book.py:117-123 | the map gains or overwrites the entry under the record's name, and every other entry is unchanged; every record stays filed under its own name |
| Contacts.AddressBook.Find | address_book.py:125-132 | the result is present exactly when the name is a key, it is the record stored under that name, and that record carries that name |
| Contacts.AddressBook.Delete | address_book.py:134-141 | the entry under the name is removed if present, the map is otherwise unchanged, and the invariant is kept |
| Scenarios.SampleSteps | address_book.py:151-162 | the phone-list values the record scenario goes through |
| Scenarios.RecordScenario | address_book.py:151-157 | a new "John Doe" shows "Contact name: John Doe, phones: "; after adding "1234567890" it is stored, and after removing it, it is gone |
| Scenarios.EditScenario | address_book.py:158-162 | after adding "1234567890" and editing it to "0987654321", the old number is not found and the new one is |
| Scenarios.RejectScenario | address_book.py:59-90 | an invalid phone is not added, and an edit to an invalid value changes nothing |
| Scenarios.AddressBookScenario | address_book.py:165-172 | a record added under "Jane Doe" is found as that same record, and after deleting it nothing is found |
| Scenarios.OverwriteScenario | address_book.py:117-123 | after adding two records with the same name, finding that name gives the second one |

## Left out

- The `Field`, `Name` and `Phone` wrapper classes (address_book.py:4-34) and `Field.__str__`: they only wrap a string, so names and phones are strings here.
- Everything `AddressBook` inherits from `UserDict` (iteration, indexing, `in`, `len`): only `add_record`, `find` and `delete` are modelled.
- Unicode digits: Python's `str.isnumeric()` also accepts non-ASCII numeric characters such as superscripts. The model accepts only the ASCII digits `'0'..'9'`. A ten-character string of such non-ASCII numerals, which the original accepts, is rejected by the model.
- Contacts.Record.FindPhone: returns the matching string instead of the stored `Phone` object. Under value equality the first match cannot be told apart from any other match.
- Object identity and aliasing: records are class references, and `Find` returns the stored reference. Changes made to a record through a reference kept outside the book are not tracked. So the directory's invariant covers only the name under which each record is filed, not the validity of each record's phones.
- The `print` calls and the test harness (address_book.py:144-177): the test assertions appear only as the `Scenarios` methods.
- The methods do not require the invariant beforehand, because the original accepts any phone list. They promise to keep it when it held before.
