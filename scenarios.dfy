/**
 * The repository's own usage scenarios for a record and for the directory,
 * as client methods: each outcome follows from the contracts of `Contacts`
 * alone.
 */
module Scenarios {
  import opened Wrappers
  import opened PhoneLists
  import opened Contacts

  /** The phone-list steps of the record scenarios, as values. */
  lemma SampleSteps()
    ensures Appended([], "1234567890") == ["1234567890"]
    ensures Removed(["1234567890"], "1234567890") == []
    ensures Edited(["1234567890"], "1234567890", "0987654321") == ["0987654321"]
    ensures "1234567890" != "0987654321"
    ensures Header("John Doe") + Join(Separator, []) == "Contact name: John Doe, phones: "
    ensures Header("John Doe") + Join(Separator, ["0987654321"]) == "Contact name: John Doe, phones: 0987654321"
  {
    assert IsPhoneValid("1234567890");
    assert IsPhoneValid("0987654321");
  }

  /** A new record shows no phones; a valid phone added is stored, and removed is gone. */
  method RecordScenario() returns (shown: string, afterAdd: seq<string>, afterRemove: seq<string>)
    ensures shown == "Contact name: John Doe, phones: "
    ensures "1234567890" in afterAdd
    ensures "1234567890" !in afterRemove
  {
    SampleSteps();
    var record := new Record("John Doe");
    shown := record.ToString();
    record.AddPhone("1234567890");
    afterAdd := record.phones;
    record.RemovePhone("1234567890");
    afterRemove := record.phones;
  }

  /** After editing the only stored phone, only the new value is found. */
  method EditScenario() returns (shown: string, oldFound: Option<string>, newFound: Option<string>)
    ensures shown == "Contact name: John Doe, phones: 0987654321"
    ensures oldFound == None
    ensures newFound == Some("0987654321")
  {
    SampleSteps();
    var record := new Record("John Doe");
    record.AddPhone("1234567890");
    record.EditPhone("1234567890", "0987654321");
    oldFound := record.FindPhone("1234567890");
    newFound := record.FindPhone("0987654321");
    shown := record.ToString();
  }

  /** A phone that fails validation is never stored. */
  method RejectScenario() returns (afterAdd: seq<string>, afterEdit: seq<string>)
    ensures afterAdd == []
    ensures afterEdit == ["1234567890"]
  {
    var record := new Record("John Doe");
    assert !IsPhoneValid("12345");
    record.AddPhone("12345");
    afterAdd := record.phones;
    assert IsPhoneValid("1234567890");
    record.AddPhone("1234567890");
    assert !IsPhoneValid("09876x4321");
    record.EditPhone("1234567890", "09876x4321");
    afterEdit := record.phones;
  }

  /** A record added is found under its name, and after deleting it nothing is. */
  method AddressBookScenario() returns (record: Record, found: Option<Record>, gone: Option<Record>)
    ensures found == Some(record)
    ensures gone == None
  {
    var book := new AddressBook();
    record := new Record("Jane Doe");
    book.AddRecord(record);
    found := book.Find("Jane Doe");
    book.Delete("Jane Doe");
    gone := book.Find("Jane Doe");
  }

  /** Adding a second record under the same name replaces the first. */
  method OverwriteScenario() returns (first: Record, second: Record, found: Option<Record>)
    ensures found == Some(second)
    ensures first != second
  {
    var book := new AddressBook();
    first := new Record("Jane Doe");
    second := new Record("Jane Doe");
    book.AddRecord(first);
    book.AddRecord(second);
    found := book.Find("Jane Doe");
  }
}
