/**
 * The contact directory: a `Record` holds one contact's name and its ordered
 * phone list, and an `AddressBook` maps contact names to records. Both are
 * updated in place, so both are classes; what their methods do to the phone
 * list is specified by the value functions of `PhoneLists`.
 */
module Contacts {
  import opened Wrappers
  import opened PhoneLists

  /** The text shown before the phone list of a contact called `name`. */
  function Header(name: string): string
  {
    "Contact name: " + name + ", phones: "
  }

  /** One contact: a name fixed at creation and an ordered list of phones, duplicates allowed. */
  class Record {
    const name: string
    var phones: seq<string>

    /** Through the record's own operations only valid phones are ever stored. */
    ghost predicate Valid()
      reads this
    {
      AllValid(phones)
    }

    constructor (name: string)
      ensures this.name == name && phones == []
      ensures Valid()
    {
      this.name := name;
      phones := [];
    }

    /** Appends `phone` when it is valid; otherwise does nothing. */
    method AddPhone(phone: string)
      modifies this
      ensures phones == Appended(old(phones), phone)
      ensures old(Valid()) ==> Valid()
    {
      if IsPhoneValid(phone) {
        phones := phones + [phone];
      }
    }

    /** Deletes the first phone equal to `phone`; does nothing when there is none. */
    method RemovePhone(phone: string)
      modifies this
      ensures phones == Removed(old(phones), phone)
      ensures old(Valid()) ==> Valid()
    {
      var index := 0;
      while index < |phones|
        invariant 0 <= index <= |phones|
        invariant phones == old(phones)
        invariant phone !in phones[..index]
      {
        if phones[index] == phone {
          RemovedAtFirst(phones, phone, index);
          if Valid() {
            RemovedValid(phones, phone);
          }
          phones := phones[..index] + phones[index + 1..];
          return;
        }
        index := index + 1;
      }
      assert phones[..index] == phones;
      RemovedAbsent(phones, phone);
    }

    /**
     * When `newValue` is valid, overwrites the first phone equal to `oldValue`
     * with it, in the same position; otherwise, or when `oldValue` is absent,
     * does nothing.
     */
    method EditPhone(oldValue: string, newValue: string)
      modifies this
      ensures phones == Edited(old(phones), oldValue, newValue)
      ensures old(Valid()) ==> Valid()
    {
      if IsPhoneValid(newValue) {
        var index := 0;
        while index < |phones|
          invariant 0 <= index <= |phones|
          invariant phones == old(phones)
          invariant oldValue !in phones[..index]
        {
          if phones[index] == oldValue {
            ReplacedAtFirst(phones, oldValue, newValue, index);
            phones := phones[index := newValue];
            return;
          }
          index := index + 1;
        }
        assert phones[..index] == phones;
      }
      EditedNoop(phones, oldValue, newValue);
    }

    /** The stored phone equal to `phone`, or `None` exactly when no stored phone equals it. */
    method FindPhone(phone: string) returns (found: Option<string>)
      ensures found.None? <==> phone !in phones
      ensures found.Some? ==> found.value == phone
    {
      for index := 0 to |phones|
        invariant phone !in phones[..index]
      {
        if phones[index] == phone {
          return Some(phones[index]);
        }
      }
      assert phones[..|phones|] == phones;
      return None;
    }

    /** The record shown as text: the header, then the phones separated by "; ". */
    function ToString(): (s: string)
      reads this
      ensures Header(name) <= s
      ensures phones == [] ==> s == Header(name)
      ensures phones != [] ==> Header(name) + phones[0] <= s
    {
      Header(name) + Join(Separator, phones)
    }

    /**
     * The text starts with the header for this name and the rest of it reads
     * back as exactly the phone list; with no phones nothing follows the header.
     */
    lemma ToStringShows()
      requires Valid()
      ensures ToString()[..|Header(name)|] == Header(name)
      ensures SplitPhones(ToString()[|Header(name)|..]) == Some(phones)
      ensures phones == [] ==> ToString() == Header(name)
    {
      SplitJoin(phones);
      assert ToString()[|Header(name)|..] == Join(Separator, phones);
    }
  }

  /** The directory: at most one record per name, the last one added winning. */
  class AddressBook {
    var data: map<string, Record>

    /** Every record is filed under its own name. */
    ghost predicate Valid()
      reads this
    {
      forall n :: n in data ==> data[n].name == n
    }

    constructor ()
      ensures data == map[]
      ensures Valid()
    {
      data := map[];
    }

    /** Files `record` under its name, replacing any record already there. */
    method AddRecord(record: Record)
      modifies this
      ensures data == old(data)[record.name := record]
      ensures old(Valid()) ==> Valid()
    {
      data := data[record.name := record];
    }

    /** The record filed under `name`, or `None` exactly when there is none. */
    method Find(name: string) returns (found: Option<Record>)
      ensures found.Some? <==> name in data
      ensures found.Some? ==> found.value == data[name]
      ensures Valid() && found.Some? ==> found.value.name == name
    {
      if name in data {
        found := Some(data[name]);
      } else {
        found := None;
      }
    }

    /** Removes the record filed under `name`; does nothing when there is none. */
    method Delete(name: string)
      modifies this
      ensures data == old(data) - {name}
      ensures old(Valid()) ==> Valid()
    {
      if name in data {
        data := data - {name};
      }
    }
  }
}
