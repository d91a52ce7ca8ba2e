/**
 * Phone numbers and the phone list of one contact, as values.
 *
 * A phone number is a string. `IsPhoneValid` is the single validation gate;
 * `Appended`, `Removed` and `Edited` say what the record's add, remove and
 * edit operations make of a phone list, and `Join` is the "; "-separated
 * rendering used when a record is shown. The lemmas state what the record
 * promises about each of them.
 */
module PhoneLists {
  import opened Wrappers


  /** Number of characters of a valid phone number. */
  const PhoneLength: nat := 10

  /** Text placed between two phone numbers when a record is shown. */
  const Separator: string := "; "

  /** A decimal digit; only the ASCII digits are modelled. */
  predicate IsDigit(c: char)
  {
    '0' <= c <= '9'
  }

  /** Every character of `s` from position `k` on is a digit, checked one character at a time. */
  function DigitsFrom(s: string, k: nat): (ok: bool)
    requires k <= |s|
    ensures ok <==> forall i :: k <= i < |s| ==> IsDigit(s[i])
    decreases |s| - k
  {
    k == |s| || (IsDigit(s[k]) && DigitsFrom(s, k + 1))
  }

  /** A phone number is valid when it has exactly ten characters, all digits. */
  function IsPhoneValid(phone: string): (ok: bool)
    ensures ok <==> |phone| == PhoneLength && forall i :: 0 <= i < |phone| ==> IsDigit(phone[i])
    ensures ok ==> Separator[0] !in phone
  {
    |phone| == PhoneLength && DigitsFrom(phone, 0)
  }

  /** The invariant a record keeps: every stored phone passed the validation gate. */
  ghost predicate AllValid(phones: seq<string>)
  {
    forall i :: 0 <= i < |phones| ==> IsPhoneValid(phones[i])
  }

  /** `i` is the first position of `phones` that holds `phone`. */
  ghost predicate IsFirst(phones: seq<string>, phone: string, i: int)
  {
    0 <= i < |phones| && phones[i] == phone && phone !in phones[..i]
  }

  /** A phone that occurs in the list has a first position. */
  lemma {:induction false} FirstOccurrence(phones: seq<string>, phone: string) returns (i: nat)
    requires phone in phones
    ensures IsFirst(phones, phone, i)
  {
    if phones[0] == phone {
      i := 0;
    } else {
      var j := FirstOccurrence(phones[1..], phone);
      i := j + 1;
      assert phones[..i] == [phones[0]] + phones[1..][..j];
    }
  }

  // ---------------------------------------------------------------------
  // Adding a phone

  /** The list after adding `phone`: appended at the end when valid, else unchanged. */
  function Appended(phones: seq<string>, phone: string): seq<string>
  {
    if IsPhoneValid(phone) then phones + [phone] else phones
  }

  lemma AppendedValid(phones: seq<string>, phone: string)
    requires AllValid(phones)
    ensures AllValid(Appended(phones, phone))
  {
  }

  /**
   * In any list the record can reach (all phones valid), and for any list not
   * yet holding the phone, the phone is found after adding it exactly when it
   * is valid.
   */
  lemma AddThenFind(phones: seq<string>, phone: string)
    requires AllValid(phones) || phone !in phones
    ensures phone in Appended(phones, phone) <==> IsPhoneValid(phone)
  {
  }

  // ---------------------------------------------------------------------
  // Removing a phone

  /** The list with the first occurrence of `phone` deleted. */
  function Removed(phones: seq<string>, phone: string): seq<string>
  {
    if phones == [] then []
    else if phones[0] == phone then phones[1..]
    else [phones[0]] + Removed(phones[1..], phone)
  }

  /** Removing an absent phone changes nothing. */
  lemma {:induction false} RemovedAbsent(phones: seq<string>, phone: string)
    requires phone !in phones
    ensures Removed(phones, phone) == phones
  {
    if phones != [] {
      RemovedAbsent(phones[1..], phone);
    }
  }

  /** Removing deletes exactly the element at the first position holding the phone. */
  lemma {:induction false} RemovedAtFirst(phones: seq<string>, phone: string, i: int)
    requires IsFirst(phones, phone, i)
    ensures Removed(phones, phone) == phones[..i] + phones[i + 1..]
  {
    if i > 0 {
      assert phones[1..][..i - 1] == phones[1..i];
      assert phones[..i] == [phones[0]] + phones[1..i];
      RemovedAtFirst(phones[1..], phone, i - 1);
      assert phones[1..][i..] == phones[i + 1..];
    }
  }

  /** Removing takes away one occurrence of the phone, if there is one, and keeps every other. */
  lemma {:induction false} RemovedCount(phones: seq<string>, phone: string)
    ensures multiset(Removed(phones, phone)) == multiset(phones) - multiset{phone}
  {
    if phones != [] {
      assert phones == [phones[0]] + phones[1..];
      if phones[0] != phone {
        RemovedCount(phones[1..], phone);
      }
    }
  }

  /** Later duplicates survive: one fewer occurrence when present. */
  lemma RemovedKeepsDuplicates(phones: seq<string>, phone: string)
    requires multiset(phones)[phone] >= 2
    ensures phone in Removed(phones, phone)
    ensures multiset(Removed(phones, phone))[phone] == multiset(phones)[phone] - 1
  {
    RemovedCount(phones, phone);
    assert multiset(Removed(phones, phone))[phone] > 0;
  }

  /** Removing keeps every stored phone valid. */
  lemma RemovedValid(phones: seq<string>, phone: string)
    requires AllValid(phones)
    ensures AllValid(Removed(phones, phone))
  {
  }

  // ---------------------------------------------------------------------
  // Editing a phone

  /** The list with the first occurrence of `oldValue` overwritten by `newValue`. */
  function Replaced(phones: seq<string>, oldValue: string, newValue: string): seq<string>
  {
    if phones == [] then []
    else if phones[0] == oldValue then [newValue] + phones[1..]
    else [phones[0]] + Replaced(phones[1..], oldValue, newValue)
  }

  /** The list after editing: replaced only when the new value is valid. */
  function Edited(phones: seq<string>, oldValue: string, newValue: string): seq<string>
  {
    if IsPhoneValid(newValue) then Replaced(phones, oldValue, newValue) else phones
  }

  lemma {:induction false} ReplacedAbsent(phones: seq<string>, oldValue: string, newValue: string)
    requires oldValue !in phones
    ensures Replaced(phones, oldValue, newValue) == phones
  {
    if phones != [] {
      ReplacedAbsent(phones[1..], oldValue, newValue);
    }
  }

  lemma {:induction false} ReplacedAtFirst(phones: seq<string>, oldValue: string, newValue: string, i: int)
    requires IsFirst(phones, oldValue, i)
    ensures Replaced(phones, oldValue, newValue) == phones[i := newValue]
  {
    if i > 0 {
      assert phones[1..][..i - 1] == phones[1..i];
      assert phones[..i] == [phones[0]] + phones[1..i];
      ReplacedAtFirst(phones[1..], oldValue, newValue, i - 1);
      assert phones[i := newValue] == [phones[0]] + phones[1..][i - 1 := newValue];
    }
  }

  /** Editing is a no-op when the new value is invalid or the old value is absent. */
  lemma EditedNoop(phones: seq<string>, oldValue: string, newValue: string)
    requires !IsPhoneValid(newValue) || oldValue !in phones
    ensures Edited(phones, oldValue, newValue) == phones
  {
    if IsPhoneValid(newValue) {
      ReplacedAbsent(phones, oldValue, newValue);
    }
  }

  /**
   * A successful edit overwrites the first position holding the old value and
   * nothing else: the length and every other position are kept.
   */
  lemma EditedAtFirst(phones: seq<string>, oldValue: string, newValue: string, i: int)
    requires IsPhoneValid(newValue) && IsFirst(phones, oldValue, i)
    ensures Edited(phones, oldValue, newValue) == phones[i := newValue]
    ensures |Edited(phones, oldValue, newValue)| == |phones|
    ensures forall j :: 0 <= j < |phones| && j != i ==> Edited(phones, oldValue, newValue)[j] == phones[j]
  {
    ReplacedAtFirst(phones, oldValue, newValue, i);
  }

  /** Editing keeps every stored phone valid. */
  lemma EditedValid(phones: seq<string>, oldValue: string, newValue: string)
    requires AllValid(phones)
    ensures AllValid(Edited(phones, oldValue, newValue))
  {
    if IsPhoneValid(newValue) && oldValue in phones {
      var i := FirstOccurrence(phones, oldValue);
      ReplacedAtFirst(phones, oldValue, newValue, i);
    } else {
      EditedNoop(phones, oldValue, newValue);
    }
  }

  /** A successful edit trades one occurrence of the old value for one of the new value. */
  lemma EditedCount(phones: seq<string>, oldValue: string, newValue: string)
    requires IsPhoneValid(newValue) && oldValue in phones
    ensures multiset(Edited(phones, oldValue, newValue))
         == multiset(phones) - multiset{oldValue} + multiset{newValue}
  {
    var i := FirstOccurrence(phones, oldValue);
    ReplacedAtFirst(phones, oldValue, newValue, i);
    assert phones == phones[..i] + [oldValue] + phones[i + 1..];
    assert phones[i := newValue] == phones[..i] + [newValue] + phones[i + 1..];
  }

  /**
   * After editing the only occurrence of `oldValue` to a different valid value,
   * the old value is no longer found and the new one is.
   */
  lemma EditedFinds(phones: seq<string>, oldValue: string, newValue: string)
    requires IsPhoneValid(newValue) && oldValue != newValue
    requires multiset(phones)[oldValue] == 1
    ensures oldValue !in Edited(phones, oldValue, newValue)
    ensures newValue in Edited(phones, oldValue, newValue)
  {
    EditedCount(phones, oldValue, newValue);
    var r := Edited(phones, oldValue, newValue);
    assert multiset(r)[oldValue] == 0;
    assert multiset(r)[newValue] > 0;
  }

  // ---------------------------------------------------------------------
  // Showing the phone list

  /** The summed length of the parts. */
  function TotalLength(parts: seq<string>): nat
  {
    if parts == [] then 0 else |parts[0]| + TotalLength(parts[1..])
  }

  /** The parts joined with `sep` between every two neighbours. */
  function Join(sep: string, parts: seq<string>): (r: string)
    ensures |r| == if parts == [] then 0 else TotalLength(parts) + (|parts| - 1) * |sep|
    ensures parts != [] ==> parts[0] <= r
  {
    if |parts| == 0 then ""
    else if |parts| == 1 then parts[0]
    else parts[0] + sep + Join(sep, parts[1..])
  }

  /**
   * Reads a "; "-joined list of valid phone numbers back; `None` when the text
   * is not such a list (a bad phone, a wrong or missing separator, a trailing
   * separator).
   */
  function SplitPhones(text: string): Option<seq<string>>
  {
    if text == [] then Some([]) else SplitNonEmpty(text)
  }

  function SplitNonEmpty(text: string): Option<seq<string>>
    decreases |text|
  {
    if |text| < PhoneLength || !IsPhoneValid(text[..PhoneLength]) then None
    else if |text| == PhoneLength then Some([text])
    else if |text| < PhoneLength + |Separator| || text[PhoneLength..PhoneLength + |Separator|] != Separator then None
    else match SplitNonEmpty(text[PhoneLength + |Separator|..])
      case None => None
      case Some(rest) => Some([text[..PhoneLength]] + rest)
  }

  /** The rendering of a list of valid phones reads back as the same list. */
  lemma {:induction false} SplitJoin(phones: seq<string>)
    requires AllValid(phones)
    ensures SplitPhones(Join(Separator, phones)) == Some(phones)
  {
    if |phones| == 1 {
      assert phones[0][..PhoneLength] == phones[0];
      assert phones == [phones[0]];
      assert SplitNonEmpty(phones[0]) == Some([phones[0]]);
    } else if |phones| > 1 {
      var rest := Join(Separator, phones[1..]);
      var text := phones[0] + Separator + rest;
      assert text[..PhoneLength] == phones[0];
      assert text[PhoneLength..PhoneLength + |Separator|] == Separator;
      assert text[PhoneLength + |Separator|..] == rest;
      SplitJoin(phones[1..]);
      assert |rest| >= PhoneLength;
      assert SplitNonEmpty(rest) == Some(phones[1..]);
      assert phones == [phones[0]] + phones[1..];
    }
  }

  /** Conversely, whatever reads back as a list is exactly the rendering of that list of valid phones. */
  lemma {:induction false} JoinSplit(text: string, phones: seq<string>)
    requires SplitPhones(text) == Some(phones)
    ensures AllValid(phones)
    ensures Join(Separator, phones) == text
  {
    if text != [] {
      NonEmptyJoinSplit(text, phones);
    }
  }

  lemma {:induction false} NonEmptyJoinSplit(text: string, phones: seq<string>)
    requires SplitNonEmpty(text) == Some(phones)
    ensures phones != [] && AllValid(phones)
    ensures Join(Separator, phones) == text
    decreases |text|
  {
    if |text| == PhoneLength {
      assert text[..PhoneLength] == text;
    } else {
      var tail := text[PhoneLength + |Separator|..];
      var rest := SplitNonEmpty(tail).value;
      NonEmptyJoinSplit(tail, rest);
      assert phones == [text[..PhoneLength]] + rest;
      assert phones[1..] == rest;
      assert text == text[..PhoneLength] + text[PhoneLength..PhoneLength + |Separator|] + tail;
    }
  }
}
