/**
Contacts as the plugin sees them, and the platform calls it makes on them
(contact-store re-fetch, full-name formatting, vCard serialisation, UTF-8
decoding), each an uninterpreted oracle that may fail.
 */
module Contacts {
  import opened Options

  newtype Byte = b: int | 0 <= b < 256

  /** A `CNPhoneNumber`; only its `stringValue` is read. */
  datatype PhoneNumber = PhoneNumber(stringValue: string)

  /** A `CNLabeledValue<CNPhoneNumber>` entry of `CNContact.phoneNumbers`. */
  datatype LabeledPhone = LabeledPhone(phoneLabel: Option<string>, value: PhoneNumber)

  /** A `CNContact`: its store identifier, its name, and its phone entries in order. */
  datatype Contact = Contact(identifier: string, name: string, phoneNumbers: seq<LabeledPhone>)

  /**
  The platform collaborators:
  - `unifiedContact`: `CNContactStore.unifiedContact(withIdentifier:keysToFetch:)`, `None` when it throws;
  - `formatFullName`: `CNContactFormatter.string(from:style: .fullName)`, `None` when it returns nil;
  - `vCardData`: `CNContactVCardSerialization.data(with:)`, `None` when it throws;
  - `decodeUtf8`: `String(data:encoding: .utf8)`, `None` when it returns nil.
   */
  datatype Platform = Platform(
    unifiedContact: string -> Option<Contact>,
    formatFullName: Contact -> Option<string>,
    vCardData: seq<Contact> -> Option<seq<Byte>>,
    decodeUtf8: seq<Byte> -> Option<string>)

  /** Swift's `compactMap`: apply `f`, keep the non-nil results in order. */
  function CompactMap<A, B>(s: seq<A>, f: A -> Option<B>): (r: seq<B>)
    ensures |r| <= |s|
  {
    if |s| == 0 then []
    else
      var rest := CompactMap(s[1..], f);
      match f(s[0])
      case Some(b) => [b] + rest
      case None => rest
  }

  /** When `f` never yields nil, `compactMap` is a plain one-to-one, order-keeping map. */
  lemma {:induction false} CompactMapOfTotal<A, B>(s: seq<A>, f: A -> Option<B>)
    requires forall i :: 0 <= i < |s| ==> f(s[i]).Some?
    ensures |CompactMap(s, f)| == |s|
    ensures forall i :: 0 <= i < |s| ==> CompactMap(s, f)[i] == f(s[i]).value
  {
    if |s| > 0 {
      assert forall i :: 0 <= i < |s[1..]| ==> s[1..][i] == s[i + 1];
      CompactMapOfTotal(s[1..], f);
      var rest := CompactMap(s[1..], f);
      assert CompactMap(s, f) == [f(s[0]).value] + rest;
      forall i | 0 <= i < |s|
        ensures CompactMap(s, f)[i] == f(s[i]).value
      {
        if i > 0 {
          assert CompactMap(s, f)[i] == rest[i - 1];
          assert s[1..][i - 1] == s[i];
        }
      }
    }
  }

  /** The closure `{ $0.value.stringValue }`: non-optional, so it never yields nil. */
  function StringValueOf(entry: LabeledPhone): Option<string>
  {
    Some(entry.value.stringValue)
  }

  /** The phone numbers of `c` as strings, one per entry, in entry order. */
  function PhoneStrings(c: Contact): (r: seq<string>)
    ensures |r| == |c.phoneNumbers|
    ensures forall i :: 0 <= i < |r| ==> r[i] == c.phoneNumbers[i].value.stringValue
  {
    CompactMapOfTotal(c.phoneNumbers, StringValueOf);
    CompactMap(c.phoneNumbers, StringValueOf)
  }
}
