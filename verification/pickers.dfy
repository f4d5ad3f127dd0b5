/**
The three picker handlers: how a cancelled picker, a single picked contact and a
list of picked contacts are turned into the value handed to the request's
result callback.
 */
module Pickers {
  import opened Options
  import opened Channel
  import opened Contacts

  const FullNameKey := "fullName"
  const PhoneNumbersKey := "phoneNumbers"
  const VcfKey := "vcf"

  /** `SinglePickerHandler` or `MultiPickerHandler`. */
  datatype Mode = Single | Multi

  /** A picker delegate: its mode and the result callback it answers. */
  datatype Handler = Handler(mode: Mode, result: ResultHandle)

  /** The delegate calls a contact picker makes when it is dismissed. */
  datatype PickerEvent =
    | DidCancel                                // contactPickerDidCancel(_:)
    | DidSelectContact(partial: Contact)       // contactPicker(_:didSelect: CNContact)
    | DidSelectContacts(picked: seq<Contact>)  // contactPicker(_:didSelect: [CNContact])

  /**
  `m` is a dictionary built from `c`: it has the numbers of `c` in order under
  "phoneNumbers", a "fullName" exactly when the formatter names `c`, and no key
  other than those two and "vcf".
   */
  predicate Describes(p: Platform, c: Contact, m: ContactMap)
  {
    && PhoneNumbersKey in m
    && m[PhoneNumbersKey] == TextList(seq(|c.phoneNumbers|, i requires 0 <= i < |c.phoneNumbers| => c.phoneNumbers[i].value.stringValue))
    && (FullNameKey in m <==> p.formatFullName(c).Some?)
    && (FullNameKey in m ==> m[FullNameKey] == Text(p.formatFullName(c).value))
    && m.Keys <= {FullNameKey, PhoneNumbersKey, VcfKey}
  }

  /** The name-and-numbers dictionary of `c`, before any "vcf" is added. */
  function ContactInfo(p: Platform, c: Contact): (m: ContactMap)
    ensures Describes(p, c, m)
    ensures VcfKey !in m
  {
    var named: ContactMap := match p.formatFullName(c)
      case Some(n) => map[FullNameKey := Text(n)]
      case None => map[];
    named[PhoneNumbersKey := TextList(PhoneStrings(c))]
  }

  /** The vCard text of `c` alone: serialisation followed by UTF-8 decoding. */
  function VcfText(p: Platform, c: Contact): (r: Option<string>)
    ensures r.Some? <==> p.vCardData([c]).Some? && p.decodeUtf8(p.vCardData([c]).value).Some?
  {
    match p.vCardData([c])
    case None => None
    case Some(bytes) => p.decodeUtf8(bytes)
  }

  /** `m` with "vcf" set to `vcf` when there is one; `m` itself otherwise. */
  function WithVcf(m: ContactMap, vcf: Option<string>): (r: ContactMap)
    ensures r.Keys == m.Keys + (if vcf.Some? then {VcfKey} else {})
    ensures forall k :: k in m && k != VcfKey ==> r[k] == m[k]
    ensures vcf.Some? ==> r[VcfKey] == Text(vcf.value)
  {
    match vcf
    case Some(v) => m[VcfKey := Text(v)]
    case None => m
  }

  /**
  `SinglePickerHandler`: re-fetch the picked contact by identifier; when the
  re-fetch or the serialisation throws, answer with the partial contact's name
  and numbers and no "vcf"; otherwise answer with the full contact's name and
  numbers, plus "vcf" when the vCard bytes decode as UTF-8.
   */
  function SingleSelection(p: Platform, partial: Contact): (m: ContactMap)
    ensures p.unifiedContact(partial.identifier).None? ==>
      Describes(p, partial, m) && VcfKey !in m
    ensures p.unifiedContact(partial.identifier).Some? ==>
      var full := p.unifiedContact(partial.identifier).value;
      && (p.vCardData([full]).None? ==> Describes(p, partial, m) && VcfKey !in m)
      && (p.vCardData([full]).Some? ==> Describes(p, full, m))
      && (VcfKey in m <==> VcfText(p, full).Some?)
      && (VcfKey in m ==> m[VcfKey] == Text(VcfText(p, full).value))
  {
    match p.unifiedContact(partial.identifier)
    case None => ContactInfo(p, partial)
    case Some(full) =>
      match p.vCardData([full])
      case None => ContactInfo(p, partial)
      case Some(bytes) => WithVcf(ContactInfo(p, full), p.decodeUtf8(bytes))
  }

  /**
  One entry of the multi-selection answer: the contact's name and numbers, and
  "vcf" exactly when its own serialisation and decoding both succeed.
   */
  function MultiEntry(p: Platform, c: Contact): (m: ContactMap)
    ensures Describes(p, c, m)
    ensures VcfKey in m <==> VcfText(p, c).Some?
    ensures VcfKey in m ==> m[VcfKey] == Text(VcfText(p, c).value)
  {
    WithVcf(ContactInfo(p, c), VcfText(p, c))
  }

  /**
  `MultiPickerHandler`: one entry per picked contact, in picking order; one
  contact's failed serialisation costs only that entry its "vcf".
   */
  function MultiSelection(p: Platform, picked: seq<Contact>): (r: seq<ContactMap>)
    ensures |r| == |picked|
    ensures forall i :: 0 <= i < |picked| ==> Describes(p, picked[i], r[i])
    ensures forall i :: 0 <= i < |picked| ==> (VcfKey in r[i] <==> VcfText(p, picked[i]).Some?)
    ensures forall i :: 0 <= i < |picked| && VcfKey in r[i] ==> r[i][VcfKey] == Text(VcfText(p, picked[i]).value)
  {
    if |picked| == 0 then []
    else MultiSelection(p, picked[..|picked| - 1]) + [MultiEntry(p, picked[|picked| - 1])]
  }

  /**
  What a handler in `mode` answers when the picker reports `e`; `None` when the
  picker would not report `e` to it (a handler only receives the selection
  call it implements).
   */
  function Reply(p: Platform, mode: Mode, e: PickerEvent): (r: Option<Response>)
    ensures e.DidCancel? ==> r == Some(Nil)
    ensures e.DidSelectContact? ==> (r.Some? <==> mode == Single)
    ensures e.DidSelectContacts? ==> (r.Some? <==> mode == Multi)
    ensures r.Some? && r.value.Record? ==> e.DidSelectContact? && r.value.contact == SingleSelection(p, e.partial)
    ensures r.Some? && r.value.Records? ==> e.DidSelectContacts? && r.value.contacts == MultiSelection(p, e.picked)
    ensures r.Some? ==> r.value.Nil? || r.value.Record? || r.value.Records?
  {
    match e
    case DidCancel => Some(Nil)
    case DidSelectContact(partial) =>
      if mode == Single then Some(Record(SingleSelection(p, partial))) else None
    case DidSelectContacts(picked) =>
      if mode == Multi then Some(Records(MultiSelection(p, picked))) else None
  }
}
