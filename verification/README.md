# flutter_native_contact_picker_plus (iOS side) — a Dafny model

This project models the logic of the iOS half of the contact-picker plugin,
`ios/Classes/FlutterNativeContactPickerPlusPlugin.swift`:

- **the request dispatcher** `SwiftFlutterNativeContactPickerPlusPlugin.handle(_:result:)`
  with its single `_delegate` slot. The slot holds at most one picker handler, and
  each handler is bound to one `FlutterResult` callback;
- **the three picker delegates**. `PickerHandler.contactPickerDidCancel` answers nil.
  `SinglePickerHandler` re-fetches the picked contact and falls back to the partial
  contact when that fails. `MultiPickerHandler` builds one dictionary per picked contact.

The model is functional. The plugin state is the slot, a flag saying whether a picker
is on screen, and the trace of every callback invocation (`Plugin.State`). `Plugin.Step`
is one transition: a channel method call or a picker delegate call. The contact-store
re-fetch, the full-name formatter, vCard serialisation and UTF-8 decoding are fallible
oracles. They are grouped in `Contacts.Platform`, and a `None` result stands for
"threw" or "returned nil".

A result dictionary is a `map<string, Value>`. In Swift, `dict[k] = nil` leaves the
key out. So "fullName" is present exactly when the formatter returns a name, and
"vcf" is present exactly when serialisation and decoding both succeed.

Files: `options.dfy` (Option), `channel.dfy` (callback values and the invocation
trace), `contacts.dfy` (contacts, oracles, `compactMap`), `pickers.dfy` (the three
delegates), `plugin.dfy` (dispatcher, slot, runs).

## Model

| member | source | states |
|---|---|---|
| Contacts.CompactMapOfTotal | ios/Classes/FlutterNativeContactPickerPlusPlugin.swift:53-55 | when the closure never yields nil, `compactMap` keeps every element: same length, element i is f of input i |
| Contacts.PhoneStrings | ios/Classes/FlutterNativeContactPickerPlusPlugin.swift:91 | the numbers list has one string per phone entry, in entry order, each the entry's `stringValue` (nothing dropped) |
| Pickers.ContactInfo | ios/Classes/FlutterNativeContactPickerPlusPlugin.swift:88-92 | the base dictionary always has "phoneNumbers" (the contact's numbers in order), has "fullName" iff the formatter names the contact, and has no "vcf" |
| Pickers.VcfText | ios/Classes/FlutterNativeContactPickerPlusPlugin.swift:95-96 | vCard text exists iff serialising the one contact succeeds and its bytes decode as UTF-8 |
| Pickers.SingleSelection | ios/Classes/FlutterNativeContactPickerPlusPlugin.swift:39-78 | failed re-fetch or failed serialisation: partial contact's name and numbers, no "vcf"; otherwise the full contact's name and numbers, with "vcf" iff decoding succeeds |
| Pickers.MultiEntry | ios/Classes/FlutterNativeContactPickerPlusPlugin.swift:87-105 | each entry carries the contact's name and numbers even when serialisation fails; "vcf" is present iff serialisation and decoding both succeed, and then holds the decoded text |
| Pickers.MultiSelection | ios/Classes/FlutterNativeContactPickerPlusPlugin.swift:84-109 | one entry per picked contact, same length, same order; entry i describes contact i and has "vcf" iff that contact's own vCard text exists |
| Pickers.Reply | ios/Classes/FlutterNativeContactPickerPlusPlugin.swift:16-24 | cancel answers nil in both modes; a single selection reaches only a Single handler and a list only a Multi handler; a reply is never an error |
| Plugin.ModeOf | ios/Classes/FlutterNativeContactPickerPlusPlugin.swift:131 | the handler is Single iff the method is "selectContact" |
| Plugin.HandleCall | ios/Classes/FlutterNativeContactPickerPlusPlugin.swift:123-156 | a pick request fails the handler already in the slot with "multiple_requests", then holds a new handler of the right mode bound to the new callback; any other method appends one "not implemented" on the new callback and leaves the slot alone |
| Plugin.Step | ios/Classes/FlutterNativeContactPickerPlusPlugin.swift:17-19 | a picker delegate call never changes the slot; a delivered one appends exactly the handler's reply on the slot's callback and dismisses the picker |
| Plugin.UnknownMethodAnsweredOnce | ios/Classes/FlutterNativeContactPickerPlusPlugin.swift:152-155 | an unknown method invokes its own callback exactly once, with "not implemented", invokes no other callback, and leaves the slot unchanged |
| Plugin.PickSupersedesSlot | ios/Classes/FlutterNativeContactPickerPlusPlugin.swift:125-132 | the prior handler's callback receives exactly one more response, "multiple_requests"; no other callback is invoked; the slot is bound to the new callback |
| Plugin.CancelAnswersNil | ios/Classes/FlutterNativeContactPickerPlusPlugin.swift:17-19 | cancelling invokes the waiting callback once with nil, in either mode; no other callback is invoked; the slot is kept |
| Plugin.StaleHandleAnsweredTwice | ios/Classes/FlutterNativeContactPickerPlusPlugin.swift:125-127 | pick, completion, pick: the first callback receives its reply and then "multiple_requests", because completion leaves the handler in the slot |
| Plugin.AnswersEachRequestOnceOrTwice | ios/Classes/FlutterNativeContactPickerPlusPlugin.swift:115-132 | over any run with distinct callbacks, every request not still waiting has been answered once or twice; the waiting one at most once; nothing is dropped |
| Plugin.FixedStaleHandleAnsweredOnce | ios/Classes/FlutterNativeContactPickerPlusPlugin.swift:125-127 | with the slot cleared on completion (the corrected `StepFixed`), pick, completion, pick invokes the first callback exactly once, with its reply |
| Plugin.FixedAnswersEachRequestOnce | ios/Classes/FlutterNativeContactPickerPlusPlugin.swift:123-128 | with the slot cleared, over any run with distinct callbacks, every request is answered exactly once, except the one still waiting, which is not answered yet |

## Left out

- Picker presentation (lines 133-149): finding the key window and calling `present`. The model assumes a new picker is always shown and reports to the handler in the slot. UIKit's refusal to present over a picker already on screen is not modelled.
- `CNContactStore.requestAccess` and its asynchronous callback (lines 27-38). It only logs, so the re-fetch oracle ignores permission.
- vCard serialisation internals, `CNContactFormatter`, and `unifiedContact` key descriptors. These are the oracles of `Contacts.Platform`. The forced `as! [CNKeyDescriptor]` cast is left out too.
- Channel registration (lines 117-121) and the `#available` checks. iOS 9 or later is assumed throughout.
- `print` logging.
- Delegate calls that do not match a handler's kind (a single selection sent to a Multi handler) are not delivered. The picker only calls the selection method its delegate implements.
- Cancelling a multi-select picker answers nil, as the shared `PickerHandler` base class does. It never answers an empty list.
- Weak references and object lifetime are not modelled: the picker's `delegate` property is weak, and a superseded handler is released.
- The vCard round trip (parsing "vcf" back yields the same name and numbers) is a property of the serializer oracle, which this model does not interpret.

## Findings

| source | as written | input that shows it | evidently intended | confidence | as-written member | corrected member |
|---|---|---|---|---|---|---|
| ios/Classes/FlutterNativeContactPickerPlusPlugin.swift:125-127 | no completion path (lines 18, 66, 77, 108) resets `_delegate`, so the next pick request invokes an already-answered `FlutterResult` a second time with "multiple_requests" | `selectContact` with callback 1, then cancel (callback 1 gets nil), then `selectContact` with callback 2: callback 1 is invoked again with "multiple_requests" | the slot is cleared when its handler answers, so every request is answered exactly once | not executed; high that the second invocation happens, medium on how Flutter reacts to it | Plugin.StaleHandleAnsweredTwice | Plugin.FixedAnswersEachRequestOnce |
