/**
`SwiftFlutterNativeContactPickerPlusPlugin`: the `handle(_:result:)` dispatcher
and its one `_delegate` slot, as a pure transition over a state that also
records every result-callback invocation.
 */
module Plugin {
  import opened Options
  import opened Channel
  import opened Contacts
  import opened Pickers

  const SelectContact := "selectContact"
  const SelectContacts := "selectContacts"

  predicate IsPickMethod(name: string)
  {
    name == SelectContact || name == SelectContacts
  }

  /** The handler kind a pick request installs. */
  function ModeOf(name: string): (m: Mode)
    ensures m == Single <==> name == SelectContact
  {
    if name == SelectContact then Single else Multi
  }

  /**
  `slot` is `_delegate`; `pickerShown` says a contact picker is on screen,
  reporting to the handler in the slot; `trace` is every callback invocation so far.
   */
  datatype State = State(slot: Option<Handler>, pickerShown: bool, trace: seq<Emission>)

  const Init := State(None, false, [])

  /** A method call arriving on the channel, or a delegate call from the picker. */
  datatype Event =
    | MethodCall(name: string, handle: ResultHandle)
    | Picker(event: PickerEvent)

  /**
  `handle(_:result:)`: a pick request first fails the handler already in the
  slot with "multiple_requests", then installs and presents a new handler
  bound to `h`; any other method is answered "not implemented" and the slot is
  left alone.
   */
  function HandleCall(s: State, name: string, h: ResultHandle): (s': State)
    ensures !IsPickMethod(name) ==>
      && s'.slot == s.slot && s'.pickerShown == s.pickerShown
      && s'.trace == s.trace + [Emission(h, NotImplemented)]
    ensures IsPickMethod(name) ==>
      && s'.slot == Some(Handler(ModeOf(name), h))
      && (s'.slot.value.mode == Single <==> name == SelectContact)
      && s'.pickerShown
    ensures IsPickMethod(name) && s.slot.Some? ==>
      s'.trace == s.trace + [Emission(s.slot.value.result, MultipleRequests)]
    ensures IsPickMethod(name) && s.slot.None? ==> s'.trace == s.trace
  {
    if IsPickMethod(name) then
      var cleared := match s.slot
        case Some(prior) => s.(trace := s.trace + [Emission(prior.result, MultipleRequests)], slot := None)
        case None => s;
      cleared.(slot := Some(Handler(ModeOf(name), h)), pickerShown := true)
    else
      s.(trace := s.trace + [Emission(h, NotImplemented)])
  }

  /** The answer the slot's handler gives to picker event `e`, if the picker delivers it. */
  function Delivered(p: Platform, s: State, e: PickerEvent): (r: Option<Response>)
    ensures r.Some? ==> s.pickerShown && s.slot.Some? && r == Reply(p, s.slot.value.mode, e)
    ensures s.pickerShown && s.slot.Some? && Reply(p, s.slot.value.mode, e).Some? ==> r.Some?
  {
    if s.pickerShown && s.slot.Some? then Reply(p, s.slot.value.mode, e) else None
  }

  /**
  The plugin as written: a handler answering its picker dismisses the picker
  but stays in the slot.
   */
  function Step(p: Platform, s: State, e: Event): (s': State)
    ensures e.Picker? ==> s'.slot == s.slot
    ensures e.Picker? && Delivered(p, s, e.event).Some? ==>
      && !s'.pickerShown
      && s'.trace == s.trace + [Emission(s.slot.value.result, Delivered(p, s, e.event).value)]
    ensures e.Picker? && Delivered(p, s, e.event).None? ==> s' == s
  {
    match e
    case MethodCall(name, h) => HandleCall(s, name, h)
    case Picker(ev) =>
      match Delivered(p, s, ev)
      case Some(r) => s.(trace := s.trace + [Emission(s.slot.value.result, r)], pickerShown := false)
      case None => s
  }

  /**
  The slot cleared on completion, as the handler's one-shot callback calls for:
  identical to `Step` except that answering the picker also empties the slot.
   */
  function StepFixed(p: Platform, s: State, e: Event): (s': State)
    ensures e.Picker? && Delivered(p, s, e.event).Some? ==>
      && s'.slot.None? && !s'.pickerShown
      && s'.trace == s.trace + [Emission(s.slot.value.result, Delivered(p, s, e.event).value)]
    ensures e.Picker? && Delivered(p, s, e.event).None? ==> s' == s
    ensures e.MethodCall? ==> s' == Step(p, s, e)
  {
    match e
    case MethodCall(name, h) => HandleCall(s, name, h)
    case Picker(ev) =>
      match Delivered(p, s, ev)
      case Some(r) => State(None, false, s.trace + [Emission(s.slot.value.result, r)])
      case None => s
  }

  /** The state after `events`, starting from the freshly registered plugin. */
  function Run(p: Platform, events: seq<Event>): State
  {
    if |events| == 0 then Init else Step(p, Run(p, events[..|events| - 1]), events[|events| - 1])
  }

  function RunFixed(p: Platform, events: seq<Event>): State
  {
    if |events| == 0 then Init else StepFixed(p, RunFixed(p, events[..|events| - 1]), events[|events| - 1])
  }

  /** The result handles of the method calls in `events`. */
  function Issued(events: seq<Event>): (r: set<ResultHandle>)
    ensures forall i :: 0 <= i < |events| && events[i].MethodCall? ==> events[i].handle in r
  {
    if |events| == 0 then {}
    else
      var last := events[|events| - 1];
      Issued(events[..|events| - 1]) + (if last.MethodCall? then {last.handle} else {})
  }

  /** Every method call comes with a callback of its own. */
  predicate FreshHandles(events: seq<Event>)
  {
    forall i, j :: 0 <= i < j < |events| && events[i].MethodCall? && events[j].MethodCall? ==>
      events[i].handle != events[j].handle
  }

  /** A handle in `Issued(events)` belongs to some method call of `events`. */
  lemma {:induction false} IssuedHasCall(events: seq<Event>, h: ResultHandle)
    requires h in Issued(events)
    ensures exists i :: 0 <= i < |events| && events[i].MethodCall? && events[i].handle == h
  {
    var last := events[|events| - 1];
    var pre := events[..|events| - 1];
    if last.MethodCall? && last.handle == h {
      assert events[|events| - 1].handle == h;
    } else {
      IssuedHasCall(pre, h);
      var i :| 0 <= i < |pre| && pre[i].MethodCall? && pre[i].handle == h;
      assert events[i] == pre[i];
    }
  }

  /** Under `FreshHandles`, the last call's handle was not issued before it. */
  lemma LastHandleIsFresh(events: seq<Event>)
    requires |events| > 0 && events[|events| - 1].MethodCall?
    requires FreshHandles(events)
    ensures events[|events| - 1].handle !in Issued(events[..|events| - 1])
  {
    var pre := events[..|events| - 1];
    var h := events[|events| - 1].handle;
    if h in Issued(pre) {
      IssuedHasCall(pre, h);
      assert false;
    }
  }

  lemma FreshHandlesPrefix(events: seq<Event>)
    requires |events| > 0 && FreshHandles(events)
    ensures FreshHandles(events[..|events| - 1])
  {
    var pre := events[..|events| - 1];
    assert forall i :: 0 <= i < |pre| ==> pre[i] == events[i];
  }

  /** `h` is the handler still waiting in the slot. */
  predicate Pending(s: State, h: ResultHandle)
  {
    s.slot.Some? && s.slot.value.result == h
  }

  /**
  Exactly-once bookkeeping: no callback outside `issued` has been invoked; the
  waiting handler's callback has not been invoked yet; every other issued
  callback has been invoked exactly once.
   */
  ghost predicate AnsweredOnce(s: State, issued: set<ResultHandle>)
  {
    && (s.pickerShown ==> s.slot.Some?)
    && (s.slot.Some? ==> s.slot.value.result in issued && ResponsesTo(s.trace, s.slot.value.result) == [])
    && (forall h :: h !in issued ==> ResponsesTo(s.trace, h) == [])
    && (forall h :: h in issued && !Pending(s, h) ==> |ResponsesTo(s.trace, h)| == 1)
  }

  lemma FixedStepAnswersOnce(p: Platform, s: State, issued: set<ResultHandle>, e: Event)
    requires AnsweredOnce(s, issued)
    requires e.MethodCall? ==> e.handle !in issued
    ensures AnsweredOnce(StepFixed(p, s, e), issued + (if e.MethodCall? then {e.handle} else {}))
  {
    var s' := StepFixed(p, s, e);
    match e
    case MethodCall(name, h) =>
      if !IsPickMethod(name) {
        ResponsesToAppend(s.trace, Emission(h, NotImplemented));
      } else if s.slot.Some? {
        ResponsesToAppend(s.trace, Emission(s.slot.value.result, MultipleRequests));
      }
    case Picker(ev) =>
      if Delivered(p, s, ev).Some? {
        ResponsesToAppend(s.trace, Emission(s.slot.value.result, Delivered(p, s, ev).value));
      }
  }

  /**
  With the slot cleared on completion, every request is answered exactly once
  over any run: each callback is invoked once, except the one still waiting in
  the slot, which has not been invoked at all.
   */
  lemma {:induction false} FixedAnswersEachRequestOnce(p: Platform, events: seq<Event>)
    requires FreshHandles(events)
    ensures AnsweredOnce(RunFixed(p, events), Issued(events))
  {
    if |events| > 0 {
      var pre := events[..|events| - 1];
      var e := events[|events| - 1];
      FreshHandlesPrefix(events);
      FixedAnswersEachRequestOnce(p, pre);
      if e.MethodCall? {
        LastHandleIsFresh(events);
      }
      FixedStepAnswersOnce(p, RunFixed(p, pre), Issued(pre), e);
    }
  }

  /**
  An unrecognised method is answered "not implemented" once, on its own
  callback; no other callback is invoked and the slot is unchanged.
   */
  lemma UnknownMethodAnsweredOnce(p: Platform, s: State, name: string, h: ResultHandle)
    requires !IsPickMethod(name)
    ensures ResponsesTo(Step(p, s, MethodCall(name, h)).trace, h) == ResponsesTo(s.trace, h) + [NotImplemented]
    ensures forall g :: g != h ==> ResponsesTo(Step(p, s, MethodCall(name, h)).trace, g) == ResponsesTo(s.trace, g)
    ensures Step(p, s, MethodCall(name, h)).slot == s.slot
  {
    ResponsesToAppend(s.trace, Emission(h, NotImplemented));
  }

  /**
  A pick request arriving while a handler is in the slot fails that handler's
  callback once with "multiple_requests" and invokes no other callback; the
  slot then holds a handler bound to the new request.
   */
  lemma PickSupersedesSlot(p: Platform, s: State, name: string, h: ResultHandle)
    requires IsPickMethod(name) && s.slot.Some?
    ensures var s' := Step(p, s, MethodCall(name, h));
      var prior := s.slot.value.result;
      && ResponsesTo(s'.trace, prior) == ResponsesTo(s.trace, prior) + [MultipleRequests]
      && (forall g :: g != prior ==> ResponsesTo(s'.trace, g) == ResponsesTo(s.trace, g))
      && s'.slot.Some? && s'.slot.value.result == h
  {
    ResponsesToAppend(s.trace, Emission(s.slot.value.result, MultipleRequests));
  }

  /**
  Cancelling an on-screen picker invokes the waiting callback once, with nil,
  in either mode, and no other callback.
   */
  lemma CancelAnswersNil(p: Platform, s: State)
    requires s.pickerShown && s.slot.Some?
    ensures var s' := Step(p, s, Picker(DidCancel));
      var h := s.slot.value.result;
      && ResponsesTo(s'.trace, h) == ResponsesTo(s.trace, h) + [Nil]
      && (forall g :: g != h ==> ResponsesTo(s'.trace, g) == ResponsesTo(s.trace, g))
      && s'.slot == s.slot
  {
    ResponsesToAppend(s.trace, Emission(s.slot.value.result, Nil));
  }

  /**
  Pick, completion, pick: because completion leaves the handler in the slot,
  the first request's callback is invoked a second time, with
  "multiple_requests", after it has already delivered its answer.
   */
  lemma StaleHandleAnsweredTwice(p: Platform, s: State, first: string, h1: ResultHandle,
                                 done: PickerEvent, second: string, h2: ResultHandle)
    requires IsPickMethod(first) && IsPickMethod(second)
    requires ResponsesTo(s.trace, h1) == [] && !Pending(s, h1)
    requires Reply(p, ModeOf(first), done).Some?
    ensures var s1 := Step(p, s, MethodCall(first, h1));
      var s2 := Step(p, s1, Picker(done));
      var s3 := Step(p, s2, MethodCall(second, h2));
      ResponsesTo(s3.trace, h1) == [Reply(p, ModeOf(first), done).value, MultipleRequests]
  {
    var s1 := Step(p, s, MethodCall(first, h1));
    assert ResponsesTo(s1.trace, h1) == [] by {
      if s.slot.Some? {
        ResponsesToAppend(s.trace, Emission(s.slot.value.result, MultipleRequests));
      }
    }
    var r := Reply(p, ModeOf(first), done).value;
    var s2 := Step(p, s1, Picker(done));
    assert s2.slot == Some(Handler(ModeOf(first), h1));
    assert ResponsesTo(s2.trace, h1) == [r] by {
      assert s2.trace == s1.trace + [Emission(h1, r)];
      ResponsesToAppend(s1.trace, Emission(h1, r));
    }
    var s3 := Step(p, s2, MethodCall(second, h2));
    assert s3.trace == s2.trace + [Emission(h1, MultipleRequests)];
    ResponsesToAppend(s2.trace, Emission(h1, MultipleRequests));
  }

  /** The same pick, completion, pick with the slot cleared: the first callback is invoked once. */
  lemma FixedStaleHandleAnsweredOnce(p: Platform, s: State, first: string, h1: ResultHandle,
                                     done: PickerEvent, second: string, h2: ResultHandle)
    requires IsPickMethod(first) && IsPickMethod(second)
    requires ResponsesTo(s.trace, h1) == [] && !Pending(s, h1)
    requires Reply(p, ModeOf(first), done).Some?
    ensures var s1 := StepFixed(p, s, MethodCall(first, h1));
      var s2 := StepFixed(p, s1, Picker(done));
      var s3 := StepFixed(p, s2, MethodCall(second, h2));
      ResponsesTo(s3.trace, h1) == [Reply(p, ModeOf(first), done).value]
  {
    var s1 := StepFixed(p, s, MethodCall(first, h1));
    assert ResponsesTo(s1.trace, h1) == [] by {
      if s.slot.Some? {
        ResponsesToAppend(s.trace, Emission(s.slot.value.result, MultipleRequests));
      }
    }
    var r := Reply(p, ModeOf(first), done).value;
    var s2 := StepFixed(p, s1, Picker(done));
    assert s2.slot.None?;
    assert ResponsesTo(s2.trace, h1) == [r] by {
      assert s2.trace == s1.trace + [Emission(h1, r)];
      ResponsesToAppend(s1.trace, Emission(h1, r));
    }
  }

  /**
  Bookkeeping of the plugin as written: no callback outside `issued` has been
  invoked; an on-screen picker's handler has not answered yet; the slot's
  handler has been invoked at most once; every other issued callback has been
  invoked once or twice, so none is dropped.
   */
  ghost predicate AnsweredOnceOrTwice(s: State, issued: set<ResultHandle>)
  {
    && (s.pickerShown ==> s.slot.Some? && ResponsesTo(s.trace, s.slot.value.result) == [])
    && (s.slot.Some? ==> s.slot.value.result in issued && |ResponsesTo(s.trace, s.slot.value.result)| <= 1)
    && (forall h :: h !in issued ==> ResponsesTo(s.trace, h) == [])
    && (forall h :: h in issued && !Pending(s, h) ==> 1 <= |ResponsesTo(s.trace, h)| <= 2)
  }

  lemma CallAnswersOnceOrTwice(s: State, issued: set<ResultHandle>, name: string, h: ResultHandle)
    requires AnsweredOnceOrTwice(s, issued)
    requires h !in issued
    ensures AnsweredOnceOrTwice(HandleCall(s, name, h), issued + {h})
  {
    if !IsPickMethod(name) {
      ResponsesToAppend(s.trace, Emission(h, NotImplemented));
    } else if s.slot.Some? {
      ResponsesToAppend(s.trace, Emission(s.slot.value.result, MultipleRequests));
    }
  }

  lemma PickerAnswersOnceOrTwice(p: Platform, s: State, issued: set<ResultHandle>, ev: PickerEvent)
    requires AnsweredOnceOrTwice(s, issued)
    ensures AnsweredOnceOrTwice(Step(p, s, Picker(ev)), issued)
  {
    var r := Delivered(p, s, ev);
    if r.Some? {
      var h := s.slot.value.result;
      var s' := Step(p, s, Picker(ev));
      assert s' == s.(trace := s.trace + [Emission(h, r.value)], pickerShown := false);
      ResponsesToAppend(s.trace, Emission(h, r.value));
      assert ResponsesTo(s'.trace, h) == [r.value];
    }
  }

  lemma StepAnswersOnceOrTwice(p: Platform, s: State, issued: set<ResultHandle>, e: Event)
    requires AnsweredOnceOrTwice(s, issued)
    requires e.MethodCall? ==> e.handle !in issued
    ensures AnsweredOnceOrTwice(Step(p, s, e), issued + (if e.MethodCall? then {e.handle} else {}))
  {
    match e
    case MethodCall(name, h) => CallAnswersOnceOrTwice(s, issued, name, h);
    case Picker(ev) => PickerAnswersOnceOrTwice(p, s, issued, ev);
  }

  /**
  Over any run of the plugin as written, every request is answered at least
  once (unless still waiting) and no callback is invoked more than twice.
   */
  lemma {:induction false} AnswersEachRequestOnceOrTwice(p: Platform, events: seq<Event>)
    requires FreshHandles(events)
    ensures AnsweredOnceOrTwice(Run(p, events), Issued(events))
  {
    if |events| > 0 {
      var pre := events[..|events| - 1];
      var e := events[|events| - 1];
      FreshHandlesPrefix(events);
      AnswersEachRequestOnceOrTwice(p, pre);
      if e.MethodCall? {
        LastHandleIsFresh(events);
      }
      StepAnswersOnceOrTwice(p, Run(p, pre), Issued(pre), e);
    }
  }
}
