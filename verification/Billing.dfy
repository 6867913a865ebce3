/** The subscription billing machine, folded over arbitrary webhook traces. */
module Billing {
  import opened Wrappers

  datatype State = Trialing | Active | PastDue | Canceled | Refunded

  /** A webhook as the store consumes it: the event's name, and whether its trial is still running. */
  datatype Event = Event(name: string, inTrial: bool)

  const STARTED := "subscription_started"
  const PAID := "payment_succeeded"
  const FAILED := "payment_failed"
  const CANCELED := "subscription_canceled"
  const REFUNDED := "subscription_refunded"

  /** `BillingState::apply`: the next state, or `None` when the event does not move the machine. */
  function Apply(current: Option<State>, event: string, inTrial: bool): Option<State> {
    if event == "subscription_started" then
      Some(if inTrial then Trialing else Active)
    else if event == "payment_succeeded" then
      if current == Some(Refunded) then None else Some(Active)
    else if event == "payment_failed" then
      (match current
       case Some(Canceled) => None
       case Some(Refunded) => None
       case _ => Some(PastDue))
    else if event == "subscription_canceled" then
      if current == Some(Refunded) then None else Some(Canceled)
    else if event == "subscription_refunded" then
      Some(Refunded)
    else
      None
  }

  /** `apply_billing_event`: an event that does not move the machine leaves the row untouched. */
  function Step(current: Option<State>, event: Event): Option<State> {
    var next := Apply(current, event.name, event.inTrial);
    if next.None? then current else next
  }

  function Run(current: Option<State>, trace: seq<Event>): Option<State> {
    if trace == [] then current
    else Step(Run(current, trace[..|trace| - 1]), trace[|trace| - 1])
  }

  // ----- The closed form: no state, only positions in the trace -----

  /** The last position holding one of the named events, or -1. */
  function Last(trace: seq<Event>, names: set<string>): (k: int)
    ensures -1 <= k < |trace|
    ensures k >= 0 ==> trace[k].name in names
    ensures forall j :: k < j < |trace| ==> trace[j].name !in names
  {
    if trace == [] then -1
    else if trace[|trace| - 1].name in names then |trace| - 1
    else Last(trace[..|trace| - 1], names)
  }

  /** Refunded exactly when a refund has no later start; otherwise fixed by the last start,
      payment or cancellation and by whether a failure follows it. */
  function Reading(trace: seq<Event>): Option<State> {
    var anchor := Last(trace, {STARTED, PAID, CANCELED});
    if Last(trace, {REFUNDED}) > Last(trace, {STARTED}) then
      Some(Refunded)
    else if anchor >= 0 && trace[anchor].name == CANCELED then
      Some(Canceled)
    else if Last(trace, {FAILED}) > anchor then
      Some(PastDue)
    else if anchor < 0 then
      None
    else if trace[anchor].name == STARTED && trace[anchor].inTrial then
      Some(Trialing)
    else
      Some(Active)
  }

  /** Every trace ends where the closed form says it does. */
  lemma {:induction false} RunIsReading(trace: seq<Event>)
    ensures Run(None, trace) == Reading(trace)
  {
    if trace != [] {
      var init := trace[..|trace| - 1];
      RunIsReading(init);
      assert Last(init, {STARTED}) <= Last(init, {STARTED, PAID, CANCELED});
    }
  }

  lemma {:induction false} RunConcat(current: Option<State>, before: seq<Event>, after: seq<Event>)
    ensures Run(current, before + after) == Run(Run(current, before), after)
  {
    if after == [] {
      assert before + after == before;
    } else {
      var init := after[..|after| - 1];
      RunConcat(current, before, init);
      assert (before + after)[..|before + after| - 1] == before + init;
    }
  }

  /** A webhook delivered twice in a row, anywhere in any trace, changes nothing. */
  lemma {:induction false} RedeliveryIsHarmless(current: Option<State>, before: seq<Event>, event: Event,
                                                after: seq<Event>)
    ensures Run(current, before + [event, event] + after) == Run(current, before + [event] + after)
  {
    var state := Run(current, before);
    assert Run(state, [event, event]) == Run(state, [event]) by {
      assert [event, event][..1] == [event];
      assert [event][..0] == [];
    }
    RunConcat(current, before, [event, event]);
    RunConcat(current, before, [event]);
    RunConcat(current, before + [event, event], after);
    RunConcat(current, before + [event], after);
  }

  /** No straggler resurrects a refunded subscription: only a fresh start leaves that state. */
  lemma {:induction false} RefundIsTerminal(before: seq<Event>, after: seq<Event>)
    requires Run(None, before) == Some(Refunded)
    ensures Run(None, before + after) == Some(Refunded) || exists k :: 0 <= k < |after| && after[k].name == STARTED
  {
    RunConcat(None, before, after);
    if after != [] {
      var init := after[..|after| - 1];
      RefundIsTerminal(before, init);
      RunConcat(None, before, init);
      if k :| 0 <= k < |init| && init[k].name == STARTED {
        assert after[k].name == STARTED;
      }
    }
  }
}
