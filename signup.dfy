/**
 * The signup form and its message area (the submit handler,
 * src/static/app.js:89-126).
 *
 * Submitting reads the two form fields and sends one signup request; the
 * handler then waits for the reply, so submission and completion are two
 * steps and other events may come between them. Completion writes the
 * message text and class, un-hides the message, resets the form after a
 * successful reply, and schedules a hide for every answered request; a
 * request that fails outright (no reply, or a body that is not JSON)
 * shows the fallback text and schedules no hide.
 */
module Signup {
  import opened Strings

  /** The decoded reply: the `ok` flag and the optional `message` and `detail` fields. */
  datatype Reply = Reply(ok: bool, message: Option<string>, detail: Option<string>)

  /** How a signup request ended: with a decoded reply, or with an exception. */
  datatype Outcome = Answered(reply: Reply) | Failed

  /** The activity and the address a submission signs up. */
  datatype SignupRequest = SignupRequest(activity: string, email: string)

  const SuccessClass := "success"
  const ErrorClass := "error"
  const HiddenClass := "hidden"
  const GenericError := "An error occurred"
  const FailureText := "Failed to sign up. Please try again."

  /** `result.detail || "An error occurred"`: the detail when it is a non-empty string, else the fallback. */
  function DetailOrFallback(detail: Option<string>): (r: string)
    ensures r != []
    ensures detail.Some? && detail.value != [] ==> r == detail.value
    ensures detail.None? || detail.value == [] ==> r == GenericError
    ensures r == GenericError <==> detail.None? || detail.value == [] || detail.value == GenericError
  {
    match detail
    case Some(d) => if d != [] then d else GenericError
    case None => GenericError
  }

  /**
   * The message text a completed request shows: the server's message after
   * a successful reply (empty when it has none), the reply's non-empty
   * detail or the fallback after a rejected one, and the fixed failure text
   * after an exception. Only a successful reply can show the empty text.
   */
  function MessageText(o: Outcome): (t: string)
    ensures o.Answered? && o.reply.ok ==> t == OrEmpty(o.reply.message)
    ensures o.Answered? && !o.reply.ok ==> t == DetailOrFallback(o.reply.detail)
    ensures o.Failed? ==> t == FailureText
    ensures t == [] ==> o.Answered? && o.reply.ok
  {
    match o
    case Failed => FailureText
    case Answered(r) => if r.ok then OrEmpty(r.message) else DetailOrFallback(r.detail)
  }

  /** The class name a completed request gives the message: `success` exactly after a successful reply, `error` otherwise. */
  function MessageClass(o: Outcome): (c: string)
    ensures c == SuccessClass <==> o.Answered? && o.reply.ok
    ensures c == ErrorClass <==> !(o.Answered? && o.reply.ok)
    ensures c != HiddenClass
  {
    if o.Answered? && o.reply.ok then SuccessClass else ErrorClass
  }

  /** Only an answered request reaches the `setTimeout` call. */
  predicate SchedulesHide(o: Outcome)
  {
    o.Answered?
  }

  /** Only a successful reply resets the form. */
  predicate ResetsForm(o: Outcome)
  {
    o.Answered? && o.reply.ok
  }

  /**
   * How the three outcomes differ: the success class goes with the form
   * reset, every outcome but a successful reply shows a non-empty text, and
   * an exception is the only outcome that schedules no hide.
   */
  lemma OutcomeTable(o: Outcome)
    ensures MessageClass(o) == SuccessClass <==> ResetsForm(o)
    ensures !ResetsForm(o) ==> MessageText(o) != [] && MessageClass(o) == ErrorClass
    ensures !SchedulesHide(o) <==> o.Failed?
    ensures ResetsForm(o) ==> SchedulesHide(o)
  {
  }

  /** The form fields and the message element of the page. */
  class SignupPage {
    /** The fields' default values in the markup, which `reset()` restores. */
    const defaultEmail: string
    const defaultActivity: string
    var email: string
    var activity: string
    var text: string
    var classes: seq<string>
    /** Hides scheduled and not yet fired. */
    var pendingHides: nat
    /** Requests sent and not yet completed. */
    var inFlight: nat

    ghost predicate Hidden()
      reads this
    {
      HiddenClass in classes
    }

    /** The page as the markup sets it up: the fields at their defaults and the message's initial text and classes. */
    constructor (emailDefault: string, activityDefault: string, initialText: string, initialClasses: seq<string>)
      ensures defaultEmail == emailDefault && defaultActivity == activityDefault
      ensures email == emailDefault && activity == activityDefault
      ensures text == initialText && classes == initialClasses
      ensures pendingHides == 0 && inFlight == 0
    {
      defaultEmail, defaultActivity := emailDefault, activityDefault;
      email, activity, text := emailDefault, activityDefault, initialText;
      classes := initialClasses;
      pendingHides, inFlight := 0, 0;
    }

    /** The user types an address and picks an activity. */
    method Fill(newEmail: string, newActivity: string)
      modifies this
      ensures email == newEmail && activity == newActivity
      ensures text == old(text) && classes == old(classes)
      ensures pendingHides == old(pendingHides) && inFlight == old(inFlight)
    {
      email, activity := newEmail, newActivity;
    }

    /** The submit event: the request is built from the current field values; nothing on screen changes yet. */
    method Submit() returns (request: SignupRequest)
      modifies this
      ensures request == SignupRequest(activity, email)
      ensures inFlight == old(inFlight) + 1
      ensures email == old(email) && activity == old(activity)
      ensures text == old(text) && classes == old(classes) && pendingHides == old(pendingHides)
    {
      request := SignupRequest(activity, email);
      inFlight := inFlight + 1;
    }

    /** A sent request settles with `outcome`. */
    method Complete(outcome: Outcome)
      requires inFlight > 0
      modifies this
      ensures text == MessageText(outcome)
      ensures classes == [MessageClass(outcome)] && !Hidden()
      ensures pendingHides == old(pendingHides) + (if SchedulesHide(outcome) then 1 else 0)
      ensures inFlight == old(inFlight) - 1
      ensures ResetsForm(outcome) ==> email == defaultEmail && activity == defaultActivity
      ensures !ResetsForm(outcome) ==> email == old(email) && activity == old(activity)
    {
      inFlight := inFlight - 1;
      match outcome
      case Answered(reply) =>
        if reply.ok {
          text := OrEmpty(reply.message);
          classes := [SuccessClass];
          email, activity := defaultEmail, defaultActivity;
        } else {
          text := DetailOrFallback(reply.detail);
          classes := [ErrorClass];
        }
        RemoveAbsentClass(classes, HiddenClass);
        classes := RemoveClass(classes, HiddenClass);
        pendingHides := pendingHides + 1;
      case Failed =>
        text := FailureText;
        classes := [ErrorClass];
        RemoveAbsentClass(classes, HiddenClass);
        classes := RemoveClass(classes, HiddenClass);
    }

    /** One scheduled hide fires: `classList.add("hidden")`, whatever the message shows by then. */
    method HideTimerFires()
      requires pendingHides > 0
      modifies this
      ensures Hidden()
      ensures classes == AddClass(old(classes), HiddenClass)
      ensures pendingHides == old(pendingHides) - 1
      ensures text == old(text) && email == old(email) && activity == old(activity)
      ensures inFlight == old(inFlight)
    {
      classes := AddClass(classes, HiddenClass);
      pendingHides := pendingHides - 1;
    }
  }

  /** `classList.remove(c)`: every occurrence of `c` goes, every other class stays. */
  function RemoveClass(cs: seq<string>, c: string): (r: seq<string>)
    ensures c !in r
    ensures forall x :: x in r <==> x in cs && x != c
  {
    if cs == [] then []
    else if cs[0] == c then RemoveClass(cs[1..], c)
    else [cs[0]] + RemoveClass(cs[1..], c)
  }

  /** Removing a class that is not there changes nothing. */
  lemma {:induction false} RemoveAbsentClass(cs: seq<string>, c: string)
    requires c !in cs
    ensures RemoveClass(cs, c) == cs
  {
    if cs != [] {
      RemoveAbsentClass(cs[1..], c);
      assert [cs[0]] + cs[1..] == cs;
    }
  }

  /** `classList.add(c)`: `c` is appended unless it is already there. */
  function AddClass(cs: seq<string>, c: string): (r: seq<string>)
    ensures c in r
    ensures forall x :: x in r <==> x in cs || x == c
  {
    if c in cs then cs else cs + [c]
  }

  /**
   * Overlapping submissions: the hide scheduled by an earlier successful
   * reply also hides the failure message of a later request, while a
   * failure with no hide pending stays on screen.
   */
  method StaleHideCoversLaterFailure()
  {
    var page := new SignupPage("", "", "", [HiddenClass]);
    page.Fill("a@x.com", "Chess Club");
    var first := page.Submit();
    assert first == SignupRequest("Chess Club", "a@x.com");
    page.Complete(Answered(Reply(true, Some("Signed up!"), None)));
    assert page.text == "Signed up!" && page.email == [] && !page.Hidden();
    page.Fill("b@x.com", "Chess Club");
    var second := page.Submit();
    assert second == SignupRequest("Chess Club", "b@x.com");
    page.Complete(Failed);
    assert page.text == FailureText && !page.Hidden() && page.pendingHides == 1;
    page.HideTimerFires();
    assert page.Hidden() && page.text == FailureText && page.pendingHides == 0;
  }
}
