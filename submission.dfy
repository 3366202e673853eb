/** Submission of the registration form: the submit handler validates the
    form's entries, posts them to the enrolment endpoint, and reports the
    outcome in a notification. The network is not modelled: how the POST
    would settle is a parameter. */
module Submission {
  import opened Validation

  datatype Kind = Success | Error

  /** A corner notification: its colour and its text. */
  datatype Notice = Notice(kind: Kind, message: string)

  /** How the POST to `/courses/enroll` settles: a network error with the
      message of the exception `fetch` throws, or a response with its `ok`
      flag (status 200-299), its status text and its body text. */
  datatype PostReply = NetworkError(message: string) | Response(ok: bool, statusText: string, body: string)

  const InvalidFormMessage := "Please fill in all required fields correctly."
  const FallbackMessage := "Registration failed. Please try again."
  const SuccessMessage := "Registration successful! You will be redirected shortly."
  const ProcessingLabel := "Processing..."
  const LandingPage := "index.html"

  const RefusalPrefix := "Registration failed: "

  /** The error shown when the server answers outside 200-299: the prefix,
      then its body text, or its status text when the body is empty. */
  function RefusalMessage(statusText: string, body: string): (m: string)
    ensures |m| >= |RefusalPrefix| && m[..|RefusalPrefix|] == RefusalPrefix
    ensures body != [] ==> m[|RefusalPrefix|..] == body
    ensures body == [] ==> m[|RefusalPrefix|..] == statusText
  {
    RefusalPrefix + (if body != [] then body else statusText)
  }

  /** The page of the registration form: the form's entries, the submit
      button, the notifications raised so far and those on screen, the
      request bodies sent and the navigations scheduled. */
  class RegistrationForm {
    var entries: FormEntries
    /** What `form.reset()` restores. */
    const defaults: FormEntries
    var submitDisabled: bool
    var submitText: string
    /** Every notification raised, oldest first. */
    var notices: seq<Notice>
    /** The `.notification` elements on the page, in document order. */
    var onScreen: seq<Notice>
    /** The bodies POSTed to `/courses/enroll`, oldest first. */
    var posted: seq<FormEntries>
    /** The page changes scheduled, after the fixed delay, oldest first. */
    var navigations: seq<string>

    constructor (initial: FormEntries, resetTo: FormEntries, buttonText: string)
      ensures entries == initial && defaults == resetTo
      ensures !submitDisabled && submitText == buttonText
      ensures notices == [] && onScreen == [] && posted == [] && navigations == []
      ensures Valid()
    {
      entries := initial;
      defaults := resetTo;
      submitDisabled := false;
      submitText := buttonText;
      notices := [];
      onScreen := [];
      posted := [];
      navigations := [];
    }

    /** At most one notification is on screen, and it is the last one
        raised. */
    predicate Valid()
      reads this
    {
      && |onScreen| <= 1
      && (notices == [] ==> onScreen == [])
      && (notices != [] ==> onScreen == [notices[|notices| - 1]])
    }

    /** `showNotification(message, kind)`: the first notification on the
        page, if any, is removed, and the new one is appended. */
    method ShowNotification(message: string, kind: Kind)
      requires Valid()
      modifies this`notices, this`onScreen
      ensures notices == old(notices) + [Notice(kind, message)]
      ensures onScreen == (if old(onScreen) != [] then old(onScreen)[1..] else []) + [Notice(kind, message)]
      ensures Valid() && onScreen == [Notice(kind, message)]
    {
      notices := notices + [Notice(kind, message)];
      var rest := if onScreen != [] then onScreen[1..] else [];  // existingNotification.remove()
      onScreen := rest + [Notice(kind, message)];  // document.body.appendChild
    }

    /** The path of a submission that fails validation: the failing rule's
        message, then the generic one the catch block raises. Nothing is
        sent and the entries stay. */
    method Refuse(rule: Rule)
      requires Valid()
      modifies this`notices, this`onScreen
      ensures notices == old(notices) + [Notice(Error, RuleMessage(rule)), Notice(Error, InvalidFormMessage)]
      ensures Valid() && onScreen == [Notice(Error, InvalidFormMessage)]
    {
      ShowNotification(RuleMessage(rule), Error);
      ShowNotification(InvalidFormMessage, Error);
    }

    /** The path of a valid submission: `data` is sent once, then the
        reply decides. A success raises the success notice, clears the form
        and schedules the landing page; a failure raises its message (the
        exception's, or the fallback when that is empty; the server's body or
        status text) and keeps the entries. */
    method Send(data: FormEntries, reply: PostReply)
      requires Valid()
      modifies this`entries, this`notices, this`onScreen, this`posted, this`navigations
      ensures Valid()
      ensures posted == old(posted) + [data]
      ensures reply.NetworkError? ==>
        && notices == old(notices) + [Notice(Error, if reply.message != [] then reply.message else FallbackMessage)]
        && entries == old(entries) && navigations == old(navigations)
      ensures reply.Response? && !reply.ok ==>
        && notices == old(notices) + [Notice(Error, RefusalMessage(reply.statusText, reply.body))]
        && entries == old(entries) && navigations == old(navigations)
      ensures reply.Response? && reply.ok ==>
        && notices == old(notices) + [Notice(Success, SuccessMessage)]
        && entries == defaults && navigations == old(navigations) + [LandingPage]
    {
      posted := posted + [data];
      match reply
      case NetworkError(message) =>
        ShowNotification(if message != [] then message else FallbackMessage, Error);
      case Response(ok, statusText, body) =>
        if ok {
          ShowNotification(SuccessMessage, Success);
          entries := defaults;  // form.reset()
          navigations := navigations + [LandingPage];
        } else {
          ShowNotification(RefusalMessage(statusText, body), Error);
        }
    }

    /** `handleFormSubmission` once the POST, if one is sent, has settled
        with `reply`. Entries that fail validation are never sent; the first
        failing rule's message is raised and at once replaced by the generic
        one. Valid entries are sent exactly once; a success clears the form
        and schedules the move to the landing page, a failure keeps the
        entries. In every case the button ends enabled with its label back. */
    method HandleFormSubmission(reply: PostReply)
      requires Valid()
      modifies this`entries, this`submitDisabled, this`submitText, this`notices, this`onScreen, this`posted, this`navigations
      ensures Valid()
      ensures !submitDisabled && submitText == old(submitText)
      ensures var v := ValidateFormData(old(entries));
        && (v.Rejected? ==>
              && posted == old(posted)
              && notices == old(notices) + [Notice(Error, RuleMessage(v.rule)), Notice(Error, InvalidFormMessage)]
              && entries == old(entries) && navigations == old(navigations))
        && (v == Accepted ==> posted == old(posted) + [old(entries)])
        && (v == Accepted && reply.NetworkError? ==>
              && notices == old(notices) + [Notice(Error, if reply.message != [] then reply.message else FallbackMessage)]
              && entries == old(entries) && navigations == old(navigations))
        && (v == Accepted && reply.Response? && !reply.ok ==>
              && notices == old(notices) + [Notice(Error, RefusalMessage(reply.statusText, reply.body))]
              && entries == old(entries) && navigations == old(navigations))
        && (v == Accepted && reply.Response? && reply.ok ==>
              && notices == old(notices) + [Notice(Success, SuccessMessage)]
              && entries == defaults && navigations == old(navigations) + [LandingPage])
    {
      var original := submitText;
      submitDisabled := true;
      submitText := ProcessingLabel;
      var verdict := ValidateFormData(entries);
      if verdict.Rejected? {
        Refuse(verdict.rule);
      } else {
        Send(entries, reply);
      }
      submitDisabled := false;  // the finally block
      submitText := original;
    }
  }
}
