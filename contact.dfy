/** The contact form: its field values, the validation done on submit (no
    empty field, then the e-mail pattern), and the idle -> loading ->
    submitted -> idle life cycle of a message. */
module Contact {

  import opened Optional

  /** The three inputs, by their `name` attribute. */
  datatype Field = Name | Email | Message

  /** The `formState` record of the component. */
  datatype FormState = FormState(
    name: string,
    email: string,
    message: string,
    submitted: bool,
    loading: bool,
    error: Option<string>)

  const FillAllFields: string := "Please fill in all fields"
  const InvalidEmail: string := "Please enter a valid email address"

  /** The state the component mounts with. */
  const Initial: FormState := FormState("", "", "", false, false, None)

  /** The characters matched by `\s` in a JavaScript regular expression:
      the ASCII controls tab to carriage return, space, no-break space, the
      Unicode space separators, the line and paragraph separators and the
      byte order mark. */
  predicate IsSpace(c: char)
  {
    var n := c as int;
    n == 0x20 || 0x09 <= n <= 0x0D || n == 0xA0 || n == 0x1680 ||
    0x2000 <= n <= 0x200A || n == 0x2028 || n == 0x2029 || n == 0x202F ||
    n == 0x205F || n == 0x3000 || n == 0xFEFF
  }

  /** `[^\s@]+`: a non-empty run of characters that are neither white space nor '@'. */
  predicate IsWord(s: string)
  {
    |s| > 0 && forall k :: 0 <= k < |s| ==> !IsSpace(s[k]) && s[k] != '@'
  }

  /** One way for `^[^\s@]+@[^\s@]+\.[^\s@]+$` to match `s`: the '@' at index
      `at` and the literal '.' at index `dot` split `s` into three words. */
  predicate EmailSplit(s: string, at: nat, dot: nat)
  {
    at < dot < |s| && s[at] == '@' && s[dot] == '.' &&
    IsWord(s[..at]) && IsWord(s[at + 1..dot]) && IsWord(s[dot + 1..])
  }

  /** The e-mail regular expression accepts `s`: some split matches (the
      regex engine backtracks over every choice of the '.'). */
  predicate MatchesEmailRegex(s: string): (r: bool)
    ensures r ==> 5 <= |s| && s[0] != '@' && s[|s| - 1] != '@'
  {
    exists at: nat, dot: nat | at < |s| && dot < |s| :: EmailSplit(s, at, dot)
  }

  /** The same language described without the pattern: no white space,
      exactly one '@', something before it, and after it a '.' that is
      neither the first nor the last character of the domain. */
  ghost predicate WellFormedEmail(s: string)
  {
    (forall k :: 0 <= k < |s| ==> !IsSpace(s[k])) &&
    exists at :: 0 < at < |s| && s[at] == '@' &&
      (forall k :: 0 <= k < |s| && k != at ==> s[k] != '@') &&
      exists dot :: at + 1 < dot < |s| - 1 && s[dot] == '.'
  }

  /** The pattern and the structural description accept the same strings. */
  lemma {:induction false} EmailRegexIff(s: string)
    ensures MatchesEmailRegex(s) <==> WellFormedEmail(s)
  {
    if MatchesEmailRegex(s) {
      var at: nat, dot: nat :| at < |s| && dot < |s| && EmailSplit(s, at, dot);
      var local, domain, top := s[..at], s[at + 1..dot], s[dot + 1..];
      forall k | 0 <= k < |s|
        ensures !IsSpace(s[k]) && (k != at ==> s[k] != '@')
      {
        if k < at {
          assert s[k] == local[k];
        } else if at < k < dot {
          assert s[k] == domain[k - at - 1];
        } else if dot < k {
          assert s[k] == top[k - dot - 1];
        }
      }
      assert 0 < at && at + 1 < dot < |s| - 1;
    }
    if WellFormedEmail(s) {
      var at :| 0 < at < |s| && s[at] == '@' &&
        (forall k :: 0 <= k < |s| && k != at ==> s[k] != '@') &&
        exists dot :: at + 1 < dot < |s| - 1 && s[dot] == '.';
      var dot :| at + 1 < dot < |s| - 1 && s[dot] == '.';
      var local, domain, top := s[..at], s[at + 1..dot], s[dot + 1..];
      forall k | 0 <= k < |local| ensures !IsSpace(local[k]) && local[k] != '@' {
        assert local[k] == s[k];
      }
      forall k | 0 <= k < |domain| ensures !IsSpace(domain[k]) && domain[k] != '@' {
        assert domain[k] == s[at + 1 + k];
      }
      forall k | 0 <= k < |top| ensures !IsSpace(top[k]) && top[k] != '@' {
        assert top[k] == s[dot + 1 + k];
      }
      assert EmailSplit(s, at, dot);
    }
  }

  /** A plain address passes, and so does one with a trailing dot, because
      '.' is itself a word character. */
  lemma AcceptedSamples()
    ensures MatchesEmailRegex("jo@example.com")
    ensures MatchesEmailRegex("jo@example.com.")
  {
    assert EmailSplit("jo@example.com", 2, 10);
    assert EmailSplit("jo@example.com.", 2, 10);
  }

  /** A domain without a dot fails. */
  lemma NoDotRejected()
    ensures !MatchesEmailRegex("jo@example")
  {
  }

  /** A dot right after the '@' fails. */
  lemma LeadingDotRejected()
    ensures !MatchesEmailRegex("jo@.com")
  {
  }

  /** White space anywhere fails. */
  lemma SpaceRejected()
    ensures !MatchesEmailRegex("j o@example.com")
  {
    var s := "j o@example.com";
    EmailRegexIff(s);
    assert IsSpace(s[1]);
  }

  /** A second '@' fails. */
  lemma TwoAtsRejected()
    ensures !MatchesEmailRegex("jo@ex@ample.com")
  {
    var s := "jo@ex@ample.com";
    EmailRegexIff(s);
    assert s[2] == '@' && s[5] == '@';
  }

  /** An empty local part fails. */
  lemma EmptyLocalRejected()
    ensures !MatchesEmailRegex("@example.com")
  {
  }

  /** True when one of the three text fields is the empty string. Text made
      of white space only counts as filled in. */
  predicate HasEmptyField(f: FormState)
  {
    f.name == "" || f.email == "" || f.message == ""
  }

  /** The error a submit reports, if any: the emptiness check runs first, so
      a form with an empty field never gets the e-mail message. */
  function Validate(f: FormState): (r: Option<string>)
    ensures r == Some(FillAllFields) <==> HasEmptyField(f)
    ensures r == Some(InvalidEmail) <==> !HasEmptyField(f) && !MatchesEmailRegex(f.email)
    ensures r == None <==> !HasEmptyField(f) && MatchesEmailRegex(f.email)
  {
    if HasEmptyField(f) then Some(FillAllFields)
    else if !MatchesEmailRegex(f.email) then Some(InvalidEmail)
    else None
  }

  /** The form component with the pending demo send (the 1500 ms timer that
      stands in for the mail call). */
  class ContactForm {
    var form: FormState
    var sendPending: bool

    /** Loading exactly while a send is pending, with no error shown and the
        form still on screen; the thank-you screen follows a completed send,
        which empties the fields. */
    ghost predicate Valid()
      reads this
    {
      (form.loading <==> sendPending) &&
      (form.loading ==> form.error.None? && !form.submitted) &&
      (form.submitted ==>
        form.name == "" && form.email == "" && form.message == "" && form.error.None?)
    }

    constructor ()
      ensures Valid() && form == Initial && !sendPending
    {
      form := Initial;
      sendPending := false;
    }

    /** Typing into one input; the inputs exist only while the form is shown,
        that is while the message has not been submitted. */
    method HandleChange(field: Field, value: string)
      requires Valid() && !form.submitted
      modifies this
      ensures Valid() && sendPending == old(sendPending)
      ensures form == match field
        case Name => old(form).(name := value)
        case Email => old(form).(email := value)
        case Message => old(form).(message := value)
    {
      match field
      case Name => form := form.(name := value);
      case Email => form := form.(email := value);
      case Message => form := form.(message := value);
    }

    /** Pressing "Send Message". The form is shown only before a message is
        submitted and its button is disabled while loading, so neither holds
        here. An invalid form only gets its error; a valid one starts the
        send with the fields kept. */
    method HandleSubmit()
      requires Valid() && !form.submitted && !form.loading
      modifies this
      ensures Valid()
      ensures match Validate(old(form))
        case Some(message) =>
          form == old(form).(error := Some(message)) && sendPending == old(sendPending)
        case None =>
          form == old(form).(loading := true, error := None) && sendPending
    {
      if form.name == "" || form.email == "" || form.message == "" {
        form := form.(error := Some(FillAllFields));
        return;
      }
      if !MatchesEmailRegex(form.email) {
        form := form.(error := Some(InvalidEmail));
        return;
      }
      form := form.(loading := true, error := None);
      sendPending := true;
    }

    /** The demo send completes: the fields are emptied and the thank-you
        screen is shown. */
    method CompleteSend()
      requires Valid() && sendPending
      modifies this
      ensures Valid() && !sendPending
      ensures form == FormState("", "", "", true, false, None)
    {
      form := FormState("", "", "", true, false, None);
      sendPending := false;
    }

    /** "Send Another Message": back to the empty form. */
    method SendAnother()
      requires Valid()
      modifies this
      ensures Valid() && sendPending == old(sendPending)
      ensures form == old(form).(submitted := false)
    {
      form := form.(submitted := false);
    }
  }

  /** A whole message: fill in the fields, submit, let the send complete and
      ask for another form. A valid message ends on the initial state; an
      invalid one stays on the form with its error. */
  method SendOnce(name: string, email: string, message: string) returns (f: FormState)
    ensures Validate(FormState(name, email, message, false, false, None)).None? ==> f == Initial
    ensures Validate(FormState(name, email, message, false, false, None)).Some? ==>
      f == FormState(name, email, message, false, false,
                     Validate(FormState(name, email, message, false, false, None)))
  {
    var c := new ContactForm();
    c.HandleChange(Name, name);
    c.HandleChange(Email, email);
    c.HandleChange(Message, message);
    c.HandleSubmit();
    if c.sendPending {
      c.CompleteSend();
      c.SendAnother();
    }
    f := c.form;
  }
}
