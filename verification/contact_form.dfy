/**
 The submit handler of the contact form: trim the three fields, reject a
 submission with an empty field, then one whose address fails the e-mail
 test, and otherwise report it as sent.
 */
module ContactForm {
  import opened Text
  import opened Email

  /** The three results of a submission, each shown as one notification. */
  datatype Outcome = FillAllFields | InvalidEmail | Sent {

    /** The notification text; each outcome has its own text, so the text
        alone tells which outcome it reports. */
    function Message(): (r: string)
      ensures r == "Please fill out all fields" <==> FillAllFields?
      ensures r == "Please enter a valid email address" <==> InvalidEmail?
      ensures r == "Your message has been sent successfully!" <==> Sent?
    {
      match this
      case FillAllFields => "Please fill out all fields"
      case InvalidEmail => "Please enter a valid email address"
      case Sent => "Your message has been sent successfully!"
    }

    /** The notification type: a success only for a message that was sent. */
    function Kind(): (r: string)
      ensures r == "success" <==> Sent?
      ensures r == "error" <==> !Sent?
    {
      if Sent? then "success" else "error"
    }
  }

  /** True when some field holds nothing but white space, so that it is
      empty once trimmed. */
  predicate SomeFieldBlank(name: string, email: string, message: string) {
    AllWs(name) || AllWs(email) || AllWs(message)
  }

  /** One submission of the form with the given raw field values: a blank
      field is reported first, then an address the expression refuses, and
      otherwise the message is sent. */
  function Submit(name: string, email: string, message: string): (o: Outcome)
    ensures o == FillAllFields <==> SomeFieldBlank(name, email, message)
    ensures o == InvalidEmail <==> !SomeFieldBlank(name, email, message) && !RegexMatches(Trim(email))
    ensures o == Sent <==> !SomeFieldBlank(name, email, message) && RegexMatches(Trim(email))
  {
    var n := Trim(name);
    var e := Trim(email);
    var m := Trim(message);
    TrimEmptyIffAllWs(name);
    TrimEmptyIffAllWs(email);
    TrimEmptyIffAllWs(message);
    EmailIffRegex(e);
    if n == [] || e == [] || m == [] then
      FillAllFields
    else if !IsEmail(e) then
      InvalidEmail
    else
      Sent
  }

  /** An empty trimmed name or message decides the outcome before the
      address is looked at: any two addresses give the same result. */
  lemma EmptyFieldShortCircuits(name: string, email1: string, email2: string, message: string)
    requires Trim(name) == [] || Trim(message) == []
    ensures Submit(name, email1, message) == FillAllFields
    ensures Submit(name, email1, message) == Submit(name, email2, message)
  {
  }

  /** White space around the address never changes the outcome. */
  lemma PaddedEmailSameOutcome(name: string, w1: string, email: string, w2: string, message: string)
    requires AllWs(w1) && AllWs(w2)
    ensures Submit(name, w1 + email + w2, message) == Submit(name, email, message)
  {
    TrimPadded(w1, email, w2);
    TrimEmptyIffAllWs(w1 + email + w2);
    TrimEmptyIffAllWs(email);
  }
}
