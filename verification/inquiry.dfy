/**
 `submitPartnershipInquiry`: the schema check of the four inquiry fields and
 the three-way outcome (validation failure, send failure, success). The
 email-format test and the dispatcher are oracles: `isEmail` stands for
 zod's email pattern, `dispatch` for `sendContactEmail`. The outcome records
 the payloads handed to the dispatcher, so that "never on invalid input,
 exactly once on valid input" can be stated.
 */
module Inquiry {
  import opened Wrappers
  import opened Text
  import opened ContactEmail
  import Mail

  datatype Field = Name | Email | Company | DisruptionGoal

  /** The four `formData.get(..)` values: a string, or `None` for null when the field is absent. */
  datatype InquiryForm = InquiryForm(
    name: Option<string>, email: Option<string>, company: Option<string>, disruptionGoal: Option<string>)

  function ValueOf(form: InquiryForm, f: Field): Option<string>
  {
    match f
    case Name => form.name
    case Email => form.email
    case Company => form.company
    case DisruptionGoal => form.disruptionGoal
  }

  /** `PartnershipFormState`; `errors` maps each failing field to its messages. */
  datatype FormState = FormState(success: bool, message: string, errors: Option<map<Field, seq<string>>>)

  const NameMessage: string := "Name must be at least 2 characters."
  const EmailMessage: string := "Invalid email address."
  const CompanyMessage: string := "Company name is required."
  const GoalMessage: string := "Please briefly describe your market disruption goal (min 10 characters)."
  /** zod's default message for a null where a string is expected; the wording varies between zod versions. */
  const NotAStringMessage: string := "Expected string, received null"

  const ValidationFailed: string := "Validation failed. Please check your input."
  const SendFailed: string := "Sorry, there was an error sending your message. Please try again or contact us directly."
  const ThankYou: string := "Thank you for your inquiry! We'll contact you shortly to discuss a strategic partnership."

  /** A rule of `partnershipInquirySchema`. */
  datatype Rule = MinLength(min: nat, message: string) | EmailFormat(message: string)

  function RuleOf(f: Field): (r: Rule)
    ensures r.EmailFormat? <==> f == Email
    ensures (f == Name || f == Company) ==> r.MinLength? && r.min == 2
    ensures f == DisruptionGoal ==> r.MinLength? && r.min == 10
  {
    match f
    case Name => MinLength(2, NameMessage)
    case Email => EmailFormat(EmailMessage)
    case Company => MinLength(2, CompanyMessage)
    case DisruptionGoal => MinLength(10, GoalMessage)
  }

  /** The message zod reports for one field value, if the value breaks the field's rule. */
  function Issue(f: Field, v: Option<string>, isEmail: string -> bool): (m: Option<string>)
    ensures v.None? ==> m == Some(NotAStringMessage)
    ensures v.Some? && RuleOf(f).MinLength? ==> (m.Some? <==> Utf16Length(v.value) < RuleOf(f).min)
    ensures v.Some? && RuleOf(f).EmailFormat? ==> (m.Some? <==> !isEmail(v.value))
    ensures v.Some? && m.Some? ==> m.value == RuleOf(f).message
  {
    match v
    case None => Some(NotAStringMessage)
    case Some(s) =>
      match RuleOf(f)
      case MinLength(n, m) => if Utf16Length(s) < n then Some(m) else None
      case EmailFormat(m) => if isEmail(s) then None else Some(m)
  }

  /** Every field satisfies its rule. */
  predicate Valid(form: InquiryForm, isEmail: string -> bool)
  {
    && Issue(Name, form.name, isEmail).None?
    && Issue(Email, form.email, isEmail).None?
    && Issue(Company, form.company, isEmail).None?
    && Issue(DisruptionGoal, form.disruptionGoal, isEmail).None?
  }

  /** The fields that break their rule. */
  function FailingFields(form: InquiryForm, isEmail: string -> bool): set<Field>
  {
    set f: Field | Issue(f, ValueOf(form, f), isEmail).Some?
  }

  /** Adds `f`'s message to the flattened errors when `f` fails. */
  function Record(errors: map<Field, seq<string>>, form: InquiryForm, f: Field, isEmail: string -> bool)
    : (r: map<Field, seq<string>>)
    ensures f in r <==> (f in errors || Issue(f, ValueOf(form, f), isEmail).Some?)
    ensures Issue(f, ValueOf(form, f), isEmail).Some? ==> r[f] == [Issue(f, ValueOf(form, f), isEmail).value]
    ensures forall g :: g != f ==> (g in r <==> g in errors)
    ensures forall g :: g != f && g in errors ==> r[g] == errors[g]
  {
    match Issue(f, ValueOf(form, f), isEmail)
    case None => errors
    case Some(m) => errors[f := [m]]
  }

  /** `error.flatten().fieldErrors`: every field is checked, in schema order, none short-circuits another. */
  function FieldErrors(form: InquiryForm, isEmail: string -> bool): (errors: map<Field, seq<string>>)
    ensures errors.Keys == FailingFields(form, isEmail)
    ensures forall f :: f in errors ==>
              Issue(f, ValueOf(form, f), isEmail).Some? && errors[f] == [Issue(f, ValueOf(form, f), isEmail).value]
  {
    var e1 := Record(map[], form, Name, isEmail);
    var e2 := Record(e1, form, Email, isEmail);
    var e3 := Record(e2, form, Company, isEmail);
    var e4 := Record(e3, form, DisruptionGoal, isEmail);
    FailingFieldsExactly(form, isEmail, e4.Keys);
    EntriesExactly(form, isEmail, e4);
    e4
  }

  lemma EntriesExactly(form: InquiryForm, isEmail: string -> bool, errors: map<Field, seq<string>>)
    requires Name in errors ==> Issue(Name, form.name, isEmail).Some? && errors[Name] == [Issue(Name, form.name, isEmail).value]
    requires Email in errors ==> Issue(Email, form.email, isEmail).Some? && errors[Email] == [Issue(Email, form.email, isEmail).value]
    requires Company in errors ==>
               Issue(Company, form.company, isEmail).Some? && errors[Company] == [Issue(Company, form.company, isEmail).value]
    requires DisruptionGoal in errors ==>
               && Issue(DisruptionGoal, form.disruptionGoal, isEmail).Some?
               && errors[DisruptionGoal] == [Issue(DisruptionGoal, form.disruptionGoal, isEmail).value]
    ensures forall f :: f in errors ==>
              Issue(f, ValueOf(form, f), isEmail).Some? && errors[f] == [Issue(f, ValueOf(form, f), isEmail).value]
  {
    forall f | f in errors
      ensures Issue(f, ValueOf(form, f), isEmail).Some? && errors[f] == [Issue(f, ValueOf(form, f), isEmail).value]
    {
      match f
      case Name =>
      case Email =>
      case Company =>
      case DisruptionGoal =>
    }
  }

  lemma FailingFieldsExactly(form: InquiryForm, isEmail: string -> bool, keys: set<Field>)
    requires Name in keys <==> Issue(Name, form.name, isEmail).Some?
    requires Email in keys <==> Issue(Email, form.email, isEmail).Some?
    requires Company in keys <==> Issue(Company, form.company, isEmail).Some?
    requires DisruptionGoal in keys <==> Issue(DisruptionGoal, form.disruptionGoal, isEmail).Some?
    ensures keys == FailingFields(form, isEmail)
  {
    forall f ensures f in keys <==> f in FailingFields(form, isEmail) {
      match f
      case Name =>
      case Email =>
      case Company =>
      case DisruptionGoal =>
    }
  }

  /** The payload `submitPartnershipInquiry` hands to the dispatcher: the disruption goal becomes the message. */
  function Payload(form: InquiryForm): (d: ContactFormData)
    requires form.name.Some? && form.email.Some? && form.company.Some? && form.disruptionGoal.Some?
    ensures Some(d.name) == form.name && Some(d.email) == form.email && d.company == form.company
    ensures Some(d.message) == form.disruptionGoal
  {
    ContactFormData(form.name.value, form.email.value, Some(form.company.value), form.disruptionGoal.value)
  }

  /** `safeParse`: the validated payload, or the field errors. */
  function SafeParse(form: InquiryForm, isEmail: string -> bool): (r: Result<ContactFormData, map<Field, seq<string>>>)
    ensures r.Success? <==> Valid(form, isEmail)
    ensures r.Failure? ==> r.error.Keys == FailingFields(form, isEmail) && r.error.Keys != {}
    ensures r.Success? ==> r.value.name == form.name.value && r.value.email == form.email.value
                           && r.value.company == Some(form.company.value) && r.value.message == form.disruptionGoal.value
  {
    var errors := FieldErrors(form, isEmail);
    if errors == map[] then
      assert Name !in errors && Email !in errors && Company !in errors && DisruptionGoal !in errors;
      Success(Payload(form))
    else
      Failure(errors)
  }

  /** One call of the action: the new state, and the payloads handed to the dispatcher. */
  datatype Submission = Submission(state: FormState, dispatched: seq<ContactFormData>)

  /** `submitPartnershipInquiry(prevState, formData)`; `prev` takes no part. */
  function SubmitPartnershipInquiry(prev: FormState, form: InquiryForm, isEmail: string -> bool,
                                    dispatch: ContactFormData -> bool): (out: Submission)
    ensures !Valid(form, isEmail) ==>
              && out.dispatched == []
              && !out.state.success && out.state.message == ValidationFailed
              && out.state.errors.Some? && out.state.errors.value.Keys == FailingFields(form, isEmail)
    ensures Valid(form, isEmail) ==>
              && |out.dispatched| == 1
              && out.state.errors.None?
              && (out.state.success <==> dispatch(out.dispatched[0]))
              && out.state.message == (if out.state.success then ThankYou else SendFailed)
  {
    match SafeParse(form, isEmail)
    case Failure(errors) => Submission(FormState(false, ValidationFailed, Some(errors)), [])
    case Success(data) =>
      if !dispatch(data) then Submission(FormState(false, SendFailed, None), [data])
      else Submission(FormState(true, ThankYou, None), [data])
  }

  /** Each failing field carries exactly the message of the rule it broke. */
  lemma ErrorMessages(prev: FormState, form: InquiryForm, isEmail: string -> bool, dispatch: ContactFormData -> bool)
    requires !Valid(form, isEmail)
    ensures var e := SubmitPartnershipInquiry(prev, form, isEmail, dispatch).state.errors.value;
            forall f :: f in e ==> Issue(f, ValueOf(form, f), isEmail).Some? && e[f] == [Issue(f, ValueOf(form, f), isEmail).value]
  {
  }

  /** The dispatcher receives the validated name, email and company unchanged, and the goal as the message. */
  lemma DispatchedPayload(prev: FormState, form: InquiryForm, isEmail: string -> bool, dispatch: ContactFormData -> bool)
    requires Valid(form, isEmail)
    ensures var d := SubmitPartnershipInquiry(prev, form, isEmail, dispatch).dispatched[0];
            && Some(d.name) == form.name && Some(d.email) == form.email
            && d.company == form.company && Some(d.message) == form.disruptionGoal
  {
  }

  /** The state does not depend on the previous state. */
  lemma PreviousStateIgnored(p1: FormState, p2: FormState, form: InquiryForm, isEmail: string -> bool,
                             dispatch: ContactFormData -> bool)
    ensures SubmitPartnershipInquiry(p1, form, isEmail, dispatch) == SubmitPartnershipInquiry(p2, form, isEmail, dispatch)
  {
  }

  /** Two valid submissions whose dispatches agree end in the same state, whatever their fields. */
  lemma OutcomeOnlyFromDispatch(prev: FormState, f1: InquiryForm, f2: InquiryForm, isEmail: string -> bool,
                                d1: ContactFormData -> bool, d2: ContactFormData -> bool)
    requires Valid(f1, isEmail) && Valid(f2, isEmail)
    requires d1(Payload(f1)) == d2(Payload(f2))
    ensures SubmitPartnershipInquiry(prev, f1, isEmail, d1).state == SubmitPartnershipInquiry(prev, f2, isEmail, d2).state
  {
  }

  /** Two invalid submissions end in states that differ at most in their field errors. */
  lemma InvalidOutcomeOnlyFromErrors(prev: FormState, f1: InquiryForm, f2: InquiryForm, isEmail: string -> bool,
                                     d1: ContactFormData -> bool, d2: ContactFormData -> bool)
    requires !Valid(f1, isEmail) && !Valid(f2, isEmail)
    ensures var s1 := SubmitPartnershipInquiry(prev, f1, isEmail, d1).state;
            var s2 := SubmitPartnershipInquiry(prev, f2, isEmail, d2).state;
            s1.success == s2.success && s1.message == s2.message
  {
  }

  /** A minimum-length rule fails one code unit short of its minimum and passes at it. */
  lemma MinimumLengthBoundary(f: Field, s: string, isEmail: string -> bool)
    requires RuleOf(f).MinLength?
    ensures Utf16Length(s) == RuleOf(f).min - 1 ==> Issue(f, Some(s), isEmail) == Some(RuleOf(f).message)
    ensures Utf16Length(s) >= RuleOf(f).min ==> Issue(f, Some(s), isEmail).None?
  {
  }

  /** "A" fails the name rule with the name message; "Al" passes; 9 characters of goal fail, 10 pass. */
  lemma BoundaryExamples(isEmail: string -> bool)
    ensures Issue(Name, Some("A"), isEmail) == Some(NameMessage)
    ensures Issue(Name, Some("Al"), isEmail).None?
    ensures Issue(Company, Some("X"), isEmail) == Some(CompanyMessage)
    ensures Issue(DisruptionGoal, Some("123456789"), isEmail) == Some(GoalMessage)
    ensures Issue(DisruptionGoal, Some("1234567890"), isEmail).None?
  {
  }

  /** A validated company is never replaced by "Not provided" in the mail body. */
  lemma CompanyAlwaysShown(prev: FormState, form: InquiryForm, isEmail: string -> bool, dispatch: ContactFormData -> bool)
    requires Valid(form, isEmail)
    ensures var d := SubmitPartnershipInquiry(prev, form, isEmail, dispatch).dispatched[0];
            CompanyText(d.company) == form.company.value
  {
    assert Issue(Company, form.company, isEmail).None?;
  }

  /** The action wired to the Gmail sender of the contact email. */
  function SubmitThroughGmail(prev: FormState, form: InquiryForm, isEmail: string -> bool,
                              fromEmail: Option<string>, gmail: string -> bool): Submission
  {
    SubmitPartnershipInquiry(prev, form, isEmail, GmailDispatcher(fromEmail, gmail))
  }

  /** `sendContactEmail` as the dispatcher: whether the Gmail call completed. */
  function GmailDispatcher(fromEmail: Option<string>, gmail: string -> bool): ContactFormData -> bool
  {
    d => SendContactEmail(fromEmail, d, gmail).delivered
  }

  /** What Gmail reads out of `request`: the contact mail for `d`, replies to the submitter, the goal verbatim. */
  ghost predicate CarriesInquiry(request: string, fromEmail: Option<string>, d: ContactFormData)
  {
    var raw := RawMessage(fromEmail, d);
    var lines := Split(Body(d), '\n');
    && Mail.DecodeRequest(request) == Some(raw)
    && Mail.ParseMessage(raw) == Some((Headers(fromEmail, d), Body(d)))
    && Headers(fromEmail, d)[2] == "Reply-To: " + d.email
    && |lines| >= 10 && Join(lines[7..|lines| - 3], '\n') == d.message
  }

  lemma RequestCarriesInquiry(fromEmail: Option<string>, d: ContactFormData, gmail: string -> bool)
    requires SingleLineFields(fromEmail, d)
    ensures CarriesInquiry(SendContactEmail(fromEmail, d, gmail).request.value, fromEmail, d)
  {
    RawMessageLayout(fromEmail, d);
    MessageVerbatim(d);
  }

  /**
   A valid inquiry makes exactly one Gmail request, carrying the submitter's
   fields and goal, and succeeds exactly when that request is accepted.
   */
  lemma ValidInquiryReachesGmail(prev: FormState, form: InquiryForm, isEmail: string -> bool,
                                 fromEmail: Option<string>, gmail: string -> bool)
    requires Valid(form, isEmail)
    requires '\n' !in Mail.EnvText(fromEmail) && '\n' !in form.name.value && '\n' !in form.email.value
    requires '\n' !in form.company.value
    ensures var out := SubmitThroughGmail(prev, form, isEmail, fromEmail, gmail);
            var request := SendContactEmail(fromEmail, Payload(form), gmail).request.value;
            && out.dispatched == [Payload(form)]
            && CarriesInquiry(request, fromEmail, Payload(form))
            && (out.state.success <==> gmail(request))
  {
    GmailOutcome(prev, form, isEmail, fromEmail, gmail);
    PayloadCarried(form, fromEmail, gmail);
  }

  lemma PayloadCarried(form: InquiryForm, fromEmail: Option<string>, gmail: string -> bool)
    requires form.name.Some? && form.email.Some? && form.company.Some? && form.disruptionGoal.Some?
    requires '\n' !in Mail.EnvText(fromEmail) && '\n' !in form.name.value && '\n' !in form.email.value
    requires form.company.value != "" && '\n' !in form.company.value
    ensures CarriesInquiry(SendContactEmail(fromEmail, Payload(form), gmail).request.value, fromEmail, Payload(form))
  {
    RequestCarriesInquiry(fromEmail, Payload(form), gmail);
  }

  /** Through `sendContactEmail`, a valid inquiry is dispatched once and succeeds iff Gmail accepts the request. */
  lemma GmailOutcome(prev: FormState, form: InquiryForm, isEmail: string -> bool,
                     fromEmail: Option<string>, gmail: string -> bool)
    requires Valid(form, isEmail)
    ensures var out := SubmitThroughGmail(prev, form, isEmail, fromEmail, gmail);
            && out.dispatched == [Payload(form)]
            && (out.state.success <==> gmail(SendContactEmail(fromEmail, Payload(form), gmail).request.value))
  {
    var out := SubmitThroughGmail(prev, form, isEmail, fromEmail, gmail);
    assert SafeParse(form, isEmail) == Success(Payload(form));
    assert out.dispatched == [Payload(form)];
    assert GmailDispatcher(fromEmail, gmail)(Payload(form)) == SendContactEmail(fromEmail, Payload(form), gmail).delivered;
  }

  /** The dispatched body of a valid inquiry never shows "Not provided" for a company unless that was typed. */
  lemma CompanyLineOfValidInquiry(prev: FormState, form: InquiryForm, isEmail: string -> bool, dispatch: ContactFormData -> bool)
    requires Valid(form, isEmail)
    requires '\n' !in form.name.value && '\n' !in form.email.value && '\n' !in form.company.value
    ensures var d := SubmitPartnershipInquiry(prev, form, isEmail, dispatch).dispatched[0];
            |Split(Body(d), '\n')| > 4 && Split(Body(d), '\n')[4] == "Company: " + form.company.value
  {
    var d := SubmitPartnershipInquiry(prev, form, isEmail, dispatch).dispatched[0];
    CompanyAlwaysShown(prev, form, isEmail, dispatch);
    CompanyShown(d);
  }
}
