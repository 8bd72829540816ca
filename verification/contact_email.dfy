/**
 `sendContactEmail`: the notification mail for one partnership inquiry. The
 sender and recipient are both the `FROM_EMAIL` setting, replies go to the
 submitter, and the Gmail API call is an oracle `gmail` that says whether the
 send completed for a given request text (OAuth token exchange and HTTPS
 included); any failure there is the `false` the function returns.
 */
module ContactEmail {
  import opened Wrappers
  import opened Text
  import opened Mail

  /** `ContactFormData`; `company` is optional. */
  datatype ContactFormData = ContactFormData(name: string, email: string, company: Option<string>, message: string)

  const SubjectPrefix: string := "New Partnership Inquiry from "
  // The intro and signature are written in two parts so that facts about them can be proved one short literal at a time.
  const Intro: string := "New partnership inquiry received" + " from the Periscoped.io website:"
  const NoCompany: string := "Not provided"
  const Signature: string := "Sent from Periscoped.io" + " Contact Form"

  function Subject(d: ContactFormData): string
  {
    SubjectPrefix + d.name
  }

  /** `formData.company || 'Not provided'`: both `undefined` and `""` are falsy. */
  function CompanyText(company: Option<string>): (t: string)
    ensures t != ""
    ensures (company.None? || company.value == "") ==> t == NoCompany
    ensures (company.Some? && company.value != "") ==> t == company.value
  {
    match company
    case Some(c) => if c == "" then NoCompany else c
    case None => NoCompany
  }

  /** The lines of the body template before the message. */
  function FrontLines(d: ContactFormData): seq<string>
  {
    [Intro, "", "Name: " + d.name, "Email: " + d.email, "Company: " + CompanyText(d.company), "", "Message:"]
  }

  /** The lines of the body template after the message. */
  const BackLines: seq<string> := ["", "---", Signature]

  /** The template literal of the mail body: its lines joined by line feeds, the message in the middle. */
  function Body(d: ContactFormData): (b: string)
    ensures b == Join(FrontLines(d), '\n') + "\n" + d.message + "\n" + Join(BackLines, '\n')
  {
    var tail := [d.message] + BackLines;
    assert FrontLines(d) + [d.message] + BackLines == FrontLines(d) + tail;
    JoinAppend(FrontLines(d), tail, '\n');
    JoinCons(d.message, BackLines, '\n');
    Join(FrontLines(d) + [d.message] + BackLines, '\n')
  }

  /** The four header lines: From, To (the same address), Reply-To, Subject. */
  function Headers(fromEmail: Option<string>, d: ContactFormData): (h: seq<string>)
    ensures |h| == 4
    ensures h[0] == "From: " + EnvText(fromEmail) && h[1] == "To: " + EnvText(fromEmail)
    ensures h[2] == "Reply-To: " + d.email && h[3] == "Subject: " + SubjectPrefix + d.name
  {
    [ HeaderLine("From", EnvText(fromEmail)),
      HeaderLine("To", EnvText(fromEmail)),
      HeaderLine("Reply-To", d.email),
      HeaderLine("Subject", Subject(d)) ]
  }

  /** The raw message: the four header lines, an empty line, then the body. */
  function RawMessage(fromEmail: Option<string>, d: ContactFormData): (raw: string)
    ensures raw == Join(Headers(fromEmail, d), '\n') + "\n\n" + Body(d)
  {
    Compose(Headers(fromEmail, d), Body(d))
  }

  /** Single-line header values, so that none can start a header line of its own. */
  predicate SingleLineHeaders(fromEmail: Option<string>, d: ContactFormData)
  {
    '\n' !in EnvText(fromEmail) && '\n' !in d.name && '\n' !in d.email
  }

  /** Single-line header values and a single-line company, so that the body keeps its line structure as well. */
  predicate SingleLineFields(fromEmail: Option<string>, d: ContactFormData)
  {
    '\n' !in EnvText(fromEmail) && '\n' !in d.name && '\n' !in d.email && '\n' !in CompanyText(d.company)
  }

  /** `sendContactEmail`: builds the request, makes exactly one Gmail call, reports whether it completed. */
  function SendContactEmail(fromEmail: Option<string>, d: ContactFormData, gmail: string -> bool): (a: Attempt)
    ensures a.request.Some?
    ensures DecodeRequest(a.request.value) == Some(RawMessage(fromEmail, d))
    ensures a.delivered <==> gmail(a.request.value)
  {
    var request := Encode(RawMessage(fromEmail, d));
    Mail.DecodeEncode(RawMessage(fromEmail, d));
    Attempt(Some(request), gmail(request))
  }

  /** An unset `FROM_EMAIL` is interpolated as the text `undefined`, so the mail goes from and to "undefined". */
  lemma UnsetSenderShowsUndefined(d: ContactFormData)
    ensures Headers(None, d)[0] == "From: undefined" && Headers(None, d)[1] == "To: undefined"
  {
  }

  /** The subject is the fixed prefix followed by the submitter's name, verbatim. */
  lemma SubjectNamesSubmitter(d: ContactFormData)
    ensures |Subject(d)| == |SubjectPrefix| + |d.name|
    ensures Subject(d)[..|SubjectPrefix|] == SubjectPrefix && Subject(d)[|SubjectPrefix|..] == d.name
  {
  }

  /** A reader of the raw message finds From, To = From, Reply-To = the submitter, Subject, and the body. */
  lemma RawMessageLayout(fromEmail: Option<string>, d: ContactFormData)
    requires SingleLineHeaders(fromEmail, d)
    ensures ParseMessage(RawMessage(fromEmail, d)) == Some((Headers(fromEmail, d), Body(d)))
    ensures Headers(fromEmail, d)[1] == "To: " + EnvText(fromEmail)
    ensures Headers(fromEmail, d)[0] == "From: " + EnvText(fromEmail)
    ensures Headers(fromEmail, d)[2] == "Reply-To: " + d.email
  {
    HeadersWellFormed(fromEmail, d);
    ParseCompose(Headers(fromEmail, d), Body(d));
  }

  /** The body's lines: the fixed lines, the message's own lines, the signature block. */
  function BodyLines(d: ContactFormData): seq<string>
  {
    FrontLines(d) + Split(d.message, '\n') + BackLines
  }

  lemma FrontSingleLines(d: ContactFormData)
    requires '\n' !in d.name && '\n' !in d.email && '\n' !in CompanyText(d.company)
    ensures Split(Join(FrontLines(d), '\n'), '\n') == FrontLines(d)
  {
    var f := FrontLines(d);
    FixedLinesSingle();
    assert f[0] == Intro && f[1] == "" && f[2] == "Name: " + d.name && f[3] == "Email: " + d.email;
    assert f[4] == "Company: " + CompanyText(d.company) && f[5] == "" && f[6] == "Message:";
    forall i | 0 <= i < |f| ensures '\n' !in f[i] {
    }
    SplitJoin(f, '\n');
  }

  lemma FixedLinesSingle()
    ensures '\n' !in SubjectPrefix && '\n' !in Intro
    ensures '\n' !in "Name: " && '\n' !in "Email: " && '\n' !in "Company: " && '\n' !in "Message:"
  {
    PrefixSingle();
    IntroSingle();
  }

  lemma PrefixSingle()
    ensures '\n' !in SubjectPrefix
  {
  }

  lemma IntroSingle()
    ensures '\n' !in Intro
  {
    assert '\n' !in "New partnership inquiry received";
    assert '\n' !in " from the Periscoped.io website:";
  }

  /** With single-line fields the four header lines are single, non-empty lines. */
  lemma HeadersWellFormed(fromEmail: Option<string>, d: ContactFormData)
    requires SingleLineHeaders(fromEmail, d)
    ensures WellFormedHeaders(Headers(fromEmail, d))
  {
    PrefixSingle();
    SingleLineHeader("From", EnvText(fromEmail));
    SingleLineHeader("To", EnvText(fromEmail));
    SingleLineHeader("Reply-To", d.email);
    SingleLineHeader("Subject", Subject(d));
  }

  lemma BackSingleLines()
    ensures Split(Join(BackLines, '\n'), '\n') == BackLines
  {
    assert '\n' !in Signature;
    assert '\n' !in "---";
    SplitJoin(BackLines, '\n');
  }

  /** The body splits into its fixed lines around the message lines. */
  lemma BodyLayout(d: ContactFormData)
    requires '\n' !in d.name && '\n' !in d.email && '\n' !in CompanyText(d.company)
    ensures Split(Body(d), '\n') == BodyLines(d)
  {
    var front := FrontLines(d);
    var back := Join(BackLines, '\n');
    assert Body(d) == Join(front, '\n') + "\n" + (d.message + "\n" + back);
    SplitConcat(Join(front, '\n'), '\n', d.message + "\n" + back);
    SplitConcat(d.message, '\n', back);
    FrontSingleLines(d);
    BackSingleLines();
  }

  /** The message text comes back verbatim from the lines after "Message:". */
  lemma MessageVerbatim(d: ContactFormData)
    requires '\n' !in d.name && '\n' !in d.email && '\n' !in CompanyText(d.company)
    ensures var lines := Split(Body(d), '\n');
            |lines| >= 11 && lines[6] == "Message:" && Join(lines[7..|lines| - 3], '\n') == d.message
  {
    BodyLayout(d);
    var lines := BodyLines(d);
    assert lines[7..|lines| - 3] == Split(d.message, '\n');
    JoinSplit(d.message, '\n');
  }

  /** A missing or empty company is shown as "Not provided"; any other company is shown as given. */
  lemma CompanyShown(d: ContactFormData)
    requires '\n' !in d.name && '\n' !in d.email && '\n' !in CompanyText(d.company)
    ensures |Split(Body(d), '\n')| > 4
    ensures (d.company.None? || d.company.value == "") ==> Split(Body(d), '\n')[4] == "Company: Not provided"
    ensures (d.company.Some? && d.company.value != "") ==> Split(Body(d), '\n')[4] == "Company: " + d.company.value
  {
    BodyLayout(d);
    var lines := BodyLines(d);
    assert lines[4] == FrontLines(d)[4];
  }

  /**
   Only the email address is checked for format, so a name can carry a line
   feed: what follows it in the name reaches a reader of the message as a
   header line of its own, after the Subject line.
   */
  lemma LineFeedInNameAddsHeader(fromEmail: Option<string>, d: ContactFormData, a: string, b: string)
    requires d.name == a + "\n" + b && '\n' !in a && '\n' !in b && b != ""
    requires '\n' !in EnvText(fromEmail) && '\n' !in d.email
    ensures ParseMessage(RawMessage(fromEmail, d))
            == Some(([ HeaderLine("From", EnvText(fromEmail)), HeaderLine("To", EnvText(fromEmail)),
                       HeaderLine("Reply-To", d.email), "Subject: " + SubjectPrefix + a, b ], Body(d)))
  {
    var injected := [ HeaderLine("From", EnvText(fromEmail)), HeaderLine("To", EnvText(fromEmail)),
                      HeaderLine("Reply-To", d.email), "Subject: " + SubjectPrefix + a, b ];
    NameSplitsSubjectLine(fromEmail, d, a, b);
    InjectedWellFormed(fromEmail, d, a, b);
    ParseCompose(injected, Body(d));
  }

  /** The raw message of a name `a + "\n" + b` is the message composed with `b` as a header line of its own. */
  lemma NameSplitsSubjectLine(fromEmail: Option<string>, d: ContactFormData, a: string, b: string)
    requires d.name == a + "\n" + b
    ensures RawMessage(fromEmail, d)
            == Compose([ HeaderLine("From", EnvText(fromEmail)), HeaderLine("To", EnvText(fromEmail)),
                         HeaderLine("Reply-To", d.email), "Subject: " + SubjectPrefix + a, b ], Body(d))
  {
    var h := Headers(fromEmail, d);
    var p := h[..3];
    var q := ["", Body(d)];
    var x := "Subject: " + SubjectPrefix + a;
    assert h[3] == x + "\n" + b;
    assert h == p + [h[3]];
    assert h + q == p + [x + "\n" + b] + q;
    JoinPieceWithSeparator(p, x, b, q, '\n');
    var injected := p + [x, b];
    assert injected == [h[0], h[1], h[2], x, b];
    assert RawMessage(fromEmail, d) == Join(h + q, '\n');
    assert Compose(injected, Body(d)) == Join(injected + q, '\n');
  }

  lemma InjectedWellFormed(fromEmail: Option<string>, d: ContactFormData, a: string, b: string)
    requires '\n' !in a && '\n' !in b && b != ""
    requires '\n' !in EnvText(fromEmail) && '\n' !in d.email
    ensures WellFormedHeaders([ HeaderLine("From", EnvText(fromEmail)), HeaderLine("To", EnvText(fromEmail)),
                                HeaderLine("Reply-To", d.email), "Subject: " + SubjectPrefix + a, b ])
  {
    PrefixSingle();
    SingleLineHeader("From", EnvText(fromEmail));
    SingleLineHeader("To", EnvText(fromEmail));
    SingleLineHeader("Reply-To", d.email);
    SingleLineHeader("Subject", SubjectPrefix + a);
    assert "Subject: " + SubjectPrefix + a == HeaderLine("Subject", SubjectPrefix + a);
  }
}
