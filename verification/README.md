# Periscoped website core, modelled in Dafny

This project models the small amount of decision logic in the Periscoped
marketing site and its AWS cost-report scripts, as pure Dafny functions with
proved contracts:

- **Partnership inquiry** (`app/actions.ts`): the four-field schema of
  `submitPartnershipInquiry` (name, company at least 2 UTF-16 code units,
  email format, disruption goal at least 10), the flattened field errors, and
  the three outcomes: validation failure, send failure, or success.
  Module `Inquiry`.
- **Contact email** (`lib/email-service.ts`): subject, body template, the
  From/To/Reply-To/Subject header block, UTF-8, and the base64url request
  handed to the Gmail API. Modules `ContactEmail`, `Mail`, `Base64`, `Text`.
- **Cost-report mailer** (`send_aws_report.js`): the `.env.local` line
  parser, the HTML report message, and the script's exit code. Modules
  `EnvFile`, `CostReportMail`.
- **Cost processing** (`process_costs.py`): services with positive cost,
  their total, a stable descending sort, the three service categories, the
  high-impact savings and the low-impact recommendation, and `main`'s exit
  status. Module `Costs`.
- **Typewriter headline** (`components/typewriter-headline.tsx`): one
  `handleTyping` firing as a step function on (textIndex, charIndex,
  isDeleting, currentText), with its state invariant. Module `Typewriter`.

Effects are parameters. The email check of zod is `isEmail`. The dispatcher
is `dispatch`. The Gmail API (OAuth2 token exchange and HTTPS included) is
`gmail`, which says whether the send of a given request completed. File
reads are `readFile`/`load`/`dotEnv`, and file writing is `write`.

The base 64 pipeline of both senders runs standard base 64 (section 4 of
RFC 4648), then rewrites `+`/`/` to `-`/`_`, then removes the trailing `=`.
It is proved equal to the unpadded URL-safe encoding of section 5 of RFC 4648, and a
decoder is proved to invert it. The request therefore decodes back to the
raw message. The raw message is read back by `Mail.ParseMessage`, which
splits it into header lines and body at the first empty line.

Header values come straight from the form. Only the email address has a
format rule, and name and company need only a minimum length. So a name
holding a line feed starts a header line of its own after `Subject:`
(`ContactEmail.LineFeedInNameAddsHeader`). The layout lemmas therefore
assume single-line fields.

The sender address is the `FROM_EMAIL` setting, interpolated into a template
literal. When it is unset, both senders write the text `undefined` into the
`From:` line (and the contact mail into `To:` as well); `Mail.EnvText` models
this, and the two `UnsetSenderShowsUndefined` lemmas state it.

Facts about the inquiry schema that the model keeps:
- each field has one rule, so a failing field carries exactly one message;
- the messages are the code's own strings;
- lengths are JavaScript's UTF-16 lengths.

## Model

| member | source | states |
|---|---|---|
| `Inquiry.FieldErrors` | app/actions.ts:37-42 | the keys of the flattened errors are exactly the failing fields, each with the one message of the rule it broke |
| `Inquiry.SafeParse` | app/actions.ts:30-35 | parsing succeeds iff every field passes; on success the data are the fields unchanged; on failure at least one field error |
| `Inquiry.SubmitPartnershipInquiry` | app/actions.ts:26-64 | invalid input: no dispatch, success false, "Validation failed…" message, errors keyed by exactly the failing fields; valid input: exactly one dispatch, no errors, success iff the dispatcher returned true, thank-you or apology message accordingly |
| `Inquiry.Issue` | app/actions.ts:7-12 | a null value gets zod's not-a-string message; a present value fails a minimum-length rule iff its UTF-16 length is below the minimum, and the email rule iff the email check rejects it; a failure carries that rule's message |
| `Inquiry.Record` | app/actions.ts:41 | the field is added to the errors, with its one message, exactly when it fails; every other field's entry is unchanged |
| `Inquiry.ErrorMessages` | app/actions.ts:38-42 | each error entry is the single message of that field's rule |
| `Inquiry.RuleOf` | app/actions.ts:6-13 | the email field alone has the format rule; name and company need at least 2 code units, the disruption goal at least 10 |
| `Inquiry.Payload` | app/actions.ts:46-51 | the payload carries name, email and company as given and the disruption goal as its message |
| `Inquiry.DispatchedPayload` | app/actions.ts:46-51 | the dispatched payload carries name, email and company unchanged and the disruption goal as its message |
| `Inquiry.PreviousStateIgnored` | app/actions.ts:26-29 | the result does not depend on the previous state |
| `Inquiry.OutcomeOnlyFromDispatch` | app/actions.ts:53-63 | two valid inputs whose dispatches agree end in the same state, whatever their field values |
| `Inquiry.InvalidOutcomeOnlyFromErrors` | app/actions.ts:37-43 | two invalid inputs end with the same success flag and message |
| `Inquiry.MinimumLengthBoundary` | app/actions.ts:7-12 | a minimum-length rule fails one UTF-16 code unit below its minimum (with its message) and passes at or above it |
| `Inquiry.BoundaryExamples` | app/actions.ts:7-12 | "A" fails the name rule, "Al" passes; a 1-character company fails; a 9-character goal fails, a 10-character goal passes |
| `Inquiry.CompanyAlwaysShown` | app/actions.ts:49 | a validated company is rendered verbatim, never replaced by "Not provided" |
| `Inquiry.CompanyLineOfValidInquiry` | lib/email-service.ts:33 | for single-line fields, the body's Company line is "Company: " followed by the submitted company |
| `Inquiry.RequestCarriesInquiry` | lib/email-service.ts:42-56 | for single-line fields (FROM_EMAIL included), the Gmail request decodes to the raw message, whose headers and body read back, Reply-To is the submitter, and the message lines hold the text verbatim |
| `Inquiry.GmailOutcome` | app/actions.ts:46-63 | with `sendContactEmail` as the dispatcher, a valid inquiry is dispatched once, as its payload, and succeeds iff Gmail accepts that payload's request |
| `Inquiry.ValidInquiryReachesGmail` | app/actions.ts:46-63 | for single-line fields (FROM_EMAIL included), a valid inquiry makes exactly one Gmail request carrying the inquiry, and succeeds iff that request is accepted |
| `ContactEmail.SendContactEmail` | lib/email-service.ts:10-72 | one request is built, it decodes exactly to the raw message, and the result is true iff the send completed |
| `ContactEmail.CompanyText` | lib/email-service.ts:33 | never empty; an absent or empty company is "Not provided", any other company is itself |
| `ContactEmail.Body` | lib/email-service.ts:29-39 | the body is the fixed front lines, a line feed, the message, a line feed, then the signature block |
| `ContactEmail.Headers` | lib/email-service.ts:42-46 | four lines: From and To both the configured sender, Reply-To the submitter's email, Subject the fixed prefix followed by the name |
| `ContactEmail.RawMessage` | lib/email-service.ts:42-49 | the raw message is the four header lines joined by line feeds, an empty line, then the body |
| `ContactEmail.UnsetSenderShowsUndefined` | lib/email-service.ts:43-44 | with FROM_EMAIL unset, the From and To lines read "From: undefined" and "To: undefined" |
| `ContactEmail.SubjectNamesSubmitter` | lib/email-service.ts:28 | the subject is "New Partnership Inquiry from " followed by the name verbatim |
| `ContactEmail.RawMessageLayout` | lib/email-service.ts:42-49 | for single-line FROM_EMAIL, name and email, a reader gets back the header lines From, To, Reply-To, Subject and the body; To equals From; Reply-To is the submitter's email |
| `ContactEmail.BodyLayout` | lib/email-service.ts:29-39 | for single-line name, email and company, the body's lines are the intro, blank, Name, Email, Company, blank, "Message:", the message's lines, blank, "---", signature |
| `ContactEmail.MessageVerbatim` | lib/email-service.ts:35-36 | for single-line name, email and company, the lines after "Message:" and before the signature block join back to the message exactly |
| `ContactEmail.CompanyShown` | lib/email-service.ts:33 | for single-line name, email and company, body line 4 shows "Not provided" for an absent or empty company; any other company shows verbatim |
| `ContactEmail.LineFeedInNameAddsHeader` | lib/email-service.ts:28 | a name "a\nb" makes the reader see an extra header line b after the Subject line |
| `Mail.Compose` | lib/email-service.ts:42-49 | the raw message is the header lines joined by line feeds, an empty line, then the body |
| `Mail.ParseCompose` | lib/email-service.ts:42-49 | header lines, an empty line and a body joined by line feeds read back as exactly those headers and that body |
| `Mail.ComposeLines` | docs/user_stories/cron-aws-optimization/send_aws_report.js:48-55 | the lines of a composed message are the headers, one empty line, then the body's lines |
| `Mail.DecodeEncode` | lib/email-service.ts:52-56 | the request decodes (base 64 url, then UTF-8) to the raw message |
| `Mail.Encode` | docs/user_stories/cron-aws-optimization/send_aws_report.js:58-62 | the request uses only the URL-safe alphabet |
| `Base64.EncodeStd` | lib/email-service.ts:53 | the standard encoding has four characters per started group of three bytes |
| `Base64.PaddingAtEnd` | lib/email-service.ts:53 | `=` appears in the standard encoding only in its last two places |
| `Base64.GmailRaw` | lib/email-service.ts:52-56 | the request holds no `+` or `/` and does not end in `=` |
| `Base64.GmailRawIsUrlNoPad` | lib/email-service.ts:52-56 | standard base 64, then `+`→`-`, `/`→`_`, then trailing `=` removed, equals the unpadded URL-safe encoding of RFC 4648 |
| `Base64.NoStdOnlyCharacters` | lib/email-service.ts:54-56 | the request holds no `+`, `/` or `=` |
| `Base64.EncodeUrlNoPadLength` | lib/email-service.ts:52-56 | the length is 4·⌊n/3⌋ plus 0, 2 or 3 for n mod 3 = 0, 1, 2 |
| `Base64.DecodeEncode` | lib/email-service.ts:52-56 | decoding the encoding of any bytes gives the bytes back |
| `Base64.StripTrailingPad` | lib/email-service.ts:56 | the result is a prefix, only `=` was removed, and it does not end in `=` |
| `Base64.UrlSafeRewrite` | lib/email-service.ts:54-55 | same length; `+` becomes `-`, `/` becomes `_`, every other character is kept |
| `Text.Utf8Encode` | lib/email-service.ts:52 | the UTF-8 encoding is at least as long as the text and at most four times as long |
| `Text.Utf8RoundTrip` | lib/email-service.ts:52 | the UTF-8 bytes of `Buffer.from` decode back to the text |
| `Text.Utf8Ascii` | lib/email-service.ts:52 | an ASCII text is encoded one byte per character, as its code points |
| `Text.Utf16Length` | app/actions.ts:7-12 | the JavaScript length lies between the number of characters and twice that |
| `Text.Utf16LengthBmp` | app/actions.ts:7-12 | the JavaScript length equals the number of characters iff no character lies outside the Basic Multilingual Plane |
| `Text.Split` | docs/user_stories/cron-aws-optimization/send_aws_report.js:13-14 | a split always has at least one piece |
| `Text.SplitLength` | docs/user_stories/cron-aws-optimization/send_aws_report.js:13-14 | a split drops exactly the separators: the pieces' lengths plus one per gap make up the text's length |
| `Text.JoinLength` | lib/email-service.ts:42-49 | a join is the pieces' characters plus one separator between neighbours |
| `Text.SplitPieces` | docs/user_stories/cron-aws-optimization/send_aws_report.js:13-14 | no piece holds the separator; a single piece iff the text has no separator |
| `Text.JoinSplit` | docs/user_stories/cron-aws-optimization/send_aws_report.js:13-14 | joining the pieces of a split gives the text back |
| `Text.SplitJoin` | lib/email-service.ts:42-49 | splitting the join of separator-free pieces gives the pieces back |
| `Text.SplitConcat` | docs/user_stories/cron-aws-optimization/send_aws_report.js:14 | a split at one separator is the split of each side |
| `Text.Trim` | docs/user_stories/cron-aws-optimization/send_aws_report.js:16 | the result is a window of the text with only whitespace outside it and no whitespace at its ends |
| `Text.TrimEmptyIffAllWhitespace` | docs/user_stories/cron-aws-optimization/send_aws_report.js:16 | trimming gives the empty text iff the text is all whitespace |
| `Text.TrimKeepsOut` | docs/user_stories/cron-aws-optimization/send_aws_report.js:16 | a character absent from a text is absent from its trim |
| `Text.TrimIdempotent` | docs/user_stories/cron-aws-optimization/send_aws_report.js:16 | trimming twice is trimming once |
| `EnvFile.ApplyLines` | docs/user_stories/cron-aws-optimization/send_aws_report.js:13-18 | applying the lines never removes a variable |
| `EnvFile.LoadEnvFile` | docs/user_stories/cron-aws-optimization/send_aws_report.js:8-22 | a missing file leaves the environment unchanged |
| `EnvFile.LineBinding` | docs/user_stories/cron-aws-optimization/send_aws_report.js:14-15 | a line binds only if it holds `=`; the bound key and value hold no `=` and are already trimmed |
| `EnvFile.ApplyLine` | docs/user_stories/cron-aws-optimization/send_aws_report.js:15-16 | a qualifying line sets its key to its value, any other line leaves the environment as it was |
| `EnvFile.NoEqualsSignNoBinding` | docs/user_stories/cron-aws-optimization/send_aws_report.js:14-15 | a line without `=` changes nothing |
| `EnvFile.LineByEqualsSigns` | docs/user_stories/cron-aws-optimization/send_aws_report.js:14-16 | the key part before the first `=` and the value part up to the second bind trimmed key to trimmed value iff both raw parts are non-empty; text after a second `=` is dropped |
| `EnvFile.WhitespaceValueStoredEmpty` | docs/user_stories/cron-aws-optimization/send_aws_report.js:15-16 | a value part of whitespace only passes the check and is stored as the empty string |
| `EnvFile.BlankKeyBindsEmptyName` | docs/user_stories/cron-aws-optimization/send_aws_report.js:15-16 | a key part of whitespace only is non-empty when checked, before trimming, so the line binds the empty name to the trimmed value |
| `EnvFile.LastLineWins` | docs/user_stories/cron-aws-optimization/send_aws_report.js:13-18 | each key ends with the value of the last line that binds it; keys no line binds keep their value |
| `CostReportMail.SendCostReportEmail` | docs/user_stories/cron-aws-optimization/send_aws_report.js:27-79 | an unreadable HTML file gives no request and false; otherwise one request decoding to the report message, and true iff the send completed |
| `CostReportMail.ReportRawMessage` | docs/user_stories/cron-aws-optimization/send_aws_report.js:48-55 | the raw report is its four header lines joined by line feeds, an empty line, then the HTML whole |
| `CostReportMail.UnsetSenderShowsUndefined` | docs/user_stories/cron-aws-optimization/send_aws_report.js:49 | with FROM_EMAIL not in the environment, the report's From line reads "From: undefined" |
| `CostReportMail.ReportLayout` | docs/user_stories/cron-aws-optimization/send_aws_report.js:48-55 | a reader finds From, To = the recipient, Subject, the HTML content type, and the HTML content whole |
| `CostReportMail.ExitCode` | docs/user_stories/cron-aws-optimization/send_aws_report.js:83-99 | exit 1 unless exactly three arguments; otherwise 0 iff the send reported success |
| `CostReportMail.SuccessMeansReportSent` | docs/user_stories/cron-aws-optimization/send_aws_report.js:90-94 | exit 0 means one accepted request carrying the report read from the third argument |
| `Costs.AllGroups` | docs/user_stories/cron-aws-optimization/process_costs.py:49-50 | each period's groups are all included, each as often as it occurs in that period |
| `Costs.AllGroupsAppend` | docs/user_stories/cron-aws-optimization/process_costs.py:49-50 | the groups of a concatenation of periods are the groups of the first part followed by those of the second, order and repeats kept |
| `Costs.AllGroupsOne` | docs/user_stories/cron-aws-optimization/process_costs.py:50 | one period contributes exactly its own groups, in order |
| `Costs.Collect` | docs/user_stories/cron-aws-optimization/process_costs.py:49-58 | succeeds iff every group has a key; the kept services are exactly the groups with cost > 0, all with positive cost |
| `Costs.CollectAppend` | docs/user_stories/cron-aws-optimization/process_costs.py:49-58 | the loop keeps groups one by one: the services kept from a concatenation are those of the first part followed by those of the second, repeats and order included, and it fails iff a part fails |
| `Costs.CollectOne` | docs/user_stories/cron-aws-optimization/process_costs.py:51-58 | a single group is an error without keys, its service when the amount is positive, and nothing otherwise |
| `Costs.RunningTotal` | docs/user_stories/cron-aws-optimization/process_costs.py:54-59 | the running total never falls below its starting value, since only positive amounts are added |
| `Costs.RunningTotalIsSum` | docs/user_stories/cron-aws-optimization/process_costs.py:47-59 | the running `total_cost` of the loop equals the sum of the services it appends |
| `Costs.ProcessedTotal` | docs/user_stories/cron-aws-optimization/process_costs.py:44-63 | the returned total is the loop's running total over every period's groups |
| `Costs.Insert` | docs/user_stories/cron-aws-optimization/process_costs.py:62 | insertion adds exactly the one service and its cost to the sum |
| `Costs.InsertSorted` | docs/user_stories/cron-aws-optimization/process_costs.py:62 | insertion keeps a non-increasing order |
| `Costs.InsertWithCost` | docs/user_stories/cron-aws-optimization/process_costs.py:62 | the inserted service comes before every service of equal cost, other cost classes unchanged |
| `Costs.SortByCostDesc` | docs/user_stories/cron-aws-optimization/process_costs.py:62 | sorted non-increasing, a permutation, services of equal cost in input order (stable), same sum |
| `Costs.ProcessCostData` | docs/user_stories/cron-aws-optimization/process_costs.py:44-63 | error iff a group has no key; otherwise sorted, a permutation of the kept services keeping equal-cost order, total the sum of the kept costs |
| `Costs.CategoriesDisjoint` | docs/user_stories/cron-aws-optimization/process_costs.py:13-42 | no service name is in two categories |
| `Costs.InCategory` | docs/user_stories/cron-aws-optimization/process_costs.py:109-110 | a table lists exactly the services whose name is in its category, and no more rows than there are services |
| `Costs.InCategoryAppend` | docs/user_stories/cron-aws-optimization/process_costs.py:108-157 | a table's rows follow the service list: the rows for a concatenation are those of the first part followed by those of the second, repeats included |
| `Costs.InCategoryOne` | docs/user_stories/cron-aws-optimization/process_costs.py:109-110 | one service is a row exactly when its name is in the category |
| `Costs.GenerateReport` | docs/user_stories/cron-aws-optimization/process_costs.py:65-157 | savings is the sum of the "cut now" rows, annual savings twelve times it; the high-impact and essential tables are the services of their categories in service order, and the low-impact table is one row with its recommendation per low-impact service, in order |
| `Costs.AtMostOneTable` | docs/user_stories/cron-aws-optimization/process_costs.py:108-157 | a service appears in at most one table; one in no category appears in none |
| `Costs.SavingsWithinTotal` | docs/user_stories/cron-aws-optimization/process_costs.py:70-73 | the savings are the costs of the kept high-impact services, between 0 and the total |
| `Costs.CategorySumSorted` | docs/user_stories/cron-aws-optimization/process_costs.py:62 | sorting does not change a category's cost sum |
| `Costs.Recommendation` | docs/user_stories/cron-aws-optimization/process_costs.py:150 | "Consider reviewing" iff cost > 5, "Monitor" iff cost ≤ 5 |
| `Costs.LowImpactRows` | docs/user_stories/cron-aws-optimization/process_costs.py:148-150 | one row per low-impact service, in order, with the recommendation for its cost |
| `Costs.MainExitCode` | docs/user_stories/cron-aws-optimization/process_costs.py:169-196 | the exit code is always 0 or 1; exit 1 without exactly two arguments; 0 iff loading, processing and writing all succeed |
| `Typewriter.Step` | components/typewriter-headline.tsx:30-48 | a step exists whenever the word index is in range; deleting at 0 advances the index cyclically and resumes typing, and the index changes only then; typing adds one character, deleting removes one; at full length only isDeleting turns on; a missing word stops |
| `Typewriter.Prefix` | components/typewriter-headline.tsx:34 | the substring is a prefix of the word, of the requested length when that fits |
| `Typewriter.InitialInv` | components/typewriter-headline.tsx:22-25 | the initial state (0, 0, typing, "") satisfies the invariant when there are words |
| `Typewriter.NoTextsNoStep` | components/typewriter-headline.tsx:31 | with no words the first firing fails |
| `Typewriter.StepPreservesInv` | components/typewriter-headline.tsx:30-48 | from the invariant (index in range, charIndex within the word, shown text the first charIndex characters) a step succeeds and keeps it |
| `Typewriter.RunPreservesInv` | components/typewriter-headline.tsx:22-48 | every state reached by any number of firings satisfies the invariant |
| `Typewriter.WordCycle` | components/typewriter-headline.tsx:32-46 | after 2·length + 2 firings from an empty word, the next word (cyclically) starts from empty |

## Left out

- Page markup, styling, scrolling and the form reset (`app/page.tsx`, `app/layout.tsx`) are UI only.
- Email format: zod's email pattern is the oracle `isEmail`. Form entries that are files, not strings, are not modelled. The text of the null message is zod's default for a null where a string is expected, and its wording depends on the zod version in use; the model uses the wording "Expected string, received null".
- OAuth2 client set-up, token exchange and HTTPS are folded into the `gmail` oracle, which decides whether the send of a request completes. Logging is left out.
- File and process I/O is replaced by oracles: `readFileSync`, `open`/`write`, `json.load`, `process.argv`/`sys.argv` plumbing, `require.main === module`. The `.catch` of the script's promise is unreachable because `sendCostReportEmail` catches everything, so it is not modelled.
- Costs are exact reals. Float parsing, float rounding of the total, `:.2f` formatting, `datetime.now()` timestamps, the month name and the HTML/CSS text are left out. So are the KeyErrors of a malformed JSON shape, including a group with no `Keys` field. The one error modelled is a group whose `Keys` list is empty: the IndexError of `group['Keys'][0]`.
- Typewriter timers are left out: `setTimeout`/`clearTimeout`, the speeds, the pause and effect scheduling. So are a change of the `texts` prop while running and the `baseText` rendering. A pause timeout that outlives a re-render is not modelled either.
- Typewriter.Step: indexes a word by characters where JavaScript indexes UTF-16 code units. The two agree on words without characters outside the Basic Multilingual Plane, as all the site's headline words are.
- ContactEmail.RawMessageLayout: stated only for single-line header values (FROM_EMAIL, the name and the email). With a line feed in one of them the header block changes shape, which `ContactEmail.LineFeedInNameAddsHeader` shows for the name. The company appears only in the body and may hold line feeds.
- CostReportMail.ReportLayout: stated only when the sender address, the recipient and the subject are single lines. A line feed in any of them adds header lines, as for the contact email.
- `process.env` string coercion and platform rules on environment variable names are not modelled.
