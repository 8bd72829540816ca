/**
 `send_aws_report.js`: the HTML cost report mail and the script's exit code.
 The file reader and the Gmail API are oracles: `readFile` returns `None`
 when `readFileSync` throws, `gmail` says whether the send completed.
 */
module CostReportMail {
  import opened Wrappers
  import opened Text
  import opened Mail
  import EnvFile

  const HtmlContentType: string := HeaderLine("Content-Type", "text/html; charset=UTF-8")

  /** From the `FROM_EMAIL` setting, to `toEmail`, the given subject, an HTML content type. */
  function ReportHeaders(fromEmail: Option<string>, toEmail: string, subject: string): seq<string>
  {
    [HeaderLine("From", EnvText(fromEmail)), HeaderLine("To", toEmail), HeaderLine("Subject", subject), HtmlContentType]
  }

  /** The raw report message: its four header lines, an empty line, then the HTML whole. */
  /** Without `FROM_EMAIL` in the environment the report is sent from "undefined". */
  lemma UnsetSenderShowsUndefined(env: EnvFile.Env, toEmail: string, subject: string)
    requires "FROM_EMAIL" !in env
    ensures ReportHeaders(FromEmail(env), toEmail, subject)[0] == "From: undefined"
  {
  }

  function ReportRawMessage(fromEmail: Option<string>, toEmail: string, subject: string, html: string): (raw: string)
    ensures raw == Join(ReportHeaders(fromEmail, toEmail, subject), '\n') + "\n\n" + html
  {
    Compose(ReportHeaders(fromEmail, toEmail, subject), html)
  }

  /** `sendCostReportEmail`: no request when the HTML file cannot be read; otherwise one Gmail call. */
  function SendCostReportEmail(env: EnvFile.Env, toEmail: string, subject: string, htmlFile: string,
                               readFile: string -> Option<string>, gmail: string -> bool): (a: Attempt)
    ensures readFile(htmlFile).None? ==> a == Attempt(None, false)
    ensures readFile(htmlFile).Some? ==>
              && a.request.Some?
              && DecodeRequest(a.request.value)
                 == Some(ReportRawMessage(FromEmail(env), toEmail, subject, readFile(htmlFile).value))
              && (a.delivered <==> gmail(a.request.value))
  {
    match readFile(htmlFile)
    case None => Attempt(None, false)
    case Some(html) =>
      var raw := ReportRawMessage(FromEmail(env), toEmail, subject, html);
      Mail.DecodeEncode(raw);
      var request := Encode(raw);
      Attempt(Some(request), gmail(request))
  }

  function FromEmail(env: EnvFile.Env): Option<string>
  {
    if "FROM_EMAIL" in env then Some(env["FROM_EMAIL"]) else None
  }

  /** A reader of the raw report finds the four header lines in order and the HTML content whole. */
  lemma ReportLayout(fromEmail: Option<string>, toEmail: string, subject: string, html: string)
    requires '\n' !in EnvText(fromEmail) && '\n' !in toEmail && '\n' !in subject
    ensures ParseMessage(ReportRawMessage(fromEmail, toEmail, subject, html))
            == Some((ReportHeaders(fromEmail, toEmail, subject), html))
  {
    var h := ReportHeaders(fromEmail, toEmail, subject);
    SingleLineHeader("From", EnvText(fromEmail));
    SingleLineHeader("To", toEmail);
    SingleLineHeader("Subject", subject);
    SingleLineHeader("Content-Type", "text/html; charset=UTF-8");
    assert WellFormedHeaders(h);
    ParseCompose(h, html);
  }

  /**
   The script's exit code for the arguments after `node send_aws_report.js`:
   1 unless there are exactly three, otherwise 0 exactly when the send
   reported success. The environment is the process environment after
   `loadEnvFile` has applied `.env.local`.
   */
  function ExitCode(args: seq<string>, processEnv: EnvFile.Env, dotEnv: Option<string>,
                    readFile: string -> Option<string>, gmail: string -> bool): (code: int)
    ensures |args| != 3 ==> code == 1
    ensures |args| == 3 ==>
              (code == 0 <==> SendCostReportEmail(EnvFile.LoadEnvFile(processEnv, dotEnv), args[0], args[1], args[2],
                                                  readFile, gmail).delivered)
    ensures code == 0 || code == 1
  {
    var env := EnvFile.LoadEnvFile(processEnv, dotEnv);
    if |args| != 3 then 1
    else if SendCostReportEmail(env, args[0], args[1], args[2], readFile, gmail).delivered then 0
    else 1
  }

  /** A successful run sent one request, and it carries the report read from the third argument. */
  lemma SuccessMeansReportSent(args: seq<string>, processEnv: EnvFile.Env, dotEnv: Option<string>,
                               readFile: string -> Option<string>, gmail: string -> bool)
    requires ExitCode(args, processEnv, dotEnv, readFile, gmail) == 0
    ensures |args| == 3 && readFile(args[2]).Some?
    ensures var env := EnvFile.LoadEnvFile(processEnv, dotEnv);
            var a := SendCostReportEmail(env, args[0], args[1], args[2], readFile, gmail);
            && a.request.Some? && gmail(a.request.value)
            && DecodeRequest(a.request.value) == Some(ReportRawMessage(FromEmail(env), args[0], args[1], readFile(args[2]).value))
  {
  }
}
