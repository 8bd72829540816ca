/**
 What the two Gmail senders share: a message is its header lines, an empty
 line and the body, joined with a single line feed (the layout of section 2.1
 of RFC 5322, with LF where the RFC has CRLF); the request handed to the
 Gmail API is that text as UTF-8, in unpadded base 64 url. `ParseMessage` and
 `DecodeRequest` are the readers of those two layers; the round-trip lemmas
 show a reader gets back exactly what was composed.
 */
module Mail {
  import opened Wrappers
  import opened Text
  import opened Base64

  /** `Name: value`. */
  function HeaderLine(name: string, value: string): string
  {
    name + ": " + value
  }

  /** A header line built from single-line parts is a single, non-empty line. */
  lemma SingleLineHeader(name: string, value: string)
    requires '\n' !in name && '\n' !in value
    ensures HeaderLine(name, value) != "" && '\n' !in HeaderLine(name, value)
  {
    var h := HeaderLine(name, value);
    assert h[|name|] == ':';
    forall k | 0 <= k < |h| ensures h[k] != '\n' {
      if k < |name| { assert h[k] == name[k]; }
      else if k >= |name| + 2 { assert h[k] == value[k - |name| - 2]; }
    }
  }

  /** A `${process.env.X}` interpolation: an unset variable prints as `undefined`. */
  function EnvText(v: Option<string>): string
  {
    match v
    case Some(s) => s
    case None => "undefined"
  }

  /** `[...headers, '', body].join('\n')`: the header block, an empty line, then the body. */
  function Compose(headers: seq<string>, body: string): (raw: string)
    ensures |headers| >= 1 ==> raw == Join(headers, '\n') + "\n\n" + body
    ensures |headers| == 0 ==> raw == "\n" + body
  {
    JoinCons("", [body], '\n');
    if |headers| >= 1 then
      JoinAppend(headers, ["", body], '\n');
      Join(headers + ["", body], '\n')
    else
      assert headers + ["", body] == [""] + [body];
      Join(headers + ["", body], '\n')
  }

  /** Index of the first empty line, or `|lines|` when there is none. */
  function FirstEmpty(lines: seq<string>): (i: nat)
    ensures i <= |lines|
    ensures i < |lines| ==> lines[i] == ""
    ensures forall k :: 0 <= k < i ==> lines[k] != ""
  {
    if |lines| == 0 then 0
    else if lines[0] == "" then 0
    else 1 + FirstEmpty(lines[1..])
  }

  /** Reads a message back: the lines before the first empty line, and the text after it. */
  function ParseMessage(raw: string): Option<(seq<string>, string)>
  {
    var lines := Split(raw, '\n');
    var i := FirstEmpty(lines);
    if i == |lines| then None else Some((lines[..i], Join(lines[i + 1..], '\n')))
  }

  /** Header lines that are single, non-empty lines. */
  predicate WellFormedHeaders(headers: seq<string>)
  {
    forall i :: 0 <= i < |headers| ==> headers[i] != "" && '\n' !in headers[i]
  }

  lemma {:induction false} SplitJoinThen(pieces: seq<string>, sep: char, rest: string)
    requires |pieces| >= 1
    requires forall i :: 0 <= i < |pieces| ==> sep !in pieces[i]
    ensures Split(Join(pieces, sep) + [sep] + rest, sep) == pieces + Split(rest, sep)
    decreases |pieces|
  {
    var head := pieces[0];
    assert sep !in head;
    if |pieces| == 1 {
      SplitAfterFirst(head, sep, rest);
    } else {
      var more := pieces[1..];
      var tail := Join(more, sep);
      var after := tail + [sep] + rest;
      assert Join(pieces, sep) == head + [sep] + tail;
      assert Join(pieces, sep) + [sep] + rest == head + [sep] + after;
      SplitAfterFirst(head, sep, after);
      forall i | 0 <= i < |more|
        ensures sep !in more[i]
      {
        assert more[i] == pieces[i + 1];
      }
      SplitJoinThen(more, sep, rest);
      assert pieces == [head] + more;
    }
  }

  /** The lines of a composed message: the headers, one empty line, then the lines of the body. */
  lemma ComposeLines(headers: seq<string>, body: string)
    requires WellFormedHeaders(headers)
    ensures Split(Compose(headers, body), '\n') == headers + [""] + Split(body, '\n')
  {
    var front := headers + [""];
    assert headers + ["", body] == front + [body];
    JoinAppend(front, [body], '\n');
    SplitJoinThen(front, '\n', body);
  }

  /** Reading a composed message gives back its headers and its body, whatever the body holds. */
  lemma ParseCompose(headers: seq<string>, body: string)
    requires WellFormedHeaders(headers)
    ensures ParseMessage(Compose(headers, body)) == Some((headers, body))
  {
    var lines := Split(Compose(headers, body), '\n');
    ComposeLines(headers, body);
    assert lines[|headers|] == "";
    FirstEmptyAt(lines, |headers|);
    assert lines[..|headers|] == headers;
    assert lines[|headers| + 1..] == Split(body, '\n');
    JoinSplit(body, '\n');
  }

  lemma FirstEmptyAt(lines: seq<string>, i: nat)
    requires i < |lines| && lines[i] == ""
    requires forall k :: 0 <= k < i ==> lines[k] != ""
    ensures FirstEmpty(lines) == i
  {
  }

  /** The text of the Gmail request for a raw message. */
  function Encode(raw: string): (request: string)
    ensures forall k :: 0 <= k < |request| ==> IsUrlSafe(request[k])
  {
    GmailRawIsUrlNoPad(Utf8Encode(raw));
    GmailRaw(Utf8Encode(raw))
  }

  /** What Gmail reads out of a request: base 64 url, then UTF-8. */
  function DecodeRequest(request: string): Option<string>
  {
    match DecodeUrlNoPad(request)
    case None => None
    case Some(bytes) => Utf8Decode(bytes)
  }

  /** The request carries the raw message exactly. */
  lemma DecodeEncode(raw: string)
    ensures DecodeRequest(Encode(raw)) == Some(raw)
  {
    GmailRawIsUrlNoPad(Utf8Encode(raw));
    Base64.DecodeEncode(Utf8Encode(raw));
    Utf8RoundTrip(raw);
  }

  /** One call to the Gmail API: the request text, if one was built, and whether the call completed. */
  datatype Attempt = Attempt(request: Option<string>, delivered: bool)
}
