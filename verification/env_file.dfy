/**
 `loadEnvFile` of the cost-report mailer: each line of `.env.local` that
 splits on `=` into a non-empty key part and a non-empty value part sets the
 trimmed key to the trimmed value, lines applied in file order. The file's
 text is an input (`None` when it cannot be read); the environment is a map.
 */
module EnvFile {
  import opened Wrappers
  import opened Text

  type Env = map<string, string>

  /** `const [key, value] = line.split('=')`, kept when `key && value`: both pieces present and non-empty. */
  function LineBinding(line: string): (r: Option<(string, string)>)
    ensures r.Some? ==> '=' in line
    ensures r.Some? ==> '=' !in r.value.0 && '=' !in r.value.1
    ensures r.Some? ==> r.value.0 == Trim(r.value.0) && r.value.1 == Trim(r.value.1)
  {
    var parts := Split(line, '=');
    if |parts| < 2 || parts[0] == "" || parts[1] == "" then None
    else
      SplitPieces(line, '=');
      TrimKeepsOut(parts[0], '=');
      TrimKeepsOut(parts[1], '=');
      TrimIdempotent(parts[0]);
      TrimIdempotent(parts[1]);
      Some((Trim(parts[0]), Trim(parts[1])))
  }

  /** `process.env[key.trim()] = value.trim()` for a qualifying line; otherwise nothing. */
  function ApplyLine(env: Env, line: string): (r: Env)
    ensures LineBinding(line).None? ==> r == env
    ensures LineBinding(line).Some? ==> r == env[LineBinding(line).value.0 := LineBinding(line).value.1]
  {
    match LineBinding(line)
    case None => env
    case Some((k, v)) => env[k := v]
  }

  /** `envFile.split('\n').forEach(..)` over lines already split. */
  function ApplyLines(env: Env, lines: seq<string>): (r: Env)
    ensures env.Keys <= r.Keys
    decreases |lines|
  {
    if |lines| == 0 then env else ApplyLines(ApplyLine(env, lines[0]), lines[1..])
  }

  /** `loadEnvFile`: `None` is the file that could not be read, which leaves the environment as it was. */
  function LoadEnvFile(env: Env, file: Option<string>): (r: Env)
    ensures file.None? ==> r == env
  {
    match file
    case None => env
    case Some(text) => ApplyLines(env, Split(text, '\n'))
  }

  /** A line without `=` sets nothing. */
  lemma NoEqualsSignNoBinding(env: Env, line: string)
    requires '=' !in line
    ensures LineBinding(line).None? && ApplyLine(env, line) == env
  {
    SplitPieces(line, '=');
  }

  /**
   A line read through its first two `=`: key part `k` before the first, value
   part `v` up to the second (or the end). It binds the trimmed `k` to the
   trimmed `v` exactly when both parts are non-empty; what follows a second
   `=` is dropped.
   */
  lemma LineByEqualsSigns(k: string, v: string, rest: string)
    requires '=' !in k && '=' !in v
    requires rest == "" || rest[0] == '='
    ensures LineBinding(k + "=" + v + rest) == if k == "" || v == "" then None else Some((Trim(k), Trim(v)))
  {
    var line := k + "=" + v + rest;
    assert line == k + ['='] + (v + rest);
    SplitAfterFirst(k, '=', v + rest);
    if rest == "" {
      assert v + rest == v;
      SplitNoSeparator(v, '=');
    } else {
      assert v + rest == v + ['='] + rest[1..];
      SplitAfterFirst(v, '=', rest[1..]);
    }
  }

  /** A value part of whitespace alone passes the check and is stored as the empty string. */
  lemma WhitespaceValueStoredEmpty(k: string, v: string)
    requires '=' !in k && '=' !in v && k != "" && v != ""
    requires forall i :: 0 <= i < |v| ==> IsJsWhitespace(v[i])
    ensures LineBinding(k + "=" + v) == Some((Trim(k), ""))
  {
    LineByEqualsSigns(k, v, "");
    assert k + "=" + v + "" == k + "=" + v;
    TrimEmptyIffAllWhitespace(v);
  }

  /** The value of `key` set by the last line that binds it, if any. */
  function LastBinding(lines: seq<string>, key: string): Option<string>
    decreases |lines|
  {
    if |lines| == 0 then None
    else match LineBinding(lines[|lines| - 1])
      case Some((k, v)) =>
        if k == key then Some(v) else LastBinding(lines[..|lines| - 1], key)
      case None => LastBinding(lines[..|lines| - 1], key)
  }

  lemma {:induction false} ApplyLinesSnoc(env: Env, lines: seq<string>, line: string)
    ensures ApplyLines(env, lines + [line]) == ApplyLine(ApplyLines(env, lines), line)
    decreases |lines|
  {
    if |lines| == 0 {
      assert lines + [line] == [line];
    } else {
      assert (lines + [line])[1..] == lines[1..] + [line];
      ApplyLinesSnoc(ApplyLine(env, lines[0]), lines[1..], line);
    }
  }

  /** Each key ends with the value of the last line that binds it; a key no line binds keeps its value. */
  lemma {:induction false} LastLineWins(env: Env, lines: seq<string>, key: string)
    ensures var r := ApplyLines(env, lines);
            match LastBinding(lines, key)
            case Some(v) => key in r && r[key] == v
            case None => (key in r <==> key in env) && (key in env ==> r[key] == env[key])
    decreases |lines|
  {
    if |lines| > 0 {
      var init := lines[..|lines| - 1];
      var last := lines[|lines| - 1];
      assert lines == init + [last];
      ApplyLinesSnoc(env, init, last);
      LastLineWins(env, init, key);
    }
  }

  /** A key part of blanks is non-empty before trimming, so a line such as `" =x"` binds the empty name. */
  lemma BlankKeyBindsEmptyName(k: string, v: string)
    requires k != "" && forall i :: 0 <= i < |k| ==> IsJsWhitespace(k[i])
    requires '=' !in v && v != ""
    ensures LineBinding(k + "=" + v) == Some(("", Trim(v)))
  {
    assert '=' !in k by {
      forall i | 0 <= i < |k| ensures k[i] != '=' { assert IsJsWhitespace(k[i]); }
    }
    LineByEqualsSigns(k, v, "");
    assert k + "=" + v + "" == k + "=" + v;
    TrimEmptyIffAllWhitespace(k);
  }
}
