/**
 Base 64 encoding of RFC 4648, as the two mail senders use it: the standard
 encoding with `=` padding of section 4 of RFC 4648 (what
 `Buffer.toString('base64')` produces), rewritten character by character into
 the URL- and filename-safe alphabet of section 5 of RFC 4648, with the
 trailing padding removed as section 3.2 of RFC 4648 permits. `EncodeUrlNoPad`
 is the same encoding defined directly from section 5 of RFC 4648;
 `GmailRawIsUrlNoPad` proves the rewrite pipeline equal to it, and
 `DecodeEncode` proves it loses nothing.
 */
module Base64 {
  import opened Wrappers
  import opened Text

  type Sextet = v: int | 0 <= v < 64

  /** Table 1 of RFC 4648: the standard alphabet. */
  function StdChar(v: Sextet): char
  {
    if v < 26 then ('A' as int + v) as char
    else if v < 52 then ('a' as int + (v - 26)) as char
    else if v < 62 then ('0' as int + (v - 52)) as char
    else if v == 62 then '+'
    else '/'
  }

  /** Table 2 of RFC 4648: the URL- and filename-safe alphabet. */
  function UrlChar(v: Sextet): char
  {
    if v < 26 then ('A' as int + v) as char
    else if v < 52 then ('a' as int + (v - 26)) as char
    else if v < 62 then ('0' as int + (v - 52)) as char
    else if v == 62 then '-'
    else '_'
  }

  /** The characters of Table 2. */
  predicate IsUrlSafe(c: char)
  {
    ('A' <= c <= 'Z') || ('a' <= c <= 'z') || ('0' <= c <= '9') || c == '-' || c == '_'
  }

  /** The value Table 2 gives a character, if it is in the table. */
  function UrlValue(c: char): (v: Option<Sextet>)
    ensures v.Some? <==> IsUrlSafe(c)
    ensures v.Some? ==> UrlChar(v.value) == c
  {
    if 'A' <= c <= 'Z' then Some(c as int - 'A' as int)
    else if 'a' <= c <= 'z' then Some(c as int - 'a' as int + 26)
    else if '0' <= c <= '9' then Some(c as int - '0' as int + 52)
    else if c == '-' then Some(62)
    else if c == '_' then Some(63)
    else None
  }

  lemma UrlCharValue(v: Sextet)
    ensures IsUrlSafe(UrlChar(v)) && UrlValue(UrlChar(v)) == Some(v)
  {
  }

  // The bit layout of section 4 of RFC 4648: 24 input bits as four 6-bit groups.

  function Hi6(b0: Byte): Sextet { b0 / 4 }
  function Mid6(b0: Byte, b1: Byte): Sextet { (b0 % 4) * 16 + b1 / 16 }
  function Lo6(b1: Byte, b2: Byte): Sextet { (b1 % 16) * 4 + b2 / 64 }
  function Last6(b2: Byte): Sextet { b2 % 64 }

  /**
   Section 4 of RFC 4648 with padding: what `Buffer.from(..).toString('base64')`
   returns: every started group of three bytes gives four characters.
   */
  function EncodeStd(b: seq<Byte>): (s: string)
    ensures |s| == 4 * ((|b| + 2) / 3)
    decreases |b|
  {
    if |b| == 0 then ""
    else if |b| == 1 then [StdChar(Hi6(b[0])), StdChar(Mid6(b[0], 0)), '=', '=']
    else if |b| == 2 then [StdChar(Hi6(b[0])), StdChar(Mid6(b[0], b[1])), StdChar(Lo6(b[1], 0)), '=']
    else
      [StdChar(Hi6(b[0])), StdChar(Mid6(b[0], b[1])), StdChar(Lo6(b[1], b[2])), StdChar(Last6(b[2]))]
      + EncodeStd(b[3..])
  }

  /** One character of `.replace(/\+/g, '-').replace(/\//g, '_')`. */
  function RewriteChar(c: char): char
  {
    if c == '+' then '-' else if c == '/' then '_' else c
  }

  /** `.replace(/\+/g, '-').replace(/\//g, '_')`. */
  function UrlSafeRewrite(s: string): (r: string)
    ensures |r| == |s|
    ensures forall k :: 0 <= k < |s| ==> r[k] == RewriteChar(s[k])
  {
    if |s| == 0 then "" else [RewriteChar(s[0])] + UrlSafeRewrite(s[1..])
  }

  /** The rewrite works character by character, so it distributes over concatenation. */
  lemma RewriteConcat(x: string, y: string)
    ensures UrlSafeRewrite(x + y) == UrlSafeRewrite(x) + UrlSafeRewrite(y)
  {
    var l := UrlSafeRewrite(x + y);
    var r := UrlSafeRewrite(x) + UrlSafeRewrite(y);
    forall k | 0 <= k < |l| ensures l[k] == r[k] {
      if k >= |x| {
        assert (x + y)[k] == y[k - |x|];
      }
    }
  }

  /** Tables 1 and 2 differ only at 62 and 63. */
  lemma StdToUrl(v: Sextet)
    ensures RewriteChar(StdChar(v)) == UrlChar(v)
  {
  }

  /** `.replace(/=+$/, '')`: drops the run of `=` at the end of the text. */
  function StripTrailingPad(s: string): (r: string)
    ensures |r| <= |s| && r == s[..|r|]
    ensures forall k :: |r| <= k < |s| ==> s[k] == '='
    ensures r == [] || r[|r| - 1] != '='
  {
    if |s| > 0 && s[|s| - 1] == '=' then StripTrailingPad(s[..|s| - 1]) else s
  }

  /**
   The request text both senders hand to the Gmail API: only characters of
   Table 2 of RFC 4648 remain, and it does not end in padding.
   */
  function GmailRaw(b: seq<Byte>): (r: string)
    ensures forall k :: 0 <= k < |r| ==> r[k] != '+' && r[k] != '/'
    ensures r == [] || r[|r| - 1] != '='
  {
    assert forall k :: 0 <= k < |UrlSafeRewrite(EncodeStd(b))| ==>
      UrlSafeRewrite(EncodeStd(b))[k] != '+' && UrlSafeRewrite(EncodeStd(b))[k] != '/';
    StripTrailingPad(UrlSafeRewrite(EncodeStd(b)))
  }

  /** Sections 5 and 3.2 of RFC 4648: the URL-safe encoding without padding. */
  function EncodeUrlNoPad(b: seq<Byte>): (s: string)
    ensures forall k :: 0 <= k < |s| ==> IsUrlSafe(s[k])
    decreases |b|
  {
    if |b| == 0 then ""
    else if |b| == 1 then [UrlChar(Hi6(b[0])), UrlChar(Mid6(b[0], 0))]
    else if |b| == 2 then [UrlChar(Hi6(b[0])), UrlChar(Mid6(b[0], b[1])), UrlChar(Lo6(b[1], 0))]
    else
      [UrlChar(Hi6(b[0])), UrlChar(Mid6(b[0], b[1])), UrlChar(Lo6(b[1], b[2])), UrlChar(Last6(b[2]))]
      + EncodeUrlNoPad(b[3..])
  }

  /** Every full group of three bytes becomes four characters; a final one or two bytes become two or three. */
  lemma {:induction false} EncodeUrlNoPadLength(b: seq<Byte>)
    ensures |EncodeUrlNoPad(b)| == 4 * (|b| / 3) + (if |b| % 3 == 0 then 0 else |b| % 3 + 1)
    decreases |b|
  {
    if |b| >= 3 {
      EncodeUrlNoPadLength(b[3..]);
    }
  }

  /** The request text never holds `+`, `/` or `=`. */
  lemma NoStdOnlyCharacters(b: seq<Byte>)
    ensures forall k :: 0 <= k < |GmailRaw(b)| ==> GmailRaw(b)[k] !in {'+', '/', '='}
  {
    GmailRawIsUrlNoPad(b);
  }

  /** The character part of the standard encoding, before the padding. */
  function StdBody(b: seq<Byte>): (s: string)
    ensures forall k :: 0 <= k < |s| ==> s[k] != '='
    ensures s == [] <==> b == []
    decreases |b|
  {
    if |b| == 0 then ""
    else if |b| == 1 then [StdChar(Hi6(b[0])), StdChar(Mid6(b[0], 0))]
    else if |b| == 2 then [StdChar(Hi6(b[0])), StdChar(Mid6(b[0], b[1])), StdChar(Lo6(b[1], 0))]
    else
      [StdChar(Hi6(b[0])), StdChar(Mid6(b[0], b[1])), StdChar(Lo6(b[1], b[2])), StdChar(Last6(b[2]))]
      + StdBody(b[3..])
  }

  function Padding(b: seq<Byte>): string
  {
    if |b| % 3 == 1 then "==" else if |b| % 3 == 2 then "=" else ""
  }

  /** The padding depends only on the length modulo 3. */
  lemma PaddingShift(n: nat)
    requires n >= 3
    ensures n % 3 == (n - 3) % 3
  {
  }

  /** One full group of the standard encoding, with and without padding. */
  lemma StdGroup(b: seq<Byte>)
    requires |b| >= 3
    ensures var g := [StdChar(Hi6(b[0])), StdChar(Mid6(b[0], b[1])), StdChar(Lo6(b[1], b[2])), StdChar(Last6(b[2]))];
            EncodeStd(b) == g + EncodeStd(b[3..]) && StdBody(b) == g + StdBody(b[3..])
  {
  }

  lemma {:induction false} EncodeStdSplits(b: seq<Byte>)
    ensures EncodeStd(b) == StdBody(b) + Padding(b)
    decreases |b|
  {
    if |b| >= 3 {
      var g := [StdChar(Hi6(b[0])), StdChar(Mid6(b[0], b[1])), StdChar(Lo6(b[1], b[2])), StdChar(Last6(b[2]))];
      var r := b[3..];
      StdGroup(b);
      EncodeStdSplits(r);
      PaddingShift(|b|);
      assert g + (StdBody(r) + Padding(r)) == (g + StdBody(r)) + Padding(r);
    }
  }

  lemma {:induction false} RewriteBody(b: seq<Byte>)
    ensures UrlSafeRewrite(StdBody(b)) == EncodeUrlNoPad(b)
    decreases |b|
  {
    if |b| == 1 {
      StdToUrl(Hi6(b[0]));
      StdToUrl(Mid6(b[0], 0));
    } else if |b| == 2 {
      StdToUrl(Hi6(b[0]));
      StdToUrl(Mid6(b[0], b[1]));
      StdToUrl(Lo6(b[1], 0));
    } else if |b| >= 3 {
      var group := [StdChar(Hi6(b[0])), StdChar(Mid6(b[0], b[1])), StdChar(Lo6(b[1], b[2])), StdChar(Last6(b[2]))];
      StdToUrl(Hi6(b[0]));
      StdToUrl(Mid6(b[0], b[1]));
      StdToUrl(Lo6(b[1], b[2]));
      StdToUrl(Last6(b[2]));
      StdGroup(b);
      EncodeGroup(b);
      RewriteConcat(group, StdBody(b[3..]));
      RewriteBody(b[3..]);
    }
  }

  /** The standard encoding pads only its last group: `=` appears in at most the last two places. */
  lemma PaddingAtEnd(b: seq<Byte>)
    ensures forall k :: 0 <= k < |EncodeStd(b)| && EncodeStd(b)[k] == '=' ==> k >= |EncodeStd(b)| - 2
  {
    EncodeStdSplits(b);
    var body := StdBody(b);
    forall k | 0 <= k < |body| ensures EncodeStd(b)[k] != '=' {
      assert EncodeStd(b)[k] == body[k];
    }
  }

  lemma RewritePadding(x: string, pad: string)
    requires forall k :: 0 <= k < |pad| ==> pad[k] == '='
    ensures UrlSafeRewrite(x + pad) == UrlSafeRewrite(x) + pad
  {
    var l := UrlSafeRewrite(x + pad);
    var r := UrlSafeRewrite(x) + pad;
    assert |l| == |r|;
    forall k | 0 <= k < |l| ensures l[k] == r[k] {
      if k >= |x| {
        assert (x + pad)[k] == pad[k - |x|];
      }
    }
  }

  lemma {:induction false} StripPadding(x: string, pad: string)
    requires x == [] || x[|x| - 1] != '='
    requires forall k :: 0 <= k < |pad| ==> pad[k] == '='
    ensures StripTrailingPad(x + pad) == x
    decreases |pad|
  {
    if |pad| > 0 {
      assert (x + pad)[..|x + pad| - 1] == x + pad[..|pad| - 1];
      StripPadding(x, pad[..|pad| - 1]);
    } else {
      assert x + pad == x;
    }
  }

  /** The source's rewrite pipeline is exactly the unpadded URL-safe encoding of RFC 4648. */
  lemma GmailRawIsUrlNoPad(b: seq<Byte>)
    ensures GmailRaw(b) == EncodeUrlNoPad(b)
  {
    EncodeStdSplits(b);
    RewritePadding(StdBody(b), Padding(b));
    RewriteBody(b);
    var u := EncodeUrlNoPad(b);
    assert u == [] || u[|u| - 1] != '=';
    StripPadding(u, Padding(b));
  }

  // ---------------------------------------------------------------------------
  // Decoding, the partner of EncodeUrlNoPad
  // ---------------------------------------------------------------------------

  /** Decodes unpadded URL-safe base 64; `None` for a character outside Table 2 or a length of 1 modulo 4. */
  function DecodeUrlNoPad(s: string): Option<seq<Byte>>
    decreases |s|
  {
    if |s| == 0 then Some([])
    else if |s| == 1 then None
    else
      var c0 := UrlValue(s[0]);
      var c1 := UrlValue(s[1]);
      if c0.None? || c1.None? then None
      else
        var b0: Byte := c0.value * 4 + c1.value / 16;
        if |s| == 2 then Some([b0])
        else
          var c2 := UrlValue(s[2]);
          if c2.None? then None
          else
            var b1: Byte := (c1.value % 16) * 16 + c2.value / 4;
            if |s| == 3 then Some([b0, b1])
            else
              var c3 := UrlValue(s[3]);
              if c3.None? then None
              else
                var b2: Byte := (c2.value % 4) * 64 + c3.value;
                match DecodeUrlNoPad(s[4..])
                case None => None
                case Some(rest) => Some([b0, b1, b2] + rest)
  }

  lemma Regroup(b0: Byte, b1: Byte, b2: Byte)
    ensures Hi6(b0) * 4 + Mid6(b0, b1) / 16 == b0
    ensures (Mid6(b0, b1) % 16) * 16 + Lo6(b1, b2) / 4 == b1
    ensures (Lo6(b1, b2) % 4) * 64 + Last6(b2) == b2
  {
  }

  /** One full group of four characters decodes to its three bytes, ahead of what the rest decodes to. */
  lemma DecodeGroup(b0: Byte, b1: Byte, b2: Byte, t: string)
    ensures var g := [UrlChar(Hi6(b0)), UrlChar(Mid6(b0, b1)), UrlChar(Lo6(b1, b2)), UrlChar(Last6(b2))];
            DecodeUrlNoPad(g + t) == match DecodeUrlNoPad(t)
                                     case None => None
                                     case Some(r) => Some([b0, b1, b2] + r)
  {
    var g := [UrlChar(Hi6(b0)), UrlChar(Mid6(b0, b1)), UrlChar(Lo6(b1, b2)), UrlChar(Last6(b2))];
    UrlCharValue(Hi6(b0));
    UrlCharValue(Mid6(b0, b1));
    UrlCharValue(Lo6(b1, b2));
    UrlCharValue(Last6(b2));
    Regroup(b0, b1, b2);
    assert (g + t)[4..] == t;
  }

  /** A final single byte: two characters. */
  lemma DecodeOne(b0: Byte)
    ensures DecodeUrlNoPad([UrlChar(Hi6(b0)), UrlChar(Mid6(b0, 0))]) == Some([b0])
  {
    UrlCharValue(Hi6(b0));
    UrlCharValue(Mid6(b0, 0));
    Regroup(b0, 0, 0);
  }

  /** A final pair of bytes: three characters. */
  lemma DecodeTwo(b0: Byte, b1: Byte)
    ensures DecodeUrlNoPad([UrlChar(Hi6(b0)), UrlChar(Mid6(b0, b1)), UrlChar(Lo6(b1, 0))]) == Some([b0, b1])
  {
    UrlCharValue(Hi6(b0));
    UrlCharValue(Mid6(b0, b1));
    UrlCharValue(Lo6(b1, 0));
    Regroup(b0, b1, 0);
  }

  lemma EncodeGroup(b: seq<Byte>)
    requires |b| >= 3
    ensures EncodeUrlNoPad(b)
            == [UrlChar(Hi6(b[0])), UrlChar(Mid6(b[0], b[1])), UrlChar(Lo6(b[1], b[2])), UrlChar(Last6(b[2]))]
               + EncodeUrlNoPad(b[3..])
  {
  }

  /** Decoding the encoding of any byte sequence gives the bytes back. */
  lemma {:induction false} DecodeEncode(b: seq<Byte>)
    ensures DecodeUrlNoPad(EncodeUrlNoPad(b)) == Some(b)
    decreases |b|
  {
    if |b| == 1 {
      DecodeOne(b[0]);
      assert b == [b[0]];
    } else if |b| == 2 {
      DecodeTwo(b[0], b[1]);
      assert b == [b[0], b[1]];
    } else if |b| >= 3 {
      var r := b[3..];
      var t := EncodeUrlNoPad(r);
      var g := [UrlChar(Hi6(b[0])), UrlChar(Mid6(b[0], b[1])), UrlChar(Lo6(b[1], b[2])), UrlChar(Last6(b[2]))];
      EncodeGroup(b);
      DecodeEncode(r);
      DecodeGroup(b[0], b[1], b[2], t);
      assert [b[0], b[1], b[2]] + b[3..] == b;
    }
  }
}
