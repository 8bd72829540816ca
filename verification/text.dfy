/**
 The JavaScript string operations the model relies on, over Dafny strings
 (sequences of Unicode scalar values): `split` with a one-character
 separator, `join`, `trim`, the UTF-16 `length`, and the UTF-8 encoding that
 `Buffer.from(string)` performs.
 */
module Text {
  import opened Wrappers

  type Byte = b: int | 0 <= b < 256

  // ---------------------------------------------------------------------------
  // split / join
  // ---------------------------------------------------------------------------

  /** `s.split(sep)`: the maximal pieces between occurrences of `sep`, at least one. */
  function Split(s: string, sep: char): (pieces: seq<string>)
    ensures |pieces| >= 1
    decreases |s|
  {
    if |s| == 0 then [""]
    else if s[0] == sep then [""] + Split(s[1..], sep)
    else
      var rest := Split(s[1..], sep);
      [[s[0]] + rest[0]] + rest[1..]
  }

  /** A split drops exactly the separators: the pieces and one separator between neighbours make up the text's length. */
  lemma {:induction false} SplitLength(s: string, sep: char)
    ensures TotalLength(Split(s, sep)) + |Split(s, sep)| - 1 == |s|
    decreases |s|
  {
    if |s| > 0 {
      SplitLength(s[1..], sep);
      var rest := Split(s[1..], sep);
      if s[0] == sep {
        assert Split(s, sep) == [""] + rest;
        assert ([""] + rest)[1..] == rest;
      } else {
        var r := [[s[0]] + rest[0]] + rest[1..];
        assert Split(s, sep) == r;
        assert r[1..] == rest[1..];
      }
    }
  }

  /** No piece holds the separator, and the text splits into more than one piece exactly when it holds one. */
  lemma {:induction false} SplitPieces(s: string, sep: char)
    ensures forall i :: 0 <= i < |Split(s, sep)| ==> sep !in Split(s, sep)[i]
    ensures |Split(s, sep)| == 1 <==> sep !in s
    decreases |s|
  {
    if |s| > 0 {
      SplitPieces(s[1..], sep);
      var rest := Split(s[1..], sep);
      var pieces := Split(s, sep);
      assert s == [s[0]] + s[1..];
      if s[0] == sep {
        assert pieces == [""] + rest;
        assert s[0] in s;
        forall i | 0 <= i < |pieces| ensures sep !in pieces[i] {
          if i > 0 { assert pieces[i] == rest[i - 1]; }
        }
      } else {
        assert pieces == [[s[0]] + rest[0]] + rest[1..];
        forall i | 0 <= i < |pieces| ensures sep !in pieces[i] {
          if i > 0 { assert pieces[i] == rest[i]; }
        }
        assert sep in s <==> sep in s[1..];
      }
    }
  }

  /** The number of characters in all the pieces together. */
  function TotalLength(pieces: seq<string>): nat
  {
    if |pieces| == 0 then 0 else |pieces[0]| + TotalLength(pieces[1..])
  }

  /** `pieces.join(sep)`: the pieces with one separator between neighbours. */
  function Join(pieces: seq<string>, sep: char): (s: string)
  {
    if |pieces| == 0 then ""
    else if |pieces| == 1 then pieces[0]
    else pieces[0] + [sep] + Join(pieces[1..], sep)
  }

  /** A join is the pieces' characters plus one separator between each pair of neighbours. */
  lemma {:induction false} JoinLength(pieces: seq<string>, sep: char)
    requires |pieces| >= 1
    ensures |Join(pieces, sep)| == TotalLength(pieces) + |pieces| - 1
    decreases |pieces|
  {
    if |pieces| > 1 {
      JoinLength(pieces[1..], sep);
    }
  }

  /** Joining the pieces of a split gives the original text back. */
  lemma {:induction false} JoinSplit(s: string, sep: char)
    ensures Join(Split(s, sep), sep) == s
    decreases |s|
  {
    if |s| > 0 {
      var c := s[0];
      var t := s[1..];
      var r := Split(t, sep);
      assert s == [c] + t;
      JoinSplit(t, sep);
      SplitCons(c, t, sep);
      if c == sep {
        JoinCons("", r, sep);
      } else if |r| == 1 {
        assert Split(s, sep) == [[c] + r[0]];
      } else {
        var j := Join(r[1..], sep);
        JoinCons([c] + r[0], r[1..], sep);
        assert r == [r[0]] + r[1..];
        JoinCons(r[0], r[1..], sep);
        SeqAssoc([c], r[0], [sep] + j);
        SeqAssoc([c] + r[0], [sep], j);
        SeqAssoc(r[0], [sep], j);
      }
    }
  }

  /** A split of `a + [sep] + b` with no separator in `a` begins with `a`. */
  lemma {:induction false} SplitAfterFirst(a: string, sep: char, b: string)
    requires sep !in a
    ensures Split(a + [sep] + b, sep) == [a] + Split(b, sep)
    decreases |a|
  {
    if |a| == 0 {
      assert a + [sep] + b == [sep] + b;
      assert ([sep] + b)[1..] == b;
    } else {
      SplitAfterFirst(a[1..], sep, b);
      assert (a + [sep] + b)[1..] == a[1..] + [sep] + b;
      assert [a[0]] + a[1..] == a;
    }
  }

  /** One step of `Split`: a leading character either closes an empty piece or opens the first piece. */
  lemma SplitCons(c: char, s: string, sep: char)
    ensures c == sep ==> Split([c] + s, sep) == [""] + Split(s, sep)
    ensures c != sep ==> Split([c] + s, sep) == [[c] + Split(s, sep)[0]] + Split(s, sep)[1..]
  {
    assert ([c] + s)[1..] == s;
  }

  /** Splitting at one separator occurrence splits the two sides independently. */
  lemma {:induction false} SplitConcat(a: string, sep: char, b: string)
    ensures Split(a + [sep] + b, sep) == Split(a, sep) + Split(b, sep)
    decreases |a|
  {
    if |a| == 0 {
      assert a + [sep] + b == [sep] + b;
      SplitCons(sep, b, sep);
    } else {
      var c := a[0];
      var a' := a[1..];
      assert a == [c] + a';
      assert a + [sep] + b == [c] + (a' + [sep] + b);
      SplitConcat(a', sep, b);
      SplitCons(c, a' + [sep] + b, sep);
      SplitCons(c, a', sep);
      if c != sep {
        ConsFirstPiece(c, Split(a', sep), Split(b, sep));
      }
    }
  }

  /** The list step of `SplitConcat`: extending the first piece commutes with appending pieces. */
  lemma ConsFirstPiece(c: char, r: seq<string>, u: seq<string>)
    requires |r| >= 1
    ensures [[c] + (r + u)[0]] + (r + u)[1..] == [[c] + r[0]] + r[1..] + u
  {
    assert (r + u)[0] == r[0];
    assert (r + u)[1..] == r[1..] + u;
  }

  /** Splitting the join of separator-free pieces gives the pieces back. */
  lemma {:induction false} SplitJoin(pieces: seq<string>, sep: char)
    requires |pieces| >= 1
    requires forall i :: 0 <= i < |pieces| ==> sep !in pieces[i]
    ensures Split(Join(pieces, sep), sep) == pieces
    decreases |pieces|
  {
    if |pieces| == 1 {
      SplitNoSeparator(pieces[0], sep);
    } else {
      SplitJoin(pieces[1..], sep);
      SplitAfterFirst(pieces[0], sep, Join(pieces[1..], sep));
      assert pieces == [pieces[0]] + pieces[1..];
    }
  }

  /** A text without the separator splits into itself alone. */
  lemma {:induction false} SplitNoSeparator(s: string, sep: char)
    requires sep !in s
    ensures Split(s, sep) == [s]
    decreases |s|
  {
    if |s| > 0 {
      SplitNoSeparator(s[1..], sep);
      assert [s[0]] + s[1..] == s;
    }
  }

  /** `Join` distributes over a cut of a list with at least one piece on each side. */
  lemma {:induction false} JoinAppend(xs: seq<string>, ys: seq<string>, sep: char)
    requires |xs| >= 1 && |ys| >= 1
    ensures Join(xs + ys, sep) == Join(xs, sep) + [sep] + Join(ys, sep)
    decreases |xs|
  {
    if |xs| == 1 {
      assert (xs + ys)[1..] == ys;
    } else {
      JoinAppend(xs[1..], ys, sep);
      assert (xs + ys)[1..] == xs[1..] + ys;
    }
  }

  /** A piece that holds a separator joins the same as its two halves side by side. */
  lemma JoinPieceWithSeparator(p: seq<string>, x: string, y: string, q: seq<string>, sep: char)
    requires |p| >= 1 && |q| >= 1
    ensures Join(p + [x + [sep] + y] + q, sep) == Join(p + [x, y] + q, sep)
  {
    var l := [x + [sep] + y] + q;
    var r := [x, y] + q;
    SeqAssoc(p, [x + [sep] + y], q);
    SeqAssoc(p, [x, y], q);
    JoinAppend(p, l, sep);
    JoinAppend(p, r, sep);
    JoinHeadWithSeparator(x, y, q, sep);
  }

  lemma SeqAssoc<T>(a: seq<T>, b: seq<T>, c: seq<T>)
    ensures a + b + c == a + (b + c)
  {
  }

  lemma JoinHeadWithSeparator(x: string, y: string, q: seq<string>, sep: char)
    requires |q| >= 1
    ensures Join([x + [sep] + y] + q, sep) == Join([x, y] + q, sep)
  {
    var jq := Join(q, sep);
    JoinCons(x + [sep] + y, q, sep);
    JoinTwoHeads(x, y, q, sep);
    ConcatAssoc(x + [sep], y, [sep] + jq);
  }

  lemma JoinTwoHeads(x: string, y: string, q: seq<string>, sep: char)
    requires |q| >= 1
    ensures Join([x, y] + q, sep) == x + [sep] + (y + [sep] + Join(q, sep))
  {
    JoinCons(y, q, sep);
    JoinCons(x, [y] + q, sep);
    assert [x, y] + q == [x] + ([y] + q);
  }

  lemma ConcatAssoc(a: string, b: string, c: string)
    ensures a + b + c == a + (b + c)
  {
  }

  /** One step of `Join` on a list of at least two pieces. */
  lemma JoinCons(p: string, ps: seq<string>, sep: char)
    requires |ps| >= 1
    ensures Join([p] + ps, sep) == p + [sep] + Join(ps, sep)
  {
    assert ([p] + ps)[1..] == ps;
  }

  // ---------------------------------------------------------------------------
  // trim
  // ---------------------------------------------------------------------------

  /** The characters `String.prototype.trim` removes: WhiteSpace and LineTerminator of ECMA-262. */
  predicate IsJsWhitespace(c: char)
  {
    || c == '\t' || c == '\n' || c == '\U{000B}' || c == '\U{000C}' || c == '\r' || c == ' '
    || c == '\U{00A0}' || c == '\U{1680}' || ('\U{2000}' <= c <= '\U{200A}')
    || c == '\U{2028}' || c == '\U{2029}' || c == '\U{202F}' || c == '\U{205F}'
    || c == '\U{3000}' || c == '\U{FEFF}'
  }

  /** How many whitespace characters open the text. */
  function LeadingBlanks(s: string): (n: nat)
    ensures n <= |s|
    ensures forall k :: 0 <= k < n ==> IsJsWhitespace(s[k])
    ensures n == |s| || !IsJsWhitespace(s[n])
  {
    if |s| > 0 && IsJsWhitespace(s[0]) then
      var n := 1 + LeadingBlanks(s[1..]);
      assert forall k :: 1 <= k < n ==> s[k] == s[1..][k - 1];
      n
    else 0
  }

  /** Where the window ends once the whitespace before `j` and at or after `lo` is dropped. */
  function TrimEndIndex(s: string, lo: nat, j: nat): (r: nat)
    requires lo <= j <= |s|
    ensures lo <= r <= j
    ensures forall k :: r <= k < j ==> IsJsWhitespace(s[k])
    ensures r == lo || !IsJsWhitespace(s[r - 1])
    decreases j
  {
    if j > lo && IsJsWhitespace(s[j - 1]) then TrimEndIndex(s, lo, j - 1) else j
  }

  /** `t` is the window of `s` starting at `i`, with only whitespace before and after it. */
  ghost predicate TrimmedAt(s: string, t: string, i: int)
  {
    && 0 <= i <= |s| - |t| && t == s[i..i + |t|]
    && (forall k :: 0 <= k < i ==> IsJsWhitespace(s[k]))
    && (forall k :: i + |t| <= k < |s| ==> IsJsWhitespace(s[k]))
  }

  /** `s.trim()`: a window of `s` with whitespace only outside it and no whitespace at its ends. */
  function Trim(s: string): (t: string)
    ensures exists i :: TrimmedAt(s, t, i)
    ensures t == [] || (!IsJsWhitespace(t[0]) && !IsJsWhitespace(t[|t| - 1]))
  {
    var i := LeadingBlanks(s);
    var j := TrimEndIndex(s, i, |s|);
    assert TrimmedAt(s, s[i..j], i);
    s[i..j]
  }

  /** A text made of whitespace alone trims to the empty text, and only such a text does. */
  lemma TrimEmptyIffAllWhitespace(s: string)
    ensures Trim(s) == [] <==> forall k :: 0 <= k < |s| ==> IsJsWhitespace(s[k])
  {
    var i := LeadingBlanks(s);
    var j := TrimEndIndex(s, i, |s|);
    assert Trim(s) == s[i..j];
  }

  /** A text without whitespace at its ends is its own trim. */
  lemma TrimUnchanged(s: string)
    requires s == [] || (!IsJsWhitespace(s[0]) && !IsJsWhitespace(s[|s| - 1]))
    ensures Trim(s) == s
  {
    if s != [] {
      assert LeadingBlanks(s) == 0;
      assert TrimEndIndex(s, 0, |s|) == |s|;
      assert s[0..|s|] == s;
    }
  }

  /** Trimming only removes characters, so a character absent from the text is absent from its trim. */
  lemma TrimKeepsOut(s: string, c: char)
    requires c !in s
    ensures c !in Trim(s)
  {
    var t := Trim(s);
    var i :| TrimmedAt(s, t, i);
    forall k | 0 <= k < |t| ensures t[k] != c {
      assert t[k] == s[i + k];
    }
  }

  /** Trimming twice is trimming once. */
  lemma TrimIdempotent(s: string)
    ensures Trim(Trim(s)) == Trim(s)
  {
    TrimUnchanged(Trim(s));
  }

  // ---------------------------------------------------------------------------
  // UTF-16 length
  // ---------------------------------------------------------------------------

  /** A scalar value outside the Basic Multilingual Plane takes a surrogate pair in UTF-16. */
  predicate IsAstral(c: char)
  {
    c as int >= 0x1_0000
  }

  /** JavaScript's `s.length`: the number of UTF-16 code units of `s`. */
  function Utf16Length(s: string): (n: nat)
    ensures |s| <= n <= 2 * |s|
  {
    if |s| == 0 then 0
    else (if IsAstral(s[0]) then 2 else 1) + Utf16Length(s[1..])
  }

  /** The JavaScript length is the number of characters exactly when none lies outside the Basic Multilingual Plane. */
  lemma {:induction false} Utf16LengthBmp(s: string)
    ensures Utf16Length(s) == |s| <==> forall k :: 0 <= k < |s| ==> !IsAstral(s[k])
    decreases |s|
  {
    if |s| > 0 {
      Utf16LengthBmp(s[1..]);
      if !IsAstral(s[0]) {
        assert forall k :: 1 <= k < |s| ==> s[k] == s[1..][k - 1];
      }
    }
  }

  // ---------------------------------------------------------------------------
  // UTF-8 (section 3 of RFC 3629)
  // ---------------------------------------------------------------------------

  /** The UTF-8 bytes of one scalar value. */
  function Utf8Char(c: char): (b: seq<Byte>)
    ensures 1 <= |b| <= 4
    ensures |b| == 1 <==> c as int < 0x80
    ensures |b| == 1 ==> b[0] == c as int
    ensures forall k :: 1 <= k < |b| ==> 0x80 <= b[k] < 0xC0
  {
    var v := c as int;
    if v < 0x80 then [v]
    else if v < 0x800 then [0xC0 + v / 64, 0x80 + v % 64]
    else if v < 0x1_0000 then [0xE0 + v / 4096, 0x80 + (v / 64) % 64, 0x80 + v % 64]
    else [0xF0 + v / 262144, 0x80 + (v / 4096) % 64, 0x80 + (v / 64) % 64, 0x80 + v % 64]
  }

  /** `Buffer.from(s)`: the UTF-8 encoding of the whole text. */
  function Utf8Encode(s: string): (b: seq<Byte>)
    ensures |s| <= |b| <= 4 * |s|
  {
    if |s| == 0 then [] else Utf8Char(s[0]) + Utf8Encode(s[1..])
  }

  /** The scalar value whose encoding starts `b`, with the number of bytes it takes. */
  function Utf8DecodeChar(b: seq<Byte>): Option<(char, nat)>
  {
    if |b| == 0 then None
    else if b[0] < 0x80 then Some((b[0] as char, 1))
    else if 0xC0 <= b[0] < 0xE0 && |b| >= 2 then
      var v := (b[0] as int - 0xC0) * 64 + (b[1] as int - 0x80);
      if 0x80 <= v < 0x800 then Some((v as char, 2)) else None
    else if 0xE0 <= b[0] < 0xF0 && |b| >= 3 then
      var v := (b[0] as int - 0xE0) * 4096 + (b[1] as int - 0x80) * 64 + (b[2] as int - 0x80);
      if 0x800 <= v < 0xD800 || 0xE000 <= v < 0x1_0000 then Some((v as char, 3)) else None
    else if 0xF0 <= b[0] < 0xF8 && |b| >= 4 then
      var v := (b[0] as int - 0xF0) * 262144 + (b[1] as int - 0x80) * 4096 + (b[2] as int - 0x80) * 64 + (b[3] as int - 0x80);
      if 0x1_0000 <= v < 0x11_0000 then Some((v as char, 4)) else None
    else None
  }

  /** Decodes a whole byte sequence; `None` when it does not start a scalar value somewhere. */
  function Utf8Decode(b: seq<Byte>): Option<string>
    decreases |b|
  {
    if |b| == 0 then Some([])
    else match Utf8DecodeChar(b)
      case None => None
      case Some((c, n)) =>
        if n == 0 || n > |b| then None
        else match Utf8Decode(b[n..])
          case None => None
          case Some(rest) => Some([c] + rest)
  }

  /** Each scalar value's encoding decodes back to it, whatever bytes follow. */
  lemma Utf8CharRoundTrip(c: char, tail: seq<Byte>)
    ensures Utf8DecodeChar(Utf8Char(c) + tail) == Some((c, |Utf8Char(c)|))
  {
    var v := c as int;
    if v < 0x80 {
    } else if v < 0x800 {
      Utf8RoundTrip2(c, tail);
    } else if v < 0x1_0000 {
      Utf8RoundTrip3(c, tail);
    } else {
      Utf8RoundTrip4(c, tail);
    }
  }

  lemma Utf8RoundTrip2(c: char, tail: seq<Byte>)
    requires 0x80 <= c as int < 0x800
    ensures Utf8DecodeChar(Utf8Char(c) + tail) == Some((c, 2))
  {
    var v := c as int;
    var b := Utf8Char(c) + tail;
    assert b[0] == 0xC0 + v / 64 && b[1] == 0x80 + v % 64;
    Utf8Value2(v);
  }

  lemma Utf8RoundTrip3(c: char, tail: seq<Byte>)
    requires 0x800 <= c as int < 0x1_0000
    ensures Utf8DecodeChar(Utf8Char(c) + tail) == Some((c, 3))
  {
    var v := c as int;
    var b := Utf8Char(c) + tail;
    assert b[0] == 0xE0 + v / 4096 && b[1] == 0x80 + (v / 64) % 64 && b[2] == 0x80 + v % 64;
    Utf8Value3(v);
  }

  lemma Utf8RoundTrip4(c: char, tail: seq<Byte>)
    requires 0x1_0000 <= c as int
    ensures Utf8DecodeChar(Utf8Char(c) + tail) == Some((c, 4))
  {
    var v := c as int;
    var b := Utf8Char(c) + tail;
    assert b[0] == 0xF0 + v / 262144 && b[1] == 0x80 + (v / 4096) % 64;
    assert b[2] == 0x80 + (v / 64) % 64 && b[3] == 0x80 + v % 64;
    Utf8Value4(v);
  }

  lemma Utf8Value2(v: int)
    requires 0x80 <= v < 0x800
    ensures (v / 64) * 64 + v % 64 == v
  {
  }

  lemma Utf8Value3(v: int)
    requires 0x800 <= v < 0x1_0000
    ensures (v / 4096) * 4096 + ((v / 64) % 64) * 64 + v % 64 == v
  {
    assert (v / 64) == (v / 4096) * 64 + (v / 64) % 64;
  }

  lemma Utf8Value4(v: int)
    requires 0x1_0000 <= v < 0x11_0000
    ensures (v / 262144) * 262144 + ((v / 4096) % 64) * 4096 + ((v / 64) % 64) * 64 + v % 64 == v
  {
    assert (v / 4096) == (v / 262144) * 64 + (v / 4096) % 64;
    assert (v / 64) == (v / 4096) * 64 + (v / 64) % 64;
  }

  /** `Buffer.from` loses nothing: decoding its bytes gives the text back. */
  lemma {:induction false} Utf8RoundTrip(s: string)
    ensures Utf8Decode(Utf8Encode(s)) == Some(s)
    decreases |s|
  {
    if |s| > 0 {
      var head := Utf8Char(s[0]);
      var b := Utf8Encode(s);
      Utf8CharRoundTrip(s[0], Utf8Encode(s[1..]));
      assert b[|head|..] == Utf8Encode(s[1..]);
      Utf8RoundTrip(s[1..]);
      assert [s[0]] + s[1..] == s;
    }
  }

  /** An ASCII text is encoded as its own code points, one byte each. */
  lemma {:induction false} Utf8Ascii(s: string)
    requires forall k :: 0 <= k < |s| ==> s[k] as int < 0x80
    ensures |Utf8Encode(s)| == |s|
    ensures forall k :: 0 <= k < |s| ==> Utf8Encode(s)[k] == s[k] as int
    decreases |s|
  {
    if |s| > 0 {
      Utf8Ascii(s[1..]);
    }
  }
}
