/** The two regular expressions the `.strings` reader applies to every line,
    written out as scanners over the line.

    A line read with `gets` holds a newline only at its very end, so the
    `^` of the key/value pattern can only match at the start of the line;
    the pattern's alternatives are chosen by the first character and each
    repetition stops at a character it cannot take, so the match is the one
    the scanners below find. */
module StringsGrammar {
  import opened RubyString
  import opened AppleText

  /** `\s` in Ruby's regular expressions. */
  predicate IsSpace(c: char) {
    c == ' ' || c == '\t' || c == '\r' || c == '\n' || c == '\U{000C}' || c == '\U{000B}'
  }

  /** The length of the run of `\s` at the start of `s`. */
  function SpaceRun(s: string): (n: nat)
    ensures n <= |s|
    ensures forall k :: 0 <= k < n ==> IsSpace(s[k])
    ensures n < |s| ==> !IsSpace(s[n])
  {
    if s != [] && IsSpace(s[0]) then 1 + SpaceRun(s[1..]) else 0
  }

  /** A character of an unquoted key: `[^"\s=]`. */
  predicate IsBareKeyChar(c: char) {
    c != '"' && !IsSpace(c) && c != '='
  }

  /** The length of the run of `[^"\s=]` at the start of `s`. */
  function BareKeyRun(s: string): (n: nat)
    ensures n <= |s|
    ensures forall k :: 0 <= k < n ==> IsBareKeyChar(s[k])
    ensures n < |s| ==> !IsBareKeyChar(s[n])
  {
    if s != [] && IsBareKeyChar(s[0]) then 1 + BareKeyRun(s[1..]) else 0
  }

  /** The length of the run of `(?:[^"\\]|\\.)` at the start of `s`: any
      character but a quote or a backslash, or a backslash followed by any
      character but a newline. The run stops at a quote or at a backslash
      that starts no pair. */
  function EscapedRun(s: string): (n: nat)
    ensures n <= |s|
    ensures n < |s| && s[n] != '"' ==> s[n] == '\\' && (n + 1 == |s| || s[n + 1] == '\n')
  {
    if s == [] || s[0] == '"' then 0
    else if s[0] == '\\' then
      if |s| >= 2 && s[1] != '\n' then 2 + EscapedRun(s[2..]) else 0
    else 1 + EscapedRun(s[1..])
  }

  /** `s` is made entirely of escaped-run tokens. */
  predicate IsEscapedText(s: string) {
    EscapedRun(s) == |s|
  }

  /** The length of the key at the start of `s`: a quoted key `"..."` with a
      non-empty escaped run inside, or a run of unquoted-key characters;
      0 when neither is there. */
  function KeyTokenLength(s: string): (n: nat)
    ensures n <= |s|
  {
    if s != [] && s[0] == '"' then
      var b := EscapedRun(s[1..]);
      if b > 0 && 1 + b < |s| && s[1 + b] == '"' then b + 2 else 0
    else BareKeyRun(s)
  }

  /** The two captures of the key/value pattern: the key as it stands on the
      line (quotes included) and the value between its quotes. */
  datatype RawPair = RawPair(key: string, value: string)

  /** A raw key as the key/value pattern captures it. */
  predicate IsKeyToken(k: string) {
    if k != [] && k[0] == '"' then |k| >= 3 && k[|k| - 1] == '"' && IsEscapedText(k[1..|k| - 1])
    else k != [] && forall i :: 0 <= i < |k| ==> IsBareKeyChar(k[i])
  }

  /** `s` is a (possibly empty) run of `\s`. */
  predicate AllSpace(s: string) {
    forall k :: 0 <= k < |s| ==> IsSpace(s[k])
  }

  /** The text `\s*=\s*"(...)"` spans, with `b` and `c` the two runs of
      spaces and `v` the capture, followed by the rest of the line. */
  function ValueSpan(b: string, c: string, v: string, rest: string): string {
    b + ("=" + (c + ("\"" + (v + ("\"" + rest)))))
  }

  /** A whole key/value line: leading spaces `a`, the key as written, then
      the value part. */
  function KeyValueSpan(a: string, key: string, b: string, c: string, v: string, rest: string): string {
    a + (key + ValueSpan(b, c, v, rest))
  }

  /** The part of the key/value pattern after the key, `\s*=\s*"(...)"`,
      applied to what follows the key: the captured value, which stands
      between the quotes after the `=`. */
  function MatchValuePart(afterKey: string): (r: Option<string>)
    ensures r.Some? ==> IsEscapedText(r.value)
    ensures r.Some? ==> exists b, c, rest :: AllSpace(b) && AllSpace(c) && afterKey == ValueSpan(b, c, r.value, rest)
  {
    var n := SpaceRun(afterKey);
    if n == |afterKey| || afterKey[n] != '=' then None
    else
      var afterEq := afterKey[n + 1..];
      var m := SpaceRun(afterEq);
      if m == |afterEq| || afterEq[m] != '"' then None
      else
        var body := afterEq[m + 1..];
        var v := EscapedRun(body);
        if v < |body| && body[v] == '"' then
          EscapedRunPrefix(body);
          SpaceRunAllSpace(afterKey);
          SpaceRunAllSpace(afterEq);
          ValueSpanOf(afterKey, n, m, v);
          Some(body[..v])
        else None
  }

  /** The key/value pattern of the reader applied to one line: the key
      follows the leading spaces and the value stands between the quotes
      after the `=`. */
  function MatchKeyValue(line: string): (r: Option<RawPair>)
    ensures r.Some? ==> IsKeyToken(r.value.key) && IsEscapedText(r.value.value)
    ensures r.Some? ==>
      exists a, b, c, rest ::
        AllSpace(a) && AllSpace(b) && AllSpace(c) && line == KeyValueSpan(a, r.value.key, b, c, r.value.value, rest)
  {
    var rest := line[SpaceRun(line)..];
    var k := KeyTokenLength(rest);
    if k == 0 then None
    else match MatchValuePart(rest[k..])
      case None => None
      case Some(v) =>
        KeyTokenShape(rest);
        KeyValueSpanOf(line, SpaceRun(line), k, v);
        Some(RawPair(rest[..k], v))
  }

  /** The pieces `MatchValuePart` cuts `s` into put it back together. */
  lemma ValueSpanOf(s: string, n: nat, m: nat, v: nat)
    requires n < |s| && s[n] == '=' && AllSpace(s[..n])
    requires var afterEq := s[n + 1..]; m < |afterEq| && afterEq[m] == '"' && AllSpace(afterEq[..m])
    requires var body := s[n + 1..][m + 1..]; v < |body| && body[v] == '"'
    ensures var w := s[n + 1..][m + 1..][..v];
      exists b, c, rest :: AllSpace(b) && AllSpace(c) && s == ValueSpan(b, c, w, rest)
  {
    var afterEq := s[n + 1..];
    var body := afterEq[m + 1..];
    CutAt(body, v);
    CutAt(afterEq, m);
    CutAt(s, n);
    assert s == ValueSpan(s[..n], afterEq[..m], body[..v], body[v + 1..]);
  }

  /** The run `SpaceRun` measures is all `\s`. */
  lemma SpaceRunAllSpace(s: string)
    ensures AllSpace(s[..SpaceRun(s)])
  {
  }

  /** A string is what comes before position `n`, the character there, and
      what comes after it. */
  lemma CutAt(s: string, n: nat)
    requires n < |s|
    ensures s == s[..n] + ([s[n]] + s[n + 1..])
  {
    assert s == s[..n] + s[n..];
  }

  /** A line the key/value pattern matches is the spaces before the key,
      the key, and the value part. */
  lemma KeyValueSpanOf(line: string, n: nat, k: nat, v: string)
    requires n <= |line| && AllSpace(line[..n])
    requires k <= |line[n..]| && MatchValuePart(line[n..][k..]) == Some(v)
    ensures exists a, b, c, rest ::
      AllSpace(a) && AllSpace(b) && AllSpace(c) && line == KeyValueSpan(a, line[n..][..k], b, c, v, rest)
  {
    var rest := line[n..];
    var b, c, tail :| AllSpace(b) && AllSpace(c) && rest[k..] == ValueSpan(b, c, v, tail);
    Rejoin(rest, k);
    Rejoin(line, n);
    assert line == KeyValueSpan(line[..n], rest[..k], b, c, v, tail);
  }

  /** A string is what comes before position `n` and what comes after. */
  lemma Rejoin(s: string, n: nat)
    requires n <= |s|
    ensures s == s[..n] + s[n..]
  {
  }

  /** `key[1..-2] if key[0] == '"' and key[-1] == '"'`. */
  function StripQuotes(key: string): string {
    if |key| >= 2 && key[0] == '"' && key[|key| - 1] == '"' then key[1..|key| - 1] else key
  }

  /** The key the reader records for a captured key. */
  function ReadKey(raw: string): string {
    UnescapeQuotes(StripQuotes(raw))
  }

  /** The value the reader records for a captured value. */
  function ReadValue(raw: string): string {
    RewritePlaceholders(UnescapeQuotes(raw))
  }

  /** A key and a value as the reader records them. */
  datatype KeyValue = KeyValue(key: string, value: string)

  /** What the reader takes from one line: the key and value when the line
      is a key/value line. */
  function ParseLine(line: string): Option<KeyValue> {
    match MatchKeyValue(line)
    case None => None
    case Some(p) => Some(KeyValue(ReadKey(p.key), ReadValue(p.value)))
  }

  /** The length of `s` up to its first newline. */
  function LineEnd(s: string): (n: nat)
    ensures n <= |s| && forall k :: 0 <= k < n ==> s[k] != '\n'
    ensures n < |s| ==> s[n] == '\n'
  {
    if s == [] || s[0] == '\n' then 0 else 1 + LineEnd(s[1..])
  }

  // ` */` starts at `q` in `s`.
  predicate CloserAt(s: string, q: int) {
    0 <= q && q + 3 <= |s| && s[q] == ' ' && s[q + 1] == '*' && s[q + 2] == '/'
  }

  // The rightmost ` */` starting at or below `q`.
  function LastCloserFrom(s: string, q: nat): (r: Option<nat>)
    ensures r.Some? ==> r.value <= q && CloserAt(s, r.value)
    ensures r.Some? ==> forall p :: r.value < p <= q ==> !CloserAt(s, p)
    ensures r.None? ==> forall p :: 0 <= p <= q ==> !CloserAt(s, p)
    decreases q
  {
    if CloserAt(s, q) then Some(q)
    else if q == 0 then None
    else LastCloserFrom(s, q - 1)
  }

  // The comment pattern `/\/\* (.*) \*\//` applied to one line: the leftmost
  // `/* ` that is followed, on the same line, by a ` */`, and the greedy
  // capture up to the last such ` */`. The capture holds no newline and
  // stands between `/* ` and ` */` in the line.
  function MatchComment(line: string): (r: Option<string>)
    ensures r.Some? ==> '\n' !in r.value
    decreases |line|
  {
    if |line| < 3 then None
    else
      var here := MatchCommentAt(line);
      if here.Some? then here else MatchComment(line[1..])
  }

  /** The comment pattern tried at the start of `line` only. */
  function MatchCommentAt(line: string): (r: Option<string>)
    ensures r.Some? ==> '\n' !in r.value
  {
    if |line| < 3 || line[..3] != "/* " then None
    else
      var s := line[3..];
      match LastCloserFrom(s, LineEnd(s))
      case None => None
      case Some(q) =>
        assert forall k :: 0 <= k < q ==> s[..q][k] == s[k];
        Some(s[..q])
  }

  // ---------------------------------------------------------------------
  // Lemmas

  /** What the comment pattern captures stands between `/* ` and ` */` in
      the line. */
  lemma {:induction false} MatchCommentFound(line: string)
    ensures MatchComment(line).Some? ==> Contains(line, "/* " + MatchComment(line).value + " */")
    decreases |line|
  {
    if |line| >= 3 {
      if MatchCommentAt(line).Some? {
        var s := line[3..];
        var q := LastCloserFrom(s, LineEnd(s)).value;
        assert line[..3 + q + 3] == "/* " + s[..q] + " */" by {
          assert s[q..q + 3] == " */";
        }
        assert OccursAt(line, "/* " + s[..q] + " */", 0);
      } else {
        MatchCommentFound(line[1..]);
        if MatchComment(line[1..]).Some? {
          ContainsInTail(line, "/* " + MatchComment(line[1..]).value + " */");
        }
      }
    }
  }

  /** Cutting a string after its escaped run leaves a string that is all run. */
  lemma {:induction false} EscapedRunPrefix(s: string)
    ensures IsEscapedText(s[..EscapedRun(s)])
    decreases |s|
  {
    var n := EscapedRun(s);
    if s == [] || s[0] == '"' {
    } else if s[0] == '\\' {
      if |s| >= 2 && s[1] != '\n' {
        EscapedRunPrefix(s[2..]);
        var t := s[..n];
        assert t[2..] == s[2..][..EscapedRun(s[2..])];
      }
    } else {
      EscapedRunPrefix(s[1..]);
      var t := s[..n];
      assert t[1..] == s[1..][..EscapedRun(s[1..])];
    }
  }

  lemma KeyTokenShape(s: string)
    ensures KeyTokenLength(s) > 0 ==> IsKeyToken(s[..KeyTokenLength(s)])
  {
    var n := KeyTokenLength(s);
    if n > 0 && s[0] == '"' {
      var b := EscapedRun(s[1..]);
      EscapedRunPrefix(s[1..]);
      assert s[..n][1..n - 1] == s[1..][..b];
    }
  }

  /** An escaped run followed by a quote ends at that quote. */
  lemma {:induction false} EscapedRunConcat(a: string, tail: string)
    requires IsEscapedText(a)
    requires tail != [] && tail[0] == '"'
    ensures EscapedRun(a + tail) == |a|
    decreases |a|
  {
    if a == [] {
      assert a + tail == tail;
    } else if a[0] == '\\' {
      assert (a + tail)[2..] == a[2..] + tail;
      EscapedRunConcat(a[2..], tail);
    } else {
      assert (a + tail)[1..] == a[1..] + tail;
      EscapedRunConcat(a[1..], tail);
    }
  }

  /** Text without a backslash, once escaped, is one escaped run. */
  lemma {:induction false} EscapedIsRun(k: string)
    requires '\\' !in k
    ensures IsEscapedText(EscapeQuotes(k))
    decreases |k|
  {
    if k != [] {
      var c, t := k[0], k[1..];
      assert k == [c] + t;
      EscapeQuotesCons(c, t);
      EscapedIsRun(t);
      var et := EscapeQuotes(t);
      if c == '"' {
        assert ("\\\"" + et)[2..] == et;
      } else {
        assert ([c] + et)[1..] == et;
      }
    }
  }

  /** Unescaping text that is one escaped run and escaping it again gives
      the text back: the reader and the writer agree on every quoted key
      and every value a line can hold. */
  lemma {:induction false} EscapeUnescapeRun(b: string)
    requires IsEscapedText(b)
    ensures EscapeQuotes(UnescapeQuotes(b)) == b
    decreases |b|
  {
    if b != [] {
      if b[0] == '\\' {
        var x, t := b[1], b[2..];
        assert EscapedRun(t) == |t|;
        EscapeUnescapeRun(t);
        var ut := UnescapeQuotes(t);
        if x == '"' {
          assert b[..2] == "\\\"";
          assert UnescapeQuotes(b) == "\"" + ut;
          EscapeQuotesCons('"', ut);
          assert b == "\\\"" + t;
        } else {
          assert b[..2] != "\\\"";
          assert UnescapeQuotes(b) == "\\" + UnescapeQuotes(b[1..]);
          assert b[1..] == [x] + t;
          assert UnescapeQuotes(b[1..]) == [x] + ut by {
            if |b[1..]| >= 2 {
              assert t[0] != '"';
              assert b[1..][..2] != "\\\"";
              assert b[1..][1..] == t;
            }
          }
          EscapeQuotesCons('\\', [x] + ut);
          EscapeQuotesCons(x, ut);
          assert "\\" + ([x] + ut) == ['\\'] + ([x] + ut);
          assert b == ['\\'] + ([x] + t);
        }
      } else {
        var c, t := b[0], b[1..];
        assert EscapedRun(t) == |t|;
        EscapeUnescapeRun(t);
        assert UnescapeQuotes(b) == [c] + UnescapeQuotes(t) by {
          if |b| >= 2 {
            assert b[..2] != "\\\"";
          }
        }
        EscapeQuotesCons(c, UnescapeQuotes(t));
        assert b == [c] + t;
      }
    }
  }

  /** Text without a quote is left alone by both escaping and unescaping. */
  lemma UnquotedUnchanged(k: string)
    requires '"' !in k
    ensures UnescapeQuotes(k) == k && EscapeQuotes(k) == k
  {
    forall i | 0 <= i <= |k| - 2 ensures !OccursAt(k, "\\\"", i) {
      assert k[i..i + 2][1] == k[i + 1];
    }
    forall i | 0 <= i <= |k| - 1 ensures !OccursAt(k, "\"", i) {
      assert k[i..i + 1][0] == k[i];
    }
    ReplaceAbsent(k, "\\\"", "\"");
    ReplaceAbsent(k, "\"", "\\\"");
  }

  /** Every key and value the reader captures is written back unchanged:
      escaping the recorded key gives the key as it stood between its quotes
      (or the unquoted key), and escaping the unescaped value gives the
      captured value. */
  lemma CapturesRoundTrip(line: string)
    requires MatchKeyValue(line).Some?
    ensures var p := MatchKeyValue(line).value;
      FormatKey(ReadKey(p.key)) == StripQuotes(p.key) &&
      EscapeQuotes(UnescapeQuotes(p.value)) == p.value
  {
    CapturedPairRoundTrip(MatchKeyValue(line).value);
  }

  /** `CapturesRoundTrip` for any pair of the shape the pattern captures. */
  lemma CapturedPairRoundTrip(p: RawPair)
    requires IsKeyToken(p.key) && IsEscapedText(p.value)
    ensures FormatKey(ReadKey(p.key)) == StripQuotes(p.key)
    ensures EscapeQuotes(UnescapeQuotes(p.value)) == p.value
  {
    EscapeUnescapeRun(p.value);
    if p.key[0] == '"' {
      EscapeUnescapeRun(p.key[1..|p.key| - 1]);
    } else {
      assert '"' !in p.key by {
        assert forall i :: 0 <= i < |p.key| ==> IsBareKeyChar(p.key[i]);
      }
      UnquotedUnchanged(p.key);
    }
  }

  /** `escape_quotes` leaves no `b>` behind where there was none. */
  lemma EscapeKeepsNoBold(v: string)
    requires !Contains(v, "b>")
    ensures !Contains(EscapeQuotes(v), "b>")
  {
    ContainsPairIff(v, 'b', '>');
    ReplaceCharKeepsNoPair(v, '"', "\\\"", 'b', '>');
    ContainsPairIff(EscapeQuotes(v), 'b', '>');
  }

  lemma {:induction false} SpaceRunAt(pre: string, rest: string)
    requires forall k :: 0 <= k < |pre| ==> IsSpace(pre[k])
    requires rest != [] && !IsSpace(rest[0])
    ensures SpaceRun(pre + rest) == |pre|
    decreases |pre|
  {
    if pre != [] {
      assert (pre + rest)[1..] == pre[1..] + rest;
      SpaceRunAt(pre[1..], rest);
    } else {
      assert pre + rest == rest;
    }
  }

  /** What the writer puts after the key is matched, and its value captured. */
  lemma ValuePartMatches(ev: string)
    requires IsEscapedText(ev)
    ensures MatchValuePart(" = \"" + ev + "\";\n") == Some(ev)
  {
    var tail := "\";\n";
    var afterKey := " = \"" + ev + tail;
    var eq := "= \"" + ev + tail;
    assert afterKey == " " + eq;
    SpaceRunAt(" ", eq);
    assert afterKey[1..] == eq;
    var open := "\"" + ev + tail;
    assert eq[1..] == " " + open;
    SpaceRunAt(" ", open);
    assert eq[1..][1..] == open;
    assert open[1..] == ev + tail;
    EscapedRunConcat(ev, tail);
    assert (ev + tail)[..|ev|] == ev;
  }

  /** Every line the writer builds from an escaped key and an escaped value
      is a key/value line to the reader, with the quoted key and the value
      as its captures. */
  lemma {:induction false} KeyValueLineMatches(ek: string, ev: string)
    requires ek != [] && IsEscapedText(ek) && IsEscapedText(ev)
    ensures MatchKeyValue(KeyValueLine(ek, ev)) == Some(RawPair("\"" + ek + "\"", ev))
  {
    var afterKey := " = \"" + ev + "\";\n";
    var line := KeyValueLine(ek, ev);
    assert line == "\"" + ek + "\"" + afterKey;
    assert SpaceRun(line) == 0;
    assert line[0..] == line;
    assert line[1..] == ek + ("\"" + afterKey);
    EscapedRunConcat(ek, "\"" + afterKey);
    var n := |ek| + 2;
    assert KeyTokenLength(line) == n;
    assert line[n..] == afterKey;
    assert line[..n] == "\"" + ek + "\"";
    ValuePartMatches(ev);
  }

  /** The reader takes from a line the writer builds the key and the value
      it was built from, unescaped. */
  lemma WrittenLineParses(ek: string, ev: string)
    requires ek != [] && IsEscapedText(ek) && IsEscapedText(ev)
    ensures ParseLine(KeyValueLine(ek, ev)) == Some(KeyValue(ReadKey("\"" + ek + "\""), ReadValue(ev)))
  {
    KeyValueLineMatches(ek, ev);
  }

  /** A line written for a key and a value without backslashes (and a value
      without `b>`, which the writer would rewrite) is read back as that key
      and that value, with its `%s` placeholders turned into `%@`. */
  lemma {:induction false} WrittenLineReadsBack(k: string, v: string)
    requires k != [] && '\\' !in k && '\\' !in v && !Contains(v, "b>")
    ensures ParseLine(KeyValueLine(FormatKey(k), FormatValue(v))) == Some(KeyValue(k, RewritePlaceholders(v)))
  {
    var ek, ev := EscapeQuotes(k), EscapeQuotes(v);
    assert FormatValue(v) == ev by {
      EscapeKeepsNoBold(v);
      ReplaceAbsent(ev, "b>", "strong>");
    }
    var q := "\"" + ek + "\"";
    EscapedIsRun(k);
    EscapedIsRun(v);
    EscapeQuotesHead(k);
    WrittenLineParses(ek, ev);
    assert ReadKey(q) == k by {
      assert StripQuotes(q) == ek;
      UnescapeEscape(k);
    }
    assert ReadValue(ev) == RewritePlaceholders(v) by {
      UnescapeEscape(v);
    }
  }

  lemma {:induction false} LineEndAt(pre: string, rest: string)
    requires '\n' !in pre && rest != [] && rest[0] == '\n'
    ensures LineEnd(pre + rest) == |pre|
    decreases |pre|
  {
    if pre != [] {
      assert (pre + rest)[1..] == pre[1..] + rest;
      LineEndAt(pre[1..], rest);
    } else {
      assert pre + rest == rest;
    }
  }

  /** A comment line written by the writer is read back as the written
      comment text, whenever the comment holds no newline. */
  lemma {:induction false} WrittenCommentReadsBack(c: string)
    requires '\n' !in c
    ensures MatchComment(FormatComment(Some(c)).value) == Some(EscapeCommentText(c))
  {
    var e := EscapeCommentText(c);
    ReplaceChars(c, "*/", "* /", '\n');
    var line := "/* " + e + " */\n";
    assert FormatComment(Some(c)).value == line;
    var s := line[3..];
    assert s == e + " */\n";
    assert line[..3] == "/* ";
    var m := |e|;
    assert LineEnd(s) == m + 3 by {
      assert s == (e + " */") + "\n";
      LineEndAt(e + " */", "\n");
    }
    assert CloserAt(s, m);
    assert !CloserAt(s, m + 1) by { assert s[m + 1] == '*'; }
    var r := LastCloserFrom(s, m + 3);
    assert r == Some(m);
    assert s[..m] == e;
    assert MatchCommentAt(line) == Some(e);
  }

  // A comment without `*/` and without a newline is read back as it was
  // written.
  lemma CommentReadsBack(c: string)
    requires '\n' !in c && !Contains(c, "*/")
    ensures MatchComment(FormatComment(Some(c)).value) == Some(c)
  {
    WrittenCommentReadsBack(c);
    CommentTextUnchanged(c);
  }

  // `/* */` is no comment to the reader: the pattern needs a space on
  // each side of the capture.
  lemma EmptyCommentMarkerIgnored()
    ensures MatchComment("/* */") == None
  {
    var line := "/* */";
    assert MatchCommentAt(line) == None by {
      var s := line[3..];
      assert s == "*/";
      assert LastCloserFrom(s, LineEnd(s)) == None;
    }
    assert MatchCommentAt(line[1..]) == None by {
      assert line[1..][..3] == "* *";
    }
    assert MatchCommentAt(line[2..]) == None by {
      assert line[2..][..3] == " */";
    }
    assert MatchComment(line[3..]) == None;
  }

  /** A line without `/`, a blank line among them, holds no comment. */
  lemma {:induction false} NoSlashNoComment(line: string)
    requires '/' !in line
    ensures MatchComment(line).None?
    decreases |line|
  {
    if |line| >= 3 {
      assert line[..3][0] == line[0];
      NoSlashNoComment(line[1..]);
    }
  }

  /** A line in which the comment pattern's opener (slash, star, space)
      never occurs holds no comment. */
  lemma {:induction false} NoOpenerNoComment(line: string)
    requires !Contains(line, "/* ")
    ensures MatchComment(line).None?
    decreases |line|
  {
    if |line| >= 3 {
      assert OccursAt(line, "/* ", 0) <==> line[..3] == "/* " by {
        assert line[0..3] == line[..3];
      }
      AbsentFromTail(line, "/* ");
      NoOpenerNoComment(line[1..]);
    }
  }

  /** The section header `format_section_header` writes, for a name
      without `/` or `=`, is neither a comment nor a key/value pair to the
      reader: it stores nothing, and the pair after it gets no comment. */
  lemma SectionHeaderIgnored(name: string)
    requires '/' !in name && '=' !in name
    ensures MatchComment(FormatSectionHeader(name)).None?
    ensures ParseLine(FormatSectionHeader(name)).None?
  {
    var a, b := "/********** ", " **********/\n";
    var h := FormatSectionHeader(name);
    assert h == a + name + b;
    forall i | 0 <= i <= |h| - 3 ensures !OccursAt(h, "/* ", i) {
      assert OccursAt(h, "/* ", i) ==> h[i] == '/' && h[i + 2] == ' ' by {
        assert OccursAt(h, "/* ", i) ==> h[i..i + 3] == "/* ";
      }
      if i < |a| {
        assert h[i] == a[i] && h[2] == a[2];
      } else if i < |a| + |name| {
        assert h[i] == name[i - |a|];
      } else {
        assert h[i] == b[i - |a| - |name|];
      }
    }
    NoOpenerNoComment(h);
    NoEqualsNoMatch(h);
  }

  /** A line without `=` is never a key/value line. */
  lemma NoEqualsNoMatch(line: string)
    requires '=' !in line
    ensures MatchKeyValue(line).None?
  {
    var rest := line[SpaceRun(line)..];
    var k := KeyTokenLength(rest);
    if k > 0 {
      var afterKey := rest[k..];
      var eq := afterKey[SpaceRun(afterKey)..];
      if eq != [] {
        assert eq[0] == line[SpaceRun(line) + k + SpaceRun(afterKey)];
      }
    }
  }
}
