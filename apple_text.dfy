/** The pure string builders of the Apple formatter: the escaping applied
    when `.strings` and `.stringsdict` files are written, the unescaping
    applied when a `.strings` line is read, and the fixed plist fragments. */
module AppleText {
  import opened RubyString

  // ---------------------------------------------------------------------
  // Escaping

  /** Stand-in for the shared `escape_quotes` helper: `"` becomes `\"`. */
  function EscapeQuotes(s: string): string {
    Replace(s, "\"", "\\\"")
  }

  /** The reader's unescaping of keys and values, `gsub('\\"', '"')`: each
      `\"` becomes `"`; every other backslash sequence is kept as it is. */
  function UnescapeQuotes(s: string): string {
    Replace(s, "\\\"", "\"")
  }

  /** The reader's placeholder rewrite, `gsub('%s', '%@')` and then
      `gsub('$s', '$@')`. */
  function RewritePlaceholders(s: string): string {
    Replace(Replace(s, "%s", "%@"), "$s", "$@")
  }

  /** `format_key`. */
  function FormatKey(key: string): string {
    EscapeQuotes(key)
  }

  /** `format_value`: quotes escaped, then every `b>` rewritten to
      `strong>`. */
  function FormatValue(value: string): string {
    Replace(EscapeQuotes(value), "b>", "strong>")
  }

  /** `format_value_plural`: quotes escaped, `b>` rewritten to `strong&gt;`,
      then every `<` to `&lt;`. */
  function FormatValuePlural(value: string): string {
    Replace(Replace(EscapeQuotes(value), "b>", "strong&gt;"), "<", "&lt;")
  }

  // The comment text as `format_comment` writes it: every `*/` broken
  // into `* /`.
  function EscapeCommentText(text: string): string {
    Replace(text, "*/", "* /")
  }

  // `format_comment`: a `/* ... */` line when the definition has a comment.
  function FormatComment(comment: Option<string>): (r: Option<string>)
    ensures r.Some? <==> comment.Some?
  {
    match comment
    case None => None
    case Some(c) => Some("/* " + EscapeCommentText(c) + " */\n")
  }

  /** `key_value_pattern` filled with an already formatted key and value. */
  function KeyValueLine(key: string, value: string): string {
    "\"" + key + "\" = \"" + value + "\";\n"
  }

  /** `format_section_header`. */
  function FormatSectionHeader(name: string): string {
    "/********** " + name + " **********/\n"
  }

  // ---------------------------------------------------------------------
  // Plist fragments of the `.stringsdict` writer

  const HeaderStringsdict: string :=
    "<?xml version=\"1.0\" encoding=\"UTF-8\"?>\n" +
    "<!DOCTYPE plist PUBLIC \"-//Apple//DTD PLIST 1.0//EN\" \"http://www.apple.com/DTDs/PropertyList-1.0.dtd\">\n" +
    "<plist version=\"1.0\">\n" +
    "    <dict>\n"

  const PluralSectionEnd: string :=
    "            </dict>\n" +
    "        </dict>\n"

  const FooterStringsdict: string :=
    "    </dict>\n" +
    "</plist>"

  /** `comment.split("@")[1]`, printed as the empty string when absent: the
      text between the first and the second `@`. */
  function InnerKey(comment: string): string {
    var parts := Split(comment, '@');
    if |parts| > 1 then parts[1] else ""
  }

  /** The inner key holds no `@`. */
  lemma InnerKeyHasNoAt(comment: string)
    ensures '@' !in InnerKey(comment)
  {
    SplitExcludesSep(comment, '@');
  }

  /** `format_plural_start`. */
  function FormatPluralStart(sectionName: string, comment: string): string {
    "        <key>" + sectionName + "</key>\n" +
    "        <dict>\n" +
    "            <key>NSStringLocalizedFormatKey</key>\n" +
    "            <string>" + comment + "</string>\n" +
    "            <key>" + InnerKey(comment) + "</key>\n" +
    "            <dict>\n" +
    "                <key>NSStringFormatSpecTypeKey</key>\n" +
    "                <string>NSStringPluralRuleType</string>\n" +
    "                <key>NSStringFormatValueTypeKey</key>\n" +
    "                <string>d</string>\n"
  }

  /** The regular expression `/.__/` matches at `p`: a non-newline
      character followed by two underscores. */
  predicate SeparatorAt(key: string, p: int) {
    0 <= p && p + 3 <= |key| && key[p] != '\n' && key[p + 1] == '_' && key[p + 2] == '_'
  }

  /** The rightmost match of `/.__/` at or below position `q`. */
  function LastSeparatorFrom(key: string, q: nat): (r: Option<nat>)
    ensures r.Some? ==> r.value <= q && SeparatorAt(key, r.value)
    ensures r.Some? ==> forall p :: r.value < p <= q ==> !SeparatorAt(key, p)
    ensures r.None? ==> forall p :: 0 <= p <= q ==> !SeparatorAt(key, p)
    decreases q
  {
    if SeparatorAt(key, q) then Some(q)
    else if q == 0 then None
    else LastSeparatorFrom(key, q - 1)
  }

  /** The last element of `key.rpartition(/.__/)`: what follows the rightmost
      match, or the whole key when there is none. */
  function CategoryOf(key: string): string {
    match LastSeparatorFrom(key, |key|)
    case Some(p) => key[p + 3..]
    case None => key
  }

  /** `format_plural_key_value`. */
  function FormatPluralKeyValue(pluralKey: string, pluralString: string): string {
    "                <key>" + CategoryOf(pluralKey) + "</key>\n" +
    "                <string>" + pluralString + "</string>\n"
  }

  // ---------------------------------------------------------------------
  // Lemmas

  /** No `b>` survives `format_value`. */
  lemma FormatValueNoBold(value: string)
    ensures !Contains(FormatValue(value), "b>")
  {
    var e := EscapeQuotes(value);
    ReplaceRemovesPair(e, 'b', '>', "strong>");
    ContainsPairIff(Replace(e, "b>", "strong>"), 'b', '>');
  }

  /** The text `format_value_plural` writes into the plist holds neither
      `<` nor `b>`. */
  lemma FormatValuePluralEscaped(value: string)
    ensures '<' !in FormatValuePlural(value)
    ensures !Contains(FormatValuePlural(value), "b>")
  {
    var e := Replace(EscapeQuotes(value), "b>", "strong&gt;");
    ReplaceRemovesPair(EscapeQuotes(value), 'b', '>', "strong&gt;");
    ReplaceCharKeepsNoPair(e, '<', "&lt;", 'b', '>');
    ReplaceRemovesChar(e, '<', "&lt;");
    ContainsPairIff(Replace(e, "<", "&lt;"), 'b', '>');
  }

  // A comment written by `format_comment` cannot close early: its text
  // holds no `*/`.
  lemma EscapeCommentTextNoCloser(text: string)
    ensures !Contains(EscapeCommentText(text), "*/")
  {
    ReplaceRemovesPair(text, '*', '/', "* /");
    ContainsPairIff(Replace(text, "*/", "* /"), '*', '/');
  }

  lemma EscapeQuotesCons(c: char, t: string)
    ensures EscapeQuotes([c] + t) == (if c == '"' then "\\\"" else [c]) + EscapeQuotes(t)
  {
    assert ([c] + t)[..1] == [c];
    assert ([c] + t)[1..] == t;
  }

  lemma {:induction false} EscapeQuotesHead(t: string)
    requires t != []
    ensures EscapeQuotes(t) != [] && EscapeQuotes(t)[0] == (if t[0] == '"' then '\\' else t[0])
  {
    assert [t[0]] + t[1..] == t;
    EscapeQuotesCons(t[0], t[1..]);
  }

  /** Unescaping what `escape_quotes` wrote gives back the original text. */
  lemma {:induction false} UnescapeEscape(s: string)
    ensures UnescapeQuotes(EscapeQuotes(s)) == s
    decreases |s|
  {
    if s != [] {
      var c, t := s[0], s[1..];
      assert s == [c] + t;
      EscapeQuotesCons(c, t);
      var et := EscapeQuotes(t);
      UnescapeEscape(t);
      if c == '"' {
        var w := "\\\"" + et;
        assert w[..2] == "\\\"" && w[2..] == et;
      } else if c == '\\' {
        var w := "\\" + et;
        if et != [] {
          EscapeQuotesHead(t);
          assert w[..2] != "\\\"" by { assert w[1] == et[0]; }
          assert w[1..] == et;
        }
      } else {
        var w := [c] + et;
        if et != [] {
          assert w[..2] != "\\\"" by { assert w[0] == c; }
          assert w[1..] == et;
        }
      }
    }
  }

  // A comment without `*/` is written unchanged.
  lemma CommentTextUnchanged(text: string)
    requires !Contains(text, "*/")
    ensures EscapeCommentText(text) == text
  {
    ReplaceAbsent(text, "*/", "* /");
  }

  /** For a family name `f` that is not empty and does not end in a newline,
      and a category `c` without underscores, the category written for the
      synthesized key `f + "__" + c` is `c` again. */
  lemma {:induction false} CategoryOfSynthesizedKey(f: string, c: string)
    requires f != [] && f[|f| - 1] != '\n'
    requires '_' !in c
    ensures CategoryOf(f + "__" + c) == c
  {
    var key := f + "__" + c;
    var p0 := |f| - 1;
    assert SeparatorAt(key, p0);
    forall p | p0 < p && p + 3 <= |key| ensures !SeparatorAt(key, p) {
      if p == |f| {
        assert key[p + 2] == c[0];
      } else {
        assert key[p + 1] == c[p + 1 - |f| - 2];
      }
    }
    var r := LastSeparatorFrom(key, |key|);
    assert r == Some(p0);
    assert key[p0 + 3..] == c;
  }

  /** The plist entry written for a synthesized key carries the category. */
  lemma PluralKeyValueRoundTrip(f: string, c: string, s: string)
    requires f != [] && f[|f| - 1] != '\n'
    requires '_' !in c
    ensures FormatPluralKeyValue(f + "__" + c, s) ==
            "                <key>" + c + "</key>\n" +
            "                <string>" + s + "</string>\n"
  {
    CategoryOfSynthesizedKey(f, c);
  }

  /** The inner dictionary key is the text between the first two `@`s, as
      in the format key `%#@items@`. */
  lemma {:induction false} InnerKeyBetweenAts(p: string, v: string, rest: string)
    requires '@' !in p && '@' !in v
    requires rest == [] || rest[0] == '@'
    ensures InnerKey(p + "@" + v + rest) == v
  {
    var s := p + "@" + v + rest;
    FieldsNoSep(p, '@');
    if rest == [] {
      assert s == p + ['@'] + v;
      FieldsConcat(p, v, '@');
      FieldsNoSep(v, '@');
      assert Fields(s, '@') == [p, v];
      if v == [] {
        assert DropTrailingEmpty([p, v]) == DropTrailingEmpty([p]);
      } else {
        DropTrailingEmptyKeeps([p, v]);
      }
    } else {
      var tail := rest[1..];
      assert rest == ['@'] + tail;
      assert s == p + ['@'] + (v + ['@'] + tail);
      FieldsConcat(p, v + ['@'] + tail, '@');
      FieldsConcat(v, tail, '@');
      FieldsNoSep(v, '@');
      var fs := Fields(s, '@');
      assert fs == [p, v] + Fields(tail, '@');
      var d := Split(s, '@');
      if v != [] {
        assert fs[1] != "";
        assert d[1] == fs[1];
      } else if |d| > 1 {
        assert d[1] == fs[1];
      }
    }
  }

  /** A plural family whose format key is `%#@items@` gets the inner
      dictionary key `items`. */
  lemma PluralStartInnerKey(name: string, v: string)
    requires '@' !in v
    ensures Contains(FormatPluralStart(name, "%#@" + v + "@"), "            <key>" + v + "</key>\n")
  {
    assert "%#@" + v + "@" == "%#" + "@" + v + "@";
    InnerKeyBetweenAts("%#", v, "@");
    var comment := "%#@" + v + "@";
    var line := "            <key>" + v + "</key>\n";
    var before := "        <key>" + name + "</key>\n" +
                  "        <dict>\n" +
                  "            <key>NSStringLocalizedFormatKey</key>\n" +
                  "            <string>" + comment + "</string>\n";
    var after := "            <dict>\n" +
                 "                <key>NSStringFormatSpecTypeKey</key>\n" +
                 "                <string>NSStringPluralRuleType</string>\n" +
                 "                <key>NSStringFormatValueTypeKey</key>\n" +
                 "                <string>d</string>\n";
    assert FormatPluralStart(name, comment) == before + line + after;
    ContainsMiddle(before, line, after);
  }
}
