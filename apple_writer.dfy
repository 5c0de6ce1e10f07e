/** The Apple formatter's writer: `format_sections` renders the table for
    one language as the text of `Localizable.strings` (the uncategorized
    sections) and the lines written to `Localizable.stringsdict` (the plural
    families), with the diagnostics `format_section_plural` prints.

    The two output channels are sequences: `plist` holds, in order, every
    string passed to `out_file.puts`, and `diagnostics` every string passed
    to `puts`. */
module AppleWriter {
  import opened RubyString
  import opened AppleText
  import opened TwineData

  // ---------------------------------------------------------------------
  // Stand-ins for the shared formatter base

  /** Stand-in for `should_include_definition`: the definition has a
      translation for the language. */
  predicate ShouldInclude(d: Definition, lang: string) {
    lang in d.translations
  }

  /** Stand-in for `format_definition`: the comment line, when there is a
      comment, then the key/value line. */
  function FormatDefinition(d: Definition, lang: string): string
    requires ShouldInclude(d, lang)
  {
    var comment := FormatComment(d.comment);
    (if comment.Some? then comment.value else "") +
    KeyValueLine(FormatKey(d.key), FormatValue(d.translations[lang]))
  }

  /** Stand-in for `translation_for_lang_or_nil`: the translation for the
      language, if there is one. */
  function TranslationForLangOrNil(d: Definition, lang: string): (r: Option<string>)
    ensures r.Some? <==> lang in d.translations
    ensures r.Some? ==> r.value == d.translations[lang]
  {
    if lang in d.translations then Some(d.translations[lang]) else None
  }

  // ---------------------------------------------------------------------
  // `format_section`

  /** `definitions.select { should_include_definition }`. */
  function Included(defs: seq<Definition>, lang: string): (r: seq<Definition>)
    ensures forall d :: d in r <==> d in defs && ShouldInclude(d, lang)
  {
    if defs == [] then []
    else (if ShouldInclude(defs[0], lang) then [defs[0]] else []) + Included(defs[1..], lang)
  }

  /** Each definition formatted, prefixed with a newline, all joined. */
  function DefinitionBlock(defs: seq<Definition>, lang: string): string
    requires forall d :: d in defs ==> ShouldInclude(d, lang)
  {
    if defs == [] then ""
    else "\n" + FormatDefinition(defs[0], lang) + DefinitionBlock(defs[1..], lang)
  }

  /** `format_section`: nothing when no definition is included or when the
      section has no name; otherwise the section header and, for an
      uncategorized section, its definitions. The value of the method is
      that of its last `if`, so a named section that is not uncategorized
      also gives nothing. */
  function FormatSection(s: Section, lang: string): (r: Option<string>)
    ensures r.Some? <==> s.name == Uncategorized && exists d :: d in s.definitions && ShouldInclude(d, lang)
  {
    var defs := Included(s.definitions, lang);
    if defs == [] then None
    else
      assert defs[0] in defs;
      if s.name != "" then
        if IsUncategorized(s) then Some("\n" + FormatSectionHeader(s.name) + DefinitionBlock(defs, lang))
        else None
      else None
  }

  // ---------------------------------------------------------------------
  // `main_localizable_file_contains_key`

  /** The index of the first uncategorized section. */
  function FirstUncategorized(secs: seq<Section>): (r: Option<nat>)
    ensures r.Some? ==> r.value < |secs| && IsUncategorized(secs[r.value])
    ensures r.Some? ==> forall j :: 0 <= j < r.value ==> !IsUncategorized(secs[j])
    ensures r.None? <==> forall j :: 0 <= j < |secs| ==> !IsUncategorized(secs[j])
  {
    if secs == [] then None
    else if IsUncategorized(secs[0]) then Some(0)
    else match FirstUncategorized(secs[1..])
      case None => None
      case Some(i) => Some(i + 1)
  }

  /** `main_localizable_file_contains_key`: the search stops at the first
      uncategorized section, whether or not it holds the key. */
  function MainContainsKey(secs: seq<Section>, key: string): bool {
    if secs == [] then false
    else if IsUncategorized(secs[0]) then Find(secs[0].definitions, key).Some?
    else MainContainsKey(secs[1..], key)
  }

  // ---------------------------------------------------------------------
  // `format_section_plural`

  /** What `format_section_plural` leaves behind: the lines written to the
      `.stringsdict` file and the diagnostics printed. */
  datatype PluralResult = PluralResult(lines: seq<string>, diagnostics: seq<string>)

  /** The index of the first definition without an ios comment. */
  function FirstMissingFormat(defs: seq<Definition>): (r: Option<nat>)
    ensures r.Some? ==> r.value < |defs| && defs[r.value].iosComment.None?
    ensures r.Some? ==> forall j :: 0 <= j < r.value ==> defs[j].iosComment.Some?
    ensures r.None? <==> forall j :: 0 <= j < |defs| ==> defs[j].iosComment.Some?
  {
    if defs == [] then None
    else if defs[0].iosComment.None? then Some(0)
    else match FirstMissingFormat(defs[1..])
      case None => None
      case Some(i) => Some(i + 1)
  }

  /** The lines one pass of the loop writes for the definition at `i`: the
      family's opening on the first pass and the category's key and string
      when it has a translation, both only when the key is in the main
      section. */
  function DefinitionPluralLines(name: string, d: Definition, i: nat, lang: string, contains: bool): seq<string>
    requires d.iosComment.Some?
  {
    (if i == 0 && contains then [FormatPluralStart(name, d.iosComment.value)] else []) +
    (var value := TranslationForLangOrNil(d, lang);
     if value.Some? && contains then [FormatPluralKeyValue(d.key, FormatValuePlural(value.value))] else [])
  }

  /** The lines of each of the first `n` passes of the loop. */
  function PassLines(s: Section, n: nat, lang: string, contains: bool): seq<seq<string>>
    requires n <= |s.definitions|
    requires forall j :: 0 <= j < n ==> s.definitions[j].iosComment.Some?
  {
    seq(n, j requires 0 <= j < n => DefinitionPluralLines(s.name, s.definitions[j], j, lang, contains))
  }

  /** The parts one after the other. */
  function Concat(parts: seq<seq<string>>): seq<string> {
    if parts == [] then [] else Concat(parts[..|parts| - 1]) + parts[|parts| - 1]
  }

  /** The lines the first `n` passes of the loop write. */
  function PluralLinesUpTo(s: Section, n: nat, lang: string, contains: bool): seq<string>
    requires n <= |s.definitions|
    requires forall j :: 0 <= j < n ==> s.definitions[j].iosComment.Some?
  {
    Concat(PassLines(s, n, lang, contains))
  }

  /** The diagnostics for a definition without an ios comment. */
  function MissingFormatDiagnostics(name: string, contains: bool): seq<string> {
    ["[" + name + "]",
     if contains then "Needs matching key in Localizable.strings" else "This is an Android-only plural"]
  }

  /** `format_section_plural` over the table `secs`: the passes up to the
      first definition without an ios comment, which stops the method with
      its diagnostics; otherwise all passes and then the section end when
      the key is in the main section. */
  function PluralOutput(secs: seq<Section>, s: Section, lang: string): PluralResult {
    var contains := MainContainsKey(secs, s.name);
    match FirstMissingFormat(s.definitions)
    case Some(i) => PluralResult(PluralLinesUpTo(s, i, lang, contains), MissingFormatDiagnostics(s.name, contains))
    case None =>
      PluralResult(PluralLinesUpTo(s, |s.definitions|, lang, contains) + (if contains then [PluralSectionEnd] else []), [])
  }

  /** `format_section_plural(section, lang, out_file)`. */
  method FormatSectionPlural(secs: seq<Section>, s: Section, lang: string) returns (lines: seq<string>, diagnostics: seq<string>)
    ensures PluralResult(lines, diagnostics) == PluralOutput(secs, s, lang)
  {
    var pluralKey := s.name;
    var mainFileContainsKey := MainContainsKey(secs, pluralKey);
    lines, diagnostics := [], [];
    var i := 0;
    while i < |s.definitions|
      invariant i <= |s.definitions|
      invariant forall j :: 0 <= j < i ==> s.definitions[j].iosComment.Some?
      invariant lines == PluralLinesUpTo(s, i, lang, mainFileContainsKey)
    {
      if s.definitions[i].iosComment.None? {
        FirstMissingFormatAt(s.definitions, i);
        diagnostics := ReportMissingFormat(pluralKey, mainFileContainsKey);
        return;
      }
      var written := WritePluralPass(pluralKey, s.definitions[i], i, lang, mainFileContainsKey);
      PassesStep(s, i, lang, mainFileContainsKey);
      lines := lines + written;
      i := i + 1;
    }
    if mainFileContainsKey {
      lines := lines + [PluralSectionEnd];
    }
  }

  /** The body of the loop for a definition with an ios comment. */
  method WritePluralPass(pluralKey: string, definition: Definition, i: nat, lang: string, mainFileContainsKey: bool)
    returns (written: seq<string>)
    requires definition.iosComment.Some?
    ensures written == DefinitionPluralLines(pluralKey, definition, i, lang, mainFileContainsKey)
  {
    var value := TranslationForLangOrNil(definition, lang);
    var iosLocalizedFormatKey := definition.iosComment;
    written := [];
    if i == 0 && mainFileContainsKey {
      written := written + [FormatPluralStart(pluralKey, iosLocalizedFormatKey.value)];
    }
    if value.Some? && mainFileContainsKey {
      written := written + [FormatPluralKeyValue(definition.key, FormatValuePlural(value.value))];
    }
  }

  /** The diagnostics printed for a definition without an ios comment. */
  method ReportMissingFormat(pluralKey: string, mainFileContainsKey: bool) returns (printed: seq<string>)
    ensures printed == MissingFormatDiagnostics(pluralKey, mainFileContainsKey)
  {
    printed := ["[" + pluralKey + "]"];
    if mainFileContainsKey {
      printed := printed + ["Needs matching key in Localizable.strings"];
    } else {
      printed := printed + ["This is an Android-only plural"];
    }
  }

  /** The first definition without an ios comment is the one the loop
      stops at. */
  lemma FirstMissingFormatAt(defs: seq<Definition>, i: nat)
    requires i < |defs| && defs[i].iosComment.None?
    requires forall j :: 0 <= j < i ==> defs[j].iosComment.Some?
    ensures FirstMissingFormat(defs) == Some(i)
  {
  }

  // ---------------------------------------------------------------------
  // `format_sections`

  /** The entry `format_sections` stores for each section: the formatted
      text of an uncategorized section, and nothing for a plural one. */
  function SectionTexts(secs: seq<Section>, lang: string): seq<Option<string>> {
    seq(|secs|, i requires 0 <= i < |secs| => if IsUncategorized(secs[i]) then FormatSection(secs[i], lang) else None)
  }

  /** Ruby's `compact`: the entries that are not nil. */
  function Compact(parts: seq<Option<string>>): seq<string> {
    if parts == [] then []
    else (if parts[0].Some? then [parts[0].value] else []) + Compact(parts[1..])
  }

  /** The `Localizable.strings` text `format_sections` returns. */
  function StringsText(secs: seq<Section>, lang: string): string {
    Join(Compact(SectionTexts(secs, lang)), "\n")
  }

  /** One of the first `n` sections is a plural family: the flag
      `first_plural` is false after `n` passes. */
  function PluralBefore(secs: seq<Section>, n: nat): bool
    requires n <= |secs|
  {
    n > 0 && (PluralBefore(secs, n - 1) || !IsUncategorized(secs[n - 1]))
  }

  /** The lines written for the first `n` sections: the header before the
      first plural family, then each family's lines. */
  function PlistUpTo(main: seq<Section>, secs: seq<Section>, n: nat, lang: string): seq<string>
    requires n <= |secs|
  {
    if n == 0 then []
    else if IsUncategorized(secs[n - 1]) then PlistUpTo(main, secs, n - 1, lang)
    else PlistUpTo(main, secs, n - 1, lang) + (if PluralBefore(secs, n - 1) then [] else [HeaderStringsdict]) +
         PluralOutput(main, secs[n - 1], lang).lines
  }

  /** The diagnostics printed for the first `n` sections. */
  function DiagnosticsUpTo(main: seq<Section>, secs: seq<Section>, n: nat, lang: string): seq<string>
    requires n <= |secs|
  {
    if n == 0 then []
    else if IsUncategorized(secs[n - 1]) then DiagnosticsUpTo(main, secs, n - 1, lang)
    else DiagnosticsUpTo(main, secs, n - 1, lang) + PluralOutput(main, secs[n - 1], lang).diagnostics
  }

  /** Everything written to the `.stringsdict` file: the footer comes last
      whether or not a family was written. */
  function PlistOutput(main: seq<Section>, secs: seq<Section>, lang: string): seq<string> {
    PlistUpTo(main, secs, |secs|, lang) + [FooterStringsdict]
  }

  /** What the pass for the plural family at `i` adds. */
  lemma PluralStep(main: seq<Section>, secs: seq<Section>, i: nat, lang: string)
    requires i < |secs| && !IsUncategorized(secs[i])
    ensures PluralBefore(secs, i + 1)
    ensures PlistUpTo(main, secs, i + 1, lang) ==
      PlistUpTo(main, secs, i, lang) + (if PluralBefore(secs, i) then [] else [HeaderStringsdict]) +
      PluralOutput(main, secs[i], lang).lines
    ensures DiagnosticsUpTo(main, secs, i + 1, lang) == DiagnosticsUpTo(main, secs, i, lang) + PluralOutput(main, secs[i], lang).diagnostics
  {
  }

  /** The flag and the two outputs of `format_sections` after the passes
      over the first `i` sections. */
  ghost predicate PassesDone(main: seq<Section>, secs: seq<Section>, lang: string, i: nat, firstPlural: bool, plist: seq<string>, diagnostics: seq<string>) {
    i <= |secs| && firstPlural == !PluralBefore(secs, i) &&
    plist == PlistUpTo(main, secs, i, lang) && diagnostics == DiagnosticsUpTo(main, secs, i, lang)
  }

  /** The pass of `format_sections` for the plural family at `i`: the header
      when it is the first family, then what `format_section_plural`
      writes and prints. */
  method WritePluralSection(main: seq<Section>, secs: seq<Section>, i: nat, lang: string, firstPlural: bool, plist: seq<string>, diagnostics: seq<string>)
    returns (firstPlural': bool, plist': seq<string>, diagnostics': seq<string>)
    requires i < |secs| && !IsUncategorized(secs[i])
    requires PassesDone(main, secs, lang, i, firstPlural, plist, diagnostics)
    ensures PassesDone(main, secs, lang, i + 1, firstPlural', plist', diagnostics')
  {
    PluralStep(main, secs, i, lang);
    ghost var header: seq<string> := if PluralBefore(secs, i) then [] else [HeaderStringsdict];
    firstPlural', plist' := firstPlural, plist;
    if firstPlural {
      firstPlural' := false;
      plist' := plist' + [HeaderStringsdict];
    }
    assert plist' == PlistUpTo(main, secs, i, lang) + header;
    var lines, printed := FormatSectionPlural(main, secs[i], lang);
    plist' := plist' + lines;
    diagnostics' := diagnostics + printed;
    assert plist' == PlistUpTo(main, secs, i + 1, lang);
    assert diagnostics' == DiagnosticsUpTo(main, secs, i + 1, lang);
  }

  /** The stored texts after the passes over the first `i` sections. */
  ghost predicate TextsStored(sections: seq<Option<string>>, secs: seq<Section>, lang: string, i: nat) {
    |sections| == |secs| && forall j :: 0 <= j < |secs| ==> sections[j] == if j < i then SectionTexts(secs, lang)[j] else None
  }

  method StoreSectionText(sections: array<Option<string>>, secs: seq<Section>, i: nat, lang: string)
    requires i < |secs| && IsUncategorized(secs[i])
    requires TextsStored(sections[..], secs, lang, i)
    modifies sections
    ensures TextsStored(sections[..], secs, lang, i + 1)
  {
    sections[i] := FormatSection(secs[i], lang);
    assert sections[..] == old(sections[..])[i := FormatSection(secs[i], lang)];
  }

  lemma UncategorizedStep(main: seq<Section>, secs: seq<Section>, i: nat, lang: string)
    requires i < |secs| && IsUncategorized(secs[i])
    ensures PluralBefore(secs, i + 1) == PluralBefore(secs, i)
    ensures PlistUpTo(main, secs, i + 1, lang) == PlistUpTo(main, secs, i, lang)
    ensures DiagnosticsUpTo(main, secs, i + 1, lang) == DiagnosticsUpTo(main, secs, i, lang)
  {
  }

  lemma PluralTextStep(secs: seq<Section>, i: nat, lang: string, sections: seq<Option<string>>)
    requires i < |secs| && !IsUncategorized(secs[i])
    requires TextsStored(sections, secs, lang, i)
    ensures TextsStored(sections, secs, lang, i + 1)
  {
  }

  /** `format_sections(twine_file, lang)`: one pass over the sections that
      stores the text of each uncategorized section in an array indexed
      like the table and writes each plural family to the `.stringsdict`
      output, the header once before the first; then the footer, and the
      stored texts that are not nil joined with newlines. `secs` are the
      sections of the `twine_file` argument the loop walks; `main` are the
      sections of the formatter's own `@twine_file`, which
      `main_localizable_file_contains_key` searches. */
  method FormatSections(main: seq<Section>, secs: seq<Section>, lang: string) returns (text: string, plist: seq<string>, diagnostics: seq<string>)
    ensures text == StringsText(secs, lang)
    ensures plist == PlistOutput(main, secs, lang)
    ensures diagnostics == DiagnosticsUpTo(main, secs, |secs|, lang)
  {
    var firstPlural := true;
    plist, diagnostics := [], [];
    var sections := new Option<string>[|secs|](_ => None);
    var i: nat := 0;
    while i < |secs|
      invariant sections.Length == |secs|
      invariant TextsStored(sections[..], secs, lang, i)
      invariant PassesDone(main, secs, lang, i, firstPlural, plist, diagnostics)
    {
      if IsUncategorized(secs[i]) {
        StoreSectionText(sections, secs, i, lang);
        UncategorizedStep(main, secs, i, lang);
      } else {
        firstPlural, plist, diagnostics := WritePluralSection(main, secs, i, lang, firstPlural, plist, diagnostics);
        PluralTextStep(secs, i, lang, sections[..]);
      }
      i := i + 1;
    }
    plist := plist + [FooterStringsdict];
    assert TextsStored(sections[..], secs, lang, |secs|);
    assert sections[..] == SectionTexts(secs, lang);
    text := Join(Compact(sections[..]), "\n");
  }

  // ---------------------------------------------------------------------
  // Lemmas: `Localizable.strings`

  /** Every definition of the block, after a newline, occurs in it. */
  lemma {:induction false} DefinitionBlockContains(defs: seq<Definition>, lang: string, d: Definition)
    requires forall e :: e in defs ==> ShouldInclude(e, lang)
    requires d in defs
    ensures Contains(DefinitionBlock(defs, lang), "\n" + FormatDefinition(d, lang))
  {
    var x := "\n" + FormatDefinition(d, lang);
    var rest := DefinitionBlock(defs[1..], lang);
    if defs[0] == d {
      ContainsStart(x, rest);
    } else {
      DefinitionBlockContains(defs[1..], lang, d);
      ContainsAfter("\n" + FormatDefinition(defs[0], lang), rest, x);
    }
  }

  /** The text of the `Uncategorized` section holds every one of its
      definitions that has a translation for the language. */
  lemma UncategorizedSectionHolds(s: Section, lang: string, d: Definition)
    requires s.name == Uncategorized && d in s.definitions && ShouldInclude(d, lang)
    ensures FormatSection(s, lang).Some?
    ensures Contains(FormatSection(s, lang).value, "\n" + FormatDefinition(d, lang))
  {
    var defs := Included(s.definitions, lang);
    var block := DefinitionBlock(defs, lang);
    DefinitionBlockContains(defs, lang, d);
    ContainsAfter("\n" + FormatSectionHeader(s.name), block, "\n" + FormatDefinition(d, lang));
  }

  /** Every stored text occurs in `Localizable.strings`. */
  lemma StringsTextHoldsSection(secs: seq<Section>, lang: string, i: nat)
    requires i < |secs| && SectionTexts(secs, lang)[i].Some?
    ensures Contains(StringsText(secs, lang), SectionTexts(secs, lang)[i].value)
  {
    var texts := SectionTexts(secs, lang);
    assert Some(texts[i].value) in texts;
    CompactKeeps(texts);
    JoinContains(Compact(texts), "\n", texts[i].value);
  }

  /** A formatted definition holds its key/value line. */
  lemma DefinitionHoldsLine(d: Definition, lang: string)
    requires ShouldInclude(d, lang)
    ensures Contains("\n" + FormatDefinition(d, lang), KeyValueLine(FormatKey(d.key), FormatValue(d.translations[lang])))
  {
    var comment := FormatComment(d.comment);
    var c := if comment.Some? then comment.value else "";
    var line := KeyValueLine(FormatKey(d.key), FormatValue(d.translations[lang]));
    assert FormatDefinition(d, lang) == c + line;
    ContainsEnd(c, line);
    ContainsAfter("\n", c + line, line);
  }

  /** `Localizable.strings` holds, for every definition of an
      `Uncategorized` section that has a translation for the language, its
      formatted block and in it the key/value line. */
  lemma StringsTextHolds(secs: seq<Section>, lang: string, i: nat, d: Definition)
    requires i < |secs| && secs[i].name == Uncategorized
    requires d in secs[i].definitions && lang in d.translations
    ensures Contains(StringsText(secs, lang), "\n" + FormatDefinition(d, lang))
    ensures Contains(StringsText(secs, lang), KeyValueLine(FormatKey(d.key), FormatValue(d.translations[lang])))
  {
    var text := StringsText(secs, lang);
    var block := "\n" + FormatDefinition(d, lang);
    UncategorizedSectionHolds(secs[i], lang, d);
    StringsTextHoldsSection(secs, lang, i);
    ContainsTransitive(text, FormatSection(secs[i], lang).value, block);
    DefinitionHoldsLine(d, lang);
    ContainsTransitive(text, block, KeyValueLine(FormatKey(d.key), FormatValue(d.translations[lang])));
  }

  /** `compact` distributes over concatenation. */
  lemma {:induction false} CompactConcat(a: seq<Option<string>>, b: seq<Option<string>>)
    ensures Compact(a + b) == Compact(a) + Compact(b)
  {
    if a == [] {
      assert a + b == b;
    } else {
      var x, t := a[0], a[1..];
      CompactConcat(t, b);
      assert a == [x] + t;
      assert a + b == [x] + (t + b);
      CompactCons(x, t);
      CompactCons(x, t + b);
      var h := if x.Some? then [x.value] else [];
      assert h + (Compact(t) + Compact(b)) == (h + Compact(t)) + Compact(b);
    }
  }

  /** `compact` keeps exactly the values of the entries that are not nil. */
  lemma {:induction false} CompactKeeps(parts: seq<Option<string>>)
    ensures forall x :: x in Compact(parts) <==> Some(x) in parts
  {
    if parts != [] {
      CompactKeeps(parts[1..]);
      assert parts == [parts[0]] + parts[1..];
    }
  }

  /** One step of `compact`. */
  lemma CompactCons(x: Option<string>, t: seq<Option<string>>)
    ensures Compact([x] + t) == (if x.Some? then [x.value] else []) + Compact(t)
  {
    assert ([x] + t)[1..] == t;
  }

  /** `compact` drops a nil wherever it stands. */
  lemma CompactDropsNone(a: seq<Option<string>>, b: seq<Option<string>>)
    ensures Compact(a + [None] + b) == Compact(a + b)
  {
    CompactConcat(a, [None] + b);
    CompactConcat([None], b);
    CompactConcat(a, b);
    assert a + [None] + b == a + ([None] + b);
  }

  /** Taking a section out of the table takes its entry out of the stored
      texts. */
  lemma SectionTextsRemoveAt(secs: seq<Section>, lang: string, i: nat)
    requires i < |secs|
    ensures SectionTexts(RemoveAt(secs, i), lang) == SectionTexts(secs, lang)[..i] + SectionTexts(secs, lang)[i + 1..]
  {
    var r := RemoveAt(secs, i);
    var a := SectionTexts(r, lang);
    var b := SectionTexts(secs, lang);
    var c := b[..i] + b[i + 1..];
    assert |a| == |c|;
    forall j | 0 <= j < |a| ensures a[j] == c[j] {
      if j < i {
        assert r[j] == secs[j];
      } else {
        assert r[j] == secs[j + 1];
      }
    }
  }

  /** A plural family contributes nothing to `Localizable.strings`: taking
      it out of the table leaves the text unchanged. */
  lemma StringsTextSkipsFamilies(secs: seq<Section>, lang: string, i: nat)
    requires i < |secs| && !IsUncategorized(secs[i])
    ensures StringsText(RemoveAt(secs, i), lang) == StringsText(secs, lang)
  {
    var texts := SectionTexts(secs, lang);
    SectionTextsRemoveAt(secs, lang, i);
    assert texts[i] == None;
    assert texts == texts[..i] + [None] + texts[i + 1..];
    CompactDropsNone(texts[..i], texts[i + 1..]);
  }

  // ---------------------------------------------------------------------
  // Lemmas: `main_localizable_file_contains_key`

  /** The key is found exactly when the first uncategorized section has a
      definition with that key; with no uncategorized section it is not. */
  lemma {:induction false} MainContainsKeyFirst(secs: seq<Section>, key: string)
    ensures MainContainsKey(secs, key) <==>
      FirstUncategorized(secs).Some? && exists d :: d in secs[FirstUncategorized(secs).value].definitions && d.key == key
  {
    if secs != [] && !IsUncategorized(secs[0]) {
      MainContainsKeyFirst(secs[1..], key);
      var r := FirstUncategorized(secs[1..]);
      if r.Some? {
        assert secs[1..][r.value] == secs[r.value + 1];
      }
    }
  }

  // ---------------------------------------------------------------------
  // Lemmas: `format_section_plural`

  /** Each pass adds its lines after those of the passes before. */
  lemma PassesStep(s: Section, n: nat, lang: string, contains: bool)
    requires n < |s.definitions|
    requires forall j :: 0 <= j <= n ==> s.definitions[j].iosComment.Some?
    ensures PluralLinesUpTo(s, n + 1, lang, contains) ==
      PluralLinesUpTo(s, n, lang, contains) + DefinitionPluralLines(s.name, s.definitions[n], n, lang, contains)
  {
    var parts := PassLines(s, n + 1, lang, contains);
    assert parts[..n] == PassLines(s, n, lang, contains);
  }

  /** A line of one part is a line of the whole. */
  lemma {:induction false} ConcatHolds(parts: seq<seq<string>>, j: nat, x: string)
    requires j < |parts| && x in parts[j]
    ensures x in Concat(parts)
  {
    var n := |parts| - 1;
    if j < n {
      ConcatHolds(parts[..n], j, x);
    }
  }

  /** A line of no part is not a line of the whole. */
  lemma {:induction false} ConcatAvoids(parts: seq<seq<string>>, x: string)
    requires forall j :: 0 <= j < |parts| ==> x !in parts[j]
    ensures x !in Concat(parts)
  {
    if parts != [] {
      ConcatAvoids(parts[..|parts| - 1], x);
    }
  }

  /** Empty parts make an empty whole. */
  lemma {:induction false} ConcatEmpty(parts: seq<seq<string>>)
    requires forall j :: 0 <= j < |parts| ==> parts[j] == []
    ensures Concat(parts) == []
  {
    if parts != [] {
      ConcatEmpty(parts[..|parts| - 1]);
    }
  }

  /** The whole starts with the first line of a first part that has one. */
  lemma {:induction false} ConcatHead(parts: seq<seq<string>>)
    requires parts != [] && parts[0] != []
    ensures Concat(parts) != [] && Concat(parts)[0] == parts[0][0]
  {
    if |parts| > 1 {
      ConcatHead(parts[..|parts| - 1]);
    }
  }

  /** Without the key in the main section the passes write nothing. */
  lemma OrphanPassesWriteNothing(s: Section, n: nat, lang: string)
    requires n <= |s.definitions|
    requires forall j :: 0 <= j < n ==> s.definitions[j].iosComment.Some?
    ensures PluralLinesUpTo(s, n, lang, false) == []
  {
    var parts := PassLines(s, n, lang, false);
    forall j | 0 <= j < n ensures parts[j] == [] {
      assert parts[j] == DefinitionPluralLines(s.name, s.definitions[j], j, lang, false);
    }
    ConcatEmpty(parts);
  }

  /** A family whose name is not a key of the main section writes nothing
      to the `.stringsdict` file, not even the section end. */
  lemma OrphanFamilyWritesNothing(secs: seq<Section>, s: Section, lang: string)
    requires !MainContainsKey(secs, s.name)
    ensures PluralOutput(secs, s, lang).lines == []
  {
    match FirstMissingFormat(s.definitions)
    case Some(i) => OrphanPassesWriteNothing(s, i, lang);
    case None => OrphanPassesWriteNothing(s, |s.definitions|, lang);
  }

  /** The family prints exactly when one of its definitions has no ios
      comment, and then two lines: its name in brackets and why it was
      left out. */
  lemma PluralDiagnostics(secs: seq<Section>, s: Section, lang: string)
    ensures PluralOutput(secs, s, lang).diagnostics != [] <==>
      exists j :: 0 <= j < |s.definitions| && s.definitions[j].iosComment.None?
    ensures PluralOutput(secs, s, lang).diagnostics != [] ==>
      |PluralOutput(secs, s, lang).diagnostics| == 2 &&
      PluralOutput(secs, s, lang).diagnostics[0] == "[" + s.name + "]"
  {
  }

  /** The opening of a family is not its end: it is longer. */
  lemma PluralStartIsNotEnd(name: string, comment: string)
    ensures FormatPluralStart(name, comment) != PluralSectionEnd
  {
    assert |FormatPluralStart(name, comment)| > |PluralSectionEnd|;
  }

  /** A category's entry is not the end of a family: it is longer. */
  lemma PluralKeyValueIsNotEnd(key: string, text: string)
    ensures FormatPluralKeyValue(key, text) != PluralSectionEnd
  {
    assert |FormatPluralKeyValue(key, text)| > |PluralSectionEnd|;
  }

  /** No pass writes the section end. */
  lemma PassWritesNoEnd(name: string, d: Definition, i: nat, lang: string, contains: bool)
    requires d.iosComment.Some?
    ensures PluralSectionEnd !in DefinitionPluralLines(name, d, i, lang, contains)
  {
    PluralStartIsNotEnd(name, d.iosComment.value);
    var value := TranslationForLangOrNil(d, lang);
    if value.Some? {
      PluralKeyValueIsNotEnd(d.key, FormatValuePlural(value.value));
    }
  }

  /** The passes never write the section end. */
  lemma PassesWriteNoEnd(s: Section, n: nat, lang: string, contains: bool)
    requires n <= |s.definitions|
    requires forall j :: 0 <= j < n ==> s.definitions[j].iosComment.Some?
    ensures PluralSectionEnd !in PluralLinesUpTo(s, n, lang, contains)
  {
    var parts := PassLines(s, n, lang, contains);
    forall j | 0 <= j < n ensures PluralSectionEnd !in parts[j] {
      PassWritesNoEnd(s.name, s.definitions[j], j, lang, contains);
    }
    ConcatAvoids(parts, PluralSectionEnd);
  }

  /** A family stopped by a definition without an ios comment is left
      open: its section end is not written. */
  lemma IncompleteFamilyLeftOpen(secs: seq<Section>, s: Section, lang: string, j: nat)
    requires j < |s.definitions| && s.definitions[j].iosComment.None?
    ensures PluralSectionEnd !in PluralOutput(secs, s, lang).lines
  {
    var i := FirstMissingFormat(s.definitions).value;
    PassesWriteNoEnd(s, i, lang, MainContainsKey(secs, s.name));
  }

  /** With the key in the main section, the first pass opens the family. */
  lemma PassesOpenFamily(s: Section, n: nat, lang: string)
    requires 0 < n <= |s.definitions|
    requires forall j :: 0 <= j < n ==> s.definitions[j].iosComment.Some?
    ensures PluralLinesUpTo(s, n, lang, true) != []
    ensures PluralLinesUpTo(s, n, lang, true)[0] == FormatPluralStart(s.name, s.definitions[0].iosComment.value)
  {
    var parts := PassLines(s, n, lang, true);
    assert parts[0] == DefinitionPluralLines(s.name, s.definitions[0], 0, lang, true);
    ConcatHead(parts);
  }

  /** A line written by one of the first `n` passes is among their lines. */
  lemma PassesKeepLine(s: Section, n: nat, lang: string, contains: bool, j: nat, x: string)
    requires j < n <= |s.definitions|
    requires forall k :: 0 <= k < n ==> s.definitions[k].iosComment.Some?
    requires x in DefinitionPluralLines(s.name, s.definitions[j], j, lang, contains)
    ensures x in PluralLinesUpTo(s, n, lang, contains)
  {
    var parts := PassLines(s, n, lang, contains);
    assert parts[j] == DefinitionPluralLines(s.name, s.definitions[j], j, lang, contains);
    ConcatHolds(parts, j, x);
  }

  /** A pass writes the entry of a definition that has a translation. */
  lemma PassWritesEntry(name: string, d: Definition, i: nat, lang: string)
    requires d.iosComment.Some? && lang in d.translations
    ensures FormatPluralKeyValue(d.key, FormatValuePlural(d.translations[lang])) in DefinitionPluralLines(name, d, i, lang, true)
  {
    var lines := DefinitionPluralLines(name, d, i, lang, true);
    assert lines[|lines| - 1] == FormatPluralKeyValue(d.key, FormatValuePlural(d.translations[lang]));
  }

  /** A family whose name is a key of the main section and whose every
      definition has an ios comment prints nothing, opens with
      `format_plural_start` on the first definition's format key and ends
      with the section end. */
  lemma CompleteFamilyClosed(secs: seq<Section>, s: Section, lang: string)
    requires MainContainsKey(secs, s.name)
    requires forall j :: 0 <= j < |s.definitions| ==> s.definitions[j].iosComment.Some?
    ensures PluralOutput(secs, s, lang).diagnostics == []
    ensures PluralOutput(secs, s, lang).lines != []
    ensures PluralOutput(secs, s, lang).lines[|PluralOutput(secs, s, lang).lines| - 1] == PluralSectionEnd
    ensures |s.definitions| > 0 ==>
      PluralOutput(secs, s, lang).lines[0] == FormatPluralStart(s.name, s.definitions[0].iosComment.value)
  {
    if |s.definitions| > 0 {
      PassesOpenFamily(s, |s.definitions|, lang);
    }
  }

  /** A family whose name is a key of the main section writes the entry of
      each definition that has a translation, up to the first definition
      without an ios comment. */
  lemma FamilyWritesEntry(secs: seq<Section>, s: Section, lang: string, j: nat)
    requires MainContainsKey(secs, s.name)
    requires j < |s.definitions| && lang in s.definitions[j].translations
    requires forall k :: 0 <= k <= j ==> s.definitions[k].iosComment.Some?
    ensures FormatPluralKeyValue(s.definitions[j].key, FormatValuePlural(s.definitions[j].translations[lang]))
            in PluralOutput(secs, s, lang).lines
  {
    var entry := FormatPluralKeyValue(s.definitions[j].key, FormatValuePlural(s.definitions[j].translations[lang]));
    PassWritesEntry(s.name, s.definitions[j], j, lang);
    match FirstMissingFormat(s.definitions)
    case Some(i) => PassesKeepLine(s, i, lang, true, j, entry);
    case None => PassesKeepLine(s, |s.definitions|, lang, true, j, entry);
  }

  /** The reader's key for category `c` of family `f` comes back out as the
      plist entry for `c`. */
  lemma SynthesizedCategoryWritten(secs: seq<Section>, s: Section, lang: string, j: nat, c: string)
    requires MainContainsKey(secs, s.name)
    requires s.name != [] && s.name[|s.name| - 1] != '\n' && '_' !in c
    requires j < |s.definitions| && s.definitions[j].key == s.name + "__" + c
    requires lang in s.definitions[j].translations
    requires forall k :: 0 <= k <= j ==> s.definitions[k].iosComment.Some?
    ensures "                <key>" + c + "</key>\n" +
            "                <string>" + FormatValuePlural(s.definitions[j].translations[lang]) + "</string>\n"
            in PluralOutput(secs, s, lang).lines
  {
    FamilyWritesEntry(secs, s, lang, j);
    PluralKeyValueRoundTrip(s.name, c, FormatValuePlural(s.definitions[j].translations[lang]));
  }

  // ---------------------------------------------------------------------
  // Lemmas: the `.stringsdict` file and the diagnostics

  /** `first_plural` is false after `n` passes exactly when one of the
      first `n` sections is a plural family. */
  lemma {:induction false} PluralBeforeExists(secs: seq<Section>, n: nat)
    requires n <= |secs|
    ensures PluralBefore(secs, n) <==> exists j :: 0 <= j < n && !IsUncategorized(secs[j])
  {
    if n > 0 {
      PluralBeforeExists(secs, n - 1);
    }
  }

  /** Nothing is written before the first plural family; from then on the
      lines start with the header. */
  lemma {:induction false} PlistStartsWithHeader(main: seq<Section>, secs: seq<Section>, n: nat, lang: string)
    requires n <= |secs|
    ensures PlistUpTo(main, secs, n, lang) == [] <==> !PluralBefore(secs, n)
    ensures PluralBefore(secs, n) ==> PlistUpTo(main, secs, n, lang)[0] == HeaderStringsdict
  {
    if n > 0 {
      PlistStartsWithHeader(main, secs, n - 1, lang);
    }
  }

  /** The `.stringsdict` file ends with the footer, and starts with the
      header exactly when the table has a plural family. */
  lemma PlistShape(main: seq<Section>, secs: seq<Section>, lang: string)
    ensures PlistOutput(main, secs, lang)[|PlistOutput(main, secs, lang)| - 1] == FooterStringsdict
    ensures PlistOutput(main, secs, lang)[0] == HeaderStringsdict <==> exists j :: 0 <= j < |secs| && !IsUncategorized(secs[j])
  {
    PlistStartsWithHeader(main, secs, |secs|, lang);
    PluralBeforeExists(secs, |secs|);
    assert HeaderStringsdict[0] != FooterStringsdict[0];
  }

  /** A line that starts with a space is not the header, which starts
      with `<`. */
  lemma IndentedIsNotHeader(line: string)
    requires line != [] && line[0] == ' '
    ensures line != HeaderStringsdict
  {
    assert HeaderStringsdict[0] == '<';
  }

  /** No pass of `format_section_plural` writes the header. */
  lemma PassWritesNoHeader(name: string, d: Definition, i: nat, lang: string, contains: bool)
    requires d.iosComment.Some?
    ensures HeaderStringsdict !in DefinitionPluralLines(name, d, i, lang, contains)
  {
    IndentedIsNotHeader(FormatPluralStart(name, d.iosComment.value));
    var value := TranslationForLangOrNil(d, lang);
    if value.Some? {
      IndentedIsNotHeader(FormatPluralKeyValue(d.key, FormatValuePlural(value.value)));
    }
  }

  /** No line `format_section_plural` writes is the header. */
  lemma FamilyWritesNoHeader(main: seq<Section>, s: Section, lang: string)
    ensures HeaderStringsdict !in PluralOutput(main, s, lang).lines
  {
    var n := match FirstMissingFormat(s.definitions) case Some(i) => i case None => |s.definitions|;
    var parts := PassLines(s, n, lang, MainContainsKey(main, s.name));
    forall j | 0 <= j < n ensures HeaderStringsdict !in parts[j] {
      PassWritesNoHeader(s.name, s.definitions[j], j, lang, MainContainsKey(main, s.name));
    }
    ConcatAvoids(parts, HeaderStringsdict);
    IndentedIsNotHeader(PluralSectionEnd);
  }

  /** Past its first line, no line written for the first `n` sections is
      the header. */
  lemma {:induction false} HeaderOnlyFirst(main: seq<Section>, secs: seq<Section>, n: nat, lang: string)
    requires n <= |secs|
    ensures PlistUpTo(main, secs, n, lang) == [] || HeaderStringsdict !in PlistUpTo(main, secs, n, lang)[1..]
  {
    if n > 0 {
      HeaderOnlyFirst(main, secs, n - 1, lang);
      if !IsUncategorized(secs[n - 1]) {
        var before := PlistUpTo(main, secs, n - 1, lang);
        var head: seq<string> := if PluralBefore(secs, n - 1) then [] else [HeaderStringsdict];
        if PluralBefore(secs, n - 1) {
          assert before + head == before;
        } else {
          PlistStartsWithHeader(main, secs, n - 1, lang);
          assert before + head == [HeaderStringsdict];
        }
        FamilyWritesNoHeader(main, secs[n - 1], lang);
        TailAvoids(before + head, PluralOutput(main, secs[n - 1], lang).lines, HeaderStringsdict);
      }
    }
  }

  /** A line missing from both parts past the first line of the first is
      missing past the first line of the whole. */
  lemma TailAvoids(a: seq<string>, b: seq<string>, x: string)
    requires a == [] || x !in a[1..]
    requires x !in b
    ensures a + b == [] || x !in (a + b)[1..]
  {
    if a == [] {
      assert a + b == b;
    } else {
      assert (a + b)[1..] == a[1..] + b;
    }
  }

  /** `format_sections` writes the header at most once: no line of the
      `.stringsdict` file past the first is the header. */
  lemma HeaderWrittenOnce(main: seq<Section>, secs: seq<Section>, lang: string)
    ensures forall k :: 0 < k < |PlistOutput(main, secs, lang)| ==> PlistOutput(main, secs, lang)[k] != HeaderStringsdict
  {
    var body := PlistUpTo(main, secs, |secs|, lang);
    HeaderOnlyFirst(main, secs, |secs|, lang);
    IndentedIsNotHeader(FooterStringsdict);
    forall k | 0 < k < |body| + 1 ensures (body + [FooterStringsdict])[k] != HeaderStringsdict {
      if k < |body| {
        assert (body + [FooterStringsdict])[k] == body[1..][k - 1];
      }
    }
  }

  /** A plural family with a definition without an ios comment, which
      stops `format_section_plural`. */
  predicate StopsEarly(s: Section) {
    !IsUncategorized(s) && FirstMissingFormat(s.definitions).Some?
  }

  /** A family prints exactly when it stops at a definition without an
      ios comment. */
  lemma PrintsIffMissing(secs: seq<Section>, s: Section, lang: string)
    ensures PluralOutput(secs, s, lang).diagnostics == [] <==> FirstMissingFormat(s.definitions).None?
  {
  }

  /** What the pass for section `n` prints comes after what the passes
      before printed. */
  lemma DiagnosticsGrow(main: seq<Section>, secs: seq<Section>, n: nat, lang: string)
    requires n < |secs|
    ensures DiagnosticsUpTo(main, secs, n + 1, lang) ==
      DiagnosticsUpTo(main, secs, n, lang) + if IsUncategorized(secs[n]) then [] else PluralOutput(main, secs[n], lang).diagnostics
  {
  }

  /** Nothing is printed when no plural family among the first `n`
      sections has a definition without an ios comment. */
  lemma {:induction false} NothingPrinted(main: seq<Section>, secs: seq<Section>, n: nat, lang: string)
    requires n <= |secs|
    requires forall j :: 0 <= j < n ==> !StopsEarly(secs[j])
    ensures DiagnosticsUpTo(main, secs, n, lang) == []
  {
    if n > 0 {
      NothingPrinted(main, secs, n - 1, lang);
      DiagnosticsGrow(main, secs, n - 1, lang);
      PrintsIffMissing(main, secs[n - 1], lang);
    }
  }

  /** A plural family with a definition without an ios comment is named,
      in brackets, among the diagnostics. */
  lemma {:induction false} StopPrinted(main: seq<Section>, secs: seq<Section>, n: nat, lang: string, j: nat)
    requires j < n <= |secs| && StopsEarly(secs[j])
    ensures "[" + secs[j].name + "]" in DiagnosticsUpTo(main, secs, n, lang)
  {
    var x := "[" + secs[j].name + "]";
    var prev := DiagnosticsUpTo(main, secs, n - 1, lang);
    var more := if IsUncategorized(secs[n - 1]) then [] else PluralOutput(main, secs[n - 1], lang).diagnostics;
    DiagnosticsGrow(main, secs, n - 1, lang);
    if j < n - 1 {
      StopPrinted(main, secs, n - 1, lang, j);
      assert x in prev;
    } else {
      StopNamed(main, secs[j], lang);
      assert x in more;
    }
    InConcat(prev, more, x);
  }

  /** A family that stops early prints its name in brackets. */
  lemma StopNamed(secs: seq<Section>, s: Section, lang: string)
    requires StopsEarly(s)
    ensures "[" + s.name + "]" in PluralOutput(secs, s, lang).diagnostics
  {
    var printed := PluralOutput(secs, s, lang).diagnostics;
    assert printed == MissingFormatDiagnostics(s.name, MainContainsKey(secs, s.name));
    assert printed[0] == "[" + s.name + "]";
  }

  /** A line of either part is a line of the whole. */
  lemma InConcat(a: seq<string>, b: seq<string>, x: string)
    requires x in a || x in b
    ensures x in a + b
  {
  }
}
