# Twine's Apple formatter in Dafny

Twine keeps an app's translations in one table of sections and definitions. Each definition has:

- a key;
- a translation per language;
- an optional comment;
- an optional "ios comment", which is the format string of a plural family such as `%#@items@`.

The Apple formatter (`lib/twine/formatters/apple.rb`) converts between that table and Apple's two localisation files:

- `Localizable.strings`: flat `"key" = "value";` lines, each preceded by a `/* comment */` line;
- `Localizable.stringsdict`: a plist with one dictionary per plural family.

This project models that formatter. The modules follow the parts of the formatter:

| module | file | what it holds |
|---|---|---|
| `RubyString` | `ruby_string.dfy` | The Ruby string operations the formatter calls: `include?`, `gsub` and `sub` with literal patterns, `split` of one character (trailing empty fields dropped), `join`. Also their lemmas. |
| `AppleText` | `apple_text.dfy` | The escaping functions and the text builders: `format_key`, `format_value`, `format_value_plural`, `format_comment`, `key_value_pattern`, `format_section_header`, `format_plural_start` with its `split("@")[1]`, and `format_plural_key_value` with its `rpartition(/.__/)`. |
| `StringsGrammar` | `strings_grammar.dfy` | Two hand-written scanners for the reader's two regular expressions: the key/value pattern at line 67 and the comment pattern at line 82. Also the lemmas showing that a line the writer builds from an escaped key and value (one in which every backslash starts a pair, `IsEscapedText`) is read back, which holds in particular for keys and values without backslashes. |
| `ApplePaths` | `apple_paths.dfy` | `can_handle_file?`, `determine_language_given_path`, `output_path_for_language`, and `plural_input_file_for_lang` / `plural_output_file_for_lang`. |
| `TwineData` | `twine_data.dfy` | The table. Definitions and sections are values. The table itself is a `TwineFile` class whose `sections` field the reader updates in place. Also holds the store operations the formatter calls on the table, and the section bookkeeping. |
| `AppleReader` | `apple_reader.dfy` | `read`. |
| `AppleWriter` | `apple_writer.dfy` | `format_sections`, `format_section`, `format_section_plural` and `main_localizable_file_contains_key`. |

### Reading: `AppleReader.Read`

`AppleReader.Read` is a method on a `TwineFile`. It takes the `.strings` file as a sequence of lines and the already decoded `.stringsdict` families as a sequence of `Family` values. It proceeds in three steps:

1. Find or create the `Uncategorized` section (`EnterUncategorized`).
2. Loop over the lines (`ReadLines`, `StoreLine`). The pending comment is an explicit loop variable.
3. Loop over the families (`ReadFamilies`, `ReadFamily`, `EnterFamilySection`, `StoreCategory`).

Each method is proved against a function on the old table:

- `ReadResult`, `ApplyLines` and `ApplyFamilies` for the whole read and the two loops;
- `EnsureUncategorized` and `EnsurePluralSection` for the section bookkeeping.

The lemmas are stated about those functions.

### Writing: `AppleWriter.FormatSections`

`AppleWriter.FormatSections` fills an `array` of section texts by index, as the source does. It streams the plural families to the plist output, which is modelled as a sequence of lines, and collects the console diagnostics as a second sequence. `FormatSectionPlural` is the early-exit loop of `format_section_plural`. Both methods are proved against specification functions:

- `StringsText`, `PlistOutput` and `DiagnosticsUpTo` for `FormatSections`;
- `PluralOutput` for `FormatSectionPlural`.

### Behaviours worth knowing

The model follows the code, and these behaviours of the code are easy to miss:

- **Comment placement.** A `/* comment */` is attached to the key/value pair on the next line, not to a pair on the same line. The comment pattern updates the pending comment only after the pair has been stored (lines 77-87).
- **Family with a missing format string.** It is not skipped as a whole. The definitions before the first one without an ios comment are still written. Then the diagnostics are printed, and the family's dictionary is left unclosed (lines 204-218).
- **Closing a family's dictionary.** It is closed whenever the family name is a key of the main section, even when no category was written (lines 229-230).
- **Diagnostics.** An orphaned family whose definitions all have an ios comment prints nothing. A family with a definition lacking one prints two lines: its name in brackets, then a reason (lines 209-216).
- **Key check against the formatter's own table.** `format_sections` walks the sections of its `twine_file` argument (lines 159-165), but `format_section_plural` and `main_localizable_file_contains_key` look the family name up in the formatter's `@twine_file` (lines 202, 235). `AppleWriter.FormatSections` takes the two tables as separate arguments.
- **Insertion point of a new family section.** It goes in front of the last section. With `Uncategorized` as the only section, the family therefore lands before it (line 116; see `TwineData.PluralSectionBeforeLoneUncategorized`).

### Definitions and the members that state them

The definitions that only compute carry no contract of their own. What they mean is stated by the lemmas and methods listed beside them, which have rows in the "Model" table below:

| definition | source | stated by |
|---|---|---|
| `ApplePaths.CanHandleFile` | 18-22 | `ApplePaths.CanHandleFileName` |
| `ApplePaths.DetermineLanguageGivenPath` | 32-46 | `ApplePaths.FindLanguageFirstMatch`, `ApplePaths.FindLanguageNone`, `ApplePaths.LanguageDirectoryRoundTrip` |
| `ApplePaths.OutputPathForLanguage` | 48-54 | `ApplePaths.LanguageDirectoryShape` |
| `ApplePaths.PluralFileForLang` | 133-157 | `ApplePaths.PluralFileNamed`, `ApplePaths.PluralFileLanguage` |
| `AppleText.FormatKey`, `StringsGrammar.ReadKey`, `StringsGrammar.StripQuotes` | 71-73, 311-313 | `AppleText.UnescapeEscape`, `StringsGrammar.CapturesRoundTrip`, `StringsGrammar.WrittenLineReadsBack` |
| `AppleText.FormatValue` | 315-318 | `AppleText.FormatValueNoBold` |
| `AppleText.FormatValuePlural` | 320-323 | `AppleText.FormatValuePluralEscaped` |
| `AppleText.FormatSectionHeader` | 299-301 | `StringsGrammar.SectionHeaderIgnored` |
| `AppleText.KeyValueLine` | 303-305 | `StringsGrammar.KeyValueLineMatches` |
| `AppleText.FormatPluralStart`, `AppleText.InnerKey` | 258-272 | `AppleText.InnerKeyHasNoAt`, `AppleText.InnerKeyBetweenAts`, `AppleText.PluralStartInnerKey` |
| `AppleText.FormatPluralKeyValue`, `AppleText.CategoryOf` | 274-285 | `AppleText.CategoryOfSynthesizedKey`, `AppleText.PluralKeyValueRoundTrip` |
| `StringsGrammar.ParseLine`, `StringsGrammar.ReadValue` | 67-75 | `StringsGrammar.WrittenLineReadsBack`, `StringsGrammar.NoEqualsNoMatch` |
| `TwineData.SetTranslationForKey` | 76 | `TwineData.SetTranslationEffect`, `TwineData.SetTranslationKeepsOtherLanguages` |
| `TwineData.EnsureUncategorized` | 57-63 | `TwineData.EnsureUncategorizedEffect` |
| `TwineData.EnsurePluralSection`, `TwineData.InsertBeforeLast` | 113-119 | `TwineData.EnsurePluralSectionEffect`, `TwineData.InsertBeforeLastShape` |
| `AppleReader.CommentBefore` | 77-87 | `AppleReader.CommentFromLineBefore` |
| `AppleReader.ApplyLines` | 64-88 | `AppleReader.ReadLines`, `AppleReader.LastLineWins`, `AppleReader.LinesKeepOtherLanguages` |
| `AppleReader.ApplyFamily`, `AppleReader.ApplyFamilies` | 104-130 | `AppleReader.ReadFamilies`, `AppleReader.FamilyDefines`, `AppleReader.FamilyKeepsOthers`, `AppleReader.FamiliesKeepOtherLanguages` |
| `AppleReader.ReadResult` | 56-131 | `AppleReader.Read`, `AppleReader.ReadKeepsOtherLanguages` |
| `AppleWriter.MainContainsKey` | 234-247 | `AppleWriter.MainContainsKeyFirst` |
| `AppleWriter.PluralOutput` | 200-232 | `AppleWriter.FormatSectionPlural`, `AppleWriter.PluralDiagnostics`, `AppleWriter.CompleteFamilyClosed`, `AppleWriter.IncompleteFamilyLeftOpen` |
| `AppleWriter.SectionTexts`, `AppleWriter.StringsText` | 163-178 | `AppleWriter.FormatSections`, `AppleWriter.StringsTextHolds`, `AppleWriter.SectionTextsRemoveAt` |
| `AppleWriter.PlistOutput` | 160-176 | `AppleWriter.FormatSections`, `AppleWriter.PlistShape`, `AppleWriter.HeaderWrittenOnce` |
| `RubyString.Replace`, `RubyString.Sub` | 137, 308-323 | `RubyString.ReplaceAbsent`, `RubyString.ReplaceRemovesPair`, `RubyString.ReplaceChars`, `RubyString.SubSplices` |
| `RubyString.Join` | 178 | `RubyString.JoinContains`, `RubyString.FieldsJoin` |

Line numbers in the second column are those of `lib/twine/formatters/apple.rb`.

## Model

| member | source | states |
|---|---|---|
| RubyString.Split | lib/twine/formatters/apple.rb:259 | Ruby's `split` never ends with an empty field. |
| RubyString.DropTrailingEmpty | lib/twine/formatters/apple.rb:259 | The kept fields are a prefix of all fields. They end in a non-empty field, and every dropped field is empty. |
| RubyString.SplitExcludesSep | lib/twine/formatters/apple.rb:259 | No part of a split holds the separator. |
| RubyString.FieldsJoin | lib/twine/formatters/apple.rb:19 | Joining the fields of a path with the separator gives back the path. |
| RubyString.FieldsConcat | lib/twine/formatters/apple.rb:33 | The fields of `u + "/" + v` are the fields of `u` followed by those of `v`. |
| RubyString.ReplaceAbsent | lib/twine/formatters/apple.rb:317 | `gsub` leaves a string without the pattern unchanged. |
| RubyString.ReplaceRemovesPair | lib/twine/formatters/apple.rb:322 | After `gsub("b>", r)`, where `r` cannot recreate a `b>`, no `b>` remains. |
| RubyString.ReplaceCharKeepsNoPair | lib/twine/formatters/apple.rb:322 | `gsub("<", "&lt;")` does not create a `b>` in a string that had none. |
| RubyString.ReplaceRemovesChar | lib/twine/formatters/apple.rb:322 | After `gsub("<", "&lt;")` no `<` remains. |
| RubyString.ReplaceChars | lib/twine/formatters/apple.rb:308 | `gsub` brings in only characters of its input or of its replacement. |
| RubyString.SubSplices | lib/twine/formatters/apple.rb:137 | `sub` with a pattern that occurs replaces its leftmost occurrence, in place, and nothing else. |
| RubyString.JoinContains | lib/twine/formatters/apple.rb:178 | Every joined part occurs in the joined text. |
| AppleText.FormatComment | lib/twine/formatters/apple.rb:307-309 | A comment line is written exactly when the definition has a comment. |
| AppleText.EscapeCommentTextNoCloser | lib/twine/formatters/apple.rb:308 | The escaped comment text holds no `*/`, so it cannot close the comment early. |
| AppleText.CommentTextUnchanged | lib/twine/formatters/apple.rb:308 | A comment without `*/` is written as it is. |
| AppleText.FormatValueNoBold | lib/twine/formatters/apple.rb:315-318 | `format_value` output holds no `b>`. |
| AppleText.FormatValuePluralEscaped | lib/twine/formatters/apple.rb:320-323 | `format_value_plural` output holds no `<` and no `b>`. |
| AppleText.UnescapeEscape | lib/twine/formatters/apple.rb:311-313 | Unescaping what `format_key` escaped gives back the key. |
| AppleText.InnerKeyHasNoAt | lib/twine/formatters/apple.rb:259-266 | The inner dictionary key taken from the format string holds no `@`. |
| AppleText.InnerKeyBetweenAts | lib/twine/formatters/apple.rb:259-266 | The inner key is exactly the text between the first and second `@`. |
| AppleText.PluralStartInnerKey | lib/twine/formatters/apple.rb:258-272 | A family with format string `%#@v@` gets the inner dictionary `<key>v</key>`. |
| AppleText.LastSeparatorFrom | lib/twine/formatters/apple.rb:275 | Finds the rightmost match of `/.__/` at or below a position, or reports that there is none. |
| AppleText.CategoryOfSynthesizedKey | lib/twine/formatters/apple.rb:275-277 | For a family `f` and a category `c` without `_`, the text after the last `/.__/` match of `f__c` is `c`. |
| AppleText.PluralKeyValueRoundTrip | lib/twine/formatters/apple.rb:274-278 | The plist entry for a synthesized key `f__c` is `<key>c</key>` followed by the string. |
| StringsGrammar.SpaceRun | lib/twine/formatters/apple.rb:67 | `\s*` takes the longest run of whitespace. |
| StringsGrammar.BareKeyRun | lib/twine/formatters/apple.rb:67 | An unquoted key takes the longest run of `[^"\s=]`. |
| StringsGrammar.EscapedRun | lib/twine/formatters/apple.rb:67 | The quoted body `(?:[^"\\]\|\\.)*` stops only at a quote or at a final or newline-escaping backslash. |
| StringsGrammar.KeyTokenShape | lib/twine/formatters/apple.rb:67 | A matched key is a quoted body of at least one token, or a non-empty bare key. |
| StringsGrammar.MatchValuePart | lib/twine/formatters/apple.rb:67 | The captured value consists entirely of escaped-body tokens and stands between the quotes that follow `=`, with only whitespace around the `=`. |
| StringsGrammar.MatchKeyValue | lib/twine/formatters/apple.rb:67 | A match captures a well-formed key token after the leading whitespace and a well-formed value between the quotes that follow `=`, with only whitespace between the key, the `=` and the opening quote. |
| StringsGrammar.NoEqualsNoMatch | lib/twine/formatters/apple.rb:67 | A line without `=` is never a key/value line. |
| StringsGrammar.CapturesRoundTrip | lib/twine/formatters/apple.rb:67-73 | Escaping the key and value the reader records gives back the key between its quotes and the captured value. |
| StringsGrammar.EscapeUnescapeRun | lib/twine/formatters/apple.rb:71-73 | For a captured value, escaping after unescaping is the identity. |
| StringsGrammar.EscapeKeepsNoBold | lib/twine/formatters/apple.rb:315-317 | Escaping quotes creates no `b>`. |
| StringsGrammar.ValuePartMatches | lib/twine/formatters/apple.rb:303-305 | The text after the key in a written line matches the value part and captures the escaped value. |
| StringsGrammar.KeyValueLineMatches | lib/twine/formatters/apple.rb:303-305 | A line the writer builds from a non-empty escaped key and an escaped value (`IsEscapedText`: every backslash starts a pair) matches the reader's pattern, with the quoted key and the value as captures. |
| StringsGrammar.WrittenLineReadsBack | lib/twine/formatters/apple.rb:67-75 | A line written for a non-empty key `k` and a value `v`, neither holding a backslash and `v` holding no `b>`, is read back as `k` and `v` with `%s` and `$s` rewritten. |
| StringsGrammar.LineEnd | lib/twine/formatters/apple.rb:82 | The end of the first line of the text: the comment pattern's `.` does not cross a newline. |
| StringsGrammar.LastCloserFrom | lib/twine/formatters/apple.rb:82 | Finds the rightmost ` */` at or below a position, which is where the greedy capture ends. |
| StringsGrammar.MatchComment | lib/twine/formatters/apple.rb:82 | A captured comment holds no newline. |
| StringsGrammar.MatchCommentAt | lib/twine/formatters/apple.rb:82 | A capture at a given start holds no newline. |
| StringsGrammar.MatchCommentFound | lib/twine/formatters/apple.rb:82-84 | The captured text occurs in the line between `/* ` and ` */`. |
| StringsGrammar.WrittenCommentReadsBack | lib/twine/formatters/apple.rb:82-84 | A written comment line is read back as the escaped comment text. |
| StringsGrammar.CommentReadsBack | lib/twine/formatters/apple.rb:82-84 | A comment without `*/` or newline is read back unchanged. |
| StringsGrammar.SectionHeaderIgnored | lib/twine/formatters/apple.rb:299-301 | A section header line, for a name without `/` or `=`, is neither a comment nor a key/value pair to the reader. |
| StringsGrammar.NoSlashNoComment | lib/twine/formatters/apple.rb:82 | A line without `/`, a blank line among them, holds no comment. |
| ApplePaths.CanHandleFileName | lib/twine/formatters/apple.rb:18-22 | A path is handled exactly when its last element is `Localizable.strings` or `Localizable.stringsdict`. |
| ApplePaths.SplitSingle | lib/twine/formatters/apple.rb:19 | A path element without `/` splits into itself. |
| ApplePaths.FindLanguageFirstMatch | lib/twine/formatters/apple.rb:32-43 | The language is that of the first `X.lproj` segment, with `Base` read as `en`. |
| ApplePaths.FindLanguageNone | lib/twine/formatters/apple.rb:32-46 | No language is found exactly when no segment is an `.lproj` directory. |
| ApplePaths.FindLanguageAppend | lib/twine/formatters/apple.rb:34-43 | Segments without an `.lproj` directory in front do not change the answer. |
| ApplePaths.LanguageDirectoryShape | lib/twine/formatters/apple.rb:48-54 | The directory of a language is a single `.lproj` segment. Its name is `Base` for `en` and the language otherwise. |
| ApplePaths.LanguageDirectoryRoundTrip | lib/twine/formatters/apple.rb:32-54 | The language found in a language's own directory is that language. |
| ApplePaths.PluralFileNamed | lib/twine/formatters/apple.rb:133-157 | The plural file path always contains `Localizable.stringsdict`. |
| ApplePaths.PluralFileLanguage | lib/twine/formatters/apple.rb:133-144 | The language found in a plural file path derived from a plain root is the language it was derived for. |
| TwineData.Find | lib/twine/formatters/apple.rb:76 | The key lookup the store performs: the first definition with the key (no earlier one has it), or none exactly when no definition has it. |
| TwineData.SectionIndex | lib/twine/formatters/apple.rb:114-118 | `section_exists` and `get_section`: the first section with the name, or none exactly when no section has it. |
| TwineData.SetTranslationEffect | lib/twine/formatters/apple.rb:76 | `set_translation_for_key` sets the key's translation for the language and keeps its other fields. A new key is created with only that translation. Every other key and every section name is unchanged. |
| TwineData.SetTranslationKeepsOtherLanguages | lib/twine/formatters/apple.rb:76 | Setting one language's translation never changes another language's. |
| TwineData.LookupAfterEdit | lib/twine/formatters/apple.rb:78 | `set_comment_for_key` changes only the definition the key names, and only as the edit says. |
| TwineData.LookupAfterAppend | lib/twine/formatters/apple.rb:76 | A definition appended for a new key is what that key names afterwards. Every other key is unchanged. |
| TwineData.EnsureUncategorizedEffect | lib/twine/formatters/apple.rb:57-63 | `Uncategorized` is inserted at index 0 only when missing, and otherwise the existing section is reused. Definitions and unique names are kept. |
| TwineData.InsertBeforeLastShape | lib/twine/formatters/apple.rb:116 | The new, empty section sits at index `size-1`, the old last section stays last, and the others keep their order. |
| TwineData.EnsurePluralSectionEffect | lib/twine/formatters/apple.rb:113-119 | A family section is inserted only when missing, at index `size-1` (index 0 in an empty table), and otherwise reused. Removing it gives back the old table. Unique names are kept. |
| TwineData.PluralSectionBeforeLoneUncategorized | lib/twine/formatters/apple.rb:116 | With `Uncategorized` the only section, a new family lands in front of it. |
| AppleReader.ApplyEntry | lib/twine/formatters/apple.rb:76-79 | Storing an entry keeps the number of sections. |
| AppleReader.EnterUncategorized | lib/twine/formatters/apple.rb:57-63 | The table after `section_exists`/`insert(0, ...)`, and the index of `Uncategorized`. |
| AppleReader.ReadLines | lib/twine/formatters/apple.rb:64-88 | The `while line = io.gets` loop leaves the table the line fold describes. |
| AppleReader.StoreLine | lib/twine/formatters/apple.rb:67-80 | One line's pair is stored with the comment of the line before it. |
| AppleReader.ReadFamilies | lib/twine/formatters/apple.rb:104-130 | The loop over the families leaves the table the family fold describes. |
| AppleReader.ReadFamily | lib/twine/formatters/apple.rb:104-129 | One family's section is found or inserted, then its pairs are stored. |
| AppleReader.EnterFamilySection | lib/twine/formatters/apple.rb:113-119 | The table after `section_exists`/`insert(size - 1, ...)`, and the family's section index. |
| AppleReader.StoreCategory | lib/twine/formatters/apple.rb:122-128 | One pair is stored unless its key holds `NSString`. |
| AppleReader.Read | lib/twine/formatters/apple.rb:56-131 | `read` leaves the table `ReadResult` describes. |
| AppleReader.ApplyEntryEffect | lib/twine/formatters/apple.rb:76-79 | A pair sets its key's translation for the language. It sets the comment only when one is pending, keeps the ios comment, and leaves every other key alone. |
| AppleReader.LastEntryWins | lib/twine/formatters/apple.rb:65-80 | When a key occurs on several lines, the last line's value is the translation. |
| AppleReader.LastLineWins | lib/twine/formatters/apple.rb:64-88 | The same for the lines of a file. |
| AppleReader.EntryAfterBlankLine | lib/twine/formatters/apple.rb:65-80 | A line without a pair stores nothing: a file of such a line and a pair stores just the pair. |
| AppleReader.CommentFromLineBefore | lib/twine/formatters/apple.rb:77-87 | A pair carries a comment exactly when the line before it matches the comment pattern, and the comment is what that line holds between `/* ` and ` */`. A comment on the same line or further up is never attached. |
| AppleReader.NoCommentAfterPlainLine | lib/twine/formatters/apple.rb:82-87 | A line without `/` in front of a pair, a blank line for one, leaves the pair without a comment. |
| AppleReader.CommentLineNoEntry | lib/twine/formatters/apple.rb:67 | A written comment line without `=` adds no entry. |
| AppleReader.DefinitionReadsBack | lib/twine/formatters/apple.rb:77-87 | A comment line followed by a key/value line gives one entry: the key, the rewritten value, and the comment. |
| AppleReader.DefinitionRecorded | lib/twine/formatters/apple.rb:56-88 | Reading those two lines records the definition with the translation and the comment. |
| AppleReader.SynthesizedKeyInjective | lib/twine/formatters/apple.rb:124 | Different categories of one family get different keys. |
| AppleReader.CategoryDefines | lib/twine/formatters/apple.rb:123-127 | A pair without `NSString` defines `family__key` with its text for the language and the family's format string as ios comment. |
| AppleReader.CategoryKeepsOthers | lib/twine/formatters/apple.rb:123-127 | A pair changes no other key. A `NSString` pair changes nothing. |
| AppleReader.ApplyCategories | lib/twine/formatters/apple.rb:121-129 | Storing the pairs keeps the number of sections. |
| AppleReader.ApplyCategoriesDefines | lib/twine/formatters/apple.rb:121-129 | Every non-`NSString` pair is stored under `family__key` with its text and the format string. |
| AppleReader.ApplyCategoriesOthers | lib/twine/formatters/apple.rb:121-129 | Keys that no kept pair maps to are untouched. |
| AppleReader.NamesOfCategories | lib/twine/formatters/apple.rb:121-129 | Storing pairs never renames, adds or removes a section. |
| AppleReader.FamilySection | lib/twine/formatters/apple.rb:113-119 | Every decoded family has a section of its name. |
| AppleReader.FamilyKeepsOthers | lib/twine/formatters/apple.rb:104-129 | A family changes no key outside its own synthesized keys. |
| AppleReader.FamilyDefines | lib/twine/formatters/apple.rb:104-129 | A family defines each non-`NSString` category's key with its text and the format string. |
| AppleReader.OneOtherFamily | lib/twine/formatters/apple.rb:104-129 | Categories `one`/`other` with format `%#@items@` give `family__one` and `family__other`, both with ios comment `%#@items@`. |
| AppleReader.LinesKeepOtherLanguages | lib/twine/formatters/apple.rb:64-88 | The line loop keeps every other language's translations and the section names. |
| AppleReader.CategoriesKeepOtherLanguages | lib/twine/formatters/apple.rb:121-129 | The pair loop keeps every other language's translations. |
| AppleReader.FamiliesKeepOtherLanguages | lib/twine/formatters/apple.rb:104-130 | The family loop keeps other languages' translations and never duplicates a section name. |
| AppleReader.ReadKeepsOtherLanguages | lib/twine/formatters/apple.rb:56-131 | `read` of one language keeps every other language's translations and never duplicates a section name. |
| AppleWriter.TranslationForLangOrNil | lib/twine/formatters/apple.rb:206 | The translation for the language, or nil exactly when there is none. |
| AppleWriter.Included | lib/twine/formatters/apple.rb:182 | `select` keeps exactly the included definitions. |
| AppleWriter.FormatSection | lib/twine/formatters/apple.rb:181-198 | A text is returned exactly when the section is `Uncategorized` and has an included definition. A family section or an unnamed section yields nil. |
| AppleWriter.DefinitionBlockContains | lib/twine/formatters/apple.rb:192-195 | Every formatted definition occurs, after a newline, in the section's block. |
| AppleWriter.UncategorizedSectionHolds | lib/twine/formatters/apple.rb:187-196 | The `Uncategorized` text holds every included definition. |
| AppleWriter.DefinitionHoldsLine | lib/twine/formatters/apple.rb:192 | A formatted definition holds its `"key" = "value";` line. |
| AppleWriter.StringsTextHoldsSection | lib/twine/formatters/apple.rb:178 | Every stored section text occurs in the returned `.strings` text. |
| AppleWriter.StringsTextHolds | lib/twine/formatters/apple.rb:159-198 | The `.strings` text holds each translated `Uncategorized` definition and its key/value line. |
| AppleWriter.CompactKeeps | lib/twine/formatters/apple.rb:178 | `compact` keeps exactly the non-nil texts. |
| AppleWriter.CompactConcat | lib/twine/formatters/apple.rb:178 | `compact` distributes over concatenation. |
| AppleWriter.CompactDropsNone | lib/twine/formatters/apple.rb:178 | A nil entry contributes nothing. |
| AppleWriter.SectionTextsRemoveAt | lib/twine/formatters/apple.rb:163-167 | Removing a section removes exactly its stored entry. |
| AppleWriter.StringsTextSkipsFamilies | lib/twine/formatters/apple.rb:164-178 | A plural family contributes nothing to `Localizable.strings`. |
| AppleWriter.FirstUncategorized | lib/twine/formatters/apple.rb:235-236 | The first uncategorized section, or none exactly when there is none. |
| AppleWriter.MainContainsKeyFirst | lib/twine/formatters/apple.rb:234-247 | The key is found exactly when the first uncategorized section has a definition with it. Later sections are never searched. |
| AppleWriter.FirstMissingFormat | lib/twine/formatters/apple.rb:209 | The first definition without an ios comment, or none exactly when all have one. |
| AppleWriter.FirstMissingFormatAt | lib/twine/formatters/apple.rb:204-218 | The definition at which the loop stops is the first without an ios comment. |
| AppleWriter.WritePluralPass | lib/twine/formatters/apple.rb:220-226 | One pass writes the family's opening on the first definition, and then the category's entry. Both are written only when the key exists. |
| AppleWriter.ReportMissingFormat | lib/twine/formatters/apple.rb:210-216 | The two printed lines: the name in brackets, and which of the two reasons applies. |
| AppleWriter.FormatSectionPlural | lib/twine/formatters/apple.rb:200-232 | The loop's written lines and printed diagnostics are those `PluralOutput` describes. |
| AppleWriter.PassesStep | lib/twine/formatters/apple.rb:204-227 | Each pass appends its lines after those of the passes before. |
| AppleWriter.OrphanPassesWriteNothing | lib/twine/formatters/apple.rb:220-226 | Without the key, no pass writes anything. |
| AppleWriter.OrphanFamilyWritesNothing | lib/twine/formatters/apple.rb:202-231 | A family whose name is not a key of the main section writes no line. |
| AppleWriter.PluralDiagnostics | lib/twine/formatters/apple.rb:209-217 | A family prints exactly when a definition lacks an ios comment. It then prints two lines, the first its name in brackets. |
| AppleWriter.StopNamed | lib/twine/formatters/apple.rb:210 | A family that stops early prints its name in brackets. |
| AppleWriter.PassWritesNoEnd | lib/twine/formatters/apple.rb:220-226 | No pass writes the closing text. |
| AppleWriter.PassesWriteNoEnd | lib/twine/formatters/apple.rb:204-227 | The passes together never write the closing text. |
| AppleWriter.IncompleteFamilyLeftOpen | lib/twine/formatters/apple.rb:209-217 | A family with a definition lacking an ios comment is never closed. |
| AppleWriter.PassesOpenFamily | lib/twine/formatters/apple.rb:220-222 | With the key, the first line is the opening built from the first definition's format string. |
| AppleWriter.CompleteFamilyClosed | lib/twine/formatters/apple.rb:200-232 | With the key and all ios comments present, nothing is printed. The last line closes the family, and the first is the opening when there are definitions. |
| AppleWriter.FamilyWritesEntry | lib/twine/formatters/apple.rb:224-226 | With the key, every translated definition reached by the loop has its entry written. |
| AppleWriter.SynthesizedCategoryWritten | lib/twine/formatters/apple.rb:224-226 | A definition read as `family__c` is written back as `<key>c</key>` with its escaped text. |
| AppleWriter.WritePluralSection | lib/twine/formatters/apple.rb:169-173 | The method form of that pass keeps the loop's invariant. |
| AppleWriter.StoreSectionText | lib/twine/formatters/apple.rb:166-167 | The uncategorized section's text is stored at its index. |
| AppleWriter.FormatSections | lib/twine/formatters/apple.rb:159-179 | The returned text, the plist lines and the diagnostics are `StringsText`, `PlistOutput` and `DiagnosticsUpTo`, with the key check made against the formatter's own table, not the sections being walked. |
| AppleWriter.PluralBeforeExists | lib/twine/formatters/apple.rb:160-172 | `first_plural` is false exactly when a family came before. |
| AppleWriter.PlistStartsWithHeader | lib/twine/formatters/apple.rb:169-172 | Nothing is written before the first family, and from then on the header comes first. |
| AppleWriter.HeaderWrittenOnce | lib/twine/formatters/apple.rb:160-176 | No line of the `.stringsdict` output past the first is the header: the header is written at most once. |
| AppleWriter.FamilyWritesNoHeader | lib/twine/formatters/apple.rb:200-232 | No line `format_section_plural` writes is the header. |
| AppleWriter.PlistShape | lib/twine/formatters/apple.rb:169-176 | The footer is always last. The header is first exactly when the table has a plural family. |
| AppleWriter.NothingPrinted | lib/twine/formatters/apple.rb:164-175 | Nothing is printed when no family stops early. |
| AppleWriter.StopPrinted | lib/twine/formatters/apple.rb:164-175 | Every family that stops early is named in the diagnostics. |

## Left out

- **Nokogiri.** The XML decoding at lines 95-111 is not modelled. Families arrive already decoded as `Family(name, format, categories)`. The format is the family's first `<string>`, and the categories are the `<key>`/`<string>` pairs of the rule dictionary. `can_handle_directory?` (line 15) lists a directory and is not modelled.
- **I/O.** The following are parameters or outputs, not effects:
  - `io.gets`: the `.strings` file is a sequence of lines;
  - `File.file?` on the plural input file: an absent file is an empty family list;
  - `File.open`, `out_file.puts`, `close`: the plist is a sequence of written texts, each without the newline `puts` adds;
  - `puts` diagnostics: a sequence of printed lines.
- **Lines holding a newline.** Lines are taken as `io.gets` returns them. The key/value pattern is tried at the start of a line only, which is where `^` can match in such a line.
- **Abstract base class.** The helpers of the formatter's base class and of the table classes are not part of this model. They are given minimal stand-ins whose internals are not claimed:
  - `set_translation_for_key`;
  - `set_comment_for_key`: always sets the comment, without the option that gates it;
  - `set_ios_comment_for_key`;
  - `section_exists` and `get_section`;
  - `should_include_definition`: the definition has a translation for the language;
  - `format_definition`: an optional comment line, then the key/value line;
  - `escape_quotes`: `"` becomes `\"`;
  - `translation_for_lang_or_nil`: its fallback-language argument `language_codes[0]` is dropped, and only the language's own translation is used;
  - `is_uncategorized`: the name is `Uncategorized` or empty.
- **Unnamed sections.** An unnamed uncategorized section yields nil from `format_section`, because its definitions are formatted only inside `if section.name && length > 0`. `AppleWriter.FormatSection` states this.
- **Unmodelled pieces.**
  - `format_header` and `Twine::VERSION` (line 296);
  - the formatter registration (line 328);
  - the constant getters `format_name`, `extension`, `default_file_name` and `default_plural_file_name`: the last two appear as constants.
- **Plural file paths.** `plural_input_file_for_lang` and `plural_output_file_for_lang` differ only in which configured root they read. Both are `ApplePaths.PluralFileForLang` with the root as a parameter.
- **XML round trip.** A plist writer/decoder round trip is not stated, since decoding is not modelled. What is stated is the key part of it: `AppleWriter.SynthesizedCategoryWritten` writes back the category of a key the reader synthesized.
- DefinitionReadsBack: stated only for keys and values without backslashes, values without `b>`, and comments without newline or `=`. A comment holding `=` can itself match the key/value pattern, and `b>` is rewritten on the way out.
- DefinitionRecorded: stated under the same conditions as `DefinitionReadsBack`.
- WrittenLineReadsBack: stated only for keys and values without backslashes and values without `b>`. `escape_quotes` does not escape a backslash, so the written line of a value ending in a backslash, for one, no longer matches the reader's pattern: the backslash escapes the closing quote.
- SynthesizedCategoryWritten: stated only for a category without `_` and a family name that is non-empty and does not end in a newline. Otherwise the rightmost `/.__/` match falls inside the category or the family name.
- LanguageDirectoryRoundTrip: stated only for languages other than `Base`, without `/` or newline. `Base.lproj` is read back as `en`.
