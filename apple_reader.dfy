/** The Apple formatter's `read`: the `.strings` lines of one language, then
    the plural families of its `.stringsdict` file, merged into the table.

    The `.stringsdict` file arrives already decoded, as a list of families
    (the XML library that decodes it is not part of this model); a missing
    file is an empty list. */
module AppleReader {
  import opened RubyString
  import opened AppleText
  import opened StringsGrammar
  import opened TwineData

  // ---------------------------------------------------------------------
  // The `.strings` pass

  /** A key and value read from one line, with the comment pending then. */
  datatype Entry = Entry(key: string, value: string, comment: Option<string>)

  /** The comment pending when line `i` is read: the capture of the comment
      pattern on the line before, if that line has one. */
  function CommentBefore(lines: seq<string>, i: nat): Option<string>
    requires i <= |lines|
  {
    if i == 0 then None else MatchComment(lines[i - 1])
  }

  /** What one line contributes with the comment pending: an entry when it
      is a key/value line. */
  function LineEntry(line: string, pending: Option<string>): Option<Entry> {
    match ParseLine(line)
    case None => None
    case Some(kv) => Some(Entry(kv.key, kv.value, pending))
  }

  /** What each line of the file contributes, in line order. */
  function LineEntries(lines: seq<string>): seq<Option<Entry>> {
    seq(|lines|, i requires 0 <= i < |lines| => LineEntry(lines[i], CommentBefore(lines, i)))
  }

  /** One entry stored: the translation set in the `Uncategorized` section
      at `ui`, then the pending comment, if any, set on the key. */
  function ApplyEntry(secs: seq<Section>, ui: nat, e: Entry, lang: string): (r: seq<Section>)
    requires ui < |secs|
    ensures |r| == |secs|
  {
    var s1 := SetTranslationForKey(secs, ui, e.key, lang, e.value);
    match e.comment
    case None => s1
    case Some(c) => SetCommentForKey(s1, e.key, c)
  }

  /** One line stored: a line without a key/value pair changes nothing. */
  function ApplyLine(secs: seq<Section>, ui: nat, oe: Option<Entry>, lang: string): (r: seq<Section>)
    requires ui < |secs|
    ensures |r| == |secs|
  {
    match oe
    case None => secs
    case Some(e) => ApplyEntry(secs, ui, e, lang)
  }

  function ApplyLines(secs: seq<Section>, ui: nat, oes: seq<Option<Entry>>, lang: string): (r: seq<Section>)
    requires ui < |secs|
    ensures |r| == |secs|
  {
    if oes == [] then secs
    else ApplyLine(ApplyLines(secs, ui, oes[..|oes| - 1], lang), ui, oes[|oes| - 1], lang)
  }

  // ---------------------------------------------------------------------
  // The `.stringsdict` pass

  /** One `<key>`/`<string>` pair of a family's rule dictionary. */
  datatype Category = Category(key: string, text: string)

  /** One decoded family: its top-level key, the first `<string>` of its
      body (the format string) and the pairs of its rule dictionary. */
  datatype Family = Family(name: string, format: string, categories: seq<Category>)

  /** Keys such as `NSStringFormatSpecTypeKey` describe the rule, not a
      plural category. */
  predicate IsMetaKey(k: string) {
    Contains(k, "NSString")
  }

  /** The key a plural category is stored under. */
  function SynthesizedKey(family: string, category: string): string {
    family + "__" + category
  }

  /** One pair stored in the family's section at `si`. */
  function ApplyCategory(secs: seq<Section>, si: nat, fam: Family, c: Category, lang: string): (r: seq<Section>)
    requires si < |secs|
    ensures |r| == |secs|
  {
    if IsMetaKey(c.key) then secs
    else
      var key := SynthesizedKey(fam.name, c.key);
      SetIosCommentForKey(SetTranslationForKey(secs, si, key, lang, c.text), key, fam.format)
  }

  function ApplyCategories(secs: seq<Section>, si: nat, fam: Family, cs: seq<Category>, lang: string): (r: seq<Section>)
    requires si < |secs|
    ensures |r| == |secs|
  {
    if cs == [] then secs
    else ApplyCategory(ApplyCategories(secs, si, fam, cs[..|cs| - 1], lang), si, fam, cs[|cs| - 1], lang)
  }

  /** One family merged: its section found or created, then its pairs. */
  function ApplyFamily(secs: seq<Section>, fam: Family, lang: string): seq<Section> {
    var (s1, si) := EnsurePluralSection(secs, fam.name);
    EnsurePluralSectionEffect(secs, fam.name);
    ApplyCategories(s1, si, fam, fam.categories, lang)
  }

  function ApplyFamilies(secs: seq<Section>, fams: seq<Family>, lang: string): seq<Section> {
    if fams == [] then secs
    else ApplyFamily(ApplyFamilies(secs, fams[..|fams| - 1], lang), fams[|fams| - 1], lang)
  }

  /** The table after `read` of one language. */
  function ReadResult(secs: seq<Section>, lines: seq<string>, lang: string, fams: seq<Family>): seq<Section> {
    var (s1, ui) := EnsureUncategorized(secs);
    EnsureUncategorizedEffect(secs);
    ApplyFamilies(ApplyLines(s1, ui, LineEntries(lines), lang), fams, lang)
  }

  // ---------------------------------------------------------------------
  // `read`

  /** `read(io, lang)`: the `Uncategorized` section found or created, then
      the lines of the `.strings` file, then the families of the
      `.stringsdict` file. */
  method Read(file: TwineFile, lines: seq<string>, lang: string, families: seq<Family>)
    modifies file
    ensures file.sections == ReadResult(old(file.sections), lines, lang, families)
  {
    var ui := EnterUncategorized(file);
    ReadLines(file, ui, lines, lang);
    ReadFamilies(file, families, lang);
  }

  /** `section_exists('Uncategorized')`, and the section inserted at the
      front when it does not exist. */
  method EnterUncategorized(file: TwineFile) returns (ui: nat)
    modifies file
    ensures (file.sections, ui) == EnsureUncategorized(old(file.sections))
    ensures ui < |file.sections|
  {
    var found := SectionIndex(file.sections, Uncategorized);
    if found.None? {
      file.sections := [Section(Uncategorized, [])] + file.sections;
      ui := 0;
    } else {
      ui := found.value;
    }
  }

  /** The `while line = io.gets` loop: each line is matched against the
      key/value pattern and the comment pattern, and the comment of the
      previous line is kept in `lastComment`. */
  method ReadLines(file: TwineFile, ui: nat, lines: seq<string>, lang: string)
    requires ui < |file.sections|
    modifies file
    ensures file.sections == ApplyLines(old(file.sections), ui, LineEntries(lines), lang)
  {
    var lastComment: Option<string> := None;
    var i := 0;
    while i < |lines|
      invariant i <= |lines| && ui < |file.sections|
      invariant file.sections == ApplyLines(old(file.sections), ui, LineEntries(lines)[..i], lang)
      invariant lastComment == CommentBefore(lines, i)
    {
      StoreLine(file, ui, lines[i], lastComment, lang);
      assert LineEntries(lines)[..i + 1][..i] == LineEntries(lines)[..i];
      lastComment := MatchComment(lines[i]);
      i := i + 1;
    }
    assert LineEntries(lines)[..i] == LineEntries(lines);
  }

  /** The body of that loop up to the comment pattern: a key/value line's
      translation stored in the `Uncategorized` section, and the pending
      comment, if any, set on its key. */
  method StoreLine(file: TwineFile, ui: nat, line: string, lastComment: Option<string>, lang: string)
    requires ui < |file.sections|
    modifies file
    ensures file.sections == ApplyLine(old(file.sections), ui, LineEntry(line, lastComment), lang)
  {
    var m := ParseLine(line);
    if m.Some? {
      file.sections := SetTranslationForKey(file.sections, ui, m.value.key, lang, m.value.value);
      if lastComment.Some? {
        file.sections := SetCommentForKey(file.sections, m.value.key, lastComment.value);
      }
    }
  }

  /** The `for i in 0 ... whole_dicts.size` loop over the families. */
  method ReadFamilies(file: TwineFile, families: seq<Family>, lang: string)
    modifies file
    ensures file.sections == ApplyFamilies(old(file.sections), families, lang)
  {
    var f := 0;
    while f < |families|
      invariant f <= |families|
      invariant file.sections == ApplyFamilies(old(file.sections), families[..f], lang)
    {
      ReadFamily(file, families[f], lang);
      assert families[..f + 1][..f] == families[..f];
      f := f + 1;
    }
    assert families[..f] == families;
  }

  /** One pass of that loop: the family's section found or inserted in
      front of the last one, then each pair of its rule dictionary. */
  method ReadFamily(file: TwineFile, fam: Family, lang: string)
    modifies file
    ensures file.sections == ApplyFamily(old(file.sections), fam, lang)
  {
    var si := EnterFamilySection(file, fam.name);
    ghost var entered := file.sections;
    var j := 0;
    while j < |fam.categories|
      invariant j <= |fam.categories| && si < |entered|
      invariant file.sections == ApplyCategories(entered, si, fam, fam.categories[..j], lang)
    {
      StoreCategory(file, si, fam, fam.categories[j], lang);
      assert fam.categories[..j + 1][..j] == fam.categories[..j];
      j := j + 1;
    }
    assert fam.categories[..j] == fam.categories;
  }

  /** `section_exists(key)`, and otherwise a new section inserted at
      `sections.size - 1`. */
  method EnterFamilySection(file: TwineFile, name: string) returns (si: nat)
    modifies file
    ensures (file.sections, si) == EnsurePluralSection(old(file.sections), name)
    ensures si < |file.sections|
  {
    var existing := SectionIndex(file.sections, name);
    if existing.None? {
      var n := |file.sections|;
      if n == 0 {
        file.sections := [Section(name, [])];
        si := 0;
      } else {
        assert file.sections[n - 1..] == [file.sections[n - 1]];
        file.sections := file.sections[..n - 1] + [Section(name, [])] + file.sections[n - 1..];
        si := n - 1;
      }
    } else {
      si := existing.value;
    }
  }

  /** One `<key>`/`<string>` pair: skipped when the key holds `NSString`,
      otherwise stored under `family__key` with the family's format string
      as its ios comment. */
  method StoreCategory(file: TwineFile, si: nat, fam: Family, cat: Category, lang: string)
    requires si < |file.sections|
    modifies file
    ensures file.sections == ApplyCategory(old(file.sections), si, fam, cat, lang)
  {
    if !Contains(cat.key, "NSString") {
      var key := fam.name + "__" + cat.key;
      file.sections := SetTranslationForKey(file.sections, si, key, lang, cat.text);
      file.sections := SetIosCommentForKey(file.sections, key, fam.format);
    }
  }

  // ---------------------------------------------------------------------
  // Lemmas about the `.strings` pass

  /** What one entry leaves in the table: the key with the entry's
      translation for `lang`, and with the entry's comment when it has one;
      every other key is untouched. */
  lemma ApplyEntryEffect(secs: seq<Section>, ui: nat, e: Entry, lang: string, k: string)
    requires ui < |secs|
    ensures var r := ApplyEntry(secs, ui, e, lang);
      Names(r) == Names(secs) &&
      (k != e.key ==> Lookup(r, k) == Lookup(secs, k)) &&
      (k == e.key ==>
         Lookup(r, k).Some? &&
         Lookup(r, k).value.translations ==
           (if Lookup(secs, k).Some? then Lookup(secs, k).value.translations else map[])[lang := e.value] &&
         Lookup(r, k).value.comment ==
           (if e.comment.Some? then e.comment
            else if Lookup(secs, k).Some? then Lookup(secs, k).value.comment else None) &&
         Lookup(r, k).value.iosComment ==
           (if Lookup(secs, k).Some? then Lookup(secs, k).value.iosComment else None))
  {
    SetTranslationEffect(secs, ui, e.key, lang, e.value, k);
    var s1 := SetTranslationForKey(secs, ui, e.key, lang, e.value);
    if e.comment.Some? {
      LookupAfterEdit(s1, e.key, SetComment(e.comment.value), k);
    }
  }

  /** When a key occurs on several lines the last one wins: the translation
      for `lang` is the value of the last entry with that key. */
  lemma {:induction false} LastEntryWins(secs: seq<Section>, ui: nat, oes: seq<Option<Entry>>, lang: string, j: nat)
    requires ui < |secs| && j < |oes| && oes[j].Some?
    requires forall j' :: j < j' < |oes| && oes[j'].Some? ==> oes[j'].value.key != oes[j].value.key
    ensures TranslationOf(ApplyLines(secs, ui, oes, lang), oes[j].value.key, lang) == Some(oes[j].value.value)
    decreases |oes|
  {
    var n := |oes| - 1;
    var k := oes[j].value.key;
    var before := ApplyLines(secs, ui, oes[..n], lang);
    if j < n {
      LastEntryWins(secs, ui, oes[..n], lang, j);
      if oes[n].Some? {
        ApplyEntryEffect(before, ui, oes[n].value, lang, k);
      }
    } else {
      ApplyEntryEffect(before, ui, oes[n].value, lang, k);
    }
  }

  /** The same for the lines of a file: the value of the last key/value
      line with a key is the translation recorded for it. */
  lemma LastLineWins(secs: seq<Section>, ui: nat, lines: seq<string>, lang: string, j: nat)
    requires ui < |secs| && j < |lines| && ParseLine(lines[j]).Some?
    requires forall j' :: j < j' < |lines| ==>
      ParseLine(lines[j']).None? || ParseLine(lines[j']).value.key != ParseLine(lines[j]).value.key
    ensures TranslationOf(ApplyLines(secs, ui, LineEntries(lines), lang), ParseLine(lines[j]).value.key, lang) ==
      Some(ParseLine(lines[j]).value.value)
  {
    var oes := LineEntries(lines);
    LineEntryAt(lines, j);
    forall j' | j < j' < |oes| && oes[j'].Some? ensures oes[j'].value.key != oes[j].value.key {
      LineEntryAt(lines, j');
    }
    LastEntryWins(secs, ui, oes, lang, j);
  }

  /** Line `i` contributes an entry exactly when it is a key/value line, and
      the entry carries that line's key and value. */
  lemma LineEntryAt(lines: seq<string>, i: nat)
    requires i < |lines|
    ensures var oe := LineEntries(lines)[i];
      oe.Some? == ParseLine(lines[i]).Some? &&
      (oe.Some? ==> oe.value.key == ParseLine(lines[i]).value.key && oe.value.value == ParseLine(lines[i]).value.value)
  {
    assert LineEntries(lines)[i] == LineEntry(lines[i], CommentBefore(lines, i));
  }

  /** A key/value line carries a comment exactly when the line before it
      matches the comment pattern, and the comment is what that line holds
      between `/* ` and ` */`: a comment two lines up, or on the same line,
      is never attached. */
  lemma CommentFromLineBefore(lines: seq<string>, i: nat)
    requires i < |lines| && LineEntries(lines)[i].Some?
    ensures var c := LineEntries(lines)[i].value.comment;
      (c.Some? <==> 0 < i && MatchComment(lines[i - 1]).Some?) &&
      (c.Some? ==> Contains(lines[i - 1], "/* " + c.value + " */"))
  {
    assert LineEntries(lines)[i] == LineEntry(lines[i], CommentBefore(lines, i));
    if 0 < i {
      MatchCommentFound(lines[i - 1]);
    }
  }

  /** A line without `/` (a blank line, say) in front of a key/value line
      leaves that line without a comment. */
  lemma NoCommentAfterPlainLine(lines: seq<string>, i: nat)
    requires 0 < i < |lines| && LineEntries(lines)[i].Some? && '/' !in lines[i - 1]
    ensures LineEntries(lines)[i].value.comment.None?
  {
    NoSlashNoComment(lines[i - 1]);
    CommentFromLineBefore(lines, i);
  }

  /** A comment line written for a comment and the line written for a key
      and value, read in turn, give one entry on the second line: the key,
      the value with `%s` turned into `%@`, and the comment as written. This
      holds for a key without backslashes, a value without backslashes or
      `b>`, and a comment without newlines or `=` (a comment holding `=` can
      itself look like a key/value line to the reader). */
  lemma DefinitionReadsBack(c: string, k: string, v: string)
    requires '\n' !in c && '=' !in c
    requires k != [] && '\\' !in k && '\\' !in v && !Contains(v, "b>")
    ensures LineEntries([FormatComment(Some(c)).value, KeyValueLine(FormatKey(k), FormatValue(v))]) ==
      [None, Some(Entry(k, RewritePlaceholders(v), Some(EscapeCommentText(c))))]
  {
    var l0, l1 := FormatComment(Some(c)).value, KeyValueLine(FormatKey(k), FormatValue(v));
    var lines := [l0, l1];
    CommentLineNoEntry(c);
    WrittenLineReadsBack(k, v);
    WrittenCommentReadsBack(c);
    assert CommentBefore(lines, 1) == Some(EscapeCommentText(c));
    assert LineEntries(lines)[0] == None;
  }

  /** A written comment line without `=` holds no key/value pair. */
  lemma CommentLineNoEntry(c: string)
    requires '=' !in c
    ensures ParseLine(FormatComment(Some(c)).value).None?
  {
    var l0 := FormatComment(Some(c)).value;
    assert '=' !in l0 by {
      ReplaceChars(c, "*/", "* /", '=');
      assert l0 == "/* " + EscapeCommentText(c) + " */\n";
    }
    NoEqualsNoMatch(l0);
  }

  /** Reading the two lines into a table without the key records it as a
      definition with the translation for `lang` and the comment. */
  lemma DefinitionRecorded(secs: seq<Section>, c: string, k: string, v: string, lang: string)
    requires '\n' !in c && '=' !in c
    requires k != [] && '\\' !in k && '\\' !in v && !Contains(v, "b>")
    requires Lookup(secs, k).None?
    ensures Lookup(ReadResult(secs, [FormatComment(Some(c)).value, KeyValueLine(FormatKey(k), FormatValue(v))], lang, []), k) ==
      Some(Definition(k, map[lang := RewritePlaceholders(v)], Some(EscapeCommentText(c)), None))
  {
    var lines := [FormatComment(Some(c)).value, KeyValueLine(FormatKey(k), FormatValue(v))];
    var e := Entry(k, RewritePlaceholders(v), Some(EscapeCommentText(c)));
    DefinitionReadsBack(c, k, v);
    EnsureUncategorizedEffect(secs);
    var (s1, ui) := EnsureUncategorized(secs);
    assert Lookup(s1, k) == Lookup(secs, k);
    EntryAfterBlankLine(s1, ui, e, lang);
    ApplyEntryEffect(s1, ui, e, lang, k);
  }

  /** A line without a key/value pair followed by one entry stores just
      that entry. */
  lemma EntryAfterBlankLine(secs: seq<Section>, ui: nat, e: Entry, lang: string)
    requires ui < |secs|
    ensures ApplyLines(secs, ui, [None, Some(e)], lang) == ApplyEntry(secs, ui, e, lang)
  {
    var blank: seq<Option<Entry>> := [None];
    assert blank[..0] == [];
    assert ApplyLines(secs, ui, blank, lang) == secs;
    assert [None, Some(e)][..1] == blank;
  }

  // ---------------------------------------------------------------------
  // Lemmas about the `.stringsdict` pass

  lemma SynthesizedKeyInjective(f: string, c1: string, c2: string)
    ensures SynthesizedKey(f, c1) == SynthesizedKey(f, c2) <==> c1 == c2
  {
    if SynthesizedKey(f, c1) == SynthesizedKey(f, c2) {
      assert c1 == SynthesizedKey(f, c1)[|f| + 2..];
    }
  }

  /** One pair leaves every key but its own as it was, and the section
      names too. */
  lemma CategoryKeepsOthers(secs: seq<Section>, si: nat, fam: Family, c: Category, lang: string, k: string)
    requires si < |secs|
    requires IsMetaKey(c.key) || k != SynthesizedKey(fam.name, c.key)
    ensures Lookup(ApplyCategory(secs, si, fam, c, lang), k) == Lookup(secs, k)
    ensures Names(ApplyCategory(secs, si, fam, c, lang)) == Names(secs)
  {
    if !IsMetaKey(c.key) {
      var key := SynthesizedKey(fam.name, c.key);
      SetTranslationEffect(secs, si, key, lang, c.text, k);
      LookupAfterEdit(SetTranslationForKey(secs, si, key, lang, c.text), key, SetIosComment(fam.format), k);
    }
  }

  /** A pair whose key holds no `NSString` is stored under `family__key`
      with its text for `lang` and the family's format string as the ios
      comment; the other translations of the key are kept. */
  lemma CategoryDefines(secs: seq<Section>, si: nat, fam: Family, c: Category, lang: string)
    requires si < |secs| && !IsMetaKey(c.key)
    ensures var k := SynthesizedKey(fam.name, c.key);
      var d := Lookup(ApplyCategory(secs, si, fam, c, lang), k);
      d.Some? &&
      d.value.translations == (if Lookup(secs, k).Some? then Lookup(secs, k).value.translations else map[])[lang := c.text] &&
      d.value.iosComment == Some(fam.format)
  {
    var key := SynthesizedKey(fam.name, c.key);
    SetTranslationEffect(secs, si, key, lang, c.text, key);
    LookupAfterEdit(SetTranslationForKey(secs, si, key, lang, c.text), key, SetIosComment(fam.format), key);
  }

  /** A key that no kept pair of the list is stored under is untouched. */
  lemma {:induction false} ApplyCategoriesOthers(secs: seq<Section>, si: nat, fam: Family, cs: seq<Category>, lang: string, k: string)
    requires si < |secs|
    requires forall i :: 0 <= i < |cs| && !IsMetaKey(cs[i].key) ==> k != SynthesizedKey(fam.name, cs[i].key)
    ensures Lookup(ApplyCategories(secs, si, fam, cs, lang), k) == Lookup(secs, k)
    decreases |cs|
  {
    if cs != [] {
      var n := |cs| - 1;
      ApplyCategoriesOthers(secs, si, fam, cs[..n], lang, k);
      CategoryKeepsOthers(ApplyCategories(secs, si, fam, cs[..n], lang), si, fam, cs[n], lang, k);
    }
  }

  /** The pairs leave the section names as they were. */
  lemma {:induction false} NamesOfCategories(secs: seq<Section>, si: nat, fam: Family, cs: seq<Category>, lang: string)
    requires si < |secs|
    ensures Names(ApplyCategories(secs, si, fam, cs, lang)) == Names(secs)
    decreases |cs|
  {
    if cs != [] {
      var n := |cs| - 1;
      var before := ApplyCategories(secs, si, fam, cs[..n], lang);
      NamesOfCategories(secs, si, fam, cs[..n], lang);
      if IsMetaKey(cs[n].key) {
        CategoryKeepsOthers(before, si, fam, cs[n], lang, "");
      } else {
        CategoryKeepsOthers(before, si, fam, cs[n], lang, SynthesizedKey(fam.name, cs[n].key) + "_");
      }
    }
  }

  /** Every pair `c` whose key holds no `NSString` is stored under
      `family__c` with its text as the translation for `lang` and the
      family's format string as the ios comment (when a later pair has the
      same key, that later pair's text is the one kept). */
  lemma {:induction false} ApplyCategoriesDefines(secs: seq<Section>, si: nat, fam: Family, cs: seq<Category>, lang: string, j: nat)
    requires si < |secs| && j < |cs| && !IsMetaKey(cs[j].key)
    requires forall j' :: j < j' < |cs| ==> cs[j'].key != cs[j].key
    ensures var d := Lookup(ApplyCategories(secs, si, fam, cs, lang), SynthesizedKey(fam.name, cs[j].key));
      d.Some? && lang in d.value.translations && d.value.translations[lang] == cs[j].text &&
      d.value.iosComment == Some(fam.format)
    decreases |cs|
  {
    var n := |cs| - 1;
    var before := ApplyCategories(secs, si, fam, cs[..n], lang);
    if j < n {
      ApplyCategoriesDefines(secs, si, fam, cs[..n], lang, j);
      SynthesizedKeyInjective(fam.name, cs[n].key, cs[j].key);
      CategoryKeepsOthers(before, si, fam, cs[n], lang, SynthesizedKey(fam.name, cs[j].key));
    } else {
      CategoryDefines(before, si, fam, cs[n], lang);
    }
  }

  /** Decoding a family gives it a section of its own. */
  lemma FamilySection(secs: seq<Section>, fam: Family, lang: string)
    ensures fam.name in Names(ApplyFamily(secs, fam, lang))
  {
    EnsurePluralSectionEffect(secs, fam.name);
    var (s1, si) := EnsurePluralSection(secs, fam.name);
    NamesOfCategories(s1, si, fam, fam.categories, lang);
    assert Names(s1)[si] == fam.name;
  }

  /** Decoding a family leaves every key outside it as it was: the keys of
      the `NSString` pairs and the keys of other families and of the
      `.strings` file. */
  lemma FamilyKeepsOthers(secs: seq<Section>, fam: Family, lang: string, k: string)
    requires forall i :: 0 <= i < |fam.categories| && !IsMetaKey(fam.categories[i].key) ==>
      k != SynthesizedKey(fam.name, fam.categories[i].key)
    ensures Lookup(ApplyFamily(secs, fam, lang), k) == Lookup(secs, k)
  {
    EnsurePluralSectionEffect(secs, fam.name);
    var (s1, si) := EnsurePluralSection(secs, fam.name);
    ApplyCategoriesOthers(s1, si, fam, fam.categories, lang, k);
  }

  /** Decoding a family defines the key of each of its pairs that holds no
      `NSString`: the pair's text is its translation for `lang` (the last
      pair with that key wins) and the family's format string its ios
      comment. */
  lemma FamilyDefines(secs: seq<Section>, fam: Family, lang: string, j: nat)
    requires j < |fam.categories| && !IsMetaKey(fam.categories[j].key)
    requires forall j' :: j < j' < |fam.categories| ==> fam.categories[j'].key != fam.categories[j].key
    ensures var k := SynthesizedKey(fam.name, fam.categories[j].key);
      TranslationOf(ApplyFamily(secs, fam, lang), k, lang) == Some(fam.categories[j].text) &&
      Lookup(ApplyFamily(secs, fam, lang), k).value.iosComment == Some(fam.format)
  {
    EnsurePluralSectionEffect(secs, fam.name);
    var (s1, si) := EnsurePluralSection(secs, fam.name);
    ApplyCategoriesDefines(s1, si, fam, fam.categories, lang, j);
  }

  /** A family with the pairs `one` and `other` and the format string
      `%#@items@` yields the definitions `family__one` and `family__other`,
      both with the ios comment `%#@items@`. */
  lemma OneOtherFamily(secs: seq<Section>, name: string, textOne: string, textOther: string, lang: string)
    ensures var r := ApplyFamily(secs, Family(name, "%#@items@", [Category("one", textOne), Category("other", textOther)]), lang);
      TranslationOf(r, name + "__one", lang) == Some(textOne) &&
      TranslationOf(r, name + "__other", lang) == Some(textOther) &&
      Lookup(r, name + "__one").value.iosComment == Some("%#@items@") &&
      Lookup(r, name + "__other").value.iosComment == Some("%#@items@")
  {
    var one, other := Category("one", textOne), Category("other", textOther);
    assert !IsMetaKey(one.key) && !IsMetaKey(other.key) && one.key != other.key;
    assert SynthesizedKey(name, one.key) == name + "__one";
    assert SynthesizedKey(name, other.key) == name + "__other";
    var fam := Family(name, "%#@items@", [one, other]);
    FamilyDefines(secs, fam, lang, 0);
    FamilyDefines(secs, fam, lang, 1);
  }

  // ---------------------------------------------------------------------
  // Lemmas about the whole of `read`

  /** The translations of every language but `lang` agree in two tables. */
  ghost predicate SameOtherLanguages(a: seq<Section>, b: seq<Section>, lang: string) {
    forall k, l :: l != lang ==> TranslationOf(a, k, l) == TranslationOf(b, k, l)
  }

  lemma {:induction false} LinesKeepOtherLanguages(secs: seq<Section>, ui: nat, oes: seq<Option<Entry>>, lang: string)
    requires ui < |secs|
    ensures SameOtherLanguages(ApplyLines(secs, ui, oes, lang), secs, lang)
    ensures Names(ApplyLines(secs, ui, oes, lang)) == Names(secs)
    decreases |oes|
  {
    if oes != [] {
      var n := |oes| - 1;
      LinesKeepOtherLanguages(secs, ui, oes[..n], lang);
      if oes[n].Some? {
        var before := ApplyLines(secs, ui, oes[..n], lang);
        forall k, l | l != lang
          ensures TranslationOf(ApplyEntry(before, ui, oes[n].value, lang), k, l) == TranslationOf(before, k, l)
        {
          ApplyEntryEffect(before, ui, oes[n].value, lang, k);
        }
        ApplyEntryEffect(before, ui, oes[n].value, lang, "");
      }
    }
  }

  lemma {:induction false} CategoriesKeepOtherLanguages(secs: seq<Section>, si: nat, fam: Family, cs: seq<Category>, lang: string, k: string, l: string)
    requires si < |secs| && l != lang
    ensures TranslationOf(ApplyCategories(secs, si, fam, cs, lang), k, l) == TranslationOf(secs, k, l)
    decreases |cs|
  {
    if cs != [] {
      var n := |cs| - 1;
      var before := ApplyCategories(secs, si, fam, cs[..n], lang);
      CategoriesKeepOtherLanguages(secs, si, fam, cs[..n], lang, k, l);
      if !IsMetaKey(cs[n].key) && k == SynthesizedKey(fam.name, cs[n].key) {
        CategoryDefines(before, si, fam, cs[n], lang);
      } else {
        CategoryKeepsOthers(before, si, fam, cs[n], lang, k);
      }
    }
  }

  lemma UniqueNamesSame(a: seq<Section>, b: seq<Section>)
    requires Names(a) == Names(b)
    ensures UniqueNames(a) ==> UniqueNames(b)
  {
    assert forall i :: 0 <= i < |a| ==> Names(a)[i] == a[i].name && Names(b)[i] == b[i].name;
  }

  lemma {:induction false} FamiliesKeepOtherLanguages(secs: seq<Section>, fams: seq<Family>, lang: string)
    ensures SameOtherLanguages(ApplyFamilies(secs, fams, lang), secs, lang)
    ensures UniqueNames(secs) ==> UniqueNames(ApplyFamilies(secs, fams, lang))
    decreases |fams|
  {
    if fams != [] {
      var n := |fams| - 1;
      FamiliesKeepOtherLanguages(secs, fams[..n], lang);
      var before := ApplyFamilies(secs, fams[..n], lang);
      var fam := fams[n];
      EnsurePluralSectionEffect(before, fam.name);
      var (s1, si) := EnsurePluralSection(before, fam.name);
      forall k, l | l != lang
        ensures TranslationOf(ApplyFamily(before, fam, lang), k, l) == TranslationOf(before, k, l)
      {
        CategoriesKeepOtherLanguages(s1, si, fam, fam.categories, lang, k, l);
      }
      NamesOfCategories(s1, si, fam, fam.categories, lang);
      UniqueNamesSame(s1, ApplyFamily(before, fam, lang));
    }
  }

  /** Reading one language never changes a translation of another language,
      and never gives two sections the same name. */
  lemma ReadKeepsOtherLanguages(secs: seq<Section>, lines: seq<string>, lang: string, fams: seq<Family>)
    ensures SameOtherLanguages(ReadResult(secs, lines, lang, fams), secs, lang)
    ensures UniqueNames(secs) ==> UniqueNames(ReadResult(secs, lines, lang, fams))
  {
    EnsureUncategorizedEffect(secs);
    var (s1, ui) := EnsureUncategorized(secs);
    var s2 := ApplyLines(s1, ui, LineEntries(lines), lang);
    LinesKeepOtherLanguages(s1, ui, LineEntries(lines), lang);
    FamiliesKeepOtherLanguages(s2, fams, lang);
    UniqueNamesSame(s1, s2);
    assert forall k :: Lookup(s1, k) == Lookup(secs, k);
  }
}
