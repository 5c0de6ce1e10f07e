/** The translation table the Apple formatter reads into and writes from:
    sections of definitions, each definition a key with a translation per
    language, a comment and an ios comment (the plural format string).

    The table's store operations (`set_translation_for_key`,
    `set_comment_for_key`, `set_ios_comment_for_key`, `section_exists`,
    `get_section`, `is_uncategorized`) belong to the shared formatter base
    and the table classes, which are not part of this model; the functions
    here are minimal stand-ins with the behaviour the Apple formatter relies
    on. */
module TwineData {
  import opened RubyString

  datatype Definition = Definition(
    key: string,
    translations: map<string, string>,
    comment: Option<string>,
    iosComment: Option<string>)

  datatype Section = Section(name: string, definitions: seq<Definition>)

  /** The table: its sections, in order, updated in place by the reader. */
  class TwineFile {
    var sections: seq<Section>

    constructor (sections: seq<Section>)
      ensures this.sections == sections
    {
      this.sections := sections;
    }
  }

  const Uncategorized: string := "Uncategorized"

  /** Stand-in for `is_uncategorized`: the flat-key bucket is the section
      named `Uncategorized`, or a section without a name. */
  predicate IsUncategorized(s: Section) {
    s.name == Uncategorized || s.name == ""
  }

  // ---------------------------------------------------------------------
  // Lookup

  /** The first definition with the given key. */
  function Find(defs: seq<Definition>, key: string): (r: Option<Definition>)
    ensures r.Some? ==> r.value.key == key && r.value in defs
    ensures r.Some? ==> exists i :: 0 <= i < |defs| && defs[i] == r.value && forall j :: 0 <= j < i ==> defs[j].key != key
    ensures r.None? <==> forall d :: d in defs ==> d.key != key
  {
    if defs == [] then None
    else if defs[0].key == key then Some(defs[0])
    else Find(defs[1..], key)
  }

  /** All definitions of the table, section after section. */
  function Flatten(secs: seq<Section>): seq<Definition> {
    if secs == [] then [] else secs[0].definitions + Flatten(secs[1..])
  }

  /** The definition a key names in the table: the first in table order. */
  function Lookup(secs: seq<Section>, key: string): Option<Definition> {
    Find(Flatten(secs), key)
  }

  /** The translation of `key` for `lang`, if the key and the translation exist. */
  function TranslationOf(secs: seq<Section>, key: string, lang: string): Option<string> {
    match Lookup(secs, key)
    case None => None
    case Some(d) => if lang in d.translations then Some(d.translations[lang]) else None
  }

  function Names(secs: seq<Section>): seq<string> {
    seq(|secs|, i requires 0 <= i < |secs| => secs[i].name)
  }

  /** No two sections share a name. */
  predicate UniqueNames(secs: seq<Section>) {
    forall i, j :: 0 <= i < j < |secs| ==> secs[i].name != secs[j].name
  }

  // ---------------------------------------------------------------------
  // Store operations

  /** The changes the formatter makes to one definition. */
  datatype Edit =
    | SetTranslation(lang: string, value: string)
    | SetComment(text: string)
    | SetIosComment(text: string)

  function Apply(d: Definition, e: Edit): (r: Definition)
    ensures r.key == d.key
  {
    match e
    case SetTranslation(lang, value) => d.(translations := d.translations[lang := value])
    case SetComment(text) => d.(comment := Some(text))
    case SetIosComment(text) => d.(iosComment := Some(text))
  }

  /** The edit applied to the first definition with the key. */
  function EditFirst(defs: seq<Definition>, key: string, e: Edit): (r: seq<Definition>)
    ensures |r| == |defs|
  {
    if defs == [] then []
    else if defs[0].key == key then [Apply(defs[0], e)] + defs[1..]
    else [defs[0]] + EditFirst(defs[1..], key, e)
  }

  /** The edit applied to the definition the key names in the table. */
  function EditKey(secs: seq<Section>, key: string, e: Edit): (r: seq<Section>)
    ensures |r| == |secs| && forall j :: 0 <= j < |r| ==> r[j].name == secs[j].name
  {
    if secs == [] then []
    else if Find(secs[0].definitions, key).Some? then
      [secs[0].(definitions := EditFirst(secs[0].definitions, key, e))] + secs[1..]
    else [secs[0]] + EditKey(secs[1..], key, e)
  }

  /** A new definition appended to section `si`. */
  function AppendTo(secs: seq<Section>, si: nat, d: Definition): (r: seq<Section>)
    requires si < |secs|
    ensures |r| == |secs| && forall j :: 0 <= j < |r| ==> r[j].name == secs[j].name
  {
    secs[si := secs[si].(definitions := secs[si].definitions + [d])]
  }

  /** Stand-in for `set_translation_for_key(section, key, lang, value)`:
      the existing definition for the key gets the translation; a key not
      in the table becomes a new definition at the end of the section. */
  function SetTranslationForKey(secs: seq<Section>, si: nat, key: string, lang: string, value: string): seq<Section>
    requires si < |secs|
  {
    if Lookup(secs, key).Some? then EditKey(secs, key, SetTranslation(lang, value))
    else AppendTo(secs, si, Definition(key, map[lang := value], None, None))
  }

  /** Stand-in for `set_comment_for_key`: nothing happens for a missing key. */
  function SetCommentForKey(secs: seq<Section>, key: string, text: string): seq<Section> {
    EditKey(secs, key, SetComment(text))
  }

  /** Stand-in for `set_ios_comment_for_key`. */
  function SetIosCommentForKey(secs: seq<Section>, key: string, text: string): seq<Section> {
    EditKey(secs, key, SetIosComment(text))
  }

  // ---------------------------------------------------------------------
  // Section bookkeeping

  /** `get_section(name)`: the index of the first section with the name;
      `section_exists(name)` is this being present. */
  function SectionIndex(secs: seq<Section>, name: string): (r: Option<nat>)
    ensures r.Some? ==> r.value < |secs| && secs[r.value].name == name
    ensures r.Some? ==> forall j :: 0 <= j < r.value ==> secs[j].name != name
    ensures r.None? <==> forall j :: 0 <= j < |secs| ==> secs[j].name != name
  {
    if secs == [] then None
    else if secs[0].name == name then Some(0)
    else match SectionIndex(secs[1..], name)
      case None => None
      case Some(i) => Some(i + 1)
  }

  /** The reader's start: an `Uncategorized` section at the front unless one
      exists; the table and the index of that section. */
  function EnsureUncategorized(secs: seq<Section>): (seq<Section>, nat) {
    match SectionIndex(secs, Uncategorized)
    case Some(i) => (secs, i)
    case None => ([Section(Uncategorized, [])] + secs, 0)
  }

  /** `sections.insert(sections.size - 1, section)`: in front of the last
      section, or as the only one in an empty table (Ruby's `insert(-1, x)`
      appends). */
  function InsertBeforeLast(secs: seq<Section>, s: Section): seq<Section> {
    if secs == [] then [s] else secs[..|secs| - 1] + [s] + [secs[|secs| - 1]]
  }

  /** The section of a plural family: the existing one, or a new empty one
      inserted in front of the last section; the table and the index. */
  function EnsurePluralSection(secs: seq<Section>, name: string): (seq<Section>, nat) {
    match SectionIndex(secs, name)
    case Some(i) => (secs, i)
    case None => (InsertBeforeLast(secs, Section(name, [])), if secs == [] then 0 else |secs| - 1)
  }

  /** The table with the section at `i` taken out. */
  function RemoveAt(secs: seq<Section>, i: nat): seq<Section>
    requires i < |secs|
  {
    secs[..i] + secs[i + 1..]
  }

  // ---------------------------------------------------------------------
  // Lemmas about lookup

  lemma {:induction false} FindConcat(a: seq<Definition>, b: seq<Definition>, key: string)
    ensures Find(a + b, key) == if Find(a, key).Some? then Find(a, key) else Find(b, key)
    decreases |a|
  {
    if a == [] {
      assert a + b == b;
    } else {
      assert (a + b)[1..] == a[1..] + b;
      FindConcat(a[1..], b, key);
    }
  }

  /** Editing the first definition with a key changes only what that key
      names. */
  lemma {:induction false} FindAfterEdit(defs: seq<Definition>, key: string, e: Edit, k: string)
    ensures Find(EditFirst(defs, key, e), k) ==
      if k != key then Find(defs, k)
      else match Find(defs, key) case None => None case Some(d) => Some(Apply(d, e))
    decreases |defs|
  {
    if defs != [] && defs[0].key != key {
      FindAfterEdit(defs[1..], key, e, k);
      assert EditFirst(defs, key, e)[1..] == EditFirst(defs[1..], key, e);
    } else if defs != [] {
      assert EditFirst(defs, key, e)[1..] == defs[1..];
    }
  }

  lemma {:induction false} EditFirstAbsent(defs: seq<Definition>, key: string, e: Edit)
    requires Find(defs, key).None?
    ensures EditFirst(defs, key, e) == defs
    decreases |defs|
  {
    if defs != [] {
      EditFirstAbsent(defs[1..], key, e);
    }
  }

  lemma {:induction false} FlattenEditKey(secs: seq<Section>, key: string, e: Edit)
    ensures Flatten(EditKey(secs, key, e)) == EditFirst(Flatten(secs), key, e)
    ensures Names(EditKey(secs, key, e)) == Names(secs)
    decreases |secs|
  {
    if secs != [] {
      var r := EditKey(secs, key, e);
      var a, rest := secs[0].definitions, secs[1..];
      EditFirstConcat(a, Flatten(rest), key, e);
      if Find(a, key).Some? {
        assert r[1..] == rest;
      } else {
        FlattenEditKey(rest, key, e);
        EditFirstAbsent(a, key, e);
        assert r[1..] == EditKey(rest, key, e);
      }
    }
    SameNames(secs, EditKey(secs, key, e));
  }

  lemma SameNames(a: seq<Section>, b: seq<Section>)
    requires |a| == |b| && forall j :: 0 <= j < |a| ==> a[j].name == b[j].name
    ensures Names(a) == Names(b)
  {
  }

  lemma {:induction false} EditFirstConcat(a: seq<Definition>, b: seq<Definition>, key: string, e: Edit)
    ensures EditFirst(a + b, key, e) ==
      if Find(a, key).Some? then EditFirst(a, key, e) + b else a + EditFirst(b, key, e)
    decreases |a|
  {
    if a == [] {
      assert a + b == b;
    } else if a[0].key == key {
      EditFirstConcatHere(a, b, key, e);
    } else {
      var d, t := a[0], a[1..];
      EditFirstConcat(t, b, key, e);
      assert a == [d] + t;
      assert a + b == [d] + (t + b);
      EditFirstCons(d, t, key, e);
      EditFirstCons(d, t + b, key, e);
      if Find(t, key).Some? {
        ConsConcat(d, EditFirst(t, key, e), b);
      } else {
        ConsConcat(d, t, EditFirst(b, key, e));
      }
    }
  }

  /** `EditFirstConcat` when the first definition has the key. */
  lemma EditFirstConcatHere(a: seq<Definition>, b: seq<Definition>, key: string, e: Edit)
    requires a != [] && a[0].key == key
    ensures EditFirst(a + b, key, e) == EditFirst(a, key, e) + b
  {
    assert a + b == [a[0]] + (a[1..] + b);
    assert EditFirst(a + b, key, e) == [Apply(a[0], e)] + (a[1..] + b);
  }

  /** A definition without the key is passed over. */
  lemma EditFirstCons(d: Definition, t: seq<Definition>, key: string, e: Edit)
    requires d.key != key
    ensures EditFirst([d] + t, key, e) == [d] + EditFirst(t, key, e)
    ensures Find([d] + t, key) == Find(t, key)
  {
    assert ([d] + t)[1..] == t;
  }

  lemma ConsConcat(d: Definition, u: seq<Definition>, v: seq<Definition>)
    ensures [d] + (u + v) == ([d] + u) + v
  {
  }

  /** An edit through the table changes what its key names, as `Apply` says,
      and nothing else; the section names stay as they were. */
  lemma LookupAfterEdit(secs: seq<Section>, key: string, e: Edit, k: string)
    ensures Lookup(EditKey(secs, key, e), k) ==
      if k != key then Lookup(secs, k)
      else match Lookup(secs, key) case None => None case Some(d) => Some(Apply(d, e))
    ensures Names(EditKey(secs, key, e)) == Names(secs)
  {
    FlattenEditKey(secs, key, e);
    FindAfterEdit(Flatten(secs), key, e, k);
  }

  lemma {:induction false} FlattenSplit(secs: seq<Section>, i: nat)
    requires i <= |secs|
    ensures Flatten(secs) == Flatten(secs[..i]) + Flatten(secs[i..])
    decreases i
  {
    if i > 0 {
      FlattenSplit(secs[1..], i - 1);
      assert secs[..i][1..] == secs[1..][..i - 1];
      assert secs[1..][i - 1..] == secs[i..];
    } else {
      assert secs[..0] == [];
      assert secs[0..] == secs;
    }
  }

  lemma FlattenAt(secs: seq<Section>, i: nat)
    requires i < |secs|
    ensures Flatten(secs) == Flatten(secs[..i]) + secs[i].definitions + Flatten(secs[i + 1..])
  {
    FlattenSplit(secs, i);
    assert secs[i..][1..] == secs[i + 1..];
  }

  lemma FlattenAppendTo(secs: seq<Section>, si: nat, d: Definition)
    requires si < |secs|
    ensures Flatten(AppendTo(secs, si, d)) ==
      Flatten(secs[..si]) + secs[si].definitions + [d] + Flatten(secs[si + 1..])
  {
    var r := AppendTo(secs, si, d);
    FlattenAt(r, si);
    AppendToSlices(secs, si, d);
  }

  lemma AppendToSlices(secs: seq<Section>, si: nat, d: Definition)
    requires si < |secs|
    ensures var r := AppendTo(secs, si, d);
      r[..si] == secs[..si] && r[si + 1..] == secs[si + 1..] && r[si].definitions == secs[si].definitions + [d]
  {
  }

  /** Appending a definition for a key the table lacks makes the key name
      that definition and changes nothing else. */
  lemma LookupAfterAppend(secs: seq<Section>, si: nat, d: Definition, k: string)
    requires si < |secs| && Lookup(secs, d.key).None?
    ensures Lookup(AppendTo(secs, si, d), k) == if k == d.key then Some(d) else Lookup(secs, k)
    ensures Names(AppendTo(secs, si, d)) == Names(secs)
  {
    FlattenAppendTo(secs, si, d);
    FlattenAt(secs, si);
    var a, m, b := Flatten(secs[..si]), secs[si].definitions, Flatten(secs[si + 1..]);
    FindConcat(a + m, b, k);
    FindConcat(a, m, k);
    FindConcat(a + m + [d], b, k);
    FindConcat(a + m, [d], k);
    FindConcat(a + m, b, d.key);
    FindConcat(a, m, d.key);
    SameNames(secs, AppendTo(secs, si, d));
  }

  /** `set_translation_for_key` leaves the key with the translation for
      `lang` and its other translations and comments as they were (a new key
      has only that translation and no comments); every other key names the
      same definition as before, and the sections keep their names. */
  lemma SetTranslationEffect(secs: seq<Section>, si: nat, key: string, lang: string, value: string, k: string)
    requires si < |secs|
    ensures var r := SetTranslationForKey(secs, si, key, lang, value);
      Names(r) == Names(secs) &&
      Lookup(r, k) == if k != key then Lookup(secs, k)
        else match Lookup(secs, key)
          case None => Some(Definition(key, map[lang := value], None, None))
          case Some(d) => Some(d.(translations := d.translations[lang := value]))
  {
    if Lookup(secs, key).Some? {
      LookupAfterEdit(secs, key, SetTranslation(lang, value), k);
    } else {
      LookupAfterAppend(secs, si, Definition(key, map[lang := value], None, None), k);
    }
  }

  /** Writing one language's translation never changes another language's
      translation of any key. */
  lemma SetTranslationKeepsOtherLanguages(secs: seq<Section>, si: nat, key: string, lang: string, value: string, k: string, l: string)
    requires si < |secs| && l != lang
    ensures TranslationOf(SetTranslationForKey(secs, si, key, lang, value), k, l) == TranslationOf(secs, k, l)
  {
    SetTranslationEffect(secs, si, key, lang, value, k);
  }

  // ---------------------------------------------------------------------
  // Lemmas about section bookkeeping

  lemma FlattenEmptyFront(s: Section, secs: seq<Section>)
    requires s.definitions == []
    ensures Flatten([s] + secs) == Flatten(secs)
  {
    assert ([s] + secs)[1..] == secs;
  }

  /** `Uncategorized` is created only when missing, at the front; the table
      keeps its other sections in order, its definitions and unique names. */
  lemma EnsureUncategorizedEffect(secs: seq<Section>)
    ensures var (r, i) := EnsureUncategorized(secs);
      i < |r| && r[i].name == Uncategorized &&
      (if Uncategorized in Names(secs) then r == secs else r[1..] == secs && i == 0) &&
      Flatten(r) == Flatten(secs) &&
      (UniqueNames(secs) ==> UniqueNames(r))
  {
    var (r, i) := EnsureUncategorized(secs);
    if SectionIndex(secs, Uncategorized).None? {
      FlattenEmptyFront(Section(Uncategorized, []), secs);
      assert Uncategorized !in Names(secs) by {
        forall j | 0 <= j < |secs| ensures Names(secs)[j] != Uncategorized {
        }
      }
      assert r[1..] == secs;
    } else {
      var k := SectionIndex(secs, Uncategorized).value;
      assert Names(secs)[k] == Uncategorized;
    }
  }

  lemma FlattenInsertBeforeLast(secs: seq<Section>, s: Section)
    requires s.definitions == []
    ensures Flatten(InsertBeforeLast(secs, s)) == Flatten(secs)
  {
    if secs != [] {
      var n := |secs| - 1;
      var r := InsertBeforeLast(secs, s);
      FlattenSplit(secs, n);
      FlattenSplit(r, n);
      assert r[..n] == secs[..n];
      assert r[n..] == [s] + [secs[n]];
      assert secs[n..] == [secs[n]];
      FlattenEmptyFront(s, [secs[n]]);
    }
  }

  lemma InsertBeforeLastShape(secs: seq<Section>, name: string)
    requires secs != [] && name !in Names(secs)
    ensures var r, i := InsertBeforeLast(secs, Section(name, [])), |secs| - 1;
      r[i] == Section(name, []) && RemoveAt(r, i) == secs && r[|r| - 1] == secs[|secs| - 1] &&
      (UniqueNames(secs) ==> UniqueNames(r))
  {
    var r, i := InsertBeforeLast(secs, Section(name, [])), |secs| - 1;
    assert r[..i] == secs[..i];
    assert r[i + 1..] == [secs[i]];
    assert RemoveAt(r, i) == secs;
    if UniqueNames(secs) {
      forall a, b | 0 <= a < b < |r| ensures r[a].name != r[b].name {
        if a == i {
          assert r[b] == secs[b - 1] && Names(secs)[b - 1] == secs[b - 1].name;
        } else if b == i {
          assert r[a] == secs[a] && Names(secs)[a] == secs[a].name;
        } else {
          var a', b' := if a < i then a else a - 1, if b < i then b else b - 1;
          assert r[a] == secs[a'] && r[b] == secs[b'];
        }
      }
    }
  }

  /** A family section is created only when missing, in front of the last
      section: taking it out again gives the old table, so the other
      sections keep their order and the last section stays last; the
      definitions and unique names are kept. */
  lemma EnsurePluralSectionEffect(secs: seq<Section>, name: string)
    ensures var (r, i) := EnsurePluralSection(secs, name);
      i < |r| && r[i].name == name &&
      (if name in Names(secs) then r == secs
       else i == (if secs == [] then 0 else |secs| - 1) &&
            r[i].definitions == [] && |r| == |secs| + 1 && RemoveAt(r, i) == secs &&
            (secs != [] ==> r[|r| - 1] == secs[|secs| - 1])) &&
      Flatten(r) == Flatten(secs) &&
      (UniqueNames(secs) ==> UniqueNames(r))
  {
    var (r, i) := EnsurePluralSection(secs, name);
    if SectionIndex(secs, name).None? {
      FlattenInsertBeforeLast(secs, Section(name, []));
      assert name !in Names(secs) by {
        forall j | 0 <= j < |secs| ensures Names(secs)[j] != name {
        }
      }
      if secs != [] {
        InsertBeforeLastShape(secs, name);
      } else {
        assert RemoveAt(r, i) == [];
      }
    } else {
      var k := SectionIndex(secs, name).value;
      assert Names(secs)[k] == name;
    }
  }

  /** With `Uncategorized` the only section, a new family section ends up in
      front of it. */
  lemma PluralSectionBeforeLoneUncategorized(name: string)
    requires name != Uncategorized
    ensures var (r, _) := EnsurePluralSection([Section(Uncategorized, [])], name);
      Names(r) == [name, Uncategorized]
  {
    var secs := [Section(Uncategorized, [])];
    assert SectionIndex(secs, name) == None;
  }
}
