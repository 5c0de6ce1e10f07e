/** How the Apple formatter recognises its files and maps language codes to
    `.lproj` directories and back. */
module ApplePaths {
  import opened RubyString

  const DefaultFileName: string := "Localizable.strings"
  const DefaultPluralFileName: string := "Localizable.stringsdict"

  /** `can_handle_file?`: the last element of `path.split("/")` is one of the
      two default file names. */
  function CanHandleFile(path: string): bool {
    var parts := Split(path, '/');
    |parts| > 0 && (parts[|parts| - 1] == DefaultFileName || parts[|parts| - 1] == DefaultPluralFileName)
  }

  /** `/^(.+)\.lproj$/` on one line of a segment (no newline in it): the name
      in front of the final `.lproj`. */
  function LprojCapture(line: string): Option<string> {
    if |line| >= 7 && line[|line| - 6..] == ".lproj" then Some(line[..|line| - 6]) else None
  }

  /** The first line of the segment that the pattern matches: `^` and `$`
      anchor at line boundaries and `.` does not cross a newline. */
  function FirstLprojCapture(lines: seq<string>): Option<string> {
    if lines == [] then None
    else if LprojCapture(lines[0]).Some? then LprojCapture(lines[0])
    else FirstLprojCapture(lines[1..])
  }

  /** What `/^(.+)\.lproj$/.match(segment)[1]` yields, if it matches. */
  function LprojName(segment: string): Option<string> {
    FirstLprojCapture(Fields(segment, '\n'))
  }

  /** The language a `.lproj` directory name stands for: `Base` is `en`. */
  function LanguageOfDirectory(name: string): string {
    if name != "Base" then name else "en"
  }

  /** The early-exit search of `determine_language_given_path` over the
      path's segments: the first segment naming an `.lproj` directory decides. */
  function FindLanguage(segments: seq<string>): Option<string> {
    if segments == [] then None
    else match LprojName(segments[0])
      case Some(name) => Some(LanguageOfDirectory(name))
      case None => FindLanguage(segments[1..])
  }

  /** `determine_language_given_path`. */
  function DetermineLanguageGivenPath(path: string): Option<string> {
    FindLanguage(Split(path, '/'))
  }

  /** `output_path_for_language`. */
  function OutputPathForLanguage(lang: string): string {
    if lang == "en" then "Base.lproj" else lang + ".lproj"
  }

  /** `plural_input_file_for_lang` and `plural_output_file_for_lang`: the two
      differ only in which configured root they start from. */
  function PluralFileForLang(root: string, lang: string): string {
    var dir := OutputPathForLanguage(lang);
    if Contains(root, dir) then
      if Contains(root, DefaultFileName) then Sub(root, DefaultFileName, DefaultPluralFileName)
      else root + "/" + DefaultPluralFileName
    else root + dir + "/" + DefaultPluralFileName
  }

  // ---------------------------------------------------------------------
  // Lemmas

  /** The search answers with the language of the first `.lproj` segment ... */
  lemma {:induction false} FindLanguageFirstMatch(segments: seq<string>, i: nat)
    requires i < |segments| && LprojName(segments[i]).Some?
    requires forall j :: 0 <= j < i ==> LprojName(segments[j]).None?
    ensures FindLanguage(segments) == Some(LanguageOfDirectory(LprojName(segments[i]).value))
  {
    if i > 0 {
      assert LprojName(segments[0]).None?;
      assert forall j :: 0 <= j < i - 1 ==> segments[1..][j] == segments[j + 1];
      FindLanguageFirstMatch(segments[1..], i - 1);
    }
  }

  /** ... and with nothing exactly when no segment is an `.lproj` directory. */
  lemma {:induction false} FindLanguageNone(segments: seq<string>)
    ensures FindLanguage(segments).None? <==> forall i :: 0 <= i < |segments| ==> LprojName(segments[i]).None?
  {
    if segments != [] && LprojName(segments[0]).None? {
      FindLanguageNone(segments[1..]);
      assert forall i :: 1 <= i < |segments| ==> segments[i] == segments[1..][i - 1];
    }
  }

  lemma SplitSingle(s: string, sep: char)
    requires s != [] && sep !in s
    ensures Split(s, sep) == [s]
  {
    FieldsNoSep(s, sep);
    DropTrailingEmptyKeeps([s]);
  }

  /** A file is handled exactly when its name is one of the two defaults,
      whatever directory it is in. */
  lemma {:induction false} CanHandleFileName(dir: string, name: string)
    requires name != [] && '/' !in name
    ensures CanHandleFile(dir + "/" + name) <==> name == DefaultFileName || name == DefaultPluralFileName
  {
    FieldsConcat(dir, name, '/');
    FieldsNoSep(name, '/');
    var fs := Fields(dir + "/" + name, '/');
    assert fs == Fields(dir, '/') + [name];
    DropTrailingEmptyKeeps(fs);
  }

  lemma {:induction false} LanguageDirectoryShape(lang: string)
    requires lang != [] && '/' !in lang && '\n' !in lang
    ensures var dir := OutputPathForLanguage(lang);
      dir != [] && '/' !in dir && LprojName(dir) == Some(if lang == "en" then "Base" else lang)
  {
    var dir := OutputPathForLanguage(lang);
    if lang == "en" {
      assert '/' !in dir && '\n' !in dir by {
        assert dir == "Base.lproj";
      }
      assert dir[..|dir| - 6] == "Base";
    } else {
      assert '/' !in dir && '\n' !in dir by {
        assert dir == lang + ".lproj";
        assert forall k :: 0 <= k < |dir| ==> dir[k] == (if k < |lang| then lang[k] else ".lproj"[k - |lang|]);
      }
      assert dir[..|dir| - 6] == lang;
    }
    FieldsNoSep(dir, '\n');
  }

  /** The directory name chosen for a language leads back to that language. */
  lemma {:induction false} LanguageDirectoryRoundTrip(lang: string)
    requires lang != [] && '/' !in lang && '\n' !in lang && lang != "Base"
    ensures DetermineLanguageGivenPath(OutputPathForLanguage(lang)) == Some(lang)
  {
    LanguageDirectoryShape(lang);
    SplitSingle(OutputPathForLanguage(lang), '/');
  }

  /** The plural file's name is always the default plural file name. */
  lemma PluralFileNamed(root: string, lang: string)
    ensures Contains(PluralFileForLang(root, lang), DefaultPluralFileName)
  {
    var dir := OutputPathForLanguage(lang);
    if Contains(root, dir) && Contains(root, DefaultFileName) {
      var i := SubSplices(root, DefaultFileName, DefaultPluralFileName);
      ContainsMiddle(root[..i], DefaultPluralFileName, root[i + |DefaultFileName|..]);
    } else if Contains(root, dir) {
      ContainsMiddle(root + "/", DefaultPluralFileName, "");
      assert root + "/" + DefaultPluralFileName + "" == root + "/" + DefaultPluralFileName;
    } else {
      ContainsMiddle(root + dir + "/", DefaultPluralFileName, "");
      assert root + dir + "/" + DefaultPluralFileName + "" == root + dir + "/" + DefaultPluralFileName;
    }
  }

  lemma {:induction false} FindLanguageAppend(a: seq<string>, b: seq<string>)
    requires FindLanguage(a).None?
    ensures FindLanguage(a + b) == FindLanguage(b)
    decreases |a|
  {
    if a != [] {
      assert (a + b)[0] == a[0];
      assert (a + b)[1..] == a[1..] + b;
      FindLanguageAppend(a[1..], b);
    } else {
      assert a + b == b;
    }
  }

  lemma PluralFileNameFields()
    ensures Fields(DefaultPluralFileName, '/') == [DefaultPluralFileName]
  {
    FieldsNoSep(DefaultPluralFileName, '/');
  }

  lemma PluralFileOutsideLanguageDir(root: string, lang: string)
    requires !Contains(root, OutputPathForLanguage(lang))
    ensures PluralFileForLang(root, lang) == root + OutputPathForLanguage(lang) + "/" + DefaultPluralFileName
  {
  }

  /** Under an input root `dir + "/"` with no `.lproj` segment and without the
      language's directory name in it, the plural input file sits in the
      language's directory, so the language is recovered from its path. */
  lemma {:induction false} PluralFileLanguage(dir: string, lang: string)
    requires lang != [] && '/' !in lang && '\n' !in lang && lang != "Base"
    requires FindLanguage(Fields(dir, '/')).None?
    requires !Contains(dir + "/", OutputPathForLanguage(lang))
    ensures DetermineLanguageGivenPath(PluralFileForLang(dir + "/", lang)) == Some(lang)
  {
    var langDir := OutputPathForLanguage(lang);
    PluralFileOutsideLanguageDir(dir + "/", lang);
    var path := dir + ['/'] + (langDir + ['/'] + DefaultPluralFileName);
    assert PluralFileForLang(dir + "/", lang) == path;
    LanguageDirectoryShape(lang);
    var tail := [langDir, DefaultPluralFileName];
    assert Fields(langDir + ['/'] + DefaultPluralFileName, '/') == tail by {
      FieldsConcat(langDir, DefaultPluralFileName, '/');
      FieldsNoSep(langDir, '/');
      PluralFileNameFields();
    }
    var fs := Fields(dir, '/') + tail;
    assert Fields(path, '/') == fs by {
      FieldsConcat(dir, langDir + ['/'] + DefaultPluralFileName, '/');
    }
    assert Split(path, '/') == fs by {
      DropTrailingEmptyKeeps(fs);
    }
    FindLanguageAppend(Fields(dir, '/'), tail);
    assert LanguageOfDirectory(LprojName(tail[0]).value) == lang;
    FindLanguageFirstMatch(tail, 0);
  }
}
