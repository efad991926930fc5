/** The theme service's pure helpers over `theme.json` metadata and theme
    packages: metadata validation (the theme-name and version grammars and
    the category list), the file-type screen applied to package entries,
    the author and screenshot extraction, and merging a user's settings
    over the declared defaults. JSON values are a datatype. */
module ThemeMetadata {
  import opened Wrappers
  import opened Text

  /** A decoded JSON value; `JNull` is also Go's nil interface. */
  datatype JsonValue =
    | JNull
    | JBool(b: bool)
    | JNumber(n: int)
    | JString(str: string)
    | JArray(items: seq<JsonValue>)
    | JObject(fields: map<string, JsonValue>)

  /** The `theme.json` fields that validation looks at. */
  datatype Metadata = Metadata(
    name: string,
    displayName: string,
    version: string,
    description: string,
    author: JsonValue,
    category: string)

  datatype MetadataError =
    | NameEmpty
    | NamePrefix
    | NameChars
    | DisplayNameEmpty
    | VersionEmpty
    | VersionFormat
    | DescriptionEmpty
    | AuthorMissing
    | UnknownCategory(category: string)

  const ThemeNamePrefix := "theme-"

  const Categories: seq<string> := ["blog", "portfolio", "business", "magazine", "minimal",
                                    "creative", "photography", "education", "technology", "other"]

  // ---------------------------------------------------------------------
  // Theme names: ^theme-[a-z0-9\-]+$
  // ---------------------------------------------------------------------

  predicate IsDigit(c: char) { '0' <= c <= '9' }

  predicate NameChar(c: char) { 'a' <= c <= 'z' || IsDigit(c) || c == '-' }

  /** The theme-name pattern; `$` without the multi-line flag anchors at the
      very end of the text. */
  predicate IsThemeName(s: string) {
    |s| > |ThemeNamePrefix| && HasPrefix(s, ThemeNamePrefix)
    && forall i :: |ThemeNamePrefix| <= i < |s| ==> NameChar(s[i])
  }

  // ---------------------------------------------------------------------
  // Versions: ^\d+\.\d+\.\d+(-[a-zA-Z0-9\-\.]+)?$
  // ---------------------------------------------------------------------

  predicate PreReleaseChar(c: char) {
    'a' <= c <= 'z' || 'A' <= c <= 'Z' || IsDigit(c) || c == '-' || c == '.'
  }

  predicate Digits(s: string) {
    |s| > 0 && forall i :: 0 <= i < |s| ==> IsDigit(s[i])
  }

  predicate PreRelease(s: string) {
    s == [] || (|s| >= 2 && s[0] == '-' && forall i :: 1 <= i < |s| ==> PreReleaseChar(s[i]))
  }

  /** The version grammar, stated as a decomposition of the text. */
  ghost predicate IsSemVer(s: string) {
    exists a, b, c, p :: Digits(a) && Digits(b) && Digits(c) && PreRelease(p) && s == a + "." + b + "." + c + p
  }

  /** The end of the run of digits that starts at `i`. */
  function DigitsEnd(s: string, i: nat): (j: nat)
    requires i <= |s|
    ensures i <= j <= |s|
    ensures forall k :: i <= k < j ==> IsDigit(s[k])
    ensures j == |s| || !IsDigit(s[j])
    decreases |s| - i
  {
    if i < |s| && IsDigit(s[i]) then DigitsEnd(s, i + 1) else i
  }

  /** The matcher: three digit runs separated by dots, then the end or a
      pre-release suffix. */
  function MatchesVersion(s: string): (ok: bool)
    ensures ok ==> |s| >= 5 && IsDigit(s[0])
    ensures ok ==> forall k :: 0 <= k < |s| ==> PreReleaseChar(s[k])
  {
    var a := DigitsEnd(s, 0);
    0 < a < |s| && s[a] == '.'
    && var b := DigitsEnd(s, a + 1);
       a + 1 < b < |s| && s[b] == '.'
       && var c := DigitsEnd(s, b + 1);
          b + 1 < c && PreRelease(s[c..])
  }

  lemma {:induction false} DigitsEndAt(s: string, i: nat, j: nat)
    requires i <= j <= |s|
    requires forall k :: i <= k < j ==> IsDigit(s[k])
    requires j == |s| || !IsDigit(s[j])
    ensures DigitsEnd(s, i) == j
    decreases j - i
  {
    if i < j {
      DigitsEndAt(s, i + 1, j);
    }
  }

  lemma MatchesVersionSound(s: string)
    requires MatchesVersion(s)
    ensures IsSemVer(s)
  {
    var a := DigitsEnd(s, 0);
    var b := DigitsEnd(s, a + 1);
    var c := DigitsEnd(s, b + 1);
    var x, y, z, p := s[..a], s[a + 1..b], s[b + 1..c], s[c..];
    assert Digits(x) && Digits(y) && Digits(z) && PreRelease(p);
    SplitAtDots(s, a, b, c);
  }

  /** A text cut at two dots and one more point is the concatenation of
      its pieces. */
  lemma SplitAtDots(s: string, a: nat, b: nat, c: nat)
    requires a < b < c <= |s| && s[a] == '.' && s[b] == '.'
    ensures s == s[..a] + "." + s[a + 1..b] + "." + s[b + 1..c] + s[c..]
  {
    var x, y, z, p := s[..a], s[a + 1..b], s[b + 1..c], s[c..];
    var t := x + "." + y + "." + z + p;
    forall k | 0 <= k < |s| ensures t[k] == s[k] {
      if k < a {
        assert t[k] == x[k];
      } else if k == a || k == b {
      } else if k < b {
        assert t[k] == y[k - a - 1];
      } else if k < c {
        assert t[k] == z[k - b - 1];
      } else {
        assert t[k] == p[k - c];
      }
    }
  }

  lemma MatchesVersionOfParts(x: string, y: string, z: string, p: string)
    requires Digits(x) && Digits(y) && Digits(z) && PreRelease(p)
    ensures MatchesVersion(x + "." + y + "." + z + p)
  {
    var s := x + "." + y + "." + z + p;
    var a := |x|;
    var b := a + 1 + |y|;
    var c := b + 1 + |z|;
    PartsLayout(x, y, z, p);
    DigitsEndAt(s, 0, a);
    DigitsEndAt(s, a + 1, b);
    DigitsEndAt(s, b + 1, c);
  }

  /** Where the parts of a version text sit. */
  lemma PartsLayout(x: string, y: string, z: string, p: string)
    requires Digits(x) && Digits(y) && Digits(z) && PreRelease(p)
    ensures var s := x + "." + y + "." + z + p;
      var a, b, c := |x|, |x| + 1 + |y|, |x| + |y| + |z| + 2;
      && c <= |s| && s[a] == '.' && s[b] == '.' && s[c..] == p
      && (forall k :: 0 <= k < a ==> IsDigit(s[k]))
      && (forall k :: a + 1 <= k < b ==> IsDigit(s[k]))
      && (forall k :: b + 1 <= k < c ==> IsDigit(s[k]))
      && (c == |s| || !IsDigit(s[c]))
  {
    var s := x + "." + y + "." + z + p;
    var a := |x|;
    var b := a + 1 + |y|;
    var c := b + 1 + |z|;
    assert forall k :: 0 <= k < a ==> s[k] == x[k];
    assert forall k :: a + 1 <= k < b ==> s[k] == y[k - a - 1];
    assert forall k :: b + 1 <= k < c ==> s[k] == z[k - b - 1];
    assert s[c..] == p;
  }

  lemma MatchesVersionComplete(s: string)
    requires IsSemVer(s)
    ensures MatchesVersion(s)
  {
    var x, y, z, p :| Digits(x) && Digits(y) && Digits(z) && PreRelease(p) && s == x + "." + y + "." + z + p;
    MatchesVersionOfParts(x, y, z, p);
  }

  /** The matcher accepts exactly the texts of the version grammar. */
  lemma MatchesVersionIff(s: string)
    ensures MatchesVersion(s) <==> IsSemVer(s)
  {
    if MatchesVersion(s) {
      MatchesVersionSound(s);
    }
    if IsSemVer(s) {
      MatchesVersionComplete(s);
    }
  }

  // ---------------------------------------------------------------------
  // validateThemeMetadata
  // ---------------------------------------------------------------------

  /** What each error reports about the metadata. */
  predicate Problem(m: Metadata, e: MetadataError) {
    match e
    case NameEmpty => m.name == ""
    case NamePrefix => m.name != "" && !HasPrefix(m.name, ThemeNamePrefix)
    case NameChars => m.name != "" && !IsThemeName(m.name)
    case DisplayNameEmpty => m.displayName == ""
    case VersionEmpty => m.version == ""
    case VersionFormat => m.version != "" && !MatchesVersion(m.version)
    case DescriptionEmpty => m.description == ""
    case AuthorMissing => m.author.JNull?
    case UnknownCategory(c) => c == m.category && m.category != "" && m.category !in Categories
  }

  predicate AboutName(e: MetadataError) { e.NameEmpty? || e.NamePrefix? || e.NameChars? }

  predicate AboutText(e: MetadataError) {
    e.DisplayNameEmpty? || e.VersionEmpty? || e.VersionFormat? || e.DescriptionEmpty?
  }

  /** The name checks. */
  function NameErrors(m: Metadata): (errors: seq<MetadataError>)
    ensures forall e :: e in errors <==> AboutName(e) && Problem(m, e)
  {
    if m.name == "" then [NameEmpty]
    else (if HasPrefix(m.name, ThemeNamePrefix) then [] else [NamePrefix])
         + (if IsThemeName(m.name) then [] else [NameChars])
  }

  /** The display-name, version and description checks. */
  function TextFieldErrors(m: Metadata): (errors: seq<MetadataError>)
    ensures forall e :: e in errors <==> AboutText(e) && Problem(m, e)
  {
    (if m.displayName == "" then [DisplayNameEmpty] else [])
    + (if m.version == "" then [VersionEmpty] else if MatchesVersion(m.version) then [] else [VersionFormat])
    + (if m.description == "" then [DescriptionEmpty] else [])
  }

  /** The author and category checks. */
  function AuthorCategoryErrors(m: Metadata): (errors: seq<MetadataError>)
    ensures forall e :: e in errors <==> !AboutName(e) && !AboutText(e) && Problem(m, e)
  {
    (if m.author.JNull? then [AuthorMissing] else [])
    + (if m.category != "" && m.category !in Categories then [UnknownCategory(m.category)] else [])
  }

  /** `validateThemeMetadata`: every problem, and only those, in field order. */
  function ValidateThemeMetadata(m: Metadata): (errors: seq<MetadataError>)
    ensures forall e :: e in errors <==> Problem(m, e)
  {
    NameErrors(m) + TextFieldErrors(m) + AuthorCategoryErrors(m)
  }

  /** Metadata passes validation exactly when every field is well formed. */
  lemma MetadataAcceptedIff(m: Metadata)
    ensures ValidateThemeMetadata(m) == [] <==>
      IsThemeName(m.name) && m.displayName != "" && IsSemVer(m.version)
      && m.description != "" && !m.author.JNull? && (m.category == "" || m.category in Categories)
  {
    MatchesVersionIff(m.version);
    var errors := ValidateThemeMetadata(m);
    if errors != [] {
      assert Problem(m, errors[0]);
    } else {
      assert !Problem(m, NameEmpty) && !Problem(m, NameChars) && !Problem(m, DisplayNameEmpty);
      assert !Problem(m, VersionEmpty) && !Problem(m, VersionFormat) && !Problem(m, DescriptionEmpty);
      assert !Problem(m, AuthorMissing) && !Problem(m, UnknownCategory(m.category));
    }
  }

  /** A name without the `theme-` prefix is reported twice: once for the
      prefix and once for the character rule. */
  lemma PrefixErrorImpliesCharsError(m: Metadata)
    ensures NamePrefix in ValidateThemeMetadata(m) ==> NameChars in ValidateThemeMetadata(m)
  {
  }

  // ---------------------------------------------------------------------
  // validateFileType
  // ---------------------------------------------------------------------

  const ForbiddenExtensions: seq<string> := [
    ".exe", ".bat", ".sh", ".cmd", ".com", ".php", ".asp", ".jsp", ".py", ".rb",
    ".dll", ".so", ".dylib", ".zip", ".rar", ".tar", ".7z"]

  const MacMetadataDir := "__MACOSX/"

  /** Entries of macOS archive metadata, which are skipped unchecked. */
  predicate IsMacMetadata(filename: string) {
    Contains(filename, MacMetadataDir) || HasPrefix(Base(filename), "._")
  }

  /** `validateFileType`: a package entry is refused exactly when it is not
      macOS metadata and its lower-cased extension is forbidden; unknown
      extensions are only logged. */
  function ValidateFileType(filename: string): (r: Option<string>)
    ensures r.Some? <==> !IsMacMetadata(filename) && ToLower(Ext(filename)) in ForbiddenExtensions
    ensures r.Some? ==> r.value == filename
  {
    if IsMacMetadata(filename) then None
    else if ToLower(Ext(filename)) in ForbiddenExtensions then Some(filename)
    else None
  }

  /** Lower-casing is Unicode's: a capital I with dot above turns ".zİp"
      into the forbidden ".zip". */
  lemma DottedCapitalIRefused(name: string)
    requires name == "evil.z\U{0130}p"
    ensures ValidateFileType(name) == Some(name)
  {
    DottedCapitalIExtension(name);
    DottedCapitalIPlain(name);
    PlainNameNotMetadata(name);
    ZipForbidden();
  }

  lemma DottedCapitalIPlain(name: string)
    requires name == "evil.z\U{0130}p"
    ensures 0 < |name| < |MacMetadataDir| && '/' !in name && name[0] != '.'
  {
  }

  lemma ZipForbidden()
    ensures ".zip" in ForbiddenExtensions
  {
    assert ForbiddenExtensions[13] == ".zip";
  }

  lemma DottedCapitalIExtension(name: string)
    requires name == "evil.z\U{0130}p"
    ensures ToLower(Ext(name)) == ".zip"
  {
    var e := ".z\U{0130}p";
    assert name[|name| - |e|..] == e;
    ExtOfSuffix(name, e);
    LowerDottedCapitalI(e);
  }

  lemma LowerDottedCapitalI(e: string)
    requires e == ".z\U{0130}p"
    ensures ToLower(e) == ".zip"
  {
    var low := ToLower(e);
    assert low[0] == '.' && low[1] == 'z' && low[2] == 'i' && low[3] == 'p';
  }

  /** A short name without '/' that does not start with '.' is not macOS
      metadata. */
  lemma PlainNameNotMetadata(name: string)
    requires 0 < |name| < |MacMetadataDir| && '/' !in name && name[0] != '.'
    ensures !IsMacMetadata(name)
  {
    ContainsShorter(name, MacMetadataDir);
    BaseOfPlain(name);
  }

  /** Anything under a `__MACOSX/` directory passes, whatever its type. */
  lemma MacMetadataAlwaysPasses(dir: string, rest: string)
    ensures ValidateFileType(dir + MacMetadataDir + rest).None?
  {
    var path := dir + MacMetadataDir + rest;
    assert path[|dir|..|dir| + |MacMetadataDir|] == MacMetadataDir;
    ContainsAt(path, MacMetadataDir, |dir|);
  }

  /** An entry without an extension is never refused. */
  lemma NoExtensionPasses(filename: string)
    requires Ext(filename) == ""
    ensures ValidateFileType(filename).None?
  {
    assert ToLower(Ext(filename)) == "";
  }

  // ---------------------------------------------------------------------
  // extractAuthorName, extractFirstScreenshot
  // ---------------------------------------------------------------------

  const UnknownAuthor := "Unknown"

  /** `extractAuthorName`: a string is taken up to its first '<' and trimmed
      (or whole, without '<'); an object gives its string `name` field;
      anything else is "Unknown". */
  function ExtractAuthorName(author: JsonValue): (name: string)
    ensures author.JString? && '<' !in author.str ==> name == author.str
    ensures author.JString? && '<' in author.str ==>
      exists i :: 0 <= i < |author.str| && author.str[i] == '<' && '<' !in author.str[..i]
                  && name == TrimSpace(author.str[..i])
    ensures author.JObject? && "name" in author.fields && author.fields["name"].JString? ==>
      name == author.fields["name"].str
    ensures !author.JString? && !(author.JObject? && "name" in author.fields && author.fields["name"].JString?) ==>
      name == UnknownAuthor
  {
    match author
    case JString(v) =>
      IndexOfSingle(v, '<');
      assert "<" == ['<'];
      (match IndexOf(v, "<")
       case Some(i) => TrimSpace(v[..i])
       case None => v)
    case JObject(fields) =>
      if "name" in fields && fields["name"].JString? then fields["name"].str else UnknownAuthor
    case _ => UnknownAuthor
  }

  /** The "Name <email>" form gives the name back. */
  lemma AuthorNameRoundTrip(name: string, email: string)
    requires '<' !in name
    requires name == [] || (!IsSpace(name[0]) && !IsSpace(name[|name| - 1]))
    ensures ExtractAuthorName(JString(name + " <" + email + ">")) == name
  {
    var v := name + " <" + email + ">";
    var at := |name| + 1;
    assert v[..at] == name + " ";
    assert forall k :: 0 <= k < at ==> v[k] == v[..at][k];
    IndexOfFirstChar(v, '<', at);
    assert "<" == ['<'];
    TrimSpaceOneBlank(name);
  }

  /** `extractFirstScreenshot`: a string is itself, an array gives its first
      element when that is a string, anything else gives "". */
  function ExtractFirstScreenshot(screenshots: JsonValue): (url: string)
    ensures screenshots.JString? ==> url == screenshots.str
    ensures screenshots.JArray? && |screenshots.items| > 0 && screenshots.items[0].JString? ==>
      url == screenshots.items[0].str
    ensures url != "" ==> screenshots.JString? || (screenshots.JArray? && |screenshots.items| > 0 && screenshots.items[0] == JString(url))
  {
    match screenshots
    case JString(v) => v
    case JArray(items) => if |items| > 0 && items[0].JString? then items[0].str else ""
    case _ => ""
  }

  // ---------------------------------------------------------------------
  // mergeConfigWithDefaults
  // ---------------------------------------------------------------------

  /** A declared setting; a missing or null default is `None`. */
  datatype SettingField = SettingField(name: string, default: Option<JsonValue>)

  datatype SettingGroup = SettingGroup(group: string, fields: seq<SettingField>)

  /** The fields of all groups, in declaration order. */
  function AllFields(settings: seq<SettingGroup>): (fields: seq<SettingField>)
    ensures forall f :: f in fields <==> exists g :: g in settings && f in g.fields
  {
    if settings == [] then [] else AllFields(settings[..|settings| - 1]) + settings[|settings| - 1].fields
  }

  /** The defaults map: later declarations of a name overwrite earlier ones. */
  function Defaults(fields: seq<SettingField>): (m: map<string, JsonValue>)
    ensures forall key :: key in m <==> exists f :: f in fields && f.name == key && f.default.Some?
  {
    if fields == [] then map[]
    else
      var m := Defaults(fields[..|fields| - 1]);
      var last := fields[|fields| - 1];
      assert forall f :: f in fields <==> f in fields[..|fields| - 1] || f == last;
      if last.default.Some? then m[last.name := last.default.value] else m
  }

  /** A default is the one of the last declaration of that name that has one;
      `k` is that declaration's position. */
  lemma {:induction false} DefaultsLastWins(fields: seq<SettingField>, key: string) returns (k: nat)
    requires key in Defaults(fields)
    ensures k < |fields| && fields[k].name == key && fields[k].default == Some(Defaults(fields)[key])
    ensures forall j :: k < j < |fields| ==> !(fields[j].name == key && fields[j].default.Some?)
  {
    var init := fields[..|fields| - 1];
    var last := fields[|fields| - 1];
    if last.default.Some? && last.name == key {
      k := |fields| - 1;
    } else {
      k := DefaultsLastWins(init, key);
      assert fields[k] == init[k];
      assert forall j :: k < j < |init| ==> fields[j] == init[j];
    }
  }

  /** `mergeConfigWithDefaults`: the declared defaults, overridden by every
      key the user configured. */
  function MergeConfigWithDefaults(settings: seq<SettingGroup>, userConfig: map<string, JsonValue>): (r: map<string, JsonValue>)
    ensures forall key :: key in userConfig ==> key in r && r[key] == userConfig[key]
    ensures forall key :: key in r <==> key in userConfig || key in Defaults(AllFields(settings))
    ensures forall key :: key in r && key !in userConfig ==> r[key] == Defaults(AllFields(settings))[key]
  {
    Defaults(AllFields(settings)) + userConfig
  }

  /** Merging a merged configuration again changes nothing. */
  lemma MergeIdempotent(settings: seq<SettingGroup>, userConfig: map<string, JsonValue>)
    ensures var once := MergeConfigWithDefaults(settings, userConfig);
            MergeConfigWithDefaults(settings, once) == once
  {
  }
}
