/**
 * The pure rules of `src/utils/common.ts`: the English-only content scan
 * over UTF-16 code units, the reverse lookup of a value in a table, the
 * classification of a file path by platform, language and extension, and
 * the decisions of `validatePath` and `validateFile` that depend on names
 * only.
 */
module Common {
  import opened Wrappers
  import opened Tables
  import opened JsStrings
  import opened Paths
  import opened Constants

  /** A UTF-16 code unit, what `charCodeAt` returns. */
  type CodeUnit = x: int | 0 <= x < 0x1_0000

  /** A code unit the scan lets through on its own: ASCII or one of the ten allowed typographic marks. */
  predicate Allowed(c: CodeUnit)
  {
    !(c > 127 &&
      c != 8216 && c != 8217 &&   // single quotation marks
      c != 8220 && c != 8221 &&   // double quotation marks
      c != 8226 &&                // bullet
      c != 169 &&                 // copyright sign
      c != 8212 &&                // em dash
      c != 8232 &&                // line separator
      c != 160 &&                 // no-break space
      c != 8230)                  // ellipsis
  }

  predicate IsHighSurrogate(c: CodeUnit)
  {
    0xD800 <= c <= 0xDBFF
  }

  predicate IsLowSurrogate(c: CodeUnit)
  {
    0xDC00 <= c <= 0xDFFF
  }

  /**
   * What `isEnglishOnly` answers, read from the front: an allowed unit is
   * consumed alone, a high surrogate together with the low surrogate right
   * after it, and anything else rejects the text.
   */
  function Accepts(text: seq<CodeUnit>): bool
    decreases |text|
  {
    if text == [] then true
    else if Allowed(text[0]) then Accepts(text[1..])
    else if IsHighSurrogate(text[0]) && |text| >= 2 && IsLowSurrogate(text[1]) then Accepts(text[2..])
    else false
  }

  /** `isEnglishOnly(text, fullPath)`; the path only labels the error message. */
  method IsEnglishOnly(text: seq<CodeUnit>) returns (b: bool)
    ensures b == Accepts(text)
  {
    var i := 0;
    while i < |text|
      invariant 0 <= i <= |text|
      invariant Accepts(text) == Accepts(text[i..])
    {
      var charCode := text[i];
      if !Allowed(charCode) {
        if IsHighSurrogate(charCode) {
          // `charCodeAt` past the end is NaN, which fails both comparisons
          if i + 1 < |text| && IsLowSurrogate(text[i + 1]) {
            assert text[i..][2..] == text[i + 2..];
            i := i + 2;
            continue;
          }
        }
        return false;
      }
      assert text[i..][1..] == text[i + 1..];
      i := i + 1;
    }
    return true;
  }

  /**
   * The unit at `i` is acceptable where it stands: allowed, or a high
   * surrogate with a low one after it, or a low surrogate with a high one
   * before it.
   */
  predicate UnitOk(s: seq<CodeUnit>, i: nat)
    requires i < |s|
  {
    Allowed(s[i]) ||
    (IsHighSurrogate(s[i]) && i + 1 < |s| && IsLowSurrogate(s[i + 1])) ||
    (IsLowSurrogate(s[i]) && i > 0 && IsHighSurrogate(s[i - 1]))
  }

  predicate AllUnitsOk(s: seq<CodeUnit>)
  {
    forall i: nat :: i < |s| ==> UnitOk(s, i)
  }

  /** Dropping a prefix that does not end in a high surrogate leaves the verdict of every later unit as it was. */
  lemma UnitOkShift(s: seq<CodeUnit>, k: nat)
    requires 0 < k <= |s| && !IsHighSurrogate(s[k - 1])
    ensures forall j: nat :: j < |s| - k ==> (UnitOk(s[k..], j) <==> UnitOk(s, j + k))
  {
  }

  /** The scan accepts a text exactly when every one of its units is acceptable where it stands. */
  lemma {:induction false} AcceptsIff(s: seq<CodeUnit>)
    ensures Accepts(s) <==> AllUnitsOk(s)
    decreases |s|
  {
    if s == [] {
    } else if Allowed(s[0]) {
      AcceptsIff(s[1..]);
      UnitOkShift(s, 1);
      if AllUnitsOk(s[1..]) {
        forall i: nat | i < |s| ensures UnitOk(s, i) {
          if i > 0 {
            assert UnitOk(s[1..], i - 1);
          }
        }
      }
    } else if IsHighSurrogate(s[0]) && |s| >= 2 && IsLowSurrogate(s[1]) {
      AcceptsIff(s[2..]);
      UnitOkShift(s, 2);
      if AllUnitsOk(s[2..]) {
        forall i: nat | i < |s| ensures UnitOk(s, i) {
          if i > 1 {
            assert UnitOk(s[2..], i - 2);
          }
        }
      }
    } else {
      assert !UnitOk(s, 0);
    }
  }

  /** A high surrogate at the very end is never accepted, whatever comes before it. */
  lemma TrailingHighSurrogateRejected(s: seq<CodeUnit>, h: CodeUnit)
    requires IsHighSurrogate(h)
    ensures !Accepts(s + [h])
  {
    AcceptsIff(s + [h]);
    assert !UnitOk(s + [h], |s|);
  }

  /** A low surrogate with no high surrogate before it is never accepted. */
  lemma LoneLowSurrogateRejected(s: seq<CodeUnit>, i: nat)
    requires i < |s| && IsLowSurrogate(s[i]) && (i == 0 || !IsHighSurrogate(s[i - 1]))
    ensures !Accepts(s)
  {
    AcceptsIff(s);
    assert !UnitOk(s, i);
  }

  /** The UTF-16 encoding of one character. */
  function EncodeChar(c: char): (r: seq<CodeUnit>)
    ensures |r| == 1 || |r| == 2
  {
    var n := c as int;
    if n < 0x1_0000 then [n]
    else [0xD800 + (n - 0x1_0000) / 0x400, 0xDC00 + (n - 0x1_0000) % 0x400]
  }

  /** The UTF-16 code units of a string, as JavaScript stores it. */
  function Utf16(s: string): seq<CodeUnit>
  {
    if s == [] then [] else EncodeChar(s[0]) + Utf16(s[1..])
  }

  /** A character the scan accepts: an allowed one, or one outside the basic plane (an emoji). */
  predicate EnglishChar(c: char)
  {
    if c as int < 0x1_0000 then Allowed(c as int) else true
  }

  /** On the code units of a string, the scan accepts exactly the strings made of such characters. */
  lemma {:induction false} AcceptsUtf16(s: string)
    ensures Accepts(Utf16(s)) <==> forall i :: 0 <= i < |s| ==> EnglishChar(s[i])
  {
    if s != [] {
      AcceptsUtf16(s[1..]);
      var e, rest := EncodeChar(s[0]), Utf16(s[1..]);
      var u := e + rest;
      if |e| == 1 {
        assert u[1..] == rest;
      } else {
        assert u[2..] == rest;
      }
      if forall i :: 0 <= i < |s[1..]| ==> EnglishChar(s[1..][i]) {
        if EnglishChar(s[0]) {
          forall i | 0 <= i < |s| ensures EnglishChar(s[i]) {
            if i > 0 {
              assert s[i] == s[1..][i - 1];
            }
          }
        }
      } else {
        var i :| 0 <= i < |s[1..]| && !EnglishChar(s[1..][i]);
        assert s[i + 1] == s[1..][i];
      }
    }
  }

  /** The reference answer of `getKeyByValue`: the name of the first entry holding the value. */
  function KeyOfValue(t: Table<string>, value: string): (r: Option<string>)
    ensures r.None? <==> forall i :: 0 <= i < |t| ==> t[i].1 != value
  {
    if t == [] then None
    else if t[0].1 == value then Some(t[0].0)
    else
      var r := KeyOfValue(t[1..], value);
      assert forall i :: 1 <= i < |t| ==> t[i] == t[1..][i - 1];
      r
  }

  /** The entry found is the first one holding the value. */
  lemma {:induction false} KeyOfValueFirst(t: Table<string>, value: string, i: nat)
    requires i < |t| && t[i].1 == value
    requires forall j :: 0 <= j < i ==> t[j].1 != value
    ensures KeyOfValue(t, value) == Some(t[i].0)
  {
    if i > 0 {
      KeyOfValueFirst(t[1..], value, i - 1);
    }
  }

  /** `getKeyByValue(obj, value)`, `None` standing for `undefined`. */
  method GetKeyByValue(obj: Table<string>, value: string) returns (key: Option<string>)
    ensures key == KeyOfValue(obj, value)
  {
    for i := 0 to |obj|
      invariant KeyOfValue(obj, value) == KeyOfValue(obj[i..], value)
    {
      assert obj[i..][1..] == obj[i + 1..];
      if obj[i].1 == value {
        return Some(obj[i].0);
      }
    }
    return None;
  }

  /** Language codes are distinct, so the reverse lookup of a language's code gives that language. */
  lemma LanguageKeyOfCode(k: nat)
    requires k < |Languages|
    ensures KeyOfValue(Languages, Languages[k].1) == Some(Languages[k].0)
  {
    LanguageCodesDistinct();
    KeyOfValueFirst(Languages, Languages[k].1, k);
  }

  const PlatformPatterns: seq<string> := ["android", "ios", "portal"]
  const LanguagePatterns: seq<string> := ["hindi", "french", "urdu"]
  /** `/(.strings|.xml|.json)/i`, whose `.` stands for any character but a line terminator. */
  const ExtPatterns: seq<string> := [".strings", ".xml", ".json"]

  /** What `checkPath` returns when it does not return `null`. */
  datatype PathInfo = PathInfo(platform: Platform, language: Option<string>, path: Path)

  /** The platform an extension selects: `.strings` and `.xml` their own, anything else the portal. */
  function PlatformOfExt(ext: string): Platform
  {
    if ext == Extension(Ios) then Ios
    else if ext == Extension(Android) then Android
    else Portal
  }

  /** Every platform's extension selects that platform back. */
  lemma PlatformOfExtension(q: Platform)
    ensures PlatformOfExt(Extension(q)) == q
  {
  }

  /** The extension that the platform token of a converted file's path stands for. */
  function ExtOfPlatformToken(token: Option<string>): string
  {
    if token == Some(PlatformName(Ios)) then Extension(Ios)
    else if token == Some(PlatformName(Android)) then Extension(Android)
    else Extension(Portal)
  }

  /** `filePath.toLowerCase()`, ASCII letters only. */
  function LowerPath(filePath: Path): string
  {
    ToLowerAscii(PathString(filePath))
  }

  /** `path.extname(filePath.toLowerCase())` */
  function LowerExt(filePath: Path): string
  {
    Extname(ToLowerAscii(BaseName(filePath)))
  }

  /** `checkPath(filePath, isConverted)`, `None` standing for `null`. */
  function CheckPath(filePath: Path, isConverted: bool): Option<PathInfo>
  {
    var platformMatch := MatchedText(LowerPath(filePath), PlatformPatterns);
    var language := MatchedText(LowerPath(filePath), LanguagePatterns);
    var ext := if isConverted then Some(ExtOfPlatformToken(platformMatch))
               else MatchedText(LowerExt(filePath), ExtPatterns);
    match ext
    case None => None
    case Some(e) => Some(PathInfo(PlatformOfExt(e), language, filePath))
  }

  /**
   * For a converted file the answer is never `null`, and its platform is
   * the one named by the first platform token in the path (`ios` or
   * `android`), the portal when that token is `portal` or there is none.
   */
  lemma CheckPathConverted(filePath: Path, q: Platform)
    ensures CheckPath(filePath, true).Some?
    ensures q != Portal ==>
              (CheckPath(filePath, true).value.platform == q <==>
               MatchedText(LowerPath(filePath), PlatformPatterns) == Some(PlatformName(q)))
    ensures CheckPath(filePath, true).value.platform == Portal <==>
              MatchedText(LowerPath(filePath), PlatformPatterns) !in {Some("ios"), Some("android")}
  {
  }

  /**
   * For a file still to be converted the answer is `null` exactly when no
   * alternative of the extension pattern occurs in the lower-cased
   * extension; otherwise `.strings` gives iOS, `.xml` Android and any other
   * match the portal.
   */
  lemma CheckPathUnconverted(filePath: Path)
    ensures CheckPath(filePath, false).None? <==>
              forall j, b :: 0 <= b < |ExtPatterns| ==> !PatternAt(LowerExt(filePath), j, ExtPatterns[b])
    ensures CheckPath(filePath, false).Some? ==>
              var m := MatchedText(LowerExt(filePath), ExtPatterns).value;
              (CheckPath(filePath, false).value.platform == Ios <==> m == ".strings") &&
              (CheckPath(filePath, false).value.platform == Android <==> m == ".xml")
  {
  }

  /** A file whose extension is, in any case, exactly a platform's extension is assigned that platform. */
  lemma CheckPathByExtension(filePath: Path, q: Platform)
    requires LowerExt(filePath) == Extension(q)
    ensures CheckPath(filePath, false).Some? && CheckPath(filePath, false).value.platform == q
  {
    var e := Extension(q);
    assert PatternAt(e, 0, e);
    match q
    case Ios =>
      assert AltAt(e, 0, ExtPatterns, 0) == Some(0);
    case Android =>
      assert !PatternAt(e, 0, ExtPatterns[0]);
      assert AltAt(e, 0, ExtPatterns, 0) == Some(1);
    case Portal =>
      assert !PatternAt(e, 0, ExtPatterns[0]);
      assert !PatternAt(e, 0, ExtPatterns[1]) by { assert !CharMatches(ExtPatterns[1][1], e[1]); }
      assert AltAt(e, 0, ExtPatterns, 0) == Some(2);
    assert SearchFrom(e, 0, ExtPatterns).value.0 == 0;
  }

  /** No alternative of the pattern holds a wildcard. */
  predicate Literal(pats: seq<string>)
  {
    forall b, m :: 0 <= b < |pats| && 0 <= m < |pats[b]| ==> pats[b][m] != '.'
  }

  /** No alternative occurs left of position `j`. */
  predicate NoneBefore(s: string, pats: seq<string>, j: nat)
  {
    forall j': nat, b :: j' < j && 0 <= b < |pats| ==> !PatternAt(s, j', pats[b])
  }

  /** No alternative occurs anywhere. */
  ghost predicate NoneAnywhere(s: string, pats: seq<string>)
  {
    forall j: nat, b :: 0 <= b < |pats| ==> !PatternAt(s, j, pats[b])
  }

  /** `w` is an alternative occurring at some position left of which none occurs. */
  ghost predicate FirstFound(s: string, pats: seq<string>, w: string)
  {
    exists b: nat, j: nat :: b < |pats| && w == pats[b] && PatternAt(s, j, pats[b]) && NoneBefore(s, pats, j)
  }

  /** A search for literal alternatives finds the leftmost one, and finds nothing exactly when none occurs. */
  lemma LiteralMatch(s: string, pats: seq<string>)
    requires Literal(pats)
    ensures MatchedText(s, pats).None? <==> NoneAnywhere(s, pats)
    ensures MatchedText(s, pats).Some? ==> FirstFound(s, pats, MatchedText(s, pats).value)
  {
    if MatchedText(s, pats).Some? {
      var hit := SearchFrom(s, 0, pats).value;
      var pat := pats[hit.1];
      assert s[hit.0..hit.0 + |pat|] == pat;
      assert NoneBefore(s, pats, hit.0);
    }
  }

  /**
   * The answer carries the path unchanged, and as language the first of
   * `hindi`, `french`, `urdu` that occurs in the lower-cased path, `None`
   * when none of them occurs.
   */
  lemma CheckPathKeeps(filePath: Path, isConverted: bool)
    ensures CheckPath(filePath, isConverted).Some? ==>
              CheckPath(filePath, isConverted).value.path == filePath
    ensures CheckPath(filePath, isConverted).Some? ==>
              var language := CheckPath(filePath, isConverted).value.language;
              (language.None? <==> NoneAnywhere(LowerPath(filePath), LanguagePatterns)) &&
              (language.Some? ==> FirstFound(LowerPath(filePath), LanguagePatterns, language.value))
  {
    var lower := LowerPath(filePath);
    CheckPathFields(filePath, isConverted);
    LiteralMatch(lower, LanguagePatterns);
  }

  /** The answer's path and language fields, when there is an answer. */
  lemma CheckPathFields(filePath: Path, isConverted: bool)
    ensures CheckPath(filePath, isConverted).Some? ==>
              CheckPath(filePath, isConverted).value.path == filePath &&
              CheckPath(filePath, isConverted).value.language == MatchedText(LowerPath(filePath), LanguagePatterns)
  {
  }

  /** What `validatePath` decides from the names alone. */
  datatype PathVerdict =
    | Accepted      // returns true
    | Rejected      // returns false
    | ReadsContent  // a `.json` file under a localisation directory: the answer depends on its content

  /** `validatePath(fullPath)` up to reading a portal file. */
  function ValidatePathDecision(fullPath: Path): PathVerdict
  {
    var extName := Extname(BaseName(fullPath));
    var baseName := BaseName(DirName(fullPath));
    if extName == Extension(Ios) && baseName == "en.lproj" then Accepted
    else if extName == Extension(Android) && baseName == "values" then Accepted
    else if extName == Extension(Portal) &&
            MatchedText(ToLowerAscii(PathString(DirName(fullPath))), ["localisation", "localization"]).Some?
    then ReadsContent
    else Rejected
  }

  /**
   * A `.strings` file in directory `dir` is accepted exactly when `dir` is
   * named `en.lproj`, an `.xml` file exactly when it is named `values`; a
   * file with any other extension is never accepted from its name.
   */
  lemma ValidatePathInDirectory(dir: Path, name: string)
    requires name != ""
    ensures Extname(name) == Extension(Ios) ==>
              (ValidatePathDecision(Join(dir, name)) == Accepted <==> BaseName(dir) == "en.lproj")
    ensures Extname(name) == Extension(Android) ==>
              (ValidatePathDecision(Join(dir, name)) == Accepted <==> BaseName(dir) == "values")
    ensures Extname(name) != Extension(Ios) && Extname(name) != Extension(Android) ==>
              ValidatePathDecision(Join(dir, name)) != Accepted
    ensures ValidatePathDecision(Join(dir, name)) == ReadsContent ==> Extname(name) == Extension(Portal)
  {
    JoinInverse(dir, name);
  }

  /** `validateFile(fullPath)` on the file's content. */
  method ValidateFile(fullPath: Path, fileData: seq<CodeUnit>) returns (r: Option<Path>)
    ensures r.Some? <==> Accepts(fileData) && Extname(BaseName(fullPath)) != Extension(Portal)
    ensures r.Some? ==> r.value == fullPath
  {
    var isEnglishContent := IsEnglishOnly(fileData);
    if !isEnglishContent {
      return None;
    }
    if Extname(BaseName(fullPath)) != Extension(Portal) {
      return Some(fullPath);
    }
    return None;
  }
}
