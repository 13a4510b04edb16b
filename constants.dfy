/**
 * The literal tables of `src/utils/constants.ts`: the language names with
 * their ISO codes, the file extension of each platform and the platform
 * names.
 */
module Constants {
  /** The keys of `extensions` and `platforms`. */
  datatype Platform = Ios | Android | Portal

  /** `platforms`: each key maps to its own name. */
  function PlatformName(p: Platform): (name: string)
    ensures name in {"ios", "android", "portal"}
  {
    match p
    case Ios => "ios"
    case Android => "android"
    case Portal => "portal"
  }

  /** `extensions` */
  function Extension(p: Platform): (ext: string)
    ensures |ext| > 1 && ext[0] == '.'
  {
    match p
    case Ios => ".strings"
    case Android => ".xml"
    case Portal => ".json"
  }

  /** An extension is a dot followed by lower-case letters only. */
  lemma ExtensionShape(p: Platform)
    ensures Extension(p) == "." + Extension(p)[1..]
    ensures forall i :: 1 <= i < |Extension(p)| ==> 'a' <= Extension(p)[i] <= 'z'
  {
  }

  /** No two platforms share a file extension or a name. */
  lemma PlatformTablesInjective(p: Platform, q: Platform)
    ensures Extension(p) == Extension(q) ==> p == q
    ensures PlatformName(p) == PlatformName(q) ==> p == q
  {
  }

  /**
   * `languages`: display name -> ISO code, in declaration order.  The
   * literal is written as four blocks of fifteen so that the verifier
   * reaches every element cheaply.
   */
  const Languages: seq<(string, string)> := LanguagesA + LanguagesB + LanguagesC + LanguagesD

  const LanguagesA: seq<(string, string)> := [
    ("Hindi", "hi"), ("French", "fr"), ("Urdu", "ur"),
    ("Filipino", "fil"), ("Persian", "fa"), ("Punjabi", "pa"),
    ("Bengali", "bn"), ("Russian", "ru"), ("Chinese", "zh"),
    ("Nepali", "ne"), ("Marathi", "mr"), ("Malay", "ms"),
    ("Albanian", "sq"), ("Armenian", "hy"), ("Azerbaijani", "az")
  ]

  const LanguagesB: seq<(string, string)> := [
    ("Basque", "eu"), ("Bosnian", "bs"), ("Brazilian Portuguese", "pt-BR"),
    ("Bulgarian", "bg"), ("Catalan", "ca"), ("Croatian", "hr"),
    ("Czech", "cs"), ("Danish", "da"), ("Dutch", "nl"),
    ("Estonian", "et"), ("Finnish", "fi"), ("Galician", "gl"),
    ("Georgian", "ka"), ("German", "de"), ("Greek", "el")
  ]

  const LanguagesC: seq<(string, string)> := [
    ("Gujarati", "gu"), ("Hungarian", "hu"), ("Indonesian", "id"),
    ("Italian", "it"), ("Japanese", "ja"), ("Kannada", "kn"),
    ("Kazakh", "kk"), ("Korean", "ko"), ("Latvian", "lv"),
    ("Lithuanian", "lt"), ("Macedonian", "mk"), ("Maltese", "mt"),
    ("Mandarin", "zh-CN"), ("Mongolian", "mn"), ("Norwegian", "nb")
  ]

  const LanguagesD: seq<(string, string)> := [
    ("Oriya", "or"), ("Pashto", "ps"), ("Polish", "pl"),
    ("Portuguese", "pt"), ("Romanian", "ro"), ("Serbian", "sr"),
    ("Sinhala", "si"), ("Slovak", "sk"), ("Slovene", "sl"),
    ("Ukrainian", "uk"), ("Uzbek", "uz"), ("Vietnamese", "vi"),
    ("Welsh", "cy"), ("zh-Hans", "zh-Hans"), ("zh-Hant", "zh-Hant")
  ]

  /** The code used when no language is given: the first value of `languages`. */
  const DefaultLanguageCode: string := Languages[0].1

  lemma DefaultIsHindi()
    ensures |Languages| == 60
    ensures Languages[0] == ("Hindi", "hi") && DefaultLanguageCode == "hi"
  {
  }

  /** Every language code is a non-empty string. */
  lemma LanguageCodesNonEmpty()
    ensures forall i :: 0 <= i < |Languages| ==> Languages[i].1 != ""
  {
  }

  /** The display name (`byName`) or the ISO code of an entry. */
  function Field(e: (string, string), byName: bool): string
  {
    if byName then e.0 else e.1
  }

  /** No field repeats inside `x`. */
  predicate DistinctIn(x: seq<(string, string)>, byName: bool)
  {
    forall i, j :: 0 <= i < j < |x| ==> Field(x[i], byName) != Field(x[j], byName)
  }

  /** No field of `x` is a field of `y`. */
  predicate Apart(x: seq<(string, string)>, y: seq<(string, string)>, byName: bool)
  {
    forall i, j :: 0 <= i < |x| && 0 <= j < |y| ==> Field(x[i], byName) != Field(y[j], byName)
  }

  lemma {:induction false} DistinctConcat(x: seq<(string, string)>, y: seq<(string, string)>, byName: bool)
    requires DistinctIn(x, byName) && DistinctIn(y, byName) && Apart(x, y, byName)
    ensures DistinctIn(x + y, byName)
  {
    forall i, j | 0 <= i < j < |x + y|
      ensures Field((x + y)[i], byName) != Field((x + y)[j], byName)
    {
      if j < |x| {
        assert (x + y)[i] == x[i] && (x + y)[j] == x[j];
      } else if i < |x| {
        assert (x + y)[i] == x[i] && (x + y)[j] == y[j - |x|];
      } else {
        assert (x + y)[i] == y[i - |x|] && (x + y)[j] == y[j - |x|];
      }
    }
  }

  lemma {:induction false} ApartConcat(x: seq<(string, string)>, y: seq<(string, string)>, z: seq<(string, string)>, byName: bool)
    requires Apart(x, z, byName) && Apart(y, z, byName)
    ensures Apart(x + y, z, byName)
  {
    forall i, j | 0 <= i < |x + y| && 0 <= j < |z|
      ensures Field((x + y)[i], byName) != Field(z[j], byName)
    {
      if i < |x| {
        assert (x + y)[i] == x[i];
      } else {
        assert (x + y)[i] == y[i - |x|];
      }
    }
  }

  lemma DistinctA(byName: bool) ensures DistinctIn(LanguagesA, byName) {}
  lemma DistinctB(byName: bool) ensures DistinctIn(LanguagesB, byName) {}
  lemma DistinctC(byName: bool) ensures DistinctIn(LanguagesC, byName) {}
  lemma DistinctD(byName: bool) ensures DistinctIn(LanguagesD, byName) {}
  lemma ApartAB(byName: bool) ensures Apart(LanguagesA, LanguagesB, byName) {}
  lemma ApartAC(byName: bool) ensures Apart(LanguagesA, LanguagesC, byName) {}
  lemma ApartAD(byName: bool) ensures Apart(LanguagesA, LanguagesD, byName) {}
  lemma ApartBC(byName: bool) ensures Apart(LanguagesB, LanguagesC, byName) {}
  lemma ApartBD(byName: bool) ensures Apart(LanguagesB, LanguagesD, byName) {}
  lemma ApartCD(byName: bool) ensures Apart(LanguagesC, LanguagesD, byName) {}

  /** Neither a display name nor an ISO code repeats in `languages`. */
  lemma LanguagesDistinct(byName: bool)
    ensures DistinctIn(Languages, byName)
  {
    var a, b, c, d := LanguagesA, LanguagesB, LanguagesC, LanguagesD;
    DistinctA(byName); DistinctB(byName); DistinctC(byName); DistinctD(byName);
    ApartAB(byName); ApartAC(byName); ApartAD(byName);
    ApartBC(byName); ApartBD(byName); ApartCD(byName);
    DistinctConcat(a, b, byName);
    ApartConcat(a, b, c, byName);
    DistinctConcat(a + b, c, byName);
    ApartConcat(a, b, d, byName);
    ApartConcat(a + b, c, d, byName);
    DistinctConcat(a + b + c, d, byName);
  }

  /** No two languages share an ISO code. */
  lemma LanguageCodesDistinct()
    ensures forall i, j :: 0 <= i < j < |Languages| ==> Languages[i].1 != Languages[j].1
  {
    LanguagesDistinct(false);
  }

  /** No two languages share a display name. */
  lemma LanguageNamesDistinct()
    ensures forall i, j :: 0 <= i < j < |Languages| ==> Languages[i].0 != Languages[j].0
  {
    LanguagesDistinct(true);
  }
}
