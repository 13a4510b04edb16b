/**
 * The driver of `src/app.ts`: its global state (the language table it
 * rotates through, the current language, the current platform and the
 * per-language log of translated files), the routing of a file through the
 * forward (decode) and reverse (encode) converters, the names of the
 * folders and files it writes, and the rotation over the languages.
 *
 * What lies outside the program is a parameter `FileEnv`: the content of a
 * file, the XML and JSON parsers, the translation request and the request
 * id.  Writing a file is returned as an `Action`; its content is what the
 * converters of `StringsHandler` and `XmlHandler` compute.
 */
module App {
  import opened Wrappers
  import opened Tables
  import opened Paths
  import opened Constants
  import opened Common
  import JsStrings
  import StringsHandler
  import XmlHandler

  /** `{ path, fileID }`: a file and the id of its translation request. */
  datatype FileRecord = FileRecord(path: string, fileID: string)

  /** The log of one language: the files saved and the files that failed. */
  datatype LogEntry = LogEntry(success: seq<FileRecord>, failure: seq<FileRecord>)

  datatype Status = Success | Failure

  /** The entry a language's log starts from. */
  const EmptyEntry: LogEntry := LogEntry([], [])

  /** `entry[status].push(r)` */
  function Push(e: LogEntry, status: Status, r: FileRecord): LogEntry
  {
    match status
    case Success => e.(success := e.success + [r])
    case Failure => e.(failure := e.failure + [r])
  }

  /** The log after `calculateOperationStatus(path, fileID, status, "filesCount")`. */
  function Recorded(log: Table<LogEntry>, langKey: string, status: Status, r: FileRecord): Table<LogEntry>
  {
    var e := if Get(log, langKey).Some? then Get(log, langKey).value else EmptyEntry;
    Assign(log, langKey, Push(e, status, r))
  }

  function Size(e: LogEntry): nat
  {
    |e.success| + |e.failure|
  }

  /** The number of files recorded in the whole log. */
  function TotalRecords(log: Table<LogEntry>): nat
  {
    if log == [] then 0 else Size(log[0].1) + TotalRecords(log[1..])
  }

  /**
   * Recording a file touches only the current language's entry, which is
   * created empty when missing and gains the record at the end of the
   * chosen list; every other language reads as before.
   */
  lemma RecordedGet(log: Table<LogEntry>, langKey: string, status: Status, r: FileRecord, k: string)
    ensures Get(Recorded(log, langKey, status, r), k) ==
              if k != langKey then Get(log, k)
              else Some(Push(if Get(log, langKey).Some? then Get(log, langKey).value else EmptyEntry, status, r))
    ensures langKey in Keys(Recorded(log, langKey, status, r))
    ensures Keys(Recorded(log, langKey, status, r)) ==
              if langKey in Keys(log) then Keys(log) else Keys(log) + [langKey]
  {
    var e := if Get(log, langKey).Some? then Get(log, langKey).value else EmptyEntry;
    AssignGet(log, langKey, Push(e, status, r), k);
    AssignKeys(log, langKey, Push(e, status, r));
  }

  lemma {:induction false} TotalAssign(t: Table<LogEntry>, k: string, v: LogEntry)
    ensures TotalRecords(Assign(t, k, v)) + (if Get(t, k).Some? then Size(Get(t, k).value) else 0) ==
              TotalRecords(t) + Size(v)
  {
    if t != [] && t[0].0 != k {
      TotalAssign(t[1..], k, v);
    }
  }

  /** Every call records exactly one file. */
  lemma RecordedAddsOne(log: Table<LogEntry>, langKey: string, status: Status, r: FileRecord)
    ensures TotalRecords(Recorded(log, langKey, status, r)) == TotalRecords(log) + 1
  {
    var e := if Get(log, langKey).Some? then Get(log, langKey).value else EmptyEntry;
    TotalAssign(log, langKey, Push(e, status, r));
  }

  /** What `transformFiles` is handed: the raw file content, or a translated table. */
  datatype FileData = Content(text: string) | Json(table: Table<string>)

  /** The table a forward branch returns, by the converter that made it. */
  datatype Forward =
    | FromStrings(strings: Table<string>)
    | FromXml(xml: Table<Option<string>>)
    | FromJson(json: Table<string>)

  /** The file a branch writes: by which writer, where, and from what data. */
  datatype Action =
    | NoWrite
    | EncodeStrings(destDir: Path, data: FileData)   // `jsonToStrings(filePath, destPath, fileData)`
    | EncodeXml(destDir: Path, data: FileData)       // `jsonToXML(fileData, filePath, destPath, langISOCode)`
    | WriteJson(file: Path, data: FileData)          // `fs.writeFile(outputFilePath, JSON.stringify(fileData))`

  /** What `transformFiles` ends with. */
  datatype Transformed = Transformed(jsonData: Option<Forward>, action: Action) | TransformThrew

  /** The world outside the program. */
  datatype FileEnv = FileEnv(
    content: Path -> string,                                // `fs.readFile`
    parseXml: string -> Option<XmlHandler.StringField>,     // `resources.string` of the parsed XML; `None` when parsing fails
    parseJson: string -> Option<Table<string>>,             // `JSON.parse`; `None` when it throws
    translate: (Forward, string) -> Option<Table<string>>,  // `translateRequest`; `None` when it returns null or throws
    uuid: (string, Path) -> string)                         // `uuidv4()`, for a language and a file

  /** `path.resolve(p)` against the working directory; `.` and `..` segments are taken as plain names. */
  function Resolve(p: Path, cwd: Path): Path
  {
    if p.absolute then p else Path(true, cwd.segments + p.segments)
  }

  predicate IsAsciiLetter(c: char)
  {
    'a' <= c <= 'z' || 'A' <= c <= 'Z'
  }

  /**
   * A name matched by `/^([a-z]{2})(?=\.lproj$)/i`: two letters, then
   * `.lproj` in any letter case (the `i` flag covers the lookahead too),
   * then nothing.
   */
  predicate IsLprojName(name: string)
  {
    |name| == 8 && IsAsciiLetter(name[0]) && IsAsciiLetter(name[1]) && JsStrings.ToLowerAscii(name[2..]) == ".lproj"
  }

  /** `lastDirName.replace(/^([a-z]{2})(?=\.lproj$)/i, langISOCode || "ar")` */
  function IosFolderName(lastDirName: string, langISOCode: string): string
  {
    if IsLprojName(lastDirName) then (if langISOCode == "" then "ar" else langISOCode) + lastDirName[2..]
    else lastDirName
  }

  /**
   * The two-letter prefix of an `xx.lproj` folder, in any letter case, is
   * replaced by the language code, or by `ar` when there is no code, and
   * the `.lproj` tail keeps its own case; any other name is kept; and
   * renaming twice changes nothing more.
   */
  lemma IosFolderNameSpec(name: string, code: string)
    ensures IsLprojName(name) ==> IosFolderName(name, code) == (if code == "" then "ar" else code) + name[2..]
    ensures !IsLprojName(name) ==> IosFolderName(name, code) == name
    ensures IosFolderName(IosFolderName(name, code), code) == IosFolderName(name, code)
  {
    var r := IosFolderName(name, code);
    if IsLprojName(name) && IsLprojName(r) {
      assert r[2..] == name[2..];
    }
  }

  /** `en.lproj` becomes `fr.lproj`. */
  lemma IosFolderNameExample()
    ensures IosFolderName("en.lproj", "fr") == "fr.lproj"
  {
    JsStrings.ToLowerAsciiAt(".lproj");
    assert "en.lproj"[2..] == ".lproj";
  }

  /** The `i` flag covers the `.lproj` tail as well: `EN.LPROJ` becomes `fr.LPROJ`. */
  lemma IosFolderNameUpperExample()
    ensures IosFolderName("EN.LPROJ", "fr") == "fr.LPROJ"
  {
    JsStrings.ToLowerAsciiAt(".LPROJ");
    assert "EN.LPROJ"[2..] == ".LPROJ";
  }

  /** Without a code, `en.Lproj` becomes `ar.Lproj`. */
  lemma IosFolderNameFallbackExample()
    ensures IosFolderName("en.Lproj", "") == "ar.Lproj"
  {
    JsStrings.ToLowerAsciiAt(".Lproj");
    assert "en.Lproj"[2..] == ".Lproj";
  }

  /**
   * `${dirname}-${langISOCode}`: no fallback for a missing code.  The
   * contract serves the proof of `AndroidFolderNameDistinct`.
   */
  function AndroidFolderName(dirname: string, langISOCode: string): (r: string)
    ensures |r| == |dirname| + 1 + |langISOCode|
    ensures r[..|dirname|] == dirname && r[|dirname|] == '-' && r[|dirname| + 1..] == langISOCode
  {
    dirname + "-" + langISOCode
  }

  /**
   * Different codes give different Android folders, and none of them is the
   * source folder: one language's output never lands on another's, nor on
   * the `values` directory it was read from.
   */
  lemma AndroidFolderNameDistinct(resolved: Path, code1: string, code2: string)
    ensures var dirname := BaseName(DirName(resolved));
            (AndroidFolderName(dirname, code1) == AndroidFolderName(dirname, code2) <==> code1 == code2) &&
            AndroidFolderName(dirname, code1) != dirname
    ensures AndroidDestination(resolved, code1) == AndroidDestination(resolved, code2) <==> code1 == code2
    ensures AndroidDestination(resolved, code1) != DirName(resolved)
  {
    var dirPath := DirName(resolved);
    var dirname := BaseName(dirPath);
    var r1, r2 := AndroidFolderName(dirname, code1), AndroidFolderName(dirname, code2);
    if r1 == r2 {
      assert code1 == r1[|dirname| + 1..];
    }
    AndroidDestinationSibling(resolved, code1);
    AndroidDestinationSibling(resolved, code2);
    if dirPath.segments != [] {
      assert BaseName(AndroidDestination(resolved, code1)) != BaseName(dirPath);
    } else {
      assert AndroidDestination(resolved, code1).segments != [];
    }
  }

  /** `${parsedPath.name}_${langISOCode}${parsedPath.ext}` */
  function PortalFileName(name: string, langISOCode: string, ext: string): string
  {
    name + "_" + langISOCode + ext
  }

  /** Where the iOS reverse branch writes: `path.join(path.resolve(dirPath, ".."), newFolderName)`. */
  function IosDestination(resolved: Path, langISOCode: string): Path
  {
    Join(DirName(DirName(resolved)), IosFolderName(BaseName(DirName(resolved)), langISOCode))
  }

  /** Where the Android reverse branch writes. */
  function AndroidDestination(resolved: Path, langISOCode: string): Path
  {
    Join(DirName(DirName(resolved)), AndroidFolderName(BaseName(DirName(resolved)), langISOCode))
  }

  /** The file the portal reverse branch writes, in the source file's own directory. */
  function PortalOutput(filePath: Path, resolved: Path, langISOCode: string): Path
  {
    var b := BaseName(filePath);
    Join(DirName(resolved), PortalFileName(Stem(b), langISOCode, Extname(b)))
  }

  /**
   * The iOS destination is a sibling of the source directory, named after
   * it; when that name is not `xx.lproj` it is the source directory itself.
   */
  lemma IosDestinationSibling(resolved: Path, langISOCode: string)
    requires resolved.segments != [] && BaseName(DirName(resolved)) != ""
    ensures var dirPath := DirName(resolved);
            var dest := IosDestination(resolved, langISOCode);
            DirName(dest) == DirName(dirPath) &&
            BaseName(dest) == IosFolderName(BaseName(dirPath), langISOCode) &&
            (!IsLprojName(BaseName(dirPath)) && dirPath.segments != [] ==> dest == dirPath)
  {
    var dirPath := DirName(resolved);
    var name := IosFolderName(BaseName(dirPath), langISOCode);
    assert name != "" by {
      if IsLprojName(BaseName(dirPath)) {
        assert |name| >= |".lproj"|;
      }
    }
    JoinInverse(DirName(dirPath), name);
    if dirPath.segments != [] {
      var n := |dirPath.segments| - 1;
      assert dirPath.segments[..n] + [dirPath.segments[n]] == dirPath.segments;
    }
  }

  /** The Android destination is the sibling `<dir>-<code>` of the source directory. */
  lemma AndroidDestinationSibling(resolved: Path, langISOCode: string)
    ensures var dirPath := DirName(resolved);
            DirName(AndroidDestination(resolved, langISOCode)) == DirName(dirPath) &&
            BaseName(AndroidDestination(resolved, langISOCode)) == BaseName(dirPath) + "-" + langISOCode
  {
    JoinInverse(DirName(DirName(resolved)), AndroidFolderName(BaseName(DirName(resolved)), langISOCode));
  }

  /**
   * The portal output of `name.json` is `name_<code>.json`, next to the
   * source file: it keeps the `.json` extension.
   */
  lemma PortalOutputName(filePath: Path, resolved: Path, langISOCode: string)
    requires Extname(BaseName(filePath)) == Extension(Portal)
    ensures var out := PortalOutput(filePath, resolved, langISOCode);
            DirName(out) == DirName(resolved) &&
            BaseName(out) == Stem(BaseName(filePath)) + "_" + langISOCode + ".json" &&
            Extname(BaseName(out)) == ".json" &&
            Stem(BaseName(out)) == Stem(BaseName(filePath)) + "_" + langISOCode
  {
    var b := BaseName(filePath);
    var x := Stem(b) + "_" + langISOCode;
    assert PortalFileName(Stem(b), langISOCode, Extname(b)) == x + "." + "json";
    JoinInverse(DirName(resolved), x + "." + "json");
    ExtnameAfter(x, "json");
  }

  /**
   * `transformFiles(filePath, fileData, reverted)` under the current
   * platform and language code.  `fileData` is the raw content on the way
   * forward and the translated table on the way back.
   */
  function TransformFiles(platform: Option<string>, filePath: Path, fileData: FileData, reverted: bool,
                          langISOCode: string, cwd: Path, env: FileEnv): Transformed
    requires reverted <==> fileData.Json?
  {
    var resolved := Resolve(filePath, cwd);
    var ext := Extname(BaseName(filePath));
    if platform == Some(PlatformName(Ios)) then
      if !reverted && ext == Extension(Ios) then
        Transformed(Some(FromStrings(StringsHandler.Decode(fileData.text))), NoWrite)
      // `jsonToStrings` handed an empty string reads the file again and `JSON.parse("")` throws
      else if fileData == Content("") then TransformThrew
      else Transformed(None, EncodeStrings(IosDestination(resolved, langISOCode), fileData))
    else if platform == Some(PlatformName(Android)) then
      if !reverted && ext == Extension(Android) then
        match env.parseXml(fileData.text)
        case None => TransformThrew
        case Some(field) =>
          (match XmlHandler.Convert(field)
           case Threw => TransformThrew
           case Converted(table, _) => Transformed(Some(FromXml(table)), NoWrite))
      else Transformed(None, EncodeXml(AndroidDestination(resolved, langISOCode), fileData))
    else if reverted && ext == Extension(Portal) then
      Transformed(None, WriteJson(PortalOutput(filePath, resolved, langISOCode), fileData))
    else
      match fileData
      case Json(_) => TransformThrew   // `JSON.parse` of an object reads "[object Object]" and throws
      case Content(text) =>
        (match env.parseJson(text)
         case None => TransformThrew
         case Some(table) => Transformed(Some(FromJson(table)), NoWrite))
  }

  /**
   * Branch selection: a table comes back only from a forward branch, that
   * is when not reverted and, for iOS and Android, only for their own
   * extension; otherwise iOS and Android encode, except that iOS throws on
   * empty raw content, and the portal writes only a reverted `.json` file.
   */
  lemma TransformBranches(platform: Option<string>, filePath: Path, fileData: FileData, reverted: bool,
                          langISOCode: string, cwd: Path, env: FileEnv)
    requires reverted <==> fileData.Json?
    ensures var t := TransformFiles(platform, filePath, fileData, reverted, langISOCode, cwd, env);
            var ext := Extname(BaseName(filePath));
            (t.Transformed? && t.jsonData.Some? ==> !reverted && t.action == NoWrite) &&
            (platform == Some("ios") ==>
               (t.TransformThrew? <==> fileData == Content("") && ext != ".strings") &&
               (t.Transformed? ==> (t.jsonData.Some? <==> !reverted && ext == ".strings")) &&
               (t.Transformed? && t.jsonData.None? ==> t.action == EncodeStrings(IosDestination(Resolve(filePath, cwd), langISOCode), fileData))) &&
            (platform == Some("android") ==>
               (reverted || ext != ".xml" ==> t == Transformed(None, EncodeXml(AndroidDestination(Resolve(filePath, cwd), langISOCode), fileData)))) &&
            (platform != Some("ios") && platform != Some("android") ==>
               (reverted && ext == ".json" ==> t.Transformed? && t.action.WriteJson?) &&
               (reverted && ext != ".json" ==> t.TransformThrew?) &&
               (t.Transformed? && !reverted ==> t.jsonData.Some?))
  {
  }

  /** What became of one file. */
  datatype Outcome =
    | Aborted                              // the forward branch threw: nothing is recorded
    | Failed(fileID: string)               // recorded under `failure`
    | Succeeded(fileID: string, written: Action)   // recorded under `success`, after the reverse branch wrote

  /** `if (pathData?.platform) platform = pathData.platform` */
  function NextPlatform(platform: Option<string>, pathData: Option<PathInfo>): Option<string>
  {
    if pathData.Some? then Some(PlatformName(pathData.value.platform)) else platform
  }

  /** The outcome of `processFile` once the platform has been set from the path. */
  function FileOutcome(platform: Option<string>, filePath: Path, langKey: string, langISOCode: string,
                       cwd: Path, env: FileEnv): Outcome
  {
    var jsonData := TransformFiles(platform, filePath, Content(env.content(filePath)), false, langISOCode, cwd, env);
    if jsonData.TransformThrew? then Aborted
    else if jsonData.jsonData.None? then Failed("")
    else
      var uuid := env.uuid(langKey, filePath);
      match env.translate(jsonData.jsonData.value, langKey)
      case None => Failed(uuid)
      case Some(translated) =>
        var back := TransformFiles(platform, filePath, Json(translated), true, langISOCode, cwd, env);
        if back.TransformThrew? then Failed(uuid) else Succeeded(uuid, back.action)
  }

  /**
   * A file is recorded as saved only after its reverse branch has written,
   * and then that write goes to the destination of the platform: the
   * `xx.lproj` sibling for iOS, the `<dir>-<code>` sibling for Android, and
   * `name_<code>.json` beside a `.json` source for the portal.  A file whose
   * forward branch does not decode is recorded as failed without a request,
   * except an empty iOS file other than `.strings`, which aborts the round.
   */
  lemma FileOutcomeSpec(platform: Option<string>, filePath: Path, langKey: string, langISOCode: string,
                        cwd: Path, env: FileEnv)
    ensures var o := FileOutcome(platform, filePath, langKey, langISOCode, cwd, env);
            var resolved := Resolve(filePath, cwd);
            var ext := Extname(BaseName(filePath));
            (o.Succeeded? ==>
               (platform == Some("ios") ==> o.written.EncodeStrings? && o.written.destDir == IosDestination(resolved, langISOCode)) &&
               (platform == Some("android") ==> o.written.EncodeXml? && o.written.destDir == AndroidDestination(resolved, langISOCode)) &&
               (platform != Some("ios") && platform != Some("android") ==>
                  ext == ".json" && o.written.WriteJson? && o.written.file == PortalOutput(filePath, resolved, langISOCode))) &&
            (platform == Some("ios") && ext != ".strings" ==>
               o == if env.content(filePath) == "" then Aborted else Failed("")) &&
            (platform == Some("android") && ext != ".xml" ==> o == Failed(""))
  {
  }

  /** The table the translation request returned for a file; `None` when it got none. */
  function TranslationOf(platform: Option<string>, filePath: Path, langKey: string, langISOCode: string,
                         cwd: Path, env: FileEnv): Option<Table<string>>
  {
    var jsonData := TransformFiles(platform, filePath, Content(env.content(filePath)), false, langISOCode, cwd, env);
    if jsonData.TransformThrew? || jsonData.jsonData.None? then None
    else env.translate(jsonData.jsonData.value, langKey)
  }

  /**
   * A saved file was read through its platform's own converter, and what the
   * reverse branch then writes is the table the request returned.
   */
  lemma SavedTranslation(platform: Option<string>, filePath: Path, langKey: string, langISOCode: string,
                         cwd: Path, env: FileEnv)
    requires FileOutcome(platform, filePath, langKey, langISOCode, cwd, env).Succeeded?
    ensures TranslationOf(platform, filePath, langKey, langISOCode, cwd, env).Some?
    ensures FileOutcome(platform, filePath, langKey, langISOCode, cwd, env).written.data ==
              Json(TranslationOf(platform, filePath, langKey, langISOCode, cwd, env).value)
    ensures platform == Some("ios") ==> Extname(BaseName(filePath)) == ".strings"
    ensures platform == Some("android") ==> Extname(BaseName(filePath)) == ".xml"
  {
  }

  /** What ends up on disk for a written action whose data is a table. */
  datatype Written =
    | NotWritten
    | StringsFile(strings: StringsHandler.Written)   // the text `jsonToStrings` writes
    | XmlFile(xml: XmlHandler.XmlOutput)             // the document `jsonToXML` builds
    | JsonFile(file: Path, table: Table<string>)     // the object `JSON.stringify` serialises

  /** The writer an action names, applied to the table it carries. */
  function WrittenBy(filePath: Path, a: Action, langISOCode: string): Written
  {
    match a
    case EncodeStrings(destDir, Json(t)) =>
      StringsFile(StringsHandler.Written(StringsHandler.StringsOutputPath(filePath, destDir), StringsHandler.Encode(t)))
    case EncodeXml(destDir, Json(t)) => XmlFile(XmlHandler.JsonToXml(t, filePath, destDir, langISOCode))
    case WriteJson(file, Json(t)) => JsonFile(file, t)
    case _ => NotWritten
  }

  /**
   * What a saved file leaves on disk reads back as the translation: the
   * iOS `.strings` text decodes to the translated table when its keys are
   * distinct and non-empty and no key or value holds a `"` or a line
   * terminator; the Android document lands beside the source under the
   * same file name and, when the names are distinct and no value holds a
   * backslash, converts back to the translated names and values (each `'`
   * reading as `\'`); and the portal file holds the table itself.
   */
  lemma SavedFileReadsBack(platform: Option<string>, filePath: Path, langKey: string, langISOCode: string,
                           cwd: Path, env: FileEnv)
    requires FileOutcome(platform, filePath, langKey, langISOCode, cwd, env).Succeeded?
    ensures TranslationOf(platform, filePath, langKey, langISOCode, cwd, env).Some?
    ensures var t := TranslationOf(platform, filePath, langKey, langISOCode, cwd, env).value;
            var w := WrittenBy(filePath, FileOutcome(platform, filePath, langKey, langISOCode, cwd, env).written, langISOCode);
            var resolved := Resolve(filePath, cwd);
            (platform == Some("ios") ==>
               w.StringsFile? &&
               w.strings.path == StringsHandler.StringsOutputPath(filePath, IosDestination(resolved, langISOCode)) &&
               (DistinctKeys(t) && StringsHandler.Plain(t) ==> StringsHandler.Decode(w.strings.content) == t)) &&
            (platform == Some("android") ==>
               w.XmlFile? &&
               DirName(w.xml.path) == AndroidDestination(resolved, langISOCode) &&
               BaseName(w.xml.path) == BaseName(filePath) &&
               (DistinctKeys(t) && (forall i :: 0 <= i < |t| ==> '\\' !in t[i].1) ==>
                  var back := XmlHandler.Convert(XmlHandler.ParsedBack(w.xml.elements));
                  back.Converted? && |back.table| == |t| &&
                  forall i :: 0 <= i < |t| ==> back.table[i] == (t[i].0, Some(JsStrings.ReplaceAll(t[i].1, "'", "\\'"))))) &&
            (platform != Some("ios") && platform != Some("android") ==>
               w == JsonFile(PortalOutput(filePath, resolved, langISOCode), t))
  {
    FileOutcomeSpec(platform, filePath, langKey, langISOCode, cwd, env);
    SavedTranslation(platform, filePath, langKey, langISOCode, cwd, env);
    var t := TranslationOf(platform, filePath, langKey, langISOCode, cwd, env).value;
    if platform == Some("ios") {
      if DistinctKeys(t) && StringsHandler.Plain(t) {
        StringsHandler.DecodeEncode(t);
      }
    } else if platform == Some("android") {
      assert BaseName(filePath) != "";
      if DistinctKeys(t) && (forall i :: 0 <= i < |t| ==> '\\' !in t[i].1) {
        XmlHandler.XmlElementsReadBack(t);
      }
    }
  }

  /** The log after one file's outcome is recorded under the current language. */
  function LogOutcome(log: Table<LogEntry>, langKey: string, filePath: Path, outcome: Outcome): Table<LogEntry>
  {
    match outcome
    case Aborted => log
    case Failed(id) => Recorded(log, langKey, Failure, FileRecord(PathString(filePath), id))
    case Succeeded(id, _) => Recorded(log, langKey, Success, FileRecord(PathString(filePath), id))
  }

  /** The platform after the files have been processed in order. */
  function PlatformAfter(platform: Option<string>, paths: seq<Path>, isConverted: bool): Option<string>
  {
    if paths == [] then platform
    else NextPlatform(PlatformAfter(platform, paths[..|paths| - 1], isConverted), CheckPath(paths[|paths| - 1], isConverted))
  }

  /** Processing one more file moves the platform on by that file. */
  lemma PlatformAfterSnoc(platform: Option<string>, paths: seq<Path>, i: nat, isConverted: bool)
    requires i < |paths|
    ensures PlatformAfter(platform, paths[..i + 1], isConverted) ==
            NextPlatform(PlatformAfter(platform, paths[..i], isConverted), CheckPath(paths[i], isConverted))
  {
    assert paths[..i + 1][..i] == paths[..i];
  }

  /** The log after the outcomes of the files have been recorded in order. */
  function LogAll(log: Table<LogEntry>, langKey: string, paths: seq<Path>, outcomes: seq<Outcome>): Table<LogEntry>
    requires |paths| == |outcomes|
  {
    if paths == [] then log
    else
      var n := |paths| - 1;
      LogOutcome(LogAll(log, langKey, paths[..n], outcomes[..n]), langKey, paths[n], outcomes[n])
  }

  /** Once some file was recorded, the current language has a log entry. */
  lemma {:induction false} LogAllHasEntry(log: Table<LogEntry>, langKey: string, paths: seq<Path>, outcomes: seq<Outcome>, i: nat)
    requires |paths| == |outcomes| && i < |outcomes| && !outcomes[i].Aborted?
    ensures langKey in Keys(LogAll(log, langKey, paths, outcomes))
  {
    var n := |paths| - 1;
    var before := LogAll(log, langKey, paths[..n], outcomes[..n]);
    if i < n {
      LogAllHasEntry(log, langKey, paths[..n], outcomes[..n], i);
    }
    match outcomes[n]
    case Aborted =>
    case Failed(id) => RecordedGet(before, langKey, Failure, FileRecord(PathString(paths[n]), id), langKey);
    case Succeeded(id, _) => RecordedGet(before, langKey, Success, FileRecord(PathString(paths[n]), id), langKey);
  }

  /**
   * The platform a round ends with depends on where it started only when
   * none of the paths is classified; so a second pass over the same paths
   * changes nothing.
   */
  lemma {:induction false} PlatformAfterStart(p: Option<string>, q: Option<string>, paths: seq<Path>, isConverted: bool)
    ensures PlatformAfter(q, paths, isConverted) == PlatformAfter(p, paths, isConverted) ||
            (PlatformAfter(q, paths, isConverted) == q && PlatformAfter(p, paths, isConverted) == p)
  {
    if paths != [] && CheckPath(paths[|paths| - 1], isConverted).None? {
      PlatformAfterStart(p, q, paths[..|paths| - 1], isConverted);
    }
  }

  lemma PlatformAfterIdempotent(p: Option<string>, paths: seq<Path>, isConverted: bool)
    ensures PlatformAfter(PlatformAfter(p, paths, isConverted), paths, isConverted) == PlatformAfter(p, paths, isConverted)
  {
    PlatformAfterStart(p, PlatformAfter(p, paths, isConverted), paths, isConverted);
  }

  /** The outcomes of a round's files, all taken under one platform. */
  function RoundOutcomes(platform: Option<string>, paths: seq<Path>, langKey: string, langISOCode: string,
                         cwd: Path, env: FileEnv): (r: seq<Outcome>)
    ensures |r| == |paths|
    ensures forall i {:trigger FileOutcome(platform, paths[i], langKey, langISOCode, cwd, env)} :: 0 <= i < |paths| ==>
              r[i] == FileOutcome(platform, paths[i], langKey, langISOCode, cwd, env)
  {
    seq(|paths|, i requires 0 <= i < |paths| => FileOutcome(platform, paths[i], langKey, langISOCode, cwd, env))
  }

  /** The outcomes of one more path are those before it followed by its own. */
  lemma RoundOutcomesSnoc(platform: Option<string>, paths: seq<Path>, i: nat, langKey: string, langISOCode: string,
                          cwd: Path, env: FileEnv)
    requires i < |paths|
    ensures paths[..i + 1] == paths[..i] + [paths[i]]
    ensures RoundOutcomes(platform, paths[..i + 1], langKey, langISOCode, cwd, env) ==
            RoundOutcomes(platform, paths[..i], langKey, langISOCode, cwd, env) + [FileOutcome(platform, paths[i], langKey, langISOCode, cwd, env)]
  {
    assert paths[..i + 1] == paths[..i] + [paths[i]];
    var r1 := RoundOutcomes(platform, paths[..i + 1], langKey, langISOCode, cwd, env);
    var r0 := RoundOutcomes(platform, paths[..i], langKey, langISOCode, cwd, env);
    forall k | 0 <= k <= i
      ensures r1[k] == (r0 + [FileOutcome(platform, paths[i], langKey, langISOCode, cwd, env)])[k]
    {
      assert r1[k] == FileOutcome(platform, paths[..i + 1][k], langKey, langISOCode, cwd, env);
      if k < i {
        assert r0[k] == FileOutcome(platform, paths[..i][k], langKey, langISOCode, cwd, env);
      }
    }
  }

  /** Recording one more file extends the log by that file's record. */
  lemma LogAllSnoc(log: Table<LogEntry>, langKey: string, paths: seq<Path>, outcomes: seq<Outcome>,
                   p: Path, o: Outcome)
    requires |paths| == |outcomes|
    ensures LogAll(log, langKey, paths + [p], outcomes + [o]) == LogOutcome(LogAll(log, langKey, paths, outcomes), langKey, p, o)
  {
    assert (paths + [p])[..|paths|] == paths;
    assert (outcomes + [o])[..|outcomes|] == outcomes;
  }

  /**
   * Once the last path of a round is classified as Android, every file of
   * the round goes through the Android branches: a file that is not `.xml`
   * is encoded as XML on the way forward and recorded as failed.
   */
  lemma RoundAfterAndroid(platform: Option<string>, paths: seq<Path>, isConverted: bool, i: nat,
                          langKey: string, langISOCode: string, cwd: Path, env: FileEnv)
    requires i < |paths| && CheckPath(paths[|paths| - 1], isConverted).Some?
    requires CheckPath(paths[|paths| - 1], isConverted).value.platform == Android
    requires Extname(BaseName(paths[i])) != Extension(Android)
    ensures PlatformAfter(platform, paths, isConverted) == Some("android")
    ensures RoundOutcomes(PlatformAfter(platform, paths, isConverted), paths, langKey, langISOCode, cwd, env)[i] == Failed("")
  {
  }

  /** A file named `<stem><extension>` has that extension. */
  lemma ExtnameOfName(p: Path, stem: string, q: Platform)
    requires BaseName(p) == stem + Extension(q) && stem != ""
    ensures Extname(BaseName(p)) == Extension(q)
  {
    var ext := Extension(q)[1..];
    ExtensionShape(q);
    assert '.' !in ext by {
      forall i | 0 <= i < |ext| ensures ext[i] != '.' {
        assert ext[i] == Extension(q)[i + 1];
      }
    }
    assert BaseName(p) == stem + "." + ext;
    ExtnameAfter(stem, ext);
  }

  /** A file named `<stem><extension>` with a lower-case stem is classified by that extension alone. */
  lemma ClassifiedByName(p: Path, stem: string, q: Platform)
    requires BaseName(p) == stem + Extension(q)
    requires stem != "" && forall i :: 0 <= i < |stem| ==> 'a' <= stem[i] <= 'z'
    ensures Extname(BaseName(p)) == Extension(q)
    ensures CheckPath(p, false).Some? && CheckPath(p, false).value.platform == q
  {
    ExtnameOfName(p, stem, q);
    ExtensionShape(q);
    JsStrings.ToLowerAsciiAt(BaseName(p));
    forall i | 0 <= i < |BaseName(p)| ensures JsStrings.ToLowerAscii(BaseName(p))[i] == BaseName(p)[i] {
      if i >= |stem| {
        assert BaseName(p)[i] == Extension(q)[i - |stem|];
      } else {
        assert BaseName(p)[i] == stem[i];
      }
    }
    assert JsStrings.ToLowerAscii(BaseName(p)) == BaseName(p);
    CheckPathByExtension(p, q);
  }

  /** By itself, a `.strings` file in an `xx.lproj` folder is read as iOS and decoded. */
  lemma StringsFileAlone(a: Path, langISOCode: string, cwd: Path, env: FileEnv)
    requires a == Path(true, ["r", "en.lproj", "a.strings"])
    ensures NextPlatform(None, CheckPath(a, false)) == Some("ios")
    ensures TransformFiles(Some("ios"), a, Content(env.content(a)), false, langISOCode, cwd, env) ==
              Transformed(Some(FromStrings(StringsHandler.Decode(env.content(a)))), NoWrite)
  {
    assert BaseName(a) == "a" + Extension(Ios);
    ClassifiedByName(a, "a", Ios);
  }

  /**
   * A round over that `.strings` file and an Android `.xml` file, without
   * `-p`: the `.strings` file goes through the Android branches, is encoded
   * as XML on the way forward and is recorded as failed.
   */
  lemma MixedRound(a: Path, b: Path, langKey: string, langISOCode: string, cwd: Path, env: FileEnv)
    requires a == Path(true, ["r", "en.lproj", "a.strings"]) && b == Path(true, ["r", "values", "b.xml"])
    ensures PlatformAfter(None, [a, b], false) == Some("android")
    ensures RoundOutcomes(Some("android"), [a, b], langKey, langISOCode, cwd, env)[0] == Failed("")
  {
    assert BaseName(a) == "a" + Extension(Ios) && BaseName(b) == "b" + Extension(Android);
    ExtnameOfName(a, "a", Ios);
    ClassifiedByName(b, "b", Android);
    assert [a, b][1] == b && [a, b][0] == a;
    RoundAfterAndroid(None, [a, b], false, 0, langKey, langISOCode, cwd, env);
  }

  /** The log after a round for each language of `keys`, with its code in `codes`, one after the other. */
  function Rounds(log: Table<LogEntry>, platform: Option<string>, paths: seq<Path>, keys: seq<string>, codes: seq<string>,
                  cwd: Path, env: FileEnv): Table<LogEntry>
    requires |keys| == |codes|
    decreases keys
  {
    if keys == [] then log
    else Rounds(LogAll(log, keys[0], paths, RoundOutcomes(platform, paths, keys[0], codes[0], cwd, env)),
                platform, paths, keys[1..], codes[1..], cwd, env)
  }

  /** The record one outcome makes with one status: none, or the file and its request id. */
  function RecordOf(filePath: Path, outcome: Outcome, status: Status): seq<FileRecord>
  {
    match outcome
    case Succeeded(id, _) => if status == Success then [FileRecord(PathString(filePath), id)] else []
    case Failed(id) => if status == Failure then [FileRecord(PathString(filePath), id)] else []
    case Aborted => []
  }

  /** The records a round makes with one status, in the order the outcomes come. */
  function RecordsOf(paths: seq<Path>, outcomes: seq<Outcome>, status: Status): seq<FileRecord>
    requires |paths| == |outcomes|
  {
    if paths == [] then []
    else
      var n := |paths| - 1;
      RecordsOf(paths[..n], outcomes[..n], status) + RecordOf(paths[n], outcomes[n], status)
  }

  /** One outcome extends the language's entry by its record. */
  lemma LogOutcomeEntry(log: Table<LogEntry>, langKey: string, filePath: Path, outcome: Outcome)
    ensures var e := if Get(log, langKey).Some? then Get(log, langKey).value else EmptyEntry;
            Get(LogOutcome(log, langKey, filePath, outcome), langKey) ==
              if outcome.Aborted? then Get(log, langKey)
              else Some(LogEntry(e.success + RecordOf(filePath, outcome, Success), e.failure + RecordOf(filePath, outcome, Failure)))
  {
    var e := if Get(log, langKey).Some? then Get(log, langKey).value else EmptyEntry;
    match outcome
    case Aborted =>
    case Failed(id) =>
      RecordedGet(log, langKey, Failure, FileRecord(PathString(filePath), id), langKey);
      assert e.success + [] == e.success;
    case Succeeded(id, _) =>
      RecordedGet(log, langKey, Success, FileRecord(PathString(filePath), id), langKey);
      assert e.failure + [] == e.failure;
  }

  /**
   * After a round, the language's entry holds what it held before followed
   * by the saved files and the failed files of the round, in order; the
   * entry is still missing only when it was and nothing was recorded.
   */
  lemma {:induction false} LogAllEntry(log: Table<LogEntry>, langKey: string, paths: seq<Path>, outcomes: seq<Outcome>)
    requires |paths| == |outcomes|
    ensures var prev := if Get(log, langKey).Some? then Get(log, langKey).value else EmptyEntry;
            var saved := RecordsOf(paths, outcomes, Success);
            var failed := RecordsOf(paths, outcomes, Failure);
            Get(LogAll(log, langKey, paths, outcomes), langKey) ==
              if Get(log, langKey).None? && saved == [] && failed == [] then None
              else Some(LogEntry(prev.success + saved, prev.failure + failed))
  {
    var prev := if Get(log, langKey).Some? then Get(log, langKey).value else EmptyEntry;
    if paths == [] {
      assert prev.success + [] == prev.success && prev.failure + [] == prev.failure;
    } else {
      var n := |paths| - 1;
      var before := LogAll(log, langKey, paths[..n], outcomes[..n]);
      var saved, failed := RecordsOf(paths[..n], outcomes[..n], Success), RecordsOf(paths[..n], outcomes[..n], Failure);
      var s1, f1 := RecordOf(paths[n], outcomes[n], Success), RecordOf(paths[n], outcomes[n], Failure);
      LogAllEntry(log, langKey, paths[..n], outcomes[..n]);
      LogOutcomeEntry(before, langKey, paths[n], outcomes[n]);
      assert LogAll(log, langKey, paths, outcomes) == LogOutcome(before, langKey, paths[n], outcomes[n]);
      assert RecordsOf(paths, outcomes, Success) == saved + s1 && RecordsOf(paths, outcomes, Failure) == failed + f1;
      if outcomes[n].Aborted? {
        assert s1 == [] && f1 == [];
        assert saved + s1 == saved && failed + f1 == failed;
      } else {
        var e := if Get(before, langKey).Some? then Get(before, langKey).value else EmptyEntry;
        assert e == LogEntry(prev.success + saved, prev.failure + failed);
        ConcatAssoc(prev.success, saved, s1);
        ConcatAssoc(prev.failure, failed, f1);
        assert s1 != [] || f1 != [];
      }
    }
  }

  lemma ConcatAssoc(a: seq<FileRecord>, b: seq<FileRecord>, c: seq<FileRecord>)
    ensures a + b + c == a + (b + c)
  {
  }

  /** A round leaves every other language's entry as it was. */
  lemma {:induction false} LogAllOther(log: Table<LogEntry>, langKey: string, paths: seq<Path>, outcomes: seq<Outcome>, k: string)
    requires |paths| == |outcomes| && k != langKey
    ensures Get(LogAll(log, langKey, paths, outcomes), k) == Get(log, k)
  {
    if paths != [] {
      var n := |paths| - 1;
      var before := LogAll(log, langKey, paths[..n], outcomes[..n]);
      LogAllOther(log, langKey, paths[..n], outcomes[..n], k);
      match outcomes[n]
      case Aborted =>
      case Failed(id) => RecordedGet(before, langKey, Failure, FileRecord(PathString(paths[n]), id), k);
      case Succeeded(id, _) => RecordedGet(before, langKey, Success, FileRecord(PathString(paths[n]), id), k);
    }
  }

  /** A language no round was for keeps its entry. */
  lemma {:induction false} RoundsOther(log: Table<LogEntry>, platform: Option<string>, paths: seq<Path>, keys: seq<string>,
                                       codes: seq<string>, cwd: Path, env: FileEnv, k: string)
    requires |keys| == |codes| && k !in keys
    ensures Get(Rounds(log, platform, paths, keys, codes, cwd, env), k) == Get(log, k)
    decreases keys
  {
    if keys != [] {
      var after := LogAll(log, keys[0], paths, RoundOutcomes(platform, paths, keys[0], codes[0], cwd, env));
      assert keys[0] in keys;
      LogAllOther(log, keys[0], paths, RoundOutcomes(platform, paths, keys[0], codes[0], cwd, env), k);
      assert k !in keys[1..];
      RoundsOther(after, platform, paths, keys[1..], codes[1..], cwd, env, k);
    }
  }

  /**
   * When the languages of the rounds are distinct, each one's entry is what
   * its own round made of its entry before the rounds.
   */
  lemma {:induction false} RoundsGet(log: Table<LogEntry>, platform: Option<string>, paths: seq<Path>, keys: seq<string>,
                                     codes: seq<string>, cwd: Path, env: FileEnv, i: nat)
    requires |keys| == |codes| && i < |keys|
    requires forall a, b :: 0 <= a < b < |keys| ==> keys[a] != keys[b]
    ensures Get(Rounds(log, platform, paths, keys, codes, cwd, env), keys[i]) ==
            Get(LogAll(log, keys[i], paths, RoundOutcomes(platform, paths, keys[i], codes[i], cwd, env)), keys[i])
    decreases keys
  {
    var after := LogAll(log, keys[0], paths, RoundOutcomes(platform, paths, keys[0], codes[0], cwd, env));
    if i == 0 {
      assert keys[0] !in keys[1..] by {
        forall b | 0 <= b < |keys[1..]| ensures keys[1..][b] != keys[0] {
          assert keys[1..][b] == keys[b + 1];
        }
      }
      RoundsOther(after, platform, paths, keys[1..], codes[1..], cwd, env, keys[0]);
    } else {
      RoundsGet(after, platform, paths, keys[1..], codes[1..], cwd, env, i - 1);
      assert keys[1..][i - 1] == keys[i] && codes[1..][i - 1] == codes[i];
      LogAllOther(log, keys[0], paths, RoundOutcomes(platform, paths, keys[0], codes[0], cwd, env), keys[i]);
      LogAllSameStart(after, log, keys[i], paths, RoundOutcomes(platform, paths, keys[i], codes[i], cwd, env));
    }
  }

  /** A round's effect on its language's entry depends only on that entry. */
  lemma LogAllSameStart(log1: Table<LogEntry>, log2: Table<LogEntry>, langKey: string, paths: seq<Path>, outcomes: seq<Outcome>)
    requires |paths| == |outcomes| && Get(log1, langKey) == Get(log2, langKey)
    ensures Get(LogAll(log1, langKey, paths, outcomes), langKey) == Get(LogAll(log2, langKey, paths, outcomes), langKey)
  {
    LogAllEntry(log1, langKey, paths, outcomes);
    LogAllEntry(log2, langKey, paths, outcomes);
  }

  lemma RoundsOne(log: Table<LogEntry>, platform: Option<string>, paths: seq<Path>, k: string, c: string, cwd: Path, env: FileEnv)
    ensures Rounds(log, platform, paths, [k], [c], cwd, env) == LogAll(log, k, paths, RoundOutcomes(platform, paths, k, c, cwd, env))
  {
    assert [k][1..] == [] && [c][1..] == [];
  }

  lemma RoundsCons(log: Table<LogEntry>, platform: Option<string>, paths: seq<Path>, k: string, c: string,
                   keys: seq<string>, codes: seq<string>, cwd: Path, env: FileEnv)
    requires |keys| == |codes|
    ensures Rounds(log, platform, paths, [k] + keys, [c] + codes, cwd, env) ==
            Rounds(LogAll(log, k, paths, RoundOutcomes(platform, paths, k, c, cwd, env)), platform, paths, keys, codes, cwd, env)
  {
    assert ([k] + keys)[1..] == keys && ([c] + codes)[1..] == codes;
  }

  /**
   * The languages of the later rounds are read from the table the current
   * language was deleted from, so they are read the same from the table
   * before the deletion.
   */
  lemma NextRoundCodes(languages: Table<string>, current: string, rest: seq<string>, codes: seq<string>)
    requires |rest| == |codes| >= 1
    requires Get(Delete(languages, current), rest[0]) == Some(codes[0])
    requires forall i :: 0 < i < |rest| ==> Get(Delete(languages, current), rest[i]) == Some(codes[i])
    ensures forall i :: 0 < i < |[current] + rest| ==> Get(languages, ([current] + rest)[i]) == Some(([current] + codes)[i])
  {
    forall i | 0 < i < |[current] + rest|
      ensures Get(languages, ([current] + rest)[i]) == Some(([current] + codes)[i])
    {
      assert ([current] + rest)[i] == rest[i - 1] && ([current] + codes)[i] == codes[i - 1];
      ReadBeforeDelete(languages, current, rest[i - 1], codes[i - 1]);
    }
  }

  /** A language the table still holds after a deletion read the same before it. */
  lemma ReadBeforeDelete(languages: Table<string>, current: string, x: string, code: string)
    requires Get(Delete(languages, current), x) == Some(code)
    ensures Get(languages, x) == Some(code)
  {
    DeleteGet(languages, current, x);
  }

  /**
   * The rounds for the languages `visited`, each with its code in `codes`,
   * took the log from `log0` to `log` and the platform from `platform0` to
   * `platform`: the first round used the code `code0` and each later round
   * the code its language has in `languages0`; every round ran under the
   * platform the first one ends with; and the log is the rounds' records
   * laid one after the other.
   */
  ghost predicate RoundsRan(languages0: Table<string>, code0: string, platform0: Option<string>, log0: Table<LogEntry>,
                            visited: seq<string>, codes: seq<string>, platform: Option<string>, log: Table<LogEntry>,
                            paths: seq<Path>, isConverted: bool, cwd: Path, env: FileEnv)
  {
    |codes| == |visited| >= 1 && codes[0] == code0 &&
    (forall i :: 0 < i < |visited| ==> Get(languages0, visited[i]) == Some(codes[i])) &&
    platform == PlatformAfter(platform0, paths, isConverted) &&
    log == Rounds(log0, platform, paths, visited, codes, cwd, env)
  }

  /** The last element of a non-empty sequence. */
  function Last<T>(s: seq<T>): T
    requires s != []
  {
    s[|s| - 1]
  }

  /** Putting an element in front of a non-empty sequence keeps its last element. */
  lemma LastOfCons<T>(x: T, s: seq<T>)
    requires s != []
    ensures Last([x] + s) == Last(s)
  {
  }

  /**
   * Whether the round of `key` with `code` lets the rotation go on: no
   * file's forward branch threw, so `Promise.all` resolved, and the
   * language has a log entry, so the timing record does not throw.
   */
  ghost predicate RoundWentOn(platform: Option<string>, paths: seq<Path>, key: string, code: string,
                              log: Table<LogEntry>, cwd: Path, env: FileEnv)
  {
    !AnyAborted(RoundOutcomes(platform, paths, key, code, cwd, env)) && Get(log, key).Some?
  }

  /**
   * Where a run stopped: every round before the last went on, and the run
   * completed exactly when the last round went on too.
   */
  ghost predicate StoppedAt(visited: seq<string>, codes: seq<string>, completed: bool,
                            platform: Option<string>, log: Table<LogEntry>, paths: seq<Path>, cwd: Path, env: FileEnv)
    decreases visited
  {
    |codes| == |visited| >= 1 &&
    if |visited| == 1 then completed <==> RoundWentOn(platform, paths, visited[0], codes[0], log, cwd, env)
    else RoundWentOn(platform, paths, visited[0], codes[0], log, cwd, env) &&
         StoppedAt(visited[1..], codes[1..], completed, platform, log, paths, cwd, env)
  }

  /** `StoppedAt` round by round. */
  lemma {:induction false} StoppedAtMeans(visited: seq<string>, codes: seq<string>, completed: bool,
                                          platform: Option<string>, log: Table<LogEntry>, paths: seq<Path>, cwd: Path, env: FileEnv)
    requires StoppedAt(visited, codes, completed, platform, log, paths, cwd, env)
    ensures |codes| == |visited| >= 1
    ensures forall i :: 0 <= i < |visited| - 1 ==> RoundWentOn(platform, paths, visited[i], codes[i], log, cwd, env)
    ensures completed <==> RoundWentOn(platform, paths, visited[|visited| - 1], codes[|codes| - 1], log, cwd, env)
    decreases visited
  {
    if |visited| > 1 {
      StoppedAtMeans(visited[1..], codes[1..], completed, platform, log, paths, cwd, env);
      forall i | 0 < i < |visited| - 1 ensures RoundWentOn(platform, paths, visited[i], codes[i], log, cwd, env) {
        assert visited[i] == visited[1..][i - 1] && codes[i] == codes[1..][i - 1];
      }
      assert visited[|visited| - 1] == visited[1..][|visited| - 2] && codes[|codes| - 1] == codes[1..][|codes| - 2];
    }
  }

  /**
   * What a run of `translateFiles()` leaves behind when it starts from the
   * table `before`, the language `key0` with code `code0`, the platform
   * `platform0` and the log `log0`: it visited `visited`, the rounds using
   * the codes `codes`; with `-l` only `key0`, otherwise a prefix of the
   * rotation, all of it when `completed`, with the visited languages gone
   * from the table; the rounds took the platform and the log as
   * `RoundsRan` says; it stopped where `StoppedAt` says; and the last
   * language visited is the current one.
   */
  ghost predicate Translated(languageGiven: bool, before: Table<string>, key0: string, code0: string,
                             platform0: Option<string>, log0: Table<LogEntry>,
                             visited: seq<string>, completed: bool, codes: seq<string>,
                             languages: Table<string>, langKey: string, langISOCode: string,
                             platform: Option<string>, log: Table<LogEntry>,
                             paths: seq<Path>, isConverted: bool, cwd: Path, env: FileEnv)
  {
    |visited| >= 1 && visited[0] == key0 &&
    (languageGiven ==> visited == [key0] && languages == before) &&
    (!languageGiven ==> visited <= Rotation(before, key0)) &&
    (!languageGiven && completed ==> visited == Rotation(before, key0) && languages == []) &&
    (!languageGiven ==> forall x :: x in Keys(languages) <==> x in Keys(before) && x !in visited) &&
    (!languageGiven ==> languages == DeleteAll(before, visited)) &&
    RoundsRan(before, code0, platform0, log0, visited, codes, platform, log, paths, isConverted, cwd, env) &&
    StoppedAt(visited, codes, completed, platform, log, paths, cwd, env) &&
    langKey == Last(visited) && langISOCode == Last(codes)
  }

  /**
   * A run that stops after its first round visited that round's language
   * only; it completes the rotation only when no language is left.
   */
  lemma OnlyRound(languageGiven: bool, before: Table<string>, key0: string, code0: string,
                  platform0: Option<string>, log0: Table<LogEntry>, completed: bool,
                  languages: Table<string>, platform: Option<string>, log: Table<LogEntry>,
                  paths: seq<Path>, isConverted: bool, cwd: Path, env: FileEnv)
    requires languages == if languageGiven then before else Delete(before, key0)
    requires !languageGiven && completed ==> FilterOut(Keys(languages), key0) == []
    requires RoundsRan(before, code0, platform0, log0, [key0], [code0], platform, log, paths, isConverted, cwd, env)
    requires completed <==> RoundWentOn(platform, paths, key0, code0, log, cwd, env)
    ensures Translated(languageGiven, before, key0, code0, platform0, log0, [key0], completed, [code0],
                       languages, key0, code0, platform, log, paths, isConverted, cwd, env)
  {
    if !languageGiven {
      FirstRotation(before, key0, languages);
      DeleteAllOne(before, key0);
    }
    StoppedOne(key0, code0, completed, platform, log, paths, cwd, env);
  }

  /** A run of one round stopped after it, completing exactly when that round went on. */
  lemma StoppedOne(key: string, code: string, completed: bool,
                   platform: Option<string>, log: Table<LogEntry>, paths: seq<Path>, cwd: Path, env: FileEnv)
    requires completed <==> RoundWentOn(platform, paths, key, code, log, cwd, env)
    ensures StoppedAt([key], [code], completed, platform, log, paths, cwd, env)
    ensures Last([key]) == key && Last([code]) == code
  {
  }

  /**
   * What the run from the next language achieved extends to the run from
   * the current language.
   */
  lemma Continued(languageGiven: bool, before: Table<string>, current: string, code: string,
                  platform0: Option<string>, log0: Table<LogEntry>,
                  languages1: Table<string>, next: string, code1: string, platform1: Option<string>, log1: Table<LogEntry>,
                  rest: seq<string>, done: bool, restCodes: seq<string>,
                  languages: Table<string>, langKey: string, langISOCode: string, platform: Option<string>, log: Table<LogEntry>,
                  paths: seq<Path>, isConverted: bool, cwd: Path, env: FileEnv)
    requires !languageGiven
    requires languages1 == Delete(before, current)
    requires FilterOut(Keys(languages1), current) != [] && next == FilterOut(Keys(languages1), current)[0]
    requires Get(languages1, next) == Some(code1)
    requires DistinctKeys(before)
    requires RoundsRan(before, code, platform0, log0, [current], [code], platform1, log1, paths, isConverted, cwd, env)
    requires RoundWentOn(platform1, paths, current, code, log1, cwd, env)
    requires Translated(languageGiven, languages1, next, code1, platform1, log1, rest, done, restCodes,
                        languages, langKey, langISOCode, platform, log, paths, isConverted, cwd, env)
    ensures Translated(languageGiven, before, current, code, platform0, log0, [current] + rest, done, [code] + restCodes,
                       languages, langKey, langISOCode, platform, log, paths, isConverted, cwd, env)
  {
    LaterRotation(before, current, languages1, next, rest, done, languages);
    LaterRounds(before, current, code, platform0, log0, languages1, code1, platform1, log1, rest, restCodes,
                platform, log, paths, isConverted, cwd, env);
    NotRevisited(before, current, rest);
    DeleteAllCons(before, current, rest);
    StoppedCons(current, code, rest, restCodes, done, platform, log1, log, paths, cwd, env);
    TranslatedCons(before, current, code, platform0, log0, rest, done, restCodes,
                   languages, langKey, langISOCode, platform, log, paths, isConverted, cwd, env);
  }

  /** The facts a run from the current language is made of, put together. */
  lemma TranslatedCons(before: Table<string>, current: string, code: string,
                       platform0: Option<string>, log0: Table<LogEntry>,
                       rest: seq<string>, done: bool, restCodes: seq<string>,
                       languages: Table<string>, langKey: string, langISOCode: string, platform: Option<string>, log: Table<LogEntry>,
                       paths: seq<Path>, isConverted: bool, cwd: Path, env: FileEnv)
    requires |rest| >= 1 && |restCodes| == |rest|
    requires [current] + rest <= Rotation(before, current)
    requires done ==> [current] + rest == Rotation(before, current) && languages == []
    requires forall x :: x in Keys(languages) <==> x in Keys(before) && x !in [current] + rest
    requires languages == DeleteAll(before, [current] + rest)
    requires RoundsRan(before, code, platform0, log0, [current] + rest, [code] + restCodes, platform, log, paths, isConverted, cwd, env)
    requires StoppedAt([current] + rest, [code] + restCodes, done, platform, log, paths, cwd, env)
    requires langKey == Last(rest) && langISOCode == Last(restCodes)
    ensures Translated(false, before, current, code, platform0, log0, [current] + rest, done, [code] + restCodes,
                       languages, langKey, langISOCode, platform, log, paths, isConverted, cwd, env)
  {
    LastOfCons(current, rest);
    LastOfCons(code, restCodes);
  }

  /**
   * The rotation runs to its end unless a forward branch throws: when there
   * are files and none of the last round's forward branches threw, that
   * round recorded every file, so the run completed, and without `-l` it
   * visited every language of the table and emptied it.
   */
  lemma RunsToEnd(languageGiven: bool, before: Table<string>, key0: string, code0: string,
                  platform0: Option<string>, log0: Table<LogEntry>,
                  visited: seq<string>, completed: bool, codes: seq<string>,
                  languages: Table<string>, langKey: string, langISOCode: string,
                  platform: Option<string>, log: Table<LogEntry>,
                  paths: seq<Path>, isConverted: bool, cwd: Path, env: FileEnv)
    requires DistinctKeys(before)
    requires Translated(languageGiven, before, key0, code0, platform0, log0, visited, completed, codes,
                        languages, langKey, langISOCode, platform, log, paths, isConverted, cwd, env)
    requires paths != [] && !AnyAborted(RoundOutcomes(platform, paths, langKey, langISOCode, cwd, env))
    ensures completed
    ensures !languageGiven ==> visited == Rotation(before, key0) && languages == []
  {
    if !languageGiven {
      RotationDistinct(before, key0, visited);
    }
    LastRoundWentOn(log0, platform, paths, visited, codes, log, cwd, env);
    StoppedAtMeans(visited, codes, completed, platform, log, paths, cwd, env);
  }

  /** A prefix of the rotation names no language twice. */
  lemma RotationDistinct(before: Table<string>, key0: string, visited: seq<string>)
    requires DistinctKeys(before) && visited <= Rotation(before, key0)
    ensures forall a, b :: 0 <= a < b < |visited| ==> visited[a] != visited[b]
  {
    RotationVisitsEach(before, key0);
    PrefixDistinct(Rotation(before, key0), visited);
  }

  lemma PrefixDistinct<T>(r: seq<T>, p: seq<T>)
    requires (forall i, j :: 0 <= i < j < |r| ==> r[i] != r[j]) && p <= r
    ensures forall a, b :: 0 <= a < b < |p| ==> p[a] != p[b]
  {
    forall a, b | 0 <= a < b < |p| ensures p[a] != p[b] {
      assert p[a] == r[a] && p[b] == r[b];
    }
  }

  lemma HeadNotInTail<T>(x: T, rest: seq<T>)
    requires forall i, j :: 0 <= i < j < |[x] + rest| ==> ([x] + rest)[i] != ([x] + rest)[j]
    ensures x !in rest
  {
    forall j | 0 <= j < |rest| ensures rest[j] != x {
      assert ([x] + rest)[0] == x && ([x] + rest)[j + 1] == rest[j];
    }
  }

  /** With files and no forward branch throwing, the last round of distinct languages went on. */
  lemma LastRoundWentOn(log0: Table<LogEntry>, platform: Option<string>, paths: seq<Path>,
                        visited: seq<string>, codes: seq<string>, log: Table<LogEntry>, cwd: Path, env: FileEnv)
    requires |visited| == |codes| >= 1
    requires forall a, b :: 0 <= a < b < |visited| ==> visited[a] != visited[b]
    requires log == Rounds(log0, platform, paths, visited, codes, cwd, env)
    requires paths != [] && !AnyAborted(RoundOutcomes(platform, paths, visited[|visited| - 1], codes[|codes| - 1], cwd, env))
    ensures RoundWentOn(platform, paths, visited[|visited| - 1], codes[|codes| - 1], log, cwd, env)
  {
    var n := |visited| - 1;
    RoundsGet(log0, platform, paths, visited, codes, cwd, env, n);
    RoundHasEntry(log0, visited[n], paths, RoundOutcomes(platform, paths, visited[n], codes[n], cwd, env), log);
  }

  /** A round with files none of which aborted leaves its language with a log entry. */
  lemma RoundHasEntry(log0: Table<LogEntry>, key: string, paths: seq<Path>, outcomes: seq<Outcome>, log: Table<LogEntry>)
    requires |paths| == |outcomes| && paths != [] && !AnyAborted(outcomes)
    requires Get(log, key) == Get(LogAll(log0, key, paths, outcomes), key)
    ensures Get(log, key).Some?
  {
    LogAllHasEntry(log0, key, paths, outcomes, 0);
  }

  /** The languages after the current one in a prefix of the rotation are other languages. */
  lemma NotRevisited(before: Table<string>, current: string, rest: seq<string>)
    requires DistinctKeys(before) && [current] + rest <= Rotation(before, current)
    ensures current !in rest
  {
    RotationDistinct(before, current, [current] + rest);
    HeadNotInTail(current, rest);
  }

  /**
   * A round that went on, followed by rounds of other languages, still
   * counts as having gone on in the final log.
   */
  lemma StoppedCons(current: string, code: string, rest: seq<string>, restCodes: seq<string>, done: bool,
                    platform: Option<string>, log1: Table<LogEntry>, log: Table<LogEntry>,
                    paths: seq<Path>, cwd: Path, env: FileEnv)
    requires current !in rest
    requires RoundWentOn(platform, paths, current, code, log1, cwd, env)
    requires StoppedAt(rest, restCodes, done, platform, log, paths, cwd, env)
    requires log == Rounds(log1, platform, paths, rest, restCodes, cwd, env)
    ensures StoppedAt([current] + rest, [code] + restCodes, done, platform, log, paths, cwd, env)
  {
    RoundsOther(log1, platform, paths, rest, restCodes, cwd, env, current);
    WentOnKept(platform, paths, current, code, log1, log, cwd, env);
    StoppedShift(current, code, rest, restCodes, done, platform, log, paths, cwd, env);
  }

  /** Whether a round went on depends on the log only through its own language's entry. */
  lemma WentOnKept(platform: Option<string>, paths: seq<Path>, key: string, code: string,
                   log1: Table<LogEntry>, log: Table<LogEntry>, cwd: Path, env: FileEnv)
    requires RoundWentOn(platform, paths, key, code, log1, cwd, env)
    requires Get(log, key) == Get(log1, key)
    ensures RoundWentOn(platform, paths, key, code, log, cwd, env)
  {
  }

  /** A round that went on, put in front of a run, keeps where that run stopped. */
  lemma StoppedShift(current: string, code: string, rest: seq<string>, restCodes: seq<string>, done: bool,
                     platform: Option<string>, log: Table<LogEntry>, paths: seq<Path>, cwd: Path, env: FileEnv)
    requires RoundWentOn(platform, paths, current, code, log, cwd, env)
    requires StoppedAt(rest, restCodes, done, platform, log, paths, cwd, env)
    ensures StoppedAt([current] + rest, [code] + restCodes, done, platform, log, paths, cwd, env)
  {
    assert ([current] + rest)[1..] == rest && ([code] + restCodes)[1..] == restCodes;
  }

  /** A single round. */
  lemma FirstRound(languages0: Table<string>, current: string, code: string, platform0: Option<string>, log0: Table<LogEntry>,
                   platform: Option<string>, log: Table<LogEntry>, paths: seq<Path>, isConverted: bool, cwd: Path, env: FileEnv)
    requires platform == PlatformAfter(platform0, paths, isConverted)
    requires log == Rounds(log0, platform, paths, [current], [code], cwd, env)
    ensures RoundsRan(languages0, code, platform0, log0, [current], [code], platform, log, paths, isConverted, cwd, env)
  {
  }

  /**
   * The first round followed by the later ones: the codes of the later
   * rounds are read the same from the table before the first language
   * left it, and all rounds run under the platform the first one ends with.
   */
  lemma LaterRounds(languages0: Table<string>, current: string, code: string, platform0: Option<string>, log0: Table<LogEntry>,
                    languages1: Table<string>, code1: string, platform1: Option<string>, log1: Table<LogEntry>,
                    rest: seq<string>, restCodes: seq<string>,
                    platform: Option<string>, log: Table<LogEntry>, paths: seq<Path>, isConverted: bool, cwd: Path, env: FileEnv)
    requires RoundsRan(languages0, code, platform0, log0, [current], [code], platform1, log1, paths, isConverted, cwd, env)
    requires languages1 == Delete(languages0, current)
    requires rest != [] && Get(languages1, rest[0]) == Some(code1)
    requires RoundsRan(languages1, code1, platform1, log1, rest, restCodes, platform, log, paths, isConverted, cwd, env)
    ensures platform == platform1
    ensures RoundsRan(languages0, code, platform0, log0, [current] + rest, [code] + restCodes, platform, log,
                      paths, isConverted, cwd, env)
  {
    PlatformAfterIdempotent(platform0, paths, isConverted);
    assert platform == platform1;
    RoundsOne(log0, platform1, paths, current, code, cwd, env);
    RoundsCons(log0, platform1, paths, current, code, rest, restCodes, cwd, env);
    NextRoundCodes(languages0, current, rest, restCodes);
  }

  /** Whether some file's forward branch threw, which rejects `Promise.all`. */
  function AnyAborted(outcomes: seq<Outcome>): bool
  {
    Aborted in outcomes
  }

  /** `Object.keys(languages).filter((l) => l !== langKey)` */
  function FilterOut(ks: seq<string>, k: string): (r: seq<string>)
    ensures forall x :: x in r <==> x in ks && x != k
  {
    if ks == [] then []
    else if ks[0] == k then FilterOut(ks[1..], k)
    else
      var r := [ks[0]] + FilterOut(ks[1..], k);
      assert forall x :: x in ks <==> x == ks[0] || x in ks[1..];
      r
  }

  lemma {:induction false} FilterOutAbsent(ks: seq<string>, k: string)
    requires k !in ks
    ensures FilterOut(ks, k) == ks
  {
    if ks != [] {
      FilterOutAbsent(ks[1..], k);
    }
  }

  /**
   * The languages in the order the rotation takes them: the current one,
   * then after deleting it the first that remains, and so on until none
   * remains.
   */
  function Rotation(languages: Table<string>, langKey: string): seq<string>
    decreases |languages| + (if langKey in Keys(languages) then 0 else 1)
  {
    var rest := Delete(languages, langKey);
    [langKey] + (if rest == [] then [] else Rotation(rest, rest[0].0))
  }

  /**
   * One turn of the rotation: the current language, then the rotation over
   * what is left, from the first language `Object.keys(...).filter(...)`
   * finds there.
   */
  lemma RotationNext(languages: Table<string>, langKey: string)
    ensures var rest := Delete(languages, langKey);
            var remaining := FilterOut(Keys(rest), langKey);
            (remaining == [] <==> rest == []) &&
            (rest != [] ==> remaining[0] == rest[0].0 && remaining[0] in Keys(rest)) &&
            Rotation(languages, langKey) == [langKey] + (if rest == [] then [] else Rotation(rest, remaining[0]))
  {
    var rest := Delete(languages, langKey);
    DeleteGet(languages, langKey, langKey);
    FilterOutAbsent(Keys(rest), langKey);
  }

  /** The rotation takes the current language, then the others in table order. */
  lemma {:induction false} RotationOrder(languages: Table<string>, langKey: string)
    requires DistinctKeys(languages)
    ensures Rotation(languages, langKey) == [langKey] + Keys(Delete(languages, langKey))
    decreases |languages| + (if langKey in Keys(languages) then 0 else 1)
  {
    var rest := Delete(languages, langKey);
    DeleteDistinct(languages, langKey);
    if rest != [] {
      assert rest[0].0 in Keys(rest);
      RotationOrder(rest, rest[0].0);
      DeleteFirst(rest);
      assert Keys(rest) == [rest[0].0] + Keys(rest[1..]);
    }
  }

  /**
   * The rotation starts with the current language and visits every language
   * of the table, and nothing else, exactly once; when the current language
   * is not in the table, it is visited first and the table follows in order.
   */
  lemma RotationVisitsEach(languages: Table<string>, langKey: string)
    requires DistinctKeys(languages)
    ensures var r := Rotation(languages, langKey);
            r[0] == langKey &&
            (forall x :: x in r <==> x == langKey || x in Keys(languages)) &&
            (forall i, j :: 0 <= i < j < |r| ==> r[i] != r[j])
    ensures langKey !in Keys(languages) ==> Rotation(languages, langKey) == [langKey] + Keys(languages)
  {
    var rest := Delete(languages, langKey);
    RotationOrder(languages, langKey);
    DeleteKeys(languages, langKey);
    DeleteDistinct(languages, langKey);
    KeysAfter(langKey, rest);
    if langKey !in Keys(languages) {
      DeleteAbsent(languages, langKey);
    }
  }

  /** A name put in front of the names of a table that has neither it nor a repeated name repeats no name. */
  lemma KeysAfter(k: string, rest: Table<string>)
    requires DistinctKeys(rest) && k !in Keys(rest)
    ensures var r := [k] + Keys(rest);
            r[0] == k &&
            (forall x :: x in r <==> x == k || x in Keys(rest)) &&
            (forall i, j :: 0 <= i < j < |r| ==> r[i] != r[j])
  {
    var r := [k] + Keys(rest);
    forall x ensures x in r <==> x == k || x in Keys(rest) {
      InCons(k, Keys(rest), x);
    }
    forall i, j | 0 <= i < j < |r| ensures r[i] != r[j] {
      if i == 0 {
        assert r[j] in Keys(rest);
      } else {
        assert r[i] == rest[i - 1].0 && r[j] == rest[j - 1].0;
      }
    }
  }

  lemma InCons(k: string, ks: seq<string>, x: string)
    ensures x in [k] + ks <==> x == k || x in ks
  {
    assert ([k] + ks)[0] == k;
    assert forall i :: 0 <= i < |ks| ==> ([k] + ks)[i + 1] == ks[i];
  }

  /**
   * A run that stops after the first language has visited a prefix of the
   * rotation, the whole of it when no language is left, and taken the
   * first language out of the table.
   */
  lemma FirstRotation(before: Table<string>, current: string, languages: Table<string>)
    requires languages == Delete(before, current)
    ensures [current] <= Rotation(before, current)
    ensures FilterOut(Keys(languages), current) == [] ==> [current] == Rotation(before, current) && languages == []
    ensures forall x :: x in Keys(languages) <==> x in Keys(before) && x !in [current]
  {
    RotationNext(before, current);
    DeleteKeys(before, current);
  }

  /**
   * A run that goes on with the next language visits the current language
   * and then what the run from the next language visits: a prefix of the
   * rotation, the whole of it when that run completes, and the languages it
   * leaves in the table are those neither run visited.
   */
  lemma LaterRotation(before: Table<string>, current: string, languages1: Table<string>, next: string,
                      rest: seq<string>, done: bool, languages: Table<string>)
    requires languages1 == Delete(before, current)
    requires FilterOut(Keys(languages1), current) != [] && next == FilterOut(Keys(languages1), current)[0]
    requires |rest| >= 1 && rest[0] == next && rest <= Rotation(languages1, next)
    requires done ==> rest == Rotation(languages1, next) && languages == []
    requires forall x :: x in Keys(languages) <==> x in Keys(languages1) && x !in rest
    ensures ([current] + rest)[0] == current && [current] + rest <= Rotation(before, current)
    ensures done ==> [current] + rest == Rotation(before, current) && languages == []
    ensures forall x :: x in Keys(languages) <==> x in Keys(before) && x !in [current] + rest
  {
    RotationNext(before, current);
    DeleteKeys(before, current);
    forall x ensures x in Keys(languages) <==> x in Keys(before) && x !in [current] + rest {
      InCons(current, rest, x);
    }
  }

  lemma {:induction false} GetNonEmpty(t: Table<string>, k: string)
    requires forall i :: 0 <= i < |t| ==> t[i].1 != ""
    ensures Get(t, k).Some? ==> Get(t, k).value != ""
  {
    if t != [] && t[0].0 != k {
      GetNonEmpty(t[1..], k);
    }
  }

  lemma {:induction false} DeleteNonEmpty(t: Table<string>, k: string)
    requires forall i :: 0 <= i < |t| ==> t[i].1 != ""
    ensures forall i :: 0 <= i < |Delete(t, k)| ==> Delete(t, k)[i].1 != ""
  {
    if t != [] {
      DeleteNonEmpty(t[1..], k);
    }
  }

  /** The first language name of the table whose code is `code`, as the start-up lookup finds it. */
  function InitialKey(code: string): string
  {
    match KeyOfValue(Languages, code)
    case Some(k) => if k != "" then k else (if Get(Languages, code).Some? then Get(Languages, code).value else "undefined")
    case None => if Get(Languages, code).Some? then Get(Languages, code).value else "undefined"
  }

  /** The module-level state of `src/app.ts`. */
  class Translator {
    /** `languages`, from which each finished language is deleted */
    var languages: Table<string>
    var langKey: string
    var langISOCode: string
    var platform: Option<string>
    var filesListLog: Table<LogEntry>
    /** whether `-l` was given */
    const languageGiven: bool
    /** `-c` */
    const isConverted: bool
    /** the working directory `path.resolve` starts from */
    const cwd: Path

    predicate Valid()
      reads this
    {
      DistinctKeys(languages) && DistinctKeys(filesListLog) && langISOCode != "" &&
      forall i :: 0 <= i < |languages| ==> languages[i].1 != ""
    }

    /** The start-up: `platform = argv.p || null`, the default language code and the matching name. */
    constructor (languageArg: Option<string>, platformArg: Option<string>, isConverted: bool, cwd: Path)
      ensures Valid()
      ensures languages == Languages && filesListLog == []
      ensures this.isConverted == isConverted && this.cwd == cwd
      ensures platform == (if platformArg.Some? && platformArg.value != "" then platformArg else None)
      ensures languageGiven == (languageArg.Some? && languageArg.value != "")
      ensures langISOCode == (if languageGiven then languageArg.value else DefaultLanguageCode)
      ensures langKey == InitialKey(langISOCode)
      ensures !languageGiven ==> langISOCode == "hi" && langKey == "Hindi"
    {
      languages := Languages;
      filesListLog := [];
      this.isConverted := isConverted;
      this.cwd := cwd;
      platform := if platformArg.Some? && platformArg.value != "" then platformArg else None;
      languageGiven := languageArg.Some? && languageArg.value != "";
      var code := if languageArg.Some? && languageArg.value != "" then languageArg.value else Languages[0].1;
      langISOCode := code;
      var key := GetKeyByValue(Languages, code);
      langKey := if key.Some? && key.value != "" then key.value
                 else if Get(Languages, code).Some? then Get(Languages, code).value
                 else "undefined";
      LanguageNamesDistinct();
      LanguageCodesNonEmpty();
      DefaultIsHindi();
      LanguageKeyOfCode(0);
    }

    /** `calculateOperationStatus(filePath, uuid, status, "filesCount")`; the timing branch is left out. */
    method CalculateOperationStatus(filePath: string, uuid: string, status: Status)
      requires Valid()
      modifies this
      ensures Valid()
      ensures filesListLog == Recorded(old(filesListLog), langKey, status, FileRecord(filePath, uuid))
      ensures languages == old(languages) && langKey == old(langKey) && langISOCode == old(langISOCode)
      ensures platform == old(platform)
    {
      if Get(filesListLog, langKey).None? {
        AssignDistinct(filesListLog, langKey, EmptyEntry);
        AssignGet(filesListLog, langKey, EmptyEntry, langKey);
        filesListLog := Assign(filesListLog, langKey, EmptyEntry);
      }
      var entry := Get(filesListLog, langKey).value;
      AssignDistinct(filesListLog, langKey, Push(entry, status, FileRecord(filePath, uuid)));
      AssignTwice(old(filesListLog), langKey, EmptyEntry, Push(entry, status, FileRecord(filePath, uuid)));
      filesListLog := Assign(filesListLog, langKey, Push(entry, status, FileRecord(filePath, uuid)));
    }

    /** `const pathData = checkPath(filePath, isConverted)`, whose platform becomes the current one. */
    method SetPlatform(filePath: Path)
      modifies this
      ensures platform == NextPlatform(old(platform), CheckPath(filePath, isConverted))
      ensures languages == old(languages) && langKey == old(langKey) && langISOCode == old(langISOCode)
      ensures filesListLog == old(filesListLog)
    {
      var pathData := CheckPath(filePath, isConverted);
      if pathData.Some? {
        platform := Some(PlatformName(pathData.value.platform));
      }
    }

    /**
     * `processFile(filePath)` run by itself: the platform is set from the
     * path, then the file goes through both branches.  The language of the
     * path would only be consulted with an empty `langISOCode`, which
     * `Valid` excludes.
     */
    method ProcessFile(filePath: Path, env: FileEnv) returns (outcome: Outcome)
      requires Valid()
      modifies this
      ensures Valid()
      ensures platform == NextPlatform(old(platform), CheckPath(filePath, isConverted))
      ensures outcome == FileOutcome(platform, filePath, langKey, langISOCode, cwd, env)
      ensures filesListLog == LogOutcome(old(filesListLog), langKey, filePath, outcome)
      ensures languages == old(languages) && langKey == old(langKey) && langISOCode == old(langISOCode)
    {
      SetPlatform(filePath);
      outcome := FinishFile(filePath, env);
    }

    /**
     * The part of `processFile(filePath)` after its first file read: the
     * forward branch, the request and the reverse branch under the platform
     * current at that time, and the record of the result.
     */
    method FinishFile(filePath: Path, env: FileEnv) returns (outcome: Outcome)
      requires Valid()
      modifies this
      ensures Valid()
      ensures outcome == FileOutcome(platform, filePath, langKey, langISOCode, cwd, env)
      ensures filesListLog == LogOutcome(old(filesListLog), langKey, filePath, outcome)
      ensures languages == old(languages) && langKey == old(langKey) && langISOCode == old(langISOCode)
      ensures platform == old(platform)
    {
      var fileData := env.content(filePath);
      var plat, key, code := platform, langKey, langISOCode;
      var jsonData := TransformFiles(plat, filePath, Content(fileData), false, code, cwd, env);
      if jsonData.TransformThrew? {
        return Aborted;
      }
      if jsonData.jsonData.None? {
        outcome := Failed("");
        assert outcome == FileOutcome(plat, filePath, key, code, cwd, env);
        CalculateOperationStatus(PathString(filePath), "", Failure);
        return;
      }
      var uuid := env.uuid(key, filePath);
      var translatedJsonData := env.translate(jsonData.jsonData.value, key);
      if translatedJsonData.None? {
        outcome := Failed(uuid);
        assert outcome == FileOutcome(plat, filePath, key, code, cwd, env);
        CalculateOperationStatus(PathString(filePath), uuid, Failure);
        return;
      }
      var back := TransformFiles(plat, filePath, Json(translatedJsonData.value), true, code, cwd, env);
      if back.TransformThrew? {
        outcome := Failed(uuid);
        assert outcome == FileOutcome(plat, filePath, key, code, cwd, env);
        CalculateOperationStatus(PathString(filePath), uuid, Failure);
        return;
      }
      outcome := Succeeded(uuid, back.action);
      assert outcome == FileOutcome(plat, filePath, key, code, cwd, env);
      CalculateOperationStatus(PathString(filePath), uuid, Success);
    }

    /**
     * `await Promise.all(paths.map((p) => processFile(p)))`.  Each call runs
     * on its own only up to its first file read, so every call sets the
     * platform, in path order, before any call goes on: every file of the
     * round then goes through its branches under the platform the last
     * classified path set.  The records are taken here in path order.
     */
    method ProcessAll(paths: seq<Path>, env: FileEnv) returns (outcomes: seq<Outcome>)
      requires Valid()
      modifies this
      ensures Valid()
      ensures platform == PlatformAfter(old(platform), paths, isConverted)
      ensures outcomes == RoundOutcomes(platform, paths, langKey, langISOCode, cwd, env)
      ensures filesListLog == LogAll(old(filesListLog), langKey, paths, outcomes)
      ensures languages == old(languages) && langKey == old(langKey) && langISOCode == old(langISOCode)
    {
      ClassifyAll(paths);
      outcomes := FinishAll(paths, env);
    }

    /** Every call of the round, in path order, up to its first file read. */
    method ClassifyAll(paths: seq<Path>)
      requires Valid()
      modifies this
      ensures Valid() && filesListLog == old(filesListLog)
      ensures platform == PlatformAfter(old(platform), paths, isConverted)
      ensures languages == old(languages) && langKey == old(langKey) && langISOCode == old(langISOCode)
    {
      for i := 0 to |paths|
        invariant Valid() && filesListLog == old(filesListLog)
        invariant platform == PlatformAfter(old(platform), paths[..i], isConverted)
        invariant languages == old(languages) && langKey == old(langKey) && langISOCode == old(langISOCode)
      {
        SetPlatform(paths[i]);
        PlatformAfterSnoc(old(platform), paths, i, isConverted);
      }
      assert paths[..|paths|] == paths;
    }

    /** Every call of the round, from its first file read on, under the platform now current. */
    method FinishAll(paths: seq<Path>, env: FileEnv) returns (outcomes: seq<Outcome>)
      requires Valid()
      modifies this
      ensures Valid() && platform == old(platform)
      ensures outcomes == RoundOutcomes(platform, paths, langKey, langISOCode, cwd, env)
      ensures filesListLog == LogAll(old(filesListLog), langKey, paths, outcomes)
      ensures languages == old(languages) && langKey == old(langKey) && langISOCode == old(langISOCode)
    {
      outcomes := [];
      for i := 0 to |paths|
        invariant Valid() && platform == old(platform)
        invariant languages == old(languages) && langKey == old(langKey) && langISOCode == old(langISOCode)
        invariant outcomes == RoundOutcomes(platform, paths[..i], langKey, langISOCode, cwd, env)
        invariant filesListLog == LogAll(old(filesListLog), langKey, paths[..i], outcomes)
      {
        var outcome := FinishFile(paths[i], env);
        RoundOutcomesSnoc(platform, paths, i, langKey, langISOCode, cwd, env);
        LogAllSnoc(old(filesListLog), langKey, paths[..i], outcomes, paths[i], outcome);
        outcomes := outcomes + [outcome];
      }
      assert paths[..|paths|] == paths;
    }

    /**
     * `translateFiles()`: one round for the current language, then, without
     * `-l`, the next round for the first language left.  A round stops the
     * rotation when a file's forward branch threw, or when no file was
     * recorded for the language (the timing record then reads a missing
     * entry and throws).  Returns the languages whose rounds ran, with the
     * code each round used, and whether the rotation ran to its end.  Every
     * round runs under the platform the first one ends with, and the log is
     * the rounds' records laid one after the other.
     */
    method TranslateFiles(paths: seq<Path>, env: FileEnv) returns (visited: seq<string>, completed: bool, ghost codes: seq<string>)
      requires Valid()
      modifies this
      ensures Valid()
      ensures |visited| >= 1 && visited[0] == old(langKey)
      ensures languageGiven ==> visited == [old(langKey)] && languages == old(languages)
      ensures !languageGiven ==> visited <= Rotation(old(languages), old(langKey))
      ensures !languageGiven && completed ==> visited == Rotation(old(languages), old(langKey)) && languages == []
      ensures !languageGiven ==> forall x :: x in Keys(languages) <==> x in Keys(old(languages)) && x !in visited
      ensures !languageGiven ==> languages == DeleteAll(old(languages), visited)
      ensures RoundsRan(old(languages), old(langISOCode), old(platform), old(filesListLog), visited, codes,
                        platform, filesListLog, paths, isConverted, cwd, env)
      ensures langKey == visited[|visited| - 1] && langISOCode == codes[|codes| - 1]
      ensures forall i :: 0 <= i < |visited| - 1 ==> RoundWentOn(platform, paths, visited[i], codes[i], filesListLog, cwd, env)
      ensures completed <==> RoundWentOn(platform, paths, langKey, langISOCode, filesListLog, cwd, env)
      ensures paths != [] && !AnyAborted(RoundOutcomes(platform, paths, langKey, langISOCode, cwd, env)) ==>
                completed && (!languageGiven ==> visited == Rotation(old(languages), old(langKey)) && languages == [])
    {
      visited, completed, codes := TranslateFrom(paths, env, languages, langKey, langISOCode, platform, filesListLog);
      StoppedAtMeans(visited, codes, completed, platform, filesListLog, paths, cwd, env);
      if paths != [] && !AnyAborted(RoundOutcomes(platform, paths, langKey, langISOCode, cwd, env)) {
        RunsToEnd(languageGiven, old(languages), old(langKey), old(langISOCode), old(platform), old(filesListLog),
                  visited, completed, codes, languages, langKey, langISOCode, platform, filesListLog,
                  paths, isConverted, cwd, env);
      }
    }

    /**
     * `translateFiles()` from the state `before`, `key0`, `code0`,
     * `platform0`, `log0`, which the ghost parameters name so that the
     * recursion can speak of it.
     */
    method TranslateFrom(paths: seq<Path>, env: FileEnv, ghost before: Table<string>, ghost key0: string, ghost code0: string,
                         ghost platform0: Option<string>, ghost log0: Table<LogEntry>)
      returns (visited: seq<string>, completed: bool, ghost codes: seq<string>)
      requires Valid()
      requires languages == before && langKey == key0 && langISOCode == code0
      requires platform == platform0 && filesListLog == log0
      modifies this
      ensures Valid()
      ensures Translated(languageGiven, before, key0, code0, platform0, log0, visited, completed, codes,
                         languages, langKey, langISOCode, platform, filesListLog, paths, isConverted, cwd, env)
      decreases |languages| + (if langKey in Keys(languages) then 0 else 1), 1
    {
      assert DistinctKeys(before);
      var aborted := Round(paths, env);
      FirstRound(before, key0, code0, platform0, log0, platform, filesListLog, paths, isConverted, cwd, env);
      if aborted || Get(filesListLog, langKey).None? {
        OnlyRound(languageGiven, before, key0, code0, platform0, log0, false, languages, platform, filesListLog,
                  paths, isConverted, cwd, env);
        return [langKey], false, [langISOCode];
      }
      visited, completed, codes := TranslateRemaining(paths, env, before, key0, code0, platform0, log0, platform, filesListLog);
    }

    /**
     * What follows a round of `key0` that neither threw nor left the log
     * without an entry for it, which took the platform and the log from
     * `platform0`, `log0` to `platform1`, `log1`: without `-l` and with
     * languages left, the first of them becomes the current one and
     * `translateFiles` runs again; otherwise the run is complete.
     */
    method TranslateRemaining(paths: seq<Path>, env: FileEnv, ghost before: Table<string>, ghost key0: string, ghost code0: string,
                              ghost platform0: Option<string>, ghost log0: Table<LogEntry>,
                              ghost platform1: Option<string>, ghost log1: Table<LogEntry>)
      returns (visited: seq<string>, completed: bool, ghost codes: seq<string>)
      requires Valid()
      requires langKey == key0 && langISOCode == code0 && platform == platform1 && filesListLog == log1
      requires languages == if languageGiven then before else Delete(before, key0)
      requires DistinctKeys(before)
      requires RoundsRan(before, code0, platform0, log0, [key0], [code0], platform1, log1, paths, isConverted, cwd, env)
      requires RoundWentOn(platform1, paths, key0, code0, log1, cwd, env)
      modifies this
      ensures Valid()
      ensures Translated(languageGiven, before, key0, code0, platform0, log0, visited, completed, codes,
                         languages, langKey, langISOCode, platform, filesListLog, paths, isConverted, cwd, env)
      decreases if languageGiven then 0 else |languages| + 1, 0
    {
      var current := langKey;
      if !languageGiven {
        var remainingLanguages := FilterOut(Keys(languages), langKey);
        if |remainingLanguages| > 0 {
          langKey := remainingLanguages[0];
          RotationNext(before, key0);
          GetNonEmpty(languages, langKey);
          langISOCode := Get(languages, langKey).value;
          ghost var languages1, next, code1 := languages, langKey, langISOCode;
          assert next in Keys(languages1);
          var rest, done, restCodes := TranslateFrom(paths, env, languages1, next, code1, platform1, log1);
          Continued(languageGiven, before, key0, code0, platform0, log0, languages1, next, code1, platform1, log1,
                    rest, done, restCodes, languages, langKey, langISOCode, platform, filesListLog, paths, isConverted, cwd, env);
          return [current] + rest, done, [code0] + restCodes;
        }
      }
      OnlyRound(languageGiven, before, key0, code0, platform0, log0, true, languages, platform, filesListLog,
                paths, isConverted, cwd, env);
      return [langKey], true, [langISOCode];
    }

    /**
     * One round: without `-l` the current language leaves the table, then
     * `Promise.all` runs over the files; reports whether some file's
     * forward branch threw.
     */
    method Round(paths: seq<Path>, env: FileEnv) returns (aborted: bool)
      requires Valid()
      modifies this
      ensures Valid()
      ensures languages == if languageGiven then old(languages) else Delete(old(languages), old(langKey))
      ensures langKey == old(langKey) && langISOCode == old(langISOCode)
      ensures platform == PlatformAfter(old(platform), paths, isConverted)
      ensures filesListLog == Rounds(old(filesListLog), platform, paths, [langKey], [langISOCode], cwd, env)
      ensures aborted == AnyAborted(RoundOutcomes(platform, paths, langKey, langISOCode, cwd, env))
    {
      if !languageGiven {
        DeleteDistinct(languages, langKey);
        DeleteNonEmpty(languages, langKey);
        languages := Delete(languages, langKey);
      }
      var outcomes := ProcessAll(paths, env);
      RoundsOne(old(filesListLog), platform, paths, langKey, langISOCode, cwd, env);
      aborted := AnyAborted(outcomes);
    }
  }
}
