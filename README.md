# Localisation file translator — a verified model

This project models the core of a command-line tool. The tool finds
localisation files of three platforms and converts each one to a JSON
table. It sends the table to a translation service and writes the
translated table back in the file's own format, next to the source. It
does this for one language, or in turn for every language of its
language table. The platforms and their formats are:

- iOS: `.strings` files in `xx.lproj` folders.
- Android: `strings.xml` files in `values` folders.
- A web portal: `.json` files.

The model is written in Dafny and covers the parts of the tool that
compute something:

- **Constants** (`src/utils/constants.ts`): the 60-entry language table
  (display name → ISO code), the extension of each platform and the
  platform names.
- **StringsHandler** (`src/utils/strings-handler.ts`): `.strings` text →
  table and table → `.strings` text. The line filter, the regular
  expression `/"(.+)"\s*=\s*"(.*?)";/` (in **StringsRegex**, with
  leftmost, greedy and lazy matching written out), last assignment wins,
  and the output name. The main result is that decoding an encoded table
  gives the table back when its keys are distinct and non-empty and no
  key or value holds a `"` or a line terminator (`StringsHandler.DecodeEncode`).
- **XmlHandler** (`src/utils/xml-handler.ts`): the parsed
  `resources.string` elements → table, the chain of nine global
  replacements in `decodeXmlEntities`, and the three replacements that
  escape a value for XML. The main results are the decode/escape round
  trip for values without `'` and without a backslash, and the two ways
  it fails: `'` comes back as `\'`, and a backslash sequence such as
  `\n` is decoded into the character it stands for.
- **Common** (`src/utils/common.ts`): the UTF-16 allow-list scanner
  `isEnglishOnly` and the reverse lookup `getKeyByValue`. Also the path
  classifier `checkPath`, with its three case-insensitive regular
  expressions, and the name-only decisions of `validatePath` and
  `validateFile`.
- **RequestHelper** (`src/utils/request-helper.ts`):
  `processApiCallsInBatches`. It forms consecutive slices of `batchSize`
  calls, keeps the results in call order, and spreads them into one
  object in which later results win. The default batch size is the
  constant `DefaultBatchSize` (50).
- **App** (`src/app.ts`): the global state as a class `Translator`.
  - Its fields are the language table, the current language name and
    code, the current platform and the per-language log of saved and
    failed files.
  - `calculateOperationStatus`, `processFile` and `translateFiles` are
    methods that update that state.
  - `transformFiles` is a function that picks the branch and names the
    destination.
  - The rotation over the languages is a function `Rotation`. It is
    proved to start with the current language and to visit every
    language of the table exactly once, in table order.

Three helper modules model what the JavaScript runtime provides:

- **Tables**: a plain object as an insertion-ordered sequence of
  entries. Assigning an existing name keeps its position. The spread
  `{...a, ...b}` is `Merge`, and `delete` is `Delete`.
- **JsStrings**: `split("\n")`, `trim`, `startsWith`, global
  `replace`/`replaceAll` with a literal pattern, ASCII `toLowerCase`,
  and first-match search for an alternation of literals in which `.`
  matches any character except a line terminator.
- **Paths**: POSIX `path.basename`, `dirname`, `extname`, `parse(...).name`,
  `basename(p, suffix)` and `join` over a path given as segments.

Everything outside the program is a parameter of type `App.FileEnv`:
file contents, the XML and JSON parsers, the translation request and the
request id. A write is returned as an `App.Action` value naming the
writer, the destination and the data, and `App.WrittenBy` gives what that
writer puts on disk.

Some behaviours of the source follow directly from the code and are
kept as written:

- `checkPath` uses the extension pattern `(.strings|.xml|.json)`, and
  its `.` matches any character. So an extension such as `.aastrings`
  matches the text `astrings`, which is not `.strings`, and the file is
  classed as a portal file.
- For iOS, the folder is renamed only when its name is two letters
  followed by `.lproj`. The pattern has the `/i` flag, so the letters and
  `.lproj` match in any case, and `EN.LPROJ` becomes `fr.LPROJ`. Any
  other folder name is kept as it is, and the reverse branch then writes
  into the source folder itself (`App.IosDestinationSibling`).
- `translateFiles` starts every `processFile` of a round at once
  (`src/app.ts:149`). Each call sets the global `platform` from its path
  before its first file read (`src/app.ts:93`, `src/app.ts:97`), so every
  call has set it before any call goes on. All files of the round then go
  through the branches of the platform the last classified path set. A
  `.strings` file in the same round as a later Android `.xml` file is
  encoded as XML on the way forward and recorded as failed
  (`App.MixedRound`).
- An iOS file that is not `.strings` goes to the encoder on the way
  forward with its raw content. When that content is empty,
  `jsonToStrings` reads the file again and `JSON.parse("")` throws, so the
  whole round is rejected (`App.TransformBranches`).
- The escape applied by `jsonToXML` turns `'` into `\'`, and
  `decodeXmlEntities` does not undo it. A value with an apostrophe comes
  back with a backslash (`XmlHandler.ApostropheComesBackEscaped`).
  Conversely, the escape leaves backslashes alone and the decoding turns
  `\n`, `\t`, `\"` and `\\` into the characters they stand for, so a
  value holding the two characters `\n` comes back as a newline
  (`XmlHandler.BackslashComesBackDecoded`).
- `processFile` consults the language found in the path only when
  `langISOCode` is empty (`src/app.ts:94-95`). The start-up always sets
  it to a non-empty code (`src/app.ts:84`), so that branch never runs.
  The class invariant `Translator.Valid` records this.

## Model

| member | source | states |
|---|---|---|
| Tables.AssignGet | src/utils/strings-handler.ts:21 | after `obj[k] = v`, `k` reads `v` and every other name reads as before |
| Tables.AssignKeys | src/utils/strings-handler.ts:21 | assigning an existing name keeps the order of names; a new name is appended at the end |
| Tables.AssignDistinct | src/utils/strings-handler.ts:21 | assignment never creates a duplicate name |
| Tables.MergeGet | src/utils/request-helper.ts:67 | in `{...t, ...u}` a name reads as the last entry of `u` that has it, otherwise as in `t` |
| Tables.MergeKeys | src/utils/request-helper.ts:67 | the names of `{...t, ...u}` are exactly the names of `t` or of `u` |
| Tables.MergeEmptyKeys | src/utils/strings-handler.ts:15-23 | assigning a list of entries into `{}` gives the names in order of first occurrence |
| Tables.DeleteGet | src/app.ts:146 | after `delete t[k]`, `k` is absent and every other name reads as before |
| Tables.DeleteKeys | src/app.ts:146 | the names after `delete t[k]` are the old names without `k` |
| Tables.DeleteAllGet | src/app.ts:146 | after deleting a list of names in turn, those names are absent and every other name reads as before |
| Constants.PlatformTablesInjective | src/utils/constants.ts:65-75 | the three extensions are pairwise different, and so are the three platform names |
| Constants.DefaultIsHindi | src/utils/constants.ts:1-2 | the language table has 60 entries and its first is `Hindi: "hi"`, the default code |
| Constants.LanguageCodesNonEmpty | src/utils/constants.ts:1-63 | no language code is empty |
| Constants.LanguagesDistinct | src/utils/constants.ts:1-63 | neither a display name nor a code occurs twice in the table |
| Constants.LanguageCodesDistinct | src/utils/constants.ts:1-63 | the codes of any two different entries differ |
| Constants.LanguageNamesDistinct | src/utils/constants.ts:1-63 | the names of any two different entries differ |
| JsStrings.SplitJoin | src/utils/strings-handler.ts:10-11 | `split("\n")` of two texts joined by a newline is the split of the first followed by the split of the second |
| JsStrings.SplitAtNewline | src/utils/strings-handler.ts:10-11 | a first line without a newline comes out as one piece, followed by the split of the rest |
| JsStrings.TrimKeeps | src/utils/strings-handler.ts:12 | `trim` leaves unchanged a text that neither starts nor ends with white space |
| JsStrings.ReplaceAllAbsent | src/utils/xml-handler.ts:31-40 | a global replacement whose pattern does not occur changes nothing |
| JsStrings.ReplaceAllFront | src/utils/xml-handler.ts:31-40 | an occurrence at the front is replaced and the scan continues after it |
| JsStrings.ReplaceAllConcat1 | src/utils/xml-handler.ts:57-59 | replacing a one-character pattern distributes over concatenation |
| JsStrings.ReplaceChainPiece | src/utils/xml-handler.ts:31-40 | a chain of global replacements handles a piece that no pattern straddles independently of what follows it |
| JsStrings.SearchFrom | src/utils/common.ts:59-61 | a regular-expression match of an alternation is at the leftmost position where some alternative matches, and uses the first alternative that matches there |
| JsStrings.MatchedText | src/utils/common.ts:59-61 | there is no match exactly when no alternative matches anywhere |
| Paths.JoinInverse | src/app.ts:259 | `basename` and `dirname` of `path.join(dir, name)` give back `name` and `dir` |
| Paths.ExtnameShape | src/app.ts:240 | `path.extname` is a suffix that starts with its only dot, and the rest of the name is non-empty when there is an extension |
| Paths.ExtnameAfter | src/app.ts:283 | the extension of `x.y` (no dot in `y`) is `.y`, and its name without extension is `x` |
| Paths.BaseNameWithoutRestores | src/utils/strings-handler.ts:44 | `path.basename(p, ".json")` strips the suffix exactly when the base name is longer than it, and putting the suffix back gives the base name |
| StringsRegex.ValueStartSpec | src/utils/strings-handler.ts:19 | after the closing quote of the key, the value starts exactly after `\s*=\s*"` |
| StringsRegex.ValueEndSpec | src/utils/strings-handler.ts:19 | the lazy `(.*?)";` ends the value at the first `";` before any line terminator, and fails when there is none |
| StringsRegex.KeyEndSpec | src/utils/strings-handler.ts:19 | the greedy `(.+)` closes the key at the furthest quote on the line from which the rest of the pattern matches |
| StringsRegex.KeyWithinLine | src/utils/strings-handler.ts:19 | a key never extends over a line terminator |
| StringsRegex.MatchFromSpec | src/utils/strings-handler.ts:19 | the scan finds the leftmost start at which the pattern matches, with the greedy key end there |
| StringsRegex.MatchSpec | src/utils/strings-handler.ts:19 | `match` returns the leftmost, greedy-key, lazy-value match, and nothing exactly when the pattern matches nowhere |
| StringsRegex.MatchDetermined | src/utils/strings-handler.ts:19 | once the start and the key end are fixed, the value is fixed |
| StringsRegex.ValueHasNoQuoteSemi | src/utils/strings-handler.ts:19 | a captured value never contains `";` |
| StringsHandler.KeepLines | src/utils/strings-handler.ts:10-13 | every surviving line is non-empty and starts with neither `/*` nor `//`, and no lines are added |
| StringsHandler.KeepLinesOne | src/utils/strings-handler.ts:10-13 | each line contributes its trimmed form exactly when that form is kept, independently of the other lines |
| StringsHandler.LineEntry | src/utils/strings-handler.ts:19-21 | a line yields no entry exactly when the pattern matches nowhere; otherwise the key is non-empty and neither part spans a line terminator |
| StringsHandler.EntriesSnoc | src/utils/strings-handler.ts:17-23 | one more line adds its entry, if any, at the end |
| StringsHandler.StringsToJson | src/utils/strings-handler.ts:8-26 | the loop assigns each matched line's key and value in order, giving `Decode` of the file text |
| StringsHandler.DecodeGet | src/utils/strings-handler.ts:17-23 | a key reads as the value of its last matching line |
| StringsHandler.DecodeKeys | src/utils/strings-handler.ts:15-23 | the keys are distinct and ordered by their first matching line |
| StringsHandler.EncodedLines | src/utils/strings-handler.ts:41-43 | one line `"key" = "value";` per entry, in entry order |
| StringsHandler.EncodeLines | src/utils/strings-handler.ts:41-43 | splitting the encoded text at newlines gives the entry lines, then the empty text after the final newline |
| StringsHandler.EncodeEntries | src/utils/strings-handler.ts:38-43 | the loop appends one line per entry, giving `Encode` of the table |
| StringsHandler.StringsOutputPathSpec | src/utils/strings-handler.ts:44-45 | the output file is in the output folder, named as the input with a trailing `.json` removed |
| StringsHandler.JsonToStrings | src/utils/strings-handler.ts:28-46 | without given data it encodes the stored file's table; the text written is the encoding, at the output path |
| StringsHandler.LayoutMatch | src/utils/strings-handler.ts:19 | on a line laid out as `"k" = "v";` with quote-free, single-line `k` and `v`, the pattern matches the whole line with groups `k` and `v` |
| StringsHandler.EntryLineRoundTrip | src/utils/strings-handler.ts:19-42 | for a non-empty key and a value, neither holding a `"` or a line terminator, parsing the encoded line gives back the key and the value |
| StringsHandler.KeepEncodedLines | src/utils/strings-handler.ts:13-42 | encoded lines all survive the line filter |
| StringsHandler.EntriesOfEncodedLines | src/utils/strings-handler.ts:17-42 | for a table whose keys are non-empty and whose keys and values hold no `"` and no line terminator, the entries read from the encoded lines are the table's entries, in order |
| StringsHandler.DecodeEncode | src/utils/strings-handler.ts:8-50 | converting a table with distinct, non-empty, quote-free, single-line keys and values to `.strings` and back gives the same table |
| XmlHandler.ElementEntries | src/utils/xml-handler.ts:15-17 | one entry per element, in order: its `name` attribute and its decoded text |
| XmlHandler.ConvertXmlToJson | src/utils/xml-handler.ts:7-26 | the loop assigns each element's entry in order, throws on an element without attributes, and warns when `resources.string` is missing |
| XmlHandler.ConvertManyGet | src/utils/xml-handler.ts:14-17 | for an array of elements, a name reads as its last element's decoded text, the names are distinct, and there is no warning |
| XmlHandler.ConvertSingleAsArray | src/utils/xml-handler.ts:18-20 | a single element is converted as an array of one |
| XmlHandler.ConvertThrows | src/utils/xml-handler.ts:16 | an element without attributes makes the conversion throw |
| XmlHandler.DecodeUntouched | src/utils/xml-handler.ts:29-44 | text with no backslash and no `&` is returned unchanged |
| XmlHandler.DecodeAmpLast | src/utils/xml-handler.ts:36-40 | `&amp;` is decoded last, so `&amp;lt;` becomes `&lt;` and not `<` |
| XmlHandler.EscapeByChar | src/utils/xml-handler.ts:56-59 | the three replacements escape a value character by character |
| XmlHandler.DecodeEscape | src/utils/xml-handler.ts:31-59 | decoding an escaped backslash-free value gives the value with each `'` turned into `\'` |
| XmlHandler.EscapeRoundTrip | src/utils/xml-handler.ts:31-59 | a value without `'` and backslash comes back unchanged after escaping and decoding |
| XmlHandler.ApostropheComesBackEscaped | src/utils/xml-handler.ts:39-57 | the value `'` comes back as `\'` |
| XmlHandler.BackslashComesBackDecoded | src/utils/xml-handler.ts:29-59 | the escape leaves the two characters `\n` alone and the decoding turns them into a newline |
| XmlHandler.XmlOutputPathSpec | src/utils/xml-handler.ts:72-75 | the output file has the input's base name and sits in the output folder |
| XmlHandler.JsonToXml | src/utils/xml-handler.ts:46-77 | the document goes into the output folder under the input's file name and holds one element per entry, in order, named by its key |
| XmlHandler.DecodeEscaped | src/utils/xml-handler.ts:29-59 | decoding an escaped backslash-free value, empty or not, gives the value with each `'` turned into `\'` |
| XmlHandler.XmlElementsReadBack | src/utils/xml-handler.ts:7-61 | converting back the elements `jsonToXML` builds from a table with distinct names and backslash-free values gives the same names in the same order, each value with `'` turned into `\'`, and unchanged when it has no `'` |
| Common.IsEnglishOnly | src/utils/common.ts:7-40 | the scan returns `Accepts` of the code units |
| Common.AcceptsIff | src/utils/common.ts:8-39 | a text is accepted exactly when each code unit is allowed (ASCII or one of the ten listed) or is half of a high/low surrogate pair |
| Common.TrailingHighSurrogateRejected | src/utils/common.ts:24-36 | a high surrogate at the end is rejected |
| Common.LoneLowSurrogateRejected | src/utils/common.ts:24-36 | a low surrogate not preceded by a high one is rejected |
| Common.AcceptsUtf16 | src/utils/common.ts:7-40 | on the UTF-16 form of a string, the scan accepts exactly when every character of the Basic Multilingual Plane is ASCII or on the list; characters beyond it, written as surrogate pairs, are always accepted |
| Common.KeyOfValue | src/utils/common.ts:42-52 | there is no key exactly when no entry has the value |
| Common.KeyOfValueFirst | src/utils/common.ts:46-51 | the key returned is that of the first entry with the value |
| Common.GetKeyByValue | src/utils/common.ts:42-52 | the loop returns `KeyOfValue` of the table |
| Common.LanguageKeyOfCode | src/utils/common.ts:42-52 | looking up a language's code in the language table gives that language's name |
| Common.PlatformOfExtension | src/utils/common.ts:83-89 | each platform's extension selects that platform |
| Common.CheckPathConverted | src/utils/common.ts:75-93 | for a converted file the answer is never `null`, and its platform is the first platform token of the lower-cased path, or the portal when that token is `portal` or missing |
| Common.CheckPathUnconverted | src/utils/common.ts:57-98 | for an unconverted file the answer is `null` exactly when the extension pattern matches nowhere in the lower-cased extension; `.strings` selects iOS and `.xml` Android |
| Common.CheckPathByExtension | src/utils/common.ts:61-93 | a file whose lower-cased extension is a platform's extension is classed as that platform |
| Common.LiteralMatch | src/utils/common.ts:55-60 | for literal alternatives, the match is the first alternative at the leftmost position where one occurs |
| Common.CheckPathKeeps | src/utils/common.ts:60-91 | the answer carries the path unchanged and, as language, the first of `hindi`, `french`, `urdu` found in the lower-cased path |
| Common.ValidatePathInDirectory | src/utils/common.ts:149-162 | a `.strings` file is accepted exactly in an `en.lproj` folder, an `.xml` file exactly in a `values` folder, and no other file is accepted from its names alone |
| Common.ValidateFile | src/utils/common.ts:101-109 | a file is kept exactly when its text is accepted and its extension is not `.json`, and is then returned as given |
| RequestHelper.BatchesFlatten | src/utils/request-helper.ts:61-62 | the batches, put back together in order, are the calls |
| RequestHelper.BatchesSizes | src/utils/request-helper.ts:61-62 | every batch is non-empty and holds at most `batchSize` calls, and all but the last hold exactly `batchSize` |
| RequestHelper.BatchesCount | src/utils/request-helper.ts:61 | the number of batches is the ceiling of the number of calls over `batchSize` |
| RequestHelper.RunBatch | src/utils/request-helper.ts:63 | one result per call of the batch, in order |
| RequestHelper.ProcessApiCallsInBatches | src/utils/request-helper.ts:55-68 | the loop forms the batches `Batches`, runs every call once in order, and returns their results spread into one object; no calls give `{}` |
| RequestHelper.MergeAllKeys | src/utils/request-helper.ts:67 | a name is in the merged object exactly when some result has it |
| RequestHelper.MergeAllLastWins | src/utils/request-helper.ts:67 | a name reads as in the last result that has it |
| App.RecordedGet | src/app.ts:209-220 | recording touches only the current language's entry, creating it empty when missing and adding the record to the chosen list |
| App.RecordedAddsOne | src/app.ts:217-220 | each call records exactly one file in the whole log |
| App.IosFolderNameSpec | src/app.ts:254-257 | a name made of two ASCII letters and `.lproj`, in any case, becomes the code (`ar` when there is none) followed by the rest of the name; any other name is kept; renaming twice changes nothing more |
| App.IosFolderNameExample | src/app.ts:254-257 | `en.lproj` with the code `fr` becomes `fr.lproj` |
| App.IosFolderNameUpperExample | src/app.ts:254-257 | the match ignores case: `EN.LPROJ` with `fr` becomes `fr.LPROJ` |
| App.IosFolderNameFallbackExample | src/app.ts:254-257 | with an empty code, `en.Lproj` becomes `ar.Lproj` |
| App.AndroidFolderNameDistinct | src/app.ts:271-275 | different codes give different folder names and different destinations, and the destination is never the source folder |
| App.IosDestinationSibling | src/app.ts:258-259 | the iOS destination is a sibling of the source folder with the renamed folder name |
| App.AndroidDestinationSibling | src/app.ts:271-275 | the Android destination is the sibling `<dir>-<code>` of the source folder |
| App.PortalOutputName | src/app.ts:282-284 | the portal output of `name.json` is `name_<code>.json` in the source file's folder |
| App.TransformBranches | src/app.ts:249-295 | only a forward branch returns a table; iOS and Android decode only their own extension and encode otherwise; iOS throws exactly when it encodes empty raw content; the portal writes only a reverted `.json` file and otherwise parses JSON |
| App.FileOutcomeSpec | src/app.ts:104-127 | a file is saved only after its reverse branch writes to the platform's destination (for the portal, only a `.json` file); an Android file of another extension is recorded as failed with an empty id, and so is an iOS one unless its content is empty, which aborts the round |
| App.SavedTranslation | src/app.ts:104-121 | a saved file was decoded by its platform's own converter (`.strings` for iOS, `.xml` for Android), and its reverse branch was handed the table the request returned |
| App.SavedFileReadsBack | src/app.ts:249-285 | what a saved file leaves on disk reads back as the translation: the iOS text is at the `.strings` output path and, when the table's keys are distinct and non-empty and no key or value holds a `"` or a line terminator, decodes to the translated table; the Android document is in the `<dir>-<code>` folder under the source's file name and, when the names are distinct and no value holds a backslash, converts back to the same names and values, each `'` reading as `\'`; the portal file holds the table |
| App.PlatformAfterStart | src/app.ts:92-93 | after the round's classifications the platform either no longer depends on the one before, or no path was classified and it is unchanged |
| App.PlatformAfterIdempotent | src/app.ts:92-93 | classifying the same paths again leaves the platform as the first pass left it |
| App.RoundAfterAndroid | src/app.ts:92-104 | when the last path of a round is classified Android, every file of the round that is not `.xml` is recorded as failed |
| App.StringsFileAlone | src/app.ts:92-104 | by itself, a `.strings` file in `en.lproj` is classified iOS and decoded |
| App.MixedRound | src/app.ts:92-104 | in a round with an Android `.xml` file after it, the same `.strings` file goes through the Android branches and is recorded as failed |
| App.LogAllHasEntry | src/app.ts:106-125 | once some file was recorded, the current language has a log entry |
| App.LogOutcomeEntry | src/app.ts:106-125 | one file adds its record to the saved or the failed list of the language, or nothing when its forward branch threw |
| App.LogAllEntry | src/app.ts:106-125 | after a round, the language's entry is its old lists followed by the round's saved and failed files, in path order, and is missing only if it was and nothing was recorded |
| App.LogAllOther | src/app.ts:209-220 | a round leaves every other language's entry as it was |
| App.RoundsGet | src/app.ts:143-170 | after rounds for distinct languages, each language's entry is what its own round made of its earlier entry |
| App.RoundsOther | src/app.ts:143-170 | a language no round was for keeps its entry |
| App.LaterRounds | src/app.ts:160-170 | the first round followed by the rounds of the next call make up the rounds of the whole run, each reading its code from the table before any deletion |
| App.FilterOut | src/app.ts:157-159 | the remaining languages are exactly the names of the table other than the current one |
| App.RotationNext | src/app.ts:146-170 | one turn takes the current language, then goes on from the first name left after deleting it, and stops when none is left |
| App.RotationOrder | src/app.ts:146-170 | the rotation is the current language followed by the other languages in table order |
| App.RotationVisitsEach | src/app.ts:146-170 | the rotation starts with the current language and visits it and every language of the table, and nothing else, exactly once |
| App.FirstRotation | src/app.ts:146-162 | after the current language is deleted, the rotation starts with it, is just it when no other language is left, and the table holds exactly the other languages |
| App.LaterRotation | src/app.ts:156-170 | the current language followed by the languages of the next call is a prefix of the rotation, all of it when that call completed, and the table left holds exactly the languages not visited |
| App.Translator.constructor | src/app.ts:57-85 | the start-up takes `-p` or no platform, the given code or `hi`, and the name found by the reverse lookup (`Hindi` by default) |
| App.Translator.CalculateOperationStatus | src/app.ts:203-220 | the log becomes `Recorded` of the old log, and nothing else changes |
| App.Translator.SetPlatform | src/app.ts:92-93 | the platform becomes the one `checkPath` finds, if any |
| App.Translator.ProcessFile | src/app.ts:87-129 | run by itself, the platform is set from the path, the outcome is `FileOutcome` under that platform, and the log records it under the current language |
| App.Translator.FinishFile | src/app.ts:97-128 | from the first file read on, the outcome is `FileOutcome` under the platform current then, and the log records it; nothing else changes |
| App.Translator.ClassifyAll | src/app.ts:87-93 | every call of the round sets the platform from its path, in path order, and the log is untouched |
| App.Translator.FinishAll | src/app.ts:97-128 | every file then gets its `FileOutcome` under the one platform now current, and the log records them in path order |
| App.Translator.ProcessAll | src/app.ts:149-150 | `Promise.all` over the files: the platform is the one after classifying every path, every file's outcome is taken under it, and the log records them in path order |
| App.Translator.Round | src/app.ts:146-150 | one round: without `-l` the current language leaves the table; the round's records are added; it reports whether some file's forward branch threw |
| App.Translator.TranslateFiles | src/app.ts:143-180 | with `-l` only the given language is translated and the table is kept; otherwise the languages visited are a prefix of `Rotation`, all of it when the run completed, which leaves the table empty, and the table left is the starting table with the visited languages deleted in turn (`DeleteAll`); each later round uses the code its language has in the table; every round runs under the platform the first round's classifications left; the log is the rounds' records one after the other (`RoundsRan`); the current language and code end as those of the last round; every round but the last went on (none of its forward branches threw and its language has a log entry), and the run completed exactly when the last round went on too; with files and no forward branch throwing in the round of the final language, the run completed and, without `-l`, visited the whole `Rotation` and emptied the table |
| App.Translator.TranslateFrom | src/app.ts:143-180 | the same run from a named start state, for the recursion (`Translated`, including `StoppedAt`: which rounds went on and whether the run completed) |
| App.Translator.TranslateRemaining | src/app.ts:156-176 | after a round that neither threw nor left the language without a log entry: without `-l` and with languages left, the next one becomes current and the run goes on from it; otherwise the run completes |
| App.StoppedAtMeans | src/app.ts:149-177 | where the run stopped, round by round: every round before the last went on, and the run completed exactly when the last round went on |
| App.RunsToEnd | src/app.ts:143-180 | with files and no forward branch throwing in the last round, the run completed, and without `-l` it visited every language of the table in `Rotation` order and left the table empty |
| App.NotRevisited | src/app.ts:146-162 | a run that follows the rotation from a language never comes back to it, because the visited languages are deleted from the table |

## Left out

- File system, console and terminal output: `fs` reads, writes and `ensureDirSync`, `printSuccess`/`printError` and spinners (`src/utils/console-print.ts`). Contents are parameters, and writes are returned as `App.Action` values.
- The xml2js library: `parseStringPromise` is a parameter that gives the `resources.string` field, and the text produced by `Builder` (`src/utils/xml-handler.ts:66-70`) is not modelled. The model stops at the escaped element values.
- `JSON.parse` and `JSON.stringify` are parameters or opaque. Only string values are modelled; `validatePath`'s check of the content of a portal file (`src/utils/common.ts:163-171`) is returned as the verdict `ReadsContent`. The parameter `parseJson` gives a table or fails. So a portal file whose JSON text is `null`, `0`, `false` or `""` is not modelled: `JSON.parse` returns a falsy value there, and the source records the file as failed without a request (`src/app.ts:106-107`).
- HTTP: `createRequest` (axios, timeouts, retries) and `src/utils/translate-ai.ts` are left out, because they are network I/O. The translation is a parameter that may fail. The retry at `src/utils/request-helper.ts:47` discards its result, so a request that succeeds only on retry still gives `undefined`.
- Concurrency: the calls of a round are modelled as all of their classifications, in path order, then all of their remainders, in path order. The records of a round are therefore in path order, while the source records them in the order the calls finish. Within a batch of `processApiCallsInBatches` the calls run one after another, in order.
- Raw content handed to a writer: a forward branch that encodes (an iOS or Android file of another extension) passes the file's text where a table is expected, and `Object.entries` of a string writes one entry per character. The model names that write (`App.Action` with `Content` data) but does not compute its text (`App.WrittenBy` gives `NotWritten`); such a file is recorded as failed either way.
- XmlHandler.ParsedBack: takes the XML builder and parser together to give each element's name and text back as written. In particular, an empty text is read back as the empty string.
- Tables.Assign: a key named `__proto__` sets the object's prototype instead of adding an entry, and the model treats it as an ordinary name. StringsHandler.DecodeGet, XmlHandler.ConvertManyGet and StringsHandler.DecodeEncode therefore also claim an entry for `__proto__`, which the source does not keep.
- Time: `performance.now`, `finishedTime`, `totalMins` and the `timing` branch of `calculateOperationStatus` (`src/app.ts:221-230`) are left out. Only one effect of that branch is kept: it throws when the current language has no log entry, which ends the rotation.
- `printFinalResult`, the file size and line count, CLI parsing with yargs, `uuidv4` (a parameter), `findFiles`, `findMissingFiles`, `renameFolders` and `fix-imports.js` are left out, because they are output or directory walking.
- Unicode case mapping: `toLowerCase` is modelled on ASCII letters only.
- Object key order: JavaScript lists integer-like keys first; the model keeps insertion order only.
- `path.resolve` treats `.` and `..` as plain names, and the model performs no normalisation.
- App.IosFolderName: a `$` pattern in the replacement code (such as `$1`) is not expanded.
- RequestHelper.ProcessApiCallsInBatches: requires `batchSize > 0`, because with zero or a negative size the source loop never ends.
- RequestHelper.BatchesCount: states the ceiling as the bounds `m * batchSize >= n` and `(m - 1) * batchSize < n` instead of a division.
- App.Translator.ProcessFile: does not model the assignment of `langISOCode` from the language in the path (`src/app.ts:94-95`), because it is unreachable once start-up has set a code.
