/**
 * `src/utils/xml-handler.ts`: the Android resource-XML text codec.  The XML
 * parser and builder are a library whose output and input are taken here as
 * they reach the converters: the parsed `resources.string` field on the way
 * in, the list of `<string name=...>` elements on the way out.
 */
module XmlHandler {
  import opened Wrappers
  import opened Tables
  import opened JsStrings
  import opened Paths

  /** The attribute object `$` of a parsed `<string>` element. */
  datatype NameAttr =
    | NoAttributes        // the element has no attributes: `msg.$` is undefined
    | Unnamed             // attributes, but no `name`: the key becomes "undefined"
    | Named(name: string)

  /** A parsed `<string>` element: its attributes and its text `_`, `None` when absent. */
  datatype StringElement = StringElement(attrs: NameAttr, text: Option<string>)

  /** `parsedXml.resources.string`: missing, a single element, or an array of them. */
  datatype StringField = Missing | Single(element: StringElement) | Many(elements: seq<StringElement>)

  /** What `convertXMLToJson` ends with: the table and whether it warned, or a thrown `TypeError`. */
  datatype Converted = Converted(table: Table<Option<string>>, warned: bool) | Threw

  /** The replacements of `decodeXmlEntities`, in the order they run: backslash escapes, then entities. */
  const DecodeSteps: seq<(string, string)> := BackslashSteps + EntitySteps

  const BackslashSteps: seq<(string, string)> := [("\\n", "\n"), ("\\t", "\t"), ("\\\"", "\""), ("\\\\", "\\")]

  const EntitySteps: seq<(string, string)> := [
    ("&lt;", "<"), ("&gt;", ">"), ("&quot;", "\""), ("&apos;", "'"), ("&amp;", "&")
  ]

  /** The replacements `jsonToXML` applies to each value, in the order they run. */
  const EscapeSteps: seq<(string, string)> := [("'", "\\'"), ("\"", "\\\""), ("&", "&amp;")]

  lemma StepsValid()
    ensures ValidSteps(BackslashSteps) && ValidSteps(EntitySteps)
    ensures ValidSteps(DecodeSteps) && ValidSteps(EscapeSteps)
    ensures forall i :: 0 <= i < |EscapeSteps| ==> |EscapeSteps[i].0| == 1
    ensures forall i :: 0 <= i < |BackslashSteps| ==> BackslashSteps[i].0[0] == '\\'
    ensures forall i :: 0 <= i < |EntitySteps| ==> EntitySteps[i].0[0] == '&'
  {
    PieceAppend([], BackslashSteps, EntitySteps);
  }

  /** `decodeXmlEntities(text)`: falsy text is returned as it is. */
  function DecodeXmlEntities(text: Option<string>): Option<string>
  {
    StepsValid();
    if text.None? || text.value == "" then text else Some(ReplaceChain(text.value, DecodeSteps))
  }

  /** The escaping `jsonToXML` applies to a value. */
  function Escape(value: string): string
  {
    StepsValid();
    ReplaceChain(value, EscapeSteps)
  }

  /** `msg.$.name` as a property name; `None` when reading it throws. */
  function ElementKey(m: StringElement): Option<string>
  {
    match m.attrs
    case NoAttributes => None
    case Unnamed => Some("undefined")
    case Named(name) => Some(name)
  }

  /** The entries the elements of an array contribute, in document order. */
  function ElementEntries(ms: seq<StringElement>): (r: Table<Option<string>>)
    requires forall i :: 0 <= i < |ms| ==> ElementKey(ms[i]).Some?
    ensures |r| == |ms|
    ensures forall i :: 0 <= i < |ms| ==> r[i] == (ElementKey(ms[i]).value, DecodeXmlEntities(ms[i].text))
  {
    seq(|ms|, i requires 0 <= i < |ms| => (ElementKey(ms[i]).value, DecodeXmlEntities(ms[i].text)))
  }

  /** The outcome `convertXMLToJson` reaches on a parsed document. */
  function Convert(field: StringField): Converted
  {
    match field
    case Missing => Converted([], true)
    case Single(m) =>
      if ElementKey(m).None? then Threw
      else Converted(Assign([], ElementKey(m).value, DecodeXmlEntities(m.text)), false)
    case Many(ms) =>
      if exists i :: 0 <= i < |ms| && ElementKey(ms[i]).None? then Threw
      else Converted(Merge([], ElementEntries(ms)), false)
  }

  /** `convertXMLToJson(data)`, from the parsed `resources.string` field on. */
  method ConvertXmlToJson(field: StringField) returns (r: Converted)
    ensures r == Convert(field)
  {
    var modifiedXml: Table<Option<string>> := [];
    match field
    case Missing =>
      r := Converted(modifiedXml, true);
    case Single(m) =>
      var key := ElementKey(m);
      if key.None? {
        return Threw;
      }
      modifiedXml := Assign(modifiedXml, key.value, DecodeXmlEntities(m.text));
      r := Converted(modifiedXml, false);
    case Many(ms) =>
      for i := 0 to |ms|
        invariant forall j :: 0 <= j < i ==> ElementKey(ms[j]).Some?
        invariant modifiedXml == Merge([], ElementEntries(ms[..i]))
      {
        var key := ElementKey(ms[i]);
        if key.None? {
          return Threw;
        }
        assert ElementEntries(ms[..i + 1]) == ElementEntries(ms[..i]) + [(key.value, DecodeXmlEntities(ms[i].text))];
        MergeSnoc([], ElementEntries(ms[..i]), (key.value, DecodeXmlEntities(ms[i].text)));
        modifiedXml := Assign(modifiedXml, key.value, DecodeXmlEntities(ms[i].text));
      }
      assert ms[..|ms|] == ms;
      r := Converted(modifiedXml, false);
  }

  /** For an array, a name reads the decoded text of the last element carrying it. */
  lemma ConvertManyGet(ms: seq<StringElement>, k: string)
    requires forall i :: 0 <= i < |ms| ==> ElementKey(ms[i]).Some?
    ensures Convert(Many(ms)).Converted? && !Convert(Many(ms)).warned
    ensures Get(Convert(Many(ms)).table, k) == GetLast(ElementEntries(ms), k)
    ensures DistinctKeys(Convert(Many(ms)).table)
  {
    MergeGet([], ElementEntries(ms), k);
    MergeDistinct([], ElementEntries(ms));
  }

  /** A single element gives the same one-entry table as an array holding just it. */
  lemma ConvertSingleAsArray(m: StringElement)
    ensures Convert(Single(m)) == Convert(Many([m]))
    ensures ElementKey(m).Some? ==> Convert(Single(m)).table == [(ElementKey(m).value, DecodeXmlEntities(m.text))]
  {
    assert [m][0] == m;
    if ElementKey(m).Some? {
      var e := (ElementKey(m).value, DecodeXmlEntities(m.text));
      assert ElementEntries([m]) == [] + [e];
      MergeSnoc([], [], e);
    }
  }

  /** An element without attributes makes the conversion throw, wherever it sits in the array. */
  lemma ConvertThrows(ms: seq<StringElement>, i: nat)
    requires i < |ms| && ms[i].attrs.NoAttributes?
    ensures Convert(Many(ms)) == Threw
  {
    assert ElementKey(ms[i]).None?;
  }

  /** Text holding neither `\` nor `&` comes out of the decoding unchanged. */
  lemma DecodeUntouched(text: string)
    requires '\\' !in text && '&' !in text
    ensures DecodeXmlEntities(Some(text)) == Some(text)
  {
    StepsValid();
    forall i | 0 <= i < |DecodeSteps| ensures DecodeSteps[i].0[0] !in text {
      if i < |BackslashSteps| {
        assert DecodeSteps[i] == BackslashSteps[i];
      } else {
        assert DecodeSteps[i] == EntitySteps[i - |BackslashSteps|];
      }
    }
    ReplaceChainUntouched(text, DecodeSteps);
  }

  /** A piece that passes the backslash steps as `u` and holds no `&` after them passes the decoding as `u`. */
  lemma DecodePieceNoEntity(t: string, u: string)
    requires ValidSteps(BackslashSteps) && PieceSeparate(t, BackslashSteps) && PieceAfter(t, BackslashSteps) == u
    requires u != [] && '&' !in u
    ensures ValidSteps(DecodeSteps) && PieceSeparate(t, DecodeSteps) && PieceAfter(t, DecodeSteps) == u
  {
    StepsValid();
    PieceUntouched(u, EntitySteps);
    PieceAppend(t, BackslashSteps, EntitySteps);
  }

  /** A piece without `\` that passes the entity steps as `u` passes the decoding as `u`. */
  lemma DecodePieceNoBackslash(t: string, u: string)
    requires ValidSteps(EntitySteps) && t != [] && '\\' !in t
    requires PieceSeparate(t, EntitySteps) && PieceAfter(t, EntitySteps) == u
    ensures ValidSteps(DecodeSteps) && PieceSeparate(t, DecodeSteps) && PieceAfter(t, DecodeSteps) == u
  {
    StepsValid();
    PieceUntouched(t, BackslashSteps);
    PieceAppend(t, BackslashSteps, EntitySteps);
  }

  /** The escape of `&` goes through the decoding as one piece and comes out as `&`. */
  lemma AmpersandPiece()
    ensures ValidSteps(DecodeSteps) && PieceSeparate("&amp;", DecodeSteps)
    ensures PieceAfter("&amp;", DecodeSteps) == "&"
  {
    StepsValid();
    DifferAt("&amp;", "&lt;", 1);
    DifferAt("&amp;", "&gt;", 1);
    DifferAt("&amp;", "&quot;", 1);
    DifferAt("&amp;", "&apos;", 2);
    assert PieceSeparate("&amp;", EntitySteps) && PieceAfter("&amp;", EntitySteps) == "&";
    DecodePieceNoBackslash("&amp;", "&");
  }

  /** The escape of `'` goes through the decoding as one piece and stays as it is. */
  lemma QuotePiece()
    ensures ValidSteps(DecodeSteps) && PieceSeparate("\\'", DecodeSteps)
    ensures PieceAfter("\\'", DecodeSteps) == "\\'"
  {
    StepsValid();
    DifferAt("\\'", "\\n", 1);
    DifferAt("\\'", "\\t", 1);
    DifferAt("\\'", "\\\"", 1);
    DifferAt("\\'", "\\\\", 1);
    assert PieceSeparate("\\'", BackslashSteps) && PieceAfter("\\'", BackslashSteps) == "\\'";
    DecodePieceNoEntity("\\'", "\\'");
  }

  /** The escape of `"` goes through the decoding as one piece and comes out as `"`. */
  lemma DoubleQuotePiece()
    ensures ValidSteps(DecodeSteps) && PieceSeparate("\\\"", DecodeSteps)
    ensures PieceAfter("\\\"", DecodeSteps) == "\""
  {
    StepsValid();
    DifferAt("\\\"", "\\n", 1);
    DifferAt("\\\"", "\\t", 1);
    assert PieceSeparate("\\\"", BackslashSteps) && PieceAfter("\\\"", BackslashSteps) == "\"";
    DecodePieceNoEntity("\\\"", "\"");
  }

  /** Any other character, neither `\` nor `&`, goes through the decoding as itself. */
  lemma PlainCharPiece(c: char)
    requires c != '\\' && c != '&'
    ensures ValidSteps(DecodeSteps) && PieceSeparate([c], DecodeSteps)
    ensures PieceAfter([c], DecodeSteps) == [c]
  {
    StepsValid();
    PieceUntouched([c], BackslashSteps);
    DecodePieceNoEntity([c], [c]);
  }

  /**
   * `&amp;` is undone last and only once: `&amp;` followed by text without
   * `\` or `&` decodes to `&` followed by that text, so `&amp;lt;` gives
   * `&lt;` and not `<`.
   */
  lemma DecodeAmpLast(r: string)
    requires '\\' !in r && '&' !in r
    ensures DecodeXmlEntities(Some("&amp;" + r)) == Some("&" + r)
  {
    AmpersandPiece();
    ReplaceChainPiece("&amp;", r, DecodeSteps);
    ReplaceChainUntouched(r, DecodeSteps);
  }

  /** What `jsonToXML` makes of one character. */
  function EscapedChar(c: char): string
  {
    if c == '\'' then "\\'" else if c == '"' then "\\\"" else if c == '&' then "&amp;" else [c]
  }

  /** The escaping works character by character. */
  lemma {:induction false} EscapeByChar(v: string)
    ensures v != [] ==> Escape(v) == EscapedChar(v[0]) + Escape(v[1..])
    ensures v == [] ==> Escape(v) == []
  {
    StepsValid();
    if v != [] {
      var c := v[0];
      assert v == [c] + v[1..];
      assert PieceSeparate([c], EscapeSteps);
      assert PieceAfter([c], EscapeSteps) == EscapedChar(c);
      ReplaceChainPiece([c], v[1..], EscapeSteps);
    }
  }

  /** What the decoding makes of an escaped character: itself, except that `'` stays `\'`. */
  lemma DecodeEscapedChar(c: char, rest: string)
    requires c != '\\'
    ensures ReplaceChain(EscapedChar(c) + rest, DecodeSteps) ==
              (if c == '\'' then "\\'" else [c]) + ReplaceChain(rest, DecodeSteps)
  {
    if c == '\'' {
      QuotePiece();
    } else if c == '"' {
      DoubleQuotePiece();
    } else if c == '&' {
      AmpersandPiece();
    } else {
      PlainCharPiece(c);
    }
    ReplaceChainPiece(EscapedChar(c), rest, DecodeSteps);
  }

  /**
   * Decoding an escaped value gives the value back, except that every `'`
   * comes back as `\'`, for values without a backslash.
   */
  lemma {:induction false} DecodeEscape(v: string)
    requires '\\' !in v
    ensures ReplaceChain(Escape(v), DecodeSteps) == ReplaceAll(v, "'", "\\'")
  {
    StepsValid();
    EscapeByChar(v);
    if v == [] {
      ReplaceChainUntouched(v, DecodeSteps);
    } else {
      DecodeEscape(v[1..]);
      DecodeEscapedChar(v[0], Escape(v[1..]));
      assert v == [v[0]] + v[1..];
      ReplaceAllConcat1([v[0]], v[1..], "'", "\\'");
    }
  }

  /** decode(escape(v)) == v for every value holding neither `'` nor `\`. */
  lemma EscapeRoundTrip(v: string)
    requires '\'' !in v && '\\' !in v
    ensures DecodeXmlEntities(Some(Escape(v))) == Some(v)
  {
    DecodeEscape(v);
    ReplaceAllSkip(v, "", "'", "\\'");
    assert v + "" == v;
    if v != [] {
      EscapeByChar(v);
      assert Escape(v) != [];
    } else {
      EscapeByChar(v);
    }
  }

  /** An apostrophe does not survive the round trip: it comes back as `\'`. */
  lemma ApostropheComesBackEscaped()
    ensures DecodeXmlEntities(Some(Escape("'"))) == Some("\\'")
  {
    var v := "'";
    DecodeEscape(v);
    EscapeByChar(v);
    EscapeByChar(v[1..]);
    assert Escape(v) == "\\'";
    ReplaceAllFront("", v, "\\'");
    assert v + "" == v;
  }

  /**
   * A backslash does not survive the round trip either: the escaping leaves
   * a literal `\n` alone, and the decoding turns it into a newline.
   */
  lemma BackslashComesBackDecoded()
    ensures DecodeXmlEntities(Some(Escape("\\n"))) == Some("\n")
  {
    var v := "\\n";
    EscapeByChar(v);
    EscapeByChar(v[1..]);
    EscapeByChar(v[2..]);
    assert Escape(v) == v;
    StepsValid();
    assert PieceSeparate(v, BackslashSteps) && PieceAfter(v, BackslashSteps) == "\n";
    DecodePieceNoEntity(v, "\n");
    ReplaceChainPiece(v, "", DecodeSteps);
    ReplaceChainUntouched("", DecodeSteps);
    assert v + "" == v;
    assert ReplaceChain(v, DecodeSteps) == "\n";
    assert DecodeXmlEntities(Some(v)) == Some("\n");
  }

  /** One `<string>` element of the built document: its `name` and its escaped text. */
  datatype OutElement = OutElement(name: string, text: string)

  /**
   * The elements `jsonToXML` hands to the builder, one per entry and in
   * table order; the contract serves the proof of `XmlElementsReadBack`.
   */
  function XmlElements(jsonData: Table<string>): (r: seq<OutElement>)
    ensures |r| == |jsonData|
    ensures forall i :: 0 <= i < |r| ==> r[i] == OutElement(jsonData[i].0, Escape(jsonData[i].1))
  {
    seq(|jsonData|, i requires 0 <= i < |jsonData| => OutElement(jsonData[i].0, Escape(jsonData[i].1)))
  }

  /** `path.join(outputPath, parsed.name + parsed.ext)` */
  function XmlOutputPath(inputPath: Path, outputPath: Path): Path
  {
    Join(outputPath, Stem(BaseName(inputPath)) + Extname(BaseName(inputPath)))
  }

  /** The output file keeps the input's base name and extension, inside the output directory. */
  lemma XmlOutputPathSpec(inputPath: Path, outputPath: Path)
    requires BaseName(inputPath) != ""
    ensures BaseName(XmlOutputPath(inputPath, outputPath)) == BaseName(inputPath)
    ensures DirName(XmlOutputPath(inputPath, outputPath)) == outputPath
  {
    ExtnameShape(BaseName(inputPath));
    JoinInverse(outputPath, BaseName(inputPath));
  }

  /** What `jsonToXML` writes: the elements and the file they go to. */
  datatype XmlOutput = XmlOutput(path: Path, elements: seq<OutElement>)

  /**
   * `jsonToXML(jsonData, inputPath, outputPath, language)`; the language plays
   * no part.  The document goes into the output directory under the input's
   * file name and holds one element per entry, named after it.
   */
  function JsonToXml(jsonData: Table<string>, inputPath: Path, outputPath: Path, language: string): (r: XmlOutput)
    ensures BaseName(inputPath) != "" ==> BaseName(r.path) == BaseName(inputPath) && DirName(r.path) == outputPath
    ensures |r.elements| == |jsonData|
    ensures forall i :: 0 <= i < |jsonData| ==> r.elements[i].name == jsonData[i].0
  {
    var r := XmlOutput(XmlOutputPath(inputPath, outputPath), XmlElements(jsonData));
    if BaseName(inputPath) != "" then XmlOutputPathSpec(inputPath, outputPath); r else r
  }

  /**
   * The `resources.string` field that parsing a built document gives back:
   * an array of elements, each named and holding its text as written.
   */
  function ParsedBack(elements: seq<OutElement>): (r: StringField)
    ensures r.Many? && |r.elements| == |elements|
    ensures forall i :: 0 <= i < |elements| ==>
              ElementKey(r.elements[i]) == Some(elements[i].name) && r.elements[i].text == Some(elements[i].text)
  {
    Many(seq(|elements|, i requires 0 <= i < |elements| => StringElement(Named(elements[i].name), Some(elements[i].text))))
  }

  /** Decoding an escaped value, empty or not, gives it back with every `'` as `\'`. */
  lemma DecodeEscaped(v: string)
    requires '\\' !in v
    ensures DecodeXmlEntities(Some(Escape(v))) == Some(ReplaceAll(v, "'", "\\'"))
  {
    DecodeEscape(v);
    EscapeByChar(v);
    if v != [] {
      assert Escape(v) != [];
    }
  }

  /**
   * Reading back what `jsonToXML` writes: `convertXMLToJson` on the parsed
   * document gives the same names in the same order, with every value back
   * except that each `'` in it reads as `\'`, and unchanged when it holds none.
   */
  lemma XmlElementsReadBack(jsonData: Table<string>)
    requires DistinctKeys(jsonData)
    requires forall i :: 0 <= i < |jsonData| ==> '\\' !in jsonData[i].1
    ensures Convert(ParsedBack(XmlElements(jsonData))).Converted?
    ensures !Convert(ParsedBack(XmlElements(jsonData))).warned
    ensures |Convert(ParsedBack(XmlElements(jsonData))).table| == |jsonData|
    ensures forall i :: 0 <= i < |jsonData| ==>
              Convert(ParsedBack(XmlElements(jsonData))).table[i] == (jsonData[i].0, Some(ReplaceAll(jsonData[i].1, "'", "\\'")))
    ensures forall i :: 0 <= i < |jsonData| && '\'' !in jsonData[i].1 ==>
              Convert(ParsedBack(XmlElements(jsonData))).table[i] == (jsonData[i].0, Some(jsonData[i].1))
  {
    var ms := ParsedBack(XmlElements(jsonData)).elements;
    var entries := ElementEntries(ms);
    forall i | 0 <= i < |jsonData|
      ensures entries[i] == (jsonData[i].0, Some(ReplaceAll(jsonData[i].1, "'", "\\'")))
    {
      DecodeEscaped(jsonData[i].1);
    }
    assert DistinctKeys(entries) by {
      forall i, j | 0 <= i < j < |entries| ensures entries[i].0 != entries[j].0 {
        assert entries[i].0 == jsonData[i].0 && entries[j].0 == jsonData[j].0;
      }
    }
    MergeEmptyDistinct(entries);
    forall i | 0 <= i < |jsonData| && '\'' !in jsonData[i].1
      ensures Some(ReplaceAll(jsonData[i].1, "'", "\\'")) == Some(jsonData[i].1)
    {
      DecodeEscaped(jsonData[i].1);
      EscapeRoundTrip(jsonData[i].1);
    }
  }
}
