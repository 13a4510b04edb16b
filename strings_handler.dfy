/**
 * `src/utils/strings-handler.ts`: the iOS `.strings` codec.  Decoding
 * splits the file into lines, trims them, drops blank and comment lines and
 * assigns the two captures of the line pattern into a plain object;
 * encoding writes one `"key" = "value";` line per entry.  The file reads and
 * writes are left to the caller: decoding starts from the file's text, and
 * encoding returns the text together with the path it is written to.
 */
module StringsHandler {
  import opened Wrappers
  import opened Tables
  import opened JsStrings
  import opened StringsRegex
  import opened Paths
  import opened Constants

  /** The filter of the line pipeline: not blank, and not starting a block or line comment. */
  predicate Kept(line: string)
  {
    line != "" && !StartsWith(line, "/*") && !StartsWith(line, "//")
  }

  /** `lines.map(line => line.trim()).filter(...)` */
  function KeepLines(lines: seq<string>): (r: seq<string>)
    ensures |r| <= |lines|
    ensures forall i :: 0 <= i < |r| ==> Kept(r[i])
  {
    if lines == [] then []
    else
      var n := |lines| - 1;
      KeepLines(lines[..n]) + (if Kept(Trim(lines[n])) then [Trim(lines[n])] else [])
  }

  lemma {:induction false} KeepLinesAppend(a: seq<string>, b: seq<string>)
    ensures KeepLines(a + b) == KeepLines(a) + KeepLines(b)
  {
    if b != [] {
      var n := |b| - 1;
      assert (a + b)[..|a| + n] == a + b[..n];
      KeepLinesAppend(a, b[..n]);
    } else {
      assert a + b == a;
    }
  }

  /**
   * A line that is blank or a comment once trimmed contributes nothing, even
   * when an entry follows the comment marker on the same line; any other
   * line goes through trimmed.
   */
  lemma KeepLinesOne(a: seq<string>, line: string, b: seq<string>)
    ensures KeepLines(a + [line] + b) ==
              KeepLines(a) + (if Kept(Trim(line)) then [Trim(line)] else []) + KeepLines(b)
  {
    KeepLinesAppend(a + [line], b);
    KeepLinesAppend(a, [line]);
    assert [line][..0] == [];
  }

  /** The entry a kept line contributes: the key and value captures, if the pattern matches. */
  function LineEntry(line: string): (r: Option<(string, string)>)
    ensures r.None? <==> forall p: nat, q: nat, v: nat, e: nat :: !IsMatch(line, p, q, v, e)
    ensures r.Some? ==> r.value.0 != ""
    ensures r.Some? ==> forall i :: 0 <= i < |r.value.0| ==> !IsLineTerminator(r.value.0[i])
    ensures r.Some? ==> forall i :: 0 <= i < |r.value.1| ==> !IsLineTerminator(r.value.1[i])
    ensures r.Some? ==> forall i: nat :: !QuoteSemiAt(r.value.1, i)
  {
    MatchSpec(line);
    match Match(line)
    case None => None
    case Some(m) =>
      assert IsMatch(line, m.0, m.1, m.2, m.3);
      var key := line[m.0 + 1..m.1];
      var value := line[m.2..m.3];
      ValueHasNoQuoteSemi(line, m.2, m.3);
      Some((key, value))
  }

  /** The entries of the kept lines, in line order. */
  function Entries(lines: seq<string>): Table<string>
  {
    if lines == [] then []
    else
      var n := |lines| - 1;
      Entries(lines[..n]) + (match LineEntry(lines[n]) case Some(e) => [e] case None => [])
  }

  lemma EntriesSnoc(lines: seq<string>, line: string)
    ensures Entries(lines + [line]) ==
              Entries(lines) + (match LineEntry(line) case Some(e) => [e] case None => [])
  {
    assert (lines + [line])[..|lines|] == lines;
  }

  /** `stringsToJson` on the file's text: the entries assigned one by one into `{}`. */
  function Decode(data: string): Table<string>
  {
    Merge([], Entries(KeepLines(Split(data))))
  }

  /** `stringsToJson(inputPath, destPath)`, from the text `readFileSync` returned. */
  method StringsToJson(data: string) returns (jsonObj: Table<string>)
    ensures jsonObj == Decode(data)
  {
    var lines := KeepLines(Split(data));
    jsonObj := [];
    for i := 0 to |lines|
      invariant jsonObj == Merge([], Entries(lines[..i]))
    {
      assert lines[..i + 1] == lines[..i] + [lines[i]];
      EntriesSnoc(lines[..i], lines[i]);
      var m := LineEntry(lines[i]);
      if m.Some? {
        assert Entries(lines[..i + 1]) == Entries(lines[..i]) + [m.value];
        MergeSnoc([], Entries(lines[..i]), m.value);
        jsonObj := Assign(jsonObj, m.value.0, m.value.1);
      } else {
        assert Entries(lines[..i + 1]) == Entries(lines[..i]) + [];
        assert Entries(lines[..i + 1]) == Entries(lines[..i]);
      }
    }
    assert lines[..|lines|] == lines;
  }

  /** On a repeated key the last line wins. */
  lemma DecodeGet(data: string, k: string)
    ensures Get(Decode(data), k) == GetLast(Entries(KeepLines(Split(data))), k)
  {
    MergeGet([], Entries(KeepLines(Split(data))), k);
  }

  /** Each key appears once, at the position of its first line. */
  lemma DecodeKeys(data: string)
    ensures DistinctKeys(Decode(data))
    ensures Keys(Decode(data)) == FirstOccurrences(Keys(Entries(KeepLines(Split(data)))))
  {
    MergeDistinct([], Entries(KeepLines(Split(data))));
    MergeEmptyKeys(Entries(KeepLines(Split(data))));
  }

  /** The line written for one entry, without its newline. */
  function EntryLine(k: string, v: string): string
  {
    "\"" + k + "\" = \"" + v + "\";"
  }

  /** The text `jsonToStrings` writes: one line per entry, in table order. */
  function Encode(t: Table<string>): string
  {
    if t == [] then ""
    else
      var n := |t| - 1;
      Encode(t[..n]) + EntryLine(t[n].0, t[n].1) + "\n"
  }

  /** The lines of `Encode(t)`, one per entry. */
  function EncodedLines(t: Table<string>): (r: seq<string>)
    ensures |r| == |t|
    ensures forall i :: 0 <= i < |t| ==> r[i] == EntryLine(t[i].0, t[i].1)
  {
    if t == [] then []
    else
      var n := |t| - 1;
      EncodedLines(t[..n]) + [EntryLine(t[n].0, t[n].1)]
  }

  predicate NoNewlines(t: Table<string>)
  {
    forall i :: 0 <= i < |t| ==> '\n' !in t[i].0 && '\n' !in t[i].1
  }

  lemma {:induction false} SplitEncodeThen(t: Table<string>, x: string)
    requires NoNewlines(t) && '\n' !in x
    ensures Split(Encode(t) + x) == EncodedLines(t) + [x]
  {
    if t == [] {
      SplitNoNewline(x);
      assert Encode(t) + x == x;
    } else {
      var n := |t| - 1;
      var line := EntryLine(t[n].0, t[n].1);
      assert '\n' !in line;
      assert Encode(t) + x == (Encode(t[..n]) + line) + "\n" + x;
      SplitJoin(Encode(t[..n]) + line, x);
      SplitEncodeThen(t[..n], line);
      SplitNoNewline(x);
    }
  }

  /** Encoding emits exactly one line per entry, in table order, then ends with a newline. */
  lemma EncodeLines(t: Table<string>)
    requires NoNewlines(t)
    ensures Split(Encode(t)) == EncodedLines(t) + [""]
  {
    SplitEncodeThen(t, "");
    assert Encode(t) + "" == Encode(t);
  }

  /** `jsonToStrings`'s loop over `Object.entries(jsonData)`. */
  method EncodeEntries(t: Table<string>) returns (stringsContent: string)
    ensures stringsContent == Encode(t)
  {
    stringsContent := "";
    for i := 0 to |t|
      invariant stringsContent == Encode(t[..i])
    {
      assert t[..i + 1][..i] == t[..i];
      stringsContent := stringsContent + EntryLine(t[i].0, t[i].1) + "\n";
    }
    assert t[..|t|] == t;
  }

  /** Where `jsonToStrings` writes: the input's base name without `.json`, in the output directory. */
  function StringsOutputPath(inputPath: Path, outputPath: Path): Path
  {
    Join(outputPath, BaseNameWithout(inputPath, Extension(Portal)))
  }

  /** The output lands in the output directory under the input's name with `.json` dropped. */
  lemma StringsOutputPathSpec(inputPath: Path, outputPath: Path)
    requires PathString(inputPath) != ".json" && BaseName(inputPath) != ""
    ensures DirName(StringsOutputPath(inputPath, outputPath)) == outputPath
    ensures var name := BaseName(StringsOutputPath(inputPath, outputPath));
            if EndsWith(BaseName(inputPath), ".json") && |BaseName(inputPath)| > 5
            then name + ".json" == BaseName(inputPath)
            else name == BaseName(inputPath)
  {
    BaseNameWithoutRestores(inputPath, ".json");
    JoinInverse(outputPath, BaseNameWithout(inputPath, ".json"));
  }

  /** A file `jsonToStrings` produces. */
  datatype Written = Written(path: Path, content: string)

  /**
   * `jsonToStrings(inputPath, outputPath, jsonData)`.  `jsonData` is `None`
   * when it is falsy; the table is then `stored`, what `JSON.parse` makes of
   * the input file.
   */
  method JsonToStrings(inputPath: Path, outputPath: Path, jsonData: Option<Table<string>>, stored: Table<string>)
    returns (w: Written)
    ensures w.path == StringsOutputPath(inputPath, outputPath)
    ensures w.content == Encode(if jsonData.Some? then jsonData.value else stored)
  {
    var table := if jsonData.Some? then jsonData.value else stored;
    var stringsContent := EncodeEntries(table);
    w := Written(StringsOutputPath(inputPath, outputPath), stringsContent);
  }

  /** Where the parts of `EntryLine(k, v)` sit. */
  ghost predicate Layout(l: string, k: string, v: string)
  {
    var K := |k| + 1;
    var E := K + 5 + |v|;
    |l| == E + 2 &&
    l[0] == '"' && l[K] == '"' && l[K + 1] == ' ' && l[K + 2] == '=' && l[K + 3] == ' ' &&
    l[K + 4] == '"' && l[E] == '"' && l[E + 1] == ';' &&
    l[1..K] == k && l[K + 5..E] == v
  }

  lemma EntryLineLayout(k: string, v: string)
    ensures Layout(EntryLine(k, v), k, v)
  {
    var l := EntryLine(k, v);
    var K := |k| + 1;
    assert l == "\"" + k + "\" = \"" + v + "\";";
    assert l[1..K] == k;
    assert l[K + 5..K + 5 + |v|] == v;
  }

  /** Characters a key or value the format can carry. */
  predicate PlainText(s: string)
  {
    forall c :: c in s ==> c != '"' && !IsLineTerminator(c)
  }

  /** The only quotes of an encoded line are the four it was written with. */
  lemma LayoutQuotes(l: string, k: string, v: string, i: nat)
    requires Layout(l, k, v) && PlainText(k) && PlainText(v) && i < |l|
    ensures l[i] == '"' ==> i == 0 || i == |k| + 1 || i == |k| + 5 || i == |k| + 6 + |v|
  {
    var K := |k| + 1;
    var E := K + 5 + |v|;
    if 1 <= i < K {
      assert l[i] == l[1..K][i - 1] == k[i - 1];
      assert k[i - 1] in k;
    } else if K + 5 <= i < E {
      assert l[i] == l[K + 5..E][i - K - 5] == v[i - K - 5];
      assert v[i - K - 5] in v;
    }
  }

  /** No match of an encoded line has its key end at the value's opening or closing quote. */
  lemma LayoutNoLaterKeyEnd(l: string, k: string, v: string, q: nat, v': nat, e': nat)
    requires Layout(l, k, v) && PlainText(k) && PlainText(v)
    ensures q == |k| + 5 || q == |k| + 6 + |v| ==> !IsMatch(l, 0, q, v', e')
  {
    if q == |k| + 5 && Separator(l, q, v') {
      LayoutQuotes(l, k, v, v' - 1);
      assert v' == |k| + 7 + |v|;
    }
  }

  lemma LayoutIsMatch(l: string, k: string, v: string)
    requires Layout(l, k, v) && PlainText(k) && PlainText(v) && k != ""
    ensures IsMatch(l, 0, |k| + 1, |k| + 6, |k| + 6 + |v|)
  {
    var K := |k| + 1;
    var V := K + 5;
    var E := V + |v|;
    forall i | 1 <= i < K ensures !IsLineTerminator(l[i]) {
      assert l[i] == l[1..K][i - 1] == k[i - 1];
      assert k[i - 1] in k;
    }
    forall i | V <= i < E ensures !IsLineTerminator(l[i]) && l[i] != '"' {
      assert l[i] == l[V..E][i - V] == v[i - V];
      assert v[i - V] in v;
    }
    assert AllWhiteSpace(l, K + 1, K + 2) && AllWhiteSpace(l, K + 3, K + 4);
    assert Separator(l, K, V);
    assert ValueSpan(l, V, E);
  }

  /** On a line laid out as `EntryLine(k, v)`, the pattern finds the key and the value written there. */
  lemma LayoutMatch(l: string, k: string, v: string)
    requires Layout(l, k, v) && PlainText(k) && PlainText(v) && k != ""
    ensures Match(l) == Some((0, |k| + 1, |k| + 6, |k| + 6 + |v|))
  {
    var K := |k| + 1;
    var V := K + 5;
    var E := V + |v|;
    LayoutIsMatch(l, k, v);
    MatchSpec(l);
    var m := Match(l).value;
    assert IsMatch(l, m.0, m.1, m.2, m.3);
    assert m.0 == 0 && K <= m.1;
    LayoutQuotes(l, k, v, m.1);
    LayoutNoLaterKeyEnd(l, k, v, m.1, m.2, m.3);
    assert m.1 == K;
    MatchDetermined(l, 0, K, V, E, m.2, m.3);
  }

  /** The pattern reads an encoded line back as the entry it came from. */
  lemma EntryLineRoundTrip(k: string, v: string)
    requires k != "" && PlainText(k) && PlainText(v)
    ensures LineEntry(EntryLine(k, v)) == Some((k, v))
  {
    EntryLineLayout(k, v);
    LayoutMatch(EntryLine(k, v), k, v);
  }

  /** Keys and values the format can carry: no `"`, no line terminator, and a non-empty key. */
  predicate Plain(t: Table<string>)
  {
    forall i :: 0 <= i < |t| ==> t[i].0 != "" && PlainText(t[i].0) && PlainText(t[i].1)
  }

  /** An encoded line is kept as it is by the line filter. */
  lemma EntryLineKept(k: string, v: string)
    ensures KeepLines([EntryLine(k, v)]) == [EntryLine(k, v)]
  {
    var line := EntryLine(k, v);
    EntryLineLayout(k, v);
    TrimKeeps(line);
    assert Kept(line);
    assert [line][..0] == [];
  }

  /** The line filter keeps every encoded line as it is. */
  lemma {:induction false} KeepEncodedLines(t: Table<string>)
    ensures KeepLines(EncodedLines(t)) == EncodedLines(t)
  {
    if t != [] {
      var n := |t| - 1;
      var line := EntryLine(t[n].0, t[n].1);
      var prefix := EncodedLines(t[..n]);
      assert EncodedLines(t) == prefix + [line];
      KeepEncodedLines(t[..n]);
      KeepLinesAppend(prefix, [line]);
      EntryLineKept(t[n].0, t[n].1);
    }
  }

  /** Lines that each read back as one entry give those entries, in order. */
  lemma {:induction false} EntriesOfLines(lines: seq<string>, t: Table<string>)
    requires |lines| == |t|
    requires forall i :: 0 <= i < |t| ==> LineEntry(lines[i]) == Some(t[i])
    ensures Entries(lines) == t
  {
    if t != [] {
      var n := |t| - 1;
      assert lines[..n] + [lines[n]] == lines;
      EntriesOfLines(lines[..n], t[..n]);
      EntriesSnoc(lines[..n], lines[n]);
      assert t[..n] + [t[n]] == t;
    }
  }

  /** Decoding the entries of encoded lines gives back the table. */
  lemma EntriesOfEncodedLines(t: Table<string>)
    requires Plain(t)
    ensures Entries(EncodedLines(t)) == t
  {
    var lines := EncodedLines(t);
    forall i | 0 <= i < |t| ensures LineEntry(lines[i]) == Some(t[i]) {
      EntryLineRoundTrip(t[i].0, t[i].1);
    }
    EntriesOfLines(lines, t);
  }

  /**
   * Round trip: decoding the encoding of a table gives the table back, when
   * keys do not repeat, are non-empty, and neither keys nor values hold a
   * `"` or a line terminator.
   */
  lemma DecodeEncode(t: Table<string>)
    requires DistinctKeys(t) && Plain(t)
    ensures Decode(Encode(t)) == t
  {
    var lines := EncodedLines(t);
    assert NoNewlines(t);
    EncodeLines(t);
    KeepEncodedLines(t);
    EntriesOfEncodedLines(t);
    KeepLinesAppend(lines, [""]);
    assert KeepLines([""]) == [];
    assert KeepLines(Split(Encode(t))) == lines;
    MergeEmptyDistinct(t);
  }
}
