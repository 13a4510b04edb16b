/**
 * The part of Node's POSIX `path` module the converters use: `basename`
 * (with and without a suffix), `dirname`, `extname`, the `name` of
 * `path.parse`, `join` of a directory and one name, and the parent directory
 * that `path.resolve(dir, "..")` yields.  A path is kept already split at
 * its separators.
 */
module Paths {
  import opened Wrappers

  /** A path: whether it starts at the root, and its segments (non-empty, without `/`). */
  datatype Path = Path(absolute: bool, segments: seq<string>)

  /** The path written out with `/` separators. */
  function PathString(p: Path): string
  {
    (if p.absolute then "/" else "") + JoinSegments(p.segments)
  }

  function JoinSegments(segs: seq<string>): string
  {
    if segs == [] then ""
    else if |segs| == 1 then segs[0]
    else segs[0] + "/" + JoinSegments(segs[1..])
  }

  /** `path.basename(p)`: the last segment, `""` for the root, `"."` for the empty relative path. */
  function BaseName(p: Path): string
  {
    if p.segments != [] then p.segments[|p.segments| - 1]
    else if p.absolute then ""
    else "."
  }

  /** `path.dirname(p)`, and also `path.resolve(p, "..")` for an absolute `p`. */
  function DirName(p: Path): Path
  {
    if p.segments == [] then p else Path(p.absolute, p.segments[..|p.segments| - 1])
  }

  /** `path.join(dir, name)` for a single name; an empty name leaves the directory as it is. */
  function Join(dir: Path, name: string): Path
  {
    if name == "" then dir else Path(dir.absolute, dir.segments + [name])
  }

  /** A name joined onto a directory is the base name of the result, and the directory its dirname. */
  lemma JoinInverse(dir: Path, name: string)
    requires name != ""
    ensures BaseName(Join(dir, name)) == name
    ensures DirName(Join(dir, name)) == dir
  {
    assert (dir.segments + [name])[..|dir.segments|] == dir.segments;
  }

  /** The index of the last `.` in a name. */
  function LastDot(b: string): (r: Option<nat>)
    ensures r.None? ==> forall i :: 0 <= i < |b| ==> b[i] != '.'
    ensures r.Some? ==> r.value < |b| && b[r.value] == '.'
    ensures r.Some? ==> forall i :: r.value < i < |b| ==> b[i] != '.'
  {
    if b == [] then None
    else if b[|b| - 1] == '.' then Some(|b| - 1)
    else LastDot(b[..|b| - 1])
  }

  /**
   * `path.extname` of a base name: from the last `.` to the end, or `""`
   * when there is no dot, when the only candidate dot starts the name
   * (`.json`), or for `..`.
   */
  function Extname(b: string): string
  {
    match LastDot(b)
    case None => ""
    case Some(d) => if d == 0 || b == ".." then "" else b[d..]
  }

  /** `path.parse(p).name`: the base name without its extension. */
  function Stem(b: string): string
  {
    b[..|b| - |Extname(b)|]
  }

  /**
   * An extension is empty or a `.` followed by dot-free text, it ends the
   * name, and the stem put back in front of it gives the name again.
   */
  lemma ExtnameShape(b: string)
    ensures |Extname(b)| <= |b| && Stem(b) + Extname(b) == b
    ensures Extname(b) != "" ==> Extname(b)[0] == '.' && forall i :: 1 <= i < |Extname(b)| ==> Extname(b)[i] != '.'
    ensures Extname(b) != "" ==> Stem(b) != ""
    ensures (forall i :: 0 <= i < |b| ==> b[i] != '.') ==> Extname(b) == ""
  {
    match LastDot(b)
    case None =>
    case Some(d) =>
      if d != 0 && b != ".." {
        assert Extname(b) == b[d..];
        assert b[..d] + b[d..] == b;
      }
  }

  predicate EndsWith(s: string, suffix: string)
  {
    |suffix| <= |s| && s[|s| - |suffix|..] == suffix
  }

  /**
   * `path.basename(p, suffix)`: the base name with the suffix removed when it
   * ends with it and is longer than it; `""` when the whole path is the
   * suffix.
   */
  function BaseNameWithout(p: Path, suffix: string): string
  {
    var b := BaseName(p);
    if suffix != "" && PathString(p) == suffix then ""
    else if EndsWith(b, suffix) && |b| > |suffix| then b[..|b| - |suffix|]
    else b
  }

  /** Putting the suffix back gives the base name whenever it was removed. */
  lemma BaseNameWithoutRestores(p: Path, suffix: string)
    requires PathString(p) != suffix
    ensures EndsWith(BaseName(p), suffix) && |BaseName(p)| > |suffix| ==>
              BaseNameWithout(p, suffix) + suffix == BaseName(p)
    ensures !(EndsWith(BaseName(p), suffix) && |BaseName(p)| > |suffix|) ==>
              BaseNameWithout(p, suffix) == BaseName(p)
    ensures |BaseNameWithout(p, suffix)| > 0 || BaseName(p) == ""
  {
    var b := BaseName(p);
    if EndsWith(b, suffix) && |b| > |suffix| {
      assert b[..|b| - |suffix|] + b[|b| - |suffix|..] == b;
    }
  }

  /** The last dot of `x.y`, when `y` has none, is the one put between them. */
  lemma {:induction false} LastDotAfter(x: string, y: string)
    requires '.' !in y
    ensures LastDot(x + "." + y) == Some(|x|)
    decreases |y|
  {
    var b := x + "." + y;
    if y != [] {
      assert b[|b| - 1] == y[|y| - 1];
      assert b[..|b| - 1] == x + "." + y[..|y| - 1];
      LastDotAfter(x, y[..|y| - 1]);
    }
  }

  /** A non-empty name followed by `.` and dot-free text has that text as its extension. */
  lemma ExtnameAfter(x: string, y: string)
    requires x != "" && y != "" && '.' !in y
    ensures Extname(x + "." + y) == "." + y
    ensures Stem(x + "." + y) == x
  {
    LastDotAfter(x, y);
    assert (x + "." + y)[|x|..] == "." + y;
  }
}
