/**
 * The JavaScript string built-ins the converters rely on: `trim`, `split`,
 * `startsWith`, global `replace`, `toLowerCase` (on ASCII letters) and the
 * search a regular expression made of literal alternatives performs.
 */
module JsStrings {
  import opened Wrappers

  /** Characters the regular-expression `.` does not match. */
  predicate IsLineTerminator(c: char)
  {
    c == '\n' || c == '\r' || c == '\U{2028}' || c == '\U{2029}'
  }

  /** The class `\s`, which is also what `trim()` removes. */
  predicate IsWhiteSpace(c: char)
  {
    || IsLineTerminator(c)
    || c == '\t' || c == '\U{000B}' || c == '\U{000C}' || c == ' '
    || c == '\U{00A0}' || c == '\U{1680}' || ('\U{2000}' <= c <= '\U{200A}')
    || c == '\U{202F}' || c == '\U{205F}' || c == '\U{3000}' || c == '\U{FEFF}'
  }

  function TrimStart(s: string): string
  {
    if s != [] && IsWhiteSpace(s[0]) then TrimStart(s[1..]) else s
  }

  function TrimEnd(s: string): string
  {
    if s != [] && IsWhiteSpace(s[|s| - 1]) then TrimEnd(s[..|s| - 1]) else s
  }

  /** `s.trim()` */
  function Trim(s: string): string
  {
    TrimEnd(TrimStart(s))
  }

  /** A string that neither starts nor ends with white space is its own trim. */
  lemma TrimKeeps(s: string)
    requires s != [] ==> !IsWhiteSpace(s[0]) && !IsWhiteSpace(s[|s| - 1])
    ensures Trim(s) == s
  {
  }

  /** `s.startsWith(prefix)` */
  predicate StartsWith(s: string, prefix: string)
  {
    |prefix| <= |s| && s[..|prefix|] == prefix
  }

  /** `s.split("\n")` */
  function Split(s: string): (parts: seq<string>)
    ensures |parts| >= 1
  {
    if s == [] then [""]
    else if s[0] == '\n' then [""] + Split(s[1..])
    else
      var rest := Split(s[1..]);
      [[s[0]] + rest[0]] + rest[1..]
  }

  /** A string without a newline is one piece. */
  lemma {:induction false} SplitNoNewline(a: string)
    requires '\n' !in a
    ensures Split(a) == [a]
  {
    if a != [] {
      SplitNoNewline(a[1..]);
      assert [a[0]] + a[1..] == a;
    }
  }

  /** Splitting at the first newline: the piece before it, then the pieces of the rest. */
  lemma {:induction false} SplitAtNewline(a: string, b: string)
    requires '\n' !in a
    ensures Split(a + "\n" + b) == [a] + Split(b)
  {
    if a == [] {
      assert a + "\n" + b == "\n" + b;
      assert ("\n" + b)[1..] == b;
    } else {
      var s := a + "\n" + b;
      assert s[1..] == a[1..] + "\n" + b;
      SplitAtNewline(a[1..], b);
      assert [a[0]] + a[1..] == a;
    }
  }

  /** Splitting at any one newline: the pieces before it, then the pieces after it. */
  lemma {:induction false} SplitJoin(a: string, b: string)
    ensures Split(a + "\n" + b) == Split(a) + Split(b)
  {
    if a == [] {
      assert a + "\n" + b == "\n" + b;
      assert ("\n" + b)[1..] == b;
    } else {
      var s := a + "\n" + b;
      assert s[0] == a[0];
      assert s[1..] == a[1..] + "\n" + b;
      SplitJoin(a[1..], b);
    }
  }

  /** `s.replace(/pat/g, rep)` for a literal pattern: left to right, without overlaps. */
  function ReplaceAll(s: string, pat: string, rep: string): string
    requires pat != []
    decreases |s|
  {
    if |s| < |pat| then s
    else if s[..|pat|] == pat then rep + ReplaceAll(s[|pat|..], pat, rep)
    else [s[0]] + ReplaceAll(s[1..], pat, rep)
  }

  /** The pattern occurs in `s` starting at index `i`. */
  predicate OccursAt(s: string, i: nat, pat: string)
  {
    i + |pat| <= |s| && s[i..i + |pat|] == pat
  }

  /** A string in which the pattern never starts is left alone. */
  lemma {:induction false} ReplaceAllAbsent(s: string, pat: string, rep: string)
    requires pat != []
    requires forall i: nat :: !OccursAt(s, i, pat)
    ensures ReplaceAll(s, pat, rep) == s
  {
    if |s| >= |pat| {
      assert !OccursAt(s, 0, pat);
      assert s[..|pat|] != pat;
      forall i: nat ensures !OccursAt(s[1..], i, pat) {
        if i + |pat| <= |s[1..]| {
          assert s[1..][i..i + |pat|] == s[i + 1..i + 1 + |pat|];
          assert !OccursAt(s, i + 1, pat);
        }
      }
      ReplaceAllAbsent(s[1..], pat, rep);
      assert ReplaceAll(s, pat, rep) == [s[0]] + s[1..];
    }
  }

  /** A prefix without the pattern's first character is copied unchanged. */
  lemma {:induction false} ReplaceAllSkip(x: string, y: string, pat: string, rep: string)
    requires pat != [] && pat[0] !in x
    ensures ReplaceAll(x + y, pat, rep) == x + ReplaceAll(y, pat, rep)
  {
    if x != [] {
      var s := x + y;
      assert s[1..] == x[1..] + y;
      ReplaceAllSkip(x[1..], y, pat, rep);
      if |s| < |pat| {
        assert ReplaceAll(y, pat, rep) == y;
        assert ReplaceAll(s, pat, rep) == s;
      } else {
        assert s[..|pat|][0] == x[0];
        assert s[..|pat|] != pat;
        assert ReplaceAll(s, pat, rep) == [x[0]] + ReplaceAll(s[1..], pat, rep);
      }
      assert [x[0]] + x[1..] == x;
    } else {
      assert x + y == y;
    }
  }

  /** An occurrence at the front is replaced and the scan resumes after it. */
  lemma ReplaceAllFront(y: string, pat: string, rep: string)
    requires pat != []
    ensures ReplaceAll(pat + y, pat, rep) == rep + ReplaceAll(y, pat, rep)
  {
    assert (pat + y)[..|pat|] == pat;
    assert (pat + y)[|pat|..] == y;
  }

  /** Where the pattern does not start, the first character is copied. */
  lemma ReplaceAllStep(s: string, pat: string, rep: string)
    requires pat != [] && s != [] && !OccursAt(s, 0, pat)
    ensures ReplaceAll(s, pat, rep) == [s[0]] + ReplaceAll(s[1..], pat, rep)
  {
    if |s| < |pat| {
      assert ReplaceAll(s[1..], pat, rep) == s[1..];
      assert [s[0]] + s[1..] == s;
    } else {
      assert s[..|pat|] == s[0..0 + |pat|];
    }
  }

  /** A piece neither a prefix of the pattern nor starting with it: the pattern does not start at the front. */
  lemma IncomparableFront(t: string, r: string, pat: string)
    requires t != [] && !(t <= pat) && !(pat <= t)
    ensures !OccursAt(t + r, 0, pat)
  {
    var s := t + r;
    if |pat| <= |s| {
      if |t| >= |pat| {
        assert s[..|pat|] == t[..|pat|];
      } else {
        assert s[..|pat|][..|t|] == t;
        assert pat[..|t|] != t;
      }
    }
  }

  /**
   * A piece that the pattern can only match as a whole, or not at all: it
   * is either replaced whole or copied, and the scan goes on after it.
   */
  lemma ReplaceAllPiece(t: string, r: string, pat: string, rep: string)
    requires pat != [] && t != [] && pat[0] !in t[1..]
    requires t == pat || pat[0] != t[0] || (!(t <= pat) && !(pat <= t))
    ensures ReplaceAll(t + r, pat, rep) == (if t == pat then rep else t) + ReplaceAll(r, pat, rep)
  {
    if t == pat {
      ReplaceAllFront(r, pat, rep);
    } else if pat[0] != t[0] {
      assert pat[0] !in t by {
        assert forall c :: c in t ==> c == t[0] || c in t[1..];
      }
      ReplaceAllSkip(t, r, pat, rep);
    } else {
      IncomparableFront(t, r, pat);
      ReplaceAllCopied(t, r, pat, rep);
    }
  }

  /** A piece the pattern does not start at, holding no other start of it, is copied. */
  lemma ReplaceAllCopied(t: string, r: string, pat: string, rep: string)
    requires pat != [] && t != [] && pat[0] !in t[1..] && !OccursAt(t + r, 0, pat)
    ensures ReplaceAll(t + r, pat, rep) == t + ReplaceAll(r, pat, rep)
  {
    var u := t + r;
    var x := ReplaceAll(r, pat, rep);
    var t1 := t[1..];
    calc {
      ReplaceAll(u, pat, rep);
      { ReplaceAllStep(u, pat, rep); assert u[0] == t[0]; }
      [t[0]] + ReplaceAll(u[1..], pat, rep);
      { assert u[1..] == t1 + r; }
      [t[0]] + ReplaceAll(t1 + r, pat, rep);
      { ReplaceAllSkip(t1, r, pat, rep); }
      [t[0]] + (t1 + x);
      ([t[0]] + t1) + x;
      { assert [t[0]] + t1 == t; }
      t + x;
    }
  }

  /** With a one-character pattern, replacing is done character by character. */
  lemma {:induction false} ReplaceAllConcat1(x: string, y: string, pat: string, rep: string)
    requires |pat| == 1
    ensures ReplaceAll(x + y, pat, rep) == ReplaceAll(x, pat, rep) + ReplaceAll(y, pat, rep)
  {
    if x != [] {
      var s := x + y;
      assert s[1..] == x[1..] + y;
      assert s[..1] == x[..1];
      assert s[1..] == s[|pat|..] && x[1..] == x[|pat|..];
      ReplaceAllConcat1(x[1..], y, pat, rep);
      if x[..1] == pat {
        assert ReplaceAll(x, pat, rep) == rep + ReplaceAll(x[1..], pat, rep);
        assert ReplaceAll(s, pat, rep) == rep + ReplaceAll(s[1..], pat, rep);
      } else {
        assert ReplaceAll(x, pat, rep) == [x[0]] + ReplaceAll(x[1..], pat, rep);
        assert ReplaceAll(s, pat, rep) == [x[0]] + ReplaceAll(s[1..], pat, rep);
      }
    } else {
      assert x + y == y;
    }
  }

  /** `toLowerCase()` on ASCII letters. */
  function ToLowerAscii(s: string): (r: string)
    ensures |r| == |s|
  {
    if s == [] then []
    else [LowerAsciiChar(s[0])] + ToLowerAscii(s[1..])
  }

  function LowerAsciiChar(c: char): char
  {
    if 'A' <= c <= 'Z' then (c as int + 32) as char else c
  }

  /** Lowering works character by character. */
  lemma {:induction false} ToLowerAsciiAt(s: string)
    ensures forall i :: 0 <= i < |s| ==> ToLowerAscii(s)[i] == LowerAsciiChar(s[i])
  {
    if s != [] {
      ToLowerAsciiAt(s[1..]);
    }
  }

  // A regular expression `(p0|p1|...)` whose alternatives are literal text in
  // which `.` stands for any character but a line terminator.

  predicate CharMatches(p: char, c: char)
  {
    if p == '.' then !IsLineTerminator(c) else p == c
  }

  predicate PatternAt(s: string, i: nat, pat: string)
  {
    i + |pat| <= |s| && forall m :: 0 <= m < |pat| ==> CharMatches(pat[m], s[i + m])
  }

  /** The first alternative, in the order written, that matches at `i`. */
  function AltAt(s: string, i: nat, pats: seq<string>, a: nat): (r: Option<nat>)
    requires a <= |pats|
    ensures r.Some? ==> a <= r.value < |pats| && PatternAt(s, i, pats[r.value])
    ensures r.Some? ==> forall b :: a <= b < r.value ==> !PatternAt(s, i, pats[b])
    ensures r.None? ==> forall b :: a <= b < |pats| ==> !PatternAt(s, i, pats[b])
    decreases |pats| - a
  {
    if a == |pats| then None
    else if PatternAt(s, i, pats[a]) then Some(a)
    else AltAt(s, i, pats, a + 1)
  }

  /**
   * `s.match(/(p0|p1|...)/)`: the leftmost position at which some
   * alternative matches, with the first such alternative; `None` when there
   * is no match anywhere.
   */
  function SearchFrom(s: string, i: nat, pats: seq<string>): (r: Option<(nat, nat)>)
    requires i <= |s| + 1
    ensures r.Some? ==> i <= r.value.0 && r.value.1 < |pats| && PatternAt(s, r.value.0, pats[r.value.1])
    ensures r.Some? ==> forall j, b :: i <= j < r.value.0 && 0 <= b < |pats| ==> !PatternAt(s, j, pats[b])
    ensures r.Some? ==> forall b :: 0 <= b < r.value.1 ==> !PatternAt(s, r.value.0, pats[b])
    ensures r.None? ==> forall j, b :: i <= j && 0 <= b < |pats| ==> !PatternAt(s, j, pats[b])
    decreases |s| + 1 - i
  {
    if i > |s| then None
    else match AltAt(s, i, pats, 0)
      case Some(a) => Some((i, a))
      case None => SearchFrom(s, i + 1, pats)
  }

  /** The text the search matched, `match?.[0]`. */
  function MatchedText(s: string, pats: seq<string>): (r: Option<string>)
    ensures r.None? <==> forall j, b :: 0 <= b < |pats| ==> !PatternAt(s, j, pats[b])
  {
    match SearchFrom(s, 0, pats)
    case None => None
    case Some(hit) => Some(s[hit.0..hit.0 + |pats[hit.1]|])
  }

  /** Every pattern of a chain of replacements is non-empty. */
  predicate ValidSteps(steps: seq<(string, string)>)
  {
    forall i :: 0 <= i < |steps| ==> steps[i].0 != []
  }

  /** `s.replace(p0, r0).replace(p1, r1)...`, each with the global flag. */
  function ReplaceChain(s: string, steps: seq<(string, string)>): string
    requires ValidSteps(steps)
    decreases |steps|
  {
    if steps == [] then s else ReplaceChain(ReplaceAll(s, steps[0].0, steps[0].1), steps[1..])
  }

  /** A chain leaves alone a string holding none of its patterns' first characters. */
  lemma {:induction false} ReplaceChainUntouched(s: string, steps: seq<(string, string)>)
    requires ValidSteps(steps)
    requires forall i :: 0 <= i < |steps| ==> steps[i].0[0] !in s
    ensures ReplaceChain(s, steps) == s
  {
    if steps != [] {
      ReplaceAllSkip(s, "", steps[0].0, steps[0].1);
      assert s + "" == s;
      assert ReplaceAll("", steps[0].0, steps[0].1) == "";
      ReplaceChainUntouched(s, steps[1..]);
    }
  }

  /** What a piece becomes through a chain, each step replacing it whole or leaving it. */
  function PieceAfter(t: string, steps: seq<(string, string)>): string
    decreases |steps|
  {
    if steps == [] then t
    else PieceAfter(if t == steps[0].0 then steps[0].1 else t, steps[1..])
  }

  /** At every step the piece is matched whole or not at all. */
  predicate PieceSeparate(t: string, steps: seq<(string, string)>)
    requires ValidSteps(steps)
    decreases |steps|
  {
    steps == [] ||
    (var pat := steps[0].0;
     t != [] && pat[0] !in t[1..] &&
     (t == pat || pat[0] != t[0] || (!(t <= pat) && !(pat <= t))) &&
     PieceSeparate(if t == pat then steps[0].1 else t, steps[1..]))
  }

  /** Two strings that differ at some index are not prefixes of each other. */
  lemma DifferAt(t: string, pat: string, j: nat)
    requires j < |t| && j < |pat| && t[j] != pat[j]
    ensures !(t <= pat) && !(pat <= t)
  {
  }

  /** A piece holding none of the patterns' first characters passes every step unchanged. */
  lemma {:induction false} PieceUntouched(t: string, steps: seq<(string, string)>)
    requires ValidSteps(steps) && t != []
    requires forall i :: 0 <= i < |steps| ==> steps[i].0[0] !in t
    ensures PieceSeparate(t, steps) && PieceAfter(t, steps) == t
    decreases |steps|
  {
    if steps != [] {
      var pat := steps[0].0;
      assert pat[0] != t[0] && pat[0] !in t[1..] && t != pat;
      PieceUntouched(t, steps[1..]);
    }
  }

  /** A piece goes through two chains one after the other as through their concatenation. */
  lemma {:induction false} PieceAppend(t: string, a: seq<(string, string)>, b: seq<(string, string)>)
    requires ValidSteps(a) && ValidSteps(b)
    ensures ValidSteps(a + b)
    ensures PieceSeparate(t, a + b) <==> PieceSeparate(t, a) && PieceSeparate(PieceAfter(t, a), b)
    ensures PieceAfter(t, a + b) == PieceAfter(PieceAfter(t, a), b)
    decreases |a|
  {
    if a == [] {
      assert a + b == b;
    } else {
      assert (a + b)[0] == a[0] && (a + b)[1..] == a[1..] + b;
      PieceAppend(if t == a[0].0 then a[0].1 else t, a[1..], b);
    }
  }

  /** A chain over a piece followed by more text works on the piece and on the rest apart. */
  lemma {:induction false} ReplaceChainPiece(t: string, r: string, steps: seq<(string, string)>)
    requires ValidSteps(steps) && PieceSeparate(t, steps)
    ensures ReplaceChain(t + r, steps) == PieceAfter(t, steps) + ReplaceChain(r, steps)
    decreases |steps|
  {
    if steps != [] {
      var pat := steps[0].0;
      var rep := steps[0].1;
      ReplaceAllPiece(t, r, pat, rep);
      ReplaceChainPiece(if t == pat then rep else t, ReplaceAll(r, pat, rep), steps[1..]);
    }
  }

  /** A chain of one-character patterns works on a concatenation part by part. */
  lemma {:induction false} ReplaceChainConcat1(x: string, y: string, steps: seq<(string, string)>)
    requires ValidSteps(steps) && forall i :: 0 <= i < |steps| ==> |steps[i].0| == 1
    ensures ReplaceChain(x + y, steps) == ReplaceChain(x, steps) + ReplaceChain(y, steps)
    decreases |steps|
  {
    if steps != [] {
      ReplaceAllConcat1(x, y, steps[0].0, steps[0].1);
      ReplaceChainConcat1(ReplaceAll(x, steps[0].0, steps[0].1), ReplaceAll(y, steps[0].0, steps[0].1), steps[1..]);
    }
  }
}
