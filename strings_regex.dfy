/**
 * The line pattern of the iOS `.strings` decoder, `"(.+)"\s*=\s*"(.*?)";`,
 * as `String.prototype.match` applies it: the leftmost opening quote that
 * starts a match, then the longest key (the greedy `.+` tries the furthest
 * closing quote first), then the shortest value (the lazy `.*?` stops at
 * the first `";`).  `.` matches anything but a line terminator.
 *
 * `IsMatch` states what a match is; `Match` computes the one JavaScript
 * picks, and `MatchSpec` ties the two together.
 */
module StringsRegex {
  import opened Wrappers
  import opened JsStrings

  predicate NoLineTerminator(l: string, a: nat, b: nat)
    requires a <= b <= |l|
  {
    forall i :: a <= i < b ==> !IsLineTerminator(l[i])
  }

  predicate AllWhiteSpace(l: string, a: nat, b: nat)
    requires a <= b <= |l|
  {
    forall i :: a <= i < b ==> IsWhiteSpace(l[i])
  }

  /** `";` starts at index `f`. */
  predicate QuoteSemiAt(l: string, f: nat)
  {
    f + 1 < |l| && l[f] == '"' && l[f + 1] == ';'
  }

  /** `\s*=\s*"` runs from just after the key's closing quote at `q` up to the value's start `v`. */
  ghost predicate Separator(l: string, q: nat, v: nat)
  {
    q + 2 < v <= |l| && l[v - 1] == '"' &&
    exists j :: q < j < v - 1 && l[j] == '=' && AllWhiteSpace(l, q + 1, j) && AllWhiteSpace(l, j + 1, v - 1)
  }

  /** `(.*?)";` from `v`: the value `l[v..e]` is followed by the first `";` and holds no line terminator. */
  ghost predicate ValueSpan(l: string, v: nat, e: nat)
  {
    v <= e && QuoteSemiAt(l, e) && NoLineTerminator(l, v, e) &&
    forall f :: v <= f < e ==> !QuoteSemiAt(l, f)
  }

  /** The whole pattern matches with the key `l[p+1..q]` and the value `l[v..e]`. */
  ghost predicate IsMatch(l: string, p: nat, q: nat, v: nat, e: nat)
  {
    p + 2 <= q < |l| && l[p] == '"' && l[q] == '"' && NoLineTerminator(l, p + 1, q) &&
    Separator(l, q, v) && ValueSpan(l, v, e)
  }

  /** The match JavaScript reports: the leftmost start, and for it the furthest key end. */
  ghost predicate Chosen(l: string, p: nat, q: nat, v: nat, e: nat)
  {
    IsMatch(l, p, q, v, e) &&
    forall p': nat, q': nat, v': nat, e': nat :: IsMatch(l, p', q', v', e') ==> p <= p' && (p' == p ==> q' <= q)
  }

  function SkipWhiteSpace(l: string, i: nat): (r: nat)
    requires i <= |l|
    ensures i <= r <= |l| && AllWhiteSpace(l, i, r)
    ensures r < |l| ==> !IsWhiteSpace(l[r])
    decreases |l| - i
  {
    if i < |l| && IsWhiteSpace(l[i]) then SkipWhiteSpace(l, i + 1) else i
  }

  /** The first line terminator at or after `i`, or the end of the line. */
  function LineTerminatorFrom(l: string, i: nat): (r: nat)
    requires i <= |l|
    ensures i <= r <= |l| && NoLineTerminator(l, i, r)
    ensures r < |l| ==> IsLineTerminator(l[r])
    decreases |l| - i
  {
    if i < |l| && !IsLineTerminator(l[i]) then LineTerminatorFrom(l, i + 1) else i
  }

  /** `\s*=\s*"` after the closing quote at `q`: where the value starts, if it matches. */
  function ValueStart(l: string, q: nat): (r: Option<nat>)
    requires q < |l|
    ensures r.Some? ==> q + 2 < r.value <= |l|
  {
    var j := SkipWhiteSpace(l, q + 1);
    if j < |l| && l[j] == '=' then
      var k := SkipWhiteSpace(l, j + 1);
      if k < |l| && l[k] == '"' then Some(k + 1) else None
    else None
  }

  /** The lazy `(.*?)";` scan from `f`: the first `";`, unless a line terminator or the end comes first. */
  function ValueEnd(l: string, f: nat): (r: Option<nat>)
    requires f <= |l|
    ensures r.Some? ==> f <= r.value
    decreases |l| - f
  {
    if QuoteSemiAt(l, f) then Some(f)
    else if f == |l| || IsLineTerminator(l[f]) then None
    else ValueEnd(l, f + 1)
  }

  /** Greedy key end: the closing quotes at `q` and below are tried, furthest first. */
  function KeyEnd(l: string, p: nat, q: nat): (r: Option<(nat, nat, nat)>)
    requires q <= |l|
    decreases q
  {
    if q < p + 2 then None
    else if q < |l| && l[q] == '"' then
      match ValueStart(l, q)
      case Some(v) =>
        (match ValueEnd(l, v)
         case Some(e) => Some((q, v, e))
         case None => KeyEnd(l, p, q - 1))
      case None => KeyEnd(l, p, q - 1)
    else KeyEnd(l, p, q - 1)
  }

  /** Leftmost start: the opening quotes at `p` and after are tried in order. */
  function MatchFrom(l: string, p: nat): (r: Option<(nat, nat, nat, nat)>)
    requires p <= |l|
    decreases |l| - p
  {
    if p == |l| then None
    else if l[p] == '"' then
      match KeyEnd(l, p, LineTerminatorFrom(l, p + 1))
      case Some(m) => Some((p, m.0, m.1, m.2))
      case None => MatchFrom(l, p + 1)
    else MatchFrom(l, p + 1)
  }

  /** `line.match(/"(.+)"\s*=\s*"(.*?)";/)`, as the four positions of the match. */
  function Match(l: string): Option<(nat, nat, nat, nat)>
  {
    MatchFrom(l, 0)
  }

  /** `ValueStart` finds exactly the separator the pattern allows. */
  lemma ValueStartSpec(l: string, q: nat, v: nat)
    requires q < |l|
    ensures ValueStart(l, q) == Some(v) <==> Separator(l, q, v)
  {
    var j := SkipWhiteSpace(l, q + 1);
    if Separator(l, q, v) {
      var j' :| q < j' < v - 1 && l[j'] == '=' && AllWhiteSpace(l, q + 1, j') && AllWhiteSpace(l, j' + 1, v - 1);
      assert j == j';
      var k := SkipWhiteSpace(l, j + 1);
      assert k == v - 1;
    }
    if ValueStart(l, q) == Some(v) {
      assert l[j] == '=';
    }
  }

  /** The lazy scan from `f` finds the value end when nothing before `f` stopped it. */
  lemma {:induction false} ValueEndFrom(l: string, v: nat, f: nat, e: nat)
    requires v <= f <= |l| && NoLineTerminator(l, v, f)
    requires forall g :: v <= g < f ==> !QuoteSemiAt(l, g)
    ensures ValueEnd(l, f) == Some(e) <==> ValueSpan(l, v, e)
    decreases |l| - f
  {
    if QuoteSemiAt(l, f) {
    } else if f == |l| || IsLineTerminator(l[f]) {
    } else {
      ValueEndFrom(l, v, f + 1, e);
    }
  }

  lemma ValueEndSpec(l: string, v: nat, e: nat)
    requires v <= |l|
    ensures ValueEnd(l, v) == Some(e) <==> ValueSpan(l, v, e)
  {
    ValueEndFrom(l, v, v, e);
  }

  /** With the quotes and the key in place, the pattern matches exactly when the two scans succeed. */
  lemma IsMatchScans(l: string, p: nat, q: nat, v: nat, e: nat)
    requires p + 2 <= q < |l| && l[p] == '"' && l[q] == '"' && NoLineTerminator(l, p + 1, q)
    ensures IsMatch(l, p, q, v, e) <==> ValueStart(l, q) == Some(v) && ValueEnd(l, v) == Some(e)
  {
    ValueStartSpec(l, q, v);
    if v <= |l| {
      ValueEndSpec(l, v, e);
    }
  }

  /** No closing quote in `lo..hi` gives a match for the opening quote at `p`. */
  ghost predicate NoKeyEndIn(l: string, p: nat, lo: nat, hi: nat)
  {
    forall q: nat, v: nat, e: nat :: lo <= q <= hi && IsMatch(l, p, q, v, e) ==> false
  }

  /** The closing quote at `q` gives no match when one of the two scans after it fails. */
  lemma NoMatchAt(l: string, p: nat, q: nat)
    requires q <= |l|
    requires !(p + 2 <= q < |l| && l[q] == '"' && NoLineTerminator(l, p + 1, q) && l[p] == '"')
             || ValueStart(l, q).None? || ValueEnd(l, ValueStart(l, q).value).None?
    ensures NoKeyEndIn(l, p, q, q)
  {
    if p + 2 <= q < |l| && l[q] == '"' && NoLineTerminator(l, p + 1, q) && l[p] == '"' {
      forall v: nat, e: nat ensures !IsMatch(l, p, q, v, e) {
        IsMatchScans(l, p, q, v, e);
      }
    }
  }

  /** The greedy key search returns the furthest closing quote below `q0` that gives a match. */
  lemma {:induction false} KeyEndSpec(l: string, p: nat, q0: nat)
    requires p < |l| && l[p] == '"' && p + 1 <= q0 <= |l| && NoLineTerminator(l, p + 1, q0)
    ensures KeyEnd(l, p, q0).Some? ==>
              var m := KeyEnd(l, p, q0).value;
              m.0 <= q0 && IsMatch(l, p, m.0, m.1, m.2) && NoKeyEndIn(l, p, m.0 + 1, q0)
    ensures KeyEnd(l, p, q0).None? ==> NoKeyEndIn(l, p, 0, q0)
    decreases q0
  {
    if q0 < p + 2 {
    } else if q0 < |l| && l[q0] == '"' && ValueStart(l, q0).Some? && ValueEnd(l, ValueStart(l, q0).value).Some? {
      var v := ValueStart(l, q0).value;
      IsMatchScans(l, p, q0, v, ValueEnd(l, v).value);
    } else {
      NoMatchAt(l, p, q0);
      KeyEndSpec(l, p, q0 - 1);
      assert KeyEnd(l, p, q0) == KeyEnd(l, p, q0 - 1);
    }
  }

  /** A match's key never runs past the first line terminator after the opening quote. */
  lemma KeyWithinLine(l: string, p: nat, q: nat, v: nat, e: nat)
    requires IsMatch(l, p, q, v, e)
    ensures q <= LineTerminatorFrom(l, p + 1)
  {
    var r := LineTerminatorFrom(l, p + 1);
  }

  /** No opening quote in `lo..hi-1` starts a match. */
  ghost predicate NoMatchStartingIn(l: string, lo: nat, hi: nat)
  {
    forall p: nat, q: nat, v: nat, e: nat :: lo <= p < hi && IsMatch(l, p, q, v, e) ==> false
  }

  /** No match from the opening quote at `p` has its key end beyond `q`. */
  ghost predicate FurthestKeyEnd(l: string, p: nat, q: nat)
  {
    forall q': nat, v: nat, e: nat :: IsMatch(l, p, q', v, e) ==> q' <= q
  }

  /** No match starts at `p`, given what the key search there found. */
  lemma NoMatchStartingAt(l: string, p: nat)
    requires p < |l|
    requires l[p] == '"' ==> KeyEnd(l, p, LineTerminatorFrom(l, p + 1)).None?
    ensures NoMatchStartingIn(l, p, p + 1)
  {
    if l[p] == '"' {
      var r := LineTerminatorFrom(l, p + 1);
      KeyEndSpec(l, p, r);
      forall q: nat, v: nat, e: nat | IsMatch(l, p, q, v, e) ensures false {
        KeyWithinLine(l, p, q, v, e);
      }
    }
  }

  /** `MatchFrom` returns the leftmost match at or after `p0`, with the furthest key end. */
  lemma {:induction false} MatchFromSpec(l: string, p0: nat)
    requires p0 <= |l|
    ensures MatchFrom(l, p0).Some? ==>
              var m := MatchFrom(l, p0).value;
              p0 <= m.0 && IsMatch(l, m.0, m.1, m.2, m.3) &&
              NoMatchStartingIn(l, p0, m.0) && FurthestKeyEnd(l, m.0, m.1)
    ensures MatchFrom(l, p0).None? ==> NoMatchStartingIn(l, p0, |l| + 1)
    decreases |l| - p0
  {
    if p0 == |l| {
    } else if l[p0] == '"' && KeyEnd(l, p0, LineTerminatorFrom(l, p0 + 1)).Some? {
      var r := LineTerminatorFrom(l, p0 + 1);
      KeyEndSpec(l, p0, r);
      var m := KeyEnd(l, p0, r).value;
      forall q: nat, v: nat, e: nat | IsMatch(l, p0, q, v, e) ensures q <= m.0 {
        KeyWithinLine(l, p0, q, v, e);
      }
    } else {
      NoMatchStartingAt(l, p0);
      MatchFromSpec(l, p0 + 1);
      assert MatchFrom(l, p0) == MatchFrom(l, p0 + 1);
    }
  }

  /** The positions `Match` computes are the match the pattern defines, and `None` means none exists. */
  lemma MatchSpec(l: string)
    ensures Match(l).Some? ==> var m := Match(l).value; Chosen(l, m.0, m.1, m.2, m.3)
    ensures Match(l).None? <==> forall p: nat, q: nat, v: nat, e: nat :: !IsMatch(l, p, q, v, e)
  {
    MatchFromSpec(l, 0);
    if Match(l).Some? {
      var m := Match(l).value;
      assert NoMatchStartingIn(l, 0, m.0) && FurthestKeyEnd(l, m.0, m.1);
    }
  }

  /** Given where the key ends, the separator and the value are determined. */
  lemma MatchDetermined(l: string, p: nat, q: nat, v: nat, e: nat, v': nat, e': nat)
    requires IsMatch(l, p, q, v, e) && IsMatch(l, p, q, v', e')
    ensures v == v' && e == e'
  {
    IsMatchScans(l, p, q, v, e);
    IsMatchScans(l, p, q, v', e');
  }

  /** A value never holds `";`: the lazy scan stops at the first one. */
  lemma ValueHasNoQuoteSemi(l: string, v: nat, e: nat)
    requires ValueSpan(l, v, e)
    ensures forall i: nat :: !QuoteSemiAt(l[v..e], i)
  {
    forall i: nat ensures !QuoteSemiAt(l[v..e], i) {
      if i + 1 < e - v {
        assert l[v..e][i] == l[v + i] && l[v..e][i + 1] == l[v + i + 1];
        assert !QuoteSemiAt(l, v + i);
      }
    }
  }
}
