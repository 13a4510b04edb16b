/**
 * A JavaScript plain object used as a dictionary (`Record<string, V>`): its
 * own properties as (name, value) pairs in enumeration order.  Assigning an
 * existing property keeps its position and replaces its value; assigning a
 * new one appends it.
 */
module Tables {
  import opened Wrappers

  type Table<V> = seq<(string, V)>

  /** `Object.keys(t)` */
  function Keys<V>(t: Table<V>): (ks: seq<string>)
    ensures |ks| == |t| && forall i :: 0 <= i < |t| ==> ks[i] == t[i].0
  {
    if t == [] then [] else [t[0].0] + Keys(t[1..])
  }

  predicate DistinctKeys<V>(t: Table<V>)
  {
    forall i, j :: 0 <= i < j < |t| ==> t[i].0 != t[j].0
  }

  /** `t[k]`, `None` standing for `undefined`: the value of the first entry named `k`. */
  function Get<V>(t: Table<V>, k: string): (r: Option<V>)
    ensures r.None? <==> k !in Keys(t)
  {
    if t == [] then None
    else if t[0].0 == k then Some(t[0].1)
    else Get(t[1..], k)
  }

  /** In a table without repeated names, the entry at index `i` is what `t[name]` reads. */
  lemma {:induction false} GetAt<V>(t: Table<V>, i: nat)
    requires DistinctKeys(t) && i < |t|
    ensures Get(t, t[i].0) == Some(t[i].1)
  {
    if i > 0 {
      assert t[0].0 != t[i].0;
      assert DistinctKeys(t[1..]) by {
        forall a, b | 0 <= a < b < |t[1..]| ensures t[1..][a].0 != t[1..][b].0 {
          assert t[1..][a] == t[a + 1] && t[1..][b] == t[b + 1];
        }
      }
      assert t[1..][i - 1] == t[i];
      GetAt(t[1..], i - 1);
    }
  }

  /** `t[k] = v` */
  function Assign<V>(t: Table<V>, k: string, v: V): Table<V>
  {
    if t == [] then [(k, v)]
    else if t[0].0 == k then [(k, v)] + t[1..]
    else [t[0]] + Assign(t[1..], k, v)
  }

  lemma {:induction false} DistinctKeysTail<V>(t: Table<V>)
    requires DistinctKeys(t) && t != []
    ensures DistinctKeys(t[1..]) && t[0].0 !in Keys(t[1..])
  {
    forall a, b | 0 <= a < b < |t[1..]| ensures t[1..][a].0 != t[1..][b].0 {
      assert t[1..][a] == t[a + 1] && t[1..][b] == t[b + 1];
    }
  }

  /** After `t[k] = v`, `t[k]` reads `v` and every other property reads as before. */
  lemma {:induction false} AssignGet<V>(t: Table<V>, k: string, v: V, k': string)
    ensures Get(Assign(t, k, v), k') == if k' == k then Some(v) else Get(t, k')
  {
    if t != [] && t[0].0 != k {
      var r := Assign(t, k, v);
      assert r[1..] == Assign(t[1..], k, v);
      AssignGet(t[1..], k, v, k');
    }
  }

  /** Assignment keeps the property order: an existing name stays where it was, a new one goes last. */
  lemma {:induction false} AssignKeys<V>(t: Table<V>, k: string, v: V)
    ensures Keys(Assign(t, k, v)) == if k in Keys(t) then Keys(t) else Keys(t) + [k]
  {
    if t != [] {
      var r := Assign(t, k, v);
      assert r[1..] == if t[0].0 == k then t[1..] else Assign(t[1..], k, v);
      if t[0].0 != k {
        AssignKeys(t[1..], k, v);
        assert Keys(t) == [t[0].0] + Keys(t[1..]);
      }
    }
  }

  /** Assignment never creates a second property of the same name. */
  lemma {:induction false} AssignDistinct<V>(t: Table<V>, k: string, v: V)
    requires DistinctKeys(t)
    ensures DistinctKeys(Assign(t, k, v))
  {
    var r := Assign(t, k, v);
    AssignKeys(t, k, v);
    if k !in Keys(t) {
      forall i, j | 0 <= i < j < |r| ensures r[i].0 != r[j].0 {
        assert r[i].0 == Keys(r)[i] && r[j].0 == Keys(r)[j];
        if j == |t| {
          assert Keys(t)[i] == r[i].0;
        } else {
          assert Keys(t)[i] == r[i].0 && Keys(t)[j] == r[j].0;
        }
      }
    } else {
      forall i, j | 0 <= i < j < |r| ensures r[i].0 != r[j].0 {
        assert r[i].0 == Keys(r)[i] && r[j].0 == Keys(r)[j];
        assert Keys(t)[i] == t[i].0 && Keys(t)[j] == t[j].0;
      }
    }
  }

  /** The value of the LAST entry of `u` named `k`. */
  function GetLast<V>(u: Table<V>, k: string): Option<V>
  {
    if u == [] then None
    else if u[|u| - 1].0 == k then Some(u[|u| - 1].1)
    else GetLast(u[..|u| - 1], k)
  }

  lemma {:induction false} GetAppendOther<V>(p: Table<V>, e: (string, V), k: string)
    requires e.0 != k
    ensures Get(p + [e], k) == Get(p, k)
  {
    if p != [] {
      assert (p + [e])[1..] == p[1..] + [e];
      GetAppendOther(p[1..], e, k);
    }
  }

  /** When names do not repeat, the last entry named `k` is the only one. */
  lemma {:induction false} GetLastIsGet<V>(u: Table<V>, k: string)
    requires DistinctKeys(u)
    ensures GetLast(u, k) == Get(u, k)
  {
    if u != [] {
      var n := |u| - 1;
      if u[n].0 == k {
        GetAt(u, n);
      } else {
        var p := u[..n];
        assert DistinctKeys(p);
        GetLastIsGet(p, k);
        assert u == p + [u[n]];
        GetAppendOther(p, u[n], k);
      }
    }
  }

  /**
   * `{...t, ...u}`: the properties of `t`, then those of `u` assigned one by
   * one in order.
   */
  function Merge<V>(t: Table<V>, u: Table<V>): Table<V>
  {
    if u == [] then t
    else Assign(Merge(t, u[..|u| - 1]), u[|u| - 1].0, u[|u| - 1].1)
  }

  /** In `{...t, ...u}` a property reads as in the last entry of `u` that has it, else as in `t`. */
  lemma {:induction false} MergeGet<V>(t: Table<V>, u: Table<V>, k: string)
    ensures Get(Merge(t, u), k) == if GetLast(u, k).Some? then GetLast(u, k) else Get(t, k)
  {
    if u != [] {
      var n := |u| - 1;
      AssignGet(Merge(t, u[..n]), u[n].0, u[n].1, k);
      MergeGet(t, u[..n], k);
    }
  }

  /** `{...t, ...u}` has exactly the names of `t` and of `u`. */
  lemma {:induction false} MergeKeys<V>(t: Table<V>, u: Table<V>, k: string)
    ensures k in Keys(Merge(t, u)) <==> k in Keys(t) || k in Keys(u)
  {
    if u != [] {
      var n := |u| - 1;
      var before := Merge(t, u[..n]);
      MergeKeys(t, u[..n], k);
      AssignKeys(before, u[n].0, u[n].1);
      InSnoc(Keys(before), u[n].0, k);
      KeysSnoc(u);
      InSnoc(Keys(u[..n]), u[n].0, k);
    }
  }

  /** The names of a non-empty table are those of all but its last entry, then the last entry's. */
  lemma KeysSnoc<V>(u: Table<V>)
    requires u != []
    ensures Keys(u) == Keys(u[..|u| - 1]) + [u[|u| - 1].0]
  {
    KeysAppend(u[..|u| - 1], u[|u| - 1]);
    assert u[..|u| - 1] + [u[|u| - 1]] == u;
  }

  lemma InSnoc(a: seq<string>, x: string, k: string)
    ensures k in a + [x] <==> k in a || k == x
  {
    assert (a + [x])[|a|] == x;
  }

  lemma {:induction false} KeysAppend<V>(p: Table<V>, e: (string, V))
    ensures Keys(p + [e]) == Keys(p) + [e.0]
  {
  }

  lemma {:induction false} MergeDistinct<V>(t: Table<V>, u: Table<V>)
    requires DistinctKeys(t)
    ensures DistinctKeys(Merge(t, u))
  {
    if u != [] {
      var n := |u| - 1;
      MergeDistinct(t, u[..n]);
      AssignDistinct(Merge(t, u[..n]), u[n].0, u[n].1);
    }
  }

  /** Assigning a name the table does not have appends it. */
  lemma {:induction false} AssignNew<V>(t: Table<V>, k: string, v: V)
    requires k !in Keys(t)
    ensures Assign(t, k, v) == t + [(k, v)]
  {
    if t != [] {
      var rest := t[1..];
      assert Keys(t) == [t[0].0] + Keys(rest);
      assert t[0].0 != k && k !in Keys(rest);
      calc {
        Assign(t, k, v);
        [t[0]] + Assign(rest, k, v);
        { AssignNew(rest, k, v); }
        [t[0]] + (rest + [(k, v)]);
        ([t[0]] + rest) + [(k, v)];
        { assert [t[0]] + rest == t; }
        t + [(k, v)];
      }
    }
  }

  /** Spreading a table without repeated names into `{}` copies it, order included. */
  lemma {:induction false} MergeEmptyDistinct<V>(u: Table<V>)
    requires DistinctKeys(u)
    ensures Merge([], u) == u
  {
    if u != [] {
      var n := |u| - 1;
      assert DistinctKeys(u[..n]);
      MergeEmptyDistinct(u[..n]);
      assert u[n].0 !in Keys(u[..n]) by {
        forall i | 0 <= i < n ensures Keys(u[..n])[i] != u[n].0 {
          assert Keys(u[..n])[i] == u[i].0;
        }
      }
      AssignNew(u[..n], u[n].0, u[n].1);
      assert u[..n] + [(u[n].0, u[n].1)] == u;
    }
  }

  /** The names of `ks` in the order of their first occurrence. */
  function FirstOccurrences(ks: seq<string>): seq<string>
  {
    if ks == [] then []
    else
      var n := |ks| - 1;
      if ks[n] in ks[..n] then FirstOccurrences(ks[..n]) else FirstOccurrences(ks[..n]) + [ks[n]]
  }

  /** Spreading into `{}` keeps each name where it first appeared. */
  lemma {:induction false} MergeEmptyKeys<V>(u: Table<V>)
    ensures Keys(Merge([], u)) == FirstOccurrences(Keys(u))
  {
    if u != [] {
      var n := |u| - 1;
      var front, k := u[..n], u[n].0;
      var ks := Keys(u);
      MergeEmptyKeys(front);
      AssignKeys(Merge([], front), k, u[n].1);
      MergeKeys([], front, k);
      assert ks[..n] == Keys(front) && ks[n] == k;
      assert k in Keys(Merge([], front)) <==> k in ks[..n];
      assert Merge([], u) == Assign(Merge([], front), k, u[n].1);
    }
  }

  lemma MergeSnoc<V>(t: Table<V>, u: Table<V>, e: (string, V))
    ensures Merge(t, u + [e]) == Assign(Merge(t, u), e.0, e.1)
  {
    assert (u + [e])[..|u|] == u;
  }

  /** Assigning a name twice leaves the second value, where the name stood. */
  lemma {:induction false} AssignTwice<V>(t: Table<V>, k: string, v: V, w: V)
    ensures Assign(Assign(t, k, v), k, w) == Assign(t, k, w)
  {
    if t != [] && t[0].0 != k {
      AssignTwice(t[1..], k, v, w);
    }
  }

  /** `delete t[k]`: every entry named `k` goes, the others keep their order. */
  function Delete<V>(t: Table<V>, k: string): (r: Table<V>)
    ensures |r| <= |t|
    ensures k in Keys(t) ==> |r| < |t|
  {
    if t == [] then []
    else if t[0].0 == k then Delete(t[1..], k)
    else
      var r := [t[0]] + Delete(t[1..], k);
      assert Keys(t) == [t[0].0] + Keys(t[1..]);
      r
  }

  /** After `delete t[k]` the name `k` is gone, every other name reads as before, and no name repeats. */
  lemma {:induction false} DeleteGet<V>(t: Table<V>, k: string, k': string)
    ensures Get(Delete(t, k), k') == if k' == k then None else Get(t, k')
  {
    if t != [] {
      DeleteGet(t[1..], k, k');
    }
  }

  lemma {:induction false} DeleteDistinct<V>(t: Table<V>, k: string)
    requires DistinctKeys(t)
    ensures DistinctKeys(Delete(t, k))
  {
    if t != [] {
      DistinctKeysTail(t);
      DeleteDistinct(t[1..], k);
      if t[0].0 != k {
        DeleteGet(t[1..], k, t[0].0);
        ConsDistinct(t[0], Delete(t[1..], k));
      }
    }
  }

  /** An entry whose name the table lacks can go in front without repeating a name. */
  lemma ConsDistinct<V>(e: (string, V), d: Table<V>)
    requires DistinctKeys(d) && e.0 !in Keys(d)
    ensures DistinctKeys([e] + d)
  {
    var r := [e] + d;
    forall i, j | 0 <= i < j < |r| ensures r[i].0 != r[j].0 {
      if i == 0 {
        assert r[j].0 == Keys(d)[j - 1];
      }
    }
  }

  /** Deleting the first name of a table without repeated names leaves the rest of it. */
  lemma DeleteFirst<V>(t: Table<V>)
    requires t != [] && DistinctKeys(t)
    ensures Delete(t, t[0].0) == t[1..]
  {
    DistinctKeysTail(t);
    DeleteAbsent(t[1..], t[0].0);
  }

  lemma {:induction false} DeleteAbsent<V>(t: Table<V>, k: string)
    requires k !in Keys(t)
    ensures Delete(t, k) == t
  {
    if t != [] {
      assert Keys(t) == [t[0].0] + Keys(t[1..]);
      DeleteAbsent(t[1..], k);
    }
  }

  /** After `delete t[k]` the names are those of `t` but `k`. */
  lemma DeleteKeys<V>(t: Table<V>, k: string)
    ensures forall x :: x in Keys(Delete(t, k)) <==> x in Keys(t) && x != k
  {
    forall x ensures x in Keys(Delete(t, k)) <==> x in Keys(t) && x != k {
      DeleteGet(t, k, x);
    }
  }

  /** `delete t[k]` for each name of `ks` in turn. */
  function DeleteAll<V>(t: Table<V>, ks: seq<string>): Table<V>
    decreases |ks|
  {
    if ks == [] then t else DeleteAll(Delete(t, ks[0]), ks[1..])
  }

  /** After deleting the names of `ks` they are gone and every other name reads as before. */
  lemma {:induction false} DeleteAllGet<V>(t: Table<V>, ks: seq<string>, x: string)
    ensures Get(DeleteAll(t, ks), x) == if x in ks then None else Get(t, x)
    decreases |ks|
  {
    if ks != [] {
      DeleteAllGet(Delete(t, ks[0]), ks[1..], x);
      DeleteGet(t, ks[0], x);
      assert x in ks <==> x == ks[0] || x in ks[1..];
    }
  }

  /** Deleting the names of a one-name list is deleting that name. */
  lemma DeleteAllOne<V>(t: Table<V>, k: string)
    ensures DeleteAll(t, [k]) == Delete(t, k)
  {
    assert [k][1..] == [];
  }

  /** Deleting one more name at the front of the list. */
  lemma DeleteAllCons<V>(t: Table<V>, k: string, ks: seq<string>)
    ensures DeleteAll(t, [k] + ks) == DeleteAll(Delete(t, k), ks)
  {
    assert ([k] + ks)[1..] == ks;
  }
}
