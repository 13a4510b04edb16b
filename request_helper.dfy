/**
 * `processApiCallsInBatches` of `src/utils/request-helper.ts`: the calls are
 * run batch by batch, and the objects they resolve to are spread into one.
 * A call is an input handed to `run`, which stands for invoking it; `None`
 * stands for a call resolving to `null` (what a failed request gives), which
 * spreads nothing.  The calls of one batch run concurrently in the source;
 * here they run one after the other, in order.
 */
module RequestHelper {
  import opened Wrappers
  import opened Tables

  /** The batch size when none is given. */
  const DefaultBatchSize: nat := 50

  function Min(a: int, b: int): int
  {
    if a <= b then a else b
  }

  /** The batches put back together, in order. */
  function Flatten<C>(batches: seq<seq<C>>): seq<C>
  {
    if batches == [] then [] else Flatten(batches[..|batches| - 1]) + batches[|batches| - 1]
  }

  /**
   * The batches the loop forms: `apiCalls.slice(i, i + batchSize)` for
   * `i = 0, batchSize, 2 * batchSize, ...` while `i` is below the length.
   */
  function Batches<C>(apiCalls: seq<C>, batchSize: nat): seq<seq<C>>
    requires batchSize > 0
    decreases |apiCalls|
  {
    if apiCalls == [] then []
    else if |apiCalls| <= batchSize then [apiCalls]
    else [apiCalls[..batchSize]] + Batches(apiCalls[batchSize..], batchSize)
  }

  /** Put back together, the batches give the calls in order. */
  lemma {:induction false} BatchesFlatten<C>(apiCalls: seq<C>, batchSize: nat)
    requires batchSize > 0
    ensures Flatten(Batches(apiCalls, batchSize)) == apiCalls
    decreases |apiCalls|
  {
    if |apiCalls| > batchSize {
      var rest := apiCalls[batchSize..];
      BatchesFlatten(rest, batchSize);
      FlattenCons(apiCalls[..batchSize], Batches(rest, batchSize));
      assert apiCalls[..batchSize] + rest == apiCalls;
    } else if apiCalls != [] {
      assert Flatten([apiCalls]) == Flatten([]) + apiCalls;
    }
  }

  /** Every batch is non-empty, and all but the last hold exactly `batchSize` calls. */
  predicate FullBatches<C>(bs: seq<seq<C>>, batchSize: nat)
  {
    forall k :: 0 <= k < |bs| ==> 0 < |bs[k]| <= batchSize && (k < |bs| - 1 ==> |bs[k]| == batchSize)
  }

  lemma {:induction false} BatchesSizes<C>(apiCalls: seq<C>, batchSize: nat)
    requires batchSize > 0
    ensures FullBatches(Batches(apiCalls, batchSize), batchSize)
    decreases |apiCalls|
  {
    if |apiCalls| > batchSize {
      var rest := apiCalls[batchSize..];
      BatchesSizes(rest, batchSize);
      var bs, tail := Batches(apiCalls, batchSize), Batches(rest, batchSize);
      assert bs == [apiCalls[..batchSize]] + tail;
      forall k | 0 <= k < |bs| ensures 0 < |bs[k]| <= batchSize && (k < |bs| - 1 ==> |bs[k]| == batchSize) {
        if k > 0 {
          assert bs[k] == tail[k - 1];
        }
      }
    }
  }

  /** The number `m` of batches is the ceiling of the number of calls divided by `batchSize`. */
  lemma {:induction false} BatchesCount<C>(apiCalls: seq<C>, batchSize: nat)
    requires batchSize > 0
    ensures var m := |Batches(apiCalls, batchSize)|;
            m * batchSize >= |apiCalls| && (m == 0 || (m - 1) * batchSize < |apiCalls|)
    decreases |apiCalls|
  {
    if |apiCalls| > batchSize {
      var rest := apiCalls[batchSize..];
      BatchesCount(rest, batchSize);
      var m := |Batches(rest, batchSize)|;
      assert |Batches(apiCalls, batchSize)| == m + 1;
      assert (m + 1) * batchSize == m * batchSize + batchSize;
    }
  }

  lemma {:induction false} FlattenCons<C>(b: seq<C>, bs: seq<seq<C>>)
    ensures Flatten([b] + bs) == b + Flatten(bs)
    decreases |bs|
  {
    if bs != [] {
      var n := |bs| - 1;
      assert ([b] + bs)[..|bs|] == [b] + bs[..n];
      FlattenCons(b, bs[..n]);
    } else {
      assert [b] + bs == [b];
      assert Flatten([b]) == Flatten([]) + b;
    }
  }

  /** The calls from index `i` on; none once `i` has passed the end. */
  function From<C>(apiCalls: seq<C>, i: nat): seq<C>
  {
    if i < |apiCalls| then apiCalls[i..] else []
  }

  /** The batch starting at index `i` is `apiCalls.slice(i, i + batchSize)`, and the rest start `batchSize` later. */
  lemma BatchStep<C>(apiCalls: seq<C>, i: nat, batchSize: nat)
    requires batchSize > 0 && i < |apiCalls|
    ensures Batches(From(apiCalls, i), batchSize) ==
              [apiCalls[i..Min(i + batchSize, |apiCalls|)]] + Batches(From(apiCalls, i + batchSize), batchSize)
  {
    var rest := apiCalls[i..];
    if |rest| <= batchSize {
      assert rest == apiCalls[i..|apiCalls|];
    } else {
      assert rest[..batchSize] == apiCalls[i..i + batchSize];
      assert rest[batchSize..] == apiCalls[i + batchSize..];
    }
  }

  /** One more batch formed: the batches so far and those still to come still make up all of them. */
  lemma BatchesInvariantStep<C>(apiCalls: seq<C>, batches: seq<seq<C>>, i: nat, batchSize: nat)
    requires batchSize > 0 && i < |apiCalls|
    requires batches + Batches(From(apiCalls, i), batchSize) == Batches(apiCalls, batchSize)
    ensures (batches + [apiCalls[i..Min(i + batchSize, |apiCalls|)]]) + Batches(From(apiCalls, i + batchSize), batchSize)
            == Batches(apiCalls, batchSize)
  {
    BatchStep(apiCalls, i, batchSize);
    var batch := apiCalls[i..Min(i + batchSize, |apiCalls|)];
    var later := Batches(From(apiCalls, i + batchSize), batchSize);
    assert (batches + [batch]) + later == batches + ([batch] + later);
  }

  /** The results of a batch, appended to those of the calls before it, line up with the calls. */
  lemma ResultsStep<C, V>(apiCalls: seq<C>, run: C -> Option<Table<V>>, results: seq<Option<Table<V>>>,
                          batchResults: seq<Option<Table<V>>>, i: nat, end: nat)
    requires i <= end <= |apiCalls|
    requires |results| == i && forall k {:trigger results[k]} :: 0 <= k < i ==> results[k] == run(apiCalls[k])
    requires |batchResults| == end - i
    requires forall j {:trigger batchResults[j]} :: 0 <= j < end - i ==> batchResults[j] == run(apiCalls[i..end][j])
    ensures |results + batchResults| == end
    ensures forall k {:trigger (results + batchResults)[k]} :: 0 <= k < end ==> (results + batchResults)[k] == run(apiCalls[k])
  {
    forall k | 0 <= k < end ensures (results + batchResults)[k] == run(apiCalls[k]) {
      if k >= i {
        assert apiCalls[i..end][k - i] == apiCalls[k];
        assert (results + batchResults)[k] == batchResults[k - i];
      } else {
        assert (results + batchResults)[k] == results[k];
      }
    }
  }

  /** `Promise.all(batch.map((call) => call()))`: one result per call of the batch, in order. */
  method RunBatch<C, V>(batch: seq<C>, run: C -> Option<Table<V>>) returns (batchResults: seq<Option<Table<V>>>)
    ensures |batchResults| == |batch|
    ensures forall j {:trigger batchResults[j]} :: 0 <= j < |batch| ==> batchResults[j] == run(batch[j])
  {
    batchResults := [];
    for j := 0 to |batch|
      invariant |batchResults| == j
      invariant forall m {:trigger batchResults[m]} :: 0 <= m < j ==> batchResults[m] == run(batch[m])
    {
      batchResults := batchResults + [run(batch[j])];
    }
  }

  /** `results.reduce((acc, result) => ({ ...acc, ...result }), {})` */
  function MergeAll<V>(results: seq<Option<Table<V>>>): Table<V>
  {
    if results == [] then []
    else
      var acc := MergeAll(results[..|results| - 1]);
      match results[|results| - 1]
      case None => acc
      case Some(r) => Merge(acc, r)
  }

  /**
   * `processApiCallsInBatches(apiCalls, batchSize = 50)`.  Beside the merged
   * object it returns the batches it formed and the results it collected,
   * one per call and in the order of the calls.
   */
  method ProcessApiCallsInBatches<C, V>(apiCalls: seq<C>, run: C -> Option<Table<V>>, batchSize: nat := DefaultBatchSize)
    returns (merged: Table<V>, batches: seq<seq<C>>, results: seq<Option<Table<V>>>)
    requires batchSize > 0
    ensures batches == Batches(apiCalls, batchSize)
    ensures |results| == |apiCalls| && forall k :: 0 <= k < |apiCalls| ==> results[k] == run(apiCalls[k])
    ensures merged == MergeAll(results)
    ensures apiCalls == [] ==> batches == [] && merged == []
  {
    results := [];
    batches := [];
    var i := 0;
    while i < |apiCalls|
      invariant batches + Batches(From(apiCalls, i), batchSize) == Batches(apiCalls, batchSize)
      invariant |results| == Min(i, |apiCalls|)
      invariant forall k {:trigger results[k]} :: 0 <= k < |results| ==> results[k] == run(apiCalls[k])
    {
      var end := Min(i + batchSize, |apiCalls|);
      var batch := apiCalls[i..end];
      BatchesInvariantStep(apiCalls, batches, i, batchSize);
      var batchResults := RunBatch(batch, run);
      ResultsStep(apiCalls, run, results, batchResults, i, end);
      results := results + batchResults;
      batches := batches + [batch];
      i := i + batchSize;
    }
    assert From(apiCalls, i) == [] && Batches<C>([], batchSize) == [];
    assert batches + [] == batches;
    merged := MergeAll(results);
  }

  /** Whether some result has the name `k`. */
  predicate Has<V>(r: Option<Table<V>>, k: string)
  {
    r.Some? && k in Keys(r.value)
  }

  /** The merged object has exactly the names that some result has. */
  lemma {:induction false} MergeAllKeys<V>(results: seq<Option<Table<V>>>, k: string)
    ensures k in Keys(MergeAll(results)) <==> exists i :: 0 <= i < |results| && Has(results[i], k)
  {
    if results != [] {
      var n := |results| - 1;
      var front := results[..n];
      MergeAllKeys(front, k);
      if results[n].Some? {
        MergeKeys(MergeAll(front), results[n].value, k);
      }
      if exists i :: 0 <= i < |front| && Has(front[i], k) {
        var i :| 0 <= i < |front| && Has(front[i], k);
        assert results[i] == front[i];
      }
      if exists i :: 0 <= i < |results| && Has(results[i], k) {
        var i :| 0 <= i < |results| && Has(results[i], k);
        if i < n {
          assert front[i] == results[i];
        }
      }
    }
  }

  lemma {:induction false} GetLastNone<V>(u: Table<V>, k: string)
    ensures GetLast(u, k).None? <==> k !in Keys(u)
  {
    if u != [] {
      var n := |u| - 1;
      GetLastNone(u[..n], k);
      KeysAppend(u[..n], u[n]);
      assert u[..n] + [u[n]] == u;
    }
  }

  /**
   * A name reads in the merged object as in the last result that has it:
   * later results win.
   */
  lemma {:induction false} MergeAllLastWins<V>(results: seq<Option<Table<V>>>, k: string, i: nat)
    requires i < |results| && Has(results[i], k)
    requires forall j :: i < j < |results| ==> !Has(results[j], k)
    ensures Get(MergeAll(results), k) == GetLast(results[i].value, k)
  {
    var n := |results| - 1;
    var front := results[..n];
    var acc := MergeAll(front);
    if i < n {
      assert front[i] == results[i];
      assert !Has(results[n], k);
      calc {
        Get(MergeAll(results), k);
        { LastResultAdds(results, k); }
        Get(acc, k);
        { MergeAllLastWins(front, k, i); }
        GetLast(results[i].value, k);
      }
    } else {
      var r := results[n].value;
      calc {
        Get(MergeAll(results), k);
        Get(Merge(acc, r), k);
        { MergeGet(acc, r, k); GetLastNone(r, k); }
        GetLast(r, k);
      }
    }
  }

  /** A last result without the name `k` leaves it as the results before it have it. */
  lemma LastResultAdds<V>(results: seq<Option<Table<V>>>, k: string)
    requires results != [] && !Has(results[|results| - 1], k)
    ensures Get(MergeAll(results), k) == Get(MergeAll(results[..|results| - 1]), k)
  {
    var n := |results| - 1;
    if results[n].Some? {
      MergeGet(MergeAll(results[..n]), results[n].value, k);
      GetLastNone(results[n].value, k);
    }
  }
}
