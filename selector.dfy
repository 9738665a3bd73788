/** `greedy_outliers`: the greedy search of He, Deng, Xu and Huang ("A Fast
    Greedy Algorithm for Outlier Mining", PAKDD 2006). Each round scans the
    unmarked rows in ascending order, scores each by the entropy of the table
    without it, keeps the first whose score is strictly below the running
    best, and commits it. The entropy estimator is a parameter: every
    contract here holds whatever function it is. */
module Selector {
  import opened Wrappers
  import opened Rows
  import opened OccurrenceTable

  /** The estimator: (table, number of active rows) -> entropy. */
  type EntropyFn = (Occurrences, nat) -> real

  /** The program's `Result`: the outlier indices and the entropy of the rows
      left. */
  datatype Outcome = Outcome(outliers: set<nat>, entropy: real)

  datatype SelectError =
    | KExceedsDataSize  // more outliers asked for than there are rows
    | NoImprovement     // a round found no row whose removal lowers the entropy

  /** Every row fits the table's dimensions, so `mark_outlier` can run on it. */
  ghost predicate Fits(data: Data, occ: Occurrences)
  {
    forall j :: 0 <= j < |data| ==> |data[j]| <= |occ|
  }

  /** The score of row j in a round: the entropy of the table without it, over
      the `remaining` rows that would be left. */
  function Score(data: Data, occ: Occurrences, remaining: nat, entropy: EntropyFn, j: nat): (e: real)
    requires j < |data| && |data[j]| <= |occ|
  {
    entropy(RemoveRow(occ, data[j]), remaining)
  }

  /** Row w wins the round: it is unmarked, its score is strictly below the
      best so far, no unmarked row scores lower, and every unmarked row before
      it scores strictly higher (the lowest index wins a tie). */
  ghost predicate IsWinner(data: Data, occ: Occurrences, outliers: set<nat>, remaining: nat,
                           best: real, entropy: EntropyFn, w: nat)
    requires Fits(data, occ)
  {
    && w < |data| && w !in outliers
    && Score(data, occ, remaining, entropy, w) < best
    && (forall j :: 0 <= j < |data| && j !in outliers ==>
          Score(data, occ, remaining, entropy, w) <= Score(data, occ, remaining, entropy, j))
    && (forall j :: 0 <= j < w && j !in outliers ==>
          Score(data, occ, remaining, entropy, w) < Score(data, occ, remaining, entropy, j))
  }

  /** No unmarked row scores strictly below the best so far. */
  ghost predicate NoneImproves(data: Data, occ: Occurrences, outliers: set<nat>, remaining: nat,
                               best: real, entropy: EntropyFn)
    requires Fits(data, occ)
  {
    forall j :: 0 <= j < |data| && j !in outliers ==> best <= Score(data, occ, remaining, entropy, j)
  }

  /** A round has at most one winner. */
  lemma WinnerUnique(data: Data, occ: Occurrences, outliers: set<nat>, remaining: nat,
                     best: real, entropy: EntropyFn, w1: nat, w2: nat)
    requires Fits(data, occ)
    requires IsWinner(data, occ, outliers, remaining, best, entropy, w1)
    requires IsWinner(data, occ, outliers, remaining, best, entropy, w2)
    ensures w1 == w2
  {
  }

  /** A round with no candidate below the best has no winner. */
  lemma NoWinnerWhenNoneImproves(data: Data, occ: Occurrences, outliers: set<nat>, remaining: nat,
                                 best: real, entropy: EntropyFn, w: nat)
    requires Fits(data, occ)
    requires NoneImproves(data, occ, outliers, remaining, best, entropy)
    ensures !IsWinner(data, occ, outliers, remaining, best, entropy, w)
  {
  }

  /** The inner loop of one round: the winner, if any, and the best entropy
      after the round (unchanged when there is no winner). */
  method ScanRound(data: Data, occurrences: Occurrences, outliers: set<nat>, best: real, entropy: EntropyFn)
    returns (bestIndex: Option<nat>, bestEntropy: real)
    requires Fits(data, occurrences) && |outliers| < |data|
    ensures bestIndex.None? <==>
              NoneImproves(data, occurrences, outliers, |data| - |outliers| - 1, best, entropy)
    ensures bestIndex.None? ==> bestEntropy == best
    ensures bestIndex.Some? ==>
              IsWinner(data, occurrences, outliers, |data| - |outliers| - 1, best, entropy, bestIndex.value) &&
              bestEntropy == Score(data, occurrences, |data| - |outliers| - 1, entropy, bestIndex.value)
  {
    var remaining := |data| - |outliers| - 1;
    bestIndex, bestEntropy := None, best;
    for index := 0 to |data|
      invariant bestIndex.None? ==>
                  bestEntropy == best &&
                  forall j :: 0 <= j < index && j !in outliers ==>
                    best <= Score(data, occurrences, remaining, entropy, j)
      invariant bestIndex.Some? ==>
                  bestIndex.value < index && bestIndex.value !in outliers && bestEntropy < best &&
                  bestEntropy == Score(data, occurrences, remaining, entropy, bestIndex.value) &&
                  (forall j :: 0 <= j < index && j !in outliers ==>
                     bestEntropy <= Score(data, occurrences, remaining, entropy, j)) &&
                  (forall j :: 0 <= j < bestIndex.value && j !in outliers ==>
                     bestEntropy < Score(data, occurrences, remaining, entropy, j))
    {
      if index !in outliers {
        var markedOccurrences := MarkOutlier(data, occurrences, index);
        var markedEntropy := entropy(markedOccurrences, remaining);
        if markedEntropy < bestEntropy {
          bestEntropy := markedEntropy;
          bestIndex := Some(index);
        }
      }
    }
  }

  /** The indices of a trace of winners. */
  function Marked(trace: seq<nat>): (outliers: set<nat>)
  {
    set x | x in trace
  }

  /** The table of the rows left after the first rounds of a trace. */
  function RoundTable(data: Data, d: nat, trace: seq<nat>): (t: Occurrences)
    requires Uniform(data, d)
    ensures Fits(data, t)
  {
    ActiveUniform(data, Marked(trace), d);
    Tally(Active(data, Marked(trace)), d)
  }

  /** Round `|before|` of a run, which starts after the winners `before` with
      best entropy `best`, is won by w with score e. It scores with
      |data| - |before| - 1 remaining rows. */
  ghost predicate RoundWon(data: Data, d: nat, entropy: EntropyFn, before: seq<nat>, best: real, w: nat, e: real)
    requires Uniform(data, d)
  {
    && |before| < |data|
    && IsWinner(data, RoundTable(data, d, before), Marked(before), |data| - |before| - 1, best, entropy, w)
    && e == Score(data, RoundTable(data, d, before), |data| - |before| - 1, entropy, w)
  }

  /** A run of the search: `trace` holds the winners in order, `bests` the
      best entropy before the first round (the entropy of all rows) and after
      each round. */
  ghost predicate ValidTrace(data: Data, d: nat, entropy: EntropyFn, trace: seq<nat>, bests: seq<real>)
    requires Uniform(data, d)
    decreases |trace|
  {
    if trace == [] then bests == [entropy(Tally(data, d), |data|)]
    else
      var s := |trace| - 1;
      && |bests| == |trace| + 1
      && ValidTrace(data, d, entropy, trace[..s], bests[..s + 1])
      && RoundWon(data, d, entropy, trace[..s], bests[s], trace[s], bests[s + 1])
  }

  /** Every round of a valid run was won as RoundWon says, by a row not won
      before. */
  lemma {:induction false} TraceRound(data: Data, d: nat, entropy: EntropyFn, trace: seq<nat>, bests: seq<real>, r: nat)
    requires Uniform(data, d) && ValidTrace(data, d, entropy, trace, bests)
    requires r < |trace|
    ensures |bests| == |trace| + 1 && |trace| <= |data|
    ensures RoundWon(data, d, entropy, trace[..r], bests[r], trace[r], bests[r + 1])
    ensures trace[r] < |data| && forall q :: 0 <= q < r ==> trace[q] != trace[r]
    decreases |trace|
  {
    var s := |trace| - 1;
    var pre, bpre := trace[..s], bests[..s + 1];
    if r < s {
      TraceRound(data, d, entropy, pre, bpre, r);
      assert pre[..r] == trace[..r];
    } else {
      assert trace[..r] == pre;
    }
    forall q | 0 <= q < r ensures trace[q] != trace[r] {
      assert trace[q] in Marked(trace[..r]);
    }
  }

  /** The entropies committed round after round strictly decrease. */
  lemma {:induction false} BestsDecrease(data: Data, d: nat, entropy: EntropyFn, trace: seq<nat>, bests: seq<real>,
                                         q: nat, r: nat)
    requires Uniform(data, d) && ValidTrace(data, d, entropy, trace, bests)
    requires q < r <= |trace|
    ensures |bests| == |trace| + 1 && bests[r] < bests[q]
    decreases r - q
  {
    TraceRound(data, d, entropy, trace, bests, r - 1);
    if q < r - 1 {
      BestsDecrease(data, d, entropy, trace, bests, q, r - 1);
    }
  }

  /** Two wins of the same round agree on the winner and on its score. */
  lemma SameRound(data: Data, d: nat, entropy: EntropyFn, before: seq<nat>, best: real,
                  w1: nat, e1: real, w2: nat, e2: real)
    requires Uniform(data, d)
    requires RoundWon(data, d, entropy, before, best, w1, e1)
    requires RoundWon(data, d, entropy, before, best, w2, e2)
    ensures w1 == w2 && e1 == e2
  {
    var occ := RoundTable(data, d, before);
    WinnerUnique(data, occ, Marked(before), |data| - |before| - 1, best, entropy, w1, w2);
  }

  /** Runs that agree up to round s agree on round s too. */
  lemma AgreeStep(data: Data, d: nat, entropy: EntropyFn,
                  trace1: seq<nat>, bests1: seq<real>, trace2: seq<nat>, bests2: seq<real>, s: nat)
    requires Uniform(data, d)
    requires s < |trace1| && s < |trace2| && |bests1| == |trace1| + 1 && |bests2| == |trace2| + 1
    requires trace1[..s] == trace2[..s] && bests1[..s + 1] == bests2[..s + 1]
    requires RoundWon(data, d, entropy, trace1[..s], bests1[s], trace1[s], bests1[s + 1])
    requires RoundWon(data, d, entropy, trace2[..s], bests2[s], trace2[s], bests2[s + 1])
    ensures trace1[..s + 1] == trace2[..s + 1] && bests1[..s + 2] == bests2[..s + 2]
  {
    assert bests1[s] == bests1[..s + 1][s] && bests2[s] == bests2[..s + 1][s];
    SameRound(data, d, entropy, trace1[..s], bests1[s], trace1[s], bests1[s + 1], trace2[s], bests2[s + 1]);
    assert trace1[..s + 1] == trace1[..s] + [trace1[s]];
    assert trace2[..s + 1] == trace2[..s] + [trace2[s]];
    assert bests1[..s + 2] == bests1[..s + 1] + [bests1[s + 1]];
    assert bests2[..s + 2] == bests2[..s + 1] + [bests2[s + 1]];
  }

  /** The search is deterministic: two runs on the same data with the same
      estimator pick the same winners and the same entropies, round by round. */
  lemma {:induction false} TracesAgree(data: Data, d: nat, entropy: EntropyFn,
                                       trace1: seq<nat>, bests1: seq<real>,
                                       trace2: seq<nat>, bests2: seq<real>, r: nat)
    requires Uniform(data, d)
    requires ValidTrace(data, d, entropy, trace1, bests1) && ValidTrace(data, d, entropy, trace2, bests2)
    requires r <= |trace1| && r <= |trace2|
    ensures |bests1| == |trace1| + 1 && |bests2| == |trace2| + 1
    ensures trace1[..r] == trace2[..r] && bests1[..r + 1] == bests2[..r + 1]
  {
    ValidTraceBaseline(data, d, entropy, trace1, bests1);
    ValidTraceBaseline(data, d, entropy, trace2, bests2);
    if r > 0 {
      TracesAgree(data, d, entropy, trace1, bests1, trace2, bests2, r - 1);
      TraceRound(data, d, entropy, trace1, bests1, r - 1);
      TraceRound(data, d, entropy, trace2, bests2, r - 1);
      AgreeStep(data, d, entropy, trace1, bests1, trace2, bests2, r - 1);
    }
  }

  /** A run starts from the entropy of all rows. */
  lemma {:induction false} ValidTraceBaseline(data: Data, d: nat, entropy: EntropyFn, trace: seq<nat>, bests: seq<real>)
    requires Uniform(data, d) && ValidTrace(data, d, entropy, trace, bests)
    ensures |bests| == |trace| + 1 && bests[0] == entropy(Tally(data, d), |data|)
    decreases |trace|
  {
    if trace != [] {
      var s := |trace| - 1;
      ValidTraceBaseline(data, d, entropy, trace[..s], bests[..s + 1]);
    }
  }

  /** A round won after a valid run extends it. */
  lemma ExtendTrace(data: Data, d: nat, entropy: EntropyFn, trace: seq<nat>, bests: seq<real>, w: nat, e: real)
    requires Uniform(data, d) && ValidTrace(data, d, entropy, trace, bests) && |bests| == |trace| + 1
    requires RoundWon(data, d, entropy, trace, bests[|trace|], w, e)
    ensures ValidTrace(data, d, entropy, trace + [w], bests + [e])
  {
    assert (trace + [w])[..|trace|] == trace;
    assert (bests + [e])[..|trace| + 1] == bests;
  }

  /** Committing the winner of a round: the run extends by one round, one
      more row is marked, and taking the winner out of the live table gives
      the table of the rows left. */
  lemma CommitRound(data: Data, d: nat, entropy: EntropyFn, trace: seq<nat>, bests: seq<real>,
                    outliers: set<nat>, occ: Occurrences, w: nat, e: real)
    requires Uniform(data, d) && ValidTrace(data, d, entropy, trace, bests) && |bests| == |trace| + 1
    requires outliers == Marked(trace) && |outliers| == |trace| < |data|
    requires occ == RoundTable(data, d, trace)
    requires IsWinner(data, occ, outliers, |data| - |outliers| - 1, bests[|trace|], entropy, w)
    requires e == Score(data, occ, |data| - |outliers| - 1, entropy, w)
    ensures w < |data| && w !in outliers && Marked(trace + [w]) == outliers + {w}
    ensures ValidTrace(data, d, entropy, trace + [w], bests + [e])
    ensures RemoveRow(occ, data[w]) == RoundTable(data, d, trace + [w])
  {
    CommitRemoval(data, d, outliers, w);
    assert Marked(trace + [w]) == outliers + {w};
    ExtendTrace(data, d, entropy, trace, bests, w, e);
  }

  /** The run cannot go on: in the round after `trace`, no unmarked row
      scores strictly below the last committed entropy. */
  ghost predicate Stuck(data: Data, d: nat, entropy: EntropyFn, trace: seq<nat>, bests: seq<real>)
    requires Uniform(data, d)
  {
    && |trace| < |data| && |bests| == |trace| + 1
    && NoneImproves(data, RoundTable(data, d, trace), Marked(trace), |data| - |trace| - 1, bests[|trace|], entropy)
  }

  lemma StuckRound(data: Data, d: nat, entropy: EntropyFn, trace: seq<nat>, bests: seq<real>,
                   outliers: set<nat>, occ: Occurrences)
    requires Uniform(data, d) && |bests| == |trace| + 1
    requires outliers == Marked(trace) && |outliers| == |trace| < |data|
    requires occ == RoundTable(data, d, trace)
    requires NoneImproves(data, occ, outliers, |data| - |outliers| - 1, bests[|trace|], entropy)
    ensures Stuck(data, d, entropy, trace, bests)
  {
  }

  /** A trace of distinct winners marks as many rows as it has rounds. */
  lemma {:induction false} MarkedSize(trace: seq<nat>)
    requires forall q, r :: 0 <= q < r < |trace| ==> trace[q] != trace[r]
    ensures |Marked(trace)| == |trace|
    decreases |trace|
  {
    if trace != [] {
      var last := |trace| - 1;
      MarkedSize(trace[..last]);
      assert Marked(trace) == Marked(trace[..last]) + {trace[last]};
      assert trace[last] !in Marked(trace[..last]);
    }
  }

  /** The winners of a run are distinct rows: the outlier set has one index
      per round, each an index of a row. */
  lemma {:induction false} TraceOutliers(data: Data, d: nat, entropy: EntropyFn, trace: seq<nat>, bests: seq<real>)
    requires Uniform(data, d) && ValidTrace(data, d, entropy, trace, bests)
    ensures |Marked(trace)| == |trace| <= |data|
    ensures forall j :: j in Marked(trace) ==> j < |data|
  {
    forall q, r | 0 <= q < r < |trace| ensures trace[q] != trace[r] {
      TraceRound(data, d, entropy, trace, bests, r);
    }
    forall j | j in Marked(trace) ensures j < |data| {
      var q :| 0 <= q < |trace| && trace[q] == j;
      TraceRound(data, d, entropy, trace, bests, q);
    }
    if trace != [] {
      TraceRound(data, d, entropy, trace, bests, 0);
    }
    MarkedSize(trace);
  }

  /** `greedy_outliers`. On success the outliers are the k winners of a valid
      run and the entropy is the last round's; on failure the run stopped at a
      round where no candidate improved. In every case the live table is the
      tally of the rows not yet marked, since the rounds that succeeded before
      a failure have already been committed into the dataset. */
  method GreedyOutliers(dataset: Dataset, k: nat, entropy: EntropyFn)
    returns (r: Result<Outcome, SelectError>, ghost trace: seq<nat>, ghost bests: seq<real>)
    requires dataset.CountsAllRows()
    modifies dataset`occurrences
    ensures |dataset.occurrences| == old(|dataset.occurrences|)
    ensures k > |dataset.data| ==>
              r == Failure(KExceedsDataSize) && dataset.occurrences == old(dataset.occurrences) && trace == []
    ensures k <= |dataset.data| ==>
              ValidTrace(dataset.data, |dataset.occurrences|, entropy, trace, bests) && |trace| <= k &&
              dataset.occurrences == RoundTable(dataset.data, |dataset.occurrences|, trace)
    ensures r.Success? ==>
              |trace| == k && |bests| == k + 1 && r.value.outliers == Marked(trace) && |r.value.outliers| == k &&
              (forall j :: j in r.value.outliers ==> j < |dataset.data|) &&
              r.value.entropy == bests[k]
    ensures k <= |dataset.data| && r.Failure? ==>
              r.error == NoImprovement && |trace| < k &&
              Stuck(dataset.data, |dataset.occurrences|, entropy, trace, bests)
  {
    trace, bests := [], [];
    if k > |dataset.data| {
      return Failure(KExceedsDataSize), trace, bests;
    }
    ghost var d := |dataset.occurrences|;
    var data := dataset.data;
    var bestEntropy := entropy(dataset.occurrences, |data|);
    bests := [bestEntropy];
    var outliers: set<nat> := {};
    StartRun(data, d, entropy, dataset.occurrences);
    while |outliers| < k
      invariant |dataset.occurrences| == d && dataset.data == data && Uniform(data, d)
      invariant outliers == Marked(trace) && |outliers| == |trace| <= k
      invariant forall j :: j in outliers ==> j < |data|
      invariant ValidTrace(data, d, entropy, trace, bests)
      invariant |bests| == |trace| + 1 && bestEntropy == bests[|trace|]
      invariant dataset.occurrences == RoundTable(data, d, trace)
      decreases k - |outliers|
    {
      var bestIndex, newBest := ScanRound(data, dataset.occurrences, outliers, bestEntropy, entropy);
      if bestIndex.None? {
        StuckRound(data, d, entropy, trace, bests, outliers, dataset.occurrences);
        return Failure(NoImprovement), trace, bests;
      }
      var w := bestIndex.value;
      CommitRound(data, d, entropy, trace, bests, outliers, dataset.occurrences, w, newBest);
      bestEntropy := newBest;
      outliers := outliers + {w};
      trace, bests := trace + [w], bests + [newBest];
      dataset.occurrences := MarkOutlier(data, dataset.occurrences, w);
    }
    r := Success(Outcome(outliers, bestEntropy));
  }

  /** Before the first round: nothing is marked and the live table counts
      every row. */
  lemma StartRun(data: Data, d: nat, entropy: EntropyFn, occ: Occurrences)
    requires Uniform(data, d) && occ == Tally(data, d)
    ensures Marked([]) == {}
    ensures ValidTrace(data, d, entropy, [], [entropy(occ, |data|)])
    ensures occ == RoundTable(data, d, [])
  {
    ActiveIdentity(data);
    assert Marked([]) == {};
  }

  /** Nothing marked leaves every row. */
  lemma {:induction false} ActiveIdentity(data: Data)
    ensures Active(data, {}) == data
    decreases |data|
  {
    if data != [] {
      ActiveIdentity(data[..|data| - 1]);
      assert data == data[..|data| - 1] + [data[|data| - 1]];
    }
  }
}
