/** The shape of the entropy estimator: a sum over dimensions, and within a
    dimension over the values present, of a per-entry term of the count and
    the number of active rows. In the program the term is -p*log2(p) with
    p = count / active rows, computed in double precision; here it is a
    parameter, since nothing below depends on what it is. */
module Entropy {
  import opened Rows
  import opened OccurrenceTable

  /** The contribution of one entry: (count, active rows) -> bits. */
  type Term = (nat, nat) -> real

  /** Sum of the term over the entries of one dimension. */
  ghost function DimensionEntropy(term: Term, m: Counts, n: nat): (bits: real)
    decreases |m|
  {
    if m == map[] then 0.0
    else
      var v :| v in m;
      term(m[v], n) + DimensionEntropy(term, m - {v}, n)
  }

  /** Sum over all dimensions: the estimator assumes the features are
      independent and adds up their marginal entropies. */
  ghost function FactorizedEntropy(term: Term, occ: Occurrences, n: nat): (bits: real)
    decreases |occ|
  {
    if occ == [] then 0.0
    else FactorizedEntropy(term, occ[..|occ| - 1], n) + DimensionEntropy(term, occ[|occ| - 1], n)
  }

  /** Every count is a frequency among `n` rows: between 1 and n. */
  ghost predicate Frequencies(occ: Occurrences, n: nat)
  {
    forall i, v :: 0 <= i < |occ| && v in occ[i] ==> 0 < occ[i][v] <= n
  }

  /** -p*log2(p) is non-negative for every probability 0 < p <= 1. */
  ghost predicate NonNegativeOnProbabilities(term: Term, n: nat)
  {
    forall c: nat :: 0 < c <= n ==> term(c, n) >= 0.0
  }

  lemma {:induction false} DimensionEntropyNonNegative(term: Term, m: Counts, n: nat)
    requires NonNegativeOnProbabilities(term, n)
    requires forall v :: v in m ==> 0 < m[v] <= n
    ensures DimensionEntropy(term, m, n) >= 0.0
    decreases |m|
  {
    if m != map[] {
      var v :| v in m && DimensionEntropy(term, m, n) == term(m[v], n) + DimensionEntropy(term, m - {v}, n);
      DimensionEntropyNonNegative(term, m - {v}, n);
    }
  }

  /** The estimate is never negative on a table of frequencies. */
  lemma {:induction false} EntropyNonNegative(term: Term, occ: Occurrences, n: nat)
    requires NonNegativeOnProbabilities(term, n)
    requires Frequencies(occ, n)
    ensures FactorizedEntropy(term, occ, n) >= 0.0
    decreases |occ|
  {
    if occ != [] {
      var last := |occ| - 1;
      assert Frequencies(occ[..last], n);
      EntropyNonNegative(term, occ[..last], n);
      DimensionEntropyNonNegative(term, occ[last], n);
    }
  }

  /** The table of the rows left after any marking holds frequencies among
      those rows, so its entropy is never negative. */
  lemma ActiveEntropyNonNegative(term: Term, data: Data, d: nat, marked: set<nat>)
    requires Uniform(data, d)
    requires NonNegativeOnProbabilities(term, |Active(data, marked)|)
    ensures Uniform(Active(data, marked), d)
    ensures FactorizedEntropy(term, Tally(Active(data, marked), d), |Active(data, marked)|) >= 0.0
  {
    ActiveUniform(data, marked, d);
    TallyBounded(Active(data, marked), d);
    EntropyNonNegative(term, Tally(Active(data, marked), d), |Active(data, marked)|);
  }

  /** A table with no entries has entropy exactly 0, whatever the term and
      the row count: no term is ever evaluated. */
  lemma {:induction false} EmptyTableNoEntropy(term: Term, occ: Occurrences, n: nat)
    requires forall i :: 0 <= i < |occ| ==> occ[i] == map[]
    ensures FactorizedEntropy(term, occ, n) == 0.0
    decreases |occ|
  {
    if occ != [] {
      EmptyTableNoEntropy(term, occ[..|occ| - 1], n);
    }
  }

  /** The last round of a run with k equal to the number of rows: one row is
      left, removing it empties every dimension, and the round scores it over
      0 remaining rows at an entropy of exactly 0. */
  lemma LastRoundScore(term: Term, data: Data, d: nat, marked: set<nat>, j: nat)
    requires Uniform(data, d) && j < |data| && j !in marked
    requires forall m :: m in marked ==> m < |data|
    requires |marked| + 1 == |data|
    ensures Uniform(Active(data, marked), d)
    ensures RemoveRow(Tally(Active(data, marked), d), data[j]) == Tally([], d)
    ensures FactorizedEntropy(term, Tally([], d), 0) == 0.0
  {
    CommitRemoval(data, d, marked, j);
    ActiveCount(data, marked + {j});
    assert Active(data, marked + {j}) == [];
    EmptyTableNoEntropy(term, Tally([], d), 0);
  }
}
