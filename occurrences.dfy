/** The occurrence table: for every dimension, how many active rows carry
    each value (the `Occurences` alias of greedy_outlier_entropy.hpp), how it
    is counted in `read` and how `mark_outlier` takes one row out of it. */
module OccurrenceTable {
  import opened Rows

  /** Value -> number of active rows holding it, for one dimension. */
  type Counts = map<string, nat>

  /** One count map per dimension. */
  type Occurrences = seq<Counts>

  /** Largest std::size_t; decrementing a count of 0 wraps around to it. */
  const SizeMax: nat := 0xFFFF_FFFF_FFFF_FFFF

  /** The i-th field of every row. */
  function Column(rows: Data, i: nat): (c: seq<string>)
    requires forall p :: 0 <= p < |rows| ==> i < |rows[p]|
  {
    seq(|rows|, p requires 0 <= p < |rows| => rows[p][i])
  }

  /** How often each value occurs in a column; absent values have no entry. */
  function CountsOf(c: seq<string>): (m: Counts)
  {
    map v | v in c :: multiset(c)[v]
  }

  /** The reference table: dimension i maps each value to the number of rows
      whose i-th field is that value, and holds no other keys. */
  function Tally(rows: Data, d: nat): (t: Occurrences)
    requires Uniform(rows, d)
    ensures |t| == d
  {
    seq(d, i requires 0 <= i < d => CountsOf(Column(rows, i)))
  }

  /** `++counts[value]`: operator[] inserts 0 for a missing key first. */
  function Increment(m: Counts, v: string): (r: Counts)
  {
    m[v := (if v in m then m[v] else 0) + 1]
  }

  /** `--counts[value]` followed by the erase of a count that reached 0. A
      missing key is inserted as 0 by operator[] and the size_t decrement
      wraps it to SizeMax, which is kept. */
  function Decrement(m: Counts, v: string): (r: Counts)
  {
    var c := if v in m then m[v] else 0;
    var c' := if c == 0 then SizeMax else c - 1;
    if c' == 0 then m - {v} else m[v := c']
  }

  /** The table `mark_outlier` returns: every dimension of the row lowered. */
  function RemoveRow(occ: Occurrences, row: Row): (r: Occurrences)
    requires |row| <= |occ|
  {
    seq(|occ|, i requires 0 <= i < |occ| => if i < |row| then Decrement(occ[i], row[i]) else occ[i])
  }

  /** Every value of the row is present with a positive count. */
  ghost predicate Holds(occ: Occurrences, row: Row)
  {
    |row| <= |occ| && forall i :: 0 <= i < |row| ==> row[i] in occ[i] && occ[i][row[i]] >= 1
  }

  /** No entry has a zero count. */
  ghost predicate Positive(occ: Occurrences)
  {
    forall i, v :: 0 <= i < |occ| && v in occ[i] ==> occ[i][v] > 0
  }

  /** The table is Positive and counts row values: a value is present in
      dimension i exactly when some row carries it there, with the number
      of such rows as its count. */
  lemma TallyCounts(rows: Data, d: nat, i: nat, v: string)
    requires Uniform(rows, d) && i < d
    ensures v in Tally(rows, d)[i] <==> exists p :: 0 <= p < |rows| && rows[p][i] == v
    ensures v in Tally(rows, d)[i] ==> Tally(rows, d)[i][v] == multiset(Column(rows, i))[v] > 0
  {
    var c := Column(rows, i);
    if v in c {
      var p :| 0 <= p < |c| && c[p] == v;
      assert rows[p][i] == v;
    }
    if p :| 0 <= p < |rows| && rows[p][i] == v {
      assert c[p] == v;
    }
  }

  /** Counting one more value into a column is `++counts[value]`. */
  lemma CountsOfSnoc(c: seq<string>, x: string)
    ensures CountsOf(c + [x]) == Increment(CountsOf(c), x)
  {
    var lhs, rhs := CountsOf(c + [x]), Increment(CountsOf(c), x);
    assert multiset(c + [x]) == multiset(c) + multiset{x};
    forall v ensures v in lhs <==> v in rhs {
      assert v in c + [x] <==> v in c || v == x;
    }
  }

  /** Removing one occurrence of `x` from a column is the decrement-and-erase
      of `mark_outlier`, as long as `x` occurs in the column. */
  lemma CountsOfRemove(c: seq<string>, rest: seq<string>, x: string)
    requires multiset(c) == multiset(rest) + multiset{x}
    ensures Decrement(CountsOf(c), x) == CountsOf(rest)
  {
    assert x in multiset(c);
    var lhs, rhs := Decrement(CountsOf(c), x), CountsOf(rest);
    forall v ensures v in lhs <==> v in rhs {
      assert v in rest <==> v in multiset(rest);
      assert v in c <==> v in multiset(c);
    }
    forall v | v in lhs ensures lhs[v] == rhs[v] {
      assert v in rest <==> v in multiset(rest);
    }
  }

  lemma ColumnAppend(a: Data, b: Data, i: nat)
    requires forall p :: 0 <= p < |a| ==> i < |a[p]|
    requires forall p :: 0 <= p < |b| ==> i < |b[p]|
    ensures Column(a + b, i) == Column(a, i) + Column(b, i)
  {
  }

  /** Adding a row to the counted rows increments every dimension. */
  lemma TallySnoc(rows: Data, d: nat, row: Row)
    requires Uniform(rows, d) && |row| == d
    ensures Uniform(rows + [row], d)
    ensures forall i :: 0 <= i < d ==> Tally(rows + [row], d)[i] == Increment(Tally(rows, d)[i], row[i])
  {
    var all := rows + [row];
    assert Uniform(all, d);
    forall i | 0 <= i < d ensures Tally(all, d)[i] == Increment(Tally(rows, d)[i], row[i]) {
      ColumnAppend(rows, [row], i);
      assert Column([row], i) == [row[i]];
      CountsOfSnoc(Column(rows, i), row[i]);
      assert Tally(all, d)[i] == CountsOf(Column(all, i));
      assert Tally(rows, d)[i] == CountsOf(Column(rows, i));
    }
  }

  /** The multiset of a column is additive over concatenated rows. */
  lemma ColumnMultiset(a: Data, b: Data, i: nat)
    requires forall p :: 0 <= p < |a| ==> i < |a[p]|
    requires forall p :: 0 <= p < |b| ==> i < |b[p]|
    ensures multiset(Column(a + b, i)) == multiset(Column(a, i)) + multiset(Column(b, i))
  {
    ColumnAppend(a, b, i);
  }

  /** The values in dimension i of the rows left after marking, as a bag. */
  ghost function ActiveBag(data: Data, d: nat, marked: set<nat>, i: nat): (bag: multiset<string>)
    requires Uniform(data, d) && i < d
  {
    ActiveUniform(data, marked, d);
    multiset(Column(Active(data, marked), i))
  }

  /** The bag of the rows before the last, plus the last row unless marked. */
  lemma ActiveBagSnoc(data: Data, d: nat, marked: set<nat>, i: nat)
    requires Uniform(data, d) && i < d && data != []
    ensures Uniform(data[..|data| - 1], d)
    ensures ActiveBag(data, d, marked, i)
         == ActiveBag(data[..|data| - 1], d, marked, i)
            + (if |data| - 1 in marked then multiset{} else multiset{data[|data| - 1][i]})
  {
    var last := |data| - 1;
    var pre := data[..last];
    assert Uniform(pre, d);
    ActiveUniform(pre, marked, d);
    var tail: Data := if last in marked then [] else [data[last]];
    assert Active(data, marked) == Active(pre, marked) + tail;
    ColumnMultiset(Active(pre, marked), tail, i);
  }

  /** Dropping row j from the active rows drops one copy of its i-th field
      from the column. */
  lemma {:induction false} ActiveColumnRemove(data: Data, d: nat, marked: set<nat>, j: nat, i: nat)
    requires Uniform(data, d) && i < d && j < |data| && j !in marked
    ensures ActiveBag(data, d, marked, i) == ActiveBag(data, d, marked + {j}, i) + multiset{data[j][i]}
    decreases |data|
  {
    var last := |data| - 1;
    var pre := data[..last];
    ActiveBagSnoc(data, d, marked, i);
    ActiveBagSnoc(data, d, marked + {j}, i);
    if j == last {
      ActiveAgree(pre, marked, marked + {j});
    } else {
      ActiveColumnRemove(pre, d, marked, j, i);
      assert pre[j] == data[j];
    }
  }

  /** The commit step of the selector: taking row j out of the table of the
      unmarked rows gives the table of the rows left after marking j too. */
  lemma CommitRemoval(data: Data, d: nat, marked: set<nat>, j: nat)
    requires Uniform(data, d) && j < |data| && j !in marked
    ensures Uniform(Active(data, marked), d) && Uniform(Active(data, marked + {j}), d)
    ensures Tally(Active(data, marked + {j}), d) == RemoveRow(Tally(Active(data, marked), d), data[j])
  {
    ActiveUniform(data, marked, d);
    ActiveUniform(data, marked + {j}, d);
    var before, after := Active(data, marked), Active(data, marked + {j});
    forall i | 0 <= i < d
      ensures Tally(after, d)[i] == RemoveRow(Tally(before, d), data[j])[i]
    {
      ActiveColumnRemove(data, d, marked, j, i);
      CountsOfRemove(Column(before, i), Column(after, i), data[j][i]);
    }
  }

  /** An unmarked row's values are all present in the table of the unmarked
      rows with a count of at least one, so `mark_outlier` never reaches its
      wrap-around branch on it. */
  lemma UnmarkedHolds(data: Data, d: nat, marked: set<nat>, j: nat)
    requires Uniform(data, d) && j < |data| && j !in marked
    ensures Uniform(Active(data, marked), d)
    ensures Holds(Tally(Active(data, marked), d), data[j])
  {
    ActiveUniform(data, marked, d);
    var rows := Active(data, marked);
    UnmarkedIsActive(data, marked, j);
    var p :| 0 <= p < |rows| && rows[p] == data[j];
    forall i | 0 <= i < d ensures data[j][i] in Tally(rows, d)[i] {
      assert Column(rows, i)[p] == data[j][i];
    }
  }

  /** What `mark_outlier` does to each dimension, given that the row's values
      are present: the row's value loses exactly one, and is erased when it
      reaches zero; every other value, and every other dimension, is kept. */
  lemma RemoveRowEffect(occ: Occurrences, row: Row, i: nat, v: string)
    requires Holds(occ, row) && i < |occ|
    ensures |RemoveRow(occ, row)| == |occ|
    ensures i < |row| && v == row[i] && occ[i][v] == 1 ==> v !in RemoveRow(occ, row)[i]
    ensures i < |row| && v == row[i] && occ[i][v] > 1 ==>
              v in RemoveRow(occ, row)[i] && RemoveRow(occ, row)[i][v] == occ[i][v] - 1
    ensures (i >= |row| || v != row[i]) ==>
              (v in RemoveRow(occ, row)[i] <==> v in occ[i]) &&
              (v in occ[i] ==> RemoveRow(occ, row)[i][v] == occ[i][v])
  {
  }

  /** Removing a present row keeps a table free of zero counts. */
  lemma RemoveRowPositive(occ: Occurrences, row: Row)
    requires Positive(occ) && Holds(occ, row)
    ensures Positive(RemoveRow(occ, row))
  {
  }

  /** Sum of all counts of one dimension. */
  ghost function Total(m: Counts): (sum: nat)
    decreases |m|
  {
    if m == map[] then 0
    else
      var v :| v in m;
      m[v] + Total(m - {v})
  }

  /** The sum does not depend on the key it is unfolded at. */
  lemma {:induction false} TotalRemove(m: Counts, v: string)
    requires v in m
    ensures Total(m) == m[v] + Total(m - {v})
    decreases |m|
  {
    var w :| w in m && Total(m) == m[w] + Total(m - {w});
    if w != v {
      TotalRemove(m - {w}, v);
      TotalRemove(m - {v}, w);
      assert m - {w} - {v} == m - {v} - {w};
    }
  }

  lemma TotalIncrement(m: Counts, v: string)
    ensures Total(Increment(m, v)) == Total(m) + 1
  {
    var inc := Increment(m, v);
    TotalRemove(inc, v);
    if v in m {
      TotalRemove(m, v);
      assert inc - {v} == m - {v};
    } else {
      assert inc - {v} == m;
    }
  }

  /** The counts of any one dimension sum to the number of rows. */
  lemma {:induction false} DimensionSum(rows: Data, d: nat, i: nat)
    requires Uniform(rows, d) && i < d
    ensures Total(Tally(rows, d)[i]) == |rows|
    decreases |rows|
  {
    if rows == [] {
      assert Tally(rows, d)[i] == map[];
    } else {
      var last := |rows| - 1;
      assert Uniform(rows[..last], d);
      DimensionSum(rows[..last], d, i);
      assert rows == rows[..last] + [rows[last]];
      TallySnoc(rows[..last], d, rows[last]);
      TotalIncrement(Tally(rows[..last], d)[i], rows[last][i]);
    }
  }

  /** Every count of the table lies between 1 and the number of rows. */
  lemma TallyBounded(rows: Data, d: nat)
    requires Uniform(rows, d)
    ensures forall i, v :: 0 <= i < d && v in Tally(rows, d)[i] ==> 0 < Tally(rows, d)[i][v] <= |rows|
  {
    forall i, v | 0 <= i < d && v in Tally(rows, d)[i]
      ensures 0 < Tally(rows, d)[i][v] <= |rows|
    {
      DimensionSum(rows, d, i);
      TotalRemove(Tally(rows, d)[i], v);
    }
  }

  /** `mark_outlier`: a copy of the table with the row at `index` taken out.
      The table passed in is a value and is left as it was. */
  method MarkOutlier(data: Data, occurrences: Occurrences, index: nat) returns (marked: Occurrences)
    requires index < |data| && |data[index]| <= |occurrences|
    ensures marked == RemoveRow(occurrences, data[index])
  {
    var row := data[index];
    marked := occurrences;
    for i := 0 to |row|
      invariant |marked| == |occurrences|
      invariant forall i' :: 0 <= i' < i ==> marked[i'] == Decrement(occurrences[i'], row[i'])
      invariant forall i' :: i <= i' < |marked| ==> marked[i'] == occurrences[i']
    {
      var value := row[i];
      var counts: Counts := marked[i];
      var c: nat := if value in counts then counts[value] else 0;
      counts := counts[value := if c == 0 then SizeMax else c - 1];
      if counts[value] == 0 {
        counts := counts - {value};
      }
      marked := marked[i := counts];
    }
  }

  /** The counting loop of `read`: one empty map per dimension, then
      `++occurences[i][value]` for every row and dimension. */
  method CountOccurrences(data: Data, dimensions: nat) returns (occurrences: Occurrences)
    requires Uniform(data, dimensions)
    ensures occurrences == Tally(data, dimensions)
  {
    occurrences := seq(dimensions, _ => map[]);
    for p := 0 to |data|
      invariant Uniform(data[..p], dimensions)
      invariant occurrences == Tally(data[..p], dimensions)
    {
      var row := data[p];
      ghost var before := occurrences;
      for i := 0 to dimensions
        invariant |occurrences| == dimensions
        invariant forall i' :: 0 <= i' < i ==> occurrences[i'] == Increment(before[i'], row[i'])
        invariant forall i' :: i <= i' < dimensions ==> occurrences[i'] == before[i']
      {
        var value := row[i];
        var counts: Counts := occurrences[i];
        counts := counts[value := (if value in counts then counts[value] else 0) + 1];
        occurrences := occurrences[i := counts];
      }
      TallySnoc(data[..p], dimensions, row);
      assert data[..p + 1] == data[..p] + [row];
    }
    assert data[..|data|] == data;
  }

  /** The program's `Dataset`: the rows and the live occurrence table, which
      the selector updates in place. */
  class Dataset {
    var data: Data
    var occurrences: Occurrences

    /** The table counts every row: the state `read` returns, before any
        row is marked. */
    ghost predicate CountsAllRows()
      reads this
    {
      Uniform(data, |occurrences|) && occurrences == Tally(data, |occurrences|)
    }

    constructor (data: Data, occurrences: Occurrences)
      ensures this.data == data && this.occurrences == occurrences
    {
      this.data := data;
      this.occurrences := occurrences;
    }
  }
}
