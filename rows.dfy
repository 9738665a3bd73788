/** The data matrix: rows of categorical string values (the `Data` alias of
    greedy_outlier_entropy.hpp), and the rows that remain once some of them
    have been marked as outliers. */
module Rows {

  /** One data point: its feature values, one per dimension. */
  type Row = seq<string>

  /** All data points, in file order. */
  type Data = seq<Row>

  /** Every row has exactly `d` dimensions. */
  ghost predicate Uniform(data: Data, d: nat)
  {
    forall p :: 0 <= p < |data| ==> |data[p]| == d
  }

  /** The rows whose index is not in `marked`, in their original order. */
  function Active(data: Data, marked: set<nat>): (r: Data)
    ensures |r| <= |data|
    ensures forall p :: 0 <= p < |r| ==> r[p] in data
    decreases |data|
  {
    if data == [] then []
    else
      var last := |data| - 1;
      Active(data[..last], marked) + (if last in marked then [] else [data[last]])
  }

  /** Extending the rows by one extends the active rows by that row, unless
      it is marked. */
  lemma ActivePrefix(data: Data, marked: set<nat>, index: nat)
    requires index < |data|
    ensures Active(data[..index + 1], marked)
         == Active(data[..index], marked) + (if index in marked then [] else [data[index]])
  {
    assert data[..index + 1][..index] == data[..index];
  }

  /** Only the marks on indices of existing rows matter. */
  lemma {:induction false} ActiveAgree(data: Data, marked: set<nat>, other: set<nat>)
    requires forall p: nat :: p < |data| ==> (p in marked <==> p in other)
    ensures Active(data, marked) == Active(data, other)
    decreases |data|
  {
    if data != [] {
      ActiveAgree(data[..|data| - 1], marked, other);
    }
  }

  /** Rows drawn from uniform data are uniform. */
  lemma ActiveUniform(data: Data, marked: set<nat>, d: nat)
    requires Uniform(data, d)
    ensures Uniform(Active(data, marked), d)
  {
    var r := Active(data, marked);
    forall p | 0 <= p < |r| ensures |r[p]| == d {
      assert r[p] in data;
    }
  }

  /** An unmarked row is still among the active rows. */
  lemma {:induction false} UnmarkedIsActive(data: Data, marked: set<nat>, j: nat)
    requires j < |data| && j !in marked
    ensures data[j] in Active(data, marked)
    decreases |data|
  {
    var last := |data| - 1;
    if j < last {
      UnmarkedIsActive(data[..last], marked, j);
      assert data[..last][j] == data[j];
    } else {
      assert Active(data, marked) == Active(data[..last], marked) + [data[last]];
    }
  }

  /** Marking k distinct existing rows leaves exactly |data| - k rows. */
  lemma {:induction false} ActiveCount(data: Data, marked: set<nat>)
    requires forall j :: j in marked ==> j < |data|
    ensures |Active(data, marked)| == |data| - |marked|
    decreases |data|
  {
    if data != [] {
      var last := |data| - 1;
      var rest := marked - {last};
      ActiveAgree(data[..last], marked, rest);
      ActiveCount(data[..last], rest);
      if last in marked {
        assert marked == rest + {last};
      } else {
        assert rest == marked;
      }
    } else {
      assert marked == {} by {
        if j :| j in marked { assert false; }
      }
    }
  }
}
