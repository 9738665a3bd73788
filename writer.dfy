/** `write_data`: the rows that are not outliers, in their original order,
    each written as its fields joined by commas and ended by a newline. The
    output file is modelled as the text written to it. */
module Writer {
  import opened Rows
  import opened Reader
  import opened Selector

  /** The fields separated by commas, as the `write` lambda emits them: the
      first field alone, every later one after a comma. */
  function Join(fields: Row): (line: string)
    decreases |fields|
  {
    if |fields| == 0 then ""
    else if |fields| == 1 then fields[0]
    else Join(fields[..|fields| - 1]) + "," + fields[|fields| - 1]
  }

  /** The lines of a list of rows, each ended by a newline. */
  function Serialize(rows: Data): (text: string)
    decreases |rows|
  {
    if rows == [] then ""
    else Serialize(rows[..|rows| - 1]) + Join(rows[|rows| - 1]) + "\n"
  }

  /** The `write` lambda: one row's line, using the `first` flag. */
  method WriteRow(fields: Row) returns (line: string)
    ensures line == Join(fields) + "\n"
  {
    line := "";
    var first := true;
    for i := 0 to |fields|
      invariant first <==> i == 0
      invariant line == Join(fields[..i])
    {
      var separator := if first then "" else ",";
      first := false;
      line := line + separator + fields[i];
      assert fields[..i + 1][..i] == fields[..i];
    }
    assert fields[..|fields|] == fields;
    line := line + "\n";
  }

  /** `write_data`: walks the rows with a running index and writes those
      whose index is not an outlier. */
  method WriteData(result: Outcome, data: Data) returns (output: string)
    ensures output == Serialize(Active(data, result.outliers))
  {
    output := "";
    var index := 0;
    while index < |data|
      invariant 0 <= index <= |data|
      invariant output == Serialize(Active(data[..index], result.outliers))
    {
      var x := data[index];
      ghost var before := Active(data[..index], result.outliers);
      ActivePrefix(data, result.outliers, index);
      if index !in result.outliers {
        var line := WriteRow(x);
        SerializeSnoc(before, x);
        assert output + line == output + Join(x) + "\n";
        output := output + line;
      } else {
        assert before + [] == before;
      }
      index := index + 1;
    }
    assert data[..index] == data;
  }

  lemma SerializeSnoc(rows: Data, row: Row)
    ensures Serialize(rows + [row]) == Serialize(rows) + Join(row) + "\n"
  {
    assert (rows + [row])[..|rows|] == rows;
  }

  /** Join seen from the front: the first field, a comma, the rest. */
  lemma {:induction false} JoinCons(first: string, rest: Row)
    requires rest != []
    ensures Join([first] + rest) == first + "," + Join(rest)
    decreases |rest|
  {
    var all := [first] + rest;
    if |rest| > 1 {
      var last := |rest| - 1;
      JoinCons(first, rest[..last]);
      assert all[..|all| - 1] == [first] + rest[..last];
    }
  }

  /** Serialize seen from the front: the first line, then the others. */
  lemma {:induction false} SerializeCons(row: Row, rows: Data)
    ensures Serialize([row] + rows) == Join(row) + "\n" + Serialize(rows)
    decreases |rows|
  {
    var all := [row] + rows;
    if rows == [] {
      assert all[..0] == [];
    } else {
      var last := |rows| - 1;
      SerializeCons(row, rows[..last]);
      assert all[..|all| - 1] == [row] + rows[..last];
    }
  }

  /** Reading back a joined row gives the row exactly when the row is empty
      or its last field is not empty (fields free of commas): a trailing
      empty field is lost, since a comma at the end of a line does not open a
      new field. */
  lemma {:induction false} SplitJoin(row: Row)
    requires forall f :: f in row ==> ',' !in f
    ensures Split(Join(row), ',') == row <==> (row == [] || row[|row| - 1] != "")
    decreases |row|
  {
    if |row| == 1 {
      assert Join(row) == row[0];
      if row[0] != "" {
        assert Split(row[0], ',') == [row[0]];
      }
    } else if |row| > 1 {
      var rest := row[1..];
      assert row == [row[0]] + rest;
      JoinCons(row[0], rest);
      SplitAfterToken(row[0], ',', Join(rest));
      SplitJoin(rest);
      assert rest[|rest| - 1] == row[|row| - 1];
      if Split(Join(row), ',') == row {
        assert Split(Join(rest), ',') == ([row[0]] + Split(Join(rest), ','))[1..];
      }
    }
  }

  /** The other direction, from a line of the input: rewriting the fields
      read from a line gives the line back exactly when the line is empty
      or does not end in a comma. */
  lemma {:induction false} JoinSplit(line: string)
    ensures Join(Split(line, ',')) == line <==> (line == [] || line[|line| - 1] != ',')
    decreases |line|
  {
    if line != [] && ',' in line {
      var p := Find(line, ',');
      var token, rest := line[..p], line[p + 1..];
      assert line == token + [','] + rest;
      SplitAfterToken(token, ',', rest);
      if rest == [] {
        assert Join(Split(line, ',')) == token;
      } else {
        var fields := Split(rest, ',');
        assert fields != [];
        JoinCons(token, fields);
        JoinSplit(rest);
        assert line[|line| - 1] == rest[|rest| - 1];
        if Join(Split(line, ',')) == line {
          assert Join(fields) == (token + "," + Join(fields))[p + 1..];
        }
      }
    }
  }

  /** A line ending in an empty field, `a,,`, is read as two fields and
      written back as `a,`, which reads as one field: the empty field is
      lost on the next read. */
  lemma TrailingEmptyFieldLost()
    ensures Split("a,,", ',') == ["a", ""]
    ensures Join(["a", ""]) == "a,"
    ensures Split("a,", ',') == ["a"]
  {
    SplitEmptyFields();
    SplitTrailingDelimiter("a", ',');
    assert "a" + [','] == "a,";
  }

  /** Fields that the file format can carry back: no comma, no newline, and
      no empty last field. */
  ghost predicate Readable(rows: Data)
  {
    forall p :: 0 <= p < |rows| ==>
      (forall f :: f in rows[p] ==> ',' !in f && '\n' !in f) &&
      (rows[p] == [] || rows[p][|rows[p]| - 1] != "")
  }

  lemma {:induction false} NoNewlineInJoin(row: Row)
    requires forall f :: f in row ==> '\n' !in f
    ensures '\n' !in Join(row)
    decreases |row|
  {
    if |row| > 1 {
      NoNewlineInJoin(row[..|row| - 1]);
    }
  }

  /** The lines of the text of some rows are the rows joined by commas. */
  lemma {:induction false} SplitSerialize(rows: Data)
    requires forall p :: 0 <= p < |rows| ==> forall f :: f in rows[p] ==> '\n' !in f
    ensures Split(Serialize(rows), '\n') == seq(|rows|, p requires 0 <= p < |rows| => Join(rows[p]))
    decreases |rows|
  {
    if rows != [] {
      var rest := rows[1..];
      assert rows == [rows[0]] + rest;
      SplitSerialize(rest);
      SerializeCons(rows[0], rest);
      NoNewlineInJoin(rows[0]);
      SplitAfterToken(Join(rows[0]), '\n', Serialize(rest));
    }
  }

  /** Parsing the text of a list of readable rows gives the rows back. */
  lemma ParseSerialize(rows: Data)
    requires Readable(rows)
    ensures ParseRows(Serialize(rows)) == rows
  {
    SplitSerialize(rows);
    var lines := Split(Serialize(rows), '\n');
    forall p | 0 <= p < |rows| ensures Split(lines[p], ',') == rows[p] {
      SplitJoin(rows[p]);
    }
  }

  /** What `write_data` writes reads back as the non-outlier rows, in order,
      and there are as many of them as rows minus outliers. */
  lemma WrittenRowsReadBack(result: Outcome, data: Data)
    requires Readable(data)
    requires forall j :: j in result.outliers ==> j < |data|
    ensures ParseRows(Serialize(Active(data, result.outliers))) == Active(data, result.outliers)
    ensures |Active(data, result.outliers)| == |data| - |result.outliers|
  {
    var kept := Active(data, result.outliers);
    forall p | 0 <= p < |kept|
      ensures (forall f :: f in kept[p] ==> ',' !in f && '\n' !in f) && (kept[p] == [] || kept[p][|kept[p]| - 1] != "")
    {
      assert kept[p] in data;
    }
    ParseSerialize(kept);
    ActiveCount(data, result.outliers);
  }
}
