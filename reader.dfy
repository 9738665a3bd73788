/** The loader `read`: the file's lines split at commas, the check that
    every row has as many dimensions as the first, and the counting of the
    initial occurrence table. The file itself is a parameter: its text, or
    None when it cannot be opened. */
module Reader {
  import opened Wrappers
  import opened Rows
  import opened OccurrenceTable

  datatype ReadError =
    | CannotRead        // the file could not be opened
    | EmptyData         // no line at all, so there is no first row
    | UnevenDimensions  // some row's field count differs from the first row's

  /** Position of the first `c` in `s`. */
  function Find(s: string, c: char): (p: nat)
    requires c in s
    ensures p < |s| && s[p] == c && c !in s[..p]
  {
    if s[0] == c then 0 else 1 + Find(s[1..], c)
  }

  /** The tokens that `while (std::getline(stream, token, delim))` yields:
      each call takes the characters up to the next delimiter and drops the
      delimiter; a call at the end of the input yields nothing. So an empty
      input gives no token, and a delimiter at the very end does not give an
      empty last token. */
  function Split(s: string, delim: char): (tokens: seq<string>)
    ensures forall t :: t in tokens ==> delim !in t
    decreases |s|
  {
    if s == [] then []
    else if delim in s then
      var p := Find(s, delim);
      [s[..p]] + Split(s[p + 1..], delim)
    else [s]
  }

  /** The rows of a file: its lines, each split at commas. */
  function ParseRows(text: string): (data: Data)
  {
    var lines := Split(text, '\n');
    seq(|lines|, j requires 0 <= j < |lines| => Split(lines[j], ','))
  }

  /** Splitting a text that starts with a token free of the delimiter, then
      the delimiter, yields that token and then the split of the rest. */
  lemma SplitAfterToken(token: string, delim: char, rest: string)
    requires delim !in token
    ensures Split(token + [delim] + rest, delim) == [token] + Split(rest, delim)
  {
    var s := token + [delim] + rest;
    assert s[|token|] == delim;
    var p := Find(s, delim);
    assert s[..|token|] == token;
    assert p == |token|;
    assert s[..p] == token;
    assert s[p + 1..] == rest;
  }

  /** A delimiter after a last token that is not empty ends that token
      instead of opening an empty one: the split does not change. */
  lemma {:induction false} SplitTrailingDelimiter(s: string, delim: char)
    requires s != [] && s[|s| - 1] != delim
    ensures Split(s + [delim], delim) == Split(s, delim)
    decreases |s|
  {
    if delim !in s {
      SplitAfterToken(s, delim, []);
      assert s + [delim] + [] == s + [delim];
      assert Split(s, delim) == [s];
    } else {
      var p := Find(s, delim);
      var token, rest := s[..p], s[p + 1..];
      assert s == token + [delim] + rest;
      assert s + [delim] == token + [delim] + (rest + [delim]);
      assert delim !in token;
      assert rest != [] && rest[|rest| - 1] == s[|s| - 1];
      SplitAfterToken(token, delim, rest);
      SplitAfterToken(token, delim, rest + [delim]);
      SplitTrailingDelimiter(rest, delim);
    }
  }

  /** A lone comma is one empty field, so a line can end in an empty field
      only when it ends in two delimiters. */
  lemma SplitEmptyFields()
    ensures Split(",", ',') == [""]
    ensures Split("a,,", ',') == ["a", ""]
  {
    assert Find(",", ',') == 0;
    assert ","[..0] == "" && ","[1..] == "";
    assert Split(",", ',') == [""];
    assert Find("a,,", ',') == 1;
    assert "a,,"[..1] == "a" && "a,,"[2..] == ",";
  }

  /** The dimension check of `read`: the number of fields of the first row,
      provided every row has that many (std::ranges::all_of). */
  method CheckDimensions(data: Data) returns (r: Result<nat, ReadError>)
    ensures |data| == 0 ==> r == Failure(EmptyData)
    ensures |data| > 0 ==> (r.Success? <==> Uniform(data, |data[0]|))
    ensures |data| > 0 && r.Success? ==> r.value == |data[0]|
    ensures |data| > 0 && r.Failure? ==> r.error == UnevenDimensions
  {
    if |data| == 0 {
      return Failure(EmptyData);
    }
    var dimensions := |data[0]|;
    var p := 0;
    while p < |data|
      invariant 0 <= p <= |data|
      invariant Uniform(data[..p], dimensions)
    {
      if |data[p]| != dimensions {
        return Failure(UnevenDimensions);
      }
      p := p + 1;
    }
    assert data[..p] == data;
    r := Success(dimensions);
  }

  /** `read`: None stands for a file that could not be opened. The data and
      the table of the returned dataset satisfy its invariant: every row has
      the table's number of dimensions and the table counts every row. */
  method Read(file: Option<string>) returns (r: Result<Dataset, ReadError>)
    ensures file.None? ==> r.Failure? && r.error == CannotRead
    ensures file.Some? && ParseRows(file.value) == [] ==> r.Failure? && r.error == EmptyData
    ensures file.Some? && ParseRows(file.value) != [] ==>
              (r.Success? <==> Uniform(ParseRows(file.value), |ParseRows(file.value)[0]|))
    ensures file.Some? && ParseRows(file.value) != [] && r.Failure? ==> r.error == UnevenDimensions
    ensures r.Success? ==>
              file.Some? && fresh(r.value) && r.value.data == ParseRows(file.value) &&
              |r.value.occurrences| == |r.value.data[0]| && r.value.CountsAllRows()
  {
    if file.None? {
      return Failure(CannotRead);
    }
    var data := ParseRows(file.value);
    var checked := CheckDimensions(data);
    if checked.Failure? {
      return Failure(checked.error);
    }
    var dimensions := checked.value;
    var occurrences := CountOccurrences(data, dimensions);
    var dataset := new Dataset(data, occurrences);
    r := Success(dataset);
  }
}
