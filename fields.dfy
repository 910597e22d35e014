/**
 * Column extraction from one delimited row: `get_data_at_column` and the
 * library's `Error` type.
 *
 * Columns are numbered from 1. The text of the field is turned into a number
 * by `parse`, which stands for `str::parse::<f32>` (`None` when the text is
 * not a float); float text parsing itself is not part of this model.
 */
module Fields {
  import opened Wrappers
  import opened Strings

  /** Why a column number was refused. */
  datatype ColumnFault =
    | NotOneBased   // column 0: the first column is 1
    | OutOfBounds   // the row has fewer fields than the column number

  /**
   * The library's `Error`. The source carries a formatted message; the model
   * keeps what the message is built from.
   */
  datatype Error =
    | InvalidRow(field: string)                      // the field did not parse
    | InvalidColumn(column: nat, fault: ColumnFault)

  /**
   * `get_data_at_column(buffer, column, delim)`: the number in field `column`
   * (counting from 1) of `buffer` split on `delim`. Its three failures are
   * column 0, a column past the last field, and a field `parse` rejects.
   */
  function GetDataAtColumn(buffer: string, column: nat, delim: string, parse: string -> Option<real>): (r: Result<real, Error>)
    requires |delim| > 0
    ensures r == Err(InvalidColumn(column, NotOneBased)) <==> column == 0
    ensures r == Err(InvalidColumn(column, OutOfBounds)) <==> column > |Split(buffer, delim)|
    ensures r.Err? && r.error.InvalidRow? <==>
      1 <= column <= |Split(buffer, delim)| && parse(Split(buffer, delim)[column - 1]).None?
    ensures r.Err? && r.error.InvalidRow? ==> r.error.field == Split(buffer, delim)[column - 1]
    ensures r.Ok? <==> 1 <= column <= |Split(buffer, delim)| && parse(Split(buffer, delim)[column - 1]).Some?
    ensures r.Ok? <==> 1 <= column <= |Split(buffer, delim)| && parse(Split(buffer, delim)[column - 1]).Some?
    ensures r.Ok? ==> 1 <= column <= |Split(buffer, delim)| && parse(Split(buffer, delim)[column - 1]) == Some(r.value)
  {
    if column == 0 then Err(InvalidColumn(column, NotOneBased))
    else
      var fields := Split(buffer, delim);
      var index := column - 1;
      if index >= |fields| then Err(InvalidColumn(column, OutOfBounds))
      else match parse(fields[index])
        case None => Err(InvalidRow(fields[index]))
        case Some(v) => Ok(v)
  }

  /**
   * A successful extraction reads a field of the row: cutting the row at
   * the delimiters gives fields that rejoin into the row, none of them
   * contains the delimiter, and the value is the parse of field `column - 1`.
   */
  lemma GetDataAtColumnReadsField(buffer: string, column: nat, delim: string, parse: string -> Option<real>)
    requires |delim| > 0
    requires GetDataAtColumn(buffer, column, delim, parse).Ok?
    ensures var fields := Split(buffer, delim);
      && Join(fields, delim) == buffer
      && (forall k :: 0 <= k < |fields| ==> !Contains(fields[k], delim))
      && 1 <= column <= |fields|
      && parse(fields[column - 1]) == Some(GetDataAtColumn(buffer, column, delim, parse).value)
  {
    JoinSplit(buffer, delim);
    SplitFieldsAvoidPattern(buffer, delim);
  }

  /**
   * For a row built by joining fields with a one-character delimiter that
   * none of them contains, the extraction reads exactly the given fields:
   * columns 1 to `|fields|` exist, others are refused.
   */
  lemma {:induction false} GetDataAtColumnOfJoin(fields: seq<string>, c: char, column: nat, parse: string -> Option<real>)
    requires |fields| >= 1
    requires forall k :: 0 <= k < |fields| ==> !Contains(fields[k], [c])
    ensures var r := GetDataAtColumn(Join(fields, [c]), column, [c], parse);
      && (column == 0 ==> r == Err(InvalidColumn(column, NotOneBased)))
      && (column > |fields| ==> r == Err(InvalidColumn(column, OutOfBounds)))
      && (1 <= column <= |fields| && parse(fields[column - 1]).None? ==> r == Err(InvalidRow(fields[column - 1])))
      && (1 <= column <= |fields| && parse(fields[column - 1]).Some? ==> r == Ok(parse(fields[column - 1]).value))
  {
    SplitJoin(fields, c);
  }

  /** The first column of a row without the delimiter is the whole row. */
  lemma {:induction false} SingleFieldRow(buffer: string, delim: string, parse: string -> Option<real>)
    requires |delim| > 0 && !Contains(buffer, delim)
    ensures GetDataAtColumn(buffer, 1, delim, parse) ==
      match parse(buffer) case None => Err(InvalidRow(buffer)) case Some(v) => Ok(v)
    ensures GetDataAtColumn(buffer, 2, delim, parse) == Err(InvalidColumn(2, OutOfBounds))
  {
    assert FindFrom(buffer, delim, 0).None?;
  }

  /** Column 2 of `1.0,2.0,3.0` is the text `2.0`. */
  lemma SecondOfThree(parse: string -> Option<real>)
    ensures GetDataAtColumn("1.0,2.0,3.0", 2, ",", parse) ==
      match parse("2.0") case None => Err(InvalidRow("2.0")) case Some(v) => Ok(v)
  {
    var fs := ["1.0", "2.0", "3.0"];
    JoinCons("2.0", ["3.0"], ",");
    assert ["2.0"] + ["3.0"] == ["2.0", "3.0"];
    JoinCons("1.0", ["2.0", "3.0"], ",");
    assert ["1.0"] + ["2.0", "3.0"] == fs;
    assert Join(fs, ",") == "1.0,2.0,3.0";
    ContainsChar("1.0", ',');
    ContainsChar("2.0", ',');
    ContainsChar("3.0", ',');
    GetDataAtColumnOfJoin(fs, ',', 2, parse);
  }

  /** A row of one field has no column 2. */
  lemma NoSecondColumn(parse: string -> Option<real>)
    ensures GetDataAtColumn("4.0", 2, ",", parse) == Err(InvalidColumn(2, OutOfBounds))
  {
    ContainsChar("4.0", ',');
    GetDataAtColumnOfJoin(["4.0"], ',', 2, parse);
  }

  /** An unparsable field makes the row invalid. */
  lemma UnparsableField(parse: string -> Option<real>)
    requires parse("not_a_float").None?
    ensures GetDataAtColumn("4.0,not_a_float,6.0", 2, ",", parse) == Err(InvalidRow("not_a_float"))
  {
    var fs := ["4.0", "not_a_float", "6.0"];
    JoinCons("not_a_float", ["6.0"], ",");
    assert ["not_a_float"] + ["6.0"] == ["not_a_float", "6.0"];
    JoinCons("4.0", ["not_a_float", "6.0"], ",");
    assert ["4.0"] + ["not_a_float", "6.0"] == fs;
    assert Join(fs, ",") == "4.0,not_a_float,6.0";
    ContainsChar("4.0", ',');
    ContainsChar("not_a_float", ',');
    ContainsChar("6.0", ',');
    GetDataAtColumnOfJoin(fs, ',', 2, parse);
  }
}
