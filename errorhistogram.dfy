/** The readers and error statistics of Scripts/python/error_histogram.py.
    A file is the list of lines `readlines()` returns; each reader builds one
    row per line, as the script's nested loops build `result`. */
module ErrorHistogram {
  import opened Numeric
  import opened Results
  import opened TextOps
  import opened HexFixedPoint

  /** Width of one packed value in a line of the expected-output file. */
  const TokenWidth: nat := 4

  /** The dictionary `new_result_line` built for one line: its 'index'
      entry, and its entry "col_j" as element `j` of `cols`. */
  datatype Row<K> = Row(index: K, cols: seq<real>)

  // ---------------------------------------------------------------------
  // get_expected_values: packed hex words, one memory row per line

  /** The tokens of an expected-output line in column order: the stripped
      line cut into chunks of four characters, the chunk list reversed. Every
      token is non-empty and only col_0 may be short; read back in reverse,
      the tokens spell the stripped line. */
  function ExpectedTokens(line: string): (ts: seq<string>)
    ensures forall j :: 0 <= j < |ts| ==> 0 < |ts[j]| <= TokenWidth
    ensures forall j :: 0 < j < |ts| ==> |ts[j]| == TokenWidth
    ensures Concat(Reverse(ts)) == Strip(line)
  {
    ReversedChunks(Strip(line));
    Reverse(Chunks(Strip(line), TokenWidth))
  }

  /** `twos_complement(vals[j])`, in the shape the traversal takes. */
  function DecodeToken(j: nat, token: string): Result<real, HexError>
  {
    TwosComplement(token)
  }

  /** Row `i` of the expected table: index `i`, column `j` the decoded
      token `j`; the first token that does not decode ends the run. A row has
      one column per token, and every column lies in [-8, 8). */
  function ExpectedRow(i: nat, line: string): (r: Result<Row<nat>, HexError>)
    ensures r.Success? ==> r.value.index == i && |r.value.cols| == |ExpectedTokens(line)|
    ensures r.Success? ==> forall j :: 0 <= j < |r.value.cols| ==> -8.0 <= r.value.cols[j] < 8.0
  {
    var ts := ExpectedTokens(line);
    match MapIndexed(ts, DecodeToken)
    case Failure(e) => Failure(e)
    case Success(cols) =>
      MapIndexedSuccess(ts, DecodeToken);
      TokensRange(ts, cols);
      Success(Row(i, cols))
  }

  /** Decoded tokens of at most four digits lie in [-8, 8). */
  lemma TokensRange(ts: seq<string>, cols: seq<real>)
    requires |cols| == |ts|
    requires forall j :: 0 <= j < |ts| ==> 0 < |ts[j]| <= TokenWidth
    requires forall j :: 0 <= j < |ts| ==> TwosComplement(ts[j]) == Success(cols[j])
    ensures forall j :: 0 <= j < |cols| ==> -8.0 <= cols[j] < 8.0
  {
    forall j | 0 <= j < |cols|
      ensures -8.0 <= cols[j] < 8.0
    {
      ShortTokenRange(ts[j]);
    }
  }

  function ExpectedTable(lines: seq<string>): Result<seq<Row<nat>>, HexError>
  {
    MapIndexed(lines, ExpectedRow)
  }

  /** The inner loop of `get_expected_values` and `get_actual_values`:
      `twos_complement` applied to each token in turn, the first token that
      does not decode ending the run. */
  method DecodeTokens(vals: seq<string>) returns (result: Result<seq<real>, HexError>)
    ensures result == MapIndexed(vals, DecodeToken)
  {
    var cols: seq<real> := [];
    var j := 0;
    while j < |vals|
      invariant 0 <= j <= |vals|
      invariant MapIndexed(vals[..j], DecodeToken) == Success(cols)
    {
      MapIndexedStep(vals, DecodeToken, j, cols);
      var decoded := TwosComplement(vals[j]);
      if decoded.Failure? {
        MapIndexedPrefixFailure(vals, DecodeToken, j + 1);
        return Failure(decoded.error);
      }
      cols := cols + [decoded.value];
      j := j + 1;
    }
    PrefixWhole(vals);
    return Success(cols);
  }

  /** The loops of `get_expected_values` (up to the DataFrame). */
  method GetExpectedValues(lines: seq<string>) returns (result: Result<seq<Row<nat>>, HexError>)
    ensures result == ExpectedTable(lines)
  {
    var rows: seq<Row<nat>> := [];
    var i: nat := 0;
    while i < |lines|
      invariant 0 <= i <= |lines|
      invariant MapIndexed(lines[..i], ExpectedRow) == Success(rows)
    {
      var strTest := Strip(lines[i]);
      var vals := Chunks(strTest, TokenWidth);
      vals := Reverse(vals);
      var cols := DecodeTokens(vals);
      assert vals == ExpectedTokens(lines[i]);
      MapIndexedStep(lines, ExpectedRow, i, rows);
      if cols.Failure? {
        assert ExpectedRow(i, lines[i]) == Failure(cols.error);
        MapIndexedPrefixFailure(lines, ExpectedRow, i + 1);
        return Failure(cols.error);
      }
      assert ExpectedRow(i, lines[i]) == Success(Row(i, cols.value));
      rows := rows + [Row(i, cols.value)];
      i := i + 1;
    }
    PrefixWhole(lines);
    return Success(rows);
  }

  /** A line of `n` characters after stripping has ceil(n/4) columns, and
      column `j` holds chunk `m-1-j` of its `m` chunks: the last, possibly
      short, chunk becomes col_0. */
  lemma ExpectedTokensShape(line: string)
    ensures var cs := Chunks(Strip(line), TokenWidth);
            var ts := ExpectedTokens(line);
            && |ts| == |cs| == (|Strip(line)| + 3) / 4
            && (forall j :: 0 <= j < |ts| ==> ts[j] == cs[|cs| - 1 - j])
  {
    ReversedChunks(Strip(line));
  }

  /** The shape of the chunk list of any text, reversed. */
  lemma ReversedChunks(s: string)
    ensures |Reverse(Chunks(s, TokenWidth))| == (|s| + 3) / 4
    ensures forall j :: 0 < j < (|s| + 3) / 4 ==> |Reverse(Chunks(s, TokenWidth))[j]| == 4
    ensures forall j :: 0 <= j < (|s| + 3) / 4 ==> 0 < |Reverse(Chunks(s, TokenWidth))[j]| <= 4
    ensures Concat(Reverse(Reverse(Chunks(s, TokenWidth)))) == s
  {
    var cs := Chunks(s, TokenWidth);
    ChunksCount(s, TokenWidth);
    ChunksConcat(s, TokenWidth);
    ReverseReverse(cs);
  }

  /** The example row "0100110000000000": words 0100, 1100, 0000, 0000
      become columns 0 to 3 as 0000, 0000, 1100, 0100. */
  lemma ExpectedTokensExample()
    ensures ExpectedTokens("0100110000000000\n") == ["0000", "0000", "1100", "0100"]
  {
    var line := "0100110000000000";
    ExampleStrip();
    ChunksOfWord(line);
    ReverseFour("0100", "1100", "0000", "0000");
  }

  /** The example line strips to its sixteen digits. */
  lemma ExampleStrip()
    ensures Strip("0100110000000000\n") == "0100110000000000"
  {
    var line := "0100110000000000";
    assert "0100110000000000\n" == line + "\n";
    BinaryNoSpace(line);
    StripNewline(line);
  }

  /** Binary digits are not whitespace. */
  lemma BinaryNoSpace(s: string)
    requires forall k :: 0 <= k < |s| ==> s[k] == '0' || s[k] == '1'
    ensures NoSpace(s)
  {
  }

  lemma StripNewline(line: string)
    requires NoSpace(line)
    ensures Strip(line + "\n") == line
  {
    assert IsSpace("\n"[0]);
    StripPadded(line, "\n");
  }

  lemma ChunksOfWord(line: string)
    requires line == "0100110000000000"
    ensures Chunks(line, TokenWidth) == ["0100", "1100", "0000", "0000"]
  {
    var t1, t2, t3 := line[4..], line[8..], line[12..];
    assert Chunks(t3, 4) == [t3];
    assert t2[4..] == t3;
    assert Chunks(t2, 4) == [t2[..4], t3];
    assert t1[4..] == t2;
    assert line[4..] == t1;
    assert line[..4] == "0100" && t1[..4] == "1100" && t2[..4] == "0000" && t3 == "0000";
  }

  /** A line decodes exactly when every token of it is a hex number; its
      row then has index `i` and column `j` is token `j` decoded. */
  lemma ExpectedRowSpec(i: nat, line: string)
    ensures var ts := ExpectedTokens(line);
            ExpectedRow(i, line).Success? <==> forall j :: 0 <= j < |ts| ==> IsHexToken(ts[j])
    ensures var ts := ExpectedTokens(line);
            ExpectedRow(i, line).Success? ==>
              var row := ExpectedRow(i, line).value;
              && row.index == i
              && |row.cols| == |ts|
              && forall j :: 0 <= j < |ts| ==> TwosComplement(ts[j]) == Success(row.cols[j])
  {
    MapIndexedSuccess(ExpectedTokens(line), DecodeToken);
  }

  /** The table has one row per line, row `i` being line `i` read, and it
      fails as soon as one line fails. */
  lemma ExpectedTableSpec(lines: seq<string>)
    ensures ExpectedTable(lines).Success? <==>
              forall i :: 0 <= i < |lines| ==> ExpectedRow(i, lines[i]).Success?
    ensures ExpectedTable(lines).Success? ==>
              && |ExpectedTable(lines).value| == |lines|
              && forall i :: 0 <= i < |lines| ==>
                   ExpectedTable(lines).value[i] == ExpectedRow(i, lines[i]).value
  {
    MapIndexedSuccess(lines, ExpectedRow);
  }

  // ---------------------------------------------------------------------
  // get_actual_values: comma-separated rows, the first field the index

  /** `line.strip().split(',')`: one field per comma plus one, and the
      fields joined back on commas give the stripped line. */
  function CsvFields(line: string): (fields: seq<string>)
    ensures |fields| == Occurrences(Strip(line), ',') + 1
    ensures Join(fields, ',') == Strip(line)
  {
    JoinSplit(Strip(line), ',');
    Split(Strip(line), ',')
  }

  /** Row of the actual table: field 0 kept as the index, undecoded; field
      `j+1` decoded as column `j`, in file order. The index is the stripped
      line up to its first comma, and there is one column per comma. */
  function ActualRow(i: nat, line: string): (r: Result<Row<string>, HexError>)
    ensures r.Success? ==>
              var s := Strip(line);
              && |r.value.index| <= |s| && r.value.index == s[..|r.value.index|]
              && ',' !in r.value.index
              && (|r.value.index| == |s| || s[|r.value.index|] == ',')
              && |r.value.cols| == Occurrences(s, ',')
  {
    SplitHead(Strip(line), ',');
    ActualFields(CsvFields(line))
  }

  function ActualFields(fields: seq<string>): (r: Result<Row<string>, HexError>)
    requires |fields| >= 1
    ensures r.Success? ==> r.value.index == fields[0] && |r.value.cols| == |fields| - 1
  {
    match MapIndexed(fields[1..], DecodeToken)
    case Failure(e) => Failure(e)
    case Success(cols) => Success(Row(fields[0], cols))
  }

  function ActualTable(lines: seq<string>): Result<seq<Row<string>>, HexError>
  {
    MapIndexed(lines, ActualRow)
  }

  /** The loops of `get_actual_values` (up to the DataFrame). */
  method GetActualValues(lines: seq<string>) returns (result: Result<seq<Row<string>>, HexError>)
    ensures result == ActualTable(lines)
  {
    var rows: seq<Row<string>> := [];
    var i := 0;
    while i < |lines|
      invariant 0 <= i <= |lines|
      invariant MapIndexed(lines[..i], ActualRow) == Success(rows)
    {
      var strTest := CsvFields(lines[i]);
      var index := strTest[0];
      var vals := strTest[1..];
      var cols := DecodeTokens(vals);
      assert ActualRow(i, lines[i]) == ActualFields(strTest);
      MapIndexedStep(lines, ActualRow, i, rows);
      if cols.Failure? {
        assert ActualRow(i, lines[i]) == Failure(cols.error);
        MapIndexedPrefixFailure(lines, ActualRow, i + 1);
        return Failure(cols.error);
      }
      assert ActualRow(i, lines[i]) == Success(Row(index, cols.value));
      rows := rows + [Row(index, cols.value)];
      i := i + 1;
    }
    PrefixWhole(lines);
    assert MapIndexed(lines, ActualRow) == Success(rows);
    return Success(rows);
  }

  /** A row of the actual table is indexed by its line's first field,
      undecoded, and decodes exactly when every later field is a hex number;
      then column `j` is field `j+1` decoded, with no reversal. */
  lemma ActualRowSpec(fields: seq<string>)
    requires |fields| >= 1
    ensures ActualFields(fields).Success? <==> forall j :: 1 <= j < |fields| ==> IsHexToken(fields[j])
    ensures ActualFields(fields).Success? ==>
              var row := ActualFields(fields).value;
              && row.index == fields[0]
              && |row.cols| == |fields| - 1
              && forall j :: 0 <= j < |row.cols| ==> TwosComplement(fields[j + 1]) == Success(row.cols[j])
  {
    var tail := fields[1..];
    MapIndexedSuccess(tail, DecodeToken);
    assert forall j :: 1 <= j < |fields| ==> tail[j - 1] == fields[j];
  }

  lemma ActualTableSpec(lines: seq<string>)
    ensures ActualTable(lines).Success? <==>
              forall i :: 0 <= i < |lines| ==> ActualRow(i, lines[i]).Success?
    ensures ActualTable(lines).Success? ==>
              && |ActualTable(lines).value| == |lines|
              && forall i :: 0 <= i < |lines| ==>
                   ActualTable(lines).value[i] == ActualRow(i, lines[i]).value
  {
    MapIndexedSuccess(lines, ActualRow);
  }

  // ---------------------------------------------------------------------
  // get_actual_error_values: measured errors with the ±16 wrap correction

  /** The single-step correction of lines 54-57: below -15 add 16, above 15
      subtract 16, otherwise leave the value. */
  function Wrap(v: real): (w: real)
    ensures -15.0 <= v <= 15.0 ==> w == v
    ensures v < -15.0 ==> w == v + 16.0
    ensures v > 15.0 ==> w == v - 16.0
    ensures -15.0 <= w <= 15.0 <==> -31.0 <= v <= 31.0
  {
    if v < -15.0 then v + 16.0 else if v > 15.0 then v - 16.0 else v
  }

  /** A corrected value is left alone by a second correction. */
  lemma WrapIdempotent(v: real)
    requires -31.0 <= v <= 31.0
    ensures Wrap(Wrap(v)) == Wrap(v)
  {
  }

  /** `float(field)` refused the field. */
  datatype FloatError = NotAFloat(field: string)

  /** `float(field)` followed by the wrap correction: a field `float`
      refuses is a ValueError naming it; otherwise the value moves by at most
      one step of 16, and lands in [-15, 15] when the parsed value lay in
      [-31, 31]. */
  function MeasuredValue(parse: string -> Option<real>, field: string): (r: Result<real, FloatError>)
    ensures r.Failure? <==> parse(field).None?
    ensures r.Failure? ==> r.error == NotAFloat(field)
    ensures r.Success? ==>
              var v := parse(field).value;
              && (r.value == v || r.value == v + 16.0 || r.value == v - 16.0)
              && (-31.0 <= v <= 31.0 ==> -15.0 <= r.value <= 15.0)
  {
    match parse(field)
    case None => Failure(NotAFloat(field))
    case Some(v) => Success(Wrap(v))
  }

  /** Row of the measured-error table: field 0 the index, field `j+1` the
      corrected column `j`. */
  function MeasuredRowOf(parse: string -> Option<real>, line: string): Result<Row<string>, FloatError>
  {
    MeasuredFields(parse, CsvFields(line))
  }

  function MeasuredFields(parse: string -> Option<real>, fields: seq<string>): Result<Row<string>, FloatError>
    requires |fields| >= 1
  {
    match MapIndexed(fields[1..], MeasuredField(parse))
    case Failure(e) => Failure(e)
    case Success(cols) => Success(Row(fields[0], cols))
  }

  /** `MeasuredValue` and `MeasuredRowOf` in the shape the traversal takes. */
  function MeasuredField(parse: string -> Option<real>): (nat, string) -> Result<real, FloatError>
  {
    (j: nat, field: string) => MeasuredValue(parse, field)
  }

  function MeasuredRow(parse: string -> Option<real>): (nat, string) -> Result<Row<string>, FloatError>
  {
    (i: nat, line: string) => MeasuredRowOf(parse, line)
  }

  function MeasuredTable(lines: seq<string>, parse: string -> Option<real>): Result<seq<Row<string>>, FloatError>
  {
    MapIndexed(lines, MeasuredRow(parse))
  }

  /** Lines 54-57 as the script runs them, on `new_result`. */
  method CorrectWrap(measured: real) returns (newResult: real)
    ensures newResult == Wrap(measured)
    ensures -31.0 <= measured <= 31.0 ==> -15.0 <= newResult <= 15.0
  {
    newResult := measured;
    if newResult < -15.0 {
      newResult := newResult + 16.0;
    } else if newResult > 15.0 {
      newResult := newResult - 16.0;
    }
  }

  /** The inner loop of `get_actual_error_values`: each field through
      `float` and the wrap correction; a field `float` refuses ends the run. */
  method CorrectFields(vals: seq<string>, parse: string -> Option<real>)
    returns (result: Result<seq<real>, FloatError>)
    ensures result == MapIndexed(vals, MeasuredField(parse))
  {
    var cols: seq<real> := [];
    var j := 0;
    while j < |vals|
      invariant 0 <= j <= |vals|
      invariant MapIndexed(vals[..j], MeasuredField(parse)) == Success(cols)
    {
      MapIndexedStep(vals, MeasuredField(parse), j, cols);
      var parsed := parse(vals[j]);
      if parsed.None? {
        MapIndexedPrefixFailure(vals, MeasuredField(parse), j + 1);
        return Failure(NotAFloat(vals[j]));
      }
      var newResult := CorrectWrap(parsed.value);
      assert MeasuredValue(parse, vals[j]) == Success(newResult);
      cols := cols + [newResult];
      j := j + 1;
    }
    PrefixWhole(vals);
    return Success(cols);
  }

  /** The loops of `get_actual_error_values` (up to the DataFrame); `parse`
      stands for Python's `float`. */
  method GetActualErrorValues(lines: seq<string>, parse: string -> Option<real>)
    returns (result: Result<seq<Row<string>>, FloatError>)
    ensures result == MeasuredTable(lines, parse)
  {
    var rows: seq<Row<string>> := [];
    var i := 0;
    while i < |lines|
      invariant 0 <= i <= |lines|
      invariant MapIndexed(lines[..i], MeasuredRow(parse)) == Success(rows)
    {
      var strTest := CsvFields(lines[i]);
      var index := strTest[0];
      var vals := strTest[1..];
      var cols := CorrectFields(vals, parse);
      assert MeasuredRow(parse)(i, lines[i]) == MeasuredFields(parse, strTest);
      MapIndexedStep(lines, MeasuredRow(parse), i, rows);
      if cols.Failure? {
        assert MeasuredRow(parse)(i, lines[i]) == Failure(cols.error);
        MapIndexedPrefixFailure(lines, MeasuredRow(parse), i + 1);
        return Failure(cols.error);
      }
      assert MeasuredRow(parse)(i, lines[i]) == Success(Row(index, cols.value));
      rows := rows + [Row(index, cols.value)];
      i := i + 1;
    }
    PrefixWhole(lines);
    return Success(rows);
  }

  /** Every column of a measured row is the wrap-corrected parse of its
      field (so it lies in [-15, 15] whenever the measured value lay in
      [-31, 31]), and the row fails exactly when some field does not parse. */
  lemma MeasuredRowSpec(parse: string -> Option<real>, fields: seq<string>)
    requires |fields| >= 1
    ensures MeasuredFields(parse, fields).Success? <==> forall j :: 1 <= j < |fields| ==> parse(fields[j]).Some?
    ensures MeasuredFields(parse, fields).Success? ==>
              var row := MeasuredFields(parse, fields).value;
              && row.index == fields[0]
              && |row.cols| == |fields| - 1
              && forall j :: 0 <= j < |row.cols| ==> row.cols[j] == Wrap(parse(fields[j + 1]).value)
  {
    var tail := fields[1..];
    MapIndexedSuccess(tail, MeasuredField(parse));
    assert forall j :: 1 <= j < |fields| ==> tail[j - 1] == fields[j];
  }

  lemma MeasuredTableSpec(lines: seq<string>, parse: string -> Option<real>)
    ensures MeasuredTable(lines, parse).Success? <==>
              forall i :: 0 <= i < |lines| ==> MeasuredRowOf(parse, lines[i]).Success?
    ensures MeasuredTable(lines, parse).Success? ==>
              && |MeasuredTable(lines, parse).value| == |lines|
              && forall i :: 0 <= i < |lines| ==>
                   MeasuredTable(lines, parse).value[i] == MeasuredRowOf(parse, lines[i]).value
  {
    MapIndexedSuccess(lines, MeasuredRow(parse));
  }

  // ---------------------------------------------------------------------
  // plot_measured_error_histogram: share of values near zero

  /** A cell of the melted frame is within `bound` of zero: `abs() < bound`,
      which is false on NaN (`None`), the filler of a row shorter than the
      longest one. */
  predicate NearZero(cell: Option<real>, bound: real)
  {
    cell.Some? && Abs(cell.value) < bound
  }

  /** The mask `df['actual'].abs() < bound`. */
  function NearZeroMask(bound: real): Option<real> -> bool
  {
    (c: Option<real>) => NearZero(c, bound)
  }

  /** The number of cells within `bound` of zero, counted by position. */
  function CountWithin(cells: seq<Option<real>>, bound: real): nat
  {
    |set k | 0 <= k < |cells| && NearZero(cells[k], bound)|
  }

  /** `df[df['actual'].abs() < bound]`: every cell within the bound, as often
      as it occurs, and no other; one per position the mask selects. */
  function Within(cells: seq<Option<real>>, bound: real): (r: seq<Option<real>>)
    ensures forall k :: 0 <= k < |r| ==> r[k].Some? && Abs(r[k].value) < bound
    ensures forall c :: multiset(r)[c] == if NearZero(c, bound) then multiset(cells)[c] else 0
    ensures |r| == CountWithin(cells, bound)
  {
    FilterCount(cells, NearZeroMask(bound));
    FilterMultiset(cells, NearZeroMask(bound));
    assert Selected(cells, NearZeroMask(bound)) == set k | 0 <= k < |cells| && NearZero(cells[k], bound);
    Filter(cells, NearZeroMask(bound))
  }

  /** `100 * len(df_filtered) / len(df)` raises on an empty frame. */
  datatype StatsError = ZeroDivisionError

  /** The share of cells within `bound`, NaN cells counted in the whole. */
  function PercentWithin(cells: seq<Option<real>>, bound: real): (r: Result<real, StatsError>)
    ensures r.Failure? <==> cells == []
    ensures r.Success? ==> r.value == Percent(CountWithin(cells, bound), |cells|)
    ensures r.Success? ==> 0.0 <= r.value <= 100.0
  {
    if cells == [] then Failure(ZeroDivisionError)
    else Success(Percent(|Within(cells, bound)|, |cells|))
  }

  /** The two printed percentages: cells within 0.05 and within 0.10. */
  datatype Summary = Summary(within5: real, within10: real)

  function MeasuredSummary(cells: seq<Option<real>>): (r: Result<Summary, StatsError>)
    ensures r.Failure? <==> cells == []
    ensures r.Success? ==> r.value.within5 == Percent(CountWithin(cells, 0.05), |cells|)
    ensures r.Success? ==> r.value.within10 == Percent(CountWithin(cells, 0.1), |cells|)
    ensures r.Success? ==> 0.0 <= r.value.within5 <= r.value.within10 <= 100.0
  {
    if cells == [] then Failure(ZeroDivisionError)
    else
      ThresholdCounts(cells);
      PercentMonotone(|Within(cells, 0.05)|, |Within(cells, 0.1)|, |cells|);
      Success(Summary(PercentWithin(cells, 0.05).value, PercentWithin(cells, 0.1).value))
  }

  /** count(|v| < 0.05) <= count(|v| < 0.1) <= n. */
  lemma ThresholdCounts(cells: seq<Option<real>>)
    ensures CountWithin(cells, 0.05) <= CountWithin(cells, 0.1) <= |cells|
  {
    FilterWeaker(cells, NearZeroMask(0.05), NearZeroMask(0.1));
    assert |Within(cells, 0.05)| <= |Within(cells, 0.1)|;
    assert |Within(cells, 0.1)| <= |cells|;
  }

  /** A NaN cell is never within any bound, so a frame of NaN cells only
      reports 0%. */
  lemma NaNNeverWithin(cells: seq<Option<real>>, bound: real)
    requires forall k :: 0 <= k < |cells| ==> cells[k].None?
    ensures Within(cells, bound) == []
  {
    FilterNone(cells, NearZeroMask(bound));
  }

  // ---------------------------------------------------------------------
  // plot_calculated_error_histogram: expected minus actual, export > 0.05

  /** One row of `data`: the actual cell and, when the expected column
      reaches this far, the expected one (pandas fills NaN otherwise). A cell
      is NaN (`None`) also where its table row had fewer columns than the
      longest row. */
  datatype ErrorSample = ErrorSample(expected: Option<real>, actual: Option<real>)
  {
    /** `data['expected'] - data['actual']`; NaN on either side gives NaN. */
    function Error(): (e: Option<real>)
      ensures e.Some? <==> expected.Some? && actual.Some?
      ensures e.Some? ==> actual.value + e.value == expected.value
    {
      if expected.Some? && actual.Some? then Some(expected.value - actual.value) else None
    }

    /** `data['error'] > 0.05`: signed, and false on NaN. */
    predicate Exceeds()
      ensures Exceeds() ==> expected.Some? && actual.Some? && expected.value > actual.value
      ensures expected.None? || actual.None? ==> !Exceeds()
    {
      Error().Some? && Error().value > 0.05
    }
  }

  /** `expected[:len(actual)]` set beside `actual`, position by position,
      on the two melted value columns: one sample per actual cell, in order. */
  function PairSamples(expected: seq<Option<real>>, actual: seq<Option<real>>): (samples: seq<ErrorSample>)
    ensures |samples| == |actual|
    ensures forall k :: 0 <= k < |actual| ==> samples[k].actual == actual[k]
    ensures forall k :: 0 <= k < |actual| && k < |expected| ==> samples[k].expected == expected[k]
    ensures forall k :: |expected| <= k < |actual| ==> samples[k].expected == None
  {
    seq(|actual|, k requires 0 <= k < |actual| =>
      ErrorSample(if k < |expected| then expected[k] else None, actual[k]))
  }

  /** `[:len(actual)]`: expected cells beyond the length of the actual
      column are never looked at. */
  lemma PairSamplesTruncated(expected: seq<Option<real>>, actual: seq<Option<real>>)
    requires |expected| >= |actual|
    ensures PairSamples(expected, actual) == PairSamples(expected[..|actual|], actual)
  {
  }

  /** Where the expected column is shorter, the samples past its end have a
      NaN error and are never exported. */
  lemma PairSamplesShort(expected: seq<Option<real>>, actual: seq<Option<real>>, k: nat)
    requires |expected| <= k < |actual|
    ensures PairSamples(expected, actual)[k].Error() == None
    ensures !PairSamples(expected, actual)[k].Exceeds()
  {
  }

  /** Sample k of the pairing exceeds the threshold exactly when the
      expected column reaches row k, both cells are numbers, and the
      expected value is more than 0.05 above the actual one. */
  lemma PairSampleExceeds(expected: seq<Option<real>>, actual: seq<Option<real>>, k: nat)
    requires k < |actual|
    ensures PairSamples(expected, actual)[k].Exceeds()
            <==> k < |expected| && expected[k].Some? && actual[k].Some?
                 && expected[k].value - actual[k].value > 0.05
  {
  }

  /** `data[data_filter]`: the rows written to the error export, each as
      often as it occurs, and one per position the mask selects. */
  function Exported(samples: seq<ErrorSample>): (r: seq<ErrorSample>)
    ensures forall k :: 0 <= k < |r| ==> r[k].Exceeds()
    ensures forall x :: multiset(r)[x] == if x.Exceeds() then multiset(samples)[x] else 0
    ensures |r| == |set k | 0 <= k < |samples| && samples[k].Exceeds()|
  {
    var keep := (s: ErrorSample) => s.Exceeds();
    FilterCount(samples, keep);
    FilterMultiset(samples, keep);
    assert Selected(samples, keep) == set k | 0 <= k < |samples| && samples[k].Exceeds();
    Filter(samples, keep)
  }

  /** A row is exported exactly when its signed error expected - actual is
      above 0.05; an actual value far above the expected one is not. */
  /** End to end: the error export holds one row per position where the
      expected column reaches, both cells are numbers and the expected
      value is more than 0.05 above the actual one. */
  lemma ExportedPairs(expected: seq<Option<real>>, actual: seq<Option<real>>)
    ensures |Exported(PairSamples(expected, actual))|
            == |set k | 0 <= k < |actual| && k < |expected| && expected[k].Some? && actual[k].Some?
                        && expected[k].value - actual[k].value > 0.05|
  {
    var samples := PairSamples(expected, actual);
    forall k | 0 <= k < |actual|
      ensures samples[k].Exceeds() <==> k < |expected| && expected[k].Some? && actual[k].Some?
                                        && expected[k].value - actual[k].value > 0.05
    {
      PairSampleExceeds(expected, actual, k);
    }
    assert (set k | 0 <= k < |samples| && samples[k].Exceeds())
        == (set k | 0 <= k < |actual| && k < |expected| && expected[k].Some? && actual[k].Some?
                    && expected[k].value - actual[k].value > 0.05);
  }

  lemma ExportedExactly(samples: seq<ErrorSample>, k: nat)
    requires k < |samples|
    ensures samples[k] in Exported(samples) <==>
              && samples[k].expected.Some? && samples[k].actual.Some?
              && samples[k].expected.value - samples[k].actual.value > 0.05
  {
    var keep := (s: ErrorSample) => s.Exceeds();
    if samples[k].Exceeds() {
      FilterKeeps(samples, keep, k);
    }
  }
}
