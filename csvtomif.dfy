/** `convert_csv_to_mif` of Scripts/python/actual_outputs_to_mif.py: every
    line of the CSV file of measured outputs is stripped, split on commas,
    reversed and glued back together without separators, and written out as
    one line of the memory-initialisation file. The input file is the list of
    lines `readlines()` returns and the output file is the text written. */
module CsvToMif {
  import opened Results
  import opened TextOps
  import opened HexFixedPoint
  import opened ErrorHistogram

  /** `''.join(reversed(line.strip().split(',')))`: exactly the commas of
      the stripped line are dropped, and none survives. */
  function MifBody(line: string): (r: string)
    ensures ',' !in r
    ensures |r| == |Strip(line)| - Occurrences(Strip(line), ',')
  {
    var fields := CsvFields(line);
    SplitFieldsFree(Strip(line), ',');
    ConcatAvoids(Reverse(fields), ',');
    JoinSplit(Strip(line), ',');
    ConcatReverseLength(fields);
    Concat(Reverse(fields))
  }

  /** The two writes made for one input line: the body, then `'\n'`. */
  function MifLine(line: string): string
  {
    MifBody(line) + "\n"
  }

  /** The lines written for `lines`, in order. */
  function MifLines(lines: seq<string>): seq<string>
  {
    MapSeq(lines, MifLine)
  }

  /** The text of the output file after the loop has seen `lines`. */
  function MifText(lines: seq<string>): string
  {
    Concat(MifLines(lines))
  }

  /** The loop of `convert_csv_to_mif`, writing to the output text. */
  method ConvertCsvToMif(lines: seq<string>) returns (mif: string)
    ensures mif == MifText(lines)
  {
    mif := "";
    var i := 0;
    while i < |lines|
      invariant 0 <= i <= |lines|
      invariant mif == MifText(lines[..i])
    {
      var result := Split(Strip(lines[i]), ',');
      result := Reverse(result);
      var joined := Concat(result);
      MifTextStep(lines, i);
      mif := mif + joined;
      mif := mif + "\n";
      i := i + 1;
    }
    PrefixWhole(lines);
  }

  /** One more line appends its converted line to the text. */
  lemma MifTextStep(lines: seq<string>, i: nat)
    requires i < |lines|
    ensures MifText(lines[..i + 1]) == MifText(lines[..i]) + MifBody(lines[i]) + "\n"
  {
    MapSeqStep(lines, MifLine, i);
    TextSnoc(MifLines(lines[..i]), MifLines(lines[..i + 1]), MifLine(lines[i]));
  }

  lemma TextSnoc(before: seq<string>, after: seq<string>, line: string)
    requires after == before + [line]
    ensures Concat(after) == Concat(before) + line
  {
    ConcatSnoc(before, line);
  }

  /** A character none of the parts holds is not in their concatenation. */
  lemma {:induction false} ConcatAvoids(parts: seq<string>, c: char)
    requires forall i :: 0 <= i < |parts| ==> c !in parts[i]
    ensures c !in Concat(parts)
  {
    if parts != [] {
      ConcatAvoids(parts[1..], c);
    }
  }

  /** Parts without whitespace concatenate to text without whitespace. */
  lemma {:induction false} ConcatNoSpace(parts: seq<string>)
    requires forall i :: 0 <= i < |parts| ==> NoSpace(parts[i])
    ensures NoSpace(Concat(parts))
  {
    if parts != [] {
      ConcatNoSpace(parts[1..]);
      var head, tail := parts[0], Concat(parts[1..]);
      assert forall k :: |head| <= k < |head + tail| ==> (head + tail)[k] == tail[k - |head|];
    }
  }

  /** The first field, the row index, is not lost: it closes the body,
      after the remaining fields in reverse order. */
  lemma MifBodyIndexLast(line: string)
    ensures var fields := CsvFields(line);
            MifBody(line) == Concat(Reverse(fields[1..])) + fields[0]
  {
    var fields := CsvFields(line);
    assert Reverse(fields) == Reverse(fields[1..]) + [fields[0]];
    ConcatAppend(Reverse(fields[1..]), [fields[0]]);
    assert Concat([fields[0]]) == fields[0] + Concat([]);
  }

  /** A line without commas comes out as the stripped line. */
  lemma MifBodySingleField(line: string)
    requires ',' !in Strip(line)
    ensures MifBody(line) == Strip(line)
  {
    SplitNoSeparator(Strip(line), ',');
    var s := Strip(line);
    assert Reverse([s]) == [s];
    assert Concat([s]) == s + Concat([]);
  }

  /** Every field is a four-character word without whitespace. */
  predicate WordFields(line: string)
  {
    forall i :: 0 <= i < |CsvFields(line)| ==>
      |CsvFields(line)[i]| == TokenWidth && NoSpace(CsvFields(line)[i])
  }

  /** Reading a converted line back the way `get_expected_values` reads the
      memory file (strip, cut into four-character tokens, reverse) gives the
      fields of the CSV line again, in file order. */
  lemma MifRoundTrip(line: string)
    requires WordFields(line)
    ensures ExpectedTokens(MifLine(line)) == CsvFields(line)
  {
    var fields := CsvFields(line);
    var parts := Reverse(fields);
    var body := Concat(parts);
    assert forall i :: 0 <= i < |parts| ==> |parts[i]| == TokenWidth && NoSpace(parts[i]);
    ConcatNoSpace(parts);
    assert IsSpace("\n"[0]);
    StripPadded(body, "\n");
    assert Strip(MifLine(line)) == body;
    ChunksOfConcat(parts, TokenWidth);
    ReverseReverse(fields);
    assert ExpectedTokens(MifLine(line)) == Reverse(parts);
  }

  /** The two readers of error_histogram.py agree on a converted file: the
      converted line decodes as expected values exactly when the CSV line
      decodes as actual values and its index field is a hex token too, and
      then its columns are the decoded index followed by the actual row's
      columns. */
  lemma MifRowAgrees(i: nat, line: string)
    requires WordFields(line)
    ensures var fields := CsvFields(line);
            ExpectedRow(i, MifLine(line)).Success? <==>
              IsHexToken(fields[0]) && ActualRow(i, line).Success?
    ensures var fields := CsvFields(line);
            ExpectedRow(i, MifLine(line)).Success? ==>
              ExpectedRow(i, MifLine(line)).value.cols
              == [TwosComplement(fields[0]).value] + ActualRow(i, line).value.cols
  {
    var fields := CsvFields(line);
    MifRoundTrip(line);
    ExpectedRowSpec(i, MifLine(line));
    ActualRowSpec(fields);
    if ExpectedRow(i, MifLine(line)).Success? {
      ColumnsShift(fields, ExpectedRow(i, MifLine(line)).value.cols, ActualRow(i, line).value.cols);
    }
  }

  /** Columns decoded from all fields are the decoded first field followed
      by the columns decoded from the fields after it. */
  lemma ColumnsShift(fields: seq<string>, cols: seq<real>, actual: seq<real>)
    requires |fields| >= 1 && |cols| == |fields| && |actual| == |fields| - 1
    requires forall j :: 0 <= j < |fields| ==> TwosComplement(fields[j]) == Success(cols[j])
    requires forall j :: 0 <= j < |actual| ==> TwosComplement(fields[j + 1]) == Success(actual[j])
    ensures cols == [TwosComplement(fields[0]).value] + actual
  {
    forall j | 0 < j < |cols|
      ensures cols[j] == actual[j - 1]
    {
      assert TwosComplement(fields[(j - 1) + 1]) == Success(actual[j - 1]);
    }
  }

  /** `Join` with a terminator after each part: joining `bodies + [""]` on
      the separator writes each body followed by the separator. */
  lemma {:induction false} JoinTerminated(bodies: seq<string>, sep: char)
    ensures Join(bodies + [""], sep) == Concat(Terminated(bodies, sep))
  {
    if bodies != [] {
      var rest := bodies[1..];
      JoinTerminated(rest, sep);
      assert (bodies + [""])[1..] == rest + [""];
      TerminatedFront(bodies, sep);
    }
  }

  /** Each body followed by the separator. */
  function Terminated(bodies: seq<string>, sep: char): (out: seq<string>)
    ensures |out| == |bodies|
    ensures forall i :: 0 <= i < |bodies| ==> out[i] == bodies[i] + [sep]
  {
    if bodies == [] then [] else Terminated(bodies[..|bodies| - 1], sep) + [bodies[|bodies| - 1] + [sep]]
  }

  lemma TerminatedFront(bodies: seq<string>, sep: char)
    requires bodies != []
    ensures Terminated(bodies, sep) == [bodies[0] + [sep]] + Terminated(bodies[1..], sep)
  {
  }

  /** The output has exactly one line per input line, in input order:
      splitting the output text on newlines gives the bodies, then the empty
      text after the last newline. Each line read by `readlines()` carries
      its newline only at its end, which `strip()` removes. */
  lemma MifOneLineEach(lines: seq<string>)
    requires forall i :: 0 <= i < |lines| ==> '\n' !in Strip(lines[i])
    ensures Split(MifText(lines), '\n')
            == seq(|lines|, i requires 0 <= i < |lines| => MifBody(lines[i])) + [""]
  {
    var bodies := seq(|lines|, i requires 0 <= i < |lines| => MifBody(lines[i]));
    JoinTerminated(bodies, '\n');
    assert Terminated(bodies, '\n') == MifLines(lines);
    forall i | 0 <= i < |bodies + [""]|
      ensures '\n' !in (bodies + [""])[i]
    {
      if i < |bodies| {
        MifBodyNewlineFree(lines[i]);
      }
    }
    SplitJoin(bodies + [""], '\n');
  }

  /** A body holds a newline only if its stripped line did. */
  lemma MifBodyNewlineFree(line: string)
    requires '\n' !in Strip(line)
    ensures '\n' !in MifBody(line)
  {
    var fields := CsvFields(line);
    var parts := Reverse(fields);
    forall i | 0 <= i < |parts|
      ensures '\n' !in parts[i]
    {
      var f := |fields| - 1 - i;
      assert parts[i] == fields[f];
      if '\n' in fields[f] {
        var k :| 0 <= k < |fields[f]| && fields[f][k] == '\n';
        FieldChars(Strip(line), ',', f, k);
      }
    }
    ConcatAvoids(parts, '\n');
  }

  /** Every character of a field of `split` is a character of the text. */
  lemma {:induction false} FieldChars(s: string, sep: char, f: nat, k: nat)
    requires f < |Split(s, sep)| && k < |Split(s, sep)[f]|
    ensures Split(s, sep)[f][k] in s
  {
    if s != [] {
      var rest := Split(s[1..], sep);
      assert s == [s[0]] + s[1..];
      SplitFront(s[0], s[1..], sep);
      if s[0] == sep {
        if f > 0 {
          FieldChars(s[1..], sep, f - 1, k);
        }
      } else if f == 0 {
        if k > 0 {
          FieldChars(s[1..], sep, 0, k - 1);
        }
      } else {
        FieldChars(s[1..], sep, f, k);
      }
    }
  }
}
