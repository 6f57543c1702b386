# Fixed-point output checking, modelled in Dafny

This project models the arithmetic and text handling that the regression
scripts of a fixed-point hardware design use to judge its outputs:

- **`Scripts/python/error_histogram.py`**
  - `twos_complement` reads a hex word as a two's-complement integer and
    divides it by 2^12.
  - Three readers turn files into rows:
    - the expected-output memory file, as packed four-digit words read in
      reverse;
    - the CSV of actual outputs, with an index field followed by hex fields;
    - the CSV of measured errors, with a ±16 wrap correction.
  - Two statistics are computed: the share of measured errors near zero, and
    the rows whose error `expected - actual` exceeds 0.05, which are exported.
- **`Elpida/test_regression/accuracy.py`**
  - `isclose` reads two W-bit strings as fractions and compares them with a
    relative and an absolute tolerance.
  - The script's loop counts the close rows and reports them as a percentage.
- **`Scripts/python/actual_outputs_to_mif.py`** turns each CSV line of actual
  outputs into one memory-file line: strip, split on commas, reverse, join.

A file is the list of lines `readlines()` returns. A parsed CSV file is the
list of rows `csv.reader` returns. A Python exception is the `Failure` case
of a `Result`. Python floats are exact `real`s.

Modules:

| module | file | contents |
|---|---|---|
| `Numeric` | `numeric.dfy` | powers of two, percentages, `abs` and `max` |
| `Results` | `results.dfy` | `Option` and `Result`; `MapIndexed`, the loop that stops at the first exception; `Filter`, a boolean mask |
| `TextOps` | `textops.dfy` | `str.strip`, `str.split`, `''.join`, `list.reverse`, the chunking comprehension |
| `HexFixedPoint` | `hexfixedpoint.dfy` | `twos_complement` |
| `ErrorHistogram` | `errorhistogram.dfy` | the readers and statistics of error_histogram.py |
| `Accuracy` | `accuracy.dfy` | accuracy.py |
| `CsvToMif` | `csvtomif.dfy` | actual_outputs_to_mif.py |

The loops of the scripts are `method`s, each proved equal to a function of
its input. The lemmas state what that function promises.

### Where the code and its description differ

A reader may take the first character of an `isclose` argument for a sign
bit, so that "1100000000000000" would be -0.5. The code builds
`a[0] + 'b' + a[1:W]` and parses it with `int(_, 2)`. That literal is valid
only in the prefixed form `0b…`, so a leading '1' makes the string "1b…",
which `int` refuses with a ValueError. The model follows the code:
`Accuracy.DecodeLeadingOne` proves the refusal, and every decoded value is an
unsigned fraction in [0, 1).

`int` also accepts underscores between digits and trailing whitespace in such
a literal. The model accepts them too (`Accuracy.DecodeGrouped`). The
whitespace is the one `int` skips: ASCII space and `\t\n\v\f\r`, and the
non-ASCII characters `str.isspace` accepts, but not the ASCII separator
controls U+001C to U+001F (`Accuracy.TrailingIntSpaces`).

## Model

| member | source | states |
|---|---|---|
| `HexFixedPoint.TwosComplement` | Scripts/python/error_histogram.py:62-64 | decodes exactly the non-empty lower-case hex tokens; a k-digit value lies in [-2^(4k-1), 2^(4k-1)) / 4096 and is negative exactly when the leading digit is 8 or more |
| `HexFixedPoint.SignedRange` | Scripts/python/error_histogram.py:63 | the two's-complement integer of a k-digit token lies in [-2^(4k-1), 2^(4k-1)) and is negative exactly when the top bit is set |
| `HexFixedPoint.DecodeEncoded` | Scripts/python/error_histogram.py:62-64 | round trip: every integer v of the 4k-bit signed range, written as k digits of two's complement, decodes to v / 4096 |
| `HexFixedPoint.DecodeOfValue` | Scripts/python/error_histogram.py:62-64 | a token whose unsigned value is v modulo 2^(4k) decodes to v / 4096 |
| `HexFixedPoint.DecodeInjective` | Scripts/python/error_histogram.py:62-64 | two tokens of one width that decode to the same value are the same token |
| `HexFixedPoint.WordRange` | Scripts/python/error_histogram.py:16 | the four-digit words of the expected-output file decode into [-8, 8) |
| `HexFixedPoint.ShortTokenRange` | Scripts/python/error_histogram.py:16-20 | tokens of one to four digits, the short col_0 included, decode into [-8, 8) |
| `HexFixedPoint.HexValue` | Scripts/python/error_histogram.py:63 | the unsigned value of k hex digits is below 2^(4k) |
| `HexFixedPoint.HexValueFront` | Scripts/python/error_histogram.py:63 | the leading digit weighs 16^(k-1) |
| `HexFixedPoint.ToHexOfHexValue` | Scripts/python/error_histogram.py:63 | writing a token's value back with as many digits gives the token |
| `HexFixedPoint.HexValueToHex` | Scripts/python/error_histogram.py:63 | k written digits hold the value modulo 16^k |
| `HexFixedPoint.ExamplesThreeAndFourDigits` | Scripts/python/error_histogram.py:62-64 | "fff" is -1/4096 and "0fff" is 4095/4096 |
| `HexFixedPoint.ExamplesWordEnds` | Scripts/python/error_histogram.py:62-64 | "8000" is -8 and "7fff" is 32767/4096 |
| `HexFixedPoint.ExamplesRefused` | Scripts/python/error_histogram.py:63 | the empty token and an upper-case token are refused |
| `ErrorHistogram.GetExpectedValues` | Scripts/python/error_histogram.py:7-21 | the reader's nested loops build exactly the expected table, and stop with the first token that does not decode |
| `ErrorHistogram.DecodeTokens` | Scripts/python/error_histogram.py:18-20 | the inner loop decodes the tokens in column order, up to the first failure |
| `ErrorHistogram.ExpectedTokens` | Scripts/python/error_histogram.py:15-17 | every token is non-empty and at most four characters long, every column after col_0 has exactly four, and the tokens read back in reverse spell the stripped line |
| `ErrorHistogram.ExpectedTokensShape` | Scripts/python/error_histogram.py:15-17 | there are ceil(len/4) tokens for a stripped line of len characters; column j holds chunk m-1-j, so the last, possibly short, chunk becomes col_0 |
| `ErrorHistogram.ReversedChunks` | Scripts/python/error_histogram.py:16-17 | the same shape for the chunk list of any text |
| `ErrorHistogram.ExpectedTokensExample` | Scripts/python/error_histogram.py:15-17 | the line "0100110000000000" gives columns 0000, 0000, 1100, 0100 |
| `ErrorHistogram.ExpectedRow` | Scripts/python/error_histogram.py:13-20 | a row has index i and one column per token, and every column lies in [-8, 8) |
| `ErrorHistogram.ExpectedRowSpec` | Scripts/python/error_histogram.py:12-21 | a line gives a row exactly when every token decodes; the row has index i and col_j is token j decoded |
| `ErrorHistogram.ExpectedTableSpec` | Scripts/python/error_histogram.py:9-21 | the table exists exactly when every line gives a row, and then row i is the row of line i |
| `ErrorHistogram.GetActualValues` | Scripts/python/error_histogram.py:25-38 | the reader's loops build exactly the actual table |
| `ErrorHistogram.CsvFields` | Scripts/python/error_histogram.py:32 | there is one field per comma plus one, and the fields joined back on commas give the stripped line |
| `ErrorHistogram.ActualRow` | Scripts/python/error_histogram.py:31-37 | the index is the stripped line up to its first comma (or all of it when there is none), undecoded and free of commas; there is one column per comma |
| `ErrorHistogram.ActualRowSpec` | Scripts/python/error_histogram.py:32-37 | field 0 is kept undecoded as the index; field j+1 becomes col_j in file order, without reversal; the row exists exactly when every field after the first decodes |
| `ErrorHistogram.ActualTableSpec` | Scripts/python/error_histogram.py:27-38 | the table exists exactly when every line gives a row, and then row i is the row of line i |
| `ErrorHistogram.Wrap` | Scripts/python/error_histogram.py:54-57 | values in [-15, 15] are unchanged; a value below -15 gains 16 and one above 15 loses 16, once; the result lies in [-15, 15] exactly when the input lies in [-31, 31] |
| `ErrorHistogram.WrapIdempotent` | Scripts/python/error_histogram.py:54-57 | within [-31, 31], correcting a corrected value changes nothing |
| `ErrorHistogram.MeasuredValue` | Scripts/python/error_histogram.py:53-57 | a field `float` refuses is a ValueError naming that field; otherwise the value moves by at most one step of 16 and lands in [-15, 15] when the parsed value lay in [-31, 31] |
| `ErrorHistogram.CorrectWrap` | Scripts/python/error_histogram.py:53-57 | the if/elif update of `new_result` computes the wrap and lands in [-15, 15] for inputs in [-31, 31] |
| `ErrorHistogram.CorrectFields` | Scripts/python/error_histogram.py:51-58 | the inner loop parses and corrects each field in order, up to the first that `float` refuses |
| `ErrorHistogram.GetActualErrorValues` | Scripts/python/error_histogram.py:41-59 | the reader's loops build exactly the measured-error table |
| `ErrorHistogram.MeasuredRowSpec` | Scripts/python/error_histogram.py:48-58 | a row exists exactly when every field after the index parses; col_j is the wrapped value of field j+1 |
| `ErrorHistogram.MeasuredTableSpec` | Scripts/python/error_histogram.py:43-59 | the table exists exactly when every line gives a row, and then row i is the row of line i |
| `ErrorHistogram.Within` | Scripts/python/error_histogram.py:86-89 | the filtered frame holds every cell whose absolute value is below the bound, as often as it occurs, and no other cell; its length is the number of positions the mask selects |
| `ErrorHistogram.PercentWithin` | Scripts/python/error_histogram.py:90-91 | an empty frame divides by zero; otherwise the printed value is 100 times the number of positions within the bound over the number of cells, and lies in [0, 100] |
| `ErrorHistogram.MeasuredSummary` | Scripts/python/error_histogram.py:84-91 | an empty frame divides by zero; otherwise the two printed values are the shares of cells within 0.05 and within 0.10, and 0 <= the first <= the second <= 100 |
| `ErrorHistogram.ThresholdCounts` | Scripts/python/error_histogram.py:86-89 | count(abs < 0.05) <= count(abs < 0.1) <= number of cells |
| `ErrorHistogram.NaNNeverWithin` | Scripts/python/error_histogram.py:86-87 | NaN cells never pass the `abs() < bound` mask |
| `ErrorHistogram.PairSamples` | Scripts/python/error_histogram.py:68-71 | one sample per cell of the actual column, in its order; sample k holds actual cell k and expected cell k, or NaN where the expected column is shorter |
| `ErrorHistogram.ErrorSample.Error` | Scripts/python/error_histogram.py:72 | the error is a number exactly when both cells are, and then actual + error = expected |
| `ErrorHistogram.ErrorSample.Exceeds` | Scripts/python/error_histogram.py:73 | a sample passes the mask only when both cells are numbers and expected > actual; a NaN cell never passes |
| `ErrorHistogram.PairSampleExceeds` | Scripts/python/error_histogram.py:68-73 | sample k passes the mask exactly when the expected column reaches row k, both cells are numbers and expected[k] - actual[k] > 0.05 |
| `ErrorHistogram.ExportedPairs` | Scripts/python/error_histogram.py:68-74 | the export holds one row per such position of the two input columns |
| `ErrorHistogram.PairSamplesTruncated` | Scripts/python/error_histogram.py:69 | `[:len(actual)]`: expected cells past the length of the actual column are never looked at |
| `ErrorHistogram.PairSamplesShort` | Scripts/python/error_histogram.py:69-73 | where the expected column is shorter, the samples past its end have a NaN error and are never exported |
| `ErrorHistogram.Exported` | Scripts/python/error_histogram.py:73-74 | the export holds every sample whose signed error exceeds 0.05, as often as it occurs, and no other; its length is the number of such positions |
| `ErrorHistogram.ExportedExactly` | Scripts/python/error_histogram.py:72-74 | a sample is exported exactly when both its cells are numbers and its signed error expected - actual is above 0.05 |
| `Accuracy.DecodeFraction` | Elpida/test_regression/accuracy.py:7-9 | an empty string is an IndexError; a first character other than '0' is a ValueError; a value lies in [0, 1 - 2^-(W-1)] |
| `Accuracy.RefusesStrayCharacter` | Elpida/test_regression/accuracy.py:7-9 | a character of `a[1:W]` that is not a binary digit, an underscore or whitespace `int` skips is a ValueError |
| `Accuracy.RefusesNoDigits` | Elpida/test_regression/accuracy.py:7-9 | an `a[1:W]` without any binary digit, empty included, is a ValueError |
| `Accuracy.TrailingIntSpaces` | Elpida/test_regression/accuracy.py:9 | counts the whitespace `int` skips at the end of a literal: every counted character is such whitespace, and the one before them is not |
| `Accuracy.DecodePlain` | Elpida/test_regression/accuracy.py:7-9 | for '0' followed by binary digits, the value is int(a[1:W], 2) / 2^(W-1) |
| `Accuracy.DecodeIgnoresTail` | Elpida/test_regression/accuracy.py:7-8 | characters at index W and beyond are never read |
| `Accuracy.DecodeHalf` | Elpida/test_regression/accuracy.py:7-9 | "0100000000000000" is 0.5 |
| `Accuracy.DecodeLeadingOne` | Elpida/test_regression/accuracy.py:7-9 | "1100000000000000" is refused with a ValueError, not read as -0.5 |
| `Accuracy.DecodeGrouped` | Elpida/test_regression/accuracy.py:7-9 | "01_1 " is 3/2^15, as `int` reads it |
| `Accuracy.DecodeSignOnly` | Elpida/test_regression/accuracy.py:7-9 | a string with nothing after its first character is refused |
| `Accuracy.BinValue` | Elpida/test_regression/accuracy.py:9 | n binary digits are worth less than 2^n |
| `Accuracy.ToBin` | Elpida/test_regression/accuracy.py:7-9 | writes exactly k binary digits |
| `Accuracy.BinValueToBin` | Elpida/test_regression/accuracy.py:9 | k written binary digits hold the value modulo 2^k |
| `Accuracy.ToBinOfBinValue` | Elpida/test_regression/accuracy.py:9 | a string of binary digits is the spelling of its own value |
| `Accuracy.EncodeFraction` | Elpida/test_regression/accuracy.py:7-9 | the encoding of a fraction has W characters and starts with '0' |
| `Accuracy.DecodeEncodedFraction` | Elpida/test_regression/accuracy.py:7-9 | round trip: every n / 2^(W-1) with n < 2^(W-1), written as '0' and W-1 binary digits, decodes to itself |
| `Accuracy.EncodeDecodedFraction` | Elpida/test_regression/accuracy.py:7-9 | round trip the other way: a W-character string of '0' and binary digits decodes, and encoding its value gives the string back |
| `Accuracy.IsClose` | Elpida/test_regression/accuracy.py:6-11 | an empty string on either side is an IndexError; there is a verdict exactly when both strings decode; for rel_tol >= 0 the verdict is true exactly when the distance is within abs_tol or within rel_tol of either decoded value |
| `Accuracy.Close` | Elpida/test_regression/accuracy.py:11 | values within abs_tol are close; with rel_tol <= 0 and abs_tol >= 0 closeness is exactly distance <= abs_tol |
| `Accuracy.CloseCases` | Elpida/test_regression/accuracy.py:11 | for values that are not negative and rel_tol >= 0, `abs(a-b) <= max(rel_tol * max(abs(a), abs(b)), abs_tol)` holds exactly when one of the three alternatives does |
| `Accuracy.IsCloseSymmetric` | Elpida/test_regression/accuracy.py:6-11 | swapping the two strings changes neither the verdict nor the exception |
| `Accuracy.IsCloseReflexive` | Elpida/test_regression/accuracy.py:11 | a decodable string is close to itself whenever abs_tol >= 0 |
| `Accuracy.OneUnitApart` | Elpida/test_regression/accuracy.py:9-11 | with W = 16 and the default tolerances, values at most 2^-15 apart are close |
| `Accuracy.FarApart` | Elpida/test_regression/accuracy.py:9-11 | with the default tolerances, values more than 1e-3 apart are not close |
| `Accuracy.RowVerdict` | Elpida/test_regression/accuracy.py:21 | a row with fewer than two fields is an IndexError; a verdict exists exactly when both fields decode, and it does not depend on which field comes first |
| `Accuracy.CountCorrect` | Elpida/test_regression/accuracy.py:16-22 | the loop's `correct` is the count of close rows, and the first row that raises ends it |
| `Accuracy.CorrectCount` | Elpida/test_regression/accuracy.py:16-22 | the count never exceeds the number of rows |
| `Accuracy.TruesCount` | Elpida/test_regression/accuracy.py:21-22 | the count is the number of `true` verdicts |
| `Accuracy.ComputeAccuracy` | Elpida/test_regression/accuracy.py:16-24 | the script's result is the accuracy function |
| `Accuracy.Accuracy` | Elpida/test_regression/accuracy.py:24 | the accuracy lies in [0, 100]; an empty file divides by zero |
| `Accuracy.AccuracySpec` | Elpida/test_regression/accuracy.py:16-24 | a percentage is printed exactly when the file has rows and every row has a verdict; it is the share of `true` verdicts among the rows |
| `Accuracy.AccuracyFirstError` | Elpida/test_regression/accuracy.py:18-21 | the first row without a verdict (fewer than two fields, or a refused string) is the script's exception |
| `Accuracy.AllClose` | Elpida/test_regression/accuracy.py:16-24 | when every row is close, the accuracy is 100 |
| `CsvToMif.ConvertCsvToMif` | Scripts/python/actual_outputs_to_mif.py:2-13 | the loop writes each input line's converted body followed by '\n', in input order |
| `CsvToMif.MifTextStep` | Scripts/python/actual_outputs_to_mif.py:5-12 | one more input line appends its body and a newline to the output |
| `CsvToMif.MifBody` | Scripts/python/actual_outputs_to_mif.py:7-9 | no comma survives, and the body is as long as the stripped line less its commas |
| `CsvToMif.MifOneLineEach` | Scripts/python/actual_outputs_to_mif.py:5-12 | splitting the output on newlines gives one body per input line, in order, then the empty text after the last newline |
| `CsvToMif.MifBodyIndexLast` | Scripts/python/actual_outputs_to_mif.py:7-9 | the first field, the row index, is kept and closes the body, after the other fields in reverse order |
| `CsvToMif.MifBodySingleField` | Scripts/python/actual_outputs_to_mif.py:7-9 | a line without commas comes out as the stripped line |
| `CsvToMif.MifRoundTrip` | Scripts/python/actual_outputs_to_mif.py:7-9 | when every field has four characters and no whitespace, the reader of error_histogram.py:15-17 recovers the field list from the converted line |
| `CsvToMif.MifRowAgrees` | Scripts/python/actual_outputs_to_mif.py:7-9 | on such lines the two readers of error_histogram.py agree: the converted line decodes exactly when its CSV line does and its index is a hex token, and its columns are the decoded index followed by the actual row's columns |
| `CsvToMif.MifBodyNewlineFree` | Scripts/python/actual_outputs_to_mif.py:7-9 | the body holds a newline only if the stripped line does |
| `TextOps.Strip` | Scripts/python/error_histogram.py:15 | `str.strip` leaves a slice of the text without whitespace at either end, removing only whitespace |
| `TextOps.Split` | Scripts/python/error_histogram.py:32 | `str.split` gives one more field than there are separators |
| `TextOps.SplitHead` | Scripts/python/error_histogram.py:32-33 | the first field is a separator-free prefix of the text that ends at the first separator or at the end of the text |
| `TextOps.SplitFieldsFree` | Scripts/python/error_histogram.py:32 | no field of a split holds the separator |
| `TextOps.JoinSplit` | Scripts/python/error_histogram.py:32 | joining the fields on the separator gives back the text |
| `TextOps.SplitJoin` | Scripts/python/error_histogram.py:32 | splitting a join of separator-free fields gives the fields |
| `TextOps.Join` | Scripts/python/error_histogram.py:32 | the text `split` takes apart, written back: it is longer than its fields by one separator fewer than there are fields (`JoinSplit` and `SplitJoin` make it the inverse of `split`) |
| `TextOps.ConcatAppend` | Scripts/python/actual_outputs_to_mif.py:9 | `''.join` of two lists put together is the join of the first followed by the join of the second |
| `TextOps.Chunks` | Scripts/python/error_histogram.py:16 | every chunk is non-empty and at most four characters long, and all but the last have exactly four |
| `TextOps.ChunksConcat` | Scripts/python/error_histogram.py:16 | the chunks concatenate to the text |
| `TextOps.ChunksCount` | Scripts/python/error_histogram.py:16 | there are ceil(len/w) chunks |
| `TextOps.ChunksOfConcat` | Scripts/python/error_histogram.py:16 | text made of w-character parts chunks back into those parts |
| `TextOps.ChunkAt` | Scripts/python/error_histogram.py:16 | chunk k is the slice `s[4k:4k+4]`, cut short at the end of the text |
| `TextOps.Reverse` | Scripts/python/error_histogram.py:17 | element i of the reversed list is element n-1-i |
| `TextOps.ReverseReverse` | Scripts/python/actual_outputs_to_mif.py:8 | reversing twice gives the list back |
| `Results.MapIndexed` | Scripts/python/error_histogram.py:18-20 | a loop that stops at the first exception, when it completes, yields one result per element |
| `Results.MapIndexedSuccess` | Scripts/python/error_histogram.py:18-20 | the loop completes exactly when every step succeeds, and its results are the steps' results |
| `Results.MapIndexedFirstFailure` | Scripts/python/error_histogram.py:18-20 | the loop raises the exception of its first failing step |
| `Results.Filter` | Scripts/python/error_histogram.py:88-89 | a mask keeps only elements it selects, and never more elements than it was given |
| `Results.FilterMultiset` | Scripts/python/error_histogram.py:88-89 | each selected element is kept as often as it occurs, and no other element is kept |
| `Results.FilterConcat` | Scripts/python/error_histogram.py:88-89 | the mask keeps the order: filtering a concatenation filters each part in turn |
| `Results.FilterCount` | Scripts/python/error_histogram.py:88-91 | the mask keeps one element per position it selects |
| `Results.FilterKeeps` | Scripts/python/error_histogram.py:88-89 | every element the mask selects is kept |
| `Results.FilterWeaker` | Scripts/python/error_histogram.py:86-89 | a weaker mask keeps at least as many elements |
| `Numeric.Percent` | Scripts/python/error_histogram.py:90-91 | a part of a whole is between 0 and 100 percent of it |
| `Numeric.PercentMonotone` | Scripts/python/error_histogram.py:90-91 | a larger part is a larger percentage |

## Left out

- File input and output: `open`, `readlines`, `to_csv`, the chart `.save` calls and the hard-coded paths. Files are given as the list of their lines, and results are returned.
- `print` calls, which only echo values.
- pandas `DataFrame`, `set_index`, `melt` and column assignment. The model keeps the row lists the readers build. The statistics and the calculated error work on the melted value columns, given as lists of cells in melt order, with NaN as `None` wherever a row had fewer columns than the longest. The calculated error pairs the expected and actual columns by position, as the melted frames line up; it is not a join on (index, column).
- Altair charts and their 40-bin histograms, which are rendering only.
- IEEE-754 rounding. Values are exact reals, so comparisons at a tolerance boundary may differ from floats.
- `float()` in `get_actual_error_values` is a parameter `parse` of the model. A field it refuses is a ValueError.
- `ErrorHistogram.MeasuredValue`: `float` reads "nan", "inf" and "-inf" as NaN and infinities, and the loop goes on; NaN passes both comparisons unchanged. `parse` returns an exact real or nothing, so the model either refuses such a field or reads some real for it.
- `HexFixedPoint.TwosComplement`: `BitArray(hex=…)` also accepts upper-case digits, a `0x` prefix, embedded whitespace and, in recent versions of `bitstring`, underscores. The model refuses these, so it decodes fewer tokens than the library does.
- `Accuracy.DecodeFraction`: `int` also accepts non-ASCII Unicode digits, the first character included, which the model refuses.
- `csv.reader` quoting and escaping: rows of accuracy.py are given already split into fields.
- `Accuracy.IsClose`: a width below 1 is excluded (`requires width >= 1`). The script always passes 16.
- Scripts/python/mif_to_mem.py, Scripts/python/format_old_rom_to_new_rom.py, Scripts/python/remove_old_mem_files.py and Scripts/python/gantt_chart.py are file-system glue and charting. They are not part of this model.
