# Delimited-file loading and collection helpers, in Dafny

This project models two utility classes of a Java text-mining toolkit:

- `FileLoaderUtil`. It loads a delimited text file as one row of
  requested columns per non-comment line, a single column as a list, or
  the lines themselves.
- `CollectionsUtil` (package `edu.ucdenver.ccp.util.collections`). These are
  small collection helpers: `createList`, `createSet`, `array2Set`,
  `createMap`, `combineMaps`, `parseInts`, `createZeroBasedSequence` and
  `addToOne2ManyMap`.

The loader imports a `CollectionsUtil` from another package,
`edu.ucdenver.ccp.common.collections` (FileLoaderUtil.java:8). It uses only
`createZeroBasedSequence` from it (FileLoaderUtil.java:102). The model assumes
that this method behaves like the modelled one, and the loader calls
`CollectionsUtil.CreateZeroBasedSequence`.

The scenario lemmas take their inputs and expected results from
`FileLoaderUtilTest.java`. That test lives in package
`edu.ucdenver.ccp.util.file` and exercises a same-named `FileLoaderUtil` of
that package, which also has a `getLineIterator` that the modelled class
lacks. `FileLoaderScenarios` replays the test's inputs against the modelled
class. This assumes that the methods both classes share (the column loaders
and `loadLinesFromFile`) behave the same.

The model is a set of pure functions over immutable values:

- A file is the sequence of its raw lines. Reading, decoding and
  iterating over it are not modelled.
- Dropping comment lines is `LineSource.RetainedLines`.
- Splitting a line on the delimiter pattern is a function-typed parameter
  (`FileLoaderUtil.Splitter`). Every property of the loader is stated in
  terms of whatever tokens that splitter returns.
- A Java `null` argument that the code tests for is an `Option`.
- Each exception the code throws deliberately is a `Failure` of a
  `Result`:
  - `IllegalArgumentException` is `InvalidConfig`;
  - `ArrayIndexOutOfBoundsException` is `ColumnOutOfRange`, carrying the
    index, the token count and the line;
  - `NumberFormatException` carries the string that failed.
- The Java exceptions that `createMap` (odd length) and
  `createZeroBasedSequence` (negative length) would raise are `None`.

Modules:

| module | file | what it holds |
|---|---|---|
| `Wrappers` | wrappers.dfy | `Option`, `Result` and `Outcome` |
| `FailFast` | fail_fast.dfy | `MapAll`, the in-order loop that stops at the first failure. Column projection, the per-line load and `parseInts` all share it. |
| `JavaInteger` | java_integer.dfy | `Integer.parseInt`, with `Integer.toString` as its inverse |
| `CollectionsUtil` | collections_util.dfy | the collection helpers |
| `LineSource` | line_source.dfy | comment filtering over the raw lines |
| `TabText` | tab_text.dfy | tab-separated text built from a table of cells (split, join, lines, columns), used to state the test scenarios |
| `FileLoaderUtil` | file_loader_util.dfy | the loader |
| `FileLoaderScenarios` | file_loader_scenarios.dfy | the inputs and expected results of `FileLoaderUtilTest.java`, replayed against the modelled loader with a concrete tab splitter |

Where the program's own documentation and its code disagree, the model
follows the code:

- **No requested columns.** The Javadoc of `getColumnsFromLine`
  (FileLoaderUtil.java:80-82) says that with no column indexes "the entire
  line is returned". With a delimiter, the code (FileLoaderUtil.java:101-103)
  instead returns every split token. Only the file loader
  (FileLoaderUtil.java:64-69) rejects a delimiter with no column indexes.
- **Index 5 on the file with a short third line.** The test at
  FileLoaderUtilTest.java:206-209 expects only an
  `ArrayIndexOutOfBoundsException`, and its name suggests the short third
  line as the cause. Every line of that file has at most five tokens, so
  index 5 already fails on line 1, reporting five tokens
  (`FileLoaderScenarios.LoadSixthColumnFailsOnFirstLine`).

## Model

| member | source | states |
|---|---|---|
| FailFast.MapAll | src/main/java/edu/ucdenver/ccp/common/file/FileLoaderUtil.java:106-110 | The fail-fast loop succeeds iff every element succeeds. On success it yields one result per element, in order. On failure the error is that of the first failing element, and every earlier element succeeded. |
| FailFast.MapAllAppend | src/main/java/edu/ucdenver/ccp/common/file/FileLoaderUtil.java:70-76 | Looping over `a + b` is looping over `a` and then over `b`. A failure in `a` wins; otherwise the results are concatenated. |
| FileLoaderUtil.IsColumnIndexValid | src/main/java/edu/ucdenver/ccp/common/file/FileLoaderUtil.java:179-181 | An index is valid exactly when it is at least 0 and less than the number of tokens. |
| FileLoaderUtil.ValidIndexesAreZeroBasedSequence | src/main/java/edu/ucdenver/ccp/common/file/FileLoaderUtil.java:101-103 | The valid indexes of a line are exactly the members of the zero-based sequence of its token count. That sequence is what the code projects when no column is requested. |
| FileLoaderUtil.EnsureColumnIndexIsValid | src/main/java/edu/ucdenver/ccp/common/file/FileLoaderUtil.java:193-200 | Passes iff the index is in range. Otherwise fails with the index, the token count and the line. |
| FileLoaderUtil.ColumnAt | src/main/java/edu/ucdenver/ccp/common/file/FileLoaderUtil.java:106-109 | One loop step: the token at the index when the index is valid. Otherwise the out-of-range error for that index and line. |
| FileLoaderUtil.ProjectColumns | src/main/java/edu/ucdenver/ccp/common/file/FileLoaderUtil.java:104-110 | Succeeds iff every requested index is valid. It then yields one token per index, in request order. A failure names the first invalid index, and every earlier index was valid. |
| FileLoaderUtil.GetColumnsFromLineWithEnclosure | src/main/java/edu/ucdenver/ccp/common/file/FileLoaderUtil.java:95-112 | With no delimiter, the whole line as the only column. With a delimiter and no requested columns, every token. Otherwise the projection of the requested indexes. Every failure is an out-of-range error about this line. |
| FileLoaderUtil.GetColumnsFromLine | src/main/java/edu/ucdenver/ccp/common/file/FileLoaderUtil.java:90-93 | The same extraction with no field enclosure. With no delimiter, the line itself. With a delimiter and no requested columns, every split token. Otherwise the projection of the requested indexes: it succeeds iff each index is valid for the split line, then yields the token at each index, and otherwise fails naming the first invalid index and the token count. |
| FileLoaderUtil.LoadColumnsFromDelimitedFile | src/main/java/edu/ucdenver/ccp/common/file/FileLoaderUtil.java:61-77 | A delimiter with no columns requested is rejected before any line is read. Otherwise, if every retained line extracts, the load succeeds with one row per retained line in file order, each row being that line's extraction. A column failure is the failure of the first failing line. |
| FileLoaderUtil.LoadRows | src/main/java/edu/ucdenver/ccp/common/file/FileLoaderUtil.java:71-75 | The per-line loop succeeds iff every line extracts. It yields each line's row in order; otherwise it fails with the first failing line's out-of-range error. |
| FileLoaderUtil.LoadColumnFromDelimitedFile | src/main/java/edu/ucdenver/ccp/common/file/FileLoaderUtil.java:124-134 | Succeeds iff the multi-column load of `[columnIndex]` succeeds. Each entry is the single cell of the matching row, and a failure is the same out-of-range error. Without a delimiter it is the retained lines. |
| FileLoaderUtil.FirstCells | src/main/java/edu/ucdenver/ccp/common/file/FileLoaderUtil.java:128-132 | The first cell of every row, one per row, in order. |
| FileLoaderUtil.LoadLinesFromFile | src/main/java/edu/ucdenver/ccp/common/file/FileLoaderUtil.java:149-168 | Exactly the non-comment lines, unchanged and in order. With no comment indicator, all the lines. |
| FileLoaderUtil.LoadFromRows | src/main/java/edu/ucdenver/ccp/common/file/FileLoaderUtil.java:70-76 | When each retained line extracts to a given row, the load returns exactly those rows. |
| FileLoaderUtil.NullDelimiterLoadsWholeLines | src/main/java/edu/ucdenver/ccp/common/file/FileLoaderUtil.java:97-98 | With no delimiter, every retained line comes back whole as a one-column row, whatever columns were requested. |
| FileLoaderUtil.LoadColumnsAppend | src/main/java/edu/ucdenver/ccp/common/file/FileLoaderUtil.java:70-76 | For any configuration, loading a file made of two parts is loading the first part, then the second. A failure in the first part is the failure of the whole load. |
| FileLoaderUtil.SingleColumnOfLine | src/main/java/edu/ucdenver/ccp/common/file/FileLoaderUtil.java:104-109 | One requested column of one line: the token, iff the index is valid. Otherwise the error with that index, the token count and the line. |
| FileLoaderUtil.SingleColumnIsThatColumnOfEachLine | src/main/java/edu/ucdenver/ccp/common/file/FileLoaderUtil.java:124-134 | The single-column load succeeds iff every retained line has the column. It then holds that token of each retained line, in order. A failure names the requested index. |
| FileLoaderUtil.SingleColumnLoadsWhenEveryLineHasIt | src/main/java/edu/ucdenver/ccp/common/file/FileLoaderUtil.java:124-134 | Every retained line having the column makes the single-column load succeed. |
| FileLoaderUtil.SingleColumnIsEachLinesToken | src/main/java/edu/ucdenver/ccp/common/file/FileLoaderUtil.java:124-134 | A successful single-column load has one entry per retained line, and each is that line's token at the index. |
| FileLoaderUtil.SingleColumnFailureNamesIndex | src/main/java/edu/ucdenver/ccp/common/file/FileLoaderUtil.java:193-199 | A failed single-column load reports the requested index. |
| FileLoaderUtil.EveryLineHasTheColumn | src/main/java/edu/ucdenver/ccp/common/file/FileLoaderUtil.java:106-109 | Lines that all have the column all extract successfully. |
| FileLoaderUtil.ColumnOfEveryLine | src/main/java/edu/ucdenver/ccp/common/file/FileLoaderUtil.java:106-109 | Single-column rows are, line by line, the token at the index, which every line has. |
| LineSource.RetainedLines | src/main/java/edu/ucdenver/ccp/common/file/FileLoaderUtil.java:71-73 | The kept lines are exactly the lines that are not comments. None is added. With no indicator, every line is kept. |
| LineSource.RetainedLinesAppend | src/main/java/edu/ucdenver/ccp/common/file/FileLoaderUtil.java:71-73 | Filtering two concatenated parts filters each part. Order is kept. |
| LineSource.RetainedLinesWithoutComments | src/main/java/edu/ucdenver/ccp/common/file/FileLoaderUtil.java:71-73 | A file without comment lines is kept whole. |
| LineSource.DropsTheOneCommentLine | src/main/java/edu/ucdenver/ccp/common/file/FileLoaderUtil.java:71-73 | A single comment line between comment-free parts is the only line dropped. |
| CollectionsUtil.CreateList | src/main/java/edu/ucdenver/ccp/util/collections/CollectionsUtil.java:21-26 | A null argument gives null. Otherwise the list holds the same entries in the same order. |
| CollectionsUtil.CreateSet | src/main/java/edu/ucdenver/ccp/util/collections/CollectionsUtil.java:35-40 | A null argument gives null. Otherwise the set holds exactly the given elements. |
| CollectionsUtil.Array2Set | src/main/java/edu/ucdenver/ccp/util/collections/CollectionsUtil.java:49-51 | Exactly the elements of the array, and never more of them than array entries. |
| CollectionsUtil.ToSetCardinality | src/main/java/edu/ucdenver/ccp/util/collections/CollectionsUtil.java:49-51 | The set is no larger than the array, and exactly as large iff no entry repeats. |
| CollectionsUtil.CreateSetOfCreateList | src/main/java/edu/ucdenver/ccp/util/collections/CollectionsUtil.java:35-40 | `createSet` is `array2Set` of `createList`: null iff null, and otherwise the same set. |
| CollectionsUtil.PutPairs | src/main/java/edu/ucdenver/ccp/util/collections/CollectionsUtil.java:63-67 | The keys are exactly the even-position entries. Each key maps to the value after its last occurrence. |
| CollectionsUtil.CreateMap | src/main/java/edu/ucdenver/ccp/util/collections/CollectionsUtil.java:62-68 | Defined iff the argument count is even. The keys are exactly the key positions, and a later pair with the same key overwrites an earlier one. |
| CollectionsUtil.PutPairsAppend | src/main/java/edu/ucdenver/ccp/util/collections/CollectionsUtil.java:63-67 | Putting two runs of pairs is the union of their maps, the second run winning. |
| CollectionsUtil.CreateMapAppend | src/main/java/edu/ucdenver/ccp/util/collections/CollectionsUtil.java:62-68 | `createMap` of two even runs of pairs is `combineMaps` of the two maps. |
| CollectionsUtil.CombineMaps | src/main/java/edu/ucdenver/ccp/util/collections/CollectionsUtil.java:78-84 | The keys are exactly the keys of the input maps. A key gets its value from the last map that has it. |
| CollectionsUtil.CombineMapsStep | src/main/java/edu/ucdenver/ccp/util/collections/CollectionsUtil.java:80-82 | One more `putAll` keeps both properties of `CombineMaps`, now over all the maps. |
| CollectionsUtil.CombineMapsAppend | src/main/java/edu/ucdenver/ccp/util/collections/CollectionsUtil.java:78-84 | Combining two concatenated lists of maps is the union of the two combinations, the later list winning. |
| CollectionsUtil.AddToOne2ManyMap | src/main/java/edu/ucdenver/ccp/util/collections/CollectionsUtil.java:123-131 | The key set gains `key`. Its set gains `value`, or becomes `{value}` if the key was absent. Every other key keeps its set. |
| CollectionsUtil.AddToOne2ManyMapRelation | src/main/java/edu/ucdenver/ccp/util/collections/CollectionsUtil.java:123-131 | As a relation, the insert adds exactly the pair `(key, value)`. |
| CollectionsUtil.AddToOne2ManyMapIdempotent | src/main/java/edu/ucdenver/ccp/util/collections/CollectionsUtil.java:123-131 | Inserting the same pair twice is inserting it once. |
| CollectionsUtil.AddToOne2ManyMapCommutes | src/main/java/edu/ucdenver/ccp/util/collections/CollectionsUtil.java:123-131 | Two inserts give the same map in either order. |
| CollectionsUtil.ParseIntOrFail | src/main/java/edu/ucdenver/ccp/util/collections/CollectionsUtil.java:95 | The parsed value when the string is a decimal `int`. Otherwise a failure carrying the string. |
| CollectionsUtil.ParseInts | src/main/java/edu/ucdenver/ccp/util/collections/CollectionsUtil.java:92-98 | Succeeds iff every string parses. It then yields each value in order. Otherwise it fails with the first string that does not parse. |
| CollectionsUtil.ParseIntsInvertsToDecimal | src/main/java/edu/ucdenver/ccp/util/collections/CollectionsUtil.java:92-98 | A list of `int`s written in decimal parses back to the same list. |
| CollectionsUtil.ZeroBasedSequence | src/main/java/edu/ucdenver/ccp/util/collections/CollectionsUtil.java:107-111 | It has `length` entries, and entry `i` is `i`. |
| CollectionsUtil.CreateZeroBasedSequence | src/main/java/edu/ucdenver/ccp/util/collections/CollectionsUtil.java:106-112 | Defined iff the length is not negative. Entry `i` is `i`, and its members are exactly 0 to `length - 1`. |
| JavaInteger.ParseInt | src/main/java/edu/ucdenver/ccp/util/collections/CollectionsUtil.java:95 | As in Java 6: a parsed value fits in an `int` and came from a run of digits with an optional leading '-'. The empty string, a lone '-' and anything starting with '+' do not parse. A parsed value is the signed value of its digits, so a run too large for an `int` fails. Conversely, every run of digits, with or without a leading '-', whose signed value fits in an `int` parses to exactly that value. |
| JavaInteger.LeadingZeroKeepsValue | src/main/java/edu/ucdenver/ccp/util/collections/CollectionsUtil.java:95 | A leading zero does not change the value of a run of digits. |
| JavaInteger.ParseIntIgnoresLeadingZero | src/main/java/edu/ucdenver/ccp/util/collections/CollectionsUtil.java:95 | A digit string with a leading zero parses exactly like the string without it. |
| JavaInteger.ParseIntRejectsPlusSign | src/main/java/edu/ucdenver/ccp/util/collections/CollectionsUtil.java:95 | Under Java 6 a digit string with a leading '+' never parses, while the same digits without it parse to their value when it fits in an `int`. |
| JavaInteger.ParseIntOfNegativeZero | src/main/java/edu/ucdenver/ccp/util/collections/CollectionsUtil.java:95 | "-0" parses to 0. |
| JavaInteger.ParseIntRejectsOverflow | src/main/java/edu/ucdenver/ccp/util/collections/CollectionsUtil.java:95 | A run of digits whose value does not fit in an `int` fails to parse, bare or with '-'. |
| JavaInteger.NatToDigits | src/main/java/edu/ucdenver/ccp/util/collections/CollectionsUtil.java:95 | Non-empty decimal digits with no leading zero, whose value is `n`. |
| JavaInteger.ToDecimal | src/main/java/edu/ucdenver/ccp/util/collections/CollectionsUtil.java:95 | Non-empty text: a '-' iff the value is negative, and decimal digits after it. |
| JavaInteger.ParseIntInvertsToDecimal | src/main/java/edu/ucdenver/ccp/util/collections/CollectionsUtil.java:95 | Every `int` parses back from its decimal text. |
| FileLoaderScenarios.ColumnsOfTabLine | test/edu/ucdenver/ccp/util/file/FileLoaderUtilTest.java:235-244 | A tab line built from cells gives the requested cells of its row. |
| FileLoaderScenarios.LoadColumnsOfTabFile | test/edu/ucdenver/ccp/util/file/FileLoaderUtilTest.java:235-244 | Loading columns of a tab file whose rows all have them gives, per row, those cells in request order. |
| FileLoaderScenarios.LoadColumnOfTabFile | test/edu/ucdenver/ccp/util/file/FileLoaderUtilTest.java:191-204 | The single-column load of a tab file whose retained rows all have the column is that column of the table. |
| FileLoaderScenarios.LoadColumnOfTabFileFailsOnFirstRow | test/edu/ucdenver/ccp/util/file/FileLoaderUtilTest.java:206-227 | When the first row lacks the column, the load fails on the first line with that row's cell count. |
| FileLoaderScenarios.RetainedTabLinesWithOneComment | test/edu/ucdenver/ccp/util/file/FileLoaderUtilTest.java:211-217 | A tab file whose only comment is line `k` keeps the lines of every other row. |
| FileLoaderScenarios.OtherRowsHaveColumn | test/edu/ucdenver/ccp/util/file/FileLoaderUtilTest.java:211-217 | Dropping the commented row keeps the column in every remaining row. |
| FileLoaderScenarios.LoadColumnOfTabFileWithOneComment | test/edu/ucdenver/ccp/util/file/FileLoaderUtilTest.java:211-217 | With exactly one comment line, the single-column load is that column of every other row. |
| FileLoaderScenarios.LoadSecondThirdAndFifthColumns | test/edu/ucdenver/ccp/util/file/FileLoaderUtilTest.java:235-244 | Columns 1, 2 and 4 of the five-column file are `12 13 15`, `22 23 25` and so on, per line. |
| FileLoaderScenarios.NullDelimiterReturnsEntireLines | test/edu/ucdenver/ccp/util/file/FileLoaderUtilTest.java:246-256 | With no delimiter each of six lines comes back whole, although columns 2, 3 and 5 were requested. |
| FileLoaderScenarios.LoadThirdColumn | test/edu/ucdenver/ccp/util/file/FileLoaderUtilTest.java:191-196 | The third column of the five-column file is `13 23 33 43 53 63`. |
| FileLoaderScenarios.LoadThirdColumnWithShortLineThree | test/edu/ucdenver/ccp/util/file/FileLoaderUtilTest.java:198-204 | The third column is the same when line three has only four columns. |
| FileLoaderScenarios.LoadSixthColumnFailsOnFirstLine | test/edu/ucdenver/ccp/util/file/FileLoaderUtilTest.java:206-209 | Index 5 fails on line one, reporting five tokens and that line. |
| FileLoaderScenarios.LoadThirdColumnSkippingComment | test/edu/ucdenver/ccp/util/file/FileLoaderUtilTest.java:211-217 | With `//` as comment indicator, the commented fourth line is skipped: `13 23 33 53 63`. |
| FileLoaderScenarios.OutOfRangeColumnFailsOnFirstLine | test/edu/ucdenver/ccp/util/file/FileLoaderUtilTest.java:219-227 | Index 15, and index -1, fail on line one of the commented file, reporting five tokens. |
| FileLoaderScenarios.DelimiterWithoutColumnsIsRejected | test/edu/ucdenver/ccp/util/file/FileLoaderUtilTest.java:273-286 | A delimiter with null or empty column indexes is an invalid configuration. |
| FileLoaderScenarios.ColumnIndexesOfThreeTokens | test/edu/ucdenver/ccp/util/file/FileLoaderUtilTest.java:288-294 | Of three tokens, indexes 0, 1 and 2 are valid and 3 is not. |

## Left out

- Reading the file is not modelled: opening, decoding with an encoding, the
  platform default encoding, and `IOException`. `StreamLineIterator` is not
  part of this model, so its line numbers and iterator protocol are absent
  (`hasNext`, `next` on exhaustion, `remove`).
- LineSource.IsComment: a line is a comment when it starts with the
  indicator, taken on the raw line. Whether the line iterator trims the line
  first depends on `StreamLineIterator`, which is not part of this model.
- FileLoaderUtil.Splitter: `StringUtil.splitWithFieldEnclosure` is not part
  of this model. Its regular-expression splitting and field-enclosure
  handling are a parameter, and every result is stated relative to the tokens
  it returns. The scenarios use a plain split on the tab character, which
  agrees with a tab regular expression on lines whose cells are non-empty,
  which every modelled test file is (`TabText.WellFormedRows`).
- FileLoaderUtil.LoadColumnsFromDelimitedFile: the error carries the index,
  the token count and the line, but not the formatted exception message.
  The overloads that only supply a default encoding are the same function.
- Strings, lists, arrays and maps are never `null` in this model, except
  where the code tests for `null`. The untested cases are not modelled:
  - `getColumnsFromLine` with a `null` line and a `null` delimiter returns
    `{ null }` (FileLoaderUtil.java:97-98);
  - a `null` line with a delimiter goes to `StringUtil.splitWithFieldEnclosure`,
    which is not part of this model;
  - a `null` element of the `parseInts` list makes `Integer.parseInt` throw
    `NumberFormatException`;
  - a `null` list, array or map passed to `parseInts`, `createMap`,
    `array2Set`, `combineMaps` or `addToOne2ManyMap` throws
    `NullPointerException`, as does a `null` map inside the `combineMaps`
    arguments.
- CollectionsUtil.AddToOne2ManyMap: returns the updated map instead of
  mutating its argument. Sharing of the value set with other references
  (Java aliasing) is not modelled.
- CollectionsUtil.CreateList: returns a value sequence. The fixed-size,
  write-through view that `Arrays.asList` gives is not modelled.
- JavaInteger.ParseInt: ASCII digits only. `Integer.parseInt` also accepts
  other Unicode decimal digits, which this model rejects.
- JavaInteger.ParseInt: follows Java 6, which the 2010 sources were written
  against, so a leading '+' is rejected. From Java 7 on, `Integer.parseInt`
  accepts a leading '+' and reads "+5" as 5; that behaviour is not modelled.
- CollectionsUtil.CreateZeroBasedSequence: the length is an unbounded
  integer. Java's `int` bound on array length (and an out-of-memory error
  for huge lengths) is not modelled.
- The other classes of the repository are outside this model: regular
  expression constants, the GeneRIF parser, string-buffer helpers,
  directory listing and document feeding.
