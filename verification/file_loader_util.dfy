/** Column extraction from delimited text files, over a file given as its
    sequence of raw lines. Reading the file is not modelled; the splitting
    of a line into tokens is a parameter (`Splitter`), and every property is
    stated relative to whatever tokens it returns. */
module FileLoaderUtil {
  import opened Wrappers
  import opened FailFast
  import opened LineSource
  import CollectionsUtil

  /** Splits a line on a delimiter pattern, optionally honouring a
      field-enclosure pattern: `split(line, delimiterRegex, fieldEnclosingRegex)`. */
  type Splitter = (string, string, Option<string>) -> seq<string>

  /** The failures of the loader, with the fields its messages carry. */
  datatype LoadError =
    | InvalidConfig(delimiter: string)
    | ColumnOutOfRange(index: int, count: nat, line: string)

  /** A null or empty list of requested column indexes. */
  predicate NoColumnsRequested(columnIndexes: Option<seq<int>>) {
    columnIndexes.None? || |columnIndexes.value| == 0
  }

  /** `isColumnIndexValid`: the line has a token at `columnIndex`. */
  function IsColumnIndexValid(columnIndex: int, lineTokens: seq<string>): (valid: bool)
    ensures valid <==> 0 <= columnIndex < |lineTokens|
  {
    columnIndex > -1 && columnIndex < |lineTokens|
  }

  /** The valid column indexes of a line are exactly the zero-based
      sequence as long as the line has tokens: the indexes the loader
      projects when no column is requested. */
  lemma ValidIndexesAreZeroBasedSequence(columnIndex: int, lineTokens: seq<string>)
    ensures IsColumnIndexValid(columnIndex, lineTokens) <==>
            columnIndex in CollectionsUtil.CreateZeroBasedSequence(|lineTokens|).value
  {
  }

  /** `ensureColumnIndexIsValid`: passes on a valid index, otherwise fails
      with the index, the number of tokens and the line. */
  function EnsureColumnIndexIsValid(columnIndex: int, line: string, lineTokens: seq<string>): (r: Outcome<LoadError>)
    ensures r.Pass? <==> 0 <= columnIndex < |lineTokens|
    ensures r.Fail? ==> r.error == ColumnOutOfRange(columnIndex, |lineTokens|, line)
  {
    if !IsColumnIndexValid(columnIndex, lineTokens) then
      Fail(ColumnOutOfRange(columnIndex, |lineTokens|, line))
    else
      Pass
  }

  /** One iteration of the projection loop: check the index, then read the token. */
  function ColumnAt(line: string, lineTokens: seq<string>, columnIndex: int): (r: Result<string, LoadError>)
    ensures r.Success? <==> IsColumnIndexValid(columnIndex, lineTokens)
    ensures r.Success? ==> r.value == lineTokens[columnIndex]
    ensures r.Failure? ==> r.error == ColumnOutOfRange(columnIndex, |lineTokens|, line)
  {
    match EnsureColumnIndexIsValid(columnIndex, line, lineTokens)
    case Fail(e) => Failure(e)
    case Pass => Success(lineTokens[columnIndex])
  }

  /** The requested tokens, in request order; the first requested index the
      line does not have aborts the projection. */
  function ProjectColumns(line: string, lineTokens: seq<string>, columnIndexes: seq<int>): (r: Result<seq<string>, LoadError>)
    ensures r.Success? <==> forall k :: 0 <= k < |columnIndexes| ==> IsColumnIndexValid(columnIndexes[k], lineTokens)
    ensures r.Success? ==>
              && |r.value| == |columnIndexes|
              && forall k :: 0 <= k < |columnIndexes| ==>
                   0 <= columnIndexes[k] < |lineTokens| && r.value[k] == lineTokens[columnIndexes[k]]
    ensures r.Failure? ==>
              exists j :: && 0 <= j < |columnIndexes|
                          && !IsColumnIndexValid(columnIndexes[j], lineTokens)
                          && (forall k :: 0 <= k < j ==> IsColumnIndexValid(columnIndexes[k], lineTokens))
                          && r.error == ColumnOutOfRange(columnIndexes[j], |lineTokens|, line)
  {
    MapAll(i => ColumnAt(line, lineTokens, i), columnIndexes)
  }

  /** `getColumnsFromLine(line, delimiterRegex, fieldEnclosingRegex, columnIndexes...)`.
      Without a delimiter the whole line is the only column. With one, the
      line is split and the requested tokens are returned in request order;
      no requested indexes means every token. */
  function GetColumnsFromLineWithEnclosure(
    split: Splitter, line: string, delimiterRegex: Option<string>,
    fieldEnclosingRegex: Option<string>, columnIndexes: Option<seq<int>>): (r: Result<seq<string>, LoadError>)
    ensures delimiterRegex.None? ==> r == Success([line])
    ensures delimiterRegex.Some? && NoColumnsRequested(columnIndexes) ==>
              r == Success(split(line, delimiterRegex.value, fieldEnclosingRegex))
    ensures delimiterRegex.Some? && !NoColumnsRequested(columnIndexes) ==>
              r == ProjectColumns(line, split(line, delimiterRegex.value, fieldEnclosingRegex), columnIndexes.value)
    ensures r.Failure? ==> r.error.ColumnOutOfRange? && r.error.line == line
  {
    match delimiterRegex
    case None => Success([line])
    case Some(d) =>
      var lineTokens := split(line, d, fieldEnclosingRegex);
      var requested :=
        if NoColumnsRequested(columnIndexes)
        then CollectionsUtil.CreateZeroBasedSequence(|lineTokens|).value
        else columnIndexes.value;
      var r := ProjectColumns(line, lineTokens, requested);
      assert NoColumnsRequested(columnIndexes) ==> r.Success? && r.value == lineTokens;
      r
  }

  /** `getColumnsFromLine(line, delimiterRegex, columnIndexes...)`: the same
      extraction with no field enclosure. */
  function GetColumnsFromLine(
    split: Splitter, line: string, delimiterRegex: Option<string>,
    columnIndexes: Option<seq<int>>): (r: Result<seq<string>, LoadError>)
    ensures delimiterRegex.None? ==> r == Success([line])
    ensures delimiterRegex.Some? && NoColumnsRequested(columnIndexes) ==>
              r == Success(split(line, delimiterRegex.value, None))
    ensures delimiterRegex.Some? && !NoColumnsRequested(columnIndexes) ==>
              r == ProjectColumns(line, split(line, delimiterRegex.value, None), columnIndexes.value)
    ensures delimiterRegex.Some? && !NoColumnsRequested(columnIndexes) ==>
              (r.Success? <==> forall k :: 0 <= k < |columnIndexes.value| ==>
                                 IsColumnIndexValid(columnIndexes.value[k], split(line, delimiterRegex.value, None)))
    ensures delimiterRegex.Some? && !NoColumnsRequested(columnIndexes) && r.Success? ==>
              && |r.value| == |columnIndexes.value|
              && forall k :: 0 <= k < |columnIndexes.value| ==>
                   r.value[k] == split(line, delimiterRegex.value, None)[columnIndexes.value[k]]
    ensures r.Failure? ==> r.error.ColumnOutOfRange? && r.error.line == line
  {
    GetColumnsFromLineWithEnclosure(split, line, delimiterRegex, None, columnIndexes)
  }

  /** `loadColumnsFromDelimitedFile(file, delimiter, commentIndicator, columnIndexes...)`.
      A delimiter with no requested column is rejected before any line is
      looked at. Otherwise every non-comment line, in file order, yields one
      row, and the first line whose extraction fails aborts the load. */
  function LoadColumnsFromDelimitedFile(
    split: Splitter, lines: seq<string>, delimiter: Option<string>,
    commentIndicator: Option<string>, columnIndexes: Option<seq<int>>): (r: Result<seq<seq<string>>, LoadError>)
    ensures delimiter.Some? && NoColumnsRequested(columnIndexes) ==> r == Failure(InvalidConfig(delimiter.value))
    ensures !(delimiter.Some? && NoColumnsRequested(columnIndexes)) &&
            (forall i :: 0 <= i < |RetainedLines(lines, commentIndicator)| ==>
               GetColumnsFromLine(split, RetainedLines(lines, commentIndicator)[i], delimiter, columnIndexes).Success?)
            ==> r.Success?
    ensures r.Success? ==>
              && |r.value| == |RetainedLines(lines, commentIndicator)|
              && forall i :: 0 <= i < |r.value| ==>
                   GetColumnsFromLine(split, RetainedLines(lines, commentIndicator)[i], delimiter, columnIndexes)
                   == Success(r.value[i])
    ensures r.Failure? && r.error.ColumnOutOfRange? ==>
              exists j :: && 0 <= j < |RetainedLines(lines, commentIndicator)|
                          && GetColumnsFromLine(split, RetainedLines(lines, commentIndicator)[j], delimiter, columnIndexes)
                             == Failure(r.error)
                          && forall i :: 0 <= i < j ==>
                               GetColumnsFromLine(split, RetainedLines(lines, commentIndicator)[i], delimiter, columnIndexes).Success?
    ensures r.Failure? && r.error.InvalidConfig? ==> delimiter.Some? && NoColumnsRequested(columnIndexes)
  {
    if delimiter.Some? && NoColumnsRequested(columnIndexes) then
      Failure(InvalidConfig(delimiter.value))
    else
      var texts := RetainedLines(lines, commentIndicator);
      var r := LoadRows(split, texts, delimiter, columnIndexes);
      assert (forall i :: 0 <= i < |texts| ==> GetColumnsFromLine(split, texts[i], delimiter, columnIndexes).Success?) ==> r.Success?;
      r
  }

  /** The per-line loop of the loader: one row per line, in order, and the
      first failing line ends it. */
  function LoadRows(
    split: Splitter, texts: seq<string>, delimiter: Option<string>,
    columnIndexes: Option<seq<int>>): (r: Result<seq<seq<string>>, LoadError>)
    ensures r.Success? <==>
              forall i :: 0 <= i < |texts| ==> GetColumnsFromLine(split, texts[i], delimiter, columnIndexes).Success?
    ensures r.Success? ==>
              && |r.value| == |texts|
              && forall i :: 0 <= i < |texts| ==>
                   GetColumnsFromLine(split, texts[i], delimiter, columnIndexes) == Success(r.value[i])
    ensures r.Failure? ==>
              && r.error.ColumnOutOfRange?
              && exists j :: && 0 <= j < |texts|
                             && GetColumnsFromLine(split, texts[j], delimiter, columnIndexes) == Failure(r.error)
                             && forall i :: 0 <= i < j ==>
                                  GetColumnsFromLine(split, texts[i], delimiter, columnIndexes).Success?
  {
    MapAll(text => GetColumnsFromLine(split, text, delimiter, columnIndexes), texts)
  }

  /** `loadColumnFromDelimitedFile(file, encoding, delimiter, commentIndicator, columnIndex)`:
      the first (and only) column of each row loaded for `columnIndex`. */
  function LoadColumnFromDelimitedFile(
    split: Splitter, lines: seq<string>, delimiter: Option<string>,
    commentIndicator: Option<string>, columnIndex: int): (r: Result<seq<string>, LoadError>)
    ensures r.Success? <==> LoadColumnsFromDelimitedFile(split, lines, delimiter, commentIndicator, Some([columnIndex])).Success?
    ensures r.Success? ==>
              && |r.value| == |LoadColumnsFromDelimitedFile(split, lines, delimiter, commentIndicator, Some([columnIndex])).value|
              && forall i :: 0 <= i < |r.value| ==>
                   LoadColumnsFromDelimitedFile(split, lines, delimiter, commentIndicator, Some([columnIndex])).value[i] == [r.value[i]]
    ensures r.Failure? ==>
              && r.error == LoadColumnsFromDelimitedFile(split, lines, delimiter, commentIndicator, Some([columnIndex])).error
              && r.error.ColumnOutOfRange?
    ensures delimiter.None? ==> r == Success(RetainedLines(lines, commentIndicator))
  {
    var rows :- LoadColumnsFromDelimitedFile(split, lines, delimiter, commentIndicator, Some([columnIndex]));
    var column := FirstCells(rows);
    assert delimiter.None? ==> column == RetainedLines(lines, commentIndicator);
    Success(column)
  }

  /** The first cell of every row. */
  function FirstCells(rows: seq<seq<string>>): (column: seq<string>)
    requires forall row <- rows :: |row| >= 1
    ensures |column| == |rows|
    ensures forall i :: 0 <= i < |rows| ==> |rows[i]| >= 1 && column[i] == rows[i][0]
  {
    if |rows| == 0 then
      []
    else
      assert rows[0] in rows;
      assert forall row <- rows[1..] :: row in rows;
      [rows[0][0]] + FirstCells(rows[1..])
  }

  /** `loadLinesFromFile(file, encoding, commentIndicator)`: the non-comment
      lines, unchanged and in order. The overloads without a comment
      indicator pass `None`, which returns every line. */
  function LoadLinesFromFile(lines: seq<string>, commentIndicator: Option<string>): (r: seq<string>)
    ensures r == RetainedLines(lines, commentIndicator)
    ensures commentIndicator.None? ==> r == lines
  {
    // Without a delimiter no splitter is consulted, so any one will do.
    LoadColumnFromDelimitedFile((line, d, e) => [line], lines, None, commentIndicator, 0).value
  }

  /** The load is determined line by line: when every retained line
      extracts to its row, the load returns exactly those rows. */
  lemma LoadFromRows(
    split: Splitter, lines: seq<string>, delimiter: Option<string>,
    commentIndicator: Option<string>, columnIndexes: Option<seq<int>>, rows: seq<seq<string>>)
    requires !(delimiter.Some? && NoColumnsRequested(columnIndexes))
    requires |rows| == |RetainedLines(lines, commentIndicator)|
    requires forall i :: 0 <= i < |rows| ==>
               GetColumnsFromLine(split, RetainedLines(lines, commentIndicator)[i], delimiter, columnIndexes) == Success(rows[i])
    ensures LoadColumnsFromDelimitedFile(split, lines, delimiter, commentIndicator, columnIndexes) == Success(rows)
  {
    var texts := RetainedLines(lines, commentIndicator);
    var r := LoadRows(split, texts, delimiter, columnIndexes);
    assert r.Success?;
    assert forall i :: 0 <= i < |rows| ==> r.value[i] == rows[i];
    assert r.value == rows;
  }

  /** With no delimiter every retained line comes back, unchanged, as a
      one-column row, whatever column indexes were requested. */
  lemma NullDelimiterLoadsWholeLines(
    split: Splitter, lines: seq<string>, commentIndicator: Option<string>, columnIndexes: Option<seq<int>>)
    ensures LoadColumnsFromDelimitedFile(split, lines, None, commentIndicator, columnIndexes).Success?
    ensures |LoadColumnsFromDelimitedFile(split, lines, None, commentIndicator, columnIndexes).value| ==
            |RetainedLines(lines, commentIndicator)|
    ensures forall i :: 0 <= i < |RetainedLines(lines, commentIndicator)| ==>
              LoadColumnsFromDelimitedFile(split, lines, None, commentIndicator, columnIndexes).value[i] ==
              [RetainedLines(lines, commentIndicator)[i]]
  {
    var texts := RetainedLines(lines, commentIndicator);
    assert forall i :: 0 <= i < |texts| ==> GetColumnsFromLine(split, texts[i], None, columnIndexes) == Success([texts[i]]);
  }

  /** Loading a file made of two parts loads the first part and then the
      second: rows keep file order, and a failure in the first part is the
      failure of the whole load, whatever the second part holds. */
  lemma LoadColumnsAppend(
    split: Splitter, a: seq<string>, b: seq<string>, delimiter: Option<string>,
    commentIndicator: Option<string>, columnIndexes: Option<seq<int>>)
    ensures LoadColumnsFromDelimitedFile(split, a + b, delimiter, commentIndicator, columnIndexes) ==
            match LoadColumnsFromDelimitedFile(split, a, delimiter, commentIndicator, columnIndexes)
            case Failure(e) => Failure(e)
            case Success(ra) =>
              match LoadColumnsFromDelimitedFile(split, b, delimiter, commentIndicator, columnIndexes)
              case Failure(e) => Failure(e)
              case Success(rb) => Success(ra + rb)
  {
    if !(delimiter.Some? && NoColumnsRequested(columnIndexes)) {
      RetainedLinesAppend(a, b, commentIndicator);
      MapAllAppend(text => GetColumnsFromLine(split, text, delimiter, columnIndexes),
                   RetainedLines(a, commentIndicator), RetainedLines(b, commentIndicator));
    }
  }

  /** Requesting one column of one line: that token, or the error naming the index. */
  lemma SingleColumnOfLine(split: Splitter, line: string, delimiter: string, columnIndex: int)
    ensures GetColumnsFromLine(split, line, Some(delimiter), Some([columnIndex])).Success? <==>
            IsColumnIndexValid(columnIndex, split(line, delimiter, None))
    ensures GetColumnsFromLine(split, line, Some(delimiter), Some([columnIndex])).Success? ==>
            GetColumnsFromLine(split, line, Some(delimiter), Some([columnIndex])).value ==
            [split(line, delimiter, None)[columnIndex]]
    ensures GetColumnsFromLine(split, line, Some(delimiter), Some([columnIndex])).Failure? ==>
            GetColumnsFromLine(split, line, Some(delimiter), Some([columnIndex])).error ==
            ColumnOutOfRange(columnIndex, |split(line, delimiter, None)|, line)
  {
    var tokens := split(line, delimiter, None);
    var p := ProjectColumns(line, tokens, [columnIndex]);
    assert p.Failure? ==> p.error == ColumnOutOfRange(columnIndex, |tokens|, line);
  }

  /** With a delimiter, the single-column load holds token `columnIndex` of
      every retained line, and it fails exactly when some retained line is
      too short (or the index is negative); the error then names the index. */
  lemma SingleColumnIsThatColumnOfEachLine(
    split: Splitter, lines: seq<string>, delimiter: string, commentIndicator: Option<string>, columnIndex: int)
    ensures LoadColumnFromDelimitedFile(split, lines, Some(delimiter), commentIndicator, columnIndex).Success? <==>
            forall i :: 0 <= i < |RetainedLines(lines, commentIndicator)| ==>
              IsColumnIndexValid(columnIndex, split(RetainedLines(lines, commentIndicator)[i], delimiter, None))
    ensures LoadColumnFromDelimitedFile(split, lines, Some(delimiter), commentIndicator, columnIndex).Success? ==>
              && |LoadColumnFromDelimitedFile(split, lines, Some(delimiter), commentIndicator, columnIndex).value| ==
                 |RetainedLines(lines, commentIndicator)|
              && forall i :: 0 <= i < |RetainedLines(lines, commentIndicator)| ==>
                   LoadColumnFromDelimitedFile(split, lines, Some(delimiter), commentIndicator, columnIndex).value[i] ==
                   split(RetainedLines(lines, commentIndicator)[i], delimiter, None)[columnIndex]
    ensures LoadColumnFromDelimitedFile(split, lines, Some(delimiter), commentIndicator, columnIndex).Failure? ==>
              LoadColumnFromDelimitedFile(split, lines, Some(delimiter), commentIndicator, columnIndex).error.index == columnIndex
  {
    if forall i :: 0 <= i < |RetainedLines(lines, commentIndicator)| ==>
         IsColumnIndexValid(columnIndex, split(RetainedLines(lines, commentIndicator)[i], delimiter, None)) {
      SingleColumnLoadsWhenEveryLineHasIt(split, lines, delimiter, commentIndicator, columnIndex);
    }
    if LoadColumnFromDelimitedFile(split, lines, Some(delimiter), commentIndicator, columnIndex).Success? {
      SingleColumnIsEachLinesToken(split, lines, delimiter, commentIndicator, columnIndex);
    }
    SingleColumnFailureNamesIndex(split, lines, delimiter, commentIndicator, columnIndex);
  }

  /** Every retained line having the column, the single-column load succeeds. */
  lemma SingleColumnLoadsWhenEveryLineHasIt(
    split: Splitter, lines: seq<string>, delimiter: string, commentIndicator: Option<string>, columnIndex: int)
    requires forall i :: 0 <= i < |RetainedLines(lines, commentIndicator)| ==>
               IsColumnIndexValid(columnIndex, split(RetainedLines(lines, commentIndicator)[i], delimiter, None))
    ensures LoadColumnFromDelimitedFile(split, lines, Some(delimiter), commentIndicator, columnIndex).Success?
  {
    var texts := RetainedLines(lines, commentIndicator);
    EveryLineHasTheColumn(split, texts, delimiter, columnIndex);
    var rows := LoadColumnsFromDelimitedFile(split, lines, Some(delimiter), commentIndicator, Some([columnIndex]));
    assert rows.Success?;
  }

  /** A successful single-column load has, for each retained line, the
      line's token at the column, which the line therefore has. */
  lemma SingleColumnIsEachLinesToken(
    split: Splitter, lines: seq<string>, delimiter: string, commentIndicator: Option<string>, columnIndex: int)
    requires LoadColumnFromDelimitedFile(split, lines, Some(delimiter), commentIndicator, columnIndex).Success?
    ensures |LoadColumnFromDelimitedFile(split, lines, Some(delimiter), commentIndicator, columnIndex).value| ==
            |RetainedLines(lines, commentIndicator)|
    ensures forall i :: 0 <= i < |RetainedLines(lines, commentIndicator)| ==>
              IsColumnIndexValid(columnIndex, split(RetainedLines(lines, commentIndicator)[i], delimiter, None))
    ensures forall i :: 0 <= i < |RetainedLines(lines, commentIndicator)| ==>
              LoadColumnFromDelimitedFile(split, lines, Some(delimiter), commentIndicator, columnIndex).value[i] ==
              split(RetainedLines(lines, commentIndicator)[i], delimiter, None)[columnIndex]
  {
    var texts := RetainedLines(lines, commentIndicator);
    var rows := LoadColumnsFromDelimitedFile(split, lines, Some(delimiter), commentIndicator, Some([columnIndex]));
    assert rows.Success?;
    ColumnOfEveryLine(split, texts, delimiter, columnIndex, rows.value);
  }

  /** A failed single-column load names the requested index. */
  lemma SingleColumnFailureNamesIndex(
    split: Splitter, lines: seq<string>, delimiter: string, commentIndicator: Option<string>, columnIndex: int)
    ensures LoadColumnFromDelimitedFile(split, lines, Some(delimiter), commentIndicator, columnIndex).Failure? ==>
              LoadColumnFromDelimitedFile(split, lines, Some(delimiter), commentIndicator, columnIndex).error.index == columnIndex
  {
    var texts := RetainedLines(lines, commentIndicator);
    var rows := LoadColumnsFromDelimitedFile(split, lines, Some(delimiter), commentIndicator, Some([columnIndex]));
    if rows.Failure? {
      var j :| && 0 <= j < |texts|
               && GetColumnsFromLine(split, texts[j], Some(delimiter), Some([columnIndex])) == Failure(rows.error);
      SingleColumnOfLine(split, texts[j], delimiter, columnIndex);
    }
  }

  /** Every line having the column, every line's extraction succeeds. */
  lemma EveryLineHasTheColumn(split: Splitter, texts: seq<string>, delimiter: string, columnIndex: int)
    requires forall i :: 0 <= i < |texts| ==> IsColumnIndexValid(columnIndex, split(texts[i], delimiter, None))
    ensures forall i :: 0 <= i < |texts| ==> GetColumnsFromLine(split, texts[i], Some(delimiter), Some([columnIndex])).Success?
  {
    forall i | 0 <= i < |texts|
      ensures GetColumnsFromLine(split, texts[i], Some(delimiter), Some([columnIndex])).Success?
    {
      SingleColumnOfLine(split, texts[i], delimiter, columnIndex);
    }
  }

  /** Rows extracted for one column are, line by line, that token of the line. */
  lemma ColumnOfEveryLine(split: Splitter, texts: seq<string>, delimiter: string, columnIndex: int, rows: seq<seq<string>>)
    requires |rows| == |texts|
    requires forall i :: 0 <= i < |texts| ==>
               GetColumnsFromLine(split, texts[i], Some(delimiter), Some([columnIndex])) == Success(rows[i])
    ensures forall i :: 0 <= i < |texts| ==>
              && IsColumnIndexValid(columnIndex, split(texts[i], delimiter, None))
              && rows[i] == [split(texts[i], delimiter, None)[columnIndex]]
  {
    forall i | 0 <= i < |texts|
      ensures IsColumnIndexValid(columnIndex, split(texts[i], delimiter, None))
      ensures rows[i] == [split(texts[i], delimiter, None)[columnIndex]]
    {
      SingleColumnOfLine(split, texts[i], delimiter, columnIndex);
    }
  }
}
