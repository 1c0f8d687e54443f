/** The file loader's test scenarios, replayed with a concrete splitter: a
    plain split on the tab character that keeps every token. It stands in
    for the regular-expression splitter only on these inputs, whose tokens
    are never empty. */
module FileLoaderScenarios {
  import opened Wrappers
  import opened FileLoaderUtil
  import opened LineSource
  import opened TabText

  const Tab: string := "\\t"

  const TabSplit: Splitter := (line, delimiterRegex, fieldEnclosingRegex) => SplitOnChar(line, '\t')

  /** One line of a tab file gives the requested cells of its row. */
  lemma ColumnsOfTabLine(row: seq<string>, columnIndexes: seq<int>)
    requires |row| >= 1 && forall k :: 0 <= k < |row| ==> '\t' !in row[k]
    requires |columnIndexes| > 0 && HasColumns(row, columnIndexes)
    ensures GetColumnsFromLine(TabSplit, TabLine(row), Some(Tab), Some(columnIndexes)) == Success(Cells(row, columnIndexes))
  {
    var r := GetColumnsFromLine(TabSplit, TabLine(row), Some(Tab), Some(columnIndexes));
    assert TabSplit(TabLine(row), Tab, None) == row;
    assert r.Success?;
    assert r.value == Cells(row, columnIndexes);
  }

  /** Loading columns `columnIndexes` of a tab file every row of which has
      them yields, per row, those cells in request order. */
  lemma LoadColumnsOfTabFile(rows: seq<seq<string>>, columnIndexes: seq<int>, expected: seq<seq<string>>)
    requires WellFormedRows(rows) && |columnIndexes| > 0
    requires forall i :: 0 <= i < |rows| ==> HasColumns(rows[i], columnIndexes)
    requires |expected| == |rows|
    requires forall i :: 0 <= i < |rows| ==> expected[i] == Cells(rows[i], columnIndexes)
    ensures LoadColumnsFromDelimitedFile(TabSplit, TabLines(rows), Some(Tab), None, Some(columnIndexes)) ==
            Success(expected)
  {
    var lines := TabLines(rows);
    var texts := RetainedLines(lines, None);
    assert texts == lines;
    forall i | 0 <= i < |rows|
      ensures GetColumnsFromLine(TabSplit, texts[i], Some(Tab), Some(columnIndexes)) == Success(expected[i])
    {
      assert texts[i] == TabLine(rows[i]);
      ColumnsOfTabLine(rows[i], columnIndexes);
    }
    LoadFromRows(TabSplit, lines, Some(Tab), None, Some(columnIndexes), expected);
  }

  /** Loading one column of a file whose retained lines are the lines of a
      tab table every row of which has that column. */
  lemma LoadColumnOfTabFile(lines: seq<string>, commentIndicator: Option<string>, rows: seq<seq<string>>, columnIndex: int)
    requires WellFormedRows(rows) && RetainedLines(lines, commentIndicator) == TabLines(rows)
    requires forall row <- rows :: 0 <= columnIndex < |row|
    ensures LoadColumnFromDelimitedFile(TabSplit, lines, Some(Tab), commentIndicator, columnIndex) ==
            Success(Column(rows, columnIndex))
  {
    var texts := TabLines(rows);
    forall i | 0 <= i < |texts|
      ensures IsColumnIndexValid(columnIndex, TabSplit(texts[i], Tab, None))
    {
      assert rows[i] in rows;
    }
    SingleColumnLoadsWhenEveryLineHasIt(TabSplit, lines, Tab, commentIndicator, columnIndex);
    SingleColumnIsEachLinesToken(TabSplit, lines, Tab, commentIndicator, columnIndex);
    var r := LoadColumnFromDelimitedFile(TabSplit, lines, Some(Tab), commentIndicator, columnIndex);
    CellsOfTabLinesAreColumn(rows, columnIndex, r.value);
  }

  /** When the first row lacks the column, loading it fails on the first line. */
  lemma LoadColumnOfTabFileFailsOnFirstRow(rows: seq<seq<string>>, columnIndex: int)
    requires WellFormedRows(rows) && |rows| > 0
    requires !(0 <= columnIndex < |rows[0]|)
    ensures LoadColumnFromDelimitedFile(TabSplit, TabLines(rows), Some(Tab), None, columnIndex) ==
            Failure(ColumnOutOfRange(columnIndex, |rows[0]|, TabLines(rows)[0]))
  {
    var lines := TabLines(rows);
    SingleColumnOfLine(TabSplit, lines[0], Tab, columnIndex);
    var loaded := LoadColumnsFromDelimitedFile(TabSplit, lines, Some(Tab), None, Some([columnIndex]));
    assert loaded.Failure?;
    var j :| && 0 <= j < |lines|
             && GetColumnsFromLine(TabSplit, lines[j], Some(Tab), Some([columnIndex])) == Failure(loaded.error)
             && forall i :: 0 <= i < j ==> GetColumnsFromLine(TabSplit, lines[i], Some(Tab), Some([columnIndex])).Success?;
    assert j == 0;
  }

  const FiveColumnRows: seq<seq<string>> := [
    ["11", "12", "13", "14", "15"], ["21", "22", "23", "24", "25"], ["31", "32", "33", "34", "35"],
    ["41", "42", "43", "44", "45"], ["51", "52", "53", "54", "55"], ["61", "62", "63", "64", "65"]]

  const RowsWithShortRowThree: seq<seq<string>> := [
    ["11", "12", "13", "14", "15"], ["21", "22", "23", "24", "25"], ["31", "32", "33", "34"],
    ["41", "42", "43", "44", "45"], ["51", "52", "53", "54", "55"], ["61", "62", "63", "64", "65"]]

  /** The five-column file with its fourth line commented out by `//`. */
  const CommentedRows: seq<seq<string>> := [
    ["11", "12", "13", "14", "15"], ["21", "22", "23", "24", "25"], ["31", "32", "33", "34", "35"],
    ["//41", "42", "43", "44", "45"], ["51", "52", "53", "54", "55"], ["61", "62", "63", "64", "65"]]

  const CommentIndicator: string := "//"

  /** What the scenarios need to know about the five-column table. */
  lemma FiveColumnTable(rows: seq<seq<string>>)
    requires rows == FiveColumnRows
    ensures WellFormedRows(rows) && |rows| == 6
    ensures forall i :: 0 <= i < |rows| ==> |rows[i]| == 5
    ensures Column(rows, 2) == ["13", "23", "33", "43", "53", "63"]
  {
    FiveColumnTableCells(rows);
    FiveColumnTableColumn(rows);
  }

  lemma FiveColumnTableCells(rows: seq<seq<string>>)
    requires rows == FiveColumnRows
    ensures WellFormedRows(rows)
  {
  }

  lemma FiveColumnTableColumn(rows: seq<seq<string>>)
    requires rows == FiveColumnRows
    ensures Column(rows, 2) == ["13", "23", "33", "43", "53", "63"]
  {
  }

  /** What the scenarios need to know about the table with a short third row. */
  lemma ShortRowThreeTable(rows: seq<seq<string>>)
    requires rows == RowsWithShortRowThree
    ensures WellFormedRows(rows) && |rows| == 6 && |rows[0]| == 5
    ensures forall i :: 0 <= i < |rows| ==> 4 <= |rows[i]| <= 5
    ensures Column(rows, 2) == ["13", "23", "33", "43", "53", "63"]
  {
    ShortRowThreeTableCells(rows);
    ShortRowThreeTableColumn(rows);
  }

  lemma ShortRowThreeTableCells(rows: seq<seq<string>>)
    requires rows == RowsWithShortRowThree
    ensures WellFormedRows(rows)
  {
  }

  lemma ShortRowThreeTableColumn(rows: seq<seq<string>>)
    requires rows == RowsWithShortRowThree
    ensures Column(rows, 2) == ["13", "23", "33", "43", "53", "63"]
  {
  }

  /** What the scenarios need to know about the table with a commented row:
      only the first cell of its fourth row starts with a slash. */
  lemma CommentedTable(rows: seq<seq<string>>)
    requires rows == CommentedRows
    ensures WellFormedRows(rows) && |rows| == 6 && |rows[0]| == 5
    ensures forall i :: 0 <= i < |rows| ==> |rows[i]| == 5 && |rows[i][0]| >= 2
    ensures forall i :: 0 <= i < |rows| && i != 3 ==> rows[i][0][0] != '/'
    ensures CommentIndicator <= rows[3][0]
    ensures Column(rows[..3] + rows[4..], 2) == ["13", "23", "33", "53", "63"]
  {
    assert rows[3][0][..2] == CommentIndicator;
  }

  /** Filtering a tab file whose only comment is line `k` leaves the lines
      of the other rows. */
  lemma RetainedTabLinesWithOneComment(rows: seq<seq<string>>, k: int, indicator: string)
    requires WellFormedRows(rows) && 0 <= k < |rows|
    requires forall i :: 0 <= i < |rows| ==> (IsComment(TabLines(rows)[i], Some(indicator)) <==> i == k)
    ensures WellFormedRows(rows[..k] + rows[k + 1..])
    ensures RetainedLines(TabLines(rows), Some(indicator)) == TabLines(rows[..k] + rows[k + 1..])
  {
    var before := rows[..k];
    var after := rows[k + 1..];
    var lines := TabLines(rows);
    WellFormedRowsWithout(rows, k);
    assert rows == before + [rows[k]] + after;
    TabLinesAppend(before, [rows[k]]);
    TabLinesAppend(before + [rows[k]], after);
    var linesBefore := TabLines(before);
    var linesAfter := TabLines(after);
    assert lines == linesBefore + [lines[k]] + linesAfter;
    assert forall i :: 0 <= i < |before| ==> linesBefore[i] == lines[i];
    assert forall i :: 0 <= i < |after| ==> linesAfter[i] == lines[i + k + 1];
    DropsTheOneCommentLine(linesBefore, lines[k], linesAfter, Some(indicator));
    TabLinesAppend(before, after);
  }

  /** Dropping row `k` keeps the column in every row that had it. */
  lemma OtherRowsHaveColumn(rows: seq<seq<string>>, k: int, columnIndex: int)
    requires 0 <= k < |rows|
    requires forall i :: 0 <= i < |rows| && i != k ==> 0 <= columnIndex < |rows[i]|
    ensures forall row <- rows[..k] + rows[k + 1..] :: 0 <= columnIndex < |row|
  {
    var rest := rows[..k] + rows[k + 1..];
    forall row | row in rest
      ensures 0 <= columnIndex < |row|
    {
      var i :| 0 <= i < |rest| && rest[i] == row;
      if i < k {
        assert row == rows[i];
      } else {
        assert row == rows[i + 1];
      }
    }
  }

  /** A file of tab lines exactly one of which, line `k`, is a comment:
      the single-column load is that column of every other row. */
  lemma LoadColumnOfTabFileWithOneComment(rows: seq<seq<string>>, k: int, indicator: string, columnIndex: int)
    requires WellFormedRows(rows) && 0 <= k < |rows|
    requires forall i :: 0 <= i < |rows| ==> (IsComment(TabLines(rows)[i], Some(indicator)) <==> i == k)
    requires forall i :: 0 <= i < |rows| && i != k ==> 0 <= columnIndex < |rows[i]|
    ensures LoadColumnFromDelimitedFile(TabSplit, TabLines(rows), Some(Tab), Some(indicator), columnIndex) ==
            Success(Column(rows[..k] + rows[k + 1..], columnIndex))
  {
    RetainedTabLinesWithOneComment(rows, k, indicator);
    var rest := rows[..k] + rows[k + 1..];
    OtherRowsHaveColumn(rows, k, columnIndex);
    LoadColumnOfTabFile(TabLines(rows), Some(indicator), rest, columnIndex);
  }

  /* In the scenarios below, `rows` stands for the test file named by the
     constant in the requires clause. */

  /** Columns 1, 2 and 4 of the five-column file, per line, in request order. */
  lemma LoadSecondThirdAndFifthColumns(rows: seq<seq<string>>)
    requires rows == FiveColumnRows
    ensures LoadColumnsFromDelimitedFile(TabSplit, TabLines(rows), Some(Tab), None, Some([1, 2, 4])) ==
            Success([["12", "13", "15"], ["22", "23", "25"], ["32", "33", "35"],
                     ["42", "43", "45"], ["52", "53", "55"], ["62", "63", "65"]])
  {
    FiveColumnTable(rows);
    var expected := [["12", "13", "15"], ["22", "23", "25"], ["32", "33", "35"],
                     ["42", "43", "45"], ["52", "53", "55"], ["62", "63", "65"]];
    forall i | 0 <= i < |rows|
      ensures HasColumns(rows[i], [1, 2, 4]) && expected[i] == Cells(rows[i], [1, 2, 4])
    {
      var c := Cells(rows[i], [1, 2, 4]);
      assert c == [rows[i][1], rows[i][2], rows[i][4]];
    }
    LoadColumnsOfTabFile(rows, [1, 2, 4], expected);
  }

  /** Without a delimiter each line of a six-line file, such as the
      five-column one, comes back whole, although columns 2, 3 and 5 were
      requested. */
  lemma NullDelimiterReturnsEntireLines(lines: seq<string>)
    requires |lines| == 6
    ensures LoadColumnsFromDelimitedFile(TabSplit, lines, None, None, Some([2, 3, 5])) ==
            Success([[lines[0]], [lines[1]], [lines[2]], [lines[3]], [lines[4]], [lines[5]]])
  {
    NullDelimiterLoadsWholeLines(TabSplit, lines, None, Some([2, 3, 5]));
    var r := LoadColumnsFromDelimitedFile(TabSplit, lines, None, None, Some([2, 3, 5]));
    assert r.value == [[lines[0]], [lines[1]], [lines[2]], [lines[3]], [lines[4]], [lines[5]]];
  }

  /** The third column of the five-column file. */
  lemma LoadThirdColumn(rows: seq<seq<string>>)
    requires rows == FiveColumnRows
    ensures LoadColumnFromDelimitedFile(TabSplit, TabLines(rows), Some(Tab), None, 2) ==
            Success(["13", "23", "33", "43", "53", "63"])
  {
    FiveColumnTable(rows);
    LoadColumnOfTabFile(TabLines(rows), None, rows, 2);
  }

  /** The third column is still there when line three has only four columns. */
  lemma LoadThirdColumnWithShortLineThree(rows: seq<seq<string>>)
    requires rows == RowsWithShortRowThree
    ensures LoadColumnFromDelimitedFile(TabSplit, TabLines(rows), Some(Tab), None, 2) ==
            Success(["13", "23", "33", "43", "53", "63"])
  {
    ShortRowThreeTable(rows);
    LoadColumnOfTabFile(TabLines(rows), None, rows, 2);
  }

  /** Column index 5 is beyond every line of the file, so the first line
      already fails, reporting its five tokens. */
  lemma LoadSixthColumnFailsOnFirstLine(rows: seq<seq<string>>)
    requires rows == RowsWithShortRowThree
    ensures LoadColumnFromDelimitedFile(TabSplit, TabLines(rows), Some(Tab), None, 5) ==
            Failure(ColumnOutOfRange(5, 5, TabLines(rows)[0]))
  {
    ShortRowThreeTable(rows);
    LoadColumnOfTabFileFailsOnFirstRow(rows, 5);
  }

  /** The commented fourth line contributes nothing to the third column. */
  lemma LoadThirdColumnSkippingComment(rows: seq<seq<string>>)
    requires rows == CommentedRows
    ensures LoadColumnFromDelimitedFile(TabSplit, TabLines(rows), Some(Tab), Some(CommentIndicator), 2) ==
            Success(["13", "23", "33", "53", "63"])
  {
    CommentedTable(rows);
    var lines := TabLines(rows);
    forall i | 0 <= i < |lines|
      ensures IsComment(lines[i], Some(CommentIndicator)) <==> i == 3
    {
      JoinWithStartsWithFirst(rows[i], '\t');
      assert lines[i][0] == rows[i][0][0];
      if i == 3 {
        assert lines[i][..2] == rows[i][0][..2];
      }
    }
    LoadColumnOfTabFileWithOneComment(rows, 3, CommentIndicator, 2);
  }

  /** Without a comment indicator the commented line is data like any
      other, and an index past the fifth column, or a negative one, fails
      on the first line. */
  lemma OutOfRangeColumnFailsOnFirstLine(rows: seq<seq<string>>, columnIndex: int)
    requires rows == CommentedRows
    requires columnIndex == 15 || columnIndex == -1
    ensures LoadColumnFromDelimitedFile(TabSplit, TabLines(rows), Some(Tab), None, columnIndex) ==
            Failure(ColumnOutOfRange(columnIndex, 5, TabLines(rows)[0]))
  {
    CommentedTable(rows);
    LoadColumnOfTabFileFailsOnFirstRow(rows, columnIndex);
  }

  /** A tab delimiter with no column requested, null or empty, is rejected
      whatever the file holds. */
  lemma DelimiterWithoutColumnsIsRejected(lines: seq<string>, columnIndexes: Option<seq<int>>)
    requires columnIndexes == None || columnIndexes == Some([])
    ensures LoadColumnsFromDelimitedFile(TabSplit, lines, Some(Tab), None, columnIndexes) == Failure(InvalidConfig(Tab))
  {
  }

  /** Of three tokens, indexes 0, 1 and 2 are valid and 3 is not. */
  lemma ColumnIndexesOfThreeTokens(tokens: seq<string>)
    requires |tokens| == 3
    ensures IsColumnIndexValid(0, tokens) && IsColumnIndexValid(1, tokens) && IsColumnIndexValid(2, tokens)
    ensures !IsColumnIndexValid(3, tokens)
  {
  }
}
