/** Tab-separated test text: a plain split on one character, its inverse
    join, and the rows, lines and columns of a test file written from a
    table of cells that hold no tab. */
module TabText {
  /** Split `s` at every occurrence of `c`. */
  function SplitOnChar(s: string, c: char): (r: seq<string>)
    ensures |r| >= 1
    ensures forall k :: 0 <= k < |r| ==> c !in r[k]
  {
    if |s| == 0 then
      [""]
    else
      var rest := SplitOnChar(s[1..], c);
      if s[0] == c then [""] + rest else [[s[0]] + rest[0]] + rest[1..]
  }

  /** The tokens joined back with `c` in between. */
  function JoinWith(tokens: seq<string>, c: char): string
    requires |tokens| >= 1
  {
    if |tokens| == 1 then tokens[0] else tokens[0] + [c] + JoinWith(tokens[1..], c)
  }

  /** Splitting at the separator a line was joined with gives the tokens
      back, provided no token contains the separator. */
  lemma {:induction false} SplitOnCharOfJoin(tokens: seq<string>, c: char)
    requires |tokens| >= 1
    requires forall k :: 0 <= k < |tokens| ==> c !in tokens[k]
    ensures SplitOnChar(JoinWith(tokens, c), c) == tokens
  {
    if |tokens| == 1 {
      SplitOnCharOfToken(tokens[0], [], c);
      assert tokens[0] + [] == tokens[0];
    } else {
      var tail := JoinWith(tokens[1..], c);
      SplitOnCharOfJoin(tokens[1..], c);
      SplitOnCharOfToken(tokens[0], [c] + tail, c);
      assert tokens[0] + [c] + tail == tokens[0] + ([c] + tail);
      assert ([c] + tail)[0] == c;
      assert ([c] + tail)[1..] == tail;
      var r := SplitOnChar([c] + tail, c);
      assert r == [""] + tokens[1..];
      assert tokens[0] + r[0] == tokens[0];
      assert r[1..] == tokens[1..];
      assert tokens == [tokens[0]] + tokens[1..];
    }
  }

  /** A separator-free token at the front of a line ends up whole in the
      first token (extended by what follows up to the next separator). */
  lemma {:induction false} SplitOnCharOfToken(t: string, rest: string, c: char)
    requires c !in t
    ensures var r := SplitOnChar(rest, c);
            SplitOnChar(t + rest, c) == [t + r[0]] + r[1..]
  {
    if |t| == 0 {
      assert t + rest == rest;
      var r := SplitOnChar(rest, c);
      assert t + r[0] == r[0];
      assert [t + r[0]] + r[1..] == r;
    } else {
      assert (t + rest)[1..] == t[1..] + rest;
      assert (t + rest)[0] == t[0];
      SplitOnCharOfToken(t[1..], rest, c);
      var r := SplitOnChar(rest, c);
      assert [t[0]] + (t[1..] + r[0]) == t + r[0];
    }
  }

  /** One line of a test file: its columns joined with tabs. */
  function TabLine(columns: seq<string>): (line: string)
    requires |columns| >= 1
    requires forall k :: 0 <= k < |columns| ==> '\t' !in columns[k]
    ensures SplitOnChar(line, '\t') == columns
  {
    SplitOnCharOfJoin(columns, '\t');
    JoinWith(columns, '\t')
  }

  /** Rows of a test file: at least one cell each, every cell non-empty and
      free of tabs. */
  predicate WellFormedRows(rows: seq<seq<string>>) {
    forall i :: 0 <= i < |rows| ==>
      |rows[i]| >= 1 && forall k :: 0 <= k < |rows[i]| ==> |rows[i][k]| > 0 && '\t' !in rows[i][k]
  }

  /** The lines of a test file written from its rows. */
  function TabLines(rows: seq<seq<string>>): (lines: seq<string>)
    requires WellFormedRows(rows)
    ensures |lines| == |rows|
    ensures forall i :: 0 <= i < |rows| ==> SplitOnChar(lines[i], '\t') == rows[i]
  {
    seq(|rows|, i requires 0 <= i < |rows| => TabLine(rows[i]))
  }

  /** The row has every one of the requested columns. */
  predicate HasColumns(row: seq<string>, columnIndexes: seq<int>) {
    forall k :: 0 <= k < |columnIndexes| ==> 0 <= columnIndexes[k] < |row|
  }

  /** The cells `columnIndexes` of one row, in request order. */
  function Cells(row: seq<string>, columnIndexes: seq<int>): (r: seq<string>)
    requires HasColumns(row, columnIndexes)
    ensures |r| == |columnIndexes|
    ensures forall k :: 0 <= k < |columnIndexes| ==> r[k] == row[columnIndexes[k]]
    decreases |columnIndexes|
  {
    if |columnIndexes| == 0 then [] else [row[columnIndexes[0]]] + Cells(row, columnIndexes[1..])
  }

  /** Cell `columnIndex` of every row. */
  function Column(rows: seq<seq<string>>, columnIndex: int): (r: seq<string>)
    requires forall row <- rows :: 0 <= columnIndex < |row|
    ensures |r| == |rows|
    ensures forall i :: 0 <= i < |rows| ==> columnIndex < |rows[i]| && r[i] == rows[i][columnIndex]
  {
    if |rows| == 0 then
      []
    else
      assert rows[0] in rows;
      assert forall row <- rows[1..] :: row in rows;
      [rows[0][columnIndex]] + Column(rows[1..], columnIndex)
  }

  /** A joined line starts with its first token. */
  lemma JoinWithStartsWithFirst(tokens: seq<string>, c: char)
    requires |tokens| >= 1
    ensures tokens[0] <= JoinWith(tokens, c)
  {
    if |tokens| > 1 {
      assert JoinWith(tokens, c) == tokens[0] + ([c] + JoinWith(tokens[1..], c));
    }
  }

  /** The lines of two tables written one after the other. */
  lemma TabLinesAppend(a: seq<seq<string>>, b: seq<seq<string>>)
    requires WellFormedRows(a) && WellFormedRows(b)
    ensures WellFormedRows(a + b)
    ensures TabLines(a + b) == TabLines(a) + TabLines(b)
  {
    assert forall i :: 0 <= i < |a + b| ==> (a + b)[i] == if i < |a| then a[i] else b[i - |a|];
  }

  /** The rows before and after row `k`, and the two joined, stay well formed. */
  lemma WellFormedRowsWithout(rows: seq<seq<string>>, k: int)
    requires WellFormedRows(rows) && 0 <= k < |rows|
    ensures WellFormedRows(rows[..k]) && WellFormedRows(rows[k + 1..])
    ensures WellFormedRows(rows[..k] + rows[k + 1..])
  {
    assert forall i :: 0 <= i < k ==> rows[..k][i] == rows[i];
    assert forall i :: k < i < |rows| ==> rows[k + 1..][i - k - 1] == rows[i];
    TabLinesAppend(rows[..k], rows[k + 1..]);
  }

  /** A list holding, for each line of a tab table, that line's cell at
      `columnIndex` is the table's column. */
  lemma CellsOfTabLinesAreColumn(rows: seq<seq<string>>, columnIndex: int, cells: seq<string>)
    requires WellFormedRows(rows) && forall row <- rows :: 0 <= columnIndex < |row|
    requires |cells| == |rows|
    requires forall i :: 0 <= i < |rows| ==>
               0 <= columnIndex < |SplitOnChar(TabLines(rows)[i], '\t')| &&
               cells[i] == SplitOnChar(TabLines(rows)[i], '\t')[columnIndex]
    ensures cells == Column(rows, columnIndex)
  {
    var column := Column(rows, columnIndex);
    forall i | 0 <= i < |rows| ensures cells[i] == column[i] {
      assert SplitOnChar(TabLines(rows)[i], '\t') == rows[i];
    }
  }
}
