/** The lines the file loader sees: the raw lines of the file, in file
    order, minus the comment lines. A line is a comment when it starts with
    the comment indicator; with no indicator nothing is a comment. */
module LineSource {
  import opened Wrappers

  predicate IsComment(line: string, commentIndicator: Option<string>) {
    commentIndicator.Some? && commentIndicator.value <= line
  }

  /** The non-comment lines of `lines`, in their original order. */
  function RetainedLines(lines: seq<string>, commentIndicator: Option<string>): (r: seq<string>)
    ensures |r| <= |lines|
    ensures forall x :: x in r ==> x in lines && !IsComment(x, commentIndicator)
    ensures forall x :: x in lines && !IsComment(x, commentIndicator) ==> x in r
    ensures commentIndicator.None? ==> r == lines
  {
    if |lines| == 0 then
      []
    else
      var rest := RetainedLines(lines[1..], commentIndicator);
      assert forall x :: x in lines[1..] ==> x in lines;
      assert lines == [lines[0]] + lines[1..];
      if IsComment(lines[0], commentIndicator) then rest else [lines[0]] + rest
  }

  /** Filtering a file that is the concatenation of two parts filters each
      part on its own: order is kept and no line crosses over. */
  lemma {:induction false} RetainedLinesAppend(a: seq<string>, b: seq<string>, commentIndicator: Option<string>)
    ensures RetainedLines(a + b, commentIndicator) ==
            RetainedLines(a, commentIndicator) + RetainedLines(b, commentIndicator)
  {
    if |a| == 0 {
      assert a + b == b;
    } else {
      assert (a + b)[0] == a[0];
      assert (a + b)[1..] == a[1..] + b;
      RetainedLinesAppend(a[1..], b, commentIndicator);
    }
  }

  /** A file without comment lines is retained whole. */
  lemma {:induction false} RetainedLinesWithoutComments(lines: seq<string>, commentIndicator: Option<string>)
    requires forall i :: 0 <= i < |lines| ==> !IsComment(lines[i], commentIndicator)
    ensures RetainedLines(lines, commentIndicator) == lines
  {
    if |lines| > 0 {
      assert forall i :: 0 <= i < |lines| - 1 ==> lines[1..][i] == lines[i + 1];
      RetainedLinesWithoutComments(lines[1..], commentIndicator);
    }
  }

  /** Exactly one comment line, between two comment-free parts, is the
      only line dropped. */
  lemma DropsTheOneCommentLine(a: seq<string>, comment: string, b: seq<string>, commentIndicator: Option<string>)
    requires forall i :: 0 <= i < |a| ==> !IsComment(a[i], commentIndicator)
    requires forall i :: 0 <= i < |b| ==> !IsComment(b[i], commentIndicator)
    requires IsComment(comment, commentIndicator)
    ensures RetainedLines(a + [comment] + b, commentIndicator) == a + b
  {
    var front := a + [comment];
    RetainedLinesAppend(front, b, commentIndicator);
    RetainedLinesAppend(a, [comment], commentIndicator);
    RetainedLinesWithoutComments(a, commentIndicator);
    RetainedLinesWithoutComments(b, commentIndicator);
    var dropped := RetainedLines([comment], commentIndicator);
    assert dropped == RetainedLines([comment][1..], commentIndicator);
    assert [comment][1..] == [];
    assert RetainedLines(front, commentIndicator) == a + dropped;
    assert a + [] == a;
  }
}
