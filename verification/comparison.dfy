/**
 * The line aligner behind the proofreading table: two documents are trimmed,
 * split into lines, padded to a common length and paired into numbered rows.
 * Rendering the rows as a Markdown table is done by pandas/tabulate and is a
 * parameter `render` here.
 */
module Comparison {
  import Text

  /** One table row: the 1-based row number, the Chinese line and the target line. */
  datatype Row = Row(no: int, chinese: string, target: string)

  /** How the rows are rendered as a Markdown table (`DataFrame.to_markdown`). */
  type Renderer = seq<Row> -> string

  function Max(a: nat, b: nat): (m: nat)
    ensures m >= a && m >= b && (m == a || m == b)
  {
    if a < b then b else a
  }

  /** `lines + [''] * (n - len(lines))`. */
  function Pad(lines: seq<string>, n: nat): (r: seq<string>)
    requires |lines| <= n
    ensures |r| == n
    ensures r[..|lines|] == lines
    ensures forall i :: |lines| <= i < n ==> r[i] == ""
  {
    lines + seq(n - |lines|, _ => "")
  }

  /** Number of rows of the table: the longer document's line count. */
  function RowCount(chinese: string, target: string): nat {
    Max(|Text.Lines(chinese)|, |Text.Lines(target)|)
  }

  /** The rows of the comparison table, as pandas builds them from the three columns. */
  function Rows(chinese: string, target: string): (rows: seq<Row>)
    ensures |rows| == RowCount(chinese, target)
  {
    var n := RowCount(chinese, target);
    var c := Pad(Text.Lines(chinese), n);
    var t := Pad(Text.Lines(target), n);
    seq(n, i requires 0 <= i < n => Row(i + 1, c[i], t[i]))
  }

  /** The rendered comparison table, `create_comparison_table(chinese, target)`. */
  function ComparisonTable(chinese: string, target: string, render: Renderer): (table: string)
    ensures table == render(Rows(Text.Strip(chinese), Text.Strip(target)))
  {
    SurroundingWhitespaceIgnored(chinese, target);
    render(Rows(chinese, target))
  }

  /**
   * `create_comparison_table`, step by step: the two line lists are padded in
   * place and then zipped with the row numbers. Its postcondition fixes every
   * row without referring to `Rows`.
   */
  method CreateComparisonTable(chinese: string, target: string, render: Renderer)
    returns (rows: seq<Row>, table: string)
    ensures |rows| == Max(|Text.Lines(chinese)|, |Text.Lines(target)|)
    ensures forall i :: 0 <= i < |rows| ==> rows[i].no == i + 1
    ensures forall i :: 0 <= i < |rows| ==>
      rows[i].chinese == (if i < |Text.Lines(chinese)| then Text.Lines(chinese)[i] else "")
    ensures forall i :: 0 <= i < |rows| ==>
      rows[i].target == (if i < |Text.Lines(target)| then Text.Lines(target)[i] else "")
    ensures table == render(rows)
    ensures table == ComparisonTable(chinese, target, render)
  {
    var chineseLines := Text.Lines(chinese);
    var targetLines := Text.Lines(target);
    ghost var cl, tl := chineseLines, targetLines;
    var maxLen := Max(|chineseLines|, |targetLines|);
    chineseLines := chineseLines + seq(maxLen - |chineseLines|, _ => "");
    targetLines := targetLines + seq(maxLen - |targetLines|, _ => "");
    assert chineseLines == Pad(cl, maxLen) && targetLines == Pad(tl, maxLen);
    var numbers := seq(maxLen, i => i + 1);
    rows := seq(maxLen, i requires 0 <= i < maxLen => Row(numbers[i], chineseLines[i], targetLines[i]));
    table := render(rows);
    assert rows == Rows(chinese, target) by {
      assert maxLen == RowCount(chinese, target);
      forall i | 0 <= i < maxLen ensures rows[i] == Rows(chinese, target)[i] { }
    }
  }

  /** The Chinese column of a table. */
  function ChineseColumn(rows: seq<Row>): (col: seq<string>)
    ensures |col| == |rows|
  {
    seq(|rows|, i requires 0 <= i < |rows| => rows[i].chinese)
  }

  /** The target column of a table. */
  function TargetColumn(rows: seq<Row>): (col: seq<string>)
    ensures |col| == |rows|
  {
    seq(|rows|, i requires 0 <= i < |rows| => rows[i].target)
  }

  /** There is always at least one row, even for two blank documents. */
  lemma RowCountPositive(chinese: string, target: string)
    ensures |Rows(chinese, target)| >= 1
    ensures |Rows(chinese, target)| >= |Text.Lines(chinese)|
    ensures |Rows(chinese, target)| >= |Text.Lines(target)|
  {
  }

  /** Rows are numbered 1, 2, ..., n in order. */
  lemma RowNumbering(chinese: string, target: string)
    ensures forall i :: 0 <= i < |Rows(chinese, target)| ==> Rows(chinese, target)[i].no == i + 1
    ensures forall i, j :: 0 <= i < j < |Rows(chinese, target)| ==>
      Rows(chinese, target)[i].no < Rows(chinese, target)[j].no
  {
  }

  /** Each column is its document's lines followed by blank cells only:
      the original lines are kept, unchanged and in order, as a prefix. */
  lemma ColumnsArePadded(chinese: string, target: string)
    ensures ChineseColumn(Rows(chinese, target)) == Pad(Text.Lines(chinese), RowCount(chinese, target))
    ensures TargetColumn(Rows(chinese, target)) == Pad(Text.Lines(target), RowCount(chinese, target))
  {
    var n := RowCount(chinese, target);
    var rows := Rows(chinese, target);
    assert ChineseColumn(rows) == Pad(Text.Lines(chinese), n) by {
      forall i | 0 <= i < n ensures ChineseColumn(rows)[i] == Pad(Text.Lines(chinese), n)[i] { }
    }
    assert TargetColumn(rows) == Pad(Text.Lines(target), n) by {
      forall i | 0 <= i < n ensures TargetColumn(rows)[i] == Pad(Text.Lines(target), n)[i] { }
    }
  }

  /** A cell at or beyond the shorter document's line count is empty. */
  lemma PaddingCellsEmpty(chinese: string, target: string, i: nat)
    requires i < RowCount(chinese, target)
    ensures i >= |Text.Lines(chinese)| ==> Rows(chinese, target)[i].chinese == ""
    ensures i >= |Text.Lines(target)| ==> Rows(chinese, target)[i].target == ""
    ensures i < |Text.Lines(chinese)| ==> Rows(chinese, target)[i].chinese == Text.Lines(chinese)[i]
    ensures i < |Text.Lines(target)| ==> Rows(chinese, target)[i].target == Text.Lines(target)[i]
  {
    ColumnsArePadded(chinese, target);
    assert Rows(chinese, target)[i].chinese == ChineseColumn(Rows(chinese, target))[i];
    assert Rows(chinese, target)[i].target == TargetColumn(Rows(chinese, target))[i];
  }

  /** The table loses nothing of the trimmed documents: the first lines of each
      column joined with newlines give the trimmed document back. */
  lemma ColumnsRecoverDocuments(chinese: string, target: string)
    ensures Text.Join(ChineseColumn(Rows(chinese, target))[..|Text.Lines(chinese)|]) == Text.Strip(chinese)
    ensures Text.Join(TargetColumn(Rows(chinese, target))[..|Text.Lines(target)|]) == Text.Strip(target)
  {
    ColumnsArePadded(chinese, target);
    Text.LinesJoin(chinese);
    Text.LinesJoin(target);
  }

  /** Comparing a document with itself pairs every line with itself,
      and there is one row per line and no padding. */
  lemma SelfAligned(story: string)
    ensures |Rows(story, story)| == |Text.Lines(story)|
    ensures forall i :: 0 <= i < |Rows(story, story)| ==>
      Rows(story, story)[i].chinese == Rows(story, story)[i].target == Text.Lines(story)[i]
  {
    var n := |Text.Lines(story)|;
    forall i | 0 <= i < n
      ensures Rows(story, story)[i].chinese == Rows(story, story)[i].target == Text.Lines(story)[i]
    {
      PaddingCellsEmpty(story, story, i);
    }
  }

  /** Two blank documents give one row of two empty cells, not an empty table. */
  lemma BlankDocuments(chinese: string, target: string)
    requires Text.AllSpace(chinese) && Text.AllSpace(target)
    ensures Rows(chinese, target) == [Row(1, "", "")]
  {
    Text.LinesOfBlank(chinese);
    Text.LinesOfBlank(target);
    assert RowCount(chinese, target) == 1;
    PaddingCellsEmpty(chinese, target, 0);
  }

  /** Whitespace around a document does not change the table. */
  lemma SurroundingWhitespaceIgnored(chinese: string, target: string)
    ensures Rows(Text.Strip(chinese), Text.Strip(target)) == Rows(chinese, target)
  {
    Text.StripIdempotent(chinese);
    Text.StripIdempotent(target);
  }

  /** A three-line script against a two-line translation: three rows, the third
      target cell empty. */
  lemma ThreeAgainstTwo(script: string, translation: string)
    requires script == "Line1\nLine2\nLine3" && translation == "L1\nL2"
    ensures |Rows(script, translation)| == 3
    ensures Rows(script, translation)[2] == Row(3, "Line3", "")
  {
    LinesOfPlainText(script, ["Line1", "Line2", "Line3"]);
    LinesOfPlainText(translation, ["L1", "L2"]);
    PaddingCellsEmpty(script, translation, 2);
  }

  /** A document that neither starts nor ends with whitespace has as its lines
      exactly the newline-free pieces it was joined from. */
  lemma LinesOfPlainText(doc: string, lines: seq<string>)
    requires |lines| >= 1 && Text.Join(lines) == doc
    requires forall k :: 0 <= k < |lines| ==> '\n' !in lines[k]
    requires doc != [] && !Text.IsSpace(doc[0]) && !Text.IsSpace(doc[|doc| - 1])
    ensures Text.Lines(doc) == lines
  {
    assert Text.StripStart(doc) == 0;
    assert Text.SkipSpacesBack(doc, 0, |doc|) == |doc|;
    assert Text.Strip(doc) == doc;
    Text.SplitJoin(lines);
  }
}
