/**
 * The fixed-width report `list_disks` returns: a header row, a rule of 90
 * dashes, then either a "no disks" line or one row per disk in ascending
 * order of the id strings.
 *
 * `ReportLines` and `Report` specify the text; `RenderReport` is the loop of
 * repeated `result +=` that builds it.
 */
module DiskReport {
  import opened Text
  import opened Order
  import opened Inventory

  /**
   * The `.2f` rendering of a size. Floating-point formatting is not modelled:
   * it is a parameter; the `<7` padding and the "GB" suffix around it are.
   */
  type SizeFormat = real -> string

  const IdWidth: nat := 10
  const ModelWidth: nat := 35
  const SizeWidth: nat := 15
  const LetterWidth: nat := 15
  const FileSystemWidth: nat := 15

  /** The sum of the column widths, and the length of the rule. */
  const TableWidth: nat := 90

  const NoDisksLine: string := "No physical disks found."

  /**
   * Five values, each left-justified in its column (never cut): the row is at
   * least as wide as the table and starts with the whole first value.
   */
  function Columns(id: string, model: string, size: string, letter: string, fs: string): (r: string)
    ensures |r| >= TableWidth
    ensures |id| <= |r| && r[..|id|] == id
  {
    LeftJustify(id, IdWidth) + LeftJustify(model, ModelWidth) + LeftJustify(size, SizeWidth)
      + LeftJustify(letter, LetterWidth) + LeftJustify(fs, FileSystemWidth)
  }

  const HeaderLine: string := Columns("Device ID", "Model", "Size", "Drive Letter", "File System")

  /** `"-" * 90` */
  const RuleLine: string := Repeat('-', TableWidth)

  /** `f"{size:<7.2f}GB"`: the formatted size padded to 7, then "GB". */
  function SizeText(size: real, fmt: SizeFormat): (r: string)
    ensures |r| == (if |fmt(size)| < 7 then 7 else |fmt(size)|) + 2
    ensures r[..|fmt(size)|] == fmt(size)
    ensures forall i :: |fmt(size)| <= i < |r| - 2 ==> r[i] == ' '
    ensures r[|r| - 2..] == "GB"
  {
    LeftJustify(fmt(size), 7) + "GB"
  }

  /** The row of one disk; an id too wide for its column is kept whole. */
  function RowLine(id: string, d: DiskInfo, fmt: SizeFormat): (r: string)
    ensures |r| >= TableWidth
    ensures |id| <= |r| && r[..|id|] == id
  {
    Columns(id, d.name, SizeText(d.size, fmt), d.letter, d.fs)
  }

  /** The rows of the given disks, in the given order. */
  function RowLines(ids: seq<string>, disks: map<string, DiskInfo>, fmt: SizeFormat): (r: seq<string>)
    requires forall k :: 0 <= k < |ids| ==> ids[k] in disks
    ensures |r| == |ids|
    ensures forall k :: 0 <= k < |ids| ==> r[k] == RowLine(ids[k], disks[ids[k]], fmt)
  {
    seq(|ids|, k requires 0 <= k < |ids| => RowLine(ids[k], disks[ids[k]], fmt))
  }

  /** What follows the rule: the "no disks" line, or the rows in ascending id order. */
  function ReportBody(disks: map<string, DiskInfo>, fmt: SizeFormat): seq<string> {
    if |disks| == 0 then [NoDisksLine] else RowLines(Sorted(disks.Keys), disks, fmt)
  }

  /** The lines of the report, each without its newline. */
  function ReportLines(disks: map<string, DiskInfo>, fmt: SizeFormat): seq<string> {
    [HeaderLine, RuleLine] + ReportBody(disks, fmt)
  }

  /**
   * The report starts with the header and the rule; with no disks only the
   * "no disks" line follows, otherwise exactly one row per disk, the k-th for
   * the k-th id in ascending order.
   */
  lemma ReportLinesContents(disks: map<string, DiskInfo>, fmt: SizeFormat)
    ensures var r := ReportLines(disks, fmt);
      && |r| >= 3 && r[0] == HeaderLine && r[1] == RuleLine
      && (|disks| == 0 ==> r == [HeaderLine, RuleLine, NoDisksLine])
      && (|disks| > 0 ==> |r| == 2 + |disks|)
      && (|disks| > 0 ==> forall k :: 0 <= k < |disks| ==>
            r[2 + k] == RowLine(Sorted(disks.Keys)[k], disks[Sorted(disks.Keys)[k]], fmt))
  {
    assert |disks.Keys| == |disks|;
  }

  /** The text `list_disks` returns for the parsed disks: it opens with the header line and the rule line. */
  function Report(disks: map<string, DiskInfo>, fmt: SizeFormat): (r: string)
    ensures |r| >= |HeaderLine| + |RuleLine| + 2
    ensures r[..|HeaderLine| + |RuleLine| + 2] == HeaderLine + "\n" + RuleLine + "\n"
  {
    TerminatedStartsWith(ReportLines(disks, fmt));
    Terminated(ReportLines(disks, fmt))
  }

  // ---------------------------------------------------------------------------
  // Reading the report back

  /** The five columns of a row at their fixed offsets, padding removed. */
  function DecodeRow(line: string): (string, string, string, string, string)
    requires |line| >= TableWidth
  {
    (TrimPadding(line[..10]), TrimPadding(line[10..45]), TrimPadding(line[45..60]),
     TrimPadding(line[60..75]), TrimPadding(line[75..]))
  }

  /** Does not end in a space, so the padding after it can be told apart. */
  predicate EndsClean(s: string) {
    s == [] || s[|s| - 1] != ' '
  }

  /** Values that fit their columns make a 90-character row that reads back to them. */
  lemma ColumnsDecode(id: string, model: string, size: string, letter: string, fs: string)
    requires |id| <= IdWidth && |model| <= ModelWidth && |size| <= SizeWidth
    requires |letter| <= LetterWidth && |fs| <= FileSystemWidth
    requires EndsClean(id) && EndsClean(model) && EndsClean(size) && EndsClean(letter) && EndsClean(fs)
    ensures |Columns(id, model, size, letter, fs)| == TableWidth
    ensures DecodeRow(Columns(id, model, size, letter, fs)) == (id, model, size, letter, fs)
  {
    var a, b, c := LeftJustify(id, 10), LeftJustify(model, 35), LeftJustify(size, 15);
    var d, e := LeftJustify(letter, 15), LeftJustify(fs, 15);
    var line := Columns(id, model, size, letter, fs);
    assert line == a + b + c + d + e;
    assert line[..10] == a;
    assert line[10..45] == b;
    assert line[45..60] == c;
    assert line[60..75] == d;
    assert line[75..] == e;
    TrimPaddingOfLeftJustify(id, 10);
    TrimPaddingOfLeftJustify(model, 35);
    TrimPaddingOfLeftJustify(size, 15);
    TrimPaddingOfLeftJustify(letter, 15);
    TrimPaddingOfLeftJustify(fs, 15);
  }

  /** The header row is 90 characters wide and reads back as the five column titles. */
  lemma HeaderDecodes()
    ensures |HeaderLine| == TableWidth
    ensures DecodeRow(HeaderLine) == ("Device ID", "Model", "Size", "Drive Letter", "File System")
  {
    ColumnsDecode("Device ID", "Model", "Size", "Drive Letter", "File System");
  }

  /** A stripped value never ends in a space. */
  lemma TrimmedEndsClean(s: string)
    requires Trimmed(s)
    ensures EndsClean(s)
  {
  }

  /** The row of a stored disk whose values fit their columns reads back to the id and the record. */
  lemma RowDecodes(id: string, d: DiskInfo, fmt: SizeFormat)
    requires Trimmed(id) && Tidy(d)
    requires |id| <= IdWidth && |d.name| <= ModelWidth && |SizeText(d.size, fmt)| <= SizeWidth
    requires |d.letter| <= LetterWidth && |d.fs| <= FileSystemWidth
    ensures |RowLine(id, d, fmt)| == TableWidth
    ensures DecodeRow(RowLine(id, d, fmt)) == (id, d.name, SizeText(d.size, fmt), d.letter, d.fs)
  {
    TrimmedEndsClean(id);
    TrimmedEndsClean(d.name);
    TrimmedEndsClean(d.letter);
    TrimmedEndsClean(d.fs);
    ColumnsDecode(id, d.name, SizeText(d.size, fmt), d.letter, d.fs);
  }

  // ---------------------------------------------------------------------------
  // The report as lines

  /** No id, text field or formatted size of a stored disk holds a newline. */
  ghost predicate SingleLineFields(disks: map<string, DiskInfo>, fmt: SizeFormat) {
    forall id :: id in disks ==>
      && '\n' !in id && '\n' !in disks[id].name && '\n' !in fmt(disks[id].size)
      && '\n' !in disks[id].letter && '\n' !in disks[id].fs
  }

  lemma {:induction false} ColumnsSingleLine(id: string, model: string, size: string, letter: string, fs: string)
    requires '\n' !in id && '\n' !in model && '\n' !in size && '\n' !in letter && '\n' !in fs
    ensures '\n' !in Columns(id, model, size, letter, fs)
  {
    var line := Columns(id, model, size, letter, fs);
    forall k | 0 <= k < |line| ensures line[k] != '\n' {
      var a, b, c := LeftJustify(id, 10), LeftJustify(model, 35), LeftJustify(size, 15);
      var d, e := LeftJustify(letter, 15), LeftJustify(fs, 15);
      assert line == a + b + c + d + e;
      assert '\n' !in a by { assert a[..|id|] == id; }
      assert '\n' !in b by { assert b[..|model|] == model; }
      assert '\n' !in c by { assert c[..|size|] == size; }
      assert '\n' !in d by { assert d[..|letter|] == letter; }
      assert '\n' !in e by { assert e[..|fs|] == fs; }
    }
  }

  /** The row of a disk whose fields hold no newline holds none either. */
  lemma RowSingleLine(id: string, d: DiskInfo, fmt: SizeFormat)
    requires '\n' !in id && '\n' !in d.name && '\n' !in fmt(d.size) && '\n' !in d.letter && '\n' !in d.fs
    ensures '\n' !in RowLine(id, d, fmt)
  {
    var p := LeftJustify(fmt(d.size), 7);
    assert '\n' !in p by { assert p[..|fmt(d.size)|] == fmt(d.size); }
    assert '\n' !in SizeText(d.size, fmt);
    ColumnsSingleLine(id, d.name, SizeText(d.size, fmt), d.letter, d.fs);
  }

  /** The rows of disks whose fields hold no newline are single lines. */
  lemma RowLinesSingle(ids: seq<string>, disks: map<string, DiskInfo>, fmt: SizeFormat)
    requires forall k :: 0 <= k < |ids| ==> ids[k] in disks
    requires SingleLineFields(disks, fmt)
    ensures SingleLines(RowLines(ids, disks, fmt))
  {
    var rows := RowLines(ids, disks, fmt);
    forall k | 0 <= k < |rows| ensures '\n' !in rows[k] {
      RowSingleLine(ids[k], disks[ids[k]], fmt);
    }
  }

  /** The header, the rule and the "no disks" line hold no newline. */
  lemma FixedLinesSingle()
    ensures '\n' !in HeaderLine && '\n' !in RuleLine && '\n' !in NoDisksLine
  {
    ColumnsSingleLine("Device ID", "Model", "Size", "Drive Letter", "File System");
    assert forall i :: 0 <= i < |RuleLine| ==> RuleLine[i] == '-';
  }

  /** What follows the rule is single lines. */
  lemma ReportBodySingle(disks: map<string, DiskInfo>, fmt: SizeFormat)
    requires SingleLineFields(disks, fmt)
    ensures SingleLines(ReportBody(disks, fmt))
  {
    if |disks| > 0 {
      RowLinesSingle(Sorted(disks.Keys), disks, fmt);
    } else {
      FixedLinesSingle();
    }
  }

  /** Every line of the report is a single line. */
  lemma ReportLinesSingle(disks: map<string, DiskInfo>, fmt: SizeFormat)
    requires SingleLineFields(disks, fmt)
    ensures SingleLines(ReportLines(disks, fmt))
  {
    FixedLinesSingle();
    ReportBodySingle(disks, fmt);
    SingleLinesAppend([HeaderLine, RuleLine], ReportBody(disks, fmt));
  }

  /**
   * Split at its newlines, the report is the header, the rule, and then either
   * the "no disks" line or one row per disk in ascending id order, followed by
   * the empty text after the final newline.
   */
  lemma ReportSplitsIntoLines(disks: map<string, DiskInfo>, fmt: SizeFormat)
    requires SingleLineFields(disks, fmt)
    ensures SplitOn(Report(disks, fmt), '\n') == ReportLines(disks, fmt) + [""]
  {
    ReportLinesSingle(disks, fmt);
    SplitTerminated(ReportLines(disks, fmt));
  }

  // ---------------------------------------------------------------------------
  // The loop

  /** The report is the header, the rule, and the "no disks" line or the sorted rows. */
  lemma ReportLinesShape(disks: map<string, DiskInfo>, fmt: SizeFormat)
    ensures |disks| == 0 ==> ReportLines(disks, fmt) == [HeaderLine, RuleLine, NoDisksLine]
    ensures |disks| > 0 ==> ReportLines(disks, fmt) == [HeaderLine, RuleLine] + RowLines(Sorted(disks.Keys), disks, fmt)
  {
  }

  /** One more id adds its row at the end. */
  lemma RowLinesSnoc(ids: seq<string>, k: nat, disks: map<string, DiskInfo>, fmt: SizeFormat)
    requires k < |ids|
    requires forall j :: 0 <= j < |ids| ==> ids[j] in disks
    ensures RowLines(ids[..k + 1], disks, fmt) == RowLines(ids[..k], disks, fmt) + [RowLine(ids[k], disks[ids[k]], fmt)]
  {
  }

  /** Appending the next row's text appends that row to the lines. */
  lemma AppendedRow(done: seq<string>, ids: seq<string>, k: nat, disks: map<string, DiskInfo>, fmt: SizeFormat)
    requires k < |ids|
    requires forall j :: 0 <= j < |ids| ==> ids[j] in disks
    ensures Terminated(done + RowLines(ids[..k + 1], disks, fmt))
      == Terminated(done + RowLines(ids[..k], disks, fmt)) + RowLine(ids[k], disks[ids[k]], fmt) + "\n"
  {
    var row := RowLine(ids[k], disks[ids[k]], fmt);
    TerminatedSnoc(done + RowLines(ids[..k], disks, fmt), row);
    RowLinesSnoc(ids, k, disks, fmt);
    assert done + RowLines(ids[..k + 1], disks, fmt) == done + RowLines(ids[..k], disks, fmt) + [row];
  }

  /**
   * The `for` loop of `list_disks`: one `result +=` per id, in the given order,
   * each adding the row of that disk and a newline.
   */
  method AppendRows(text: string, ghost done: seq<string>, ids: seq<string>, disks: map<string, DiskInfo>, fmt: SizeFormat)
    returns (result: string)
    requires text == Terminated(done)
    requires forall j :: 0 <= j < |ids| ==> ids[j] in disks
    ensures result == Terminated(done + RowLines(ids, disks, fmt))
  {
    result := text;
    var k := 0;
    assert done + RowLines(ids[..0], disks, fmt) == done;
    while k < |ids|
      invariant 0 <= k <= |ids|
      invariant result == Terminated(done + RowLines(ids[..k], disks, fmt))
    {
      var id := ids[k];
      var info := disks[id];
      var sizeStr := LeftJustify(fmt(info.size), 7) + "GB";
      var row := LeftJustify(id, 10) + LeftJustify(info.name, 35) + LeftJustify(sizeStr, 15)
        + LeftJustify(info.letter, 15) + LeftJustify(info.fs, 15);
      assert row == RowLine(id, info, fmt);
      AppendedRow(done, ids, k, disks, fmt);
      result := result + row + "\n";
      k := k + 1;
    }
    assert ids[..|ids|] == ids;
  }

  /**
   * The formatting part of `list_disks`: the header, the rule, and then the
   * "no disks" line or the rows of the disks in sorted order.
   */
  method RenderReport(disks: map<string, DiskInfo>, fmt: SizeFormat) returns (result: string)
    ensures result == Report(disks, fmt)
  {
    result := HeaderLine + "\n";
    result := result + RuleLine + "\n";
    assert result == Terminated([HeaderLine, RuleLine]) by {
      TerminatedSnoc([], HeaderLine);
      TerminatedSnoc([HeaderLine], RuleLine);
      assert [HeaderLine] + [RuleLine] == [HeaderLine, RuleLine];
    }
    ReportLinesShape(disks, fmt);
    if |disks| == 0 {
      result := result + NoDisksLine + "\n";
      TerminatedSnoc([HeaderLine, RuleLine], NoDisksLine);
    } else {
      var ids := Sorted(disks.Keys);
      result := AppendRows(result, [HeaderLine, RuleLine], ids, disks, fmt);
    }
  }
}
