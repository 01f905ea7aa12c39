/**
 * `list_disks` as a whole: the captured text of the disk-enumeration command
 * is split into lines, parsed into the disk map, and rendered as the report.
 * The command itself is not run here; its output is the parameter `output`.
 */
module ListDisks {
  import opened Wrappers
  import opened Text
  import opened Inventory
  import opened DiskReport

  /** The report `list_disks` returns for the command output `output`: whatever it is, the header and the rule come first. */
  function ListDisksText(output: string, toGb: SizeConversion, fmt: SizeFormat): (r: string)
    ensures |r| >= |HeaderLine| + |RuleLine| + 2
    ensures r[..|HeaderLine| + |RuleLine| + 2] == HeaderLine + "\n" + RuleLine + "\n"
  {
    Report(Run(SplitOn(output, '\n'), toGb).disks, fmt)
  }

  /** Split the output at its newlines, run the parsing loop, then the formatting loop. */
  method ListDisks(output: string, toGb: SizeConversion, fmt: SizeFormat) returns (report: string)
    ensures report == ListDisksText(output, toGb, fmt)
  {
    var lines := SplitOn(output, '\n');
    var disks := ParseInventory(lines, toGb);
    report := RenderReport(disks, fmt);
  }

  // ---------------------------------------------------------------------------
  // No stored text holds a newline

  /** No id or text field of a stored disk holds a newline. */
  predicate NoNewlines(disks: map<string, DiskInfo>) {
    forall id :: id in disks ==>
      '\n' !in id && '\n' !in disks[id].name && '\n' !in disks[id].letter && '\n' !in disks[id].fs
  }

  /** Key and value come from the line, so a line without a newline gives neither one. */
  lemma FieldNoNewline(line: string)
    requires '\n' !in line
    ensures Field(line).Some? ==> '\n' !in Field(line).value.0 && '\n' !in Field(line).value.1
  {
    if Field(line).Some? {
      var parts := SplitOnce(line, KeySeparator).value;
      assert line == parts.0 + KeySeparator + parts.1;
      StripKeepsCharacters(parts.0, '\n');
      StripKeepsCharacters(parts.1, '\n');
    }
  }

  lemma {:induction false} ApplyNoNewlines(sc: Scan, key: string, value: string, toGb: SizeConversion)
    requires Valid(sc) && NoNewlines(sc.disks)
    requires '\n' !in value
    ensures NoNewlines(Apply(sc, key, value, toGb).disks)
  {
    assert '\n' !in NotAvailable;
  }

  lemma {:induction false} StepNoNewlines(sc: Scan, line: string, toGb: SizeConversion)
    requires Valid(sc) && NoNewlines(sc.disks)
    requires '\n' !in line
    ensures NoNewlines(Step(sc, line, toGb).disks)
  {
    FieldNoNewline(line);
    match Field(line)
    case None =>
    case Some((key, value)) => ApplyNoNewlines(sc, key, value, toGb);
  }

  /** Lines free of newlines leave no newline in any stored id or field. */
  lemma {:induction false} RunNoNewlines(lines: seq<string>, toGb: SizeConversion)
    requires SingleLines(lines)
    ensures NoNewlines(Run(lines, toGb).disks)
  {
    if lines != [] {
      var pre := lines[..|lines| - 1];
      assert SingleLines(pre) by {
        forall k | 0 <= k < |pre| ensures '\n' !in pre[k] {
          assert pre[k] == lines[k];
        }
      }
      RunNoNewlines(pre, toGb);
      StepNoNewlines(Run(pre, toGb), lines[|lines| - 1], toGb);
    }
  }

  // ---------------------------------------------------------------------------
  // End to end

  /**
   * Whatever the command printed, the report read line by line is the header,
   * the rule, and then "No physical disks found." when no `DeviceId` line was
   * seen, or else one row per distinct `DeviceId` value in ascending order,
   * each showing that disk's record; a final newline ends it.
   */
  lemma ListDisksLines(output: string, toGb: SizeConversion, fmt: SizeFormat)
    requires forall x :: '\n' !in fmt(x)
    ensures var lines := SplitOn(output, '\n');
      var disks := Run(lines, toGb).disks;
      && disks.Keys == DeviceIds(lines)
      && SplitOn(ListDisksText(output, toGb, fmt), '\n') == ReportLines(disks, fmt) + [""]
  {
    var lines := SplitOn(output, '\n');
    var disks := Run(lines, toGb).disks;
    RunKeys(lines, toGb);
    RunNoNewlines(lines, toGb);
    assert SingleLineFields(disks, fmt);
    ReportSplitsIntoLines(disks, fmt);
  }

  /** With no `DeviceId` line in the output, the report is the header, the rule and "No physical disks found.". */
  lemma NoDeviceIdReportsNone(output: string, toGb: SizeConversion, fmt: SizeFormat)
    requires NoDeviceIdLine(SplitOn(output, '\n'))
    ensures ListDisksText(output, toGb, fmt) == HeaderLine + "\n" + RuleLine + "\n" + NoDisksLine + "\n"
  {
    NoDeviceIdNoDisks(SplitOn(output, '\n'), toGb);
    assert |Start.disks| == 0;
    ReportLinesShape(Start.disks, fmt);
    var lines := [HeaderLine, RuleLine, NoDisksLine];
    assert Terminated(lines[2..]) == NoDisksLine + "\n" by {
      assert lines[2..][1..] == [];
    }
    assert Terminated(lines[1..]) == RuleLine + "\n" + NoDisksLine + "\n" by {
      assert lines[1..][1..] == lines[2..];
    }
  }
}
