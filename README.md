# Disk Management App — a Dafny model of its disk inventory and format planning

The Windows disk tool `PythonAPP/app.py` lists the physical disks of the
machine and can wipe and format one of them. This project models the part of
it that is plain computation:

- **the inventory parser** of `list_disks`: the loop over the lines printed by
  the disk-enumeration command, which keeps the id of the disk being read
  (`current_disk`) and a dictionary from disk id to a record of its name, size,
  drive letter and file system (`disk_map`) — module `Inventory`
  (`inventory.dfy`);
- **the report** `list_disks` returns: a fixed-width header, a rule of 90
  dashes, and either "No physical disks found." or one row per disk in
  ascending order of the id strings — modules `Order` (`order.dfy`, Python's
  string `<` and `sorted()`) and `DiskReport` (`report.dfy`);
- **`list_disks` end to end**, from the captured command output to the report
  text — module `ListDisks` (`list_disks.dfy`);
- **the pure part of `format_disk`**: the two checks on the disk id and the
  8-line diskpart script built for an accepted id — module `FormatDisk`
  (`format_disk.dfy`).

Module `Text` (`text.dfy`) models the Python `str` operations these rely on
(`strip()`, `': ' in line`, `split(': ', 1)`, `split('\n')`, the `:<w` format
spec, `isdigit()`), and `Wrappers` (`wrappers.dfy`) holds `Option`/`Result`.

Each loop of the source is a Dafny `method` with a `while` loop proved against
a specification function: `Inventory.ParseInventory` computes the left fold
`Inventory.Run` of the one-line step `Inventory.Step`, and
`DiskReport.RenderReport` builds exactly `DiskReport.Report`. The properties
are then proved about those functions.

Two things the program takes from outside are parameters: the conversion
`round(float(value) / 1024**3, 2)` of a `Size` value (`SizeConversion`, which
returns `None` where `float` raises `ValueError`) and the `.2f` rendering of a
size (`SizeFormat`). The `<7` padding and the `GB` suffix around the rendered
size are modelled.

Some consequences of the code that are easy to miss, each stated by the model:

- A record is "open" for attribute lines only when `current_disk` is truthy, so
  an empty `DeviceId` value creates the record `""`, and the attribute lines
  after it, up to the next `DeviceId` line, change nothing
  (`Inventory.EmptyDeviceIdTakesNoAttributes`).
- Disk ids are any stripped text, not only numbers; nothing checks them.
- The size is left-justified in its 7-character field (`:<7.2f`), padded on the
  right, not on the left.
- `sorted(disk_map.items())` sorts (id, record) pairs; as ids are unique the
  records are never compared, so the order is the order of the id strings.

## Model

| member | source | states |
|---|---|---|
| Text.StripStart | PythonAPP/app.py:72-73 | the result is a suffix of the input, everything cut is whitespace, and it does not start with whitespace |
| Text.StripEnd | PythonAPP/app.py:72-73 | the result is a prefix of the input, everything cut is whitespace, and it does not end with whitespace |
| Text.Strip | PythonAPP/app.py:72-73 | `strip()` leaves neither end whitespace and never lengthens the text |
| Text.StripEmptyIffBlank | PythonAPP/app.py:69 | `strip()` gives "" exactly when every character is whitespace (the `if line.strip()` and `if not disk_id.strip()` tests) |
| Text.StripTrimmed | PythonAPP/app.py:72-73 | stripping text that is already stripped changes nothing, so stripping is idempotent |
| Text.StripSlices | PythonAPP/app.py:72-73 | `strip()` returns a contiguous slice of its argument, with only whitespace cut before and after it |
| Text.StripStartSnoc | PythonAPP/app.py:72-73 | one more whitespace character after the text is cut by `lstrip()` with the blank text before it, or kept after the rest |
| Text.StripDropsTrailingSpace | PythonAPP/app.py:69-73 | a trailing whitespace character, such as padding after a value on a line of the command output, does not change what `strip()` returns |
| Text.StripKeepsCharacters | PythonAPP/app.py:72-73 | every character `strip()` keeps occurs in its argument |
| Text.FindFrom | PythonAPP/app.py:70-71 | the first index at or after k where the separator occurs, or None when there is none |
| Text.SplitOnce | PythonAPP/app.py:70-71 | `split(': ', 1)`: None exactly when the separator does not occur; otherwise the line is before + separator + after, with no earlier occurrence |
| Text.SplitOnceOfJoin | PythonAPP/app.py:71 | joining two texts around the separator and splitting again gives them back when the separator does not start inside the first |
| Text.LeftJustify | PythonAPP/app.py:100 | `:<w` pads on the right to width w and never cuts: length max(w, len), the text itself first, then only spaces |
| Text.TrimPadding | PythonAPP/app.py:100 | removes exactly the trailing spaces of a column |
| Text.TrimPaddingOfLeftJustify | PythonAPP/app.py:100 | a padded value that does not end in a space reads back to itself |
| Text.SplitOn | PythonAPP/app.py:62 | `split('\n')` returns at least one piece and no piece holds the separator |
| Text.JoinSplit | PythonAPP/app.py:62 | joining the pieces of a split with the separator gives the text back |
| Text.TerminatedSnoc | PythonAPP/app.py:96-100 | one more `result += line + "\n"` appends one more line to the text |
| Text.TerminatedStartsWith | PythonAPP/app.py:92-93 | the text of two or more lines starts with the first two, each ended by a newline |
| Text.SplitTerminated | PythonAPP/app.py:92-100 | text built from newline-free lines, each ended by "\n", splits back into those lines and a final "" |
| Order.LessIsLexicographic | PythonAPP/app.py:98 | Python's string `<`: a is below b exactly when a is a proper prefix of b, or at the first position where they differ a has the smaller code point |
| Order.LessIrreflexive | PythonAPP/app.py:98 | no string is below itself in Python's string order |
| Order.LessAsymmetric | PythonAPP/app.py:98 | two strings are never each below the other |
| Order.LessTransitive | PythonAPP/app.py:98 | the string order is transitive |
| Order.LessTotal | PythonAPP/app.py:98 | any two different strings are ordered one way or the other |
| Order.Sorted | PythonAPP/app.py:98 | `sorted()` of the ids: strictly ascending, same length, same elements |
| Order.AscendingUnique | PythonAPP/app.py:98 | two ascending sequences with the same elements are equal, so the sorted order is fully determined |
| Order.SortedIsTextOrder | PythonAPP/app.py:98 | ids sort as text: "10", "2", "1" come out as "1", "10", "2" |
| Inventory.OrNotAvailable | PythonAPP/app.py:86-89 | never empty; an empty value becomes "N/A", a non-empty one is kept |
| Inventory.SizeOf | PythonAPP/app.py:80-85 | the converted size, or 0 when the conversion raises `ValueError` |
| Inventory.Field | PythonAPP/app.py:69-73 | a line yields a key and value exactly when it holds ": "; both come back stripped |
| Inventory.BlankHasNoSeparator | PythonAPP/app.py:69-70 | a blank line cannot hold ": ", so the blank test never drops a line the separator test would keep |
| Inventory.FieldOfLine | PythonAPP/app.py:70-73 | key and value are the stripped text before and after the first ": " |
| Inventory.SetAttribute | PythonAPP/app.py:78-89 | each attribute key sets its own field of the record and no other |
| Inventory.Apply | PythonAPP/app.py:75-89 | keeps the invariant that an open disk has a record, so no update raises `KeyError` |
| Inventory.Step | PythonAPP/app.py:69-89 | keeps that invariant; a line without ": " changes nothing |
| Inventory.Run | PythonAPP/app.py:65-89 | the loop variables after all lines satisfy the invariant |
| Inventory.DeviceIdOpensFreshRecord | PythonAPP/app.py:75-77 | a `DeviceId` line opens its id with the default record, discarding an earlier record of the same id, adds only that id, keeps every other record, and leaves a disk open exactly when the value is non-empty |
| Inventory.IgnoredPairs | PythonAPP/app.py:78-89 | with no open disk, or for a key that is neither `DeviceId` nor one of the four attributes, nothing changes |
| Inventory.AttributeTouchesOnlyOpenDisk | PythonAPP/app.py:78-89 | an attribute line changes only the open disk's record; the current disk, the set of ids and every other record stay |
| Inventory.DeviceIdOf | PythonAPP/app.py:71-76 | a line is a `DeviceId` line exactly when its key is `DeviceId`, and then the id is the stripped value after the first ": " |
| Inventory.StepKeys | PythonAPP/app.py:75-77 | only a `DeviceId` line adds an id, and exactly its value |
| Inventory.RunKeys | PythonAPP/app.py:65-89 | the ids in the map are exactly the distinct `DeviceId` values of the lines |
| Inventory.StepClosed | PythonAPP/app.py:78-89 | with no open disk, a line that is not a `DeviceId` line changes nothing |
| Inventory.ClosedRunIgnoresAttributes | PythonAPP/app.py:78-89 | once no disk is open, lines without a `DeviceId` change nothing |
| Inventory.NoDeviceIdNoDisks | PythonAPP/app.py:65-89 | output without a `DeviceId` line leaves the map empty and no disk open |
| Inventory.EmptyLetterOrFileSystemIsNotAvailable | PythonAPP/app.py:86-89 | for an open disk, an empty `DriveLetter` or `FileSystem` value stores "N/A" and a non-empty one stores the value |
| Inventory.EmptyDeviceIdTakesNoAttributes | PythonAPP/app.py:75-89 | an empty `DeviceId` value adds the default record "" and every attribute line after it, up to the next `DeviceId`, is dropped |
| Inventory.ApplyTidy | PythonAPP/app.py:72-89 | one pair keeps every stored id and text stripped, and letter and file system non-empty |
| Inventory.StepTidy | PythonAPP/app.py:69-89 | one line keeps that property |
| Inventory.RunTidy | PythonAPP/app.py:65-89 | every record the parser stores has stripped text and a non-empty drive letter and file system |
| Inventory.StepCases | PythonAPP/app.py:69-89 | the step is the blank test, the cut at the first ": ", then the key chain |
| Inventory.ReadLine | PythonAPP/app.py:69-89 | the loop body's update of `current_disk` and `disk_map` is exactly one step |
| Inventory.ParseInventory | PythonAPP/app.py:65-89 | the loop returns the map of the fold over all lines |
| Text.Repeat | PythonAPP/app.py:93 | `"-" * n` (and the padding of `:<w`): n characters, all the given one |
| DiskReport.SizeText | PythonAPP/app.py:99 | the rendered size first, then spaces up to 7 characters (never cut), then "GB": length max(7, len) + 2 |
| DiskReport.Columns | PythonAPP/app.py:92-100 | the five left-justified columns make a line at least 90 characters wide that starts with the whole first value |
| DiskReport.RowLine | PythonAPP/app.py:100 | a row is at least 90 characters and starts with the whole id, however long |
| DiskReport.RowLines | PythonAPP/app.py:98-100 | one row per id, in the given order, each the row of that id's record |
| DiskReport.ReportLinesContents | PythonAPP/app.py:92-100 | header, then the rule; with no disks exactly "No physical disks found." follows; otherwise exactly one row per disk, the k-th for the k-th id in ascending order |
| DiskReport.Report | PythonAPP/app.py:92-102 | the returned text, whatever the disks, opens with the header line and then the rule line, each ended by a newline |
| DiskReport.ColumnsDecode | PythonAPP/app.py:100 | values that fit their columns give a 90-character row whose columns read back to them |
| DiskReport.HeaderDecodes | PythonAPP/app.py:92 | the header is 90 characters and reads back as the five column titles |
| DiskReport.RowDecodes | PythonAPP/app.py:98-100 | the row of a stored disk whose values fit reads back to its id, name, size text, letter and file system |
| DiskReport.ReportLinesShape | PythonAPP/app.py:95-98 | the lines are the header, the rule and then the "no disks" line or the sorted rows |
| DiskReport.ReportSplitsIntoLines | PythonAPP/app.py:92-100 | when no field holds a newline, the report text splits into exactly its lines and a final "" |
| DiskReport.AppendRows | PythonAPP/app.py:98-100 | the `for` loop appends exactly the rows of the ids, each ended by a newline |
| DiskReport.RenderReport | PythonAPP/app.py:92-100 | the text built by the repeated `result +=` is the report |
| ListDisks.ListDisksText | PythonAPP/app.py:62-102 | whatever the command printed, the text returned starts with the header line and the rule line |
| ListDisks.ListDisks | PythonAPP/app.py:62-100 | splitting the output, the parsing loop and the formatting loop give the report of the fold |
| ListDisks.FieldNoNewline | PythonAPP/app.py:71-73 | key and value of a line without a newline hold none |
| ListDisks.StepNoNewlines | PythonAPP/app.py:69-89 | a line without a newline stores no newline |
| ListDisks.RunNoNewlines | PythonAPP/app.py:65-89 | after `split('\n')` no stored id or field holds a newline |
| ListDisks.ListDisksLines | PythonAPP/app.py:62-100 | for any command output, the ids are the distinct `DeviceId` values and the returned text splits into exactly the report lines |
| ListDisks.NoDeviceIdReportsNone | PythonAPP/app.py:92-96 | output without a `DeviceId` line gives the header, the rule and "No physical disks found." |
| FormatDisk.DigitsNotBlank | PythonAPP/app.py:111-115 | an all-digit id is never blank, so the second check is the one that accepts |
| FormatDisk.ValidateDiskId | PythonAPP/app.py:111-117 | an id is accepted exactly when it is all digits, and then unchanged; refused as missing exactly when blank; refused as not numeric exactly when neither |
| FormatDisk.ValidationExamples | PythonAPP/app.py:111-117 | "" and " \t" are refused as missing, "abc" and "-1" as not numeric, "3" is accepted |
| FormatDisk.PaddedDigitsRefused | PythonAPP/app.py:115 | the digit test is on the unstripped id: digits with a space before or after are refused as not numeric |
| FormatDisk.ScriptLines | PythonAPP/app.py:134-142 | the script is exactly 8 commands: select the disk, clean, create partition primary, select partition 1, active, assign, the format command with file system and label, exit |
| FormatDisk.DiskpartScript | PythonAPP/app.py:134-142 | the script text starts with the line `select disk <id>` and ends with the line `exit` |
| FormatDisk.PlanFormat | PythonAPP/app.py:134-142 | a script is produced exactly for an all-digit id, and it is the script of that id; otherwise the refusal the checks give |
| FormatDisk.SelectedDisk | PythonAPP/app.py:134 | reads back the disk named by the script's first line |
| FormatDisk.ScriptSelectsAcceptedDisk | PythonAPP/app.py:134 | the script of an accepted id selects exactly that disk, whatever file system and label are given |
| FormatDisk.ScriptSplitsIntoLines | PythonAPP/app.py:134-142 | with a newline-free file system and label, the script splits into exactly its 8 commands and a final "" |
| FormatDisk.DefaultFormatCommand | PythonAPP/app.py:109 | with the default arguments the format command is `format fs=NTFS label="NewVolume" quick` |

## Left out

- The PowerShell command that enumerates the disks (`PythonAPP/app.py:35-62`) is process I/O; its captured output is the `output` parameter of `ListDisks.ListDisks`.
- The two exception handlers of `list_disks` (`PythonAPP/app.py:103-106`) turn process failures into error strings; there is no process to fail in the model.
- The floating-point size conversion (`PythonAPP/app.py:82`) and the `.2f` rendering (`PythonAPP/app.py:99`) are parameters; only "a value that does not convert gives 0" and the `<7` padding with the `GB` suffix are modelled. A `TypeError` cannot arise, as the value is always a string.
- Inventory.SizeOf: the fallback size is the real 0.0, where the source stores the integer 0; both render the same under `.2f`.
- FormatDisk.ValidateDiskId: `isdigit()` is modelled for ASCII digits only; Python also accepts other Unicode digits (for example Arabic-Indic digits), which the model refuses.
- The confirmation dialog, every `messagebox` call, writing the script and log to the temporary directory, running diskpart, reading the log on failure and removing the files (`PythonAPP/app.py:120-133`, `144-179`) are user interface and process I/O.
- `refresh_disk_list` and the Tk window built in `main` (`PythonAPP/app.py:230-338`) are user interface.
- Privilege elevation and `get_base_path` (`PythonAPP/app.py:9-29`) are calls into the operating system.
- `clone_disk` and `backup_disk` (`PythonAPP/app.py:182-227`) only show a dialog and do no work.
- DiskReport.ReportSplitsIntoLines and ListDisks.ListDisksLines assume the `.2f` rendering holds no newline, which holds for every float but is not provable about a parameter.
- FormatDisk.ScriptSplitsIntoLines assumes the file system and label hold no newline; the source does not check them, and a label with a newline would add commands to the script.
