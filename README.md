# File analyzer: a verified model

This project models the core of a small desktop tool. The tool compares a **source folder**
with a **sorted folder** by file name. It reports, in a five-column table, every file below
the source folder whose name occurs neither anywhere in the sorted tree nor in the
**ignore list**. It can then copy those files into a new folder named
`неотсортированное-<timestamp>`, created beside the source folder. The tool remembers:

- the two folders and a history of result folders, in a JSON settings file;
- the ignore list, in `Игнор-лист/ignore_list.txt` beside the source folder, one name per
  line.

The model covers these parts:

- **Text** (`text.dfy`): `str.split`, `str.join`, `str.strip`, the universal-newline
  reading of a text file, Python's `<` on strings, and hexadecimal and decimal numerals.
- **Paths** (`paths.dfy`): `os.path.join`, `basename`, `splitext` and `relpath` on
  POSIX paths, and `pathlib`'s parsing, `parent` and `/`.
- **Clock** (`clock.dfy`): calendar times and `strftime("%Y-%m-%d?%H?%M?%S")`.
- **FileSystem** (`disk.dfy`): a disk as a value (files, directories, permission denials)
  with `mkdir`, whole-file read and write, and `shutil.copy2`.
- **Config** (`config.py`): settings load and save, the ignore-list location, its text
  format, and loading and saving it.
- **FileAnalyzer** (`file_analyzer.py`): the recursive scan, the classifier, and the older
  `analyze_files`.
- **SizeFormat**: `format_file_size`.
- **FileOperations** (`file_operations.py`): the result folder and the copy loop.
- **Sorting** and **Table**: the rows, headings and item ids of the table, and the
  order `sort_column` gives it.
- **Window** (`main_window.py`): the main window as a class whose handlers update its
  fields. Each handler is tied to a function of the old state, and lemmas state what that
  function promises.
- **Dialogs** (`dialogs.py`): the ignore-list dialog as a class, and its removal of the
  selected entries.

Dialogs, message boxes and the clock are parameters of the handlers: a confirmation is a
`bool`, a chosen folder is a `string` (empty when cancelled), "now" is a `DateTime`, and
the trees on disk are `Node` snapshots.

## Model

| member | source | states |
|---|---|---|
| Text.SplitJoin | src/config.py:63 | Splitting a join of separator-free pieces at the separator gives the pieces back |
| Text.JoinSplit | src/config.py:63 | Joining the pieces of a split gives the text back |
| Text.SplitPieces | src/config.py:49 | No piece of a split holds the separator |
| Text.TrimStart | src/config.py:49 | `lstrip` returns a suffix of its input, preceded only by whitespace and not starting with whitespace |
| Text.TrimEnd | src/config.py:49 | `rstrip` returns a prefix of its input, followed only by whitespace and not ending with whitespace |
| Text.TrimmedSlice | src/config.py:49 | What `lstrip` then `rstrip` leave is a slice of the input with nothing but whitespace before and after it |
| Text.StripAvoids | src/config.py:49 | `strip` introduces no character that was not in its input |
| Text.StripEnds | src/config.py:49 | A non-empty stripped text starts and ends with a non-space |
| Text.StripClean | src/config.py:49 | Stripping a text that has no space at either end returns it unchanged |
| Text.UniversalNewlinesPlain | src/config.py:48 | Reading in text mode leaves a text without carriage returns unchanged |
| Text.LessTransitive | src/ui/main_window.py:275 | Python's string `<` is transitive |
| Text.LessTotal | src/ui/main_window.py:275 | Any two different strings are ordered one way by `<` |
| Text.NumeralValueOfNumeral | src/ui/main_window.py:190 | The digits written for a number read back as that number, in any base 2..16 |
| Paths.Basename | src/utils/file_analyzer.py:36 | The basename is the slash-free tail of the path, preceded by a slash when shorter than the path |
| Paths.BasenameOfJoin | src/utils/file_analyzer.py:12 | The basename of `join(root, name)` is `name` |
| Paths.SplitExt | src/utils/file_analyzer.py:22 | `splitext` cuts the name into two parts that concatenate back to it; the second is empty or a dot followed by no dot or slash |
| Paths.ExtensionOfName | src/utils/file_analyzer.py:22 | A name has an extension exactly when some dot follows a non-dot; the extension then runs from the last dot |
| Paths.ComponentsOfJoin | src/utils/file_analyzer.py:12 | The components of a joined path are those of the root followed by those of the name |
| Paths.RelPathOfExtension | src/utils/file_analyzer.py:19 | `relpath` of a path below the start is its extra components joined by "/" |
| Paths.RootOf | src/utils/file_operations.py:12 | A path's anchor is "", "/" or "//", and it is empty exactly for a path that does not start with a slash |
| Paths.ParseStr | src/utils/file_operations.py:15 | Parsing the text of a well-formed path gives that path back, with its anchor: exactly two leading slashes stay "//", one or three or more become "/" |
| Paths.Parent | src/config.py:35 | `parent` keeps the anchor and drops the last component, and is the identity on a root |
| Paths.DivName | src/config.py:36 | `/` with one proper name appends it, and `parent` undoes that |
| Paths.DivNames | src/utils/file_operations.py:12 | `/` twice appends both names, and two parents undo it |
| Clock.StampRoundTrip | src/utils/file_operations.py:10 | A valid time written as 19 characters, with dashes in the date and the chosen separators, reads back as that time |
| Clock.StampInjective | src/ui/main_window.py:190 | Different valid times are written differently |
| FileSystem.PathMkdir | src/utils/file_operations.py:13 | `mkdir` only adds directories, each the path or a folder above it, keeps files and permissions, and leaves the path a directory |
| FileSystem.MkdirExisting | src/config.py:37 | With `exist_ok`, `mkdir` on an existing directory succeeds and changes nothing |
| FileSystem.MkdirExistingFails | src/config.py:37 | Without `exist_ok`, `mkdir` on an existing path raises `FileExistsError` |
| FileSystem.MkdirAfterParents | src/utils/file_operations.py:30 | When `mkdir` of a path fails only for a missing parent and making the parents succeeds, the path itself can then be made: on a valid disk, no failure comes after the missing parents were made |
| FileSystem.MkdirFresh | src/utils/file_operations.py:13 | `mkdir` of a new path in a writable directory adds exactly that directory |
| FileSystem.ReadFile | src/config.py:48 | Reading succeeds exactly for a reachable, permitted regular file, and gives its text |
| FileSystem.WriteFile | src/config.py:62-63 | A successful write replaces only that file's text, in a reachable non-directory, and keeps the disk valid |
| FileSystem.Copy2 | src/utils/file_operations.py:31 | A successful copy read a source file that is not the target and stored its text at the target (inside a directory target) |
| Config.LoadConfig | src/config.py:7-17 | Loading gives the stored settings, or empty folders and empty lists when nothing loads |
| Config.SaveConfig | src/config.py:20-27 | What is saved loads back unchanged |
| Config.IgnoreListLocation | src/config.py:30-39 | There is no location for an empty source folder; otherwise the location is "Игнор-лист/ignore_list.txt" under the source's parent |
| Config.GetIgnoreListPath | src/config.py:30-39 | Getting the path only adds directories, and leaves the ignore folder a directory |
| Config.CleanedClean | src/config.py:49 | Stripping and dropping blank lines yields clean names and never more lines |
| Config.ParseIgnoreText | src/config.py:47-49 | Every name read from the file is clean |
| Config.IgnoreTextRoundTrip | src/config.py:63 | Clean names written as the ignore file read back as the same names |
| Config.IgnoreTextNormalForm | src/config.py:49 | Writing back what was read and reading it again gives the same names |
| Config.LoadIgnoreList | src/config.py:42-53 | No source, no file or an unreadable file give no names; names read are clean; files are untouched |
| Config.SaveIgnoreList | src/config.py:56-65 | A save that reports no error leaves the file holding the joined names |
| Config.SaveThenLoad | src/config.py:42-65 | Clean names saved are exactly what the next load returns |
| FileAnalyzer.GetAllFiles | src/utils/file_analyzer.py:5-30 | The scan loop yields the records of the files of the walk in walk order, and the paths it skips |
| FileAnalyzer.RecordsAndSkipped | src/utils/file_analyzer.py:13-28 | Every file found is either recorded or skipped |
| FileAnalyzer.RecordOfBelow | src/utils/file_analyzer.py:12-22 | A record's name ends its path, its relative path is the chain of names from the folder down to it, and its extension is the `splitext` suffix of its name |
| FileAnalyzer.ScanRecordsBelow | src/utils/file_analyzer.py:5-30 | Every scanned record lies below the scanned folder and its name ends its path |
| FileAnalyzer.SortedNames | src/utils/file_analyzer.py:36 | The basename of every sorted record is a sorted name |
| FileAnalyzer.SortedNamesExact | src/utils/file_analyzer.py:36 | A name is a sorted name exactly when it ends a sorted record's path |
| FileAnalyzer.FindUnsortedFiles | src/utils/file_analyzer.py:33-44 | The filter loop keeps exactly the records the classifier keeps |
| FileAnalyzer.UnsortedIsSubsequence | src/utils/file_analyzer.py:38-44 | The result is the records that pass the filter, at increasing positions of the input, none missed |
| FileAnalyzer.UnsortedMembers | src/utils/file_analyzer.py:41 | A record is reported exactly when it is a source record whose name is in neither the ignore list nor the sorted names |
| FileAnalyzer.UnsortedIdempotent | src/utils/file_analyzer.py:33-44 | Classifying the result again changes nothing |
| FileAnalyzer.SameNameAnywhere | src/utils/file_analyzer.py:36-41 | A file is hidden by a sorted file of the same name at any depth |
| FileAnalyzer.ScannedSortedNames | src/utils/file_analyzer.py:36 | For scanned records, the basenames of the paths are the recorded names |
| FileAnalyzer.ListDir | src/utils/file_analyzer.py:64 | Listing succeeds exactly for a listable directory and gives the names of its entries |
| FileAnalyzer.AnalyzeFiles | src/utils/file_analyzer.py:58-79 | The older analysis computes the same as its specification function |
| FileAnalyzer.ScanWalk | src/utils/file_analyzer.py:66-77 | The nested loop over the walk computes the same as the flat scan of what the walk finds |
| FileAnalyzer.PlainScanStops | src/utils/file_analyzer.py:74-75 | Once a size or time cannot be read, the scan has failed whatever follows |
| FileAnalyzer.PlainScanSucceeds | src/utils/file_analyzer.py:66-77 | The scan succeeds exactly when every file that passes the filter can be examined |
| FileAnalyzer.PlainScanRecords | src/utils/file_analyzer.py:66-77 | A successful scan has one record per file that passes the filter, in order, with its name, path, size and time |
| FileAnalyzer.PlainComparesTopLevel | src/utils/file_analyzer.py:64-68 | A reported file's name matches no top-level entry of the sorted folder and is not ignored |
| FileAnalyzer.PlainKeptNames | src/utils/file_analyzer.py:68 | Every file that passes the filter is in neither the listing nor the ignore list |
| SizeFormat.UnitIndexFirst | src/utils/file_analyzer.py:50-53 | The unit chosen is the first at which the scaled value drops below 1024, or petabytes |
| SizeFormat.UnitIndexUnique | src/utils/file_analyzer.py:50-55 | Any unit meeting that description is the one chosen |
| SizeFormat.FormatFileSize | src/utils/file_analyzer.py:47-55 | The division loop yields the exact scaled value and the unit of its specification |
| SizeFormat.SmallSize | src/utils/file_analyzer.py:51-52 | Fewer than 1024 bytes are shown as the number of bytes with ".00 Б" |
| SizeFormat.ScaledRange | src/utils/file_analyzer.py:50-53 | Below petabytes, a size of at least 1024 bytes is shown as a value from 1 up to, but not including, 1024 |
| FileOperations.ResultFolderNameLayout | src/utils/file_operations.py:10-11 | The folder name is the prefix followed by the 19-character stamp, which reads back as the time, and it is a proper name |
| FileOperations.ResultFolderNamesDiffer | src/utils/file_operations.py:10-11 | Different times give different folder names |
| FileOperations.ResultFolderPlace | src/utils/file_operations.py:12-15 | The result folder sits in the source folder's parent, and its returned text parses back to it |
| FileOperations.CreateResultFolder | src/utils/file_operations.py:7-15 | Creation returns the folder's text, only adds directories, and leaves the folder a directory |
| FileOperations.CreateExistingFolder | src/utils/file_operations.py:13 | An existing result folder is reused unchanged |
| FileOperations.CreateFreshFolder | src/utils/file_operations.py:13 | A new result folder in an existing, writable parent is added and nothing else changes |
| FileOperations.CopyMessage | src/utils/file_operations.py:34 | The error message is the prefix, then the file name, then the error |
| FileOperations.CopyOneEffect | src/utils/file_operations.py:26-35 | One attempt only adds; the folders it made stay when the copy then fails, and a failed attempt changes no file; a successful one needs the source file and writes its text at the destination |
| FileOperations.CopiedTextsArrive | src/utils/file_operations.py:24-32 | When no destination lies inside another, none is a source file and none is a folder at the start, every file whose attempt succeeded holds its source's text on the disk the whole loop leaves |
| FileOperations.Run | src/utils/file_operations.py:21-37 | Copies and errors together number the files; there are no errors exactly when every file was copied |
| FileOperations.CopyAllKeeps | src/utils/file_operations.py:24-35 | The copy loop never removes a file or directory, whether its attempts succeed or not, and keeps the disk valid |
| FileOperations.CopyUnsortedFiles | src/utils/file_operations.py:18-37 | The copy loop computes the disk, the count and the errors of its specification; the disk carries on from each attempt, failed ones included |
| FileOperations.TryCopy | src/utils/file_operations.py:25-35 | One iteration's try block has the effect of a single attempt, including the folders made before a failed copy |
| FileOperations.RunErrors | src/utils/file_operations.py:33-35 | The errors are those of the failed attempts, in order |
| FileOperations.CopyErrors | src/utils/file_operations.py:24-35 | Each error names the file at a failed position, and each attempt runs on the disk left by the earlier ones |
| Sorting.SortBySorts | src/ui/main_window.py:275 | The sort is a permutation in ascending order |
| Sorting.ArrangeSorts | src/ui/main_window.py:275 | With `reverse`, the arrangement is a permutation in descending order, otherwise in ascending order |
| Sorting.ArrangeUnique | src/ui/main_window.py:275 | When keys differ, it is the only such permutation |
| Table.StemOfShown | src/ui/main_window.py:282 | The text before the first space of a shown heading is the column's name |
| Table.HeadingAfter | src/ui/main_window.py:280-297 | After sorting, every heading is one a column can show |
| Table.ItemIdValue | src/ui/main_window.py:273 | An item id is "I" followed by a numeral that reads back as the item's number |
| Table.ItemIdInjective | src/ui/main_window.py:273 | Different items have different ids |
| Table.RowsForShape | src/ui/main_window.py:183-194 | File i is shown by item serial+i+1, and no two rows share a number |
| Table.NumberedIds | src/ui/main_window.py:273 | Among numbered rows, equal ids mean the same row |
| Table.PairLessStrictTotal | src/ui/main_window.py:275 | Python's order on (cell text, id) pairs is a strict total order |
| Table.NumberedKeys | src/ui/main_window.py:272-275 | Numbered rows never tie on their sort key |
| Table.ArrangedSpec | src/ui/main_window.py:272-278 | Sorting by a column keeps the rows and orders them by cell text then id, in the chosen direction; this is the only such order |
| Table.ArrangedNumbered | src/ui/main_window.py:277-278 | Moving rows keeps them numbered |
| Window.MergeNamesSpec | src/ui/main_window.py:251-255 | Adding keeps the old list as a prefix, adds exactly the new names, and adds no name twice |
| Window.MergeClean | src/ui/main_window.py:251-255 | Adding clean names to a clean list keeps it clean |
| Window.AppendAbsent | src/ui/main_window.py:251-255 | The append loop computes the merged list |
| Window.NamesAt | src/ui/main_window.py:251-253 | The names of the selected rows, in selection order |
| Window.AddedNamesAreIgnored | src/ui/main_window.py:249-257 | After adding names and saving, the next load returns the merged list, and no classified file carries an added name |
| Window.MarkHeadings | src/ui/main_window.py:280-297 | The heading loop gives each column its heading after the sort |
| Window.InsertRows | src/ui/main_window.py:183-194 | The insert loop creates the rows of its specification and advances the item counter by one per file |
| Window.AnalyzeEffectSpec | src/ui/main_window.py:165-198 | Without both folders nothing changes; otherwise a failure to load the ignore list is raised with the table cleared, or the table shows exactly the source files that pass the filter, numbered on from the counter |
| Window.AnalyzeEffectValid | src/ui/main_window.py:165-198 | Analysis keeps the disk valid and the rows numbered |
| Window.CopyFilesEffectSpec | src/ui/main_window.py:200-232 | With no files nothing changes; a failure to create the folder is raised; otherwise the folder exists, every file is copied or reported, the history gains the folder, the source follows the choice, and the settings are saved |
| Window.CopyFilesEffectValid | src/ui/main_window.py:200-232 | Copying keeps the disk valid and the settings saved |
| Window.AddNamesAndAnalyze | src/ui/main_window.py:243-259 | Without selected names nothing happens; otherwise loading the list, appending the absent names one by one, saving and analysing again, stopping at the first failure, gives exactly the handler's specification |
| Window.AddToIgnoreEffectValid | src/ui/main_window.py:243-259 | Adding to the ignore list keeps the disk valid and the rows numbered |
| Window.AddToIgnoreHides | src/ui/main_window.py:243-259 | When the load and the save succeed, the table that follows shows no file with an added name |
| Window.MainWindow.constructor | src/ui/main_window.py:10-22 | The window starts with the loaded settings, the entries filled from them, an empty table with plain headings, and no sort column |
| Window.MainWindow.AnalyzeFiles | src/ui/main_window.py:165-198 | The handler's new disk, files, rows and counter are those of its specification |
| Window.MainWindow.CopyFiles | src/ui/main_window.py:200-232 | The handler's result, disk, settings, settings file and source entry are those of its specification |
| Window.MainWindow.ClearHistory | src/ui/main_window.py:299-303 | When confirmed, the history is emptied and saved; otherwise nothing changes |
| Window.MainWindow.SelectSourceFolder | src/ui/main_window.py:145-153 | A chosen folder fills the entry and is saved as the source folder; a cancel changes nothing |
| Window.MainWindow.SelectSortedFolder | src/ui/main_window.py:155-163 | A chosen folder fills the entry and is saved as the sorted folder; a cancel changes nothing |
| Window.MainWindow.AskPreviousFolder | src/ui/main_window.py:131-143 | With a history and a yes, the last history entry becomes the source entry and is saved; otherwise nothing changes |
| Window.MainWindow.AddToIgnore | src/ui/main_window.py:243-259 | The handler's new state is that of its specification, applied to the names of the selected rows |
| Window.MainWindow.SortColumn | src/ui/main_window.py:265-297 | The same column flips the direction, a new one sorts ascending; the rows are arranged by that column and the headings marked |
| Dialogs.WithoutSpec | src/ui/dialogs.py:98-99 | Removal keeps exactly the entries at unselected positions, in their order |
| Dialogs.WithoutDelete | src/ui/dialogs.py:98-99 | Deleting a position below every position already removed removes it from the original list too |
| Dialogs.DeleteDescending | src/ui/dialogs.py:98-99 | Deleting the selected indices from the last to the first removes exactly the selected entries |
| Dialogs.WithoutClean | src/ui/dialogs.py:98-101 | Removal keeps a clean list clean |
| Dialogs.RemovedStayRemoved | src/ui/dialogs.py:101 | The list saved after a removal is what the dialog loads the next time it opens |
| Dialogs.IgnoreListDialog.constructor | src/ui/dialogs.py:38-47 | The dialog holds and shows the list loaded for its source folder |
| Dialogs.IgnoreListDialog.RemoveSelected | src/ui/dialogs.py:93-103 | An empty selection changes nothing; otherwise the list loses exactly the selected entries and is saved and shown again, or the save error is raised before it is shown |

## Examples

Beside the lemmas in the table, a few worked examples pin the definitions to concrete
values: `SizeFormat.SizeExample500`, `SizeExample2048` and `SizeExampleGiB` show
500 bytes, 2048 bytes and one gibibyte, and `FileAnalyzer.UnsortedPair` and
`IgnoredScenario` classify two records and an ignored name.

## Left out

- The Tk widgets, the window geometry, the context menu, the result label and the
  message boxes. Every question a message box asks is a `bool` parameter. The
  `show_*`/`ask_*` wrappers in `src/ui/dialogs.py` are one-line calls into Tk.
- `show_ignore_list` (`src/ui/main_window.py:234-241`) only opens the modal dialog, so
  the dialog class stands for it.
- Time: `datetime.now()` and `datetime.fromtimestamp` become parameters, namely the `now`
  argument and the calendar time held in each file's `Stat`.
- `os.walk`, `os.stat` and `os.listdir` read a `Node` snapshot of the tree. Concurrent
  changes to the disk during a scan are not modelled.
- The settings file's JSON encoding is abstract (`ConfigFile`), and so is the settings
  file's own path in the home directory. The messages printed on errors are not modelled;
  a printed error is the `logged` field.
- Config.SaveConfig: a failed write of the settings file is not modelled. The program
  prints such an error and goes on; in the model every save is stored.
- `shutil.copy2` copies the text only; permission bits and times are not modelled.
  Files hold text (`string`) rather than bytes.
- SizeFormat.FormatFileSize: the size is an exact rational, with no floating-point
  rounding. Only whole scaled values get their two-decimal text (`WholeText`); any other
  value goes through the `render` parameter of the table.
- Table.Cell: the size column is sorted by its text, as the program does. The model
  states nothing about numeric order.
- FileOperations.CopyOne: `shutil.copy2` is one step that either stores the text or
  fails. A failure of its `copystat` after `copyfile` has written the file is not modelled,
  so no failed attempt leaves a written file behind.
- FileOperations.CopiedTextsArrive: states the final texts only for destinations that
  do not lie inside one another. When one file's destination is a folder above another's,
  the later `mkdir` turns it into a directory, and `copy2` then writes into it under the
  source's basename, possibly over another copy.
- Symbolic links: `os.walk` does not follow links to directories, while `stat` and
  `getsize` follow links to files, and a dangling link fails to `stat`. A `Node` holds
  only directories and regular files, so none of this is modelled; a dangling link would
  be a file whose `Stat` cannot be read.
- Times: `st_mtime` and `os.path.getmtime` are floats. `Stat.mtime` and
  `PlainRecord.mtime` are whole seconds, so fractions of a second are lost.
- Aliasing: a `Disk` is keyed by parsed paths. Relative and absolute spellings of one
  file, paths through "..", and "//" against "/" are different keys. So `copy2` of
  "a/b" onto "/cwd/a/b" does not raise `SameFileError` in the model, and a copy through
  ".." can land on a key no scan reports.
- `copy_unsorted_files` ignores its `source_folder` argument. The model keeps the
  parameter and does not use it.
- The thin wrappers `copy_file`, `move_file`, `delete_file`, `get_file_size` and
  `get_file_modification_time` (`src/utils/file_operations.py:40-67`) are not called by
  the window and are not modelled.
- Window.MainWindow.AnalyzeFiles and Window.MainWindow.CopyFiles: each handler applies the
  specification function of a loop (`Scan`, `Unsorted`, `RowsFor`, `CopyAll`) directly.
  So does `Window.AddNamesAndAnalyze` for the analysis that ends `add_to_ignore`.
  The loop methods `GetAllFiles`, `FindUnsortedFiles`, `InsertRows` and
  `CopyUnsortedFiles` are each proved to compute that function.
- Window.AddToIgnoreHides: requires the added names to be clean. A name with surrounding
  whitespace or a line break does not survive the ignore file's text format.
- Dialogs.IgnoreListDialog.constructor: requires the ignore list to load. When making the
  ignore folder fails, the program raises and no dialog exists.
- Dialogs.IgnoreListDialog.RemoveSelected: requires the selection to be strictly
  increasing positions of the list, which is what a Tk list box reports.

Where the code and the tool's documented behaviour differ, the model follows the code:

- The scan of a folder that cannot be listed yields no files and no error. `os.walk`
  swallows the listing error. The outer `except` of `get_all_files`
  (`src/utils/file_analyzer.py:27-28`) is reached only by errors outside this model, such
  as a `print` that raises `UnicodeEncodeError` or a deep tree that raises
  `RecursionError`, so the model has no such path.
- `get_ignore_list_path` creates the "Игнор-лист" folder even to load, and a failure to
  create it is raised to the caller rather than ignored (`src/config.py:37`).
- The default settings include an empty `ignore_list` (`src/config.py:17`).
- Names are compared with `in` on the list and on the set, so matching is exact and
  case-sensitive.
