/** The state behind the main window: the two folder entries, the settings, the files the
    last analysis found, the table that shows them and its sort state; and the handlers
    that change that state. */
module Window {
  import opened Wrappers
  import opened Config
  import opened FileSystem
  import Clock
  import opened FileAnalyzer
  import opened SizeFormat
  import opened FileOperations
  import opened Table
  import opened Paths

  /** What `get_all_files(folder)` returns for the tree the walk finds under `folder`. */
  function Scan(folder: string, top: Option<Node>): seq<FileRecord>
  {
    Records(Flat(WalkTop(folder, top)), folder)
  }

  /** `config.get(key, "")` for a folder setting. */
  function EntryText(setting: Option<string>): string
  {
    if setting.Some? then setting.value else ""
  }

  /** The history after `if "history" not in config: config["history"] = []`. */
  function History(h: Option<seq<string>>): seq<string>
  {
    if h.Some? then h.value else []
  }

  // ---------------------------------------------------------------------------
  // merging names into the ignore list

  /** `names` with each of `adds` appended in turn unless already present. */
  function MergeNames(names: seq<string>, adds: seq<string>): seq<string>
    decreases |adds|
  {
    if adds == [] then names
    else
      var merged := MergeNames(names, adds[..|adds| - 1]);
      var x := adds[|adds| - 1];
      if x in merged then merged else merged + [x]
  }

  /** The merge keeps the list as its prefix, holds exactly the old and the added names, and
      appends no name that was already there or twice. */
  lemma {:induction false} MergeNamesSpec(names: seq<string>, adds: seq<string>)
    ensures var m := MergeNames(names, adds);
      && names <= m
      && (forall x :: x in m <==> x in names || x in adds)
      && (forall i :: |names| <= i < |m| ==> m[i] !in names)
      && (forall i, j :: |names| <= i < j < |m| ==> m[i] != m[j])
    decreases |adds|
  {
    if adds != [] {
      var init := adds[..|adds| - 1];
      MergeNamesSpec(names, init);
      assert adds == init + [adds[|adds| - 1]];
    }
  }

  /** Merging clean names into a clean list gives a clean list. */
  lemma MergeClean(names: seq<string>, adds: seq<string>)
    requires AllClean(names) && AllClean(adds)
    ensures AllClean(MergeNames(names, adds))
  {
    var m := MergeNames(names, adds);
    MergeNamesSpec(names, adds);
    forall i | 0 <= i < |m|
      ensures Clean(m[i])
    {
      assert m[i] in names || m[i] in adds;
    }
  }

  /** The loop of `add_to_ignore`: each name not yet in the list is appended. */
  method AppendAbsent(names: seq<string>, adds: seq<string>) returns (merged: seq<string>)
    ensures merged == MergeNames(names, adds)
  {
    merged := names;
    for k := 0 to |adds|
      invariant merged == MergeNames(names, adds[..k])
    {
      assert adds[..k + 1][..k] == adds[..k];
      if adds[k] !in merged {
        merged := merged + [adds[k]];
      }
    }
    assert adds[..|adds|] == adds;
  }

  /** The names in the first cells of the selected rows. */
  function NamesAt(rows: seq<Row>, selected: seq<nat>): (names: seq<string>)
    requires forall k :: 0 <= k < |selected| ==> selected[k] < |rows|
    ensures |names| == |selected|
    ensures forall k :: 0 <= k < |selected| ==> names[k] == rows[selected[k]].file.name
  {
    seq(|selected|, k requires 0 <= k < |selected| => rows[selected[k]].file.name)
  }

  /** With clean names, adding them to the ignore list and saving it means the next
      analysis loads the merged list back and no file with one of those names is left. */
  lemma AddedNamesAreIgnored(d: Disk, source: string, adds: seq<string>, files: seq<FileRecord>, sortedNames: set<string>)
    requires FileSystem.Valid(d) && source != "" && AllClean(adds)
    requires LoadIgnoreList(d, source).Ok?
    requires var load := LoadIgnoreList(d, source).value;
      var save := SaveIgnoreList(load.disk, source, MergeNames(load.names, adds));
      save.Ok? && save.value.logged.None?
    ensures var load := LoadIgnoreList(d, source).value;
      var merged := MergeNames(load.names, adds);
      var saved := SaveIgnoreList(load.disk, source, merged).value.disk;
      && LoadIgnoreList(saved, source) == Ok(IgnoreLoad(saved, merged, None))
      && forall f :: f in Unsorted(files, sortedNames, merged) ==> f.name !in adds
  {
    var load := LoadIgnoreList(d, source).value;
    var merged := MergeNames(load.names, adds);
    MergeClean(load.names, adds);
    MergeNamesSpec(load.names, adds);
    SaveThenLoad(load.disk, source, merged);
    forall f | f in Unsorted(files, sortedNames, merged)
      ensures f.name !in adds
    {
      UnsortedMembers(files, sortedNames, merged, f);
    }
  }

  /** Each heading is a shown form of its column's name; `headings[k]` belongs to
      `Columns[k]`. */
  predicate AllShown(headings: seq<string>)
  {
    |headings| == |Columns| && forall k :: 0 <= k < |Columns| ==> Shown(Columns[k], headings[k])
  }

  /** The heading loop of `sort_column(col)`: each heading cut at its first space, the
      sorted column marked with its direction, every other column given its plain name. */
  method MarkHeadings(headings: seq<string>, col: Column, reverse: bool) returns (marks: seq<string>)
    requires AllShown(headings)
    ensures |marks| == |Columns|
    ensures forall k :: 0 <= k < |Columns| ==> marks[k] == HeadingAfter(Columns[k], col, reverse)
  {
    marks := headings;
    for k := 0 to |Columns|
      invariant |marks| == |Columns|
      invariant forall j :: 0 <= j < k ==> marks[j] == HeadingAfter(Columns[j], col, reverse)
      invariant forall j :: k <= j < |Columns| ==> marks[j] == headings[j]
    {
      var column := Columns[k];
      var heading := Stem(marks[k]);
      if column == col {
        StemOfShown(column, marks[k]);
        heading := heading + (if reverse then DescendingMark else AscendingMark);
      }
      if column != col {
        heading := BaseHeading(column);
      }
      marks := marks[k := heading];
    }
  }

  /** The `tree.insert` loop of `analyze_files`: one row per file, in order, each under the
      next item number. */
  method InsertRows(files: seq<FileRecord>, serial: nat) returns (inserted: seq<Row>, n: nat)
    ensures inserted == RowsFor(files, serial) && n == serial + |files|
  {
    inserted, n := [], serial;
    for i := 0 to |files|
      invariant inserted == RowsFor(files[..i], serial) && n == serial + i
    {
      RowsForStep(files, serial, i);
      n := n + 1;
      inserted := inserted + [Row(n, files[i])];
    }
    assert files[..|files|] == files;
  }

  /** Both folder entries filled in. */
  predicate Ready(source: string, sorted: string)
  {
    source != "" && sorted != ""
  }

  // ---------------------------------------------------------------------------
  // what the handlers do to the window's state

  /** What `analyze_files` leaves behind: the error it raised, the disk, the files it found,
      the rows of the table and the number of items created so far. */
  datatype AnalyzeReport = AnalyzeReport(raised: Option<OsError>, disk: Disk, unsorted: seq<FileRecord>, rows: seq<Row>, serial: nat)

  /** `analyze_files()` on disk `d` with the entries `source` and `sorted`, the trees the two
      walks find as `sourceTop` and `sortedTop`, and the files, rows and item count left by
      the previous analysis. */
  function AnalyzeEffect(d: Disk, source: string, sorted: string, sourceTop: Option<Node>, sortedTop: Option<Node>,
                         unsorted: seq<FileRecord>, rows: seq<Row>, serial: nat): AnalyzeReport
  {
    if !Ready(source, sorted) then AnalyzeReport(None, d, unsorted, rows, serial)
    else
      match LoadIgnoreList(d, source)
      case Err(e) => AnalyzeReport(Some(e), d, unsorted, [], serial)
      case Ok(load) =>
        var found := Unsorted(Scan(source, sourceTop), SortedNames(Scan(sorted, sortedTop)), load.names);
        AnalyzeReport(None, load.disk, found, RowsFor(found, serial), serial + |found|)
  }

  /** With an entry empty nothing changes. Otherwise the error is raised exactly when the
      ignore list cannot be loaded, and then the table is left empty; when it is loaded, the
      files found are exactly the source files whose name is neither a sorted name nor on
      the list, and row `i` shows file `i` under the next unused item number. Only the
      ignore list's folder may be added to the disk, and the rows stay numbered. */
  lemma AnalyzeEffectSpec(d: Disk, source: string, sorted: string, sourceTop: Option<Node>, sortedTop: Option<Node>,
                          unsorted: seq<FileRecord>, rows: seq<Row>, serial: nat)
    requires FileSystem.Valid(d) && Numbered(rows)
    ensures var a := AnalyzeEffect(d, source, sorted, sourceTop, sortedTop, unsorted, rows, serial);
      && FileSystem.Valid(a.disk) && a.disk.files == d.files && Numbered(a.rows)
      && (!Ready(source, sorted) ==> a == AnalyzeReport(None, d, unsorted, rows, serial))
      && (Ready(source, sorted) ==> (a.raised.Some? <==> LoadIgnoreList(d, source).Err?))
      && (a.raised.Some? ==> a.rows == [] && a.disk == d && a.unsorted == unsorted && a.serial == serial)
      && (Ready(source, sorted) && a.raised.None? ==>
            var names := LoadIgnoreList(d, source).value.names;
            && (forall f :: f in a.unsorted <==> f in Scan(source, sourceTop) && Keep(f, SortedNames(Scan(sorted, sortedTop)), names))
            && |a.rows| == |a.unsorted| && a.serial == serial + |a.unsorted|
            && (forall i :: 0 <= i < |a.rows| ==> a.rows[i] == Row(serial + i + 1, a.unsorted[i])))
  {
    if Ready(source, sorted) && LoadIgnoreList(d, source).Ok? {
      var names := LoadIgnoreList(d, source).value.names;
      var found := Unsorted(Scan(source, sourceTop), SortedNames(Scan(sorted, sortedTop)), names);
      RowsForShape(found, serial);
      forall f
        ensures f in found <==> f in Scan(source, sourceTop) && Keep(f, SortedNames(Scan(sorted, sortedTop)), names)
      {
        UnsortedMembers(Scan(source, sourceTop), SortedNames(Scan(sorted, sortedTop)), names, f);
      }
    }
  }

  /** The disk stays well formed and the rows numbered. */
  lemma AnalyzeEffectValid(d: Disk, source: string, sorted: string, sourceTop: Option<Node>, sortedTop: Option<Node>,
                           unsorted: seq<FileRecord>, rows: seq<Row>, serial: nat)
    requires FileSystem.Valid(d) && Numbered(rows)
    ensures var a := AnalyzeEffect(d, source, sorted, sourceTop, sortedTop, unsorted, rows, serial);
      FileSystem.Valid(a.disk) && Numbered(a.rows)
  {
    if Ready(source, sorted) && LoadIgnoreList(d, source).Ok? {
      var names := LoadIgnoreList(d, source).value.names;
      RowsForShape(Unsorted(Scan(source, sourceTop), SortedNames(Scan(sorted, sortedTop)), names), serial);
    }
  }

  /** What `copy_files` leaves behind: the error it raised, how many files it copied and the
      errors it reported, the disk, the settings, the settings file and the source entry. */
  datatype CopyReport = CopyReport(raised: Option<OsError>, copied: nat, errors: seq<CopyError>,
                                   disk: Disk, config: AppConfig, file: ConfigFile, source: string)

  /** `copy_files()` at time `now` on disk `d`, with the settings `c` as held and as saved
      (`f`), the source entry `source` and the files of the last analysis; `useNew` is the
      answer to "use the new folder?". */
  function CopyFilesEffect(d: Disk, c: AppConfig, f: ConfigFile, source: string, unsorted: seq<FileRecord>,
                           now: Clock.DateTime, useNew: bool): CopyReport
  {
    if unsorted == [] then CopyReport(None, 0, [], d, c, f, source)
    else
      match CreateResultFolder(d, source, now)
      case Err(e) => CopyReport(Some(e), 0, [], d, c, f, source)
      case Ok((made, folder)) =>
        var outcome := CopyAll(made, unsorted, folder);
        var c' := c.(history := Some(History(c.history) + [folder]),
                     sourceFolder := if useNew then Some(folder) else c.sourceFolder);
        CopyReport(None, outcome.copied, outcome.errors, outcome.disk, c', SaveConfig(c'), if useNew then folder else source)
  }

  /** The disk stays well formed and the saved settings load back as the held ones. */
  lemma CopyFilesEffectValid(d: Disk, c: AppConfig, f: ConfigFile, source: string, unsorted: seq<FileRecord>,
                             now: Clock.DateTime, useNew: bool)
    requires FileSystem.Valid(d) && LoadConfig(f) == c
    ensures var r := CopyFilesEffect(d, c, f, source, unsorted, now, useNew);
      FileSystem.Valid(r.disk) && LoadConfig(r.file) == r.config
  {
    if unsorted != [] && CreateResultFolder(d, source, now).Ok? {
      var (made, folder) := CreateResultFolder(d, source, now).value;
      CopyAllKeeps(made, unsorted, folder);
    }
  }

  /** Without files, or when the result folder cannot be made, nothing changes, and only the
      latter raises. Otherwise the result folder beside the source folder exists afterwards,
      every file is either copied or reported, the folder is appended to the history and,
      when so answered, becomes the source folder both in the entry and in the settings;
      the other settings stay, and the saved settings load back as the new ones. The disk
      stays well formed and keeps what it held. */
  lemma CopyFilesEffectSpec(d: Disk, c: AppConfig, f: ConfigFile, source: string, unsorted: seq<FileRecord>,
                            now: Clock.DateTime, useNew: bool)
    requires FileSystem.Valid(d) && LoadConfig(f) == c
    ensures var r := CopyFilesEffect(d, c, f, source, unsorted, now, useNew);
      && FileSystem.Valid(r.disk) && d.dirs <= r.disk.dirs && d.files.Keys <= r.disk.files.Keys
      && LoadConfig(r.file) == r.config
      && (r.raised.Some? <==> unsorted != [] && CreateResultFolder(d, source, now).Err?)
      && (r.config == c <==> unsorted == [] || r.raised.Some?)
      && (r.config == c ==> r == CopyReport(r.raised, 0, [], d, c, f, source))
      && (r.config != c ==>
            var folder := Str(ResultFolderPath(source, now));
            && r.raised.None?
            && IsDir(r.disk, ResultFolderPath(source, now))
            && r.copied + |r.errors| == |unsorted|
            && History(r.config.history) == History(c.history) + [folder]
            && r.source == (if useNew then folder else source)
            && r.config.sourceFolder == (if useNew then Some(folder) else c.sourceFolder)
            && r.config.sortedFolder == c.sortedFolder && r.config.ignoreList == c.ignoreList)
  {
    if unsorted != [] && CreateResultFolder(d, source, now).Ok? {
      var (made, folder) := CreateResultFolder(d, source, now).value;
      CopyAllKeeps(made, unsorted, folder);
      var r := CopyFilesEffect(d, c, f, source, unsorted, now, useNew);
      assert r.config.history != c.history by {
        assert |History(r.config.history)| == |History(c.history)| + 1;
      }
    }
  }

  /** What `add_to_ignore` does with the names `adds` of the selected rows: with none
      selected nothing; otherwise the ignore list is loaded, the names not yet on it are
      appended, the list is saved and the files are analysed again. A failure to load or
      to save is raised. */
  function AddToIgnoreEffect(d: Disk, source: string, sorted: string, sourceTop: Option<Node>, sortedTop: Option<Node>,
                             unsorted: seq<FileRecord>, rows: seq<Row>, serial: nat, adds: seq<string>): AnalyzeReport
  {
    if adds == [] then AnalyzeReport(None, d, unsorted, rows, serial)
    else
      match LoadIgnoreList(d, source)
      case Err(e) => AnalyzeReport(Some(e), d, unsorted, rows, serial)
      case Ok(load) =>
        match SaveIgnoreList(load.disk, source, MergeNames(load.names, adds))
        case Err(e) => AnalyzeReport(Some(e), load.disk, unsorted, rows, serial)
        case Ok(save) => AnalyzeEffect(save.disk, source, sorted, sourceTop, sortedTop, unsorted, rows, serial)
  }

  /** The disk stays well formed and the rows numbered. */
  lemma AddToIgnoreEffectValid(d: Disk, source: string, sorted: string, sourceTop: Option<Node>, sortedTop: Option<Node>,
                               unsorted: seq<FileRecord>, rows: seq<Row>, serial: nat, adds: seq<string>)
    requires FileSystem.Valid(d) && Numbered(rows)
    ensures var a := AddToIgnoreEffect(d, source, sorted, sourceTop, sortedTop, unsorted, rows, serial, adds);
      FileSystem.Valid(a.disk) && Numbered(a.rows)
  {
    if adds != [] && LoadIgnoreList(d, source).Ok? {
      var load := LoadIgnoreList(d, source).value;
      var save := SaveIgnoreList(load.disk, source, MergeNames(load.names, adds));
      if save.Ok? {
        AnalyzeEffectValid(save.value.disk, source, sorted, sourceTop, sortedTop, unsorted, rows, serial);
      }
    }
  }

  /** When the list is saved without error and both entries are filled in, the analysis
      that follows raises nothing and no longer finds any file with one of the added
      (clean) names. */
  lemma AddToIgnoreHides(d: Disk, source: string, sorted: string, sourceTop: Option<Node>, sortedTop: Option<Node>,
                         unsorted: seq<FileRecord>, rows: seq<Row>, serial: nat, adds: seq<string>)
    requires FileSystem.Valid(d) && Ready(source, sorted) && AllClean(adds)
    requires LoadIgnoreList(d, source).Ok?
    requires var load := LoadIgnoreList(d, source).value;
      var save := SaveIgnoreList(load.disk, source, MergeNames(load.names, adds));
      save.Ok? && save.value.logged.None?
    ensures var a := AddToIgnoreEffect(d, source, sorted, sourceTop, sortedTop, unsorted, rows, serial, adds);
      a.raised.None? && forall f :: f in a.unsorted ==> f.name !in adds
  {
    AddedNamesAreIgnored(d, source, adds, Scan(source, sourceTop), SortedNames(Scan(sorted, sortedTop)));
  }

  /** The steps of `add_to_ignore` for the names `adds` of the selected rows: nothing
      without a selection; otherwise load the list, append the names not yet on it one by
      one, save it and analyse again, stopping at the first failure. */
  method AddNamesAndAnalyze(d: Disk, source: string, sorted: string, sourceTop: Option<Node>, sortedTop: Option<Node>,
                            unsorted: seq<FileRecord>, rows: seq<Row>, serial: nat, adds: seq<string>)
    returns (a: AnalyzeReport)
    ensures a == AddToIgnoreEffect(d, source, sorted, sourceTop, sortedTop, unsorted, rows, serial, adds)
  {
    if adds == [] {
      return AnalyzeReport(None, d, unsorted, rows, serial);
    }
    var load := LoadIgnoreList(d, source);
    if load.Err? {
      return AnalyzeReport(Some(load.error), d, unsorted, rows, serial);
    }
    var merged := AppendAbsent(load.value.names, adds);
    var save := SaveIgnoreList(load.value.disk, source, merged);
    if save.Err? {
      return AnalyzeReport(Some(save.error), load.value.disk, unsorted, rows, serial);
    }
    a := AnalyzeEffect(save.value.disk, source, sorted, sourceTop, sortedTop, unsorted, rows, serial);
  }

  // ---------------------------------------------------------------------------
  // the window

  class MainWindow {
    /** The settings as the window holds them, and what the settings file holds. */
    var config: AppConfig
    var configFile: ConfigFile
    /** The file system the handlers read and write. */
    var disk: Disk
    /** The texts of the two folder entries. */
    var sourceEntry: string
    var sortedEntry: string
    var unsortedFiles: seq<FileRecord>
    var sortColumnName: Option<Column>
    var sortReverse: bool
    /** The rows of the table, in display order, and the column headings. */
    var rows: seq<Row>
    var headings: seq<string>
    /** How many items the table has created so far. */
    var serial: nat
    /** The two-decimal conversion of a size that is not a whole number. */
    const render: SizeLabel -> string

    /** The disk is well formed, every change to the settings has been saved, each heading
        shows its column and no two rows share an item number. */
    ghost predicate Valid()
      reads this
    {
      && FileSystem.Valid(disk)
      && LoadConfig(configFile) == config
      && AllShown(headings)
      && Numbered(rows)
    }

    /** `__init__` and `load_saved_paths`: the settings loaded, the entries filled from them,
        an empty table with plain headings, no sort column. */
    constructor (file: ConfigFile, d: Disk, render: SizeLabel -> string)
      requires FileSystem.Valid(d)
      ensures Valid()
      ensures config == LoadConfig(file) && configFile == file && disk == d && this.render == render
      ensures sourceEntry == EntryText(config.sourceFolder) && sortedEntry == EntryText(config.sortedFolder)
      ensures unsortedFiles == [] && rows == [] && serial == 0
      ensures sortColumnName == None && !sortReverse
      ensures |headings| == |Columns| && forall k :: 0 <= k < |Columns| ==> headings[k] == BaseHeading(Columns[k])
    {
      config := LoadConfig(file);
      configFile := file;
      disk := d;
      sourceEntry := EntryText(LoadConfig(file).sourceFolder);
      sortedEntry := EntryText(LoadConfig(file).sortedFolder);
      unsortedFiles := [];
      sortColumnName := None;
      sortReverse := false;
      rows := [];
      headings := seq(|Columns|, k requires 0 <= k < |Columns| => BaseHeading(Columns[k]));
      serial := 0;
      this.render := render;
    }

    /** `analyze_files()`, with the trees the two walks find as `sourceTop` and `sortedTop`
        (`AnalyzeEffectSpec` says what that does). */
    method AnalyzeFiles(sourceTop: Option<Node>, sortedTop: Option<Node>) returns (raised: Option<OsError>)
      requires Valid()
      modifies this`disk, this`unsortedFiles, this`rows, this`serial
      ensures Valid()
      ensures AnalyzeReport(raised, disk, unsortedFiles, rows, serial) ==
        AnalyzeEffect(old(disk), sourceEntry, sortedEntry, sourceTop, sortedTop, old(unsortedFiles), old(rows), old(serial))
    {
      var a := AnalyzeEffect(disk, sourceEntry, sortedEntry, sourceTop, sortedTop, unsortedFiles, rows, serial);
      AnalyzeEffectValid(disk, sourceEntry, sortedEntry, sourceTop, sortedTop, unsortedFiles, rows, serial);
      raised := a.raised;
      disk, unsortedFiles, rows, serial := a.disk, a.unsorted, a.rows, a.serial;
    }

    /** `copy_files()`, at time `now`, with `useNew` the answer to "use the new folder?"
        (`CopyFilesEffectSpec` says what that does). */
    method CopyFiles(now: Clock.DateTime, useNew: bool) returns (raised: Option<OsError>, copied: nat, errors: seq<CopyError>)
      requires Valid()
      modifies this`disk, this`config, this`configFile, this`sourceEntry
      ensures Valid()
      ensures CopyReport(raised, copied, errors, disk, config, configFile, sourceEntry) ==
        CopyFilesEffect(old(disk), old(config), old(configFile), old(sourceEntry), unsortedFiles, now, useNew)
    {
      var r := CopyFilesEffect(disk, config, configFile, sourceEntry, unsortedFiles, now, useNew);
      CopyFilesEffectValid(disk, config, configFile, sourceEntry, unsortedFiles, now, useNew);
      raised, copied, errors := r.raised, r.copied, r.errors;
      disk, config, configFile, sourceEntry := r.disk, r.config, r.file, r.source;
    }

    /** `clear_history()`, with `confirm` the answer to the question: the history emptied and
        the settings saved. */
    method ClearHistory(confirm: bool)
      requires Valid()
      modifies this`config, this`configFile
      ensures Valid()
      ensures !confirm ==> config == old(config) && configFile == old(configFile)
      ensures confirm ==> config == old(config).(history := Some([])) && configFile == SaveConfig(config)
    {
      if confirm {
        config := config.(history := Some([]));
        configFile := SaveConfig(config);
      }
    }

    /** `select_source_folder()`, with `folder` what the folder dialog returned ("" when
        cancelled): the entry and the setting set to it and the settings saved. */
    method SelectSourceFolder(folder: string)
      requires Valid()
      modifies this`sourceEntry, this`config, this`configFile
      ensures Valid()
      ensures folder == "" ==> sourceEntry == old(sourceEntry) && config == old(config) && configFile == old(configFile)
      ensures folder != "" ==> && sourceEntry == folder
                               && config == old(config).(sourceFolder := Some(folder))
                               && configFile == SaveConfig(config)
    {
      if folder != "" {
        sourceEntry := folder;
        config := config.(sourceFolder := Some(folder));
        configFile := SaveConfig(config);
      }
    }

    /** `select_sorted_folder()`. */
    method SelectSortedFolder(folder: string)
      requires Valid()
      modifies this`sortedEntry, this`config, this`configFile
      ensures Valid()
      ensures folder == "" ==> sortedEntry == old(sortedEntry) && config == old(config) && configFile == old(configFile)
      ensures folder != "" ==> && sortedEntry == folder
                               && config == old(config).(sortedFolder := Some(folder))
                               && configFile == SaveConfig(config)
    {
      if folder != "" {
        sortedEntry := folder;
        config := config.(sortedFolder := Some(folder));
        configFile := SaveConfig(config);
      }
    }

    /** `ask_previus_folder()`: with a non-empty history and `confirm` the answer, the last
        folder of the history becomes the source folder. */
    method AskPreviousFolder(confirm: bool)
      requires Valid()
      modifies this`sourceEntry, this`config, this`configFile
      ensures Valid()
      ensures var h := old(config.history);
        if h.Some? && h.value != [] && confirm then
          && sourceEntry == h.value[|h.value| - 1]
          && config == old(config).(sourceFolder := Some(sourceEntry))
          && configFile == SaveConfig(config)
        else sourceEntry == old(sourceEntry) && config == old(config) && configFile == old(configFile)
    {
      if config.history.Some? && config.history.value != [] {
        var last := config.history.value[|config.history.value| - 1];
        if confirm {
          sourceEntry := last;
          config := config.(sourceFolder := Some(last));
          configFile := SaveConfig(config);
        }
      }
    }

    /** `add_to_ignore()`, with `selected` the positions of the selected rows
        (`AddToIgnoreHides` says what that achieves). */
    method AddToIgnore(selected: seq<nat>, sourceTop: Option<Node>, sortedTop: Option<Node>)
      returns (raised: Option<OsError>)
      requires Valid()
      requires forall k :: 0 <= k < |selected| ==> selected[k] < |rows|
      modifies this`disk, this`unsortedFiles, this`rows, this`serial
      ensures Valid()
      ensures AnalyzeReport(raised, disk, unsortedFiles, rows, serial) ==
        AddToIgnoreEffect(old(disk), sourceEntry, sortedEntry, sourceTop, sortedTop,
                          old(unsortedFiles), old(rows), old(serial), NamesAt(old(rows), selected))
    {
      var adds := NamesAt(rows, selected);
      var a := AddNamesAndAnalyze(disk, sourceEntry, sortedEntry, sourceTop, sortedTop, unsortedFiles, rows, serial, adds);
      AddToIgnoreEffectValid(disk, sourceEntry, sortedEntry, sourceTop, sortedTop, unsortedFiles, rows, serial, adds);
      raised := a.raised;
      disk, unsortedFiles, rows, serial := a.disk, a.unsorted, a.rows, a.serial;
    }

    /** `sort_column(col)`: the same column again flips the direction, another column is
        sorted ascending; the rows are put in that order and the headings marked. */
    method SortColumn(col: Column)
      requires Valid()
      modifies this`sortColumnName, this`sortReverse, this`rows, this`headings
      ensures Valid()
      ensures sortColumnName == Some(col)
      ensures sortReverse == (if old(sortColumnName) == Some(col) then !old(sortReverse) else false)
      ensures rows == Arranged(old(rows), col, sortReverse, render)
      ensures |headings| == |Columns| && forall k :: 0 <= k < |Columns| ==> headings[k] == HeadingAfter(Columns[k], col, sortReverse)
    {
      if sortColumnName == Some(col) {
        sortReverse := !sortReverse;
      } else {
        sortColumnName := Some(col);
        sortReverse := false;
      }
      ArrangedNumbered(rows, col, sortReverse, render);
      rows := Arranged(rows, col, sortReverse, render);
      var marks := MarkHeadings(headings, col, sortReverse);
      headings := marks;
    }
  }
}
