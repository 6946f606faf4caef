/** The program's persisted settings and its ignore list: the settings file in the user's
    home directory, and the text file "Игнор-лист/ignore_list.txt" kept beside the source
    folder, one file name per line. */
module Config {
  import opened Wrappers
  import opened Text
  import opened Paths
  import opened FileSystem

  /** The settings dictionary; a key the stored dictionary lacks is `None`. */
  datatype AppConfig = AppConfig(
    sourceFolder: Option<string>,
    sortedFolder: Option<string>,
    history: Option<seq<string>>,
    ignoreList: Option<seq<string>>)

  /** What the settings file holds: nothing, something that does not load as settings
      (unreadable, not UTF-8, not JSON), or settings. */
  datatype ConfigFile = Missing | Unreadable | Stored(config: AppConfig)

  /** `load_config()`: the stored settings, or empty folders and empty lists. */
  function LoadConfig(f: ConfigFile): (c: AppConfig)
    ensures f.Stored? ==> c == f.config
    ensures !f.Stored? ==> c.sourceFolder == Some("") && c.sortedFolder == Some("")
    ensures !f.Stored? ==> c.history == Some([]) && c.ignoreList == Some([])
  {
    match f
    case Stored(config) => config
    case _ => AppConfig(Some(""), Some(""), Some([]), Some([]))
  }

  /** `save_config(c)`. */
  function SaveConfig(c: AppConfig): (f: ConfigFile)
    ensures LoadConfig(f) == c
  {
    Stored(c)
  }

  // ---------------------------------------------------------------------------
  // where the ignore list lives

  const IgnoreFolderName: string := "Игнор-лист"
  const IgnoreFileName: string := "ignore_list.txt"

  /** `Path(source).parent / "Игнор-лист"`: the folder name added to the parent's parts,
      which is what `/` does with a single name (`Paths.DivName`). */
  function IgnoreFolder(source: string): PurePath
  {
    var p := Parent(Parse(source));
    PurePath(p.root, p.parts + [IgnoreFolderName])
  }

  /** The path `get_ignore_list_path(source)` returns: none for an empty source folder,
      otherwise "Игнор-лист/ignore_list.txt" under the source folder's parent. */
  function IgnoreListLocation(source: string): (r: Option<PurePath>)
    ensures r.None? <==> source == ""
    ensures r.Some? ==> r.value == PurePath(Parse(source).root, Parent(Parse(source)).parts + [IgnoreFolderName, IgnoreFileName])
    ensures r.Some? ==> Parent(r.value) == IgnoreFolder(source) && Parent(IgnoreFolder(source)) == Parent(Parse(source))
  {
    if source == "" then None
    else
      var f := IgnoreFolder(source);
      assert (f.parts + [IgnoreFileName])[..|f.parts|] == f.parts;
      assert Parent(Parse(source)).parts + [IgnoreFolderName] + [IgnoreFileName]
        == Parent(Parse(source)).parts + [IgnoreFolderName, IgnoreFileName];
      Some(PurePath(f.root, f.parts + [IgnoreFileName]))
  }

  /** `get_ignore_list_path(source)`: also creates the "Игнор-лист" folder when absent (without
      creating missing parents); a failure to create it is raised to the caller. */
  function GetIgnoreListPath(d: Disk, source: string): (r: Result<(Disk, Option<PurePath>)>)
    ensures source == "" ==> r == Ok((d, None))
    ensures r.Ok? ==> r.value.1 == IgnoreListLocation(source)
    ensures r.Ok? ==> r.value.0.files == d.files && r.value.0.denied == d.denied && d.dirs <= r.value.0.dirs
    ensures Valid(d) && r.Ok? ==> Valid(r.value.0)
    ensures Valid(d) && r.Ok? && source != "" ==> IsDir(r.value.0, IgnoreFolder(source))
  {
    if source == "" then Ok((d, None))
    else
      match PathMkdir(d, IgnoreFolder(source), false, true)
      case Err(e) => Err(e)
      case Ok(d') => Ok((d', IgnoreListLocation(source)))
  }

  // ---------------------------------------------------------------------------
  // the ignore-list text

  /** An entry the text format keeps as it is: not empty, no whitespace at either end,
      and no line break inside. */
  predicate Clean(name: string)
  {
    name != [] && !IsSpace(name[0]) && !IsSpace(name[|name| - 1]) && '\n' !in name && '\r' !in name
  }

  predicate AllClean(names: seq<string>)
  {
    forall i :: 0 <= i < |names| ==> Clean(names[i])
  }

  lemma AllCleanCons(h: string, rest: seq<string>)
    requires Clean(h) && AllClean(rest)
    ensures AllClean([h] + rest)
  {
    assert forall i :: 1 <= i < |[h] + rest| ==> ([h] + rest)[i] == rest[i - 1];
  }

  /** Each line stripped, blank lines dropped, in order. */
  function Cleaned(lines: seq<string>): seq<string>
    decreases |lines|
  {
    if lines == [] then []
    else if Strip(lines[0]) == [] then Cleaned(lines[1..])
    else [Strip(lines[0])] + Cleaned(lines[1..])
  }

  /** Lines without line breaks clean up into clean entries, no more of them than lines. */
  lemma {:induction false} CleanedClean(lines: seq<string>)
    requires forall i :: 0 <= i < |lines| ==> '\n' !in lines[i] && '\r' !in lines[i]
    ensures |Cleaned(lines)| <= |lines|
    ensures AllClean(Cleaned(lines))
    decreases |lines|
  {
    if lines != [] {
      assert forall i :: 0 <= i < |lines[1..]| ==> lines[1..][i] == lines[i + 1];
      CleanedClean(lines[1..]);
      var h := Strip(lines[0]);
      if h != [] {
        assert Clean(h) by {
          StripEnds(lines[0]);
          StripAvoids(lines[0], '\n');
          StripAvoids(lines[0], '\r');
        }
        AllCleanCons(h, Cleaned(lines[1..]));
      }
    }
  }

  /** What `load_ignore_list` makes of the file's text: the lines as a text-mode file yields
      them, each stripped, the blank ones dropped. */
  function ParseIgnoreText(content: string): (r: seq<string>)
    ensures AllClean(r)
  {
    var text := UniversalNewlines(content);
    SplitAvoids(text, '\n', '\r');
    SplitPieces(text, '\n');
    CleanedClean(Split(text, '\n'));
    Cleaned(Split(text, '\n'))
  }

  /** What `save_ignore_list` writes: the names joined by "\n", with no final line break. */
  function IgnoreText(names: seq<string>): string
  {
    Join(names, '\n')
  }

  lemma {:induction false} CleanedOfClean(names: seq<string>)
    requires AllClean(names)
    ensures Cleaned(names) == names
    decreases |names|
  {
    if names != [] {
      assert Strip(names[0]) == names[0] by {
        assert Clean(names[0]);
        StripClean(names[0]);
      }
      assert AllClean(names[1..]) by {
        assert forall i :: 0 <= i < |names[1..]| ==> names[1..][i] == names[i + 1];
      }
      CleanedOfClean(names[1..]);
      assert [names[0]] + names[1..] == names;
    }
  }

  /** Saving clean names and loading the text again gives the same names, in order. */
  lemma IgnoreTextRoundTrip(names: seq<string>)
    requires AllClean(names)
    ensures ParseIgnoreText(IgnoreText(names)) == names
  {
    if names == [] {
      assert IgnoreText(names) == [];
      assert Split([], '\n') == [""];
      assert Strip("") == [];
    } else {
      JoinAvoids(names, '\n', '\r');
      UniversalNewlinesPlain(IgnoreText(names));
      SplitJoin(names, '\n');
      CleanedOfClean(names);
    }
  }

  /** Loading any text and saving what was loaded gives text that loads the same: the
      saved form is a normal form. */
  lemma IgnoreTextNormalForm(content: string)
    ensures ParseIgnoreText(IgnoreText(ParseIgnoreText(content))) == ParseIgnoreText(content)
  {
    IgnoreTextRoundTrip(ParseIgnoreText(content));
  }

  // ---------------------------------------------------------------------------
  // loading and saving the ignore list

  /** The outcome of `load_ignore_list`: the disk after the folder was made, the names,
      and the error that was printed when the file could not be read. */
  datatype IgnoreLoad = IgnoreLoad(disk: Disk, names: seq<string>, logged: Option<OsError>)

  /** The outcome of `save_ignore_list`: the disk after the folder was made and the file
      written, and the error that was printed when the file could not be written. */
  datatype IgnoreSave = IgnoreSave(disk: Disk, logged: Option<OsError>)

  /** `load_ignore_list(source)`. No source folder, no file or an unreadable file give no
      names; a failure to make the folder is raised. */
  function LoadIgnoreList(d: Disk, source: string): (r: Result<IgnoreLoad>)
    ensures source == "" ==> r == Ok(IgnoreLoad(d, [], None))
    ensures r.Ok? && r.value.logged.Some? ==> r.value.names == []
    ensures r.Ok? && source != "" && !Exists(r.value.disk, IgnoreListLocation(source).value) ==> r.value.names == [] && r.value.logged.None?
    ensures r.Ok? ==> AllClean(r.value.names)
    ensures r.Ok? ==> r.value.disk.files == d.files
    ensures Valid(d) && r.Ok? ==> Valid(r.value.disk)
  {
    match GetIgnoreListPath(d, source)
    case Err(e) => Err(e)
    case Ok((d1, location)) =>
      if location.None? || !Exists(d1, location.value) then Ok(IgnoreLoad(d1, [], None))
      else
        match ReadFile(d1, location.value)
        case Err(e) => Ok(IgnoreLoad(d1, [], Some(e)))
        case Ok(text) => Ok(IgnoreLoad(d1, ParseIgnoreText(text), None))
  }

  /** `save_ignore_list(source, names)`. */
  function SaveIgnoreList(d: Disk, source: string, names: seq<string>): (r: Result<IgnoreSave>)
    ensures source == "" ==> r == Ok(IgnoreSave(d, None))
    ensures r.Ok? && r.value.logged.None? && source != "" ==>
      var at := IgnoreListLocation(source).value;
      at in r.value.disk.files && r.value.disk.files[at] == IgnoreText(names)
    ensures Valid(d) && r.Ok? ==> Valid(r.value.disk)
  {
    match GetIgnoreListPath(d, source)
    case Err(e) => Err(e)
    case Ok((d1, location)) =>
      if location.None? then Ok(IgnoreSave(d1, None))
      else
        match WriteFile(d1, location.value, IgnoreText(names))
        case Err(e) => Ok(IgnoreSave(d1, Some(e)))
        case Ok(d2) => Ok(IgnoreSave(d2, None))
  }

  /** A file just written reads back as what was written. */
  lemma WriteThenRead(d: Disk, at: PurePath, text: string)
    requires Valid(d) && WriteFile(d, at, text).Ok?
    ensures ReadFile(WriteFile(d, at, text).value, at) == Ok(text)
  {
    var d2 := WriteFile(d, at, text).value;
    assert Reach(d, at).None? && !IsDir(d, at);
    assert at.parts != [];
    ReachParent(d, at);
    assert IsDir(d, Parent(at));
    assert d2.dirs == d.dirs && d2.denied == d.denied;
    assert IsDir(d2, Parent(at)) && !IsDir(d2, at);
    ReachParent(d2, at);
    assert Reach(d2, at).None?;
    assert at !in d.denied by {
      assert Placed(d, at);
    }
  }

  /** After a save that wrote the file, loading gives back exactly the saved clean names
      and leaves the disk as it is. */
  lemma SaveThenLoad(d: Disk, source: string, names: seq<string>)
    requires Valid(d) && source != ""
    requires AllClean(names)
    requires SaveIgnoreList(d, source, names).Ok?
    requires SaveIgnoreList(d, source, names).value.logged.None?
    ensures var d2 := SaveIgnoreList(d, source, names).value.disk;
      LoadIgnoreList(d2, source) == Ok(IgnoreLoad(d2, names, None))
  {
    var g := GetIgnoreListPath(d, source);
    assert g.Ok?;
    var d1 := g.value.0;
    var at := IgnoreListLocation(source).value;
    var text := IgnoreText(names);
    assert g.value.1 == Some(at);
    var w := WriteFile(d1, at, text);
    assert w.Ok?;
    var d2 := w.value;
    assert SaveIgnoreList(d, source, names).value.disk == d2;
    WriteThenRead(d1, at, text);
    assert IsDir(d2, IgnoreFolder(source));
    MkdirExisting(d2, IgnoreFolder(source), false);
    assert GetIgnoreListPath(d2, source) == Ok((d2, Some(at)));
    assert Exists(d2, at);
    IgnoreTextRoundTrip(names);
  }
}
