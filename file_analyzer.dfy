/** The scanner and the classifier: `get_all_files` turns the files below a folder into
    records, `find_unsorted_files` keeps the source records whose name occurs neither in the
    sorted tree nor in the ignore list, and the older `analyze_files` does the same against
    the top-level entries of the sorted folder. */
module FileAnalyzer {
  import opened Wrappers
  import opened Text
  import opened Paths
  import opened Clock
  import opened FileSystem

  // ---------------------------------------------------------------------------
  // the tree as the program sees it

  /** What `os.stat` reports about a file: its size, its modification time in whole
      seconds, and that time as local calendar time (`None` when `datetime.fromtimestamp`
      cannot represent it). */
  datatype Stat = Stat(size: nat, mtime: int, local: Option<DateTime>)

  /** A directory tree with each directory's entries in the order the file system lists
      them. A file whose `stat` is `None` cannot be examined; a directory that is not
      `listable` cannot be opened for listing. */
  datatype Node =
    | File(name: string, stat: Option<Stat>)
    | Dir(name: string, listable: bool, children: seq<Node>)

  /** A name a directory listing can hold. */
  predicate EntryName(x: string)
  {
    ProperName(x) && x != ".."
  }

  /** Every name of the sequence is an entry name. */
  predicate EntryNames(xs: seq<string>)
  {
    forall i :: 0 <= i < |xs| ==> EntryName(xs[i])
  }

  lemma EntryNamesSnoc(xs: seq<string>, x: string)
    requires EntryNames(xs) && EntryName(x)
    ensures EntryNames(xs + [x])
  {
    assert forall i :: 0 <= i < |xs| ==> (xs + [x])[i] == xs[i];
  }

  predicate WellNamed(n: Node)
    decreases n
  {
    EntryName(n.name) && (n.Dir? ==> forall c :: c in n.children ==> WellNamed(c))
  }

  // ---------------------------------------------------------------------------
  // os.walk

  datatype FileEntry = FileEntry(name: string, stat: Option<Stat>)

  /** One triple `(root, dirnames, filenames)` of `os.walk`, with the stat each file would
      give and, for the proofs, the directory names leading from the top to `root`. */
  datatype WalkStep = WalkStep(root: string, trail: seq<string>, dirs: seq<string>, files: seq<FileEntry>)

  /** The sub-directory names among `cs[k..]`, in listing order. */
  function DirNames(cs: seq<Node>, k: nat): seq<string>
    requires k <= |cs|
    decreases |cs| - k
  {
    if k == |cs| then []
    else if cs[k].Dir? then [cs[k].name] + DirNames(cs, k + 1)
    else DirNames(cs, k + 1)
  }

  /** The files among `cs[k..]`, in listing order. */
  function FileEntries(cs: seq<Node>, k: nat): (r: seq<FileEntry>)
    requires k <= |cs|
    ensures (forall c :: c in cs ==> EntryName(c.name)) ==> forall i :: 0 <= i < |r| ==> EntryName(r[i].name)
    decreases |cs| - k
  {
    if k == |cs| then []
    else if cs[k].File? then [FileEntry(cs[k].name, cs[k].stat)] + FileEntries(cs, k + 1)
    else FileEntries(cs, k + 1)
  }

  /** `os.walk(root)` over the listable directory `n`, top-down: the triple for `n`, then
      the walk of each sub-directory in listing order. */
  function Walk(root: string, trail: seq<string>, n: Node): seq<WalkStep>
    requires n.Dir?
    decreases n, |n.children| + 1
  {
    [WalkStep(root, trail, DirNames(n.children, 0), FileEntries(n.children, 0))] + WalkFrom(root, trail, n, 0)
  }

  /** The walks of the sub-directories among `n.children[k..]`. A sub-directory that cannot
      be listed contributes nothing: `os.walk` drops the error. */
  function WalkFrom(root: string, trail: seq<string>, n: Node, k: nat): seq<WalkStep>
    requires n.Dir? && k <= |n.children|
    decreases n, |n.children| - k
  {
    if k == |n.children| then []
    else
      var c := n.children[k];
      var below := if c.Dir? && c.listable then Walk(PathJoin(root, c.name), trail + [c.name], c) else [];
      below + WalkFrom(root, trail, n, k + 1)
  }

  /** `os.walk(folder)`: nothing when the folder is missing, is a file, or cannot be listed. */
  function WalkTop(folder: string, top: Option<Node>): seq<WalkStep>
  {
    if top.Some? && top.value.Dir? && top.value.listable then Walk(folder, [], top.value) else []
  }

  /** A step whose root lies `trail` below `folder`, all names being entry names. */
  predicate StepBelow(s: WalkStep, folder: string)
  {
    && Components(s.root) == Components(folder) + s.trail
    && EntryNames(s.trail)
    && (forall i :: 0 <= i < |s.files| ==> EntryName(s.files[i].name))
  }

  predicate AllBelow(steps: seq<WalkStep>, folder: string)
  {
    forall j :: 0 <= j < |steps| ==> StepBelow(steps[j], folder)
  }

  lemma AllBelowConcat(xs: seq<WalkStep>, ys: seq<WalkStep>, folder: string)
    requires AllBelow(xs, folder) && AllBelow(ys, folder)
    ensures AllBelow(xs + ys, folder)
  {
    forall j | 0 <= j < |xs + ys|
      ensures StepBelow((xs + ys)[j], folder)
    {
      if j < |xs| {
        assert (xs + ys)[j] == xs[j];
      } else {
        assert (xs + ys)[j] == ys[j - |xs|];
      }
    }
  }

  /** Every step of a walk of a well-named tree lies below the folder the walk started from. */
  lemma {:induction false} WalkBelow(root: string, trail: seq<string>, n: Node, folder: string)
    requires n.Dir? && forall c :: c in n.children ==> WellNamed(c)
    requires Components(root) == Components(folder) + trail
    requires EntryNames(trail)
    ensures AllBelow(Walk(root, trail, n), folder)
    decreases n, |n.children| + 1
  {
    WalkFromBelow(root, trail, n, 0, folder);
    var head := WalkStep(root, trail, DirNames(n.children, 0), FileEntries(n.children, 0));
    assert forall c :: c in n.children ==> EntryName(c.name);
    assert StepBelow(head, folder);
    AllBelowConcat([head], WalkFrom(root, trail, n, 0), folder);
  }

  lemma {:induction false} WalkFromBelow(root: string, trail: seq<string>, n: Node, k: nat, folder: string)
    requires n.Dir? && k <= |n.children| && forall c :: c in n.children ==> WellNamed(c)
    requires Components(root) == Components(folder) + trail
    requires EntryNames(trail)
    ensures AllBelow(WalkFrom(root, trail, n, k), folder)
    decreases n, |n.children| - k
  {
    if k < |n.children| {
      var c := n.children[k];
      WalkFromBelow(root, trail, n, k + 1, folder);
      if c.Dir? && c.listable {
        assert c in n.children;
        SubWalkBelow(root, trail, c, folder);
        AllBelowConcat(Walk(PathJoin(root, c.name), trail + [c.name], c), WalkFrom(root, trail, n, k + 1), folder);
      } else {
        assert WalkFrom(root, trail, n, k) == [] + WalkFrom(root, trail, n, k + 1);
      }
    }
  }

  /** The walk of a sub-directory of a directory that lies `trail` below `folder`. */
  lemma {:induction false} SubWalkBelow(root: string, trail: seq<string>, c: Node, folder: string)
    requires c.Dir? && WellNamed(c)
    requires Components(root) == Components(folder) + trail
    requires EntryNames(trail)
    ensures AllBelow(Walk(PathJoin(root, c.name), trail + [c.name], c), folder)
    decreases c, |c.children| + 2
  {
    var sub := PathJoin(root, c.name);
    var trail' := trail + [c.name];
    assert Components(sub) == Components(folder) + trail' by {
      ComponentsOfJoin(root, c.name);
      ComponentsOfName(c.name);
    }
    assert EntryNames(trail') by {
      EntryNamesSnoc(trail, c.name);
    }
    WalkBelow(sub, trail', c, folder);
  }

  // ---------------------------------------------------------------------------
  // get_all_files

  /** The record `get_all_files` keeps for a file: a dictionary with these six keys. */
  datatype FileRecord = FileRecord(
    path: string,
    name: string,
    relativePath: string,
    size: nat,
    modified: DateTime,
    extension: string)

  /** A file the walk reports, with the step it was reported in. */
  datatype Found = Found(root: string, trail: seq<string>, entry: FileEntry)

  function Located(s: WalkStep): seq<Found>
  {
    seq(|s.files|, k requires 0 <= k < |s.files| => Found(s.root, s.trail, s.files[k]))
  }

  /** The files of a walk, step after step, each in listing order. */
  function Flat(steps: seq<WalkStep>): seq<Found>
    decreases |steps|
  {
    if steps == [] then [] else Flat(steps[..|steps| - 1]) + Located(steps[|steps| - 1])
  }

  function FoundPath(f: Found): string
  {
    PathJoin(f.root, f.entry.name)
  }

  /** The record for one reported file, or none when `os.stat` fails or its time has no
      local calendar form. */
  function RecordOf(f: Found, folder: string): Option<FileRecord>
  {
    var path := FoundPath(f);
    match f.entry.stat
    case None => None
    case Some(st) =>
      if st.local.None? then None
      else Some(FileRecord(path, f.entry.name, RelPath(path, folder), st.size, st.local.value, Extension(f.entry.name)))
  }

  /** The records of the files that could be examined, in walk order. */
  function Records(fs: seq<Found>, folder: string): seq<FileRecord>
    decreases |fs|
  {
    if fs == [] then []
    else
      var last := RecordOf(fs[|fs| - 1], folder);
      Records(fs[..|fs| - 1], folder) + (if last.Some? then [last.value] else [])
  }

  /** The paths of the files that could not be examined, in walk order. */
  function Skipped(fs: seq<Found>, folder: string): seq<string>
    decreases |fs|
  {
    if fs == [] then []
    else
      var last := fs[|fs| - 1];
      Skipped(fs[..|fs| - 1], folder) + (if RecordOf(last, folder).None? then [FoundPath(last)] else [])
  }

  /** `get_all_files(folder)`: walks the tree and makes a record of every file it can
      examine; a file it cannot examine is reported (printed) and skipped, and the walk goes
      on. Returns the records and the reported paths. */
  method GetAllFiles(folder: string, top: Option<Node>) returns (files: seq<FileRecord>, skipped: seq<string>)
    ensures files == Records(Flat(WalkTop(folder, top)), folder)
    ensures skipped == Skipped(Flat(WalkTop(folder, top)), folder)
  {
    var steps := WalkTop(folder, top);
    files, skipped := [], [];
    var i := 0;
    while i < |steps|
      invariant i <= |steps|
      invariant files == Records(Flat(steps[..i]), folder)
      invariant skipped == Skipped(Flat(steps[..i]), folder)
    {
      var step := steps[i];
      ghost var seen := Flat(steps[..i]);
      ghost var done := seen;
      var j := 0;
      while j < |step.files|
        invariant j <= |step.files|
        invariant seen == done + Located(step)[..j]
        invariant files == Records(seen, folder)
        invariant skipped == Skipped(seen, folder)
      {
        var entry := step.files[j];
        var path := PathJoin(step.root, entry.name);
        ghost var found := Found(step.root, step.trail, entry);
        RecordsSnoc(seen, found, folder);
        PrefixSnoc(done, Located(step), j);
        if entry.stat.Some? && entry.stat.value.local.Some? {
          var st := entry.stat.value;
          var record := FileRecord(path, entry.name, RelPath(path, folder), st.size, st.local.value, Extension(entry.name));
          assert RecordOf(found, folder) == Some(record);
          files := files + [record];
        } else {
          assert RecordOf(found, folder).None? && FoundPath(found) == path;
          skipped := skipped + [path];
        }
        seen := seen + [found];
        j := j + 1;
      }
      assert Located(step)[..j] == Located(step);
      FlatPrefix(steps, i);
      i := i + 1;
    }
    assert steps[..i] == steps;
  }

  lemma PrefixSnoc<T>(a: seq<T>, b: seq<T>, j: nat)
    requires j < |b|
    ensures a + b[..j + 1] == (a + b[..j]) + [b[j]]
  {
    assert b[..j + 1] == b[..j] + [b[j]];
  }

  /** One more step adds its files after those found so far. */
  lemma FlatPush(steps: seq<WalkStep>, s: WalkStep)
    ensures Flat(steps + [s]) == Flat(steps) + Located(s)
  {
    assert (steps + [s])[..|steps|] == steps;
  }

  lemma FlatPrefix(steps: seq<WalkStep>, i: nat)
    requires i < |steps|
    ensures Flat(steps[..i + 1]) == Flat(steps[..i]) + Located(steps[i])
  {
    assert steps[..i + 1] == steps[..i] + [steps[i]];
    FlatPush(steps[..i], steps[i]);
  }

  /** One more file found adds its record or its path, and nothing else. */
  lemma RecordsSnoc(fs: seq<Found>, f: Found, folder: string)
    ensures Records(fs + [f], folder) == Records(fs, folder) + (if RecordOf(f, folder).Some? then [RecordOf(f, folder).value] else [])
    ensures Skipped(fs + [f], folder) == Skipped(fs, folder) + (if RecordOf(f, folder).None? then [FoundPath(f)] else [])
  {
    assert (fs + [f])[..|fs|] == fs;
  }

  /** A step's file lying below the walked folder. */
  predicate FoundBelow(f: Found, folder: string)
  {
    && Components(f.root) == Components(folder) + f.trail
    && EntryNames(f.trail)
    && EntryName(f.entry.name)
  }

  /** What each record promises: its name is the last component of its path, its relative
      path is the chain of entry names that leads from the folder down to it, and its
      extension is the name's `splitext` suffix. */
  predicate RecordBelow(r: FileRecord, folder: string)
  {
    && Basename(r.path) == r.name
    && EntryName(r.name)
    && Components(r.path) == Components(folder) + Components(r.relativePath)
    && Components(r.relativePath) != []
    && Components(r.relativePath)[|Components(r.relativePath)| - 1] == r.name
    && EntryNames(Components(r.relativePath))
    && r.extension == SplitExt(r.name).1
  }

  predicate AllRecordsBelow(files: seq<FileRecord>, folder: string)
  {
    forall k :: 0 <= k < |files| ==> RecordBelow(files[k], folder)
  }

  /** Joining proper names with '/' and taking the components again gives the names back. */
  lemma ComponentsOfJoined(names: seq<string>)
    requires |names| >= 1 && EntryNames(names)
    ensures Components(Join(names, '/')) == names
  {
    assert forall i :: 0 <= i < |names| ==> ProperName(names[i]);
    SplitJoin(names, '/');
    ProperOfProper(names);
  }

  /** A file named `name` in the directory `root`, which lies `trail` below `folder`: its
      path ends in its name and its path relative to `folder` is the trail and the name. */
  lemma JoinedBelow(root: string, trail: seq<string>, name: string, folder: string)
    requires Components(root) == Components(folder) + trail
    requires EntryNames(trail)
    requires EntryName(name)
    ensures Basename(PathJoin(root, name)) == name
    ensures Components(RelPath(PathJoin(root, name), folder)) == trail + [name]
    ensures Components(PathJoin(root, name)) == Components(folder) + (trail + [name])
  {
    var path := PathJoin(root, name);
    var rest := trail + [name];
    BasenameOfJoin(root, name);
    assert Components(path) == Components(folder) + rest by {
      ComponentsOfJoin(root, name);
      ComponentsOfName(name);
    }
    assert Components(RelPath(path, folder)) == rest by {
      RelPathOfExtension(path, folder, rest);
      EntryNamesSnoc(trail, name);
      ComponentsOfJoined(rest);
    }
  }

  lemma RecordOfBelow(f: Found, folder: string)
    requires FoundBelow(f, folder)
    ensures RecordOf(f, folder).Some? ==> RecordBelow(RecordOf(f, folder).value, folder)
  {
    if RecordOf(f, folder).Some? {
      var r := RecordOf(f, folder).value;
      assert r.path == PathJoin(f.root, f.entry.name) && r.name == f.entry.name;
      assert r.relativePath == RelPath(r.path, folder) && r.extension == SplitExt(r.name).1;
      JoinedBelow(f.root, f.trail, r.name, folder);
      var rest := f.trail + [r.name];
      assert Components(r.relativePath) == rest;
      EntryNamesSnoc(f.trail, r.name);
    }
  }

  lemma {:induction false} FlatBelow(steps: seq<WalkStep>, folder: string)
    requires AllBelow(steps, folder)
    ensures AllFoundBelow(Flat(steps), folder)
    decreases |steps|
  {
    if steps != [] {
      var init := steps[..|steps| - 1];
      var last := steps[|steps| - 1];
      assert AllBelow(init, folder);
      FlatBelow(init, folder);
      assert StepBelow(last, folder);
      var fs := Flat(steps);
      forall k | 0 <= k < |fs|
        ensures FoundBelow(fs[k], folder)
      {
        if k >= |Flat(init)| {
          assert fs[k] == Located(last)[k - |Flat(init)|];
        }
      }
    }
  }

  predicate AllFoundBelow(fs: seq<Found>, folder: string)
  {
    forall k :: 0 <= k < |fs| ==> FoundBelow(fs[k], folder)
  }

  lemma AllRecordsBelowAppend(xs: seq<FileRecord>, ys: seq<FileRecord>, folder: string)
    requires AllRecordsBelow(xs, folder) && AllRecordsBelow(ys, folder)
    ensures AllRecordsBelow(xs + ys, folder)
  {
    forall k | 0 <= k < |xs + ys|
      ensures RecordBelow((xs + ys)[k], folder)
    {
      if k < |xs| {
        assert (xs + ys)[k] == xs[k];
      } else {
        assert (xs + ys)[k] == ys[k - |xs|];
      }
    }
  }

  lemma {:induction false} RecordsBelow(fs: seq<Found>, folder: string)
    requires AllFoundBelow(fs, folder)
    ensures AllRecordsBelow(Records(fs, folder), folder)
    decreases |fs|
  {
    if fs != [] {
      var n := |fs| - 1;
      var init, f := fs[..n], fs[n];
      assert AllFoundBelow(init, folder) && FoundBelow(f, folder) by {
        assert forall k :: 0 <= k < n ==> init[k] == fs[k];
      }
      RecordsBelow(init, folder);
      RecordsBelowSnoc(init, f, folder);
      assert init + [f] == fs;
    }
  }

  lemma RecordsBelowSnoc(init: seq<Found>, f: Found, folder: string)
    requires AllRecordsBelow(Records(init, folder), folder) && FoundBelow(f, folder)
    ensures AllRecordsBelow(Records(init + [f], folder), folder)
  {
    var last := RecordOf(f, folder);
    var extra := if last.Some? then [last.value] else [];
    assert AllRecordsBelow(extra, folder) by {
      RecordOfBelow(f, folder);
    }
    AllRecordsBelowAppend(Records(init, folder), extra, folder);
    RecordsSnoc(init, f, folder);
  }

  /** Every record of a scan of a well-named tree keeps the promises of `RecordBelow`. */
  lemma ScanRecordsBelow(folder: string, top: Option<Node>)
    requires top.Some? && top.value.Dir? ==> forall c :: c in top.value.children ==> WellNamed(c)
    ensures AllRecordsBelow(Records(Flat(WalkTop(folder, top)), folder), folder)
  {
    var steps := WalkTop(folder, top);
    if top.Some? && top.value.Dir? && top.value.listable {
      WalkBelow(folder, [], top.value, folder);
    }
    assert AllBelow(steps, folder);
    FlatBelow(steps, folder);
    RecordsBelow(Flat(steps), folder);
  }

  /** Every reported file is either recorded or skipped, never both, never dropped. */
  lemma {:induction false} RecordsAndSkipped(fs: seq<Found>, folder: string)
    ensures |Records(fs, folder)| + |Skipped(fs, folder)| == |fs|
    decreases |fs|
  {
    if fs != [] {
      RecordsAndSkipped(fs[..|fs| - 1], folder);
    }
  }

  // ---------------------------------------------------------------------------
  // find_unsorted_files

  /** `{os.path.basename(f["path"]) for f in sorted_files}`. */
  function SortedNames(sorted: seq<FileRecord>): (r: set<string>)
    ensures forall f :: f in sorted ==> Basename(f.path) in r
  {
    set f | f in sorted :: Basename(f.path)
  }

  /** A name is a sorted name exactly when some sorted record's path ends in it. */
  lemma SortedNamesExact(sorted: seq<FileRecord>, x: string)
    ensures x in SortedNames(sorted) <==> exists f :: f in sorted && Basename(f.path) == x
  {
  }

  /** The filter a source record must pass to be reported as unsorted. */
  predicate Keep(f: FileRecord, names: set<string>, ignore: seq<string>)
  {
    f.name !in ignore && f.name !in names
  }

  /** The records that pass the filter, in their order. */
  function Unsorted(source: seq<FileRecord>, names: set<string>, ignore: seq<string>): seq<FileRecord>
    decreases |source|
  {
    if source == [] then []
    else
      var last := source[|source| - 1];
      Unsorted(source[..|source| - 1], names, ignore) + (if Keep(last, names, ignore) then [last] else [])
  }

  /** `find_unsorted_files(source_files, sorted_files, ignore_list)`. */
  method FindUnsortedFiles(source: seq<FileRecord>, sorted: seq<FileRecord>, ignore: seq<string>) returns (unsorted: seq<FileRecord>)
    ensures unsorted == Unsorted(source, SortedNames(sorted), ignore)
  {
    var names := SortedNames(sorted);
    unsorted := [];
    var i := 0;
    while i < |source|
      invariant i <= |source|
      invariant unsorted == Unsorted(source[..i], names, ignore)
    {
      var info := source[i];
      UnsortedSnoc(source, i, names, ignore);
      if info.name !in ignore && info.name !in names {
        unsorted := unsorted + [info];
      }
      i := i + 1;
    }
    assert source[..i] == source;
  }

  lemma UnsortedSnoc(source: seq<FileRecord>, i: nat, names: set<string>, ignore: seq<string>)
    requires i < |source|
    ensures Unsorted(source[..i + 1], names, ignore) ==
      Unsorted(source[..i], names, ignore) + (if Keep(source[i], names, ignore) then [source[i]] else [])
  {
    assert source[..i + 1][..i] == source[..i];
  }

  /** The positions of the records that pass the filter. */
  function KeptIndices(source: seq<FileRecord>, names: set<string>, ignore: seq<string>): seq<nat>
    decreases |source|
  {
    if source == [] then []
    else
      var n := |source| - 1;
      KeptIndices(source[..n], names, ignore) + (if Keep(source[n], names, ignore) then [n] else [])
  }

  /** `r` is the subsequence of `source` at the positions `idx`, which are strictly
      increasing and are exactly the positions whose record passes the filter: nothing is
      reordered, added, changed or repeated. */
  predicate Indexed(source: seq<FileRecord>, names: set<string>, ignore: seq<string>, r: seq<FileRecord>, idx: seq<nat>)
  {
    && |idx| == |r|
    && (forall k :: 0 <= k < |idx| ==> idx[k] < |source| && r[k] == source[idx[k]])
    && (forall k, l :: 0 <= k < l < |idx| ==> idx[k] < idx[l])
    && (forall i :: 0 <= i < |source| ==> (i in idx <==> Keep(source[i], names, ignore)))
  }

  lemma IndexedSnoc(source: seq<FileRecord>, x: FileRecord, names: set<string>, ignore: seq<string>, r: seq<FileRecord>, idx: seq<nat>)
    requires Indexed(source, names, ignore, r, idx)
    ensures Keep(x, names, ignore) ==> Indexed(source + [x], names, ignore, r + [x], idx + [|source|])
    ensures !Keep(x, names, ignore) ==> Indexed(source + [x], names, ignore, r, idx)
  {
    var s' := source + [x];
    assert forall i :: 0 <= i < |source| ==> s'[i] == source[i];
    if Keep(x, names, ignore) {
      var r', idx' := r + [x], idx + [|source|];
      forall k | 0 <= k < |idx'|
        ensures idx'[k] < |s'| && r'[k] == s'[idx'[k]]
      {
        if k < |idx| {
          assert idx'[k] == idx[k] && r'[k] == r[k];
        }
      }
      assert forall i :: 0 <= i < |s'| ==> (i in idx' <==> i in idx || i == |source|);
    } else {
      assert forall i :: 0 <= i < |s'| ==> (i in idx <==> i < |source| && i in idx);
    }
  }

  /** The result is the subsequence of the source at exactly the positions whose record
      passes the filter. */
  lemma {:induction false} UnsortedIsSubsequence(source: seq<FileRecord>, names: set<string>, ignore: seq<string>)
    ensures Indexed(source, names, ignore, Unsorted(source, names, ignore), KeptIndices(source, names, ignore))
    decreases |source|
  {
    if source != [] {
      var n := |source| - 1;
      UnsortedIsSubsequence(source[..n], names, ignore);
      IndexedSnoc(source[..n], source[n], names, ignore, Unsorted(source[..n], names, ignore), KeptIndices(source[..n], names, ignore));
      assert source[..n] + [source[n]] == source;
    }
  }

  /** A record is reported exactly when it is a source record that passes the filter. */
  lemma {:induction false} UnsortedMembers(source: seq<FileRecord>, names: set<string>, ignore: seq<string>, f: FileRecord)
    ensures f in Unsorted(source, names, ignore) <==> f in source && Keep(f, names, ignore)
    decreases |source|
  {
    if source != [] {
      var n := |source| - 1;
      UnsortedMembers(source[..n], names, ignore, f);
      assert source == source[..n] + [source[n]];
    }
  }

  /** Two records are filtered one by one. */
  lemma UnsortedPair(a: FileRecord, b: FileRecord, names: set<string>, ignore: seq<string>)
    ensures Unsorted([a, b], names, ignore) ==
      (if Keep(a, names, ignore) then [a] else []) + (if Keep(b, names, ignore) then [b] else [])
  {
    var s := [a, b];
    UnsortedSnoc(s, 0, names, ignore);
    UnsortedSnoc(s, 1, names, ignore);
    assert s[..0] == [] && s[..2] == s;
  }

  /** An ignored file is not reported even when nothing is sorted. */
  lemma IgnoredScenario(a: FileRecord, ignore: seq<string>)
    requires a.name in ignore
    ensures Unsorted([a], SortedNames([]), ignore) == []
  {
    UnsortedSnoc([a], 0, SortedNames([]), ignore);
    assert [a][..1] == [a];
  }

  /** Filtering what was already filtered changes nothing. */
  lemma {:induction false} UnsortedIdempotent(source: seq<FileRecord>, names: set<string>, ignore: seq<string>)
    ensures Unsorted(Unsorted(source, names, ignore), names, ignore) == Unsorted(source, names, ignore)
    decreases |source|
  {
    if source != [] {
      var n := |source| - 1;
      var init := Unsorted(source[..n], names, ignore);
      UnsortedIdempotent(source[..n], names, ignore);
      if Keep(source[n], names, ignore) {
        assert Unsorted(source, names, ignore) == init + [source[n]];
        assert (init + [source[n]])[..|init|] == init;
        assert Unsorted(init + [source[n]], names, ignore) == Unsorted(init, names, ignore) + [source[n]];
      } else {
        assert Unsorted(source, names, ignore) == init;
      }
    }
  }

  /** A sorted file anywhere in the sorted tree hides every source file of the same name,
      wherever that source file lies; the folders play no part. */
  lemma SameNameAnywhere(source: seq<FileRecord>, sorted: seq<FileRecord>, ignore: seq<string>, g: FileRecord)
    requires g in sorted
    ensures forall f :: f in Unsorted(source, SortedNames(sorted), ignore) ==> f.name != Basename(g.path)
  {
    assert Basename(g.path) in SortedNames(sorted);
    forall f | f in Unsorted(source, SortedNames(sorted), ignore)
      ensures f.name != Basename(g.path)
    {
      UnsortedMembers(source, SortedNames(sorted), ignore, f);
    }
  }

  lemma NamesOfRecordsBelow(files: seq<FileRecord>, folder: string)
    requires AllRecordsBelow(files, folder)
    ensures SortedNames(files) == set f | f in files :: f.name
  {
    forall f | f in files
      ensures Basename(f.path) == f.name
    {
      var k :| 0 <= k < |files| && files[k] == f;
      assert RecordBelow(files[k], folder);
    }
  }

  /** For the records of a scan, the set of sorted basenames is the set of their names. */
  lemma ScannedSortedNames(folder: string, top: Option<Node>)
    requires top.Some? && top.value.Dir? ==> forall c :: c in top.value.children ==> WellNamed(c)
    ensures var files := Records(Flat(WalkTop(folder, top)), folder);
      SortedNames(files) == set f | f in files :: f.name
  {
    ScanRecordsBelow(folder, top);
    NamesOfRecordsBelow(Records(Flat(WalkTop(folder, top)), folder), folder);
  }

  // ---------------------------------------------------------------------------
  // analyze_files, the older classifier

  /** The record the older classifier keeps. */
  datatype PlainRecord = PlainRecord(name: string, path: string, size: nat, mtime: int)

  /** Why the older classifier raised. */
  datatype AnalysisError =
    | FolderMissing         // FileNotFoundError raised by the function itself
    | ListFailed(OsError)   // os.listdir(sorted_folder) failed
    | StatFailed(string)    // os.path.getsize or os.path.getmtime failed on this path

  datatype Analysis = Analysed(files: seq<PlainRecord>) | Failed(error: AnalysisError)

  /** `os.listdir(folder)`: every entry name of the directory, sub-directories included. */
  function ListDir(n: Node): (r: Result<set<string>>)
    ensures r.Ok? <==> n.Dir? && n.listable
    ensures r.Ok? ==> forall c :: c in n.children ==> c.name in r.value
    ensures r.Ok? ==> forall x :: x in r.value ==> exists c :: c in n.children && c.name == x
  {
    if n.File? then Err(NotADirectory)
    else if !n.listable then Err(PermissionDenied)
    else Ok(set c | c in n.children :: c.name)
  }

  /** The walked files the older classifier keeps, in walk order, stopping at the first kept
      file whose size or time cannot be read. */
  function PlainScan(fs: seq<Found>, listed: set<string>, ignore: seq<string>): Analysis
    decreases |fs|
  {
    if fs == [] then Analysed([])
    else
      match PlainScan(fs[..|fs| - 1], listed, ignore)
      case Failed(e) => Failed(e)
      case Analysed(rs) =>
        var f := fs[|fs| - 1];
        if f.entry.name in listed || f.entry.name in ignore then Analysed(rs)
        else if f.entry.stat.None? then Failed(StatFailed(FoundPath(f)))
        else Analysed(rs + [PlainRecord(f.entry.name, FoundPath(f), f.entry.stat.value.size, f.entry.stat.value.mtime)])
  }

  /** What `analyze_files(source_folder, sorted_folder, ignore_list)` returns or raises,
      given the two trees (`None` for a path that does not exist). */
  function PlainAnalysis(sourceFolder: string, sourceTop: Option<Node>, sortedTop: Option<Node>, ignore: seq<string>): Analysis
  {
    if sourceTop.None? || sortedTop.None? then Failed(FolderMissing)
    else
      match ListDir(sortedTop.value)
      case Err(e) => Failed(ListFailed(e))
      case Ok(listed) => PlainScan(Flat(WalkTop(sourceFolder, sourceTop)), listed, ignore)
  }

  lemma {:induction false} FlatAppend(a: seq<WalkStep>, b: seq<WalkStep>)
    ensures Flat(a + b) == Flat(a) + Flat(b)
    decreases |b|
  {
    if b == [] {
      assert a + b == a;
    } else {
      var init, last := b[..|b| - 1], b[|b| - 1];
      assert b == init + [last];
      assert a + b == (a + init) + [last];
      FlatAppend(a, init);
      FlatPush(a + init, last);
      FlatPush(init, last);
      assert (Flat(a) + Flat(init)) + Located(last) == Flat(a) + (Flat(init) + Located(last));
    }
  }

  /** Once the scan has stopped, later files change nothing. */
  lemma {:induction false} PlainScanStops(fs: seq<Found>, more: seq<Found>, listed: set<string>, ignore: seq<string>)
    requires PlainScan(fs, listed, ignore).Failed?
    ensures PlainScan(fs + more, listed, ignore) == PlainScan(fs, listed, ignore)
    decreases |more|
  {
    if more == [] {
      assert fs + more == fs;
    } else {
      var n := |more| - 1;
      PlainScanStops(fs, more[..n], listed, ignore);
      assert (fs + more)[..|fs + more| - 1] == fs + more[..n];
    }
  }

  lemma PlainScanSnoc(fs: seq<Found>, f: Found, listed: set<string>, ignore: seq<string>)
    requires PlainScan(fs, listed, ignore).Analysed?
    ensures PlainScan(fs + [f], listed, ignore) ==
      if f.entry.name in listed || f.entry.name in ignore then PlainScan(fs, listed, ignore)
      else if f.entry.stat.None? then Failed(StatFailed(FoundPath(f)))
      else Analysed(PlainScan(fs, listed, ignore).files + [PlainRecord(f.entry.name, FoundPath(f), f.entry.stat.value.size, f.entry.stat.value.mtime)])
  {
    assert (fs + [f])[..|fs|] == fs;
  }

  /** The files of a walk: those of the steps before step `i`, of step `i`, and of the rest. */
  lemma FlatAround(steps: seq<WalkStep>, i: nat)
    requires i < |steps|
    ensures Flat(steps) == Flat(steps[..i]) + Located(steps[i]) + Flat(steps[i + 1..])
  {
    var front, back := steps[..i + 1], steps[i + 1..];
    assert steps == front + back;
    FlatAppend(front, back);
    FlatPrefix(steps, i);
  }

  /** The files of a walk, cut after file `j` of step `i`. */
  lemma FlatCut(steps: seq<WalkStep>, i: nat, j: nat)
    requires i < |steps| && j < |steps[i].files|
    ensures Flat(steps) == (Flat(steps[..i]) + Located(steps[i])[..j + 1]) + (Located(steps[i])[j + 1..] + Flat(steps[i + 1..]))
  {
    var before, here, after := Flat(steps[..i]), Located(steps[i]), Flat(steps[i + 1..]);
    var a, b := here[..j + 1], here[j + 1..];
    assert here == a + b;
    assert (before + a) + (b + after) == before + here + after;
    FlatAround(steps, i);
  }

  /** A scan that stops at file `j` of step `i` gives the outcome of the whole walk. */
  lemma StopsAt(steps: seq<WalkStep>, i: nat, j: nat, listed: set<string>, ignore: seq<string>)
    requires i < |steps| && j < |steps[i].files|
    requires PlainScan(Flat(steps[..i]) + Located(steps[i])[..j + 1], listed, ignore).Failed?
    ensures PlainScan(Flat(steps), listed, ignore) == PlainScan(Flat(steps[..i]) + Located(steps[i])[..j + 1], listed, ignore)
  {
    FlatCut(steps, i, j);
    PlainScanStops(Flat(steps[..i]) + Located(steps[i])[..j + 1], Located(steps[i])[j + 1..] + Flat(steps[i + 1..]), listed, ignore);
  }

  /** `analyze_files`: raises when a folder is missing or the sorted folder cannot be
      listed, then walks the source tree and keeps each file whose name is neither an entry
      of the sorted folder nor in the ignore list, reading its size and time (a failure to
      read them is raised). */
  method AnalyzeFiles(sourceFolder: string, sourceTop: Option<Node>, sortedTop: Option<Node>, ignore: seq<string>) returns (r: Analysis)
    ensures r == PlainAnalysis(sourceFolder, sourceTop, sortedTop, ignore)
  {
    if sourceTop.None? || sortedTop.None? {
      return Failed(FolderMissing);
    }
    var listing := ListDir(sortedTop.value);
    if listing.Err? {
      return Failed(ListFailed(listing.error));
    }
    r := ScanWalk(WalkTop(sourceFolder, sourceTop), listing.value, ignore);
  }

  /** The loop of `analyze_files` over the walk of the source folder. */
  method ScanWalk(steps: seq<WalkStep>, listed: set<string>, ignore: seq<string>) returns (r: Analysis)
    ensures r == PlainScan(Flat(steps), listed, ignore)
  {
    var unsorted := [];
    var i := 0;
    while i < |steps|
      invariant i <= |steps|
      invariant PlainScan(Flat(steps[..i]), listed, ignore) == Analysed(unsorted)
    {
      var step := steps[i];
      ghost var done := Flat(steps[..i]);
      ghost var seen := done;
      var j := 0;
      while j < |step.files|
        invariant j <= |step.files|
        invariant seen == done + Located(step)[..j]
        invariant PlainScan(seen, listed, ignore) == Analysed(unsorted)
      {
        var entry := step.files[j];
        ghost var found := Found(step.root, step.trail, entry);
        PrefixSnoc(done, Located(step), j);
        PlainScanSnoc(seen, found, listed, ignore);
        if entry.name !in listed && entry.name !in ignore {
          var path := PathJoin(step.root, entry.name);
          if entry.stat.None? {
            r := Failed(StatFailed(path));
            StopsAt(steps, i, j, listed, ignore);
            return;
          }
          unsorted := unsorted + [PlainRecord(entry.name, path, entry.stat.value.size, entry.stat.value.mtime)];
        }
        seen := seen + [found];
        j := j + 1;
      }
      assert Located(step)[..j] == Located(step);
      FlatPrefix(steps, i);
      i := i + 1;
    }
    assert steps[..i] == steps;
    r := Analysed(unsorted);
  }

  /** The walked files whose name passes the older classifier's filter, in walk order. */
  function PlainKept(fs: seq<Found>, listed: set<string>, ignore: seq<string>): seq<Found>
    decreases |fs|
  {
    if fs == [] then []
    else
      var f := fs[|fs| - 1];
      PlainKept(fs[..|fs| - 1], listed, ignore)
        + (if f.entry.name !in listed && f.entry.name !in ignore then [f] else [])
  }

  /** Every file of the sequence can be examined. */
  predicate Examinable(fs: seq<Found>)
  {
    forall k :: 0 <= k < |fs| ==> fs[k].entry.stat.Some?
  }

  /** The older classifier succeeds exactly when every kept file can be examined. */
  lemma {:induction false} PlainScanSucceeds(fs: seq<Found>, listed: set<string>, ignore: seq<string>)
    ensures PlainScan(fs, listed, ignore).Analysed? <==> Examinable(PlainKept(fs, listed, ignore))
    decreases |fs|
  {
    if fs != [] {
      var n := |fs| - 1;
      var f := fs[n];
      PlainScanSucceeds(fs[..n], listed, ignore);
      var before := PlainKept(fs[..n], listed, ignore);
      var tail := if f.entry.name !in listed && f.entry.name !in ignore then [f] else [];
      assert PlainKept(fs, listed, ignore) == before + tail;
      ExaminableAppend(before, tail);
      if tail != [] {
        assert tail[0] == f;
      }
      assert Examinable(tail) <==> (tail == [] || f.entry.stat.Some?);
      assert PlainScan(fs, listed, ignore).Analysed? <==>
        PlainScan(fs[..n], listed, ignore).Analysed? && (tail == [] || f.entry.stat.Some?);
    }
  }

  lemma ExaminableAppend(a: seq<Found>, b: seq<Found>)
    ensures Examinable(a + b) <==> Examinable(a) && Examinable(b)
  {
    if Examinable(a + b) {
      assert forall k :: 0 <= k < |a| ==> a[k] == (a + b)[k];
      assert forall k :: 0 <= k < |b| ==> b[k] == (a + b)[|a| + k];
    }
  }

  /** When it succeeds, the older classifier reports the kept files, in walk order, each
      with its own name, path, size and time. */
  lemma {:induction false} PlainScanRecords(fs: seq<Found>, listed: set<string>, ignore: seq<string>)
    ensures var kept, r := PlainKept(fs, listed, ignore), PlainScan(fs, listed, ignore);
      r.Analysed? ==>
        && Examinable(kept)
        && |r.files| == |kept|
        && forall k :: 0 <= k < |kept| ==>
             r.files[k] == PlainRecord(kept[k].entry.name, FoundPath(kept[k]), kept[k].entry.stat.value.size, kept[k].entry.stat.value.mtime)
    decreases |fs|
  {
    if fs != [] {
      PlainScanRecords(fs[..|fs| - 1], listed, ignore);
      PlainScanSucceeds(fs, listed, ignore);
    }
  }

  /** A sub-directory at the top of the sorted folder hides the source files of its name,
      while a file deeper in the sorted folder hides nothing: the older classifier compares
      against `os.listdir` of the sorted folder only. */
  lemma PlainComparesTopLevel(sourceFolder: string, sourceTop: Option<Node>, sortedTop: Option<Node>, ignore: seq<string>, f: PlainRecord)
    requires sourceTop.Some? && sortedTop.Some?
    requires PlainAnalysis(sourceFolder, sourceTop, sortedTop, ignore).Analysed?
    requires f in PlainAnalysis(sourceFolder, sourceTop, sortedTop, ignore).files
    ensures forall c :: c in sortedTop.value.children ==> c.name != f.name
    ensures f.name !in ignore
  {
    var listed := ListDir(sortedTop.value).value;
    var fs := Flat(WalkTop(sourceFolder, sourceTop));
    PlainScanRecords(fs, listed, ignore);
    PlainKeptNames(fs, listed, ignore);
    var files := PlainScan(fs, listed, ignore).files;
    var k :| 0 <= k < |files| && files[k] == f;
  }

  lemma {:induction false} PlainKeptNames(fs: seq<Found>, listed: set<string>, ignore: seq<string>)
    ensures forall g :: g in PlainKept(fs, listed, ignore) ==> g.entry.name !in listed && g.entry.name !in ignore
    decreases |fs|
  {
    if fs != [] {
      PlainKeptNames(fs[..|fs| - 1], listed, ignore);
    }
  }
}
