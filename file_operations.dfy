/** Making the result folder and copying the unsorted files into it, keeping each file's
    place relative to the source folder. */
module FileOperations {
  import opened Wrappers
  import opened Text
  import opened Paths
  import Clock
  import opened FileSystem
  import opened FileAnalyzer

  // ---------------------------------------------------------------------------
  // create_result_folder

  const ResultPrefix: string := "неотсортированное-"

  /** "неотсортированное-" and the time as "%Y-%m-%d_%H-%M-%S". */
  function ResultFolderName(now: Clock.DateTime): string
  {
    ResultPrefix + Clock.Stamp(now, '_', '-')
  }

  /** A zero-padded decimal field holds only digits, so never a '/'. */
  lemma FieldHasNoSlash(n: nat, width: nat)
    ensures '/' !in Clock.Field(n, width)
  {
    var s := Numeral(n, 10);
    var r := Clock.Field(n, width);
    forall i | 0 <= i < |r|
      ensures r[i] != '/'
    {
      if i >= |r| - |s| {
        assert r[i] == r[|r| - |s|..][i - (|r| - |s|)];
        assert IsDigit(s[i - (|r| - |s|)], 10);
      }
    }
  }

  /** A stamp is digits and separators, so never a '/'. */
  lemma StampHasNoSlash(now: Clock.DateTime)
    ensures '/' !in Clock.Stamp(now, '_', '-')
  {
    FieldHasNoSlash(now.year, 4);
    FieldHasNoSlash(now.month, 2);
    FieldHasNoSlash(now.day, 2);
    FieldHasNoSlash(now.hour, 2);
    FieldHasNoSlash(now.minute, 2);
    FieldHasNoSlash(now.second, 2);
  }

  /** The name is the prefix followed by a nineteen-character stamp that reads back as the
      time; it is a single path component. */
  lemma ResultFolderNameLayout(now: Clock.DateTime)
    requires Clock.Valid(now)
    ensures var name := ResultFolderName(now);
      && |name| == |ResultPrefix| + 19
      && name[..|ResultPrefix|] == ResultPrefix
      && name[|ResultPrefix|..] == Clock.Stamp(now, '_', '-')
      && Clock.StampFields(name[|ResultPrefix|..]) == now
      && ProperName(name)
  {
    var stamp := Clock.Stamp(now, '_', '-');
    var name := ResultFolderName(now);
    assert |stamp| == 19 && Clock.StampFields(stamp) == now by {
      Clock.StampRoundTrip(now, '_', '-');
    }
    assert name[..|ResultPrefix|] == ResultPrefix && name[|ResultPrefix|..] == stamp;
    assert '/' !in name by {
      StampHasNoSlash(now);
      assert '/' !in ResultPrefix;
    }
    assert name != "." by {
      assert |name| > 1;
    }
  }

  /** Two different times give two different result folders. */
  lemma ResultFolderNamesDiffer(t: Clock.DateTime, u: Clock.DateTime)
    requires Clock.Valid(t) && Clock.Valid(u) && t != u
    ensures ResultFolderName(t) != ResultFolderName(u)
  {
    ResultFolderNameLayout(t);
    ResultFolderNameLayout(u);
  }

  /** The folder name is a single path component, whatever the time. */
  lemma ResultFolderNameProper(now: Clock.DateTime)
    ensures ProperName(ResultFolderName(now))
  {
    var name := ResultFolderName(now);
    assert name[..|ResultPrefix|] == ResultPrefix;
    assert '/' !in name by {
      StampHasNoSlash(now);
      assert '/' !in ResultPrefix;
      assert name == ResultPrefix + Clock.Stamp(now, '_', '-');
    }
    assert |name| > 1;
  }

  /** `Path(base_path).parent / folder_name`: the name added to the parent's parts. */
  function ResultFolderPath(base: string, now: Clock.DateTime): PurePath
  {
    var p := Parent(Parse(base));
    PurePath(p.root, p.parts + [ResultFolderName(now)])
  }

  /** The result folder is what `/` makes of the parent of the source folder and the name:
      it sits directly in that parent, and the string returned for it names it again. */
  lemma ResultFolderPlace(base: string, now: Clock.DateTime)
    ensures ResultFolderPath(base, now) == Div(Parent(Parse(base)), ResultFolderName(now))
    ensures Parent(ResultFolderPath(base, now)) == Parent(Parse(base))
    ensures Parse(Str(ResultFolderPath(base, now))) == ResultFolderPath(base, now)
  {
    var parent, name := Parent(Parse(base)), ResultFolderName(now);
    ResultFolderNameProper(now);
    assert WellFormed(parent) by {
      var q := Parse(base);
      ParseWellFormed(base);
      assert forall i :: 0 <= i < |parent.parts| ==> parent.parts[i] == q.parts[i];
    }
    DivName(parent, name);
    ParseStr(ResultFolderPath(base, now));
  }

  /** `create_result_folder(base_path)` at time `now`: makes the folder, with any missing
      parents, unless it is already there, and returns it as a string. */
  function CreateResultFolder(d: Disk, base: string, now: Clock.DateTime): (r: Result<(Disk, string)>)
    ensures r.Ok? ==> r.value.1 == Str(ResultFolderPath(base, now))
    ensures r.Ok? ==> r.value.0.files == d.files && r.value.0.denied == d.denied && d.dirs <= r.value.0.dirs
    ensures Valid(d) && r.Ok? ==> Valid(r.value.0) && IsDir(r.value.0, ResultFolderPath(base, now))
  {
    var at := ResultFolderPath(base, now);
    match PathMkdir(d, at, true, true)
    case Err(e) => Err(e)
    case Ok(d') => Ok((d', Str(at)))
  }

  /** A result folder that already exists is used as it is: no error and no change. */
  lemma CreateExistingFolder(d: Disk, base: string, now: Clock.DateTime)
    requires Valid(d) && IsDir(d, ResultFolderPath(base, now))
    ensures CreateResultFolder(d, base, now) == Ok((d, Str(ResultFolderPath(base, now))))
  {
    MkdirExisting(d, ResultFolderPath(base, now), true);
  }

  /** In an existing parent that accepts new entries, exactly the result folder is added. */
  lemma CreateFreshFolder(d: Disk, base: string, now: Clock.DateTime)
    requires Valid(d) && Clock.Valid(now)
    requires IsDir(d, Parent(Parse(base))) && Parent(Parse(base)) !in d.denied
    requires !Exists(d, ResultFolderPath(base, now))
    ensures CreateResultFolder(d, base, now) ==
      Ok((d.(dirs := d.dirs + {ResultFolderPath(base, now)}), Str(ResultFolderPath(base, now))))
  {
    ResultFolderPlace(base, now);
    MkdirFresh(d, ResultFolderPath(base, now), true, true);
  }

  // ---------------------------------------------------------------------------
  // copy_unsorted_files

  /** One entry of `errors`: the name of the record that failed and the error raised. */
  datatype CopyError = CopyError(name: string, error: OsError)

  const CopyMessagePrefix: string := "Ошибка копирования "

  /** `f"Ошибка копирования {file_info['name']}: {e}"`, given the text of the exception. */
  function CopyMessage(e: CopyError, errorText: string): (m: string)
    ensures |m| == |CopyMessagePrefix| + |e.name| + 2 + |errorText|
    ensures m[..|CopyMessagePrefix|] == CopyMessagePrefix
    ensures m[|CopyMessagePrefix|..|CopyMessagePrefix| + |e.name|] == e.name
  {
    CopyMessagePrefix + e.name + ": " + errorText
  }

  /** `Path(dest_folder) / relative_path`. */
  function CopyDestination(f: FileRecord, dest: string): PurePath
  {
    Div(Parse(dest), f.relativePath)
  }

  /** What one turn of the `try` leaves: the disk as far as it got, and the error raised,
      if any. */
  datatype Tried = Tried(disk: Disk, raised: Option<OsError>)

  /** The body of the `try`: create the destination's parent (with any missing parents) and
      `shutil.copy2` the file there. Folders made before `copy2` fails stay. A failing
      `mkdir` made nothing (`MkdirAfterParents`). */
  function CopyOne(d: Disk, f: FileRecord, dest: string): Tried
  {
    var target := CopyDestination(f, dest);
    match PathMkdir(d, Parent(target), true, true)
    case Err(e) => Tried(d, Some(e))
    case Ok(d1) =>
      match Copy2(d1, f.path, target)
      case Err(e) => Tried(d1, Some(e))
      case Ok(d2) => Tried(d2, None)
  }

  /** Any attempt removes nothing, changes no permission and makes only folders above the
      destination; a failed one changes no file, and keeps the folders its `mkdir` made
      when `copy2` is what failed. A successful one read an existing source
      file, made the destination's parent and, when the destination was not a directory,
      put the source's text there and changed no other file. */
  lemma CopyOneEffect(d: Disk, f: FileRecord, dest: string)
    ensures var r := CopyOne(d, f, dest);
      && r.disk.denied == d.denied && d.dirs <= r.disk.dirs && d.files.Keys <= r.disk.files.Keys
      && (forall q :: q in r.disk.dirs && q !in d.dirs ==> Within(q, Parent(CopyDestination(f, dest))))
    ensures var r := CopyOne(d, f, dest);
      r.raised.Some? ==> r.disk.files == d.files
    ensures var r := CopyOne(d, f, dest);
      r.raised.None? ==> Parse(f.path) in d.files
    ensures var r, target := CopyOne(d, f, dest), CopyDestination(f, dest);
      r.raised.None? && !IsDir(d, target) ==> r.disk.files == d.files[target := d.files[Parse(f.path)]]
    ensures var r, target := CopyOne(d, f, dest), CopyDestination(f, dest);
      Valid(d) ==> && Valid(r.disk)
                   && (r.raised.None? ==> IsDir(r.disk, Parent(target)))
                   && (PathMkdir(d, Parent(target), true, true).Ok? ==> IsDir(r.disk, Parent(target)))
  {
    var target := CopyDestination(f, dest);
    var made := PathMkdir(d, Parent(target), true, true);
    if made.Ok? && !IsDir(d, target) {
      assert target.parts != [];
      assert |Parent(target).parts| < |target.parts|;
      assert !IsDir(made.value, target);
    }
  }

  /** What the loop has after some records: the disk, the count of copies and the errors. */
  datatype CopyOutcome = CopyOutcome(disk: Disk, copied: nat, errors: seq<CopyError>)

  /** The loop of `copy_unsorted_files` with its `try` body as `step`: record by record in
      order, a success counted, a failure recorded by the record's name, and the next record
      tried on the disk as the previous one left it. */
  function Run(step: (Disk, FileRecord) -> Tried, d: Disk, fs: seq<FileRecord>): (r: CopyOutcome)
    ensures r.copied + |r.errors| == |fs|
    ensures r.errors == [] <==> r.copied == |fs|
    decreases |fs|
  {
    if fs == [] then CopyOutcome(d, 0, [])
    else
      var before := Run(step, d, fs[..|fs| - 1]);
      var f := fs[|fs| - 1];
      Next(before, f, step(before.disk, f))
  }

  /** One turn of the loop: the disk is the one the attempt left; a success is counted, a
      failure recorded by the record's name. */
  function Next(before: CopyOutcome, f: FileRecord, outcome: Tried): CopyOutcome
  {
    match outcome.raised
    case Some(e) => CopyOutcome(outcome.disk, before.copied, before.errors + [CopyError(f.name, e)])
    case None => CopyOutcome(outcome.disk, before.copied + 1, before.errors)
  }

  /** The loop as `copy_unsorted_files` runs it. */
  function CopyAll(d: Disk, fs: seq<FileRecord>, dest: string): CopyOutcome
  {
    Run((x: Disk, f: FileRecord) => CopyOne(x, f, dest), d, fs)
  }

  /** Copying never removes a file, a directory or a permission, and keeps a disk valid,
      whether the attempts succeed or not. */
  lemma {:induction false} CopyAllKeeps(d: Disk, fs: seq<FileRecord>, dest: string)
    ensures var r := CopyAll(d, fs, dest);
      r.disk.denied == d.denied && d.dirs <= r.disk.dirs && d.files.Keys <= r.disk.files.Keys
    ensures Valid(d) ==> Valid(CopyAll(d, fs, dest).disk)
    decreases |fs|
  {
    if fs != [] {
      CopyAllKeeps(d, fs[..|fs| - 1], dest);
      CopyOneEffect(CopyAll(d, fs[..|fs| - 1], dest).disk, fs[|fs| - 1], dest);
    }
  }

  // ---------------------------------------------------------------------------
  // what the copied files hold at the end

  /** The destinations of the records stay apart: none is the destination of another
      record or a folder above it, none is a source, and none is a folder already. */
  ghost predicate SeparateTargets(d: Disk, fs: seq<FileRecord>, dest: string)
  {
    && (forall i, j :: 0 <= i < |fs| && 0 <= j < |fs| && i != j ==>
          !Within(CopyDestination(fs[i], dest), CopyDestination(fs[j], dest)))
    && (forall i, j :: 0 <= i < |fs| && 0 <= j < |fs| ==> CopyDestination(fs[i], dest) != Parse(fs[j].path))
    && (forall i :: 0 <= i < |fs| ==> !IsDir(d, CopyDestination(fs[i], dest)))
  }

  /** No destination is a directory on `x`. */
  ghost predicate TargetsNotDirs(x: Disk, fs: seq<FileRecord>, dest: string)
  {
    forall i :: 0 <= i < |fs| ==> !IsDir(x, CopyDestination(fs[i], dest))
  }

  /** Every source is on `x` exactly when it was on `d`, with the same text. */
  ghost predicate SourcesAsBefore(d: Disk, x: Disk, fs: seq<FileRecord>)
  {
    forall j :: 0 <= j < |fs| ==>
      && (Parse(fs[j].path) in x.files <==> Parse(fs[j].path) in d.files)
      && (Parse(fs[j].path) in d.files ==> x.files[Parse(fs[j].path)] == d.files[Parse(fs[j].path)])
  }

  /** Each of the first `n` records whose attempt succeeded has its source's original text
      at its destination on `x`. */
  ghost predicate Arrived(d: Disk, x: Disk, fs: seq<FileRecord>, dest: string, n: nat)
    requires n <= |fs|
  {
    forall i :: 0 <= i < n && CopyOne(CopyAll(d, fs[..i], dest).disk, fs[i], dest).raised.None? ==>
      && Parse(fs[i].path) in d.files
      && CopyDestination(fs[i], dest) in x.files
      && x.files[CopyDestination(fs[i], dest)] == d.files[Parse(fs[i].path)]
  }

  /** An attempt makes no destination a directory: it makes only folders above its own. */
  lemma StepTargetsNotDirs(d: Disk, fs: seq<FileRecord>, dest: string, n: nat, x: Disk)
    requires SeparateTargets(d, fs, dest) && n < |fs| && TargetsNotDirs(x, fs, dest)
    ensures TargetsNotDirs(CopyOne(x, fs[n], dest).disk, fs, dest)
  {
    var own := CopyDestination(fs[n], dest);
    CopyOneEffect(x, fs[n], dest);
    forall i | 0 <= i < |fs|
      ensures !IsDir(CopyOne(x, fs[n], dest).disk, CopyDestination(fs[i], dest))
    {
      var t := CopyDestination(fs[i], dest);
      assert !IsDir(x, t);
      if i != n && Within(t, Parent(own)) {
        WithinParent(t, own);
      }
    }
  }

  /** An attempt writes at most its own destination, which is no source. */
  lemma StepSourcesAsBefore(d: Disk, fs: seq<FileRecord>, dest: string, n: nat, x: Disk)
    requires SeparateTargets(d, fs, dest) && n < |fs| && TargetsNotDirs(x, fs, dest)
    requires SourcesAsBefore(d, x, fs)
    ensures SourcesAsBefore(d, CopyOne(x, fs[n], dest).disk, fs)
  {
    CopyOneEffect(x, fs[n], dest);
    assert !IsDir(x, CopyDestination(fs[n], dest));
  }

  /** Destinations that stay apart are different. */
  lemma TargetsDiffer(d: Disk, fs: seq<FileRecord>, dest: string, n: nat)
    requires SeparateTargets(d, fs, dest) && n < |fs|
    ensures forall i :: 0 <= i < |fs| && i != n ==> CopyDestination(fs[i], dest) != CopyDestination(fs[n], dest)
  {
    var own := CopyDestination(fs[n], dest);
    assert own.parts[..|own.parts|] == own.parts;
    assert Within(own, own);
  }

  /** An attempt whose destination is not a directory changes no file but that one. */
  lemma CopyOneElsewhere(x: Disk, f: FileRecord, dest: string)
    requires !IsDir(x, CopyDestination(f, dest))
    ensures var y, own := CopyOne(x, f, dest).disk, CopyDestination(f, dest);
      forall t :: t != own && t in x.files ==> t in y.files && y.files[t] == x.files[t]
  {
    CopyOneEffect(x, f, dest);
  }

  /** A disk that keeps every file other than `own` keeps the earlier copies, when none of
      them is at `own`. */
  lemma ArrivedKept(d: Disk, x: Disk, y: Disk, fs: seq<FileRecord>, dest: string, n: nat, own: PurePath)
    requires n <= |fs| && Arrived(d, x, fs, dest, n)
    requires forall i :: 0 <= i < n ==> CopyDestination(fs[i], dest) != own
    requires forall t :: t != own && t in x.files ==> t in y.files && y.files[t] == x.files[t]
    ensures Arrived(d, y, fs, dest, n)
  {
  }

  /** One more record, whose copy is in place when its attempt succeeded. */
  lemma ArrivedMore(d: Disk, y: Disk, fs: seq<FileRecord>, dest: string, n: nat)
    requires n < |fs| && Arrived(d, y, fs, dest, n)
    requires CopyOne(CopyAll(d, fs[..n], dest).disk, fs[n], dest).raised.None? ==>
      && Parse(fs[n].path) in d.files
      && CopyDestination(fs[n], dest) in y.files
      && y.files[CopyDestination(fs[n], dest)] == d.files[Parse(fs[n].path)]
    ensures Arrived(d, y, fs, dest, n + 1)
  {
  }

  /** An attempt leaves the earlier copies in place and, when it succeeds, adds its own. */
  lemma StepArrived(d: Disk, fs: seq<FileRecord>, dest: string, n: nat)
    requires SeparateTargets(d, fs, dest) && n < |fs|
    requires var x := CopyAll(d, fs[..n], dest).disk;
      TargetsNotDirs(x, fs, dest) && SourcesAsBefore(d, x, fs) && Arrived(d, x, fs, dest, n)
    ensures Arrived(d, CopyAll(d, fs[..n + 1], dest).disk, fs, dest, n + 1)
  {
    var x := CopyAll(d, fs[..n], dest).disk;
    var r := CopyOne(x, fs[n], dest);
    var own := CopyDestination(fs[n], dest);
    CopyAllStep(d, fs, n, dest);
    assert CopyAll(d, fs[..n + 1], dest).disk == r.disk;
    CopyOneEffect(x, fs[n], dest);
    assert !IsDir(x, own);
    TargetsDiffer(d, fs, dest, n);
    CopyOneElsewhere(x, fs[n], dest);
    ArrivedKept(d, x, r.disk, fs, dest, n, own);
    assert Parse(fs[n].path) in x.files ==> Parse(fs[n].path) in d.files && x.files[Parse(fs[n].path)] == d.files[Parse(fs[n].path)];
    ArrivedMore(d, r.disk, fs, dest, n);
  }

  /** The first `n` attempts keep every destination a non-directory and every source as it
      was, and leave each successful copy in place. */
  lemma {:induction false} CopyPrefix(d: Disk, fs: seq<FileRecord>, dest: string, n: nat)
    requires SeparateTargets(d, fs, dest) && n <= |fs|
    ensures var x := CopyAll(d, fs[..n], dest).disk;
      TargetsNotDirs(x, fs, dest) && SourcesAsBefore(d, x, fs) && Arrived(d, x, fs, dest, n)
    decreases n
  {
    if n == 0 {
      assert fs[..0] == [];
    } else {
      var k := n - 1;
      CopyPrefix(d, fs, dest, k);
      var x := CopyAll(d, fs[..k], dest).disk;
      CopyAllStep(d, fs, k, dest);
      StepTargetsNotDirs(d, fs, dest, k, x);
      StepSourcesAsBefore(d, fs, dest, k, x);
      StepArrived(d, fs, dest, k);
    }
  }

  /** When the destinations stay apart, every record whose attempt succeeded ends up, on
      the disk the whole loop leaves, at `dest_folder / relative_path` with its source's
      text. */
  lemma CopiedTextsArrive(d: Disk, fs: seq<FileRecord>, dest: string)
    requires SeparateTargets(d, fs, dest)
    ensures var step := (x: Disk, f: FileRecord) => CopyOne(x, f, dest);
      forall i :: 0 <= i < |fs| && Attempts(step, d, fs)[i].raised.None? ==>
        && Parse(fs[i].path) in d.files
        && CopyDestination(fs[i], dest) in CopyAll(d, fs, dest).disk.files
        && CopyAll(d, fs, dest).disk.files[CopyDestination(fs[i], dest)] == d.files[Parse(fs[i].path)]
  {
    CopyPrefix(d, fs, dest, |fs|);
    assert fs[..|fs|] == fs;
    CopyErrors(d, fs, dest);
  }

  /** `copy_unsorted_files(unsorted_files, source_folder, dest_folder)`; `source_folder` is
      not used by the function. */
  method CopyUnsortedFiles(d: Disk, unsorted: seq<FileRecord>, source: string, dest: string)
    returns (disk: Disk, copied: nat, errors: seq<CopyError>)
    ensures CopyOutcome(disk, copied, errors) == CopyAll(d, unsorted, dest)
  {
    disk, copied, errors := d, 0, [];
    for i := 0 to |unsorted|
      invariant CopyOutcome(disk, copied, errors) == CopyAll(d, unsorted[..i], dest)
    {
      var f := unsorted[i];
      CopyAllStep(d, unsorted, i, dest);
      var outcome := TryCopy(disk, f, dest);
      ghost var before := CopyOutcome(disk, copied, errors);
      disk := outcome.disk;
      if outcome.raised.None? {
        copied := copied + 1;
      } else {
        errors := errors + [CopyError(f.name, outcome.raised.value)];
      }
      assert CopyOutcome(disk, copied, errors) == Next(before, f, outcome);
    }
    assert unsorted[..|unsorted|] == unsorted;
  }

  /** The `try` body for one record: `dest_path.parent.mkdir(parents=True, exist_ok=True)`
      then `shutil.copy2(source_path, dest_path)`; the first error raised ends it, and the
      disk keeps what was done before it. */
  method TryCopy(disk: Disk, f: FileRecord, dest: string) returns (outcome: Tried)
    ensures outcome == CopyOne(disk, f, dest)
  {
    var target := CopyDestination(f, dest);
    var made := PathMkdir(disk, Parent(target), true, true);
    if made.Err? {
      return Tried(disk, Some(made.error));
    }
    var copy := Copy2(made.value, f.path, target);
    if copy.Err? {
      return Tried(made.value, Some(copy.error));
    }
    outcome := Tried(copy.value, None);
  }

  /** One more record: its copy is tried on the disk the records before it left. */
  lemma CopyAllStep(d: Disk, fs: seq<FileRecord>, i: nat, dest: string)
    requires i < |fs|
    ensures CopyAll(d, fs[..i + 1], dest) == Next(CopyAll(d, fs[..i], dest), fs[i], CopyOne(CopyAll(d, fs[..i], dest).disk, fs[i], dest))
  {
    assert fs[..i + 1][..i] == fs[..i];
  }

  /** The outcome of each record's step, in order: record `i` is tried on the disk the
      records before it left. */
  function Attempts(step: (Disk, FileRecord) -> Tried, d: Disk, fs: seq<FileRecord>): (r: seq<Tried>)
    ensures |r| == |fs|
  {
    seq(|fs|, i requires 0 <= i < |fs| => step(Run(step, d, fs[..i]).disk, fs[i]))
  }

  /** An error for each failed outcome, naming its record, in order. */
  function ErrorsOf(fs: seq<FileRecord>, outcomes: seq<Tried>): seq<CopyError>
    requires |fs| == |outcomes|
    decreases |fs|
  {
    if fs == [] then []
    else
      var k := |fs| - 1;
      ErrorsOf(fs[..k], outcomes[..k])
        + (if outcomes[k].raised.Some? then [CopyError(fs[k].name, outcomes[k].raised.value)] else [])
  }

  /** The positions of the failed outcomes, in order. */
  function FailedIndices(outcomes: seq<Tried>): seq<nat>
    decreases |outcomes|
  {
    if outcomes == [] then []
    else
      var k := |outcomes| - 1;
      FailedIndices(outcomes[..k]) + (if outcomes[k].raised.Some? then [k] else [])
  }

  /** `errors` holds one entry per failed outcome, at the positions `idx` in increasing
      order, each naming its record and carrying its error; `i` is among the positions
      exactly when outcome `i` failed. */
  predicate LinedUp(fs: seq<FileRecord>, outcomes: seq<Tried>, errors: seq<CopyError>, idx: seq<nat>)
    requires |fs| == |outcomes|
  {
    && |idx| == |errors|
    && (forall j :: 0 <= j < |idx| ==>
          idx[j] < |fs| && outcomes[idx[j]].raised.Some? && errors[j] == CopyError(fs[idx[j]].name, outcomes[idx[j]].raised.value))
    && (forall j, k :: 0 <= j < k < |idx| ==> idx[j] < idx[k])
    && (forall i :: 0 <= i < |fs| ==> (i in idx <==> outcomes[i].raised.Some?))
  }

  lemma LinedUpSnoc(fs: seq<FileRecord>, outcomes: seq<Tried>, errors: seq<CopyError>, idx: seq<nat>,
                    f: FileRecord, o: Tried)
    requires |fs| == |outcomes| && LinedUp(fs, outcomes, errors, idx)
    ensures LinedUp(fs + [f], outcomes + [o],
                    errors + (if o.raised.Some? then [CopyError(f.name, o.raised.value)] else []),
                    idx + (if o.raised.Some? then [|fs|] else []))
  {
    var fs', os' := fs + [f], outcomes + [o];
    assert forall i :: 0 <= i < |fs| ==> fs'[i] == fs[i] && os'[i] == outcomes[i];
    assert |fs| !in idx;
  }

  lemma {:induction false} ErrorsOfLinedUp(fs: seq<FileRecord>, outcomes: seq<Tried>)
    requires |fs| == |outcomes|
    ensures LinedUp(fs, outcomes, ErrorsOf(fs, outcomes), FailedIndices(outcomes))
    decreases |fs|
  {
    if fs != [] {
      var k := |fs| - 1;
      ErrorsOfLinedUp(fs[..k], outcomes[..k]);
      LinedUpSnoc(fs[..k], outcomes[..k], ErrorsOf(fs[..k], outcomes[..k]), FailedIndices(outcomes[..k]), fs[k], outcomes[k]);
      assert fs[..k] + [fs[k]] == fs && outcomes[..k] + [outcomes[k]] == outcomes;
    }
  }

  /** The errors of the loop are those of its failed attempts. */
  lemma {:induction false} RunErrors(step: (Disk, FileRecord) -> Tried, d: Disk, fs: seq<FileRecord>)
    ensures Run(step, d, fs).errors == ErrorsOf(fs, Attempts(step, d, fs))
    decreases |fs|
  {
    if fs != [] {
      var k := |fs| - 1;
      var init := fs[..k];
      var a, a0 := Attempts(step, d, fs), Attempts(step, d, init);
      assert a[..k] == a0 by {
        forall i | 0 <= i < k
          ensures a[i] == a0[i]
        {
          assert init[..i] == fs[..i];
        }
      }
      assert fs[..k] == init;
      RunErrors(step, d, init);
    }
  }

  /** A failing record adds exactly one error naming it and the loop goes on; the errors
      follow the order of the failing records, and each record's outcome is its copy on
      the disk the records before it left. */
  lemma CopyErrors(d: Disk, fs: seq<FileRecord>, dest: string)
    ensures var step := (x: Disk, f: FileRecord) => CopyOne(x, f, dest);
      LinedUp(fs, Attempts(step, d, fs), CopyAll(d, fs, dest).errors, FailedIndices(Attempts(step, d, fs)))
    ensures var step := (x: Disk, f: FileRecord) => CopyOne(x, f, dest);
      forall i :: 0 <= i < |fs| ==> Attempts(step, d, fs)[i] == CopyOne(CopyAll(d, fs[..i], dest).disk, fs[i], dest)
  {
    var step := (x: Disk, f: FileRecord) => CopyOne(x, f, dest);
    RunErrors(step, d, fs);
    ErrorsOfLinedUp(fs, Attempts(step, d, fs));
  }
}
