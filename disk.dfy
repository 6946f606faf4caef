/** The part of a POSIX file system the program touches: regular files holding text,
    directories, and the paths whose permission bits refuse this program's access. The
    disk is a value; every operation that changes it returns the new disk. */
module FileSystem {
  import opened Wrappers
  import opened Paths

  /** The `OSError` subclasses the program can meet. */
  datatype OsError =
    | NotFound          // FileNotFoundError, ENOENT
    | AlreadyExists     // FileExistsError, EEXIST
    | NotADirectory     // NotADirectoryError, ENOTDIR
    | IsADirectory      // IsADirectoryError, EISDIR
    | PermissionDenied  // PermissionError, EACCES
    | SameFile          // shutil.SameFileError

  datatype Result<T> = Ok(value: T) | Err(error: OsError)

  /** `files` maps each regular file to its text, `dirs` holds every directory except the
      root and the working directory (which always exist), and `denied` holds the files
      this program may not read or overwrite and the directories it may not add to. */
  datatype Disk = Disk(files: map<PurePath, string>, dirs: set<PurePath>, denied: set<PurePath>)

  predicate IsDir(d: Disk, p: PurePath)
  {
    p.parts == [] || p in d.dirs
  }

  predicate Exists(d: Disk, p: PurePath)
  {
    IsDir(d, p) || p in d.files
  }

  /** What holds at each path of a valid disk: a file is not also a directory, a file or a
      directory lives in a directory, and a permission belongs to something that exists. */
  predicate Placed(d: Disk, p: PurePath)
  {
    && (p in d.files ==> p !in d.dirs && p.parts != [] && IsDir(d, Parent(p)))
    && (p in d.dirs ==> p.parts != [] && IsDir(d, Parent(p)))
    && (p in d.denied ==> Exists(d, p))
  }

  ghost predicate Valid(d: Disk)
  {
    forall p :: Placed(d, p)
  }

  /** The error met while walking from the top down to the directory that holds `p`:
      a regular file where a directory is needed, or a directory that is missing. */
  function Reach(d: Disk, p: PurePath): (e: Option<OsError>)
    ensures e.Some? ==> e.value == NotADirectory || e.value == NotFound
    decreases |p.parts|
  {
    if p.parts == [] then None
    else
      var q := Parent(p);
      var above := Reach(d, q);
      if above.Some? then above
      else if q in d.files then Some(NotADirectory)
      else if !IsDir(d, q) then Some(NotFound)
      else None
  }

  /** On a valid disk the walk to `p` succeeds exactly when `p`'s parent is a directory. */
  lemma {:induction false} ReachParent(d: Disk, p: PurePath)
    requires Valid(d)
    ensures Reach(d, p).None? <==> (p.parts == [] || IsDir(d, Parent(p)))
    decreases |p.parts|
  {
    if p.parts != [] {
      var q := Parent(p);
      ReachParent(d, q);
      assert Placed(d, q);
    }
  }

  /** `os.mkdir(p)`. */
  function OsMkdir(d: Disk, p: PurePath): (r: Result<Disk>)
    ensures r.Ok? ==> r.value == d.(dirs := d.dirs + {p})
    ensures r.Ok? <==> (Reach(d, p).None? && !Exists(d, p) && Parent(p) !in d.denied)
    ensures Valid(d) && r.Ok? ==> Valid(r.value)
  {
    var e := Reach(d, p);
    if e.Some? then Err(e.value)
    else if Exists(d, p) then Err(AlreadyExists)
    else if Parent(p) in d.denied then Err(PermissionDenied)
    else
      assert Valid(d) ==> Valid(d.(dirs := d.dirs + {p})) by {
        if Valid(d) {
          ReachParent(d, p);
          AddDirKeepsValid(d, p);
        }
      }
      Ok(d.(dirs := d.dirs + {p}))
  }

  /** A directory added inside an existing directory, where nothing stands, keeps a disk valid. */
  lemma AddDirKeepsValid(d: Disk, p: PurePath)
    requires Valid(d) && p.parts != [] && IsDir(d, Parent(p)) && !Exists(d, p)
    ensures Valid(d.(dirs := d.dirs + {p}))
  {
    var d' := d.(dirs := d.dirs + {p});
    forall q
      ensures Placed(d', q)
    {
      assert Placed(d, q);
    }
  }

  /** `Path(p).mkdir(parents=parents, exist_ok=existOk)`: a missing parent is created first
      when `parents` is set, and an error is ignored when `existOk` is set and `p` is
      already a directory. */
  function PathMkdir(d: Disk, p: PurePath, parents: bool, existOk: bool): (r: Result<Disk>)
    ensures r.Ok? ==> r.value.files == d.files && r.value.denied == d.denied
    ensures r.Ok? ==> d.dirs <= r.value.dirs
    ensures r.Ok? ==> forall q :: q in r.value.dirs && q !in d.dirs ==> Within(q, p)
    ensures Valid(d) && r.Ok? ==> Valid(r.value) && IsDir(r.value, p)
    decreases |p.parts|, if parents then 1 else 0
  {
    var made := OsMkdir(d, p);
    if made.Ok? then made
    else if made.error == NotFound then
      if !parents || Parent(p) == p then made
      else
        match PathMkdir(d, Parent(p), true, true)
        case Err(e) => Err(e)
        case Ok(d1) =>
          var r := PathMkdir(d1, p, false, existOk);
          assert r.Ok? ==> forall q :: q in r.value.dirs && q !in d.dirs ==> Within(q, p) by {
            forall q | r.Ok? && q in r.value.dirs && q !in d.dirs
              ensures Within(q, p)
            {
              if q !in d1.dirs {
              } else {
                WithinParent(q, p);
              }
            }
          }
          r
    else if !existOk || !IsDir(d, p) then made
    else Ok(d)
  }

  /** On a valid disk, once `mkdir(parents=True)` has made the missing folders above `p`,
      making `p` itself cannot fail. So a failing `mkdir(parents=True)` failed before it
      made anything, and leaves the disk as it was. */
  lemma MkdirAfterParents(d: Disk, p: PurePath, existOk: bool)
    requires Valid(d) && OsMkdir(d, p) == Err(NotFound) && Parent(p) != p
    requires PathMkdir(d, Parent(p), true, true).Ok?
    ensures PathMkdir(PathMkdir(d, Parent(p), true, true).value, p, false, existOk).Ok?
  {
    var q := Parent(p);
    var d1 := PathMkdir(d, q, true, true).value;
    ReachParent(d, p);
    ReachParent(d1, p);
    assert Placed(d, p) && Placed(d, q);
    if q in d.files {
      ReachParent(d, q);
      assert false;
    }
    assert !Exists(d1, p);
  }

  /** `mkdir(exist_ok=True)` of an existing directory changes nothing and succeeds. */
  lemma MkdirExisting(d: Disk, p: PurePath, parents: bool)
    requires Valid(d) && IsDir(d, p)
    ensures PathMkdir(d, p, parents, true) == Ok(d)
  {
    if p.parts != [] {
      assert Placed(d, p);
      ReachParent(d, p);
    }
  }

  /** Without `exist_ok`, an existing path is an error whatever it is. */
  lemma MkdirExistingFails(d: Disk, p: PurePath, parents: bool)
    requires Valid(d) && Exists(d, p)
    ensures PathMkdir(d, p, parents, false) == Err(AlreadyExists)
  {
    if p.parts != [] {
      assert Placed(d, p);
      ReachParent(d, p);
    }
  }

  /** `mkdir(parents=True, exist_ok=True)` of a path whose ancestors all exist as
      directories (none refusing new entries) and that is itself absent creates exactly
      that one directory. */
  lemma MkdirFresh(d: Disk, p: PurePath, parents: bool, existOk: bool)
    requires Valid(d) && p.parts != [] && IsDir(d, Parent(p))
    requires !Exists(d, p) && Parent(p) !in d.denied
    ensures PathMkdir(d, p, parents, existOk) == Ok(d.(dirs := d.dirs + {p}))
  {
    ReachParent(d, p);
  }

  /** Reading a whole file: `open(p).read()`. */
  function ReadFile(d: Disk, p: PurePath): (r: Result<string>)
    ensures r.Ok? <==> (Reach(d, p).None? && p in d.files && p !in d.dirs && p.parts != [] && p !in d.denied)
    ensures r.Ok? ==> r.value == d.files[p]
  {
    var e := Reach(d, p);
    if e.Some? then Err(e.value)
    else if IsDir(d, p) then Err(IsADirectory)
    else if p !in d.files then Err(NotFound)
    else if p in d.denied then Err(PermissionDenied)
    else Ok(d.files[p])
  }

  /** Writing a whole file: `open(p, "w").write(content)`, creating the file when absent
      and replacing its text otherwise. */
  function WriteFile(d: Disk, p: PurePath, content: string): (r: Result<Disk>)
    ensures r.Ok? ==> r.value == d.(files := d.files[p := content])
    ensures r.Ok? ==> Reach(d, p).None? && !IsDir(d, p)
    ensures Valid(d) && r.Ok? ==> Valid(r.value)
  {
    var e := Reach(d, p);
    if e.Some? then Err(e.value)
    else if IsDir(d, p) then Err(IsADirectory)
    else if p in d.files && p in d.denied then Err(PermissionDenied)
    else if p !in d.files && Parent(p) in d.denied then Err(PermissionDenied)
    else
      assert Valid(d) ==> Valid(d.(files := d.files[p := content])) by {
        if Valid(d) {
          ReachParent(d, p);
          StoreKeepsValid(d, p, content);
        }
      }
      Ok(d.(files := d.files[p := content]))
  }

  /** A file stored in an existing directory, where no directory stands, keeps a disk valid. */
  lemma StoreKeepsValid(d: Disk, p: PurePath, content: string)
    requires Valid(d) && p.parts != [] && IsDir(d, Parent(p)) && p !in d.dirs
    ensures Valid(d.(files := d.files[p := content]))
  {
    var d' := d.(files := d.files[p := content]);
    forall q
      ensures Placed(d', q)
    {
      assert Placed(d, q);
    }
  }

  /** Where `shutil.copy2(src, dst)` puts the copy: inside `dst` when that is a directory. */
  function CopyTarget(d: Disk, src: string, dst: PurePath): PurePath
  {
    if IsDir(d, dst) then Div(dst, Basename(src)) else dst
  }

  /** `shutil.copy2(src, dst)`: refuses to copy a file onto itself, reads the source and
      writes its text to the target. The copied permission bits and times are not part of
      this model. */
  function Copy2(d: Disk, src: string, dst: PurePath): (r: Result<Disk>)
    ensures r.Ok? ==> ReadFile(d, Parse(src)).Ok?
    ensures r.Ok? ==> r.value == d.(files := d.files[CopyTarget(d, src, dst) := d.files[Parse(src)]])
    ensures r.Ok? ==> Parse(src) != CopyTarget(d, src, dst)
    ensures Valid(d) && r.Ok? ==> Valid(r.value)
  {
    var s := Parse(src);
    var target := CopyTarget(d, src, dst);
    if s == target && Exists(d, s) then Err(SameFile)
    else
      match ReadFile(d, s)
      case Err(e) => Err(e)
      case Ok(text) => WriteFile(d, target, text)
  }
}
