/**
 * The filesystem the file manager works on, as a value: regular files (with
 * their content and modification time) and directories, keyed by path.
 * The `os` and `shutil` calls the manager makes are functions from one such
 * value to the next; `FileSystem` is the mutable filesystem they act on.
 */
module Storage {
  import opened Wrappers
  import opened PathUtil

  /** What `shutil.copy2` and `shutil.move` carry along: the bytes and the mtime. */
  datatype FileInfo = FileInfo(content: seq<bv8>, mtime: int)

  /**
   * The paths of regular files and of directories. The empty path is the
   * working directory, which always exists and is not recorded.
   */
  datatype Disk = Disk(files: map<Path, FileInfo>, dirs: set<Path>)

  /** `os.path.exists`, and `ensure_exists` without its message. */
  predicate Exists(d: Disk, p: Path) {
    p == [] || p in d.files || p in d.dirs
  }

  /** `os.path.isdir`: a recorded directory or the working directory. */
  predicate IsDirectory(d: Disk, p: Path) {
    p == [] || p in d.dirs
  }

  function Parent(p: Path): Path
    requires |p| > 0
  {
    p[..|p| - 1]
  }

  /** The entry's directory exists: it is the working directory or a recorded directory. */
  predicate ParentIsDir(d: Disk, p: Path) {
    |p| > 0 && (|p| == 1 || Parent(p) in d.dirs)
  }

  /** A tree: no path is both a file and a directory, and every entry's parent is a directory. */
  predicate WellFormed(d: Disk) {
    && d.files.Keys !! d.dirs
    && (forall p :: p in d.files ==> ParentIsDir(d, p))
    && (forall p :: p in d.dirs ==> ParentIsDir(d, p))
  }

  /** The names `os.listdir(p)` returns. */
  function ListDir(d: Disk, p: Path): set<string> {
    (set q | q in d.files && IsChild(p, q) :: q[|p|]) + (set q | q in d.dirs && IsChild(p, q) :: q[|p|])
  }

  /** A name is listed exactly when its join with `p` is a file or a directory. */
  lemma ListDirNames(d: Disk, p: Path, n: string)
    ensures n in ListDir(d, p) <==> p + [n] in d.files || p + [n] in d.dirs
  {
    assert IsChild(p, p + [n]) && (p + [n])[|p|] == n;
    assert forall q :: IsChild(p, q) && q[|p|] == n ==> q == p + [n];
  }

  /** `p` is a directory and `os.listdir(p)` is empty. */
  predicate IsEmptyDir(d: Disk, p: Path) {
    && p in d.dirs
    && (forall q :: q in d.files ==> !IsChild(p, q))
    && (forall q :: q in d.dirs ==> !IsChild(p, q))
  }

  /** An empty directory is one whose listing is empty. */
  lemma EmptyDirHasEmptyListing(d: Disk, p: Path)
    requires p in d.dirs
    ensures IsEmptyDir(d, p) <==> ListDir(d, p) == {}
  {
    if !IsEmptyDir(d, p) {
      if q :| q in d.files && IsChild(p, q) {
        assert q[|p|] in ListDir(d, p);
      } else {
        var q :| q in d.dirs && IsChild(p, q);
        assert q[|p|] in ListDir(d, p);
      }
    }
  }

  /** The non-empty prefixes of `p`: the directories `os.makedirs(p)` creates or finds. */
  function Prefixes(p: Path): set<Path> {
    set k | 1 <= k <= |p| :: p[..k]
  }

  /** The prefix of length `k` of `p` is a regular file, so `os.makedirs(p)` cannot get past it. */
  predicate BlockedAt(d: Disk, p: Path, k: int)
    requires 1 <= k <= |p|
  {
    p[..k] in d.files
  }

  /**
   * `os.makedirs(p, exist_ok=True)`: nothing to do for an existing
   * directory; raises (None) when `p` or one of its prefixes is a file, or
   * when the environment refuses to create `p` (it is in `failing`);
   * otherwise creates every missing prefix.
   */
  function MakeDirsOn(d: Disk, p: Path, failing: set<Path>): (r: Option<Disk>)
    ensures r.None? <==> p !in d.dirs && (p in failing || exists k :: 1 <= k <= |p| && BlockedAt(d, p, k))
    ensures r.Some? ==> r.value.files == d.files && d.dirs <= r.value.dirs
    ensures r.Some? && p !in d.dirs ==> r.value.dirs == d.dirs + Prefixes(p)
  {
    if p in d.dirs then Some(d)
    else if p in failing || exists k :: 1 <= k <= |p| && BlockedAt(d, p, k) then None
    else Some(d.(dirs := d.dirs + Prefixes(p)))
  }

  /** `folder_check(p)`: `os.makedirs(p)` unless something already exists at `p`. */
  function FolderCheckOn(d: Disk, p: Path, failing: set<Path>): (r: Option<Disk>)
    ensures r.Some? && !Exists(d, p) ==> r.value.dirs == d.dirs + Prefixes(p)
    ensures r.Some? && p != [] ==> Exists(r.value, p)
    ensures r.Some? ==> r.value.files == d.files && d.dirs <= r.value.dirs
    ensures Exists(d, p) ==> r == Some(d)
  {
    assert p != [] ==> p[..|p|] == p && p in Prefixes(p);
    if Exists(d, p) then Some(d) else MakeDirsOn(d, p, failing)
  }

  lemma PrefixesOfWellFormedDir(d: Disk, p: Path, k: nat)
    requires WellFormed(d) && p in d.dirs && 1 <= k <= |p|
    ensures p[..k] in d.dirs
    decreases |p| - k
  {
    if k < |p| {
      var q := p[..k + 1];
      PrefixesOfWellFormedDir(d, p, k + 1);
      assert ParentIsDir(d, q);
      assert Parent(q) == p[..k];
    } else {
      assert p[..k] == p;
    }
  }

  /** Every proper non-empty prefix of an entry of a well-formed tree is a directory. */
  lemma PrefixOfEntryIsDir(d: Disk, q: Path, k: nat)
    requires WellFormed(d) && (q in d.files || q in d.dirs) && 1 <= k < |q|
    ensures q[..k] in d.dirs
  {
    if q in d.dirs {
      PrefixesOfWellFormedDir(d, q, k);
    } else {
      var parent := Parent(q);
      assert parent in d.dirs;
      PrefixesOfWellFormedDir(d, parent, k);
      assert parent[..k] == q[..k];
    }
  }

  /** `os.makedirs` keeps the tree well formed, and afterwards `p` and its prefixes are directories. */
  lemma MakeDirsKeepsWellFormed(d: Disk, p: Path, failing: set<Path>)
    requires WellFormed(d)
    requires MakeDirsOn(d, p, failing).Some?
    ensures WellFormed(MakeDirsOn(d, p, failing).value)
    ensures Prefixes(p) <= MakeDirsOn(d, p, failing).value.dirs
  {
    var r := MakeDirsOn(d, p, failing).value;
    if p in d.dirs {
      forall q | q in Prefixes(p) ensures q in d.dirs {
        var k :| 1 <= k <= |p| && q == p[..k];
        PrefixesOfWellFormedDir(d, p, k);
      }
    } else {
      forall k | 1 <= k <= |p| ensures p[..k] !in d.files {
        assert !BlockedAt(d, p, k);
      }
      forall q | q in r.dirs ensures ParentIsDir(r, q) {
        if q !in d.dirs {
          var k :| 1 <= k <= |p| && q == p[..k];
          if k > 1 {
            assert Parent(q) == p[..k - 1];
          }
        }
      }
    }
  }

  lemma FolderCheckKeepsWellFormed(d: Disk, p: Path, failing: set<Path>)
    requires WellFormed(d)
    requires FolderCheckOn(d, p, failing).Some?
    ensures WellFormed(FolderCheckOn(d, p, failing).value)
    ensures p == [] || Exists(FolderCheckOn(d, p, failing).value, p)
  {
    if !Exists(d, p) {
      MakeDirsKeepsWellFormed(d, p, failing);
      if p != [] {
        assert p[..|p|] == p;
        assert p in Prefixes(p);
      }
    }
  }

  /** The file at `p` now holds `info`. */
  function AddFile(d: Disk, p: Path, info: FileInfo): Disk {
    d.(files := d.files[p := info])
  }

  lemma AddFileKeepsWellFormed(d: Disk, p: Path, info: FileInfo)
    requires WellFormed(d) && ParentIsDir(d, p) && p !in d.dirs
    ensures WellFormed(AddFile(d, p, info))
  {
  }

  /** What `shutil.copy2` needs: a regular file to read and an existing directory to write into. */
  predicate CanCopy(d: Disk, source: Path, target: Path) {
    source in d.files && ParentIsDir(d, target)
  }

  /** What a rename of `source` to the free path `target` needs. */
  predicate CanMove(d: Disk, source: Path, target: Path) {
    source in d.files && !Exists(d, target) && ParentIsDir(d, target)
  }

  /** The regular file at `source` now lives at `target`, with the same content and mtime. */
  function MoveFile(d: Disk, source: Path, target: Path): Disk
    requires source in d.files
  {
    d.(files := (d.files - {source})[target := d.files[source]])
  }

  lemma MoveFileKeepsWellFormed(d: Disk, source: Path, target: Path)
    requires WellFormed(d) && CanMove(d, source, target)
    ensures WellFormed(MoveFile(d, source, target))
  {
  }

  /** `os.remove(p)`. */
  function RemoveFile(d: Disk, p: Path): Disk {
    d.(files := d.files - {p})
  }

  lemma RemoveFileKeepsWellFormed(d: Disk, p: Path)
    requires WellFormed(d)
    ensures WellFormed(RemoveFile(d, p))
  {
  }

  /** `shutil.rmtree(p)`: `p` and everything below it disappear. */
  function RemoveTree(d: Disk, p: Path): (r: Disk)
    ensures forall q :: q in r.files <==> q in d.files && !IsUnder(p, q)
    ensures forall q :: q in r.dirs <==> q in d.dirs && !IsUnder(p, q)
    ensures forall q :: q in r.files ==> r.files[q] == d.files[q]
  {
    Disk(map q | q in d.files && !IsUnder(p, q) :: d.files[q], set q | q in d.dirs && !IsUnder(p, q))
  }

  lemma RemoveTreeKeepsWellFormed(d: Disk, p: Path)
    requires WellFormed(d)
    ensures WellFormed(RemoveTree(d, p))
  {
    var r := RemoveTree(d, p);
    forall q | q in r.files || q in r.dirs ensures ParentIsDir(r, q) {
      assert ParentIsDir(d, q);
      if |q| > 1 {
        var parent := Parent(q);
        if |p| <= |parent| {
          assert q[..|p|] == parent[..|p|];
        }
        assert !IsUnder(p, parent);
      }
    }
  }

  /** The mutable filesystem: every method stands for one `os` or `shutil` call. */
  class FileSystem {
    var disk: Disk

    ghost predicate Valid()
      reads this
    {
      WellFormed(disk)
    }

    constructor (d: Disk)
      requires WellFormed(d)
      ensures Valid() && disk == d
    {
      disk := d;
    }

    function PathExists(p: Path): bool
      reads this
    {
      Exists(disk, p)
    }

    function IsFile(p: Path): bool
      reads this
    {
      p in disk.files
    }

    /** `os.path.isdir(p)`; the model's `os.listdir(p)` raises exactly when it is false, since unreadable directories are not modelled. */
    function IsDir(p: Path): bool
      reads this
    {
      IsDirectory(disk, p)
    }

    /** `folder_check(p)`; false when `os.makedirs` raises. */
    method FolderCheck(p: Path, failing: set<Path>) returns (ok: bool)
      requires Valid()
      modifies this
      ensures Valid()
      ensures ok == FolderCheckOn(old(disk), p, failing).Some?
      ensures disk == if ok then FolderCheckOn(old(disk), p, failing).value else old(disk)
    {
      var r := FolderCheckOn(disk, p, failing);
      ok := r.Some?;
      if ok {
        FolderCheckKeepsWellFormed(disk, p, failing);
        disk := r.value;
      }
    }

    /** `os.makedirs(p, exist_ok=True)`; false when it raises. */
    method MakeDirs(p: Path, failing: set<Path>) returns (ok: bool)
      requires Valid()
      modifies this
      ensures Valid()
      ensures ok == MakeDirsOn(old(disk), p, failing).Some?
      ensures disk == if ok then MakeDirsOn(old(disk), p, failing).value else old(disk)
    {
      var r := MakeDirsOn(disk, p, failing);
      ok := r.Some?;
      if ok {
        MakeDirsKeepsWellFormed(disk, p, failing);
        disk := r.value;
      }
    }

    /** `os.remove(p)`. */
    method Remove(p: Path)
      requires Valid()
      modifies this
      ensures Valid()
      ensures disk == RemoveFile(old(disk), p)
    {
      RemoveFileKeepsWellFormed(disk, p);
      disk := RemoveFile(disk, p);
    }

    /** `shutil.rmtree(p)`. */
    method RmTree(p: Path)
      requires Valid()
      modifies this
      ensures Valid()
      ensures disk == RemoveTree(old(disk), p)
    {
      RemoveTreeKeepsWellFormed(disk, p);
      disk := RemoveTree(disk, p);
    }

    /**
     * `shutil.copy2(source, target)` onto a path where nothing exists yet;
     * `fails` stands for the errors the model does not track (permissions,
     * a full disk). Content and mtime are copied.
     */
    method Copy2(source: Path, target: Path, fails: bool) returns (ok: bool)
      requires Valid() && !Exists(disk, target)
      modifies this
      ensures Valid()
      ensures ok == (!fails && CanCopy(old(disk), source, target))
      ensures disk == if ok then AddFile(old(disk), target, old(disk).files[source]) else old(disk)
    {
      ok := !fails && CanCopy(disk, source, target);
      if ok {
        AddFileKeepsWellFormed(disk, target, disk.files[source]);
        disk := AddFile(disk, target, disk.files[source]);
      }
    }

    /**
     * `shutil.move(source, target)` of a regular file onto a free path;
     * `fails` stands for the errors the model does not track.
     */
    method Move(source: Path, target: Path, fails: bool) returns (ok: bool)
      requires Valid()
      modifies this
      ensures Valid()
      ensures ok == (!fails && CanMove(old(disk), source, target))
      ensures disk == if ok then MoveFile(old(disk), source, target) else old(disk)
    {
      ok := !fails && CanMove(disk, source, target);
      if ok {
        MoveFileKeepsWellFormed(disk, source, target);
        disk := MoveFile(disk, source, target);
      }
    }

    /** Write a new regular file at `p`, whose directory exists. */
    method Write(p: Path, info: FileInfo)
      requires Valid() && ParentIsDir(disk, p) && p !in disk.dirs
      modifies this
      ensures Valid()
      ensures disk == AddFile(old(disk), p, info)
    {
      AddFileKeepsWellFormed(disk, p, info);
      disk := AddFile(disk, p, info);
    }
  }
}
