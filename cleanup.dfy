/**
 * `old_file_clean`: delete the regular files directly inside one folder
 * whose modification time lies strictly between two dates. The two
 * `strptime(...).timestamp()` results are parameters (None where parsing
 * raises ValueError), times are whole seconds, and the files whose
 * `getmtime` or `remove` raises are a parameter too.
 */
module Cleanup {
  import opened Wrappers
  import opened PathUtil
  import opened Storage

  /** What `old_file_clean` ends with. */
  datatype CleanOutcome =
    | InvalidDate             // "Invalid date format. Use YYYY-MM-DD"
    | NotFound                // `ensure_exists` printed that the folder does not exist
    | NotADirectory           // `os.listdir` raised on a regular file; the exception escapes
    | Cleaned(deleted: nat)   // "Total files deleted: n", or "No files deleted." for 0

  /** The modification time lies strictly inside the window; the boundaries are kept. */
  predicate InWindow(mtime: int, start: int, end: int) {
    start < mtime < end
  }

  /** The files the clean deletes: regular files directly in `dir`, inside the window, whose calls do not raise. */
  function Doomed(d: Disk, dir: Path, start: int, end: int, failing: set<Path>): set<Path> {
    set q | q in d.files && IsChild(dir, q) && InWindow(d.files[q].mtime, start, end) && q !in failing
  }

  /** The filesystem after the loop of `old_file_clean` over `dir`. */
  function CleanOn(d: Disk, dir: Path, start: int, end: int, failing: set<Path>): Disk {
    d.(files := d.files - Doomed(d, dir, start, end, failing))
  }

  /**
   * Exactly the doomed files go: a file survives iff it is outside `dir`,
   * in a subfolder of it, outside the window, or its calls raise; survivors
   * keep their content and mtime, and no directory is touched.
   */
  lemma CleanRemovesExactlyWindowFiles(d: Disk, dir: Path, start: int, end: int, failing: set<Path>)
    ensures var r := CleanOn(d, dir, start, end, failing);
      && r.dirs == d.dirs
      && (forall q :: q in r.files ==> q in d.files && r.files[q] == d.files[q])
      && (forall q :: q in d.files ==>
            (q !in r.files <==> IsChild(dir, q) && InWindow(d.files[q].mtime, start, end) && q !in failing))
  {
  }

  /** The number reported is the number of files that disappeared. */
  lemma CleanCount(d: Disk, dir: Path, start: int, end: int, failing: set<Path>)
    ensures |CleanOn(d, dir, start, end, failing).files.Keys| + |Doomed(d, dir, start, end, failing)| == |d.files.Keys|
  {
    var doomed := Doomed(d, dir, start, end, failing);
    var kept := CleanOn(d, dir, start, end, failing).files.Keys;
    assert kept == d.files.Keys - doomed;
    assert d.files.Keys == kept + doomed;
    assert kept * doomed == {};
  }

  /** Cleaning the same folder again with the same window deletes nothing more. */
  lemma CleanIsIdempotent(d: Disk, dir: Path, start: int, end: int, failing: set<Path>)
    ensures var r := CleanOn(d, dir, start, end, failing);
      Doomed(r, dir, start, end, failing) == {} && CleanOn(r, dir, start, end, failing) == r
  {
    var r := CleanOn(d, dir, start, end, failing);
    assert r.files - Doomed(r, dir, start, end, failing) == r.files;
  }

  /** A window with no whole second strictly inside it (for example the dates given in reverse) deletes nothing. */
  lemma EmptyWindowDeletesNothing(d: Disk, dir: Path, start: int, end: int, failing: set<Path>)
    requires end <= start + 1
    ensures CleanOn(d, dir, start, end, failing) == d
  {
    assert Doomed(d, dir, start, end, failing) == {};
    assert d.files - {} == d.files;
  }

  lemma CleanKeepsWellFormed(d: Disk, dir: Path, start: int, end: int, failing: set<Path>)
    requires WellFormed(d)
    ensures WellFormed(CleanOn(d, dir, start, end, failing))
  {
  }

  /**
   * `old_file_clean(path, time_str_s, time_str_e, directory)`, with the
   * parsed dates `start` and `end`, on the folder `path/directory`.
   */
  method OldFileClean(fs: FileSystem, path: Path, start: Option<int>, end: Option<int>, directory: Path, failing: set<Path>)
    returns (outcome: CleanOutcome)
    requires fs.Valid()
    modifies fs
    ensures fs.Valid()
    ensures start.None? || end.None? ==> outcome == InvalidDate && fs.disk == old(fs.disk)
    ensures start.Some? && end.Some? && !Exists(old(fs.disk), path + directory) ==>
      outcome == NotFound && fs.disk == old(fs.disk)
    ensures start.Some? && end.Some? && path + directory in old(fs.disk).files ==>
      outcome == NotADirectory && fs.disk == old(fs.disk)
    ensures start.Some? && end.Some? && IsDirectory(old(fs.disk), path + directory) ==>
      && outcome == Cleaned(|Doomed(old(fs.disk), path + directory, start.value, end.value, failing)|)
      && fs.disk == CleanOn(old(fs.disk), path + directory, start.value, end.value, failing)
  {
    if start.None? || end.None? {
      return InvalidDate;
    }
    var full := path + directory;
    if !fs.PathExists(full) {
      return NotFound;
    }
    if fs.IsFile(full) {
      return NotADirectory;
    }
    var count := DeleteWindowFiles(fs, full, start.value, end.value, failing);
    return Cleaned(count);
  }

  /**
   * After visiting every name of `dir` except those in `pending`, the
   * doomed files deleted so far are exactly those of the visited names.
   */
  ghost predicate Settled(doomed: set<Path>, deleted: set<Path>, dir: Path, pending: set<string>) {
    && deleted <= doomed
    && forall q :: q in doomed ==> |q| > |dir| && (q in deleted <==> q[|dir|] !in pending)
  }

  lemma SettledStep(doomed: set<Path>, deleted: set<Path>, dir: Path, pending: set<string>, name: string, deleted': set<Path>)
    requires Settled(doomed, deleted, dir, pending) && name in pending
    requires forall q :: q in doomed ==> IsChild(dir, q)
    requires deleted' == if dir + [name] in doomed then deleted + {dir + [name]} else deleted
    ensures Settled(doomed, deleted', dir, pending - {name})
  {
    var file := dir + [name];
    forall q | q in doomed ensures q in deleted' <==> q[|dir|] !in pending - {name} {
      if q[|dir|] == name {
        assert q == dir + [q[|dir|]];
      }
    }
  }

  /** While `name` is pending, its file is not yet deleted, and the loop's test on it is the test of `Doomed`. */
  lemma PendingDecision(d0: Disk, dir: Path, start: int, end: int, failing: set<Path>, deleted: set<Path>,
                        names: set<string>, name: string)
    requires Settled(Doomed(d0, dir, start, end, failing), deleted, dir, names) && name in names
    ensures dir + [name] !in deleted
    ensures var c := d0.(files := d0.files - deleted); var file := dir + [name];
      (file in c.files && file !in failing && start < c.files[file].mtime < end) <==> file in Doomed(d0, dir, start, end, failing)
  {
    var file := dir + [name];
    assert file[|dir|] == name;
    assert IsChild(dir, file);
  }

  /** Removing one more file from a disk with `deleted` already gone. */
  lemma RemoveOneMore(d0: Disk, deleted: set<Path>, file: Path)
    ensures RemoveFile(d0.(files := d0.files - deleted), file) == d0.(files := d0.files - (deleted + {file}))
  {
    assert (d0.files - deleted) - {file} == d0.files - (deleted + {file});
  }

  /** The loop of `old_file_clean` over the entries of `dir`, in any order. */
  method DeleteWindowFiles(fs: FileSystem, dir: Path, start: int, end: int, failing: set<Path>) returns (count: nat)
    requires fs.Valid()
    modifies fs
    ensures fs.Valid()
    ensures count == |Doomed(old(fs.disk), dir, start, end, failing)|
    ensures fs.disk == CleanOn(old(fs.disk), dir, start, end, failing)
  {
    ghost var d0 := fs.disk;
    ghost var doomed := Doomed(d0, dir, start, end, failing);
    ghost var deleted: set<Path> := {};
    var names := ListDir(fs.disk, dir);
    assert forall q :: q in doomed ==> q[|dir|] in names;
    count := 0;
    while names != {}
      invariant fs.Valid()
      invariant fs.disk == d0.(files := d0.files - deleted)
      invariant Settled(doomed, deleted, dir, names)
      invariant count == |deleted|
      decreases |names|
    {
      var name :| name in names;
      var file := dir + [name];
      ghost var before := deleted;
      PendingDecision(d0, dir, start, end, failing, deleted, names, name);
      if fs.IsFile(file) && file !in failing && start < fs.disk.files[file].mtime < end {
        fs.Remove(file);
        RemoveOneMore(d0, deleted, file);
        deleted := deleted + {file};
        count := count + 1;
      }
      SettledStep(doomed, before, dir, names, name, deleted);
      names := names - {name};
    }
    assert deleted == doomed;
  }
}
