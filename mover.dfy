/**
 * `move_files`: create the category folder, then move every listed file
 * into it one at a time. A file whose move raises is reported and skipped;
 * the loop goes on with the next one. The errors the model does not track
 * (permissions, a rename across devices that fails) are the `failing` set.
 */
module Mover {
  import opened PathUtil
  import opened Storage

  /** What `move_files` ends with. */
  datatype MoveOutcome =
    | MakeDirsRaised             // `os.makedirs(target_folder, exist_ok=True)` raised; the exception escapes
    | Moved(failed: seq<Path>)   // the files reported with "Failed to move", in list order

  /** `os.path.join(base_path, folder)`. */
  function CategoryFolder(base: Path, folder: string): Path {
    base + [folder]
  }

  /** Where `shutil.move(file, target)` puts the file when `target` is a directory: under its last component. */
  function Destination(target: Path, file: Path): Path
    requires file != []
  {
    target + [file[|file| - 1]]
  }

  /**
   * `shutil.move(file, target)` does not raise: the file exists, nothing is
   * at its destination yet, and the environment does not refuse it.
   */
  predicate MoveSucceeds(d: Disk, target: Path, file: Path, failing: set<Path>) {
    file != [] && file !in failing && CanMove(d, file, Destination(target, file))
  }

  /** The loop of `move_files`, from the end: the disk afterwards and the files it reported. */
  function MoveAll(d: Disk, target: Path, files: seq<Path>, failing: set<Path>): (Disk, seq<Path>) {
    if files == [] then (d, [])
    else
      var prior := MoveAll(d, target, files[..|files| - 1], failing);
      var file := files[|files| - 1];
      if MoveSucceeds(prior.0, target, file, failing) then
        (MoveFile(prior.0, file, Destination(target, file)), prior.1)
      else
        (prior.0, prior.1 + [file])
  }

  /** `move_files(file_list, folder, base_path)` as a function of the filesystem. */
  function MoveFilesOn(d: Disk, files: seq<Path>, folder: string, base: Path, failing: set<Path>): (Disk, MoveOutcome) {
    var target := CategoryFolder(base, folder);
    match MakeDirsOn(d, target, failing)
    case None => (d, MakeDirsRaised)
    case Some(d1) =>
      var r := MoveAll(d1, target, files, failing);
      (r.0, Moved(r.1))
  }

  lemma MoveAllSnoc(d: Disk, target: Path, files: seq<Path>, file: Path, failing: set<Path>)
    ensures var prior := MoveAll(d, target, files, failing);
      MoveAll(d, target, files + [file], failing) ==
        if MoveSucceeds(prior.0, target, file, failing) then (MoveFile(prior.0, file, Destination(target, file)), prior.1)
        else (prior.0, prior.1 + [file])
  {
    assert (files + [file])[..|files|] == files;
  }

  /**
   * Moving into a directory is a rename that loses nothing: directories are
   * untouched; a file still at its path kept its content; a file that is
   * gone was listed and now lives, with the same content and mtime, at its
   * destination in the target folder, where nothing was before; every new
   * file is in the target folder; and the number of files is the same.
   */
  predicate Conserved(d: Disk, r: Disk, target: Path, files: seq<Path>) {
    && r.dirs == d.dirs
    && (forall p :: p in d.files && p in r.files ==> r.files[p] == d.files[p])
    && (forall p :: p in d.files && p !in r.files ==>
          && p in files && p != [] && Parent(p) != target
          && Destination(target, p) !in d.files
          && Destination(target, p) in r.files && r.files[Destination(target, p)] == d.files[p])
    && (forall t :: t in r.files && t !in d.files ==> IsChild(target, t))
    && |r.files.Keys| == |d.files.Keys|
  }

  lemma CardinalityOfRename(keys: set<Path>, source: Path, target: Path)
    requires source in keys && target !in keys
    ensures |(keys - {source}) + {target}| == |keys|
  {
    assert |keys - {source}| == |keys| - 1;
  }

  /** One successful move keeps `Conserved`. */
  lemma MoveStepConserves(d: Disk, r: Disk, target: Path, files: seq<Path>, file: Path, failing: set<Path>)
    requires Conserved(d, r, target, files)
    requires MoveSucceeds(r, target, file, failing)
    ensures Conserved(d, MoveFile(r, file, Destination(target, file)), target, files + [file])
  {
    var dst := Destination(target, file);
    var r' := MoveFile(r, file, dst);
    assert Parent(dst) == target;
    assert IsChild(target, dst);
    assert file != dst && file == Parent(file) + [file[|file| - 1]];
    assert Parent(file) != target;
    assert file in d.files;
    assert dst !in d.files;
    forall p | p in d.files && p !in r'.files
      ensures && p != [] && Parent(p) != target && Destination(target, p) !in d.files
              && Destination(target, p) in r'.files && r'.files[Destination(target, p)] == d.files[p]
    {
      if p != file {
        assert p !in r.files;
        assert Destination(target, p) != file;
      }
    }
    assert r'.files.Keys == (r.files.Keys - {file}) + {dst};
    CardinalityOfRename(r.files.Keys, file, dst);
  }

  /** The whole loop keeps `Conserved`, and the filesystem stays well formed. */
  lemma {:induction false} MoveAllConserves(d: Disk, target: Path, files: seq<Path>, failing: set<Path>)
    requires WellFormed(d) && target in d.dirs
    ensures WellFormed(MoveAll(d, target, files, failing).0)
    ensures Conserved(d, MoveAll(d, target, files, failing).0, target, files)
  {
    if files != [] {
      var init := files[..|files| - 1];
      var file := files[|files| - 1];
      assert files == init + [file];
      MoveAllConserves(d, target, init, failing);
      var prior := MoveAll(d, target, init, failing);
      if MoveSucceeds(prior.0, target, file, failing) {
        MoveFileKeepsWellFormed(prior.0, file, Destination(target, file));
        MoveStepConserves(d, prior.0, target, init, file, failing);
      } else {
        assert Conserved(d, prior.0, target, init + [file]);
      }
    }
  }

  /** A file that moves was on the disk from the start and leaves its old path for good. */
  lemma MovedFileWasOriginal(d: Disk, r: Disk, target: Path, files: seq<Path>, file: Path, failing: set<Path>)
    requires Conserved(d, r, target, files)
    requires MoveSucceeds(r, target, file, failing)
    ensures file in d.files && Parent(file) != target
    ensures forall f :: f in d.files && f !in r.files ==> f != Destination(target, file)
  {
    var dst := Destination(target, file);
    assert file != dst && file == Parent(file) + [file[|file| - 1]];
    assert Parent(dst) == target;
  }

  /**
   * Every reported file was listed, and a listed file that was never
   * reported was on the disk and has left its old path.
   */
  lemma {:induction false} ReportedFailures(d: Disk, target: Path, files: seq<Path>, failing: set<Path>)
    requires WellFormed(d) && target in d.dirs
    ensures var r := MoveAll(d, target, files, failing);
      && (forall f :: f in r.1 ==> f in files)
      && (forall f :: f in files && f !in r.1 ==> f in d.files && f !in r.0.files)
  {
    if files != [] {
      var init := files[..|files| - 1];
      var file := files[|files| - 1];
      assert files == init + [file];
      ReportedFailures(d, target, init, failing);
      MoveAllConserves(d, target, init, failing);
      var prior := MoveAll(d, target, init, failing);
      if MoveSucceeds(prior.0, target, file, failing) {
        MovedFileWasOriginal(d, prior.0, target, init, file, failing);
      }
    }
  }

  /** `files` with every occurrence of `f` taken out. */
  function Without(files: seq<Path>, f: Path): (r: seq<Path>)
    ensures f !in r
    ensures forall g :: g in r <==> g in files && g != f
  {
    if files == [] then []
    else
      var init := Without(files[..|files| - 1], f);
      var last := files[|files| - 1];
      assert forall g :: g in files <==> g in files[..|files| - 1] || g == last;
      if last == f then init else init + [last]
  }

  /**
   * A file the environment refuses, wherever and however often it is
   * listed: leaving it out gives the same filesystem, and the reports
   * differ only in it.
   */
  lemma {:induction false} FailingFileIsIsolated(d: Disk, target: Path, files: seq<Path>, f: Path, failing: set<Path>)
    requires f in failing
    ensures MoveAll(d, target, files, failing).0 == MoveAll(d, target, Without(files, f), failing).0
    ensures Without(MoveAll(d, target, files, failing).1, f) == MoveAll(d, target, Without(files, f), failing).1
  {
    if files != [] {
      var init := files[..|files| - 1];
      var last := files[|files| - 1];
      FailingFileIsIsolated(d, target, init, f, failing);
      var prior := MoveAll(d, target, init, failing);
      var failed := prior.1;
      if last != f {
        MoveAllSnoc(d, target, Without(init, f), last, failing);
        if !MoveSucceeds(prior.0, target, last, failing) {
          assert (failed + [last])[..|failed|] == failed;
        }
      } else {
        assert (failed + [last])[..|failed|] == failed;
      }
    }
  }

  /** The loop over `a + b` is the loop over `a` followed by the loop over `b` from where it left off. */
  lemma {:induction false} MoveAllConcat(d: Disk, target: Path, a: seq<Path>, b: seq<Path>, failing: set<Path>)
    ensures var first := MoveAll(d, target, a, failing);
      var second := MoveAll(first.0, target, b, failing);
      MoveAll(d, target, a + b, failing) == (second.0, first.1 + second.1)
  {
    var first := MoveAll(d, target, a, failing);
    if b == [] {
      assert a + b == a;
      assert first.1 + [] == first.1;
    } else {
      var init := b[..|b| - 1];
      var last := b[|b| - 1];
      assert a + b == (a + init) + [last];
      assert b == init + [last];
      MoveAllConcat(d, target, a, init, failing);
      MoveAllSnoc(d, target, a + init, last, failing);
      MoveAllSnoc(first.0, target, init, last, failing);
      var mid := MoveAll(first.0, target, init, failing);
      assert first.1 + (mid.1 + [last]) == (first.1 + mid.1) + [last];
    }
  }

  /**
   * Failure isolation: a file whose move raises, for whatever reason (it is
   * gone, its destination is taken, the environment refuses it), changes
   * nothing. The files after it move exactly as if it had not been listed,
   * and the only difference in the report is that file, in its place.
   */
  lemma FailedMoveIsIsolated(d: Disk, target: Path, a: seq<Path>, f: Path, b: seq<Path>, failing: set<Path>)
    requires !MoveSucceeds(MoveAll(d, target, a, failing).0, target, f, failing)
    ensures MoveAll(d, target, a + [f] + b, failing).0 == MoveAll(d, target, a + b, failing).0
    ensures var first := MoveAll(d, target, a, failing);
      var rest := MoveAll(first.0, target, b, failing).1;
      && MoveAll(d, target, a + [f] + b, failing).1 == first.1 + [f] + rest
      && MoveAll(d, target, a + b, failing).1 == first.1 + rest
  {
    var first := MoveAll(d, target, a, failing);
    MoveAllSnoc(d, target, a, f, failing);
    MoveAllConcat(d, target, a + [f], b, failing);
    MoveAllConcat(d, target, a, b, failing);
  }

  /** Moving a list that was already moved moves nothing more: every file is reported, and nothing changes. */
  lemma {:induction false} SecondMoveChangesNothing(d: Disk, target: Path, files: seq<Path>, failing: set<Path>)
    requires WellFormed(d) && target in d.dirs
    requires forall f :: f in files ==> f !in d.files
    ensures MoveAll(d, target, files, failing) == (d, files)
  {
    if files != [] {
      var init := files[..|files| - 1];
      assert files == init + [files[|files| - 1]];
      SecondMoveChangesNothing(d, target, init, failing);
    }
  }

  /** The destinations of the listed files. */
  function Destinations(target: Path, files: seq<Path>): set<Path> {
    set f | f in files && f != [] :: Destination(target, f)
  }

  /** Every listed file is on the disk, is not refused, and has a free destination. */
  predicate Movable(d: Disk, target: Path, files: seq<Path>, failing: set<Path>) {
    forall f :: f in files ==> f != [] && f in d.files && f !in failing && !Exists(d, Destination(target, f))
  }

  /** No two listed files share a last component, so no two share a destination. */
  predicate DistinctNames(files: seq<Path>) {
    forall i, j :: 0 <= i < j < |files| && files[i] != [] && files[j] != [] ==>
      files[i][|files[i]| - 1] != files[j][|files[j]| - 1]
  }

  /** Every listed file of `d` has left its path for its destination in `r`, and nothing else is new. */
  predicate AllMoved(d: Disk, r: Disk, target: Path, files: seq<Path>) {
    && (forall f :: f in files && f != [] && f in d.files ==>
          && f !in r.files
          && Destination(target, f) in r.files
          && r.files[Destination(target, f)] == d.files[f])
    && (forall p :: p in r.files && p !in d.files ==> p in Destinations(target, files))
  }

  /** One more movable file whose name no earlier file has moves, and `AllMoved` grows by it. */
  lemma MovableStep(d: Disk, prior: Disk, target: Path, init: seq<Path>, file: Path, failing: set<Path>)
    requires target in d.dirs && Movable(d, target, init + [file], failing)
    requires prior.dirs == d.dirs && (forall p :: p in d.files && p !in prior.files ==> p in init)
    requires forall p :: p in d.files && p in prior.files ==> prior.files[p] == d.files[p]
    requires AllMoved(d, prior, target, init)
    requires file != [] && forall f :: f in init && f != [] ==> Destination(target, f) != Destination(target, file)
    ensures MoveSucceeds(prior, target, file, failing)
    ensures AllMoved(d, MoveFile(prior, file, Destination(target, file)), target, init + [file])
  {
    var dst := Destination(target, file);
    assert file in init + [file];
    assert forall f :: f in init ==> f in init + [file];
    assert file !in init;
    assert file in prior.files;
    assert dst !in d.files && dst !in Destinations(target, init);
    assert dst !in prior.files;
    assert Parent(dst) == target;
    var r := MoveFile(prior, file, dst);
    forall f | f in init + [file]
      ensures f !in r.files && Destination(target, f) in r.files && r.files[Destination(target, f)] == d.files[f]
    {
      if f != file {
        assert f in init;
        assert Destination(target, f) != file && f != dst;
      }
    }
    forall p | p in r.files && p !in d.files ensures p in Destinations(target, init + [file]) {
      if p != dst {
        assert p in Destinations(target, init);
      }
    }
  }

  lemma DistinctNamesOfPrefix(files: seq<Path>, n: nat)
    requires n <= |files| && DistinctNames(files)
    ensures DistinctNames(files[..n])
  {
    forall i, j | 0 <= i < j < n ensures files[..n][i] == files[i] && files[..n][j] == files[j] { }
  }

  /** The last file's destination differs from that of every earlier file. */
  lemma NewNameIsNewDestination(target: Path, files: seq<Path>)
    requires files != [] && files[|files| - 1] != [] && DistinctNames(files)
    ensures var last := files[|files| - 1];
      forall f :: f in files[..|files| - 1] && f != [] ==> Destination(target, f) != Destination(target, last)
  {
    var n := |files| - 1;
    var last := files[n];
    forall f | f in files[..n] && f != [] ensures Destination(target, f) != Destination(target, last) {
      var i :| 0 <= i < n && files[..n][i] == f;
      assert files[i] == f;
      assert Destination(target, f)[|target|] == f[|f| - 1];
      assert Destination(target, last)[|target|] == last[|last| - 1];
    }
  }

  /**
   * The success direction of the loop: when every listed file is on the
   * disk, is not refused, has a free destination, and no two listed files
   * share a last component, nothing is reported and every file has left its
   * path for its destination, content and mtime included. The only files
   * this creates are those destinations.
   */
  lemma {:induction false} MovableFilesAreMoved(d: Disk, target: Path, files: seq<Path>, failing: set<Path>)
    requires WellFormed(d) && target in d.dirs
    requires Movable(d, target, files, failing) && DistinctNames(files)
    ensures MoveAll(d, target, files, failing).1 == []
    ensures AllMoved(d, MoveAll(d, target, files, failing).0, target, files)
  {
    if files != [] {
      var n := |files| - 1;
      var init := files[..n];
      var file := files[n];
      assert files == init + [file];
      assert forall f :: f in init ==> f in files;
      assert file in files;
      DistinctNamesOfPrefix(files, n);
      NewNameIsNewDestination(target, files);
      MovableFilesAreMoved(d, target, init, failing);
      MoveAllConserves(d, target, init, failing);
      MovableStep(d, MoveAll(d, target, init, failing).0, target, init, file, failing);
    }
  }

  /**
   * `move_files` after the folder is made: no file is lost, overwritten or
   * created outside the target folder, and failures are isolated.
   */
  lemma MoveFilesConserves(d: Disk, files: seq<Path>, folder: string, base: Path, failing: set<Path>)
    requires WellFormed(d)
    ensures var r := MoveFilesOn(d, files, folder, base, failing);
      r.1.MakeDirsRaised? ==> r.0 == d
    ensures var r := MoveFilesOn(d, files, folder, base, failing);
      r.1.Moved? ==> Conserved(MakeDirsOn(d, CategoryFolder(base, folder), failing).value, r.0, CategoryFolder(base, folder), files)
  {
    var target := CategoryFolder(base, folder);
    if MakeDirsOn(d, target, failing).Some? {
      MakeDirsKeepsWellFormed(d, target, failing);
      assert target[..|target|] == target;
      MoveAllConserves(MakeDirsOn(d, target, failing).value, target, files, failing);
    }
  }

  /**
   * `move_files` succeeds for every file it can: once the category folder
   * is made, a list of movable files with distinct names is moved entirely,
   * nothing is reported, and each file sits in the category folder under
   * its own name with its content and mtime.
   */
  lemma MoveFilesMovesMovable(d: Disk, files: seq<Path>, folder: string, base: Path, failing: set<Path>)
    requires WellFormed(d) && MoveFilesOn(d, files, folder, base, failing).1.Moved?
    requires Movable(d, CategoryFolder(base, folder), files, failing) && DistinctNames(files)
    ensures var r := MoveFilesOn(d, files, folder, base, failing);
      r.1 == Moved([]) && AllMoved(d, r.0, CategoryFolder(base, folder), files)
  {
    var target := CategoryFolder(base, folder);
    var d1 := MakeDirsOn(d, target, failing).value;
    MakeDirsKeepsWellFormed(d, target, failing);
    assert target[..|target|] == target;
    forall f | f in files ensures !Exists(d1, Destination(target, f)) {
      assert Destination(target, f) !in Prefixes(target);
    }
    MovableFilesAreMoved(d1, target, files, failing);
  }

  /** `move_files(file_list, folder, base_path)`. */
  method MoveFiles(fs: FileSystem, files: seq<Path>, folder: string, base: Path, failing: set<Path>)
    returns (outcome: MoveOutcome)
    requires fs.Valid()
    modifies fs
    ensures fs.Valid()
    ensures (fs.disk, outcome) == MoveFilesOn(old(fs.disk), files, folder, base, failing)
    ensures outcome.Moved? && Movable(old(fs.disk), CategoryFolder(base, folder), files, failing) && DistinctNames(files) ==>
      outcome == Moved([]) && AllMoved(old(fs.disk), fs.disk, CategoryFolder(base, folder), files)
  {
    var target := CategoryFolder(base, folder);
    ghost var d0 := fs.disk;
    var made := fs.MakeDirs(target, failing);
    if !made {
      return MakeDirsRaised;
    }
    MakeDirsKeepsWellFormed(d0, target, failing);
    assert target[..|target|] == target;
    ghost var d1 := fs.disk;
    var failed: seq<Path> := [];
    var k := 0;
    while k < |files|
      invariant 0 <= k <= |files|
      invariant fs.Valid() && target in fs.disk.dirs
      invariant (fs.disk, failed) == MoveAll(d1, target, files[..k], failing)
    {
      var file := files[k];
      assert files[..k + 1] == files[..k] + [file];
      MoveAllSnoc(d1, target, files[..k], file, failing);
      var moved := false;
      if file != [] {
        moved := fs.Move(file, Destination(target, file), file in failing);
      }
      if !moved {
        failed := failed + [file];
      }
      k := k + 1;
    }
    assert files[..k] == files;
    if Movable(d0, target, files, failing) && DistinctNames(files) {
      MoveFilesMovesMovable(d0, files, folder, base, failing);
    }
    return Moved(failed);
  }
}
