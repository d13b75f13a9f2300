/**
 * `backup_files`: every file below the base path whose folder path does not
 * contain "Backup" is copied into `<base>/Backup/<today>/<relative folder>/`,
 * unless a file or directory already exists at the target. The walk of the
 * base path (`os.walk`) and today's date string are parameters; so is the set
 * of source paths whose copy fails for a reason the model does not track.
 */
module BackupEngine {
  import opened Wrappers
  import opened PathUtil
  import opened Storage

  /** One triple of `os.walk(base_path)`: a folder and the names of its files. */
  datatype WalkEntry = WalkEntry(folder: Path, filenames: seq<string>)

  /** One file the pass visits: its folder and its name. */
  datatype Visit = Visit(folder: Path, name: string)

  /**
   * What a pass leaves behind: how many files were copied, how many copies
   * raised (and were reported), and whether `folder_check` raised and
   * ended the pass.
   */
  datatype Report = Report(copied: nat, failed: nat, aborted: bool) {
    /** The pass prints "All files already backed up. No new files found." */
    predicate AllBackedUp() {
      !aborted && copied == 0
    }
  }

  datatype PassState = PassState(disk: Disk, report: Report)

  const BackupDirName: string := "Backup"

  /** `os.path.join(base_path, 'Backup', today)`. */
  function BackupRoot(base: Path, today: string): Path {
    base + [BackupDirName, today]
  }

  /** `'Backup' in foldername`: the folder is left out of the backup. */
  predicate Skipped(folder: Path) {
    Contains(PathString(folder), BackupDirName)
  }

  /** The folder the files of `folder` are copied into. */
  function TargetFolder(base: Path, today: string, folder: Path): Path {
    BackupRoot(base, today) + RelPath(folder, base)
  }

  /** Where the file `v` is copied to: below the backup root, in a folder the walk skips. */
  function TargetPath(base: Path, today: string, v: Visit): (r: Path)
    ensures IsUnder(BackupRoot(base, today), r) && |r| > |BackupRoot(base, today)|
    ensures Skipped(Parent(r))
  {
    TargetFolderIsSkipped(base, today, v.folder);
    var r := TargetFolder(base, today, v.folder) + [v.name];
    assert Parent(r) == TargetFolder(base, today, v.folder);
    r
  }

  function Source(v: Visit): Path {
    v.folder + [v.name]
  }

  /** The files of one walk entry, in listing order. */
  function EntryVisits(e: WalkEntry): seq<Visit> {
    seq(|e.filenames|, j requires 0 <= j < |e.filenames| => Visit(e.folder, e.filenames[j]))
  }

  /** The files of the whole walk, in walk order. */
  function Visits(walk: seq<WalkEntry>): seq<Visit> {
    if walk == [] then [] else Visits(walk[..|walk| - 1]) + EntryVisits(walk[|walk| - 1])
  }

  /** The copy succeeds: the source is a regular file, the target folder a directory, and no untracked error occurs. */
  predicate CopySucceeds(d: Disk, source: Path, target: Path, failing: set<Path>) {
    CanCopy(d, source, target) && source !in failing
  }

  /**
   * The body of the inner loop for one file. It never overwrites or removes
   * a file and never removes a directory; the only file it can add is the
   * file's target, holding the source's content and mtime; `copied` grows
   * by exactly the number of files it adds; it counts at most one copy or
   * failure; a failed copy is counted and the pass goes on; only a raising
   * `folder_check` ends the pass; and after an abort it does nothing.
   */
  function CopyStep(s: PassState, base: Path, today: string, v: Visit, failing: set<Path>): (r: PassState)
    ensures forall p :: p in s.disk.files ==> p in r.disk.files && r.disk.files[p] == s.disk.files[p]
    ensures s.disk.dirs <= r.disk.dirs
    ensures forall p :: p in r.disk.files && p !in s.disk.files ==>
      p == TargetPath(base, today, v) && Source(v) in s.disk.files && r.disk.files[p] == s.disk.files[Source(v)]
    ensures s.report.copied <= r.report.copied && s.report.failed <= r.report.failed
    ensures r.report.copied + r.report.failed <= s.report.copied + s.report.failed + 1
    ensures r.report.copied == s.report.copied + (|r.disk.files.Keys| - |s.disk.files.Keys|)
    ensures r.report.failed > s.report.failed ==> !r.report.aborted
    ensures r.report.aborted ==> s.report.aborted || FolderCheckOn(s.disk, TargetFolder(base, today, v.folder), failing).None?
    ensures s.report.aborted ==> r == s
  {
    if s.report.aborted || Skipped(v.folder) then s
    else
      var target := TargetPath(base, today, v);
      if Exists(s.disk, target) then s
      else match FolderCheckOn(s.disk, TargetFolder(base, today, v.folder), failing)
        case None => s.(report := s.report.(aborted := true))
        case Some(d) =>
          if CopySucceeds(d, Source(v), target, failing) then
            assert d.files[target := d.files[Source(v)]].Keys == d.files.Keys + {target};
            PassState(AddFile(d, target, d.files[Source(v)]), s.report.(copied := s.report.copied + 1))
          else
            PassState(d, s.report.(failed := s.report.failed + 1))
  }

  /** The steps for `vs`, one after the other, starting from `s`. */
  function PassFrom(s: PassState, base: Path, today: string, vs: seq<Visit>, failing: set<Path>): PassState {
    if vs == [] then s
    else CopyStep(PassFrom(s, base, today, vs[..|vs| - 1], failing), base, today, vs[|vs| - 1], failing)
  }

  /**
   * `backup_files(base_path)`: create the day's backup root, then visit
   * every file of the walk. No file is overwritten or removed, no directory
   * is removed, and the copy count is the number of files added.
   */
  function BackupPass(d: Disk, base: Path, today: string, walk: seq<WalkEntry>, failing: set<Path>): (r: PassState)
    ensures forall p :: p in d.files ==> p in r.disk.files && r.disk.files[p] == d.files[p]
    ensures d.dirs <= r.disk.dirs
    ensures r.report.copied == |r.disk.files.Keys| - |d.files.Keys|
  {
    match FolderCheckOn(d, BackupRoot(base, today), failing)
      case None => PassState(d, Report(0, 0, true))
      case Some(d1) =>
        PassPreserves(PassState(d1, Report(0, 0, false)), base, today, Visits(walk), failing);
        PassCountsCopies(PassState(d1, Report(0, 0, false)), base, today, Visits(walk), failing);
        PassFrom(PassState(d1, Report(0, 0, false)), base, today, Visits(walk), failing)
  }

  // ----- Structure of the fold -----

  lemma VisitsStep(walk: seq<WalkEntry>, i: nat)
    requires i < |walk|
    ensures Visits(walk[..i + 1]) == Visits(walk[..i]) + EntryVisits(walk[i])
  {
    assert walk[..i + 1][..i] == walk[..i];
  }

  lemma PassFromSnoc(s: PassState, base: Path, today: string, vs: seq<Visit>, v: Visit, failing: set<Path>)
    ensures PassFrom(s, base, today, vs + [v], failing) == CopyStep(PassFrom(s, base, today, vs, failing), base, today, v, failing)
  {
    assert (vs + [v])[..|vs|] == vs;
  }

  /** Running the steps for `a + b` is running those for `a`, then those for `b`. */
  lemma {:induction false} PassFromConcat(s: PassState, base: Path, today: string, a: seq<Visit>, b: seq<Visit>, failing: set<Path>)
    ensures PassFrom(s, base, today, a + b, failing) == PassFrom(PassFrom(s, base, today, a, failing), base, today, b, failing)
  {
    if b == [] {
      assert a + b == a;
    } else {
      var init := b[..|b| - 1];
      assert a + b == (a + init) + [b[|b| - 1]];
      PassFromSnoc(s, base, today, a + init, b[|b| - 1], failing);
      PassFromConcat(s, base, today, a, init, failing);
    }
  }

  /** The pass over the first `j + 1` visits is one more step after the first `j`. */
  lemma PassFromPrefixStep(s: PassState, base: Path, today: string, vs: seq<Visit>, j: nat, failing: set<Path>)
    requires j < |vs|
    ensures PassFrom(s, base, today, vs[..j + 1], failing) == CopyStep(PassFrom(s, base, today, vs[..j], failing), base, today, vs[j], failing)
  {
    assert vs[..j + 1] == vs[..j] + [vs[j]];
    PassFromSnoc(s, base, today, vs[..j], vs[j], failing);
  }

  /** A pass that has aborted within its first `j` visits ends as it was then. */
  lemma PassFromAbortedPrefix(s: PassState, base: Path, today: string, vs: seq<Visit>, j: nat, failing: set<Path>)
    requires j <= |vs| && PassFrom(s, base, today, vs[..j], failing).report.aborted
    ensures PassFrom(s, base, today, vs, failing) == PassFrom(s, base, today, vs[..j], failing)
  {
    assert vs == vs[..j] + vs[j..];
    PassFromConcat(s, base, today, vs[..j], vs[j..], failing);
    AbortedIsFinal(PassFrom(s, base, today, vs[..j], failing), base, today, vs[j..], failing);
  }

  /** Once `folder_check` has raised, nothing more happens. */
  lemma {:induction false} AbortedIsFinal(s: PassState, base: Path, today: string, vs: seq<Visit>, failing: set<Path>)
    requires s.report.aborted
    ensures PassFrom(s, base, today, vs, failing) == s
  {
    if vs != [] {
      AbortedIsFinal(s, base, today, vs[..|vs| - 1], failing);
    }
  }

  /** The files of a folder whose path contains "Backup" are not visited at all. */
  lemma {:induction false} SkippedFolderIsNoOp(s: PassState, base: Path, today: string, e: WalkEntry, failing: set<Path>)
    requires Skipped(e.folder)
    ensures PassFrom(s, base, today, EntryVisits(e), failing) == s
  {
    SkippedVisitsAreNoOps(s, base, today, EntryVisits(e), failing);
  }

  lemma {:induction false} SkippedVisitsAreNoOps(s: PassState, base: Path, today: string, vs: seq<Visit>, failing: set<Path>)
    requires forall k :: 0 <= k < |vs| ==> Skipped(vs[k].folder)
    ensures PassFrom(s, base, today, vs, failing) == s
  {
    if vs != [] {
      SkippedVisitsAreNoOps(s, base, today, vs[..|vs| - 1], failing);
    }
  }

  // ----- Where copies go -----

  /** A file at `<base>/<rest>/<name>` is copied to `<base>/Backup/<today>/<rest>/<name>`. */
  lemma BackupLayout(base: Path, today: string, rest: Path, name: string)
    ensures TargetPath(base, today, Visit(base + rest, name)) == base + ["Backup", today] + rest + [name]
  {
    RelPathBelowBase(base, rest);
  }

  /** The backup's own folders contain "Backup", so a later pass never backs up a backup. */
  lemma TargetFolderIsSkipped(base: Path, today: string, folder: Path)
    ensures Skipped(TargetFolder(base, today, folder))
  {
    var t := TargetFolder(base, today, folder);
    assert t[|base|] == BackupDirName;
    ComponentInPathString(t, |base|);
  }

  // ----- What a pass changes -----

  /** A pass never overwrites or removes a file and never removes a directory; the counters only grow. */
  lemma {:induction false} PassPreserves(s: PassState, base: Path, today: string, vs: seq<Visit>, failing: set<Path>)
    ensures var r := PassFrom(s, base, today, vs, failing);
      && (forall p :: p in s.disk.files ==> p in r.disk.files && r.disk.files[p] == s.disk.files[p])
      && s.disk.dirs <= r.disk.dirs
      && s.report.copied <= r.report.copied
      && s.report.failed <= r.report.failed
      && (s.report.aborted ==> r.report.aborted)
  {
    if vs != [] {
      PassPreserves(s, base, today, vs[..|vs| - 1], failing);
    }
  }

  /** `copied` counts exactly the files a pass adds. */
  lemma {:induction false} PassCountsCopies(s: PassState, base: Path, today: string, vs: seq<Visit>, failing: set<Path>)
    ensures var r := PassFrom(s, base, today, vs, failing);
      r.report.copied == s.report.copied + (|r.disk.files.Keys| - |s.disk.files.Keys|)
  {
    if vs != [] {
      PassCountsCopies(s, base, today, vs[..|vs| - 1], failing);
    }
  }

  /** The `folder_check` of the target folder of the `k`-th visit raises. */
  predicate FolderCheckRaisesAt(s: PassState, base: Path, today: string, vs: seq<Visit>, failing: set<Path>, k: nat)
    requires k < |vs|
  {
    FolderCheckOn(PassFrom(s, base, today, vs[..k], failing).disk, TargetFolder(base, today, vs[k].folder), failing).None?
  }

  /** Only `folder_check` ends a pass: a copy that raises is counted and the walk goes on. */
  lemma {:induction false} OnlyFolderCheckAborts(s: PassState, base: Path, today: string, vs: seq<Visit>, failing: set<Path>)
    requires !s.report.aborted && PassFrom(s, base, today, vs, failing).report.aborted
    ensures exists k :: 0 <= k < |vs| && FolderCheckRaisesAt(s, base, today, vs, failing, k)
  {
    assert vs != [];
    var n := |vs| - 1;
    var init := vs[..n];
    if PassFrom(s, base, today, init, failing).report.aborted {
      OnlyFolderCheckAborts(s, base, today, init, failing);
      var k :| 0 <= k < |init| && FolderCheckRaisesAt(s, base, today, init, failing, k);
      assert init[..k] == vs[..k] && init[k] == vs[k];
      assert FolderCheckRaisesAt(s, base, today, vs, failing, k);
    } else {
      assert FolderCheckRaisesAt(s, base, today, vs, failing, n);
    }
  }

  /** A map that extends `a` without changing it and has as many keys is `a`. */
  lemma ExtensionOfSameSize(a: map<Path, FileInfo>, b: map<Path, FileInfo>)
    requires forall p :: p in a ==> p in b && b[p] == a[p]
    requires |b.Keys| == |a.Keys|
    ensures b == a
  {
    var extra := b.Keys - a.Keys;
    assert b.Keys == a.Keys + extra;
    assert a.Keys !! extra;
    assert |extra| == 0;
    assert b.Keys == a.Keys;
  }

  /**
   * What the report of `backup_files` means: since `copied` is the number
   * of files the pass added, a pass that did not raise prints "All files
   * already backed up" exactly when it left the files as they were.
   */
  lemma AllBackedUpIffUnchanged(d: Disk, base: Path, today: string, walk: seq<WalkEntry>, failing: set<Path>)
    ensures var r := BackupPass(d, base, today, walk, failing);
      !r.report.aborted ==> (r.report.AllBackedUp() <==> r.disk.files == d.files)
  {
    var r := BackupPass(d, base, today, walk, failing);
    if r.report.copied == 0 {
      ExtensionOfSameSize(d.files, r.disk.files);
    }
  }

  /** A pass of `backup_files` that raised did so in a `folder_check`, of the backup root or of a target folder. */
  lemma BackupAbortsOnlyInFolderCheck(d: Disk, base: Path, today: string, walk: seq<WalkEntry>, failing: set<Path>)
    requires BackupPass(d, base, today, walk, failing).report.aborted
    requires FolderCheckOn(d, BackupRoot(base, today), failing).Some?
    ensures var start := PassState(FolderCheckOn(d, BackupRoot(base, today), failing).value, Report(0, 0, false));
      exists k :: 0 <= k < |Visits(walk)| && FolderCheckRaisesAt(start, base, today, Visits(walk), failing, k)
  {
    var start := PassState(FolderCheckOn(d, BackupRoot(base, today), failing).value, Report(0, 0, false));
    assert BackupPass(d, base, today, walk, failing) == PassFrom(start, base, today, Visits(walk), failing);
    OnlyFolderCheckAborts(start, base, today, Visits(walk), failing);
  }

  /**
   * The file at `t`, holding `info`, is the backup of a visited file in a
   * folder that is not skipped: `t` is that file's target and `info` was
   * the file's content and mtime before the pass.
   */
  ghost predicate IsBackupOf(d0: Disk, base: Path, today: string, vs: seq<Visit>, t: Path, info: FileInfo) {
    exists k :: 0 <= k < |vs| && BacksUp(d0, base, today, vs[k], t, info)
  }

  predicate BacksUp(d0: Disk, base: Path, today: string, v: Visit, t: Path, info: FileInfo) {
    && !Skipped(v.folder)
    && t == TargetPath(base, today, v)
    && Source(v) in d0.files
    && d0.files[Source(v)] == info
  }

  /**
   * Every file a pass creates is the backup of a visited file outside the
   * skipped folders, with that file's content and mtime, and it lies in a
   * skipped folder itself.
   */
  lemma {:induction false} NewFilesAreBackups(s: PassState, base: Path, today: string, vs: seq<Visit>, failing: set<Path>)
    ensures var r := PassFrom(s, base, today, vs, failing);
      forall t :: t in r.disk.files && t !in s.disk.files ==>
        IsBackupOf(s.disk, base, today, vs, t, r.disk.files[t]) && Skipped(Parent(t))
  {
    if vs != [] {
      var init := vs[..|vs| - 1];
      var v := vs[|vs| - 1];
      var r0 := PassFrom(s, base, today, init, failing);
      var r := PassFrom(s, base, today, vs, failing);
      NewFilesAreBackups(s, base, today, init, failing);
      PassPreserves(s, base, today, init, failing);
      forall t | t in r.disk.files && t !in s.disk.files
        ensures IsBackupOf(s.disk, base, today, vs, t, r.disk.files[t]) && Skipped(Parent(t))
      {
        if t in r0.disk.files {
          assert r.disk.files[t] == r0.disk.files[t];
          var k :| 0 <= k < |init| && BacksUp(s.disk, base, today, init[k], t, r0.disk.files[t]);
          assert vs[k] == init[k];
        } else {
          // `t` is the target of the last visit, copied from a file that was there before the pass
          assert t == TargetPath(base, today, v);
          var src := Source(v);
          assert src in r0.disk.files;
          assert Parent(src) == v.folder;
          assert src in s.disk.files;
          assert BacksUp(s.disk, base, today, v, t, r.disk.files[t]);
          assert vs[|vs| - 1] == v;
          assert Parent(t) == TargetFolder(base, today, v.folder);
          TargetFolderIsSkipped(base, today, v.folder);
        }
      }
    }
  }

  /** A pass that neither failed nor aborted leaves every non-skipped visited file with something at its target. */
  lemma {:induction false} CompletePassLeavesTargets(s: PassState, base: Path, today: string, vs: seq<Visit>, failing: set<Path>)
    requires var r := PassFrom(s, base, today, vs, failing);
      !r.report.aborted && r.report.failed == s.report.failed
    ensures var r := PassFrom(s, base, today, vs, failing);
      forall v :: v in vs && !Skipped(v.folder) ==> Exists(r.disk, TargetPath(base, today, v))
  {
    if vs != [] {
      var init := vs[..|vs| - 1];
      var last := vs[|vs| - 1];
      var r0 := PassFrom(s, base, today, init, failing);
      var r := PassFrom(s, base, today, vs, failing);
      PassPreserves(s, base, today, init, failing);
      PassPreserves(r0, base, today, [last], failing);
      assert PassFrom(r0, base, today, [last], failing) == r by {
        PassFromSnoc(r0, base, today, [], last, failing);
      }
      CompletePassLeavesTargets(s, base, today, init, failing);
      forall v | v in vs && !Skipped(v.folder) ensures Exists(r.disk, TargetPath(base, today, v)) {
        if v in init {
          assert Exists(r0.disk, TargetPath(base, today, v));
        } else {
          assert v == last;
        }
      }
    }
  }

  /** When every non-skipped visited file already has something at its target, a pass changes nothing. */
  lemma {:induction false} PresentTargetsAreNoOps(s: PassState, base: Path, today: string, vs: seq<Visit>, failing: set<Path>)
    requires forall v :: v in vs && !Skipped(v.folder) ==> Exists(s.disk, TargetPath(base, today, v))
    ensures PassFrom(s, base, today, vs, failing) == s
  {
    if vs != [] {
      var init := vs[..|vs| - 1];
      assert forall v :: v in init ==> v in vs;
      PresentTargetsAreNoOps(s, base, today, init, failing);
    }
  }

  /**
   * After a pass that neither failed nor aborted, a second pass the same
   * day over a walk whose non-skipped files were all visited by the first
   * copies nothing, fails nothing, changes nothing and reports "All files
   * already backed up".
   */
  lemma SecondPassCopiesNothing(d: Disk, base: Path, today: string, walk1: seq<WalkEntry>, walk2: seq<WalkEntry>,
                                failing1: set<Path>, failing2: set<Path>)
    requires var s1 := BackupPass(d, base, today, walk1, failing1);
      !s1.report.aborted && s1.report.failed == 0
    requires forall v :: v in Visits(walk2) && !Skipped(v.folder) ==> v in Visits(walk1)
    ensures var s1 := BackupPass(d, base, today, walk1, failing1);
      && BackupPass(s1.disk, base, today, walk2, failing2) == PassState(s1.disk, Report(0, 0, false))
      && BackupPass(s1.disk, base, today, walk2, failing2).report.AllBackedUp()
  {
    var root := BackupRoot(base, today);
    var s1 := BackupPass(d, base, today, walk1, failing1);
    var d1 := FolderCheckOn(d, root, failing1).value;
    var start := PassState(d1, Report(0, 0, false));
    CompletePassLeavesTargets(start, base, today, Visits(walk1), failing1);
    PassPreserves(start, base, today, Visits(walk1), failing1);
    assert Exists(s1.disk, root);
    PresentTargetsAreNoOps(PassState(s1.disk, Report(0, 0, false)), base, today, Visits(walk2), failing2);
  }

  /** Two files below the base with the same target are the same file. */
  lemma TargetsAreDistinct(base: Path, today: string, v: Visit, w: Visit)
    requires IsUnder(base, v.folder) && IsUnder(base, w.folder)
    requires TargetPath(base, today, v) == TargetPath(base, today, w)
    ensures Source(v) == Source(w)
  {
    var rv := v.folder[|base|..];
    var rw := w.folder[|base|..];
    BelowBase(base, today, v.folder);
    BelowBase(base, today, w.folder);
    var root := BackupRoot(base, today);
    SameTailAfterRoot(root, rv, v.name, rw, w.name);
    assert Source(v) == base + (rv + [v.name]);
    assert Source(w) == base + (rw + [w.name]);
  }

  /** Two paths `root + a + [x]` and `root + b + [y]` that are equal have equal tails. */
  lemma SameTailAfterRoot(root: Path, a: Path, x: string, b: Path, y: string)
    requires (root + a) + [x] == (root + b) + [y]
    ensures a + [x] == b + [y]
  {
    assert (root + a) + [x] == root + (a + [x]);
    assert (root + b) + [y] == root + (b + [y]);
    assert (root + (a + [x]))[|root|..] == a + [x];
    assert (root + (b + [y]))[|root|..] == b + [y];
  }

  /** `walk` is what `os.walk(base)` yields on `d`: every regular file below `base`, and nothing else. */
  ghost predicate WalksTree(d: Disk, base: Path, walk: seq<WalkEntry>) {
    forall v :: v in Visits(walk) <==> Source(v) in d.files && IsUnder(base, v.folder)
  }

  /** `q` is one of the folders `folder_check` creates for some visit of `vs`. */
  ghost predicate MadeFor(base: Path, today: string, vs: seq<Visit>, q: Path) {
    exists k :: 0 <= k < |vs| && q in Prefixes(TargetFolder(base, today, vs[k].folder))
  }

  /** Every directory a pass creates is a target folder of one of its visits, or a prefix of one. */
  lemma {:induction false} NewDirsAreTargetFolders(s: PassState, base: Path, today: string, vs: seq<Visit>, failing: set<Path>)
    ensures var r := PassFrom(s, base, today, vs, failing);
      forall q :: q in r.disk.dirs && q !in s.disk.dirs ==> MadeFor(base, today, vs, q)
  {
    if vs != [] {
      var init := vs[..|vs| - 1];
      var v := vs[|vs| - 1];
      var r0 := PassFrom(s, base, today, init, failing);
      var r := PassFrom(s, base, today, vs, failing);
      NewDirsAreTargetFolders(s, base, today, init, failing);
      assert r.disk.dirs <= r0.disk.dirs + Prefixes(TargetFolder(base, today, v.folder));
      forall q | q in r.disk.dirs && q !in s.disk.dirs ensures MadeFor(base, today, vs, q) {
        if q in r0.disk.dirs {
          var k :| 0 <= k < |init| && q in Prefixes(TargetFolder(base, today, init[k].folder));
          assert vs[k] == init[k];
        } else {
          assert vs[|vs| - 1] == v;
        }
      }
    }
  }

  /** In a well-formed tree no regular file lies on the folder path of another. */
  lemma SourceIsNoFolderOf(d: Disk, v: Visit, w: Visit)
    requires WellFormed(d) && Source(v) in d.files && Source(w) in d.files && |Source(v)| <= |w.folder|
    ensures w.folder[..|Source(v)|] != Source(v)
  {
    PrefixOfEntryIsDir(d, Source(w), |Source(v)|);
    assert Source(w)[..|Source(v)|] == w.folder[..|Source(v)|];
  }

  /** A folder below `base` is `base` followed by its relative path, and so is its target folder below the backup root. */
  lemma BelowBase(base: Path, today: string, folder: Path)
    requires IsUnder(base, folder)
    ensures folder == base + folder[|base|..]
    ensures TargetFolder(base, today, folder) == BackupRoot(base, today) + folder[|base|..]
  {
    assert folder == base + folder[|base|..];
    RelPathBelowBase(base, folder[|base|..]);
  }

  /**
   * In a well-formed tree, the target of a file is never one of the folders
   * made for another file: that would put the first file on the second
   * file's folder path, where only directories are.
   */
  lemma TargetIsNoFolderPrefix(d: Disk, base: Path, today: string, v: Visit, w: Visit)
    requires WellFormed(d) && Source(v) in d.files && Source(w) in d.files
    requires IsUnder(base, v.folder) && IsUnder(base, w.folder)
    ensures TargetPath(base, today, v) !in Prefixes(TargetFolder(base, today, w.folder))
  {
    var rv := v.folder[|base|..];
    var rw := w.folder[|base|..];
    BelowBase(base, today, v.folder);
    BelowBase(base, today, w.folder);
    var root := BackupRoot(base, today);
    assert TargetPath(base, today, v) == root + (rv + [v.name]);
    if |rv| + 1 <= |rw| {
      assert Source(v) == base + (rv + [v.name]);
      SourceIsNoFolderOf(d, v, w);
      TailsDiffer(base, root, rv + [v.name], rw);
    }
  }

  /** Prefixes of `base + b` and `root + b` of matching length differ from `base + a` and `root + a` together. */
  lemma TailsDiffer(base: Path, root: Path, a: Path, b: Path)
    requires |a| <= |b| && (base + b)[..|base| + |a|] != base + a
    ensures root + a !in Prefixes(root + b)
  {
    assert (base + b)[..|base| + |a|] == base + b[..|a|];
    assert b[..|a|] != a;
    forall k | 1 <= k <= |root + b| ensures (root + b)[..k] != root + a {
      if k == |root| + |a| {
        assert (root + b)[..k] == root + b[..|a|];
        assert (root + b[..|a|])[|root|..] == b[..|a|];
        assert (root + a)[|root|..] == a;
      }
    }
  }

  /**
   * The backup mirrors the tree: after a pass that neither failed nor
   * aborted over the walk of a well-formed tree, every file outside the
   * skipped folders whose target was free now has a regular file at its
   * target holding its content and mtime.
   */
  lemma CompletePassMirrorsFiles(d: Disk, base: Path, today: string, walk: seq<WalkEntry>, failing: set<Path>, v: Visit)
    requires var s := BackupPass(d, base, today, walk, failing);
      !s.report.aborted && s.report.failed == 0
    requires WellFormed(d) && WalksTree(d, base, walk)
    requires v in Visits(walk) && !Skipped(v.folder) && !Exists(d, TargetPath(base, today, v))
    ensures var s := BackupPass(d, base, today, walk, failing);
      && Source(v) in d.files
      && TargetPath(base, today, v) in s.disk.files
      && s.disk.files[TargetPath(base, today, v)] == d.files[Source(v)]
  {
    var root := BackupRoot(base, today);
    var d1 := FolderCheckOn(d, root, failing).value;
    var t := TargetPath(base, today, v);
    assert |root| < |t|;
    assert t !in Prefixes(root);
    FolderCheckKeepsWellFormed(d, root, failing);
    MirrorFrom(PassState(d1, Report(0, 0, false)), base, today, Visits(walk), failing, v);
  }

  /** The mirroring property for any run of visits of files of a well-formed tree, from any starting state. */
  lemma MirrorFrom(start: PassState, base: Path, today: string, vs: seq<Visit>, failing: set<Path>, v: Visit)
    requires var r := PassFrom(start, base, today, vs, failing);
      !r.report.aborted && r.report.failed == start.report.failed
    requires WellFormed(start.disk)
    requires forall w :: w in vs ==> IsUnder(base, w.folder) && Source(w) in start.disk.files
    requires v in vs && !Skipped(v.folder) && !Exists(start.disk, TargetPath(base, today, v))
    ensures var r := PassFrom(start, base, today, vs, failing);
      && Source(v) in start.disk.files
      && TargetPath(base, today, v) in r.disk.files
      && r.disk.files[TargetPath(base, today, v)] == start.disk.files[Source(v)]
  {
    var r := PassFrom(start, base, today, vs, failing);
    var t := TargetPath(base, today, v);
    CompletePassLeavesTargets(start, base, today, vs, failing);
    NewDirsAreTargetFolders(start, base, today, vs, failing);
    forall k | 0 <= k < |vs| ensures t !in Prefixes(TargetFolder(base, today, vs[k].folder)) {
      TargetIsNoFolderPrefix(start.disk, base, today, v, vs[k]);
    }
    assert !MadeFor(base, today, vs, t);
    assert t !in r.disk.dirs;
    assert t in r.disk.files;
    NewFilesAreBackups(start, base, today, vs, failing);
    var k :| 0 <= k < |vs| && BacksUp(start.disk, base, today, vs[k], t, r.disk.files[t]);
    TargetsAreDistinct(base, today, v, vs[k]);
  }

  /**
   * A file whose own copy cannot raise (its source is not refused and its
   * target folder is not a regular file) gets something at its target in
   * any pass that does not abort, whatever happens to the other files.
   */
  lemma {:induction false} TargetReached(start: PassState, base: Path, today: string, vs: seq<Visit>, failing: set<Path>, v: Visit)
    requires !PassFrom(start, base, today, vs, failing).report.aborted
    requires WellFormed(start.disk)
    requires forall w :: w in vs ==> IsUnder(base, w.folder) && Source(w) in start.disk.files
    requires v in vs && !Skipped(v.folder) && Source(v) !in failing
    requires TargetFolder(base, today, v.folder) !in start.disk.files
    ensures Exists(PassFrom(start, base, today, vs, failing).disk, TargetPath(base, today, v))
  {
    var init := vs[..|vs| - 1];
    var last := vs[|vs| - 1];
    var r0 := PassFrom(start, base, today, init, failing);
    assert PassFrom(start, base, today, vs, failing) == CopyStep(r0, base, today, last, failing);
    if v in init {
      assert !r0.report.aborted;
      assert forall w :: w in init ==> w in vs;
      TargetReached(start, base, today, init, failing, v);
    } else {
      assert v == last;
      PassPreserves(start, base, today, init, failing);
      assert forall w :: w in init ==> w in vs;
      FolderIsNoNewFile(start, base, today, init, failing, v);
      LastTargetReached(r0, base, today, v, failing);
    }
  }

  /** A pass never creates a regular file where the target folder of a file below the base path belongs. */
  lemma FolderIsNoNewFile(start: PassState, base: Path, today: string, vs: seq<Visit>, failing: set<Path>, v: Visit)
    requires WellFormed(start.disk)
    requires forall w :: w in vs ==> IsUnder(base, w.folder) && Source(w) in start.disk.files
    requires IsUnder(base, v.folder) && Source(v) in start.disk.files
    requires TargetFolder(base, today, v.folder) !in start.disk.files
    ensures TargetFolder(base, today, v.folder) !in PassFrom(start, base, today, vs, failing).disk.files
  {
    var folder := TargetFolder(base, today, v.folder);
    var r := PassFrom(start, base, today, vs, failing);
    assert folder[..|folder|] == folder;
    assert folder in Prefixes(folder);
    NewFilesAreBackups(start, base, today, vs, failing);
    if folder in r.disk.files {
      var k :| 0 <= k < |vs| && BacksUp(start.disk, base, today, vs[k], folder, r.disk.files[folder]);
      assert vs[k] in vs;
      TargetIsNoFolderPrefix(start.disk, base, today, vs[k], v);
    }
  }

  /** The step for a file whose copy cannot raise leaves something at its target unless it aborts. */
  lemma LastTargetReached(s: PassState, base: Path, today: string, v: Visit, failing: set<Path>)
    requires !CopyStep(s, base, today, v, failing).report.aborted
    requires !Skipped(v.folder) && Source(v) in s.disk.files && Source(v) !in failing
    requires TargetFolder(base, today, v.folder) !in s.disk.files
    ensures Exists(CopyStep(s, base, today, v, failing).disk, TargetPath(base, today, v))
  {
    var t := TargetPath(base, today, v);
    if !Exists(s.disk, t) {
      var folder := TargetFolder(base, today, v.folder);
      var d := FolderCheckOn(s.disk, folder, failing).value;
      assert folder != [];
      assert folder in d.dirs;
      assert Parent(t) == folder;
      assert CopySucceeds(d, Source(v), t, failing);
    }
  }

  /**
   * Per-file failures are isolated: in a pass that does not abort, a file
   * whose own copy cannot raise is mirrored at its free target, even when
   * the copies of other files fail.
   */
  lemma MirrorDespiteFailures(start: PassState, base: Path, today: string, vs: seq<Visit>, failing: set<Path>, v: Visit)
    requires !PassFrom(start, base, today, vs, failing).report.aborted
    requires WellFormed(start.disk)
    requires forall w :: w in vs ==> IsUnder(base, w.folder) && Source(w) in start.disk.files
    requires v in vs && !Skipped(v.folder) && !Exists(start.disk, TargetPath(base, today, v))
    requires Source(v) !in failing && TargetFolder(base, today, v.folder) !in start.disk.files
    ensures var r := PassFrom(start, base, today, vs, failing);
      && TargetPath(base, today, v) in r.disk.files
      && r.disk.files[TargetPath(base, today, v)] == start.disk.files[Source(v)]
  {
    var r := PassFrom(start, base, today, vs, failing);
    var t := TargetPath(base, today, v);
    TargetReached(start, base, today, vs, failing, v);
    NewDirsAreTargetFolders(start, base, today, vs, failing);
    forall k | 0 <= k < |vs| ensures t !in Prefixes(TargetFolder(base, today, vs[k].folder)) {
      TargetIsNoFolderPrefix(start.disk, base, today, v, vs[k]);
    }
    assert !MadeFor(base, today, vs, t);
    assert t in r.disk.files;
    NewFilesAreBackups(start, base, today, vs, failing);
    var k :| 0 <= k < |vs| && BacksUp(start.disk, base, today, vs[k], t, r.disk.files[t]);
    TargetsAreDistinct(base, today, v, vs[k]);
  }

  /**
   * `backup_files` isolates per-file failures: after a pass over the walk
   * of a well-formed tree that did not raise, every file outside the
   * skipped folders whose own copy cannot raise and whose target was free
   * is mirrored there, however many other copies failed.
   */
  lemma BackupMirrorsDespiteFailures(d: Disk, base: Path, today: string, walk: seq<WalkEntry>, failing: set<Path>, v: Visit)
    requires !BackupPass(d, base, today, walk, failing).report.aborted
    requires WellFormed(d) && WalksTree(d, base, walk)
    requires v in Visits(walk) && !Skipped(v.folder) && !Exists(d, TargetPath(base, today, v))
    requires Source(v) !in failing && TargetFolder(base, today, v.folder) !in d.files
    ensures var s := BackupPass(d, base, today, walk, failing);
      && Source(v) in d.files
      && TargetPath(base, today, v) in s.disk.files
      && s.disk.files[TargetPath(base, today, v)] == d.files[Source(v)]
  {
    var root := BackupRoot(base, today);
    var d1 := FolderCheckOn(d, root, failing).value;
    var t := TargetPath(base, today, v);
    assert |root| < |t|;
    assert t !in Prefixes(root);
    FolderCheckKeepsWellFormed(d, root, failing);
    MirrorDespiteFailures(PassState(d1, Report(0, 0, false)), base, today, Visits(walk), failing, v);
  }

  /**
   * Idempotence on one day, for the walks `os.walk` yields: after a pass
   * over the walk of `d` that neither failed nor aborted, a pass over the
   * walk of the tree it left copies nothing and reports "All files already
   * backed up".
   */
  lemma BackupIsIdempotent(d: Disk, base: Path, today: string, walk1: seq<WalkEntry>, walk2: seq<WalkEntry>,
                           failing1: set<Path>, failing2: set<Path>)
    requires var s1 := BackupPass(d, base, today, walk1, failing1);
      !s1.report.aborted && s1.report.failed == 0
    requires WalksTree(d, base, walk1)
    requires WalksTree(BackupPass(d, base, today, walk1, failing1).disk, base, walk2)
    ensures var s1 := BackupPass(d, base, today, walk1, failing1);
      && BackupPass(s1.disk, base, today, walk2, failing2) == PassState(s1.disk, Report(0, 0, false))
      && BackupPass(s1.disk, base, today, walk2, failing2).report.AllBackedUp()
  {
    var root := BackupRoot(base, today);
    var s1 := BackupPass(d, base, today, walk1, failing1);
    var d1 := FolderCheckOn(d, root, failing1).value;
    var start := PassState(d1, Report(0, 0, false));
    NewFilesAreBackups(start, base, today, Visits(walk1), failing1);
    forall v | v in Visits(walk2) && !Skipped(v.folder) ensures v in Visits(walk1) {
      assert Parent(Source(v)) == v.folder;
      assert Source(v) in s1.disk.files;
      assert Source(v) in d1.files;
    }
    SecondPassCopiesNothing(d, base, today, walk1, walk2, failing1, failing2);
  }

  /** A base path that itself contains "Backup" skips every folder below it: nothing is ever copied. */
  lemma BackupBaseCopiesNothing(d: Disk, base: Path, today: string, walk: seq<WalkEntry>, failing: set<Path>)
    requires Contains(PathString(base), BackupDirName)
    requires forall e :: e in walk ==> IsUnder(base, e.folder)
    ensures BackupPass(d, base, today, walk, failing).report.copied == 0
    ensures BackupPass(d, base, today, walk, failing).disk.files == d.files
  {
    var vs := Visits(walk);
    VisitsUnder(walk, base);
    forall k | 0 <= k < |vs| ensures Skipped(vs[k].folder) {
      var folder := vs[k].folder;
      assert folder == base + folder[|base|..];
      PathStringPrefix(base, folder[|base|..]);
    }
    var root := BackupRoot(base, today);
    if FolderCheckOn(d, root, failing).Some? {
      SkippedVisitsAreNoOps(PassState(FolderCheckOn(d, root, failing).value, Report(0, 0, false)), base, today, vs, failing);
    }
  }

  lemma {:induction false} VisitsUnder(walk: seq<WalkEntry>, base: Path)
    requires forall e :: e in walk ==> IsUnder(base, e.folder)
    ensures forall v :: v in Visits(walk) ==> IsUnder(base, v.folder)
  {
    if walk != [] {
      VisitsUnder(walk[..|walk| - 1], base);
    }
  }

  /** The string of a path below `base` contains the string of `base`. */
  lemma {:induction false} PathStringPrefix(base: Path, rest: Path)
    requires Contains(PathString(base), BackupDirName)
    ensures Contains(PathString(base + rest), BackupDirName)
  {
    if rest == [] {
      assert base + rest == base;
    } else {
      var init := rest[..|rest| - 1];
      PathStringPrefix(base, init);
      var p := base + rest;
      assert p[..|p| - 1] == base + init;
      assert base != [];
      ContainsInLonger(PathString(base + init), "", "/" + p[|p| - 1], BackupDirName);
      assert "" + PathString(base + init) + ("/" + p[|p| - 1]) == PathString(p);
    }
  }

  // ----- The loop -----

  /**
   * `backup_files(base_path)` on the filesystem `fs`: the day's backup root
   * is created first, then every file of every non-skipped folder of the
   * walk is visited in walk order. The reported copy count is the number of
   * files the pass added, so the "already backed up" message appears exactly
   * when a pass that did not raise leaves the files unchanged.
   */
  method BackupFiles(fs: FileSystem, base: Path, today: string, walk: seq<WalkEntry>, failing: set<Path>)
    returns (report: Report)
    requires fs.Valid()
    modifies fs
    ensures fs.Valid()
    ensures PassState(fs.disk, report) == BackupPass(old(fs.disk), base, today, walk, failing)
    ensures report.copied == |fs.disk.files.Keys| - |old(fs.disk.files.Keys)|
    ensures !report.aborted ==> (report.AllBackedUp() <==> fs.disk.files == old(fs.disk.files))
  {
    AllBackedUpIffUnchanged(fs.disk, base, today, walk, failing);
    var root := BackupRoot(base, today);
    var ok := fs.FolderCheck(root, failing);
    if !ok {
      return Report(0, 0, true);
    }
    ghost var start := PassState(fs.disk, Report(0, 0, false));
    report := Report(0, 0, false);
    var i := 0;
    while i < |walk|
      invariant 0 <= i <= |walk|
      invariant fs.Valid()
      invariant !report.aborted
      invariant PassState(fs.disk, report) == PassFrom(start, base, today, Visits(walk[..i]), failing)
    {
      VisitsStep(walk, i);
      PassFromConcat(start, base, today, Visits(walk[..i]), EntryVisits(walk[i]), failing);
      var entry := walk[i];
      if Skipped(entry.folder) {
        SkippedFolderIsNoOp(PassState(fs.disk, report), base, today, entry, failing);
        i := i + 1;
        continue;
      }
      report := BackupFolder(fs, base, today, entry, failing, report);
      if report.aborted {
        assert walk == walk[..i + 1] + walk[i + 1..];
        VisitsConcat(walk[..i + 1], walk[i + 1..]);
        PassFromConcat(start, base, today, Visits(walk[..i + 1]), Visits(walk[i + 1..]), failing);
        AbortedIsFinal(PassState(fs.disk, report), base, today, Visits(walk[i + 1..]), failing);
        return;
      }
      i := i + 1;
    }
    assert walk[..i] == walk;
  }

  lemma {:induction false} VisitsConcat(a: seq<WalkEntry>, b: seq<WalkEntry>)
    ensures Visits(a + b) == Visits(a) + Visits(b)
  {
    if b == [] {
      assert a + b == a;
    } else {
      var init := b[..|b| - 1];
      assert (a + b)[..|a + b| - 1] == a + init;
      VisitsConcat(a, init);
    }
  }

  /** The inner loop of `backup_files` for one non-skipped folder. */
  method BackupFolder(fs: FileSystem, base: Path, today: string, entry: WalkEntry, failing: set<Path>, report0: Report)
    returns (report: Report)
    requires fs.Valid() && !report0.aborted && !Skipped(entry.folder)
    modifies fs
    ensures fs.Valid()
    ensures PassState(fs.disk, report) == PassFrom(PassState(old(fs.disk), report0), base, today, EntryVisits(entry), failing)
  {
    ghost var start := PassState(fs.disk, report0);
    var vs := EntryVisits(entry);
    report := report0;
    var j := 0;
    while j < |entry.filenames|
      invariant 0 <= j <= |entry.filenames|
      invariant fs.Valid() && !report.aborted
      invariant PassState(fs.disk, report) == PassFrom(start, base, today, vs[..j], failing)
    {
      PassFromPrefixStep(start, base, today, vs, j, failing);
      report := BackupOne(fs, base, today, vs[j], failing, report);
      if report.aborted {
        PassFromAbortedPrefix(start, base, today, vs, j + 1, failing);
        return;
      }
      j := j + 1;
    }
    assert vs[..j] == vs;
  }

  /** One iteration of the inner loop: copy the file unless its target exists. */
  method BackupOne(fs: FileSystem, base: Path, today: string, v: Visit, failing: set<Path>, report0: Report)
    returns (report: Report)
    requires fs.Valid() && !report0.aborted && !Skipped(v.folder)
    modifies fs
    ensures fs.Valid()
    ensures PassState(fs.disk, report) == CopyStep(PassState(old(fs.disk), report0), base, today, v, failing)
  {
    report := report0;
    var targetFolder := TargetFolder(base, today, v.folder);
    var target := targetFolder + [v.name];
    if !fs.PathExists(target) {
      var made := fs.FolderCheck(targetFolder, failing);
      if !made {
        return report.(aborted := true);
      }
      var copied := fs.Copy2(Source(v), target, Source(v) in failing);
      if copied {
        report := report.(copied := report.copied + 1);
      } else {
        report := report.(failed := report.failed + 1);
      }
    }
  }
}
