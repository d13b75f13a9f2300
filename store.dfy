/**
 * The `Files` record and `store_files`, which creates an empty regular file
 * for every record whose full path is still free and never touches a path
 * that already exists. `now` is the modification time the new files get.
 */
module Store {
  import opened PathUtil
  import opened Storage

  /** `Files(name, path, extension, date)`; `date` is carried along and never read. */
  datatype FileRecord = FileRecord(name: string, path: Path, extension: string, date: string) {
    /** `fullname`: the name followed by its extension. */
    function FullName(): string {
      name + extension
    }

    /** `os.path.join(event.path, event.fullname)`. */
    function FullPath(): Path {
      path + [FullName()]
    }
  }

  /** What `store_files` did with one record. */
  datatype StoreResult =
    | AlreadyExists   // "<fullname> already exists!"
    | Created         // "<fullname> stored successfully."
    | Raised          // `open(full_path, 'w')` raised; the exception escapes and ends the loop

  /** The empty file `open(full_path, 'w')` leaves behind. */
  function EmptyFile(now: int): FileInfo {
    FileInfo([], now)
  }

  /** `open(p, 'w')` on a free path succeeds: its directory exists and the environment does not refuse it. */
  predicate CanCreate(d: Disk, p: Path, failing: set<Path>) {
    ParentIsDir(d, p) && p !in failing
  }

  /**
   * `store_files(events)` as a function: the disk afterwards and one result
   * per record handled; after `Raised` nothing more is handled.
   */
  function StoreAll(d: Disk, events: seq<FileRecord>, now: int, failing: set<Path>): (Disk, seq<StoreResult>)
    decreases |events|
  {
    if events == [] then (d, [])
    else
      var p := events[0].FullPath();
      if Exists(d, p) then
        var rest := StoreAll(d, events[1..], now, failing);
        (rest.0, [AlreadyExists] + rest.1)
      else if CanCreate(d, p, failing) then
        var rest := StoreAll(AddFile(d, p, EmptyFile(now)), events[1..], now, failing);
        (rest.0, [Created] + rest.1)
      else
        (d, [Raised])
  }

  /** How many results are `Created`. */
  function CreatedCount(results: seq<StoreResult>): nat {
    if results == [] then 0 else (if results[0] == Created then 1 else 0) + CreatedCount(results[1..])
  }

  /**
   * No overwrite: every file and directory that existed is still there with
   * the same content; every new file is empty, stamped `now`, and sits at
   * the full path of one of the records; one new file per `Created` result;
   * and at most one result per record, with `Raised` only at the end.
   */
  lemma {:induction false} StoreNeverOverwrites(d: Disk, events: seq<FileRecord>, now: int, failing: set<Path>)
    ensures var r := StoreAll(d, events, now, failing);
      && r.0.dirs == d.dirs
      && (forall p :: p in d.files ==> p in r.0.files && r.0.files[p] == d.files[p])
      && (forall p :: p in r.0.files && p !in d.files ==>
            r.0.files[p] == EmptyFile(now) && exists i :: 0 <= i < |events| && events[i].FullPath() == p)
      && |r.0.files.Keys| == |d.files.Keys| + CreatedCount(r.1)
      && |r.1| <= |events|
      && (forall i :: 0 <= i < |r.1| - 1 ==> r.1[i] != Raised)
    decreases |events|
  {
    if events != [] {
      var p := events[0].FullPath();
      var tail := events[1..];
      if Exists(d, p) {
        StoreNeverOverwrites(d, tail, now, failing);
        StoreStepWitness(events, StoreAll(d, tail, now, failing).0, d);
      } else if CanCreate(d, p, failing) {
        var d1 := AddFile(d, p, EmptyFile(now));
        StoreNeverOverwrites(d1, tail, now, failing);
        assert d1.files.Keys == d.files.Keys + {p};
        StoreStepWitness(events, StoreAll(d1, tail, now, failing).0, d1);
      }
    }
  }

  /** A new file of the rest of the pass is at the full path of one of the records. */
  lemma StoreStepWitness(events: seq<FileRecord>, r: Disk, d1: Disk)
    requires events != []
    requires forall p :: p in r.files && p !in d1.files ==>
      exists i :: 0 <= i < |events[1..]| && events[1..][i].FullPath() == p
    ensures forall p :: p in r.files && p !in d1.files ==> exists i :: 0 <= i < |events| && events[i].FullPath() == p
  {
    forall p | p in r.files && p !in d1.files ensures exists i :: 0 <= i < |events| && events[i].FullPath() == p {
      var i :| 0 <= i < |events[1..]| && events[1..][i].FullPath() == p;
      assert events[i + 1].FullPath() == p;
    }
  }

  /** After a pass that did not raise, every record's full path exists. */
  lemma {:induction false} StoredPathsExist(d: Disk, events: seq<FileRecord>, now: int, failing: set<Path>)
    requires Raised !in StoreAll(d, events, now, failing).1
    ensures forall i :: 0 <= i < |events| ==> Exists(StoreAll(d, events, now, failing).0, events[i].FullPath())
    decreases |events|
  {
    if events != [] {
      var p := events[0].FullPath();
      var tail := events[1..];
      var d1 := if Exists(d, p) then d else AddFile(d, p, EmptyFile(now));
      StoreNeverOverwrites(d1, tail, now, failing);
      StoredPathsExist(d1, tail, now, failing);
      forall i | 0 <= i < |events| ensures Exists(StoreAll(d, events, now, failing).0, events[i].FullPath()) {
        if i > 0 {
          assert events[i] == tail[i - 1];
        }
      }
    }
  }

  /** When every record's path already exists, the pass reports each as existing and changes nothing. */
  lemma {:induction false} StoreOfExistingPathsIsNoOp(d: Disk, events: seq<FileRecord>, now: int, failing: set<Path>)
    requires forall i :: 0 <= i < |events| ==> Exists(d, events[i].FullPath())
    ensures StoreAll(d, events, now, failing).0 == d
    ensures forall i :: 0 <= i < |StoreAll(d, events, now, failing).1| ==> StoreAll(d, events, now, failing).1[i] == AlreadyExists
    ensures |StoreAll(d, events, now, failing).1| == |events|
    decreases |events|
  {
    if events != [] {
      var tail := events[1..];
      assert forall i :: 0 <= i < |tail| ==> tail[i] == events[i + 1];
      StoreOfExistingPathsIsNoOp(d, tail, now, failing);
    }
  }

  /** Storing the same records again after a pass that did not raise creates nothing. */
  lemma StoreIsIdempotent(d: Disk, events: seq<FileRecord>, now: int, later: int, failing: set<Path>)
    requires Raised !in StoreAll(d, events, now, failing).1
    ensures var r := StoreAll(d, events, now, failing).0;
      StoreAll(r, events, later, failing).0 == r && CreatedCount(StoreAll(r, events, later, failing).1) == 0
  {
    var r := StoreAll(d, events, now, failing).0;
    StoredPathsExist(d, events, now, failing);
    StoreOfExistingPathsIsNoOp(r, events, later, failing);
    AllExistingCountsNoCreated(StoreAll(r, events, later, failing).1);
  }

  lemma {:induction false} AllExistingCountsNoCreated(results: seq<StoreResult>)
    requires forall i :: 0 <= i < |results| ==> results[i] == AlreadyExists
    ensures CreatedCount(results) == 0
  {
    if results != [] {
      assert forall i :: 0 <= i < |results[1..]| ==> results[1..][i] == results[i + 1];
      AllExistingCountsNoCreated(results[1..]);
    }
  }

  lemma {:induction false} StoreKeepsWellFormed(d: Disk, events: seq<FileRecord>, now: int, failing: set<Path>)
    requires WellFormed(d)
    ensures WellFormed(StoreAll(d, events, now, failing).0)
    decreases |events|
  {
    if events != [] {
      var p := events[0].FullPath();
      if Exists(d, p) {
        StoreKeepsWellFormed(d, events[1..], now, failing);
      } else if CanCreate(d, p, failing) {
        AddFileKeepsWellFormed(d, p, EmptyFile(now));
        StoreKeepsWellFormed(AddFile(d, p, EmptyFile(now)), events[1..], now, failing);
      }
    }
  }

  /** The pass from record `k` on, after one step. */
  lemma StoreAllFrom(d: Disk, events: seq<FileRecord>, k: nat, now: int, failing: set<Path>)
    requires k < |events|
    ensures var p := events[k].FullPath();
      StoreAll(d, events[k..], now, failing) ==
        if Exists(d, p) then
          var rest := StoreAll(d, events[k + 1..], now, failing);
          (rest.0, [AlreadyExists] + rest.1)
        else if CanCreate(d, p, failing) then
          var rest := StoreAll(AddFile(d, p, EmptyFile(now)), events[k + 1..], now, failing);
          (rest.0, [Created] + rest.1)
        else (d, [Raised])
  {
    assert events[k..][0] == events[k] && events[k..][1..] == events[k + 1..];
  }

  /** `store_files(events)`. */
  method StoreFiles(fs: FileSystem, events: seq<FileRecord>, now: int, failing: set<Path>)
    returns (results: seq<StoreResult>)
    requires fs.Valid()
    modifies fs
    ensures fs.Valid()
    ensures (fs.disk, results) == StoreAll(old(fs.disk), events, now, failing)
  {
    ghost var total := StoreAll(fs.disk, events, now, failing);
    assert events[0..] == events;
    ghost var rest := total;
    results := [];
    assert results + rest.1 == rest.1;
    var k := 0;
    while k < |events|
      invariant 0 <= k <= |events|
      invariant fs.Valid()
      invariant rest == StoreAll(fs.disk, events[k..], now, failing)
      invariant total == (rest.0, results + rest.1)
    {
      StoreAllFrom(fs.disk, events, k, now, failing);
      var result := StoreOne(fs, events[k], now, failing);
      if result == Raised {
        results := results + [Raised];
        return;
      }
      ghost var next := StoreAll(fs.disk, events[k + 1..], now, failing);
      assert rest == (next.0, [result] + next.1);
      assert results + ([result] + next.1) == (results + [result]) + next.1;
      rest := next;
      results := results + [result];
      k := k + 1;
    }
    assert events[k..] == [];
    assert results + [] == results;
  }

  /** One iteration of `store_files`: create the record's file unless its path exists. */
  method StoreOne(fs: FileSystem, event: FileRecord, now: int, failing: set<Path>) returns (result: StoreResult)
    requires fs.Valid()
    modifies fs
    ensures fs.Valid()
    ensures var p := event.FullPath();
      result == if Exists(old(fs.disk), p) then AlreadyExists
                else if CanCreate(old(fs.disk), p, failing) then Created
                else Raised
    ensures fs.disk == if result == Created then AddFile(old(fs.disk), event.FullPath(), EmptyFile(now)) else old(fs.disk)
  {
    var p := event.FullPath();
    if fs.PathExists(p) {
      return AlreadyExists;
    } else if ParentIsDir(fs.disk, p) && p !in failing {
      fs.Write(p, EmptyFile(now));
      return Created;
    }
    return Raised;
  }
}
