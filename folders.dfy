/**
 * The folder operations that look a folder up by name without regard to
 * case: `delete_folder`, `get_file_exact_folder`, and `delete_if_empty`,
 * which is built on `delete_folder`. The order in which `os.listdir`
 * returns the entries of a folder is a parameter, `listing`.
 */
module FolderOps {
  import opened Wrappers
  import opened PathUtil
  import opened Storage

  /** No name occurs twice. */
  predicate Distinct(names: seq<string>) {
    forall i, j :: 0 <= i < j < |names| ==> names[i] != names[j]
  }

  /** `listing` is what `os.listdir(path)` returns: every entry of `path` exactly once. */
  predicate ListsDir(d: Disk, path: Path, listing: seq<string>) {
    && Distinct(listing)
    && (set n | n in listing) == ListDir(d, path)
  }

  /** `list_dirs(path)`: the entries of the listing that are directories, in listing order. */
  function ListDirs(d: Disk, path: Path, listing: seq<string>): (r: seq<string>)
    ensures forall n :: n in r <==> n in listing && path + [n] in d.dirs
  {
    if listing == [] then []
    else
      var last := listing[|listing| - 1];
      ListDirs(d, path, listing[..|listing| - 1]) + (if path + [last] in d.dirs then [last] else [])
  }

  /** The names are equal once both are lower-cased. */
  predicate SameName(a: string, b: string) {
    Lower(a) == Lower(b)
  }

  /** The first name of `names`, from index `from` on, that equals `name` up to case. */
  function FirstMatchFrom(names: seq<string>, name: string, from: nat): (r: Option<nat>)
    requires from <= |names|
    ensures r.Some? ==> from <= r.value < |names| && SameName(name, names[r.value])
    ensures r.Some? ==> forall j :: from <= j < r.value ==> !SameName(name, names[j])
    ensures r.None? <==> forall j :: from <= j < |names| ==> !SameName(name, names[j])
    decreases |names| - from
  {
    if from == |names| then None
    else if SameName(name, names[from]) then Some(from)
    else FirstMatchFrom(names, name, from + 1)
  }

  function FirstMatch(names: seq<string>, name: string): Option<nat> {
    FirstMatchFrom(names, name, 0)
  }

  /** The loop both lookups share: `for d in list_dirs(path): if name.lower() == d.lower(): ...`. */
  method FindFolder(names: seq<string>, name: string) returns (r: Option<nat>)
    ensures r == FirstMatch(names, name)
  {
    var key := Lower(name);
    var i := 0;
    while i < |names|
      invariant 0 <= i <= |names|
      invariant forall j :: 0 <= j < i ==> !SameName(name, names[j])
    {
      if key == Lower(names[i]) {
        FirstMatchIsFirst(names, name, i);
        return Some(i);
      }
      i := i + 1;
    }
    return None;
  }

  lemma FirstMatchIsFirst(names: seq<string>, name: string, i: nat)
    requires i < |names| && SameName(name, names[i])
    requires forall j :: 0 <= j < i ==> !SameName(name, names[j])
    ensures FirstMatch(names, name) == Some(i)
  {
    var r := FirstMatch(names, name);
    assert r.Some?;
    assert !(r.value < i) && !(i < r.value);
  }

  // ----- delete_folder -----

  datatype DeleteOutcome =
    | ListFailed          // `os.listdir(path)` raised: `path` is not a directory; the exception escapes
    | FolderNotFound      // "Folder '...' not found in ..."
    | DeleteFailed(name: string)   // "Failed to delete folder ...": `rmtree` raised
    | Deleted(name: string)        // "Deleted folder and all contents: ..."

  /**
   * `delete_folder(path, folder_name)`: remove the tree of the first
   * directory of `path`, in listing order, whose name equals `folderName`
   * up to case. `failing` holds the trees whose removal raises; such a tree
   * is left as it was.
   */
  function DeleteFolderOn(d: Disk, path: Path, folderName: string, listing: seq<string>, failing: set<Path>): (Disk, DeleteOutcome) {
    if !IsDirectory(d, path) then (d, ListFailed)
    else
      var dirs := ListDirs(d, path, listing);
      match FirstMatch(dirs, folderName)
        case None => (d, FolderNotFound)
        case Some(i) =>
          var target := path + [dirs[i]];
          if target in failing then (d, DeleteFailed(dirs[i])) else (RemoveTree(d, target), Deleted(dirs[i]))
  }

  /**
   * What `delete_folder` deletes: a subdirectory of `path` whose name equals
   * the requested one up to case, and whose tree is gone afterwards while
   * everything outside it is unchanged; no subdirectory listed before it
   * matches. It reports a failed deletion only for such a subdirectory whose
   * removal raises, and then changes nothing.
   */
  lemma DeleteFolderDeletesFirstMatch(d: Disk, path: Path, folderName: string, listing: seq<string>, failing: set<Path>)
    requires ListsDir(d, path, listing)
    ensures var (r, outcome) := DeleteFolderOn(d, path, folderName, listing, failing);
      outcome.Deleted? ==>
        && SameName(folderName, outcome.name)
        && path + [outcome.name] in d.dirs
        && outcome.name in listing
        && r == RemoveTree(d, path + [outcome.name])
        && (forall k :: 0 <= k < |listing| && listing[k] == outcome.name ==>
              forall j :: 0 <= j < k && path + [listing[j]] in d.dirs ==> !SameName(folderName, listing[j]))
    ensures var (r, outcome) := DeleteFolderOn(d, path, folderName, listing, failing);
      outcome.DeleteFailed? ==>
        && SameName(folderName, outcome.name)
        && path + [outcome.name] in d.dirs
        && path + [outcome.name] in failing
        && r == d
  {
    var (r, outcome) := DeleteFolderOn(d, path, folderName, listing, failing);
    if outcome.DeleteFailed? {
      var dirs := ListDirs(d, path, listing);
      assert outcome.name == dirs[FirstMatch(dirs, folderName).value];
    }
    if outcome.Deleted? {
      var dirs := ListDirs(d, path, listing);
      var i := FirstMatch(dirs, folderName).value;
      assert outcome.name == dirs[i];
      forall k | 0 <= k < |listing| && listing[k] == outcome.name
        ensures forall j :: 0 <= j < k && path + [listing[j]] in d.dirs ==> !SameName(folderName, listing[j])
      {
        ListDirsOrder(d, path, listing, k, i);
      }
    }
  }

  /**
   * The position of a listed directory in `list_dirs`: every earlier listed
   * directory comes before it there too.
   */
  lemma {:induction false} ListDirsOrder(d: Disk, path: Path, listing: seq<string>, k: nat, i: nat)
    requires ListsDir(d, path, listing)
    requires k < |listing| && i < |ListDirs(d, path, listing)| && ListDirs(d, path, listing)[i] == listing[k]
    ensures forall j :: 0 <= j < k && path + [listing[j]] in d.dirs ==>
      exists m :: 0 <= m < i && ListDirs(d, path, listing)[m] == listing[j]
  {
    ListDirsPrefix(d, path, listing, k);
    var before := ListDirs(d, path, listing[..k]);
    var dirs := ListDirs(d, path, listing);
    assert dirs[..|before|] == before;
    assert listing[k] !in listing[..k];
    assert listing[k] !in before;
    assert forall m :: 0 <= m < |before| ==> dirs[m] == before[m] != listing[k];
    assert i >= |before|;
    forall j | 0 <= j < k && path + [listing[j]] in d.dirs
      ensures exists m :: 0 <= m < i && dirs[m] == listing[j]
    {
      assert listing[..k][j] == listing[j];
      assert listing[j] in before;
      var m :| 0 <= m < |before| && before[m] == listing[j];
      assert dirs[m] == listing[j];
    }
  }

  /** `list_dirs` of a prefix of the listing is a prefix of `list_dirs`. */
  lemma {:induction false} ListDirsPrefix(d: Disk, path: Path, listing: seq<string>, k: nat)
    requires k <= |listing|
    ensures var dirs := ListDirs(d, path, listing);
      var before := ListDirs(d, path, listing[..k]);
      |before| <= |dirs| && dirs[..|before|] == before
    decreases |listing| - k
  {
    if k < |listing| {
      ListDirsPrefix(d, path, listing, k + 1);
      assert listing[..k + 1][..k] == listing[..k];
    } else {
      assert listing[..k] == listing;
    }
  }

  /** `delete_folder` reports "not found" exactly when no subdirectory of `path` has the name up to case. */
  lemma DeleteFolderNotFound(d: Disk, path: Path, folderName: string, listing: seq<string>, failing: set<Path>)
    requires ListsDir(d, path, listing) && IsDirectory(d, path)
    ensures DeleteFolderOn(d, path, folderName, listing, failing).1 == FolderNotFound <==>
      forall n :: n in ListDir(d, path) && path + [n] in d.dirs ==> !SameName(folderName, n)
  {
    var dirs := ListDirs(d, path, listing);
    if FirstMatch(dirs, folderName).Some? {
      var i := FirstMatch(dirs, folderName).value;
      assert dirs[i] in ListDir(d, path) && path + [dirs[i]] in d.dirs;
    } else {
      forall n | n in ListDir(d, path) && path + [n] in d.dirs ensures !SameName(folderName, n) {
        assert n in dirs;
      }
    }
  }

  /**
   * When `path` is a directory holding a subdirectory whose name equals the
   * requested one up to case, `delete_folder` finds one: it deletes the
   * first such subdirectory unless that removal raises, and reports the
   * failure only then.
   */
  lemma DeleteFolderFindsMatch(d: Disk, path: Path, folderName: string, listing: seq<string>, failing: set<Path>, n: string)
    requires ListsDir(d, path, listing) && IsDirectory(d, path)
    requires n in ListDir(d, path) && path + [n] in d.dirs && SameName(folderName, n)
    ensures var (r, outcome) := DeleteFolderOn(d, path, folderName, listing, failing);
      && (outcome.Deleted? || outcome.DeleteFailed?)
      && (outcome.Deleted? <==> path + [outcome.name] !in failing)
      && (outcome.Deleted? ==> r == RemoveTree(d, path + [outcome.name]))
  {
    var dirs := ListDirs(d, path, listing);
    assert n in dirs;
    var i :| 0 <= i < |dirs| && dirs[i] == n;
    assert FirstMatch(dirs, folderName).Some?;
  }

  /** `delete_folder(path, folder_name)` on the filesystem `fs`. */
  method DeleteFolder(fs: FileSystem, path: Path, folderName: string, listing: seq<string>, failing: set<Path>)
    returns (outcome: DeleteOutcome)
    requires fs.Valid() && ListsDir(fs.disk, path, listing)
    modifies fs
    ensures fs.Valid()
    ensures (fs.disk, outcome) == DeleteFolderOn(old(fs.disk), path, folderName, listing, failing)
  {
    if !fs.IsDir(path) {
      return ListFailed;
    }
    var dirs := ListDirs(fs.disk, path, listing);
    var found := FindFolder(dirs, folderName);
    match found {
      case None =>
        return FolderNotFound;
      case Some(i) =>
        var target := path + [dirs[i]];
        if target in failing {
          return DeleteFailed(dirs[i]);
        }
        fs.RmTree(target);
        return Deleted(dirs[i]);
    }
  }

  // ----- get_file_exact_folder -----

  datatype LookupOutcome =
    | LookupRaised                   // `os.listdir(path)` raised; the exception escapes
    | DirectoryNotFound              // "Directory '...' not found."
    | Found(entries: set<string>)    // the names printed, one "Found: Filename - ..." line each

  /**
   * `get_file_exact_folder(path, directory)`: the entries of the first
   * subdirectory of `path` whose name equals `directory` up to case.
   */
  method GetFileExactFolder(fs: FileSystem, path: Path, directory: string, listing: seq<string>)
    returns (outcome: LookupOutcome)
    requires ListsDir(fs.disk, path, listing)
    ensures !IsDirectory(fs.disk, path) ==> outcome == LookupRaised
    ensures IsDirectory(fs.disk, path) ==>
      var dirs := ListDirs(fs.disk, path, listing);
      match FirstMatch(dirs, directory)
        case None => outcome == DirectoryNotFound
        case Some(i) => outcome == Found(ListDir(fs.disk, path + [dirs[i]]))
  {
    if !fs.IsDir(path) {
      return LookupRaised;
    }
    var dirs := ListDirs(fs.disk, path, listing);
    var found := FindFolder(dirs, directory);
    if found.None? {
      return DirectoryNotFound;
    }
    return Found(ListDir(fs.disk, path + [dirs[found.value]]));
  }

  // ----- delete_if_empty -----

  /** Removing the tree of an empty directory removes that directory and nothing else. */
  lemma RemoveEmptyTree(d: Disk, p: Path)
    requires WellFormed(d) && IsEmptyDir(d, p)
    ensures RemoveTree(d, p) == d.(dirs := d.dirs - {p})
  {
    var r := RemoveTree(d, p);
    forall q | (q in d.files || q in d.dirs) && q != p ensures !IsUnder(p, q) {
      if |q| > |p| + 1 {
        PrefixOfEntryIsDir(d, q, |p| + 1);
        assert q[..|p| + 1][..|p|] == q[..|p|];
      } else if |q| == |p| {
        assert q[..|p|] == q;
      }
    }
    assert r.files == d.files;
    assert r.dirs == d.dirs - {p};
  }

  /** One iteration of `delete_if_empty` as written, for the name `n` from the initial `list_dirs`. */
  function AsWrittenStep(s: Option<Disk>, path: Path, n: string, listing: seq<string>, failing: set<Path>): Option<Disk> {
    match s
      case None => None
      case Some(d) =>
        var full := path + [n];
        if !IsDirectory(d, full) then None   // `os.listdir` raises on a folder removed meanwhile
        else if ListDir(d, full) == {} then Some(DeleteFolderOn(d, path, n, listing, failing).0)
        else Some(d)
  }

  function AsWrittenFrom(s: Option<Disk>, path: Path, names: seq<string>, listing: seq<string>, failing: set<Path>): Option<Disk> {
    if names == [] then s
    else AsWrittenStep(AsWrittenFrom(s, path, names[..|names| - 1], listing, failing), path, names[|names| - 1], listing, failing)
  }

  /**
   * `delete_if_empty(path)` as written: each empty subdirectory is removed
   * through `delete_folder(path, d)`, which looks the name up again without
   * regard to case. None when an `os.listdir` raises. Later listings keep
   * the order of `listing`.
   */
  function DeleteIfEmptyAsWritten(d: Disk, path: Path, listing: seq<string>, failing: set<Path>): Option<Disk> {
    if !IsDirectory(d, path) then None
    else AsWrittenFrom(Some(d), path, ListDirs(d, path, listing), listing, failing)
  }

  /** The example tree: a folder `a` holding the file `x`, and an empty folder `A`. */
  function ExampleDisk(): Disk {
    Disk(map[["a", "x"] := FileInfo([], 0)], {["a"], ["A"]})
  }

  lemma ExampleNames()
    ensures ["a"] != ["A"] && ["a", "x"][..1] == ["a"] && ["a", "x"][..1] != ["A"]
    ensures ["a"] != ["a", "x"] && ["A"] != ["a", "x"]
  {
    assert "a" != "A" by { assert "a"[0] != "A"[0]; }
  }

  lemma ExampleListing()
    ensures ListsDir(ExampleDisk(), [], ["a", "A"])
    ensures ListDirs(ExampleDisk(), [], ["a", "A"]) == ["a", "A"]
  {
    var d := ExampleDisk();
    var listing := ["a", "A"];
    ExampleNames();
    assert ["a"][0] == "a" && ["A"][0] == "A";
    assert IsChild([], ["a"]) && IsChild([], ["A"]) && !IsChild([], ["a", "x"]);
    assert ListDir(d, []) == {"a", "A"};
    assert listing[..1] == ["a"] && listing[..1][..0] == [];
    assert [] + ["a"] == ["a"] && [] + ["A"] == ["A"];
    assert ListDirs(d, [], []) == [];
    assert ListDirs(d, [], listing[..1]) == ["a"];
  }

  lemma ExampleEmptiness()
    ensures ListDir(ExampleDisk(), ["a"]) != {}
    ensures IsEmptyDir(ExampleDisk(), ["A"]) && !IsEmptyDir(ExampleDisk(), ["a"])
    ensures ListDir(ExampleDisk(), ["A"]) == {}
  {
    var d := ExampleDisk();
    ExampleNames();
    assert IsChild(["a"], ["a", "x"]);
    assert "x" in ListDir(d, ["a"]);
    EmptyDirHasEmptyListing(d, ["A"]);
  }

  /** `delete_folder(path, "A")` in the example matches `a`, listed first, and removes it with its file. */
  lemma ExampleDeleteFolder()
    ensures DeleteFolderOn(ExampleDisk(), [], "A", ["a", "A"], {}) == (Disk(map[], {["A"]}), Deleted("a"))
  {
    var d := ExampleDisk();
    ExampleNames();
    ExampleListing();
    var dirs := ["a", "A"];
    assert Lower("A") == "a" && Lower("a") == "a" by {
      assert Lower("A")[0] == LowerChar('A') == 'a';
      assert Lower("a")[0] == LowerChar('a') == 'a';
    }
    assert FirstMatch(dirs, "A") == Some(0);
    assert [] + [dirs[0]] == ["a"];
    var after := RemoveTree(d, ["a"]);
    assert after.files == map[] by {
      assert IsUnder(["a"], ["a", "x"]);
    }
    assert after.dirs == {["A"]} by {
      assert IsUnder(["a"], ["a"]) && !IsUnder(["a"], ["A"]);
    }
  }

  /**
   * With a non-empty folder `a` listed before an empty folder `A`,
   * `delete_if_empty` as written finds `A` empty, asks `delete_folder` for
   * "A", which matches `a` first, and removes `a` with its file; `A` stays.
   */
  lemma AsWrittenDeletesNonEmptyFolder()
    ensures ListsDir(ExampleDisk(), [], ["a", "A"])
    ensures ListDir(ExampleDisk(), ["a"]) != {}
    ensures DeleteIfEmptyAsWritten(ExampleDisk(), [], ["a", "A"], {}) == Some(Disk(map[], {["A"]}))
  {
    ExampleListing();
    ExampleEmptiness();
    ExampleFirstStep();
    ExampleSecondStep();
    ExampleAsWrittenFrom();
  }

  /** The first iteration of the example visits the non-empty `a` and keeps it. */
  lemma ExampleFirstStep()
    ensures AsWrittenStep(Some(ExampleDisk()), [], "a", ["a", "A"], {}) == Some(ExampleDisk())
  {
    ExampleEmptiness();
    assert [] + ["a"] == ["a"];
  }

  /** The second iteration finds `A` empty and calls `delete_folder(path, "A")`. */
  lemma ExampleSecondStep()
    ensures AsWrittenStep(Some(ExampleDisk()), [], "A", ["a", "A"], {}) == Some(Disk(map[], {["A"]}))
  {
    ExampleEmptiness();
    ExampleDeleteFolder();
    assert [] + ["A"] == ["A"];
  }

  lemma ExampleAsWrittenFrom()
    ensures DeleteIfEmptyAsWritten(ExampleDisk(), [], ["a", "A"], {}) ==
      AsWrittenStep(AsWrittenStep(Some(ExampleDisk()), [], "a", ["a", "A"], {}), [], "A", ["a", "A"], {})
  {
    ExampleListing();
    var dirs := ["a", "A"];
    assert dirs[..1][..0] == [] && dirs[..1] == ["a"];
    assert AsWrittenFrom(Some(ExampleDisk()), [], dirs[..1], dirs, {}) ==
      AsWrittenStep(Some(ExampleDisk()), [], "a", dirs, {});
  }

  /** The empty subdirectories of `path` whose removal does not raise. */
  function EmptySubdirs(d: Disk, path: Path, failing: set<Path>): set<Path> {
    set q | q in d.dirs && IsChild(path, q) && IsEmptyDir(d, q) && q !in failing
  }

  /** What `delete_if_empty` is meant to do: remove exactly the empty subdirectories. */
  function RemoveEmptyDirs(d: Disk, path: Path, failing: set<Path>): Disk {
    d.(dirs := d.dirs - EmptySubdirs(d, path, failing))
  }

  /**
   * The corrected `delete_if_empty` keeps every file and every non-empty
   * directory, removes only empty subdirectories of `path`, and keeps the
   * tree well formed.
   */
  lemma RemoveEmptyDirsKeepsContent(d: Disk, path: Path, failing: set<Path>)
    requires WellFormed(d)
    ensures var r := RemoveEmptyDirs(d, path, failing);
      && WellFormed(r)
      && r.files == d.files
      && (forall q :: q in d.dirs && q !in r.dirs ==> IsChild(path, q) && IsEmptyDir(d, q))
      && (forall q :: q in d.dirs && !IsEmptyDir(d, q) ==> q in r.dirs)
  {
    EmptySubdirRemovalKeepsWellFormed(d, path, EmptySubdirs(d, path, failing), failing);
  }

  /** Removing any of the empty subdirectories of `path` keeps the tree well formed. */
  lemma EmptySubdirRemovalKeepsWellFormed(d: Disk, path: Path, removed: set<Path>, failing: set<Path>)
    requires WellFormed(d) && removed <= EmptySubdirs(d, path, failing)
    ensures WellFormed(d.(dirs := d.dirs - removed))
  {
    var r := d.(dirs := d.dirs - removed);
    forall q | q in r.files || q in r.dirs ensures ParentIsDir(r, q) {
      assert ParentIsDir(d, q);
      if |q| > 1 {
        assert IsChild(Parent(q), q);
      }
    }
  }

  /** Running the corrected `delete_if_empty` twice removes nothing more the second time. */
  lemma RemoveEmptyDirsIsIdempotent(d: Disk, path: Path, failing: set<Path>)
    requires WellFormed(d)
    ensures var r := RemoveEmptyDirs(d, path, failing);
      RemoveEmptyDirs(r, path, failing) == r
  {
    var r := RemoveEmptyDirs(d, path, failing);
    forall q | q in r.dirs && IsChild(path, q) && q !in failing ensures !IsEmptyDir(r, q) {
      assert !IsEmptyDir(d, q);
      if c :| c in d.files && IsChild(q, c) {
        assert c in r.files;
      } else {
        var c :| c in d.dirs && IsChild(q, c);
        assert !IsChild(path, c);
        assert c in r.dirs;
      }
    }
    assert EmptySubdirs(r, path, failing) == {};
  }

  /** Removing empty siblings does not change what a subdirectory of `path` contains. */
  lemma SiblingRemovalKeepsListing(d: Disk, path: Path, removed: set<Path>, q: Path)
    requires forall x :: x in removed ==> IsChild(path, x)
    requires IsChild(path, q)
    ensures ListDir(d.(dirs := d.dirs - removed), q) == ListDir(d, q)
    ensures IsEmptyDir(d.(dirs := d.dirs - removed), q) <==> q !in removed && IsEmptyDir(d, q)
  {
    var c := d.(dirs := d.dirs - removed);
    assert forall x :: x in d.dirs && IsChild(q, x) ==> x !in removed;
  }

  lemma {:induction false} ListDirsDistinct(d: Disk, path: Path, listing: seq<string>)
    requires Distinct(listing)
    ensures Distinct(ListDirs(d, path, listing))
  {
    if listing != [] {
      var init := listing[..|listing| - 1];
      var last := listing[|listing| - 1];
      ListDirsDistinct(d, path, init);
      assert last !in init;
      var before := ListDirs(d, path, init);
      var dirs := ListDirs(d, path, listing);
      assert last !in before;
      assert dirs == before + (if path + [last] in d.dirs then [last] else []);
      if path + [last] in d.dirs {
        assert dirs == before + [last];
        forall i, j | 0 <= i < j < |dirs| ensures dirs[i] != dirs[j] {
          if j < |before| {
            assert dirs[i] == before[i] && dirs[j] == before[j];
          } else {
            assert dirs[j] == last && dirs[i] == before[i];
            assert before[i] in before;
          }
        }
      } else {
        assert dirs == before;
      }
    }
  }

  /** The subdirectories among the first `i` names of `dirs` whose removal the corrected loop has done. */
  function RemovedAmong(d: Disk, path: Path, names: seq<string>, failing: set<Path>): set<Path> {
    set n | n in names && path + [n] in EmptySubdirs(d, path, failing) :: path + [n]
  }

  lemma RemovedAmongStep(d: Disk, path: Path, names: seq<string>, i: nat, failing: set<Path>)
    requires i < |names|
    ensures RemovedAmong(d, path, names[..i + 1], failing) ==
      RemovedAmong(d, path, names[..i], failing) +
      (if path + [names[i]] in EmptySubdirs(d, path, failing) then {path + [names[i]]} else {})
  {
    assert names[..i + 1] == names[..i] + [names[i]];
  }

  /** Over all of `list_dirs`, the loop removes exactly the empty subdirectories. */
  lemma RemovedAmongAllDirs(d: Disk, path: Path, listing: seq<string>, failing: set<Path>)
    requires ListsDir(d, path, listing)
    ensures RemovedAmong(d, path, ListDirs(d, path, listing), failing) == EmptySubdirs(d, path, failing)
  {
    var dirs := ListDirs(d, path, listing);
    forall q | q in EmptySubdirs(d, path, failing) ensures q in RemovedAmong(d, path, dirs, failing) {
      assert q == path + [q[|path|]];
      assert q[|path|] in ListDir(d, path);
    }
  }

  /**
   * The body of the corrected loop decides on the state the earlier
   * iterations left exactly as it would on the initial one.
   */
  lemma CorrectedStepDecision(d0: Disk, path: Path, removed: set<Path>, n: string, failing: set<Path>)
    requires forall x :: x in removed ==> IsChild(path, x)
    requires path + [n] in d0.dirs && path + [n] !in removed
    ensures var c := d0.(dirs := d0.dirs - removed);
      (ListDir(c, path + [n]) == {} && path + [n] !in failing) <==> path + [n] in EmptySubdirs(d0, path, failing)
    ensures var c := d0.(dirs := d0.dirs - removed);
      ListDir(c, path + [n]) == {} ==> IsEmptyDir(c, path + [n])
  {
    var full := path + [n];
    var c := d0.(dirs := d0.dirs - removed);
    assert IsChild(path, full);
    SiblingRemovalKeepsListing(d0, path, removed, full);
    EmptyDirHasEmptyListing(d0, full);
    EmptyDirHasEmptyListing(c, full);
  }

  /**
   * The corrected `delete_if_empty(path)`: every subdirectory that
   * `os.listdir` shows empty is removed by its own path. False when
   * `os.listdir(path)` raises.
   */
  method DeleteIfEmpty(fs: FileSystem, path: Path, listing: seq<string>, failing: set<Path>) returns (ok: bool)
    requires fs.Valid() && ListsDir(fs.disk, path, listing)
    modifies fs
    ensures fs.Valid()
    ensures ok == IsDirectory(old(fs.disk), path)
    ensures fs.disk == if ok then RemoveEmptyDirs(old(fs.disk), path, failing) else old(fs.disk)
  {
    if !fs.IsDir(path) {
      return false;
    }
    ghost var d0 := fs.disk;
    var dirs := ListDirs(fs.disk, path, listing);
    ListDirsDistinct(d0, path, listing);
    var i := 0;
    while i < |dirs|
      invariant 0 <= i <= |dirs|
      invariant fs.Valid()
      invariant fs.disk == d0.(dirs := d0.dirs - RemovedAmong(d0, path, dirs[..i], failing))
    {
      var full := path + [dirs[i]];
      ghost var removed := RemovedAmong(d0, path, dirs[..i], failing);
      assert full !in removed by {
        assert forall j :: 0 <= j < i ==> dirs[..i][j] == dirs[j] != dirs[i];
      }
      CorrectedStepDecision(d0, path, removed, dirs[i], failing);
      RemovedAmongStep(d0, path, dirs, i, failing);
      if ListDir(fs.disk, full) == {} && full !in failing {
        RemoveEmptyTree(fs.disk, full);
        fs.RmTree(full);
      }
      i := i + 1;
    }
    assert dirs[..i] == dirs;
    RemovedAmongAllDirs(d0, path, listing, failing);
    return true;
  }

  /** No two subdirectories of `path` have names that differ only in case. */
  ghost predicate UniqueUpToCase(d: Disk, path: Path) {
    forall m, n :: path + [m] in d.dirs && path + [n] in d.dirs && SameName(m, n) ==> m == n
  }

  /**
   * When the names of the subdirectories differ other than in case, each
   * iteration of the loop as written does what the corrected one does: the
   * lookup in `delete_folder` finds the folder itself.
   */
  lemma AsWrittenStepIsCorrected(d0: Disk, path: Path, listing: seq<string>, i: nat, failing: set<Path>)
    requires WellFormed(d0) && ListsDir(d0, path, listing) && IsDirectory(d0, path) && UniqueUpToCase(d0, path)
    requires i < |ListDirs(d0, path, listing)|
    ensures var dirs := ListDirs(d0, path, listing);
      AsWrittenStep(Some(d0.(dirs := d0.dirs - RemovedAmong(d0, path, dirs[..i], failing))), path, dirs[i], listing, failing)
        == Some(d0.(dirs := d0.dirs - RemovedAmong(d0, path, dirs[..i + 1], failing)))
  {
    var dirs := ListDirs(d0, path, listing);
    var removed := RemovedAmong(d0, path, dirs[..i], failing);
    var c := d0.(dirs := d0.dirs - removed);
    var n := dirs[i];
    var full := path + [n];
    ListDirsDistinct(d0, path, listing);
    assert full !in removed by {
      assert forall j :: 0 <= j < i ==> dirs[..i][j] == dirs[j] != dirs[i];
    }
    CorrectedStepDecision(d0, path, removed, n, failing);
    RemovedAmongStep(d0, path, dirs, i, failing);
    if ListDir(c, full) == {} {
      assert IsDirectory(c, path);
      var current := ListDirs(c, path, listing);
      assert n in current;
      var j0 :| 0 <= j0 < |current| && current[j0] == n;
      assert SameName(n, current[j0]);
      var j := FirstMatch(current, n).value;
      assert current[j] in listing && path + [current[j]] in d0.dirs;
      assert current[j] == n;
      assert DeleteFolderOn(c, path, n, listing, failing).0 == if full in failing then c else RemoveTree(c, full);
      if full !in failing {
        EmptySubdirRemovalKeepsWellFormed(d0, path, removed, failing);
        RemoveEmptyTree(c, full);
        assert c.dirs - {full} == d0.dirs - (removed + {full});
      } else {
        assert RemovedAmong(d0, path, dirs[..i + 1], failing) == removed;
      }
    } else {
      assert full in c.dirs;
      assert AsWrittenStep(Some(c), path, n, listing, failing) == Some(c);
      assert RemovedAmong(d0, path, dirs[..i + 1], failing) == removed;
    }
  }

  lemma {:induction false} AsWrittenPrefixIsCorrected(d0: Disk, path: Path, listing: seq<string>, i: nat, failing: set<Path>)
    requires WellFormed(d0) && ListsDir(d0, path, listing) && IsDirectory(d0, path) && UniqueUpToCase(d0, path)
    requires i <= |ListDirs(d0, path, listing)|
    ensures var dirs := ListDirs(d0, path, listing);
      AsWrittenFrom(Some(d0), path, dirs[..i], listing, failing)
        == Some(d0.(dirs := d0.dirs - RemovedAmong(d0, path, dirs[..i], failing)))
  {
    var dirs := ListDirs(d0, path, listing);
    if i == 0 {
      assert RemovedAmong(d0, path, dirs[..i], failing) == {};
      assert d0.(dirs := d0.dirs - {}) == d0;
    } else {
      AsWrittenPrefixIsCorrected(d0, path, listing, i - 1, failing);
      assert dirs[..i][..i - 1] == dirs[..i - 1];
      assert dirs[..i][i - 1] == dirs[i - 1];
      AsWrittenStepIsCorrected(d0, path, listing, i - 1, failing);
    }
  }

  /**
   * On a well-formed tree whose subdirectories of `path` have names that
   * differ other than in case, `delete_if_empty` as written removes exactly
   * the empty subdirectories, as the corrected one does.
   */
  lemma AsWrittenAgreesOnDistinctNames(d: Disk, path: Path, listing: seq<string>, failing: set<Path>)
    requires WellFormed(d) && ListsDir(d, path, listing) && UniqueUpToCase(d, path)
    ensures DeleteIfEmptyAsWritten(d, path, listing, failing) ==
      if IsDirectory(d, path) then Some(RemoveEmptyDirs(d, path, failing)) else None
  {
    if IsDirectory(d, path) {
      var dirs := ListDirs(d, path, listing);
      AsWrittenPrefixIsCorrected(d, path, listing, |dirs|, failing);
      assert dirs[..|dirs|] == dirs;
      RemovedAmongAllDirs(d, path, listing, failing);
    }
  }

  /**
   * The corrected loop and the written one part ways on the example: the
   * corrected `delete_if_empty` removes the empty `A` and keeps `a` with
   * its file.
   */
  lemma CorrectedKeepsNonEmptyFolder()
    ensures RemoveEmptyDirs(ExampleDisk(), [], {}) == Disk(map[["a", "x"] := FileInfo([], 0)], {["a"]})
  {
    ExampleNames();
    ExampleEmptiness();
    assert EmptySubdirs(ExampleDisk(), [], {}) == {["A"]};
  }
}
