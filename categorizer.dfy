/**
 * The categorizer: the fixed extension table and `detect_files`, which puts
 * each file into the first category, in table order, whose extension list
 * holds the file's lower-cased extension.
 */
module Categorizer {
  import opened Wrappers
  import opened PathUtil

  /** `FILE_CATEGORIES`, in declaration order. */
  const FileCategories: seq<(string, seq<string>)> := [
    ("Documents", [".txt", ".pdf", ".doc", ".docx", ".xls", ".xlsx", ".ppt", ".pptx", ".odt", ".ods", ".odp", ".csv", ".md", ".rtf"]),
    ("Audios", [".mp3", ".wav", ".aac", ".flac", ".ogg", ".m4a", ".wma"]),
    ("Videos", [".mp4", ".avi", ".mov", ".mkv", ".wmv", ".flv", ".webm", ".mpeg"]),
    ("Pictures", [".png", ".jpg", ".jpeg", ".gif", ".bmp", ".tiff", ".webp", ".svg", ".heic"]),
    ("Archives", [".zip", ".rar", ".7z", ".tar", ".gz", ".bz2", ".xz", ".iso", ".cab"]),
    ("Executables", [".exe", ".msi", ".sh", ".bat", ".app", ".apk", ".bin", ".deb", ".rpm"]),
    ("Scripts", [".py", ".js", ".ts", ".bat", ".ps1", ".rb", ".pl", ".sh", ".lua"]),
    ("Website_Languages", [".html", ".htm", ".css", ".js", ".php", ".asp", ".jsp"]),
    ("Databases", [".sql", ".db", ".sqlite", ".accdb", ".mdb"]),
    ("Fonts", [".ttf", ".otf", ".woff", ".woff2"]),
    ("3D_Models", [".obj", ".fbx", ".stl", ".dae", ".3ds", ".blend"]),
    ("Designs", [".psd", ".ai", ".xd", ".fig", ".sketch"]),
    ("Code", [".c", ".cpp", ".java", ".cs", ".go", ".swift", ".rs", ".kt"]),
    ("Logs", [".log"]),
    ("Configs", [".ini", ".cfg", ".conf", ".yaml", ".yml", ".json", ".xml"]),
    ("Backups", [".bak", ".old", ".tmp"])
  ]

  /** A category table: category names with their extension lists, in declaration order. */
  type CategoryTable = seq<(string, seq<string>)>

  /** A table that can be a Python dict: no category name twice. */
  predicate DistinctNames(table: CategoryTable) {
    forall i, j :: 0 <= i < j < |table| ==> table[i].0 != table[j].0
  }

  /** The keys of the result of `detect_files`. */
  function CategoryNames(table: CategoryTable): set<string> {
    set i | 0 <= i < |table| :: table[i].0
  }

  /** The key `detect_files` looks up for a file: its extension, lower-cased. */
  function ExtensionKey(file: string): string {
    Lower(SplitExt(file).1)
  }

  /** The first category at or after `from` whose list holds `ext`. */
  function FirstCategoryFrom(table: CategoryTable, ext: string, from: nat): (r: Option<nat>)
    requires from <= |table|
    ensures r.Some? ==> from <= r.value < |table| && ext in table[r.value].1
    ensures r.Some? ==> forall j :: from <= j < r.value ==> ext !in table[j].1
    ensures r.None? <==> forall j :: from <= j < |table| ==> ext !in table[j].1
    decreases |table| - from
  {
    if from == |table| then None
    else if ext in table[from].1 then Some(from)
    else FirstCategoryFrom(table, ext, from + 1)
  }

  /** The category (as a table index) that an extension is filed under, if any. */
  function CategoryIndex(table: CategoryTable, ext: string): Option<nat> {
    FirstCategoryFrom(table, ext, 0)
  }

  /** The extension belongs to category `i` and to no category before it. */
  predicate FirstListing(table: CategoryTable, ext: string, i: nat) {
    i < |table| && ext in table[i].1 &&
    forall j :: 0 <= j < i ==> ext !in table[j].1
  }

  lemma CategoryIndexIsFirstListing(table: CategoryTable, ext: string, i: nat)
    ensures CategoryIndex(table, ext) == Some(i) <==> FirstListing(table, ext, i)
  {
    var r := CategoryIndex(table, ext);
    if FirstListing(table, ext, i) {
      assert r.Some?;
      assert !(r.value < i) && !(i < r.value);
    }
  }

  /** Bucket `i` of the result: the input files filed under category `i`, in input order. */
  function Bucket(table: CategoryTable, files: seq<string>, i: nat): seq<string> {
    if files == [] then []
    else
      var last := files[|files| - 1];
      Bucket(table, files[..|files| - 1], i) + (if CategoryIndex(table, ExtensionKey(last)) == Some(i) then [last] else [])
  }

  /**
   * Each bucket holds every occurrence of the files filed under it and
   * nothing else: a file's multiplicity in bucket `i` is its multiplicity in
   * the input when its extension is first listed under category `i`, and 0
   * otherwise.
   */
  lemma {:induction false} BucketCounts(table: CategoryTable, files: seq<string>, i: nat, f: string)
    ensures multiset(Bucket(table, files, i))[f] ==
      if CategoryIndex(table, ExtensionKey(f)) == Some(i) then multiset(files)[f] else 0
  {
    if files != [] {
      var init := files[..|files| - 1];
      var last := files[|files| - 1];
      assert files == init + [last];
      BucketCounts(table, init, i, f);
    }
  }

  lemma BucketMembership(table: CategoryTable, files: seq<string>, i: nat, f: string)
    ensures f in Bucket(table, files, i) <==> f in files && CategoryIndex(table, ExtensionKey(f)) == Some(i)
  {
    BucketCounts(table, files, i, f);
  }

  /** No file is in two buckets. */
  lemma BucketsExclusive(table: CategoryTable, files: seq<string>, i: nat, j: nat, f: string)
    requires f in Bucket(table, files, i) && f in Bucket(table, files, j)
    ensures i == j
  {
    BucketMembership(table, files, i, f);
    BucketMembership(table, files, j, f);
  }

  /** A file whose extension no category lists is in no bucket. */
  lemma UnmatchedInNoBucket(table: CategoryTable, files: seq<string>, f: string)
    requires forall j :: 0 <= j < |table| ==> ExtensionKey(f) !in table[j].1
    ensures forall i: nat :: f !in Bucket(table, files, i)
  {
    forall i: nat ensures f !in Bucket(table, files, i) {
      BucketMembership(table, files, i, f);
    }
  }

  /** Buckets keep the input order: bucketing distributes over concatenation. */
  lemma {:induction false} BucketConcat(table: CategoryTable, a: seq<string>, b: seq<string>, i: nat)
    ensures Bucket(table, a + b, i) == Bucket(table, a, i) + Bucket(table, b, i)
  {
    if b != [] {
      var init := b[..|b| - 1];
      assert (a + b)[..|a + b| - 1] == a + init;
      BucketConcat(table, a, init, i);
    } else {
      assert a + b == a;
    }
  }

  /** Bucketing one more file extends only the bucket the file is filed under. */
  lemma BucketStep(table: CategoryTable, files: seq<string>, k: nat, i: nat)
    requires k < |files|
    ensures Bucket(table, files[..k + 1], i) ==
      Bucket(table, files[..k], i) + (if CategoryIndex(table, ExtensionKey(files[k])) == Some(i) then [files[k]] else [])
  {
    assert files[..k + 1][..k] == files[..k];
  }

  /** The category names of `FILE_CATEGORIES` are distinct, as dict keys are. */
  lemma FileCategoriesHaveDistinctNames()
    ensures DistinctNames(FileCategories)
  {
  }

  /** `.sh` is listed under Executables and under Scripts; Executables comes first and wins. */
  lemma ShellScriptsGoToExecutables()
    ensures FileCategories[5].0 == "Executables" && FileCategories[6].0 == "Scripts"
    ensures ".sh" in FileCategories[5].1 && ".sh" in FileCategories[6].1
    ensures CategoryIndex(FileCategories, ".sh") == Some(5)
  {
    ShellScriptsFirstListedUnderExecutables();
    CategoryIndexIsFirstListing(FileCategories, ".sh", 5);
  }

  lemma ShellScriptsFirstListedUnderExecutables()
    ensures FirstListing(FileCategories, ".sh", 5)
  {
  }

  /** `.bat` is listed under Executables and under Scripts; Executables comes first and wins. */
  lemma BatchFilesGoToExecutables()
    ensures ".bat" in FileCategories[5].1 && ".bat" in FileCategories[6].1
    ensures CategoryIndex(FileCategories, ".bat") == Some(5)
  {
    BatchFilesFirstListedUnderExecutables();
    CategoryIndexIsFirstListing(FileCategories, ".bat", 5);
  }

  lemma BatchFilesFirstListedUnderExecutables()
    ensures FirstListing(FileCategories, ".bat", 5)
  {
  }

  /** `.js` is listed under Scripts and under Website_Languages; Scripts comes first and wins. */
  lemma JavaScriptGoesToScripts()
    ensures FileCategories[6].0 == "Scripts" && FileCategories[7].0 == "Website_Languages"
    ensures ".js" in FileCategories[6].1 && ".js" in FileCategories[7].1
    ensures CategoryIndex(FileCategories, ".js") == Some(6)
  {
    JavaScriptFirstListedUnderScripts();
    CategoryIndexIsFirstListing(FileCategories, ".js", 6);
  }

  lemma JavaScriptFirstListedUnderScripts()
    ensures FirstListing(FileCategories, ".js", 6)
  {
  }

  /**
   * An extension listed under one category only is filed there, whatever
   * its case: "Report.DOCX" has the key ".docx", which only Documents lists.
   */
  lemma WordFilesGoToDocuments()
    ensures FileCategories[0].0 == "Documents"
    ensures ExtensionKey("Report.DOCX") == ".docx"
    ensures forall j :: 0 < j < |FileCategories| ==> ".docx" !in FileCategories[j].1
    ensures CategoryIndex(FileCategories, ExtensionKey("Report.DOCX")) == Some(0)
  {
    ReportKey();
    WordFilesListedUnderDocumentsOnly();
    CategoryIndexIsFirstListing(FileCategories, ".docx", 0);
  }

  lemma ReportKey()
    ensures ExtensionKey("Report.DOCX") == ".docx"
  {
    var name := "Report.DOCX";
    assert name[6] == '.';
    assert LastIndexOf(name, '/') == -1;
    assert LastIndexOf(name, '.') == 6;
    assert name[0] != '.';
    assert SplitExt(name).1 == name[6..] == ".DOCX";
    var key := Lower(".DOCX");
    assert key[0] == '.' && key[1] == 'd' && key[2] == 'o' && key[3] == 'c' && key[4] == 'x';
    assert key == ".docx";
  }

  lemma WordFilesListedUnderDocumentsOnly()
    ensures FileCategories[0].0 == "Documents"
    ensures forall j :: 0 < j < |FileCategories| ==> ".docx" !in FileCategories[j].1
    ensures FirstListing(FileCategories, ".docx", 0)
  {
  }

  /**
   * The inner loop of `detect_files`: append `file` to the bucket of the
   * first category that lists its extension, and to no other.
   */
  method FileInto(table: CategoryTable, categorized: map<string, seq<string>>, file: string)
    returns (updated: map<string, seq<string>>)
    requires DistinctNames(table)
    requires categorized.Keys == CategoryNames(table)
    ensures updated.Keys == CategoryNames(table)
    ensures forall i :: 0 <= i < |table| ==>
      updated[table[i].0] == categorized[table[i].0] + (if CategoryIndex(table, ExtensionKey(file)) == Some(i) then [file] else [])
  {
    var ext := ExtensionKey(file);
    updated := categorized;
    var j := 0;
    while j < |table|
      invariant 0 <= j <= |table|
      invariant forall jj :: 0 <= jj < j ==> ext !in table[jj].1
      invariant updated == categorized
    {
      var (category, extensions) := table[j];
      if ext in extensions {
        CategoryIndexIsFirstListing(table, ext, j);
        assert category in CategoryNames(table);
        updated := updated[category := updated[category] + [file]];
        forall i | 0 <= i < |table| && i != j ensures CategoryIndex(table, ext) != Some(i) {
        }
        return;
      }
      j := j + 1;
    }
  }

  /**
   * `detect_files`: a bucket for every category of the table, and each
   * bucket is the input files filed under that category, in input order.
   */
  method DetectFiles(table: CategoryTable, files: seq<string>) returns (categorized: map<string, seq<string>>)
    requires DistinctNames(table)
    ensures categorized.Keys == CategoryNames(table)
    ensures forall i :: 0 <= i < |table| ==> categorized[table[i].0] == Bucket(table, files, i)
  {
    categorized := map i | 0 <= i < |table| :: table[i].0 := [];
    var k := 0;
    while k < |files|
      invariant 0 <= k <= |files|
      invariant categorized.Keys == CategoryNames(table)
      invariant forall i :: 0 <= i < |table| ==> categorized[table[i].0] == Bucket(table, files[..k], i)
    {
      ghost var before := categorized;
      categorized := FileInto(table, categorized, files[k]);
      k := k + 1;
      forall i | 0 <= i < |table| ensures categorized[table[i].0] == Bucket(table, files[..k], i) {
        BucketStep(table, files, k - 1, i);
        assert before[table[i].0] == Bucket(table, files[..k - 1], i);
      }
    }
    assert files[..k] == files;
  }
}
