/**
 * `log_file_operation`: read the JSON log, append one `{file, operation,
 * timestamp}` record and write the list back. The log file is seen through
 * what `json.load` makes of it; `datetime.now().isoformat()` is the
 * `timestamp` parameter.
 */
module OperationLog {
  import opened Wrappers

  /** One element of the stored JSON list. */
  datatype Entry =
    | Record(file: string, operation: string, timestamp: string)   // an entry this function writes
    | Other(json: string)                                           // any other JSON value found in the list

  /** The log file, as `os.path.exists` and `json.load` see it. */
  datatype LogStore =
    | Missing                       // no file at `log_file`
    | Unparsable                    // `json.load` raises
    | NonList(json: string)         // valid JSON that is not a list (an object, a number, ...)
    | Stored(entries: seq<Entry>)   // a JSON list

  /** The list `log_file_operation` appends to: the stored list, or the empty list for a missing or unparsable file. */
  function History(store: LogStore): seq<Entry> {
    if store.Stored? then store.entries else []
  }

  /**
   * The store after one call of the corrected operation: the previous
   * history followed by exactly one new record, so earlier entries are
   * kept in place.
   */
  function Logged(store: LogStore, file: string, operation: string, timestamp: string): (r: LogStore)
    ensures r.Stored? && |r.entries| == |History(store)| + 1
    ensures r.entries[..|History(store)|] == History(store)
    ensures r.entries[|History(store)|] == Record(file, operation, timestamp)
  {
    Stored(History(store) + [Record(file, operation, timestamp)])
  }

  /**
   * The function as written: `logs.append(log)` raises AttributeError when
   * `json.load` returned something other than a list, and the exception
   * escapes before the file is rewritten (None).
   */
  function LoggedAsWritten(store: LogStore, file: string, operation: string, timestamp: string): (r: Option<LogStore>)
    ensures r.None? <==> store.NonList?
  {
    match store
    case Missing => Some(Stored([Record(file, operation, timestamp)]))
    case Unparsable => Some(Stored([Record(file, operation, timestamp)]))
    case NonList(_) => None
    case Stored(entries) => Some(Stored(entries + [Record(file, operation, timestamp)]))
  }

  /** Away from a non-list store the function as written and the corrected one agree. */
  lemma AsWrittenAgreesOnListsAndMissingFiles(store: LogStore, file: string, operation: string, timestamp: string)
    requires !store.NonList?
    ensures LoggedAsWritten(store, file, operation, timestamp) == Some(Logged(store, file, operation, timestamp))
  {
  }

  /** A log file holding `{}` makes the function as written raise instead of starting a fresh list. */
  lemma AsWrittenRaisesOnObject()
    ensures LoggedAsWritten(NonList("{}"), "notes.txt", "created", "2024-01-01T00:00:00").None?
    ensures Logged(NonList("{}"), "notes.txt", "created", "2024-01-01T00:00:00") ==
      Stored([Record("notes.txt", "created", "2024-01-01T00:00:00")])
  {
  }

  /** A sequence of calls of the corrected operation, one record each, in order. */
  function LoggedAll(store: LogStore, records: seq<(string, string, string)>): LogStore
    decreases |records|
  {
    if records == [] then store
    else
      var last := records[|records| - 1];
      Logged(LoggedAll(store, records[..|records| - 1]), last.0, last.1, last.2)
  }

  function AsEntries(records: seq<(string, string, string)>): (r: seq<Entry>)
    ensures |r| == |records|
    ensures forall i :: 0 <= i < |records| ==> r[i] == Record(records[i].0, records[i].1, records[i].2)
  {
    seq(|records|, i requires 0 <= i < |records| => Record(records[i].0, records[i].1, records[i].2))
  }

  /**
   * After any number of calls the log is the history it started from
   * followed by one record per call, in call order; the first call turns a
   * missing or corrupt store into a list.
   */
  lemma {:induction false} LoggedAllAppends(store: LogStore, records: seq<(string, string, string)>)
    ensures records != [] ==> LoggedAll(store, records) == Stored(History(store) + AsEntries(records))
    decreases |records|
  {
    if records != [] {
      var init := records[..|records| - 1];
      var last := records[|records| - 1];
      var entry := Record(last.0, last.1, last.2);
      LoggedAllAppends(store, init);
      AsEntriesSnoc(records);
      if init == [] {
        assert AsEntries(init) == [];
        assert History(LoggedAll(store, init)) + [entry] == History(store) + AsEntries(records);
      } else {
        assert History(LoggedAll(store, init)) == History(store) + AsEntries(init);
        assert (History(store) + AsEntries(init)) + [entry] == History(store) + (AsEntries(init) + [entry]);
      }
    }
  }

  lemma AsEntriesSnoc(records: seq<(string, string, string)>)
    requires records != []
    ensures var last := records[|records| - 1];
      AsEntries(records) == AsEntries(records[..|records| - 1]) + [Record(last.0, last.1, last.2)]
  {
  }

  /** The log file a program run reads and rewrites. */
  class LogFile {
    var store: LogStore

    constructor (initial: LogStore)
      ensures store == initial
    {
      store := initial;
    }

    /**
     * `log_file_operation(file_path, operation)`, with a non-list store
     * counted as empty. `writeFails` is `open(log_file, 'w')` raising (a
     * permission error, say): the exception escapes and the file keeps its
     * old content.
     */
    method LogFileOperation(file: string, operation: string, timestamp: string, writeFails: bool) returns (raised: bool)
      modifies this
      ensures raised == writeFails
      ensures store == if raised then old(store) else Logged(old(store), file, operation, timestamp)
    {
      var logs: seq<Entry> := [];
      if store.Stored? {
        logs := store.entries;
      }
      logs := logs + [Record(file, operation, timestamp)];
      if writeFails {
        return true;
      }
      store := Stored(logs);
      return false;
    }

    /**
     * `log_file_operation` as written: `raised` when the stored JSON is not
     * a list or when `open(log_file, 'w')` raises, and then the file is
     * untouched.
     */
    method LogFileOperationAsWritten(file: string, operation: string, timestamp: string, writeFails: bool) returns (raised: bool)
      modifies this
      ensures raised == (old(store).NonList? || writeFails)
      ensures store == if raised then old(store) else LoggedAsWritten(old(store), file, operation, timestamp).value
    {
      var logs: seq<Entry> := [];
      match store {
        case Missing =>
        case Unparsable =>
        case NonList(_) =>
          return true;
        case Stored(entries) =>
          logs := entries;
      }
      logs := logs + [Record(file, operation, timestamp)];
      if writeFails {
        return true;
      }
      store := Stored(logs);
      return false;
    }
  }
}
