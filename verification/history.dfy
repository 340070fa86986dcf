/** The upload history ledger (main.go, `Upload` and SaveToHistory): a JSON
    array of records in a `history.json` under the history directory, read
    whole, extended by one record and written back whole. The file system is
    a value: whether the directory can be created, what the file holds, and
    whether writing it back succeeds. */
module History {
  import opened Wrappers

  /** One record of the ledger. */
  datatype Upload = Upload(url: string, file: string, timestamp: string, service: string)

  /** What reading the history file yields. */
  datatype HistoryFile =
    | Missing                        // the file cannot be read
    | Corrupt                        // the file is not a JSON array of records
    | Stored(entries: seq<Upload>)

  datatype HistoryStore = HistoryStore(dirCreated: bool, file: HistoryFile, writeSucceeds: bool)

  datatype HistoryError =
    | MkdirFailed   // the history directory could not be created
    | WriteFailed   // the updated file could not be written

  /** The records a save starts from: a missing or corrupt file counts as
      an empty history. */
  function Existing(f: HistoryFile): seq<Upload>
  {
    match f
    case Stored(es) => es
    case _ => []
  }

  /** SaveToHistory: the complete ledger it writes, or why it wrote none. */
  function SaveToHistory(store: HistoryStore, entry: Upload): (r: Result<seq<Upload>, HistoryError>)
    ensures r.Success? <==> store.dirCreated && store.writeSucceeds
    ensures !store.dirCreated ==> r == Failure(MkdirFailed)
    ensures r.Success? ==> |r.value| == |Existing(store.file)| + 1
  {
    if !store.dirCreated then Failure(MkdirFailed)
    else
      var history := Existing(store.file) + [entry];
      if !store.writeSucceeds then Failure(WriteFailed) else Success(history)
  }

  /** The store after a save: a written ledger replaces the file; a failed
      save leaves the file as it was. */
  function AfterSave(store: HistoryStore, entry: Upload): (r: HistoryStore)
    ensures r.dirCreated == store.dirCreated && r.writeSucceeds == store.writeSucceeds
    ensures store.dirCreated && store.writeSucceeds ==> r.file == Stored(Existing(store.file) + [entry])
    ensures !(store.dirCreated && store.writeSucceeds) ==> r == store
  {
    match SaveToHistory(store, entry)
    case Success(es) => store.(file := Stored(es))
    case Failure(_) => store
  }

  /** A save keeps every earlier record, in order, and puts the new one last;
      reading the file back yields exactly the ledger written. */
  lemma SaveAppends(store: HistoryStore, entry: Upload)
    requires SaveToHistory(store, entry).Success?
    ensures var es := SaveToHistory(store, entry).value;
      && es[..|es| - 1] == Existing(store.file)
      && es[|es| - 1] == entry
      && Existing(AfterSave(store, entry).file) == es
  {
  }

  /** A missing or corrupt file is silently replaced by a one-record
      history: nothing it held survives the save. */
  lemma SaveOverUnreadable(store: HistoryStore, entry: Upload)
    requires !store.file.Stored? && store.dirCreated && store.writeSucceeds
    ensures SaveToHistory(store, entry) == Success([entry])
  {
    assert Existing(store.file) + [entry] == [entry];
  }

  /** Saving each record of `entries` in turn. */
  function SaveAll(store: HistoryStore, entries: seq<Upload>): (r: HistoryStore)
    decreases |entries|
  {
    if |entries| == 0 then store else SaveAll(AfterSave(store, entries[0]), entries[1..])
  }

  /** Successive saves to a writable store accumulate: the ledger is the
      original records followed by the new ones in the order they were saved. */
  lemma {:induction false} SaveAllAccumulates(store: HistoryStore, entries: seq<Upload>)
    requires store.dirCreated && store.writeSucceeds
    ensures Existing(SaveAll(store, entries).file) == Existing(store.file) + entries
    decreases |entries|
  {
    if |entries| == 0 {
      assert Existing(store.file) + entries == Existing(store.file);
    } else {
      var next := AfterSave(store, entries[0]);
      SaveAllAccumulates(next, entries[1..]);
      assert Existing(next.file) == Existing(store.file) + [entries[0]];
      assert entries == [entries[0]] + entries[1..];
      assert Existing(store.file) + [entries[0]] + entries[1..] == Existing(store.file) + entries;
    }
  }

  /** A store whose writes fail is never changed, however many saves. */
  lemma {:induction false} SaveAllUnwritable(store: HistoryStore, entries: seq<Upload>)
    requires !store.dirCreated || !store.writeSucceeds
    ensures SaveAll(store, entries) == store
    decreases |entries|
  {
    if |entries| > 0 {
      SaveAllUnwritable(AfterSave(store, entries[0]), entries[1..]);
    }
  }
}
