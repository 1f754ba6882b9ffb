/** The imperative core of content_manager.py: `FileForEmbedding` objects whose ids are
    reassigned in place, the vector index the manager drives, and
    `ContentManager.trigger_embedding` with its helpers, each proved to do what modules
    Scanner and Reconcile describe. */
module Manager {
  import opened Wrappers
  import opened Sequencing
  import opened Errors
  import opened Timestamps
  import opened Records
  import opened ContentLoader
  import opened Scanner
  import opened Reconcile

  /** A markdown file under management: path, time and validity are fixed when it is made;
      the ids of its chunks in the index are reassigned. */
  class FileForEmbedding {
    const file: string
    const updateTime: DateTime
    var ids: seq<string>
    const isValid: bool

    constructor (file: string, updateTime: DateTime, ids: seq<string>, isValid: bool)
      ensures Snapshot() == FileRecord(file, updateTime, ids, isValid)
    {
      this.file := file;
      this.updateTime := updateTime;
      this.ids := ids;
      this.isValid := isValid;
    }

    /** The object's current value. */
    function Snapshot(): FileRecord
      reads this
    {
      FileRecord(file, updateTime, ids, isValid)
    }
  }

  function Snapshots(fs: seq<FileForEmbedding>): (r: seq<FileRecord>)
    reads fs
    ensures |r| == |fs| && forall i :: 0 <= i < |fs| ==> r[i] == fs[i].Snapshot()
  {
    seq(|fs|, i requires 0 <= i < |fs| reads fs => fs[i].Snapshot())
  }

  predicate Distinct(fs: seq<FileForEmbedding>) {
    forall i, j :: 0 <= i < j < |fs| ==> fs[i] != fs[j]
  }

  lemma DistinctConcat(xs: seq<FileForEmbedding>, ys: seq<FileForEmbedding>)
    requires Distinct(xs) && Distinct(ys)
    requires forall i, j :: 0 <= i < |xs| && 0 <= j < |ys| ==> xs[i] != ys[j]
    ensures Distinct(xs + ys)
  {
  }

  lemma SnapshotsSnoc(fs: seq<FileForEmbedding>, f: FileForEmbedding)
    ensures Snapshots(fs + [f]) == Snapshots(fs) + [f.Snapshot()]
  {
  }

  lemma SnapshotsConcat(xs: seq<FileForEmbedding>, ys: seq<FileForEmbedding>)
    ensures Snapshots(xs + ys) == Snapshots(xs) + Snapshots(ys)
  {
  }

  /** The inner loop of `_traverse_original_content`: one new object per markdown file of one
      directory, in listing order, or the exception of the first file that cannot be read.
      `scanOne` is what loading one file yields (`FileScanner` below the manager). */
  method ScanDirectory(entry: DirEntry, scanOne: string -> Result<FileRecord, Exception>)
    returns (r: Result<seq<FileForEmbedding>, Exception>)
    requires RecordsOwnPath(scanOne)
    ensures r.Success? <==> MapAll(DirectoryPaths(entry), scanOne).Success?
    ensures r.Failure? ==> r.error == MapAll(DirectoryPaths(entry), scanOne).error
    ensures r.Success? ==> Snapshots(r.value) == MapAll(DirectoryPaths(entry), scanOne).value
    ensures r.Success? ==> Distinct(r.value) && forall i :: 0 <= i < |r.value| ==> fresh(r.value[i])
  {
    var paths := DirectoryPaths(entry);
    var files: seq<FileForEmbedding> := [];
    var j := 0;
    while j < |paths|
      invariant 0 <= j <= |paths|
      invariant MapAll(paths[..j], scanOne) == Success(Snapshots(files))
      invariant Distinct(files) && forall i :: 0 <= i < |files| ==> fresh(files[i])
    {
      var failed, next := ScanStep(paths, j, scanOne, files);
      if failed.Some? {
        return Failure(failed.value);
      }
      files := next;
      j := j + 1;
    }
    assert paths[..j] == paths;
    return Success(files);
  }

  /** One turn of the inner loop of `_traverse_original_content`: load `paths[j]`, and either
      report the exception that ends the traversal or append the new object for it. */
  method ScanStep(
    paths: seq<string>, j: nat, scanOne: string -> Result<FileRecord, Exception>, files: seq<FileForEmbedding>)
    returns (failed: Option<Exception>, files': seq<FileForEmbedding>)
    requires RecordsOwnPath(scanOne) && j < |paths| && Distinct(files)
    requires MapAll(paths[..j], scanOne) == Success(Snapshots(files))
    ensures failed.Some? ==> MapAll(paths, scanOne) == Failure(failed.value)
    ensures failed.None? ==> MapAll(paths[..j + 1], scanOne) == Success(Snapshots(files'))
    ensures failed.None? ==> Distinct(files') && |files'| == |files| + 1 && fresh(files'[|files|])
    ensures failed.None? ==> forall i :: 0 <= i < |files| ==> files'[i] == files[i]
  {
    var filePath := paths[j];
    var scanned := scanOne(filePath);
    ghost var recs := Snapshots(files);
    MapAllStep(paths, j, scanOne, recs);
    if scanned.Failure? {
      return Some(scanned.error), files;
    }
    var item := new FileForEmbedding(filePath, scanned.value.updateTime, [], scanned.value.isValid);
    assert Snapshots(files) == recs;
    SnapshotsSnoc(files, item);
    DistinctConcat(files, [item]);
    return None, files + [item];
  }

  /** Increasing positions into a list of length `n`, as `Positions` produces. */
  predicate IncreasingBelow(pos: seq<nat>, n: nat) {
    && (forall k :: 0 <= k < |pos| ==> pos[k] < n)
    && (forall k, l :: 0 <= k < l < |pos| ==> pos[k] < pos[l])
  }

  /** Objects picked at increasing positions of a list without repeats are without repeats. */
  lemma DistinctSelect(fs: seq<FileForEmbedding>, pos: seq<nat>)
    requires Distinct(fs)
    requires forall k :: 0 <= k < |pos| ==> pos[k] < |fs|
    requires forall k, l :: 0 <= k < l < |pos| ==> pos[k] < pos[l]
    ensures Distinct(Select(fs, pos))
  {
  }

  /** The body of the loop of `trigger_embedding` over the scanned files (lines 165-180) for
      one file, `all[k]`: a file on record takes over the record's ids, and no other file
      changes; the result says whether the file goes to the deleting list and whether it goes
      to the adding list, as `Decide` says. */
  method ClassifyFile(
    item: FileForEmbedding, embeddingDict: map<string, FileRecord>, ghost all: seq<FileForEmbedding>, ghost k: nat)
    returns (toDelete: bool, toAdd: bool)
    requires Distinct(all) && k < |all| && all[k] == item
    modifies item
    ensures Snapshots(all) == old(Snapshots(all))[k := Carried(old(item.Snapshot()), embeddingDict)]
    ensures toDelete == Decide(old(item.Snapshot()), embeddingDict).Deletes()
    ensures toAdd == Decide(old(item.Snapshot()), embeddingDict).Adds()
  {
    toDelete, toAdd := false, false;
    if item.file in embeddingDict {
      var record := embeddingDict[item.file];
      item.ids := record.ids;
      if !item.isValid && record.isValid {
        toDelete := true;
      } else if !record.isValid && item.isValid {
        toAdd := true;
      } else if Before(record.updateTime, item.updateTime) {
        toDelete, toAdd := true, true;
      }
    } else if item.isValid {
      toAdd := true;
    }
  }

  /** The loop of `trigger_embedding` over the scanned files (lines 164-180): in scan order,
      each file is classified and appended to the lists it belongs to. */
  method Classify(allFiles: seq<FileForEmbedding>, embeddingDict: map<string, FileRecord>)
    returns (deletingList: seq<FileForEmbedding>, addingList: seq<FileForEmbedding>)
    requires Distinct(allFiles)
    modifies allFiles
    ensures Snapshots(allFiles) == CarriedRecords(old(Snapshots(allFiles)), embeddingDict)
    ensures deletingList == Select(allFiles, DeletingPositions(AsWritten, old(Snapshots(allFiles)), embeddingDict))
    ensures addingList == Select(allFiles, AddingPositions(AsWritten, old(Snapshots(allFiles)), embeddingDict))
  {
    ghost var scan := Snapshots(allFiles);
    ghost var acts := Actions(AsWritten, scan, embeddingDict);
    deletingList, addingList := [], [];
    var i := 0;
    while i < |allFiles|
      invariant 0 <= i <= |allFiles|
      invariant Snapshots(allFiles) == CarriedUpTo(scan, embeddingDict, i)
      invariant deletingList == Select(allFiles, Positions(acts[..i], Deleting))
      invariant addingList == Select(allFiles, Positions(acts[..i], Adding))
    {
      deletingList, addingList := ClassifyStep(allFiles, embeddingDict, scan, i, deletingList, addingList);
      i := i + 1;
    }
    assert acts[..i] == acts;
    CarriedUpToAll(scan, embeddingDict);
  }

  /** One pass of the loop of `trigger_embedding` over the scanned files, on the `i`-th. */
  method ClassifyStep(
    allFiles: seq<FileForEmbedding>, embeddingDict: map<string, FileRecord>, ghost scan: seq<FileRecord>, i: nat,
    deletingList: seq<FileForEmbedding>, addingList: seq<FileForEmbedding>)
    returns (deletingList': seq<FileForEmbedding>, addingList': seq<FileForEmbedding>)
    requires Distinct(allFiles) && |scan| == |allFiles| && i < |allFiles|
    requires Snapshots(allFiles) == CarriedUpTo(scan, embeddingDict, i)
    requires deletingList == Select(allFiles, Positions(Actions(AsWritten, scan, embeddingDict)[..i], Deleting))
    requires addingList == Select(allFiles, Positions(Actions(AsWritten, scan, embeddingDict)[..i], Adding))
    modifies allFiles[i]
    ensures Snapshots(allFiles) == CarriedUpTo(scan, embeddingDict, i + 1)
    ensures deletingList' == Select(allFiles, Positions(Actions(AsWritten, scan, embeddingDict)[..i + 1], Deleting))
    ensures addingList' == Select(allFiles, Positions(Actions(AsWritten, scan, embeddingDict)[..i + 1], Adding))
  {
    ghost var acts := Actions(AsWritten, scan, embeddingDict);
    assert acts[i] == Decide(scan[i], embeddingDict);
    assert allFiles[i].Snapshot() == scan[i];
    PositionsSnoc(acts, i, Deleting);
    PositionsSnoc(acts, i, Adding);
    CarriedUpToSnoc(scan, embeddingDict, i);
    var toDelete, toAdd := ClassifyFile(allFiles[i], embeddingDict, allFiles, i);
    deletingList', addingList' := deletingList, addingList;
    if toDelete {
      SelectSnoc(allFiles, Positions(acts[..i], Deleting), i);
      deletingList' := deletingList + [allFiles[i]];
    }
    if toAdd {
      SelectSnoc(allFiles, Positions(acts[..i], Adding), i);
      addingList' := addingList + [allFiles[i]];
    }
  }

  lemma AddCallsOfSelect(fs: seq<FileForEmbedding>, pos: seq<nat>, scan: seq<FileRecord>)
    requires |scan| == |fs| && forall j :: 0 <= j < |fs| ==> fs[j].file == scan[j].file
    requires forall k :: 0 <= k < |pos| ==> pos[k] < |fs|
    ensures AddCalls(Select(fs, pos)) == AddCallsFor(scan, pos)
  {
  }

  lemma AddCallsPrefix(fs: seq<FileForEmbedding>, m: nat)
    requires m <= |fs|
    ensures AddCalls(fs[..m]) == AddCalls(fs)[..m]
  {
  }

  /** The loop of `_delete_embedding`: `ids.extend(item.IDs)` then `item.IDs.clear()` for each
      listed file, so the ids come out in list order. The list is picked out of `all` at the
      positions `pos` (both ghost): the files of `all` at those positions, and no others, are
      left with no ids. */
  method TakeIds(files: seq<FileForEmbedding>, ghost all: seq<FileForEmbedding>, ghost pos: seq<nat>)
    returns (ids: seq<string>)
    requires Distinct(all) && IncreasingBelow(pos, |all|) && files == Select(all, pos)
    modifies files
    ensures ids == AllIds(Select(old(Snapshots(all)), pos))
    ensures Snapshots(all) == ClearIds(old(Snapshots(all)), pos)
  {
    ghost var before := Snapshots(all);
    ghost var listed := Select(before, pos);
    ids := [];
    var i := 0;
    while i < |files|
      invariant 0 <= i <= |files|
      invariant ids == AllIds(listed[..i])
      invariant Snapshots(all) == ClearIds(before, pos[..i])
    {
      AllIdsSnoc(listed, i);
      var taken := TakeStep(files, all, pos, before, i);
      ids := ids + taken;
      i := i + 1;
    }
    assert listed[..i] == listed;
    assert pos[..i] == pos;
  }

  /** One pass of the loop of `_delete_embedding`, on the `i`-th listed file, after the
      first `i` gave up their ids. */
  method TakeStep(
    files: seq<FileForEmbedding>, ghost all: seq<FileForEmbedding>, ghost pos: seq<nat>, ghost before: seq<FileRecord>,
    i: nat)
    returns (taken: seq<string>)
    requires Distinct(all) && IncreasingBelow(pos, |all|) && files == Select(all, pos) && i < |files|
    requires |before| == |all| && Snapshots(all) == ClearIds(before, pos[..i])
    modifies files[i]
    ensures taken == Select(before, pos)[i].ids
    ensures Snapshots(all) == ClearIds(before, pos[..i + 1])
  {
    assert pos[i] !in pos[..i];
    ClearIdsSnoc(before, pos, i);
    taken := TakeFileIds(files[i], all, pos[i]);
  }

  /** One pass of the loop of `_delete_embedding`: the ids of the file `all[k]` are handed
      back and the file is left with none; no other file changes. */
  method TakeFileIds(item: FileForEmbedding, ghost all: seq<FileForEmbedding>, ghost k: nat)
    returns (ids: seq<string>)
    requires Distinct(all) && k < |all| && all[k] == item
    modifies item
    ensures ids == old(item.ids)
    ensures Snapshots(all) == old(Snapshots(all))[k := old(Snapshots(all))[k].(ids := [])]
  {
    ids := item.ids;
    item.ids := [];
  }

  lemma LogSuffix(calls0: seq<IndexCall>, tail: seq<IndexCall>)
    ensures (calls0 + tail)[|calls0|..] == tail
  {
  }

  /** What a pass does once the scan (`scan`) and the records (`prior`) are read: the index is
      persisted in its final state. A completed pass makes exactly the calls of `PassCalls`,
      leaves the index holding `IndexAfter` and writes the records of `Reconciled`, where
      `added` are the batches of ids the index returned, each never handed out before; a pass
      that raises makes the calls of `FailedPassCalls` and leaves the record file as it was. */
  ghost predicate PassEffect(
    scan: seq<FileRecord>, prior: map<string, FileRecord>,
    recordFile0: Option<seq<RecordJson>>, recordFile: Option<seq<RecordJson>>,
    live0: set<string>, issued0: set<string>, calls0: seq<IndexCall>,
    live: set<string>, durable: set<string>, calls: seq<IndexCall>,
    r: Outcome<Exception>, added: seq<seq<string>>)
  {
    && durable == live
    && |calls0| <= |calls| && calls[..|calls0|] == calls0
    && (r.Pass? ==>
          && |added| == |AddingPositions(AsWritten, scan, prior)|
          && FreshBatches(added, issued0)
          && (forall i :: 0 <= i < |scan| ==> Valid(scan[i].updateTime))
          && recordFile == Some(ToDicts(Reconciled(AsWritten, scan, prior, added)))
          && live == IndexAfter(AsWritten, live0, scan, prior, added)
          && calls[|calls0|..] == PassCalls(scan, prior))
    && (r.Fail? ==>
          && recordFile == recordFile0
          && FailedPassCalls(calls[|calls0|..], scan, prior))
  }

  lemma PassCallsSplit(calls0: seq<IndexCall>, scan: seq<FileRecord>, prior: map<string, FileRecord>)
    ensures calls0 + [DeleteCall(DeleteIds(AsWritten, scan, prior)), PersistCall]
              + AddCallsFor(scan, AddingPositions(AsWritten, scan, prior)) + [PersistCall]
            == calls0 + PassCalls(scan, prior)
  {
    var head := [DeleteCall(DeleteIds(AsWritten, scan, prior)), PersistCall];
    var adds := AddCallsFor(scan, AddingPositions(AsWritten, scan, prior));
    assert PassCalls(scan, prior) == head + adds + [PersistCall];
    assert calls0 + head + adds + [PersistCall] == calls0 + (head + adds + [PersistCall]);
  }

  /** A pass whose delete raised made the delete call and its persist and nothing else. */
  lemma DeleteFailedEffect(
    scan: seq<FileRecord>, prior: map<string, FileRecord>, recordFile: Option<seq<RecordJson>>,
    live0: set<string>, issued0: set<string>, calls0: seq<IndexCall>, live: set<string>, r: Outcome<Exception>)
    requires r.Fail?
    ensures PassEffect(scan, prior, recordFile, recordFile, live0, issued0, calls0, live, live,
                       calls0 + [DeleteCall(DeleteIds(AsWritten, scan, prior)), PersistCall], r, [])
  {
    LogSuffix(calls0, [DeleteCall(DeleteIds(AsWritten, scan, prior)), PersistCall]);
  }

  /** A pass whose `|added| + 1`-th add raised made the adds up to that one, then a persist. */
  lemma EmbedFailedEffect(
    scan: seq<FileRecord>, prior: map<string, FileRecord>, recordFile: Option<seq<RecordJson>>,
    live0: set<string>, issued0: set<string>, calls0: seq<IndexCall>, live: set<string>,
    r: Outcome<Exception>, added: seq<seq<string>>)
    requires r.Fail? && |added| < |AddingPositions(AsWritten, scan, prior)|
    ensures PassEffect(scan, prior, recordFile, recordFile, live0, issued0, calls0, live, live,
                       calls0 + [DeleteCall(DeleteIds(AsWritten, scan, prior)), PersistCall]
                         + AddCallsFor(scan, AddingPositions(AsWritten, scan, prior))[..|added| + 1] + [PersistCall],
                       r, added)
  {
    var adds := AddCallsFor(scan, AddingPositions(AsWritten, scan, prior));
    var head := [DeleteCall(DeleteIds(AsWritten, scan, prior)), PersistCall];
    var tail := head + adds[..|added| + 1] + [PersistCall];
    assert calls0 + head + adds[..|added| + 1] + [PersistCall] == calls0 + tail;
    LogSuffix(calls0, tail);
    assert FailedPassCalls(tail, scan, prior) by {
      var m := |added| + 1;
      assert 1 <= m <= |adds| && tail == head + adds[..m] + [PersistCall];
    }
  }

  /** A pass that completed wrote the reconciled records and made the calls of `PassCalls`. */
  lemma PassedEffect(
    scan: seq<FileRecord>, prior: map<string, FileRecord>, recordFile0: Option<seq<RecordJson>>,
    live0: set<string>, issued0: set<string>, calls0: seq<IndexCall>, final: seq<FileRecord>,
    live: set<string>, added: seq<seq<string>>)
    requires forall i :: 0 <= i < |scan| ==> Valid(scan[i].updateTime)
    requires |added| == |AddingPositions(AsWritten, scan, prior)| && FreshBatches(added, issued0)
    requires final == Reconciled(AsWritten, scan, prior, added)
    requires live == IndexAfter(AsWritten, live0, scan, prior, added)
    ensures PassEffect(scan, prior, recordFile0, Some(ToDicts(final)), live0, issued0, calls0, live, live,
                       calls0 + PassCalls(scan, prior), Pass, added)
  {
    LogSuffix(calls0, PassCalls(scan, prior));
  }

  lemma AddCallsSnoc(fs: seq<FileForEmbedding>, i: nat, calls0: seq<IndexCall>)
    requires i < |fs|
    ensures calls0 + AddCalls(fs[..i + 1]) == (calls0 + AddCalls(fs[..i])) + [AddCall(fs[i].file)]
  {
    assert AddCalls(fs[..i + 1]) == AddCalls(fs[..i]) + [AddCall(fs[i].file)];
  }

  /** A call the manager makes on the index, in the order made. */
  datatype IndexCall = DeleteCall(ids: seq<string>) | AddCall(file: string) | PersistCall

  function AddCalls(fs: seq<FileForEmbedding>): seq<IndexCall> {
    seq(|fs|, k requires 0 <= k < |fs| => AddCall(fs[k].file))
  }

  /** The add calls of a pass, one per file of the adding list. */
  function AddCallsFor(scan: seq<FileRecord>, pos: seq<nat>): (calls: seq<IndexCall>)
    requires forall k :: 0 <= k < |pos| ==> pos[k] < |scan|
    ensures |calls| == |pos| && forall k :: 0 <= k < |pos| ==> calls[k] == AddCall(scan[pos[k]].file)
  {
    seq(|pos|, k requires 0 <= k < |pos| => AddCall(scan[pos[k]].file))
  }

  /** The calls a fully successful pass makes: one delete of every listed id, a persist, one
      add per file of the adding list, and a final persist. */
  function PassCalls(scan: seq<FileRecord>, prior: map<string, FileRecord>): seq<IndexCall> {
    [DeleteCall(DeleteIds(AsWritten, scan, prior)), PersistCall] + AddCallsFor(scan, AddingPositions(AsWritten, scan, prior)) + [PersistCall]
  }

  /** The calls of a pass that raised after reading the tree and the record: the delete and
      its persist, then possibly the adds of a prefix of the adding list, up to and including
      the one that raised, and a persist. */
  ghost predicate FailedPassCalls(log: seq<IndexCall>, scan: seq<FileRecord>, prior: map<string, FileRecord>) {
    var adds := AddCallsFor(scan, AddingPositions(AsWritten, scan, prior));
    || log == [DeleteCall(DeleteIds(AsWritten, scan, prior)), PersistCall]
    || exists m :: 1 <= m <= |adds| &&
         log == [DeleteCall(DeleteIds(AsWritten, scan, prior)), PersistCall] + adds[..m] + [PersistCall]
  }

  /** The Chroma collection, seen through the calls the manager makes: the ids it stores, every
      id it ever handed out, what it stored at the last persist, and the log of calls.
      Splitting a document into chunks and computing embeddings happen inside it. */
  class VectorIndex {
    var live: set<string>
    var issued: set<string>
    var durable: set<string>
    var calls: seq<IndexCall>

    ghost predicate Valid()
      reads this
    {
      live <= issued && durable <= issued
    }

    constructor (stored: set<string>)
      ensures Valid() && live == stored && issued == stored && durable == stored && calls == []
    {
      live, issued, durable, calls := stored, stored, stored, [];
    }

    /** `vectordb.delete(ids=ids)`: the ids are gone; a call that raises may have removed
        some of them. */
    method Delete(ids: seq<string>) returns (r: Outcome<Exception>)
      requires Valid()
      modifies this
      ensures Valid()
      ensures calls == old(calls) + [DeleteCall(ids)]
      ensures issued == old(issued) && durable == old(durable)
      ensures r.Pass? ==> live == old(live) - ToSet(ids)
      ensures r.Fail? ==> old(live) - ToSet(ids) <= live <= old(live)
    {
      calls := calls + [DeleteCall(ids)];
      var before := live;
      if * {
        live := live - ToSet(ids);
        r := Pass;
      } else {
        var remaining: set<string> :| before - ToSet(ids) <= remaining <= before;
        live := remaining;
        r := Fail(BackendError("delete failed"));
      }
    }

    /** `vectordb.add_documents(splitter.split_documents(ContentLoader(file).load()))`: the
        chunks of the file are stored under ids never handed out before, which are returned;
        a call that raises stores nothing. */
    method AddDocuments(file: string) returns (r: Result<seq<string>, Exception>)
      requires Valid()
      modifies this
      ensures Valid()
      ensures calls == old(calls) + [AddCall(file)]
      ensures durable == old(durable)
      ensures r.Success? ==> ToSet(r.value) !! old(issued)
      ensures r.Success? ==> live == old(live) + ToSet(r.value) && issued == old(issued) + ToSet(r.value)
      ensures r.Failure? ==> live == old(live) && issued == old(issued)
    {
      calls := calls + [AddCall(file)];
      if * {
        assert ToSet([]) !! issued;
        var ids: seq<string> :| ToSet(ids) !! issued;
        live := live + ToSet(ids);
        issued := issued + ToSet(ids);
        r := Success(ids);
      } else {
        r := Failure(BackendError("add_documents failed"));
      }
    }

    /** `vectordb.persist()`: what is stored now is what a restart finds. */
    method Persist()
      requires Valid()
      modifies this
      ensures Valid()
      ensures calls == old(calls) + [PersistCall]
      ensures live == old(live) && issued == old(issued) && durable == live
    {
      calls := calls + [PersistCall];
      durable := live;
    }
  }

  const DefaultContentPath: string := "./original_content/"
  const DefaultRecordFileName: string := "embedding.json"

  /** `ContentManager`: where the content and its record live, the record file's contents and
      the index. Chunk size, overlap and separators only configure the splitter inside the
      index and are not modelled. */
  class ContentManager {
    const originalContentPath: string
    const embeddingRecordFile: string
    /** The record files on disk, by path: the JSON list each holds. The pass reads and
        writes only the one at `RecordPath()`. */
    var recordFiles: map<string, seq<RecordJson>>
    const vectordb: VectorIndex

    /** An empty path or file name keeps the default, as `if original_content_path:` does. */
    constructor (contentPath: string, recordFileName: string, recordFiles: map<string, seq<RecordJson>>,
                 stored: set<string>)
      ensures originalContentPath == (if contentPath != "" then contentPath else DefaultContentPath)
      ensures embeddingRecordFile == (if recordFileName != "" then recordFileName else DefaultRecordFileName)
      ensures this.recordFiles == recordFiles
      ensures fresh(vectordb) && vectordb.Valid() && vectordb.live == stored && vectordb.calls == []
    {
      originalContentPath := if contentPath != "" then contentPath else DefaultContentPath;
      embeddingRecordFile := if recordFileName != "" then recordFileName else DefaultRecordFileName;
      this.recordFiles := recordFiles;
      vectordb := new VectorIndex(stored);
    }

    /** Where the record file is: the two strings run together, with no separator added. */
    function RecordPath(): (p: string)
      ensures |p| == |originalContentPath| + |embeddingRecordFile|
      ensures p[..|originalContentPath|] == originalContentPath
      ensures p[|originalContentPath|..] == embeddingRecordFile
    {
      originalContentPath + embeddingRecordFile
    }

    /** What `os.path.exists` and `json.load` see at `RecordPath()`: the list stored there,
        or None when there is no file. */
    function RecordFile(): (f: Option<seq<RecordJson>>)
      reads this
      ensures f.Some? <==> RecordPath() in recordFiles
      ensures f.Some? ==> recordFiles[RecordPath()] == f.value
    {
      if RecordPath() in recordFiles then Some(recordFiles[RecordPath()]) else None
    }

    /** `_traverse_original_content`: one new object per markdown file, in walk order, or the
        exception of the first file that cannot be read as a record. */
    method TraverseOriginalContent(walk: seq<DirEntry>, scanOne: string -> Result<FileRecord, Exception>)
      returns (r: Result<seq<FileForEmbedding>, Exception>)
      requires RecordsOwnPath(scanOne)
      ensures r.Success? <==> MapAll(Candidates(walk), scanOne).Success?
      ensures r.Failure? ==> r.error == MapAll(Candidates(walk), scanOne).error
      ensures r.Success? ==> Snapshots(r.value) == MapAll(Candidates(walk), scanOne).value
      ensures r.Success? ==> Distinct(r.value) && forall i :: 0 <= i < |r.value| ==> fresh(r.value[i])
    {
      var allFiles: seq<FileForEmbedding> := [];
      var w := 0;
      while w < |walk|
        invariant 0 <= w <= |walk|
        invariant MapAll(Candidates(walk[..w]), scanOne) == Success(Snapshots(allFiles))
        invariant Distinct(allFiles) && forall i :: 0 <= i < |allFiles| ==> fresh(allFiles[i])
      {
        var found := ScanDirectory(walk[w], scanOne);
        CandidatesPrefix(walk, w);
        MapAllConcat(Candidates(walk[..w]), DirectoryPaths(walk[w]), scanOne);
        if found.Failure? {
          MapAllFailsFromPrefix(Candidates(walk[..w + 1]), Candidates(walk), scanOne);
          return Failure(found.error);
        }
        SnapshotsConcat(allFiles, found.value);
        allFiles := allFiles + found.value;
        w := w + 1;
      }
      assert walk[..w] == walk;
      return Success(allFiles);
    }

    /** `trigger_embedding`: scan the tree and read the record file, then bring the index and
        the record file up to date (`Synchronize`). If the scan or the record file raises,
        nothing changes. */
    method TriggerEmbedding(
      walk: seq<DirEntry>, read: string -> string, safeLoad: string -> Result<YamlDoc, Exception>)
      returns (r: Outcome<Exception>, ghost added: seq<seq<string>>)
      requires vectordb.Valid()
      modifies this, vectordb
      ensures vectordb.Valid()
      ensures recordFiles - {RecordPath()} == old(recordFiles) - {RecordPath()}
      ensures ScanTree(walk, read, safeLoad).Failure? ==>
        r == Fail(ScanTree(walk, read, safeLoad).error) && unchanged(this, vectordb)
      ensures ScanTree(walk, read, safeLoad).Success? && PriorRecords(old(RecordFile())).Failure? ==>
        r == Fail(PriorRecords(old(RecordFile())).error) && unchanged(this, vectordb)
      ensures ScanTree(walk, read, safeLoad).Success? && PriorRecords(old(RecordFile())).Success? ==>
        PassEffect(ScanTree(walk, read, safeLoad).value, PriorRecords(old(RecordFile())).value,
                   old(RecordFile()), RecordFile(), old(vectordb.live), old(vectordb.issued), old(vectordb.calls),
                   vectordb.live, vectordb.durable, vectordb.calls, r, added)
    {
      added := [];
      FileScannerRecordsOwnPath(read, safeLoad);
      var scanned := TraverseOriginalContent(walk, FileScanner(read, safeLoad));
      if scanned.Failure? {
        return Fail(scanned.error), added;
      }
      var allFiles := scanned.value;
      assert Snapshots(allFiles) == ScanTree(walk, read, safeLoad).value;
      assert forall i :: 0 <= i < |allFiles| ==> Valid(Snapshots(allFiles)[i].updateTime);
      var loaded := LoadEmbeddingRecords();
      if loaded.Failure? {
        return Fail(loaded.error), added;
      }
      r, added := Synchronize(allFiles, loaded.value);
    }

    /** Lines 164-188 of `trigger_embedding`: classify the scanned files against the records,
        delete, embed, and, when both succeed, write every scanned file's record. */
    method Synchronize(allFiles: seq<FileForEmbedding>, embeddingDict: map<string, FileRecord>)
      returns (r: Outcome<Exception>, ghost added: seq<seq<string>>)
      requires vectordb.Valid() && Distinct(allFiles)
      requires forall i :: 0 <= i < |allFiles| ==> Valid(allFiles[i].updateTime)
      modifies this, vectordb, allFiles
      ensures vectordb.Valid()
      ensures recordFiles - {RecordPath()} == old(recordFiles) - {RecordPath()}
      ensures PassEffect(old(Snapshots(allFiles)), embeddingDict,
                         old(RecordFile()), RecordFile(), old(vectordb.live), old(vectordb.issued), old(vectordb.calls),
                         vectordb.live, vectordb.durable, vectordb.calls, r, added)
    {
      ghost var scan := Snapshots(allFiles);
      ghost var rf0 := RecordFile();
      ghost var live0, issued0, calls0 := vectordb.live, vectordb.issued, vectordb.calls;
      var deletingList, addingList := Classify(allFiles, embeddingDict);
      r, added := ApplyLists(deletingList, addingList, allFiles, scan, embeddingDict);
      assert unchanged(this);
      if r.Pass? {
        WriteRecordFile(ToDicts(Snapshots(allFiles)));
        PassedEffect(scan, embeddingDict, rf0, live0, issued0, calls0, Snapshots(allFiles), vectordb.live, added);
      }
    }

    /** Lines 184-188 of `trigger_embedding`: the file at `RecordPath()` is created or
        overwritten with the given entries; every other file stays as it was. */
    method WriteRecordFile(entries: seq<RecordJson>)
      modifies this
      ensures recordFiles == old(recordFiles)[RecordPath() := entries]
      ensures RecordFile() == Some(entries)
      ensures recordFiles - {RecordPath()} == old(recordFiles) - {RecordPath()}
    {
      recordFiles := recordFiles[RecordPath() := entries];
    }

    /** Lines 182-188 of `trigger_embedding`: delete the deleting list, then, if that did not
        raise, embed the adding list. The scanned files `allFiles` (ghost) already carry their
        ids from the records `embeddingDict`, and the lists are picked out of them by the
        actions of the scan `scan`. */
    method ApplyLists(
      deletingList: seq<FileForEmbedding>, addingList: seq<FileForEmbedding>,
      ghost allFiles: seq<FileForEmbedding>, ghost scan: seq<FileRecord>, embeddingDict: map<string, FileRecord>)
      returns (r: Outcome<Exception>, ghost added: seq<seq<string>>)
      requires vectordb.Valid() && Distinct(allFiles) && |scan| == |allFiles|
      requires forall j :: 0 <= j < |allFiles| ==> allFiles[j].file == scan[j].file
      requires Snapshots(allFiles) == CarriedRecords(scan, embeddingDict)
      requires deletingList == Select(allFiles, DeletingPositions(AsWritten, scan, embeddingDict))
      requires addingList == Select(allFiles, AddingPositions(AsWritten, scan, embeddingDict))
      modifies allFiles, vectordb
      ensures vectordb.Valid() && vectordb.durable == vectordb.live
      ensures r.Fail? ==>
        PassEffect(scan, embeddingDict, RecordFile(), RecordFile(), old(vectordb.live), old(vectordb.issued),
                   old(vectordb.calls), vectordb.live, vectordb.durable, vectordb.calls, r, added)
      ensures r.Pass? ==>
        && |added| == |AddingPositions(AsWritten, scan, embeddingDict)|
        && FreshBatches(added, old(vectordb.issued))
        && Snapshots(allFiles) == Reconciled(AsWritten, scan, embeddingDict, added)
        && vectordb.live == IndexAfter(AsWritten, old(vectordb.live), scan, embeddingDict, added)
        && vectordb.calls == old(vectordb.calls) + PassCalls(scan, embeddingDict)
    {
      ghost var dp := DeletingPositions(AsWritten, scan, embeddingDict);
      ghost var ap := AddingPositions(AsWritten, scan, embeddingDict);
      ghost var calls0, live0, issued0 := vectordb.calls, vectordb.live, vectordb.issued;

      r := DeleteEmbedding(deletingList, allFiles, dp);
      ghost var calls1 := calls0 + [DeleteCall(DeleteIds(AsWritten, scan, embeddingDict)), PersistCall];
      assert vectordb.calls == calls1;
      if r.Fail? {
        DeleteFailedEffect(scan, embeddingDict, RecordFile(), live0, issued0, calls0, vectordb.live, r);
        return r, [];
      }
      assert Snapshots(allFiles) == ClearIds(CarriedRecords(scan, embeddingDict), dp);
      assert vectordb.live == live0 - ToSet(DeleteIds(AsWritten, scan, embeddingDict));

      AddCallsOfSelect(allFiles, ap, scan);
      r, added := Embedding(addingList, allFiles, ap);
      if r.Fail? {
        AddCallsPrefix(addingList, |added| + 1);
        assert vectordb.calls == calls1 + AddCallsFor(scan, ap)[..|added| + 1] + [PersistCall];
        EmbedFailedEffect(scan, embeddingDict, RecordFile(), live0, issued0, calls0, vectordb.live, r, added);
        return r, added;
      }
      assert ap[..|added|] == ap;
      assert vectordb.calls == calls1 + AddCallsFor(scan, ap) + [PersistCall];
      PassCallsSplit(calls0, scan, embeddingDict);
    }

    /** `_delete_embedding`: every listed file's ids are collected in list order and cleared,
        then deleted from the index in one call; the index is persisted whether or not the
        delete raised. The list is picked out of `all` at the positions `pos` (both ghost), so
        the files of `all` at those positions, and no others, lose their ids. */
    method DeleteEmbedding(files: seq<FileForEmbedding>, ghost all: seq<FileForEmbedding>, ghost pos: seq<nat>)
      returns (r: Outcome<Exception>)
      requires vectordb.Valid() && Distinct(all) && IncreasingBelow(pos, |all|) && files == Select(all, pos)
      modifies files, vectordb
      ensures vectordb.Valid()
      ensures Snapshots(all) == ClearIds(old(Snapshots(all)), pos)
      ensures vectordb.calls == old(vectordb.calls) + [DeleteCall(AllIds(Select(old(Snapshots(all)), pos))), PersistCall]
      ensures vectordb.issued == old(vectordb.issued) && vectordb.durable == vectordb.live
      ensures r.Pass? ==> vectordb.live == old(vectordb.live) - ToSet(AllIds(Select(old(Snapshots(all)), pos)))
      ensures r.Fail? ==>
        old(vectordb.live) - ToSet(AllIds(Select(old(Snapshots(all)), pos))) <= vectordb.live <= old(vectordb.live)
    {
      var ids := TakeIds(files, all, pos);
      r := DeleteAndPersist(ids);
    }

    /** Lines 213-217 of `_delete_embedding`: one delete call with all the ids, then persist,
        whether or not the delete raised. */
    method DeleteAndPersist(ids: seq<string>) returns (r: Outcome<Exception>)
      requires vectordb.Valid()
      modifies vectordb
      ensures vectordb.Valid()
      ensures vectordb.calls == old(vectordb.calls) + [DeleteCall(ids), PersistCall]
      ensures vectordb.issued == old(vectordb.issued) && vectordb.durable == vectordb.live
      ensures r.Pass? ==> vectordb.live == old(vectordb.live) - ToSet(ids)
      ensures r.Fail? ==> old(vectordb.live) - ToSet(ids) <= vectordb.live <= old(vectordb.live)
    {
      r := vectordb.Delete(ids);
      vectordb.Persist();
    }

    /** One pass of the loop of `_embedding`: the file `all[k]` is added to the index and
        takes the returned ids; if the call raises, no file and no stored id changes. */
    method EmbedFile(item: FileForEmbedding, ghost all: seq<FileForEmbedding>, ghost k: nat)
      returns (r: Result<seq<string>, Exception>)
      requires vectordb.Valid() && Distinct(all) && k < |all| && all[k] == item
      modifies item, vectordb
      ensures vectordb.Valid()
      ensures vectordb.calls == old(vectordb.calls) + [AddCall(item.file)]
      ensures vectordb.durable == old(vectordb.durable)
      ensures r.Success? ==> ToSet(r.value) !! old(vectordb.issued)
      ensures r.Success? ==>
        && vectordb.live == old(vectordb.live) + ToSet(r.value)
        && vectordb.issued == old(vectordb.issued) + ToSet(r.value)
        && Snapshots(all) == old(Snapshots(all))[k := old(Snapshots(all))[k].(ids := r.value)]
      ensures r.Failure? ==>
        && vectordb.live == old(vectordb.live) && vectordb.issued == old(vectordb.issued)
        && Snapshots(all) == old(Snapshots(all))
    {
      r := vectordb.AddDocuments(item.file);
      if r.Success? {
        item.ids := r.value;
      }
    }

    /** `_embedding` (lines 190-202): the loop in its `try`, then the `finally` persist. */
    method Embedding(files: seq<FileForEmbedding>, ghost all: seq<FileForEmbedding>, ghost pos: seq<nat>)
      returns (r: Outcome<Exception>, ghost added: seq<seq<string>>)
      requires vectordb.Valid() && Distinct(all) && IncreasingBelow(pos, |all|) && files == Select(all, pos)
      modifies files, vectordb
      ensures vectordb.Valid()
      ensures r.Pass? ==> |added| == |files|
      ensures r.Fail? ==> |added| < |files|
      ensures |added| <= |pos| && Snapshots(all) == AssignIds(old(Snapshots(all)), pos[..|added|], added)
      ensures FreshBatches(added, old(vectordb.issued))
      ensures vectordb.live == old(vectordb.live) + UnionIds(added)
      ensures vectordb.issued == old(vectordb.issued) + UnionIds(added)
      ensures vectordb.durable == vectordb.live
      ensures r.Pass? ==> vectordb.calls == old(vectordb.calls) + AddCalls(files) + [PersistCall]
      ensures r.Fail? ==> vectordb.calls == old(vectordb.calls) + AddCalls(files[..|added| + 1]) + [PersistCall]
    {
      r, added := EmbedFiles(files, all, pos);
      vectordb.Persist();
    }

    /** The loop of `_embedding`: each listed file in turn is added to the index and takes the
        returned ids; the first call that raises ends the loop. `added` are the batches of ids
        returned, one per file handled. The list is picked out of `all` at the positions `pos`
        (both ghost): the files of `all` at the first `|added|` of those positions, and no
        others, take their batches. */
    method EmbedFiles(files: seq<FileForEmbedding>, ghost all: seq<FileForEmbedding>, ghost pos: seq<nat>)
      returns (r: Outcome<Exception>, ghost added: seq<seq<string>>)
      requires vectordb.Valid() && Distinct(all) && IncreasingBelow(pos, |all|) && files == Select(all, pos)
      modifies files, vectordb
      ensures vectordb.Valid()
      ensures r.Pass? ==> |added| == |files|
      ensures r.Fail? ==> |added| < |files|
      ensures |added| <= |pos| && Snapshots(all) == AssignIds(old(Snapshots(all)), pos[..|added|], added)
      ensures FreshBatches(added, old(vectordb.issued))
      ensures vectordb.live == old(vectordb.live) + UnionIds(added)
      ensures vectordb.issued == old(vectordb.issued) + UnionIds(added)
      ensures vectordb.durable == old(vectordb.durable)
      ensures r.Pass? ==> vectordb.calls == old(vectordb.calls) + AddCalls(files)
      ensures r.Fail? ==> vectordb.calls == old(vectordb.calls) + AddCalls(files[..|added| + 1])
    {
      ghost var before := Snapshots(all);
      ghost var live0, issued0, calls0 := vectordb.live, vectordb.issued, vectordb.calls;
      added := [];
      var i := 0;
      while i < |files|
        invariant 0 <= i <= |files| && |added| == i
        invariant vectordb.Valid() && vectordb.durable == old(vectordb.durable)
        invariant EmbedProgress(files, all, pos, before, i, added, live0, issued0, calls0)
      {
        var ids := EmbedStep(files, all, pos, before, i, added, live0, issued0, calls0);
        if ids.Failure? {
          assert |added| == i < |files| == |pos|;
          return Fail(ids.error), added;
        }
        added := added + [ids.value];
        i := i + 1;
      }
      assert files[..i] == files && i == |pos|;
      r := Pass;
    }

    /** After the first `i` files of the list took their batches `added`: the files of `all`
        at those positions hold them, the batches are fresh, the index holds and has handed
        out exactly them besides what it had, and one add call was made per file. */
    ghost predicate EmbedProgress(
      files: seq<FileForEmbedding>, all: seq<FileForEmbedding>, pos: seq<nat>, before: seq<FileRecord>,
      i: nat, added: seq<seq<string>>, live0: set<string>, issued0: set<string>, calls0: seq<IndexCall>)
      reads vectordb, all
      requires |added| == i <= |files| <= |pos|
    {
      && Snapshots(all) == AssignIds(before, pos[..i], added)
      && FreshBatches(added, issued0)
      && vectordb.live == live0 + UnionIds(added) && vectordb.issued == issued0 + UnionIds(added)
      && vectordb.calls == calls0 + AddCalls(files[..i])
    }

    /** One pass of the loop of `_embedding`, on the `i`-th listed file. */
    method EmbedStep(
      files: seq<FileForEmbedding>, ghost all: seq<FileForEmbedding>, ghost pos: seq<nat>, ghost before: seq<FileRecord>,
      i: nat, ghost added: seq<seq<string>>, ghost live0: set<string>, ghost issued0: set<string>, ghost calls0: seq<IndexCall>)
      returns (r: Result<seq<string>, Exception>)
      requires vectordb.Valid() && Distinct(all) && IncreasingBelow(pos, |all|) && files == Select(all, pos)
      requires i < |files| && |added| == i
      requires EmbedProgress(files, all, pos, before, i, added, live0, issued0, calls0)
      modifies files[i], vectordb
      ensures vectordb.Valid() && vectordb.durable == old(vectordb.durable)
      ensures r.Success? ==> EmbedProgress(files, all, pos, before, i + 1, added + [r.value], live0, issued0, calls0)
      ensures r.Failure? ==>
        && Snapshots(all) == AssignIds(before, pos[..i], added)
        && FreshBatches(added, issued0)
        && vectordb.live == live0 + UnionIds(added) && vectordb.issued == issued0 + UnionIds(added)
        && vectordb.calls == calls0 + AddCalls(files[..i + 1])
    {
      AddCallsSnoc(files, i, calls0);
      assert pos[i] !in pos[..i];
      r := EmbedFile(files[i], all, pos[i]);
      if r.Success? {
        UnionIdsSnoc(added, r.value, live0);
        UnionIdsSnoc(added, r.value, issued0);
        FreshBatchesSnoc(added, r.value, issued0);
        AssignIdsStep(before, pos, i, added, r.value);
      }
    }

    /** Lines 153-162: the records of the record file by path, or the exception of the first
        entry `from_dict` refuses; no file means no records. */
    method LoadEmbeddingRecords() returns (r: Result<map<string, FileRecord>, Exception>)
      ensures r == PriorRecords(RecordFile())
    {
      var embeddingDict: map<string, FileRecord> := map[];
      if RecordPath() in recordFiles {
        var dataList := recordFiles[RecordPath()];
        var k := 0;
        while k < |dataList|
          invariant 0 <= k <= |dataList|
          invariant ParseRecords(dataList[..k]).Success?
          invariant embeddingDict == RecordMap(ParseRecords(dataList[..k]).value)
        {
          var obj := FromDict(dataList[k]);
          MapAllStep(dataList, k, FromDict, ParseRecords(dataList[..k]).value);
          if obj.Failure? {
            return Failure(obj.error);
          }
          RecordMapAppend(ParseRecords(dataList[..k]).value, obj.value);
          embeddingDict := embeddingDict[obj.value.file := obj.value];
          k := k + 1;
        }
        assert dataList[..k] == dataList;
      }
      return Success(embeddingDict);
    }
  }
}
