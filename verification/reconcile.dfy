/** The bookkeeping of `ContentManager.trigger_embedding` (content_manager.py), as values: how
    each scanned file is classified against the prior record, which ids the batched delete
    receives, which record list is written back and what the index holds afterwards. A pass
    is stated for a `Rule`: `AsWritten` is the program's classification, the one the imperative
    methods in module Manager are proved to follow; `Corrected` is the evidently intended one,
    under which invalid records hold no ids as test_content_manager.py:250-252 and 274-279
    expect; the two differ only on invalid files whose date moved forward. */
module Reconcile {
  import opened Wrappers
  import opened Sequencing
  import opened Errors
  import opened Timestamps
  import opened Records

  /** The lists a scanned file is appended to. */
  datatype Action = Keep | DeleteOnly | AddOnly | DeleteAndAdd {
    predicate Deletes() { this == DeleteOnly || this == DeleteAndAdd }
    predicate Adds() { this == AddOnly || this == DeleteAndAdd }
  }

  datatype ListKind = Deleting | Adding

  predicate Selects(kind: ListKind, a: Action) {
    match kind
    case Deleting => a.Deletes()
    case Adding => a.Adds()
  }

  function ToSet(ids: seq<string>): set<string> {
    set id | id in ids
  }

  // ---------------------------------------------------------------------------------------
  // Loading the prior record (trigger_embedding, lines 153-162)

  /** `from_dict` over the entries in file order; the first entry it refuses stops the load. */
  function ParseRecords(list: seq<RecordJson>): (r: Result<seq<FileRecord>, Exception>)
    ensures r.Success? ==> |r.value| == |list|
    ensures r.Success? ==> forall i :: 0 <= i < |list| ==>
      && r.value[i].file == list[i].file && r.value[i].ids == list[i].ids
      && r.value[i].isValid == list[i].isValid && Valid(r.value[i].updateTime)
    ensures r.Failure? <==> exists i :: 0 <= i < |list| && FromDict(list[i]).Failure?
  {
    MapAllPointwise(list, FromDict);
    MapAll(list, FromDict)
  }

  lemma RecordMapAppend(recs: seq<FileRecord>, r: FileRecord)
    ensures RecordMap(recs + [r]) == RecordMap(recs)[r.file := r]
  {
    assert (recs + [r])[..|recs|] == recs;
  }

  /** `embedding_dict[obj.file] = obj` for each record in turn: a later record for the same
      path replaces an earlier one. */
  function RecordMap(recs: seq<FileRecord>): (m: map<string, FileRecord>)
    ensures forall i :: 0 <= i < |recs| ==> recs[i].file in m
    ensures forall f :: f in m ==> m[f].file == f && m[f] in recs
  {
    if recs == [] then map[]
    else
      var n := |recs| - 1;
      assert forall i :: 0 <= i < n ==> recs[..n][i] == recs[i];
      RecordMap(recs[..n])[recs[n].file := recs[n]]
  }

  /** The `embedding_dict` built from the entries of the record file (lines 159-162): every
      entry's path is a key, every key holds a record with that path and a valid time. */
  function LoadRecordList(list: seq<RecordJson>): (r: Result<map<string, FileRecord>, Exception>)
    ensures r.Success? ==> forall i :: 0 <= i < |list| ==> list[i].file in r.value
    ensures r.Success? ==> forall f :: f in r.value ==> r.value[f].file == f && Valid(r.value[f].updateTime)
  {
    var recs :- ParseRecords(list);
    Success(RecordMap(recs))
  }

  /** With distinct paths, every record is found under its own path. */
  lemma {:induction false} RecordMapDistinct(recs: seq<FileRecord>)
    requires DistinctFiles(recs)
    ensures forall i :: 0 <= i < |recs| ==> recs[i].file in RecordMap(recs) && RecordMap(recs)[recs[i].file] == recs[i]
  {
    if recs != [] {
      var n := |recs| - 1;
      var init := recs[..n];
      assert DistinctFiles(init);
      RecordMapDistinct(init);
      var m := RecordMap(init);
      assert RecordMap(recs) == m[recs[n].file := recs[n]];
      forall i | 0 <= i < |recs| ensures recs[i].file in RecordMap(recs) && RecordMap(recs)[recs[i].file] == recs[i] {
        if i < n {
          assert init[i] == recs[i] && recs[i].file != recs[n].file;
        }
      }
    }
  }

  /** A missing record file is an empty prior state. */
  function PriorRecords(recordFile: Option<seq<RecordJson>>): Result<map<string, FileRecord>, Exception> {
    match recordFile
    case None => Success(map[])
    case Some(list) => LoadRecordList(list)
  }

  // ---------------------------------------------------------------------------------------
  // Classification (lines 166-180)

  /** The branch `trigger_embedding` takes for one scanned file, as written: a file already on
      record that became invalid is deleted, one that became valid is added, and otherwise one
      whose date is strictly newer than the record's is rebuilt (delete and add), whatever its
      validity; a new file is added when valid. */
  function Decide(item: FileRecord, prior: map<string, FileRecord>): (a: Action)
    ensures a.Deletes() ==> item.file in prior
    ensures a.Adds() && !item.isValid <==>
      item.file in prior && !prior[item.file].isValid && !item.isValid
      && Before(prior[item.file].updateTime, item.updateTime)
  {
    if item.file in prior then
      var record := prior[item.file];
      if !item.isValid && record.isValid then DeleteOnly
      else if !record.isValid && item.isValid then AddOnly
      else if Before(record.updateTime, item.updateTime) then DeleteAndAdd
      else Keep
    else if item.isValid then AddOnly
    else Keep
  }

  /** The classification table, case by case. */
  lemma DecideTable(item: FileRecord, prior: map<string, FileRecord>)
    ensures item.file !in prior ==>
      !Decide(item, prior).Deletes() && (Decide(item, prior).Adds() <==> item.isValid)
    ensures item.file in prior && prior[item.file].isValid && !item.isValid ==>
      Decide(item, prior) == DeleteOnly
    ensures item.file in prior && !prior[item.file].isValid && item.isValid ==>
      Decide(item, prior) == AddOnly
    ensures item.file in prior && prior[item.file].isValid == item.isValid ==>
      (Decide(item, prior) == DeleteAndAdd <==> Before(prior[item.file].updateTime, item.updateTime))
    ensures item.file in prior && prior[item.file].isValid == item.isValid ==>
      (Decide(item, prior) == Keep <==> !Before(prior[item.file].updateTime, item.updateTime))
  {
  }

  /** The evidently intended decision: a file is rebuilt on a newer date only when it is
      valid both on record and on disk, so only valid files are ever added and only valid
      records are ever deleted. */
  function DecideCorrected(item: FileRecord, prior: map<string, FileRecord>): (a: Action)
    ensures a.Adds() ==> item.isValid
    ensures a.Deletes() ==> item.file in prior && prior[item.file].isValid
  {
    if item.file in prior then
      var record := prior[item.file];
      if !item.isValid && record.isValid then DeleteOnly
      else if !record.isValid && item.isValid then AddOnly
      else if item.isValid && Before(record.updateTime, item.updateTime) then DeleteAndAdd
      else Keep
    else if item.isValid then AddOnly
    else Keep
  }

  /** Which of the two decisions a pass follows: the program runs `AsWritten`. */
  datatype Rule = AsWritten | Corrected

  function DecideBy(rule: Rule, item: FileRecord, prior: map<string, FileRecord>): (a: Action)
    ensures a.Deletes() ==> item.file in prior
  {
    match rule
    case AsWritten => Decide(item, prior)
    case Corrected => DecideCorrected(item, prior)
  }

  /** `item.IDs = record.IDs`: a file on record takes over the record's ids. */
  function Carried(item: FileRecord, prior: map<string, FileRecord>): FileRecord {
    if item.file in prior then item.(ids := prior[item.file].ids) else item
  }

  function Actions(rule: Rule, scan: seq<FileRecord>, prior: map<string, FileRecord>): (acts: seq<Action>)
    ensures |acts| == |scan|
  {
    seq(|scan|, i requires 0 <= i < |scan| => DecideBy(rule, scan[i], prior))
  }

  function CarriedRecords(scan: seq<FileRecord>, prior: map<string, FileRecord>): (recs: seq<FileRecord>)
    ensures |recs| == |scan|
    ensures forall i :: 0 <= i < |scan| ==> recs[i] == scan[i].(ids := recs[i].ids)
  {
    seq(|scan|, i requires 0 <= i < |scan| => Carried(scan[i], prior))
  }

  /** The scan after the first `i` files have taken over their records' ids. */
  function CarriedUpTo(scan: seq<FileRecord>, prior: map<string, FileRecord>, i: nat): (recs: seq<FileRecord>)
    ensures |recs| == |scan|
  {
    seq(|scan|, j requires 0 <= j < |scan| => if j < i then Carried(scan[j], prior) else scan[j])
  }

  lemma CarriedUpToSnoc(scan: seq<FileRecord>, prior: map<string, FileRecord>, i: nat)
    requires i < |scan|
    ensures CarriedUpTo(scan, prior, i + 1) == CarriedUpTo(scan, prior, i)[i := Carried(scan[i], prior)]
  {
  }

  lemma CarriedUpToAll(scan: seq<FileRecord>, prior: map<string, FileRecord>)
    ensures CarriedUpTo(scan, prior, 0) == scan
    ensures CarriedUpTo(scan, prior, |scan|) == CarriedRecords(scan, prior)
  {
  }

  /** The positions, in scan order, of the files appended to one list: exactly those whose
      action selects that list, each once, increasing. */
  function Positions(acts: seq<Action>, kind: ListKind): (r: seq<nat>)
    ensures forall k :: 0 <= k < |r| ==> r[k] < |acts| && Selects(kind, acts[r[k]])
    ensures forall i :: 0 <= i < |acts| && Selects(kind, acts[i]) ==> i in r
    ensures forall k, l :: 0 <= k < l < |r| ==> r[k] < r[l]
  {
    if acts == [] then []
    else
      var n := |acts| - 1;
      var init := Positions(acts[..n], kind);
      assert forall i :: 0 <= i < n ==> acts[..n][i] == acts[i];
      init + (if Selects(kind, acts[n]) then [n] else [])
  }

  function DeletingPositions(rule: Rule, scan: seq<FileRecord>, prior: map<string, FileRecord>): seq<nat> {
    Positions(Actions(rule, scan, prior), Deleting)
  }

  function AddingPositions(rule: Rule, scan: seq<FileRecord>, prior: map<string, FileRecord>): seq<nat> {
    Positions(Actions(rule, scan, prior), Adding)
  }

  /** One more file classified: its position joins the list its action selects. */
  lemma PositionsSnoc(acts: seq<Action>, i: nat, kind: ListKind)
    requires i < |acts|
    ensures Positions(acts[..i + 1], kind) == Positions(acts[..i], kind) + (if Selects(kind, acts[i]) then [i] else [])
  {
    assert acts[..i + 1][..i] == acts[..i];
  }

  // ---------------------------------------------------------------------------------------
  // The effect of _delete_embedding and _embedding on the records and on the index

  /** Where `x` stands in a sequence that holds it. */
  function IndexIn(s: seq<nat>, x: nat): (k: nat)
    requires x in s
    ensures k < |s| && s[k] == x
  {
    if s[0] == x then 0 else 1 + IndexIn(s[1..], x)
  }

  lemma {:induction false} IndexInIncreasing(s: seq<nat>, k: nat)
    requires k < |s|
    requires forall a, b :: 0 <= a < b < |s| ==> s[a] < s[b]
    ensures IndexIn(s, s[k]) == k
    decreases k
  {
    if k > 0 {
      assert s[0] < s[k];
      assert s[1..][k - 1] == s[k];
      IndexInIncreasing(s[1..], k - 1);
    }
  }

  /** The elements at the given positions, in that order: the deleting and adding lists are
      the scanned files picked out this way. */
  function Select<T>(xs: seq<T>, pos: seq<nat>): (r: seq<T>)
    requires forall k :: 0 <= k < |pos| ==> pos[k] < |xs|
    ensures |r| == |pos| && forall k :: 0 <= k < |pos| ==> r[k] == xs[pos[k]]
  {
    seq(|pos|, k requires 0 <= k < |pos| => xs[pos[k]])
  }

  lemma SelectSnoc<T>(xs: seq<T>, pos: seq<nat>, p: nat)
    requires forall k :: 0 <= k < |pos| ==> pos[k] < |xs|
    requires p < |xs|
    ensures Select(xs, pos + [p]) == Select(xs, pos) + [xs[p]]
  {
  }

  /** The ids `_delete_embedding` hands the index: every listed record's ids, concatenated in
      list order. */
  function AllIds(recs: seq<FileRecord>): (ids: seq<string>)
    ensures forall id :: id in ids <==> exists k :: 0 <= k < |recs| && id in recs[k].ids
  {
    if recs == [] then []
    else
      var n := |recs| - 1;
      var init := AllIds(recs[..n]);
      assert forall k :: 0 <= k < n ==> recs[..n][k] == recs[k];
      init + recs[n].ids
  }

  lemma AllIdsSnoc(recs: seq<FileRecord>, i: nat)
    requires i < |recs|
    ensures AllIds(recs[..i + 1]) == AllIds(recs[..i]) + recs[i].ids
  {
    assert recs[..i + 1][..i] == recs[..i];
  }

  /** After `_delete_embedding`: the listed records' ids are cleared. */
  function ClearIds(recs: seq<FileRecord>, pos: seq<nat>): (r: seq<FileRecord>)
    ensures |r| == |recs|
    ensures forall i :: 0 <= i < |recs| ==> r[i] == recs[i].(ids := r[i].ids)
  {
    seq(|recs|, i requires 0 <= i < |recs| => if i in pos then recs[i].(ids := []) else recs[i])
  }

  /** After `_embedding`: the k-th listed record holds the k-th batch of returned ids. */
  function AssignIds(recs: seq<FileRecord>, pos: seq<nat>, added: seq<seq<string>>): (r: seq<FileRecord>)
    requires |added| == |pos|
    ensures |r| == |recs|
    ensures forall i :: 0 <= i < |recs| ==> r[i] == recs[i].(ids := r[i].ids)
  {
    seq(|recs|, i requires 0 <= i < |recs| =>
      if i in pos then recs[i].(ids := added[IndexIn(pos, i)]) else recs[i])
  }

  /** Clearing over one more position clears that record alone. */
  lemma ClearIdsSnoc(recs: seq<FileRecord>, pos: seq<nat>, i: nat)
    requires forall k :: 0 <= k < |pos| ==> pos[k] < |recs|
    requires i < |pos| && pos[i] !in pos[..i]
    ensures ClearIds(recs, pos[..i])[pos[i]] == recs[pos[i]]
    ensures var done := ClearIds(recs, pos[..i]);
      ClearIds(recs, pos[..i + 1]) == done[pos[i] := done[pos[i]].(ids := [])]
  {
    assert forall j :: j in pos[..i + 1] <==> j in pos[..i] || j == pos[i];
  }

  /** One more listed file takes its batch: assigning over one more position changes that
      record alone. */
  lemma AssignIdsSnoc(recs: seq<FileRecord>, pos: seq<nat>, i: nat, added: seq<seq<string>>, b: seq<string>)
    requires forall k :: 0 <= k < |pos| ==> pos[k] < |recs|
    requires forall k, l :: 0 <= k < l < |pos| ==> pos[k] < pos[l]
    requires i < |pos| && |added| == i
    ensures AssignIds(recs, pos[..i + 1], added + [b]) ==
      AssignIds(recs, pos[..i], added)[pos[i] := recs[pos[i]].(ids := b)]
  {
    var after := AssignIds(recs, pos[..i + 1], added + [b]);
    var want := AssignIds(recs, pos[..i], added)[pos[i] := recs[pos[i]].(ids := b)];
    forall j | 0 <= j < |recs|
      ensures after[j] == want[j]
    {
      AssignIdsSnocAt(recs, pos, i, added, b, j);
    }
  }

  /** `AssignIdsSnoc` at one position `j`. */
  lemma AssignIdsSnocAt(recs: seq<FileRecord>, pos: seq<nat>, i: nat, added: seq<seq<string>>, b: seq<string>, j: nat)
    requires forall k :: 0 <= k < |pos| ==> pos[k] < |recs|
    requires forall k, l :: 0 <= k < l < |pos| ==> pos[k] < pos[l]
    requires i < |pos| && |added| == i && j < |recs|
    ensures AssignIds(recs, pos[..i + 1], added + [b])[j] ==
      AssignIds(recs, pos[..i], added)[pos[i] := recs[pos[i]].(ids := b)][j]
  {
    var p, q := pos[..i], pos[..i + 1];
    if j == pos[i] {
      IndexInIncreasing(q, i);
    } else if j in p {
      var k := IndexIn(p, j);
      IndexInIncreasing(q, k);
    } else {
      assert j !in q;
    }
  }

  /** The same step seen from the records so far: the file at `pos[i]` alone takes `b`. */
  lemma AssignIdsStep(recs: seq<FileRecord>, pos: seq<nat>, i: nat, added: seq<seq<string>>, b: seq<string>)
    requires forall k :: 0 <= k < |pos| ==> pos[k] < |recs|
    requires forall k, l :: 0 <= k < l < |pos| ==> pos[k] < pos[l]
    requires i < |pos| && |added| == i
    ensures var done := AssignIds(recs, pos[..i], added);
      AssignIds(recs, pos[..i + 1], added + [b]) == done[pos[i] := done[pos[i]].(ids := b)]
  {
    AssignIdsSnoc(recs, pos, i, added, b);
    var done := AssignIds(recs, pos[..i], added);
    assert done[pos[i]].(ids := b) == recs[pos[i]].(ids := b);
  }

  function UnionIds(batches: seq<seq<string>>): (u: set<string>)
    ensures forall id :: id in u <==> exists k :: 0 <= k < |batches| && id in batches[k]
  {
    if batches == [] then {}
    else
      var n := |batches| - 1;
      var init := UnionIds(batches[..n]);
      assert forall k :: 0 <= k < n ==> batches[..n][k] == batches[k];
      init + ToSet(batches[n])
  }

  /** One more batch on top of the ids `base` held before the first. */
  lemma UnionIdsSnoc(batches: seq<seq<string>>, b: seq<string>, base: set<string>)
    ensures UnionIds(batches + [b]) == UnionIds(batches) + ToSet(b)
    ensures base + UnionIds(batches + [b]) == (base + UnionIds(batches)) + ToSet(b)
  {
    assert (batches + [b])[..|batches|] == batches;
  }

  /** The ids the single batched delete call receives. */
  function DeleteIds(rule: Rule, scan: seq<FileRecord>, prior: map<string, FileRecord>): (ids: seq<string>)
    ensures forall id :: id in ids <==>
      exists i :: 0 <= i < |scan| && DecideBy(rule, scan[i], prior).Deletes() && id in prior[scan[i].file].ids
  {
    var ids := AllIds(Select(CarriedRecords(scan, prior), DeletingPositions(rule, scan, prior)));
    DeletedIdsOfDeletingFiles(rule, scan, prior, ids);
    ids
  }

  lemma DeletedIdsOfDeletingFiles(rule: Rule, scan: seq<FileRecord>, prior: map<string, FileRecord>, ids: seq<string>)
    requires ids == AllIds(Select(CarriedRecords(scan, prior), DeletingPositions(rule, scan, prior)))
    ensures forall id :: id in ids <==>
      exists i :: 0 <= i < |scan| && DecideBy(rule, scan[i], prior).Deletes() && id in prior[scan[i].file].ids
  {
    forall id
      ensures id in ids <==>
        exists i :: 0 <= i < |scan| && DecideBy(rule, scan[i], prior).Deletes() && id in prior[scan[i].file].ids
    {
      if id in ids {
        DeletedIdOfDeletingFile(rule, scan, prior, ids, id);
      }
      if exists i :: 0 <= i < |scan| && DecideBy(rule, scan[i], prior).Deletes() && id in prior[scan[i].file].ids {
        var i :| 0 <= i < |scan| && DecideBy(rule, scan[i], prior).Deletes() && id in prior[scan[i].file].ids;
        DeletingFileIdIsDeleted(rule, scan, prior, ids, i, id);
      }
    }
  }

  lemma DeletedIdOfDeletingFile(rule: Rule, scan: seq<FileRecord>, prior: map<string, FileRecord>, ids: seq<string>, id: string)
    requires ids == AllIds(Select(CarriedRecords(scan, prior), DeletingPositions(rule, scan, prior)))
    requires id in ids
    ensures exists i :: 0 <= i < |scan| && DecideBy(rule, scan[i], prior).Deletes() && id in prior[scan[i].file].ids
  {
    var acts := Actions(rule, scan, prior);
    var dp := DeletingPositions(rule, scan, prior);
    var recs := CarriedRecords(scan, prior);
    var sel := Select(recs, dp);
    var k :| 0 <= k < |sel| && id in sel[k].ids;
    var i := dp[k];
    assert Selects(Deleting, acts[i]);
    assert recs[i] == Carried(scan[i], prior);
    assert DecideBy(rule, scan[i], prior).Deletes() && id in prior[scan[i].file].ids;
  }

  lemma DeletingFileIdIsDeleted(rule: Rule, scan: seq<FileRecord>, prior: map<string, FileRecord>, ids: seq<string>, i: nat, id: string)
    requires ids == AllIds(Select(CarriedRecords(scan, prior), DeletingPositions(rule, scan, prior)))
    requires i < |scan| && DecideBy(rule, scan[i], prior).Deletes() && id in prior[scan[i].file].ids
    ensures id in ids
  {
    var acts := Actions(rule, scan, prior);
    var dp := DeletingPositions(rule, scan, prior);
    var sel := Select(CarriedRecords(scan, prior), dp);
    assert Selects(Deleting, acts[i]);
    var k :| 0 <= k < |dp| && dp[k] == i;
    assert sel[k] == Carried(scan[i], prior);
  }

  /** The record list a successful pass writes: the scan in scan order, each file holding the
      ids it carried from the record, cleared if it was deleted, replaced if it was added.
      `added` are the ids the index returned, one batch per file of the adding list. */
  function Reconciled(rule: Rule, scan: seq<FileRecord>, prior: map<string, FileRecord>, added: seq<seq<string>>)
    : (recs: seq<FileRecord>)
    requires |added| == |AddingPositions(rule, scan, prior)|
    ensures |recs| == |scan|
    ensures forall i :: 0 <= i < |scan| ==>
      && recs[i].file == scan[i].file && recs[i].updateTime == scan[i].updateTime
      && recs[i].isValid == scan[i].isValid
  {
    AssignIds(ClearIds(CarriedRecords(scan, prior), DeletingPositions(rule, scan, prior)),
              AddingPositions(rule, scan, prior), added)
  }

  /** The ids stored in the index after a successful pass. */
  function IndexAfter(rule: Rule, live: set<string>, scan: seq<FileRecord>, prior: map<string, FileRecord>,
                      added: seq<seq<string>>): (after: set<string>)
    ensures UnionIds(added) <= after <= live + UnionIds(added)
    ensures forall id :: id in live && id !in DeleteIds(rule, scan, prior) ==> id in after
    ensures forall id :: id in DeleteIds(rule, scan, prior) && id !in UnionIds(added) ==> id !in after
  {
    (live - ToSet(DeleteIds(rule, scan, prior))) + UnionIds(added)
  }

  /** Batches of ids the index returned: none was handed out before, and no two batches share
      an id. */
  predicate FreshBatches(added: seq<seq<string>>, issued: set<string>) {
    && (forall k :: 0 <= k < |added| ==> ToSet(added[k]) !! issued)
    && (forall k, l :: 0 <= k < l < |added| ==> ToSet(added[k]) !! ToSet(added[l]))
  }

  /** A new batch that shares no id with anything handed out so far keeps the batches fresh. */
  lemma FreshBatchesSnoc(added: seq<seq<string>>, b: seq<string>, issued: set<string>)
    requires FreshBatches(added, issued)
    requires ToSet(b) !! issued + UnionIds(added)
    ensures FreshBatches(added + [b], issued)
  {
    var all := added + [b];
    forall k, l | 0 <= k < l < |all| ensures ToSet(all[k]) !! ToSet(all[l]) {
      if l == |added| {
        assert forall id :: id in all[k] ==> id in UnionIds(added);
      }
    }
  }

  /** One record of a successful pass: path, time and validity come from the scan; the ids are
      the returned batch if the file was added, empty if it was only deleted, and otherwise
      the ids carried over from the prior record. */
  lemma {:induction false} ReconciledAt(
    rule: Rule, scan: seq<FileRecord>, prior: map<string, FileRecord>, added: seq<seq<string>>, i: nat)
    requires |added| == |AddingPositions(rule, scan, prior)|
    requires i < |scan|
    ensures var a := DecideBy(rule, scan[i], prior);
      var r := Reconciled(rule, scan, prior, added)[i];
      && r.file == scan[i].file && r.updateTime == scan[i].updateTime && r.isValid == scan[i].isValid
      && (a.Adds() ==> i in AddingPositions(rule, scan, prior)
                       && r.ids == added[IndexIn(AddingPositions(rule, scan, prior), i)])
      && (a == DeleteOnly ==> r.ids == [])
      && (a == Keep ==> r.ids == Carried(scan[i], prior).ids)
  {
    var acts := Actions(rule, scan, prior);
    assert acts[i] == DecideBy(rule, scan[i], prior);
    var dp := DeletingPositions(rule, scan, prior);
    var ap := AddingPositions(rule, scan, prior);
    if !acts[i].Adds() {
      assert i !in ap;
    }
    if !acts[i].Deletes() {
      assert i !in dp;
    }
  }

  // ---------------------------------------------------------------------------------------
  // Properties of a pass

  /** The record file a successful pass writes, one `to_dict` entry per scanned file. */
  function ToDicts(recs: seq<FileRecord>): (ds: seq<RecordJson>)
    requires forall i :: 0 <= i < |recs| ==> Valid(recs[i].updateTime)
    ensures |ds| == |recs|
  {
    seq(|recs|, i requires 0 <= i < |recs| => ToDict(recs[i]))
  }

  /** Reading back a record list with distinct paths gives every record under its own path,
      its time cut to whole milliseconds. */
  lemma LoadWrittenRecords(recs: seq<FileRecord>)
    requires DistinctFiles(recs)
    requires forall i :: 0 <= i < |recs| ==> Valid(recs[i].updateTime)
    ensures LoadRecordList(ToDicts(recs)).Success?
    ensures forall i :: 0 <= i < |recs| ==>
      (recs[i].file in LoadRecordList(ToDicts(recs)).value &&
       LoadRecordList(ToDicts(recs)).value[recs[i].file] == Truncated(recs[i]))
  {
    var ds := ToDicts(recs);
    var back := TruncatedAll(recs);
    forall i | 0 <= i < |recs| ensures FromDict(ds[i]) == Success(back[i]) {
      RecordRoundTrip(recs[i]);
    }
    ParseRecordsOf(ds, back);
    assert DistinctFiles(back);
    RecordMapDistinct(back);
  }

  function TruncatedAll(recs: seq<FileRecord>): (back: seq<FileRecord>)
    ensures |back| == |recs| && forall i :: 0 <= i < |recs| ==> back[i] == Truncated(recs[i])
  {
    seq(|recs|, i requires 0 <= i < |recs| => Truncated(recs[i]))
  }

  lemma ParseRecordsOf(ds: seq<RecordJson>, back: seq<FileRecord>)
    requires |ds| == |back|
    requires forall i :: 0 <= i < |ds| ==> FromDict(ds[i]) == Success(back[i])
    ensures ParseRecords(ds) == Success(back)
  {
    MapAllPointwise(ds, FromDict);
    assert MapAll(ds, FromDict).Success?;
    assert MapAll(ds, FromDict).value == back;
  }

  /** A record as it reads back from the file. */
  function Truncated(r: FileRecord): FileRecord {
    r.(updateTime := TruncateToMillis(r.updateTime))
  }

  lemma {:induction false} NothingSelected(acts: seq<Action>, kind: ListKind)
    requires forall i :: 0 <= i < |acts| ==> !Selects(kind, acts[i])
    ensures Positions(acts, kind) == []
  {
    if acts != [] {
      var n := |acts| - 1;
      assert forall i :: 0 <= i < n ==> acts[..n][i] == acts[i];
      NothingSelected(acts[..n], kind);
    }
  }

  /** A prior record whose path no file of the deleting list has keeps its ids out of the
      delete call, as long as no other record claims one of them. */
  lemma UnlistedRecordIsNotDeleted(rule: Rule, scan: seq<FileRecord>, prior: map<string, FileRecord>, f: string)
    requires f in prior
    requires forall k :: 0 <= k < |DeletingPositions(rule, scan, prior)| ==>
      scan[DeletingPositions(rule, scan, prior)[k]].file != f
    requires forall g :: g in prior && g != f ==> ToSet(prior[g].ids) !! ToSet(prior[f].ids)
    ensures ToSet(prior[f].ids) !! ToSet(DeleteIds(rule, scan, prior))
  {
    var carried := CarriedRecords(scan, prior);
    var dp := DeletingPositions(rule, scan, prior);
    var listed := Select(carried, dp);
    forall id | id in prior[f].ids ensures id !in DeleteIds(rule, scan, prior) {
      forall k | 0 <= k < |dp| ensures id !in listed[k].ids {
        var i := dp[k];
        assert DecideBy(rule, scan[i], prior).Deletes();
        assert scan[i].file in prior && carried[i].ids == prior[scan[i].file].ids by {
          assert carried[i] == Carried(scan[i], prior);
        }
        assert ToSet(prior[scan[i].file].ids) !! ToSet(prior[f].ids);
        assert id in ToSet(prior[f].ids);
      }
    }
  }

  /** Files that vanished from disk: a prior record whose path is not scanned is dropped from
      the new record list, and none of its ids is in the delete call unless another record
      claims the same id, so its chunks stay in the index. */
  lemma VanishedFilesAreNotDeleted(
    rule: Rule, scan: seq<FileRecord>, prior: map<string, FileRecord>, added: seq<seq<string>>, live: set<string>,
    f: string)
    requires |added| == |AddingPositions(rule, scan, prior)|
    requires f in prior && ToSet(prior[f].ids) <= live
    requires forall i :: 0 <= i < |scan| ==> scan[i].file != f
    requires forall g :: g in prior && g != f ==> ToSet(prior[g].ids) !! ToSet(prior[f].ids)
    ensures forall i :: 0 <= i < |Reconciled(rule, scan, prior, added)| ==>
      Reconciled(rule, scan, prior, added)[i].file != f
    ensures ToSet(prior[f].ids) <= IndexAfter(rule, live, scan, prior, added)
  {
    UnlistedRecordIsNotDeleted(rule, scan, prior, f);
  }

  /** Every id a record holds is stored in the index, and no id belongs to two records. */
  predicate Tracked(recs: seq<FileRecord>, live: set<string>) {
    && (forall i :: 0 <= i < |recs| ==> ToSet(recs[i].ids) <= live)
    && (forall i, j :: 0 <= i < j < |recs| ==> ToSet(recs[i].ids) !! ToSet(recs[j].ids))
  }

  predicate PriorTracked(prior: map<string, FileRecord>, live: set<string>) {
    && (forall f :: f in prior ==> ToSet(prior[f].ids) <= live)
    && (forall f, g :: f in prior && g in prior && f != g ==> ToSet(prior[f].ids) !! ToSet(prior[g].ids))
  }

  /** Where the ids of one written record come from, for a scan whose files carry no ids. */
  lemma RecordIdsOrigin(
    rule: Rule, scan: seq<FileRecord>, prior: map<string, FileRecord>, added: seq<seq<string>>, i: nat)
    requires |added| == |AddingPositions(rule, scan, prior)|
    requires i < |scan| && scan[i].ids == []
    ensures var r := Reconciled(rule, scan, prior, added)[i];
      var a := DecideBy(rule, scan[i], prior);
      && (a.Adds() ==> r.ids == added[IndexIn(AddingPositions(rule, scan, prior), i)])
      && (!a.Adds() ==> r.ids == [] || (a == Keep && scan[i].file in prior && r.ids == prior[scan[i].file].ids))
  {
    ReconciledAt(rule, scan, prior, added, i);
  }

  /** A successful pass keeps the record file in step with the index: if every prior record's
      ids are stored and no two records share one, and the index hands out ids it never issued
      before, then afterwards every id of the written records is stored in the index and no
      two written records share one. */
  lemma PassKeepsRecordsTracked(
    rule: Rule, scan: seq<FileRecord>, prior: map<string, FileRecord>, live: set<string>, issued: set<string>,
    added: seq<seq<string>>)
    requires DistinctFiles(scan)
    requires forall i :: 0 <= i < |scan| ==> scan[i].ids == []
    requires PriorTracked(prior, live) && live <= issued
    requires |added| == |AddingPositions(rule, scan, prior)| && FreshBatches(added, issued)
    ensures Tracked(Reconciled(rule, scan, prior, added), IndexAfter(rule, live, scan, prior, added))
  {
    PassKeepsRecordsStored(rule, scan, prior, live, added);
    PassKeepsRecordsDisjoint(rule, scan, prior, live, issued, added);
  }

  /** After a successful pass every id of the written records is stored in the index. */
  lemma PassKeepsRecordsStored(
    rule: Rule, scan: seq<FileRecord>, prior: map<string, FileRecord>, live: set<string>, added: seq<seq<string>>)
    requires DistinctFiles(scan)
    requires forall i :: 0 <= i < |scan| ==> scan[i].ids == []
    requires PriorTracked(prior, live)
    requires |added| == |AddingPositions(rule, scan, prior)|
    ensures var recs := Reconciled(rule, scan, prior, added);
      forall i :: 0 <= i < |recs| ==> ToSet(recs[i].ids) <= IndexAfter(rule, live, scan, prior, added)
  {
    var recs := Reconciled(rule, scan, prior, added);
    var after := IndexAfter(rule, live, scan, prior, added);
    var ap := AddingPositions(rule, scan, prior);
    var dp := DeletingPositions(rule, scan, prior);
    forall i | 0 <= i < |recs| ensures ToSet(recs[i].ids) <= after {
      RecordIdsOrigin(rule, scan, prior, added, i);
      var a := DecideBy(rule, scan[i], prior);
      if a.Adds() {
        var k := IndexIn(ap, i);
        assert forall id :: id in recs[i].ids ==> id in added[k];
      } else if a == Keep && scan[i].file in prior {
        var f := scan[i].file;
        forall k | 0 <= k < |dp| ensures scan[dp[k]].file != f {
          assert Actions(rule, scan, prior)[dp[k]].Deletes();
          assert dp[k] != i;
        }
        UnlistedRecordIsNotDeleted(rule, scan, prior, f);
      }
    }
  }

  /** After a successful pass no two written records share an id. */
  lemma PassKeepsRecordsDisjoint(
    rule: Rule, scan: seq<FileRecord>, prior: map<string, FileRecord>, live: set<string>, issued: set<string>,
    added: seq<seq<string>>)
    requires DistinctFiles(scan)
    requires forall i :: 0 <= i < |scan| ==> scan[i].ids == []
    requires PriorTracked(prior, live) && live <= issued
    requires |added| == |AddingPositions(rule, scan, prior)| && FreshBatches(added, issued)
    ensures var recs := Reconciled(rule, scan, prior, added);
      forall i, j :: 0 <= i < j < |recs| ==> ToSet(recs[i].ids) !! ToSet(recs[j].ids)
  {
    var recs := Reconciled(rule, scan, prior, added);
    forall i, j | 0 <= i < j < |recs| ensures ToSet(recs[i].ids) !! ToSet(recs[j].ids) {
      PassKeepsPairDisjoint(rule, scan, prior, live, issued, added, i, j);
    }
  }

  /** `PassKeepsRecordsDisjoint` for one pair of written records. */
  lemma PassKeepsPairDisjoint(
    rule: Rule, scan: seq<FileRecord>, prior: map<string, FileRecord>, live: set<string>, issued: set<string>,
    added: seq<seq<string>>, i: nat, j: nat)
    requires DistinctFiles(scan)
    requires forall i :: 0 <= i < |scan| ==> scan[i].ids == []
    requires PriorTracked(prior, live) && live <= issued
    requires |added| == |AddingPositions(rule, scan, prior)| && FreshBatches(added, issued)
    requires i < j < |scan|
    ensures var recs := Reconciled(rule, scan, prior, added);
      ToSet(recs[i].ids) !! ToSet(recs[j].ids)
  {
    var recs := Reconciled(rule, scan, prior, added);
    var ap := AddingPositions(rule, scan, prior);
    RecordIdsOrigin(rule, scan, prior, added, i);
    RecordIdsOrigin(rule, scan, prior, added, j);
    var ai, aj := DecideBy(rule, scan[i], prior), DecideBy(rule, scan[j], prior);
    var x, y := recs[i].ids, recs[j].ids;
    if x == [] || y == [] {
    } else if ai.Adds() && aj.Adds() {
      BatchesDisjoint(added, issued, IndexIn(ap, i), IndexIn(ap, j));
    } else if ai.Adds() {
      BatchAvoidsPrior(prior, live, issued, added, IndexIn(ap, i), scan[j].file);
    } else if aj.Adds() {
      BatchAvoidsPrior(prior, live, issued, added, IndexIn(ap, j), scan[i].file);
    } else {
      assert scan[i].file != scan[j].file;
    }
  }

  /** Two different batches the index handed out share no id. */
  lemma BatchesDisjoint(added: seq<seq<string>>, issued: set<string>, k: nat, l: nat)
    requires FreshBatches(added, issued) && k < |added| && l < |added| && k != l
    ensures ToSet(added[k]) !! ToSet(added[l])
  {
    if l < k {
      assert ToSet(added[l]) !! ToSet(added[k]);
    }
  }

  /** A fresh batch shares no id with a record the index already held. */
  lemma BatchAvoidsPrior(
    prior: map<string, FileRecord>, live: set<string>, issued: set<string>, added: seq<seq<string>>,
    k: nat, f: string)
    requires PriorTracked(prior, live) && live <= issued && FreshBatches(added, issued)
    requires k < |added| && f in prior
    ensures ToSet(added[k]) !! ToSet(prior[f].ids)
  {
    assert ToSet(prior[f].ids) <= issued;
  }

  /** Against the record a pass wrote, every file of the same scan is kept and takes back
      exactly the record written for it. */
  lemma RerunKeepsEveryFile(rule: Rule, scan: seq<FileRecord>, prior: map<string, FileRecord>, added: seq<seq<string>>)
    requires DistinctFiles(scan)
    requires forall i :: 0 <= i < |scan| ==>
      Valid(scan[i].updateTime) && HasMillisecondPrecision(scan[i].updateTime)
    requires |added| == |AddingPositions(rule, scan, prior)|
    ensures LoadRecordList(ToDicts(Reconciled(rule, scan, prior, added))).Success?
    ensures var recs := Reconciled(rule, scan, prior, added);
      var again := LoadRecordList(ToDicts(recs)).value;
      forall i :: 0 <= i < |scan| ==> Actions(rule, scan, again)[i] == Keep && Carried(scan[i], again) == recs[i]
  {
    var recs := Reconciled(rule, scan, prior, added);
    assert DistinctFiles(recs);
    LoadWrittenRecords(recs);
    var again := LoadRecordList(ToDicts(recs)).value;
    forall i | 0 <= i < |scan| ensures Actions(rule, scan, again)[i] == Keep && Carried(scan[i], again) == recs[i] {
      assert again[scan[i].file] == recs[i];
      BeforeIsStrictTotalOrder(recs[i].updateTime, recs[i].updateTime, recs[i].updateTime);
    }
  }

  /** Running a pass again on an unchanged tree, against the record the first pass wrote, does
      nothing, provided every file's date has whole milliseconds: no file is deleted or added,
      the delete call receives no ids, and the record written is the same. */
  lemma RerunIsQuiet(rule: Rule, scan: seq<FileRecord>, prior: map<string, FileRecord>, added: seq<seq<string>>)
    requires DistinctFiles(scan)
    requires forall i :: 0 <= i < |scan| ==>
      Valid(scan[i].updateTime) && HasMillisecondPrecision(scan[i].updateTime)
    requires |added| == |AddingPositions(rule, scan, prior)|
    ensures var recs := Reconciled(rule, scan, prior, added);
      && LoadRecordList(ToDicts(recs)).Success?
      && var again := LoadRecordList(ToDicts(recs)).value;
      && DeletingPositions(rule, scan, again) == []
      && AddingPositions(rule, scan, again) == []
      && DeleteIds(rule, scan, again) == []
      && Reconciled(rule, scan, again, []) == recs
  {
    RerunKeepsEveryFile(rule, scan, prior, added);
    var recs := Reconciled(rule, scan, prior, added);
    QuietWhenEveryFileIsKept(rule, scan, LoadRecordList(ToDicts(recs)).value, recs);
  }

  /** A pass in which every file is kept and takes back `recs` deletes and adds nothing, and
      writes `recs`. */
  lemma QuietWhenEveryFileIsKept(rule: Rule, scan: seq<FileRecord>, prior: map<string, FileRecord>, recs: seq<FileRecord>)
    requires |recs| == |scan|
    requires forall i :: 0 <= i < |scan| ==> Actions(rule, scan, prior)[i] == Keep && Carried(scan[i], prior) == recs[i]
    ensures DeletingPositions(rule, scan, prior) == [] && AddingPositions(rule, scan, prior) == []
    ensures DeleteIds(rule, scan, prior) == []
    ensures Reconciled(rule, scan, prior, []) == recs
  {
    var acts := Actions(rule, scan, prior);
    NothingSelected(acts, Deleting);
    NothingSelected(acts, Adding);
    assert CarriedRecords(scan, prior) == recs;
    assert ClearIds(recs, []) == recs;
    assert AssignIds(recs, [], []) == recs;
  }

  /** A file whose date has a sub-millisecond part is rebuilt on every pass: the record keeps
      the date cut to milliseconds, which is always older than the date read from disk. */
  lemma SubMillisecondDateIsRebuiltEveryPass(
    rule: Rule, scan: seq<FileRecord>, prior: map<string, FileRecord>, added: seq<seq<string>>, i: nat)
    requires DistinctFiles(scan)
    requires forall j :: 0 <= j < |scan| ==> Valid(scan[j].updateTime)
    requires |added| == |AddingPositions(rule, scan, prior)|
    requires i < |scan| && !HasMillisecondPrecision(scan[i].updateTime)
    ensures var recs := Reconciled(rule, scan, prior, added);
      && LoadRecordList(ToDicts(recs)).Success?
      && Decide(scan[i], LoadRecordList(ToDicts(recs)).value) == DeleteAndAdd
      && (scan[i].isValid ==> DecideCorrected(scan[i], LoadRecordList(ToDicts(recs)).value) == DeleteAndAdd)
  {
    var recs := Reconciled(rule, scan, prior, added);
    assert DistinctFiles(recs);
    LoadWrittenRecords(recs);
    var t := scan[i].updateTime;
    BeforeIsStrictTotalOrder(TruncateToMillis(t), t, t);
  }

  // ---------------------------------------------------------------------------------------
  // Finding: as written, an invalid file with a newer date is indexed

  /** A file invalid both on record and on disk whose date moved forward is put on the adding
      list by the code as written, so an unpublished document is embedded and its record,
      still invalid, holds the new ids; the corrected decision keeps it. */
  lemma InvalidFileWithNewerDateIsIndexed()
    ensures var prior := map["a.md" := FileRecord("a.md", DateTime(2024, 1, 1, 0, 0, 0, 0), [], false)];
      var item := FileRecord("a.md", DateTime(2024, 1, 2, 0, 0, 0, 0), [], false);
      && Decide(item, prior) == DeleteAndAdd
      && !item.isValid
      && DecideCorrected(item, prior) == Keep
  {
  }

  /** At the level of a whole pass: the code as written embeds that file and writes its record
      invalid but holding the new ids, while the corrected pass adds nothing. */
  lemma InvalidFileWithNewerDateHoldsIds()
    ensures var prior := map["a.md" := FileRecord("a.md", DateTime(2024, 1, 1, 0, 0, 0, 0), [], false)];
      var scan := [FileRecord("a.md", DateTime(2024, 1, 2, 0, 0, 0, 0), [], false)];
      && AddingPositions(AsWritten, scan, prior) == [0]
      && !Reconciled(AsWritten, scan, prior, [["id1"]])[0].isValid
      && Reconciled(AsWritten, scan, prior, [["id1"]])[0].ids == ["id1"]
      && AddingPositions(Corrected, scan, prior) == []
  {
    var prior := map["a.md" := FileRecord("a.md", DateTime(2024, 1, 1, 0, 0, 0, 0), [], false)];
    var scan := [FileRecord("a.md", DateTime(2024, 1, 2, 0, 0, 0, 0), [], false)];
    assert Actions(AsWritten, scan, prior) == [DeleteAndAdd];
    assert Actions(Corrected, scan, prior) == [Keep];
    ReconciledAt(AsWritten, scan, prior, [["id1"]], 0);
  }

  /** The two decisions agree on every file that is valid, new, or whose date did not move
      forward. */
  lemma DecideAgreesWithCodeOnValidFiles(item: FileRecord, prior: map<string, FileRecord>)
    requires item.isValid || item.file !in prior || !Before(prior[item.file].updateTime, item.updateTime)
    ensures DecideCorrected(item, prior) == Decide(item, prior)
  {
  }

  /** With the corrected decision, a pass keeps the invariant the tests expect, that an invalid record
      holds no ids: if every invalid prior record holds none and the scan carries none, every
      invalid record written holds none. */
  lemma InvalidRecordsHoldNoIds(scan: seq<FileRecord>, prior: map<string, FileRecord>, added: seq<seq<string>>)
    requires forall i :: 0 <= i < |scan| ==> scan[i].ids == []
    requires forall f :: f in prior && !prior[f].isValid ==> prior[f].ids == []
    requires |added| == |AddingPositions(Corrected, scan, prior)|
    ensures forall i :: 0 <= i < |scan| && !Reconciled(Corrected, scan, prior, added)[i].isValid ==>
      Reconciled(Corrected, scan, prior, added)[i].ids == []
  {
    forall i | 0 <= i < |scan| && !Reconciled(Corrected, scan, prior, added)[i].isValid
      ensures Reconciled(Corrected, scan, prior, added)[i].ids == []
    {
      ReconciledAt(Corrected, scan, prior, added, i);
    }
  }
}
