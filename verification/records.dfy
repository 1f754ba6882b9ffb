/** One entry of embedding.json: `FileForEmbedding` as the record file stores it, and the
    `from_dict` / `to_dict` pair that reads and writes it (content_manager.py). */
module Records {
  import opened Wrappers
  import opened Errors
  import opened Timestamps

  /** The value of a `FileForEmbedding`: its path, the time of the document, the ids the index
      assigned to its chunks and whether it is published. */
  datatype FileRecord = FileRecord(
    file: string, updateTime: DateTime, ids: seq<string>, isValid: bool)

  /** No path occurs twice in a list of records; `Scanner.ScanTreeDistinctFiles` derives it
      for the traversal of a well-formed walk. */
  predicate DistinctFiles(scan: seq<FileRecord>) {
    forall i, j :: 0 <= i < j < |scan| ==> scan[i].file != scan[j].file
  }

  /** A record as the JSON file holds it: the time is text. */
  datatype RecordJson = RecordJson(
    file: string, updateTime: string, ids: seq<string>, isValid: bool)

  /** `to_dict`: the time rendered as `YYYY-MM-DDTHH:MM:SS.mmmZ`, every other field as is. */
  function ToDict(r: FileRecord): (d: RecordJson)
    requires Valid(r.updateTime)
    ensures d.file == r.file && d.ids == r.ids && d.isValid == r.isValid
    ensures |d.updateTime| == 24 && d.updateTime[23] == 'Z'
  {
    RecordJson(r.file, FormatTime(r.updateTime), r.ids, r.isValid)
  }

  /** `from_dict`: strip every trailing `Z`, parse the rest as an ISO time taken to be UTC;
      a time `fromisoformat` refuses raises ValueError. */
  function FromDict(d: RecordJson): (r: Result<FileRecord, Exception>)
    ensures r.Success? ==> r.value.file == d.file && r.value.ids == d.ids
    ensures r.Success? ==> r.value.isValid == d.isValid && Valid(r.value.updateTime)
    ensures r.Failure? <==> ParseIso(RStrip(d.updateTime, 'Z')).None?
  {
    match ParseIso(RStrip(d.updateTime, 'Z'))
    case None => Failure(ValueError("Invalid isoformat string: " + d.updateTime))
    case Some(t) => Success(FileRecord(d.file, t, d.ids, d.isValid))
  }

  /** Writing a record and reading it back keeps its path, ids and validity and cuts its time
      down to whole milliseconds. */
  lemma RecordRoundTrip(r: FileRecord)
    requires Valid(r.updateTime)
    ensures FromDict(ToDict(r)) == Success(r.(updateTime := TruncateToMillis(r.updateTime)))
  {
    ParseFormatTime(r.updateTime);
  }

  /** After one write and read, a record is a fixed point: writing it again gives the same
      JSON object, so a record file that is read and rewritten unchanged stays the same. */
  lemma RecordRewriteIsStable(r: FileRecord)
    requires Valid(r.updateTime)
    ensures FromDict(ToDict(r)).Success?
    ensures ToDict(FromDict(ToDict(r)).value) == ToDict(r)
  {
    RecordRoundTrip(r);
    var t := r.updateTime;
    FormatTimeFields(t);
    FormatTimeFields(TruncateToMillis(t));
  }

  /** A record survives the round trip unchanged exactly when its time has no
      sub-millisecond part. */
  lemma RecordRoundTripExact(r: FileRecord)
    requires Valid(r.updateTime)
    ensures FromDict(ToDict(r)) == Success(r) <==> HasMillisecondPrecision(r.updateTime)
  {
    RecordRoundTrip(r);
  }
}
