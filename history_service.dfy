/**
 * The local job history of history_service.py: a JSON file holding a list
 * of entries. The file is a field of a store object; reading it gives the
 * JSON document, nothing when it does not exist, or a failure when it cannot
 * be read or parsed. The clock and the path objects are passed in as text.
 */
module HistoryService {
  import opened Wrappers
  import opened Json

  const Pending := "PENDENTE"
  const NotReleased := "NAO_LIBERADO"

  /**
   * `HistoryEntry`: the dataclass does not check the types of its fields,
   * so each holds whatever JSON value it was built from.
   */
  datatype HistoryEntry = HistoryEntry(
    jobId: Value,
    timestamp: Value,
    oldPathLocal: Value,
    newPathLocal: Value,
    resultPathLocal: Value,
    serverLogStatus: Value,
    serverReleasedStatus: Value,
    serverLogMessage: Value,
    serverReleasedMessage: Value)

  const Required: set<string> := {"job_id", "timestamp", "old_path_local", "new_path_local", "result_path_local"}
  const Optional: set<string> := {"server_log_status", "server_released_status", "server_log_message", "server_released_message"}

  /**
   * `HistoryEntry(**item)`: the item is a dict naming every field without a
   * default and no field the class lacks; the fields it leaves out take
   * their defaults.
   */
  function BuildEntry(item: Value): Option<HistoryEntry> {
    if item.Object? && Required <= item.fields.Keys && item.fields.Keys <= Required + Optional then
      var f := item.fields;
      Some(HistoryEntry(f["job_id"], f["timestamp"], f["old_path_local"], f["new_path_local"], f["result_path_local"],
                        Get(f, "server_log_status", Str(Pending)), Get(f, "server_released_status", Str(NotReleased)),
                        Get(f, "server_log_message", Str("")), Get(f, "server_released_message", Str(""))))
    else None
  }

  /**
   * An item builds an entry exactly when it is a dict naming every required
   * field and nothing else; the entry holds the item's values, and the
   * defaults where the item leaves a field out.
   */
  lemma BuildEntryLaws(item: Value)
    ensures var r := BuildEntry(item);
            (r.Some? <==> item.Object? && Required <= item.fields.Keys && item.fields.Keys <= Required + Optional)
            && (r.Some? ==> r.value.jobId == item.fields["job_id"] && r.value.timestamp == item.fields["timestamp"]
                             && r.value.oldPathLocal == item.fields["old_path_local"]
                             && r.value.newPathLocal == item.fields["new_path_local"]
                             && r.value.resultPathLocal == item.fields["result_path_local"])
            && (r.Some? && "server_log_status" in item.fields ==>
                  r.value.serverLogStatus == item.fields["server_log_status"])
            && (r.Some? && "server_released_status" in item.fields ==>
                  r.value.serverReleasedStatus == item.fields["server_released_status"])
            && (r.Some? && "server_log_message" in item.fields ==>
                  r.value.serverLogMessage == item.fields["server_log_message"])
            && (r.Some? && "server_released_message" in item.fields ==>
                  r.value.serverReleasedMessage == item.fields["server_released_message"])
            && (r.Some? && "server_log_status" !in item.fields ==> r.value.serverLogStatus == Str(Pending))
            && (r.Some? && "server_released_status" !in item.fields ==> r.value.serverReleasedStatus == Str(NotReleased))
            && (r.Some? && "server_log_message" !in item.fields ==> r.value.serverLogMessage == Str(""))
            && (r.Some? && "server_released_message" !in item.fields ==> r.value.serverReleasedMessage == Str(""))
  {
  }

  /** `asdict(entry)`. */
  function ToJson(e: HistoryEntry): Value {
    Object(map["job_id" := e.jobId, "timestamp" := e.timestamp, "old_path_local" := e.oldPathLocal,
               "new_path_local" := e.newPathLocal, "result_path_local" := e.resultPathLocal,
               "server_log_status" := e.serverLogStatus, "server_released_status" := e.serverReleasedStatus,
               "server_log_message" := e.serverLogMessage, "server_released_message" := e.serverReleasedMessage])
  }

  /** A saved entry loads back as itself. */
  lemma EntryRoundTrip(e: HistoryEntry)
    ensures BuildEntry(ToJson(e)) == Some(e)
  {
    var f := ToJson(e).fields;
    assert f.Keys == Required + Optional;
  }

  /** A value is kept exactly when it is present, and nothing is lost when every option holds one. */
  lemma {:induction false} SomesLaws<T>(bs: seq<Option<T>>)
    ensures forall e :: e in Somes(bs) <==> exists k :: 0 <= k < |bs| && bs[k] == Some(e)
    ensures (forall k :: 0 <= k < |bs| ==> bs[k].Some?) ==> |Somes(bs)| == |bs|
  {
    if bs != [] {
      var n := |bs| - 1;
      SomesLaws(bs[..n]);
      assert forall k :: 0 <= k < n ==> bs[..n][k] == bs[k];
    }
  }

  /** The loop of `load_history`: the items that build an entry, in order. */
  function Entries(items: seq<Value>): (r: seq<HistoryEntry>)
    ensures |r| <= |items|
  {
    Somes(seq(|items|, k requires 0 <= k < |items| => BuildEntry(items[k])))
  }

  /** Every item that cannot build an entry is skipped, and every other one gives its entry. */
  lemma EntriesLaws(items: seq<Value>)
    ensures forall e :: e in Entries(items) <==> exists k :: 0 <= k < |items| && BuildEntry(items[k]) == Some(e)
    ensures (forall k :: 0 <= k < |items| ==> BuildEntry(items[k]).Some?) ==> |Entries(items)| == |items|
  {
    var bs := seq(|items|, k requires 0 <= k < |items| => BuildEntry(items[k]));
    SomesLaws(bs);
    assert forall k :: 0 <= k < |items| ==> bs[k] == BuildEntry(items[k]);
  }

  /** What reading the history file gives. */
  datatype Stored = Missing | Unreadable | Document(doc: Value)

  /** `ensure_history_storage`: a missing file is created holding an empty list. */
  function Ensured(s: Stored): (r: Stored)
    ensures r != Missing
    ensures s != Missing ==> r == s
  {
    if s.Missing? then Document(List([])) else s
  }

  /**
   * `load_history`: nothing when the file cannot be read or parsed or does
   * not hold a list, otherwise the entries of its list.
   */
  function Loaded(s: Stored): (r: seq<HistoryEntry>)
    ensures s.Missing? || s.Unreadable? ==> r == []
    ensures s.Document? && !s.doc.List? ==> r == []
    ensures s.Document? && s.doc.List? ==> r == Entries(s.doc.items)
  {
    match Ensured(s)
    case Document(v) => if v.List? then Entries(v.items) else []
    case _ => []
  }

  /** `save_history`: the file holds the list of the entries as dicts. */
  function Serialized(es: seq<HistoryEntry>): Stored {
    Document(List(seq(|es|, k requires 0 <= k < |es| => ToJson(es[k]))))
  }

  /** When every option holds a value, the values are exactly those, in order. */
  lemma {:induction false} SomesAll<T>(bs: seq<Option<T>>)
    requires forall k :: 0 <= k < |bs| ==> bs[k].Some?
    ensures Somes(bs) == seq(|bs|, k requires 0 <= k < |bs| => bs[k].value)
  {
    if bs != [] {
      var n := |bs| - 1;
      SomesAll(bs[..n]);
    }
  }

  /** Loading what was saved gives back the saved entries. */
  lemma LoadSerialized(es: seq<HistoryEntry>)
    ensures Loaded(Serialized(es)) == es
  {
    var items := Serialized(es).doc.items;
    var bs := seq(|items|, k requires 0 <= k < |items| => BuildEntry(items[k]));
    forall k | 0 <= k < |es|
      ensures bs[k] == Some(es[k])
    {
      EntryRoundTrip(es[k]);
    }
    SomesAll(bs);
  }

  /** The fields `update_entry_status` may set; `None` leaves a field alone. */
  datatype StatusUpdate = StatusUpdate(
    logStatus: Option<string>,
    releaseStatus: Option<string>,
    logMessage: Option<string>,
    releaseMessage: Option<string>)

  /** The entry with the update's given fields set. */
  function Apply(e: HistoryEntry, u: StatusUpdate): (r: HistoryEntry)
    ensures r.serverLogStatus == if u.logStatus.Some? then Str(u.logStatus.value) else e.serverLogStatus
    ensures r.serverLogMessage == if u.logMessage.Some? then Str(u.logMessage.value) else e.serverLogMessage
    ensures r.serverReleasedStatus == if u.releaseStatus.Some? then Str(u.releaseStatus.value) else e.serverReleasedStatus
    ensures r.serverReleasedMessage == if u.releaseMessage.Some? then Str(u.releaseMessage.value) else e.serverReleasedMessage
    ensures r.(serverLogStatus := e.serverLogStatus, serverLogMessage := e.serverLogMessage,
               serverReleasedStatus := e.serverReleasedStatus, serverReleasedMessage := e.serverReleasedMessage) == e
  {
    var e1 := if u.logStatus.Some? then e.(serverLogStatus := Str(u.logStatus.value)) else e;
    var e2 := if u.logMessage.Some? then e1.(serverLogMessage := Str(u.logMessage.value)) else e1;
    var e3 := if u.releaseStatus.Some? then e2.(serverReleasedStatus := Str(u.releaseStatus.value)) else e2;
    if u.releaseMessage.Some? then e3.(serverReleasedMessage := Str(u.releaseMessage.value)) else e3
  }

  /** The index of the first entry with the job id, or the length when there is none. */
  function FirstJob(es: seq<HistoryEntry>, jobId: string): (k: nat)
    ensures k <= |es|
    ensures k < |es| ==> es[k].jobId == Str(jobId)
    ensures forall j :: 0 <= j < k ==> es[j].jobId != Str(jobId)
  {
    if es == [] then 0 else if es[0].jobId == Str(jobId) then 0 else 1 + FirstJob(es[1..], jobId)
  }

  /** The entries after `update_entry_status`: only the first entry of the job is changed. */
  function UpdateFirst(es: seq<HistoryEntry>, jobId: string, u: StatusUpdate): seq<HistoryEntry> {
    var k := FirstJob(es, jobId);
    if k < |es| then es[k := Apply(es[k], u)] else es
  }

  /**
   * The update keeps the number of entries and every entry but the first
   * one of the job; that one keeps its job id, paths and timestamp and
   * gets exactly the given fields; with no entry of the job, nothing changes.
   */
  lemma UpdateLaws(es: seq<HistoryEntry>, jobId: string, u: StatusUpdate)
    ensures var r := UpdateFirst(es, jobId, u);
            var k := FirstJob(es, jobId);
            |r| == |es|
            && (forall j :: 0 <= j < |es| && j != k ==> r[j] == es[j])
            && (k == |es| <==> forall j :: 0 <= j < |es| ==> es[j].jobId != Str(jobId))
            && (k == |es| ==> r == es)
            && (k < |es| ==> r[k] == Apply(es[k], u) && r[k].jobId == Str(jobId)
                             && r[k].timestamp == es[k].timestamp && r[k].resultPathLocal == es[k].resultPathLocal)
  {
  }

  /**
   * `build_history_entry`, with the clock's ISO timestamp and the paths as
   * text: the new entry is pending, not released and has no messages, and
   * it saves and loads back unchanged.
   */
  function BuildHistoryEntry(jobId: string, timestamp: string, oldPath: string, newPath: string, resultPath: string)
    : (e: HistoryEntry)
    ensures e.jobId == Str(jobId) && e.timestamp == Str(timestamp)
    ensures e.oldPathLocal == Str(oldPath) && e.newPathLocal == Str(newPath) && e.resultPathLocal == Str(resultPath)
    ensures e.serverLogStatus == Str(Pending) && e.serverReleasedStatus == Str(NotReleased)
    ensures e.serverLogMessage == Str("") && e.serverReleasedMessage == Str("")
    ensures BuildEntry(ToJson(e)) == Some(e)
  {
    var item := Object(map["job_id" := Str(jobId), "timestamp" := Str(timestamp), "old_path_local" := Str(oldPath),
                           "new_path_local" := Str(newPath), "result_path_local" := Str(resultPath)]);
    assert item.fields.Keys == Required;
    var e := BuildEntry(item).value;
    EntryRoundTrip(e);
    e
  }

  /** The history file, read and rewritten by the module's functions. */
  class HistoryStore {
    var file: Stored

    constructor(initial: Stored)
      ensures file == initial
    {
      file := initial;
    }

    /** `ensure_history_storage`. */
    method EnsureStorage()
      modifies this
      ensures file == Ensured(old(file))
    {
      if file.Missing? {
        file := Document(List([]));
      }
    }

    /** `load_history`: creates a missing file, then keeps the items that build an entry. */
    method LoadHistory() returns (entries: seq<HistoryEntry>)
      modifies this
      ensures file == Ensured(old(file))
      ensures entries == Loaded(old(file))
    {
      EnsureStorage();
      entries := [];
      if !file.Document? || !file.doc.List? {
        return;
      }
      var items := file.doc.items;
      ghost var built := seq(|items|, k requires 0 <= k < |items| => BuildEntry(items[k]));
      for i := 0 to |items|
        invariant entries == Somes(built[..i])
      {
        assert built[..i + 1][..i] == built[..i];
        var b := BuildEntry(items[i]);
        if b.Some? {
          entries := entries + [b.value];
        }
      }
      assert built[..|items|] == built;
    }

    /** `save_history`. */
    method SaveHistory(entries: seq<HistoryEntry>)
      modifies this
      ensures file == Serialized(entries)
    {
      EnsureStorage();
      file := Serialized(entries);
    }

    /** `append_entry`: the loaded entries and the new one are saved. */
    method AppendEntry(entry: HistoryEntry)
      modifies this
      ensures file == Serialized(Loaded(old(file)) + [entry])
    {
      var entries := LoadHistory();
      entries := entries + [entry];
      SaveHistory(entries);
    }

    /**
     * `update_entry_status`: the first entry of the job gets the given
     * fields and the entries are saved; without such an entry the file is
     * only created if it was missing.
     */
    method UpdateEntryStatus(jobId: string, u: StatusUpdate)
      modifies this
      ensures var before := Loaded(old(file));
              FirstJob(before, jobId) == |before| ==> file == Ensured(old(file))
      ensures var before := Loaded(old(file));
              FirstJob(before, jobId) < |before| ==> file == Serialized(UpdateFirst(before, jobId, u))
    {
      var entries := LoadHistory();
      var i := 0;
      while i < |entries| && entries[i].jobId != Str(jobId)
        invariant i <= |entries|
        invariant forall j :: 0 <= j < i ==> entries[j].jobId != Str(jobId)
      {
        i := i + 1;
      }
      if i < |entries| {
        entries := entries[i := Apply(entries[i], u)];
        SaveHistory(entries);
      }
    }
  }

  /**
   * After `append_entry` the history loads as the earlier entries followed
   * by the new one: one entry more, at the end, the others unchanged.
   */
  lemma AppendLaws(s: Stored, entry: HistoryEntry)
    ensures var after := Loaded(Serialized(Loaded(s) + [entry]));
            |after| == |Loaded(s)| + 1 && after[|Loaded(s)|] == entry
            && forall j :: 0 <= j < |Loaded(s)| ==> after[j] == Loaded(s)[j]
  {
    LoadSerialized(Loaded(s) + [entry]);
  }

  /** After an update the history loads as the updated entries. */
  lemma UpdateLoads(s: Stored, jobId: string, u: StatusUpdate)
    ensures Loaded(Serialized(UpdateFirst(Loaded(s), jobId, u))) == UpdateFirst(Loaded(s), jobId, u)
  {
    LoadSerialized(UpdateFirst(Loaded(s), jobId, u));
  }
}
