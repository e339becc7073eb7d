/**
 * The `messages` table: an append-only log of chat records whose ids come
 * from an AUTOINCREMENT counter, and the recent-history query over it.
 * Rows are kept in id order; recency is taken to be id order.
 */
module MessageLog {
  import opened Types

  datatype ChatRecord = ChatRecord(id: nat, username: string, text: string, timestamp: Timestamp)

  /** The `LIMIT` of the history query. */
  const HistoryLimit: nat := 50

  function Min(a: nat, b: nat): nat {
    if a <= b then a else b
  }

  predicate IdsIncreasing(log: seq<ChatRecord>) {
    forall i, j :: 0 <= i < j < |log| ==> log[i].id < log[j].id
  }

  /** What SQLite keeps true of the table and its counter: ids start at 1,
      strictly increase along the log, and all lie below the next id. */
  predicate ValidLog(log: seq<ChatRecord>, nextId: nat) {
    && 1 <= nextId
    && IdsIncreasing(log)
    && forall i :: 0 <= i < |log| ==> 1 <= log[i].id < nextId
  }

  datatype Inserted = Inserted(log: seq<ChatRecord>, id: nat)

  /** `INSERT INTO messages (username, text)` with the default timestamp: one
      record is appended, its id taken from the counter and greater than every
      id already assigned, so no id is ever reused. */
  function Insert(log: seq<ChatRecord>, nextId: nat, username: string, text: string, now: Timestamp): (r: Inserted)
    requires ValidLog(log, nextId)
    ensures r.id == nextId
    ensures forall i :: 0 <= i < |log| ==> log[i].id < r.id
    ensures |r.log| == |log| + 1 && r.log[..|log|] == log
    ensures r.log[|log|] == ChatRecord(r.id, username, text, now)
    ensures ValidLog(r.log, r.id + 1)
  {
    Inserted(log + [ChatRecord(nextId, username, text, now)], nextId)
  }

  /** `ORDER BY ... DESC LIMIT n`: up to `limit` records, newest first. */
  function SelectNewestFirst(log: seq<ChatRecord>, limit: nat): (r: seq<ChatRecord>)
    ensures |r| == Min(limit, |log|)
    ensures forall i :: 0 <= i < |r| ==> r[i] == log[|log| - 1 - i]
  {
    if limit == 0 || log == [] then []
    else [log[|log| - 1]] + SelectNewestFirst(log[..|log| - 1], limit - 1)
  }

  /** `Array.prototype.reverse`. */
  function Reverse<T>(s: seq<T>): (r: seq<T>)
    ensures |r| == |s|
    ensures forall i :: 0 <= i < |s| ==> r[i] == s[|s| - 1 - i]
  {
    if s == [] then [] else Reverse(s[1..]) + [s[0]]
  }

  /** The `/api/messages` handler: the newest `HistoryLimit` records, turned
      back to oldest-first. This is the tail of the log. */
  function Recent(log: seq<ChatRecord>): (r: seq<ChatRecord>)
    ensures |r| == Min(HistoryLimit, |log|)
    ensures r == log[|log| - |r|..]
  {
    var newest := SelectNewestFirst(log, HistoryLimit);
    var r := Reverse(newest);
    assert forall i :: 0 <= i < |r| ==> r[i] == log[|log| - |r| + i];
    r
  }

  /** History is ordered and is the most recent part of the log: ids ascend
      through the result, and every record left out is older than every
      record returned. */
  lemma RecentIsNewestAscending(log: seq<ChatRecord>)
    requires IdsIncreasing(log)
    ensures IdsIncreasing(Recent(log))
    ensures forall i, j :: 0 <= i < |log| - |Recent(log)| && 0 <= j < |Recent(log)| ==> log[i].id < Recent(log)[j].id
  {
    var r := Recent(log);
    var off := |log| - |r|;
    assert forall j :: 0 <= j < |r| ==> r[j] == log[off + j];
  }

  /** History is complete while the log is short and capped once it is long. */
  lemma RecentSize(log: seq<ChatRecord>)
    ensures |log| <= HistoryLimit ==> Recent(log) == log
    ensures |log| > HistoryLimit ==> |Recent(log)| == HistoryLimit
  {
  }

  /** An insert moves the history window by one: the new record is appended
      to the previous history, whose oldest record drops out once the window
      was full. */
  lemma RecentAfterInsert(log: seq<ChatRecord>, nextId: nat, username: string, text: string, now: Timestamp)
    requires ValidLog(log, nextId)
    ensures var before := Recent(log);
      Recent(Insert(log, nextId, username, text, now).log)
        == (if |before| == HistoryLimit then before[1..] else before) + [ChatRecord(nextId, username, text, now)]
  {
    var rec := ChatRecord(nextId, username, text, now);
    var log' := log + [rec];
    assert Insert(log, nextId, username, text, now).log == log';
    var before := Recent(log);
    var after := Recent(log');
    if |log| < HistoryLimit {
      assert before == log;
      assert after == log';
    } else {
      var n := |log|;
      assert before == log[n - HistoryLimit..];
      assert after == log'[n + 1 - HistoryLimit..];
      assert log'[n + 1 - HistoryLimit..] == log[n + 1 - HistoryLimit..] + [rec];
      assert before[1..] == log[n + 1 - HistoryLimit..];
    }
  }
}
