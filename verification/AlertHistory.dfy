/**
 The alert_history table of database.py, one row per dedup window.

 A window's opener inserts its row with count 1; closing the window overwrites that row's count.
 Rows past the retention cutoff are deleted now and then, in the opener's transaction.
 */
module AlertHistory {
  import opened Wrappers
  import opened Dedup
  import opened Sums

  const RETENTION: Time := 14.0 * 86400.0
  const FUTURE_TOLERANCE: Time := 3600.0
  const OLDEST_ACCEPTED: Time := 30.0 * 86400.0
  const PRUNE_INTERVAL: Time := 300.0
  const HOUR: Time := 3600.0
  const DAY: Time := 86400.0
  const WEEK: Time := 604800.0

  /** A row; `id` is its (dedup_key, timestamp) pair. */
  datatype Row = Row(ruleId: string, host: string, id: WindowId, count: nat)

  type Table = seq<Row>

  /** The row that opens a window. */
  function NewRow(ruleId: string, host: string, id: WindowId): Row {
    Row(ruleId, host, id, 1)
  }

  /** A missing, far-future or very old timestamp is replaced by the current time. */
  function Sanitize(ts: Option<Time>, now: Time): Time {
    match ts
    case None => now
    case Some(t) => if t > now + FUTURE_TOLERANCE || t < now - OLDEST_ACCEPTED then now else t
  }

  /** A timestamp from 30 days before the clock to an hour after it is kept, and only such a one. */
  lemma SanitizeExactly(ts: Option<Time>, now: Time)
    ensures ts.Some? && now - 2592000.0 <= ts.value <= now + 3600.0 ==> Sanitize(ts, now) == ts.value
    ensures ts.None? || ts.value < now - 2592000.0 || now + 3600.0 < ts.value ==> Sanitize(ts, now) == now
    ensures ts.Some? ==> (Sanitize(ts, now) == ts.value <==> now - 2592000.0 <= ts.value <= now + 3600.0)
  {
  }

  /** The UPDATE of a window close: every row with this identity gets the count. */
  function SetCount(t: Table, id: WindowId, count: nat): (r: Table)
    ensures |r| == |t|
    ensures forall i :: 0 <= i < |t| ==> r[i] == if t[i].id == id then t[i].(count := count) else t[i]
  {
    seq(|t|, i requires 0 <= i < |t| => if t[i].id == id then t[i].(count := count) else t[i])
  }

  /** The retention DELETE. */
  function DeleteBefore(t: Table, cutoff: Time): (r: Table)
    ensures forall x :: x in r <==> x in t && x.id.openedAt >= cutoff
  {
    if t == [] then []
    else
      var last := t[|t| - 1];
      DeleteBefore(t[..|t| - 1], cutoff) + if last.id.openedAt < cutoff then [] else [last]
  }

  /** An opener's committed transaction: the INSERT, and the DELETE when one is due. */
  function Opened(t: Table, row: Row, cutoff: Option<Time>): Table {
    match cutoff
    case None => t + [row]
    case Some(c) => DeleteBefore(t + [row], c)
  }

  /** A close applied to the table; a count of at most 1 is already what the opener wrote. */
  function Closed(t: Table, c: Close): Table {
    if c.count <= 1 then t else SetCount(t, c.id, c.count)
  }

  /** What a row adds to one SUM of the baseline query: the CASE on `since`, the WHERE on `oldest`. */
  function Counted(ruleId: string, host: string, since: Time, oldest: Time): Row -> nat {
    (r: Row) =>
      if r.ruleId == ruleId && r.host == host && r.id.openedAt >= oldest && r.id.openedAt >= since then r.count else 0
  }

  function SumCase(t: Table, ruleId: string, host: string, since: Time, oldest: Time): nat {
    Weigh(Counted(ruleId, host, since, oldest), t)
  }

  datatype Baseline = Baseline(lastHour: nat, lastDay: nat, lastWeek: nat, lastFortnight: nat)

  function BaselineAt(t: Table, ruleId: string, host: string, now: Time): Baseline {
    var oldest := now - RETENTION;
    Baseline(SumCase(t, ruleId, host, now - HOUR, oldest),
             SumCase(t, ruleId, host, now - DAY, oldest),
             SumCase(t, ruleId, host, now - WEEK, oldest),
             SumCase(t, ruleId, host, oldest, oldest))
  }

  /**
   What became of an opener's transaction in the end. A commit that fails comes after the prune test, which
   has restarted the interval by then.
   */
  datatype Outcome = Written | CommitFailed | InsertFailed

  class HistoryStore {
    var rows: Table
    var lastPrune: Time

    constructor ()
      ensures rows == [] && lastPrune == 0.0
    {
      rows := [];
      lastPrune := 0.0;
    }

    /** True at most once per interval. */
    method ShouldPrune(now: Time) returns (due: bool)
      modifies this`lastPrune
      ensures due == (now - old(lastPrune) > 300.0)
      ensures lastPrune == if due then now else old(lastPrune)
    {
      due := now - lastPrune > PRUNE_INTERVAL;
      if due {
        lastPrune := now;
      }
    }

    method RecordWindowOpen(ruleId: string, host: string, key: Key, windowTs: Time, now: Time,
                            cutoffNow: Time, outcome: Outcome)
      returns (stored: Option<Time>)
      modifies this
      ensures stored == if outcome.Written? then Some(Sanitize(Some(windowTs), now)) else None
      ensures lastPrune == if !outcome.InsertFailed? && now - old(lastPrune) > 300.0 then now else old(lastPrune)
      ensures !outcome.Written? ==> rows == old(rows)
      ensures outcome.Written? ==>
        rows == Opened(old(rows), NewRow(ruleId, host, WindowId(key, Sanitize(Some(windowTs), now))),
                       if now - old(lastPrune) > 300.0 then Some(cutoffNow - 1209600.0) else None)
    {
      var ts := Sanitize(Some(windowTs), now);
      if outcome.InsertFailed? {
        return None;
      }
      var table := rows + [Row(ruleId, host, WindowId(key, ts), 1)];
      var due := ShouldPrune(now);
      if due {
        table := DeleteBefore(table, cutoffNow - RETENTION);
      }
      if outcome.CommitFailed? {
        return None;
      }
      rows := table;
      return Some(ts);
    }

    method RecordWindowClose(c: Close, written: bool)
      modifies this`rows
      ensures rows == if written then Closed(old(rows), c) else old(rows)
    {
      if c.count <= 1 {
        return;
      }
      if written {
        rows := SetCount(rows, c.id, c.count);
      }
    }

    method CalculateBaseline(ruleId: string, host: string, alertTs: Option<Time>, wallNow: Time)
      returns (b: Baseline)
      ensures b == BaselineAt(rows, ruleId, host, Sanitize(alertTs, wallNow))
    {
      var now := Sanitize(alertTs, wallNow);
      var oldest := now - RETENTION;
      var hour, day, week, fortnight := 0, 0, 0, 0;
      for i := 0 to |rows|
        invariant hour == SumCase(rows[..i], ruleId, host, now - HOUR, oldest)
        invariant day == SumCase(rows[..i], ruleId, host, now - DAY, oldest)
        invariant week == SumCase(rows[..i], ruleId, host, now - WEEK, oldest)
        invariant fortnight == SumCase(rows[..i], ruleId, host, oldest, oldest)
      {
        assert rows[..i + 1] == rows[..i] + [rows[i]];
        WeighAppend(Counted(ruleId, host, now - HOUR, oldest), rows[..i], rows[i]);
        WeighAppend(Counted(ruleId, host, now - DAY, oldest), rows[..i], rows[i]);
        WeighAppend(Counted(ruleId, host, now - WEEK, oldest), rows[..i], rows[i]);
        WeighAppend(Counted(ruleId, host, oldest, oldest), rows[..i], rows[i]);
        var row := rows[i];
        if row.ruleId == ruleId && row.host == host && row.id.openedAt >= oldest {
          fortnight := fortnight + row.count;
          if row.id.openedAt >= now - HOUR {
            hour := hour + row.count;
          }
          if row.id.openedAt >= now - DAY {
            day := day + row.count;
          }
          if row.id.openedAt >= now - WEEK {
            week := week + row.count;
          }
        }
      }
      assert rows[..|rows|] == rows;
      b := Baseline(hour, day, week, fortnight);
    }
  }
}
