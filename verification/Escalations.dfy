/**
 The lazily pruned tables of database.py that gate escalations: the hourly escalation counters
 and the maintenance-mode flags.

 Both delete rows only when convenient. What is proved is that nobody can tell: every answer is
 the one the complete history would give, and the hourly budget is never exceeded by attempts
 made one after the other.
 */
module Escalations {
  import opened Wrappers

  type Time = real

  const HOUR: Time := 3600.0
  const KEPT: Time := 25.0 * 3600.0
  const SLOWEST: Time := 24.0 * 3600.0
  const PRUNE_INTERVAL: Time := 3600.0
  const ALL_HOSTS := "__all__"

  /** The primary key of rule_escalation_log. The bucket is the hour number. */
  datatype Slot = Slot(ruleId: string, host: string, bucket: int)
  datatype Row = Row(count: nat, last: Time)
  type Log = map<Slot, Row>

  function Bucket(t: Time): int {
    (t / HOUR).Floor
  }

  function SlotOf(ruleId: string, host: string, scope: string, at: Time): Slot {
    Slot(ruleId, if scope == "rule" then ALL_HOSTS else host, Bucket(at))
  }

  lemma BucketBounds(t: Time)
    ensures Bucket(t) as real * HOUR <= t < (Bucket(t) + 1) as real * HOUR
  {
    var q := t / HOUR;
    assert q.Floor as real <= q < q.Floor as real + 1.0;
    assert q * HOUR == t;
  }

  lemma BucketMonotone(t: Time, u: Time)
    requires t <= u
    ensures Bucket(t) <= Bucket(u)
  {
    BucketBounds(t);
    BucketBounds(u);
  }

  // ----- Which escalations share a budget -----

  /** The hour number `n` is that of the time. */
  predicate InHour(n: int, t: Time) {
    n as real * 3600.0 <= t < (n + 1) as real * 3600.0
  }

  ghost predicate SameHour(t: Time, u: Time) {
    exists n :: InHour(n, t) && InHour(n, u)
  }

  /**
   By scope "rule" a rule has one budget, by any other one for each host. What the rule's own budget is filed
   under is no host's name, unless a host is called "__all__".
   */
  predicate SamePool(host: string, scope: string, host': string, scope': string) {
    if scope == "rule" then scope' == "rule" || host' == "__all__"
    else if scope' == "rule" then host == "__all__"
    else host == host'
  }

  ghost predicate Shares(ruleId: string, host: string, scope: string, at: Time,
                         ruleId': string, host': string, scope': string, at': Time) {
    ruleId == ruleId' && SamePool(host, scope, host', scope') && SameHour(at, at')
  }

  lemma HourIs(n: int, t: Time)
    requires InHour(n, t)
    ensures Bucket(t) == n
  {
    BucketBounds(t);
    assert Bucket(t) < n ==> (Bucket(t) + 1) as real <= n as real;
    assert n < Bucket(t) ==> (n + 1) as real <= Bucket(t) as real;
  }

  /** Two calls have the same counter exactly if they share a budget. */
  lemma SlotsShared(ruleId: string, host: string, scope: string, at: Time,
                    ruleId': string, host': string, scope': string, at': Time)
    ensures SlotOf(ruleId, host, scope, at) == SlotOf(ruleId', host', scope', at')
        <==> Shares(ruleId, host, scope, at, ruleId', host', scope', at')
  {
    BucketBounds(at);
    BucketBounds(at');
    if Bucket(at) == Bucket(at') {
      assert InHour(Bucket(at), at) && InHour(Bucket(at), at');
    }
    if n :| InHour(n, at) && InHour(n, at') {
      HourIs(n, at);
      HourIs(n, at');
    }
  }

  /** For hosts of other names: all of one rule by scope "rule", else of one rule and host, in one hour. */
  lemma BudgetsApart(ruleId: string, host: string, scope: string, at: Time,
                     ruleId': string, host': string, scope': string, at': Time)
    requires host != "__all__" && host' != "__all__"
    ensures SlotOf(ruleId, host, scope, at) == SlotOf(ruleId', host', scope', at')
        <==> && ruleId == ruleId' && SameHour(at, at')
             && ((scope == "rule" && scope' == "rule") || (scope != "rule" && scope' != "rule" && host == host'))
  {
    SlotsShared(ruleId, host, scope, at, ruleId', host', scope', at');
  }

  function CountIn(log: Log, s: Slot): nat {
    if s in log then log[s].count else 0
  }

  /** The upsert: insert with count 1, or count one more. */
  function Upserted(log: Log, s: Slot, now: Time): Log {
    log[s := Row(CountIn(log, s) + 1, now)]
  }

  function Pruned(log: Log, at: Time): Log {
    map s | s in log && !(log[s].last < at - KEPT) :: log[s]
  }

  class EscalationLog {
    var rows: Log
    var lastPrune: Time

    constructor ()
      ensures rows == map[] && lastPrune == 0.0
    {
      rows, lastPrune := map[], 0.0;
    }

    /** `answered` is whether the query succeeded; a failed one allows the escalation. */
    method CheckRateLimit(ruleId: string, host: string, maxPerHour: int, scope: string, at: Time, answered: bool)
      returns (allowed: bool)
      ensures allowed == (!answered || CountIn(rows, SlotOf(ruleId, host, scope, at)) < maxPerHour)
      ensures forall run :: Logged(run, rows, at) && answered ==>
                (allowed <==> EverShared(run, ruleId, host, scope, at) < maxPerHour)
    {
      forall run | Logged(run, rows, at)
        ensures CountIn(rows, SlotOf(ruleId, host, scope, at)) == EverShared(run, ruleId, host, scope, at)
      {
        PruningUnobservable(run, ruleId, host, scope, at);
      }
      var keyHost := if scope == "rule" then ALL_HOSTS else host;
      if !answered {
        return true;
      }
      var slot := Slot(ruleId, keyHost, Bucket(at));
      var current := if slot in rows then rows[slot].count else 0;
      return current < maxPerHour;
    }

    /** The clock is read three times: for the row, for the bucket, and when a prune is due. */
    method RecordEscalation(ruleId: string, host: string, scope: string, now: Time, bucketAt: Time, pruneAt: Time)
      modifies this
      ensures var pruned := now - old(lastPrune) > 3600.0;
              && rows == LogStep(old(rows), Recorded(ruleId, host, scope, now, bucketAt,
                                                     if pruned then Some(pruneAt) else None))
              && lastPrune == if pruned then now else old(lastPrune)
    {
      var slot := SlotOf(ruleId, host, scope, bucketAt);
      if slot in rows {
        rows := rows[slot := Row(rows[slot].count + 1, now)];
      } else {
        rows := rows[slot := Row(1, now)];
      }
      if now - lastPrune > PRUNE_INTERVAL {
        lastPrune := now;
        rows := Pruned(rows, pruneAt);
      }
    }
  }

  // ----- Runs -----

  /** One recorded escalation, with the clock readings it took. */
  datatype Recorded = Recorded(ruleId: string, host: string, scope: string, now: Time, bucketAt: Time,
                               pruneAt: Option<Time>)
  {
    function Where(): Slot { SlotOf(ruleId, host, scope, bucketAt) }
    function End(): Time { if pruneAt.Some? then pruneAt.value else bucketAt }

    /** It began at `from` or later and read the bucket's clock no later than `grace` after the row's. */
    predicate Orderly(from: Time, grace: Time) { from <= now <= bucketAt <= End() && bucketAt - now <= grace }
  }

  function LogStep(log: Log, e: Recorded): Log {
    var upserted := Upserted(log, e.Where(), e.now);
    if e.pruneAt.Some? then Pruned(upserted, e.pruneAt.value) else upserted
  }

  function LogAfter(run: seq<Recorded>): Log {
    if run == [] then map[] else LogStep(LogAfter(run[..|run| - 1]), run[|run| - 1])
  }

  /** When the run is over. */
  function Clock(run: seq<Recorded>): Time {
    if run == [] then 0.0 else run[|run| - 1].End()
  }

  /** The calls follow each other on a clock that never goes back. */
  predicate Orderly(run: seq<Recorded>, grace: Time) {
    run == [] || (Orderly(run[..|run| - 1], grace) && run[|run| - 1].Orderly(Clock(run[..|run| - 1]), grace))
  }

  /** The rows are those that the run has left, and the run is over. */
  predicate Logged(run: seq<Recorded>, rows: Log, at: Time) {
    Orderly(run, SLOWEST) && Clock(run) <= at && rows == LogAfter(run)
  }

  /** How many escalations were ever recorded in this slot. */
  function EverIn(run: seq<Recorded>, s: Slot): nat {
    if run == [] then 0
    else EverIn(run[..|run| - 1], s) + if run[|run| - 1].Where() == s then 1 else 0
  }

  /**
   A row counts its slot exactly; a slot without its row lies in
   a past hour; a row's hour is not long after its stamp.
   */
  ghost predicate Faithful(log: Log, ever: Slot -> nat, clock: Time) {
    && (forall s :: s in log ==> log[s].count == ever(s) && s.bucket as real * HOUR <= log[s].last + SLOWEST)
    && (forall s :: s !in log && ever(s) > 0 ==> s.bucket < Bucket(clock))
  }

  lemma UpsertFaithful(log: Log, ever: Slot -> nat, after: Slot -> nat, clock: Time, e: Recorded)
    requires Faithful(log, ever, clock) && e.Orderly(clock, SLOWEST)
    requires forall s :: after(s) == ever(s) + if s == e.Where() then 1 else 0
    ensures Faithful(Upserted(log, e.Where(), e.now), after, e.bucketAt)
  {
    BucketMonotone(clock, e.bucketAt);
    BucketBounds(e.bucketAt);
  }

  lemma PruneFaithful(log: Log, ever: Slot -> nat, clock: Time, at: Time)
    requires Faithful(log, ever, clock) && clock <= at
    ensures Faithful(Pruned(log, at), ever, at)
  {
    BucketMonotone(clock, at);
    forall s | s !in Pruned(log, at) && ever(s) > 0 ensures s.bucket < Bucket(at) {
      if s in log {
        BucketBounds(at);
        assert (s.bucket + 1) as real * HOUR == s.bucket as real * HOUR + HOUR;
        assert s.bucket as real * HOUR + HOUR < (Bucket(at) + 1) as real * HOUR;
      }
    }
  }

  function Ever(run: seq<Recorded>): (f: Slot -> nat)
    ensures forall s :: f(s) == EverIn(run, s)
  {
    (s: Slot) => EverIn(run, s)
  }

  lemma {:induction false} RunFaithful(run: seq<Recorded>)
    requires Orderly(run, SLOWEST)
    ensures Faithful(LogAfter(run), Ever(run), Clock(run))
  {
    if run != [] {
      var before, e := run[..|run| - 1], run[|run| - 1];
      RunFaithful(before);
      UpsertFaithful(LogAfter(before), Ever(before), Ever(run), Clock(before), e);
      if e.pruneAt.Some? {
        PruneFaithful(Upserted(LogAfter(before), e.Where(), e.now), Ever(run), e.bucketAt, e.pruneAt.value);
      }
    }
  }

  /** The latest escalation recorded in this slot. */
  ghost predicate LastIn(run: seq<Recorded>, s: Slot, j: nat) {
    j < |run| && run[j].Where() == s && forall m :: j < m < |run| ==> run[m].Where() != s
  }

  /** No prune since, its own included, came more than 25 hours after its stamp. */
  ghost predicate KeptSince(run: seq<Recorded>, j: nat)
    requires j < |run|
  {
    forall m :: j <= m < |run| && run[m].pruneAt.Some? ==> run[m].pruneAt.value - run[j].now <= 25.0 * 3600.0
  }

  lemma LastEarlier(run: seq<Recorded>, s: Slot, j: nat)
    requires run != [] && j < |run| - 1
    ensures var before, e := run[..|run| - 1], run[|run| - 1];
            && (LastIn(run, s, j) <==> LastIn(before, s, j) && e.Where() != s)
            && (KeptSince(run, j)
                <==> KeptSince(before, j) && (e.pruneAt.Some? ==> e.pruneAt.value - run[j].now <= 25.0 * 3600.0))
  {
    var n := |run| - 1;
    assert forall m :: 0 <= m < n ==> run[..n][m] == run[m];
  }

  /** The slot's row is there, with this stamp. */
  predicate Stamped(log: Log, s: Slot, stamp: Time) {
    s in log && log[s].last == stamp
  }

  /** A row carries the time of its latest escalation, and is there exactly if that was kept. */
  lemma {:induction false} RowExactly(run: seq<Recorded>, s: Slot, j: nat)
    requires LastIn(run, s, j)
    ensures s in LogAfter(run) <==> KeptSince(run, j)
    ensures s in LogAfter(run) ==> Stamped(LogAfter(run), s, run[j].now)
  {
    hide SlotOf;
    var n := |run| - 1;
    if j < n {
      LastEarlier(run, s, j);
      RowExactly(run[..n], s, j);
    }
  }

  /** A slot in which nothing was recorded has no row. */
  lemma {:induction false} NoRow(run: seq<Recorded>, s: Slot)
    requires forall m :: 0 <= m < |run| ==> run[m].Where() != s
    ensures s !in LogAfter(run)
  {
    if run != [] {
      NoRow(run[..|run| - 1], s);
    }
  }

  /** How many escalations of the run, by their rules, hosts, scopes and hours, share this call's budget. */
  ghost function EverShared(run: seq<Recorded>, ruleId: string, host: string, scope: string, at: Time): nat {
    if run == [] then 0
    else
      var e := run[|run| - 1];
      EverShared(run[..|run| - 1], ruleId, host, scope, at)
      + if Shares(e.ruleId, e.host, e.scope, e.bucketAt, ruleId, host, scope, at) then 1 else 0
  }

  lemma {:induction false} SharedIsSlot(run: seq<Recorded>, ruleId: string, host: string, scope: string, at: Time)
    ensures EverShared(run, ruleId, host, scope, at) == EverIn(run, SlotOf(ruleId, host, scope, at))
  {
    if run != [] {
      var e := run[|run| - 1];
      SharedIsSlot(run[..|run| - 1], ruleId, host, scope, at);
      SlotsShared(e.ruleId, e.host, e.scope, e.bucketAt, ruleId, host, scope, at);
    }
  }

  /** A rate-limit check after any run counts as if nothing had ever been pruned. */
  lemma PruningUnobservable(run: seq<Recorded>, ruleId: string, host: string, scope: string, at: Time)
    requires Orderly(run, SLOWEST) && Clock(run) <= at
    ensures CountsAll(run, ruleId, host, scope, at)
  {
    RunFaithful(run);
    BucketMonotone(Clock(run), at);
    SharedIsSlot(run, ruleId, host, scope, at);
  }

  ghost predicate CountsAll(run: seq<Recorded>, ruleId: string, host: string, scope: string, at: Time) {
    CountIn(LogAfter(run), SlotOf(ruleId, host, scope, at)) == EverShared(run, ruleId, host, scope, at)
  }

  /** With this grace between the readings of a call, no check after any run misses an escalation. */
  ghost predicate GraceSafe(grace: Time) {
    forall run, ruleId, host, scope, at | Orderly(run, grace) && Clock(run) <= at ::
      CountsAll(run, ruleId, host, scope, at)
  }

  lemma {:induction false} OrderlyWithin(run: seq<Recorded>, grace: Time, more: Time)
    requires Orderly(run, grace) && grace <= more
    ensures Orderly(run, more)
  {
    if run != [] {
      OrderlyWithin(run[..|run| - 1], grace, more);
    }
  }

  /**
   The 25 hours that rows are kept are exactly enough for a call that takes up to a day between reading
   the clock for its row and for its bucket: pruning is unobservable for all runs if and only if no call
   takes longer.
   */
  lemma GraceExact(grace: Time)
    ensures GraceSafe(grace) <==> grace <= SLOWEST
  {
    if grace <= SLOWEST {
      forall run, ruleId, host, scope, at | Orderly(run, grace) && Clock(run) <= at
        ensures CountsAll(run, ruleId, host, scope, at)
      {
        OrderlyWithin(run, grace, SLOWEST);
        PruningUnobservable(run, ruleId, host, scope, at);
      }
    } else {
      var e := Sleeper(if grace < KEPT then grace else KEPT);
      SleeperForgotten(if grace < KEPT then grace else KEPT);
      OrderlyWithin([e], if grace < KEPT then grace else KEPT, grace);
      assert !CountsAll([e], "r", "h", "host", e.End());
    }
  }

  /** A call whose bucket begins `gap` after the time in its row, and which prunes before that hour is over. */
  function Sleeper(gap: Time): Recorded {
    var bucketAt := 30.0 * HOUR;
    Recorded("r", "h", "host", bucketAt - gap, bucketAt, Some(bucketAt + (KEPT - gap + HOUR) / 2.0))
  }

  /** After more than a day between its readings a call prunes its own row, and its hour is not over. */
  lemma SleeperForgotten(gap: Time)
    requires SLOWEST < gap <= KEPT
    ensures var e := Sleeper(gap);
            Orderly([e], gap) && !CountsAll([e], "r", "h", "host", e.End())
  {
    var e := Sleeper(gap);
    assert [e][..|[e]| - 1] == [] && Clock([]) == 0.0;
    assert e.Orderly(0.0, gap) && Orderly([], gap);
    assert LogAfter([e]) == LogStep(map[], e);
    assert InHour(30, e.bucketAt) && InHour(30, e.End());
    HourIs(30, e.bucketAt);
    HourIs(30, e.End());
    SharedIsSlot([e], "r", "h", "host", e.End());
  }

  /** Each recorded escalation was checked first, against its rule's budget, by attempts made one after the other. */
  predicate Checked(run: seq<Recorded>, budget: string -> int, checkedAt: seq<Time>)
    requires |checkedAt| == |run|
  {
    run == []
    || (var before, e, at := run[..|run| - 1], run[|run| - 1], checkedAt[|run| - 1];
        && Checked(before, budget, checkedAt[..|run| - 1])
        && Clock(before) <= at <= e.now
        && CountIn(LogAfter(before), SlotOf(e.ruleId, e.host, e.scope, at)) < budget(e.ruleId))
  }

  lemma {:induction false} NothingAhead(run: seq<Recorded>, s: Slot)
    requires Orderly(run, SLOWEST) && s.bucket > Bucket(Clock(run))
    ensures EverIn(run, s) == 0
  {
    if run != [] {
      var before, e := run[..|run| - 1], run[|run| - 1];
      BucketMonotone(Clock(before), Clock(run));
      BucketMonotone(e.bucketAt, Clock(run));
      NothingAhead(before, s);
    }
  }

  lemma {:induction false} SlotHolds(run: seq<Recorded>, budget: string -> int, checkedAt: seq<Time>, s: Slot)
    requires |checkedAt| == |run| && Orderly(run, SLOWEST) && Checked(run, budget, checkedAt)
    ensures EverIn(run, s) == 0 || EverIn(run, s) <= budget(s.ruleId)
  {
    if run != [] {
      var before, e, at := run[..|run| - 1], run[|run| - 1], checkedAt[|run| - 1];
      SlotHolds(before, budget, checkedAt[..|run| - 1], s);
      if e.Where() == s {
        PruningUnobservable(before, e.ruleId, e.host, e.scope, at);
        SharedIsSlot(before, e.ruleId, e.host, e.scope, at);
        BucketMonotone(at, e.bucketAt);
        BucketMonotone(Clock(before), at);
        if Bucket(at) < s.bucket {
          NothingAhead(before, s);
        }
      }
    }
  }

  /**
   The escalations that share a budget never exceed it within an hour, even when the hour turns between
   check and record.
   */
  lemma BudgetHolds(run: seq<Recorded>, budget: string -> int, checkedAt: seq<Time>, ruleId: string, host: string,
                    scope: string, at: Time)
    requires |checkedAt| == |run| && Orderly(run, SLOWEST) && Checked(run, budget, checkedAt)
    ensures var n := EverShared(run, ruleId, host, scope, at); n == 0 || n <= budget(ruleId)
  {
    SlotHolds(run, budget, checkedAt, SlotOf(ruleId, host, scope, at));
    SharedIsSlot(run, ruleId, host, scope, at);
  }

  // ----- Maintenance mode -----

  type Hosts = map<string, Time>

  datatype Op = Set(host: string, at: Time, minutes: real) | Clear(host: string, at: Time) | Ask(host: string, at: Time)

  /** Is this host in maintenance mode? The row of an expired one does not count. */
  predicate Answer(rows: Hosts, host: string, now: Time) {
    host in rows && !(rows[host] < now)
  }

  function HostsStep(rows: Hosts, op: Op): Hosts {
    match op
    case Set(h, at, minutes) => rows[h := at + minutes * 60.0]
    case Clear(h, _) => rows - {h}
    case Ask(h, at) => if h in rows && rows[h] < at then rows - {h} else rows
  }

  class MaintenanceMode {
    var rows: Hosts

    constructor ()
      ensures rows == map[]
    {
      rows := map[];
    }

    method SetMaintenanceMode(host: string, now: Time, minutes: real)
      modifies this
      ensures rows == HostsStep(old(rows), Set(host, now, minutes))
    {
      var expiresAt := now + (minutes * 60.0);
      rows := rows[host := expiresAt];
    }

    method ClearMaintenanceMode(host: string, now: Time)
      modifies this
      ensures rows == HostsStep(old(rows), Clear(host, now))
    {
      rows := rows - {host};
    }

    method IsInMaintenanceMode(host: string, now: Time) returns (active: bool)
      modifies this
      ensures active == Answer(old(rows), host, now)
      ensures rows == HostsStep(old(rows), Ask(host, now))
    {
      if host !in rows {
        return false;
      }
      if rows[host] < now {
        rows := rows - {host};
        return false;
      }
      return true;
    }
  }

  function HostsAfter(ops: seq<Op>): Hosts {
    if ops == [] then map[] else HostsStep(HostsAfter(ops[..|ops| - 1]), ops[|ops| - 1])
  }

  /** When the standing order for the host runs out, by its last set or clear. Asking orders nothing. */
  function Standing(ops: seq<Op>, host: string): Option<Time> {
    if ops == [] then None
    else
      var op := ops[|ops| - 1];
      if op.Ask? || op.host != host then Standing(ops[..|ops| - 1], host)
      else if op.Set? then Some(op.at + op.minutes * 60.0)
      else None
  }

  predicate InTime(ops: seq<Op>) {
    forall i, j :: 0 <= i < j < |ops| ==> ops[i].at <= ops[j].at
  }

  lemma {:induction false} RowsStand(ops: seq<Op>, host: string, now: Time)
    requires InTime(ops) && forall op :: op in ops ==> op.at <= now
    ensures host in HostsAfter(ops) ==> Standing(ops, host) == Some(HostsAfter(ops)[host])
    ensures host !in HostsAfter(ops) && Standing(ops, host).Some? ==> Standing(ops, host).value < now
  {
    if ops != [] {
      var before, op := ops[..|ops| - 1], ops[|ops| - 1];
      assert op in ops && forall o :: o in before ==> o in ops;
      RowsStand(before, host, now);
    }
  }

  /** Forgetting expired hosts while answering is unobservable: the answer is that of the whole history of orders. */
  lemma MaintenanceExact(ops: seq<Op>, host: string, now: Time)
    requires InTime(ops) && forall op :: op in ops ==> op.at <= now
    ensures Answer(HostsAfter(ops), host, now) <==> Standing(ops, host).Some? && Standing(ops, host).value >= now
  {
    RowsStand(ops, host, now);
  }
}
