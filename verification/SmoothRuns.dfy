/**
 Runs in which no write fails: the baseline query is then honest without further assumptions
 on what was lost, because only retention loses anything.
 */
module SmoothRuns {
  import opened Wrappers
  import opened Dedup
  import opened AlertHistory
  import opened Ledger
  import opened LedgerBalance
  import opened Delivery

  /** Every retention DELETE of the run used a cutoff of at most `horizon`. */
  ghost predicate CutoffsUpTo(steps: seq<Step>, horizon: Time) {
    forall step :: step in steps && step.Open? && step.cutoff.Some? ==> step.cutoff.value <= horizon
  }

  /** Only windows older than the horizon have been lost, or have no row although it was written. */
  ghost predicate LostOnlyOld(s: State, horizon: Time) {
    && (forall l :: l in s.lost ==> l.id.openedAt < horizon)
    && (forall id :: id in s.birth ==> s.birth[id] != Failed)
    && (forall id :: id in s.birth && s.birth[id] == Opening ==> id in s.opening)
    && (forall id :: id in s.birth && s.birth[id] == Stored ==> HasRow(s.table, id) || id.openedAt < horizon)
  }

  lemma ClosedKeepsRows(t: Table, c: Close, id: WindowId)
    requires HasRow(t, id)
    ensures HasRow(Closed(t, c), id)
  {
    var j :| 0 <= j < |t| && t[j].id == id;
    assert Closed(t, c)[j] in Closed(t, c);
  }

  lemma OpenedKeepsRows(t: Table, row: Row, cutoff: Option<Time>, horizon: Time, id: WindowId)
    requires HasRow(t, id) || id == row.id || id.openedAt < horizon
    requires cutoff.Some? ==> cutoff.value <= horizon
    ensures HasRow(Opened(t, row, cutoff), id) || id.openedAt < horizon
  {
    if id.openedAt >= horizon {
      var r :| r in t + [row] && r.id == id;
      assert r in Opened(t, row, cutoff);
    }
  }

  lemma {:induction false} PurgedOld(t: Table, cutoff: Time)
    ensures forall l :: l in Purged(t, cutoff) ==> l.id.openedAt < cutoff
  {
    if t != [] {
      PurgedOld(t[..|t| - 1], cutoff);
    }
  }

  lemma OpenLosesOnlyOld(cfg: Config, s: State, s': State, horizon: Time, i: nat, writeNow: Time, cutoff: Option<Time>)
    requires LostOnlyOld(s, horizon) && StepTo(cfg, s, Open(i, true, writeNow, cutoff), s')
    requires cutoff.Some? ==> cutoff.value <= horizon
    ensures LostOnlyOld(s', horizon)
  {
    var id := s.opening[i];
    var row := RowOf(cfg, id);
    if cutoff.Some? {
      PurgedOld(s.table + [row], cutoff.value);
    }
    forall x | x in s'.birth && s'.birth[x] == Stored ensures HasRow(s'.table, x) || x.openedAt < horizon {
      OpenedKeepsRows(s.table, row, cutoff, horizon, x);
    }
    forall x | x in s'.birth && s'.birth[x] == Opening ensures x in s'.opening {
      var j :| 0 <= j < |s.opening| && s.opening[j] == x;
      assert j != i;
      assert s'.opening[if j < i then j else j - 1] == x;
    }
  }

  lemma CloseLosesOnlyOld(cfg: Config, s: State, s': State, horizon: Time, c: Close)
    requires Inv(cfg, s) && LostOnlyOld(s, horizon) && c.id in s.stage && c.id !in s.opening
    requires s'.table == Closed(s.table, c) && s'.lost == s.lost + LossOfClose(s.table, c, true)
    requires s'.birth == s.birth && s'.opening == s.opening
    ensures LostOnlyOld(s', horizon)
  {
    forall x | x in s'.birth && s'.birth[x] == Stored ensures HasRow(s'.table, x) || x.openedAt < horizon {
      if HasRow(s.table, x) {
        ClosedKeepsRows(s.table, c, x);
      }
    }
    assert s.birth[c.id] == Stored;
  }

  lemma ArriveLosesNothing(cfg: Config, s: State, s': State, horizon: Time, now: Time, key: Key)
    requires LostOnlyOld(s, horizon) && StepTo(cfg, s, Arrive(now, key), s')
    ensures LostOnlyOld(s', horizon)
  {
    assert s'.table == s.table && s'.lost == s.lost;
    assert forall id :: id in s.opening ==> id in s'.opening;
  }

  lemma StepLosesOnlyOld(cfg: Config, s: State, step: Step, s': State, horizon: Time, sync: Table)
    requires Inv(cfg, s) && LostOnlyOld(s, horizon) && StepTo(cfg, s, step, s') && Smooth(s, step) && InStep(s, sync)
    requires step.Open? && step.cutoff.Some? ==> step.cutoff.value <= horizon
    ensures LostOnlyOld(s', horizon)
  {
    match step
    case Open(i, _, writeNow, cutoff) => OpenLosesOnlyOld(cfg, s, s', horizon, i, writeNow, cutoff);
    case Apply(_) =>
      assert s.queue[0] in s.queue;
      CloseLosesOnlyOld(cfg, s, s', horizon, s.queue[0]);
    case CloseNow(i, _) =>
      assert s.inHand[i] in s.inHand;
      CloseLosesOnlyOld(cfg, s, s', horizon, s.inHand[i]);
    case Arrive(now, key) => ArriveLosesNothing(cfg, s, s', horizon, now, key);
    case _ =>
  }

  lemma {:induction false} SmoothLosesOnlyOld(cfg: Config, steps: seq<Step>, s: State, sync: Table, horizon: Time)
    requires ValidConfig(cfg) && RunsSmoothly(cfg, steps, s, sync) && CutoffsUpTo(steps, horizon)
    ensures LostOnlyOld(s, horizon)
    decreases |steps|
  {
    if steps != [] {
      var front, last := steps[..|steps| - 1], steps[|steps| - 1];
      var p, prior :| RunsSmoothly(cfg, front, p, prior) && StepTo(cfg, p, last, s) && Smooth(p, last)
                      && sync == SyncNext(cfg, p, last, prior);
      SmoothLosesOnlyOld(cfg, front, p, prior, horizon);
      SmoothReaches(cfg, front, p, prior);
      ReachableInv(cfg, front, p);
      AsyncRefinesSync(cfg, front, p, prior);
      StepLosesOnlyOld(cfg, p, last, s, horizon, prior);
    }
  }

  /**
   The promise of the aggregated scheme, in any smooth run, under any interleaving of workers, writer
   and pruning, as long as no retention DELETE ran later than `now`. At every moment each of the four
   baseline sums at `now`, with what the system still holds of its windows, lies between the true alert
   counts: nothing of them is lost.
   */
  lemma SmoothBaseline(cfg: Config, steps: seq<Step>, s: State, sync: Table, ruleId: string, host: string, now: Time,
                       longest: Time)
    requires ValidConfig(cfg) && RunsSmoothly(cfg, steps, s, sync)
    requires CutoffsUpTo(steps, now - RETENTION)
    requires forall k :: cfg.silence(k) <= longest
    ensures var b := BaselineAt(s.table, ruleId, host, now);
            && HeldBrackets(cfg, s, ruleId, host, now - 3600.0, longest, b.lastHour)
            && HeldBrackets(cfg, s, ruleId, host, now - 86400.0, longest, b.lastDay)
            && HeldBrackets(cfg, s, ruleId, host, now - 604800.0, longest, b.lastWeek)
            && HeldBrackets(cfg, s, ruleId, host, now - 1209600.0, longest, b.lastFortnight)
  {
    hide BaselineAt, Honest, HeldBrackets, LostOnlyOld;
    var b := BaselineAt(s.table, ruleId, host, now);
    SmoothReaches(cfg, steps, s, sync);
    SmoothLosesOnlyOld(cfg, steps, s, sync, now - RETENTION);
    BaselineIsHonest(cfg, steps, s, ruleId, host, now, longest);
    LosslessSince(cfg, s, ruleId, host, now - RETENTION, now - HOUR, longest, b.lastHour);
    LosslessSince(cfg, s, ruleId, host, now - RETENTION, now - DAY, longest, b.lastDay);
    LosslessSince(cfg, s, ruleId, host, now - RETENTION, now - WEEK, longest, b.lastWeek);
    LosslessSince(cfg, s, ruleId, host, now - RETENTION, now - RETENTION, longest, b.lastFortnight);
  }

  ghost predicate HeldBrackets(cfg: Config, s: State, ruleId: string, host: string, since: Time, longest: Time,
                               counted: nat) {
    Brackets(cfg, s.raw, ruleId, host, since, longest, counted + Held(WindowsSince(cfg, ruleId, host, since), s))
  }

  lemma LosslessSince(cfg: Config, s: State, ruleId: string, host: string, horizon: Time, since: Time, longest: Time,
                      counted: nat)
    requires LostOnlyOld(s, horizon) && horizon <= since && Honest(cfg, s, ruleId, host, since, longest, counted)
    ensures HeldBrackets(cfg, s, ruleId, host, since, longest, counted)
  {
    NoWeight(OfLoss(WindowsSince(cfg, ruleId, host, since)), s.lost);
  }

  lemma NothingHeld(cfg: Config, s: State, ruleId: string, host: string, since: Time, longest: Time, counted: nat)
    requires Drained(s) && HeldBrackets(cfg, s, ruleId, host, since, longest, counted)
    ensures Brackets(cfg, s.raw, ruleId, host, since, longest, counted)
  {
    DrainedHoldsNothing(WindowsSince(cfg, ruleId, host, since), s);
  }

  /** Once everything is drained, the sums do so by themselves, and the table is the one of synchronous closing. */
  lemma DrainedBaseline(cfg: Config, steps: seq<Step>, s: State, sync: Table, ruleId: string, host: string, now: Time,
                        longest: Time)
    requires ValidConfig(cfg) && RunsSmoothly(cfg, steps, s, sync) && Drained(s)
    requires CutoffsUpTo(steps, now - RETENTION)
    requires forall k :: cfg.silence(k) <= longest
    ensures s.table == sync
    ensures var b := BaselineAt(s.table, ruleId, host, now);
            && Brackets(cfg, s.raw, ruleId, host, now - 3600.0, longest, b.lastHour)
            && Brackets(cfg, s.raw, ruleId, host, now - 86400.0, longest, b.lastDay)
            && Brackets(cfg, s.raw, ruleId, host, now - 604800.0, longest, b.lastWeek)
            && Brackets(cfg, s.raw, ruleId, host, now - 1209600.0, longest, b.lastFortnight)
  {
    AsyncRefinesSync(cfg, steps, s, sync);
    assert s.table == sync;
    hide BaselineAt, HeldBrackets, Brackets;
    var b := BaselineAt(s.table, ruleId, host, now);
    SmoothBaseline(cfg, steps, s, sync, ruleId, host, now, longest);
    NothingHeld(cfg, s, ruleId, host, now - HOUR, longest, b.lastHour);
    NothingHeld(cfg, s, ruleId, host, now - DAY, longest, b.lastDay);
    NothingHeld(cfg, s, ruleId, host, now - WEEK, longest, b.lastWeek);
    NothingHeld(cfg, s, ruleId, host, now - RETENTION, longest, b.lastFortnight);
  }
}
