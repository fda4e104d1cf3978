/**
 The asynchronous close writer against the synchronous scheme it replaced.

 Closes of different windows commute with each other and with later openers, so a batch of
 closes settles the table the same way in every delivery order, and the table the asynchronous
 system reaches once its queue is drained is the one synchronous closing would have produced.
 */
module Delivery {
  import opened Wrappers
  import opened Dedup
  import opened Sums
  import opened AlertHistory
  import opened Ledger
  import W = CloseWriter

  /** A batch of closes applied one after the other. */
  function Settle(t: Table, q: seq<Close>): Table {
    if q == [] then t else Closed(Settle(t, q[..|q| - 1]), q[|q| - 1])
  }

  lemma SettleAppend(t: Table, q: seq<Close>, c: Close)
    ensures Settle(t, q + [c]) == Closed(Settle(t, q), c)
  {
    assert (q + [c])[..|q|] == q;
  }

  lemma ClosedCommute(t: Table, c: Close, d: Close)
    requires c.id != d.id
    ensures Closed(Closed(t, c), d) == Closed(Closed(t, d), c)
  {
  }

  /** A close may be moved past a batch that does not mention its window. */
  lemma {:induction false} SettleCommute(t: Table, c: Close, q: seq<Close>)
    requires forall x :: x in q ==> x.id != c.id
    ensures Settle(Closed(t, c), q) == Closed(Settle(t, q), c)
  {
    if q != [] {
      var front, last := q[..|q| - 1], q[|q| - 1];
      SettleCommute(t, c, front);
      ClosedCommute(Settle(t, front), c, last);
    }
  }

  lemma {:induction false} SettleFirst(t: Table, q: seq<Close>)
    requires q != []
    ensures Settle(t, q) == Settle(Closed(t, q[0]), q[1..])
  {
    if |q| == 1 {
      assert q[..0] == [] && q[1..] == [];
    } else {
      SettleFirst(t, q[..|q| - 1]);
      assert q[..|q| - 1][1..] == q[1..][..|q| - 2];
    }
  }

  lemma {:induction false} SettleConcat(t: Table, p: seq<Close>, q: seq<Close>)
    ensures Settle(t, p + q) == Settle(Settle(t, p), q)
  {
    if q == [] {
      assert p + q == p;
    } else {
      var front, last := q[..|q| - 1], q[|q| - 1];
      SettleConcat(t, p, front);
      assert p + q == (p + front) + [last];
      SettleAppend(t, p + front, last);
    }
  }

  lemma SettleLate(t: Table, q: seq<Close>, j: nat)
    requires DistinctCloses(q) && j < |q|
    ensures Settle(t, q) == Closed(Settle(t, RemoveAt(q, j)), q[j])
  {
    var front, c, rest := q[..j], q[j], q[j + 1..];
    assert q == front + ([c] + rest);
    SettleConcat(t, front, [c] + rest);
    SettleFirst(Settle(t, front), [c] + rest);
    assert ([c] + rest)[1..] == rest;
    SettleCommute(Settle(t, front), c, rest);
    SettleConcat(t, front, rest);
  }

  /** Closes of distinct windows settle the table alike in every order. */
  lemma {:induction false} OrderIrrelevant(t: Table, p: seq<Close>, q: seq<Close>)
    requires multiset(p) == multiset(q) && DistinctCloses(p) && DistinctCloses(q)
    ensures Settle(t, p) == Settle(t, q)
    decreases |p|
  {
    if p == [] {
      assert |multiset(q)| == 0;
    } else {
      var j := LastInPermutation(p, q);
      RemovedClose(q, j);
      OrderIrrelevant(t, p[..|p| - 1], RemoveAt(q, j));
      SettleLate(t, q, j);
    }
  }

  // ----- Openers -----

  function ClosedRow(row: Row, c: Close): Row {
    if c.count > 1 && row.id == c.id then row.(count := c.count) else row
  }

  lemma ClosedSnoc(t: Table, row: Row, c: Close)
    ensures Closed(t + [row], c) == Closed(t, c) + [ClosedRow(row, c)]
  {
  }

  lemma DeleteSnoc(t: Table, row: Row, cutoff: Time)
    ensures DeleteBefore(t + [row], cutoff) == DeleteBefore(t, cutoff) + if row.id.openedAt < cutoff then [] else [row]
  {
    assert (t + [row])[..|t|] == t;
  }

  lemma {:induction false} DeleteCommutes(t: Table, cutoff: Time, c: Close)
    ensures Closed(DeleteBefore(t, cutoff), c) == DeleteBefore(Closed(t, c), cutoff)
  {
    if t != [] {
      var front, last := t[..|t| - 1], t[|t| - 1];
      hide Closed, DeleteBefore;
      assert t == front + [last];
      DeleteCommutes(front, cutoff, c);
      ClosedSnoc(front, last, c);
      DeleteSnoc(front, last, cutoff);
      DeleteSnoc(Closed(front, c), ClosedRow(last, c), cutoff);
      if last.id.openedAt >= cutoff {
        ClosedSnoc(DeleteBefore(front, cutoff), last, c);
      } else {
        assert DeleteBefore(front, cutoff) + [] == DeleteBefore(front, cutoff);
      }
    }
  }

  lemma OpenedCommutes(t: Table, row: Row, cutoff: Option<Time>, c: Close)
    requires c.id != row.id
    ensures Closed(Opened(t, row, cutoff), c) == Opened(Closed(t, c), row, cutoff)
  {
    assert Closed(t + [row], c) == Closed(t, c) + [row];
    if cutoff.Some? {
      DeleteCommutes(t + [row], cutoff.value, c);
    }
  }

  lemma {:induction false} OpenedSettles(t: Table, row: Row, cutoff: Option<Time>, q: seq<Close>)
    requires forall c :: c in q ==> c.id != row.id
    ensures Settle(Opened(t, row, cutoff), q) == Opened(Settle(t, q), row, cutoff)
  {
    if q != [] {
      var front, last := q[..|q| - 1], q[|q| - 1];
      OpenedSettles(t, row, cutoff, front);
      OpenedCommutes(Settle(t, front), row, cutoff, last);
    }
  }

  // ----- The whole system -----

  /** No write fails, the writer is up, and a close is handed over after its opener's row is in. */
  ghost predicate Smooth(s: State, step: Step) {
    match step
    case Open(i, written, _, _) => written
    case Enqueue(i, alive) => alive && i < |s.inHand| && s.inHand[i].id !in s.opening
    case Apply(written) => written
    case CloseNow(i, written) => written && i < |s.inHand| && s.inHand[i].id !in s.opening
    case _ => true
  }

  /** The same step on a table whose closes are written where the live system hands them over. */
  ghost function SyncNext(cfg: Config, s: State, step: Step, sync: Table): Table
    requires Enabled(cfg, s, step)
  {
    match step
    case Open(i, _, _, cutoff) => Opened(sync, RowOf(cfg, s.opening[i]), cutoff)
    case Enqueue(i, _) => Closed(sync, s.inHand[i])
    case CloseNow(i, _) => Closed(sync, s.inHand[i])
    case _ => sync
  }

  /** A smooth run of the system, and the table of the synchronous scheme over the same run. */
  ghost predicate RunsSmoothly(cfg: Config, steps: seq<Step>, s: State, sync: Table)
    decreases |steps|
  {
    if steps == [] then s == INIT && sync == []
    else
      var front, last := steps[..|steps| - 1], steps[|steps| - 1];
      exists p, prior ::
        RunsSmoothly(cfg, front, p, prior) && StepTo(cfg, p, last, s) && Smooth(p, last)
        && sync == SyncNext(cfg, p, last, prior)
  }

  lemma {:induction false} SmoothReaches(cfg: Config, steps: seq<Step>, s: State, sync: Table)
    requires RunsSmoothly(cfg, steps, s, sync)
    ensures Reaches(cfg, steps, s)
    decreases |steps|
  {
    if steps != [] {
      var front, last := steps[..|steps| - 1], steps[|steps| - 1];
      var p, prior :| RunsSmoothly(cfg, front, p, prior) && StepTo(cfg, p, last, s) && Smooth(p, last)
                      && sync == SyncNext(cfg, p, last, prior);
      SmoothReaches(cfg, front, p, prior);
    }
  }

  ghost predicate InStep(s: State, sync: Table) {
    sync == Settle(s.table, s.queue) && forall c :: c in s.queue ==> c.id !in s.opening
  }

  lemma SyncArrive(cfg: Config, s: State, s': State, sync: Table, now: Time, key: Key)
    requires ValidConfig(cfg) && Inv(cfg, s) && StepTo(cfg, s, Arrive(now, key), s') && InStep(s, sync)
    ensures InStep(s', sync)
  {
    if !Silenced(s.cache, now, key, cfg.silence(key)) {
      NewWindowIsFresh(cfg, s, now, key);
      assert s'.opening == s.opening + [WindowId(key, now)];
    }
  }

  lemma SyncOpen(cfg: Config, s: State, s': State, sync: Table, i: nat, writeNow: Time, cutoff: Option<Time>)
    requires StepTo(cfg, s, Open(i, true, writeNow, cutoff), s') && InStep(s, sync)
    ensures InStep(s', Opened(sync, RowOf(cfg, s.opening[i]), cutoff))
  {
    assert s.opening[i] in s.opening;
    OpenedSettles(s.table, RowOf(cfg, s.opening[i]), cutoff, s.queue);
  }

  lemma SyncEnqueue(cfg: Config, s: State, s': State, sync: Table, i: nat)
    requires StepTo(cfg, s, Enqueue(i, true), s') && InStep(s, sync) && s.inHand[i].id !in s.opening
    ensures InStep(s', Closed(sync, s.inHand[i]))
  {
    if s.inHand[i].count > 1 {
      SettleAppend(s.table, s.queue, s.inHand[i]);
    }
  }

  lemma SyncCloseNow(cfg: Config, s: State, s': State, sync: Table, i: nat)
    requires Inv(cfg, s) && StepTo(cfg, s, CloseNow(i, true), s') && InStep(s, sync)
    ensures InStep(s', Closed(sync, s.inHand[i]))
  {
    assert s.inHand[i] in s.inHand;
    SettleCommute(s.table, s.inHand[i], s.queue);
  }

  lemma SyncStep(cfg: Config, s: State, step: Step, s': State, sync: Table)
    requires ValidConfig(cfg) && Inv(cfg, s) && StepTo(cfg, s, step, s') && Smooth(s, step) && InStep(s, sync)
    ensures InStep(s', SyncNext(cfg, s, step, sync))
  {
    match step
    case Arrive(now, key) => SyncArrive(cfg, s, s', sync, now, key);
    case Open(i, _, writeNow, cutoff) => SyncOpen(cfg, s, s', sync, i, writeNow, cutoff);
    case Enqueue(i, _) => SyncEnqueue(cfg, s, s', sync, i);
    case Apply(_) => SettleFirst(s.table, s.queue);
    case CloseNow(i, _) => SyncCloseNow(cfg, s, s', sync, i);
    case _ =>
  }

  /**
   The asynchronous system refines the synchronous one: at every moment of a smooth run, whatever
   the interleaving, applying the queued closes gives exactly the synchronous table.
   */
  lemma {:induction false} AsyncRefinesSync(cfg: Config, steps: seq<Step>, s: State, sync: Table)
    requires ValidConfig(cfg) && RunsSmoothly(cfg, steps, s, sync)
    ensures sync == Settle(s.table, s.queue)
    ensures InStep(s, sync)
    decreases |steps|
  {
    if steps != [] {
      var front, last := steps[..|steps| - 1], steps[|steps| - 1];
      var p, prior :| RunsSmoothly(cfg, front, p, prior) && StepTo(cfg, p, last, s) && Smooth(p, last)
                      && sync == SyncNext(cfg, p, last, prior);
      AsyncRefinesSync(cfg, front, p, prior);
      SmoothReaches(cfg, front, p, prior);
      ReachableInv(cfg, front, p);
      SyncStep(cfg, p, last, s, prior);
    }
  }

  // ----- The writer thread behind the queue -----

  /**
   Handing a close over does to the ledger's queue and losses what enqueue_window_close does: queued exactly
   if the thread accepts it, lost exactly if it is dropped, and neither if there is nothing to write.
   */
  lemma HandedOver(cfg: Config, s: State, i: nat, w: W.Writer)
    requires i < |s.inHand|
    ensures var c := s.inHand[i];
            var s', w' := Next(cfg, s, Enqueue(i, w.alive)), W.Next(w, W.Enqueue(c));
            && (s'.queue == s.queue + [c] <==> w'.queue == w.queue + [W.Work(c)])
            && (s'.lost == s.lost + [Loss(c.id, Extra(c), Dropped)] <==> w'.dropped == w.dropped + [c])
            && (s'.queue == s.queue && s'.lost == s.lost <==> w'.skipped == w.skipped + [c])
  {
    var c := s.inHand[i];
    assert |w.queue + [W.Work(c)]| != |w.queue| && |w.dropped + [c]| != |w.dropped| && |w.skipped + [c]| != |w.skipped|;
    assert |s.queue + [c]| != |s.queue| && |s.lost + [Loss(c.id, Extra(c), Dropped)]| != |s.lost|;
  }
}
