/**
 Conservation on the ledger, and what it says about the baseline query.

 For any choice of windows, in every reachable state, the counts in the table, the rows still to
 be written, the duplicates held in the cache, those in closes on their way, and the recorded
 losses add up to the number of alerts that fell into those windows.
 */
module LedgerBalance {
  import opened Wrappers
  import opened Dedup
  import opened Sums
  import opened AlertHistory
  import opened Ledger

  type Pick = WindowId -> bool

  function OfRow(P: Pick): (f: Row -> nat)
    ensures forall r :: f(r) == if P(r.id) then r.count else 0
  {
    (r: Row) => var n: nat := if P(r.id) then r.count else 0; n
  }

  function OfOpening(P: Pick): (f: WindowId -> nat)
    ensures forall id :: f(id) == if P(id) then 1 else 0
  {
    (id: WindowId) => if P(id) then 1 else 0
  }

  function OfClose(P: Pick): (f: Close -> nat)
    ensures forall c :: f(c) == if P(c.id) then Extra(c) else 0
  {
    (c: Close) => var n: nat := if P(c.id) then Extra(c) else 0; n
  }

  function OfLoss(P: Pick): (f: Loss -> nat)
    ensures forall l :: f(l) == if P(l.id) then l.amount else 0
  {
    (l: Loss) => var n: nat := if P(l.id) then l.amount else 0; n
  }

  function OfAlert(P: Pick): (f: Occurrence -> nat)
    ensures forall o :: f(o) == if P(o.window) then 1 else 0
  {
    (o: Occurrence) => if P(o.window) then 1 else 0
  }

  /** The duplicates the cache holds that no row shows yet. */
  ghost function CacheExtra(P: Pick, c: Cache): nat {
    Weigh(OfClose(P), SeqOf(ClosesOf(c)))
  }

  ghost predicate Balanced(P: Pick, s: State) {
    Weigh(OfRow(P), s.table) + Weigh(OfOpening(P), s.opening) + CacheExtra(P, s.cache)
    + Weigh(OfClose(P), s.inHand) + Weigh(OfClose(P), s.queue) + Weigh(OfLoss(P), s.lost)
    == Weigh(OfAlert(P), s.raw)
  }

  lemma CacheExtraListed(P: Pick, c: Cache, closed: seq<Close>)
    requires Lists(closed, c)
    ensures CacheExtra(P, c) == Weigh(OfClose(P), closed)
  {
    WeighPermuted(OfClose(P), SeqOf(ClosesOf(c)), closed);
  }

  lemma CacheExtraSet(P: Pick, c: Cache, k: Key, w: Window)
    ensures CacheExtra(P, c[k := w]) == CacheExtra(P, c - {k}) + OfClose(P)(CloseOf(k, w))
  {
    var rest := c - {k};
    assert c[k := w] == rest[k := w];
    ListsAppend(SeqOf(ClosesOf(rest)), rest, k, w);
    CacheExtraListed(P, c[k := w], SeqOf(ClosesOf(rest)) + [CloseOf(k, w)]);
    WeighAppend(OfClose(P), SeqOf(ClosesOf(rest)), CloseOf(k, w));
  }

  lemma CacheExtraWithout(P: Pick, c: Cache, k: Key)
    ensures CacheExtra(P, c) == CacheExtra(P, c - {k}) + if k in c then OfClose(P)(CloseOf(k, c[k])) else 0
  {
    if k in c {
      CacheExtraSet(P, c, k, c[k]);
      assert c[k := c[k]] == c;
    } else {
      assert c - {k} == c;
    }
  }

  lemma CacheExtraSplit(P: Pick, c: Cache, cutoff: Time)
    ensures CacheExtra(P, c) == CacheExtra(P, Quiet(c, cutoff)) + CacheExtra(P, Retained(c, cutoff))
  {
    var q, r := SeqOf(ClosesOf(Quiet(c, cutoff))), SeqOf(ClosesOf(Retained(c, cutoff)));
    ClosesOfSplit(c, cutoff);
    CacheExtraListed(P, c, q + r);
    WeighConcat(OfClose(P), q, r);
  }

  lemma {:induction false} PurgedWeight(P: Pick, t: Table, cutoff: Time)
    ensures Weigh(OfRow(P), t) == Weigh(OfRow(P), DeleteBefore(t, cutoff)) + Weigh(OfLoss(P), Purged(t, cutoff))
  {
    if t != [] {
      var front, last := t[..|t| - 1], t[|t| - 1];
      PurgedWeight(P, front, cutoff);
      if last.id.openedAt < cutoff {
        assert DeleteBefore(t, cutoff) == DeleteBefore(front, cutoff);
        WeighAppend(OfLoss(P), Purged(front, cutoff), Loss(last.id, last.count, Retention));
      } else {
        assert Purged(t, cutoff) == Purged(front, cutoff);
        WeighAppend(OfRow(P), DeleteBefore(front, cutoff), last);
      }
    }
  }

  /** Closing adds the window's duplicates to its one row, whose count was still 1. */
  lemma ClosedWeight(P: Pick, t: Table, c: Close)
    requires DistinctRows(t) && c.count >= 1 && forall r :: r in t && r.id == c.id ==> r.count == 1
    ensures Weigh(OfRow(P), Closed(t, c)) == Weigh(OfRow(P), t) + if HasRow(t, c.id) then OfClose(P)(c) else 0
  {
    if HasRow(t, c.id) {
      var r :| r in t && r.id == c.id;
      var j :| 0 <= j < |t| && t[j] == r;
      WeighUpdate(OfRow(P), t, j, r.(count := c.count));
      assert c.count > 1 ==> Closed(t, c) == t[j := r.(count := c.count)];
    } else {
      assert Closed(t, c) == t;
    }
  }

  lemma DuplicateExtra(P: Pick, c: Cache, now: Time, key: Key, silence: Time)
    requires Silenced(c, now, key, silence) && c[key].count >= 1
    ensures CacheExtra(P, Advance(c, now, key, silence))
         == CacheExtra(P, c) + if P(WindowId(key, c[key].firstSeen)) then 1 else 0
  {
    CacheExtraWithout(P, c, key);
    CacheExtraSet(P, c, key, Window(c[key].firstSeen, now, c[key].count + 1));
  }

  lemma DuplicateBalances(P: Pick, cfg: Config, s: State, s': State, now: Time, key: Key)
    requires StepTo(cfg, s, Arrive(now, key), s') && Balanced(P, s)
    requires Silenced(s.cache, now, key, cfg.silence(key)) && s.cache[key].count >= 1
    ensures Balanced(P, s')
  {
    DuplicateExtra(P, s.cache, now, key, cfg.silence(key));
    WeighAppend(OfAlert(P), s.raw, Occurrence(now, WindowId(key, s.cache[key].firstSeen)));
  }

  lemma PassExtra(P: Pick, c: Cache, now: Time, key: Key, silence: Time, inHand: seq<Close>)
    requires !Silenced(c, now, key, silence)
    ensures CacheExtra(P, Advance(c, now, key, silence))
            + Weigh(OfClose(P), inHand + if key in c then [CloseOf(key, c[key])] else [])
         == CacheExtra(P, c) + Weigh(OfClose(P), inHand)
  {
    CacheExtraWithout(P, c, key);
    CacheExtraSet(P, c, key, Window(now, now, 1));
    if key in c {
      WeighAppend(OfClose(P), inHand, CloseOf(key, c[key]));
    } else {
      assert inHand + [] == inHand;
    }
  }

  lemma PassBalances(P: Pick, cfg: Config, s: State, s': State, now: Time, key: Key)
    requires StepTo(cfg, s, Arrive(now, key), s') && Balanced(P, s)
    requires !Silenced(s.cache, now, key, cfg.silence(key))
    ensures Balanced(P, s')
  {
    PassExtra(P, s.cache, now, key, cfg.silence(key), s.inHand);
    WeighAppend(OfAlert(P), s.raw, Occurrence(now, WindowId(key, now)));
    WeighAppend(OfOpening(P), s.opening, WindowId(key, now));
  }

  lemma PruneExtra(P: Pick, c: Cache, c': Cache, cutoff: Time, inHand: seq<Close>, closed: seq<Close>)
    requires Lists(closed, Quiet(c, cutoff)) && c' == Retained(c, cutoff)
    ensures CacheExtra(P, c') + Weigh(OfClose(P), inHand + closed)
         == CacheExtra(P, c) + Weigh(OfClose(P), inHand)
  {
    WeighConcat(OfClose(P), inHand, closed);
    CacheExtraSplit(P, c, cutoff);
    CacheExtraListed(P, Quiet(c, cutoff), closed);
  }

  lemma EvictBalances(P: Pick, s: State, s': State, closed: seq<Close>)
    requires Balanced(P, s)
    requires s'.table == s.table && s'.opening == s.opening && s'.queue == s.queue
    requires s'.lost == s.lost && s'.raw == s.raw && s'.inHand == s.inHand + closed
    requires CacheExtra(P, s'.cache) + Weigh(OfClose(P), s.inHand + closed)
          == CacheExtra(P, s.cache) + Weigh(OfClose(P), s.inHand)
    ensures Balanced(P, s')
  {
  }

  lemma PruneBalances(P: Pick, cfg: Config, s: State, s': State, now: Time, maxAge: Time, closed: seq<Close>)
    requires StepTo(cfg, s, PruneCache(now, maxAge, closed), s') && Balanced(P, s)
    ensures Balanced(P, s')
  {
    PruneExtra(P, s.cache, s'.cache, now - maxAge, s.inHand, closed);
    EvictBalances(P, s, s', closed);
  }

  lemma FlushBalances(P: Pick, cfg: Config, s: State, s': State, closed: seq<Close>)
    requires StepTo(cfg, s, FlushAll(closed), s') && Balanced(P, s)
    ensures Balanced(P, s')
  {
    WeighConcat(OfClose(P), s.inHand, closed);
    CacheExtraListed(P, s.cache, closed);
    CacheExtraListed(P, map[], []);
  }

  /** The opener's transaction adds a count of 1, and what it deletes is recorded as lost. */
  lemma OpenedWeight(P: Pick, t: Table, row: Row, cutoff: Option<Time>, lost: seq<Loss>)
    requires row.count == 1
    ensures Weigh(OfRow(P), Opened(t, row, cutoff))
            + Weigh(OfLoss(P), lost + if cutoff.Some? then Purged(t + [row], cutoff.value) else [])
         == Weigh(OfRow(P), t) + Weigh(OfLoss(P), lost) + OfOpening(P)(row.id)
  {
    WeighAppend(OfRow(P), t, row);
    if cutoff.Some? {
      PurgedWeight(P, t + [row], cutoff.value);
      WeighConcat(OfLoss(P), lost, Purged(t + [row], cutoff.value));
    } else {
      assert lost + [] == lost;
    }
  }

  lemma OpenFields(cfg: Config, s: State, s': State, i: nat, written: bool, writeNow: Time, cutoff: Option<Time>)
    requires StepTo(cfg, s, Open(i, written, writeNow, cutoff), s')
    ensures i < |s.opening| && s'.opening == RemoveAt(s.opening, i)
    ensures s'.cache == s.cache && s'.inHand == s.inHand && s'.queue == s.queue && s'.raw == s.raw
    ensures var row := RowOf(cfg, s.opening[i]);
            if written then
              s'.table == Opened(s.table, row, cutoff)
              && s'.lost == s.lost + if cutoff.Some? then Purged(s.table + [row], cutoff.value) else []
            else s'.table == s.table && s'.lost == s.lost + [Loss(s.opening[i], 1, OpenFailed)]
  {
    hide Opened, Purged;
  }

  lemma OpenBalances(P: Pick, cfg: Config, s: State, s': State, i: nat, written: bool, writeNow: Time,
                     cutoff: Option<Time>)
    requires StepTo(cfg, s, Open(i, written, writeNow, cutoff), s') && Balanced(P, s)
    ensures Balanced(P, s')
  {
    hide StepTo, Opened;
    OpenFields(cfg, s, s', i, written, writeNow, cutoff);
    var id := s.opening[i];
    WeighRemove(OfOpening(P), s.opening, i);
    if written {
      OpenedWeight(P, s.table, RowOf(cfg, id), cutoff, s.lost);
    } else {
      WeighAppend(OfLoss(P), s.lost, Loss(id, 1, OpenFailed));
    }
  }

  lemma WrittenCloseBalances(P: Pick, t: Table, lost: seq<Loss>, c: Close, written: bool)
    requires Unsettled(t, c)
    ensures Weigh(OfRow(P), if written then Closed(t, c) else t)
            + Weigh(OfLoss(P), lost + LossOfClose(t, c, written))
         == Weigh(OfRow(P), t) + Weigh(OfLoss(P), lost) + OfClose(P)(c)
  {
    ClosedWeight(P, t, c);
    if LossOfClose(t, c, written) != [] {
      WeighAppend(OfLoss(P), lost, LossOfClose(t, c, written)[0]);
    } else {
      assert lost + [] == lost;
    }
  }

  ghost predicate Unsettled(t: Table, c: Close) {
    DistinctRows(t) && c.count >= 1 && forall r :: r in t && r.id == c.id ==> r.count == 1
  }

  lemma HeldUnsettled(cfg: Config, s: State, c: Close)
    requires Inv(cfg, s) && (c in s.inHand || c in s.queue)
    ensures Unsettled(s.table, c)
  {
  }

  /** Where a close goes when it leaves a worker's hand, its duplicates stay accounted for. */
  lemma HandedOver(P: Pick, inHand: seq<Close>, i: nat, queue: seq<Close>, lost: seq<Loss>, queue': seq<Close>,
                   lost': seq<Loss>)
    requires i < |inHand|
    requires (inHand[i].count <= 1 && queue' == queue && lost' == lost)
          || (queue' == queue + [inHand[i]] && lost' == lost)
          || (queue' == queue && lost' == lost + [Loss(inHand[i].id, Extra(inHand[i]), Dropped)])
    ensures Weigh(OfClose(P), RemoveAt(inHand, i)) + Weigh(OfClose(P), queue') + Weigh(OfLoss(P), lost')
         == Weigh(OfClose(P), inHand) + Weigh(OfClose(P), queue) + Weigh(OfLoss(P), lost)
  {
    var c := inHand[i];
    WeighRemove(OfClose(P), inHand, i);
    WeighAppend(OfClose(P), queue, c);
    WeighAppend(OfLoss(P), lost, Loss(c.id, Extra(c), Dropped));
  }

  lemma HandoverBalances(P: Pick, s: State, s': State)
    requires Balanced(P, s)
    requires s'.table == s.table && s'.opening == s.opening && s'.cache == s.cache && s'.raw == s.raw
    requires Weigh(OfClose(P), s'.inHand) + Weigh(OfClose(P), s'.queue) + Weigh(OfLoss(P), s'.lost)
          == Weigh(OfClose(P), s.inHand) + Weigh(OfClose(P), s.queue) + Weigh(OfLoss(P), s.lost)
    ensures Balanced(P, s')
  {
  }

  lemma EnqueueFields(cfg: Config, s: State, s': State, i: nat, alive: bool)
    requires StepTo(cfg, s, Enqueue(i, alive), s')
    ensures i < |s.inHand| && s'.inHand == RemoveAt(s.inHand, i)
    ensures s'.table == s.table && s'.opening == s.opening && s'.cache == s.cache && s'.raw == s.raw
    ensures (s.inHand[i].count <= 1 && s'.queue == s.queue && s'.lost == s.lost)
         || (s'.queue == s.queue + [s.inHand[i]] && s'.lost == s.lost)
         || (s'.queue == s.queue && s'.lost == s.lost + [Loss(s.inHand[i].id, Extra(s.inHand[i]), Dropped)])
  {
  }

  lemma EnqueueBalances(P: Pick, cfg: Config, s: State, s': State, i: nat, alive: bool)
    requires StepTo(cfg, s, Enqueue(i, alive), s') && Balanced(P, s)
    ensures Balanced(P, s')
  {
    EnqueueFields(cfg, s, s', i, alive);
    HandedOver(P, s.inHand, i, s.queue, s.lost, s'.queue, s'.lost);
    HandoverBalances(P, s, s');
  }

  lemma ApplyBalances(P: Pick, cfg: Config, s: State, s': State, written: bool)
    requires StepTo(cfg, s, Apply(written), s') && Balanced(P, s) && Unsettled(s.table, s.queue[0])
    ensures Balanced(P, s')
  {
    WeighRemove(OfClose(P), s.queue, 0);
    assert RemoveAt(s.queue, 0) == s.queue[1..];
    WrittenCloseBalances(P, s.table, s.lost, s.queue[0], written);
  }

  lemma CloseNowBalances(P: Pick, cfg: Config, s: State, s': State, i: nat, written: bool)
    requires StepTo(cfg, s, CloseNow(i, written), s') && Balanced(P, s) && Unsettled(s.table, s.inHand[i])
    ensures Balanced(P, s')
  {
    WeighRemove(OfClose(P), s.inHand, i);
    WrittenCloseBalances(P, s.table, s.lost, s.inHand[i], written);
  }

  lemma StepBalances(P: Pick, cfg: Config, s: State, s': State, step: Step)
    requires Inv(cfg, s) && StepTo(cfg, s, step, s') && Balanced(P, s)
    ensures Balanced(P, s')
  {
    match step
    case Arrive(now, key) =>
      if Silenced(s.cache, now, key, cfg.silence(key)) {
        DuplicateBalances(P, cfg, s, s', now, key);
      } else {
        PassBalances(P, cfg, s, s', now, key);
      }
    case PruneCache(now, maxAge, closed) => PruneBalances(P, cfg, s, s', now, maxAge, closed);
    case FlushAll(closed) => FlushBalances(P, cfg, s, s', closed);
    case Open(i, written, writeNow, cutoff) => OpenBalances(P, cfg, s, s', i, written, writeNow, cutoff);
    case Enqueue(i, alive) => EnqueueBalances(P, cfg, s, s', i, alive);
    case Apply(written) =>
      HeldUnsettled(cfg, s, s.queue[0]);
      ApplyBalances(P, cfg, s, s', written);
    case CloseNow(i, written) =>
      HeldUnsettled(cfg, s, s.inHand[i]);
      CloseNowBalances(P, cfg, s, s', i, written);
  }

  /** The conservation law, for every choice of windows and every reachable state. */
  lemma {:induction false} Conservation(P: Pick, cfg: Config, steps: seq<Step>, s: State)
    requires ValidConfig(cfg) && Reaches(cfg, steps, s)
    ensures Balanced(P, s)
    decreases |steps|
  {
    if steps == [] {
      CacheExtraListed(P, map[], []);
    } else {
      var front, last := steps[..|steps| - 1], steps[|steps| - 1];
      var p :| Reaches(cfg, front, p) && StepTo(cfg, p, last, s);
      Conservation(P, cfg, front, p);
      ReachableInv(cfg, front, p);
      StepBalances(P, cfg, p, s, last);
    }
  }

  // ----- What the baseline query reads -----

  /** The alerts of one rule and host at or after `since`: what the query stands for. */
  function AlertAt(cfg: Config, ruleId: string, host: string, since: Time): Occurrence -> nat {
    (o: Occurrence) =>
      if cfg.ruleOf(o.window.key) == ruleId && cfg.hostOf(o.window.key) == host && o.at >= since then 1 else 0
  }

  function Alerts(cfg: Config, raw: seq<Occurrence>, ruleId: string, host: string, since: Time): nat {
    Weigh(AlertAt(cfg, ruleId, host, since), raw)
  }

  /** The windows of one rule and host opened at or after `since`. */
  function WindowsSince(cfg: Config, ruleId: string, host: string, since: Time): Pick {
    (id: WindowId) => cfg.ruleOf(id.key) == ruleId && cfg.hostOf(id.key) == host && id.openedAt >= since
  }

  /** What the system holds of the chosen windows and no row shows yet: rows to write, and duplicates not yet closed. */
  ghost function Held(P: Pick, s: State): nat {
    Weigh(OfOpening(P), s.opening) + CacheExtra(P, s.cache) + Weigh(OfClose(P), s.inHand) + Weigh(OfClose(P), s.queue)
  }

  /** What the system has given up of them. */
  function LostOf(P: Pick, s: State): nat {
    Weigh(OfLoss(P), s.lost)
  }

  ghost predicate Drained(s: State) {
    s.cache == map[] && s.opening == [] && s.inHand == [] && s.queue == []
  }

  lemma DrainedHoldsNothing(P: Pick, s: State)
    requires Drained(s)
    ensures Held(P, s) == 0
  {
    CacheExtraListed(P, map[], []);
  }

  lemma {:induction false} SumCaseWeight(cfg: Config, t: Table, ruleId: string, host: string, since: Time, oldest: Time)
    requires oldest <= since
    requires forall r :: r in t ==> r.ruleId == cfg.ruleOf(r.id.key) && r.host == cfg.hostOf(r.id.key)
    ensures SumCase(t, ruleId, host, since, oldest) == Weigh(OfRow(WindowsSince(cfg, ruleId, host, since)), t)
  {
    WeighLess(Counted(ruleId, host, since, oldest), OfRow(WindowsSince(cfg, ruleId, host, since)), t);
    WeighLess(OfRow(WindowsSince(cfg, ruleId, host, since)), Counted(ruleId, host, since, oldest), t);
  }

  lemma {:induction false} NoWeight<T>(f: T -> nat, s: seq<T>)
    requires forall x :: x in s ==> f(x) == 0
    ensures Weigh(f, s) == 0
  {
    if s != [] {
      NoWeight(f, s[..|s| - 1]);
    }
  }

  /** In every reachable state the query counts no alert that is too old for it. */
  lemma NeverOvercounts(cfg: Config, steps: seq<Step>, s: State, ruleId: string, host: string, since: Time,
                        oldest: Time)
    requires ValidConfig(cfg) && Reaches(cfg, steps, s) && oldest <= since
    ensures SumCase(s.table, ruleId, host, since, oldest) <= Alerts(cfg, s.raw, ruleId, host, since - cfg.skew)
  {
    var P := WindowsSince(cfg, ruleId, host, since);
    ReachableInv(cfg, steps, s);
    Conservation(P, cfg, steps, s);
    SumCaseWeight(cfg, s.table, ruleId, host, since, oldest);
    WeighLess(OfAlert(P), AlertAt(cfg, ruleId, host, since - cfg.skew), s.raw);
  }

  /**
   In every reachable state: what the query counts, together with what the system still holds or has
   lost of the windows it asks for, covers every alert that came a silence period after `since`.
   */
  lemma NeverUndercounts(cfg: Config, steps: seq<Step>, s: State, ruleId: string, host: string, since: Time,
                         oldest: Time, longest: Time)
    requires ValidConfig(cfg) && Reaches(cfg, steps, s) && oldest <= since
    requires forall k :: cfg.silence(k) <= longest
    ensures var P := WindowsSince(cfg, ruleId, host, since);
            Alerts(cfg, s.raw, ruleId, host, since + longest)
            <= SumCase(s.table, ruleId, host, since, oldest) + Held(P, s) + LostOf(P, s)
  {
    var P := WindowsSince(cfg, ruleId, host, since);
    ReachableInv(cfg, steps, s);
    Conservation(P, cfg, steps, s);
    SumCaseWeight(cfg, s.table, ruleId, host, since, oldest);
    WeighLess(AlertAt(cfg, ruleId, host, since + longest), OfAlert(P), s.raw);
  }

  /** Nor does it all together overshoot: nothing is counted, held and lost at once. */
  lemma NeverCountedTwice(cfg: Config, steps: seq<Step>, s: State, ruleId: string, host: string, since: Time,
                          oldest: Time)
    requires ValidConfig(cfg) && Reaches(cfg, steps, s) && oldest <= since
    ensures var P := WindowsSince(cfg, ruleId, host, since);
            SumCase(s.table, ruleId, host, since, oldest) + Held(P, s) + LostOf(P, s)
            <= Alerts(cfg, s.raw, ruleId, host, since - cfg.skew)
  {
    var P := WindowsSince(cfg, ruleId, host, since);
    ReachableInv(cfg, steps, s);
    Conservation(P, cfg, steps, s);
    SumCaseWeight(cfg, s.table, ruleId, host, since, oldest);
    WeighLess(OfAlert(P), AlertAt(cfg, ruleId, host, since - cfg.skew), s.raw);
  }

  ghost predicate Brackets(cfg: Config, raw: seq<Occurrence>, ruleId: string, host: string, since: Time, longest: Time,
                           counted: nat) {
    Alerts(cfg, raw, ruleId, host, since + longest) <= counted <= Alerts(cfg, raw, ruleId, host, since - cfg.skew)
  }

  /** One sum of the query, together with what is held and was lost of its windows, lies between the true counts. */
  ghost predicate Honest(cfg: Config, s: State, ruleId: string, host: string, since: Time, longest: Time,
                         counted: nat) {
    var P := WindowsSince(cfg, ruleId, host, since);
    Brackets(cfg, s.raw, ruleId, host, since, longest, counted + Held(P, s) + LostOf(P, s))
  }

  lemma QueryIsHonest(cfg: Config, steps: seq<Step>, s: State, ruleId: string, host: string, since: Time, oldest: Time,
                      longest: Time)
    requires ValidConfig(cfg) && Reaches(cfg, steps, s) && oldest <= since
    requires forall k :: cfg.silence(k) <= longest
    ensures Honest(cfg, s, ruleId, host, since, longest, SumCase(s.table, ruleId, host, since, oldest))
  {
    NeverUndercounts(cfg, steps, s, ruleId, host, since, oldest, longest);
    NeverCountedTwice(cfg, steps, s, ruleId, host, since, oldest);
  }

  /**
   The baseline an alert is judged by, read in any state of the running system: each of its four sums,
   with what is still held and what was lost of its windows, lies between the true alert counts.
   */
  lemma BaselineIsHonest(cfg: Config, steps: seq<Step>, s: State, ruleId: string, host: string, now: Time,
                         longest: Time)
    requires ValidConfig(cfg) && Reaches(cfg, steps, s)
    requires forall k :: cfg.silence(k) <= longest
    ensures var b := BaselineAt(s.table, ruleId, host, now);
            && Honest(cfg, s, ruleId, host, now - 3600.0, longest, b.lastHour)
            && Honest(cfg, s, ruleId, host, now - 86400.0, longest, b.lastDay)
            && Honest(cfg, s, ruleId, host, now - 604800.0, longest, b.lastWeek)
            && Honest(cfg, s, ruleId, host, now - 1209600.0, longest, b.lastFortnight)
  {
    var oldest := now - RETENTION;
    QueryIsHonest(cfg, steps, s, ruleId, host, now - HOUR, oldest, longest);
    QueryIsHonest(cfg, steps, s, ruleId, host, now - DAY, oldest, longest);
    QueryIsHonest(cfg, steps, s, ruleId, host, now - WEEK, oldest, longest);
    QueryIsHonest(cfg, steps, s, ruleId, host, oldest, oldest, longest);
  }

  /** Nothing of this rule and host has been lost from windows opened at or after `since`. */
  ghost predicate Unharmed(cfg: Config, s: State, ruleId: string, host: string, since: Time) {
    forall l :: l in s.lost && WindowsSince(cfg, ruleId, host, since)(l.id) ==> l.amount == 0
  }

  /** Once drained, and unharmed since then, a sum lies between the true counts by itself. */
  lemma DrainedBrackets(cfg: Config, s: State, ruleId: string, host: string, oldest: Time, since: Time, longest: Time,
                        counted: nat)
    requires Honest(cfg, s, ruleId, host, since, longest, counted)
    requires Drained(s) && oldest <= since && Unharmed(cfg, s, ruleId, host, oldest)
    ensures Brackets(cfg, s.raw, ruleId, host, since, longest, counted)
  {
    var P := WindowsSince(cfg, ruleId, host, since);
    DrainedHoldsNothing(P, s);
    NoWeight(OfLoss(P), s.lost);
  }
}
