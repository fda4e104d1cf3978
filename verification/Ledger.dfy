/**
 The frequency ledger: the dedup cache, the workers, the asynchronous close writer and the
 alert_history table as one state machine, one atomic action per step and in any order.

 The table gets a count of 1 when a window opens and the final count some time after it closed,
 yet it is read as if it held every alert. The history variables say why that is right: `raw`
 is the log of all alerts, each with the window it fell into, and `lost` what the system gave up.
 */
module Ledger {
  import opened Wrappers
  import opened Dedup
  import opened Sums
  import opened AlertHistory

  /** Per key: its silence period and the (rule, host) its rows are filed under. */
  datatype Config = Config(silence: Key -> Time, ruleOf: Key -> string, hostOf: Key -> string, skew: Time)

  ghost predicate ValidConfig(cfg: Config) {
    cfg.skew >= 0.0 && forall k :: cfg.silence(k) > 0.0
  }

  datatype Occurrence = Occurrence(at: Time, window: WindowId)

  /** A count the table will not show: which step gave it up, and how much. */
  datatype Cause = OpenFailed | Dropped | CloseFailed | NoRow | Retention
  datatype Loss = Loss(id: WindowId, amount: nat, cause: Cause)

  datatype Stage = Live | InHand | Queued | Settled

  datatype Birth = Opening | Stored | Failed

  datatype State = State(
    cache: Cache,
    opening: seq<WindowId>,   // passed alerts whose row is not written yet
    inHand: seq<Close>,       // closes returned by dedup, held by a worker or the main loop
    queue: seq<Close>,        // closes handed to the writer thread
    table: Table,
    stopped: bool,            // the shutdown flush has emptied the cache
    clock: Option<Time>,      // history: the latest clock reading
    anchors: map<Key, Time>,  // history: each key's latest window
    stage: map<WindowId, Stage>,
    birth: map<WindowId, Birth>,
    raw: seq<Occurrence>,
    lost: seq<Loss>)

  const INIT := State(map[], [], [], [], [], false, None, map[], map[], map[], [], [])

  datatype Step =
    | Arrive(now: Time, key: Key)
    | PruneCache(now: Time, maxAge: Time, closed: seq<Close>)
    | FlushAll(closed: seq<Close>)
    | Open(i: nat, written: bool, writeNow: Time, cutoff: Option<Time>)
    | Enqueue(i: nat, alive: bool)
    | Apply(written: bool)
    | CloseNow(i: nat, written: bool)

  ghost predicate ClockOk(cfg: Config, s: State, now: Time) {
    s.clock.Some? ==> now >= s.clock.value - cfg.skew
  }

  ghost predicate Enabled(cfg: Config, s: State, step: Step) {
    match step
    case Arrive(now, key) => ClockOk(cfg, s, now) && !s.stopped
    case PruneCache(now, maxAge, closed) =>
      && ClockOk(cfg, s, now) && !s.stopped
      && (forall k :: maxAge >= cfg.silence(k) + 2.0 * cfg.skew)
      && Lists(closed, Quiet(s.cache, now - maxAge))
    case FlushAll(closed) => Lists(closed, s.cache)
    case Open(i, written, writeNow, cutoff) =>
      i < |s.opening| && writeNow - 2592000.0 <= s.opening[i].openedAt <= writeNow + 3600.0
    case Enqueue(i, alive) => i < |s.inHand|
    case Apply(written) => s.queue != []
    case CloseNow(i, written) => i < |s.inHand|
  }

  function Extra(c: Close): nat {
    if c.count <= 1 then 0 else c.count - 1
  }

  ghost predicate HasRow(t: Table, id: WindowId) {
    exists r :: r in t && r.id == id
  }

  /** What writing this close leaves unrecorded: everything when it fails or finds no row. */
  ghost function LossOfClose(t: Table, c: Close, written: bool): seq<Loss> {
    if !written then [Loss(c.id, Extra(c), CloseFailed)]
    else if HasRow(t, c.id) then []
    else [Loss(c.id, Extra(c), NoRow)]
  }

  function Purged(t: Table, cutoff: Time): seq<Loss> {
    if t == [] then []
    else
      var last := t[|t| - 1];
      Purged(t[..|t| - 1], cutoff)
      + if last.id.openedAt < cutoff then [Loss(last.id, last.count, Retention)] else []
  }

  function IdsOf(closed: seq<Close>): set<WindowId> {
    set c | c in closed :: c.id
  }

  function MoveTo(stage: map<WindowId, Stage>, ids: set<WindowId>, to: Stage): map<WindowId, Stage> {
    map id | id in stage :: if id in ids then to else stage[id]
  }

  function RowOf(cfg: Config, id: WindowId): Row {
    NewRow(cfg.ruleOf(id.key), cfg.hostOf(id.key), id)
  }

  ghost function Next(cfg: Config, s: State, step: Step): State
    requires Enabled(cfg, s, step)
  {
    match step
    case Arrive(now, key) =>
      var d := Decide(s.cache, now, key, cfg.silence(key));
      var s' := s.(cache := Advance(s.cache, now, key, cfg.silence(key)), clock := Later(s.clock, now));
      if d.isDup then
        s'.(raw := s.raw + [Occurrence(now, WindowId(key, s.cache[key].firstSeen))])
      else
        var id := WindowId(key, d.openTs.value);
        var held := if d.close.Some? then [d.close.value] else [];
        s'.(opening := s.opening + [id], inHand := s.inHand + held,
            anchors := s.anchors[key := now], birth := s.birth[id := Opening],
            stage := MoveTo(s.stage, IdsOf(held), InHand)[id := Live],
            raw := s.raw + [Occurrence(now, id)])
    case PruneCache(now, maxAge, closed) =>
      s.(cache := Retained(s.cache, now - maxAge), inHand := s.inHand + closed,
         stage := MoveTo(s.stage, IdsOf(closed), InHand), clock := Later(s.clock, now))
    case FlushAll(closed) =>
      s.(cache := map[], inHand := s.inHand + closed, stage := MoveTo(s.stage, IdsOf(closed), InHand),
         stopped := true)
    case Open(i, written, writeNow, cutoff) =>
      var id := s.opening[i];
      var row := RowOf(cfg, WindowId(id.key, Sanitize(Some(id.openedAt), writeNow)));
      if !written then
        s.(opening := RemoveAt(s.opening, i), birth := s.birth[id := Failed],
           lost := s.lost + [Loss(id, 1, OpenFailed)])
      else
        s.(opening := RemoveAt(s.opening, i), birth := s.birth[id := Stored],
           table := Opened(s.table, row, cutoff),
           lost := s.lost + if cutoff.Some? then Purged(s.table + [row], cutoff.value) else [])
    case Enqueue(i, alive) =>
      var c := s.inHand[i];
      var s' := s.(inHand := RemoveAt(s.inHand, i));
      if c.count <= 1 then s'.(stage := s.stage[c.id := Settled])
      else if !alive then s'.(stage := s.stage[c.id := Settled], lost := s.lost + [Loss(c.id, Extra(c), Dropped)])
      else s'.(stage := s.stage[c.id := Queued], queue := s.queue + [c])
    case Apply(written) =>
      var c := s.queue[0];
      s.(queue := s.queue[1..], stage := s.stage[c.id := Settled],
         table := if written then Closed(s.table, c) else s.table,
         lost := s.lost + LossOfClose(s.table, c, written))
    case CloseNow(i, written) =>
      var c := s.inHand[i];
      s.(inHand := RemoveAt(s.inHand, i), stage := s.stage[c.id := Settled],
         table := if written then Closed(s.table, c) else s.table,
         lost := s.lost + LossOfClose(s.table, c, written))
  }

  ghost predicate StepTo(cfg: Config, s: State, step: Step, s': State) {
    Enabled(cfg, s, step) && s' == Next(cfg, s, step)
  }

  /** `s` is reached by these steps. */
  ghost predicate Reaches(cfg: Config, steps: seq<Step>, s: State)
    decreases |steps|
  {
    if steps == [] then s == INIT
    else
      var front, last := steps[..|steps| - 1], steps[|steps| - 1];
      exists p :: Reaches(cfg, front, p) && StepTo(cfg, p, last, s)
  }

  // ----- What every step keeps -----

  ghost predicate DistinctCloses(cs: seq<Close>) {
    forall i, j :: 0 <= i < j < |cs| ==> cs[i].id != cs[j].id
  }

  ghost predicate DistinctIds(ids: seq<WindowId>) {
    forall i, j :: 0 <= i < j < |ids| ==> ids[i] != ids[j]
  }

  ghost predicate DistinctRows(t: Table) {
    forall i, j :: 0 <= i < j < |t| ==> t[i].id != t[j].id
  }

  ghost predicate CacheInv(cfg: Config, s: State) {
    forall k :: k in s.cache ==>
      && k in s.anchors && s.anchors[k] == s.cache[k].firstSeen
      && s.cache[k].lastSeen >= s.cache[k].firstSeen - cfg.skew
      && s.clock.Some? && s.cache[k].firstSeen <= s.clock.value
      && s.cache[k].count >= 1
      && WindowId(k, s.cache[k].firstSeen) in s.stage
      && s.stage[WindowId(k, s.cache[k].firstSeen)] == Live
  }

  /** A key that has left the cache cannot be silenced by its old window any more. */
  ghost predicate AnchorInv(cfg: Config, s: State) {
    !s.stopped ==> forall k :: k in s.anchors && k !in s.cache ==>
      s.clock.Some? && s.clock.value - cfg.skew >= s.anchors[k] + cfg.silence(k)
  }

  ghost predicate IdInv(s: State) {
    && s.stage.Keys == s.birth.Keys
    && forall id :: id in s.stage ==> id.key in s.anchors && id.openedAt <= s.anchors[id.key]
  }

  ghost predicate CloseInv(s: State) {
    && DistinctCloses(s.inHand) && DistinctCloses(s.queue)
    && (forall c :: c in s.inHand ==> c.count >= 1 && c.id in s.stage && s.stage[c.id] == InHand)
    && (forall c :: c in s.queue ==> c.count > 1 && c.id in s.stage && s.stage[c.id] == Queued)
  }

  ghost predicate TableInv(cfg: Config, s: State) {
    && DistinctIds(s.opening) && DistinctRows(s.table)
    && (forall id :: id in s.opening ==> id in s.birth && s.birth[id] == Opening)
    && (forall r :: r in s.table ==>
          && r.id in s.birth && s.birth[r.id] == Stored
          && r.ruleId == cfg.ruleOf(r.id.key) && r.host == cfg.hostOf(r.id.key)
          && (r.id in s.stage && s.stage[r.id] != Settled ==> r.count == 1))
  }

  /** Every alert lies in the silence period of the window it was counted into. */
  ghost predicate RawInv(cfg: Config, s: State) {
    forall o :: o in s.raw ==> -cfg.skew <= o.at - o.window.openedAt < cfg.silence(o.window.key)
  }

  ghost predicate Inv(cfg: Config, s: State) {
    CacheInv(cfg, s) && AnchorInv(cfg, s) && IdInv(s) && CloseInv(s) && TableInv(cfg, s) && RawInv(cfg, s)
  }

  lemma ListedClose(closed: seq<Close>, c: Cache, x: Close)
    requires Lists(closed, c)
    ensures x in closed <==> x.id.key in c && x == CloseOf(x.id.key, c[x.id.key])
  {
    assert x in closed <==> x in multiset(closed);
  }

  lemma ListedTwice(closed: seq<Close>, i: nat, j: nat)
    requires i < j < |closed| && closed[i] == closed[j]
    ensures multiset(closed)[closed[i]] >= 2
  {
    assert closed == closed[..i] + [closed[i]] + closed[i + 1..j] + [closed[j]] + closed[j + 1..];
  }

  lemma ListsDistinct(closed: seq<Close>, c: Cache)
    requires Lists(closed, c)
    ensures DistinctCloses(closed)
  {
    forall i: nat, j: nat | i < j < |closed| && closed[i].id == closed[j].id ensures false {
      ListedClose(closed, c, closed[i]);
      ListedClose(closed, c, closed[j]);
      ListedTwice(closed, i, j);
    }
  }

  lemma NewWindowIsFresh(cfg: Config, s: State, now: Time, key: Key)
    requires ValidConfig(cfg) && Inv(cfg, s) && Enabled(cfg, s, Arrive(now, key))
    requires !Silenced(s.cache, now, key, cfg.silence(key))
    ensures WindowId(key, now) !in s.stage
    ensures key in s.anchors ==> now >= s.anchors[key]
  {
  }

  lemma DuplicateKeepsInv(cfg: Config, s: State, s': State, now: Time, key: Key)
    requires ValidConfig(cfg) && Inv(cfg, s) && StepTo(cfg, s, Arrive(now, key), s')
    requires Silenced(s.cache, now, key, cfg.silence(key))
    ensures Inv(cfg, s')
  {
    assert CacheInv(cfg, s') && AnchorInv(cfg, s');
    assert TableInv(cfg, s') && RawInv(cfg, s');
  }

  /** The stages after a pass: the closing window's, if there is one, and the new window's. */
  lemma PassStages(cfg: Config, s: State, now: Time, key: Key, s': State)
    requires ValidConfig(cfg) && Inv(cfg, s) && StepTo(cfg, s, Arrive(now, key), s')
    requires !Silenced(s.cache, now, key, cfg.silence(key))
    ensures s'.inHand == if key in s.cache then s.inHand + [CloseOf(key, s.cache[key])] else s.inHand
    ensures WindowId(key, now) in s'.stage && s'.stage[WindowId(key, now)] == Live
    ensures s'.stage.Keys == s.stage.Keys + {WindowId(key, now)}
    ensures forall id :: id in s.stage ==>
              s'.stage[id] == if key in s.cache && id == WindowId(key, s.cache[key].firstSeen) then InHand
                              else s.stage[id]
  {
    NewWindowIsFresh(cfg, s, now, key);
  }

  lemma AppendedClose(cs: seq<Close>, c: Close)
    requires DistinctCloses(cs) && forall x :: x in cs ==> x.id != c.id
    ensures DistinctCloses(cs + [c])
    ensures forall x :: x in cs + [c] <==> x in cs || x == c
  {
  }

  lemma PassKeepsCloses(cfg: Config, s: State, now: Time, key: Key, s': State)
    requires ValidConfig(cfg) && Inv(cfg, s) && StepTo(cfg, s, Arrive(now, key), s')
    requires !Silenced(s.cache, now, key, cfg.silence(key))
    ensures CloseInv(s')
  {
    NewWindowIsFresh(cfg, s, now, key);
    PassStages(cfg, s, now, key, s');
    if key in s.cache {
      AppendedClose(s.inHand, CloseOf(key, s.cache[key]));
    }
  }

  lemma PassFields(cfg: Config, s: State, now: Time, key: Key, s': State)
    requires StepTo(cfg, s, Arrive(now, key), s') && !Silenced(s.cache, now, key, cfg.silence(key))
    ensures s'.cache == s.cache[key := Window(now, now, 1)] && s'.anchors == s.anchors[key := now]
    ensures s'.clock == Later(s.clock, now) && !s'.stopped && !s.stopped && ClockOk(cfg, s, now)
    ensures s'.birth == s.birth[WindowId(key, now) := Opening]
  {
  }

  lemma PassedCache(cfg: Config, s: State, now: Time, key: Key, s': State)
    requires ValidConfig(cfg) && CacheInv(cfg, s)
    requires s'.cache == s.cache[key := Window(now, now, 1)] && s'.anchors == s.anchors[key := now]
    requires s'.clock == Later(s.clock, now)
    requires WindowId(key, now) in s'.stage && s'.stage[WindowId(key, now)] == Live
    requires s.stage.Keys <= s'.stage.Keys
    requires forall id :: id in s.stage && id.key != key ==> s'.stage[id] == s.stage[id]
    ensures CacheInv(cfg, s')
  {
  }

  lemma PassedWindows(cfg: Config, s: State, now: Time, key: Key, s': State)
    requires ValidConfig(cfg) && AnchorInv(cfg, s) && IdInv(s) && !s.stopped
    requires s'.cache == s.cache[key := Window(now, now, 1)] && s'.anchors == s.anchors[key := now]
    requires s'.clock == Later(s.clock, now) && (key in s.anchors ==> now >= s.anchors[key])
    requires s'.birth == s.birth[WindowId(key, now) := Opening] && s'.stage.Keys == s.stage.Keys + {WindowId(key, now)}
    ensures AnchorInv(cfg, s') && IdInv(s')
  {
  }

  lemma PassKeepsWindows(cfg: Config, s: State, now: Time, key: Key, s': State)
    requires ValidConfig(cfg) && Inv(cfg, s) && StepTo(cfg, s, Arrive(now, key), s')
    requires !Silenced(s.cache, now, key, cfg.silence(key))
    ensures CacheInv(cfg, s') && AnchorInv(cfg, s') && IdInv(s')
  {
    hide CacheInv, AnchorInv, IdInv, CloseInv, TableInv, RawInv;
    assert Enabled(cfg, s, Arrive(now, key));
    hide StepTo;
    NewWindowIsFresh(cfg, s, now, key);
    PassFields(cfg, s, now, key, s');
    PassStages(cfg, s, now, key, s');
    PassedCache(cfg, s, now, key, s');
    PassedWindows(cfg, s, now, key, s');
  }

  lemma PassKeepsTable(cfg: Config, s: State, now: Time, key: Key, s': State)
    requires ValidConfig(cfg) && Inv(cfg, s) && StepTo(cfg, s, Arrive(now, key), s')
    requires !Silenced(s.cache, now, key, cfg.silence(key))
    ensures TableInv(cfg, s') && RawInv(cfg, s')
  {
    NewWindowIsFresh(cfg, s, now, key);
    PassFields(cfg, s, now, key, s');
    PassStages(cfg, s, now, key, s');
    PassedTable(cfg, s, now, key, s');
    hide TableInv, CacheInv, AnchorInv, IdInv, CloseInv;
  }

  lemma PassedTable(cfg: Config, s: State, now: Time, key: Key, s': State)
    requires TableInv(cfg, s) && IdInv(s) && WindowId(key, now) !in s.stage
    requires s'.table == s.table && s'.opening == s.opening + [WindowId(key, now)]
    requires s'.birth == s.birth[WindowId(key, now) := Opening]
    requires s'.stage.Keys == s.stage.Keys + {WindowId(key, now)}
    requires forall id :: id in s.stage ==> (s'.stage[id] == Settled <==> s.stage[id] == Settled)
    ensures TableInv(cfg, s')
  {
    assert forall r :: r in s.table ==> r.id != WindowId(key, now);
    assert forall id :: id in s.opening ==> id != WindowId(key, now);
  }

  lemma EvictKeepsCloses(s: State, closed: seq<Close>, gone: Cache, s': State)
    requires CloseInv(s) && Lists(closed, gone)
    requires forall k :: k in gone ==> k in s.cache && gone[k] == s.cache[k]
    requires forall k :: k in s.cache ==> s.cache[k].count >= 1
    requires forall k :: k in s.cache ==> WindowId(k, s.cache[k].firstSeen) in s.stage
    requires forall k :: k in s.cache ==> s.stage[WindowId(k, s.cache[k].firstSeen)] == Live
    requires s'.inHand == s.inHand + closed && s'.queue == s.queue
    requires s'.stage == MoveTo(s.stage, IdsOf(closed), InHand)
    ensures CloseInv(s')
    ensures forall id: WindowId :: id in IdsOf(closed) <==> id.key in gone && gone[id.key].firstSeen == id.openedAt
  {
    ListsDistinct(closed, gone);
    forall x ensures x in closed <==> x.id.key in gone && x == CloseOf(x.id.key, gone[x.id.key]) {
      ListedClose(closed, gone, x);
    }
    forall id: WindowId | id.key in gone && gone[id.key].firstSeen == id.openedAt ensures id in IdsOf(closed) {
      assert CloseOf(id.key, gone[id.key]) in closed;
    }
  }

  lemma PruneKeepsWindows(cfg: Config, s: State, s': State, now: Time, maxAge: Time, closed: seq<Close>)
    requires ValidConfig(cfg) && Inv(cfg, s) && StepTo(cfg, s, PruneCache(now, maxAge, closed), s')
    requires forall id: WindowId :: id in IdsOf(closed) <==>
      id.key in Quiet(s.cache, now - maxAge) && Quiet(s.cache, now - maxAge)[id.key].firstSeen == id.openedAt
    ensures CacheInv(cfg, s') && AnchorInv(cfg, s') && IdInv(s')
  {
    hide TableInv, RawInv, CloseInv, Lists;
  }

  /** Closes taken in hand change nothing in the table. */
  lemma EvictKeepsTable(cfg: Config, s: State, closed: seq<Close>, s': State)
    requires TableInv(cfg, s) && RawInv(cfg, s) && s'.stage == MoveTo(s.stage, IdsOf(closed), InHand)
    requires forall id :: id in IdsOf(closed) && id in s.stage ==> s.stage[id] == Live
    requires s'.opening == s.opening && s'.table == s.table && s'.birth == s.birth && s'.raw == s.raw
    ensures TableInv(cfg, s') && RawInv(cfg, s')
  {
  }

  lemma PruneKeepsInv(cfg: Config, s: State, s': State, now: Time, maxAge: Time, closed: seq<Close>)
    requires ValidConfig(cfg) && Inv(cfg, s) && StepTo(cfg, s, PruneCache(now, maxAge, closed), s')
    ensures Inv(cfg, s')
  {
    EvictKeepsCloses(s, closed, Quiet(s.cache, now - maxAge), s');
    PruneKeepsWindows(cfg, s, s', now, maxAge, closed);
    EvictKeepsTable(cfg, s, closed, s');
    hide CacheInv, AnchorInv, IdInv, TableInv, RawInv, CloseInv, StepTo;
  }

  lemma FlushKeepsInv(cfg: Config, s: State, s': State, closed: seq<Close>)
    requires ValidConfig(cfg) && Inv(cfg, s) && StepTo(cfg, s, FlushAll(closed), s')
    ensures Inv(cfg, s')
  {
    EvictKeepsCloses(s, closed, s.cache, s');
  }

  lemma DeleteKeepsDistinct(t: Table, cutoff: Time)
    requires DistinctRows(t)
    ensures DistinctRows(DeleteBefore(t, cutoff))
  {
  }

  lemma RemovedId(ids: seq<WindowId>, i: nat)
    requires DistinctIds(ids) && i < |ids|
    ensures DistinctIds(RemoveAt(ids, i))
    ensures forall id :: id in RemoveAt(ids, i) ==> id in ids && id != ids[i]
  {
  }

  /** Whatever the opener's transaction deletes, the remaining rows keep their identities distinct. */
  lemma OpenedRows(t: Table, row: Row, cutoff: Option<Time>)
    requires DistinctRows(t) && forall r :: r in t ==> r.id != row.id
    ensures DistinctRows(Opened(t, row, cutoff))
    ensures forall r :: r in Opened(t, row, cutoff) ==> r in t || r == row
  {
    if cutoff.Some? {
      DeleteKeepsDistinct(t + [row], cutoff.value);
    }
  }

  lemma OpenKeepsInv(cfg: Config, s: State, s': State, i: nat, written: bool, writeNow: Time, cutoff: Option<Time>)
    requires ValidConfig(cfg) && Inv(cfg, s) && StepTo(cfg, s, Open(i, written, writeNow, cutoff), s')
    ensures Inv(cfg, s')
  {
    OpenKeepsTable(cfg, s, s', i, written, writeNow, cutoff);
    OpenFields(cfg, s, s', i, written, writeNow, cutoff);
    hide TableInv, StepTo;
  }

  /** What opening a window's row leaves alone. */
  lemma OpenFields(cfg: Config, s: State, s': State, i: nat, written: bool, writeNow: Time, cutoff: Option<Time>)
    requires StepTo(cfg, s, Open(i, written, writeNow, cutoff), s') && TableInv(cfg, s)
    ensures s' == s.(opening := s'.opening, birth := s'.birth, table := s'.table, lost := s'.lost)
    ensures s'.birth.Keys == s.birth.Keys
  {
    assert s.opening[i] in s.opening;
  }

  lemma OpenKeepsTable(cfg: Config, s: State, s': State, i: nat, written: bool, writeNow: Time, cutoff: Option<Time>)
    requires TableInv(cfg, s) && IdInv(s) && StepTo(cfg, s, Open(i, written, writeNow, cutoff), s')
    ensures TableInv(cfg, s')
  {
    hide Opened, Purged;
    var id := s.opening[i];
    assert id in s.opening;
    RemovedId(s.opening, i);
    OpenedRows(s.table, RowOf(cfg, id), cutoff);
  }

  lemma RemovedClose(cs: seq<Close>, i: nat)
    requires DistinctCloses(cs) && i < |cs|
    ensures DistinctCloses(RemoveAt(cs, i))
    ensures forall c :: c in RemoveAt(cs, i) ==> c in cs && c.id != cs[i].id
  {
  }

  lemma SettledTable(cfg: Config, s: State, c: Close, t: Table)
    requires TableInv(cfg, s) && c.id in s.stage && (t == s.table || t == Closed(s.table, c))
    ensures TableInv(cfg, s.(stage := s.stage[c.id := Settled], table := t))
  {
    forall r | r in t ensures exists q :: q in s.table && q.id == r.id && q.ruleId == r.ruleId && q.host == r.host
                                         && (r.id != c.id ==> q == r) {
      var j :| 0 <= j < |t| && t[j] == r;
      assert s.table[j] in s.table;
    }
  }

  lemma EnqueueKeepsCloses(cfg: Config, s: State, s': State, i: nat, alive: bool)
    requires CloseInv(s) && StepTo(cfg, s, Enqueue(i, alive), s')
    ensures CloseInv(s')
  {
    var c := s.inHand[i];
    assert c in s.inHand;
    RemovedClose(s.inHand, i);
    AppendedClose(s.queue, c);
    hide RemoveAt, DistinctCloses;
  }

  lemma StageMoved(cfg: Config, s: State, s': State, id: WindowId, to: Stage)
    requires Inv(cfg, s) && id in s.stage && s.stage[id] != Live && s.stage[id] != Settled
    requires s' == s.(stage := s.stage[id := to], inHand := s'.inHand, queue := s'.queue, lost := s'.lost)
    ensures CacheInv(cfg, s') && AnchorInv(cfg, s') && IdInv(s') && TableInv(cfg, s') && RawInv(cfg, s')
  {
    assert CacheInv(cfg, s');
    assert TableInv(cfg, s');
  }

  lemma EnqueueKeepsInv(cfg: Config, s: State, s': State, i: nat, alive: bool)
    requires ValidConfig(cfg) && Inv(cfg, s) && StepTo(cfg, s, Enqueue(i, alive), s')
    ensures Inv(cfg, s')
  {
    var id := s.inHand[i].id;
    assert s.inHand[i] in s.inHand;
    EnqueueKeepsCloses(cfg, s, s', i, alive);
    StageMoved(cfg, s, s', id, s'.stage[id]);
  }

  /** A window that was closed before moves on: nothing changes for the windows in the cache. */
  lemma MovedWindows(cfg: Config, s: State, s': State, id: WindowId, to: Stage)
    requires Inv(cfg, s) && id in s.stage && s.stage[id] != Live && s'.stage == s.stage[id := to]
    requires s'.cache == s.cache && s'.anchors == s.anchors && s'.clock == s.clock && s'.stopped == s.stopped
    requires s'.birth == s.birth && s'.raw == s.raw
    ensures CacheInv(cfg, s') && AnchorInv(cfg, s') && IdInv(s') && RawInv(cfg, s')
  {
    hide TableInv, CloseInv;
  }

  lemma ApplyKeepsCloses(cfg: Config, s: State, s': State, written: bool)
    requires CloseInv(s) && StepTo(cfg, s, Apply(written), s')
    ensures CloseInv(s')
  {
    assert s.queue[0] in s.queue;
    assert forall c :: c in s.queue[1..] ==> c in s.queue && c.id != s.queue[0].id;
  }

  lemma ApplyKeepsInv(cfg: Config, s: State, s': State, written: bool)
    requires ValidConfig(cfg) && Inv(cfg, s) && StepTo(cfg, s, Apply(written), s')
    ensures Inv(cfg, s')
  {
    var c := s.queue[0];
    assert c in s.queue;
    ApplyKeepsCloses(cfg, s, s', written);
    SettledTable(cfg, s, c, s'.table);
    MovedWindows(cfg, s, s', c.id, Settled);
    hide CacheInv, AnchorInv, IdInv, RawInv, CloseInv;
  }

  lemma CloseNowKeepsCloses(cfg: Config, s: State, s': State, i: nat, written: bool)
    requires CloseInv(s) && StepTo(cfg, s, CloseNow(i, written), s')
    ensures CloseInv(s')
  {
    assert s.inHand[i] in s.inHand;
    RemovedClose(s.inHand, i);
  }

  lemma CloseNowKeepsInv(cfg: Config, s: State, s': State, i: nat, written: bool)
    requires ValidConfig(cfg) && Inv(cfg, s) && StepTo(cfg, s, CloseNow(i, written), s')
    ensures Inv(cfg, s')
  {
    var c := s.inHand[i];
    assert c in s.inHand;
    CloseNowKeepsCloses(cfg, s, s', i, written);
    SettledTable(cfg, s, c, s'.table);
    MovedWindows(cfg, s, s', c.id, Settled);
    hide CacheInv, AnchorInv, IdInv, RawInv, CloseInv;
  }

  lemma StepKeepsInv(cfg: Config, s: State, step: Step, s': State)
    requires ValidConfig(cfg) && Inv(cfg, s) && StepTo(cfg, s, step, s')
    ensures Inv(cfg, s')
  {
    match step
    case Arrive(now, key) =>
      if Silenced(s.cache, now, key, cfg.silence(key)) {
        DuplicateKeepsInv(cfg, s, s', now, key);
      } else {
        PassKeepsCloses(cfg, s, now, key, s');
        PassKeepsWindows(cfg, s, now, key, s');
        PassKeepsTable(cfg, s, now, key, s');
      }
    case PruneCache(now, maxAge, closed) => PruneKeepsInv(cfg, s, s', now, maxAge, closed);
    case FlushAll(closed) => FlushKeepsInv(cfg, s, s', closed);
    case Open(i, written, writeNow, cutoff) => OpenKeepsInv(cfg, s, s', i, written, writeNow, cutoff);
    case Enqueue(i, alive) => EnqueueKeepsInv(cfg, s, s', i, alive);
    case Apply(written) => ApplyKeepsInv(cfg, s, s', written);
    case CloseNow(i, written) => CloseNowKeepsInv(cfg, s, s', i, written);
  }

  lemma {:induction false} ReachableInv(cfg: Config, steps: seq<Step>, s: State)
    requires ValidConfig(cfg) && Reaches(cfg, steps, s)
    ensures Inv(cfg, s)
    decreases |steps|
  {
    if steps != [] {
      var front, last := steps[..|steps| - 1], steps[|steps| - 1];
      var p :| Reaches(cfg, front, p) && StepTo(cfg, p, last, s);
      ReachableInv(cfg, front, p);
      StepKeepsInv(cfg, p, last, s);
    }
  }
}
