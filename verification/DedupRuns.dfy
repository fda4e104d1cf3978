/**
 Whole runs of the dedup cache: arrivals of any keys interleaved with pruning.

 Two results. Every pass/drop decision is the greedy one: an arrival passes exactly when it is
 at least the silence period after every earlier arrival of its key that passed. And pruning is
 unobservable: with a long enough horizon it changes no decision and loses no close.

 Clock readings are taken before the lock, so they may run backwards in lock order; `skew`
 bounds by how much. A monotone clock is the case `skew == 0`.
 */
module DedupRuns {
  import opened Wrappers
  import opened Dedup

  datatype Event = Arrive(now: Time, key: Key) | Prune(now: Time, maxAge: Time)

  /** The silence period of a key: the global one or its rule's override. */
  type Silence = Key -> Time

  function StepCache(S: Silence, c: Cache, e: Event, pruning: bool): Cache {
    match e
    case Arrive(now, key) => Advance(c, now, key, S(key))
    case Prune(now, maxAge) => if pruning then Retained(c, now - maxAge) else c
  }

  /** The cache after a run; with `pruning` false every prune is ignored. */
  function CacheAfter(S: Silence, evs: seq<Event>, pruning: bool): Cache {
    if evs == [] then map[]
    else StepCache(S, CacheAfter(S, evs[..|evs| - 1], pruning), evs[|evs| - 1], pruning)
  }

  ghost function Emitted(S: Silence, c: Cache, e: Event, pruning: bool): multiset<Close> {
    match e
    case Arrive(now, key) =>
      (match Decide(c, now, key, S(key)).close case Some(x) => multiset{x} case None => multiset{})
    case Prune(now, maxAge) =>
      if pruning then multiset(ClosesOf(Quiet(c, now - maxAge))) else multiset{}
  }

  /** All closes a run hands out, by re-anchoring and by pruning. */
  ghost function Emissions(S: Silence, evs: seq<Event>, pruning: bool): multiset<Close> {
    if evs == [] then multiset{}
    else
      var front := evs[..|evs| - 1];
      Emissions(S, front, pruning) + Emitted(S, CacheAfter(S, front, pruning), evs[|evs| - 1], pruning)
  }

  /** Event `j` is an arrival of `key` that passes. */
  predicate Passes(S: Silence, evs: seq<Event>, key: Key, j: int, pruning: bool) {
    && 0 <= j < |evs| && evs[j].Arrive? && evs[j].key == key
    && !Decide(CacheAfter(S, evs[..j], pruning), evs[j].now, key, S(key)).isDup
  }

  /**
   The horizon outlasts every silence period by twice the skew. A period not above `-skew` does not matter:
   no reading runs back far enough to fall into it.
   */
  ghost predicate LongEnough(S: Silence, maxAge: Time, skew: Time) {
    forall k :: S(k) + skew > 0.0 ==> maxAge >= S(k) + 2.0 * skew
  }

  /** Clock readings run back by at most `skew`. */
  ghost predicate Skewed(evs: seq<Event>, skew: Time) {
    skew >= 0.0 && forall i, j :: 0 <= i < j < |evs| ==> evs[j].now >= evs[i].now - skew
  }

  /** So they do, and every prune keeps entries long enough. */
  ghost predicate Disciplined(S: Silence, evs: seq<Event>, skew: Time) {
    && Skewed(evs, skew)
    && (forall i :: 0 <= i < |evs| && evs[i].Prune? ==> LongEnough(S, evs[i].maxAge, skew))
  }

  // ----- Pruning is unobservable -----

  ghost function Clock(evs: seq<Event>): Option<Time> {
    if evs == [] then None else Later(Clock(evs[..|evs| - 1]), evs[|evs| - 1].now)
  }

  lemma {:induction false} ClockIsAReading(evs: seq<Event>)
    requires evs != []
    ensures exists i :: 0 <= i < |evs| && Clock(evs) == Some(evs[i].now)
  {
    var front, last := evs[..|evs| - 1], evs[|evs| - 1];
    if Clock(front).Some? && Clock(front).value > last.now {
      ClockIsAReading(front);
      var i :| 0 <= i < |front| && Clock(front) == Some(front[i].now);
      assert evs[i] == front[i];
    } else {
      assert Clock(evs) == Some(evs[|evs| - 1].now);
    }
  }

  /** A window missing from the pruned cache only is over at every later reading. */
  ghost predicate Simulates(S: Silence, clock: Option<Time>, skew: Time, c: Cache, f: Cache) {
    && (forall k :: k in c ==> k in f && c[k] == f[k])
    && (forall k :: k in f && k !in c ==> clock.Some? && clock.value - skew >= f[k].firstSeen + S(k))
    && (forall k :: k in f ==> f[k].lastSeen >= f[k].firstSeen - skew)
    && (forall k :: k in f ==> clock.Some? && f[k].firstSeen <= clock.value)
  }

  /** The event's clock reading and horizon fit the run so far. */
  ghost predicate Fits(S: Silence, clock: Option<Time>, skew: Time, e: Event) {
    && skew >= 0.0
    && (clock.Some? ==> e.now >= clock.value - skew)
    && (e.Prune? ==> LongEnough(S, e.maxAge, skew))
  }

  lemma DisciplinedFits(S: Silence, evs: seq<Event>, skew: Time)
    requires Disciplined(S, evs, skew) && evs != []
    ensures Disciplined(S, evs[..|evs| - 1], skew)
    ensures Fits(S, Clock(evs[..|evs| - 1]), skew, evs[|evs| - 1])
  {
    var front := evs[..|evs| - 1];
    if front != [] {
      ClockIsAReading(front);
    }
  }

  lemma SameDecision(S: Silence, clock: Option<Time>, skew: Time, c: Cache, f: Cache, e: Event)
    requires Simulates(S, clock, skew, c, f) && Fits(S, clock, skew, e) && e.Arrive?
    ensures Silenced(c, e.now, e.key, S(e.key)) == Silenced(f, e.now, e.key, S(e.key))
  {
  }

  lemma SimulationStep(S: Silence, clock: Option<Time>, skew: Time, c: Cache, f: Cache, e: Event)
    requires Simulates(S, clock, skew, c, f) && Fits(S, clock, skew, e)
    ensures Simulates(S, Later(clock, e.now), skew, StepCache(S, c, e, true), StepCache(S, f, e, false))
  {
    if e.Arrive? {
      SameDecision(S, clock, skew, c, f, e);
    }
  }

  lemma {:induction false} RunSimulates(S: Silence, evs: seq<Event>, skew: Time)
    requires Disciplined(S, evs, skew)
    ensures Simulates(S, Clock(evs), skew, CacheAfter(S, evs, true), CacheAfter(S, evs, false))
  {
    if evs != [] {
      var front, e := evs[..|evs| - 1], evs[|evs| - 1];
      DisciplinedFits(S, evs, skew);
      RunSimulates(S, front, skew);
      SimulationStep(S, Clock(front), skew, CacheAfter(S, front, true), CacheAfter(S, front, false), e);
    }
  }

  /** An arrival turns the payload its window would have had into the payload it has now. */
  ghost function Superseded(S: Silence, c: Cache, e: Event): multiset<Close> {
    if e.Arrive? && Silenced(c, e.now, e.key, S(e.key)) then multiset{CloseOf(e.key, c[e.key])} else multiset{}
  }

  ghost function Superseding(S: Silence, c: Cache, e: Event): multiset<Close> {
    if e.Prune? then multiset{}
    else multiset{CloseOf(e.key, Advance(c, e.now, e.key, S(e.key))[e.key])}
  }

  lemma OutstandingArrival(S: Silence, c: Cache, now: Time, k: Key)
    ensures (match Decide(c, now, k, S(k)).close case Some(x) => multiset{x} case None => multiset{})
            + multiset(ClosesOf(Advance(c, now, k, S(k)))) + Superseded(S, c, Arrive(now, k))
         == multiset(ClosesOf(c)) + Superseding(S, c, Arrive(now, k))
  {
    var c' := Advance(c, now, k, S(k));
    ClosesOfUpdate(c, k, c'[k]);
    assert c[k := c'[k]] == c';
    if k in c {
      ClosesOfUpdate(c, k, c[k]);
      assert c[k := c[k]] == c;
    } else {
      assert c - {k} == c;
    }
  }

  lemma OutstandingStep(S: Silence, c: Cache, e: Event, pruning: bool)
    ensures Emitted(S, c, e, pruning) + multiset(ClosesOf(StepCache(S, c, e, pruning))) + Superseded(S, c, e)
         == multiset(ClosesOf(c)) + Superseding(S, c, e)
  {
    match e
    case Prune(now, maxAge) => ClosesOfSplit(c, now - maxAge);
    case Arrive(now, k) => OutstandingArrival(S, c, now, k);
  }

  lemma Cancel(a: multiset<Close>, b: multiset<Close>, x: multiset<Close>)
    requires a + x == b + x
    ensures a == b
  {
    forall y ensures a[y] == b[y] {
      assert (a + x)[y] == a[y] + x[y] && (b + x)[y] == b[y] + x[y];
    }
  }

  /** Closes handed out so far together with those a flush would hand out. */
  ghost function Outstanding(S: Silence, evs: seq<Event>, pruning: bool): multiset<Close> {
    Emissions(S, evs, pruning) + multiset(ClosesOf(CacheAfter(S, evs, pruning)))
  }

  lemma Regroup(a: multiset<Close>, b: multiset<Close>, x: multiset<Close>, y: multiset<Close>, z: multiset<Close>,
                w: multiset<Close>)
    requires b + x + y == z + w
    ensures a + b + x + y == a + z + w
  {
    assert a + b + x + y == a + (b + x + y);
    assert a + z + w == a + (z + w);
  }

  lemma OutstandingGrows(S: Silence, front: seq<Event>, c: Cache, e: Event, pruning: bool)
    requires c == CacheAfter(S, front, pruning)
    ensures Outstanding(S, front + [e], pruning) + Superseded(S, c, e)
         == Outstanding(S, front, pruning) + Superseding(S, c, e)
  {
    var evs := front + [e];
    assert evs[..|evs| - 1] == front;
    OutstandingStep(S, c, e, pruning);
    Regroup(Emissions(S, front, pruning), Emitted(S, c, e, pruning), multiset(ClosesOf(StepCache(S, c, e, pruning))),
            Superseded(S, c, e), multiset(ClosesOf(c)), Superseding(S, c, e));
  }

  lemma SupersedingAlike(S: Silence, clock: Option<Time>, skew: Time, c: Cache, f: Cache, e: Event)
    requires Simulates(S, clock, skew, c, f) && Fits(S, clock, skew, e)
    ensures Superseded(S, c, e) == Superseded(S, f, e) && Superseding(S, c, e) == Superseding(S, f, e)
  {
    if e.Arrive? {
      SameDecision(S, clock, skew, c, f, e);
    }
  }

  lemma {:induction false} SameCloses(S: Silence, evs: seq<Event>, skew: Time)
    requires Disciplined(S, evs, skew)
    ensures Outstanding(S, evs, true) == Outstanding(S, evs, false)
  {
    if evs != [] {
      var front, e := evs[..|evs| - 1], evs[|evs| - 1];
      assert evs == front + [e];
      DisciplinedFits(S, evs, skew);
      SameCloses(S, front, skew);
      RunSimulates(S, front, skew);
      var c, f := CacheAfter(S, front, true), CacheAfter(S, front, false);
      OutstandingGrows(S, front, c, e, true);
      OutstandingGrows(S, front, f, e, false);
      SupersedingAlike(S, Clock(front), skew, c, f, e);
      Cancel(Outstanding(S, evs, true), Outstanding(S, evs, false), Superseded(S, c, e));
    }
  }

  lemma SamePass(S: Silence, evs: seq<Event>, skew: Time, j: nat)
    requires Disciplined(S, evs, skew) && j < |evs| && evs[j].Arrive?
    ensures Passes(S, evs, evs[j].key, j, true) == Passes(S, evs, evs[j].key, j, false)
  {
    var upTo := evs[..j + 1];
    assert upTo[..|upTo| - 1] == evs[..j] && upTo[j] == evs[j];
    assert Disciplined(S, upTo, skew);
    DisciplinedFits(S, upTo, skew);
    hide Disciplined, Simulates, Fits;
    RunSimulates(S, evs[..j], skew);
    SameDecision(S, Clock(evs[..j]), skew, CacheAfter(S, evs[..j], true), CacheAfter(S, evs[..j], false), evs[j]);
  }

  /**
   Pruning is unobservable. Against the run that never prunes, every arrival gets the same
   decision, and after a final flush the same closes have been handed out, as a multiset.
   */
  lemma PruneTransparent(S: Silence, evs: seq<Event>, skew: Time)
    requires Disciplined(S, evs, skew)
    ensures forall k, j :: Passes(S, evs, k, j, true) == Passes(S, evs, k, j, false)
    ensures Outstanding(S, evs, true) == Outstanding(S, evs, false)
  {
    SameCloses(S, evs, skew);
    forall k, j | 0 <= j < |evs| && evs[j].Arrive? && evs[j].key == k
      ensures Passes(S, evs, k, j, true) == Passes(S, evs, k, j, false)
    {
      SamePass(S, evs, skew, j);
    }
  }

  // ----- What a window is -----

  /** The name that a passing arrival gives its window. */
  ghost function NameGiven(S: Silence, c: Cache, e: Event): set<WindowId> {
    match e
    case Arrive(now, key) =>
      (match Decide(c, now, key, S(key)).openTs case Some(t) => {WindowId(key, t)} case None => {})
    case Prune(_, _) => {}
  }

  /** The names that the passing arrivals of a run have been given to open their windows under. */
  ghost function NamesGiven(S: Silence, evs: seq<Event>, pruning: bool): set<WindowId> {
    if evs == [] then {}
    else
      var front := evs[..|evs| - 1];
      NamesGiven(S, front, pruning) + NameGiven(S, CacheAfter(S, front, pruning), evs[|evs| - 1])
  }

  /** Some close of these is that of the window of this name. */
  ghost predicate Closes(closes: multiset<Close>, id: WindowId) {
    exists x :: x in closes && x.id == id
  }

  /** A step gives out exactly the name under which its window will close. */
  lemma NamesStep(S: Silence, c: Cache, e: Event, id: WindowId)
    ensures Closes(Superseding(S, c, e), id) <==> Closes(Superseded(S, c, e), id) || id in NameGiven(S, c, e)
  {
    if e.Arrive? {
      var w := Advance(c, e.now, e.key, S(e.key))[e.key];
      assert CloseOf(e.key, w) in Superseding(S, c, e);
      if Silenced(c, e.now, e.key, S(e.key)) {
        assert CloseOf(e.key, c[e.key]) in Superseded(S, c, e);
      }
    }
  }

  /** The closes of windows in the cache are outstanding. */
  lemma OutstandingHolds(S: Silence, evs: seq<Event>, pruning: bool, closes: multiset<Close>, id: WindowId)
    requires forall x :: x in closes ==> x in ClosesOf(CacheAfter(S, evs, pruning))
    ensures Closes(closes, id) ==> Closes(Outstanding(S, evs, pruning), id)
  {
    if x :| x in closes && x.id == id {
      assert x in multiset(ClosesOf(CacheAfter(S, evs, pruning)));
      assert x in Outstanding(S, evs, pruning);
    }
  }

  lemma ClosesJoin(a: multiset<Close>, b: multiset<Close>, x: multiset<Close>, y: multiset<Close>, id: WindowId)
    requires a + x == b + y
    ensures Closes(a, id) || Closes(x, id) <==> Closes(b, id) || Closes(y, id)
  {
    assert forall c :: c in a + x <==> c in a || c in x;
    assert forall c :: c in b + y <==> c in b || c in y;
  }

  /**
   Windows close under the names they were opened under: the names that passing arrivals were given are
   exactly those of the closes handed out so far or by a final flush, in any run.
   */
  lemma {:induction false} NamesMatch(S: Silence, evs: seq<Event>, pruning: bool, id: WindowId)
    ensures id in NamesGiven(S, evs, pruning) <==> Closes(Outstanding(S, evs, pruning), id)
  {
    if evs == [] {
      assert Outstanding(S, evs, pruning) == multiset{};
    } else {
      var front, e := evs[..|evs| - 1], evs[|evs| - 1];
      var c := CacheAfter(S, front, pruning);
      assert evs == front + [e];
      NamesMatch(S, front, pruning, id);
      OutstandingGrows(S, front, c, e, pruning);
      NamesStep(S, c, e, id);
      ClosesJoin(Outstanding(S, evs, pruning), Outstanding(S, front, pruning), Superseded(S, c, e),
                 Superseding(S, c, e), id);
      OutstandingHolds(S, front, pruning, Superseded(S, c, e), id);
      OutstandingHolds(S, evs, pruning, Superseding(S, c, e), id);
    }
  }

  predicate Arrives(evs: seq<Event>, key: Key, j: int) {
    0 <= j < |evs| && evs[j].Arrive? && evs[j].key == key
  }

  /** How many arrivals of the key come at or after index `i`. */
  function ArrivalsFrom(evs: seq<Event>, key: Key, i: nat): nat {
    if |evs| <= i then 0
    else
      var n := |evs| - 1;
      ArrivalsFrom(evs[..n], key, i) + if Arrives(evs, key, n) then 1 else 0
  }

  ghost predicate LastPass(S: Silence, evs: seq<Event>, key: Key, i: nat, pruning: bool) {
    Passes(S, evs, key, i, pruning) && forall j :: i < j < |evs| ==> !Passes(S, evs, key, j, pruning)
  }

  ghost predicate LastArrival(evs: seq<Event>, key: Key, j: nat) {
    Arrives(evs, key, j) && forall n :: j < n < |evs| ==> !Arrives(evs, key, n)
  }

  /**
   The window was opened by the key's latest pass, last seen at
   its latest arrival, and counts all since that pass.
   */
  ghost predicate IsHistory(S: Silence, evs: seq<Event>, key: Key, w: Window, i: nat, j: nat, pruning: bool) {
    && LastPass(S, evs, key, i, pruning) && LastArrival(evs, key, j)
    && w == Window(evs[i].now, evs[j].now, ArrivalsFrom(evs, key, i))
  }

  lemma PassesEarlier(S: Silence, evs: seq<Event>, key: Key, j: nat, pruning: bool)
    requires evs != [] && j < |evs| - 1
    ensures Passes(S, evs[..|evs| - 1], key, j, pruning) == Passes(S, evs, key, j, pruning)
    ensures Arrives(evs[..|evs| - 1], key, j) == Arrives(evs, key, j)
  {
    assert evs[..|evs| - 1][..j] == evs[..j];
  }

  /** What the cache holds of a key, in any run, pruned or not. */
  lemma {:induction false} WindowIsHistory(S: Silence, evs: seq<Event>, key: Key, pruning: bool)
    returns (i: nat, j: nat)
    ensures var c := CacheAfter(S, evs, pruning); key in c ==> IsHistory(S, evs, key, c[key], i, j, pruning)
  {
    i, j := 0, 0;
    if evs != [] {
      var n := |evs| - 1;
      var front := evs[..n];
      i, j := WindowIsHistory(S, front, key, pruning);
      forall m: nat | m < n
        ensures Passes(S, front, key, m, pruning) == Passes(S, evs, key, m, pruning)
        ensures Arrives(front, key, m) == Arrives(evs, key, m)
      {
        PassesEarlier(S, evs, key, m, pruning);
      }
      if Passes(S, evs, key, n, pruning) {
        i, j := n, n;
      } else if Arrives(evs, key, n) {
        j := n;
      }
    }
  }

  /** No prune since event `j` found it longer ago than its horizon. */
  ghost predicate KeptSince(evs: seq<Event>, j: nat)
    requires j < |evs|
  {
    forall m :: j < m < |evs| && evs[m].Prune? ==> evs[m].now - evs[j].now <= evs[m].maxAge
  }

  /** A key is in the cache exactly if it has arrived and no prune since its latest arrival found that too old. */
  lemma {:induction false} KeptExactly(S: Silence, evs: seq<Event>, key: Key)
    ensures key in CacheAfter(S, evs, true) <==> exists j :: LastArrival(evs, key, j) && KeptSince(evs, j)
  {
    if evs != [] {
      var n := |evs| - 1;
      var front := evs[..n];
      KeptExactly(S, front, key);
      var i, k := WindowIsHistory(S, front, key, true);
      forall j: nat | j < n ensures LastArrival(evs, key, j) <==> LastArrival(front, key, j) && !Arrives(evs, key, n) {
        assert forall m :: 0 <= m < n ==> Arrives(front, key, m) == Arrives(evs, key, m);
      }
      if Arrives(evs, key, n) {
        assert LastArrival(evs, key, n) && KeptSince(evs, n);
      } else {
        assert forall j :: 0 <= j < n && LastArrival(front, key, j) && KeptSince(front, j) ==>
                 (evs[n].Prune? ==> key in CacheAfter(S, front, true) && j == k);
        assert !LastArrival(evs, key, n);
      }
    }
  }

  // ----- The decisions are greedy -----

  /** In the unpruned run a key's anchor is its latest pass, and no pass is later than it. */
  lemma {:induction false} AnchorIsLatestPass(S: Silence, evs: seq<Event>, k: Key)
    requires S(k) >= 0.0
    ensures var f := CacheAfter(S, evs, false);
            && (k in f ==> exists j :: Passes(S, evs, k, j, false) && evs[j].now == f[k].firstSeen)
            && (forall j :: Passes(S, evs, k, j, false) ==> k in f && evs[j].now <= f[k].firstSeen)
  {
    if evs != [] {
      var n := |evs| - 1;
      var front, e := evs[..n], evs[n];
      AnchorIsLatestPass(S, front, k);
      forall j | 0 <= j < n
        ensures Passes(S, evs, k, j, false) == Passes(S, front, k, j, false)
      {
        assert evs[..j] == front[..j];
      }
      var f := CacheAfter(S, front, false);
      if e.Arrive? && e.key == k && !Silenced(f, e.now, k, S(k)) {
        assert Passes(S, evs, k, n, false);
      } else if k in f {
        var j :| Passes(S, front, k, j, false) && front[j].now == f[k].firstSeen;
        assert Passes(S, evs, k, j, false);
      }
    }
  }

  /**
   The decisions of any run, prunes included: an arrival passes exactly when it comes at least
   the silence period after every earlier arrival of its key that passed.
   */
  lemma GreedyDecisions(S: Silence, evs: seq<Event>, skew: Time, i: nat)
    requires Disciplined(S, evs, skew) && i < |evs| && evs[i].Arrive? && S(evs[i].key) >= 0.0
    ensures Passes(S, evs, evs[i].key, i, true)
        <==> forall j :: 0 <= j < i && Passes(S, evs, evs[i].key, j, true)
                         ==> evs[i].now - evs[j].now >= S(evs[i].key)
  {
    var k, front := evs[i].key, evs[..i];
    PruneTransparent(S, evs, skew);
    AnchorIsLatestPass(S, front, k);
    forall j | 0 <= j < i
      ensures Passes(S, front, k, j, false) == Passes(S, evs, k, j, true)
    {
      assert front[..j] == evs[..j];
    }
  }

  // ----- The horizon is exact -----

  /** No run of arrivals and prunes with this horizon, under readings that run back by up to `skew`, is affected. */
  ghost predicate HorizonSafe(S: Silence, maxAge: Time, skew: Time) {
    forall evs: seq<Event>, k, j ::
      Skewed(evs, skew) && (forall a :: 0 <= a < |evs| && evs[a].Prune? ==> evs[a].maxAge == maxAge)
      ==> Passes(S, evs, k, j, true) == Passes(S, evs, k, j, false)
  }

  /**
   For every horizon and every skew: no run's decisions are changed if and only if the horizon is long
   enough. Under a monotone clock the one prune_cache asks for is exactly the one needed.
   */
  lemma HorizonExact(S: Silence, maxAge: Time, skew: Time)
    requires skew >= 0.0
    ensures HorizonSafe(S, maxAge, skew) <==> LongEnough(S, maxAge, skew)
    ensures (forall k :: S(k) > 0.0) ==> (HorizonSafe(S, maxAge, 0.0) <==> forall k :: maxAge >= S(k))
  {
    ReachExact(S, maxAge, skew);
    ReachExact(S, maxAge, 0.0);
  }

  lemma ReachExact(S: Silence, maxAge: Time, skew: Time)
    requires skew >= 0.0
    ensures HorizonSafe(S, maxAge, skew) <==> LongEnough(S, maxAge, skew)
  {
    if LongEnough(S, maxAge, skew) {
      forall evs: seq<Event>, k, j |
        Skewed(evs, skew) && (forall a :: 0 <= a < |evs| && evs[a].Prune? ==> evs[a].maxAge == maxAge)
        ensures Passes(S, evs, k, j, true) == Passes(S, evs, k, j, false)
      {
        PruneTransparent(S, evs, skew);
      }
    } else {
      var k :| S(k) + skew > 0.0 && maxAge < S(k) + 2.0 * skew;
      EarlyPruneReescalates(S, k, maxAge, skew);
      assert Skewed(EarlyPrune(S, k, maxAge, skew), skew);
    }
  }

  /** What the main loop passes to prune_cache, given the largest silence period in use. */
  function PruneHorizon(largest: Time): Time {
    var floored := if largest < 240.0 then 240.0 else largest;
    if 2.0 * floored < 3600.0 then 3600.0 else 2.0 * floored
  }

  /**
   It takes clock readings that run back by half of what it exceeds that period, and no more: an hour less the
   period, or the period again if that is longer than half an hour.
   */
  lemma PruneHorizonExact(S: Silence, largest: Key, skew: Time)
    requires skew >= 0.0 && S(largest) >= 0.0 && forall k :: S(k) <= S(largest)
    ensures HorizonSafe(S, PruneHorizon(S(largest)), skew)
        <==> 2.0 * skew <= if S(largest) <= 1800.0 then 3600.0 - S(largest) else S(largest)
  {
    HorizonExact(S, PruneHorizon(S(largest)), skew);
  }

  /** One occurrence, a second that is read earlier, a prune, and a repeat that is read before the prune. */
  function EarlyPrune(S: Silence, k: Key, maxAge: Time, skew: Time): seq<Event> {
    var mid := (maxAge + S(k)) / 2.0;
    var at := if mid < 0.0 then 0.0 else mid;
    [Arrive(0.0, k), Arrive(-skew, k), Prune(at, maxAge), Arrive(at - skew, k)]
  }

  /** With a shorter horizon that repeat, within the silence period of the first occurrence, escalates again. */
  lemma EarlyPruneReescalates(S: Silence, k: Key, maxAge: Time, skew: Time)
    requires skew >= 0.0 && S(k) + skew > 0.0 && maxAge < S(k) + 2.0 * skew
    ensures var evs := EarlyPrune(S, k, maxAge, skew);
            Skewed(evs, skew) && Passes(S, evs, k, 3, true) && !Passes(S, evs, k, 3, false)
            && evs[3].now - evs[0].now < S(k) && Passes(S, evs, k, 0, true)
  {
    var evs := EarlyPrune(S, k, maxAge, skew);
    var first, second := [evs[0]], [evs[0], evs[1]];
    var window := map[k := Window(0.0, -skew, 2)];
    assert first[..0] == [] == evs[..0] && second[..1] == first;
    assert evs[..3][..2] == second && evs[..3][2] == evs[2];
    assert CacheAfter(S, [], true) == map[] == CacheAfter(S, [], false);
    assert CacheAfter(S, first, true) == map[k := Window(0.0, 0.0, 1)] == CacheAfter(S, first, false);
    assert CacheAfter(S, second, true) == window == CacheAfter(S, second, false);
    assert CacheAfter(S, evs[..3], true) == map[];
    assert CacheAfter(S, evs[..3], false) == window;
  }
}
