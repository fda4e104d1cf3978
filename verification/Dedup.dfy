/**
 The in-memory silence windows of dedup.py.

 A key's window is anchored at its first occurrence. An occurrence closer than the silence
 period to that anchor is a duplicate and is only counted; any other occurrence passes and
 anchors a new window, handing the old window's final count to the caller. Windows also leave
 the cache by pruning and by the shutdown flush.
 */
module Dedup {
  import opened Wrappers

  type Key = string
  type Time = real

  /** A window's identity: the (dedup_key, timestamp) pair that finds its history row. */
  datatype WindowId = WindowId(key: Key, openedAt: Time)

  datatype Window = Window(firstSeen: Time, lastSeen: Time, count: nat)

  datatype Close = Close(id: WindowId, count: nat)

  type Cache = map<Key, Window>

  /** What one call decides: `openTs` is set exactly on the pass paths. */
  datatype Decision = Decision(isDup: bool, openTs: Option<Time>, close: Option<Close>)

  function CloseOf(key: Key, w: Window): Close {
    Close(WindowId(key, w.firstSeen), w.count)
  }

  /** The key has a window and `now` still falls into it. */
  predicate Silenced(c: Cache, now: Time, key: Key, silence: Time) {
    key in c && now - c[key].firstSeen < silence
  }

  function Decide(c: Cache, now: Time, key: Key, silence: Time): Decision {
    if Silenced(c, now, key, silence) then Decision(true, None, None)
    else Decision(false, Some(now), if key in c then Some(CloseOf(key, c[key])) else None)
  }

  function Advance(c: Cache, now: Time, key: Key, silence: Time): Cache {
    if Silenced(c, now, key, silence)
    then c[key := Window(c[key].firstSeen, now, c[key].count + 1)]
    else c[key := Window(now, now, 1)]
  }

  /** The latest of the clock readings so far. */
  function Later(clock: Option<Time>, now: Time): Option<Time> {
    if clock.Some? && clock.value > now then clock else Some(now)
  }

  /** The windows quiet since before the cutoff, and the others. */
  function Quiet(c: Cache, cutoff: Time): Cache {
    map k | k in c && c[k].lastSeen < cutoff :: c[k]
  }

  function Retained(c: Cache, cutoff: Time): Cache {
    map k | k in c && c[k].lastSeen >= cutoff :: c[k]
  }

  /** The close payloads of all windows of a cache. */
  function ClosesOf(c: Cache): set<Close> {
    set k | k in c :: CloseOf(k, c[k])
  }

  /** `closed` lists the payloads of exactly the windows of `c`, each once, in any order. */
  ghost predicate Lists(closed: seq<Close>, c: Cache) {
    multiset(closed) == multiset(ClosesOf(c))
  }

  lemma ListsAppend(closed: seq<Close>, c: Cache, k: Key, w: Window)
    requires Lists(closed, c) && k !in c
    ensures Lists(closed + [CloseOf(k, w)], c[k := w])
  {
    var c' := c[k := w];
    assert ClosesOf(c') == ClosesOf(c) + {CloseOf(k, w)} by {
      forall x | x in ClosesOf(c') ensures x in ClosesOf(c) + {CloseOf(k, w)} {
        var j :| j in c' && x == CloseOf(j, c'[j]);
        if j != k { assert j in c && c[j] == c'[j]; }
      }
      forall x | x in ClosesOf(c) ensures x in ClosesOf(c') {
        var j :| j in c && x == CloseOf(j, c[j]);
        assert j in c' && c'[j] == c[j];
      }
      assert c'[k] == w;
    }
    assert CloseOf(k, w) !in ClosesOf(c);
  }

  /** Removing or replacing one window changes the outstanding closes by exactly its payload. */
  lemma ClosesOfUpdate(c: Cache, k: Key, w: Window)
    ensures multiset(ClosesOf(c[k := w])) == multiset(ClosesOf(c - {k})) + multiset{CloseOf(k, w)}
  {
    var rest := c - {k};
    var listed := SeqOf(ClosesOf(rest));
    assert c[k := w] == rest[k := w];
    ListsAppend(listed, rest, k, w);
    assert multiset(listed + [CloseOf(k, w)]) == multiset(listed) + multiset{CloseOf(k, w)};
  }

  ghost function SeqOf(s: set<Close>): (r: seq<Close>)
    ensures multiset(r) == multiset(s)
  {
    if s == {} then []
    else
      var x :| x in s;
      assert s == (s - {x}) + {x};
      SeqOf(s - {x}) + [x]
  }

  lemma ClosesOfSplit(c: Cache, cutoff: Time)
    ensures multiset(ClosesOf(c)) == multiset(ClosesOf(Quiet(c, cutoff))) + multiset(ClosesOf(Retained(c, cutoff)))
  {
    var q, r := Quiet(c, cutoff), Retained(c, cutoff);
    forall x
      ensures multiset(ClosesOf(c))[x] == multiset(ClosesOf(q))[x] + multiset(ClosesOf(r))[x]
    {
      assert x in ClosesOf(q) ==> x.id.key in q && q[x.id.key] == c[x.id.key];
      assert x in ClosesOf(r) ==> x.id.key in r && r[x.id.key] == c[x.id.key];
      if x in ClosesOf(c) {
        var k :| k in c && x == CloseOf(k, c[k]);
        if c[k].lastSeen < cutoff { assert k in q && q[k] == c[k]; } else { assert k in r && r[k] == c[k]; }
      }
    }
  }

  /**
   A window's (key, timestamp) pair tells it from the key's earlier windows exactly when the
   silence period is positive; with 0, two alerts in one clock tick open two windows of one name.
   */
  lemma WindowNamesUnique(key: Key, silence: Time)
    ensures silence > 0.0
        <==> forall c: Cache, now: Time ::
               key in c && now >= c[key].firstSeen && Decide(c, now, key, silence).openTs.Some?
               ==> WindowId(key, now) != WindowId(key, c[key].firstSeen)
  {
    if silence <= 0.0 {
      var c: Cache := map[key := Window(0.0, 0.0, 1)];
      assert Decide(c, 0.0, key, silence).openTs.Some?;
    }
  }

  /** Pruning so far: some quiet windows are popped, those still to pop are known, the others are as before. */
  ghost predicate Popping(before: Cache, rest: Cache, popped: Cache, toPop: set<Key>, closed: seq<Close>,
                          cutoff: Time) {
    && (forall k :: k in before <==> k in rest || k in popped)
    && (forall k :: k in rest ==> rest[k] == before[k] && (k in toPop <==> before[k].lastSeen < cutoff))
    && (forall k :: k in popped ==> popped[k] == before[k] && before[k].lastSeen < cutoff && k !in rest)
    && toPop <= rest.Keys && Lists(closed, popped)
  }

  lemma PopStep(before: Cache, rest: Cache, popped: Cache, toPop: set<Key>, closed: seq<Close>, cutoff: Time, k: Key)
    requires Popping(before, rest, popped, toPop, closed, cutoff) && k in toPop
    ensures Popping(before, rest - {k}, popped[k := rest[k]], toPop - {k}, closed + [CloseOf(k, rest[k])], cutoff)
  {
    ListsAppend(closed, popped, k, rest[k]);
    hide Lists;
  }

  /** The cache object: the module's dictionary and its two decision counters. */
  class DedupCache {
    var entries: Cache
    var dropped: nat
    var passed: nat

    constructor ()
      ensures entries == map[] && dropped == passed == 0
    {
      entries := map[];
      dropped, passed := 0, 0;
    }

    method NoteDecision(wasDropped: bool)
      modifies this`dropped, this`passed
      ensures dropped == old(dropped) + (if wasDropped then 1 else 0)
      ensures passed == old(passed) + (if wasDropped then 0 else 1)
    {
      if wasDropped {
        dropped := dropped + 1;
      } else {
        passed := passed + 1;
      }
    }

    method IsDuplicate(now: Time, key: Key, silence: Time) returns (d: Decision)
      modifies this
      ensures d == Decide(old(entries), now, key, silence)
      ensures entries == Advance(old(entries), now, key, silence)
      ensures d.openTs.Some? == !d.isDup && key in entries
      ensures d.openTs.Some? ==> d.openTs.value == entries[key].firstSeen
      ensures dropped + passed == old(dropped + passed) + 1
      ensures dropped == old(dropped) + (if d.isDup then 1 else 0)
    {
      if key in entries {
        var w := entries[key];
        if now - w.firstSeen < silence {
          entries := entries[key := Window(w.firstSeen, now, w.count + 1)];
          NoteDecision(true);
          return Decision(true, None, None);
        }
        entries := entries[key := Window(now, now, 1)];
        NoteDecision(false);
        return Decision(false, Some(now), Some(Close(WindowId(key, w.firstSeen), w.count)));
      }
      entries := entries[key := Window(now, now, 1)];
      NoteDecision(false);
      return Decision(false, Some(now), None);
    }

    method GetLastSeen(key: Key) returns (seen: Option<(Time, Time)>)
      ensures key !in entries ==> seen == None
      ensures key in entries ==> seen == Some((entries[key].firstSeen, entries[key].lastSeen))
    {
      if key in entries {
        return Some((entries[key].firstSeen, entries[key].lastSeen));
      }
      return None;
    }

    /** Pops every quiet window and returns the payloads of the popped ones. */
    method PruneCache(now: Time, maxAge: Time) returns (closed: seq<Close>)
      modifies this`entries
      ensures entries == Retained(old(entries), now - maxAge)
      ensures Lists(closed, Quiet(old(entries), now - maxAge))
    {
      var cutoff := now - maxAge;
      ghost var before := entries;
      var keysToRemove := set k | k in entries && entries[k].lastSeen < cutoff;
      closed := [];
      ghost var popped: Cache := map[];
      while keysToRemove != {}
        invariant Popping(before, entries, popped, keysToRemove, closed, cutoff)
        decreases keysToRemove
      {
        var k :| k in keysToRemove;
        PopStep(before, entries, popped, keysToRemove, closed, cutoff, k);
        var w := entries[k];
        entries := entries - {k};
        closed := closed + [Close(WindowId(k, w.firstSeen), w.count)];
        popped := popped[k := w];
        keysToRemove := keysToRemove - {k};
      }
      assert popped == Quiet(before, cutoff);
      assert entries == Retained(before, cutoff);
    }

    /** Empties the cache and returns the payloads of all its windows. */
    method FlushAllWindows() returns (closed: seq<Close>)
      modifies this`entries
      ensures entries == map[]
      ensures Lists(closed, old(entries))
    {
      closed := [];
      var rest := entries.Keys;
      ghost var listed: Cache := map[];
      while rest != {}
        invariant entries == old(entries) && rest <= entries.Keys
        invariant listed == map k | k in entries && k !in rest :: entries[k]
        invariant Lists(closed, listed)
        decreases rest
      {
        var k :| k in rest;
        ListsAppend(closed, listed, k, entries[k]);
        closed := closed + [CloseOf(k, entries[k])];
        listed := listed[k := entries[k]];
        rest := rest - {k};
      }
      assert listed == entries;
      entries := map[];
    }
  }
}
