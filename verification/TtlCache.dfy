/**
 The bounded time-to-live cache of enrich.py: an ordered dictionary whose oldest entry is evicted
 in constant time, standing for a cache that evicts the entry with the smallest timestamp.
 */
module TtlCache {
  import opened Wrappers

  type Time = real

  datatype Entry<V> = Entry(key: string, at: Time, value: V)

  /** The ordered dictionary, oldest insertion first. */
  type Entries<V> = seq<Entry<V>>

  function Find<V(!new)>(c: Entries<V>, key: string): Option<Entry<V>> {
    if c == [] then None
    else if c[|c| - 1].key == key then Some(c[|c| - 1])
    else Find(c[..|c| - 1], key)
  }

  function Without<V(!new)>(c: Entries<V>, key: string): (r: Entries<V>)
    ensures |r| <= |c|
    ensures forall e :: e in r <==> e in c && e.key != key
  {
    if c == [] then []
    else
      var front, last := c[..|c| - 1], c[|c| - 1];
      if last.key == key then Without(front, key) else Without(front, key) + [last]
  }

  /** The entry is there and younger than the time to live. */
  function Get<V(!new)>(c: Entries<V>, now: Time, key: string, ttl: Time): Option<V> {
    match Find(c, key)
    case Some(e) => if now - e.at < ttl then Some(e.value) else None
    case None => None
  }

  function Put<V(!new)>(c: Entries<V>, now: Time, key: string, value: V, maxSize: nat): Entries<V>
    requires maxSize >= 1
  {
    var e := Entry(key, now, value);
    if Find(c, key).Some? then Without(c, key) + [e]
    else if |c| >= maxSize then c[1..] + [e]
    else c + [e]
  }

  class Cache<V(!new)> {
    var entries: Entries<V>

    constructor ()
      ensures entries == []
    {
      entries := [];
    }

    method CacheGet(now: Time, key: string, ttl: Time) returns (hit: Option<V>)
      ensures hit == Get(entries, now, key, ttl)
    {
      var found := Find(entries, key);
      if found.Some? && now - found.value.at < ttl {
        return Some(found.value.value);
      }
      return None;
    }

    method CachePut(now: Time, key: string, value: V, maxSize: nat)
      requires maxSize >= 1
      modifies this
      ensures entries == Put(old(entries), now, key, value, maxSize)
    {
      if Find(entries, key).Some? {
        entries := Without(entries, key);
      } else if |entries| >= maxSize {
        entries := entries[1..];
      }
      entries := entries + [Entry(key, now, value)];
    }
  }

  // ----- Runs -----

  /** The cache after a history of puts. */
  function After<V(!new)>(puts: Entries<V>, maxSize: nat): Entries<V>
    requires maxSize >= 1
  {
    if puts == [] then []
    else
      var p := puts[|puts| - 1];
      Put(After(puts[..|puts| - 1], maxSize), p.at, p.key, p.value, maxSize)
  }

  /** Each key's latest put, in the order of these latest puts. */
  function Latest<V(!new)>(puts: Entries<V>): Entries<V> {
    if puts == [] then []
    else
      var p := puts[|puts| - 1];
      Without(Latest(puts[..|puts| - 1]), p.key) + [p]
  }

  function LastN<V(!new)>(c: Entries<V>, n: nat): Entries<V> {
    if |c| <= n then c else c[|c| - n..]
  }

  ghost predicate DistinctKeys<V(!new)>(c: Entries<V>) {
    forall i, j :: 0 <= i < j < |c| ==> c[i].key != c[j].key
  }

  lemma {:induction false} WithoutAbsent<V(!new)>(c: Entries<V>, key: string)
    requires forall e :: e in c ==> e.key != key
    ensures Without(c, key) == c
  {
    if c != [] {
      var front, last := c[..|c| - 1], c[|c| - 1];
      assert c == front + [last];
      assert last in c;
      WithoutAbsent(front, key);
    }
  }

  lemma {:induction false} WithoutConcat<V(!new)>(a: Entries<V>, b: Entries<V>, key: string)
    ensures Without(a + b, key) == Without(a, key) + Without(b, key)
  {
    if b == [] {
      assert a + b == a;
    } else {
      var front, last := b[..|b| - 1], b[|b| - 1];
      WithoutConcat(a, front, key);
      assert (a + b)[..|a + b| - 1] == a + front;
    }
  }

  lemma {:induction false} FindMeans<V(!new)>(c: Entries<V>, key: string)
    ensures match Find(c, key)
            case None => forall e :: e in c ==> e.key != key
            case Some(e) => e in c && e.key == key
  {
    if c != [] {
      FindMeans(c[..|c| - 1], key);
    }
  }

  lemma DistinctAppend<V(!new)>(c: Entries<V>, p: Entry<V>)
    requires DistinctKeys(c) && forall e :: e in c ==> e.key != p.key
    ensures DistinctKeys(c + [p])
  {
  }

  lemma {:induction false} WithoutDistinct<V(!new)>(c: Entries<V>, key: string)
    requires DistinctKeys(c)
    ensures DistinctKeys(Without(c, key))
  {
    if c != [] {
      var front, last := c[..|c| - 1], c[|c| - 1];
      WithoutDistinct(front, key);
      forall e | e in Without(front, key) ensures e.key != last.key {
        var i :| 0 <= i < |front| && front[i] == e;
        assert c[i] == e;
      }
      DistinctAppend(Without(front, key), last);
    }
  }

  lemma {:induction false} LatestDistinct<V(!new)>(puts: Entries<V>)
    ensures DistinctKeys(Latest(puts))
  {
    if puts != [] {
      var front, p := puts[..|puts| - 1], puts[|puts| - 1];
      LatestDistinct(front);
      WithoutDistinct(Latest(front), p.key);
      DistinctAppend(Without(Latest(front), p.key), p);
    }
  }

  /** With distinct keys, taking a present key out shortens by one; an absent one changes nothing. */
  lemma {:induction false} WithoutLength<V(!new)>(c: Entries<V>, key: string)
    requires DistinctKeys(c)
    ensures |Without(c, key)| == if Find(c, key).Some? then |c| - 1 else |c|
  {
    if c != [] {
      var front, last := c[..|c| - 1], c[|c| - 1];
      if last.key == key {
        WithoutAbsent(front, key);
      } else {
        WithoutLength(front, key);
      }
    }
  }

  lemma LastNOf<V(!new)>(lead: Entries<V>, tail: Entries<V>, n: nat)
    requires |tail| >= n || lead == []
    ensures LastN(lead + tail, n) == LastN(tail, n)
  {
    if lead == [] {
      assert lead + tail == tail;
    } else {
      assert (lead + tail)[|lead + tail| - n..] == tail[|tail| - n..];
    }
  }

  lemma KeyOnlyInEnd<V(!new)>(lead: Entries<V>, end: Entries<V>, key: string)
    requires DistinctKeys(lead + end) && Find(end, key).Some?
    ensures Without(lead + end, key) == lead + Without(end, key)
  {
    FindMeans(end, key);
    var j :| 0 <= j < |end| && end[j].key == key;
    forall e | e in lead ensures e.key != key {
      var i :| 0 <= i < |lead| && lead[i] == e;
      assert (lead + end)[i] == e && (lead + end)[|lead| + j] == end[j];
    }
    WithoutAbsent(lead, key);
    WithoutConcat(lead, end, key);
  }

  ghost predicate CutEnd<V(!new)>(lead: Entries<V>, end: Entries<V>, maxSize: nat) {
    |end| == maxSize || (lead == [] && |end| < maxSize)
  }

  lemma RefreshKeepsEnd<V(!new)>(lead: Entries<V>, end: Entries<V>, p: Entry<V>, maxSize: nat)
    requires DistinctKeys(lead + end) && DistinctKeys(end) && CutEnd(lead, end, maxSize) && Find(end, p.key).Some?
    ensures Without(end, p.key) + [p] == LastN(Without(lead + end, p.key) + [p], maxSize)
  {
    KeyOnlyInEnd(lead, end, p.key);
    WithoutLength(end, p.key);
    var tail := Without(end, p.key) + [p];
    assert lead + Without(end, p.key) + [p] == lead + tail;
    LastNOf(lead, tail, maxSize);
  }

  lemma InsertKeepsEnd<V(!new)>(lead: Entries<V>, end: Entries<V>, p: Entry<V>, maxSize: nat)
    requires CutEnd(lead, end, maxSize) && Find(end, p.key).None? && maxSize >= 1
    ensures (if |end| >= maxSize then end[1..] else end) + [p] == LastN(Without(lead + end, p.key) + [p], maxSize)
  {
    FindMeans(end, p.key);
    WithoutAbsent(end, p.key);
    WithoutConcat(lead, end, p.key);
    var rest, tail := Without(lead, p.key), end + [p];
    assert rest + end + [p] == rest + tail;
    LastNOf(rest, tail, maxSize);
    if |end| >= maxSize {
      assert tail[1..] == end[1..] + [p];
    }
  }

  lemma DistinctEnd<V(!new)>(lead: Entries<V>, end: Entries<V>)
    requires DistinctKeys(lead + end)
    ensures DistinctKeys(end)
  {
    forall i, j | 0 <= i < j < |end| ensures end[i].key != end[j].key {
      assert (lead + end)[|lead| + i] == end[i] && (lead + end)[|lead| + j] == end[j];
    }
  }

  /** One put keeps the cache the end of the list of latest puts. */
  lemma PutKeepsEnd<V(!new)>(all: Entries<V>, p: Entry<V>, maxSize: nat)
    requires DistinctKeys(all) && maxSize >= 1
    ensures Put(LastN(all, maxSize), p.at, p.key, p.value, maxSize) == LastN(Without(all, p.key) + [p], maxSize)
  {
    var end := LastN(all, maxSize);
    var lead := all[..|all| - |end|];
    assert all == lead + end;
    if Find(end, p.key).Some? {
      DistinctEnd(lead, end);
      RefreshKeepsEnd(lead, end, p, maxSize);
    } else {
      InsertKeepsEnd(lead, end, p, maxSize);
    }
  }

  /** The cache holds exactly the last `maxSize` distinct keys of the history, each with its latest put. */
  lemma {:induction false} HoldsLatest<V(!new)>(puts: Entries<V>, maxSize: nat)
    requires maxSize >= 1
    ensures After(puts, maxSize) == LastN(Latest(puts), maxSize)
  {
    if puts != [] {
      var front, p := puts[..|puts| - 1], puts[|puts| - 1];
      HoldsLatest(front, maxSize);
      LatestDistinct(front);
      PutKeepsEnd(Latest(front), p, maxSize);
    }
  }

  /** So it never exceeds its size and never holds a key twice. */
  lemma WithinSize<V(!new)>(puts: Entries<V>, maxSize: nat)
    requires maxSize >= 1
    ensures |After(puts, maxSize)| <= maxSize && DistinctKeys(After(puts, maxSize))
  {
    HoldsLatest(puts, maxSize);
    LatestDistinct(puts);
  }

  // ----- Hits -----

  lemma {:induction false} FindLast<V(!new)>(c: Entries<V>, i: nat)
    requires DistinctKeys(c) && i < |c|
    ensures Find(c, c[i].key) == Some(c[i])
  {
    if i < |c| - 1 {
      FindLast(c[..|c| - 1], i);
    }
  }

  /** Each key of the history has its latest put in the list, and nothing else is in it. */
  lemma {:induction false} LatestMeans<V(!new)>(puts: Entries<V>, key: string)
    ensures match Find(Latest(puts), key)
            case None => forall e :: e in puts ==> e.key != key
            case Some(e) => Find(puts, key) == Some(e)
  {
    if puts != [] {
      var front, p := puts[..|puts| - 1], puts[|puts| - 1];
      LatestMeans(front, key);
      if key != p.key {
        FindWithout(Latest(front), p.key, key);
      }
    }
  }

  lemma {:induction false} FindWithout<V(!new)>(c: Entries<V>, gone: string, key: string)
    requires gone != key
    ensures Find(Without(c, gone), key) == Find(c, key)
  {
    if c != [] {
      FindWithout(c[..|c| - 1], gone, key);
    }
  }

  /**
   A lookup hits exactly when the key is among the last `maxSize` distinct keys put and its latest
   put is younger than the time to live, and then returns that put's value.
   */
  lemma HitsExactly<V(!new)>(puts: Entries<V>, maxSize: nat, now: Time, key: string, ttl: Time)
    requires maxSize >= 1
    ensures Find(LastN(Latest(puts), maxSize), key).Some? ==> Find(puts, key).Some?
    ensures var recent := LastN(Latest(puts), maxSize);
            Get(After(puts, maxSize), now, key, ttl)
            == if Find(recent, key).Some? && now - Find(puts, key).value.at < ttl then Some(Find(puts, key).value.value)
               else None
  {
    var recent := LastN(Latest(puts), maxSize);
    HoldsLatest(puts, maxSize);
    LatestDistinct(puts);
    LatestMeans(puts, key);
    FindMeans(recent, key);
    if Find(recent, key).Some? {
      var e := Find(recent, key).value;
      assert e in Latest(puts);
      var i :| 0 <= i < |Latest(puts)| && Latest(puts)[i] == e;
      FindLast(Latest(puts), i);
    }
  }

  // ----- The constant-time eviction -----

  ghost predicate Aged<V(!new)>(c: Entries<V>) {
    forall i, j :: 0 <= i < j < |c| ==> c[i].at <= c[j].at
  }

  /** The first of the entries with the smallest timestamp: what the linear scan evicted. */
  function OldestIndex<V(!new)>(c: Entries<V>): (i: nat)
    requires c != []
    ensures i < |c|
  {
    if |c| == 1 then 0
    else
      var i := OldestIndex(c[..|c| - 1]);
      if c[|c| - 1].at < c[i].at then |c| - 1 else i
  }

  lemma {:induction false} OldestIsFirst<V(!new)>(c: Entries<V>)
    requires c != [] && Aged(c)
    ensures OldestIndex(c) == 0
  {
    if |c| > 1 {
      OldestIsFirst(c[..|c| - 1]);
    }
  }

  lemma AgedAppend<V(!new)>(c: Entries<V>, p: Entry<V>)
    requires Aged(c) && forall e :: e in c ==> e.at <= p.at
    ensures Aged(c + [p])
  {
  }

  lemma {:induction false} WithoutAged<V(!new)>(c: Entries<V>, key: string)
    requires Aged(c)
    ensures Aged(Without(c, key))
  {
    if c != [] {
      var front, last := c[..|c| - 1], c[|c| - 1];
      WithoutAged(front, key);
      forall e | e in Without(front, key) ensures e.at <= last.at {
        var i :| 0 <= i < |front| && front[i] == e;
        assert c[i] == e;
      }
      AgedAppend(Without(front, key), last);
    }
  }

  lemma EarlierPuts<V(!new)>(puts: Entries<V>)
    requires Aged(puts) && puts != []
    ensures Aged(puts[..|puts| - 1])
    ensures forall e :: e in puts[..|puts| - 1] ==> e in puts && e.at <= puts[|puts| - 1].at
  {
  }

  lemma {:induction false} LatestAged<V(!new)>(puts: Entries<V>)
    requires Aged(puts)
    ensures Aged(Latest(puts)) && forall e :: e in Latest(puts) ==> e in puts
  {
    if puts != [] {
      var front := puts[..|puts| - 1];
      LatestAged(front);
      var p := puts[|puts| - 1];
      var kept := Without(Latest(front), p.key);
      WithoutAged(Latest(front), p.key);
      EarlierPuts(puts);
      hide Aged;
      AgedAppend(kept, p);
    }
  }

  /**
   Dropping the first entry is dropping the oldest: after any history of puts on a clock that does
   not run back, the cache is sorted by age, so the linear scan would have evicted the same entry.
   */
  lemma EvictsOldest<V(!new)>(puts: Entries<V>, maxSize: nat)
    requires maxSize >= 1 && puts != [] && Aged(puts)
    ensures After(puts, maxSize) != [] && Aged(After(puts, maxSize)) && OldestIndex(After(puts, maxSize)) == 0
  {
    HoldsLatest(puts, maxSize);
    LatestAged(puts);
    OldestIsFirst(After(puts, maxSize));
  }
}
