/**
 The IP alias table of anonymize.py: loading with repair, minting at run time, flushing.

 Every known address keeps one alias in its own subnet. An alias must never be a known address
 itself; when a new address turns out to be in use as an alias, that alias is regenerated. The
 lookup that readers use is replaced in one assignment at the end of a call.

 Addresses are dotted quads, split into the first three octets and the last; any other text
 stands for what does not parse as an address, and the empty text for a missing field.
 */
module IpAliases {
  import opened Wrappers

  datatype Addr = V4(subnet: string, octet: nat) | Text(text: string)

  const BLANK := Text("")
  const MAX_ATTEMPTS: nat := 500

  datatype Entry = Entry(original: Addr, alias: Addr)

  type Lookup = map<Addr, Addr>

  ghost function SetOf(addrs: seq<Addr>): set<Addr> {
    set x | x in addrs
  }

  /** The entry serves an alias: both fields are there. */
  predicate Filled(e: Entry) {
    e.original != BLANK && e.alias != BLANK
  }

  /** The map that the entries on disk stand for; a later entry overrides an earlier one. */
  function Derived(entries: seq<Entry>): Lookup {
    if entries == [] then map[]
    else
      var front, last := Derived(entries[..|entries| - 1]), entries[|entries| - 1];
      if Filled(last) then front[last.original := last.alias] else front
  }

  ghost predicate DistinctOriginals(entries: seq<Entry>) {
    forall i, j :: 0 <= i < j < |entries| && Filled(entries[i]) && Filled(entries[j])
              ==> entries[i].original != entries[j].original
  }

  /** No other entry that serves an alias is for the original of the `i`-th. */
  ghost predicate Unique(entries: seq<Entry>, i: nat)
    requires i < |entries|
  {
    forall j :: 0 <= j < |entries| && j != i && Filled(entries[j]) ==> entries[j].original != entries[i].original
  }

  ghost predicate DistinctAliases(entries: seq<Entry>) {
    forall i, j :: 0 <= i < j < |entries| && Filled(entries[i]) && Filled(entries[j])
              ==> entries[i].alias != entries[j].alias
  }

  /** The address is the alias of an original that parses. */
  ghost predicate AliasInUse(entries: seq<Entry>, ip: Addr) {
    exists i :: 0 <= i < |entries| && Filled(entries[i]) && entries[i].original.V4? && entries[i].alias == ip
  }

  ghost predicate SomeAliasKnown(entries: seq<Entry>, originals: set<Addr>) {
    exists ip :: ip in originals && AliasInUse(entries, ip)
  }

  /** An alias equals a known address. Only entries whose original parses are ever repaired. */
  predicate Clashing(e: Entry, originals: set<Addr>) {
    e.original.V4? && e.alias != BLANK && e.alias in originals
  }

  ghost predicate NoClash(entries: seq<Entry>, originals: set<Addr>) {
    forall e :: e in entries && e.original.V4? && e.alias != BLANK ==> e.alias !in originals
  }

  /** The warm sets cover the table: all originals are known, all quads in the table are marked used. */
  ghost predicate Covered(entries: seq<Entry>, used: set<Addr>, originals: set<Addr>) {
    && (forall e :: e in entries && e.original != BLANK ==> e.original in originals)
    && (forall o :: o in originals && o.V4? ==> o in used)
    && (forall e :: e in entries && Filled(e) && e.alias.V4? ==> e.alias in used)
  }

  /** Filled for this original, and the last such entry. */
  ghost predicate LastFor(entries: seq<Entry>, o: Addr, i: nat) {
    && i < |entries| && Filled(entries[i]) && entries[i].original == o
    && forall j :: i < j < |entries| && Filled(entries[j]) ==> entries[j].original != o
  }

  /** The map has exactly the originals of entries that serve an alias, each with that of its last entry. */
  lemma {:induction false} DerivedExactly(entries: seq<Entry>, o: Addr)
    ensures o in Derived(entries) <==> exists i: nat :: LastFor(entries, o, i)
    ensures forall i: nat :: LastFor(entries, o, i) ==> Derived(entries)[o] == entries[i].alias
  {
    if entries != [] {
      var n := |entries| - 1;
      var front := entries[..n];
      DerivedExactly(front, o);
      assert forall j :: 0 <= j < n ==> front[j] == entries[j];
      if Filled(entries[n]) && entries[n].original == o {
        assert LastFor(entries, o, n);
      } else {
        forall i: nat ensures LastFor(entries, o, i) <==> LastFor(front, o, i) {
        }
      }
    }
  }

  lemma {:induction false} DerivedAt(entries: seq<Entry>, i: nat)
    requires DistinctOriginals(entries) && i < |entries| && Filled(entries[i])
    ensures entries[i].original in Derived(entries) && Derived(entries)[entries[i].original] == entries[i].alias
  {
    var front := entries[..|entries| - 1];
    if i < |front| {
      assert front[i] == entries[i];
      DerivedAt(front, i);
    }
  }

  lemma {:induction false} DerivedOnly(entries: seq<Entry>, o: Addr)
    requires o in Derived(entries)
    ensures exists i :: 0 <= i < |entries| && Filled(entries[i]) && entries[i].original == o
                        && entries[i].alias == Derived(entries)[o]
  {
    var n := |entries| - 1;
    if Filled(entries[n]) && entries[n].original == o {
      assert entries[n].alias == Derived(entries)[o];
    } else {
      DerivedOnly(entries[..n], o);
      var i :| 0 <= i < n && Filled(entries[..n][i]) && entries[..n][i].original == o
               && entries[..n][i].alias == Derived(entries[..n])[o];
      assert entries[i] == entries[..n][i];
    }
  }

  /** Regenerating one entry's alias changes the derived map at that original and nowhere else. */
  lemma {:induction false} DerivedRepaired(entries: seq<Entry>, i: nat, alias: Addr)
    requires DistinctOriginals(entries) && i < |entries| && Filled(entries[i]) && alias != BLANK
    ensures DistinctOriginals(entries[i := entries[i].(alias := alias)])
    ensures Derived(entries[i := entries[i].(alias := alias)]) == Derived(entries)[entries[i].original := alias]
  {
    var changed := entries[i := entries[i].(alias := alias)];
    var n := |entries| - 1;
    if i < n {
      DerivedRepaired(entries[..n], i, alias);
      assert changed[..n] == entries[..n][i := entries[i].(alias := alias)];
      if Filled(entries[n]) {
        assert entries[n].original != entries[i].original;
      }
    } else {
      assert changed[..n] == entries[..n];
    }
  }

  lemma DerivedAppended(entries: seq<Entry>, e: Entry)
    requires DistinctOriginals(entries) && Filled(e) && e.original !in Derived(entries)
    ensures DistinctOriginals(entries + [e])
    ensures Derived(entries + [e]) == Derived(entries)[e.original := e.alias]
  {
    forall i | 0 <= i < |entries| && Filled(entries[i]) ensures entries[i].original != e.original {
      DerivedAt(entries, i);
    }
    assert (entries + [e])[..|entries|] == entries;
  }

  /** A minted alias: a quad in the original's subnet that was in no use before. */
  predicate MintedFor(alias: Addr, original: Addr, used: set<Addr>) {
    alias.V4? && original.V4? && alias.subnet == original.subnet && 10 <= alias.octet <= 250 && alias !in used
  }

  lemma MintedKeepsDistinct(entries: seq<Entry>, used: set<Addr>, originals: set<Addr>, i: nat, alias: Addr)
    requires Covered(entries, used, originals) && i < |entries| && entries[i].original != BLANK
    requires alias.V4? && alias !in used && DistinctAliases(entries)
    ensures DistinctAliases(entries[i := entries[i].(alias := alias)])
  {
    assert forall j :: 0 <= j < |entries| && Filled(entries[j]) ==> entries[j] in entries && entries[j].alias != alias;
  }

  /**
   The effect of repairing for a set of addresses: exactly the parseable entries whose alias is one
   of them get a newly minted alias, and nothing else changes.
   */
  ghost predicate Repaired(before: seq<Entry>, after: seq<Entry>, news: set<Addr>, used: set<Addr>) {
    && |after| == |before|
    && forall i :: 0 <= i < |before| ==>
         && after[i].original == before[i].original
         && (if before[i].original.V4? && before[i].alias in news
             then MintedFor(after[i].alias, before[i].original, used)
             else after[i].alias == before[i].alias)
  }

  /** Only originals of entries that used `ip` as their alias have gained or changed a lookup value. */
  ghost predicate LookTouched(e0: seq<Entry>, ip: Addr, look0: Lookup, look: Lookup) {
    && look0.Keys <= look.Keys
    && forall o :: o in look && (o !in look0 || look[o] != look0[o])
              ==> exists j :: 0 <= j < |e0| && e0[j].original == o && e0[j].alias == ip
  }

  /** The entries stay distinct and the lookup stays the one they stand for, where they were. */
  ghost predicate KeepsShape(e0: seq<Entry>, look0: Lookup, e: seq<Entry>, look: Lookup) {
    && (DistinctAliases(e0) ==> DistinctAliases(e))
    && (DistinctOriginals(e0) && look0 == Derived(e0) ==> DistinctOriginals(e) && look == Derived(e))
  }

  ghost predicate RepairedPrefix(n: nat, e0: seq<Entry>, e: seq<Entry>, ip: Addr, used: set<Addr>)
    requires n <= |e| == |e0|
  {
    forall i :: 0 <= i < |e| ==>
      && e[i].original == e0[i].original
      && (if i < n && e0[i].original.V4? && e0[i].alias == ip then MintedFor(e[i].alias, e0[i].original, used)
          else e[i].alias == e0[i].alias)
  }

  /**
   The lookup follows the entries, where one entry is for an original: for the parseable entries whose alias
   was one of `news`, up to the `n`-th, it serves the alias they have now; for all others what it served.
   */
  ghost predicate ServedUpTo(n: nat, e0: seq<Entry>, e: seq<Entry>, news: set<Addr>, look0: Lookup, look: Lookup)
    requires |e| == |e0|
  {
    forall i :: 0 <= i < |e0| && Filled(e0[i]) && Unique(e0, i) ==>
      if i < n && e0[i].original.V4? && e0[i].alias in news
      then e0[i].original in look && look[e0[i].original] == e[i].alias
      else e0[i].original in look0 ==> e0[i].original in look && look[e0[i].original] == look0[e0[i].original]
  }

  ghost predicate Served(e0: seq<Entry>, e: seq<Entry>, news: set<Addr>, look0: Lookup, look: Lookup) {
    |e| == |e0| && ServedUpTo(|e0|, e0, e, news, look0, look)
  }

  lemma ServedGrows(n: nat, e0: seq<Entry>, e: seq<Entry>, ip: Addr, look0: Lookup, look: Lookup, alias: Addr)
    requires n < |e| == |e0| && ServedUpTo(n, e0, e, {ip}, look0, look)
    requires e0[n].original == e[n].original && e0[n].alias == ip && Filled(e0[n]) && e0[n].original.V4?
    ensures ServedUpTo(n + 1, e0, e[n := e[n].(alias := alias)], {ip}, look0, look[e[n].original := alias])
  {
    var e', look' := e[n := e[n].(alias := alias)], look[e[n].original := alias];
    forall i | 0 <= i < |e0| && Filled(e0[i]) && Unique(e0, i)
      ensures if i < n + 1 && e0[i].original.V4? && e0[i].alias in {ip}
              then e0[i].original in look' && look'[e0[i].original] == e'[i].alias
              else e0[i].original in look0 ==> e0[i].original in look' && look'[e0[i].original] == look0[e0[i].original]
    {
      assert i != n ==> e0[i].original != e0[n].original && e'[i] == e[i];
    }
  }

  /** Repairing for `ip` has handled the first `n` entries of `e0` and left the others alone. */
  ghost predicate RepairUpTo(n: nat, e0: seq<Entry>, e: seq<Entry>, ip: Addr, used0: set<Addr>, used: set<Addr>,
                             originals: set<Addr>, look0: Lookup, look: Lookup) {
    && n <= |e| == |e0| && used0 <= used && Covered(e, used, originals)
    && RepairedPrefix(n, e0, e, ip, used0)
    && KeepsShape(e0, look0, e, look)
    && LookTouched(e0, ip, look0, look)
    && ServedUpTo(n, e0, e, {ip}, look0, look)
  }

  /** Repairing for `ip` has handled all entries. */
  ghost predicate RepairDone(e0: seq<Entry>, e: seq<Entry>, ip: Addr, used0: set<Addr>, used: set<Addr>,
                             originals: set<Addr>, look0: Lookup, look: Lookup) {
    && used0 <= used && Covered(e, used, originals) && Repaired(e0, e, {ip}, used0)
    && KeepsShape(e0, look0, e, look)
    && LookTouched(e0, ip, look0, look)
    && Served(e0, e, {ip}, look0, look)
  }

  lemma RepairFinishes(e0: seq<Entry>, e: seq<Entry>, ip: Addr, used0: set<Addr>, used: set<Addr>,
                       originals: set<Addr>, look0: Lookup, look: Lookup)
    requires RepairUpTo(|e|, e0, e, ip, used0, used, originals, look0, look)
    ensures RepairDone(e0, e, ip, used0, used, originals, look0, look)
  {
  }

  lemma RepairSkips(n: nat, e0: seq<Entry>, e: seq<Entry>, ip: Addr, used0: set<Addr>, used: set<Addr>,
                    originals: set<Addr>, look0: Lookup, look: Lookup)
    requires RepairUpTo(n, e0, e, ip, used0, used, originals, look0, look) && n < |e|
    requires !(e[n].alias == ip && e[n].original.V4?)
    ensures RepairUpTo(n + 1, e0, e, ip, used0, used, originals, look0, look)
  {
  }

  /** The entry at which repairing for `ip` stopped used it all along. */
  lemma RepairStuck(n: nat, e0: seq<Entry>, e: seq<Entry>, ip: Addr, used0: set<Addr>, used: set<Addr>,
                    originals: set<Addr>, look0: Lookup, look: Lookup)
    requires RepairUpTo(n, e0, e, ip, used0, used, originals, look0, look) && n < |e| && ip != BLANK
    requires e[n].alias == ip && e[n].original.V4?
    ensures AliasInUse(e0, ip)
  {
    assert e0[n].alias == ip;
  }

  lemma RepairedPrefixGrows(n: nat, e0: seq<Entry>, e: seq<Entry>, ip: Addr, used0: set<Addr>, alias: Addr)
    requires n < |e| == |e0| && RepairedPrefix(n, e0, e, ip, used0)
    requires e[n].alias == ip && MintedFor(alias, e[n].original, used0)
    ensures e0[n] == e[n]
    ensures RepairedPrefix(n + 1, e0, e[n := e[n].(alias := alias)], ip, used0)
  {
  }

  lemma ShapeTransitive(e0: seq<Entry>, look0: Lookup, e1: seq<Entry>, look1: Lookup, e2: seq<Entry>, look2: Lookup)
    requires KeepsShape(e0, look0, e1, look1) && KeepsShape(e1, look1, e2, look2)
    ensures KeepsShape(e0, look0, e2, look2)
  {
  }

  lemma TouchedGrows(n: nat, e0: seq<Entry>, ip: Addr, look0: Lookup, look: Lookup, alias: Addr)
    requires n < |e0| && e0[n].alias == ip && LookTouched(e0, ip, look0, look)
    ensures LookTouched(e0, ip, look0, look[e0[n].original := alias])
  {
  }

  lemma RepairMints(n: nat, e0: seq<Entry>, e: seq<Entry>, ip: Addr, used0: set<Addr>, used: set<Addr>,
                    originals: set<Addr>, look0: Lookup, look: Lookup, alias: Addr)
    requires RepairUpTo(n, e0, e, ip, used0, used, originals, look0, look) && n < |e| && ip != BLANK
    requires e[n].alias == ip && e[n].original.V4? && MintedFor(alias, e[n].original, used)
    ensures RepairUpTo(n + 1, e0, e[n := e[n].(alias := alias)], ip, used0, used + {alias}, originals, look0,
                       look[e[n].original := alias])
  {
    RepairedPrefixGrows(n, e0, e, ip, used0, alias);
    hide RepairedPrefix, Covered, KeepsShape, ServedUpTo, LookTouched;
    TouchedGrows(n, e0, ip, look0, look, alias);
    ServedGrows(n, e0, e, ip, look0, look, alias);
    RepairedCovers(e, used, originals, n, alias);
    RepairedShape(e, look, used, originals, n, alias);
    ShapeTransitive(e0, look0, e, look, e[n := e[n].(alias := alias)], look[e[n].original := alias]);
  }

  /** One snapshot of the table's contents during a call. */
  datatype Contents = Contents(entries: seq<Entry>, look: Lookup, used: set<Addr>, originals: set<Addr>)

  ghost predicate Synced(t: Contents) {
    DistinctOriginals(t.entries) && t.look == Derived(t.entries)
  }

  ghost predicate InOrder(t: Contents) {
    Covered(t.entries, t.used, t.originals) && NoClash(t.entries, t.originals) && Synced(t)
  }

  /** A lookup value changes only for an original some entry of which uses one of `news` as its alias. */
  ghost predicate OnlyVictims(entries: seq<Entry>, news: set<Addr>, before: Lookup, after: Lookup) {
    forall o :: o in before && o in after && after[o] != before[o]
           ==> exists j :: 0 <= j < |entries| && entries[j].original == o && entries[j].alias in news
  }

  /**
   Whatever became of a call: an entry's alias changed, if at
   all, because it is one of `news`, and to a minted one.
   */
  ghost predicate Patched(before: seq<Entry>, after: seq<Entry>, news: set<Addr>, used: set<Addr>) {
    && |after| == |before|
    && forall i :: 0 <= i < |before| ==>
         && after[i].original == before[i].original
         && (after[i].alias == before[i].alias
             || (before[i].alias in news && MintedFor(after[i].alias, before[i].original, used)))
  }

  lemma PatchedOnce(n: nat, e0: seq<Entry>, e: seq<Entry>, ip: Addr, used0: set<Addr>, used: set<Addr>,
                    originals: set<Addr>, look0: Lookup, look: Lookup)
    requires RepairUpTo(n, e0, e, ip, used0, used, originals, look0, look)
    ensures Patched(e0, e, {ip}, used0)
  {
  }

  lemma PatchedTwice(e0: seq<Entry>, e: seq<Entry>, e': seq<Entry>, news: set<Addr>, ip: Addr, used0: set<Addr>,
                     used: set<Addr>)
    requires Patched(e0, e, news, used0) && Patched(e, e', {ip}, used) && used0 <= used && ip in news
    ensures Patched(e0, e', news, used0)
  {
  }

  /** The dirty flag has come up exactly if the entries have changed. */
  ghost predicate Noted(was: bool, dirty: bool, e0: seq<Entry>, e: seq<Entry>) {
    dirty == (was || e != e0)
  }

  lemma NotedSame(dirty: bool, e: seq<Entry>)
    ensures Noted(dirty, dirty, e, e)
  {
  }

  /** A regenerated alias never becomes again what it was. */
  lemma ChangeStays(e0: seq<Entry>, e1: seq<Entry>, e: seq<Entry>, news: set<Addr>, ip: Addr, used0: set<Addr>,
                    used: set<Addr>, originals: set<Addr>)
    requires Covered(e0, used0, originals) && Patched(e0, e1, news, used0) && Patched(e1, e, {ip}, used)
    requires used0 <= used && e1 != e0
    ensures e != e0
  {
    var i :| 0 <= i < |e0| && e1[i] != e0[i];
    assert e0[i] in e0;
    assert e[i] != e0[i];
  }

  lemma NotedOn(was: bool, mid: bool, dirty: bool, e0: seq<Entry>, e1: seq<Entry>, e: seq<Entry>, news: set<Addr>,
                ip: Addr, used0: set<Addr>, used: set<Addr>, originals: set<Addr>)
    requires Noted(was, mid, e0, e1) && Noted(mid, dirty, e1, e) && Covered(e0, used0, originals)
    requires Patched(e0, e1, news, used0) && Patched(e1, e, {ip}, used) && used0 <= used
    ensures Noted(was, dirty, e0, e)
  {
    hide Covered, Patched;
    if e1 != e0 {
      ChangeStays(e0, e1, e, news, ip, used0, used, originals);
    }
  }

  lemma NotedUp(was: bool, e0: seq<Entry>, e: seq<Entry>)
    requires e != e0
    ensures Noted(was, true, e0, e)
  {
  }

  lemma PatchedEntry(e: seq<Entry>, n: nat, ip: Addr, used: set<Addr>, alias: Addr)
    requires n < |e| && e[n].alias == ip && MintedFor(alias, e[n].original, used) && (ip.V4? ==> ip in used)
    ensures var e' := e[n := e[n].(alias := alias)]; Patched(e, e', {ip}, used) && e' != e
  {
    assert e[n := e[n].(alias := alias)][n] != e[n];
  }

  lemma PatchedDistinct(e0: seq<Entry>, e: seq<Entry>, news: set<Addr>, used: set<Addr>)
    requires Patched(e0, e, news, used) && BLANK !in news && DistinctOriginals(e0)
    ensures DistinctOriginals(e)
  {
    assert forall i :: 0 <= i < |e| && Filled(e[i]) ==> Filled(e0[i]);
  }

  lemma ServedTwice(e0: seq<Entry>, e: seq<Entry>, e': seq<Entry>, news: set<Addr>, ip: Addr,
                    used0: set<Addr>, used: set<Addr>, look0: Lookup, look: Lookup, look': Lookup)
    requires BLANK !in news && ip != BLANK && Repaired(e0, e, news, used0) && Repaired(e, e', {ip}, used)
    requires Served(e0, e, news, look0, look) && Served(e, e', {ip}, look, look')
    ensures Served(e0, e', news + {ip}, look0, look')
  {
    forall i | 0 <= i < |e0| && Filled(e0[i]) && Unique(e0, i)
      ensures if e0[i].original.V4? && e0[i].alias in news + {ip}
              then e0[i].original in look' && look'[e0[i].original] == e'[i].alias
              else e0[i].original in look0 ==> e0[i].original in look' && look'[e0[i].original] == look0[e0[i].original]
    {
      assert Filled(e[i]);
      assert Unique(e, i) by {
        assert forall j :: 0 <= j < |e| && Filled(e[j]) ==> Filled(e0[j]);
      }
    }
  }

  /** Only originals of the entries have been added to the lookup. */
  ghost predicate OnlyKnown(entries: seq<Entry>, before: Lookup, after: Lookup) {
    forall o :: o in after && o !in before ==> exists j :: 0 <= j < |entries| && entries[j].original == o
  }

  lemma KnownGrow(e0: seq<Entry>, e: seq<Entry>, news: set<Addr>, used: set<Addr>, ip: Addr,
                  look0: Lookup, look: Lookup, look': Lookup)
    requires OnlyKnown(e0, look0, look) && Repaired(e0, e, news, used) && LookTouched(e, ip, look, look')
    ensures OnlyKnown(e0, look0, look')
  {
    forall o | o in look' && o !in look0 ensures exists j :: 0 <= j < |e0| && e0[j].original == o {
      if o !in look {
        var j :| 0 <= j < |e| && e[j].original == o && e[j].alias == ip;
        assert e0[j].original == o;
      }
    }
  }

  /** From `t0` to `t` the addresses `news` have become known and what clashed with them is repaired. */
  ghost predicate Seeded(news: set<Addr>, t0: Contents, t: Contents) {
    && t0.used <= t.used && t.originals == t0.originals + news
    && Covered(t.entries, t.used, t.originals)
    && Repaired(t0.entries, t.entries, news, t0.used)
    && (NoClash(t0.entries, t0.originals) ==> NoClash(t.entries, t.originals))
    && t0.look.Keys <= t.look.Keys
    && OnlyVictims(t0.entries, news, t0.look, t.look)
    && OnlyKnown(t0.entries, t0.look, t.look) && BLANK !in news
    && Served(t0.entries, t.entries, news, t0.look, t.look)
  }

  lemma VictimsGrow(e0: seq<Entry>, e: seq<Entry>, news: set<Addr>, ip: Addr, used: set<Addr>,
                    look0: Lookup, look: Lookup, look': Lookup)
    requires OnlyVictims(e0, news, look0, look) && Repaired(e0, e, news, used) && LookTouched(e, ip, look, look')
    requires look0.Keys <= look.Keys
    ensures OnlyVictims(e0, news + {ip}, look0, look')
  {
    forall o | o in look0 && o in look' && look'[o] != look0[o]
      ensures exists j :: 0 <= j < |e0| && e0[j].original == o && e0[j].alias in news + {ip}
    {
      if look[o] != look0[o] {
        var j :| 0 <= j < |e0| && e0[j].original == o && e0[j].alias in news;
        assert e0[j].alias in news + {ip};
      } else {
        var j :| 0 <= j < |e| && e[j].original == o && e[j].alias == ip;
        assert e0[j].alias in news + {ip};
      }
    }
  }

  lemma RepairedTwice(e0: seq<Entry>, e: seq<Entry>, e': seq<Entry>, news: set<Addr>, ip: Addr, used0: set<Addr>,
                      used: set<Addr>)
    requires Repaired(e0, e, news, used0) && Repaired(e, e', {ip}, used) && used0 <= used
    ensures Repaired(e0, e', news + {ip}, used0)
  {
  }

  lemma NoClashAfterRepair(e: seq<Entry>, e': seq<Entry>, ip: Addr, used: set<Addr>, originals: set<Addr>)
    requires NoClash(e, originals) && Repaired(e, e', {ip}, used)
    requires forall o :: o in originals + {ip} && o.V4? ==> o in used
    ensures NoClash(e', originals + {ip})
  {
    forall x | x in e' ensures !Clashing(x, originals + {ip}) {
      var i :| 0 <= i < |e'| && e'[i] == x;
      assert e[i] in e;
    }
  }

  /** An alias that is in use after seeding was in use before, or one of the seeded addresses was. */
  lemma SeedStuck(news: set<Addr>, t0: Contents, t: Contents, ip: Addr, originals: set<Addr>)
    requires Seeded(news, t0, t) && AliasInUse(t.entries, ip) && t.originals + {ip} <= originals
    ensures SomeAliasKnown(t0.entries, originals)
  {
    var i :| 0 <= i < |t.entries| && Filled(t.entries[i]) && t.entries[i].original.V4? && t.entries[i].alias == ip;
    var before := t0.entries[i].alias;
    assert before == ip || before in news;
    assert AliasInUse(t0.entries, before);
  }

  lemma SeedServes(news: set<Addr>, t0: Contents, t: Contents, ip: Addr, used: set<Addr>, t': Contents)
    requires Seeded(news, t0, t) && ip != BLANK
    requires Repaired(t.entries, t'.entries, {ip}, used) && LookTouched(t.entries, ip, t.look, t'.look)
    requires Served(t.entries, t'.entries, {ip}, t.look, t'.look)
    ensures OnlyKnown(t0.entries, t0.look, t'.look)
    ensures Served(t0.entries, t'.entries, news + {ip}, t0.look, t'.look)
  {
    hide Served, OnlyKnown, OnlyVictims, DistinctOriginals, Covered, NoClash, LookTouched, Repaired;
    KnownGrow(t0.entries, t.entries, news, t0.used, ip, t0.look, t.look, t'.look);
    ServedTwice(t0.entries, t.entries, t'.entries, news, ip, t0.used, used, t0.look, t.look, t'.look);
  }

  lemma SeedStep(news: set<Addr>, t0: Contents, t: Contents, ip: Addr, used: set<Addr>, t': Contents)
    requires Seeded(news, t0, t) && ip != BLANK
    requires used == t.used + (if ip.V4? then {ip} else {}) && t'.originals == t.originals + {ip}
    requires used <= t'.used && Covered(t'.entries, t'.used, t'.originals)
    requires Repaired(t.entries, t'.entries, {ip}, used) && LookTouched(t.entries, ip, t.look, t'.look)
    requires Served(t.entries, t'.entries, {ip}, t.look, t'.look)
    ensures Seeded(news + {ip}, t0, t')
  {
    hide Served, OnlyKnown, DistinctOriginals;
    SeedServes(news, t0, t, ip, used, t');
    RepairedTwice(t0.entries, t.entries, t'.entries, news, ip, t0.used, used);
    if NoClash(t.entries, t.originals) {
      NoClashAfterRepair(t.entries, t'.entries, ip, used, t.originals);
    }
    VictimsGrow(t0.entries, t.entries, news, ip, t0.used, t0.look, t.look, t'.look);
  }

  /** The first `n` missing addresses have been made known, or were found to have a value by then. */
  ghost predicate SeededUpTo(n: nat, missing: seq<Addr>, news: set<Addr>, t0: Contents, t: Contents) {
    && Seeded(news, t0, t) && KeepsShape(t0.entries, t0.look, t.entries, t.look)
    && (forall ip :: ip in news ==> ip in missing)
    && (forall i :: 0 <= i < n && i < |missing| ==> missing[i] in news || missing[i] in t.look)
  }

  /** That, with what also holds if seeding then ends in the error. */
  ghost predicate Seeding(n: nat, missing: seq<Addr>, news: set<Addr>, t0: Contents, t: Contents) {
    && SeededUpTo(n, missing, news, t0, t)
    && Patched(t0.entries, t.entries, SetOf(missing), t0.used)
    && (n == 0 ==> t.look == t0.look)
    && (0 < n <= |missing| && missing[0] !in t0.look ==> missing[0] in news)
  }

  lemma SeedingStarts(missing: seq<Addr>, t0: Contents)
    requires Covered(t0.entries, t0.used, t0.originals)
    ensures Seeding(0, missing, {}, t0, t0)
  {
  }

  lemma SeedingNext(n: nat, missing: seq<Addr>, news: set<Addr>, t0: Contents, t: Contents, t': Contents)
    requires Seeding(n, missing, news, t0, t) && n < |missing|
    requires Seeded(news + {missing[n]}, t0, t') && t.look.Keys <= t'.look.Keys
    requires KeepsShape(t.entries, t.look, t'.entries, t'.look)
    requires Patched(t0.entries, t'.entries, SetOf(missing), t0.used)
    ensures Seeding(n + 1, missing, news + {missing[n]}, t0, t')
  {
    hide Seeded, Patched;
  }

  lemma SeedingSeeded(n: nat, missing: seq<Addr>, news: set<Addr>, t0: Contents, t: Contents)
    requires Seeding(n, missing, news, t0, t)
    ensures Seeded(news, t0, t) && Patched(t0.entries, t.entries, SetOf(missing), t0.used) && t0.used <= t.used
    ensures 0 < n <= |missing| && missing[0] !in t0.look ==> missing[0] in t.originals
    ensures n == 0 ==> t.look == t0.look
  {
  }

  lemma SeedingSkip(n: nat, missing: seq<Addr>, news: set<Addr>, t0: Contents, t: Contents)
    requires Seeding(n, missing, news, t0, t) && n < |missing| && missing[n] in t.look
    ensures Seeding(n + 1, missing, news, t0, t)
  {
    hide Seeded, Patched, KeepsShape;
  }

  lemma SeedingPatches(n: nat, missing: seq<Addr>, news: set<Addr>, t0: Contents, t: Contents, t': Contents)
    requires Seeding(n, missing, news, t0, t) && n < |missing|
    requires Patched(t.entries, t'.entries, {missing[n]}, t.used)
    requires t.originals + {missing[n]} == t'.originals && t.used <= t'.used
    ensures Patched(t0.entries, t'.entries, SetOf(missing), t0.used)
    ensures t0.used <= t'.used && t0.originals <= t'.originals <= t0.originals + SetOf(missing)
  {
    PatchedTwice(t0.entries, t.entries, t'.entries, SetOf(missing), missing[n], t0.used, t.used);
  }

  lemma SeedingEnds(missing: seq<Addr>, news: set<Addr>, t0: Contents, t: Contents)
    requires Seeding(|missing|, missing, news, t0, t)
    ensures SeededUpTo(|missing|, missing, news, t0, t) && Covered(t.entries, t.used, t.originals)
    ensures Patched(t0.entries, t.entries, SetOf(missing), t0.used)
    ensures t0.used <= t.used && t0.originals <= t.originals <= t0.originals + SetOf(missing)
    ensures missing != [] && missing[0] !in t0.look ==> missing[0] in news && missing[0] in t.originals
  {
    hide Patched, KeepsShape, Covered;
  }

  /** From `t1` to `t` entries with minted aliases have been appended. */
  ghost predicate MintedEntries(t1: Contents, t: Contents) {
    && t1.used <= t.used && t.originals == t1.originals
    && Covered(t.entries, t.used, t.originals)
    && (NoClash(t1.entries, t1.originals) ==> NoClash(t.entries, t.originals))
    && (DistinctAliases(t1.entries) ==> DistinctAliases(t.entries))
    && (Synced(t1) ==> Synced(t))
    && t1.look.Keys <= t.look.Keys && Appended(t1.entries, t.entries, t1.look)
  }

  lemma MintedNone(t: Contents)
    requires Covered(t.entries, t.used, t.originals)
    ensures MintedEntries(t, t)
  {
  }

  lemma MintedSound(t1: Contents, t: Contents)
    requires MintedEntries(t1, t)
    ensures t1.used <= t.used && t.originals == t1.originals && Covered(t.entries, t.used, t.originals)
  {
  }

  /** Entries for addresses that had no value have been appended. */
  ghost predicate Appended(e0: seq<Entry>, e: seq<Entry>, look0: Lookup) {
    e0 <= e && forall i :: |e0| <= i < |e| ==> Filled(e[i]) && e[i].original !in look0
  }

  /** Every address of `done` that parses has got a value, and only addresses of `missing` have. */
  ghost predicate MintedLook(missing: set<Addr>, done: set<Addr>, t1: Contents, t: Contents) {
    && t.look.Keys == t1.look.Keys + (set x | x in done && x.V4?)
    && (forall o :: o in t1.look ==> t.look[o] == t1.look[o])
    && (forall o :: o in t.look && o !in t1.look ==> o in missing && MintedFor(t.look[o], o, t1.used))
  }

  lemma AppendedOne(e0: seq<Entry>, e: seq<Entry>, look0: Lookup, x: Entry)
    requires Appended(e0, e, look0) && Filled(x) && x.original !in look0
    ensures Appended(e0, e + [x], look0)
  {
  }

  lemma MintedAppended(entries: seq<Entry>, e: Entry, used: set<Addr>, originals: set<Addr>)
    requires Covered(entries, used, originals) && e.original in originals && MintedFor(e.alias, e.original, used)
    ensures Covered(entries + [e], used + {e.alias}, originals)
    ensures NoClash(entries, originals) ==> NoClash(entries + [e], originals)
    ensures DistinctAliases(entries) ==> DistinctAliases(entries + [e])
  {
    assert forall x :: x in entries + [e] <==> x in entries || x == e;
    assert forall j :: 0 <= j < |entries| && Filled(entries[j]) ==> entries[j] in entries;
  }

  lemma MintEntry(t1: Contents, t: Contents, ip: Addr, alias: Addr)
    requires MintedEntries(t1, t) && ip.V4? && ip !in t.look && ip in t.originals && MintedFor(alias, ip, t.used)
    ensures MintedEntries(t1, Contents(t.entries + [Entry(ip, alias)], t.look[ip := alias], t.used + {alias},
                                       t.originals))
  {
    var e := Entry(ip, alias);
    AppendedOne(t1.entries, t.entries, t1.look, e);
    MintedAppended(t.entries, e, t.used, t.originals);
    hide Appended, Covered, NoClash, DistinctAliases;
    if Synced(t) {
      DerivedAppended(t.entries, e);
    }
  }

  lemma MintLook(missing: set<Addr>, done: set<Addr>, t1: Contents, t: Contents, t': Contents, ip: Addr, alias: Addr)
    requires MintedLook(missing, done, t1, t) && ip in missing && ip.V4? && ip !in t.look
    requires MintedFor(alias, ip, t1.used) && t'.look == t.look[ip := alias]
    ensures MintedLook(missing, done + {ip}, t1, t')
  {
    assert (set x | x in done + {ip} && x.V4?) == (set x | x in done && x.V4?) + {ip};
  }

  lemma MintNothing(missing: set<Addr>, done: set<Addr>, t1: Contents, t: Contents, ip: Addr)
    requires MintedLook(missing, done, t1, t) && (!ip.V4? || ip in t.look)
    ensures MintedLook(missing, done + {ip}, t1, t)
  {
    assert (set x | x in done + {ip} && x.V4?) == (set x | x in done && x.V4?) + if ip.V4? then {ip} else {};
  }

  /** What repairing does to the lookup that the entries stand for. */
  lemma RepairedLookup(t0: Contents, t: Contents, news: set<Addr>)
    requires Synced(t0) && Synced(t) && Repaired(t0.entries, t.entries, news, t0.used) && BLANK !in news
    ensures t.look.Keys == t0.look.Keys
    ensures forall o :: o in t0.look ==>
              if o.V4? && t0.look[o] in news then MintedFor(t.look[o], o, t0.used) else t.look[o] == t0.look[o]
  {
    forall o | o in t0.look
      ensures o in t.look
      ensures if o.V4? && t0.look[o] in news then MintedFor(t.look[o], o, t0.used) else t.look[o] == t0.look[o]
    {
      DerivedOnly(t0.entries, o);
      var i :| 0 <= i < |t0.entries| && Filled(t0.entries[i]) && t0.entries[i].original == o
               && t0.entries[i].alias == t0.look[o];
      DerivedAt(t.entries, i);
    }
    forall o | o in t.look ensures o in t0.look {
      DerivedOnly(t.entries, o);
      var i :| 0 <= i < |t.entries| && Filled(t.entries[i]) && t.entries[i].original == o
               && t.entries[i].alias == t.look[o];
      DerivedAt(t0.entries, i);
    }
  }

  /**
   What a call does to the lookup, seen from outside: it gains exactly the new addresses that parse,
   each with a minted alias, and an old value changes exactly when it is one of the new addresses
   (and its original parses), again to a minted alias.
   */
  ghost predicate LookupGrown(targets: seq<Addr>, used: set<Addr>, before: Lookup, after: Lookup) {
    && after.Keys == before.Keys + (set t | t in targets && t.V4?)
    && (forall o :: o in before ==>
          if o.V4? && before[o] in targets && before[o] !in before
          then MintedFor(after[o], o, used) else after[o] == before[o])
    && (forall o :: o in after && o !in before ==> MintedFor(after[o], o, used))
  }

  lemma Grown(targets: seq<Addr>, missing: seq<Addr>, t0: Contents, t1: Contents, t: Contents)
    requires forall ip :: ip in missing <==> ip in targets && ip !in t0.look
    requires t1.look.Keys == t0.look.Keys && t0.used <= t1.used
    requires forall o :: o in t0.look ==>
               if o.V4? && t0.look[o] in SetOf(missing)
               then MintedFor(t1.look[o], o, t0.used) else t1.look[o] == t0.look[o]
    requires MintedLook(SetOf(missing), SetOf(missing), t1, t)
    ensures LookupGrown(targets, t0.used, t0.look, t.look)
  {
  }

  lemma GrownBySeedAndMint(targets: seq<Addr>, missing: seq<Addr>, news: set<Addr>, t0: Contents, t1: Contents,
                           t: Contents)
    requires forall ip :: ip in missing <==> ip in targets && ip !in t0.look
    requires BLANK !in targets && Synced(t0) && SeededUpTo(|missing|, missing, news, t0, t1)
    requires MintedLook(SetOf(missing), SetOf(missing), t1, t)
    ensures LookupGrown(targets, t0.used, t0.look, t.look)
  {
    RepairedLookup(t0, t1, news);
    assert news == SetOf(missing);
    Grown(targets, missing, t0, t1, t);
  }

  /** What a call can do to the entries, whether it returns normally or not: patch old ones and append new ones. */
  ghost predicate Edited(e0: seq<Entry>, e: seq<Entry>, news: set<Addr>, used: set<Addr>, look0: Lookup) {
    && |e0| <= |e| && Patched(e0, e[..|e0|], news, used)
    && forall i :: |e0| <= i < |e| ==> Filled(e[i]) && e[i].original !in look0
  }

  lemma EditedBySeeding(e0: seq<Entry>, e: seq<Entry>, missing: seq<Addr>, targets: seq<Addr>, used: set<Addr>,
                        look0: Lookup)
    requires Patched(e0, e, SetOf(missing), used) && forall ip :: ip in missing ==> ip in targets
    ensures Edited(e0, e, SetOf(targets), used, look0)
  {
    assert e[..|e0|] == e;
  }

  /** Entries that still stand for the old lookup have not been edited at all. */
  lemma EditShows(e0: seq<Entry>, e: seq<Entry>, news: set<Addr>, used: set<Addr>, originals: set<Addr>, look0: Lookup)
    requires Covered(e0, used, originals) && DistinctOriginals(e0) && look0 == Derived(e0) && BLANK !in news
    requires Edited(e0, e, news, used, look0) && DistinctOriginals(e)
    ensures Derived(e) == look0 <==> e == e0
  {
    if Derived(e) == look0 {
      forall i | 0 <= i < |e0| ensures e[i] == e0[i] {
        assert e[i] == e[..|e0|][i];
        if e[i].alias != e0[i].alias {
          DerivedAt(e0, i);
          DerivedAt(e, i);
        }
      }
      if |e| > |e0| {
        DerivedAt(e, |e0|);
      }
    }
  }

  /**
   The value served for each old entry after a normal call: the
   entry's alias if it was regenerated, else the old value.
   */
  ghost predicate Followed(e0: seq<Entry>, e: seq<Entry>, seeded: set<Addr>, used: set<Addr>, look0: Lookup,
                           look: Lookup) {
    |e0| <= |e| && Served(e0, e[..|e0|], seeded, look0, look) && Repaired(e0, e[..|e0|], seeded, used)
  }

  lemma FollowedByMinting(t0: Contents, t1: Contents, t: Contents, news: set<Addr>, missing: seq<Addr>)
    requires Seeded(news, t0, t1) && Appended(t1.entries, t.entries, t1.look)
    requires MintedLook(SetOf(missing), SetOf(missing), t1, t)
    ensures Followed(t0.entries, t.entries, news, t0.used, t0.look, t.look)
  {
    assert t.entries[..|t0.entries|] == t1.entries;
  }

  /**
   The addresses a call takes up: those it was given that had no
   value, but for some that are originals of the file already.
   */
  ghost predicate TakenUp(targets: seq<Addr>, look0: Lookup, e0: seq<Entry>, seeded: set<Addr>) {
    && (forall ip :: ip in seeded ==> ip in targets && ip !in look0)
    && (forall ip :: ip in targets && ip !in look0 ==>
          ip in seeded || exists j :: 0 <= j < |e0| && e0[j].original == ip)
    && (targets != [] && targets[0] !in look0 ==> targets[0] in seeded)
  }

  lemma SeededTakenUp(targets: seq<Addr>, missing: seq<Addr>, news: set<Addr>, t0: Contents, t1: Contents)
    requires forall ip :: ip in missing <==> ip in targets && ip !in t0.look
    requires SeededUpTo(|missing|, missing, news, t0, t1)
    requires targets != [] && targets[0] !in t0.look ==> targets[0] in news
    ensures TakenUp(targets, t0.look, t0.entries, news)
  {
    forall ip | ip in targets && ip !in t0.look
      ensures ip in news || exists j :: 0 <= j < |t0.entries| && t0.entries[j].original == ip
    {
      var i :| 0 <= i < |missing| && missing[i] == ip;
    }
  }

  /**
   What a call that returns normally has done: it took up the new addresses; a value changed only for an
   entry whose alias was one of them; what was distinct stays so; and a table in order stays in order,
   its lookup grown by exactly the new addresses.
   */
  ghost predicate Returned(targets: seq<Addr>, seeded: set<Addr>, t0: Contents, t: Contents) {
    && TakenUp(targets, t0.look, t0.entries, seeded)
    && OnlyVictims(t0.entries, SetOf(targets), t0.look, t.look) && t0.look.Keys <= t.look.Keys
    && Followed(t0.entries, t.entries, seeded, t0.used, t0.look, t.look)
    && (NoClash(t0.entries, t0.originals) ==> NoClash(t.entries, t.originals))
    && (DistinctAliases(t0.entries) ==> DistinctAliases(t.entries))
    && (InOrder(t0) ==> InOrder(t) && LookupGrown(targets, t0.used, t0.look, t.look))
  }

  /** Some original that parses is served a known address. */
  ghost predicate ServesSomeKnown(t: Contents) {
    exists o :: o in t.look && o.V4? && t.look[o] in t.originals
  }

  /** A call is asked for an address that has no value and is the alias of an original that parses. */
  ghost predicate AsksForAlias(targets: seq<Addr>, look: Lookup, entries: seq<Entry>) {
    exists ip :: ip in targets && ip !in look && AliasInUse(entries, ip)
  }

  /**
   What a call that ends in the exhaustion error has done to a table that was in order: readers see the old
   lookup; a known address is served from it exactly if the call was asked for an alias in use; and the table
   still is in order exactly if no entry was edited and none needs to be.
   */
  ghost predicate GaveUp(targets: seq<Addr>, t0: Contents, t: Contents) {
    && t.look == t0.look
    && (InOrder(t0) ==>
          && DistinctOriginals(t.entries)
          && (ServesSomeKnown(t) <==> AsksForAlias(targets, t0.look, t0.entries))
          && (InOrder(t) <==> t.entries == t0.entries && NoClash(t.entries, t.originals)))
  }

  /** A known address is served from the lookup of a table that was in order exactly if it has become known since. */
  lemma ServedKnownAliases(targets: seq<Addr>, t0: Contents, t: Contents)
    requires InOrder(t0) && t.look == t0.look
    requires forall ip :: ip in t.originals && ip !in t0.originals ==> ip in targets && ip !in t0.look
    requires AsksForAlias(targets, t0.look, t0.entries) ==> SomeAliasKnown(t0.entries, t.originals)
    ensures ServesSomeKnown(t) <==> AsksForAlias(targets, t0.look, t0.entries)
  {
    if o :| o in t.look && o.V4? && t.look[o] in t.originals {
      DerivedOnly(t0.entries, o);
      var i :| 0 <= i < |t0.entries| && Filled(t0.entries[i]) && t0.entries[i].original == o
               && t0.entries[i].alias == t0.look[o];
      assert t0.entries[i] in t0.entries && !Clashing(t0.entries[i], t0.originals);
      assert AliasInUse(t0.entries, t0.look[o]);
    }
    if SomeAliasKnown(t0.entries, t.originals) {
      var ip :| ip in t.originals && AliasInUse(t0.entries, ip);
      var i :| 0 <= i < |t0.entries| && Filled(t0.entries[i]) && t0.entries[i].original.V4?
               && t0.entries[i].alias == ip;
      DerivedAt(t0.entries, i);
      assert t.look[t0.entries[i].original] in t.originals;
    }
  }

  lemma NothingMissing(targets: seq<Addr>, t: Contents)
    requires forall ip :: ip in targets ==> ip in t.look
    ensures Edited(t.entries, t.entries, SetOf(targets), t.used, t.look) && Returned(targets, {}, t, t)
  {
    assert t.entries[..|t.entries|] == t.entries;
  }

  lemma AllKnown(missing: seq<Addr>, news: set<Addr>, t0: Contents, t1: Contents)
    requires SeededUpTo(|missing|, missing, news, t0, t1)
    ensures Covered(t1.entries, t1.used, t1.originals)
    ensures forall ip :: ip in missing ==> ip in t1.originals || ip in t1.look
  {
    forall ip | ip in missing ensures ip in t1.originals || ip in t1.look {
      var i :| 0 <= i < |missing| && missing[i] == ip;
    }
  }

  lemma MintingEdited(targets: seq<Addr>, missing: seq<Addr>, news: set<Addr>, t0: Contents, t1: Contents, t: Contents)
    requires SeededUpTo(|missing|, missing, news, t0, t1) && MintedEntries(t1, t)
    requires Edited(t0.entries, t1.entries, SetOf(targets), t0.used, t0.look)
    ensures Edited(t0.entries, t.entries, SetOf(targets), t0.used, t0.look)
    ensures Covered(t.entries, t.used, t.originals) && t0.used <= t.used && t0.originals <= t.originals
  {
    hide Covered, Patched, NoClash, Served, OnlyVictims, OnlyKnown;
    assert t.entries[..|t0.entries|] == t1.entries == t1.entries[..|t0.entries|];
  }

  lemma GivenUp(targets: seq<Addr>, t0: Contents, t: Contents)
    requires BLANK !in targets && t.look == t0.look && Covered(t.entries, t.used, t.originals)
    requires InOrder(t0) ==> DistinctOriginals(t.entries)
    requires Edited(t0.entries, t.entries, SetOf(targets), t0.used, t0.look)
    requires forall ip :: ip in t.originals && ip !in t0.originals ==> ip in targets && ip !in t0.look
    requires InOrder(t0) && AsksForAlias(targets, t0.look, t0.entries) ==> SomeAliasKnown(t0.entries, t.originals)
    ensures GaveUp(targets, t0, t)
  {
    if InOrder(t0) {
      EditShows(t0.entries, t.entries, SetOf(targets), t0.used, t0.originals, t0.look);
      ServedKnownAliases(targets, t0, t);
    }
    hide Edited, Covered, NoClash, AsksForAlias, ServesSomeKnown, SomeAliasKnown;
  }

  lemma SeedingGaveUp(targets: seq<Addr>, missing: seq<Addr>, t0: Contents, t: Contents)
    requires BLANK !in targets && (forall ip :: ip in missing <==> ip in targets && ip !in t0.look) && t.look == t0.look
    requires Covered(t.entries, t.used, t.originals) && Patched(t0.entries, t.entries, SetOf(missing), t0.used)
    requires Edited(t0.entries, t.entries, SetOf(targets), t0.used, t0.look)
    requires t.originals <= t0.originals + SetOf(missing) && SomeAliasKnown(t0.entries, t.originals)
    ensures GaveUp(targets, t0, t)
  {
    hide SomeAliasKnown, AsksForAlias;
    if InOrder(t0) {
      PatchedDistinct(t0.entries, t.entries, SetOf(missing), t0.used);
    }
    GivenUp(targets, t0, t);
  }

  /** By the time aliases are minted, every address the call was asked for is known. */
  lemma AskedIsKnown(targets: seq<Addr>, missing: seq<Addr>, news: set<Addr>, t0: Contents, t1: Contents)
    requires forall ip :: ip in missing <==> ip in targets && ip !in t0.look
    requires SeededUpTo(|missing|, missing, news, t0, t1) && InOrder(t0) && AsksForAlias(targets, t0.look, t0.entries)
    ensures SomeAliasKnown(t0.entries, t1.originals)
  {
    var ip :| ip in targets && ip !in t0.look && AliasInUse(t0.entries, ip);
    var i :| 0 <= i < |missing| && missing[i] == ip;
    RepairedLookup(t0, t1, news);
    assert ip in t1.originals;
  }

  lemma MintingGaveUp(targets: seq<Addr>, missing: seq<Addr>, news: set<Addr>, t0: Contents, t1: Contents, t: Contents,
                      seen: Contents)
    requires forall ip :: ip in missing <==> ip in targets && ip !in t0.look
    requires BLANK !in targets && SeededUpTo(|missing|, missing, news, t0, t1) && MintedEntries(t1, t)
    requires Edited(t0.entries, t.entries, SetOf(targets), t0.used, t0.look)
    requires seen == t.(look := t0.look)
    ensures GaveUp(targets, t0, seen)
  {
    hide SomeAliasKnown, AsksForAlias;
    if InOrder(t0) && AsksForAlias(targets, t0.look, t0.entries) {
      AskedIsKnown(targets, missing, news, t0, t1);
    }
    GivenUp(targets, t0, seen);
  }

  lemma CallReturned(targets: seq<Addr>, missing: seq<Addr>, news: set<Addr>, t0: Contents, t1: Contents, t: Contents)
    requires forall ip :: ip in missing <==> ip in targets && ip !in t0.look
    requires BLANK !in targets && SeededUpTo(|missing|, missing, news, t0, t1)
    requires targets != [] && targets[0] !in t0.look ==> targets[0] in news
    requires MintedEntries(t1, t) && MintedLook(SetOf(missing), SetOf(missing), t1, t)
    ensures Returned(targets, news, t0, t)
  {
    hide Covered, Repaired, NoClash, TakenUp, LookupGrown, Followed, OnlyKnown, Appended;
    SeededTakenUp(targets, missing, news, t0, t1);
    FollowedByMinting(t0, t1, t, news, missing);
    if Synced(t0) {
      GrownBySeedAndMint(targets, missing, news, t0, t1, t);
    }
  }

  function OriginalsOf(entries: seq<Entry>): set<Addr> {
    set e | e in entries && e.original != BLANK :: e.original
  }

  /** The one-time repair has handled the first `n` entries of the file. */
  ghost predicate LoadedUpTo(n: nat, t0: Contents, t: Contents) {
    && n <= |t.entries| == |t0.entries| && t0.used <= t.used && t.originals == t0.originals
    && Covered(t.entries, t.used, t.originals)
    && (forall i :: 0 <= i < |t.entries| ==>
          && t.entries[i].original == t0.entries[i].original
          && (if i < n && Clashing(t0.entries[i], t0.originals)
              then MintedFor(t.entries[i].alias, t0.entries[i].original, t0.used)
              else t.entries[i] == t0.entries[i]))
  }

  /** So far, and whether any entry has been repaired. */
  ghost predicate RepairedAll(n: nat, t0: Contents, t: Contents, changed: bool) {
    && LoadedUpTo(n, t0, t) && KeepsShape(t0.entries, t0.look, t.entries, t.look)
    && (changed <==> exists i :: 0 <= i < n && Clashing(t0.entries[i], t0.originals))
    && (!changed ==> t == t0)
  }

  lemma LoadSkips(n: nat, t0: Contents, t: Contents, changed: bool)
    requires RepairedAll(n, t0, t, changed) && n < |t.entries| && !Clashing(t.entries[n], t.originals)
    ensures RepairedAll(n + 1, t0, t, changed)
  {
  }

  lemma RepairedCovers(entries: seq<Entry>, used: set<Addr>, originals: set<Addr>, n: nat, alias: Addr)
    requires Covered(entries, used, originals) && n < |entries| && entries[n].original != BLANK
    ensures Covered(entries[n := entries[n].(alias := alias)], used + {alias}, originals)
  {
    assert entries[n] in entries;
  }

  lemma RepairedShape(entries: seq<Entry>, look: Lookup, used: set<Addr>, originals: set<Addr>, n: nat, alias: Addr)
    requires Covered(entries, used, originals) && n < |entries| && Filled(entries[n]) && alias.V4? && alias !in used
    ensures KeepsShape(entries, look, entries[n := entries[n].(alias := alias)], look[entries[n].original := alias])
  {
    if DistinctAliases(entries) {
      MintedKeepsDistinct(entries, used, originals, n, alias);
    }
    if DistinctOriginals(entries) {
      DerivedRepaired(entries, n, alias);
    }
  }

  lemma LoadRepairs(n: nat, t0: Contents, t: Contents, t': Contents, changed: bool, alias: Addr)
    requires RepairedAll(n, t0, t, changed) && n < |t.entries| && Clashing(t.entries[n], t.originals)
    requires MintedFor(alias, t.entries[n].original, t.used)
    requires t' == Contents(t.entries[n := t.entries[n].(alias := alias)], t.look[t.entries[n].original := alias],
                            t.used + {alias}, t.originals)
    ensures RepairedAll(n + 1, t0, t', true)
  {
    RepairedCovers(t.entries, t.used, t.originals, n, alias);
    RepairedShape(t.entries, t.look, t.used, t.originals, n, alias);
    assert t0.entries[n] == t.entries[n];
  }

  lemma ClashIn(entries: seq<Entry>, originals: set<Addr>)
    ensures NoClash(entries, originals) <==> !exists i :: 0 <= i < |entries| && Clashing(entries[i], originals)
  {
    if e :| e in entries && Clashing(e, originals) {
      var i :| 0 <= i < |entries| && entries[i] == e;
    }
  }

  lemma LoadedClean(t0: Contents, t: Contents)
    requires LoadedUpTo(|t.entries|, t0, t) && Covered(t0.entries, t0.used, t0.originals) && BLANK !in t0.originals
    ensures NoClash(t.entries, t.originals)
    ensures Repaired(t0.entries, t.entries, t0.originals, {})
  {
    ClashIn(t.entries, t.originals);
  }

  /** What loading makes of a file: exactly the clashing aliases are regenerated, and dirty says if any were. */
  ghost predicate LoadedFrom(file: seq<Entry>, t: Contents, dirty: bool) {
    && t.originals == OriginalsOf(file) && Covered(t.entries, t.used, t.originals)
    && Repaired(file, t.entries, t.originals, {}) && NoClash(t.entries, t.originals)
    && KeepsShape(file, Derived(file), t.entries, t.look)
    && dirty == !NoClash(file, t.originals)
    && (!dirty ==> t.entries == file && t.look == Derived(file))
  }

  lemma LoadedAll(file: seq<Entry>, t0: Contents, t: Contents, changed: bool)
    requires Covered(file, t0.used, t0.originals) && t0.originals == OriginalsOf(file)
    requires t0.entries == file && t0.look == Derived(file)
    requires RepairedAll(|file|, t0, t, changed)
    ensures LoadedFrom(file, t, changed)
  {
    LoadedClean(t0, t);
    ClashIn(file, t0.originals);
  }

  lemma LoadedInOrder(file: seq<Entry>, t: Contents, dirty: bool)
    requires LoadedFrom(file, t, dirty) && DistinctOriginals(file)
    ensures InOrder(t)
  {
  }

  class IpTable {
    var loaded: bool
    var entries: seq<Entry>
    var lookup: Lookup
    var used: set<Addr>          // the used last octets, per subnet
    var allOriginals: set<Addr>
    var dirty: bool

    constructor ()
      ensures !loaded && entries == [] && lookup == map[] && used == {} && allOriginals == {} && !dirty
    {
      loaded, dirty := false, false;
      entries, lookup, used, allOriginals := [], map[], {}, {};
    }

    ghost function Snapshot(look: Lookup): Contents
      reads this
    {
      Contents(entries, look, used, allOriginals)
    }

    /** What a loaded table always satisfies, also after a call that failed half-way. */
    ghost predicate Sound()
      reads this
    {
      loaded && Covered(entries, used, allOriginals)
    }

    /** What it satisfies as long as every call returned normally. */
    ghost predicate Consistent()
      reads this
    {
      loaded && InOrder(Snapshot(lookup))
    }

    /** Draws last octets at random until one is free; None is the exhaustion error. */
    method GenIpAlias(original: Addr) returns (alias: Option<Addr>)
      requires original.V4?
      modifies this`used
      ensures alias.Some? ==> MintedFor(alias.value, original, old(used)) && alias.value != original
      ensures used == old(used) + (if alias.Some? then {alias.value} else {})
    {
      for attempt := 0 to MAX_ATTEMPTS
        invariant used == old(used)
      {
        var newLast: nat :| 10 <= newLast <= 250;
        var candidate := V4(original.subnet, newLast);
        if candidate !in used && candidate != original {
          used := used + {candidate};
          return Some(candidate);
        }
      }
      return None;
    }

    /** Repairing for `ip` has come to the `n`-th entry, and the dirty flag is up if it has changed one. */
    ghost predicate Repairing(n: nat, ip: Addr, look: Lookup, e0: seq<Entry>, used0: set<Addr>, look0: Lookup,
                              was: bool)
      reads this
    {
      && RepairUpTo(n, e0, entries, ip, used0, used, allOriginals, look0, look)
      && Covered(e0, used0, allOriginals) && Patched(e0, entries, {ip}, used0) && Noted(was, dirty, e0, entries)
      && used0 <= used && |entries| == |e0| && ip != BLANK && (ip.V4? ==> ip in used)
    }

    /** Regenerates the alias of the `n`-th entry if it is the newly seen address `ip`. */
    method RepairEntry(n: nat, ip: Addr, look: Lookup, ghost e0: seq<Entry>, ghost used0: set<Addr>,
                       ghost look0: Lookup, ghost was: bool)
      returns (ok: bool, look': Lookup)
      requires n < |entries| && Repairing(n, ip, look, e0, used0, look0, was)
      modifies this`entries, this`used, this`dirty
      ensures Repairing(if ok then n + 1 else n, ip, look', e0, used0, look0, was) && |entries| == old(|entries|)
      ensures !ok ==> entries[n].alias == ip && entries[n].original.V4?
    {
      hide RepairUpTo, Patched, Covered, Noted;
      var entry := entries[n];
      if entry.alias != ip || !entry.original.V4? {
        RepairSkips(n, e0, entries, ip, used0, used, allOriginals, look0, look);
        return true, look;
      }
      ghost var before := used;
      var newAlias := GenIpAlias(entry.original);
      if newAlias.None? {
        assert used == before;
        return false, look;
      }
      RepairMints(n, e0, entries, ip, used0, before, allOriginals, look0, look, newAlias.value);
      PatchedEntry(entries, n, ip, before, newAlias.value);
      ghost var e1, mid := entries, dirty;
      entries := entries[n := entry.(alias := newAlias.value)];
      dirty := true;
      NotedUp(mid, e1, entries);
      NotedOn(was, mid, dirty, e0, e1, entries, {ip}, ip, used0, before, allOriginals);
      PatchedOnce(n + 1, e0, entries, ip, used0, used, allOriginals, look0, look[entry.original := newAlias.value]);
      return true, look[entry.original := newAlias.value];
    }

    lemma RepairingStarts(ip: Addr, look: Lookup)
      requires Covered(entries, used, allOriginals) && ip in allOriginals && ip != BLANK
      ensures Repairing(0, ip, look, entries, used, look, dirty)
    {
    }

    lemma RepairingStops(n: nat, ip: Addr, look: Lookup, e0: seq<Entry>, used0: set<Addr>, look0: Lookup, was: bool)
      requires Repairing(n, ip, look, e0, used0, look0, was)
      ensures RepairUpTo(n, e0, entries, ip, used0, used, allOriginals, look0, look)
      ensures Patched(e0, entries, {ip}, used0) && Noted(was, dirty, e0, entries) && ip != BLANK
      ensures n == |entries| ==> RepairDone(e0, entries, ip, used0, used, allOriginals, look0, look)
    {
      hide Covered, Patched, Noted;
      if n == |entries| {
        RepairFinishes(e0, entries, ip, used0, used, allOriginals, look0, look);
      }
    }

    /** Regenerates the alias of every entry that uses the newly seen address `ip` as its alias. */
    method RepairFor(ip: Addr, look: Lookup) returns (ok: bool, look': Lookup)
      requires Covered(entries, used, allOriginals) && ip in allOriginals && ip != BLANK
      modifies this`entries, this`used, this`dirty
      ensures Noted(old(dirty), dirty, old(entries), entries)
      ensures exists n :: RepairUpTo(n, old(entries), entries, ip, old(used), used, allOriginals, look, look')
      ensures Patched(old(entries), entries, {ip}, old(used))
      ensures ok ==> RepairDone(old(entries), entries, ip, old(used), used, allOriginals, look, look')
      ensures !ok ==> AliasInUse(old(entries), ip)
    {
      hide *;
      look' := look;
      RepairingStarts(ip, look);
      for i := 0 to |entries|
        invariant |entries| == old(|entries|)
        invariant Repairing(i, ip, look', old(entries), old(used), look, old(dirty))
      {
        ok, look' := RepairEntry(i, ip, look', old(entries), old(used), look, old(dirty));
        if !ok {
          RepairingStops(i, ip, look', old(entries), old(used), look, old(dirty));
          RepairStuck(i, old(entries), entries, ip, old(used), used, allOriginals, look, look');
          return;
        }
      }
      RepairingStops(|entries|, ip, look', old(entries), old(used), look, old(dirty));
      ok := true;
    }

    /** Makes one address known: marks it used, and regenerates the aliases that equal it. */
    method SeedOne(ip: Addr, look: Lookup, ghost news: set<Addr>, ghost t0: Contents) returns (ok: bool, look': Lookup)
      requires Seeded(news, t0, Snapshot(look)) && ip != BLANK
      modifies this`entries, this`used, this`dirty, this`allOriginals
      ensures old(used) <= used && old(allOriginals) <= allOriginals && Covered(entries, used, allOriginals)
      ensures allOriginals == old(allOriginals) + {ip} && Patched(old(entries), entries, {ip}, old(used))
      ensures Noted(old(dirty), dirty, old(entries), entries)
      ensures ok ==> Seeded(news + {ip}, t0, Snapshot(look')) && look.Keys <= look'.Keys
      ensures ok ==> KeepsShape(old(entries), look, entries, look')
      ensures !ok ==> AliasInUse(old(entries), ip)
    {
      ghost var t := Snapshot(look);
      allOriginals := allOriginals + {ip};
      if ip.V4? {
        used := used + {ip};
      }
      ghost var marked := used;
      ok, look' := RepairFor(ip, look);
      if ok {
        SeedStep(news, t0, t, ip, marked, Snapshot(look'));
      }
    }

    /** Makes all missing addresses known before any alias is minted, repairing as it goes. */
    method SeedMissing(missing: seq<Addr>) returns (ok: bool, look: Lookup, ghost news: set<Addr>)
      requires Covered(entries, used, allOriginals) && BLANK !in missing
      modifies this`entries, this`used, this`dirty, this`allOriginals
      ensures old(used) <= used && old(allOriginals) <= allOriginals && Covered(entries, used, allOriginals)
      ensures Patched(old(entries), entries, SetOf(missing), old(used))
      ensures allOriginals <= old(allOriginals) + SetOf(missing)
      ensures Noted(old(dirty), dirty, old(entries), entries)
      ensures missing != [] && missing[0] !in lookup ==> missing[0] in allOriginals && (ok ==> missing[0] in news)
      ensures ok ==> SeededUpTo(|missing|, missing, news, old(Snapshot(lookup)), Snapshot(look))
      ensures !ok ==> SomeAliasKnown(old(entries), allOriginals)
    {
      NotedSame(dirty, entries);
      hide Seeding, SeededUpTo, Seeded, Patched, Covered, KeepsShape, AliasInUse, SomeAliasKnown, Noted;
      look := lookup;
      news := {};
      ghost var t0 := Snapshot(lookup);
      SeedingStarts(missing, t0);
      for n := 0 to |missing|
        invariant Seeding(n, missing, news, t0, Snapshot(look))
        invariant Noted(old(dirty), dirty, old(entries), entries)
      {
        ghost var t, mid := Snapshot(look), dirty;
        if missing[n] !in look {
          SeedingSeeded(n, missing, news, t0, t);
          ok, look := SeedOne(missing[n], look, news, t0);
          SeedingPatches(n, missing, news, t0, t, Snapshot(look));
          NotedOn(old(dirty), mid, dirty, t0.entries, t.entries, entries, SetOf(missing), missing[n], t0.used, t.used,
                  t0.originals);
          if !ok {
            SeedStuck(news, t0, t, missing[n], allOriginals);
            return;
          }
          SeedingNext(n, missing, news, t0, t, Snapshot(look));
          news := news + {missing[n]};
        } else {
          SeedingSkip(n, missing, news, t0, t);
        }
      }
      SeedingEnds(missing, news, t0, Snapshot(look));
      ok := true;
    }

    /** Mints an alias for every missing address that parses and has none by now. */
    method MintMissing(missing: seq<Addr>, look: Lookup) returns (ok: bool, look': Lookup)
      requires Covered(entries, used, allOriginals)
      requires forall ip :: ip in missing ==> ip in allOriginals || ip in look
      modifies this`entries, this`used, this`dirty
      ensures MintedEntries(old(Snapshot(look)), Snapshot(look'))
      ensures old(entries) <= entries && Noted(old(dirty), dirty, old(entries), entries)
      ensures ok ==> MintedLook(SetOf(missing), SetOf(missing), old(Snapshot(look)), Snapshot(look'))
    {
      look' := look;
      ghost var t1 := Snapshot(look);
      MintedNone(t1);
      hide MintedEntries;
      ghost var wanted := SetOf(missing);
      ghost var done := {};
      for n := 0 to |missing|
        invariant MintedEntries(t1, Snapshot(look'))
        invariant t1.entries <= entries && Noted(old(dirty), dirty, t1.entries, entries)
        invariant MintedLook(wanted, done, t1, Snapshot(look'))
        invariant done == SetOf(missing[..n])
      {
        var ip := missing[n];
        ghost var t := Snapshot(look');
        assert missing[..n + 1] == missing[..n] + [ip];
        MintedSound(t1, t);
        if ip !in look' && ip.V4? {
          var alias := GenIpAlias(ip);
          if alias.None? {
            assert Snapshot(look') == t;
            return false, look';
          }
          MintEntry(t1, t, ip, alias.value);
          look' := look'[ip := alias.value];
          entries := entries + [Entry(ip, alias.value)];
          dirty := true;
          MintLook(wanted, done, t1, t, Snapshot(look'), ip, alias.value);
        } else {
          MintNothing(wanted, done, t1, t, ip);
        }
        done := done + {ip};
      }
      assert missing[..|missing|] == missing;
      ok := true;
    }

    method Missing(targets: seq<Addr>) returns (missing: seq<Addr>)
      ensures forall t :: t in missing <==> t in targets && t !in lookup
      ensures targets != [] && targets[0] !in lookup ==> missing != [] && missing[0] == targets[0]
    {
      missing := [];
      for n := 0 to |targets|
        invariant forall t :: t in missing <==> t in targets[..n] && t !in lookup
        invariant n == 0 ==> missing == []
        invariant n > 0 && targets[0] !in lookup ==> missing != [] && missing[0] == targets[0]
      {
        if targets[n] !in lookup {
          missing := missing + [targets[n]];
        }
      }
      assert targets[..|targets|] == targets;
    }

    /**
     Adds aliases for the addresses that have none. False is the exhaustion error: the entries may
     have changed, but the lookup that readers see has not.
     */
    method LoadIpAliases(targets: seq<Addr>) returns (ok: bool, ghost seeded: set<Addr>)
      requires Sound() && BLANK !in targets
      modifies this`entries, this`lookup, this`used, this`allOriginals, this`dirty
      ensures Sound() && old(used) <= used && old(allOriginals) <= allOriginals
      ensures Edited(old(entries), entries, SetOf(targets), old(used), old(lookup))
      ensures dirty == (old(dirty) || entries != old(entries))
      ensures targets != [] && targets[0] !in old(lookup) ==> targets[0] in allOriginals
      ensures ok ==> Returned(targets, seeded, old(Snapshot(lookup)), Snapshot(lookup))
      ensures !ok ==> GaveUp(targets, old(Snapshot(lookup)), Snapshot(lookup))
    {
      hide Edited, Returned, GaveUp, Covered, Appended, Seeded, MintedLook, MintedEntries, SeededUpTo, Patched;
      hide SomeAliasKnown;
      ghost var t0 := Snapshot(lookup);
      var missing := Missing(targets);
      if missing == [] {
        NothingMissing(targets, t0);
        return true, {};
      }
      var seededAll, newLookup, news := SeedMissing(missing);
      ghost var t1 := Snapshot(newLookup);
      EditedBySeeding(t0.entries, entries, missing, targets, t0.used, t0.look);
      if !seededAll {
        SeedingGaveUp(targets, missing, t0, Snapshot(lookup));
        return false, {};
      }
      AllKnown(missing, news, t0, t1);
      var minted, newerLookup := MintMissing(missing, newLookup);
      MintingEdited(targets, missing, news, t0, t1, Snapshot(newerLookup));
      if !minted {
        MintingGaveUp(targets, missing, news, t0, t1, Snapshot(newerLookup), Snapshot(lookup));
        return false, {};
      }
      CallReturned(targets, missing, news, t0, t1, Snapshot(newerLookup));
      lookup := newerLookup;
      return true, news;
    }

    /** The warm sets and the lookup that a file stands for. */
    method ScanFile(file: seq<Entry>) returns (marks: set<Addr>, all: set<Addr>, look: Lookup)
      ensures all == OriginalsOf(file) && look == Derived(file) && Covered(file, marks, all)
    {
      marks, all, look := {}, {}, map[];
      for n := 0 to |file|
        invariant all == OriginalsOf(file[..n]) && look == Derived(file[..n])
        invariant Covered(file[..n], marks, all)
      {
        var e := file[n];
        assert file[..n + 1][..n] == file[..n] && file[..n + 1] == file[..n] + [e];
        if e.original != BLANK {
          all := all + {e.original};
          if e.original.V4? {
            marks := marks + {e.original};
          }
          if e.alias != BLANK {
            look := look[e.original := e.alias];
            if e.alias.V4? {
              marks := marks + {e.alias};
            }
          }
        }
      }
      assert file[..|file|] == file;
    }

    /** The one-time repair pass over the loaded entries. */
    method RepairEntries(look: Lookup) returns (ok: bool, look': Lookup, changed: bool)
      requires Covered(entries, used, allOriginals)
      modifies this`entries, this`used
      ensures ok ==> RepairedAll(|entries|, old(Snapshot(look)), Snapshot(look'), changed)
      ensures !ok ==> !NoClash(old(entries), allOriginals)
    {
      look', changed := look, false;
      ghost var t0 := Snapshot(look);
      var n := 0;
      while n < |entries|
        invariant RepairedAll(n, t0, Snapshot(look'), changed)
      {
        var e := entries[n];
        if Clashing(e, allOriginals) {
          ghost var t := Snapshot(look');
          var newAlias := GenIpAlias(e.original);
          if newAlias.None? {
            assert e == t0.entries[n];
            return false, look', changed;
          }
          entries := entries[n := e.(alias := newAlias.value)];
          look' := look'[e.original := newAlias.value];
          LoadRepairs(n, t0, t, Snapshot(look'), changed, newAlias.value);
          changed := true;
        } else {
          LoadSkips(n, t0, Snapshot(look'), changed);
        }
        n := n + 1;
      }
      ok := true;
    }

    method RepairAll(look: Lookup) returns (ok: bool, look': Lookup, changed: bool)
      requires Covered(entries, used, allOriginals)
      requires allOriginals == OriginalsOf(entries) && look == Derived(entries)
      modifies this`entries, this`used
      ensures ok ==> LoadedFrom(old(entries), Snapshot(look'), changed)
      ensures !ok ==> !NoClash(old(entries), OriginalsOf(old(entries)))
    {
      ghost var t0 := Snapshot(look);
      ok, look', changed := RepairEntries(look);
      if ok {
        LoadedAll(t0.entries, t0, Snapshot(look'), changed);
      }
    }

    /**
     Loads the table from disk once, and regenerates every alias that equals a known address.
     False is the exhaustion error; the table then stays unloaded.
     */
    method EnsureLoaded(file: seq<Entry>) returns (ok: bool)
      requires !loaded
      modifies this
      ensures ok == loaded
      ensures ok ==> LoadedFrom(file, Snapshot(lookup), dirty)
      ensures !ok ==> !NoClash(file, OriginalsOf(file))
    {
      var look, changed;
      entries := file;
      used, allOriginals, look := ScanFile(file);
      ok, look, changed := RepairAll(look);
      if ok {
        lookup, dirty, loaded := look, changed, true;
      }
    }

    /** The flusher's snapshot: the entries, if they changed since the last one. */
    method SnapshotIfDirty() returns (snap: Option<seq<Entry>>)
      modifies this`dirty
      ensures snap == if old(dirty) && loaded then Some(entries) else None
      ensures dirty == (old(dirty) && !loaded)
    {
      if !dirty || !loaded {
        return None;
      }
      dirty := false;
      return Some(entries);
    }
  }

  // ----- After an exhaustion error -----

  /** A known address is served as the alias of the `i`-th entry's original. */
  ghost predicate ServesKnown(t: Contents, i: nat, stale: Addr) {
    && i < |t.entries| && Filled(t.entries[i]) && t.entries[i].original.V4?
    && t.entries[i].original in t.look && t.look[t.entries[i].original] == stale && stale in t.originals
  }

  /** Every last octet that is ever drawn is in use in this subnet. */
  ghost predicate Full(subnet: string, used: set<Addr>) {
    forall n: nat :: 10 <= n <= 250 ==> V4(subnet, n) in used
  }

  /**
   How it comes about: from any table in order, a call for an address in use as an alias, together with a
   new address of a full subnet, ends in the error, and the alias that is a known address now is still served.
   */
  method FullSubnetServesKnown(table: IpTable, i: nat, full: Addr)
    requires table.Consistent() && i < |table.entries| && Filled(table.entries[i]) && table.entries[i].original.V4?
    requires table.entries[i].alias !in table.lookup
    requires full.V4? && full !in table.lookup && Full(full.subnet, table.used)
    modifies table
    ensures ServesKnown(table.Snapshot(table.lookup), i, old(table.entries[i].alias))
    ensures table.Sound() && table.lookup == old(table.lookup) && !table.Consistent()
    ensures DistinctOriginals(table.entries) && Unique(table.entries, i)
  {
    ghost var ip := table.entries[i].alias;
    ghost var original := table.entries[i].original;
    ghost var t0 := table.Snapshot(table.lookup);
    DerivedAt(table.entries, i);
    var ok, _ := table.LoadIpAliases([table.entries[i].alias, full]);
    ghost var t := table.Snapshot(table.lookup);
    assert [ip, full][0] == ip && [ip, full][1] == full;
    NothingToMint([ip, full], full, t0);
    EditedKeeps(t0.entries, table.entries, SetOf([ip, full]), t0.used, t0.look, i);
    KnownOutOfOrder(t, i, ip);
  }

  /** Such a table, from a file: one address with its alias, and a subnet whose addresses are listed without aliases. */
  method StaleFromFile() returns (table: IpTable)
    ensures fresh(table) && table.Sound() && ServesKnown(table.Snapshot(table.lookup), 0, V4("10.0.0", 77))
    ensures Unique(table.entries, 0)
  {
    var listed := seq(241, n requires 0 <= n < 241 => Entry(V4("10.0.1", 10 + n), BLANK));
    var file := [Entry(V4("10.0.0", 5), V4("10.0.0", 77))] + listed;
    forall e | e in file ensures e == file[0] || (e.original.V4? && e.original.subnet == "10.0.1" && e.alias == BLANK) {
      if e != file[0] {
        var j :| 1 <= j < |file| && file[j] == e;
        assert e == listed[j - 1];
      }
    }
    table := new IpTable();
    var ok := table.EnsureLoaded(file);
    LoadedInOrder(file, table.Snapshot(table.lookup), table.dirty);
    forall n: nat | 10 <= n <= 250 ensures V4("10.0.1", n) in table.used {
      assert file[n - 9] == Entry(V4("10.0.1", n), BLANK) && file[n - 9] in file;
    }
    forall o | o in table.lookup ensures o == V4("10.0.0", 5) {
      DerivedOnly(file, o);
    }
    FullSubnetServesKnown(table, 0, V4("10.0.1", 7));
  }

  /** In a full subnet no call can return normally. */
  lemma NothingToMint(targets: seq<Addr>, full: Addr, t0: Contents)
    requires InOrder(t0) && full in targets && full.V4? && full !in t0.look && Full(full.subnet, t0.used)
    ensures forall seeded, t :: !Returned(targets, seeded, t0, t)
  {
    forall a ensures !MintedFor(a, full, t0.used) {
      if a.V4? {
        assert a == V4(a.subnet, a.octet);
      }
    }
  }

  lemma EditedKeeps(e0: seq<Entry>, e: seq<Entry>, news: set<Addr>, used: set<Addr>, look0: Lookup, i: nat)
    requires Edited(e0, e, news, used, look0) && i < |e0|
    ensures i < |e| && e[i].original == e0[i].original && (Filled(e0[i]) && BLANK !in news ==> Filled(e[i]))
    ensures Unique(e0, i) && e0[i].original in look0 && BLANK !in news ==> Unique(e, i)
  {
    assert forall j :: 0 <= j < |e0| ==> e[j] == e[..|e0|][j];
    assert BLANK !in news ==> forall j :: 0 <= j < |e0| && Filled(e[j]) ==> Filled(e0[j]);
  }

  lemma KnownOutOfOrder(t: Contents, i: nat, stale: Addr)
    requires ServesKnown(t, i, stale)
    ensures !InOrder(t)
  {
    if Synced(t) {
      DerivedAt(t.entries, i);
      assert t.entries[i] in t.entries && Clashing(t.entries[i], t.originals);
    }
  }

  /**
   Which later call ends it: one that returns normally changes the value exactly if it takes up the alias
   that the entry has by now, and then serves a newly minted one. Every other call, and every error, leaves
   the known address served, and whatever happens no second entry is ever made for that original.
   */
  method LaterCall(table: IpTable, i: nat, ghost stale: Addr, targets: seq<Addr>)
    returns (ok: bool, ghost seeded: set<Addr>)
    requires table.Sound() && BLANK !in targets
    requires ServesKnown(table.Snapshot(table.lookup), i, stale) && Unique(table.entries, i)
    modifies table
    ensures table.Sound() && i < |table.entries| && Unique(table.entries, i)
    ensures table.entries[i].original == old(table.entries[i].original) && table.entries[i].original in table.lookup
    ensures ok ==> TakenUp(targets, old(table.lookup), old(table.entries), seeded)
    ensures ok ==> (table.lookup[table.entries[i].original] != stale <==> old(table.entries[i].alias) in seeded)
    ensures ok && old(table.entries[i].alias) in seeded ==>
      table.lookup[table.entries[i].original] == table.entries[i].alias
      && MintedFor(table.entries[i].alias, table.entries[i].original, old(table.used))
    ensures !ok || old(table.entries[i].alias) !in seeded ==> ServesKnown(table.Snapshot(table.lookup), i, stale)
  {
    ghost var t0 := table.Snapshot(table.lookup);
    ok, seeded := table.LoadIpAliases(targets);
    EditedKeeps(t0.entries, table.entries, SetOf(targets), t0.used, t0.look, i);
    assert table.entries[i] == table.entries[..|t0.entries|][i];
    assert stale.V4? ==> stale in t0.used;
  }

  /** For a call for one address: it must be that alias, and have no value yet. */
  method LaterCallForOne(table: IpTable, i: nat, ghost stale: Addr, ip: Addr) returns (ok: bool)
    requires table.Sound() && ip != BLANK
    requires ServesKnown(table.Snapshot(table.lookup), i, stale) && Unique(table.entries, i)
    modifies table
    ensures table.Sound() && i < |table.entries| && Unique(table.entries, i)
    ensures table.entries[i].original == old(table.entries[i].original) && table.entries[i].original in table.lookup
    ensures ok ==> (table.lookup[table.entries[i].original] != stale
                    <==> old(table.entries[i].alias) == ip && ip !in old(table.lookup))
    ensures !ok ==> ServesKnown(table.Snapshot(table.lookup), i, stale)
  {
    ghost var seeded;
    assert [ip][0] == ip;
    ok, seeded := LaterCall(table, i, stale, [ip]);
  }

  /** Whatever a call mints or regenerates is in the next snapshot, and after one that changed nothing there is none. */
  method CallThenFlush(table: IpTable, targets: seq<Addr>) returns (ok: bool, snap: Option<seq<Entry>>)
    requires table.Sound() && !table.dirty && BLANK !in targets
    modifies table
    ensures snap == (if table.entries != old(table.entries) then Some(table.entries) else None) && !table.dirty
  {
    ghost var seeded;
    ok, seeded := table.LoadIpAliases(targets);
    snap := table.SnapshotIfDirty();
  }

  lemma FewerOriginals(entries: seq<Entry>, originals: set<Addr>, used: set<Addr>)
    requires NoClash(entries, originals) && Covered(entries, used, originals)
    ensures NoClash(entries, OriginalsOf(entries))
  {
    assert OriginalsOf(entries) <= originals;
  }

  /** Flushing a consistent table and loading the file again gives the same lookup and changes nothing. */
  method FlushThenReload(table: IpTable) returns (again: IpTable)
    requires table.Consistent() && table.dirty
    modifies table
    ensures fresh(again)
    ensures table.lookup == old(table.lookup) && table.entries == old(table.entries)
    ensures again.Consistent() && !again.dirty
    ensures again.lookup == table.lookup && again.entries == table.entries
  {
    FewerOriginals(table.entries, table.allOriginals, table.used);
    var file := table.SnapshotIfDirty();
    again := new IpTable();
    var _ := again.EnsureLoaded(file.value);
    LoadedInOrder(file.value, again.Snapshot(again.lookup), again.dirty);
  }
}
