/**
 The restoration of anonymize.py, which replaces the aliases of a substituted text back one by one,
 the longest first: what it gives back, under which condition the text itself, and where it fails.
 */
module Restoration {
  import opened Substitution
  import opened Text
  import opened Wrappers

  /** Every occurrence replaced, left to right and without overlaps. */
  function ReplaceAll(t: string, a: string, o: string): string
    requires a != ""
    decreases |t|
  {
    if t == "" then ""
    else if StartsAt(t, 0, a) then o + ReplaceAll(t[|a|..], a, o)
    else [t[0]] + ReplaceAll(t[1..], a, o)
  }

  /** The aliases to restore, each with an original. */
  predicate Restorable(order: seq<string>, reverse: Lookup) {
    forall a :: a in order ==> a != "" && a in reverse
  }

  /** The aliases of a reverse table restored one after the other in the given order. */
  function RestoreAll(t: string, order: seq<string>, reverse: Lookup): string
    requires Restorable(order, reverse)
    decreases |order|
  {
    if order == [] then t
    else
      var a := order[0];
      assert a in order && forall x :: x in order[1..] ==> x in order;
      RestoreAll(ReplaceAll(t, a, reverse[a]), order[1..], reverse)
  }

  lemma StartsShift(t: string, i: nat, a: string)
    requires t != ""
    ensures StartsAt(t[1..], i, a) <==> StartsAt(t, i + 1, a)
  {
    if i + 1 + |a| <= |t| {
      assert t[1..][i..i + |a|] == t[i + 1..i + 1 + |a|];
    }
  }

  lemma {:induction false} ReplaceAbsent(t: string, a: string, o: string)
    requires a != "" && !Contains(t, a)
    ensures ReplaceAll(t, a, o) == t
    decreases |t|
  {
    if t != "" {
      assert !StartsAt(t, 0, a);
      forall i: nat | i <= |t| - 1 ensures !StartsAt(t[1..], i, a) {
        StartsShift(t, i, a);
      }
      ReplaceAbsent(t[1..], a, o);
    }
  }

  /** deanonymize_response: aliases longest first, each only if it occurs. */
  method Deanonymize(response: string, reverse: Lookup, order: seq<string>) returns (t: string)
    requires LongestFirst(order) && forall a :: a in order <==> a in reverse
    requires "" !in reverse
    ensures t == RestoreAll(response, order, reverse)
  {
    t := response;
    if reverse == map[] {
      assert forall i :: 0 <= i < |order| ==> order[i] in order;
      return;
    }
    for n := 0 to |order|
      invariant RestoreAll(t, order[n..], reverse) == RestoreAll(response, order, reverse)
    {
      var alias := order[n];
      assert order[n..][0] == alias && order[n..][1..] == order[n + 1..] && alias in order;
      if Contains(t, alias) {
        t := ReplaceAll(t, alias, reverse[alias]);
      } else {
        ReplaceAbsent(t, alias, reverse[alias]);
      }
    }
  }

  // ----- Restoring what was substituted -----

  /** The piece is an alias `a` still to be restored. */
  predicate Inserted(p: Piece, lookup: Lookup, done: set<string>, a: string) {
    p.Replaced? && p.key in lookup && lookup[p.key] == a && a !in done
  }

  /** At this stage `a` begins nowhere but where it was inserted. */
  ghost predicate NoStray(pieces: seq<Piece>, lookup: Lookup, done: set<string>, a: string)
    requires forall p :: p in pieces ==> Known(p, lookup)
    decreases pieces
  {
    pieces == []
    || (&& (Inserted(pieces[0], lookup, done, a)
            || forall x :: 0 <= x < |Shown(pieces[0], lookup, done)| ==> !StartsAt(Stage(pieces, lookup, done), x, a))
        && NoStray(pieces[1..], lookup, done, a))
  }

  function Taken(order: seq<string>): set<string> {
    set a | a in order
  }

  ghost predicate Consistent(pieces: seq<Piece>, lookup: Lookup, reverse: Lookup)
    requires forall p :: p in pieces ==> Known(p, lookup)
  {
    forall k :: Replaced(k) in pieces && Known(Replaced(k), lookup) && lookup[k] in reverse ==> reverse[lookup[k]] == k
  }

  /** When its turn comes, every alias occurs only where it was inserted, and in no restored original. */
  ghost predicate Clean(pieces: seq<Piece>, lookup: Lookup, done: set<string>, order: seq<string>)
    requires forall p :: p in pieces ==> Known(p, lookup)
    decreases |order|
  {
    order == []
    || (&& order[0] !in done && NoStray(pieces, lookup, done, order[0])
        && Clean(pieces, lookup, done + {order[0]}, order[1..]))
  }

  lemma {:induction false} ReplaceSkips(u: string, rest: string, a: string, o: string)
    requires a != "" && forall x :: 0 <= x < |u| ==> !StartsAt(u + rest, x, a)
    ensures ReplaceAll(u + rest, a, o) == u + ReplaceAll(rest, a, o)
    decreases |u|
  {
    if u == "" {
      assert u + rest == rest;
    } else {
      assert !StartsAt(u + rest, 0, a);
      assert (u + rest)[1..] == u[1..] + rest;
      forall x | 0 <= x < |u| - 1 ensures !StartsAt(u[1..] + rest, x, a) {
        StartsShift(u + rest, x, a);
      }
      ReplaceSkips(u[1..], rest, a, o);
    }
  }

  /** Restoring one alias takes the text from one stage to the next. */
  lemma {:induction false} ReplaceStage(pieces: seq<Piece>, lookup: Lookup, done: set<string>, a: string, o: string)
    requires Keyed(pieces, lookup) && a != "" && a !in done
    requires forall k :: Replaced(k) in pieces && lookup[k] == a ==> k == o
    requires NoStray(pieces, lookup, done, a)
    ensures ReplaceAll(Stage(pieces, lookup, done), a, o) == Stage(pieces, lookup, done + {a})
    decreases pieces
  {
    if pieces != [] {
      var p, rest := pieces[0], Stage(pieces[1..], lookup, done);
      ReplaceStage(pieces[1..], lookup, done, a, o);
      if Inserted(p, lookup, done, a) {
        assert (a + rest)[|a|..] == rest && StartsAt(a + rest, 0, a);
        assert Replaced(p.key) in pieces;
      } else {
        assert Stage(pieces, lookup, done) == Shown(p, lookup, done) + rest;
        ReplaceSkips(Shown(p, lookup, done), rest, a, o);
      }
    }
  }

  /** The text that a cut was made from. */
  function Original(pieces: seq<Piece>): string {
    if pieces == [] then "" else (if pieces[0].Kept? then [pieces[0].c] else pieces[0].key) + Original(pieces[1..])
  }

  lemma FirstIsText(cs: bool, t: string, i: nat, p: Piece, lookup: Lookup)
    requires FirstOfCut(cs, t, i, p, lookup)
    ensures i + Width(p) <= |t| && t[i..] == (if p.Kept? then [p.c] else p.key) + t[i + Width(p)..]
  {
    var w := Width(p);
    assert t[i..] == t[i..i + w] + t[i + w..];
  }

  lemma {:induction false} CutIsText(cs: bool, t: string, i: nat, pieces: seq<Piece>, lookup: Lookup)
    requires i <= |t| && LeftmostLongest(cs, t, i, pieces, lookup)
    ensures Original(pieces) == t[i..]
    decreases pieces
  {
    hide FirstOfCut;
    if pieces != [] {
      FirstIsText(cs, t, i, pieces[0], lookup);
      CutIsText(cs, t, i + Width(pieces[0]), pieces[1..], lookup);
    }
  }

  lemma {:induction false} OriginalAppend(pieces: seq<Piece>, more: seq<Piece>)
    ensures Original(pieces + more) == Original(pieces) + Original(more)
  {
    if pieces == [] {
      assert pieces + more == more;
    } else {
      assert (pieces + more)[1..] == pieces[1..] + more;
      OriginalAppend(pieces[1..], more);
    }
  }

  lemma {:induction false} CopiedOriginal(u: string)
    ensures Original(Copied(u)) == u
  {
    if u != "" {
      CopiedOriginal(u[1..]);
      assert Copied(u)[1..] == Copied(u[1..]);
    }
  }

  lemma {:induction false} SettleOriginal(cs: bool, cut: seq<Piece>, keys: seq<string>, lookup: Lookup)
    requires Named(keys, lookup)
    ensures Original(Settle(cs, cut, keys, lookup)) == Original(cut)
  {
    if cut != [] {
      var p := cut[0];
      SettleOriginal(cs, cut[1..], keys, lookup);
      OriginalAppend(Settled(cs, p, keys, lookup), Settle(cs, cut[1..], keys, lookup));
      if p.Replaced? {
        CopiedOriginal(p.key);
      }
      assert [p][1..] == [] && Original([p]) == if p.Kept? then [p.c] else p.key;
    }
  }

  /** The pieces of the pass, copied and in their spelling, are the text. */
  lemma PiecesAreText(cs: bool, t: string, keys: seq<string>, lookup: Lookup)
    requires Alternation(keys, lookup)
    ensures Original(Pieces(cs, t, keys, lookup)) == t
  {
    var cut := Scan(cs, t, 0, keys);
    ScanIsLeftmostLongest(cs, t, keys, lookup, cut);
    CutIsText(cs, t, 0, cut, lookup);
    SettleOriginal(cs, cut, keys, lookup);
    assert t[0..] == t;
  }

  lemma {:induction false} StageAll(pieces: seq<Piece>, lookup: Lookup, done: set<string>)
    requires forall p :: p in pieces ==> Known(p, lookup) && (p.Replaced? ==> lookup[p.key] in done)
    ensures Stage(pieces, lookup, done) == Original(pieces)
  {
    if pieces != [] {
      assert pieces[0] in pieces;
      StageAll(pieces[1..], lookup, done);
    }
  }

  lemma {:induction false} ReverseHolds(pieces: seq<Piece>, lookup: Lookup)
    requires Keyed(pieces, lookup)
    ensures forall k :: Replaced(k) in pieces ==> lookup[k] in Reverse(pieces, lookup)
    ensures forall a :: a in Reverse(pieces, lookup) ==>
              Replaced(Reverse(pieces, lookup)[a]) in pieces && lookup[Reverse(pieces, lookup)[a]] == a
  {
    if pieces != [] {
      var n := |pieces| - 1;
      assert pieces == pieces[..n] + [pieces[n]];
      ReverseHolds(pieces[..n], lookup);
    }
  }

  lemma {:induction false} RestoresToStage(pieces: seq<Piece>, lookup: Lookup, done: set<string>, order: seq<string>,
                                           reverse: Lookup)
    requires Keyed(pieces, lookup) && Restorable(order, reverse)
    requires Consistent(pieces, lookup, reverse) && Clean(pieces, lookup, done, order)
    ensures RestoreAll(Stage(pieces, lookup, done), order, reverse) == Stage(pieces, lookup, done + Taken(order))
    decreases |order|
  {
    if order == [] {
      assert done + Taken(order) == done;
    } else {
      var a, rest := order[0], order[1..];
      assert order == [a] + rest && a in order && forall x :: x in rest ==> x in order;
      ReplaceStage(pieces, lookup, done, a, reverse[a]);
      RestoresToStage(pieces, lookup, done + {a}, rest, reverse);
      assert done + {a} + Taken(rest) == done + Taken(order);
    }
  }

  lemma RestoresOriginal(pieces: seq<Piece>, table: Lookup, order: seq<string>, reverse: Lookup)
    requires Keyed(pieces, table) && reverse == Reverse(pieces, table) && forall a :: a in order <==> a in reverse
    requires Injective(pieces, table) && Clean(pieces, table, {}, order)
    ensures Restorable(order, reverse) && RestoreAll(Output(pieces, table), order, reverse) == Original(pieces)
  {
    ReverseHolds(pieces, table);
    RestoresToStage(pieces, table, {}, order, reverse);
    StageAll(pieces, table, {} + Taken(order));
  }

  /** What the pass makes of a text: its pieces, their aliases, and the reverse table. */
  ghost predicate Substituted(cs: bool, t: string, lookup: Lookup, keys: seq<string>, pieces: seq<Piece>,
                              table: Lookup, reverse: Lookup) {
    && Alternation(keys, lookup) && pieces == Pieces(cs, t, keys, lookup)
    && table == Table(cs, pieces, keys, lookup) && Keyed(pieces, table) && reverse == Reverse(pieces, table)
  }

  /**
   Substituting and restoring gives the text back: if no two replaced spellings share an alias, and
   every alias, when its turn comes, occurs only where it was inserted.
   */
  lemma RoundTrip(cs: bool, t: string, lookup: Lookup, keys: seq<string>, order: seq<string>, pieces: seq<Piece>,
                  table: Lookup, reverse: Lookup)
    requires Substituted(cs, t, lookup, keys, pieces, table, reverse) && forall a :: a in order <==> a in reverse
    requires Injective(pieces, table) && Clean(pieces, table, {}, order)
    ensures Restorable(order, reverse) && RestoreAll(Output(pieces, table), order, reverse) == t
  {
    RestoresOriginal(pieces, table, order, reverse);
    PiecesAreText(cs, t, keys, lookup);
  }

  // ----- A condition on the text and the table alone -----

  /** As far as the kept text tells, `w` could be read from here on; where a replacement begins, anything could. */
  predicate Meets(w: string, pieces: seq<Piece>)
    decreases pieces
  {
    w == ""
    || (pieces != [] && (pieces[0].Kept? ==> pieces[0].c == w[0] && Meets(w[1..], pieces[1..])))
  }

  /**
   The alias cannot be read into the text: not in kept text or
   a replaced original, nor across an edge between them.
   */
  ghost predicate Unread(pieces: seq<Piece>, a: string)
    decreases pieces
  {
    pieces == []
    || (&& Unread(pieces[1..], a)
        && (if pieces[0].Kept? then !Meets(a, pieces)
            else !Contains(pieces[0].key, a) && forall k :: 0 < k < |a| ==> !Meets(a[k..], pieces[1..])))
  }

  /** None of the aliases can. */
  ghost predicate Legible(pieces: seq<Piece>, order: seq<string>) {
    forall a :: a in order ==> a != "" && Unread(pieces, a)
  }

  lemma {:induction false} ReadMeets(pieces: seq<Piece>, lookup: Lookup, done: set<string>, w: string)
    requires (forall p :: p in pieces ==> Known(p, lookup)) && StartsAt(Stage(pieces, lookup, done), 0, w)
    ensures Meets(w, pieces)
    decreases pieces
  {
    if w != "" && pieces != [] && pieces[0].Kept? {
      var t, rest := Stage(pieces, lookup, done), Stage(pieces[1..], lookup, done);
      assert t == [pieces[0].c] + rest && t[0] == w[0];
      assert w[1..] == t[..|w|][1..] == rest[..|w| - 1];
      ReadMeets(pieces[1..], lookup, done, w[1..]);
    }
  }

  lemma ReadsWithin(u: string, rest: string, x: nat, a: string)
    requires StartsAt(u + rest, x, a) && x + |a| <= |u|
    ensures Contains(u, a)
  {
    assert (u + rest)[x..x + |a|] == u[x..x + |a|];
    assert StartsAt(u, x, a);
  }

  lemma ReadsBeyond(u: string, rest: string, x: nat, a: string)
    requires x < |u| && StartsAt(u + rest, x, a) && x + |a| > |u|
    ensures StartsAt(rest, 0, a[|u| - x..])
  {
    var t, k := u + rest, |u| - x;
    assert a[k..] == t[x..x + |a|][k..] == t[|u|..x + |a|] == rest[..|a| - k];
  }

  /** Inside a replaced piece shown as `u`, the alias is not read: not within it, and not beyond its end. */
  lemma ReplacedUnread(u: string, rest: string, x: nat, a: string)
    requires x < |u| && !Contains(u, a)
    requires forall k :: 0 < k < |a| ==> !StartsAt(rest, 0, a[k..])
    ensures !StartsAt(u + rest, x, a)
  {
    hide StartsAt, Contains;
    if StartsAt(u + rest, x, a) {
      if x + |a| <= |u| {
        ReadsWithin(u, rest, x, a);
      } else {
        ReadsBeyond(u, rest, x, a);
      }
    }
  }

  /** A shown alias holds `a` only if it is `a`, once all longer aliases are restored. */
  ghost predicate LongerDone(pieces: seq<Piece>, lookup: Lookup, done: set<string>, a: string) {
    forall k :: Replaced(k) in pieces && k in lookup && lookup[k] !in done ==> |lookup[k]| <= |a|
  }

  lemma AliasUnread(b: string, a: string)
    requires b != a && |b| <= |a|
    ensures !Contains(b, a)
  {
    forall x | 0 <= x <= |b| ensures !StartsAt(b, x, a) {
      if x == 0 && |a| == |b| {
        assert b[..|a|] == b;
      }
    }
  }

  lemma {:induction false} UnreadNoStray(pieces: seq<Piece>, lookup: Lookup, done: set<string>, a: string)
    requires Keyed(pieces, lookup) && a != "" && a !in done
    requires Unread(pieces, a) && LongerDone(pieces, lookup, done, a)
    ensures NoStray(pieces, lookup, done, a)
    decreases pieces
  {
    if pieces != [] {
      var p, rest := pieces[0], Stage(pieces[1..], lookup, done);
      UnreadNoStray(pieces[1..], lookup, done, a);
      if !Inserted(p, lookup, done, a) {
        forall x | 0 <= x < |Shown(p, lookup, done)| ensures !StartsAt(Stage(pieces, lookup, done), x, a) {
          PieceUnread(pieces, lookup, done, a, x);
        }
      }
    }
  }

  lemma PieceUnread(pieces: seq<Piece>, lookup: Lookup, done: set<string>, a: string, x: nat)
    requires Keyed(pieces, lookup) && a != "" && a !in done && pieces != []
    requires Unread(pieces, a) && LongerDone(pieces, lookup, done, a)
    requires !Inserted(pieces[0], lookup, done, a) && x < |Shown(pieces[0], lookup, done)|
    ensures !StartsAt(Stage(pieces, lookup, done), x, a)
  {
    var p, rest := pieces[0], Stage(pieces[1..], lookup, done);
    if p.Kept? {
      if StartsAt(Stage(pieces, lookup, done), 0, a) {
        ReadMeets(pieces, lookup, done, a);
      }
    } else {
      assert p == Replaced(p.key) && p in pieces;
      if lookup[p.key] !in done {
        AliasUnread(lookup[p.key], a);
      }
      forall k | 0 < k < |a| ensures !StartsAt(rest, 0, a[k..]) {
        if StartsAt(rest, 0, a[k..]) {
          ReadMeets(pieces[1..], lookup, done, a[k..]);
        }
      }
      ReplacedUnread(Shown(p, lookup, done), rest, x, a);
    }
  }

  /** The order of restoration: each alias once, the longest first. */
  ghost predicate RestoringOrder(order: seq<string>, reverse: Lookup) {
    && LongestFirst(order) && (forall a :: a in order <==> a in reverse)
    && forall i, j :: 0 <= i < j < |order| ==> order[i] != order[j]
  }

  /** No two replaced keys share an alias. */
  ghost predicate Injective(pieces: seq<Piece>, lookup: Lookup)
    requires Keyed(pieces, lookup)
  {
    forall j, k :: Replaced(j) in pieces && Replaced(k) in pieces && lookup[j] == lookup[k] ==> j == k
  }

  /** What is left to restore: distinct aliases, the longest first, and all that are not restored yet. */
  ghost predicate Outstanding(pieces: seq<Piece>, lookup: Lookup, done: set<string>, order: seq<string>) {
    && LongestFirst(order) && (forall i, j :: 0 <= i < j < |order| ==> order[i] != order[j])
    && (forall i :: 0 <= i < |order| ==> order[i] !in done)
    && (forall k :: Replaced(k) in pieces && k in lookup && lookup[k] !in done ==> lookup[k] in order)
  }

  lemma OutstandingNext(pieces: seq<Piece>, lookup: Lookup, done: set<string>, order: seq<string>)
    requires Outstanding(pieces, lookup, done, order) && order != []
    ensures Outstanding(pieces, lookup, done + {order[0]}, order[1..]) && LongerDone(pieces, lookup, done, order[0])
  {
    assert order == [order[0]] + order[1..];
    forall k | Replaced(k) in pieces && k in lookup && lookup[k] !in done ensures |lookup[k]| <= |order[0]| {
      var n :| 0 <= n < |order| && order[n] == lookup[k];
    }
  }

  /** A legible text is clean: restoring the longest alias first never reads one where none was inserted. */
  lemma {:induction false} LegibleIsClean(pieces: seq<Piece>, lookup: Lookup, done: set<string>, order: seq<string>)
    requires Keyed(pieces, lookup) && Legible(pieces, order) && Outstanding(pieces, lookup, done, order)
    ensures Clean(pieces, lookup, done, order)
    decreases |order|
  {
    if order != [] {
      assert order[0] in order && forall x :: x in order[1..] ==> x in order;
      OutstandingNext(pieces, lookup, done, order);
      UnreadNoStray(pieces, lookup, done, order[0]);
      LegibleIsClean(pieces, lookup, done + {order[0]}, order[1..]);
    }
  }

  lemma LegibleOriginal(pieces: seq<Piece>, table: Lookup, order: seq<string>, reverse: Lookup)
    requires Keyed(pieces, table) && reverse == Reverse(pieces, table) && RestoringOrder(order, reverse)
    requires Injective(pieces, table) && Legible(pieces, order)
    ensures Restorable(order, reverse) && RestoreAll(Output(pieces, table), order, reverse) == Original(pieces)
  {
    ReverseHolds(pieces, table);
    LegibleIsClean(pieces, table, {}, order);
    RestoresOriginal(pieces, table, order, reverse);
  }

  /**
   Substituting and restoring gives the text back under a condition that can be checked beforehand, on the
   text, the table and the aliases: no two replaced spellings share an alias, and no alias can be read into the
   kept text and the replaced originals, nor across their edges.
   */
  lemma LegibleRoundTrip(cs: bool, t: string, lookup: Lookup, keys: seq<string>, order: seq<string>,
                         pieces: seq<Piece>, table: Lookup, reverse: Lookup)
    requires Substituted(cs, t, lookup, keys, pieces, table, reverse) && RestoringOrder(order, reverse)
    requires Injective(pieces, table) && Legible(pieces, order)
    ensures Restorable(order, reverse) && RestoreAll(Output(pieces, table), order, reverse) == t
  {
    LegibleOriginal(pieces, table, order, reverse);
    PiecesAreText(cs, t, keys, lookup);
  }

  /** Each replaced key stands between characters, or ends of the text, that no alias holds. */
  ghost predicate Delimited(pieces: seq<Piece>, a: string)
    decreases pieces
  {
    pieces == [] || |pieces| == 1
    || (&& Delimited(pieces[1..], a)
        && (pieces[0].Replaced? ==> pieces[1].Kept? && pieces[1].c !in a)
        && (pieces[0].Kept? && pieces[1].Replaced? ==> pieces[0].c !in a))
  }

  lemma {:induction false} MeetsOccurs(w: string, pieces: seq<Piece>, a: string)
    requires w != "" && Meets(w, pieces) && Delimited(pieces, a) && pieces != [] && pieces[0].Kept?
    requires forall c :: c in w ==> c in a
    ensures StartsAt(Original(pieces), 0, w)
    decreases pieces
  {
    assert w[0] in w;
    if |w| > 1 {
      assert forall c :: c in w[1..] ==> c in w;
      MeetsOccurs(w[1..], pieces[1..], a);
      var rest := Original(pieces[1..]);
      assert Original(pieces) == [pieces[0].c] + rest;
      assert w == [w[0]] + w[1..] == [w[0]] + rest[..|w| - 1];
    }
  }

  lemma ContainsLater(u: string, t: string, a: string)
    requires Contains(t, a)
    ensures Contains(u + t, a)
  {
    var i :| 0 <= i <= |t| && StartsAt(t, i, a);
    assert (u + t)[|u| + i..|u| + i + |a|] == t[i..i + |a|];
    assert StartsAt(u + t, |u| + i, a);
  }

  lemma ContainsEarlier(u: string, t: string, a: string)
    requires Contains(u, a)
    ensures Contains(u + t, a)
  {
    var i :| 0 <= i <= |u| && StartsAt(u, i, a);
    assert (u + t)[i..i + |a|] == u[i..i + |a|];
    assert StartsAt(u + t, i, a);
  }

  lemma {:induction false} PlainUnread(pieces: seq<Piece>, a: string)
    requires a != "" && !Contains(Original(pieces), a) && Delimited(pieces, a)
    ensures Unread(pieces, a)
    decreases pieces
  {
    if pieces != [] {
      var p, rest := pieces[0], pieces[1..];
      var u := if p.Kept? then [p.c] else p.key;
      assert Original(pieces) == u + Original(rest);
      if Contains(Original(rest), a) {
        ContainsLater(u, Original(rest), a);
      }
      PlainUnread(rest, a);
      if p.Kept? {
        if Meets(a, pieces) {
          MeetsOccurs(a, pieces, a);
        }
      } else {
        if Contains(p.key, a) {
          ContainsEarlier(p.key, Original(rest), a);
        }
        assert forall k :: 0 < k < |a| ==> a[k..][0] == a[k] && a[k] in a;
      }
    }
  }

  /** In plain terms: no alias occurs in the text at all, and every replaced key stands apart. */
  lemma PlainRoundTrip(cs: bool, t: string, lookup: Lookup, keys: seq<string>, order: seq<string>,
                       pieces: seq<Piece>, table: Lookup, reverse: Lookup)
    requires Substituted(cs, t, lookup, keys, pieces, table, reverse)
    requires RestoringOrder(order, reverse) && Injective(pieces, table)
    requires forall a :: a in order ==> !Contains(t, a) && Delimited(pieces, a)
    ensures Restorable(order, reverse) && RestoreAll(Output(pieces, table), order, reverse) == t
  {
    ReverseHolds(pieces, table);
    PiecesAreText(cs, t, keys, lookup);
    forall a | a in order ensures a != "" && Unread(pieces, a) {
      PlainUnread(pieces, a);
    }
    LegibleRoundTrip(cs, t, lookup, keys, order, pieces, table, reverse);
  }

  // ----- One stage, exactly -----

  /** A stage of the text seen from one alias: its insertions, and the other characters. */
  datatype Unit = Plain(c: char) | Block

  function Written(units: seq<Unit>, a: string): string {
    if units == [] then "" else (if units[0].Plain? then [units[0].c] else a) + Written(units[1..], a)
  }

  /** No occurrence of the alias begins outside its insertions. */
  ghost predicate NoneStrays(units: seq<Unit>, a: string) {
    units == []
    || ((units[0].Plain? ==> !StartsAt(Written(units, a), 0, a)) && NoneStrays(units[1..], a))
  }

  /** Every occurrence outside the insertions keeps clear of them. */
  ghost predicate Apart(units: seq<Unit>, a: string) {
    units == []
    || (&& Apart(units[1..], a)
        && (units[0].Plain? && StartsAt(Written(units, a), 0, a)
            ==> |a| <= |units| && forall i :: 0 <= i < |a| ==> units[i].Plain?))
  }

  lemma {:induction false} ApartDrop(units: seq<Unit>, a: string, n: nat)
    requires Apart(units, a) && n <= |units|
    ensures Apart(units[n..], a)
    decreases n
  {
    if n > 0 {
      ApartDrop(units[1..], a, n - 1);
      assert units[1..][n - 1..] == units[n..];
    } else {
      assert units[0..] == units;
    }
  }

  /** A run of plain characters reads the same whatever stands for the insertions. */
  lemma {:induction false} PlainRun(units: seq<Unit>, n: nat, x: string, y: string)
    requires n <= |units| && forall i :: 0 <= i < n ==> units[i].Plain?
    ensures |Written(units, x)| >= n && |Written(units, y)| >= n && Written(units, x)[..n] == Written(units, y)[..n]
    ensures Written(units, x)[n..] == Written(units[n..], x) && Written(units, y)[n..] == Written(units[n..], y)
    decreases n
  {
    if n == 0 {
      assert units[0..] == units;
    } else {
      PlainRun(units[1..], n - 1, x, y);
      assert units[1..][n - 1..] == units[n..];
      var c := units[0].c;
      assert Written(units, x) == [c] + Written(units[1..], x) && Written(units, y) == [c] + Written(units[1..], y);
      assert Written(units, x)[..n] == [c] + Written(units[1..], x)[..n - 1];
      assert Written(units, y)[..n] == [c] + Written(units[1..], y)[..n - 1];
    }
  }

  /**
   If occurrences of the alias keep clear of its insertions, replacing them all restores exactly the
   insertions if and only if there are no others. (An alias that is its own original would not show.)
   */
  lemma {:induction false} ReplacedExactly(units: seq<Unit>, a: string, o: string)
    requires a != "" && a != o && Apart(units, a)
    ensures ReplaceAll(Written(units, a), a, o) == Written(units, o) <==> NoneStrays(units, a)
    ensures |o| >= |a| ==> |ReplaceAll(Written(units, a), a, o)| >= |Written(units, o)|
    ensures |o| <= |a| ==> |ReplaceAll(Written(units, a), a, o)| <= |Written(units, o)|
    decreases |units|, 1
  {
    if units != [] {
      var t, rest := Written(units, a), units[1..];
      if units[0].Block? {
        ReplacedExactly(rest, a, o);
        assert t[|a|..] == Written(rest, a) && StartsAt(t, 0, a);
        Cancels(o, ReplaceAll(Written(rest, a), a, o), Written(rest, o));
      } else if !StartsAt(t, 0, a) {
        ReplacedExactly(rest, a, o);
        assert t[1..] == Written(rest, a);
        Cancels([units[0].c], ReplaceAll(Written(rest, a), a, o), Written(rest, o));
      } else {
        StrayReplaced(units, a, o);
      }
    }
  }

  lemma Cancels(u: string, x: string, y: string)
    ensures u + x == u + y <==> x == y
  {
    assert (u + x)[|u|..] == x && (u + y)[|u|..] == y;
  }

  lemma {:induction false} StrayReplaced(units: seq<Unit>, a: string, o: string)
    requires a != "" && a != o && Apart(units, a) && units != [] && units[0].Plain? && StartsAt(Written(units, a), 0, a)
    ensures ReplaceAll(Written(units, a), a, o) != Written(units, o)
    ensures |o| >= |a| ==> |ReplaceAll(Written(units, a), a, o)| >= |Written(units, o)|
    ensures |o| <= |a| ==> |ReplaceAll(Written(units, a), a, o)| <= |Written(units, o)|
    decreases |units|, 0
  {
    var n := |a|;
    var after := units[n..];
    PlainRun(units, n, a, o);
    ApartDrop(units, a, n);
    ReplacedExactly(after, a, o);
    var x, y := ReplaceAll(Written(after, a), a, o), Written(after, o);
    assert ReplaceAll(Written(units, a), a, o) == o + x && Written(units, o) == a + y;
    if |o| == |a| {
      assert (o + x)[..n] == o && (a + y)[..n] == a;
    }
  }

  // ----- The same for the pieces of a cut -----

  function Plains(u: string): (r: seq<Unit>)
    ensures |r| == |u| && forall i :: 0 <= i < |u| ==> r[i] == Plain(u[i])
  {
    seq(|u|, i requires 0 <= i < |u| => Plain(u[i]))
  }

  /** A stage of the pieces as units of one alias. */
  function Flat(pieces: seq<Piece>, lookup: Lookup, done: set<string>, a: string): seq<Unit>
    requires forall p :: p in pieces ==> Known(p, lookup)
  {
    if pieces == [] then []
    else
      (if Inserted(pieces[0], lookup, done, a) then [Block] else Plains(Shown(pieces[0], lookup, done)))
      + Flat(pieces[1..], lookup, done, a)
  }

  lemma {:induction false} PlainsWritten(u: string, units: seq<Unit>, a: string)
    ensures Written(Plains(u) + units, a) == u + Written(units, a)
    ensures NoneStrays(Plains(u) + units, a)
        <==> NoneStrays(units, a) && forall x :: 0 <= x < |u| ==> !StartsAt(u + Written(units, a), x, a)
    decreases |u|
  {
    if u == "" {
      assert Plains(u) + units == units && u + Written(units, a) == Written(units, a);
    } else {
      var t, rest := u + Written(units, a), u[1..] + Written(units, a);
      PlainsWritten(u[1..], units, a);
      assert (Plains(u) + units)[1..] == Plains(u[1..]) + units;
      assert t == [u[0]] + rest && t[1..] == rest;
      StraysShifted(t, |u|, a);
    }
  }

  /** Occurrences among the first `n` places are those at the first place and those after it. */
  lemma StraysShifted(t: string, n: nat, a: string)
    requires t != "" && n > 0
    ensures (forall x :: 0 <= x < n ==> !StartsAt(t, x, a))
        <==> !StartsAt(t, 0, a) && (forall x :: 0 <= x < n - 1 ==> !StartsAt(t[1..], x, a))
  {
    forall x | 0 <= x < n - 1 ensures StartsAt(t[1..], x, a) == StartsAt(t, x + 1, a) {
      StartsShift(t, x, a);
    }
    hide StartsAt;
    if !StartsAt(t, 0, a) && forall x :: 0 <= x < n - 1 ==> !StartsAt(t[1..], x, a) {
      forall x | 0 <= x < n ensures !StartsAt(t, x, a) {
        if x > 0 {
          assert StartsAt(t[1..], x - 1, a) == StartsAt(t, x - 1 + 1, a);
        }
      }
    }
  }

  lemma {:induction false} FlatIsStage(pieces: seq<Piece>, lookup: Lookup, done: set<string>, a: string, o: string)
    requires Keyed(pieces, lookup) && a !in done
    requires forall k :: Replaced(k) in pieces && lookup[k] == a ==> k == o
    ensures Written(Flat(pieces, lookup, done, a), a) == Stage(pieces, lookup, done)
    ensures Written(Flat(pieces, lookup, done, a), o) == Stage(pieces, lookup, done + {a})
    ensures NoneStrays(Flat(pieces, lookup, done, a), a) <==> NoStray(pieces, lookup, done, a)
    decreases pieces
  {
    if pieces != [] {
      var p, rest := pieces[0], Flat(pieces[1..], lookup, done, a);
      FlatIsStage(pieces[1..], lookup, done, a, o);
      if Inserted(p, lookup, done, a) {
        assert Replaced(p.key) in pieces;
        assert ([Block] + rest)[1..] == rest;
      } else {
        PlainsWritten(Shown(p, lookup, done), rest, a);
        PlainsWritten(Shown(p, lookup, done), rest, o);
        assert Stage(pieces, lookup, done) == Shown(p, lookup, done) + Stage(pieces[1..], lookup, done);
      }
    }
  }

  /**
   Restoring one alias takes the text from one stage to the next if and only if the alias begins nowhere but
   where it was inserted, provided its occurrences do not overlap its insertions.
   */
  lemma StageExactly(pieces: seq<Piece>, lookup: Lookup, done: set<string>, a: string, o: string)
    requires Keyed(pieces, lookup) && a != "" && a != o && a !in done
    requires forall k :: Replaced(k) in pieces && lookup[k] == a ==> k == o
    requires Apart(Flat(pieces, lookup, done, a), a)
    ensures ReplaceAll(Stage(pieces, lookup, done), a, o) == Stage(pieces, lookup, done + {a})
        <==> NoStray(pieces, lookup, done, a)
  {
    FlatIsStage(pieces, lookup, done, a, o);
    ReplacedExactly(Flat(pieces, lookup, done, a), a, o);
  }

  /** Without the condition on occurrences it fails: an alias already in the text is restored too. */
  lemma OccurrenceMatters()
    ensures var lookup: Lookup := map["b" := "u"];
            var pieces := [Replaced("b"), Kept(' '), Kept('u')];
            && Scan(true, "b u", 0, ["b"]) == pieces
            && Reverse(pieces, lookup) == map["u" := "b"]
            && RestoreAll(Output(pieces, lookup), ["u"], map["u" := "b"]) == "b b"
  {
    OccurrenceScan();
    OccurrenceRestored();
  }

  lemma OccurrenceScan()
    ensures Scan(true, "b u", 0, ["b"]) == [Replaced("b"), Kept(' '), Kept('u')]
  {
    var keys := ["b"];
    assert MatchesAt(true, "b u", 0, "b") && !MatchesAt(true, "b u", 1, "b") && !MatchesAt(true, "b u", 2, "b");
    assert keys[1..] == [];
    assert Scan(true, "b u", 2, keys) == [Kept('u')];
    assert Scan(true, "b u", 1, keys) == [Kept(' '), Kept('u')];
  }

  lemma OccurrenceRestored()
    ensures var lookup: Lookup := map["b" := "u"];
            var pieces := [Replaced("b"), Kept(' '), Kept('u')];
            && Reverse(pieces, lookup) == map["u" := "b"]
            && RestoreAll(Output(pieces, lookup), ["u"], map["u" := "b"]) == "b b"
  {
    var lookup: Lookup := map["b" := "u"];
    var pieces := [Replaced("b"), Kept(' '), Kept('u')];
    assert pieces[1..] == [Kept(' '), Kept('u')] && pieces[1..][1..] == [Kept('u')] && [Kept('u')][1..] == [];
    assert Output(pieces, lookup) == "u u";
    assert pieces[..2] == [Replaced("b"), Kept(' ')] && pieces[..2][..1] == [Replaced("b")];
    assert [Replaced("b")][..0] == [];
    assert Reverse(pieces[..2], lookup) == Reverse([Replaced("b")], lookup) == map["u" := "b"];
    assert "u u"[1..] == " u" && " u"[1..] == "u" && "u"[1..] == "";
    assert ReplaceAll(" u", "u", "b") == " b";
    assert ["u"][1..] == [];
  }

  const ADDRESSES: Lookup := map["10.0.0.213" := "10.0.0.77", "10.0.0.5" := "10.0.0.21"]
  const ADDRESSES_CUT := [Replaced("10.0.0.213"), Kept(' '), Replaced("10.0.0.5")]
  const ADDRESSES_BACK: Lookup := map["10.0.0.77" := "10.0.0.213", "10.0.0.21" := "10.0.0.5"]
  const ADDRESSES_ORDER := ["10.0.0.77", "10.0.0.21"]

  /**
   Nor is it enough that no alias stands in the text as a word: one that begins another original is found in
   it once that one is restored. The table is a legal one for addresses.
   */
  lemma BeginningMatters()
    ensures Scan(true, "10.0.0.213 10.0.0.5", 0, ["10.0.0.213", "10.0.0.5"]) == ADDRESSES_CUT
    ensures Keyed(ADDRESSES_CUT, ADDRESSES) && Reverse(ADDRESSES_CUT, ADDRESSES) == ADDRESSES_BACK
    ensures forall i: nat :: !MatchesAt(true, "10.0.0.213 10.0.0.5", i, "10.0.0.77")
                             && !MatchesAt(true, "10.0.0.213 10.0.0.5", i, "10.0.0.21")
    ensures Restorable(ADDRESSES_ORDER, ADDRESSES_BACK)
    ensures RestoreAll(Output(ADDRESSES_CUT, ADDRESSES), ADDRESSES_ORDER, ADDRESSES_BACK) == "10.0.0.53 10.0.0.5"
  {
    BeginningScan();
    BeginningWords();
    BeginningReversed();
    BeginningRestored();
  }

  lemma BeginningMatches()
    ensures var t := "10.0.0.213 10.0.0.5";
            && MatchesAt(true, t, 0, "10.0.0.213") && MatchesAt(true, t, 11, "10.0.0.5")
            && !MatchesAt(true, t, 10, "10.0.0.213") && !MatchesAt(true, t, 10, "10.0.0.5")
            && !MatchesAt(true, t, 11, "10.0.0.213")
  {
    var t := "10.0.0.213 10.0.0.5";
    assert t[0..10] == "10.0.0.213" && t[11..19] == "10.0.0.5" && |t| == 19;
    assert t[10..18][0] == ' ';
  }

  lemma PickTwo(t: string, i: nat, k: string, l: string)
    ensures Pick(true, t, i, [k, l])
         == if MatchesAt(true, t, i, k) then Some(k) else if MatchesAt(true, t, i, l) then Some(l) else None
  {
    assert [k, l][1..] == [l] && [l][1..] == [];
  }

  /** Where no key matches the pass keeps the character. */
  lemma ScanKeeps(t: string, i: nat, k: string, l: string)
    requires i < |t| && !MatchesAt(true, t, i, k) && !MatchesAt(true, t, i, l)
    ensures Scan(true, t, i, [k, l]) == [Kept(t[i])] + Scan(true, t, i + 1, [k, l])
  {
    PickTwo(t, i, k, l);
    FirstIsPicked(true, t, i, [k, l]);
    ScanCons(true, t, i, [k, l]);
    hide MatchesAt, Pick, Scan, FirstPiece;
  }

  lemma ScanPicks(t: string, i: nat, k: string, l: string, key: string)
    requires i < |t| && MatchesAt(true, t, i, key)
    requires key == k || (key == l && !MatchesAt(true, t, i, k))
    ensures i + |key| <= |t| && Scan(true, t, i, [k, l]) == [Replaced(key)] + Scan(true, t, i + |key|, [k, l])
  {
    assert t[i..i + |key|] == key;
    PickTwo(t, i, k, l);
    FirstIsPicked(true, t, i, [k, l]);
    ScanCons(true, t, i, [k, l]);
    hide MatchesAt, Pick, Scan, FirstPiece;
  }

  lemma ScanEnds(cs: bool, t: string, i: nat, keys: seq<string>)
    requires i >= |t|
    ensures Scan(cs, t, i, keys) == []
  {
  }

  lemma BeginningScan()
    ensures Scan(true, "10.0.0.213 10.0.0.5", 0, ["10.0.0.213", "10.0.0.5"])
         == ADDRESSES_CUT
  {
    var t, k, l := "10.0.0.213 10.0.0.5", "10.0.0.213", "10.0.0.5";
    var keys := [k, l];
    BeginningMatches();
    hide MatchesAt, Pick, Scan;
    ScanPicks(t, 0, k, l, k);
    ScanKeeps(t, 10, k, l);
    ScanPicks(t, 11, k, l, l);
    ScanEnds(true, t, 19, keys);
  }

  lemma BeginningWords()
    ensures forall i: nat :: !MatchesAt(true, "10.0.0.213 10.0.0.5", i, "10.0.0.77")
                             && !MatchesAt(true, "10.0.0.213 10.0.0.5", i, "10.0.0.21")
  {
    var t := "10.0.0.213 10.0.0.5";
    assert !Boundary(t, 9);
    forall i: nat ensures !MatchesAt(true, t, i, "10.0.0.77") && !MatchesAt(true, t, i, "10.0.0.21") {
      if i + 9 <= |t| {
        assert t[i..i + 9][7] == t[i + 7] && t[i..i + 9][8] == t[i + 8];
      }
    }
  }

  lemma BeginningReversed()
    ensures Keyed(ADDRESSES_CUT, ADDRESSES) && Reverse(ADDRESSES_CUT, ADDRESSES) == ADDRESSES_BACK
    ensures Output(ADDRESSES_CUT, ADDRESSES) == "10.0.0.77 10.0.0.21"
  {
    var lookup, pieces := ADDRESSES, ADDRESSES_CUT;
    assert pieces[1..] == [Kept(' '), Replaced("10.0.0.5")] && pieces[1..][1..] == [Replaced("10.0.0.5")];
    assert [Replaced("10.0.0.5")][1..] == [];
    assert Stage([Replaced("10.0.0.5")], lookup, {}) == "10.0.0.21";
    assert Stage(pieces[1..], lookup, {}) == " 10.0.0.21";
    assert pieces[..2] == [Replaced("10.0.0.213"), Kept(' ')] && pieces[..2][..1] == [Replaced("10.0.0.213")];
    assert [Replaced("10.0.0.213")][..0] == [];
    assert Reverse([Replaced("10.0.0.213")], lookup) == map["10.0.0.77" := "10.0.0.213"];
    assert Reverse(pieces[..2], lookup) == Reverse([Replaced("10.0.0.213")], lookup);
  }

  lemma BeginningRestored()
    ensures Restorable(ADDRESSES_ORDER, ADDRESSES_BACK)
    ensures RestoreAll("10.0.0.77 10.0.0.21", ADDRESSES_ORDER, ADDRESSES_BACK) == "10.0.0.53 10.0.0.5"
  {
    assert ADDRESSES_ORDER[1..] == ["10.0.0.21"] && ["10.0.0.21"][1..] == [];
    BeginningFirst();
    BeginningSecond();
  }

  lemma ReplaceStart(a: string, rest: string, o: string)
    requires a != ""
    ensures ReplaceAll(a + rest, a, o) == o + ReplaceAll(rest, a, o)
  {
    assert (a + rest)[0..|a|] == a && (a + rest)[|a|..] == rest;
  }

  lemma ReplaceOther(c: char, rest: string, a: string, o: string)
    requires a != "" && c != a[0]
    ensures ReplaceAll([c] + rest, a, o) == [c] + ReplaceAll(rest, a, o)
  {
    var t := [c] + rest;
    assert t[1..] == rest;
    if |a| <= |t| {
      assert t[0..|a|][0] == c;
    }
  }

  lemma LetterAbsent(t: string, a: string, k: nat)
    requires k < |a| && a[k] !in t
    ensures !Contains(t, a)
  {
    forall i | 0 <= i <= |t| ensures !StartsAt(t, i, a) {
      if i + |a| <= |t| {
        assert t[i..i + |a|][k] == t[i + k];
      }
    }
  }

  lemma BeginningFirst()
    ensures ReplaceAll("10.0.0.77 10.0.0.21", "10.0.0.77", "10.0.0.213") == "10.0.0.213 10.0.0.21"
  {
    hide ReplaceAll, Contains;
    assert "10.0.0.77 10.0.0.21" == "10.0.0.77" + " 10.0.0.21";
    ReplaceStart("10.0.0.77", " 10.0.0.21", "10.0.0.213");
    LetterAbsent(" 10.0.0.21", "10.0.0.77", 7);
    ReplaceAbsent(" 10.0.0.21", "10.0.0.77", "10.0.0.213");
  }

  lemma BeginningSpelt()
    ensures "10.0.0.213 10.0.0.21" == "10.0.0.21" + ("3" + (" " + ("10.0.0.21" + "")))
    ensures "10.0.0.53 10.0.0.5" == "10.0.0.5" + ("3" + (" " + ("10.0.0.5" + "")))
  {
  }

  lemma BeginningSecond()
    ensures ReplaceAll("10.0.0.213 10.0.0.21", "10.0.0.21", "10.0.0.5") == "10.0.0.53 10.0.0.5"
  {
    ReplacedAround("10.0.0.21", '3', ' ', "10.0.0.5");
    BeginningSpelt();
  }

  lemma ReplacedAround(a: string, c: char, d: char, o: string)
    requires a != "" && c != a[0] && d != a[0]
    ensures ReplaceAll(a + ([c] + ([d] + (a + ""))), a, o) == o + ([c] + ([d] + (o + "")))
  {
    assert ReplaceAll("", a, o) == "";
    hide ReplaceAll;
    ReplaceStart(a, "", o);
    ReplaceOther(d, a + "", a, o);
    ReplaceOther(c, [d] + (a + ""), a, o);
    ReplaceStart(a, [c] + ([d] + (a + "")), o);
  }

  // ----- Strays may cancel -----

  const CANCELLING: Lookup := map["11z" := "1z", "1" := "11"]
  const CANCELLED := [Replaced("1"), Kept(' '), Replaced("11z"), Kept(' '), Kept('1'), Kept('1'), Kept('z'), Kept('9')]

  const CANCEL_ORDER := ["11", "1z"]
  const CANCEL_BACK: Lookup := map["11" := "1", "1z" := "11z"]

  /**
   A clean text is not necessary, which is why the round trip is no equivalence: here the first alias is read
   where none was inserted, and what that spoils the second restoration happens to mend.
   */
  lemma StraysMayCancel()
    ensures Alternation(["11z", "1"], CANCELLING) && Scan(true, "1 11z 11z9", 0, ["11z", "1"]) == CANCELLED
    ensures Keyed(CANCELLED, CANCELLING) && Injective(CANCELLED, CANCELLING)
    ensures Reverse(CANCELLED, CANCELLING) == CANCEL_BACK && RestoringOrder(CANCEL_ORDER, CANCEL_BACK)
    ensures Restorable(CANCEL_ORDER, CANCEL_BACK) && !Clean(CANCELLED, CANCELLING, {}, CANCEL_ORDER)
    ensures RestoreAll(Output(CANCELLED, CANCELLING), CANCEL_ORDER, CANCEL_BACK) == "1 11z 11z9"
  {
    hide *;
    CancellingTable();
    CancellingOrder();
    CancellingScan();
    CancellingReverse();
    CancellingStrays();
    CancellingShown();
    CancellingRestored();
  }

  lemma CancellingTable()
    ensures Alternation(["11z", "1"], CANCELLING) && Keyed(CANCELLED, CANCELLING) && Injective(CANCELLED, CANCELLING)
  {
    assert "11z" in ["11z", "1"] && "1" in ["11z", "1"];
    assert "11"[1] == '1' && "1z"[1] == 'z';
  }

  lemma CancellingOrder()
    ensures RestoringOrder(CANCEL_ORDER, CANCEL_BACK) && Restorable(CANCEL_ORDER, CANCEL_BACK)
  {
    assert "11" in CANCEL_ORDER && "1z" in CANCEL_ORDER;
    assert "11"[1] == '1' && "1z"[1] == 'z';
  }

  lemma CancellingMatches()
    ensures var t := "1 11z 11z9";
            && MatchesAt(true, t, 0, "1") && MatchesAt(true, t, 2, "11z")
            && forall i: nat :: i !in {0, 2} ==> !MatchesAt(true, t, i, "11z") && !MatchesAt(true, t, i, "1")
    ensures !MatchesAt(true, "1 11z 11z9", 0, "11z")
  {
    var t := "1 11z 11z9";
    assert t[0..1] == "1" && t[2..5] == "11z" && t[0..3][1] == ' ';
    assert t[1] == ' ' && t[5] == ' ' && !Boundary(t, 9) && !Boundary(t, 7) && !Boundary(t, 8) && !Boundary(t, 4);
    forall i: nat | i !in {0, 2} ensures !MatchesAt(true, t, i, "11z") && !MatchesAt(true, t, i, "1") {
      if i < 10 {
        assert i + 1 <= 10 ==> t[i..i + 1][0] == t[i];
        assert i + 3 <= 10 ==> t[i..i + 3][0] == t[i];
        assert i == 1 || i == 3 || i == 4 || i == 5 || i == 6 || i == 7 || i == 8 || i == 9;
      }
    }
  }

  lemma CancellingScan()
    ensures Scan(true, "1 11z 11z9", 0, ["11z", "1"]) == CANCELLED
  {
    var t, k, l := "1 11z 11z9", "11z", "1";
    CancellingMatches();
    hide MatchesAt, Pick, Scan;
    ScanKeeps(t, 9, k, l);
    ScanKeeps(t, 8, k, l);
    ScanKeeps(t, 7, k, l);
    ScanKeeps(t, 6, k, l);
    ScanKeeps(t, 5, k, l);
    ScanPicks(t, 2, k, l, k);
    ScanKeeps(t, 1, k, l);
    ScanPicks(t, 0, k, l, l);
    ScanEnds(true, t, 10, [k, l]);
  }

  lemma CancellingReverse()
    ensures Reverse(CANCELLED, CANCELLING) == CANCEL_BACK
  {
    var first, second := [Replaced("1")], [Replaced("1"), Kept(' '), Replaced("11z")];
    assert CANCELLED == second + CANCELLED[3..];
    assert second[..2] == first + [Kept(' ')] && first[..0] == [];
    assert Reverse(first, CANCELLING) == map["11" := "1"];
    ReverseKept(first, [Kept(' ')], CANCELLING);
    ReverseKept(second, CANCELLED[3..], CANCELLING);
  }

  lemma StageFrom(pieces: seq<Piece>, lookup: Lookup, n: nat)
    requires n < |pieces| && forall p :: p in pieces ==> Known(p, lookup)
    ensures Stage(pieces[n..], lookup, {}) == Shown(pieces[n], lookup, {}) + Stage(pieces[n + 1..], lookup, {})
  {
    assert pieces[n..][1..] == pieces[n + 1..];
  }

  lemma CancellingTail()
    ensures Stage(CANCELLED[4..], CANCELLING, {}) == "11z9"
  {
    var c := CANCELLED;
    assert c[8..] == [] && Stage(c[8..], CANCELLING, {}) == "";
    hide Stage;
    StageFrom(c, CANCELLING, 7);
    assert Stage(c[7..], CANCELLING, {}) == "9";
    StageFrom(c, CANCELLING, 6);
    assert Stage(c[6..], CANCELLING, {}) == "z9";
    StageFrom(c, CANCELLING, 5);
    StageFrom(c, CANCELLING, 4);
  }

  lemma CancellingShown()
    ensures Output(CANCELLED, CANCELLING) == "11 1z 11z9"
  {
    var c := CANCELLED;
    hide Stage;
    CancellingTail();
    StageFrom(c, CANCELLING, 3);
    StageFrom(c, CANCELLING, 2);
    assert Stage(c[2..], CANCELLING, {}) == "1z 11z9";
    StageFrom(c, CANCELLING, 1);
    StageFrom(c, CANCELLING, 0);
    assert c[0..] == c;
  }

  lemma {:induction false} NoStrayLater(pieces: seq<Piece>, lookup: Lookup, done: set<string>, a: string, n: nat)
    requires (forall p :: p in pieces ==> Known(p, lookup)) && NoStray(pieces, lookup, done, a) && n <= |pieces|
    ensures NoStray(pieces[n..], lookup, done, a)
    decreases n
  {
    if n > 0 {
      NoStrayLater(pieces[1..], lookup, done, a, n - 1);
      assert pieces[1..][n - 1..] == pieces[n..];
    } else {
      assert pieces[0..] == pieces;
    }
  }

  lemma StrayAt(pieces: seq<Piece>, lookup: Lookup, a: string, n: nat)
    requires (forall p :: p in pieces ==> Known(p, lookup)) && n < |pieces| && pieces[n].Kept?
    requires StartsAt(Stage(pieces[n..], lookup, {}), 0, a)
    ensures !NoStray(pieces, lookup, {}, a)
  {
    assert |Shown(pieces[n], lookup, {})| == 1;
    if NoStray(pieces, lookup, {}, a) {
      NoStrayLater(pieces, lookup, {}, a, n);
    }
  }

  lemma CancellingStrays()
    ensures !Clean(CANCELLED, CANCELLING, {}, CANCEL_ORDER)
  {
    assert StartsAt("11z9", 0, "11");
    hide NoStray, StartsAt, Stage;
    CancellingTail();
    StrayAt(CANCELLED, CANCELLING, "11", 4);
  }

  lemma CancellingRestored()
    requires Restorable(CANCEL_ORDER, CANCEL_BACK)
    ensures RestoreAll("11 1z 11z9", CANCEL_ORDER, CANCEL_BACK) == "1 11z 11z9"
  {
    assert CANCEL_ORDER[1..] == ["1z"] && ["1z"][1..] == [];
    CancellingFirst();
    CancellingSecond();
  }

  lemma ReplacedTwice(a: string, u: string, w: string, o: string)
    requires a != "" && !Contains(w, a) && forall x :: 0 <= x < |u| ==> !StartsAt(u + (a + w), x, a)
    ensures ReplaceAll(a + (u + (a + w)), a, o) == o + (u + (o + w))
  {
    hide ReplaceAll, Contains, StartsAt;
    ReplaceAbsent(w, a, o);
    ReplaceStart(a, w, o);
    ReplaceSkips(u, a + w, a, o);
    ReplaceStart(a, u + (a + w), o);
  }

  lemma FirstSpelt()
    ensures "11 1z 11z9" == "11" + (" 1z " + ("11" + "z9")) && "1 1z 1z9" == "1" + (" 1z " + ("1" + "z9"))
    ensures forall x :: 0 <= x < 4 ==> !StartsAt(" 1z " + ("11" + "z9"), x, "11")
  {
    var t := " 1z " + ("11" + "z9");
    assert t[0..2] == " 1" && t[1..3] == "1z" && t[2..4] == "z " && t[3..5] == " 1";
  }

  lemma CancellingFirst()
    ensures ReplaceAll("11 1z 11z9", "11", "1") == "1 1z 1z9"
  {
    hide ReplaceAll, Contains, StartsAt;
    LetterAbsent("z9", "11", 0);
    FirstSpelt();
    ReplacedTwice("11", " 1z ", "z9", "1");
  }

  lemma SecondSpelt()
    ensures "1 1z 1z9" == "1 " + ("1z" + (" " + ("1z" + "9"))) && "1 11z 11z9" == "1 " + ("11z" + (" " + ("11z" + "9")))
    ensures forall x :: 0 <= x < 2 ==> !StartsAt("1 " + ("1z" + (" " + ("1z" + "9"))), x, "1z")
    ensures forall x :: 0 <= x < 1 ==> !StartsAt(" " + ("1z" + "9"), x, "1z")
  {
    var t := "1 " + ("1z" + (" " + ("1z" + "9")));
    assert t[0..2] == "1 " && t[1..3] == " 1" && t[3..5] == "z ";
    assert (" " + ("1z" + "9"))[0..2] == " 1";
  }

  lemma CancellingSecond()
    ensures ReplaceAll("1 1z 1z9", "1z", "11z") == "1 11z 11z9"
  {
    hide ReplaceAll, Contains, StartsAt;
    LetterAbsent("9", "1z", 0);
    SecondSpelt();
    ReplaceSkips("1 ", "1z" + (" " + ("1z" + "9")), "1z", "11z");
    ReplacedTwice("1z", " ", "9", "11z");
  }
}
