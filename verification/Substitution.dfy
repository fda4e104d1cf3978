/**
 The substitution engine of anonymize.py: one left-to-right pass that replaces whole-word keys,
 the longest first.

 The regular expression is an alternation of the literal keys, longest first, between two word
 boundaries: with case (`cs`) for domains and addresses, without for hosts and users.
 */
module Substitution {
  import opened Text
  import opened Wrappers

  type Lookup = map<string, string>

  predicate IsWord(c: char) {
    'a' <= Fold(c) <= 'z' || '0' <= c <= '9' || c == '_'
  }

  /** A word boundary at offset `i`. */
  predicate Boundary(t: string, i: nat)
    requires i <= |t|
  {
    (i > 0 && IsWord(t[i - 1])) != (i < |t| && IsWord(t[i]))
  }

  /** The text is the key, letter for letter; or, without regard to case, its letters fold to the key's. */
  predicate Spells(cs: bool, m: string, k: string) {
    if cs then m == k else |m| == |k| && forall j :: 0 <= j < |k| ==> Fold(m[j]) == Fold(k[j])
  }

  predicate MatchesAt(cs: bool, t: string, i: nat, k: string) {
    && k != "" && i + |k| <= |t| && Spells(cs, t[i..i + |k|], k)
    && Boundary(t, i) && Boundary(t, i + |k|)
  }

  /** Of the ASCII characters, the word characters are the English letters, the digits and the underscore. */
  lemma AsciiWords(c: char)
    requires c as int < 128
    ensures IsWord(c) <==> 'a' <= c <= 'z' || 'A' <= c <= 'Z' || '0' <= c <= '9' || c == '_'
  {
  }

  /**
   A key that begins and ends with a word character matches exactly where it is spelled as a whole word: no
   word character right before it or after it, so never inside a longer address or name.
   */
  lemma WholeWords(cs: bool, t: string, i: nat, k: string)
    requires k != "" && IsWord(k[0]) && IsWord(k[|k| - 1])
    ensures MatchesAt(cs, t, i, k)
        <==> && i + |k| <= |t| && Spells(cs, t[i..i + |k|], k)
             && (i == 0 || !IsWord(t[i - 1])) && (i + |k| == |t| || !IsWord(t[i + |k|]))
  {
    if i + |k| <= |t| && Spells(cs, t[i..i + |k|], k) {
      var m := t[i..i + |k|];
      assert m[0] == t[i] && m[|k| - 1] == t[i + |k| - 1];
      assert Fold(m[0]) == Fold(k[0]) && Fold(m[|k| - 1]) == Fold(k[|k| - 1]);
    }
  }

  /** The keys that take part: those with a non-empty name and alias. */
  predicate Usable(lookup: Lookup, k: string) {
    k in lookup && k != "" && lookup[k] != ""
  }

  ghost predicate LongestFirst(keys: seq<string>) {
    forall i, j :: 0 <= i < j < |keys| ==> |keys[i]| >= |keys[j]|
  }

  /** The alternation: the usable keys, longest first. */
  ghost predicate Alternation(keys: seq<string>, lookup: Lookup) {
    LongestFirst(keys) && forall k :: k in keys <==> Usable(lookup, k)
  }

  /** The first alternative that matches at `i`. */
  function Pick(cs: bool, t: string, i: nat, keys: seq<string>): (k: Option<string>)
    ensures k.Some? ==> k.value in keys && MatchesAt(cs, t, i, k.value)
  {
    if keys == [] then None
    else if MatchesAt(cs, t, i, keys[0]) then Some(keys[0])
    else Pick(cs, t, i, keys[1..])
  }

  /** A piece of the scanned text: a copied character, or a matched text to replace, in the spelling it has there. */
  datatype Piece = Kept(c: char) | Replaced(key: string)

  function Width(p: Piece): nat {
    match p
    case Kept(_) => 1
    case Replaced(k) => |k|
  }

  function FirstPiece(cs: bool, t: string, i: nat, keys: seq<string>): (p: Piece)
    requires i < |t|
    ensures i < i + Width(p) <= |t|
  {
    match Pick(cs, t, i, keys)
    case Some(k) => Replaced(t[i..i + |k|])
    case None => Kept(t[i])
  }

  /** The pass over the text from `i` on. */
  function Scan(cs: bool, t: string, i: nat, keys: seq<string>): seq<Piece>
    decreases |t| - i
  {
    if i >= |t| then []
    else
      var p := FirstPiece(cs, t, i, keys);
      [p] + Scan(cs, t, i + Width(p), keys)
  }

  /** All replaced keys of the cut are usable. */
  ghost predicate Keyed(pieces: seq<Piece>, lookup: Lookup) {
    forall k :: Replaced(k) in pieces ==> Usable(lookup, k)
  }

  predicate Known(p: Piece, lookup: Lookup) {
    p.Replaced? ==> p.key in lookup
  }

  /** How a piece reads once the aliases of `done` are restored. */
  function Shown(p: Piece, lookup: Lookup, done: set<string>): string
    requires Known(p, lookup)
  {
    match p
    case Kept(c) => [c]
    case Replaced(k) => if lookup[k] in done then k else lookup[k]
  }

  /** The whole text once the aliases of `done` are restored. */
  function Stage(pieces: seq<Piece>, lookup: Lookup, done: set<string>): string
    requires forall p :: p in pieces ==> Known(p, lookup)
  {
    if pieces == [] then "" else Shown(pieces[0], lookup, done) + Stage(pieces[1..], lookup, done)
  }

  /** The substituted text. */
  function Output(pieces: seq<Piece>, lookup: Lookup): string
    requires forall p :: p in pieces ==> Known(p, lookup)
  {
    Stage(pieces, lookup, {})
  }

  function Noted(reverse: Lookup, p: Piece, lookup: Lookup): Lookup
    requires Known(p, lookup)
  {
    match p
    case Kept(_) => reverse
    case Replaced(k) => reverse[lookup[k] := k]
  }

  /** The reverse table: alias to the text it replaced, the last replacement winning. */
  function Reverse(pieces: seq<Piece>, lookup: Lookup): Lookup
    requires forall p :: p in pieces ==> Known(p, lookup)
  {
    if pieces == [] then map[]
    else Noted(Reverse(pieces[..|pieces| - 1], lookup), pieces[|pieces| - 1], lookup)
  }

  lemma {:induction false} PickIsFirst(cs: bool, t: string, i: nat, keys: seq<string>)
    ensures match Pick(cs, t, i, keys)
            case None => forall k :: k in keys ==> !MatchesAt(cs, t, i, k)
            case Some(k) => k in keys && MatchesAt(cs, t, i, k)
                            && (LongestFirst(keys) ==> forall j :: j in keys && MatchesAt(cs, t, i, j) ==> |j| <= |k|)
  {
    if keys != [] {
      PickIsFirst(cs, t, i, keys[1..]);
      if MatchesAt(cs, t, i, keys[0]) && LongestFirst(keys) {
        forall j | j in keys ensures |j| <= |keys[0]| {
          var n :| 0 <= n < |keys| && keys[n] == j;
        }
      } else if LongestFirst(keys) {
        assert LongestFirst(keys[1..]);
      }
    }
  }

  /** `k` is a longest key that matches at `i`. */
  ghost predicate Longest(cs: bool, t: string, i: nat, k: string, lookup: Lookup) {
    && Usable(lookup, k) && MatchesAt(cs, t, i, k)
    && forall j :: Usable(lookup, j) && MatchesAt(cs, t, i, j) ==> |j| <= |k|
  }

  /** What may stand at `i` in a leftmost-longest cut: the longest matching text, or a character no key matches. */
  ghost predicate FirstOfCut(cs: bool, t: string, i: nat, p: Piece, lookup: Lookup) {
    i < |t|
    && match p
       case Kept(c) => c == t[i] && forall k :: Usable(lookup, k) ==> !MatchesAt(cs, t, i, k)
       case Replaced(m) => exists k :: Longest(cs, t, i, k, lookup) && m == t[i..i + |k|]
  }

  lemma FirstIsFirst(cs: bool, t: string, i: nat, keys: seq<string>, lookup: Lookup)
    requires Alternation(keys, lookup) && i < |t|
    ensures FirstOfCut(cs, t, i, FirstPiece(cs, t, i, keys), lookup)
  {
    PickIsFirst(cs, t, i, keys);
  }

  /**
   A cut of the text from `i` on into kept characters, where no key matches, and replaced keys,
   each the longest that matches at its place. The order of the keys plays no part.
   */
  ghost predicate LeftmostLongest(cs: bool, t: string, i: nat, pieces: seq<Piece>, lookup: Lookup)
    decreases pieces
  {
    if pieces == [] then i == |t|
    else FirstOfCut(cs, t, i, pieces[0], lookup) && LeftmostLongest(cs, t, i + Width(pieces[0]), pieces[1..], lookup)
  }

  lemma FirstUnique(cs: bool, t: string, i: nat, p: Piece, q: Piece, lookup: Lookup)
    requires FirstOfCut(cs, t, i, p, lookup) && FirstOfCut(cs, t, i, q, lookup)
    ensures p == q
  {
    if p.Replaced? && q.Replaced? {
      var j :| Longest(cs, t, i, j, lookup) && p.key == t[i..i + |j|];
      var k :| Longest(cs, t, i, k, lookup) && q.key == t[i..i + |k|];
      assert |j| == |k|;
    }
  }

  lemma CutCons(cs: bool, t: string, i: nat, p: Piece, rest: seq<Piece>, lookup: Lookup)
    ensures LeftmostLongest(cs, t, i, [p] + rest, lookup)
        <==> FirstOfCut(cs, t, i, p, lookup) && LeftmostLongest(cs, t, i + Width(p), rest, lookup)
  {
    assert ([p] + rest)[1..] == rest;
  }

  /** The pass's piece is what may stand first, everywhere in the text. */
  ghost predicate PicksFirst(cs: bool, t: string, keys: seq<string>, lookup: Lookup) {
    forall i: nat | i < |t| :: FirstOfCut(cs, t, i, FirstPiece(cs, t, i, keys), lookup)
  }

  lemma PassPicksFirst(cs: bool, t: string, keys: seq<string>, lookup: Lookup)
    requires Alternation(keys, lookup)
    ensures PicksFirst(cs, t, keys, lookup)
  {
    forall i: nat | i < |t| ensures FirstOfCut(cs, t, i, FirstPiece(cs, t, i, keys), lookup) {
      FirstIsFirst(cs, t, i, keys, lookup);
    }
  }

  lemma PassForced(cs: bool, t: string, i: nat, p: Piece, rest: seq<Piece>, keys: seq<string>, lookup: Lookup)
    requires PicksFirst(cs, t, keys, lookup) && LeftmostLongest(cs, t, i, [p] + rest, lookup)
    ensures i < |t| && p == FirstPiece(cs, t, i, keys) && LeftmostLongest(cs, t, i + Width(p), rest, lookup)
  {
    CutCons(cs, t, i, p, rest, lookup);
    FirstUnique(cs, t, i, p, FirstPiece(cs, t, i, keys), lookup);
  }

  lemma PassCuts(cs: bool, t: string, i: nat, rest: seq<Piece>, keys: seq<string>, lookup: Lookup)
    requires PicksFirst(cs, t, keys, lookup) && i < |t|
    requires LeftmostLongest(cs, t, i + Width(FirstPiece(cs, t, i, keys)), rest, lookup)
    ensures LeftmostLongest(cs, t, i, [FirstPiece(cs, t, i, keys)] + rest, lookup)
  {
    hide FirstOfCut, FirstPiece;
    CutCons(cs, t, i, FirstPiece(cs, t, i, keys), rest, lookup);
  }

  /** There is only one leftmost-longest cut: the pass's. */
  lemma {:induction false} CutIsScan(cs: bool, t: string, i: nat, pieces: seq<Piece>, keys: seq<string>, lookup: Lookup)
    requires PicksFirst(cs, t, keys, lookup) && i <= |t| && LeftmostLongest(cs, t, i, pieces, lookup)
    ensures pieces == Scan(cs, t, i, keys)
    decreases pieces
  {
    hide FirstOfCut, FirstPiece;
    if pieces != [] {
      var p, rest := pieces[0], pieces[1..];
      assert pieces == [p] + rest;
      PassForced(cs, t, i, p, rest, keys, lookup);
      CutIsScan(cs, t, i + Width(p), rest, keys, lookup);
    }
  }

  lemma {:induction false} ScanCuts(cs: bool, t: string, i: nat, keys: seq<string>, lookup: Lookup)
    requires PicksFirst(cs, t, keys, lookup) && i <= |t|
    ensures LeftmostLongest(cs, t, i, Scan(cs, t, i, keys), lookup)
    decreases |t| - i
  {
    hide FirstOfCut, FirstPiece;
    if i < |t| {
      var w := Width(FirstPiece(cs, t, i, keys));
      ScanCuts(cs, t, i + w, keys, lookup);
      PassCuts(cs, t, i, Scan(cs, t, i + w, keys), keys, lookup);
    }
  }

  /** The regular expression pass computes the leftmost-longest cut, and nothing else does. */
  lemma ScanIsLeftmostLongest(cs: bool, t: string, keys: seq<string>, lookup: Lookup, pieces: seq<Piece>)
    requires Alternation(keys, lookup)
    ensures pieces == Scan(cs, t, 0, keys) <==> LeftmostLongest(cs, t, 0, pieces, lookup)
  {
    PassPicksFirst(cs, t, keys, lookup);
    ScanCuts(cs, t, 0, keys, lookup);
    if LeftmostLongest(cs, t, 0, pieces, lookup) {
      CutIsScan(cs, t, 0, pieces, keys, lookup);
    }
  }

  // ----- The aliases of the matches -----

  /** The letters that a pattern without case takes for English ones, but whose lower case is not. */
  predicate Odd(c: char) {
    c == '\U{017F}' || c == '\U{0130}' || c == '\U{0131}'
  }

  /** Lower case: a dotted capital I gives two characters. */
  function LowerOf(c: char): string {
    if c == '\U{0130}' then "i\U{0307}" else if Odd(c) then [c] else [Fold(c)]
  }

  function Lowered(m: string): string {
    if m == "" then "" else LowerOf(m[0]) + Lowered(m[1..])
  }

  predicate Named(keys: seq<string>, lookup: Lookup) {
    forall k :: k in keys ==> k in lookup
  }

  /** The folded index: of the keys with this lower case, the last one's alias. */
  function LastFolded(low: string, keys: seq<string>, lookup: Lookup): Option<string>
    requires Named(keys, lookup)
  {
    if keys == [] then None
    else
      var n := |keys| - 1;
      if Lowered(keys[n]) == low then Some(lookup[keys[n]]) else LastFolded(low, keys[..n], lookup)
  }

  /** The alias of a matched text: its own if it is a key, else, without regard to case, that of its lower case. */
  function Resolve(cs: bool, m: string, keys: seq<string>, lookup: Lookup): Option<string>
    requires Named(keys, lookup)
  {
    if m in keys then Some(lookup[m]) else if cs then None else LastFolded(Lowered(m), keys, lookup)
  }

  function Copied(u: string): (r: seq<Piece>)
    ensures |r| == |u| && forall i :: 0 <= i < |u| ==> r[i] == Kept(u[i])
  {
    seq(|u|, i requires 0 <= i < |u| => Kept(u[i]))
  }

  /** A matched text without an alias is copied. */
  function Settled(cs: bool, p: Piece, keys: seq<string>, lookup: Lookup): seq<Piece>
    requires Named(keys, lookup)
  {
    if p.Replaced? && Resolve(cs, p.key, keys, lookup).None? then Copied(p.key) else [p]
  }

  function Settle(cs: bool, cut: seq<Piece>, keys: seq<string>, lookup: Lookup): seq<Piece>
    requires Named(keys, lookup)
  {
    if cut == [] then [] else Settled(cs, cut[0], keys, lookup) + Settle(cs, cut[1..], keys, lookup)
  }

  /** The pass's pieces: its matches that have an alias, in their spelling, and all else character by character. */
  ghost function Pieces(cs: bool, t: string, keys: seq<string>, lookup: Lookup): seq<Piece>
    requires Alternation(keys, lookup)
  {
    Settle(cs, Scan(cs, t, 0, keys), keys, lookup)
  }

  /** The aliases of the spellings that the text has. */
  ghost function Table(cs: bool, pieces: seq<Piece>, keys: seq<string>, lookup: Lookup): Lookup
    requires Alternation(keys, lookup)
  {
    map p | p in pieces && p.Replaced? && Resolve(cs, p.key, keys, lookup).Some?
      :: p.key := Resolve(cs, p.key, keys, lookup).value
  }

  lemma {:induction false} FoldedAliasUsable(low: string, keys: seq<string>, lookup: Lookup)
    requires Named(keys, lookup) && forall k :: k in keys ==> Usable(lookup, k)
    ensures LastFolded(low, keys, lookup).Some? ==> LastFolded(low, keys, lookup).value != ""
  {
    if keys != [] {
      assert keys[|keys| - 1] in keys;
      FoldedAliasUsable(low, keys[..|keys| - 1], lookup);
    }
  }

  lemma FirstNotEmpty(cs: bool, t: string, i: nat, keys: seq<string>)
    requires i < |t|
    ensures var p := FirstPiece(cs, t, i, keys); p.Replaced? ==> p.key != ""
  {
  }

  lemma {:induction false} ScanNotEmpty(cs: bool, t: string, i: nat, keys: seq<string>)
    ensures forall m :: Replaced(m) in Scan(cs, t, i, keys) ==> m != ""
    decreases |t| - i
  {
    if i < |t| {
      FirstNotEmpty(cs, t, i, keys);
      hide FirstPiece;
      ScanNotEmpty(cs, t, i + Width(FirstPiece(cs, t, i, keys)), keys);
    }
  }

  lemma {:induction false} SettledIn(cs: bool, cut: seq<Piece>, keys: seq<string>, lookup: Lookup)
    requires Named(keys, lookup)
    ensures forall m :: Replaced(m) in Settle(cs, cut, keys, lookup)
                   <==> Replaced(m) in cut && Resolve(cs, m, keys, lookup).Some?
  {
    if cut != [] {
      SettledIn(cs, cut[1..], keys, lookup);
      hide Resolve;
      assert cut == [cut[0]] + cut[1..];
    }
  }

  /** Every matched text that is replaced has its alias in the table, and neither is empty. */
  lemma PiecesKeyed(cs: bool, t: string, keys: seq<string>, lookup: Lookup)
    requires Alternation(keys, lookup)
    ensures var pieces := Pieces(cs, t, keys, lookup);
            Keyed(pieces, Table(cs, pieces, keys, lookup))
            && forall p :: p in pieces ==> Known(p, Table(cs, pieces, keys, lookup))
  {
    var cut, pieces := Scan(cs, t, 0, keys), Pieces(cs, t, keys, lookup);
    ScanNotEmpty(cs, t, 0, keys);
    SettledIn(cs, cut, keys, lookup);
    forall m | Replaced(m) in pieces ensures Usable(Table(cs, pieces, keys, lookup), m) {
      FoldedAliasUsable(Lowered(m), keys, lookup);
    }
  }

  lemma {:induction false} StageAppend(pieces: seq<Piece>, more: seq<Piece>, lookup: Lookup, done: set<string>)
    requires forall q :: q in pieces + more ==> Known(q, lookup)
    ensures forall q :: q in pieces || q in more ==> Known(q, lookup)
    ensures Stage(pieces + more, lookup, done) == Stage(pieces, lookup, done) + Stage(more, lookup, done)
  {
    assert forall q :: q in pieces || q in more ==> q in pieces + more;
    if pieces == [] {
      assert pieces + more == more;
    } else {
      assert (pieces + more)[1..] == pieces[1..] + more;
      StageAppend(pieces[1..], more, lookup, done);
    }
  }

  /** Copied characters leave no trace in the reverse table. */
  lemma {:induction false} ReverseKept(pieces: seq<Piece>, tail: seq<Piece>, lookup: Lookup)
    requires forall p :: p in pieces + tail ==> Known(p, lookup)
    requires forall p :: p in tail ==> p.Kept?
    ensures Reverse(pieces + tail, lookup) == Reverse(pieces, lookup)
    decreases |tail|
  {
    var n := |tail|;
    if n == 0 {
      assert pieces + tail == pieces;
    } else {
      var all := pieces + tail;
      assert all[..|all| - 1] == pieces + tail[..n - 1] && all[|all| - 1] == tail[n - 1];
      assert forall p :: p in pieces + tail[..n - 1] ==> p in all;
      ReverseKept(pieces, tail[..n - 1], lookup);
    }
  }

  lemma {:induction false} CopiedStage(u: string, lookup: Lookup, done: set<string>)
    ensures Stage(Copied(u), lookup, done) == u
  {
    if u != "" {
      CopiedStage(u[1..], lookup, done);
      assert Copied(u)[1..] == Copied(u[1..]);
    }
  }

  /** The pass has come to `i`, having settled `pieces` and built up `out` and `reverse` from them. */
  ghost predicate Halfway(cs: bool, t: string, i: nat, table: Lookup, keys: seq<string>, lookup: Lookup,
                          pieces: seq<Piece>, out: string, reverse: Lookup)
    requires Alternation(keys, lookup)
  {
    && i <= |t| && Pieces(cs, t, keys, lookup) == pieces + Settle(cs, Scan(cs, t, i, keys), keys, lookup)
    && (forall p :: p in pieces ==> Known(p, table))
    && out == Output(pieces, table) && reverse == Reverse(pieces, table)
  }

  lemma SettleCons(cs: bool, p: Piece, rest: seq<Piece>, keys: seq<string>, lookup: Lookup)
    requires Named(keys, lookup)
    ensures Settle(cs, [p] + rest, keys, lookup) == Settled(cs, p, keys, lookup) + Settle(cs, rest, keys, lookup)
  {
    assert ([p] + rest)[1..] == rest;
  }

  lemma ScanCons(cs: bool, t: string, i: nat, keys: seq<string>)
    requires i < |t|
    ensures var p := FirstPiece(cs, t, i, keys);
            i + Width(p) <= |t| && Scan(cs, t, i, keys) == [p] + Scan(cs, t, i + Width(p), keys)
  {
  }

  lemma AlternationNamed(keys: seq<string>, lookup: Lookup)
    requires Alternation(keys, lookup)
    ensures Named(keys, lookup)
  {
  }

  lemma PiecesStep(cs: bool, t: string, i: nat, keys: seq<string>, lookup: Lookup, pieces: seq<Piece>)
    requires Alternation(keys, lookup) && i < |t|
    requires Pieces(cs, t, keys, lookup) == pieces + Settle(cs, Scan(cs, t, i, keys), keys, lookup)
    ensures var p := FirstPiece(cs, t, i, keys);
            Pieces(cs, t, keys, lookup)
            == pieces + Settled(cs, p, keys, lookup) + Settle(cs, Scan(cs, t, i + Width(p), keys), keys, lookup)
  {
    hide *;
    AlternationNamed(keys, lookup);
    var p := FirstPiece(cs, t, i, keys);
    ScanCons(cs, t, i, keys);
    SettleCons(cs, p, Scan(cs, t, i + Width(p), keys), keys, lookup);
  }

  /** What copied characters add to the text and to the reverse table. */
  lemma CopiedStep(pieces: seq<Piece>, u: string, table: Lookup)
    requires forall q :: q in pieces ==> Known(q, table)
    ensures forall q :: q in pieces + Copied(u) ==> Known(q, table)
    ensures Output(pieces + Copied(u), table) == Output(pieces, table) + u
    ensures Reverse(pieces + Copied(u), table) == Reverse(pieces, table)
  {
    hide Stage, Reverse;
    StageAppend(pieces, Copied(u), table, {});
    ReverseKept(pieces, Copied(u), table);
    CopiedStage(u, table, {});
  }

  /** What a replaced text adds to them. */
  lemma ReplacedStep(pieces: seq<Piece>, m: string, table: Lookup)
    requires (forall q :: q in pieces ==> Known(q, table)) && m in table
    ensures forall q :: q in pieces + [Replaced(m)] ==> Known(q, table)
    ensures Output(pieces + [Replaced(m)], table) == Output(pieces, table) + table[m]
    ensures Reverse(pieces + [Replaced(m)], table) == Reverse(pieces, table)[table[m] := m]
  {
    var p := Replaced(m);
    assert [p][1..] == [] && (pieces + [p])[..|pieces|] == pieces;
    StageAppend(pieces, [p], table, {});
  }

  lemma SettledStep(cs: bool, pieces: seq<Piece>, p: Piece, keys: seq<string>, lookup: Lookup, table: Lookup)
    requires Named(keys, lookup) && forall q :: q in pieces ==> Known(q, table)
    requires p.Replaced? && Resolve(cs, p.key, keys, lookup).Some? ==>
               p.key in table && table[p.key] == Resolve(cs, p.key, keys, lookup).value
    ensures var all := pieces + Settled(cs, p, keys, lookup);
            var alias := if p.Kept? then None else Resolve(cs, p.key, keys, lookup);
            && (forall q :: q in all ==> Known(q, table))
            && Output(all, table) == Output(pieces, table)
                 + (if p.Kept? then [p.c] else if alias.Some? then alias.value else p.key)
            && Reverse(all, table) == if alias.Some? then Reverse(pieces, table)[alias.value := p.key]
                                      else Reverse(pieces, table)
  {
    hide Stage, Reverse, Resolve, Output;
    if p.Replaced? && Resolve(cs, p.key, keys, lookup).Some? {
      ReplacedStep(pieces, p.key, table);
    } else if p.Replaced? {
      CopiedStep(pieces, p.key, table);
    } else {
      CopiedStep(pieces, [p.c], table);
      assert Copied([p.c]) == [p];
    }
  }

  lemma HalfwayStep(cs: bool, t: string, i: nat, table: Lookup, keys: seq<string>, lookup: Lookup, pieces: seq<Piece>,
                    out: string, reverse: Lookup)
    requires Alternation(keys, lookup) && Halfway(cs, t, i, table, keys, lookup, pieces, out, reverse) && i < |t|
    requires table == Table(cs, Pieces(cs, t, keys, lookup), keys, lookup)
    ensures var p := FirstPiece(cs, t, i, keys);
            var alias := if p.Kept? then None else Resolve(cs, p.key, keys, lookup);
            Halfway(cs, t, i + Width(p), table, keys, lookup, pieces + Settled(cs, p, keys, lookup),
                    out + (if p.Kept? then [p.c] else if alias.Some? then alias.value else p.key),
                    if alias.Some? then reverse[alias.value := p.key] else reverse)
  {
    var p := FirstPiece(cs, t, i, keys);
    PiecesKeyed(cs, t, keys, lookup);
    PiecesStep(cs, t, i, keys, lookup, pieces);
    hide Pieces, Keyed, FirstPiece, Resolve, Settle, Scan, Stage, Reverse;
    assert forall q :: q in pieces + Settled(cs, p, keys, lookup) ==> q in Pieces(cs, t, keys, lookup);
    assert p.Replaced? && Resolve(cs, p.key, keys, lookup).Some? ==> p in Pieces(cs, t, keys, lookup) by {
      assert Settled(cs, p, keys, lookup) == [p] || p.Kept? || Resolve(cs, p.key, keys, lookup).None?;
    }
    SettledStep(cs, pieces, p, keys, lookup, table);
  }

  lemma FirstIsPicked(cs: bool, t: string, i: nat, keys: seq<string>)
    requires i < |t|
    ensures match Pick(cs, t, i, keys)
            case Some(k) => i + |k| <= |t| && k != "" && FirstPiece(cs, t, i, keys) == Replaced(t[i..i + |k|])
            case None => FirstPiece(cs, t, i, keys) == Kept(t[i])
  {
  }

  lemma HalfwayEnd(cs: bool, t: string, i: nat, table: Lookup, keys: seq<string>, lookup: Lookup,
                   pieces: seq<Piece>, out: string, reverse: Lookup)
    requires Alternation(keys, lookup) && Halfway(cs, t, i, table, keys, lookup, pieces, out, reverse) && i >= |t|
    ensures pieces == Pieces(cs, t, keys, lookup) && forall p :: p in pieces ==> Known(p, table)
    ensures out == Output(pieces, table) && reverse == Reverse(pieces, table)
  {
    assert pieces + [] == pieces;
  }

  lemma HalfwayStart(cs: bool, t: string, table: Lookup, keys: seq<string>, lookup: Lookup)
    requires Alternation(keys, lookup)
    ensures Halfway(cs, t, 0, table, keys, lookup, [], "", map[])
  {
    var all := Pieces(cs, t, keys, lookup);
    assert [] + all == all;
  }

  /** One round of the pass. */
  lemma PassStep(cs: bool, t: string, i: nat, table: Lookup, keys: seq<string>, lookup: Lookup, pieces: seq<Piece>,
                 out: string, reverse: Lookup)
    requires Alternation(keys, lookup) && Halfway(cs, t, i, table, keys, lookup, pieces, out, reverse) && i < |t|
    requires table == Table(cs, Pieces(cs, t, keys, lookup), keys, lookup)
    ensures var more := pieces + Settled(cs, FirstPiece(cs, t, i, keys), keys, lookup);
            match Pick(cs, t, i, keys)
            case None => Halfway(cs, t, i + 1, table, keys, lookup, more, out + [t[i]], reverse)
            case Some(k) =>
              && i + |k| <= |t| && k != ""
              && var m := t[i..i + |k|];
                 match Resolve(cs, m, keys, lookup)
                 case Some(alias) =>
                   Halfway(cs, t, i + |k|, table, keys, lookup, more, out + alias, reverse[alias := m])
                 case None => Halfway(cs, t, i + |k|, table, keys, lookup, more, out + m, reverse)
  {
    hide Pieces, Halfway, FirstPiece, Resolve, Settled, Pick, Table;
    HalfwayStep(cs, t, i, table, keys, lookup, pieces, out, reverse);
    FirstIsPicked(cs, t, i, keys);
  }

  /** The pass itself: the text is rebuilt match by match and the reverse table filled on the way. */
  method Substitute(cs: bool, t: string, lookup: Lookup, keys: seq<string>) returns (out: string, reverse: Lookup)
    requires Alternation(keys, lookup)
    ensures var pieces := Pieces(cs, t, keys, lookup);
            var table := Table(cs, pieces, keys, lookup);
            && Keyed(pieces, table) && (forall p :: p in pieces ==> Known(p, table))
            && out == Output(pieces, table) && reverse == Reverse(pieces, table)
  {
    hide *;
    PiecesKeyed(cs, t, keys, lookup);
    AlternationNamed(keys, lookup);
    ghost var table := Table(cs, Pieces(cs, t, keys, lookup), keys, lookup);
    out, reverse := "", map[];
    var i := 0;
    ghost var pieces := [];
    HalfwayStart(cs, t, table, keys, lookup);
    while i < |t|
      invariant Halfway(cs, t, i, table, keys, lookup, pieces, out, reverse)
      decreases |t| - i
    {
      PassStep(cs, t, i, table, keys, lookup, pieces, out, reverse);
      pieces := pieces + Settled(cs, FirstPiece(cs, t, i, keys), keys, lookup);
      match Pick(cs, t, i, keys) {
        case Some(k) =>
          var matched := t[i..i + |k|];
          match Resolve(cs, matched, keys, lookup) {
            case Some(alias) =>
              reverse := reverse[alias := matched];
              out := out + alias;
            case None =>
              out := out + matched;
          }
          i := i + |k|;
        case None =>
          out := out + [t[i]];
          i := i + 1;
      }
    }
    HalfwayEnd(cs, t, i, table, keys, lookup, pieces, out, reverse);
  }
}
