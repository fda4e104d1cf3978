/**
 Letter case in the substitution pass of anonymize.py: which spelling of a key gets its alias, and what
 becomes of the spellings when the text is restored.
 */
module Spelling {
  import opened Restoration
  import opened Substitution
  import opened Text
  import opened Wrappers

  /** The text is some key's spelling. */
  ghost predicate SpellsKey(cs: bool, m: string, keys: seq<string>) {
    exists k :: k in keys && Spells(cs, m, k)
  }

  lemma FirstSpells(cs: bool, t: string, i: nat, keys: seq<string>)
    requires i < |t|
    ensures var p := FirstPiece(cs, t, i, keys); p.Replaced? ==> SpellsKey(cs, p.key, keys)
  {
  }

  lemma {:induction false} ScanSpells(cs: bool, t: string, i: nat, keys: seq<string>)
    ensures forall m :: Replaced(m) in Scan(cs, t, i, keys) ==> SpellsKey(cs, m, keys)
    decreases |t| - i
  {
    if i < |t| {
      FirstSpells(cs, t, i, keys);
      hide FirstPiece, SpellsKey;
      ScanSpells(cs, t, i + Width(FirstPiece(cs, t, i, keys)), keys);
    }
  }

  // ----- With case -----

  lemma {:induction false} KeysSettle(cut: seq<Piece>, keys: seq<string>, lookup: Lookup)
    requires Named(keys, lookup) && forall m :: Replaced(m) in cut ==> m in keys
    ensures Settle(true, cut, keys, lookup) == cut
  {
    if cut != [] {
      assert cut[0].Replaced? ==> Replaced(cut[0].key) in cut;
      assert cut == [cut[0]] + cut[1..];
      KeysSettle(cut[1..], keys, lookup);
    }
  }

  /** With case every match is replaced, by the alias of the key that it is. */
  lemma CaseKept(t: string, keys: seq<string>, lookup: Lookup)
    requires Alternation(keys, lookup)
    ensures var pieces := Pieces(true, t, keys, lookup);
            && pieces == Scan(true, t, 0, keys)
            && forall m :: Replaced(m) in pieces ==>
                 && m in keys && m in Table(true, pieces, keys, lookup)
                 && Table(true, pieces, keys, lookup)[m] == lookup[m]
  {
    ScanSpells(true, t, 0, keys);
    KeysSettle(Scan(true, t, 0, keys), keys, lookup);
    PiecesKeyed(true, t, keys, lookup);
  }

  // ----- Without case -----

  predicate Ascii(m: string) {
    forall c :: c in m ==> c as int < 128
  }

  /** It has only letters whose lower case is the English letter they match. */
  predicate Even(m: string) {
    forall c :: c in m ==> !Odd(c)
  }

  lemma {:induction false} EvenLowered(m: string)
    requires Even(m)
    ensures |Lowered(m)| == |m| && forall i :: 0 <= i < |m| ==> Lowered(m)[i] == Fold(m[i])
  {
    if m != "" {
      assert forall c :: c in m[1..] ==> c in m;
      EvenLowered(m[1..]);
      assert m[0] in m && forall i :: 0 < i < |m| ==> m[i] == m[1..][i - 1];
    }
  }

  lemma AsciiLowered(m: string)
    requires Ascii(m)
    ensures Ascii(Lowered(m))
  {
    EvenLowered(m);
    forall c | c in Lowered(m) ensures c as int < 128 {
      var i :| 0 <= i < |m| && Lowered(m)[i] == c;
      assert m[i] in m;
    }
  }

  /** An odd letter leaves a trace in the lower case that no key has. */
  lemma {:induction false} OddLowered(m: string)
    requires !Even(m)
    ensures !Ascii(Lowered(m))
  {
    if Odd(m[0]) {
      assert LowerOf(m[0])[|LowerOf(m[0])| - 1] in Lowered(m);
    } else {
      var c :| c in m && Odd(c);
      assert c in m[1..];
      OddLowered(m[1..]);
      var d :| d in Lowered(m[1..]) && d as int >= 128;
      assert d in Lowered(m);
    }
  }

  lemma SameLowered(m: string, k: string)
    requires Spells(false, m, k) && Even(m) && Even(k)
    ensures Lowered(m) == Lowered(k)
  {
    EvenLowered(m);
    EvenLowered(k);
  }

  /** The folded index holds the alias of the last key with that lower case. */
  lemma {:induction false} LastFoldedFinds(low: string, keys: seq<string>, lookup: Lookup)
    requires Named(keys, lookup)
    ensures match LastFolded(low, keys, lookup)
            case None => forall k :: k in keys ==> Lowered(k) != low
            case Some(alias) =>
              exists n :: 0 <= n < |keys| && keys[n] in lookup && Lowered(keys[n]) == low && alias == lookup[keys[n]]
                          && forall j :: n < j < |keys| ==> Lowered(keys[j]) != low
  {
    hide Lowered;
    if keys != [] {
      var n := |keys| - 1;
      var front := keys[..n];
      assert keys[n] in keys && forall k :: k in front ==> k in keys;
      if Lowered(keys[n]) != low {
        LastFoldedFinds(low, front, lookup);
        assert forall k :: k in keys ==> k == keys[n] || k in front;
        assert forall j :: 0 <= j < n ==> front[j] == keys[j];
      }
    }
  }

  /**
   The replacement function finds no alias for some texts that the pattern matches, for all that its comment
   says: for English keys, exactly those with a letter whose lower case is none of English.
   */
  lemma ResolvedExactly(m: string, k: string, keys: seq<string>, lookup: Lookup)
    requires Named(keys, lookup) && k in keys && Spells(false, m, k) && forall j :: j in keys ==> Ascii(j)
    ensures Resolve(false, m, keys, lookup).Some? <==> Even(m)
  {
    LastFoldedFinds(Lowered(m), keys, lookup);
    if Even(m) {
      SameLowered(m, k);
    } else {
      OddLowered(m);
      forall j | j in keys ensures Lowered(j) != Lowered(m) && j != m {
        AsciiLowered(j);
        assert Even(j);
      }
    }
  }

  /** Otherwise it finds the alias of the matching key, if keys that differ in case only share theirs. */
  lemma AliasOfKey(m: string, k: string, keys: seq<string>, lookup: Lookup)
    requires Named(keys, lookup) && k in keys && Spells(false, m, k) && Even(m) && Even(k)
    requires forall j :: j in keys && Lowered(j) == Lowered(k) ==> lookup[j] == lookup[k]
    ensures Resolve(false, m, keys, lookup) == Some(lookup[k])
  {
    SameLowered(m, k);
    LastFoldedFinds(Lowered(m), keys, lookup);
  }

  /** The alias is that of a key of the same length. */
  lemma ResolvedWidth(m: string, keys: seq<string>, lookup: Lookup)
    requires Named(keys, lookup) && SpellsKey(false, m, keys) && (forall j :: j in keys ==> Ascii(j))
    requires Resolve(false, m, keys, lookup).Some?
    ensures exists k :: k in keys && |k| == |m| && Resolve(false, m, keys, lookup).value == lookup[k]
  {
    var k :| k in keys && Spells(false, m, k);
    ResolvedExactly(m, k, keys, lookup);
    LastFoldedFinds(Lowered(m), keys, lookup);
    if m !in keys {
      var n :| 0 <= n < |keys| && Lowered(keys[n]) == Lowered(m)
               && Resolve(false, m, keys, lookup).value == lookup[keys[n]];
      assert keys[n] in keys;
      EvenLowered(m);
      EvenLowered(keys[n]);
    }
  }

  lemma PickOne(cs: bool, t: string, i: nat, k: string)
    ensures Pick(cs, t, i, [k]) == if MatchesAt(cs, t, i, k) then Some(k) else None
  {
    assert [k][1..] == [];
  }

  /** The pass with one key. */
  lemma OneKeyPass(cs: bool, t: string, i: nat, k: string)
    requires i < |t|
    ensures MatchesAt(cs, t, i, k) ==>
              Scan(cs, t, i, [k]) == [Replaced(t[i..i + |k|])] + Scan(cs, t, i + |k|, [k])
    ensures !MatchesAt(cs, t, i, k) ==> Scan(cs, t, i, [k]) == [Kept(t[i])] + Scan(cs, t, i + 1, [k])
  {
    PickOne(cs, t, i, k);
    FirstIsPicked(cs, t, i, [k]);
    ScanCons(cs, t, i, [k]);
    hide MatchesAt, Pick, Scan, FirstPiece;
  }

  /** Such a spelling of a key is left in the text. */
  lemma OddSpellingKept()
    ensures var lookup: Lookup := map["user" := "alias"];
            var t := "u\U{017F}er";
            && Alternation(["user"], lookup) && MatchesAt(false, t, 0, "user")
            && Pieces(false, t, ["user"], lookup) == Copied(t)
  {
    var lookup: Lookup := map["user" := "alias"];
    var t, keys := "u\U{017F}er", ["user"];
    OddMatches();
    hide MatchesAt, Scan, Resolve;
    OneKeyPass(false, t, 0, "user");
    ScanEnds(false, t, 4, keys);
    ResolvedExactly(t, "user", keys, lookup);
    SettleCons(false, Replaced(t), [], keys, lookup);
    assert [Replaced(t)] + [] == [Replaced(t)] && Copied(t) + [] == Copied(t);
  }

  lemma OddMatches()
    ensures var t := "u\U{017F}er";
            && Alternation(["user"], map["user" := "alias"]) && Ascii("user") && !Even(t)
            && MatchesAt(false, t, 0, "user") && Spells(false, t, "user") && t[0..4] == t
  {
    var t := "u\U{017F}er";
    assert "user" in ["user"] && t[0..4] == t && t[1] in t && Odd(t[1]);
  }

  // ----- Restoring -----

  /** The pieces as they are restored: every alias has one spelling, that of its last insertion. */
  ghost function Respelt(pieces: seq<Piece>, table: Lookup, reverse: Lookup): (r: seq<Piece>)
    ensures |r| == |pieces|
  {
    seq(|pieces|, i requires 0 <= i < |pieces| => RespeltPiece(pieces[i], table, reverse))
  }

  ghost function RespeltPiece(p: Piece, table: Lookup, reverse: Lookup): Piece {
    if p.Replaced? && p.key in table && table[p.key] in reverse then Replaced(reverse[table[p.key]]) else p
  }

  /** Spellings with the same alias have the same length. */
  ghost predicate SameWidth(pieces: seq<Piece>, table: Lookup)
    requires Keyed(pieces, table)
  {
    forall j, k :: Replaced(j) in pieces && Replaced(k) in pieces && table[j] == table[k] ==> |j| == |k|
  }

  /** They do if the keys do. */
  lemma KeysSameWidth(cs: bool, t: string, lookup: Lookup, keys: seq<string>, pieces: seq<Piece>, table: Lookup,
                      reverse: Lookup)
    requires Substituted(cs, t, lookup, keys, pieces, table, reverse)
    requires !cs ==> forall k :: k in keys ==> Ascii(k)
    requires forall j, k :: j in keys && k in keys && lookup[j] == lookup[k] ==> |j| == |k|
    ensures SameWidth(pieces, table)
  {
    ScanSpells(cs, t, 0, keys);
    SettledIn(cs, Scan(cs, t, 0, keys), keys, lookup);
    hide Scan, Settle;
    forall m | Replaced(m) in pieces ensures exists k :: k in keys && |k| == |m| && table[m] == lookup[k] {
      if !cs {
        ResolvedWidth(m, keys, lookup);
      }
    }
  }

  lemma RespeltIn(pieces: seq<Piece>, table: Lookup, reverse: Lookup)
    requires Keyed(pieces, table) && reverse == Reverse(pieces, table)
    ensures forall j :: Replaced(j) in Respelt(pieces, table, reverse) ==>
              Replaced(j) in pieces && table[j] in reverse && reverse[table[j]] == j
    ensures forall k :: Replaced(k) in pieces ==>
              table[k] in reverse && Replaced(reverse[table[k]]) in Respelt(pieces, table, reverse)
  {
    var r := Respelt(pieces, table, reverse);
    ReverseHolds(pieces, table);
    forall j | Replaced(j) in r ensures Replaced(j) in pieces && table[j] in reverse && reverse[table[j]] == j {
      var i :| 0 <= i < |r| && r[i] == Replaced(j);
      assert pieces[i] in pieces && pieces[i].Replaced? && pieces[i] == Replaced(pieces[i].key);
    }
    forall k | Replaced(k) in pieces ensures table[k] in reverse && Replaced(reverse[table[k]]) in r {
      var i :| 0 <= i < |pieces| && pieces[i] == Replaced(k);
      assert r[i] == Replaced(reverse[table[k]]);
    }
  }

  lemma RespeltTable(pieces: seq<Piece>, table: Lookup, reverse: Lookup)
    requires Keyed(pieces, table) && reverse == Reverse(pieces, table)
    ensures var r := Respelt(pieces, table, reverse);
            Keyed(r, table) && Injective(r, table) && Reverse(r, table) == reverse
  {
    var r := Respelt(pieces, table, reverse);
    RespeltIn(pieces, table, reverse);
    ReverseHolds(pieces, table);
    ReverseHolds(r, table);
  }

  lemma {:induction false} RespeltOutput(pieces: seq<Piece>, table: Lookup, reverse: Lookup)
    requires forall p :: p in pieces ==> Known(p, table) && Known(RespeltPiece(p, table, reverse), table)
    requires forall a :: a in reverse ==> reverse[a] in table && table[reverse[a]] == a
    ensures forall p :: p in Respelt(pieces, table, reverse) ==> Known(p, table)
    ensures Output(Respelt(pieces, table, reverse), table) == Output(pieces, table)
  {
    var r := Respelt(pieces, table, reverse);
    forall p | p in r ensures Known(p, table) {
      var i :| 0 <= i < |r| && r[i] == p;
      assert pieces[i] in pieces;
    }
    if pieces != [] {
      RespeltOutput(pieces[1..], table, reverse);
      assert r[1..] == Respelt(pieces[1..], table, reverse);
      assert pieces[0] in pieces;
    }
  }

  /** Texts of equal cuts are equal, and only those, if the pieces have the same widths. */
  lemma {:induction false} OriginalExactly(pieces: seq<Piece>, r: seq<Piece>)
    requires |r| == |pieces| && forall i :: 0 <= i < |r| ==> Width(r[i]) == Width(pieces[i])
    requires forall i :: 0 <= i < |r| ==> r[i].Kept? == pieces[i].Kept?
    ensures Original(r) == Original(pieces) <==> r == pieces
  {
    if pieces != [] {
      var u := if pieces[0].Kept? then [pieces[0].c] else pieces[0].key;
      var w := if r[0].Kept? then [r[0].c] else r[0].key;
      var x, y := Original(pieces[1..]), Original(r[1..]);
      OriginalExactly(pieces[1..], r[1..]);
      assert |u| == |w| == Width(r[0]);
      assert (u + x)[..|u|] == u && (w + y)[..|w|] == w && (u + x)[|u|..] == x && (w + y)[|w|..] == y;
      assert pieces == [pieces[0]] + pieces[1..] && r == [r[0]] + r[1..];
    }
  }

  lemma SpeltAlike(pieces: seq<Piece>, table: Lookup, reverse: Lookup)
    requires Keyed(pieces, table) && reverse == Reverse(pieces, table)
    ensures Respelt(pieces, table, reverse) == pieces <==> Injective(pieces, table)
  {
    var r := Respelt(pieces, table, reverse);
    RespeltIn(pieces, table, reverse);
    ReverseHolds(pieces, table);
    if r == pieces {
      forall j, k | Replaced(j) in pieces && Replaced(k) in pieces && table[j] == table[k] ensures j == k {
        assert Replaced(j) in r && Replaced(k) in r;
      }
    } else {
      var i :| 0 <= i < |pieces| && r[i] != pieces[i];
      assert pieces[i] in pieces && pieces[i] == Replaced(pieces[i].key);
    }
  }

  lemma RestoredExactly(pieces: seq<Piece>, table: Lookup, order: seq<string>, reverse: Lookup)
    requires Keyed(pieces, table) && reverse == Reverse(pieces, table) && RestoringOrder(order, reverse)
    requires SameWidth(pieces, table) && Legible(Respelt(pieces, table, reverse), order)
    ensures Restorable(order, reverse)
    ensures RestoreAll(Output(pieces, table), order, reverse) == Original(Respelt(pieces, table, reverse))
    ensures Original(Respelt(pieces, table, reverse)) == Original(pieces) <==> Injective(pieces, table)
  {
    var r := Respelt(pieces, table, reverse);
    RespeltTable(pieces, table, reverse);
    LegibleOriginal(r, table, order, reverse);
    RespeltIn(pieces, table, reverse);
    ReverseHolds(pieces, table);
    forall p | p in pieces ensures Known(p, table) && Known(RespeltPiece(p, table, reverse), table) {
      assert p.Replaced? ==> p == Replaced(p.key);
    }
    RespeltOutput(pieces, table, reverse);
    SpeltAlike(pieces, table, reverse);
    forall i | 0 <= i < |r| ensures Width(r[i]) == Width(pieces[i]) && r[i].Kept? == pieces[i].Kept? {
      if pieces[i].Replaced? {
        assert pieces[i] in pieces && pieces[i] == Replaced(pieces[i].key);
      }
    }
    OriginalExactly(pieces, r);
  }

  /**
   When no alias can be read where none was inserted, and spellings with the same alias have the same length,
   as those of one key have, restoring gives the text back if and only if every alias was inserted for one
   spelling only.
   */
  lemma SpelledExactly(cs: bool, t: string, lookup: Lookup, keys: seq<string>, order: seq<string>,
                       pieces: seq<Piece>, table: Lookup, reverse: Lookup)
    requires Substituted(cs, t, lookup, keys, pieces, table, reverse) && RestoringOrder(order, reverse)
    requires SameWidth(pieces, table) && Legible(Respelt(pieces, table, reverse), order)
    ensures Restorable(order, reverse)
    ensures RestoreAll(Output(pieces, table), order, reverse) == t <==> Injective(pieces, table)
  {
    RestoredExactly(pieces, table, order, reverse);
    PiecesAreText(cs, t, keys, lookup);
  }

  const HOSTS: Lookup := map["ab" := "x"]
  const TWO_SPELLINGS := [Replaced("Ab"), Kept(' '), Replaced("ab")]
  const SPELT: Lookup := map["Ab" := "x", "ab" := "x"]

  /** Two spellings of a host are restored as one. */
  lemma SpellingsMerge()
    ensures Alternation(["ab"], HOSTS) && Pieces(false, "Ab ab", ["ab"], HOSTS) == TWO_SPELLINGS
    ensures Table(false, TWO_SPELLINGS, ["ab"], HOSTS) == SPELT && Keyed(TWO_SPELLINGS, SPELT)
    ensures Reverse(TWO_SPELLINGS, SPELT) == map["x" := "ab"] && Restorable(["x"], map["x" := "ab"])
    ensures Output(TWO_SPELLINGS, SPELT) == "x x" && RestoreAll("x x", ["x"], map["x" := "ab"]) == "ab ab"
  {
    MergingResolved();
    MergingScan();
    MergingShown();
    MergingRestored();
    hide Scan, Resolve, Stage, Reverse, RestoreAll;
    var k, l, m := Replaced("Ab"), Kept(' '), Replaced("ab");
    SettleCons(false, k, [l, m], ["ab"], HOSTS);
    SettleCons(false, l, [m], ["ab"], HOSTS);
    SettleCons(false, m, [], ["ab"], HOSTS);
    assert [k] + [l, m] == TWO_SPELLINGS && [l] + [m] == [l, m] && [m] + [] == [m];
    assert k in TWO_SPELLINGS && m in TWO_SPELLINGS;
  }

  lemma MergingResolved()
    ensures Alternation(["ab"], HOSTS) && Named(["ab"], HOSTS)
    ensures Resolve(false, "Ab", ["ab"], HOSTS) == Some("x") && Resolve(false, "ab", ["ab"], HOSTS) == Some("x")
  {
    assert "ab" in ["ab"];
    AliasOfKey("Ab", "ab", ["ab"], HOSTS);
  }

  lemma MergingMatches()
    ensures var t := "Ab ab";
            MatchesAt(false, t, 0, "ab") && !MatchesAt(false, t, 2, "ab") && MatchesAt(false, t, 3, "ab")
            && t[0..2] == "Ab" && t[2] == ' ' && t[3..5] == "ab"
  {
    var t := "Ab ab";
    assert t[0..2] == "Ab" && t[3..5] == "ab" && t[2..4][0] == ' ';
  }

  lemma MergingScan()
    ensures Scan(false, "Ab ab", 0, ["ab"]) == TWO_SPELLINGS
  {
    var t, k := "Ab ab", "ab";
    MergingMatches();
    hide MatchesAt, Scan;
    OneKeyPass(false, t, 0, k);
    OneKeyPass(false, t, 2, k);
    OneKeyPass(false, t, 3, k);
    ScanEnds(false, t, 5, [k]);
  }

  lemma MergingShown()
    ensures Keyed(TWO_SPELLINGS, SPELT) && Output(TWO_SPELLINGS, SPELT) == "x x"
    ensures Reverse(TWO_SPELLINGS, SPELT) == map["x" := "ab"]
  {
    var p := TWO_SPELLINGS;
    assert p[1..] == [p[1], p[2]] && p[1..][1..] == [p[2]] && [p[2]][1..] == [];
    assert p[..2] == [p[0], p[1]] && p[..2][..1] == [p[0]] && [p[0]][..0] == [];
    assert Stage([p[2]], SPELT, {}) == "x" && Stage(p[1..], SPELT, {}) == " x";
    assert Reverse([p[0]], SPELT) == map["x" := "Ab"] && Reverse(p[..2], SPELT) == map["x" := "Ab"];
  }

  lemma MergingRestored()
    ensures Restorable(["x"], map["x" := "ab"]) && RestoreAll("x x", ["x"], map["x" := "ab"]) == "ab ab"
  {
    assert ["x"][1..] == [];
    assert "x x" == "x" + ([' '] + ("x" + "")) && ReplaceAll("", "x", "ab") == "";
    hide ReplaceAll;
    ReplaceStart("x", "", "ab");
    ReplaceOther(' ', "x" + "", "x", "ab");
    ReplaceStart("x", [' '] + ("x" + ""), "ab");
  }
}
