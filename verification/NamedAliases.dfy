/**
 The users, domains and hosts tables of anonymize.py: entries come from a file, and those
 without an alias get one, numbered on from the aliases the file already holds.

 What is at stake is that a minted alias is new. For users it always is. For domains and hosts
 it is so exactly under a condition on the file, because the counters overlook some aliases.
 */
module NamedAliases {
  import opened Text

  datatype Entry = Entry(name: string, alias: string)

  /** An entry waiting for an alias. */
  predicate Blank(e: Entry) {
    e.name != "" && e.alias == ""
  }

  /** Which counter serves a name: display names have their own in the users table. */
  datatype Kind = Any | Login | Display

  predicate Of(kind: Kind, e: Entry) {
    match kind
    case Any => true
    case Login => !IsDisplay(e)
    case Display => IsDisplay(e)
  }

  /** A display name: with a space, and not an address. */
  predicate IsDisplay(e: Entry) {
    '@' !in e.name && ' ' in e.name
  }

  /** How many of the first `n` entries are waiting for an alias of this kind. */
  function Waiting(entries: seq<Entry>, n: nat, kind: Kind): nat
    requires n <= |entries|
  {
    if n == 0 then 0
    else Waiting(entries, n - 1, kind) + if Blank(entries[n - 1]) && Of(kind, entries[n - 1]) then 1 else 0
  }

  lemma {:induction false} WaitingGrows(entries: seq<Entry>, i: nat, j: nat, kind: Kind)
    requires i < j <= |entries| && Blank(entries[i]) && Of(kind, entries[i])
    ensures Waiting(entries, i, kind) < Waiting(entries, j, kind)
  {
    if j > i + 1 {
      WaitingGrows(entries, i, j - 1, kind);
    }
  }

  /** The entries with the waiting ones given their alias. */
  function Minted(entries: seq<Entry>, alias: nat -> string): (r: seq<Entry>)
    ensures |r| == |entries|
    ensures forall i: nat {:trigger r[i]} :: i < |entries| ==>
              r[i] == if entries[i].name != "" && entries[i].alias == "" then Entry(entries[i].name, alias(i))
                      else entries[i]
  {
    assert forall i: nat {:trigger entries[i]} :: i < |entries| ==>
             entries[i].(alias := alias(i)) == Entry(entries[i].name, alias(i))
             && (Blank(entries[i]) <==> entries[i].name != "" && entries[i].alias == "");
    seq(|entries|, (i: nat) requires i < |entries| =>
      if Blank(entries[i]) then entries[i].(alias := alias(i)) else entries[i])
  }

  /** Every minted alias differs from all others in the table, old and minted. */
  ghost predicate Fresh(entries: seq<Entry>, r: seq<Entry>)
    requires |r| == |entries|
  {
    forall i, j :: 0 <= i < |r| && 0 <= j < |r| && i != j && Blank(entries[i]) ==> r[i].alias != r[j].alias
  }

  /** The number in an alias of the form prefix, digits, anything; letter case aside. Zero when it has none. */
  function Index(alias: string, prefix: string): nat {
    if StartsFolded(alias, prefix) then Value(Digits(alias[|prefix|..])) else 0
  }

  /** One above the largest number in use. */
  function Next(entries: seq<Entry>, prefix: string): (n: nat)
    ensures n > 0
    ensures forall i :: 0 <= i < |entries| ==> Index(entries[i].alias, prefix) < n
  {
    if entries == [] then 1
    else
      var last := |entries| - 1;
      var n := Next(entries[..last], prefix);
      assert forall i :: 0 <= i < last ==> entries[i] == entries[..last][i];
      if Index(entries[last].alias, prefix) >= n then Index(entries[last].alias, prefix) + 1 else n
  }

  /** No more than one above: it is 1, or the number below it is in use. */
  lemma {:induction false} NextIsLeast(entries: seq<Entry>, prefix: string)
    ensures Next(entries, prefix) == 1
            || exists i :: 0 <= i < |entries| && Index(entries[i].alias, prefix) == Next(entries, prefix) - 1
  {
    if entries != [] {
      var last := |entries| - 1;
      NextIsLeast(entries[..last], prefix);
      if Next(entries, prefix) == Next(entries[..last], prefix) && Next(entries, prefix) > 1 {
        var i :| 0 <= i < last && Index(entries[..last][i].alias, prefix) == Next(entries, prefix) - 1;
        assert entries[i] == entries[..last][i];
      }
    }
  }

  method NextCounter(entries: seq<Entry>, prefix: string) returns (n: nat)
    ensures n == Next(entries, prefix)
  {
    var maxIdx := 0;
    for i := 0 to |entries|
      invariant maxIdx + 1 == Next(entries[..i], prefix)
    {
      assert entries[..i + 1][..i] == entries[..i];
      var alias := entries[i].alias;
      if alias != "" && StartsFolded(alias, prefix) {
        var digits := Digits(alias[|prefix|..]);
        if digits != "" {
          var idx := Value(digits);
          if idx > maxIdx {
            maxIdx := idx;
          }
        }
      }
    }
    assert entries[..|entries|] == entries;
    n := maxIdx + 1;
  }

  /** A minted alias spells its number so that the counter reads it back. */
  lemma IndexOfMinted(prefix: string, head: string, n: nat, tail: string)
    requires |head| == |prefix| && StartsFolded(head, prefix) && (tail == "" || !IsDigit(tail[0]))
    ensures Index(head + Dec(n) + tail, prefix) == n
  {
    var alias := head + Dec(n) + tail;
    assert alias[|prefix|..] == Dec(n) + tail;
    DigitsOfRun(Dec(n), tail);
    ValueOfDec(n);
  }

  // ----- Users -----

  /** The text between the first and the second '@' sign. */
  function DomainPart(name: string): string {
    if '@' !in name then "" else if name[0] == '@' then UpToAt(name[1..]) else DomainPart(name[1..])
  }

  function UpToAt(t: string): string {
    if t == "" || t[0] == '@' then "" else [t[0]] + UpToAt(t[1..])
  }

  function GenUserAlias(n: nat): string {
    "user" + Dec(n)
  }

  function EmailTail(name: string): (tail: string)
    ensures tail != "" && tail[0] == '@'
  {
    var domain := DomainPart(name);
    if Contains(domain, "gmail") then "@mail.example.com"
    else if Contains(domain, ".edu") then "@university.edu"
    else "@example.com"
  }

  function UserAlias(e: Entry, n: nat): string {
    if '@' in e.name then GenUserAlias(n) + EmailTail(e.name)
    else if ' ' in e.name then "User" + Dec(n) + " Display"
    else GenUserAlias(n)
  }

  function UserNumber(entries: seq<Entry>, i: nat): nat
    requires i < |entries|
  {
    if IsDisplay(entries[i])
    then Next(entries, "User") + Waiting(entries, i, Display)
    else Next(entries, "user") + Waiting(entries, i, Login)
  }

  function UsersMinted(entries: seq<Entry>): seq<Entry> {
    Minted(entries, (i: nat) => if i < |entries| then UserAlias(entries[i], UserNumber(entries, i)) else "")
  }

  /** An address becomes an address, a name with a space a display name, any other a login, each with its number. */
  lemma UserForms(e: Entry, n: nat)
    ensures '@' in e.name ==>
              UserAlias(e, n) == "user" + Dec(n) + (if Contains(DomainPart(e.name), "gmail") then "@mail.example.com"
                                                    else if Contains(DomainPart(e.name), ".edu") then "@university.edu"
                                                    else "@example.com")
    ensures '@' !in e.name && ' ' in e.name ==> UserAlias(e, n) == "User" + Dec(n) + " Display"
    ensures '@' !in e.name && ' ' !in e.name ==> UserAlias(e, n) == "user" + Dec(n)
  {
  }

  /** The domain part is what stands between the first '@' sign and the next, or the end. */
  lemma {:induction false} DomainPartIs(user: string, domain: string, rest: string)
    requires '@' !in user && '@' !in domain && (rest == "" || rest[0] == '@')
    ensures DomainPart(user + "@" + domain + rest) == domain
    decreases |user|
  {
    var name := user + "@" + domain + rest;
    if user == "" {
      assert name[0] == '@' && name[1..] == domain + rest;
      UpToAtIs(domain, rest);
    } else {
      assert name[0] == user[0] && user[0] in user && name[1..] == user[1..] + "@" + domain + rest;
      assert (user[1..] + "@" + domain + rest)[|user| - 1] == '@' && name[|user|] == '@';
      DomainPartIs(user[1..], domain, rest);
    }
  }

  lemma {:induction false} UpToAtIs(domain: string, rest: string)
    requires '@' !in domain && (rest == "" || rest[0] == '@')
    ensures UpToAt(domain + rest) == domain
    decreases |domain|
  {
    if domain == "" {
      assert domain + rest == rest;
    } else {
      assert domain[0] in domain && (domain + rest)[1..] == domain[1..] + rest;
      UpToAtIs(domain[1..], rest);
    }
  }

  lemma UserMintedAt(entries: seq<Entry>, i: nat)
    requires i < |entries|
    ensures |UsersMinted(entries)| == |entries|
    ensures !Blank(entries[i]) ==> UsersMinted(entries)[i] == entries[i]
    ensures Blank(entries[i]) ==>
              UsersMinted(entries)[i] == entries[i].(alias := UserAlias(entries[i], UserNumber(entries, i)))
  {
    hide UserAlias, UserNumber;
  }

  lemma UserIndex(e: Entry, n: nat)
    ensures Index(UserAlias(e, n), "user") == Index(UserAlias(e, n), "User") == n
  {
    hide Index, EmailTail;
    if IsDisplay(e) {
      IndexOfMinted("user", "User", n, " Display");
      IndexOfMinted("User", "User", n, " Display");
    } else {
      var tail := if '@' in e.name then EmailTail(e.name) else "";
      assert UserAlias(e, n) == "user" + Dec(n) + tail;
      IndexOfMinted("user", "user", n, tail);
      IndexOfMinted("User", "user", n, tail);
    }
  }

  lemma UserNumbersApart(entries: seq<Entry>, i: nat, j: nat)
    requires i < j < |entries| && Blank(entries[i]) && Blank(entries[j])
    requires IsDisplay(entries[i]) == IsDisplay(entries[j])
    ensures UserNumber(entries, i) < UserNumber(entries, j)
  {
    if IsDisplay(entries[i]) {
      WaitingGrows(entries, i, j, Display);
    } else {
      WaitingGrows(entries, i, j, Login);
    }
  }

  lemma UserAliasesApart(e: Entry, m: nat, f: Entry, n: nat)
    requires IsDisplay(e) != IsDisplay(f) || m != n
    ensures UserAlias(e, m) != UserAlias(f, n)
  {
    UserIndex(e, m);
    UserIndex(f, n);
  }

  lemma UserAliasNew(entries: seq<Entry>, i: nat, j: nat)
    requires i < |entries| && j < |entries|
    ensures UserAlias(entries[i], UserNumber(entries, i)) != entries[j].alias
  {
    UserIndex(entries[i], UserNumber(entries, i));
  }

  /** Minted user aliases are new, whatever the file holds. */
  lemma UsersFresh(entries: seq<Entry>)
    ensures Fresh(entries, UsersMinted(entries))
  {
    forall i, j | 0 <= i < |entries| && 0 <= j < |entries| && i != j && Blank(entries[i])
      ensures UsersMinted(entries)[i].alias != UsersMinted(entries)[j].alias
    {
      UserAliasNew(entries, i, j);
      if Blank(entries[j]) {
        if IsDisplay(entries[i]) == IsDisplay(entries[j]) {
          if i < j {
            UserNumbersApart(entries, i, j);
          } else {
            UserNumbersApart(entries, j, i);
          }
        }
        UserAliasesApart(entries[i], UserNumber(entries, i), entries[j], UserNumber(entries, j));
      }
    }
  }

  // ----- Domains -----

  datatype DomainForm = NetBios | AdDomain | PlainDomain

  /** `isUpper` is the interpreter's test for an all-capitals name. */
  function FormOf(name: string, isUpper: string -> bool): DomainForm {
    if isUpper(name) && '.' !in name then NetBios
    else if StartsAt(name, 0, "ad.") then AdDomain
    else PlainDomain
  }

  function GenDomainAlias(n: nat): string {
    "corp" + Dec(n) + ".internal"
  }

  function DomainAlias(form: DomainForm, n: nat): string {
    match form
    case NetBios => "CORP" + Dec(n)
    case AdDomain => "ad." + GenDomainAlias(n)
    case PlainDomain => GenDomainAlias(n)
  }

  /** A name in capitals without a dot becomes one; a name below "ad." one below "ad."; any other a plain domain. */
  lemma DomainForms(name: string, isUpper: string -> bool, n: nat)
    ensures var alias := DomainAlias(FormOf(name, isUpper), n);
            if isUpper(name) && '.' !in name then alias == "CORP" + Dec(n)
            else if |name| >= 3 && name[..3] == "ad." then alias == "ad.corp" + Dec(n) + ".internal"
            else alias == "corp" + Dec(n) + ".internal"
  {
  }

  function DomainNumber(entries: seq<Entry>, i: nat): nat
    requires i < |entries|
  {
    Next(entries, "corp") + Waiting(entries, i, Any)
  }

  function DomainsMinted(entries: seq<Entry>, isUpper: string -> bool): seq<Entry> {
    Minted(entries, (i: nat) =>
      if i < |entries| then DomainAlias(FormOf(entries[i].name, isUpper), DomainNumber(entries, i)) else "")
  }

  /** No alias of the form `ad.corpN.internal` that the counter, which looks for `corpN`, could still run into. */
  ghost predicate NoStrayAd(entries: seq<Entry>) {
    forall n: nat, i :: n >= Next(entries, "corp") && 0 <= i < |entries| ==>
      entries[i].alias != DomainAlias(AdDomain, n)
  }

  lemma DomainIndex(f: DomainForm, n: nat)
    ensures f.AdDomain? ==> Index(DomainAlias(f, n), "ad.corp") == n
    ensures !f.AdDomain? ==> Index(DomainAlias(f, n), "corp") == n
  {
    match f
    case NetBios =>
      IndexOfMinted("corp", "CORP", n, "");
      assert DomainAlias(f, n) == "CORP" + Dec(n) + "";
    case PlainDomain =>
      IndexOfMinted("corp", "corp", n, ".internal");
    case AdDomain =>
      IndexOfMinted("ad.corp", "ad.corp", n, ".internal");
      assert DomainAlias(f, n) == "ad.corp" + Dec(n) + ".internal";
  }

  lemma DomainFormsApart(f: DomainForm, m: nat, g: DomainForm, n: nat)
    requires f != g || m != n
    ensures DomainAlias(f, m) != DomainAlias(g, n)
  {
    if f != g {
      assert DomainAlias(f, m)[0] != DomainAlias(g, n)[0];
    } else {
      DomainIndex(f, m);
      DomainIndex(f, n);
    }
  }

  lemma DomainsFresh(entries: seq<Entry>, isUpper: string -> bool)
    requires NoStrayAd(entries)
    ensures Fresh(entries, DomainsMinted(entries, isUpper))
  {
    forall i, j | 0 <= i < |entries| && 0 <= j < |entries| && i != j && Blank(entries[i])
      ensures DomainsMinted(entries, isUpper)[i].alias != DomainsMinted(entries, isUpper)[j].alias
    {
      var f, n := FormOf(entries[i].name, isUpper), DomainNumber(entries, i);
      if Blank(entries[j]) {
        if i < j {
          WaitingGrows(entries, i, j, Any);
        } else {
          WaitingGrows(entries, j, i, Any);
        }
        DomainFormsApart(f, n, FormOf(entries[j].name, isUpper), DomainNumber(entries, j));
      } else if !f.AdDomain? {
        DomainIndex(f, n);
      }
    }
  }

  /** Entries that wait for nothing, as a file that was loaded and flushed holds them. */
  ghost predicate Settled(entries: seq<Entry>) {
    forall i :: 0 <= i < |entries| ==> !Blank(entries[i])
  }

  ghost predicate AllWaiting(entries: seq<Entry>) {
    forall i :: 0 <= i < |entries| ==> Blank(entries[i])
  }

  lemma {:induction false} NoneWaiting(known: seq<Entry>, more: seq<Entry>, n: nat)
    requires Settled(known) && n <= |known|
    ensures Waiting(known + more, n, Any) == 0
  {
    if n > 0 {
      assert (known + more)[n - 1] == known[n - 1];
      NoneWaiting(known, more, n - 1);
    }
  }

  lemma {:induction false} WaitingAppended(known: seq<Entry>, more: seq<Entry>, n: nat)
    requires Settled(known) && n <= |more| && AllWaiting(more)
    ensures Waiting(known + more, |known| + n, Any) == n
    decreases n
  {
    if n > 0 {
      assert (known + more)[|known| + n - 1] == more[n - 1];
      WaitingAppended(known, more, n - 1);
    } else {
      NoneWaiting(known, more, |known|);
    }
  }

  lemma {:induction false} NextAppended(known: seq<Entry>, more: seq<Entry>, prefix: string)
    requires prefix != "" && AllWaiting(more)
    ensures Next(known + more, prefix) == Next(known, prefix)
    decreases |more|
  {
    if more == [] {
      assert known + more == known;
    } else {
      var last := |more| - 1;
      assert (known + more)[..|known| + last] == known + more[..last];
      NextAppended(known, more[..last], prefix);
    }
  }

  /** Whatever new names are added to this file, their domain aliases come out fresh. */
  ghost predicate DomainsAlwaysFresh(known: seq<Entry>, isUpper: string -> bool) {
    forall more: seq<Entry> | AllWaiting(more) :: Fresh(known + more, DomainsMinted(known + more, isUpper))
  }

  lemma DomainMintedAt(entries: seq<Entry>, isUpper: string -> bool, i: nat)
    requires i < |entries|
    ensures |DomainsMinted(entries, isUpper)| == |entries|
    ensures !Blank(entries[i]) ==> DomainsMinted(entries, isUpper)[i] == entries[i]
    ensures Blank(entries[i]) ==>
              DomainsMinted(entries, isUpper)[i]
              == entries[i].(alias := DomainAlias(FormOf(entries[i].name, isUpper),
                                                  Next(entries, "corp") + Waiting(entries, i, Any)))
  {
    hide DomainAlias, FormOf, Next, Waiting;
  }

  lemma ClashSpoils(entries: seq<Entry>, r: seq<Entry>, i: nat, j: nat)
    requires |r| == |entries| && i < |r| && j < |r| && i != j && Blank(entries[i]) && r[i].alias == r[j].alias
    ensures !Fresh(entries, r)
  {
  }

  lemma StrayAdClashes(entries: seq<Entry>, isUpper: string -> bool, i: nat, j: nat)
    requires i < j < |entries| && !Blank(entries[i]) && Blank(entries[j])
    requires FormOf(entries[j].name, isUpper) == AdDomain
    requires entries[i].alias == DomainAlias(AdDomain, Next(entries, "corp") + Waiting(entries, j, Any))
    ensures !Fresh(entries, DomainsMinted(entries, isUpper))
  {
    hide DomainAlias, FormOf, Next, Waiting;
    DomainMintedAt(entries, isUpper, i);
    DomainMintedAt(entries, isUpper, j);
    ClashSpoils(entries, DomainsMinted(entries, isUpper), j, i);
  }

  lemma LastNumber(known: seq<Entry>, more: seq<Entry>)
    requires Settled(known) && AllWaiting(more) && more != []
    ensures Next(known + more, "corp") + Waiting(known + more, |known + more| - 1, Any)
         == Next(known, "corp") + |more| - 1
  {
    NextAppended(known, more, "corp");
    WaitingAppended(known, more, |more| - 1);
  }

  lemma AdDomainsAdded(known: seq<Entry>, isUpper: string -> bool, k: nat, i: nat) returns (more: seq<Entry>)
    requires Settled(known) && i < |known| && known[i].alias == DomainAlias(AdDomain, Next(known, "corp") + k)
    ensures AllWaiting(more) && !Fresh(known + more, DomainsMinted(known + more, isUpper))
  {
    hide DomainAlias, DomainsMinted, Fresh, Index, FormOf;
    more := seq(k + 1, _ => Entry("ad.x", ""));
    BelowAd(isUpper);
    AddedAdDomains(known, more, isUpper, i);
  }

  /** Minted domain aliases are new for every list of new names exactly when no `ad.corpN.internal` lies ahead. */
  lemma DomainsFreshExactly(known: seq<Entry>, isUpper: string -> bool)
    requires Settled(known)
    ensures DomainsAlwaysFresh(known, isUpper) <==> NoStrayAd(known)
  {
    if NoStrayAd(known) {
      forall more: seq<Entry> | AllWaiting(more) ensures Fresh(known + more, DomainsMinted(known + more, isUpper)) {
        NextAppended(known, more, "corp");
        assert NoStrayAd(known + more);
        DomainsFresh(known + more, isUpper);
      }
    } else {
      var n: nat, i: nat :| n >= Next(known, "corp") && i < |known| && known[i].alias == DomainAlias(AdDomain, n);
      var more := AdDomainsAdded(known, isUpper, n - Next(known, "corp"), i);
    }
  }

  lemma BelowAd(isUpper: string -> bool)
    ensures FormOf("ad.x", isUpper) == AdDomain
  {
    assert "ad.x"[..3] == "ad." && "ad.x"[2] == '.';
  }

  lemma AddedAdDomains(known: seq<Entry>, more: seq<Entry>, isUpper: string -> bool, i: nat)
    requires Settled(known) && i < |known| && AllWaiting(more) && more != []
    requires !Blank(known[i]) && Blank(more[|more| - 1])
    requires FormOf(more[|more| - 1].name, isUpper) == AdDomain
    requires known[i].alias == DomainAlias(AdDomain, Next(known, "corp") + |more| - 1)
    ensures !Fresh(known + more, DomainsMinted(known + more, isUpper))
  {
    hide *;
    LastNumber(known, more);
    var all := known + more;
    assert all[i] == known[i] && all[|all| - 1] == more[|more| - 1];
    StrayAdClashes(all, isUpper, i, |all| - 1);
  }

  // ----- Hosts -----

  function Lower(c: char): char {
    if 'A' <= c <= 'Z' then c + ('a' - 'A') else if c == '\U{212A}' then 'k' else c
  }

  function Letter(h: nat): (c: char)
    requires 1 <= h <= 26
    ensures 'a' <= c <= 'z' && !IsDigit(c) && Lower(c) == c
  {
    'a' + (h - 1) as char
  }

  predicate IsHostLetter(alias: string) {
    StartsAt(alias, 0, "host-") && |alias| == 6 && 'a' <= Lower(alias[5]) <= 'z'
  }

  predicate IsHostNumber(alias: string) {
    StartsAt(alias, 0, "host-") && |alias| > 5 && forall c :: c in alias[5..] ==> IsDigit(c)
  }

  /** The letters the file's aliases use. */
  function UsedLetters(entries: seq<Entry>): set<char> {
    set i | 0 <= i < |entries| && IsHostLetter(entries[i].alias) :: Lower(entries[i].alias[5])
  }

  /** The largest number in use, and at least 26. */
  function TopNumber(entries: seq<Entry>): (n: nat)
    ensures n >= 26
    ensures forall i :: 0 <= i < |entries| && IsHostNumber(entries[i].alias) ==> Value(entries[i].alias[5..]) <= n
  {
    if entries == [] then 26
    else
      var last := |entries| - 1;
      var n := TopNumber(entries[..last]);
      assert forall i :: 0 <= i < last ==> entries[i] == entries[..last][i];
      if IsHostNumber(entries[last].alias) && Value(entries[last].alias[5..]) > n
      then Value(entries[last].alias[5..]) else n
  }

  /** The next number from `h` on whose letter is free. Numbers above 26 have no letter. */
  function Skip(used: set<char>, h: nat): (r: nat)
    requires h > 0
    ensures r >= h && (r <= 26 ==> Letter(r) !in used) && (h <= 27 ==> r <= 27)
    decreases 27 - h
  {
    if h <= 26 && Letter(h) in used then Skip(used, h + 1) else h
  }

  /** The first free letter, or else a number above all those in use. */
  function FirstHost(entries: seq<Entry>): (h: nat)
    ensures h > 0
  {
    var h := Skip(UsedLetters(entries), 1);
    if h <= 26 then h else TopNumber(entries) + 1
  }

  /** The number has a letter, and that is in use. */
  predicate Taken(used: set<char>, h: int) {
    1 <= h <= 26 && Letter(h) in used
  }

  /** The next number passes over taken letters only. */
  lemma {:induction false} SkipIsFirst(used: set<char>, h: nat)
    requires h > 0
    ensures forall i :: h <= i < Skip(used, h) ==> Taken(used, i)
    decreases 27 - h
  {
    if h <= 26 && Letter(h) in used {
      SkipIsFirst(used, h + 1);
      assert Taken(used, h);
    }
  }

  /** The largest number is 26 or in use. */
  lemma {:induction false} TopIsLeast(entries: seq<Entry>)
    ensures TopNumber(entries) == 26
            || exists i :: 0 <= i < |entries| && IsHostNumber(entries[i].alias)
                           && Value(entries[i].alias[5..]) == TopNumber(entries)
  {
    if entries != [] {
      var last := |entries| - 1;
      TopIsLeast(entries[..last]);
      if TopNumber(entries) == TopNumber(entries[..last]) && TopNumber(entries) != 26 {
        var i :| 0 <= i < last && IsHostNumber(entries[..last][i].alias)
                 && Value(entries[..last][i].alias[5..]) == TopNumber(entries);
        assert entries[i] == entries[..last][i];
      }
    }
  }

  /** The first host number is that of the first free letter or, with none free, 27 or one above a number in use. */
  lemma FirstHostExactly(entries: seq<Entry>)
    ensures var used, h := UsedLetters(entries), FirstHost(entries);
            && (forall i :: 1 <= i < h ==> Taken(used, i) || i > 26)
            && (h <= 26 ==> !Taken(used, h))
            && (h > 26 ==> h == TopNumber(entries) + 1 && forall i :: 1 <= i <= 26 ==> Taken(used, i))
            && (h > 27 ==> exists i :: 0 <= i < |entries| && IsHostNumber(entries[i].alias)
                                       && Value(entries[i].alias[5..]) == h - 1)
  {
    SkipIsFirst(UsedLetters(entries), 1);
    TopIsLeast(entries);
  }

  function HostNumber(used: set<char>, first: nat, k: nat): (h: nat)
    requires first > 0
    ensures h >= first
  {
    if k == 0 then first else Skip(used, HostNumber(used, first, k - 1) + 1)
  }

  function HostAlias(h: nat): string
    requires h > 0
  {
    "host-" + if h <= 26 then [Letter(h)] else Dec(h)
  }

  function HostsMinted(entries: seq<Entry>): seq<Entry> {
    Minted(entries, (i: nat) =>
      if i < |entries| then HostAlias(HostNumber(UsedLetters(entries), FirstHost(entries), Waiting(entries, i, Any)))
      else "")
  }

  lemma HostAliasRead(h: nat)
    requires h > 0
    ensures h <= 26 ==> IsHostLetter(HostAlias(h)) && Lower(HostAlias(h)[5]) == Letter(h)
    ensures h > 26 ==> IsHostNumber(HostAlias(h)) && Value(HostAlias(h)[5..]) == h
  {
    assert HostAlias(h)[..5] == "host-";
    if h > 26 {
      assert HostAlias(h)[5..] == Dec(h);
      ValueOfDec(h);
    }
  }

  /** The numbers from 1 to 26 stand for the letters, larger ones for themselves. */
  lemma HostForms(h: nat)
    requires h > 0
    ensures h <= 26 ==> HostAlias(h) == "host-" + ["abcdefghijklmnopqrstuvwxyz"[h - 1]]
    ensures h > 26 ==> HostAlias(h) == "host-" + Dec(h)
  {
    var letters := "abcdefghijklmnopqrstuvwxyz";
    assert forall i :: 0 <= i < 26 ==> letters[i] as int == 97 + i;
  }

  lemma LetterNotNumber(alias: string)
    ensures !IsHostLetter(alias) || !IsHostNumber(alias)
  {
    if IsHostLetter(alias) {
      assert alias[5..][0] == alias[5] && alias[5] in alias[5..];
    }
  }

  lemma HostAliasInjective(g: nat, h: nat)
    requires g > 0 && h > 0 && HostAlias(g) == HostAlias(h)
    ensures g == h
  {
    HostAliasRead(g);
    HostAliasRead(h);
    LetterNotNumber(HostAlias(g));
  }

  lemma {:induction false} HostNumberGrows(used: set<char>, first: nat, k: nat, l: nat)
    requires first > 0 && k < l
    ensures HostNumber(used, first, k) < HostNumber(used, first, l)
  {
    if k + 1 < l {
      HostNumberGrows(used, first, k, l - 1);
    }
  }

  /** All letters are taken, or no alias beyond the letters is. */
  ghost predicate HostsSafe(entries: seq<Entry>) {
    FirstHost(entries) > 26 || forall n: nat, i :: n > 26 && 0 <= i < |entries| ==> entries[i].alias != HostAlias(n)
  }

  lemma HostLetterNew(entries: seq<Entry>, h: nat, j: nat)
    requires 1 <= h <= 26 && Letter(h) !in UsedLetters(entries) && j < |entries|
    ensures entries[j].alias != HostAlias(h)
  {
    HostAliasRead(h);
  }

  lemma HostNumberNew(entries: seq<Entry>, h: nat, j: nat)
    requires h > TopNumber(entries) && j < |entries|
    ensures entries[j].alias != HostAlias(h)
  {
    HostAliasRead(h);
  }

  lemma HostAliasNew(entries: seq<Entry>, k: nat, j: nat)
    requires HostsSafe(entries) && j < |entries|
    ensures entries[j].alias != HostAlias(HostNumber(UsedLetters(entries), FirstHost(entries), k))
  {
    var h := HostNumber(UsedLetters(entries), FirstHost(entries), k);
    if h <= 26 {
      HostLetterNew(entries, h, j);
    } else if FirstHost(entries) > 26 {
      HostNumberNew(entries, h, j);
    }
  }

  lemma HostsFresh(entries: seq<Entry>)
    requires HostsSafe(entries)
    ensures Fresh(entries, HostsMinted(entries))
  {
    forall i, j | 0 <= i < |entries| && 0 <= j < |entries| && i != j && Blank(entries[i])
      ensures HostsMinted(entries)[i].alias != HostsMinted(entries)[j].alias
    {
      var k, l := Waiting(entries, i, Any), Waiting(entries, j, Any);
      if Blank(entries[j]) {
        HostWaitersApart(entries, i, j);
      } else {
        HostAliasNew(entries, k, j);
      }
    }
  }

  lemma HostWaitersApart(entries: seq<Entry>, i: nat, j: nat)
    requires i < |entries| && j < |entries| && i != j && Blank(entries[i]) && Blank(entries[j])
    ensures var used, first := UsedLetters(entries), FirstHost(entries);
            HostAlias(HostNumber(used, first, Waiting(entries, i, Any)))
            != HostAlias(HostNumber(used, first, Waiting(entries, j, Any)))
  {
    var used, first := UsedLetters(entries), FirstHost(entries);
    var k, l := Waiting(entries, i, Any), Waiting(entries, j, Any);
    if i < j {
      WaitingGrows(entries, i, j, Any);
      HostNumberGrows(used, first, k, l);
    } else {
      WaitingGrows(entries, j, i, Any);
      HostNumberGrows(used, first, l, k);
    }
    if HostAlias(HostNumber(used, first, k)) == HostAlias(HostNumber(used, first, l)) {
      HostAliasInjective(HostNumber(used, first, k), HostNumber(used, first, l));
    }
  }

  /** From a free letter on, minting runs through every number beyond the letters. */
  lemma {:induction false} ReachesEvery(used: set<char>, first: nat, n: nat, k: nat) returns (l: nat)
    requires first > 0 && n >= 27 && HostNumber(used, first, k) <= n
    ensures HostNumber(used, first, l) == n
    decreases n - HostNumber(used, first, k)
  {
    if HostNumber(used, first, k) == n {
      return k;
    }
    HostNumberGrows(used, first, k, k + 1);
    l := ReachesEvery(used, first, n, k + 1);
  }

  lemma {:induction false} TopAppended(known: seq<Entry>, more: seq<Entry>)
    requires AllWaiting(more)
    ensures TopNumber(known + more) == TopNumber(known)
    decreases |more|
  {
    if more == [] {
      assert known + more == known;
    } else {
      var last := |more| - 1;
      assert (known + more)[..|known| + last] == known + more[..last];
      TopAppended(known, more[..last]);
    }
  }

  lemma LettersAppended(known: seq<Entry>, more: seq<Entry>)
    requires AllWaiting(more)
    ensures UsedLetters(known + more) == UsedLetters(known)
  {
    var all := known + more;
    assert forall i :: 0 <= i < |known| ==> all[i] == known[i];
    forall c | c in UsedLetters(known) ensures c in UsedLetters(all) {
      var i :| 0 <= i < |known| && IsHostLetter(known[i].alias) && Lower(known[i].alias[5]) == c;
      assert all[i] == known[i];
    }
  }

  ghost predicate HostsAlwaysFresh(known: seq<Entry>) {
    forall more: seq<Entry> | AllWaiting(more) :: Fresh(known + more, HostsMinted(known + more))
  }

  lemma HostsAppendedSafe(known: seq<Entry>, more: seq<Entry>)
    requires AllWaiting(more) && HostsSafe(known)
    ensures HostsSafe(known + more)
  {
    TopAppended(known, more);
    LettersAppended(known, more);
  }

  lemma HostMintedAt(entries: seq<Entry>, i: nat)
    requires i < |entries|
    ensures |HostsMinted(entries)| == |entries|
    ensures !Blank(entries[i]) ==> HostsMinted(entries)[i] == entries[i]
    ensures Blank(entries[i]) ==>
              HostsMinted(entries)[i]
              == entries[i].(alias := HostAlias(HostNumber(UsedLetters(entries), FirstHost(entries),
                                                           Waiting(entries, i, Any))))
  {
    hide UsedLetters, TopNumber, Dec, HostAlias;
  }

  lemma AddedHosts(known: seq<Entry>, more: seq<Entry>, i: nat, k: nat)
    requires Settled(known) && AllWaiting(more) && |more| == k + 1 && i < |known|
    requires !Blank(known[i]) && Blank(more[k])
    requires known[i].alias == HostAlias(HostNumber(UsedLetters(known), FirstHost(known), k))
    requires FirstHost(known + more) == FirstHost(known) && UsedLetters(known + more) == UsedLetters(known)
    ensures !Fresh(known + more, HostsMinted(known + more))
  {
    hide *;
    var all := known + more;
    assert all[i] == known[i] && all[|known| + k] == more[k];
    WaitingAppended(known, more, k);
    HostMintedAt(all, i);
    HostMintedAt(all, |known| + k);
    ClashSpoils(all, HostsMinted(all), |known| + k, i);
  }

  /**
   Minted host aliases are new for every list of new names exactly
   when the letters are all used, or no number beyond them is.
   */
  lemma HostsFreshExactly(known: seq<Entry>)
    requires Settled(known)
    ensures HostsAlwaysFresh(known) <==> HostsSafe(known)
  {
    if HostsSafe(known) {
      forall more: seq<Entry> | AllWaiting(more) ensures Fresh(known + more, HostsMinted(known + more)) {
        HostsAppendedSafe(known, more);
        HostsFresh(known + more);
      }
    } else {
      var n: nat, i: nat :| n > 26 && i < |known| && known[i].alias == HostAlias(n);
      var k := ReachesEvery(UsedLetters(known), FirstHost(known), n, 0);
      var more := seq(k + 1, _ => Entry("x", ""));
      TopAppended(known, more);
      LettersAppended(known, more);
      AddedHosts(known, more, i, k);
    }
  }

  // ----- Loading -----

  type Lookup = map<string, string>

  /** A name is looked up as written and, if that differs, in lower case. Later entries win. */
  function Named(lookup: Lookup, e: Entry, lower: string -> string): Lookup {
    if e.name == "" then lookup
    else if lower(e.name) != e.name then lookup[e.name := e.alias][lower(e.name) := e.alias]
    else lookup[e.name := e.alias]
  }

  function LookupOf(entries: seq<Entry>, lower: string -> string): Lookup {
    if entries == [] then map[] else Named(LookupOf(entries[..|entries| - 1], lower), entries[|entries| - 1], lower)
  }

  /** The entry is found under this name: as written, or in lower case. */
  predicate Goes(e: Entry, key: string, lower: string -> string) {
    e.name != "" && (e.name == key || lower(e.name) == key)
  }

  /** A lookup gives the alias of the last entry found under the name, and only names of entries give one. */
  lemma {:induction false} LookupExactly(entries: seq<Entry>, key: string, lower: string -> string)
    ensures key in LookupOf(entries, lower) <==> exists i :: 0 <= i < |entries| && Goes(entries[i], key, lower)
    ensures forall i :: 0 <= i < |entries| && Goes(entries[i], key, lower)
                        && (forall j :: i < j < |entries| ==> !Goes(entries[j], key, lower))
                   ==> key in LookupOf(entries, lower) && LookupOf(entries, lower)[key] == entries[i].alias
  {
    if entries != [] {
      var n := |entries| - 1;
      var front := entries[..n];
      LookupExactly(front, key, lower);
      assert forall i :: 0 <= i < n ==> front[i] == entries[i];
      if Goes(entries[n], key, lower) {
        assert key in LookupOf(entries, lower);
      } else {
        assert key in LookupOf(entries, lower) <==> key in LookupOf(front, lower);
      }
    }
  }

  predicate AnyWaiting(entries: seq<Entry>) {
    exists i :: 0 <= i < |entries| && Blank(entries[i])
  }

  lemma LookupStep(minted: seq<Entry>, n: nat, lower: string -> string)
    requires n < |minted|
    ensures LookupOf(minted[..n + 1], lower) == Named(LookupOf(minted[..n], lower), minted[n], lower)
  {
    assert minted[..n + 1][..n] == minted[..n];
  }

  lemma WaitingStep(file: seq<Entry>, n: nat)
    requires n < |file|
    ensures AnyWaiting(file[..n + 1]) == (AnyWaiting(file[..n]) || Blank(file[n]))
  {
    assert file[..n + 1] == file[..n] + [file[n]];
    assert forall i :: 0 <= i < n ==> file[..n + 1][i] == file[..n][i];
    assert file[..n + 1][n] == file[n];
  }

  // One entry each: its alias, "" if it waits for none, and the counters after it.

  method MintUser(e: Entry, uc: nat, dc: nat) returns (alias: string, uc': nat, dc': nat)
    ensures alias == if Blank(e) then UserAlias(e, if IsDisplay(e) then dc else uc) else ""
    ensures uc' == uc + if Blank(e) && !IsDisplay(e) then 1 else 0
    ensures dc' == dc + if Blank(e) && IsDisplay(e) then 1 else 0
  {
    alias, uc', dc' := "", uc, dc;
    if e.name != "" && e.alias == "" {
      if '@' in e.name {
        alias := GenUserAlias(uc) + EmailTail(e.name);
        uc' := uc + 1;
      } else if ' ' in e.name {
        alias := "User" + Dec(dc) + " Display";
        dc' := dc + 1;
      } else {
        alias := GenUserAlias(uc);
        uc' := uc + 1;
      }
    }
  }

  method MintDomain(e: Entry, dc: nat, isUpper: string -> bool) returns (alias: string, dc': nat)
    ensures alias == if Blank(e) then DomainAlias(FormOf(e.name, isUpper), dc) else ""
    ensures dc' == dc + if Blank(e) then 1 else 0
  {
    alias, dc' := "", dc;
    if e.name != "" && e.alias == "" {
      if isUpper(e.name) && '.' !in e.name {
        alias := "CORP" + Dec(dc);
      } else if StartsAt(e.name, 0, "ad.") {
        alias := "ad." + GenDomainAlias(dc);
      } else {
        alias := GenDomainAlias(dc);
      }
      dc' := dc + 1;
    }
  }

  method NextFree(used: set<char>, h: nat) returns (hc: nat)
    requires h > 0
    ensures hc == Skip(used, h)
  {
    hc := h;
    while hc <= 26 && Letter(hc) in used
      invariant hc > 0 && Skip(used, hc) == Skip(used, h)
      decreases 27 - hc
    {
      hc := hc + 1;
    }
  }

  method FirstFree(file: seq<Entry>) returns (used: set<char>, hc: nat)
    ensures used == UsedLetters(file) && hc == FirstHost(file)
  {
    hide UsedLetters;
    used := UsedLetters(file);
    hc := NextFree(used, 1);
    if hc > 26 {
      hc := TopNumber(file) + 1;
    }
  }

  ghost predicate UserCounters(file: seq<Entry>, n: nat, uc: nat, dc: nat) {
    n <= |file| && uc == Next(file, "user") + Waiting(file, n, Login)
    && dc == Next(file, "User") + Waiting(file, n, Display)
  }

  lemma UsersStart(file: seq<Entry>)
    ensures UserCounters(file, 0, Next(file, "user"), Next(file, "User"))
  {
  }

  lemma UserStep(file: seq<Entry>, n: nat, uc: nat, dc: nat, alias: string, uc': nat, dc': nat)
    requires n < |file| && UserCounters(file, n, uc, dc)
    requires alias == if Blank(file[n]) then UserAlias(file[n], if IsDisplay(file[n]) then dc else uc) else ""
    requires uc' == uc + if Blank(file[n]) && !IsDisplay(file[n]) then 1 else 0
    requires dc' == dc + if Blank(file[n]) && IsDisplay(file[n]) then 1 else 0
    ensures UserCounters(file, n + 1, uc', dc')
    ensures UsersMinted(file)[n] == if Blank(file[n]) then file[n].(alias := alias) else file[n]
  {
    UserMintedAt(file, n);
    hide UserAlias, Index, UsersMinted;
  }

  ghost predicate DomainCounter(file: seq<Entry>, n: nat, dc: nat) {
    n <= |file| && dc == Next(file, "corp") + Waiting(file, n, Any)
  }

  lemma DomainsStart(file: seq<Entry>)
    ensures DomainCounter(file, 0, Next(file, "corp"))
  {
  }

  lemma DomainStep(file: seq<Entry>, n: nat, dc: nat, isUpper: string -> bool, alias: string, dc': nat)
    requires n < |file| && DomainCounter(file, n, dc)
    requires alias == if Blank(file[n]) then DomainAlias(FormOf(file[n].name, isUpper), dc) else ""
    requires dc' == dc + if Blank(file[n]) then 1 else 0
    ensures DomainCounter(file, n + 1, dc')
    ensures DomainsMinted(file, isUpper)[n] == if Blank(file[n]) then file[n].(alias := alias) else file[n]
  {
    DomainMintedAt(file, isUpper, n);
    hide DomainAlias, FormOf, Index, DomainsMinted;
  }

  ghost predicate HostCounter(file: seq<Entry>, n: nat, hc: nat) {
    n <= |file| && hc == HostNumber(UsedLetters(file), FirstHost(file), Waiting(file, n, Any))
  }

  lemma HostsStart(file: seq<Entry>)
    ensures HostCounter(file, 0, FirstHost(file))
  {
  }

  lemma HostStep(file: seq<Entry>, n: nat, hc: nat, alias: string, hc': nat)
    requires n < |file| && hc > 0 && HostCounter(file, n, hc)
    requires alias == if Blank(file[n]) then HostAlias(hc) else ""
    requires hc' == if Blank(file[n]) then Skip(UsedLetters(file), hc + 1) else hc
    ensures HostCounter(file, n + 1, hc')
    ensures HostsMinted(file)[n] == if Blank(file[n]) then file[n].(alias := alias) else file[n]
  {
    hide HostAlias, UsedLetters, FirstHost, HostsMinted;
    HostMintedAt(file, n);
  }

  /** One of the three categories, loaded once from its file. */
  class Category {
    var entries: seq<Entry>
    var lookup: Lookup
    var dirty: bool
    var loaded: bool

    constructor ()
      ensures !loaded && !dirty && entries == [] && lookup == map[]
    {
      entries, lookup, dirty, loaded := [], map[], false, false;
    }

    ghost predicate HoldsMinted(file: seq<Entry>, minted: seq<Entry>, lower: string -> string)
      reads this
    {
      && loaded && entries == minted && lookup == LookupOf(minted, lower) && dirty == AnyWaiting(file)
    }

    /** The loop has come to entry `n`: those before it are as they will be. */
    ghost predicate Upto(n: nat, file: seq<Entry>, minted: seq<Entry>, lower: string -> string)
      reads this
      requires n <= |file| == |minted|
    {
      && |entries| == |file|
      && (forall i :: 0 <= i < |file| ==> entries[i] == if i < n then minted[i] else file[i])
      && lookup == LookupOf(minted[..n], lower) && dirty == AnyWaiting(file[..n])
    }

    lemma UptoStart(file: seq<Entry>, minted: seq<Entry>, lower: string -> string)
      requires |file| == |minted| && entries == file && lookup == map[] && !dirty
      ensures Upto(0, file, minted, lower)
    {
    }

    lemma UptoEnd(file: seq<Entry>, minted: seq<Entry>, lower: string -> string)
      requires |file| == |minted| && Upto(|file|, file, minted, lower)
      ensures entries == minted && lookup == LookupOf(minted, lower) && dirty == AnyWaiting(file)
    {
      assert minted[..|file|] == minted && file[..|file|] == file;
    }

    /** One entry served: its alias minted if it waits for one, and its names noted. */
    method Serve(n: nat, alias: string, ghost file: seq<Entry>, ghost minted: seq<Entry>, lower: string -> string)
      requires n < |file| == |minted| && Upto(n, file, minted, lower)
      requires minted[n] == if Blank(file[n]) then file[n].(alias := alias) else file[n]
      modifies this`entries, this`lookup, this`dirty
      ensures Upto(n + 1, file, minted, lower)
    {
      LookupStep(minted, n, lower);
      WaitingStep(file, n);
      hide LookupOf, AnyWaiting;
      var e := entries[n];
      if e.name != "" {
        if e.alias == "" {
          e := e.(alias := alias);
          entries := entries[n := e];
          dirty := true;
        }
        lookup := lookup[e.name := e.alias];
        if lower(e.name) != e.name {
          lookup := lookup[lower(e.name) := e.alias];
        }
      }
    }

    method LoadUsers(file: seq<Entry>, lower: string -> string)
      modifies this
      ensures old(loaded) ==> unchanged(this)
      ensures !old(loaded) ==> HoldsMinted(file, UsersMinted(file), lower)
    {
      if loaded {
        return;
      }
      hide Upto, UserCounters, UserAlias, Index, LookupOf, AnyWaiting;
      ghost var minted := UsersMinted(file);
      hide UsersMinted;
      entries, lookup, dirty := file, map[], false;
      UptoStart(file, minted, lower);
      var uc := NextCounter(file, "user");
      var dc := NextCounter(file, "User");
      assert UserCounters(file, 0, uc, dc) by { UsersStart(file); }
      for n := 0 to |file|
        invariant !loaded && Upto(n, file, minted, lower) && UserCounters(file, n, uc, dc)
      {
        var alias, uc', dc' := MintUser(file[n], uc, dc);
        UserStep(file, n, uc, dc, alias, uc', dc');
        Serve(n, alias, file, minted, lower);
        uc, dc := uc', dc';
      }
      UptoEnd(file, minted, lower);
      loaded := true;
    }

    method LoadDomains(file: seq<Entry>, lower: string -> string, isUpper: string -> bool)
      modifies this
      ensures old(loaded) ==> unchanged(this)
      ensures !old(loaded) ==> HoldsMinted(file, DomainsMinted(file, isUpper), lower)
    {
      if loaded {
        return;
      }
      hide Upto, DomainCounter, DomainAlias, FormOf, Index, LookupOf, AnyWaiting;
      ghost var minted := DomainsMinted(file, isUpper);
      hide DomainsMinted;
      entries, lookup, dirty := file, map[], false;
      UptoStart(file, minted, lower);
      var dc := NextCounter(file, "corp");
      assert DomainCounter(file, 0, dc) by { DomainsStart(file); }
      for n := 0 to |file|
        invariant !loaded && Upto(n, file, minted, lower) && DomainCounter(file, n, dc)
      {
        var alias, dc' := MintDomain(file[n], dc, isUpper);
        DomainStep(file, n, dc, isUpper, alias, dc');
        Serve(n, alias, file, minted, lower);
        dc := dc';
      }
      UptoEnd(file, minted, lower);
      loaded := true;
    }

    method LoadHostsAliases(file: seq<Entry>, lower: string -> string)
      modifies this
      ensures old(loaded) ==> unchanged(this)
      ensures !old(loaded) ==> HoldsMinted(file, HostsMinted(file), lower)
    {
      if loaded {
        return;
      }
      hide Upto, HostCounter, HostAlias, UsedLetters, FirstHost, LookupOf, AnyWaiting;
      ghost var minted := HostsMinted(file);
      hide HostsMinted;
      entries, lookup, dirty := file, map[], false;
      UptoStart(file, minted, lower);
      var used, hc := FirstFree(file);
      assert HostCounter(file, 0, hc) by { HostsStart(file); }
      for n := 0 to |file|
        invariant !loaded && hc > 0 && Upto(n, file, minted, lower) && HostCounter(file, n, hc)
      {
        var alias, hc' := "", hc;
        if file[n].name != "" && file[n].alias == "" {
          alias := HostAlias(hc);
          hc' := NextFree(used, hc + 1);
        }
        HostStep(file, n, hc, alias, hc');
        Serve(n, alias, file, minted, lower);
        hc := hc';
      }
      UptoEnd(file, minted, lower);
      loaded := true;
    }
  }
}
