/**
 The login limiter of interface.py, over whole runs on a monotone clock: a check, the login, and its
 recorded result, on each bucket one attempt after the other, on different buckets interleaved.

 A bucket is a (client address, user name) pair. Two attempts on a bucket are at least the cooldown
 apart, and three failures in a row lock the bucket. Stale buckets are pruned when the table is
 large, which can forget a failure count but, as proved here, weakens neither protection.
 */
module LoginLimiter {
  type Time = real
  type Bucket = (string, string)

  const COOLDOWN: Time := 4.0
  const LOCKOUT_THRESHOLD: nat := 3
  const LOCKOUT: Time := 180.0
  const PRUNE_THRESHOLD: nat := 256

  datatype Record = Record(lastAttempt: Time, failCount: nat, lockedUntil: Time)

  const NO_RECORD := Record(0.0, 0, 0.0)

  type Table = map<Bucket, Record>

  datatype Answer = Allowed | LockedOut(seconds: int) | Cooling(seconds: int)

  function Get(table: Table, b: Bucket): Record {
    if b in table then table[b] else NO_RECORD
  }

  function Check(table: Table, now: Time, b: Bucket): Answer {
    var r := Get(table, b);
    if r.lockedUntil > now then LockedOut((r.lockedUntil - now).Floor)
    else if now - r.lastAttempt < COOLDOWN && r.lastAttempt > 0.0
    then Cooling((COOLDOWN - (now - r.lastAttempt)).Floor + 1)
    else Allowed
  }

  function Updated(r: Record, now: Time, success: bool): Record {
    if success then Record(now, 0, 0.0)
    else if r.failCount + 1 >= LOCKOUT_THRESHOLD then Record(now, 0, now + LOCKOUT)
    else Record(now, r.failCount + 1, r.lockedUntil)
  }

  predicate Stale(r: Record, now: Time) {
    r.lockedUntil <= now && r.lastAttempt < now - LOCKOUT * 2.0
  }

  function Pruned(table: Table, now: Time): Table {
    if |table| > PRUNE_THRESHOLD then map b | b in table && !Stale(table[b], now) :: table[b] else table
  }

  function Recorded(table: Table, now: Time, b: Bucket, success: bool): Table {
    Pruned(table[b := Updated(Get(table, b), now, success)], now)
  }

  class Limiter {
    var attempts: Table

    constructor ()
      ensures attempts == map[]
    {
      attempts := map[];
    }

    method CheckLoginRateLimit(now: Time, b: Bucket) returns (answer: Answer)
      ensures answer == Check(attempts, now, b)
    {
      var record := if b in attempts then attempts[b] else Record(0.0, 0, 0.0);
      if record.lockedUntil > now {
        return LockedOut((record.lockedUntil - now).Floor);
      }
      var elapsed := now - record.lastAttempt;
      if elapsed < COOLDOWN && record.lastAttempt > 0.0 {
        return Cooling((COOLDOWN - elapsed).Floor + 1);
      }
      return Allowed;
    }

    method RecordLoginResult(now: Time, b: Bucket, success: bool)
      modifies this
      ensures attempts == Recorded(old(attempts), now, b, success)
    {
      var record := if b in attempts then attempts[b] else Record(0.0, 0, 0.0);
      record := record.(lastAttempt := now);
      if success {
        record := record.(failCount := 0, lockedUntil := 0.0);
      } else {
        record := record.(failCount := record.failCount + 1);
        if record.failCount >= LOCKOUT_THRESHOLD {
          record := record.(lockedUntil := now + LOCKOUT, failCount := 0);
        }
      }
      attempts := attempts[b := record];
      ghost var full := attempts;
      assert full == old(attempts)[b := Updated(Get(old(attempts), b), now, success)];
      if |attempts| > PRUNE_THRESHOLD {
        var stale := set k | k in attempts && Stale(attempts[k], now);
        while stale != {}
          invariant stale <= attempts.Keys
          invariant forall k :: k in attempts ==> k in full && attempts[k] == full[k]
          invariant forall k :: k in full && k !in attempts ==> Stale(full[k], now)
          invariant forall k :: k in attempts && Stale(attempts[k], now) ==> k in stale
          invariant forall k :: k in stale ==> Stale(attempts[k], now)
          decreases stale
        {
          var k :| k in stale;
          attempts := attempts - {k};
          stale := stale - {k};
        }
        assert forall k :: k in attempts ==> k !in stale && !Stale(attempts[k], now);
        assert attempts == map k | k in full && !Stale(full[k], now) :: full[k];
      }
    }
  }

  // ----- Runs -----

  /**
   One login attempt: checked when the first `seen` attempts of the run had been recorded, and itself
   recorded later. Attempts on other buckets may be recorded in between.
   */
  datatype Attempt = Attempt(bucket: Bucket, checkedAt: Time, seen: nat, recordedAt: Time, success: bool)

  /** The table after a run, in the order of recording; an attempt that is not admitted leaves it as it is. */
  function TableAfter(hs: seq<Attempt>): Table
    decreases |hs|, 0
  {
    if hs == [] then map[]
    else
      var front, a := hs[..|hs| - 1], hs[|hs| - 1];
      if Admits(front, a) then Recorded(TableAfter(front), a.recordedAt, a.bucket, a.success) else TableAfter(front)
  }

  /** What the attempt saw at its check. */
  function Seen(hs: seq<Attempt>, a: Attempt): (r: seq<Attempt>)
    ensures |r| <= |hs|
  {
    if a.seen <= |hs| then hs[..a.seen] else hs
  }

  predicate Admits(hs: seq<Attempt>, a: Attempt)
    decreases |hs|, 1
  {
    Check(TableAfter(Seen(hs, a)), a.checkedAt, a.bucket) == Allowed
  }

  predicate Admitted(hs: seq<Attempt>, i: int) {
    0 <= i < |hs| && Admits(hs[..i], hs[i])
  }

  /**
   A clock that only goes forward and reads positive, and on each bucket one attempt after the other:
   whatever was not recorded yet at an attempt's check is of another bucket.
   */
  predicate Interleaved(hs: seq<Attempt>) {
    && (forall i :: 0 <= i < |hs| ==> 0.0 < hs[i].checkedAt <= hs[i].recordedAt && hs[i].seen <= i)
    && (forall i, j :: 0 <= i < j < |hs| ==> hs[i].recordedAt <= hs[j].recordedAt)
    && (forall i, j :: 0 <= i < j < |hs| ==>
          if i < hs[j].seen then hs[i].recordedAt <= hs[j].checkedAt else hs[i].bucket != hs[j].bucket)
  }

  /** The admitted failures of a bucket since its last admitted success, as indices into the run. */
  function Streak(hs: seq<Attempt>, b: Bucket): seq<nat> {
    if hs == [] then []
    else
      var n := |hs| - 1;
      var before := Streak(hs[..n], b);
      if hs[n].bucket != b || !Admitted(hs, n) then before
      else if hs[n].success then []
      else before + [n]
  }

  ghost predicate StreakOk(hs: seq<Attempt>, s: seq<nat>) {
    && (forall a :: 0 <= a < |s| ==> s[a] < |hs|)
    && (forall a, c :: 0 <= a < c < |s| ==> s[a] < s[c])
  }

  lemma {:induction false} StreakSound(hs: seq<Attempt>, b: Bucket)
    ensures StreakOk(hs, Streak(hs, b))
  {
    if hs != [] {
      StreakSound(hs[..|hs| - 1], b);
    }
  }

  /** No attempt at or after `now` comes sooner than `gap` after attempt `i`. */
  predicate Long(hs: seq<Attempt>, i: nat, t: Time, gap: Time)
    requires i < |hs|
  {
    t >= hs[i].recordedAt + gap
  }

  /** What a bucket's record, or its absence, says about the bucket's streak. */
  ghost predicate RecordFits(hs: seq<Attempt>, s: seq<nat>, table: Table, b: Bucket, now: Time)
    requires StreakOk(hs, s)
  {
    var m := |s|;
    if b !in table then m > 0 ==> Long(hs, s[m - 1], now, 2.0 * LOCKOUT)
    else
      var r := table[b];
      && r.failCount <= m && r.failCount < LOCKOUT_THRESHOLD
      && (m > 0 ==> hs[s[m - 1]].recordedAt == r.lastAttempt)
      && (r.failCount == 0 && m > 0 ==> r.lockedUntil == r.lastAttempt + LOCKOUT)
      && (r.failCount == 1 && m > 1 ==> Long(hs, s[m - 2], hs[s[m - 1]].recordedAt, LOCKOUT))
      && (r.failCount == 2 && m > 2 ==> Long(hs, s[m - 3], hs[s[m - 2]].recordedAt, LOCKOUT))
  }

  /** Any four failures of a streak span the lockout period. */
  ghost predicate Spread(hs: seq<Attempt>, s: seq<nat>)
    requires StreakOk(hs, s)
  {
    forall a :: 0 <= a && a + 3 < |s| ==> Long(hs, s[a], hs[s[a + 3]].recordedAt, LOCKOUT)
  }

  function Now(hs: seq<Attempt>): Time {
    if hs == [] then 0.0 else hs[|hs| - 1].recordedAt
  }

  /**
   The next admitted failure comes late enough after the third
   last one, and after the last one if that set the lock.
   */
  ghost predicate Late(hs: seq<Attempt>, s: seq<nat>, table: Table, a: Attempt)
    requires StreakOk(hs, s)
  {
    && (|s| >= 3 ==> Long(hs, s[|s| - 3], a.recordedAt, LOCKOUT))
    && (|s| >= 1 && Get(table, a.bucket).failCount == 0 ==> Long(hs, s[|s| - 1], a.recordedAt, LOCKOUT))
  }

  lemma FourthIsLate(hs: seq<Attempt>, s: seq<nat>, table: Table, a: Attempt)
    requires StreakOk(hs, s) && RecordFits(hs, s, table, a.bucket, Now(hs)) && Now(hs) <= a.checkedAt <= a.recordedAt
    requires forall i, j :: 0 <= i < j < |hs| ==> hs[i].recordedAt <= hs[j].recordedAt
    requires Check(table, a.checkedAt, a.bucket) == Allowed
    ensures Late(hs, s, table, a)
  {
    var m := |s|;
    if m >= 1 {
      assert hs[s[m - 1]].recordedAt <= hs[|hs| - 1].recordedAt;
    }
    if m >= 3 {
      assert hs[s[m - 3]].recordedAt <= hs[s[m - 2]].recordedAt <= hs[s[m - 1]].recordedAt;
    }
  }

  /** Attempts on other buckets neither add to a bucket's streak nor change its record, but may prune it. */
  lemma {:induction false} OthersApart(hs: seq<Attempt>, k: nat, b: Bucket)
    requires k <= |hs| && forall i :: k <= i < |hs| ==> hs[i].bucket != b
    ensures Streak(hs, b) == Streak(hs[..k], b)
    ensures b in TableAfter(hs) ==> b in TableAfter(hs[..k]) && TableAfter(hs)[b] == TableAfter(hs[..k])[b]
    decreases |hs|
  {
    if k < |hs| {
      var front, a := hs[..|hs| - 1], hs[|hs| - 1];
      OthersApart(front, k, b);
      assert front[..k] == hs[..k];
      PrunedKeeps(TableAfter(front)[a.bucket := Updated(Get(TableAfter(front), a.bucket), a.recordedAt, a.success)],
                  a.recordedAt, b);
    } else {
      assert hs[..k] == hs;
    }
  }

  lemma PrunedKeeps(table: Table, now: Time, b: Bucket)
    ensures b in Pruned(table, now) ==> b in table && Pruned(table, now)[b] == table[b]
    ensures b in table && b !in Pruned(table, now) ==> Stale(table[b], now)
  {
  }

  /** An attempt that changes nothing in the bucket's record leaves the record fitting. */
  lemma UnchangedFits(hs: seq<Attempt>, s: seq<nat>, table: Table, a: Attempt, b: Bucket)
    requires StreakOk(hs, s) && Interleaved(hs + [a]) && RecordFits(hs, s, table, b, Now(hs))
    ensures StreakOk(hs + [a], s)
    ensures RecordFits(hs + [a], s, table, b, a.recordedAt)
    ensures Spread(hs, s) ==> Spread(hs + [a], s)
  {
    var all := hs + [a];
    assert forall i :: 0 <= i < |hs| ==> all[i] == hs[i];
    if hs != [] {
      assert all[|hs| - 1].recordedAt <= all[|hs|].recordedAt;
    }
    if Spread(hs, s) {
      forall n | 0 <= n && n + 3 < |s| ensures Long(all, s[n], all[s[n + 3]].recordedAt, LOCKOUT) {
        assert Long(hs, s[n], hs[s[n + 3]].recordedAt, LOCKOUT);
      }
    }
  }

  lemma OtherFits(hs: seq<Attempt>, s: seq<nat>, table: Table, a: Attempt, b: Bucket)
    requires StreakOk(hs, s) && Interleaved(hs + [a]) && RecordFits(hs, s, table, b, Now(hs)) && b != a.bucket
    ensures StreakOk(hs + [a], s)
    ensures RecordFits(hs + [a], s, Recorded(table, a.recordedAt, a.bucket, a.success), b, a.recordedAt)
  {
    UnchangedFits(hs, s, table, a, b);
    PrunedKeeps(table[a.bucket := Updated(Get(table, a.bucket), a.recordedAt, a.success)], a.recordedAt, b);
  }

  lemma FailureFits(hs: seq<Attempt>, s: seq<nat>, table: Table, a: Attempt)
    requires StreakOk(hs, s) && Interleaved(hs + [a]) && RecordFits(hs, s, table, a.bucket, Now(hs))
    requires Late(hs, s, table, a) && !a.success
    ensures StreakOk(hs + [a], s + [|hs|])
    ensures RecordFits(hs + [a], s + [|hs|], Recorded(table, a.recordedAt, a.bucket, false), a.bucket, a.recordedAt)
  {
    var all := hs + [a];
    assert forall i :: 0 <= i < |hs| ==> all[i] == hs[i];
    PrunedKeeps(table[a.bucket := Updated(Get(table, a.bucket), a.recordedAt, false)], a.recordedAt, a.bucket);
  }

  lemma SuccessFits(hs: seq<Attempt>, table: Table, a: Attempt)
    requires a.success
    ensures RecordFits(hs + [a], [], Recorded(table, a.recordedAt, a.bucket, true), a.bucket, a.recordedAt)
  {
    PrunedKeeps(table[a.bucket := Updated(Get(table, a.bucket), a.recordedAt, true)], a.recordedAt, a.bucket);
  }

  lemma SpreadGrows(hs: seq<Attempt>, s: seq<nat>, table: Table, a: Attempt)
    requires StreakOk(hs, s) && Interleaved(hs + [a]) && RecordFits(hs, s, table, a.bucket, Now(hs)) && Spread(hs, s)
    requires Late(hs, s, table, a)
    ensures StreakOk(hs + [a], s + [|hs|]) && Spread(hs + [a], s + [|hs|])
  {
    var all, s' := hs + [a], s + [|hs|];
    assert forall i :: 0 <= i < |hs| ==> all[i] == hs[i];
    forall n | 0 <= n && n + 3 < |s'| ensures Long(all, s'[n], all[s'[n + 3]].recordedAt, LOCKOUT) {
      if n + 3 < |s| {
        assert Long(hs, s[n], hs[s[n + 3]].recordedAt, LOCKOUT);
      }
    }
  }

  /** The record fits the streak, and the streak is spread. */
  ghost predicate Fits(hs: seq<Attempt>, b: Bucket, s: seq<nat>, table: Table) {
    StreakOk(hs, s) && RecordFits(hs, s, table, b, Now(hs)) && Spread(hs, s)
  }

  lemma StepFits(hs: seq<Attempt>, a: Attempt, b: Bucket, s: seq<nat>, table: Table, ok: bool)
    requires Interleaved(hs + [a]) && Fits(hs, b, s, table) && (ok && a.bucket == b ==> Late(hs, s, table, a))
    ensures Fits(hs + [a], b, if a.bucket != b || !ok then s else if a.success then [] else s + [|hs|],
                 if ok then Recorded(table, a.recordedAt, a.bucket, a.success) else table)
  {
    UnchangedFits(hs, s, table, a, b);
    if ok {
      if a.bucket != b {
        OtherFits(hs, s, table, a, b);
      } else if a.success {
        SuccessFits(hs, table, a);
      } else {
        FailureFits(hs, s, table, a);
        SpreadGrows(hs, s, table, a);
      }
    }
  }

  /** What an attempt saw at its check says the same of the table it is recorded into. */
  lemma LateStill(hs: seq<Attempt>, k: nat, s: seq<nat>, table0: Table, table: Table, a: Attempt)
    requires k <= |hs| && StreakOk(hs[..k], s) && StreakOk(hs, s) && Late(hs[..k], s, table0, a)
    requires RecordFits(hs, s, table, a.bucket, Now(hs)) && Now(hs) <= a.recordedAt
    requires a.bucket in table ==> a.bucket in table0 && table[a.bucket] == table0[a.bucket]
    ensures Late(hs, s, table, a)
  {
  }

  /** The clock between a check and its record. */
  lemma ReadInOrder(hs: seq<Attempt>, a: Attempt)
    requires Interleaved(hs + [a]) && a.seen <= |hs|
    ensures Now(hs[..a.seen]) <= a.checkedAt <= a.recordedAt && Now(hs) <= a.recordedAt
    ensures forall i, j :: 0 <= i < j < |hs| ==> hs[i].recordedAt <= hs[j].recordedAt
    ensures forall i :: a.seen <= i < |hs| ==> hs[i].bucket != a.bucket
  {
    var all := hs + [a];
    assert forall i :: 0 <= i < |hs| ==> all[i] == hs[i];
    assert all[|hs|] == a;
    if a.seen > 0 {
      assert all[a.seen - 1].recordedAt <= all[|hs|].checkedAt;
    }
    if hs != [] {
      assert all[|hs| - 1].recordedAt <= a.recordedAt;
    }
  }

  lemma LateWhenRecorded(hs: seq<Attempt>, a: Attempt, s: seq<nat>, table: Table)
    requires Interleaved(hs + [a]) && a.seen <= |hs| && Admits(hs, a)
    requires s == Streak(hs, a.bucket) && table == TableAfter(hs) && Fits(hs, a.bucket, s, table)
    requires Fits(hs[..a.seen], a.bucket, Streak(hs[..a.seen], a.bucket), TableAfter(hs[..a.seen]))
    ensures Late(hs, s, table, a)
  {
    var seen := hs[..a.seen];
    ReadInOrder(hs, a);
    OthersApart(hs, a.seen, a.bucket);
    hide Interleaved, RecordFits, Late, Check, Spread, Long;
    FourthIsLate(seen, s, TableAfter(seen), a);
    LateStill(hs, a.seen, s, TableAfter(seen), table, a);
  }

  lemma RunStep(front: seq<Attempt>, a: Attempt, b: Bucket)
    ensures var hs, ok := front + [a], Admits(front, a);
            && TableAfter(hs) == (if ok then Recorded(TableAfter(front), a.recordedAt, a.bucket, a.success)
                                  else TableAfter(front))
            && Streak(hs, b) == if a.bucket != b || !ok then Streak(front, b)
                                else if a.success then [] else Streak(front, b) + [|front|]
  {
    hide Admits, Recorded;
    var hs := front + [a];
    assert hs[..|hs| - 1] == front && hs[|hs| - 1] == a;
    assert Admitted(hs, |front|) == Admits(front, a);
  }

  lemma InterleavedPrefix(hs: seq<Attempt>, k: nat)
    requires Interleaved(hs) && k <= |hs|
    ensures Interleaved(hs[..k])
  {
  }

  lemma LastSeen(hs: seq<Attempt>)
    requires Interleaved(hs) && hs != []
    ensures hs[|hs| - 1].seen < |hs| && hs == hs[..|hs| - 1] + [hs[|hs| - 1]]
  {
  }

  lemma {:induction false} RunFits(hs: seq<Attempt>, b: Bucket)
    requires Interleaved(hs)
    ensures Fits(hs, b, Streak(hs, b), TableAfter(hs))
    decreases |hs|
  {
    hide Interleaved, Late, Admits, Recorded;
    if hs != [] {
      var front, a := hs[..|hs| - 1], hs[|hs| - 1];
      LastSeen(hs);
      InterleavedPrefix(hs, |hs| - 1);
      InterleavedPrefix(hs, a.seen);
      RunStep(front, a, b);
      hide Fits;
      assert front[..a.seen] == hs[..a.seen];
      RunFits(front, b);
      if Admits(front, a) && a.bucket == b {
        RunFits(front[..a.seen], b);
        LateWhenRecorded(front, a, Streak(front, b), TableAfter(front));
      }
      StepFits(front, a, b, Streak(front, b), TableAfter(front), Admits(front, a));
    }
  }

  // ----- The two protections -----

  predicate FailedAt(hs: seq<Attempt>, b: Bucket, i: int) {
    Admitted(hs, i) && hs[i].bucket == b && !hs[i].success
  }

  lemma {:induction false} FailureInStreak(hs: seq<Attempt>, b: Bucket, i: nat)
    requires FailedAt(hs, b, i)
    requires forall j :: i < j < |hs| && Admitted(hs, j) && hs[j].bucket == b ==> !hs[j].success
    ensures i in Streak(hs, b)
  {
    var n := |hs| - 1;
    if i < n {
      var front := hs[..n];
      forall j | 0 <= j < n ensures Admitted(front, j) == Admitted(hs, j) {
        assert front[..j] == hs[..j];
      }
      FailureInStreak(front, b, i);
    }
  }

  /** Four members of an increasing sequence: the last lies three places after one not below the first. */
  lemma FourApart(s: seq<nat>, i: nat, j: nat, k: nat, l: nat) returns (p: nat)
    requires forall a, c :: 0 <= a < c < |s| ==> s[a] < s[c]
    requires i in s && j in s && k in s && l in s && i < j < k < l
    ensures p + 3 < |s| && s[p] >= i && s[p + 3] == l
  {
    var pi :| 0 <= pi < |s| && s[pi] == i;
    var pj :| 0 <= pj < |s| && s[pj] == j;
    var pk :| 0 <= pk < |s| && s[pk] == k;
    var pl :| 0 <= pl < |s| && s[pl] == l;
    assert pi < pj < pk < pl;
    p := pl - 3;
  }

  lemma SpreadSpans(hs: seq<Attempt>, s: seq<nat>, i: nat, j: nat, k: nat, l: nat)
    requires Interleaved(hs) && StreakOk(hs, s) && Spread(hs, s)
    requires i in s && j in s && k in s && l in s && i < j < k < l
    ensures l < |hs| && hs[l].recordedAt - hs[i].recordedAt >= LOCKOUT
  {
    var p := FourApart(s, i, j, k, l);
    assert Long(hs, s[p], hs[s[p + 3]].recordedAt, LOCKOUT);
    assert s[p] == i || hs[i].recordedAt <= hs[s[p]].recordedAt;
  }

  /** No admitted success of the bucket between attempt `i` and attempt `l`. */
  predicate NoSuccess(hs: seq<Attempt>, b: Bucket, i: int, l: int) {
    forall n :: i < n < l && Admitted(hs, n) && hs[n].bucket == b ==> !hs[n].success
  }

  lemma PrefixAgrees(hs: seq<Attempt>, b: Bucket, l: nat, i: nat)
    requires i <= l < |hs| && FailedAt(hs, b, l)
    ensures FailedAt(hs[..l + 1], b, i) == FailedAt(hs, b, i)
    ensures NoSuccess(hs, b, i, l) ==> NoSuccess(hs[..l + 1], b, i, l + 1)
  {
    forall n | 0 <= n <= l ensures Admitted(hs[..l + 1], n) == Admitted(hs, n) {
      assert hs[..l + 1][..n] == hs[..n];
    }
  }

  /** A failure with no success after it, up to a later failure, is in the streak at that later one. */
  lemma InStreakAt(hs: seq<Attempt>, b: Bucket, first: nat, i: nat, l: nat)
    requires first <= i <= l < |hs| && FailedAt(hs, b, i) && FailedAt(hs, b, l) && NoSuccess(hs, b, first, l)
    ensures i in Streak(hs[..l + 1], b)
  {
    PrefixAgrees(hs, b, l, i);
    PrefixAgrees(hs, b, l, first);
    FailureInStreak(hs[..l + 1], b, i);
  }

  /**
   Lockout: four admitted failures of a bucket with no admitted success among them span at least
   the lockout period, so no half-open interval of that length contains more than three. Pruning,
   other buckets and refused attempts in between make no difference.
   */
  lemma FourFailuresSpanLockout(hs: seq<Attempt>, b: Bucket, i: nat, j: nat, k: nat, l: nat)
    requires Interleaved(hs) && i < j < k < l < |hs|
    requires FailedAt(hs, b, i) && FailedAt(hs, b, j) && FailedAt(hs, b, k) && FailedAt(hs, b, l)
    requires NoSuccess(hs, b, i, l)
    ensures hs[l].recordedAt - hs[i].recordedAt >= 180.0
  {
    InStreakAt(hs, b, i, i, l);
    InStreakAt(hs, b, i, j, l);
    InStreakAt(hs, b, i, k, l);
    InStreakAt(hs, b, i, l, l);
    RunFits(hs[..l + 1], b);
    SpreadSpans(hs[..l + 1], Streak(hs[..l + 1], b), i, j, k, l);
  }

  /** A bucket's admitted attempt is remembered, or long past. */
  lemma {:induction false} LastAttemptKnown(hs: seq<Attempt>, b: Bucket, i: nat)
    requires Interleaved(hs) && Admitted(hs, i) && hs[i].bucket == b
    ensures var table := TableAfter(hs);
            if b in table then table[b].lastAttempt >= hs[i].recordedAt else Long(hs, i, Now(hs), 2.0 * LOCKOUT)
  {
    hide Admits, Check;
    var n := |hs| - 1;
    var front, a := hs[..n], hs[n];
    var table := TableAfter(front);
    if i < n {
      assert front[..i] == hs[..i];
      LastAttemptKnown(front, b, i);
      assert hs[n - 1].recordedAt <= hs[n].recordedAt;
    }
    if Admits(front, a) {
      PrunedKeeps(table[a.bucket := Updated(Get(table, a.bucket), a.recordedAt, a.success)], a.recordedAt, b);
    }
  }

  /** Cooldown: two admitted attempts of a bucket are at least the cooldown apart. */
  lemma CooldownHolds(hs: seq<Attempt>, i: nat, j: nat)
    requires Interleaved(hs) && i < j < |hs| && Admitted(hs, i) && Admitted(hs, j) && hs[i].bucket == hs[j].bucket
    ensures hs[j].checkedAt - hs[i].recordedAt >= 4.0
  {
    var seen := hs[..hs[j].seen];
    assert i < hs[j].seen <= j;
    assert seen[..i] == hs[..i] && hs[..j][..hs[j].seen] == seen;
    LastAttemptKnown(seen, hs[i].bucket, i);
    assert hs[hs[j].seen - 1].recordedAt <= hs[j].checkedAt;
  }

  // ----- Who is refused -----

  /**
   The failures that count: the admitted ones since the last admitted success, or since the bucket was last
   forgotten by pruning.
   */
  function Counted(hs: seq<Attempt>, b: Bucket): seq<nat> {
    if hs == [] then []
    else
      var n := |hs| - 1;
      var before := Counted(hs[..n], b);
      if b !in TableAfter(hs) then []
      else if hs[n].bucket != b || !Admitted(hs, n) then before
      else if hs[n].success then []
      else before + [n]
  }

  /** A third, sixth, ... counted failure came less than three minutes ago. */
  ghost predicate LockDue(hs: seq<Attempt>, b: Bucket, now: Time) {
    var c := Counted(hs, b);
    |c| > 0 && |c| % 3 == 0 && c[|c| - 1] < |hs| && now < hs[c[|c| - 1]].recordedAt + 180.0
  }

  /** An attempt on the bucket was admitted and recorded less than four seconds ago. */
  ghost predicate JustTried(hs: seq<Attempt>, b: Bucket, now: Time) {
    exists i :: Admitted(hs, i) && hs[i].bucket == b && now < hs[i].recordedAt + 4.0
  }

  /** What a bucket's record says about its counted failures. */
  ghost predicate CountFits(hs: seq<Attempt>, b: Bucket, c: seq<nat>, table: Table) {
    var m := |c|;
    && (forall n :: 0 <= n < m ==> c[n] < |hs|)
    && (b !in table ==> m == 0)
    && (b in table ==>
          && table[b].failCount == m % 3
          && (if m == 0 then table[b].lockedUntil == 0.0
              else if m % 3 == 0 then table[b].lockedUntil == hs[c[m - 1]].recordedAt + 180.0
              else table[b].lockedUntil <= hs[c[m - 1]].recordedAt))
  }

  lemma CountedStep(front: seq<Attempt>, a: Attempt, b: Bucket)
    ensures var hs := front + [a];
            Counted(hs, b) == if b !in TableAfter(hs) then []
                              else if a.bucket != b || !Admits(front, a) then Counted(front, b)
                              else if a.success then [] else Counted(front, b) + [|front|]
  {
    hide Admits, Recorded, TableAfter;
    var hs := front + [a];
    assert hs[..|hs| - 1] == front && hs[|hs| - 1] == a;
    assert Admitted(hs, |front|) == Admits(front, a);
  }

  /** When an admitted attempt is recorded, its bucket is not locked. */
  lemma UnlockedWhenRecorded(hs: seq<Attempt>, a: Attempt)
    requires Interleaved(hs + [a]) && a.seen <= |hs| && Admits(hs, a) && a.bucket in TableAfter(hs)
    ensures TableAfter(hs)[a.bucket].lockedUntil <= a.recordedAt
  {
    ReadInOrder(hs, a);
    OthersApart(hs, a.seen, a.bucket);
  }

  lemma CountStep(front: seq<Attempt>, a: Attempt, b: Bucket, c: seq<nat>, table: Table, ok: bool, table': Table)
    requires CountFits(front, b, c, table) && a.recordedAt > 0.0
    requires table' == if ok then Recorded(table, a.recordedAt, a.bucket, a.success) else table
    requires ok && a.bucket == b && b in table ==> table[b].lockedUntil <= a.recordedAt
    ensures CountFits(front + [a], b,
                      if b !in table' then [] else if a.bucket != b || !ok then c
                      else if a.success then [] else c + [|front|], table')
  {
    var hs := front + [a];
    assert forall i :: 0 <= i < |front| ==> hs[i] == front[i];
    PrunedKeeps(table[a.bucket := Updated(Get(table, a.bucket), a.recordedAt, a.success)], a.recordedAt, b);
  }

  lemma {:induction false} RunCounts(hs: seq<Attempt>, b: Bucket)
    requires Interleaved(hs)
    ensures CountFits(hs, b, Counted(hs, b), TableAfter(hs))
    decreases |hs|
  {
    if hs != [] {
      var front, a := hs[..|hs| - 1], hs[|hs| - 1];
      assert hs == front + [a];
      InterleavedPrefix(hs, |hs| - 1);
      RunStep(front, a, b);
      CountedStep(front, a, b);
      assert a.seen <= |front|;
      hide CountFits, Interleaved, Admits, Recorded;
      RunCounts(front, b);
      if Admits(front, a) && a.bucket == b && b in TableAfter(front) {
        UnlockedWhenRecorded(front, a);
      }
      CountStep(front, a, b, Counted(front, b), TableAfter(front), Admits(front, a), TableAfter(hs));
    }
  }

  /** A bucket's record has the time of an admitted attempt on it. */
  lemma {:induction false} RecordedTried(hs: seq<Attempt>, b: Bucket)
    requires b in TableAfter(hs)
    ensures exists i :: Admitted(hs, i) && hs[i].bucket == b && TableAfter(hs)[b].lastAttempt == hs[i].recordedAt
  {
    if hs != [] {
      var n := |hs| - 1;
      var front, a := hs[..n], hs[n];
      var table := TableAfter(front);
      if Admits(front, a) {
        PrunedKeeps(table[a.bucket := Updated(Get(table, a.bucket), a.recordedAt, a.success)], a.recordedAt, b);
      }
      if Admits(front, a) && a.bucket == b {
        assert Admitted(hs, n);
      } else {
        RecordedTried(front, b);
        var i :| Admitted(front, i) && front[i].bucket == b && table[b].lastAttempt == front[i].recordedAt;
        assert front[..i] == hs[..i] && Admitted(hs, i);
      }
    }
  }

  lemma TriedExactly(hs: seq<Attempt>, b: Bucket, now: Time)
    requires Interleaved(hs) && Now(hs) <= now
    ensures JustTried(hs, b, now) <==> b in TableAfter(hs) && now < TableAfter(hs)[b].lastAttempt + 4.0
  {
    if i :| Admitted(hs, i) && hs[i].bucket == b && now < hs[i].recordedAt + 4.0 {
      LastAttemptKnown(hs, b, i);
    }
    if b in TableAfter(hs) {
      RecordedTried(hs, b);
    }
  }

  lemma RecordPositive(hs: seq<Attempt>, b: Bucket)
    requires Interleaved(hs) && b in TableAfter(hs)
    ensures hs != [] && Now(hs) > 0.0 && TableAfter(hs)[b].lastAttempt > 0.0
  {
    RecordedTried(hs, b);
  }

  /**
   Exactly who is refused, after any run: a bucket is locked out for three minutes from every third counted
   failure, and only then; else it cools down for four seconds from its last admitted attempt, and only then;
   else it is allowed.
   */
  lemma RefusedExactly(hs: seq<Attempt>, b: Bucket, now: Time)
    requires Interleaved(hs) && Now(hs) <= now
    ensures Check(TableAfter(hs), now, b).LockedOut? <==> LockDue(hs, b, now)
    ensures Check(TableAfter(hs), now, b).Cooling? <==> !LockDue(hs, b, now) && JustTried(hs, b, now)
    ensures Check(TableAfter(hs), now, b) == Allowed <==> !LockDue(hs, b, now) && !JustTried(hs, b, now)
  {
    RunCounts(hs, b);
    TriedExactly(hs, b, now);
    if b in TableAfter(hs) {
      RecordPositive(hs, b);
      var c := Counted(hs, b);
      assert |c| > 0 ==> hs[c[|c| - 1]].recordedAt <= hs[|hs| - 1].recordedAt;
    }
  }

  /** The counted failures are the latest of the streak: of the failures since the last success. */
  lemma {:induction false} CountedInStreak(hs: seq<Attempt>, b: Bucket)
    ensures var c, s := Counted(hs, b), Streak(hs, b); |c| <= |s| && c == s[|s| - |c|..]
  {
    if hs != [] {
      CountedInStreak(hs[..|hs| - 1], b);
    }
  }

  /** A lockout needs three failures since the last success, the latest less than three minutes ago. */
  lemma LockedAfterThree(hs: seq<Attempt>, b: Bucket, now: Time)
    requires Interleaved(hs) && Now(hs) <= now && Check(TableAfter(hs), now, b).LockedOut?
    ensures var s := Streak(hs, b); |s| >= 3 && s[|s| - 1] < |hs| && now < hs[s[|s| - 1]].recordedAt + 180.0
  {
    hide Interleaved, Check, TableAfter, Counted, Streak, Admits, JustTried;
    RefusedExactly(hs, b, now);
    CountedInStreak(hs, b);
  }

  function Buckets(hs: seq<Attempt>): set<Bucket> {
    set a | a in hs :: a.bucket
  }

  lemma FewerBuckets(front: seq<Attempt>, a: Attempt)
    ensures Buckets(front + [a]) == Buckets(front) + {a.bucket}
    ensures |Buckets(front)| <= |Buckets(front + [a])|
  {
    var hs := front + [a];
    assert forall x :: x in hs <==> x in front || x == a;
    assert Buckets(hs) == Buckets(front) + {a.bucket};
    SubsetSize(Buckets(front), Buckets(hs));
  }

  lemma {:induction false} SubsetSize<T>(s: set<T>, t: set<T>)
    requires s <= t
    ensures |s| <= |t|
    decreases |s|
  {
    if x :| x in s {
      SubsetSize(s - {x}, t - {x});
    }
  }

  /** A bucket without an admitted attempt has no streak. */
  lemma {:induction false} NoAttemptNoStreak(hs: seq<Attempt>, b: Bucket)
    requires forall i :: Admitted(hs, i) ==> hs[i].bucket != b
    ensures Streak(hs, b) == []
  {
    if hs != [] {
      var front := hs[..|hs| - 1];
      forall i | Admitted(front, i) ensures front[i].bucket != b {
        assert front[..i] == hs[..i] && Admitted(hs, i);
      }
      NoAttemptNoStreak(front, b);
    }
  }

  /** With no more buckets than the table holds before it is pruned, none is forgotten and all failures count. */
  lemma {:induction false} FewNeverPruned(hs: seq<Attempt>)
    requires |Buckets(hs)| <= 256
    ensures TableAfter(hs).Keys <= Buckets(hs)
    ensures forall i :: Admitted(hs, i) ==> hs[i].bucket in TableAfter(hs)
    ensures forall b :: Counted(hs, b) == Streak(hs, b)
  {
    if hs != [] {
      var n := |hs| - 1;
      var front, a := hs[..n], hs[n];
      assert hs == front + [a];
      FewerBuckets(front, a);
      FewNeverPruned(front);
      var all := TableAfter(front)[a.bucket := Updated(Get(TableAfter(front), a.bucket), a.recordedAt, a.success)];
      SubsetSize(all.Keys, Buckets(hs));
      assert |all| == |all.Keys|;
      forall i | Admitted(hs, i) ensures hs[i].bucket in TableAfter(hs) {
        assert i < n ==> front[..i] == hs[..i] && Admitted(front, i);
      }
      forall b ensures Counted(hs, b) == Streak(hs, b) {
        if b !in TableAfter(hs) {
          NoAttemptNoStreak(hs, b);
        }
      }
    }
  }

  /** So with that many buckets the lock follows every third failure since the last success. */
  lemma FewLockedExactly(hs: seq<Attempt>, b: Bucket, now: Time)
    requires Interleaved(hs) && Now(hs) <= now && |Buckets(hs)| <= 256
    ensures var s := Streak(hs, b);
            Check(TableAfter(hs), now, b).LockedOut?
            <==> |s| > 0 && |s| % 3 == 0 && s[|s| - 1] < |hs| && now < hs[s[|s| - 1]].recordedAt + 180.0
  {
    hide Interleaved, Check, TableAfter, Counted, Streak, Admits, JustTried;
    RefusedExactly(hs, b, now);
    FewNeverPruned(hs);
  }

  /** What a refusal says about the wait: it is not over sooner, and surely over a second later. */
  lemma WaitIsOver(table: Table, now: Time, b: Bucket, later: Time)
    requires later >= now
    ensures match Check(table, now, b)
            case LockedOut(s) =>
              && (later < now + s as real ==> Check(table, later, b).LockedOut?)
              && (later >= now + s as real + 1.0 ==> !Check(table, later, b).LockedOut?)
            case Cooling(s) =>
              && (later < now + s as real - 1.0 ==> Check(table, later, b).Cooling?)
              && (later >= now + s as real ==> Check(table, later, b) == Allowed)
            case Allowed => Check(table, later, b) == Allowed
  {
    var left := Get(table, b).lockedUntil - now;
    assert left.Floor as real <= left < left.Floor as real + 1.0;
    var rest := COOLDOWN - (now - Get(table, b).lastAttempt);
    assert rest.Floor as real <= rest < rest.Floor as real + 1.0;
  }

  /**
   Past 256 buckets exactly those are forgotten that are not locked and were not tried for six minutes, so
   what stays is in use.
   */
  lemma ForgottenExactly(table: Table, now: Time, b: Bucket, success: bool, k: Bucket)
    requires k in table && k != b
    ensures var full := |table| + if b in table then 0 else 1;
            k !in Recorded(table, now, b, success)
            <==> full > 256 && table[k].lockedUntil <= now && now - table[k].lastAttempt > 360.0
    ensures k in Recorded(table, now, b, success) ==> Recorded(table, now, b, success)[k] == table[k]
    ensures b in Recorded(table, now, b, success)
  {
    var all := table[b := Updated(Get(table, b), now, success)];
    assert all.Keys == table.Keys + {b};
    assert |all.Keys| == |table.Keys| + if b in table then 0 else 1;
    assert |all| == |all.Keys| && |table| == |table.Keys|;
  }

  /** The cooldown works exactly from a positive clock reading on: 0 stands for "no attempt yet". */
  lemma ZeroReadingUnguarded(r: Record, b: Bucket)
    requires r.lockedUntil == 0.0 && r.lastAttempt >= 0.0
    ensures r.lastAttempt > 0.0
        <==> forall now :: r.lastAttempt <= now < r.lastAttempt + COOLDOWN ==> Check(map[b := r], now, b) != Allowed
  {
    if r.lastAttempt == 0.0 {
      assert Check(map[b := r], 0.0, b) == Allowed;
    }
  }
}
