/**
 The run-length condenser of graylog_fetch.py: consecutive lines of one source with the same
 message, white space at its ends aside, become one line with a count.
 */
module LogCondenser {
  import opened Wrappers

  datatype Line = Line(ts: string, source: string, message: string)
  datatype Run = Run(firstTs: string, source: string, message: string, count: nat, lastTs: string)

  /** What lines are compared by. */
  type Key = (string, string)

  function KeyOf(r: Run): Key {
    (r.source, r.message)
  }

  /** The keys of the lines. `strip` is the interpreter's removal of white space. */
  function Keys(lines: seq<Line>, strip: string -> string): (ks: seq<Key>)
    ensures |ks| == |lines| && forall i :: 0 <= i < |lines| ==> ks[i] == (lines[i].source, strip(lines[i].message))
  {
    seq(|lines|, i requires 0 <= i < |lines| => (lines[i].source, strip(lines[i].message)))
  }

  function Repeat(k: Key, n: nat): (s: seq<Key>)
    ensures |s| == n && forall i :: 0 <= i < n ==> s[i] == k
  {
    seq(n, _ => k)
  }

  /** The keys that a list of runs stands for. */
  function Expand(runs: seq<Run>): seq<Key> {
    if runs == [] then []
    else Expand(runs[..|runs| - 1]) + Repeat(KeyOf(runs[|runs| - 1]), runs[|runs| - 1].count)
  }

  /** No run is empty and neighbours differ. */
  ghost predicate Canonical(runs: seq<Run>) {
    && (forall i :: 0 <= i < |runs| ==> runs[i].count > 0)
    && (forall i {:trigger runs[i + 1]} :: 0 <= i < |runs| - 1 ==> KeyOf(runs[i]) != KeyOf(runs[i + 1]))
  }

  /** Each run carries the timestamps of the first and the last line it stands for. */
  ghost predicate Stamped(runs: seq<Run>, lines: seq<Line>)
    requires |Expand(runs)| <= |lines|
  {
    runs == []
    || (var before, r := Expand(runs[..|runs| - 1]), runs[|runs| - 1];
        && r.count > 0 && r.firstTs == lines[|before|].ts && r.lastTs == lines[|before| + r.count - 1].ts
        && Stamped(runs[..|runs| - 1], lines))
  }

  /** The runs stand for exactly the lines so far, canonically and with their timestamps. */
  ghost predicate Condensed(runs: seq<Run>, lines: seq<Line>, strip: string -> string) {
    Expand(runs) == Keys(lines, strip) && Canonical(runs) && Stamped(runs, lines)
  }

  lemma {:induction false} StampedLonger(runs: seq<Run>, lines: seq<Line>, line: Line)
    requires |Expand(runs)| <= |lines| && Stamped(runs, lines)
    ensures Stamped(runs, lines + [line])
  {
    if runs != [] {
      StampedLonger(runs[..|runs| - 1], lines, line);
    }
  }

  lemma ExpandAppend(runs: seq<Run>, r: Run)
    ensures Expand(runs + [r]) == Expand(runs) + Repeat(KeyOf(r), r.count)
  {
    assert (runs + [r])[..|runs|] == runs;
  }

  lemma KeysAppend(lines: seq<Line>, line: Line, strip: string -> string)
    ensures Keys(lines + [line], strip) == Keys(lines, strip) + [(line.source, strip(line.message))]
  {
  }

  /** A line of the last run's key lengthens it. */
  lemma Lengthens(done: seq<Run>, r: Run, lines: seq<Line>, line: Line, strip: string -> string)
    requires Condensed(done + [r], lines, strip) && KeyOf(r) == (line.source, strip(line.message))
    ensures Condensed(done + [r.(count := r.count + 1, lastTs := line.ts)], lines + [line], strip)
  {
    var longer := r.(count := r.count + 1, lastTs := line.ts);
    ExpandAppend(done, r);
    ExpandAppend(done, longer);
    KeysAppend(lines, line, strip);
    assert Repeat(KeyOf(r), r.count + 1) == Repeat(KeyOf(r), r.count) + [KeyOf(r)];
    assert (done + [r])[..|done|] == done && (done + [longer])[..|done|] == done;
    StampedLonger(done, lines, line);
    CanonicalLast(done, r, longer);
  }

  lemma CanonicalLast(done: seq<Run>, r: Run, longer: Run)
    requires Canonical(done + [r]) && KeyOf(longer) == KeyOf(r) && longer.count > 0
    ensures Canonical(done + [longer])
  {
    forall i {:trigger (done + [longer])[i + 1]} | 0 <= i < |done|
      ensures KeyOf((done + [longer])[i]) != KeyOf((done + [longer])[i + 1])
    {
      assert KeyOf((done + [r])[i]) != KeyOf((done + [r])[i + 1]);
    }
    forall i | 0 <= i < |done| + 1 ensures (done + [longer])[i].count > 0 {
      assert (done + [r])[i].count > 0;
    }
  }

  /** A line of another key starts a new run. */
  lemma Starts(runs: seq<Run>, lines: seq<Line>, line: Line, strip: string -> string)
    requires Condensed(runs, lines, strip)
    requires runs == [] || KeyOf(runs[|runs| - 1]) != (line.source, strip(line.message))
    ensures Condensed(runs + [Run(line.ts, line.source, strip(line.message), 1, line.ts)], lines + [line], strip)
  {
    var r := Run(line.ts, line.source, strip(line.message), 1, line.ts);
    ExpandAppend(runs, r);
    KeysAppend(lines, line, strip);
    assert Repeat(KeyOf(r), 1) == [KeyOf(r)];
    assert (runs + [r])[..|runs|] == runs;
    StampedLonger(runs, lines, line);
    forall i {:trigger (runs + [r])[i + 1]} | 0 <= i < |runs|
      ensures KeyOf((runs + [r])[i]) != KeyOf((runs + [r])[i + 1])
    {
      if i + 1 < |runs| {
        assert KeyOf(runs[i]) != KeyOf(runs[i + 1]);
      }
    }
  }

  /** The run being built, if any, after those that are finished. */
  function Pending(prev: Option<Key>, count: nat, firstTs: string, lastTs: string): seq<Run> {
    match prev
    case None => []
    case Some(k) => [Run(firstTs, k.0, k.1, count, lastTs)]
  }

  /** The first `i` lines are condensed into the finished runs and the pending one. */
  ghost predicate Midway(finished: seq<Run>, prev: Option<Key>, count: nat, firstTs: string, lastTs: string,
                         lines: seq<Line>, i: nat, strip: string -> string)
  {
    && i <= |lines| && (prev == None ==> finished == [])
    && Condensed(finished + Pending(prev, count, firstTs, lastTs), lines[..i], strip)
  }

  lemma MidwayStep(finished: seq<Run>, prev: Option<Key>, count: nat, firstTs: string, lastTs: string,
                   lines: seq<Line>, i: nat, strip: string -> string)
    requires i < |lines| && Midway(finished, prev, count, firstTs, lastTs, lines, i, strip)
    ensures var key := (lines[i].source, strip(lines[i].message));
            if prev == Some(key) then Midway(finished, prev, count + 1, firstTs, lines[i].ts, lines, i + 1, strip)
            else Midway(finished + Pending(prev, count, firstTs, lastTs), Some(key), 1, lines[i].ts, lines[i].ts,
                        lines, i + 1, strip)
  {
    hide Condensed;
    var line := lines[i];
    var key := (line.source, strip(line.message));
    assert lines[..i + 1] == lines[..i] + [line];
    if prev == Some(key) {
      Lengthens(finished, Run(firstTs, key.0, key.1, count, lastTs), lines[..i], line, strip);
    } else {
      Starts(finished + Pending(prev, count, firstTs, lastTs), lines[..i], line, strip);
    }
  }

  lemma NothingCondensed(lines: seq<Line>, strip: string -> string)
    ensures Midway([], None, 0, "", "", lines, 0, strip)
  {
    assert lines[..0] == [];
  }

  method CondenseRepeatedLogs(lines: seq<Line>, strip: string -> string) returns (condensed: seq<Run>)
    ensures Condensed(condensed, lines, strip)
  {
    condensed := [];
    NothingCondensed(lines, strip);
    if lines == [] {
      return;
    }
    hide Condensed;
    var prev: Option<Key> := None;
    var count, firstTs, lastTs := 0, "", "";
    for i := 0 to |lines|
      invariant Midway(condensed, prev, count, firstTs, lastTs, lines, i, strip)
    {
      MidwayStep(condensed, prev, count, firstTs, lastTs, lines, i, strip);
      var key := (lines[i].source, strip(lines[i].message));
      if prev == Some(key) {
        count := count + 1;
        lastTs := lines[i].ts;
      } else {
        if prev.Some? {
          condensed := condensed + [Run(firstTs, prev.value.0, prev.value.1, count, lastTs)];
        }
        prev, firstTs, lastTs, count := Some(key), lines[i].ts, lines[i].ts, 1;
      }
    }
    if prev.Some? {
      condensed := condensed + [Run(firstTs, prev.value.0, prev.value.1, count, lastTs)];
    }
    assert lines[..|lines|] == lines;
  }

  // ----- What a condensed list is worth -----

  function Total(runs: seq<Run>): nat {
    if runs == [] then 0 else Total(runs[..|runs| - 1]) + runs[|runs| - 1].count
  }

  /** The counts add up to the number of lines. */
  lemma {:induction false} CountsAddUp(runs: seq<Run>)
    ensures Total(runs) == |Expand(runs)|
  {
    if runs != [] {
      CountsAddUp(runs[..|runs| - 1]);
    }
  }

  /** The same runs, timestamps aside. */
  ghost predicate SameRuns(a: seq<Run>, b: seq<Run>) {
    |a| == |b| && forall i :: 0 <= i < |a| ==> KeyOf(a[i]) == KeyOf(b[i]) && a[i].count == b[i].count
  }

  lemma LastKey(runs: seq<Run>)
    requires runs != [] && runs[|runs| - 1].count > 0
    ensures Expand(runs) != [] && Expand(runs)[|Expand(runs)| - 1] == KeyOf(runs[|runs| - 1])
  {
  }

  lemma CanonicalInit(runs: seq<Run>)
    requires Canonical(runs) && runs != []
    ensures Canonical(runs[..|runs| - 1]) && runs[|runs| - 1].count > 0
  {
    var init := runs[..|runs| - 1];
    forall i {:trigger init[i + 1]} | 0 <= i < |init| - 1 ensures KeyOf(init[i]) != KeyOf(init[i + 1]) {
      assert init[i] == runs[i] && init[i + 1] == runs[i + 1];
    }
  }

  /** Before the last run of a canonical list the key is another one. */
  lemma BeforeLast(runs: seq<Run>)
    requires Canonical(runs) && runs != []
    ensures var all, n := Expand(runs), runs[|runs| - 1].count;
            n <= |all| && (n < |all| ==> all[|all| - n - 1] != KeyOf(runs[|runs| - 1]))
  {
    var init := runs[..|runs| - 1];
    if init != [] {
      CanonicalInit(runs);
      CanonicalInit(init);
      LastKey(init);
      var i := |runs| - 2;
      assert KeyOf(runs[i]) != KeyOf(runs[i + 1]);
    }
  }

  /** A tail of one key is no longer than the last run. */
  lemma TailFits(runs: seq<Run>, before: seq<Key>, k: Key, n: nat)
    requires Canonical(runs) && Expand(runs) == before + Repeat(k, n) && n > 0
    ensures runs != [] && KeyOf(runs[|runs| - 1]) == k && n <= runs[|runs| - 1].count
  {
    var all := Expand(runs);
    assert forall j :: |before| <= j < |all| ==> all[j] == k;
    CanonicalInit(runs);
    LastKey(runs);
    BeforeLast(runs);
    var m := runs[|runs| - 1].count;
  }

  lemma LastRunsAgree(a: seq<Run>, b: seq<Run>)
    requires Canonical(a) && Canonical(b) && a != [] && b != [] && Expand(a) == Expand(b)
    ensures KeyOf(a[|a| - 1]) == KeyOf(b[|b| - 1]) && a[|a| - 1].count == b[|b| - 1].count
  {
    CanonicalInit(a);
    CanonicalInit(b);
    TailFits(a, Expand(b[..|b| - 1]), KeyOf(b[|b| - 1]), b[|b| - 1].count);
    TailFits(b, Expand(a[..|a| - 1]), KeyOf(a[|a| - 1]), a[|a| - 1].count);
  }

  /** Condensing is one-to-one: two canonical lists that stand for the same lines are the same runs. */
  lemma {:induction false} CanonicalUnique(a: seq<Run>, b: seq<Run>)
    requires Canonical(a) && Canonical(b) && Expand(a) == Expand(b)
    ensures SameRuns(a, b)
    decreases |a|
  {
    if a == [] {
      if b != [] {
        LastKey(b);
      }
    } else if b == [] {
      LastKey(a);
    } else {
      LastRunsAgree(a, b);
      CanonicalInit(a);
      CanonicalInit(b);
      var x, y := Expand(a[..|a| - 1]), Expand(b[..|b| - 1]);
      var tail := Repeat(KeyOf(a[|a| - 1]), a[|a| - 1].count);
      assert x + tail == y + tail;
      assert x == (x + tail)[..|x|] == (y + tail)[..|y|] == y;
      CanonicalUnique(a[..|a| - 1], b[..|b| - 1]);
    }
  }

  /** Taking lines of one run off the end of a canonical list leaves a canonical list at most one run shorter. */
  lemma TakenOff(a: seq<Run>, before: seq<Key>, k: Key, n: nat) returns (rest: seq<Run>)
    requires Canonical(a) && Expand(a) == before + Repeat(k, n)
    ensures Canonical(rest) && Expand(rest) == before && |a| <= |rest| + 1
  {
    if n == 0 {
      assert before + Repeat(k, 0) == before;
      return a;
    }
    TailFits(a, before, k, n);
    CanonicalInit(a);
    var init, r := a[..|a| - 1], a[|a| - 1];
    Cut(Expand(init), before, k, r.count, n);
    if r.count == n {
      return init;
    }
    var shorter := r.(count := r.count - n);
    assert init + [r] == a;
    CanonicalLast(init, r, shorter);
    ExpandAppend(init, shorter);
    rest := init + [shorter];
  }

  lemma Cut(x: seq<Key>, before: seq<Key>, k: Key, m: nat, n: nat)
    requires x + Repeat(k, m) == before + Repeat(k, n) && n <= m
    ensures before == x + Repeat(k, m - n)
    ensures n == m ==> before == x
  {
    var all := x + Repeat(k, m);
    assert before == all[..|all| - n];
    assert all[..|all| - n] == x + Repeat(k, m - n);
    assert x + Repeat(k, 0) == x;
  }

  /** And minimal: no list of runs that stands for the same lines is shorter. */
  lemma {:induction false} CanonicalShortest(a: seq<Run>, b: seq<Run>)
    requires Canonical(a) && Expand(a) == Expand(b)
    ensures |a| <= |b|
    decreases |b|
  {
    if b == [] {
      if a != [] {
        LastKey(a);
      }
    } else {
      var r, init := b[|b| - 1], b[..|b| - 1];
      var rest := TakenOff(a, Expand(init), KeyOf(r), r.count);
      CanonicalShortest(rest, init);
    }
  }

  /** Every canonical list is what condensing the lines it stands for gives, timestamps aside. */
  lemma CondensedExactly(runs: seq<Run>, canonical: seq<Run>, lines: seq<Line>, strip: string -> string)
    requires Condensed(runs, lines, strip) && Canonical(canonical)
    ensures Expand(canonical) == Keys(lines, strip) <==> SameRuns(canonical, runs)
  {
    if Expand(canonical) == Keys(lines, strip) {
      CanonicalUnique(canonical, runs);
    }
    if SameRuns(canonical, runs) {
      SameExpand(canonical, runs);
    }
  }

  lemma {:induction false} SameExpand(a: seq<Run>, b: seq<Run>)
    requires SameRuns(a, b)
    ensures Expand(a) == Expand(b)
    decreases |a|
  {
    if a != [] {
      SameExpand(a[..|a| - 1], b[..|b| - 1]);
    }
  }
}
