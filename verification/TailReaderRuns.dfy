/**
 Whole runs of the tailing reader: appends to the file and batch reads, in any order and with
 any batch sizes. What has been delivered is at every moment a prefix of the list of complete,
 decodable, level-passing lines, and the reader catches up within a bounded number of reads.
 */
module TailReaderRuns {
  import opened Wrappers
  import opened TailReader
  import opened Text

  // ----- Blank text -----

  /** Characters a reader may step over inside a line without changing it: blanks, not newlines. */
  predicate Padding(c: string, p: nat, q: nat)
    requires p <= q <= |c|
  {
    forall i :: p <= i < q ==> IsSpace(c[i]) && c[i] != '\n'
  }

  lemma {:induction false} TrimLeftBlank(s: string)
    ensures TrimLeft(s) == "" <==> forall i :: 0 <= i < |s| ==> IsSpace(s[i])
  {
    if s != [] && IsSpace(s[0]) {
      TrimLeftBlank(s[1..]);
      assert forall i :: 0 < i < |s| ==> s[i] == s[1..][i - 1];
    }
  }

  lemma {:induction false} TrimRightKeepsHead(s: string)
    requires s != [] && !IsSpace(s[0])
    ensures TrimRight(s) != ""
  {
    if IsSpace(s[|s| - 1]) {
      TrimRightKeepsHead(s[..|s| - 1]);
    }
  }

  lemma {:induction false} TrimLeftHead(s: string)
    ensures TrimLeft(s) != "" ==> !IsSpace(TrimLeft(s)[0])
  {
    if s != [] && IsSpace(s[0]) {
      TrimLeftHead(s[1..]);
    }
  }

  lemma StripBlank(s: string)
    ensures Strip(s) == "" <==> forall i :: 0 <= i < |s| ==> IsSpace(s[i])
  {
    TrimLeftBlank(s);
    TrimLeftHead(s);
    if TrimLeft(s) != "" {
      TrimRightKeepsHead(TrimLeft(s));
    }
  }

  lemma {:induction false} TrimLeftPadding(c: string, p: nat, q: nat, e: nat)
    requires p <= q <= e <= |c| && Padding(c, p, q)
    ensures TrimLeft(c[p..e]) == TrimLeft(c[q..e])
    decreases q - p
  {
    if p < q {
      TrimLeftPadding(c, p + 1, q, e);
      assert c[p..e][1..] == c[p + 1..e];
    }
  }

  lemma {:induction false} LineEndPadding(c: string, p: nat, q: nat)
    requires p <= q < |c| && Padding(c, p, q)
    ensures LineEnd(c, p) == LineEnd(c, q)
    decreases q - p
  {
    if p < q {
      LineEndPadding(c, p + 1, q);
    }
  }

  /** Starting inside the leading blanks of a line delivers the same as starting at the line. */
  lemma PaddingSkipped(f: Filter, c: string, p: nat, q: nat)
    requires p <= q <= |c| && Padding(c, p, q)
    ensures Deliverable(f, c, p) == Deliverable(f, c, q)
  {
    if q < |c| {
      LineEndPadding(c, p, q);
      TrimLeftPadding(c, p, q, LineEnd(c, q));
    } else if p < |c| {
      assert c[LineEnd(c, p) - 1] != '\n';
    }
  }

  // ----- What is to be delivered, in plain terms -----

  /** The text from `q` to `e` is one line with its newline. */
  predicate IsLine(c: string, q: nat, e: nat) {
    q < e <= |c| && c[e - 1] == '\n' && forall i :: q <= i < e - 1 ==> c[i] != '\n'
  }

  /** Reading from `p` on, a line starts at `q`. */
  predicate StartsLine(c: string, p: nat, q: nat) {
    q == p || (p < q <= |c| && c[q - 1] == '\n')
  }

  /** The line that starts at `q` holds this alert, of a sufficient level. */
  predicate Holds(f: Filter, c: string, q: nat, item: Item) {
    && IsLine(c, q, item.end)
    && var text := Strip(c[q..item.end]);
       text != "" && f.parse(text) == Some(item.alert) && item.alert.level >= f.minLevel
  }

  /** Some line from `p` on does. */
  ghost predicate Due(f: Filter, c: string, p: nat, item: Item) {
    exists q :: StartsLine(c, p, q) && Holds(f, c, q, item)
  }

  predicate NoLine(c: string, p: nat) {
    forall i :: p <= i < |c| ==> c[i] != '\n'
  }

  lemma NoLineLeft(c: string, p: nat)
    ensures Complete(c, p) <==> !NoLine(c, p)
    ensures Complete(c, p) ==> IsLine(c, p, LineEnd(c, p))
  {
    if p < |c| && !NoLine(c, p) {
      var i :| p <= i < |c| && c[i] == '\n';
      assert !(i < LineEnd(c, p) - 1);
    }
  }

  lemma LineHits(f: Filter, c: string, p: nat, item: Item)
    requires Complete(c, p)
    ensures Holds(f, c, p, item) <==> Classify(f, c, p) == Hit(item.alert) && item.end == LineEnd(c, p)
  {
    NoLineLeft(c, p);
    hide Strip;
    if IsLine(c, p, item.end) {
      assert !(item.end < LineEnd(c, p)) && !(LineEnd(c, p) < item.end);
    }
  }

  lemma DueNext(f: Filter, c: string, p: nat, item: Item)
    requires Complete(c, p)
    ensures Due(f, c, p, item) <==> Holds(f, c, p, item) || Due(f, c, LineEnd(c, p), item)
  {
    hide Holds;
    var end := LineEnd(c, p);
    if Due(f, c, p, item) {
      var q :| StartsLine(c, p, q) && Holds(f, c, q, item);
      assert q != p ==> StartsLine(c, end, q) by {
        assert q != p ==> !(q - 1 < end - 1);
      }
    }
    if Due(f, c, end, item) {
      var q :| StartsLine(c, end, q) && Holds(f, c, q, item);
      assert StartsLine(c, p, q);
    }
    if Holds(f, c, p, item) {
      assert StartsLine(c, p, p);
    }
  }

  lemma NothingDue(f: Filter, c: string, p: nat, item: Item)
    requires !Complete(c, p)
    ensures !Due(f, c, p, item)
  {
    NoLineLeft(c, p);
    if q :| StartsLine(c, p, q) && Holds(f, c, q, item) {
      assert c[item.end - 1] == '\n' && p <= item.end - 1;
    }
  }

  /** The reference list holds exactly what the lines from `p` on hold. */
  lemma {:induction false} DeliverableExactly(f: Filter, c: string, p: nat, item: Item)
    ensures item in Deliverable(f, c, p) <==> Due(f, c, p, item)
    decreases |c| - p
  {
    if Complete(c, p) {
      hide Classify, Due;
      DeliverableExactly(f, c, LineEnd(c, p), item);
      DueNext(f, c, p, item);
      LineHits(f, c, p, item);
    } else {
      NothingDue(f, c, p, item);
    }
  }

  /** In the order of the file, no line twice. */
  predicate InFileOrder(items: seq<Item>) {
    forall i, j :: 0 <= i < j < |items| ==> items[i].end < items[j].end
  }

  lemma {:induction false} DeliverableInOrder(f: Filter, c: string, p: nat)
    ensures InFileOrder(Deliverable(f, c, p))
    ensures forall i :: 0 <= i < |Deliverable(f, c, p)| ==> Deliverable(f, c, p)[i].end > p
    decreases |c| - p
  {
    if Complete(c, p) {
      hide Classify;
      DeliverableInOrder(f, c, LineEnd(c, p));
    }
  }

  /**
   These deliveries are in file order and due; none that is due was skipped on the way to them; and once no
   line is left to read, all that are due are among them.
   */
  ghost predicate DeliveredPlainly(f: Filter, c: string, start: nat, pos: nat, delivered: seq<Item>) {
    && InFileOrder(delivered)
    && (forall x :: x in delivered ==> Due(f, c, start, x))
    && (forall x, y :: x in delivered && Due(f, c, start, y) && y.end <= x.end ==> y in delivered)
    && (NoLine(c, pos) ==> forall y :: Due(f, c, start, y) ==> y in delivered)
  }

  lemma PrefixPlainly(f: Filter, c: string, start: nat, pos: nat, delivered: seq<Item>)
    requires delivered <= Deliverable(f, c, start)
    requires NoLine(c, pos) ==> delivered == Deliverable(f, c, start)
    ensures DeliveredPlainly(f, c, start, pos, delivered)
  {
    var all := Deliverable(f, c, start);
    DeliverableInOrder(f, c, start);
    forall x ensures x in all <==> Due(f, c, start, x) {
      DeliverableExactly(f, c, start, x);
    }
    hide Due, Deliverable;
    forall x, y | x in delivered && Due(f, c, start, y) && y.end <= x.end ensures y in delivered {
      var i :| 0 <= i < |delivered| && delivered[i] == x;
      var j :| 0 <= j < |all| && all[j] == y;
      assert all[i] == x && !(i < j);
    }
  }

  // ----- Appending -----

  lemma {:induction false} CompleteStays(c: string, more: string, p: nat)
    requires Complete(c, p)
    ensures Complete(c + more, p) && LineEnd(c + more, p) == LineEnd(c, p) && LineAt(c + more, p) == LineAt(c, p)
    decreases |c| - p
  {
    if c[p] != '\n' && p + 1 < |c| {
      CompleteStays(c, more, p + 1);
    }
  }

  lemma CompleteStaysSo(f: Filter, c: string, more: string, p: nat)
    requires Complete(c, p)
    ensures Complete(c + more, p) && LineEnd(c + more, p) == LineEnd(c, p)
    ensures Classify(f, c + more, p) == Classify(f, c, p)
  {
    CompleteStays(c, more, p);
  }

  /** A blank end of the file is read ahead of its newline; nothing deliverable is skipped. */
  lemma BlankEndSkipped(f: Filter, c: string, p: nat, more: string)
    requires p < |c| && !Complete(c, p) && Classify(f, c, p) == Blank
    ensures LineEnd(c, p) == |c| && Deliverable(f, c + more, p) == Deliverable(f, c + more, |c|)
  {
    StripBlank(LineAt(c, p));
    forall i | p <= i < |c| ensures IsSpace(c[i]) && c[i] != '\n' {
      assert c[i] == LineAt(c, p)[i - p];
    }
    PaddingSkipped(f, c + more, p, |c|);
  }

  /** A batch followed by what is deliverable from where it ends. */
  function Continued(f: Filter, c: string, batch: Batch): seq<Item> {
    batch.items + Deliverable(f, c, batch.pos)
  }

  lemma ContinuedOne(f: Filter, c: string, item: Item, batch: Batch)
    ensures Continued(f, c, Join([item], batch)) == [item] + Continued(f, c, batch)
  {
  }

  /**
   A batch takes the next items and no others, whatever is appended to the file afterwards: for
   every later content, what was deliverable from the old offset is the batch followed by what is
   deliverable from the new one.
   */
  lemma {:induction false} BatchIsNext(f: Filter, maxCount: int, c: string, p: nat, retries: Retries, got: nat,
                                       more: string)
    requires p <= |c|
    ensures p <= ReadFrom(f, maxCount, c, p, retries, got).pos <= |c|
    ensures Deliverable(f, c + more, p) == Continued(f, c + more, ReadFrom(f, maxCount, c, p, retries, got))
    decreases |c| - p
  {
    hide Strip;
    if p < |c| {
      var end := LineEnd(c, p);
      if Complete(c, p) {
        CompleteStaysSo(f, c, more, p);
      }
      match Classify(f, c, p)
      case Blank =>
        if !Complete(c, p) {
          BlankEndSkipped(f, c, p, more);
        }
        BatchIsNext(f, maxCount, c, end, retries, got, more);
      case Partial =>
      case Broken =>
        if Strikes(retries, p) + 1 >= MAX_RETRIES {
          BatchIsNext(f, maxCount, c, end, retries - {p}, got, more);
        }
      case Low(_) =>
        BatchIsNext(f, maxCount, c, end, retries - {p}, got, more);
      case Hit(a) =>
        if got + 1 < maxCount {
          BatchIsNext(f, maxCount, c, end, retries - {p}, got + 1, more);
          ContinuedOne(f, c + more, Item(a, end), ReadFrom(f, maxCount, c, end, retries - {p}, got + 1));
        }
    }
  }

  // ----- Why a batch ends -----

  /** No complete line is left: the end of the file, or a line still being written. */
  predicate AtRest(f: Filter, c: string, p: nat) {
    p >= |c| || Classify(f, c, p) == Partial
  }

  /** Of a last line without its newline, blank text is read ahead of it; all else waits. */
  lemma RestExactly(f: Filter, c: string, p: nat)
    ensures AtRest(f, c, p) <==> p >= |c| || (NoLine(c, p) && exists i :: p <= i < |c| && !IsSpace(c[i]))
  {
    NoLineLeft(c, p);
    if p < |c| {
      StripBlank(LineAt(c, p));
      if NoLine(c, p) {
        assert LineEnd(c, p) == |c|;
        assert forall i :: p <= i < |c| ==> LineAt(c, p)[i - p] == c[i];
        assert forall i :: 0 <= i < |LineAt(c, p)| ==> LineAt(c, p)[i] == c[p + i];
      }
    }
  }

  /** A line that does not decode and has not used up its retries. */
  predicate Struck(f: Filter, c: string, p: nat, retries: Retries) {
    p < |c| && Classify(f, c, p) == Broken && 1 <= Strikes(retries, p) < MAX_RETRIES
  }

  /** A batch holds at most the limit, or one item if the limit is not positive. */
  lemma {:induction false} BatchLimited(f: Filter, maxCount: int, c: string, p: nat, retries: Retries, got: nat)
    requires got == 0 || got < maxCount
    ensures got + |ReadFrom(f, maxCount, c, p, retries, got).items| <= if maxCount <= 1 then 1 else maxCount
    decreases |c| - p
  {
    if p < |c| {
      var end := LineEnd(c, p);
      match Classify(f, c, p)
      case Blank => BatchLimited(f, maxCount, c, end, retries, got);
      case Partial =>
      case Broken => BatchLimited(f, maxCount, c, end, retries - {p}, got);
      case Low(_) => BatchLimited(f, maxCount, c, end, retries - {p}, got);
      case Hit(_) =>
        if got + 1 < maxCount {
          BatchLimited(f, maxCount, c, end, retries - {p}, got + 1);
        }
    }
  }

  /** The batch is full, and ends right behind its last item. */
  predicate Full(maxCount: int, got: nat, batch: Batch) {
    batch.items != [] && got + |batch.items| >= maxCount && batch.pos == batch.items[|batch.items| - 1].end
  }

  /** A batch ends only when it is full, or at rest, or at a line on its 1st to 4th strike. */
  lemma {:induction false} BatchEnds(f: Filter, maxCount: int, c: string, p: nat, retries: Retries, got: nat)
    requires p <= |c|
    ensures var batch := ReadFrom(f, maxCount, c, p, retries, got);
            Full(maxCount, got, batch) || AtRest(f, c, batch.pos) || Struck(f, c, batch.pos, batch.retries)
    decreases |c| - p
  {
    hide Classify, LineEnd, Strip;
    if p < |c| {
      var end := LineEnd(c, p);
      match Classify(f, c, p)
      case Blank => BatchEnds(f, maxCount, c, end, retries, got);
      case Partial =>
      case Broken => BatchEnds(f, maxCount, c, end, retries - {p}, got);
      case Low(_) => BatchEnds(f, maxCount, c, end, retries - {p}, got);
      case Hit(_) => BatchEnds(f, maxCount, c, end, retries - {p}, got + 1);
    }
  }

  // ----- Retries -----

  /** The retry map is empty, or holds a strike count of 1 to 4 for the current offset only. */
  predicate OneStrike(f: Filter, c: string, p: nat, retries: Retries) {
    retries == map[] || (retries.Keys == {p} && Struck(f, c, p, retries))
  }

  lemma {:induction false} BatchKeepsOneStrike(f: Filter, maxCount: int, c: string, p: nat, retries: Retries, got: nat)
    requires p <= |c| && OneStrike(f, c, p, retries)
    ensures var batch := ReadFrom(f, maxCount, c, p, retries, got);
            OneStrike(f, c, batch.pos, batch.retries)
    decreases |c| - p
  {
    if p < |c| {
      var end := LineEnd(c, p);
      assert retries - {p} == map[];
      match Classify(f, c, p)
      case Blank => BatchKeepsOneStrike(f, maxCount, c, end, map[], got);
      case Partial =>
      case Broken =>
        if Strikes(retries, p) + 1 >= MAX_RETRIES {
          BatchKeepsOneStrike(f, maxCount, c, end, map[], got);
        }
      case Low(_) => BatchKeepsOneStrike(f, maxCount, c, end, map[], got);
      case Hit(_) =>
        if got + 1 < maxCount {
          BatchKeepsOneStrike(f, maxCount, c, end, map[], got + 1);
        }
    }
  }

  /** A read with a line to handle in front of it moves on, or strikes that line once more. */
  lemma BatchProgress(f: Filter, maxCount: int, c: string, p: nat, retries: Retries)
    requires !AtRest(f, c, p)
    ensures var batch := ReadFrom(f, maxCount, c, p, retries, 0);
            batch.pos > p
            || (batch.pos == p && batch.items == []
                && Strikes(batch.retries, p) == Strikes(retries, p) + 1 < MAX_RETRIES)
  {
    var end := LineEnd(c, p);
    match Classify(f, c, p)
    case Blank => BatchIsNext(f, maxCount, c, end, retries, 0, "");
    case Partial =>
    case Broken => BatchIsNext(f, maxCount, c, end, retries - {p}, 0, "");
    case Low(_) => BatchIsNext(f, maxCount, c, end, retries - {p}, 0, "");
    case Hit(_) => BatchIsNext(f, maxCount, c, end, retries - {p}, 1, "");
  }

  // ----- Runs -----

  datatype Event = Append(text: string) | Read(maxCount: int)

  datatype Tail = Tail(content: string, saved: Saved, retries: Retries, delivered: seq<Item>)

  function Step(f: Filter, sig: string -> Sig, t: Tail, e: Event): Tail {
    match e
    case Append(text) => t.(content := t.content + text)
    case Read(maxCount) =>
      var head := sig(Head(t.content));
      var (start, reset) := Resolve(t.saved, head, |t.content|);
      var batch := ReadFrom(f, maxCount, t.content, start, if reset then map[] else t.retries, 0);
      Tail(t.content, At(batch.pos, Some(head)), batch.retries, t.delivered + batch.items)
  }

  function After(f: Filter, sig: string -> Sig, t: Tail, evs: seq<Event>): Tail {
    if evs == [] then t else Step(f, sig, After(f, sig, t, evs[..|evs| - 1]), evs[|evs| - 1])
  }

  /** The reader follows this file: its saved head is the file's, and appends cannot change it. */
  predicate Following(f: Filter, sig: string -> Sig, t: Tail) {
    && 40 <= |t.content|
    && t.saved.At? && t.saved.head == Some(sig(Head(t.content))) && t.saved.offset <= |t.content|
    && OneStrike(f, t.content, t.saved.offset, t.retries)
  }

  lemma StepFollows(f: Filter, sig: string -> Sig, t: Tail, e: Event)
    requires Following(f, sig, t)
    ensures var t' := Step(f, sig, t, e);
            && Following(f, sig, t')
            && t.saved.offset <= t'.saved.offset
            && (e.Read? ==> Resolve(t.saved, sig(Head(t.content)), |t.content|) == (t.saved.offset, false))
  {
    match e
    case Append(text) =>
      assert Head(t.content + text) == Head(t.content);
      if t.retries != map[] {
        CompleteStaysSo(f, t.content, text, t.saved.offset);
      }
    case Read(maxCount) =>
      BatchIsNext(f, maxCount, t.content, t.saved.offset, t.retries, 0, "");
      BatchKeepsOneStrike(f, maxCount, t.content, t.saved.offset, t.retries, 0);
  }

  /** With `more` appended: delivered so far plus deliverable from here is deliverable from the start. */
  ghost predicate OnCourseFor(f: Filter, start: nat, t: Tail, more: string) {
    t.saved.At?
    && Deliverable(f, t.content + more, start) == t.delivered + Deliverable(f, t.content + more, t.saved.offset)
  }

  ghost predicate OnCourse(f: Filter, start: nat, t: Tail) {
    forall more :: OnCourseFor(f, start, t, more)
  }

  lemma ReadOnCourse(f: Filter, sig: string -> Sig, start: nat, t: Tail, maxCount: int, more: string)
    requires Following(f, sig, t) && OnCourseFor(f, start, t, more)
    ensures OnCourseFor(f, start, Step(f, sig, t, Read(maxCount)), more)
  {
    BatchIsNext(f, maxCount, t.content, t.saved.offset, t.retries, 0, more);
    var batch := ReadFrom(f, maxCount, t.content, t.saved.offset, t.retries, 0);
    var rest := Deliverable(f, t.content + more, batch.pos);
    assert t.delivered + (batch.items + rest) == t.delivered + batch.items + rest;
  }

  lemma StepOnCourse(f: Filter, sig: string -> Sig, start: nat, t: Tail, e: Event)
    requires Following(f, sig, t) && OnCourse(f, start, t)
    ensures OnCourse(f, start, Step(f, sig, t, e))
  {
    forall more ensures OnCourseFor(f, start, Step(f, sig, t, e), more) {
      match e
      case Append(text) =>
        assert OnCourseFor(f, start, t, text + more);
        assert t.content + text + more == t.content + (text + more);
      case Read(maxCount) =>
        assert OnCourseFor(f, start, t, more);
        ReadOnCourse(f, sig, start, t, maxCount, more);
    }
  }

  lemma {:induction false} RunFollows(f: Filter, sig: string -> Sig, t: Tail, evs: seq<Event>)
    requires Following(f, sig, t)
    ensures var t' := After(f, sig, t, evs);
            Following(f, sig, t') && t.saved.offset <= t'.saved.offset
  {
    if evs != [] {
      RunFollows(f, sig, t, evs[..|evs| - 1]);
      StepFollows(f, sig, After(f, sig, t, evs[..|evs| - 1]), evs[|evs| - 1]);
    }
  }

  lemma {:induction false} RunOnCourse(f: Filter, sig: string -> Sig, t: Tail, evs: seq<Event>)
    requires Following(f, sig, t) && t.delivered == []
    ensures OnCourse(f, t.saved.offset, After(f, sig, t, evs))
  {
    if evs != [] {
      var front := evs[..|evs| - 1];
      RunOnCourse(f, sig, t, front);
      RunFollows(f, sig, t, front);
      StepOnCourse(f, sig, t.saved.offset, After(f, sig, t, front), evs[|evs| - 1]);
    }
  }

  /** What a run has delivered, against the reference list of the file as it is at the end of the run. */
  ghost predicate DeliveredInOrder(f: Filter, start: nat, t: Tail) {
    && t.saved.At?
    && t.delivered <= Deliverable(f, t.content, start)
    && (AtRest(f, t.content, t.saved.offset) ==> t.delivered == Deliverable(f, t.content, start))
    && DeliveredPlainly(f, t.content, start, t.saved.offset, t.delivered)
  }

  /**
   Under any interleaving of appends and reads, with any batch sizes, the concatenated deliveries
   are a prefix of the reference list of the file as it now is: nothing is lost, duplicated or
   reordered. The prefix is the whole list once the reader is at rest, or no line is left to read.
   */
  lemma DeliversReference(f: Filter, sig: string -> Sig, t: Tail, evs: seq<Event>)
    requires Following(f, sig, t) && t.delivered == []
    ensures DeliveredInOrder(f, t.saved.offset, After(f, sig, t, evs))
  {
    var t' := After(f, sig, t, evs);
    RunFollows(f, sig, t, evs);
    RunOnCourse(f, sig, t, evs);
    assert OnCourseFor(f, t.saved.offset, t', "");
    assert t'.content + "" == t'.content;
    NoLineLeft(t'.content, t'.saved.offset);
    PrefixPlainly(f, t'.content, t.saved.offset, t'.saved.offset, t'.delivered);
  }

  // ----- Progress -----

  function Reads(evs: seq<Event>): nat {
    if evs == [] then 0 else Reads(evs[..|evs| - 1]) + if evs[|evs| - 1].Read? then 1 else 0
  }

  lemma {:induction false} StrikesOrMoves(f: Filter, sig: string -> Sig, t: Tail, evs: seq<Event>)
    requires Following(f, sig, t) && Complete(t.content, t.saved.offset)
    ensures var t' := After(f, sig, t, evs);
            && Following(f, sig, t')
            && (t'.saved.offset > t.saved.offset
                || (t'.saved.offset == t.saved.offset && Complete(t'.content, t.saved.offset)
                    && Strikes(t'.retries, t.saved.offset) == Strikes(t.retries, t.saved.offset) + Reads(evs)))
  {
    if evs != [] {
      var front, e := evs[..|evs| - 1], evs[|evs| - 1];
      var m := After(f, sig, t, front);
      StrikesOrMoves(f, sig, t, front);
      StepFollows(f, sig, m, e);
      if m.saved.offset == t.saved.offset {
        match e
        case Append(text) => CompleteStaysSo(f, m.content, text, t.saved.offset);
        case Read(maxCount) => BatchProgress(f, maxCount, m.content, t.saved.offset, m.retries);
      }
    }
  }

  /** A line that is not blank and does not decode. */
  predicate BrokenLine(f: Filter, c: string, q: nat, e: nat) {
    IsLine(c, q, e) && Strip(c[q..e]) != "" && f.parse(Strip(c[q..e])) == None
  }

  lemma LineBreaks(f: Filter, c: string, q: nat, e: nat)
    requires BrokenLine(f, c, q, e)
    ensures Complete(c, q) && LineEnd(c, q) == e && Classify(f, c, q) == Broken
  {
    NoLineLeft(c, q);
    assert !(e < LineEnd(c, q)) && !(LineEnd(c, q) < e);
  }

  /** A read passes a line that does not decode only on its fifth strike. */
  lemma BrokenPassed(f: Filter, maxCount: int, c: string, p: nat, retries: Retries)
    requires p < |c| && Classify(f, c, p) == Broken
    ensures ReadFrom(f, maxCount, c, p, retries, 0).pos > p <==> Strikes(retries, p) >= 4
  {
    if Strikes(retries, p) >= 4 {
      BatchIsNext(f, maxCount, c, LineEnd(c, p), retries - {p}, 0, "");
    }
  }

  lemma {:induction false} BrokenRun(f: Filter, sig: string -> Sig, t: Tail, evs: seq<Event>)
    requires Following(f, sig, t) && Complete(t.content, t.saved.offset)
    requires Classify(f, t.content, t.saved.offset) == Broken
    ensures var t', p := After(f, sig, t, evs), t.saved.offset;
            && Following(f, sig, t') && t'.saved.offset >= p
            && (t'.saved.offset > p <==> Strikes(t.retries, p) + Reads(evs) >= 5)
            && (t'.saved.offset == p ==> Complete(t'.content, p) && Classify(f, t'.content, p) == Broken)
  {
    RunFollows(f, sig, t, evs);
    StrikesOrMoves(f, sig, t, evs);
    if evs != [] {
      var front, e, p := evs[..|evs| - 1], evs[|evs| - 1], t.saved.offset;
      var m := After(f, sig, t, front);
      BrokenRun(f, sig, t, front);
      StrikesOrMoves(f, sig, t, front);
      StepFollows(f, sig, m, e);
      if m.saved.offset == p {
        match e
        case Append(text) => CompleteStaysSo(f, m.content, text, p);
        case Read(maxCount) => BrokenPassed(f, maxCount, m.content, p, m.retries);
      }
    }
  }

  /**
   A line that does not decode is passed at its fifth read, no
   sooner and no later, whatever is appended meanwhile.
   */
  lemma FifthReadPasses(f: Filter, sig: string -> Sig, t: Tail, evs: seq<Event>, e: nat)
    requires Following(f, sig, t) && BrokenLine(f, t.content, t.saved.offset, e)
    ensures var t' := After(f, sig, t, evs);
            t'.saved.At?
            && (t'.saved.offset > t.saved.offset <==> Strikes(t.retries, t.saved.offset) + Reads(evs) >= 5)
  {
    LineBreaks(f, t.content, t.saved.offset, e);
    BrokenRun(f, sig, t, evs);
  }

  /** A complete unread line is passed within five reads, whatever is appended meanwhile. */
  lemma FiveReadsMoveOn(f: Filter, sig: string -> Sig, t: Tail, evs: seq<Event>)
    requires Following(f, sig, t) && Complete(t.content, t.saved.offset) && Reads(evs) >= 5
    ensures var t' := After(f, sig, t, evs); t'.saved.At? && t'.saved.offset > t.saved.offset
  {
    StrikesOrMoves(f, sig, t, evs);
  }

  /** What is still to be done, in reads: five for each byte left, less the strikes already taken. */
  function Backlog(t: Tail): int
    requires t.saved.At?
  {
    MAX_RETRIES * (|t.content| - t.saved.offset) - Strikes(t.retries, t.saved.offset)
  }

  lemma {:induction false} ReadShrinksBacklog(f: Filter, sig: string -> Sig, t: Tail, maxCount: int)
    requires Following(f, sig, t)
    ensures var t' := Step(f, sig, t, Read(maxCount));
            && Following(f, sig, t') && t'.content == t.content
            && (AtRest(f, t.content, t.saved.offset) ==> t' == t)
            && (AtRest(f, t'.content, t'.saved.offset) || Backlog(t') < Backlog(t))
  {
    var c, p := t.content, t.saved.offset;
    StepFollows(f, sig, t, Read(maxCount));
    var t' := Step(f, sig, t, Read(maxCount));
    if !AtRest(f, c, p) {
      BatchProgress(f, maxCount, c, p, t.retries);
    } else {
      assert t.delivered + [] == t.delivered;
    }
  }

  /** Once the writer pauses, enough reads deliver everything, exactly once and in order. */
  lemma {:induction false} CatchesUp(f: Filter, sig: string -> Sig, t: Tail, evs: seq<Event>)
    requires Following(f, sig, t) && forall i :: 0 <= i < |evs| ==> evs[i].Read?
    ensures var t' := After(f, sig, t, evs);
            && Following(f, sig, t') && t'.content == t.content
            && (AtRest(f, t'.content, t'.saved.offset) || Backlog(t') + |evs| <= Backlog(t))
  {
    if evs != [] {
      var front := evs[..|evs| - 1];
      CatchesUp(f, sig, t, front);
      ReadShrinksBacklog(f, sig, After(f, sig, t, front), evs[|evs| - 1].maxCount);
    }
  }

  lemma PauseDeliversAll(f: Filter, sig: string -> Sig, t: Tail, evs: seq<Event>)
    requires Following(f, sig, t) && t.delivered == []
    requires forall i :: 0 <= i < |evs| ==> evs[i].Read?
    requires |evs| > MAX_RETRIES * (|t.content| - t.saved.offset)
    ensures After(f, sig, t, evs).delivered == Deliverable(f, t.content, t.saved.offset)
  {
    CatchesUp(f, sig, t, evs);
    DeliversReference(f, sig, t, evs);
  }

  // ----- Resuming after a restart -----

  /** Restarting from a delivered item's offset delivers exactly the items after it. */
  lemma {:induction false} ResumeAfterItem(f: Filter, c: string, p: nat, i: nat)
    requires i < |Deliverable(f, c, p)|
    ensures Deliverable(f, c, p)[i].end <= |c|
    ensures Deliverable(f, c, Deliverable(f, c, p)[i].end) == Deliverable(f, c, p)[i + 1..]
    decreases |c| - p
  {
    hide Classify;
    if Classify(f, c, p).Hit? {
      if i > 0 {
        ResumeAfterItem(f, c, LineEnd(c, p), i - 1);
      }
    } else {
      ResumeAfterItem(f, c, LineEnd(c, p), i);
    }
  }

  /** The last delivered item's offset and the batch's own offset resume to the same deliveries. */
  lemma ResumeLikeReader(f: Filter, maxCount: int, c: string, p: nat, retries: Retries, more: string)
    requires p <= |c|
    requires ReadFrom(f, maxCount, c, p, retries, 0).items != []
    ensures var batch := ReadFrom(f, maxCount, c, p, retries, 0);
            var last := batch.items[|batch.items| - 1];
            Deliverable(f, c + more, last.end) == Deliverable(f, c + more, batch.pos)
  {
    var batch := ReadFrom(f, maxCount, c, p, retries, 0);
    var n := |batch.items| - 1;
    BatchIsNext(f, maxCount, c, p, retries, 0, more);
    var all := Deliverable(f, c + more, p);
    assert all[n] == batch.items[n] && all[n + 1..] == Deliverable(f, c + more, batch.pos);
    ResumeAfterItem(f, c + more, p, n);
  }

  // ----- Rotation -----

  ghost predicate Injective(sig: string -> Sig) {
    forall x, y :: sig(x) == sig(y) ==> x == y
  }

  /**
   An append is recognised as one exactly when the head was recorded at full length or nothing
   was appended; otherwise the grown file looks rotated and is read from its beginning again.
   */
  lemma AppendRecognised(sig: string -> Sig, c: string, offset: nat, more: string)
    requires Injective(sig) && offset <= |c|
    ensures Resolve(At(offset, Some(sig(Head(c)))), sig(Head(c + more)), |c + more|) == (offset, false)
        <==> 40 <= |c| || more == ""
  {
    if HEAD_BYTES <= |c| {
      assert Head(c + more) == Head(c);
    } else if more == "" {
      assert c + more == c;
    } else {
      assert |Head(c + more)| > |Head(c)|;
    }
  }

  /** A first item found before the append is found again after it. */
  lemma {:induction false} SameFirst(f: Filter, c: string, more: string, p: nat, retries: Retries, item: Item)
    requires p <= |c| && ReadFrom(f, 1, c, p, retries, 0).items == [item]
    ensures ReadFrom(f, 1, c + more, p, retries, 0).items == [item]
    decreases |c| - p
  {
    var end := LineEnd(c, p);
    if Complete(c, p) {
      CompleteStaysSo(f, c, more, p);
      match Classify(f, c, p)
      case Blank => SameFirst(f, c, more, end, retries, item);
      case Partial =>
      case Broken => SameFirst(f, c, more, end, retries - {p}, item);
      case Low(_) => SameFirst(f, c, more, end, retries - {p}, item);
      case Hit(_) =>
    }
  }

  /** So a short file that grows is delivered twice: the promise of no duplicates needs a full head. */
  lemma ShortFileDeliveredTwice(f: Filter, sig: string -> Sig, c: string, more: string, item: Item)
    requires Injective(sig) && |c| < 40 && more != ""
    requires ReadFrom(f, 1, c, 0, map[], 0).items == [item]
    ensures var start := Tail(c, At(0, Some(sig(Head(c)))), map[], []);
            var grown := Step(f, sig, Step(f, sig, start, Read(1)), Append(more));
            Step(f, sig, grown, Read(1)).delivered == [item, item]
  {
    assert Head(c + more) != Head(c) by { assert |Head(c + more)| > |Head(c)|; }
    SameFirst(f, c, more, 0, map[], item);
  }

  /** Without a saved position reading starts at the end of the file: only what comes later is delivered. */
  lemma FreshStartsAtEnd(f: Filter, sig: string -> Sig, t: Tail, maxCount: int)
    requires t.saved == Fresh && t.retries == map[]
    ensures Step(f, sig, t, Read(maxCount)) == t.(saved := At(|t.content|, Some(sig(Head(t.content)))))
    ensures HEAD_BYTES <= |t.content| ==> Following(f, sig, Step(f, sig, t, Read(maxCount)))
  {
    assert t.delivered + [] == t.delivered;
  }

  /** A position saved without a head is taken up like one with the file's own head. */
  lemma HeadlessResumes(f: Filter, sig: string -> Sig, t: Tail, maxCount: int)
    requires t.saved.At? && t.saved.head == None
    ensures Step(f, sig, t, Read(maxCount))
         == Step(f, sig, t.(saved := At(t.saved.offset, Some(sig(Head(t.content))))), Read(maxCount))
  {
  }

  /** A position within a file of the same head is resumed; there the strikes count on. */
  lemma PositionResumed(f: Filter, sig: string -> Sig, t: Tail, maxCount: int)
    requires t.saved.At? && t.saved.offset <= |t.content|
    requires t.saved.head.Some? ==> t.saved.head.value == sig(Head(t.content))
    ensures var batch := ReadFrom(f, maxCount, t.content, t.saved.offset, t.retries, 0);
            Step(f, sig, t, Read(maxCount))
            == Tail(t.content, At(batch.pos, Some(sig(Head(t.content)))), batch.retries, t.delivered + batch.items)
  {
  }

  /** A file shorter than the position was truncated: it is read from its beginning, with no strikes carried over. */
  lemma TruncationStartsOver(f: Filter, sig: string -> Sig, t: Tail, maxCount: int)
    requires t.saved.At? && t.saved.offset > |t.content|
    ensures var restarted := t.(saved := At(0, Some(sig(Head(t.content)))), retries := map[]);
            && Step(f, sig, t, Read(maxCount)) == Step(f, sig, restarted, Read(maxCount))
            && (HEAD_BYTES <= |t.content| ==> Following(f, sig, restarted))
  {
  }

  /** A rotated file is read from its beginning, however short it is yet, with no strikes carried over. */
  lemma RotationStartsOver(f: Filter, sig: string -> Sig, t: Tail, maxCount: int)
    requires t.saved.At? && t.saved.head.Some? && t.saved.head.value != sig(Head(t.content))
    ensures var restarted := t.(saved := At(0, Some(sig(Head(t.content)))), retries := map[]);
            && Step(f, sig, t, Read(maxCount)) == Step(f, sig, restarted, Read(maxCount))
            && (HEAD_BYTES <= |t.content| ==> Following(f, sig, restarted))
  {
  }
}
