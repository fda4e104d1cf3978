/**
 The tailing alert reader of ingest.py: one batch read from a growing line file.

 The file is a string, an offset an index into it, and JSON decoding together with the level
 extraction an arbitrary function `parse`. The file does not change within one call.
 */
module TailReader {
  import opened Text
  import opened Wrappers

  /** A decoded alert: its level (0 when it has none) and the rest of it. */
  datatype Alert = Alert(level: int, body: string)

  /** How lines are decoded, and the least level that passes. */
  datatype Filter = Filter(parse: string -> Option<Alert>, minLevel: int)

  /** A delivered alert and the offset just after its line. */
  datatype Item = Item(alert: Alert, end: nat)

  const HEAD_BYTES: nat := 40
  const MAX_RETRIES: nat := 5

  // ----- Lines -----

  /** Where readline stops: just past the first newline at or after `p`, or at the end of the file. */
  function LineEnd(c: string, p: nat): (e: nat)
    requires p < |c|
    ensures p < e <= |c|
    ensures forall q :: p <= q < e - 1 ==> c[q] != '\n'
    ensures c[e - 1] == '\n' || e == |c|
    decreases |c| - p
  {
    if c[p] == '\n' || p + 1 == |c| then p + 1 else LineEnd(c, p + 1)
  }

  predicate Complete(c: string, p: nat) {
    p < |c| && c[LineEnd(c, p) - 1] == '\n'
  }

  function LineAt(c: string, p: nat): string
    requires p < |c|
  {
    c[p..LineEnd(c, p)]
  }

  // ----- The reference: what a file holds for delivery -----

  /** What a line is to the reader. */
  datatype Line = Blank | Partial | Broken | Low(alert: Alert) | Hit(alert: Alert)

  function Classify(f: Filter, c: string, p: nat): Line
    requires p < |c|
  {
    var text := Strip(LineAt(c, p));
    if text == "" then Blank
    else if !Complete(c, p) then Partial
    else
      match f.parse(text)
      case None => Broken
      case Some(a) => if a.level >= f.minLevel then Hit(a) else Low(a)
  }

  /** The complete, decodable, level-passing lines from `p` on. */
  function Deliverable(f: Filter, c: string, p: nat): seq<Item>
    decreases |c| - p
  {
    if !Complete(c, p) then []
    else
      var rest := Deliverable(f, c, LineEnd(c, p));
      match Classify(f, c, p)
      case Hit(a) => [Item(a, LineEnd(c, p))] + rest
      case _ => rest
  }

  // ----- Where to start -----

  type Sig = string

  /** The saved position: none yet, or an offset with the signature of the file's head, if known. */
  datatype Saved = Fresh | At(offset: nat, head: Option<Sig>)

  function Head(c: string): string {
    if |c| <= HEAD_BYTES then c else c[..HEAD_BYTES]
  }

  /** The offset to read from, and whether the file was found rotated or truncated. */
  function Resolve(saved: Saved, head: Sig, size: nat): (nat, bool) {
    match saved
    case Fresh => (size, false)
    case At(offset, Some(known)) =>
      if head == known then (if offset <= size then (offset, false) else (0, true)) else (0, true)
    case At(offset, None) => if offset > size then (0, true) else (offset, false)
  }

  // ----- One batch -----

  type Retries = map<nat, nat>

  function Strikes(retries: Retries, p: nat): nat {
    if p in retries then retries[p] else 0
  }

  datatype Batch = Batch(items: seq<Item>, pos: nat, retries: Retries)

  /** Reading on from `p` with `got` alerts already in the batch. */
  function ReadFrom(f: Filter, maxCount: int, c: string, p: nat, retries: Retries, got: nat): Batch
    decreases |c| - p
  {
    if p >= |c| then Batch([], p, retries)
    else
      var end := LineEnd(c, p);
      match Classify(f, c, p)
      case Blank => ReadFrom(f, maxCount, c, end, retries, got)
      case Partial => Batch([], p, retries)
      case Broken =>
        var n := Strikes(retries, p) + 1;
        if n >= MAX_RETRIES then ReadFrom(f, maxCount, c, end, retries - {p}, got)
        else Batch([], p, retries[p := n])
      case Low(_) => ReadFrom(f, maxCount, c, end, retries - {p}, got)
      case Hit(a) =>
        if got + 1 >= maxCount then Batch([Item(a, end)], end, retries - {p})
        else Join([Item(a, end)], ReadFrom(f, maxCount, c, end, retries - {p}, got + 1))
  }

  /** A batch that continues after some items were taken. */
  function Join(items: seq<Item>, rest: Batch): Batch {
    Batch(items + rest.items, rest.pos, rest.retries)
  }

  lemma JoinOne(items: seq<Item>, item: Item, rest: Batch)
    ensures Join(items, Join([item], rest)) == Join(items + [item], rest)
  {
  }

  /** With these items taken, reading on from here completes the batch. */
  ghost predicate OnTrack(f: Filter, maxCount: int, c: string, whole: Batch, items: seq<Item>, p: nat,
                          retries: Retries) {
    whole == Join(items, ReadFrom(f, maxCount, c, p, retries, |items|))
  }

  /** What each kind of line does to the batch. */
  lemma LineRead(f: Filter, maxCount: int, c: string, whole: Batch, items: seq<Item>, p: nat, retries: Retries)
    requires p < |c| && OnTrack(f, maxCount, c, whole, items, p, retries)
    ensures var end, n := LineEnd(c, p), Strikes(retries, p) + 1;
            match Classify(f, c, p)
            case Blank => OnTrack(f, maxCount, c, whole, items, end, retries)
            case Partial => whole == Batch(items, p, retries)
            case Broken =>
              if n >= MAX_RETRIES then OnTrack(f, maxCount, c, whole, items, end, retries - {p})
              else whole == Batch(items, p, retries[p := n])
            case Low(_) => OnTrack(f, maxCount, c, whole, items, end, retries - {p})
            case Hit(a) =>
              if |items| + 1 >= maxCount then whole == Batch(items + [Item(a, end)], end, retries - {p})
              else OnTrack(f, maxCount, c, whole, items + [Item(a, end)], end, retries - {p})
  {
    hide Classify;
    if Classify(f, c, p).Hit? && |items| + 1 < maxCount {
      var item := Item(Classify(f, c, p).alert, LineEnd(c, p));
      JoinOne(items, item, ReadFrom(f, maxCount, c, LineEnd(c, p), retries - {p}, |items| + 1));
    }
  }

  lemma NothingRead(f: Filter, maxCount: int, c: string, p: nat, retries: Retries)
    ensures OnTrack(f, maxCount, c, ReadFrom(f, maxCount, c, p, retries, 0), [], p, retries)
  {
  }

  lemma AllRead(f: Filter, maxCount: int, c: string, whole: Batch, items: seq<Item>, p: nat, retries: Retries)
    requires p >= |c| && OnTrack(f, maxCount, c, whole, items, p, retries)
    ensures whole == Batch(items, p, retries)
  {
  }

  class AlertReader {
    /** Parse failures per line offset, kept across calls. */
    var retries: Retries

    constructor ()
      ensures retries == map[]
    {
      retries := map[];
    }

    method ReadAlertsBatch(f: Filter, sig: string -> Sig, content: string, saved: Saved, maxCount: int)
      returns (items: seq<Item>, next: Saved)
      modifies this
      ensures var (start, reset) := Resolve(saved, sig(Head(content)), |content|);
              var batch := ReadFrom(f, maxCount, content, start, if reset then map[] else old(retries), 0);
              items == batch.items && next == At(batch.pos, Some(sig(Head(content)))) && retries == batch.retries
    {
      hide Strip, Head, OnTrack, ReadFrom;
      items := [];
      var curHead := sig(Head(content));
      var (start, reset) := Resolve(saved, curHead, |content|);
      if reset {
        retries := map[];
      }
      ghost var whole := ReadFrom(f, maxCount, content, start, retries, 0);
      NothingRead(f, maxCount, content, start, retries);
      var count := 0;
      var position := start;
      while position < |content|
        invariant count == |items| && (position <= start || position <= |content|)
        invariant OnTrack(f, maxCount, content, whole, items, position, retries)
        decreases |content| - position
      {
        LineRead(f, maxCount, content, whole, items, position, retries);
        var end := LineEnd(content, position);
        var line := LineAt(content, position);
        var text := Strip(line);
        if text == "" {
          position := end;
          continue;
        }
        if !Complete(content, position) {
          return items, At(position, Some(curHead));
        }
        var parsed := f.parse(text);
        if parsed == None {
          var n := Strikes(retries, position) + 1;
          ghost var before := retries;
          retries := retries[position := n];
          if n >= MAX_RETRIES {
            retries := retries - {position};
            assert retries == before - {position};
            position := end;
            continue;
          }
          return items, At(position, Some(curHead));
        }
        retries := retries - {position};
        var alert := parsed.value;
        position := end;
        if alert.level >= f.minLevel {
          items := items + [Item(alert, end)];
          count := count + 1;
          if count >= maxCount {
            return items, At(position, Some(curHead));
          }
        }
      }
      AllRead(f, maxCount, content, whole, items, position, retries);
      next := At(position, Some(curHead));
    }
  }
}
