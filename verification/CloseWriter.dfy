/**
 The close-writer thread of database.py: its queue, its start and stop, and its drain loop,
 as a state machine of the atomic actions of the producers, the starter/stopper and the thread.

 The thread's wait on the queue and its look at the shutdown flag are two actions: a timed-out
 wait is followed by the flag test in the exception handler, and other threads may act between.
 */
module CloseWriter {
  import opened Dedup

  datatype Item = Work(close: Close) | Sentinel

  /** Where the thread is. `TimedOut` is between the empty queue and the test of the flag. */
  datatype Pc =
    | Idle
    | Connecting
    | Waiting
    | TimedOut
    | Holding(close: Close)
    | Checking
    | Leaving
    | Cleared

  datatype Writer = Writer(
    pc: Pc,
    started: bool,
    alive: bool,
    shutdown: bool,
    queue: seq<Item>,
    // history of enqueue_window_close: what it did with each call, and what the thread wrote
    skipped: seq<Close>,
    dropped: seq<Close>,
    accepted: seq<Close>,
    written: seq<Close>)

  const INIT := Writer(Idle, false, false, false, [], [], [], [], [])

  datatype Action =
    | Enqueue(close: Close)
    | Start
    | Stop
    | Connect(ok: bool)
    | Get
    | Timeout
    | TestFlag
    | Write
    | Check
    | ClearAlive
    | ClearStarted

  /** start_db_writer and stop_db_writer may be called at any time; a stop is joined before a restart. */
  predicate Enabled(w: Writer, a: Action) {
    match a
    case Enqueue(_) => true
    case Start => w.started || w.pc == Idle
    case Stop => true
    case Connect(_) => w.pc == Connecting
    case Get => w.pc == Waiting && w.queue != []
    case Timeout => w.pc == Waiting && w.queue == []
    case TestFlag => w.pc == TimedOut
    case Write => w.pc.Holding?
    case Check => w.pc == Checking
    case ClearAlive => w.pc == Leaving
    case ClearStarted => w.pc == Cleared
  }

  function Next(w: Writer, a: Action): Writer
    requires Enabled(w, a)
  {
    match a
    case Enqueue(c) =>
      if c.count <= 1 then w.(skipped := w.skipped + [c])
      else if !w.alive then w.(dropped := w.dropped + [c])
      else w.(queue := w.queue + [Work(c)], accepted := w.accepted + [c])
    case Start =>
      if w.started then w
      else w.(started := true, shutdown := false, alive := false, pc := Connecting)
    case Stop =>
      if !w.started then w
      else w.(shutdown := true, queue := w.queue + [Sentinel])
    case Connect(ok) => if ok then w.(alive := true, pc := Waiting) else w.(pc := Leaving)
    case Get =>
      (match w.queue[0]
       case Sentinel => w.(queue := w.queue[1..])
       case Work(c) => w.(queue := w.queue[1..], pc := Holding(c)))
    case Timeout => w.(pc := TimedOut)
    case TestFlag => w.(pc := if w.shutdown then Leaving else Waiting)
    case Write => w.(written := w.written + [w.pc.close], pc := Checking)
    case Check => w.(pc := if w.shutdown && w.queue == [] then Leaving else Waiting)
    case ClearAlive => w.(alive := false, pc := Cleared)
    case ClearStarted => w.(started := false, pc := Idle)
  }

  /** A run from `w`: every action is enabled when its turn comes. */
  predicate Runs(w: Writer, actions: seq<Action>)
    decreases |actions|
  {
    actions == [] || (Enabled(w, actions[0]) && Runs(Next(w, actions[0]), actions[1..]))
  }

  function After(w: Writer, actions: seq<Action>): Writer
    requires Runs(w, actions)
    decreases |actions|
  {
    if actions == [] then w else After(Next(w, actions[0]), actions[1..])
  }

  /** The closes still waiting in the queue, oldest first. */
  function Waitlist(queue: seq<Item>): seq<Close> {
    if queue == [] then []
    else
      var front, last := queue[..|queue| - 1], queue[|queue| - 1];
      Waitlist(front) + if last.Work? then [last.close] else []
  }

  function InFlight(pc: Pc): seq<Close> {
    if pc.Holding? then [pc.close] else []
  }

  lemma WaitlistAppend(queue: seq<Item>, item: Item)
    ensures Waitlist(queue + [item]) == Waitlist(queue) + if item.Work? then [item.close] else []
  {
    assert (queue + [item])[..|queue|] == queue;
  }

  lemma {:induction false} WaitlistFirst(queue: seq<Item>)
    requires queue != []
    ensures Waitlist(queue) == (if queue[0].Work? then [queue[0].close] else []) + Waitlist(queue[1..])
  {
    var front, last := queue[..|queue| - 1], queue[|queue| - 1];
    if |queue| == 1 {
      assert queue[..0] == [] && queue[1..] == [];
    } else {
      WaitlistFirst(front);
      assert front[1..] == queue[1..][..|queue| - 2];
      assert Waitlist(queue[1..]) == Waitlist(front[1..]) + if last.Work? then [last.close] else [];
    }
  }

  /** Accepted closes are written in the order they were accepted; the rest is in hand or queued. */
  ghost predicate InOrder(w: Writer) {
    w.accepted == w.written + InFlight(w.pc) + Waitlist(w.queue)
  }

  /** The alive flag is up while the thread takes work, and the started flag while there is a thread. */
  ghost predicate FlagsTrue(w: Writer) {
    && w.started == (w.pc != Idle)
    && (w.pc == Idle || w.pc == Connecting || w.pc == Cleared ==> !w.alive)
    && (w.pc == Waiting || w.pc == TimedOut || w.pc == Checking || w.pc.Holding? ==> w.alive)
  }

  ghost predicate Inv(w: Writer) {
    && InOrder(w) && FlagsTrue(w)
    && (forall c :: c in w.accepted ==> c.count > 1)
    && (forall c :: c in w.skipped ==> c.count <= 1)
  }

  lemma StepKeepsOrder(w: Writer, a: Action)
    requires InOrder(w) && FlagsTrue(w) && Enabled(w, a)
    ensures InOrder(Next(w, a))
  {
    var done, held, waiting := w.written, InFlight(w.pc), Waitlist(w.queue);
    match a
    case Enqueue(c) =>
      WaitlistAppend(w.queue, Work(c));
      assert done + held + waiting + [c] == done + held + (waiting + [c]);
    case Stop =>
      WaitlistAppend(w.queue, Sentinel);
      assert waiting + [] == waiting;
    case Get =>
      WaitlistFirst(w.queue);
      var rest := Waitlist(w.queue[1..]);
      assert held == [] && done + [] == done && [] + rest == rest;
      if w.queue[0].Work? {
        assert done + ([w.queue[0].close] + rest) == done + [w.queue[0].close] + rest;
      }
    case Write =>
      assert done + held + [] == done + held;
    case _ =>
      assert InFlight(Next(w, a).pc) == held;
  }

  lemma StepKeepsInv(w: Writer, a: Action)
    requires Inv(w) && Enabled(w, a)
    ensures Inv(Next(w, a))
  {
    StepKeepsOrder(w, a);
    assert FlagsTrue(Next(w, a));
  }

  /** Nothing is lost, duplicated or reordered, over any run with any number of restarts. */
  lemma {:induction false} RunKeepsInv(w: Writer, actions: seq<Action>)
    requires Inv(w) && Runs(w, actions)
    ensures Inv(After(w, actions))
    decreases |actions|
  {
    if actions != [] {
      StepKeepsInv(w, actions[0]);
      RunKeepsInv(Next(w, actions[0]), actions[1..]);
    }
  }

  function Calls(actions: seq<Action>): multiset<Close> {
    if actions == [] then multiset{}
    else (if actions[0].Enqueue? then multiset{actions[0].close} else multiset{}) + Calls(actions[1..])
  }

  function Fates(w: Writer): multiset<Close> {
    multiset(w.skipped) + multiset(w.dropped) + multiset(w.written) + multiset(InFlight(w.pc))
    + multiset(Waitlist(w.queue))
  }

  function Recorded(w: Writer): multiset<Close> {
    multiset(w.skipped) + multiset(w.dropped) + multiset(w.accepted)
  }

  lemma RecordedEnqueue(w: Writer, c: Close)
    ensures Recorded(Next(w, Enqueue(c))) == Recorded(w) + multiset{c}
  {
    if c.count <= 1 {
      assert multiset(w.skipped + [c]) == multiset(w.skipped) + multiset{c};
    } else if !w.alive {
      assert multiset(w.dropped + [c]) == multiset(w.dropped) + multiset{c};
    } else {
      assert multiset(w.accepted + [c]) == multiset(w.accepted) + multiset{c};
    }
  }

  lemma RecordedStep(w: Writer, a: Action)
    requires Enabled(w, a)
    ensures Recorded(Next(w, a)) == Recorded(w) + if a.Enqueue? then multiset{a.close} else multiset{}
  {
    match a
    case Enqueue(c) => RecordedEnqueue(w, c);
    case _ =>
      var w' := Next(w, a);
      assert w'.skipped == w.skipped && w'.dropped == w.dropped && w'.accepted == w.accepted;
  }

  lemma {:induction false} RecordedGrows(w: Writer, actions: seq<Action>)
    requires Runs(w, actions)
    ensures Recorded(After(w, actions)) == Recorded(w) + Calls(actions)
    decreases |actions|
  {
    if actions != [] {
      var a := actions[0];
      RecordedGrows(Next(w, a), actions[1..]);
      RecordedStep(w, a);
    }
  }

  /** Every call of enqueue_window_close has exactly one fate: skipped, dropped, written, held or queued. */
  lemma EveryCallAccounted(actions: seq<Action>)
    requires Runs(INIT, actions)
    ensures Fates(After(INIT, actions)) == Calls(actions)
  {
    var w := After(INIT, actions);
    RunKeepsInv(INIT, actions);
    RecordedGrows(INIT, actions);
    assert multiset(w.accepted) == multiset(w.written) + multiset(InFlight(w.pc)) + multiset(Waitlist(w.queue));
    assert Recorded(INIT) == multiset{};
    assert Recorded(w) == Fates(w);
  }

  // ----- Which closes are dropped -----

  /** After these actions the thread has its connection: none has ended it since it last connected. */
  predicate Connected(actions: seq<Action>) {
    if actions == [] then false
    else
      match actions[|actions| - 1]
      case Connect(ok) => ok
      case ClearAlive => false
      case _ => Connected(actions[..|actions| - 1])
  }

  /** The closes with something to write that were handed over while there was no connection. */
  function Unheard(actions: seq<Action>): seq<Close> {
    if actions == [] then []
    else
      var front, last := actions[..|actions| - 1], actions[|actions| - 1];
      Unheard(front) + if last.Enqueue? && last.close.count > 1 && !Connected(front) then [last.close] else []
  }

  lemma {:induction false} RunSnoc(w: Writer, front: seq<Action>, a: Action)
    requires Runs(w, front + [a])
    ensures Runs(w, front) && Enabled(After(w, front), a)
    ensures After(w, front + [a]) == Next(After(w, front), a)
    decreases |front|
  {
    var actions := front + [a];
    if front == [] {
      assert actions == [a] && [a][1..] == [];
    } else {
      assert actions[1..] == front[1..] + [a] && actions[0] == front[0];
      RunSnoc(Next(w, front[0]), front[1..], a);
    }
  }

  /** The alive flag tells whether there is a connection. */
  lemma ConnectedStep(w: Writer, front: seq<Action>, a: Action)
    requires Inv(w) && Enabled(w, a) && (w.alive <==> Connected(front))
    ensures Next(w, a).alive <==> Connected(front + [a])
  {
    assert (front + [a])[..|front|] == front;
  }

  /** Exactly those closes are dropped, in any run with any number of restarts. */
  lemma {:induction false} DroppedExactly(actions: seq<Action>)
    requires Runs(INIT, actions)
    ensures var w := After(INIT, actions);
            Inv(w) && (w.alive <==> Connected(actions)) && w.dropped == Unheard(actions)
    decreases |actions|
  {
    if actions != [] {
      var front, a := actions[..|actions| - 1], actions[|actions| - 1];
      assert actions == front + [a];
      RunSnoc(INIT, front, a);
      DroppedExactly(front);
      StepKeepsInv(After(INIT, front), a);
      ConnectedStep(After(INIT, front), front, a);
    }
  }

  /** The thread is up: it has its connection and has not been told to stop. */
  predicate Up(w: Writer) {
    w.alive && w.started && !w.shutdown && (w.pc == Waiting || w.pc == TimedOut || w.pc == Checking || w.pc.Holding?)
  }

  /** Until it is told to stop, a thread that has its connection stays up, so no close is dropped. */
  lemma {:induction false} StaysUp(w: Writer, actions: seq<Action>)
    requires Up(w) && Runs(w, actions) && Stop !in actions
    ensures Up(After(w, actions)) && After(w, actions).dropped == w.dropped
    decreases |actions|
  {
    if actions != [] {
      assert actions[0] in actions && forall a :: a in actions[1..] ==> a in actions;
      StaysUp(Next(w, actions[0]), actions[1..]);
    }
  }

  /** A thread that is started and connects is up, also after a stop. */
  lemma StartedIsUp(w: Writer)
    requires w.pc == Idle && !w.started
    ensures Enabled(w, Start) && Enabled(Next(w, Start), Connect(true)) && Up(Next(Next(w, Start), Connect(true)))
  {
  }

  // ----- What a clean stop drains -----

  /** The actions after a stop, up to the moment the thread has left its loop. */
  ghost predicate LeavesAfter(w: Writer, actions: seq<Action>)
    requires Runs(w, actions)
    decreases |actions|
  {
    if actions == [] then w.pc == Leaving
    else w.pc != Leaving && LeavesAfter(Next(w, actions[0]), actions[1..])
  }

  /** The actions of the thread itself. */
  predicate Own(a: Action) {
    !a.Enqueue? && a != Start && a != Stop
  }

  /**
   How many actions a stopped thread has left at most before it leaves. With the queue empty a write
   and a look are the last ones.
   */
  function Left(w: Writer): nat {
    4 * |w.queue| + match w.pc
                    case Connecting => 3
                    case Waiting => 2
                    case TimedOut => 1
                    case Holding(_) => if w.queue == [] then 2 else 4
                    case Checking => if w.queue == [] then 1 else 3
                    case _ => 0
  }

  /** Left alone, a stopped thread comes to leave. */
  lemma {:induction false} StoppedLeaves(w: Writer, actions: seq<Action>)
    requires w.shutdown && w.pc != Idle && w.pc != Cleared && w.pc != Leaving
    requires Runs(w, actions) && |actions| >= Left(w) && forall a :: a in actions ==> Own(a)
    ensures exists n: nat :: n <= |actions| && Runs(w, actions[..n]) && LeavesAfter(w, actions[..n])
    decreases |actions|
  {
    var a, rest := actions[0], actions[1..];
    var w' := Next(w, a);
    assert a in actions && forall x :: x in rest ==> x in actions;
    if w'.pc == Leaving {
      assert actions[..1][1..] == [] && actions[..1][0] == a;
      assert Runs(w, actions[..1]) && LeavesAfter(w, actions[..1]);
    } else {
      StoppedLeaves(w', rest);
      var n: nat :| n <= |rest| && Runs(w', rest[..n]) && LeavesAfter(w', rest[..n]);
      assert actions[..n + 1][0] == a && actions[..n + 1][1..] == rest[..n];
      assert Runs(w, actions[..n + 1]) && LeavesAfter(w, actions[..n + 1]);
    }
  }

  /** The writer is past its test of the flag, or will make it on a queue emptied of the debt. */
  ghost predicate WillPay(w: Writer, owed: seq<Close>) {
    && Inv(w) && w.started && w.shutdown && owed <= w.accepted
    && w.pc != Idle && w.pc != Connecting && w.pc != Cleared
    && (w.pc == TimedOut || w.pc == Leaving ==> owed <= w.written)
  }

  lemma PayStep(w: Writer, a: Action, owed: seq<Close>)
    requires WillPay(w, owed) && Enabled(w, a) && w.pc != Leaving
    ensures WillPay(Next(w, a), owed)
  {
    StepKeepsInv(w, a);
    var w' := Next(w, a);
    if w'.pc == TimedOut || w'.pc == Leaving {
      if a == Timeout || a == Check {
        assert Waitlist(w.queue) == [];
        assert w.accepted == w.written;
      }
    }
  }

  lemma {:induction false} Pays(w: Writer, actions: seq<Action>, owed: seq<Close>)
    requires WillPay(w, owed) && Runs(w, actions) && LeavesAfter(w, actions)
    ensures owed <= After(w, actions).written
    decreases |actions|
  {
    if actions != [] {
      PayStep(w, actions[0], owed);
      Pays(Next(w, actions[0]), actions[1..], owed);
    }
  }

  /** The writer has timed out on an empty queue, will see the flag, and will not look again. */
  ghost predicate WillLeave(w: Writer, unpaid: Close) {
    && Inv(w) && w.shutdown && w.started
    && (w.pc == TimedOut || w.pc == Leaving)
    && |w.written| < |w.accepted| && w.accepted[|w.written|] == unpaid
  }

  lemma {:induction false} Leaves(w: Writer, actions: seq<Action>, unpaid: Close, paid: seq<Close>)
    requires WillLeave(w, unpaid) && Runs(w, actions) && LeavesAfter(w, actions) && w.written == paid
    ensures After(w, actions).written == paid
    decreases |actions|
  {
    if actions != [] {
      StepKeepsInv(w, actions[0]);
      Leaves(Next(w, actions[0]), actions[1..], unpaid, paid);
    }
  }

  /** Whether the thread's next connect of the run succeeds. */
  function NextConnect(actions: seq<Action>): bool
    decreases |actions|
  {
    actions != [] && (if actions[0].Connect? then actions[0].ok else NextConnect(actions[1..]))
  }

  /** A thread stopped while it connects pays old debts if it gets its connection, and none if it does not. */
  lemma {:induction false} ConnectingPays(w: Writer, actions: seq<Action>)
    requires Inv(w) && w.pc == Connecting && w.started && w.shutdown && Runs(w, actions) && LeavesAfter(w, actions)
    ensures w.accepted <= After(w, actions).written <==> Waitlist(w.queue) == [] || NextConnect(actions)
    decreases |actions|
  {
    var a, rest := actions[0], actions[1..];
    var w' := Next(w, a);
    StepKeepsInv(w, a);
    assert w.accepted == w.written + Waitlist(w.queue);
    match a
    case Connect(ok) =>
      if ok {
        Pays(w', rest, w.accepted);
      } else {
        assert After(w, actions) == w';
      }
    case Stop =>
      WaitlistAppend(w.queue, Sentinel);
      ConnectingPays(w', rest);
    case Enqueue(_) =>
      ConnectingPays(w', rest);
    case Start =>
      ConnectingPays(w', rest);
    case _ =>
  }

  /** A stop that comes too late: the thread looks at the queue no more, or will not get to look. */
  predicate Missed(w: Writer, actions: seq<Action>) {
    w.pc == TimedOut || w.pc == Leaving || (w.pc == Connecting && !NextConnect(actions))
  }

  lemma LeftAlready(w: Writer, actions: seq<Action>)
    requires w.pc == Leaving && Runs(w, actions) && LeavesAfter(w, actions)
    ensures After(w, actions) == w
  {
  }

  /**
   "A clean shutdown loses zero closes" does not always hold. For every run from the stop to the moment
   the thread leaves its loop: all closes accepted before the stop have been written if and only if none
   was waiting, or the stop did not fall between the thread's timed-out wait and its test of the flag, nor
   on a thread that is leaving already or fails to connect.
   */
  lemma CleanStopDrains(w: Writer, actions: seq<Action>)
    requires Inv(w) && w.started && w.pc != Cleared
    requires Runs(Next(w, Stop), actions) && LeavesAfter(Next(w, Stop), actions)
    ensures w.accepted <= After(Next(w, Stop), actions).written
        <==> Waitlist(w.queue) == [] || !Missed(w, actions)
  {
    var w' := Next(w, Stop);
    StepKeepsInv(w, Stop);
    WaitlistAppend(w.queue, Sentinel);
    assert Waitlist(w'.queue) == Waitlist(w.queue);
    hide Runs, LeavesAfter, After, NextConnect, Waitlist;
    if w.pc == Connecting {
      ConnectingPays(w', actions);
    } else if w.pc == Leaving {
      LeftAlready(w', actions);
      assert w.accepted == w.written + Waitlist(w.queue);
    } else if w.pc == TimedOut && Waitlist(w.queue) != [] {
      assert w.accepted == w.written + Waitlist(w.queue);
      Leaves(w', actions, Waitlist(w.queue)[0], w.written);
    } else {
      if w.pc == TimedOut {
        assert w.accepted == w.written;
      }
      Pays(w', actions, w.accepted);
    }
  }

  lemma RunCons(w: Writer, a: Action, rest: seq<Action>)
    requires Enabled(w, a) && Runs(Next(w, a), rest)
    ensures Runs(w, [a] + rest) && After(w, [a] + rest) == After(Next(w, a), rest)
  {
    assert ([a] + rest)[1..] == rest;
  }

  /** The lost-close interleaving exists: a close is accepted, the stop is clean, and it is not written. */
  lemma StopCanLoseAClose(c: Close)
    requires c.count > 1
    ensures var actions := [Start] + ([Connect(true)] + ([Timeout] + ([Enqueue(c)] + ([Stop] + ([TestFlag]
                           + ([ClearAlive] + ([ClearStarted] + [])))))));
            && Runs(INIT, actions)
            && After(INIT, actions) == INIT.(shutdown := true, queue := [Work(c), Sentinel], accepted := [c])
  {
    var w1 := INIT.(started := true, pc := Connecting);
    var w2 := w1.(alive := true, pc := Waiting);
    var w3 := w2.(pc := TimedOut);
    var w4 := w3.(queue := [Work(c)], accepted := [c]);
    var w5 := w4.(queue := [Work(c), Sentinel], shutdown := true);
    var w6 := w5.(pc := Leaving);
    var w7 := w6.(alive := false, pc := Cleared);
    assert w1 == Next(INIT, Start) && w2 == Next(w1, Connect(true)) && w3 == Next(w2, Timeout);
    assert w4 == Next(w3, Enqueue(c)) && w5 == Next(w4, Stop);
    assert w6 == Next(w5, TestFlag) && w7 == Next(w6, ClearAlive);
    var left := [ClearStarted] + [];
    RunCons(w7, ClearStarted, []);
    RunCons(w6, ClearAlive, left);
    left := [ClearAlive] + left;
    RunCons(w5, TestFlag, left);
    left := [TestFlag] + left;
    RunCons(w4, Stop, left);
    left := [Stop] + left;
    RunCons(w3, Enqueue(c), left);
    left := [Enqueue(c)] + left;
    RunCons(w2, Timeout, left);
    left := [Timeout] + left;
    RunCons(w1, Connect(true), left);
    RunCons(INIT, Start, [Connect(true)] + left);
  }
}
