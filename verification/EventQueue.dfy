/** The time-sorted event list: insertion in arrival order among equal deadlines, and processing
    that unlinks the running event only after its callback, which may insert again, has returned. */
module EventQueue {
  import Bytes

  datatype Deadline = Deadline(s: int, ns: int)

  datatype Item = Item(callback: int, due: Deadline)

  predicate Earlier(a: Deadline, b: Deadline) {
    (a.s == b.s && a.ns < b.ns) || a.s < b.s
  }

  // ---------- A stable priority queue ----------

  ghost predicate Sorted(q: seq<Item>) {
    forall i, j | 0 <= i < j < |q| :: !Earlier(q[j].due, q[i].due)
  }

  /** The items with one deadline, in queue order. */
  function AtDeadline(q: seq<Item>, d: Deadline): seq<Item> {
    if q == [] then []
    else (if q[0].due == d then [q[0]] else []) + AtDeadline(q[1..], d)
  }

  /** In front of the first item that is strictly later. */
  function Insert(q: seq<Item>, e: Item): seq<Item> {
    if q == [] then [e]
    else if Earlier(e.due, q[0].due) then [e] + q
    else [q[0]] + Insert(q[1..], e)
  }

  function InsertAll(q: seq<Item>, es: seq<Item>): seq<Item>
    decreases |es|
  {
    if es == [] then q else InsertAll(Insert(q, es[0]), es[1..])
  }

  lemma {:induction false} InsertAt(q: seq<Item>, e: Item, j: nat)
    requires j <= |q| && forall i | 0 <= i < j :: !Earlier(e.due, q[i].due)
    requires j < |q| ==> Earlier(e.due, q[j].due)
    ensures Insert(q, e) == q[..j] + [e] + q[j..]
    decreases j
  {
    if j > 0 {
      InsertAt(q[1..], e, j - 1);
      assert q[..j] == [q[0]] + q[1..][..j - 1];
    }
  }

  /** The place where an item is inserted. */
  lemma {:induction false} InsertPlace(q: seq<Item>, e: Item) returns (j: nat)
    ensures j <= |q| && forall i | 0 <= i < j :: !Earlier(e.due, q[i].due)
    ensures j < |q| ==> Earlier(e.due, q[j].due)
    ensures Insert(q, e) == q[..j] + [e] + q[j..]
  {
    j := 0;
    while j < |q| && !Earlier(e.due, q[j].due)
      invariant j <= |q| && forall i | 0 <= i < j :: !Earlier(e.due, q[i].due)
    {
      j := j + 1;
    }
    InsertAt(q, e, j);
  }

  lemma InsertKeepsSorted(q: seq<Item>, e: Item)
    requires Sorted(q)
    ensures Sorted(Insert(q, e))
  {
    hide Insert;
    var j := InsertPlace(q, e);
    var r := Insert(q, e);
    forall a, b | 0 <= a < b < |r| ensures !Earlier(r[b].due, r[a].due) {
      if a == j && b > j {
        assert r[b] == q[b - 1];
      } else if b == j {
        assert r[a] == q[a];
      }
    }
  }

  lemma InsertKeepsItems(q: seq<Item>, e: Item)
    ensures multiset(Insert(q, e)) == multiset(q) + multiset{e}
  {
    hide Insert;
    var j := InsertPlace(q, e);
    assert q == q[..j] + q[j..];
  }

  lemma {:induction false} AtDeadlineConcat(a: seq<Item>, b: seq<Item>, d: Deadline)
    ensures AtDeadline(a + b, d) == AtDeadline(a, d) + AtDeadline(b, d)
    decreases |a|
  {
    if a == [] {
      assert a + b == b;
    } else {
      assert (a + b)[1..] == a[1..] + b;
      AtDeadlineConcat(a[1..], b, d);
    }
  }

  lemma {:induction false} NoneAtDeadline(q: seq<Item>, d: Deadline)
    requires forall i | 0 <= i < |q| :: q[i].due != d
    ensures AtDeadline(q, d) == []
    decreases |q|
  {
    if q != [] {
      NoneAtDeadline(q[1..], d);
    }
  }

  /** Among equal deadlines the new item comes last, and other deadlines are not disturbed. */
  lemma InsertIsStable(q: seq<Item>, e: Item, d: Deadline)
    requires Sorted(q)
    ensures AtDeadline(Insert(q, e), d) == AtDeadline(q, d) + (if e.due == d then [e] else [])
  {
    hide Insert;
    var j := InsertPlace(q, e);
    assert q == q[..j] + q[j..];
    AtDeadlineConcat(q[..j], q[j..], d);
    AtDeadlineConcat(q[..j] + [e], q[j..], d);
    AtDeadlineConcat(q[..j], [e], d);
    if e.due == d {
      forall i | 0 <= i < |q[j..]| ensures q[j..][i].due != d {
        assert q[j..][i] == q[j + i];
      }
      NoneAtDeadline(q[j..], d);
    }
  }

  /** Sortedness and the arrival order within each deadline leave only one possible queue. */
  lemma {:induction false} SortedIsDetermined(p: seq<Item>, q: seq<Item>)
    requires Sorted(p) && Sorted(q)
    requires forall d :: AtDeadline(p, d) == AtDeadline(q, d)
    ensures p == q
    decreases |p|
  {
    if p == [] {
      if q != [] {
        HeadIsAtItsDeadline(q, p);
      }
    } else if q == [] {
      HeadIsAtItsDeadline(p, q);
    } else {
      HeadIsLeast(p, q);
      HeadIsLeast(q, p);
      assert p[0].due == q[0].due;
      assert AtDeadline(p, p[0].due)[0] == p[0] && AtDeadline(q, p[0].due)[0] == q[0];
      forall d ensures AtDeadline(p[1..], d) == AtDeadline(q[1..], d) {
        var h := if p[0].due == d then [p[0]] else [];
        assert AtDeadline(p, d) == h + AtDeadline(p[1..], d);
        assert AtDeadline(q, d) == h + AtDeadline(q[1..], d);
        Bytes.SameHead(h, AtDeadline(p[1..], d), AtDeadline(q[1..], d));
      }
      SortedIsDetermined(p[1..], q[1..]);
    }
  }

  lemma HeadIsAtItsDeadline(p: seq<Item>, q: seq<Item>)
    requires p != [] && q == []
    ensures AtDeadline(p, p[0].due) != AtDeadline(q, p[0].due)
  {
  }

  lemma HeadIsLeast(p: seq<Item>, q: seq<Item>)
    requires p != [] && q != [] && Sorted(p) && Sorted(q)
    requires forall d :: AtDeadline(p, d) == AtDeadline(q, d)
    ensures !Earlier(p[0].due, q[0].due)
  {
    if Earlier(p[0].due, q[0].due) {
      forall i | 0 <= i < |q| ensures q[i].due != p[0].due {
        if i > 0 {
          assert !Earlier(q[i].due, q[0].due);
        }
      }
      assert AtDeadline(p, p[0].due) == AtDeadline(q, p[0].due);
      assert AtDeadline(p, p[0].due)[0] == p[0];
      NoneAtDeadline(q, p[0].due);
    }
  }

  // ---------- Firing ----------

  /** The wakeups of a callback that are not earlier than the event whose callback it is. */
  function NotEarlier(ws: seq<Item>, d: Deadline): seq<Item> {
    if ws == [] then []
    else (if Earlier(ws[0].due, d) then [] else [ws[0]]) + NotEarlier(ws[1..], d)
  }

  function EarlierOnes(ws: seq<Item>, d: Deadline): seq<Item> {
    if ws == [] then []
    else (if Earlier(ws[0].due, d) then [ws[0]] else []) + EarlierOnes(ws[1..], d)
  }

  /** What is left after the head has fired and its callback has called wakeup for `ws`. */
  function AfterFire(q: seq<Item>, ws: seq<Item>): seq<Item>
    requires q != []
  {
    InsertAll(q[1..], NotEarlier(ws, q[0].due))
  }

  /** The due test of process: the 10 ms are added to the nanoseconds without carrying over. */
  predicate IsDue(e: Item, now: Deadline) {
    e.due.s < now.s || (e.due.s == now.s && e.due.ns < now.ns + 10_000_000)
  }

  lemma {:induction false} InsertAllAppend(q: seq<Item>, es: seq<Item>, e: Item)
    ensures InsertAll(q, es + [e]) == Insert(InsertAll(q, es), e)
    decreases |es|
  {
    hide Insert;
    if es == [] {
      assert (es + [e])[1..] == [];
    } else {
      assert (es + [e])[1..] == es[1..] + [e];
      InsertAllAppend(Insert(q, es[0]), es[1..], e);
    }
  }

  lemma {:induction false} NotEarlierAppend(ws: seq<Item>, w: Item, d: Deadline)
    ensures NotEarlier(ws + [w], d) == NotEarlier(ws, d) + (if Earlier(w.due, d) then [] else [w])
    decreases |ws|
  {
    if ws == [] {
      assert (ws + [w])[1..] == [];
    } else {
      assert (ws + [w])[1..] == ws[1..] + [w];
      NotEarlierAppend(ws[1..], w, d);
    }
  }

  lemma {:induction false} InsertAllKeeps(q: seq<Item>, es: seq<Item>)
    requires Sorted(q)
    ensures Sorted(InsertAll(q, es)) && multiset(InsertAll(q, es)) == multiset(q) + multiset(es)
    decreases |es|
  {
    hide Insert;
    if es != [] {
      InsertKeepsSorted(q, es[0]);
      InsertKeepsItems(q, es[0]);
      InsertAllKeeps(Insert(q, es[0]), es[1..]);
      assert es == [es[0]] + es[1..];
    }
  }

  lemma {:induction false} WakeupsSplit(ws: seq<Item>, d: Deadline)
    ensures multiset(ws) == multiset(NotEarlier(ws, d)) + multiset(EarlierOnes(ws, d))
    decreases |ws|
  {
    if ws != [] {
      WakeupsSplit(ws[1..], d);
      assert ws == [ws[0]] + ws[1..];
    }
  }

  lemma {:induction false} NoEarlierOnes(ws: seq<Item>, d: Deadline)
    ensures EarlierOnes(ws, d) == [] <==> forall i | 0 <= i < |ws| :: !Earlier(ws[i].due, d)
    decreases |ws|
  {
    if ws != [] {
      NoEarlierOnes(ws[1..], d);
      assert forall i | 0 < i < |ws| :: ws[i] == ws[1..][i - 1];
      assert forall i | 0 <= i < |ws| - 1 :: ws[1..][i] == ws[i + 1];
      assert Earlier(ws[0].due, d) ==> EarlierOnes(ws, d)[0] == ws[0];
    }
  }

  /** Firing loses exactly the wakeups its callback asked for with an earlier deadline than its
      own: unlinking the event afterwards unlinks everything inserted in front of it. */
  lemma FireConserves(q: seq<Item>, ws: seq<Item>)
    requires q != [] && Sorted(q)
    ensures Sorted(AfterFire(q, ws))
    ensures multiset(q) + multiset(ws)
            == multiset{q[0]} + multiset(AfterFire(q, ws)) + multiset(EarlierOnes(ws, q[0].due))
  {
    hide InsertAll, NotEarlier, EarlierOnes;
    InsertAllKeeps(q[1..], NotEarlier(ws, q[0].due));
    WakeupsSplit(ws, q[0].due);
    assert q == [q[0]] + q[1..];
  }

  lemma Cancel(all: multiset<Item>, e: Item, rest: multiset<Item>, w: multiset<Item>, a: multiset<Item>,
               l: multiset<Item>)
    requires all == multiset{e} + rest && all + w == multiset{e} + a + l
    ensures rest + w == a + l
  {
    forall x ensures (rest + w)[x] == (a + l)[x] {
      assert (all + w)[x] == (multiset{e} + a + l)[x];
    }
  }

  /** No event is lost if and only if every wakeup of the callback is due no earlier than the
      event that is running. */
  lemma NothingLostIff(q: seq<Item>, ws: seq<Item>)
    requires q != [] && Sorted(q)
    ensures multiset(AfterFire(q, ws)) == multiset(q[1..]) + multiset(ws)
            <==> forall i | 0 <= i < |ws| :: !Earlier(ws[i].due, q[0].due)
  {
    hide InsertAll, NotEarlier, EarlierOnes;
    hide AfterFire;
    FireConserves(q, ws);
    NoEarlierOnes(ws, q[0].due);
    assert q == [q[0]] + q[1..];
    var lost := EarlierOnes(ws, q[0].due);
    Cancel(multiset(q), q[0], multiset(q[1..]), multiset(ws), multiset(AfterFire(q, ws)), multiset(lost));
    if multiset(AfterFire(q, ws)) == multiset(q[1..]) + multiset(ws) {
      var a := multiset(AfterFire(q, ws));
      assert |a + multiset(lost)| == |a| + |multiset(lost)|;
      assert |multiset(lost)| == 0;
    }
  }

  /** The buffer makes this reachable: an event due in 9 ms fires now, its callback asks to be woken
      in 5 ms, and that wakeup never fires. */
  lemma EarlyFiringCanLoseAWakeup()
    ensures var running, wakeup := Item(1, Deadline(0, 9_000_000)), Item(2, Deadline(0, 5_000_000));
            IsDue(running, Deadline(0, 0)) && AfterFire([running], [wakeup]) == []
  {
    var running, wakeup := Item(1, Deadline(0, 9_000_000)), Item(2, Deadline(0, 5_000_000));
    assert [running][1..] == [] && [wakeup][1..] == [];
    assert NotEarlier([wakeup], running.due) == [];
  }

  // ---------- Runs ----------

  datatype Step =
    | Wakeup(item: Item)
    | Process(now: Deadline, ws: seq<Item>)

  /** The queue with the history of what was added, has fired and was lost. */
  datatype History = History(queue: seq<Item>, added: seq<Item>, fired: seq<Item>, lost: seq<Item>)

  function Next(h: History, step: Step): History {
    match step
    case Wakeup(e) => h.(queue := Insert(h.queue, e), added := h.added + [e])
    case Process(now, ws) =>
      if h.queue != [] && IsDue(h.queue[0], now) then
        History(AfterFire(h.queue, ws), h.added + ws, h.fired + [h.queue[0]],
                h.lost + EarlierOnes(ws, h.queue[0].due))
      else h
  }

  function Run(h: History, steps: seq<Step>): History
    decreases |steps|
  {
    if steps == [] then h else Run(Next(h, steps[0]), steps[1..])
  }

  ghost predicate Accounted(h: History) {
    Sorted(h.queue) && multiset(h.added) == multiset(h.fired) + multiset(h.queue) + multiset(h.lost)
  }

  lemma Rebalance(added: multiset<Item>, fired: multiset<Item>, q: multiset<Item>, lost: multiset<Item>,
                  w: multiset<Item>, e: multiset<Item>, q': multiset<Item>, l: multiset<Item>)
    requires added == fired + q + lost && q + w == e + q' + l
    ensures added + w == (fired + e) + q' + (lost + l)
  {
    forall x ensures (added + w)[x] == ((fired + e) + q' + (lost + l))[x] {
      assert (q + w)[x] == (e + q' + l)[x];
    }
  }

  lemma StepAccounts(h: History, step: Step)
    requires Accounted(h)
    ensures Accounted(Next(h, step))
  {
    hide Insert, AfterFire, EarlierOnes, Sorted;
    match step
    case Wakeup(e) =>
      InsertKeepsSorted(h.queue, e);
      InsertKeepsItems(h.queue, e);
    case Process(now, ws) =>
      if h.queue != [] && IsDue(h.queue[0], now) {
        FireConserves(h.queue, ws);
        var e, lost := h.queue[0], EarlierOnes(ws, h.queue[0].due);
        Rebalance(multiset(h.added), multiset(h.fired), multiset(h.queue), multiset(h.lost),
                  multiset(ws), multiset{e}, multiset(AfterFire(h.queue, ws)), multiset(lost));
        assert multiset(h.added + ws) == multiset(h.added) + multiset(ws);
        assert multiset(h.fired + [e]) == multiset(h.fired) + multiset{e};
        assert multiset(h.lost + lost) == multiset(h.lost) + multiset(lost);
      }
  }

  /** Over every run the queue stays sorted and every event ever added has fired once, is still
      queued, or was lost; so an event added once fires at most once. */
  lemma {:induction false} RunAccounts(h: History, steps: seq<Step>)
    requires Accounted(h)
    ensures Accounted(Run(h, steps))
    ensures forall e :: multiset(Run(h, steps).fired)[e] <= multiset(Run(h, steps).added)[e]
    decreases |steps|
  {
    hide Next;
    if steps != [] {
      StepAccounts(h, steps[0]);
      RunAccounts(Next(h, steps[0]), steps[1..]);
    }
  }

  /** Callbacks that never ask for a deadline earlier than their own event's lose nothing. */
  ghost predicate Polite(h: History, steps: seq<Step>)
    decreases |steps|
  {
    steps != [] ==>
      && (steps[0].Process? && h.queue != [] && IsDue(h.queue[0], steps[0].now) ==>
            forall i | 0 <= i < |steps[0].ws| :: !Earlier(steps[0].ws[i].due, h.queue[0].due))
      && Polite(Next(h, steps[0]), steps[1..])
  }

  lemma {:induction false} RunLosesNothingIff(h: History, steps: seq<Step>)
    ensures Run(h, steps).lost == h.lost <==> Polite(h, steps)
    ensures |Run(h, steps).lost| >= |h.lost|
    decreases |steps|
  {
    if steps != [] {
      var h1 := Next(h, steps[0]);
      RunLosesNothingIff(h1, steps[1..]);
      if steps[0].Process? && h.queue != [] && IsDue(h.queue[0], steps[0].now) {
        NoEarlierOnes(steps[0].ws, h.queue[0].due);
        assert h1.lost == h.lost + EarlierOnes(steps[0].ws, h.queue[0].due);
      }
    }
  }

  // ---------- Arrival order over whole runs ----------

  /** What a step puts into the queue for good: a callback's earlier wakeups are unlinked again. */
  function Enters(h: History, step: Step): seq<Item> {
    match step
    case Wakeup(e) => [e]
    case Process(now, ws) =>
      if h.queue != [] && IsDue(h.queue[0], now) then NotEarlier(ws, h.queue[0].due) else []
  }

  function Accepted(h: History, steps: seq<Step>): seq<Item>
    decreases |steps|
  {
    if steps == [] then [] else Enters(h, steps[0]) + Accepted(Next(h, steps[0]), steps[1..])
  }

  lemma {:induction false} InsertAllIsStable(q: seq<Item>, es: seq<Item>, d: Deadline)
    requires Sorted(q)
    ensures AtDeadline(InsertAll(q, es), d) == AtDeadline(q, d) + AtDeadline(es, d)
    decreases |es|
  {
    hide Insert, Sorted;
    if es != [] {
      InsertKeepsSorted(q, es[0]);
      InsertIsStable(q, es[0], d);
      InsertAllIsStable(Insert(q, es[0]), es[1..], d);
    }
  }

  lemma StepIsStable(h: History, step: Step, d: Deadline)
    requires Sorted(h.queue)
    ensures var h' := Next(h, step);
            && Sorted(h'.queue)
            && AtDeadline(h'.fired + h'.queue, d) == AtDeadline(h.fired + h.queue, d) + AtDeadline(Enters(h, step), d)
  {
    hide Insert, InsertAll, NotEarlier, AtDeadline;
    var h' := Next(h, step);
    AtDeadlineConcat(h.fired, h.queue, d);
    AtDeadlineConcat(h'.fired, h'.queue, d);
    match step
    case Wakeup(e) =>
      InsertKeepsSorted(h.queue, e);
      InsertIsStable(h.queue, e, d);
      OneAtDeadline(e, d);
    case Process(now, ws) =>
      if h.queue != [] && IsDue(h.queue[0], now) {
        var e, rest, enters := h.queue[0], h.queue[1..], NotEarlier(ws, h.queue[0].due);
        assert h.queue == [e] + rest;
        AtDeadlineConcat([e], rest, d);
        AtDeadlineConcat(h.fired, [e], d);
        InsertAllKeeps(rest, enters);
        InsertAllIsStable(rest, enters, d);
      } else {
        NoneAtDeadline([], d);
      }
  }

  lemma OneAtDeadline(e: Item, d: Deadline)
    ensures AtDeadline([e], d) == if e.due == d then [e] else []
  {
    assert [e][1..] == [];
  }

  /** Over every run the events of one deadline that have fired, followed by those still queued, are the ones
      that were there and then the accepted ones, in the order in which they arrived. */
  lemma {:induction false} RunIsStable(h: History, steps: seq<Step>, d: Deadline)
    requires Sorted(h.queue)
    ensures var r := Run(h, steps);
            AtDeadline(r.fired + r.queue, d) == AtDeadline(h.fired + h.queue, d) + AtDeadline(Accepted(h, steps), d)
    decreases |steps|
  {
    hide Next, Enters, Sorted, AtDeadline;
    if steps == [] {
      NoneAtDeadline([], d);
    } else {
      StepIsStable(h, steps[0], d);
      RunIsStable(Next(h, steps[0]), steps[1..], d);
      AtDeadlineConcat(Enters(h, steps[0]), Accepted(Next(h, steps[0]), steps[1..]), d);
    }
  }

  lemma {:induction false} NoneEarlier(ws: seq<Item>, d: Deadline)
    requires forall i | 0 <= i < |ws| :: !Earlier(ws[i].due, d)
    ensures NotEarlier(ws, d) == ws
    decreases |ws|
  {
    if ws != [] {
      NoneEarlier(ws[1..], d);
    }
  }

  lemma {:induction false} PoliteRunAcceptsAll(h: History, steps: seq<Step>)
    requires Polite(h, steps)
    ensures Run(h, steps).added == h.added + Accepted(h, steps)
    decreases |steps|
  {
    hide Earlier, IsDue, Next, Enters;
    if steps != [] {
      PoliteStepAcceptsAll(h, steps[0]);
      PoliteRunAcceptsAll(Next(h, steps[0]), steps[1..]);
    }
  }

  lemma PoliteStepAcceptsAll(h: History, step: Step)
    requires step.Process? && h.queue != [] && IsDue(h.queue[0], step.now) ==>
               forall i | 0 <= i < |step.ws| :: !Earlier(step.ws[i].due, h.queue[0].due)
    ensures Next(h, step).added == h.added + Enters(h, step)
  {
    hide Earlier, IsDue, Insert, AfterFire;
    if step.Process? && h.queue != [] && IsDue(h.queue[0], step.now) {
      NoneEarlier(step.ws, h.queue[0].due);
    }
  }

  /** Within each deadline, what has fired and what is queued is what was added, in that order. */
  ghost predicate InArrivalOrder(h: History) {
    forall d :: OrderedAt(h, d)
  }

  ghost predicate OrderedAt(h: History, d: Deadline) {
    AtDeadline(h.fired + h.queue, d) == AtDeadline(h.added, d)
  }

  lemma {:induction false} AtDeadlineKeeps(q: seq<Item>, e: Item)
    ensures multiset(AtDeadline(q, e.due))[e] == multiset(q)[e]
    decreases |q|
  {
    if q != [] {
      AtDeadlineKeeps(q[1..], e);
      assert q == [q[0]] + q[1..];
    }
  }

  lemma OrderMeansNothingLost(h: History)
    requires Accounted(h) && InArrivalOrder(h)
    ensures h.lost == []
  {
    if h.lost != [] {
      NotLost(h, h.lost[0]);
    }
  }

  lemma NotLost(h: History, e: Item)
    requires Accounted(h) && InArrivalOrder(h)
    ensures e !in h.lost
  {
    hide Sorted, AtDeadline;
    assert OrderedAt(h, e.due);
    AtDeadlineKeeps(h.fired + h.queue, e);
    AtDeadlineKeeps(h.added, e);
    assert multiset(h.fired + h.queue) == multiset(h.fired) + multiset(h.queue);
    assert multiset(h.lost)[e] == 0;
  }

  /** A run keeps the arrival order within every deadline if and only if its callbacks are polite. */
  lemma ArrivalOrderIff(h: History, steps: seq<Step>)
    requires Accounted(h) && InArrivalOrder(h)
    ensures InArrivalOrder(Run(h, steps)) <==> Polite(h, steps)
  {
    hide Sorted, AtDeadline, Run, Polite, Accepted;
    OrderMeansNothingLost(h);
    RunAccounts(h, steps);
    RunLosesNothingIff(h, steps);
    if Polite(h, steps) {
      PoliteRunAcceptsAll(h, steps);
      forall d ensures OrderedAt(Run(h, steps), d) {
        assert OrderedAt(h, d);
        RunIsStable(h, steps, d);
        AtDeadlineConcat(h.added, Accepted(h, steps), d);
      }
    } else if InArrivalOrder(Run(h, steps)) {
      OrderMeansNothingLost(Run(h, steps));
      assert false;
    }
  }

  // ---------- Draining with the clock held ----------

  function Drained(q: seq<Item>, now: Deadline): seq<Item> {
    if q == [] || !IsDue(q[0], now) then [] else [q[0]] + Drained(AfterFire(q, []), now)
  }

  function Nanoseconds(d: Deadline): int {
    d.s * 1_000_000_000 + d.ns
  }

  ghost predicate Normalized(d: Deadline) {
    0 <= d.ns < 1_000_000_000
  }

  /** Processing until nothing is due fires, in queue order, a front part of the queue that holds
      every due event and no other. */
  lemma {:induction false} DrainFiresTheDue(q: seq<Item>, now: Deadline)
    requires Sorted(q)
    ensures var fired := Drained(q, now);
            && fired <= q
            && (forall i | 0 <= i < |q| :: IsDue(q[i], now) <==> i < |fired|)
    decreases |q|
  {
    if q != [] && IsDue(q[0], now) {
      assert AfterFire(q, []) == q[1..];
      DrainFiresTheDue(q[1..], now);
      forall i | 0 <= i < |q| ensures IsDue(q[i], now) <==> i < |Drained(q, now)| {
        if i > 0 {
          assert q[i] == q[1..][i - 1];
        }
      }
    } else if q != [] {
      forall i | 0 <= i < |q| ensures !IsDue(q[i], now) {
        if i > 0 {
          assert !Earlier(q[i].due, q[0].due);
        }
      }
    }
  }

  /** So with normalized times everything due by now fires, and nothing that is 10 ms ahead. */
  lemma DrainIsOnTime(q: seq<Item>, now: Deadline, i: nat)
    requires Sorted(q) && i < |q| && Normalized(q[i].due) && Normalized(now)
    ensures Nanoseconds(q[i].due) <= Nanoseconds(now) ==> i < |Drained(q, now)| && Drained(q, now)[i] == q[i]
    ensures Nanoseconds(q[i].due) >= Nanoseconds(now) + 10_000_000 ==> i >= |Drained(q, now)|
    ensures i < |Drained(q, now)|
            <==> Nanoseconds(q[i].due) < Nanoseconds(now) + 10_000_000 && q[i].due.s <= now.s
  {
    DrainFiresTheDue(q, now);
    DueIff(q[i], now);
  }

  /** An event is due if it is less than 10 ms ahead and not in a later second: the buffer does not carry. */
  lemma DueIff(e: Item, now: Deadline)
    requires Normalized(e.due) && Normalized(now)
    ensures IsDue(e, now) <==> Nanoseconds(e.due) < Nanoseconds(now) + 10_000_000 && e.due.s <= now.s
  {
  }

  /** Five milliseconds before the end of a second, an event 7 ms ahead has to wait. */
  lemma BufferStopsAtTheSecond(callback: int)
    ensures var e, now := Item(callback, Deadline(1, 2_000_000)), Deadline(0, 995_000_000);
            Nanoseconds(e.due) - Nanoseconds(now) == 7_000_000 && Drained([e], now) == []
  {
  }

  // ---------- The linked list ----------

  class Event {
    const callback: int
    const due: Deadline
    var next: Event?

    constructor (callback: int, due: Deadline)
      ensures this.callback == callback && this.due == due && next == null
    {
      this.callback := callback;
      this.due := due;
      next := null;
    }
  }

  function Items(es: seq<Event>): (r: seq<Item>)
    ensures |r| == |es|
  {
    seq(|es|, i requires 0 <= i < |es| => Item(es[i].callback, es[i].due))
  }

  /** Distinct nodes, each pointing to the following one and the last to none. */
  ghost predicate Chained(es: seq<Event>)
    reads es
  {
    && (forall i, j | 0 <= i < j < |es| :: es[i] != es[j])
    && (forall i | 0 <= i < |es| - 1 :: es[i].next == es[i + 1])
    && (es != [] ==> es[|es| - 1].next == null)
  }

  /** One pointer assignment takes the nodes 1 to `p` out of the list. */
  lemma CutIsChained(es: seq<Event>, p: nat)
    requires 1 <= p < |es| && forall i, j | 0 <= i < j < |es| :: es[i] != es[j]
    requires forall i | 0 < i < |es| - 1 :: es[i].next == es[i + 1]
    requires es[|es| - 1].next == null && es[0].next == es[p].next
    ensures Chained([es[0]] + es[p + 1..])
  {
    var rest := [es[0]] + es[p + 1..];
    assert forall i | 1 <= i < |rest| :: rest[i] == es[p + i];
  }

  /** Two pointer assignments put `event` behind the first `k` nodes. */
  lemma SplicedIsChained(before: seq<Event>, event: Event, k: nat)
    requires 1 <= k <= |before| && event !in before
    requires forall i, j | 0 <= i < j < |before| :: before[i] != before[j]
    requires forall i | 0 <= i < |before| - 1 && i != k - 1 :: before[i].next == before[i + 1]
    requires before[k - 1].next == event
    requires event.next == if k < |before| then before[k] else null
    requires k < |before| ==> before[|before| - 1].next == null
    ensures Chained(before[..k] + [event] + before[k..])
  {
    var es := before[..k] + [event] + before[k..];
    forall i | 0 <= i < |es| ensures es[i] == if i < k then before[i] else if i == k then event else before[i - 1] {
    }
  }

  class Queue {
    var events: Event           // the head, which holds no event
    ghost var spine: seq<Event> // the nodes in list order, the head first
    ghost var nodes: set<Event> // every node of the list, and some that have left it

    ghost predicate Valid()
      reads this, nodes
    {
      && (forall x | x in spine :: x in nodes)
      && spine != [] && spine[0] == events
      && Chained(spine)
    }

    ghost function Contents(): seq<Item>
      reads this
    {
      if spine == [] then [] else Items(spine[1..])
    }

    constructor ()
      ensures Valid() && Contents() == [] && fresh(nodes)
    {
      events := new Event(0, Deadline(0, 0));
      new;
      spine := [events];
      nodes := {events};
    }

    /** Inserts behind every event that is not later; `k` is the position it got in the list. */
    method Wakeup(callback: int, due: Deadline) returns (ghost k: nat)
      requires Valid()
      modifies this`spine, this`nodes, nodes
      ensures Valid() && fresh(nodes - old(nodes))
      ensures 1 <= k <= |old(spine)| && |spine| == |old(spine)| + 1 && fresh(spine[k])
      ensures spine == old(spine)[..k] + [spine[k]] + old(spine)[k..]
      ensures spine[k].callback == callback && spine[k].due == due
      ensures forall i | 1 <= i < k :: !Earlier(due, old(spine)[i].due)
      ensures k < |old(spine)| ==> Earlier(due, old(spine)[k].due)
      ensures Contents() == Insert(old(Contents()), Item(callback, due))
    {
      hide Insert;
      var event := new Event(callback, due);
      var currentEvent := events;
      k := 1;
      while true
        invariant 1 <= k <= |spine| && currentEvent == spine[k - 1]
        invariant spine == old(spine) && nodes == old(nodes) && Valid() && event !in spine && event.next == null
        invariant forall i | 1 <= i < k :: !Earlier(due, spine[i].due)
        decreases |spine| - k
      {
        var nextEvent := currentEvent.next;
        if nextEvent == null {
          currentEvent.next := event;
          break;
        } else if Earlier(due, nextEvent.due) {
          event.next := nextEvent;
          currentEvent.next := event;
          break;
        }
        currentEvent := nextEvent;
        k := k + 1;
      }
      ghost var before := spine;
      SplicedIsChained(before, event, k);
      spine := before[..k] + [event] + before[k..];
      nodes := nodes + {event};
      InsertedItems(before, event, k);
    }

    /** What the running callback does to the queue: the wakeups `ws`. Afterwards its event stands
        at position `p`, behind the wakeups that are earlier than it. */
    method Callback(event: Event, ws: seq<Item>) returns (ghost p: nat)
      requires Valid() && |spine| > 1 && spine[1] == event
      modifies this`spine, this`nodes, nodes
      ensures Valid() && fresh(nodes - old(nodes)) && 1 <= p < |spine| && spine[p] == event
      ensures Items(spine[p + 1..]) == InsertAll(Items(old(spine)[2..]), NotEarlier(ws, event.due))
    {
      hide Insert, InsertAll, NotEarlier, Earlier, AllEarlier, Items;
      p := 1;
      FirstHasNoneBefore(spine, event.due);
      ghost var rest := Items(spine[2..]);
      NoWakeups(rest, event.due);
      assert ws[..0] == [];
      for i := 0 to |ws|
        invariant Valid() && 1 <= p < |spine| && spine[p] == event
        invariant fresh(nodes - old(nodes))
        invariant AllEarlier(spine, p, event.due)
        invariant Items(spine[p + 1..]) == InsertAll(rest, NotEarlier(ws[..i], event.due))
      {
        ghost var s := spine;
        ghost var k := Wakeup(ws[i].callback, ws[i].due);
        p := CallbackStep(s, spine, p, k, ws, i, rest);
      }
      assert ws[..|ws|] == ws;
    }

    /** Fires the head if it is due; the event is unlinked, with whatever stands in front of it,
        after its callback has run. */
    method Process(now: Deadline, ws: seq<Item>) returns (fired: bool)
      requires Valid() && Sorted(Contents())
      modifies this`spine, this`nodes, nodes
      ensures Valid() && Sorted(Contents()) && fresh(nodes - old(nodes))
      ensures fired == (old(Contents()) != [] && IsDue(old(Contents())[0], now))
      ensures Contents() == if fired then AfterFire(old(Contents()), ws) else old(Contents())
    {
      hide InsertAll, NotEarlier, Sorted, EarlierOnes, IsDue, Insert, Earlier, Items, AfterFire;
      var event := events.next;
      ghost var q := Contents();
      if |spine| > 1 {
        HeadItem(spine);
      }
      if event != null && IsDue(Item(event.callback, event.due), now) {
        FireSorts(q, ws);
        ghost var p := Callback(event, ws);
        events.next := event.next;
        CutIsChained(spine, p);
        ghost var behind := spine[p + 1..];
        spine := [events] + behind;
        assert spine[1..] == behind;
        return true;
      }
      return false;
    }
  }

  lemma FireSorts(q: seq<Item>, ws: seq<Item>)
    requires q != [] && Sorted(q)
    ensures Sorted(AfterFire(q, ws)) && AfterFire(q, ws) == InsertAll(q[1..], NotEarlier(ws, q[0].due))
  {
    FireConserves(q, ws);
  }

  lemma HeadItem(spine: seq<Event>)
    requires |spine| > 1
    ensures Items(spine[1..]) != [] && Items(spine[1..])[0] == Item(spine[1].callback, spine[1].due)
    ensures Items(spine[1..])[1..] == Items(spine[2..])
  {
  }

  lemma NoWakeups(q: seq<Item>, d: Deadline)
    ensures InsertAll(q, NotEarlier([], d)) == q
  {
  }

  lemma InsertedItems(before: seq<Event>, event: Event, k: nat)
    requires 1 <= k <= |before|
    requires forall i | 1 <= i < k :: !Earlier(event.due, before[i].due)
    requires k < |before| ==> Earlier(event.due, before[k].due)
    ensures Items((before[..k] + [event] + before[k..])[1..])
            == Insert(Items(before[1..]), Item(event.callback, event.due))
  {
    hide Insert;
    var q := Items(before[1..]);
    var e := Item(event.callback, event.due);
    InsertAt(q, e, k - 1);
    assert (before[..k] + [event] + before[k..])[1..] == before[1..][..k - 1] + [event] + before[1..][k - 1..];
    assert Items((before[..k] + [event] + before[k..])[1..]) == q[..k - 1] + [e] + q[k - 1..];
  }

  ghost predicate AllEarlier(spine: seq<Event>, p: nat, d: Deadline) {
    p <= |spine| && forall j | 1 <= j < p :: Earlier(spine[j].due, d)
  }

  lemma FirstHasNoneBefore(spine: seq<Event>, d: Deadline)
    requires |spine| > 1
    ensures AllEarlier(spine, 1, d)
  {
  }

  /** The invariant of a running callback over one more wakeup. */
  lemma CallbackStep(s: seq<Event>, t: seq<Event>, p: nat, k: nat, ws: seq<Item>, i: nat, rest: seq<Item>)
    returns (p': nat)
    requires i < |ws| && 1 <= p < |s| && 1 <= k <= |s| && |t| == |s| + 1 && t == s[..k] + [t[k]] + s[k..]
    requires t[k].callback == ws[i].callback && t[k].due == ws[i].due
    requires forall i' | 1 <= i' < k :: !Earlier(ws[i].due, s[i'].due)
    requires k < |s| ==> Earlier(ws[i].due, s[k].due)
    requires AllEarlier(s, p, s[p].due)
    requires Items(s[p + 1..]) == InsertAll(rest, NotEarlier(ws[..i], s[p].due))
    ensures 1 <= p' < |t| && t[p'] == s[p] && AllEarlier(t, p', s[p].due)
    ensures Items(t[p' + 1..]) == InsertAll(rest, NotEarlier(ws[..i + 1], s[p].due))
  {
    hide Insert, InsertAll, NotEarlier, Earlier, Items;
    assert ws[i] == Item(t[k].callback, t[k].due);
    InsertedBehind(s, t, p, k, ws[i]);
    assert ws[..i + 1] == ws[..i] + [ws[i]];
    var kept := NotEarlier(ws[..i], s[p].due);
    NotEarlierAppend(ws[..i], ws[i], s[p].due);
    if !Earlier(ws[i].due, s[p].due) {
      p' := p;
      InsertAllAppend(rest, kept, ws[i]);
    } else {
      p' := p + 1;
      assert kept + [] == kept;
    }
  }

  /** Where the running event and what stands behind it are after one more insertion. */
  lemma InsertedBehind(s: seq<Event>, t: seq<Event>, p: nat, k: nat, w: Item)
    requires 1 <= p < |s| && 1 <= k <= |s| && |t| == |s| + 1 && t == s[..k] + [t[k]] + s[k..]
    requires Item(t[k].callback, t[k].due) == w
    requires forall i | 1 <= i < k :: !Earlier(w.due, s[i].due)
    requires k < |s| ==> Earlier(w.due, s[k].due)
    requires forall j | 1 <= j < p :: Earlier(s[j].due, s[p].due)
    ensures Earlier(w.due, s[p].due) ==>
              t[p + 1] == s[p] && t[p + 2..] == s[p + 1..] && forall j | 1 <= j < p + 1 :: Earlier(t[j].due, s[p].due)
    ensures !Earlier(w.due, s[p].due) ==>
              t[p] == s[p] && Items(t[p + 1..]) == Insert(Items(s[p + 1..]), w)
              && forall j | 1 <= j < p :: Earlier(t[j].due, s[p].due)
  {
    hide Insert;
    if Earlier(w.due, s[p].due) {
      assert k <= p;
    } else {
      assert k > p;
      var q := Items(s[p + 1..]);
      InsertAt(q, w, k - p - 1);
      assert t[p + 1..] == s[p + 1..][..k - p - 1] + [t[k]] + s[p + 1..][k - p - 1..];
      assert Items(t[p + 1..]) == q[..k - p - 1] + [w] + q[k - p - 1..];
    }
  }
}
