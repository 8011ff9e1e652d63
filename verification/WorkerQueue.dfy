/**
 The producer/consumer queue and the worker threads that serve it, as a class for the queue and a state machine of
 atomic steps for the threads. Every critical section is one step; waking up from a wait and retaking the lock is
 another. Wake-ups may be spurious, and any thread may cancel or push at any time.
 */
module WorkerQueue {
  import opened Options

  // ---- The queue ----

  datatype Contents<T> = Contents(items: seq<T>, shutdown: bool)

  /** What a consumer that holds the lock finds. */
  datatype Attempt<T> = Block | Nothing | Value(value: T)

  function Attempted<T>(c: Contents<T>): Attempt<T> {
    if c.shutdown then Nothing else if c.items == [] then Block else Value(c.items[0])
  }

  function AfterAttempt<T>(c: Contents<T>): Contents<T> {
    if Attempted(c).Value? then c.(items := c.items[1..]) else c
  }

  class ProducerConsumerQueue<T(==)> {
    var queue: seq<T>
    var shutdown: bool
    ghost var deleted: seq<T>

    ghost function Now(): Contents<T>
      reads this
    {
      Contents(queue, shutdown)
    }

    constructor ()
      ensures Now() == Contents([], false) && deleted == []
    {
      queue, shutdown, deleted := [], false, [];
    }

    method Push(value: T)
      modifies this
      ensures Now() == Contents(old(queue) + [value], old(shutdown)) && deleted == old(deleted)
    {
      queue := queue + [value];
    }

    method Pop() returns (value: Option<T>)
      modifies this
      ensures Now() == AfterAttempt(old(Now())) && deleted == old(deleted)
      ensures value == match Attempted(old(Now())) case Value(x) => Some(x) case _ => None
    {
      if queue == [] || shutdown {
        return None;
      }
      value := Some(queue[0]);
      queue := queue[1..];
    }

    /** WaitAndPop from taking or retaking the lock to the next wait or the return. */
    method WaitAndPopStep() returns (attempt: Attempt<T>)
      modifies this
      ensures attempt == Attempted(old(Now())) && Now() == AfterAttempt(old(Now())) && deleted == old(deleted)
    {
      if queue == [] && !shutdown {
        return Block;
      }
      if queue == [] || shutdown {
        return Nothing;
      }
      attempt := Value(queue[0]);
      queue := queue[1..];
    }

    /** Deletes what is queued, front first, and shuts down for good. */
    method Cancel()
      modifies this
      ensures Now() == Contents([], true) && deleted == old(deleted) + old(queue)
    {
      while queue != []
        invariant deleted + queue == old(deleted) + old(queue)
        decreases |queue|
      {
        deleted := deleted + [queue[0]];
        queue := queue[1..];
      }
      shutdown := true;
    }
  }

  // ---- The threads ----

  /**
   Where a worker is: before taking the lock, blocked, woken but without the lock, back from WaitAndPop, past the
   check of its cancelation flag, past the call, or at its end.
   */
  datatype Phase =
    | Idle
    | Waiting
    | Notified
    | Returned(found: Option<int>)
    | Ready(op: int)
    | Called(op: int)
    | Exited

  datatype Worker = Worker(phase: Phase, cancelled: bool)

  /** Operations are numbered in the order of their pushes; the last five fields record what became of them. */
  datatype State = State(
    contents: Contents<int>,
    workers: seq<Worker>,
    pushed: nat,
    taken: seq<int>,
    runs: multiset<int>,
    finished: multiset<int>,
    discarded: multiset<int>,
    abandoned: multiset<int>)

  const INITIAL: State :=
    State(Contents([], false), [], 0, [], multiset{}, multiset{}, multiset{}, multiset{})

  datatype Action =
    | Start
    | Push(notified: nat)
    | Take(w: nat)
    | WakeUp(w: nat)
    | Check(w: nat)
    | Call(w: nat)
    | Delete(w: nat)
    | SetToken(w: nat)
    | Cancel

  predicate SomeWaiting(ws: seq<Worker>) {
    exists i :: 0 <= i < |ws| && ws[i].phase == Waiting
  }

  /** Whether a worker of this number is in this phase. */
  predicate At(s: State, w: nat, p: Phase) {
    w < |s.workers| && s.workers[w].phase == p
  }

  predicate Enabled(s: State, a: Action) {
    match a
    case Start => true
    case Push(w) => SomeWaiting(s.workers) ==> At(s, w, Waiting)
    case Take(w) => At(s, w, Idle) || At(s, w, Notified)
    case WakeUp(w) => At(s, w, Waiting)
    case Check(w) => w < |s.workers| && s.workers[w].phase.Returned?
    case Call(w) => w < |s.workers| && s.workers[w].phase.Ready?
    case Delete(w) => w < |s.workers| && s.workers[w].phase.Called?
    case SetToken(w) => w < |s.workers|
    case Cancel => true
  }

  function WakeAll(ws: seq<Worker>): (r: seq<Worker>)
    ensures |r| == |ws|
    ensures forall i :: 0 <= i < |ws| ==>
              r[i] == if ws[i].phase == Waiting then ws[i].(phase := Notified) else ws[i]
  {
    seq(|ws|, i requires 0 <= i < |ws| => if ws[i].phase == Waiting then ws[i].(phase := Notified) else ws[i])
  }

  function Moved(s: State, w: nat, p: Phase): seq<Worker>
    requires w < |s.workers|
  {
    s.workers[w := s.workers[w].(phase := p)]
  }

  function Apply(s: State, a: Action): State
    requires Enabled(s, a)
  {
    match a
    case Start => s.(workers := s.workers + [Worker(Idle, false)])
    case Push(w) =>
      s.(contents := s.contents.(items := s.contents.items + [s.pushed]),
         pushed := s.pushed + 1,
         workers := if SomeWaiting(s.workers) then Moved(s, w, Notified) else s.workers)
    case Take(w) =>
      var t := s.(contents := AfterAttempt(s.contents));
      (match Attempted(s.contents)
       case Block => t.(workers := Moved(s, w, Waiting))
       case Nothing => t.(workers := Moved(s, w, Returned(None)))
       case Value(op) => t.(workers := Moved(s, w, Returned(Some(op))), taken := s.taken + [op]))
    case WakeUp(w) => s.(workers := Moved(s, w, Notified))
    case Check(w) =>
      (match s.workers[w].phase.found
       case None => s.(workers := Moved(s, w, Exited))
       case Some(op) =>
         if s.workers[w].cancelled then s.(workers := Moved(s, w, Exited), abandoned := s.abandoned + multiset{op})
         else s.(workers := Moved(s, w, Ready(op))))
    case Call(w) =>
      var op := s.workers[w].phase.op;
      s.(workers := Moved(s, w, Called(op)), runs := s.runs + multiset{op})
    case Delete(w) =>
      var op := s.workers[w].phase.op;
      s.(workers := Moved(s, w, Idle), finished := s.finished + multiset{op})
    case SetToken(w) => s.(workers := s.workers[w := s.workers[w].(cancelled := true)])
    case Cancel =>
      s.(contents := Contents([], true),
         workers := WakeAll(s.workers),
         taken := s.taken + s.contents.items,
         discarded := s.discarded + multiset(s.contents.items))
  }

  /** A run is a sequence of actions, each enabled where it happens. */
  ghost predicate Runs(s: State, actions: seq<Action>, t: State)
    decreases |actions|
  {
    if actions == [] then s == t
    else Enabled(s, actions[0]) && Runs(Apply(s, actions[0]), actions[1..], t)
  }

  // ---- Tallies over the workers ----

  /** The operation a worker answers for. */
  function HeldBy(p: Phase): Option<int> {
    match p
    case Returned(found) => found
    case Ready(op) => Some(op)
    case Called(op) => Some(op)
    case _ => None
  }

  /** What can be counted: workers that answer for an operation, that have called it, or that were woken. */
  datatype Mark = Holding(op: int) | Executed(op: int) | Woken

  function Weight(p: Phase, m: Mark): nat {
    match m
    case Holding(op) => if HeldBy(p) == Some(op) then 1 else 0
    case Executed(op) => if p == Called(op) then 1 else 0
    case Woken => if p == Notified then 1 else 0
  }

  function Tally(ws: seq<Worker>, m: Mark): nat {
    if ws == [] then 0 else Weight(ws[0].phase, m) + Tally(ws[1..], m)
  }

  lemma {:induction false} TallySplit(ws: seq<Worker>, vs: seq<Worker>, m: Mark)
    ensures Tally(ws + vs, m) == Tally(ws, m) + Tally(vs, m)
  {
    hide Weight;
    if ws == [] {
      assert ws + vs == vs;
    } else {
      TallySplit(ws[1..], vs, m);
      assert (ws + vs)[1..] == ws[1..] + vs;
    }
  }

  lemma TallyOne(x: Worker, m: Mark)
    ensures Tally([x], m) == Weight(x.phase, m)
  {
    assert [x][1..] == [];
  }

  /** One worker changes phase. */
  lemma TallyMove(s: State, w: nat, p: Phase, m: Mark)
    requires w < |s.workers|
    ensures Tally(Moved(s, w, p), m) == Tally(s.workers, m) - Weight(s.workers[w].phase, m) + Weight(p, m)
  {
    hide Weight;
    var ws, x := s.workers, s.workers[w].(phase := p);
    var front, back := ws[..w], ws[w + 1..];
    assert ws == front + ([ws[w]] + back);
    assert ws[w := x] == front + ([x] + back);
    TallySplit(front, [ws[w]] + back, m);
    TallySplit([ws[w]], back, m);
    TallySplit(front, [x] + back, m);
    TallySplit([x], back, m);
    TallyOne(ws[w], m);
    TallyOne(x, m);
  }

  /** A line-up whose workers weigh the same one by one has the same tally. */
  lemma {:induction false} TallySame(ws: seq<Worker>, vs: seq<Worker>, m: Mark)
    requires |ws| == |vs| && forall i :: 0 <= i < |ws| ==> Weight(ws[i].phase, m) == Weight(vs[i].phase, m)
    ensures Tally(ws, m) == Tally(vs, m)
  {
    hide Weight;
    if ws != [] {
      forall i | 0 <= i < |ws| - 1 ensures Weight(ws[1..][i].phase, m) == Weight(vs[1..][i].phase, m) {
        assert ws[1..][i] == ws[i + 1] && vs[1..][i] == vs[i + 1];
      }
      TallySame(ws[1..], vs[1..], m);
    }
  }

  // ---- What every reachable state satisfies ----

  predicate Ordered(q: seq<int>) {
    forall i :: 0 <= i < |q| ==> q[i] == i
  }

  /** First in, first out: what left the queue, then what is in it, are the pushes in order. */
  ghost predicate FirstInFirstOut(s: State) {
    |s.taken + s.contents.items| == s.pushed && Ordered(s.taken + s.contents.items)
  }

  /** If it left the queue, the operation is held, finished, discarded or abandoned; it ran if it got that far. */
  ghost predicate AccountedFor(s: State, op: int) {
    && multiset(s.taken)[op] == Tally(s.workers, Holding(op)) + s.finished[op] + s.discarded[op] + s.abandoned[op]
    && s.runs[op] == Tally(s.workers, Executed(op)) + s.finished[op]
  }

  ghost predicate Accounted(s: State) {
    forall op: int :: AccountedFor(s, op)
  }

  /** Blocked workers leave no work behind that nobody was woken for. */
  ghost predicate NoLostWakeUp(s: State) {
    SomeWaiting(s.workers) ==> |s.contents.items| <= Tally(s.workers, Woken)
  }

  ghost predicate NobodyBlocksAfterShutdown(s: State) {
    s.contents.shutdown ==> !SomeWaiting(s.workers)
  }

  ghost predicate Invariant(s: State) {
    FirstInFirstOut(s) && Accounted(s) && NoLostWakeUp(s) && NobodyBlocksAfterShutdown(s)
  }

  lemma StepKeepsOrder(s: State, a: Action)
    requires FirstInFirstOut(s) && Enabled(s, a)
    ensures FirstInFirstOut(Apply(s, a))
  {
    hide SomeWaiting, Moved, WakeAll;
    var t := Apply(s, a);
    if a.Push? {
      assert t.taken + t.contents.items == (s.taken + s.contents.items) + [s.pushed];
    } else {
      assert t.taken + t.contents.items == s.taken + s.contents.items;
    }
  }

  lemma TakeKeepsAccounts(s: State, w: nat, op: int)
    requires AccountedFor(s, op) && Enabled(s, Take(w))
    ensures AccountedFor(Apply(s, Take(w)), op)
  {
    hide Tally, SomeWaiting, WakeAll;
    var t := Apply(s, Take(w));
    TallyMove(s, w, t.workers[w].phase, Holding(op));
    TallyMove(s, w, t.workers[w].phase, Executed(op));
    match Attempted(s.contents) {
      case Value(x) => assert multiset(s.taken + [x]) == multiset(s.taken) + multiset{x};
      case _ => assert t.taken == s.taken;
    }
  }

  lemma CheckKeepsAccounts(s: State, w: nat, op: int)
    requires AccountedFor(s, op) && Enabled(s, Check(w))
    ensures AccountedFor(Apply(s, Check(w)), op)
  {
    hide Tally, SomeWaiting, WakeAll;
    var t := Apply(s, Check(w));
    TallyMove(s, w, t.workers[w].phase, Holding(op));
    TallyMove(s, w, t.workers[w].phase, Executed(op));
  }

  lemma FinishKeepsAccounts(s: State, a: Action, op: int)
    requires AccountedFor(s, op) && Enabled(s, a) && (a.WakeUp? || a.Call? || a.Delete?)
    ensures AccountedFor(Apply(s, a), op)
  {
    hide Tally, SomeWaiting, WakeAll;
    var q := Apply(s, a).workers[a.w].phase;
    TallyMove(s, a.w, q, Holding(op));
    TallyMove(s, a.w, q, Executed(op));
  }

  lemma StepKeepsAccounts(s: State, a: Action, op: int)
    requires AccountedFor(s, op) && Enabled(s, a)
    ensures AccountedFor(Apply(s, a), op)
  {
    hide Tally, SomeWaiting;
    var ws := s.workers;
    match a {
      case Start =>
        var x := Worker(Idle, false);
        TallySplit(ws, [x], Holding(op));
        TallySplit(ws, [x], Executed(op));
        TallyOne(x, Holding(op));
        TallyOne(x, Executed(op));
      case Push(w) =>
        if SomeWaiting(ws) {
          TallyMove(s, w, Notified, Holding(op));
          TallyMove(s, w, Notified, Executed(op));
        }
      case SetToken(w) =>
        TallySame(ws, Apply(s, a).workers, Holding(op));
        TallySame(ws, Apply(s, a).workers, Executed(op));
      case Cancel =>
        TallySame(ws, WakeAll(ws), Holding(op));
        TallySame(ws, WakeAll(ws), Executed(op));
      case Take(w) => TakeKeepsAccounts(s, w, op);
      case Check(w) => CheckKeepsAccounts(s, w, op);
      case _ => FinishKeepsAccounts(s, a, op);
    }
  }

  predicate MovesOneWorker(a: Action) {
    a.Take? || a.WakeUp? || a.Check? || a.Call? || a.Delete?
  }

  /** What the move of one worker does to the queue: only a take changes it, and blocking needs it to be empty. */
  lemma MoveShape(s: State, a: Action)
    requires MovesOneWorker(a) && Enabled(s, a)
    ensures var t, p := Apply(s, a), s.workers[a.w].phase;
            var q := t.workers[a.w].phase;
            && t.workers == Moved(s, a.w, q) && t.contents.shutdown == s.contents.shutdown
            && |t.contents.items| <= |s.contents.items|
            && (q == Waiting ==> s.contents.items == [] && !s.contents.shutdown)
            && (p == Notified && q != Waiting && !s.contents.shutdown ==> |t.contents.items| < |s.contents.items|)
            && (q == Notified ==> p == Waiting)
  {
    hide Tally, WakeAll, HeldBy, SomeWaiting, Attempted, AfterAttempt;
    if a.Take? {
      FoundBy(s.contents);
    }
  }

  lemma FoundBy(c: Contents<int>)
    ensures c.shutdown == AfterAttempt(c).shutdown && |AfterAttempt(c).items| <= |c.items|
    ensures Attempted(c).Block? ==> c.items == [] && !c.shutdown
    ensures Attempted(c).Value? ==> |AfterAttempt(c).items| < |c.items|
    ensures Attempted(c).Nothing? ==> c.shutdown
  {
  }

  lemma MoveKeepsWakeUps(s: State, a: Action)
    requires NoLostWakeUp(s) && NobodyBlocksAfterShutdown(s) && MovesOneWorker(a) && Enabled(s, a)
    ensures NoLostWakeUp(Apply(s, a)) && NobodyBlocksAfterShutdown(Apply(s, a))
  {
    MoveShape(s, a);
    hide Tally, Apply;
    var q := Apply(s, a).workers[a.w].phase;
    TallyMove(s, a.w, q, Woken);
    forall i | 0 <= i < |s.workers| && Moved(s, a.w, q)[i].phase == Waiting
      ensures q == Waiting || SomeWaiting(s.workers)
    {
      assert i != a.w ==> s.workers[i].phase == Waiting;
    }
  }

  lemma StepKeepsWakeUps(s: State, a: Action)
    requires NoLostWakeUp(s) && NobodyBlocksAfterShutdown(s) && Enabled(s, a)
    ensures NoLostWakeUp(Apply(s, a)) && NobodyBlocksAfterShutdown(Apply(s, a))
  {
    hide Tally, HeldBy;
    var ws := s.workers;
    match a {
      case Start =>
        TallySplit(ws, [Worker(Idle, false)], Woken);
        TallyOne(Worker(Idle, false), Woken);
      case Push(w) =>
        if SomeWaiting(ws) {
          TallyMove(s, w, Notified, Woken);
        }
      case SetToken(w) =>
        TallySame(ws, Apply(s, a).workers, Woken);
      case Cancel =>
      case _ =>
        MoveKeepsWakeUps(s, a);
    }
  }

  lemma StepKeepsInvariant(s: State, a: Action)
    requires Invariant(s) && Enabled(s, a)
    ensures Invariant(Apply(s, a))
  {
    hide Tally, AccountedFor, Apply, Enabled;
    StepKeepsOrder(s, a);
    forall op: int ensures AccountedFor(Apply(s, a), op) {
      assert AccountedFor(s, op);
      StepKeepsAccounts(s, a, op);
    }
    StepKeepsWakeUps(s, a);
  }

  lemma {:induction false} RunKeepsInvariant(s: State, actions: seq<Action>, t: State)
    requires Invariant(s) && Runs(s, actions, t)
    ensures Invariant(t)
    decreases |actions|
  {
    hide Invariant, Apply, Enabled;
    if actions != [] {
      StepKeepsInvariant(s, actions[0]);
      RunKeepsInvariant(Apply(s, actions[0]), actions[1..], t);
    }
  }

  /** Whatever the threads do and however they interleave, the invariant holds. */
  lemma EveryRunIsSafe(actions: seq<Action>, t: State)
    requires Runs(INITIAL, actions, t)
    ensures Invariant(t)
  {
    RunKeepsInvariant(INITIAL, actions, t);
  }

  // ---- Conservation ----

  lemma {:induction false} OrderedCount(q: seq<int>, op: int)
    requires Ordered(q)
    ensures multiset(q)[op] == if 0 <= op < |q| then 1 else 0
  {
    if q != [] {
      var last := |q| - 1;
      assert q == q[..last] + [q[last]];
      OrderedCount(q[..last], op);
    }
  }

  /** Every pushed operation is in exactly one place, and nothing else is anywhere. */
  lemma ExactlyOnePlace(s: State, op: int)
    requires Invariant(s)
    ensures multiset(s.contents.items)[op] + Tally(s.workers, Holding(op))
            + s.finished[op] + s.discarded[op] + s.abandoned[op]
         == if 0 <= op < s.pushed then 1 else 0
    ensures s.runs[op] <= 1
  {
    hide Tally;
    OrderedCount(s.taken + s.contents.items, op);
    assert multiset(s.taken + s.contents.items) == multiset(s.taken) + multiset(s.contents.items);
    assert AccountedFor(s, op);
    ExecutedAreHeld(s.workers, op);
  }

  lemma {:induction false} ExecutedAreHeld(ws: seq<Worker>, op: int)
    ensures Tally(ws, Executed(op)) <= Tally(ws, Holding(op))
  {
    if ws != [] {
      ExecutedAreHeld(ws[1..], op);
    }
  }

  lemma TallyCovers(s: State, w: nat, m: Mark)
    requires w < |s.workers|
    ensures Weight(s.workers[w].phase, m) <= Tally(s.workers, m)
  {
    TallyMove(s, w, Exited, m);
  }

  /** No operation is held by two workers. */
  lemma HeldByOneWorker(s: State, v: nat, w: nat, op: int)
    requires Invariant(s) && v < |s.workers| && w < |s.workers|
    requires HeldBy(s.workers[v].phase) == Some(op) && HeldBy(s.workers[w].phase) == Some(op)
    ensures v == w
  {
    hide Tally;
    if v != w {
      TallyMove(s, v, Exited, Holding(op));
      TallyCovers(s.(workers := Moved(s, v, Exited)), w, Holding(op));
      ExactlyOnePlace(s, op);
    }
  }

  /** An operation about to be called was never called before, and it has not been deleted. */
  lemma CalledOnceBeforeDeletion(s: State, w: nat)
    requires Invariant(s) && Enabled(s, Call(w))
    ensures var op := s.workers[w].phase.op; s.runs[op] == 0 && s.finished[op] == 0 && s.discarded[op] == 0
  {
    hide Tally;
    var op := s.workers[w].phase.op;
    TallyMove(s, w, Exited, Holding(op));
    TallyMove(s, w, Exited, Executed(op));
    ExecutedAreHeld(Moved(s, w, Exited), op);
    ExactlyOnePlace(s, op);
    assert AccountedFor(s, op);
  }

  /** An operation about to be deleted by its worker was called once and nobody deleted it before. */
  lemma DeletedOnce(s: State, w: nat)
    requires Invariant(s) && Enabled(s, Delete(w))
    ensures var op := s.workers[w].phase.op; s.runs[op] == 1 && s.finished[op] == 0 && s.discarded[op] == 0
  {
    hide Tally;
    var op := s.workers[w].phase.op;
    TallyCovers(s, w, Executed(op));
    TallyCovers(s, w, Holding(op));
    ExactlyOnePlace(s, op);
    assert AccountedFor(s, op);
  }

  /** Operations deleted by a cancelation were never called, and nobody deleted them before. */
  lemma DiscardedUnused(s: State, op: int)
    requires Invariant(s) && op in s.contents.items
    ensures s.runs[op] == 0 && s.finished[op] == 0 && s.discarded[op] == 0
  {
    hide Tally;
    ExactlyOnePlace(s, op);
    assert op in multiset(s.contents.items);
    ExecutedAreHeld(s.workers, op);
    assert AccountedFor(s, op);
  }

  // ---- Progress ----

  lemma {:induction false} SomeoneWoken(ws: seq<Worker>) returns (w: nat)
    requires Tally(ws, Woken) > 0
    ensures w < |ws| && ws[w].phase == Notified
  {
    if ws[0].phase == Notified {
      w := 0;
    } else {
      w := SomeoneWoken(ws[1..]);
      w := w + 1;
    }
  }

  /** While work is queued, blocked workers imply a woken one that can take it. */
  lemma WorkIsTaken(s: State) returns (w: nat)
    requires Invariant(s) && s.contents.items != [] && SomeWaiting(s.workers)
    ensures Enabled(s, Take(w)) && At(s, w, Notified)
    ensures Apply(s, Take(w)).workers[w].phase == Returned(Some(s.contents.items[0]))
  {
    w := SomeoneWoken(s.workers);
  }

  /** Steps a worker has left before its thread ends, once the queue has shut down. */
  function Rank(p: Phase): nat {
    match p
    case Returned(Some(_)) => 5
    case Ready(_) => 4
    case Called(_) => 3
    case Waiting => 3
    case Idle => 2
    case Notified => 2
    case Returned(None) => 1
    case Exited => 0
  }

  predicate OwnStep(a: Action, w: nat) {
    MovesOneWorker(a) && a.w == w
  }

  function OwnSteps(actions: seq<Action>, w: nat): nat {
    if actions == [] then 0 else (if OwnStep(actions[0], w) then 1 else 0) + OwnSteps(actions[1..], w)
  }

  /** Shutdown is final: nobody blocks or takes work, and every step brings its worker closer to its end. */
  lemma ShutdownStep(s: State, a: Action, w: nat)
    requires Invariant(s) && s.contents.shutdown && Enabled(s, a) && w < |s.workers|
    ensures var t := Apply(s, a);
            && t.contents.shutdown && w < |t.workers|
            && (a.Take? ==> t.taken == s.taken && t.workers[a.w].phase == Returned(None))
            && Rank(t.workers[w].phase) + (if OwnStep(a, w) then 1 else 0) <= Rank(s.workers[w].phase)
  {
    assert !SomeWaiting(s.workers);
    hide Apply, Enabled, Tally, Accounted, FirstInFirstOut, NoLostWakeUp, Rank;
    OthersKeepPhase(s, a, w);
    if MovesOneWorker(a) {
      OwnStepRanksLower(s, a);
    }
  }

  lemma OwnStepRanksLower(s: State, a: Action)
    requires MovesOneWorker(a) && Enabled(s, a) && s.contents.shutdown && !SomeWaiting(s.workers)
    ensures var t := Apply(s, a);
            && a.w < |t.workers| && Rank(t.workers[a.w].phase) < Rank(s.workers[a.w].phase)
            && (a.Take? ==> t.taken == s.taken && t.workers[a.w].phase == Returned(None))
  {
    hide WakeAll, HeldBy;
    assert s.workers[a.w].phase != Waiting;
  }

  lemma OthersKeepPhase(s: State, a: Action, w: nat)
    requires Enabled(s, a) && s.contents.shutdown && !SomeWaiting(s.workers) && w < |s.workers|
    ensures Apply(s, a).contents.shutdown && w < |Apply(s, a).workers|
    ensures !OwnStep(a, w) ==> Apply(s, a).workers[w].phase == s.workers[w].phase
  {
    hide HeldBy;
    assert s.workers[w].phase != Waiting;
  }

  /** A worker that has not ended can always take a step, so nothing but its own pace delays the end. */
  lemma NeverStuckAfterShutdown(s: State, w: nat) returns (a: Action)
    requires Invariant(s) && s.contents.shutdown && w < |s.workers| && s.workers[w].phase != Exited
    ensures OwnStep(a, w) && Enabled(s, a)
  {
    hide Tally;
    assert !SomeWaiting(s.workers);
    match s.workers[w].phase {
      case Returned(_) => a := Check(w);
      case Ready(_) => a := Call(w);
      case Called(_) => a := Delete(w);
      case _ => a := Take(w);
    }
  }

  /** After shutdown a worker takes at most five more steps, whatever the others do. */
  lemma {:induction false} WorkersEnd(s: State, actions: seq<Action>, t: State, w: nat)
    requires Invariant(s) && s.contents.shutdown && Runs(s, actions, t) && w < |s.workers|
    ensures w < |t.workers| && OwnSteps(actions, w) + Rank(t.workers[w].phase) <= Rank(s.workers[w].phase) <= 5
    decreases |actions|
  {
    hide Tally, Accounted, FirstInFirstOut, NoLostWakeUp;
    if actions != [] {
      ShutdownStep(s, actions[0], w);
      StepKeepsInvariant(s, actions[0]);
      WorkersEnd(Apply(s, actions[0]), actions[1..], t, w);
    }
  }

  /** A worker whose cancelation flag is set, unless it is already past the check, calls no further operation. */
  lemma {:induction false} CancelledCallsNothing(s: State, actions: seq<Action>, t: State, w: nat)
    requires Runs(s, actions, t) && w < |s.workers| && s.workers[w].cancelled && !s.workers[w].phase.Ready?
    ensures Call(w) !in actions
    decreases |actions|
  {
    if actions != [] {
      CancelledStaysBack(s, actions[0], w);
      CancelledCallsNothing(Apply(s, actions[0]), actions[1..], t, w);
    }
  }

  lemma CancelledStaysBack(s: State, a: Action, w: nat)
    requires Enabled(s, a) && w < |s.workers| && s.workers[w].cancelled && !s.workers[w].phase.Ready?
    ensures a != Call(w)
    ensures var t := Apply(s, a); w < |t.workers| && t.workers[w].cancelled && !t.workers[w].phase.Ready?
  {
    hide SomeWaiting, HeldBy;
    assert a.Cancel? ==> WakeAll(s.workers)[w].cancelled == s.workers[w].cancelled;
  }
}
