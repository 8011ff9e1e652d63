/**
 What the workers do with the operations they take, over whole runs: a worker goes on until its flag is set or the
 queue shuts down, and until then calls and deletes everything it takes.
 */
module WorkerProgress {
  import opened Options
  import opened WorkerQueue

  // ---- What one step may change ----

  /** The worker a step is about. */
  function Actor(s: State, a: Action): Option<nat> {
    match a
    case Push(w) => if SomeWaiting(s.workers) then Some(w) else None
    case Take(w) => Some(w)
    case WakeUp(w) => Some(w)
    case Check(w) => Some(w)
    case Call(w) => Some(w)
    case Delete(w) => Some(w)
    case SetToken(w) => Some(w)
    case _ => None
  }

  /** No step but Cancel touches another worker, and Cancel only wakes the blocked ones. */
  lemma OthersUntouched(s: State, a: Action, v: nat)
    requires Enabled(s, a) && v < |s.workers| && Actor(s, a) != Some(v)
    ensures v < |Apply(s, a).workers|
    ensures Apply(s, a).workers[v] == if a.Cancel? && s.workers[v].phase == Waiting
                                      then Worker(Notified, s.workers[v].cancelled) else s.workers[v]
  {
    hide SomeWaiting, HeldBy;
    if MovesOneWorker(a) {
      MoveShape(s, a);
      hide Apply;
    }
  }

  /** How a step changes the counters and the flags. */
  predicate Counted(s: State, a: Action, t: State) {
    && |t.workers| == |s.workers| + (if a.Start? then 1 else 0)
    && t.pushed == s.pushed + (if a.Push? then 1 else 0)
    && (t.contents.shutdown <==> s.contents.shutdown || a.Cancel?)
    && (a.SetToken? ==> a.w < |s.workers|)
    && forall v: nat | v < |t.workers| ::
         t.workers[v].cancelled <==> (v < |s.workers| && s.workers[v].cancelled) || a == SetToken(v)
  }

  lemma StepSizes(s: State, a: Action)
    requires Enabled(s, a)
    ensures var t := Apply(s, a);
            && |t.workers| == |s.workers| + (if a.Start? then 1 else 0)
            && t.pushed == s.pushed + (if a.Push? then 1 else 0)
            && (t.contents.shutdown <==> s.contents.shutdown || a.Cancel?)
  {
    hide SomeWaiting, HeldBy, WakeAll;
  }

  lemma ActorFlag(s: State, a: Action, v: nat)
    requires Enabled(s, a) && Actor(s, a) == Some(v)
    ensures v < |s.workers| <= |Apply(s, a).workers|
    ensures Apply(s, a).workers[v].cancelled <==> s.workers[v].cancelled || a == SetToken(v)
  {
    hide HeldBy, WakeAll;
    if MovesOneWorker(a) {
      MoveShape(s, a);
      hide Apply;
    }
  }

  lemma StepCounts(s: State, a: Action)
    requires Enabled(s, a)
    ensures Counted(s, a, Apply(s, a))
  {
    StepSizes(s, a);
    var t := Apply(s, a);
    assert a.SetToken? ==> a.w < |s.workers|;
    hide Apply, Enabled, Actor;
    forall v: nat | v < |t.workers|
      ensures t.workers[v].cancelled <==> (v < |s.workers| && s.workers[v].cancelled) || a == SetToken(v)
    {
      FlagOf(s, a, v);
    }
  }

  lemma FlagOf(s: State, a: Action, v: nat)
    requires Enabled(s, a) && v < |Apply(s, a).workers|
    ensures Apply(s, a).workers[v].cancelled <==> (v < |s.workers| && s.workers[v].cancelled) || a == SetToken(v)
  {
    hide SomeWaiting, HeldBy, WakeAll;
    StepSizes(s, a);
    if v < |s.workers| {
      assert a == SetToken(v) ==> Actor(s, a) == Some(v);
      hide Apply;
      if Actor(s, a) == Some(v) {
        ActorFlag(s, a, v);
      } else {
        OthersUntouched(s, a, v);
      }
    }
  }

  function Count(actions: seq<Action>, start: bool): nat {
    if actions == [] then 0
    else (if (if start then actions[0].Start? else actions[0].Push?) then 1 else 0) + Count(actions[1..], start)
  }

  lemma {:induction false} RunCounts(s: State, actions: seq<Action>, t: State)
    requires Runs(s, actions, t)
    ensures |t.workers| == |s.workers| + Count(actions, true) && t.pushed == s.pushed + Count(actions, false)
    ensures t.contents.shutdown <==> s.contents.shutdown || Cancel in actions
    ensures forall v: nat | v < |t.workers| ::
              t.workers[v].cancelled <==> (v < |s.workers| && s.workers[v].cancelled) || SetToken(v) in actions
    decreases |actions|
  {
    hide Apply, Enabled;
    if actions != [] {
      var s1 := Apply(s, actions[0]);
      StepCounts(s, actions[0]);
      RunCounts(s1, actions[1..], t);
      assert forall a :: a in actions <==> a == actions[0] || a in actions[1..];
    }
  }

  /** There are as many workers and operations as were started and pushed; flags are set by those who set them. */
  lemma FlagsExactly(actions: seq<Action>, t: State)
    requires Runs(INITIAL, actions, t)
    ensures |t.workers| == Count(actions, true) && t.pushed == Count(actions, false)
    ensures t.contents.shutdown <==> Cancel in actions
    ensures forall v: nat | v < |t.workers| :: t.workers[v].cancelled <==> SetToken(v) in actions
  {
    RunCounts(INITIAL, actions, t);
  }

  // ---- Who ends, and who abandons ----

  predicate SomeCancelled(ws: seq<Worker>) {
    exists v :: 0 <= v < |ws| && ws[v].cancelled
  }

  predicate EndJustified(s: State, v: nat)
    requires v < |s.workers|
  {
    && (s.workers[v].phase == Exited ==> s.workers[v].cancelled || s.contents.shutdown)
    && (s.workers[v].phase == Returned(None) ==> s.contents.shutdown)
  }

  /** Only a flag or the shutdown ends a worker, a flag abandons operations, and the shutdown discards them. */
  predicate Justified(s: State) {
    && (forall v: nat | v < |s.workers| :: EndJustified(s, v))
    && (s.abandoned != multiset{} ==> SomeCancelled(s.workers))
    && (s.discarded != multiset{} ==> s.contents.shutdown)
  }

  /** Operations are abandoned by a worker whose flag is set, one at a time. */
  lemma AbandonedByCancelled(s: State, a: Action)
    requires Enabled(s, a) && Apply(s, a).abandoned != s.abandoned
    ensures a.Check? && s.workers[a.w].cancelled && s.workers[a.w].phase.found.Some?
    ensures Apply(s, a).abandoned == s.abandoned + multiset{s.workers[a.w].phase.found.value}
    ensures Apply(s, a).workers[a.w].phase == Exited
  {
    hide SomeWaiting, HeldBy, WakeAll;
  }

  lemma FlagsStay(s: State, a: Action)
    requires Enabled(s, a) && SomeCancelled(s.workers)
    ensures SomeCancelled(Apply(s, a).workers)
  {
    hide Apply, Enabled;
    StepCounts(s, a);
    var v :| 0 <= v < |s.workers| && s.workers[v].cancelled;
    assert Apply(s, a).workers[v].cancelled;
  }

  lemma EndStaysJustified(s: State, a: Action, v: nat)
    requires Justified(s) && Enabled(s, a) && v < |Apply(s, a).workers|
    ensures EndJustified(Apply(s, a), v)
  {
    hide SomeWaiting, HeldBy, WakeAll;
    StepCounts(s, a);
    if v < |s.workers| {
      assert EndJustified(s, v);
      if Actor(s, a) != Some(v) {
        OthersUntouched(s, a, v);
      }
    }
  }

  lemma StepStaysJustified(s: State, a: Action)
    requires Justified(s) && Enabled(s, a)
    ensures Justified(Apply(s, a))
  {
    var t := Apply(s, a);
    forall v: nat | v < |t.workers| ensures EndJustified(t, v) {
      EndStaysJustified(s, a, v);
    }
    StepCounts(s, a);
    if t.abandoned != s.abandoned {
      AbandonedByCancelled(s, a);
      assert SomeCancelled(s.workers);
    }
    if SomeCancelled(s.workers) {
      FlagsStay(s, a);
    }
    DiscardedByCancel(s, a);
  }

  /** Operations are discarded by Cancel, which empties the queue. */
  lemma DiscardedByCancel(s: State, a: Action)
    requires Enabled(s, a)
    ensures a.Cancel? ==> Apply(s, a).contents.items == []
                          && Apply(s, a).discarded == s.discarded + multiset(s.contents.items)
    ensures !a.Cancel? ==> Apply(s, a).discarded == s.discarded
  {
    hide SomeWaiting, HeldBy, WakeAll;
  }

  lemma {:induction false} RunStaysJustified(s: State, actions: seq<Action>, t: State)
    requires Justified(s) && Runs(s, actions, t)
    ensures Justified(t)
    decreases |actions|
  {
    hide Justified, Apply, Enabled;
    if actions != [] {
      StepStaysJustified(s, actions[0]);
      RunStaysJustified(Apply(s, actions[0]), actions[1..], t);
    }
  }

  /** In every run: a worker is at its end, or about to be, only if its flag was set or the queue was cancelled. */
  lemma EndsAreJustified(actions: seq<Action>, t: State, v: nat)
    requires Runs(INITIAL, actions, t) && v < |t.workers|
    ensures t.workers[v].phase == Exited ==> SetToken(v) in actions || Cancel in actions
    ensures t.workers[v].phase == Returned(None) ==> Cancel in actions
    ensures t.abandoned != multiset{} ==> exists w: nat :: SetToken(w) in actions
    ensures t.discarded != multiset{} ==> Cancel in actions
  {
    RunStaysJustified(INITIAL, actions, t);
    FlagsExactly(actions, t);
    assert EndJustified(t, v);
  }

  /** A run in which nobody cancels anything. */
  ghost predicate Undisturbed(actions: seq<Action>) {
    Cancel !in actions && forall w: nat :: SetToken(w) !in actions
  }

  /** Then nobody has ended, and nothing was abandoned or discarded. */
  lemma UndisturbedGoesOn(actions: seq<Action>, t: State)
    requires Runs(INITIAL, actions, t) && Undisturbed(actions)
    ensures forall v: nat | v < |t.workers| :: t.workers[v].phase != Exited && t.workers[v].phase != Returned(None)
    ensures t.abandoned == multiset{} && t.discarded == multiset{}
  {
    RunStaysJustified(INITIAL, actions, t);
    FlagsExactly(actions, t);
    forall v: nat | v < |t.workers|
      ensures t.workers[v].phase != Exited && t.workers[v].phase != Returned(None)
    {
      assert EndJustified(t, v);
    }
    assert forall v: nat | v < |t.workers| :: !t.workers[v].cancelled;
  }

  // ---- Everything is served ----

  lemma {:induction false} NobodyHolds(ws: seq<Worker>, m: Mark)
    requires forall v :: 0 <= v < |ws| ==> ws[v].phase == Waiting
    ensures Tally(ws, m) == 0
  {
    if ws != [] {
      NobodyHolds(ws[1..], m);
    }
  }

  /** When all workers of an undisturbed run are blocked, every operation was called once and deleted once. */
  lemma AllServed(actions: seq<Action>, t: State, op: nat)
    requires Runs(INITIAL, actions, t) && Undisturbed(actions) && op < t.pushed
    requires t.workers != [] && forall v :: 0 <= v < |t.workers| ==> t.workers[v].phase == Waiting
    ensures t.contents.items == [] && t.runs[op] == 1 && t.finished[op] == 1
  {
    hide Tally;
    EveryRunIsSafe(actions, t);
    UndisturbedGoesOn(actions, t);
    NobodyHolds(t.workers, Woken);
    NobodyHolds(t.workers, Holding(op));
    NobodyHolds(t.workers, Executed(op));
    assert t.workers[0].phase == Waiting;
    ExactlyOnePlace(t, op);
    assert AccountedFor(t, op);
  }

  /** A worker that is not blocked, or has been woken, takes the front of the queue unless it has shut down. */
  lemma TakesFront(s: State, w: nat)
    requires (At(s, w, Idle) || At(s, w, Notified)) && s.contents.items != [] && !s.contents.shutdown
    ensures Enabled(s, Take(w))
    ensures var t := Apply(s, Take(w));
            && At(t, w, Returned(Some(s.contents.items[0])))
            && s.contents.items == [s.contents.items[0]] + t.contents.items
  {
  }

  /** A worker that has not ended can take a step of its own, or is blocked and can be woken. */
  lemma NeverStuck(s: State, w: nat) returns (a: Action)
    requires w < |s.workers| && s.workers[w].phase != Exited
    ensures OwnStep(a, w) && Enabled(s, a)
    ensures a.WakeUp? ==> s.workers[w].phase == Waiting && At(Apply(s, a), w, Notified)
  {
    match s.workers[w].phase {
      case Returned(_) => a := Check(w);
      case Ready(_) => a := Call(w);
      case Called(_) => a := Delete(w);
      case Waiting => a := WakeUp(w);
      case _ => a := Take(w);
    }
  }

  // ---- What a worker takes it calls and deletes ----

  /** A worker k steps after taking an operation. */
  predicate Serving(s: State, w: nat, op: int, k: nat) {
    w < |s.workers| &&
    match k
    case 0 => s.workers[w].phase == Returned(Some(op))
    case 1 => s.workers[w].phase == Ready(op)
    case 2 => s.workers[w].phase == Called(op)
    case _ => k == 3 && s.workers[w].phase == Idle && s.finished[op] > 0
  }

  /** Its own next step brings it on, those of others do not matter. */
  lemma ServingStep(s: State, a: Action, w: nat, op: int, k: nat)
    requires Enabled(s, a) && Serving(s, w, op, k) && !s.workers[w].cancelled && (k == 3 ==> !OwnStep(a, w))
    ensures Serving(Apply(s, a), w, op, if OwnStep(a, w) then k + 1 else k)
  {
    hide HeldBy, WakeAll, SomeWaiting;
    if Actor(s, a) != Some(w) {
      OthersUntouched(s, a, w);
      FinishedGrows(s, a, op);
      hide Apply;
    }
  }

  lemma FinishedGrows(s: State, a: Action, op: int)
    requires Enabled(s, a)
    ensures s.finished[op] <= Apply(s, a).finished[op]
  {
    hide SomeWaiting, HeldBy, WakeAll;
  }

  lemma {:induction false} ServingRun(s: State, actions: seq<Action>, t: State, w: nat, op: int, k: nat)
    requires Runs(s, actions, t) && Serving(s, w, op, k) && !s.workers[w].cancelled && SetToken(w) !in actions
    requires k + OwnSteps(actions, w) <= 3
    ensures Serving(t, w, op, k + OwnSteps(actions, w))
    decreases |actions|
  {
    hide Apply, Enabled, Serving;
    if actions != [] {
      var a := actions[0];
      assert w < |s.workers| by { WorkerThere(s, w, op, k); }
      ServingStep(s, a, w, op, k);
      StepCounts(s, a);
      WorkerThere(Apply(s, a), w, op, if OwnStep(a, w) then k + 1 else k);
      ServingRun(Apply(s, a), actions[1..], t, w, op, if OwnStep(a, w) then k + 1 else k);
    }
  }

  lemma WorkerThere(s: State, w: nat, op: int, k: nat)
    requires Serving(s, w, op, k)
    ensures w < |s.workers|
  {
  }

  /**
   Three steps of its own after taking an operation, whatever the others do meanwhile, a worker whose flag is not set
   has called it once, has deleted it, and waits for the next one.
   */
  lemma ServedInThree(s: State, actions: seq<Action>, t: State, w: nat, op: int)
    requires Invariant(s) && Runs(s, actions, t) && At(s, w, Returned(Some(op))) && !s.workers[w].cancelled
    requires SetToken(w) !in actions && OwnSteps(actions, w) == 3
    ensures At(t, w, Idle) && t.runs[op] == 1 && t.finished[op] == 1
  {
    hide Tally;
    RunKeepsInvariant(s, actions, t);
    ServingRun(s, actions, t, w, op, 0);
    ExactlyOnePlace(t, op);
    assert AccountedFor(t, op);
  }

  /** And it can take these steps at once. */
  lemma ServesAtOnce(s: State, w: nat, op: int) returns (t: State)
    requires At(s, w, Returned(Some(op))) && !s.workers[w].cancelled
    ensures Runs(s, [Check(w), Call(w), Delete(w)], t) && At(t, w, Idle)
    ensures t.runs == s.runs + multiset{op} && t.finished == s.finished + multiset{op}
  {
    var s1 := Apply(s, Check(w));
    var s2 := Apply(s1, Call(w));
    t := Apply(s2, Delete(w));
    var actions := [Check(w), Call(w), Delete(w)];
    assert actions[1..] == [Call(w), Delete(w)] && actions[1..][1..] == [Delete(w)];
    assert actions[1..][1..][1..] == [];
    assert Runs(t, [], t) && Runs(s2, [Delete(w)], t);
    assert Runs(s1, [Call(w), Delete(w)], t);
  }

  // ---- What Cancel discards ----

  lemma {:induction false} DiscardedStays(s: State, actions: seq<Action>, t: State, op: int)
    requires Runs(s, actions, t)
    ensures s.discarded[op] <= t.discarded[op]
    decreases |actions|
  {
    hide Apply, Enabled;
    if actions != [] {
      DiscardedByCancel(s, actions[0]);
      DiscardedStays(Apply(s, actions[0]), actions[1..], t, op);
    }
  }

  /** What is queued at a cancelation is deleted by it once, and never called, whatever follows. */
  lemma DiscardedForGood(s: State, actions: seq<Action>, t: State, op: int)
    requires Invariant(s) && op in s.contents.items && Runs(Apply(s, Cancel), actions, t)
    ensures t.discarded[op] == 1 && t.runs[op] == 0 && t.finished[op] == 0
  {
    hide Tally, Apply;
    StepKeepsInvariant(s, Cancel);
    RunKeepsInvariant(Apply(s, Cancel), actions, t);
    DiscardedByCancel(s, Cancel);
    assert op in multiset(s.contents.items);
    DiscardedStays(Apply(s, Cancel), actions, t, op);
    ExactlyOnePlace(t, op);
    ExecutedAreHeld(t.workers, op);
    assert AccountedFor(t, op);
  }
}
