/**
 Chained query callbacks and the processor that polls them. Futures are known by number and become ready at any
 time; what a callback does to the chain it is given, a next query and further callbacks, is arbitrary.
 */
module QueryChain {
  import opened Options

  /** A callback and the kind of result it takes. */
  datatype Callback = Callback(id: int, isPrepared: bool)

  /** One call: this callback received the result of this future. */
  datatype Invocation = Invocation(callback: Callback, future: int)

  /** What a callback does to the chain while it runs. */
  datatype Effect = Effect(next: Option<int>, added: seq<Callback>)

  datatype Chain = Chain(isPrepared: bool, future: Option<int>, callbacks: seq<Callback>, log: seq<Invocation>)

  predicate Ready(c: Chain, ready: set<int>) {
    c.future.Some? && c.future.value in ready
  }

  /** What the assertions ask of callers: results of the right kind, and no query that nobody waits for. */
  predicate WellKinded(c: Chain, e: Effect)
    requires c.callbacks != []
  {
    var rest := c.callbacks[1..] + e.added;
    e.next.Some? ==> rest != [] && rest[0].isPrepared == c.isPrepared
  }

  function AfterCall(c: Chain, e: Effect): Chain
    requires c.future.Some? && c.callbacks != []
  {
    c.(future := e.next,
       callbacks := c.callbacks[1..] + e.added,
       log := c.log + [Invocation(c.callbacks[0], c.future.value)])
  }

  class QueryCallback {
    const isPrepared: bool
    var future: Option<int>
    var callbacks: seq<Callback>
    ghost var log: seq<Invocation>

    ghost function Now(): Chain
      reads this
    {
      Chain(isPrepared, future, callbacks, log)
    }

    constructor (isPrepared: bool, future: int)
      ensures Now() == Chain(isPrepared, Some(future), [], [])
    {
      this.isPrepared, this.future, callbacks, log := isPrepared, Some(future), [], [];
    }

    method WithChainingCallback(id: int)
      requires callbacks != [] || !isPrepared
      modifies this
      ensures Now() == old(Now()).(callbacks := old(callbacks) + [Callback(id, false)])
    {
      callbacks := callbacks + [Callback(id, false)];
    }

    method WithChainingPreparedCallback(id: int)
      requires callbacks != [] || isPrepared
      modifies this
      ensures Now() == old(Now()).(callbacks := old(callbacks) + [Callback(id, true)])
    {
      callbacks := callbacks + [Callback(id, true)];
    }

    method SetNextQuery(nextIsPrepared: bool, next: int)
      requires nextIsPrepared == isPrepared
      modifies this
      ensures Now() == old(Now()).(future := Some(next))
    {
      future := Some(next);
    }

    /** The callback in front runs; it is still in the queue while it does. */
    method Call(callback: Callback, result: int, e: Effect)
      requires callbacks != [] && future == None
      modifies this
      ensures Now() == old(Now()).(
                future := e.next,
                callbacks := old(callbacks) + e.added,
                log := old(log) + [Invocation(callback, result)])
    {
      log := log + [Invocation(callback, result)];
      if e.next.Some? {
        SetNextQuery(isPrepared, e.next.value);
      }
      for i := 0 to |e.added|
        invariant callbacks == old(callbacks) + e.added[..i] && future == e.next
        invariant log == old(log) + [Invocation(callback, result)]
      {
        assert e.added[..i + 1] == e.added[..i] + [e.added[i]];
        if e.added[i].isPrepared {
          WithChainingPreparedCallback(e.added[i].id);
        } else {
          WithChainingCallback(e.added[i].id);
        }
      }
      assert e.added[..|e.added|] == e.added;
    }

    /** The check behind the call: pops the callback and reports whether the chain is complete. */
    method CheckStateAndReturnCompletion() returns (completed: bool)
      requires callbacks != []
      requires future.Some? ==> |callbacks| > 1 && callbacks[1].isPrepared == isPrepared
      modifies this
      ensures Now() == old(Now()).(callbacks := old(callbacks)[1..])
      ensures completed <==> future == None
    {
      callbacks := callbacks[1..];
      var hasNext := future.Some?;
      if callbacks == [] {
        assert !hasNext;
        return true;
      }
      if !hasNext {
        return true;
      }
      assert isPrepared == callbacks[0].isPrepared;
      return false;
    }

    /** Polls the current query; a ready result goes to the first callback, whose effect is e. */
    method InvokeIfReady(ready: set<int>, e: Effect) returns (completed: bool)
      requires callbacks != [] && callbacks[0].isPrepared == isPrepared
      requires Ready(Now(), ready) ==> WellKinded(Now(), e)
      modifies this
      ensures Now() == if Ready(old(Now()), ready) then AfterCall(old(Now()), e) else old(Now())
      ensures completed <==> Ready(old(Now()), ready) && e.next == None
      ensures old(future).Some? && old(future).value in ready ==>
                log == old(log) + [Invocation(old(callbacks)[0], old(future).value)] && future == e.next
      ensures old(future).Some? && old(future).value !in ready ==> !completed && Now() == old(Now())
    {
      if future.Some? && future.value in ready {
        var result, callback := future.value, callbacks[0];
        future := None;
        Call(callback, result, e);
        assert callbacks[1..] == old(callbacks)[1..] + e.added;
        completed := CheckStateAndReturnCompletion();
      } else {
        completed := false;
      }
    }
  }

  // ---- Runs of completions and polls ----

  datatype Event = Complete(future: int) | Poll(e: Effect)

  /** A chain in its surroundings; inserted and queries record every callback and every query it was ever given. */
  datatype World = World(
    chain: Chain, completed: bool, ready: set<int>, inserted: seq<Callback>, queries: seq<int>)

  function Fresh(isPrepared: bool, future: int, callbacks: seq<Callback>): World {
    World(Chain(isPrepared, Some(future), callbacks, []), false, {}, callbacks, [future])
  }

  /** A completed chain is not polled again, and callers heed what the assertions demand of a callback's effect. */
  predicate Allowed(w: World, event: Event) {
    event.Poll? ==> !w.completed && w.chain.callbacks != [] && WellKinded(w.chain, event.e)
  }

  function After(w: World, event: Event): World
    requires Allowed(w, event)
  {
    match event
    case Complete(f) => w.(ready := w.ready + {f})
    case Poll(e) =>
      if !Ready(w.chain, w.ready) then w
      else w.(chain := AfterCall(w.chain, e),
              completed := e.next == None,
              inserted := w.inserted + e.added,
              queries := w.queries + (if e.next.Some? then [e.next.value] else []))
  }

  function Called(log: seq<Invocation>): (r: seq<Callback>)
    ensures |r| == |log|
  {
    seq(|log|, i requires 0 <= i < |log| => log[i].callback)
  }

  function Consumed(log: seq<Invocation>): (r: seq<int>)
    ensures |r| == |log|
  {
    seq(|log|, i requires 0 <= i < |log| => log[i].future)
  }

  function Current(c: Chain): seq<int> {
    if c.future.Some? then [c.future.value] else []
  }

  /**
   Callbacks run in the order of their insertion and queries are consumed in the order they were set, each once;
   only ready results are delivered; completion is reported exactly when no query is left to wait for, which it is
   whenever the callbacks have run out.
   */
  ghost predicate InOrder(w: World) {
    && w.inserted == Called(w.chain.log) + w.chain.callbacks
    && w.queries == Consumed(w.chain.log) + Current(w.chain)
    && (forall i :: 0 <= i < |w.chain.log| ==> w.chain.log[i].future in w.ready)
    && (w.completed <==> w.chain.future == None)
    && (!w.completed ==> w.chain.callbacks != [] && w.chain.callbacks[0].isPrepared == w.chain.isPrepared)
  }

  /** A poll delivers the result waited for, of either kind, to the first callback exactly when it is ready. */
  lemma ReadyDelivered(w: World, e: Effect)
    requires InOrder(w) && Allowed(w, Poll(e))
    ensures w.chain.future.Some?
    ensures var f, v := w.chain.future.value, After(w, Poll(e));
            v.chain.log == if f in w.ready then w.chain.log + [Invocation(w.chain.callbacks[0], f)] else w.chain.log
  {
  }

  /** A chain that is not complete can always be polled, at least by callbacks that ask for nothing more. */
  lemma CanBePolled(w: World)
    requires InOrder(w) && !w.completed
    ensures Allowed(w, Poll(Effect(None, [])))
  {
  }

  lemma StepStaysInOrder(w: World, event: Event)
    requires InOrder(w) && Allowed(w, event)
    ensures InOrder(After(w, event))
  {
    var v := After(w, event);
    if event.Poll? && Ready(w.chain, w.ready) {
      var c := w.chain;
      assert v.chain.log == c.log + [Invocation(c.callbacks[0], c.future.value)];
      assert Called(v.chain.log) == Called(c.log) + [c.callbacks[0]];
      assert Consumed(v.chain.log) == Consumed(c.log) + [c.future.value];
      assert c.callbacks == [c.callbacks[0]] + c.callbacks[1..];
      assert v.inserted == Called(v.chain.log) + v.chain.callbacks;
      assert v.queries == Consumed(v.chain.log) + Current(v.chain);
    }
  }

  ghost predicate Runs(w: World, events: seq<Event>, v: World)
    decreases |events|
  {
    if events == [] then v == w
    else Allowed(w, events[0]) && Runs(After(w, events[0]), events[1..], v)
  }

  lemma {:induction false} RunStaysInOrder(w: World, events: seq<Event>, v: World)
    requires InOrder(w) && Runs(w, events, v)
    ensures InOrder(v)
    decreases |events|
  {
    if events != [] {
      StepStaysInOrder(w, events[0]);
      RunStaysInOrder(After(w, events[0]), events[1..], v);
    }
  }

  lemma FreshInOrder(isPrepared: bool, future: int, callbacks: seq<Callback>)
    requires callbacks != [] && callbacks[0].isPrepared == isPrepared
    ensures InOrder(Fresh(isPrepared, future, callbacks))
  {
    var w := Fresh(isPrepared, future, callbacks);
    assert w.inserted == Called([]) + w.chain.callbacks;
    assert w.queries == Consumed([]) + Current(w.chain);
  }

  /** Every run of a nonempty chain whose first callback has its kind; a live chain can always be polled. */
  lemma ChainsRunInOrder(isPrepared: bool, future: int, callbacks: seq<Callback>, events: seq<Event>, w: World)
    requires callbacks != [] && callbacks[0].isPrepared == isPrepared
    requires Runs(Fresh(isPrepared, future, callbacks), events, w)
    ensures Called(w.chain.log) + w.chain.callbacks == w.inserted
    ensures Consumed(w.chain.log) + Current(w.chain) == w.queries
    ensures forall i :: 0 <= i < |w.chain.log| ==> w.chain.log[i].future in w.ready
    ensures w.completed <==> w.chain.future == None
    ensures w.chain.callbacks == [] ==> w.completed
    ensures !w.completed ==> w.chain.callbacks[0].isPrepared == w.chain.isPrepared
  {
    FreshInOrder(isPrepared, future, callbacks);
    RunStaysInOrder(Fresh(isPrepared, future, callbacks), events, w);
  }

  predicate SameKind(callbacks: seq<Callback>, isPrepared: bool) {
    forall i :: 0 <= i < |callbacks| ==> callbacks[i].isPrepared == isPrepared
  }

  /** The assertions hold when all callbacks have the kind of the chain and the last one sets no next query. */
  lemma OneKindIsSafe(c: Chain, e: Effect)
    requires c.callbacks != [] && SameKind(c.callbacks, c.isPrepared) && SameKind(e.added, c.isPrepared)
    ensures WellKinded(c, e) <==> (e.next.Some? ==> |c.callbacks| > 1 || e.added != [])
  {
    var rest := c.callbacks[1..] + e.added;
    assert rest != [] ==> rest[0] in c.callbacks || rest[0] in e.added;
  }

  // ---- The processor ----

  /** What polling one entry led to: whether it finished, and the entries that were added meanwhile. */
  datatype Answer<T> = Answer(finished: bool, added: seq<T>)

  function Added<T>(answers: seq<Answer<T>>): seq<T> {
    if answers == [] then [] else Added(answers[..|answers| - 1]) + answers[|answers| - 1].added
  }

  /** The entries whose answer is (or is not) finished, in their order. */
  function Kept<T>(entries: seq<T>, answers: seq<Answer<T>>, finished: bool): seq<T>
    requires |entries| == |answers|
  {
    if entries == [] then [] else
    var last := |entries| - 1;
    Kept(entries[..last], answers[..last], finished)
    + if answers[last].finished == finished then [entries[last]] else []
  }

  class AsyncCallbackProcessor<T(0)> {
    var callbacks: seq<T>
    ghost var polled: seq<T>

    constructor ()
      ensures callbacks == [] && polled == []
    {
      callbacks, polled := [], [];
    }

    method AddCallback(query: T)
      modifies this
      ensures callbacks == old(callbacks) + [query] && polled == old(polled)
    {
      callbacks := callbacks + [query];
    }

    /** Polls one entry, which may add others to the processor. */
    method Poll(entry: T, answer: Answer<T>) returns (finished: bool)
      modifies this
      ensures callbacks == old(callbacks) + answer.added && polled == old(polled) + [entry]
      ensures finished == answer.finished
    {
      polled := polled + [entry];
      for i := 0 to |answer.added|
        invariant callbacks == old(callbacks) + answer.added[..i] && polled == old(polled) + [entry]
      {
        assert answer.added[..i + 1] == answer.added[..i] + [answer.added[i]];
        AddCallback(answer.added[i]);
      }
      assert answer.added[..|answer.added|] == answer.added;
      finished := answer.finished;
    }

    /** Polls every entry once and moves the unfinished ones to the front, as remove_if does. */
    method RemoveFinished(update: array<T>, answers: seq<Answer<T>>) returns (kept: nat)
      requires |answers| == update.Length && callbacks == []
      modifies this, update
      ensures kept <= update.Length && update[..kept] == Kept(old(update[..]), answers, false)
      ensures polled == old(polled) + old(update[..])
      ensures callbacks == Added(answers)
    {
      hide Kept, Added;
      ghost var entries := update[..];
      kept := 0;
      NoSteps(entries, answers);
      for i := 0 to update.Length
        invariant kept <= i
        invariant update[..kept] == Kept(entries[..i], answers[..i], false)
        invariant forall k :: i <= k < update.Length ==> update[k] == entries[k]
        invariant polled == old(polled) + entries[..i]
        invariant callbacks == Added(answers[..i])
      {
        OneStep(entries, answers, i);
        var finished := Poll(update[i], answers[i]);
        if !finished {
          update[kept] := update[i];
          kept := kept + 1;
        }
      }
      assert entries[..|entries|] == entries && answers[..|answers|] == answers;
    }

    /** Takes the list away, polls each entry once, and puts the unfinished ones behind those added meanwhile. */
    method ProcessReadyCallbacks(answers: seq<Answer<T>>)
      requires |answers| == |callbacks|
      modifies this
      ensures polled == old(polled) + old(callbacks)
      ensures callbacks == Added(answers) + Kept(old(callbacks), answers, false)
    {
      if callbacks == [] {
        return;
      }
      var entries := callbacks;
      var update := new T[|entries|](i requires 0 <= i < |entries| => entries[i]);
      assert update[..] == entries;
      callbacks := [];
      var kept := RemoveFinished(update, answers);
      callbacks := callbacks + update[..kept];
    }
  }

  lemma NoSteps<T>(entries: seq<T>, answers: seq<Answer<T>>)
    requires |entries| == |answers|
    ensures Kept(entries[..0], answers[..0], false) == [] && Added(answers[..0]) == []
  {
  }

  lemma OneStep<T>(entries: seq<T>, answers: seq<Answer<T>>, i: nat)
    requires |entries| == |answers| && i < |entries|
    ensures entries[..i + 1] == entries[..i] + [entries[i]]
    ensures Kept(entries[..i + 1], answers[..i + 1], false)
         == Kept(entries[..i], answers[..i], false) + if answers[i].finished then [] else [entries[i]]
    ensures Added(answers[..i + 1]) == Added(answers[..i]) + answers[i].added
  {
    assert entries[..i + 1][..i] == entries[..i] && answers[..i + 1][..i] == answers[..i];
  }

  /** Nothing gets lost or doubled: old and added entries are the finished and the remaining ones. */
  lemma {:induction false} NothingLost<T>(entries: seq<T>, answers: seq<Answer<T>>)
    requires |entries| == |answers|
    ensures multiset(entries) == multiset(Kept(entries, answers, true)) + multiset(Kept(entries, answers, false))
  {
    if entries != [] {
      var last := |entries| - 1;
      NothingLost(entries[..last], answers[..last]);
      assert entries == entries[..last] + [entries[last]];
      OneMore(entries[..last], entries[last]);
      OneMore(Kept(entries[..last], answers[..last], answers[last].finished), entries[last]);
      OneKept(entries, answers);
    }
  }

  lemma OneMore<T>(s: seq<T>, x: T)
    ensures multiset(s + [x]) == multiset(s) + multiset{x}
  {
  }

  /** The last entry is kept on one side only. */
  lemma OneKept<T>(entries: seq<T>, answers: seq<Answer<T>>)
    requires |entries| == |answers| > 0
    ensures var last := |entries| - 1;
            var f := answers[last].finished;
            && Kept(entries, answers, f) == Kept(entries[..last], answers[..last], f) + [entries[last]]
            && Kept(entries, answers, !f) == Kept(entries[..last], answers[..last], !f)
  {
  }
}
