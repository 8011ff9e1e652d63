/**
 Transactions over one MySQL connection: their element list and its clean-up, the execution with rollback, and the
 three ways to commit with retries after a deadlock. The database is the list of the statements that took effect; what
 comes of each statement is arbitrary, losing the connection included. START TRANSACTION, COMMIT and ROLLBACK succeed.
 */
module Transactions {
  import opened Options

  const ER_LOCK_DEADLOCK: int := 1213
  const DEADLOCK_MAX_RETRY_TIME_MS: int := 60000

  /** A query of a transaction: SQL text, or a prepared statement known by its address. */
  datatype Element = Raw(sql: string) | Prepared(stmt: int)

  // ---- The element list ----

  function StatementOf(e: Element): (r: seq<int>) {
    if e.Prepared? then [e.stmt] else []
  }

  function PreparedOf(queries: seq<Element>): (r: seq<int>) {
    if queries == [] then [] else StatementOf(queries[0]) + PreparedOf(queries[1..])
  }

  lemma {:induction false} PreparedOfAppend(q: seq<Element>, e: Element)
    ensures PreparedOf(q + [e]) == PreparedOf(q) + StatementOf(e)
  {
    hide StatementOf;
    if q == [] {
      assert ([] + [e])[1..] == [];
    } else {
      PreparedOfAppend(q[1..], e);
      assert (q + [e])[1..] == q[1..] + [e];
    }
  }

  /** The state of a transaction, with every prepared statement it was given and every one it deleted. */
  datatype Trans = Trans(queries: seq<Element>, cleanedUp: bool, appended: seq<int>, freed: seq<int>)

  const EMPTY: Trans := Trans([], false, [], [])

  function AfterAppend(t: Trans, e: Element): Trans {
    t.(queries := t.queries + [e], appended := t.appended + StatementOf(e))
  }

  function AfterCleanup(t: Trans): Trans {
    if t.cleanedUp then t else t.(queries := [], cleanedUp := true, freed := t.freed + PreparedOf(t.queries))
  }

  class Transaction {
    var queries: seq<Element>
    var cleanedUp: bool
    ghost var appended: seq<int>
    ghost var freed: seq<int>

    ghost function Now(): Trans
      reads this
    {
      Trans(queries, cleanedUp, appended, freed)
    }

    constructor ()
      ensures Now() == EMPTY
    {
      queries, cleanedUp, appended, freed := [], false, [], [];
    }

    method Append(sql: string)
      modifies this
      ensures Now() == AfterAppend(old(Now()), Raw(sql))
    {
      queries := queries + [Raw(sql)];
    }

    method AppendPreparedStatement(stmt: int)
      modifies this
      ensures Now() == AfterAppend(old(Now()), Prepared(stmt))
    {
      queries := queries + [Prepared(stmt)];
      appended := appended + [stmt];
    }

    method Cleanup()
      modifies this
      ensures Now() == AfterCleanup(old(Now()))
    {
      if cleanedUp {
        return;
      }
      var i := 0;
      while i < |queries|
        invariant i <= |queries| == |old(queries)| && !cleanedUp && appended == old(appended)
        invariant forall k :: i <= k < |queries| ==> queries[k] == old(queries)[k]
        invariant freed == old(freed) + PreparedOf(old(queries)[..i])
      {
        assert old(queries)[..i + 1] == old(queries)[..i] + [old(queries)[i]];
        PreparedOfAppend(old(queries)[..i], old(queries)[i]);
        match queries[i] {
          case Prepared(stmt) => freed := freed + [stmt];
          case Raw(_) => queries := queries[i := Raw("")];
        }
        i := i + 1;
      }
      assert old(queries)[..i] == old(queries);
      queries := [];
      cleanedUp := true;
    }

    /** The destructor. */
    method Destroy()
      modifies this
      ensures Now() == AfterCleanup(old(Now()))
    {
      Cleanup();
    }
  }

  // ---- The life of a transaction ----

  datatype Use = Append(e: Element) | Cleanup

  function AfterUse(t: Trans, u: Use): Trans {
    match u
    case Append(e) => AfterAppend(t, e)
    case Cleanup => AfterCleanup(t)
  }

  function AfterUses(t: Trans, uses: seq<Use>): Trans
    decreases |uses|
  {
    if uses == [] then t else AfterUses(AfterUse(t, uses[0]), uses[1..])
  }

  /** The state after the uses and the destructor. */
  function Destroyed(uses: seq<Use>): Trans {
    AfterCleanup(AfterUses(EMPTY, uses))
  }

  /** The elements appended, text included. */
  function Elements(uses: seq<Use>): seq<Element> {
    if uses == [] then [] else (if uses[0].Append? then [uses[0].e] else []) + Elements(uses[1..])
  }

  /** What a transaction should hold: all of them, or after a clean-up those appended after the first one. */
  function Listed(uses: seq<Use>): seq<Element> {
    if Cleanup !in uses then Elements(uses) else SinceCleanup(uses)
  }

  function SinceCleanup(uses: seq<Use>): seq<Element> {
    if uses == [] then [] else if uses[0].Cleanup? then Elements(uses[1..]) else SinceCleanup(uses[1..])
  }

  lemma {:induction false} ListedAfterCleanup(t: Trans, uses: seq<Use>)
    requires t.cleanedUp
    ensures AfterUses(t, uses).queries == t.queries + Elements(uses)
    decreases |uses|
  {
    hide StatementOf, PreparedOf;
    if uses != [] {
      ListedAfterCleanup(AfterUse(t, uses[0]), uses[1..]);
    }
  }

  lemma {:induction false} ListedBeforeCleanup(t: Trans, uses: seq<Use>)
    requires !t.cleanedUp
    ensures AfterUses(t, uses).queries == if Cleanup in uses then SinceCleanup(uses) else t.queries + Elements(uses)
    decreases |uses|
  {
    hide StatementOf, PreparedOf;
    if uses != [] {
      assert Cleanup in uses <==> uses[0] == Cleanup || Cleanup in uses[1..];
      if uses[0].Append? {
        ListedBeforeCleanup(AfterUse(t, uses[0]), uses[1..]);
      } else {
        ListedAfterCleanup(AfterUse(t, uses[0]), uses[1..]);
      }
    }
  }

  /** The transaction holds exactly these, in the order of their appending. */
  lemma QueriesAreListed(uses: seq<Use>)
    ensures AfterUses(EMPTY, uses).queries == Listed(uses)
    ensures AfterUses(EMPTY, uses + [Cleanup]).queries == if Cleanup in uses then Listed(uses) else []
  {
    ListedBeforeCleanup(EMPTY, uses);
    ListedBeforeCleanup(EMPTY, uses + [Cleanup]);
    CleanupLast(uses);
    assert Cleanup in uses + [Cleanup];
  }

  lemma {:induction false} CleanupLast(uses: seq<Use>)
    ensures Elements(uses + [Cleanup]) == Elements(uses)
    ensures SinceCleanup(uses + [Cleanup]) == if Cleanup in uses then SinceCleanup(uses) else []
  {
    if uses == [] {
      assert ([] + [Cleanup])[1..] == [];
    } else {
      assert (uses + [Cleanup])[1..] == uses[1..] + [Cleanup];
      assert Cleanup in uses <==> uses[0] == Cleanup || Cleanup in uses[1..];
      CleanupLast(uses[1..]);
    }
  }

  /** The prepared statements appended. */
  function Given(uses: seq<Use>): seq<int> {
    if uses == [] then []
    else (if uses[0].Append? then StatementOf(uses[0].e) else []) + Given(uses[1..])
  }

  /** Those appended before the first clean-up. */
  function Early(uses: seq<Use>): seq<int> {
    if uses == [] || uses[0].Cleanup? then [] else StatementOf(uses[0].e) + Early(uses[1..])
  }

  /** Those appended after it. */
  function Late(uses: seq<Use>): seq<int> {
    if uses == [] then [] else if uses[0].Cleanup? then Given(uses[1..]) else Late(uses[1..])
  }

  lemma {:induction false} EarlyThenLate(uses: seq<Use>)
    ensures Given(uses) == Early(uses) + Late(uses)
  {
    if uses != [] && uses[0].Append? {
      EarlyThenLate(uses[1..]);
    }
  }

  lemma {:induction false} AfterFirstCleanup(t: Trans, uses: seq<Use>)
    requires t.cleanedUp
    ensures var r := AfterUses(t, uses);
            && r.cleanedUp && r.freed == t.freed && r.appended == t.appended + Given(uses)
            && PreparedOf(r.queries) == PreparedOf(t.queries) + Given(uses)
    decreases |uses|
  {
    hide StatementOf;
    if uses != [] {
      AfterFirstCleanup(AfterUse(t, uses[0]), uses[1..]);
      if uses[0].Append? {
        PreparedOfAppend(t.queries, uses[0].e);
      }
    }
  }

  lemma {:induction false} BeforeFirstCleanup(t: Trans, uses: seq<Use>)
    requires !t.cleanedUp
    ensures var r := AfterUses(t, uses);
            && AfterCleanup(r).freed == t.freed + PreparedOf(t.queries) + Early(uses)
            && r.appended == t.appended + Given(uses)
            && (r.freed == t.freed || PreparedOf(r.queries) == Late(uses))
            && (!r.cleanedUp ==> r.freed == t.freed)
    decreases |uses|
  {
    hide StatementOf;
    if uses != [] {
      var t1 := AfterUse(t, uses[0]);
      if uses[0].Append? {
        PreparedOfAppend(t.queries, uses[0].e);
        BeforeFirstCleanup(t1, uses[1..]);
      } else {
        AfterFirstCleanup(t1, uses[1..]);
      }
    }
  }

  /**
   After the destructor the deleted statements are those appended before the first clean-up, in order; the flag that
   stops a second clean-up leaks all others.
   */
  lemma FreedAreEarly(uses: seq<Use>)
    ensures Destroyed(uses).freed == Early(uses)
    ensures Destroyed(uses).appended == Early(uses) + Late(uses)
  {
    BeforeFirstCleanup(EMPTY, uses);
    EarlyThenLate(uses);
  }

  predicate Distinct(s: seq<int>) {
    forall i, j :: 0 <= i < j < |s| ==> s[i] != s[j]
  }

  /** Every statement that was appended is deleted once. */
  ghost predicate EachFreedOnce(t: Trans) {
    forall stmt :: stmt in t.appended ==> multiset(t.freed)[stmt] == 1
  }

  lemma {:induction false} DistinctOnce(s: seq<int>)
    ensures Distinct(s) <==> forall x :: x in s ==> multiset(s)[x] == 1
  {
    if s != [] {
      var last, rest := s[|s| - 1], s[..|s| - 1];
      assert s == rest + [last];
      assert multiset(s) == multiset(rest) + multiset{last};
      DistinctOnce(rest);
      if Distinct(s) {
        forall x | x in s ensures multiset(s)[x] == 1 {
          assert x == last ==> x !in rest;
        }
      } else if Distinct(rest) {
        assert last in rest;
        assert multiset(s)[last] > 1;
      } else {
        var x :| x in rest && multiset(rest)[x] != 1;
        assert x in multiset(rest);
        assert multiset(s)[x] > 1;
      }
    }
  }

  /**
   Each is deleted once exactly when those appended before the first clean-up are distinct, and every later one is
   among them.
   */
  lemma FreedExactlyOnce(uses: seq<Use>)
    ensures EachFreedOnce(Destroyed(uses)) <==>
            Distinct(Early(uses)) && forall stmt :: stmt in Late(uses) ==> stmt in Early(uses)
  {
    FreedAreEarly(uses);
    var t, early, late := Destroyed(uses), Early(uses), Late(uses);
    DistinctOnce(early);
    assert forall x :: x in t.appended <==> x in early || x in late;
    if EachFreedOnce(t) {
      forall x | x in early ensures multiset(early)[x] == 1 {
        assert x in t.appended;
      }
      forall x | x in late ensures x in early {
        assert x in t.appended && multiset(early)[x] == 1;
      }
    }
  }

  /** For new statements each time: exactly when none is appended after a clean-up. */
  lemma NewFreedExactlyOnce(uses: seq<Use>)
    requires Distinct(Given(uses))
    ensures EachFreedOnce(Destroyed(uses)) <==> Late(uses) == []
  {
    FreedExactlyOnce(uses);
    EarlyThenLate(uses);
    DistinctParts(Early(uses), Late(uses));
    if Late(uses) != [] {
      var stmt := Late(uses)[0];
      assert stmt in Late(uses) && stmt !in Early(uses);
    }
  }

  lemma DistinctParts(s: seq<int>, t: seq<int>)
    requires Distinct(s + t)
    ensures Distinct(s) && forall x :: x in s ==> x !in t
  {
    forall i, j | 0 <= i < j < |s| ensures s[i] != s[j] {
      assert (s + t)[i] == s[i] && (s + t)[j] == s[j];
    }
    forall i, j | 0 <= i < |s| && 0 <= j < |t| ensures s[i] != t[j] {
      assert (s + t)[i] == s[i] && (s + t)[|s| + j] == t[j];
    }
  }

  /** The smallest leak: a statement appended after a clean-up. */
  lemma LeakExample(stmt: int)
    ensures Destroyed([Cleanup, Append(Prepared(stmt))]).appended == [stmt]
    ensures Destroyed([Cleanup, Append(Prepared(stmt))]).freed == []
  {
    var uses := [Cleanup, Append(Prepared(stmt))];
    var append := uses[1..];
    assert append == [Append(Prepared(stmt))] && append[1..] == [];
    assert Given(append) == StatementOf(append[0].e) + Given(append[1..]);
    assert Late(uses) == Given(append) && Early(uses) == [];
    FreedAreEarly(uses);
  }

  /** A statement appended twice is deleted twice. */
  lemma DoubleAppendExample(stmt: int)
    ensures Destroyed([Append(Prepared(stmt)), Append(Prepared(stmt))]).freed == [stmt, stmt]
  {
    var uses := [Append(Prepared(stmt)), Append(Prepared(stmt))];
    var append := uses[1..];
    assert append == [Append(Prepared(stmt))] && append[1..] == [];
    assert Early(append) == [stmt];
    assert Early(uses) == StatementOf(uses[0].e) + Early(append);
    FreedAreEarly(uses);
  }

  /** A statement that can still be executed has not been deleted. */
  lemma ListedNotFreed(uses: seq<Use>, stmt: int)
    requires Distinct(Given(uses)) && stmt in PreparedOf(AfterUses(EMPTY, uses).queries)
    ensures stmt !in AfterUses(EMPTY, uses).freed
  {
    BeforeFirstCleanup(EMPTY, uses);
    EarlyThenLate(uses);
    DistinctParts(Early(uses), Late(uses));
  }

  // ---- The connection ----

  /**
   What comes of a statement: success, a failure with any error number, even 0, or the loss of the connection before
   the server executed it. A loss ends the open transaction; the client reconnects and executes the statement again.
   */
  datatype Answer = Success | Failure(errno: int) | Lost

  /** How often the connection is lost before a statement has its result. */
  function Losses(answers: seq<Answer>): (k: nat)
    ensures k <= |answers| && (k < |answers| ==> !answers[k].Lost?)
  {
    if answers == [] || !answers[0].Lost? then 0 else 1 + Losses(answers[1..])
  }

  /** The result; it is success when no answer is left. */
  function Final(answers: seq<Answer>): (a: Answer)
    ensures !a.Lost?
  {
    var k := Losses(answers);
    if k < |answers| then answers[k] else Success
  }

  function Rest(answers: seq<Answer>): seq<Answer> {
    var k := Losses(answers);
    if k < |answers| then answers[k + 1..] else []
  }

  /** How answers are used up: success and failures by one statement, a loss by the same statement again. */
  lemma AnswersRead(errno: int, later: seq<Answer>)
    ensures Final([]) == Success && Rest([]) == [] && Losses([]) == 0
    ensures var a := [Success] + later; Final(a) == Success && Rest(a) == later && Losses(a) == 0
    ensures var a := [Failure(errno)] + later; Final(a) == Failure(errno) && Rest(a) == later && Losses(a) == 0
    ensures var a := [Lost] + later; Final(a) == Final(later) && Rest(a) == Rest(later) && Losses(a) > 0
  {
    assert ([Success] + later)[1..] == later && ([Failure(errno)] + later)[1..] == later;
    assert ([Lost] + later)[1..] == later;
    var k := Losses(later);
    if k < |later| {
      assert ([Lost] + later)[k + 2..] == later[k + 1..];
    }
  }

  lemma AmongAnswers(answers: seq<Answer>)
    ensures Final(answers) == Success || Final(answers) in answers
    ensures forall a :: a in Rest(answers) ==> a in answers
    ensures Lost !in answers ==> Losses(answers) == 0
  {
    assert Losses(answers) > 0 ==> answers[0] == Lost;
  }

  /** The transaction that is still open when a statement has its result. */
  function StillOpen(answers: seq<Answer>, working: Option<seq<Element>>): Option<seq<Element>> {
    if Losses(answers) > 0 then None else working
  }

  /** What a commit adds. */
  function Pending(working: Option<seq<Element>>): seq<Element> {
    if working.Some? then working.value else []
  }

  class Connection {
    var committed: seq<Element>
    var working: Option<seq<Element>>
    var answers: seq<Answer>
    var lastError: int
    var locked: bool

    ghost predicate Idle()
      reads this
    {
      working == None
    }

    /**
     One statement, executed again after every loss of the connection. Outside a transaction it takes effect at once.
     A deadlock makes the server roll the transaction back.
     */
    method Execute(e: Element) returns (ok: bool)
      modifies this
      ensures answers == Rest(old(answers)) && locked == old(locked)
      ensures ok <==> Final(old(answers)).Success?
      ensures lastError == if ok then 0 else Final(old(answers)).errno
      ensures var open := StillOpen(old(answers), old(working));
              && committed == old(committed) + (if ok && open.None? then [e] else [])
              && working == if !ok && lastError == ER_LOCK_DEADLOCK then None
                            else if ok && open.Some? then Some(open.value + [e]) else open
      decreases |answers|
    {
      var answer := Success;
      if answers != [] {
        answer, answers := answers[0], answers[1..];
      }
      match answer {
        case Success =>
          ok, lastError := true, 0;
          if working.Some? {
            working := Some(working.value + [e]);
          } else {
            committed := committed + [e];
          }
        case Failure(errno) =>
          ok, lastError := false, errno;
          if errno == ER_LOCK_DEADLOCK {
            working := None;
          }
        case Lost =>
          working := None;
          ok := Execute(e);
      }
    }

    /** START TRANSACTION; one that is still open is committed by it. */
    method BeginTransaction()
      modifies this
      ensures committed == old(committed) + Pending(old(working))
      ensures working == Some([]) && lastError == 0 && answers == old(answers) && locked == old(locked)
    {
      if working.Some? {
        committed := committed + working.value;
      }
      working, lastError := Some([]), 0;
    }

    method CommitTransaction()
      modifies this
      ensures committed == old(committed) + Pending(old(working))
      ensures working == None && lastError == 0 && answers == old(answers) && locked == old(locked)
    {
      if working.Some? {
        committed := committed + working.value;
      }
      working, lastError := None, 0;
    }

    method RollbackTransaction()
      modifies this
      ensures committed == old(committed)
      ensures working == None && lastError == 0 && answers == old(answers) && locked == old(locked)
    {
      working, lastError := None, 0;
    }

    method Unlock()
      modifies this`locked
      ensures !locked
    {
      locked := false;
    }

    /** The loop over the queries, inside a transaction; applied is what took effect outside it, after a loss. */
    method RunQueries(queries: seq<Element>) returns (ok: bool, ghost applied: seq<Element>)
      requires working == Some([])
      modifies this
      ensures locked == old(locked) && committed == old(committed) + applied
      ensures Attempted(old(answers), queries)
           == if ok then Attempt(0, applied + Pending(working), answers) else Attempt(lastError, applied, answers)
    {
      hide Continues, Attempted, Final, Rest, StillOpen, Pending;
      ghost var all := Attempted(answers, queries);
      StartOfAttempt(answers, queries);
      applied := [];
      for i := 0 to |queries|
        invariant locked == old(locked) && committed == old(committed) + applied
        invariant Continues(all, applied, answers, queries, i, working)
      {
        ghost var open := StillOpen(answers, working);
        NextQuery(all, applied, answers, queries, i, working);
        ok := Execute(queries[i]);
        if !ok {
          return;
        }
        applied := applied + if open.None? then [queries[i]] else [];
      }
      NoQuery(all, applied, answers, queries, working);
      ok := true;
    }

    /**
     Runs the queries as a transaction: error -1 when there is none to run, 0 after the commit, otherwise the error
     number of the first failure; applied is what took effect, all queries or none unless the connection was lost.
     */
    method ExecuteTransaction(transaction: Transaction) returns (errorCode: int, ghost applied: seq<Element>)
      requires Idle() && Executable(transaction.queries)
      modifies this
      ensures Idle() && locked == old(locked)
      ensures transaction.queries == [] ==> errorCode == -1 && applied == [] && answers == old(answers)
      ensures transaction.queries != [] ==>
                Attempt(errorCode, applied, answers) == Attempted(old(answers), transaction.queries)
      ensures committed == old(committed) + applied
    {
      hide Attempted;
      applied := [];
      var queries := transaction.queries;
      if queries == [] {
        errorCode := -1;
        return;
      }
      BeginTransaction();
      var ok;
      ok, applied := RunQueries(queries);
      if !ok {
        errorCode := lastError;
        RollbackTransaction();
        return;
      }
      applied := applied + Pending(working);
      CommitTransaction();
      errorCode := 0;
    }
  }

  /** The texts of a transaction are not empty. */
  predicate Executable(queries: seq<Element>) {
    forall k :: 0 <= k < |queries| && queries[k].Raw? ==> queries[k].sql != ""
  }

  // ---- What the answers decide ----

  /** One attempt: the code it returns, what took effect, and the answers it left. */
  datatype Attempt = Attempt(code: int, applied: seq<Element>, rest: seq<Answer>)

  function Prefixed(applied: seq<Element>, a: Attempt): Attempt {
    a.(applied := applied + a.applied)
  }

  /** Running the queries that are left until one fails, and the commit. */
  function Ran(answers: seq<Answer>, queries: seq<Element>, working: Option<seq<Element>>): Attempt
    decreases |queries|
  {
    if queries == [] then Attempt(0, Pending(working), answers)
    else
      match Final(answers)
      case Failure(errno) => Attempt(errno, [], Rest(answers))
      case Success =>
        match StillOpen(answers, working)
        case Some(done) => Ran(Rest(answers), queries[1..], Some(done + [queries[0]]))
        case None => Prefixed([queries[0]], Ran(Rest(answers), queries[1..], None))
  }

  function Attempted(answers: seq<Answer>, queries: seq<Element>): Attempt {
    Ran(answers, queries, Some([]))
  }

  /** All that is left of an attempt, after what has taken effect. */
  predicate Continues(all: Attempt, applied: seq<Element>, answers: seq<Answer>, queries: seq<Element>, i: nat,
                      working: Option<seq<Element>>)
    requires i <= |queries|
  {
    all == Prefixed(applied, Ran(answers, queries[i..], working))
  }

  lemma StartOfAttempt(answers: seq<Answer>, queries: seq<Element>)
    ensures Continues(Attempted(answers, queries), [], answers, queries, 0, Some([]))
  {
    var a := Ran(answers, queries, Some([]));
    assert queries[0..] == queries && [] + a.applied == a.applied;
  }

  lemma NextQuery(all: Attempt, applied: seq<Element>, answers: seq<Answer>, queries: seq<Element>, i: nat,
                  working: Option<seq<Element>>)
    requires i < |queries| && Continues(all, applied, answers, queries, i, working)
    ensures Final(answers).Failure? ==> all == Attempt(Final(answers).errno, applied, Rest(answers))
    ensures var open := StillOpen(answers, working);
            Final(answers).Success? ==>
              Continues(all, applied + (if open.None? then [queries[i]] else []), Rest(answers), queries, i + 1,
                        if open.Some? then Some(open.value + [queries[i]]) else open)
  {
    hide Final, Rest, StillOpen;
    assert queries[i..][0] == queries[i] && queries[i..][1..] == queries[i + 1..];
    var later := Ran(Rest(answers), queries[i + 1..], None).applied;
    assert applied + ([queries[i]] + later) == (applied + [queries[i]]) + later;
    assert applied + [] == applied;
  }

  lemma NoQuery(all: Attempt, applied: seq<Element>, answers: seq<Answer>, queries: seq<Element>,
                working: Option<seq<Element>>)
    requires Continues(all, applied, answers, queries, |queries|, working)
    ensures all == Attempt(0, applied + Pending(working), answers)
  {
  }

  // ---- What an attempt does ----

  /** The error number of the first failure among n queries. */
  function FirstError(answers: seq<Answer>, n: nat): Option<int>
    decreases n
  {
    if n == 0 then None
    else if Final(answers).Failure? then Some(Final(answers).errno)
    else FirstError(Rest(answers), n - 1)
  }

  /** How many of n queries succeed before it. */
  function Finished(answers: seq<Answer>, n: nat): (j: nat)
    ensures j <= n && (j == n <==> FirstError(answers, n) == None)
    decreases n
  {
    if n == 0 || Final(answers).Failure? then 0 else 1 + Finished(Rest(answers), n - 1)
  }

  /** The first query that is executed again after a loss. */
  function LostAt(answers: seq<Answer>, n: nat): (i: Option<nat>)
    ensures i.Some? ==> i.value <= Finished(answers, n)
    decreases n
  {
    if n == 0 then None
    else if Losses(answers) > 0 then Some(0)
    else if Final(answers).Failure? then None
    else
      match LostAt(Rest(answers), n - 1)
      case Some(i) => Some(i + 1)
      case None => None
  }

  /** What takes effect of the queries: without a loss all or none, otherwise those from the loss to the failure. */
  function Effect(answers: seq<Answer>, queries: seq<Element>): seq<Element> {
    match LostAt(answers, |queries|)
    case Some(i) => queries[i..Finished(answers, |queries|)]
    case None => if FirstError(answers, |queries|).None? then queries else []
  }

  function CodeFor(error: Option<int>): int {
    if error.Some? then error.value else 0
  }

  /** Outside a transaction every query that succeeds takes effect. */
  lemma {:induction false} RanAlone(answers: seq<Answer>, queries: seq<Element>)
    ensures var a := Ran(answers, queries, None);
            && a.code == CodeFor(FirstError(answers, |queries|))
            && a.applied == queries[..Finished(answers, |queries|)]
    decreases |queries|
  {
    hide Losses, Rest, Final;
    if queries != [] && Final(answers).Success? {
      RanAlone(Rest(answers), queries[1..]);
      var f := Finished(Rest(answers), |queries| - 1);
      assert queries[..1 + f] == [queries[0]] + queries[1..][..f];
    }
  }

  /** What an attempt computes, with the queries done in front of it in the same transaction. */
  predicate Applies(answers: seq<Answer>, queries: seq<Element>, done: seq<Element>) {
    var a, n := Ran(answers, queries, Some(done)), |queries|;
    && a.code == CodeFor(FirstError(answers, n))
    && a.applied == if LostAt(answers, n).None? && FirstError(answers, n).None? then done + queries
                    else Effect(answers, queries)
  }

  function Later(lost: Option<nat>): Option<nat> {
    if lost.Some? then Some(lost.value + 1) else None
  }

  lemma FirstSucceeds(answers: seq<Answer>, n: nat)
    requires n > 0 && Final(answers).Success?
    ensures FirstError(answers, n) == FirstError(Rest(answers), n - 1)
    ensures Finished(answers, n) == 1 + Finished(Rest(answers), n - 1)
    ensures LostAt(answers, n) == if Losses(answers) > 0 then Some(0) else Later(LostAt(Rest(answers), n - 1))
  {
    hide Losses, Final, Rest;
  }

  lemma FirstRuns(answers: seq<Answer>, queries: seq<Element>, done: seq<Element>)
    requires queries != [] && Final(answers).Success?
    ensures Losses(answers) > 0 ==>
              Ran(answers, queries, Some(done)) == Prefixed([queries[0]], Ran(Rest(answers), queries[1..], None))
    ensures Losses(answers) == 0 ==>
              Ran(answers, queries, Some(done)) == Ran(Rest(answers), queries[1..], Some(done + [queries[0]]))
  {
    hide Losses, Final, Rest;
  }

  lemma TailSlice(queries: seq<Element>, i: nat, j: nat)
    requires i <= j < |queries|
    ensures queries[1..][i..j] == queries[i + 1..j + 1]
    ensures i == 0 ==> [queries[0]] + queries[1..][i..j] == queries[0..j + 1]
  {
  }

  lemma DoneNext(queries: seq<Element>, done: seq<Element>)
    requires queries != []
    ensures (done + [queries[0]]) + queries[1..] == done + queries
  {
  }

  lemma AppliesAfterLoss(answers: seq<Answer>, queries: seq<Element>, done: seq<Element>)
    requires queries != [] && Final(answers).Success? && Losses(answers) > 0
    ensures Applies(answers, queries, done)
  {
    hide Losses, Final, Rest, FirstError, Finished, LostAt, Ran;
    FirstSucceeds(answers, |queries|);
    FirstRuns(answers, queries, done);
    var rest, tail := Rest(answers), queries[1..];
    RanAlone(rest, tail);
    TailSlice(queries, 0, Finished(rest, |tail|));
    assert tail[0..Finished(rest, |tail|)] == tail[..Finished(rest, |tail|)];
  }

  lemma AppliesNext(answers: seq<Answer>, queries: seq<Element>, done: seq<Element>)
    requires queries != [] && Final(answers).Success? && Losses(answers) == 0
    requires Applies(Rest(answers), queries[1..], done + [queries[0]])
    ensures Applies(answers, queries, done)
  {
    hide Losses, Final, Rest, FirstError, Finished, LostAt, Ran;
    FirstSucceeds(answers, |queries|);
    FirstRuns(answers, queries, done);
    var rest, tail := Rest(answers), queries[1..];
    DoneNext(queries, done);
    var lost, f := LostAt(rest, |tail|), Finished(rest, |tail|);
    if lost.Some? {
      TailSlice(queries, lost.value, f);
    }
  }

  lemma {:induction false} RanApplies(answers: seq<Answer>, queries: seq<Element>, done: seq<Element>)
    ensures Applies(answers, queries, done)
    decreases |queries|
  {
    hide Losses, Final, Rest;
    if queries == [] {
      assert done + queries == done;
    } else if Final(answers).Success? {
      hide Applies;
      if Losses(answers) > 0 {
        AppliesAfterLoss(answers, queries, done);
      } else {
        RanApplies(Rest(answers), queries[1..], done + [queries[0]]);
        AppliesNext(answers, queries, done);
      }
    }
  }

  /** The code is the first error number, or 0; what takes effect is determined by losses and failures as above. */
  lemma AttemptExactly(answers: seq<Answer>, queries: seq<Element>)
    ensures var a, error := Attempted(answers, queries), FirstError(answers, |queries|);
            a.code == CodeFor(error) && a.applied == Effect(answers, queries)
  {
    hide Ran;
    RanApplies(answers, queries, []);
    assert [] + queries == queries;
  }

  /**
   All or nothing takes effect exactly when the connection is not lost, or lost only before the first query with none
   failing, or before the one that fails.
   */
  lemma AtomicExactly(answers: seq<Answer>, queries: seq<Element>)
    ensures var lost, finished := LostAt(answers, |queries|), Finished(answers, |queries|);
            Attempted(answers, queries).applied in {[], queries} <==>
            lost == None || lost == Some(finished) || (lost == Some(0) && finished == |queries|)
  {
    AttemptExactly(answers, queries);
    assert queries[0..|queries|] == queries;
  }

  /** A code that hides what happened: success, although not the queries took effect. */
  predicate Silent(a: Attempt, queries: seq<Element>) {
    a.code == 0 && a.applied != queries
  }

  /**
   An attempt reports success without having applied the queries exactly when its first failure carries error
   number 0, or none fails and the connection is lost after the first query.
   */
  lemma SilentExactly(answers: seq<Answer>, queries: seq<Element>)
    ensures var error, lost := FirstError(answers, |queries|), LostAt(answers, |queries|);
            Silent(Attempted(answers, queries), queries) <==>
            error == Some(0) || (error == None && lost.Some? && lost.value > 0)
  {
    AttemptExactly(answers, queries);
    assert queries[0..|queries|] == queries;
  }

  /** A connection lost before the second query: the first one is gone, the second one stays, and that is success. */
  lemma LossExample(first: Element, second: Element)
    ensures var a := Attempted([Success, Lost], [first, second]); a.code == 0 && a.applied == [second]
  {
    var answers, queries := [Success, Lost], [first, second];
    assert Losses(answers) == 0 && Rest(answers) == [Lost];
    assert Losses([Lost]) == 1 + Losses([Lost][1..]);
    assert Final([Lost]) == Success && Rest([Lost]) == [];
    assert FirstError(answers, 2) == FirstError([Lost], 1) == FirstError([], 0) == None;
    assert LostAt([Lost], 1) == Some(0) && LostAt(answers, 2) == Some(1);
    AttemptExactly(answers, queries);
    assert queries[1..2] == [second];
  }

  // ---- What several attempts do ----

  /** The outcome of a commit: the answer given, what took effect over all attempts, and the answers left. */
  datatype Outcome = Outcome(ok: bool, applied: seq<Element>, rest: seq<Answer>)

  function After(applied: seq<Element>, o: Outcome): Outcome {
    o.(applied := applied + o.applied)
  }

  lemma NothingBefore(o: Outcome)
    ensures After([], o) == o
  {
    assert [] + o.applied == o.applied;
  }

  /** Readings of the retry clock, one after each failed retry; time passes, so the last exceeds the limit. */
  predicate TimePasses(durations: seq<int>) {
    durations != [] && durations[|durations| - 1] > DEADLOCK_MAX_RETRY_TIME_MS
  }

  function Retried(answers: seq<Answer>, queries: seq<Element>, durations: seq<int>): Outcome
    requires TimePasses(durations)
    decreases |durations|
  {
    var a := Attempted(answers, queries);
    if a.code == 0 || durations[0] > DEADLOCK_MAX_RETRY_TIME_MS then Outcome(a.code == 0, a.applied, a.rest)
    else After(a.applied, Retried(a.rest, queries, durations[1..]))
  }

  /** The retries that are left, after what the ones before have applied. */
  predicate RetriesLeft(all: Outcome, applied: seq<Element>, answers: seq<Answer>, queries: seq<Element>,
                        durations: seq<int>)
    requires TimePasses(durations)
  {
    all == After(applied, Retried(answers, queries, durations))
  }

  lemma FirstRetry(answers: seq<Answer>, queries: seq<Element>, durations: seq<int>)
    requires TimePasses(durations)
    ensures RetriesLeft(Retried(answers, queries, durations), [], answers, queries, durations)
  {
    hide Retried;
    var o := Retried(answers, queries, durations);
    assert [] + o.applied == o.applied;
  }

  lemma NextRetry(all: Outcome, applied: seq<Element>, answers: seq<Answer>, queries: seq<Element>,
                  durations: seq<int>)
    requires TimePasses(durations) && RetriesLeft(all, applied, answers, queries, durations)
    ensures var a := Attempted(answers, queries);
            if a.code == 0 || durations[0] > DEADLOCK_MAX_RETRY_TIME_MS
            then all == Outcome(a.code == 0, applied + a.applied, a.rest)
            else TimePasses(durations[1..])
                 && RetriesLeft(all, applied + a.applied, a.rest, queries, durations[1..])
  {
    hide Attempted;
    var a := Attempted(answers, queries);
    if a.code != 0 && durations[0] <= DEADLOCK_MAX_RETRY_TIME_MS {
      var later := Retried(a.rest, queries, durations[1..]).applied;
      assert applied + (a.applied + later) == (applied + a.applied) + later;
    }
  }

  function Executed(answers: seq<Answer>, queries: seq<Element>, durations: seq<int>): Outcome
    requires TimePasses(durations)
  {
    if queries == [] then Outcome(false, [], answers) else
    var a := Attempted(answers, queries);
    if a.code == ER_LOCK_DEADLOCK then After(a.applied, Retried(a.rest, queries, durations))
    else Outcome(a.code == 0, a.applied, a.rest)
  }

  /** Up to r retries. */
  function RetriedTimes(answers: seq<Answer>, queries: seq<Element>, r: nat): Outcome
    decreases r
  {
    if r == 0 then Outcome(false, [], answers) else
    var a := Attempted(answers, queries);
    if a.code == 0 then Outcome(true, a.applied, a.rest)
    else After(a.applied, RetriedTimes(a.rest, queries, r - 1))
  }

  function CommittedDirectly(answers: seq<Answer>, queries: seq<Element>): Outcome {
    if queries == [] then Outcome(false, [], answers) else
    var a := Attempted(answers, queries);
    if a.code == ER_LOCK_DEADLOCK then After(a.applied, RetriedTimes(a.rest, queries, 5))
    else Outcome(a.code == 0, a.applied, a.rest)
  }

  /** Attempt number k, when all attempts before it are made. */
  function AttemptNo(answers: seq<Answer>, queries: seq<Element>, k: nat): Attempt
    decreases k
  {
    if k == 0 then Attempted(answers, queries) else AttemptNo(Attempted(answers, queries).rest, queries, k - 1)
  }

  /** Its error number. */
  function CodeOf(answers: seq<Answer>, queries: seq<Element>, k: nat): int {
    AttemptNo(answers, queries, k).code
  }

  /** Retry number r, counted from 0, succeeds. */
  predicate RetrySucceeds(answers: seq<Answer>, queries: seq<Element>, r: nat) {
    CodeOf(answers, queries, r + 1) == 0
  }

  /** Attempt number k ends the retries, and it hides a failure. */
  predicate EndsSilently(answers: seq<Answer>, queries: seq<Element>, k: nat) {
    Silent(AttemptNo(answers, queries, k), queries) && forall j: nat :: j < k ==> CodeOf(answers, queries, j) != 0
  }

  predicate WithinTime(durations: seq<int>, r: nat) {
    r < |durations| && forall j :: 0 <= j < r ==> durations[j] <= DEADLOCK_MAX_RETRY_TIME_MS
  }

  lemma {:induction false} RetriedExactly(answers: seq<Answer>, queries: seq<Element>, durations: seq<int>)
    requires TimePasses(durations)
    ensures Retried(answers, queries, durations).ok <==>
            exists r: nat :: WithinTime(durations, r) && CodeOf(answers, queries, r) == 0
    decreases |durations|
  {
    hide Attempted;
    var a := Attempted(answers, queries);
    if a.code == 0 {
      assert WithinTime(durations, 0) && CodeOf(answers, queries, 0) == 0;
    } else if durations[0] > DEADLOCK_MAX_RETRY_TIME_MS {
      forall r: nat | WithinTime(durations, r) ensures CodeOf(answers, queries, r) != 0 {
        assert r == 0;
      }
    } else {
      var later := durations[1..];
      RetriedExactly(a.rest, queries, later);
      forall r: nat | WithinTime(later, r) && CodeOf(a.rest, queries, r) == 0
        ensures WithinTime(durations, r + 1) && CodeOf(answers, queries, r + 1) == 0
      {
        assert forall j :: 0 < j < r + 1 ==> durations[j] == later[j - 1];
      }
      forall r: nat | WithinTime(durations, r) && CodeOf(answers, queries, r) == 0
        ensures r > 0 && WithinTime(later, r - 1) && CodeOf(a.rest, queries, r - 1) == 0
      {
      }
    }
  }

  /** Each retry before number r ended at most one minute after the first attempt. */
  predicate InOneMinute(durations: seq<int>, r: nat) {
    r < |durations| && forall j :: 0 <= j < r ==> durations[j] <= 60 * 1000
  }

  /** A task answers true when its first attempt succeeds, or deadlocks and some retry within the time succeeds. */
  lemma CommitsExactly(answers: seq<Answer>, queries: seq<Element>, durations: seq<int>)
    requires TimePasses(durations) && queries != []
    ensures Executed(answers, queries, durations).ok <==>
            CodeOf(answers, queries, 0) == 0
            || (CodeOf(answers, queries, 0) == 1213
                && exists r: nat :: InOneMinute(durations, r) && RetrySucceeds(answers, queries, r))
  {
    hide Attempted;
    var rest := Attempted(answers, queries).rest;
    RetriedExactly(rest, queries, durations);
    assert forall r: nat :: RetrySucceeds(answers, queries, r) <==> CodeOf(rest, queries, r) == 0;
  }

  /** The retries that are left, after what the ones before have applied. */
  predicate TimesLeft(all: Outcome, applied: seq<Element>, answers: seq<Answer>, queries: seq<Element>, r: nat) {
    all == After(applied, RetriedTimes(answers, queries, r))
  }

  lemma NextTime(all: Outcome, applied: seq<Element>, answers: seq<Answer>, queries: seq<Element>, r: nat)
    requires TimesLeft(all, applied, answers, queries, r)
    ensures r == 0 ==> all == Outcome(false, applied, answers)
    ensures var a := Attempted(answers, queries);
            r > 0 ==> if a.code == 0 then all == Outcome(true, applied + a.applied, a.rest)
                      else TimesLeft(all, applied + a.applied, a.rest, queries, r - 1)
  {
    hide Attempted;
    var a := Attempted(answers, queries);
    if r > 0 && a.code != 0 {
      var later := RetriedTimes(a.rest, queries, r - 1).applied;
      assert applied + (a.applied + later) == (applied + a.applied) + later;
    }
    assert applied + [] == applied;
  }

  predicate SomeAttempt(answers: seq<Answer>, queries: seq<Element>, r: nat) {
    exists k: nat :: k < r && CodeOf(answers, queries, k) == 0
  }

  lemma {:induction false} RetriedTimesExactly(answers: seq<Answer>, queries: seq<Element>, r: nat)
    ensures RetriedTimes(answers, queries, r).ok <==> SomeAttempt(answers, queries, r)
    decreases r
  {
    hide Attempted;
    if r > 0 {
      var a := Attempted(answers, queries);
      RetriedTimesExactly(a.rest, queries, r - 1);
      if a.code == 0 {
        assert CodeOf(answers, queries, 0) == 0;
      } else if SomeAttempt(a.rest, queries, r - 1) {
        var k: nat :| k < r - 1 && CodeOf(a.rest, queries, k) == 0;
        assert CodeOf(answers, queries, k + 1) == 0;
      } else {
        forall k: nat | k < r && CodeOf(answers, queries, k) == 0
          ensures k > 0 && CodeOf(a.rest, queries, k - 1) == 0
        {
        }
      }
    }
  }

  /** A direct commit succeeds when its first attempt does, or deadlocks and one of five retries does. */
  lemma CommitsDirectlyExactly(answers: seq<Answer>, queries: seq<Element>)
    requires queries != []
    ensures CommittedDirectly(answers, queries).ok <==>
            CodeOf(answers, queries, 0) == 0
            || (CodeOf(answers, queries, 0) == 1213
                && exists k: nat :: k < 5 && RetrySucceeds(answers, queries, k))
  {
    hide Attempted;
    var rest := Attempted(answers, queries).rest;
    RetriedTimesExactly(rest, queries, 5);
    assert SomeAttempt(rest, queries, 5) <==> exists k: nat :: k < 5 && CodeOf(rest, queries, k) == 0;
    assert forall k: nat :: RetrySucceeds(answers, queries, k) <==> CodeOf(rest, queries, k) == 0;
  }

  // ---- Several attempts over a connection that is not lost ----

  lemma {:induction false} RestOfRan(answers: seq<Answer>, queries: seq<Element>, working: Option<seq<Element>>)
    ensures forall a :: a in Ran(answers, queries, working).rest ==> a in answers
    decreases |queries|
  {
    AmongAnswers(answers);
    hide Rest, Final;
    if queries != [] && Final(answers).Success? {
      var open := StillOpen(answers, working);
      RestOfRan(Rest(answers), queries[1..], if open.Some? then Some(open.value + [queries[0]]) else None);
    }
  }

  lemma {:induction false} NotLost(answers: seq<Answer>, n: nat)
    requires Lost !in answers
    ensures LostAt(answers, n) == None
    decreases n
  {
    AmongAnswers(answers);
    hide Rest, Final;
    if n > 0 {
      NotLost(Rest(answers), n - 1);
    }
  }

  /** Without a loss an attempt applies all or nothing, and nothing if it fails. */
  lemma AllOrNothing(answers: seq<Answer>, queries: seq<Element>)
    requires Lost !in answers
    ensures var a := Attempted(answers, queries);
            && Lost !in a.rest && (Failure(0) !in answers ==> Failure(0) !in a.rest)
            && (a.applied == queries || a.applied == []) && (a.code != 0 ==> a.applied == [])
  {
    AttemptExactly(answers, queries);
    NotLost(answers, |queries|);
    RestOfRan(answers, queries, Some([]));
  }

  lemma {:induction false} RetriedSilently(answers: seq<Answer>, queries: seq<Element>, durations: seq<int>)
    requires TimePasses(durations) && Lost !in answers && queries != []
    ensures var o := Retried(answers, queries, durations);
            && (o.applied == queries || o.applied == []) && (o.applied == queries ==> o.ok)
            && (o.ok && o.applied == [] <==>
                exists r: nat :: WithinTime(durations, r) && EndsSilently(answers, queries, r))
    decreases |durations|
  {
    hide Attempted;
    var a := Attempted(answers, queries);
    assert AttemptNo(answers, queries, 0) == a && CodeOf(answers, queries, 0) == a.code;
    AllOrNothing(answers, queries);
    if a.code == 0 {
      assert WithinTime(durations, 0);
      forall r: nat | EndsSilently(answers, queries, r) ensures r == 0 {
      }
      assert Silent(a, queries) ==> EndsSilently(answers, queries, 0);
    } else if durations[0] > DEADLOCK_MAX_RETRY_TIME_MS {
      forall r: nat | WithinTime(durations, r) ensures r == 0 {
      }
    } else {
      var later := durations[1..];
      RetriedSilently(a.rest, queries, later);
      NothingBefore(Retried(a.rest, queries, later));
      forall r: nat | WithinTime(later, r) && EndsSilently(a.rest, queries, r)
        ensures WithinTime(durations, r + 1) && EndsSilently(answers, queries, r + 1)
      {
        LaterEndsSilently(answers, queries, r);
        assert forall j :: 0 < j < r + 1 ==> durations[j] == later[j - 1];
      }
      forall r: nat | WithinTime(durations, r) && EndsSilently(answers, queries, r)
        ensures r > 0 && WithinTime(later, r - 1) && EndsSilently(a.rest, queries, r - 1)
      {
        assert r > 0;
        LaterEndsSilently(answers, queries, r - 1);
      }
    }
  }

  lemma LaterEndsSilently(answers: seq<Answer>, queries: seq<Element>, r: nat)
    requires Attempted(answers, queries).code != 0
    ensures EndsSilently(answers, queries, r + 1) <==> EndsSilently(Attempted(answers, queries).rest, queries, r)
  {
    hide Attempted;
    var rest := Attempted(answers, queries).rest;
    assert AttemptNo(answers, queries, r + 1) == AttemptNo(rest, queries, r);
    assert CodeOf(answers, queries, 0) != 0;
    if EndsSilently(answers, queries, r + 1) {
      forall j: nat | j < r ensures CodeOf(rest, queries, j) != 0 {
        assert CodeOf(answers, queries, j + 1) == CodeOf(rest, queries, j);
      }
    }
    if EndsSilently(rest, queries, r) {
      forall j: nat | j < r + 1 ensures CodeOf(answers, queries, j) != 0 {
        if j > 0 {
          assert CodeOf(answers, queries, j) == CodeOf(rest, queries, j - 1);
        }
      }
    }
  }

  /** Retry number r, counted from 0, ends the retries and hides a failure. */
  predicate RetryEndsSilently(answers: seq<Answer>, queries: seq<Element>, r: nat) {
    EndsSilently(answers, queries, r + 1)
  }

  /**
   Over a connection that is not lost a task applies all or nothing, and answers true without a commit exactly when
   the attempt that ends it, the first one or a retry within the time after a deadlock, hides its failure.
   */
  lemma TrueWithoutCommit(answers: seq<Answer>, queries: seq<Element>, durations: seq<int>)
    requires TimePasses(durations) && Lost !in answers && queries != []
    ensures var o := Executed(answers, queries, durations);
            && (o.applied == queries || o.applied == []) && (o.applied == queries ==> o.ok)
            && (o.ok && o.applied == [] <==>
                EndsSilently(answers, queries, 0)
                || (CodeOf(answers, queries, 0) == ER_LOCK_DEADLOCK
                    && exists r: nat :: WithinTime(durations, r) && RetryEndsSilently(answers, queries, r)))
  {
    hide Attempted;
    var a := Attempted(answers, queries);
    assert AttemptNo(answers, queries, 0) == a && CodeOf(answers, queries, 0) == a.code;
    AllOrNothing(answers, queries);
    RetriedSilently(a.rest, queries, durations);
    NothingBefore(Retried(a.rest, queries, durations));
    if a.code != 0 {
      forall r: nat ensures RetryEndsSilently(answers, queries, r) <==> EndsSilently(a.rest, queries, r) {
        LaterEndsSilently(answers, queries, r);
      }
    }
  }

  /** The answer says whether the queries took effect, all of them once. */
  predicate Honest(o: Outcome, queries: seq<Element>) {
    o.applied == if o.ok then queries else []
  }

  /** When no failure carries error number 0 either, the code of an attempt says whether it committed. */
  lemma HonestAttempt(answers: seq<Answer>, queries: seq<Element>)
    requires Lost !in answers && Failure(0) !in answers
    ensures var a := Attempted(answers, queries); a.applied == if a.code == 0 then queries else []
  {
    AttemptExactly(answers, queries);
    NotLost(answers, |queries|);
    ErrorAmongAnswers(answers, |queries|);
  }

  lemma {:induction false} ErrorAmongAnswers(answers: seq<Answer>, n: nat)
    ensures FirstError(answers, n).Some? ==> Failure(FirstError(answers, n).value) in answers
    decreases n
  {
    AmongAnswers(answers);
    hide Rest, Final;
    if n > 0 && Final(answers).Success? {
      ErrorAmongAnswers(Rest(answers), n - 1);
    }
  }

  lemma {:induction false} HonestRetries(answers: seq<Answer>, queries: seq<Element>, durations: seq<int>)
    requires TimePasses(durations) && Lost !in answers && Failure(0) !in answers
    ensures Honest(Retried(answers, queries, durations), queries)
    decreases |durations|
  {
    hide Attempted, After;
    HonestAttempt(answers, queries);
    AllOrNothing(answers, queries);
    var a := Attempted(answers, queries);
    if a.code != 0 && durations[0] <= DEADLOCK_MAX_RETRY_TIME_MS {
      HonestRetries(a.rest, queries, durations[1..]);
      NothingBefore(Retried(a.rest, queries, durations[1..]));
    }
  }

  lemma {:induction false} HonestRetriedTimes(answers: seq<Answer>, queries: seq<Element>, r: nat)
    requires Lost !in answers && Failure(0) !in answers
    ensures Honest(RetriedTimes(answers, queries, r), queries)
    decreases r
  {
    hide Attempted, After;
    HonestAttempt(answers, queries);
    AllOrNothing(answers, queries);
    if r > 0 && Attempted(answers, queries).code != 0 {
      HonestRetriedTimes(Attempted(answers, queries).rest, queries, r - 1);
      NothingBefore(RetriedTimes(Attempted(answers, queries).rest, queries, r - 1));
    }
  }

  /** Then every way to commit answers true exactly when the queries took effect. */
  lemma HonestCommits(answers: seq<Answer>, queries: seq<Element>, durations: seq<int>)
    requires TimePasses(durations) && Lost !in answers && Failure(0) !in answers
    ensures Honest(Executed(answers, queries, durations), queries)
    ensures Honest(CommittedDirectly(answers, queries), queries)
  {
    hide Attempted, Retried, RetriedTimes, After;
    HonestAttempt(answers, queries);
    AllOrNothing(answers, queries);
    var rest := Attempted(answers, queries).rest;
    HonestRetries(rest, queries, durations);
    HonestRetriedTimes(rest, queries, 5);
    NothingBefore(Retried(rest, queries, durations));
    NothingBefore(RetriedTimes(rest, queries, 5));
  }

  // ---- The tasks ----

  class TransactionTask {
    const conn: Connection
    const trans: Transaction

    constructor (conn: Connection, trans: Transaction)
      ensures this.conn == conn && this.trans == trans
    {
      this.conn, this.trans := conn, trans;
    }

    /** The answer and what takes effect are those of the attempts; a clean-up follows unless they succeed. */
    method Execute(durations: seq<int>) returns (ok: bool, ghost applied: seq<Element>)
      requires conn.Idle() && Executable(trans.queries) && TimePasses(durations)
      modifies conn, trans
      ensures conn.Idle() && conn.locked == old(conn.locked)
      ensures conn.committed == old(conn.committed) + applied
      ensures Outcome(ok, applied, conn.answers) == Executed(old(conn.answers), old(trans.queries), durations)
      ensures old(trans.queries) == [] ==> !ok && applied == [] && conn.answers == old(conn.answers)
      ensures trans.Now() == if ok then old(trans.Now()) else AfterCleanup(old(trans.Now()))
    {
      hide Attempted, Retried, AfterCleanup;
      var errorCode;
      errorCode, applied := conn.ExecuteTransaction(trans);
      if errorCode == 0 {
        ok := true;
        return;
      }
      if errorCode == ER_LOCK_DEADLOCK {
        ghost var later;
        ok, later := Retry(durations);
        applied := applied + later;
        if ok {
          return;
        }
      }
      trans.Cleanup();
      ok := false;
    }

    /** The retry loop; any error, not only a deadlock, leads to another retry while there is time. */
    method Retry(durations: seq<int>) returns (ok: bool, ghost applied: seq<Element>)
      requires conn.Idle() && Executable(trans.queries) && trans.queries != [] && TimePasses(durations)
      modifies conn
      ensures conn.Idle() && conn.locked == old(conn.locked)
      ensures conn.committed == old(conn.committed) + applied
      ensures Outcome(ok, applied, conn.answers) == Retried(old(conn.answers), trans.queries, durations)
    {
      hide Attempted, RetriesLeft;
      var loopDuration, left := 0, durations;
      applied := [];
      ghost var all := Retried(conn.answers, trans.queries, durations);
      FirstRetry(conn.answers, trans.queries, durations);
      while loopDuration <= DEADLOCK_MAX_RETRY_TIME_MS
        invariant conn.Idle() && conn.locked == old(conn.locked) && conn.committed == old(conn.committed) + applied
        invariant loopDuration <= DEADLOCK_MAX_RETRY_TIME_MS ==>
                    TimePasses(left) && RetriesLeft(all, applied, conn.answers, trans.queries, left)
        invariant loopDuration > DEADLOCK_MAX_RETRY_TIME_MS ==> all == Outcome(false, applied, conn.answers)
        decreases |left|
      {
        NextRetry(all, applied, conn.answers, trans.queries, left);
        var errorCode;
        ghost var now;
        errorCode, now := conn.ExecuteTransaction(trans);
        applied := applied + now;
        if errorCode == 0 {
          ok := true;
          return;
        }
        loopDuration, left := left[0], left[1..];
      }
      ok := false;
    }
  }

  /** A promise: it can be given a value once. */
  class Promise {
    var value: Option<bool>

    constructor ()
      ensures value == None
    {
      value := None;
    }

    method SetValue(b: bool)
      requires value == None
      modifies this
      ensures value == Some(b)
    {
      value := Some(b);
    }
  }

  class TransactionWithResultTask {
    const task: TransactionTask
    const result: Promise

    constructor (conn: Connection, trans: Transaction)
      ensures task.conn == conn && task.trans == trans && fresh(task) && fresh(result) && result.value == None
    {
      task := new TransactionTask(conn, trans);
      result := new Promise();
    }

    /** As TransactionTask.Execute, and the promise receives the answer; it was not set before, nor is it twice. */
    method Execute(durations: seq<int>) returns (ok: bool, ghost applied: seq<Element>)
      requires task.conn.Idle() && Executable(task.trans.queries) && TimePasses(durations) && result.value == None
      modifies task.conn, task.trans, result
      ensures task.conn.Idle() && task.conn.locked == old(task.conn.locked)
      ensures result.value == Some(ok)
      ensures task.conn.committed == old(task.conn.committed) + applied
      ensures Outcome(ok, applied, task.conn.answers)
           == Executed(old(task.conn.answers), old(task.trans.queries), durations)
      ensures old(task.trans.queries) == [] ==> !ok && applied == [] && task.conn.answers == old(task.conn.answers)
      ensures task.trans.Now() == if ok then old(task.trans.Now()) else AfterCleanup(old(task.trans.Now()))
    {
      hide Attempted, Retried, AfterCleanup;
      var errorCode;
      errorCode, applied := task.conn.ExecuteTransaction(task.trans);
      if errorCode == 0 {
        result.SetValue(true);
        ok := true;
        return;
      }
      if errorCode == ER_LOCK_DEADLOCK {
        ghost var later;
        ok, later := task.Retry(durations);
        applied := applied + later;
        if ok {
          result.SetValue(true);
          return;
        }
      }
      task.trans.Cleanup();
      result.SetValue(false);
      ok := false;
    }
  }

  // ---- Committing on the caller's thread ----

  /** On a connection its caller has locked; the transaction is cleaned up unless the first attempt reports success. */
  method DirectCommitTransaction(connection: Connection, transaction: Transaction)
    returns (ghost ok: bool, ghost applied: seq<Element>)
    requires connection.locked && connection.Idle() && Executable(transaction.queries)
    modifies connection, transaction
    ensures !connection.locked && connection.Idle()
    ensures Outcome(ok, applied, connection.answers)
         == CommittedDirectly(old(connection.answers), old(transaction.queries))
    ensures connection.committed == old(connection.committed) + applied
    ensures old(transaction.queries) == [] ==> !ok && applied == [] && connection.answers == old(connection.answers)
    ensures transaction.Now() ==
              if old(transaction.queries) != []
                 && Attempted(old(connection.answers), old(transaction.queries)).code == 0
              then old(transaction.Now()) else AfterCleanup(old(transaction.Now()))
  {
    hide Attempted, AfterCleanup;
    var errorCode;
    errorCode, applied := connection.ExecuteTransaction(transaction);
    ok := errorCode == 0;
    if errorCode == 0 {
      connection.Unlock();
      return;
    }
    if errorCode == ER_LOCK_DEADLOCK {
      var i := 0;
      ghost var all := CommittedDirectly(old(connection.answers), transaction.queries);
      hide TimesLeft, CommittedDirectly;
      while i < 5
        invariant i <= 5 && connection.Idle() && connection.committed == old(connection.committed) + applied
        invariant !ok && transaction.Now() == old(transaction.Now())
        invariant TimesLeft(all, applied, connection.answers, transaction.queries, 5 - i)
      {
        NextTime(all, applied, connection.answers, transaction.queries, 5 - i);
        var code;
        ghost var now;
        code, now := connection.ExecuteTransaction(transaction);
        applied := applied + now;
        if code == 0 {
          ok := true;
          break;
        }
        i := i + 1;
      }
      if !ok {
        NextTime(all, applied, connection.answers, transaction.queries, 0);
      }
    }
    transaction.Cleanup();
    connection.Unlock();
  }

  // ---- From the first append to the end ----

  /** The texts that are appended are not empty. */
  predicate NoEmptyText(uses: seq<Use>) {
    forall u :: u in uses && u.Append? && u.e.Raw? ==> u.e.sql != ""
  }

  lemma {:induction false} ListedExecutable(uses: seq<Use>)
    requires NoEmptyText(uses)
    ensures forall e :: e in Elements(uses) || e in SinceCleanup(uses) ==> e.Raw? ==> e.sql != ""
  {
    if uses != [] {
      assert forall u :: u in uses[1..] ==> u in uses;
      ListedExecutable(uses[1..]);
    }
  }

  /** Uses a new transaction in any way. */
  method Build(uses: seq<Use>) returns (transaction: Transaction)
    ensures fresh(transaction) && transaction.Now() == AfterUses(EMPTY, uses)
  {
    transaction := new Transaction();
    var i := 0;
    while i < |uses|
      invariant i <= |uses| && fresh(transaction)
      invariant AfterUses(transaction.Now(), uses[i..]) == AfterUses(EMPTY, uses)
      decreases |uses| - i
    {
      assert uses[i..][0] == uses[i] && uses[i..][1..] == uses[i + 1..];
      match uses[i] {
        case Append(Raw(sql)) => transaction.Append(sql);
        case Append(Prepared(stmt)) => transaction.AppendPreparedStatement(stmt);
        case Cleanup => transaction.Cleanup();
      }
      i := i + 1;
    }
    assert uses[i..] == [];
  }

  /**
   A transaction is built and given to a task. Over a connection that is not lost and reports its errors, true means
   that what is listed is now in the database, each element once and in order, false that nothing is; and the
   destructor has deleted the statements appended before the first clean-up.
   */
  method BuildAndExecute(conn: Connection, uses: seq<Use>, durations: seq<int>)
    returns (ok: bool, transaction: Transaction)
    requires conn.Idle() && NoEmptyText(uses) && TimePasses(durations)
    requires Lost !in conn.answers && Failure(0) !in conn.answers
    modifies conn
    ensures conn.committed == old(conn.committed) + if ok then Listed(uses) else []
    ensures Listed(uses) == [] ==> !ok
    ensures transaction.freed == Early(uses)
  {
    transaction := Build(uses);
    QueriesAreListed(uses);
    ListedExecutable(uses);
    HonestCommits(conn.answers, Listed(uses), durations);
    FreedAreEarly(uses);
    var task := new TransactionTask(conn, transaction);
    hide Executed, AfterUses, Listed, Early;
    ghost var applied;
    ok, applied := task.Execute(durations);
    CleanupTwice(AfterUses(EMPTY, uses));
    transaction.Destroy();
  }

  lemma CleanupTwice(t: Trans)
    ensures AfterCleanup(AfterCleanup(t)) == AfterCleanup(t)
  {
  }
}
