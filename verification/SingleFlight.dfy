/**
 The one cached sign-in of a worker process: callers that interleave at every point where the
 event loop may run something else.
 */
module SingleFlight {
  import opened Outcomes

  /**
   A sign-in attempt, as the promise every caller awaits: running; failed but with the handler
   that clears the cache still to run; settled.
   */
  datatype Attempt = Running | Failing | Fulfilled | Rejected

  datatype Caller = Awaiting(attempt: nat) | Signed(attempt: nat) | TurnedAway(attempt: nat)

  /** The cache variable, every attempt ever started, and every caller, in order of arrival. */
  datatype State = State(cache: Option<nat>, attempts: seq<Attempt>, callers: seq<Caller>)

  datatype Event =
    | Call
    | SignInEnds(attempt: nat, ok: bool)
    | HandlerRuns(attempt: nat)
    | Resume(caller: nat)

  const EMPTY := State(None, [], [])

  predicate Enabled(s: State, e: Event) {
    match e
    case Call => true
    case SignInEnds(a, _) => a < |s.attempts| && s.attempts[a].Running?
    case HandlerRuns(a) => a < |s.attempts| && s.attempts[a].Failing?
    case Resume(c) =>
      c < |s.callers| && s.callers[c].Awaiting? && s.callers[c].attempt < |s.attempts| &&
      (s.attempts[s.callers[c].attempt].Fulfilled? || s.attempts[s.callers[c].attempt].Rejected?)
  }

  function Next(s: State, e: Event): State
    requires Enabled(s, e)
  {
    match e
    case Call =>
      if s.cache.None? then
        State(Some(|s.attempts|), s.attempts + [Running], s.callers + [Awaiting(|s.attempts|)])
      else s.(callers := s.callers + [Awaiting(s.cache.value)])
    case SignInEnds(a, ok) => s.(attempts := s.attempts[a := if ok then Fulfilled else Failing])
    case HandlerRuns(a) => s.(cache := None, attempts := s.attempts[a := Rejected])
    case Resume(c) =>
      var a := s.callers[c].attempt;
      s.(callers := s.callers[c := if s.attempts[a].Fulfilled? then Signed(a) else TurnedAway(a)])
  }

  predicate InFlight(s: State, a: nat) {
    a < |s.attempts| && (s.attempts[a].Running? || s.attempts[a].Failing?)
  }

  ghost predicate Invariant(s: State) {
    // Whatever is in flight is what the cache holds.
    && (forall a: nat :: InFlight(s, a) ==> s.cache == Some(a))
    // What the cache holds has not failed for good, and is the newest attempt.
    && (s.cache.Some? ==> s.cache.value == |s.attempts| - 1 && !s.attempts[s.cache.value].Rejected?)
    // A success is cached for ever; so at most one attempt succeeds, the last one.
    && (forall a :: 0 <= a < |s.attempts| && s.attempts[a].Fulfilled? ==> s.cache == Some(a))
    // Callers have the outcome of the attempt they joined.
    && (forall c :: 0 <= c < |s.callers| ==>
          && s.callers[c].attempt < |s.attempts|
          && (s.callers[c].Signed? ==> s.attempts[s.callers[c].attempt].Fulfilled?)
          && (s.callers[c].TurnedAway? ==> s.attempts[s.callers[c].attempt].Rejected?))
  }

  predicate Possible(s: State, events: seq<Event>)
    decreases |events|
  {
    events == [] || (Enabled(s, events[0]) && Possible(Next(s, events[0]), events[1..]))
  }

  function Run(s: State, events: seq<Event>): State
    requires Possible(s, events)
    decreases |events|
  {
    if events == [] then s else Run(Next(s, events[0]), events[1..])
  }

  lemma InvariantHolds(s: State, e: Event)
    requires Invariant(s) && Enabled(s, e)
    ensures Invariant(Next(s, e))
  {
    var t := Next(s, e);
    match e
    case Call =>
      assert forall a :: 0 <= a < |s.attempts| ==> t.attempts[a] == s.attempts[a];
    case SignInEnds(a, ok) =>
      assert InFlight(s, a);
    case HandlerRuns(a) =>
      assert InFlight(s, a);
    case Resume(c) =>
  }

  /** Under every interleaving, the invariant holds. */
  lemma {:induction false} InvariantAlways(s: State, events: seq<Event>)
    requires Invariant(s) && Possible(s, events)
    ensures Invariant(Run(s, events))
    decreases |events|
  {
    if events != [] {
      InvariantHolds(s, events[0]);
      InvariantAlways(Next(s, events[0]), events[1..]);
    }
  }

  /**
   Under every interleaving of callers and completions: at most one sign-in is in flight, and
   a caller arriving meanwhile joins it instead of starting another.
   */
  lemma AtMostOneInFlight(events: seq<Event>, a: nat, b: nat)
    requires Possible(EMPTY, events)
    requires InFlight(Run(EMPTY, events), a)
    ensures InFlight(Run(EMPTY, events), b) ==> a == b
    ensures var s := Run(EMPTY, events);
            var t := Next(s, Call);
            t.attempts == s.attempts && t.callers == s.callers + [Awaiting(a)]
  {
    InvariantAlways(EMPTY, events);
  }

  /**
   When the handler of a failed attempt clears the cache, that attempt is what the cache holds:
   no newer attempt is ever discarded. The next caller then starts a new one.
   */
  lemma FailureClearsOnlyItself(events: seq<Event>, a: nat)
    requires Possible(EMPTY, events)
    requires Enabled(Run(EMPTY, events), HandlerRuns(a))
    ensures var s := Run(EMPTY, events);
            && s.cache == Some(a) && a == |s.attempts| - 1
            && Next(Next(s, HandlerRuns(a)), Call).attempts == s.attempts[a := Rejected] + [Running]
  {
    InvariantAlways(EMPTY, events);
    assert InFlight(Run(EMPTY, events), a);
  }

  /** All callers that joined one attempt and resumed have one outcome. */
  lemma CallersShareTheOutcome(events: seq<Event>, c: nat, d: nat)
    requires Possible(EMPTY, events)
    requires var s := Run(EMPTY, events);
             c < |s.callers| && d < |s.callers| && s.callers[c].attempt == s.callers[d].attempt &&
             !s.callers[c].Awaiting? && !s.callers[d].Awaiting?
    ensures Run(EMPTY, events).callers[c] == Run(EMPTY, events).callers[d]
  {
    InvariantAlways(EMPTY, events);
  }

  /** Once an attempt has succeeded, no other is ever started. */
  lemma {:induction false} SuccessIsKept(s: State, events: seq<Event>, a: nat)
    requires Invariant(s) && Possible(s, events)
    requires a < |s.attempts| && s.attempts[a].Fulfilled?
    ensures Run(s, events).attempts == s.attempts && Run(s, events).cache == Some(a)
    decreases |events|
  {
    if events != [] {
      var e := events[0];
      InvariantHolds(s, e);
      if e.SignInEnds? || e.HandlerRuns? {
        assert InFlight(s, e.attempt);
        assert false;
      }
      SuccessIsKept(Next(s, e), events[1..], a);
    }
  }

  // ---- What ended how ----

  predicate Ended(events: seq<Event>, a: nat, ok: bool) {
    exists i :: 0 <= i < |events| && events[i] == SignInEnds(a, ok)
  }

  lemma EndedNext(events: seq<Event>, a: nat, ok: bool)
    requires events != []
    ensures Ended(events, a, ok) <==> events[0] == SignInEnds(a, ok) || Ended(events[1..], a, ok)
  {
    if i :| 0 <= i < |events[1..]| && events[1..][i] == SignInEnds(a, ok) {
      assert events[i + 1] == events[1..][i];
    }
    if i :| 0 <= i < |events| && events[i] == SignInEnds(a, ok) {
      assert i > 0 ==> events[1..][i - 1] == events[i];
    }
  }

  predicate IsFulfilled(s: State, a: nat) {
    a < |s.attempts| && s.attempts[a].Fulfilled?
  }

  predicate IsFailed(s: State, a: nat) {
    a < |s.attempts| && (s.attempts[a].Failing? || s.attempts[a].Rejected?)
  }

  lemma {:induction false} EndsDecide(s: State, events: seq<Event>, a: nat)
    requires Possible(s, events)
    ensures IsFulfilled(Run(s, events), a) <==> IsFulfilled(s, a) || Ended(events, a, true)
    ensures IsFailed(Run(s, events), a) <==> IsFailed(s, a) || Ended(events, a, false)
    decreases |events|
  {
    if events != [] {
      EndedNext(events, a, true);
      EndedNext(events, a, false);
      EndsDecide(Next(s, events[0]), events[1..], a);
    }
  }

  /** An attempt has succeeded exactly when its sign-in ended well, and failed exactly when it ended badly. */
  lemma AttemptsEndAsTheySay(events: seq<Event>, a: nat)
    requires Possible(EMPTY, events)
    ensures IsFulfilled(Run(EMPTY, events), a) <==> Ended(events, a, true)
    ensures IsFailed(Run(EMPTY, events), a) <==> Ended(events, a, false)
  {
    EndsDecide(EMPTY, events, a);
  }

  /** A caller has a session only from a sign-in that ended well, and an error only from one that did not. */
  lemma CallersGetWhatHappened(events: seq<Event>, c: nat)
    requires Possible(EMPTY, events) && c < |Run(EMPTY, events).callers|
    ensures var caller := Run(EMPTY, events).callers[c];
            && (caller.Signed? ==> Ended(events, caller.attempt, true))
            && (caller.TurnedAway? ==> Ended(events, caller.attempt, false))
  {
    InvariantAlways(EMPTY, events);
    AttemptsEndAsTheySay(events, Run(EMPTY, events).callers[c].attempt);
  }
}
