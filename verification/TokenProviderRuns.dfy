/** What every interleaving of threads keeps in the token provider. */
module TokenProviderRuns {
  import opened Results
  import opened TokenProvider

  ghost predicate Possible(s: State, run: seq<Action>, refreshBefore: real)
    decreases |run|
  {
    run != [] ==> Enabled(s, run[0]) && Possible(Next(s, run[0], refreshBefore), run[1..], refreshBefore)
  }

  ghost function After(s: State, run: seq<Action>, refreshBefore: real): State
    requires Possible(s, run, refreshBefore)
    decreases |run|
  {
    if run == [] then s else After(Next(s, run[0], refreshBefore), run[1..], refreshBefore)
  }

  // ---------------------------------------------------------------------------------------------
  // The invariant.

  /** Between the start of a fetch and the last write it makes. */
  predicate Inside(pc: Pc) {
    pc.Fetching? || pc.Received? || pc.WroteToken? || pc.WriteExpiry?
  }

  /** The program points at which the thread owns the lock. */
  predicate Holding(pc: Pc) {
    || Inside(pc) || pc.ReturnLocked? || pc.Releasing? || pc.Failing?
    || (pc.CheckToken? && pc.locked) || (pc.ReadClock? && pc.locked) || (pc.ReadExpiry? && pc.locked)
  }

  /** The initial expiry of zero was due from the start: any margin but a very negative one sees to that. */
  predicate DueAtStart(s: State, refreshBefore: real) {
    s.started >= 0.0 - refreshBefore
  }

  /** The expiry that a check has to respect, if any fetch has completed. */
  predicate Due(s: State, time: real, refreshBefore: real) {
    s.log != [] ==> time >= s.expiresAt - refreshBefore
  }

  function Dated(log: seq<Fetch>): nat {
    if log == [] then 0 else log[|log| - 1].generation
  }

  /** Each fetch starts only when the previous expiry is near, and dates its token after it started. */
  predicate LogOk(log: seq<Fetch>, refreshBefore: real) {
    && (forall k :: 0 <= k < |log| ==> 1 <= log[k].generation && log[k].expiry >= log[k].start + log[k].expiresIn)
    && (forall k :: 0 < k < |log| ==> Follows(log[k - 1], log[k], refreshBefore))
  }

  predicate Follows(a: Fetch, b: Fetch, refreshBefore: real) {
    a.generation < b.generation && b.start >= a.expiry - refreshBefore
  }

  /** Fetch number `fetches` was not due for renewal at time `at`. */
  predicate Fresh(log: seq<Fetch>, fetches: nat, at: real, refreshBefore: real) {
    fetches <= |log| && (fetches > 0 ==> at < log[fetches - 1].expiry - refreshBefore)
  }

  predicate OutcomeOk(s: State, outcome: Outcome, refreshBefore: real) {
    match outcome
    case Locked(token) => token.Some? && (DueAtStart(s, refreshBefore) ==> Logged(s.log, token.value.generation))
    case Unlocked(token, fetches, at) =>
      && token.Some? && Fresh(s.log, fetches, at, refreshBefore)
      && token.value.generation >= Dated(s.log[..fetches])
      && (DueAtStart(s, refreshBefore) ==> fetches > 0)
  }

  predicate Logged(log: seq<Fetch>, generation: nat) {
    exists k :: 0 <= k < |log| && log[k].generation == generation
  }

  predicate ThreadOk(s: State, t: Thread, refreshBefore: real)
    requires t in s.threads
  {
    (Holding(s.threads[t]) <==> s.lock == Some(t)) &&
    match s.threads[t]
    case ReadClock(_) => s.token.Some?
    case ReadExpiry(locked, now) =>
      && s.token.Some? && s.started <= now <= s.clock
      && (locked && Dated(s.log) < s.stored ==> Due(s, now, refreshBefore))
    case ReturnUnlocked(fetches, at) =>
      && s.token.Some? && Fresh(s.log, fetches, at, refreshBefore)
      && (DueAtStart(s, refreshBefore) ==> fetches > 0)
    case Fetching(start) => start <= s.clock && Due(s, start, refreshBefore)
    case Received(start, _, _) => start <= s.clock && Due(s, start, refreshBefore)
    case WroteToken(start, _) => start <= s.clock && Due(s, start, refreshBefore) && Dated(s.log) < s.stored
    case WriteExpiry(start, _, now) => start <= now && Due(s, start, refreshBefore) && Dated(s.log) < s.stored
    case ReturnLocked => s.token.Some? && (DueAtStart(s, refreshBefore) ==> Dated(s.log) == s.stored)
    case Releasing(result) => result.Some? && (DueAtStart(s, refreshBefore) ==> Logged(s.log, result.value.generation))
    case Returned(outcome) => OutcomeOk(s, outcome, refreshBefore)
    case _ => true
  }

  predicate SharedOk(s: State, refreshBefore: real) {
    && s.started <= s.clock
    && (s.lock.Some? ==> s.lock.value in s.threads)
    && (if s.stored == 0 then s.token == None else s.token.Some? && s.token.value.generation == s.stored)
    && Dated(s.log) <= s.stored
    && LogOk(s.log, refreshBefore)
    && s.expiresAt == (if s.log == [] then 0.0 else s.log[|s.log| - 1].expiry)
    && (Dated(s.log) < s.stored ==> Due(s, s.clock, refreshBefore))
  }

  predicate Inv(s: State, refreshBefore: real) {
    SharedOk(s, refreshBefore) && forall t :: t in s.threads ==> ThreadOk(s, t, refreshBefore)
  }

  // ---------------------------------------------------------------------------------------------
  // One step.

  /** What any step does to the shared fields, as far as the other threads care. */
  predicate Later(s: State, s': State) {
    && s.clock <= s'.clock && s.started == s'.started && s.stored <= s'.stored && s.log <= s'.log
    && (s.token.Some? ==> s'.token.Some?)
  }

  /** No thread but the owner of the lock changes what the owner relies on. */
  predicate SameRecord(s: State, s': State) {
    s.log == s'.log && s.stored == s'.stored && s.expiresAt == s'.expiresAt
  }

  predicate OwnerUnaffected(s: State, s': State, t: Thread) {
    (s.lock == Some(t) <==> s'.lock == Some(t)) && (s.lock == Some(t) ==> SameRecord(s, s'))
  }

  lemma LoggedStays(a: seq<Fetch>, b: seq<Fetch>, generation: nat)
    requires a <= b && Logged(a, generation)
    ensures Logged(b, generation)
  {
    var k :| 0 <= k < |a| && a[k].generation == generation;
    assert b[k] == a[k];
  }

  lemma OutcomeStays(s: State, s': State, outcome: Outcome, refreshBefore: real)
    requires s.log <= s'.log && s.started == s'.started && OutcomeOk(s, outcome, refreshBefore)
    ensures OutcomeOk(s', outcome, refreshBefore)
  {
    match outcome
    case Locked(token) =>
      if DueAtStart(s, refreshBefore) {
        LoggedStays(s.log, s'.log, token.value.generation);
      }
    case Unlocked(_, fetches, _) =>
      assert s.log[..fetches] == s'.log[..fetches];
  }

  /** A thread that does not move keeps its part of the invariant. */
  lemma OthersKeep(s: State, s': State, u: Thread, refreshBefore: real)
    requires u in s.threads && u in s'.threads && s.threads[u] == s'.threads[u]
    requires ThreadOk(s, u, refreshBefore) && Later(s, s') && OwnerUnaffected(s, s', u)
    ensures ThreadOk(s', u, refreshBefore)
  {
    match s.threads[u]
    case Returned(outcome) => OutcomeStays(s, s', outcome, refreshBefore);
    case Releasing(result) =>
      if DueAtStart(s, refreshBefore) {
        LoggedStays(s.log, s'.log, result.value.generation);
      }
    case _ =>
  }

  lemma LogGrows(log: seq<Fetch>, done: Fetch, refreshBefore: real)
    requires LogOk(log, refreshBefore)
    requires 1 <= done.generation && done.expiry >= done.start + done.expiresIn
    requires log != [] ==> Follows(log[|log| - 1], done, refreshBefore)
    ensures LogOk(log + [done], refreshBefore)
  {
  }

  lemma SharedStep(s: State, a: Action, refreshBefore: real)
    requires Inv(s, refreshBefore) && Enabled(s, a)
    ensures SharedOk(Next(s, a, refreshBefore), refreshBefore)
    ensures Later(s, Next(s, a, refreshBefore))
  {
    if a.Step? {
      assert ThreadOk(s, a.t, refreshBefore);
      match s.threads[a.t]
      case WriteExpiry(start, expiresIn, now) =>
        LogGrows(s.log, Fetch(s.stored, start, expiresIn, now + expiresIn), refreshBefore);
      case _ =>
    }
  }

  lemma {:induction false} DatedPrefix(s: State, fetches: nat, refreshBefore: real)
    requires SharedOk(s, refreshBefore) && fetches <= |s.log|
    ensures Dated(s.log[..fetches]) <= Dated(s.log)
    decreases |s.log| - fetches
  {
    if fetches < |s.log| {
      DatedPrefix(s, fetches + 1, refreshBefore);
      assert fetches > 0 ==> Follows(s.log[fetches - 1], s.log[fetches], refreshBefore);
    } else {
      assert s.log[..fetches] == s.log;
    }
  }

  lemma CheckKeeps(s: State, t: Thread, refreshBefore: real)
    requires SharedOk(s, refreshBefore) && t in s.threads && s.threads[t].ReadExpiry?
    requires ThreadOk(s, t, refreshBefore)
    ensures ThreadOk(Next(s, Step(t), refreshBefore), t, refreshBefore)
  {
  }

  lemma UnlockedReturnKeeps(s: State, t: Thread, refreshBefore: real)
    requires SharedOk(s, refreshBefore) && t in s.threads && s.threads[t].ReturnUnlocked?
    requires ThreadOk(s, t, refreshBefore)
    ensures ThreadOk(Next(s, Step(t), refreshBefore), t, refreshBefore)
  {
    DatedPrefix(s, s.threads[t].fetches, refreshBefore);
  }

  lemma LockedReturnKeeps(s: State, t: Thread, refreshBefore: real)
    requires SharedOk(s, refreshBefore) && t in s.threads && s.threads[t].ReturnLocked?
    requires ThreadOk(s, t, refreshBefore)
    ensures ThreadOk(Next(s, Step(t), refreshBefore), t, refreshBefore)
  {
    if DueAtStart(s, refreshBefore) {
      assert s.log[|s.log| - 1].generation == s.token.value.generation;
    }
  }

  lemma FetchStepKeeps(s: State, t: Thread, refreshBefore: real)
    requires SharedOk(s, refreshBefore) && t in s.threads && ThreadOk(s, t, refreshBefore)
    requires s.threads[t].Received? || s.threads[t].WroteToken? || s.threads[t].WriteExpiry?
    ensures ThreadOk(Next(s, Step(t), refreshBefore), t, refreshBefore)
  {
  }

  lemma OtherStepKeeps(s: State, t: Thread, refreshBefore: real)
    requires SharedOk(s, refreshBefore) && Enabled(s, Step(t)) && ThreadOk(s, t, refreshBefore)
    requires match s.threads[t]
             case CheckToken(_) | ReadClock(_) | WantLock | Releasing(_) | Failing => true
             case _ => false
    ensures ThreadOk(Next(s, Step(t), refreshBefore), t, refreshBefore)
  {
  }

  lemma MoverKeeps(s: State, t: Thread, refreshBefore: real)
    requires SharedOk(s, refreshBefore) && Enabled(s, Step(t)) && ThreadOk(s, t, refreshBefore)
    ensures ThreadOk(Next(s, Step(t), refreshBefore), t, refreshBefore)
  {
    match s.threads[t]
    case ReadExpiry(_, _) => CheckKeeps(s, t, refreshBefore);
    case ReturnUnlocked(_, _) => UnlockedReturnKeeps(s, t, refreshBefore);
    case ReturnLocked => LockedReturnKeeps(s, t, refreshBefore);
    case Received(_, _, _) | WroteToken(_, _) | WriteExpiry(_, _, _) => FetchStepKeeps(s, t, refreshBefore);
    case _ => OtherStepKeeps(s, t, refreshBefore);
  }

  function Mover(a: Action): Option<Thread> {
    if a.Tick? then None else Some(a.t)
  }

  lemma OthersUnaffected(s: State, a: Action, u: Thread, refreshBefore: real)
    requires Inv(s, refreshBefore) && Enabled(s, a) && u in s.threads && Mover(a) != Some(u)
    ensures OwnerUnaffected(s, Next(s, a, refreshBefore), u)
  {
    if a.Step? {
      assert ThreadOk(s, a.t, refreshBefore);
    }
  }

  lemma ThreadKeeps(s: State, a: Action, u: Thread, refreshBefore: real)
    requires Inv(s, refreshBefore) && Enabled(s, a) && u in Next(s, a, refreshBefore).threads
    requires Later(s, Next(s, a, refreshBefore))
    ensures ThreadOk(Next(s, a, refreshBefore), u, refreshBefore)
  {
    assert u in s.threads ==> ThreadOk(s, u, refreshBefore);
    if Mover(a) != Some(u) {
      OthersUnaffected(s, a, u, refreshBefore);
      OthersKeep(s, Next(s, a, refreshBefore), u, refreshBefore);
    } else if a.Step? {
      MoverKeeps(s, u, refreshBefore);
    }
  }

  lemma StepKeepsInv(s: State, a: Action, refreshBefore: real)
    requires Inv(s, refreshBefore) && Enabled(s, a)
    ensures Inv(Next(s, a, refreshBefore), refreshBefore)
  {
    SharedStep(s, a, refreshBefore);
    var s' := Next(s, a, refreshBefore);
    forall u | u in s'.threads ensures ThreadOk(s', u, refreshBefore) {
      ThreadKeeps(s, a, u, refreshBefore);
    }
  }

  // ---------------------------------------------------------------------------------------------
  // Every run.

  lemma {:induction false} RunKeepsInv(s: State, run: seq<Action>, refreshBefore: real)
    requires Inv(s, refreshBefore) && Possible(s, run, refreshBefore)
    ensures Inv(After(s, run, refreshBefore), refreshBefore)
    decreases |run|
  {
    if run != [] {
      StepKeepsInv(s, run[0], refreshBefore);
      RunKeepsInv(Next(s, run[0], refreshBefore), run[1..], refreshBefore);
    }
  }

  lemma {:induction false} StartStays(s: State, run: seq<Action>, refreshBefore: real)
    requires Possible(s, run, refreshBefore)
    ensures After(s, run, refreshBefore).started == s.started
    decreases |run|
  {
    if run != [] {
      StartStays(Next(s, run[0], refreshBefore), run[1..], refreshBefore);
    }
  }

  /** At most one thread is ever inside the token request. */
  lemma MutualExclusion(s: State, run: seq<Action>, refreshBefore: real, t: Thread, u: Thread)
    requires Initial(s) && Possible(s, run, refreshBefore)
    requires var end := After(s, run, refreshBefore);
      t in end.threads && u in end.threads && Inside(end.threads[t]) && Inside(end.threads[u])
    ensures t == u
  {
    RunKeepsInv(s, run, refreshBefore);
    assert ThreadOk(After(s, run, refreshBefore), t, refreshBefore);
    assert ThreadOk(After(s, run, refreshBefore), u, refreshBefore);
  }

  /**
   * Every call that returns returns a token. A token handed out without the lock is at least as new
   * as the one whose expiry was found to be far enough away; a token handed out under the lock is
   * one whose own expiry was stored.
   */
  lemma EveryReturnIsAToken(s: State, run: seq<Action>, refreshBefore: real, t: Thread)
    requires Initial(s) && Possible(s, run, refreshBefore)
    requires var end := After(s, run, refreshBefore); t in end.threads && end.threads[t].Returned?
    ensures var end := After(s, run, refreshBefore);
      var outcome := end.threads[t].outcome;
      outcome.token.Some? &&
      (s.clock >= 0.0 - refreshBefore ==>
        match outcome
        case Locked(token) => Logged(end.log, token.value.generation)
        case Unlocked(token, fetches, at) =>
          && 0 < fetches <= |end.log|
          && at < end.log[fetches - 1].expiry - refreshBefore
          && token.value.generation >= end.log[fetches - 1].generation)
  {
    StartStays(s, run, refreshBefore);
    RunKeepsInv(s, run, refreshBefore);
    assert ThreadOk(After(s, run, refreshBefore), t, refreshBefore);
  }

  /** A thread starts a request only when no expiry is stored or the clock is near the stored one. */
  lemma FetchOnlyWhenDue(s: State, run: seq<Action>, a: Action, refreshBefore: real)
    requires Initial(s) && Possible(s, run, refreshBefore)
    requires Enabled(After(s, run, refreshBefore), a) && a.Step?
    requires Next(After(s, run, refreshBefore), a, refreshBefore).threads[a.t].Fetching?
    ensures var before := After(s, run, refreshBefore);
      && before.lock == Some(a.t)
      && (before.token == None || before.clock >= before.expiresAt - refreshBefore)
  {
    RunKeepsInv(s, run, refreshBefore);
    assert ThreadOk(After(s, run, refreshBefore), a.t, refreshBefore);
  }

  /** The lifetimes of the first `n` tokens, each shortened by the refresh margin. */
  function Spare(log: seq<Fetch>, n: nat, refreshBefore: real): real
    requires n <= |log|
  {
    if n == 0 then 0.0 else Spare(log, n - 1, refreshBefore) + log[n - 1].expiresIn - refreshBefore
  }

  lemma {:induction false} SpacingInLog(log: seq<Fetch>, n: nat, refreshBefore: real)
    requires LogOk(log, refreshBefore) && n < |log|
    ensures log[n].start >= log[0].start + Spare(log, n, refreshBefore)
  {
    if n > 0 {
      SpacingInLog(log, n - 1, refreshBefore);
      assert Follows(log[n - 1], log[n], refreshBefore);
    }
  }

  /** However many threads call, requests are as rare as the granted lifetimes allow. */
  lemma RequestsAreSpaced(s: State, run: seq<Action>, n: nat, refreshBefore: real)
    requires Initial(s) && Possible(s, run, refreshBefore) && n < |After(s, run, refreshBefore).log|
    ensures var log := After(s, run, refreshBefore).log;
      log[n].start >= log[0].start + Spare(log, n, refreshBefore)
  {
    RunKeepsInv(s, run, refreshBefore);
    SpacingInLog(After(s, run, refreshBefore).log, n, refreshBefore);
  }

  // ---------------------------------------------------------------------------------------------
  // Progress.

  predicate CanMove(s: State, t: Thread) {
    Enabled(s, Step(t)) || (t in s.threads && s.threads[t].Fetching?)
  }

  /** As long as a call is in progress, some thread can move or is waiting for a response. */
  lemma NoDeadlock(s: State, run: seq<Action>, refreshBefore: real, t: Thread)
    requires Initial(s) && Possible(s, run, refreshBefore)
    requires var end := After(s, run, refreshBefore); t in end.threads && !Finished(end.threads[t])
    ensures exists u :: CanMove(After(s, run, refreshBefore), u)
  {
    RunKeepsInv(s, run, refreshBefore);
    var end := After(s, run, refreshBefore);
    var u := if end.lock.Some? then end.lock.value else t;
    assert ThreadOk(end, u, refreshBefore);
    assert CanMove(end, u);
  }

  /** An upper bound on the steps a call still has to take. */
  function Remaining(pc: Pc): nat {
    match pc
    case CheckToken(locked) => if locked then 10 else 14
    case ReadClock(locked) => if locked then 9 else 13
    case ReadExpiry(locked, _) => if locked then 8 else 12
    case WantLock => 11
    case Fetching(_) => 7
    case Received(_, _, _) => 6
    case WroteToken(_, _) => 5
    case WriteExpiry(_, _, _) => 4
    case ReturnLocked => 3
    case Releasing(_) => 2
    case ReturnUnlocked(_, _) => 1
    case Failing => 1
    case Returned(_) => 0
    case Raised => 0
  }

  function OwnSteps(run: seq<Action>, t: Thread): nat {
    if run == [] then 0 else (if Mover(run[0]) == Some(t) then 1 else 0) + OwnSteps(run[1..], t)
  }

  lemma OneStep(s: State, a: Action, refreshBefore: real, t: Thread)
    requires Enabled(s, a) && t in s.threads && a != Call(t)
    ensures t in Next(s, a, refreshBefore).threads
    ensures (if Mover(a) == Some(t) then 1 else 0) + Remaining(Next(s, a, refreshBefore).threads[t])
         <= Remaining(s.threads[t])
  {
  }

  /** Every call ends after at most fourteen of its own steps, whatever the other threads do. */
  lemma {:induction false} CallsAreShort(s: State, run: seq<Action>, refreshBefore: real, t: Thread)
    requires Possible(s, run, refreshBefore) && t in s.threads && Call(t) !in run
    ensures t in After(s, run, refreshBefore).threads
    ensures OwnSteps(run, t) + Remaining(After(s, run, refreshBefore).threads[t]) <= Remaining(s.threads[t]) <= 14
    decreases |run|
  {
    if run != [] {
      OneStep(s, run[0], refreshBefore, t);
      CallsAreShort(Next(s, run[0], refreshBefore), run[1..], refreshBefore, t);
    }
  }

  // ---------------------------------------------------------------------------------------------
  // Exactly which margins keep every token dated.

  lemma {:induction false} RunSnoc(s: State, run: seq<Action>, a: Action, refreshBefore: real)
    requires Possible(s, run, refreshBefore) && Enabled(After(s, run, refreshBefore), a)
    ensures Possible(s, run + [a], refreshBefore)
    ensures After(s, run + [a], refreshBefore) == Next(After(s, run, refreshBefore), a, refreshBefore)
    decreases |run|
  {
    if run == [] {
      assert run + [a] == [a];
    } else {
      RunSnoc(Next(s, run[0], refreshBefore), run[1..], a, refreshBefore);
      assert (run + [a])[1..] == run[1..] + [a];
    }
  }

  /** One call whose response has an unusable lifetime, then a second call. */
  const SCRIPT := [
    Call(0), Step(0), Step(0), Step(0), Respond(0, "token", Some(300.0)), Step(0), Fail(0), Step(0),
    Call(0), Step(0), Step(0), Step(0), Step(0)]

  function Pcs(n: nat, clock: real): Pc
    requires n < |SCRIPT|
  {
    [CheckToken(false), WantLock, CheckToken(true), Fetching(clock), Received(clock, "token", Some(300.0)),
     WroteToken(clock, Some(300.0)), Failing, Raised, CheckToken(false), ReadClock(false), ReadExpiry(false, clock),
     ReturnUnlocked(0, clock), Returned(Unlocked(Some(Token("token", 1)), 0, clock))][n]
  }

  function ScriptState(n: nat, clock: real): State
    requires n < |SCRIPT|
  {
    var lock := if 2 <= n < 7 then Some(0) else None;
    if n < 5 then State(None, 0.0, lock, clock, map[0 := Pcs(n, clock)], 0, [], clock)
    else State(Some(Token("token", 1)), 0.0, lock, clock, map[0 := Pcs(n, clock)], 1, [], clock)
  }

  lemma ScriptStep(n: nat, clock: real, refreshBefore: real)
    requires 0 < n < |SCRIPT| && clock < 0.0 - refreshBefore
    ensures Enabled(ScriptState(n - 1, clock), SCRIPT[n])
    ensures Next(ScriptState(n - 1, clock), SCRIPT[n], refreshBefore) == ScriptState(n, clock)
  {
  }

  lemma {:induction false} ScriptRuns(s: State, n: nat, refreshBefore: real)
    requires Initial(s) && n < |SCRIPT| && !DueAtStart(s, refreshBefore)
    ensures Possible(s, SCRIPT[..n + 1], refreshBefore)
    ensures After(s, SCRIPT[..n + 1], refreshBefore) == ScriptState(n, s.clock)
  {
    if n == 0 {
      assert SCRIPT[..1] == [Call(0)];
    } else {
      ScriptRuns(s, n - 1, refreshBefore);
      ScriptStep(n, s.clock, refreshBefore);
      RunSnoc(s, SCRIPT[..n], SCRIPT[n], refreshBefore);
      assert SCRIPT[..n] + [SCRIPT[n]] == SCRIPT[..n + 1];
    }
  }

  /** A token returned without the lock had some stored expiry to be compared with. */
  predicate DatedReturn(s: State, t: Thread) {
    t in s.threads && s.threads[t].Returned? && s.threads[t].outcome.Unlocked? ==> s.threads[t].outcome.fetches > 0
  }

  ghost predicate AlwaysDated(s: State, refreshBefore: real) {
    forall run, t :: Possible(s, run, refreshBefore) ==> DatedReturn(After(s, run, refreshBefore), t)
  }

  lemma DatedWhenDue(s: State, run: seq<Action>, refreshBefore: real, t: Thread)
    requires Initial(s) && DueAtStart(s, refreshBefore) && Possible(s, run, refreshBefore)
    ensures DatedReturn(After(s, run, refreshBefore), t)
  {
    if t in After(s, run, refreshBefore).threads && After(s, run, refreshBefore).threads[t].Returned? {
      EveryReturnIsAToken(s, run, refreshBefore, t);
    }
  }

  lemma ScriptEnds(clock: real)
    ensures !DatedReturn(ScriptState(12, clock), 0)
  {
  }

  lemma UndatedWhenNotDue(s: State, refreshBefore: real) returns (run: seq<Action>)
    requires Initial(s) && !DueAtStart(s, refreshBefore)
    ensures Possible(s, run, refreshBefore) && !DatedReturn(After(s, run, refreshBefore), 0)
  {
    run := SCRIPT[..12 + 1];
    ScriptRuns(s, 12, refreshBefore);
    ScriptEnds(s.clock);
  }

  /**
   * Every token handed out without the lock, in every run, has had an expiry stored before if and
   * only if the clock had reached minus the margin when the provider was made.
   */
  lemma MarginKeepsTokensDated(s: State, refreshBefore: real)
    requires Initial(s)
    ensures AlwaysDated(s, refreshBefore) <==> s.clock >= 0.0 - refreshBefore
  {
    if DueAtStart(s, refreshBefore) {
      forall run, t | Possible(s, run, refreshBefore) ensures DatedReturn(After(s, run, refreshBefore), t) {
        DatedWhenDue(s, run, refreshBefore, t);
      }
    } else {
      var run := UndatedWhenNotDue(s, refreshBefore);
    }
  }

  /** With a clock that starts at zero these are the margins that are not negative. */
  lemma NegativeMarginLosesExpiry(s: State, refreshBefore: real)
    requires Initial(s) && s.clock == 0.0
    ensures AlwaysDated(s, refreshBefore) <==> refreshBefore >= 0.0
  {
    MarginKeepsTokensDated(s, refreshBefore);
  }
}
