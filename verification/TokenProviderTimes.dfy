/** When tokens expire, by the responses that granted them and the clock alone. */
module TokenProviderTimes {
  import opened Results
  import opened TokenProvider
  import opened TokenProviderRuns

  // ------------------------------------------------- what can be read off a run

  /** The clock after the first `n` actions, when it stood at `start` before them. */
  function ClockAt(start: real, run: seq<Action>, n: nat): real
    requires n <= |run|
  {
    if n == 0 then start
    else ClockAt(start, run, n - 1) + (if run[n - 1].Tick? then run[n - 1].delta else 0.0)
  }

  /** How many of the actions from `a` up to `b` are moves of thread `t`. */
  function Moves(run: seq<Action>, a: nat, b: nat, t: Thread): nat
    requires b <= |run|
  {
    if b <= a then 0 else Moves(run, a, b - 1, t) + (if Mover(run[b - 1]) == Some(t) then 1 else 0)
  }

  /** How many of the first `n` actions are responses. */
  function Responses(run: seq<Action>, n: nat): nat
    requires n <= |run|
  {
    if n == 0 then 0 else Responses(run, n - 1) + (if run[n - 1].Respond? then 1 else 0)
  }

  /** The lifetime a response grants: five minutes where it says nothing. */
  function Granted(a: Action): real
    requires a.Respond?
  {
    if a.granted.Some? then a.granted.value else 300.0
  }

  /** Response `i` reached a thread that has since made `moves` moves, none of them a failure. */
  predicate Answered(run: seq<Action>, i: nat, n: nat, moves: nat) {
    && i < n <= |run| && run[i].Respond? && Moves(run, i + 1, n, run[i].t) == moves
    && forall k :: i < k < n ==> run[k] != Fail(run[i].t)
  }

  /**
   * Action `j` is the third move of the thread that response `i` reached: the last of a fetch, after
   * the token was stored and the clock read.
   */
  predicate Completes(run: seq<Action>, i: nat, j: nat) {
    j < |run| && Answered(run, i, j, 2) && run[j] == Step(run[i].t)
  }

  /** The expiry fits a token granted by response `i` and dated by action `j`. */
  predicate Expires(start: real, run: seq<Action>, i: nat, j: nat, expiry: real)
    requires i < |run| && j <= |run| && run[i].Respond?
  {
    ClockAt(start, run, i) + Granted(run[i]) <= expiry <= ClockAt(start, run, j) + Granted(run[i])
  }

  // ------------------------------------------------- runs step by step

  lemma {:induction false} Prefix(s: State, run: seq<Action>, n: nat, refreshBefore: real)
    requires Possible(s, run, refreshBefore) && n <= |run|
    ensures Possible(s, run[..n], refreshBefore)
    ensures n < |run| ==>
              && Enabled(After(s, run[..n], refreshBefore), run[n]) && Possible(s, run[..n + 1], refreshBefore)
              && After(s, run[..n + 1], refreshBefore) == Next(After(s, run[..n], refreshBefore), run[n], refreshBefore)
    decreases |run|
  {
    if n == 0 {
      assert run != [] ==> run[..1] == [run[0]];
    } else {
      Prefix(Next(s, run[0], refreshBefore), run[1..], n - 1, refreshBefore);
      assert run[..n][1..] == run[1..][..n - 1];
      assert n < |run| ==> run[..n + 1][1..] == run[1..][..n];
    }
  }

  /** The state after the first `n` actions. */
  ghost function At(s: State, run: seq<Action>, n: nat, refreshBefore: real): State
    requires Possible(s, run, refreshBefore) && n <= |run|
  {
    Prefix(s, run, n, refreshBefore);
    After(s, run[..n], refreshBefore)
  }

  lemma AtNext(s: State, run: seq<Action>, n: nat, refreshBefore: real)
    requires Possible(s, run, refreshBefore) && n < |run|
    ensures Enabled(At(s, run, n, refreshBefore), run[n])
    ensures At(s, run, n + 1, refreshBefore) == Next(At(s, run, n, refreshBefore), run[n], refreshBefore)
  {
    Prefix(s, run, n, refreshBefore);
  }

  lemma AtInv(s: State, run: seq<Action>, n: nat, refreshBefore: real)
    requires Initial(s) && Possible(s, run, refreshBefore) && n <= |run|
    ensures Inv(At(s, run, n, refreshBefore), refreshBefore)
  {
    Prefix(s, run, n, refreshBefore);
    RunKeepsInv(s, run[..n], refreshBefore);
  }

  lemma {:induction false} ClockIsClock(s: State, run: seq<Action>, n: nat, refreshBefore: real)
    requires Possible(s, run, refreshBefore) && n <= |run|
    ensures At(s, run, n, refreshBefore).clock == ClockAt(s.clock, run, n)
  {
    if n > 0 {
      ClockIsClock(s, run, n - 1, refreshBefore);
      AtNext(s, run, n - 1, refreshBefore);
    }
  }

  lemma {:induction false} ClockGrows(start: real, run: seq<Action>, m: nat, n: nat)
    requires m <= n <= |run| && forall a :: a in run && a.Tick? ==> a.delta >= 0.0
    ensures ClockAt(start, run, m) <= ClockAt(start, run, n)
  {
    if m < n {
      assert run[n - 1] in run;
      ClockGrows(start, run, m, n - 1);
    }
  }

  lemma {:induction false} TicksForward(s: State, run: seq<Action>, refreshBefore: real)
    requires Possible(s, run, refreshBefore)
    ensures forall a :: a in run && a.Tick? ==> a.delta >= 0.0
    decreases |run|
  {
    if run != [] {
      TicksForward(Next(s, run[0], refreshBefore), run[1..], refreshBefore);
      assert run == [run[0]] + run[1..];
    }
  }

  // ------------------------------------------------- from a response to its last write

  /** Where the thread stands, and what it carries, after so many moves. */
  predicate Carries(st: State, start: real, run: seq<Action>, i: nat, n: nat, moves: nat)
    requires i < n <= |run| && run[i].Respond?
  {
    run[i].t in st.threads &&
    match st.threads[run[i].t]
    case Received(_, text, granted) => moves == 0 && text == run[i].text && granted == run[i].granted
    case WroteToken(_, granted) => moves == 1 && granted == run[i].granted && Stores(st, run[i].text)
    case WriteExpiry(_, expiresIn, now) =>
      && moves == 2 && expiresIn == Granted(run[i]) && Stores(st, run[i].text)
      && ClockAt(start, run, i) <= now <= ClockAt(start, run, n)
    case _ => false
  }

  predicate Stores(st: State, text: string) {
    st.token.Some? && st.token.value.text == text
  }

  lemma CarriesOn(s: State, run: seq<Action>, i: nat, n: nat, refreshBefore: real)
    requires Initial(s) && Possible(s, run, refreshBefore) && i < n < |run| && run[i].Respond?
    requires run[n] != Fail(run[i].t) && Moves(run, i + 1, n + 1, run[i].t) <= 2
    requires Carries(At(s, run, n, refreshBefore), s.clock, run, i, n, Moves(run, i + 1, n, run[i].t))
    ensures Carries(At(s, run, n + 1, refreshBefore), s.clock, run, i, n + 1, Moves(run, i + 1, n + 1, run[i].t))
  {
    var st, t := At(s, run, n, refreshBefore), run[i].t;
    AtNext(s, run, n, refreshBefore);
    AtInv(s, run, n, refreshBefore);
    ClockIsClock(s, run, n, refreshBefore);
    TicksForward(s, run, refreshBefore);
    ClockGrows(s.clock, run, i, n);
    ClockGrows(s.clock, run, n, n + 1);
    assert ThreadOk(st, t, refreshBefore);
    if run[n].Step? && run[n].t != t {
      assert ThreadOk(st, run[n].t, refreshBefore);
    }
  }

  /** Nobody comes between a response and the last write of its fetch. */
  lemma {:induction false} FetchProgress(s: State, run: seq<Action>, i: nat, n: nat, moves: nat, refreshBefore: real)
    requires Initial(s) && Possible(s, run, refreshBefore) && Answered(run, i, n, moves) && moves <= 2
    ensures Carries(At(s, run, n, refreshBefore), s.clock, run, i, n, moves)
  {
    if n == i + 1 {
      AtNext(s, run, i, refreshBefore);
    } else {
      FetchProgress(s, run, i, n - 1, Moves(run, i + 1, n - 1, run[i].t), refreshBefore);
      CarriesOn(s, run, i, n - 1, refreshBefore);
    }
  }

  /**
   * Every completed fetch stores the token of its response and an expiry between the clock at the
   * response and the clock at the last write, each plus the lifetime granted.
   */
  lemma FetchIsDated(s: State, run: seq<Action>, i: nat, j: nat, refreshBefore: real)
    requires Initial(s) && Possible(s, run, refreshBefore) && Completes(run, i, j)
    ensures var st := At(s, run, j + 1, refreshBefore);
      Expires(s.clock, run, i, j, st.expiresAt) && Stores(st, run[i].text)
  {
    FetchProgress(s, run, i, j, 2, refreshBefore);
    AtNext(s, run, j, refreshBefore);
  }

  // ------------------------------------------------- from the state back to the responses

  /** Response number `generation` of the first `n` actions carried this text. */
  ghost predicate Heard(run: seq<Action>, n: nat, token: Token)
    requires n <= |run|
  {
    exists i :: 0 <= i < n && run[i].Respond? && run[i].text == token.text && Responses(run, i + 1) == token.generation
  }

  /** The last response so far reached thread `t`, which has made so many moves since. */
  ghost predicate LastAnswered(run: seq<Action>, n: nat, t: Thread, moves: nat)
    requires n <= |run|
  {
    exists i :: 0 <= i < n && Answered(run, i, n, moves) && run[i].t == t && Responses(run, i + 1) == Responses(run, n)
  }

  /** The completed fetch is one whose response and last write are among the first `n` actions. */
  ghost predicate Dates(start: real, run: seq<Action>, n: nat, f: Fetch)
    requires n <= |run|
  {
    exists i, j :: 0 <= i < j < n && Completes(run, i, j) && Responses(run, i + 1) == f.generation
                   && Expires(start, run, i, j, f.expiry)
  }

  /** Action `c` is a step of the call that thread `t` is in, or has just ended. */
  predicate InCall(run: seq<Action>, c: nat, n: nat, t: Thread) {
    c < n <= |run| && run[c] == Step(t) && forall k :: c < k < n ==> run[k] != Call(t)
  }

  /** The call of thread `t` read the clock. */
  ghost predicate ReadClockAs(start: real, run: seq<Action>, n: nat, t: Thread, now: real)
    requires n <= |run|
  {
    exists c :: 0 <= c < n && InCall(run, c, n, t) && ClockAt(start, run, c) == now
  }

  ghost predicate OutcomeTimes(start: real, run: seq<Action>, n: nat, t: Thread, outcome: Outcome)
    requires n <= |run|
  {
    && (outcome.token.Some? ==> Heard(run, n, outcome.token.value))
    && (outcome.Unlocked? ==> ReadClockAs(start, run, n, t, outcome.at))
  }

  ghost predicate ThreadTimes(st: State, start: real, run: seq<Action>, n: nat, t: Thread)
    requires t in st.threads && n <= |run|
  {
    match st.threads[t]
    case ReadExpiry(_, now) => ReadClockAs(start, run, n, t, now)
    case ReturnUnlocked(_, at) => ReadClockAs(start, run, n, t, at)
    case Received(_, _, _) => LastAnswered(run, n, t, 0)
    case WroteToken(_, _) => LastAnswered(run, n, t, 1)
    case WriteExpiry(_, _, _) => LastAnswered(run, n, t, 2)
    case Releasing(result) => result.Some? ==> Heard(run, n, result.value)
    case Returned(outcome) => OutcomeTimes(start, run, n, t, outcome)
    case _ => true
  }

  /** A response has arrived whose token is not stored yet. */
  predicate Pending(st: State) {
    st.lock.Some? && st.lock.value in st.threads && st.threads[st.lock.value].Received?
  }

  ghost predicate SharedTimes(st: State, start: real, run: seq<Action>, n: nat)
    requires n <= |run|
  {
    && st.stored + (if Pending(st) then 1 else 0) == Responses(run, n)
    && (st.token.Some? ==> Heard(run, n, st.token.value))
    && forall k :: 0 <= k < |st.log| ==> Dates(start, run, n, st.log[k])
  }

  ghost predicate Times(st: State, start: real, run: seq<Action>, n: nat)
    requires n <= |run|
  {
    SharedTimes(st, start, run, n) && forall t :: t in st.threads ==> ThreadTimes(st, start, run, n, t)
  }

  lemma HeardStays(run: seq<Action>, n: nat, token: Token)
    requires n < |run| && Heard(run, n, token)
    ensures Heard(run, n + 1, token)
  {
  }

  lemma DatesStay(start: real, run: seq<Action>, n: nat, f: Fetch)
    requires n < |run| && Dates(start, run, n, f)
    ensures Dates(start, run, n + 1, f)
  {
  }

  lemma ReadClockStays(start: real, run: seq<Action>, n: nat, t: Thread, now: real)
    requires n < |run| && ReadClockAs(start, run, n, t, now) && run[n] != Call(t)
    ensures ReadClockAs(start, run, n + 1, t, now)
  {
    var c :| 0 <= c < n && InCall(run, c, n, t) && ClockAt(start, run, c) == now;
    assert InCall(run, c, n + 1, t);
  }

  lemma AnsweredMoves(run: seq<Action>, n: nat, t: Thread, moves: nat)
    requires n < |run| && LastAnswered(run, n, t, moves) && !run[n].Respond? && run[n] != Fail(t)
    ensures LastAnswered(run, n + 1, t, moves + if Mover(run[n]) == Some(t) then 1 else 0)
  {
    var i :| 0 <= i < n && Answered(run, i, n, moves) && run[i].t == t && Responses(run, i + 1) == Responses(run, n);
    assert Answered(run, i, n + 1, moves + if Mover(run[n]) == Some(t) then 1 else 0);
  }

  lemma JustAnswered(run: seq<Action>, n: nat)
    requires n < |run| && run[n].Respond?
    ensures LastAnswered(run, n + 1, run[n].t, 0)
  {
    assert Answered(run, n, n + 1, 0);
  }

  lemma OutcomeTimesStay(start: real, run: seq<Action>, n: nat, t: Thread, outcome: Outcome)
    requires n < |run| && OutcomeTimes(start, run, n, t, outcome) && run[n] != Call(t)
    ensures OutcomeTimes(start, run, n + 1, t, outcome)
  {
    if outcome.token.Some? {
      HeardStays(run, n, outcome.token.value);
    }
    if outcome.Unlocked? {
      ReadClockStays(start, run, n, t, outcome.at);
    }
  }

  /** A thread that does not move keeps its part. */
  lemma OthersTimes(st: State, next: State, start: real, run: seq<Action>, n: nat, u: Thread)
    requires n < |run| && u in st.threads && u in next.threads && st.threads[u] == next.threads[u]
    requires ThreadTimes(st, start, run, n, u) && Mover(run[n]) != Some(u)
    requires Inside(st.threads[u]) ==> !run[n].Respond?
    ensures ThreadTimes(next, start, run, n + 1, u)
  {
    match st.threads[u]
    case ReadExpiry(_, now) => ReadClockStays(start, run, n, u, now);
    case ReturnUnlocked(_, at) => ReadClockStays(start, run, n, u, at);
    case Received(_, _, _) => AnsweredMoves(run, n, u, 0);
    case WroteToken(_, _) => AnsweredMoves(run, n, u, 1);
    case WriteExpiry(_, _, _) => AnsweredMoves(run, n, u, 2);
    case Releasing(result) => if result.Some? { HeardStays(run, n, result.value); }
    case Returned(outcome) => OutcomeTimesStay(start, run, n, u, outcome);
    case _ =>
  }

  lemma MoverTimes(st: State, start: real, run: seq<Action>, n: nat, t: Thread, refreshBefore: real)
    requires n < |run| && run[n] == Step(t) && Enabled(st, run[n]) && Times(st, start, run, n)
    requires st.clock == ClockAt(start, run, n)
    ensures ThreadTimes(Next(st, run[n], refreshBefore), start, run, n + 1, t)
  {
    assert ThreadTimes(st, start, run, n, t);
    match st.threads[t]
    case ReadClock(_) =>
      assert InCall(run, n, n + 1, t);
    case ReadExpiry(_, now) => ReadClockStays(start, run, n, t, now);
    case ReturnUnlocked(_, at) =>
      ReadClockStays(start, run, n, t, at);
      if st.token.Some? {
        HeardStays(run, n, st.token.value);
      }
    case Received(_, _, _) => AnsweredMoves(run, n, t, 0);
    case WroteToken(_, _) => AnsweredMoves(run, n, t, 1);
    case ReturnLocked =>
      if st.token.Some? {
        HeardStays(run, n, st.token.value);
      }
    case Releasing(result) =>
      if result.Some? {
        HeardStays(run, n, result.value);
      }
    case _ =>
  }

  lemma ThreadsTimes(st: State, start: real, run: seq<Action>, n: nat, u: Thread, refreshBefore: real)
    requires n < |run| && Enabled(st, run[n]) && Inv(st, refreshBefore) && Times(st, start, run, n)
    requires st.clock == ClockAt(start, run, n) && u in Next(st, run[n], refreshBefore).threads
    ensures ThreadTimes(Next(st, run[n], refreshBefore), start, run, n + 1, u)
  {
    if Mover(run[n]) != Some(u) {
      assert ThreadOk(st, u, refreshBefore) && ThreadTimes(st, start, run, n, u);
      if run[n].Respond? {
        assert ThreadOk(st, run[n].t, refreshBefore);
      }
      OthersTimes(st, Next(st, run[n], refreshBefore), start, run, n, u);
    } else if run[n].Step? {
      MoverTimes(st, start, run, n, u, refreshBefore);
    } else if run[n].Respond? {
      JustAnswered(run, n);
    }
  }

  lemma StoredTimes(st: State, start: real, run: seq<Action>, n: nat, refreshBefore: real)
    requires n < |run| && Enabled(st, run[n]) && Inv(st, refreshBefore) && Times(st, start, run, n)
    ensures var next := Next(st, run[n], refreshBefore);
      next.stored + (if Pending(next) then 1 else 0) == Responses(run, n + 1)
  {
    if Mover(run[n]).Some? && run[n].t in st.threads {
      assert ThreadOk(st, run[n].t, refreshBefore);
    }
  }

  lemma TokenTimes(s: State, run: seq<Action>, n: nat, refreshBefore: real)
    requires Initial(s) && Possible(s, run, refreshBefore) && n < |run|
    requires Times(At(s, run, n, refreshBefore), s.clock, run, n)
    ensures var next := At(s, run, n + 1, refreshBefore); next.token.Some? ==> Heard(run, n + 1, next.token.value)
  {
    var st, a := At(s, run, n, refreshBefore), run[n];
    AtNext(s, run, n, refreshBefore);
    AtInv(s, run, n, refreshBefore);
    if a.Step? && st.threads[a.t].Received? {
      assert ThreadOk(st, a.t, refreshBefore) && ThreadTimes(st, s.clock, run, n, a.t);
      var i :| 0 <= i < n && Answered(run, i, n, 0) && run[i].t == a.t && Responses(run, i + 1) == Responses(run, n);
      FetchProgress(s, run, i, n, 0, refreshBefore);
      assert Pending(st);
    } else if st.token.Some? {
      HeardStays(run, n, st.token.value);
    }
  }

  lemma LogTimes(s: State, run: seq<Action>, n: nat, refreshBefore: real)
    requires Initial(s) && Possible(s, run, refreshBefore) && n < |run|
    requires Times(At(s, run, n, refreshBefore), s.clock, run, n)
    ensures var log := At(s, run, n + 1, refreshBefore).log;
      forall k :: 0 <= k < |log| ==> Dates(s.clock, run, n + 1, log[k])
  {
    var st, a := At(s, run, n, refreshBefore), run[n];
    AtNext(s, run, n, refreshBefore);
    AtInv(s, run, n, refreshBefore);
    forall k | 0 <= k < |st.log| ensures Dates(s.clock, run, n + 1, st.log[k]) {
      DatesStay(s.clock, run, n, st.log[k]);
    }
    if a.Step? && st.threads[a.t].WriteExpiry? {
      assert ThreadOk(st, a.t, refreshBefore) && ThreadTimes(st, s.clock, run, n, a.t);
      var i :| 0 <= i < n && Answered(run, i, n, 2) && run[i].t == a.t && Responses(run, i + 1) == Responses(run, n);
      FetchIsDated(s, run, i, n, refreshBefore);
      assert !Pending(st) && Completes(run, i, n);
    }
  }

  lemma {:induction false} TimesHold(s: State, run: seq<Action>, n: nat, refreshBefore: real)
    requires Initial(s) && Possible(s, run, refreshBefore) && n <= |run|
    ensures Times(At(s, run, n, refreshBefore), s.clock, run, n)
  {
    if n > 0 {
      var st, m := At(s, run, n - 1, refreshBefore), n - 1;
      TimesHold(s, run, m, refreshBefore);
      AtNext(s, run, m, refreshBefore);
      AtInv(s, run, m, refreshBefore);
      ClockIsClock(s, run, m, refreshBefore);
      StoredTimes(st, s.clock, run, m, refreshBefore);
      TokenTimes(s, run, m, refreshBefore);
      LogTimes(s, run, m, refreshBefore);
      var next := At(s, run, n, refreshBefore);
      forall u | u in next.threads ensures ThreadTimes(next, s.clock, run, n, u) {
        ThreadsTimes(st, s.clock, run, m, u, refreshBefore);
      }
    }
  }

  // ------------------------------------------------- the results

  lemma {:induction false} ResponsesGrow(run: seq<Action>, m: nat, n: nat)
    requires m <= n <= |run|
    ensures Responses(run, m) <= Responses(run, n)
  {
    if m < n {
      ResponsesGrow(run, m, n - 1);
    }
  }

  /** Nothing but the last write of a fetch changes the stored expiry. */
  lemma OnlyFetchesDate(s: State, run: seq<Action>, n: nat, refreshBefore: real)
    requires Initial(s) && Possible(s, run, refreshBefore) && n < |run|
    requires At(s, run, n + 1, refreshBefore).expiresAt != At(s, run, n, refreshBefore).expiresAt
    ensures exists i: nat :: Completes(run, i, n)
  {
    TimesHold(s, run, n, refreshBefore);
    AtNext(s, run, n, refreshBefore);
    assert ThreadTimes(At(s, run, n, refreshBefore), s.clock, run, n, run[n].t);
    var i :| 0 <= i < n && Answered(run, i, n, 2) && run[i].t == run[n].t;
    assert Completes(run, i, n);
  }

  /**
   * A token handed out without the lock is that of response `r`, which came no earlier than response
   * `i`; the call read the clock, in its step `c`, before the time at which the fetch of response `i`
   * was written plus the lifetime granted less the margin.
   */
  lemma UnlockedReturnIsInTime(s: State, run: seq<Action>, t: Thread, refreshBefore: real)
      returns (i: nat, j: nat, c: nat, r: nat)
    requires Initial(s) && Possible(s, run, refreshBefore) && s.clock >= 0.0 - refreshBefore
    requires var end := After(s, run, refreshBefore);
      t in end.threads && end.threads[t].Returned? && end.threads[t].outcome.Unlocked?
    ensures Completes(run, i, j) && InCall(run, c, |run|, t)
    ensures ClockAt(s.clock, run, c) < ClockAt(s.clock, run, j) + Granted(run[i]) - refreshBefore
    ensures i <= r < |run| && run[r].Respond?
    ensures var token := After(s, run, refreshBefore).threads[t].outcome.token;
      token.Some? && token.value.text == run[r].text
  {
    var n := |run|;
    assert run[..n] == run;
    var end := At(s, run, n, refreshBefore);
    var outcome := end.threads[t].outcome;
    TimesHold(s, run, n, refreshBefore);
    assert ThreadTimes(end, s.clock, run, n, t);
    EveryReturnIsAToken(s, run, refreshBefore, t);
    var f := end.log[outcome.fetches - 1];
    assert Dates(s.clock, run, n, f);
    i, j :| 0 <= i < j < n && Completes(run, i, j) && Responses(run, i + 1) == f.generation
            && Expires(s.clock, run, i, j, f.expiry);
    c :| 0 <= c < n && InCall(run, c, n, t) && ClockAt(s.clock, run, c) == outcome.at;
    r :| 0 <= r < n && run[r].Respond? && run[r].text == outcome.token.value.text
         && Responses(run, r + 1) == outcome.token.value.generation;
    if r < i {
      ResponsesGrow(run, r + 1, i);
    }
  }

  /** The response to a completed fetch carried the token of that number. */
  lemma ResponseOfFetch(start: real, run: seq<Action>, n: nat, f: Fetch, token: Token) returns (i: nat, j: nat)
    requires n <= |run| && Dates(start, run, n, f) && Heard(run, n, token) && f.generation == token.generation
    ensures Completes(run, i, j) && run[i].text == token.text
  {
    i, j :| 0 <= i < j < n && Completes(run, i, j) && Responses(run, i + 1) == f.generation;
    var r :| 0 <= r < n && run[r].Respond? && run[r].text == token.text && Responses(run, r + 1) == token.generation;
    if r < i {
      ResponsesGrow(run, r + 1, i);
    } else if i < r {
      ResponsesGrow(run, i + 1, r);
    }
  }

  /** A token handed out under the lock is one whose fetch had been completed. */
  lemma LockedReturnIsDated(s: State, run: seq<Action>, t: Thread, refreshBefore: real) returns (i: nat, j: nat)
    requires Initial(s) && Possible(s, run, refreshBefore) && s.clock >= 0.0 - refreshBefore
    requires var end := After(s, run, refreshBefore);
      t in end.threads && end.threads[t].Returned? && end.threads[t].outcome.Locked?
    ensures Completes(run, i, j)
    ensures var token := After(s, run, refreshBefore).threads[t].outcome.token;
      token.Some? && token.value.text == run[i].text
  {
    var n := |run|;
    assert run[..n] == run;
    var end := At(s, run, n, refreshBefore);
    var token := end.threads[t].outcome.token;
    TimesHold(s, run, n, refreshBefore);
    assert ThreadTimes(end, s.clock, run, n, t);
    EveryReturnIsAToken(s, run, refreshBefore, t);
    var k :| 0 <= k < |end.log| && end.log[k].generation == token.value.generation;
    i, j := ResponseOfFetch(s.clock, run, n, end.log[k], token.value);
  }

  /** The thread's present or last call has failed. */
  ghost predicate HasFailed(run: seq<Action>, n: nat, t: Thread)
    requires n <= |run|
  {
    exists k :: 0 <= k < n && run[k] == Fail(t) && forall l :: k < l < n ==> run[l] != Call(t)
  }

  lemma FailureStays(run: seq<Action>, n: nat, t: Thread)
    requires n < |run| && HasFailed(run, n, t) && run[n] != Call(t)
    ensures HasFailed(run, n + 1, t)
  {
    var k :| 0 <= k < n && run[k] == Fail(t) && forall l :: k < l < n ==> run[l] != Call(t);
    assert forall l :: k < l < n + 1 ==> run[l] != Call(t);
  }

  /** A call ends without a token only if its request, or the lifetime in its response, has failed. */
  lemma {:induction false} RaisesAfterFailure(s: State, run: seq<Action>, n: nat, t: Thread, refreshBefore: real)
    requires Initial(s) && Possible(s, run, refreshBefore) && n <= |run|
    requires var st := At(s, run, n, refreshBefore);
      t in st.threads && (st.threads[t].Failing? || st.threads[t].Raised?)
    ensures HasFailed(run, n, t)
  {
    if n > 0 {
      var st := At(s, run, n - 1, refreshBefore);
      AtNext(s, run, n - 1, refreshBefore);
      if run[n - 1] != Fail(t) {
        RaisesAfterFailure(s, run, n - 1, t, refreshBefore);
        FailureStays(run, n - 1, t);
      }
    }
  }

  lemma {:induction false} ExpiryStays(s: State, run: seq<Action>, m: nat, n: nat, refreshBefore: real)
    requires Initial(s) && Possible(s, run, refreshBefore) && m <= n <= |run|
    requires forall i, k :: m <= k < n ==> !Completes(run, i, k)
    ensures At(s, run, n, refreshBefore).expiresAt == At(s, run, m, refreshBefore).expiresAt
  {
    if m < n {
      ExpiryStays(s, run, m, n - 1, refreshBefore);
      if At(s, run, n, refreshBefore).expiresAt != At(s, run, n - 1, refreshBefore).expiresAt {
        OnlyFetchesDate(s, run, n - 1, refreshBefore);
      }
    }
  }

  /**
   * A request starts no earlier than the response to the last completed one plus the lifetime it
   * granted less the margin.
   */
  lemma RequestsWait(s: State, run: seq<Action>, i: nat, j: nat, q: nat, refreshBefore: real)
    requires Initial(s) && Possible(s, run, refreshBefore) && Completes(run, i, j) && j < q < |run|
    requires forall h, k :: j < k < q ==> !Completes(run, h, k)
    requires var next := At(s, run, q + 1, refreshBefore);
      run[q].Step? && run[q].t in next.threads && next.threads[run[q].t].Fetching?
    ensures ClockAt(s.clock, run, q) >= ClockAt(s.clock, run, i) + Granted(run[i]) - refreshBefore
  {
    FetchIsDated(s, run, i, j, refreshBefore);
    ExpiryStays(s, run, j + 1, q, refreshBefore);
    ClockIsClock(s, run, q, refreshBefore);
    AtNext(s, run, q, refreshBefore);
    Prefix(s, run, q, refreshBefore);
    FetchOnlyWhenDue(s, run[..q], run[q], refreshBefore);
    AtInv(s, run, q, refreshBefore);
    TokenStays(s, run, j + 1, q, refreshBefore);
  }

  lemma {:induction false} TokenStays(s: State, run: seq<Action>, m: nat, n: nat, refreshBefore: real)
    requires Possible(s, run, refreshBefore) && m <= n <= |run| && At(s, run, m, refreshBefore).token.Some?
    ensures At(s, run, n, refreshBefore).token.Some?
  {
    if m < n {
      TokenStays(s, run, m, n - 1, refreshBefore);
      AtNext(s, run, n - 1, refreshBefore);
    }
  }
}
