/** The cached OIDC token: double-checked locking with unlocked reads and two separate writes. */
module TokenProvider {
  import opened Results

  type Thread = nat

  /** A token and its place in the order in which tokens were stored. */
  datatype Token = Token(text: string, generation: nat)

  /**
   * How a call ended. A token handed out without the lock carries the number of completed fetches
   * when the expiry was read, and the clock reading it was compared with.
   */
  datatype Outcome = Locked(token: Option<Token>) | Unlocked(token: Option<Token>, fetches: nat, at: real)

  /** Where a thread stands in `get_token`; `locked` marks the second run of the check, under the lock. */
  datatype Pc =
    | CheckToken(locked: bool)
    | ReadClock(locked: bool)
    | ReadExpiry(locked: bool, now: real)
    | ReturnUnlocked(fetches: nat, at: real)
    | WantLock
    | Fetching(start: real)
    | Received(start: real, text: string, granted: Option<real>)
    | WroteToken(start: real, granted: Option<real>)
    | WriteExpiry(start: real, expiresIn: real, now: real)
    | ReturnLocked
    | Releasing(result: Option<Token>)
    | Failing
    | Returned(outcome: Outcome)
    | Raised

  /** A fetch that stored both the token and its expiry. */
  datatype Fetch = Fetch(generation: nat, start: real, expiresIn: real, expiry: real)

  /**
   * The two fields, the lock, the monotonic clock and the threads; `stored` counts the tokens ever
   * stored, `log` holds the completed fetches and `started` is the clock when the provider was made.
   */
  datatype State = State(
    token: Option<Token>, expiresAt: real, lock: Option<Thread>, clock: real, threads: map<Thread, Pc>,
    stored: nat, log: seq<Fetch>, started: real)

  /** A response without a lifetime has the field absent. */
  datatype Action =
    | Tick(delta: real)
    | Call(t: Thread)
    | Step(t: Thread)
    | Respond(t: Thread, text: string, granted: Option<real>)
    | Fail(t: Thread)

  predicate Initial(s: State) {
    s == State(None, 0.0, None, s.clock, map[], 0, [], s.clock)
  }

  predicate Finished(pc: Pc) {
    pc.Returned? || pc.Raised?
  }

  /** The token request may raise, and so may the use of a malformed lifetime after the token is stored. */
  predicate Enabled(s: State, a: Action) {
    match a
    case Tick(delta) => delta >= 0.0
    case Call(t) => t in s.threads ==> Finished(s.threads[t])
    case Step(t) =>
      && t in s.threads && !Finished(s.threads[t]) && !s.threads[t].Fetching?
      && (s.threads[t].WantLock? ==> s.lock == None)
    case Respond(t, _, _) => t in s.threads && s.threads[t].Fetching?
    case Fail(t) => t in s.threads && (s.threads[t].Fetching? || s.threads[t].WroteToken?)
  }

  function Goto(s: State, t: Thread, pc: Pc): State {
    s.(threads := s.threads[t := pc])
  }

  /** Where the check leads when it finds that a refresh is due. */
  function Refresh(s: State, locked: bool): Pc {
    if locked then Fetching(s.clock) else WantLock
  }

  /** Where the check leads when the stored token may still be used. */
  function Keep(s: State, locked: bool, now: real): Pc {
    if locked then ReturnLocked else ReturnUnlocked(|s.log|, now)
  }

  /** The lifetime of a token in seconds, five minutes unless the response says otherwise. */
  function Lifetime(granted: Option<real>): real {
    match granted case Some(seconds) => seconds case None => 300.0
  }

  function StepThread(s: State, t: Thread, refreshBefore: real): State
    requires Enabled(s, Step(t))
  {
    match s.threads[t]
    case CheckToken(locked) => Goto(s, t, if s.token == None then Refresh(s, locked) else ReadClock(locked))
    case ReadClock(locked) => Goto(s, t, ReadExpiry(locked, s.clock))
    case ReadExpiry(locked, now) =>
      Goto(s, t, if now >= s.expiresAt - refreshBefore then Refresh(s, locked) else Keep(s, locked, now))
    case ReturnUnlocked(fetches, at) => Goto(s, t, Returned(Unlocked(s.token, fetches, at)))
    case WantLock => Goto(s.(lock := Some(t)), t, CheckToken(true))
    case Received(start, text, granted) =>
      Goto(s.(token := Some(Token(text, s.stored + 1)), stored := s.stored + 1), t, WroteToken(start, granted))
    case WroteToken(start, granted) => Goto(s, t, WriteExpiry(start, Lifetime(granted), s.clock))
    case WriteExpiry(start, expiresIn, now) =>
      var done := Fetch(s.stored, start, expiresIn, now + expiresIn);
      Goto(s.(expiresAt := now + expiresIn, log := s.log + [done]), t, ReturnLocked)
    case ReturnLocked => Goto(s, t, Releasing(s.token))
    case Releasing(result) => Goto(s.(lock := None), t, Returned(Locked(result)))
    case Failing => Goto(s.(lock := None), t, Raised)
  }

  function Next(s: State, a: Action, refreshBefore: real): State
    requires Enabled(s, a)
  {
    match a
    case Tick(delta) => s.(clock := s.clock + delta)
    case Call(t) => Goto(s, t, CheckToken(false))
    case Step(t) => StepThread(s, t, refreshBefore)
    case Respond(t, text, granted) => Goto(s, t, Received(s.threads[t].start, text, granted))
    case Fail(t) => Goto(s, t, Failing)
  }

  /** The provider object. Every method is one step that no other thread can see halfway. */
  class OidcTokenProvider {
    const refreshBefore: real
    const started: real
    var token: Option<Token>
    var expiresAt: real
    var lock: Option<Thread>
    var clock: real
    var threads: map<Thread, Pc>
    var stored: nat
    var log: seq<Fetch>

    ghost function Snapshot(): State
      reads this
    {
      State(token, expiresAt, lock, clock, threads, stored, log, started)
    }

    constructor (refreshBefore: real, clock: real)
      ensures Initial(Snapshot()) && this.refreshBefore == refreshBefore && this.clock == clock
    {
      this.refreshBefore, this.clock, this.started := refreshBefore, clock, clock;
      token, expiresAt, lock, threads := None, 0.0, None, map[];
      stored, log := 0, [];
    }

    method PassTime(delta: real)
      requires delta >= 0.0
      modifies this
      ensures Snapshot() == Next(old(Snapshot()), Tick(delta), refreshBefore)
    {
      clock := clock + delta;
    }

    method GetToken(t: Thread)
      requires Enabled(Snapshot(), Call(t))
      modifies this
      ensures Snapshot() == Next(old(Snapshot()), Call(t), refreshBefore)
    {
      threads := threads[t := CheckToken(false)];
    }

    method Receive(t: Thread, text: string, granted: Option<real>)
      requires Enabled(Snapshot(), Respond(t, text, granted))
      modifies this
      ensures Snapshot() == Next(old(Snapshot()), Respond(t, text, granted), refreshBefore)
    {
      threads := threads[t := Received(threads[t].start, text, granted)];
    }

    method Raise(t: Thread)
      requires Enabled(Snapshot(), Fail(t))
      modifies this
      ensures Snapshot() == Next(old(Snapshot()), Fail(t), refreshBefore)
    {
      threads := threads[t := Failing];
    }

    method Advance(t: Thread)
      requires Enabled(Snapshot(), Step(t))
      modifies this
      ensures Snapshot() == Next(old(Snapshot()), Step(t), refreshBefore)
    {
      var pc := threads[t];
      match pc {
        case CheckToken(locked) =>
          if token == None {
            pc := if locked then Fetching(clock) else WantLock;
          } else {
            pc := ReadClock(locked);
          }
        case ReadClock(locked) =>
          pc := ReadExpiry(locked, clock);
        case ReadExpiry(locked, now) =>
          if now >= expiresAt - refreshBefore {
            pc := if locked then Fetching(clock) else WantLock;
          } else {
            pc := if locked then ReturnLocked else ReturnUnlocked(|log|, now);
          }
        case ReturnUnlocked(fetches, at) =>
          pc := Returned(Unlocked(token, fetches, at));
        case WantLock =>
          lock := Some(t);
          pc := CheckToken(true);
        case Received(start, text, granted) =>
          stored := stored + 1;
          token := Some(Token(text, stored));
          pc := WroteToken(start, granted);
        case WroteToken(start, granted) =>
          var expiresIn := match granted case Some(seconds) => seconds case None => 300.0;
          pc := WriteExpiry(start, expiresIn, clock);
        case WriteExpiry(start, expiresIn, now) =>
          expiresAt := now + expiresIn;
          log := log + [Fetch(stored, start, expiresIn, expiresAt)];
          pc := ReturnLocked;
        case ReturnLocked =>
          pc := Releasing(token);
        case Releasing(result) =>
          lock := None;
          pc := Returned(Locked(result));
        case Failing =>
          lock := None;
          pc := Raised;
      }
      threads := threads[t := pc];
    }
  }
}
