/**
 backend/vault's renewTokenLoop as a timed state machine.  Times are integer nanoseconds on
 one clock.  The client's calls, timer lateness and Vault's answers are the environment's
 choice; the loop's own branches are fixed.
 */
module TokenRenewal {

  const SECOND: int := 1_000_000_000
  const LOOKUP_BACKOFF: int := 30 * SECOND
  const LOGIN_BACKOFF: int := 15 * SECOND

  /** The point the loop has reached; until is the earliest instant its timer fires. */
  datatype Phase =
    | LookingUp
    | LookupBackoff(until: int)
    | Reported(ttl: int, renewable: bool)
    | Sleeping(start: int, until: int)
    | Renewing
    | LoggingIn
    | LoginBackoff(until: int)
    | Stopped
    | Cancelled

  /** auth_method: the same configured token again, or a login that returns a new one. */
  datatype Auth = StaticToken | FreshLogin

  /**
   expiry belongs to the token in use.  base is the lifetime last granted or reported, since
   the instant Vault stated it, and slept the planned sleep completed after that instant.
   */
  datatype State = State(auth: Auth, now: int, expiry: int, phase: Phase, since: int, base: int, slept: int)

  datatype Event =
    | Tick(d: nat)
    | LookupFails
    | LookupReports(renewable: bool)
    | Decide
    | Wake
    | RenewSucceeds(expiry: int)
    | RenewFails(expiry: int)
    | LoginSucceeds(expiry: int)
    | LoginFails
    | Cancel

  /** Vault reports the remaining lifetime in whole seconds. */
  function ReportedTtl(s: State): int {
    (s.expiry - s.now) / SECOND * SECOND
  }

  /** Three quarters of the reported lifetime. */
  function SleepFor(ttl: int): int {
    3 * ttl / 4
  }

  function Later(a: int, b: int): int {
    if a < b then b else a
  }

  predicate Waiting(p: Phase) {
    p.LookupBackoff? || p.Sleeping? || p.LoginBackoff?
  }

  /**
   Vault accepts only an unexpired token.  A renewal whose reply is lost may still have
   extended the token.  A login with a static token sets that token again, expiry and all.
   The context is looked at only while the loop waits.
   */
  predicate Enabled(s: State, e: Event) {
    match e
    case Tick(_) => true
    case LookupFails => s.phase.LookingUp?
    case LookupReports(_) => s.phase.LookingUp? && s.now < s.expiry
    case Decide => s.phase.Reported?
    case Wake => Waiting(s.phase) && s.now >= s.phase.until
    case RenewSucceeds(_) => s.phase.Renewing? && s.now < s.expiry
    case RenewFails(x) => s.phase.Renewing? && x >= s.expiry && (x > s.expiry ==> s.now < s.expiry)
    case LoginSucceeds(x) => s.phase.LoggingIn? && (s.auth.StaticToken? ==> x == s.expiry)
    case LoginFails => s.phase.LoggingIn?
    case Cancel => Waiting(s.phase)
  }

  function Granted(s: State, expiry: int): State {
    s.(expiry := expiry, phase := LookingUp, since := s.now, base := expiry - s.now, slept := 0)
  }

  function Next(s: State, e: Event): State
    requires Enabled(s, e)
  {
    match e
    case Tick(d) => s.(now := s.now + d)
    case LookupFails => s.(phase := LookupBackoff(s.now + LOOKUP_BACKOFF))
    case LookupReports(renewable) =>
      s.(phase := Reported(ReportedTtl(s), renewable), since := s.now, base := ReportedTtl(s), slept := 0)
    case Decide =>
      if !s.phase.renewable || s.phase.ttl <= 0 then s.(phase := Stopped)
      else s.(phase := Sleeping(s.now, s.now + SleepFor(s.phase.ttl)))
    case Wake =>
      if s.phase.Sleeping? then s.(phase := Renewing, slept := s.phase.until - s.phase.start)
      else s.(phase := LookingUp)
    case RenewSucceeds(x) => Granted(s, x)
    case RenewFails(x) => s.(phase := LoggingIn, expiry := x)
    case LoginSucceeds(x) => Granted(s, x)
    case LoginFails => s.(phase := LoginBackoff(s.now + LOGIN_BACKOFF))
    case Cancel => s.(phase := Cancelled)
  }

  /** run[i] is the state before event i. */
  ghost predicate IsRun(events: seq<Event>, run: seq<State>) {
    && |run| == |events| + 1
    && forall i :: 0 <= i < |events| ==> Enabled(run[i], events[i]) && run[i + 1] == Next(run[i], events[i])
  }

  /** The loop is started just after a login. */
  predicate Start(s: State) {
    s == Granted(s, s.expiry)
  }

  // ----- the loop itself

  /**
   What the environment does in one turn: how long each call takes and what it returns, and
   for each of the two waits how late its timer is or whether the context ends it.
   */
  datatype Turn = Turn(
    lookupTime: nat, lookupOk: bool, renewable: bool, replyTime: nat,
    firstWait: Wait,
    renewTime: nat, renewOk: bool, renewExpiry: int, lostExtension: nat,
    loginTime: nat, loginOk: bool, loginExpiry: int,
    secondWait: Wait)

  datatype Wait = Fires(lateness: nat) | Cut(after: nat)

  /** A timer asked to fire at until: it fires then or later, unless the context is cancelled first. */
  function Pause(s: State, w: Wait): State
    requires Waiting(s.phase)
  {
    match w
    case Cut(after) => Next(s.(now := s.now + after), Cancel)
    case Fires(lateness) => Next(s.(now := Later(s.now, s.phase.until) + lateness), Wake)
  }

  /** The reply arrives; unless it ends the loop, the planned sleep follows. */
  function Slept(s: State, t: Turn): State
    requires s.phase.Reported?
  {
    var decided := Next(s.(now := s.now + t.replyTime), Decide);
    if decided.phase.Stopped? then decided else Pause(decided, t.firstWait)
  }

  /** The first half of a turn: look the token up and, if the answer calls for it, sleep. */
  function LookedUp(s: State, t: Turn): State
    requires s.phase.LookingUp?
  {
    var asked := s.(now := s.now + t.lookupTime);
    if !t.lookupOk || asked.now >= asked.expiry then Pause(Next(asked, LookupFails), t.firstWait)
    else Slept(Next(asked, LookupReports(t.renewable)), t)
  }

  /** What a failed renewal leaves as the expiry: more than before only if Vault did extend a live token. */
  function LostRenewal(s: State, t: Turn): int {
    if s.now < s.expiry then s.expiry + t.lostExtension else s.expiry
  }

  function LoginExpiry(s: State, t: Turn): int {
    if s.auth.StaticToken? then s.expiry else t.loginExpiry
  }

  /** authenticate, and the back-off if it fails. */
  function LoggedIn(s: State, t: Turn): State
    requires s.phase.LoggingIn?
  {
    var answered := s.(now := s.now + t.loginTime);
    if t.loginOk then Granted(answered, LoginExpiry(answered, t))
    else Pause(Next(answered, LoginFails), t.secondWait)
  }

  /** The second half: renew, failing that log in again, failing that back off. */
  function Renewed(s: State, t: Turn): State
    requires s.phase.Renewing?
  {
    var asked := s.(now := s.now + t.renewTime);
    if t.renewOk && asked.now < asked.expiry then Granted(asked, t.renewExpiry)
    else LoggedIn(asked.(phase := LoggingIn, expiry := LostRenewal(asked, t)), t)
  }

  function AfterTurn(s: State, t: Turn): State
    requires s.phase.LookingUp?
  {
    var s' := LookedUp(s, t);
    if s'.phase.Renewing? then Renewed(s', t) else s'
  }

  /** Where the loop is after these turns; once it has returned, later turns do not happen. */
  function AfterTurns(s: State, turns: seq<Turn>): State {
    if turns == [] then s
    else
      var before := AfterTurns(s, turns[..|turns| - 1]);
      if before.phase.LookingUp? then AfterTurn(before, turns[|turns| - 1]) else before
  }

  lemma OneTurnMore(s: State, turns: seq<Turn>, i: nat)
    requires i < |turns| && AfterTurns(s, turns[..i]).phase.LookingUp?
    ensures AfterTurns(s, turns[..i + 1]) == AfterTurn(AfterTurns(s, turns[..i]), turns[i])
  {
    assert turns[..i + 1][..i] == turns[..i];
  }

  /** A turn ends where the next begins, or with the loop's return. */
  lemma TurnEnds(s: State, t: Turn)
    requires s.phase.LookingUp?
    ensures var p := AfterTurn(s, t).phase; p.LookingUp? || p.Stopped? || p.Cancelled?
  {
  }

  lemma {:induction false} ReturnedStays(s: State, turns: seq<Turn>, i: nat)
    requires i <= |turns| && !AfterTurns(s, turns[..i]).phase.LookingUp?
    ensures AfterTurns(s, turns) == AfterTurns(s, turns[..i])
    decreases |turns|
  {
    if i == |turns| {
      assert turns[..i] == turns;
    } else {
      assert turns[..|turns| - 1][..i] == turns[..i];
      ReturnedStays(s, turns[..|turns| - 1], i);
    }
  }

  class Loop {
    var s: State
    ghost var events: seq<Event>
    ghost var run: seq<State>

    ghost predicate Valid()
      reads this
    {
      IsRun(events, run) && run[|events|] == s
    }

    constructor (s: State)
      ensures Valid() && this.s == s && events == [] && run == [s]
    {
      this.s := s;
      events, run := [], [s];
    }

    /** One event happens: time passes, Vault answers, or the loop moves on. */
    method Do(e: Event)
      requires Valid() && Enabled(s, e)
      modifies this
      ensures Valid() && s == Next(old(s), e)
      ensures events == old(events) + [e] && run == old(run) + [s] && old(run) <= run
    {
      s := Next(s, e);
      events := events + [e];
      run := run + [s];
    }

    /** A timer: it fires no earlier than asked, and the context may be cancelled first. */
    method Await(w: Wait)
      requires Valid() && Waiting(s.phase)
      modifies this
      ensures Valid() && old(run) <= run
      ensures s == Pause(old(s), w)
    {
      match w
      case Cut(after) =>
        Do(Tick(after));
        Do(Cancel);
      case Fires(lateness) =>
        Do(Tick(Later(s.now, s.phase.until) - s.now + lateness));
        Do(Wake);
    }

    /** Look the token up; on an answer worth acting on, sleep until it is time to renew. */
    method LookUpAndSleep(t: Turn) returns (due: bool)
      requires Valid() && s.phase.LookingUp?
      modifies this
      ensures Valid() && old(run) <= run
      ensures s == LookedUp(old(s), t)
      ensures due <==> s.phase.Renewing?
    {
      Do(Tick(t.lookupTime));
      if !(t.lookupOk && s.now < s.expiry) {
        Do(LookupFails);
        Await(t.firstWait);
        return false;
      }
      Do(LookupReports(t.renewable));
      due := ActOnReport(t);
    }

    /** The reply arrives; unless it ends the loop, sleep. */
    method ActOnReport(t: Turn) returns (due: bool)
      requires Valid() && s.phase.Reported?
      modifies this
      ensures Valid() && old(run) <= run
      ensures s == Slept(old(s), t)
      ensures due <==> s.phase.Renewing?
    {
      Do(Tick(t.replyTime));
      Do(Decide);
      if s.phase.Stopped? {
        return false;
      }
      Await(t.firstWait);
      due := t.firstWait.Fires?;
    }

    /** Renew, failing that log in again, failing that back off. */
    method RenewOrLogIn(t: Turn)
      requires Valid() && s.phase.Renewing?
      modifies this
      ensures Valid() && old(run) <= run
      ensures s == Renewed(old(s), t)
    {
      Do(Tick(t.renewTime));
      if t.renewOk && s.now < s.expiry {
        Do(RenewSucceeds(t.renewExpiry));
      } else {
        Do(RenewFails(LostRenewal(s, t)));
        LogIn(t);
      }
    }

    method LogIn(t: Turn)
      requires Valid() && s.phase.LoggingIn?
      modifies this
      ensures Valid() && old(run) <= run
      ensures s == LoggedIn(old(s), t)
    {
      Do(Tick(t.loginTime));
      if t.loginOk {
        Do(LoginSucceeds(LoginExpiry(s, t)));
      } else {
        Do(LoginFails);
        Await(t.secondWait);
      }
    }

    /** One round of the loop. */
    method DoTurn(t: Turn)
      requires Valid() && s.phase.LookingUp?
      modifies this
      ensures Valid() && old(run) <= run
      ensures s == AfterTurn(old(s), t)
    {
      var due := LookUpAndSleep(t);
      if due {
        RenewOrLogIn(t);
      }
    }

    /**
     The loop over any number of turns: everything it does is a run of the machine, and it
     does what each turn's environment leads to.  It returns exactly when stopped or
     cancelled; otherwise the given turns have run out.
     */
    method RenewTokenLoop(turns: seq<Turn>) returns (returned: bool)
      requires Valid() && s.phase.LookingUp?
      modifies this
      ensures Valid() && old(run) <= run
      ensures s == AfterTurns(old(s), turns)
      ensures returned <==> s.phase.Stopped? || s.phase.Cancelled?
      ensures !returned ==> s.phase.LookingUp?
    {
      var i := 0;
      while i < |turns| && s.phase.LookingUp?
        invariant 0 <= i <= |turns|
        invariant Valid() && old(run) <= run
        invariant s == AfterTurns(old(s), turns[..i])
        invariant s.phase.LookingUp? || s.phase.Stopped? || s.phase.Cancelled?
      {
        OneTurnMore(old(s), turns, i);
        TurnEnds(s, turns[i]);
        DoTurn(turns[i]);
        i := i + 1;
      }
      returned := !s.phase.LookingUp?;
      assert turns[..|turns|] == turns;
      if returned {
        ReturnedStays(old(s), turns, i);
      }
    }
  }

  // ----- token safety

  function Min(a: int, b: int): int {
    if a < b then a else b
  }

  /** Time since Vault last stated a lifetime that was not planned sleep: calls, lateness, backoffs. */
  function Outside(s: State): int {
    s.now - s.since - (if s.phase.Sleeping? then Min(s.now, s.phase.until) - s.phase.start else s.slept)
  }

  predicate Unexpired(s: State) {
    s.now < s.expiry
  }

  /** Less than a quarter of the stated lifetime went elsewhere than into the planned sleep. */
  predicate Punctual(s: State) {
    4 * Outside(s) < s.base
  }

  predicate Accounted(s: State) {
    && s.since + s.base <= s.expiry
    && 0 <= s.slept && (s.base > 0 ==> 4 * s.slept <= 3 * s.base) && (s.base <= 0 ==> s.slept == 0)
    && s.since + s.slept <= s.now
    && (s.phase.Reported? ==> s.phase.ttl == s.base && s.slept == 0)
    && (s.phase.Sleeping? ==>
          && s.slept == 0 && s.base > 0
          && s.since <= s.phase.start <= s.now
          && s.phase.until == s.phase.start + SleepFor(s.base))
  }

  lemma AccountedNext(s: State, e: Event)
    requires Accounted(s) && Enabled(s, e)
    ensures Accounted(Next(s, e))
  {
  }

  lemma {:induction false} AccountedAlways(events: seq<Event>, run: seq<State>, i: nat)
    requires IsRun(events, run) && Start(run[0]) && i < |run|
    ensures Accounted(run[i])
  {
    if i > 0 {
      AccountedAlways(events, run, i - 1);
      AccountedNext(run[i - 1], events[i - 1]);
    }
  }

  /**
   As long as the time spent outside the planned sleep stays under a quarter of the lifetime
   Vault last stated, the token in use is unexpired in every state of every run, and at every
   instant up to and including the end of each step.
   */
  lemma TokenSafety(events: seq<Event>, run: seq<State>)
    requires IsRun(events, run) && Start(run[0])
    requires forall i :: 0 <= i < |run| ==> Punctual(run[i])
    ensures forall i :: 0 <= i < |events| ==> run[i].now <= run[i + 1].now < run[i].expiry
    ensures forall i :: 0 <= i < |run| ==> Unexpired(run[i])
  {
    forall i | 0 <= i < |run| ensures Unexpired(run[i]) {
      AccountedAlways(events, run, i);
      assert Punctual(run[i]);
    }
    forall i | 0 <= i < |events| ensures run[i].now <= run[i + 1].now < run[i].expiry {
      assert Unexpired(run[i]) && Unexpired(run[i + 1]);
      assert Enabled(run[i], events[i]) && run[i + 1] == Next(run[i], events[i]);
    }
  }

  /**
   A quarter is the limit: after any report, of any number of seconds, spending exactly a
   quarter of it elsewhere lets the token expire before it is renewed.
   */
  lemma QuarterIsTight(auth: Auth, n: nat) returns (events: seq<Event>, run: seq<State>)
    requires n > 0
    ensures IsRun(events, run) && Start(run[0])
    ensures forall i :: 0 <= i < |events| ==> Punctual(run[i])
    ensures var last := run[|events|];
            last.phase.Renewing? && 4 * Outside(last) == last.base == n * SECOND && !Unexpired(last)
  {
    var ttl := n * SECOND;
    assert ttl / SECOND == n && SleepFor(ttl) == 750_000_000 * n;
    var s0 := State(auth, 0, ttl, LookingUp, 0, ttl, 0);
    var s1 := s0.(phase := Reported(ttl, true));
    var s2 := s0.(phase := Sleeping(0, SleepFor(ttl)));
    var s3 := s2.(now := SleepFor(ttl));
    var s4 := s3.(phase := Renewing, slept := SleepFor(ttl));
    events := [LookupReports(true), Decide, Tick(SleepFor(ttl)), Wake, Tick(ttl - SleepFor(ttl))];
    run := [s0, s1, s2, s3, s4, s4.(now := ttl)];
  }
}
