/**
 What becomes of the token in the long run: how fast turns can follow one another, what
 happens when Vault caps a token's lifetime or lookups fail, and from which states the loop can still obtain
 a longer life for signing.
 */
module TokenFate {
  import opened TokenRenewal

  // ----- the pace of the loop

  predicate IsLookup(e: Event) {
    e.LookupReports? || e.LookupFails?
  }

  /** Every turn begins with one lookup. */
  function Turns(events: seq<Event>): nat {
    if events == [] then 0
    else Turns(events[..|events| - 1]) + if IsLookup(events[|events| - 1]) then 1 else 0
  }

  /** The least time those turns take if each is completed. */
  function TurnTime(events: seq<Event>): int {
    if events == [] then 0
    else TurnTime(events[..|events| - 1]) + if IsLookup(events[|events| - 1]) then SleepFor(SECOND) else 0
  }

  lemma {:induction false} TurnTimeIs(events: seq<Event>)
    ensures TurnTime(events) == Turns(events) * 750_000_000
  {
    if events != [] {
      TurnTimeIs(events[..|events| - 1]);
    }
  }

  /** due is when the turns begun so far are over at the earliest. */
  predicate Paced(s: State, due: int) {
    match s.phase
    case Reported(ttl, _) => due - SleepFor(SECOND) <= s.now && ttl >= 0 && ttl % SECOND == 0
    case LookupBackoff(until) => due <= until
    case Sleeping(_, until) => due <= until
    case Stopped => true
    case Cancelled => true
    case _ => due <= s.now
  }

  lemma PacedNext(s: State, e: Event, due: int)
    requires Enabled(s, e) && Paced(s, due)
    ensures Paced(Next(s, e), due + if IsLookup(e) then SleepFor(SECOND) else 0)
  {
  }

  lemma {:induction false} PacedAlways(events: seq<Event>, run: seq<State>, i: nat)
    requires IsRun(events, run) && Start(run[0]) && i < |run|
    ensures Paced(run[i], run[0].now + TurnTime(events[..i]))
  {
    if i > 0 {
      PacedAlways(events, run, i - 1);
      assert events[..i][..i - 1] == events[..i - 1];
      PacedNext(run[i - 1], events[i - 1], run[0].now + TurnTime(events[..i - 1]));
    }
  }

  /** A turn that begins before an instant is at most number (instant - start) / 0.75 s + 1, in any run. */
  lemma TurnsBefore(events: seq<Event>, run: seq<State>, i: nat, instant: int)
    requires IsRun(events, run) && Start(run[0]) && i < |events|
    requires IsLookup(events[i]) && run[i].now < instant
    ensures Turns(events[..i]) * 750_000_000 < instant - run[0].now
  {
    PacedAlways(events, run, i);
    assert Enabled(run[i], events[i]);
    TurnTimeIs(events[..i]);
  }

  /** From one report to the next at least three quarters of the reported lifetime passes. */
  lemma {:induction false} TurnTakesItsSleep(events: seq<Event>, run: seq<State>, i: nat, j: nat)
    requires IsRun(events, run) && i < j < |events|
    requires events[i].LookupReports? && events[j].LookupReports?
    ensures run[j].now >= run[i].now + SleepFor(run[i + 1].base)
  {
    assert Enabled(run[i], events[i]) && Enabled(run[j], events[j]);
    SleptSince(events, run, i, j);
  }

  predicate PastSleep(s: State, t0: int, ttl: int) {
    match s.phase
    case Reported(u, _) => s.now >= t0 && (u == ttl || s.now >= t0 + SleepFor(ttl))
    case Sleeping(start, until) =>
      && t0 <= start <= s.now && start <= until
      && (until >= start + SleepFor(ttl) || start >= t0 + SleepFor(ttl))
    case Stopped => true
    case Cancelled => true
    case _ => s.now >= t0 + SleepFor(ttl)
  }

  lemma PastSleepNext(s: State, e: Event, t0: int, ttl: int)
    requires Enabled(s, e) && PastSleep(s, t0, ttl) && ttl >= 0
    ensures PastSleep(Next(s, e), t0, ttl)
  {
  }

  lemma {:induction false} SleptSince(events: seq<Event>, run: seq<State>, i: nat, j: nat)
    requires IsRun(events, run) && i < j < |run| && events[i].LookupReports?
    ensures PastSleep(run[j], run[i].now, run[i + 1].base)
    decreases j
  {
    assert Enabled(run[j - 1], events[j - 1]) && run[j] == Next(run[j - 1], events[j - 1]);
    if i + 1 < j {
      assert Enabled(run[i], events[i]) && run[i + 1].base >= 0;
      SleptSince(events, run, i, j - 1);
      PastSleepNext(run[j - 1], events[j - 1], run[i].now, run[i + 1].base);
    }
  }

  lemma {:induction false} TimeAdvances(events: seq<Event>, run: seq<State>, i: nat, j: nat)
    requires IsRun(events, run) && i <= j < |run|
    ensures run[i].now <= run[j].now
    decreases j
  {
    if i < j {
      TimeAdvances(events, run, i, j - 1);
      assert Enabled(run[j - 1], events[j - 1]) && run[j] == Next(run[j - 1], events[j - 1]);
    }
  }

  // ----- when no longer life can ever come

  /**
   The loop returned or will return, or its next lookup comes with less than a whole second
   left: too late to be answered, or answered with 0.  With a static token a login brings
   nothing new, so a turn that will reach renewal too late is lost as well.
   */
  predicate Doomed(s: State) {
    match s.phase
    case LookingUp => s.expiry - s.now < SECOND
    case LookupBackoff(until) => s.expiry - Later(s.now, until) < SECOND
    case LoginBackoff(until) => s.expiry - Later(s.now, until) < SECOND
    case Reported(ttl, renewable) =>
      !renewable || ttl <= 0 || (s.auth.StaticToken? && s.now + SleepFor(ttl) >= s.expiry)
    case Sleeping(_, until) => s.auth.StaticToken? && Later(s.now, until) >= s.expiry
    case Renewing => s.auth.StaticToken? && s.now >= s.expiry
    case LoggingIn => s.auth.StaticToken? && s.expiry - s.now < SECOND
    case Stopped => true
    case Cancelled => true
  }

  lemma DoomedNext(s: State, e: Event)
    requires Doomed(s) && Enabled(s, e)
    ensures Doomed(Next(s, e)) && Next(s, e).expiry == s.expiry && !e.RenewSucceeds?
  {
  }

  /** A doomed loop never renews again, and the expiry of its token never changes. */
  lemma {:induction false} DoomedForever(events: seq<Event>, run: seq<State>, i: nat, j: nat)
    requires IsRun(events, run) && i <= j < |run| && Doomed(run[i])
    ensures Doomed(run[j]) && run[j].expiry == run[i].expiry
    ensures forall k :: i <= k < j ==> !events[k].RenewSucceeds?
    decreases j
  {
    if i < j {
      DoomedForever(events, run, i, j - 1);
      DoomedNext(run[j - 1], events[j - 1]);
    }
  }

  /** A run from s that ends with a live token which outlives the one held at s. */
  ghost predicate Recovers(s: State, events: seq<Event>, run: seq<State>) {
    IsRun(events, run) && run[0] == s && Unexpired(run[|events|]) && run[|events|].expiry > s.expiry
  }

  function Rank(s: State): nat {
    match s.phase
    case LoggingIn => if s.auth.StaticToken? then 5 else 0
    case Renewing => 1
    case Sleeping(_, _) => 2
    case Reported(_, _) => 3
    case LookingUp => 4
    case _ => 5
  }

  /** From any other state there is a way to a live token with an expiry past the goal. */
  lemma Rescue(s: State, goal: int) returns (events: seq<Event>, run: seq<State>)
    requires !Doomed(s)
    ensures IsRun(events, run) && run[0] == s
    ensures Unexpired(run[|events|]) && run[|events|].expiry > goal
    decreases Rank(s)
  {
    var later := Later(s.now, goal) + SECOND;
    if s.phase.Renewing? && Unexpired(s) {
      return [RenewSucceeds(later)], [s, Granted(s, later)];
    }
    if s.phase.LoggingIn? && s.auth.FreshLogin? {
      return [LoginSucceeds(later)], [s, Granted(s, later)];
    }
    if Waiting(s.phase) {
      var e := Tick(if s.phase.until > s.now then s.phase.until - s.now else 0);
      var s' := Next(s, e);
      var es, r := Rescue(Next(s', Wake), goal);
      return [e, Wake] + es, [s, s'] + r;
    }
    var e := if s.phase.Renewing? then RenewFails(s.expiry)
             else if s.phase.LoggingIn? then LoginSucceeds(s.expiry)
             else if s.phase.Reported? then Decide else LookupReports(true);
    var es, r := Rescue(Next(s, e), goal);
    return [e] + es, [s] + r;
  }

  /**
   For either way of authenticating: signing can be given a longer life than the token in
   use exactly from the states that are not doomed.
   */
  lemma RecoverableIff(s: State)
    ensures !Doomed(s) <==> exists events, run :: Recovers(s, events, run)
  {
    if !Doomed(s) {
      var events, run := Rescue(s, s.expiry);
      assert Recovers(s, events, run);
    } else {
      forall events, run | IsRun(events, run) && run[0] == s
        ensures !Recovers(s, events, run)
      {
        DoomedForever(events, run, 0, |events|);
      }
    }
  }

  // ----- lookups that fail

  predicate InLookup(s: State) {
    s.phase.LookingUp? || s.phase.LookupBackoff? || s.phase.Cancelled?
  }

  /** While no lookup is answered the loop neither renews nor logs in: a failed lookup only waits. */
  lemma {:induction false} OutageAlways(events: seq<Event>, run: seq<State>, i: nat, j: nat)
    requires IsRun(events, run) && i <= j < |run| && InLookup(run[i])
    requires forall k :: i <= k < j ==> !events[k].LookupReports?
    ensures InLookup(run[j]) && run[j].expiry == run[i].expiry
    ensures forall k :: i <= k < j ==> NoGrant(events[k])
    decreases j
  {
    if i < j {
      OutageAlways(events, run, i, j - 1);
      assert Enabled(run[j - 1], events[j - 1]) && run[j] == Next(run[j - 1], events[j - 1]);
    }
  }

  predicate NoGrant(e: Event) {
    !e.RenewSucceeds? && !e.LoginSucceeds?
  }

  /** The earliest instant at which the loop can ask again. */
  function NextLookup(s: State): int {
    if s.phase.LookupBackoff? then Later(s.now, s.phase.until) else s.now
  }

  /**
   An outage in which no lookup is answered, from i on, can still be survived at j exactly
   when the next lookup comes with a whole second of the token left.  That holds for a
   fresh login as well: a failed lookup never leads to authenticate.
   */
  lemma LookupOutageIff(events: seq<Event>, run: seq<State>, i: nat, j: nat)
    requires IsRun(events, run) && i <= j < |run| && InLookup(run[i])
    requires forall k :: i <= k < j ==> !events[k].LookupReports?
    ensures (exists more, rest :: Recovers(run[j], more, rest)) <==>
            !run[j].phase.Cancelled? && run[i].expiry - NextLookup(run[j]) >= SECOND
  {
    OutageAlways(events, run, i, j);
    RecoverableIff(run[j]);
  }

  /** The next lookup comes too late, is answered with 0, or the loop has returned. */
  predicate PastHelp(s: State) {
    match s.phase
    case LookingUp => s.expiry - s.now < SECOND
    case LookupBackoff(until) => s.expiry - Later(s.now, until) < SECOND
    case Reported(ttl, _) => ttl <= 0
    case Stopped => true
    case Cancelled => true
    case _ => false
  }

  lemma {:induction false} PastHelpForever(events: seq<Event>, run: seq<State>, j: nat, n: nat)
    requires IsRun(events, run) && j <= n < |run| && PastHelp(run[j])
    ensures PastHelp(run[n]) && run[n].expiry == run[j].expiry
    ensures forall k :: j <= k < n ==> NoGrant(events[k])
    decreases n
  {
    if j < n {
      PastHelpForever(events, run, j, n - 1);
      assert Enabled(run[n - 1], events[n - 1]) && run[n] == Next(run[n - 1], events[n - 1]);
    }
  }

  /**
   An outage that has outlived that second is never recovered from, even if Vault answers
   again: no renewal and no login follows, and the token expires when it would have.
   */
  lemma LongOutage(events: seq<Event>, run: seq<State>, i: nat, j: nat, n: nat)
    requires IsRun(events, run) && i <= j <= n < |run| && InLookup(run[i])
    requires forall k :: i <= k < j ==> !events[k].LookupReports?
    requires run[i].expiry - NextLookup(run[j]) < SECOND
    ensures run[n].expiry == run[i].expiry
    ensures forall k :: i <= k < n ==> NoGrant(events[k])
  {
    OutageAlways(events, run, i, j);
    PastHelpForever(events, run, j, n);
  }

  function Rounds(s: State): nat {
    if s.expiry <= s.now then 0 else (s.expiry - s.now + LOOKUP_BACKOFF - 1) / LOOKUP_BACKOFF
  }

  /** From every lookup there is such an outage, with each timer firing on time. */
  lemma OutageRun(s: State) returns (events: seq<Event>, run: seq<State>)
    requires s.phase.LookingUp?
    ensures IsRun(events, run) && run[0] == s
    ensures forall e :: e in events ==> e == LookupFails || e == Tick(LOOKUP_BACKOFF) || e == Wake
    ensures run[|events|].phase.LookingUp? && !Unexpired(run[|events|]) && Doomed(run[|events|])
    decreases Rounds(s)
  {
    if s.expiry <= s.now {
      return [], [s];
    }
    var s1 := Next(s, LookupFails);
    var s2 := Next(s1, Tick(LOOKUP_BACKOFF));
    var es, r := OutageRun(Next(s2, Wake));
    return [LookupFails, Tick(LOOKUP_BACKOFF), Wake] + es, [s, s1, s2] + r;
  }

  // ----- capped lifetimes

  /** Vault renews every live token, but never past the instant cap. */
  ghost predicate RenewsUpTo(events: seq<Event>, run: seq<State>, cap: int)
    requires |run| == |events| + 1
  {
    forall i :: 0 <= i < |events| ==>
      && (events[i].RenewFails? ==> !Unexpired(run[i]))
      && (events[i].RenewSucceeds? ==> events[i].expiry <= cap)
  }

  ghost predicate CappedRun(events: seq<Event>, run: seq<State>, cap: int) {
    IsRun(events, run) && Start(run[0]) && run[0].expiry <= cap && RenewsUpTo(events, run, cap)
  }

  /** No turn comes to its renewal with the token expired already. */
  ghost predicate OnTime(run: seq<State>) {
    forall i :: 0 <= i < |run| ==> run[i].phase.Renewing? ==> Unexpired(run[i])
  }

  predicate NoLogin(s: State) {
    !s.phase.LoggingIn? && !s.phase.LoginBackoff?
  }

  /** On time, re-authentication is never reached and the cap is never passed. */
  lemma {:induction false} CappedAlways(events: seq<Event>, run: seq<State>, cap: int, i: nat)
    requires CappedRun(events, run, cap) && OnTime(run) && i < |run|
    ensures run[i].expiry <= cap && NoLogin(run[i])
  {
    if i > 0 {
      CappedAlways(events, run, cap, i - 1);
      assert Enabled(run[i - 1], events[i - 1]) && run[i] == Next(run[i - 1], events[i - 1]);
    }
  }

  /** In the last second before the cap and later, a loop about to look up is doomed. */
  lemma LookupTooLate(events: seq<Event>, run: seq<State>, cap: int, i: nat)
    requires CappedRun(events, run, cap) && OnTime(run) && i < |run|
    requires run[i].now > cap - SECOND
    ensures Doomed(run[i]) || run[i].phase.Reported? || run[i].phase.Sleeping? || run[i].phase.Renewing?
  {
    CappedAlways(events, run, cap, i);
  }

  lemma RenewalIsLast(events: seq<Event>, run: seq<State>, cap: int, j: nat, k: nat)
    requires CappedRun(events, run, cap) && OnTime(run) && j < k < |events|
    requires run[j].now > cap - SECOND && events[j].RenewSucceeds?
    ensures !events[k].RenewSucceeds?
  {
    assert Enabled(run[j], events[j]) && run[j + 1] == Next(run[j], events[j]);
    LookupTooLate(events, run, cap, j + 1);
    DoomedForever(events, run, j + 1, k + 1);
  }

  /**
   The fate of a capped token whose loop is on time.  Re-authentication is never reached.
   Before the cap there are at most (cap - start) / 0.75 s + 1 turns.  From the last second
   on, a loop that is not already in the middle of a turn is doomed, and a turn under way
   renews at most once more.  From the cap on the token is expired for good: no renewal or
   login ever follows: the loop has stopped, looks up in vain, or is in a turn that will not
   come to its renewal on time.
   */
  lemma CappedRunLosesToken(events: seq<Event>, run: seq<State>, cap: int, i: nat)
    requires CappedRun(events, run, cap) && OnTime(run) && i < |run|
    ensures forall j :: 0 <= j < |events| ==> !events[j].LoginSucceeds? && !events[j].LoginFails?
    ensures forall j :: 0 <= j < |events| && IsLookup(events[j]) && run[j].now < cap ==>
              Turns(events[..j]) * 750_000_000 < cap - run[0].now
    ensures run[i].now > cap - SECOND ==>
              || Doomed(run[i]) || run[i].phase.Reported? || run[i].phase.Sleeping? || run[i].phase.Renewing?
    ensures run[i].now > cap - SECOND ==>
              forall j, k :: i <= j < k < |events| && events[j].RenewSucceeds? ==> !events[k].RenewSucceeds?
    ensures run[i].now >= cap ==>
              && !run[i].phase.Renewing?
              && (forall j :: i <= j < |events| ==> !events[j].RenewSucceeds?)
              && (forall j :: i <= j < |run| ==> !Unexpired(run[j]))
  {
    forall j | 0 <= j < |events|
      ensures !events[j].LoginSucceeds? && !events[j].LoginFails?
    {
      CappedAlways(events, run, cap, j);
      assert Enabled(run[j], events[j]);
    }
    forall j | 0 <= j < |events| && IsLookup(events[j]) && run[j].now < cap
      ensures Turns(events[..j]) * 750_000_000 < cap - run[0].now
    {
      TurnsBefore(events, run, j, cap);
    }
    if run[i].now > cap - SECOND {
      LookupTooLate(events, run, cap, i);
      forall j, k | i <= j < k < |events| && events[j].RenewSucceeds?
        ensures !events[k].RenewSucceeds?
      {
        TimeAdvances(events, run, i, j);
        RenewalIsLast(events, run, cap, j, k);
      }
    }
    if run[i].now >= cap {
      forall j | i <= j < |run|
        ensures !Unexpired(run[j]) && (j < |events| ==> !events[j].RenewSucceeds?)
      {
        TimeAdvances(events, run, i, j);
        CappedAlways(events, run, cap, j);
        if j < |events| {
          assert Enabled(run[j], events[j]);
        }
      }
    }
  }

  lemma OneSecondTurn()
    ensures SleepFor(SECOND) == 750_000_000
    ensures SECOND / SECOND == 1 && (SECOND - SleepFor(SECOND)) / SECOND == 0
  {
  }

  lemma OneRenewal(auth: Auth) returns (events: seq<Event>, run: seq<State>)
    ensures IsRun(events, run) && |events| == 5 && OnTime(run)
    ensures run[0] == State(auth, 0, SECOND, LookingUp, 0, SECOND, 0)
    ensures run[5] == State(auth, SleepFor(SECOND), SECOND, LookingUp, SleepFor(SECOND), SECOND - SleepFor(SECOND), 0)
    ensures events[4] == RenewSucceeds(SECOND)
    ensures RenewsUpTo(events, run, SECOND)
  {
    OneSecondTurn();
    var sleep := SleepFor(SECOND);
    var s0 := State(auth, 0, SECOND, LookingUp, 0, SECOND, 0);
    var s1 := s0.(phase := Reported(SECOND, true));
    var s2 := s0.(phase := Sleeping(0, sleep));
    var s3 := s2.(now := sleep);
    var s4 := s3.(phase := Renewing, slept := sleep);
    var s5 := State(auth, sleep, SECOND, LookingUp, sleep, SECOND - sleep, 0);
    events := [LookupReports(true), Decide, Tick(sleep), Wake, RenewSucceeds(SECOND)];
    run := [s0, s1, s2, s3, s4, s5];
  }

  lemma ReportOfZero(s: State) returns (events: seq<Event>, run: seq<State>)
    requires s.phase.LookingUp? && 0 < s.expiry - s.now < SECOND
    ensures IsRun(events, run) && run[0] == s && OnTime(run)
    ensures |events| == 3 && RenewsUpTo(events, run, SECOND)
    ensures run[3].phase.Stopped? && !Unexpired(run[3])
  {
    assert (s.expiry - s.now) / SECOND == 0;
    events := [LookupReports(true), Decide, Tick(SECOND)];
    var s1 := s.(phase := Reported(0, true), since := s.now, base := 0, slept := 0);
    var s2 := s1.(phase := Stopped);
    run := [s, s1, s2, s2.(now := s2.now + SECOND)];
  }

  lemma Join(events: seq<Event>, run: seq<State>, more: seq<Event>, rest: seq<State>, cap: int)
    requires IsRun(events, run) && IsRun(more, rest) && rest[0] == run[|events|]
    requires RenewsUpTo(events, run, cap) && RenewsUpTo(more, rest, cap)
    ensures IsRun(events + more, run + rest[1..])
    ensures RenewsUpTo(events + more, run + rest[1..], cap)
    ensures OnTime(run) && OnTime(rest) ==> OnTime(run + rest[1..])
    ensures (run + rest[1..])[0] == run[0] && (run + rest[1..])[|events + more|] == rest[|more|]
  {
    var all, both := run + rest[1..], events + more;
    forall i | 0 <= i < |both|
      ensures Enabled(all[i], both[i]) && all[i + 1] == Next(all[i], both[i])
      ensures both[i].RenewFails? ==> !Unexpired(all[i])
      ensures both[i].RenewSucceeds? ==> both[i].expiry <= cap
    {
      if i >= |events| {
        assert all[i] == rest[i - |events|] && all[i + 1] == rest[i + 1 - |events|];
        assert both[i] == more[i - |events|];
      } else {
        assert all[i] == run[i] && all[i + 1] == run[i + 1] && both[i] == events[i];
      }
    }
    forall i | 0 <= i < |all|
      ensures OnTime(run) && OnTime(rest) && all[i].phase.Renewing? ==> Unexpired(all[i])
    {
      assert all[i] == if i < |run| then run[i] else rest[i - |events|];
    }
  }

  /** Such runs exist: with a one-second cap, one successful renewal, a report of 0, and the loop is gone. */
  lemma CappedRunExample(auth: Auth) returns (events: seq<Event>, run: seq<State>)
    ensures CappedRun(events, run, SECOND) && OnTime(run) && RenewSucceeds(SECOND) in events
    ensures run[|events|].phase.Stopped? && !Unexpired(run[|events|])
  {
    OneSecondTurn();
    var first, states := OneRenewal(auth);
    var more, rest := ReportOfZero(states[5]);
    Join(first, states, more, rest, SECOND);
    events, run := first + more, states + rest[1..];
    assert events[4] == first[4];
  }

  lemma LateTimer() returns (events: seq<Event>, run: seq<State>)
    ensures IsRun(events, run) && RenewsUpTo(events, run, SECOND) && |events| == 4
    ensures run[0] == State(FreshLogin, 0, SECOND, LookingUp, 0, SECOND, 0)
    ensures run[4] == State(FreshLogin, SECOND, SECOND, Renewing, 0, SECOND, SleepFor(SECOND))
  {
    OneSecondTurn();
    var s0 := State(FreshLogin, 0, SECOND, LookingUp, 0, SECOND, 0);
    var s1 := s0.(phase := Reported(SECOND, true));
    var s2 := s0.(phase := Sleeping(0, SleepFor(SECOND)));
    var s3 := s2.(now := SECOND);
    events := [LookupReports(true), Decide, Tick(SECOND), Wake];
    run := [s0, s1, s2, s3, s3.(phase := Renewing, slept := SleepFor(SECOND))];
  }

  lemma NewLogin(s: State, expiry: int) returns (events: seq<Event>, run: seq<State>)
    requires s.phase.Renewing? && s.auth.FreshLogin? && !Unexpired(s)
    ensures IsRun(events, run) && RenewsUpTo(events, run, SECOND) && |events| == 2
    ensures run[0] == s && run[2] == Granted(s, expiry)
  {
    var s1 := s.(phase := LoggingIn);
    events, run := [RenewFails(s.expiry), LoginSucceeds(expiry)], [s, s1, Granted(s1, expiry)];
  }

  /** Being on time is what dooms them: a timer late enough for the token to expire leads to a new login. */
  lemma LateTurnLogsIn(expiry: int) returns (events: seq<Event>, run: seq<State>)
    requires expiry > SECOND
    ensures CappedRun(events, run, SECOND) && !OnTime(run)
    ensures run[|events|].now >= SECOND && Unexpired(run[|events|])
  {
    var first, states := LateTimer();
    var more, rest := NewLogin(states[4], expiry);
    Join(first, states, more, rest, SECOND);
    events, run := first + more, states + rest[1..];
    assert run[4] == states[4];
  }

  /** A report under way in the last second need not be doomed yet: it may have been sent before. */
  lemma ReportUnderWay() returns (events: seq<Event>, run: seq<State>)
    ensures CappedRun(events, run, SECOND) && OnTime(run)
    ensures run[|events|].now > 0 && run[|events|].phase.Reported? && !Doomed(run[|events|])
  {
    OneSecondTurn();
    var s0 := State(FreshLogin, 0, SECOND, LookingUp, 0, SECOND, 0);
    var s1 := s0.(phase := Reported(SECOND, true));
    events, run := [LookupReports(true), Tick(1)], [s0, s1, s1.(now := 1)];
    assert IsRun(events, run);
    assert RenewsUpTo(events, run, SECOND);
  }
}
