/**
 How the renewal loop ends and how it goes on: exactly when it stops, what each kind of
 failure leads to, what a whole turn does, and that a loop which Vault keeps answering runs
 for ever.  Instants are written out in nanoseconds.
 */
module TokenTurns {
  import opened TokenRenewal
  import opened TokenFate

  predicate TicksBetween(events: seq<Event>, i: nat, k: nat) {
    forall m :: i < m < k && m < |events| ==> events[m].Tick?
  }

  // ----- exactly when the loop returns

  /** The report at i, acted on at k, is the last: not renewable, or under a second left. */
  ghost predicate LastReport(events: seq<Event>, run: seq<State>, i: nat, k: nat) {
    && i < k < |events| && k < |run|
    && events[i].LookupReports? && events[k].Decide? && TicksBetween(events, i, k)
    && (!events[i].renewable || run[i].expiry - run[i].now < 1_000_000_000)
  }

  /** What a reported lifetime came from. */
  predicate ReportedAt(events: seq<Event>, run: seq<State>, i: nat, j: nat) {
    && i < j < |run| && j <= |events| && run[j].phase.Reported?
    && events[i] == LookupReports(run[j].phase.renewable) && TicksBetween(events, i, j)
    && (run[j].phase.ttl <= 0 <==> run[i].expiry - run[i].now < 1_000_000_000)
  }

  lemma {:induction false} WhereReported(events: seq<Event>, run: seq<State>, j: nat) returns (i: nat)
    requires IsRun(events, run) && Start(run[0]) && j < |run| && run[j].phase.Reported?
    ensures ReportedAt(events, run, i, j)
  {
    i := j - 1;
    assert Enabled(run[j - 1], events[j - 1]) && run[j] == Next(run[j - 1], events[j - 1]);
    if events[j - 1].Tick? {
      i := WhereReported(events, run, j - 1);
    }
  }

  lemma {:induction false} WhereStopped(events: seq<Event>, run: seq<State>, j: nat) returns (i: nat, k: nat)
    requires IsRun(events, run) && Start(run[0]) && j < |run| && run[j].phase.Stopped?
    ensures k < j && LastReport(events, run, i, k)
  {
    assert Enabled(run[j - 1], events[j - 1]) && run[j] == Next(run[j - 1], events[j - 1]);
    if run[j - 1].phase.Stopped? {
      i, k := WhereStopped(events, run, j - 1);
    } else {
      k := j - 1;
      i := WhereReported(events, run, k);
    }
  }

  lemma {:induction false} StillReported(events: seq<Event>, run: seq<State>, i: nat, k: nat)
    requires IsRun(events, run) && i < k < |run| && events[i].LookupReports? && TicksBetween(events, i, k)
    ensures ReportedAt(events, run, i, k)
  {
    assert Enabled(run[k - 1], events[k - 1]) && run[k] == Next(run[k - 1], events[k - 1]);
    if i + 1 < k {
      StillReported(events, run, i, k - 1);
    }
  }

  lemma {:induction false} StaysReturned(events: seq<Event>, run: seq<State>, i: nat, j: nat)
    requires IsRun(events, run) && i <= j < |run| && (run[i].phase.Stopped? || run[i].phase.Cancelled?)
    ensures run[j].phase == run[i].phase
    ensures forall k :: i <= k < j ==> events[k].Tick?
    decreases j
  {
    if i < j {
      StaysReturned(events, run, i, j - 1);
      assert Enabled(run[j - 1], events[j - 1]) && run[j] == Next(run[j - 1], events[j - 1]);
    }
  }

  /**
   The loop gives up by itself for one reason only: Vault answered a lookup and said the
   token is not renewable or has less than a second left.  No error ever ends it.
   */
  lemma StoppedIff(events: seq<Event>, run: seq<State>, j: nat)
    requires IsRun(events, run) && Start(run[0]) && j < |run|
    ensures run[j].phase.Stopped? <==> exists i: nat, k: nat :: k < j && LastReport(events, run, i, k)
  {
    if run[j].phase.Stopped? {
      var i, k := WhereStopped(events, run, j);
    }
    if i: nat, k: nat :| k < j && LastReport(events, run, i, k) {
      StillReported(events, run, i, k);
      assert Enabled(run[k], events[k]) && run[k + 1] == Next(run[k], events[k]);
      StaysReturned(events, run, k + 1, j);
    }
  }

  lemma {:induction false} WhereCancelled(events: seq<Event>, run: seq<State>, j: nat) returns (i: nat)
    requires IsRun(events, run) && Start(run[0]) && j < |run| && run[j].phase.Cancelled?
    ensures i < j && events[i].Cancel?
  {
    i := j - 1;
    assert Enabled(run[j - 1], events[j - 1]) && run[j] == Next(run[j - 1], events[j - 1]);
    if !events[j - 1].Cancel? {
      i := WhereCancelled(events, run, j - 1);
    }
  }

  /** Close ends it too; and a loop that has returned, either way, calls Vault no more. */
  lemma CancelledIff(events: seq<Event>, run: seq<State>, j: nat)
    requires IsRun(events, run) && Start(run[0]) && j < |run|
    ensures run[j].phase.Cancelled? <==> exists i: nat :: i < j && events[i].Cancel?
    ensures run[j].phase.Stopped? || run[j].phase.Cancelled? ==>
              forall k :: j <= k < |events| ==> events[k].Tick?
  {
    if run[j].phase.Cancelled? {
      var i := WhereCancelled(events, run, j);
    }
    if i: nat :| i < j && events[i].Cancel? {
      assert Enabled(run[i], events[i]) && run[i + 1] == Next(run[i], events[i]);
      StaysReturned(events, run, i + 1, j);
    }
    if run[j].phase.Stopped? || run[j].phase.Cancelled? {
      StaysReturned(events, run, j, |events|);
    }
  }

  // ----- what a failure leads to

  predicate IsLogin(e: Event) {
    e.LoginSucceeds? || e.LoginFails?
  }

  lemma {:induction false} StillLoggingIn(events: seq<Event>, run: seq<State>, i: nat, k: nat)
    requires IsRun(events, run) && i < k < |run| && TicksBetween(events, i, k) && !events[i].Tick?
    ensures run[k].phase.LoggingIn? <==> events[i].RenewFails?
  {
    assert Enabled(run[k - 1], events[k - 1]) && run[k] == Next(run[k - 1], events[k - 1]);
    if i + 1 < k {
      StillLoggingIn(events, run, i, k - 1);
    }
  }

  /** Whenever one call follows another, the second is authenticate exactly when the first was a failed renewal. */
  lemma LoginIffRenewalFailed(events: seq<Event>, run: seq<State>, i: nat, k: nat)
    requires IsRun(events, run) && i < k < |events| && TicksBetween(events, i, k)
    requires !events[i].Tick? && !events[k].Tick?
    ensures IsLogin(events[k]) <==> events[i].RenewFails?
  {
    StillLoggingIn(events, run, i, k);
    assert Enabled(run[k], events[k]);
  }

  /** How long the loop backs off after each kind of failure. */
  function BackOff(e: Event): int
    requires e.LookupFails? || e.LoginFails?
  {
    if e.LoginFails? then 15_000_000_000 else 30_000_000_000
  }

  /** Since a failure that was backed off until the instant due, no lookup has been made. */
  predicate BackingOff(s: State, due: int, expiry: int, cancelled: bool) {
    && s.expiry == expiry && (s.phase.Cancelled? <==> cancelled)
    && match s.phase
       case LookupBackoff(until) => until == due
       case LoginBackoff(until) => until == due
       case LookingUp => s.now >= due
       case Cancelled => true
       case _ => false
  }

  lemma FailureBacksOff(s: State, e: Event)
    requires Enabled(s, e) && (e.LookupFails? || e.LoginFails?)
    ensures BackingOff(Next(s, e), s.now + BackOff(e), s.expiry, false)
  {
  }

  lemma BackingOffNext(s: State, e: Event, due: int, expiry: int, cancelled: bool)
    requires Enabled(s, e) && !IsLookup(e) && BackingOff(s, due, expiry, cancelled)
    ensures BackingOff(Next(s, e), due, expiry, cancelled || e.Cancel?)
  {
  }

  ghost predicate CancelledBetween(events: seq<Event>, i: nat, j: nat)
    requires j <= |events|
  {
    exists k :: i < k < j && events[k].Cancel?
  }

  lemma OneEventMore(events: seq<Event>, i: nat, j: nat)
    requires i < j < |events|
    ensures CancelledBetween(events, i, j + 1) <==> CancelledBetween(events, i, j) || events[j].Cancel?
  {
    if events[j].Cancel? {
      assert i < j < j + 1;
    } else if k :| i < k < j + 1 && events[k].Cancel? {
      assert i < k < j;
    }
  }

  lemma {:induction false} SinceFailure(events: seq<Event>, run: seq<State>, i: nat, j: nat)
    requires IsRun(events, run) && i < j < |run| && (events[i].LookupFails? || events[i].LoginFails?)
    requires forall k :: i < k < j ==> !IsLookup(events[k])
    ensures BackingOff(run[j], run[i].now + BackOff(events[i]), run[i].expiry, CancelledBetween(events, i, j))
    decreases j
  {
    if i + 1 == j {
      FailureBacksOff(run[i], events[i]);
    } else {
      SinceFailure(events, run, i, j - 1);
      OneEventMore(events, i, j - 1);
      BackingOffNext(run[j - 1], events[j - 1], run[i].now + BackOff(events[i]), run[i].expiry,
                     CancelledBetween(events, i, j - 1));
    }
  }

  /**
   A failed lookup or a failed login is not the end: from then on, until the next lookup, a
   token that outlives the one in use can still be had exactly when the loop is not cancelled
   and that lookup, 30 s after a failed lookup and 15 s after a failed login, comes with a
   whole second of the token left.
   */
  lemma FailureIff(events: seq<Event>, run: seq<State>, i: nat, j: nat)
    requires IsRun(events, run) && i < j < |run| && (events[i].LookupFails? || events[i].LoginFails?)
    requires forall k :: i < k < j ==> !IsLookup(events[k])
    ensures run[j].expiry == run[i].expiry
    ensures (exists more, rest :: Recovers(run[j], more, rest)) <==>
            && !CancelledBetween(events, i, j)
            && run[i].expiry - Later(run[j].now, run[i].now + BackOff(events[i])) >= 1_000_000_000
  {
    SinceFailure(events, run, i, j);
    RecoverableIff(run[j]);
  }

  // ----- one whole turn of the loop

  /** Vault answers the lookup of turn t. */
  predicate Answered(s: State, t: Turn) {
    t.lookupOk && s.now + t.lookupTime < s.expiry
  }

  /** It says there is something to renew. */
  predicate Renewable(s: State, t: Turn) {
    Answered(s, t) && t.renewable && s.expiry - (s.now + t.lookupTime) >= 1_000_000_000
  }

  function WholeSeconds(d: int): int {
    d / 1_000_000_000 * 1_000_000_000
  }

  /** When the renewal of turn t is answered, if the sleep is not cut short. */
  function RenewalAt(s: State, t: Turn): int
    requires t.firstWait.Fires?
  {
    s.now + t.lookupTime + t.replyTime + 3 * WholeSeconds(s.expiry - (s.now + t.lookupTime)) / 4
    + t.firstWait.lateness + t.renewTime
  }

  predicate Renews(s: State, t: Turn)
    requires t.firstWait.Fires?
  {
    t.renewOk && RenewalAt(s, t) < s.expiry
  }

  /** A renewal whose reply is lost has extended a token that was still live. */
  function ExpiryIfNotRenewed(s: State, t: Turn): int
    requires t.firstWait.Fires?
  {
    if RenewalAt(s, t) < s.expiry then s.expiry + t.lostExtension else s.expiry
  }

  /** How a turn that makes no renewal ends. */
  lemma TurnWithoutRenewal(s: State, t: Turn)
    requires s.phase.LookingUp? && !(Renewable(s, t) && t.firstWait.Fires?)
    ensures var after := AfterTurn(s, t);
            && after.expiry == s.expiry
            && (after.phase.Stopped? <==> Answered(s, t) && !Renewable(s, t))
            && (after.phase.Cancelled? <==> t.firstWait.Cut? && (Answered(s, t) ==> Renewable(s, t)))
            && (after.phase.LookingUp? <==> !Answered(s, t) && t.firstWait.Fires?)
            && (after.phase.LookingUp? ==>
                  after.now == s.now + t.lookupTime + 30_000_000_000 + t.firstWait.lateness)
  {
  }

  /** How a turn that comes to its renewal ends. */
  lemma TurnWithRenewal(s: State, t: Turn)
    requires s.phase.LookingUp? && Renewable(s, t) && t.firstWait.Fires?
    ensures var after, at := AfterTurn(s, t), RenewalAt(s, t);
            && (after.phase.Cancelled? <==> !Renews(s, t) && !t.loginOk && t.secondWait.Cut?)
            && (!after.phase.Cancelled? ==> after.phase.LookingUp?)
            && (Renews(s, t) ==> after.now == at && after.expiry == t.renewExpiry)
            && (!Renews(s, t) && t.loginOk ==>
                  && after.now == at + t.loginTime
                  && after.expiry == if s.auth.FreshLogin? then t.loginExpiry else ExpiryIfNotRenewed(s, t))
            && (!Renews(s, t) && !t.loginOk ==>
                  && after.expiry == ExpiryIfNotRenewed(s, t)
                  && (t.secondWait.Fires? ==>
                        after.now == at + t.loginTime + 15_000_000_000 + t.secondWait.lateness))
  {
  }

  // ----- a loop that Vault keeps answering

  /**
   In turn t Vault answers, renews for life each time, and less than a quarter of it goes into
   calls and timer lateness.
   */
  predicate Steady(s: State, t: Turn, life: nat) {
    && t.lookupOk && t.renewable && t.renewOk && t.firstWait.Fires?
    && 4 * (t.lookupTime + t.replyTime + t.firstWait.lateness + t.renewTime) < life
    && t.renewExpiry == RenewalAt(s, t) + life
  }

  lemma SteadyTurn(s: State, t: Turn, life: nat)
    requires s.phase.LookingUp? && s.expiry == s.now + life && life >= 2_000_000_000 && Steady(s, t, life)
    ensures var after := AfterTurn(s, t);
            && after.phase.LookingUp? && after.expiry == after.now + life
            && s.now < after.now < s.expiry
  {
    assert Renewable(s, t);
    var left := s.expiry - (s.now + t.lookupTime);
    assert 0 < WholeSeconds(left) <= left;
    TurnWithRenewal(s, t);
  }

  /**
   Any number of such turns: the loop never returns, and every turn ends with the token
   renewed before it expired.
   */
  lemma {:induction false} SteadyLoop(s: State, turns: seq<Turn>, life: nat, n: nat)
    requires s.phase.LookingUp? && s.expiry == s.now + life && life >= 2_000_000_000 && n <= |turns|
    requires forall i: nat :: i < |turns| ==> Steady(AfterTurns(s, turns[..i]), turns[i], life)
    ensures var after := AfterTurns(s, turns[..n]); after.phase.LookingUp? && after.expiry == after.now + life
    ensures n > 0 ==> AfterTurns(s, turns[..n]).now < AfterTurns(s, turns[..n - 1]).expiry
  {
    if n > 0 {
      SteadyLoop(s, turns, life, n - 1);
      OneTurnMore(s, turns, n - 1);
      SteadyTurn(AfterTurns(s, turns[..n - 1]), turns[n - 1], life);
    }
  }
}
