/**
 What can still be reached in one enclave lifetime: from which states a New call can still
 succeed, through a running enclave or through init; which clients can still be served; and
 what ends the enclave.  It is here that a restarted host finds its enclave again.
 */
module NitroReconnect {
  import opened Common
  import opened BlsUtil
  import opened EnclaveProto
  import opened NitroProtocol
  import EnclaveInit
  import HostHex
  import Scalar

  // ----- runs, put together

  /** A run from s to t. */
  ghost predicate Leads(bls: Bls, s: State, events: seq<Event>, run: seq<State>, t: State) {
    IsRun(bls, events, run) && run[0] == s && run[|events|] == t
  }

  /** Call h takes no step of its own. */
  ghost predicate Spares(events: seq<Event>, h: nat) {
    forall k :: 0 <= k < |events| ==> Actor(events[k]) != Some(h)
  }

  ghost predicate NoDial(events: seq<Event>, h: nat) {
    forall k :: 0 <= k < |events| ==> !Dials(events[k], h)
  }

  lemma Then(bls: Bls, s: State, events: seq<Event>, run: seq<State>, t: State,
             more: seq<Event>, rest: seq<State>, u: State)
    requires Leads(bls, s, events, run, t) && Leads(bls, t, more, rest, u)
    ensures Leads(bls, s, events + more, run + rest[1..], u)
  {
    Join(bls, events, run, more, rest);
    assert |rest| > 1 ==> rest[1..][|more| - 1] == rest[|more|];
  }

  lemma Step(bls: Bls, s: State, e: Event)
    requires Enabled(s, e)
    ensures Leads(bls, s, [e], [s, Next(bls, s, e)], Next(bls, s, e))
  {
    assert IsStep(bls, [e], [s, Next(bls, s, e)], 0);
  }

  lemma InvAfter(bls: Bls, s: State, events: seq<Event>, run: seq<State>, t: State)
    requires Inv(bls, s) && Leads(bls, s, events, run, t)
    ensures Inv(bls, t)
  {
    InvAlways(bls, events, run, |events|);
  }

  // ----- an enclave that is not dead can be brought to serve

  /** How far the enclave is from serving. */
  function ToGo(s: State): nat {
    match s.pc
    case NotLaunched => 11
    case Booting => 10
    case ReadingInit(_) => 9
    case Accepting => 8
    case Decrypting(_) => 3
    case Replying(_) => 2
    case Starting => 1
    case _ => 0
  }

  /** Someone dials the init port and sends a message. */
  lemma StraySends(bls: Bls, s: State, c: nat) returns (events: seq<Event>, run: seq<State>, t: State)
    requires s.port5001 && c !in s.conns
    ensures Leads(bls, s, events, run, t) && forall h :: Spares(events, h)
    ensures exists message :: t == SetConn(s, c, InitConn(None, false, Some(message), None))
  {
    var message := EnclaveInit.InitMessage("", "", "", "");
    events := [StrayInit(c), SendInit(c, message)];
    var s1 := Next(bls, s, events[0]);
    t := Next(bls, s1, events[1]);
    run := [s, s1, t];
    assert t == SetConn(s, c, InitConn(None, false, Some(message), None));
  }

  /** The enclave accepts a connection whose message has arrived, and decodes it. */
  lemma AcceptsAndDecodes(bls: Bls, s: State, c: nat) returns (events: seq<Event>, run: seq<State>, t: State)
    requires s.pc.Accepting? && c in s.conns && s.conns[c].InitConn? && !s.conns[c].taken
    requires s.conns[c].message.Some?
    ensures Leads(bls, s, events, run, t) && forall h :: Spares(events, h)
    ensures t.pc.Decrypting? && t.hosts == s.hosts && t.conns.Keys == s.conns.Keys
  {
    events := [Accept(c), DecodeInit];
    var s1 := Next(bls, s, events[0]);
    t := Next(bls, s1, events[1]);
    run := [s, s1, t];
  }

  /** Together they bring an init message to an enclave that is listening for it. */
  lemma StrayInitDecoded(bls: Bls, s: State, spare: nat) returns (events: seq<Event>, run: seq<State>, t: State)
    requires s.pc.Accepting? && s.port5001
    ensures spare !in s.conns ==> spare !in t.conns
    ensures Leads(bls, s, events, run, t) && t.pc.Decrypting? && t.hosts == s.hosts
    ensures forall h :: Spares(events, h)
  {
    var c := UpperBound(s.conns.Keys + {spare});
    assert c !in s.conns.Keys + {spare};
    var first, states, mid := StraySends(bls, s, c);
    var more, rest, last := AcceptsAndDecodes(bls, mid, c);
    Then(bls, s, first, states, mid, more, rest, last);
    forall h ensures Spares(first + more, h) {
      assert Spares(first, h) && Spares(more, h);
    }
    events, run, t := first + more, states + rest[1..], last;
  }

  /** Another call launches the enclave. */
  lemma LaunchedByOther(bls: Bls, s: State, h: nat) returns (events: seq<Event>, run: seq<State>, t: State)
    requires s.pc.NotLaunched?
    ensures Leads(bls, s, events, run, t) && t.pc.Booting? && Spares(events, h) && t.conns == s.conns
    ensures h in t.hosts <==> h in s.hosts
    ensures h in s.hosts ==> t.hosts[h] == s.hosts[h]
  {
    var g := UpperBound(s.hosts.Keys + {h});
    assert h in s.hosts.Keys + {h};
    events := [NewCalled(g), Describe(g, false), RunEnclave(g, true, true)];
    var s1 := Next(bls, s, events[0]);
    var s2 := Next(bls, s1, events[1]);
    t := Next(bls, s2, events[2]);
    run := [s, s1, s2, t];
  }

  /** One move of the enclave nearer to serving. */
  lemma EnclaveMove(bls: Bls, s: State, sk: Bytes, h: nat, spare: nat)
    returns (events: seq<Event>, run: seq<State>, t: State)
    requires Inv(bls, s) && Scalar.Valid(sk) && !s.pc.Dead? && !s.pc.Serving?
    ensures Leads(bls, s, events, run, t) && ToGo(t) < ToGo(s) && !t.pc.Dead? && Spares(events, h)
    ensures spare !in s.conns ==> spare !in t.conns
    ensures h in t.hosts <==> h in s.hosts
    ensures h in s.hosts ==> t.hosts[h] == s.hosts[h]
  {
    if s.pc.NotLaunched? {
      events, run, t := LaunchedByOther(bls, s, h);
    } else if s.pc.Accepting? {
      events, run, t := StrayInitDecoded(bls, s, spare);
    } else {
      var e := if s.pc.Booting? then ListenInit(true) else if s.pc.ReadingInit? then DecodeFails
               else if s.pc.Decrypting? then Decrypt(Some(sk)) else if s.pc.Replying? then Reply
               else ListenSign(true);
      Step(bls, s, e);
      events, run, t := [e], [s, Next(bls, s, e)], Next(bls, s, e);
    }
  }

  lemma {:induction false} ToServing(bls: Bls, s: State, sk: Bytes, h: nat, spare: nat)
    returns (events: seq<Event>, run: seq<State>, t: State)
    requires Inv(bls, s) && Scalar.Valid(sk) && !s.pc.Dead?
    ensures Leads(bls, s, events, run, t) && Inv(bls, t) && t.pc.Serving? && Spares(events, h)
    ensures spare !in s.conns ==> spare !in t.conns
    ensures h in t.hosts <==> h in s.hosts
    ensures h in s.hosts ==> t.hosts[h] == s.hosts[h]
    decreases ToGo(s)
  {
    if s.pc.Serving? {
      return [], [s], s;
    }
    var first, states, mid := EnclaveMove(bls, s, sk, h, spare);
    InvAfter(bls, s, first, states, mid);
    var more, rest, last := ToServing(bls, mid, sk, h, spare);
    Then(bls, s, first, states, mid, more, rest, last);
    events, run, t := first + more, states + rest[1..], last;
  }

  // ----- a New call that finds its enclave serving

  /** A run from s in which call h fetches the enclave's public key without ever dialling the init port. */
  ghost predicate FetchingRun(bls: Bls, s: State, h: nat, events: seq<Event>, run: seq<State>) {
    && IsRun(bls, events, run) && run[0] == s && NoDial(events, h)
    && var last := run[|events|];
       last.key.Some? && HostIs(last, h, Ready(bls.pkOf(last.key.value), None))
  }

  /** Call h has a connection open on which its answer is waiting. */
  predicate FetchAnswered(s: State, h: nat) {
    && h in s.hosts && s.hosts[h].Fetching? && s.hosts[h].c in s.conns
    && s.conns[s.hosts[h].c].SignConn? && s.conns[s.hosts[h].c].response.Some?
  }

  /** What a caller can look up: how far the call has come, and what the enclave is doing. */
  predicate CanFetch(s: State, h: nat) {
    if h !in s.hosts then !s.pc.Dead?
    else
      match s.hosts[h]
      case Checking => !s.pc.Dead?
      case Launching => s.pc.NotLaunched?
      case Probing => !s.pc.Dead?
      case FetchDialling => s.pc.Serving?
      case Fetching(_) => s.pc.Serving? || FetchAnswered(s, h)
      case Ready(_, via) => via.None?
      case _ => false
  }

  lemma CannotFetchNext(bls: Bls, s: State, e: Event, h: nat)
    requires Inv(bls, s) && Enabled(s, e) && !CanFetch(s, h)
    ensures !CanFetch(Next(bls, s, e), h)
  {
    if Actor(e) == Some(h) {
      if e.InitReplied? {
        assert HostInv(bls, s, h, s.hosts[h]);
        InitReplyRead(bls, s, s.hosts[h].c);
      }
    } else {
      OthersUnchanged(bls, s, e, h);
      if h in s.hosts {
        assert HostInv(bls, s, h, s.hosts[h]);
      }
    }
  }

  lemma {:induction false} CannotFetchEver(bls: Bls, events: seq<Event>, run: seq<State>, j: nat, h: nat)
    requires IsRun(bls, events, run) && Inv(bls, run[0]) && !CanFetch(run[0], h) && j < |run|
    ensures !CanFetch(run[j], h)
  {
    if j > 0 {
      CannotFetchEver(bls, events, run, j - 1, h);
      InvAlways(bls, events, run, j - 1);
      assert IsStep(bls, events, run, j - 1);
      CannotFetchNext(bls, run[j - 1], events[j - 1], h);
    }
  }

  /** How many steps of its own call h is from the key, once the enclave serves. */
  function OwnSteps(s: State, h: nat): nat {
    if h !in s.hosts then 6
    else
      match s.hosts[h]
      case Checking => 5
      case Probing => 4
      case FetchDialling => 3
      case Fetching(_) => if FetchAnswered(s, h) then 1 else 2
      case _ => 0
  }

  function OwnStep(s: State, h: nat, unused: nat): Event {
    if h !in s.hosts then NewCalled(h)
    else
      match s.hosts[h]
      case Checking => Describe(h, true)
      case Probing => Probe(h, true, true)
      case FetchDialling => FetchDial(h, unused)
      case Fetching(c) => if FetchAnswered(s, h) then FetchReply(h) else Answer(c)
      case _ => Die
  }

  /** In a state from which only the call's own steps are missing. */
  predicate OnTheWay(s: State, h: nat) {
    FetchAnswered(s, h) || (s.pc.Serving? && CanFetch(s, h))
  }

  lemma OwnStepWorks(bls: Bls, s: State, h: nat, unused: nat)
    requires Inv(bls, s) && OnTheWay(s, h) && OwnSteps(s, h) > 0 && unused !in s.conns
    ensures var e := OwnStep(s, h, unused);
            && Enabled(s, e) && !Dials(e, h)
            && var t := Next(bls, s, e);
               && OwnSteps(t, h) == OwnSteps(s, h) - 1 && t.pc == s.pc && t.key == s.key
               && (OwnSteps(t, h) > 0 ==> OnTheWay(t, h))
               && (OwnSteps(t, h) == 0 ==> t.key.Some? && HostIs(t, h, Ready(bls.pkOf(t.key.value), None)))
  {
    if h in s.hosts {
      assert HostInv(bls, s, h, s.hosts[h]);
      if FetchAnswered(s, h) {
        FetchReplyRead(bls, s, s.hosts[h].c);
      }
    }
  }

  lemma {:induction false} Fetch(bls: Bls, s: State, h: nat) returns (events: seq<Event>, run: seq<State>)
    requires Inv(bls, s) && OnTheWay(s, h)
    ensures FetchingRun(bls, s, h, events, run)
    decreases OwnSteps(s, h)
  {
    if OwnSteps(s, h) == 0 {
      assert HostInv(bls, s, h, s.hosts[h]);
      return [], [s];
    }
    var unused := UpperBound(s.conns.Keys);
    OwnStepWorks(bls, s, h, unused);
    var e := OwnStep(s, h, unused);
    var t := Next(bls, s, e);
    InvNext(bls, s, e);
    Step(bls, s, e);
    if OwnSteps(t, h) == 0 {
      return [e], [s, t];
    }
    var more, rest := Fetch(bls, t, h);
    Then(bls, s, [e], [s, t], t, more, rest, rest[|more|]);
    events, run := [e] + more, [s, t] + rest[1..];
  }

  /** The enclave is brought to serve, with call h waiting, and call h then fetches the key. */
  lemma ServeThenFetch(bls: Bls, s: State, h: nat, sk: Bytes) returns (events: seq<Event>, run: seq<State>)
    requires Inv(bls, s) && Scalar.Valid(sk) && !s.pc.Dead?
    requires h in s.hosts ==> s.hosts[h].Checking? || s.hosts[h].Probing?
    ensures FetchingRun(bls, s, h, events, run)
  {
    var first, states, mid := ToServing(bls, s, sk, h, 0);
    assert forall k :: 0 <= k < |first| ==> Actor(first[k]) != Some(h);
    var more, rest := Fetch(bls, mid, h);
    Then(bls, s, first, states, mid, more, rest, rest[|more|]);
    events, run := first + more, states + rest[1..];
  }

  lemma LaunchThenFetch(bls: Bls, s: State, h: nat, sk: Bytes) returns (events: seq<Event>, run: seq<State>)
    requires Inv(bls, s) && Scalar.Valid(sk) && HostIs(s, h, Launching) && s.pc.NotLaunched?
    ensures FetchingRun(bls, s, h, events, run)
  {
    var e := RunEnclave(h, true, true);
    var t := Next(bls, s, e);
    InvNext(bls, s, e);
    Step(bls, s, e);
    var more, rest := ServeThenFetch(bls, t, h, sk);
    Then(bls, s, [e], [s, t], t, more, rest, rest[|more|]);
    events, run := [e] + more, [s, t] + rest[1..];
  }

  /**
   In any reachable state, a New call can still end with the enclave's public key fetched,
   never having touched the init port, exactly when: the enclave is not dead, while the call
   has not begun, is checking or is about to probe; none was launched, when it is about to
   launch one itself; the enclave serves, or has answered already, once the probe found it.
   */
  lemma FetchCanSucceedIff(bls: Bls, s: State, h: nat, sk: Bytes)
    requires Inv(bls, s) && Scalar.Valid(sk)
    ensures (exists events, run :: FetchingRun(bls, s, h, events, run)) <==> CanFetch(s, h)
  {
    if OnTheWay(s, h) {
      var events, run := Fetch(bls, s, h);
    } else if CanFetch(s, h) {
      if h in s.hosts && s.hosts[h].Launching? {
        var events, run := LaunchThenFetch(bls, s, h, sk);
      } else if h in s.hosts && s.hosts[h].Ready? {
        assert HostInv(bls, s, h, s.hosts[h]);
        assert FetchingRun(bls, s, h, [], [s]);
      } else {
        var events, run := ServeThenFetch(bls, s, h, sk);
      }
    } else {
      forall events, run | IsRun(bls, events, run) && run[0] == s
        ensures !FetchingRun(bls, s, h, events, run)
      {
        CannotFetchEver(bls, events, run, |events|, h);
      }
    }
  }

  /** The call has gone to port 5000 for its key, or is over. */
  predicate OffInit(s: State, h: nat) {
    && h in s.hosts
    && match s.hosts[h]
       case FetchDialling => true
       case Fetching(_) => true
       case Ready(_, _) => true
       case Failed => true
       case Crashed => true
       case _ => false
  }

  lemma OffInitNext(bls: Bls, s: State, e: Event, h: nat)
    requires Enabled(s, e) && OffInit(s, h)
    ensures OffInit(Next(bls, s, e), h) && !Dials(e, h)
  {
    if Actor(e) != Some(h) {
      OthersUnchanged(bls, s, e, h);
    }
  }

  /** A call whose probe found port 5000 never goes to the init port, whatever it is answered there. */
  lemma {:induction false} FoundNeverInits(bls: Bls, events: seq<Event>, run: seq<State>, i: nat, j: nat, h: nat)
    requires IsRun(bls, events, run) && i < j < |run| && events[i] == Probe(h, true, true)
    ensures OffInit(run[j], h)
    ensures forall k :: i <= k < j ==> !Dials(events[k], h)
    decreases j
  {
    assert IsStep(bls, events, run, j - 1);
    if i + 1 < j {
      FoundNeverInits(bls, events, run, i, j - 1, h);
      OffInitNext(bls, run[j - 1], events[j - 1], h);
    }
  }

  // ----- the whole of New

  /** In the retry loop, with the init message still to be had or this call the one that is getting the answer. */
  predicate CanStillInit(s: State, h: nat) {
    InRetryLoop(s, h) && ((s.decoded == [] && !s.pc.Dead?) || InitPending(s, h))
  }

  predicate Hopeless(s: State, h: nat) {
    && !CanFetch(s, h) && !CanStillInit(s, h)
    && (h in s.hosts ==> !s.hosts[h].Ready?)
  }

  lemma HopelessNext(bls: Bls, s: State, e: Event, h: nat)
    requires Inv(bls, s) && Enabled(s, e) && Hopeless(s, h)
    ensures Hopeless(Next(bls, s, e), h)
  {
    CannotFetchNext(bls, s, e, h);
    HistoryKept(bls, s, e);
    if InRetryLoop(s, h) {
      assert StrandedAt(s, h);
      StrandedNext(bls, s, e, h);
    } else if Actor(e) != Some(h) {
      OthersUnchanged(bls, s, e, h);
    }
  }

  lemma {:induction false} HopelessForever(bls: Bls, events: seq<Event>, run: seq<State>, j: nat, h: nat)
    requires IsRun(bls, events, run) && Inv(bls, run[0]) && Hopeless(run[0], h) && j < |run|
    ensures Hopeless(run[j], h)
  {
    if j > 0 {
      HopelessForever(bls, events, run, j - 1, h);
      InvAlways(bls, events, run, j - 1);
      assert IsStep(bls, events, run, j - 1);
      HopelessNext(bls, run[j - 1], events[j - 1], h);
    }
  }

  /**
   All of New: from any reachable state a call, however far it has come, can still succeed
   exactly when it can still fetch the key or can still get it through init.
   */
  lemma NewCanSucceedIff(bls: Bls, s: State, h: nat, sk: Bytes)
    requires Inv(bls, s) && Scalar.Valid(sk) && !(h in s.hosts && s.hosts[h].Ready?)
    ensures (exists events, run :: WinningRun(bls, s, h, events, run)) <==> CanFetch(s, h) || CanStillInit(s, h)
  {
    if CanFetch(s, h) {
      FetchCanSucceedIff(bls, s, h, sk);
      var events, run :| FetchingRun(bls, s, h, events, run);
      assert WinningRun(bls, s, h, events, run);
    } else if InRetryLoop(s, h) {
      RetryCanSucceedIff(bls, s, h, sk);
    } else {
      forall events, run | IsRun(bls, events, run) && run[0] == s
        ensures !WinningRun(bls, s, h, events, run)
      {
        HopelessForever(bls, events, run, |events|, h);
      }
    }
  }

  /**
   A host that crashes next to a serving enclave finds it again: whatever else has happened, a
   new call can end with the very key the crashed one had cached, and without a second init.
   */
  lemma RestartReconnects(bls: Bls, events: seq<Event>, run: seq<State>, i: nat, h: nat, g: nat)
    returns (more: seq<Event>, rest: seq<State>)
    requires IsRun(bls, events, run) && run[0] == INITIAL && i < |run|
    requires run[i].pc.Serving? && h in run[i].hosts && run[i].hosts[h].Ready? && g !in run[i].hosts
    ensures IsRun(bls, more, rest) && rest[0] == run[i] && NoDial(more, g)
    ensures h in rest[|more|].hosts && rest[|more|].hosts[h].Crashed?
    ensures HostIs(rest[|more|], g, Ready(run[i].hosts[h].pk, None))
    ensures rest[|more|].decoded == run[i].decoded
  {
    var s, e := run[i], Crash(h);
    InvAlways(bls, events, run, i);
    assert HostInv(bls, s, h, s.hosts[h]);
    var t := Next(bls, s, e);
    InvNext(bls, s, e);
    Step(bls, s, e);
    more, rest := Fetch(bls, t, g);
    CrashedStays(bls, more, rest, |more|, h);
    Then(bls, s, [e], [s, t], t, more, rest, rest[|more|]);
    more, rest := [e] + more, [s, t] + rest[1..];
  }

  /** Besides, a crashed call stays crashed, a held key is kept, and a serving enclave decodes nothing more. */
  lemma {:induction false} CrashedStays(bls: Bls, events: seq<Event>, run: seq<State>, j: nat, h: nat)
    requires IsRun(bls, events, run) && Inv(bls, run[0]) && j < |run|
    requires HostIs(run[0], h, Crashed) && run[0].pc.Serving? && run[0].key.Some?
    ensures HostIs(run[j], h, Crashed) && run[j].key == run[0].key && run[j].decoded == run[0].decoded
  {
    if j > 0 {
      CrashedStays(bls, events, run, j - 1, h);
      InvAlways(bls, events, run, j - 1);
      InvAlways(bls, events, run, j);
      assert IsStep(bls, events, run, j - 1);
      HistoryKept(bls, run[j - 1], events[j - 1]);
      if Actor(events[j - 1]) != Some(h) {
        OthersUnchanged(bls, run[j - 1], events[j - 1], h);
      }
    }
  }

  /** A call leaves its retry loop in three ways only: it reads a reply without an error, gives up, or crashes. */
  lemma LeavesRetryLoopIff(bls: Bls, s: State, e: Event, h: nat)
    requires Inv(bls, s) && Enabled(s, e) && InRetryLoop(s, h)
    ensures !InRetryLoop(Next(bls, s, e), h) <==>
            || e == GiveUp(h) || e == Crash(h)
            || (e == InitReplied(h) && s.conns[s.hosts[h].c].reply.value.error == "")
  {
    if e == InitReplied(h) {
      assert HostInv(bls, s, h, s.hosts[h]);
      assert ConnInv(bls, s, s.hosts[h].c, s.conns[s.hosts[h].c]);
      if s.key.Some? {
        HostHex.RoundTrip(bls.pkOf(s.key.value));
      }
    } else if Actor(e) != Some(h) {
      OthersUnchanged(bls, s, e, h);
    }
  }

  // ----- clients

  /** A run from s after which a client that dialled c with request q reads back its answer. */
  ghost predicate ServedRun(bls: Bls, s: State, c: nat, q: Request, events: seq<Event>, run: seq<State>) {
    && IsRun(bls, events, run) && run[0] == s
    && var last := run[|events|];
       && c in last.conns && last.conns[c].SignConn? && last.conns[c].request == Some(EncodeRequest(q))
       && last.conns[c].response.Some? && last.key.Some?
       && ReadReply(last.conns[c].response.value) == Owed(bls, last.key.value, q)
  }

  function Owed(bls: Bls, sk: Bytes, q: Request): Option<Bytes> {
    if q.kind == "public_key" then Some(bls.pkOf(sk))
    else if q.kind == "sign" then Some(bls.sigOf(sk, q.message, DST_SIGN))
    else if q.kind == "sign_pop" then Some(bls.sigOf(sk, q.message, DST_POP))
    else None
  }

  /** Client c has sent q, or is still to dial. */
  predicate Client(s: State, c: nat, q: Request) {
    c in s.conns ==> s.conns[c].SignConn? && s.conns[c].request == Some(EncodeRequest(q))
  }

  predicate HasAnswer(s: State, c: nat) {
    c in s.conns && s.conns[c].SignConn? && s.conns[c].response.Some?
  }

  lemma AnswerIsOwed(bls: Bls, s: State, c: nat, q: Request)
    requires Inv(bls, s) && Client(s, c, q) && HasAnswer(s, c)
    ensures ServedRun(bls, s, c, q, [], [s])
  {
    assert ConnInv(bls, s, c, s.conns[c]);
    EnclaveProto.Answered(bls, s.key.value, bls.pkOf(s.key.value), q);
  }

  /** By an enclave that serves: dial if need be, and be answered. */
  lemma AskedAndAnswered(bls: Bls, s: State, c: nat, q: Request) returns (events: seq<Event>, run: seq<State>)
    requires Inv(bls, s) && s.pc.Serving? && Client(s, c, q) && !HasAnswer(s, c)
    ensures ServedRun(bls, s, c, q, events, run)
    decreases if c in s.conns then 0 else 1
  {
    var e := if c in s.conns then Answer(c) else SignDial(c, Some(EncodeRequest(q)));
    var t := Next(bls, s, e);
    Step(bls, s, e);
    InvNext(bls, s, e);
    if c in s.conns {
      AnswerIsOwed(bls, t, c, q);
      events, run := [e], [s, t];
    } else {
      events, run := AskedAndAnswered(bls, t, c, q);
      Then(bls, s, [e], [s, t], t, events, run, run[|events|]);
      events, run := [e] + events, [s, t] + run[1..];
    }
  }

  /** Brought to serve first, if it does not yet. */
  lemma ServedInTime(bls: Bls, s: State, c: nat, q: Request, sk: Bytes) returns (events: seq<Event>, run: seq<State>)
    requires Inv(bls, s) && Scalar.Valid(sk) && Client(s, c, q) && !HasAnswer(s, c) && !s.pc.Dead?
    ensures ServedRun(bls, s, c, q, events, run)
  {
    if c in s.conns {
      assert ConnInv(bls, s, c, s.conns[c]);
      events, run := AskedAndAnswered(bls, s, c, q);
    } else {
      var first, states, mid := ToServing(bls, s, sk, 0, c);
      var more, rest := AskedAndAnswered(bls, mid, c, q);
      Then(bls, s, first, states, mid, more, rest, rest[|more|]);
      events, run := first + more, states + rest[1..];
    }
  }

  lemma UnansweredWhenDead(bls: Bls, s: State, e: Event, c: nat)
    requires Enabled(s, e) && EnclaveInv(s) && s.pc.Dead? && !HasAnswer(s, c)
    ensures Next(bls, s, e).pc.Dead? && !HasAnswer(Next(bls, s, e), c)
  {
  }

  lemma {:induction false} NeverServedWhenDead(bls: Bls, events: seq<Event>, run: seq<State>, j: nat, c: nat)
    requires IsRun(bls, events, run) && Inv(bls, run[0]) && run[0].pc.Dead? && !HasAnswer(run[0], c) && j < |run|
    ensures run[j].pc.Dead? && !HasAnswer(run[j], c)
  {
    if j > 0 {
      NeverServedWhenDead(bls, events, run, j - 1, c);
      InvAlways(bls, events, run, j - 1);
      assert IsStep(bls, events, run, j - 1);
      UnansweredWhenDead(bls, run[j - 1], events[j - 1], c);
    }
  }

  /**
   In any reachable state, a client, whatever it asks, can get the answer owed to it under the
   enclave's scalar exactly when it has it already or the enclave is not dead.
   */
  lemma ClientServedIff(bls: Bls, s: State, c: nat, q: Request, sk: Bytes)
    requires Inv(bls, s) && Scalar.Valid(sk) && Client(s, c, q)
    ensures (exists events, run :: ServedRun(bls, s, c, q, events, run)) <==> HasAnswer(s, c) || !s.pc.Dead?
  {
    if HasAnswer(s, c) {
      AnswerIsOwed(bls, s, c, q);
    } else if s.pc.Dead? {
      forall events, run | IsRun(bls, events, run) && run[0] == s
        ensures !ServedRun(bls, s, c, q, events, run)
      {
        NeverServedWhenDead(bls, events, run, |events|, c);
      }
    } else {
      var events, run := ServedInTime(bls, s, c, q, sk);
    }
  }

  /**
   Who still gets through: an init dial only before any init message was consumed, by an enclave
   waiting for one; a signing dial only to an enclave that serves under a valid scalar.
   */
  lemma DialsGetThrough(bls: Bls, events: seq<Event>, run: seq<State>, k: nat)
    requires IsRun(bls, events, run) && run[0] == INITIAL && k < |events|
    ensures events[k].InitDial? || events[k].StrayInit? ==>
              run[k].decoded == [] && (run[k].pc.Accepting? || run[k].pc.ReadingInit?)
    ensures events[k].FetchDial? || events[k].SignDial? ==>
              run[k].pc.Serving? && run[k].key.Some? && Scalar.Valid(run[k].key.value)
  {
    InvAlways(bls, events, run, k);
    assert IsStep(bls, events, run, k);
  }

  // ----- what ends the enclave

  /** It dies or is terminated, cannot listen or accept, or decrypts no valid scalar. */
  predicate Fatal(e: Event) {
    match e
    case Die => true
    case ListenInit(ok) => !ok
    case AcceptFails => true
    case Decrypt(plaintext) => plaintext.None? || !Scalar.Valid(plaintext.value)
    case ListenSign(ok) => !ok
    case _ => false
  }

  /** The enclave is dead exactly when one of these has happened; then both ports are closed. */
  lemma {:induction false} DeadIff(bls: Bls, events: seq<Event>, run: seq<State>, j: nat)
    requires IsRun(bls, events, run) && run[0] == INITIAL && j < |run|
    ensures run[j].pc.Dead? <==> exists k :: 0 <= k < j && Fatal(events[k])
    ensures run[j].pc.Dead? ==> !run[j].port5001 && !run[j].port5000
  {
    InvAlways(bls, events, run, j);
    if j > 0 {
      DeadIff(bls, events, run, j - 1);
      InvAlways(bls, events, run, j - 1);
      assert IsStep(bls, events, run, j - 1);
      DeadNext(bls, run[j - 1], events[j - 1]);
    }
  }

  lemma DeadNext(bls: Bls, s: State, e: Event)
    requires Enabled(s, e) && EnclaveInv(s)
    ensures Next(bls, s, e).pc.Dead? <==> s.pc.Dead? || Fatal(e)
  {
  }

  // ----- the message that counts

  predicate Carries(s: State, c: nat, message: EnclaveInit.InitMessage) {
    c in s.conns && s.conns[c].InitConn? && s.conns[c].message == Some(message)
  }

  lemma CarriesBefore(bls: Bls, s: State, e: Event, c: nat, message: EnclaveInit.InitMessage)
    requires Enabled(s, e) && Carries(Next(bls, s, e), c, message)
    ensures Carries(s, c, message) || e == SendInit(c, message)
  {
  }

  lemma {:induction false} WhereSent(bls: Bls, events: seq<Event>, run: seq<State>, j: nat, c: nat,
                                     message: EnclaveInit.InitMessage) returns (k: nat)
    requires IsRun(bls, events, run) && run[0] == INITIAL && j < |run| && Carries(run[j], c, message)
    ensures k < j && events[k] == SendInit(c, message)
  {
    assert IsStep(bls, events, run, j - 1);
    CarriesBefore(bls, run[j - 1], events[j - 1], c, message);
    k := j - 1;
    if events[j - 1] != SendInit(c, message) {
      k := WhereSent(bls, events, run, j - 1, c, message);
    }
  }

  /** The message ReceiveInit returns was sent, unchanged, on the very connection it was decoded from. */
  lemma DecodedWasSent(bls: Bls, events: seq<Event>, run: seq<State>, i: nat) returns (c: nat, k: nat)
    requires IsRun(bls, events, run) && run[0] == INITIAL && i < |run|
    requires EnclaveInit.OutcomeOf(Arrivals(bls, events, run, i)).Received?
    ensures run[i].decoded == [c] && k < i
    ensures events[k] == SendInit(c, EnclaveInit.OutcomeOf(Arrivals(bls, events, run, i)).message)
  {
    ReceiveInitInRun(bls, events, run, i);
    c := run[i].decoded[0];
    k := WhereSent(bls, events, run, i, c, EnclaveInit.OutcomeOf(Arrivals(bls, events, run, i)).message);
  }

  // ----- no connection is tried twice

  ghost predicate TriedInv(s: State, tried: seq<nat>) {
    && (forall a, b :: 0 <= a < b < |tried| ==> tried[a] != tried[b])
    && (forall a :: 0 <= a < |tried| ==> TakenConn(s, tried[a]))
    && (s.pc.ReadingInit? ==> s.pc.c !in tried && TakenConn(s, s.pc.c))
  }

  predicate TakenConn(s: State, c: nat) {
    c in s.conns && s.conns[c].InitConn? && s.conns[c].taken
  }

  lemma TakenStays(bls: Bls, s: State, e: Event, c: nat)
    requires Enabled(s, e) && TakenConn(s, c)
    ensures TakenConn(Next(bls, s, e), c)
  {
  }

  lemma TriedInvNext(bls: Bls, s: State, e: Event, tried: seq<nat>)
    requires Enabled(s, e) && EnclaveInv(s) && TriedInv(s, tried)
    ensures TriedInv(Next(bls, s, e), tried + Finished(s, e))
  {
    forall a | 0 <= a < |tried| ensures TakenConn(Next(bls, s, e), tried[a]) {
      TakenStays(bls, s, e, tried[a]);
    }
    if s.pc.ReadingInit? {
      TakenStays(bls, s, e, s.pc.c);
    }
  }

  lemma {:induction false} TriedAlways(bls: Bls, events: seq<Event>, run: seq<State>, j: nat)
    requires IsRun(bls, events, run) && run[0] == INITIAL && j < |run|
    ensures TriedInv(run[j], Tried(bls, events, run, j))
  {
    if j > 0 {
      TriedAlways(bls, events, run, j - 1);
      InvAlways(bls, events, run, j - 1);
      assert IsStep(bls, events, run, j - 1);
      TriedInvNext(bls, run[j - 1], events[j - 1], Tried(bls, events, run, j - 1));
    }
  }

  /** The accept loop never reads from one connection twice: a failed one is not offered again. */
  lemma TriedOnce(bls: Bls, events: seq<Event>, run: seq<State>, j: nat, a: nat, b: nat)
    requires IsRun(bls, events, run) && run[0] == INITIAL && j < |run|
    requires a < b < |Tried(bls, events, run, j)|
    ensures Tried(bls, events, run, j)[a] != Tried(bls, events, run, j)[b]
  {
    TriedAlways(bls, events, run, j);
  }
}
