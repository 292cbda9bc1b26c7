/**
 Shutdown: requests in flight in signerserver while serveCmd's deferred Close overwrites the
 key.  A request copies the 32 key bytes one at a time, and Close zeroes them one at a time,
 in any interleaving the phases allow.  Taken from the gRPC library: after GracefulStop,
 Serve returns only once every accepted request has been answered.
 */
module Shutdown {
  import opened Common
  import opened BlsUtil
  import LocalBackend
  import Scalar

  datatype Query = PublicKeyQuery | SignQuery(kind: Kind, msg: Bytes)

  datatype Rpc = Running(query: Query, copied: Bytes) | Replied(query: Query, reply: Result<Bytes, Error>)

  /** Returned is ListenAndServe's return, with or without an error. */
  datatype Phase = Serving | Draining | Returned | Closing(zeroed: nat) | Closed

  datatype State = State(phase: Phase, buffer: Bytes, pk: Bytes, rpcs: map<nat, Rpc>)

  datatype Event =
    | Accept(id: nat, query: Query)
    | CopyByte(id: nat)
    | Finish(id: nat)
    | Cancel
    | Drained
    | ServeFails
    | BeginClose
    | ZeroByte
    | CloseReturns

  predicate IsRunning(s: State, id: nat) {
    id in s.rpcs && s.rpcs[id].Running?
  }

  predicate Idle(s: State) {
    forall id :: id in s.rpcs ==> s.rpcs[id].Replied?
  }

  predicate Enabled(s: State, e: Event) {
    match e
    case Accept(id, _) => (s.phase.Serving? || s.phase.Draining?) && id !in s.rpcs
    case CopyByte(id) => IsRunning(s, id) && |s.rpcs[id].copied| < |s.buffer|
    case Finish(id) => IsRunning(s, id) && (s.rpcs[id].query.SignQuery? ==> |s.rpcs[id].copied| == |s.buffer|)
    case Cancel => s.phase.Serving?
    case Drained => s.phase.Draining? && Idle(s)
    case ServeFails => s.phase.Serving?
    case BeginClose => s.phase.Returned?
    case ZeroByte => s.phase.Closing? && s.phase.zeroed < |s.buffer|
    case CloseReturns => s.phase.Closing? && s.phase.zeroed >= |s.buffer|
  }

  function Answer(bls: Bls, s: State, rpc: Rpc): Result<Bytes, Error>
    requires rpc.Running?
  {
    match rpc.query
    case PublicKeyQuery => Ok(s.pk)
    case SignQuery(kind, msg) => Sign(bls, rpc.copied, msg, DstOf(kind))
  }

  function Next(bls: Bls, s: State, e: Event): State
    requires Enabled(s, e)
  {
    match e
    case Accept(id, query) => s.(rpcs := s.rpcs[id := Running(query, [])])
    case CopyByte(id) =>
      var rpc := s.rpcs[id];
      s.(rpcs := s.rpcs[id := Running(rpc.query, rpc.copied + [s.buffer[|rpc.copied|]])])
    case Finish(id) =>
      var rpc := s.rpcs[id];
      s.(rpcs := s.rpcs[id := Replied(rpc.query, Answer(bls, s, rpc))])
    case Cancel => s.(phase := Draining)
    case Drained => s.(phase := Returned)
    case ServeFails => s.(phase := Returned)
    case BeginClose => s.(phase := Closing(0))
    case ZeroByte => s.(phase := Closing(s.phase.zeroed + 1), buffer := s.buffer[s.phase.zeroed := 0])
    case CloseReturns => s.(phase := Closed)
  }

  /** A backend holding sk, just started. */
  function Start(bls: Bls, sk: Bytes): State {
    State(Serving, sk, bls.pkOf(sk), map[])
  }

  ghost predicate IsRun(bls: Bls, events: seq<Event>, run: seq<State>) {
    && |run| == |events| + 1
    && forall i :: 0 <= i < |events| ==> Enabled(run[i], events[i]) && run[i + 1] == Next(bls, run[i], events[i])
  }

  /** The reply every caller is owed. */
  function Owed(bls: Bls, sk: Bytes, query: Query): Bytes {
    match query
    case PublicKeyQuery => bls.pkOf(sk)
    case SignQuery(kind, msg) => bls.sigOf(sk, msg, DstOf(kind))
  }

  predicate RpcInv(bls: Bls, sk: Bytes, rpc: Rpc) {
    match rpc
    case Running(_, copied) => copied <= sk
    case Replied(query, reply) => reply == Ok(Owed(bls, sk, query))
  }

  /** The buffer is whole until Close begins, and Close begins only when nothing is running. */
  ghost predicate Inv(bls: Bls, sk: Bytes, s: State) {
    && |s.buffer| == |sk|
    && s.pk == bls.pkOf(sk)
    && (forall id :: id in s.rpcs ==> RpcInv(bls, sk, s.rpcs[id]))
    && (s.phase.Serving? || s.phase.Draining? || Idle(s))
    && (match s.phase
        case Closing(k) => k <= |sk| && s.buffer == Scalar.ZeroPrefix(sk, k)
        case Closed => s.buffer == Zeros(|sk|)
        case _ => s.buffer == sk)
  }

  lemma InvNext(bls: Bls, sk: Bytes, s: State, e: Event)
    requires Scalar.Valid(sk) && Inv(bls, sk, s) && Enabled(s, e) && !e.ServeFails?
    ensures Inv(bls, sk, Next(bls, s, e))
  {
    match e
    case BeginClose =>
      assert sk == Scalar.ZeroPrefix(sk, 0);
    case ZeroByte =>
      LocalBackend.ZeroNext(sk, s.phase.zeroed);
    case CloseReturns =>
      assert Scalar.ZeroPrefix(sk, |sk|) == Zeros(|sk|);
    case CopyByte(id) =>
      assert IsRunning(s, id) && RpcInv(bls, sk, s.rpcs[id]);
    case Finish(id) =>
      var rpc := s.rpcs[id];
      assert RpcInv(bls, sk, rpc);
      if rpc.query.SignQuery? {
        assert rpc.copied == sk[..|rpc.copied|] == sk;
      }
      assert RpcInv(bls, sk, Replied(rpc.query, Answer(bls, s, rpc)));
    case _ =>
  }

  lemma {:induction false} InvAlways(bls: Bls, sk: Bytes, events: seq<Event>, run: seq<State>, i: nat)
    requires Scalar.Valid(sk) && IsRun(bls, events, run) && run[0] == Start(bls, sk)
    requires ServeFails !in events && i < |run|
    ensures Inv(bls, sk, run[i])
  {
    if i > 0 {
      InvAlways(bls, sk, events, run, i - 1);
      InvNext(bls, sk, run[i - 1], events[i - 1]);
    }
  }

  /**
   In a run ended by cancellation every reply ever given is the one owed under the original
   scalar; zeroing never overlaps a request; and when Close returns the key is gone and no
   accepted request is left unanswered.
   */
  lemma DrainBeforeZeroing(bls: Bls, sk: Bytes, events: seq<Event>, run: seq<State>, i: nat)
    requires Scalar.Valid(sk) && IsRun(bls, events, run) && run[0] == Start(bls, sk)
    requires ServeFails !in events && i < |run|
    ensures forall id :: id in run[i].rpcs && run[i].rpcs[id].Replied? ==>
              run[i].rpcs[id].reply == Ok(Owed(bls, sk, run[i].rpcs[id].query))
    ensures forall id :: IsRunning(run[i], id) ==> run[i].buffer == sk
    ensures run[i].phase.Closed? ==> run[i].buffer == Zeros(Scalar.SIZE) && Idle(run[i])
  {
    InvAlways(bls, sk, events, run, i);
    forall id | id in run[i].rpcs
      ensures RpcInv(bls, sk, run[i].rpcs[id])
    {
    }
  }

  // ----- a cancelled server does finish

  /** The server takes itself to be serving exactly until it is cancelled or Serve fails. */
  lemma {:induction false} ServingIff(bls: Bls, sk: Bytes, events: seq<Event>, run: seq<State>, j: nat)
    requires IsRun(bls, events, run) && run[0] == Start(bls, sk) && j < |run|
    ensures run[j].phase.Serving? <==> Cancel !in events[..j] && ServeFails !in events[..j]
  {
    if j > 0 {
      ServingIff(bls, sk, events, run, j - 1);
      assert events[..j] == events[..j - 1] + [events[j - 1]];
      assert Enabled(run[j - 1], events[j - 1]) && run[j] == Next(bls, run[j - 1], events[j - 1]);
    }
  }

  /** A run on from s in which Serve does not fail. */
  ghost predicate Continues(bls: Bls, s: State, events: seq<Event>, run: seq<State>) {
    IsRun(bls, events, run) && run[0] == s && ServeFails !in events
  }

  lemma Join(bls: Bls, s: State, events: seq<Event>, run: seq<State>, more: seq<Event>, rest: seq<State>)
    requires Continues(bls, s, events, run) && Continues(bls, run[|events|], more, rest)
    ensures Continues(bls, s, events + more, run + rest[1..])
    ensures (run + rest[1..])[|events + more|] == rest[|more|]
    ensures forall m :: 0 <= m < |run| ==> (run + rest[1..])[m] == run[m]
    ensures forall m :: 0 <= m < |rest| ==> (run + rest[1..])[|events| + m] == rest[m]
  {
    var both, all := events + more, run + rest[1..];
    forall i | 0 <= i < |both| ensures Enabled(all[i], both[i]) && all[i + 1] == Next(bls, all[i], both[i]) {
      if i >= |events| {
        assert all[i] == rest[i - |events|] && all[i + 1] == rest[i + 1 - |events|];
        assert both[i] == more[i - |events|];
      } else {
        assert all[i] == run[i] && all[i + 1] == run[i + 1] && both[i] == events[i];
      }
    }
  }

  lemma FirstStep(bls: Bls, s: State, e: Event, more: seq<Event>, rest: seq<State>)
    requires Enabled(s, e) && !e.ServeFails? && Continues(bls, Next(bls, s, e), more, rest)
    ensures Continues(bls, s, [e] + more, [s] + rest)
    ensures ([s] + rest)[|[e] + more|] == rest[|more|]
  {
    var both, all := [e] + more, [s] + rest;
    forall i | 0 <= i < |both| ensures Enabled(all[i], both[i]) && all[i + 1] == Next(bls, all[i], both[i]) {
      if i > 0 {
        assert all[i] == rest[i - 1] && all[i + 1] == rest[i] && both[i] == more[i - 1];
      }
    }
  }

  /** A request that is running reads the rest of the key and is answered as it is owed. */
  lemma {:induction false} FinishOne(bls: Bls, sk: Bytes, s: State, id: nat)
    returns (more: seq<Event>, rest: seq<State>)
    requires Scalar.Valid(sk) && Inv(bls, sk, s) && IsRunning(s, id)
    ensures Continues(bls, s, more, rest) && Cancel !in more
    ensures var query := s.rpcs[id].query;
            rest[|more|] == s.(rpcs := s.rpcs[id := Replied(query, Ok(Owed(bls, sk, query)))])
    decreases |sk| - |s.rpcs[id].copied|
  {
    var rpc := s.rpcs[id];
    assert RpcInv(bls, sk, rpc);
    var e := if |rpc.copied| < |sk| then CopyByte(id) else Finish(id);
    var s' := Next(bls, s, e);
    InvNext(bls, sk, s, e);
    if |rpc.copied| < |sk| {
      more, rest := FinishOne(bls, sk, s', id);
      FirstStep(bls, s, e, more, rest);
      var done := Replied(rpc.query, Ok(Owed(bls, sk, rpc.query)));
      assert s'.rpcs[id := done] == s.rpcs[id := done];
      more, rest := [e] + more, [s] + rest;
    } else {
      assert RpcInv(bls, sk, s'.rpcs[id]);
      more, rest := [e], [s, s'];
    }
  }

  function RunningIds(s: State): set<nat> {
    set id | id in s.rpcs && s.rpcs[id].Running?
  }

  /** The same requests, each with the reply it is owed. */
  ghost predicate AllAnswered(bls: Bls, sk: Bytes, s: State, last: State) {
    && s.rpcs.Keys == last.rpcs.Keys
    && forall id :: id in s.rpcs ==> last.rpcs[id] == Replied(s.rpcs[id].query, Ok(Owed(bls, sk, s.rpcs[id].query)))
  }

  lemma {:induction false} FinishAll(bls: Bls, sk: Bytes, s: State) returns (more: seq<Event>, rest: seq<State>)
    requires Scalar.Valid(sk) && Inv(bls, sk, s)
    ensures Continues(bls, s, more, rest) && Cancel !in more
    ensures var last := rest[|more|];
            Inv(bls, sk, last) && AllAnswered(bls, sk, s, last) && last == s.(rpcs := last.rpcs)
    decreases RunningIds(s)
  {
    if RunningIds(s) == {} {
      forall id | id in s.rpcs
        ensures s.rpcs[id] == Replied(s.rpcs[id].query, Ok(Owed(bls, sk, s.rpcs[id].query)))
      {
        assert id !in RunningIds(s) && RpcInv(bls, sk, s.rpcs[id]);
      }
      return [], [s];
    }
    var id :| id in RunningIds(s);
    more, rest := FinishOne(bls, sk, s, id);
    var s' := rest[|more|];
    StillInv(bls, sk, s, more, rest);
    assert RunningIds(s') == RunningIds(s) - {id};
    var es, r := FinishAll(bls, sk, s');
    Join(bls, s, more, rest, es, r);
    more, rest := more + es, rest + r[1..];
  }

  lemma {:induction false} StillInv(bls: Bls, sk: Bytes, s: State, events: seq<Event>, run: seq<State>)
    requires Scalar.Valid(sk) && Inv(bls, sk, s) && Continues(bls, s, events, run)
    ensures Inv(bls, sk, run[|events|])
    decreases |events|
  {
    if events != [] {
      var n := |events| - 1;
      StillInv(bls, sk, s, events[..n], run[..n + 1]);
      assert Enabled(run[n], events[n]) && run[n + 1] == Next(bls, run[n], events[n]);
      InvNext(bls, sk, run[n], events[n]);
    }
  }

  /** How much of the key Close has zeroed so far. */
  function Zeroed(s: State): nat {
    if s.phase.Closing? then s.phase.zeroed else 0
  }

  /** Close zeroes what is left, one byte after the other. */
  lemma {:induction false} ZeroOut(bls: Bls, sk: Bytes, s: State) returns (more: seq<Event>, rest: seq<State>)
    requires Scalar.Valid(sk) && Inv(bls, sk, s) && s.phase.Closing?
    ensures Continues(bls, s, more, rest) && Cancel !in more && |more| == |sk| - s.phase.zeroed + 1
    ensures forall m :: 0 <= m < |more| ==> rest[m].buffer == Scalar.ZeroPrefix(sk, s.phase.zeroed + m)
    ensures rest[|more|] == s.(phase := Closed, buffer := Zeros(|sk|))
    decreases |sk| - s.phase.zeroed
  {
    if s.phase.zeroed == |sk| {
      assert Scalar.ZeroPrefix(sk, |sk|) == Zeros(|sk|);
      return [CloseReturns], [s, Next(bls, s, CloseReturns)];
    }
    InvNext(bls, sk, s, ZeroByte);
    var s' := Next(bls, s, ZeroByte);
    more, rest := ZeroOut(bls, sk, s');
    FirstStep(bls, s, ZeroByte, more, rest);
    forall m | 0 <= m < |more| + 1
      ensures ([s] + rest)[m].buffer == Scalar.ZeroPrefix(sk, s.phase.zeroed + m)
    {
      if m > 0 {
        assert ([s] + rest)[m] == rest[m - 1];
      }
    }
    more, rest := [ZeroByte] + more, [s] + rest;
  }

  /** At some moment the first k bytes are zero and the others are not touched yet. */
  ghost predicate Passes(run: seq<State>, sk: Bytes, k: nat) {
    exists m :: ZeroedTo(run, m, sk, k)
  }

  predicate ZeroedTo(run: seq<State>, m: int, sk: Bytes, k: nat) {
    0 <= m < |run| && k <= |sk| && run[m].buffer == Scalar.ZeroPrefix(sk, k)
  }

  lemma PassesLater(early: seq<State>, late: seq<State>, sk: Bytes, k: nat)
    requires Passes(late, sk, k)
    ensures Passes(early + late, sk, k)
  {
    var m :| ZeroedTo(late, m, sk, k);
    assert ZeroedTo(early + late, |early| + m, sk, k);
  }

  /** With no request running: cancelled if need be, drained, returned, closed. */
  lemma {:induction false} CloseDown(bls: Bls, sk: Bytes, s: State) returns (more: seq<Event>, rest: seq<State>)
    requires Scalar.Valid(sk) && Inv(bls, sk, s) && Idle(s) && !s.phase.Closed?
    ensures Continues(bls, s, more, rest) && (Cancel in more <==> s.phase.Serving?)
    ensures rest[|more|] == s.(phase := Closed, buffer := Zeros(|sk|))
    ensures forall k :: Zeroed(s) <= k <= |sk| ==> Passes(rest, sk, k)
    decreases match s.phase case Serving => 3 case Draining => 2 case Returned => 1 case _ => 0
  {
    if s.phase.Closing? {
      more, rest := ZeroOut(bls, sk, s);
      forall k | Zeroed(s) <= k <= |sk| ensures Passes(rest, sk, k) {
        assert ZeroedTo(rest, k - Zeroed(s), sk, k);
      }
    } else {
      var e := if s.phase.Serving? then Cancel else if s.phase.Draining? then Drained else BeginClose;
      InvNext(bls, sk, s, e);
      more, rest := CloseDown(bls, sk, Next(bls, s, e));
      FirstStep(bls, s, e, more, rest);
      forall k | 0 <= k <= |sk| ensures Passes([s] + rest, sk, k) {
        PassesLater([s], rest, sk, k);
      }
      more, rest := [e] + more, [s] + rest;
    }
  }

  /**
   From wherever a run without a failing Serve has got to, the shutdown can be completed:
   cancelled unless it was before, every accepted request answered as it is owed, the key
   zeroed byte by byte from the front, and Close returned.
   */
  lemma ShutdownCompletes(bls: Bls, sk: Bytes, events: seq<Event>, run: seq<State>, i: nat)
    returns (more: seq<Event>, rest: seq<State>)
    requires Scalar.Valid(sk) && IsRun(bls, events, run) && run[0] == Start(bls, sk)
    requires ServeFails !in events && i < |run|
    ensures Continues(bls, run[i], more, rest)
    ensures Cancel in more <==> Cancel !in events[..i]
    ensures var last := rest[|more|];
            last.phase.Closed? && last.buffer == Zeros(Scalar.SIZE) && AllAnswered(bls, sk, run[i], last)
    ensures !run[i].phase.Closed? ==>
              forall k :: Zeroed(run[i]) <= k <= Scalar.SIZE ==> Passes(rest, sk, k)
  {
    InvAlways(bls, sk, events, run, i);
    ServingIff(bls, sk, events, run, i);
    more, rest := FinishAll(bls, sk, run[i]);
    if !run[i].phase.Closed? {
      var s' := rest[|more|];
      var es, r := CloseDown(bls, sk, s');
      Join(bls, run[i], more, rest, es, r);
      forall k | Zeroed(s') <= k <= |sk| ensures Passes(rest + r[1..], sk, k) {
        assert rest + r[1..] == rest[..|more|] + r;
        PassesLater(rest[..|more|], r, sk, k);
      }
      more, rest := more + es, rest + r[1..];
    }
  }

  /** A run on from s after which the request that came as id has the reply it is owed. */
  ghost predicate ServedRun(bls: Bls, sk: Bytes, s: State, id: nat, query: Query, events: seq<Event>, run: seq<State>) {
    && Continues(bls, s, events, run)
    && id in run[|events|].rpcs && run[|events|].rpcs[id] == Replied(query, Ok(Owed(bls, sk, query)))
  }

  lemma {:induction false} TooLate(bls: Bls, events: seq<Event>, run: seq<State>, j: nat, id: nat)
    requires IsRun(bls, events, run) && j < |run| && id !in run[0].rpcs
    requires !run[0].phase.Serving? && !run[0].phase.Draining?
    ensures id !in run[j].rpcs && !run[j].phase.Serving? && !run[j].phase.Draining?
  {
    if j > 0 {
      TooLate(bls, events, run, j - 1, id);
      assert Enabled(run[j - 1], events[j - 1]) && run[j] == Next(bls, run[j - 1], events[j - 1]);
    }
  }

  /** A request still to come can be served exactly while ListenAndServe has not returned. */
  lemma NewRequestServedIff(bls: Bls, sk: Bytes, s: State, id: nat, query: Query)
    requires Scalar.Valid(sk) && Inv(bls, sk, s) && id !in s.rpcs
    ensures (exists events, run :: ServedRun(bls, sk, s, id, query, events, run)) <==>
            s.phase.Serving? || s.phase.Draining?
  {
    if s.phase.Serving? || s.phase.Draining? {
      var e := Accept(id, query);
      var t := Next(bls, s, e);
      InvNext(bls, sk, s, e);
      var more, rest := FinishOne(bls, sk, t, id);
      FirstStep(bls, s, e, more, rest);
      assert ServedRun(bls, sk, s, id, query, [e] + more, [s] + rest);
    } else {
      forall events, run | Continues(bls, s, events, run)
        ensures !ServedRun(bls, sk, s, id, query, events, run)
      {
        TooLate(bls, events, run, |events|, id);
      }
    }
  }

  // ----- why the drain is needed: the error exit of Serve does not wait

  lemma Append(bls: Bls, events: seq<Event>, run: seq<State>, e: Event)
    requires IsRun(bls, events, run) && Enabled(run[|events|], e)
    ensures IsRun(bls, events + [e], run + [Next(bls, run[|events|], e)])
  {
  }

  /** A request that has copied its first n bytes can go on to copy the rest. */
  lemma {:induction false} CopyOn(bls: Bls, events: seq<Event>, run: seq<State>, id: nat, n: nat)
    returns (more: seq<Event>, longer: seq<State>)
    requires IsRun(bls, events, run) && |run| == |events| + 1
    requires var s := run[|events|];
             IsRunning(s, id) && |s.rpcs[id].copied| == n <= |s.buffer| && s.rpcs[id].copied == s.buffer[..n]
    ensures IsRun(bls, more, longer) && run <= longer
    ensures longer[|more|] == run[|events|].(
              rpcs := run[|events|].rpcs[id := Running(run[|events|].rpcs[id].query, run[|events|].buffer)])
    decreases |run[|events|].buffer| - n
  {
    var s := run[|events|];
    if n == |s.buffer| {
      assert s.buffer[..n] == s.buffer;
      assert s.rpcs[id := Running(s.rpcs[id].query, s.buffer)] == s.rpcs;
      return events, run;
    }
    var s' := Next(bls, s, CopyByte(id));
    Append(bls, events, run, CopyByte(id));
    assert s.buffer[..n + 1] == s.buffer[..n] + [s.buffer[n]];
    more, longer := CopyOn(bls, events + [CopyByte(id)], run + [s'], id, n + 1);
    assert s'.rpcs[id := Running(s.rpcs[id].query, s.buffer)] == s.rpcs[id := Running(s.rpcs[id].query, s.buffer)];
  }

  /** A request is accepted, Serve fails, and Close begins. */
  lemma ErrorExit(bls: Bls, sk: Bytes, query: Query) returns (events: seq<Event>, run: seq<State>)
    ensures IsRun(bls, events, run) && run[0] == Start(bls, sk)
    ensures run[|events|] == State(Closing(0), sk, bls.pkOf(sk), map[0 := Running(query, [])])
  {
    events := [Accept(0, query), ServeFails, BeginClose];
    var s0 := Start(bls, sk);
    var s1 := s0.(rpcs := map[0 := Running(query, [])]);
    run := [s0, s1, s1.(phase := Returned), s1.(phase := Closing(0))];
  }

  /** Close zeroes k bytes while the request waits. */
  lemma {:induction false} ErrorExitZeroing(bls: Bls, sk: Bytes, query: Query, k: nat)
    returns (events: seq<Event>, run: seq<State>)
    requires k <= |sk|
    ensures IsRun(bls, events, run) && run[0] == Start(bls, sk)
    ensures run[|events|] == State(Closing(k), Scalar.ZeroPrefix(sk, k), bls.pkOf(sk), map[0 := Running(query, [])])
  {
    if k == 0 {
      events, run := ErrorExit(bls, sk, query);
      assert Scalar.ZeroPrefix(sk, 0) == sk;
    } else {
      events, run := ErrorExitZeroing(bls, sk, query, k - 1);
      Append(bls, events, run, ZeroByte);
      LocalBackend.ZeroNext(sk, k - 1);
      events, run := events + [ZeroByte], run + [Next(bls, run[|events|], ZeroByte)];
    }
  }

  /** The request then copies what is left and is answered with it. */
  lemma AnsweredWithZeroed(bls: Bls, sk: Bytes, kind: Kind, msg: Bytes, k: nat)
    returns (events: seq<Event>, run: seq<State>)
    requires k <= |sk|
    ensures IsRun(bls, events, run) && run[0] == Start(bls, sk)
    ensures |events| > 0 && events[|events| - 1] == Finish(0)
    ensures SignsWith(run[|events| - 1], 0, Scalar.ZeroPrefix(sk, k))
    ensures 0 in run[|events|].rpcs
    ensures run[|events|].rpcs[0] ==
            Replied(SignQuery(kind, msg), Sign(bls, Scalar.ZeroPrefix(sk, k), msg, DstOf(kind)))
  {
    var early, states := ErrorExitZeroing(bls, sk, SignQuery(kind, msg), k);
    var more, longer := CopyOn(bls, early, states, 0, 0);
    Append(bls, more, longer, Finish(0));
    events := more + [Finish(0)];
    run := longer + [Next(bls, longer[|more|], Finish(0))];
  }

  /** Request id is about to be signed with the given bytes as its key. */
  predicate SignsWith(s: State, id: nat, key: Bytes) {
    IsRunning(s, id) && s.rpcs[id].query.SignQuery? && s.rpcs[id].copied == key
  }

  /** A run of any kind in which some request is signed under a valid key other than sk. */
  ghost predicate SignsUnderOther(bls: Bls, sk: Bytes, events: seq<Event>, run: seq<State>) {
    && IsRun(bls, events, run) && run[0] == Start(bls, sk)
    && exists i, id, other ::
         0 <= i < |events| && events[i] == Finish(id) && SignsWith(run[i], id, other)
         && Scalar.Valid(other) && other != sk
  }

  predicate TwoNonzeroBytes(sk: Bytes) {
    exists i, j :: 0 <= i < j < |sk| && sk[i] != 0 && sk[j] != 0
  }

  /** Each byte is the key's or zero. */
  predicate Blanked(z: Bytes, sk: Bytes) {
    |z| <= |sk| && forall i :: 0 <= i < |z| ==> z[i] == sk[i] || z[i] == 0
  }

  /** What holds whichever way Serve ends. */
  ghost predicate BlankedState(sk: Bytes, s: State) {
    && |s.buffer| == |sk| && Blanked(s.buffer, sk)
    && forall id :: IsRunning(s, id) ==> Blanked(s.rpcs[id].copied, sk)
  }

  lemma BlankedNext(bls: Bls, sk: Bytes, s: State, e: Event)
    requires BlankedState(sk, s) && Enabled(s, e)
    ensures BlankedState(sk, Next(bls, s, e))
  {
    var t := Next(bls, s, e);
    forall id | IsRunning(t, id) ensures Blanked(t.rpcs[id].copied, sk) {
      if IsRunning(s, id) {
        assert Blanked(s.rpcs[id].copied, sk);
      }
    }
  }

  lemma {:induction false} BlankedAlways(bls: Bls, sk: Bytes, events: seq<Event>, run: seq<State>, i: nat)
    requires IsRun(bls, events, run) && run[0] == Start(bls, sk) && i < |run|
    ensures BlankedState(sk, run[i])
  {
    if i > 0 {
      BlankedAlways(bls, sk, events, run, i - 1);
      BlankedNext(bls, sk, run[i - 1], events[i - 1]);
    }
  }

  /** A key with one nonzero byte only can be blanked to itself or to no key. */
  lemma OneByteKey(sk: Bytes, z: Bytes)
    requires Scalar.Valid(sk) && !TwoNonzeroBytes(sk)
    requires |z| == |sk| && Blanked(z, sk) && Scalar.Valid(z)
    ensures z == sk
  {
    Scalar.BigEndianZero(z);
    var p :| 0 <= p < |z| && z[p] != 0;
    assert sk[p] != 0;
    forall i | 0 <= i < |sk| ensures z[i] == sk[i] {
      if i != p {
        assert sk[i] == 0;
      }
    }
  }

  /**
   Over all runs, those in which Serve fails included, a request can be signed under another
   valid key exactly when the key has two nonzero bytes: the first may be gone before the
   request reads it, and the second not yet.
   */
  lemma MixedKeyIff(bls: Bls, sk: Bytes)
    requires Scalar.Valid(sk)
    ensures (exists events, run :: SignsUnderOther(bls, sk, events, run)) <==> TwoNonzeroBytes(sk)
  {
    if TwoNonzeroBytes(sk) {
      var p, q :| 0 <= p < q < |sk| && sk[p] != 0 && sk[q] != 0;
      var other := Scalar.ZeroPrefix(sk, p + 1);
      Scalar.PartialZeroing(sk, p + 1);
      var events, run := AnsweredWithZeroed(bls, sk, Message, [], p + 1);
      assert events[|events| - 1] == Finish(0) && SignsWith(run[|events| - 1], 0, other);
      assert SignsUnderOther(bls, sk, events, run);
    } else {
      forall events, run | IsRun(bls, events, run) && run[0] == Start(bls, sk)
        ensures !SignsUnderOther(bls, sk, events, run)
      {
        forall i, id, other | 0 <= i < |events| && events[i] == Finish(id) && SignsWith(run[i], id, other)
                              && Scalar.Valid(other)
          ensures other == sk
        {
          BlankedAlways(bls, sk, events, run, i);
          OneByteKey(sk, other);
        }
      }
    }
  }

  lemma WholeCopy(bls: Bls, sk: Bytes, s: State, id: nat)
    requires Inv(bls, sk, s) && IsRunning(s, id) && |s.rpcs[id].copied| == |s.buffer|
    ensures s.rpcs[id].copied == sk
  {
    assert RpcInv(bls, sk, s.rpcs[id]);
    assert sk[..|sk|] == sk;
  }

  /** Only the error exit does this: without it every request is signed with the whole key. */
  lemma OnlyErrorExitMixes(bls: Bls, sk: Bytes, events: seq<Event>, run: seq<State>)
    requires Scalar.Valid(sk) && SignsUnderOther(bls, sk, events, run)
    ensures ServeFails in events
  {
    var i, id, other :| 0 <= i < |events| && events[i] == Finish(id) && SignsWith(run[i], id, other)
                        && Scalar.Valid(other) && other != sk;
    if ServeFails !in events {
      InvAlways(bls, sk, events, run, i);
      assert Enabled(run[i], events[i]);
      WholeCopy(bls, sk, run[i], id);
    }
  }

  /** For every key, kind and message some run in which Serve fails refuses the signature that is owed. */
  lemma ErrorExitCanRefuse(bls: Bls, sk: Bytes, kind: Kind, msg: Bytes) returns (events: seq<Event>, run: seq<State>)
    requires Scalar.Valid(sk)
    ensures IsRun(bls, events, run) && run[0] == Start(bls, sk)
    ensures 0 in run[|events|].rpcs && run[|events|].rpcs[0] == Replied(SignQuery(kind, msg), Err(BadScalar))
  {
    SignWhileZeroing(bls, sk, Scalar.SIZE, msg, DstOf(kind));
    events, run := AnsweredWithZeroed(bls, sk, kind, msg, Scalar.SIZE);
  }
}
