/**
 One enclave lifetime, seen whole: the enclave program (enclave/main.go), any number of host
 New calls (backend/awsnitro) and any number of connections, interleaved step by step.
 Hosts may crash, transport may fail, the enclave may die at any moment (by itself, or because
 a host's Close terminated it).  A step may do more than the programs would, never less: any
 waiting connection may be accepted next, and describe-enclaves may report anything.
 */
module NitroProtocol {
  import opened Common
  import opened BlsUtil
  import opened EnclaveProto
  import EnclaveInit
  import Hex
  import HostHex
  import Scalar

  /** Where the enclave program is; c is the connection it is working on. */
  datatype Pc =
    | NotLaunched
    | Booting
    | Accepting
    | ReadingInit(c: nat)
    | Decrypting(c: nat)
    | Replying(c: nat)
    | Starting
    | Serving
    | Dead

  datatype InitReply = InitReply(publicKey: string, error: string)

  /** owner is the New call that dialled; taken means the enclave has accepted the connection. */
  datatype Conn =
    | InitConn(owner: Option<nat>, taken: bool, message: Option<EnclaveInit.InitMessage>, reply: Option<InitReply>)
    | SignConn(request: Option<WireRequest>, response: Option<WireResponse>)

  /** One call of New.  A Ready host has cached pk, through init connection via or by fetching it. */
  datatype Host =
    | Checking
    | Launching
    | Probing
    | FetchDialling
    | Fetching(c: nat)
    | InitIdle
    | InitWaiting(c: nat)
    | Ready(pk: Bytes, via: Option<nat>)
    | Failed
    | Crashed

  /** decoded lists the connections whose init message was accepted; key is never forgotten here. */
  datatype State = State(
    pc: Pc, port5001: bool, port5000: bool,
    decoded: seq<nat>, key: Option<Bytes>,
    hosts: map<nat, Host>, conns: map<nat, Conn>)

  datatype Event =
    // hosts
    | NewCalled(h: nat)
    | Describe(h: nat, found: bool)
    | RunEnclave(h: nat, launched: bool, ok: bool)
    | Probe(h: nat, found: bool, dialled: bool)
    | FetchDial(h: nat, c: nat)
    | FetchReply(h: nat)
    | InitDial(h: nat, c: nat)
    | InitAttemptFails(h: nat)
    | InitReplied(h: nat)
    | GiveUp(h: nat)
    | Crash(h: nat)
    // connections that belong to no New call, and messages arriving
    | StrayInit(c: nat)
    | SendInit(c: nat, message: EnclaveInit.InitMessage)
    | SignDial(c: nat, request: Option<WireRequest>)
    // the enclave
    | ListenInit(ok: bool)
    | Accept(c: nat)
    | AcceptFails
    | DecodeFails
    | DecodeInit
    | Decrypt(plaintext: Option<Bytes>)
    | Reply
    | ListenSign(ok: bool)
    | Answer(c: nat)
    | Die

  /** The host an event is about, if any. */
  function Actor(e: Event): Option<nat> {
    match e
    case NewCalled(h) => Some(h)
    case Describe(h, _) => Some(h)
    case RunEnclave(h, _, _) => Some(h)
    case Probe(h, _, _) => Some(h)
    case FetchDial(h, _) => Some(h)
    case FetchReply(h) => Some(h)
    case InitDial(h, _) => Some(h)
    case InitAttemptFails(h) => Some(h)
    case InitReplied(h) => Some(h)
    case GiveUp(h) => Some(h)
    case Crash(h) => Some(h)
    case _ => None
  }

  predicate HostIs(s: State, h: nat, host: Host) {
    h in s.hosts && s.hosts[h] == host
  }

  predicate HostAlive(s: State, h: nat) {
    h in s.hosts && !s.hosts[h].Ready? && !s.hosts[h].Failed? && !s.hosts[h].Crashed?
  }

  predicate Enabled(s: State, e: Event) {
    match e
    case NewCalled(h) => h !in s.hosts
    case Describe(h, _) => HostIs(s, h, Checking)
    case RunEnclave(h, launched, ok) => HostIs(s, h, Launching) && (launched ==> s.pc.NotLaunched?) && (ok ==> launched)
    case Probe(h, _, dialled) => HostIs(s, h, Probing) && (dialled ==> s.port5000)
    case FetchDial(h, c) => HostIs(s, h, FetchDialling) && s.port5000 && c !in s.conns
    case FetchReply(h) =>
      h in s.hosts && s.hosts[h].Fetching? && s.hosts[h].c in s.conns
      && s.conns[s.hosts[h].c].SignConn? && s.conns[s.hosts[h].c].response.Some?
    case InitDial(h, c) => HostIs(s, h, InitIdle) && s.port5001 && c !in s.conns
    case InitAttemptFails(h) => h in s.hosts && s.hosts[h].InitWaiting?
    case InitReplied(h) =>
      h in s.hosts && s.hosts[h].InitWaiting? && s.hosts[h].c in s.conns
      && s.conns[s.hosts[h].c].InitConn? && s.conns[s.hosts[h].c].reply.Some?
    case GiveUp(h) => HostAlive(s, h)
    case Crash(h) => h in s.hosts
    case StrayInit(c) => s.port5001 && c !in s.conns
    case SendInit(c, _) => c in s.conns && s.conns[c].InitConn? && s.conns[c].message.None?
    case SignDial(c, _) => s.port5000 && c !in s.conns
    case ListenInit(_) => s.pc.Booting?
    case Accept(c) => s.pc.Accepting? && c in s.conns && s.conns[c].InitConn? && !s.conns[c].taken
    case AcceptFails => s.pc.Accepting?
    case DecodeFails => s.pc.ReadingInit?
    case DecodeInit =>
      s.pc.ReadingInit? && s.pc.c in s.conns && s.conns[s.pc.c].InitConn? && s.conns[s.pc.c].message.Some?
    case Decrypt(_) => s.pc.Decrypting? && s.pc.c in s.conns && s.conns[s.pc.c].InitConn?
    case Reply => s.pc.Replying? && s.key.Some? && s.pc.c in s.conns && s.conns[s.pc.c].InitConn?
    case ListenSign(_) => s.pc.Starting?
    case Answer(c) =>
      s.pc.Serving? && s.key.Some? && c in s.conns && s.conns[c].SignConn? && s.conns[c].response.None?
    case Die => !s.pc.NotLaunched?
  }

  /** The checks New makes on the bytes it is handed. */
  function Cached(pk: Bytes, via: Option<nat>): Host {
    if |pk| != PUBLIC_KEY_SIZE then Failed else Ready(pk, via)
  }

  function AfterFetch(response: WireResponse): Host {
    match ReadReply(response)
    case None => Failed
    case Some(pk) => Cached(pk, None)
  }

  /** An error reply, or one that does not decode, sends the retry loop round again. */
  function AfterInitReply(reply: InitReply, c: nat): Host {
    if reply.error != "" then InitIdle
    else
      match HostHex.Decoded(reply.publicKey)
      case None => InitIdle
      case Some(pk) => Cached(pk, Some(c))
  }

  function Killed(s: State): State {
    s.(pc := Dead, port5001 := false, port5000 := false)
  }

  function SetHost(s: State, h: nat, host: Host): State {
    s.(hosts := s.hosts[h := host])
  }

  function SetConn(s: State, c: nat, conn: Conn): State {
    s.(conns := s.conns[c := conn])
  }

  function HostNext(s: State, e: Event): State
    requires Enabled(s, e)
    requires Actor(e).Some?
  {
    match e
    case NewCalled(h) => SetHost(s, h, Checking)
    case Describe(h, found) => SetHost(s, h, if found then Probing else Launching)
    case RunEnclave(h, launched, ok) =>
      SetHost(if launched then s.(pc := Booting) else s, h, if ok then Probing else Failed)
    case Probe(h, found, dialled) => SetHost(s, h, if found && dialled then FetchDialling else InitIdle)
    case FetchDial(h, c) =>
      SetConn(SetHost(s, h, Fetching(c)), c, SignConn(Some(EncodeRequest(Request(PUBLIC_KEY, []))), None))
    case FetchReply(h) => SetHost(s, h, AfterFetch(s.conns[s.hosts[h].c].response.value))
    case InitDial(h, c) => SetConn(SetHost(s, h, InitWaiting(c)), c, InitConn(Some(h), false, None, None))
    case InitAttemptFails(h) => SetHost(s, h, InitIdle)
    case InitReplied(h) => SetHost(s, h, AfterInitReply(s.conns[s.hosts[h].c].reply.value, s.hosts[h].c))
    case GiveUp(h) => SetHost(s, h, Failed)
    case Crash(h) => SetHost(s, h, Crashed)
  }

  /** The enclave, and the messages travelling to it. */
  function EnclaveNext(bls: Bls, s: State, e: Event): State
    requires Enabled(s, e) && Actor(e).None?
  {
    match e
    case StrayInit(c) => SetConn(s, c, InitConn(None, false, None, None))
    case SendInit(c, message) => SetConn(s, c, s.conns[c].(message := Some(message)))
    case SignDial(c, request) => SetConn(s, c, SignConn(request, None))
    case ListenInit(ok) => if ok then s.(pc := Accepting, port5001 := true) else Killed(s)
    case Accept(c) => SetConn(s.(pc := ReadingInit(c)), c, s.conns[c].(taken := true))
    case AcceptFails => Killed(s)
    case DecodeFails => s.(pc := Accepting)
    case DecodeInit => s.(pc := Decrypting(s.pc.c), port5001 := false, decoded := s.decoded + [s.pc.c])
    case Decrypt(plaintext) =>
      if plaintext.None? || !Scalar.Valid(plaintext.value) then
        var refusal := InitReply("", if plaintext.None? then "KMS decrypt" else "invalid BLS scalar");
        Killed(SetConn(s, s.pc.c, s.conns[s.pc.c].(reply := Some(refusal))))
      else s.(pc := Replying(s.pc.c), key := plaintext)
    case Reply =>
      var reply := InitReply(Hex.Encode(bls.pkOf(s.key.value)), "");
      SetConn(s.(pc := Starting), s.pc.c, s.conns[s.pc.c].(reply := Some(reply)))
    case ListenSign(ok) => if ok then s.(pc := Serving, port5000 := true) else Killed(s)
    case Answer(c) =>
      var response := HandleConn(bls, s.key.value, bls.pkOf(s.key.value), s.conns[c].request);
      SetConn(s, c, s.conns[c].(response := Some(response)))
    case Die => Killed(s)
  }

  function Next(bls: Bls, s: State, e: Event): State
    requires Enabled(s, e)
  {
    if Actor(e).Some? then HostNext(s, e) else EnclaveNext(bls, s, e)
  }

  const INITIAL: State := State(NotLaunched, false, false, [], None, map[], map[])

  /** Event k leads from run[k] to run[k + 1]. */
  ghost predicate IsStep(bls: Bls, events: seq<Event>, run: seq<State>, k: nat) {
    && k < |events| && k + 1 < |run|
    && Enabled(run[k], events[k]) && run[k + 1] == Next(bls, run[k], events[k])
  }

  /** run[k] is the state before event k. */
  ghost predicate IsRun(bls: Bls, events: seq<Event>, run: seq<State>) {
    |run| == |events| + 1 && forall k: nat :: k < |events| ==> IsStep(bls, events, run, k)
  }

  // ----- what every reachable state satisfies

  /** The enclave: which ports are open where, one init message at most, and the key it led to. */
  predicate EnclaveInv(s: State) {
    && (s.port5001 <==> s.pc.Accepting? || s.pc.ReadingInit?)
    && (s.port5000 <==> s.pc.Serving?)
    && |s.decoded| <= 1
    && (s.pc.NotLaunched? || s.pc.Booting? || s.pc.Accepting? || s.pc.ReadingInit? ==> s.decoded == [])
    && (s.pc.Decrypting? || s.pc.Replying? ==> s.decoded == [s.pc.c])
    && (s.pc.Starting? || s.pc.Serving? ==> |s.decoded| == 1)
    && (s.pc.Replying? || s.pc.Starting? || s.pc.Serving? ==> s.key.Some?)
    && (s.pc.Decrypting? ==> s.key.None?)
    && (s.key.Some? ==> Scalar.Valid(s.key.value) && |s.decoded| == 1)
  }

  /** A reply is about the key held; only a decoded init connection gets one, and signing starts when serving does. */
  predicate ConnInv(bls: Bls, s: State, c: nat, conn: Conn) {
    match conn
    case InitConn(_, _, _, reply) =>
      reply.Some? ==>
        && c in s.decoded
        && (reply.value.error == "" ==>
              s.key.Some? && reply.value.publicKey == Hex.Encode(bls.pkOf(s.key.value)))
    case SignConn(request, response) =>
      && (s.pc.Serving? || s.pc.Dead?)
      && (response.Some? ==>
            s.key.Some? && response.value == HandleConn(bls, s.key.value, bls.pkOf(s.key.value), request))
  }

  predicate HostInv(bls: Bls, s: State, h: nat, host: Host) {
    match host
    case FetchDialling => s.pc.Serving? || s.pc.Dead?
    case Fetching(c) =>
      && c in s.conns && s.conns[c].SignConn?
      && s.conns[c].request == Some(EncodeRequest(Request(PUBLIC_KEY, [])))
    case InitWaiting(c) => c in s.conns && s.conns[c].InitConn? && s.conns[c].owner == Some(h)
    case Ready(pk, via) =>
      && s.key.Some? && pk == bls.pkOf(s.key.value)
      && (via.Some? ==>
            && via.value in s.decoded && via.value in s.conns
            && s.conns[via.value].InitConn? && s.conns[via.value].owner == Some(h))
    case _ => true
  }

  /** The connection being worked on is open and unanswered. */
  predicate PendingInv(s: State) {
    s.pc.Decrypting? || s.pc.Replying? ==>
      s.pc.c in s.conns && s.conns[s.pc.c].InitConn? && s.conns[s.pc.c].reply.None?
  }

  ghost predicate Inv(bls: Bls, s: State) {
    && EnclaveInv(s) && PendingInv(s)
    && (forall c :: c in s.conns ==> ConnInv(bls, s, c, s.conns[c]))
    && (forall h :: h in s.hosts ==> HostInv(bls, s, h, s.hosts[h]))
  }

  /** A host's step leaves the enclave alone, but for launching it, and at most opens one connection. */
  lemma HostStep(s: State, e: Event)
    requires Enabled(s, e) && Actor(e).Some?
    ensures var t := HostNext(s, e);
            && t.pc == (if e.RunEnclave? && e.launched then Booting else s.pc)
            && t.port5001 == s.port5001 && t.port5000 == s.port5000 && t.decoded == s.decoded && t.key == s.key
            && (forall c :: c in s.conns ==> c in t.conns && t.conns[c] == s.conns[c])
            && (forall c :: c in t.conns && c !in s.conns ==>
                  if t.conns[c].InitConn? then t.conns[c].reply.None? else t.conns[c].response.None?)
  {
  }

  lemma EnclaveInvNext(bls: Bls, s: State, e: Event)
    requires EnclaveInv(s) && Enabled(s, e)
    ensures EnclaveInv(Next(bls, s, e))
  {
    if Actor(e).Some? {
      HostStep(s, e);
    }
  }

  predicate SameConn(was: Conn, now: Conn) {
    match was
    case InitConn(owner, _, message, _) =>
      now.InitConn? && now.owner == owner && (message.Some? ==> now.message == message)
    case SignConn(request, _) => now.SignConn? && now.request == request
  }

  /** The key, once held, and the decoded connections never change; connections keep who dialled and what was sent. */
  lemma HistoryKept(bls: Bls, s: State, e: Event)
    requires EnclaveInv(s) && Enabled(s, e)
    ensures var t := Next(bls, s, e);
            && (s.key.Some? ==> t.key == s.key)
            && s.decoded <= t.decoded
            && (forall c :: c in s.conns ==> c in t.conns && SameConn(s.conns[c], t.conns[c]))
  {
    if Actor(e).Some? {
      HostStep(s, e);
    }
  }

  lemma ConnInvNext(bls: Bls, s: State, e: Event, c: nat)
    requires Inv(bls, s) && Enabled(s, e) && c in Next(bls, s, e).conns
    ensures ConnInv(bls, Next(bls, s, e), c, Next(bls, s, e).conns[c])
  {
    if c in s.conns {
      assert ConnInv(bls, s, c, s.conns[c]);
    }
    if Actor(e).Some? {
      HostStep(s, e);
    }
  }

  /** What a host makes of the enclave's init reply. */
  lemma InitReplyRead(bls: Bls, s: State, c: nat)
    requires Inv(bls, s) && c in s.conns && s.conns[c].InitConn? && s.conns[c].reply.Some?
    ensures var host := AfterInitReply(s.conns[c].reply.value, c);
            host.InitIdle? || (s.key.Some? && host == Ready(bls.pkOf(s.key.value), Some(c)) && c in s.decoded)
  {
    assert ConnInv(bls, s, c, s.conns[c]);
    if s.key.Some? {
      HostHex.RoundTrip(bls.pkOf(s.key.value));
    }
  }

  /** What a host makes of the enclave's answer to a public-key request. */
  lemma FetchReplyRead(bls: Bls, s: State, c: nat)
    requires Inv(bls, s) && c in s.conns && s.conns[c].SignConn? && s.conns[c].response.Some?
    requires s.conns[c].request == Some(EncodeRequest(Request(PUBLIC_KEY, [])))
    ensures s.key.Some? && AfterFetch(s.conns[c].response.value) == Ready(bls.pkOf(s.key.value), None)
  {
    assert ConnInv(bls, s, c, s.conns[c]);
    Answered(bls, s.key.value, bls.pkOf(s.key.value), Request(PUBLIC_KEY, []));
  }

  lemma HostInvKept(bls: Bls, s: State, e: Event, h: nat)
    requires Inv(bls, s) && Enabled(s, e) && h in s.hosts
    requires h in Next(bls, s, e).hosts && Next(bls, s, e).hosts[h] == s.hosts[h]
    ensures HostInv(bls, Next(bls, s, e), h, s.hosts[h])
  {
    assert HostInv(bls, s, h, s.hosts[h]);
    HistoryKept(bls, s, e);
  }

  lemma OthersUnchanged(bls: Bls, s: State, e: Event, h: nat)
    requires Enabled(s, e) && Actor(e) != Some(h)
    ensures h in Next(bls, s, e).hosts <==> h in s.hosts
    ensures h in s.hosts ==> Next(bls, s, e).hosts[h] == s.hosts[h]
  {
  }

  lemma ActorInvNext(bls: Bls, s: State, e: Event, h: nat)
    requires Inv(bls, s) && Enabled(s, e) && Actor(e) == Some(h)
    ensures h in Next(bls, s, e).hosts
    ensures HostInv(bls, Next(bls, s, e), h, Next(bls, s, e).hosts[h])
  {
    match e
    case FetchReply(_) =>
      assert HostInv(bls, s, h, s.hosts[h]);
      FetchReplyRead(bls, s, s.hosts[h].c);
    case InitReplied(_) =>
      assert HostInv(bls, s, h, s.hosts[h]);
      InitReplyRead(bls, s, s.hosts[h].c);
    case _ =>
  }

  lemma PendingInvNext(bls: Bls, s: State, e: Event)
    requires Inv(bls, s) && Enabled(s, e)
    ensures PendingInv(Next(bls, s, e))
  {
    if Actor(e).Some? {
      HostStep(s, e);
    } else if e.DecodeInit? {
      assert ConnInv(bls, s, s.pc.c, s.conns[s.pc.c]);
    }
  }

  lemma InvNext(bls: Bls, s: State, e: Event)
    requires Inv(bls, s) && Enabled(s, e)
    ensures Inv(bls, Next(bls, s, e))
  {
    var t := Next(bls, s, e);
    EnclaveInvNext(bls, s, e);
    PendingInvNext(bls, s, e);
    forall c | c in t.conns ensures ConnInv(bls, t, c, t.conns[c]) {
      ConnInvNext(bls, s, e, c);
    }
    forall h | h in t.hosts ensures HostInv(bls, t, h, t.hosts[h]) {
      if Actor(e) == Some(h) {
        ActorInvNext(bls, s, e, h);
      } else {
        OthersUnchanged(bls, s, e, h);
        HostInvKept(bls, s, e, h);
      }
    }
  }

  lemma InitialInv(bls: Bls)
    ensures Inv(bls, INITIAL)
  {
  }

  lemma {:induction false} InvAlways(bls: Bls, events: seq<Event>, run: seq<State>, i: nat)
    requires IsRun(bls, events, run) && i < |run|
    requires run[0] == INITIAL || Inv(bls, run[0])
    ensures Inv(bls, run[i])
  {
    InitialInv(bls);
    if i > 0 {
      InvAlways(bls, events, run, i - 1);
      assert IsStep(bls, events, run, i - 1);
      InvNext(bls, run[i - 1], events[i - 1]);
    }
  }

  lemma {:induction false} HistoryAlways(bls: Bls, events: seq<Event>, run: seq<State>, i: nat, j: nat)
    requires IsRun(bls, events, run) && run[0] == INITIAL && i <= j < |run|
    ensures run[i].key.Some? ==> run[j].key == run[i].key
    ensures run[i].decoded <= run[j].decoded
    ensures forall c :: c in run[i].conns ==> c in run[j].conns && SameConn(run[i].conns[c], run[j].conns[c])
    decreases j
  {
    if i < j {
      HistoryAlways(bls, events, run, i, j - 1);
      InvAlways(bls, events, run, j - 1);
      assert IsStep(bls, events, run, j - 1);
      HistoryKept(bls, run[j - 1], events[j - 1]);
    }
  }

  // ----- the main results

  /**
   At most one init message is ever consumed.  Port 5001 and port 5000 are never open
   together; an open port 5000 means that message was consumed and a valid scalar is held;
   and it stays open while the enclave lives.
   */
  lemma PortInvariant(bls: Bls, events: seq<Event>, run: seq<State>, i: nat, j: nat)
    requires IsRun(bls, events, run) && run[0] == INITIAL && i <= j < |run|
    ensures |run[i].decoded| <= 1 && (run[i].decoded != [] ==> !run[j].port5001)
    ensures !(run[i].port5001 && run[i].port5000)
    ensures run[i].port5000 ==> |run[i].decoded| == 1 && run[i].key.Some? && Scalar.Valid(run[i].key.value)
    ensures run[i].port5000 ==> run[j].port5000 || run[j].pc.Dead?
  {
    InvAlways(bls, events, run, i);
    InvAlways(bls, events, run, j);
    HistoryAlways(bls, events, run, i, j);
    if run[i].port5000 {
      StaysOpen(bls, events, run, i, j);
    }
  }

  lemma ServingNext(bls: Bls, s: State, e: Event)
    requires Enabled(s, e) && (s.pc.Serving? || s.pc.Dead?)
    ensures Next(bls, s, e).pc.Serving? || Next(bls, s, e).pc.Dead?
  {
  }

  lemma {:induction false} StaysOpen(bls: Bls, events: seq<Event>, run: seq<State>, i: nat, j: nat)
    requires IsRun(bls, events, run) && run[0] == INITIAL && i <= j < |run|
    requires run[i].pc.Serving?
    ensures run[j].pc.Serving? || run[j].pc.Dead?
    decreases j
  {
    if i < j {
      StaysOpen(bls, events, run, i, j - 1);
      assert IsStep(bls, events, run, j - 1);
      ServingNext(bls, run[j - 1], events[j - 1]);
    }
  }

  /** The public key a Ready host has cached is that of the scalar the enclave holds at the end. */
  lemma CachedKey(bls: Bls, events: seq<Event>, run: seq<State>, i: nat, h: nat)
    requires IsRun(bls, events, run) && run[0] == INITIAL && i < |run|
    requires h in run[i].hosts && run[i].hosts[h].Ready?
    ensures var last := run[|events|];
            last.key.Some? && Scalar.Valid(last.key.value) && run[i].hosts[h].pk == bls.pkOf(last.key.value)
  {
    InvAlways(bls, events, run, i);
    InvAlways(bls, events, run, |events|);
    assert HostInv(bls, run[i], h, run[i].hosts[h]);
    HistoryAlways(bls, events, run, i, |events|);
  }

  /**
   Agreement.  Over every interleaving, any two New calls that succeed, at whatever moments,
   cache the same 48 bytes, and if both got them through the init port they are the same call.
   */
  lemma Agreement(bls: Bls, events: seq<Event>, run: seq<State>, i: nat, j: nat, g: nat, h: nat)
    requires IsRun(bls, events, run) && run[0] == INITIAL && i < |run| && j < |run|
    requires g in run[i].hosts && run[i].hosts[g].Ready?
    requires h in run[j].hosts && run[j].hosts[h].Ready?
    ensures run[i].hosts[g].pk == run[j].hosts[h].pk && |run[i].hosts[g].pk| == PUBLIC_KEY_SIZE
    ensures run[i].hosts[g].via.Some? && run[j].hosts[h].via.Some? ==> g == h
  {
    CachedKey(bls, events, run, i, g);
    CachedKey(bls, events, run, j, h);
    if run[i].hosts[g].via.Some? && run[j].hosts[h].via.Some? {
      InitWinner(bls, events, run, i, g);
      InitWinner(bls, events, run, j, h);
    }
  }

  /** A New call that got its key through init dialled the one connection that was ever decoded. */
  lemma InitWinner(bls: Bls, events: seq<Event>, run: seq<State>, i: nat, h: nat)
    requires IsRun(bls, events, run) && run[0] == INITIAL && i < |run|
    requires h in run[i].hosts && run[i].hosts[h].Ready? && run[i].hosts[h].via.Some?
    ensures var last := run[|events|];
            && |last.decoded| == 1 && last.decoded[0] in last.conns
            && last.conns[last.decoded[0]].InitConn? && last.conns[last.decoded[0]].owner == Some(h)
  {
    InvAlways(bls, events, run, i);
    InvAlways(bls, events, run, |events|);
    assert HostInv(bls, run[i], h, run[i].hosts[h]);
    HistoryAlways(bls, events, run, i, |events|);
  }

  /**
   Every request the enclave ever answers, from whatever client, is answered with the scalar
   whose public key every successful New call has cached.
   */
  lemma AnswersUnderAgreedKey(bls: Bls, events: seq<Event>, run: seq<State>, i: nat, j: nat, h: nat, c: nat, q: Request)
    requires IsRun(bls, events, run) && run[0] == INITIAL && i < |run| && j < |run|
    requires h in run[i].hosts && run[i].hosts[h].Ready?
    requires c in run[j].conns && run[j].conns[c].SignConn? && run[j].conns[c].response.Some?
    requires run[j].conns[c].request == Some(EncodeRequest(q))
    ensures var last := run[|events|];
            && last.key.Some? && run[i].hosts[h].pk == bls.pkOf(last.key.value)
            && ReadReply(run[j].conns[c].response.value) ==
               if q.kind == PUBLIC_KEY then Some(run[i].hosts[h].pk)
               else if q.kind == SIGN then Some(bls.sigOf(last.key.value, q.message, DST_SIGN))
               else if q.kind == SIGN_POP then Some(bls.sigOf(last.key.value, q.message, DST_POP))
               else None
  {
    CachedKey(bls, events, run, i, h);
    InvAlways(bls, events, run, j);
    assert ConnInv(bls, run[j], c, run[j].conns[c]);
    HistoryAlways(bls, events, run, j, |events|);
    var sk := run[|events|].key.value;
    Answered(bls, sk, bls.pkOf(sk), q);
  }

  // ----- the accept loop and the retry loop, seen inside a run

  /** What the enclave's accept loop hears when this step finishes with a connection, or with listening. */
  function Heard(s: State, e: Event): seq<EnclaveInit.Arrival>
    requires Enabled(s, e)
  {
    match e
    case AcceptFails => [EnclaveInit.AcceptError]
    case DecodeFails => [EnclaveInit.Connection(None)]
    case DecodeInit => [EnclaveInit.Connection(s.conns[s.pc.c].message)]
    case _ => []
  }

  /** Which connection that was. */
  function Finished(s: State, e: Event): seq<nat>
    requires Enabled(s, e)
  {
    if e.DecodeFails? || e.DecodeInit? then [s.pc.c] else []
  }

  /** Everything the accept loop heard, and from which connections, in order. */
  ghost function Arrivals(bls: Bls, events: seq<Event>, run: seq<State>, i: nat): seq<EnclaveInit.Arrival>
    requires IsRun(bls, events, run) && i < |run|
  {
    if i == 0 then []
    else
      assert IsStep(bls, events, run, i - 1);
      Arrivals(bls, events, run, i - 1) + Heard(run[i - 1], events[i - 1])
  }

  ghost function Tried(bls: Bls, events: seq<Event>, run: seq<State>, i: nat): seq<nat>
    requires IsRun(bls, events, run) && i < |run|
  {
    if i == 0 then []
    else
      assert IsStep(bls, events, run, i - 1);
      Tried(bls, events, run, i - 1) + Finished(run[i - 1], events[i - 1])
  }

  /** Where the program is, against what ReceiveInit makes of the arrivals so far. */
  ghost predicate LoopInv(s: State, arrivals: seq<EnclaveInit.Arrival>, tried: seq<nat>) {
    var outcome := EnclaveInit.OutcomeOf(arrivals);
    && (s.decoded == [] ==> !outcome.Received?)
    && (s.pc.NotLaunched? || s.pc.Booting? || s.pc.Accepting? || s.pc.ReadingInit? ==>
          outcome.Waiting? && |arrivals| == |tried|)
    && (s.decoded != [] ==>
          && |arrivals| == |tried| > 0 && s.decoded == [tried[|tried| - 1]]
          && s.decoded[0] in s.conns && s.conns[s.decoded[0]].InitConn?
          && s.conns[s.decoded[0]].message.Some?
          && outcome == EnclaveInit.Received(s.conns[s.decoded[0]].message.value, |tried| - 1))
  }

  /** ReceiveInit on one arrival more. */
  lemma OneArrival(arrivals: seq<EnclaveInit.Arrival>, a: EnclaveInit.Arrival)
    requires EnclaveInit.OutcomeOf(arrivals).Waiting?
    ensures EnclaveInit.OutcomeOf(arrivals + [a]) ==
            match a
            case AcceptError => EnclaveInit.AcceptFailed(|arrivals|)
            case Connection(None) => EnclaveInit.Waiting
            case Connection(Some(message)) => EnclaveInit.Received(message, |arrivals|)
  {
    assert (arrivals + [a])[..|arrivals|] == arrivals;
  }

  lemma LoopInvQuiet(bls: Bls, s: State, e: Event, arrivals: seq<EnclaveInit.Arrival>, tried: seq<nat>)
    requires Inv(bls, s) && Enabled(s, e) && LoopInv(s, arrivals, tried)
    requires !e.AcceptFails? && !e.DecodeFails? && !e.DecodeInit?
    ensures LoopInv(Next(bls, s, e), arrivals, tried)
  {
    HistoryKept(bls, s, e);
  }

  lemma LoopInvNext(bls: Bls, s: State, e: Event, arrivals: seq<EnclaveInit.Arrival>, tried: seq<nat>)
    requires Inv(bls, s) && Enabled(s, e) && LoopInv(s, arrivals, tried)
    ensures LoopInv(Next(bls, s, e), arrivals + Heard(s, e), tried + Finished(s, e))
  {
    assert arrivals + [] == arrivals && tried + [] == tried;
    if e.AcceptFails? {
      OneArrival(arrivals, EnclaveInit.AcceptError);
    } else if e.DecodeFails? {
      OneArrival(arrivals, EnclaveInit.Connection(None));
    } else if e.DecodeInit? {
      OneArrival(arrivals, EnclaveInit.Connection(s.conns[s.pc.c].message));
    } else {
      LoopInvQuiet(bls, s, e, arrivals, tried);
    }
  }

  lemma {:induction false} LoopInvAlways(bls: Bls, events: seq<Event>, run: seq<State>, i: nat)
    requires IsRun(bls, events, run) && run[0] == INITIAL && i < |run|
    ensures LoopInv(run[i], Arrivals(bls, events, run, i), Tried(bls, events, run, i))
  {
    if i > 0 {
      var n := i - 1;
      LoopInvAlways(bls, events, run, n);
      InvAlways(bls, events, run, n);
      assert IsStep(bls, events, run, n);
      LoopInvNext(bls, run[n], events[n], Arrivals(bls, events, run, n), Tried(bls, events, run, n));
    }
  }

  /**
   The accept loop inside the protocol is ReceiveInit: the connection and the message that
   ReceiveInit returns for what arrived are the single entry of decoded and what was sent on
   it, and as long as nothing was decoded it returns none.
   */
  lemma ReceiveInitInRun(bls: Bls, events: seq<Event>, run: seq<State>, i: nat)
    requires IsRun(bls, events, run) && run[0] == INITIAL && i < |run|
    ensures var outcome := EnclaveInit.OutcomeOf(Arrivals(bls, events, run, i));
            var tried := Tried(bls, events, run, i);
            && (outcome.Received? <==> run[i].decoded != [])
            && (outcome.Received? ==>
                  && outcome.at < |tried| && run[i].decoded == [tried[outcome.at]]
                  && tried[outcome.at] in run[i].conns && run[i].conns[tried[outcome.at]].InitConn?
                  && run[i].conns[tried[outcome.at]].message == Some(outcome.message))
  {
    LoopInvAlways(bls, events, run, i);
  }

  /** The connection of call h's latest attempt to send the init message. */
  function LastDial(events: seq<Event>, h: nat): Option<nat> {
    if events == [] then None
    else
      match events[|events| - 1]
      case InitDial(g, c) => if g == h then Some(c) else LastDial(events[..|events| - 1], h)
      case _ => LastDial(events[..|events| - 1], h)
  }

  predicate DialInv(s: State, h: nat, last: Option<nat>) {
    h in s.hosts ==>
      match s.hosts[h]
      case InitWaiting(c) => last == Some(c)
      case Ready(_, via) => via.Some? ==> last == via
      case _ => true
  }

  lemma DialInvNext(bls: Bls, s: State, e: Event, h: nat, last: Option<nat>)
    requires Inv(bls, s) && Enabled(s, e) && DialInv(s, h, last)
    ensures DialInv(Next(bls, s, e), h, if e.InitDial? && e.h == h then Some(e.c) else last)
  {
    if Actor(e) == Some(h) {
      if e.InitReplied? {
        assert HostInv(bls, s, h, s.hosts[h]);
        InitReplyRead(bls, s, s.hosts[h].c);
      } else if e.FetchReply? {
        assert HostInv(bls, s, h, s.hosts[h]);
        FetchReplyRead(bls, s, s.hosts[h].c);
      }
    } else {
      OthersUnchanged(bls, s, e, h);
    }
  }

  lemma {:induction false} DialInvAlways(bls: Bls, events: seq<Event>, run: seq<State>, i: nat, h: nat)
    requires IsRun(bls, events, run) && run[0] == INITIAL && i < |run|
    ensures DialInv(run[i], h, LastDial(events[..i], h))
  {
    if i > 0 {
      DialInvAlways(bls, events, run, i - 1, h);
      InvAlways(bls, events, run, i - 1);
      assert events[..i][..i - 1] == events[..i - 1];
      assert IsStep(bls, events, run, i - 1);
      DialInvNext(bls, run[i - 1], events[i - 1], h, LastDial(events[..i - 1], h));
    }
  }

  /** A call that has succeeded can only crash. */
  predicate Settled(s: State, h: nat, host: Host) {
    h in s.hosts && (s.hosts[h] == host || s.hosts[h].Crashed?)
  }

  lemma SettledNext(bls: Bls, s: State, e: Event, h: nat, host: Host)
    requires Enabled(s, e) && host.Ready? && Settled(s, h, host)
    ensures Settled(Next(bls, s, e), h, host) && !Dials(e, h)
  {
    if Actor(e) != Some(h) {
      OthersUnchanged(bls, s, e, h);
    }
  }

  predicate Dials(e: Event, h: nat) {
    e.InitDial? && e.h == h
  }

  lemma {:induction false} StaysSettled(bls: Bls, events: seq<Event>, run: seq<State>, i: nat, j: nat, h: nat)
    requires IsRun(bls, events, run) && i <= j < |run|
    requires h in run[i].hosts && run[i].hosts[h].Ready?
    ensures Settled(run[j], h, run[i].hosts[h])
    ensures forall k :: i <= k < j ==> !Dials(events[k], h)
    decreases j
  {
    if i < j {
      StaysSettled(bls, events, run, i, j - 1, h);
      assert IsStep(bls, events, run, j - 1);
      SettledNext(bls, run[j - 1], events[j - 1], h, run[i].hosts[h]);
    }
  }

  lemma {:induction false} NoDialSince(events: seq<Event>, i: nat, h: nat)
    requires i <= |events| && forall k :: i <= k < |events| ==> !Dials(events[k], h)
    ensures LastDial(events, h) == LastDial(events[..i], h)
    decreases |events|
  {
    if i == |events| {
      assert events[..i] == events;
    } else {
      var shorter := events[..|events| - 1];
      assert shorter[..i] == events[..i];
      assert !Dials(events[|events| - 1], h);
      NoDialSince(shorter, i, h);
    }
  }

  lemma ViaIsDecoded(bls: Bls, events: seq<Event>, run: seq<State>, i: nat, h: nat)
    requires IsRun(bls, events, run) && run[0] == INITIAL && i < |run|
    requires h in run[i].hosts && run[i].hosts[h].Ready? && run[i].hosts[h].via.Some?
    ensures run[|events|].decoded == [run[i].hosts[h].via.value]
  {
    InvAlways(bls, events, run, i);
    InvAlways(bls, events, run, |events|);
    assert HostInv(bls, run[i], h, run[i].hosts[h]);
    HistoryAlways(bls, events, run, i, |events|);
  }

  /**
   The retry loop inside the protocol: a New call that succeeds through init succeeds with its
   last attempt and never dials again, and that attempt's connection is the only one, of this
   call or any other, whose init message the enclave ever accepted.
   */
  lemma LastAttemptWins(bls: Bls, events: seq<Event>, run: seq<State>, i: nat, h: nat)
    requires IsRun(bls, events, run) && run[0] == INITIAL && i < |run|
    requires h in run[i].hosts && run[i].hosts[h].Ready? && run[i].hosts[h].via.Some?
    ensures LastDial(events, h) == run[i].hosts[h].via
    ensures run[|events|].decoded == [run[i].hosts[h].via.value]
  {
    DialInvAlways(bls, events, run, i, h);
    StaysSettled(bls, events, run, i, |events|, h);
    NoDialSince(events, i, h);
    ViaIsDecoded(bls, events, run, i, h);
  }

  // ----- stranded calls

  /** Call h waits on a connection whose answer is a public key, or is still being worked out. */
  predicate InitPending(s: State, h: nat) {
    && h in s.hosts && s.hosts[h].InitWaiting?
    && var c := s.hosts[h].c;
       && c in s.conns && s.conns[c].InitConn?
       && match s.conns[c].reply
          case Some(reply) => reply.error == ""
          case None => s.pc == Decrypting(c) || s.pc == Replying(c)
  }

  /**
   A New call past its probe that can no longer succeed: the init message is gone, or the
   enclave is, and this call is not the one that is getting the answer.
   */
  predicate StrandedAt(s: State, h: nat) {
    && (s.decoded != [] || s.pc.Dead?) && h in s.hosts
    && match s.hosts[h]
       case InitIdle => true
       case InitWaiting(_) => !InitPending(s, h)
       case Failed => true
       case Crashed => true
       case _ => false
  }

  /** A connection that is not pending does not become so once the one init message is gone. */
  lemma NotPendingNext(bls: Bls, s: State, e: Event, h: nat)
    requires Inv(bls, s) && Enabled(s, e) && Actor(e) != Some(h)
    requires (s.decoded != [] || s.pc.Dead?) && h in s.hosts && s.hosts[h].InitWaiting?
    requires !InitPending(s, h)
    ensures h in Next(bls, s, e).hosts && Next(bls, s, e).hosts[h] == s.hosts[h]
    ensures !InitPending(Next(bls, s, e), h)
  {
    OthersUnchanged(bls, s, e, h);
    assert HostInv(bls, s, h, s.hosts[h]);
    if Actor(e).Some? {
      HostStep(s, e);
    }
  }

  lemma StrandedNext(bls: Bls, s: State, e: Event, h: nat)
    requires Inv(bls, s) && Enabled(s, e) && StrandedAt(s, h)
    ensures StrandedAt(Next(bls, s, e), h)
  {
    HistoryKept(bls, s, e);
    if Actor(e) != Some(h) {
      OthersUnchanged(bls, s, e, h);
      if s.hosts[h].InitWaiting? {
        NotPendingNext(bls, s, e, h);
      }
    }
  }

  lemma {:induction false} StrandedForever(bls: Bls, events: seq<Event>, run: seq<State>, i: nat, j: nat, h: nat)
    requires IsRun(bls, events, run) && i <= j < |run|
    requires run[0] == INITIAL || Inv(bls, run[0])
    requires StrandedAt(run[i], h)
    ensures StrandedAt(run[j], h)
    decreases j
  {
    if i < j {
      StrandedForever(bls, events, run, i, j - 1, h);
      InvAlways(bls, events, run, j - 1);
      assert IsStep(bls, events, run, j - 1);
      StrandedNext(bls, run[j - 1], events[j - 1], h);
    }
  }

  /**
   Stranded init.  If a New call's probe does not see port 5000 after the init message was
   consumed, that call never succeeds in this enclave lifetime, whatever happens later, even
   when the enclave is serving one step after the probe.
   */
  lemma StrandedInit(bls: Bls, events: seq<Event>, run: seq<State>, i: nat, j: nat)
    requires IsRun(bls, events, run) && run[0] == INITIAL && i < j < |run|
    requires events[i].Probe? && !(events[i].found && events[i].dialled)
    requires run[i].decoded != []
    ensures events[i].h in run[j].hosts && !run[j].hosts[events[i].h].Ready?
  {
    assert IsStep(bls, events, run, i);
    StrandedForever(bls, events, run, i + 1, j, events[i].h);
  }

  // ----- exactly when a call in its retry loop can still succeed

  lemma {:induction false} UpperBound(ids: set<nat>) returns (b: nat)
    ensures forall x :: x in ids ==> x < b
    decreases ids
  {
    b := 0;
    if ids != {} {
      var x :| x in ids;
      var rest := ids - {x};
      b := UpperBound(rest);
      b := if x < b then b else x + 1;
      assert ids == rest + {x};
    }
  }

  /** Call h holds, or can still get, the one init connection. */
  predicate CanWin(bls: Bls, s: State, h: nat) {
    && h in s.hosts
    && match s.hosts[h]
       case InitIdle => s.pc.Booting? || s.pc.Accepting? || s.pc.ReadingInit?
       case InitWaiting(c) =>
         && c in s.conns && s.conns[c].InitConn?
         && (match s.conns[c].reply
             case Some(reply) => s.key.Some? && reply == InitReply(Hex.Encode(bls.pkOf(s.key.value)), "")
             case None =>
               || (s.pc.Accepting? && !s.conns[c].taken)
               || s.pc == ReadingInit(c) || s.pc == Decrypting(c) || (s.pc == Replying(c) && s.key.Some?))
       case _ => false
  }

  function Distance(bls: Bls, s: State, h: nat): nat
    requires CanWin(bls, s, h)
  {
    match s.hosts[h]
    case InitIdle => if s.pc.Accepting? then 6 else if s.pc.ReadingInit? then 7 else 8
    case InitWaiting(c) =>
      if s.conns[c].reply.Some? then 0
      else if s.pc.Replying? then 1
      else if s.pc.Decrypting? then 2
      else if s.pc.Accepting? then 5
      else if s.conns[c].message.Some? then 3 else 4
  }

  /** One step nearer to success for call h; unused is a connection number not taken yet. */
  function Towards(bls: Bls, s: State, h: nat, sk: Bytes, unused: nat): Event
    requires CanWin(bls, s, h)
  {
    match s.hosts[h]
    case InitIdle =>
      if s.pc.Accepting? then InitDial(h, unused) else if s.pc.ReadingInit? then DecodeFails else ListenInit(true)
    case InitWaiting(c) =>
      if s.conns[c].reply.Some? then InitReplied(h)
      else if s.pc.Replying? then Reply
      else if s.pc.Decrypting? then Decrypt(Some(sk))
      else if s.pc.Accepting? then Accept(c)
      else if s.conns[c].message.Some? then DecodeInit
      else SendInit(c, EnclaveInit.InitMessage("", "", "", ""))
  }

  lemma TowardsStep(bls: Bls, s: State, h: nat, sk: Bytes, unused: nat)
    requires EnclaveInv(s) && CanWin(bls, s, h) && Scalar.Valid(sk) && unused !in s.conns
    ensures Enabled(s, Towards(bls, s, h, sk, unused))
    ensures var t := Next(bls, s, Towards(bls, s, h, sk, unused));
            if Distance(bls, s, h) == 0 then h in t.hosts && t.hosts[h].Ready?
            else CanWin(bls, t, h) && Distance(bls, t, h) < Distance(bls, s, h)
  {
    if Distance(bls, s, h) == 0 {
      HostHex.RoundTrip(bls.pkOf(s.key.value));
    }
  }

  lemma {:induction false} Win(bls: Bls, s: State, h: nat, sk: Bytes) returns (events: seq<Event>, run: seq<State>)
    requires EnclaveInv(s) && CanWin(bls, s, h) && Scalar.Valid(sk)
    ensures IsRun(bls, events, run) && run[0] == s
    ensures h in run[|events|].hosts && run[|events|].hosts[h].Ready?
    decreases Distance(bls, s, h)
  {
    var unused := UpperBound(s.conns.Keys);
    var e := Towards(bls, s, h, sk, unused);
    TowardsStep(bls, s, h, sk, unused);
    EnclaveInvNext(bls, s, e);
    var t := Next(bls, s, e);
    if Distance(bls, s, h) == 0 {
      return [e], [s, t];
    }
    var more, rest := Win(bls, t, h, sk);
    Join(bls, [e], [s, t], more, rest);
    events, run := [e] + more, [s, t] + rest[1..];
    assert run[|events|] == rest[|more|];
  }

  /** If no enclave was launched yet, another call launches one. */
  lemma Launch(bls: Bls, s: State, h: nat) returns (events: seq<Event>, run: seq<State>)
    requires HostIs(s, h, InitIdle) && s.pc.NotLaunched?
    ensures IsRun(bls, events, run) && run[0] == s
    ensures CanWin(bls, run[|events|], h)
  {
    var g := UpperBound(s.hosts.Keys);
    events := [NewCalled(g), Describe(g, false), RunEnclave(g, true, true)];
    var s1 := Next(bls, s, events[0]);
    var s2 := Next(bls, s1, events[1]);
    run := [s, s1, s2, Next(bls, s2, events[2])];
  }

  lemma Join(bls: Bls, events: seq<Event>, run: seq<State>, more: seq<Event>, rest: seq<State>)
    requires IsRun(bls, events, run) && IsRun(bls, more, rest) && rest[0] == run[|events|]
    ensures IsRun(bls, events + more, run + rest[1..])
  {
    var all := run + rest[1..];
    forall k: nat | k < |events + more| ensures IsStep(bls, events + more, all, k) {
      if k >= |events| {
        assert IsStep(bls, more, rest, k - |events|);
        assert all[k] == rest[k - |events|] && all[k + 1] == rest[k + 1 - |events|];
      } else {
        assert IsStep(bls, events, run, k);
      }
    }
  }

  /** A run from s in which call h ends up with a cached public key. */
  ghost predicate WinningRun(bls: Bls, s: State, h: nat, events: seq<Event>, run: seq<State>) {
    IsRun(bls, events, run) && run[0] == s && h in run[|events|].hosts && run[|events|].hosts[h].Ready?
  }

  lemma PendingCanWin(bls: Bls, s: State, h: nat)
    requires Inv(bls, s) && InitPending(s, h)
    ensures CanWin(bls, s, h)
  {
    assert ConnInv(bls, s, s.hosts[h].c, s.conns[s.hosts[h].c]);
  }

  /** While the init message is still to be had, a call between attempts can get it. */
  lemma IdleWins(bls: Bls, s: State, h: nat, sk: Bytes) returns (events: seq<Event>, run: seq<State>)
    requires Inv(bls, s) && HostIs(s, h, InitIdle) && Scalar.Valid(sk)
    requires s.decoded == [] && !s.pc.Dead?
    ensures WinningRun(bls, s, h, events, run)
  {
    events, run := [], [s];
    if s.pc.NotLaunched? {
      events, run := Launch(bls, s, h);
    }
    InvAlways(bls, events, run, |events|);
    var more, rest := Win(bls, run[|events|], h, sk);
    Join(bls, events, run, more, rest);
    assert (run + rest[1..])[|events + more|] == rest[|more|];
    events, run := events + more, run + rest[1..];
  }

  /** A call waiting on an attempt can give that attempt up first. */
  lemma WaitingWins(bls: Bls, s: State, h: nat, sk: Bytes) returns (events: seq<Event>, run: seq<State>)
    requires Inv(bls, s) && h in s.hosts && s.hosts[h].InitWaiting? && Scalar.Valid(sk)
    requires s.decoded == [] && !s.pc.Dead?
    ensures WinningRun(bls, s, h, events, run)
  {
    var e := InitAttemptFails(h);
    var t := Next(bls, s, e);
    InvNext(bls, s, e);
    var more, rest := IdleWins(bls, t, h, sk);
    assert IsStep(bls, [e], [s, t], 0);
    Join(bls, [e], [s, t], more, rest);
    events, run := [e] + more, [s, t] + rest[1..];
    assert run[|events|] == rest[|more|];
  }

  /** The call is in sendInitWithRetry: between two attempts, or waiting on one. */
  predicate InRetryLoop(s: State, h: nat) {
    h in s.hosts && (s.hosts[h].InitIdle? || s.hosts[h].InitWaiting?)
  }

  /**
   In any reachable state, a New call in its retry loop can still succeed exactly when no
   init message has been consumed and the enclave is not dead, or this call's own connection
   holds the public key or is the one the enclave is working on.
   */
  lemma RetryCanSucceedIff(bls: Bls, s: State, h: nat, sk: Bytes)
    requires Inv(bls, s) && InRetryLoop(s, h) && Scalar.Valid(sk)
    ensures (exists events, run :: WinningRun(bls, s, h, events, run)) <==>
            (s.decoded == [] && !s.pc.Dead?) || InitPending(s, h)
  {
    if InitPending(s, h) {
      PendingCanWin(bls, s, h);
      var events, run := Win(bls, s, h, sk);
      assert WinningRun(bls, s, h, events, run);
    } else if s.decoded == [] && !s.pc.Dead? {
      if s.hosts[h].InitIdle? {
        var events, run := IdleWins(bls, s, h, sk);
      } else {
        var events, run := WaitingWins(bls, s, h, sk);
      }
    } else {
      forall events, run | IsRun(bls, events, run) && run[0] == s
        ensures !WinningRun(bls, s, h, events, run)
      {
        StrandedForever(bls, events, run, 0, |events|, h);
      }
    }
  }
}
