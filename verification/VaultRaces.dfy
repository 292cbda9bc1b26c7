/**
 The plugin's requests as they interleave.  generate and import read storage first and write
 later, holding no lock, so another request's write can fall in between.
 */
module VaultRaces {
  import opened Common
  import opened BlsUtil
  import Hex
  import Scalar
  import VaultPlugin

  /** A generate or import that would store value under its name, a public-key read, or a sign request. */
  datatype Request =
    | Writer(name: string, value: string)
    | Reader(name: string)
    | Signer(name: string, message: string, dst: string)

  /** Request p's first storage access, its write, or an error of its own: storage, or an unusable key. */
  datatype Event = Get(p: nat) | Put(p: nat) | Fail(p: nat)

  /** Cleared: the read found nothing, so the write is still to come. */
  datatype Progress = Idle | Cleared | Answered(reply: VaultPlugin.Reply)

  datatype State = State(entries: map<string, string>, progress: seq<Progress>)

  /** A writer has derived its public key before it writes. */
  predicate Enabled(bls: Bls, reqs: seq<Request>, s: State, e: Event) {
    && e.p < |reqs| == |s.progress|
    && match e
       case Get(p) => s.progress[p].Idle?
       case Put(p) =>
         s.progress[p].Cleared? && reqs[p].Writer? && VaultPlugin.PublicKeyHex(bls, reqs[p].value).Some?
       case Fail(p) => !s.progress[p].Answered?
  }

  function AfterGet(bls: Bls, s: State, req: Request): Progress {
    if req.Writer? then
      if req.name in s.entries then Answered(VaultPlugin.Refused) else Cleared
    else if req.name !in s.entries then Answered(VaultPlugin.Refused)
    else if req.Reader? then
      match VaultPlugin.PublicKeyHex(bls, s.entries[req.name])
      case None => Answered(VaultPlugin.Failed)
      case Some(pkHex) => Answered(VaultPlugin.PublicKeyIs(pkHex))
    else
      match VaultPlugin.SignHex(bls, s.entries[req.name], req.message, req.dst)
      case None => Answered(VaultPlugin.Failed)
      case Some(sigHex) => Answered(VaultPlugin.SignatureIs(sigHex))
  }

  function Next(bls: Bls, reqs: seq<Request>, s: State, e: Event): State
    requires Enabled(bls, reqs, s, e)
  {
    match e
    case Get(p) => s.(progress := s.progress[p := AfterGet(bls, s, reqs[p])])
    case Put(p) =>
      var reply := VaultPlugin.PublicKeyIs(VaultPlugin.PublicKeyHex(bls, reqs[p].value).value);
      State(s.entries[reqs[p].name := reqs[p].value], s.progress[p := Answered(reply)])
    case Fail(p) => s.(progress := s.progress[p := Answered(VaultPlugin.Failed)])
  }

  function Start(reqs: seq<Request>, entries: map<string, string>): State {
    State(entries, seq(|reqs|, i => Idle))
  }

  /** run[i] is the state before event i. */
  ghost predicate IsRun(bls: Bls, reqs: seq<Request>, events: seq<Event>, run: seq<State>) {
    && |run| == |events| + 1
    && run[0] == Start(reqs, run[0].entries)
    && forall i :: 0 <= i < |events| ==>
         Enabled(bls, reqs, run[i], events[i]) && run[i + 1] == Next(bls, reqs, run[i], events[i])
  }

  /** Request q's write to the same name, at j, falls between p's read at i and p's write at k. */
  predicate InWindow(reqs: seq<Request>, events: seq<Event>, i: nat, j: nat, k: nat) {
    && i < j < k < |events|
    && events[i].Get? && events[j].Put? && events[k].Put?
    && events[i].p == events[k].p < |reqs| && events[j].p < |reqs|
    && reqs[events[j].p].Writer? && reqs[events[k].p].Writer?
    && reqs[events[j].p].name == reqs[events[k].p].name
  }

  // ----- stored values, seen through a view

  /** What one looks at of a stored text. */
  type View = string -> Option<string>

  function Text(value: string): Option<string> {
    Some(value)
  }

  /** What a stored name shows never changes. */
  ghost predicate Constant(view: View, run: seq<State>) {
    forall i, j, name :: 0 <= i <= j < |run| && name in run[i].entries ==>
      name in run[j].entries && view(run[j].entries[name]) == view(run[i].entries[name])
  }

  /** Every write inside another request's window stores what shows the same as what that request will store. */
  ghost predicate WindowsHarmless(view: View, reqs: seq<Request>, events: seq<Event>) {
    forall i: nat, j: nat, k: nat :: InWindow(reqs, events, i, j, k) ==>
      view(reqs[events[j].p].value) == view(reqs[events[k].p].value)
  }

  /** Where request p, cleared at state k, read storage. */
  ghost predicate ReadAt(events: seq<Event>, k: nat, p: nat, i: nat) {
    i < k <= |events| && events[i] == Get(p)
  }

  /** The write that is visible under a name at state k. */
  ghost predicate WrittenAt(reqs: seq<Request>, events: seq<Event>, run: seq<State>, k: nat, name: string, j: nat) {
    && j < k <= |events| && k < |run| && events[j].Put? && events[j].p < |reqs|
    && reqs[events[j].p].Writer? && reqs[events[j].p].name == name
    && name in run[k].entries && run[k].entries[name] == reqs[events[j].p].value
  }

  /** A cleared request's name was absent when it read, so what is there now was written since. */
  lemma {:induction false} ClearedHistory(bls: Bls, reqs: seq<Request>, events: seq<Event>, run: seq<State>,
                                          k: nat, p: nat)
    returns (i: nat, j: nat)
    requires IsRun(bls, reqs, events, run) && k < |run| && p < |reqs|
    requires |run[k].progress| == |reqs| && run[k].progress[p] == Cleared
    ensures ReadAt(events, k, p, i)
    ensures reqs[p].name in run[k].entries ==> i < j && WrittenAt(reqs, events, run, k, reqs[p].name, j)
    decreases k
  {
    i, j := 0, 0;
    if k > 0 {
      var e := events[k - 1];
      assert Enabled(bls, reqs, run[k - 1], e) && run[k] == Next(bls, reqs, run[k - 1], e);
      if e == Get(p) {
        i, j := k - 1, k - 1;
        assert reqs[p].name !in run[k].entries;
      } else {
        assert run[k - 1].progress[p] == Cleared;
        i, j := ClearedHistory(bls, reqs, events, run, k - 1, p);
        if e.Put? && reqs[e.p].name == reqs[p].name {
          j := k - 1;
        }
      }
    }
  }

  /** A write that finds its name taken stores what shows the same as what is there already. */
  lemma PutKeepsView(bls: Bls, view: View, reqs: seq<Request>, events: seq<Event>, run: seq<State>, k: nat)
    requires IsRun(bls, reqs, events, run) && WindowsHarmless(view, reqs, events)
    requires k < |events| && events[k].Put? && events[k].p < |reqs| && reqs[events[k].p].Writer?
    requires reqs[events[k].p].name in run[k].entries
    ensures view(run[k].entries[reqs[events[k].p].name]) == view(reqs[events[k].p].value)
  {
    assert Enabled(bls, reqs, run[k], events[k]);
    var i, j := ClearedHistory(bls, reqs, events, run, k, events[k].p);
    assert InWindow(reqs, events, i, j, k);
  }

  lemma {:induction false} ViewStays(bls: Bls, view: View, reqs: seq<Request>, events: seq<Event>, run: seq<State>,
                                     i: nat, j: nat, name: string)
    requires IsRun(bls, reqs, events, run) && WindowsHarmless(view, reqs, events)
    requires i <= j < |run| && name in run[i].entries
    ensures name in run[j].entries && view(run[j].entries[name]) == view(run[i].entries[name])
    decreases j
  {
    if i < j {
      ViewStays(bls, view, reqs, events, run, i, j - 1, name);
      var e := events[j - 1];
      assert Enabled(bls, reqs, run[j - 1], e) && run[j] == Next(bls, reqs, run[j - 1], e);
      if e.Put? && reqs[e.p].name == name {
        PutKeepsView(bls, view, reqs, events, run, j - 1);
      }
    }
  }

  /** Whatever is looked at stays constant exactly when the windows are harmless to it. */
  lemma ConstantIff(bls: Bls, view: View, reqs: seq<Request>, events: seq<Event>, run: seq<State>)
    requires IsRun(bls, reqs, events, run)
    ensures Constant(view, run) <==> WindowsHarmless(view, reqs, events)
  {
    if WindowsHarmless(view, reqs, events) {
      forall i, j, name | 0 <= i <= j < |run| && name in run[i].entries
        ensures name in run[j].entries && view(run[j].entries[name]) == view(run[i].entries[name])
      {
        ViewStays(bls, view, reqs, events, run, i, j, name);
      }
    }
    if Constant(view, run) {
      forall i: nat, j: nat, k: nat | InWindow(reqs, events, i, j, k)
        ensures view(reqs[events[j].p].value) == view(reqs[events[k].p].value)
      {
        var name := reqs[events[j].p].name;
        assert run[j + 1] == Next(bls, reqs, run[j], events[j]) && run[k + 1] == Next(bls, reqs, run[k], events[k]);
        assert name in run[j + 1].entries;
      }
    }
  }

  /** No stored name ever changes value. */
  ghost predicate WriteOnce(run: seq<State>) {
    forall i, j, name :: 0 <= i <= j < |run| && name in run[i].entries ==>
      name in run[j].entries && run[j].entries[name] == run[i].entries[name]
  }

  /**
   The store is write-once in an interleaved run exactly when no write inside a
   read-to-write window stores a different text under the same name.
   */
  lemma WriteOnceIff(bls: Bls, reqs: seq<Request>, events: seq<Event>, run: seq<State>)
    requires IsRun(bls, reqs, events, run)
    ensures WriteOnce(run) <==> WindowsHarmless(Text, reqs, events)
  {
    ConstantIff(bls, Text, reqs, events, run);
    if Constant(Text, run) {
      forall i, j, name | 0 <= i <= j < |run| && name in run[i].entries
        ensures name in run[j].entries && run[j].entries[name] == run[i].entries[name]
      {
        assert Text(run[j].entries[name]) == Text(run[i].entries[name]);
      }
    }
  }

  /** No window is entered at all: the plain condition, enough whatever is stored. */
  lemma NoWriteInWindowSuffices(bls: Bls, reqs: seq<Request>, events: seq<Event>, run: seq<State>)
    requires IsRun(bls, reqs, events, run)
    requires forall i: nat, j: nat, k: nat :: !InWindow(reqs, events, i, j, k)
    ensures WriteOnce(run) && RepliesAgree(reqs, run[|events|])
  {
    WriteOnceIff(bls, reqs, events, run);
    RepliesAgreeIff(bls, reqs, events, run);
  }

  // ----- replies

  function PublicKeyView(bls: Bls): View {
    (value: string) => VaultPlugin.PublicKeyHex(bls, value)
  }

  predicate Reports(s: State, p: nat, pkHex: string) {
    p < |s.progress| && s.progress[p] == Answered(VaultPlugin.PublicKeyIs(pkHex))
  }

  /** All public keys reported for one name, by readers and writers, are the same. */
  ghost predicate RepliesAgree(reqs: seq<Request>, s: State) {
    forall p: nat, q: nat, a, b ::
      Reports(s, p, a) && Reports(s, q, b) && p < |reqs| && q < |reqs| && reqs[p].name == reqs[q].name ==> a == b
  }

  lemma {:induction false} AnswersStay(bls: Bls, reqs: seq<Request>, events: seq<Event>, run: seq<State>,
                                       i: nat, j: nat, p: nat)
    requires IsRun(bls, reqs, events, run) && i <= j < |run|
    requires p < |run[i].progress| && run[i].progress[p].Answered?
    ensures p < |run[j].progress| && run[j].progress[p] == run[i].progress[p]
    decreases j
  {
    if i < j {
      AnswersStay(bls, reqs, events, run, i, j - 1, p);
      assert Enabled(bls, reqs, run[j - 1], events[j - 1]) && run[j] == Next(bls, reqs, run[j - 1], events[j - 1]);
    }
  }

  /** With windows harmless to the key, a reported public key is that of what is stored at any time after. */
  lemma {:induction false} ReportIsStored(bls: Bls, reqs: seq<Request>, events: seq<Event>, run: seq<State>,
                                          j: nat, p: nat, pkHex: string)
    requires IsRun(bls, reqs, events, run) && WindowsHarmless(PublicKeyView(bls), reqs, events)
    requires j < |run| && p < |reqs| && Reports(run[j], p, pkHex)
    ensures reqs[p].name in run[j].entries
    ensures VaultPlugin.PublicKeyHex(bls, run[j].entries[reqs[p].name]) == Some(pkHex)
    decreases j
  {
    if j > 0 {
      var e := events[j - 1];
      assert Enabled(bls, reqs, run[j - 1], e) && run[j] == Next(bls, reqs, run[j - 1], e);
      if e.p != p {
        assert Reports(run[j - 1], p, pkHex);
        ReportIsStored(bls, reqs, events, run, j - 1, p, pkHex);
        ViewStays(bls, PublicKeyView(bls), reqs, events, run, j - 1, j, reqs[p].name);
      }
    }
  }

  lemma SameReplies(bls: Bls, reqs: seq<Request>, events: seq<Event>, run: seq<State>)
    requires IsRun(bls, reqs, events, run) && WindowsHarmless(PublicKeyView(bls), reqs, events)
    ensures RepliesAgree(reqs, run[|events|])
  {
    var last := run[|events|];
    forall p: nat, q: nat, a, b | Reports(last, p, a) && Reports(last, q, b) && p < |reqs| && q < |reqs|
                        && reqs[p].name == reqs[q].name
      ensures a == b
    {
      ReportIsStored(bls, reqs, events, run, |events|, p, a);
      ReportIsStored(bls, reqs, events, run, |events|, q, b);
    }
  }

  lemma AgreeingWindow(bls: Bls, reqs: seq<Request>, events: seq<Event>, run: seq<State>, i: nat, j: nat, k: nat)
    requires IsRun(bls, reqs, events, run) && RepliesAgree(reqs, run[|events|])
    requires InWindow(reqs, events, i, j, k)
    ensures VaultPlugin.PublicKeyHex(bls, reqs[events[j].p].value) ==
            VaultPlugin.PublicKeyHex(bls, reqs[events[k].p].value)
  {
    var a := WriterReports(bls, reqs, events, run, j);
    var b := WriterReports(bls, reqs, events, run, k);
    assert a == b;
  }

  /**
   Public-key replies for one name agree exactly when no write inside a window stores a
   scalar of another public key; which scalar's text it is does not matter.
   */
  lemma RepliesAgreeIff(bls: Bls, reqs: seq<Request>, events: seq<Event>, run: seq<State>)
    requires IsRun(bls, reqs, events, run)
    ensures RepliesAgree(reqs, run[|events|]) <==> WindowsHarmless(PublicKeyView(bls), reqs, events)
    ensures WindowsHarmless(Text, reqs, events) ==> RepliesAgree(reqs, run[|events|])
  {
    var view := PublicKeyView(bls);
    if WindowsHarmless(Text, reqs, events) {
      forall i: nat, j: nat, k: nat | InWindow(reqs, events, i, j, k)
        ensures view(reqs[events[j].p].value) == view(reqs[events[k].p].value)
      {
        assert Text(reqs[events[j].p].value) == Text(reqs[events[k].p].value);
      }
    }
    if WindowsHarmless(view, reqs, events) {
      SameReplies(bls, reqs, events, run);
    }
    if RepliesAgree(reqs, run[|events|]) {
      forall i: nat, j: nat, k: nat | InWindow(reqs, events, i, j, k)
        ensures view(reqs[events[j].p].value) == view(reqs[events[k].p].value)
      {
        AgreeingWindow(bls, reqs, events, run, i, j, k);
      }
    }
  }

  /** A write is answered with its own public key. */
  lemma WriterReports(bls: Bls, reqs: seq<Request>, events: seq<Event>, run: seq<State>, j: nat) returns (pkHex: string)
    requires IsRun(bls, reqs, events, run) && j < |events| && events[j].Put?
    ensures events[j].p < |reqs| && reqs[events[j].p].Writer?
    ensures Reports(run[|events|], events[j].p, pkHex)
    ensures VaultPlugin.PublicKeyHex(bls, reqs[events[j].p].value) == Some(pkHex)
  {
    assert Enabled(bls, reqs, run[j], events[j]) && run[j + 1] == Next(bls, reqs, run[j], events[j]);
    pkHex := VaultPlugin.PublicKeyHex(bls, reqs[events[j].p].value).value;
    AnswersStay(bls, reqs, events, run, j + 1, |events|, events[j].p);
  }

  /** What request p has done by state j: nothing, one read, or one read and its end. */
  predicate Done(s: State, p: nat, gets: nat, puts: nat, fails: nat) {
    && p < |s.progress|
    && match s.progress[p]
       case Idle => gets == 0 && puts == 0 && fails == 0
       case Cleared => gets == 1 && puts == 0 && fails == 0
       case Answered(reply) =>
         && gets <= 1 && puts + fails <= 1 && (fails == 0 ==> gets == 1) && (puts == 1 ==> gets == 1)
         && (fails == 1 ==> reply.Failed?)
         && (puts == 1 ==> reply.PublicKeyIs?)
  }

  /** How often an event occurs among the first j. */
  function Count(events: seq<Event>, e: Event): nat {
    if events == [] then 0
    else Count(events[..|events| - 1], e) + if events[|events| - 1] == e then 1 else 0
  }

  lemma DoneNext(bls: Bls, reqs: seq<Request>, s: State, e: Event, p: nat, gets: nat, puts: nat, fails: nat)
    requires Enabled(bls, reqs, s, e) && Done(s, p, gets, puts, fails)
    ensures Done(Next(bls, reqs, s, e), p, if e == Get(p) then gets + 1 else gets,
                 if e == Put(p) then puts + 1 else puts, if e == Fail(p) then fails + 1 else fails)
  {
  }

  /**
   Every request reads storage at most once, writes at most once, and only after its read; and
   it is answered once: a failure, and a write, is the last thing it does.
   */
  lemma {:induction false} OneAnswer(bls: Bls, reqs: seq<Request>, events: seq<Event>, run: seq<State>, j: nat, p: nat)
    requires IsRun(bls, reqs, events, run) && j < |run| && p < |reqs|
    ensures Done(run[j], p, Count(events[..j], Get(p)), Count(events[..j], Put(p)), Count(events[..j], Fail(p)))
  {
    if j > 0 {
      OneAnswer(bls, reqs, events, run, j - 1, p);
      assert events[..j][..j - 1] == events[..j - 1];
      assert Enabled(bls, reqs, run[j - 1], events[j - 1]) && run[j] == Next(bls, reqs, run[j - 1], events[j - 1]);
      DoneNext(bls, reqs, run[j - 1], events[j - 1], p, Count(events[..j - 1], Get(p)),
               Count(events[..j - 1], Put(p)), Count(events[..j - 1], Fail(p)));
    }
  }

  // ----- signatures

  predicate Signed(s: State, q: nat, sigHex: string) {
    q < |s.progress| && s.progress[q] == Answered(VaultPlugin.SignatureIs(sigHex))
  }

  /** A signature was made with the text stored when its request read storage. */
  lemma {:induction false} SignedWith(bls: Bls, reqs: seq<Request>, events: seq<Event>, run: seq<State>,
                                      j: nat, q: nat, sigHex: string) returns (g: nat)
    requires IsRun(bls, reqs, events, run) && j < |run| && q < |reqs| && Signed(run[j], q, sigHex)
    ensures g < j && events[g] == Get(q) && reqs[q].Signer? && reqs[q].name in run[g].entries
    ensures VaultPlugin.SignHex(bls, run[g].entries[reqs[q].name], reqs[q].message, reqs[q].dst) == Some(sigHex)
    decreases j
  {
    g := 0;
    if j > 0 {
      var e := events[j - 1];
      assert Enabled(bls, reqs, run[j - 1], e) && run[j] == Next(bls, reqs, run[j - 1], e);
      if e.p == q {
        g := j - 1;
      } else {
        assert Signed(run[j - 1], q, sigHex);
        g := SignedWith(bls, reqs, events, run, j - 1, q, sigHex);
      }
    }
  }

  /** Whenever a request reads a name, what it signs with has the public key reported for that name. */
  ghost predicate StoredMatchesReports(bls: Bls, reqs: seq<Request>, run: seq<State>)
    requires run != []
  {
    forall g: nat, p: nat, pkHex ::
      g < |run| && p < |reqs| && Reports(run[|run| - 1], p, pkHex) && reqs[p].name in run[g].entries ==>
        VaultPlugin.PublicKeyHex(bls, run[g].entries[reqs[p].name]) == Some(pkHex)
  }

  lemma StoredThroughout(bls: Bls, reqs: seq<Request>, events: seq<Event>, run: seq<State>,
                         g: nat, p: nat, pkHex: string)
    requires IsRun(bls, reqs, events, run) && WindowsHarmless(PublicKeyView(bls), reqs, events)
    requires g < |run| && p < |reqs| && Reports(run[|events|], p, pkHex) && reqs[p].name in run[g].entries
    ensures VaultPlugin.PublicKeyHex(bls, run[g].entries[reqs[p].name]) == Some(pkHex)
  {
    ReportIsStored(bls, reqs, events, run, |events|, p, pkHex);
    ViewStays(bls, PublicKeyView(bls), reqs, events, run, g, |events|, reqs[p].name);
  }

  lemma MatchingWindow(bls: Bls, reqs: seq<Request>, events: seq<Event>, run: seq<State>, i: nat, j: nat, k: nat)
    requires IsRun(bls, reqs, events, run) && StoredMatchesReports(bls, reqs, run)
    requires InWindow(reqs, events, i, j, k)
    ensures VaultPlugin.PublicKeyHex(bls, reqs[events[j].p].value) ==
            VaultPlugin.PublicKeyHex(bls, reqs[events[k].p].value)
  {
    var b := WriterReports(bls, reqs, events, run, k);
    assert run[j + 1] == Next(bls, reqs, run[j], events[j]);
    assert reqs[events[k].p].name in run[j + 1].entries;
  }

  /** Signing agrees with every public key reported exactly when the windows are harmless to the key. */
  lemma SigningMatchesIff(bls: Bls, reqs: seq<Request>, events: seq<Event>, run: seq<State>)
    requires IsRun(bls, reqs, events, run)
    ensures StoredMatchesReports(bls, reqs, run) <==> WindowsHarmless(PublicKeyView(bls), reqs, events)
  {
    if WindowsHarmless(PublicKeyView(bls), reqs, events) {
      forall g: nat, p: nat, pkHex |
        g < |run| && p < |reqs| && Reports(run[|events|], p, pkHex) && reqs[p].name in run[g].entries
        ensures VaultPlugin.PublicKeyHex(bls, run[g].entries[reqs[p].name]) == Some(pkHex)
      {
        StoredThroughout(bls, reqs, events, run, g, p, pkHex);
      }
    }
    if StoredMatchesReports(bls, reqs, run) {
      forall i: nat, j: nat, k: nat | InWindow(reqs, events, i, j, k)
        ensures PublicKeyView(bls)(reqs[events[j].p].value) == PublicKeyView(bls)(reqs[events[k].p].value)
      {
        MatchingWindow(bls, reqs, events, run, i, j, k);
      }
    }
  }

  /**
   Then a signature and a public key returned under one name come from one valid scalar,
   whichever was returned first.
   */
  lemma SignatureUnderReportedKey(bls: Bls, reqs: seq<Request>, events: seq<Event>, run: seq<State>,
                                  p: nat, q: nat, pkHex: string, sigHex: string) returns (sk: Bytes)
    requires IsRun(bls, reqs, events, run) && WindowsHarmless(PublicKeyView(bls), reqs, events)
    requires p < |reqs| && q < |reqs| && reqs[p].name == reqs[q].name
    requires Reports(run[|events|], p, pkHex) && Signed(run[|events|], q, sigHex)
    ensures Scalar.Valid(sk) && pkHex == Hex.Encode(bls.pkOf(sk)) && reqs[q].Signer?
    ensures var msg, dst := Hex.DecodeString(reqs[q].message), Hex.DecodeString(reqs[q].dst);
            msg.Some? && dst.Some? && sigHex == Hex.Encode(bls.sigOf(sk, msg.value, dst.value))
  {
    SigningMatchesIff(bls, reqs, events, run);
    var g := SignedWith(bls, reqs, events, run, |events|, q, sigHex);
    assert VaultPlugin.PublicKeyHex(bls, run[g].entries[reqs[p].name]) == Some(pkHex);
    sk := VaultPlugin.DeserializeHex(run[g].entries[reqs[q].name]).value;
  }

  // ----- what becomes of one write

  lemma {:induction false} NamesStay(bls: Bls, reqs: seq<Request>, events: seq<Event>, run: seq<State>,
                                     i: nat, j: nat, name: string)
    requires IsRun(bls, reqs, events, run) && i <= j < |run| && name in run[i].entries
    ensures name in run[j].entries
    decreases j
  {
    if i < j {
      NamesStay(bls, reqs, events, run, i, j - 1, name);
      assert Enabled(bls, reqs, run[j - 1], events[j - 1]) && run[j] == Next(bls, reqs, run[j - 1], events[j - 1]);
    }
  }

  lemma {:induction false} ClearedReadAbsent(bls: Bls, reqs: seq<Request>, events: seq<Event>, run: seq<State>,
                                             k: nat, p: nat) returns (i: nat)
    requires IsRun(bls, reqs, events, run) && k < |run| && p < |reqs|
    requires |run[k].progress| == |reqs| && run[k].progress[p] == Cleared
    ensures ReadAt(events, k, p, i) && reqs[p].name !in run[i].entries
    decreases k
  {
    i := 0;
    if k > 0 {
      var e := events[k - 1];
      assert Enabled(bls, reqs, run[k - 1], e) && run[k] == Next(bls, reqs, run[k - 1], e);
      if e == Get(p) {
        i := k - 1;
      } else {
        assert run[k - 1].progress[p] == Cleared;
        i := ClearedReadAbsent(bls, reqs, events, run, k - 1, p);
      }
    }
  }

  predicate IsPut(reqs: seq<Request>, events: seq<Event>, j: nat) {
    j < |events| && events[j].Put? && events[j].p < |reqs| && reqs[events[j].p].Writer?
  }

  /** From write j on, its name shows what was written. */
  ghost predicate Kept(view: View, reqs: seq<Request>, events: seq<Event>, run: seq<State>, j: nat)
    requires IsPut(reqs, events, j)
  {
    forall m: nat :: j < m < |run| ==>
      && reqs[events[j].p].name in run[m].entries
      && view(run[m].entries[reqs[events[j].p].name]) == view(reqs[events[j].p].value)
  }

  /** Every request that read before write j and writes after it stores what shows the same. */
  ghost predicate LateWritesHarmless(view: View, reqs: seq<Request>, events: seq<Event>, j: nat) {
    forall i: nat, k: nat :: InWindow(reqs, events, i, j, k) ==>
      view(reqs[events[k].p].value) == view(reqs[events[j].p].value)
  }

  lemma {:induction false} KeptUntil(bls: Bls, view: View, reqs: seq<Request>, events: seq<Event>, run: seq<State>,
                                     j: nat, m: nat)
    requires IsRun(bls, reqs, events, run) && IsPut(reqs, events, j) && j < m < |run|
    requires LateWritesHarmless(view, reqs, events, j)
    ensures reqs[events[j].p].name in run[m].entries
    ensures view(run[m].entries[reqs[events[j].p].name]) == view(reqs[events[j].p].value)
    decreases m
  {
    var k, name := m - 1, reqs[events[j].p].name;
    var e := events[k];
    assert Enabled(bls, reqs, run[k], e) && run[m] == Next(bls, reqs, run[k], e);
    if j < k {
      KeptUntil(bls, view, reqs, events, run, j, k);
      if e.Put? && reqs[e.p].name == name {
        LateWriteInWindow(bls, reqs, events, run, j, k);
      }
    }
  }

  /** A later write to the same name comes from a request that had read before. */
  lemma LateWriteInWindow(bls: Bls, reqs: seq<Request>, events: seq<Event>, run: seq<State>, j: nat, k: nat)
    requires IsRun(bls, reqs, events, run) && IsPut(reqs, events, j) && IsPut(reqs, events, k) && j < k
    requires reqs[events[j].p].name == reqs[events[k].p].name
    ensures exists i: nat :: InWindow(reqs, events, i, j, k)
  {
    assert Enabled(bls, reqs, run[k], events[k]);
    assert Enabled(bls, reqs, run[j], events[j]) && run[j + 1] == Next(bls, reqs, run[j], events[j]);
    var i := ClearedReadAbsent(bls, reqs, events, run, k, events[k].p);
    if j < i {
      NamesStay(bls, reqs, events, run, j + 1, i, reqs[events[j].p].name);
    }
    assert InWindow(reqs, events, i, j, k);
  }

  /** What write j stored stays visible exactly when no write whose window it fell into shows something else. */
  lemma WriteKeptIff(bls: Bls, view: View, reqs: seq<Request>, events: seq<Event>, run: seq<State>, j: nat)
    requires IsRun(bls, reqs, events, run) && IsPut(reqs, events, j)
    ensures Kept(view, reqs, events, run, j) <==> LateWritesHarmless(view, reqs, events, j)
  {
    if LateWritesHarmless(view, reqs, events, j) {
      forall m: nat | j < m < |run|
        ensures reqs[events[j].p].name in run[m].entries
        ensures view(run[m].entries[reqs[events[j].p].name]) == view(reqs[events[j].p].value)
      {
        KeptUntil(bls, view, reqs, events, run, j, m);
      }
    }
    if Kept(view, reqs, events, run, j) {
      forall i: nat, k: nat | InWindow(reqs, events, i, j, k)
        ensures view(reqs[events[k].p].value) == view(reqs[events[j].p].value)
      {
        assert run[k + 1] == Next(bls, reqs, run[k], events[k]);
        assert reqs[events[j].p].name in run[k + 1].entries;
      }
    }
  }

  /** The scalar a text holds, in lower case. */
  function ScalarText(value: string): Option<string> {
    match VaultPlugin.DeserializeHex(value)
    case None => None
    case Some(sk) => Some(Hex.Encode(sk))
  }

  lemma SameScalarText(value: string, sk: Bytes)
    requires Scalar.Valid(sk)
    ensures ScalarText(value) == ScalarText(Hex.Encode(sk)) <==> VaultPlugin.DeserializeHex(value) == Some(sk)
  {
    VaultPlugin.EncodedKey(sk);
    Hex.RoundTrip(sk);
    if VaultPlugin.DeserializeHex(value).Some? {
      Hex.RoundTrip(VaultPlugin.DeserializeHex(value).value);
    }
  }

  // ----- runs that show the conditions are needed, and differ

  lemma TwoImports(bls: Bls, name: string, a: string, b: string) returns (events: seq<Event>, run: seq<State>)
    requires VaultPlugin.DeserializeHex(a).Some? && VaultPlugin.DeserializeHex(b).Some?
    ensures IsRun(bls, [Writer(name, a), Writer(name, b)], events, run)
    ensures events == [Get(0), Get(1), Put(0), Put(1)]
    ensures |run| == 5 && run[0].entries == map[]
    ensures run[3].entries == map[name := a] && run[4].entries == map[name := b]
    ensures run[4].progress == [Answered(VaultPlugin.PublicKeyIs(VaultPlugin.PublicKeyHex(bls, a).value)),
                                Answered(VaultPlugin.PublicKeyIs(VaultPlugin.PublicKeyHex(bls, b).value))]
  {
    var reqs := [Writer(name, a), Writer(name, b)];
    var doneA := Answered(VaultPlugin.PublicKeyIs(VaultPlugin.PublicKeyHex(bls, a).value));
    var doneB := Answered(VaultPlugin.PublicKeyIs(VaultPlugin.PublicKeyHex(bls, b).value));
    events := [Get(0), Get(1), Put(0), Put(1)];
    var s0 := State(map[], [Idle, Idle]);
    assert s0 == Start(reqs, map[]);
    run := [s0, State(map[], [Cleared, Idle]), State(map[], [Cleared, Cleared]),
            State(map[name := a], [doneA, Cleared]), State(map[name := b], [doneA, doneB])];
  }

  /** Two imports under one name can both succeed, each reporting its own key; the second replaces the first. */
  lemma TwoImportsOverwrite(bls: Bls, name: string, a: string, b: string) returns (events: seq<Event>, run: seq<State>)
    requires a != b && VaultPlugin.DeserializeHex(a).Some? && VaultPlugin.DeserializeHex(b).Some?
    ensures IsRun(bls, [Writer(name, a), Writer(name, b)], events, run)
    ensures |run| == 5 && run[0].entries == map[]
    ensures run[3].entries == map[name := a] && run[4].entries == map[name := b]
    ensures !WriteOnce(run)
    ensures var pkA, pkB := VaultPlugin.PublicKeyHex(bls, a).value, VaultPlugin.PublicKeyHex(bls, b).value;
            && Reports(run[4], 0, pkA) && Reports(run[4], 1, pkB)
            && (RepliesAgree([Writer(name, a), Writer(name, b)], run[4]) <==> pkA == pkB)
  {
    events, run := TwoImports(bls, name, a, b);
    assert name in run[3].entries && run[3].entries[name] != run[4].entries[name];
    TwoReplies([Writer(name, a), Writer(name, b)], run[4],
               VaultPlugin.PublicKeyHex(bls, a).value, VaultPlugin.PublicKeyHex(bls, b).value);
  }

  lemma TwoReplies(reqs: seq<Request>, s: State, a: string, b: string)
    requires |reqs| == |s.progress| == 2 && reqs[0].name == reqs[1].name
    requires Reports(s, 0, a) && Reports(s, 1, b)
    ensures RepliesAgree(reqs, s) <==> a == b
  {
    forall p: nat, q: nat, c, d | Reports(s, p, c) && Reports(s, q, d) && p < |reqs| && q < |reqs|
      ensures a == b ==> c == d
    {
      assert c == if p == 0 then a else b;
      assert d == if q == 0 then a else b;
    }
  }

  /** Writing one hexadecimal digit in the other case changes the text and not the scalar. */
  lemma OtherCase(s: string, i: nat, c: char)
    requires Hex.DecodeString(s).Some? && i < |s|
    requires Hex.Value(c) == Hex.Value(s[i])
    ensures Hex.DecodeString(s[i := c]) == Hex.DecodeString(s)
  {
    var t := s[i := c];
    forall j | 0 <= j < |s| ensures Hex.Value(t[j]) == Hex.Value(s[j]) && Hex.IsHex(t[j]) {
    }
    assert Hex.DecodeString(t).value == Hex.DecodeString(s).value;
  }

  lemma SmallScalar(n: byte) returns (sk: Bytes)
    requires n > 0
    ensures Scalar.Valid(sk) && sk == Zeros(31) + [n]
  {
    sk := Zeros(31) + [n];
    Scalar.LeadingZeros(31, [n]);
    assert [n][..0] == [];
    assert Scalar.BigEndian([n]) == n;
  }

  /**
   The two conditions differ: importing one scalar twice, in different letter case, breaks
   write-once for the stored text and leaves every public-key reply the same.
   */
  lemma CaseBreaksTextOnly(bls: Bls, name: string) returns (reqs: seq<Request>, events: seq<Event>, run: seq<State>)
    ensures IsRun(bls, reqs, events, run) && forall p :: 0 <= p < |reqs| ==> reqs[p].name == name
    ensures !WriteOnce(run) && RepliesAgree(reqs, run[|events|])
    ensures |reqs| == 2 && exists pkHex :: Reports(run[|events|], 0, pkHex) && Reports(run[|events|], 1, pkHex)
  {
    var sk := SmallScalar(10);
    var lower := Hex.Encode(sk);
    VaultPlugin.EncodedKey(sk);
    Hex.EncodeAt(sk, 31);
    assert lower[63] == 'a';
    var upper := lower[63 := 'A'];
    OtherCase(lower, 63, 'A');
    assert upper[63] == 'A';
    reqs := [Writer(name, lower), Writer(name, upper)];
    events, run := TwoImportsOverwrite(bls, name, lower, upper);
  }

  // ----- undisturbed, a request is one step of the plugin

  /** All of request p with nothing in between. */
  function Uninterrupted(bls: Bls, reqs: seq<Request>, s: State, p: nat): State
    requires Enabled(bls, reqs, s, Get(p))
    requires reqs[p].Writer? ==> VaultPlugin.PublicKeyHex(bls, reqs[p].value).Some?
  {
    var read := Next(bls, reqs, s, Get(p));
    if read.progress[p].Cleared? then Next(bls, reqs, read, Put(p)) else read
  }

  /** The effect and the reply are those of the plugin's one-step import, generate, public-key read or signing. */
  lemma UninterruptedIsOneStep(bls: Bls, reqs: seq<Request>, s: State, p: nat, sk: Bytes)
    requires Enabled(bls, reqs, s, Get(p))
    requires reqs[p].Writer? ==> VaultPlugin.DeserializeHex(reqs[p].value).Some?
    requires !reqs[p].Writer? ==> VaultPlugin.Inv(s.entries)
    ensures var after, good := Uninterrupted(bls, reqs, s, p), VaultPlugin.Storage(false, false);
            && after.progress[p].Answered?
            && (reqs[p].Writer? ==>
                  (after.entries, after.progress[p].reply) ==
                  VaultPlugin.Step(bls, s.entries,
                                   VaultPlugin.Call(VaultPlugin.Import(reqs[p].name, Some(reqs[p].value)), good)))
            && (reqs[p].Writer? && reqs[p].value == Hex.Encode(sk) ==>
                  (after.entries, after.progress[p].reply) ==
                  VaultPlugin.Step(bls, s.entries,
                                   VaultPlugin.Call(VaultPlugin.Generate(reqs[p].name, Some(sk)), good)))
            && (reqs[p].Reader? ==>
                  (after.entries, after.progress[p].reply) ==
                  VaultPlugin.Step(bls, s.entries, VaultPlugin.Call(VaultPlugin.ReadPublicKey(reqs[p].name), good)))
            && (reqs[p].Signer? ==>
                  var request := VaultPlugin.SignMessage(reqs[p].name, Some(reqs[p].message), Some(reqs[p].dst));
                  (after.entries, after.progress[p].reply) ==
                  VaultPlugin.Step(bls, s.entries, VaultPlugin.Call(request, good)))
  {
    if !reqs[p].Writer? {
      VaultPlugin.LoadKeyEmptyIffAbsent(s.entries, reqs[p].name);
    }
  }
}
