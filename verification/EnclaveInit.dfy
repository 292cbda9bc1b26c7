/** enclave/main.go's receiveInit: one listener, connections tried in order of arrival. */
module EnclaveInit {
  import opened Common

  datatype InitMessage = InitMessage(accessKeyId: string, secretAccessKey: string, sessionToken: string, region: string)

  /** What Accept yields: an error, or a connection and the message that decodes from it, if one does. */
  datatype Arrival = AcceptError | Connection(message: Option<InitMessage>)

  /** Waiting: the arrivals have run out and the loop is blocked in Accept. */
  datatype Outcome = ListenFailed | AcceptFailed(at: nat) | Received(message: InitMessage, at: nat) | Waiting

  /** What the loop makes of these arrivals. */
  function OutcomeOf(arrivals: seq<Arrival>): Outcome {
    if arrivals == [] then Waiting
    else
      var n := |arrivals| - 1;
      var earlier := OutcomeOf(arrivals[..n]);
      if !earlier.Waiting? then earlier
      else
        match arrivals[n]
        case AcceptError => AcceptFailed(n)
        case Connection(None) => Waiting
        case Connection(Some(message)) => Received(message, n)
  }

  /** Once decided, later arrivals change nothing. */
  lemma {:induction false} DecidedStays(arrivals: seq<Arrival>, i: nat)
    requires i <= |arrivals| && !OutcomeOf(arrivals[..i]).Waiting?
    ensures OutcomeOf(arrivals) == OutcomeOf(arrivals[..i])
    decreases |arrivals|
  {
    if i == |arrivals| {
      assert arrivals[..i] == arrivals;
    } else {
      assert arrivals[..|arrivals| - 1][..i] == arrivals[..i];
      DecidedStays(arrivals[..|arrivals| - 1], i);
    }
  }

  class InitPort {
    var listening: bool
    /** Connections accepted and not closed, named by their place in the arrival order. */
    var open: set<nat>

    constructor ()
      ensures !listening && open == {}
    {
      listening, open := false, {};
    }

    /**
     The first connection that decodes wins and stays open; every earlier one has been
     closed; the listener is closed on each return that follows a successful Listen.
     */
    method ReceiveInit(listens: bool, arrivals: seq<Arrival>) returns (r: Outcome)
      requires !listening && open == {}
      modifies this
      ensures r.ListenFailed? <==> !listens
      ensures listening <==> r.Waiting?
      ensures r.Received? ==>
                && r.at < |arrivals| && arrivals[r.at] == Connection(Some(r.message))
                && (forall j :: 0 <= j < r.at ==> arrivals[j] == Connection(None))
                && open == {r.at}
      ensures r.AcceptFailed? ==>
                && r.at < |arrivals| && arrivals[r.at].AcceptError?
                && (forall j :: 0 <= j < r.at ==> arrivals[j] == Connection(None))
      ensures r.Waiting? ==> forall j :: 0 <= j < |arrivals| ==> arrivals[j] == Connection(None)
      ensures !r.Received? ==> open == {}
      ensures listens ==> r == OutcomeOf(arrivals)
    {
      if !listens {
        return ListenFailed;
      }
      listening := true;
      var i := 0;
      while i < |arrivals|
        invariant 0 <= i <= |arrivals|
        invariant listening && open == {}
        invariant forall j :: 0 <= j < i ==> arrivals[j] == Connection(None)
        invariant OutcomeOf(arrivals[..i]) == Waiting
      {
        assert arrivals[..i + 1][..i] == arrivals[..i];
        match arrivals[i]
        case AcceptError =>
          listening := false;
          DecidedStays(arrivals, i + 1);
          return AcceptFailed(i);
        case Connection(message) =>
          open := open + {i};
          if message.Some? {
            listening := false;
            DecidedStays(arrivals, i + 1);
            return Received(message.value, i);
          }
          open := open - {i};
          i := i + 1;
      }
      assert arrivals[..i] == arrivals;
      r := Waiting;
    }
  }
}
