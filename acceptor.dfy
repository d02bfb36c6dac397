/** The accept loop (`connectionsHandler` in main.go): after announcing the
    bound socket, every pass logs that it starts a connection handler,
    accepts, reports a failed accept on the error channel and hands the
    connection to a new session. Each `Accept` outcome is the next element
    of an input sequence; the events and the spawned sessions are traces. */
module Acceptor {
  import opened Wrappers
  import opened Events
  import opened Counting

  /** The outcome of one `listener.Accept()`. */
  datatype AcceptResult = Accepted(remote: string) | AcceptFailed(message: string)

  const StartingText := "Starting new Connection handler"

  function BindText(listenAddr: string): string
  {
    "binding Listener on socket " + listenAddr
  }

  /** The events of one pass: the "Starting new Connection handler" log line
      before the accept, then the error if the accept failed. */
  function PassEvents(a: AcceptResult): seq<Event>
  {
    [LogEvent(StartingText)] + (if a.AcceptFailed? then [ErrorEvent(a.message)] else [])
  }

  /** The session one pass spawns, as main.go is written: `go
      sessionHandler(..., conn)` runs after every accept, failed or not; after
      a failed accept `conn` is nil, shown as `None`. */
  function PassSpawnAsWritten(a: AcceptResult): Option<string>
  {
    if a.Accepted? then Some(a.remote) else None
  }

  /** The sessions one pass spawns when a failed accept goes straight on to
      the next pass: one for an accepted connection, none otherwise. */
  function PassSpawn(a: AcceptResult): seq<string>
  {
    if a.Accepted? then [a.remote] else []
  }

  /** The events of the passes over `accepts`, in order. */
  function LoopEvents(accepts: seq<AcceptResult>): seq<Event>
  {
    if accepts == [] then []
    else LoopEvents(accepts[..|accepts| - 1]) + PassEvents(accepts[|accepts| - 1])
  }

  /** Everything the acceptor reports: the bound socket, then the passes. */
  function AcceptorEvents(listenAddr: string, accepts: seq<AcceptResult>): seq<Event>
  {
    [LogEvent(BindText(listenAddr))] + LoopEvents(accepts)
  }

  /** The connections handed to sessions as written, one per pass. */
  function SpawnedAsWritten(accepts: seq<AcceptResult>): seq<Option<string>>
  {
    seq(|accepts|, i requires 0 <= i < |accepts| => PassSpawnAsWritten(accepts[i]))
  }

  /** The connections handed to sessions, in order, by the corrected loop. */
  function Sessions(accepts: seq<AcceptResult>): seq<string>
  {
    if accepts == [] then []
    else Sessions(accepts[..|accepts| - 1]) + PassSpawn(accepts[|accepts| - 1])
  }

  /** The connections among the spawns as written, nil ones left out. */
  function Present(spawns: seq<Option<string>>): seq<string>
  {
    if spawns == [] then []
    else
      Present(spawns[..|spawns| - 1])
      + (if spawns[|spawns| - 1].Some? then [spawns[|spawns| - 1].value] else [])
  }

  /** Number of failed accepts. */
  function Failures(accepts: seq<AcceptResult>): nat
  {
    if accepts == [] then 0
    else Failures(accepts[..|accepts| - 1]) + (if accepts[|accepts| - 1].AcceptFailed? then 1 else 0)
  }

  /** The accept loop over the given accept outcomes. A failed accept is
      reported and the loop goes on to its next pass without spawning a
      session. */
  method RunAcceptor(listenAddr: string, accepts: seq<AcceptResult>)
    returns (events: seq<Event>, sessions: seq<string>)
    ensures events == AcceptorEvents(listenAddr, accepts)
    ensures sessions == Sessions(accepts)
  {
    events := [LogEvent(BindText(listenAddr))];
    sessions := [];
    var i := 0;
    while i < |accepts|
      invariant 0 <= i <= |accepts|
      invariant events == [LogEvent(BindText(listenAddr))] + LoopEvents(accepts[..i])
      invariant sessions == Sessions(accepts[..i])
    {
      assert accepts[..i + 1][..i] == accepts[..i];
      events := events + [LogEvent(StartingText)];
      match accepts[i] {
        case AcceptFailed(err) =>
          events := events + [ErrorEvent(err)];
        case Accepted(conn) =>
          sessions := sessions + [conn];
      }
      i := i + 1;
    }
    assert accepts[..i] == accepts;
  }

  predicate IsStarting(e: Event)
  {
    e == LogEvent(StartingText)
  }

  /** A report on the error channel. */
  predicate IsErrorEvent(e: Event)
  {
    e.ErrorEvent?
  }

  /** One pass logs its start once and reports an error once exactly when
      its accept failed. */
  lemma PassEventsCounts(a: AcceptResult)
    ensures Count(PassEvents(a), IsStarting) == 1
    ensures Count(PassEvents(a), IsErrorEvent) == if a.AcceptFailed? then 1 else 0
  {
    var pass := PassEvents(a);
    assert pass[1..] == if a.AcceptFailed? then [ErrorEvent(a.message)] else [];
    if a.AcceptFailed? {
      var err := ErrorEvent(a.message);
      assert [err][1..] == [];
      assert Count([err], IsStarting) == 0 && Count([err], IsErrorEvent) == 1;
    }
  }

  /** Every pass logs "Starting new Connection handler" exactly once, and
      every failed accept, and nothing else, is reported as an error. */
  lemma {:induction false} LoopEventsCounts(accepts: seq<AcceptResult>)
    ensures Count(LoopEvents(accepts), IsStarting) == |accepts|
    ensures Count(LoopEvents(accepts), IsErrorEvent) == Failures(accepts)
    decreases |accepts|
  {
    if accepts != [] {
      var init, last := accepts[..|accepts| - 1], accepts[|accepts| - 1];
      LoopEventsCounts(init);
      CountConcat(LoopEvents(init), PassEvents(last), IsStarting);
      CountConcat(LoopEvents(init), PassEvents(last), IsErrorEvent);
      PassEventsCounts(last);
    }
  }

  /** As written, a failed accept still spawns a session, handing it the nil
      connection: there is one spawn per pass, and the spawn of a failed pass
      has no connection (its first `c.Write` then panics). */
  lemma FailedAcceptSpawnsNilSession(accepts: seq<AcceptResult>, k: nat)
    requires k < |accepts| && accepts[k].AcceptFailed?
    ensures |SpawnedAsWritten(accepts)| == |accepts|
    ensures SpawnedAsWritten(accepts)[k] == None
  {
  }

  /** The corrected loop spawns exactly the sessions of the written one that
      have a connection, in the same order, and one per accepted
      connection. */
  lemma {:induction false} SessionsAreTheAccepted(accepts: seq<AcceptResult>)
    ensures Sessions(accepts) == Present(SpawnedAsWritten(accepts))
    ensures |Sessions(accepts)| == |accepts| - Failures(accepts)
    decreases |accepts|
  {
    if accepts != [] {
      var init := accepts[..|accepts| - 1];
      SessionsAreTheAccepted(init);
      var spawns := SpawnedAsWritten(accepts);
      assert spawns[..|spawns| - 1] == SpawnedAsWritten(init);
    }
  }

  /** Every spawned session holds a connection some accept returned. */
  lemma {:induction false} SessionsWereAccepted(accepts: seq<AcceptResult>)
    ensures forall k :: 0 <= k < |Sessions(accepts)| ==> Accepted(Sessions(accepts)[k]) in accepts
    decreases |accepts|
  {
    if accepts != [] {
      var init := accepts[..|accepts| - 1];
      SessionsWereAccepted(init);
      forall k | 0 <= k < |Sessions(accepts)|
        ensures Accepted(Sessions(accepts)[k]) in accepts
      {
        if k < |Sessions(init)| {
          assert Accepted(Sessions(init)[k]) in init;
        } else {
          assert accepts[|accepts| - 1] in accepts;
        }
      }
    }
  }
}
