/** One client session (`sessionHandler` in main.go): the banner, the
    announcement of the session, then a read loop that frames each read as
    a message and answers it, until the first end-of-stream or read error,
    after which the deferred close runs.

    Socket reads are the elements of an input sequence; everything the
    session does (connection writes, channel sends, the close) is appended,
    in order, to one trace of actions. */
module Session {
  import opened Text
  import opened Colors
  import opened Events
  import opened Dispatch
  import opened Counting

  /** The text that `art.String` renders as the banner (`branding`). */
  const Brand := "JeanServ_2023"

  /** The reply to the secret command. */
  const SecretReply := "Get back to Rocket League. Sucks to Suck sucker. 8====D"

  /** The outcome of one `c.Read(buf)`. */
  datatype ReadResult =
    | Data(bytes: seq<byte>)    // `r` bytes read, no error
    | EOF                       // `io.EOF`: the peer closed its side
    | ReadError(message: string) // any other error, by its `Error()` text

  /** One observable step of a session. */
  datatype Action =
    | Write(payload: string) // `c.Write`
    | Emit(event: Event)     // a send on `sessc`, `logc` or `errc`
    | Close                  // `c.Close()`

  /** A TCP read into the 1024-byte buffer that reports no error delivers
      between 1 and 1024 bytes. */
  predicate ValidRead(rr: ReadResult)
  {
    rr.Data? ==> 1 <= |rr.bytes| <= BufferSize
  }

  predicate ValidReads(outcomes: seq<ReadResult>)
  {
    forall i :: 0 <= i < |outcomes| ==> ValidRead(outcomes[i])
  }

  function StartText(ip: string, port: string): string
  {
    "starting new session:" + ip + ":" + port
  }

  function ReceivedPrefix(port: string): string
  {
    "(" + port + ")Received message: "
  }

  function ReceivedText(port: string, m: string): string
  {
    ReceivedPrefix(port) + ColorWrap(Purple, m)
  }

  function EofText(port: string): string
  {
    "Received EOF from " + port + " ."
  }

  /** The deferred log line; main.go puts the port before the address here. */
  function ClosingText(ip: string, port: string): string
  {
    "closing " + port + ":" + ip + " session"
  }

  /** The session event announcing a reply. */
  function SendingText(port: string, what: string): string
  {
    "(" + port + ")sending: " + what
  }

  /** What the session does for a command, after announcing the message. */
  function Respond(port: string, cmd: Command, art: string -> string): seq<Action>
  {
    match cmd
    case Ping =>
      [Emit(SessionEvent(SendingText(port, ColorWrap(Gray, "pong")))),
       Write(ColorWrap(Purple, "pong\n"))]
    case Secret =>
      [Emit(SessionEvent(SendingText(port, "A secret message."))),
       Write(ColorWrap(Red, SecretReply))]
    case Ascii(arg) =>
      [Write(ColorWrap(Blue, art(arg) + "\n"))]
    case NoMatch =>
      []
  }

  /** One message: the "Received message" event, then the dispatch. */
  function HandleMessage(port: string, m: string, art: string -> string): seq<Action>
  {
    [Emit(SessionEvent(ReceivedText(port, m)))] + Respond(port, Classify(m), art)
  }

  /** The deferred function: a log line, then the close. */
  function ClosingTrace(ip: string, port: string): seq<Action>
  {
    [Emit(LogEvent(ClosingText(ip, port))), Close]
  }

  /** The read loop over the remaining reads. */
  function ReadLoop(ip: string, port: string, outcomes: seq<ReadResult>, art: string -> string): seq<Action>
    requires ValidReads(outcomes)
    decreases |outcomes|
  {
    if outcomes == [] then []
    else
      match outcomes[0]
      case EOF => [Emit(SessionEvent(EofText(port)))] + ClosingTrace(ip, port)
      case ReadError(e) => [Emit(ErrorEvent(e))] + ClosingTrace(ip, port)
      case Data(bs) =>
        HandleMessage(port, Latin1(Frame(bs, |bs|)), art) + ReadLoop(ip, port, outcomes[1..], art)
  }

  /** The remote address `addr` has a ':' between host and port. */
  lemma AddressHasPort(addr: string)
    requires ':' in addr
    ensures |Split(addr, ':')| >= 2
  {
    SplitCount(addr, ':');
    assert ':' in multiset(addr);
  }

  /** `cAddr[0]`: the client's address, the remote address up to its first ':'. */
  function RemoteHost(addr: string): (host: string)
    requires ':' in addr
    ensures |host| < |addr| && addr[..|host|] == host && addr[|host|] == ':' && ':' !in host
  {
    SplitPiecesFree(addr, ':');
    Split(addr, ':')[0]
  }

  /** `cAddr[1]`: the client's port, the piece after the first ':', up to the
      next ':' or the end. */
  function RemotePort(addr: string): (port: string)
    requires ':' in addr
    ensures var from := |RemoteHost(addr)| + 1;
      from + |port| <= |addr| && addr[from..from + |port|] == port && ':' !in port
      && (from + |port| == |addr| || addr[from + |port|] == ':')
  {
    AddressHasPort(addr);
    SplitPiecesFree(addr, ':');
    var rest := addr[IndexOf(addr, ':') + 1..];
    assert Split(addr, ':')[1] == Split(rest, ':')[0];
    Split(addr, ':')[1]
  }

  /** For an address "host:port" the session sees exactly that host and port. */
  lemma RemoteHostAndPort(ip: string, port: string)
    requires ':' !in ip && ':' !in port
    ensures ':' in ip + ":" + port
    ensures RemoteHost(ip + ":" + port) == ip && RemotePort(ip + ":" + port) == port
  {
    assert (ip + ":" + port)[|ip|] == ':';
    SplitAfterPrefix(ip, ':', port);
    SplitWithoutSeparator(port, ':');
  }

  /** The banner and the announcement that every session starts with. */
  function StartupTrace(addr: string, art: string -> string): seq<Action>
    requires ':' in addr
  {
    [Write(art(Brand) + "\n"), Emit(SessionEvent(StartText(RemoteHost(addr), RemotePort(addr))))]
  }

  /** Everything a session does, given the remote address and the reads. */
  function SessionTrace(addr: string, outcomes: seq<ReadResult>, art: string -> string): seq<Action>
    requires ':' in addr
    requires ValidReads(outcomes)
  {
    StartupTrace(addr, art) + ReadLoop(RemoteHost(addr), RemotePort(addr), outcomes, art)
  }

  /** The read loop takes one outcome and goes on with the rest after a
      message, or stops. */
  lemma ReadLoopUnfold(ip: string, port: string, outcomes: seq<ReadResult>, i: nat, art: string -> string)
    requires ValidReads(outcomes)
    requires i < |outcomes|
    ensures outcomes[i].Data? ==>
      ReadLoop(ip, port, outcomes[i..], art)
      == HandleMessage(port, Latin1(Frame(outcomes[i].bytes, |outcomes[i].bytes|)), art)
         + ReadLoop(ip, port, outcomes[i + 1..], art)
    ensures outcomes[i].EOF? ==>
      ReadLoop(ip, port, outcomes[i..], art) == [Emit(SessionEvent(EofText(port)))] + ClosingTrace(ip, port)
    ensures outcomes[i].ReadError? ==>
      ReadLoop(ip, port, outcomes[i..], art) == [Emit(ErrorEvent(outcomes[i].message))] + ClosingTrace(ip, port)
  {
    assert outcomes[i..][1..] == outcomes[i + 1..];
  }

  /** `c.Read(buf)` copying `data` to the front of the buffer; the rest of
      the buffer keeps what earlier reads left there. */
  method ReadInto(buf: array<byte>, data: seq<byte>)
    requires |data| <= buf.Length
    modifies buf
    ensures buf[..|data|] == data
    ensures buf[|data|..] == old(buf[|data|..])
  {
    forall k | 0 <= k < |data| {
      buf[k] := data[k];
    }
  }

  /** One successful read: the bytes land at the front of the reused buffer,
      the message is the buffer's first `r - 1` bytes, and it is announced and
      answered. */
  method ReceiveMessage(buf: array<byte>, bytes: seq<byte>, port: string, art: string -> string)
    returns (actions: seq<Action>)
    requires 1 <= |bytes| <= buf.Length
    modifies buf
    ensures buf[..|bytes|] == bytes && buf[|bytes|..] == old(buf[|bytes|..])
    ensures actions == HandleMessage(port, Latin1(Frame(bytes, |bytes|)), art)
  {
    ReadInto(buf, bytes);
    var r := |bytes|;
    FrameIgnoresStaleBytes(buf[..], bytes, r);
    var m := Latin1(Frame(buf[..], r));
    actions := HandleMessage(port, m, art);
  }

  /** `sessionHandler`: writes the banner, announces the session, then reads
      into one buffer that every read reuses, until the first end-of-stream
      or error; the deferred close runs on both exits. Outcomes after that
      are never read; if the outcomes run out first, the session is still
      blocked in `Read` and has not closed. */
  method RunSession(addr: string, outcomes: seq<ReadResult>, art: string -> string)
    returns (trace: seq<Action>)
    requires ':' in addr
    requires ValidReads(outcomes)
    ensures trace == SessionTrace(addr, outcomes, art)
  {
    ghost var whole := SessionTrace(addr, outcomes, art);
    trace := [Write(art(Brand) + "\n")];
    AddressHasPort(addr);
    var cAddr := Split(addr, ':');
    var cIp, cPort := cAddr[0], cAddr[1];
    assert cIp == RemoteHost(addr) && cPort == RemotePort(addr);
    trace := trace + [Emit(SessionEvent(StartText(cIp, cPort)))];
    assert outcomes[0..] == outcomes;
    var buf := new byte[BufferSize];
    var i := 0;
    while i < |outcomes|
      invariant 0 <= i <= |outcomes|
      invariant buf.Length == BufferSize
      invariant trace + ReadLoop(cIp, cPort, outcomes[i..], art) == whole
    {
      ReadLoopUnfold(cIp, cPort, outcomes, i, art);
      match outcomes[i] {
        case EOF =>
          trace := trace + [Emit(SessionEvent(EofText(cPort)))];
          // the deferred function runs on return
          trace := trace + ClosingTrace(cIp, cPort);
          return;
        case ReadError(e) =>
          trace := trace + [Emit(ErrorEvent(e))];
          trace := trace + ClosingTrace(cIp, cPort);
          return;
        case Data(bytes) =>
          var actions := ReceiveMessage(buf, bytes, cPort, art);
          trace := trace + actions;
      }
      i := i + 1;
    }
  }

  // Properties of the session trace

  predicate IsClose(x: Action)
  {
    x.Close?
  }

  predicate IsWrite(x: Action)
  {
    x.Write?
  }

  /** A send on the error channel. */
  predicate IsError(x: Action)
  {
    x.Emit? && x.event.ErrorEvent?
  }

  /** A send on the log channel. */
  predicate IsLog(x: Action)
  {
    x.Emit? && x.event.LogEvent?
  }

  /** The "Received message" session events of the session on `port`. */
  function ReceivedOf(port: string): Action -> bool
  {
    (x: Action) => x.Emit? && x.event.SessionEvent? && ReceivedPrefix(port) <= x.event.text
  }

  /** The end-of-stream session event of the session on `port`. */
  function EofOf(port: string): Action -> bool
  {
    (x: Action) => x == Emit(SessionEvent(EofText(port)))
  }

  /** Position of the first end-of-stream or error among the outcomes, or
      their number when there is none. */
  function FirstEnd(outcomes: seq<ReadResult>): (k: nat)
    ensures k <= |outcomes|
    ensures forall j :: 0 <= j < k ==> outcomes[j].Data?
    ensures k < |outcomes| ==> !outcomes[k].Data?
  {
    if outcomes == [] then 0
    else if !outcomes[0].Data? then 0
    else 1 + FirstEnd(outcomes[1..])
  }

  /** The session reaches an end-of-stream or a read error. */
  predicate Ends(outcomes: seq<ReadResult>)
  {
    FirstEnd(outcomes) < |outcomes|
  }

  /** A "sending" event followed by a reply write: no close, no error, no
      announcement and no end-of-stream among them. */
  lemma SendingThenWriteCounts(port: string, what: string, reply: string)
    ensures Count([Emit(SessionEvent(SendingText(port, what))), Write(reply)], IsClose) == 0
    ensures Count([Emit(SessionEvent(SendingText(port, what))), Write(reply)], IsError) == 0
    ensures Count([Emit(SessionEvent(SendingText(port, what))), Write(reply)], ReceivedOf(port)) == 0
    ensures Count([Emit(SessionEvent(SendingText(port, what))), Write(reply)], EofOf(port)) == 0
    ensures Count([Emit(SessionEvent(SendingText(port, what))), Write(reply)], IsLog) == 0
  {
    var text := SendingText(port, what);
    assert text[|port| + 2] == 's' && text[0] == '(';
    var ev := Emit(SessionEvent(text));
    assert ReceivedPrefix(port)[|port| + 2] == 'R';
    assert !ReceivedOf(port)(ev);
    assert EofText(port)[0] == 'R';
    assert !EofOf(port)(ev);
    assert [ev, Write(reply)] == [ev] + [Write(reply)];
    forall p: Action -> bool
      ensures Count([ev, Write(reply)], p) == (if p(ev) then 1 else 0) + (if p(Write(reply)) then 1 else 0)
    {
      CountConcat([ev], [Write(reply)], p);
      CountSingle(ev, p);
      CountSingle(Write(reply), p);
    }
  }

  /** The reply to a command neither closes, nor announces a message, nor
      reports an error or an end-of-stream. */
  lemma RespondCounts(port: string, cmd: Command, art: string -> string)
    ensures Count(Respond(port, cmd, art), IsClose) == 0
    ensures Count(Respond(port, cmd, art), IsError) == 0
    ensures Count(Respond(port, cmd, art), ReceivedOf(port)) == 0
    ensures Count(Respond(port, cmd, art), EofOf(port)) == 0
    ensures Count(Respond(port, cmd, art), IsLog) == 0
  {
    match cmd
    case Ping =>
      SendingThenWriteCounts(port, ColorWrap(Gray, "pong"), ColorWrap(Purple, "pong\n"));
    case Secret =>
      SendingThenWriteCounts(port, "A secret message.", ColorWrap(Red, SecretReply));
    case Ascii(arg) =>
      var w := Write(ColorWrap(Blue, art(arg) + "\n"));
      CountSingle(w, IsClose);
      CountSingle(w, IsError);
      CountSingle(w, ReceivedOf(port));
      CountSingle(w, EofOf(port));
      CountSingle(w, IsLog);
    case NoMatch =>
  }

  /** Handling a message announces it once and neither closes, nor reports an
      error, nor an end-of-stream. */
  lemma HandleMessageCounts(port: string, m: string, art: string -> string)
    ensures Count(HandleMessage(port, m, art), IsClose) == 0
    ensures Count(HandleMessage(port, m, art), IsError) == 0
    ensures Count(HandleMessage(port, m, art), ReceivedOf(port)) == 1
    ensures Count(HandleMessage(port, m, art), EofOf(port)) == 0
    ensures Count(HandleMessage(port, m, art), IsLog) == 0
  {
    var t := HandleMessage(port, m, art);
    var received := Emit(SessionEvent(ReceivedText(port, m)));
    assert ReceivedOf(port)(received);
    assert !EofOf(port)(received) by {
      assert ReceivedText(port, m)[0] == '(' && EofText(port)[0] == 'R';
    }
    forall p: Action -> bool
      ensures Count(t, p) == (if p(received) then 1 else 0) + Count(Respond(port, Classify(m), art), p)
    {
      CountConcat([received], Respond(port, Classify(m), art), p);
      CountSingle(received, p);
    }
    RespondCounts(port, Classify(m), art);
  }

  /** The closing log line and the close neither announce a message nor
      report an error or an end-of-stream. */
  lemma ClosingTraceCounts(ip: string, port: string)
    ensures Count(ClosingTrace(ip, port), IsClose) == 1
    ensures Count(ClosingTrace(ip, port), IsError) == 0
    ensures Count(ClosingTrace(ip, port), ReceivedOf(port)) == 0
    ensures Count(ClosingTrace(ip, port), EofOf(port)) == 0
    ensures Count(ClosingTrace(ip, port), IsLog) == 1
  {
    var log := Emit(LogEvent(ClosingText(ip, port)));
    assert ClosingTrace(ip, port) == [log] + [Close];
    forall p: Action -> bool
      ensures Count(ClosingTrace(ip, port), p) == (if p(log) then 1 else 0) + (if p(Close) then 1 else 0)
    {
      CountConcat([log], [Close], p);
      CountSingle(log, p);
      CountSingle(Close, p);
    }
  }

  /** The read loop closes the connection exactly once, as its last action
      right after the closing log line, when it meets an end-of-stream or an
      error, and never otherwise. */
  lemma {:induction false} ReadLoopClosesOnce(ip: string, port: string, outcomes: seq<ReadResult>, art: string -> string)
    requires ValidReads(outcomes)
    ensures Count(ReadLoop(ip, port, outcomes, art), IsClose) == (if Ends(outcomes) then 1 else 0)
    ensures Ends(outcomes) ==>
      var t := ReadLoop(ip, port, outcomes, art);
      |t| >= 2 && t[|t| - 2..] == ClosingTrace(ip, port)
    decreases |outcomes|
  {
    if outcomes != [] {
      var t := ReadLoop(ip, port, outcomes, art);
      ClosingTraceCounts(ip, port);
      match outcomes[0]
      case EOF =>
        CountConcat([Emit(SessionEvent(EofText(port)))], ClosingTrace(ip, port), IsClose);
      case ReadError(e) =>
        CountConcat([Emit(ErrorEvent(e))], ClosingTrace(ip, port), IsClose);
      case Data(bs) =>
        var h := HandleMessage(port, Latin1(Frame(bs, |bs|)), art);
        var rest := ReadLoop(ip, port, outcomes[1..], art);
        ReadLoopClosesOnce(ip, port, outcomes[1..], art);
        HandleMessageCounts(port, Latin1(Frame(bs, |bs|)), art);
        CountConcat(h, rest, IsClose);
        if Ends(outcomes) {
          assert t[|t| - 2..] == rest[|rest| - 2..];
        }
    }
  }

  /** The only log line of the read loop is the closing line: it is sent
      once when the loop meets an end-of-stream or an error, and never
      otherwise. */
  lemma {:induction false} ReadLoopLogsClosingOnce(ip: string, port: string, outcomes: seq<ReadResult>, art: string -> string)
    requires ValidReads(outcomes)
    ensures Count(ReadLoop(ip, port, outcomes, art), IsLog) == (if Ends(outcomes) then 1 else 0)
    decreases |outcomes|
  {
    if outcomes != [] {
      ClosingTraceCounts(ip, port);
      match outcomes[0]
      case EOF =>
        CountConcat([Emit(SessionEvent(EofText(port)))], ClosingTrace(ip, port), IsLog);
      case ReadError(e) =>
        CountConcat([Emit(ErrorEvent(e))], ClosingTrace(ip, port), IsLog);
      case Data(bs) =>
        var h := HandleMessage(port, Latin1(Frame(bs, |bs|)), art);
        ReadLoopLogsClosingOnce(ip, port, outcomes[1..], art);
        HandleMessageCounts(port, Latin1(Frame(bs, |bs|)), art);
        CountConcat(h, ReadLoop(ip, port, outcomes[1..], art), IsLog);
    }
  }

  /** Every read that delivers data before the end announces its message
      exactly once. */
  lemma {:induction false} ReadLoopAnnouncesEachMessage(ip: string, port: string, outcomes: seq<ReadResult>, art: string -> string)
    requires ValidReads(outcomes)
    ensures Count(ReadLoop(ip, port, outcomes, art), ReceivedOf(port)) == FirstEnd(outcomes)
    decreases |outcomes|
  {
    if outcomes != [] {
      ClosingTraceCounts(ip, port);
      match outcomes[0]
      case EOF =>
        var ev := Emit(SessionEvent(EofText(port)));
        assert !ReceivedOf(port)(ev) by {
          assert EofText(port)[0] == 'R';
        }
        CountConcat([ev], ClosingTrace(ip, port), ReceivedOf(port));
      case ReadError(e) =>
        CountConcat([Emit(ErrorEvent(e))], ClosingTrace(ip, port), ReceivedOf(port));
      case Data(bs) =>
        var h := HandleMessage(port, Latin1(Frame(bs, |bs|)), art);
        ReadLoopAnnouncesEachMessage(ip, port, outcomes[1..], art);
        HandleMessageCounts(port, Latin1(Frame(bs, |bs|)), art);
        CountConcat(h, ReadLoop(ip, port, outcomes[1..], art), ReceivedOf(port));
    }
  }

  /** The read loop reports one error event exactly when the outcome that
      ends it is a read error, and one end-of-stream event exactly when it
      is an end-of-stream; messages report neither. */
  lemma {:induction false} ReadLoopReportsEnd(ip: string, port: string, outcomes: seq<ReadResult>, art: string -> string)
    requires ValidReads(outcomes)
    ensures Count(ReadLoop(ip, port, outcomes, art), IsError)
      == (if Ends(outcomes) && outcomes[FirstEnd(outcomes)].ReadError? then 1 else 0)
    ensures Count(ReadLoop(ip, port, outcomes, art), EofOf(port))
      == (if Ends(outcomes) && outcomes[FirstEnd(outcomes)].EOF? then 1 else 0)
    decreases |outcomes|
  {
    if outcomes != [] {
      ClosingTraceCounts(ip, port);
      match outcomes[0]
      case EOF =>
        var ev := Emit(SessionEvent(EofText(port)));
        CountConcat([ev], ClosingTrace(ip, port), IsError);
        CountConcat([ev], ClosingTrace(ip, port), EofOf(port));
      case ReadError(e) =>
        var ev := Emit(ErrorEvent(e));
        CountConcat([ev], ClosingTrace(ip, port), IsError);
        CountConcat([ev], ClosingTrace(ip, port), EofOf(port));
      case Data(bs) =>
        var h := HandleMessage(port, Latin1(Frame(bs, |bs|)), art);
        ReadLoopReportsEnd(ip, port, outcomes[1..], art);
        HandleMessageCounts(port, Latin1(Frame(bs, |bs|)), art);
        CountConcat(h, ReadLoop(ip, port, outcomes[1..], art), IsError);
        CountConcat(h, ReadLoop(ip, port, outcomes[1..], art), EofOf(port));
    }
  }

  /** Nothing after the first end-of-stream or error is read. */
  lemma {:induction false} ReadLoopStopsAtEnd(ip: string, port: string, outcomes: seq<ReadResult>, more: seq<ReadResult>, art: string -> string)
    requires ValidReads(outcomes + more)
    requires Ends(outcomes)
    ensures ValidReads(outcomes)
    ensures ReadLoop(ip, port, outcomes + more, art) == ReadLoop(ip, port, outcomes, art)
    decreases |outcomes|
  {
    assert forall i :: 0 <= i < |outcomes| ==> outcomes[i] == (outcomes + more)[i];
    assert (outcomes + more)[0] == outcomes[0];
    if outcomes[0].Data? {
      assert (outcomes + more)[1..] == outcomes[1..] + more;
      ReadLoopStopsAtEnd(ip, port, outcomes[1..], more, art);
    }
  }

  /** The banner and the announcement neither close, nor announce a message,
      nor report an error or an end-of-stream. */
  lemma StartupTraceCounts(addr: string, art: string -> string)
    requires ':' in addr
    ensures Count(StartupTrace(addr, art), IsClose) == 0
    ensures Count(StartupTrace(addr, art), IsError) == 0
    ensures Count(StartupTrace(addr, art), ReceivedOf(RemotePort(addr))) == 0
    ensures Count(StartupTrace(addr, art), EofOf(RemotePort(addr))) == 0
    ensures Count(StartupTrace(addr, art), IsLog) == 0
  {
    var t := StartupTrace(addr, art);
    var port := RemotePort(addr);
    assert t == [t[0]] + [t[1]];
    forall p: Action -> bool
      ensures Count(t, p) == (if p(t[0]) then 1 else 0) + (if p(t[1]) then 1 else 0)
    {
      CountConcat([t[0]], [t[1]], p);
      CountSingle(t[0], p);
      CountSingle(t[1], p);
    }
    var text := StartText(RemoteHost(addr), port);
    assert text[0] == 's' && ReceivedPrefix(port)[0] == '(' && EofText(port)[0] == 'R';
    assert !ReceivedOf(port)(t[1]) && !EofOf(port)(t[1]);
  }

  /** A session from "host:port" writes the banner and then announces
      "starting new session:host:port", before it reads anything; if it
      ends, its last two actions are the log line "closing port:host
      session" and the close. */
  lemma SessionStartAndEnd(ip: string, port: string, outcomes: seq<ReadResult>, art: string -> string)
    requires ':' !in ip && ':' !in port
    requires ValidReads(outcomes)
    ensures ':' in ip + ":" + port
    ensures var t := SessionTrace(ip + ":" + port, outcomes, art);
      |t| >= 2 && t[..2] == [Write(art(Brand) + "\n"), Emit(SessionEvent(StartText(ip, port)))]
      && (Ends(outcomes) ==> t[|t| - 2..] == [Emit(LogEvent(ClosingText(ip, port))), Close])
  {
    RemoteHostAndPort(ip, port);
    var addr := ip + ":" + port;
    var t := SessionTrace(addr, outcomes, art);
    var rest := ReadLoop(ip, port, outcomes, art);
    assert t == StartupTrace(addr, art) + rest;
    ReadLoopClosesOnce(ip, port, outcomes, art);
    if Ends(outcomes) {
      assert t[|t| - 2..] == rest[|rest| - 2..];
    }
  }

  /** Whatever the reads, the deferred function runs exactly once if the
      session meets an end-of-stream or an error, and never otherwise: the
      closing line is the session's only log line and is sent once, the
      connection is closed once, and the two are the last two actions. */
  lemma SessionClosesOnce(addr: string, outcomes: seq<ReadResult>, art: string -> string)
    requires ':' in addr
    requires ValidReads(outcomes)
    ensures Count(SessionTrace(addr, outcomes, art), IsClose) == (if Ends(outcomes) then 1 else 0)
    ensures Count(SessionTrace(addr, outcomes, art), IsLog) == (if Ends(outcomes) then 1 else 0)
    ensures Ends(outcomes) ==>
      var t := SessionTrace(addr, outcomes, art);
      t[|t| - 1] == Close && t[|t| - 2] == Emit(LogEvent(ClosingText(RemoteHost(addr), RemotePort(addr))))
  {
    var rest := ReadLoop(RemoteHost(addr), RemotePort(addr), outcomes, art);
    StartupTraceCounts(addr, art);
    ReadLoopClosesOnce(RemoteHost(addr), RemotePort(addr), outcomes, art);
    CountConcat(StartupTrace(addr, art), rest, IsClose);
    ReadLoopLogsClosingOnce(RemoteHost(addr), RemotePort(addr), outcomes, art);
    CountConcat(StartupTrace(addr, art), rest, IsLog);
  }

  /** Every data read before the end produces exactly one "Received message"
      event. */
  lemma SessionAnnouncesEachMessage(addr: string, outcomes: seq<ReadResult>, art: string -> string)
    requires ':' in addr
    requires ValidReads(outcomes)
    ensures Count(SessionTrace(addr, outcomes, art), ReceivedOf(RemotePort(addr))) == FirstEnd(outcomes)
  {
    var rest := ReadLoop(RemoteHost(addr), RemotePort(addr), outcomes, art);
    StartupTraceCounts(addr, art);
    ReadLoopAnnouncesEachMessage(RemoteHost(addr), RemotePort(addr), outcomes, art);
    CountConcat(StartupTrace(addr, art), rest, ReceivedOf(RemotePort(addr)));
  }

  /** A session reports exactly one error if a read error ends it and none
      otherwise, and exactly one end-of-stream event if an end-of-stream ends
      it and none otherwise. Messages, matched or not, report no error. */
  lemma SessionReportsEnd(addr: string, outcomes: seq<ReadResult>, art: string -> string)
    requires ':' in addr
    requires ValidReads(outcomes)
    ensures Count(SessionTrace(addr, outcomes, art), IsError)
      == (if Ends(outcomes) && outcomes[FirstEnd(outcomes)].ReadError? then 1 else 0)
    ensures Count(SessionTrace(addr, outcomes, art), EofOf(RemotePort(addr)))
      == (if Ends(outcomes) && outcomes[FirstEnd(outcomes)].EOF? then 1 else 0)
  {
    var rest := ReadLoop(RemoteHost(addr), RemotePort(addr), outcomes, art);
    StartupTraceCounts(addr, art);
    ReadLoopReportsEnd(RemoteHost(addr), RemotePort(addr), outcomes, art);
    CountConcat(StartupTrace(addr, art), rest, IsError);
    CountConcat(StartupTrace(addr, art), rest, EofOf(RemotePort(addr)));
  }

  /** A session stops at its first end-of-stream or error: what the peer
      would have sent after it changes nothing. */
  lemma SessionStopsAtEnd(addr: string, outcomes: seq<ReadResult>, more: seq<ReadResult>, art: string -> string)
    requires ':' in addr
    requires ValidReads(outcomes + more)
    requires Ends(outcomes)
    ensures ValidReads(outcomes)
    ensures SessionTrace(addr, outcomes + more, art) == SessionTrace(addr, outcomes, art)
  {
    ReadLoopStopsAtEnd(RemoteHost(addr), RemotePort(addr), outcomes, more, art);
  }

  /** "ping" is answered by exactly one write, the purple "pong", after
      exactly one "sending" event beside the announcement of the message. */
  lemma PingAnswered(port: string, art: string -> string)
    ensures HandleMessage(port, PingCommand, art)
      == [Emit(SessionEvent(ReceivedText(port, PingCommand))),
          Emit(SessionEvent(SendingText(port, ColorWrap(Gray, "pong")))),
          Write(ColorWrap(Purple, "pong\n"))]
  {
  }

  /** A message that matches nothing is announced and otherwise ignored: no
      write, no further event. */
  lemma UnmatchedOnlyAnnounced(port: string, m: string, art: string -> string)
    requires Classify(m) == NoMatch
    ensures HandleMessage(port, m, art) == [Emit(SessionEvent(ReceivedText(port, m)))]
  {
  }

  /** The bytes of "ping\n" frame to the message "ping". */
  lemma PingLineFramesToPing()
    ensures Latin1(Frame([112, 105, 110, 103, 10], 5)) == PingCommand
  {
    var m := Latin1(Frame([112, 105, 110, 103, 10], 5));
    assert Frame([112, 105, 110, 103, 10], 5) == [112, 105, 110, 103];
    assert |m| == 4;
    assert m[0] == 'p' && m[1] == 'i' && m[2] == 'n' && m[3] == 'g';
  }

  /** A client on host:port that sends "ping\n" and then closes its side:
      the banner, the session announcement, the message, the "sending"
      event, the pong, the end-of-stream event, the closing line and the
      close, in that order and nothing else. */
  lemma PingSessionScenario(ip: string, port: string, art: string -> string)
    requires ':' !in ip && ':' !in port
    ensures ':' in ip + ":" + port
    ensures ValidReads([Data([112, 105, 110, 103, 10]), EOF])
    ensures SessionTrace(ip + ":" + port, [Data([112, 105, 110, 103, 10]), EOF], art)
      == [Write(art(Brand) + "\n"),
          Emit(SessionEvent(StartText(ip, port))),
          Emit(SessionEvent(ReceivedText(port, "ping"))),
          Emit(SessionEvent(SendingText(port, ColorWrap(Gray, "pong")))),
          Write(ColorWrap(Purple, "pong\n")),
          Emit(SessionEvent(EofText(port))),
          Emit(LogEvent(ClosingText(ip, port))),
          Close]
  {
    RemoteHostAndPort(ip, port);
    var bytes: seq<byte> := [112, 105, 110, 103, 10];
    var outcomes := [Data(bytes), EOF];
    assert ValidReads(outcomes);
    PingLineFramesToPing();
    PingAnswered(port, art);
    ReadLoopUnfold(ip, port, outcomes, 0, art);
    ReadLoopUnfold(ip, port, outcomes, 1, art);
    assert outcomes[0..] == outcomes;
  }
}
