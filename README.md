# JeanServ session server, modelled in Dafny

`main.go` is a small TCP server. An acceptor loop spawns one session per
connection. Each session writes a banner and answers the messages it reads:
`ping` gets `pong`, `pene holes` gets a secret reply, and a message
`ascii:<text>` gets the piece of `<text>` up to its next ':' (all of it when
there is none) drawn as ascii art. Every component reports what it does on one of
three channels (session, log, error). A single event handler prints each
event, or an idle heartbeat, as one coloured line.

The model keeps the sequential logic and replaces the concurrency with
sequences:

- a socket read is the next element of a sequence of `ReadResult`s
  (`Data(bytes)`, `EOF`, `ReadError(message)`);
- an `Accept` is the next element of a sequence of `AcceptResult`s;
- what the event handler's `select` picks is the next element of a sequence
  of `Selected` values (an event, or `Timeout`);
- a channel send, a connection write and the close are appended, in order,
  to a trace.

Files, one module each:

- `counting.dfy` (`Counting`): the number of entries of a trace that satisfy
  a predicate, for the "exactly once" properties.
- `text.dfy` (`Text`): Go's `strings.Split` with a one-character separator
  (via `IndexOf`), `Join`, and received bytes read as text.
- `colors.dfy` (`Colors`): the colour constants and `colorWrap`.
- `events.dfy` (`Events`): the three kinds of event; the event handler's
  decoration of each source, its inverse, and the event-handler loop.
- `dispatch.dfy` (`Dispatch`): framing a read as a message (`buf[:r-1]`) and
  the `switch` that classifies a message as `Ping`, `Secret`, `Ascii(arg)` or
  `NoMatch`.
- `session.dfy` (`Session`): the session's trace as a function
  (`SessionTrace`). `RunSession` is the imperative read loop over one reused
  1024-byte buffer, proved equal to `SessionTrace`. The lemmas cover
  start-up, closing, counting and stopping.
- `acceptor.dfy` (`Acceptor`): one pass of the accept loop, and the loop.
- `wrappers.dfy` (`Wrappers`): `Option`.

`art.String` (ascii art) is a foreign library. Every member that needs it
takes it as a parameter `art: string -> string`. The banner is
`art(Brand)`.

The model follows the code as written, including two quirks:

- A read error, like an end-of-stream, runs the deferred "closing … session"
  log line and the close.
- The closing line puts the port before the host (`closing <port>:<host>
  session`), while the start line puts the host first.

Two defects of the code are modelled both ways (see Findings): a bare
`ascii` message panics, and a failed accept still spawns a session on a nil
connection. `Dispatch.ClassifyAsWritten` and `Acceptor.SpawnedAsWritten`
model the code as written. The session and accept loops (`RunSession`,
`RunAcceptor`) use the corrected behaviour.

## Model

| member | source | states |
|---|---|---|
| `Colors.ColorWrap` | main.go:164-167 | the result is the colour code, then the text, then the 4-character reset code; its length is the colour's length plus the text's length plus 4 |
| `Colors.ColorWrapInjective` | main.go:164-167 | with colour codes of equal length, equal wrapped strings have equal colour and equal text |
| `Text.IndexOf` | main.go:130-131 | the result is the first position of the separator, or the length when there is none; no earlier character is the separator |
| `Text.Split` | main.go:88-90 | `strings.Split` always returns at least one piece, even for the empty string |
| `Text.SplitCount` | main.go:88-90 | a split has exactly one more piece than the string has separators |
| `Text.Join` | main.go:88-90 | the inverse of `strings.Split`: the pieces with the separator between each two (no contract; `JoinSplit` and `SplitJoin` tie it to `Split`) |
| `Text.JoinSplit` | main.go:88-90 | joining the pieces of a split with the separator gives back the original string |
| `Text.SplitJoin` | main.go:88-90 | splitting a join of separator-free pieces gives back those pieces |
| `Text.SplitPiecesFree` | main.go:130-131 | no piece of a split contains the separator |
| `Text.SplitAfterPrefix` | main.go:130-131 | when `p` has no separator, the split of `p + ":" + rest` is `p` followed by the split of `rest` |
| `Text.Latin1` | main.go:116 | `string(buf[...])` keeps every byte: one character per byte, each with that byte's code |
| `Text.Latin1Injective` | main.go:116 | different byte strings never read as the same message |
| `Dispatch.Frame` | main.go:111-116 | the message plus the last byte read is exactly the `r` bytes read; it is only defined when at least one byte was read |
| `Dispatch.FrameDropsLastByte` | main.go:116 | the last byte read is dropped whatever its value |
| `Dispatch.FrameIgnoresStaleBytes` | main.go:92-116 | bytes that earlier reads left in the reused buffer never reach the message |
| `Dispatch.ClassifyAsWritten` | main.go:117-132 | the `switch` as written, with `None` for the index-out-of-range panic of the `ascii` case (no contract; `BareAsciiPanics` characterises when it panics) |
| `Dispatch.Classify` | main.go:117-132 | the corrected `switch`: `Ping` exactly for "ping", `Secret` exactly for "pene holes", and `Ascii` only for a message that starts with "ascii:" |
| `Dispatch.ClassifyAscii` | main.go:117-131 | the message is classified `Ascii(a)` exactly when it is "ascii:", then `a` (which has no ':'), then either nothing or a ':' |
| `Dispatch.ClassifyNoMatch` | main.go:117-132 | a message matches nothing exactly when it is neither "ping" nor "pene holes" nor of the ascii form |
| `Dispatch.AsciiTakesSecondPieceOnly` | main.go:131 | "ascii:a:b" passes only "a" |
| `Dispatch.BareAsciiPanics` | main.go:130-131 | in the switch as written, the only message that indexes past the split is "ascii" |
| `Dispatch.ClassifyCorrectsOnlyThePanic` | main.go:117-132 | the corrected classification agrees with the source on every other message, and "ascii" alone matches nothing |
| `Events.Decorate` | main.go:148-156 | the line printed for one selected source: log blue, session yellow, error red, heartbeat green (no contract; `DecorateRoundTrip` and `DecorateInjective` state what it keeps) |
| `Events.Undecorate` | main.go:148-156 | the reading back of a printed line as its source and text, the partner of `Decorate` (no contract; `DecorateRoundTrip` and `UndecorateSound` relate the two) |
| `Events.DecorateRoundTrip` | main.go:145-159 | each printed line reads back as its source and text: log blue, session yellow, error red, heartbeat green with "No errors for 30 seconds" |
| `Events.UndecorateSound` | main.go:145-159 | a line that reads back as a source is exactly that source's decorated line |
| `Events.DecorateInjective` | main.go:145-159 | two different selected sources never print the same line |
| `Events.RunEventHandler` | main.go:137-160 | each iteration consumes exactly one source and prints exactly one line, its decoration, in order |
| `Session.RemoteHost` | main.go:88-89 | `cAddr[0]` is the remote address up to its first ':', and holds no ':' |
| `Session.RemotePort` | main.go:88-90 | `cAddr[1]` is the text after the first ':', up to the next ':' or the end, and holds no ':' |
| `Session.Respond` | main.go:117-132 | what each command does after the announcement: "ping" a "sending" event and the purple "pong", the secret phrase a "sending" event and the red reply, `ascii` the blue art, anything else nothing (no contract; `RespondCounts`, `PingAnswered` and `UnmatchedOnlyAnnounced` state its properties) |
| `Session.HandleMessage` | main.go:111-132 | one message: its "Received message" event, then its reply (no contract; `HandleMessageCounts` states what it does and does not emit) |
| `Session.ReadLoop` | main.go:98-133 | the read loop over the remaining reads: each data read is handled and the loop goes on; an EOF or an error emits its event and runs the deferred closing line and close (no contract; the `ReadLoop…` lemmas state its properties) |
| `Session.StartupTrace` | main.go:86-92 | the banner write and the "starting new session" announcement (no contract; `SessionStartAndEnd` states them) |
| `Session.SessionTrace` | main.go:85-134 | the whole session, start-up then read loop; the specification of `RunSession` (no contract; the `Session…` lemmas state its properties) |
| `Session.ReadInto` | main.go:100 | `c.Read(buf)` puts the bytes read at the front of the buffer and leaves the rest of the buffer as earlier reads left it |
| `Session.RemoteHostAndPort` | main.go:88-90 | for a remote address "host:port", `cAddr[0]` is the host and `cAddr[1]` the port |
| `Session.RunSession` | main.go:85-134 | the read loop over the reused buffer produces exactly the session trace, with the corrected `switch`: banner, announcement, per-message events and writes, the end event, the closing line and the close |
| `Session.ReceiveMessage` | main.go:100-116 | a read of `r` bytes puts them at the front of the reused buffer and leaves the rest of it unchanged; the message is the first `r - 1` bytes read, whatever earlier reads left in the buffer, and it is announced and answered |
| `Session.SessionStartAndEnd` | main.go:86-97 | before any read, a session writes the banner plus "\n" and announces "starting new session:host:port"; if it ends, its last two actions are "closing port:host session" and the close |
| `Session.SessionClosesOnce` | main.go:94-108 | the deferred function runs exactly once when an EOF or an error is read, and never otherwise: the closing line is the session's only log line and is sent once, the connection is closed once, and these are the last two actions |
| `Session.SessionAnnouncesEachMessage` | main.go:98-111 | the number of "Received message" events is the number of data reads before the first EOF or error |
| `Session.SessionReportsEnd` | main.go:100-108 | one error event if a read error ends the session, otherwise none; one EOF event if an EOF ends it, otherwise none |
| `Session.SessionStopsAtEnd` | main.go:98-108 | reads after the first EOF or error change nothing |
| `Session.ReadLoopClosesOnce` | main.go:94-108 | the read loop closes exactly once, right after the closing log line, when it meets an EOF or an error |
| `Session.ReadLoopLogsClosingOnce` | main.go:94-97 | the loop's only log line is the closing line, sent once when it meets an EOF or an error and never otherwise |
| `Session.ReadLoopAnnouncesEachMessage` | main.go:98-111 | each data read in the loop announces its message exactly once |
| `Session.ReadLoopReportsEnd` | main.go:100-108 | the loop reports the error or EOF that ends it exactly once, and nothing else as error or EOF |
| `Session.HandleMessageCounts` | main.go:111-132 | handling a message announces it once, and neither closes nor reports an error or an EOF |
| `Session.PingAnswered` | main.go:117-122 | "ping" gets the announcement, one "sending" event and one write, the purple "pong\n" |
| `Session.UnmatchedOnlyAnnounced` | main.go:111-132 | a message that matches no case gets no write and no event besides its announcement |
| `Session.PingSessionScenario` | main.go:85-134 | a client that sends "ping\n" and closes sees exactly: banner, announcement, received, sending, pong, EOF event, closing line, close |
| `Acceptor.PassEvents` | main.go:72-77 | the events of one pass: the "Starting new Connection handler" line, then the error when the accept failed (no contract; `PassEventsCounts` counts them) |
| `Acceptor.LoopEvents` | main.go:71-80 | the events of all passes, in order (no contract; `LoopEventsCounts` counts them) |
| `Acceptor.SpawnedAsWritten` | main.go:74-79 | the spawns as written: one per pass, with no connection after a failed accept (no contract; `FailedAcceptSpawnsNilSession` states it) |
| `Acceptor.Sessions` | main.go:74-79 | the spawns of the corrected loop: one per accepted connection, none after a failed accept (no contract; `SessionsAreTheAccepted` and `SessionsWereAccepted` state it) |
| `Acceptor.RunAcceptor` | main.go:67-80 | the accept loop emits the bind line and each pass's events, and spawns sessions only for accepted connections |
| `Acceptor.PassEventsCounts` | main.go:72-77 | each pass logs "Starting new Connection handler" once, and reports an error only when its accept failed |
| `Acceptor.LoopEventsCounts` | main.go:71-77 | over all passes: one start line per pass, one error per failed accept |
| `Acceptor.FailedAcceptSpawnsNilSession` | main.go:74-79 | as written, every pass spawns a session; after a failed accept, its connection is nil |
| `Acceptor.SessionsAreTheAccepted` | main.go:74-79 | the corrected loop spawns exactly the non-nil spawns of the written loop, in order: one per accepted connection |
| `Acceptor.SessionsWereAccepted` | main.go:74-79 | every spawned session holds a connection that some accept returned |

## Left out

- TCP listen, accept, read, write and close are I/O. Reads and accepts are
  input sequences; writes, channel sends and the close are trace entries.
- Goroutines, channels, `sync.WaitGroup`, the blocking of unbuffered sends
  and `select` fairness are left out. How events from concurrent sessions
  interleave is not modelled: `RunEventHandler` takes the order in which its
  `select` receives them as input.
- `time.After` and real time: the idle timer firing is the input symbol
  `Timeout`.
- `art.String` (github.com/zs5460/art) is foreign code. It is a function
  parameter, so nothing is assumed about what it returns.
- `log.Fatalf` on bind failure, `main`'s wiring and its `fmt.Println` of the
  banner, `listener.Addr()` (the listen address is a parameter) and the
  timestamp prefix and trailing newline of `logger.Println` are left out.
- The deferred "closing connectionHandler" and "Exiting Error Logger" lines
  are left out: the loops before them never exit.
- `Session.ValidRead` requires a successful read to deliver between 1 and
  1024 bytes. A TCP read into a non-empty buffer that reports no error never
  returns 0 bytes, and `buf[:r-1]` would be out of range for 0.
- `Session.RunSession` requires the remote address to contain ':'. A TCP
  remote address is always host:port, and `cAddr[1]` would be out of range
  otherwise.
- Strings are sequences of characters. Received bytes become one character
  per byte, which is how Go's `string([]byte)` compares them. Byte-level
  UTF-8 encoding of the replies is not modelled.
- `Session.RunSession`: when the input ends before any EOF or error, the
  trace stops there and has no close. That session is still blocked in
  `Read`.
- `Session.RunSession` models the corrected `switch` of the first Findings
  row: a bare "ascii" message is announced and otherwise ignored, and the
  session goes on reading. As written, that message panics: the deferred
  closing line and close run, then the whole process ends. The loop does not
  model that crash.
- `Acceptor.RunAcceptor` models the corrected accept loop of the second
  Findings row: a failed accept is reported and no session is spawned. As
  written, a session is spawned on the nil connection and its first write
  panics. `Acceptor.SpawnedAsWritten` records those spawns; the loop does not.
- A message sent across several reads is not reassembled: each read is one
  message, as in the source.

## Findings

| source | as written | input that shows it | evidently intended | confidence | as-written member | corrected member |
|---|---|---|---|---|---|---|
| main.go:130-131 | a message whose piece before the first ':' is "ascii" takes `strings.Split(m, ":")[1]` without checking that the piece exists | a client sends "ascii\n": the split has one piece, the index is out of range, and the panic ends the whole process | "ascii" with no argument is ignored like any unmatched message | high; not executed | `Dispatch.BareAsciiPanics` | `Dispatch.ClassifyCorrectsOnlyThePanic` |
| main.go:74-79 | after `errc <- err` the loop still runs `go sessionHandler(..., conn)` with the nil `conn` that the failed `Accept` returned | `Accept` fails (for instance, the process runs out of file descriptors): the new session's `c.Write` on a nil connection panics and ends the process | report the error and go on to the next accept without spawning a session | high; not executed | `Acceptor.FailedAcceptSpawnsNilSession` | `Acceptor.SessionsAreTheAccepted` |
