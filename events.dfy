/** The events the server's components report, and the event handler
    (`eventHandler` in main.go) that prints one decorated line for each
    event or idle timeout it receives. */
module Events {
  import opened Wrappers
  import opened Colors

  /** A value sent on one of the three channels: the session channel
      `sessc`, the log channel `logc`, or the error channel `errc` (which
      carries the error's `Error()` text). */
  datatype Event = SessionEvent(text: string) | LogEvent(text: string) | ErrorEvent(message: string)

  /** What one `select` of the event handler receives: an event from one of
      the channels, or the idle timer firing. */
  datatype Selected = Delivered(event: Event) | Timeout

  /** The heartbeat text, printed when the idle timer of `loggerTime` (30)
      seconds fires first. */
  const HeartbeatText := "No errors for 30 seconds"

  /** The line printed for one selected source: log events in blue, session
      events in yellow, errors in red, the heartbeat in green. */
  function Decorate(s: Selected): string
  {
    match s
    case Delivered(LogEvent(text)) => ColorWrap(Blue, text)
    case Delivered(SessionEvent(text)) => ColorWrap(Yellow, text)
    case Delivered(ErrorEvent(message)) => ColorWrap(Red, message)
    case Timeout => ColorWrap(Green, HeartbeatText)
  }

  /** Reads back which source a printed line came from. */
  function Undecorate(line: string): Option<Selected>
  {
    if |line| < |Blue| + |Reset| || line[|line| - |Reset|..] != Reset then None
    else
      var colour, text := line[..|Blue|], line[|Blue|..|line| - |Reset|];
      if colour == Blue then Some(Delivered(LogEvent(text)))
      else if colour == Yellow then Some(Delivered(SessionEvent(text)))
      else if colour == Red then Some(Delivered(ErrorEvent(text)))
      else if colour == Green && text == HeartbeatText then Some(Timeout)
      else None
  }

  /** Every printed line tells its source and its text apart: decoration
      loses nothing, and the four sources get four different colours. */
  lemma DecorateRoundTrip(s: Selected)
    ensures Undecorate(Decorate(s)) == Some(s)
  {
    var line := Decorate(s);
    match s
    case Delivered(LogEvent(text)) =>
      assert line[..|Blue|] == Blue && line[|Blue|..|line| - |Reset|] == text;
    case Delivered(SessionEvent(text)) =>
      assert line[..|Blue|] == Yellow && line[|Blue|..|line| - |Reset|] == text;
    case Delivered(ErrorEvent(message)) =>
      assert line[..|Blue|] == Red && line[|Blue|..|line| - |Reset|] == message;
    case Timeout =>
      assert line[..|Blue|] == Green && line[|Blue|..|line| - |Reset|] == HeartbeatText;
  }

  /** A line that reads back as a source is exactly that source's
      decoration. */
  lemma UndecorateSound(line: string, s: Selected)
    requires Undecorate(line) == Some(s)
    ensures Decorate(s) == line
  {
    assert line == line[..|Blue|] + line[|Blue|..|line| - |Reset|] + line[|line| - |Reset|..];
  }

  /** Two selections that print the same line are the same selection. */
  lemma DecorateInjective(s1: Selected, s2: Selected)
    requires Decorate(s1) == Decorate(s2)
    ensures s1 == s2
  {
    DecorateRoundTrip(s1);
    DecorateRoundTrip(s2);
  }

  /** The event handler's loop over the sources its `select` picks, in
      order: each iteration takes exactly one source, overwrites `mwrap`
      with its decoration and prints it. */
  method RunEventHandler(selected: seq<Selected>) returns (lines: seq<string>)
    ensures |lines| == |selected|
    ensures forall i :: 0 <= i < |selected| ==> lines[i] == Decorate(selected[i])
  {
    lines := [];
    var mwrap := "";
    var i := 0;
    while i < |selected|
      invariant 0 <= i <= |selected|
      invariant |lines| == i
      invariant forall k :: 0 <= k < i ==> lines[k] == Decorate(selected[k])
    {
      match selected[i] {
        case Delivered(LogEvent(log)) =>
          mwrap := ColorWrap(Blue, log);
        case Delivered(SessionEvent(sess)) =>
          mwrap := ColorWrap(Yellow, sess);
        case Delivered(ErrorEvent(err)) =>
          mwrap := ColorWrap(Red, err);
        case Timeout =>
          mwrap := ColorWrap(Green, HeartbeatText);
      }
      lines := lines + [mwrap];
      i := i + 1;
    }
  }
}
