/** How a session turns one read into a message (the framing slice) and
    decides what the message asks for (the `switch` of `sessionHandler`). */
module Dispatch {
  import opened Wrappers
  import opened Text

  /** Size of the receive buffer (`buffersize`). */
  const BufferSize: nat := 1024

  /** The message of a read of `r` bytes into `buf`: `buf[:r-1]`, the bytes
      read with the final one (taken to be the line terminator) dropped. */
  function Frame(buf: seq<byte>, r: nat): (m: seq<byte>)
    requires 1 <= r <= |buf|
    ensures m + [buf[r - 1]] == buf[..r]
  {
    buf[..r - 1]
  }

  /** The last byte read is dropped whatever its value. */
  lemma FrameDropsLastByte(buf: seq<byte>, r: nat, b: byte)
    requires 1 <= r <= |buf|
    ensures Frame(buf[r - 1 := b], r) == Frame(buf, r)
  {
    assert buf[r - 1 := b][..r - 1] == buf[..r - 1];
  }

  /** Bytes left in the buffer by earlier, longer reads never reach the
      message. */
  lemma FrameIgnoresStaleBytes(buf1: seq<byte>, buf2: seq<byte>, r: nat)
    requires 1 <= r <= |buf1| && r <= |buf2|
    requires buf1[..r] == buf2[..r]
    ensures Frame(buf1, r) == Frame(buf2, r)
  {
    assert buf1[..r - 1] == buf1[..r][..r - 1];
    assert buf2[..r - 1] == buf2[..r][..r - 1];
  }

  /** What a message asks the session to do. */
  datatype Command =
    | Ping              // "ping": reply "pong"
    | Secret            // "pene holes": reply with the secret message
    | Ascii(arg: string) // "ascii:<arg>...": reply with <arg> as ascii art
    | NoMatch           // anything else: no reply

  const PingCommand := "ping"
  const SecretCommand := "pene holes"
  const AsciiNamespace := "ascii"

  /** The `switch` on the message exactly as main.go writes it, where the
      `ascii` case indexes `strings.Split(m, ":")[1]` without checking that
      there is a second piece. `None` stands for the run-time panic (index
      out of range) that the indexing then raises. */
  function ClassifyAsWritten(m: string): Option<Command>
  {
    if m == PingCommand then Some(Ping)
    else if m == SecretCommand then Some(Secret)
    else if Split(m, ':')[0] == AsciiNamespace then
      var parts := Split(m, ':');
      if |parts| < 2 then None else Some(Ascii(parts[1]))
    else Some(NoMatch)
  }

  /** The `switch` on the message, with the `ascii` case taken only when the
      message has a second piece to pass on; "ascii" alone matches nothing. */
  function Classify(m: string): (c: Command)
    ensures c == Ping <==> m == PingCommand
    ensures c == Secret <==> m == SecretCommand
    ensures c.Ascii? ==> |m| >= 6 && m[..6] == AsciiNamespace + ":"
  {
    if m == PingCommand then Ping
    else if m == SecretCommand then Secret
    else
      var parts := Split(m, ':');
      if parts[0] == AsciiNamespace && |parts| >= 2 then Ascii(parts[1]) else NoMatch
  }

  /** `m` is "ascii:" followed by `a` and then either nothing or another ':'.
      That is, `a` is the piece between the first and the second ':'. */
  predicate AsciiForm(m: string, a: string)
  {
    |m| >= 6 + |a| && m[..5] == AsciiNamespace && m[5] == ':' && m[6..6 + |a|] == a
    && ':' !in a && (|m| == 6 + |a| || m[6 + |a|] == ':')
  }

  /** The first piece of `a + rest` is `a` when `a` has no ':' and `rest`
      is empty or starts with one. */
  lemma FirstPieceBeforeColon(a: string, rest: string)
    requires ':' !in a
    requires rest == [] || rest[0] == ':'
    ensures Split(a + rest, ':')[0] == a
  {
    if rest == [] {
      assert a + rest == a;
      SplitWithoutSeparator(a, ':');
    } else {
      assert a + rest == a + [':'] + rest[1..];
      SplitAfterPrefix(a, ':', rest[1..]);
    }
  }

  /** A message of the `ascii` form splits into "ascii", its argument and
      whatever follows. */
  lemma AsciiFormSplits(m: string, a: string)
    requires AsciiForm(m, a)
    ensures |Split(m, ':')| >= 2
    ensures Split(m, ':')[0] == AsciiNamespace && Split(m, ':')[1] == a
  {
    var rest := m[6 + |a|..];
    assert m == m[..5] + [':'] + (a + rest);
    assert ':' !in AsciiNamespace;
    SplitAfterPrefix(AsciiNamespace, ':', a + rest);
    FirstPieceBeforeColon(a, rest);
  }

  /** A message whose first piece is "ascii" and that has a second piece is
      of the `ascii` form with that second piece as argument. */
  lemma SplitAsciiForm(m: string)
    requires |Split(m, ':')| >= 2 && Split(m, ':')[0] == AsciiNamespace
    ensures AsciiForm(m, Split(m, ':')[1])
  {
    var parts := Split(m, ':');
    var a := parts[1];
    JoinSplit(m, ':');
    SplitPiecesFree(m, ':');
    assert ':' !in a;
    var tail := JoinFirstTwo(parts, ':');
    assert m == parts[0] + [':'] + (a + tail);
    assert m[..5] == AsciiNamespace;
    assert m[6..6 + |a|] == a;
    assert m[6 + |a|..] == tail;
  }

  /** The `ascii` case fires exactly for messages whose text before the first
      ':' is "ascii" and that have a ':' at all; its argument is the piece up
      to the next ':', not the whole remainder. */
  lemma ClassifyAscii(m: string, a: string)
    ensures Classify(m) == Ascii(a) <==> AsciiForm(m, a)
  {
    if AsciiForm(m, a) {
      AsciiFormSplits(m, a);
      assert m[..6] == "ascii:";
      assert m != PingCommand && m != SecretCommand;
    }
    if Classify(m) == Ascii(a) {
      SplitAsciiForm(m);
    }
  }

  /** A message matches nothing exactly when it is neither literal command
      nor of the `ascii` form. */
  lemma ClassifyNoMatch(m: string)
    ensures Classify(m) == NoMatch <==>
      m != PingCommand && m != SecretCommand && forall a :: !AsciiForm(m, a)
  {
    if Classify(m) == NoMatch {
      forall a ensures !AsciiForm(m, a) {
        ClassifyAscii(m, a);
      }
    }
    if Classify(m).Ascii? {
      ClassifyAscii(m, Classify(m).arg);
    }
  }

  /** "ascii:a:b" passes only "a". */
  lemma AsciiTakesSecondPieceOnly()
    ensures Classify("ascii:a:b") == Ascii("a")
  {
    var m := "ascii:a:b";
    assert m[..6] == AsciiNamespace + ":" && m[6..7] == "a" && m[7] == ':';
    assert AsciiForm(m, "a");
    ClassifyAscii(m, "a");
  }

  /** As written, the only message that makes the `switch` panic is "ascii"
      alone: `strings.Split("ascii", ":")` has no piece at index 1. */
  lemma BareAsciiPanics(m: string)
    ensures ClassifyAsWritten(m) == None <==> m == AsciiNamespace
  {
    if m == AsciiNamespace {
      SplitWithoutSeparator(m, ':');
    }
    if ClassifyAsWritten(m) == None {
      JoinSplit(m, ':');
    }
  }

  /** `Classify` agrees with the source wherever the source does not panic,
      and treats the panicking message as matching nothing. */
  lemma ClassifyCorrectsOnlyThePanic(m: string)
    ensures m != AsciiNamespace ==> ClassifyAsWritten(m) == Some(Classify(m))
    ensures m == AsciiNamespace ==> Classify(m) == NoMatch
  {
    BareAsciiPanics(m);
  }
}
