/**
 * The session object: the protocol callbacks the transport invokes, the
 * command writer, the event queue and the completion latch. The transport is
 * represented by the sequence of texts written to it.
 */
module Client {
  import opened Wrappers
  import opened Text
  import opened PercentFormat
  import opened Protocol

  /** The one regrouping of `sent` and `queue` the proofs of `LineReceived` and
      `DataReceived` need, named so that each states it in a single step. */
  lemma AppendAssoc<T>(a: seq<T>, b: seq<T>, c: seq<T>)
    ensures a + (b + c) == a + b + c
  {
  }

  class IRCClient {
    /** `connection_made` has bound the transport. */
    var connected: bool
    /** Every text written to the transport, one element per `write`. */
    var sent: seq<string>
    /** The partial inbound line. */
    var buffer: string
    /** Every event queued so far, oldest first. */
    var queue: seq<Event>
    /** The `done` future. */
    var done: Latch

    /** Nothing is written or queued before the transport is bound, the
        handshake opens the transport's output, and the latch holds the
        result of the first terminating event in the queue. */
    ghost predicate Valid()
      reads this
    {
      && (!connected ==> sent == [] && buffer == [] && queue == [])
      && (connected ==> |sent| >= 2 && sent[..2] == Handshake)
      && done == LatchOf(queue)
    }

    constructor ()
      ensures Valid()
      ensures !connected && sent == [] && buffer == [] && queue == [] && done == Pending
    {
      connected := false;
      sent := [];
      buffer := [];
      queue := [];
      done := Pending;
    }

    /** `connection_made`: bind the transport, then register the nickname
        and the user. */
    method ConnectionMade()
      requires Valid()
      modifies this`connected, this`sent
      ensures Valid() && connected
      ensures sent == old(sent) + Handshake
    {
      connected := true;
      HandshakeWire();
      var nickSent := Command(NickTemplate, [Nick]);
      var userSent := Command(UserTemplate, [UserName, RealName]);
    }

    /** `command(fmt, *args)`: format, append the terminator, write. Writing
        after the handshake keeps the invariant; during `connection_made` the
        handshake itself is written with it. */
    method Command(fmt: string, args: seq<string>) returns (outcome: Outcome)
      requires connected
      modifies this`sent
      ensures old(Valid()) ==> Valid()
      ensures Wire(fmt, args).Some? ==> outcome == Ok && sent == old(sent) + [Wire(fmt, args).value]
      ensures Wire(fmt, args).None? ==> outcome == Raised(FormatError) && sent == old(sent)
    {
      var text := Format(fmt, args);
      if text.None? {
        return Raised(FormatError);
      }
      ghost var before := sent;
      sent := sent + [text.value + CRLF];
      assert |before| >= 2 ==> sent[..2] == before[..2];
      outcome := Ok;
    }

    /** `enqueue(kind, value)`, without the timestamp. A step of `line_received`
        and of the three terminating callbacks: a terminating event breaks
        `done == LatchOf(queue)` until the `AreDone` that follows it. */
    method Enqueue(e: Event)
      requires connected
      modifies this`queue
      ensures queue == old(queue) + [e]
    {
      queue := queue + [e];
    }

    /** `aredone(result)`: resolve the latch unless it already holds a result.
        The last step of the three terminating callbacks, which restores
        `done == LatchOf(queue)` after their `Enqueue`. */
    method AreDone(result: Option<Fault>)
      modifies this`done
      ensures done == if old(done).Pending? then Resolved(result) else old(done)
    {
      if done.Pending? {
        done := Resolved(result);
      }
    }

    /** `line_received`: the mode rule, the keepalive rule, then the line
        event; an exception stops the steps after it. */
    method LineReceived(line: string) returns (outcome: Outcome)
      requires Valid() && connected
      modifies this`sent, this`queue
      ensures Valid()
      ensures outcome == React(line).outcome
      ensures sent == old(sent) + React(line).writes
      ensures queue == old(queue) + EventsOf(line, React(line))
    {
      var words := Words(line);
      if |words| < 2 {
        return Raised(IndexError);
      }
      outcome := Ok;
      if Upper(words[1]) == "MODE" {
        outcome := Command(JoinCommand, []);
      }
      ghost var mode := ModeRule(words[1]);
      assert sent == old(sent) + mode.writes && outcome == mode.outcome;
      if outcome.Ok? && words[0] == "PING" {
        PongTemplateFills(words);
        var pong := Format(PongTemplate, [Join(" ", words[1..])]);
        outcome := Command(pong.value, []);
        if outcome.Ok? {
          AppendAssoc(old(sent), mode.writes, [Wire(pong.value, []).value]);
        }
      }
      if outcome.Ok? {
        LatchAppend(queue, [Line(line)]);
        Enqueue(Line(line));
      }
    }

    /** `data_received`: append the delivery to the buffer and hand every
        complete line to `line_received`; an exception from a line ends the
        call, leaving the text after that line in the buffer. */
    method DataReceived(data: string) returns (outcome: Outcome)
      requires Valid() && connected
      modifies this`buffer, this`sent, this`queue
      ensures Valid()
      ensures var f := Feed(React, old(buffer) + data);
        && buffer == f.rest
        && sent == old(sent) + f.writes
        && queue == old(queue) + f.events
        && outcome == f.outcome
    {
      buffer := buffer + data;
      ghost var target := Feed(React, buffer);
      ghost var lines: seq<string> := [];
      ghost var writes: seq<string> := [];
      ghost var events: seq<Event> := [];
      outcome := Ok;
      while Contains(buffer, CRLF)
        invariant Valid() && connected
        invariant sent == old(sent) + writes && queue == old(queue) + events
        invariant Behind(lines, writes, events, Feed(React, buffer)) == target
        invariant outcome == Ok
        decreases |buffer|
      {
        ghost var before := buffer;
        ghost var line := SplitOnce(before, CRLF)[0];
        ghost var r := React(line);
        outcome := NextLine();
        AppendAssoc(old(sent), writes, r.writes);
        if outcome.Raised? {
          FeedStop(React, before, lines, writes, events, target);
          return;
        }
        FeedAdvance(React, before, lines, writes, events, target);
        AppendAssoc(old(queue), events, [Line(line)]);
        lines, writes, events := lines + [line], writes + r.writes, events + [Line(line)];
      }
      FeedEnd(React, buffer, lines, writes, events, target);
    }

    /** One turn of the `data_received` loop: split the buffer at its first
        terminator and hand the line before it to `line_received`. */
    method NextLine() returns (outcome: Outcome)
      requires Valid() && connected && Contains(buffer, CRLF)
      modifies this`buffer, this`sent, this`queue
      ensures Valid()
      ensures var parts := SplitOnce(old(buffer), CRLF);
        && |parts| == 2 && buffer == parts[1] && |buffer| < |old(buffer)|
        && outcome == React(parts[0]).outcome
        && sent == old(sent) + React(parts[0]).writes
        && queue == old(queue) + EventsOf(parts[0], React(parts[0]))
    {
      var parts := SplitOnce(buffer, CRLF);
      SplitOnceJoins(buffer);
      buffer := parts[1];
      outcome := LineReceived(parts[0]);
    }

    /** The three terminating callbacks: queue one event, then resolve the latch. */
    method ConnectionLost(exc: Option<Fault>)
      requires Valid() && connected
      modifies this`queue, this`done
      ensures Valid()
      ensures queue == old(queue) + [Disconnected(exc)]
      ensures done == if old(done).Pending? then Resolved(exc) else old(done)
    {
      LatchAppend(queue, [Disconnected(exc)]);
      Enqueue(Disconnected(exc));
      AreDone(exc);
    }

    method ErrorReceived(exc: Option<Fault>)
      requires Valid() && connected
      modifies this`queue, this`done
      ensures Valid()
      ensures queue == old(queue) + [Error(exc)]
      ensures done == if old(done).Pending? then Resolved(exc) else old(done)
    {
      LatchAppend(queue, [Error(exc)]);
      Enqueue(Error(exc));
      AreDone(exc);
    }

    method EofReceived()
      requires Valid() && connected
      modifies this`queue, this`done
      ensures Valid()
      ensures queue == old(queue) + [Eof]
      ensures done == if old(done).Pending? then Resolved(None) else old(done)
    {
      LatchAppend(queue, [Eof]);
      Enqueue(Eof);
      AreDone(None);
    }

    /** The write half of `quit(message)`: send the quit command. The latch is
        left alone; it resolves when the server closes the connection. */
    method Quit(message: string)
      requires Valid() && connected
      modifies this`sent
      ensures Valid()
      ensures sent == old(sent) + ["QUIT :" + message + CRLF]
    {
      QuitWire(message);
      var quitSent := Command(QuitTemplate, [message]);
    }
  }
}
