/**
 * The session engine's protocol rules, as values: the command lines it writes,
 * the events it queues, how it reacts to one inbound line, how the network
 * framer cuts a byte stream into lines, and how the completion latch follows
 * from the queued events. The class in module Client performs these steps on
 * its fields; this module states and proves what they amount to.
 */
module Protocol {
  import opened Wrappers
  import opened Text
  import opened PercentFormat

  /** The network line terminator. */
  const CRLF: string := "\r\n"

  /** The identity the session registers with (irc.py:15-17). */
  const Nick: string := "kcr_test"
  const UserName: string := "kcr"
  const RealName: string := "Karl Ramm"

  /** The command templates the session formats. */
  const NickTemplate: string := "NICK %s"
  const UserTemplate: string := "USER %s 0 * :%s"
  const QuitTemplate: string := "QUIT :%s"
  const PongTemplate: string := "PONG %s"
  const JoinCommand: string := "JOIN ##kcr"

  /** The message `quit` sends when given none. */
  const FarewellMessage: string := "ALL DONE BYE BYE"

  /** The two lines of the handshake, as written to the transport. */
  const Handshake: seq<string> := ["NICK kcr_test\r\n", "USER kcr 0 * :Karl Ramm\r\n"]

  /** An exception object handed over by the transport, known only by its description. */
  datatype Fault = Fault(description: string)

  /** The Python exceptions the engine itself can raise. */
  datatype PyError =
    | IndexError         // `words[1]` on a line with fewer than two tokens
    | FormatError        // the `%` operator (a TypeError or a ValueError)
    | InvalidStateError  // `set_result` on a future that already has a result
    | UnpackError        // a ValueError: `split('\n')` gave more than two pieces to unpack

  /** How a step ended: normally, or with an exception propagating out of it. */
  datatype Outcome = Ok | Raised(error: PyError)

  /** One queued event: the kind and the payload of the queued tuple. */
  datatype Event =
    | Line(text: string)                // ('line', line)
    | Error(exc: Option<Fault>)         // ('error', exc)
    | Disconnected(exc: Option<Fault>)  // ('disconnected', exc)
    | Eof                               // ('eof', None)

  /** The completion future: still pending, or holding its result. */
  datatype Latch = Pending | Resolved(result: Option<Fault>)

  /** The text one `command(fmt, *args)` call writes to the transport, or
      None when the formatting raises. */
  function Wire(fmt: string, args: seq<string>): Option<string> {
    var text := Format(fmt, args);
    if text.None? then None else Some(text.value + CRLF)
  }

  /** A command given no arguments goes out as written, followed by the
      terminator, exactly when it holds no `%`. */
  lemma WireVerbatimIff(t: string)
    ensures Wire(t, []) == Some(t + CRLF) <==> '%' !in t
  {
    FormatUnchangedIff(t);
    var f := Format(t, []);
    if f.Some? && f.value + CRLF == t + CRLF {
      assert f.value == (f.value + CRLF)[..|f.value|];
      assert t == (t + CRLF)[..|t|];
    }
  }

  lemma NickWireFor(nick: string)
    ensures Format(NickTemplate, [nick]) == Some("NICK " + nick)
  {
    var p, q := "NICK ", "";
    assert NickTemplate == p + "%s" + q;
    FormatOne(p, nick, q);
    assert p + nick + q == "NICK " + nick;
  }

  lemma UserWireFor(user: string, name: string)
    ensures Format(UserTemplate, [user, name]) == Some("USER " + user + " 0 * :" + name)
  {
    var p, m, q := "USER ", " 0 * :", "";
    assert UserTemplate == p + "%s" + m + "%s" + q;
    FormatTwo(p, user, m, name, q);
    assert p + user + m + name + q == "USER " + user + " 0 * :" + name;
  }

  lemma HandshakeSpelled()
    ensures "NICK " + Nick + CRLF == Handshake[0]
    ensures "USER " + UserName + " 0 * :" + RealName + CRLF == Handshake[1]
  {
  }

  /** The handshake commands, formatted, are exactly the two handshake lines. */
  lemma HandshakeWire()
    ensures Wire(NickTemplate, [Nick]) == Some(Handshake[0])
    ensures Wire(UserTemplate, [UserName, RealName]) == Some(Handshake[1])
  {
    NickWireFor(Nick);
    UserWireFor(UserName, RealName);
    HandshakeSpelled();
  }

  /** The quit message is substituted verbatim, whatever it contains. */
  lemma QuitWire(message: string)
    ensures Wire(QuitTemplate, [message]) == Some("QUIT :" + message + CRLF)
  {
    assert QuitTemplate == "QUIT :" + "%s" + "";
    FormatOne("QUIT :", message, "");
    assert "QUIT :" + message + "" == "QUIT :" + message;
  }

  lemma JoinWire()
    ensures Wire(JoinCommand, []) == Some("JOIN ##kcr\r\n")
  {
    FormatPlain(JoinCommand);
    assert JoinCommand + CRLF == "JOIN ##kcr\r\n";
  }

  // ---------------------------------------------------------------------------
  // Reacting to one inbound line

  /** The replies written for one line, and how processing it ended. */
  datatype Reaction = Reaction(writes: seq<string>, outcome: Outcome)

  /** One more `command(fmt, *args)` after the steps summed up in `r`; an
      exception raised earlier stops everything after it. */
  function Issue(r: Reaction, fmt: string, args: seq<string>): Reaction {
    if r.outcome.Raised? then r
    else
      var text := Wire(fmt, args);
      if text.None? then Reaction(r.writes, Raised(FormatError))
      else Reaction(r.writes + [text.value], Ok)
  }

  /** The keepalive reply's text before `command` formats it again:
      "PONG " followed by every token after the first. */
  function PongText(words: seq<string>): string
    requires |words| >= 1
  {
    "PONG " + Join(" ", words[1..])
  }

  lemma PongTemplateFills(words: seq<string>)
    requires |words| >= 1
    ensures Format(PongTemplate, [Join(" ", words[1..])]) == Some(PongText(words))
  {
    var j := Join(" ", words[1..]);
    assert PongTemplate == "PONG " + "%s" + "";
    FormatOne("PONG ", j, "");
    assert "PONG " + j + "" == PongText(words);
  }

  /** The mode rule on the second token: join the channel when it is the mode
      keyword, in any case. */
  function ModeRule(token: string): Reaction {
    if Upper(token) == "MODE" then Issue(Reaction([], Ok), JoinCommand, []) else Reaction([], Ok)
  }

  /** The mode rule never raises: the join command holds no `%`. */
  lemma ModeRuleOk(token: string)
    ensures ModeRule(token).outcome == Ok
  {
    JoinWire();
  }

  /** The mode rule writes the join command exactly when the token is the
      mode keyword, in any case, and nothing otherwise. */
  lemma ModeRuleReplies(token: string)
    ensures ModeRule(token) == Reaction(if IsModeToken(token) then ["JOIN ##kcr\r\n"] else [], Ok)
  {
    ModeTokenIff(token);
    JoinWire();
  }

  /** `line_received`: the mode rule, then the keepalive rule, then the event. */
  function React(line: string): Reaction {
    var w := Words(line);
    if |w| < 2 then Reaction([], Raised(IndexError))
    else
      var r := ModeRule(w[1]);
      if w[0] == "PING" then Issue(r, PongText(w), []) else r
  }

  /** The second token is the mode keyword, in any mix of cases. */
  ghost predicate IsModeToken(t: string) {
    SameIgnoringCase(t, "MODE")
  }

  lemma ModeTokenIff(t: string)
    ensures Upper(t) == "MODE" <==> IsModeToken(t)
  {
    UpperIsWord(t, "MODE");
  }

  /** A line with fewer than two tokens raises before anything is written or queued. */
  lemma ReactShortLine(line: string)
    requires |Words(line)| < 2
    ensures React(line) == Reaction([], Raised(IndexError))
  {
  }

  /** The auto-response rules: a JOIN exactly when the second token is the mode
      keyword, a PONG echoing every later token exactly when the first token is
      PING, the JOIN before the PONG when both apply, and nothing otherwise. */
  lemma ReactReplies(line: string)
    requires |Words(line)| >= 2
    requires Words(line)[0] == "PING" ==> '%' !in Join(" ", Words(line)[1..])
    ensures var w := Words(line);
      React(line) == Reaction(
        (if IsModeToken(w[1]) then ["JOIN ##kcr\r\n"] else []) +
        (if w[0] == "PING" then ["PONG " + Join(" ", w[1..]) + "\r\n"] else []),
        Ok)
  {
    var w := Words(line);
    ModeRuleReplies(w[1]);
    if w[0] == "PING" {
      var p := PongText(w);
      assert p == "PONG " + Join(" ", w[1..]) && '%' !in "PONG ";
      WireVerbatimIff(p);
    }
  }

  /** The PONG payload is re-read as a format string by `command`: the reply
      echoes the tokens verbatim exactly when they hold no `%`. */
  lemma PongEchoIff(line: string)
    requires |Words(line)| >= 2 && Words(line)[0] == "PING"
    ensures var w := Words(line);
      (React(line).outcome == Ok && React(line).writes[|React(line).writes| - 1] == PongText(w) + CRLF)
      <==> '%' !in Join(" ", w[1..])
  {
    var w := Words(line);
    var p := PongText(w);
    ModeRuleOk(w[1]);
    WireVerbatimIff(p);
    assert p == "PONG " + Join(" ", w[1..]) && '%' !in "PONG ";
    var x := Wire(p, []);
    if x.Some? {
      assert React(line).writes == ModeRule(w[1]).writes + [x.value];
    }
  }

  /** The queued events a line produces: one line event unless it raised. */
  function EventsOf(line: string, r: Reaction): seq<Event> {
    if r.outcome.Ok? then [Line(line)] else []
  }

  // ---------------------------------------------------------------------------
  // The network framer
  //
  // The framer is stated for any line handler `handle`; the session's own
  // handler is React. Keeping the handler abstract keeps the framing proofs
  // about framing alone.

  /** The effect of one `data_received` call: the lines handed to the line
      handler, the replies written, the events queued, the text left in the
      buffer, and how the call ended. */
  datatype Batch = Batch(lines: seq<string>, writes: seq<string>, events: seq<Event>, rest: string, outcome: Outcome)

  /** The batch `b`, preceded by lines already handled. */
  function Behind(lines: seq<string>, writes: seq<string>, events: seq<Event>, b: Batch): Batch {
    Batch(lines + b.lines, writes + b.writes, events + b.events, b.rest, b.outcome)
  }

  /** `data_received` on a buffer holding `s`: split off the text before the
      first CRLF, hand it to the line handler, and go on with the rest, until
      no CRLF is left or a line raises. */
  function Feed(handle: string -> Reaction, s: string): Batch
    decreases |s|
  {
    var parts := SplitOnce(s, CRLF);
    if |parts| == 1 then Batch([], [], [], s, Ok)
    else
      var line := parts[0];
      var r := handle(line);
      if r.outcome.Raised? then Batch([line], r.writes, [], parts[1], r.outcome)
      else Behind([line], r.writes, [Line(line)], Feed(handle, parts[1]))
  }

  /** The lines, each followed by its terminator. */
  function Framed(lines: seq<string>): string {
    if lines == [] then [] else lines[0] + CRLF + Framed(lines[1..])
  }

  /** The replies written for the lines, in order. */
  function Replies(handle: string -> Reaction, lines: seq<string>): seq<string> {
    if lines == [] then [] else handle(lines[0]).writes + Replies(handle, lines[1..])
  }

  /** One line event per line, in order. */
  function LineEvents(lines: seq<string>): seq<Event> {
    if lines == [] then [] else [Line(lines[0])] + LineEvents(lines[1..])
  }

  /** One step of Feed, when the buffer holds a terminator and the line before
      it is handled without an exception. */
  lemma FeedStep(handle: string -> Reaction, s: string, line: string, tail: string)
    requires SplitOnce(s, CRLF) == [line, tail] && handle(line).outcome.Ok?
    ensures Feed(handle, s) == Behind([line], handle(line).writes, [Line(line)], Feed(handle, tail))
  {
  }

  /** The step of Feed at which a line raises: that line's replies are kept,
      no event is queued for it, and the text after it stays in the buffer. */
  lemma FeedRaise(handle: string -> Reaction, s: string, line: string, tail: string)
    requires SplitOnce(s, CRLF) == [line, tail] && handle(line).outcome.Raised?
    ensures Feed(handle, s) == Batch([line], handle(line).writes, [], tail, handle(line).outcome)
  {
  }

  /** The last step of Feed: without a terminator the whole text stays buffered. */
  lemma FeedDone(handle: string -> Reaction, s: string)
    requires !Contains(s, CRLF)
    ensures Feed(handle, s) == Batch([], [], [], s, Ok)
  {
  }

  /** The loop of `data_received`, one line further: with the lines handled
      so far in front of what Feed does on the buffer, taking the next line
      without an exception leaves the same batch. */
  lemma FeedAdvance(handle: string -> Reaction, s: string,
                    lines: seq<string>, writes: seq<string>, events: seq<Event>, target: Batch)
    requires Behind(lines, writes, events, Feed(handle, s)) == target
    requires |SplitOnce(s, CRLF)| == 2 && handle(SplitOnce(s, CRLF)[0]).outcome.Ok?
    ensures var line := SplitOnce(s, CRLF)[0];
      Behind(lines + [line], writes + handle(line).writes, events + [Line(line)],
             Feed(handle, SplitOnce(s, CRLF)[1])) == target
  {
    var parts := SplitOnce(s, CRLF);
    var line := parts[0];
    FeedStep(handle, s, line, parts[1]);
    BehindBehind(lines, writes, events, [line], handle(line).writes, [Line(line)], Feed(handle, parts[1]));
  }

  /** The loop of `data_received` when the next line raises: the batch ends
      with that line, its replies and no event for it. */
  lemma FeedStop(handle: string -> Reaction, s: string,
                 lines: seq<string>, writes: seq<string>, events: seq<Event>, target: Batch)
    requires Behind(lines, writes, events, Feed(handle, s)) == target
    requires |SplitOnce(s, CRLF)| == 2 && handle(SplitOnce(s, CRLF)[0]).outcome.Raised?
    ensures var line := SplitOnce(s, CRLF)[0];
      target == Batch(lines + [line], writes + handle(line).writes, events, SplitOnce(s, CRLF)[1], handle(line).outcome)
  {
    var parts := SplitOnce(s, CRLF);
    FeedRaise(handle, s, parts[0], parts[1]);
    assert events + [] == events;
  }

  /** The loop of `data_received` when no terminator is left: the batch is
      what was handled so far, with the buffer left as it is. */
  lemma FeedEnd(handle: string -> Reaction, s: string,
                lines: seq<string>, writes: seq<string>, events: seq<Event>, target: Batch)
    requires Behind(lines, writes, events, Feed(handle, s)) == target
    requires !Contains(s, CRLF)
    ensures target == Batch(lines, writes, events, s, Ok)
  {
    FeedDone(handle, s);
    assert lines + [] == lines && writes + [] == writes && events + [] == events;
  }

  /** Framing loses nothing: the text equals every line handed on, each with
      its terminator, followed by what stays in the buffer. */
  lemma {:induction false} FeedReconstructs(handle: string -> Reaction, s: string)
    ensures Framed(Feed(handle, s).lines) + Feed(handle, s).rest == s
    decreases |s|
  {
    var parts := SplitOnce(s, CRLF);
    if |parts| == 2 {
      SplitOnceJoins(s);
      if handle(parts[0]).outcome.Ok? {
        FeedReconstructs(handle, parts[1]);
        ReconstructStep(handle, s, parts[0], parts[1]);
      } else {
        FramedOne(parts[0]);
      }
    }
  }

  lemma SplitOnceJoins(s: string)
    requires |SplitOnce(s, CRLF)| == 2
    ensures s == SplitOnce(s, CRLF)[0] + CRLF + SplitOnce(s, CRLF)[1]
  {
    var parts := SplitOnce(s, CRLF);
    assert Join(CRLF, parts) == parts[0] + CRLF + Join(CRLF, parts[1..]);
  }

  lemma ReconstructStep(handle: string -> Reaction, s: string, line: string, tail: string)
    requires SplitOnce(s, CRLF) == [line, tail] && handle(line).outcome.Ok?
    requires Framed(Feed(handle, tail).lines) + Feed(handle, tail).rest == tail
    ensures Framed(Feed(handle, s).lines) + Feed(handle, s).rest == line + CRLF + tail
  {
    FeedStep(handle, s, line, tail);
    var f := Feed(handle, tail);
    assert Feed(handle, s).lines == [line] + f.lines && Feed(handle, s).rest == f.rest;
    FramedConsRest(line, f.lines, f.rest);
  }

  lemma FramedConsRest(line: string, lines: seq<string>, rest: string)
    ensures Framed([line] + lines) + rest == line + CRLF + (Framed(lines) + rest)
  {
    FramedCons(line, lines);
    assert line + CRLF + Framed(lines) + rest == line + CRLF + (Framed(lines) + rest);
  }

  /** Every line handed on is free of CRLF. */
  lemma {:induction false} FeedLinesSeparate(handle: string -> Reaction, s: string)
    ensures forall k :: 0 <= k < |Feed(handle, s).lines| ==> !Contains(Feed(handle, s).lines[k], CRLF)
    decreases |s|
  {
    var parts := SplitOnce(s, CRLF);
    if |parts| == 1 {
      FeedDone(handle, s);
    } else if handle(parts[0]).outcome.Ok? {
      FeedStep(handle, s, parts[0], parts[1]);
      FeedLinesSeparate(handle, parts[1]);
      var ls := Feed(handle, parts[1]).lines;
      forall k | 0 <= k < |ls| + 1
        ensures !Contains(([parts[0]] + ls)[k], CRLF)
      {
        if k > 0 {
          assert ([parts[0]] + ls)[k] == ls[k - 1];
        }
      }
    } else {
      FeedRaise(handle, s, parts[0], parts[1]);
    }
  }

  /** When a call ends normally, the text left in the buffer is free of CRLF. */
  lemma {:induction false} FeedRestSeparate(handle: string -> Reaction, s: string)
    requires Feed(handle, s).outcome.Ok?
    ensures !Contains(Feed(handle, s).rest, CRLF)
    decreases |s|
  {
    var parts := SplitOnce(s, CRLF);
    if |parts| == 1 {
      FeedDone(handle, s);
    } else {
      FeedStep(handle, s, parts[0], parts[1]);
      FeedRestSeparate(handle, parts[1]);
    }
  }

  /** A call writes the replies to the lines it hands on, in order, the
      replies of a line that raised included. */
  lemma {:induction false} FeedWrites(handle: string -> Reaction, s: string)
    ensures Feed(handle, s).writes == Replies(handle, Feed(handle, s).lines)
    decreases |s|
  {
    var parts := SplitOnce(s, CRLF);
    if |parts| == 1 {
      FeedDone(handle, s);
    } else {
      var line, tail := parts[0], parts[1];
      var r := handle(line);
      if r.outcome.Ok? {
        FeedStep(handle, s, line, tail);
        FeedWrites(handle, tail);
        var f := Feed(handle, tail);
        assert ([line] + f.lines)[1..] == f.lines;
      } else {
        FeedRaise(handle, s, line, tail);
        assert r.writes + [] == r.writes;
      }
    }
  }

  /** A call that ends normally queues one line event per line it hands on. */
  lemma {:induction false} FeedEventsOk(handle: string -> Reaction, s: string)
    requires Feed(handle, s).outcome.Ok?
    ensures Feed(handle, s).events == LineEvents(Feed(handle, s).lines)
    decreases |s|
  {
    var parts := SplitOnce(s, CRLF);
    if |parts| == 1 {
      FeedDone(handle, s);
    } else {
      var line, tail := parts[0], parts[1];
      FeedStep(handle, s, line, tail);
      FeedEventsOk(handle, tail);
      var f := Feed(handle, tail);
      assert ([line] + f.lines)[1..] == f.lines;
    }
  }

  /** A call that raises stopped at the last line it hands on: that line
      raised, and every line before it has its line event. */
  lemma {:induction false} FeedEventsRaised(handle: string -> Reaction, s: string)
    requires Feed(handle, s).outcome.Raised?
    ensures var ls := Feed(handle, s).lines;
      && |ls| >= 1
      && Feed(handle, s).events == LineEvents(ls[..|ls| - 1])
      && handle(ls[|ls| - 1]).outcome == Feed(handle, s).outcome
    decreases |s|
  {
    var parts := SplitOnce(s, CRLF);
    var line, tail := parts[0], parts[1];
    if handle(line).outcome.Ok? {
      FeedStep(handle, s, line, tail);
      FeedEventsRaised(handle, tail);
      var f := Feed(handle, tail);
      var ls := [line] + f.lines;
      assert ls[..|ls| - 1] == [line] + f.lines[..|f.lines| - 1];
      assert ls[..|ls| - 1][1..] == f.lines[..|f.lines| - 1];
    } else {
      FeedRaise(handle, s, line, tail);
      assert [line][..0] == [];
    }
  }

  /** Every line before the last one a call hands on was handled without an
      exception. */
  lemma {:induction false} FeedEarlierOk(handle: string -> Reaction, s: string)
    ensures forall k :: 0 <= k < |Feed(handle, s).lines| - 1 ==> handle(Feed(handle, s).lines[k]).outcome.Ok?
    decreases |s|
  {
    var parts := SplitOnce(s, CRLF);
    if |parts| == 1 {
      FeedDone(handle, s);
    } else {
      var line, tail := parts[0], parts[1];
      if handle(line).outcome.Ok? {
        FeedStep(handle, s, line, tail);
        FeedEarlierOk(handle, tail);
      } else {
        FeedRaise(handle, s, line, tail);
      }
    }
  }

  lemma FindExtends(a: string, b: string, pat: string)
    requires pat != [] && Find(a, pat).Some?
    ensures Find(a + b, pat) == Find(a, pat)
  {
    var i := Find(a, pat).value;
    OccursInPrefix(a, b, pat, i);
    forall j | 0 <= j < i
      ensures !OccursAt(a + b, pat, j)
    {
      OccursInPrefix(a, b, pat, j);
    }
    FindFirst(a + b, pat, i);
  }

  /** A terminator found in `a` is still the first one once more text follows. */
  lemma SplitOnceExtends(a: string, b: string)
    requires |SplitOnce(a, CRLF)| == 2
    ensures SplitOnce(a + b, CRLF) == [SplitOnce(a, CRLF)[0], SplitOnce(a, CRLF)[1] + b]
  {
    FindExtends(a, b, CRLF);
    var i := Find(a, CRLF).value;
    assert (a + b)[..i] == a[..i];
    assert (a + b)[i + 2..] == a[i + 2..] + b;
  }

  lemma BehindBehind(l1: seq<string>, w1: seq<string>, e1: seq<Event>,
                     l2: seq<string>, w2: seq<string>, e2: seq<Event>, b: Batch)
    ensures Behind(l1, w1, e1, Behind(l2, w2, e2, b)) == Behind(l1 + l2, w1 + w2, e1 + e2, b)
  {
    assert l1 + (l2 + b.lines) == (l1 + l2) + b.lines;
    assert w1 + (w2 + b.writes) == (w1 + w2) + b.writes;
    assert e1 + (e2 + b.events) == (e1 + e2) + b.events;
  }

  /** Framing does not depend on how the stream is cut into deliveries: one
      call on `a + b` does what a call on `a` followed by a call on `b` does,
      a terminator split between the two included (as long as the first call
      raised nothing). */
  lemma {:induction false} FeedInPieces(handle: string -> Reaction, a: string, b: string)
    requires Feed(handle, a).outcome.Ok?
    ensures var first := Feed(handle, a);
      Feed(handle, a + b) == Behind(first.lines, first.writes, first.events, Feed(handle, first.rest + b))
    decreases |a|
  {
    var parts := SplitOnce(a, CRLF);
    if |parts| == 1 {
      FeedDone(handle, a);
      assert Behind([], [], [], Feed(handle, a + b)) == Feed(handle, a + b);
    } else {
      var line, tail := parts[0], parts[1];
      FeedStep(handle, a, line, tail);
      FeedInPieces(handle, tail, b);
      PiecesStep(handle, a, b, line, tail);
    }
  }

  /** The inductive step of FeedInPieces. */
  lemma PiecesStep(handle: string -> Reaction, a: string, b: string, line: string, tail: string)
    requires SplitOnce(a, CRLF) == [line, tail] && handle(line).outcome.Ok?
    requires var f := Feed(handle, tail);
      Feed(handle, tail + b) == Behind(f.lines, f.writes, f.events, Feed(handle, f.rest + b))
    ensures var first := Feed(handle, a);
      Feed(handle, a + b) == Behind(first.lines, first.writes, first.events, Feed(handle, first.rest + b))
  {
    var r := handle(line);
    var f := Feed(handle, tail);
    SplitOnceExtends(a, b);
    FeedStep(handle, a, line, tail);
    FeedStep(handle, a + b, line, tail + b);
    BehindBehind([line], r.writes, [Line(line)], f.lines, f.writes, f.events, Feed(handle, f.rest + b));
  }

  lemma FindAfterLine(line: string, t: string)
    requires !Contains(line, CRLF)
    ensures Find(line + CRLF + t, CRLF) == Some(|line|)
  {
    var s := line + CRLF + t;
    assert s == line + (CRLF + t);
    assert s[|line|..|line| + 2] == CRLF;
    assert OccursAt(s, CRLF, |line|);
    forall j | 0 <= j < |line|
      ensures !OccursAt(s, CRLF, j)
    {
      if j + 2 <= |line| {
        OccursInPrefix(line, CRLF + t, CRLF, j);
        assert !OccursAt(line, CRLF, j);
      } else {
        assert s[j..j + 2][1] == s[|line|] == '\r';
      }
    }
    FindFirst(s, CRLF, |line|);
  }

  lemma SplitOnceAfterLine(line: string, t: string)
    requires !Contains(line, CRLF)
    ensures SplitOnce(line + CRLF + t, CRLF) == [line, t]
  {
    var s := line + CRLF + t;
    FindAfterLine(line, t);
    assert s[..|line|] == line;
    assert s[|line| + 2..] == t;
  }

  /** The framer's inverse: for lines free of CRLF that raise nothing, and a
      remainder free of CRLF, a call on the framed lines followed by the
      remainder hands on exactly those lines, writes their replies, queues one
      line event each and keeps the remainder. */
  lemma {:induction false} FeedOfFramed(handle: string -> Reaction, lines: seq<string>, rest: string)
    requires forall k :: 0 <= k < |lines| ==> !Contains(lines[k], CRLF) && handle(lines[k]).outcome.Ok?
    requires !Contains(rest, CRLF)
    ensures Feed(handle, Framed(lines) + rest) == Batch(lines, Replies(handle, lines), LineEvents(lines), rest, Ok)
    decreases |lines|
  {
    var s := Framed(lines) + rest;
    if lines == [] {
      assert s == rest;
      FeedDone(handle, rest);
    } else {
      var line, more := lines[0], lines[1..];
      var t := Framed(more) + rest;
      assert s == line + CRLF + t;
      assert !Contains(line, CRLF) && handle(line).outcome.Ok?;
      SplitOnceAfterLine(line, t);
      forall k | 0 <= k < |more|
        ensures !Contains(more[k], CRLF) && handle(more[k]).outcome.Ok?
      {
        assert more[k] == lines[k + 1];
      }
      FeedOfFramed(handle, more, rest);
      FramedStep(handle, s, line, t, Replies(handle, more), LineEvents(more));
      assert Replies(handle, lines) == handle(line).writes + Replies(handle, more);
      assert LineEvents(lines) == [Line(line)] + LineEvents(more);
      assert lines == [line] + more;
    }
  }

  lemma FramedStep(handle: string -> Reaction, s: string, line: string, t: string,
                   writes: seq<string>, events: seq<Event>)
    requires SplitOnce(s, CRLF) == [line, t] && handle(line).outcome.Ok?
    requires Feed(handle, t).writes == writes && Feed(handle, t).events == events
    ensures Feed(handle, s) == Batch([line] + Feed(handle, t).lines, handle(line).writes + writes,
                                     [Line(line)] + events, Feed(handle, t).rest, Feed(handle, t).outcome)
  {
    FeedStep(handle, s, line, t);
  }

  /** A carriage return at the end of a delivery does not complete a terminator. */
  lemma NoTerminatorAfterCR(line: string)
    requires !Contains(line, CRLF)
    ensures !Contains(line + "\r", CRLF)
  {
    var first := line + "\r";
    forall j | 0 <= j
      ensures !OccursAt(first, CRLF, j)
    {
      if j + 2 <= |line| {
        OccursInPrefix(line, "\r", CRLF, j);
        assert !OccursAt(line, CRLF, j);
      } else if j + 2 == |first| {
        assert first[j..j + 2][1] == first[|line|] == '\r';
      }
    }
    ContainsIff(first, CRLF);
  }

  lemma FramedCons(line: string, lines: seq<string>)
    ensures Framed([line] + lines) == line + CRLF + Framed(lines)
  {
    assert ([line] + lines)[1..] == lines;
  }

  lemma FramedOne(line: string)
    ensures Framed([line]) == line + CRLF
  {
    assert Framed([line]) == line + CRLF + Framed([]);
  }

  /** A delivery ending in "\r" hands nothing on and keeps all of its text:
      the "\r" may be the first half of a terminator. */
  lemma CarriageReturnWaits(handle: string -> Reaction, line: string)
    requires !Contains(line, CRLF)
    ensures Feed(handle, line + "\r") == Batch([], [], [], line + "\r", Ok)
  {
    NoTerminatorAfterCR(line);
    FeedDone(handle, line + "\r");
  }

  /** A terminator split across two deliveries, "\r" at the end of one and
      "\n" at the start of the next, is still found: the line before it is
      handed on once the "\n" arrives, alone, whether or not handling it raises,
      and what follows the terminator stays in the buffer. */
  lemma TerminatorAcrossDeliveries(handle: string -> Reaction, line: string, tail: string)
    requires !Contains(line, CRLF) && !Contains(tail, CRLF)
    ensures Feed(handle, line + "\r" + "\n" + tail)
      == Batch([line], handle(line).writes, EventsOf(line, handle(line)), tail, handle(line).outcome)
  {
    var s := line + "\r" + "\n" + tail;
    assert s == line + CRLF + tail;
    SplitOnceAfterLine(line, tail);
    if handle(line).outcome.Ok? {
      FeedStep(handle, s, line, tail);
      FeedDone(handle, tail);
      assert handle(line).writes + [] == handle(line).writes;
    } else {
      FeedRaise(handle, s, line, tail);
    }
  }

  // ---------------------------------------------------------------------------
  // The completion latch

  /** The latch as the queue determines it: the result of the first
      terminating event (error, disconnect or end of stream), if there is one. */
  function LatchOf(q: seq<Event>): Latch {
    if q == [] then Pending
    else match q[0]
      case Line(_) => LatchOf(q[1..])
      case Error(exc) => Resolved(exc)
      case Disconnected(exc) => Resolved(exc)
      case Eof => Resolved(None)
  }

  /** Appending events can only resolve a pending latch; a resolved one keeps
      its result. */
  lemma {:induction false} LatchAppend(q: seq<Event>, r: seq<Event>)
    ensures LatchOf(q + r) == if LatchOf(q).Resolved? then LatchOf(q) else LatchOf(r)
    decreases |q|
  {
    if q == [] {
      assert q + r == r;
    } else {
      assert (q + r)[0] == q[0] && (q + r)[1..] == q[1..] + r;
      if q[0].Line? {
        LatchAppend(q[1..], r);
      }
    }
  }

  /** Line events never resolve the latch. */
  lemma {:induction false} LineEventsKeepLatch(q: seq<Event>, lines: seq<string>)
    ensures LatchOf(q + LineEvents(lines)) == LatchOf(q)
    decreases |lines|
  {
    LatchAppend(q, LineEvents(lines));
    if lines != [] {
      LineEventsKeepLatch([], lines[1..]);
      assert [] + LineEvents(lines[1..]) == LineEvents(lines[1..]);
    }
  }
}
