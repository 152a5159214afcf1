/**
 * The operator console: bytes from standard input are collected into lines,
 * and each line becomes a command for the session, a quit request, or
 * nothing. The functions here state what one line does; the class DumbUI
 * performs it on its fields and on the session it drives.
 */
module UI {
  import opened Wrappers
  import opened Text
  import opened PercentFormat
  import opened Protocol
  import opened Client

  /** The operator's quit word, compared after lower-casing. */
  const QuitWord: string := "quit"

  /** What `quit()` with its default message writes. */
  const QuitLine: string := "QUIT :ALL DONE BYE BYE\r\n"

  lemma QuitLineSpelled()
    ensures "QUIT :" + FarewellMessage + CRLF == QuitLine
  {
  }

  /** The three things an operator line can be. */
  datatype Action = Skip | RequestQuit | Forward(text: string)

  /** The branch `line` takes on a line: blank, the quit word in any case,
      or a command sent as the stripped text. */
  function Classify(line: string): (a: Action)
    ensures a.Skip? <==> AllSpace(line)
    ensures a.RequestQuit? <==> SameIgnoringCase(Strip(line), QuitWord)
    ensures a.Forward? ==> a.text == Strip(line)
  {
    var t := Strip(line);
    LowerIsWord(t, QuitWord);
    if t == [] then Skip
    else if Lower(t) == QuitWord then RequestQuit
    else Forward(t)
  }

  /** What the console's handling of lines can change: the texts written to
      the session's transport, the quit tasks still waiting for the session's
      latch, and whether the console's own completion future holds a result. */
  datatype ConsoleState = ConsoleState(sent: seq<string>, waiting: nat, finished: bool)

  /** A new console state, and how the step ended. */
  datatype Step = Step(state: ConsoleState, outcome: Outcome)

  /** `self.done.set_result(None)`: resolves the console's future, or raises
      and changes nothing when it is already resolved. */
  function Finish(s: ConsoleState): (r: Step)
    ensures r.state.finished
    ensures r.outcome.Raised? <==> s.finished
    ensures r.outcome.Raised? ==> r.outcome.error == InvalidStateError && r.state == s
    ensures r.state.sent == s.sent && r.state.waiting == s.waiting
  {
    if s.finished then Step(s, Raised(InvalidStateError)) else Step(s.(finished := true), Ok)
  }

  /** `yield from self.irc.quit()` and then `self.done.set_result(None)`: the
      quit command goes out with the default message, and the wait for the
      session's latch ends at once when the latch is already resolved;
      otherwise the task stays suspended. */
  function QuitStep(s: ConsoleState, latched: bool): (r: Step)
    ensures r.state.sent == s.sent + [QuitLine]
    ensures !latched ==> r == Step(s.(sent := s.sent + [QuitLine], waiting := s.waiting + 1), Ok)
    ensures latched ==> r.state.waiting == s.waiting && r.state.finished
    ensures latched ==> (r.outcome == Ok <==> !s.finished)
  {
    var q := s.(sent := s.sent + [QuitLine]);
    if latched then Finish(q) else Step(q.(waiting := s.waiting + 1), Ok)
  }

  /** `self.irc.command(line)`: the text is formatted with no arguments, so it
      is sent as it is exactly when it holds no `%`; a formatting error changes
      nothing, and otherwise exactly one text goes out. */
  function CommandStep(t: string, s: ConsoleState): (r: Step)
    ensures r == Step(s.(sent := s.sent + [t + CRLF]), Ok) <==> '%' !in t
    ensures r.outcome.Raised? ==> r == Step(s, Raised(FormatError))
    ensures r.outcome.Ok? ==> r.state == s.(sent := r.state.sent) && |r.state.sent| == |s.sent| + 1
    ensures s.sent <= r.state.sent
  {
    var w := Wire(t, []);
    WireVerbatimIff(t);
    if w.None? then Step(s, Raised(FormatError))
    else
      var r := Step(s.(sent := s.sent + [w.value]), Ok);
      assert r.state.sent[|s.sent|] == w.value;
      r
  }

  /** The `line` coroutine on one operator line, up to its first suspension,
      when the session's latch is (`latched`) or is not yet resolved. */
  function Operate(line: string, s: ConsoleState, latched: bool): (r: Step)
    ensures s.sent <= r.state.sent && |r.state.sent| <= |s.sent| + 1
    ensures s.finished ==> r.state.finished
    ensures r.outcome.Raised? ==> r.state.sent == s.sent || r.state.finished
  {
    match Classify(line)
    case Skip => Step(s, Ok)
    case RequestQuit => QuitStep(s, latched)
    case Forward(t) => CommandStep(t, s)
  }

  /** A blank or all-whitespace line does nothing. */
  lemma OperateBlank(line: string, s: ConsoleState, latched: bool)
    requires AllSpace(line)
    ensures Operate(line, s, latched) == Step(s, Ok)
  {
  }

  /** The quit word, in any case and with any surrounding whitespace, sends the
      quit command with the default message; the console's future is resolved
      only once the session's latch is, and resolving it a second time raises. */
  lemma OperateQuit(line: string, s: ConsoleState, latched: bool)
    requires SameIgnoringCase(Strip(line), QuitWord)
    ensures var r := Operate(line, s, latched);
      && r.state.sent == s.sent + ["QUIT :" + FarewellMessage + CRLF]
      && (!latched ==> r == Step(ConsoleState(s.sent + [QuitLine], s.waiting + 1, s.finished), Ok))
      && (latched ==> r.state.waiting == s.waiting && r.state.finished)
      && (latched ==> (r.outcome == Ok <==> !s.finished))
  {
    assert Classify(line) == RequestQuit;
    assert Operate(line, s, latched) == QuitStep(s, latched);
    QuitLineSpelled();
  }

  /** Any other line is sent as its stripped text, and it is sent verbatim
      exactly when that text holds no `%`. */
  lemma OperateForwardIff(line: string, s: ConsoleState, latched: bool)
    requires !AllSpace(line) && !SameIgnoringCase(Strip(line), QuitWord)
    ensures Operate(line, s, latched) == Step(s.(sent := s.sent + [Strip(line) + CRLF]), Ok)
        <==> '%' !in Strip(line)
  {
    var t := Strip(line);
    assert Classify(line) == Forward(t);
    assert Operate(line, s, latched) == CommandStep(t, s);
  }

  /** How `split('\n')` on the console's buffer comes out: no separator, exactly
      one (the line and the rest), or more than one (the two-name unpacking
      then raises). */
  datatype Cutting = Partial(rest: string) | Complete(line: string, rest: string) | Overfull

  function Cut(s: string): (r: Cutting)
    ensures r.Partial? <==> '\n' !in s
    ensures r.Partial? ==> r.rest == s
    ensures r.Complete? ==> s == r.line + "\n" + r.rest && '\n' !in r.line && '\n' !in r.rest
    ensures r.Overfull? <==> '\n' in s && '\n' in s[IndexOf(s, '\n') + 1..]
  {
    var parts := SplitOn(s, '\n');
    if |parts| == 1 then Partial(s)
    else if |parts| == 2 then
      assert Join(['\n'], parts) == parts[0] + ['\n'] + parts[1];
      Complete(parts[0], parts[1])
    else Overfull
  }

  /** The inverse of Cut: a line, its newline and a newline-free rest cut
      back into the line and the rest. */
  lemma CutOfLine(line: string, rest: string)
    requires '\n' !in line && '\n' !in rest
    ensures Cut(line + "\n" + rest) == Complete(line, rest)
  {
    SplitOnOne(line, '\n', rest);
  }

  /** A buffer holding two newlines stays that way whatever arrives next. */
  lemma OverfullSticks(s: string, more: string)
    requires Cut(s).Overfull?
    ensures Cut(s + more).Overfull?
  {
    var t := s + more;
    var i := IndexOf(s, '\n');
    IndexOfExtends(s, more, '\n');
    assert t[i + 1..] == s[i + 1..] + more;
  }

  /** Reading at most one character at a time into a newline-free buffer never
      overfills it. */
  lemma OneCharNeverOverfills(s: string, c: string)
    requires '\n' !in s && |c| <= 1
    ensures !Cut(s + c).Overfull?
  {
    var t := s + c;
    if '\n' in t {
      var i := IndexOf(t, '\n');
      assert |t[i + 1..]| == 0;
    }
  }

  class DumbUI {
    /** The session the console drives. */
    const irc: IRCClient
    /** The partial operator line. */
    var buffer: string
    /** Quit tasks suspended on the session's latch. */
    var waiting: nat
    /** The console's own `done` future holds a result. */
    var finished: bool

    /** The session is connected and keeps its own invariant. */
    ghost predicate Valid()
      reads this, irc
    {
      irc.Valid() && irc.connected
    }

    /** The part of the state the handling of a line changes. */
    ghost function State(): ConsoleState
      reads this, irc
    {
      ConsoleState(irc.sent, waiting, finished)
    }

    constructor (irc: IRCClient)
      requires irc.Valid() && irc.connected
      ensures Valid() && this.irc == irc
      ensures buffer == [] && waiting == 0 && !finished
    {
      this.irc := irc;
      buffer := [];
      waiting := 0;
      finished := false;
    }

    /** `self.done.set_result(None)`. */
    method Resolve() returns (outcome: Outcome)
      modifies this`finished
      ensures Step(State(), outcome) == Finish(old(State()))
    {
      if finished {
        return Raised(InvalidStateError);
      }
      finished := true;
      outcome := Ok;
    }

    /** The `line` coroutine, up to its first suspension. */
    method Line(line: string) returns (outcome: Outcome)
      requires Valid()
      modifies irc`sent, this`waiting, this`finished
      ensures Valid()
      ensures Step(State(), outcome) == Operate(line, old(State()), irc.done.Resolved?)
    {
      match Classify(line)
      case Skip =>
        outcome := Ok;
      case RequestQuit =>
        outcome := Quit();
      case Forward(t) =>
        outcome := Command(t);
    }

    /** The quit branch of `line`. */
    method Quit() returns (outcome: Outcome)
      requires Valid()
      modifies irc`sent, this`waiting, this`finished
      ensures Valid()
      ensures Step(State(), outcome) == QuitStep(old(State()), irc.done.Resolved?)
    {
      irc.Quit(FarewellMessage);
      QuitLineSpelled();
      if irc.done.Resolved? {
        outcome := Resolve();
      } else {
        waiting := waiting + 1;
        outcome := Ok;
      }
    }

    /** The command branch of `line`. */
    method Command(t: string) returns (outcome: Outcome)
      requires Valid()
      modifies irc`sent
      ensures Valid()
      ensures Step(State(), outcome) == CommandStep(t, old(State()))
    {
      outcome := irc.Command(t, []);
    }

    /** A quit task resuming once the session's latch is resolved. */
    method FinishQuit() returns (outcome: Outcome)
      requires Valid() && waiting > 0 && irc.done.Resolved?
      modifies this`waiting, this`finished
      ensures Valid()
      ensures Step(State(), outcome) == Finish(old(State()).(waiting := old(waiting) - 1))
    {
      waiting := waiting - 1;
      outcome := Resolve();
    }

    /** `data_available` with the text `chunk` read from standard input: a
        complete line starts a `line` task, whose outcome is `task`; more than
        one newline in the buffer raises and leaves the buffer as it is. */
    method DataAvailable(chunk: string) returns (outcome: Outcome, task: Option<Outcome>)
      requires Valid()
      modifies this`buffer, irc`sent, this`waiting, this`finished
      ensures Valid()
      ensures outcome.Ok? ==> '\n' !in buffer
      ensures match Cut(old(buffer) + chunk)
        case Partial(rest) =>
          buffer == rest && outcome == Ok && task == None && State() == old(State())
        case Complete(line, rest) =>
          && buffer == rest && outcome == Ok && task.Some?
          && Step(State(), task.value) == Operate(line, old(State()), irc.done.Resolved?)
        case Overfull =>
          && buffer == old(buffer) + chunk && outcome == Raised(UnpackError)
          && task == None && State() == old(State())
    {
      buffer := buffer + chunk;
      outcome, task := Ok, None;
      while '\n' in buffer
        invariant Valid() && outcome == Ok
        invariant task.None? ==> buffer == old(buffer) + chunk && State() == old(State())
        invariant task.Some? ==>
          && Cut(old(buffer) + chunk).Complete?
          && buffer == Cut(old(buffer) + chunk).rest
          && Step(State(), task.value) == Operate(Cut(old(buffer) + chunk).line, old(State()), irc.done.Resolved?)
        decreases if task.None? then 1 else 0
      {
        var parts := SplitOn(buffer, '\n');
        if |parts| != 2 {
          outcome := Raised(UnpackError);
          return;
        }
        buffer := parts[1];
        var r := Line(parts[0]);
        task := Some(r);
      }
    }
  }
}
