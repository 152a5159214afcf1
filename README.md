# irc.py session engine in Dafny

This project models the session engine of `irc.py`, a small asyncio IRC client.

The network side is the class `IRCClient`. When the transport is bound it registers a nickname and a user name. It collects incoming bytes into lines ended by CRLF. It answers the server's keepalive (`PING` → `PONG`) and the end-of-registration `MODE` message (it joins `##kcr`). It puts every line it handles without an exception, and every transport error, end of stream and disconnection, on an event queue. A line that raises queues nothing: fewer than two tokens, or a `PONG` payload whose `%` does not format. It resolves a completion latch (`done`) the first time the connection ends.

The operator side is the class `DumbUI`. It collects standard input into lines ended by `\n`. A blank line does nothing. The word `quit`, in any case, sends `QUIT :ALL DONE BYE BYE`. Any other line is sent to the server as a command.

The transport is modelled as the sequence of texts written to it, and the event queue as the sequence of events put on it, oldest first. Strings are `seq<char>`, and decoding is left out.

Module layout:
- `Text`: the Python string methods the code uses: `split()`, `split(sep, 1)`, `split(c)`, `strip()`, `upper()`/`lower()` on ASCII, `' '.join`, and substring search.
- `PercentFormat`: Python's `%` operator on strings, for plain `%s` and `%%`. Every other use of `%` is modelled as raising (`None`). With no arguments Python agrees, apart from the exception listed under "## Left out".
- `Protocol`: value-level specifications.
  - `React`: what one inbound line makes the session write and queue, and whether it raises.
  - `Feed`: the CRLF framer applied to a buffer.
  - `LatchOf`: the latch as a function of the event queue.
- `Client`: the class `IRCClient`. Its methods are proved against `React`, `Feed` and `LatchOf`.
- `UI`: the operator side.
  - `Classify`, `Operate` and `Cut` are value-level specifications.
  - The class `DumbUI` is proved against them.

Two behaviours of the code are easy to miss, and the model follows the code in both:
- A server line with fewer than two whitespace-separated tokens makes `line_received` raise `IndexError` at `words[1]`. It is not skipped quietly. In that case no line event is queued, and `data_received` stops with the rest of the buffer unconsumed (`ReactShortLine`, `FeedEventsRaised`).
- An operator line is sent stripped of surrounding whitespace. It is also re-read as a `%` format string with no arguments, so a `%` in it raises or is rewritten (`%%` → `%`). The `PONG` payload is re-read the same way. `OperateForwardIff` and `PongEchoIff` state exactly when the text goes out verbatim.

## Model

| member | source | states |
|---|---|---|
| PercentFormat.FormatPrefix | irc.py:26 | text without `%` passes through `%`-formatting unchanged, with the arguments left for what follows |
| PercentFormat.Substitute | irc.py:26 | a `%s` inserts the next argument verbatim, whatever it contains |
| PercentFormat.FormatOne | irc.py:22 | a template with a single `%s` and no other `%` formats to the text with the argument in place |
| PercentFormat.FormatTwo | irc.py:23 | a template with two `%s` and no other `%` formats with both arguments in place, in order |
| PercentFormat.FormatShrinks | irc.py:26 | formatting without arguments never lengthens a text, and shortens it when it holds a `%` |
| PercentFormat.FormatUnchangedIff | irc.py:26 | formatting without arguments leaves a text unchanged if and only if it has no `%` |
| Protocol.WireVerbatimIff | irc.py:25-28 | `command(t)` with no arguments writes exactly `t` + CRLF if and only if `t` has no `%` |
| Protocol.NickWireFor | irc.py:22 | the NICK template formats to `NICK <nick>` for any nickname |
| Protocol.UserWireFor | irc.py:23 | the USER template formats to `USER <user> 0 * :<name>` for any user and real name |
| Protocol.HandshakeSpelled | irc.py:15-17 | the two handshake texts are built from the nickname `kcr_test`, user `kcr` and real name `Karl Ramm` |
| Protocol.HandshakeWire | irc.py:20-23 | the two handshake commands format without error to the NICK line and then the USER line |
| Protocol.QuitWire | irc.py:66-67 | the quit command writes `QUIT :<message>` + CRLF for any message, including one with `%` |
| Protocol.JoinWire | irc.py:44-45 | the join command writes `JOIN ##kcr` + CRLF |
| Protocol.PongTemplateFills | irc.py:47 | the PONG template always formats, to `PONG ` followed by the later tokens joined by single spaces |
| Protocol.ModeRuleReplies | irc.py:44-45 | the mode rule writes one JOIN exactly when the second token upper-cases to `MODE`, and never raises |
| Protocol.ModeTokenIff | irc.py:44 | `upper()` of a token equals `MODE` if and only if the token spells `mode` in any mix of cases |
| Protocol.ReactShortLine | irc.py:43-44 | a server line with fewer than two tokens writes nothing and raises IndexError |
| Protocol.ReactReplies | irc.py:41-48 | for a line of two or more tokens with a `%`-free PING payload, the replies are the JOIN if the second token is MODE, then the PONG echoing every later token if the first is PING, and nothing else; no exception |
| Protocol.PongEchoIff | irc.py:46-47 | a PING line ends with a PONG echoing the tokens verbatim, without raising, if and only if the payload has no `%` |
| Protocol.FeedReconstructs | irc.py:34-39 | the lines taken out, each followed by CRLF, and then the remaining buffer, give back exactly the received text |
| Protocol.FeedLinesSeparate | irc.py:37-38 | no line handed to `line_received` contains CRLF |
| Protocol.FeedRestSeparate | irc.py:37 | when no line raised, the buffer left behind holds no CRLF |
| Protocol.FeedWrites | irc.py:37-39 | the texts written are the replies to the extracted lines, concatenated in line order |
| Protocol.FeedEventsOk | irc.py:37-48 | when no line raised, the events queued are exactly one line event per extracted line, in arrival order |
| Protocol.FeedEventsRaised | irc.py:37-48 | when a line raised, it was the last one taken out; every line before it queued its event and it queued none |
| Protocol.FeedEarlierOk | irc.py:37-39 | every extracted line except possibly the last was handled without an exception |
| Protocol.FeedInPieces | irc.py:34-39 | feeding `a + b` equals feeding `a`, then feeding its leftover buffer followed by `b`, when `a`'s lines raise nothing |
| Protocol.FeedOfFramed | irc.py:34-39 | the inverse of the framer: CRLF-free lines that do not raise, framed and followed by a CRLF-free tail, come back as those lines with that tail as the buffer |
| Protocol.SplitOnceAfterLine | irc.py:38 | `split('\r\n', 1)` of a CRLF-free line, CRLF and any tail gives the line and the tail |
| Protocol.CarriageReturnWaits | irc.py:36-37 | a delivery that ends in a lone `\r` after a CRLF-free line yields no line and keeps everything buffered |
| Protocol.TerminatorAcrossDeliveries | irc.py:34-39 | when the LF after a buffered CRLF-free line and its CR arrives, exactly that one line comes out, whether or not handling it raises, with its replies, its event unless it raised, and the text after the LF left in the buffer |
| Protocol.LatchAppend | irc.py:54-56 | the latch of a longer queue is the first resolution in it: later terminating events do not change it |
| Protocol.LineEventsKeepLatch | irc.py:48-56 | line events never resolve the latch |
| Client.IRCClient.constructor | irc.py:10-18 | a new session has nothing sent, an empty buffer, an empty queue and a pending latch |
| Client.IRCClient.ConnectionMade | irc.py:20-23 | binding the transport writes exactly the NICK line and then the USER line |
| Client.IRCClient.Command | irc.py:25-28 | writes the formatted text plus CRLF when formatting succeeds; otherwise it raises and writes nothing |
| Client.IRCClient.Enqueue | irc.py:70-71 | appends exactly one event at the end of the queue |
| Client.IRCClient.AreDone | irc.py:54-56 | resolves the latch with the result only if it is still pending |
| Client.IRCClient.LineReceived | irc.py:41-48 | writes and queues what `React` gives for the line, raises as `React` does, and keeps the latch equal to the queue's first resolution |
| Client.IRCClient.DataReceived | irc.py:34-39 | appends the delivery to the buffer; the buffer, writes, events and outcome are then those of `Feed` on the old buffer plus the delivery |
| Client.IRCClient.NextLine | irc.py:38-39 | one loop turn: the buffer becomes the text after the first CRLF, and the line before it is handled as `React` says |
| Client.IRCClient.ConnectionLost | irc.py:30-32 | queues one disconnected event, then resolves the latch with the exception if it was pending |
| Client.IRCClient.ErrorReceived | irc.py:50-52 | queues one error event, then resolves the latch with the exception if it was pending |
| Client.IRCClient.EofReceived | irc.py:58-60 | queues one end-of-stream event, then resolves the latch with no result if it was pending |
| Client.IRCClient.Quit | irc.py:66-67 | writes `QUIT :<message>` + CRLF and leaves the latch alone |
| UI.QuitLineSpelled | irc.py:66-67 | the default quit writes `QUIT :ALL DONE BYE BYE` + CRLF |
| UI.Classify | irc.py:109-116 | a line is skipped exactly when it is all whitespace, is a quit request exactly when its stripped text lower-cases to `quit`, and is otherwise forwarded as its stripped text |
| UI.Finish | irc.py:114 | resolving the console's future a second time raises InvalidStateError and changes nothing |
| UI.QuitStep | irc.py:112-114 | the quit branch always sends the quit line; the future is resolved at once only when the session latch already is, and otherwise the task waits |
| UI.CommandStep | irc.py:115-116 | the command branch sends the text plus CRLF unchanged, without raising, if and only if the text has no `%`; a raise is FormatError and writes nothing; otherwise exactly one text is written and nothing else changes |
| UI.Operate | irc.py:107-116 | one operator line writes at most one text, never un-resolves the future, and raises only without writing or after resolving |
| UI.OperateBlank | irc.py:109-111 | an all-whitespace line changes nothing |
| UI.OperateQuit | irc.py:112-114 | the quit word in any case, with any surrounding whitespace, sends the default quit line; the future resolves only once the session latch has, and a second resolution raises |
| UI.OperateForwardIff | irc.py:115-116 | any other line is sent as its stripped text plus CRLF, without raising, if and only if that text has no `%` |
| UI.Cut | irc.py:102-103 | `split('\n')` unpacked into two names: no newline keeps the buffer; one newline splits into the line and the rest; more than one raises |
| UI.CutOfLine | irc.py:103 | a newline-free line, a newline and a newline-free rest split back into that line and that rest |
| UI.OverfullSticks | irc.py:102-103 | once the buffer holds two newlines, every later read raises again |
| UI.OneCharNeverOverfills | irc.py:100-103 | reading one character at a time into a newline-free buffer never reaches the raising case |
| UI.DumbUI.constructor | irc.py:82-87 | a new console has an empty buffer and an unresolved future, and drives the given session |
| UI.DumbUI.Resolve | irc.py:114 | `set_result` on the console's future, as `Finish` states |
| UI.DumbUI.Line | irc.py:107-116 | the line coroutine, up to its first suspension, changes the session and the console as `Operate` says |
| UI.DumbUI.FinishQuit | irc.py:113-114 | a suspended quit task resumes once the session latch is resolved, and resolves the future as `Finish` says |
| UI.DumbUI.DataAvailable | irc.py:99-104 | appends the read text to the buffer; a complete line is cut off and handled as `Operate` says; more than one newline raises and leaves the buffer and session untouched; without a raise the buffer holds no newline |
| Client.IRCClient.Valid | irc.py:20-60 | the invariant: nothing is written or queued before the transport is bound, the handshake opens the output once it is, and `done` holds the result of the first terminating event in the queue |
| UI.DumbUI.Quit | irc.py:112-114 | the quit branch of `line`: sends the default quit line, then resolves the console's future at once if the session latch is resolved, or else waits, as `QuitStep` says |
| UI.DumbUI.Command | irc.py:115-116 | the command branch of `line`: `command(line)` on the session, changing it as `CommandStep` says |
| Protocol.Issue | irc.py:44-47 | the definition of one `command` call inside `line_received`: skipped after an earlier exception, otherwise the formatted text plus CRLF is added to the replies, or FormatError is raised |
| Protocol.PongText | irc.py:47 | the definition of the keepalive reply before `command` re-reads it: `PONG ` followed by every token after the first, joined by single spaces |
| Protocol.EventsOf | irc.py:48 | the definition of what a line queues: one line event when handling it raised nothing, none otherwise |
| PercentFormat.Format | irc.py:26 | the definition of `fmt % tuple(args)` for string arguments: plain `%s` takes the next argument, `%%` gives `%`, and every other `%` and any argument left over are reported as raising |
| Protocol.Wire | irc.py:25-28 | the definition of what `command(fmt, *args)` writes: the formatted text plus CRLF, or nothing when formatting raises |
| Protocol.ModeRule | irc.py:44-45 | the definition of the mode rule: a JOIN command when the second token upper-cases to `MODE`, nothing otherwise |
| Protocol.React | irc.py:41-48 | the definition of what `line_received` writes and whether it raises: IndexError below two tokens, then the mode rule, then the PONG for a PING, each stopping at an exception |
| Protocol.Feed | irc.py:34-39 | the definition of `data_received` on a buffer: take the text before the first CRLF, handle it, go on with the rest until no CRLF is left or a line raises |
| Protocol.LatchOf | irc.py:54-56 | the definition of the latch as the queue fixes it: the result of the first error, disconnection or end-of-stream event, pending if there is none |
| Text.Join | irc.py:47 | the definition of `sep.join(ws)`: the strings with the separator between neighbours |
| Text.Upper | irc.py:44 | `upper()`: the same length, each ASCII lower-case letter mapped to upper case, every other character kept |
| Text.Lower | irc.py:112 | `lower()`: the same length, each ASCII upper-case letter mapped to lower case, every other character kept |
| Text.Contains | irc.py:37 | the definition of `pat in s`, which holds exactly when `Find` gives a position |
| Text.WordsOfSpace | irc.py:43 | `split()` of a text made only of whitespace gives no tokens |
| Text.WordsSkipSpace | irc.py:43 | leading whitespace does not change the tokens of `split()` |
| Text.WordsOfWord | irc.py:43 | `split()` cuts at whitespace: after any whitespace, the first token is the whole run of non-whitespace characters up to the next whitespace or the end, followed by the tokens of the rest |
| Text.Words | irc.py:43 | `split()` gives nonempty tokens without whitespace |
| Text.WordsKeepText | irc.py:43 | the tokens of `split()`, concatenated, are the text with its whitespace removed |
| Text.WordsOfJoin | irc.py:43-47 | `split()` of whitespace-free tokens joined by single spaces gives back those tokens |
| Text.Strip | irc.py:109 | `strip()` is empty exactly for an all-whitespace text, and otherwise starts and ends with a non-whitespace character |
| Text.StripExact | irc.py:109 | `strip()` of whitespace, text with non-whitespace ends, and whitespace gives back that middle text |
| Text.UpperIsWord | irc.py:44 | `upper()` equals a given upper-case word exactly when the text spells it in any mix of cases |
| Text.LowerIsWord | irc.py:112 | `lower()` equals a given lower-case word exactly when the text spells it in any mix of cases |
| Text.Find | irc.py:37 | the first position where the pattern occurs, or none when it occurs nowhere |
| Text.ContainsIff | irc.py:37 | the `in` test holds exactly when the pattern occurs at some position |
| Text.SplitOnce | irc.py:38 | `split(sep, 1)` gives one part if the separator is absent and two otherwise; the first part holds no separator and the parts rejoin to the text |
| Text.SplitOn | irc.py:103 | `split(c)` gives separator-free parts that rejoin to the text |
| Text.SplitOnOne | irc.py:103 | text with exactly one separator splits into the parts on either side |

## Left out

- The asyncio machinery: the `finished`, `new_message` and `wait` coroutines, scheduling, and queue consumption (irc.py:62-64, 73-75, 118-119). The event queue is the sequence of events put on it, and the completion latch is a value.
- `asyncio.async(self.line(line))` (irc.py:104) queues the task's first step with the event loop. Callbacks already ready in that turn, such as a `data_received` that writes a `PONG` or a `connection_lost` that resolves the latch, run before it. The model runs the task at once, up to its first suspension, so it does not capture this interleaving. The quit branch may see a latch that `data_available` did not, and writes may land in `sent` in a different order. A quit task that is waiting for the latch is resumed by `UI.DumbUI.FinishQuit`.
- `output_thread`, `do_a_thing` and `main` (irc.py:122-157). They only start tasks, print and open the connection.
- I/O: sockets, TLS, `add_reader`, `fcntl`, `os.read` and the transport object itself. The read text is a parameter of `DataAvailable`, and the transport is the sequence `sent`.
- `__enter__` and `__exit__` of `DumbUI` (irc.py:89-97): they register the reader, and nothing of theirs is modelled.
- Logging (irc.py:13-14, 27, 42, 86, 108): it has no effect on the state.
- Event timestamps from `self.transport._loop.time()` (irc.py:71): a clock reading, dropped from the events.
- UTF-8 decoding of the received bytes (irc.py:35, 101). Input is modelled as text.
  - On the network side, a multi-byte character split across two deliveries raises `UnicodeDecodeError`.
  - On the console side, `os.read(self.IN, 1)` (irc.py:100) reads one byte per call. So every non-ASCII character typed raises `UnicodeDecodeError` at irc.py:101 and is lost.
  - `DataAvailable` accepts any text, so the model captures neither failure.
- `upper()` and `lower()` beyond ASCII: case mapping is ASCII only. The whitespace set of `split()` and `strip()` is Python's full `isspace()` set.
- PercentFormat.Format: with no arguments, Python agrees unless flags, a width, a precision or an `h`/`l`/`L` modifier stand between two `%`. For example, `'% %' % ()`, `'%.1%' % ()` and `'%l%' % ()` give `%` in the Python versions that accept `asyncio.async`, while the model raises. So an operator line or `PONG` payload holding such a sequence is sent by the program but raises in the model. Conversions other than plain `%s` applied to an argument (`%r`, `%c`, `%5s`) are not modelled, and no template of the session uses one.
- Python's exception classes: `FormatError` stands for both the `TypeError` and the `ValueError` that `%` raises. `UnpackError` stands for the `ValueError` of the two-name unpacking.
- Exceptions that escape a callback: the model returns them as `Raised` outcomes. What asyncio then does with them (logging them, storing them in the task) is not modelled.
