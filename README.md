# UDP echo / load-average server: a verified model of its request handling

The server receives one datagram at a time on a UDP socket. It frames the
datagram into a C string (`prepareMessage`) and hands it to a worker
(`threadHandleMessage`). The worker frames it again and then rewrites the
same buffer in place with the reply (`processMessage`):

- `<echo>body</echo>` is answered with `<reply>body</reply>`;
- `<loadavg/>` is answered with `<replyLoadAvg>a:b:c</replyLoadAvg>`, where
  a, b and c are the three system load averages;
- `<shutdown/>` clears the global `serverOn` flag, so `main`'s loop stops
  receiving;
- anything else is answered with `<error>message</error>`.

The framer supports two kinds of client:

- one that sends its text bare. The server then stores a NUL after the
  received bytes;
- one that ends its line with a newline and a NUL. The server then
  overwrites the newline with a NUL.

The model has four modules:

- `CStrings` (`cstrings.dfy`) covers the C string conventions the server
  relies on:
  - `CStr` is the text before the first NUL, which is what `strlen`,
    `strcmp`, `strcpy` and `%s` read;
  - `Overwrite` is `sprintf` storing a string and its terminator at the
    start of a buffer.
- `Framer` (`framer.dfy`) models `prepareMessage`. It comes as a pure
  function on the buffer contents and as a method that updates an
  `array<char>` in place.
- `Protocol` (`protocol.dfy`) covers:
  - the request classification and the reply text of `processMessage`;
  - a parser for the load-average reply;
  - the two defects listed under Findings.
- `UdpServer` (`server.dfy`) covers:
  - the request buffer (`DatagramInfo`);
  - the server with its `serverOn` flag (`Server`, whose `ProcessMessage`
    rewrites the buffer in place);
  - the per-datagram pipeline;
  - `main`'s loop (`Serve`), proved against the specification function
    `Session`.

The model treats undefined behaviour in the C code as a precondition:

- reading `message[-1]` when a datagram is empty;
- writing past the buffer;
- the closing-tag comparison of the 6-byte message `<echo>`, which reads
  `message[-1]` (`EchoTestDefined` excludes it);
- a reply that does not fit in the 256-byte buffer.

One more construct is undefined in standard C but not excluded:
`char messageBody[length]` has size 0 for the empty message, which a
two-byte datagram ending in NUL frames to (section 6.7.6.2 of the C11
standard requires a positive size). The model follows compilers that accept
a zero-size array, such as GCC, and answers that message with
`<error></error>`.

Two further defects, the unterminated `strncpy` of the echo body and the
`strcpy` one byte past the error branch's scratch array, are listed under
Findings; the main model uses the intended behaviour for both.

Notable behaviours of the code:

- A `<shutdown/>` request leaves the buffer untouched. Its reply is
  therefore `<shutdown/>` itself, not an error-wrapped message.
- The echo branch needs no guard against a short message. A closing tag
  at `length - 7` needs a `<` there, and the opening tag's only `<` is at
  index 0, which would force a 7-byte message whose second byte is both
  `e` and `/`. So every message that passes both tag tests has at least 13
  bytes (`EchoTagsDisjoint`), and the `strncpy` count is never negative.
  `Classify` uses exactly the two tag tests.
- `prepareMessage` does not guard a byte count of 0, or of 1 with a NUL last
  byte. Both read or write before the buffer, so `CanPrepare` excludes them.
- `getloadavg` is called afresh for every `<loadavg/>` request, so `Serve`
  takes one set of load averages per datagram.

## Model

| member | source | states |
|---|---|---|
| CStrings.CStr | UDPclient.java:239 | the C string read by strcmp/strlen/%s is the NUL-free prefix of the buffer that is followed by a NUL or ends the buffer |
| CStrings.CStrUnique | UDPclient.java:256 | any NUL-free prefix followed by a NUL (or ending the buffer) is the C string, so strlen of the buffer is determined by where the terminator is |
| CStrings.Overwrite | UDPclient.java:236 | after sprintf stores a NUL-free text, the buffer keeps its size, its C string is exactly that text, and bytes past the terminator are unchanged |
| Framer.Prepare | UDPclient.java:212-225 | prepareMessage changes exactly one byte to NUL: the one at `bytes` when the last received byte is not NUL, the one at `bytes-2` when it is; the returned length is that position |
| Framer.PrepareMessage | UDPclient.java:212-225 | the in-place update of the buffer array leaves it, and returns the length, as Prepare says |
| Framer.PreparedMessage | UDPclient.java:212-225 | the logical message is the buffer's prefix of the returned length |
| Framer.PrepareIdempotent | UDPclient.java:194-204 | calling prepareMessage again with the original byte count, as the worker does, leaves buffer and length as the first call did |
| Framer.Frame | UDPclient.java:212-225 | the message a datagram carries is a prefix of it |
| Framer.PrepareFramesDatagram | UDPclient.java:191-194 | whatever stale bytes the 256-byte buffer holds after recvfrom, prepareMessage leaves exactly the datagram's framed message in it |
| Framer.FrameRecoversText | UDPclient.java:213-223 | a NUL-free text sent bare (shorter than 256) or with a newline-NUL trailer (at most 254) is framed back to the same text |
| Protocol.EchoTagsDisjoint | UDPclient.java:233 | a message that starts with `<echo>` and ends with `</echo>` is at least 13 bytes long, so the body length passed to strncpy is not negative |
| Protocol.Classify | UDPclient.java:233-250 | a message is an echo iff it has both echo tags, and then the body is the C string between them; it is a load request iff its C string is `<loadavg/>`, a shutdown iff it is `<shutdown/>`, and otherwise unknown with its C string |
| Protocol.Dispatch | UDPclient.java:227-257 | with printable load values, the reply text holds no NUL, so strlen of the rewritten buffer is the reply's length |
| Protocol.EchoDispatch | UDPclient.java:233-236 | a NUL-free echo request is answered with `<reply>` + the text between its tags + `</reply>`, two bytes longer than the request |
| Protocol.LoadAvgDispatch | UDPclient.java:239-243 | `<loadavg/>` is answered with the three load values joined by `:` inside `<replyLoadAvg>` tags, and a client parsing that reply gets the same three values back |
| Protocol.LoadReplyRoundTrip | UDPclient.java:243 | parsing a load-average reply recovers the three values printed into it |
| Protocol.ReplyTags | UDPclient.java:236-253 | the text each command leaves in the buffer: the echo reply is framed by `<reply>` tags (line 236), the load reply by `<replyLoadAvg>` tags (line 243), the error reply by `<error>` tags (line 253), and a shutdown leaves its own request `<shutdown/>` (lines 245-248) |
| Protocol.LoadReplyNulFree | UDPclient.java:243 | with printed load values the load-average reply holds no NUL, so strlen sends all of it |
| Protocol.ShutdownDispatch | UDPclient.java:245-248 | a shutdown request is not an echo and its reply is the untouched buffer's text `<shutdown/>` (11 bytes) |
| Protocol.UnknownDispatch | UDPclient.java:250-253 | any other NUL-free message is answered with `<error>` + the message + `</error>`, 15 bytes longer |
| Protocol.ClassifyRender | UDPclient.java:233-250 | classifying the canonical text of a request gives back that request, for echo bodies, load requests, shutdowns and unknown messages |
| Protocol.StrNCpy | UDPclient.java:235 | strncpy writes exactly n bytes: the C string of the first n source bytes, then NUL padding up to n |
| Protocol.EchoBodyAsWritten | UDPclient.java:235-236 | what `%s` reads from the unterminated `messageBody` as the code is written: a NUL-free string no longer than the scratch bytes it runs through |
| Protocol.EchoBodyReadsStaleBytes | UDPclient.java:235-236 | the body printed by the code as written is the intended body followed by the stale bytes of the scratch array up to its first NUL, and equals the intended body iff the scratch byte just after it is NUL |
| Protocol.ErrorCopyOverflowsScratch | UDPclient.java:229-252 | strcpy of a NUL-free message of length n writes n+1 bytes, more than `ScratchSize`, the n bytes `char messageBody[length]` declares |
| UdpServer.PipelineReply | UDPclient.java:204 | the reply sent for a serviceable datagram, processMessage of its framed message, holds no NUL and fits in the 256-byte buffer with its terminator |
| UdpServer.Answers | UDPclient.java:142-143 | the replies of a run: never more than there are datagrams; AnswersUntilStop states which ones |
| UdpServer.Sprintf | UDPclient.java:236 | sprintf leaves the buffer as Overwrite of its old contents with the formatted text |
| UdpServer.DatagramInfo.constructor | UDPclient.java:187 | a request gets a fresh 256-byte buffer |
| UdpServer.DatagramInfo.Receive | UDPclient.java:191-192 | recvfrom copies the datagram to the front of the buffer, keeps the remaining bytes, and records the byte count |
| UdpServer.Server.constructor | UDPclient.java:123 | a new server starts with serverOn set |
| UdpServer.Server.ProcessMessage | UDPclient.java:227-257 | processMessage clears serverOn exactly for a shutdown request; the buffer then holds Dispatch's reply as its C string (it is untouched for a shutdown, and Overwrite by the reply otherwise), and the returned length is the reply's length |
| UdpServer.Server.ThreadHandleMessage | UDPclient.java:200-210 | the worker re-frames the buffer, processes it, and sends the first `length` bytes, which are Dispatch of the framed message |
| UdpServer.Server.HandleDatagram | UDPclient.java:185-198 | receiving, framing and handing a datagram to the worker sends back Dispatch of its framed message and clears serverOn iff the message is `<shutdown/>` |
| UdpServer.Serve | UDPclient.java:142-143 | main's loop, with datagram i handled under the load averages getloadavg reports at that time (lines 241-243), sends the replies of Session, one per datagram until and including the first shutdown, and is still running at the end iff no datagram asked to shut down |
| UdpServer.AnswersUntilStop | UDPclient.java:142-143 | the replies of a run are positionally the outcomes' replies, all of them when none stops, and otherwise end right after the first that stops |
| UdpServer.AnswersStep | UDPclient.java:142-143 | one loop turn appends the datagram's reply; if it stopped the server, the replies so far are the whole run's |
| UdpServer.SessionAnswersUntilShutdown | UDPclient.java:142-143 | Session, the replies of main's loop: the k-th reply is the pipeline's reply to the k-th datagram under its own load averages, no datagram before the last answered one is a shutdown, and fewer replies than datagrams means the last answered one is a shutdown |
| UdpServer.AnswersReplies | UDPclient.java:142-143 | when each outcome carries its datagram's pipeline reply, the replies of the run are those pipeline replies, position by position |
| UdpServer.AnswersStopAtShutdown | UDPclient.java:142-143 | when each outcome stops exactly for a shutdown request, no datagram before the last answered one is a shutdown, and a run that answers fewer than all ends on one |
| UdpServer.EchoEndToEnd | UDPclient.java:204 | an echo request for a NUL-free body, sent bare or newline-NUL terminated, is serviceable and answered with `<reply>body</reply>` |

## Left out

- Socket setup is not modelled: socket, bind, getsockname, the eth0 address via ioctl, printServerInfo and checkError. They are I/O with no protocol logic.
- Threads are not modelled. Each datagram is handled to completion before the next is received. In the source the worker is detached, so main usually tests serverOn again (line 142) before the worker clears it (line 247), blocks in recvfrom (line 191) and accepts one more datagram after a shutdown; `return 0` (line 145) may then end the process before that datagram's worker replies. SessionAnswersUntilShutdown's "nothing is received after the first shutdown" holds only for this sequential model.
- malloc and free are not modelled. A request is a fresh DatagramInfo object.
- recvfrom and sendto errors are not modelled, and neither is the peer's address.
- The load averages are not computed: getloadavg is a system call. Its three values come in as a parameter of printed strings, which stand for `%lf`'s output, one set per datagram in Serve; its failure and floating-point formatting are not modelled.
- The fprintf logging to stderr is not modelled.
- Serve: takes a finite list of datagrams, where the source loops until shutdown. It also requires every listed datagram to be serviceable, including those after a shutdown that are never received.
- UdpServer.Dispatchable: requires printable load values for every message, not just for `<loadavg/>` requests.
- Undefined behaviour is excluded by preconditions rather than modelled. This covers an empty datagram, an out-of-bounds terminator, the closing-tag test of the message `<echo>`, and a reply longer than the buffer.
- Protocol.Dispatch: builds the echo reply from the body between the tags, as if `strncpy` had terminated it; the code as written reads on into stale scratch bytes, which Protocol.EchoBodyReadsStaleBytes states.
- UdpServer.Server.ProcessMessage: writes the same terminated echo body as Protocol.Dispatch, so it does not capture the stale bytes of UDPclient.java:235-236 either.
- UDPserver.c holds the Java client, which is not part of this model.

## Findings

| source | as written | input that shows it | evidently intended | confidence | as-written member | corrected member |
|---|---|---|---|---|---|---|
| UDPclient.java:235-236 | `strncpy` copies exactly the body's bytes into the uninitialised `messageBody` and adds no terminator, so `%s` goes on reading stale stack bytes | `<echo>hi</echo>` when `messageBody[2]` holds a non-NUL byte: the reply carries `hi` followed by garbage | the reply holds exactly the text between the tags | not executed | Protocol.EchoBodyReadsStaleBytes | Protocol.EchoDispatch |
| UDPclient.java:229-252 | `messageBody` has `length` bytes, but `strcpy` of the whole message writes `length + 1`, one past its end | `garbage` (7 bytes) is copied as 8 bytes into `char[7]` | the scratch array has room for the terminator (`length + 1` bytes) | not executed | Protocol.ErrorCopyOverflowsScratch | Protocol.UnknownDispatch |
