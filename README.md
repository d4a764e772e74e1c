# Simple C Webserver — a Dafny model of its request path

Simple_C_Webserver contains two small TCP servers written in C. Both have the same shape:

- An acceptor thread (`await_calls`) reads one request per connection into a `MESSAGE`: the connection's descriptor and at most 1023 received bytes, NUL-terminated.
- It appends that message to a global singly-linked queue (`add_message`).
- A dispatcher thread takes messages off the queue (`poll_message`) and answers them.
- A message whose text contains `[STOP]` is the sentinel. The acceptor returns once it has built a sentinel message: right after queuing it, or, when the queue node for it could not be allocated, without queuing anything. The dispatcher returns right after handling it.
- Once the dispatcher has returned, `main` drains whatever is left with `cleanup`, which closes each leftover connection. If the sentinel's queue node could not be allocated, no sentinel is ever queued: the dispatcher then polls an empty queue forever, `main` never gets past joining it, and `cleanup` never runs.

Within the modelled part, the two servers differ only in the dispatcher:

- `minimal_http_webserver/webserver.c` is a static-file server. `handle_message` gives every non-sentinel message holding `GET` to `handleGET`; a sentinel is only closed. That function checks the version token and puts `content` in front of the target, verbatim, with no separator and no normalisation (`/` means `content/homepage.html`), so a target `x` opens `contentx` and `/../secret` a path outside `content/`. It reads the file with `read_content_from_file`. A file that was read is answered with the 200 response through `sendResponse`; the 400 and 404 status lines are sent with a plain `send`.
- `webserver.c` answers every message, the sentinel included, with `ACK\r\n`, then closes its connection (`loop`).

`add_message`, `poll_message`, `await_calls` and `cleanup` are the same text in both files. They are modelled once and cited for both.

The model has these modules:

- **CStrings** (`cstrings.dfy`): the C string functions the code relies on, over `seq<char>`.
  - `strlen`/`strcpy` up to the first NUL (`CString`).
  - `strstr` (`Contains`).
  - `strtok` on `' '` (`Tokens`).
  - the truncation of `snprintf` (`Truncate`).
- **Io, Messages, Wrappers** (`io.dfy`):
  - Every `send`, `close` and `fopen` the servers perform is one `Event` in a log that the methods return.
  - A `Message` is the `MESSAGE` struct.
  - `FirstStop`, `Processed` and `Remaining` say where a dispatcher stops in a queue.
- **MessageQueue** (`queue.dfy`): the linked queue as a class, with:
  - a ghost `Contents` sequence, a ghost `Nodes` sequence and a `Valid()` invariant;
  - `Add` (the tail walk), `Poll` (head unlinking) and `Cleanup`.
- **Acceptor** (`acceptor.dfy`): the body of `await_calls`. It runs over a finite trace of what `accept`, `recv` and the two `malloc` calls returned on each turn.
- **HttpServer** (`http_server.dfy`):
  - `read_content_from_file`, `sendResponse`, `handleGET` and `handle_message`.
  - The content directory is a `map` from path to file contents.
- **AckServer** (`ack_server.dfy`): `loop`.
- **Server** (`server.dfy`): the phases of `main` run one after the other. It proves that over a whole run every accepted connection is closed exactly once, unless the acceptor lost it because a queue node could not be allocated. `cleanup` runs only when the dispatcher returned, which is exactly when the acceptor queued its sentinel.

## Model

| member | source | states |
|---|---|---|
| CStrings.CString | minimal_http_webserver/webserver.c:259 | `strcpy`/`strlen` take the buffer up to its first NUL: the result is a prefix of the buffer, holds no NUL, and the buffer has a NUL right after it unless the whole buffer was taken |
| CStrings.CStringTerminated | minimal_http_webserver/webserver.c:251 | NUL-terminating a buffer does not change the C string read from it |
| CStrings.CStringOfPlain | minimal_http_webserver/webserver.c:183 | the C string of text without a NUL is that text itself |
| CStrings.ContainsIff | minimal_http_webserver/webserver.c:265 | the scan that models `strstr(s, pat) != NULL` holds exactly when `pat` occurs at some position of `s` (both directions) |
| CStrings.Word | minimal_http_webserver/webserver.c:283 | the token `strtok` cuts off is a prefix of the text without spaces, ended by a space or the end of the text |
| CStrings.Tokens | minimal_http_webserver/webserver.c:283-284 | successive `strtok(…, " ")` calls yield non-empty tokens without spaces |
| CStrings.TokensOfPlain | minimal_http_webserver/webserver.c:283-284 | a text without spaces has no token when it is empty and is one whole token otherwise |
| CStrings.TokensBeforeSpace | minimal_http_webserver/webserver.c:283-284 | the tokens of `a + t`, where `t` starts with a space, are the tokens of `a` followed by those of `t`: a space always ends a token |
| CStrings.TokensSplitAtSpace | minimal_http_webserver/webserver.c:283-284 | the tokens of `a + " " + b` are the tokens of `a` followed by those of `b`, so runs of spaces (leading, trailing or repeated) give no empty token; with `TokensOfPlain` this determines the tokens of every text as its maximal space-free runs, in order |
| CStrings.WordOfSpaced | minimal_http_webserver/webserver.c:283 | the first token of `w + " " + rest` is `w` when `w` has no space |
| CStrings.WordOfPlain | minimal_http_webserver/webserver.c:284 | a text without spaces is one whole token |
| CStrings.TokensOfJoinSpaced | minimal_http_webserver/webserver.c:283-284 | tokenising words joined by single spaces gives back exactly those words (round trip) |
| CStrings.Truncate | minimal_http_webserver/webserver.c:213-214 | `snprintf` into a buffer of `size` bytes keeps a prefix of the text: all of it if it is shorter than `size`, otherwise `size - 1` characters |
| Messages.FirstStop | minimal_http_webserver/webserver.c:276 | the position of the first message whose text contains `[STOP]`: every message before it is not a sentinel, and it is one unless it is the end of the queue |
| Messages.ProcessedThenRemaining | minimal_http_webserver/webserver.c:273-280 | a dispatcher run splits the queue into the messages it takes and those it leaves. Nothing is lost, duplicated or reordered. Only the last message taken can be a sentinel. It is one exactly when the queue held a sentinel |
| Messages.SentinelOnlyLast | minimal_http_webserver/webserver.c:273-280 | a queue in which only the last message can be a sentinel is taken whole by a dispatcher, which meets a sentinel exactly when the last message is one |
| MessageQueue.Node.constructor | minimal_http_webserver/webserver.c:114-115 | a new node holds its message and has no successor |
| MessageQueue.Queue.constructor | minimal_http_webserver/webserver.c:36 | the queue starts out valid and empty |
| MessageQueue.Queue.Add | minimal_http_webserver/webserver.c:108-130 | `add_message` walks to the tail and links a new node there. The contents become the old contents followed by `m`. If the node cannot be allocated the contents are unchanged. The acknowledging server has the same code at lines 108-130 of webserver.c |
| MessageQueue.Queue.Poll | minimal_http_webserver/webserver.c:132-144 | on an empty queue `poll_message` returns NULL and leaves the queue empty. Otherwise it returns the head message and the queue becomes the tail. The acknowledging server has the same code at lines 132-144 of webserver.c |
| MessageQueue.CloseEachClosesCallers | minimal_http_webserver/webserver.c:301-310 | the descriptors `cleanup` closes are exactly the callers of the leftover messages, each once, in order |
| MessageQueue.Cleanup | minimal_http_webserver/webserver.c:301-310 | `cleanup` polls until the queue is empty and closes the caller of each polled message; it ends with an empty queue. The acknowledging server has the same code at lines 218-227 of webserver.c |
| MessageQueue.AddAllThenPollAll | minimal_http_webserver/webserver.c:108-144 | messages added one by one to an empty queue come back out of `poll_message` in insertion order, and the queue ends empty (FIFO) |
| Acceptor.ReceivedLength | minimal_http_webserver/webserver.c:239-240 | `recv` into the buffer takes at most MAX_MESSAGE_SIZE - 1 = 1023 of the pending bytes, and all of them when fewer are pending |
| Acceptor.BytesReceived | minimal_http_webserver/webserver.c:240 | the value of `recv` is -1 exactly on error, 0 exactly when the peer sent nothing, and otherwise the number of bytes that fit (`ReceivedLength`), below MAX_MESSAGE_SIZE |
| Acceptor.ReceivedText | minimal_http_webserver/webserver.c:251-259 | a message text is shorter than MAX_MESSAGE_SIZE |
| Acceptor.ReceivedTextIsCString | minimal_http_webserver/webserver.c:251-259 | the queued text is the received bytes up to the first NUL: a prefix of at most 1023 received bytes, without NUL, ended by the end of the data or by a NUL in it |
| Acceptor.AttemptOutcome | minimal_http_webserver/webserver.c:240-262 | a `recv` result of -1 or 0 closes the connection, queues nothing and does not stop the loop. A positive result with a MESSAGE allocated closes nothing and queues the text tagged with the accepted descriptor, unless the node allocation fails |
| Acceptor.FirstStopAttempt | minimal_http_webserver/webserver.c:265-266 | the first turn that builds a message whose text contains `[STOP]`, whether it is then queued or lost because its node could not be allocated: no earlier turn builds one, and this turn does unless it is the end of the trace |
| Acceptor.Turn | minimal_http_webserver/webserver.c:239-266 | one turn after `accept` closes exactly what the turn's outcome says, queues exactly its message, and reports whether the text contains `[STOP]`. The acknowledging server has the same code at lines 159-186 of webserver.c |
| Acceptor.AwaitCalls | minimal_http_webserver/webserver.c:226-268 | `await_calls` runs turns up to and including the first one that builds a message whose text contains `[STOP]`, whether it is then queued or lost because its node could not be allocated, and returns only there (or when the trace ends). The queue gains exactly the messages of those turns, in order. The only closes are those turns' own closes. The acknowledging server has the same code at lines 146-188 of webserver.c |
| Acceptor.AttemptAccountsForConnection | minimal_http_webserver/webserver.c:239-262 | each accepted descriptor of a turn is either closed, queued or lost with an unallocated node, exactly one of the three |
| Acceptor.AcceptorAccountsForEveryConnection | minimal_http_webserver/webserver.c:229-267 | over any number of turns, the closed, queued and lost descriptors together are exactly the accepted descriptors (as multisets) |
| Acceptor.AccountsStep | minimal_http_webserver/webserver.c:229-267 | that accounting carries over from one turn to the next |
| Acceptor.NoStopQueued | minimal_http_webserver/webserver.c:262-266 | turns that carry no sentinel queue no sentinel message |
| Acceptor.FirstStopAttemptAt | minimal_http_webserver/webserver.c:265-266 | a turn no later than the first sentinel turn carries the sentinel exactly when it is that turn |
| Acceptor.StopTurnQueues | minimal_http_webserver/webserver.c:262-266 | the turn that ends the loop queues its sentinel message, or nothing when the node allocation failed |
| Acceptor.SentinelQueuedLast | minimal_http_webserver/webserver.c:262-266 | in what one acceptor run queues, only the last message can be a sentinel, and it is one when the sentinel's node was allocated; when that node could not be allocated (or no sentinel came) the run queued no sentinel at all |
| Acceptor.AcceptorQueuesSentinelLast | minimal_http_webserver/webserver.c:262-266 | a dispatcher working from the first sentinel of what one acceptor run queued takes all of those messages and leaves none, and it meets a sentinel exactly when the acceptor stopped on one whose node was allocated |
| HttpServer.ReadContentFromFile | minimal_http_webserver/webserver.c:146-179 | `read_content_from_file` opens the path. If the file cannot be opened it returns NULL. Otherwise the character-by-character loop yields the whole file followed by one NUL |
| HttpServer.TargetPath | minimal_http_webserver/webserver.c:213-214 | the path of a non-root target fits the 1024-byte buffer. It is a prefix of `content` followed by the target, all of it when that fits and exactly 1023 characters when it does not |
| HttpServer.HandleGet | minimal_http_webserver/webserver.c:188-224 | `handleGET` performs exactly the opens and sends that `GetEvents` specifies for the tokens and the content directory |
| HttpServer.HandleRequest | minimal_http_webserver/webserver.c:282-287 | a non-sentinel message goes to `handleGET` when its text contains `GET`. Its connection is then closed |
| HttpServer.HandleMessage | minimal_http_webserver/webserver.c:270-291 | `handle_message` handles the queued messages in order up to and including the first sentinel, then returns. The messages behind the sentinel stay queued. `stopped` holds exactly when the queue held a sentinel |
| HttpServer.BadRequestLine | minimal_http_webserver/webserver.c:188-194 | a missing version token, or one containing none of `HTTP/1.0\r\n`, `HTTP/1.1\r\n`, `HTTP/2.0\r\n`, gets only the 400 line, and no file is opened |
| HttpServer.SendResponseBytes | minimal_http_webserver/webserver.c:181-186 | `sendResponse` sends the status line, then the content up to its first NUL, then CRLF. It neither opens nor closes anything |
| HttpServer.Response200IsPlain | minimal_http_webserver/webserver.c:183 | the 200 status line holds no NUL, so `strlen(http_response)` sends all of it |
| HttpServer.Response400IsPlain | minimal_http_webserver/webserver.c:191-192 | the 400 status line holds no NUL, so `strlen(r)` sends all of it |
| HttpServer.RootFound | minimal_http_webserver/webserver.c:200-209 | target `/` with the homepage present opens only `content/homepage.html` and then, on the caller's connection, sends the 200 header, the page up to its first NUL and CRLF, exactly as `sendResponse` does |
| HttpServer.RootMissing | minimal_http_webserver/webserver.c:200-205 | target `/` with no homepage sends only the 404 line with its trailing NUL, 27 bytes |
| HttpServer.OtherTarget | minimal_http_webserver/webserver.c:211-223 | any other target opens only `content` followed by the target, cut to 1023 characters. A found file gets, on the caller's connection, exactly `sendResponse`'s 200 header, the file up to its first NUL and CRLF; a missing one exactly the 400 line |
| HttpServer.GetEventsSendToCaller | minimal_http_webserver/webserver.c:181-224 | every `send` that `handleGET` and `sendResponse` make goes to the connection `caller` |
| HttpServer.GetEventsCloseNothing | minimal_http_webserver/webserver.c:188-224 | `handleGET` never closes the connection itself |
| HttpServer.StopGetsNoResponse | minimal_http_webserver/webserver.c:276-280 | the sentinel gets no byte sent; its connection is only closed |
| HttpServer.NoGetNoResponse | minimal_http_webserver/webserver.c:282-287 | a message containing neither `[STOP]` nor `GET` gets no response, only the close |
| HttpServer.MessageClosesCallerOnce | minimal_http_webserver/webserver.c:276-287 | every handled message has its caller closed exactly once, as the last thing done with it |
| HttpServer.DispatchEventsAppend | minimal_http_webserver/webserver.c:273-289 | handling two runs of messages one after the other gives the events of the first run, then those of the second |
| HttpServer.DispatchClosesEachCaller | minimal_http_webserver/webserver.c:273-289 | the descriptors the dispatcher closes are exactly the callers of the messages it took, each once, in queue order |
| HttpServer.RequestLineTokens | minimal_http_webserver/webserver.c:283-284 | a request line `method target version` of single-space-separated words splits into exactly those three tokens, so the target and the version token reach `handleGET` |
| AckServer.Loop | webserver.c:190-208 | `loop` acknowledges and closes the queued messages in order up to and including the first sentinel, then returns. The messages behind it stay queued. `stopped` holds exactly when the queue held a sentinel |
| AckServer.AckAllShape | webserver.c:193-206 | event `2i` sends `ACK\r\n` to the caller of message `i` and event `2i + 1` closes it: every message, the sentinel included, is acknowledged before anything else is done with it |
| AckServer.AckClosesEachCaller | webserver.c:199-205 | the descriptors `loop` closes are exactly the callers of the messages it took, each once, in queue order |
| AckServer.SentinelAcknowledged | webserver.c:195-203 | the sentinel is acknowledged and then closed, and it is the last message the loop takes |
| Server.HttpDispatchThenCleanup | minimal_http_webserver/webserver.c:337-341 | the static-file dispatcher followed by `cleanup` closes the caller of every queued message exactly once |
| Server.AckDispatchThenCleanup | webserver.c:254-258 | the acknowledging dispatcher followed by `cleanup` closes the caller of every queued message exactly once |
| Server.CloseQueued | minimal_http_webserver/webserver.c:333-341 | if the queued callers are later closed, the acceptor's closes plus those closes, together with the lost descriptors, are exactly the accepted descriptors |
| Server.HttpRunAccounts | minimal_http_webserver/webserver.c:333-341 | the static-file dispatcher meets a sentinel exactly when the acceptor queued one, and the acceptor's closes, the dispatcher's events and `cleanup`'s closes (if it runs) close every accepted connection exactly once or lose it |
| Server.AckRunAccounts | webserver.c:250-258 | the same for the acknowledging server: `loop` meets a sentinel exactly when the acceptor queued one, and every accepted connection is closed exactly once or lost |
| Server.HttpPhase | minimal_http_webserver/webserver.c:339-341 | after the join on `handle_message`, `cleanup` runs only if the dispatcher returned, which it does exactly when the queue held a sentinel; the events are the dispatcher's followed by `cleanup`'s closes of what is left |
| Server.AckPhase | webserver.c:256-258 | after the join on `loop`, `cleanup` runs only if `loop` returned, exactly when the queue held a sentinel |
| Server.RunHttp | minimal_http_webserver/webserver.c:333-341 | over a whole run of the static-file server, every accepted connection is closed exactly once or lost with an unallocated queue node. `handle_message` returns, so that `main` reaches `cleanup`, exactly when the acceptor queued its sentinel; otherwise the run ends with the dispatcher polling forever and `cleanup` is not run |
| Server.RunAck | webserver.c:250-258 | over a whole run of the acknowledging server, every accepted connection is closed exactly once or lost with an unallocated queue node. `loop` returns, so that `main` reaches `cleanup`, exactly when the acceptor queued its sentinel |

## Left out

- Socket setup and the rest of `main`: `getaddrinfo`, `bind`, `listen` (with a backlog of 20 in the static-file server and 10 in the acknowledging one), the exit codes and freeing the address list. This is operating-system plumbing.
- Threads and the mutex. The acceptor, the dispatcher and `cleanup` run one after the other (`Server`). Queue operations are atomic steps, and the lock is not modelled.
- The read of `m` at minimal_http_webserver/webserver.c:265 (webserver.c:185) after `add_message` has handed it over. It can race with the dispatcher freeing it. Sequentially it reads the text just queued, and that is what is modelled.
- The outer `while(1)` busy-wait of both dispatchers. `HandleMessage` and `Loop` return when the queue is empty, so they model one pass over a given queue; `stopped == false` stands for a dispatcher that goes on polling forever. In `Server` the acceptor has finished before the dispatcher starts, so that pass sees everything that will ever be queued, and a run whose dispatcher does not stop ends there without `cleanup`.
- `accept`, `recv`, `fopen`, `fgetc`, `send` and `close` are external.
  - `accept`, `recv` and the allocation results are inputs (a trace of `Attempt`s).
  - File contents come from a `map`.
  - `send`, `close` and `fopen` are recorded as events.
- The result of `send` is ignored by the static-file server and only logged by the acknowledging server, so the model records every send as made.
- The flags passed to `send` (`1` or `0`) are not modelled.
- A `malloc` or `realloc` failure inside `read_content_from_file`: `ReadContentFromFile` always obtains its buffer. Only the allocation of the MESSAGE and of the queue node can fail in the model.
- `fclose` and `free` of messages, nodes and file buffers (memory and file-handle bookkeeping), `free_safe`, and all `printf`/`perror` logging.
- The comparison of a `char` with EOF in `read_content_from_file`. It depends on whether `char` is signed. The model reads each file to its end, and a file may hold any character, NUL included.
- The method token is not checked by the source. Any message containing `GET` anywhere is routed to `handleGET`, and the model does the same: only the second and third tokens matter.
- Bytes are modelled as `char`, so no character encoding is involved.
