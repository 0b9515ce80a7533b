# web_server2: verification of the request parser, the session loop and the connection pool

This project models three connected state machines of the server and proves properties of them that
hold for every input, every split of the input, every interleaving and every run.

1. **The resumable HTTP/1.1 request parser and the response printer** (`HttpRequest.dfy`,
   `HttpResponse.dfy`). Both are classes that update their fields and a `Buffer` in place, each method
   proved against a value-level function: `ParseBytes` for one `Parse` call, `Rendered` for `Build`.
   Theorems about these functions: the way bytes are split across reads does not matter
   (`Fragmentation.dfy`), the accepted language is exactly a grammar and is framed in one way only
   (`Grammar.dfy`), what requests mean byte for byte (`RequestBytes.dfy`), what a call that returned
   false can still turn into (`Viability.dfy`), and what `Build` prints the parser reads back
   (`ResponseRoundTrip.dfy`, `Decimal.dfy`).
2. **One session** (`Session.dfy`): the class with its handlers, and whole runs of it as a step machine
   over completions, timer expiry and `Stop`: which requests are handled (`SessionRuns.dfy`,
   `SessionReads.dfy`), what is written and what a client reads out of it (`Streams.dfy`,
   `SessionWire.dfy`), how a session ends and what its answers announce about that (`SessionLifetime.dfy`),
   what each route answers (`SessionAnswers.dfy`), what a client that waits for each answer
   gets (`SessionClient.dfy`) and what hopeless input does (`SessionRejection.dfy`). The run theorems use
   the parser's and the printer's. `FormLookup.dfy` and `FormEncoding.dfy` treat `_extractParam`.
3. **The PostgreSQL pool** (`PostgrePool.dfy`): the pool and its move-only guard as classes, and the
   protocol of many threads around them, where each region under the mutex is one step
   (`PoolProtocol.dfy`, `PoolSafety.dfy`, `PoolReplacement.dfy`, `PoolWakeups.dfy`, `PoolLiveness.dfy`).

A byte is a `char`: the code compares bytes with ASCII constants only, so every statement holds for all
strings and in particular for strings of octets. A pointer into the buffer is an offset from `Peek()`.
`size_t` is as wide as `unsigned long long`, 64 bits. `std::stoull` can throw; a `Parse` call therefore
ends in one of three ways, `Finished`, `Unfinished` and `Threw`, and after an exception it is not called
again. `bre::Buffer` is not part of the repository; the class `Buffer` states what
tests/test_buffer.cpp:15-44, 95-113 and 258-271 fix about it. Iteration over an unordered map is an
arbitrary choice in `AppendHeaders`, and every theorem about printed headers is for every order.

In a session, an operation is idle, in flight, or has a completion queued. `Stop` turns what is in flight
into a queued error but leaves a queued success queued; an operation started on a closed socket completes
with an error. The answers of the services, and those of the file system for every name, are parameters of
the read handler, and any of them may be an exception. An exception that leaves a handler ends the run.

In the pool, connections have identities. A thread that must wait joins the sleeping set; notification
(of a sleeper of any choice) or a spurious wake-up moves it to the woken set, from where it takes the mutex
at any later time, possibly after others have overtaken it. Reconnecting inside `Return` may throw, which
ends the run because it happens in a destructor or a `noexcept` move. `Init` may be called in any state and
may fail after opening any number of connections. Since it notifies nobody, the theorems about waiting
threads are for runs in which each call of `Init` passes the test `InitGuard`: if the pool is open
afterwards, nobody sleeps or as many threads are awake as connections are new; if it is not, nobody sleeps
and there is a new connection for each woken thread. `InitIsSafeExactly` shows that the test is exact.

Where code and documentation differ, the model follows the code:

- docs/2_session_handling.md:45-47 says the timer is reset on every read and write and closes an idle
  connection. In the code only reads call `ResetTimer`, which cancels the one wait and starts no other:
  `TimerArmedExactly`, `NoTimeoutAfterFirstRead`.
- Every persistent answer announces `Keep-Alive: timeout=5, max=100` (src/http/HttpResponse.cpp:60). The code
  keeps neither: `NoTimeoutAfterFirstRead`, `AnnouncedLimitIsNotKept`.
- docs/3_http_handling.md, section 4, calls persistence the default of HTTP/1.1. The code wants the header
  value to be exactly `keep-alive` or `Keep-Alive`: `PersistenceExactly`, `PlainGetIsClosed`.
- src/http/HttpRequest.hpp:50-54 describes a false result as "more data needed". It also stands for a
  rejected line, and then more data never helps: `RejectionIsFinal`.

Seven properties one would expect do not hold of the code. Each comes with an input that shows it and with
the exact condition under which it does hold:

- form lookup, when the values hold no `=`: `SuffixIsMistakenForKey`, `LookupIsRightExactly`;
- form lookup, whatever values a client sends: `ValueIsMistakenForField`, `LookupIsRightForAllValuesExactly`;
- form values arriving as entered: `EmailIsNotReadAsEntered`, `EnteredValueSurvivesExactly`;
- announced persistence: `MissingFileMisleads`, `AnnouncementIsTrueExactly`;
- handling every complete request before waiting: `TwoGetsAtOnce`, `AllFramesHandledExactly`,
  `KeepsUpExactly`;
- wake-ups across a call of `Init` on a pool in use, or one that fails: `ReinitLosesWakeup`,
  `FailedInitStrandsSleeper`, `InitIsSafeExactly`, `DisciplineExactly`;
- progress of a thread that waits on an open pool: `FailedInitStarves`, `DeadlockFreedom`.

## Model

| member | source | states |
|---|---|---|
| RequestParser.HttpRequest.Parse | src/http/HttpRequest.cpp:20-78 | the loop leaves in fields and buffer, and returns, what the value-level parser gives, and its passes are counted |
| RequestParser.HttpRequest.ParseRequestLine | src/http/HttpRequest.cpp:126-148 | a request line sets method, path and version, and a rejected one may leave the method changed |
| RequestParser.HttpRequest.ParseHeader | src/http/HttpRequest.cpp:150-167 | a header line binds the text before the colon to the text after the spaces, and nothing else changes |
| RequestParser.HttpRequest.Reset | src/http/HttpRequest.cpp:10-18 | nothing of the previous request survives |
| Fragmentation.SplitInvariance | src/http/HttpRequest.cpp:20-78 | from any parser state, parsing b and then the leftover with c equals parsing b + c at once in fields, leftover and outcome; after an exception the leftover just grows |
| Fragmentation.FragmentationIndependence | src/http/HttpRequest.cpp:20-78 | the same for any number of reads, cut anywhere |
| Fragmentation.AnyTwoSplitsAgree | src/http/HttpRequest.cpp:20-78 | two ways of cutting the same stream cannot be told apart afterwards |
| Fragmentation.RestIsSuffix | src/http/HttpRequest.cpp:34-66 | the parser consumes from the front only and never alters the bytes it leaves |
| Fragmentation.AmortisedPasses | src/http/HttpRequest.cpp:23-75 | k calls make at most k + consumed/2 loop passes in total, however the input is cut |
| Grammar.RequestRoundTrip | src/http/HttpRequest.cpp:126-178 | parsing any printed message followed by any bytes gives back its values and exactly those bytes |
| Grammar.BindsLastOccurrence | src/http/HttpRequest.cpp:163-164 | each header name is bound to the value of its last occurrence, and to nothing if it does not occur |
| Grammar.Soundness | src/http/HttpRequest.cpp:20-78 | a parse that finishes has consumed a message of the grammar and holds its meaning |
| Grammar.AcceptsExactlyTheGrammar | src/http/HttpRequest.cpp:20-78 | Parse finishes if and only if the input starts with a message of the grammar |
| Grammar.ThrowsExactlyOnBadLength | src/http/HttpRequest.cpp:48-50 | Parse throws if and only if a complete head announces a Content-Length that is no number below 2^64 |
| Grammar.UniqueFraming | src/http/HttpRequest.cpp:20-78 | the same bytes never start with two different messages, nor with one message that extends another |
| RequestBytes.RequestLineExactly | src/http/HttpRequest.cpp:126-180 | a request line is accepted if and only if it is one of seven words, a path without spaces and a version, and sets the three accordingly |
| RequestBytes.RejectedLineLeavesMethod | src/http/HttpRequest.cpp:132-140 | a known word without a second space is rejected with the method already set |
| RequestBytes.HeaderLineInBytes | src/http/HttpRequest.cpp:150-167 | name, colon, space, value and CR LF bind that name to that value |
| RequestBytes.LengthDecides | src/http/HttpRequest.cpp:43-70 | for every head, a header of exactly the name Content-Length decides: without it no body and nothing more consumed; with it that many bytes, or waiting, or an exception |
| RequestBytes.BodyInBytes | src/http/HttpRequest.cpp:48-66 | any method, path and version, with Content-Length and a body of that length, finish with that body and leave what follows |
| Viability.RejectionIsFinal | src/http/HttpRequest.cpp:30-32 | once a complete malformed line is at the front, every later call returns false, changes nothing and consumes nothing, whatever arrives |
| Viability.WaitingHelpsExactly | src/http/HttpRequest.cpp:25-70 | after a false result some continuation finishes the request if and only if no malformed line waits and a partial request line can still become one; always from incomplete headers and from the body |
| Decimal.StoullToString | src/http/HttpResponse.cpp:65 | stoull(to_string(n)) is n for every n below 2^64 |
| Decimal.StoullReads | src/http/HttpRequest.cpp:50 | any of six blank characters, sign, digits and trailing text give the value of the digits, its negation modulo 2^64, or out of range |
| Decimal.StoullRejectsExactly | src/http/HttpRequest.cpp:50 | any text that has not that shape is an invalid argument, and no other is |
| Decimal.NumbersInBytes | src/http/HttpRequest.cpp:50 | numerals are in base ten, 2^64 - 1 is read, 2^64 is out of range, and -5 is 2^64 - 5 |
| ResponseBuilder.HttpResponse.Build | src/http/HttpResponse.cpp:51-77 | the buffer gains status line, every header once in some order, blank line and body, and the response gains the headers Build adds |
| ResponseBuilder.HttpResponse.AppendHeaders | src/http/HttpResponse.cpp:67-69 | the loop prints each entry of the map exactly once |
| ResponseBuilder.HttpResponse.LoadFile | src/http/HttpResponse.cpp:34-49 | a file that can be opened becomes the body, with the content type of its extension; otherwise nothing changes |
| ResponseBuilder.HttpResponse.MakeErrorResponse | src/http/HttpResponse.cpp:79-94 | an error page that does not keep the connection |
| ResponseBuilder.HttpResponse.MakeJsonResponse | src/http/HttpResponse.cpp:104-110 | a JSON answer that does not keep the connection |
| ResponseRoundTrip.StatusIsReadBack | src/http/HttpResponse.cpp:52-54 | the number after the version in any printed status line is the code of the status |
| ResponseRoundTrip.StatusLinesDiffer | src/http/HttpResponse.cpp:52-54 | two statuses never print the same status line |
| ResponseRoundTrip.ContentTypeIsClean | src/http/HttpResponse.cpp:133-156 | every content type survives being printed and read as a header value |
| ResponseRoundTrip.PrinterParserAgree | src/http/HttpResponse.cpp:51-77 | what Build prints after the status line is read back by Parse from HEADERS: same headers, same body, trailing bytes intact, for every iteration order and for the empty body |
| ResponseRoundTrip.ReadsBackExactlyWhenClean | src/http/HttpResponse.cpp:67-76 | a printed response reads back if and only if no header name holds a colon, no value starts with a space and neither holds CR LF |
| ResponseRoundTrip.ParserStoresCleanHeaders | src/http/HttpRequest.cpp:150-167 | the parser never stores a header that would not survive being printed and read |
| SessionModel.Session.constructor | src/server/Session.cpp:17-27 | a new session has empty buffers, a fresh parser and no operation |
| SessionModel.Session.Start | src/server/Session.cpp:31-34 | the timer waits and a read is started |
| SessionModel.Session.Stop | src/server/Session.cpp:36-49 | an open session becomes closed and what is in flight is cancelled; a closed one does not change |
| SessionModel.Session.OnRead | src/server/Session.cpp:68-94 | the whole new state after a read completes: closed, waiting for more, answering, or ended by an exception |
| SessionModel.Session.OnWrite | src/server/Session.cpp:102-121 | the whole new state after a write completes: closed, or reset and reading |
| SessionModel.Session.OnTimer | src/server/Session.cpp:375-379 | expiry closes an open session, cancellation does nothing |
| SessionModel.Session.HandleRequest | src/server/Session.cpp:284-360 | the answer is appended to the write buffer in some header order and a write starts, or an exception leaves |
| SessionModel.Session.ChooseResponse | src/server/Session.cpp:287-357 | path and method select the route; the fixed routes, the services, the unknown route and the early return decide the response and whether it says keep-alive |
| SessionRuns.OneOperationInFlight | src/server/Session.cpp:60-122 | in every run, an open session waits for exactly one of read and write, and its write buffer is empty while it waits for a read |
| SessionRuns.HandledAreFirstFrames | src/server/Session.cpp:78-93 | in every run, the requests handled are the first ones that one-shot parsing finds in the received stream, nothing lost, repeated or carried over |
| SessionRuns.AllFramesHandledExactly | src/server/Session.cpp:113-116 | a waiting session has handled every complete request received if and only if the bytes after the last one handled do not start with a message of the grammar |
| SessionWire.WireIsAnswersInOrder | src/server/Session.cpp:97-122 | in every state of every run, what has left is all answers but the last, in order, one for each request answered, and the part of the last one sent so far; everything once a write has succeeded, also one that closes the session, and whenever a read is pending |
| SessionWire.EveryAnswerLeaves | src/server/Session.cpp:97-122 | in a run of successful writes, whenever no write is pending the bytes written are the concatenation of one Build output per request answered, also at closed and crashed ends |
| SessionWire.UndisturbedWritesSucceed | src/server/Session.cpp:36-122 | without a failing write, Stop or an expiry, every write of a run succeeds |
| SessionWire.EndToEnd | src/server/Session.cpp:60-122 | in every state of every run, the written stream reads back as the answers that have left completely, with status, headers and body, one for each of the first requests received, in order |
| SessionWire.EndToEndOnSuccess | src/server/Session.cpp:60-122 | in a run of successful writes with no write pending, open, closed or crashed, the client reads back one answer for every request answered |
| SessionWire.RepliesOfOutputs | src/http/HttpResponse.cpp:51-77 | any sequence of printed answers is read back answer by answer, whatever follows |
| SessionWire.PartialReply | src/http/HttpResponse.cpp:51-77 | a printed answer cut anywhere is not taken for an answer |
| SessionLifetime.ShutdownTerminates | src/server/Session.cpp:36-49 | closed is for ever, and at most two read or write handlers and one timer handler run after it, even with a success already queued |
| SessionLifetime.StopTakesEffectOnce | src/server/Session.cpp:36-49 | after Stop nothing is in flight and a second Stop changes nothing |
| SessionLifetime.ClosedSessionIsReleased | src/server/Session.cpp:60-122 | a closed session is released exactly when no handler is left, and a handler that is left can run |
| SessionLifetime.ConnectionHeaderExactly | src/http/HttpResponse.cpp:58-65 | every answer, early or not, says Connection keep-alive with the limits if the request has Connection keep-alive or Keep-Alive and the early return was not taken, and Connection close without limits in every other case, and announces the length of its body |
| SessionLifetime.PersistenceExactly | src/server/Session.cpp:287-290 | in every run, after a successful write an open session reads on if and only if the request has the header Connection with the value keep-alive or Keep-Alive, and closes otherwise |
| SessionLifetime.PlainGetIsClosed | src/server/Session.cpp:113-120 | GET over HTTP/1.1 without that header is answered and the session closed |
| SessionLifetime.AnnouncementIsTrueExactly | src/server/Session.cpp:287-359 | after a successful write, the last answer the client reads announces persistence, by not saying close, if and only if the session reads on, except exactly for the early 404 to a request that asked for it |
| SessionLifetime.EarlyReturnMisleads | src/server/Session.cpp:328-333 | for every such request there is a run whose answer says close while the session reads on |
| SessionAnswers.EveryAnswerIsExpected | src/server/Session.cpp:284-360 | in every run, each answer the client reads has the status, content type and body that the table of routes and the file system give for the request in its place |
| SessionAnswers.AnswerIsExpected | src/server/Session.cpp:284-360 | the same for one request: the two fixed routes, four services with their methods, the unknown route, the index page for the root, and each outcome of the file lookup |
| SessionAnswers.RaisesExactly | src/server/Session.cpp:298-322 | answering raises if and only if a service or the file system does, or the path is empty |
| SessionAnswers.StatusLineInBytes | src/http/HttpResponse.cpp:52-54 | version, number and text of every status line |
| SessionAnswers.HeaderInBytes | src/http/HttpResponse.cpp:67-69 | each header is printed as its name, a colon, a space, its value and CR LF, in whatever order |
| SessionLifetime.TimerArmedExactly | src/server/Session.cpp:371-386 | in every run, an open session's timer waits exactly until the first successful read or its expiry |
| SessionLifetime.NoTimeoutAfterFirstRead | src/server/Session.cpp:382 | once a read has succeeded the timer never expires again |
| SessionLifetime.SilentClientIsDropped | src/server/Session.cpp:362-380 | until then the run can always end with the timer closing the session, nothing handled |
| SessionLifetime.HandlerOutcomeExactly | src/server/Session.cpp:68-121 | which completions close a session and which end it by an exception, exactly; any other leaves one new operation in flight |
| SessionLifetime.PatientClientIsServed | src/server/Session.cpp:78-116 | in every run with a client that waits for each answer, a session that waits for a read has handled every complete request received |
| SessionLifetime.PatientClientIsAnswered | src/server/Session.cpp:60-122 | and that client has read back exactly one answer for each complete request received, in order |
| SessionLifetime.OneRequestPerRead | src/server/Session.cpp:78-93 | in every run at most one request is handled per successful read, however many arrive in it |
| SessionLifetime.PipelinedRequestLags | src/server/Session.cpp:113-116 | for any two requests, the first asking for persistence, a run in which both arrive in one read and the session waits for more with only the first handled |
| SessionLifetime.TwoGetsAtOnce | src/server/Session.cpp:113-116 | that run for GET /x sent twice |
| SessionLifetime.MissingFileMisleads | src/server/Session.cpp:328-333 | a GET of a missing file with keep-alive is answered with close, and the session reads on |
| SessionReads.HandledFollowsReads | src/server/Session.cpp:68-93 | in every state of every run, which requests have been handled depends on the successful reads alone: each takes the next complete one if there is one |
| SessionReads.KeepsUpExactly | src/server/Session.cpp:68-116 | in every state of every run, all complete requests received have been handled if and only if no final stretch of the reads completes more requests than it has reads |
| SessionClient.WaitingClientIsAnswered | src/server/Session.cpp:60-122 | with a client whose bytes never run more than one request ahead of the answers it can read, every complete request has been handled and answered, one answer each, in order, whenever the session waits for a read |
| SessionClient.AnyConversation | src/server/Session.cpp:113-116 | for every list of requests asking for persistence and every answer the code can give to each, a run on one connection in which that client reads them all and the session reads on |
| SessionClient.EveryListIsAnswered | src/server/Session.cpp:113-116 | hence every list of valid requests with a path that ask for persistence can be answered on one connection |
| SessionClient.AnnouncedLimitIsNotKept | src/http/HttpResponse.cpp:60 | for every n, a run in which n answers on one connection announce max=100 and the session reads on |
| Viability.HopelessExactly | src/http/HttpRequest.cpp:25-62 | waiting on a malformed line, or on a request line that starts with no method, is exactly waiting that no continuation can end |
| SessionRejection.RejectedSessionIsDeaf | src/server/Session.cpp:78-93 | once such input is next, no continuation of any run handles or answers anything more, nor writes a byte if a read was pending |
| SessionRejection.RejectedSessionHangs | src/server/Session.cpp:69-92 | such a session stays open and reading until a read fails or Stop is called, no timeout ends it, and it keeps every byte that arrives |
| SessionRejection.FurtherRequestExactly | src/server/Session.cpp:68-93 | a session waiting for a read can handle a further request in some continuation if and only if some bytes after those not handled finish one |
| SessionRejection.LeadingBlankLineIsHopeless | src/http/HttpRequest.cpp:25-32 | an empty line before the request line is such input |
| SessionRejection.UnknownMethodIsHopeless | src/http/HttpRequest.cpp:126-140 | so is an unknown method, before its line has ended |
| FormLookup.ExtractFindsFirstSegment | src/server/Session.cpp:124-139 | for every body and every key without an ampersand, what follows the first key= in the first segment that contains it, or the empty string, with a space for each plus sign, no plus sign left, and every other byte and the length unchanged |
| FormLookup.ExtractFindsFirstSuffix | src/server/Session.cpp:124-139 | for every form whose names and values hold no equals sign, the same of the value of the first field whose name ends with the key |
| FormLookup.LookupInvertsEncoding | src/server/Session.cpp:137 | values sent with a plus sign for each space come back, spaces and all, if no earlier name ends with the one looked up |
| FormLookup.PlusIsReadAsSpace | src/server/Session.cpp:137 | username=John+Smith gives John Smith |
| FormLookup.LookupIsRightExactly | src/server/Session.cpp:124-139 | for given field names, lookup is right for all values without an equals sign if and only if the first name ending with the key is the key |
| FormLookup.LookupIsRightForAllValuesExactly | src/server/Session.cpp:124-139 | for given field names, lookup is right for all values a client can send if and only if the field comes first or the form has no fields |
| FormLookup.ValueIsMistakenForField | src/server/Session.cpp:126-131 | a=id=5&id=2 gives 5 for id |
| FormLookup.SuffixIsMistakenForKey | src/server/Session.cpp:126-131 | uid=1&id=2 gives 1 for id |
| FormEncoding.EnteredValueSurvivesExactly | src/server/Session.cpp:124-139 | in any form whose values are percent-encoded, lookup gives the encoding, which is the value entered if and only if that has unreserved characters only, and from which decoding would restore any value |
| FormEncoding.RegistrationReadsExactly | fronted/register.html:157-159 | the same for the three fields of the registration page |
| FormEncoding.AtSignIsRead | fronted/register.html:157-159 | an at sign is read as %40 |
| FormEncoding.EmailIsNotReadAsEntered | fronted/register.html:157-159 | an e-mail address with an at sign never comes back as entered |
| PostgrePoolModel.PostgrePool.Init | src/database/postgre_pool.cpp:52-76 | the pool holds exactly the connections opened, and is initialised only if all of them were |
| PostgrePoolModel.PostgrePool.Acquire | src/database/postgre_pool.cpp:78-96 | the connection idle longest is taken, or the thread throws, or it must wait |
| PostgrePoolModel.PostgrePool.Close | src/database/postgre_pool.cpp:98-112 | a pool in use is emptied, marked and notifies all; any other is left alone |
| PostgrePoolModel.PostgrePool.Return | src/database/postgre_pool.cpp:124-136 | the connection or its replacement goes to the back of the queue, or is dropped, or reconnecting throws |
| PostgrePoolModel.ConnectionGuard.Move | src/database/postgre_pool.cpp:18-21 | the new guard has what the old one had, and the old one is empty |
| PostgrePoolModel.ConnectionGuard.MoveAssign | src/database/postgre_pool.cpp:23-33 | nothing on itself; otherwise its own connection is returned first, then it has what the other had, and the other is empty |
| PostgrePoolModel.ConnectionGuard.Release | src/database/postgre_pool.cpp:45-50 | a connection is returned once, and the guard forgets its pool |
| PoolSafety.EveryRunIsSafe | src/database/postgre_pool.cpp:13-136 | over all interleavings: no connection idle twice, held twice, or idle and held; lent in the order they became idle; idle plus held constant since a successful Init |
| PoolSafety.RefinesSemaphore | src/database/postgre_pool.cpp:78-136 | until the next Init or Close the pool is a counting semaphore: a permit is taken exactly when there is one, a released guard gives one back below capacity, nothing else touches them |
| PoolReplacement.PresentExactly | src/database/postgre_pool.cpp:45-136 | in every reachable state, the connections idle or held after a step are exactly those before it that did not leave, and as many new ones as it opened; they leave when Init or Close empties the queue and when let go of while closed or with the pool not in use |
| PoolReplacement.InitExactly | src/database/postgre_pool.cpp:52-76 | after any Init, failed or not, the queue holds the new connections in the order they were opened, the pool is not closing, and it is initialised if it was or all were opened; size zero changes nothing |
| PoolReplacement.ReturnExactly | src/database/postgre_pool.cpp:124-136 | in every state of every run, a connection let go of goes to the back of the queue if open, else one opened just now goes there, and the process ends if and only if that fails; a pool not in use drops it |
| PoolReplacement.LeftForGood | src/database/postgre_pool.cpp:130-132 | over every run, a connection found closed when let go of, or otherwise gone, is never idle or held again |
| PoolReplacement.NewcomerIsNew | src/database/postgre_pool.cpp:67-73 | a connection that comes in was never idle or held before in the run |
| PoolReplacement.ReplacementIsNew | src/database/postgre_pool.cpp:130-134 | what takes a closed connection's place at the back of the queue is new to the whole run, and the rest of the queue is unchanged |
| PoolWakeups.NoWakeupIsLost | src/database/postgre_pool.cpp:52-136 | in every run whose calls of Init pass the test on sleeping and woken threads, a sleeping thread means an open pool with at most as many idle connections as woken threads, despite spurious wake-ups and overtaking |
| PoolWakeups.FirstInitPasses | src/database/postgre_pool.cpp:52-76 | a successful Init on a pool that is not initialised passes the test in every such run |
| PoolWakeups.InitIsSafeExactly | src/database/postgre_pool.cpp:52-76 | in every state of every run, after a successful or failed Init no wake-up is lost for the whole rest of the run, until Init is called again, if and only if the call passed the test |
| PoolWakeups.DisciplineExactly | src/database/postgre_pool.cpp:52-136 | all calls of Init of a run pass the test if and only if no beginning of the run can go on without Init to a lost wake-up |
| PoolWakeups.ReinitLosesWakeup | src/database/postgre_pool.cpp:52-76 | Init on a pool in use can leave a sleeper with any number of idle connections and nobody woken |
| PoolWakeups.FailedInitStrandsSleeper | src/database/postgre_pool.cpp:52-76 | an Init that fails after Close sends a woken thread back to sleep on a pool that is not initialised, where Close does nothing |
| PoolWakeups.StrandedStaysAsleep | src/database/postgre_pool.cpp:98-136 | that thread sleeps on, whatever is returned or closed, until a spurious wake-up or another Init |
| PoolLiveness.DeadlockFreedom | src/database/postgre_pool.cpp:45-96 | if threads acquire only while holding nothing, then while a thread waits on an open pool a woken one can take a connection or a running one can return one, if and only if a connection exists, as it does from a successful Init until Close or a failed Init |
| PoolLiveness.FailedInitStarves | src/database/postgre_pool.cpp:52-76 | an Init that fails on an open pool with nothing lent leaves it open without connections, and a thread asleep there |
| PoolLiveness.EveryWaiterCanBeServed | src/database/postgre_pool.cpp:45-136 | in every such run each thread waiting on an open pool that has a connection can be served within three steps, by releases and their notifications alone, without spurious wake-ups |
| PoolLiveness.CloseDrains | src/database/postgre_pool.cpp:98-112 | Close on a pool in use empties it and wakes every sleeper, in any state |
| PoolLiveness.DrainedStep | src/database/postgre_pool.cpp:78-136 | on a closed pool Acquire throws, a woken thread throws, a return drops its connection and never reconnects |
| PoolLiveness.ClosedPoolDrains | src/database/postgre_pool.cpp:78-136 | until a later Init the pool stays empty, nobody goes to sleep, and the number of waiting threads falls by one with each of their steps |

## Left out

- Boost.Asio, threads and `bre::Buffer`: their code is not in the repository; only completion events and the buffer's contract are modelled.
- Bytes outside the written part of the read buffer, its growth and its capacity: they do not affect the bytes that are read.
- What the services behind the API routes and the file system answer: an arbitrary choice of the responses the code can build, or an exception.
- Percent-decoding of form values: the code has none. The encoding that the registration page applies is modelled on the octets of a text; `PercentDecode` only says what decoding would give.
- `UserService`, hashing and libpqxx: only that a service call acquires while holding no connection is used.
- Fairness: the pool's liveness theorems say that steps serving a thread exist, not that the scheduler takes them.
- Guards built by hand with a connection but no pool, or with a connection of another pool: only `Acquire` builds guards in the repository.
- A guard used by two threads at once: it is not synchronised, and nothing in the repository does so.
- Memory exhaustion and exceptions from logging.
- `WebServer`, `HttpConnection`, configuration, statistics, logging, `MakeTextResponse` and the getters: wiring or easy members.
- ConnectionGuard.MoveAssign: when reconnecting throws, the state left behind is not described, because the process ends there.
