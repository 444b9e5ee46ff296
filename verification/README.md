# A Dafny model of net77

net77 is a small HTTP/1.x and TCP library in C. This project models the parts of it in which several
functions have to agree with each other, and proves that they do:

* **Receiving.** `recvAllData` reads from a socket while `httpReceiveController` moves the limit: byte by
  byte up to the end of the header, then in bulk. `Framing.Classify` says, without reference to the
  controller, where a message ends; for every stream and every way of cutting it into chunks, a receive
  takes exactly that message, and a session of several requests takes exactly the successive messages.
  In every environment, it is stated exactly which poll ends a send, a receive, a wait, an exchange or a
  request in a session, with which result, and when an answer is complete.
* **Parsing and serializing.** The cursor-moving parsers and the two-pass header parser compute a
  one-pass grammar whose language is stated exactly; a message survives serializing and parsing if and
  only if it is well formed, and everything the parser accepts is. Which of the messages that the receive
  controller frames the parser accepts, and where their length was read, is stated exactly too. The
  languages of request lines, status lines, requests and responses are written out.
* **Connections.** A struct of arrays kept as flat byte columns with per-column strides is a sequence of
  records; the accept loop keeps its limits in every run; the in-place timeout sweep is a filter if and
  only if no record can be mistaken for another, which new descriptors guarantee in every run.
* **Thread pool.** Workers and the dispatcher are interleaved steps over per-worker queues; order is
  kept in every reachable state, and after destruction every job was handled once or freed once.

Code that changes things in place is modelled by classes, arrays, and methods with loops (`Parsing`,
`Serialization`, `StringBuilders`, `StringUtils`, `RecvController`, `Receive`, `Sock`, `Mcfss`, `Server`,
`LinkedLists`, `ThreadPools`). Each such method is proved against a function on values; the properties
of those functions are lemmas in modules of their own (`RoundTrip`, `HeaderLanguage`, `Framing`,
`FirstLines`, `ReceiveRuns`, `ContentLength`, `MessageEnds`, `Completeness`, `Outcomes`, `Acceptance`,
`SockRuns`, `SockOutcomes`, `McfssRuns`, `Accepting`, `Sweeping`, `ServerRuns`, `ServerTimes`,
`ThreadPoolRuns`, `ThreadPoolProgress`).

## The environment

The kernel is a script of outcomes, one `Net.Event` per `poll` and the `send` or `recv` after it, and a
stream of bytes the peer will deliver. Lemmas quantify over all finite scripts; a call still under way
when the script ends is reported as waiting. `send` and `recv` may move any number of bytes up to what
is asked for. The two assertions that call a poll result unreachable are taken as compiled out: such a
poll is followed by the transfer. `send` and `recv` after a poll are assumed not to fail; the program
asserts as much, and with assertions compiled out would add the -1 of a failing `recv` to its counts
(lib/utils.c:266-279). Scheduling of the thread pool is an arbitrary sequence of steps in
which a waiting worker may wake at any time, so signals may be lost and wake-ups may be spurious.
A byte of text is a `char`; the code compares text bytes only with ASCII characters.

## What the code does that its comments or interface do not say

* The length of a message is read after the leftmost `Content-Length:` in its header, even in the middle
  of a line. The Content-Length field is obeyed if and only if that text occurs nowhere before it
  (`ContentLength.FieldIsReadUnlessHidden`); an `X-Content-Length` field before it is obeyed instead
  (`ContentLength.OtherFieldIsReadFirst`).
* The number read as a Content-Length is that of the first digits of its value, blanks between digits
  being skipped (`ContentLength.DigitsAndBlanks`). Whatever else follows the digits is ignored:
  `strToUint` sets the terminating character only when it finds no number, so the controller's test of
  it never rejects one. The number is what a strict reader finds if and only if there are no digits
  behind the leading blanks, or only blanks behind the digits (`ContentLength.MisreadValues`). So `1 2`
  and `12abc` are both read as 12 (`ContentLength.BlankInNumber`, `ContentLength.LettersInNumber`).
* A Content-Length without digits behind its leading blanks does not make the controller wait for more data: the
  receive ends, without an error, at the end of the header (`ContentLength.NoNumber`,
  `ReceiveRuns.OtherFramings`).
* Field names are letters only, so the struct-mode parser refuses every message with a Content-Length
  field (`Acceptance.NoLengthFieldAccepted`). When it accepts a message of known length, that length was
  read in the middle of another line (`Acceptance.AcceptedLengthIsNoField`); there are such messages
  (`Acceptance.LengthInsideValue`).
* The controller corrects for bytes of the body received with the header by taking them off the end of the
  message, which is right if and only if there are none or the caller's limit comes first
  (`MessageEnds.OvershotIsSubtracted`). No run gets there (`ReceiveRuns.ReachablePhases`).
* The receive controller refuses every request (`Acceptance.RequestsAreRefused`).
* A message cut short by the peer's close, or by a timeout that the caller does not take for an error, is
  returned without an error. Success means that the message is complete if and only if the descriptor
  was not closed, the last poll did not time out, and the limit left room for the message
  (`Completeness.SuccessIsWholeMessage`, `Completeness.CutShortIsSuccess`,
  `Completeness.TruncatedSucceeds`). In a session, an answer is complete, as far as the limit allows, if
  and only if the session is still open (`SockRuns.OpenMeansComplete`).
* A limit of zero receives nothing (`ReceiveRuns.ZeroLimitReceivesNothing`); the comment in
  include/net77/net_includes.h:76 promises no limit.
* `sendAllData` reports success for a part of the data if and only if its last poll timed out
  (`SockRuns.SendSafety`, `SockRuns.SendCutShort`). A session then waits for the answer all the same, and
  reports success for a request of which only a part was sent (`SockRuns.AnswerToPartOfRequest`).
* `waitThenRecvAllData` reports success without any output if and only if its first poll sees a hang-up,
  even when there are bytes to read (`SockRuns.OutputMissing`, `SockRuns.HangUpLosesAnswer`).
* A negative `max_conns_per_ip` refuses nobody; include/net77/server.h:43 promises a default of four. The
  outcome is that of the default if and only if the socket is closed for a failed call, its address has
  fewer than four connections, or the table is full (`ServerRuns.NegativeLimitIsNone`,
  `ServerRuns.FifthConnectionIsTaken`).
* The conditional operator binds weaker than the disjunction before it, so a failure to make an accepted
  socket non-blocking or keep-alive does not reject it (`Accepting.SetupIsCheckedUnlessFirstFail`,
  `Accepting.FailedSocketIsTaken`).
* An accepted socket whose pollfd is already in the table is neither added nor closed
  (`Accepting.SocketIsLost`, `Accepting.ReusedFdIsLost`).
* The idle time is an unsigned difference. The test for expiry is right if and only if the clock is not
  behind the time of the last use or no timeout is set (`Server.ExpiryNeedsClock`); a clock that is
  slightly behind expires a connection just used (`Server.SlightlyBehindClock`).
* The timeout sweep removes the first record with the pollfd of the expired one. It is a filter if and
  only if no expired record comes after one with the same pollfd that has not expired
  (`Sweeping.SweepIsFilter`, `Sweeping.WrongRecordIsRemoved`).
* The timeout sweep closes the descriptor of the record that moved into the removed one's place. It
  closes its own descriptors if and only if no connection but the last in the table expired
  (`Server.SweepClosesItsOwn`); otherwise a descriptor leaks (`Server.FirstExpiredIsLeaked`).

## Model

| member | source | states |
|---|---|---|
| Text.FindIsLeftmost | lib/string_utils.c:5-24 | the search returns the leftmost case-insensitive occurrence, and nothing exactly when there is none |
| Text.MatchesMeansSame | lib/string_utils.c:5-24 | an occurrence of a text is that text but for the case of its letters |
| StringUtils.FindAsciiSubstringCaseInsensitive | lib/string_utils.c:5-24 | the nested loops over the buffer find that occurrence, for empty and over-long needles too |
| MathUtils.OptMinIsMeet | lib/math_utils.c:4-13 | the minimum allows what both limits allow, a negative limit being none |
| StringBuilders.GrownCapIsLeastPowerOfTwo | lib/string_builder.c:27-41 | the new capacity suffices and is the least power of two, from 64 on, that does |
| StringBuilders.GrowthDoubles | lib/string_builder.c:27-41 | a growth at least doubles the capacity |
| StringBuilders.BuilderGrowthIsLinear | lib/string_builder.c:27-49 | over any appends to an empty builder, reallocation moves at most twice the final length |
| StringBuilders.StringBuilder.ExpandBuf | lib/string_builder.c:27-41 | contents are kept while the block is replaced by a larger one |
| StringBuilders.StringBuilder.Append | lib/string_builder.c:43-49 | contents become the old contents followed by the text |
| StringBuilders.StringBuilder.Build | lib/string_builder.c:52-58 | a zero-terminated copy of the contents in memory of its own |
| StringBuilders.StringBuilder.BuildAndDestroy | lib/string_builder.c:61-73 | the zero-terminated contents are handed over and the builder is empty |
| Parsing.ExpectChar | lib/http/parsing.c:36-42 | consumes the character or leaves the cursor where it was |
| Parsing.ExpectNewline | lib/http/parsing.c:28-34 | consumes a line end or leaves the cursor where it was |
| Parsing.ParseLeading | lib/http/parsing.c:66-92 | takes the maximal run of a character class; a run up to the end of the text is reported without advancing |
| Parsing.ParseMethodName | lib/http/parsing.c:94-118 | recognises the nine methods by prefix of the leading word |
| Parsing.ParseUrl | lib/http/parsing.c:120-132 | takes a non-empty run of non-spaces |
| Parsing.LowerEqLiteral | lib/http/parsing.c:49-56 | compares a prefix with a literal, ignoring case |
| Parsing.ParseHttpVersion | lib/http/parsing.c:134-165 | computes the grammar of versions |
| Parsing.ParseHeaderField | lib/http/parsing.c:167-188 | on a text with a line end the decrementing cursor stays in the buffer and the field grammar is computed |
| Parsing.SkipToLineEnd | lib/http/parsing.c:175-180 | stops at the first line end, or one byte before the end without one |
| Parsing.StepPastLineEnd | lib/http/parsing.c:181-183 | steps past the line end, or reports that the text ends with it |
| Parsing.NoLineEndBeforeValue | lib/http/parsing.c:169-174 | name, colon and spaces contain no start of a line end |
| Parsing.FieldConsumesOneLine | lib/http/parsing.c:167-188 | an accepted field consumes exactly the text up to and with the first line end |
| Parsing.CountLines | lib/http/parsing.c:191-207 | the pre-scan counts the lines up to the blank line |
| Parsing.ParseCounted | lib/http/parsing.c:209-229 | the second pass parses exactly the counted fields and then requires the blank line |
| Parsing.TwoPassesAgree | lib/http/parsing.c:190-230 | counting first and parsing that many fields accepts the same headers, with the same fields, as the one-pass grammar |
| Parsing.ParseHeaderStruct | lib/http/parsing.c:190-230 | the two passes together compute the one-pass grammar and leave the cursor on the blank line |
| Parsing.ParseRequestLineOf | lib/http/parsing.c:301-319 | a line beginning with a slash is never accepted; any other is parsed as the grammar says |
| Parsing.ParseHttpRequest | lib/http/parsing.c:292-335 | computes the grammar of requests |
| Parsing.StrToInt | lib/http/parsing.c:13-18 | the accumulating loop yields the decimal value |
| Parsing.ParseStatusOf | lib/http/parsing.c:343-355 | three digits of which the first is 1 to 5, then the text up to the first line end |
| Parsing.ParseHttpResponse | lib/http/parsing.c:337-371 | computes the grammar of responses |
| FirstLines.MethodLanguage | lib/http/parsing.c:94-118 | a word is read as a method if and only if it begins with the name of the method |
| FirstLines.VersionLanguage | lib/http/parsing.c:134-165 | where no digit follows, a version is read if and only if a word of letters beginning with http, a slash and 0.9, 1.0, 1.1 or 2 with any minor number stand there |
| FirstLines.AcceptedRequestLines | lib/http/parsing.c:301-319 | a request line is accepted, with given parts, if and only if it is the method and any letters, a space, a non-empty url without spaces, a space, such a version and a line end |
| FirstLines.AcceptedStatusLines | lib/http/parsing.c:337-355 | a status line is accepted, with given parts, if and only if it is such a version, a space, three digits of which the first is 1 to 5, a space, a message without a line end and a line end |
| FirstLines.AcceptedRequests | lib/http/parsing.c:292-335 | a text is accepted as a given request if and only if it is such a request line, its fields with any spaces after the colons, a blank line and its body |
| FirstLines.AcceptedResponseTexts | lib/http/parsing.c:337-371 | a text is accepted as a given response if and only if it is such a status line, its fields with any spaces after the colons, a blank line and its body |
| HeaderLanguage.AcceptedHeaders | lib/http/parsing.c:190-230 | a block is accepted, with given fields and rest, if and only if it is those fields, well formed, with any spaces after each colon, and a blank line |
| RoundTrip.ParsedRequestWf | lib/http/parsing.c:292-335 | every accepted request is well formed |
| RoundTrip.ParsedResponseWf | lib/http/parsing.c:337-371 | every accepted response is well formed, with a code from 100 to 599 |
| RoundTrip.AfterHttpWord | lib/http/parsing.c:134-140 | any word that begins with http, in any case, introduces a version |
| RoundTrip.MethodRoundTrip | lib/http/serialization.c:9-32 | each written method is read back |
| RoundTrip.VersionRoundTrip | lib/http/serialization.c:39-50 | each written version is read back |
| RoundTrip.FieldsRoundTrip | lib/http/serialization.c:62-70 | any number of written fields is read back |
| RoundTrip.StatusDigits | lib/http/serialization.c:52-60 | the digits written for a code are digits that read as the code exactly for 0 to 999 |
| RoundTrip.RequestRoundTrip | lib/http/serialization.c:79-92 | parsing the serialized request gives it back if and only if it is well formed |
| RoundTrip.RequestCanonical | lib/http/parsing.c:292-335 | serializing an accepted request succeeds, and the text parses to the same request |
| RoundTrip.HeaderForms | lib/http/serialization.c:62-77 | a header given as a string is written like the fields whose text it is; only one that owns its string is refused |
| RoundTrip.ResponseRoundTrip | lib/http/serialization.c:94-107 | parsing the serialized response gives it back if and only if it is well formed |
| RoundTrip.ResponseCanonical | lib/http/parsing.c:337-371 | serializing an accepted response succeeds, and the text parses to the same response |
| Serialization.SerializeStatusCode | lib/http/serialization.c:52-60 | the right-to-left loop appends the three digits, with C's truncating division |
| Serialization.SerializeHttpHeader | lib/http/serialization.c:62-77 | appends the fields in order or the string; fails on a header that owns its string |
| Serialization.SerializeHttpRequest | lib/http/serialization.c:79-92 | appends the text of the request, or only its first line on failure |
| Serialization.SerializeHttpResponse | lib/http/serialization.c:94-107 | appends the text of the response, or only its first line on failure |
| RecvController.StrToUint | lib/http/recv_controller.c:27-47 | the accumulating loop reads the number of the text without its blanks |
| RecvController.GetHeaderSize | lib/http/recv_controller.c:49-55 | the size up to the end of the leftmost blank line |
| RecvController.ControllerState.HttpReceiveController | lib/http/recv_controller.c:68-160 | state, limit and action after a call are those of the transition function, for every state |
| ContentLength.UintReadsDecimal | lib/http/recv_controller.c:27-47 | blanks and a decimal number are read as that number, unless after more blanks another digit follows |
| ContentLength.LineNumber | lib/http/recv_controller.c:27-47 | from the rest of a header the number at the start of its first line, without its blanks, is read |
| ContentLength.DigitsAndBlanks | lib/http/recv_controller.c:34-38 | a value of digits and blanks is read as the number of all its digits |
| ContentLength.MisreadValues | lib/http/recv_controller.c:27-47 | the number read is the one a strict reader finds, or both find none, if and only if no digits follow the leading blanks or only blanks follow the digits |
| ContentLength.NumberWithoutLine | lib/http/recv_controller.c:27-47 | a text without a line end is read the same way, except that nothing but blanks counts as 0 |
| ContentLength.LengthIsRead | lib/http/recv_controller.c:119-148 | the framing of a stream is given by the number in the line of the leftmost Content-Length of its header |
| ContentLength.FieldIsReadUnlessHidden | lib/http/recv_controller.c:119-133 | the length is read from the first Content-Length field if and only if that text occurs nowhere before it; otherwise from a line that is no such field |
| ContentLength.OtherFieldIsReadFirst | lib/http/recv_controller.c:119-133 | an input in which an X-Content-Length field is obeyed and the Content-Length field is not |
| ContentLength.BlankInNumber | lib/http/recv_controller.c:37-38 | an input whose length 1 2 is taken as 12 |
| ContentLength.TabInNumber | lib/http/recv_controller.c:37-38 | an input with tabs before and in a number that is taken as 12 |
| ContentLength.LettersInNumber | lib/http/recv_controller.c:128-132 | an input whose length 12abc is taken as 12, the test of the terminator notwithstanding |
| ContentLength.NoNumber | lib/http/recv_controller.c:128-135 | an input whose length is not a number, and which is taken to end with its header |
| Framing.SuffixTestIsLeftmostSearch | lib/http/recv_controller.c:108-117 | testing the last four bytes agrees with searching the whole buffer, and no byte of the body has been read when the header ends |
| Framing.DecidedIsFinal | lib/http/recv_controller.c:83-148 | once the received bytes decide the framing, later bytes do not change it |
| Framing.UndecidedStopsLater | lib/http/recv_controller.c:83-148 | while they leave it open, the message ends later |
| Framing.TurnKeepsStep | lib/http/recv_controller.c:68-160 | after any received bytes, state, limit and action are those the classification of these bytes prescribes |
| MessageEnds.FramingOfText | lib/http/recv_controller.c:68-160 | the framing in terms of the text: its first line, its first blank line, and the leftmost Content-Length before that |
| MessageEnds.MessagesWithoutLength | lib/http/recv_controller.c:83-125 | what a call receives of a text that begins with no version, with HTTP/1.1 but without a Content-Length, or with an older version |
| MessageEnds.LatePhasesAgree | lib/http/recv_controller.c:118-158 | a length read before the end of the header would lead to the right limit once the header is complete |
| MessageEnds.OvershotIsSubtracted | lib/http/recv_controller.c:137-143 | with bytes of the body received before, the limit would be right if and only if there are none or the caller's limit comes first |
| Receive.Fill | lib/utils.c:260-279 | `recv` is asked for a positive count that fits the buffer; what it delivers is appended and nothing else changes |
| Receive.WantIsLargest | lib/utils.c:260-266 | the count asked for is the largest that fits the buffer and the limit |
| Receive.StepOf | lib/utils.c:218-287 | one pass through the loop is one step of the transition function |
| Receive.RecvAllData | lib/utils.c:172-295 | the call adds what the run of the transition function receives to the builder's contents and returns its result |
| ReceiveRuns.ReceiveSafety | lib/utils.c:172-295 | in every run the bytes received are a prefix of the stream, no byte behind the message is taken, neither limit is exceeded, and the call closes the descriptor at most once |
| Outcomes.LastEventDecides | lib/utils.c:218-295 | in every environment, the call goes on while its polls let it read, and its last event decides the result, the closing and the finding of an invalid descriptor |
| Completeness.SuccessIsComplete | lib/utils.c:210-295 | in every environment, a successful call has everything up to the end of the message or the limit if and only if it did not close the descriptor and its last poll did not time out |
| Completeness.SuccessIsWholeMessage | lib/utils.c:210-295 | a successful call has the whole of a message of known length if and only if, besides, the limit leaves room for it |
| Completeness.CutShortIsSuccess | lib/utils.c:226-276 | a stream that ends early, by either kind of close or a tolerated timeout, is returned as a success |
| Completeness.TruncatedSucceeds | lib/utils.c:239-276 | an input: a message two bytes short succeeds, whether `recv` returns 0 or `poll` reports a hang-up |
| ReceiveRuns.ZeroLimitReceivesNothing | lib/utils.c:210-219 | a call returns before its first poll if and only if the limit is zero, and then without an error or data |
| ReceiveRuns.ReachablePhases | lib/http/recv_controller.c:73-158 | in every run the controller waits only in the phases for the first line, the header, or nothing; the two later header phases do not occur |
| ReceiveRuns.FramingExact | lib/utils.c:210-288 | when only data arrives, in chunks of any size, a call receives exactly the message and returns |
| ReceiveRuns.ChunkingDoesNotMatter | lib/utils.c:210-288 | two such calls on the same stream receive the same, whatever the chunks and buffers |
| ReceiveRuns.OtherFramings | lib/http/recv_controller.c:93-135 | under any limit, a missing length or bad version is refused at its end, a malformed length ends the message with its header, an older version reads to the close or the limit |
| ReceiveRuns.NoRoomOnlyWithoutMinCap | lib/utils.c:261-266 | where more is wanted, the count asked for is not positive if and only if the minimum capacity is zero and the buffer is full |
| ContentLength.ContentLengthIsObeyed | lib/http/recv_controller.c:119-148 | with a decimal number c after the leftmost Content-Length and a header of h bytes, exactly h + c bytes, or the limit, are taken, whatever the chunks |
| Acceptance.LengthFieldsAreRefused | lib/http/parsing.c:167-188 | no line of an accepted header begins with Content-Length, whatever the lines before it |
| Acceptance.FieldsIffLines | lib/http/parsing.c:190-230 | up to its first blank line, a header is accepted if and only if each line begins with letters and a colon |
| Acceptance.AcceptedResponses | lib/http/parsing.c:337-371 | a text with an end of header is an accepted response if and only if its first line is a status line and each header line begins with letters and a colon; its body begins where the receive controller ends the header |
| Acceptance.NoLengthFieldAccepted | lib/http/parsing.c:337-371 | no line of an accepted response, up to its body, begins with Content-Length |
| Acceptance.AcceptedLengthIsNoField | lib/http/recv_controller.c:119-148 | when the parser accepts a message of known length, the length was read in the middle of a line, and the whole message has a body of that length |
| Acceptance.LengthInsideValue | lib/http/recv_controller.c:119-148 | an input that is accepted and framed by a length inside the value of another field |
| Acceptance.RequestsAreRefused | lib/http/recv_controller.c:93-99 | every request that the parser accepts is refused by the receive controller at the end of its first line |
| Sock.SendAllData | lib/utils.c:105-155 | the prefix-sending loop is the recursive sending function |
| Outcomes.LastEventDecidesSending | lib/utils.c:105-155 | in every environment, sending goes on while its polls let it write, and its last event decides the result, the closing and the finding of an invalid descriptor |
| SockRuns.SendDelivers | lib/utils.c:105-155 | what was sent and what is left make up the data |
| SockRuns.SendSafety | lib/utils.c:105-155 | sending reports success with something left if and only if its last poll timed out; the error is negative exactly when the descriptor is gone |
| SockRuns.SendCutShort | lib/utils.c:121-122 | a script whose second poll times out: success is reported for a part of the data |
| Sock.WaitThenRecvAllData | lib/sock.c:162-229 | the first poll and the receive on a fresh builder, with every early return |
| SockRuns.WaitSafety | lib/sock.c:162-229 | the out-flag is set exactly when the descriptor was closed or found invalid, and output comes only without an error |
| SockOutcomes.LastEventDecidesWait | lib/sock.c:162-229 | in every environment, the first and the last event of a wait decide its result, its output and the closing |
| SockRuns.SizeIsLimit | lib/sock.c:216-220 | the caller's size is the limit of the receive; sizes of 2^63 and more are none |
| SockRuns.OutputMissing | lib/sock.c:162-229 | success without output is reported if and only if the first poll sees a hang-up and no error; nothing has been read then |
| SockRuns.AnswerIsComplete | lib/sock.c:162-229 | an answer is no larger than the caller allows; it is complete if and only if the descriptor was not closed and the last poll did not time out; no byte is lost or taken from behind it |
| SockRuns.OpenMeansComplete | lib/http/request_networking.c:53-73 | the answer to a request in a session is complete, as far as the limit allows, if and only if the session is still open |
| SockRuns.AnswerMissing | lib/sock.c:240-276 | an exchange, or a request in a session, succeeds without an answer if and only if its sending succeeds and the next poll sees a hang-up |
| SockRuns.HangUpLosesAnswer | lib/sock.c:196-201 | a script with a hang-up and data: the exchange succeeds with nothing of the answer |
| Sock.NewSocketSendReceiveClose | lib/sock.c:240-276 | send, receive and close composed as the exchange function |
| SockOutcomes.LastEventDecidesExchange | lib/sock.c:240-276 | in every environment, an exchange fails, and returns nothing, if and only if its sending or its wait fails or the answer is refused at its end; what it returns otherwise is no larger than allowed, and exactly when it is complete |
| SockRuns.DescriptorClosedOnce | lib/sock.c:240-276 | a connected descriptor is closed exactly once, or not at all if it was reported invalid |
| SockRuns.ExchangeReturnsMessage | lib/sock.c:240-276 | when nothing but data arrives, the framed message is returned and the descriptor closed |
| Sock.Session.HttpRawRequestInSession | lib/http/request_networking.c:53-73 | send and receive composed, with the session's open flag |
| Sock.Session.HttpRequestInSession | lib/http/request_networking.c:42-51 | a request that cannot be serialized is not sent; any other is sent as its text |
| SockOutcomes.LastEventDecidesRequest | lib/http/request_networking.c:53-73 | in every environment, a request ends as its sending does, when that fails, and otherwise as its wait does |
| SockRuns.SessionFlagIsExact | lib/http/request_networking.c:53-73 | the session is marked closed exactly when a callee closed the descriptor or found it invalid |
| SockRuns.SuccessMeansSent | lib/http/request_networking.c:53-73 | a successful request has been sent as a whole if and only if no poll of its sending timed out |
| SockRuns.AnswerToPartOfRequest | lib/http/request_networking.c:53-73 | after a timeout in the middle of the request, what arrives is returned as its answer |
| SockRuns.SessionSplitsStream | lib/http/request_networking.c:53-73 | successive requests on one stream of framed messages are answered by the successive messages, however the stream is cut |
| SockRuns.SessionNeverMixesAnswers | lib/http/request_networking.c:53-73 | in every environment, a request that succeeds and leaves the session open is answered by its own message, and any other answer is the beginning of it |
| SockRuns.RequestArrivesIntact | lib/http/request_networking.c:42-51 | the bytes sent for a well-formed request parse as that request |
| Mcfss.FindInArray | lib/mcfss.c:5-10 | the strided search returns the first equal item |
| Mcfss.MemMove | lib/mcfss.c:44-46 | overlapping bytes move to the front as if copied aside first |
| Mcfss.McfsSet.Add | lib/mcfss.c:28-38 | a full set is left alone and reported even for a present item; otherwise the record is appended to all columns unless its checked item is present |
| Mcfss.McfsSet.Remove | lib/mcfss.c:40-49 | the first matching record disappears from every column, the others keep their order |
| Mcfss.McfsSet.GetAssocItemPtr | lib/mcfss.c:51-57 | the offset of the associated item of the first matching record |
| McfssRuns.CallsReport | lib/mcfss.c:28-49 | an addition reports a full set, and otherwise adds the record if and only if its checked item is absent; a removal reports a missing item, and otherwise takes away the first record that has it |
| McfssRuns.KeysStayDistinct | lib/mcfss.c:28-49 | in every run, additions checked on a category keep that category free of duplicates |
| McfssRuns.SetIsAMap | lib/mcfss.c:28-57 | lookups return what was stored with a key; adding or removing a key changes no other association |
| Server.CountInArray | lib/server.c:216-222 | the strided loop counts the equal items |
| ServerRuns.CountIsCardinality | lib/server.c:216-222 | the count is the number of records that have the item |
| Server.AcceptConnections | lib/server.c:303-329 | the accept loop computes the table and the sockets closed again |
| Accepting.SetupIsCheckedUnlessFirstFail | lib/server.c:306-309 | the socket is closed exactly when one of the calls failed, if and only if the first two did not fail |
| Accepting.FailedSocketIsTaken | lib/server.c:306-309 | an input for which a socket whose calls have all failed goes into the table |
| Accepting.SocketIsLost | lib/server.c:305-328 | a socket is neither added nor closed if and only if it is set up, there is room, its address is below its limit, and its pollfd is in the table |
| ServerRuns.WhenTaken | lib/server.c:305-328 | a connection is in the table afterwards if and only if it is set up, there is room, fewer than the limit have its address, and none has its pollfd; it is closed if and only if one of the first three fails |
| Accepting.NewPollFdEvents | lib/server.c:311-314 | a new connection is polled for data, errors, hang-ups and invalidity |
| Accepting.SocketsAreConserved | lib/server.c:303-329 | over the whole loop, the descriptors in the table and those accepted are those in the table, closed again, or lost, with multiplicity |
| Accepting.ReusedFdIsLost | lib/server.c:320-325 | an input for which the loop loses a socket |
| Server.NoteUse | lib/server.c:354-358 | writing through the returned pointer changes the last use of that record only |
| ServerTimes.AcceptedStaysFor | lib/server.c:314-446 | a sweep drops an accepted connection if and only if more than the configured timeout has passed since it was accepted; under a negative timeout none does |
| ServerTimes.UsedStaysFor | lib/server.c:354-446 | a sweep drops a connection if and only if more than its timeout has passed since the last noted use |
| Server.StoredNumberIsRead | lib/server.c:433-438 | a number stored as bytes is read back modulo its size |
| Server.SweepOne | lib/server.c:429-446 | when the record has expired, the first one with its pollfd is removed; the descriptor is read from the place the expired one had |
| Server.SweepTimeouts | lib/server.c:427-446 | on every table the in-place loop, with its wrapping index, looks at each record once and in order, leaves what the removals leave, and closes the stated descriptors |
| Sweeping.SweepIsFilter | lib/server.c:427-446 | the sweep leaves exactly the unexpired records in order if and only if no expired one comes after an unexpired one with the same pollfd |
| Sweeping.WrongRecordIsRemoved | lib/server.c:441-442 | inputs for which an unexpired record is removed and the expired one stays |
| Server.ExpiredMeansIdle | lib/server.c:441 | with a clock not behind, expired means a timeout is set and the idle time exceeds it |
| Server.ClockBehindExpiresAll | lib/server.c:441 | a clock behind the stored time expires every connection with a timeout |
| Server.ExpiryNeedsClock | lib/server.c:441 | expiry means idle for longer than the timeout if and only if the clock is not behind or no timeout is set |
| Server.SlightlyBehindClock | lib/server.c:441 | an input: a connection just used expires under a clock one microsecond behind |
| Server.EachExpiredCloses | lib/server.c:441-445 | the sweep closes one descriptor for each expired connection: that of the connection behind it, or its own if it is the last |
| Server.SweepClosesItsOwn | lib/server.c:441-445 | the sweep closes the descriptors of the removed connections if and only if none but the last in the table expired |
| Server.FirstExpiredIsLeaked | lib/server.c:441-445 | otherwise the first removed connection's descriptor stays open |
| ServerRuns.ConnectionCaps | lib/server.c:299-329 | over every run neither the capacity nor a non-negative limit per address is exceeded |
| ServerRuns.FreshDescriptorsSuffice | lib/server.c:299-446 | as long as accept returns descriptors that are not in the table, in every reachable state descriptors are distinct, the sweep is the filter, and no socket is lost |
| ServerRuns.LimitPerAddress | lib/server.c:319 | the comparison admits fewer than the limit, or everything if it is negative |
| ServerRuns.NegativeLimitIsNone | lib/server.c:319 | with a negative limit nobody is refused; the outcome is that of the promised default of four if and only if setup fails, the address has fewer than four connections, or the table is full |
| ServerRuns.FifthConnectionIsTaken | lib/server.c:319 | an input: a fifth connection from one address is taken |
| LinkedLists.LinkedList.PushBack | lib/linked_list.c:47-59 | the datum is appended |
| LinkedLists.LinkedList.PopFront | lib/linked_list.c:61-78 | the first datum is returned and removed, or nothing on an empty list |
| LinkedLists.LinkedList.Len | lib/linked_list.c:35-45 | the traversal counts the data |
| LinkedLists.LinkedList.Destroy | lib/linked_list.c:23-33 | every datum is freed once, in order, and the list is empty |
| ThreadPools.LeastLoaded | lib/thread_pool.c:64-72 | the first index of a least length |
| ThreadPools.ThreadPool.FindLeastLoaded | lib/thread_pool.c:64-72 | the running minimum over the queues finds that index |
| ThreadPools.ThreadPool.DispatchWork | lib/thread_pool.c:61-80 | the job is appended to that queue and no other changes; without workers it is handled at once |
| ThreadPoolRuns.RunIsOk | lib/thread_pool.c:4-80 | the invariant of all workers and the dispatcher holds after every interleaving |
| ThreadPoolRuns.DispatchOrderIsKept | lib/thread_pool.c:4-14 | in every reachable state a worker's dispatched jobs are those popped, freed and queued, in order, and the popped ones have been or are being handled |
| ThreadPoolRuns.EveryJobHandledOrFreed | lib/thread_pool.c:47-59 | after destruction the jobs submitted are those handled and those freed, with multiplicity |
| ThreadPoolRuns.PushIsLeastLoaded | lib/thread_pool.c:61-76 | with pops interleaved, the chosen queue is after the push at most one longer than any sampled length |
| ThreadPoolRuns.RoundRobin | lib/thread_pool.c:61-76 | in every run in which no worker moves, job n is in the queue of worker n mod m, in order, and lengths differ by at most one |
| ThreadPoolRuns.SubmittedIsPushed | lib/thread_pool.c:61-76 | after a submission, one step per worker and one more push the job |
| ThreadPoolProgress.QueueCanBeHandled | lib/thread_pool.c:4-14 | a worker that has not been killed can, in every state, still handle all its jobs |
| ThreadPoolProgress.PoolCanBeDestroyed | lib/thread_pool.c:47-80 | in every reachable state the pool can still be destroyed |

## Left out

- Header mode as a string (`parseHeaderString`) and round trips through it: the loop has no length bound; only headers parsed into structs are modelled.
- Parsing.ParseHeaderStruct: reports an error on an empty text, where the program's unsigned loop bound wraps and it reads past the text.
- Parsing.ParseHeaderField: requires text behind the name, colon and spaces, because otherwise the program's count of the bytes left wraps and it reads past the text.
- Parsing.StepPastLineEnd: is called only where the search before it stops, at a line end or at the last byte.
- Comparisons of a word with a literal that would read past the end of the text: the byte there is taken to differ, as the zero byte that ends every built string does.
- Aliasing of parsed names, values, URLs and bodies with the input buffer: the model returns their text.
- Machine integers in text parsing and in Content-Length: lengths are taken to fit in `int`, numbers in `ssize_t`.
- The literal shift in `stringBuilderExpandBuf`, which is undefined for 32-bit operands shifted that far: the documented power of two is modelled.
- Receive.RecvAllData: requires a minimum capacity other than zero; with zero, and only then, a full buffer is passed to `recv` with a huge count (`ReceiveRuns.NoRoomOnlyWithoutMinCap`), and memory behind it is not modelled.
- Receive.Fill: requires a minimum capacity other than zero or room in the buffer, which is exactly when the count is positive.
- Receive.StepOf: requires the same as `Receive.Fill`.
- Sock.WaitThenRecvAllData: requires a buffer size other than zero, for the same reason.
- Sock.NewSocketSendReceiveClose: requires that buffer size too.
- `recvAllData` with a controller other than `httpReceiveController`, or with shared controller state.
- The poll-dispatch body of `runServer`: its effects on the table are the events of `ServerRuns.Event`.
- ServerRuns.FreshDescriptorsSuffice: that `accept` returns a descriptor not in the table is assumed; the program itself closes descriptors of records it keeps (`Server.SweepClosesItsOwn`).
- ThreadPools.ThreadPool.DispatchWork: runs without pops in between; those are steps in `ThreadPoolRuns.PushIsLeastLoaded`.
- Address resolution, bind, listen, connect, socket options, thread and mutex wrappers, freeing helpers, logging and Windows branches: calls into foreign code.
- `isValidHttpRequest` and the request and response builders: no function modelled here calls them, and the builders make headers that own their string, which are not serializable (`Serialization.SerializeHttpHeader`).
- Liveness of the thread pool: a lost signal may leave a job waiting, and destruction waits for each worker; only safety is proved, with one dispatcher that also destroys.
- The thread pool's handler and the memory it owns: a handled job is one whose handler has returned.
