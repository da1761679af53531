# Evaluation service: message codec, transport and server, verified

The evaluation service speaks HTTP/1.1 over plain TCP sockets with hand-written parsers and
printers.  A parser pulls chunks of arbitrary size from `recv`, appends them to a buffer and
reads words and lines from a cursor; a printer writes a start line, the headers of an
unordered map and a body.  Around them are the partial-send loop, the worker that validates a
request and dispatches it, the poll loop, the ownership of socket descriptors with the registry
of ports in use, and the logger with its sinks.  This project models all of these and proves
what they are for.  The message format is that of sections 2.1, 3, 4 and 5 of RFC 9112; header
names are case-insensitive by section 5.1 of RFC 9110, and content lengths are those of its
section 8.6.

`dafny verify dfyconfig.toml` checks the whole project.

## How it is laid out

| file | models |
|---|---|
| `Ascii.dfy`, `Text.dfy`, `Numbers.dfy` | `isspace` and `tolower` in the C locale; the lexer as a function of the text still to be read; `std::to_string` and `std::stoul` |
| `Transport.dfy`, `LexerRuns.dfy` | `TCPSocket::send` and `recv` on a connection; the class `SocketStream`; any sequence of calls on it |
| `Messages.dfy`, `Syntax.dfy` | the message types, constructors and printed text; the parsers as functions of the whole text |
| `Codec.dfy` | the parsers and printers with their loops, proved to compute those functions |
| `Grammar.dfy`, `HeaderBlock.dfy` | which texts are accepted and where their bytes go, stated on lines |
| `RoundTrip.dfy`, `Canonical.dfy` | parsing undoes printing; what every parse returns |
| `OnTheWire.dfy` | the method names and the texts of the constructors in characters |
| `Cuts.dfy`, `Truncation.dfy` | start lines and header blocks cut short; messages cut short |
| `Service.dfy`, `HTTPWorker.dfy`, `ServiceLaws.dfy` | the answer to a request; the worker that gives it; what holds of every exchange |
| `Answers.dfy` | what each resource answers to a received text, in words, codes and bodies |
| `Delivery.dfy` | printing, sending, carrying and parsing put together, up to one whole exchange |
| `HTTPServer.dfy`, `ServerLaws.dfy` | the poll loop; what holds of every run |
| `Descriptors.dfy` | `TCPSocket` objects, kernel descriptors, `ports_in_use` |
| `Logger.dfy` | the multi-line format; the registry of sinks |

A text is a sequence of characters standing for bytes.  The kernel is nondeterministic: the
results of the `recv` calls still to come are a sequence of chunks, of which a reader sees those
up to the first empty one; `::send` fails or accepts any positive part of its data; what `socket`,
`accept`, `bind`, `connect` and `::close` answer is an argument of the step that calls them.  `unsigned int` is a subset
type, so every cursor increment is proved not to wrap, or written with the wrap-around; this is
why streams are shorter than 4 GiB (`Transport.Receivable`).  On such texts the program's parsers
return what the pure parsers of `Syntax.dfy` return; on longer ones `remaining` would not end.
What is proved of the pure parsers alone holds of every text.  What is said of the verdict on a
text, or of a client that parses a reply, requires that text to be receivable, and a run of the
server is described if all its texts are (`Server.AllFit`).
The JSON library is a record of functions: what it dumps, and the link it extracts
from a report.  The iteration order of an unordered map is an arbitrary choice.

## Where the code differs from what one would expect

- A stated content length is compared after truncation to 32 bits, so a wrong one of 2^32 or
  more can pass.  `ServiceLaws.StatedLength` says exactly which pass, `ServiceLaws.WrongLengthAccepted` gives a text
  that is received, parsed and dispatched with one, and `ServiceLaws.StatedLengthEnforced` shows that below 2^32 none
  passes.
- A body that is all white space is read as no body, so such a message does not survive the
  round trip; `Canonical.RequestRoundTripIff` and `Canonical.ResponseRoundTripIff` say exactly which messages do.
- A request cut short is not always turned away.  It is dispatched, without its body and without
  the headers that were lost, exactly when the cut is behind the version and before the first
  character of the body that is not white space (`ServiceLaws.DispatchedPrefixIff`); the shortest
  such text ends right behind `HTTP/1.1` (`ServiceLaws.CutBehindVersion`).  A handler never sees a
  shortened body (`ServiceLaws.TruncationDetected`).
- A receiver that gets nothing for as long as its timeout, which a worker sets to 10 ms, takes that
  for the end of the message.  So a request may be sent completely and yet be read as nothing
  (`Delivery.SilenceFirst`), or be served without its body (`Delivery.BodyTooLate`); what decides
  is how much had arrived (`Delivery.DeliverRequest`, `Delivery.Call`).
- Reading a last line without a newline leaves the cursor one past the end of the buffer, where
  `nextWord`, `nextLine` and `remaining` throw.  A `nextLine` that throws there has already moved
  the cursor one further, and no call brings it back (`LexerRuns.CursorBound`, `LexerRuns.PastTheEnd`).
  The parsers are proved never to call them there.
- Header names that differ only in letter case arrive as one; with different values, what arrives
  depends on the iteration order of the map (`RoundTrip.OrderMattersIff`).
- `line.back()` is read only of a non-empty line, and `msg.back()` only of a message that has a
  character other than a newline; in C++ the other cases are undefined.
- `TCPSocket::send` of an empty message returns true even if the kernel reports an error; of any
  other message a true result means that there was none.
- `HTTPServer::run` returns true, not false, when its initialisation fails.
- Closing an accepted socket erases the port of its listener from `ports_in_use`, so not every
  bound port is registered; `Descriptors.World.ErasePort` says exactly when this happens, and
  `Descriptors.World.ForgetListener` does it.
- A `getsockname` that fails in `close` leaves the port registered though nobody has it any more;
  such ports are accounted for (`Descriptors.World.LookUpPort`).
- `create` on an object that holds a descriptor leaks it, and so does a failed `::close` in a
  move assignment or a destructor; every leak is accounted for.
- Adding a log path that is registered already leaves its level alone, yet writes one more
  opening message to it, because the worker is constructed before the map is asked.

## Model

| member | source | states |
|---|---|---|
| Transport.DeliverableOfSplit | Code/evaluation/src/TCPSocket.cpp:363-371 | however a text is cut into non-empty chunks, and whatever follows the first empty one, exactly that text is delivered |
| Transport.Connection.Send | Code/evaluation/src/TCPSocket.cpp:114-135 | the wire gains a prefix of the message, the whole of it exactly when true is returned; a full send gives up only on a kernel error, any other makes one call; a true result means no kernel error, except on an empty message, which is always reported as sent |
| Transport.Connection.Recv | Code/evaluation/src/TCPSocket.cpp:137-153 | the next chunk is taken off the front of what is still to come, and nothing else is lost |
| Transport.SocketStream.Grab | Code/evaluation/src/TCPSocket.cpp:363-367 | the whole text stays the same while the buffer grows, or the end is latched |
| Transport.SocketStream.GrabIfNeeded | Code/evaluation/src/TCPSocket.cpp:369-371 | afterwards the offset is inside the buffer, or the stream has ended and the buffer is the whole text |
| Transport.SocketStream.HasNext | Code/evaluation/src/TCPSocket.cpp:319-326 | looks ahead over any number of chunks without moving the cursor |
| Transport.SocketStream.NextWord | Code/evaluation/src/TCPSocket.cpp:328-337 | for every cursor: yields the next word of the whole text and stops right after it, or throws and stays, exactly past the end |
| Transport.SocketStream.NextLine | Code/evaluation/src/TCPSocket.cpp:339-351 | for every cursor: yields the next line without its terminator, with or without skipping white space, and says where the cursor ends, one past the end included; exactly past the end it throws, with the cursor one further |
| Transport.SocketStream.Remaining | Code/evaluation/src/TCPSocket.cpp:353-361 | for every cursor: yields everything from it to the end of the stream, or throws and stays, exactly past the end |
| Transport.SocketStream.PassedBuffer | Code/evaluation/src/TCPSocket.h:97 | is the whole text before the cursor |
| LexerRuns.Ask | Code/evaluation/src/TCPSocket.cpp:319-361 | one call returns, moves the cursor and throws as the whole text and the cursor decide |
| LexerRuns.AskAll | Code/evaluation/src/TCPSocket.cpp:319-371 | any sequence of calls gives the answers and ends at the cursor that the whole text decides, calls that throw included, so two streams over one text cannot be told apart |
| LexerRuns.CursorBound | Code/evaluation/src/TCPSocket.cpp:339-351 | a call keeps the cursor within one past the end exactly if it is not a `nextLine` made there (or the cursor wraps around) |
| LexerRuns.PastTheEnd | Code/evaluation/src/TCPSocket.cpp:319-361 | in any run of calls past the end every read throws, and the cursor moves by one for each `nextLine` and never back |
| Ascii.WhiteSpaceAndDigits | Code/evaluation/src/TCPSocket.cpp:319-337 | which six characters separate words, and which ten are digits |
| Ascii.Letters | Code/evaluation/src/HTTPServer.cpp:226 | what each of the 26 capital letters becomes, and that nothing else changes |
| Text.HasNextIff | Code/evaluation/src/TCPSocket.cpp:319-326 | true exactly when a character other than white space lies ahead |
| Text.WordAppend | Code/evaluation/src/TCPSocket.cpp:328-337 | a word found in a text is found unchanged, and what follows it kept, in every continuation that starts with white space |
| Text.LineOf | Code/evaluation/src/TCPSocket.cpp:345-350 | a written line is read back less one trailing carriage return, and the text after it is left |
| Text.LineEnded | Code/evaluation/src/TCPSocket.cpp:345-350 | a line ended by both characters, or by a newline alone if its last character is no carriage return, is read back exactly |
| Text.FindInPassed | Code/evaluation/src/HTTPServer.cpp:203 | searching what was passed for a newline is searching the whole text up to the cursor |
| Numbers.ValueOfDecimal | Code/evaluation/src/HTTPServer.cpp:31 | the value of a printed number is that number |
| Numbers.DecimalDigits | Code/evaluation/src/HTTPServer.cpp:31 | the digits of a number from the first to the last |
| Numbers.StoulOfDecimal | Code/evaluation/src/HTTPServer.cpp:246 | reading a printed number gives it back whatever follows its digits, and fails from 2^64 on |
| Numbers.StoulIs | Code/evaluation/src/HTTPServer.cpp:175 | what is read from any white space, sign, digits and tail: the value, its negative modulo 2^64 after a minus, a failure without digits or beyond 64 bits |
| Messages.MethodTables | Code/evaluation/src/HTTPServer.h:14-41 | each of the nine names stands for its method and each method prints as its name; every other word stands for none |
| OnTheWire.MethodOnText | Code/evaluation/src/HTTPServer.h:14-41 | a text that starts with a method name, a resource and a version parses to that method, resource and version, with the headers and the body behind |
| OnTheWire.PostOnText | Code/evaluation/src/HTTPServer.cpp:199-220 | `POST`, a resource and `HTTP/1.1` parse to POST and that version |
| OnTheWire.PostPrinted | Code/evaluation/src/HTTPServer.cpp:40-42 | exactly the requests whose method is POST print with `POST ` in front |
| OnTheWire.JsonRequestText | Code/evaluation/src/HTTPServer.cpp:24-47 | a request of the JSON constructor, character by character, up to the order of its two headers |
| OnTheWire.JsonResponseText | Code/evaluation/src/HTTPServer.cpp:54-81 | the same for a reply |
| OnTheWire.PlainResponseText | Code/evaluation/src/HTTPServer.cpp:49-81 | the same for a reply without a body |
| Codec.ReadField | Code/evaluation/src/HTTPServer.cpp:225-229 | the two character loops lower-case the name and skip to the value |
| Codec.ReadHeaders | Code/evaluation/src/HTTPServer.cpp:221-231 | on any chunking the loop builds the map of the header block and leaves its rest |
| Codec.ReadBody | Code/evaluation/src/HTTPServer.cpp:232-235 | the body is everything left, or empty if that is all white space |
| Codec.ReadRequestLine | Code/evaluation/src/HTTPServer.cpp:199-220 | on any chunking the checks on the start line decide as on the whole text |
| Codec.ReadStatusLine | Code/evaluation/src/HTTPServer.cpp:243-256 | the same for a status line |
| Codec.ParseRequest | Code/evaluation/src/HTTPServer.cpp:195-237 | for every chunking the result is that of the pure parser on the delivered text; no call throws, the cursor ends at most one past the end, and the loops end |
| Codec.ParseResponse | Code/evaluation/src/HTTPServer.cpp:239-276 | the same for responses |
| Codec.PrintHeaders | Code/evaluation/src/HTTPServer.cpp:44 | whatever order the map is walked in, its entries are written once each |
| Codec.PrintRequest | Code/evaluation/src/HTTPServer.cpp:40-47 | the text is the printed request for some enumeration of its headers |
| Codec.PrintResponse | Code/evaluation/src/HTTPServer.cpp:75-81 | the same for a response |
| Grammar.RequestLineGrammar | Code/evaluation/src/HTTPServer.cpp:199-220 | accepted exactly when the first line has three words of which the first is a method, whatever follows; the rest of the text is left |
| Grammar.StatusLineGrammar | Code/evaluation/src/HTTPServer.cpp:243-256 | accepted exactly when a newline ends the first line and that line says a version, a number with non-zero low 32 bits and a reason |
| HeaderBlock.RawBlockRead | Code/evaluation/src/HTTPServer.cpp:221-231 | header lines in front of any text are read one by one, and the text after them as if they were not there |
| HeaderBlock.AssignLastWins | Code/evaluation/src/HTTPServer.cpp:229 | of several lines with one name the last counts, and no other name gets in |
| HeaderBlock.HeaderMapIsClean | Code/evaluation/src/HTTPServer.cpp:221-231 | parsed names are lower case without colon or newline; values have no newline and no leading white space |
| HeaderBlock.BlockConserved | Code/evaluation/src/HTTPServer.cpp:221-236 | a header block is its field lines, then the line that ended it, then the rest, without losing a byte |
| HeaderBlock.FieldLinesGiveFields | Code/evaluation/src/HTTPServer.cpp:221-231 | each consumed line has a colon and gives the field at its own position |
| RoundTrip.RequestAccepted | Code/evaluation/src/HTTPServer.cpp:195-237 | a text is a request exactly when its first line is three words starting with a method, and what each part of the result is |
| RoundTrip.ResponseAccepted | Code/evaluation/src/HTTPServer.cpp:239-276 | the same for responses |
| RoundTrip.MessageConserved | Code/evaluation/src/HTTPServer.cpp:210-274 | the text is its first line, the field lines, the terminator and a rest; the body is that rest or empty if it is white space |
| RoundTrip.HeaderCaseIgnored | Code/evaluation/src/HTTPServer.cpp:225-226 | changing the letter case of header names changes no parse, for every first line and every continuation |
| RoundTrip.ArrivedIs | Code/evaluation/src/HTTPServer.cpp:44 | when colliding names agree the order of printing is irrelevant to the headers that arrive |
| RoundTrip.OrderMattersIff | Code/evaluation/src/HTTPServer.cpp:44 | two orders of printing lead to different headers exactly when two colliding names carry different values |
| RoundTrip.RequestRoundTrip | Code/evaluation/src/HTTPServer.cpp:40-237 | a sendable request printed in any header order parses to itself with lower-case names |
| RoundTrip.ResponseRoundTrip | Code/evaluation/src/HTTPServer.cpp:75-276 | the same for responses |
| Canonical.ParsedRequestIsSendable | Code/evaluation/src/HTTPServer.cpp:195-237 | every parsed request can be sent again, with lower-case names |
| Canonical.ParsedResponseIsSendable | Code/evaluation/src/HTTPServer.cpp:239-276 | every parsed response can be sent again, with lower-case names |
| Canonical.RequestRoundTripIff | Code/evaluation/src/HTTPServer.cpp:40-237 | the round trip holds exactly for the sendable requests |
| Canonical.ResponseRoundTripIff | Code/evaluation/src/HTTPServer.cpp:75-276 | the round trip holds exactly for the sendable responses |
| Canonical.RequestReparse | Code/evaluation/src/HTTPServer.cpp:40-237 | for every text, printing what was parsed and parsing that gives the same result |
| Canonical.ResponseReparse | Code/evaluation/src/HTTPServer.cpp:75-276 | the same for responses |
| Canonical.RequestTextUnambiguous | Code/evaluation/src/HTTPServer.cpp:40-47 | two sendable requests printed as one text are one request, letter case and order of the headers included |
| Canonical.ResponseTextUnambiguous | Code/evaluation/src/HTTPServer.cpp:75-81 | the same for responses |
| Cuts.CutWords | Code/evaluation/src/HTTPServer.cpp:199-203 | of three words cut anywhere, all three are read only if nothing is missing; a third one that is left is too short |
| Cuts.CutFields | Code/evaluation/src/HTTPServer.cpp:221-231 | the fields read from a printed header block cut anywhere: all, exactly if no more than its line ends is missing, in the amount that the last value decides; otherwise fewer, or the last with a wrong value |
| Truncation.PrefixParsed | Code/evaluation/src/HTTPServer.cpp:195-237 | what every prefix of a printed request parses to: nothing or a version that is too short, then a request without a body and with the headers that are left, then one with a shorter body |
| Truncation.RequestSurvivesIff | Code/evaluation/src/HTTPServer.cpp:40-237 | a cut request parses to the request that was sent exactly when no more than its slack is missing, which is nothing if it has a body |
| Truncation.ResponsePrefixParsed | Code/evaluation/src/HTTPServer.cpp:239-276 | what every prefix of a printed response parses to: nothing, a response without a body, one with a shorter body |
| Truncation.ResponseSurvivesIff | Code/evaluation/src/HTTPServer.cpp:75-276 | the same for responses, whose status line must be complete with its line end |
| ServiceLaws.DispatchedIff | Code/evaluation/src/HTTPServer.cpp:158-192 | a request with a body reaches a handler exactly under the version and length conditions |
| ServiceLaws.StatedLength | Code/evaluation/src/HTTPServer.cpp:173-189 | of the printed lengths exactly those below 2^64 that agree with the body modulo 2^32 pass |
| ServiceLaws.StatedLengthEnforced | Code/evaluation/src/HTTPServer.cpp:173-189 | below 2^32 only the right length passes |
| ServiceLaws.WrongLengthAccepted | Code/evaluation/src/HTTPServer.cpp:149-237 | a received text that parses to a request of five bytes declared as 4294967301, and is dispatched |
| ServiceLaws.SelfConsistent | Code/evaluation/src/HTTPServer.cpp:149-193 | a sendable request that states its own length, printed in any header order and received whole, reaches the handler of its resource with its body intact |
| ServiceLaws.JsonRequestServed | Code/evaluation/src/HTTPServer.cpp:24-237 | a request from the JSON constructor, printed in any header order and parsed, is dispatched to its resource with method and body unchanged and with the content type and length that were set |
| ServiceLaws.ReportServed | Code/evaluation/src/HTTPServer.cpp:278-337 | a report posted that way is answered with 200 exactly if the link is found in it, and with 400 otherwise; the click is due to be forwarded exactly if the link is not empty |
| ServiceLaws.TruncationDetected | Code/evaluation/src/HTTPServer.cpp:149-193 | cut short anywhere, such a request never reaches a handler with a shortened body |
| ServiceLaws.DispatchedPrefixIff | Code/evaluation/src/HTTPServer.cpp:149-237 | a prefix of such a request is dispatched exactly when it reaches the end of the version and stops before the body has anything but white space, or is whole; what the handler then sees, and the code of the error otherwise |
| ServiceLaws.CutBehindVersion | Code/evaluation/src/HTTPServer.cpp:149-237 | a text that ends right behind the version, with whatever request it began, is served as one without headers and body |
| ServiceLaws.VerdictOnText | Code/evaluation/src/HTTPServer.cpp:149-237 | for every receivable text: which verdict it gets, the three causes of 400 included, told from its first line, its header map and what is behind the header block |
| Answers.RefusalOnText | Code/evaluation/src/HTTPServer.cpp:149-190 | the version, code, status, headers and body of the reply to every text that fails a check, by the first check that it fails |
| Answers.DispatchedAsks | Code/evaluation/src/HTTPServer.cpp:149-192 | the texts that reach a handler are exactly those of a method name, a resource and `HTTP/1.1` with no body or one of the stated length |
| Answers.AnswerOnText | Code/evaluation/src/HTTPServer.h:91-124 | for each resource by its name, and for any other: the version, code, status, headers and body of the reply, the forward and the next query ID |
| Answers.ReportOnText | Code/evaluation/src/HTTPServer.cpp:278-336 | for reports: 405 exactly if not posted, 400 exactly if posted without the content type or without a link, 200 otherwise; the forwarded request field by field |
| Answers.QueryIdOnText | Code/evaluation/src/HTTPServer.h:107-110 | the shortest request for a query ID, character by character, is told the current one and advances it |
| ServiceLaws.RepliesAreReadable | Code/evaluation/src/HTTPServer.cpp:49-81 | whatever was received, a client that receives the reply whole parses exactly the reply that was meant |
| ServiceLaws.ForwardIff | Code/evaluation/src/HTTPServer.cpp:278-337 | a click is forwarded exactly for a well-formed report with a link, and then the reply is 200 |
| ServiceLaws.ClickArrives | Code/evaluation/src/HTTPServer.cpp:326-335 | a forwarded click, received whole, is dispatched to its resource with its body intact |
| Worker.HTTPWorker.Reply | Code/evaluation/src/TCPSocket.h:75-84 | one attempt to send the printed reply, a prefix of which reaches the wire |
| Worker.HTTPWorker.Run | Code/evaluation/src/HTTPServer.cpp:149-193 | exactly one reply, decided by the received text and the query ID, then the forward due, exactly if Link Analysis can be reached; for every chunking and every partial send |
| Worker.HTTPWorker.Forward | Code/evaluation/src/HTTPServer.cpp:313-335 | if Link Analysis can be reached, a prefix of the printed request is written to it, and nothing otherwise |
| Worker.HTTPWorker.Check | Code/evaluation/src/HTTPServer.cpp:157-192 | the checks of a parsed request give the reply that the verdict calls for |
| Worker.HTTPWorker.WrongLength | Code/evaluation/src/HTTPServer.cpp:173-189 | the stated length is refused with the message that belongs to its fault, or lets the request be dispatched |
| Worker.HTTPWorker.Dispatch | Code/evaluation/src/HTTPServer.h:91-124 | the handler of the resource gives its reply, and only the query-ID handler advances the counter; `Answers.AnswerOnText` says which those are |
| Worker.HTTPWorker.ReportResults | Code/evaluation/src/HTTPServer.cpp:278-338 | the replies of the report handler, and the forward after a reply of 200 only; `Answers.ReportOnText` says which those are |
| Delivery.DeliverRequest | Code/evaluation/src/TCPSocket.cpp:114-153 | a request is printed, sent, carried in any pieces and parsed by a peer that may stop waiting anywhere: the peer has the request that was sent exactly when no more than its slack had not arrived, with a body exactly when all of it had, and then the send succeeded; if the peer sees any body, all else is as sent and the body is a prefix |
| Delivery.SilenceFirst | Code/evaluation/src/TCPSocket.cpp:137-149 | a peer that meets silence first parses nothing, although the whole text follows |
| Delivery.BodyTooLate | Code/evaluation/src/HTTPServer.cpp:149-237 | a request whose head arrives in time and whose body does not is dispatched without its body |
| Delivery.Call | Code/evaluation/src/HTTPServer.cpp:24-338 | one client, both directions, either send giving up and either receiver stopping anywhere: a request that arrived whole is handled as asked; of any other, the exact request without a body that is handled instead, or the exact code of the error; the client has the reply exactly when no more than its last line end is missing, and of a body nothing |
| Server.HTTPServer.Run | Code/evaluation/src/HTTPServer.cpp:102-147 | the clients served are those of `Server.ServedAt`; the events of a run are the exchanges with them in order, and each socket, to Link Analysis too, was written a prefix of its own message and nothing else; the result is that of the first stopping outcome, or true without initialisation; the counter ends at the ID after the last exchange |
| Server.AcceptedAreServed | Code/evaluation/src/HTTPServer.cpp:113-145 | the clients accepted are, in order, all those that `accept` gave at an outcome with the listener readable, before the first failed poll or shutdown |
| ServerLaws.OneOutcome | Code/evaluation/src/HTTPServer.cpp:113-146 | what each kind of outcome does: a failed poll and a shutdown end the run, a timeout, an event on neither descriptor and a failed `accept` serve nobody, a client on the listener is served |
| ServerLaws.OneReplyPerClient | Code/evaluation/src/HTTPServer.cpp:136-144 | replies attempted and clients accepted are equal in number and order |
| ServerLaws.ServiceForwardsFollowOK | Code/evaluation/src/HTTPServer.cpp:306-336 | over a whole run a forward directly follows a reply of 200 to its own client |
| ServerLaws.ClientToServerAndBack | Code/evaluation/src/HTTPServer.cpp:24-276 | a JSON request, in any header order and any chunking, delivered whole before the first empty `recv`, gets exactly the exchange of its handler on the method, body, content type and length that were sent, and the client parses exactly the reply given |
| ServerLaws.NothingAfterStop | Code/evaluation/src/HTTPServer.cpp:117-128 | nothing is accepted once shutdown is reported or poll has failed, not even in the same outcome |
| ServerLaws.AcceptedAppend | Code/evaluation/src/HTTPServer.cpp:113-145 | without a stop, what two parts of a run accept adds up |
| ServerLaws.OutcomeIs | Code/evaluation/src/HTTPServer.cpp:117-146 | the run returns at the first stopping outcome, true exactly for a shutdown |
| ServerLaws.ExchangeAt | Code/evaluation/src/HTTPServer.h:107-110 | what a client meets depends on those before it only through the number of IDs they asked for |
| ServerLaws.IdTold | Code/evaluation/src/HTTPServer.h:107-110 | the k-th request for an ID is told k above the first, modulo 2^32 |
| ServerLaws.AsksForId | Code/evaluation/src/HTTPServer.h:91-110 | the clients that ask for an ID are those whose text has that resource as its second word and passes the checks |
| ServerLaws.IdsRepeatIff | Code/evaluation/src/HTTPServer.h:107-110 | two clients that ask for an ID get equal replies exactly when a multiple of 2^32 IDs were handed out from the one to the other |
| ServerLaws.FinalIdIs | Code/evaluation/src/HTTPServer.h:107-110 | after a run the counter has advanced by the number of clients that asked for an ID, modulo 2^32 |
| ServerLaws.ClientsReadTheirReplies | Code/evaluation/src/HTTPServer.cpp:136-144 | over a whole run, what a client parses from its wire has the version, code and status of its own reply and a prefix of its body |
| Descriptors.World.Create | Code/evaluation/src/TCPSocket.cpp:65-81 | a new descriptor is owned by the object alone, exactly if the kernel gave one; one it held before is leaked |
| Descriptors.World.KernelClose | Code/evaluation/src/TCPSocket.cpp:102 | every close is of an open descriptor that no other object holds |
| Descriptors.World.LookUpPort | Code/evaluation/src/TCPSocket.cpp:94-95 | outside the lock: the port is remembered until it is erased, or the lookup fails and the port may stay registered for nobody |
| Descriptors.World.ErasePort | Code/evaluation/src/TCPSocket.cpp:96-99 | the local port leaves the registry, which stays complete exactly when no other socket has that port |
| Descriptors.World.ForgetListener | Code/evaluation/src/TCPSocket.cpp:83-256 | closing a client accepted from a bound listener leaves the listener open on a port that is no longer registered |
| Descriptors.World.FinishClose | Code/evaluation/src/TCPSocket.cpp:102-111 | the descriptor is closed and the object emptied, or both stay as they were |
| Descriptors.World.Close | Code/evaluation/src/TCPSocket.cpp:83-112 | all steps together: what becomes of descriptor, port and object for either result, and a refusal to close a closed socket |
| Descriptors.World.MoveConstruct | Code/evaluation/src/TCPSocket.cpp:37-44 | descriptor and timeouts change owner |
| Descriptors.World.MoveAssign | Code/evaluation/src/TCPSocket.cpp:46-57 | also to itself: the old descriptor is closed, or leaked when that fails, its port is unregistered, and the new one has one owner, with its timeouts |
| Descriptors.World.Destroy | Code/evaluation/src/TCPSocket.cpp:59-63 | the descriptor is closed, or leaked when that fails, and its port is unregistered |
| Descriptors.World.Accept | Code/evaluation/src/TCPSocket.cpp:239-256 | a fresh object owns the new descriptor, exactly if the kernel gave one, and has its listener's port |
| Descriptors.World.Bind | Code/evaluation/src/TCPSocket.cpp:187-222 | succeeds exactly for a port that is not registered, on an unbound socket, with the kernel's consent; then registers the port asked for |
| Descriptors.World.Connect | Code/evaluation/src/TCPSocket.cpp:258-288 | when it succeeds, and that it gives an unbound socket a port and changes no other |
| Descriptors.World.OneOwner | Code/evaluation/src/TCPSocket.cpp:32-63 | no two objects hold one descriptor, and a held descriptor is open |
| Descriptors.World.Interleave | Code/evaluation/src/TCPSocket.cpp:32-256 | every interleaving of these steps, those of `close` and of the move assignment or destruction around it one by one, keeps ownership and the soundness of the registry |
| Logger.Format | Code/evaluation/src/Logger.cpp:62-72 | the loop writes the message without trailing newlines and with the margin after every newline |
| Logger.UnindentIndent | Code/evaluation/src/Logger.cpp:65-72 | taking the margin away recovers any message |
| Logger.FormatLossless | Code/evaluation/src/Logger.cpp:59-74 | the emitted text gives the message back exactly when it does not end in a newline |
| Logger.Workers.AddWorker | Code/evaluation/src/Logger.cpp:35-42 | the path is registered at this level unless it is registered already, and its sink alone gets an opening entry; registry and sinks stay what the history makes them |
| Logger.Workers.ChangeLevel | Code/evaluation/src/Logger.cpp:44-47 | a registered path has the new level and its sink alone gets an entry with both levels; it fails exactly on a path that is not registered, without effect |
| Logger.Workers.RemoveWorker | Code/evaluation/src/Logger.cpp:49-52 | the path is not registered any more, and nothing else changes |
| Logger.Workers.LogAll | Code/evaluation/src/Logger.cpp:54-57 | in whatever order the workers are visited, each sink gets the formatted message exactly if its path is registered at this level or a more verbose one |
| Logger.Verbosity | Code/evaluation/src/Logger.h:16 | the six levels from the least to the most verbose |
| Logger.MarginIs | Code/evaluation/src/Logger.cpp:69 | the margin is 36 blanks and an arrow |
| Logger.LevelIs | Code/evaluation/src/Logger.cpp:35-52 | the level of a path at any time is that of the last change since the `Add` that registered it, or else of that `Add` |
| Logger.RegisteredIff | Code/evaluation/src/Logger.cpp:35-52 | a path is registered exactly if some `Add` of it has no later `Remove` |
| Logger.VerboseHears | Code/evaluation/src/Logger.cpp:44-81 | a path made more verbose gets a message that it would not have got |
| Logger.MessagesAreHeard | Code/evaluation/src/Logger.cpp:54-61 | the messages of a sink are the history filtered by registration and level at the time, in order |
| Logger.SinksAreIndependent | Code/evaluation/src/Logger.cpp:35-57 | a sink depends only on operations on its own path and on the messages |
| Logger.SinksGrow | Code/evaluation/src/Logger.cpp:59-81 | what a sink has received stays in place |
| Logger.ReAdding | Code/evaluation/src/Logger.cpp:35-42 | adding a registered path changes no level and no message, and greets the sink once more |

## Left out

- Transport.Connection.Send: messages of 4 GiB or more, for which the `unsigned int` count of bytes sent wraps around.
- Transport.SocketStream.NextLine: streams of 4 GiB or more, for which the cursor wraps around.
- ServiceLaws.SelfConsistent: received texts of 4 GiB or more, as in every statement that requires `Receivable`; `remaining` then never reaches the end of its buffer, so there is no verdict.
- Truncation.RequestSurvivesIff: requests without a body in which header names collide; a longer cut can then give the headers that were sent where a shorter one does not, so it is not an amount that decides. `Truncation.PrefixParsed` covers them.
- Worker.HTTPWorker.Run: how Link Analysis is reached; whether it can be is given to each worker, and free in `Server.HTTPServer.Run`.
- Descriptors.World.Interleave: two threads using one `TCPSocket` object at the same time.
- Server.HTTPServer.Run: the poll loop is followed over finite sequences of outcomes; a run that has used one up counts as blocked.
- Logger.FormatLossless: time stamps and colour codes around the emitted text, and the prefix and the removal of carriage returns before it.
- Bytes outside ASCII, other locales, and what the JSON library does with text that is not UTF-8; nlohmann/json is not part of this model beyond what it dumps and extracts.
- `setTimeout`, `listen`, `getIP` and the text of log messages: system calls and formatting without further logic.
- `main.cpp`, `evaltool.py`, the unit and component tests, and the Makefiles: option parsing, signals and test set-up.
- Uniqueness of query IDs across restarts: the counter lives in memory only.
- Creation of log directories and files, and two log paths that name one file.
