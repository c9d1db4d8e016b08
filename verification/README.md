# A verified model of the AXTP runtime and its generators

AXTP lets a client call methods of a device over framed binary transports or JSON-RPC on WebSockets. This project
models, in Dafny, the parts whose guarantees span many calls, and proves those guarantees for every input and
every run. `dafny verify dfyconfig.toml` checks all of it.

- **SDK client** (`AxtpClient`, with `AxtpCore`, `IdentifyAnswers`, `PendingCallTable`, `RequestIds`): the resumable
  handshake OPEN/ACCEPT, HELLO, IDENTIFY/IDENTIFIED, and which IDENTIFY an IDENTIFIED answers; wrapping request ids;
  synchronous calls under one absolute deadline. A ghost history of each physical session records what reached the
  wire and how each request ended; the law it obeys is kept by every public operation and so holds for every program
  (`Drive`).
- **CONTROL session** (`ControlSession`, `ControlTlvCodec`, `ControlNetwork`): one end as a class, its wire format
  as a round trip, and two ends over a network that loses, duplicates and reorders frames.
- **WebSocket JSON-RPC** (`Json`, `SessionIds`, `JsonRpcAdapter`, `JsonRpcReplies`, `JsonRpcRuns`, `RpcClientSession`,
  `JsonRpcHandshake`): the adapter, what each message is answered with and to whom, its gate over any run, the client
  side, and both joined by ordered channels.
- **Endpoint identity** (`Sha256Padding`, `Sha256Words`, `Sha256Constants`, `Sha256`, `EndpointIdentity`): SHA-256
  of FIPS 180-4 as recursive functions, the in-place block code proved equal to them, and ids made from digests.
- **Method registry** (`MethodRegistry`): the two-map index as a relation, against a linear scan of the table.
- **Generator validators** (`RegistryItems`, `BitOffsets`, `DomainRegistry`, `SourceValidator`,
  `ProtocolValidator`, `GeneratedTable`, `GeneratorUtil`): each one-pass check with its exact condition, and the
  chain from an accepted method list to a registry that agrees with the scan.

`AxtpTypes` and `Numbers` hold what several of these share. Objects that update fields are classes whose methods are
tied to functions on values; the theorems about runs are lemmas about those functions.

## Assumptions

- Callbacks (progress, cancellation, handlers, trace) do not call back into the client, and the trace callback does
  not throw.
- Inbound payloads, hook results, exceptions of polls, hooks and sends, and the passing of time are arbitrary, except
  that the clock never goes back and a sleep lasts at least one millisecond. Writers of the adapter may throw standard
  exceptions, before or after the bytes have left.
- A send that throws may still have put its frame on the wire. For a request the model counts it as sent. An IDENTIFY
  whose send throws is counted apart, because the client does not mark it outstanding.
- Each queued IDENTIFIED carries a ghost tag, the IDENTIFY of its core that it answers. Tags are arbitrary; a core
  records whether they fit an honest peer, one that answers in order and each IDENTIFY at most once. Only statements
  about which IDENTIFY was answered ask for an honest peer.
- OPEN ids may be zero; only heartbeats skip zero. The CONTROL theorems assume that OPEN ids are not reused. The client
  meets this for 2^16 draws on a core (`AxtpClient.AxtpClient.OpenIdsAreFresh`, `ControlNetwork.AllocatedIdsRepeat`),
  and without it the theorems fail after every run that sent an OPEN (`ControlNetwork.ReusedIdBreaks`).
- Ids in the generators are exact integers, bit offsets and high bytes are arbitrary reals.

## Where an expected property fails

- A comment in the client (`include/sdk/axtp_client.hpp:416-419`) says that resuming keeps a late response from being
  mistaken for that of a newer handshake. It is mistaken on two inputs: when an IDENTIFY left although its send threw
  (`IdentifyAnswers.ThrownSendIsAnsweredLate`), and when a session was closed with its IDENTIFIED in the queue
  (`IdentifyAnswers.ClosedSessionAnswersNext`). The exact condition is one a caller sees: on the core no IDENTIFY send
  threw and no session was closed while it waited (`IdentifyAnswers.AnswersLatestExactly`). Every handshake of a client
  on such a core reports the seed that was answered (`AxtpClient.AxtpClient.EnsureAppReady`).
- A client that keeps its session over a reconnect can be established with an adapter that has no session, when its
  REIDENTIFY is handled before the adapter notices the connection (`JsonRpcHandshake.KeptSessionBreaks`). Agreement is
  guaranteed exactly for clients that come to a connection without a session id
  (`JsonRpcHandshake.AgreementGuaranteedIff`).
- A REQUEST can be forwarded although no IDENTIFIED reached the peer: the adapter opens its gate before it writes the
  answer (`JsonRpcRuns.LostAnswerOpensGate`).
- The comment on `tryTakeControlNotice` says that notices it does not take keep their order; the model follows the
  code. A hit in the middle of the queue rotates it, so later notices overtake earlier ones;
  `AxtpCore.ScanKeepsOrder` gives the exact condition.
- One HELLO per connection activation fails for one extra HELLO when the first connection reports generation zero, and
  for activations superseded before a HELLO could be written (`JsonRpcRuns.OneHelloPerActivation`).
- Session ids of one seed are not all distinct: the fallback for zero repeats one id for every seed but one
  (`SessionIds.FallbackRepeats`).
- The duplicate checks of the generators read a stored empty name as absent (`RegistryItems.NoneNoticedIff`).
- High bytes wrap: an id beyond 16 bits can pass (`SourceValidator.WideIdPasses`), but none within 32 bits
  (`SourceValidator.AcceptedIdsFit`), and error codes at or below 0xFF that wrap into a registry byte, and only those,
  escape the category check (`ProtocolValidator.WrappedCodeBreaks`).
- A registry can agree with the linear scan although the table uses one id for two names, when rows repeat
  (`MethodRegistry.RepeatsCanHideAClash`).

## Model

| member | source | states |
|---|---|---|
| `AxtpClient.LawfulEndsOnce` | include/sdk/axtp_client.hpp:627-678 | In a session at rest that obeys the law every operation keeps, each id that reached the wire was answered or abandoned, exactly once and never both |
| `AxtpClient.SendingKeepsLaw` | include/sdk/axtp_client.hpp:627-634 | Sending a fresh non-zero id keeps the session law, with that id as the one in flight |
| `AxtpClient.EndingKeepsLaw` | include/sdk/axtp_client.hpp:643-678 | Answering or abandoning the request in flight brings the session law back to rest |
| `AxtpClient.AxtpClient.Close` | include/sdk/axtp_client.hpp:113-127 | The transport is closed once if there is one. Either it throws and nothing else changes, or the session ends: its history joins the past ones, no id stays used, nothing is outstanding and no response can be matched any more. The core stays orderly exactly if it was and no answer was awaited; session messages that wait in the core stay there on both exits |
| `AxtpClient.AxtpClient.EndSession` | include/sdk/axtp_client.hpp:117-126 | The client invariant survives the end of a session, and the core is orderly afterwards exactly if it was before and no answer was awaited |
| `AxtpClient.AxtpClient.ResetSession` | include/sdk/axtp_client.hpp:117-123 | Every field of the handshake and every used id is cleared, and the history of the session joins the past ones |
| `AxtpClient.AxtpClient.AttachTransport` | include/sdk/axtp_client.hpp:56-77 | The old transport is closed and the new one opened, if that is automatic, once each. A new physical session starts with an empty history and a fresh core that no session has used, hence an orderly one, or an exception leaves a valid client; it is connected exactly when a transport was given and opening it did not throw |
| `AxtpClient.AxtpClient.Poll` | include/sdk/axtp_client.hpp:250-254 | Whatever arrives goes into the queues, the table and the control session of the core, in order; the client invariant is kept, even when the poll throws, and nothing is sent |
| `AxtpClient.AxtpClient.AllocateRequestId` | include/sdk/axtp_client.hpp:900-918 | Fails if and only if all 2^32-1 non-zero ids are used; otherwise returns the first unused id in cyclic order from the cursor, never zero, and moves the cursor past it; it always ends |
| `AxtpClient.AxtpClient.ClaimRequestId` | include/sdk/axtp_client.hpp:880-886 | A claim succeeds exactly when the wanted id, or for zero some id, is unused; the claimed id was used by no request of this session |
| `AxtpClient.AxtpClient.NormalizeRequest` | include/sdk/axtp_client.hpp:870-898 | Succeeds exactly when the endpoint metadata is acceptable and the wanted id (or, for zero, some id) is unused; the claimed id was used by no request of this session, and operation, body encoding and session id are filled in |
| `AxtpClient.AxtpClient.ReleaseUnsentRequestId` | include/sdk/axtp_client.hpp:577-584 | A claimed id that was not sent becomes free again and nothing else changes |
| `AxtpClient.AxtpClient.BeginPass` | include/sdk/axtp_client.hpp:336-346 | One poll and the progress hook; a pass goes on exactly if neither throws, and a failing hook ends the wait with an internal error that is stored as the result |
| `AxtpClient.AxtpClient.EndPass` | include/sdk/axtp_client.hpp:348-366 | Cancellation, then the deadline, then a sleep: going on means that time was left and at least a millisecond passed, and a stop names its one reason: an exception is an internal error, the wish of the caller a cancellation, and only a deadline that has passed a timeout |
| `AxtpClient.AxtpClient.AcceptIdentified` | include/sdk/axtp_client.hpp:378-408 | Consuming IDENTIFIED clears the outstanding mark on both branches; a sid makes the client ready, an empty one is a payload error; recorded is which IDENTIFY it answers |
| `AxtpClient.AxtpClient.TakeHello` | include/sdk/axtp_client.hpp:503-512 | Takes a HELLO exactly when one is queued, and counts it |
| `AxtpClient.AxtpClient.TakeIdentified` | include/sdk/axtp_client.hpp:378 | Takes the first queued IDENTIFIED exactly when there is one; on an orderly core, or after an IDENTIFY sent on a quiet one, it answers the latest IDENTIFY, and an orderly core is quiet afterwards |
| `AxtpClient.AxtpClient.TakeNotice` | include/sdk/axtp_client.hpp:449-450 | Takes a notice of this opcode and id exactly when one is queued, and leaves none behind when there is none |
| `AxtpClient.AxtpClient.SendControlOpen` | include/sdk/axtp_client.hpp:434-436 | Uses the next 16-bit control id and moves the session to waiting for its ACCEPT |
| `AxtpClient.AxtpClient.OpenIdsAreFresh` | include/sdk/axtp_client.hpp:434 | Within 2^16 draws of the control id counter the OPEN ids of a core are pairwise distinct, over all sessions that used it, heartbeats in between included |
| `AxtpClient.AxtpClient.DrawControlId` | include/sdk/axtp_client.hpp:189-192 | Every draw takes the next 16-bit id and is counted |
| `AxtpClient.AxtpClient.SendIdentify` | include/sdk/axtp_client.hpp:539-542 | A send that returned has left and marks the IDENTIFY outstanding; one that threw may have left too and marks nothing |
| `AxtpClient.AxtpClient.IdentifyWith` | include/sdk/axtp_client.hpp:527-542 | Marks the IDENTIFY outstanding with its seed exactly when the send returned normally; a throwing send is counted, which ends orderliness; recorded is whether the core was quiet, and an orderly one always is |
| `AxtpClient.AxtpClient.AlreadyReady` | include/sdk/axtp_client.hpp:310-320 | A ready client reports its session and the seed of the latest IDENTIFY sent; on an orderly core with an honest peer that is the IDENTIFY that was answered |
| `AxtpClient.AxtpClient.ReadyAnswers` | include/sdk/axtp_client.hpp:378-408 | In every ready state of an orderly core (no IDENTIFY send on it threw, no session on it was closed while it waited) with an honest peer, the IDENTIFIED consumed answers the latest IDENTIFY, whose seed is stored; also when the latest IDENTIFY was sent on a quiet core |
| `IdentifyAnswers.AnswersLatestIff` | include/sdk/axtp_client.hpp:368-430 | For every state of a core: whatever a peer that answers in order and at most once sends later, the first IDENTIFIED in the queue answers the IDENTIFY just sent, if and only if no earlier one could still be answered and none was queued |
| `IdentifyAnswers.AnswersLatestExactly` | include/sdk/axtp_client.hpp:368-430 | The condition a caller can check, for every run of a core: over all runs that look the same to the caller, the next answer is sure to be that of the IDENTIFY about to be sent, if and only if no earlier IDENTIFY send threw and no session was closed while it waited |
| `IdentifyAnswers.RunFits` | include/sdk/axtp_client.hpp:368-430 | An orderly core is quiet whenever no answer is awaited, and otherwise only the IDENTIFY waited for is open |
| `IdentifyAnswers.SlowPeer` | include/sdk/axtp_client.hpp:527-543 | For every run there is one that looks the same to the caller, in which the answers of a slow honest peer lag behind by what was never answered |
| `IdentifyAnswers.ArrivalsStayTight` | include/sdk/axtp_client.hpp:378-389 | On a quiet core an honest peer has nothing to answer, and otherwise at most the latest IDENTIFY |
| `IdentifyAnswers.ThrownSendIsAnsweredLate` | include/sdk/axtp_client.hpp:527-543 | The comment at 416-419 fails: an IDENTIFY left although its send threw, and its late answer is taken for the answer to the next IDENTIFY, whose other seed is reported |
| `IdentifyAnswers.ClosedSessionAnswersNext` | include/sdk/axtp_client.hpp:113-127 | It fails for a closed session too: its queued IDENTIFIED completes the next handshake on the same core |
| `IdentifyAnswers.ArrivalsKeep` | include/core/runtime/core/axtp_core.hpp:298-316 | Answers that arrive keep the line valid, add no IDENTIFY, only extend the queue, and keep a settled line settled |
| `AxtpClient.SendingMatches` | include/sdk/axtp_client.hpp:539-542 | An IDENTIFY sent on a quiet core is settled: only it can be answered; an orderly core stays tight |
| `AxtpClient.TakingMatches` | include/sdk/axtp_client.hpp:378-389 | On a settled core the IDENTIFIED taken answers the outstanding IDENTIFY |
| `AxtpClient.EndingMatches` | include/sdk/axtp_client.hpp:113-127 | A session that ends leaves an orderly core quiet, and the core stays orderly only if no answer was awaited |
| `AxtpClient.ArrivalsMatch` | include/sdk/axtp_client.hpp:378-389 | Whatever a poll brings keeps what is known of the answer |
| `AxtpClient.SuffixIsOrderly` | include/sdk/axtp_client.hpp:113-127 | If no IDENTIFY send ever threw and no session was ever closed while it waited, every core is orderly |
| `AxtpClient.AxtpClient.WaitForIdentified` | include/sdk/axtp_client.hpp:368-414 | Sends nothing; the outstanding mark is dropped exactly when an IDENTIFIED is consumed; success, readiness, stage and the stored result agree; the seed reported is that of the latest IDENTIFY sent, the one answered on an orderly core; a failed wait ended for the reason it reports, and unless something threw it left no IDENTIFIED in the queue |
| `AxtpClient.AxtpClient.OpenControlSession` | include/sdk/axtp_client.hpp:432-476 | Sends exactly one OPEN, under the next control id and with the interval of the session, and goes on if and only if it takes a successful ACCEPT of that id with the core open, with the negotiated interval of that handshake |
| `AxtpClient.AxtpClient.WaitForAccept` | include/sdk/axtp_client.hpp:438-476 | Ends well if and only if it takes a successful ACCEPT of this control id while the core is open; a rejection carries the status of that ACCEPT or says rejected; any other failed wait ended for the reason it reports, and unless something threw it left no such ACCEPT in the queue |
| `AxtpClient.AxtpClient.TakeAccept` | include/sdk/axtp_client.hpp:449-470 | A queued ACCEPT of this control id decides: the negotiated interval is taken over, or the OPEN is rejected with its status; otherwise none was queued and nothing changes |
| `AxtpClient.AxtpClient.WaitForHello` | include/sdk/axtp_client.hpp:495-517 | Takes exactly one HELLO when it succeeds and none when it stops; nothing is sent; a failed wait ended for the reason it reports, and unless something threw it left no HELLO in the queue |
| `AxtpClient.AxtpClient.Handshake` | include/sdk/axtp_client.hpp:432-543 | A handshake sends one OPEN exactly if the wire has control sessions and they are not skipped, then at most one IDENTIFY, with the seed that was asked for; success means one HELLO, one IDENTIFY, a ready client and its seed; only an exception can come from a throwing IDENTIFY send |
| `AxtpClient.AxtpClient.Identification` | include/sdk/axtp_client.hpp:527-543 | At most one IDENTIFY is sent and at most one leaves, also when the send throws; if a seed was asked for it is that one, and success reports it |
| `AxtpClient.AxtpClient.TakeAnswer` | include/sdk/axtp_client.hpp:378-408 | An IDENTIFIED that is queued ends the wait, well exactly if it names a session; otherwise none was queued and nothing changes |
| `AxtpClient.AskedInterval` | include/sdk/axtp_client.hpp:333-335 | The interval asked for in an OPEN is that of the options inside 500..60000 ms and the nearer bound outside |
| `AxtpClient.AxtpClient.EnsureAppReadyUntilImpl` | include/sdk/axtp_client.hpp:280-544 | Keeps the whole client invariant on every exit, exceptions included; when already ready, resuming, or without a transport it sends neither OPEN nor IDENTIFY, otherwise exactly the OPEN that is due, with the interval that was asked for; the result is ok exactly when the client is ready, and its stage says where it stopped |
| `AxtpClient.AxtpClient.EnsureAppReadyUntil` | include/sdk/axtp_client.hpp:265-278 | An exception becomes a stored internal error and leaves the client invariant intact |
| `AxtpClient.AxtpClient.EnsureAppReady` | include/sdk/axtp_client.hpp:256-278 | Success from a new handshake reports the seed that was asked for, and no IDENTIFY with another one leaves, even when its send throws; on an orderly core the seed reported is that of the IDENTIFY that was answered. Failure names its one reason: no transport, a rejected OPEN, an exception, the wish of the caller, or the deadline, and only once that has passed. At most one pass per millisecond of the timeout plus three; a wait cut short resumes without another OPEN or IDENTIFY and missed nothing in its queue |
| `AxtpClient.AxtpClient.SendRpcRequest` | include/sdk/axtp_client.hpp:627-641 | The core never rejects an id that was just claimed, so that branch is dead; the id counts as sent even when the send throws, and with automatic identification only a ready session sends |
| `AxtpClient.AxtpClient.AbandonRequest` | include/sdk/axtp_client.hpp:635-641 | The request in flight ends as abandoned, once, and the session is at rest |
| `AxtpClient.AxtpClient.TakeResponse` | include/sdk/axtp_client.hpp:657-659 | Hands over the stored response of the request in flight exactly when there is one, and that ends the request as answered |
| `AxtpClient.AxtpClient.TakeAnyResponse` | include/sdk/axtp_client.hpp:660-667 | Hands over the stored response without an id exactly when there is one, and the request stays in flight |
| `AxtpClient.AxtpClient.TakeDelivery` | include/sdk/axtp_client.hpp:657-667 | Delivers the own response if there is one, else an id-zero response if the caller accepts any; delivering nothing means that neither was there |
| `AxtpClient.AxtpClient.GiveUp` | include/sdk/axtp_client.hpp:635-641 | A request that is given up is abandoned once, and the caller gets the one reason as an error that answers the request |
| `AxtpClient.AxtpClient.PollForResponse` | include/sdk/axtp_client.hpp:645-667 | After one poll either the request ends, with what the poll left in the table or an internal error, or nothing was there for it |
| `AxtpClient.AxtpClient.CallLocally` | include/sdk/axtp_client.hpp:586-605 | A local answer is what became of the handler: the body it returned as a success, or an internal error if it threw, and the id is released either way |
| `AxtpClient.AxtpClient.PrepareSession` | include/sdk/axtp_client.hpp:611-626 | Succeeds if and only if the session is ready or need not be; a failure is that of the handshake, which opens a control session where one is due; a JSON-RPC request without a session gets the new one |
| `AxtpClient.AxtpClient.WaitForResponse` | include/sdk/axtp_client.hpp:643-678 | On every exit the request is answered by its own response or abandoned with an error (or with an id-zero response when the caller accepts any). What is delivered is what the latest poll left in the table, the own response first, and nothing threw or was cancelled; an error answers the request with the one reason for which the wait ended, a timeout only once the deadline has passed, and unless something threw nothing was there |
| `AxtpClient.AxtpClient.Exchange` | include/sdk/axtp_client.hpp:627-678 | A request that is sent goes out once, as it is, under an id new to the session, and ends once; a send that throws ends it with an internal error |
| `AxtpClient.AxtpClient.CallRemotely` | include/sdk/axtp_client.hpp:611-678 | The request goes out if and only if the session is ready or need not be, with the session id filled in; otherwise the caller gets the failure of the handshake and nothing was sent |
| `AxtpClient.AxtpClient.CallRaw` | include/sdk/axtp_client.hpp:571-679 | The request goes out if and only if its metadata is acceptable and its id unused, its method is not local, a transport is there, and the session is ready or need not be; then once, with id, operation and session filled in and all else as it was, answered or abandoned exactly once, with the response the latest poll left if there was one, or the one reason why not. A refused claim is an invalid argument, a local method answers with the outcome of its handler, no transport is unavailable, and a failed handshake reports itself. All four waiting loops together make at most one pass per millisecond of the timeout plus four |
| `AxtpClient.NormalizedCarries` | include/sdk/axtp_client.hpp:870-898 | What is sent carries body, method, encoding and routing of the request as they were; a TLV coding is dropped exactly for encodings that are not binary, and a JSON-RPC request that names no session gets the id of the session |
| `AxtpClient.GoodEndpoints` | include/sdk/axtp_client.hpp:871-879 | Metadata is acceptable exactly when every endpoint that is named has a name and a binary request names none |
| `AxtpClient.ErrorAnswersRequest` | include/sdk/axtp_client.hpp:920-931 | An error goes back under the id and method of the request, without a body, with source and destination exchanged |
| `AxtpClient.HandlerDecides` | include/sdk/axtp_client.hpp:586-605 | A response of a local method is a success with the body its handler returned, or an internal error without one, sent back to where the request came from |
| `AxtpClient.AxtpClient.Heartbeat` | include/sdk/axtp_client.hpp:169-240 | If it cannot be sent the first of the three reasons is reported and nothing happens; otherwise one heartbeat goes out under the next id that is not zero and ends with the status of its own acknowledgement, an internal error exactly if something threw, or a timeout, only once the time is up; session, requests and their responses are left alone, and there is at most one pass per millisecond |
| `AxtpClient.AxtpClient.WaitForHeartbeatAck` | include/sdk/axtp_client.hpp:204-239 | Ends with the status of the acknowledgement of this control id, an internal error exactly if something threw, or a timeout, only once the time is up and, if there was a poll at all, with no such acknowledgement left in the queue; the clock is read again before the first pass, so there may be none |
| `AxtpClient.AxtpClient.HeartbeatUnavailable` | include/sdk/axtp_client.hpp:172-188 | A heartbeat can be sent exactly when connected over framed binary with an open control session and a negotiated interval; it is unavailable exactly without a connection, and otherwise not supported |
| `AxtpTypes.WireNumbers` | include/core/protocol/generated/axtp_ids_generated.h:13-59 | The numbers of opcodes, operations and status codes |
| `AxtpClient.Drive` | include/sdk/axtp_client.hpp:56-679 | After any sequence of attach, close, poll, handshake, call, heartbeat and registration, the client is coherent and every physical session, past or present, was lawful: distinct non-zero ids, one ending each, at most one unanswered IDENTIFY. If no IDENTIFY send threw and no session was closed while it waited, a ready client reports the seed of the IDENTIFY an honest peer answered |
| `RequestIds.CandidatesCover` | include/sdk/axtp_client.hpp:904-916 | The candidate order visits every non-zero id within one round |
| `RequestIds.FirstUnusedIsUnique` | include/sdk/axtp_client.hpp:900-918 | The allocator has exactly one possible answer |
| `RequestIds.FirstUnusedSkipsOnlyUsed` | include/sdk/axtp_client.hpp:900-918 | The id allocated is unused, and every id between the cursor and it, going up and starting again at one, is in use |
| `RequestIds.ExhaustedByOneRound` | include/sdk/axtp_client.hpp:911-917 | Coming back to the first candidate means that every non-zero id is used |
| `RequestIds.ExhaustedSize` | include/sdk/axtp_client.hpp:901-917 | Exhaustion takes all 2^32-1 ids |
| `PendingCallTable.PendingCallTable.Expect` | include/core/protocol/session/pending_call_table.hpp:19-32 | A non-zero id is claimed exactly when it is neither retired nor in flight |
| `PendingCallTable.PendingCallTable.Resolve` | include/core/protocol/session/pending_call_table.hpp:34-55 | A response is kept only on the legacy channel zero or for a request in flight, which it retires |
| `PendingCallTable.ResolveDecides` | include/core/protocol/session/pending_call_table.hpp:34-55 | A response is stored for id zero always, for another id exactly while it is in flight and not retired, and every other response changes nothing; other ids are not touched |
| `PendingCallTable.PendingCallTable.Abandon` | include/core/protocol/session/pending_call_table.hpp:57-63 | An abandoned id is neither pending nor answered, and a non-zero one is retired |
| `PendingCallTable.PendingCallTable.TryTakeResolved` | include/core/protocol/session/pending_call_table.hpp:73-81 | Hands over the stored response of the id, once |
| `PendingCallTable.PendingCallTable.TryTakeAnyResolved` | include/core/protocol/session/pending_call_table.hpp:83-91 | Hands over the stored response of channel zero, once |
| `PendingCallTable.PendingCallTable.Reset` | include/core/protocol/session/pending_call_table.hpp:93-97 | Forgets everything, retired ids included |
| `PendingCallTable.RetiredForever` | include/core/protocol/session/pending_call_table.hpp:14-18 | A retired id stays retired for the rest of the run, and once its response is gone none appears again |
| `PendingCallTable.NothingAfterTheEnd` | include/core/protocol/session/pending_call_table.hpp:46-63 | After an id was answered or abandoned it is never claimed and nothing is delivered for it |
| `PendingCallTable.ClaimedOnce` | include/core/protocol/session/pending_call_table.hpp:19-32 | A non-zero id is claimed at most once in any run |
| `PendingCallTable.DeliveredWasClaimed` | include/core/protocol/session/pending_call_table.hpp:34-81 | A delivered response arrived after its id was claimed |
| `PendingCallTable.AtMostOneAnswer` | include/core/protocol/session/pending_call_table.hpp:19-91 | Over any run a non-zero id is delivered at most once, for its one claim, and never after an abandon |
| `AxtpCore.AxtpCore.HandleControl` | include/core/runtime/core/axtp_core.hpp:284-296 | Every control payload advances the session and is queued as a notice |
| `AxtpCore.AxtpCore.Enqueue` | include/core/runtime/core/axtp_core.hpp:298-312 | A session message joins the queue; the line of IDENTIFYs and answers grows by an IDENTIFIED, and whether the peer was honest is recorded |
| `AxtpCore.AxtpCore.HandleRpc` | include/core/runtime/core/axtp_core.hpp:298-345 | Session messages are queued in order; a response of the peer goes to the table, and one generated on this side does not; tracking of the single request in flight is kept |
| `AxtpCore.AxtpCore.Receive` | include/core/runtime/core/axtp_core.hpp:284-345 | Any burst of inbound payloads leaves in queues, table and control session exactly what its payloads leave one by one, keeps the tracking of the request in flight, is counted as activity, and moves the line of answers by the IDENTIFIEDs in it |
| `AxtpCore.ResponseArrives` | include/core/runtime/core/axtp_core.hpp:317-345 | For every burst: the request in flight is answered if and only if the burst contains a response of the peer for it, whatever else it contains, and what is stored is such a response |
| `AxtpCore.KindsOfMessages` | include/core/runtime/core/axtp_core.hpp:298-345 | By their numbers: which messages are queued for the session, and which are responses |
| `AxtpCore.AxtpCore.TryTakeSessionRpc` | include/core/runtime/core/axtp_core.hpp:136-147 | Takes the first queued message with the operation exactly when there is one and leaves the queue rotated up to it; a taken IDENTIFIED is the first in the line of answers |
| `AxtpCore.AxtpCore.TryTakeControlNotice` | include/core/runtime/core/axtp_core.hpp:162-178 | Takes the first notice with this opcode and id exactly when there is one and leaves the queue rotated up to it |
| `AxtpCore.ScanKeepsOrder` | include/core/runtime/core/axtp_core.hpp:162-178 | The remaining notices keep their order exactly when the one taken was first or last; the comment in the source promises it always |
| `AxtpCore.TagsRemaining` | include/core/runtime/core/axtp_core.hpp:136-147 | A scan turns the answers in front of its hit to the back and drops that of the hit |
| `ControlTlvCodec.DecodeBytes` | include/core/protocol/wire/framed_binary/control_tlv_codec.hpp:96-118 | The decoding loop returns what the recursive reading of the records returns, on every byte string |
| `ControlTlvCodec.RoundTrip` | include/core/protocol/wire/framed_binary/control_tlv_codec.hpp:64-118 | A body decodes as valid if and only if its values fit their records, and then every field that travels comes back |
| `ControlTlvCodec.ValidIff` | include/core/protocol/wire/framed_binary/control_tlv_codec.hpp:96-118 | A byte string is a valid body if and only if it is a sequence of complete records in which every known tag holds a number that fits it, and the protocol version is one; unknown tags are ignored |
| `ControlTlvCodec.TruncatedIsInvalid` | include/core/protocol/wire/framed_binary/control_tlv_codec.hpp:103-109 | A body cut inside a record keeps what came before the cut and is invalid |
| `ControlTlvCodec.OpenOnTheWire` | include/core/protocol/wire/framed_binary/control_tlv_codec.hpp:64-95 | The exact bytes of the body of an OPEN, for every interval |
| `ControlTlvCodec.OtherRecordsOnTheWire` | include/core/protocol/wire/framed_binary/control_tlv_codec.hpp:64-95 | The exact bytes of the four records that only other offers carry |
| `ControlTlvCodec.OfferDefaults` | include/core/protocol/wire/framed_binary/control_tlv_codec.hpp:24-36 | What the client offers |
| `ControlTlvCodec.GrantsWhatWasAsked` | include/core/protocol/wire/framed_binary/control_tlv_codec.hpp:38-62 | An ACCEPT grants each field as it was asked for or its default, always selects JSON, and is valid exactly if JSON is among the encodings offered |
| `ControlSession.ControlSession.SetRequestedHeartbeatInterval` | include/core/protocol/session/control_session.hpp:17-22 | The interval kept is the allowed one nearest to that asked for: within 500..60000 ms, equal to it inside that range, strictly closer than any other; nothing else changes |
| `ControlSession.ControlSession.MakeOpen` | include/core/protocol/session/control_session.hpp:24-41 | A new OPEN closes the session, forgets the accepted options and waits for its own id |
| `ControlSession.ControlSession.Handle` | include/core/protocol/session/control_session.hpp:53-94 | The new state and the reply for every opcode; an ACCEPT counts only for the pending id, with success and a valid body. What the replies mean to the client is `ControlNetwork.ServerAnswers` and `ControlNetwork.OfferDecides` |
| `ControlSession.NegotiatedIff` | include/core/protocol/session/control_session.hpp:112-119 | An interval is negotiated exactly when the accepted options carry one from 500 to 60000 ms |
| `ControlNetwork.ServerAnswers` | include/core/protocol/session/control_session.hpp:53-94 | In any world, delivering a message to the server adds exactly its answer under the same id: ACCEPT to OPEN, and with success HEARTBEAT_ACK to HEARTBEAT, PONG to PING and CLOSE_ACK to CLOSE; nothing to anything else. What arrives is the notice a client waits for; only OPEN and CLOSE change whether the server is open |
| `ControlNetwork.ClientAnswers` | include/core/protocol/session/control_session.hpp:53-94 | The client answers the same opcodes in the same way |
| `ControlNetwork.BodiesTravel` | include/core/runtime/core/axtp_core.hpp:284-296 | A payload travels with its own body, or with its encoded options if it is an OPEN or ACCEPT without one |
| `ControlNetwork.OfferDecides` | include/core/protocol/session/control_session.hpp:55-71 | The server is open after an OPEN exactly if the offer could be read and includes JSON, and the ACCEPT says success, negotiation failed, or payload invalid accordingly |
| `ControlNetwork.HeartbeatComesBack` | include/core/protocol/session/control_session.hpp:43-51 | A heartbeat that crosses the network both ways arrives as the successful acknowledgement that the client waits for |
| `ControlNetwork.HandshakeFrames` | include/core/protocol/session/control_session.hpp:24-71 | Over the wire bytes an OPEN arrives as built and its ACCEPT grants a valid session with the interval asked for |
| `ControlNetwork.StepKeepsInv` | include/core/protocol/session/control_session.hpp:24-94 | Every step of the two-party system keeps the safety invariant |
| `ControlNetwork.RunKeepsInv` | include/core/protocol/session/control_session.hpp:24-94 | Every run over a network that loses, duplicates and reorders satisfies it |
| `ControlNetwork.OnlyLatestCompletes` | include/core/protocol/session/control_session.hpp:72-79 | Only the ACCEPT of the latest OPEN can open the client, with what the server granted for it |
| `ControlNetwork.OpenClientAgreesWithServer` | include/core/protocol/session/control_session.hpp:24-119 | Whenever the client is open the server has accepted exactly its latest OPEN, and the client holds the options and interval of that handshake |
| `ControlNetwork.ClientEffect` | include/core/protocol/session/control_session.hpp:53-94 | How each step of a safe world changes what the client waits for and whether it is open |
| `ControlNetwork.ClientState` | include/core/protocol/session/control_session.hpp:24-94 | The pending id and openness of the client computed from the steps of the run |
| `ControlNetwork.ClientOpenIff` | include/core/protocol/session/control_session.hpp:24-94 | The client is open if and only if an ACCEPT for its latest OPEN was delivered and no CLOSE since that OPEN |
| `ControlNetwork.HandshakeCompletes` | include/core/protocol/session/control_session.hpp:24-79 | A run of three steps opens a client: its OPEN, the server handling it, and the ACCEPT |
| `ControlNetwork.ServerAnsweredInBetween` | include/core/protocol/session/control_session.hpp:53-79 | Between that OPEN and the ACCEPT the server handled that very OPEN |
| `ControlNetwork.AllocatedIdsRepeat` | include/sdk/axtp_client.hpp:434-436 | Ids drawn from the 16-bit counter repeat exactly after a multiple of 2^16 draws |
| `ControlNetwork.AnsweredWasSent` | include/core/protocol/session/control_session.hpp:53-71 | In every run the ACCEPT of each answered OPEN has been sent, so it can still be delivered |
| `ControlNetwork.ReusedIdBreaks` | include/core/protocol/session/control_session.hpp:72-79 | Fresh ids are needed after every run: reusing the id of any OPEN sent before, with another interval, leads in four steps to a client open with the old interval while the server was never sent the new OPEN |
| `ControlNetwork.AnsweredIdBreaks` | include/core/protocol/session/control_session.hpp:72-79 | If the old OPEN was answered already three steps do, and the server hears nothing more |
| `ControlNetwork.BegunWasSent` | include/core/protocol/session/control_session.hpp:24-41 | In every run each OPEN begun has been sent, so it can still be delivered |
| `SessionIds.SpreadInverts` | include/json_rpc/websocket_json_rpc_adapter.hpp:243-244 | Multiplication by the odd constant modulo 2^32 is undone by its inverse, both ways |
| `SessionIds.MixInjective` | include/json_rpc/websocket_json_rpc_adapter.hpp:243-244 | Under one seed, different counters mix to different numbers |
| `SessionIds.HexInjective` | include/json_rpc/websocket_json_rpc_adapter.hpp:248-250 | Fixed-width hexadecimal is injective |
| `SessionIds.SessionIdInjective` | include/json_rpc/websocket_json_rpc_adapter.hpp:243-251 | Two session ids are equal exactly when their numbers are |
| `SessionIds.SessionIdReads` | include/json_rpc/websocket_json_rpc_adapter.hpp:243-251 | A session id is eight upper-case hexadecimal digits that read as its number, the first digit the highest |
| `SessionIds.XorBits` | include/json_rpc/websocket_json_rpc_adapter.hpp:244 | A bit of the mix is set exactly where seed and spread counter differ |
| `SessionIds.FirstNumbers` | include/json_rpc/websocket_json_rpc_adapter.hpp:243-251 | The first two numbers without a seed are 9E3779B9 and 3C6EF372 |
| `SessionIds.CollisionIff` | include/json_rpc/websocket_json_rpc_adapter.hpp:243-251 | Two counters share an id exactly when one hits the zero fallback and falls onto the mix of the other |
| `SessionIds.UnseededIdsDistinct` | include/json_rpc/websocket_json_rpc_adapter.hpp:243-251 | With seed zero the first 2^32-1 ids are all distinct |
| `SessionIds.FallbackRepeats` | include/json_rpc/websocket_json_rpc_adapter.hpp:245-247 | Every seed but one has exactly one pair of counters with the same id |
| `JsonRpcAdapter.WebSocketJsonRpcAdapter.MakeSessionId` | include/json_rpc/websocket_json_rpc_adapter.hpp:243-251 | The id of the current counter, which then advances modulo 2^32 |
| `JsonRpcAdapter.Starts` | include/json_rpc/websocket_json_rpc_adapter.hpp:275-281 | A new adapter has neither connection nor session, and its provisional id reads 9E3779B9 |
| `JsonRpcAdapter.WebSocketJsonRpcAdapter.SendHelloOnce` | include/json_rpc/websocket_json_rpc_adapter.hpp:175-181 | A HELLO is tried only if none was written since the activation, and counts as sent only when its write returned |
| `JsonRpcAdapter.WebSocketJsonRpcAdapter.Poll` | include/json_rpc/websocket_json_rpc_adapter.hpp:42-55 | State and log after the part of a poll that follows the transport: a new generation starts a new activation with a new provisional id and one HELLO, whose write may throw. What the transport delivers before is a separate input |
| `JsonRpcAdapter.WebSocketJsonRpcAdapter.HandleIdentify` | include/json_rpc/websocket_json_rpc_adapter.hpp:183-200 | Throws exactly for a malformed body or seed, or when the reply cannot be written; the session is fixed once, before the reply is tried, and stands even when it throws |
| `JsonRpcAdapter.WebSocketJsonRpcAdapter.SendError` | include/json_rpc/websocket_json_rpc_adapter.hpp:202-218 | One error reply is tried, under the adapter session id when the message had none |
| `JsonRpcAdapter.WebSocketJsonRpcAdapter.TryMessage` | include/json_rpc/websocket_json_rpc_adapter.hpp:58-101 | The guarded part: state, log and exceptions, with the error reply of an exception still to come |
| `JsonRpcAdapter.WebSocketJsonRpcAdapter.OnBytes` | include/json_rpc/websocket_json_rpc_adapter.hpp:58-105 | State and log after a message, for every shape of message and for exceptions of the core and of the writer; one escapes exactly when the error reply cannot be written either |
| `JsonRpcReplies.RefusedWithoutSession` | include/json_rpc/websocket_json_rpc_adapter.hpp:69-77 | Without a session every request and batch is answered by open-required, once, under its own request id and session id (or the provisional one), with source and destination exchanged |
| `JsonRpcReplies.RefusedForOtherSession` | include/json_rpc/websocket_json_rpc_adapter.hpp:78-88 | A message for another session or for none is answered by payload-invalid, once, under its own request id and the session id of the adapter, with source and destination exchanged |
| `JsonRpcReplies.BatchRefused` | include/json_rpc/websocket_json_rpc_adapter.hpp:89-97 | A batch of the right session is answered by batch-unsupported in the same way |
| `JsonRpcReplies.OthersAreForwarded` | include/json_rpc/websocket_json_rpc_adapter.hpp:99-101 | Every other message that does not identify is forwarded as it is and not answered |
| `JsonRpcReplies.NoIdReadsZero` | include/json_rpc/websocket_json_rpc_adapter.hpp:144-170 | A message without an id of 32 bits is answered under id zero, and only such a one or one that says zero |
| `JsonRpcReplies.UnreadableIsRefused` | include/json_rpc/websocket_json_rpc_adapter.hpp:102-104 | What cannot be read changes nothing and gets one payload-invalid under id zero and the session id of the adapter |
| `JsonRpcReplies.BadIdentifyIsRefused` | include/json_rpc/websocket_json_rpc_adapter.hpp:183-188 | So does an identifying message without a body or with a seed that is no 32-bit number |
| `JsonRpcReplies.IdentifyDecides` | include/json_rpc/websocket_json_rpc_adapter.hpp:183-200 | Any other identifying message is answered by IDENTIFIED; it keeps an existing session, resumes the one it names, or opens the one of counter and seed |
| `JsonRpcReplies.SeedReads` | include/json_rpc/websocket_json_rpc_adapter.hpp:220-241 | A seed is absent, a number of 32 bits, or an exception |
| `JsonRpcRuns.OneReaction` | include/json_rpc/websocket_json_rpc_adapter.hpp:58-105 | A message causes exactly one IDENTIFIED, error or forward; a second reaction, an error, is tried exactly when the write of the first or the core behind the forward threw |
| `JsonRpcRuns.OneReactionWhenWritten` | include/json_rpc/websocket_json_rpc_adapter.hpp:58-105 | When writes return, only a core that throws after a forward causes a second reaction |
| `JsonRpcRuns.RequestsPassTheGate` | include/json_rpc/websocket_json_rpc_adapter.hpp:39-105 | Over any run, throwing writes included, a REQUEST reaches the core only with the session id of an IDENTIFY processed in the current activation, which names one session only; a REQUEST_BATCH never does |
| `JsonRpcRuns.LostAnswerOpensGate` | include/json_rpc/websocket_json_rpc_adapter.hpp:193-199 | The gate does not wait for the answer: an IDENTIFY whose IDENTIFIED was lost, answered by an error, lets requests of its session through |
| `JsonRpcRuns.OneHelloPerActivation` | include/json_rpc/websocket_json_rpc_adapter.hpp:39-56 | HELLOs written, plus activations that still wait for one or were superseded waiting, equal activations, plus one exactly when the first connection reported generation zero |
| `JsonRpcRuns.AllSaid` | include/json_rpc/websocket_json_rpc_adapter.hpp:175-181 | When writes return no activation waits for its HELLO and none is superseded waiting |
| `JsonRpcRuns.ActivationsDiffer` | include/json_rpc/websocket_json_rpc_adapter.hpp:44-51 | Until the counter wraps no two activations start under the same session id |
| `RpcClientSession.RpcClientSession.AcceptHello` | include/json_rpc/rpc_client_session.hpp:13-28 | Accepts exactly well-formed HELLOs and answers with IDENTIFY; anything else changes nothing |
| `RpcClientSession.RpcClientSession.AcceptIdentified` | include/json_rpc/rpc_client_session.hpp:30-38 | Stores the sid exactly after a HELLO and for a non-empty one |
| `RpcClientSession.MessagesSay` | include/json_rpc/rpc_client_session.hpp:25-45 | What IDENTIFY and REIDENTIFY carry: seed and event masks, or session id and the masks if there are any |
| `RpcClientSession.HelloDecides` | include/json_rpc/rpc_client_session.hpp:13-24 | Which HELLOs are accepted, and with which version |
| `RpcClientSession.IdentifiedDecides` | include/json_rpc/rpc_client_session.hpp:30-38 | Which IDENTIFIEDs give the session its id |
| `JsonRpcHandshake.RunKeepsInv` | include/json_rpc/websocket_json_rpc_adapter.hpp:39-105 | The two-party invariant holds in every run over ordered channels in which connections come and go at any time and the adapter notices a new one only at its next poll |
| `JsonRpcHandshake.EstablishedAgree` | include/json_rpc/websocket_json_rpc_adapter.hpp:40-51 | If no message of the connection was handled before the adapter noticed it, an accepted IDENTIFIED leaves both ends with the same non-empty session id |
| `JsonRpcHandshake.EarlyHandlingBreaksAgreement` | include/json_rpc/websocket_json_rpc_adapter.hpp:40-51 | From every run with a message on its way to an adapter that has not noticed the connection, handling it first leads to a client that is established and an adapter without a session |
| `JsonRpcHandshake.AgreementGuaranteedIff` | include/json_rpc/websocket_json_rpc_adapter.hpp:40-51 | From every run that awaits the activation of a connection, agreement is guaranteed on every continuation of it if and only if the client comes without a session id |
| `JsonRpcHandshake.KeptSessionCanBreak` | include/json_rpc/websocket_json_rpc_adapter.hpp:40-51 | From every run in which a client with a session id awaits the activation, some continuation leaves it established with an adapter that has no session |
| `JsonRpcHandshake.FreshSessionIsNeverEarly` | include/json_rpc/rpc_client_session.hpp:13-28 | A client that starts a new session for the connection waits for HELLO, so it always meets the condition and agrees |
| `JsonRpcHandshake.KeptSessionBreaks` | include/json_rpc/websocket_json_rpc_adapter.hpp:40-51 | A run that fails: a client keeps its session over a reconnect, its REIDENTIFY is handled before the activation, and it ends established with an adapter that has no session |
| `JsonRpcHandshake.HandshakeCompletes` | include/json_rpc/websocket_json_rpc_adapter.hpp:39-105 | For every seed and every non-zero generation a run establishes the client under the id made from its seed |
| `JsonRpcHandshake.Reidentifies` | include/json_rpc/rpc_client_session.hpp:40-45 | Three steps of re-identification bring an agreeing pair back to where it was |
| `JsonRpcHandshake.IdentifyDispatch` | include/json_rpc/websocket_json_rpc_adapter.hpp:183-200 | Every IDENTIFY the client makes opens a session on an adapter that has none and is answered with the session it holds |
| `JsonRpcHandshake.ReidentifyDispatch` | include/json_rpc/rpc_client_session.hpp:40-45 | The REIDENTIFY the client makes never changes an identified adapter and is answered with its session; an adapter without one opens a new session instead of resuming the old |
| `JsonRpcHandshake.RequestRefused` | include/json_rpc/websocket_json_rpc_adapter.hpp:69-77 | Without a session every REQUEST of a client is refused |
| `JsonRpcHandshake.WireShapes` | include/core/protocol/wire/websocket_json_rpc/outbound/json_rpc_encoder.hpp:46-70 | The messages of both ends by the numbers of their operations, with session and request ids where a reader looks for them |
| `JsonRpcHandshake.RepliesArrive` | include/json_rpc/websocket_json_rpc_adapter.hpp:107-110 | A reply arrives unless its write was lost, and nothing but a reply does |
| `JsonRpcHandshake.DisconnectForgets` | include/json_rpc/websocket_json_rpc_adapter.hpp:42-46 | A connection that ends takes what was under way with it |
| `Json.SmallNumbersRead` | include/json_rpc/websocket_json_rpc_adapter.hpp:127-133 | Numbers that fit are read as they are, and only the narrow reading takes booleans |
| `Json.LargeNumbersWrap` | include/json_rpc/websocket_json_rpc_adapter.hpp:127-133 | Larger ones are kept modulo 2^32 or 2^64, in signed range |
| `Json.TruncatesTowardZero` | include/json_rpc/websocket_json_rpc_adapter.hpp:127-133 | Floating-point numbers are truncated toward zero |
| `JsonRpcHandshake.AgreementLasts` | include/json_rpc/websocket_json_rpc_adapter.hpp:183-200 | Only the end of the connection ends the agreement, however often the client re-identifies |
| `JsonRpcHandshake.StampedRequestsAreForwarded` | include/json_rpc/websocket_json_rpc_adapter.hpp:79-101 | On such a connection a REQUEST stamped with the established session id is forwarded to the core when it arrives |
| `Sha256Padding.PadMinimal` | include/core/protocol/endpoint/endpoint_identity.hpp:38-46 | Section 5.1.1 of FIPS 180-4: the padded length is a multiple of 64 and no smaller number of zeros reaches one |
| `Sha256Padding.PadContents` | include/core/protocol/endpoint/endpoint_identity.hpp:38-46 | What stands at every place: the message, the marker 0x80, zeros, and the bit length in eight big-endian bytes |
| `Sha256Padding.PadInvertible` | include/core/protocol/endpoint/endpoint_identity.hpp:38-46 | Unpadding recovers the message if and only if it is shorter than 2^61 bytes |
| `Sha256Padding.PadInjective` | include/core/protocol/endpoint/endpoint_identity.hpp:38-46 | Messages below 2^61 bytes never share a padded form |
| `Sha256Padding.PushZeros` | include/core/protocol/endpoint/endpoint_identity.hpp:41-43 | The loop pushes exactly the minimal number of zeros and stops |
| `Sha256Padding.PadBytes` | include/core/protocol/endpoint/endpoint_identity.hpp:38-46 | The two padding loops produce the padded message, with the bit length in eight big-endian bytes |
| `Sha256Words.RotationByShifts` | include/core/protocol/endpoint/endpoint_identity.hpp:33-35 | Two shifts and a disjunction rotate a word, for every amount the code uses |
| `Sha256Words.SigmasByShifts` | include/core/protocol/endpoint/endpoint_identity.hpp:69-75 | The four mixing functions of section 4.1.2 as the code writes them |
| `Sha256Words.SigmasOfOneBit` | include/core/protocol/endpoint/endpoint_identity.hpp:69-75 | Where the four mixing functions move a single bit |
| `Sha256Words.ChooseSelects` | include/core/protocol/endpoint/endpoint_identity.hpp:91 | Where the first word has ones the second is chosen, elsewhere the third |
| `Sha256Words.MajorityDecides` | include/core/protocol/endpoint/endpoint_identity.hpp:96 | Bits on which two words agree win, and the third decides the others |
| `Sha256Words.WordBytesInvert` | include/core/protocol/endpoint/endpoint_identity.hpp:63-67 | The big-endian bytes of a word give the word back |
| `Sha256Constants.RoundConstantsFromPrimes` | include/core/protocol/endpoint/endpoint_identity.hpp:14-31 | Section 4.2.2: each round constant is the fraction of the cube root of its prime |
| `Sha256Constants.RowByRow` | include/core/protocol/endpoint/endpoint_identity.hpp:14-31 | The constants are used in their order, eight to a row |
| `Sha256Constants.InitialFromPrimes` | include/core/protocol/endpoint/endpoint_identity.hpp:48-57 | Section 5.3.3: the initial words are fractions of square roots of the first eight primes |
| `Sha256.FillSchedule` | include/core/protocol/endpoint/endpoint_identity.hpp:60-77 | The in-place schedule array holds the recursive message schedule |
| `Sha256.RunRounds` | include/core/protocol/endpoint/endpoint_identity.hpp:79-107 | The rotating variables hold the registers of the standard after 64 rounds |
| `Sha256.AddInto` | include/core/protocol/endpoint/endpoint_identity.hpp:109-116 | The state array becomes the word-wise sum modulo 2^32 |
| `Sha256.CompressBlock` | include/core/protocol/endpoint/endpoint_identity.hpp:59-117 | One block updates the state array to the compression of section 6.2.2 |
| `Sha256.WriteDigest` | include/core/protocol/endpoint/endpoint_identity.hpp:119-125 | The digest bytes are the state words in big-endian order |
| `Sha256.Sha256` | include/core/protocol/endpoint/endpoint_identity.hpp:37-127 | For every input the in-place code returns the digest of the recursive specification |
| `Sha256.RoundInverts` | include/core/protocol/endpoint/endpoint_identity.hpp:84-106 | A round can be undone, for any constant and word |
| `Sha256.RoundsInjective` | include/core/protocol/endpoint/endpoint_identity.hpp:84-106 | Under one block different registers lead to different registers |
| `Sha256.WindowDeterminesSchedule` | include/core/protocol/endpoint/endpoint_identity.hpp:69-77 | Any sixteen consecutive schedule words determine all the others |
| `Sha256.WordsBytesInvert` | include/core/protocol/endpoint/endpoint_identity.hpp:119-125 | Every word of the final state can be read back from the digest |
| `Sha256.ScheduleStartsWithBlock` | include/core/protocol/endpoint/endpoint_identity.hpp:60-67 | The first sixteen schedule words are the bytes of the block in order |
| `Sha256.OneMoreBlock` | include/core/protocol/endpoint/endpoint_identity.hpp:59-117 | Blocks are taken in order, each once: one more block compresses the hash of those before it |
| `Sha256.CompressFeedsForward` | include/core/protocol/endpoint/endpoint_identity.hpp:109-116 | The compression adds its input to all 64 rounds of it, word by word modulo 2^32 |
| `Sha256.DigestReads` | include/core/protocol/endpoint/endpoint_identity.hpp:119-125 | The words of the digest are those of the hash of the whole padded message |
| `EndpointIdentity.EndpointIdFromKey` | include/core/protocol/endpoint/endpoint_identity.hpp:131-147 | Refuses exactly the empty key; otherwise the id is the hexadecimal of the first 16 digest bytes of the tagged key |
| `EndpointIdentity.EndpointIdReads` | include/core/protocol/endpoint/endpoint_identity.hpp:131-147 | The digits of an id say the first sixteen bytes of the digest of the tag followed by the key |
| `EndpointIdentity.TagIsText` | include/core/protocol/endpoint/endpoint_identity.hpp:135-137 | The tag is the ASCII of AXTP-ENDPOINT-v1 and a separator |
| `EndpointIdentity.HexTextInverts` | include/core/protocol/endpoint/endpoint_identity.hpp:142-145 | Every byte can be read back from its two digits |
| `EndpointIdentity.EndpointIdsCollide` | include/core/protocol/endpoint/endpoint_identity.hpp:131-147 | An id is `ep_` and 32 lower-case hexadecimal digits, and two keys share one exactly when their digests share the first 16 bytes |
| `MethodRegistry.MethodRegistry.AddMethod` | include/core/protocol/generated/method_registry.h:21-32 | The two maps stay mutually inverse, and the relation loses exactly the entries that clash with the new one |
| `MethodRegistry.MethodRegistry.FindMethodId` | include/core/protocol/generated/method_registry.h:34-40 | Finds an id exactly when the pair is in the relation |
| `MethodRegistry.MethodRegistry.FindMethodName` | include/core/protocol/generated/method_registry.h:42-48 | Finds a name exactly when the pair is in the relation |
| `MethodRegistry.MethodRegistry.Entries` | include/core/protocol/generated/method_registry.h:58-65 | Lists exactly the relation, in strictly increasing id order |
| `MethodRegistry.PresentIff` | include/core/protocol/generated/method_registry.h:21-32 | After any calls an entry is present if and only if some call added it and no later call used its id or name for anything else |
| `MethodRegistry.CallsKeepOneToOne` | include/core/protocol/generated/method_registry.h:21-32 | After any calls no id has two names and no name two ids |
| `MethodRegistry.FromTable` | include/core/protocol/generated/method_registry.h:67-73 | Loading a table row by row leaves the relation of those calls |
| `MethodRegistry.ScanByName` | include/core/protocol/generated/registry_lookup.h:15-22 | The linear scan by name finds a row of the table, or there is none |
| `MethodRegistry.ScanById` | include/core/protocol/generated/registry_lookup.h:24-31 | The linear scan by id finds a row of the table, or there is none |
| `MethodRegistry.FirstByName` | include/core/protocol/generated/registry_lookup.h:15-22 | The answer of the scan by name is the first row with the name |
| `MethodRegistry.FirstById` | include/core/protocol/generated/registry_lookup.h:24-31 | The answer of the scan by id is the first row with the id |
| `MethodRegistry.OneToOneAgrees` | include/core/protocol/generated/registry_lookup.h:15-31 | Over a one-to-one table registry and scan answer every query alike, present or absent |
| `MethodRegistry.AgreesIff` | include/core/protocol/generated/method_registry.h:67-73 | Over a table without repeated rows they agree if and only if it is one-to-one |
| `MethodRegistry.RepeatsCanHideAClash` | include/core/protocol/generated/method_registry.h:21-32 | With repeated rows they can agree on a table that is not one-to-one |
| `RegistryItems.HighByteOfInt32` | devtools/generators/src/domainRegistry.ts:44 | On 32-bit ids the shift is the quotient by 256, and a byte exactly for ids that fit 16 bits |
| `RegistryItems.ToInt32Wraps` | devtools/generators/src/domainRegistry.ts:44 | The shift works on the number modulo 2^32 in signed range, and exactly the 32-bit numbers are left as they are |
| `RegistryItems.ScanForRepeats` | devtools/generators/src/validator.ts:6-21 | The one-pass check stops at the first item whose key was last seen on a named item, and passes if there is none |
| `RegistryItems.NoneNoticedIff` | devtools/generators/src/validator.ts:8-19 | A list passes if and only if every repeated key last appeared on an item with an empty name |
| `RegistryItems.NamedNoneNoticedIff` | devtools/generators/src/validator.ts:6-21 | With named items a list passes if and only if its keys are distinct |
| `SourceValidator.AssertUniqueIds` | devtools/generators/src/validator.ts:6-21 | Verdict and offending entry of the id check |
| `SourceValidator.AssertUniqueNames` | devtools/generators/src/validator.ts:23-37 | Passes if and only if names are distinct; otherwise reports the first repetition |
| `SourceValidator.GroupNatural` | devtools/generators/src/validator.ts:68-82 | Every offset is a natural number, or the first entry with another one is reported; items are filed under their domains in order |
| `SourceValidator.CheckPositions` | devtools/generators/src/validator.ts:98-109 | Passes if and only if the offsets are contiguous from zero |
| `SourceValidator.CheckDomain` | devtools/generators/src/validator.ts:83-110 | One domain passes if and only if no repeated offset is noticed and the offsets are contiguous from zero; which error it reports |
| `SourceValidator.AssertDomainBitOffsets` | devtools/generators/src/validator.ts:67-111 | Passes if and only if all offsets are natural numbers and every domain passes |
| `SourceValidator.AssertRegistryDomainRanges` | devtools/generators/src/validator.ts:113-147 | Passes if and only if every item lies in its domain or a reserved range; otherwise reports the first that does not |
| `SourceValidator.ReservedRanges` | devtools/generators/src/validator.ts:127-142 | For 32-bit ids outside the registry: pages 0x70 to 0x7E are for vendor, 0x7F for legacy, page zero for the domains it is opened to, and nothing else passes |
| `SourceValidator.ValidateMethods` | devtools/generators/src/validator.ts:320-329 | The checks on the method list in the order they run accept exactly the lists that meet all of their conditions |
| `SourceValidator.AcceptedIdsFit` | devtools/generators/src/validator.ts:113-147 | An accepted list of named methods has distinct ids and names; all its ids fit 16 bits if and only if all fit 32 bits |
| `SourceValidator.WideIdPasses` | devtools/generators/src/validator.ts:122 | Without the 32-bit bound an id beyond 16 bits passes |
| `BitOffsets.SortNumbers` | devtools/generators/src/validator.ts:98 | Sorting the distinct keys |
| `BitOffsets.PositionsIff` | devtools/generators/src/validator.ts:98-109 | Each sorted key equals its position if and only if the keys are contiguous from zero |
| `BitOffsets.PermutationIff` | devtools/generators/src/validator.ts:84-109 | Distinct and contiguous from zero is the same as being a permutation of 0 to n-1 |
| `ProtocolValidator.AssertUnique` | devtools/generators/src/protocolValidator.ts:16-26 | Verdict and offending entry of the uniqueness check, for any key |
| `ProtocolValidator.UniqueNamesAgree` | devtools/generators/src/protocolValidator.ts:16-26 | The two name checks differ only on repeated empty names |
| `ProtocolValidator.CollectBits` | devtools/generators/src/protocolValidator.ts:60-67 | Passes if and only if the offsets of the domain are distinct, and then collects them |
| `ProtocolValidator.AssertDomainBits` | devtools/generators/src/protocolValidator.ts:53-75 | Passes if and only if in every domain the offsets are distinct and contiguous from zero |
| `ProtocolValidator.OffsetChecksAgree` | devtools/generators/src/protocolValidator.ts:53-75 | With named items both validators accept exactly the lists whose offsets are a permutation of 0..n-1 in every domain |
| `ProtocolValidator.AcceptedMethodsIff` | devtools/generators/src/validator.ts:320-329 | Named methods over named domains are accepted by the source checks if and only if all claims are bytes and no byte has two domains, ids and names are distinct, every id lies in its range, and the offsets of each domain are a permutation of 0..n-1 |
| `ProtocolValidator.SourceClaims` | devtools/generators/src/domainRegistry.ts:67-81 | Who claims a byte for the source checks: the declared ranges alone, or every method, event and error with a registry byte |
| `ProtocolValidator.EmptyNameHidesRepeat` | devtools/generators/src/validator.ts:84-97 | With an empty name the source check misses a repeated offset that the protocol check reports |
| `ProtocolValidator.AssertDomainIdAlignment` | devtools/generators/src/protocolValidator.ts:118-137 | Passes if and only if all methods of a domain share a high byte and the events of a domain with methods share it too |
| `ProtocolValidator.AssertErrorRanges` | devtools/generators/src/protocolValidator.ts:228-236 | Passes if and only if every error carries an allowed category |
| `ProtocolValidator.CodeRanges` | devtools/generators/src/protocolValidator.ts:218-226 | For 32-bit codes: 0x0100 to 0x6FFF belong to the registry, below are the base categories, 0x70 to 0x7E is for vendor, 0x7F for legacy |
| `ProtocolValidator.ValidateDomains` | devtools/generators/src/protocolValidator.ts:341-367 | Building the map and then checking errors accepts exactly the definitions that meet both conditions |
| `ProtocolValidator.DomainsPassIff` | devtools/generators/src/protocolValidator.ts:218-236 | With non-empty domains, and unless a code at or below 0xFF wraps into a registry byte: accepted if and only if every registry byte has one domain shared by methods, events and error categories, and every other error has a category reserved for its range |
| `ProtocolValidator.WrappedCodeBreaks` | devtools/generators/src/protocolValidator.ts:219-221 | The exception is exact: every code at or below 0xFF that wraps into a registry byte belongs to a list on which acceptance and that condition differ |
| `ProtocolValidator.CodesAreLarge` | devtools/generators/src/protocolValidator.ts:219 | No code from -2^31 on is such a code |
| `DomainRegistry.AddDomain` | devtools/generators/src/domainRegistry.ts:19-41 | Accepts exactly bytes that are free, held under an empty name or held by the same domain, and then assigns the domain |
| `DomainRegistry.BytesAre` | devtools/generators/src/domainRegistry.ts:20-28 | The bytes are the integers from 0 to 255 |
| `DomainRegistry.AddItemDomain` | devtools/generators/src/domainRegistry.ts:43-52 | Only items with a registry byte claim it; accepted exactly when the claim fits those before it |
| `DomainRegistry.AddItemDomains` | devtools/generators/src/domainRegistry.ts:77-79 | One loop accepts exactly the lists whose claims all fit, and leaves the map of those claims |
| `DomainRegistry.BuildDomainByHighByteFromRegistry` | devtools/generators/src/domainRegistry.ts:54-65 | Accepted exactly when every declared range fits, with the map they assign |
| `DomainRegistry.BuildSourceDomainByHighByte` | devtools/generators/src/domainRegistry.ts:67-81 | A non-empty declared registry is used alone; otherwise methods, events and errors in that order |
| `DomainRegistry.BuildProtocolDomainByHighByte` | devtools/generators/src/domainRegistry.ts:83-100 | Errors never cause a rejection: they only claim bytes that nothing before them has taken |
| `DomainRegistry.AllFitIff` | devtools/generators/src/domainRegistry.ts:30-40 | With non-empty domain names candidates are accepted if and only if all are bytes and no byte has two domains, and the map holds exactly the claims |
| `GeneratedTable.SortByIdSorts` | devtools/generators/src/util.ts:39-41 | Whatever the name comparison, the sorted copy is a permutation in id order |
| `GeneratedTable.AcceptedListsAgree` | devtools/generators/src/emitters/cpp.ts:183-205 | For an accepted list with named methods and 32-bit ids, the generated table and the registry built from it answer every name and id as the linear scan does, and no row is lost |
| `GeneratedTable.LoadAndList` | include/core/protocol/generated/method_registry.h:58-73 | Loading an ascending one-to-one table and listing the registry gives the table back |
| `GeneratorUtil.HexRoundTrip` | devtools/generators/src/util.ts:4-18 | Writing an id in hexadecimal and reading it gives it back if and only if it is not negative or its text needs no padding |
| `GeneratorUtil.DecimalRoundTrip` | devtools/generators/src/util.ts:4-14 | A decimal number with or without a sign is read as it says |
| `GeneratorUtil.HexSpellings` | devtools/generators/src/util.ts:4-14 | Hexadecimal digits after either mark are read as they say, in both cases |
| `GeneratorUtil.SpaceAround` | devtools/generators/src/util.ts:7 | Space around an id does not matter, whatever the id |
| `GeneratorUtil.MarkTwice` | devtools/generators/src/util.ts:8-10 | A second mark is skipped as well |
| `GeneratorUtil.MarksAlone` | devtools/generators/src/util.ts:8-13 | A mark without digits is no id |

## Left out

- Transports, sockets, threads and real clocks: an abstract monotone clock and arbitrary inbound payloads stand for them.
- Framed binary decoding, fragmentation and reassembly, streams and the broker: the client needs only decoded payloads.
- Text parsing and printing of JSON: messages arrive as trees; floating-point numbers are out of the integer ranges read.
- The client's event handlers, typed calls and body codecs: wrappers around the modelled raw call.
- Error messages and trace events; results carry status, stage, sid and seed.
- Random seed generation: any seed is possible.
- AxtpClient.AxtpClient.WaitForResponse: a response with an error status counts as an answer, as it does in the source.
- AxtpClient.AxtpClient.AttachTransport: close() has already cleared the fields that attachTransport clears again, so the model clears them once.
- Sha256.AddInto: the eight additions into the state are taken by a loop instead of eight statements.
- Sha256.FillSchedule: it and RunRounds, CompressBlock, AddInto and WriteDigest are loops of one function in the source.
- BitOffsets.SortNumbers: the built-in sort is any algorithm that orders distinct numbers; undefined offsets are not modelled.
- GeneratedTable.SortByIdSorts: the comparison of names by locale is an arbitrary function, so only the order of ids is stated.
- GeneratorUtil.HexRoundTrip: white space is the ASCII kind, and numbers beyond 2^53 keep all their digits.
- SourceValidator.ValidateMethods: only the checks on the method list; events, capabilities, schemas and legacy mappings go through the same checks or simple membership tests.
- ProtocolValidator.ValidateDomains: reference, schema and transport policy checks are membership tests and stay out.
- Emitters other than the order and content of the method table, Markdown, YAML loading, the command line and the conformance runner.
- Event masks of the SDK client: its IDENTIFY is recorded by its seed; `RpcClientSession.MessagesSay` has the masks of the JSON-RPC client.
