# Open Remote Commander: a verified model

This project models the core of Open Remote Commander, a relay through which an AI client
calls tools on a user's own machines, and proves what its parts guarantee over every input and
every interleaving. `dafny verify dfyconfig.toml` checks the whole project.

| file | models |
|---|---|
| `Relay.dfy`, `RelayProofs.dfy`, `RelayTheorems.dfy` | the relay hub: registration, calls, read loops, pongs and the once-only close, as a step machine at lock and channel granularity; its inductive invariants; what is safe over every run |
| `RelayHistory.dfy`, `RelayCauses.dfy` | the hub read off the events of a run alone: who is registered, what a lookup finds, why a connection is closed and why a call fails |
| `RelayProgress.dfy`, `RelayReturns.dfy`, `RelayCloses.dfy`, `RelayWitnesses.dfy` | what close waits for, when calls return and when a close ends; runs that show where a condition is needed |
| `Dispatch.dfy` | the hub composed with the store: agents authenticate then register, tool calls check then dispatch, store operations come in between |
| `WebSocket.dfy`, `WebSocketMessages.dfy`, `WebSocketConn.dfy` | the wire format of RFC 6455 (sections 5.2 to 5.5), reassembly of fragmented messages, and the connection object with its buffers and loops |
| `PathPolicy.dfy`, `PathRewriting.dfy` | symlink-aware containment of paths in allowed roots; what following links means, by rewriting paths, and that the resolvers compute exactly that |
| `ProcessOutput.dfy` | the bounded output ring of a process and cursor reads |
| `RateLimiter.dfy` | the token-bucket limiter with eviction |
| `Store.dfy`, `Audit.dfy` | the in-memory store with the pairing state machine; the asynchronous audit writer |
| `SearchWalk.dfy`, `SearchSessions.dfy` | the early-stopping search walk; paging and the bound on running searches |
| `Introspection.dfy` | the introspection verifier's cache |
| `Replacement.dfy`, `AtomicEdit.dfy` | exact-string replacement; atomic writes over every point of failure |

How things are represented:

- Concurrency is a machine whose steps are critical sections, channel operations and returns
  from blocking calls; a run is a sequence of enabled events, and `Reachable` means reachable by
  some run. Objects that are used under one lock at a time are classes whose methods are proved
  against functions; statements about runs are proved about those functions.
- Random ids are fresh names, times and randomness are arguments, codes and tokens are their
  hashes, and bytes are eight-bit vectors. Integers are unbounded; where a width matters (lengths
  on the wire) the bounds are written out. Floating-point tokens are reals.
- The file system of `PathPolicy` is a tree of nodes with unevaluated link targets. Evaluating
  links gives up after 255 links; the kernel's own limit is a parameter. Path arguments are lists
  of components.
- What an operation computes is stated a second time without the functions it is modelled with: as
  octets, as rewriting of paths, as arithmetic on times and decisions, as laws, as tables of
  conditions, or in terms of the events of a run; lemmas connect the two.
- History that the program does not keep (frames read, events accepted, states of the disk) is
  part of some states so that properties of whole runs can be stated about them.

Properties one would expect that turned out to need a condition; the exact one is proved, with an
input or a run that shows why:

- A successful call returns the first result frame for its id looked up since it registered. That
  is the first such frame ever read on the connection exactly when none was read before
  registration, that is, when the device did not guess the 128-bit id
  (`RelayTheorems.SuccessIsFirstReply`, `RelayWitnesses.GuessedIdIsPassedOver`).
- A `close` under way comes to its end, by the program's own steps and its deadlines, exactly when
  its close frame is written or under a write deadline, or some call on the connection (or about
  to find it) has yet to set that deadline (`RelayCloses.CloseEndsExactlyWhenBounded`). Before it
  signals `done` it writes that frame under the write lock, so without a deadline it can hang
  behind a pong that the network holds up (`RelayProgress.HeldUpWhileWriting`,
  `RelayWitnesses.DisconnectIsHeldUp`) or in the frame itself (`RelayWitnesses.FarewellHangs`).
- A call returns without a frame from the device and without the end of its context exactly when
  it is not stranded on a connection whose read loop has not started because closing the
  connection it replaces has a write without a deadline still ahead of it or under way
  (`RelayReturns.CallReturnsUnlessStranded`, `RelayWitnesses.ReplacementIsStranded`).
- `truncated` means skipped output exactly when the cursor is not negative or something has
  been dropped (`ProcessOutput.FlagMeansSkipped`, `ProcessOutput.NegativeCursorIsFlaggedInVain`).
- The two path resolvers agree on every path whose links evaluate exactly when the kernel's
  link limit is not reached (`PathPolicy.ResolversDifferOnlyAtKernelLimit`). They differ somewhere
  for every kernel limit below 255, such as Linux's 40 (`PathPolicy.LowKernelLimitIsFelt`), and
  nowhere for a higher one (`PathPolicy.HighKernelLimitIsNotFelt`).
- A call on a new key of the limiter is granted exactly when, from every earlier call on, the calls
  granted since and itself are covered by the burst and what is earned meanwhile
  (`RateLimiter.DecidedExactly`); all are granted exactly when no stretch of them outruns that
  (`RateLimiter.GrantedExactly`). The agent's ticker lets two
  polls follow each other at once after a slow one; they stay within that bound
  (`RateLimiter.PollingNeverRefused`).
- `Close` of the audit writer flushes what was accepted before it exactly when it does not begin
  after the writing goroutine has already gone with events queued (`Audit.CloseFlushes`,
  `Audit.SecondCloseLosesEvent`); the first `Close` never does (`Audit.FirstCloseFlushes`).

## Model

| member | source | states |
|---|---|---|
| RelayTheorems.SuccessIsFirstReply | internal/relay/hub.go:85-196 | in every interleaving, a call that returns without error was sent and returns the payload of the first result frame for its own id on its own connection since it registered; that frame is the first for the id ever read exactly if none was read before |
| RelayWitnesses.GuessedIdIsPassedOver | internal/relay/hub.go:115-166 | a run in which the device guesses the id first and the call returns its second frame |
| RelayCauses.FailureHasReason | internal/relay/hub.go:85-139 | over every run, a call that fails on a connection does so because that is done, having been closed by somebody with cause to close it and with exactly the error of that close when one is reported, or because the run contains the end of this call's context, or nothing was sent; one that fails without a connection looked when no registered connection was for its device and its owner |
| RelayCauses.CloseHasCause | internal/relay/hub.go:57-83 | over every run, whoever first closes a connection does so after an event that gave it cause: a Disconnect of that device while it was registered, a newer registration of the device while it was registered, the end of its own read loop, or a failed write of a call on it |
| RelayCauses.DisconnectsByHistory | internal/relay/hub.go:76-83 | exactly the connections registered for a device when it was disconnected are to be closed for it |
| RelayCauses.DisconnectReaches | internal/relay/hub.go:76-83 | after Disconnect of a device, its registered connection may be closed for it as long as it is open |
| RelayHistory.RegistryByHistory | internal/relay/hub.go:57-83 | a connection is registered exactly from its own registration until the next one of its device or until its own close unregisters it |
| RelayHistory.LookupByHistory | internal/relay/hub.go:85-93 | a call is on a connection exactly if, when it looked, that was registered for its device and its owner |
| RelayHistory.LimitIsConfigured | internal/relay/hub.go:50-55 | the limit of calls in flight is the configured one, or sixteen for a limit below one, throughout every run |
| RelayTheorems.AdmittedWhileRoom | internal/relay/hub.go:94-101 | a call waits for a slot only while as many calls as the limit allows have one |
| RelayTheorems.NoLostWaiter | internal/relay/hub.go:115-166 | a waiting call without a message still has its own pending entry, and no frame for its id has come since it registered save one in the read loop's hands; a reply in its channel is the first such frame, and a failure means the drain with that error |
| RelayTheorems.PendingIsBounded | internal/relay/hub.go:94-125 | pending ids belong to calls that hold a slot, and the slots taken never exceed the in-flight limit |
| RelayTheorems.DrainedForever | internal/relay/hub.go:177-196 | once close has drained, pending stays empty in every continuation although done is signalled outside the lock |
| RelayReturns.DeferredStepsAreFree | internal/relay/hub.go:94-138 | releasing a slot never blocks, deleting waits only for the drain, a waiter on a closed connection can leave |
| RelayReturns.CallReturnsUnlessStranded | internal/relay/hub.go:85-196 | from every reachable state a call can come to its return by the program's own steps and deadlines alone, without a frame from the device or the end of its context, exactly when it is not waiting on an open connection that nobody is closing and whose read loop cannot start, because closing the connection it replaces has a write without a deadline still ahead of it or under way |
| RelayWitnesses.ReplacementIsStranded | internal/relay/hub.go:57-67 | a run in which a waiting call is stranded that way, because Register closes the replaced connection before it starts the read loop |
| RelayCloses.CloseEndsExactlyWhenBounded | internal/relay/hub.go:177-196 | from every reachable state a close under way can come to its end by the program's own steps and deadlines alone exactly when its close frame is over or under a write deadline, or a call on the connection or about to find it has yet to set that deadline |
| RelayWitnesses.FarewellHangs | internal/ws/ws.go:166-169 | a run after which close hangs in its own close frame, though nobody else holds the write lock, and no step is left that comes by itself |
| RelayProgress.CloseFinishesAlone | internal/relay/hub.go:177-196 | a close needs nobody else's step, the end of its own write counted as its own, exactly when no call and no pong holds the socket's write lock while its close frame is still to be written; it does not say that this write ends |
| RelayProgress.HeldUpWhileWriting | internal/relay/hub.go:177-180 | as long as that write does not end, done is not signalled in any continuation, the read loop of a replacement does not start, and no call on it succeeds |
| RelayWitnesses.DisconnectIsHeldUp | internal/ws/ws.go:166-168 | a run after which Disconnect hangs behind a pong with no write deadline and no step is left that comes by itself |
| RelayTheorems.OneWriter | internal/ws/ws.go:285-287 | of a connection's calls, its pongs and its close frame at most one is being written at a time, whichever two one compares |
| RelayProgress.ClosingTerminates | internal/relay/hub.go:116-124 | after done no event adds a pending entry or goes back a phase, and every step of close uses something up |
| RelayTheorems.OnlyOwnCloseUnregisters | internal/relay/hub.go:181-185 | closing a connection never unregisters its replacement: only its own close or a newer registration removes it |
| RelayTheorems.OpenIsRegistered | internal/relay/hub.go:57-67 | an open connection is registered or its replacing Register still has to close it |
| RelayTheorems.QuietRegistry | internal/relay/hub.go:57-83 | with no close and no Register in progress, the registered connections are exactly the open ones |
| RelayTheorems.InvStep | internal/relay/hub.go:57-196 | every event of the hub keeps calls and their connections, slot counts and registry consistent |
| RelayProofs.SendFits | internal/relay/hub.go:157-166 | the non-blocking send of a frame makes it the reply of the one call it answers first, and of no other |
| RelayProofs.DrainFits | internal/relay/hub.go:187-193 | draining an entry leaves its call a message unless it already has one |
| Dispatch.CachedOwnerAgrees | internal/controlplane/http.go:222-253 | in every run every connection's cached owner is the store's owner of that device |
| Dispatch.SentFramesWereRequested | internal/mcpserver/server.go:246-264 | every call frame sent was requested by a tool call of the owner the store names, begun before any revocation |
| Dispatch.LetThroughExactly | internal/mcpserver/server.go:246-249 | in every run a tool call passes its check exactly if the device was made for its owner and is not revoked, and an agent is let in exactly with the device's token while it is not revoked, as the store's operations so far say |
| Dispatch.NoDispatchAfterRevocation | internal/mcpserver/server.go:246-249 | a tool call begun after revocation never reaches the hub, whatever connections there are |
| Dispatch.RegistersOnlyAuthenticatedBefore | internal/controlplane/http.go:222-253 | in every run, whoever registers had authenticated earlier in it, at a time up to which the device had never been revoked |
| Dispatch.RevokedDeviceConnects | internal/controlplane/http.go:208-253 | a run in which a revoked device's connection is open and registered, because its agent authenticated before the revocation and registered after Disconnect had found nothing |
| Dispatch.InvStep | internal/relay/hub.go:85-93 | every store operation, agent step, tool step and hub event keeps the agreement of hub and store |
| WebSocket.EncodeOctets | internal/ws/ws.go:285-333 | what is written, octet by octet as in section 5.2 of RFC 6455: final bit, opcode, mask bit, shortest length with its high octet first, the key, and payload octet i xor key octet i mod 4 |
| WebSocket.ParseOctets | internal/ws/ws.go:222-283 | what is accepted begins with exactly those octets of the frame returned |
| WebSocket.ParseEncode | internal/ws/ws.go:285-333 | what either role writes the other reads back, for every opcode, payload within its maximum and key, leaving the rest of the stream untouched |
| WebSocket.EncodeParse | internal/ws/ws.go:222-283 | every byte string the parser accepts is the encoding, with the shortest length form, of the frame it returned followed by the unread rest |
| WebSocket.NoFrameInPrefix | internal/ws/ws.go:222-283 | no proper prefix of an encoded frame is taken for a frame |
| WebSocket.LengthIsCanonical | internal/ws/ws.go:240-260 | only the shortest length form is accepted |
| WebSocket.MaskedTwice | internal/ws/ws.go:277-281 | masking twice with one key is the identity |
| WebSocketMessages.ReassemblesMessage | internal/ws/ws.go:181-220 | any fragmentation within the limit, with any pings and pongs between, is reassembled to its concatenated data with one equal pong per ping in order |
| WebSocketMessages.ReceivedWasFragmented | internal/ws/ws.go:181-220 | conversely every accepted stream is such a fragmentation of one message |
| WebSocketMessages.ReceiveIsBounded | internal/ws/ws.go:213-215 | no returned message exceeds the maximum and every pong fits a control frame |
| WebSocketMessages.FrameDecides | internal/ws/ws.go:181-220 | what each next frame does, by its opcode and whether it is in turn: answered, passed over, added, or the end of the reading with its own error |
| WebSocketMessages.DataInOrder | internal/ws/ws.go:181-220 | the data of a message are its fragments' bytes one after the other, and its pings come in order |
| WebSocketConn.Conn.ReadFrame | internal/ws/ws.go:222-283 | the byte-by-byte reader returns what the wire format says, having taken exactly the octets of that frame, and leaves the rest unread; after an error an end of the input is left, and nothing when the input ran out |
| WebSocketConn.Conn.WriteFrame | internal/ws/ws.go:285-333 | the header buffer and masked copy make exactly the octets of the frame under the next key, and the next frame takes the key after it; an oversized control frame is refused with nothing written, and a network that fails has taken exactly the beginning of the frame |
| WebSocketConn.Conn.WriteMessage | internal/ws/ws.go:174-179 | one final text frame, refused above the maximum, cut off exactly where the network fails |
| WebSocketConn.Conn.ReadMessage | internal/ws/ws.go:181-220 | the output is one pong per ping as far as the network takes them, never too large; when all go through the loop returns the specified message, otherwise it stops with the write error |
| WebSocketConn.PongOctets | internal/ws/ws.go:199-203 | each ping is answered by the octets of one pong with its payload, in order, and a client masks each with its next key |
| WebSocketConn.XorInPlace | internal/ws/ws.go:324-326 | the in-place loop leaves octet i xor key octet i mod 4 |
| WebSocketConn.PutBigEndian | internal/ws/ws.go:307-312 | the length bytes in the header have that value, the first one the most significant |
| PathRewriting.EvaluationIsRewriting | internal/pathpolicy/pathpolicy.go:51-54 | evaluating links gives exactly what rewriting the path gives, link by link with relative targets from where the link lies and absolute ones from the root: the existing link-free path it ends in, or the error of the place where it cannot go on, or too many links |
| PathRewriting.ResolvesExactly | internal/pathpolicy/pathpolicy.go:43-60 | an existing path is resolved to q exactly if the cleaned argument rewrites to q within 255 links and q lies under a root; if it lies under none it is refused as outside |
| PathRewriting.CreatesExactly | internal/pathpolicy/pathpolicy.go:66-104 | a path to create is p exactly if p is what the longest ancestor that lstat sees rewrites to, followed by the missing names, and lies under a root |
| PathRewriting.LstatSees | internal/pathpolicy/pathpolicy.go:78-92 | lstat sees a node exactly where the path before its last name rewrites to the directory that holds it |
| PathRewriting.LstatMisses | internal/pathpolicy/pathpolicy.go:78-92 | lstat finds nothing exactly where that path, or the last name in its directory, is missing |
| PathRewriting.CleaningIsStepwise | internal/pathpolicy/pathpolicy.go:43-50 | cleaning a path argument takes its parts one after the other: nothing, up, or down |
| PathRewriting.LinksInAndOut | internal/pathpolicy/pathpolicy.go:106-117 | a link below the root that is resolved from where it lies, and an upward and an absolute link out of the root that are refused |
| PathPolicy.ResolvedExistingIsSafe | internal/pathpolicy/pathpolicy.go:43-60 | a resolved path is under a root component-wise, exists without any link on it, and resolves to itself |
| PathPolicy.CreateIsSafe | internal/pathpolicy/pathpolicy.go:66-104 | a path to create is a link-free existing part plus exactly the requested missing names, really missing, under a root, and resolves for creation to itself |
| PathPolicy.ResolveForCreate | internal/pathpolicy/pathpolicy.go:66-104 | the ancestor loop terminates and computes the nearest existing ancestor's resolution plus the missing names in order |
| PathPolicy.ResolversAgree | internal/pathpolicy/pathpolicy.go:42-104 | on a path that exists both resolvers give the same result, errors included |
| PathPolicy.ResolversDifferOnlyAtKernelLimit | internal/pathpolicy/pathpolicy.go:51-92 | on a path whose links evaluate they agree exactly when the kernel's link limit is not hit |
| PathPolicy.LowKernelLimitIsFelt | internal/pathpolicy/pathpolicy.go:51-92 | for every kernel limit below the evaluator's, a file system and a path that one resolver accepts and the other refuses |
| PathPolicy.HighKernelLimitIsNotFelt | internal/pathpolicy/pathpolicy.go:51-92 | with any other limit they agree on every path whose links evaluate |
| PathPolicy.InsideIsPrefix | internal/pathpolicy/pathpolicy.go:106-117 | the test on the relative path is component-wise containment, both ways |
| PathPolicy.WalkArrivesLinkFree | internal/pathpolicy/pathpolicy.go:51-54 | evaluating links arrives at a node that is no link |
| PathPolicy.WalkAgrees | internal/pathpolicy/pathpolicy.go:78-92 | the link limit decides whether evaluation finishes, never where it arrives |
| PathPolicy.New | internal/pathpolicy/pathpolicy.go:17-38 | roots are distinct link-free directories, exactly the resolutions of the configured ones, and any that is not one is refused |
| PathPolicy.Dedupe | internal/pathpolicy/pathpolicy.go:119-130 | keeps every value once |
| PathPolicy.KeptAreFirsts | internal/pathpolicy/pathpolicy.go:119-130 | what is kept are the values at their first positions, in order |
| ProcessOutput.Ring.Write | internal/processmgr/manager.go:280-296 | the buffer is exactly what the output holds behind base, and base is zero or what the capacity leaves off |
| ProcessOutput.Ring.Read | internal/processmgr/manager.go:298-314 | returns the slice of the whole output from the cursor, or from the oldest byte kept, never out of range: as much as the limit allows and less only at the end of the output; flags a cursor older than the buffer |
| ProcessOutput.WriteOutput | internal/processmgr/manager.go:270-278 | marks non-empty standard-error chunks in the same critical section |
| ProcessOutput.WholeOutputOrFlag | internal/processmgr/manager.go:187-204 | reads chained through next_cursor, interleaved with output, are disjoint in-order slices flagged exactly when bytes were skipped, and add up to the output when none is flagged; each gives the most there is up to the size asked for, if that is in range, and up to 64 KiB otherwise |
| ProcessOutput.ReadsMakeProgress | internal/processmgr/manager.go:187-204 | a client that is behind always receives something |
| ProcessOutput.FlagMeansSkipped | internal/processmgr/manager.go:298-302 | the exact condition under which the flag means skipped bytes |
| ProcessOutput.NegativeCursorIsFlaggedInVain | internal/processmgr/manager.go:298-302 | a cursor outside that condition |
| RateLimiter.RateBound | internal/controlplane/limiter.go:26-60 | between two granted calls at s and t on an unevicted bucket at most burst + rate * (t - s) calls are granted, whatever order clocks were read in |
| RateLimiter.SpacedNeverRefused | internal/controlplane/limiter.go:35-52 | a caller spaced by at least 1/rate is never refused, whatever other keys do and whatever is evicted |
| RateLimiter.DecidedExactly | internal/controlplane/limiter.go:26-60 | the law of every decision: with ordered clocks, a call on a new key is granted exactly when, from every call i on the key up to it, the calls granted since and itself number at most burst + rate * the time between the two |
| RateLimiter.GrantedExactly | internal/controlplane/limiter.go:26-60 | with ordered clocks all calls on a new key are granted exactly when from the i-th to the j-th there are at most burst + rate * (t_j - t_i), for all i and j |
| RateLimiter.PollingNeverRefused | cmd/orc-agent/main.go:226-241 | an agent polling from its three-second ticker, with one tick pending at most and each poll reaching the limiter up to 24 seconds late, is never refused |
| RateLimiter.EvictionIsUnobservable | internal/controlplane/limiter.go:51-58 | with ordered clocks and rate * 1800 >= burst, decisions on a key equal those of a private bucket that is never deleted |
| RateLimiter.KeysAreIndependent | internal/controlplane/limiter.go:31-58 | calls on other keys never change the decisions on a key |
| RateLimiter.ConfiguredLimitersQualify | internal/controlplane/http.go:48 | both configured limiters meet that condition |
| RateLimiter.IpLimiter.Allow | internal/controlplane/limiter.go:26-60 | refill, grant, charge and sweep as specified, for every key and time |
| RateLimiter.IpLimiter.Sweep | internal/controlplane/limiter.go:52-57 | the deleting loop removes exactly the buckets idle since before the cutoff |
| RateLimiter.SweptOfIdle | internal/controlplane/limiter.go:51-58 | after a granted call with more than 4096 buckets exactly those idle for half an hour are gone; otherwise none is |
| Store.IndexIsInverse | internal/store/memory.go:112-124 | in every run the user-code index and the pairing table are inverse to each other |
| Store.ConsumedAtMostOnce | internal/store/memory.go:147-176 | each pairing is consumed at most once |
| Store.ConsumeConditions | internal/store/memory.go:147-176 | only while approved, unexpired and unused; the new device has the pairing's owner, the given token, and a new id |
| Store.ConsumedDevicesAreDistinct | internal/store/memory.go:164-172 | different consumptions make different devices |
| Store.DeviceBelongsToLastApprover | internal/store/memory.go:126-176 | the device belongs to the last subject who approved its pairing, read off the operations alone |
| Store.ConsumedIsFrozen | internal/store/memory.go:126-176 | a consumed pairing's record never changes again |
| Store.RevocationIsPermanent | internal/store/memory.go:29-99 | no operation removes, re-owns, renames or re-keys a device or undoes a revocation |
| Store.RevokedIsLockedOut | internal/store/memory.go:42-73 | a revoked device never authenticates nor is visible again, for any token and caller |
| Store.AccessByHistory | internal/store/memory.go:29-99 | exactly who may see a device and which token opens it, in terms of the operations performed |
| Store.ConsumesExactly | internal/store/memory.go:147-176 | each refusal of a consumption and its success have exactly these conditions, and success makes exactly this device and uses up the pairing |
| Store.ApprovesExactly | internal/store/memory.go:126-145 | each refusal of an approval and its success have exactly these conditions, and success changes only the owner and the time of the pairing the code stands for |
| Store.DevicesExactly | internal/store/memory.go:29-99 | creating, touching and revoking: when each succeeds, what it changes, and that nothing else changes |
| Store.StartsExactly | internal/store/memory.go:112-124 | a pairing starts exactly when neither code is in use, under both codes |
| Store.Memory.Create | internal/store/memory.go:29-40 | refuses an existing id, otherwise files the stamped record |
| Store.Memory.Touch | internal/store/memory.go:75-86 | sets only the last-seen time |
| Store.Memory.Revoke | internal/store/memory.go:88-99 | only the owner, only once |
| Store.Memory.Log | internal/store/memory.go:101-110 | appends, after trimming a full log to its last five thousand |
| Store.Memory.StartPairing | internal/store/memory.go:112-124 | refuses either code in use, otherwise fills table and index |
| Store.Memory.Approve | internal/store/memory.go:126-145 | approval by user code, with the expired and used cases |
| Store.Memory.Consume | internal/store/memory.go:147-176 | the whole new state of a consumption and every refusal in order |
| Audit.LogIsRecentHistory | internal/store/memory.go:101-110 | in every run the log is an in-order slice ending at the last event written, and its length is that of the events written up to ten thousand and from then on 5001 + (written - 10001) mod 5000 |
| Audit.AcceptedExactlyWithRoom | internal/audit/writer.go:31-38 | in every run an event is accepted exactly if fewer than the capacity, or 1024, are accepted and not taken |
| Audit.CloseFlushes | internal/audit/writer.go:31-65 | when Close has returned, everything accepted before it began is written exactly once and in order, exactly unless it began after the goroutine had gone with events queued |
| Audit.FirstCloseFlushes | internal/audit/writer.go:31-65 | when the first Close has returned, everything accepted before it began has been written |
| Audit.SecondCloseLosesEvent | internal/audit/writer.go:39-65 | a run in which a later Close returns with an accepted event unwritten |
| Audit.ConservedStep | internal/audit/writer.go:31-65 | accepted events are the written ones, the one in hand and the queue, in order |
| SearchWalk.Run | internal/searchmgr/manager.go:204-276 | without cancellation the results are exactly the first MaxResults of the full ordered list, with it a prefix of those; the walk has done nothing to the session but add these one by one and then end |
| SearchWalk.MatchesExactly | internal/searchmgr/manager.go:215-260 | the full list holds exactly the matches of relative names, or of lines of eligible files, that are no links and on whose way no name is hidden unless that is allowed |
| SearchWalk.MatchesInWalkOrder | internal/searchmgr/manager.go:206-260 | the full list is in the order of the walk, entry by entry and line by line, with nothing in it twice |
| SearchWalk.ScanLines | internal/searchmgr/manager.go:246-260 | the line loop keeps every match up to the limit and stops there |
| SearchWalk.Walk | internal/searchmgr/manager.go:206-262 | one subtree: pruning, links, limit and cancellation against its full list |
| SearchSessions.ExactlyOncePaging | internal/searchmgr/manager.go:144-164 | under any interleaving pages concatenate to the delivered results, done is reported only at the end and stays |
| SearchSessions.PageSize | internal/searchmgr/manager.go:144-164 | a fetch at any time gives one page with what is left up to the size asked for |
| SearchSessions.PagesOfWalk | internal/searchmgr/manager.go:144-164 | for any walk interleaved with any fetches, a client's pages give a beginning of the walk's results in order, and all of them as soon as one page says done |
| SearchSessions.FetchingEnds | internal/searchmgr/manager.go:144-164 | once the walk has ended, a client that goes on fetching, with whatever limits, gets to a page that says done |
| SearchWalk.ClientsGetFirstMatches | internal/searchmgr/manager.go:144-276 | the walk and the paging together: a client that fetches from an uncancelled search until a page says done has received exactly the first MaxResults matches of the tree, in order |
| SearchSessions.RunningSearchesAreBounded | internal/searchmgr/manager.go:115-142 | at most maxSessions sessions in the table are running, although the count is taken session by session while walks end |
| SearchSessions.StartsWithRoom | internal/searchmgr/manager.go:115-142 | a search starts whenever fewer than the limit were running when its count began, whatever walks end meanwhile |
| SearchSessions.Session.GetMore | internal/searchmgr/manager.go:144-164 | the next page holds what is left up to the size asked for, a hundred by default and five hundred at most |
| Introspection.AcceptedWasVouchedFor | internal/authn/authn.go:145-225 | every accepted identity was returned for that token by a request begun less than thirty seconds earlier and is unexpired, and the cache stays within 1024 entries |
| Introspection.CacheIsTransparent | internal/authn/authn.go:145-225 | where the endpoint's answers are stable over that window, the cached verifier decides as the uncached one |
| Introspection.InsertionIsBounded | internal/authn/authn.go:205-223 | both evictions together keep the cache within its limit |
| Introspection.Verifier.Remember | internal/authn/authn.go:205-223 | below the limit nothing is evicted; at the limit exactly the entries that have run out go, and one more only if that was not enough; everything else stays as it is |
| Introspection.Verifier.Verify | internal/authn/authn.go:145-225 | a live entry is returned without asking and changes nothing, otherwise the answer is the endpoint's, and only an accepted one is remembered, in whatever cache other verifications have left meanwhile: exactly until the configured lifetime, or fifteen seconds when that is out of range, or its own expiry |
| Replacement.LeftmostIsUnique | internal/executor/executor.go:552-556 | there is one leftmost non-overlapping cutting of a text, and it is the one used |
| Replacement.PiecesAreLeftmost | internal/executor/executor.go:552-556 | the cutting joins back to the text and no occurrence starts inside a piece |
| Replacement.OccursBetween | internal/executor/executor.go:552-556 | a text occurs at a place exactly if the whole is that text between what comes before and what comes after |
| Replacement.ReplacedByLaw | internal/executor/executor.go:552-556 | at the first occurrence the new text takes its place and replacing and counting go on behind it; where there is none nothing changes |
| Replacement.ReplacedLength | internal/executor/executor.go:556-557 | the new length is the old one plus count times the difference |
| Replacement.ReplaceAll | internal/executor/executor.go:552-556 | counts and replaces the leftmost non-overlapping occurrences |
| AtomicEdit.AtomicWrite | internal/executor/executor.go:566-599 | at every step the target holds its whole old or whole new bytes and nothing else is touched; it fails exactly when a system call does, and then leaves the disk as it was; success leaves exactly the new bytes and no temporary |
| AtomicEdit.EditBlock | internal/executor/executor.go:509-564 | every refusal in order with nothing written, failing lstat and read included; otherwise the atomic write of the exact replacement with the expected count, its length and the 4 MiB bound, which fails exactly when a system call does, a write cut short included |
| AtomicEdit.EditRefusals | internal/executor/executor.go:509-564 | each refusal of an edit, symbolic links among them, has exactly this condition, and none of them holding means no refusal |
| AtomicEdit.WriteFile | internal/executor/executor.go:191-261 | every refusal in order with nothing written, the parent's resolution and a failing lstat included; otherwise the same guarantees for a whole-file write, never over a link or a directory, never above 4 MiB, and failing exactly when a system call does |
| AtomicEdit.WriteRefusals | internal/executor/executor.go:191-235 | each refusal of a write, symbolic links among them, has exactly this condition |

## Left out

- HTTP handlers, CORS, the pairing page, the dashboard and tool schemas: plumbing; only the order of store and hub calls is kept, in `Dispatch`.
- The Postgres store: its behaviour is SQL, and its error order and expiry boundary differ from the memory store.
- WebSocket handshake, TLS, dialling and deadlines: the codec starts from an established byte stream.
- WebSocketConn.Conn.WriteFrame: does not model a failing random source; every masking key is drawn.
- WebSocketConn.Conn.ReadFrame: does not say how much is left unread after a protocol error, because the connection is closed then.
- The hub is modelled on values rather than as an object graph, because its goroutines interleave at every lock; connections and calls are indices, so aliasing of pointers is not captured.
- The tool name and arguments of a call frame, and the payloads of pings and pongs: they touch no state of the hub. A pong of the relay's own protocol that is too large to send has no effect and is not an event.
- How long a blocked write takes: a write deadline is a flag of the connection, and a write under one may end at any time.
- PathPolicy.New: does not model permission errors of the file system; a missing or non-directory root is refused.
- The file system changing while a path is resolved or a search is running.
- ProcessOutput.Ring.Write: does not model 64-bit overflow of the cursor.
- Starting, signalling and reaping processes, and the counter of active ones: foreign calls and an easy invariant.
- RateLimiter.IpLimiter.Allow: uses reals, so rounding of floating-point tokens is not captured.
- Which error text a search session or an audit failure reports, and audit writes that fail.
- SearchWalk.Run: takes the matcher as an index function and line splitting as given; regular expressions and case folding are not modelled.
- The defaults and ceilings that `Start` applies to a search query: settled by one branch each; the walk takes the resulting limits.
- Introspection requests that fail before an answer (configuration, transport, malformed JSON) appear as answers without an identity.
- AtomicEdit.AtomicWrite: does not model file modes or what a power failure does to a rename.
- Configuration loading, frame validation and protocol headers: decision tables settled by one branch.
