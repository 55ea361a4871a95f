# Verified model of a SOCKSv5 proxy and its admin protocol

The repository is a single-threaded SOCKSv5 proxy with an admin protocol called
prawtos. This project models its stateful core in Dafny and proves what holds over
every run of it:

- **Relay** (`Buffer`, `Relay`, `RelayServer`, `CopyState`, `Statistics`): the COPY state, with two
  endpoints that share two linear buffers crosswise, partial sends and receives,
  half-close and selector interest. Main results: conservation of bytes, exactness of the
  counter, half-close symmetry, absence of stalls, and which bytes are lost on a close.
- **Selector** (`Selector`, `SelectorTable`): item table, bit sets, `max_fd` and growth.
  Main results: the four parts agree after every sequence of calls and during an event
  iteration whose handlers call back into the selector; registrations and close callbacks balance.
- **Parsers** (`Feeding`, `AuthParser`, `PrawtosParser`, `RequestParser`, `HelloParser`,
  `StringMatcher`, `ClientMessages`): chunk independence, acceptance of exactly the wire
  form, round trips, length bounds, and correctness of the string-to-automaton compiler.
- **Admin server** (`Stm`, `Accounts`, `UserList`, `PrawtosSession`, `PrawtosSafety`,
  `PrawtosLogin`, `PrawtosEffects`, `PrawtosReplies`, `PrawtosPipelining`, `PrawtosFaults`,
  `PrawtosTrust`, `PrawtosMachine`, `PrawtosObject`): any number of sessions over one user
  registry. Main results: no command without a login, no `abort()`, what every command does
  and answers, create-, edit- and delete-then-login end to end, delivery of all replies,
  commands sent ahead, strictly alternating callbacks, the exact set of requests that lead
  to undefined behaviour, and who can send them.

## How it is built

Code that updates memory in place is modelled by classes (`Buffer`, the four `Parser`s,
`CopyState.Session`, `FdSelector`, `UserList.Registry`, `AdminSession`, `StateMachine`).
Each method is proved to take the step of a function on values, and the theorems about
whole runs are proved about those functions. System calls are parameters: a run chooses
what every `recv` and `send` returns, within the count offered. `Undefined` and `Faulted`
stand for C code without defined behaviour; such a step ends a run.

## Findings

Promises that the code does not keep, each with the exact condition under which it does
and an input that shows the failure:

- A relay direction that closes drops what is still buffered (`Relay.TruncationOnClose`,
  `Relay.TruncationHappens`).
- COPY can start with a full buffer and read interest; `recv` is then asked for 0 bytes
  and every outcome closes the direction (`Relay.ReadNeedsRoom`, `Relay.ArrivalMayLackRoom`).
- With the origin unconnected, a close breaks the symmetry of the two sides
  (`Relay.SymmetryNeedsThePeer`, `Relay.AsymmetryWithoutPeer`). Whether a session enters
  COPY that way depends on `src/stm/request.c:157-192`, which is not well-formed C and is
  not part of this model.
- `selector_register` writes out of bounds for `fd == fd_size`; only a table of at least
  1024 items is safe, and the server's has 1025 (`Selector.RegisterSafeIff`).
- A name or password of 255 bytes, NUL included, has its terminator stored one byte past
  its field (`AuthParser.OverrunsExactly`, `PrawtosParser.OverrunsExactly`). The client
  sends one for every string of 254 characters (`PrawtosFaults.ClientCommandsFaultExactly`).
- A create copies its blocks with or without a NUL. Blocks without one are stored without
  harm and make later comparisons run past them (`PrawtosFaults.StoresUnterminatedExactly`,
  `PrawtosFaults.UnterminatedNameFaultsLater`).
- A refused login gets one write: when that `send` takes only one of the two bytes, the
  client never sees the rest (`PrawtosReplies.RefusalGetsOneWrite`).
- `get_marshal` checks the room against its first argument byte only, so a long listing
  overruns the reply buffer (`PrawtosFaults.FaultsExactly`, `PrawtosFaults.FaultyListingExamples`).
- `get_all_users` doubles its block at most once per user. That is too little exactly for
  a 255-byte name block that meets a first block filled to the last byte: a 254-character
  name is stored past the block, and a shorter one, if it is the last user, is copied from
  past it (`Accounts.StoresFitExactly`, `Accounts.BlockCoversExactly`,
  `Accounts.OverfillExamples`). No run of a server started with shorter name blocks gets
  there (`PrawtosFaults.ListingStaysInside`).
- `cmd_read` executes commands that the parser rejected. A USER command above 2 indexes
  beyond the handler table (`PrawtosParser.HandlerIndices`); a rejected delete of length 0
  deletes a user with the empty name, and a rejected create adds a user
  (`PrawtosFaults.RejectedCommandEffect`, with `RejectedDeleteTakesEffect` and
  `RejectedCreateTakesEffect`).
- A command sent ahead waits in the buffer, complete, until another byte arrives; some
  read executes it if and only if the buffer has room left and no field of it has 255
  bytes (`PrawtosPipelining.BufferedCommandsWait`, `PrawtosPipelining.ReleasedIffRoom`).
  Once the bytes received since the buffer was last empty reach 4096, every read ends the
  session and the commands are lost (`PrawtosPipelining.EveryReadDecides`,
  `PrawtosPipelining.FullBufferIsFinal`); 4096 bytes in one recv do it
  (`PrawtosPipelining.FullBufferHappens`).
- The request parser stores one byte before the domain field, and finishes all the same,
  exactly for a domain of length 0 (`RequestParser.UnderrunsExactly`,
  `RequestParser.ZeroLengthFinishes`).
- `request_marshal` reads past the domain field exactly for a domain of 255 bytes without
  NUL (`RequestParser.UnterminatedExactly`, `RequestParser.LongNameFinishes`).
- `parser_feed` reads past the 255-entry table of `parser_no_classes` exactly for byte 255
  (`StringMatcher.EmptyClassesExactly`).

Comments and code disagree in three places, and the model follows the code: the GET
commands are 0 to 3, the admin byte 1 means admin, and the three built-in accounts are
those of `src/user_utils.c`.

## Model

| member | source | states |
|---|---|---|
| LinearBuffer.BufferIsFifo | src/buffer.c:12-104 | over every sequence of operations: bytes inside plus bytes accepted equal bytes released plus bytes left, in order; R <= W <= limit and "empty implies rewound" are kept |
| LinearBuffer.CompactionOnlyGains | src/buffer.c:91-104 | compaction keeps the contents and gives the largest possible free space; it is the identity exactly at offset 0 |
| LinearBuffer.Buffer.Compact | src/buffer.c:91-104 | the overlapping in-place move preserves the unread bytes and rewinds to 0 |
| LinearBuffer.Buffer.ReadAdv | src/buffer.c:58-69 | drops exactly the first bytes, rewinds when exhausted, ignores a negative count |
| LinearBuffer.Buffer.WriteAdv | src/buffer.c:50-56 | appends exactly the bytes stored at the write pointer, ignores a negative count |
| LinearBuffer.Buffer.Read | src/buffer.c:71-81 | returns the oldest byte, or 0 and no change when empty |
| LinearBuffer.Buffer.Write | src/buffer.c:83-89 | appends the byte, or nothing when full |
| LinearBuffer.Buffer.Reset | src/buffer.c:12-16 | empties the buffer and rewinds it |
| Relay.RelayConservation | src/stm/copy.c:96-169 | every run, each direction: bytes buffered at entry followed by bytes received equal bytes delivered followed by the current contents, so output is an in-order prefix |
| Relay.CounterTracksDeliveries | src/stm/copy.c:143-155 | with one session alone, the counter equals its deliveries if and only if their sum stays below the cap |
| RelayServer.CounterTracksAllSessions | src/stadistics.c:21-24 | over every interleaving of any number of sessions, the shared counter equals all deliveries if and only if their sum stays below the cap; otherwise it undercounts and never reaches the cap |
| Relay.StepKeepsInv | src/stm/copy.c:96-169 | every handler step keeps buffers, symmetry and interests sound, reopens nothing, and answers DONE exactly when both directions are closed |
| Relay.RunKeepsInv | src/stm/copy.c:96-169 | the same over runs of any length |
| Relay.NoStall | src/stm/copy.c:13-34 | after every step an end waits to read exactly while its direction is open with room, and to write exactly while the direction is open and holds bytes; so each open direction has an end waiting for something it can do |
| Relay.OpenDirectionCanCarry | src/stm/copy.c:96-169 | from every settled state an open direction has a run that delivers its buffer and any further stream completely |
| Relay.HalfCloseSymmetry | src/stm/copy.c:106-129 | over whole runs one side's READ bit equals the other's WRITE bit; DONE is answered exactly by the step that closes the last direction, whichever end triggered it |
| Relay.OpenUnlessEnded | src/stm/copy.c:104-152 | one event closes exactly the direction it is the end of: end of stream or failed recv where it starts, failed send where it leads to |
| Relay.DoneExactly | src/stm/copy.c:96-169 | over whole runs from arrival a direction is open exactly while no event was its end, and DONE is answered exactly when both have ended |
| Relay.ClosedStaysSilent | src/stm/copy.c:143-166 | a closed direction never reopens, carries no byte and leaves its buffer as it is |
| Relay.SymmetryNeedsThePeer | src/stm/copy.c:106-111 | a step keeps the symmetry if and only if it closes nothing or the peer is connected |
| Relay.AsymmetryWithoutPeer | src/stm/copy.c:106-111 | a session without origin that loses the symmetry when the client ends its stream |
| Relay.TruncationOnClose | src/stm/copy.c:96-169 | after a close everything received has been or will be delivered if and only if the buffer was empty at the close |
| Relay.TruncationHappens | src/stm/copy.c:96-132 | from a fresh session, a byte followed by the end of the stream: the byte is never delivered, whatever follows |
| Relay.ReadNeedsRoom | src/stm/copy.c:96-112 | a read event can take bytes if and only if there is room; without room every outcome closes the direction |
| Relay.ArrivalMayLackRoom | src/stm/copy.c:36-51 | for every IPv4 request and every 90 bytes sent ahead, one recv into the 100-byte buffer and the request parser lead to COPY with read interest and no room |
| CopyState.Session.Arrival | src/stm/copy.c:36-51 | wires the two ends crosswise to the two buffers and opens both directions, keeping leftovers and interests |
| CopyState.Session.CopyPtr | src/stm/copy.c:53-67 | finds the record whose descriptor triggered the event |
| CopyState.Session.CheckInterest | src/stm/copy.c:13-34 | registers exactly the wanted interest, and nothing for descriptor -1 |
| CopyState.Session.CopyRead | src/stm/copy.c:96-132 | the in-place handler takes exactly the relay's read step and answers DONE exactly with both own bits cleared |
| CopyState.Session.CopyWrite | src/stm/copy.c:134-169 | the in-place handler takes exactly the relay's write step, counting the bytes sent |
| Selector.NextCapacity | src/selector.c:171-187 | one more than the least power of two above n, capped at 1024 |
| Selector.LeastAboveUnique | src/selector.c:171-187 | that power of two is unique |
| Selector.CapacityCovers | src/selector.c:171-187 | the new size exceeds n for every n up to the limit and never passes the limit plus one |
| Selector.GrowthKeepsItems | src/selector.c:244-286 | growth succeeds exactly with room or memory within the limit; it covers n, keeps all items, marks new ones unused, keeps coherence; a failure changes nothing |
| Selector.DoKeepsCoherent | src/selector.c:332-428 | register, unregister and set_interest each keep items, bit sets and max_fd in agreement and never shrink the table |
| Selector.RegisterEffect | src/selector.c:332-373 | success exactly for a legal unused descriptor with a handler that fits or can be made to fit, which is then watched as asked; each failure has its status; nothing else changes |
| Selector.UnregisterEffect | src/selector.c:375-409 | success exactly for a descriptor in use, which is then unused and unwatched; nothing else changes |
| Selector.SetInterestEffect | src/selector.c:411-428 | success exactly for a descriptor in use, which is then watched for exactly the new interest; nothing else changes |
| Selector.CoherentAlways | src/selector.c:209-428 | after every sequence of calls: used item i has fd i, membership in each bit set is use plus that interest, max_fd is the largest used fd or 0 |
| Selector.RegisterSafeIff | src/selector.c:332-350 | every legal descriptor can be registered within bounds if and only if the table has at least 1024 items; an initial size of 1024 gives 1025 |
| Selector.RoomyNeverOutOfBounds | src/selector.c:332-428 | with that table no sequence of calls indexes out of it |
| Selector.RegistrationsBalance | src/selector.c:332-409 | over every sequence: successful registrations equal close callbacks plus items still in use |
| Selector.IterationSound | src/selector.c:447-479 | whatever the handlers do to the selector, an iteration keeps it coherent and fires only reported events, in descriptor order, read before write, each once |
| Selector.ServesExactly | src/selector.c:453-477 | one item: the read handler is called if and only if reported and watched, the write handler if and only if reported and still watched then; the selector is left as their calls leave it |
| Selector.IterationComplete | src/selector.c:447-479 | with handlers that touch only their own descriptor, exactly the reported and watched read handlers are called, and exactly such write handlers of the other descriptors |
| Selector.IdleIteration | src/selector.c:447-479 | with handlers that make no calls, an iteration up to max_fd fires exactly the pairs reported and watched and changes nothing |
| Selector.FiresOnlyWithInterest | src/selector.c:447-479 | a handler fires only with the interest registered at that moment; an item its read handler unregistered gets no write event |
| SelectorTable.FdSelector.New | src/selector.c:288-305 | non-null exactly when the first allocation is possible, then coherent, empty and of the computed size |
| SelectorTable.FdSelector.ItemsInit | src/selector.c:198-204 | marks exactly the items from `last` on as unused |
| SelectorTable.FdSelector.EnsureCapacity | src/selector.c:244-286 | reallocates in place to the modelled growth |
| SelectorTable.FdSelector.ItemsMaxFd | src/selector.c:209-221 | the scan computes the largest used descriptor |
| SelectorTable.FdSelector.UpdateFdset | src/selector.c:223-237 | both bit sets reflect the item's interest afterwards |
| SelectorTable.FdSelector.Register | src/selector.c:332-373 | status and whole new state of a registration, including growth and every error |
| SelectorTable.FdSelector.Unregister | src/selector.c:375-409 | status, new state and close callback of an unregistration |
| SelectorTable.FdSelector.SetInterest | src/selector.c:411-428 | status and whole new state |
| SelectorTable.FdSelector.Destroy | src/selector.c:307-328 | one close callback for every item in use whose handler has one; nothing stays watched |
| Feeding.ChunkIndependence | src/parser/prawtos_parser.c:242-255 | for any parser with this loop: consuming a stream in any pieces gives the same state, fields and unread bytes as consuming it whole |
| Feeding.UnfinishedConsumeRewinds | src/buffer.c:58-69 | an unfinished consume takes every byte, which leaves the buffer empty and rewound with its whole capacity free |
| Feeding.ConsumeBounded | src/parser/auth_parser.c:133-146 | a measure that each byte decreases bounds the length of every message |
| Feeding.FieldString | src/parser/auth_parser.c:56-68 | a 255-byte field holds a C string exactly when shorter than 255 or containing NUL, and then it is the bytes fed |
| AuthParser.ParsesExactlyTheEncoding | src/parser/auth_parser.c:98-129 | a name and a password are accepted if and only if the stream starts with their wire form of RFC 1929 |
| AuthParser.ParsesEncoding | src/parser/auth_parser.c:98-146 | every wire form is parsed to its fields and what follows stays unread |
| AuthParser.EndIsFinal | src/parser/auth_parser.c:118-124 | bytes fed after the end never turn a rejection into an acceptance, and spoil an acceptance |
| AuthParser.FinishedIsEncoding | src/parser/auth_parser.c:98-146 | an accepted stream is the wire form of what the parser holds plus the unread rest |
| AuthParser.AtMost513Bytes | src/parser/auth_parser.c:19-129 | a terminal state within 513 bytes, whatever they are |
| AuthParser.OverrunsExactly | src/parser/auth_parser.c:56-96 | a terminator is stored past its field if and only if the stream holds a complete name or password of 255 bytes |
| AuthParser.Parser.FeedByte | src/parser/auth_parser.c:98-129 | the in-place automaton step |
| AuthParser.Parser.ConsumeFrom | src/parser/auth_parser.c:133-146 | the loop consumes up to the first terminal state, leaves the rest in the buffer and reports errors |
| AuthParser.Marshal | src/parser/auth_parser.c:170-183 | appends version and status, or nothing without room |
| PrawtosParser.ParsesMessage | src/parser/prawtos_parser.c:167-255 | from any initialised parser every message is parsed to exactly itself and what follows stays unread |
| PrawtosParser.EndIsFinal | src/parser/prawtos_parser.c:195-212 | bytes fed after the end change neither a rejection nor an acceptance |
| PrawtosParser.FinishedIsEncoding | src/parser/prawtos_parser.c:167-255 | a finished parser holds a valid message whose wire form starts the stream |
| PrawtosParser.EncodeInjective | src/parser/prawtos_parser.c:25-164 | different messages have different wire forms |
| PrawtosParser.FeedExplains | src/parser/prawtos_parser.c:167-212 | every step keeps "the fields determine the bytes fed so far" |
| PrawtosParser.HandlerIndices | src/prawtos/cmd_prawtos.c:62-93 | a finished command indexes its handler table in range; a USER index is out of range if and only if the stream starts with USER and a byte above 2 |
| PrawtosParser.AtMost515Bytes | src/parser/prawtos_parser.c:15-212 | a terminal state within 515 bytes, whatever they are |
| PrawtosParser.OverrunsExactly | src/parser/prawtos_parser.c:121-164 | a terminator is stored past its field if and only if the stream is a USER command with a complete name or password of 255 bytes |
| PrawtosParser.Parser.Init | src/parser/prawtos_parser.c:214-219 | a fresh parser; type byte and counters are kept |
| PrawtosParser.Parser.FeedByte | src/parser/prawtos_parser.c:167-212 | the in-place automaton step |
| PrawtosParser.Parser.ConsumeFrom | src/parser/prawtos_parser.c:242-255 | the loop consumes up to the first terminal state and leaves the rest |
| PrawtosParser.GetMarshal | src/parser/prawtos_parser.c:257-279 | where its room test is sound, the whole reply or nothing |
| PrawtosParser.StatusMarshal | src/parser/prawtos_parser.c:281-309 | the one status byte or nothing |
| RequestParser.FinishesExactly | src/parser/request_parser.c:122-182 | finishes if and only if the stream starts with a whole request, and takes exactly that; it does so inside its memory if and only if no domain has length 0 |
| RequestParser.EndIsFinal | src/parser/request_parser.c:122-161 | bytes fed after the end change neither a rejection nor an acceptance |
| RequestParser.UnderrunsExactly | src/parser/request_parser.c:75-80 | whatever the stream, a byte is stored before the domain field if and only if it is a request with a domain of length 0 |
| RequestParser.ZeroLengthFinishes | src/parser/request_parser.c:75-120 | every such request finishes on its eighth byte |
| RequestParser.UnterminatedExactly | src/parser/request_parser.c:184-227 | for every finished request the domain field has no NUL if and only if the stream holds a domain of 255 bytes without NUL |
| RequestParser.LongNameFinishes | src/parser/request_parser.c:82-109 | every name of 255 bytes without NUL leads to such a finished parser |
| RequestParser.RequestRoundTrip | src/parser/request_parser.c:47-227 | for every IPv4, IPv6 or NUL-free domain request the reply printed from the parser repeats ATYP, address and port exactly |
| RequestParser.ReplyRoundTrip | src/parser/request_parser.c:184-227 | parsing a printed reply recovers status, address and port |
| RequestParser.AtMost262Bytes | src/parser/request_parser.c:11-161 | a terminal state within 262 bytes, whatever they are |
| RequestParser.Parser.FeedByte | src/parser/request_parser.c:122-161 | the in-place automaton step |
| RequestParser.Parser.ConsumeFrom | src/parser/request_parser.c:169-182 | the loop consumes up to the first terminal state and leaves the rest |
| RequestParser.Parser.Marshal | src/parser/request_parser.c:184-227 | the whole reply or, without room, nothing |
| HelloParser.ParsesExactlyTheEncoding | src/parser/hello_parser.c:9-92 | a method list is accepted if and only if the stream starts with its wire form; each method is reported once and in order, the rest stays unread |
| HelloParser.AtMost257Bytes | src/parser/hello_parser.c:9-54 | a terminal state within 257 bytes, whatever they are |
| HelloParser.EndIsFinal | src/parser/hello_parser.c:9-54 | bytes fed after the end change neither a rejection nor an acceptance |
| HelloParser.Parser.ConsumeFrom | src/parser/hello_parser.c:78-92 | the loop consumes up to the first terminal state and leaves the rest |
| HelloParser.Marshal | src/parser/hello_parser.c:94-106 | appends version and method, or nothing without room |
| StringMatcher.Strcmpi | src/parser/parser_utils.c:72-135 | fills the arrays with the automaton of the string, or no states without memory |
| StringMatcher.FoldsExactly | src/parser/parser_utils.c:97-102 | two bytes fold alike exactly when equal or the two cases of one letter |
| StringMatcher.MatcherStep | src/parser/parser_utils.c:94-125 | in every state some transition fires, its destination is in range, and a character state advances exactly for its letter in either case |
| StringMatcher.MatcherDecides | src/parser/parser_utils.c:44-135 | for every ASCII string and every non-empty input the last event is EQ, MAYEQ or NEQ exactly as the input equals, properly prefixes or differs from it ignoring case |
| StringMatcher.EmptyClassesExactly | src/parser/parser.c:49-90 | with the empty class table every read is inside it if and only if the input has no byte 255 |
| StringMatcher.FirstFiringDecides | src/parser/parser.c:49-82 | for every table, the first transition that names the byte, any byte or a class of the byte decides state and event; without one both stay |
| StringMatcher.Parser.Feed | src/parser/parser.c:49-82 | the first matching transition of the row fires; without one, state and event stay |
| StringMatcher.Parser.Reset | src/parser/parser.c:44-47 | back to the start state |
| ClientMessages.LoginMessage | client/client.c:207-219 | the bytes sent are exactly the wire form of name and password |
| ClientMessages.CreateMessage | client/client.c:368-381 | the bytes sent are exactly the create message, with NULs counted in the lengths |
| ClientMessages.DeleteMessage | client/client.c:396-405 | the bytes sent are exactly the delete message |
| ClientMessages.EditMessage | client/client.c:424-438 | the bytes sent are exactly the edit message |
| Accounts.ToMapIsMapOf | src/user_utils.c:16-47 | the list stands for the map that holds each user's credential under its name and nothing else, of the same size |
| Accounts.AddRefines | src/user_utils.c:16-47 | the map changes exactly when the name is absent, and then only by that name |
| Accounts.DeleteRefines | src/user_utils.c:50-75 | exactly the named entry goes; the length tells whether there was one |
| Accounts.EditRefines | src/user_utils.c:78-100 | exactly the password of the named entry changes |
| Accounts.OrderKept | src/user_utils.c:16-100 | the names stay in insertion order: add appends an absent name, delete drops the name, edit changes none |
| Accounts.AcceptsIsLookup | src/user_utils.c:133-143 | credentials are accepted if and only if the map holds that password for an admin |
| Accounts.ListingDecodes | src/user_utils.c:102-127 | length-prefixed decoding of a listing gives exactly the names in list order |
| Accounts.BlockCoversExactly | src/user_utils.c:102-127 | for every registry the final block covers the bytes reported if and only if the last user is not a 255-byte name block behind exactly 255 bytes |
| Accounts.StoresFitExactly | src/user_utils.c:112-122 | for every registry all stores stay inside the block if and only if no 254-character name stands behind exactly 255 bytes |
| Accounts.ListingDefinedExactly | src/user_utils.c:102-127 | stores and final copy both stay inside if and only if the registry does not overfill, a condition on names and positions |
| Accounts.OverfillExamples | src/user_utils.c:112-122 | a valid registry whose stores leave the block, and one where only the copy of the result does |
| Accounts.AddedIsHonoured | src/user_utils.c:16-47 | a new terminated admin can log in, with no comparison on the way running past a block |
| Accounts.EditedIsHonoured | src/user_utils.c:78-100 | an edited admin can log in with the new password, no comparison running past a block |
| Accounts.DeleteKeepsLogin | src/user_utils.c:50-75 | deleting another name keeps a login accepted and its comparisons defined |
| Accounts.EditKeepsLogin | src/user_utils.c:78-100 | editing another name keeps a login accepted and its comparisons defined |
| UserList.Registry.AddUser | src/user_utils.c:16-47 | the recursive insertion appends at the end of the linked list, with or without NULs in its blocks, or changes nothing for a known name; size equals the length of the list |
| UserList.Registry.DeleteUser | src/user_utils.c:50-75 | unlinks exactly the named node, wherever it is |
| UserList.Registry.EditUser | src/user_utils.c:78-100 | rewrites exactly the named user's password |
| UserList.Registry.GetAllUsers | src/user_utils.c:102-127 | for exactly the registries whose listing is defined: every store is inside the current block across doublings, and the result is a listing of all users |
| UserList.Registry.CheckCredentials | src/user_utils.c:133-143 | 0 exactly for accepted credentials, whenever no comparison runs past a block |
| Stm.TableInOrder | src/stm/stm.c:10-24 | passes exactly for consecutive states and an initial state below the last |
| Stm.HandleAlternates | src/stm/stm.c:26-52 | every event keeps arrivals and departures strictly in turn and ends in the state answered |
| Stm.RunAlternates | src/stm/stm.c:54-88 | the same after any sequence of events, for any table |
| Stm.ClosedRunIsWholeVisits | src/stm/stm.c:90-95 | closing after any events completes the last visit: each arrival is followed by the departure from that state |
| Stm.StateMachine.Handle | src/stm/stm.c:54-88 | the in-place machine takes that step |
| PrawtosMachine.ReadJoins | src/prawtos/prawtos.c:12-37 | a read event of the session model is one event of the engine for the prawtos table |
| PrawtosMachine.WriteJoins | src/prawtos/prawtos.c:12-37 | the same for a write event |
| PrawtosMachine.CallbacksAlternate | src/stm/stm.c:26-76 | in every run of the server, the engine of each session is in the state of the session, and its arrivals and departures alternate strictly |
| PrawtosSafety.StepKeepsInv | src/prawtos/prawtos.c:12-85 | every event of every session keeps state and interest in lockstep, pending replies exactly in write states, the registry sound, and reaches no abort() |
| PrawtosSafety.RunKeepsInv | src/prawtos/prawtos.c:12-85 | the same for runs of any length with any number of sessions |
| PrawtosSafety.CommandsNeedLogin | src/prawtos/cmd_prawtos.c:104-162 | in every run, under any chunking and any failed or partial sends, cmd_process runs only after check_credentials succeeded in that session; the same holds for the next call, even if its execution is undefined |
| PrawtosSafety.CommandsStartFresh | src/prawtos/cmd_prawtos.c:95-102 | a session enters CMD_READ only after a login, with a fresh parser and the previous reply fully sent |
| PrawtosSafety.ReadEffect | src/prawtos/cmd_prawtos.c:62-133 | a read changes the registry only as the handler entry of the command received does, and the log tells how |
| PrawtosLogin.LoginSurvives | src/prawtos/cmd_prawtos.c:64-93 | an accepted login stays accepted, and its comparisons defined, in every later run until a delete or edit of that name succeeds |
| PrawtosLogin.CommandArrives | src/prawtos/cmd_prawtos.c:135-162 | under any chunking and with any bytes buffered before, a complete command is executed once, on its last piece, and what follows stays buffered |
| PrawtosLogin.LoginArrives | src/prawtos/auth_prawtos.c:32-58 | under any chunking and with any bytes behind it, a complete login is checked once, on its last piece, and what follows stays buffered |
| PrawtosLogin.CreateAdminTakesEffect | src/prawtos/cmd_prawtos.c:64-71 | the create-admin message of an absent name adds exactly that account, answers success, and its credentials are accepted; it is undefined exactly when the search for the name runs past a stored block |
| PrawtosLogin.LoginIsAccepted | src/prawtos/auth_prawtos.c:16-58 | for strings of 1 to 254 bytes, any chunking and any bytes behind: success exactly when the registry accepts the credentials, undefined exactly when a comparison runs past a stored block |
| PrawtosLogin.CreateThenLogin | src/prawtos/auth_prawtos.c:22-81 | create admin, then any run of any sessions without a successful delete or edit of the name, then the login message with any bytes behind it: accepted |
| PrawtosEffects.UserCommandTakesEffect | src/prawtos/cmd_prawtos.c:64-120 | every create, delete and edit, under any chunking and with or without NULs: the new map, the list and the reply byte as the fields of the message say; undefined exactly for a search past a block or an edit without NUL |
| PrawtosEffects.EditThenLogin | src/prawtos/cmd_prawtos.c:82-89 | after the edit message of an admin, only the new password is accepted in every later run until another delete or edit of the name, and the login message with it succeeds |
| PrawtosEffects.DeleteThenLogin | src/prawtos/cmd_prawtos.c:73-80 | after the delete message, no login of the name is accepted in any later run until the name is created again |
| PrawtosEffects.GetIsAnswered | src/prawtos/cmd_prawtos.c:10-62 | the whole reply as the client decodes it: status, command, count, and bytes sent, total or concurrent connections as a big-endian number, or the listing of the users; undefined exactly for a faulty listing |
| PrawtosEffects.QuitAndSniff | src/prawtos/cmd_prawtos.c:121-130 | a QUIT is answered with success, a SNIFF ends the session without a reply; neither changes the registry |
| PrawtosEffects.RejectedStep | src/prawtos/cmd_prawtos.c:146-161 | a rejected USER command ends its session without a reply, and what its handler did to the registry stays |
| PrawtosEffects.RejectedDelete | src/prawtos/cmd_prawtos.c:146-161 | the bytes 1, 1, 0 remove exactly the user with the empty name and end the session |
| PrawtosEffects.RejectedCreate | src/prawtos/cmd_prawtos.c:146-161 | the bytes 1, 0, 2 append a user with two empty blocks, if no user has the empty name, and end the session |
| PrawtosEffects.AcceptOpens | src/prawtos/prawtos.c:103-125 | accepting adds one session that waits for its login, and changes nothing else |
| PrawtosEffects.OthersUntouched | src/prawtos/prawtos.c:69-85 | an event of one session leaves every other session as it is |
| PrawtosReplies.RepliesDelivered | src/prawtos/cmd_prawtos.c:164-189 | in every run, for every session still there: what was pending and all replies queued since equal what the client was sent, in order, followed by what is pending |
| PrawtosReplies.AllRepliesSent | src/prawtos/auth_prawtos.c:60-81 | whenever a session waits for a command, the client has been sent every reply completely |
| PrawtosReplies.WriteKeepsRest | src/prawtos/cmd_prawtos.c:167-187 | a write keeps exactly what was not sent, and turns to reading commands if and only if nothing is left |
| PrawtosReplies.EndsExactly | src/prawtos/prawtos.c:69-85 | a session ends exactly on end of stream, failed recv, a rejected request, a SNIFF, the first write after a refused login, or the write that answers a QUIT |
| PrawtosReplies.QuitIsAnswered | src/prawtos/cmd_prawtos.c:173-176 | the write that ends a session after QUIT is exactly the one that sends the whole answer |
| PrawtosReplies.RefusalGetsOneWrite | src/prawtos/auth_prawtos.c:64-68 | the first write after a refused login ends the session; the client has the whole refusal if and only if that send took both bytes |
| PrawtosPipelining.BufferedCommandsWait | src/prawtos/cmd_prawtos.c:135-162 | over every run without bytes for a session that waits for a command, none of its commands is executed and its buffer stays as it is |
| PrawtosPipelining.ReleasedIffRoom | src/prawtos/cmd_prawtos.c:135-162 | a complete command in the buffer is executed by some read if and only if the buffer has room and no field of it has 255 bytes |
| PrawtosPipelining.EveryReadDecides | src/prawtos/cmd_prawtos.c:141-161 | every read of any bytes executes the buffered command, or is undefined for a 255-byte field; without room every read ends the session and executes nothing |
| PrawtosPipelining.NextByteReleases | src/prawtos/cmd_prawtos.c:135-162 | with room in the buffer, the next byte has the buffered command executed and stays buffered itself behind what followed |
| PrawtosPipelining.FullBufferIsFinal | src/prawtos/cmd_prawtos.c:141-161 | once the buffer has no room, no run executes another command of the session |
| PrawtosPipelining.SentAheadStaysBuffered | src/prawtos/cmd_prawtos.c:135-189 | a GET and up to 4094 bytes in one recv lead to a session that waits with those bytes buffered and the room reduced by all that was received |
| PrawtosPipelining.FullBufferHappens | src/buffer.c:58-69 | 4096 bytes in one recv, a GET and further commands, leave a full buffer: no later run executes any of them |
| PrawtosFaults.FaultsExactly | src/prawtos/cmd_prawtos.c:104-162 | for every terminal parser state and valid registry, cmd_process is undefined if and only if the command is faulty: listing, handler index, search past a block, or edit without NUL |
| PrawtosFaults.RunFaultsExactly | src/prawtos/cmd_prawtos.c:135-162 | in every run the next event leads to undefined behaviour if and only if its bytes complete a 255-byte field, a login that runs past a block, or a faulty command |
| PrawtosTrust.StrangersFaultOnly | src/prawtos/auth_prawtos.c:16-58 | for a server started with all NULs in place: an event of a session that has not logged in is undefined only if its bytes complete a 255-byte login field, or its login runs past a block of a user that a logged-in session created |
| PrawtosTrust.HandledExplained | src/prawtos/cmd_prawtos.c:64-93 | every command keeps "each block without NUL was stored by a logged-in session" |
| PrawtosFaults.ListingStaysInside | src/user_utils.c:102-127 | no run of a server started with name blocks of at most 254 bytes makes the listing leave its block |
| PrawtosFaults.StoresUnterminatedExactly | src/user_utils.c:18-32 | of all defined commands exactly a create whose name or password has no NUL stores a block without NUL |
| PrawtosFaults.UnterminatedNameFaultsLater | src/user_utils.c:33-36 | a name stored as one byte without NUL makes a search undefined exactly for the names that start with it |
| PrawtosFaults.ClientCommandsFaultExactly | client/client.c:368-438 | for every create, delete and edit message of the client and every registry: undefined if and only if a string has 254 characters or the search for the name runs past a block; never with all NULs in place |
| PrawtosFaults.FaultyListingExamples | src/parser/prawtos_parser.c:257-279 | seventeen users that the protocol can create overrun the reply buffer; the crowded registries leave the block of the listing |
| PrawtosFaults.RejectedCommandEffect | src/prawtos/cmd_prawtos.c:146-151 | a rejected command ends the session and changes the registry if and only if it is a delete and a user with the empty name exists, or a create of an absent name |
| PrawtosFaults.RejectedDeleteTakesEffect | src/prawtos/cmd_prawtos.c:146-151 | the three bytes USER, DELETE, 0 are such a delete |
| PrawtosFaults.RejectedCreateTakesEffect | src/prawtos/cmd_prawtos.c:146-151 | the three bytes USER, CREATE, 2 store a user with two empty blocks, with which no name can be compared |
| PrawtosObject.AdminSession.AuthProcess | src/prawtos/auth_prawtos.c:16-30 | checks the linked registry and queues the answer as the session model says |
| PrawtosObject.AdminSession.AuthRead | src/prawtos/auth_prawtos.c:32-58 | the in-place handler takes exactly the model's login read |
| PrawtosObject.AdminSession.AuthWrite | src/prawtos/auth_prawtos.c:60-81 | the in-place handler takes exactly the model's login write |
| PrawtosObject.AdminSession.HandleUser | src/prawtos/cmd_prawtos.c:64-93 | the table entry changes the linked registry as the model says, and reports success exactly on a change |
| PrawtosObject.AdminSession.ProcessGet | src/prawtos/cmd_prawtos.c:48-62 | the listing that get_all_users writes, or the counters given, become the reply as the model says |
| PrawtosObject.AdminSession.CmdProcess | src/prawtos/cmd_prawtos.c:104-133 | dispatch, listing, registry change, status and reply as the model says |
| PrawtosObject.AdminSession.CmdRead | src/prawtos/cmd_prawtos.c:135-162 | the in-place handler takes exactly the model's command read |
| PrawtosObject.AdminSession.CmdWrite | src/prawtos/cmd_prawtos.c:164-189 | the in-place handler takes exactly the model's command write |
| PrawtosObject.AdminSession.StmRead | src/stm/stm.c:54-64 | first arrival, handler and jump over the engine, mutable buffers, parsers and registry are exactly one read step of the session model, and keep the callbacks alternating |
| PrawtosObject.AdminSession.StmWrite | src/stm/stm.c:66-76 | the same for one write step |

## Left out

- The sniffer (`src/pop3sniff.c`): its call in COPY is a no-op here.
- `src/stm/request.c`, `src/stm/hello.c`, `src/stm/auth.c`, `src/stm/stm_initialize.c`: the SOCKS session around COPY; its parsers are modelled on their own.
- `src/socks5.c`, `src/server.c`: accepting, sockets, allocation and teardown. Accepting an admin connection is one step that always succeeds.
- Selector threads, signals, `pselect` and the blocking-job list: readiness is an arbitrary subset of what is watched.
- `errno_to_socks` and `cmd_resolve`: name resolution and address formatting.
- `src/args.c`, `src/logger_write.c`, `src/register.c`, `src/netutils.c`: command line, logging and plain socket calls.
- Connection counters: single guarded increments; GET replies take their values as parameters.
- `init_user_list` contents: results hold for every initial registry without duplicate names.
- Client menus and answer printing: user interface; only the message builders are modelled.
- Failing `malloc` outside the selector and the matcher: the code dereferences the result before or without a check.
- AuthParser.Parser.FeedByte: the byte that the code stores past a 255-byte field is not kept; a session whose parser does that has no defined next state.
- PrawtosParser.Parser.FeedByte: the same holds for the store past a 255-byte field.
- PrawtosParser.GetMarshal: requires the replies for which its room test is sound; the others are undefined in the session model.
- RequestParser.Parser.FeedByte: the byte stored before the field for a zero-length domain is not kept (the finding says exactly when it is stored), and the members of the address union are kept apart.
- RequestParser.Parser.Marshal: for a domain, requires its NUL inside the field; the finding says exactly when it is missing.
- StringMatcher.Parser.Feed: requires an entry of the class table for the byte; the second action and event, which no compiled transition uses, are absent, and class masks are sets.
- CopyState.Session.CheckInterest: the abort on a failing selector_set_interest is absent, because connected descriptors are registered.
- UserList.Registry.AddUser: the lengths cover the strings, as in every command; the registration of command-line users in `src/server.c`, which copies a fixed 8 bytes, is not part of this model.
- UserList.Registry.DeleteUser: the comparison of the freed pointer is taken as a comparison of addresses.
- UserList.Registry.EditUser: requires room for the NUL of the new password; the session model treats the other edits as undefined.
- PrawtosObject.AdminSession.CmdProcess: the counters of GET replies are parameters; malloc of 0 bytes is taken to return a block.
- PrawtosSafety.RunKeepsInv: the failure branch of setting the interest is absent, because a descriptor is registered while its handler runs; the union of login and command state is not overlaid, and results hold for any stale type byte and counters.
- PrawtosLogin.CreateThenLogin: names and passwords have 1 to 253 bytes; with 254 the create message has a 255-byte field, which is undefined.
- Selector.IterationSound: handlers are functions of the selector and the event that answer with a sequence of selector calls.
- Selector.GrowthKeepsItems: new items carry no interest; the code leaves that memory as realloc returns it until first use.
