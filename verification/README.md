# Verified model of ADBTestCE

This project models the stateful parts of ADBTestCE (an adb host together with
its JSON library) in Dafny 4.11 and proves what they promise. `dafny verify
dfyconfig.toml` checks everything.

## What is modelled

**The stream multiplexer** (`sockets.cpp`, `handle_packet` in `adb.cpp`).
`Sockets` gives every handler of one endpoint as a function on its state: local
sockets on an open and a closing list, remote and local peers, packet queues,
event interest, bindings to transports. `Streams`, `Multiplexer`, `QuietSteps`
and `Runs` put two endpoints on two FIFO channels and show that one invariant
survives every event: partial reads and writes, accepted and refused requests,
local pairs, closes from either side and writes that fail. A link exists from the
moment an OPEN is accepted. `StreamTheorems` states the results for whole runs;
`StreamEndings`, with `Bystanders` and `HangUps`, says exactly when a close reaches
the other half and what has been delivered by then. `LocalPairs` does the same for
sockets that are each other's peers, and `EventEffects` says what each event does to
the socket it is about. `KernelAnswers` says where the loops over the kernel's
answers stop.
`SocketEngine` is the code as it runs (lists and sockets updated in place, loops
over what the kernel answers, the recursive close, the restarting scan of
`close_all_sockets`); each method is tied to its function in `Sockets`.
`PacketQueue` and `IntrusiveList` go down to the chained packets and to the
circular lists with sentinel. `RequestFraming` is the smart socket that collects
a service request from arbitrary chunks. The file with `send_packet` is not part
of this model: sending is appending to a channel.

**The JSON library** (reader, both string writers, values). `JsonParser` is the
scanner and parser, with error recovery, as functions on the remaining input;
`JsonReader` is the reader itself (a cursor, a stack of references into the root,
an error list) and computes the same. `JsonWriters` holds `FastWriter` and
`StyledWriter` with their mutable documents, collected children and indentation,
`JsonLayout` the pretty-printed form of a value on its own;
`JsonSpelling` and `JsonLexemes` connect text, lexemes and values, and
`JsonRoundTrip` concludes that parsing undoes writing. `JsonTokens`, `JsonScanning` and
`JsonMembers` are about text that the writers do not produce: the grammar of the tokens,
other white space, comments, malformed tokens, unsorted and repeated names. `JsonLines`
states the rules of the styled layout line by line. `JsonNumbers` and
`JsonStrings` cover the digit, escape and UTF-8 code; `JsonValue` and
`JsonOrdering` the maps and the comparison operators.

**The fd event loop** (`fdevent.c`, the select branch). `FdEvents` is the loop
with its table, three sets, bound, flags and pending list, and one coherence
invariant that registration, removal, interest changes, `fdevent_process`, the
drain loop with arbitrary callbacks, and the subprocess handler all keep. `FdLoops`
is the same loop as a value, which the methods refine, and says which callbacks are
called; `FdFlags` are the bits.

**Pushing files** (`file_sync_client.cpp`, `file_sync_service.c`). `PushSession`
is the byte protocol of both ends and a session of many pushes; `FileSync` has
both ends as loops over their streams, and `PushLimits` says which files and which
streams of frames are taken. `Words` are the 32-bit words on the wire.

**The batch allocator** (`json_batchallocator.h`). `BatchAllocator` carves pages
and keeps a free list in the released blocks.

## Where the code falls short of what it seems to promise

Each of these is proved, where it makes sense with the exact condition under which
the code is right.

- A client that hangs up before its first OKAY sends no CLSE, so that the service
  socket on the far side stays open until an event of its own fd closes it
  (`StreamEndings.HangUpAbandons`). Exactly the closes of such clients do not reach
  the partner (`HangUps.CloseReachesUnlessHungUp`).
- What follows a request in the chunk that completes it is dropped, so that a
  client that does not wait loses requests exactly if some chunk runs past the end
  of one (`RequestFraming.StreamDispatchedExactly`).
- `operator<=` of JSON values has its operands the wrong way round and is right
  only for equal values (`JsonOrdering.MixedComparisons`).
- The separator test in `readArray` can never fail: any token but `]` separates two
  items, so that `[1:2]` is read as `[1,2]`, and `[1 2 3]` as `[1,3]` with a value
  lost and no error (`JsonLexemes.AnyTokenSeparates`). An array is refused only for
  an item (`JsonLexemes.ArrayFailsThroughItem`).
- `readObject` takes any token for a separator once a comment stands before it, and
  a brace behind a comma after an empty name (`JsonLexemes.ObjectFailsExactly`).
- A low surrogate on its own is decoded to bytes that are no UTF-8, and any escape is
  taken for the second half of a pair (`JsonStrings.PointIsScalarExactly`,
  `JsonStrings.PairIsReadExactly`).
- A minus without digits is read as the number 0, and leading zeros are taken
  (`JsonScanning.LoneMinusIsZero`).
- When the interest changes, `fdevent_set` masks pending events with the complement
  of the wanted ones and so drops exactly what is wanted
  (`FdFlags.WantedEventsAreDropped`).
- The table of fdevents is cleared in units of an int: on targets whose pointers
  are wider, half of the new entries keep what memory held
  (`FdEvents.NewEntriesAreNull`). The loop is modelled for equal widths.
- The client reads at most 256 bytes of the reason for a failed push and would be
  out of step after a longer one (`PushSession.PushKeepsStep`). This service sends
  none: its reasons are texts of `strerror` and short fixed ones.
- An old file that cannot be unlinked is written over without being cut, so that its
  end may survive a push that is answered with OKAY, and its mode does
  (`PushSession.StoredExactly`).
- A local file that does not open, or of which a read fails, is pushed as far as it
  was read and answered with OKAY (`FileSync.LocalFileStoredExactly`).
- The client looks at the length of the path alone, so that a path which does not
  leave room for the mode ends the session (`PushSession.ServedExactly`).
- Carving stays within a page exactly if the block size divides the page size; the
  array allocator's 8 does not divide 255 (`BatchAllocator.ArrayPagesOverrun`).

## Conventions

A socket is named by the id it was created with, also after its id field has been
cleared. What the kernel, select, `strtoul`, `sscanf`, `sprintf` and the disk answer are
parameters. The histories of written and handed bytes and of sent CLSE packets in
an endpoint exist for the statements only. A `hide` in a proof keeps a definition
out of the solver's sight; nothing is assumed anywhere.

## Model

| member | source | states |
|---|---|---|
| `StreamTheorems.StreamSafety` | `ADBTestCE/adb/sockets.cpp:131-388` | in every run of two endpoints, the bytes written to a linked fd are a prefix of what its partner handed over, in both directions; while the receiving half is open nothing is lost: written, queued and in-flight bytes are exactly the bytes handed over |
| `StreamTheorems.FlowControl` | `ADBTestCE/adb/sockets.cpp:475-496` | per direction of an open linked stream exactly one of four tokens exists (read interest, a WRTE in flight, a queued packet, an OKAY in flight), so a linked queue holds at most one packet |
| `StreamTheorems.HeapsStayCoherent` | `ADBTestCE/adb/sockets.cpp:80-111` | after every run both socket heaps are coherent and no call went through a null peer |
| `StreamTheorems.CloseHandshake` | `ADBTestCE/adb/sockets.cpp:498-516` | a remote socket sends at most one CLSE, only when its half closes; when the channels are empty after a CLSE from either half neither half is on an open list |
| `StreamTheorems.DeliveryProgress` | `ADBTestCE/adb/adb.cpp:570-619` | every delivered packet strictly lowers a measure, so draining the channels ends and no CLSE exchange goes on for ever |
| `StreamTheorems.RunKeepsBonds` | `ADBTestCE/adb/adb.cpp:586-593` | links and bound halves survive every continuation of a run |
| `StreamTheorems.BothHalvesClose` | `ADBTestCE/adb/sockets.cpp:228-262` | once both halves have been bound, a run in which either closes and which drains leaves neither on an open list, both closing at once included |
| `StreamEndings.HandshakeCompletesExactly` | `ADBTestCE/adb/sockets.cpp:228-262` | in every drained run in which a half has closed, both halves are off the open lists if and only if one of them said farewell |
| `HangUps.CloseReachesUnlessHungUp` | `ADBTestCE/adb/sockets.cpp:228-242` | after a half has closed, its idle partner is closed too once the channels have drained, unless the client had hung up when it connected, and only then |
| `HangUps.UnboundExactly` | `ADBTestCE/adb/sockets.cpp:228-242` | a closed half was never bound if and only if its client had hung up when it connected |
| `HangUps.UnboundStaysOpen` | `ADBTestCE/adb/adb.cpp:586-593` | no event closes an open half that is not bound |
| `StreamEndings.CloseReachesPartner` | `ADBTestCE/adb/sockets.cpp:228-242` | the same in terms of the half: its idle partner is closed too once the channels have drained if and only if it was bound and so has said farewell |
| `StreamEndings.AbandonedPartner` | `ADBTestCE/adb/sockets.cpp:228-242` | a half that closed unbound says nothing in any continuation: nothing is in flight to its partner, which leaves the open list only by its own farewell |
| `StreamEndings.AbandonedPartnerStaysOpen` | `ADBTestCE/adb/sockets.cpp:228-242` | that partner stays open in every continuation in which no event of its own fd is handled |
| `StreamEndings.HangUpAbandons` | `ADBTestCE/adb/sockets.cpp:822-829` | for every destination: a client that hangs up at once is closed and unbound when all is quiet, and its partner is open |
| `StreamEndings.MirrorRun` | `ADBTestCE/adb/adb.cpp:570-619` | a run with the ends exchanged is the mirror image of the run, so that theorems about one end hold for the other |
| `StreamEndings.DeliveredInFull` | `ADBTestCE/adb/sockets.cpp:131-182` | a stream closed by its sender is delivered in full: from the CLSE on everything handed over is written or queued, and all of it is written when the socket goes, unless its fd fails or is seen at its end |
| `Bystanders.StepSpares` | `ADBTestCE/adb/adb.cpp:570-619` | an event that is not about a linked socket leaves it and its histories as they are |
| `Bystanders.ShutStep` | `ADBTestCE/adb/sockets.cpp:228-262` | a closed half never opens, speaks or hands over anything again, and keeps its backlog unless its fd fails or is seen at its end |
| `LocalPairs.LocalPairSafety` | `ADBTestCE/adb/sockets.cpp:131-182` | data of a local pair in every run, in both directions: what an fd was given is a prefix of what the other socket handed over; while the pair is open the rest is queued, and the other socket reads only while nothing is |
| `LocalPairs.ClosedPairKeeps` | `ADBTestCE/adb/sockets.cpp:184-226` | what a socket of a closed pair has received stays received, unless its fd fails or is seen at its end |
| `EventEffects.ReadOfHalf` | `ADBTestCE/adb/sockets.cpp:324-388` | a read of a linked half hands over all that was read in one WRTE, and the half closes, with one CLSE, exactly at the end of the file |
| `EventEffects.WriteOfHalf` | `ADBTestCE/adb/sockets.cpp:276-321` | a write event adds to the written bytes what the fd took, closes the half exactly if the fd failed, and sends an OKAY exactly if the backlog is gone |
| `EventEffects.PacketForHalf` | `ADBTestCE/adb/adb.cpp:570-619` | an OKAY makes a linked half bound and reading, a CLSE closes it, and of a WRTE the fd takes what it takes, with an OKAY exactly if that is all |
| `EventEffects.NewClient` | `ADBTestCE/adb/sockets.cpp:551-568` | a client asks for its destination under the id of a new socket, which does not read before it is answered |
| `EventEffects.NewService` | `ADBTestCE/adb/adb.cpp:570-584` | an accepted OPEN is answered by the OKAY of a new half bound to the asking socket, a refused one by CLSE(0, id) |
| `EventEffects.NewPair` | `ADBTestCE/adb/sockets.cpp:782-785` | a client and a service of the host become each other's peers and read at once |
| `EventEffects.StrayPacket` | `ADBTestCE/adb/adb.cpp:586-619` | an OKAY, CLSE or WRTE for a socket that is not open changes nothing |
| `EventEffects.ReadOfPair` | `ADBTestCE/adb/sockets.cpp:324-388` | likewise for a local pair: the other fd takes what it takes, and the pair closes exactly at the end of the file, if that fd fails, or if the end is forced and all was taken |
| `EventEffects.WriteOfPair` | `ADBTestCE/adb/sockets.cpp:276-321` | a write event of a local pair: the bytes taken, the close exactly on failure, and the other socket reading again exactly when the backlog is gone |
| `EventEffects.DisconnectClosesExactly` | `ADBTestCE/adb/sockets.cpp:113-129` | after any run close_all_sockets for the transport closes all streams and waiting requests and no local pair |
| `Runs.RunInv` | `ADBTestCE/adb/adb.cpp:570-619` | the system invariant (coherent heaps, one-to-one links, streaming, accounted traffic) holds after every interleaving of events at both ends |
| `Runs.StepInv` | `ADBTestCE/adb/sockets.cpp:264-388` | every event at one end, taken by any handler, keeps the system invariant |
| `Runs.AcceptedInv` | `ADBTestCE/adb/adb.cpp:570-584` | an accepted OPEN creates a new linked stream and keeps the invariant |
| `Runs.RefusedInv` | `ADBTestCE/adb/adb.cpp:576-577` | a refused OPEN, answered by CLSE(0, id), keeps the invariant |
| `Multiplexer.WritableLinked` | `ADBTestCE/adb/sockets.cpp:276-321` | a write event on a linked socket, partial, complete or failing, keeps every stream intact |
| `Multiplexer.ReadableLinked` | `ADBTestCE/adb/sockets.cpp:324-388` | a read event on a linked socket hands its data to the channel and keeps every stream intact |
| `Multiplexer.WrteInv` | `ADBTestCE/adb/adb.cpp:606-619` | a delivered WRTE finds an empty queue, is written or queued, and is acknowledged or not as the code does, keeping the invariant |
| `Multiplexer.OkayInv` | `ADBTestCE/adb/adb.cpp:586-596` | a delivered OKAY binds or resumes the sender and keeps the invariant |
| `Multiplexer.ClseInv` | `ADBTestCE/adb/adb.cpp:598-604` | a delivered CLSE closes the half it names and keeps the invariant |
| `Multiplexer.CloseLinked` | `ADBTestCE/adb/sockets.cpp:228-262` | closing one half keeps every other stream and records one farewell |
| `Streams.WrteFindsRoom` | `ADBTestCE/adb/sockets.cpp:131-146` | by the token rule a WRTE for an open half is the only one and finds its queue empty |
| `Sockets.CloseCoherent` | `ADBTestCE/adb/sockets.cpp:228-262` | closing a socket, its local peer included, keeps the heap coherent |
| `Sockets.EnqueueCoherent` | `ADBTestCE/adb/sockets.cpp:131-182` | local_socket_enqueue keeps the heap coherent; if it reports readiness, the state changed only by the bytes written |
| `Sockets.WriteEventCoherent` | `ADBTestCE/adb/sockets.cpp:276-321` | the write part of the event function keeps the heap coherent |
| `Sockets.ReadEventCoherent` | `ADBTestCE/adb/sockets.cpp:324-388` | the read part of the event function keeps the heap coherent |
| `Sockets.HandlePacketCoherent` | `ADBTestCE/adb/adb.cpp:570-619` | handle_packet keeps the heap coherent for OPEN, OKAY, CLSE and WRTE |
| `Sockets.CloseAllClosesExactly` | `ADBTestCE/adb/sockets.cpp:113-129` | close_all_sockets(t) ends in a coherent heap in which exactly the sockets bound to t, directly or through their peer, have left the open list, the others being unchanged |
| `Sockets.TransportCloses` | `ADBTestCE/adb/sockets.cpp:113-129` | an open socket is closed with a transport if and only if that is its own, or its remote or local peer's |
| `Sockets.CloseFrame` | `ADBTestCE/adb/sockets.cpp:228-262` | one close shortens the open list and touches no socket but the closed one and its local peer |
| `SocketEngine.Engine.FindLocalSocket` | `ADBTestCE/adb/sockets.cpp:63-78` | finds a socket exactly if it is on the open list |
| `SocketEngine.Engine.CloseLocked` | `ADBTestCE/adb/sockets.cpp:228-262` | the recursive close does what the abstract close does, closing list included |
| `SocketEngine.Engine.EnqueuePacket` | `ADBTestCE/adb/sockets.cpp:131-182` | for every sequence of write answers: bytes written, packet queued, socket closed and result as the abstract enqueue says |
| `SocketEngine.Engine.DrainBacklog` | `ADBTestCE/adb/sockets.cpp:279-304` | the nested write loops, EAGAIN and EINTR included, leave exactly what the abstract write leaves |
| `SocketEngine.Engine.OnWritable` | `ADBTestCE/adb/sockets.cpp:276-321` | the write part of the event function, and when the read part follows |
| `SocketEngine.Engine.OnReadable` | `ADBTestCE/adb/sockets.cpp:324-388` | the read part: data to the peer, read interest dropped, close at end of file or forced end |
| `SocketEngine.Engine.EventFunc` | `ADBTestCE/adb/sockets.cpp:264-400` | a callback with any mix of events is the write part, then the read part unless the first ended it |
| `SocketEngine.Engine.ReadSome` | `ADBTestCE/adb/sockets.cpp:324-352` | the loop around adb_read makes of the kernel's answers what the abstract read makes of them |
| `KernelAnswers.ReadStopsExactly` | `ADBTestCE/adb/sockets.cpp:324-352` | by position in the answers: reading stops at the first EAGAIN, end of file or error, or when the room is used up; the data are the chunks before, cut at the room, and the end is reported exactly if that is where it stopped |
| `KernelAnswers.OfferStopsExactly` | `ADBTestCE/adb/sockets.cpp:131-165` | likewise for the write loop of enqueue: what was taken, and failure exactly at an answer that takes nothing and is no EAGAIN |
| `KernelAnswers.DrainStopsExactly` | `ADBTestCE/adb/sockets.cpp:279-304` | likewise for the nested write loops over the backlog, packet by packet, with EINTR alone tried again |
| `SocketEngine.Engine.PassOnData` | `ADBTestCE/adb/sockets.cpp:353-379` | data that was read goes to the peer's enqueue, with the result that decides about reading on; where it ends up for a local pair is `LocalPairs.LocalPairSafety` |
| `SocketEngine.Engine.Handle` | `ADBTestCE/adb/adb.cpp:570-619` | handle_packet for the four stream packets does what the abstract step does |
| `SocketEngine.Engine.ConnectToRemote` | `ADBTestCE/adb/sockets.cpp:551-568` | a new socket asks the far side for a stream |
| `SocketEngine.Engine.BindLocal` | `ADBTestCE/adb/sockets.cpp:782-785` | a client socket and a service socket of the host become each other's peers |
| `SocketEngine.Engine.CloseAllSockets` | `ADBTestCE/adb/sockets.cpp:113-129` | the restarting scan ends and closes exactly the bound sockets |
| `PacketQueue.Queue.Enqueue` | `ADBTestCE/adb/sockets.cpp:131-182` | on the packet chain in memory: conservation of accepted bytes, the new tail, and release of a packet that was written at once |
| `PacketQueue.Queue.OnWritable` | `ADBTestCE/adb/sockets.cpp:279-304` | written and queued bytes stay the accepted ones in order; every packet leaves the chain by being released once |
| `PacketQueue.Queue.Discard` | `ADBTestCE/adb/sockets.cpp:205-210` | destroying a socket releases what is queued, no packet twice |
| `IntrusiveList.List.Insert` | `ADBTestCE/adb/sockets.cpp:80-87` | a node joins a circular list with sentinel as its tail |
| `IntrusiveList.List.Remove` | `ADBTestCE/adb/sockets.cpp:100-111` | removal writes the node and its neighbours only and refines removal from the sequence |
| `IntrusiveList.List.Dequeue` | `ADBTestCE/adb/fdevent.c:492-505` | takes the head of the pending list, or nothing if it is empty |
| `IntrusiveList.Transfer` | `ADBTestCE/adb/sockets.cpp:254-261` | a closing socket moves between the two lists, both staying sound |
| `RequestFraming.UnhexInverts` | `ADBTestCE/adb/sockets.cpp:592-620` | unhex inverts %04x for every number of four hex digits |
| `RequestFraming.UnhexExactly` | `ADBTestCE/adb/sockets.cpp:592-620` | four bytes are read as n if and only if they spell n in hexadecimal, each digit in either case |
| `RequestFraming.FramingIsIndependentOfChunks` | `ADBTestCE/adb/sockets.cpp:666-715` | every division of a request into nonempty chunks dispatches nothing before its last chunk and then exactly that service |
| `RequestFraming.LockStepRequests` | `ADBTestCE/adb/sockets.cpp:756-760` | a client that waits for each answer has all its requests dispatched in order, each transport request leaving a clean state |
| `RequestFraming.StreamDispatchedExactly` | `ADBTestCE/adb/sockets.cpp:666-760` | a stream of requests, however cut into chunks, is dispatched in full if and only if no chunk runs past the end of a request and all requests but the last only choose a transport |
| `RequestFraming.Budget` | `ADBTestCE/adb/sockets.cpp:666-760` | what is dispatched never costs more bytes than were received, whatever the chunks are |
| `RequestFraming.RestOfChunkIsLost` | `ADBTestCE/adb/sockets.cpp:756-760` | what stands behind a completed transport request in its chunk is dropped, a whole request or part of one |
| `RequestFraming.BadHeaderFails` | `ADBTestCE/adb/sockets.cpp:697-701` | a length of 0, above 1024 or not hexadecimal ends the socket with nothing dispatched, in whatever chunks the header arrives and whatever follows |
| `RequestFraming.SmartSocket.Enqueue` | `ADBTestCE/adb/sockets.cpp:666-832` | the method does what the abstract step does; 0, 1 and -1 are returned according to what becomes of the dispatched service |
| `RequestFraming.Unhex` | `ADBTestCE/adb/sockets.cpp:592-620` | the digit loop computes the 32-bit value, or 0xffffffff for a bad digit |
| `JsonValue.GetSet` | `ADBTestCE/lib_json/json_value.cpp:1022-1042` | operator[] on a map: what was assigned is read back and a second assignment replaces it |
| `JsonValue.GetOther` | `ADBTestCE/lib_json/json_value.cpp:1022-1042` | an assignment leaves every other key as it was |
| `JsonValue.SetKeepsOrder` | `ADBTestCE/lib_json/json_value.cpp:1022-1042` | insertion at lower_bound keeps the map ordered |
| `JsonValue.KeyLessIsStrictOrder` | `ADBTestCE/lib_json/json_value.cpp:217-231` | CZString's order is a strict total order |
| `JsonValue.KeyLessExactly` | `ADBTestCE/lib_json/json_value.cpp:217-223` | a name is less than another if and only if it is a proper prefix of it or smaller at the first byte in which they differ; indexes are compared as numbers |
| `JsonValue.NamesAreSorted` | `ADBTestCE/lib_json/json_value.cpp:1022-1042` | members are kept by ascending name: of any two the earlier has the smaller byte at the first difference or is a prefix |
| `JsonOrdering.OrderingIsStrictAndTotal` | `ADBTestCE/lib_json/json_value.cpp:564-668` | operator< is irreflexive, transitive and total, and operator== is exactly its equivalence |
| `JsonOrdering.LessExactly` | `ADBTestCE/lib_json/json_value.cpp:564-606` | what is less: null before numbers before strings and so on by type; within a type by number, by the first differing byte, by size, or by the first differing member |
| `JsonOrdering.Trichotomy` | `ADBTestCE/lib_json/json_value.cpp:564-606` | of two values exactly one is less, or they are equal as values |
| `JsonOrdering.EqualIsEquality` | `ADBTestCE/lib_json/json_value.cpp:626-668` | operator== is equality of the values, through nested maps |
| `JsonOrdering.MixedComparisons` | `ADBTestCE/lib_json/json_value.cpp:608-624` | operator>= is right; operator<= has its operands the wrong way round and is right only for equal values (1 <= 2 is false) |
| `JsonNumbers.UintToString` | `ADBTestCE/lib_json/json_writer.cpp:30-40` | the digits and a NUL end up at the end of the buffer, which they never leave |
| `JsonNumbers.IntToString` | `ADBTestCE/lib_json/json_writer.cpp:42-54` | decimal text of every Int, the smallest included |
| `JsonNumbers.IntegersDecodeExactly` | `ADBTestCE/lib_json/json_reader.cpp:581-616` | integer tokens of any length: exact value below ten times the threshold, double otherwise; the 32-bit accumulator never overflows |
| `JsonNumbers.IntRoundTrip` | `ADBTestCE/lib_json/json_reader.cpp:581-616` | decodeNumber inverts valueToString( Int ) exactly from -2147483639 on |
| `JsonNumbers.UIntRoundTrip` | `ADBTestCE/lib_json/json_reader.cpp:581-616` | decodeNumber inverts valueToString( UInt ) exactly up to 4294967289 |
| `JsonScanning.NumbersDecodeExactly` | `ADBTestCE/lib_json/json_reader.cpp:581-616` | a number token is read as an integer exactly if it is an optional minus and digits, if any, of a value below ten times the threshold; every other one is left to sscanf |
| `JsonScanning.LeftToScanf` | `ADBTestCE/lib_json/json_reader.cpp:618-645` | every other number is what sscanf makes of it, or one error that leaves the value in place |
| `JsonScanning.LoneMinusIsZero` | `ADBTestCE/lib_json/json_reader.cpp:581-616` | a minus alone is read as zero, and leading zeros are taken, unlike section 6 of RFC 8259 |
| `JsonNumbers.Decode` | `ADBTestCE/lib_json/json_reader.cpp:581-616` | the digit loop computes what the recursive definition says |
| `JsonStrings.PlainNeedsNoEscape` | `ADBTestCE/lib_json/json_writer.cpp:111-113` | the fast path prints what the escaping loop would print |
| `JsonStrings.ToQuotedString` | `ADBTestCE/lib_json/json_writer.cpp:109-170` | both paths yield the quoted form |
| `JsonStrings.QuoteRoundTrip` | `ADBTestCE/lib_json/json_reader.cpp:463-476` | scanning stops exactly behind a quoted NUL-free string and decoding gives the string back |
| `JsonStrings.Utf8RoundTrip` | `ADBTestCE/lib_json/json_reader.cpp:69-103` | codePointToUTF8 gives every Unicode scalar value the form that section 4 of RFC 3629 assigns to it |
| `JsonStrings.EscapeYieldsUtf8` | `ADBTestCE/lib_json/json_reader.cpp:703-756` | a \u escape in any case of digits decodes to the UTF-8 form of its scalar value |
| `JsonStrings.PairYieldsUtf8` | `ADBTestCE/lib_json/json_reader.cpp:703-731` | a surrogate pair of escapes decodes to the UTF-8 form of its scalar value (section 2.1 of RFC 2781) |
| `JsonStrings.PointIsScalarExactly` | `ADBTestCE/lib_json/json_reader.cpp:703-731` | a decoded escape yields a scalar value, and bytes that mean it, if and only if it does not begin with a low surrogate |
| `JsonStrings.PairIsReadExactly` | `ADBTestCE/lib_json/json_reader.cpp:712-729` | what follows a high surrogate is read as the pair that it means if and only if it is a low surrogate; any four digits are taken |
| `JsonStrings.EscapesAreExactly` | `ADBTestCE/lib_json/json_writer.cpp:114-169` | the writer escapes exactly the quote, the backslash and the control characters, each by its own short or four-digit form |
| `JsonStrings.UnescapesAreExactly` | `ADBTestCE/lib_json/json_reader.cpp:657-701` | the reader takes exactly the eight short escapes, each for its own byte |
| `JsonScanning.StringEndsExactly` | `ADBTestCE/lib_json/json_reader.cpp:463-476` | a string literal ends at the first quote that no backslash stands before, counted in units from the left; without one it is an error |
| `JsonScanning.NulCutsStrings` | `ADBTestCE/lib_json/json_reader.cpp:644-654` | a literal is stored as decoded if and only if no NUL is in it; otherwise it is cut there |
| `JsonStrings.Decode` | `ADBTestCE/lib_json/json_reader.cpp:657-701` | the decoding loop computes what the recursive definition says, errors included |
| `JsonStrings.ReadCodePoint` | `ADBTestCE/lib_json/json_reader.cpp:703-731` | one or two escapes are consumed as defined |
| `JsonParser.ValueTells` | `ADBTestCE/lib_json/json_reader.cpp:194-242` | readValue succeeds exactly if it recorded no error |
| `JsonParser.ParseTells` | `ADBTestCE/lib_json/json_reader.cpp:150-191` | parse returns true exactly if the error list is empty |
| `JsonParser.ReadToken` | `ADBTestCE/lib_json/json_reader.cpp:273-345` | readToken consumes input unless it reports the end of it, and string tokens have both quotes |
| `JsonTokens.TokenExactly` | `ADBTestCE/lib_json/json_reader.cpp:273-476` | over all inputs: readToken finds a token of a kind with this text and this rest if and only if the document is white space, a text of that kind and the rest; the grammar of the kinds is given byte by byte |
| `JsonTokens.EndExactly` | `ADBTestCE/lib_json/json_reader.cpp:273-345` | the end of the stream is the end of the document or a NUL, behind white space |
| `JsonScanning.WhiteSpaceDoesNotMatter` | `ADBTestCE/lib_json/json_reader.cpp:348-359` | any mix of space, tab, return and line feed before, between and behind the lexemes of a printable value leaves the result of every reader as it is |
| `JsonScanning.CommentBeforeValue` | `ADBTestCE/lib_json/json_reader.cpp:200-209` | where comments are allowed one before a value does not matter; where they are not it is an error |
| `JsonScanning.OpenCommentFails` | `ADBTestCE/lib_json/json_reader.cpp:425-435` | a block comment without an end is an error that swallows the rest of the document |
| `JsonScanning.RecoveryFinds` | `ADBTestCE/lib_json/json_reader.cpp:773-787` | recovery goes on behind the first token of the kind that is looked for, or at the end |
| `JsonParser.ParseValue` | `ADBTestCE/lib_json/json_reader.cpp:194-242` | the parser terminates on every input, never moves back, and consumes input when it succeeds |
| `JsonLexemes.ValueReadsBack` | `ADBTestCE/lib_json/json_reader.cpp:194-242` | wherever the lexemes of a printable value stand, the reader rebuilds its normal form and stops behind them |
| `JsonLexemes.DocumentReadsBack` | `ADBTestCE/lib_json/json_reader.cpp:150-191` | a document of such lexemes parses without errors, except for a scalar root in strict mode |
| `JsonMembers.AnyOrderIsRead` | `ADBTestCE/lib_json/json_reader.cpp:479-535` | an object is read whatever the order of its members and however often a name occurs |
| `JsonMembers.LastOneWins` | `ADBTestCE/lib_json/json_reader.cpp:511-514` | it then holds exactly the names that occur, each with the value that stands last, in order |
| `JsonLexemes.AnyTokenSeparates` | `ADBTestCE/lib_json/json_reader.cpp:561-573` | the separator test never fails: in an array of any length any tokens but the bracket, malformed ones included, separate the items and are lost |
| `JsonLexemes.ArrayFailsThroughItem` | `ADBTestCE/lib_json/json_reader.cpp:533-578` | readArray fails if and only if some item that it reaches cannot be read, never through what stands between two items |
| `JsonLexemes.ObjectFailsExactly` | `ADBTestCE/lib_json/json_reader.cpp:479-534` | readObject fails if and only if it reaches a member that it cannot read, or one behind whose value stands neither brace, comma nor comment; behind a comment any token is taken for a comma |
| `JsonLexemes.LexIsExact` | `ADBTestCE/lib_json/json_reader.cpp:581-616` | the lexemes of a printable value are ones that the reader takes back exactly |
| `JsonSpelling.TextLexes` | `ADBTestCE/lib_json/json_writer.cpp:206-261` | text assembled from well-separated pieces is scanned into exactly its lexemes |
| `JsonReader.Reader.ReadToken` | `ADBTestCE/lib_json/json_reader.cpp:273-345` | the scanner on the cursor: kind, extent and remaining input |
| `JsonReader.Reader.RecoverFromError` | `ADBTestCE/lib_json/json_reader.cpp:773-787` | skips to the wanted token or the end and leaves the error list as it was |
| `JsonReader.Reader.ReadValue` | `ADBTestCE/lib_json/json_reader.cpp:194-242` | the value under the top reference, the cursor and the errors become what the parser function says; the stack of references is as before, on errors too |
| `JsonReader.Reader.ReadObject` | `ADBTestCE/lib_json/json_reader.cpp:479-535` | likewise for objects, repeated names and comments included |
| `JsonReader.Reader.ReadArray` | `ADBTestCE/lib_json/json_reader.cpp:538-578` | likewise for arrays |
| `JsonReader.Reader.Parse` | `ADBTestCE/lib_json/json_reader.cpp:150-191` | parse yields the root and result of the parser function, and true exactly if errors is empty |
| `JsonReader.ChildLaws` | `ADBTestCE/lib_json/json_reader.cpp:511-514` | assigning through the reference to a member, created if missing, is assigning to the member |
| `JsonWriters.FastWriter.WriteValue` | `ADBTestCE/lib_json/json_writer.cpp:205-261` | appends exactly the compact spelling of the value's lexemes (with a space after colons for YAML) |
| `JsonWriters.FastWriter.Write` | `ADBTestCE/lib_json/json_writer.cpp:195-202` | the whole document, which scans into the value's lexemes |
| `JsonWriters.StyledWriter.WriteIndent` | `ADBTestCE/lib_json/json_writer.cpp:443-455` | a line break and the indentation are added unless the document already ends in a space |
| `JsonLayout.LayoutIsInked` | `ADBTestCE/lib_json/json_writer.cpp:443-455` | no value's text ends in white space, so that writeIndent breaks the line after every value |
| `JsonWriters.StyledWriter.WriteValue` | `ADBTestCE/lib_json/json_writer.cpp:288-346` | the value's layout, and with it its lexemes, is appended to a document at whose end a value can start; the indentation and the collection mode are restored |
| `JsonWriters.StyledWriter.IsMultilineArray` | `ADBTestCE/lib_json/json_writer.cpp:402-430` | one line exactly for few simple items that stay within the right margin; the children are collected completely or not at all, and completely for one line |
| `JsonWriters.StyledWriter.WriteSingleLine` | `ADBTestCE/lib_json/json_writer.cpp:387-397` | there is one collected child per element, as the assertion demands, and the line is the layout of the array |
| `JsonWriters.StyledWriter.WriteMultiLine` | `ADBTestCE/lib_json/json_writer.cpp:358-385` | collected or not, each item is on lines of its own one level deeper; the indentation is restored |
| `JsonWriters.StyledWriter.Write` | `ADBTestCE/lib_json/json_writer.cpp:274-285` | the document is the layout of the value, defined without regard to what was written before, and scans into the value's lexemes |
| `JsonLines.LayoutIsLines` | `ADBTestCE/include/json/writer.h:47-60` | the layout is the list of lines that the header's rules describe, three spaces for each depth: an object with a line per member, an array on one line or with a line per item |
| `JsonLines.OneLineExactly` | `ADBTestCE/lib_json/json_writer.cpp:402-430` | a nonempty array is printed on one line exactly if it has at most 24 items, none of them a container with something in it, and that line has fewer than 74 characters |
| `JsonRoundTrip.FastRoundTrip` | `ADBTestCE/lib_json/json_writer.cpp:195-261` | for every printable value any reader parses FastWriter's text to the value, integers and holes normalised |
| `JsonRoundTrip.StyledRoundTrip` | `ADBTestCE/lib_json/json_writer.cpp:274-430` | the same for StyledWriter's text, which is the value's layout |
| `JsonRoundTrip.StyleDoesNotMatter` | `ADBTestCE/lib_json/json_writer.cpp:195-430` | for every printable value both writers' texts give every reader the same result |
| `FdEvents.EventLoop.Install` | `ADBTestCE/adb/fdevent.c:428-454` | registration of a new fdevent: table growth, bound and flags; the loop stays coherent |
| `FdEvents.EventLoop.Remove` | `ADBTestCE/adb/fdevent.c:611-625` | the fdevent leaves the table, the sets, the bound and the list; its fd is closed unless it asked not to be |
| `FdEvents.EventLoop.Set` | `ADBTestCE/adb/fdevent.c:628-652` | interest changes reach the state bits and the three sets; pending events stay if the interest stays and are masked otherwise; a pending fdevent without events leaves the list |
| `FdEvents.EventLoop.Unregister` | `ADBTestCE/adb/fdevent.c:456-472` | both failures are ruled out for a coherent loop |
| `FdEvents.EventLoop.Process` | `ADBTestCE/adb/fdevent.c:365-424` | every reported fd hands its events to its fdevent and joins the list in order unless it is on it, despite the early stop; missing entries are ruled out |
| `FdEvents.EventLoop.ReportedAreListed` | `ADBTestCE/adb/fdevent.c:398-424` | after the scan every reported fd has its fdevent on the list, and nothing is on it twice |
| `FdEvents.EventLoop.ReportedExactly` | `ADBTestCE/adb/fdevent.c:365-405` | a registered fdevent hears what select reported for it, or a read if select reported nothing and its fd is bad, or nothing |
| `FdEvents.EventLoop.Dispatch` | `ADBTestCE/adb/fdevent.c:507-515` | the head of the list is unmarked and its events, never none, go to the callback; nothing else changes |
| `FdEvents.EventLoop.Drain` | `ADBTestCE/adb/fdevent.c:681-695` | the inner loop ends with nothing pending, whatever the callbacks do; its calls are exactly the rounds of the abstract loop, the k-th of which calls the head of the list and runs the k-th callback |
| `FdEvents.EventLoop.Turn` | `ADBTestCE/adb/fdevent.c:681-695` | one turn of the loop: every fd that select reported is called with what was reported for it, unless an earlier callback works on its fdevent, and nothing else is called |
| `FdLoops.EachHasItsCall` | `ADBTestCE/adb/fdevent.c:681-695` | every fdevent that is pending when the loop starts has its call, with the events pending then, unless an earlier callback works on that very fdevent and takes it off the list |
| `FdLoops.UntouchedIsCalled` | `ADBTestCE/adb/fdevent.c:681-695` | a pending fdevent that no callback touches is called with the events it started with |
| `FdLoops.CallsInOrder` | `ADBTestCE/adb/fdevent.c:492-515` | the calls come in the order of the list, at most one for each fdevent on it and none for anything else, all with events |
| `FdLoops.IdleCallbacks` | `ADBTestCE/adb/fdevent.c:681-695` | if the callbacks do nothing, the calls are the whole list in order, each with its events |
| `FdLoops.RanKeeps` | `ADBTestCE/adb/fdevent.c:628-660` | whatever a callback does puts nothing on the list and keeps the order of what it leaves there |
| `FdEvents.EventLoop.Act` | `ADBTestCE/adb/fdevent.c:428-660` | adding, deleting, removing, installing and the exit handler do to the loop what the abstract loop says |
| `FdLoops.AddedAsks` | `ADBTestCE/adb/fdevent.c:654-658` | fdevent_add asks for the named events besides those asked for, and for nothing else |
| `FdLoops.DeletedAsks` | `ADBTestCE/adb/fdevent.c:660-664` | fdevent_del asks for those asked for except the named ones |
| `FdEvents.EventLoop.SubprocEvent` | `ADBTestCE/adb/fdevent.c:517-573` | the exit handler keeps the loop coherent although it marks an fdevent without listing it, and does what the abstract loop says |
| `FdLoops.ExitIsNoticed` | `ADBTestCE/adb/fdevent.c:550-572` | the exit of a subprocess whose output has been read reaches its fdevent: the end is forced, and it is called, or pending with a read |
| `FdFlags.WantedEventsAreDropped` | `ADBTestCE/adb/fdevent.c:628-652` | fdevent_set keeps exactly the wanted pending events if and only if none is pending, or the interest stays and all that is pending is wanted |
| `FdEvents.EventLoop.AddingDropsARead` | `ADBTestCE/adb/fdevent.c:628-660` | a read that is pending and wanted is lost when the write is wanted too |
| `FdEvents.NewEntriesAreNull` | `ADBTestCE/adb/fdevent.c:450-450` | new table entries are all null exactly if pointers are as wide as ints or the memory happened to be zero |
| `FdFlags.MaskedFlags` | `ADBTestCE/adb/fdevent.c:281-300` | event bits and state bits do not disturb each other |
| `PushSession.PushServed` | `ADBTestCE/adb/file_sync_service.c:359-408` | the service consumes exactly the client's bytes of a push, goes on, sends exactly one status, and leaves the files that `FilesAfter` says; it ends exactly if the connection does not take the status, with the same files |
| `PushSession.ServedExactly` | `ADBTestCE/adb/file_sync_client.cpp:358-388` | of the pushes that the client does not refuse exactly those are served whose path and mode fit into 1024 bytes together; any other ends the service with unread input |
| `PushLimits.FileTypes` | `ADBTestCE/adb/file_sync_client.cpp:432-441` | a regular file is pushed whatever its permissions; a pipe, device, directory, link or socket is not |
| `PushLimits.RegularFilesAreServed` | `ADBTestCE/adb/file_sync_client.cpp:358-388` | a regular file is served, and both ends stay in step, exactly if its path has at most 1018 bytes |
| `PushLimits.GoesOnExactly` | `ADBTestCE/adb/file_sync_service.c:151-224` | over all inputs: the service goes on behind a file exactly if its input begins with frames of at most 65536 bytes up to a closing one, and the connection takes the status |
| `PushLimits.CommandServed` | `ADBTestCE/adb/file_sync_service.c:359-408` | SEND is served, the three commands that only send an answer are, QUIT ends the service silently, and any other id with a message |
| `PushLimits.OtherInputRefused` | `ADBTestCE/adb/file_sync_service.c:359-385` | over all inputs: what does not begin with a command and a name of at most 1024 bytes ends the service with a message and no change to a file |
| `PushLimits.ModeByDefault` | `ADBTestCE/adb/file_sync_service.c:276-310` | a name without a mode, or with one that is too big, stands for 0644 with the user's permissions spread |
| `PushLimits.OverAt` | `ADBTestCE/adb/file_sync_service.c:187-207` | a write changes the bytes from its position on as far as it goes and no others |
| `PushLimits.OnTheWire` | `ADBTestCE/adb/file_sync_client.cpp:421-446` | one push byte for byte, and both answers to it |
| `PushLimits.OtherAnswers` | `ADBTestCE/adb/file_sync_client.cpp:450-464` | success is read from OKAY alone; a short answer is none and an unknown one gives no reason |
| `PushSession.StoredExactly` | `ADBTestCE/adb/file_sync_service.c:151-224` | after an OKAY the stored file is the client's, with bytes, mode and time stamp, if and only if it is not written over an old file that could not be unlinked and is longer or has another mode |
| `PushSession.NothingStored` | `ADBTestCE/adb/file_sync_service.c:198-203` | a push that fails leaves nothing under its path if files can be unlinked |
| `PushSession.OthersUntouched` | `ADBTestCE/adb/file_sync_service.c:276-317` | no push touches another file |
| `PushSession.FramesServed` | `ADBTestCE/adb/file_sync_service.c:151-224` | the frames of a file are consumed to the end even after a failed open or write, which is reported once, unless the report does not get through |
| `PushSession.PathIsFound` | `ADBTestCE/adb/file_sync_service.c:276-294` | the client's comma is the last one, commas in the path included |
| `PushSession.PushKeepsStep` | `ADBTestCE/adb/file_sync_client.cpp:447-464` | after a push whose status gets through both ends are in step exactly if the reason of a failure is not longer than the 256 bytes that the client reads |
| `PushSession.SessionStaysInStep` | `ADBTestCE/adb/file_sync_client.cpp:347-464` | any number of pushes: one status each, the client is told the truth, and the files are those that the pushes leave one after another |
| `PushSession.PermissionsSpread` | `ADBTestCE/adb/file_sync_service.c:308-310` | the user's permissions stay and group and others get them too |
| `FileSync.SyncService.HandleSendFile` | `ADBTestCE/adb/file_sync_service.c:151-224` | creating the file, creating it again, opening the old one, the receive loop and the messages, which the connection may refuse, do what the abstract service does on every input, malformed ones included |
| `FileSync.SyncService.SendCommand` | `ADBTestCE/adb/file_sync_service.c:276-317` | do_send does what the abstract service does |
| `FileSync.SyncService.RunCommand` | `ADBTestCE/adb/file_sync_service.c:359-408` | one round of the command loop, error messages included |
| `FileSync.SyncClient.WriteDataBuffer` | `ADBTestCE/adb/file_sync_client.cpp:297-320` | the buffer goes out in frames of at most 64 KB, or as much of them as the connection takes, which the result tells exactly |
| `FileSync.PiecesKeepBytes` | `ADBTestCE/adb/file_sync_client.cpp:303-313` | the pieces of a buffer are the buffer |
| `FileSync.SyncClient.WriteDataFile` | `ADBTestCE/adb/file_sync_client.cpp:260-295` | what is read of the file goes out in frames, up to its end or an error, or as much of them as the connection takes |
| `FileSync.SyncClient.SendPush` | `ADBTestCE/adb/file_sync_client.cpp:347-448` | what reaches the connection is a beginning of the request, the frames and the closing frame; failure is reported exactly if it is not all; modes from 0x8000 to 0x8fff alone get further than the request, and nothing is sent for long names and bad APKs |
| `FileSync.LocalFileStoredExactly` | `ADBTestCE/adb/file_sync_client.cpp:260-295` | a push answered with OKAY that does not write over an old file has stored the local file if and only if no read of it failed before its end |
| `FileSync.FailedReadTruncates` | `ADBTestCE/adb/file_sync_client.cpp:277-283` | a read that fails in the middle stores the first part alone and is answered with OKAY |
| `FileSync.UnreadableFileIsPushedEmpty` | `ADBTestCE/adb/file_sync_client.cpp:264-268` | a local file that does not open is pushed as an empty file with an OKAY |
| `FileSync.SyncClient.ReceiveStatus` | `ADBTestCE/adb/file_sync_client.cpp:450-464` | the status is read as the abstract client reads it |
| `Words.WordRoundTrip` | `ADBTestCE/adb/file_sync_service.h:32-35` | a 32-bit word survives its little-endian form |
| `Words.ValueOfWord` | `ADBTestCE/adb/file_sync_service.h:32-35` | every four bytes are the word for their value |
| `Words.LittleEnd` | `ADBTestCE/adb/file_sync_service.h:32-35` | the low byte comes first |
| `BatchAllocator.Allocator.Allocate` | `ADBTestCE/lib_json/json_batchallocator.h:53-77` | a block that is not live becomes live; carved blocks are always the live and the free ones, each once |
| `BatchAllocator.Allocator.Release` | `ADBTestCE/lib_json/json_batchallocator.h:81-86` | a live block goes to the head of the in-place free list |
| `BatchAllocator.Allocator.InBounds` | `ADBTestCE/lib_json/json_batchallocator.h:74-76` | a live block lies within its page |
| `BatchAllocator.Allocator.LiveBlocksAreDisjoint` | `ADBTestCE/lib_json/json_batchallocator.h:74-76` | live blocks do not overlap |
| `BatchAllocator.Allocator.FindRoom` | `ADBTestCE/lib_json/json_batchallocator.h:61-73` | the search ends at a page with room; all pages behind the current one are full |
| `BatchAllocator.CarvingStaysInPage` | `ADBTestCE/lib_json/json_batchallocator.h:101-110` | carving stays within a page exactly if objectPerAllocation divides objectsPerPage |
| `BatchAllocator.ArrayPagesOverrun` | `ADBTestCE/lib_json/json_internalarray.inl:138-138` | the array allocator's blocks of 8 on pages of 255 are a case where it does not |

## Left out

- Sockets.HandlePacketCoherent: SYNC, CNXN and AUTH packets and offline transports are not modelled, and a CLSE or WRTE is not checked against the transport it came by, as in the code.
- StreamTheorems.StreamSafety: one transport joins the two endpoints; several transports and the disconnection of one (`remote_socket_disconnect`) are not modelled.
- SocketEngine.Engine.EventFunc: the OKAY and FAIL texts that `local_socket_ready_notify` and `local_socket_close_notify` write to a client, and `exit_on_close`, are not modelled.
- SocketEngine.Engine.CloseLocked: sockets are values in a map, so that memory freed during a callback is a missing entry instead of a dangling pointer; accesses to it after a failed write between two local sockets are not modelled.
- Socket ids, histories and channels are unbounded; the wrap-around of the id counter is not modelled.
- In the two-endpoint system a callback that reports reading and writing is two events in a row, and events whose interest was dropped after select are not delivered.
- RequestFraming.SmartSocket.Enqueue: what a dispatched service does (host requests, prefixes, choice of the device) is a parameter with four outcomes.
- PacketQueue.Queue.Enqueue: after a write error the packet is neither queued nor released, as in the code; the socket's removal is not repeated there.
- JsonReader.Reader.Parse: comments are skipped but not collected, error texts and line numbers are left out, and streams are read as strings.
- JsonParser.ParseValue: how a double is read is a parameter; doubles are excluded from the round trips.
- JsonWriters.ScalarToString: the text of a double is any text without white space, given by a parameter.
- JsonWriters.StyledWriter.Write: comments of values are not modelled, nor the comments collected by the reader.
- JsonWriters.StyledWriter.WriteValue: comments before and behind members are not modelled.
- JsonWriters.StyledWriter.WriteMultiLine: comments before and behind items are not modelled.
- JsonOrdering.OrderingIsStrictAndTotal: doubles are real numbers, without NaN.
- JsonOrdering.LessExactly: maps have fewer than 2147483648 members, as their sizes are compared as ints.
- JsonLines.LayoutIsLines: arrays are such that an int can count the length of their line; beyond that `JsonLayout.LineLength` wraps around as the code does.
- `Value::resize`, `Path`, iterators and conversions between types would only add easy members; on sparse arrays the assertion in `resize` does not hold.
- FdEvents.EventLoop.Process: the epoll branch, timers and the socket pair of the subprocess handler are not modelled; the pending list is a sequence there and a linked list in `IntrusiveList`.
- FdEvents.EventLoop.Install: an fd that has an entry already is not installed again.
- FdEvents.EventLoop.Act: a callback installs only fds without an entry, as above, and removes only fdevents that are in the table.
- PushSession.PushServed: directories exist only as outcomes of opening a file.
- FileSync.SyncService.SendCommand: symbolic links are not modelled.
- FileSync.SyncService.RunCommand: STAT, LIST and RECV are reduced to an answer that the service sends.
- FileSync.SyncClient.SendPush: the outcome of the APK check is a parameter, and a connection that has refused a byte takes no more.
- FileSync.SyncService.HandleSendFile: a connection that has refused a byte of the service takes no more.
- BatchAllocator.Allocator.Allocate: memory is never exhausted and constructors are not called.
- Zip files, USB, threads, processes, logging and the command line.
