# A verified model of the simulation's client and server

The repository is a client/server simulation: a server divides an environment into maps, scatters food on them, and
gives each connecting client a map; the client mirrors that map and reports back. This project models the parts of it
that hold state across steps and proves what they promise.

* **Wire protocol.** `Messages` is the message container used as a stack; `Framing` is the byte stream of frames with
  a reference parser; `Scramble` is the handshake response. `Endpoints` is one side of a connection as a state machine
  over its completion handlers, `Connections` the object with its fields and handlers, each proved to make the step of
  the state machine. `OpenSystem` proves what holds against any peer, `Network` what holds of two sides joined by two
  byte streams: handshake, delivery, progress and termination; `Hubs` joins any number of them to the one queue of
  incoming messages.
* **Applications.** `Greetings` is the server's half of the bootstrap conversation, `Clients` the client's startup
  loop, `Bootstrap` both of them over the network. `ServerInterfaces` and `Admission` are the server's bookkeeping of
  clients, `Queues` the blocking queue between network thread and application, `ClientMaps` the client's growing
  entity message, `TSVectors` the shared vector.
* **Maps and screen.** `Grids` is the occupancy index, `Screens` the shared character buffer and interleaved writers
  to it, `Maps` and `MapDrawing` the drawing of walls and entities, `Environments` the strips and the food,
  `MapThreads` the threads that draw on the shared buffer. `Services` joins admission and startup for several clients.
  `Bytes`, `Vectors`, `Params`, `Flat` and `Options` hold object representations, constants and arithmetic.

Classes carry the fields the C++ objects update; every method that changes state is specified by a function of the old
state, and the theorems are lemmas about these functions and about runs of them.

## Assumptions of the model

* One thread runs the io_context, so a completion handler is one atomic step. Bytes move in chunks of any size between
  handlers; `async_read` and `async_write` complete only after the full count; writes on a socket are serviced in the
  order in which they were issued.
* The header is eight bytes on the wire: id, three padding bytes (zero here), little-endian 32-bit size. A value's
  image is little-endian and field by field; an entity is 18 bytes, without the vtable pointer and padding of the C++
  object.
* Messages handed to `send` announce their body in their header, which `Messages.WellFramedIff` and its users show to
  hold exactly below 4 GiB.
* The application server sends a client nothing but the acceptance before it has validated it. The client may send at
  any time; what that does to the handshake is part of the results (`OpenSystem.EarlySendIff`,
  `Network.ValidatedIff`).
* The four flags of `Client::m_start` start false; in the code only the last one is initialised.
* The two reads of a map's entity vector in the last push of the greeting, its contents and its length, see the same
  vector. Random numbers, the clock value of the challenge and the console's size are parameters.
* Whether a connection is open does not change while one broadcast loop runs.

## Where the code does less than one might expect

* A header with size zero leaves the previous body attached to the delivered message. Delivery is therefore stated on
  id, size and the first `size` bytes; `Framing.ReceivedExactIff` says exactly when whole messages arrive unchanged,
  and the bootstrap conversation and the client's rounds meet that condition.
* `draw_line` does not clip the start of a line, and moves the start onto the end where it should swap them;
  `MapDrawing.LineStaysInsideIff` and `MapDrawing.LineIsSegmentIff` say for which arguments that shows, and
  `MapDrawing.WallsStayInsideIff` for which maps it shows in their walls.
* On a console narrower than the environment the clamp pushes strips onto each other (`Environments.StripsApartIff`).
  Then, unless the wrapped offsets put all maps out of sight, the order of the map threads can show with arbitrary
  entities (`MapThreads.MapThreadsConfluentIff`). With the walls and food actually drawn there is one more exception,
  an even number of maps of which only the last is moved (`MapThreads.FoodThreadsConfluentIff`);
  `MapThreads.NarrowConsoleRaces` is a concrete case outside it.
* `update_entities` erases or overwrites an entity whose cell a later one leaves or enters (`Grids.FindsAllIff`), and
  the flattened index takes positions beyond the right edge for ones further down (`Grids.CellIsWrapped`,
  `Grids.ReportedIsThereIff`).
* Maps are assigned by the number of connections at validation. Without drops they are distinct exactly when each
  client is validated before the next is accepted (`Admission.DistinctMapsIff`; `Admission.LateValidationCollides` is
  a case where not); with drops the condition is that of `Admission.AlwaysApartIff`, which a server could check at
  each validation and which prompt validation does not ensure (`Admission.RemovalCollides`). A client validated before
  its map exists makes `on_client_validated` throw (`Greetings.OnClientValidated`).
* `on_client_validated` counts a map's entities before it copies them, while the environment may still be adding some:
  the client then shows the last ones only, as many as were counted (`Bootstrap.BootstrapCorrect`).
* Nothing in `send` waits for the handshake. A client whose posted send runs before its answer is issued is refused by
  the server, and nothing it sends ever arrives (`Network.ValidatedIff`, `Network.NeverArrives`).
* Velocities and coordinates are unsigned 16-bit numbers. An entity that moves left or up by wrapping around does not
  have the cell cleared that it was in (`Grids.ClearsPreviousIff`).
* The client's entity message is never cleared, so it stops framing once all snapshots together reach 4 GiB
  (`ClientMaps.AccumulatedFramedIff`).

## Model

The methods of `Connections.Connection` marked as refinement links tie the object's fields to the state machine of
`Endpoints`; what the connection promises is proved of that machine, in `OpenSystem` and `Network`.

| member | source | states |
|---|---|---|
| `Messages.MessageBuffer.constructor` | common/network/NetMsg.h:61-64 | a fresh message has the id given, size zero and no body |
| `Messages.MessageBuffer.Clear` | common/network/NetMsg.h:71-76 | clearing empties the body and keeps the id; the header announces the body again |
| `Messages.MessageBuffer.PushValue` | common/network/NetMsg.h:85-97 | resize and copy append the value's image; the size is the body's length cut to 32 bits |
| `Messages.MessageBuffer.PushBackComplex` | common/network/NetMsg.h:100-110 | the same for an array of equally wide elements, in order |
| `Messages.MessageBuffer.PullValue` | common/network/NetMsg.h:113-126 | returns the last bytes of the body and removes exactly them |
| `Messages.MessageBuffer.PullComplex` | common/network/NetMsg.h:129-140 | returns the last elements in their order and removes exactly them |
| `Messages.PushAllBody` | common/network/NetMsg.h:85-110 | any series of pushes appends all images in order, keeps the id and leaves the size stamped |
| `Messages.RoundTrip` | common/network/NetMsg.h:85-140 | for any list of values and arrays, pulling in reverse order returns them all and leaves the original body |
| `Messages.RoundTripRestoresIff` | common/network/NetMsg.h:85-140 | the whole original message comes back exactly when its header held its truncated length before |
| `Messages.WellFramedIff` | common/network/NetMsg.h:94-107 | after pushes the header announces the body exactly while the body is below 4 GiB |
| `Bytes.FromToBytes` | common/network/NetMsg.h:89-94 | a little-endian word read back from its image is the word |
| `Bytes.ChopFlatten` | common/network/NetMsg.h:104-105 | cutting the flat image of an array into elements gives the array back |
| `Bytes.LittleEndian` | common/network/NetMsg.h:89-94 | byte i of a word on the wire counts 256 to the power i |
| `Bytes.FlattenAt` | common/network/NetMsg.h:104-105 | element i of an array stands at i times the width |
| `Params.LayoutImage` | common/utilities/Params.h:69-77 | the twelve bytes of a console layout, fields in declaration order |
| `Params.LayoutRoundTrip` | common/utilities/Params.h:69-77 | a console layout survives its byte image |
| `Params.ConfigImage` | common/utilities/Params.h:80-92 | the sixteen bytes of a map configuration |
| `Params.ConfigRoundTrip` | common/utilities/Params.h:80-92 | a map configuration survives its byte image |
| `Params.EntitiesRoundTrip` | common/utilities/Entity.h:53-60 | a vector of entities survives its fixed-width image |
| `Params.EntitiesImage` | common/network/NetMsg.h:100-110 | in a message, entity k stands at k times the width |
| `Scramble.MixIsNibbleWise` | common/network/NetConnection.h:318-323 | for every 64-bit word the masks and shifts give n3 at nibble 2, the union of both odd neighbours at nibbles 4 to 14 and zero elsewhere, under the second constant |
| `Scramble.MixCollidesIff` | common/network/NetConnection.h:318-323 | two words get the same response exactly when their seven kept nibbles agree |
| `Scramble.AnswersIff` | common/network/NetConnection.h:318-323 | a 64-bit number is the answer computed from a challenge exactly if each of its bits is the one the nibbles say |
| `Framing.HeaderRoundTrip` | common/network/NetMsg.h:54-58 | id and size are read back from the eight header bytes |
| `Framing.HeaderImage` | common/network/NetMsg.h:54-58 | the eight bytes of a header one by one |
| `Framing.ReceivedViews` | common/network/NetConnection.h:220-228 | left-over bodies never change id, size or the first size bytes of what is received |
| `Framing.ReceivedExactIff` | common/network/NetConnection.h:220-228 | the very messages sent are received exactly when no body-less one follows one with a body |
| `Framing.FrameExactIff` | common/network/NetConnection.h:269-316 | one frame parses back to its message alone exactly when the header announces the body |
| `Framing.ParseFrames` | common/network/NetConnection.h:213-267 | the reference parser reads any stream of frames back without remainder |
| `Framing.ParseAppend` | common/network/NetConnection.h:213-267 | a finished frame adds exactly one message to what has been parsed |
| `Framing.UniqueParse` | common/network/NetConnection.h:213-267 | a prefix of a frame stream that parses without remainder holds the messages of a prefix of the frames |
| `Endpoints.WordRoundTrip` | common/network/NetConnection.h:161-198 | a handshake word read back from its eight bytes is the word |
| `Endpoints.WordImage` | common/network/NetConnection.h:161-198 | the eight bytes of a handshake word one by one |
| `Endpoints.RunPostedKeepsWriter` | common/network/NetConnection.h:143-155 | the lambda posted by send keeps the writer chain and its byte stream |
| `Endpoints.FrameWrittenKeepsWriter` | common/network/NetConnection.h:269-316 | so do both completion handlers of a frame write |
| `Endpoints.AnswerKeepsWriter` | common/network/NetConnection.h:182-186 | so does issuing the answer to the server's word |
| `Endpoints.FailKeepsWriter` | common/network/NetConnection.h:289-314 | so does a failed frame write, which closes the socket with the message still queued |
| `Connections.Connection.ForServer` | common/network/NetConnection.h:77-121 | refinement link: a server connection starts with its challenge being written, the expected answer computed, and a read of the answer outstanding |
| `Connections.Connection.ForClient` | common/network/NetConnection.h:83-107 | refinement link: a connected client starts by reading the server's word |
| `Connections.Connection.Send` | common/network/NetConnection.h:143-155 | refinement link: send makes the endpoint's posting step and nothing else |
| `Connections.Connection.RunPostedSend` | common/network/NetConnection.h:146-154 | refinement link: the posted lambda queues the oldest send and starts the writer chain only when it was idle |
| `Connections.Connection.OnHeaderWritten` | common/network/NetConnection.h:272-288 | refinement link: a written header is followed by its own body, or by the next frame when there is none |
| `Connections.Connection.OnBodyWritten` | common/network/NetConnection.h:300-309 | refinement link: a written body ends its message and starts the next frame, if any |
| `Connections.Connection.OnFrameWriteFailed` | common/network/NetConnection.h:289-314 | refinement link: a failed frame write closes the socket and leaves the queue as it is |
| `Connections.Connection.OnValidationWritten` | common/network/NetConnection.h:200-205 | refinement link: once its answer is written a client reads headers; a server goes on waiting |
| `Connections.Connection.OnValidationWriteFailed` | common/network/NetConnection.h:206-209 | refinement link: a failed write of the word closes the socket |
| `Connections.Connection.Transmit` | common/network/NetConnection.h:271-299 | refinement link: bytes of the outstanding frame write leave in order, after the word |
| `Connections.Connection.TransmitValidation` | common/network/NetConnection.h:198-199 | refinement link: bytes of the handshake word leave in order |
| `Connections.Connection.ReceiveChunk` | common/network/NetConnection.h:161-240 | refinement link: bytes of any chunking accumulate for the outstanding read |
| `Connections.Connection.OnValidationRead` | common/network/NetConnection.h:162-193 | refinement link: the server validates and greets on the expected word and closes on any other; the client answers with the scrambled word |
| `Connections.Connection.OnHeaderRead` | common/network/NetConnection.h:216-229 | refinement link: a header resizes the buffer and awaits its body, or with size zero delivers with the old body left in place |
| `Connections.Connection.OnBodyRead` | common/network/NetConnection.h:241-246 | refinement link: a read body completes the message, delivers it and awaits the next header |
| `Connections.Connection.AddToIncomingMessageQueue` | common/network/NetConnection.h:255-267 | refinement link: the message assembled is put at the end of the incoming queue and the next header awaited |
| `Connections.Connection.OnReadFailed` | common/network/NetConnection.h:188-252 | refinement link: a failed read closes the socket and starts no other read |
| `OpenSystem.StepKeepsFree` | common/network/NetConnection.h:143-316 | every handler, with any bytes from the peer and whenever the application sends, keeps the invariant of reader, handshake and writer chain |
| `OpenSystem.StepKeepsState` | common/network/NetConnection.h:143-316 | as long as no posted send runs before the handshake word is issued, it keeps that of the byte stream too |
| `OpenSystem.RunKeepsFree` | common/network/NetConnection.h:143-316 | the first invariant holds over every run |
| `OpenSystem.RunKeepsState` | common/network/NetConnection.h:143-316 | the second over every run in which the word is issued first |
| `OpenSystem.HandshakeSafety` | common/network/NetConnection.h:159-194 | over all runs and peer bytes: at most one validation, exactly when the first eight bytes are the response to the challenge nibble by nibble; no message is delivered without it; any other word closes the connection with nothing delivered |
| `OpenSystem.ClientAnswers` | common/network/NetConnection.h:182-186 | over all runs and peer bytes the word a client issues is the response to the first eight bytes it read, nibble by nibble |
| `OpenSystem.ReaderRefinesParser` | common/network/NetConnection.h:213-267 | at either side and whatever the peer sends, what is delivered is what the reference parser makes of the bytes behind the word; the rest is the frame being read |
| `OpenSystem.WriterChainOverRuns` | common/network/NetConnection.h:143-316 | over all runs of either side: without a write error a frame write is outstanding exactly while the queue is non-empty, and for the front message, and sends wait in posting order; if the word was issued first, as always at a server, the bytes written and outstanding are the word, the finished frames in order and the front frame alone |
| `OpenSystem.FailureIsFinal` | common/network/NetConnection.h:143-316 | over all runs, after a frame write failed, the queue keeps its messages and only grows, and no byte more is written |
| `OpenSystem.EarlySendIff` | common/network/NetConnection.h:143-155 | over all runs of a client that has not answered yet, nothing of a message is queued for writing or written exactly when no posted send has run |
| `OpenSystem.EarlySendPrecedesHandshake` | common/network/NetConnection.h:143-155 | a case: a message sent at once puts its header on the wire first |
| `Network.NetStepKeepsState` | common/network/NetConnection.h:143-316 | every step of either side keeps both endpoint invariants and the contents of both byte streams; the client's bytes stay in order, or stay out of order, depending on whether a posted send runs before its answer is issued |
| `Network.Delivery` | common/network/NetConnection.h:213-316 | in every such state the messages delivered are exactly what a receiver makes of a prefix of those posted, and finished reads end at a frame boundary behind the handshake word |
| `Network.HandshakeSucceeds` | common/network/NetConnection.h:159-211 | as long as no frame of the client got in front of its answer, both sides read the other's handshake word as such and the server validates |
| `Network.ValidatedIff` | common/network/NetConnection.h:159-211 | over all runs, the server has validated its client exactly if it has read eight bytes and no send posted by the client ran before its answer was issued |
| `Network.HeaderIsNoAnswer` | common/network/NetConnection.h:318-323 | no eight bytes of a header are the right answer to any challenge |
| `Network.EndToEndDelivery` | common/network/NetConnection.h:143-316 | in every reachable state under every interleaving and chunking, with failures, and whenever either side sends, each side has been handed a prefix of what the other posted: in order, nothing lost, doubled or mixed |
| `Network.WorkDecreases` | common/network/NetConnection.h:143-316 | every step that is neither a new send nor an error strictly decreases the work left |
| `Network.Progress` | common/network/NetConnection.h:143-316 | while work is left and both sockets are open some such step is possible, and one that keeps the client's bytes in order |
| `Network.StaysOpen` | common/network/NetConnection.h:159-316 | without errors neither side closes as long as the client's bytes are in order, because the handshake cannot fail |
| `Network.DrainedIff` | common/network/NetConnection.h:143-316 | no work is left exactly when both queues and both streams are empty, both handshakes are done and everything posted has been delivered |
| `Network.QuietRunsEnd` | common/network/NetConnection.h:143-316 | a run without new sends and errors is no longer than the work at its start |
| `Network.CanDrain` | common/network/NetConnection.h:143-316 | from every reachable state with open sockets and the client's bytes in order such a run delivers everything |
| `Network.StuckIsDrained` | common/network/NetConnection.h:143-316 | over all runs: a state with open sockets where only new sends or errors are possible has everything delivered |
| `Network.EverythingCanArrive` | common/network/NetConnection.h:143-316 | over all runs in which the client's answer was issued before a posted send of its own ran: while the sockets are open, everything posted can still be delivered |
| `Network.NeverArrives` | common/network/NetConnection.h:143-316 | and over all others nothing the client sends ever is, whatever follows |
| `Hubs.EachClientInOrder` | common/network/NetConnection.h:255-267 | over all interleavings of several connections and the consumer of the shared queue, what is handled as a client's is tagged with it and is the beginning of what its connection delivered, and so of what it sent, each once and in order; the rest is in hand or queued |
| `Greetings.OnClientValidated` | server/src/Server.cpp:50-72 | the client is greeted with the map numbered one less than there are connections; exactly when there is no such map the call throws, with nothing sent |
| `Greetings.Greet` | server/src/Server.cpp:52-71 | posts, in this order, layout, configuration, count and entities of that map, and nothing else; the count stays in front of the entities, which may have become more since |
| `Greetings.GreetingContents` | server/src/Server.cpp:52-71 | the four messages by number and bytes: a layout at the origin of the map's size with the default 8 by 16 font, the configuration, the count, and the count again in front of the entities |
| `Greetings.GreetingWellFramedIff` | server/src/Server.cpp:64-71 | all four messages announce their bodies exactly when the entities with the count fit below 4 GiB |
| `Clients.Client.constructor` | client/src/Client.cpp:5-9 | a client starts with nothing received, on its default console |
| `Clients.Client.StartUp` | client/src/Client.cpp:47-95 | m_start handles the arrived messages once each and in order, and stops only when started, faulted or out of messages |
| `Clients.StartedIff` | client/src/Client.cpp:49-92 | over any series of messages a client without fault has started exactly if entities came in after a layout, a map and a count |
| `Clients.OthersIgnored` | client/src/Client.cpp:36-89 | messages of other kinds change nothing |
| `Clients.EntitiesComeBack` | client/src/Client.cpp:79-82 | the entities pushed last are pulled exactly, whatever lies below them in the body |
| `Clients.LastEntitiesComeBack` | common/network/NetMsg.h:129-140 | of entities pushed last exactly any number up to all can be pulled, and the last ones come back |
| `Clients.RefreshExact` | client/src/Client.cpp:36-45 | on_message replaces the client's entities by those at the end of a message carrying as many as were announced |
| `Bootstrap.ConversationStages` | client/src/Client.cpp:52-92 | the client's state after each of the five messages of the conversation |
| `Bootstrap.HandedConversation` | server/src/Server.cpp:50-82 | in every reachable state the client has been handed the beginning of the conversation, message for message, no left-over bodies |
| `Bootstrap.ClientConfigExact` | common/utilities/Map.cpp:19-23 | the client's map starts in column zero, at its own row if that is at most five and the layout's height does not wrap, else in row five |
| `Bootstrap.SysRunKeepsState` | client/src/Client.cpp:47-95 | network, server and startup loop keep their joint invariant over every run |
| `Bootstrap.BootstrapCorrect` | client/src/Client.cpp:47-95 | over all runs the startup faults only if the entities counted are not in the message or do not fit the map's index; when it is over, either way, there is a map, and the entities the message holds are there; once started the client has handled the messages in order and holds the map, the index and the last counted entities, which are the server's whole vector exactly if that did not grow |
| `Bootstrap.SysProgress` | client/src/Client.cpp:52-58 | until its startup is over, with both sockets open, some step of the system is possible, and one that keeps the client's bytes in order |
| `Bootstrap.BootstrapCompletes` | client/src/Client.cpp:47-95 | from every such state with the client's bytes in order the startup can be brought to its end: started exactly when the scene can be shown, faulted otherwise |
| `Bootstrap.BootstrapRunsEnd` | client/src/Client.cpp:47-95 | no run of the system's own steps is longer than a bound given by its state |
| `Bootstrap.StuckIsStarted` | client/src/Client.cpp:47-95 | over all runs: with open sockets the system comes to rest only with the client started and showing the server's scene, exactly when it can be shown, and faulted otherwise |
| `Bootstrap.EnvironmentScene` | server/src/Environment.cpp:58-106 | every map the environment makes, on any console and with however much of its food counted, meets the conditions of the bootstrap theorems and can be shown |
| `Services.OwnScenesIff` | server/src/Server.cpp:50-92 | over all server runs without drops in which all clients are validated and started, each client shows the scene of the map of its own rank exactly when each was validated before the next one was accepted, if no two maps show the same |
| `Services.OwnMapsIff` | server/src/Environment.cpp:58-106 | this holds for the environment's own maps with at least one piece of food counted, as their food is numbered consecutively |
| `ClientMaps.ClientMap.constructor` | client/src/ClientMap.cpp:6-10 | the entity message starts empty, with its id |
| `ClientMaps.ClientMap.Report` | client/src/ClientMap.cpp:29-30 | the current entities are appended to the message and a copy of all of it is sent |
| `ClientMaps.ClientMap.Run` | client/src/ClientMap.cpp:16-32 | the walls, then in each pass an update and render of the map and one message with the entities of a later moment, the k-th holding the first k reports, until an update throws |
| `ClientMaps.AccumulatedBody` | client/src/ClientMap.cpp:29-30 | the body is the concatenation of all snapshots so far |
| `ClientMaps.AccumulatedFramedIff` | client/src/ClientMap.cpp:29-30 | the message announces its body exactly while all snapshots together stay below 4 GiB |
| `ClientMaps.PullUndoesRound` | common/network/NetMsg.h:129-140 | pulling the current count from the latest message gives the latest snapshot and uncovers the message before |
| `ClientMaps.NewestFirst` | common/network/NetMsg.h:129-140 | repeated pulls return earlier snapshots newest first |
| `ClientMaps.SnapshotsArrive` | client/src/ClientMap.cpp:16-32 | over all runs of the network the k-th message handed to the server is the k-th one sent, with the k-th snapshot on top |
| `Queues.TSQueue.PushBack` | common/network/NetTSQueue.h:91-97 | the item is put at the end |
| `Queues.TSQueue.PopFront` | common/network/NetTSQueue.h:117-123 | the first item is removed and returned |
| `Queues.TSQueue.Update` | common/network/NetServerInterface.h:168-179 | undisturbed, update hands over the oldest messages, as many as there are up to its limit |
| `Queues.StepKeepsInv` | common/network/NetTSQueue.h:91-141 | every locked scope of producers and consumer keeps the queue's invariant |
| `Queues.HandOff` | common/network/NetClientInterface.h:126-137 | over all interleavings: handled, in hand and queued are together what was pushed, in order; a call hands over at most its limit; a blocked consumer has an empty queue or a wake-up coming; no pop meets an empty queue |
| `Queues.UpdateCall` | common/network/NetServerInterface.h:168-179 | one call of update over every run: it blocks only if told to wait, before it has handled anything; told to wait it does not return without having handed over a message; it hands over at most its limit and returns at the first test that finds the limit reached or the queue empty |
| `Queues.WokenHandles` | common/network/NetTSQueue.h:133-141 | a waiting consumer with a message queued has been signalled and, whatever is pushed meanwhile, handles that message next, within four of its own steps |
| `ServerInterfaces.ServerInterface.constructor` | common/network/NetServerInterface.h:208-210 | no connections, the id counter at 10000 |
| `ServerInterfaces.ServerInterface.Accept` | common/network/NetServerInterface.h:97-127 | a newcomer is taken exactly while connections are fewer than maps; it comes last, has the acceptance posted, its challenge under way and the next id; any other has the denial posted and is dropped |
| `ServerInterfaces.DenialContents` | server/src/Server.cpp:83-91 | the denial carries the text with its terminating zero |
| `ServerInterfaces.ServerInterface.VisitClient` | common/network/NetServerInterface.h:149-159 | one pass of the broadcast loop sends to an open client unless ignored, or reports and nulls a closed one |
| `ServerInterfaces.ServerInterface.VisitAll` | common/network/NetServerInterface.h:145-160 | the loop does so to every client once, in order |
| `ServerInterfaces.ServerInterface.MessageAllClients` | common/network/NetServerInterface.h:143-166 | afterwards the deque is its open connections in the old order; each but the ignored one has one message more posted and waiting, and nothing else changed; each of the others was reported once and left alone |
| `ServerInterfaces.EraseKeeps` | common/network/NetServerInterface.h:162-165 | nulling the closed connections and erasing the nulls is filtering |
| `ServerInterfaces.KeepExact` | common/network/NetServerInterface.h:143-166 | exactly the flagged elements are kept, and kept and dropped together are all |
| `Admission.StepKeepsInv` | server/src/Server.cpp:50-92 | accepting, validating and dropping keep the admission invariant |
| `Admission.AdmissionSafe` | common/network/NetServerInterface.h:97-127 | over all runs: never more connections than maps, every map index chosen exists, and uids in the deque increase until the counter wraps |
| `Admission.PromptIff` | server/src/Server.cpp:50-72 | over all runs without drops, every validated client holds the map of its own rank exactly when each was validated before the next one was accepted |
| `Admission.DistinctMapsIff` | server/src/Server.cpp:50-72 | over all runs without drops in which all are validated, maps are distinct exactly when each client was validated before the next one was accepted |
| `Admission.AlwaysApartIff` | common/network/NetServerInterface.h:143-166 | over all runs with drops, from any state without shared maps, no two connected clients ever share a map exactly when at each validation no connected client holds the last map |
| `Admission.FinalMapsIff` | common/network/NetServerInterface.h:143-166 | and no two clients left in the end share one exactly when that is so among them |
| `Admission.LateValidationCollides` | server/src/Server.cpp:54-70 | two clients accepted before the first is validated share a map |
| `Admission.RemovalCollides` | common/network/NetServerInterface.h:162-165 | after a drop a newcomer shares the map of a client that stayed |
| `Grids.UpdatedIff` | common/utilities/Map.cpp:66-68 | the update throws exactly when some old or new cell lies outside the index |
| `Grids.LastStoreWins` | common/utilities/Map.cpp:63-69 | each cell holds the result of the last assignment that touched it; others are unchanged |
| `Grids.NoGhostsIff` | common/utilities/Map.cpp:58-71 | after an update every occupied cell holds an entity of the list that is there, exactly when that was so of the occupied cells the update does not visit |
| `Grids.MovingKeepsNoGhosts` | common/utilities/Map.cpp:58-71 | updates keep the index free of ghosts as long as each entity's cell is visited when it moves on |
| `Grids.ClearsPreviousIff` | common/utilities/Map.cpp:63-69 | for an entity moved on by its velocity, the cell cleared is the one it was in exactly if its 16-bit coordinates did not wrap, and the cell filled is its own |
| `Grids.VelocityKeepsNoGhosts` | common/utilities/Map.cpp:58-71 | an index free of ghosts, updated with every entity moved on by its velocity, is free of ghosts again |
| `Grids.FindsAllIff` | common/utilities/Map.cpp:58-89 | check_pos finds every entity after an update exactly when no later different one enters its cell and each time a later one leaves its cell one enters it again |
| `Grids.CellIsPosition` | common/utilities/Map.cpp:66-88 | inside the map the flattened index is in range and tells positions apart |
| `Grids.CellIsWrapped` | common/utilities/Map.cpp:66-68 | in any map, the position within the columns whose cell an entity has is its column modulo the width, as many rows down as the width goes into its column |
| `Grids.CellInIndexIff` | common/utilities/Map.cpp:66-68 | and the entity is inside the index exactly when that row is one of the map's |
| `Grids.ReportedIsThereIff` | common/utilities/Map.cpp:86-89 | in a ghost-free index whom check_pos reports is of the list and has that wrapped position; it is really there exactly when it is not beyond the right edge |
| `Grids.HistoryBrings` | common/utilities/Map.cpp:58-71 | through any series of updates the index only holds entities it held at the start or was given |
| `Screens.ConsoleBuffer.constructor` | common/utilities/WinConsole.cpp:5-14 | every cell is blank |
| `Screens.ConsoleBuffer.WriteCharacter` | common/utilities/WinConsole.cpp:58-67 | the one cell at the coordinates is set; outside the buffer nothing happens |
| `Screens.ConsoleBuffer.WriteAt` | common/utilities/WinConsole.cpp:47-56 | the same with a flat position |
| `Screens.DrawExact` | common/utilities/WinConsole.cpp:58-67 | a write with coordinates inside the buffer sets the cell at row times width plus column, and no write sets any other |
| `Screens.DrawPixel` | common/utilities/WinConsole.cpp:58-67 | a write changes the position it names and no other |
| `Screens.PaintPixel` | common/utilities/WinConsole.cpp:58-67 | after any series of writes each position shows the last one to it |
| `Screens.Confluence` | common/utilities/WinConsole.cpp:58-67 | as long as at each position only one thread writes, or all write the same character, every interleaving leaves, at every moment, what running the threads one after another leaves |
| `Screens.ConfluenceIff` | common/utilities/WinConsole.cpp:58-67 | and only then: all schedules agree exactly when each visible position is written by one thread or with one character |
| `Screens.OrderShows` | common/utilities/WinConsole.cpp:58-67 | where two threads leave different characters at a position, there is a schedule for which it does not |
| `Screens.OrderIrrelevant` | common/utilities/WinConsole.cpp:58-67 | two interleavings in which the threads came equally far leave the same buffer |
| `Maps.Map.constructor` | common/utilities/Map.cpp:10-24 | an empty index of width times height; offsets clamped to the console in 16 bits |
| `Maps.Map.DrawLine` | common/utilities/Map.cpp:91-124 | both loops issue exactly the writes of the normalised, cut line, rows first |
| `Maps.Map.DrawWall` | common/utilities/Map.cpp:129-147 | one configured wall is drawn; unknown values draw nothing |
| `Maps.Map.StartUp` | common/utilities/Map.cpp:126-210 | the four walls are drawn in order |
| `Maps.Map.Render` | common/utilities/Map.cpp:73-84 | every occupant of the index is drawn at its own position plus the offset, in index order; the index stays |
| `Maps.Map.UpdateEntities` | common/utilities/Map.cpp:58-71 | the assignments happen entity by entity up to the first one out of range, which throws; otherwise the result is rendered |
| `Maps.Map.Run` | server/src/Environment.cpp:40-46 | the thread of a map draws the walls and then renders the index after each update, until one throws |
| `Maps.Map.CheckPos` | common/utilities/Map.cpp:86-89 | the occupant of the flattened position, or an exception exactly past the end of the index |
| `Maps.ApplyEntity` | common/utilities/Map.cpp:63-69 | each entity first clears, then fills; a throw ends the whole update with what was done so far |
| `MapDrawing.LineExact` | common/utilities/Map.cpp:91-124 | for any arguments draw_line sets exactly the positions of its row and column and leaves all others |
| `MapDrawing.LineStaysInsideIff` | common/utilities/Map.cpp:91-124 | for any arguments and map size nothing is drawn outside the map exactly when the first position is inside, or both runs start behind the far edges |
| `MapDrawing.LineIsSegmentIff` | common/utilities/Map.cpp:91-124 | a straight line is drawn as the segment cut to the map exactly when, besides, it leads right and down or ends at the far edge |
| `MapDrawing.WallExact` | common/utilities/Map.cpp:126-210 | each wall covers exactly its side of the map; on a map without columns or rows, a run of one beside it |
| `MapDrawing.WallByNumber` | common/utilities/Map.cpp:126-210 | walls 1 to 4 are the right, left, top and bottom side, drawn with bars and dashes |
| `MapDrawing.StartUpExact` | common/utilities/Map.cpp:126-210 | on a map of any size each position shows the last of the four configured walls covering it, and is untouched if there is none |
| `MapDrawing.StartUpHits` | common/utilities/Map.cpp:126-210 | the positions written are exactly those of the four walls |
| `MapDrawing.WallsStayInsideIff` | common/utilities/Map.cpp:126-210 | all of them lie inside the map exactly when it has columns and rows, or no walls |
| `MapDrawing.RenderHits` | common/utilities/Map.cpp:73-84 | render writes to exactly the positions of the occupants |
| `MapDrawing.RenderExact` | common/utilities/Map.cpp:73-84 | with a ghost-free index of entities inside the map each position of the map shows its occupant's style, and is untouched if it has none |
| `MapDrawing.WallsAndRendersCommute` | server/src/Environment.cpp:58-82 | with entities strictly inside the border, walls and any number of renders commute |
| `MapDrawing.WallsSurvive` | server/src/Environment.cpp:58-82 | and every configured wall character survives all of them |
| `Environments.Environment.constructor` | server/src/Environment.cpp:7-15 | map width is the environment's width divided by the number of maps, over an empty environment and a blank buffer of its size |
| `Environments.Environment.InstantiateMaps` | server/src/Environment.cpp:84-106 | map i has the i-th strip's configuration, an empty index of its own and the shared buffer |
| `Environments.Environment.FeedMap` | server/src/Environment.cpp:66-80 | food with consecutive ids is appended at the drawn positions to this map's vector only, and indexed; the index is rendered on the shared buffer unless the update throws |
| `Environments.Environment.CreateEntities` | server/src/Environment.cpp:58-82 | every map in turn has its food appended, numbered on from map to map; on maps as instantiated, with food drawn inside the borders, no update throws |
| `Environments.FoodExact` | server/src/Environment.cpp:66-78 | every piece of food field by field: consecutive number, drawn position, at rest, a dot, of kind food |
| `Environments.StripPartition` | server/src/Environment.cpp:10-12 | for every width and number of maps the strips are disjoint, inside the buffer, unchanged by their 16-bit field, and leave over fewer columns than there are maps |
| `Environments.OffsetsKeptIff` | common/utilities/Map.cpp:19-23 | the clamp leaves all strips unchanged exactly when the console holds them all |
| `Environments.StripsApartIff` | server/src/Environment.cpp:95-105 | the maps' strips are pairwise apart exactly when the console is wide enough for all |
| `MapThreads.ThreadConfined` | server/src/Environment.cpp:37-47 | a map's thread that is only given entities inside the map writes inside its own strip only |
| `MapThreads.ThreadsSeparate` | server/src/Environment.cpp:37-47 | on a console that holds all strips no position is written by two map threads |
| `MapThreads.MapThreadsConfluent` | server/src/Environment.cpp:37-47 | there, for any entities inside their maps and any number of updates, whatever the interleaving, at every moment the buffer is the one that running the maps one after another leaves |
| `MapThreads.MapThreadsConfluentIff` | server/src/Environment.cpp:37-47 | for maps and consoles of any size, this holds for all entities, buffers and schedules exactly when there is one map, or the console holds all strips, or wrapped offsets put every map out of sight |
| `MapThreads.FoodThreadsConfluentIff` | server/src/Environment.cpp:37-106 | with the walls and any food the environment draws, it holds for all schedules exactly in these cases and when the maps are even in number and the console holds all but part of the last |
| `MapThreads.FoodGrids` | server/src/Environment.cpp:58-82 | no update of an environment map with its food ever throws, and after each its index holds food only, strictly inside the border |
| `MapThreads.FoodWallsSurvive` | server/src/Environment.cpp:58-82 | however often the food of an environment map is rendered, each wall position shows the last of the walls covering it |
| `MapThreads.FoodAndWallsCommute` | server/src/Environment.cpp:31-47 | rendering the food of an environment map, first and after every update, commutes with drawing its walls |
| `MapThreads.NarrowConsoleRaces` | server/src/Environment.cpp:37-47 | two maps of width three on a console of width three leave different pictures in either order |
| `Environments.FoodsInterior` | server/src/Environment.cpp:66-79 | food lies strictly inside the border and does not move |
| `Environments.FoodIndexed` | server/src/Environment.cpp:58-82 | updating an index that holds only food of the map, such as the empty one, never throws, leaves no ghosts and keeps it so |
| `Environments.FoodStaysIndexed` | server/src/Environment.cpp:40-44 | any number of updates never throws, and after each every piece is in its own cell strictly inside the border |
| `TSVectors.TSVector.Assign` | common/utilities/TSVector.h:104-118 | assigning leaves exactly the new elements, whatever the old length |
| `TSVectors.TSVector.GetVector` | common/utilities/TSVector.h:216-228 | a copy of all elements in order |
| `TSVectors.TSVector.PushBack` | common/utilities/TSVector.h:146-152 | the element is put at the end |
| `TSVectors.TSVector.Resize` | common/utilities/TSVector.h:180-192 | the common prefix is kept and new elements have the given value |

## Left out

- Network.EndToEndDelivery: covers messages whose header announces their body; `Framing.FrameExactIff` shows that this
  is needed.
- Network.HeaderIsNoAnswer: rests on the padding of a header being zero, as in a value-initialised message.
- Hubs.EachClientInOrder: the number of clients is fixed for a run; those not accepted yet have made no step.
- Network.CanDrain: says that an error-free run can always be completed and cannot go on for ever; that the operating
  system eventually lets each step happen is not part of the model.
- Queues.HandOff: a wake-up on its way is a flag; that the scheduler eventually resumes the consumer is not modelled.
- Bootstrap.BootstrapCorrect: assumes that the entities fit one message (`Greetings.GreetingWellFramedIff`).
- ServerInterfaces.ServerInterface.Accept: the delay for a denied client and what becomes of its connection object
  while the denial is under way are not modelled. Accept errors change nothing and are left out.
- Admission.AdmissionSafe: the uids are stated to increase only until the 32-bit counter wraps, as they do not beyond.
- MapThreads.MapThreadsConfluentIff: on the environment's buffer, as wide as all strips at least and as high as the
  maps.
- MapThreads.MapThreadsConfluent: needs entities inside their map; others may be drawn in other strips.
- Maps.Map.UpdateEntities: the index arithmetic is exact; a C++ `int` overflow of an index is taken to be out of
  range.
- ClientMaps.ClientMap.Run: the wait for changes at the start of a pass and the copy of the buffer to the console are
  left out; `Maps.Map.Run` likewise.
- Connections.Connection.OnFrameWriteFailed: asio's error codes are one failure step.
- asio, sockets, endpoint resolution, threads, destructors and object lifetime: foreign code behind the step
  assumptions.
- The Windows console, `write_buffer_to_console`, `test_console` and all logging: user interface.
- `message_client`: it resets its own pointer before removing it, so its removal does not do what it intends; the
  broadcast is modelled instead.
- `TSVector::wait` and the notifications of `TSVector`: there is no predicate loop, so no wake-up guarantee to state.
- `pop_back` of `TSQueue` and `TSVector`, `push_front`, and plain getters: unused or trivial; neither `pop_back` would
  compile if it were used.
- The layout of the C++ `Entity` object and the contents of padding bytes: replaced by a fixed-width encoding.
