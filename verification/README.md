# Khawasu PC runtime: a verified model

Khawasu PC connects a computer to a mesh of small devices. This project models the parts of it
that keep state and proves what they promise together:

- **Framing** (`Framing.dfy`, `MeshSocketInterface.dfy`): packets travel over byte streams with a
  four-byte length in front. The sender, one poll of a client, whole runs of a stream under any
  fragmentation, and an interface with any number of clients polled in any order.
- **Requests** (`Requests.dfy`, `FreshRequests.dfy`, `IdealRequests.dfy`, `RequestSoundness.dfy`,
  `RequestExamples.dfy`): requests are numbered by a byte that wraps. A machine whose steps are
  single accesses to the shared table by any thread, what holds of it as long as no live id is
  reused, the same machine with unbounded numbers, exactly when the first is faithful to the second,
  and what a caller may conclude from the answer it gets.
- **Devices** (`Hello.dfy`, `Registry.dfy`, `Subscriptions.dfy`): the cursor parser of hello packets
  over any bytes, the registry as a function of the hellos heard, and the subscription ledger.
- **Addressing** (`CallbackDevice.dfy`, `Addressing.dfy`, `EndToEnd.dfy`): from an action's name at
  the caller, through the registry, the parsed announcement, the id it yields and the packet that
  carries it, to the handler registered on the device, and back to the caller's table.
- **The device manager** (`PhyDeviceManager.dfy`): the class with the shared tables. Every method
  is tied to the machines above through ghost histories of what has happened, and blocking calls
  yield to arbitrary steps of other threads inside their polling loop.
- **The command line** (`Decimal.dfy`, `ArgParser.dfy`): the index-driven parser, decimal numbers,
  a printer that inverts it, and independence of how options and positional arguments are mixed.

## What turned out

- The byte-keyed table is faithful to one with unbounded numbers, and every answer lands on the
  request that caused it, if and only if three things are avoided (`AttributionIff`). The first is
  emplacing an entry under an id whose old entry is still in the table. The second is less obvious:
  an answer whose status is TIMEOUT makes `execute_action` collect it and poll on, and a call that
  polls on after its entry is gone takes the next answer under its byte, though no live id was
  reused. Avoiding these two, which is `IdealRequests.Guard`, is exactly what keeps the table
  faithful (`FaithfulIffGuarded`). The third is an answer to a call that is no longer outstanding,
  such as a duplicate after the first was collected (`RequestSoundness.Reaches`): it completes the
  entry of whatever call has the byte by then, if there is one, and is dropped if there is none
  (`NoneMisdirectedIff`). `RequestExamples` has a run for each of the three.
- The TIMEOUT half of the guard is about who collects an entry. Without it, as long as no live id is
  reused, a blocking call still comes back only with an answer handled under its byte between its
  insertion and its collecting turn (`FreshRequests.BlockingSoundness`); and if the network is honest
  as well, every answer still finds a waiting entry made for the request it answers, so the
  assertions in `handle_packet` hold (`FreshRequests.AssertionsHold`).
- On a guarded run the table is exactly the entries of the outstanding calls: an asynchronous or
  timed-out call keeps its entry. So a guarded run has at most 256 asynchronous tracked calls in
  all (`GuardedIsBounded`); no run with more of them is guarded.
- A poll that finds one to three bytes of a header hands the mesh controller a packet of size 0
  that is not a frame. It changes nothing else; the deliveries are exactly the frames taken off the
  wire if and only if no poll does this.
- An action with an empty name hides every action announced after it, because the parser's cursor
  does not leave the empty record (`HiddenActionExample`). A name that was added twice may be found
  under another id than `get_action_id` gives (`AmbiguousIdExample`); it reaches the same handler.
- The number of announced actions is a byte, so of 256 or more actions only the first size mod 256
  are announced, and the others cannot be found by name.
- A device that adds actions after its first hello is known by that hello for good: the names in it
  reach the handlers registered last by now, and a name that is only added later is never found (`EndToEnd`).
- `std::stoi` skips spaces, so a negative number can be a positional argument when a space precedes
  it. Every configuration can therefore be given on a command line, unless one of its positional
  strings starts with a dash.
- `README.md:5` of the repository uses port 49152, which does not fit the `short` it is stored in:
  it is stored as -16384, and becomes 49152 again when `main.cpp:57-61` passes it on as an unsigned
  16-bit port. `SocketPort` says for every int when it is stored, and when it is opened, as given.
- The ledger of START packets is right throughout a run if and only if no subscription takes an id
  that is still in the table (`LedgerIffNoCollision`). Through addresses this needs the 32-bit
  counter to wrap, and then it does happen (`CollisionExample`).
- The done callback given to a subscription through an address is dropped, so it is never called.

## Model

| member | source | states |
|---|---|---|
| Framing.Exactness | interfaces/mesh_socket_interface.cpp:52-71 | for every run of sends, arrivals of any number of bytes and polls: the non-empty deliveries are the non-empty packets among the first k sent, and k whole frames, the frame in hand and the unread bytes make up the bytes sent |
| Framing.ExactIffNoPartialHeader | interfaces/mesh_socket_interface.cpp:54-66 | the deliveries are exactly the first k packets, empty ones included, if and only if no poll met a partial header; each such poll adds one delivery |
| Framing.EmptyDeliveries | interfaces/mesh_socket_interface.cpp:54-71 | a poll at a partial header delivers size 0 and changes nothing; any other delivery of size 0 is a whole empty frame that was sent |
| Framing.PartialHeaderExample | interfaces/mesh_socket_interface.cpp:54-66 | for every non-empty packet, a run on which an empty packet that nobody sent is delivered |
| Framing.NoWrap | interfaces/mesh_socket_interface.cpp:59-61 | a client never holds more than it expects, exactly as much only between frames, so the unsigned subtraction does not wrap |
| Framing.AtUnique | interfaces/mesh_socket_interface.cpp:52-71 | the number k of frames taken off the wire is determined by the state of the stream |
| Framing.Drain | interfaces/mesh_socket_interface.cpp:52-71 | once everything is readable, from any reachable partial state, n polls deliver exactly the next n frames, and as many polls as frames remain drain the stream, no fewer |
| MeshSocketInterface.MeshSocketInterface.Server | interfaces/mesh_socket_interface.cpp:11-13 | a server starts without clients |
| MeshSocketInterface.MeshSocketInterface.Connect | interfaces/mesh_socket_interface.cpp:19-22 | once connected, a client interface starts with its server as the only link, between frames |
| MeshSocketInterface.MeshSocketInterface.Open | interfaces/mesh_socket_interface.cpp:11-24 | no interface exactly when a client is refused; otherwise a server without clients or a client with its server |
| MeshSocketInterface.MeshSocketInterface.CheckPackets | interfaces/mesh_socket_interface.cpp:26-74 | a server with an incoming connection stores it under the address it comes from, on its own socket and without bytes, replacing any client of that address; every other client stays under its address and on its socket and is polled exactly once if ready, not at all otherwise, in whatever order the table is walked; an exceptional listener skips the pass |
| MeshSocketInterface.MeshSocketInterface.CheckClients | interfaces/mesh_socket_interface.cpp:46-73 | the loop over the table: every ready link polled once, the others untouched, the log extended by what the polls deliver |
| MeshSocketInterface.MeshSocketInterface.CheckClient | interfaces/mesh_socket_interface.cpp:52-72 | the imperative body of the pass, in its two halves, does what the poll function says to one client's buffer, socket and deliveries |
| MeshSocketInterface.MeshSocketInterface.ReceiveHeader | interfaces/mesh_socket_interface.cpp:54-57 | the four bytes of the length field come off the socket |
| MeshSocketInterface.MeshSocketInterface.ReceiveBody | interfaces/mesh_socket_interface.cpp:59-71 | what the frame still lacks comes off the socket as far as it is there, and a complete packet is handed over once |
| MeshSocketInterface.MeshSocketInterface.SendPacket | interfaces/mesh_socket_interface.cpp:101-110 | a known address gets exactly one frame appended to its socket, an unknown one nothing; what was written to a socket is always the frames of the packets sent over it since it was opened |
| MeshSocketInterface.NonInterference | interfaces/mesh_socket_interface.cpp:26-74 | on every run of the interface, the link and the deliveries of an address are a function of that address's own connections, bytes and polls |
| MeshSocketInterface.DeliveredIsSent | interfaces/mesh_socket_interface.cpp:26-110 | among any number of clients, from any state, whatever an address did before and however often it connects after that: it is delivered the deliveries of each connection's own stream, one after the other, and for each connection the non-empty ones are a prefix of what its peer sent over it |
| MeshSocketInterface.DeliveredToClient | interfaces/mesh_socket_interface.cpp:22-74 | the same for the connection a client interface starts with |
| MeshSocketInterface.PeerDelivers | interfaces/mesh_socket_interface.cpp:26-110 | two interfaces, however the connection cuts up the bytes: the non-empty packets one is delivered over a connection are a prefix of those the other sent over its end, and all of them once every byte has come in and the link holds nothing |
| Requests.TableInvariant | phy_device_manager.cpp:52-76 | on every run, ids reused or not: each entry lies under its own id, at most 256 exist, an entry waits exactly until it has a status, and calls hold only answers under their own byte |
| Requests.EntryIsStable | phy_device_manager.cpp:154-159 | on every run, while an entry stays in the table its type, target and send time do not change, and it never waits again once answered |
| Requests.CallbackConservation | phy_device_manager.cpp:51-81 | on every run, with the callback set: non-null callbacks number accepted answers, refused executes and blocking calls that return an answer; null callbacks number the blocking calls that return without one |
| Requests.UnsettledMeansTimedOut | phy_device_manager.cpp:213-237 | a blocking call comes back without an answer, or an execute with a TIMEOUT answer, only after a turn at which five seconds had passed since it started, unless the clock was behind the start, when the unsigned difference wraps |
| Requests.SettledStays | phy_device_manager.cpp:216-228 | once a fetch holds an answer, or an execute one that is not TIMEOUT, it keeps that answer whatever happens later |
| Requests.ReportsAreAnswers | phy_device_manager.cpp:55-60 | on every run, whatever entry the callback is given has a status and does not wait |
| FreshRequests.QuietExecute | phy_device_manager.cpp:156-159 | on every run, an execute that wants no status is over once it has its id: it is never inserted and never holds an answer |
| FreshRequests.BlockingSoundness | phy_device_manager.cpp:205-238 | as long as no live id is reused, what a call returns has the status and payload of the last answer handled under its byte before its collecting turn, which came after its insertion; after that turn the byte is out of the table |
| FreshRequests.AssertionsHold | phy_device_manager.cpp:51-81 | as long as no live id is reused and the network answers each tracked request at most once and no other, every answer finds an entry under its byte that waits, has no payload yet and was made for the request it answers |
| IdealRequests.Commutes | phy_device_manager.cpp:51-81 | from agreeing states, a step of the byte-keyed table agrees with the step of the unbounded one if and only if it is guarded |
| IdealRequests.FaithfulIffGuarded | phy_device_manager.h:64-66 | the byte-keyed table is in bijection with the live entries of the unbounded one (n to n mod 256) throughout a run if and only if every step of the run is guarded |
| IdealRequests.GuardedWithoutTimeouts | phy_device_manager.cpp:216-228 | when no answer carries TIMEOUT, not emplacing under a live id is enough |
| IdealRequests.EntryStaysIffOutstanding | phy_device_manager.cpp:216-228 | on a guarded run the table holds an entry of a call if and only if the call is tracked, has inserted it and has not collected an answer; timed-out and asynchronous calls keep theirs |
| IdealRequests.GuardedIsBounded | phy_device_manager.h:64-66 | a guarded run has as many outstanding calls as entries, so at most 256, and at most 256 asynchronous tracked calls in all |
| RequestSoundness.OwnEntryCollected | phy_device_manager.cpp:205-238 | on a guarded run a call comes back with what it collected first, and that is the very entry it inserted |
| RequestSoundness.LandsOnCauseIffReaches | phy_device_manager.cpp:51-81 | after a guarded run, an answer lands on the entry of the call it was sent for if and only if it has that call's byte and the call is tracked, was sent and has not collected |
| RequestSoundness.AttributionIff | phy_device_manager.cpp:51-81 | the byte-keyed table is faithful throughout and every answer lands on the request that caused it if and only if every step is guarded and every answer reaches an outstanding cause |
| RequestSoundness.NoneMisdirectedIff | phy_device_manager.cpp:51-81 | on a guarded run no answer completes the entry of another call than the one it was sent for if and only if every answer reaches its cause or finds no entry under its byte |
| RequestSoundness.OwnAnswerIffReaches | phy_device_manager.cpp:205-238 | on a guarded run, the answer a call comes back with was sent for that very call if and only if the call it was sent for was still outstanding when it was handled |
| RequestSoundness.OwnEntryAnswered | phy_device_manager.cpp:51-81 | on a guarded run with such a network, the entry that an answer finds is the very entry of the call it answers |
| RequestSoundness.HonestReaches | phy_device_manager.cpp:51-81 | with such a network every answer reaches its cause |
| RequestSoundness.AnsweredByOwnCause | phy_device_manager.cpp:277-302 | with such a network, the answer returned was sent for that very call, and the payload is exactly what it carried |
| RequestSoundness.CollectsIffAnswered | phy_device_manager.cpp:216-228 | with such a network, a waiting call that takes a turn in time collects if and only if its own answer has been handled |
| RequestExamples.ReuseExample | phy_device_manager.cpp:254-255 | an uncollected fetch and a later one under the same byte: the later call collects the earlier call's entry |
| RequestExamples.TimeoutStatusExample | phy_device_manager.cpp:216-227 | without any reuse of a live id, an execute answered with TIMEOUT collects the answer of a later fetch |
| RequestExamples.DuplicateAnswerExample | phy_device_manager.cpp:285-293 | on a guarded run, a second copy of an answer that was already collected is collected by a later fetch under the same byte |
| Hello.ParseHello | device_info.cpp:5-35 | the two loops with one cursor compute the described device, and where the cursor ends |
| Hello.WalkAttribs | device_info.cpp:11-20 | the attribute loop: the map and the cursor after the given number of records |
| Hello.WalkActions | device_info.cpp:22-34 | the action loop: the map and the cursor after the given number of turns |
| Hello.ParsedActionsShape | device_info.cpp:22-34 | for any bytes, the ids are 0..k-1 where k is the first record with an empty name, or the count; id i is the record at the cursor's i-th position, and the cursor stays at an empty record |
| Hello.ActionRecord | device_info.cpp:27-31 | an action parsed from any bytes has the type of its record and the characters of its name before the first NUL |
| Hello.HelloRoundTrip | device_info.cpp:7-34 | parsing an announcement returns its name, its attributes with the first of each key, and its actions up to the first empty name under their positions; if no name is empty, the cursor ends at the end |
| Hello.Visible | device_info.cpp:23-25 | the actions before the first empty name |
| CallbackDevice.LogicalCallbackDevice.AddAction | logical_callback_device.cpp:14-15 | appends to the vector, overwrites in the table, and keeps the vector equal to everything added and the table's keys exactly the names added, each with the handlers added last under it |
| CallbackDevice.LastAddedCounts | logical_callback_device.cpp:15 | the handlers added last under a name are those of the latest addition under it, and additions under other names do not matter |
| CallbackDevice.LogicalCallbackDevice.GetActionId | logical_callback_device.cpp:18-29 | the least id with the name, terminator included; 254 if there is none, and with at most 254 actions only then |
| CallbackDevice.MatchesIff | logical_callback_device.cpp:20-26 | a name matches exactly when its characters and then NUL fill the given length |
| CallbackDevice.Listed | logical_callback_device.h:25-27 | the actions announced: a prefix of fewer than 256, shorter than the vector by a multiple of 256 |
| CallbackDevice.LogicalCallbackDevice.OnActionSet | logical_callback_device.cpp:53-63 | an id in range calls the handler registered last under its name, with the name, type, data and address, and returns its status, in whatever order the table is walked; with no actions the status is ACTION_NOT_FOUND |
| CallbackDevice.LogicalCallbackDevice.OnActionGet | logical_callback_device.cpp:31-51 | the same for a get, whose handler is given the request id too, and exactly one reply with the handler's bytes under that id |
| Addressing.FindAction | phy_device_manager.cpp:139-147 | finds an id under the name if there is one, in whatever order the map is walked |
| Addressing.ParsedIds | device_info.cpp:22-34 | the parsed map knows a name exactly under the positions it has in the device's vector before the first empty name |
| Addressing.InvokeByName | phy_device_manager.cpp:133-148 | for every device, with any number of actions, and every name: found exactly when visible among the actions listed, dispatched to the handler registered last under the name, and under the device's own id when the name was listed once; a name that is not among the listed ones is never found |
| Addressing.SameIdIffOnce | logical_callback_device.cpp:18-29 | the id found is sure to be the device's own id if and only if the name was added once |
| Addressing.HiddenActionExample | device_info.cpp:23-25 | an action announced after one with an empty name is on the device, and known under no id |
| Addressing.AmbiguousIdExample | phy_device_manager.cpp:139-147 | a name added twice is known under an id that is not the least |
| EndToEnd.KnownAsOffered | phy_device_manager.cpp:29-49 | what the manager knows of a device's names is what the first hello heard from it offered, whatever was heard later |
| EndToEnd.SetByName | phy_device_manager.cpp:178-203 | for a device that may have added actions since its first hello: the packet sent for a name of that hello makes the device call the handler registered last under the name by now, with the caller's bytes; for any other name nothing is sent |
| EndToEnd.GetByName | logical_callback_device.cpp:31-51 | the same for a get, and the reply completes the entry under the request id with the handler's bytes; on a guarded history that entry is this call's own |
| Registry.RegistryIsHistory | phy_device_manager.cpp:29-42 | a lookup finds exactly the first hello heard from the device, and finds one if and only if one was heard |
| Registry.AnnouncedOnce | phy_device_manager.cpp:33-48 | the new-device callback is called for the first hello of each device, in order, and for no other |
| Registry.FirstSeenDistinct | phy_device_manager.cpp:35-40 | no device is announced twice, and every device announced was heard |
| Registry.NothingOverwritten | phy_device_manager.cpp:42 | what is registered stays as it is whatever is heard later |
| Subscriptions.LedgerStep | phy_device_manager.cpp:83-95 | a step keeps the ledger of START packets if and only if it does not take an id that is still in the table |
| Subscriptions.LedgerIffNoCollision | phy_device_manager.cpp:314-357 | the ledger is right throughout a run if and only if no step of the run takes an id that is still in the table |
| Subscriptions.CollisionExample | phy_device_manager.cpp:340-343 | after 2^32 subscriptions the next one keeps the first one's entry and callback and sends a START packet the ledger does not account for |
| Subscriptions.SubscriptionLedger | phy_device_manager.cpp:314-357 | on every run of fewer than 2^32 subscriptions, all made through addresses, for every id: the START packets repeat the entry and number one plus, for a renewing subscription, the DONE packets handled |
| Subscriptions.IdsBelowCounter | phy_device_manager.cpp:340-343 | short of wrapping and through addresses only, the counter counts the subscriptions asked for, and every id is below it |
| Subscriptions.EntriesStay | phy_device_manager.cpp:314-317 | on every run, entries lie under their ids, never change or vanish, and their devices stay registered unchanged |
| Subscriptions.UpdatesDelivered | phy_device_manager.cpp:97-111 | once a subscription is in the table its callback gets every update with its id, in order and unchanged |
| Subscriptions.NothingDeliveredBefore | phy_device_manager.cpp:108-110 | no callback is made for an id that is not in the table |
| Subscriptions.CallbacksMade | phy_device_manager.cpp:83-108 | on every run, callbacks are given the entry in the table, and a done callback is called once for each DONE packet handled for an entry that has one |
| Subscriptions.NeverFinishedThroughAddresses | phy_device_manager.cpp:335-357 | a subscription made through an address is never told that it is done, whatever done callback was asked for |
| PhyDeviceManager.PhyDeviceManager.constructor | phy_device_manager.cpp:373-376 | empty tables and histories |
| PhyDeviceManager.PhyDeviceManager.HandlePacket | phy_device_manager.cpp:28-112 | by type: an answer gives the entry under its id the status, and the payload if it has one, ends its waiting and reports exactly that entry to the callback; a hello is kept and announced if it is the first of its device; a DONE calls the done callback its subscription has and renews it if it renews; a subscription callback gets the payload; packets for unknown ids and all other tables are left alone. Each is one step of the machine it belongs to |
| PhyDeviceManager.PhyDeviceManager.LookupLog | phy_device_manager.cpp:114-131 | the first hello heard from the device, if any |
| PhyDeviceManager.PhyDeviceManager.LookupAction | phy_device_manager.cpp:133-148 | an id under which a known device announced the name; nothing when there is none |
| PhyDeviceManager.PhyDeviceManager.ExecuteActionAsync | phy_device_manager.cpp:150-176 | the call has drawn its id, has been inserted with an entry under the id exactly if it wants a status, and its packet is the last one sent, whatever other threads did in between |
| PhyDeviceManager.PhyDeviceManager.FetchActionAsync | phy_device_manager.cpp:249-266 | the same for a fetch, which always has an entry |
| PhyDeviceManager.PhyDeviceManager.Await | phy_device_manager.cpp:213-233 | the polling loop under arbitrary interference ends, what it collected is the result of this call in the machine, and the callback, if set, is given exactly that last |
| PhyDeviceManager.PhyDeviceManager.ExecuteAction | phy_device_manager.cpp:205-238 | its packet is sent under the call's byte; without a wanted status it is never inserted and returns UNKNOWN; otherwise the callback is given what it collected, and it returns that status, or TIMEOUT if it collected nothing. What it collected was, if no live id was reused, answered under the byte between the call's insertion and its collecting turn; on a guarded history the entry is the call's own and the answer was sent for this very call exactly when the call it was sent for was still outstanding, and always so with an honest network |
| PhyDeviceManager.PhyDeviceManager.FetchAction | phy_device_manager.cpp:277-302 | the same packet, the callback is given exactly the result returned, and the same is known of a non-null result |
| PhyDeviceManager.PhyDeviceManager.ExecuteActionAsyncByName | phy_device_manager.cpp:178-203 | an unknown name uses up an id and gives the callback one finished UNKNOWN answer under it; a known one is issued, with its packet last, under an id the device announced for it |
| PhyDeviceManager.PhyDeviceManager.ExecuteActionByName | phy_device_manager.cpp:240-247 | an unknown name returns ACTION_NOT_FOUND and touches nothing; a known one sends its packet under an announced id and returns what the call by id does |
| PhyDeviceManager.PhyDeviceManager.FetchActionAsyncByName | phy_device_manager.cpp:268-275 | an unknown name returns 0 and touches nothing; a known one is issued, with its packet last, under an announced id |
| PhyDeviceManager.PhyDeviceManager.FetchActionByName | phy_device_manager.cpp:304-312 | an unknown name returns nothing and touches nothing; a known one sends its packet under an announced id and returns what the call by id does |
| PhyDeviceManager.PhyDeviceManager.SubscribeAction | phy_device_manager.cpp:335-357 | the counter moves even when the device is not known; when it is, a START packet under the counter's id carries what was asked, and so does the entry, callback included and done callback not, unless the id had one |
| PhyDeviceManager.PhyDeviceManager.SubmitSubscription | phy_device_manager.cpp:314-333 | ready-made data is kept under its own id unless the id has an entry, and a START packet is sent either way |
| PhyDeviceManager.PhyDeviceManager.SubscribeActionByName | phy_device_manager.cpp:359-371 | an unknown name does not even move the counter |
| Decimal.StoiPrint | arg_parser.h:55 | every int survives printing and reading, with a space in front or not |
| Decimal.StoiReads | arg_parser.h:55 | any text, split into spaces, sign, digits and rest, is read as the signed number its digits spell if there are digits and the number is an int, and is an exception otherwise |
| Decimal.EveryTextSplits | arg_parser.h:55 | every text can be split like that |
| ArgParser.ArgParser.Process | arg_parser.h:16-32 | the index-driven loop computes the parse of all arguments, those of earlier calls included; it throws if and only if a text that is no number stands where one is taken, after complete items, and then the configuration is the one those items give |
| ArgParser.ArgParser.ProcessNamedArgument | arg_parser.h:47-77 | one option: the index moves past all its arguments, past the end if they are missing, and an exception leaves the configuration alone |
| ArgParser.ArgParser.ProcessNetworkOption | arg_parser.h:50-60 | the options of the network: one argument each; any other name changes nothing |
| ArgParser.ArgParser.ProcessInterfaceOption | arg_parser.h:62-68 | the options that add an interface, their arguments taken left to right; any other name changes nothing |
| ArgParser.ArgParser.ProcessGeneralOption | arg_parser.h:70-76 | the remaining options; an unknown one changes nothing |
| ArgParser.ArgParser.ProcessRelativeArgument | arg_parser.h:79-104 | one positional argument by its number |
| ArgParser.ThrowsIffBadNumber | arg_parser.h:47-92 | a command line throws if and only if, after complete options and positional arguments, an address, a baud rate, a port or one of the two numeric positional arguments cannot be read; the configuration is the one reached before it |
| ArgParser.UnknownOption | arg_parser.h:47-77 | an option that is not known is skipped |
| ArgParser.MissingText | arg_parser.h:35-45 | an option at the end without its text takes the empty one |
| ArgParser.MissingNumber | arg_parser.h:35-45 | an option at the end without its number throws |
| ArgParser.SocketPort | arg_parser.h:66-68 | for every int given as a port: stored as given if and only if it fits a short, opened as given if and only if it is a 16-bit port number |
| ArgParser.DocumentedPort | README.md:5 | the documented port is stored as -16384 and opened as 49152 |
| ArgParser.CommandLineRoundTrip | arg_parser.h:16-104 | parsing a printed configuration, with long or short option names, returns it |
| ArgParser.ReachableIffRepresentable | arg_parser.h:25-31 | a configuration is the parse of some command line if and only if no positional string in it starts with a dash |
| ArgParser.InterleavingIndependence | arg_parser.h:25-104 | two mixtures of the same complete options and the same positional arguments, each in its own order, give the same configuration or both throw |

## Left out

- PhyDeviceManager.PhyDeviceManager.Yield: promises only that other threads' steps are steps of the machine; its body takes none, and callers rely on the promise alone.
- PhyDeviceManager.PhyDeviceManager.Await: the clock is assumed to move forward at every look, by less than 2^62 microseconds; one reading serves the loop condition and the time of receipt.
- Requests.Step: one access to the shared table is one step, so data races inside a map operation, and a loop body split between its find and its erase, are not modelled.
- Requests.Step: the packet handler's assertions do not stop the model; an answer to an entry that is not waiting overwrites it, as in a build without assertions. `AssertionsHold` says when they cannot fail.
- MeshSocketInterface.MeshSocketInterface.CheckPackets: sockets accept and return all the bytes asked for within what is available, a new connection gets a new handle, and the controller does not call back into the interface while it is given a packet.
- Bytes.WriteU32: both ends use the same byte order, taken as least significant byte first.
- Hello.HelloWorld: bytes beyond the given memory read as 0, since the parser has no bound of its own; the name, key, value and action lengths, both counts and the action type are single bytes, and an action's own length field is the length of its C string, since their declarations are not part of this model.
- ArgParser.Config: kept by value in the parser instead of through a pointer to the caller's object; the arguments of one `emplace_back` are evaluated left to right; addresses are 32-bit.
- Subscriptions.Subscription: the device is its address, so ready-made data with a device outside the registry is not modelled; callbacks are opaque numbers.
- CallbackDevice.LogicalCallbackDevice.OnActionSet: the id must be in range when the device has actions, since the vector is indexed with it unchecked (`logical_callback_device.cpp:56`); the same for a get.
- EndToEnd.SetByName: the path of the packet to the device and the result packet sent back are not part of this model; the packet's fields are handed to the device as they were sent.
- Hello.Announce: the sender of hellos is not part of this model; an announcement has the layout the parser walks, with a callback device's actions in the order of its vector.
- Packet layouts, overlay packets, the mesh controller and the logical device manager are not part of this model: packets are values, payloads are opaque, sending appends to a log.
- Socket calls, address layouts, the random port, printing, sleeping, the joined callback thread (a direct call here) and memory leaks.
- The foreign-function interface with its enumeration tables, the TOML configuration file and the applications' main loops.
