# Verified model of parts of the Dart native I/O runtime

`runtime/bin` holds the native side of `dart:io`: the event handler that turns
operating-system readiness into messages to Dart ports, directory listing and
recursive deletion, path cleaning, percent-decoding and the loader of ELF
snapshots. This project models the parts of it with real state machines and
algorithms and proves what they are for. `dafny verify dfyconfig.toml` checks it.

**Event handler, shared data structures.** `CircularList` is the heap ring
`CircularLinkedList`, proved to be a sequence. `PortTable` says what a listening
descriptor shared by many ports does as operations on a value, with its theorems
over every run of operations: which ports are in the ready ring, conservation of
tokens, round-robin service, bounded waiting. `ListeningDescriptor` is the class
`DescriptorInfoMultipleMixin` with its ring and port map; each method is proved
to take exactly the `PortTable` step. `SingleDescriptor` is the one-port variant.

**Event handler, Linux.** `LinuxLoop` is the loop as a state machine over polls:
batches of epoll events followed by interrupt messages, with any answer of the
kernel to a registration. Descriptors live in an explicit store, so a pointer to
a deleted descriptor would be visible. `LinuxHistory` tells the state after any run
from what was given to the loop alone: which file descriptors have a descriptor,
what they are registered for, when the loop stops. `LinuxDelivery` does the same for
what is sent, to whom, and what it costs. `LinuxFairness` carries bounded waiting
from one descriptor to whole runs of polls. `DescriptorInfo` is the descriptor
object with one port or many, and `EventHandler` the handler: it owns descriptor
objects that share nothing, and takes exactly the steps of `LinuxLoop` on what they
hold.

**Event handler, Fuchsia and Windows.** `EdgeTrigger` is the simulation of
edge-triggered events. `AcceptQueue` is the listening socket with accepts in
flight, and `StdWrites` the writer thread behind the standard handles.

**Directories.** `DirectoryTree` is a finite file system with links and the
recursive pre-order traversal of it; `ListingOrder` characterises that traversal
without recursion over the tree, and `ListingKinds` by paths: which are listed, and
as what, according to what the system answers about them. `LinkChain` is the chain of followed links, with
explicit allocation. `PathBuffer` is the shared path buffer. `DirectoryListing` is
the pausable explicit-stack machine, and `ListingRequests` the synchronous and the
asynchronous request built on it; a listing starts from a path with a slash at its
end, which the Dart side sees to (sdk/lib/io/directory_impl.dart:210-238). `Disk` is
the kernel's view of paths, with links followed on the way and before a slash, and
`RecursiveDelete` deletes a subtree through it while any call may fail.

**Paths, URIs and ELF images.** `PathNames` says what a path denotes in a tree
without symbolic links. `CleanPath` is the in-place `CleanUnixPath`. `UriDecoder`
is percent-decoding, section 2.1 of RFC 3986. `PageArithmetic` and `ElfImage` are
the placement of segments and the protection of their pages. `Bytes` and
`Sequences` hold what several modules share.

What the system supplies is a parameter or a nondeterministic choice: epoll's
answers and batches, results of reads and writes, faults of file-system calls, the
iteration order of the hash maps, the result of closing a socket that others may
still listen on, the order of directory entries, and whether reading a directory
reports an entry's type. `LinuxLoop.Legal` lists what the Dart side promises.

## Findings

- Deleting a link to a directory recursively with a slash or a `.` after the link's
  name deletes everything in the target, leaves link and target, and reports failure.
  `RecursiveDelete.OutsideExactly` says when nodes outside the named entry are
  deleted; `RecursiveDelete.LinkWithSlash` is an example.
- `PathBuffer::Add` reports success for a text of exactly `PATH_MAX` characters,
  but the stored text lacks its last character. A recursive deletion that meets
  such a path deletes at most another entry of the same directory and fails; given
  such a path to start with, it works on a node of another name
  (`RecursiveDelete.Delete`).
- A listening socket on which a hang-up is reported breaks the assertion that only
  input is sent to one of many ports (`LinuxLoop.OnlyInputExactly`,
  `LinuxLoop.HangupReported`).
- Closing a standard handle wakes its writer thread, which writes what is still
  queued again (`StdWrites.ClosingExactly`, `StdWrites.ClosingRepeats`). Two
  completions are then on their way for one buffer, and the second breaks the
  assertion that a completion finds its buffer (`StdWrites.CompletionsExactly`,
  `StdWrites.SecondCompletionFails`).
- The port 0, which stands for no port, is sent a message if and only if a close
  names it (`LinuxDelivery.NullPortExactly`, `LinuxDelivery.NullPortPosted`): the close spares
  it the removal, but not the message.
- An ELF file whose segments share a page cannot be loaded from memory if the
  earlier segment is not writable, although every check accepts it
  (`ElfImage.LoadSegments`, `ElfImage.SharedPage`).
- `MapFilePiece` finds the requested bytes if and only if the offset of the ELF
  data in its file is a multiple of the page size (`ElfImage.PiecePosition`), which
  the loader checks.
- The length check of `UriDecoder` looks at the position of the first `%` only. The
  zero terminator makes the decoder correct all the same (`UriDecoder.UriDecode`).
- What `UriDecoder` hands out is a C string without a length. A URI that escapes a
  zero byte decodes to a string that the caller sees only up to that byte
  (`UriDecoder.SeenExactly`, `UriDecoder.SeenOfEscapedZero`).

## Model

| member | source | states |
|---|---|---|
| CircularList.CircularLinkedList.Add | runtime/bin/eventhandler.h:120-136 | the ring, with next and prev inverse to each other around one cycle, gains the item at the end of its sequence; reports whether it was empty |
| CircularList.CircularLinkedList.RemoveHead | runtime/bin/eventhandler.h:138-153 | the sequence loses its first item, and the ring is again one cycle |
| CircularList.CircularLinkedList.Remove | runtime/bin/eventhandler.h:155-183 | the first occurrence of the item leaves the sequence, the order of the rest is kept; nothing changes if it is absent |
| CircularList.CircularLinkedList.RemoveAll | runtime/bin/eventhandler.h:185-189 | the ring is emptied and each item is cleared once, in order |
| CircularList.CircularLinkedList.Rotate | runtime/bin/eventhandler.h:195-200 | the first item becomes the last, without touching any link |
| CircularList.RemoveFirstAt | runtime/bin/eventhandler.h:155-183 | what removing the first occurrence means: exactly that position is cut out |
| PortTable.OpKeepsInv | runtime/bin/eventhandler.h:401-560 | every operation keeps the ready ring free of duplicates and equal to the set of ports that read and have tokens |
| PortTable.ReadyExactly | runtime/bin/eventhandler.h:401-560 | after any run of operations the ring holds exactly the ports with reading set and a positive token count, each once, and it is non-empty iff there is such a port |
| PortTable.KnownExactly | runtime/bin/eventhandler.h:401-489 | after any run, a port is known iff its last word was a mask and not a removal, and it is reading iff that mask asked for it |
| PortTable.TokenConservation | runtime/bin/eventhandler.h:491-553 | after any run, budget minus tokens of a port equals notifications charged minus tokens returned |
| PortTable.HonestOwesNothingNegative | runtime/bin/eventhandler.h:538-553 | if only charged tokens are returned, the balance never becomes negative |
| PortTable.TokenBound | runtime/bin/eventhandler.h:538-553 | if only charged tokens are returned, the count never exceeds the budget, as the source asserts |
| PortTable.RoundRobin | runtime/bin/eventhandler.h:491-513 | n notifications serve the first n ready ports in ring order, whether or not ports run out of tokens on the way |
| PortTable.EachServedOnce | runtime/bin/eventhandler.h:491-513 | with n ready ports, the next n notifications serve each of them exactly once and no other port |
| PortTable.NotDelayed | runtime/bin/eventhandler.h:401-560 | no operation other than a notification moves a waiting port back in the ring |
| PortTable.NextAdvances | runtime/bin/eventhandler.h:491-513 | each notification of another port moves a waiting port one place forward |
| PortTable.BoundedWaiting | runtime/bin/eventhandler.h:491-513 | in any run, a port with n others ahead of it is served by notification n + 1 at the latest, unless it stops being ready |
| PortTable.RemovedNotListed | runtime/bin/eventhandler.h:455-477 | a removed port is no longer in the ring, so its entry may be freed |
| ListeningDescriptor.DescriptorInfoMultiple.SetPortAndMask | runtime/bin/eventhandler.h:401-453 | ring and map change as `PortTable.SetPortAndMask` says, and stay consistent; a new port starts with a full budget |
| ListeningDescriptor.DescriptorInfoMultiple.RemovePort | runtime/bin/eventhandler.h:455-477 | the port leaves ring and map; an unknown port changes nothing |
| ListeningDescriptor.DescriptorInfoMultiple.RemoveAllPorts | runtime/bin/eventhandler.h:479-489 | in whatever order the map is iterated, the ring is empty before the final clearing, and every entry is freed exactly once |
| ListeningDescriptor.DescriptorInfoMultiple.NextNotifyDartPort | runtime/bin/eventhandler.h:497-513 | returns the port at the head of the ring and charges it; it moves to the end of the ring or leaves it with its last token |
| ListeningDescriptor.DescriptorInfoMultiple.NotifyAllDartPorts | runtime/bin/eventhandler.h:515-536 | in whatever order the map is iterated, every port gets a message and is charged once, and the ring ends up the same |
| ListeningDescriptor.DescriptorInfoMultiple.ReturnTokens | runtime/bin/eventhandler.h:538-553 | a port that is given back no more than it was charged stays within its budget, and is appended to the ring if it became ready |
| ListeningDescriptor.DescriptorInfoMultiple.Reading | runtime/bin/eventhandler.h:555-560 | the ring has a head iff some port is ready to be notified |
| DescriptorInfo.DescriptorInfo.SetPortAndMask | runtime/bin/eventhandler.h:229-229 | whatever kind of descriptor is behind it, the object does what the state machine does to its value, and grows by fresh objects only |
| DescriptorInfo.DescriptorInfo.RemovePort | runtime/bin/eventhandler.h:232-232 | the same for forgetting a port |
| DescriptorInfo.DescriptorInfo.ReturnTokens | runtime/bin/eventhandler.h:246-246 | the same for tokens, of which no port returns more than it owes |
| DescriptorInfo.DescriptorInfo.NextNotifyDartPort | runtime/bin/eventhandler.h:239-239 | the same for a notification, which is charged to the port that is returned |
| DescriptorInfo.DescriptorInfo.NotifyAllDartPorts | runtime/bin/eventhandler.h:243-243 | the same for a broadcast, which is charged to every port and sent to every port but the null port |
| DescriptorInfo.DescriptorInfo.Destroy | runtime/bin/eventhandler.h:397-397 | deleting a listening descriptor frees the entry of each of its ports once |
| LinuxLoop.EpollMirrorsMasks | runtime/bin/eventhandler_linux.cc:33-71 | in every run, a live descriptor is in the epoll set iff its mask is non-zero and its last registration was not refused, and then with exactly the events of its mask |
| LinuxLoop.NoDanglingPointers | runtime/bin/eventhandler_linux.cc:232-265 | in every run, each descriptor pointer in the epoll set is live and is the entry of its file descriptor in the socket map |
| LinuxLoop.NoLeaks | runtime/bin/eventhandler_linux.cc:152-172 | in every run, live descriptors and entries of the socket map correspond one to one |
| LinuxHistory.SocketMapExactly | runtime/bin/eventhandler_linux.cc:152-265 | in every run, a file descriptor is in the socket map iff a message for it was handled and no close since deleted it; a close deletes unless the socket listens and others listen with it |
| LinuxHistory.MeetsNew | runtime/bin/eventhandler_linux.cc:152-172 | in every run, the first message for a file descriptor, ever or after such a close, meets a descriptor with a full budget, no port, no mask and nothing owed |
| LinuxHistory.ConnectedAsWanted | runtime/bin/eventhandler_linux.cc:33-71 | in every run, a registered connected socket is registered for input iff the last mask message asked for reads, for output iff it asked for writes, for hang-ups, and edge-triggered; without mask or tokens it is not registered, with both it is unless the kernel refused |
| LinuxHistory.ListeningAsWanted | runtime/bin/eventhandler_linux.cc:33-71 | in every run, a registered listening socket is registered for input and hang-ups, not edge-triggered, and some port that joined it waits for reads; if there is one it is registered unless the kernel refused |
| LinuxHistory.TouchRegisters | runtime/bin/eventhandler_linux.cc:138-150 | a registration is tried iff the mask changes to something; then the kernel decides, and a refusal is broadcast and charged |
| LinuxHistory.RunHistory | runtime/bin/eventhandler_linux.cc:353-389 | a run of polls handles the events of each batch and then its messages, the latter only if the pipe is among the events |
| LinuxHistory.ShutdownExactly | runtime/bin/eventhandler_linux.cc:207-208 | in every run, the loop is told to stop iff a shutdown message was handled |
| LinuxDelivery.BatchSends | runtime/bin/eventhandler_linux.cc:331-380 | a batch sends what is due for each of its events in the state before the batch, in order, and nothing else |
| LinuxDelivery.ConnectedDelivered | runtime/bin/eventhandler_linux.cc:331-380 | in every reachable state, an event of a batch for a connected socket reaches its port once: input, output and hang-up as such, an error only together with input, and nothing of an error without |
| LinuxDelivery.ListeningDelivered | runtime/bin/eventhandler_linux.cc:331-380 | the same for a listening socket, where the port at the head of the ring hears of it, and all ports hear of an error |
| LinuxDelivery.RefusalTold | runtime/bin/eventhandler_linux.cc:53-70 | setting the mask of a connected socket sends its port a close event and charges a token iff the socket has tokens, asks for something new and the kernel refuses |
| LinuxDelivery.ConnectedPaid | runtime/bin/eventhandler.h:308-341 | in every run, the tokens of a connected socket are 16, less the messages sent because of it since it was created, plus those returned for it since |
| LinuxDelivery.DestroyedExactly | runtime/bin/eventhandler_linux.cc:266-266 | in every run, a port is sent one destroyed event for each close that names it |
| LinuxLoop.TokensInRange | runtime/bin/eventhandler_linux.cc:267-281 | in every run, a one-port descriptor has between 0 and 16 tokens and a port of a listening one at most 4, and each lacks exactly those it owes |
| LinuxLoop.BatchPortsAreReal | runtime/bin/eventhandler_linux.cc:377-378 | no port picked for an event of a batch is the null port, as the source asserts: a registered descriptor stays live and ready until its event is handled |
| LinuxDelivery.NullPortExactly | runtime/bin/eventhandler_linux.cc:198-389 | in every run, counting single notifications, broadcasts, refused registrations and the message that ends a close, the null port is sent something iff some handled close of an open socket names it |
| LinuxDelivery.NullPortPosted | runtime/bin/eventhandler_linux.cc:233-266 | a legal close after which the null port was sent a message |
| LinuxLoop.OnlyInputExactly | runtime/bin/eventhandler.h:494-495 | an event of a listening descriptor is input alone, as the source asserts, iff no hang-up is reported with it |
| LinuxLoop.HangupReported | runtime/bin/eventhandler.h:494-495 | a legal run in which the assertion fails: a listening socket is registered, and input is reported together with a hang-up |
| LinuxLoop.ClosedFacts | runtime/bin/eventhandler_linux.cc:242-262 | a descriptor that is about to be deleted asks for no events, as the source asserts |
| LinuxFairness.BoundedWaiting | runtime/bin/eventhandler_linux.cc:353-389 | in every run of polls, a port of a listening descriptor that is ready behind n others is served by the descriptor's notification n + 1 at the latest, unless it stops being ready |
| LinuxFairness.RunGoes | runtime/bin/eventhandler_linux.cc:198-389 | what a run of polls does to a listening descriptor that lives through it is a run of port operations, refused registrations included |
| LinuxLoop.RunKeepsInv | runtime/bin/eventhandler_linux.cc:198-389 | every run of polls keeps epoll, store and socket map consistent |
| LinuxLoop.TouchKeepsInv | runtime/bin/eventhandler_linux.cc:138-150 | comparing the mask before and after a change suffices to keep epoll equal to the masks, and other descriptors' registrations are not affected |
| LinuxLoop.MessageKeepsInv | runtime/bin/eventhandler_linux.cc:198-285 | every message keeps epoll, store and socket map consistent |
| LinuxLoop.CloseKeepsInv | runtime/bin/eventhandler_linux.cc:232-265 | a close unregisters the descriptor before it is deleted, or leaves it to the ports still listening |
| LinuxLoop.DeleteKeepsInv | runtime/bin/eventhandler_linux.cc:232-265 | deleting a descriptor without interest leaves no pointer to it |
| LinuxLoop.EventKeepsInv | runtime/bin/eventhandler_linux.cc:353-389 | handling one event keeps the state consistent and the other events of the batch valid |
| EventHandler.EventHandlerImplementation.UpdateEpollInstance | runtime/bin/eventhandler_linux.cc:138-150 | registers, re-registers or unregisters as the change of mask requires; a listening descriptor has no write interest |
| EventHandler.EventHandlerImplementation.Framed | runtime/bin/eventhandler_linux.cc:152-172 | no two descriptors have a heap object in common, so changing one leaves all others as they are |
| EventHandler.EventHandlerImplementation.GetDescriptorInfo | runtime/bin/eventhandler_linux.cc:152-172 | finds the descriptor of a file descriptor, or creates one that shares nothing with the others |
| EventHandler.EventHandlerImplementation.CloseSocket | runtime/bin/eventhandler_linux.cc:232-265 | a close takes exactly the `LinuxLoop` step on the heap objects, and the mask is zero when the descriptor is deleted |
| EventHandler.EventHandlerImplementation.DeleteDescriptor | runtime/bin/eventhandler_linux.cc:252-264 | the descriptor goes with all it owns, and the others keep what they own |
| EventHandler.EventHandlerImplementation.HandleMessage | runtime/bin/eventhandler_linux.cc:198-285 | one message takes exactly the `LinuxLoop` step on the heap objects; only connected sockets are shut down, and one-port descriptors keep their port |
| EventHandler.EventHandlerImplementation.HandleInterruptFd | runtime/bin/eventhandler_linux.cc:198-285 | all messages of the pipe are handled in order |
| EventHandler.EventHandlerImplementation.HandleEvents | runtime/bin/eventhandler_linux.cc:353-389 | all events of a batch are handled in order, the messages only after them, and no port notified is the null port |
| EventHandler.EventHandlerImplementation.PollLoop | runtime/bin/eventhandler_linux.cc:391-412 | polls are handled in order up to and including the first that brings a shutdown message, and none after it |
| EdgeTrigger.IOHandle.ToggleEvents | runtime/bin/eventhandler_fuchsia.cc:281-365 | the mask loses exactly the suppressed events, and the flags change as the history theorems assume |
| EdgeTrigger.DeliveredExactly | runtime/bin/eventhandler_fuchsia.cc:276-365 | over any history, a reported event is delivered iff no earlier delivery of its kind still awaits its reaction |
| EdgeTrigger.ReadEnabledExactly | runtime/bin/eventhandler_fuchsia.cc:78-147 | over any history of calls, read events are enabled iff no in-event that suppresses still awaits an accept or a draining or failing read |
| EdgeTrigger.WriteEnabledExactly | runtime/bin/eventhandler_fuchsia.cc:110-128 | over any history, write events are enabled iff no out-event still awaits a write |
| EdgeTrigger.CloseEnabledExactly | runtime/bin/eventhandler_fuchsia.cc:345-364 | over any history, close events are enabled iff none was delivered |
| EdgeTrigger.OutEventsSeparated | runtime/bin/eventhandler_fuchsia.cc:281-300 | between two delivered out-events there is a write |
| EdgeTrigger.InEventsSeparated | runtime/bin/eventhandler_fuchsia.cc:302-343 | after an in-event with bytes available or with a close, the next in-event comes only after an accept or a draining or failing read |
| EdgeTrigger.CloseDeliveredOnce | runtime/bin/eventhandler_fuchsia.cc:345-364 | a close-event is delivered at most once |
| EdgeTrigger.CountExactly | runtime/bin/eventhandler_fuchsia.cc:78-162 | the count of available bytes is what was last counted less what was read since, so a read re-arms exactly when those bytes are used up |
| AcceptQueue.EveryRun | runtime/bin/eventhandler_win.cc:479-624 | in every run, the socket of each issued accept is in flight, queued, taken or closed, in one place and once; connections are taken in order of arrival; once closing starts the queue is empty |
| AcceptQueue.ArrivedExactly | runtime/bin/eventhandler_win.cc:505-553 | in every run, exactly the accepts that complete with success before the close are queued, in that order |
| AcceptQueue.FirstInFirstOut | runtime/bin/eventhandler_win.cc:599-624 | as long as the socket is open, the connections taken followed by the queued ones are all that arrived |
| AcceptQueue.ClosedLeavesNothing | runtime/bin/eventhandler_win.cc:643-645 | when the socket is reported closed, every socket ever issued was taken by Dart or closed, exactly once |
| AcceptQueue.ClosedIsFinal | runtime/bin/eventhandler_win.cc:643-645 | no step changes a socket that is reported closed |
| AcceptQueue.ClosingDrains | runtime/bin/eventhandler_win.cc:567-592 | from the start of closing on, nothing is queued, handed over or issued, and accepts in flight only get fewer |
| AcceptQueue.AtMostFiveInFlight | runtime/bin/eventhandler_win.cc:614-621 | at most five accepts are in flight at any time after the start |
| AcceptQueue.KeepsListening | runtime/bin/eventhandler_win.cc:599-624 | in every run of an open socket that started with five accepts, accepts in flight and queued connections together stay at five or more, less one for each failed completion or refused accept |
| AcceptQueue.TakeRefills | runtime/bin/eventhandler_win.cc:614-621 | taking from an open socket puts one more accept in flight iff fewer than five are |
| AcceptQueue.ClosedExactly | runtime/bin/eventhandler_win.cc:643-645 | from the start of closing on, the socket is reported closed iff as many accepts have completed as were in flight then |
| AcceptQueue.ListenSocket.IssueAccept | runtime/bin/eventhandler_win.cc:479-503 | a refused accept gives its socket back; otherwise the counter of accepts in flight counts it |
| AcceptQueue.ListenSocket.AcceptComplete | runtime/bin/eventhandler_win.cc:505-553 | the connection is appended to the linked list, or closed when the update fails or the socket is closing; both counters stay exact |
| AcceptQueue.ListenSocket.CanAccept | runtime/bin/eventhandler_win.cc:594-597 | true iff a connection is queued |
| AcceptQueue.ListenSocket.Accept | runtime/bin/eventhandler_win.cc:599-624 | the oldest connection is unlinked and returned, and a further accept is issued iff fewer than five are in flight and the socket is open |
| AcceptQueue.ListenSocket.DoClose | runtime/bin/eventhandler_win.cc:567-592 | every queued connection is closed in order, none is handed over, and head and tail are null |
| AcceptQueue.ListenSocket.Close | runtime/bin/eventhandler_win.cc:146-170 | closing happens once and drains the queue |
| AcceptQueue.ListenSocket.StartAccept | runtime/bin/socket_win.cc:295-313 | five accepts are in flight, or the first refusal closes the socket with an empty queue |
| AcceptQueue.ListenSocket.DestructorAssertions | runtime/bin/eventhandler_win.h:401-405 | whenever the socket is reported closed, the destructor's assertions hold |
| StdWrites.StdHandle.Write | runtime/bin/eventhandler_win.cc:807-850 | takes the submit step of a run: nothing is acknowledged while a buffer is queued; else bytes already written are acknowledged, up to 64 KiB; else a copy of at most 64 KiB is queued |
| StdWrites.StdHandle.WriteSyncCompleteAsync | runtime/bin/eventhandler_win.cc:788-805 | takes the writer's step of a run: a prefix of the queued buffer goes out, is counted as written, and a completion is on its way |
| StdWrites.StdHandle.DoClose | runtime/bin/eventhandler_win.cc:852-871 | takes the closing step of a run: stopping the writer thread wakes it, and it writes what is still queued once more |
| StdWrites.InOrderExactly | runtime/bin/eventhandler_win.cc:768-850 | in every run on a stream of distinct elements, what was written is the beginning of the stream iff the writer never wrote twice on one buffer |
| StdWrites.EachPositionOnce | runtime/bin/eventhandler_win.cc:768-850 | in every run on any stream of bytes, the positions whose bytes are written are the first ones of the stream, in order and once each, iff the writer never wrote twice on one buffer |
| StdWrites.NothingLostNorRepeated | runtime/bin/eventhandler_win.cc:788-850 | in every such run, the bytes written are exactly the first (acknowledged + counted) bytes of the stream |
| StdWrites.ClosingExactly | runtime/bin/eventhandler_win.cc:852-865 | closing repeats nothing iff nothing is queued of which something was written before, or the last run writes nothing |
| StdWrites.ClosingRepeats | runtime/bin/eventhandler_win.cc:852-865 | two bytes, written and not yet completed when the handle is closed, are written again, and two completions are on their way for one buffer |
| StdWrites.CompletionsFind | runtime/bin/eventhandler_win.cc:237-243 | in every run in which the writer runs at most once on each buffer, every completion that is handled finds the very buffer it is for, as the source asserts |
| StdWrites.CompletionsExactly | runtime/bin/eventhandler_win.cc:237-243 | in every run in which all completions are handled in the end, each of them finds its own buffer iff the writer ran at most once on each buffer |
| StdWrites.SecondCompletionFails | runtime/bin/eventhandler_win.cc:852-865 | a run in which a buffer is written, the handle closed, and the second of the two completions finds no buffer |
| StdWrites.RoundAcknowledges | runtime/bin/eventhandler_win.cc:807-850 | submit, write, completion and submit again acknowledges every byte the system wrote |
| DirectoryTree.FollowingTerminates | runtime/bin/directory_linux.cc:161-192 | following a link uses it up, so a recursive listing that follows links terminates even on cycles of links |
| DirectoryTree.AdvancePending | runtime/bin/directory_linux.cc:83-222 | one step of the stack of levels takes exactly the first entry off what the recursive traversal has left |
| DirectoryTree.FinishedPending | runtime/bin/directory.cc:533-543 | popping a directory that is read to its end loses nothing |
| DirectoryTree.ChildPath | runtime/bin/directory_linux.cc:88-127 | the path built for an entry opens the directory the traversal enters |
| ListingOrder.ReachableIsListed | runtime/bin/directory_linux.cc:83-222 | every entry that a route of entered directories leads to is listed, at the position that counts what comes before it |
| ListingOrder.ListedIsReachable | runtime/bin/directory_linux.cc:83-222 | every listed entry is one that such a route leads to |
| ListingOrder.ListedInOrder | runtime/bin/directory_linux.cc:83-222 | entries are listed in lexicographic order of their routes: a directory before what is below it, and siblings in reading order |
| ListingOrder.RoutesDistinct | runtime/bin/directory_linux.cc:83-222 | nothing is listed twice: different routes have different positions |
| ListingOrder.PathsDistinct | runtime/bin/directory_linux.cc:83-222 | a path belongs to one route |
| ListingOrder.NoPathTwice | runtime/bin/directory_linux.cc:83-222 | no path is listed twice, also when links are followed |
| ListingKinds.KindExactly | runtime/bin/directory_linux.cc:128-207 | every item is listed as what the system says of its path: a file iff it leads to one, through a link only if links are followed; a link iff it is one that is not followed, was passed on the way, or leads nowhere; else a directory or a dot entry |
| ListingKinds.ListedExactly | runtime/bin/directory_linux.cc:83-222 | a path is listed iff it exists and every path on the way is a directory, or a followed link to one, that the listing enters |
| LinkChain.ResetKeepsInv | runtime/bin/directory_linux.cc:232-241 | forgetting a level's own link frees a live node once, and no reachable pointer leads to a freed node |
| LinkChain.ResetKeepsChains | runtime/bin/directory_linux.cc:232-241 | the chains of the levels below are not changed, and the level again sees its parent's chain |
| LinkChain.FollowKeepsInv | runtime/bin/directory_linux.cc:161-192 | following a link that is not on the chain puts it in front, and identities on the chain stay distinct |
| LinkChain.PushKeepsInv | runtime/bin/directory.h:116-116 | a new level inherits the chain |
| LinkChain.PopKeepsInv | runtime/bin/directory_linux.cc:224-230 | deleting a level frees its own node, if any, and leaves the chains below as they are |
| LinkChain.AllFreed | runtime/bin/directory.h:127-131 | with the stack empty, every chain node has been freed |
| PathBuffer.Buffer.Print | runtime/bin/directory_linux.cc:56-63 | bounded formatted printing: the text is cut to the space left and terminated |
| PathBuffer.Buffer.Add | runtime/bin/directory_linux.cc:56-68 | fails iff the text would exceed PATH_MAX; below PATH_MAX the name is appended; at exactly PATH_MAX it reports success with the last character missing |
| PathBuffer.Buffer.AsString | runtime/bin/directory_linux.cc:43-45 | the C string in the buffer, read up to its first zero, is all of the text below PATH_MAX, and all but the last character at PATH_MAX |
| PathBuffer.Buffer.Reset | runtime/bin/directory_linux.cc:70-73 | the text is cut back to an earlier length |
| DirectoryListing.Listing.constructor | runtime/bin/directory.h:93-106 | everything the traversal lists is still to be reported |
| DirectoryListing.Listing.OnChain | runtime/bin/directory_linux.cc:161-172 | walking the chain finds a link iff its identity was followed on the way here |
| DirectoryListing.Listing.Inspect | runtime/bin/directory_linux.cc:128-207 | from the reported type, or from the system's answers about the path in the buffer, an entry is classified as the traversal does: a link that loops back or leads nowhere is reported as a link |
| DirectoryListing.Listing.Next | runtime/bin/directory_linux.cc:83-222 | reports the next entry of the traversal with its full path in the buffer, skipping dot entries only, or the end of the directory |
| DirectoryListing.Listing.Push | runtime/bin/directory.h:116-116 | the entries below the directory come next |
| DirectoryListing.Listing.Pop | runtime/bin/directory.h:118-123 | a finished directory is dropped without losing anything |
| DirectoryListing.Listing.PopAll | runtime/bin/directory.h:127-131 | a listing stopped at any point ends with an empty stack and every link node freed |
| DirectoryListing.Listing.ListNext | runtime/bin/directory.cc:516-546 | reports exactly the first of the entries still to be reported, or pops, or is finished with nothing left |
| ListingRequests.SyncList | runtime/bin/directory.cc:548-556 | the synchronous listing returns exactly what is still to be reported, in order |
| ListingRequests.AsyncDirectoryListing.AddFileSystemEntityToResponse | runtime/bin/directory.cc:379-395 | two slots are filled within the array, and the answer says whether there is room for more |
| ListingRequests.AsyncDirectoryListing.List | runtime/bin/directory.cc:548-556 | fills the response with a prefix of what is left and, when that is everything, the end mark if it fits |
| ListingRequests.AsyncDirectoryListing.ListNextRequest | runtime/bin/directory.cc:320-339 | one response of at most 128 slots continues where the last one stopped |
| ListingRequests.AsyncListAll | runtime/bin/directory.cc:320-339 | the responses of repeated requests concatenate to all entries and one end mark, wherever the buffer fills |
| ListingRequests.ListSync | runtime/bin/directory.cc:548-556 | on every error-free finite file system, the explicit-stack listing equals the recursive pre-order traversal; it has exactly the paths to be listed, none twice, each with the kind that the system's answers call for |
| ListingRequests.ListAsync | runtime/bin/directory.cc:320-339 | the asynchronous responses carry exactly the synchronous listing and one Done, and all but the last two are full; decoded, they are the paths to be listed with their kinds |
| ListingRequests.DecodeInvertsEncode | runtime/bin/directory.cc:379-395 | the receiver gets back the entries from the pairs of slots |
| Disk.LookMonotone | runtime/bin/directory_linux.cc:257-369 | removing nodes can make a path lead nowhere, but never somewhere else |
| Disk.WalkFrame | runtime/bin/directory_linux.cc:257-369 | as long as the nodes it passes are there, a path leads to the same place |
| RecursiveDelete.DeleteFile | runtime/bin/directory_linux.cc:245-248 | whatever the name and its length, at most an entry of the directory is unlinked; it is the named one if its path is shorter than PATH_MAX |
| RecursiveDelete.DeleteDir | runtime/bin/directory_linux.cc:250-255 | a dot entry is left alone; any other directory is deleted with what is below it, and nothing outside the parent is touched |
| RecursiveDelete.DeleteRecursively | runtime/bin/directory_linux.cc:257-369 | only nodes from the one the path denotes down are removed, whatever fails and however long the names; success means exactly that subtree is gone; without faults it succeeds iff the path names the entry itself, passes nothing below it, and every path below is shorter than PATH_MAX |
| RecursiveDelete.DeleteEntries | runtime/bin/directory_linux.cc:288-362 | deletes the entries of a directory one by one and stays inside it; without faults and with room nothing is left |
| RecursiveDelete.DeleteEntry | runtime/bin/directory_linux.cc:314-357 | an entry of unknown type is treated by what it turns out to be |
| RecursiveDelete.PrunedAll | runtime/bin/directory_linux.cc:288-362 | once all entries are deleted the directory has no children, so it can be removed |
| RecursiveDelete.RemovedLast | runtime/bin/directory_linux.cc:305-312 | removing a directory that has become empty leaves exactly the tree without its subtree |
| RecursiveDelete.SucceedsExactly | runtime/bin/directory_linux.cc:257-369 | without faults, success is decided by tree and path alone, by a condition that can be evaluated before the call |
| RecursiveDelete.NotThroughLinks | runtime/bin/directory_linux.cc:257-266 | nothing outside the entry that the path names is touched, unless the entry is a link and the path goes on after it, by slashes or `.` components |
| RecursiveDelete.OutsideExactly | runtime/bin/directory_linux.cc:257-266 | without faults and with the way clear, nodes outside the entry are deleted iff it is a link, the path goes on after it, and its target is not empty |
| RecursiveDelete.LinkWithSlash | runtime/bin/directory_linux.cc:257-266 | the file in the target of a link is gone after deleting the link with a slash after its name, and the link is still there |
| RecursiveDelete.Delete | runtime/bin/directory_linux.cc:483-500 | all this for a directory given by its path; at exactly PATH_MAX characters it works on the path without its last character |
| PathNames.ComponentsAppend | runtime/bin/file.h:296-300 | a slash separates the components of two strings |
| CleanPath.CleanUnixPath | runtime/bin/file.cc:655-726 | the two-index algorithm writes the clean form of the path and its terminator within the buffer, no longer than the input, and returns -1 iff the input does not fit |
| CleanPath.CleanPreservesMeaning | runtime/bin/file.h:296-300 | from every working directory, the cleaned path names the same directory as the original, with `..` at the root staying at the root |
| CleanPath.CleanIsNormal | runtime/bin/file.h:296-300 | no empty or `.` component remains, and `..` only as a leading run of a relative path |
| CleanPath.CleanIdempotent | runtime/bin/file.h:296-300 | cleaning a clean path changes nothing |
| CleanPath.CleanIsCanonical | runtime/bin/file.h:296-300 | two paths have the same clean form iff they name the same directory from every working directory |
| CleanPath.CleanVisitsNoMore | runtime/bin/file.h:296-300 | every directory that the cleaned path passes is one that the original passes |
| CleanPath.DropComponent | runtime/bin/file.cc:685-691 | backing up to the previous slash removes exactly the last component |
| CleanPath.CopyComponent | runtime/bin/file.cc:711-714 | a component is copied without overtaking the input |
| CleanPath.DotDot | runtime/bin/file.cc:681-704 | `..` removes a component, is kept in a relative path, and is dropped at the root |
| UriDecoder.UriDecode | runtime/bin/file.cc:1423-1456 | fails iff some scanned `%` lacks two hex digits, else yields the decoded bytes and a terminator, and the C string handed out is what is decoded up to its first zero byte; never reads past the terminator nor writes past the input length |
| UriDecoder.SeenExactly | runtime/bin/file.h:364-364 | the C string that the caller sees is everything that was decoded iff no scanned escape is `%00` |
| UriDecoder.SeenInvertsEncode | runtime/bin/file_linux.cc:268-277 | the C string that the caller copies inverts an encoding iff the encoded data has no zero byte |
| UriDecoder.SeenOfEscapedZero | runtime/bin/file_linux.cc:268-277 | of `a%00b` the caller sees only `a` |
| UriDecoder.HexCharPairToByte | runtime/bin/file.cc:1464-1482 | succeeds iff both bytes are hex digits of either case, and gives their value |
| UriDecoder.HexValueExact | runtime/bin/file.cc:1464-1482 | setting bit 5 accepts exactly the upper- and lower-case digits |
| UriDecoder.DecodeInvertsEncode | runtime/bin/file.cc:1423-1456 | decoding inverts every percent-encoding that escapes at least each `%`, in either case |
| UriDecoder.DecodedIsEncoding | runtime/bin/file.cc:1423-1456 | whatever decodes is such an encoding of its decoded form |
| UriDecoder.DecodeExact | runtime/bin/file.cc:1423-1456 | a string decodes to given data iff it is such an encoding of the data |
| PageArithmetic.RoundingExactly | runtime/platform/utils.h:92-110 | rounding down and up give the only multiples of the page size within a page below and above |
| PageArithmetic.SamePosition | runtime/bin/elf_loader.cc:539-556 | shifting by an offset keeps the position in the page iff the offset is aligned |
| ElfImage.PowerOfTwoExactly | runtime/platform/utils.h:61-63 | the bit test accepts exactly the powers of two that fit a word |
| ElfImage.AcceptedExactly | runtime/bin/elf_loader.cc:400-440 | the checks let a segment pass iff it is readable and not both writable and executable, its alignment is a power of two, its offsets differ by whole pages, and its first page starts in the file |
| ElfImage.SegmentMode | runtime/bin/elf_loader.cc:430-437 | with page-disjoint segments, the pages of a segment are writable iff its flags say so and executable iff its flags say so |
| ElfImage.SegmentPlacement | runtime/bin/elf_loader.cc:388-480 | every accepted segment is page-aligned in memory and in the file and lies within the reservation |
| ElfImage.SegmentContents | runtime/bin/elf_loader.cc:410-480 | with page-disjoint segments, each byte of a segment in the final image is the file's byte, zero past the end of the file |
| ElfImage.Map | runtime/bin/elf_loader.cc:84-130 | copies what the file has, fills the rest with zeros and then protects the pages; it is stopped iff a byte to be written lies on a protected page |
| ElfImage.ProtectedExactly | runtime/bin/elf_loader.cc:84-130 | as long as no copy was stopped, an address is protected iff some segment that is not writable has it on its pages |
| ElfImage.CopySafeExactly | runtime/bin/elf_loader.cc:410-480 | the next segment can be copied iff it shares no page with an earlier one that is not writable |
| ElfImage.SharedPage | runtime/bin/elf_loader.cc:388-480 | two segments that every check accepts and that cannot be loaded |
| ElfImage.LoadSegments | runtime/bin/elf_loader.cc:388-480 | loading completes iff the reservation does, every segment is readable, not both writable and executable, aligned to a power of two, congruent in file and memory and within the file, and none shares a page with an earlier one that is not writable; bytes and protection are then those of the last segment mapped at each address |
| ElfImage.MapSegments | runtime/bin/elf_loader.cc:410-480 | the same for mapping into the reserved memory |
| ElfImage.MapFilePiece | runtime/bin/elf_loader.cc:539-556 | with an aligned data offset, the returned position lies in the mapping and holds exactly the requested range |
| ElfImage.PiecePosition | runtime/bin/elf_loader.cc:279-283 | the returned position is the requested one iff the data offset is aligned |

## Left out

- The order in which a broadcast reaches its ports; timers and the timeout queue; the wake-up pipe's framing and the bit layout of commands.
- The consistency check of ring and map that is compiled in debug builds.
- The link chains and the state machine of the Linux loop keep their objects in an explicit store with addresses in place of C++ pointers; this is what makes a dangling pointer expressible. The handler itself holds heap objects.
- Real threads and monitors: each critical section is one step of a run, and every interleaving of the steps is covered.
- LinuxLoop.Legal: what the Dart side promises is an assumption of the runs; the Dart libraries are not part of this model.
- ListingRequests.ListSync: states nothing for file systems with errors or with paths of PATH_MAX or more characters, the slash after a directory to enter included; there the listing reports error items.
- ListingRequests.ListAsync: the same restriction.
- Disk.LookMonotone: a link is given with the node it leads to in the end; that this may change when a link on its own way is deleted is not modelled.
- RecursiveDelete.Delete: only the recursive form, and only the default namespace, in which paths are not rewritten.
- StdWrites.StdHandle.DoClose: joining the writer thread is reduced to a flag.
- AcceptQueue.ListenSocket.DoClose: reference counts of the accepted sockets are not modelled.
- ElfImage.LoadSegments: zero fill between a segment's file size and its memory size, which the loader does not consult, and the separate handling of writable segments on Fuchsia.
- ElfImage.Map: the variant that maps a file in place of memory.
- Machine integers: addresses, lengths and counters are unbounded.
- Windows base handles, datagram sockets, the macOS and Windows variants of the event loop and of the directory code: near copies of what is here, or decided by the operating system.
- The Dart API wrappers, compression, kernel loading and embedder set-up: argument checking and foreign calls.
