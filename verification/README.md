# Resource broker: a verified model

The repository is a resource broker: a daemon reads a configuration of job queues, asks
registered servers for machines, and a library under both relays byte streams between pairs of
connections with one `epoll` loop. This project models the parts of it whose correctness spans
many functions and whole runs, and proves what they promise.

- **The relay engine** (`src/lib/nio2.c` over `src/lib/list.c`). A fixed pool of relay records
  goes from idle to waiting to connected and back. A call for a pair of relays reserves two
  records, makes them peers and files them in a table; connecting takes a record out of the
  table and the free list; relaying copies bytes through a cursor buffer under partial writes,
  early end of file and record reuse. `Relay.dfy` gives the C functions as functions on the
  state and a run as a sequence of events whose I/O results are arbitrary; `RelayInv`,
  `RelayCount`, `RelayReserve`, `RelayRuns`, `RelayPool`, `RelayWakeup`, `RelayStranded`,
  `RelayLedger` and `RelayGuarantees` prove what every run keeps, and `RelayOutcome` what one
  event does to its session: which bytes go where, when the session ends, who is billed, and
  when a reserved pair expires. `RelayEngine.dfy` is the same engine on the heap: records with
  peer pointers and byte arrays, the circular list of `CircularList.dfy` threaded through them,
  the array of connected relays and the table. Every operation there is proved equal to the
  function of the same name, so the theorems about runs are about the heap.
- **SSL relaying** (`SslRelay.dfy`): the output queues and the retry state of one session.
- **Framing**: blocking block I/O and messages (`BlockIo.dfy`, `Messages.dfy`), the incremental
  reader (`AsyncRead.dfy`) and the exchange in which a server grants machines (`Grant.dfy`).
- **Configuration**: the INI parser in place on its line buffer (`IniParser.dfy`) against a
  specification by lines (`IniText.dfy`), what kind each line is (`IniLines.dfy`), printing and
  parsing back (`IniRoundTrip.dfy`), the callbacks that build the queues (`Conf.dfy`) and set
  the global parameters (`ConfParams.dfy`), and the singly linked list (`Link.dfy`).

## The code as written and the code as meant

Where the code departs from what it is plainly for, both are modelled and the difference is a
theorem. For the relay engine `Config.repaired` selects the reading. The guarantees hold of
every safe run: that is any run of the repaired engine (`RelayRuns.RepairedRuns`), and any run
of the code as written in which no write fails with bytes in the buffer and no session is torn
down with one end still waiting. `RelayExact` shows that this condition is exact: as written, an
event keeps every promise (mutual peers, session isolation, true bills) if and only if it is of
that kind. What the slips do not harm is the pool itself: `RelayPool` proves the partition of
the records and the agreement of the table for every run of either reading that does not crash.

- `src/lib/nio2.c:665` leaves a relay alone when its socket is negative. A waiting relay has
  none either, so lines 709-727 are never reached. Repaired, the guard is "already idle", and
  only connected ends are billed.
- `src/lib/nio2.c:1744` shuts only the expired half of a session. Repaired, both ends are shut.
  As written the sweep changes nothing at all, because of line 665, in whatever state a run has
  reached (`RelayPool.FindIdleAsWritten`).
- `src/lib/nio2.c:606-620`: a write error other than EAGAIN falls through and moves the cursor
  and the count back by one. Repaired, it makes no progress.
- `src/lib/nio2.c:372-383`: with one idle record left `niogetpeer` reserves it and gives up.
  This is kept as it is: `RelayGuarantees.TwoOrNone` says it happens exactly when one record is
  idle, which takes a pool of odd size; `RelayExamples.RecordStranded` is a pool of one, and
  `RelayStranded.StrandedForGood` shows that such a record never comes back.
- `src/lib/nio2.c:324-334`: bytes buffered before the second end connects do not arm EPOLLOUT
  for it. Kept; `RelayWakeup.StuckExactly` and `StuckStays` say when this leaves bytes waiting
  and that they go on waiting, and `RelayExamples.ByteWaits` is a run in which they do.
- `src/lib/nio2.c:656-707` resets neither the output queue nor the SSL mode of a record that is
  shut. `SslRelay.ReuseIsolates` says exactly when the bytes of the next session stay in it:
  when both queues were empty.
- `src/lib/nio2.c:1504-1517`: another event on a complete control message queues the control
  twice and reports end of file. Kept; `AsyncRead.SecondEvent` says that it happens exactly then.
  The test for retries in lines 1517-1522 can never fail, so every read error is reported as -1,
  and the model has only that kind.
- `src/lib/nio.c:311` passes the whole length to every `write`, not what remains.
  `BlockIo.WriteBlockAsWritten` says exactly when the block still goes out right.
- `src/lib/ini.c:80` leaves the section uninitialised although `src/lib/ini.h:16-17` says it is
  "" before the first header; `IniText.PromisedSection` says exactly when the promise is kept,
  and `IniText.JunkSection` is a file for which it is not.
  `src/lib/ini.h:24-25` also says parsing goes on after an error, but lines 55-57 switch that
  off, and the model stops as the code does.
- `src/lib/ini.c:135-138`: an empty value followed by a comment takes the comment as the value,
  since no white space is left in front of it. `IniRoundTrip.SettingBack` and `IniRoundTrip` say
  that this is the only way a value is lost; `IniRoundTrip.LostValue` is such a line.
- `src/lib/link.c:50-51` counts each value down twice and stops at a NULL value;
  `LinkedList.FreesAll` says exactly when every cell is released, and `CellLeft` is a list that
  keeps one.
- `src/daemon/conf.c:118` reads the borrow factors with a blank between them, but
  `conf/resdb.conf:19,24` writes a comma; `Conf.CommaNeverAsks` shows that such a queue never
  asks for a machine. `Conf.FactorDecides` says exactly when the division of
  `src/daemon/resources.c:81` is one by zero, and `Conf.NoFactor` is a configuration for which it
  is.
- `src/daemon/conf.c:66` sets the global parameters back to their defaults on every key of their
  section, so all but the working directory keep only what the very last key says.
  `ConfParams.ParamsVerdict` is the exact outcome, and `ConfParams.SchedulerStays` says exactly
  when a setting survives the rest of the file.
- `src/daemon/conf.c:18` takes the parser's line number, which is positive, for success.
  `Conf.Table.ReadConfig` says exactly when the file was read whole, and `Conf.SilentError` is a
  file that was not.
- `src/server/rbio.c:146-157` writes past its buffer when the reply is too long;
  `Grant.BootResources` says exactly when, and `Grant.ReplyTooLong` gives such names.

## Assumptions

Sockets, the kernel, the SSL library and the clock answer arbitrarily: their results are
arguments of the events or operations. One event is handled at a time. A report that a
socket is both readable and writable is an EPOLLIN event: `src/lib/nio2.c:1190-1243` handles
that half and goes on to the next report. The hash table is a map
keyed by the text of the sid, `freeup` frees and sets to NULL, and the structures of the daemon
have the fields the code uses; their definitions are not part of the repository. Fields `ep`,
`flushed`, `eps` and `bills` are bookkeeping that the code does not have: they name the session
a record plays in and log the bytes read and delivered, so that guarantees can speak of them.
Allocation succeeds, and counters do not overflow.

## Model

| member | source | states |
|---|---|---|
| RelayGuarantees.MutualPeers | src/lib/nio2.c:353-443 | after any safe run peers are mutual and never oneself, in a pool of even size exactly the non-idle records have one, and their number is even |
| RelayGuarantees.TwoOrNone | src/lib/nio2.c:353-443 | after any safe run a call for a pair yields two idle records, now each other's peers and due ttidl seconds from now, or none; none exactly when half the pool is in sessions; it strands a record exactly when one is idle |
| RelayGuarantees.SessionIsolation | src/lib/nio2.c:449-654 | with records reused, what is ever delivered at one end is a prefix of what was read at the other end of that same session, and while it lives the rest is what is buffered |
| RelayGuarantees.BilledOnce | src/lib/nio2.c:656-707 | every connection is billed once, when it is shut and not before; the bill counts its bytes, and the difference is what was dropped |
| RelayGuarantees.InvPromised | src/lib/nio2.c:449-707 | the invariant implies every promise at once: mutual peers, isolation of every endpoint, every bill true |
| RelayGuarantees.RepairedReachable | src/lib/nio2.c:449-730 | the guarantees cover every state that some run of the repaired engine ends in |
| RelayPool.AnyRun | src/lib/nio2.c:656-730 | in either reading, after every run that does not crash: only connected relays have sockets, the table files waiting relays under their own sids, and cache and array follow the status |
| RelayPool.PoolPartition | src/lib/nio2.c:193-218 | in either reading, after every run that does not crash, the free list holds each unconnected record once and no connected one, list and connected records make up the pool, and the array shows exactly the connected ones |
| RelayPool.WaitingTable | src/lib/nio2.c:414-425 | in either reading, after every run that does not crash, the table files exactly the waiting halves of sessions, each under the text of its own sid and still in the free list |
| RelayPool.FindIdleAsWritten | src/lib/nio2.c:1722-1745 | as written, after any run that does not crash, in order or not, the sweep changes nothing |
| Prelude.DecimalInjective | src/lib/nio2.c:414-422 | sids printed alike are equal, so no table entry is taken twice |
| RelayCount.Census | src/lib/nio2.c:353-443 | paired, idle and stranded records make up the pool; at most one is stranded, and only in a pool of odd size |
| RelayReserve.GetPeerVerdict | src/lib/nio2.c:353-443 | in any state in order the asserts on duplicates hold, the invariant is kept, the outcome is told by the number of idle records, and both records of a pair are due ttidl seconds after the time of the call |
| RelayReserve.StartVerdict | src/lib/nio2.c:266-351 | the assert on the status never fails; a connection is refused exactly when no relay waits under its sid, and else exactly that record is connected, with that socket |
| RelayRuns.FindIdleVerdict | src/lib/nio2.c:1700-1747 | repaired, the sweep ends exactly the sessions with an overdue half, both ends, whatever the order of the walk, and touches no other record |
| RelayRuns.StepKeeps | src/lib/nio2.c:1310-1343 | any event of the repaired engine and any benign event of the code as written: no assert fails and the whole invariant holds again |
| RelayRuns.RunKeeps | src/lib/nio2.c:449-730 | no safe run, with whatever I/O results, fails an assert or leaves the invariant |
| RelayRuns.RepairedRuns | src/lib/nio2.c:449-730 | every run of the repaired engine is safe |
| RelayWakeup.NoLostWakeup | src/lib/nio2.c:567-650 | in a safe run, in a direction flushed with both ends connected, EPOLLOUT is registered for the receiver exactly when bytes are buffered, and the registered mask is the engine's own |
| RelayWakeup.FlushedStays | src/lib/nio2.c:555-654 | a direction once flushed stays so through every event until its session ends |
| RelayWakeup.ReadableFlushes | src/lib/nio2.c:449-504 | an EPOLLIN event between connected ends makes the direction flushed or ends the session |
| RelayWakeup.StartWakes | src/lib/nio2.c:324-334 | the second end to connect is not registered for EPOLLOUT whatever the first end has buffered; the bytes stay as they are and are stuck exactly when there are any |
| RelayWakeup.StuckExactly | src/lib/nio2.c:567-650 | between two connected ends of a safe run, buffered bytes wait without EPOLLOUT exactly when their direction was never flushed with both ends connected |
| RelayWakeup.StuckStays | src/lib/nio2.c:449-730 | stuck bytes stay stuck through every event but a read from their end, an unasked-for write to the other, or the end of the session |
| RelayStranded.StrandedStays | src/lib/nio2.c:372-383 | no safe event connects, shuts or reserves a stranded record |
| RelayStranded.StrandedForGood | src/lib/nio2.c:372-383 | in a safe run a record once stranded is stranded ever after |
| RelayOutcome.FlushOutcome | src/lib/nio2.c:554-654 | between any two ends a flush writes to a connected peer just what its socket takes of the buffered bytes, returns that count, or -1 when there were bytes and the write failed, and moves nothing else |
| RelayOutcome.ReadableVerdict | src/lib/nio2.c:449-504 | EPOLLIN, whole: what is read joins the buffer and what the peer's socket takes goes out, at the end too; the session ends exactly at end of file, on a hard read error or on a hard write error, with both ends shut and billed for what is left, and after a write error the peer's bytes are offered first |
| RelayOutcome.WritableVerdict | src/lib/nio2.c:1319-1329 | EPOLLOUT: the peer's bytes go out as far as the socket takes them, and EPOLLOUT stays registered exactly when some are left |
| RelayOutcome.TeardownOver | src/lib/nio2.c:477-479 | shutting both ends: both idle, out of the table, billed in that order if connected, and back at the end of the free list in that order |
| RelayOutcome.SessionBefore | src/lib/nio2.c:449-730 | after any safe event a session that is there was there before, with the same peer and deadline, or was made by that event |
| RelayOutcome.DeadlineKept | src/lib/nio2.c:407-412 | in any safe run a pair reserved at a time keeps the deadline ttidl seconds later for as long as its session lives |
| RelayOutcome.ExpiresOnTime | src/lib/nio2.c:1722-1745 | repaired, after any run, the sweep ends such a session, both ends, exactly when an end still waits ttidl seconds after the reservation |
| RelayOutcome.TakesFirstIdle | src/lib/nio2.c:368-396 | a call for a pair takes the two idle records that stand first in the free list; a record it strands has a deadline without the time added |
| RelayOutcome.ReusedLast | src/lib/nio2.c:363-367 | a finished pair is not handed out again while two other records are idle |
| RelayLedger.Conservation | src/lib/nio2.c:538-637 | over any safe run: bytes read = bytes delivered + bytes buffered + bytes written off in bills |
| RelayLedger.FlushBalanceExact | src/lib/nio2.c:606-620 | as written, a flush accounts for every byte exactly when it does not fail with bytes in the buffer |
| RelayLedger.StepGrows | src/lib/nio2.c:449-730 | no event takes back a byte read or delivered, a connection or a bill, repaired or not |
| RelayExact.AsWrittenExact | src/lib/nio2.c:606-665 | as written, from a state in order, an event keeps every promise, and the invariant, exactly when it meets neither a failing write with bytes buffered nor a teardown with one end waiting |
| RelayExact.AsWrittenRuns | src/lib/nio2.c:606-665 | as written, every promise is kept after every prefix of a run exactly when each of its events is of that kind |
| RelayExamples.CrossedSessions | src/lib/nio2.c:665-666 | a concrete run of the code as written in which a byte of one session is delivered in another |
| RelayExamples.ByteSentTwice | src/lib/nio2.c:606-620 | a concrete run of the code as written in which a byte is delivered twice |
| RelayExamples.ByteWaits | src/lib/nio2.c:324-334 | a concrete run, in either reading, that ends with a byte buffered and no EPOLLOUT registered for its receiver |
| RelayExamples.RecordStranded | src/lib/nio2.c:372-383 | a pool of one record, which the first call for a pair strands |
| RelayEngine.Engine.constructor | src/lib/nio2.c:193-218 | the heap after start-up is the initial state of the model, with every record in the list in the order of its sid |
| RelayEngine.Engine.GetPeer | src/lib/nio2.c:353-443 | the walk along the forw pointers of the real list reserves, links and files the same two records as the model, or none |
| RelayEngine.Engine.StartRelay | src/lib/nio2.c:266-351 | taking a record out of table and list on the heap is the model's step, and the record returned is the one filed |
| RelayEngine.Engine.RelayRead | src/lib/nio2.c:509-548 | reading into the byte array at the cursor is the model's step |
| RelayEngine.Engine.Flush2Peer | src/lib/nio2.c:554-654 | the flush through the peer pointer is the model's step, with the value the C function returns |
| RelayEngine.Engine.ShutRelay | src/lib/nio2.c:656-730 | shutting on the heap, back into the list or out of the table, is the model's step |
| RelayEngine.Engine.Relay | src/lib/nio2.c:449-504 | read, flush, and teardown of both ends on the heap are the model's step |
| RelayEngine.Engine.Writable | src/lib/nio2.c:1319-1329 | EPOLLOUT on the heap is the model's step |
| RelayEngine.Engine.FindIdle | src/lib/nio2.c:1700-1747 | the two loops of the sweep, over table and collected relays, are the model's step |
| RelayEngine.Engine.HandleEvent | src/lib/nio2.c:1310-1343 | any safe event on the heap: nothing asserted fails, pointers, list, table and array agree again, and the state is the model's next |
| RelayEngine.Engine.PoolOnHeap | src/lib/list.c:58-176 | on the heap: relaycache is a well-formed circular list with every unconnected record once and no connected one, its count and the connected records make up the pool, and relayarray points to exactly the connected ones |
| RelayEngine.Drive | src/lib/nio2.c:193-730 | from start-up through any safe run of events the heap reaches the state of the model's run, with the pool partitioned on the pointers |
| RelayEngine.FeasibleRun | src/lib/nio2.c:1310-1343 | every safe run leads where one made only of events that can happen leads |
| CircularList.ListMake | src/lib/list.c:27-41 | an empty well-formed circular list |
| CircularList.ListInsert | src/lib/list.c:58-81 | the pointers spell the sequence with the node put before the given one, and the count returned is its length |
| CircularList.ListEnque | src/lib/list.c:92-104 | append |
| CircularList.ListPush | src/lib/list.c:137-149 | prepend |
| CircularList.ListRm | src/lib/list.c:163-176 | the pointers spell the sequence without exactly the given node, whatever its place; an empty list is left alone |
| CircularList.ListDeque | src/lib/list.c:108-127 | the first node is taken out, or null |
| CircularList.ListPop | src/lib/list.c:153-161 | the first node is taken out, or null |
| CircularList.ListFree | src/lib/list.c:181-196 | terminates, releases every node once and in order, and leaves the list empty |
| CircularList.RingUnique | src/lib/list.c:58-81 | one pointer structure spells only one sequence |
| CircularList.InsertBeside | src/lib/list.c:58-81 | inserting into one list leaves any list without a common node as it is |
| CircularList.RmBeside | src/lib/list.c:163-176 | so does taking a node out |
| SslRelay.SslSession | src/lib/nio2.c:1345-1380 | in every run of a session with empty queues at the start, the event that tears it down included, the abort is not reached, both directions lose nothing, and both SSL objects see a disciplined sequence of calls |
| SslRelay.SslPipes | src/lib/nio2.c:2304-2463 | what an end read is what its peer wrote followed by the unsent parts of the peer's queue, in order, also when the session is torn down |
| SslRelay.SslRetries | src/lib/nio2.c:2318-2622 | after a call that has to be repeated, the next call on that SSL object is that call, a write with the same bytes, up to and in the event that tears the session down |
| SslRelay.EventVerdict | src/lib/nio2.c:1345-1380 | one event, told by the calls on the two SSL objects: an end that owes a write writes its queue out; any other reads once, queues what it got at its peer, and the peer, if connected and owing no read, writes its queue out; the session is torn down exactly when one of these calls broke its connection |
| SslRelay.FlushOutVerdict | src/lib/nio2.c:2467-2626 | a flush goes on until the queue is empty or the library does not take a write; the front buffer is offered first; it reports the end of the session exactly when the last write broke the connection |
| SslRelay.SslCalls | src/lib/nio2.c:2304-2626 | in any run the bytes read and written are those that the library gave and took, call by call |
| SslRelay.AbortsExactly | src/lib/nio2.c:1345-1380 | the abort is reached exactly by a write report for an end that owes nothing |
| SslRelay.ReuseIsolates | src/lib/nio2.c:656-707 | for records as any earlier session left them, the bytes of the next session stay in it, in every run, exactly when both output queues were empty |
| SslRelay.CleanReuse | src/lib/nio2.c:656-707 | with empty queues the next session is as good as a first one, also when a read was owed |
| SslRelay.Relay.RelayRead | src/lib/nio2.c:2304-2463 | the read in place queues for the peer as the model says and sets the retry state |
| SslRelay.Relay.FlushToPeer | src/lib/nio2.c:2467-2626 | the loop over the front of the queue in place ends as the model's recursion |
| SslRelay.Relay.RelayOnce | src/lib/nio2.c:2257-2284 | read, then flush of a connected peer, or the end of the session |
| SslRelay.Relay.RunRelays | src/lib/nio2.c:1345-1380 | the dispatch on the retry state, the abort included |
| BlockIo.ReadBlockWhole | src/lib/nio.c:272-294 | under any short reads and interruptions, the first bytes of the stream, or -1 exactly when there are too few |
| BlockIo.ReadBlockVerdict | src/lib/nio.c:272-294 | with errors too: the first bytes of the stream exactly when it has them and they come before the first error, otherwise -1 |
| BlockIo.NioReadBlock | src/lib/nio.c:272-294 | the loop with its moving pointer fills the buffer with that block |
| BlockIo.WriteBlockWhole | src/lib/nio.c:298-321 | repaired, under any short writes and interruptions exactly the block goes out |
| BlockIo.WriteBlockVerdict | src/lib/nio.c:298-321 | repaired, with errors too: the block goes out unless an error comes first, and then just the bytes taken before it |
| BlockIo.WriteBlockAsWritten | src/lib/nio.c:308-318 | as written, the block goes out right exactly when the counts the kernel answers add up to its length on the way |
| BlockIo.WriteBlockFate | src/lib/nio.c:308-318 | as written, when the counts do not add up: an error ends the write after the bytes sent so far, and a count past the end of the block, or one more call after a short write, sends bytes from beyond it |
| BlockIo.OverrunExample | src/lib/nio.c:311 | one short write makes the code send a byte from beyond the block |
| BlockIo.NioWriteBlock | src/lib/nio.c:298-321 | the loop with its moving pointer sends what the model says, repaired or not |
| Messages.HeaderRoundTrip | src/lib/nio.c:189-209 | opcode and length survive the bytes of the header |
| Messages.HeaderLayout | src/lib/libresb.h:73-76 | the bytes of the header: opcode, padding, length, each number lowest byte first, as on the machines it runs on |
| Messages.SendWhole | src/lib/nio.c:189-202 | header and body go out as one message whatever the short writes |
| Messages.SendVerdict | src/lib/nio.c:189-202 | with errors too: a message is on the wire whole, exactly when both writes get to their ends before an error, or its sender is told |
| Messages.SendAllWhole | src/lib/nio.c:189-202 | messages sent one after another, each with its own short writes and the write repaired, make up the stream |
| Messages.ReceiveOne | src/lib/nio.c:206-225 | a whole message at the front of the stream is received and nothing after it is consumed |
| Messages.ReceiveOrNone | src/lib/nio.c:206-225 | with errors too: of a whole message at the front of the stream comes that message or none |
| Messages.ReceiveNone | src/lib/nio.c:206-225 | a stream that ends within a message yields -1 and no message |
| Messages.BoundariesSurvive | src/lib/nio.c:189-225 | from any number of bytes of a sequence of messages, in whatever pieces, come exactly the messages complete in them |
| Messages.MessagesRoundTrip | src/lib/nio.c:189-225 | all messages sent under any short writes, with the write repaired, are received in order under any short reads; of a stream that breaks off, exactly the complete ones |
| AsyncRead.RefinesOneShot | src/lib/nio2.c:1477-1567 | for any fragmentation the control is queued once, with exactly one message in its buffer, its header decoded once and nothing beyond it consumed; one event per byte is always enough |
| AsyncRead.StreamRefined | src/lib/nio2.c:1477-1567 | from a stream of messages in any pieces the daemon, taking each when it is queued, gets the messages whole and in order, all of them given as many events as bytes |
| AsyncRead.EventAdvances | src/lib/nio2.c:1477-1567 | every event that finds bytes takes at least one and none beyond the message, and returns how many are there |
| AsyncRead.BadHeaderRefused | src/lib/nio2.c:1527-1542 | a header that does not decode is refused as soon as it is complete and its control is never queued |
| AsyncRead.SecondEvent | src/lib/nio2.c:1504-1562 | an event queues a control that is queued already, reads nothing and reports end of file exactly when the whole message was there before it |
| AsyncRead.EventVerdict | src/lib/nio2.c:1513-1566 | before the message is complete: a positive value exactly when bytes came, as many as were there and wanted; 0 at end of file and -1 on an error, with buffer and stream unchanged |
| AsyncRead.ServeVerdict | src/lib/nio2.c:1190-1213 | whatever pieces, end of file and errors come, the daemon takes the message exactly when the pieces before the first end of file or error bring all of it; otherwise that shuts the control, and without one it stays open |
| AsyncRead.Control.NioAsyncRead | src/lib/nio2.c:1477-1567 | the updates of buffer, cursor and length in place are the model's event |
| AsyncRead.Control.ReadChunk | src/lib/nio2.c:1513-1565 | the read and the header decoding in place are the model's |
| Grant.BootResources | src/server/rbio.c:145-158 | the loop that appends names builds the reply text, and writes past its buffer exactly when text and NUL do not fit |
| Grant.ReplyTooLong | src/server/rbio.c:146-157 | sixteen names of 63 characters overrun the reply buffer |
| Grant.DecodeReply | src/daemon/resources.c:142-150 | the decoding loop with its cursor reads what the model decodes |
| Grant.GrantRoundTrip | src/server/rbio.c:145-158 | the names decoded are exactly the first min(m, need) of the server's m, for any names that are words |
| Grant.CountVerdict | src/daemon/resources.c:148-154 | the count in a reply is believed: names beyond it are ignored, and one beyond the names makes the broker use a name it never read |
| Grant.GrantOverTheWire | src/daemon/resources.c:116-154 | the same end to end, with reply header and body written and read in any pieces |
| Grant.GrantMeetsDemand | src/daemon/resources.c:75-100 | for factors of any sign, machines held and granted never exceed (pending / factor0) * factor1, in C's division, and reach it exactly when the server has enough |
| Grant.QuotientTruncates | src/daemon/resources.c:81 | the division is C's, towards zero |
| IniText.ParseIsMeaning | src/lib/ini.c:93-158 | for any file and handler: 0, or the number of the first line that is malformed or refused, and exactly the calls that the lines up to there stand for |
| IniText.WholeFile | src/lib/ini.c:93-158 | the number 0 means exactly that every line is well-formed and every call accepted, and then the calls are all there are |
| IniText.PromisedSection | src/lib/ini.c:80 | for every file and handler, the calls made are those the documentation promises exactly when the parser meets a header or a malformed line before any setting, or the buffer happens to hold "" |
| IniText.JunkSection | src/lib/ini.c:80 | the file of the one character =, whose setting arrives under whatever the section array held |
| IniLines.LineVerdict | src/lib/ini.c:97-150 | a line is blank exactly when nothing or a comment mark is left of it without the white space around it; only a line that starts with a bracket is a header |
| IniLines.HeaderVerdict | src/lib/ini.c:112-124 | a header ends at the first closing bracket, unless a comment begins before, and keeps at most 49 characters of its name; without one it is malformed |
| IniLines.SettingVerdict | src/lib/ini.c:125-150 | any other line is divided by its first =, or, when it has none before a comment, by its first colon; with neither it is malformed |
| IniLines.StrippedVerdict | src/lib/ini.c:97-99 | what is judged is the text without exactly the white space around it |
| IniLines.ValueVerdict | src/lib/ini.c:134-138 | a value ends before the first comment mark after white space, and has no white space around it |
| IniLines.FindFirst | src/lib/ini.c:48-58 | the search stops at the first such character or comment, or at the end |
| IniLines.ChunkVerdict | src/lib/ini.c:93 | a chunk is a line with its newline, the first characters of a longer one, or the rest of the file |
| IniParser.RStripInPlace | src/lib/ini.c:25-32 | trailing white space is cut off where the text lies, and nothing outside the text is written |
| IniParser.LSkip | src/lib/ini.c:36-42 | the pointer ends at the first character that is no white space |
| IniParser.FindCharOrComment | src/lib/ini.c:48-58 | the first such character, or comment character after white space, or the end |
| IniParser.StrNCpy0 | src/lib/ini.c:60-68 | the section buffer holds the first 49 characters and a NUL |
| IniParser.ValueInPlace | src/lib/ini.c:135-139 | the value without leading space, comment and trailing space, cut where it lies |
| IniParser.SplitAt | src/lib/ini.c:132-139 | name and value as the handler gets them after the NULs are written into one buffer |
| IniParser.LineInPlace | src/lib/ini.c:97-150 | a line in the buffer is taken for what the specification of lines says, and the section buffer follows |
| IniParser.FGets | src/lib/ini.c:93 | the chunk that fgets hands over, lines of 255 characters and more cut |
| IniParser.IniParseFile | src/lib/ini.c:72-159 | the in-place parser returns the number and makes the calls of the specification, for every file |
| IniRoundTrip.SettingBack | src/lib/ini.c:125-145 | a setting in any padding comes back under its name, and its value comes back exactly when it is not an empty value followed by a comment |
| IniRoundTrip.LostValue | src/lib/ini.c:135-138 | a line whose comment is read as its value |
| IniRoundTrip.ItemBack | src/lib/ini.c:97-150 | a header, setting or filler line parses to what it was printed from exactly when it is not an empty value followed by a comment; no line is malformed |
| IniRoundTrip.LinesBack | src/lib/ini.c:93-150 | a printed file is cut back into its lines |
| IniRoundTrip.IniRoundTrip | src/lib/ini.c:93-150 | printed in any decoration and parsed, with a handler that accepts the settings: no error and exactly the settings, each under its section, in order, if and only if no empty value is followed by a comment |
| LinkedList.LinkMake | src/lib/link.c:9-19 | an empty list |
| LinkedList.LinkPush | src/lib/link.c:24-42 | prepend on the heap; -1 without a list |
| LinkedList.LinkPop | src/lib/link.c:59-79 | the first value is taken out, or NULL |
| LinkedList.LinkEnque | src/lib/link.c:83-106 | append on the heap after a walk to the end; -1 without a list |
| LinkedList.LinkDeque | src/lib/link.c:113-137 | the last value is taken out, or NULL |
| LinkedList.LinkFind | src/lib/link.c:140-153 | the value when some cell holds it, else NULL |
| LinkedList.LinkRm | src/lib/link.c:158-186 | the first cell that holds the value is taken out, whatever its place; else nothing changes and NULL |
| LinkedList.LinkFree | src/lib/link.c:44-55 | how many cells are released, which are left and what the count becomes |
| LinkedList.FreesAll | src/lib/link.c:44-55 | every cell is released exactly when no NULL value stands before the last |
| LinkedList.CellLeft | src/lib/link.c:44-55 | a list of which one cell is not released |
| LinkedList.PerformAll | src/lib/link.c:24-186 | under any operations in any order the list on the heap returns what a sequence would, and num is its length |
| LinkedList.RmFirstOnly | src/lib/link.c:158-186 | one occurrence goes, the first; the others stay in order |
| LinkedList.PushDequeFifo | src/lib/link.c:108-137 | pushed and then dequeued, values come out in the order they went in |
| LinkedList.EnquePopFifo | src/lib/link.c:59-106 | enqueued and popped: the same order; pushed and popped: the reverse |
| LinkedList.PickServer | src/daemon/resources.c:111-114 | the server picked is the first, and is set exactly when the guard of lines 17-20 lets the call through |
| Conf.Queue.Set | src/daemon/conf.c:101-134 | the assignments in order leave the queue as the specification says, type written twice included |
| Conf.Table.GetQueueByName | src/daemon/conf.c:136-158 | the first queue of that name ignoring case, or a new one at the end |
| Conf.Table.Handle | src/daemon/conf.c:25-46 | one callback changes just the queue it is for, and is refused exactly for an unknown key of the broker's own section |
| Conf.Table.ReadConfig | src/daemon/conf.c:15-23 | the queues after reading are those of the calls the parser makes; 0 is returned for every file that opens, and the file was read whole exactly when every line is well-formed and accepted |
| Conf.SilentError | src/daemon/conf.c:18 | a file that stops the parser at its first line, for which 0 is returned |
| Conf.QueueNames | src/daemon/conf.c:136-158 | whatever callbacks come, no two names equal but for case, spelled and ordered by first appearance, none missing |
| Conf.QueueCount | src/daemon/conf.c:136-158 | as many queues as names that differ by more than case |
| Conf.OwnSettings | src/daemon/conf.c:101-134 | a queue is what its own callbacks made of it, in order; those for other queues and sections leave it alone |
| Conf.ConfigRead | src/daemon/conf.c:15-46 | a configuration printed in any decoration, without a comment after an empty value, reaches the callbacks whole, and each queue is what its own settings made of it |
| Conf.QueueVerdict | src/daemon/conf.c:101-158 | a queue exists exactly when its name was asked for, and each field follows the last callback for that field alone: type, name space, first factor, second factor, and the spelling of the first callback |
| Conf.KindVerdict | src/daemon/conf.c:120-132 | a type in any case: container and cloud are those, everything else is virtual machines |
| Conf.EffectVerdict | src/daemon/conf.c:25-61 | a callback is refused exactly for a key of the broker's own section that is neither host nor port, and sets a queue, with its own key and value, exactly when its section has queue in it and is not one of the two fixed ones |
| Conf.SameIff | src/daemon/conf.c:30-34 | names and keys are compared letter by letter without regard to case |
| Conf.ContainsIff | src/daemon/conf.c:38 | the word stands somewhere in the section |
| Conf.SecondOfSection | src/daemon/conf.c:39-43 | a section names its queue by its second word, whatever white space is around the words and whatever follows |
| Conf.NoSecondWord | src/daemon/conf.c:39-43 | a section of fewer than two words names none, so that the buffer's old content is used |
| ConfParams.ParamsVerdict | src/daemon/conf.c:63-99 | after a file the working directory is the last one given, and of the other parameters only the one named by the very last callback of the section is not at its default |
| ConfParams.SchedulerStays | src/daemon/conf.c:66 | a scheduler survives the rest of the file exactly when no callback of the section follows, or the last one gives it again |
| ConfParams.Params.InitParams | src/daemon/conf.c:63-87 | the assignments in place, defaults first, are the model's |
| Conf.TwoFactors | src/daemon/conf.c:117-119 | of two numbers the first is always read, the second exactly when only white space and perhaps a sign separates them |
| Conf.CommaNeverAsks | conf/resdb.conf:19 | with a comma between the factors a queue never asks for a machine, with a blank it asks for b per a pending jobs |
| Conf.FactorDecides | src/daemon/resources.c:81 | the number of machines is defined exactly when the queue's callbacks gave it a first factor and the last one given is not 0; else the broker divides by zero |
| Conf.NoFactor | src/daemon/resources.c:81 | a queue whose section sets no factor, for which the broker divides by zero |

## Left out

- Sockets, epoll, OpenSSL and the clock beyond their results; several ready events in one batch, in which a stale EPOLLOUT can reach the abort of `src/lib/nio2.c:1360`.
- `sslnioflush` (`src/lib/nio2.c:2633-2680`), the best-effort flush before an SSL session is torn down: an SSL session ends with its queues as they are when the teardown begins, so what a next session finds in them is more than the code may leave.
- `nioasyncwrite` with more than one message queued, which writes the newest and dequeues the oldest.
- The SSL handshake, XDR decoding (a function from header bytes to a body length), name resolution, logging, signals, start-up, `src/cmd`.
- The dispatch of `src/server/rbio.c:109-138` on the request code, and the request to shut machines: only the request to boot machines is modelled.
- The broker's own host and port (`src/daemon/conf.c:48-61`): their callbacks are modelled only as far as they are accepted or refused.
- The list of controls and the list of connected relays that the epoll loop keeps while it sorts events; multi-line values, which are switched off in `src/lib/ini.h:49-51`.
- Memory exhaustion and wrap-around of counters; the length of a queue name (a section has at most 49 characters, the buffer 128).
- AsyncRead.RefinesOneShot: its pieces hold no error or end of file; `AsyncRead.EventVerdict` and `AsyncRead.ServeVerdict` say what these do.
- Grant.GrantOverTheWire: the body is exactly as many characters as the header announces; the broker's buffer has no NUL after them.
- IniRoundTrip.IniRoundTrip: names without `=`, and section names of at most 49 characters, in lines of fewer than 255.
