# EmiNet in Dafny

EmiNet carries messages over UDP on channels that are unreliable, sequenced,
reliable or ordered. This project models the part of it that keeps state and
does no I/O, and proves what that state is for.

| module | models |
|---|---|
| Options, NetUtil, Bytes | the shared option type, cyclic 24 bit arithmetic, unwrapping, bytes and words |
| Streams | messages, the parts they are split into, and joining them again |
| MessageSets | the union-find forest over split parts |
| OrderedSpec | the simple description of a RELIABLE_ORDERED receiver: everything is a function of which fragments were accepted |
| ReceiverBuffer, OrderedReceiver, OrderedRuns | the receive buffer (tree, forest, expected number), proved against that description, and its runs |
| SequencedReceiver | the same buffer on an UNRELIABLE_SEQUENCED channel, and its runs |
| SenderBuffer, Connection | the two trees of unacknowledged messages; sending, acks, retransmission, opening and closing |
| EndToEnd, Session | sender, lossy network and receiver as one state machine, and the proof that the code of both sides takes its steps |
| SendQueue | weighted priorities, the pending acks, the sliding window of bytes sent |
| Mediator | cookies, joined peers and the two connection maps of the P2P mediator |
| LossList, LossLedger | the lost ranges that decide which NAKs are sent, and the account of lost numbers that they stand for |
| MessageWire, PacketHeader | printing and parsing messages, packet headers and whole datagrams |
| Transport | how what a connection queues arrives at the other host, and the sizes of it |

Objects that the code updates in place are classes with the same fields; each
method is proved against a function of its inputs and the old state, and the
properties of whole runs are lemmas about these functions. `std::set` and
`std::map` fields are `seq` fields kept in the container's order and `map`
fields. Methods of more than a page are divided at the code's own sections.
What the code asserts is either proved to hold or stated as the requirement it
is for callers.

## Where the code and its documentation differ

- Acks on ordered channels. The ack of an expected fragment is enqueued before
  the buffer may refuse the fragment. In-order delivery holds all the same;
  acks stay true, and conservation outlives them, exactly when no expected
  fragment is refused (`OrderedSpec.FirstAckTruth`,
  `EndToEnd.ConservesUnlessRefused`, reached in `EndToEnd.RefusalExample`), and a
  buffer filled with later fragments recovers if and only if the expected one
  still fits (`OrderedRuns.AdvancesUnlessStuck`).
- core/EmiP2PSock.h:199-200 gives a cookie up once two peers have joined, and
  line 276 erases it again when their connection is removed. Whoever has used
  the number in between, which lines 187-193 expect of a repeated SYN, is erased
  with it and cannot be joined any more (`Mediator.LostPeer`). A removal spares
  everyone who waits if and only if no other connection stands under the number
  (`Mediator.P2PSock.RemoveConnection`, `Mediator.P2PSock.OwnsUnlessReused`).
- core/EmiLogicalConnection.h:430 asserts that there is room for the PRX-ACK.
  That holds exactly when there is room once the SYN is released, and it can
  fail (`Connection.Connection.GotSynRst`, `Connection.NoRoomExample`).
- core/EmiSenderBuffer.h:63 says that the index holds at most one message per
  channel. The search at lines 75-87 only looks forward, so every message that
  is registered in ascending order is indexed (`SenderBuffer.TwoIndexedExample`;
  the exact condition is `SenderBuffer.RegisterKeepsOnePerChannel`). What is
  always kept is that the newest of each channel is indexed.
- core/EmiSenderBuffer.h:136-137 promises to deregister everything at or below
  a number. Nothing is removed when the channel has no message at or above it
  (`SenderBuffer.DeregistersAsDocumented`, `SenderBuffer.LaterNumberRemovesNothing`).
- core/EmiLossList.h:19-28 says that a range is due when its last feedback is
  long enough ago, and that NAKs never go back; lines 57-59 say that the ranges
  are disjoint. The test at core/EmiLossList.cc:105 is the other way round
  (`LossList.DueIsReversed`). The rest holds along a run exactly when no arrival
  lists a gap over listed numbers or over numbers up to the last NAK, which
  takes a late packet that has moved the newest number back
  (`LossList.EveryRunIsDocumented`, `LossList.NaksCanGoBackwards`).
- core/EmiPacketHeader.cc:44-49 looks for the filler bits in the flags byte
  instead of the extra flags byte (`PacketHeader.HeaderRoundTripExact`).
- The cyclic difference works modulo 2^24 - 1 while numbers wrap at 2^24, so
  unwrapping is exact only inside one block of 2^24 numbers
  (`NetUtil.UnwrapExact`).
- An ack on a RELIABLE_SEQUENCED channel is unwrapped against the number after
  the newest one. When that starts a new block of 2^24, the ack of the newest
  number is not recovered and the message stays outstanding
  (`Connection.NewestAck`, `Connection.Connection.GotReliableSequencedAck`).
- core/EmiTypes.h:26 allows 21 bytes for a packet header, and the size of parts
  is computed from it. A header with all six optional fields takes 22
  (`Transport.PacketHeaderSize`, `Transport.PartFitsMtu`).

The model follows the code in each case.

## Model

| member | source | states |
|---|---|---|
| `OrderedRuns.EveryRunIsInOrder` | core/EmiReceiverBuffer.h:775-822 | after any arrivals of fragments of one sent stream, lost, duplicated, reordered or refused by a full buffer, the emitted list only grows and is a prefix of the sent list |
| `OrderedRuns.NoRefusalDeliversPrefix` | core/EmiReceiverBuffer.h:775-822 | without refusals, what is emitted is exactly the sent messages lying wholly inside the longest contiguous prefix of the numbers that arrived, and everything once everything has arrived |
| `OrderedRuns.DeliveredInOrder` | core/EmiReceiverBuffer.h:429-530 | the description in terms of fragments and the one in terms of whole sent messages agree for every set of accepted fragments |
| `OrderedRuns.AcceptedIsArrived` | core/EmiReceiverBuffer.h:339-364 | accepted numbers have arrived; without refusals every arrived number is accepted |
| `OrderedRuns.Deliver` | core/EmiReceiverBuffer.h:693-822 | the receive buffer carries out every such run: its accepted set, emitted list and expected number are those of the simple description |
| `OrderedRuns.AdvancesUnlessStuck` | core/EmiReceiverBuffer.h:339-364 | as long as something is missing, some arrivals with headers of at least h bytes advance the expected number if and only if the expected fragment is not a split part that does not fit with such a header |
| `OrderedRuns.FullBufferStalls` | core/EmiReceiverBuffer.h:339-364 | once it is one, no later arrivals whatever with such headers change the expected number or the emitted list |
| `OrderedRuns.FullBufferExample` | core/EmiReceiverBuffer.h:339-364 | such a state is reached by one arrival: two parts, the second first, and a buffer that it fills |
| `EndToEnd.EveryRunConserves` | core/EmiReceiverBuffer.h:778-795 | in every reachable state of sender, lossy network and receiver, each number assigned is unacknowledged at the sender or accepted at the receiver, each from the expected one on is unacknowledged, every ack in flight is true, and an RST means that nothing else is outstanding |
| `EndToEnd.NextOk` | core/EmiLogicalConnection.h:486-561 | every kind of step (send, delivery, new, stale or repeated ack, close, other channels) keeps that invariant |
| `EndToEnd.DeregisterOk` | core/EmiSenderBuffer.h:141-200 | an ack in flight makes the sender forget only what the receiver has |
| `EndToEnd.GracefulCloseDeliversAll` | core/EmiConn.h:99-106 | in every run, when an RST has been queued the receiver has emitted exactly the messages the sender accepted, in order |
| `EndToEnd.MissingIsRetransmitted` | core/EmiSenderBuffer.h:207-250 | in every run, the fragment that the receiver expects and all later ones are still with the sender |
| `EndToEnd.ConservesUnlessRefused` | core/EmiReceiverBuffer.h:786-796 | after any arrival, conservation outlives every ack that can follow if and only if the arrival is not an expected fragment that a full buffer refuses |
| `EndToEnd.ArrivalKeepsInv` | core/EmiReceiverBuffer.h:786-796 | an arrival keeps the whole invariant under exactly that condition |
| `EndToEnd.RefusalLosesFragment` | core/EmiReceiverBuffer.h:786-796 | the excluded arrival is acknowledged, and that ack makes the sender forget the fragment |
| `EndToEnd.RefusalExample` | core/EmiReceiverBuffer.h:339-364 | it is reached by one send: a two-part message, and a buffer smaller than its first part |
| `OrderedSpec.FirstAckTruth` | core/EmiReceiverBuffer.h:786-796 | the ack for an arriving fragment covers only accepted fragments if and only if the fragment is not an expected one that the buffer refuses |
| `OrderedSpec.AcksStayOk` | core/EmiReceiverBuffer.h:561-569 | acks never decrease and stay below the expected number, as long as an expected fragment is never refused |
| `OrderedSpec.NewestAckReaches` | core/EmiReceiverBuffer.h:561-569 | an arrival that is not too new enqueues an ack; the newest one is for everything below the number expected then, or, when an old copy arrives, at least for everything below the one expected before |
| `Session.Session.constructor` | core/EmiLogicalConnection.h:172-229 | a new connection and a new receiver are an initial state of the system |
| `Session.Session.Send` | core/EmiConn.h:697-706 | an accepted send is a send step of the system, a rejected one changes nothing |
| `Session.Session.Deliver` | core/EmiReceiverBuffer.h:775-822 | a message of the channel that the sender ever queued or still holds is the fragment of the stream under its number; delivering it to the receiver's code is an arrival in the system, with exactly the acks it enqueues, and keeps the session's invariant if and only if it is not an expected fragment that is refused |
| `Session.Session.InFlightFits` | core/EmiConn.h:363-451 | the fragments from the expected number on fit into the sender's buffer together, each with a full message header |
| `Session.Session.InFlightInWindow` | core/EmiReceiverBuffer.h:703-715 | so they lie in the receiver's window, for a sender's buffer of at most 10 * (2^23 - 1) bytes |
| `Session.Session.DeliverAck` | core/EmiReceiverBuffer.h:778-781 | delivering any ack the receiver ever enqueued is an ack step |
| `Session.Session.Close` | core/EmiConn.h:646-663 | closing is a close step |
| `Session.Session.SendElsewhere` | core/EmiConn.h:697-706 | a send on another channel is a step that is not about this one, or is rejected and changes nothing |
| `Session.Session.DeliverAckElsewhere` | core/EmiReceiverBuffer.h:778-781 | so is an ordered ack for another channel, also the one that lets the RST out |
| `Session.Session.DeliverSequencedAck` | core/EmiLogicalConnection.h:503-508 | so is an ack on a RELIABLE_SEQUENCED channel |
| `Session.Session.GotSynRst` | core/EmiLogicalConnection.h:411-442 | so is the end of the client's handshake, with the PRX-ACK of a P2P connection if there is room for it |
| `Session.Session.GotSynAgain` | core/EmiConn.h:455-468 | a repeated SYN is answered again and changes nothing that the system state shows |
| `Session.Session.GotPrx` | core/EmiLogicalConnection.h:240-251 | so is the mediator's answer |
| `Session.Session.GotPrxRstSynAck` | core/EmiLogicalConnection.h:275-293 | so is the mediator's last answer, of the right length or not |
| `Session.Session.MissingMessage` | core/EmiSenderBuffer.h:207-250 | every fragment from the receiver's expected number on is with the sender, as it was sent |
| `Session.Session.RtoTimeout` | core/EmiConn.h:533-542 | after a retransmission timeout each of these fragments has gone out again, as it was sent, exactly if it was an RTO old; nothing that the system state shows has changed |
| `Session.Session.RstMeansDelivered` | core/EmiConn.h:99-106 | when the sender's RST is queued, the receiver's application has been handed every message, in order |
| `Streams.MessagesOfStream` | core/EmiConn.h:395-431 | joining the parts of any list of split messages gives the list back |
| `Streams.AppendedMessage` | core/EmiConn.h:395-431 | the parts of one more message extend a stream by exactly that message |
| `Streams.MessagesBefore` | core/EmiConn.h:395-431 | the groups before fragment p are the messages lying wholly in the first p fragments |
| `Streams.SplitFlags` | core/EmiConn.h:395-431 | only the first part has the first flag and only the last part the last one |
| `Streams.SplitWellFormed` | core/EmiConn.h:395-431 | the parts of a message are not empty and not too long, and a part ends the message exactly where the next one starts another |
| `Streams.PayloadOfSplit` | core/EmiConn.h:395-431 | the first n parts carry the first n times MAX_MESSAGE_LENGTH bytes of the message |
| `Streams.PartBounds` | core/EmiConn.h:395-418 | the number of parts is the rounded-up quotient: every part starts inside the message and the last one ends it |
| `MessageSets.DisjointMessageSets.Find` | core/EmiReceiverBuffer.h:84-111 | look-up ends, returns the root, keeps every set and summary, and points exactly the nodes on its way straight at the root |
| `MessageSets.DisjointMessageSets.Merge` | core/EmiReceiverBuffer.h:114-149 | two sets become one under the root of higher rank, or nothing changes when they are the same set |
| `MessageSets.DisjointMessageSets.GotMessage` | core/EmiReceiverBuffer.h:156-184 | registering a part keeps the forest a representation of the registered parts, a whole message is not registered |
| `MessageSets.DisjointMessageSets.GetMessageData` | core/EmiReceiverBuffer.h:186-210 | complete exactly when every part of the group is present; then largest and size are the group's last number and byte sum |
| `MessageSets.DisjointMessageSets.RemoveMessageAndOlderMessages` | core/EmiReceiverBuffer.h:220-229 | what remains is exactly the parts above the last number of the set, still well formed |
| `MessageSets.DisjointMessageSets.GetFirstSequenceNumberInSet` | core/EmiReceiverBuffer.h:239-245 | the number where the run of linked parts that reaches the given one starts, or the given one |
| `MessageSets.DisjointMessageSets.CutAtGroupEnd` | core/EmiReceiverBuffer.h:213-229 | cutting at the last part of a whole group, or at a number in no set, meets the code's assertion and cuts exactly there |
| `MessageSets.RankGrowsToRoot` | core/EmiReceiverBuffer.h:84-111 | rank strictly grows along parent links, so look-up ends at the root within bound - rank steps |
| `MessageSets.SetsAreIntervals` | core/EmiReceiverBuffer.h:114-149 | the keys of every set form an interval |
| `MessageSets.CompleteIffWholeGroup` | core/EmiReceiverBuffer.h:186-210 | a root has both flags if and only if every part from a first to a last one is registered, and its minimum, maximum and size are those of that group |
| `MessageSets.SummaryReach` | core/EmiReceiverBuffer.h:186-210 | a root's first and last numbers bound exactly the run of registered parts around each member |
| `MessageSets.FirstOfSet` | core/EmiReceiverBuffer.h:239-245 | a root's first number is where the linked run that reaches a number starts, registered or not |
| `MessageSets.Compress` | core/EmiReceiverBuffer.h:106-110 | pointing a node straight at its root keeps the representation |
| `MessageSets.UnionKeepsShape` | core/EmiReceiverBuffer.h:114-149 | linking two roots by rank keeps parent links, roots and ranks well formed |
| `MessageSets.RecordLast` | core/EmiReceiverBuffer.h:170-183 | registering a last part keeps the representation |
| `MessageSets.RecordMiddle` | core/EmiReceiverBuffer.h:170-183 | merging with the next number and registering a part that is not last keeps the representation |
| `MessageSets.CutKeepsShape` | core/EmiReceiverBuffer.h:220-229 | cutting above a number that is linked to nothing above it never separates a surviving node from its parent or root |
| `MessageSets.RemoveUpTo` | core/EmiReceiverBuffer.h:220-229 | what remains after the cut represents exactly the parts above it |
| `ReceiverBuffer.ProcessMessageSetData` | core/EmiReceiverBuffer.h:393-417 | the copying loop yields the concatenated data of the entries it passes, and its length assertions hold exactly when their total is the buffer size |
| `ReceiverBuffer.CrossChannelScan` | core/EmiReceiverBuffer.h:410-412 | with several channels the scan overruns the set, and the length assertion fires, if and only if the next entry's number is at or below the set's largest |
| `ReceiverBuffer.CrossChannelExample` | core/EmiReceiverBuffer.h:410-412 | a two-channel tree on which it does |
| `OrderedReceiver.Receiver.constructor` | core/EmiReceiverBuffer.h:682-683 | a new buffer stands for no accepted fragment |
| `OrderedReceiver.Receiver.BufferMessage` | core/EmiReceiverBuffer.h:339-364 | a new fragment that fits is accepted in the tree and in the sets alike, any other is left out of both; the byte count stays exact and within the size |
| `OrderedReceiver.Receiver.NextSet` | core/EmiReceiverBuffer.h:447-467 | the look-up reports the message that starts at the entry: whole with its size, or up to the first number that is missing |
| `OrderedReceiver.Receiver.EmitSet` | core/EmiReceiverBuffer.h:478-511 | exactly the payload of the fragments of the set is emitted; the length assertions never fire |
| `OrderedReceiver.Receiver.ProcessBuffer` | core/EmiReceiverBuffer.h:429-530 | emits exactly the whole messages that follow one another from the start of the buffer, and reports the last number it saw and the last whole message |
| `OrderedReceiver.Receiver.Remove` | core/EmiReceiverBuffer.h:367-380 | the first entries go, and the byte count is exact again |
| `OrderedReceiver.Receiver.RemoveProcessed` | core/EmiReceiverBuffer.h:571-581 | tree and sets forget exactly the same fragments, those of emitted messages |
| `OrderedReceiver.Receiver.FlushBuffer` | core/EmiReceiverBuffer.h:536-582 | afterwards the expected number is the first one not accepted, everything whole below it has been emitted, and an ack was enqueued exactly when a fragment was held where processing starts |
| `OrderedReceiver.Receiver.EmitAtOnce` | core/EmiReceiverBuffer.h:798-815 | the shortcut for an expected whole message does what buffering it would have done; if the application closes the connection, exactly that message has been handed over, everything behind it stays where it is and no further ack is enqueued |
| `OrderedReceiver.Receiver.BufferAndFlush` | core/EmiReceiverBuffer.h:816-820 | the ordinary path accepts the fragment unless it is known or refused |
| `OrderedReceiver.Receiver.Take` | core/EmiReceiverBuffer.h:786-820 | one arrival changes the accepted set as the simple description says, and enqueues exactly the second ack it names |
| `OrderedReceiver.Receiver.GotMessage` | core/EmiReceiverBuffer.h:693-822 | the same for the number on the wire, with both acks of the arrival and the truth of all acks while nothing expected was refused; the buffer stops as closed exactly when the application closes on an expected whole message, which is then the only one handed over, with its own ack alone |
| `OrderedReceiver.HeldIsTreeBytes` | core/EmiReceiverBuffer.h:345-358 | the bytes in the buffer are those of the accepted fragments that are not delivered yet |
| `OrderedReceiver.AcceptUnbuffered` | core/EmiReceiverBuffer.h:798-815 | accepting an expected whole message without buffering it leaves tree and sets in agreement and adds that message |
| `OrderedReceiver.StreamContinues` | core/EmiConn.h:406-444 | sending more changes nothing that the receiver's state says about what was sent before |
| `SequencedReceiver.EveryRunIsTruthful` | core/EmiReceiverBuffer.h:717-752 | over every run, the numbers of emitted messages strictly increase, each emitted message is the one sent up to that number, and the losses reported plus the fragments accepted equal the expected number minus the first |
| `SequencedReceiver.EmittedIffKept` | core/EmiReceiverBuffer.h:584-678 | over every run, a message is emitted if and only if each of its fragments was neither too old nor refused when it arrived |
| `SequencedReceiver.AdvanceIsTruthful` | core/EmiReceiverBuffer.h:717-752 | one arrival keeps these properties |
| `SequencedReceiver.StaysExact` | core/EmiReceiverBuffer.h:584-678 | one arrival keeps the open message and the emitted numbers in step with the fragments kept |
| `SequencedReceiver.Deliver` | core/EmiReceiverBuffer.h:693-822 | the buffer carries out every such run: what it emits, reports lost, refuses and holds after any arrivals is what the description says, with refusals decided by the bytes held |
| `SequencedReceiver.EveryReceiptIsTruthful` | core/EmiReceiverBuffer.h:584-678 | so over every run in which the buffer decides what is refused, both properties hold of what comes out |
| `SequencedReceiver.ReceiveAllIsRun` | core/EmiReceiverBuffer.h:339-364 | a run with a buffer of a given size is the run with the refusals of that buffer |
| `SequencedReceiver.NextHeldIs` | core/EmiReceiverBuffer.h:616-678 | what the code leaves in the tree after a part is what the description holds: the open message, and parts that continue nothing until it is cleared |
| `SequencedReceiver.FullUntilWhole` | core/EmiReceiverBuffer.h:339-364 | a buffer too full for any part emits nothing of split messages and keeps what it holds until a whole message arrives |
| `SequencedReceiver.Receiver.constructor` | core/EmiReceiverBuffer.h:682-683 | a new buffer is the start of a run |
| `SequencedReceiver.Receiver.GotMessage` | core/EmiReceiverBuffer.h:693-763 | one arrival takes the buffer exactly one step of the run: dropped when old, a loss reported for a gap, refused exactly when a part does not fit, and the tree holds the next state of the description |
| `SequencedReceiver.Receiver.ProcessWhole` | core/EmiReceiverBuffer.h:589-609 | a whole message is emitted at once and everything older is forgotten in both structures |
| `SequencedReceiver.Receiver.ProcessPart` | core/EmiReceiverBuffer.h:616-678 | a part is buffered if it fits, and completes its message exactly when it is the last one and all parts before it are held |
| `SequencedReceiver.Receiver.ProcessSet` | core/EmiReceiverBuffer.h:620-677 | the set's first part is found exactly when the message is still open; a whole message empties both structures, otherwise the open message is kept |
| `SequencedReceiver.Receiver.ProcessBuffer` | core/EmiReceiverBuffer.h:429-530 | here at most one message can be whole, and it is emitted exactly when the run ends with a last part |
| `SequencedReceiver.Receiver.NextSet` | core/EmiReceiverBuffer.h:447-467 | the sets report the run up to its end, whole if and only if its end is a last part |
| `SequencedReceiver.StoredOpen` | core/EmiReceiverBuffer.h:339-364 | after storing a newer part, the tree still ends with the parts of the open message |
| `SequencedReceiver.LookedUp` | core/EmiReceiverBuffer.h:620-660 | a first part is found for the arriving number exactly when a message is open, and then at the position where that message starts |
| `SequencedReceiver.SetOfRun` | core/EmiReceiverBuffer.h:190-210 | on this channel the summary of the run reaches its newest part, and is complete exactly when that is a last one |
| `SenderBuffer.SenderBuffer.MessageSearch` | core/EmiSenderBuffer.h:75-87 | finds the channel's first message at or above the number if there is one: it only looks forward |
| `SenderBuffer.SenderBuffer.RegisterReliableMessage` | core/EmiSenderBuffer.h:110-134 | fails and changes nothing exactly when the message does not fit; otherwise it is added unless its key is there, and enters the index exactly when its channel has no message at or above it |
| `SenderBuffer.RegisterKeepsOnePerChannel` | core/EmiSenderBuffer.h:63-63 | registering keeps the index at one message per channel if and only if the message is rejected, or its channel has one at or above it, or its channel has none |
| `SenderBuffer.TwoIndexedExample` | core/EmiSenderBuffer.h:75-87 | two messages sent in order on one channel are both indexed |
| `SenderBuffer.SenderBuffer.DeregisterReliableMessages` | core/EmiSenderBuffer.h:141-200 | removes exactly the channel's messages at or below the number if the channel has one at or above it, and otherwise nothing; the index loses exactly these, and if it lost any, gets the channel's first message from the number on |
| `SenderBuffer.DeregistersAsDocumented` | core/EmiSenderBuffer.h:136-174 | everything at or below the number goes if and only if the channel has a message at or above it, or none at or below it anyway |
| `SenderBuffer.LaterNumberRemovesNothing` | core/EmiSenderBuffer.h:141-149 | the failing input: a channel's only message stays when a later number is deregistered |
| `SenderBuffer.OutstandingBytes` | core/EmiSenderBuffer.h:110-134 | numbers of a channel that are outstanding together fit into the buffer together |
| `SenderBuffer.SenderBuffer.Reindex` | core/EmiSenderBuffer.h:196-199 | the channel's first message from the number on is indexed, and nothing else changes |
| `SenderBuffer.SenderBuffer.CollectDown` | core/EmiSenderBuffer.h:152-174 | the downward walk collects each of these messages once |
| `SenderBuffer.SenderBuffer.RemoveAll` | core/EmiSenderBuffer.h:178-194 | both trees lose exactly these messages and the byte count stays exact |
| `SenderBuffer.SenderBuffer.Empty` | core/EmiSenderBuffer.h:202-204 | empty exactly when nothing is unacknowledged, although only the index is looked at |
| `SenderBuffer.SenderBuffer.EachCurrentMessage` | core/EmiSenderBuffer.h:207-250 | visits exactly the indexed messages at least one RTO old, once each and oldest first, and stamps exactly those with the current time |
| `SenderBuffer.RegisterAgrees` | core/EmiSenderBuffer.h:118-131 | registering keeps the index a subset that holds the newest message of every channel, whether or not the message is indexed |
| `SenderBuffer.DeregisterAgrees` | core/EmiSenderBuffer.h:176-199 | so does deregistering: the newest message that a channel keeps is still indexed before line 198 indexes another |
| `SenderBuffer.NewestSurvives` | core/EmiSenderBuffer.h:141-200 | the newest message of a channel that keeps any is not removed |
| `SenderBuffer.Restamp` | core/EmiSenderBuffer.h:231-249 | taking a message out of the time order, changing its time and putting it back keeps the trees in agreement |
| `SenderBuffer.Collected` | core/EmiSenderBuffer.h:147-174 | the entries passed on the way down are those to be deregistered, none is missed on either side |
| `Connection.Connection.constructor` | core/EmiLogicalConnection.h:172-229 | a client starts with its SYN as the one reliable message outstanding, a server answers with SYN-RST that is not; nothing else has happened yet |
| `Connection.Connection.SendInitMessage` | core/EmiLogicalConnection.h:203-229 | enqueues SYN with the cookie reliably, or SYN-RST unreliably |
| `Connection.Connection.EnqueueData` | core/EmiConn.h:363-451 | enqueues all parts with consecutive numbers, registered if reliable, or nothing exactly when they do not fit; a passed room check makes every registration succeed |
| `Connection.Connection.EnqueueControl` | core/EmiConn.h:319-349 | a control message is enqueued and registered unless it does not fit |
| `Connection.Connection.EnqueueCloseMessageIfEmptySenderBuffer` | core/EmiConn.h:99-106 | an RST is enqueued exactly when nothing is outstanding and there is room for it |
| `Connection.Connection.DeregisterReliableMessages` | core/EmiConn.h:296-313 | what is left is outstanding, or the RST if closing and nothing is left; a forced close is scheduled exactly when there is no room for the RST |
| `Connection.Connection.ReleaseReliableHandshakeMsg` | core/EmiLogicalConnection.h:99-104 | the handshake message, and nothing else, is no longer outstanding |
| `Connection.Connection.SendNumbered` | core/EmiLogicalConnection.h:513-561 | the parts get the channel's next numbers and the memo moves past them; on a RELIABLE_SEQUENCED channel they replace the earlier messages, also when the memo is zero and the subtraction wraps, and the number after them becomes the reference for acks |
| `Connection.Connection.EnqueueParts` | core/EmiLogicalConnection.h:513-541 | the parts are enqueued under the channel's next numbers and the memo moves past them, or nothing changes exactly when they do not fit |
| `Connection.Connection.Send` | core/EmiConn.h:697-706 | accepted exactly when open, not closing, not empty, and with room if reliable; then what is queued is put together again by the other host to exactly the data, under the channel's next numbers; a rejected send changes nothing |
| `Connection.PartsCarry` | core/EmiConn.h:395-431 | the queued parts of a message are reassembled to it, and to nothing else |
| `Connection.Connection.Close` | core/EmiConn.h:646-663 | cancels the handshake, reports an unopened connection once, and enqueues the RST at once exactly when nothing else is outstanding |
| `Connection.Connection.ForceClose` | core/EmiConn.h:225-242 | exactly one disconnect event, and the open callback with an error if it has not fired |
| `Connection.Connection.GotOrderedAck` | core/EmiReceiverBuffer.h:778-781 | forgets what the unwrapped ack covers; the last ack while closing brings the RST |
| `Connection.Connection.GotReliableSequencedAck` | core/EmiLogicalConnection.h:503-508 | the ack of the newest number sent on the channel leaves nothing of the channel outstanding, unless that number is the last one of its block of 2^24: then nothing changes |
| `Connection.NewestAck` | core/EmiLogicalConnection.h:503-508 | unwrapped against the reference kept, the ack of the newest number sent removes all messages of the channel and no others if that number is not the last of its block, and otherwise none |
| `Connection.RefsAfterSend` | core/EmiLogicalConnection.h:549-558 | sending on a RELIABLE_SEQUENCED channel keeps the reference of every such channel with messages outstanding one past its newest number |
| `Connection.Connection.GotSynRst` | core/EmiLogicalConnection.h:411-442 | opens exactly once, releases the SYN, and a P2P connection answers with a reliable PRX-ACK; the code's assertion holds if and only if there is room for that once the SYN is released |
| `Connection.NoRoomExample` | core/EmiLogicalConnection.h:430-436 | the assertion can fail: PRX has released the SYN, and the application has filled the buffer while it waits |
| `Connection.Connection.GotSynAgain` | core/EmiConn.h:455-468 | a SYN that arrives again at a server makes the SYN-RST go out once more and changes nothing else |
| `Connection.Connection.GotPrx` | core/EmiLogicalConnection.h:240-251 | releases the handshake message of a P2P connection and is ignored by others |
| `Connection.Connection.GotPrxRstSynAck` | core/EmiLogicalConnection.h:275-293 | releases the handshake message unless the length is wrong |
| `Connection.Connection.RtoTimeout` | core/EmiConn.h:533-542 | queues again exactly the outstanding messages that are at least one RTO old, once each |
| `Connection.PartBytesStep` | core/EmiConn.h:395-404 | the parts take together exactly the room that was checked for the whole message |
| `SendQueue.Iterator.CurrentPriority` | core/EmiSendQueue.h:133-160 | the first ready priority, or if none is ready the lowest with anything left, or none exactly when all queues are exhausted |
| `SendQueue.NextIsUnique` | core/EmiSendQueue.h:133-160 | that rule determines the priority |
| `SendQueue.Iterator.IsAtEnd` | core/EmiSendQueue.h:200-202 | at the end exactly when every queue is exhausted |
| `SendQueue.Iterator.Next` | core/EmiSendQueue.h:162-198 | serves the next unserved message of that priority and keeps the weights |
| `SendQueue.StepKeepsFair` | core/EmiSendQueue.h:142-154 | at every point, between neighbouring priorities at most two to one plus two have been served unless everything lower is exhausted, and at least two to one unless the higher is |
| `SendQueue.IterateAll` | core/EmiSendQueue.h:162-202 | a full iteration serves every message once, in order within its priority, and each in its turn: when every higher priority with anything left has had exactly its share, two for each message of the next one and two more, and its own has not unless nothing lower is left |
| `SendQueue.OneOrder` | core/EmiSendQueue.h:133-160 | these weights leave one order only: any two series of messages that are all in turn agree as far as they go |
| `SendQueue.NextIsInTurn` | core/EmiSendQueue.h:142-154 | what the iterator's rule picks is in turn |
| `SendQueue.SendQueue.Push` | core/EmiSendQueue.h:260-268 | appends to one priority; the byte count is the sum of the sizes |
| `SendQueue.SendQueue.Empty` | core/EmiSendQueue.h:256-258 | empty exactly when all queues are |
| `SendQueue.SendQueue.EraseUntil` | core/EmiSendQueue.h:207-228 | removes exactly what the iterator has served |
| `SendQueue.PendingIsNewest` | core/EmiSendQueue.h:699-711 | the ack kept for a channel is one of those enqueued, and the newest of them, in whatever order they came, if they span at most half the range |
| `SendQueue.BytesSentTheLastNTicks.SendData` | core/EmiSendQueue.h:90-93 | adds to the current tick of the whole history |
| `SendQueue.BytesSentTheLastNTicks.BytesSent` | core/EmiSendQueue.h:95-97 | exactly the bytes of the current tick and the Num - 1 before it, after any interleaving |
| `SendQueue.BytesSentTheLastNTicks.BytesSentSinceLastTick` | core/EmiSendQueue.h:99-101 | exactly the bytes of the current tick |
| `SendQueue.BytesSentTheLastNTicks.Tick` | core/EmiSendQueue.h:103-107 | starts a tick; the subtraction never underflows |
| `SendQueue.DropOldest` | core/EmiSendQueue.h:103-107 | moving the window drops exactly its oldest tick |
| `Mediator.CookieLifetime` | core/EmiP2PSock.h:78-142 | a cookie is accepted, with its own complementary flag, exactly in the period it was made in and the next: always for five minutes, never after ten |
| `Mediator.P2PConn.GotOtherAddress` | core/EmiP2PConn.h:225-240 | the second peer joins a connection that has one, with the random number it presented equal to the first one's and the opposite flag, and each peer is sent the other's initial number |
| `Mediator.P2PConn.SendSynRst` | core/EmiP2PConn.h:119-126 | a SYN-RST to one peer carries the initial number of the other |
| `Mediator.P2PConn.RtoTimeout` | core/EmiP2PConn.h:267-271 | the SYN-RSTs go again to exactly the peers that have not answered |
| `Mediator.P2PConn.GotInnerAddress` | core/EmiP2PConn.h:278-288 | sets the inner endpoint of exactly the peer that sent it; the index assertion holds |
| `Mediator.P2PConn.ForwardPacket` | core/EmiP2PConn.h:204-223 | forwards exactly when the sender is one of two joined peers and the rate limit allows, to the other one; never more than the limit between timeouts, and held back bytes count |
| `Mediator.P2PConn.RateLimitTimeout` | core/EmiP2PConn.h:128-132 | starts a new rate limit period |
| `Mediator.P2PSock.ListedUnderPeers` | core/EmiP2PSock.h:144-225 | a live connection is listed under exactly its non-nil peer addresses |
| `Mediator.P2PSock.RemoveConnection` | core/EmiP2PSock.h:272-280 | the maps lose the connection's addresses and whatever stands under its number; every connection that waits is still found afterwards if and only if no other one stood there |
| `Mediator.P2PSock.OwnsUnlessReused` | core/EmiP2PSock.h:272-280 | another connection stands there exactly when two peers have joined and the number has been used again, which distinct numbers rule out |
| `Mediator.LostPeer` | core/EmiP2PSock.h:184-217 | a run from the start, with any pair of good cookies, in which removing a joined connection hides a waiting one, whose second peer then opens a connection of its own |
| `Mediator.ReuseNumber` | core/EmiP2PSock.h:187-193 | its first half: the first peer's SYN, arriving again from another address after the join, opens a second connection under the same number |
| `Mediator.P2PSock.GotConnectionOpen` | core/EmiP2PSock.h:149-224 | the new maps in every case: bad cookie, known peer, stale peer, second peer, repeated cookie, new peer; whoever waits is found as before unless a stale connection is removed whose number another one has; numbers stay distinct unless one in use is used again |
| `Mediator.P2PSock.DropStale` | core/EmiP2PSock.h:164-173 | the peer's connection, unless it was opened with another initial number: then it is removed, with the same exact condition for those that wait |
| `Mediator.P2PSock.JoinOrCreate` | core/EmiP2PSock.h:178-217 | an unknown peer with a valid cookie joins the waiting connection exactly if it has the opposite flag, is ignored if it has the same, and otherwise opens one that records its flag; whoever waits is found as before |
| `Mediator.P2PSock.Join` | core/EmiP2PSock.h:184-204 | the waiting connection has two peers that presented the same number, and its cookie is forgotten |
| `Mediator.P2PSock.AddPeer` | core/EmiP2PSock.h:202-217 | the second peer is listed and told, and every invariant of the maps holds again |
| `Mediator.P2PSock.Create` | core/EmiP2PSock.h:206-217 | a fresh connection, with the mediator's rate limit and nothing sent, waits under its number and records the flag presented; numbers stay distinct if and only if no live connection has this one |
| `Mediator.P2PSock.GotConnectionOpenAck` | core/EmiP2PSock.h:433-449 | records the inner address of exactly that peer, and reports whether both are known; otherwise nothing changes |
| `Mediator.P2PSock.GotPacket` | core/EmiP2PSock.h:452-456 | a packet goes to the peer its sender was joined with, exactly when there is one and the mediator's rate limit allows, or nowhere; no other connection's account changes |
| `Mediator.P2PSock.WithinLimit` | core/EmiP2PConn.h:107-112 | no live connection forwards more than the mediator's rate limit between two rate limit timeouts |
| `Mediator.P2PConn.constructor` | core/EmiP2PConn.h:159-190 | a new connection has one peer and no second cookie, nothing is acknowledged or sent, and it has the limit it is given |
| `Mediator.P2PSock.GotSynRstAck` | core/EmiP2PSock.h:474-493 | the packet is passed on to the other peer if there is one and the mediator's rate limit allows, then the sender's connection is removed, with the same exact condition for those that wait |
| `Mediator.P2PSock.GotPrxRst` | core/EmiP2PSock.h:495-508 | the sender's connection is removed, with that condition, and the sender gets a PRX-RST-ACK whether there was one or not |
| `Mediator.P2PSock.ConnectionTimeout` | core/EmiP2PConn.h:137-140 | the connection is removed, with that condition |
| `LossList.EveryRunIsExact` | core/EmiLossList.cc:20-132 | over every run in which no late packet lands inside a lost range, the ranges are disjoint, not empty, below the newest number and hold exactly the skipped numbers newer than the last NAK, and NAKs strictly increase |
| `LossList.EveryRunIsDocumented` | core/EmiLossList.h:19-28 | the documented invariant holds, with nothing listed at or below the last NAK, all along a run if and only if no arrival on it lists a gap that meets a listed range or starts at or below the last NAK; then NAKs strictly increase |
| `LossList.ArrivalKeepsDisjoint` | core/EmiLossList.h:57-59 | one arrival keeps the ranges disjoint if and only if it does not list a gap that meets a listed range above the newest number |
| `LossList.ArrivalKeepsNewer` | core/EmiLossList.h:26-28 | one arrival puts a number at or below the last NAK on the list if and only if it lists a gap that starts there |
| `LossList.ArrivalKeepsDocumented` | core/EmiLossList.h:57-59 | both together, as one condition on the arrival |
| `LossList.NakKeepsDocumented` | core/EmiLossList.cc:98-132 | a NAK is newer than the last one and keeps both |
| `LossList.InsertDisjoint` | core/EmiLossList.h:57-59 | inserting a range by its newest number keeps the set disjoint if and only if the key is taken or the range meets none of the others |
| `LossList.DueIsReversed` | core/EmiLossList.cc:105-105 | the test for feedback is true exactly when the documented one is false |
| `LossList.ArrivalKeepsExact` | core/EmiLossList.cc:41-96 | one arrival keeps the exact account of the run if and only if it does not fill a gap; filling one removes exactly the arrived number, leaves the ranges disjoint, and moves the newest number backwards |
| `LossList.NakKeepsExact` | core/EmiLossList.cc:98-132 | a NAK names a missing number newer than every earlier NAK |
| `LossList.NaksCanGoBackwards` | core/EmiLossList.cc:46-80 | after a filled gap the documented invariant and promise fail: a run in which ranges overlap and the NAKs are 3, 4, 3 |
| `LossList.FillGap` | core/EmiLossList.cc:63-80 | splitting a range around a number removes exactly that number |
| `LossList.FillIsPieces` | core/EmiLossList.cc:69-80 | erasing a range and inserting its pieces by key puts them in its place |
| `LossList.AfterNakInPlace` | core/EmiLossList.cc:105-121 | the older ranges and the NAKed number go, everything newer stays |
| `LossList.InsertSorted` | core/EmiLossList.h:46-50 | inserting by the newest number keeps the set ordered |
| `LossList.LossList.GotPacket` | core/EmiLossList.cc:20-96 | the method computes the step of these runs |
| `LossList.LossList.CalculateNak` | core/EmiLossList.cc:98-132 | the reverse loop returns the wrapped oldest number of the newest range that is due, as the code tests it, or -1, and leaves the rest of that range with one feedback more, at the present time |
| `LossLedger.EveryRunIsLedger` | core/EmiLossList.cc:20-132 | over every run on which the ranges stay disjoint, the NAKs are those of an account kept number by number: a number is NAKed exactly when it is the oldest of the newest group whose last NAK or listing lies less than rtt * (2 + count) back, with the count of NAKs since it was listed or cut off by an arrival |
| `LossLedger.LedgerExists` | core/EmiLossList.cc:20-132 | every such run has such an account |
| `LossLedger.ArrivalRefines` | core/EmiLossList.cc:20-96 | an arrival lists a gap with the time, or splits a group: the older numbers keep time and count, the newer ones start to count again |
| `LossLedger.NakRefines` | core/EmiLossList.cc:98-114 | the range that the reverse loop finds is the newest group that awaits a NAK, and its oldest number is the only one that may be fed back |
| `LossLedger.FeedbackRefines` | core/EmiLossList.cc:107-127 | what is not newer is given up, and the rest of the group waits from now, with one NAK more |
| `LossList.SecondNakExample` | core/EmiLossList.cc:105-114 | 1 to 9 are lost at time 0: NAK 1 at 1.5, NAK 2 at 4.0, and none at 4.5 |
| `Bytes.Read24Inverts` | core/EmiNetUtil.h:54-65 | reading back a written number gives it modulo 2^24 |
| `Bytes.Bytes24Inverts` | core/EmiNetUtil.h:54-65 | writing a number that was read gives the same three bytes |
| `Bytes.Write24` | core/EmiNetUtil.h:61-65 | stores exactly three bytes |
| `MessageWire.LoopRoundTripExact` | core/EmiMessageHandler.h:311-338 | with every message accepted, taking a printed list of messages apart gives the same headers and payloads if and only if every message is sendable |
| `MessageWire.LoopRoundTrip` | core/EmiMessageHandler.h:311-338 | a list of sendable messages is handed on up to the first that is not accepted, wherever it stands in the datagram |
| `MessageWire.MessageRoundTrip` | core/EmiMessageHeader.cc:13-79 | one printed message, whatever surrounds it, parses to itself if and only if its length fits, it has no SACK, it carries an ack exactly when its flags will say so, and it is not an empty PRX-SYN |
| `MessageWire.ReprintExact` | core/EmiMessageHeader.cc:13-51 | for arbitrary bytes, printing a parsed message gives the bytes back if and only if it is not an empty PRX-SYN |
| `MessageWire.SentFormsAreSendable` | core/EmiMessage.h:110-162 | every form the library sends is sendable |
| `MessageWire.WireFlagsSetsAck` | core/EmiMessage.h:125-125 | setting the ack flag changes no other flag |
| `MessageWire.WriteMsg` | core/EmiMessage.h:110-162 | writes exactly the printed message and touches nothing else, or returns 0 exactly when fewer than one byte more than its length is left |
| `MessageWire.ParseNextMessage` | core/EmiMessageHeader.cc:53-79 | the offset never passes the end of the buffer and never goes back; a SACK message is skipped but refused |
| `MessageWire.MessageLoop` | core/EmiMessageHandler.h:311-338 | the loop ends on arbitrary bytes with the offset inside the buffer, having handed on the messages of the specification |
| `PacketHeader.HeaderRoundTrip` | core/EmiPacketHeader.cc:81-248 | any header without the extra flags bit, with any subset of the optional fields and followed by arbitrary bytes, parses to itself and to exactly the written length |
| `PacketHeader.HeaderRoundTripExact` | core/EmiPacketHeader.cc:16-67 | for given flags all headers survive if and only if the extra flags bit is clear or there is no field: the filler size is looked up in the wrong byte, and the writer does not step over it |
| `PacketHeader.DatagramRoundTrip` | core/EmiMessageHandler.h:286-338 | a header and a list of sendable messages printed behind one another are received as that header and that list, and a header alone as a heartbeat, unless the connection is known and does not take the address: then nothing is received |
| `PacketHeader.ShortDatagram` | core/EmiMessageHandler.h:286-338 | a header followed by fewer bytes than any message has is refused as too short |
| `PacketHeader.HeaderExample` | core/EmiPacketHeader.cc:81-186 | the bytes of a header with the three numbers and a link capacity |
| `PacketHeader.RatesExample` | core/EmiPacketHeader.cc:81-186 | the bytes of a header with both rates and an RTT response |
| `PacketHeader.OneNumberExample` | core/EmiPacketHeader.cc:81-186 | the flags that announce a sequence number, an ack and a NAK |
| `PacketHeader.OneRateExample` | core/EmiPacketHeader.cc:81-186 | the flags that announce a link capacity and an arrival rate |
| `PacketHeader.FillerExample` | core/EmiPacketHeader.cc:41-55 | with the extra flags bit, the flag of the sequence number brings a filler byte, and that of the NAK none |
| `PacketHeader.LongFillerExample` | core/EmiPacketHeader.cc:41-55 | and the flag of the ack brings a filler with a length of its own |
| `MessageWire.MessageExample` | core/EmiMessage.h:110-162 | the bytes of the last part of a split message, with an ack |
| `MessageWire.ControlExample` | core/EmiMessage.h:110-162 | the bytes of control messages: the channel is printed as 0, and an empty one has a number only with SYN and without PRX |
| `MessageWire.ParseExample` | core/EmiMessageHeader.cc:13-51 | which flags announce a number and an ack: ACK alone, with SYN or with RST does, with both or with PRX it does not |
| `Transport.DataTravels` | core/EmiConn.h:395-431 | a data message that a connection queues, printed anywhere in a datagram with an ack or without, arrives on its channel as the fragment that was sent, under the wrapped number |
| `Transport.QueuedTravels` | core/EmiMessageHandler.h:107-259 | every message that a connection queues survives printing and parsing, and its flags lead to the call it is for: at the other host, or at the mediator for a SYN with a cookie and a PRX-ACK; the wrong one of the two refuses it or passes it on |
| `Transport.MessageHeaderSize` | core/EmiMessage.h:83-87 | the room counted for a message header is always enough, and is all taken exactly by a message with number and ack |
| `Transport.PacketHeaderSize` | core/EmiTypes.h:26-26 | a packet header is within the 21 bytes allowed for it if and only if it does not have all six optional fields |
| `Transport.PartFitsMtu` | core/EmiConn.h:377-380 | behind a given packet header every part fits into a datagram of the minimal MTU if and only if that header does not have all six fields |
| `PacketHeader.FieldsRoundTrip` | core/EmiPacketHeader.cc:135-183 | reading the optional fields where they were written gives them back, and zero for absent ones |
| `PacketHeader.Write` | core/EmiPacketHeader.cc:188-248 | writes exactly the printed header and touches nothing else, or fails exactly when the buffer is too small |
| `PacketHeader.Read` | core/EmiPacketHeader.cc:81-186 | the cursor finds every field where the specification says |
| `PacketHeader.OnMessage` | core/EmiMessageHandler.h:286-338 | a datagram is a bad header, one from an invalid address, a heartbeat, too short, or its header and the messages behind it, in that order of tests |
| `NetUtil.SignedIsBalancedResidue` | core/EmiNetUtil.h:36-45 | the signed difference is the one residue of a - b modulo 2^24 - 1 between -(2^23 - 1) and 2^23 - 1 |
| `NetUtil.SignedIsAntisymmetric` | core/EmiNetUtil.h:36-45 | swapping the arguments negates it, on all 24 bit inputs |
| `NetUtil.CyclicMaxIsMax` | core/EmiNetUtil.h:47-51 | the cyclic maximum is the larger number if and only if the two are at most half the range apart, or are 0 and 2^24 - 1 |
| `NetUtil.UnwrapExact` | core/EmiReceiverBuffer.h:703-715 | the receiver's and the loss list's guess is the number sent if and only if that lies in the expected one's block of 2^24 numbers and in a window around it |
| `NetUtil.UnwrapFailsAcrossBlocks` | core/EmiReceiverBuffer.h:703-715 | across a block boundary the guess is off by one |
| `NetUtil.AckUnwrapExact` | core/EmiLogicalConnection.h:486-501 | of the numbers at or below the reference, exactly those of its own block are recovered from an ack |

## Left out

- OrderedReceiver.Receiver.GotMessage: is stated for a buffer that serves one channel; the copying loop does not compare channels, and `ReceiverBuffer.CrossChannelScan` gives the exact condition under which that matters.
- OrderedReceiver.Receiver.GotMessage: requires the number sent to lie in the receiver's window and the channel's numbers to stay inside one block of 2^24, which is where unwrapping is exact.
- OrderedReceiver.Receiver.GotMessage: the application's callback may close the connection in the shortcut for expected whole messages, where the code looks for it; a callback that closes or re-enters the buffer while it is being flushed is not modelled.
- OrderedReceiver.Receiver.GotMessage: an ack that a data fragment carries is handled by the sender before the buffer is looked at, which is a call of `Connection.Connection.GotOrderedAck` beforehand; a message with SACK is refused when it is parsed and never gets here.
- EndToEnd.EveryRunConserves: has no step for an expected fragment that a full receive buffer refuses, because the property is false with it.
- EndToEnd.NextOk: closing by force is no step; it drops both ends' state and promises no delivery.
- EndToEnd.DeliverOk: like every delivery step, is for copies in the receiver's window. For fragments from the expected number on that follows from the size of the sender's buffer (`Session.Session.InFlightInWindow`), so that only copies at least 2^23 numbers too old are left out.
- Session.Session.Deliver: leaves out the same copies; the receiver's application closing the connection in its callback is in `OrderedReceiver.Receiver.GotMessage` only.
- SequencedReceiver.Receiver.GotMessage: fragments carry neither SACK nor ack flags, and messages without data, which only move the expected number, do not occur.
- SequencedReceiver.Receiver.GotMessage: requires the number sent to lie in the receiver's window and the channel's numbers to stay inside one block of 2^24; one channel.
- SequencedReceiver.Deliver: takes arrivals that the receiver unwraps to the number sent, for the same reason.
- OrderedRuns.Deliver: takes arrivals that the receiver unwraps to the number sent; a number outside the window is taken for another one.
- Connection.Connection.SendNumbered: requires the channel's number to stay below 2^64.
- Connection.Connection.GotPrxRstSynAck: starting the NAT punchthrough, which is not modelled, is not recorded.
- Connection.Connection.GotSynRst: the application's callback does nothing to the connection; sending or closing from inside it is not modelled.
- Connection.Connection.GotSynAgain: is for server connections, which the code asserts, and for a SYN with the number already known or a connection that is closing; another number closes an open connection by force.
- Connection.Connection.Close: a sender buffer smaller than one message header cannot hold the RST; then close fails or a forced close is scheduled, and the connection can be closing with nothing outstanding.
- Mediator.CookieLifetime: takes the keyed hash to be free of collisions; cookies of the wrong length, which the code rejects, do not occur.
- LossLedger.EveryRunIsLedger: is for runs on which the ranges stay disjoint (the exact condition is in `LossList.EveryRunIsDocumented`); on others a number can be in two ranges at once, which an account by number cannot show.
- Transport.QueuedTravels: which call a message leads to is a function of its flags and length; the tests of the connection's state in front of the calls (no connection, unexpected remote host, not opening) are not modelled.
- MessageWire.MessageLoop: whether a message is accepted is a function of its position, standing for the dispatch to the connection.
- PacketHeader.OnMessage: whether a known connection takes the inbound address, and whether the datagram is from its remote host, are parameters; what the connection does with the header is its round-trip bookkeeping.
- SendQueue.IterateAll: iterates to the end; the packet size limit that can stop the loop early is part of filling packets, below.
- RELIABLE_SEQUENCED channels on the receive side: the memo at core/EmiReceiverBuffer.h:612 stores the number received and not its successor, so delivery there is not free of duplicates.
- UNRELIABLE channels on the receive side, which keep no order to prove.
- Filling packets (core/EmiSendQueue.h:387-541): the piggy-backed ack at line 452 is the value of a boolean expression, and the iterator moves before the message is found not to fit, so acks are modelled as sent on their own and the iterator is modelled by itself.
- Filler bytes and packet pairs (core/EmiPacketHeader.cc:260-299), for the reason given above.
- Congestion control, link capacity, data arrival rates and round-trip times, which are floating point heuristics.
- Timers: a timeout is a call that may come at any time. Random numbers are arbitrary inputs.
- NAT punchthrough contents, heartbeats, address layouts and sockets.
- Reference counts, ownership, destructors and allocation; entries of trees are values.
- 64 bit counters are unbounded where no wrap-around is named.
