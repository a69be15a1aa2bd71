# libwq: a verified model of the work queue and its companions

This project models, in Dafny, the parts of the library in which something can go wrong
silently, and proves what they promise.

**The bounded work queue** (`WorkQueue`, `Fifo`, `Queue*`).  `WQ_send` and `WQ_recv` are a
labelled transition system: any number of sends, one receiver, a program counter per call,
counting semaphores, a mutex with an owner.  Every statement that touches shared memory or a
synchronisation object is a step of its own, so tokens posted outside the mutex are in
flight between steps.  One inductive invariant relates every reachable state to a plain
queue; from it follow order, exactness, loan stability, conservation of tokens and
acknowledgements, absence of deadlock, progress, and draining on close with and without
sends under way.  `WorkQueueObject` is the same queue as an object with arrays, cursors and
flag bytes; each of its methods is proved to be a run of the transition system.

**The transcoders and the hexadecimal routines** (`Transcoding*`, `Hex`): loops over byte
arrays, each tied to a function on sequences, and the round trips between those functions.

**The tree and the double list** (`TreeShape`, `Tree`, `DoubleList`): nodes in memory, edited
in place, against forests and sequences.

**The alarm pass and the receive buffer of a network host** (`AlarmTimes`, `HostAlarms`,
`ReceiveWindow`, `ReceiveSeen`) and **the debug heap** (`PageLayout`, `PageList`, `GuardedHeap`): objects
edited in place, with what whole runs of them amount to.

`Basics` holds bytes, 32-bit arithmetic and facts about sequences.

## Where the code does not keep its promise

Each of these is part of a contract or a lemma; where a promise fails, the exact condition
under which it is kept is proved.

- Closing a queue while a send is under way can leave a record behind that nobody receives:
  the loop of `WQ_close` finds nothing, ends, and the send then inserts
  (`QueueClosing.RecordLeftBehind`, and from every state with a send under way
  `QueueClosing.CanLeaveRecord`).  Closing drains the queue, and leaves no record, in every
  case exactly when no send can still post one (`QueueClosing.DrainsExactly`).
- A blocking `WQ_send` can return although its own record has not been delivered: the
  acknowledgement semaphore belongs to the slot, and a later send on the same slot can take
  the token of an earlier one (`QueueAcks.AcknowledgementTakenByLaterSend`).  It can happen
  exactly when another send is still waiting on the same slot
  (`QueueAcks.EarlyReturnExactly`).
- A character of three UTF-8 bytes is decoded with `sbyte & 0x3c >> 2`, which groups as
  `sbyte & (0x3c >> 2)`.  A unit of 0x800 or more survives the round trip through UTF-8
  exactly when its middle six bits are 0, 21, 42 or 63
  (`TranscodingTheorems.RoundTripExactly`); the Euro sign does not (`EuroSignIsLost`).  UTF-8
  text comes back through UTF-16 exactly when it is in shortest form and the middle byte of
  every sequence of three has such bits (`TranscodingTheorems.Utf8ComesBack`).
- By the same grouping the characters U+0800 and U+0C00 become the terminator, and the text
  silently ends there (`TranscodingTheorems.NothingAfterU0800`).  Text in shortest form
  arrives whole exactly when it has neither (`TranscodingTheorems.ArrivesWholeExactly`).
- A character of four UTF-8 bytes is taken for one of three and another of two, so at the end
  of a text the decoder passes over the terminator
  (`TranscodingTheorems.FourBytesPassTheEnd`).
- The length pass of the UTF-16 routines announces 0 for a text without characters, although
  the copy pass then writes a terminator (`TranscodingTheorems.TwoPassesAgreeUtf16`).
- A length that is given to a copy routine is compared with the announced one, in 32 bits.
  It keeps the copy inside a destination of that length exactly when the bytes needed fit 32
  bits or the announced length wraps to 0 (`TranscodingTheorems.ProtectsUtf16`,
  `ProtectsUtf8`).
- The copy into UTF-8 writes no terminator, although the hexadecimal parser takes the length
  of such a text with `strlen` (language.c:588-593).  A reader finds the end of the text
  exactly when the destination has a byte behind it and that byte was zero before; a
  destination of just the announced length has no end (`TranscodingTheorems.EndsExactly`).
- The hexadecimal printer overruns its local buffer exactly when the length of the text wraps
  32 bits (`Hex.Print`).  The parser goes wrong on a text of less than 2^32 characters
  exactly when only the wrapped length is the wanted one and no character before the end of
  the text stops it (`Hex.JudgedExactly`); its test of the length is right for all such texts
  exactly when twice the number of bytes, and the prefix, fit 32 bits
  (`Hex.LengthTestExactly`).  The parser reports success when it is given no text, no
  destination or no length (`Hex.Parse`), and it does not look at the two characters of an
  announced prefix.
- Taking out the only element of a double list dereferences null
  (`DoubleList.List.Unlink`).
- A receive buffer of odd size loses the last received byte each time it is full.  The
  buffered bytes are always the latest of the stream exactly for even sizes and for size one
  (`ReceiveWindow.LatestExactlyForEvenSizes`).
- The decoder is shown the front of the receive buffer, but only as many bytes as have just
  arrived.  It sees all that is buffered exactly when nothing was buffered before
  (`ReceiveSeen.SeesAllExactly`), and bytes can be given up that it was never shown
  (`ReceiveSeen.FourthByteUnseen`).  Over a run, none is exactly when every turn took out no
  more than had been shown (`ReceiveSeen.NoneGoneUnseenExactly`).
- The alarm pass can miss an alarm that it looks at a whole round of the tick counter or more
  after it was started; exactly when is said by `AlarmTimes.RightAboutDueExactly`.  Passes
  that come in time never do (`AlarmTimes.NeverWraps`).  An alarm of 0xffffffff ticks makes
  the host wait without limit (`AlarmTimes.WaitsForTheNext`).

## Assumptions

- One thread receives, as the framework does it (NetGroup.c:331-352).
- A send's byte count is that of its record and at most the element size; the code does not
  check it.
- A wait without limit does not fail.  A wait with a limit fails only at a moment when the
  semaphore is at zero.  Semaphore counts have no maximum, as in the POSIX branch of
  Platform.c:107-116, which ignores the one it is given.
- The machine is little-endian where the transcoders load 16-bit units, and an `unsigned`
  has 32 bits.
- The little-endian and the big-endian transcoders are separate routines in the code, alike
  but for the order of the two bytes of a unit.  The model has one method for both, with the
  byte order as a parameter; that they agree in everything else is read off the code, not
  proved.
- The callbacks of alarms leave the alarm list alone, those that match and clear nodes leave
  the links of other nodes alone, and the decoder only reads the buffer.
- The copy of overlapping ranges with `memcpy` (NetGroup.c:184-203) moves the bytes as if they
  were read before any is written.
- A caller who states the length of a destination of the hexadecimal routines has that much
  room.
- `memalign` gives memory that is aligned, does not wrap round the address space and does not
  overlap a live block; sizes do not overflow 32 bits.

## Model

| member | source | states |
|---|---|---|
| WorkQueue.StepSend | WQ.c:196-223 | one statement of a send in progress, keeping indices and buffer sizes in range |
| WorkQueue.StepRecv | WQ.c:148-182 | one statement of the receiver in its call, keeping indices and buffer sizes in range |
| WorkQueue.Apply | WQ.c:139-224 | the calls, steps and expired waits of all threads, keeping indices and buffer sizes in range; what a call does with its arguments is said by QueueCalls |
| WorkQueue.Exec | WQ.c:139-224 | any interleaving; the ring never changes its length or element size |
| Fifo.AcceptedIsFifo | WQ.c:139-224 | a history the plain queue accepts delivers the front of what was inserted, byte for byte and in order, and releases the front of what was delivered, one loan at a time |
| QueueInvariant.InitInv | WQ.c:3-66 | the newly opened queue satisfies the invariant |
| QueueSendSteps.SendKeeps | WQ.c:196-223 | every statement of a send keeps all parts of the invariant, and is one the plain queue allows |
| QueueRecvSteps.RecvKeeps | WQ.c:148-182 | every statement of the receiver keeps all parts of the invariant, and is one the plain queue allows |
| QueueTheorems.CallKeeps | WQ.c:139-199 | starting a call and giving up a wait keep the invariant |
| QueueTheorems.RunRefines | WQ.c:139-224 | refinement: after any interleaving the plain queue has accepted the history and the ring represents its state |
| QueueTheorems.DeliversInOrder | WQ.c:139-224 | records are delivered in the order of the sends' critical sections, exact bytes and count, none lost, repeated or reordered; each slot is released once, before the next delivery |
| QueueTheorems.RingHoldsPending | WQ.c:149-181 | from head to tail the ring holds exactly what was inserted and not released; tail is head plus their number around the ring |
| QueueTheorems.InsertsOnce | WQ.c:185-224 | a call has inserted its record exactly once if it is past its critical section, so if it succeeded, and never if it timed out or was refused |
| QueueCalls.CallsAsLabelled | WQ.c:185-224 | in every run each send has the time limit, the wish to block and the bytes it was called with, returned the code of a bad argument if and only if it was given no bytes, and that of an expired wait if and only if its limited wait expired |
| QueueCalls.RecordsAsGiven | WQ.c:189-214 | in every run each inserted record is exactly what a call of its name was given, and not empty |
| QueueCalls.CalledOnce | WQ.c:185-224 | no two calls in a run have the same name, so what is told of a call is told of one |
| QueueCalls.LimitedWaitsEnd | WQ.c:196-199 | a send with a time limit that waits for a writer token can take one if there is one and otherwise give up, and one without a limit never gives up |
| QueueCalls.ReceivesWithLimit | WQ.c:139-170 | the receiver waits with the limit of its latest call |
| QueueTheorems.LoanIsStable | WQ.c:166-182 | from delivery to release the lent slot keeps the delivered bytes and count, whatever senders do |
| QueueTheorems.TokensConserved | WQ.c:163-217 | writer tokens, those held by sends, occupied slots and a release not yet posted add up to the length; likewise reader tokens and occupied slots |
| QueueTheorems.MutualExclusion | WQ.c:148-216 | at most one thread is inside a critical section |
| QueueTheorems.AcksConserved | WQ.c:154-222 | per slot, the sends that still await an acknowledgement are the request flag plus the semaphore count, at every step |
| QueueTheorems.NeverJointlyBlocked | WQ.c:166-222 | while the receiver waits, nothing can move exactly when no send is unfinished and nothing is to be read; then the ring is empty and all writer tokens are back |
| QueueTheorems.StuckWithoutReceiver | WQ.c:196-222 | if the receiver stops calling, a send is held up only by a full ring or by its unreleased record |
| QueueAlone.SendAlone | WQ.c:196-217 | a send left alone puts its record, zero-padded, in the tail slot, moves the tail and turns a writer token into a reader token |
| QueueAlone.GiveBackAlone | WQ.c:148-164 | the receiver left alone releases exactly the slot on loan, acknowledges it if asked and returns a writer token; without a loan it changes nothing |
| QueueAlone.TakeAlone | WQ.c:166-182 | the receiver left alone takes a reader token and marks the head slot as on loan |
| QueueAcks.EarlyReturnExactly | WQ.c:209-222 | while its record is unacknowledged in the ring, a blocking send can return exactly when another send awaits an acknowledgement on the same slot |
| QueueAcks.OwnAcknowledgement | WQ.c:154-222 | with at most one send outstanding on its slot, a blocking send returns only after its own record was acknowledged |
| QueueAcks.AnyRecordArrives | WQ.c:139-224 | every record that fits, blocking or not, can be sent and arrives with its bytes and count |
| QueueAcks.AcknowledgedButAsleep | WQ.c:154-222 | a reachable state in which a send was acknowledged and has not woken up |
| QueueAcks.AcknowledgementTakenByLaterSend | WQ.c:154-222 | from there a later send returns before its record is delivered and the earlier one stays asleep |
| QueueDrain.DrainedExactly | WQ.c:98-110 | when the last call timed out the queue is drained if and only if nothing is to be read, the mutex is free and no send is between its two tokens |
| QueueDrain.CloseKeeps | WQ.c:98-110 | however closing goes and whatever sends are under way, calls, deliveries and posts account for each other and the number of steps is bounded |
| QueueDrain.EndedIsDrained | WQ.c:98-110 | when no send can post any more and the loop has ended it made one call more than there were unread records; tokens are back, cursors meet, flags are clear, every waiting send can return |
| QueueDrain.CloseDrains | WQ.c:98-137 | from every reachable state outside a call the loop takes a bounded number of steps and at most one call more than unread records and sends under way; it can always go on until it ends; then calls account exactly for what was unread, posted and left; without sends under way it has drained the queue |
| QueueClosing.DrainsExactly | WQ.c:98-137 | from a reachable state outside a call, every way of closing that ends leaves the queue drained, and leaves no record, if and only if no send is under way |
| QueueClosing.CanLeaveRecord | WQ.c:98-222 | from every reachable state outside a call with a send under way, some way of closing ends and leaves a record that nobody receives |
| QueueClosing.LoopEnds | WQ.c:98-110 | while no send moves and none has stopped inside its critical section, the loop ends |
| QueueClosing.RecordLeftBehind | WQ.c:98-222 | a run in which the loop ends and a record then stays in the queue |
| QueueProgress.RunsAreBounded | WQ.c:139-224 | whatever the interleaving, a run without new sends takes no more steps than the calls in progress have left and a fixed number for each new receive |
| QueueProgress.CallsAreBounded | WQ.c:166-182 | while it waits without limit, the receiver starts no more calls than records can still be delivered, and one |
| QueueProgress.EverySendFinishes | WQ.c:139-224 | while the receiver keeps calling without limit, every run without new sends is bounded, and when nothing can go on every send has returned, the ring is empty and all writer tokens are back |
| QueueTimed.TimedCallsFree | NetGroup.c:331-352 | when all unfinished sends are blocked, receives with whatever time limits, one more than there are unread records, make every one of them able to go on |
| QueueTimed.TimedCallsEnd | WQ.c:139-184 | those receives, with limits, can always go on and take a bounded number of steps each |
| WorkQueueObject.Queue.constructor | WQ.c:3-66 | the opened object is the initial state of the transition system |
| WorkQueueObject.Queue.InsertAtTail | WQ.c:203-214 | the critical section of a send on arrays and flag bytes: one slot changes, exactly as stated |
| WorkQueueObject.Queue.SendRecord | WQ.c:185-217 | the call's result, and on success the state the transition system reaches for it; otherwise nothing changes |
| WorkQueueObject.Queue.ReleaseHead | WQ.c:149-161 | the slot on loan is unmarked, acknowledged if asked and passed over; without a loan nothing changes |
| WorkQueueObject.Queue.LendHead | WQ.c:172-180 | hands out the head slot and its count, and marks it |
| WorkQueueObject.Queue.Receive | WQ.c:139-184 | the call's result and lent slot, and the state the transition system reaches for it |
| WorkQueueObject.Queue.Threshold | WQ.c:98-110 | the loop ends after one call more than there were unread records, with nothing to read, and the queue is drained if and only if no send in progress is between its two tokens |
| Transcoding.Utf8ToUtf16Length | language.c:28-50 | the length pass counts the units the decoder produces, in 32-bit arithmetic, plus a terminator unless there are none |
| Transcoding.Utf8ToUtf16Copy | language.c:52-100 | for destinations of any size: refuses and writes nothing exactly if an argument is missing or a length other than 0 is given that is not the announced one; otherwise writes exactly the decoded units in the byte order and a terminator, or goes past a destination that is too short |
| Transcoding.Utf8ToUtf16 | language.c:102-120 | length pass, new buffer, copy without a stated length: no buffer exactly if the announced length is 0; never refused; holds the whole text and terminator unless the length wraps 32 bits |
| Transcoding.LengthOf | language.c:44-49 | the announced length: 0 for no units, else two bytes a unit and two more, in 32 bits |
| Transcoding.Utf16ToUtf8Length | language.c:345-366 | the length pass gives the number of bytes of the encoding, in 32-bit arithmetic |
| Transcoding.Utf16ToUtf8Copy | language.c:367-405 | for destinations of any size: refuses and writes nothing exactly if an argument is missing or a length other than 0 is given that is not the announced one; otherwise writes exactly the encoding of the units, or goes past a destination that is too short |
| Transcoding.Utf16ToUtf8 | language.c:407-425 | likewise: never refused, and the buffer holds exactly the encoding unless the length wraps 32 bits |
| Transcoding.EncodedGrows | language.c:375-381 | the encoding of a longer text is no shorter, so the check of the length is meaningful |
| TranscodingTheorems.TwoPassesAgreeUtf16 | language.c:44-98 | the announced length is the written one if and only if there is a unit and the number fits 32 bits |
| TranscodingTheorems.ProtectsUtf16 | language.c:63-69 | the check of a given length keeps the copy into UTF-16 inside it if and only if the bytes needed fit 32 bits or the announced length wraps to 0 |
| TranscodingTheorems.ProtectsUtf8 | language.c:375-381 | likewise into UTF-8 |
| TranscodingTheorems.BigEndianIsSwapped | language.c:147-195 | the big-endian output is the little-endian one with the bytes of each unit exchanged |
| TranscodingTheorems.ReadsSwapped | language.c:430-495 | reading big-endian text is reading the exchanged text as little-endian |
| TranscodingTheorems.ByteOrders | language.c:77-78 | the less significant byte of a unit comes first in little-endian text, the other in big-endian text |
| TranscodingTheorems.TwoBytesMean | language.c:80-86 | any two bytes decode to the number that RFC 3629 reads in them |
| TranscodingTheorems.ThreeBytesMean | language.c:87-95 | so do any three with the needed grouping; as written, which bits of the middle byte replace which |
| TranscodingTheorems.FourBytesPassTheEnd | language.c:71-96 | at the end of a text a character of four bytes makes the decoder pass over the terminator |
| TranscodingTheorems.SerializedReadsBack | language.c:386-404 | written units with a terminator are read back as the same units |
| TranscodingTheorems.DecodesEncoded | language.c:71-98 | the decoder walks the encoding of any units and returns one unit for each |
| TranscodingTheorems.AllReturnedExactly | language.c:93-94 | the units come back unchanged if and only if each survives; with the needed grouping always |
| TranscodingTheorems.RoundTripExactly | language.c:71-98 | UTF-16 to UTF-8 and back, either byte order, is the identity if and only if every unit survives; with the needed grouping always |
| TranscodingTheorems.EuroSignIsLost | language.c:94 | a concrete unit that comes back as another |
| TranscodingTheorems.EncodesAsRfc3629 | language.c:386-404 | the encoding of a unit is the one of section 3 of RFC 3629, in its shortest form |
| TranscodingTheorems.EndsExactly | language.c:386-405 | in the destination of the copy into UTF-8 a reader never ends inside the text, and ends right behind it if and only if there is a byte that was zero before; with just the announced length there is no end |
| TranscodingTheorems.Utf8ComesBack | language.c:71-98 | UTF-8 to UTF-16 and back, either byte order, gives the text again if and only if it is in shortest form and, as written, the middle byte of every sequence of three repeats a two-bit pattern |
| TranscodingTheorems.UnitBackExactly | language.c:87-95 | the same for one sequence, for all lead and continuation bytes |
| TranscodingTheorems.DecodedZeroExactly | language.c:80-95 | exactly when a sequence decodes to the terminator; in shortest form only E0 A0 80 and E0 B0 80 do, and none with the needed grouping |
| TranscodingTheorems.ArrivesWholeExactly | language.c:71-98 | shortest-form text arrives with all its units if and only if it has neither of these |
| TranscodingTheorems.NothingAfterU0800 | language.c:87-95 | of a text that begins with U+0800 a reader of the UTF-16 text sees nothing |
| Hex.Print | language.c:653-691 | for arrays of any length: refuses exactly if an argument is missing or the length is not the one asked for, in 32 bits; overruns its buffer exactly if that wrapped; otherwise writes 0x if wanted, the digits and a terminator |
| Hex.WritesDigit | language.c:677-681 | each value from 0 to 15 is printed as its lower-case digit |
| Hex.TakesDigit | language.c:569-626 | the digits of both cases are accepted, each with its value |
| Hex.TakesNoOther | language.c:569-622 | no other character is |
| Hex.Parse | language.c:563-648 | for texts and lengths of any size, counted in 32 bits: refuses, leaving the destination unchanged, exactly if the length is wrong or a counted character is no digit; goes wrong exactly if it reads past a text without its prefix or counts too few characters for the bytes wanted; otherwise writes the bytes of the counted characters |
| Hex.CountedFits | language.c:593-615 | a text that passes has the characters that the loop counts, except one without any characters after a prefix |
| Hex.JudgedExactly | language.c:593-637 | for texts of less than 2^32 characters: success if and only if the text has the right length and only digits; going wrong if and only if only the wrapped length is right and nothing before the end of the text stops the loop |
| Hex.StopsAtFirst | language.c:615-622 | a text whose wrapped length is right and that is refused at its first character |
| Hex.LengthTestExactly | language.c:593-605 | the test of the length is right for every text of less than 2^32 characters if and only if the length of the text wanted fits 32 bits |
| Hex.ParsesPrinted | language.c:606-637 | parsing printed digits gives the array |
| Hex.PrintsParsed | language.c:675-685 | printing a parsed text gives it in lower case |
| Hex.PrintThenParse | language.c:563-691 | the round trip through both routines, with or without prefix |
| Hex.NumeralIsArray | language.c:666-685 | the printed numeral in base 16 is the array as a little-endian number in base 256 |
| TreeShape.OrdersListOnce | ds.c:413-474 | both traversal orders list every node exactly once |
| TreeShape.SearchOrder | ds.c:413-426 | the search lists a node before its descendants, and these before the siblings behind it and theirs |
| TreeShape.ClearsInOrder | ds.c:462-474 | clearing lists the descendants of a node, then the siblings behind it and theirs, then the node |
| TreeShape.AppendChildLinked | ds.c:399-411 | the links set by linking represent the forest with the node as last child |
| TreeShape.RemoveLinked | ds.c:438-455 | the links after passing over a node represent the forest without it and its descendants |
| TreeShape.PointersOnce | ds.c:442-454 | exactly one link leads to a node that is not the head of its chain, none to the head, so passing over it changes no other |
| TreeShape.ChildrenAfterLink | ds.c:387-412 | the children of the parent are the old ones in order and then the new one; all other nodes keep theirs |
| TreeShape.ChildrenAfterUnlink | ds.c:427-459 | every node left keeps its children in order, except for the unlinked one |
| TreeShape.NodesRemove | ds.c:427-459 | what is left are exactly the nodes outside the unlinked subtree, still without repetition |
| TreeShape.RemoveTakesBlock | ds.c:427-459 | in preorder, unlinking takes out one block and leaves the rest in place |
| TreeShape.RemoveUndoesAppend | ds.c:387-459 | unlinking what was linked gives the forest back |
| TreeShape.CutOfAppended | ds.c:387-459 | and what is taken out is what was linked, with its descendants |
| Tree.Tree.Link | ds.c:387-412 | in memory: the node with its descendants becomes the root, the last child, or nothing changes; every link stays consistent |
| Tree.Find | ds.c:413-426 | the first node the test accepts in the search order over the start, its descendants and its later siblings; the start itself if the test accepts it |
| Tree.Tree.Unlink | ds.c:427-459 | in memory: the found node, the start itself if the test accepts it, and its descendants are taken out and detached, the rest is the tree without them; no match changes nothing |
| Tree.PassOver | ds.c:442-454 | the loop over the parent's children redirects exactly the link to the node |
| Tree.Tree.Clear | ds.c:462-474 | every node is handed to the clearing function once, children first, then siblings, then itself, and the tree is empty |
| Tree.Tree.ClearFrom | ds.c:462-474 | the same for any chain; no place in a cleared node is read or written |
| DoubleList.List.Link | ds.c:130-148 | the element is appended and next and previous stay consistent |
| DoubleList.List.Unlink | ds.c:149-179 | the first match is taken out and its links cleared, or nothing matches and nothing changes; null is dereferenced if and only if the only element matches |
| DoubleList.MutuallyInverse | ds.c:130-179 | in a list, next and previous undo each other and only the ends lack a neighbour |
| DoubleList.UnlinkUndoesLink | ds.c:130-179 | unlinking finds the element just linked if and only if it matches and no earlier one does, and gives the list back |
| AlarmTimes.DueMeans | NetGroup.c:277-278 | the wrapped difference is the true one modulo a round, and the test for due is right within one round |
| AlarmTimes.FiresExactlyTheDue | NetGroup.c:275-300 | a pass fires exactly the alarms whose deadline has come, each once and in list order, and frees exactly the one-shots among them |
| AlarmTimes.LeavesSurvivors | NetGroup.c:275-310 | a pass leaves, in list order, exactly the alarms whose deadline is to come and the repeating ones among the others, started now |
| AlarmTimes.LeftAre | NetGroup.c:281-301 | what is left are the alarms not due, unchanged, and the repeating ones that were, started again |
| AlarmTimes.WaitsForTheNext | NetGroup.c:265-313 | no survivor is due before the returned wait is over, one is due then, and the wait is unlimited exactly when all survivors have the longest time left |
| AlarmTimes.NeverWraps | NetGroup.c:331-352 | if passes come at most so late after the wait, no alarm is ever looked at after a full round, nor later than that after its deadline |
| AlarmTimes.OneShotsOverRuns | NetGroup.c:263-314 | over a punctual run a one-shot alarm is there until the first pass at or after its deadline |
| AlarmTimes.RepeatingOverRuns | NetGroup.c:263-314 | a repeating alarm is always there, started at the last pass that found its time over |
| AlarmTimes.FiredAre | NetGroup.c:275-280 | a pass calls the function of an alarm if and only if the alarm is in the list and due |
| AlarmTimes.RunsStayDistinct | NetGroup.c:263-314 | over a run no alarm comes to be in the list twice, and all that is left continues what was there |
| AlarmTimes.FiresAtTheFirstPass | NetGroup.c:263-314 | over a punctual run the function of a one-shot alarm is called in exactly one pass, the first at or after its deadline; that of a repeating one in each pass that finds its time since its last start over |
| AlarmTimes.RightAboutDueExactly | NetGroup.c:277-278 | the test for due is right if and only if the alarm is looked at within one round, or in a later round after its time has passed in that round too |
| HostAlarms.Host.Schedule | NetGroup.c:263-314 | the list edited in place: fired, freed and remaining alarms in order and the wait are those of the pass; what freed alarms held is not used again |
| HostAlarms.Host.Drop | NetGroup.c:289-300 | one alarm leaves the list, and what it held is lost |
| ReceiveWindow.Server.Receive | NetGroup.c:125-205 | one turn of the server on the buffer in place, with overlapping moves: it goes on if and only if something arrived that fits, whatever the decoder uses, and then gives exactly the next window; the cursor stays inside |
| ReceiveWindow.GoesOnExactly | NetGroup.c:125-136 | a run goes on if and only if every turn brings something that fits behind what is buffered |
| ReceiveWindow.KeepsUnused | NetGroup.c:182-205 | a turn leaves exactly the unused bytes, or their newer half if nothing was used of a full buffer |
| ReceiveWindow.StaysInside | NetGroup.c:125-205 | in every run the window is shorter than the buffer |
| ReceiveWindow.WindowIsSuffixOfKept | NetGroup.c:136-205 | for every size, the window is a suffix of the stream without the bytes an odd buffer loses |
| ReceiveWindow.EveryByteAccountedFor | NetGroup.c:182-205 | what arrived is buffered, used by the decoder or given up when the buffer was full; an even buffer loses nothing else |
| ReceiveWindow.LatestExactlyForEvenSizes | NetGroup.c:198-205 | the window is always the latest of the stream if and only if the size is even or one |
| ReceiveWindow.LastByteLost | NetGroup.c:198-205 | a run, for every odd size from three, after which it is not |
| ReceiveSeen.SeesAllExactly | NetGroup.c:138-149 | the decoder is shown all that is buffered if and only if nothing was buffered before |
| ReceiveSeen.WindowSeen | NetGroup.c:138-205 | in every run the buffered bytes are in order of arrival and those that were shown are the first ones, as many as counted |
| ReceiveSeen.NoneGoneUnseenExactly | NetGroup.c:138-205 | over any run, every byte that left the buffer had been shown if and only if every turn took out no more than had been shown |
| ReceiveSeen.FourthByteUnseen | NetGroup.c:138-205 | a run in which a byte is given up that was never shown |
| PageLayout.PagesLeast | Heap.c:131-147 | the page count is the least that holds the block with the words around it |
| PageLayout.WaysBack | Heap.c:92-109 | every address computed back from the user's address is the one computed from the page, modulo 32 bits |
| PageLayout.PageOfExactly | Heap.c:92-109 | an address leads back to a page if and only if it is the address of that page's block |
| PageList.Layout | Heap.c:92-109 | for a placed block nothing wraps round and the canary behind is on its pages |
| PageList.BlockMade | Heap.c:199-211 | clearing the pages and setting the words gives a block that leads nowhere, is guarded and is zero for its user |
| PageList.Relinked | Heap.c:165-168 | setting one link changes what that block leads to, and no canary and no user byte of any block |
| PageList.TakenOut | Heap.c:231-252 | the list past one block is the list without it |
| PageList.WrittenTo | Heap.c:92-109 | a write on writable pages keeps the list; inside a user block it keeps all canaries |
| GuardedHeap.Heap.RequirePages | Heap.c:131-147 | the counting loop gives the page count |
| GuardedHeap.Heap.LinkPage | Heap.c:148-172 | the block is appended, and user bytes and canaries of all blocks stay |
| GuardedHeap.Heap.Generate | Heap.c:173-222 | a new guarded block of zeros with the callers' addresses in front, last in the list; for size zero or without memory nothing changes |
| GuardedHeap.Heap.Allocate | Heap.c:444-455 | the user's address leads back to the block; the ledger of all blocks is kept |
| GuardedHeap.Heap.Write | Heap.c:92-109 | writes confined to a user block break no canary |
| GuardedHeap.Heap.UnlinkPage | Heap.c:223-261 | finds the block if and only if the address is that of a live block, and takes out exactly that one |
| GuardedHeap.Heap.Remove | Heap.c:299-354 | which of the six ends a release comes to, exactly; a live block whose size is intact is freed if and only if both canaries are, and otherwise the first broken one is named; after writes confined to user blocks a live block is always freed |
| GuardedHeap.DamageTold | Heap.c:321-338 | the two checks find exactly whether and which canary is broken |
| GuardedHeap.DamageFound | Heap.c:321-338 | changing any one byte of a canary of a guarded block is found and told apart |
| PageList.SubsequenceWithout | Heap.c:223-261 | taking a block out keeps the order in which the others were handed out |
| PageList.RemainingAfterRelease | Heap.c:148-261 | over any run the live blocks are the made ones less the released ones, in the order made |

## Left out

- WorkQueue.Apply: one receiver only; null queue handles and null result addresses are not modelled, and a wait can be given up only while the semaphore is at zero.
- QueueDrain.CloseDrains: no send starts while the queue is being closed, and the queue is not freed under a send that goes on.
- QueueAcks.OwnAcknowledgement: proved under the condition that no other send awaits an acknowledgement on the slot, because without it the statement is false.
- TranscodingTheorems.RoundTripExactly: a terminator is added to the UTF-8 text, because the copy into UTF-8 writes none; units are not checked for surrogates, as in the code.
- Hex.Print: only UTF-8 text, as in Hex.Parse; the UTF-16 variants hand on the wrong address.
- GuardedHeap.Heap.Remove: after a release the bytes stay in the modelled memory; printing a report and ending the program are not modelled.
- GuardedHeap.Heap.Generate: `memalign` and the backtrace are inputs; page protection is not modelled.
- ReceiveWindow.Server.Receive: the received bytes and the decoder are inputs; sockets, messages to hosts and errors of `recvfrom` beyond stopping are not modelled.
- HostAlarms.Host.Schedule: the list is an input, because the functions that start and end alarms do not build a usable one; callbacks are only recorded.
- DoubleList.List.Unlink: the state after the null dereference is not described.
- Tree.Tree.Unlink: its loop over the children and the setting of links are methods of their own.
- Allocation failure, freeing the queue's memory, and destroying semaphores while others wake up.
- Signals that interrupt waits; fairness and scheduling order.
- The queue between processes (WQIpc.c): its receive takes the mutex where the reader semaphore is meant.
- Groups and multicast of NetGroup.c: the insertion loop never inserts, and the multicast branch repeats the unicast test.
- Routers, pipes, select and the user's encoder.
- The copies between the two UTF-16 byte orders: their argument check refuses every destination.
- Shared pointers (Sp.c), the dictionary (Utils.c), the single list, stack and queue of ds.c, and the remaining traversals of the tree and the double list: they would only add easy members.
- Wrappers of the operating system and formatting (Platform.c, Cs.c, Sema.c, Shared.c, BackGround.c, debug.c).
