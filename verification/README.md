# Verified model of libcat's core

This project models the parts of libcat and of the libraries it carries that do the most
intricate work, and proves what they are for:

- `ChannelSpec`, `ChannelLaws`, `Channel`: the coroutine channel, buffered and unbuffered. The
  specification is a small state machine over all events of all coroutines; its laws say what
  becomes of every call in every run; the class has the fields of the C struct and refines it
  step by step, close included.
- `WaiterQueue`: the channel's waiter queues on linked nodes.
- `Coroutine`: resume, yield, close and death of coroutines over the linked previous/next chain.
- `Punycode`, `PunycodeSample`, `Utf8`, `Idna`: the conversion of a UTF-8 label to its ACE form,
  against the decoder of section 6.2 of RFC 3492.
- `PointerHeap`: the timer heap, a complete binary tree of linked nodes.
- `Multipart`: the search for the part boundary across buffers cut anywhere.
- `Inet4`, `Inet6`, `Inet6Grammar`: printing and parsing of addresses, and exactly which strings
  are addresses.
- `Quote`: quoting of byte strings, against a reader of C literals.
- `Queue`: the intrusive circular queue.
- `WebSocketMask`, `WebSocketHeader`: payload masking and the frame header.
- `Async`: the notification handle and its single close.

Code that changes fields, buffers or links in place is modelled by classes, arrays and
methods with loops; each such method is tied to a function or to a state of values, and the
main results are lemmas about those. Assertions of the C code appear as `assert` and are
proved. Integer widths are written out where they matter (32-bit delta and counts in `Idna`,
64-bit index in `WebSocketMask`). Exclusive or, shifts and masks are arithmetic on numbers.

Where a coroutine switch happens inside a C function, the function is cut there: what other
coroutines do in between is arbitrary, and what the function does after it is resumed is
part of the step that resumes it. Clocks, threads and the event loop become events or
parameters: which wait times out, what a woken coroutine does, when a notification arrives.

Some results differ from what the code or its comments suggest:

- The UTF-8 decoder accepts some malformed input. `AcceptedIsWellFormed` says exactly which.
- `cat_str_quote_size` covers what `cat_str_quote_ex2` writes for every style without a comment;
  with one it need not. `SizeSuffices` gives the exact condition, counted from the bytes of the
  input: what each leaves of its four bytes must come to seven.
- The comment above `cat_str_quote_ex2` promises at most 3 + 4 * length bytes. That fails with a
  comment and with an ellipsis in quotes. `StatedBound` gives the exact condition, again on the
  input; the empty string breaks both promises.
- In the comment style of `cat_str_quote_ex2` the text may end its own comment early.
  `CommentEndsEarly` says exactly for which input, and `StarSlashEndsComment` gives one.
- `multipart_parser_execute` keeps back one byte of data more than it needs to when the buffer is
  that byte and CR or CRLF. `Prompt`, part of the contract of `Execute`, says exactly what is kept.
- In `heap_remove` the branch for a child that equals the root (heap-inl.h:189-191) is never
  taken; `Remove` proves it.
- In `inet_ntop6` the clause for a run of seven words (inet.c:125) never decides, since word
  six is then inside the run.

## Model

| member | source | states |
|---|---|---|
| `Punycode.ReadIntegerExtends` | deps/libuv/src/idna.c:214-240 | reading one generalized integer does not depend on what follows it in the input |
| `Punycode.ReadWritten` | deps/libuv/src/idna.c:214-240 | the decoder's integer reader gets back exactly the delta that the digit loop wrote, and stops after its digits |
| `Punycode.WriteIsInteger` | deps/libuv/src/idna.c:214-240 | the digits written form a well-delimited generalized integer whose value is delta (section 3.3 of RFC 3492) |
| `Punycode.InsertAt` | deps/libuv/src/idna.c:193-209 | the (code point, position) pair coded in one delta is where the decoder inserts |
| `Punycode.DecodeEmitted` | deps/libuv/src/idna.c:202-261 | decoding one more emitted delta puts one more occurrence of the code point in its place |
| `Punycode.VisitInStep` | deps/libuv/src/idna.c:202-261 | visiting one character keeps encoder and decoder in step: what has been written decodes to the characters done so far |
| `Punycode.PassInStep` | deps/libuv/src/idna.c:202-261 | one whole scan of the label keeps them in step |
| `Punycode.EndPassInStep` | deps/libuv/src/idna.c:263-264 | the delta and n increments at the end of a scan keep them in step |
| `Punycode.RoundInStep` | deps/libuv/src/idna.c:180-264 | one round of the main loop, with the jump to the least remaining code point, keeps them in step |
| `Punycode.PassesDecode` | deps/libuv/src/idna.c:180-265 | after all rounds the decoder of section 6.2 of RFC 3492 returns the label |
| `Punycode.RoundTrip` | deps/libuv/src/idna.c:142-268 | for every sequence of code points that the encoder accepts, decoding its output gives the sequence back, in order |
| `Punycode.EncodedForm` | deps/libuv/src/idna.c:150-173 | the output is the label's own ASCII characters, a hyphen if there are any, and only lower-case letters and digits after that |
| `Punycode.AdaptIs` | deps/libuv/src/idna.c:242-258 | the adaptation in the parameters of section 5 of RFC 3492: damping, the least number of divisions by base - tmin that gets down to (base - tmin) * tmax / 2, and the skew |
| `Punycode.ThresholdIs` | deps/libuv/src/idna.c:216-222 | the threshold is k - bias, kept between tmin and tmax |
| `PunycodeSample.KnownAnswer` | deps/libuv/src/idna.c:142-268 | the beginning of a sample of section 7.1 of RFC 3492, which fixes the initial values and the parameters that encoder and decoder share |
| `Utf8.Decode1` | deps/libuv/src/idna.c:26-103 | one decoding step takes exactly the bytes that the lead byte announces, or all that are left, and its result is a Unicode scalar value or the error value |
| `Utf8.DecodeScalar` | deps/libuv/src/idna.c:26-103 | every scalar value's UTF-8 encoding (section 3 of RFC 3629), anywhere in a text, decodes to the value and takes exactly its bytes |
| `Utf8.DecodeText` | deps/libuv/src/idna.c:26-103 | every well-formed UTF-8 text decodes to its code points |
| `Utf8.AcceptedIsWellFormed` | deps/libuv/src/idna.c:34-89 | an accepted byte sequence is the encoding of its result if and only if the bytes that its lead byte announces are there and all of them are continuation bytes |
| `Utf8.CutShortAccepted` | deps/libuv/src/idna.c:37-56 | F1 80 80, cut short after a four-byte lead, is accepted as U+1000 by the fall-through |
| `Utf8.MalformedAccepted` | deps/libuv/src/idna.c:72-73 | E1 41 41, a text of letters after its lead byte, is accepted as U+1041 |
| `Idna.Put` | deps/libuv/src/idna.c:144-147 | one bounded write: the buffer holds the output, cut off where it ends |
| `Idna.CountCharacters` | deps/libuv/src/idna.c:123-140 | the first scan counts basic and other characters, or finds the decoding error |
| `Idna.WriteAscii` | deps/libuv/src/idna.c:150-165 | the second scan writes exactly the basic characters in order and stops early when all have been seen |
| `Idna.NextDigit` | deps/libuv/src/idna.c:215-233 | one round of the digit loop: threshold, digit and quotient |
| `Idna.WriteDelta` | deps/libuv/src/idna.c:214-240 | the digit loop writes the generalized integer of delta under the current bias |
| `Idna.Damp` | deps/libuv/src/idna.c:242-253 | the sum delta + delta / h needs no overflow check, and the loop after it starts where section 6.1 of RFC 3492 does |
| `Idna.AdaptBias` | deps/libuv/src/idna.c:242-258 | the inlined adaptation equals the function of section 6.1 of RFC 3492 |
| `Idna.FindLeast` | deps/libuv/src/idna.c:181-191 | the scan finds the least code point not below n |
| `Idna.NoOverflow` | deps/libuv/src/idna.c:196-199 | the guard before the multiplication passes if and only if the result fits 32 bits |
| `Idna.VisitCharacter` | deps/libuv/src/idna.c:203-260 | one character of the inner scan, with the 32-bit wrap of delta as an error |
| `Idna.ScanFor` | deps/libuv/src/idna.c:202-261 | the inner scan refines one pass of the encoder, including when it fails |
| `Idna.NextCodePoint` | deps/libuv/src/idna.c:180-265 | one round of the main loop refines one round of the encoder, and todo falls |
| `Idna.WriteDeltas` | deps/libuv/src/idna.c:175-267 | the main loop ends, and with the encoder's output or its overflow error |
| `Idna.WriteLabel` | deps/libuv/src/idna.c:142-268 | the label written after the count: prefix, ASCII part, delimiter and deltas, each only when due |
| `Idna.ToAsciiLabel` | deps/libuv/src/idna.c:105-268 | the whole function on the caller's buffer: invalid UTF-8, overflow, all-ASCII label and encoded label, each with its return value, output cut off at the end of the buffer; a label of ASCII bytes is copied and its length returned |
| `Idna.AsciiLabelStays` | deps/libuv/src/idna.c:142-168 | a label is left as it is exactly if none of its code points is beyond ASCII |
| `Idna.LabelRoundTrip` | deps/libuv/src/idna.c:26-268 | end to end: UTF-8 label to ACE form, whose part after xn-- decodes to the label's code points |
| `Idna.SafeLabelRoundTrip` | deps/libuv/src/idna.c:105-268 | a label of up to 3855 Unicode scalar values never overflows: it is encoded, and comes back |
| `ChannelSpec.StepKeeps` | src/cat_channel.c:84-453 | every event keeps all invariants of a channel: who may wait, no overtaking, nothing lost or invented |
| `ChannelSpec.RunKeeps` | src/cat_channel.c:84-453 | so every reachable state, after any events of any coroutines, has them |
| `ChannelSpec.Fifo` | src/cat_channel.c:277-389 | in every run successful pops get the values of successful pushes in order, at most capacity behind, and each side is served in the order of the calls |
| `ChannelSpec.Rendezvous` | src/cat_channel.c:147-257 | on an unbuffered channel successful pushes and pops pair one to one with equal data and nothing is ever stored |
| `ChannelSpec.NobodyWaitsInVain` | src/cat_channel.c:205-257 | producers wait only on a full channel, consumers only on an empty one, never both |
| `ChannelSpec.WritableIsServed` | src/cat_channel.c:97-105 | is_writable holds exactly when a push is accepted at once; a push that is not accepted waits only on an open channel |
| `ChannelSpec.ReadableIsServed` | src/cat_channel.c:84-95 | the same for is_readable and pop |
| `ChannelSpec.ClosedStep` | src/cat_channel.c:434-453 | after close no event adds a waiter and each wake-up of the close loop removes one |
| `ChannelSpec.CloseTerminates` | src/cat_channel.c:434-453 | whatever the woken coroutines do, the close loop takes no more turns than there were waiters |
| `ChannelSpec.ClosedAnswers` | src/cat_channel.c:23-35 | a call begun after close is answered at once and never waits |
| `ChannelLaws.RunOnce` | src/cat_channel.c:124-453 | in every run the numbers of the calls made are, each exactly once, those of the replies given and of the calls that wait |
| `ChannelLaws.RunOwn` | src/cat_channel.c:124-453 | in every run each reply goes to the coroutine that made the call and fits it: a push is accepted with its own value, only a pop receives; each waiter stands for its call and value |
| `ChannelLaws.RunWaitOnce` | src/cat_channel.c:124-135 | no coroutine waits twice |
| `ChannelLaws.RepliesAreDue` | src/cat_channel.c:23-35 | a push is refused only on a closed channel, a pop only on a closed and empty one; a time-out is reported only to the one whose time is up, a cancellation only to the one canceled or by close |
| `ChannelLaws.RefusedOnlyClosed` | src/cat_channel.c:434-439 | in every run the channel is closed exactly if close was called, and as long as it is open nobody has been refused |
| `ChannelLaws.UnwritableWaits` | src/cat_channel.c:332-334 | a push on an open channel that is not writable waits, last in line, with its value |
| `ChannelLaws.UnreadableWaits` | src/cat_channel.c:365-367 | the same for a pop on one that is not readable |
| `ChannelLaws.ProducerLeaves` | src/cat_channel.c:124-135 | a waiting push that times out is told so, one that is canceled is told that; nobody else moves |
| `ChannelLaws.ConsumerLeaves` | src/cat_channel.c:124-135 | the same for a waiting pop |
| `ChannelLaws.CloseWakesFirst` | src/cat_channel.c:440-447 | close wakes the first producer, or without producers the first consumer, as canceled |
| `Channel.Channel.constructor` | src/cat_channel.c:393-409 | a new channel is open and empty |
| `Channel.Channel.IsReadable` | src/cat_channel.c:84-95 | the predicate as coded equals the abstract one |
| `Channel.Channel.IsWritable` | src/cat_channel.c:97-105 | the predicate as coded equals the abstract one |
| `Channel.Channel.UnbufferedPush` | src/cat_channel.c:205-230 | the hand-off refines the abstract push; the source's assertions about slot and able flag hold |
| `Channel.Channel.UnbufferedPop` | src/cat_channel.c:232-257 | the hand-off refines the abstract pop |
| `Channel.Channel.BufferedPush` | src/cat_channel.c:330-361 | the buffered push refines the abstract push, including the notified consumer |
| `Channel.Channel.BufferedPop` | src/cat_channel.c:363-389 | the buffered pop refines the abstract pop, including the woken producer whose value takes the free place |
| `Channel.Channel.Push` | src/cat_channel.c:411-421 | push with its state check refines the abstract push |
| `Channel.Channel.Pop` | src/cat_channel.c:423-432 | pop with its state check refines the abstract pop |
| `Channel.Channel.Resume` | src/cat_channel.c:124-135 | a waiter resumed by timeout or cancellation leaves its queue, wherever it stands in it |
| `Channel.Channel.Dispatch` | src/cat_channel.c:84-453 | any event on the fields of the channel does what the abstract step does and keeps the hand-off slot empty between steps |
| `Channel.Channel.CloseTurn` | src/cat_channel.c:439-450 | one turn of a close loop, with any events following the wake-up, leaves fewer waiters |
| `Channel.Channel.WakeProducers` | src/cat_channel.c:440-444 | the first close loop leaves no producer, whatever happens in between |
| `Channel.Channel.WakeConsumers` | src/cat_channel.c:445-447 | the second leaves no consumer, and no producer has come back |
| `Channel.Channel.Close` | src/cat_channel.c:434-453 | close ends for any behaviour of the woken coroutines, with both queues empty, and its whole effect is one run: the closing, then turns of one wake-up and what follows it |
| `Channel.Channel.Cleanup` | src/cat_channel.c:455-479 | cleanup closes if need be and destroys the stored values, each once, oldest first |
| `WaiterQueue.LinkedWaiters.constructor` | src/cat_channel.c:393-409 | nobody waits |
| `WaiterQueue.LinkedWaiters.IsEmpty` | src/cat_channel.c:64-72 | the test on the links tells whether anybody waits |
| `WaiterQueue.LinkedWaiters.First` | src/cat_channel.c:439-450 | the node at the front is that of the first waiter |
| `WaiterQueue.LinkedWaiters.BeginWait` | src/cat_channel.c:124-131 | linking a coroutine's node puts it behind all waiters, as the channel's model has it |
| `WaiterQueue.LinkedWaiters.EndWait` | src/cat_channel.c:132-135 | unlinking it takes exactly that waiter out, wherever it stands, as the channel's model has it |
| `PointerHeap.PathTo` | deps/libuv/src/heap-inl.h:122-124 | the path bits computed from the count lead from the root to that slot |
| `PointerHeap.Heap.Walk` | deps/libuv/src/heap-inl.h:127-136 | walking the path along the pointers reaches the link of the slot, and of its parent |
| `PointerHeap.Heap.Swap` | deps/libuv/src/heap-inl.h:72-104 | the pointer exchange of parent and child swaps exactly their slots in the tree, siblings and grandparent included |
| `PointerHeap.SiftUpStep` | deps/libuv/src/heap-inl.h:146-147 | a swap upwards moves the only possible disorder one level up |
| `PointerHeap.SiftDownStep` | deps/libuv/src/heap-inl.h:220-229 | a swap with the smaller child moves it one level down |
| `PointerHeap.Heap.SiftUp` | deps/libuv/src/heap-inl.h:146-147 | walking up restores the order and keeps the nodes |
| `PointerHeap.Heap.SiftDown` | deps/libuv/src/heap-inl.h:220-229 | walking down leaves at most a disorder above the node and keeps the nodes |
| `PointerHeap.Heap.Insert` | deps/libuv/src/heap-inl.h:106-148 | the linked tree stays complete with consistent parent links and heap order, and has gained exactly the node |
| `PointerHeap.Heap.Remove` | deps/libuv/src/heap-inl.h:150-237 | the same for removing any member, wherever it is in the tree |
| `PointerHeap.Heap.Dequeue` | deps/libuv/src/heap-inl.h:239-241 | removes the minimum, or nothing from an empty heap |
| `PointerHeap.RootIsLeast` | deps/libuv/src/heap-inl.h:67-69 | no node of an ordered heap is less than its root |
| `Multipart.Parser.constructor` | deps/multipart-parser-c/multipart_parser.c:57-81 | a parser at the beginning of a part's data, two hyphens put before the boundary; which boundaries the search is proved for |
| `Multipart.Parser.Alloc` | deps/multipart-parser-c/multipart_parser.c:57-107 | no parser exactly if the boundary is longer than 70 bytes |
| `Multipart.RolledBack` | deps/multipart-parser-c/multipart_parser.c:370-378 | after a mismatch no occurrence of the delimiter can begin in the bytes that matched, so going on from the mismatch loses none |
| `Multipart.TailTooShort` | deps/multipart-parser-c/multipart_parser.c:379-386 | when no occurrence can begin before the bytes held back and they are at most a delimiter long, every occurrence in the buffer ends at its end: none with a byte after it was missed |
| `Multipart.Parser.OnData` | deps/multipart-parser-c/multipart_parser.c:335-355 | a byte of part data: collected, or the possible start of a delimiter, or the end of the buffer |
| `Multipart.Parser.OnAlmostBoundary` | deps/multipart-parser-c/multipart_parser.c:356-372 | the byte after a CR |
| `Multipart.Parser.OnLineFeed` | deps/multipart-parser-c/multipart_parser.c:358-370 | the line feed after it, also when the buffer ends there |
| `Multipart.Parser.OnBoundary` | deps/multipart-parser-c/multipart_parser.c:373-391 | a byte while the boundary is being matched: mismatch, match, end of the boundary, end of the buffer |
| `Multipart.Parser.Execute` | deps/multipart-parser-c/multipart_parser.c:329-391 | one call reports exactly the bytes before the first delimiter; or, without one, exactly the bytes before what may be the beginning of one (a single byte before a last CR or CRLF is kept too), and leaves a state that suits the bytes not consumed |
| `Multipart.Parser.Round` | deps/multipart-parser-c/multipart_parser.c:329-391 | one call of a caller that presents all unconsumed bytes again |
| `Multipart.Parser.Feed` | deps/multipart-parser-c/multipart_parser.c:329-391 | for every body and every way of cutting it, the pieces join to exactly the bytes before the first CRLF and boundary; the end is reported once the delimiter and one more byte are there; until then never more than a delimiter's length is held back |
| `Coroutine.Runtime.constructor` | src/cat_coroutine.c:170-235 | the main coroutine runs alone on the chain |
| `Coroutine.Runtime.Create` | src/cat_coroutine.c:444-600 | a new coroutine is waiting and off the chain |
| `Coroutine.Runtime.Close` | src/cat_coroutine.c:644-658 | exactly a coroutine that waits and has never run can be closed; it is freed, and was neither running, nor on the chain, nor the scheduler |
| `Coroutine.Runtime.TakeOut` | src/cat_coroutine.c:815-821 | unlinking from any place in the chain closes the gap in both directions |
| `Coroutine.Runtime.PutBehindCurrent` | src/cat_coroutine.c:822-827 | the target becomes the last of the chain |
| `Coroutine.Runtime.Jump` | src/cat_coroutine.c:660-680 | the switch: counters, from, and the two state changes |
| `Coroutine.Runtime.Resume` | src/cat_coroutine.c:736-833 | exactly a waiting coroutine is resumed, unless switching is denied; a running one is busy, a dead one not there; common, previous and cross resume keep one doubly linked acyclic chain that ends at the one running coroutine, and change nobody else's state; a refused resume changes nothing at all |
| `Coroutine.Runtime.TargetWaits` | src/cat_coroutine.c:835-847 | the coroutine that yield jumps to without a check is always started and waiting, the scheduler included |
| `Coroutine.Runtime.Yield` | src/cat_coroutine.c:835-869 | yield to the previous coroutine or to the scheduler keeps all of it and touches only the two; without a target nothing changes |
| `Coroutine.Runtime.Die` | src/cat_coroutine.c:384-437 | the last yield of a finished coroutine: it is dead, freed and off the chain, the count falls, and nobody but it and the one it yields to is touched |
| `Coroutine.Runtime.BecomeScheduler` | src/cat_coroutine.c:1002-1003 | the scheduler leaves the count |
| `Coroutine.Runtime.StopScheduler` | src/cat_coroutine.c:1029-1030 | and comes back to it |
| `Coroutine.ResumeThenYield` | src/cat_coroutine.c:773-869 | resuming a coroutine off the chain and its yield give the same chain back |
| `Coroutine.CrossResumeThenYield` | src/cat_coroutine.c:779-812 | after a cross resume and the yield the chain has lost exactly the resumed coroutine, and the resumer runs |
| `Inet4.Ntop4` | deps/libuv/src/inet.c:48-59 | dotted decimal text, or the error when it does not fit; the local buffer is never too short |
| `Inet4.InetPton4` | deps/libuv/src/inet.c:175-211 | the parsing loop refines the parser used below |
| `Inet4.Read4Printed` | deps/libuv/src/inet.c:48-59 | the text of any four bytes parses to them |
| `Inet4.Accepts4Exactly` | deps/libuv/src/inet.c:175-211 | a string parses to an address if and only if it is the text printed for that address |
| `Inet6.JoinWords` | deps/libuv/src/inet.c:80-82 | the words hold the bytes of the address |
| `Inet6.FindRun` | deps/libuv/src/inet.c:83-106 | the run found is the leftmost longest run of zero words of two or more, or there is none |
| `Inet6.Format6` | deps/libuv/src/inet.c:111-138 | the formatting loop writes the text, never more than its local buffer holds, and the embedded IPv4 text always fits |
| `Inet6.TailWhen` | deps/libuv/src/inet.c:124-127 | an IPv4 tail is printed exactly for addresses in ::ffff:0:0/96, and in ::/96 unless the upper half of the IPv4 address is zero |
| `Inet6.Ntop6` | deps/libuv/src/inet.c:62-143 | the result is the canonical text of the address, shortened at the leftmost longest run, and parses back to the address; those two kinds of addresses are printed ::ffff: or :: and dotted, no other has a dot; the error comes only when that text does not fit |
| `Inet6.PrintsOne` | deps/libuv/src/inet.c:80-138 | an address has only one canonical text |
| `Inet6.Parse4Tail` | deps/libuv/src/inet.c:262-269 | the digits of the first octet, read as hexadecimal at first, do no harm when the dot comes |
| `Inet6.Read6Printed` | deps/libuv/src/inet.c:214-298 | whichever run of two or more zero words is written ::, the text parses to the address, embedded IPv4 included |
| `Inet6.OpenGap` | deps/libuv/src/inet.c:283-291 | the shift by hand moves the bytes after the gap to the end and leaves zeros between |
| `Inet6.Scan6` | deps/libuv/src/inet.c:222-271 | the parsing loop, with the room checks on its buffer, refines the parser |
| `Inet6.InetPton6` | deps/libuv/src/inet.c:214-298 | the whole function refines the parser |
| `Inet6Grammar.Parsed` | deps/libuv/src/inet.c:222-271 | whatever the parser accepts from the beginning of a token on is the rest of an address: groups, perhaps a ::, perhaps a dotted tail |
| `Inet6Grammar.ReadSide` | deps/libuv/src/inet.c:222-278 | groups and a dotted tail between colons are read as their bytes |
| `Inet6Grammar.ReadGapped` | deps/libuv/src/inet.c:222-292 | with :: between two such sides the gap is opened behind the bytes of the first |
| `Inet6Grammar.Accepts6Exactly` | deps/libuv/src/inet.c:214-298 | a string parses to sixteen bytes if and only if it is a text of the grammar for them: groups of one to four hexadecimal digits of either case, at most one :: that stands for at least one byte, and at most one dotted IPv4 text, at the end |
| `Inet6Grammar.HexIsShort` | deps/libuv/src/inet.c:133 | a word is printed in lower case, without leading zeros |
| `Inet6Grammar.PrintedGroups` | deps/libuv/src/inet.c:111-138 | without a dotted tail the text is the groups of the words with colons between them, and :: for the leftmost longest run exactly if two neighbouring words are zero |
| `Quote.ReadPiece` | src/cat_string.c:308-365 | what is written for one byte reads back as that byte, given that a following octal digit was seen by the look-ahead |
| `Quote.BodyReadsBack` | src/cat_string.c:299-366 | for every input, stopping place, set of escaped characters and following text, a C reader gets the quoted bytes back and goes on after them: the short octal forms are never ambiguous |
| `Quote.HexBodyReadsBack` | src/cat_string.c:285-297 | the same for the hexadecimal form, read without a limit on digits |
| `Quote.QuotedReadsBack` | src/cat_string.c:278-378 | the literal in quotes ends at the closing quote and holds exactly the bytes quoted, then the ellipsis |
| `Quote.OutputReadsBack` | src/cat_string.c:278-406 | for every style with quotes, a reader of the whole output finds a string literal, in a comment exactly if one was asked for, nothing else, and in it the bytes quoted and the ellipsis |
| `Quote.BareOutputReadsBack` | src/cat_string.c:278-406 | without quotes the output is the body, which reads back, between the marks of the comment if there is one |
| `Quote.CommentEndsEarly` | src/cat_string.c:278-378 | the end of a comment stands in the output before its own if and only if it stands in the bytes quoted, neither of its characters is to be escaped, and the form is not hexadecimal |
| `Quote.StarSlashEndsComment` | src/cat_string.c:278-378 | an asterisk and a slash are such bytes |
| `Quote.OutputIsPrintable` | src/cat_string.c:278-406 | whatever the input, the output is printable ASCII |
| `Quote.PieceIs` | src/cat_string.c:333-340 | a printable byte that need not be escaped is written as it is, any other behind a backslash |
| `Quote.HexPieceIs` | src/cat_string.c:292-294 | in hexadecimal each byte has two lower-case digits |
| `Quote.StopIs` | src/cat_string.c:299-308 | a terminated string stops at its first zero; otherwise only a last zero is left out, if asked for and not in hexadecimal |
| `Quote.InHexIs` | src/cat_string.c:250-276 | left to choose, the writer uses hexadecimal exactly if a byte before the end is neither printable nor white space |
| `Quote.BareReadsBack` | src/cat_string.c:285-366 | without quotes and comment the whole text reads back |
| `Quote.BodySpares` | src/cat_string.c:308-365 | of the four bytes reserved for each input byte the text leaves three for a plain byte, two for a lettered escape, and two, one or none for an octal one |
| `Quote.SizeSuffices` | src/cat_string.c:213-219 | cat_str_quote_size covers text and NUL for every style without a comment; with one, if and only if the input leaves seven of its bytes unused (four will do with ellipsis and no quotes) |
| `Quote.HexSizeSuffices` | src/cat_string.c:213-219 | in hexadecimal that is if and only if the string ends two bytes or more before its length |
| `Quote.ThreePlainBytes` | src/cat_string.c:213-219 | in plain form three bytes printed as they are suffice |
| `Quote.StatedBound` | src/cat_string.c:221-236 | 3 + 4 * length bytes hold text and NUL if and only if what the input leaves unused covers comment and ellipsis |
| `Quote.EmptyEllipsisExceeds` | src/cat_string.c:221-236 | the empty string in quotes with an ellipsis does not fit 3 bytes |
| `Quote.EmptyCommentExceeds` | src/cat_string.c:213-219 | the empty string with a comment does not fit |
| `Quote.UsesHex` | src/cat_string.c:250-276 | hexadecimal is used exactly when asked for or when a byte before the end needs it |
| `Quote.WritePiece` | src/cat_string.c:309-364 | the switch of the plain loop writes the specified bytes |
| `Quote.WritePieces` | src/cat_string.c:299-366 | the plain loop appends the text of each byte up to the stopping place, and stops there |
| `Quote.WritePlain` | src/cat_string.c:299-366 | so what it writes is the body that reads back |
| `Quote.WriteHex` | src/cat_string.c:285-297 | the hexadecimal loop, and where it stops |
| `Quote.QuoteEx2` | src/cat_string.c:237-406 | the whole text, its terminating NUL, the stopping place and the completeness result, for every style, in any buffer that can hold text and NUL |
| `Queue.Node.constructor` | include/cat_queue.h:39-42 | a node linked to itself |
| `Queue.Init` | include/cat_queue.h:39-42 | an empty queue |
| `Queue.IsEmpty` | include/cat_queue.h:47-48 | empty exactly if the queue holds no nodes |
| `Queue.Front` | include/cat_queue.h:50-51 | the first node, or none |
| `Queue.Back` | include/cat_queue.h:53-54 | the last node, or none |
| `Queue.PushFront` | include/cat_queue.h:62-67 | the node comes before all others |
| `Queue.PushBack` | include/cat_queue.h:69-74 | the node comes after all others |
| `Queue.Remove` | include/cat_queue.h:76-79 | the node at any position is taken out, the others keep their order |
| `Queue.ForEach` | include/cat_queue.h:83-91 | visits exactly the nodes, in order, and ends |
| `Queue.ReverseForEach` | include/cat_queue.h:96-100 | visits exactly the nodes, from last to first |
| `Queue.Add` | deps/libuv/src/queue.h:52-59 | concatenation of two queues, also when either is empty |
| `Queue.Split` | deps/libuv/src/queue.h:61-70 | the nodes from any node on move to another queue |
| `Queue.Move` | deps/libuv/src/queue.h:72-81 | all nodes move, and the first queue is left empty |
| `Async.ClosedExactlyOnce` | src/cat_async.c:49-150 | in every run, with the wait ending in any way and further calls refused or not, the handle has been closed exactly once if notification and call have both come, and never before |
| `Async.FlagsTell` | src/cat_async.c:49-150 | in every run the handle waits exactly while a wait_and_close called before the notification has not ended, and is closing exactly when an early call does not wait, or no longer |
| `Async.Handle.constructor` | src/cat_async.c:82-85 | a new handle |
| `Async.Handle.Callback` | src/cat_async.c:49-64 | the callback refines the step; its assertion holds |
| `Async.Handle.BeginWait` | src/cat_async.c:104-113 | wait_and_close up to its wait, with the availability check: an accepted call waits if the notification has not come, and closes if it has |
| `Async.Handle.EndWait` | src/cat_async.c:114-131 | the rest of it after success, failure or cancellation; its assertion holds |
| `Async.Handle.Cleanup` | src/cat_async.c:134-150 | cleanup refines the step |
| `Async.Handle.Perform` | src/cat_async.c:49-150 | any possible run on the fields of the handle closes it as often as stated |
| `WebSocketMask.MaskTwice` | src/cat_websocket.c:169-214 | masking twice is the identity |
| `WebSocketMask.XorBits` | src/cat_websocket.c:183-190 | a bit of the exclusive or is set exactly if the bits differ |
| `WebSocketMask.MaskedZeros` | src/cat_websocket.c:169-214 | octet i of zeros becomes octet (index + i) mod 4 of the key |
| `WebSocketMask.MaskInPieces` | src/cat_websocket.c:169-214 | two pieces, the second with its running index, mask to the whole |
| `WebSocketMask.AnyPieces` | src/cat_websocket.c:169-214 | so do any number of pieces |
| `WebSocketMask.XorOfWords` | src/cat_websocket.c:183-185 | the exclusive or of two words is that of their bytes in memory |
| `WebSocketMask.XorWord` | src/cat_websocket.c:178-185 | eight octets as one word, with the key doubled to 64 bits, give the octets masked one by one |
| `WebSocketMask.TracksKey` | src/cat_websocket.c:175-190 | wrap-around of the 64-bit index does not move the position within the key |
| `WebSocketMask.MaskWords` | src/cat_websocket.c:174-186 | bytes up to a multiple of eight, then words |
| `WebSocketMask.Mask` | src/cat_websocket.c:169-214 | in place or between two buffers, for every length and start index, each octet i is combined with key[(index + i) mod 4] as section 5.3 of RFC 6455 asks, and nothing after length changes |
| `WebSocketMask.MaskEx` | src/cat_websocket.c:226-241 | a missing key and a key of zeros leave the octets unmasked, in the copy too |
| `WebSocketHeader.Hton64Stored` | src/cat_memory.c:201-216 | on a little-endian host the stored number has its highest byte first |
| `WebSocketHeader.Hton64Twice` | src/cat_memory.c:218-233 | cat_ntoh64 undoes cat_hton64 |
| `WebSocketHeader.WireIsReadBack` | src/cat_websocket.c:43-67 | the header written for a length and key has the calculated size, and a receiver that follows section 5.2 of RFC 6455 reads them back |
| `WebSocketHeader.ShortestForm` | src/cat_websocket.c:43-67 | no header that a receiver reads as this length and key is shorter than the calculated size |
| `WebSocketHeader.Header.constructor` | src/cat_websocket.c:69-72 | a new header stands for an empty payload without key |
| `WebSocketHeader.Header.GetSize` | src/cat_websocket.c:90-99 | the size of a header is the calculated one |
| `WebSocketHeader.Header.GetPayloadLength` | src/cat_websocket.c:101-111 | returns the length that was set |
| `WebSocketHeader.Header.GetMaskingKey` | src/cat_websocket.c:113-121 | returns the key that was set, or none |
| `WebSocketHeader.Header.SetPayloadLength` | src/cat_websocket.c:123-139 | the header becomes the one of section 5.2 of RFC 6455 for the new length, shortest form, and keeps its key although its offset moves |
| `WebSocketHeader.Header.SetMaskingKey` | src/cat_websocket.c:142-152 | sets or removes the key and keeps the length |
| `WebSocketHeader.Header.SetPayloadInfo` | src/cat_websocket.c:154-160 | length and key together, from any header |

## Left out

- Idna.ToAsciiLabel: asks for labels of at most 2^32 - 1 bytes, because the counters h and todo have 32 bits.
- PointerHeap.Heap.Insert: asks for fewer than 2^32 - 1 nodes, because the count has 32 bits.
- Multipart.Parser.Feed: asks for a boundary that is not empty and holds no CR, which section 5.1.1 of RFC 2046 guarantees; the C code does not look for a CR in it. It covers the states of part data with callbacks that pause; the header states before them and callbacks that answer OK are not modelled.
- Coroutine.Runtime.Resume: asks that the handle has not been closed, since a closed coroutine's memory is gone; so does Close.
- Coroutine.Runtime.Die: asks that switching is not denied and that there is somewhere to go, as the C code asserts after the last yield.
- WebSocketMask.Mask: two different arrays never overlap here; partly overlapping buffers are not modelled.
- WebSocketHeader.Header.SetPayloadInfo: big-endian hosts are not modelled.
- uv__idna_toascii, which splits a domain name into labels: only loops over the label function.
- UTF-8 rejection beyond the exact condition for what is accepted.
- cat_channel_select, whose dummy waiters may stay queued when a close wakes it.
- Data destructors and failed allocations of the channel; its class keeps the waiter queues as sequences, and WaiterQueue gives their operations on linked nodes.
- The from pointer after a coroutine's death, cat_coroutine_register_main, user flags, transfer data, stacks, and the context switch itself.
- The scheduler's loop and deadlock detection: they depend on the event loop.
- cat_async_close, which closes without waiting for the notification.
- The scope suffix of uv_inet_pton and the dispatch by address family: they would only add easy members.
- cat_str_quote's allocating wrappers.
- HTTP content-type parsing, buffers, waiting groups, logging and the wrappers around libuv, OpenSSL, curl and the operating system.
