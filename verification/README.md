# RESTProxy: buffers, headers and fan-out

RESTProxy moves HTTP messages between a client and a number of servers through a pool of
shared buffers. This project models the part of it that carries the bytes, and proves what
it keeps:

* **Rings over one pool.** A message lives in a ring of 2^size slots, each naming a buffer of
  the pool and holding a byte count. `CircularBuffer.dfy` and `SharedBuffers.dfy` are the
  code, as classes over arrays updated in place; `RingState.dfy` and the `Pool` datatype are
  the values those arrays stand for, and every method is proved equal to a function on them.
  On that level `ManyRings.dfy` shows that any run of reads and sends on any number of rings
  leaves every ring a first-in first-out queue (sent ++ live == received), and every buffer
  in exactly one place; `BlankBuffers.dfy` that no message is followed by bytes of another.
* **Pointers into the stream.** A pointer (slot, offset) has a position in the flat byte
  stream. `StreamPointers.dfy`, `PointerAddition.dfy`, `PointerSubtraction.dfy` and
  `StablePositions.dfy` say where addition and subtraction land, exactly when each is right,
  how often addition feeds the ring, what one undoes of the other, how they relate to
  comparison, distance and copying, and that positions and the bytes between pointers survive
  every run that does not send their slots off.
* **The pool under threads.** `ThreadedPool.dfy` cuts alloc and free into single memory
  accesses and semaphore operations, interleaves any number of threads in any order, and
  shows that every call takes effect on the pool at one step between its call and its return,
  with the result it returns; that no thread gets stuck, and that a call left alone does its
  work.
* **Headers.** `HttpHeaders.dfy` is the decoder, reading from a ring; `HeaderText.dfy` says
  what a text means, splits it without losing a byte, and shows that decoding undoes
  rendering, with the exact exception; `HeaderTable.dfy` is the search, its bound on the
  number of comparisons, and the table, `HeaderNumbers.dfy` its numbers;
  `Decimal.dfy` the number of a Content-Length.
* **Messages and fan-out.** `HttpMessage.dfy` reads bodies and sends slots;
  `RequestReplies.dfy` sends one request to all servers in turn while the replies come in
  through the same pool. `FanOut.dfy` describes that as a run of `ManyRings`. `Reception.dfy`
  says when a message that has been read can be decoded. `FirstExchange` puts it all
  together, from an empty pool to what every server has received.

How to read it: an `Ok()` or `Valid()` is the invariant of an object; `View()`, `AsLine()` or
`world` is the value it stands for; a `Line` is a pool, one ring and its source together; a
`World` is a pool with all its rings, and with what has passed through each.

What the model assumes of its surroundings:

* The bytes behind `feed_data` are a list of deliveries, each a chunk (possibly empty) or a
  failure; each call takes at most `max_size` bytes and cuts a longer chunk. A failed read
  leaves a slot of negative size, which counts as no bytes. Invariants, queues and positions
  hold with such slots; moving a pointer and copying ask for none on their way.
* A `char` of the source is a Dafny `char`; a pool buffer is a string of fixed length. A byte
  read past the end of a buffer is arbitrary.
* A `circular_ptr_t` that the source updates through a pointer is a value that goes in and
  comes back as a result.
* A thread frees only what it holds: the source does not check for a double free.
* A ring has at most 2^30 slots, so that its mask fits in an `int`.
* `RingState` moves around the ring with plain case distinctions; the masking of the source is
  in `IndexArithmetic`, proved equal to them, and the methods use the masking.

Where the code and its documentation disagree, the model follows the code:

* The comment on `http_message_receive_body` (`src/http/http_message.c:59-65`) promises to wait
  when no buffer is free. The code stops there, and after any read that fails or gets nothing,
  and reports a complete body. `BodyIsCompleteIff` says when that report is true, and two
  lemmas give a source for each way in which it is not.
* Section 3.2 of RFC 7230 ends a field name at the first colon of a line, the code at the last.
  `ParseIsRightIff` says when that makes no difference, and `KnownValues` what is lost.
* The comment on `max_len` (`src/http/http_headers.h:18`) gives its initial value as [-1, -1]; the
  code sets [0, 0].
* `op_add_circ_pointers` ignores a failed feed and walks on around the ring. `AddIsRightIff`
  says exactly when it is right before it has gone once around, and `AddLapsWhenDry` and
  `AddPastAFailedRead` show what happens otherwise: wrong places, and one that is right by
  accident, after a lap.

## Model

| member | source | states |
|---|---|---|
| IndexArithmetic.WordMask | src/buffers/circular_buffer.c:14-28 | masking the 32-bit word of any value, negative ones included, with 2^k - 1 is reduction modulo 2^k, for every k |
| IndexArithmetic.IncrementIsModular | src/buffers/circular_buffer.c:14-17 | the masked increment is (value + 1) mod 2^mask, in range or not |
| IndexArithmetic.DecrementIsModular | src/buffers/circular_buffer.c:25-28 | the masked decrement is (value - 1) mod 2^mask, below zero too |
| IndexArithmetic.DecrementUndoesIncrement | src/buffers/circular_buffer.c:14-28 | decrement undoes increment modulo the ring size |
| IndexArithmetic.IncrementUndoesDecrement | src/buffers/circular_buffer.c:14-28 | increment undoes decrement modulo the ring size |
| IndexArithmetic.CircularIncrement | src/buffers/circular_buffer.c:14-17 | on a slot number the masked increment is the next slot, and slot 0 after the last |
| IndexArithmetic.CircularDecrement | src/buffers/circular_buffer.c:25-28 | on a slot number the masked decrement is the slot before, and the last before slot 0 |
| BufferPool.SharedBuffers.constructor | src/buffers/shared_buffers.c:31-45 | the release loop leaves every buffer zeroed and available, the last one on top |
| BufferPool.SharedBuffers.ReleaseBuffer | src/buffers/shared_buffers.c:77-81 | zeroes the buffer and pushes its number, and touches nothing else |
| BufferPool.SharedBuffers.AllocBuffer | src/buffers/shared_buffers.c:52-66 | takes the entry at last off the free list and returns it, or returns -1 and changes nothing when the list is empty |
| BufferPool.SharedBuffers.FreeBuffer | src/buffers/shared_buffers.c:68-75 | the buffer, whoever holds it, is all NUL afterwards and on top of the list, and no other is touched; a number that is no buffer changes nothing; the pool stays valid if and only if the buffer was not available already |
| BufferPool.SharedBuffers.GetBuffer | src/buffers/shared_buffers.c:47-50 | the bytes of the buffer |
| BufferPool.SharedBuffers.AvailableBuffers | src/buffers/shared_buffers.c:83-86 | last + 1 is the length of the free list |
| BufferPool.FreeAfterAlloc | src/buffers/shared_buffers.c:52-75 | last in, first out: freeing what was just allocated restores the free list, and the next alloc gets it again |
| BufferPool.RoomForHeld | src/buffers/shared_buffers.c:68-81 | freeing a held buffer never overruns the list and lists no buffer twice |
| ThreadedPool.StepExplained | src/buffers/shared_buffers.c:52-81 | every single memory access or semaphore operation of any thread keeps the invariant (mutual exclusion, and every buffer owned once), has the effect of its event on the pool, and balances the books of that thread: what it frees or writes it owned, what it is given nobody else owned; an alloc fails exactly when no buffer is available |
| ThreadedPool.ThreadsRefineThePool | src/buffers/shared_buffers.c:31-81 | linearizability, over every schedule of any number of threads: step k takes the pool of state k to that of state k + 1 by the event of the thread scheduled at k; and at every moment the alloc events of each thread are, in order, the results it was returned and at most one more, each after its call, and its free events are, in order, its calls and at most one fewer |
| ThreadedPool.RunIsLinear | src/buffers/shared_buffers.c:52-75 | for one thread: every call takes effect exactly once, between its call and its return, with the result that is returned |
| ThreadedPool.ThreadsShareSafely | src/buffers/shared_buffers.c:52-81 | at every moment of every interleaving no buffer is owned by two threads, or by one and the list; the list has no duplicates; and whenever the semaphore is free, available + owned == capacity |
| ThreadedPool.OwnedBytesAreSafe | src/buffers/shared_buffers.c:47-81 | while a thread owns a buffer no step of another thread changes its bytes |
| ThreadedPool.GuardsHold | src/buffers/shared_buffers.c:52-81 | every access to the list and to a buffer is within its bounds, in every interleaving: a thread that may go on does |
| ThreadedPool.NoDeadlock | src/buffers/shared_buffers.c:52-81 | while any thread is inside a call, some thread may go on |
| ThreadedPool.AllocGivesTheTop | src/buffers/shared_buffers.c:52-66 | a call of alloc_buffer with a buffer available and the semaphore free: after seven more steps the thread has been returned, and holds, the top of the list, and nothing else has changed |
| ThreadedPool.AllocGivesNothing | src/buffers/shared_buffers.c:52-66 | with none available: after four more steps -1 has been returned and nothing has changed |
| ThreadedPool.FreePutsOnTop | src/buffers/shared_buffers.c:68-81 | a call of free_buffer for a held buffer: after six more steps it is all NUL, on top of the list, and no longer held |
| ThreadedPool.FreeIgnoresOthers | src/buffers/shared_buffers.c:68-75 | for a number that is no buffer: after three more steps nothing has changed |
| ThreadedPool.HolderWrites | src/buffers/shared_buffers.c:47-50 | a thread can write to the buffers it holds, and changes no other |
| ThreadedPool.FirstAlloc | src/buffers/shared_buffers.c:31-66 | from the start, the first thread to call alloc_buffer is given the last buffer |
| ThreadedPool.ThreadsShareBlankBuffers | src/buffers/shared_buffers.c:31-81 | at every moment of every interleaving every available buffer is all NUL |
| RingState.CountBounds | src/buffers/circular_buffer.c:89-97 | the live count is between 0 and 2^size - 1; empty exactly at 0, full exactly at 2^size - 1 |
| RingState.FedKeepsLedger | src/buffers/circular_buffer.c:104-142 | a feed appends one slot to the live window and moves one buffer from the free list to it |
| RingState.AllocIsAFailedRead | src/buffers/circular_buffer.c:104-117 | an allocated slot that is not read is a failed read, so runs of reads and sends stand for runs of allocations too |
| RingState.FedIsValid | src/buffers/circular_buffer.c:104-142 | a feed, also of nothing and also failing in the source, keeps the invariant and takes exactly one unit of room |
| RingState.SentKeepsLedger | src/buffers/circular_buffer.c:76-87 | sending moves the oldest slot's buffer back to the free list, and no other |
| RingState.SentIsValid | src/buffers/circular_buffer.c:76-87 | sending keeps the invariant of the ring and the pool |
| RingState.PoppedWindow | src/buffers/circular_buffer.c:76-87 | sending takes the oldest slot off the window and leaves the others, wrapped around or not |
| RingState.PushedWindow | src/buffers/circular_buffer.c:104-128 | receiving adds one slot at the end of the window and leaves the others, wrapped around or not |
| ByteStream.FedBytes | src/buffers/circular_buffer.c:119-142 | the live bytes grow at their end by exactly what the source handed over |
| ByteStream.FeedTakesWhatFits | src/buffers/circular_buffer.c:119-123 | a read takes the first delivery up to max_size bytes, reports how many, and leaves the rest; a failure is reported as it is |
| ByteStream.SentBytes | src/buffers/circular_buffer.c:61-87 | the live bytes lose at their front exactly the bytes of the oldest slot, although its buffer is zeroed |
| CircularBuffers.CircularBuffer.constructor | src/buffers/circular_buffer.c:30-48 | a new ring is empty, with -1 in all slots |
| CircularBuffers.CircularBuffer.IsFull | src/buffers/circular_buffer.c:89-92 | the masked test is the fullness of the ring |
| CircularBuffers.CircularBuffer.AllocEntry | src/buffers/circular_buffer.c:104-117 | the new ring, pool and result are those of the value model; -2 exactly when the ring is full, -1 when it is not and the pool is empty, and otherwise the new next slot |
| CircularBuffers.CircularBuffer.ReadIntoNextBuffer | src/buffers/circular_buffer.c:119-123 | writes what the source delivers to the front of the newest slot's buffer, and to no other |
| CircularBuffers.CircularBuffer.SetDataSizeForLastReceivedBuffer | src/buffers/circular_buffer.c:125-128 | sets the size of the newest slot only, to anything; the ring stays in order if and only if the size fits that slot |
| CircularBuffers.CircularBuffer.FeedNextBuffer | src/buffers/circular_buffer.c:130-142 | the three steps in place are one feed; the end pointer moves only when bytes came; without room nothing changes, and -2 or -1 says why |
| CircularBuffers.CircularBuffer.BufferHasBeenSent | src/buffers/circular_buffer.c:76-87 | frees the oldest slot's buffer, resets the slot, moves the head and returns its number; -2 and no change when empty |
| CircularBuffers.CircularBuffer.GetToBeSent | src/buffers/circular_buffer.c:61-74 | the buffer and the size of the oldest slot, together its bytes; no buffer and -1 for an empty ring |
| ManyRings.StepKeepsWorld | src/buffers/circular_buffer.c:76-142 | every read or send on any ring keeps all rings valid and every pool buffer in one place |
| ManyRings.StepLeavesOthers | src/buffers/circular_buffer.c:76-142 | a step on one ring changes no slot and no live byte of another, although they share the pool |
| ManyRings.RunKeepsQueues | src/http/http_message.c:30-90 | over every run on any number of rings: sent ++ live == received in each, and sent ++ live ++ still to come never changes |
| ManyRings.LiveAndFreeAddUp | src/buffers/circular_buffer.c:76-117 | available buffers + the live counts of all rings == capacity |
| ManyRings.LiveSlotsAreExclusive | src/buffers/circular_buffer.c:104-117 | any two live slots, of one ring or of two, name different buffers, and no available one |
| ManyRings.NewWorldIsValid | src/buffers/circular_buffer.c:30-48 | new rings on a new pool satisfy all of this to begin with |
| BlankBuffers.RunKeepsTidy | src/buffers/shared_buffers.c:68-81 | over any run on any number of rings every available buffer is all NUL, and so is every buffer in use behind the bytes of its slot: no message is followed by bytes of another |
| BlankBuffers.NewWorldIsTidy | src/buffers/shared_buffers.c:31-45 | that holds to begin with |
| PointerSubtraction.AddThenSub | src/buffers/circular_buffer.c:174-203 | whenever the addition is possible, both loops stop, one after the other, at the same stream position, and at the same pointer if and only if that was before the end of its slot or nothing was added |
| PointerSubtraction.SubThenAdd | src/buffers/circular_buffer.c:174-203 | whenever the subtraction is possible, so is the addition after it; it feeds nothing and leads to the same position, and to the same pointer if and only if that was not at the start of its slot or nothing was subtracted |
| CircularBuffers.AddAndSubtract | src/buffers/circular_buffer.c:174-203 | the same of the two operations in a row on a ring: after op_add, op_sub by the same number may always be called |
| CircularBuffers.SubtractAndAdd | src/buffers/circular_buffer.c:174-203 | the same the other way round, with the ring, the pool and the source unchanged |
| PointerSubtraction.SubIsRightIff | src/buffers/circular_buffer.c:192-203 | on any ring, failed reads or not, and for any number, the loop stops that many bytes earlier without leaving the live window if and only if as many are there and no failed read is on the way |
| StreamPointers.LandsForwardOnce | src/buffers/circular_buffer.c:174-190 | there is only one place where an addition may land |
| StreamPointers.LandsBackOnce | src/buffers/circular_buffer.c:192-203 | there is only one place where a subtraction may land |
| StreamPointers.LostNothing | src/buffers/circular_buffer.c:157-172 | what negative sizes take off a sum of sizes is nothing exactly when no read in between failed |
| StreamPointers.CmpIsLexicographic | src/buffers/circular_buffer.c:224-237 | between live slots the sign of the comparison is the lexicographic order of (steps from the head, offset), wrapped or not; zero means equal; it is antisymmetric |
| StreamPointers.CmpFollowsTheStream | src/buffers/circular_buffer.c:224-237 | it refines the order of stream positions |
| StreamPointers.CmpToLastReceived | src/buffers/circular_buffer.c:213-222 | never positive on a received byte; zero exactly at the last byte received, except after a read that got nothing or failed, when it is negative there too |
| PointerAddition.AddMovesForward | src/buffers/circular_buffer.c:174-190 | if enough bytes can be loaded before a read fails, the loop stops, ask bytes further, in the first slot whose end reaches that far, after the fewest feeds that suffice |
| PointerAddition.AddIsRightIff | src/buffers/circular_buffer.c:174-190 | on any ring and any source, failed reads or not, and for any number, the loop stops that many bytes further without going once around the ring if and only if no failed read is on the way and enough bytes are live or can be loaded before one fails |
| PointerAddition.AddIsEverRightIff | src/buffers/circular_buffer.c:174-190 | and while no read fails, going around does not help: it stops there at all if and only if enough bytes are live or can be loaded |
| PointerAddition.AddLapsWhenDry | src/buffers/circular_buffer.c:179-186 | a full ring and an exhausted source: it stops at a wrong place, once around the ring |
| PointerAddition.AddPastAFailedRead | src/buffers/circular_buffer.c:179-186 | a ring with a failed read in it: asked for 5 bytes the loop stops at byte 11, and asked for 10 it is right at byte 10, but only by going once around |
| PointerAddition.StillThere | src/buffers/circular_buffer.c:130-142 | the feeds in between leave every older pointer at its slot and position |
| CircularBuffers.CircularBuffer.OpAdd | src/buffers/circular_buffer.c:174-190 | the loop in place terminates and lands where an addition lands, with the fewest feeds; the same number can be subtracted again |
| CircularBuffers.CircularBuffer.OpSub | src/buffers/circular_buffer.c:192-203 | the loop lands exactly ask bytes earlier, in the first slot from there back that starts early enough; the same number can be added again |
| CircularBuffers.CircularBuffer.OpDistance | src/buffers/circular_buffer.c:157-172 | the difference of the stream positions, across wraps and empty slots, less what failed reads take off, so exactly the difference if and only if no read in between failed; from a later slot to an earlier one, more by the sum of all sizes of the ring |
| CircularBuffers.CircularBuffer.Cmp | src/buffers/circular_buffer.c:224-237 | between live slots, wrapped or not: negative exactly when the first pointer is in an earlier slot, or earlier in the same slot; zero exactly when they are equal; and never negative against the order of the stream |
| CircularBuffers.CircularBuffer.CmpToLastReceived | src/buffers/circular_buffer.c:213-222 | non-negative exactly when no byte of the newest slot comes after the pointer; on a received byte zero exactly at the last one of the stream, unless the newest slot is without bytes, and otherwise negative |
| CircularBuffers.CircularBuffer.GetChar | src/buffers/circular_buffer.c:205-208 | the byte under the pointer |
| CString.StrNCpyIsPrefix | src/buffers/circular_buffer.c:248-252 | what strncpy writes is the wanted prefix, to a reader that stops at NUL |
| CircularBuffers.CircularBuffer.Buffer2StrCopy | src/buffers/circular_buffer.c:240-255 | the copy has the length of the distance and is the slice of the stream, byte for byte without a NUL, and up to the NUL with one |
| StablePositions.BetweenComposes | src/buffers/circular_buffer.c:157-172 | slices of adjacent stretches join up, and their distances add |
| StablePositions.BytesLayout | src/buffers/circular_buffer.c:157-172 | the sum of the sizes of the slots before a slot is where its bytes start in the flat stream |
| StablePositions.BetweenIsStream | src/buffers/circular_buffer.c:240-255 | what lies between two pointers is the slice of everything the channel ever carries between their absolute positions |
| StablePositions.RunKeepsPointer | src/buffers/circular_buffer.c:76-142 | over any run on any rings, failed reads included, a pointer whose slot is not sent keeps its absolute position in the stream |
| StablePositions.RunKeepsWindow | src/buffers/circular_buffer.c:76-142 | over any run the live slots that are not sent stay as they are, sizes included, and new ones come after them |
| StablePositions.RunKeepsBetween | src/buffers/circular_buffer.c:157-255 | so between surviving pointers the bytes, the difference of the positions, what failed reads take off it, and whether there is one, never change: the code's distance and copy stay what they are |
| HeaderTable.FindHeaderIndex | src/http/http_headers.c:241-257 | on any sorted table the search finds the key exactly when it is there, returns -1 otherwise, and compares at most (ceil(log2(n+1)) + 1) * (floor(log2 n) + 1) times |
| HeaderTable.IndexIsUnique | src/http/http_headers.c:241-257 | there is only one right answer |
| HeaderTable.BitsIsFloorLog2 | src/http/http_headers.c:241-257 | the second factor of the bound is floor(log2 n) + 1 |
| HeaderTable.CeilLog2IsCeilLog2 | src/http/http_headers.c:241-257 | the first factor of the bound is ceil(log2(n+1)) + 1 |
| HeaderTable.HeaderTableIsSorted | src/http/http_headers.c:280-362 | the 81 names of the source are strictly sorted by strcmp, and Content-Length is number 21 |
| HeaderTable.KnownIndex | src/http/http_headers.c:241-257 | every known name is found at its own index and nothing else is |
| HeaderNumbers.Numbers5 | src/http/http_headers.h:71-151 | HTTP_FROM to HTTP_LARGE_ALLOCATION are the places of their names in the table; Numbers1 to Numbers9 say the same of all 81 |
| HeaderText.RunIsMaximal | src/http/http_headers.c:149-154 | the run holds no line end and stops only at one or at the end |
| HeaderText.SplitConserves | src/http/http_headers.c:137-158 | line ends and runs, joined, are the text |
| HeaderText.SplitIsWellFormed | src/http/http_headers.c:137-158 | every piece has at most one line end, and only the first may have none |
| HeaderText.EolForms | src/http/http_headers.c:59-84 | exactly CR LF and LF CR are line ends of two bytes, exactly an LF before anything but a CR is one of one byte |
| HeaderText.FieldsOfRendered | src/http/http_headers.c:220-232 | rendered lines, whatever the mixture of line ends, are read one by one and end at the blank line |
| HeaderText.BlockIsRead | src/http/http_headers.c:220-232 | a block is read as its header lines and nothing of its first line or of what follows |
| HeaderText.BlockEndsAtBlank | src/http/http_headers.c:220-232 | the decoder stops at the blank line and no further; half way into it when a lone LF comes before its CR LF |
| HeaderText.NamelessLineStops | src/http/http_headers.c:225-231 | a line whose last colon is its first byte ends the header like a blank line |
| HeaderText.ParseIsRightIff | src/http/http_headers.c:149-152 | name and value come back if and only if the value has no colon |
| HeaderText.ColonEndsLater | src/http/http_headers.c:150-151 | with a colon in the value the name read goes on into the value |
| HeaderText.KnownValues | src/http/http_headers.c:192-209 | of every known name the values read are those without a colon, in order; lines with one are lost altogether |
| HeaderText.StoreHolds | src/http/http_headers.c:192-209 | each stack receives the values of its own name, in order, and no others |
| HeaderText.DecodingUndoesRendering | src/http/http_headers.c:220-232 | each header's stack holds exactly the colon-free values of its lines, in order; unknown names change nothing |
| HttpHeaderDecoder.HttpHeaders.constructor | src/http/http_headers.c:40-56 | empty stacks, all pointers at the first byte |
| HttpHeaderDecoder.HttpHeaders.IsEol | src/http/http_headers.c:59-84 | -1 exactly with no byte left, otherwise the length of the line end made by the one or two bytes at the pointer |
| HttpHeaderDecoder.HttpHeaders.IsPtrPointingToEolOrEos | src/http/http_headers.c:86-123 | nonzero at a line end, and at the end of the stream; nothing is read while two bytes or more follow in the slot or the next slot has been read, and otherwise one feed is made; with more data behind the last byte, or past it, the bytes that are tested although they do not follow in the stream |
| HttpHeaderDecoder.HttpHeaders.SkipEolIfPresent | src/http/http_headers.c:128-135 | steps over one line end, and over nothing else |
| HttpHeaderDecoder.HttpHeaders.LookAhead | src/http/http_headers.c:93-97 | the size of the slot after this one if that has been read, and nothing changes; otherwise one feed and what it reports, which is then the size of that slot; never positive at the end of the stream |
| HttpHeaderDecoder.HttpHeaders.Refill | src/http/http_headers.c:141-146 | one feed when the ring is empty or no byte comes after the pointer, and nothing otherwise; max_len is the end of what came, if anything did |
| HttpHeaderDecoder.RefillsAtTheEnd | src/http/http_headers.c:141-146 | in terms of the stream: more is read with no byte in the ring, at the last byte received and at the end of the newest slot, and at no other byte |
| HttpHeaderDecoder.HttpHeaders.ScanRun | src/http/http_headers.c:149-154 | the scanning loop ends exactly where the run ends, with the last colon of the run marked; nothing is read if two bytes or more follow there |
| HttpHeaderDecoder.HttpHeaders.GetNextLine | src/http/http_headers.c:137-158 | consumes one line end and one maximal run, and marks the last colon of the run; if two bytes or more follow there, nothing has been read but by the refill at the start |
| HttpHeaderDecoder.HttpHeaders.HeaderStrlen | src/http/http_headers.c:160-162 | the bytes from the start of the line to the read position, across slots, less what failed reads take off |
| HttpHeaderDecoder.HttpHeaders.SkipToValue | src/http/http_headers.c:179-181 | the loop moves from the colon past all spaces and never past the line |
| HttpHeaderDecoder.HttpHeaders.GetHeaderValue | src/http/http_headers.c:178-190 | the rest of the line after the colon and all spaces, as a C string |
| HttpHeaderDecoder.HttpHeaders.HttpHeadersAdd | src/http/http_headers.c:192-209 | pushes the value on the stack of its name, and changes no stack for an unknown one |
| HttpHeaderDecoder.HttpHeaders.DecodeHttpHeaders | src/http/http_headers.c:220-232 | the loop terminates, the stacks hold what the text of the block means, and the read position is where that text stops; if two bytes or more follow there, nothing has been read but by the refill at the start |
| HttpHeaderDecoder.DecodeFirstMessage | src/http/http_headers.c:220-232 | from nothing: a rendered block that arrives in one delivery is decoded to exactly the values rendered, but for those with a colon; and with two bytes or more left in front of the decoder, no later delivery has been read |
| HttpHeaderDecoder.HttpHeaders.DecodeBodyLength | src/http/http_headers.c:18-26 | 0 without a Content-Length, otherwise the newest value as str2int reads it |
| HttpHeaderDecoder.BodyLengthComesThrough | src/http/http_headers.c:11-26 | from the wire to the number: the length printed in the last Content-Length line is the one decoded |
| HttpHeaderDecoder.NoLengthIsZero | src/http/http_headers.c:18-26 | from the wire: a block with no Content-Length, or none whose value is without a colon, gives the body length 0 |
| HttpHeaderDecoder.FirstBodyLength | src/http/http_headers.c:18-26 | from nothing: the body length of a block that arrives in one delivery is that of its last Content-Length without a colon, and 0 if there is none |
| Decimal.Str2Int | src/http/http_headers.c:11-16 | the sum of descending powers is the left-to-right value, for any characters, as long as no step overflows an int |
| Decimal.DigitsFitIff | src/http/http_headers.c:11-16 | on up to ten digits it is the decimal value, and no step overflows if and only if that value is below 2^31 |
| Decimal.ReadPrinted | src/http/http_headers.c:11-16 | reading a printed number gives the number back |
| Decimal.PrintRead | src/http/http_headers.c:11-16 | printing a number read gives the digits back if and only if they have no superfluous leading zero |
| HttpMessages.ReadBodyGains | src/http/http_message.c:66-75 | reading ends after at most one attempt more than there is room, even if the source never does; the bytes gained go to the end of the live bytes and are the next ones of the source |
| HttpMessages.BodyIsCompleteIff | src/http/http_message.c:59-75 | for every source: the body is complete, as the status claims, if and only if no read fails or gets nothing with bytes still to come, and it takes no more reads than there is room |
| HttpMessages.BodyStopsAtAFailure | src/http/http_message.c:70-74 | a failed read with bytes to come and room to spare: incomplete, and reported as complete |
| HttpMessages.BodyOverflows | src/http/http_message.c:70-74 | more bytes than room, and no failed read: incomplete, and reported as complete |
| HttpMessages.HttpMessage.ReadNextBufferFromSource | src/http/http_message.c:30-39 | one feed and what it got; without room, 0 and no change |
| HttpMessages.HttpMessage.HttpMessageReceiveBody | src/http/http_message.c:66-75 | leaves the ring, the length and the number of attempts of that reading, and reports completeness in any case |
| HttpMessages.HttpMessage.SendNextBufferToDestination | src/http/http_message.c:81-90 | sends the oldest slot's bytes, and drops that slot only when told to; an empty ring sends nothing |
| FanOut.ReadKeepsHead | src/http/http_reply.c:61-65 | reading any ring leaves the bytes of the request's oldest slot alone |
| FanOut.FirstReadIsHead | src/http/http_request.c:24-35 | however often an empty request is read, its oldest slot holds what the first read delivered |
| FanOut.ReadBodyIsARun | src/http/http_message.c:66-75 | reading a body is a run of reads on its ring, and touches no other |
| FanOut.BodyIsReceived | src/http/http_message.c:66-75 | after that run nothing is left in the source if and only if the body fitted where it started |
| FanOut.FeedsAreARun | src/buffers/circular_buffer.c:130-142 | so is feeding a ring any number of times, as the decoder does |
| Reception.RenderedCanBeDecoded | src/http/http_request.c:24-35 | a rendered block in the first delivery to an empty ring can be decoded after any number of reads, whatever they bring |
| FanOut.ForwardMovesOnce | src/http/request_replies.c:67-72 | over the first i servers the request is untouched up to the last server, and has moved on by one slot after it |
| RequestReply.RequestReplies.ReadMessage | src/http/http_message.c:30-39 | a read into the ring of any message is one step of the world, and touches no other ring |
| RequestReply.RequestReplies.ReadBodyOf | src/http/http_message.c:66-75 | a run of reads on the message's own ring, after which nothing of the body is left unread if and only if it fitted; the length grows by the bytes the ring gained, and the status is complete |
| RequestReply.RequestReplies.ReceiveRequest | src/http/http_request.c:24-35 | the same for any content: two reads, and as many more as decoding the header takes |
| RequestReply.RequestReplies.DecodeHeaderOf | src/http/http_message.c:51-57 | decoding the header of any message is a run of reads on its own ring, no longer than it has to be, and puts the values of its block on the stacks |
| RequestReply.RequestReplies.ReceiveRequestWithHeader | src/http/http_request.c:24-35 | two reads and the decoding of the header: a run of reads on the request's ring, and the values of the block on the stacks |
| RequestReply.RequestReplies.ReceiveReply | src/http/http_reply.c:55-65 | for any content: one read, as many as decoding the header takes, and the body, all of it if and only if it fits; a run of reads on the reply's own ring |
| RequestReply.RequestReplies.ReceiveReplyWithHeader | src/http/http_reply.c:55-65 | one read, the decoding of the header, and the body, all of it if and only if it fits: a run of reads on the reply's ring, and the values of the block on the stacks |
| RequestReply.RequestReplies.SendRequest | src/http/http_reply.c:37-41 | this server gets the oldest request slot; the ring moves on only for the last server |
| RequestReply.RequestReplies.SendRequestToServerAndWaitReply | src/http/http_reply.c:67-85 | in sequential mode, the send and then the reply, all of its body if and only if it fits |
| RequestReply.RequestReplies.ForwardRequestToAllServers | src/http/request_replies.c:67-72 | every server gets the same bytes, the oldest request slot at entry; the request moves on by that slot once; no ring loses, repeats or reorders a byte; and nothing of a reply is left unread if and only if its body fitted |
| RequestReply.RequestReplies.ServeRequest | src/http/request_replies.c:62-72 | a request read into its empty ring and forwarded: every server gets exactly what the client delivered to the first read, and that much of the request is gone |
| RequestReply.FirstExchange | src/http/request_replies.c:62-72 | the whole of it from an empty pool: whatever the client and the servers deliver, every server receives exactly the first chunk the client delivered, cut at max_size, and nothing if its first read fails |
| RequestReply.NewRequestReplies | src/http/request_replies.c:9-20 | a request and replies with their own empty rings satisfy the invariant that forwarding needs |

## Left out

- PointerAddition.AddIsEverRightIff: only while no read fails; over a failed read a lap around the ring can be right by accident, as AddPastAFailedRead shows.
- CircularBuffers.CircularBuffer.OpAdd: only under the condition of AddIsRightIff; otherwise the loop is wrong or goes once around the ring, and it may not stop.
- CircularBuffers.CircularBuffer.OpSub: only under the condition of SubIsRightIff; otherwise the loop is wrong or walks into slots that were sent off.
- CircularBuffers.CircularBuffer.Buffer2StrCopy: only for a start not behind the end, with no failed read in between; otherwise a length passed to strncpy is negative.
- BufferPool.SharedBuffers.FreeBuffer: only while the list has room; a double free into a full list writes past its end.
- CircularBuffers.CircularBuffer.ReadIntoNextBuffer: only a ring that is not empty; otherwise the slot before next names no buffer of the ring.
- HttpHeaderDecoder.HttpHeaders.HeaderStrlen: nothing of a line start behind the read position.
- HttpHeaderDecoder.HttpHeaders.DecodeHttpHeaders: a block that lies in one slot, of any length and at any offset, with any later slots and deliveries; the scanner looks one byte too far where a slot ends.
- HttpHeaderDecoder.HttpHeaders.DecodeHttpHeaders: not lines without a colon, which take the last colon of an earlier line, nor blocks without a blank line, on which the loop may not stop.
- HttpHeaderDecoder.HttpHeaders.GetNextLine: within one slot, for the same reason; so are the scanning loop, the skipping of spaces and the copying of names and values.
- HttpHeaderDecoder.HttpHeaders.ScanRun: a run that ends with the slot only at the end of the stream.
- HttpHeaderDecoder.HttpHeaders.SkipToValue: a value in the slot of its line.
- HttpHeaderDecoder.HttpHeaders.GetHeaderValue: a value in the slot of its line.
- HttpHeaderDecoder.HttpHeaders.HttpHeadersAdd: a line with a colon of its own, in one slot.
- HttpHeaderDecoder.HttpHeaders.IsPtrPointingToEolOrEos: not past the last byte of a slot that is followed by a failed read; there the source feeds a slot further on.
- HttpHeaderDecoder.HttpHeaders.DecodeBodyLength: values whose sums fit in an int; the source does not reject others.
- Decimal.Str2Int: what overflows an int, and more than ten characters, is undefined in the source.
- HttpMessages.HttpMessage.SendNextBufferToDestination: the sink is an append; a short write or an error of send_data is not modelled. A slot of negative size puts nothing.
- RequestReply.RequestReplies.ReceiveRequest: for any content, so decoding is some number of reads; ReceiveRequestWithHeader decodes.
- RequestReply.RequestReplies.ReceiveReply: for any content, so decoding is some number of reads; ReceiveReplyWithHeader decodes.
- RequestReply.RequestReplies.SendRequestToServerAndWaitReply: only FORWARD_MODE_SEQ, and a connection that is open already.
- RequestReply.NewRequestReplies: create_reply never sets response_message; the model gives each reply a message with its own ring.
- SYNC and ASYNC forwarding: the envelope is freed while the thread may still use it, and the last server may drop the request before others have sent it.
- Connection handling and keep-alive in src/http/http_connection.c: the request is cleared before it is read.
- raw_message_length after decoding a header: header_size is never set.
- free_circular_buffer: live buffers are not returned to the pool; the model never frees a ring.
- override_max_buffers and override_tx_buffer_size: parameters of the pool's constructor.
- Sockets, files, routes, YAML and logs: input and output around the modelled part.
- http_headers_to_string, first-line decoding and the str_stack library, which is not part of this model: a stack is a sequence of strings, the newest last.
- malloc, free, printf and the floating-point pow: integer powers instead.
- ThreadedPool: the pool's initialisation happens before the threads start, and reads of available_buffers without the semaphore are not part of it.
