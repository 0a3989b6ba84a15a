# riser, verified in Dafny

riser is a server for the Redis protocol on top of leveldb, with master/slave replication, and it
carries hiredis and parts of libevent with it.  This project models the parts of it that are hard to
get right and proves what they are for:

- **Replication** (`Replication`, `ReplicationBatch`, `ReplicationRuns`, `ReplicationSteps`,
  `Convergence`, `ReplicationDrain`, `ReplicationFailures`, `ListQueue`).  The master keeps two queues per slave, sends batches of at most two
  items, marks what it sent and removes the marked items when the slave answers "ok".  The protocol is a
  state machine over client writes, handler runs, bytes that arrive in any cut behind the header,
  acknowledgements and broken links; the slave parses the bytes.  Main results: `Convergence` (in every run,
  a key on which the stores differ is still queued or on the way, so that stores agree when nothing is),
  `NoDeadlock` and `ProtocolRunsDrain` (without new writes the queues drain in at most as many rounds as
  there are items), and `RoundsDrain` (so they do for any stores, expiring keys included).
- **The replication wire** (`Wire`, `MsetParser`, `SlaveParser`, `Link`, `LinkExact`, `LinkCommands`).  What the master prints,
  the slave's parsers read back: `AnyCut` (the resumable MSET parser gives the same answer for every cut of
  the stream), `Delivered` (for every cut behind the header the slave's database changes as the message says,
  expiry included), and the exact conditions under which an item or a deletion survives
  (`ItemDeliveredExact`, `DelDeliveredExact`).
- **hiredis** (`Resp`, `RespEncoding`, `Reader`, `Formatter`, `FormatterWords`, `Sds`, `Dict`, `DictIterator`).  The incremental reader gives
  the same replies for every chunking (`AnyChunking`, `ReadStream`), undoes the encoding of every reply tree
  that its stack can hold (`ChunkedRoundTrip`) and of every command (`CommandRoundTrip`); the three
  formatters print the same bytes; `sdssplitargs` undoes every way of quoting (`SplitsBack`, `BadQuotes`);
  the hash table answers every run of operations like a finite map (`Dict.RunAll`), and a walk over it meets
  every binding once even while visited entries are deleted (`VisitAll`); any other deletion is safe exactly
  when the saved pointer does not lead to the deleted entry (`DeleteDuring`).
- **libevent** (`Evbuffer`, `EvbufferRuns`, `EvbufferSearch`, `TokenBucket`, `RateLimit`).  Chains of buffers behave as byte
  strings in every run over several buffers (`EvbufferRuns.RunAll`) and are searched as such (`SearchRange`); the
  token bucket keeps its bandwidth over whole runs (`BandwidthBound`); the rate limiter loses no wake-up in any
  run in which no overfilled bucket wraps around (`RateLimit.RunAll`), and a waiting direction resumes exactly
  when the ticks that passed pay its debt (`FireUntil`).
- **Prefix scans** of the key store (`Scan`) that stop early and still return every match.

Objects whose methods update fields are classes; lists they change are sequence fields.  Each method is
proved against a function of the old state, and the laws are lemmas about those functions.  Bytes are
`char`s, byte strings are `string`s.

## Where the code does not do what one might expect

Each of these is stated for the code as it is, with an input that shows it and a condition under which the
expected property holds.

- `ReplyItem` prints into a buffer of 100 bytes, and the key as a C string, while clients may store longer keys.
  A pair reaches the slave if and only if its key has no NUL and its header fits (`ItemDeliveredExact`, and over
  the run of one write `OneWriteExact`).  Past that the slave may wait forever: `LongKeyStops` shows a family of
  keys, among them every key of 120 bytes with a short value (`LongKeyExists`), for which no step is left however
  the bytes arrive.  A deletion survives if and only if its key is a non-empty line (`DelDeliveredExact`).  Runs
  are limited to writes of such pairs and to removals of such keys.
- The master never sends the empty key in an mset command, and its removal cannot be said on the wire
  (`EmptyKeyRefused`).  Stores end up equal exactly when the master does not hold it (`Convergence`).
- A poll while a batch is outstanding leaves old marks in the queue.  A shorter batch that is sent then and
  acknowledged removes items that were not sent again: `StaleMarksLoseAKey` shows a run that loses a key.
  The marks match the message exactly when there are no more old marks than items in the new batch
  (`MarksMatchMessage`); runs are limited by that guard.  Without it a round keeps the invariant if and only if
  each key that is removed unsent agrees already or is queued again behind the removed items (`RepollExact`).
- `evbuffer_add` writes to the last chain of the list even when empty chains follow the last one with data.
  It is right on all lists without such chains (`AddKeeps`), and `AddExact` tells on which of the others.
- The bucket update equals min(maximum, limit + ticks * rate) exactly when the limit is within the maximum or
  the gain reaches the wrapped difference (`RefillExact`).  Manual refills can exceed the maximum, and then the
  unsigned arithmetic can make a bucket negative: `OverfullBucketWraps` is a run that ends unsuspended, without
  bandwidth and without a timer.  `UpdateKeepsPositive` gives the exact condition, and the rate limiter's methods
  keep their invariant if and only if it holds.
- The comment above `MAX_TO_READ_EVER` says that no single operation moves more.  `GetMax` states when it may:
  just when the bufferevent has a bucket of its own with more in it, and no group gives it less.  `WideRead` is
  an input.
- A change of the tick length keeps the number of the last tick.  The ticks credited later are those that passed
  exactly under the condition of `TickChangeExact` on the two lengths and times.  A longer tick can stall
  (`LongerTickStalls`: nothing is credited for an hour), a shorter one can credit what never passed
  (`ShorterTickFills`: a debt turns into a full bucket at once).

## Assumptions of the replication model

A store write and its `Push` are one step, and so is attaching a slave with an empty store.  Clients write pairs
that the link can carry: the key has no NUL, the printed header fits its buffer, and the value is no longer than
INT_MAX.  The empty key and keys with line breaks may be written, but not removed.  A command's header arrives in the
first read.  The link delivers in order and may break at any time, after which the slave polls again.  Stored values
carry no expiry in runs (`BatchIs` and `Delivered` cover expiring keys for single messages).  Store calls succeed.

## Model

| member | source | states |
|---|---|---|
| `Replication.GentReplication.constructor` | gent_repl.cpp:306-335 | a full sync queues one unmarked ADD item per key, in order, and counts them; otherwise both queues are empty |
| `Replication.GentReplication.Push` | gent_repl.cpp:343-356 | appends an unmarked item to the live queue, keeps the queue invariant, and wakes the sender just when nothing was queued and the slave is connected |
| `Replication.GentReplication.Pop` | gent_repl.cpp:358-397 | removes exactly the leading run of marked items from the active queue and counts them off |
| `Replication.PopMarked` | gent_repl.cpp:358-397 | the bounded loop removes exactly the marked prefix, first in first out |
| `Replication.GentReplication.FrontNums` | gent_repl.cpp:416-430 | an exhausted full-sync queue hands over to the live queue; then at most num items from the front |
| `Replication.GentReplication.Start` | gent_repl.cpp:460-542 | the answer and the new queues that the specification gives for every message (what those are: StartEffect, ControlAnswers, and the runs, in which polls are "data" and acknowledgements "ok"), and the invariant: marks form a prefix of at most SYNC_NUM items of the active queue and the length counts both queues |
| `Replication.GentReplication.Serve` | gent_repl.cpp:477-542 | acknowledgement, hand-over and next batch as one step of the state |
| `Replication.SendBatch` | gent_repl.cpp:494-541 | the loop prints exactly the text of the batch message and marks exactly the items it covers |
| `Replication.ServeKeepsValid` | gent_repl.cpp:477-542 | every request, re-polls included, keeps the invariant on marks, status and length |
| `Replication.PopClearsMarks` | gent_repl.cpp:358-397 | an acknowledged batch leaves no mark in the active queue |
| `Replication.BatchProgress` | gent_repl.cpp:494-541 | whatever heads the queue, a batch covers at least one item and no more than were looked at |
| `ReplicationBatch.BatchIs` | gent_repl.cpp:494-541 | a batch is the whole leading run of keys present for good, as one mset in order without the empty name; only when that is empty does the next item go alone: removed when gone or lapsed, otherwise with the life it has left, or for good when it lapses in this very second |
| `ReplicationRuns.BatchMeans` | gent_repl.cpp:494-541 | after applying a batch every key it names is as on the master, unless the batch is a queued deletion, and no other key changes |
| `ReplicationRuns.BatchCovers` | gent_repl.cpp:494-541 | differences that remain after a batch are named by items behind it |
| `Convergence.AttachedInv` | gent_repl.cpp:306-335 | attaching an empty slave establishes the invariant |
| `ReplicationRuns.BatchSendable` | gent_repl.cpp:494-541 | in every state of a run the next message is one that the printer prints whole and the slave understands |
| `ReplicationSteps.DeliverResult` | gent_repl.cpp:460-580 | whatever way the bytes of the message are cut behind the header, the slave that parses them ends up with its effect and answers |
| `Convergence.StepKeepsInv` | gent_repl.cpp:343-542 | each write, removal, handler run, arrival of bytes, acknowledgement and broken link keeps the invariant |
| `Convergence.RunKeepsInv` | gent_repl.cpp:343-542 | every state of every run satisfies it |
| `Convergence.Convergence` | gent_repl.cpp:306-580 | in every run over the bytes of the link, when both queues are empty and nothing is on the link, slave and master agree on every non-empty key, and are equal exactly when the master has no empty key |
| `ReplicationSteps.AckProgress` | gent_repl.cpp:358-397 | each acknowledged round removes at least one and at most SYNC_NUM items, for any stored values, expiring ones included, and any time |
| `ReplicationSteps.StartEffect` | gent_repl.cpp:460-542 | only "ok" while a batch is out removes anything, and then exactly the marked items at the front; "data" removes nothing whatever is out; all else that is queued keeps its names, kinds and order; any other message touches nothing; the handler is silent just when nothing is left |
| `ReplicationSteps.LastMessage` | gent_repl.cpp:53-73 | a wake-up is served with the last message: while no batch is out "ok" and "data" are the same |
| `ReplicationDrain.NoDeadlock` | gent_repl.cpp:343-542 | while anything is queued or on the way, also after a broken link, some protocol step can be taken, provided no more marks are left over than the next batch covers |
| `ReplicationDrain.ProtocolStepShrinks` | gent_repl.cpp:460-542 | without new writes each protocol step makes a measure smaller, and the backlog by at least one for each acknowledgement |
| `ReplicationDrain.ProtocolRunsDrain` | gent_repl.cpp:460-580 | without new writes runs are bounded, n items take at most n acknowledged rounds however the bytes are cut, and a run that can go no further has drained the queues with both stores agreeing |
| `ReplicationDrain.RoundsDrain` | gent_repl.cpp:358-542 | with any store and time in each acknowledged round, whatever mix of adds, deletions, missing, lapsed and expiring keys is queued: n items are gone after at most n rounds and not before n / SYNC_NUM |
| `ReplicationFailures.MarksMatchMessage` | gent_repl.cpp:477-541 | after a re-poll the marks match the message sent if and only if there were no more old marks than items in the new batch |
| `ReplicationFailures.RepollExact` | gent_repl.cpp:358-542 | a poll served with any old marks, delivered in any cut and acknowledged, keeps the invariant if and only if each key popped unsent agrees already or is named again behind the popped items |
| `ReplicationFailures.StaleMarksLoseAKey` | gent_repl.cpp:477-486 | a concrete run outside that condition that ends quiet with a key missing on the slave |
| `ReplicationFailures.OneWriteExact` | gent_repl.cpp:573-580 | one write, sent and delivered: the slave has it if and only if its key has no NUL and its header fits the printer's buffer |
| `ReplicationFailures.LongKeyStops` | gent_repl.cpp:573-580 | for every key whose end the slave never sees: however the bytes arrive it does not answer, the item stays queued and no protocol step is left |
| `ReplicationFailures.LongKeyExists` | gent_repl.cpp:573-580 | keys of 120 bytes with values of at most ten are such keys |
| `ListQueue.GentListQueue.constructor` | gent_queue_list.h:19-31 | the sentinel list starts empty |
| `ListQueue.GentListQueue.Push` | gent_queue_list.h:34-47 | contents grow by the element at the end |
| `ListQueue.GentListQueue.Pop` | gent_queue_list.h:50-75 | takes the first element, also when it is the only one and rear returns to the sentinel; nothing from an empty list |
| `ListQueue.GentListQueue.FrontElement` | gent_queue_list.h:78-90 | the first element, if any |
| `ListQueue.GentListQueue.FrontNumsElement` | gent_queue_list.h:92-106 | the first num elements or all of them |
| `ListQueue.GentListQueue.Size` | gent_queue_list.h:136-148 | the walk counts the contents |
| `MsetParser.GentMset.ItemParser` | gent_redis.cpp:257-328 | the loop equals the step-by-step parse, saved state included |
| `MsetParser.GentMset.OneItem` | gent_redis.cpp:257-328 | one turn of the loop: key, length and content of an item or where it stopped |
| `MsetParser.GentMset.ContinueParser` | gent_redis.cpp:244-255 | resumes on the saved prefix plus the new bytes |
| `MsetParser.ParseOnPrefix` | gent_redis.cpp:257-328 | on any prefix of an encoding: complete exactly at its end, otherwise the saved offsets describe the saved prefix |
| `MsetParser.ContinueOnPrefix` | gent_redis.cpp:244-328 | one more chunk keeps that description |
| `MsetParser.AnyCut` | gent_redis.cpp:244-328 | for every list of pairs of arbitrary bytes and every cut: more is asked for until the last byte, then the pairs are those of the list |
| `SlaveParser.SplitLoop` | gent_redis.cpp:823-837 | the loop equals the recursive split |
| `SlaveParser.SkipLoop` | gent_redis.cpp:150-156 | the loop that looks for the end of a header finds the place behind n line breaks, or that they are not all there |
| `SlaveParser.HeaderTokens` | gent_redis.cpp:761-837 | a printed header splits into its lines whatever bytes follow, and the skip finds its end |
| `SlaveParser.MsetParsed` | gent_redis.cpp:189-216 | an mset header is recognised with its number of pairs and leaves the items |
| `SlaveParser.MsetCounted` | gent_redis.cpp:189-216 | whatever count the first line of an mset announces: an even one is refused, an odd one below 1 waits forever, any other takes what follows the header as half as many pairs |
| `SlaveParser.SetRoundTrip` | gent_redis.cpp:140-165 | a printed set is read back with key and value for every cut behind the header |
| `SlaveParser.SetexRoundTrip` | gent_redis.cpp:332-360 | the same with the expiry as the current second plus the life that was sent |
| `SlaveParser.DelRoundTrip` | gent_redis.cpp:448-455 | a printed deletion names its key |
| `SlaveParser.ItemTextExact` | gent_repl.cpp:573-580 | an item is printed as its encoding if and only if the key has no NUL and the header fits the buffer |
| `Link.MsetDelivered` | gent_redis.cpp:189-328 | for every cut behind the header the slave answers and has stored exactly the pairs, later ones winning |
| `Link.Delivered` | gent_repl.cpp:544-580 | for every message the printers do not cut and every cut behind the header, the slave answers and its database changes as the message says, with the expiry of a setex counted from the slave's clock |
| `LinkCommands.MessageIsCommand` | gent_repl.cpp:544-580 | the bytes that the printf formats write for a message are the command of its words, as the client library would write it, if and only if no key has a NUL and every buffer is large enough |
| `LinkCommands.SendableIsCommand` | gent_repl.cpp:544-580 | so every message that the slave can take is such a command |
| `LinkCommands.ControlAnswers` | gent_repl.cpp:466-476 | the answer is the command reply authok for "auth" and nothing else, reply autherror for "autherror" and nothing else, and reply close for every message but these, "ok" and "data"; control answers leave the queues alone |
| `LinkExact.ItemDeliveredExact` | gent_repl.cpp:573-580 | an item sent alone is stored by the slave if and only if its key has no NUL and its header fits the buffer, whatever bytes key and value hold |
| `LinkExact.LongKeyStalls` | gent_redis.cpp:257-328 | a key that is cut and not made up for by the bytes behind it leaves the parser waiting for every cut of the command |
| `LinkExact.DelDeliveredExact` | gent_redis.cpp:448-455 | a deletion that fits its buffer names its key to the slave if and only if the key is a non-empty line without NUL |
| `LinkExact.EmptyKeyRefused` | gent_redis.cpp:448-455 | the deletion of the empty key is refused |
| `Resp.Step` | pack/hiredis/read.c:367-414 | every step that succeeds consumes at least one byte and keeps the stack of read tasks well formed: depth at most nine, each lower task a non-empty array with the child index in range |
| `Resp.MoveToNext` | pack/hiredis/read.c:190-213 | climbing finished arrays keeps the stack well formed |
| `Resp.GetOneExtends` | pack/hiredis/read.c:477-525 | reading a longer input equals reading a part and going on with the rest |
| `Resp.DrainExtends` | pack/hiredis/read.c:477-525 | the same for draining all replies |
| `Resp.AnyChunking` | pack/hiredis/read.c:445-525 | for every byte string and every chunking: same replies, same error, same unfinished state |
| `RespEncoding.ReadsBack` | pack/hiredis/read.c:215-414 | at any place in any nesting an encoded reply is read back and exactly its bytes are consumed |
| `RespEncoding.ReadsBackExactly` | pack/hiredis/read.c:215-414 | a fresh reader gives back every reply tree of at most eight array levels and leaves what follows it, and refuses every deeper one as too deep |
| `RespEncoding.TooDeepRefused` | pack/hiredis/read.c:302-315 | at any place in any nesting, a tree that does not fit the levels left is refused, whatever its siblings are and whatever follows |
| `RespEncoding.ArrayHeader` | pack/hiredis/read.c:302-365 | for every count: -1 is the null reply, 0 the empty array, any other negative count an array object without children, and a positive one opens a level |
| `RespEncoding.FirstByte` | pack/hiredis/read.c:367-400 | a first byte is refused by name if and only if it is none of the five types |
| `RespEncoding.StreamRoundTrip` | pack/hiredis/read.c:215-525 | a stream of encoded replies is read back as that list with nothing left |
| `RespEncoding.ChunkedRoundTrip` | pack/hiredis/read.c:215-525 | the same for every chunking of the stream |
| `Reader.SeekNewline` | pack/hiredis/read.c:120-144 | the first CR LF pair, if any |
| `Reader.ParseLongLong` | pack/hiredis/read.c:148-173 | sign and digits of a number, and the answer -1 for anything else |
| `Reader.RedisReader.SetError` | pack/hiredis/read.c:46-70 | an error drops buffer, stack and reply |
| `Reader.RedisReader.MoveToNextTask` | pack/hiredis/read.c:190-213 | the loop on the stack equals the recursive climb |
| `Reader.RedisReader.ReadLine` | pack/hiredis/read.c:175-188 | the line before the first CR LF pair, with the cursor behind it |
| `Reader.RedisReader.ProcessLineItem` | pack/hiredis/read.c:215-247 | integers, status and error lines, or a stall that moves nothing |
| `Reader.RedisReader.ProcessBulkItem` | pack/hiredis/read.c:249-300 | bulk strings and nil, only when the whole item is there |
| `Reader.RedisReader.ProcessMultiBulkItem` | pack/hiredis/read.c:302-365 | the array branch of the specification: the depth limit, null, empty, childless and opening headers (ArrayHeader, TooDeepRefused) |
| `Reader.RedisReader.ProcessItem` | pack/hiredis/read.c:367-414 | one item in place: the rest of the reading is that of the specification, and success consumes input |
| `Reader.RedisReader.Feed` | pack/hiredis/read.c:445-475 | appends to the unread input unless an error is set |
| `Reader.RedisReader.GetReply` | pack/hiredis/read.c:477-525 | the reply, error, stack and unread input of the specification (ReadsBackExactly, FirstByte); compaction is invisible |
| `Reader.CompactsToInput` | pack/hiredis/sds.c:575-604 | cutting the buffer at the cursor keeps exactly the unread input |
| `Reader.SdsRangeKeeps` | pack/hiredis/sds.c:575-604 | for any two ends, negative ones counted from the end, exactly the bytes between them are kept, in order |
| `Reader.ReadStream` | pack/hiredis/read.c:445-525 | any chunks fed and drained give the replies and error of one feed of their concatenation |
| `Formatter.CountDigits` | pack/hiredis/hiredis.c:193-204 | the number of decimal digits |
| `Formatter.LengthPredicted` | pack/hiredis/hiredis.c:193-208 | the predicted length of a command equals the number of bytes it prints to |
| `Formatter.Ull2Str` | pack/hiredis/sds.c:331-356 | digits written backwards and reversed in place give the decimal numeral and a terminator |
| `Formatter.Build` | pack/hiredis/hiredis.c:402-417 | the buffer is filled to exactly the predicted length with the command |
| `Formatter.FormatCommandArgv` | pack/hiredis/hiredis.c:530-566 | the command's bytes and a terminator, the position meeting the predicted length |
| `Formatter.FormatSdsCommandArgv` | pack/hiredis/hiredis.c:477-521 | the same bytes, built by appending |
| `Formatter.FormatCommand` | pack/hiredis/hiredis.c:210-417 | the command bytes of the arguments that the format describes (FormatMeans), and a terminator |
| `Formatter.BinaryFormatArgs` | pack/hiredis/hiredis.c:210-417 | with one %b per argument the format picks exactly the arguments |
| `FormatterWords.FormatMeans` | pack/hiredis/hiredis.c:210-417 | a format of words set apart by blanks, with blanks at both ends and words made of plain text, %%, %s and %b, describes exactly the concatenated texts of each word, in order |
| `FormatterWords.EveryFormat` | pack/hiredis/hiredis.c:210-417 | every format with these conversions, a percent sign at the end included, is such words and blanks, and takes the strings in order |
| `Formatter.CommandRoundTrip` | pack/hiredis/hiredis.c:530-566 | fed to the reader in any chunks, a command gives one array of its arguments and leaves nothing |
| `Sds.CatRepr` | pack/hiredis/sds.c:740-763 | appends the quoted form of any byte string |
| `Sds.StandsForItself` | pack/hiredis/sds.c:740-763 | a byte is quoted as itself if and only if it is printable and neither backslash nor double quote |
| `Sds.SplitArgs` | pack/hiredis/sds.c:815-923 | the nested loops equal the token-by-token split, failures included |
| `Sds.HexReads` | pack/hiredis/sds.c:770-850 | two hexadecimal digits after a backslash and x, in either case, are read as their byte |
| `Sds.NoHexReads` | pack/hiredis/sds.c:770-850 | without two such digits behind it the x and the characters stand for themselves |
| `Sds.BareCharacter` | pack/hiredis/sds.c:880-915 | outside of quotes exactly blank, tab, CR and LF end an argument, NUL ends the line, an unclosed quote fails, and any other character is taken over |
| `Sds.SplitsBack` | pack/hiredis/sds.c:796-923 | a line of arguments, each bare or quoted either way as fits it and set apart by any blanks, splits into exactly their texts |
| `Sds.BadQuotes` | pack/hiredis/sds.c:796-923 | whatever precedes it, an unclosed quote or a closing quote with a character behind it fails the whole line |
| `Sds.ReprSplits` | pack/hiredis/sds.c:740-923 | what one function quotes the other reads back, for every byte string |
| `Dict.NextPower` | pack/hiredis/dict.c:306-315 | a power of two that reaches the size and is less than twice it, or the initial size |
| `Dict.AndMask` | pack/hiredis/dict.c:320-337 | masking with a power of two less one is the remainder, so that every hash has a bucket |
| `Dict.DictObject.Expand` | pack/hiredis/dict.c:87-132 | fails just when entries would not fit; otherwise every binding is kept in the bucket of its hash under the new mask, in a table whose size is a power of two |
| `Dict.DictObject.MoveAll` | pack/hiredis/dict.c:105-127 | the rehash loop that stops when no entry is left drops none |
| `Dict.DictObject.Add` | pack/hiredis/dict.c:134-154 | binds a new key, refuses an old one |
| `Dict.DictObject.Replace` | pack/hiredis/dict.c:160-179 | binds the key and tells whether it was new |
| `Dict.DictObject.Delete` | pack/hiredis/dict.c:182-210 | unbinds the key and tells whether it was there |
| `Dict.DictObject.Find` | pack/hiredis/dict.c:243-256 | the bound value, if any |
| `Dict.RunAll` | pack/hiredis/dict.c:87-256 | for every hash function and every run of operations, all answers and the final bindings are those of a finite map, and used counts them |
| `DictIterator.Walk.constructor` | pack/hiredis/dict.c:258-266 | a walk has the whole table before it |
| `DictIterator.Walk.Next` | pack/hiredis/dict.c:268-286 | hands out the first entry still to come, or nothing when none is left, and leaves a pointer into the live chain that does not dangle |
| `DictIterator.AllIsOnce` | pack/hiredis/dict.c:268-286 | the order of a walk holds every binding of the map exactly once |
| `DictIterator.DeleteDuring` | pack/hiredis/dict.c:268-286 | any deletion between two calls leaves the saved pointer good if and only if it does not lead to the deleted entry, and then what is still to come is what was, without that key |
| `DictIterator.DeleteVisited` | pack/hiredis/dict.c:268-286 | deleting the entry just visited leaves the saved pointer good and what is still to come unchanged |
| `DictIterator.VisitAll` | pack/hiredis/dict.c:258-286 | whichever visited entries are deleted on the way, every binding is met exactly once and the others remain |
| `Evbuffer.AllocateChain` | pack/libevent/buffer.c:155-186 | the doubling loop allocates the chain of the specification, empty and with room for the data |
| `Evbuffer.LeastDoubling` | pack/libevent/buffer.c:155-181 | a new chain with its header has the least size among the doublings of the minimum that holds the data |
| `Evbuffer.EvBuffer.ChainInsert` | pack/libevent/buffer.c:258-286 | replaces the empty chains behind the data or appends, moving the pointer only in the second case |
| `Evbuffer.EvBuffer.Add` | pack/libevent/buffer.c:1480-1562 | appends the bytes on every list without trailing empty chains, and on the others where the append is right |
| `Evbuffer.AddKeeps` | pack/libevent/buffer.c:1480-1562 | on lists without trailing empty chains the bytes are appended and the pointer stays on the last chain with data |
| `Evbuffer.AddExact` | pack/libevent/buffer.c:1480-1562 | with trailing empty chains, if and only if the last chain cannot take the bytes and the stated layout holds |
| `Evbuffer.EvBuffer.Prepend` | pack/libevent/buffer.c:1565-1636 | puts the bytes in front, into free room or a new chain |
| `Evbuffer.PrependKeeps` | pack/libevent/buffer.c:1565-1636 | the same on chain lists, keeping the pointer right |
| `Evbuffer.EvBuffer.Drain` | pack/libevent/buffer.c:903-971 | drops exactly that many bytes, or all |
| `Evbuffer.DrainKeeps` | pack/libevent/buffer.c:903-971 | dropping chains and trimming the survivor removes a prefix and keeps the pointer right |
| `Evbuffer.EvBuffer.Copyout` | pack/libevent/buffer.c:987-1030 | the first bytes, without a change |
| `Evbuffer.EvBuffer.Pullup` | pack/libevent/buffer.c:1120-1229 | succeeds just when so many bytes are there; then they lie in the first chain, and no byte changes |
| `Evbuffer.PulledKeeps` | pack/libevent/buffer.c:1120-1229 | the pulled chain and what is left of the others hold the same bytes with the pointer right |
| `Evbuffer.EvBuffer.AddBuffer` | pack/libevent/buffer.c:811-854 | moves all bytes of the other buffer behind, except into itself or a frozen one |
| `Evbuffer.EvBuffer.PrependBuffer` | pack/libevent/buffer.c:857-900 | moves them in front |
| `EvbufferRuns.RunAll` | pack/libevent/buffer.c:764-1636 | every run of add, prepend, drain, pullup, copyout, add_buffer and prepend_buffer over any number of buffers has the flat effect and gives the flat answers, with every total_len right and every pointer on the last chain with data |
| `EvbufferSearch.Matches` | pack/libevent/buffer.c:2394-2425 | comparing across chains tells whether the pattern occurs at the place |
| `EvbufferSearch.SearchRange` | pack/libevent/buffer.c:2434-2496 | the least occurrence from the start that ends within the limit, or -1 when there is none |
| `EvbufferSearch.LimitedSearch` | pack/libevent/buffer.c:2434-2496 | a search with a limit is a search in the bytes before the limit |
| `EvbufferSearch.Search` | pack/libevent/buffer.c:2428-2431 | the least occurrence in the flattened bytes, and -1 exactly when there is none |
| `TokenBucket.RefillExact` | pack/libevent/bufferevent_ratelim.c:72-109 | the division-based update equals min(maximum, limit + ticks * rate) if and only if the limit is within the maximum or the gain reaches the wrapped difference |
| `TokenBucket.TickIsFloor` | pack/libevent/bufferevent_ratelim.c:124-135 | the tick of a time is the number of whole ticks in it, microseconds included, up to 2^32 |
| `TokenBucket.CreditBounded` | pack/libevent/bufferevent_ratelim.c:72-109 | with ticks that wrap at 32 bits a bucket is never credited more ticks than passed |
| `TokenBucket.BandwidthBound` | pack/libevent/bufferevent_ratelim.c:72-300 | in every run of transfers within what the bucket allows, every window of transfers that spans T ticks moves at most maximum + T * rate bytes |
| `TokenBucket.BoundReached` | pack/libevent/bufferevent_ratelim.c:72-300 | the bound is reached: a full bucket emptied at once, and then what the ticks bring |
| `TokenBucket.CreditIsTime` | pack/libevent/bufferevent_ratelim.c:72-109 | with steady true time the ticks credited over any number of updates are the time that passed, although ticks wrap around |
| `TokenBucket.RefillWakes` | pack/libevent/bufferevent_ratelim.c:72-109 | a refill gives bandwidth exactly when the elapsed ticks pay the debt |
| `TokenBucket.RefillsAdd` | pack/libevent/bufferevent_ratelim.c:72-109 | however ticks are spread over updates, all of them count, up to the maximum |
| `TokenBucket.TickChangeExact` | pack/libevent/bufferevent_ratelim.c:48-135 | after a change of the tick length from m to m' at a time T, an update at T' credits the new ticks since T if and only if T has the same number in both countings up to wrap-around and at most INT_MAX ticks pass, or no tick passes and the old number is ahead |
| `TokenBucket.TickChangeCredit` | pack/libevent/bufferevent_ratelim.c:48-135 | without wrap-around the credit is how far the new number is beyond the old one, and nothing before that |
| `RateLimit.NewCfg` | pack/libevent/bufferevent_ratelim.c:141-170 | a configuration exists just for positive rates within representable bursts, and has each direction's own numbers and the tick length |
| `RateLimit.BufferEvent.SetSuspended` | pack/libevent/bufferevent.c:63-108 | other reasons to suspend come and go in one direction, change nothing else and keep the wake-up invariant |
| `RateLimit.BufferEvent.SetEnabled` | pack/libevent/bufferevent.c:404-489 | a direction runs exactly while it is enabled and nothing suspends it |
| `RateLimit.BufferEvent.GetMax` | pack/libevent/bufferevent_ratelim.c:196-256 | what an operation may move, when that exceeds the general cap, and that asking keeps the wake-up invariant if and only if no overfilled bucket wraps around |
| `RateLimit.BufferEvent.DecrementBuckets` | pack/libevent/bufferevent_ratelim.c:271-332 | the direction is suspended for bandwidth and the timer started just when the limit is used up; otherwise only the limit changes |
| `RateLimit.BufferEvent.DecrementLimit` | pack/libevent/bufferevent_ratelim.c:870-923 | manual changes in both directions keep the invariant; crossing zero suspends or resumes, and the timer is stopped only when the other direction does not wait |
| `RateLimit.BufferEvent.RefillCallback` | pack/libevent/bufferevent_ratelim.c:380-425 | wakes exactly the waiting directions that got bandwidth, keeps the timer for the others, and keeps the invariant if and only if no overfilled bucket wraps around |
| `RateLimit.BufferEvent.SetRateLimit` | pack/libevent/bufferevent_ratelim.c:542-618 | a new, changed, unchanged or removed limit: both directions, the timer and the last tick as stated, and the invariant kept |
| `RateLimit.OverfullBucketWraps` | pack/libevent/bufferevent_ratelim.c:72-109 | configure, refill by hand, ask: a run that ends unsuspended, without bandwidth and without a timer |
| `RateLimit.WideRead` | pack/libevent/bufferevent_ratelim.c:177-256 | a single operation that may move more than the general cap |
| `RateLimit.FireAll` | pack/libevent/bufferevent_ratelim.c:380-425 | from any state, firings of the timer in any ticks resume a waiting direction exactly when the ticks they credit pay its debt |
| `RateLimit.FireUntil` | pack/libevent/bufferevent_ratelim.c:380-425 | over true time: resumed exactly when the ticks passed by the last firing pay the debt |
| `RateLimit.Operate` | pack/libevent/bufferevent_ratelim.c:196-332 | asking, moving at most the answer and decrementing is exactly one allowed transfer of the bandwidth bound; the other direction is only updated, and a transfer below the limit leaves its direction as runnable as it was |
| `RateLimit.FirstTick` | pack/libevent/bufferevent_ratelim.c:141-256 | in the tick in which it is configured a bufferevent may read the read rate and write the write rate, and without an acceptable configuration the general cap |
| `RateLimit.OperateAll` | pack/libevent/bufferevent_ratelim.c:141-332 | any operations in both directions from a fresh bufferevent: in every window each direction moves at most its own burst and its own rate times the ticks spanned |
| `RateLimit.ChangeTick` | pack/libevent/bufferevent_ratelim.c:542-618 | both limits after a change of the tick length and a later update, and that the credit is the ticks passed exactly under the condition of TickChangeExact |
| `RateLimit.LongerTickStalls` | pack/libevent/bufferevent_ratelim.c:542-618 | from milliseconds to seconds: after 3600 new ticks a debt of ten bytes is still unpaid |
| `RateLimit.ShorterTickFills` | pack/libevent/bufferevent_ratelim.c:542-618 | from seconds to milliseconds: a debt of 100000 bytes turns into a full bucket at the same moment |
| `RateLimit.UpdateKeepsPositive` | pack/libevent/bufferevent_ratelim.c:72-109 | an update leaves a positive limit positive if and only if it is within the maximum, or the sum is representable, or it wraps past zero |
| `RateLimit.RunAll` | pack/libevent/bufferevent_ratelim.c:271-618 | after any run of events a direction waiting for bandwidth has the timer pending, a limited one that does not wait has bandwidth, the backend runs exactly the enabled ones that nothing suspends, and enabling, the other reasons to suspend and the configuration are what the events asked for last |
| `Scan.Contiguous` | gent_db.cpp:278-306 | in bytewise order the keys with a prefix are neighbours |
| `Scan.LessIs` | gent_db.cpp:278-306 | the order of keys is decided at the first difference, or by length |
| `Scan.MatchingIs` | gent_db.cpp:278-306 | the full filter holds exactly the keys with the prefix, in ascending order |
| `Scan.GentDb.Keys` | gent_db.cpp:278-306 | the scan that stops early returns, in ascending order, exactly the keys with the prefix, or every key for a star |
| `Scan.GentDb.Count` | gent_db.cpp:223-252 | the number of keys with the prefix; without one the cached number, filled by the first count |

## Left out

- Sockets, event dispatch, threads and locks, leveldb itself, configuration, logging and the command line.
- Commands other than those that replication uses (get, mget, ttl, info, auth and so on), the memcache protocol and the disabled bloom filter in gent_list.cpp.
- Allocation failures, failing `event_add` calls and failing store calls.
- `key_num` as an exact count of keys: `BatchPut` and `Del` adjust it without a look at the store, so `Scan.GentDb.Count` states it as a cache.
- The destructor of `GentReplication`, whose loop removes marked items only.
- Expiry in whole replication runs; single batches with expiring keys are covered by `BatchIs`. When the expiry equals the current second the source sends a plain set, and so does the model.
- A command header that arrives in more than one read, which the slave's parsers do not resume.
- `Link.Delivered`: for keys without NUL, CR or LF (mset: without NUL) and headers that fit the print buffers, because the printing is cut otherwise (`ItemDeliveredExact`, `DelDeliveredExact`); the slave parsers refuse keys of 250 bytes and more in set and setex.
- Number ranges: queue sizes and lengths are unbounded, except for the 64-bit sums of the MSET parser, the 64-bit limits and 32-bit ticks of the rate limiter and the 64-bit numbers of the formatters. The results about the slave's parsers are for lengths, counts and lives that fit an int, since `atoi` is undefined beyond; `readLongLong` overflow and arrays whose count does not fit an int are not modelled.
- Reply objects are values attached to their array when they are complete; the source creates an array first and fills it.
- `Formatter.FormatCommand`: covers %s, %b and %%, not the conversions that are passed on to `vsnprintf`, because those print what the C library decides.
- `Formatter.FormatSdsCommandArgv`: the length and number conversions of `sdscatfmt` that it uses are modelled, not the others.
- `Dict.RunAll`: for runs of fewer than 2^60 operations, because a table of LONG_MAX buckets cannot be allocated.
- The linked chains of `evbuffer` and of the dictionary's buckets are sequences of values, and pointers into a bucket are keys, so aliasing between entries is captured only as far as keys tell them apart. Where `evbuffer_chain_insert` stops the program because it would drop data, the model drops the data.
- Pinned, immutable, mapped and sendfile chains, reserve/commit/expand, `evbuffer_remove_buffer` and the callback counters.
- `RateLimit.BufferEvent.DecrementBuckets`: does not model the bucket of a rate-limiting group, because groups are left out beyond the share they leave to a bufferevent.
- Rate-limiting groups beyond that share, and ticks shorter than a millisecond, for which the source divides by zero.
- `RateLimit.FireAll`: for buckets within their maximum, because an overfilled one can wrap around (`UpdateKeepsPositive`).
- `RateLimit.RunAll`: an update that meets an overfilled bucket about to wrap around is not taken, because the invariant fails there (`OverfullBucketWraps`).
