# Verified models of msgCourier's core

msgCourier is a message server. Peers connect over TCP, the bytes they send are cut into messages, each message is
taken from a pool, queued by priority, handed to a handler and finally reclaimed or sent again. This project models
the parts of it with the deepest behaviour and proves what they promise, for all inputs and all runs.

| file | what it models |
|---|---|
| `Collections.dfy` | optional values and duplicate-free sequences |
| `Text.dfy` | NUL-limited text and first occurrences, as the C library sees them |
| `Buffer.dfy` | the growable byte buffer, refining a byte sequence |
| `Base64.dfy`, `KeyValue.dfy`, `Crc32.dfy` | the codecs on top of it |
| `HeaderExtract.dfy`, `Inbound.dfy`, `Framing.dfy` | header parsing, one HandleConnection call, and whole received streams |
| `Msg.dfy`, `Courier.dfy`, `MsgQueue.dfy` | the message life cycle as a step system, and the pool and queue that refine it |
| `ConnectionCache.dfy`, `ConnectionQueue.dfy` | the active connection list, its windows, timeouts and the inbound pass |
| `Serving.dfy` | framing and the inbound pass together, over all connections |
| `Porter.dfy`, `PorterShapes.dfy`, `Stemmer.dfy` | Porter's algorithm (Porter 1980 with the marked departures), the same said by the shape of words, and the in-place stemmer |
| `McScript.dfy`, `McPairing.dfy` | nested MCScript expressions compiled to Tcl, and which opener each closer gets |

`dafny verify dfyconfig.toml` checks the whole project.

Conventions. A `char` of the original is a `Byte`, a character below 256. A `cMsg *` is an `Id`, a list iterator is an
`Iter` that names a list node. What the program reads from outside (the clock, `recv`, a handler's outcome, the address
of a new message, an uninitialised field) is a parameter, and statements hold for every value of it. A method whose
`ensures` equates the new state with a function of the old one is the imperative code; the lemmas about that function
are the results. Every lemma carries `{:induction false}`, so each proof is the one written.

## Main results

- Framing: however the bytes of well-formed messages are chunked, HandleConnection dispatches exactly those messages in
  order and keeps exactly the unconsumed rest (`Framing.EveryChunking`, `Framing.EveryStreamIsFramed`). Pass by pass the
  server does so for all connections at once (`Serving.Server.Pass`, `Serving.Server.Intake`, `Serving.Server.Drain`).
- Life cycle: in every run no message is in two places, the free stack is duplicate-free and holds only inactive
  messages, and a message given out is nobody's (`Courier.EveryRunKeepsInv`); each message is in exactly one place as
  long as no flush passes an inactive one over (`Courier.EveryRunInPlace`). The resend rule doubles its gaps and gives
  up after ten retries and 1023 seconds at the earliest (`Courier.EveryRunDropsLate`).
- Stemmer: the in-place stemmer computes Porter's function of the word alone and touches nothing else
  (`Stemming.StemInPlace`); the one-letter switches of steps 2 to 4 rewrite the longest suffix of the published lists
  (`Porter.Step2Dispatch` and its siblings, `PorterShapes.StepsRewrite`), and the other steps do what their shapes say.
- Codecs: Base64, key/value streams and CRC-32 with their round trips, with exact conditions where a round trip needs one.
- Connection cache: list and map stay consistent, TimeoutConnections ends and closes exactly the expired connections,
  successive windows set every connection once (`ConnectionCaches.ConnectionCache.SetAllWindows`), a pass hands each
  ready record over once although records vanish under it.
- Expression compiler: chains become exactly their Tcl, with the exact condition when commas occur
  (`McScript.ChainTranslated`); for every accepted statement, the stack and queue give each closer its own opener if and
  only if no opener stands behind a closer (`McPairing.TranslationWeaves`).

Some results show where the code falls short of what one would expect, each with its exact condition and an input.

- An MCP message that starts like a GET or a POST is recognised if and only if no `HTTP/` is buffered anywhere
  (`Framing.BorrowedMarker`, `Framing.CutWronglyWitness`), so well-formed MCP messages start otherwise.
- A comma in the argument of the innermost call makes the argument disappear, although quotes let the statement through
  (`McScript.ChainTranslated`, `McScript.LostArgumentWitness`).
- Two expressions side by side never nest, so their pairing is wrong (`McPairing.SiblingsDoNotNest`); two calls lose one
  of them (`McScript.SiblingsMixed`).
- Keys with a bar or a NUL do not survive a key/value stream (`KeyValues.StreamRoundTrip`, `KeyValues.BarInKeyWitness`).
- Deleting an expired message moves the flush's cursor three positions. A flush is defined if and only if each message
  it deletes has two more behind it (`Courier.FlushDefinedIff`, `Courier.FlushUndefinedWitness`), and leaves no inactive
  message off the free stack if and only if no deletion passes one over (`Courier.FlushTidyIff`,
  `Courier.FlushStrayWitness`). Which positions it visits is a function of the pool before the flush.

## Model

| member | source | states |
|---|---|---|
| `Text.IndexFromFinds` | buffer.cpp:440-469 | the search result is the least index where the pattern occurs, or the pattern is absent |
| `Buffers.Buffer.constructor` | buffer.cpp:45-52 | a new buffer is empty and unallocated with the default tuning |
| `Buffers.Buffer.AdjustSize` | buffer.cpp:690-698 | never below the request plus a long nor below the minimum, whatever the tuning |
| `Buffers.Buffer.SetMemAlgo` | buffer.cpp:59-63 | changes the tuning only |
| `Buffers.Buffer.SetBufferSize` | buffer.cpp:72-123 | content unchanged, room for more than the request, grows only when needed and then to the minimum at least |
| `Buffers.Buffer.Reset` | buffer.cpp:179-182 | empties the content, keeps the block |
| `Buffers.Buffer.Flush` | buffer.cpp:164-172 | empties and releases |
| `Buffers.Buffer.MakeString` | buffer.cpp:490-495 | the terminator fits and stands behind unchanged content |
| `Buffers.Buffer.Append` | buffer.cpp:357-382 | appends, in place or into a grown block |
| `Buffers.Buffer.Insert` | buffer.cpp:311-348 | splices at an index, in place or into a new block, and terminates |
| `Buffers.Buffer.Prepend` | buffer.cpp:392-399 | puts data in front |
| `Buffers.Buffer.Remove` | buffer.cpp:284-301 | cuts a region out, or refuses with the status of the failing check; the region must lie in the content when the capacity checks pass |
| `Buffers.Buffer.ReplaceWith` | buffer.cpp:401-417 | content becomes the data |
| `Buffers.Buffer.Truncate` | buffer.cpp:419-423 | drops bytes from the end |
| `Buffers.Buffer.Find` | buffer.cpp:425-438 | first occurrence in the text up to the first NUL, -1 when empty |
| `Buffers.Buffer.BinaryFind` | buffer.cpp:440-469 | first occurrence in all bytes, and no read past the terminator |
| `Buffers.Buffer.FindChar` | buffer.cpp:536-549 | first position of a byte at or behind an offset, or none there |
| `Buffers.Buffer.ReplaceAll` | buffer.cpp:586-598 | ends, and equals leftmost non-overlapping replacement even when the replacement contains the pattern |
| `Buffers.Buffer.ReplaceNext` | buffer.cpp:586-598 | one round keeps the goal and shrinks the unscanned suffix |
| `Buffers.ReplacedIsJoin` | buffer.cpp:586-598 | the replacement is the text cut at the leftmost occurrences of the pattern, up to the first NUL, and joined with the new text instead |
| `Base64Codec.TableIsAlphabet` | base64.cpp:4 | the table holds the RFC 4648 alphabet |
| `Base64Codec.Find` | base64.h:32-40 | the index of a letter, 64 for NUL, -1 for anything else |
| `Base64Codec.LetterOfValue` | base64.h:27-40 | a byte that the lookup recognises is the table entry at the index found |
| `Base64Codec.DecodeOfEncode` | base64.cpp:15-126 | decoding an encoding gives back every byte string |
| `Base64Codec.EncodeOfDecode` | base64.cpp:15-126 | encoding a decoding gives the text back if and only if the text is canonical |
| `Base64Codec.EncodeIsCanonical` | base64.cpp:70-126 | encodings are canonical |
| `Base64Codec.StopsAtForeign` | base64.cpp:29-64 | decoding stops at the first byte that is no letter; what follows has no effect, and a single left-over letter gives no byte |
| `Base64Codec.Base64.Encode` | base64.cpp:70-126 | the buffer becomes its encoding, never writing beyond the reused internal block |
| `Base64Codec.Base64.Decode` | base64.cpp:15-67 | the buffer becomes its decoding, never writing beyond the reused internal block |
| `Base64Codec.Base64.Prepare` | base64.cpp:25-27 | the reused block has more room than requested and at least 32 bytes, whatever was encoded or decoded before |
| `Base64Codec.EncodeInto` | base64.cpp:79-122 | the counters' loop writes exactly the encoding and nothing behind it |
| `Base64Codec.DecodeInto` | base64.cpp:29-64 | the loop writes exactly the decoding and nothing behind it; it stops at the first byte outside the alphabet |
| `Base64Codec.TailBytes` | base64.cpp:50-64 | padding values never reach an output byte |
| `KeyValues.StreamRoundTrip` | keyvalue.cpp:65-127 | parsing the printed stream gives the map back, whatever the order of keys, if and only if its keys (and, unencoded, its values) can be transmitted |
| `KeyValues.BarInKeyWitness` | keyvalue.cpp:65-127 | a map whose one key is a bar comes back with another key |
| `KeyValues.FoldOfStream` | keyvalue.cpp:65-127 | the same on top of any earlier map: the printed pairs win |
| `KeyValues.FoldIsTransmissible` | keyvalue.cpp:65-101 | whatever Parse accepts can be printed and parsed again |
| `KeyValues.EncodedHasNoBar` | keyvalue.cpp:103-127 | encoded values contain no separator |
| `KeyValues.KeyValue.Parse` | keyvalue.cpp:65-101 | the mark/index/flag loop is a left-to-right last-wins fold over complete pairs |
| `KeyValues.KeyValue.GetStream` | keyvalue.cpp:103-127 | prints the pairs in the map's order, encoded or not |
| `KeyValues.LastPairWins` | keyvalue.cpp:65-152 | after parsing, a key has the value of the last complete pair that names it |
| `KeyValues.EarlierStays` | keyvalue.cpp:65-152 | a key that no complete pair names keeps what it had |
| `KeyValues.RestIgnored` | keyvalue.cpp:65-101 | text behind the last separator is ignored |
| `KeyValues.LoneKeyIgnored` | keyvalue.cpp:65-101 | a last key without a value is ignored |
| `KeyValues.KeyValue.Get` | keyvalue.cpp:154-172 | the caller's buffer holds the value, in place of whatever it held, and is emptied when the key is absent |
| `Crc32.Crc` | crc32.cpp:78-90 | the table loop equals bit-serial division by the reflected polynomial 0xEDB88320 |
| `Crc32.FeedAll` | crc32.cpp:83-85 | the loop folds one step a byte over the whole key |
| `Crc32.TableStepIsFeedByte` | crc32.cpp:14-90 | one table step is eight bit steps, for every register and byte |
| `Crc32.TableIsShifts` | crc32.cpp:14-68 | each of the 256 entries is its index divided eight times |
| `Crc32.CrcContinues` | crc32.cpp:78-90 | the checksum of a concatenation is the checksum continued, for every split |
| `Crc32.CrcDetectsByteError` | crc32.cpp:78-90 | results stay within 32 bits and any change of a single byte changes the checksum |
| `Crc32.CheckValue` | crc32.cpp:14-90 | the digits 1 to 9 have the checksum 0xCBF43926 |
| `HeaderExtracts.HeaderExtract.Parse` | headerextract.cpp:35-71 | the fields of the text in front of the blank line at or behind offset 4, none when there is no such line |
| `HeaderExtracts.HeaderExtract.Scan` | headerextract.cpp:49-65 | the line loop enters every line's field from the left, last value first |
| `HeaderExtracts.LastFieldWins` | headerextract.cpp:49-89 | looking a name up gives the value of its last field |
| `HeaderExtracts.Add` | headerextract.cpp:53-64 | a line is split at its first colon and one space behind it is dropped |
| `HeaderExtracts.FieldsOfLines` | headerextract.cpp:49-65 | printed lines are each entered once, in order |
| `HeaderExtracts.ParseOfLines` | headerextract.cpp:35-71 | parsing a printed header gives its lines' fields, whatever follows the blank line |
| `HeaderExtracts.PrintedField` | headerextract.cpp:53-64 | a printed field is entered under its name with its exact value |
| `HeaderExtracts.TightField` | headerextract.cpp:53-64 | without the space the value starts behind the colon; a line without a colon enters nothing |
| `Inbound.AtoiOfDecimal` | connectionhandlerinbound.cpp:323 | the number read from a decimal length is that length |
| `Inbound.AtoiOfText` | connectionhandlerinbound.cpp:323 | white space, an optional sign, digits, and whatever follows them |
| `Inbound.AtoiOfOther` | connectionhandlerinbound.cpp:323 | anything else where the number should start gives 0 |
| `Inbound.ConnectionHandler.AnalyzeProtocol` | connectionhandlerinbound.cpp:285-346 | protocol and size are the function `Analyze` of the buffered bytes, which the Framing rows describe by the header's own text; the buffer is not changed |
| `Inbound.ConnectionHandler.AnalyzeBody` | connectionhandlerinbound.cpp:314-345 | size from Content-Length or Content-length, wait while the body is incomplete, then the protocol |
| `Inbound.ConnectionHandler.TakeFrame` | connectionhandlerinbound.cpp:189-190 | the payload is the first bytes of the buffer and exactly they are removed |
| `Inbound.ConnectionHandler.Process` | connectionhandlerinbound.cpp:138-163 | at most one message is framed; an unknown protocol invalidates |
| `Inbound.ConnectionHandler.HandleConnection` | connectionhandlerinbound.cpp:67-136 | buffer, dispatched frames and the close flag after one call, for every result of `recv` |
| `Inbound.FailureCloses` | connectionhandlerinbound.cpp:83-133 | a broken socket closes the connection, and what has arrived is framed all the same |
| `Inbound.StrStrIsFirst` | connectionhandlerinbound.cpp:295-301 | the blank line that `strstr` sees is the one that BinaryFind finds |
| `Framing.FrontMessage` | connectionhandlerinbound.cpp:285-346 | with a well-formed message in front, the verdict is to wait until it is complete and then exactly its kind and size |
| `Framing.BorrowedMarker` | connectionhandlerinbound.cpp:306-343 | an MCP message starting with GET or POST, with or without a body, is framed as such if and only if no HTTP/ is in the buffered text |
| `Framing.CutWronglyWitness` | connectionhandlerinbound.cpp:285-346 | a complete MCP message in front of HTTP/ is taken for a GET and its body is left in the buffer |
| `Framing.Step` | connectionhandlerinbound.cpp:67-163 | one call sends the message in front if it is complete and keeps the rest |
| `Framing.EveryChunking` | connectionhandlerinbound.cpp:67-163 | for every list of well-formed messages and every chunking: sent in order, the rest kept, never closed |
| `Framing.CallsDrain` | connectionhandlerinbound.cpp:67-163 | once everything has arrived each further call sends the next message |
| `Framing.EveryStreamIsFramed` | connectionhandlerinbound.cpp:67-163 | the whole stream and as many calls as messages: all sent, in order, nothing left |
| `Framing.PrintedParams` | headerextract.cpp:35-71 | a header printed from fields parses to exactly those fields, last value of a name first |
| `Framing.PrintedValue` | headerextract.cpp:35-89 | after parsing a printed header, a name's value is that of its last field |
| `Framing.PrintedIsWellFormed` | connectionhandlerinbound.cpp:285-346 | a printed start line, fields and Content-Length make a well-formed message |
| `Framing.PrintedIsFramed` | connectionhandlerinbound.cpp:285-346 | a printed message waits for its last body byte and is then framed with its whole body, whether its size is called Content-Length or Content-length |
| `Framing.LowerCaseWitness` | connectionhandlerinbound.cpp:314-330 | a POST with Content-length 3 takes its three body bytes with it |
| `Framing.UnknownCloses` | connectionhandlerinbound.cpp:156-159 | a complete message of no known protocol closes the connection; nothing is dispatched or removed |
| `Msgs.LookedKeepsBackoff` | msgqueue.cpp:564-609 | count and delay stay paired (delay is 2 to the count minus 1) and each gap is at least the delay before it |
| `Msgs.LookedOutcome` | msgqueue.cpp:534-609 | one look, case by case: pending to in use; undelivered with a socket, or after ten retries and another 512 seconds, marked for reuse; due again, pending with one more stamp; anything else unchanged |
| `Msgs.ResentWhenDue` | msgqueue.cpp:570-608 | a message is sent again if and only if a retry is left and its delay has passed, and that stamps it once |
| `Msgs.DroppedLate` | msgqueue.cpp:591-598 | it is given up only after ten retries, 1023 seconds or more after the first |
| `Courier.ReusableIsIdle` | msgpool.cpp:68-102 | a message given out is not queued, not held, and new or inactive |
| `Courier.LastReturnedFirst` | msgpool.cpp:68-116 | the message that came back last is given out first |
| `Courier.CreateKeeps` | msgpool.cpp:68-102 | taking a message from the stack or adding a new one keeps the invariant |
| `Courier.LookKeeps` | msgqueue.cpp:534-609 | one look of the collecting scan keeps the invariant |
| `Courier.CollectLooksAtAll` | msgqueue.cpp:519-612 | the scan looks at each message once, queues the pending ones in pool order and moves nothing else |
| `Courier.CollectOutcomes` | msgqueue.cpp:519-612 | what any collection does to each message by its state, socket, stamps and reading, and that exactly the pending ones join the queue |
| `Courier.EveryRunCollects` | msgqueue.cpp:519-612 | the same in every run |
| `Courier.FreshMessageIsQueued` | msg.cpp:615-664 | a message created, edited or not, dispatched and collected is queued with what it was given, for the internal route when it was given no connection type |
| `Courier.PopKeeps` | msgqueue.cpp:614-617 | taking the top of the queue keeps the invariant |
| `Courier.ReleaseKeeps` | msg.cpp:607-638 | dispatching or finishing a held message keeps the invariant |
| `Courier.DeleteKeeps` | msgqueue.cpp:428-433 | a deleted message was neither queued, held nor on the stack |
| `Courier.FlushKeeps` | msgqueue.cpp:372-441 | a flush, with deletions and the messages they pass over, keeps the invariant |
| `Courier.FlushReclaims` | msgqueue.cpp:372-441 | when no inactive message is older than a minute a flush is defined, makes every inactive, delivered, processed or marked message inactive and stacks it, and leaves the others as they were |
| `Courier.FlushOutcomes` | msgqueue.cpp:389-439 | what any defined flush does to each message of the old pool: visited and old, deleted; visited and reusable, inactive on the stack; otherwise unchanged and off the stack |
| `Courier.FlushDefinedIff` | msgqueue.cpp:389-439 | a flush is defined if and only if each message it visits and deletes has two more behind it in the pool as it was |
| `Courier.FlushUndefinedWitness` | msgqueue.cpp:428-439 | with one reusable message older than a minute the cursor leaves the list |
| `Courier.FlushTidyIff` | msgqueue.cpp:389-439 | after a defined flush every inactive message is on the stack if and only if no deletion passed one over |
| `Courier.FlushStrayWitness` | msgqueue.cpp:428-439 | with three such messages the flush is defined and leaves two of them off the stack |
| `Courier.EveryRunKeepsInv` | msgqueue.cpp:372-649 | the invariant in every state of every run: pool and map agree, stack and queue duplicate-free, states say the place, resend rule intact |
| `Courier.OnePlace` | msgqueue.cpp:372-649 | each message is in exactly one place; the only exception is an inactive one that a deletion passed over |
| `Courier.EveryRunInPlace` | msgqueue.cpp:372-649 | in runs in which no flush passes an inactive message over, deletions or not, every message is in exactly one place, always |
| `Courier.EveryRunDropsLate` | msgqueue.cpp:564-609 | in every run a socketless message is dropped by a collection only after ten retries and 1023 seconds |
| `MsgQueues.MsgPool.GetReusableMessage` | msgpool.cpp:68-102 | top of the stack or a new message at the end of the list, reset and in use |
| `MsgQueues.MsgPool.ReturnToPool` | msgpool.cpp:104-116 | inactive and on top of the stack |
| `MsgQueues.MsgPool.GetHead` | msgpool.cpp:136-152 | the first message, none when empty or unlocked |
| `MsgQueues.MsgPool.GetNext` | msgpool.cpp:154-170 | the next message, none at the end or unlocked |
| `MsgQueues.MsgPool.DeleteCurrent` | msgpool.cpp:172-176 | erases and leaves the cursor one further |
| `MsgQueues.MsgPool.FlushFreeStack` | msgpool.cpp:178-182 | empties the stack |
| `MsgQueues.MsgQueue.CreateMessage` | msgqueue.cpp:173-178 | the state after `Created` |
| `MsgQueues.MsgQueue.DispatchMsg` | msg.cpp:615-638 | pending, internal when no connection type was set, out of its holder's hands |
| `MsgQueues.MsgQueue.Finish` | msg.cpp:607-613 | the outcome is recorded and the message leaves its holder |
| `MsgQueues.MsgQueue.ProcessPendingMessages` | msgqueue.cpp:519-612 | the do/while scan is `Collected` |
| `MsgQueues.MsgQueue.Resend` | msgqueue.cpp:567-609 | the back-off branch is `Resent` |
| `MsgQueues.MsgQueue.ProcessPriorityQueue` | msgqueue.cpp:614-649 | a message that no queued one outranks leaves the queue, and its connection type decides one of the three routes |
| `MsgQueues.MsgQueue.FlushMessages` | msgqueue.cpp:372-441 | the do/while scan is `Flush` |
| `MsgQueues.MsgQueue.FlushOne` | msgqueue.cpp:397-439 | one message: marked, deleted or returned, cursor where GetNext takes over |
| `ConnectionCaches.ConnectionCache.AddConnection` | connectioncache.cpp:62-101 | the socket joins at the end, its record waiting and pointing at its own node |
| `ConnectionCaches.ConnectionCache.FreeConnection` | connectioncache.cpp:103-142 | exactly that node leaves the list, the record is free, the socket closed; unknown sockets are only closed |
| `ConnectionCaches.EraseKeeps` | connectioncache.cpp:122-131 | after an erase the list still holds exactly the waiting records, each pointing at itself |
| `ConnectionCaches.ActiveOnce` | connectioncache.cpp:62-142 | no socket is in the list twice |
| `ConnectionCaches.IterSurvives` | connectioncache.cpp:122-123 | a stored iterator survives a free if and only if it is not on the freed node |
| `ConnectionCaches.ConnectionCache.MarkPendingWrite` | connectioncache.cpp:155-160 | sets the flag of one record |
| `ConnectionCaches.ConnectionCache.TimeoutConnections` | connectioncache.cpp:244-285 | ends; a connection stays if and only if it has a pending write or its timestamp plus the timeout is not before now; the others are closed, both in list order |
| `ConnectionCaches.ConnectionCache.SetActiveConnections` | connectioncache.cpp:162-224 | sets one window of at most the given size from the marker on, reports its highest socket, marks its end |
| `ConnectionCaches.ConnectionCache.SetWindow` | connectioncache.cpp:162-224 | call number k of a series from the head sets exactly its window and leaves the marker for call number k + 1 |
| `ConnectionCaches.ConnectionCache.SetAllWindows` | connectioncache.cpp:162-224 | ceil(n / size) calls: the j-th connection is set in call number j / size and no other, at most size per call, each reports the highest socket it set, and the marker is back at the end |
| `ConnectionCaches.WindowIs` | connectioncache.cpp:193-216 | exactly the window's sockets are set and the reported one is their maximum |
| `ConnectionCaches.StartOfIter` | connectioncache.cpp:182-191 | the next call starts where the marker stands, and at the head after the end |
| `ConnectionCaches.WindowsTile` | connectioncache.cpp:182-216 | the positions that the calls cover: each in exactly one window, and then from the head again |
| `ConnectionCaches.ConnectionCache.GetNextSetRecord` | connectioncache.cpp:299-322 | the first record at or behind the cursor without a handler and with a readable socket or buffered bytes; the cursor moves past it |
| `ConnectionQueues.ConnectionQueue.FreeVisited` | connectionqueue.cpp:157-158 | freeing the record in hand leaves the cursor valid |
| `ConnectionQueues.ConnectionQueue.ProcessInboundTasks` | connectionqueue.cpp:150-161 | an active record is handed over if and only if it had no handler and a readable socket or buffered bytes, once and in list order; it stays if and only if its handler did not ask for it to be closed |
| `Serving.Server.Pass` | connectionqueue.cpp:150-161 | one pass with any readable sockets and any chunks: exactly the connections that are readable or have bytes buffered take their chunk in and note the time of it; every connection stays open and in step with its own messages |
| `Serving.Server.Intake` | connectionqueue.cpp:150-161 | over n passes each one that finds a socket readable takes in at least one of its bytes |
| `Serving.AllTakenIn` | connectionqueue.cpp:150-161 | a socket that is readable often enough has every byte taken in |
| `Serving.Server.Drain` | connectionqueue.cpp:150-161 | n passes after the last byte get n more messages of every connection out, whatever select reports, because a non-empty buffer counts as ready |
| `Serving.DrainedIsDone` | connectionqueue.cpp:150-161 | with as many passes as messages every connection has sent all of them in order and holds nothing back |
| `Serving.Served` | connectioncache.cpp:299-322 | one connection in one pass, ready or not |
| `Porter.DispatchIsScan` | pstemming.cpp:226-309 | a switch on one letter with tests in order finds what a scan of all rules for the longest suffix finds |
| `Porter.Step2Dispatch` | pstemming.cpp:226-263 | step 2's switch finds what a scan of the whole published list for the longest suffix finds, whatever is read in front of a one-letter word |
| `Porter.AllIs2` | pstemming.cpp:226-263 | the rules that step 2's switch reaches are those of the published list, with the marked departures |
| `Porter.Step3Dispatch` | pstemming.cpp:267-280 | the same for step 3 |
| `Porter.AllIs3` | pstemming.cpp:267-280 | the rules that step 3's switch reaches are those of the published list |
| `Porter.Step4Dispatch` | pstemming.cpp:284-309 | the same for step 4 |
| `Porter.AllIs4` | pstemming.cpp:284-309 | the rules that step 4's switch reaches are those of the published list |
| `Porter.Steps234Shorten` | pstemming.cpp:226-309 | steps 2 to 4 never lengthen a word, empty it or change its first letter |
| `Porter.Stem` | pstemming.cpp:332-343 | the stem is a non-empty word of at most the same length with the same first letter |
| `PorterShapes.StepsRewrite` | pstemming.cpp:226-309 | steps 2 to 4 rewrite the longest suffix of their lists if the stem in front measures enough, and nothing else |
| `PorterShapes.Ational` | pstemming.cpp:228 | -ational becomes -ate behind a stem that measures something |
| `PorterShapes.Step1aShapes` | pstemming.cpp:195-200 | -sses to -ss, -ies to -i, -ss stays |
| `PorterShapes.Step1aPlain` | pstemming.cpp:199 | any other single s goes |
| `PorterShapes.Step1bEed` | pstemming.cpp:201 | -eed to -ee behind a stem that measures something |
| `PorterShapes.Step1bE` | pstemming.cpp:202-206 | -ed and -ing behind -at, -bl and -iz leave an e |
| `PorterShapes.Step1bDouble` | pstemming.cpp:207-212 | a doubled consonant is undone, except l, s and z |
| `PorterShapes.Step1bShort` | pstemming.cpp:213 | a short stem gets an e, any other stays |
| `PorterShapes.Step1cShapes` | pstemming.cpp:219 | -y to -i if and only if a vowel is in front |
| `PorterShapes.Step5Shapes` | pstemming.cpp:314-321 | when a final e and a doubled l go |
| `PorterShapes.StemInSteps` | pstemming.cpp:332-343 | the order of the steps; one and two letters stay |
| `PorterShapes.Letters` | pstemming.cpp:73-84 | vowel letters, y, and the others |
| `PorterShapes.RunOfY` | pstemming.cpp:73-84 | consonants and vowels alternate in a run of y |
| `PorterShapes.MeasureCounts` | pstemming.cpp:92-115 | the measure is the number of vowel-to-consonant boundaries |
| `Stemming.Stemmer.ConsAt` | pstemming.cpp:73-84 | the recursion on the buffer is the consonant test of the word, alternating over y |
| `Stemming.Stemmer.StemMeasure` | pstemming.cpp:92-115 | the three loops count the vowel-to-consonant boundaries |
| `Stemming.Stemmer.VowelInStem` | pstemming.cpp:119-122 | whether the stem has a vowel |
| `Stemming.Stemmer.DoubleAt` | pstemming.cpp:126-130 | whether a double consonant ends there |
| `Stemming.Stemmer.ConsVowelConsAt` | pstemming.cpp:141-147 | consonant, vowel, consonant other than w, x, y |
| `Stemming.Stemmer.Ends` | pstemming.cpp:151-158 | whether the word ends so, and where its stem then ends |
| `Stemming.Stemmer.SetTo` | pstemming.cpp:163-167 | replaces what is behind the stem |
| `Stemming.Stemmer.Step1aInPlace` | pstemming.cpp:195-200 | plural endings |
| `Stemming.Stemmer.Step1bInPlace` | pstemming.cpp:201-214 | -eed, -ed, -ing and the repairs after them |
| `Stemming.Stemmer.Step1cInPlace` | pstemming.cpp:219 | final y behind a vowel |
| `Stemming.Stemmer.Step2InPlace` | pstemming.cpp:226-262 | the word becomes the longest-suffix scan's result |
| `Stemming.Stemmer.Step3InPlace` | pstemming.cpp:267-280 | the word becomes the longest-suffix scan's result |
| `Stemming.Stemmer.Step4InPlace` | pstemming.cpp:284-309 | the word becomes the longest-suffix scan's result |
| `Stemming.Stemmer.Step5InPlace` | pstemming.cpp:314-321 | final e and double l, both measured on the word as it came |
| `Stemming.StemInPlace` | pstemming.cpp:332-343 | `p[i..k]` is the stem of `p[i..j]` with i <= k <= j, no other cell and not `p[i]` changes, and the byte in front plays no part |
| `McScript.Translator.ParseNestedStatements` | mcscript.cpp:784-849 | status and both containers after parsing, for every content of the unset types |
| `McScript.Translator.ProcessNestedStatements` | mcscript.cpp:851-883 | top of the stack with front of the queue until both are empty, including the throwing case |
| `McScript.Translator.HandleArray` | mcscript.cpp:885-928 | call or index text around the argument or the last statement |
| `McScript.Translator.HandleMap` | mcscript.cpp:930-973 | lookup text, or the throw when there is no name |
| `McScript.Translator.Translate` | mcscript.cpp:750-754 | parse, then process |
| `McScript.AcceptedIff` | mcscript.cpp:793-842 | a statement is refused if and only if it has a comma and no quote, or its opener and closer counts differ |
| `McScript.ParsedChain` | mcscript.cpp:803-839 | reading a written chain stacks its openers and queues its closers |
| `McScript.PairedChain` | mcscript.cpp:864-876 | the pairing nests a chain from the inside out |
| `McScript.ChainTranslated` | mcscript.cpp:784-973 | every chain becomes exactly its Tcl if and only if a comma comes with a quote and is not in the innermost call's argument |
| `McScript.LostArgumentWitness` | mcscript.cpp:907-917 | the call f of 'a,b' is translated without its argument |
| `McScript.SiblingsMixed` | mcscript.cpp:784-973 | two calls side by side give the first one the second one's argument and lose the second |
| `McScript.OnePairTranslated` | mcscript.cpp:784-883 | a statement of one opener and one closer becomes what its pair emits |
| `McScript.OddPairs` | mcscript.cpp:885-973 | what single pairs of other shapes become: maps in parentheses, mixed brackets, unset types, the throw |
| `McPairing.ParsedInOrder` | mcscript.cpp:803-839 | opener number i on the stack is the i-th of the text, closer number k in the queue the k-th, each with the text in front of it |
| `McPairing.PairingRightIff` | mcscript.cpp:803-876 | the reverse pairing gives every closer its own opener under bracket matching if and only if no opener stands behind a closer |
| `McPairing.TranslationWeaves` | mcscript.cpp:784-883 | every accepted statement is emitted closer by closer, closer k with opener n - 1 - k, which is right if and only if the text nests |
| `McPairing.ChainNests` | mcscript.cpp:803-839 | chains nest |
| `McPairing.SiblingsDoNotNest` | mcscript.cpp:803-839 | two expressions side by side never do |

## Left out

- Sockets, select, threads, locks, timers and logging: their results are parameters, each locked section is one step.
- Integer width: `int`, `size_t` and `time_t` are unbounded; `sizeof(long)` is 8 and the CRC register is 64 bits wide.
- Inbound.ConnectionHandler.HandleConnection: requires that no frame size is negative, because a negative Content-Length makes the original copy a negative number of bytes, which is undefined.
- Inbound.ConnectionHandler.Process: the same.
- Buffers.Buffer.Truncate: a count beyond the content, which would make the original's tail negative and every later access undefined.
- HeaderExtracts.HeaderExtract.Parse: buffers of one to three bytes, where the original searches from behind the terminator.
- ConnectionCaches.ConnectionCache.MarkPendingWrite: sockets without a record, for which the original adds one with an iterator that points nowhere.
- Msg fields other than state, socket, connection type, priority and the resend fields; message parsing, routing and replies; the routes behind ProcessPriorityQueue are the handlers' and appear as later steps.
- Message and connection record objects are values in a map, named by address or socket; pointers to them are those names, so sharing is kept but not the memory itself.
- PostNotifyMessage and CreateMessageReply: each is a create, an edit and a dispatch step.
- Sending more than one outcome for a message: runs assume that only its holder touches a message and finishes it once.
- Priority queue order among equal priorities: any choice is allowed.
- FlushMessagesToDB and everything else that talks to a database.
- KeyValues.KeyValue.GetStream: the map's iteration order is a parameter that lists its keys.
- KeyValue value buffers are modelled by their contents.
- Buffers.Buffer.BinaryFind: only index 0 with the terminator in place and NUL-free patterns, as its caller uses it.
- GetConnectionRecord on unknown sockets, which adds a record to the map.
- Socket addresses and record buffers in the connection cache: only the buffered byte count matters there.
- cBuffer's Cleanup, Sprintf, CopyBetween, Crypto, HashKey and case conversion.
- The stemmer's Process, which splits text with strtok.
- The rest of mcscript: XML, regular expressions, keyword handlers.
- Web server, scripting, presence, scraping, plugins, rules engine, access log, URL and tuple helpers: input/output or simple lookups.
