# Verification of the base library

A Dafny model of the parts of `webrtc_backup/base` whose correctness does not show from one function body: protocols,
codecs, in-place buffers, and accounting that many operations share. Classes that update their fields in place are
Dafny classes; loops are loops; each is proved against a specification function or a state machine, and what the
source promises is proved about that specification. `dafny verify dfyconfig.toml` checks everything.

## The modules

* **HTTP/1.1** (`httpbase.cc`). `HttpParsing` defines what a byte stream means: a machine that reads one character at a
  time and knows nothing about buffers. `HttpReceiver` is the receiving half of `HttpBase` with its 32K buffer, its
  partial reads and its partial document writes; it is proved to be in the machine's state after every call, and to have
  processed all it could when it waits for the network, so parsing does not depend on fragmentation. `HttpText` says
  what it makes of text that anybody may have written, and what it refuses. `HttpMessage` proves that leader, fields and
  body are read back from their text.
  `HttpSender` is the sending half (`flush_data`, `queue_headers`), which packs a message into one buffer that drains
  through partial writes; `HttpTransfer` joins the two halves. `CText` models the C library routines they call.
* **Lock-free queue** (`atomicops.h`). `LockFreeQueue` is a state machine whose steps are the memory accesses of the
  producer and of the consumer; a list of actions is any interleaving. The class is proved against the machine.
* **Packets over TCP** (`asynctcpsocket.cc`). `PacketFraming` is the frame format of section 2 of RFC 4571;
  `AsyncTcpSocket` is the class, with partial sends, silent drops and arbitrary reads.
* **Base64** (`base64.cc`), sections 3.5 and 4 of RFC 4648, and **CRC-32** (`crc32.cc`), section 8 of RFC 1952. The CRC
  reference is division by the polynomial one bit at a time; `Shift`, `Divide` and `Crc` do not mention the table.
* **DiskCache** (`diskcache.cc`): locks, open streams, accessor counts, sizes and eviction. Entries, open streams and
  files are explicit, so that the counters can be compared with what they count. `CacheRows` is the map;
  `CacheEviction` has the scan and the run of `CheckLimit` as functions of the map, the order in which a run comes upon
  the entries, and from it how every run ends.
* **HttpClient** (`httpclient.cc`): retries, redirects and proxy authentication of one request, as a function from the
  ending of one operation to the next state. The network and the server choose every ending.
* **Attribute lists** (`httpcommon.cc`): `HttpAttributes` has the parser, the quoting, and `HttpAuthenticate` without its
  Windows schemes. **Url** (`httpcommon-inl.h`): printing and parsing.
* **ByteBuffer** (`bytebuffer.cc`): a byte queue with remembered read positions and typed values.
* **IpAddress** (`ipaddress.cc`): prefixes, masks, and the order of addresses; `Words32` proves that big-endian bytes
  compare like words.

What the environment decides (how much a socket takes or gives, whether a file can be deleted, whether a document can
be rewound, the time) is an arbitrary value of the method that asks for it. The target is the 32-bit one:
`size_t` and `unsigned long` have 32 bits, and `SIZE_UNKNOWN` is the largest of them.

## Where the code does not do what it is meant to do

Each of these is modelled as the code has it, and its exact condition is proved.

* `DoReceiveLoop`: when the peer closes while a document write is blocked, a body of unknown length ends with `HE_NONE`
  although bytes are still in the buffer. The document is the whole body exactly if the buffer is empty; a loop that is
  entered with an empty buffer loses nothing, and what is lost was in the buffer at entry
  (`HttpReceiver.Receiver.DoReceiveLoop`; an input: `HttpTransfer.BlockedBodyIsLost`).
* `queue_headers` discards a field that does not fit into an empty buffer, and `HttpBase::send` clips a leader that is
  too long. `HttpSender.Kept` says which fields are sent; the constructor says exactly when the leader is whole.
* The queue survives the wrap of its counters exactly if the capacity divides 2^32; for every other capacity a failing
  run is constructed (`LockFreeQueue.AlwaysFifoIffDivides`).
* The length field of a TCP packet has 16 bits while the size check admits 65538 bytes; a frame is read back exactly if
  the payload has at most 65535 bytes (`PacketFraming.FrameReadsBackIff`). On the sizes in between the assertion in
  `AppendToOutBuffer` fails, exactly if nothing is waiting to be sent (`AsyncTcpSocket.AsyncTcpSocket.Send`).
* `CheckLimit` starts its scan with `it = oldest++`. One scan runs past the end of the map exactly if only its last
  entry may be evicted (`CacheEviction.PastEndIffOnlyLast`), and it can choose an entry that is locked, whose deletion is
  then refused (`CacheEviction.ScanCanChooseLockedEntry`, `CacheEviction.ChosenIsEligibleIff`). For the whole call,
  from the map before it: the limit is met exactly if the smallest total that eviction can reach (`Floor`) meets it;
  otherwise the call reads past the end exactly if the map has a final entry (`HasFinal`), and else reports failure
  (`CacheEviction.RunEnds`). While the last entry of the map is locked or open that never happens; with nothing locked
  or open it happens exactly if the newest entry alone is over the limit. These hold with equal modification times too.
* `LockResource` keeps a pointer to its entry across `CheckLimit`, which may evict that entry. It goes wrong exactly if,
  in the map before the evictions, the floor is over the limit and there is a final entry, or the floor meets the limit,
  the entry is one that eviction removes, and the total is still over the limit when the run comes to it
  (`CacheEviction.LockFailsIff`, `DiskCache.DiskCache.LockResource`; an input: `CacheEviction.LockCanFail`). With nothing
  locked or open and no other entry as old: exactly if the entries that are not older are together over the limit
  (`CacheEviction.LockFailsUnheldIff`).
* `Purge` does not reset `total_size_`; the accounting survives exactly if it was zero (`DiskCache.DiskCache.Purge`).
* `DO_PARSE_WHITE` with `DO_PAD_YES` refuses white space behind an encoding without pads, such as a final line end,
  because it is read as a quantum without pads; everywhere else white space is skipped (`Base64.WhiteSpaceIsSkipped`).
* `Url` does not read back hosts with '@', ':' or '/' and the like; `Url.ReadsBackIff` has the exact condition.
* `WriteUInt24` writes the low three bytes: the value is read back exactly if it has 24 bits
  (`ByteBuffer.TextReadsBack`).

## Model

| member | source | states |
|---|---|---|
| HttpReceiver.Receiver.constructor | webrtc_backup/base/httpbase.cc:436-456 | reception starts in the start state of the reference machine, with nothing received |
| HttpReceiver.Receiver.ProcessLine | webrtc_backup/base/httpbase.cc:124-213 | one line does to the parser what the reference machine does: next state, chunking, body size, callbacks, error |
| HttpReceiver.Receiver.Process | webrtc_backup/base/httpbase.cc:59-122 | however much of its input it processes, the parser is where the byte-at-a-time machine is after that much; when it asks for more data no line and no body data is left over, and it is held up only in front of body data that the document was asked to take and did not |
| HttpReceiver.Receiver.ProcessData | webrtc_backup/base/httpbase.cc:846-869 | a document write that accepts a part delivers exactly that part; a blocked or failing write delivers nothing |
| HttpReceiver.Receiver.ProcessBuffer | webrtc_backup/base/httpbase.cc:551-568 | compaction keeps the buffer equal to what was received and not yet consumed; more data is asked for only if no whole line and no body data is left in it, and a held-up parser has body data in front of it |
| HttpReceiver.Receiver.DoReceiveLoop | webrtc_backup/base/httpbase.cc:494-573 | a stop by the parser is the machine's result on everything received, and so is the state in which the loop waits for the network or has read often enough; it waits for the document, or fails on it, only in front of body data; overflow needs a full buffer of line without a newline; a clean close loses body exactly if the buffer is not empty, which then held it at entry; an empty buffer at entry loses nothing |
| HttpReceiver.Receiver.DrainedIsOnePass | webrtc_backup/base/httpbase.cc:494-573 | a parser that has processed all it could, in whatever pieces its input came, is where one pass over the whole input ends |
| HttpReceiver.Receiver.CloseError | webrtc_backup/base/httpbase.cc:475-492 | a close is free of error if and only if it is clean and comes in a body of unknown length |
| HttpParsing.RunConcat | webrtc_backup/base/httpbase.cc:60-213 | parsing does not depend on how the stream is split |
| HttpParsing.LongerStreamAgrees | webrtc_backup/base/httpbase.cc:60-122 | nothing past the end of a message changes its result |
| HttpParsing.RunStops | webrtc_backup/base/httpbase.cc:112-121 | a parser that has stopped takes nothing more |
| HttpParsing.RunLine | webrtc_backup/base/httpbase.cc:66-96 | a whole line, its end and the white space before it removed, is one step |
| HttpParsing.RunBody | webrtc_backup/base/httpbase.cc:97-110 | body data within the announced size is delivered unchanged |
| HttpText.LeaderIsPassedOn | webrtc_backup/base/httpbase.cc:131-133 | the owner gets the leader without the white space at its end; its verdict is the parser's |
| HttpText.ContentLengthIsRead | webrtc_backup/base/httpbase.cc:148-158 | a field whose name is any spelling of Content-Length sets the body size to the number that its value starts with, wrapped or clamped as sscanf has it |
| HttpText.ContentLengthIsRefused | webrtc_backup/base/httpbase.cc:148-157 | a value that starts with no number is a protocol error |
| HttpText.TransferEncodingIsRead | webrtc_backup/base/httpbase.cc:159-168 | a field whose name is any spelling of Transfer-Encoding turns chunking on for any spelling of chunked, off for any spelling of identity, and is a protocol error for any other value |
| HttpText.OtherFieldIsKept | webrtc_backup/base/httpbase.cc:135-170 | any other field is passed on and leaves the framing alone |
| HttpText.ColonIsNeeded | webrtc_backup/base/httpbase.cc:137-141 | a header line without a colon is a protocol error |
| HttpText.BlankLineEndsFields | webrtc_backup/base/httpbase.cc:171-173 | the blank line reports the framing; the owner's verdict sets the size, throws the body away or ends the message; size 0 without chunks ends it |
| HttpText.ChunkSizeIsRead | webrtc_backup/base/httpbase.cc:176-183 | a line of hexadecimal digits in either case is the size of the next chunk, and size 0 leads to the trailers |
| HttpText.ChunkSizeIsRefused | webrtc_backup/base/httpbase.cc:176-188 | an empty line and a line with a character that no number has, so any chunk extension, is a protocol error |
| HttpText.ChunkIsRead | webrtc_backup/base/httpbase.cc:97-110 | a chunk in anybody's spelling delivers its data, unless the body is thrown away, and leads to the next chunk size |
| HttpText.ChunkEndIsBlank | webrtc_backup/base/httpbase.cc:191-198 | anything but a blank line behind the data of a chunk is a protocol error |
| HttpText.TrailersAreSkipped | webrtc_backup/base/httpbase.cc:200-205 | any number of trailer lines is skipped |
| HttpText.LastChunkEndsMessage | webrtc_backup/base/httpbase.cc:176-205 | a chunk of size 0, trailers and a blank line end the message, at the last character of the blank line |
| CText.EqualsNoCaseIff | webrtc_backup/base/httpbase.cc:31-35 | names are equal without case exactly if every letter is in one of its two cases and every other character is the same |
| CText.StrToULText | webrtc_backup/base/httpbase.cc:148-183 | a number is scanned up to its last digit, clamped if too large, wrapped if negative |
| HttpMessage.RunHead | webrtc_backup/base/httpbase.cc:130-174 | a printed leader and printed fields are read back in order, with the body framing they announce |
| HttpMessage.RunChunk | webrtc_backup/base/httpbase.cc:176-198 | a printed chunk delivers its data and leaves the parser in front of the next one |
| HttpMessage.ChunkedRoundTrip | webrtc_backup/base/httpbase.cc:60-213 | every leader, field list and list of chunks is read back from its text: events, body, no error, last character |
| HttpMessage.LengthRoundTrip | webrtc_backup/base/httpbase.cc:60-213 | the same for a body with a Content-Length |
| HttpMessage.CloseDelimitedRoundTrip | webrtc_backup/base/httpbase.cc:215-219 | a body of unknown length is delivered whole and never ends by itself |
| HttpMessage.HeadAloneEnds | webrtc_backup/base/httpbase.cc:97-121 | a message is complete after its head if and only if the fields announce a body of size 0 |
| HttpMessage.OneMoreField | webrtc_backup/base/httpbase.cc:703-712 | a further field adds its name, a colon and a space, its value and a line end |
| HttpMessage.OneMoreChunk | webrtc_backup/base/httpbase.cc:622-638 | a further chunk adds its size in eight digits, a line end, its data and a line end |
| HttpMessage.ContentLengthAnnounces | webrtc_backup/base/httpbase.cc:148-158 | a printed Content-Length among other fields announces exactly that size |
| HttpMessage.TransferEncodingAnnounces | webrtc_backup/base/httpbase.cc:159-168 | a chunked Transfer-Encoding among other fields announces chunks |
| HttpSender.Sender.constructor | webrtc_backup/base/httpbase.cc:398-433 | the queued text is the start of the message if and only if the leader and its line ends fit; whether to chunk is decided as AsksForChunks says |
| HttpSender.AsksForChunksIff | webrtc_backup/base/httpbase.cc:417-421 | the sender chunks exactly if the first field with any spelling of Transfer-Encoding for its name says exactly chunked |
| HttpSender.ClippedLeaderFits | webrtc_backup/base/httpbase.cc:423-430 | a leader that does not fit is clipped, and one that fits is not |
| HttpSender.Sender.QueueHeaders | webrtc_backup/base/httpbase.cc:703-725 | fields are queued in order, each whole or not at all, until the next one has no room behind queued text |
| HttpSender.Sender.QueueChunk | webrtc_backup/base/httpbase.cc:606-642 | document data in the buffer becomes one chunk in place |
| HttpSender.Sender.QueueDocument | webrtc_backup/base/httpbase.cc:606-668 | a read extends the queued message by what was read; the end of the document closes it; a send is asked for only if document data has no room, or the document blocked or has been queued to its end |
| HttpSender.Sender.SendQueued | webrtc_backup/base/httpbase.cc:670-697 | partial writes move text from the buffer to the wire and lose none; the loop goes round again unless the network blocks with nothing left to queue, or nothing is queued |
| HttpSender.Sender.FlushData | webrtc_backup/base/httpbase.cc:583-701 | wire and buffer always hold the start of the message; a send that completes without an error has sent all of it; the loop pauses only because the network blocks while text is queued and nothing more can be, or because the document blocks and everything queued is sent |
| HttpSender.Sender.QueuedTextStartsMessage | webrtc_backup/base/httpbase.cc:583-725 | at every moment wire and buffer are a prefix of a complete well-formed message with exactly this document |
| HttpSender.Sender.AllSentIsMessage | webrtc_backup/base/httpbase.cc:583-745 | on completion the wire is that message |
| HttpSender.Sender.MessageReadsBack | webrtc_backup/base/httpbase.cc:583-725 | at every moment the parser reads the message being sent back as this leader, these fields and this document |
| HttpSender.Sender.SentMessageReadsBack | webrtc_backup/base/httpbase.cc:583-725 | under every schedule of document reads and network writes the parser reads the wire back as this leader, these fields and this document |
| HttpSender.Sender.ChunkedDocumentArrives | webrtc_backup/base/httpbase.cc:398-725 | with one field Transfer-Encoding: chunked, wherever it stands, the wire is the head and the document in chunks, character by character, and is read back as this document |
| HttpSender.Sender.DocumentWithLengthArrives | webrtc_backup/base/httpbase.cc:398-725 | with one field Content-Length that says the size, wherever it stands, the wire is the head and the document itself, and is read back as this document |
| HttpTransfer.StoppedReceiverHasMessage | webrtc_backup/base/httpbase.cc:494-701 | a receiver that stops has the sender's document and fields and no error, has left what follows alone, and the sender has sent everything |
| HttpTransfer.WaitingReceiverHasPrefix | webrtc_backup/base/httpbase.cc:494-701 | before that, while the sender is still sending or not, it has delivered a prefix of them |
| HttpTransfer.DrainedReceiverLacksSome | webrtc_backup/base/httpbase.cc:494-573 | a receiver that waits for the network lacks a part of the message: once all of it has arrived, the loop does not wait for more |
| HttpTransfer.BlockedBodyIsLost | webrtc_backup/base/httpbase.cc:515-535 | an input on which a clean close loses the body |
| CText.HexRoundTrip | webrtc_backup/base/httpbase.cc:632-638 | a chunk size printed in eight hexadecimal digits is scanned as itself |
| LockFreeQueue.StepKeeps | webrtc_backup/base/atomicops.h:75-118 | every memory access of either thread keeps the queue's invariant |
| LockFreeQueue.EveryRunIsFifo | webrtc_backup/base/atomicops.h:75-142 | every interleaving of any length refines a bounded FIFO if the capacity divides 2^32; otherwise those with fewer than 2^32 pushes |
| LockFreeQueue.ReadAndWriteSlotsDiffer | webrtc_backup/base/atomicops.h:75-118 | the consumer never reads a slot that is being written |
| LockFreeQueue.ChecksPassIff | webrtc_backup/base/atomicops.h:75-107 | in every reachable state, wherever the other thread is in its call, a push passes its check iff there is room and a pop or peek iff there is a value |
| LockFreeQueue.PushIsWaitFree | webrtc_backup/base/atomicops.h:75-92 | a push that finds room appends its value in its three accesses, whatever the consumer does between them |
| LockFreeQueue.PopIsWaitFree | webrtc_backup/base/atomicops.h:95-118 | a pop that finds a value delivers the oldest one in its three accesses, whatever the producer does between them; a peek holds it and leaves it |
| LockFreeQueue.FailingRunFails | webrtc_backup/base/atomicops.h:79-90 | for every other capacity a run that breaks the order |
| LockFreeQueue.AlwaysFifoIffDivides | webrtc_backup/base/atomicops.h:75-142 | all runs are FIFO if and only if the capacity divides 2^32 |
| LockFreeQueue.FixedSizeLockFreeQueue.PushBack | webrtc_backup/base/atomicops.h:75-92 | appends unless full, and is exactly the three actions of the protocol |
| LockFreeQueue.FixedSizeLockFreeQueue.PeekFront | webrtc_backup/base/atomicops.h:95-107 | returns the oldest value, if there is one, and changes nothing |
| LockFreeQueue.FixedSizeLockFreeQueue.PopFront | webrtc_backup/base/atomicops.h:111-117 | removes the oldest value, and is exactly the three actions of the protocol |
| LockFreeQueue.FixedSizeLockFreeQueue.Size | webrtc_backup/base/atomicops.h:134-134 | is the number of values, between 0 and the capacity, across the wrap |
| LockFreeQueue.FixedSizeLockFreeQueue.ClearAndResizeUnsafe | webrtc_backup/base/atomicops.h:121-126 | leaves an empty queue of the new capacity |
| PacketFraming.FrameReadsBackIff | webrtc_backup/base/asynctcpsocket.cc:248-261 | a frame is cut out as the packet it was made from if and only if the payload has at most 65535 bytes |
| PacketFraming.FrameBytes | webrtc_backup/base/asynctcpsocket.cc:258-261 | a frame is the high byte and the low byte of the length and then the payload |
| PacketFraming.FirstBytes | webrtc_backup/base/asynctcpsocket.cc:274-286 | the payload in front is that of the length h * 256 + l for first bytes h and l, and is cut out iff all of it is there |
| PacketFraming.FirstPacketMoves | webrtc_backup/base/asynctcpsocket.cc:274-293 | cutting one frame off the front takes one packet from the front of what was framed |
| PacketFraming.DecodedIsPrefix | webrtc_backup/base/asynctcpsocket.cc:274-293 | packets cut out of a part of the stream are a prefix of the packets framed, and all of them if no byte is missing |
| AsyncTcpSocket.AsyncTcpSocket.Send | webrtc_backup/base/asynctcpsocket.cc:248-272 | a packet whose first bytes the socket takes is accepted whole and adds the two bytes of its length, the high one first, and its payload; else it is dropped whole: with an error, or silently while earlier bytes wait; the assertion fails iff nothing waits and the length field cannot hold a size that the check admits |
| AsyncTcpSocket.AsyncTcpSocket.FlushOutBuffer | webrtc_backup/base/asynctcpsocket.cc:150-165 | a partial send moves bytes from the buffer to the wire, in order, and loses none |
| AsyncTcpSocket.AsyncTcpSocket.OnWriteEvent | webrtc_backup/base/asynctcpsocket.cc:216-226 | keeps wire and buffer equal to the frames of the accepted packets; waiting bytes are offered to the socket once |
| AsyncTcpSocket.AsyncTcpSocket.ProcessInput | webrtc_backup/base/asynctcpsocket.cc:274-293 | signals the payload that the first two bytes, the high one first, announce, if it is all there, and every whole packet behind it, and compacts the rest |
| AsyncTcpSocket.AsyncTcpSocket.OnReadEvent | webrtc_backup/base/asynctcpsocket.cc:177-214 | asks the socket once; what was received is the frames of the signalled packets and a part of a frame; the buffer never overflows |
| AsyncTcpSocket.PacketsArePreserved | webrtc_backup/base/asynctcpsocket.cc:150-293 | for every partial send and every splitting of reads the packets delivered are a prefix of those accepted, and all of them once everything is flushed and read |
| Base64.EncodeFromArray | webrtc_backup/base/base64.cc:98-136 | the loop yields the encoding |
| Base64.GetNextQuantum | webrtc_backup/base/base64.cc:138-190 | fills the four places of a quantum, with pads counted and rolled back as the flags say |
| Base64.DecodeFromArray | webrtc_backup/base/base64.cc:204-258 | result, success and data_used are those of the specification, for all flags |
| Base64.EncodedDecodes | webrtc_backup/base/base64.cc:98-258 | an encoding decodes to its bytes, whole, under every parse mode that admits padding |
| Base64.StrictIffEncoded | webrtc_backup/base/base64.cc:98-258 | strict decoding succeeds with x on s, using all of it, if and only if s is the encoding of x |
| Base64.StrictDecodesEncodings | webrtc_backup/base/base64.cc:138-258 | what strict decoding accepts from a place on is the encoding of what it returns |
| Base64.OnlyAlphabetMatters | webrtc_backup/base/base64.cc:138-190 | under DO_PARSE_ANY the bytes depend on the alphabet characters only |
| Base64.LaxIgnoresJunk | webrtc_backup/base/base64.cc:138-258 | an encoding with anything else inserted anywhere decodes under DO_LAX to its bytes |
| Base64.AlphabetIs | webrtc_backup/base/base64.cc:32-34 | the alphabet of RFC 4648: capitals, small letters and digits in their order, plus and slash |
| Base64.QuadIsSameNumber | webrtc_backup/base/base64.cc:98-136 | three bytes and their four sextets are the same 24-bit number |
| Base64.StrictMeans | webrtc_backup/base/base64.cc:138-258 | strict decoding of any text under any flags: the bytes of the leading alphabet characters; how far it goes; success by the unused bits, the pads and what follows |
| Base64.WhiteSpaceIsSkipped | webrtc_backup/base/base64.cc:138-258 | under DO_PARSE_WHITE a text decodes as it does strictly without its white space, except that white space behind whole quanta is refused if pads are demanded |
| Crc32.ByteStep | webrtc_backup/base/crc32.cc:40-49 | one table look-up divides by the eight bits of one byte |
| Crc32.Crc32.EnsureCrc32TableInited | webrtc_backup/base/crc32.cc:24-38 | fills the table, once; the non-zero test of the last entry tells a filled table from an empty one |
| Crc32.LastEntryIsNotZero | webrtc_backup/base/crc32.cc:25-26 | the entry that the "done" test looks at is not zero |
| Crc32.Crc32.UpdateCrc32 | webrtc_backup/base/crc32.cc:40-49 | equals bit-by-bit division for every start value and buffer |
| Crc32.CheckValue | webrtc_backup/base/crc32.cc:24-49 | the checksum of the text 123456789 is CBF43926 |
| Crc32.CrcComposes | webrtc_backup/base/crc32.cc:40-49 | updating with a and then b is updating with a followed by b |
| Crc32.DivideInjective | webrtc_backup/base/crc32.cc:40-49 | different registers stay different whatever follows |
| Crc32.ShortStringsDiffer | webrtc_backup/base/crc32.cc:40-49 | two different bit strings of the same length up to 32 have different remainders |
| Crc32.NearbyDifferencesAreDetected | webrtc_backup/base/crc32.cc:40-49 | buffers that differ within four consecutive bytes, so in one byte, have different checksums |
| DiskCache.DiskCache.DeleteResource | webrtc_backup/base/diskcache.cc:186-210 | deletes only an unlocked entry without open streams, and its size with it |
| DiskCache.DiskCache.FindOldest | webrtc_backup/base/diskcache.cc:225-239 | both loops of the scan compute the scan function, defined or not |
| CacheEviction.ChosenIsOldest | webrtc_backup/base/diskcache.cc:225-239 | which entry the scan chooses, in terms of the modification times, ties included |
| CacheEviction.PastEndIffOnlyLast | webrtc_backup/base/diskcache.cc:225-239 | the scan leaves the map if and only if its last entry is the only one that may be evicted |
| CacheEviction.ChosenIsLeastRecent | webrtc_backup/base/diskcache.cc:236-239 | no entry that may be evicted is older than the chosen one |
| CacheEviction.ScanCanChooseLockedEntry | webrtc_backup/base/diskcache.cc:236-243 | an input on which the scan chooses a locked entry |
| CacheEviction.ChosenIsEligibleIff | webrtc_backup/base/diskcache.cc:236-239 | exactly when the chosen entry may be evicted, ties included |
| DiskCache.DiskCache.CheckLimit | webrtc_backup/base/diskcache.cc:212-247 | ends; evicts only entries that are neither locked nor open, least recently modified first; does what the run function does until a file cannot be deleted; undefined, true or false by conditions on the map before the call |
| CacheEviction.ComesStays | webrtc_backup/base/diskcache.cc:212-247 | evicting the chosen entry does not change the order in which the scans come upon the others |
| CacheEviction.ChosenComesFirst | webrtc_backup/base/diskcache.cc:236-239 | the chosen entry comes first in that order |
| CacheEviction.RunEnds | webrtc_backup/base/diskcache.cc:212-247 | for every map and limit: true iff the smallest reachable total meets the limit, otherwise past the end iff there is a final entry, otherwise false |
| CacheEviction.EvictedIff | webrtc_backup/base/diskcache.cc:212-247 | an entry is evicted iff eviction can remove it and the total is over the limit when the run comes to it |
| CacheEviction.HeldLastIsDefined | webrtc_backup/base/diskcache.cc:225-240 | while the last entry is locked or open the scan never runs past the end |
| CacheEviction.NewestAloneIff | webrtc_backup/base/diskcache.cc:212-247 | with nothing locked or open it does iff the newest entry alone is over the limit |
| CacheEviction.SecondTurnCanFail | webrtc_backup/base/diskcache.cc:236-240 | an input on which the second turn runs past the end |
| CacheEviction.LockFailsIff | webrtc_backup/base/diskcache.cc:97-109 | the condition for LockResource going wrong holds iff the run is undefined, or meets the limit without the entry |
| CacheEviction.LockFailsUnheldIff | webrtc_backup/base/diskcache.cc:97-109 | with nothing locked or open, that is iff the entries not older than this one are together over the limit |
| CacheEviction.LockCanFail | webrtc_backup/base/diskcache.cc:98-107 | an input on which the entry to be locked is evicted |
| DiskCache.DiskCache.GetOrCreateEntry | webrtc_backup/base/diskcache.cc:297-312 | finds the entry or inserts a fresh one at its place in the order of the ids, changing no other |
| DiskCache.DiskCache.LockResource | webrtc_backup/base/diskcache.cc:97-109 | refuses locked and read resources; otherwise locks its entry in the map that the evictions leave: always if the limit is met before, and else, with files that can be deleted, iff the floor meets the limit and LockFails is false; it goes wrong iff LockFails holds of the map before the evictions; entries that may not be evicted stay |
| DiskCache.DiskCache.WriteResource | webrtc_backup/base/diskcache.cc:111-137 | the row afterwards field by field: the old size of the file, clamped iff it is greater than the entry's, leaves entry and total without underflow; with exact sizes and one writer per stream the clamp never acts |
| DiskCache.DiskCache.ReadResource | webrtc_backup/base/diskcache.cc:154-169 | opens a stream of an unlocked entry only, and does so if the file can be opened |
| DiskCache.DiskCache.UnlockResource | webrtc_backup/base/diskcache.cc:139-152 | waits for the open writers, or unlocks at once and evicts, undefined by a condition on the map before that |
| DiskCache.DiskCache.CloseHandle | webrtc_backup/base/diskcache.cc:314-339 | the entry of an open stream is always found; the file's size rejoins it; the last writer of an entry being unlocked makes it unlocked with the new time; otherwise lock and time stay |
| DiskCache.DiskCache.ReleaseResource | webrtc_backup/base/diskcache.cc:314-343 | the map afterwards, field by field: the stream closed and, if its entry is unlocked by that, unlocked with the new time and the evictions made; undefined by a condition on the map before them |
| DiskCache.DiskCache.Purge | webrtc_backup/base/diskcache.cc:81-95 | removes everything unless a stream is open or files stay behind; the accounting holds afterwards if and only if the total was zero |
| DiskCache.AccessorsAddUp | webrtc_backup/base/diskcache.cc:129-130 | total_accessors_ is the sum of the accessors of the entries |
| DiskCache.OpenKeeps | webrtc_backup/base/diskcache.cc:97-169 | opening a stream keeps the agreement of lock states, counters and open streams |
| DiskCache.CloseKeeps | webrtc_backup/base/diskcache.cc:314-343 | closing one keeps it |
| DiskCache.EraseKeeps | webrtc_backup/base/diskcache.cc:186-210 | removing an entry without open streams keeps it |
| HttpClient.ConnectsAreBounded | webrtc_backup/base/httpclient.cc:709-807 | one request makes at most 12 * (retries+1) connection attempts and follows at most 5 redirects, whatever the server answers |
| HttpClient.BoundIsReached | webrtc_backup/base/httpclient.cc:709-807 | some server makes it use all of them, for every number of retries |
| HttpClient.StepInBounds | webrtc_backup/base/httpclient.cc:709-807 | what is left of redirects, authentication and retries pays for every attempt |
| HttpClient.OneTry | webrtc_backup/base/httpcommon.cc:752-776 | a challenge is answered only while no authentication is under way |
| HttpClient.DocumentStaysHome | webrtc_backup/base/httpclient.cc:441-452 | with default redirection a request that is neither GET nor HEAD follows a redirect only as a GET without its document |
| HttpClient.SuccessIsFinal | webrtc_backup/base/httpclient.cc:731-806 | completion without an error means a final response: not informational, not a redirect to follow, not a challenge taken up |
| HttpClient.WhenErrors | webrtc_backup/base/httpclient.cc:709-727 | which errors are retried and how often, and that any other error ends the request |
| HttpClient.WhenNoErrors | webrtc_backup/base/httpclient.cc:728-735 | connecting, sending, receiving, and receiving again after a response of the 100s |
| HttpClient.WhenReceived | webrtc_backup/base/httpclient.cc:736-763 | which codes, counts and verbs make a redirect that is followed, and what the next request is |
| HttpClient.WhenChallenged | webrtc_backup/base/httpclient.cc:764-797 | the first challenge that names Basic or Digest is answered once; without one, or without a user, the request ends without an error |
| HttpClient.HttpClient.ShouldRedirect | webrtc_backup/base/httpclient.cc:441-452 | gives the Location exactly if the redirect is to be followed |
| HttpClient.HttpClient.Start | webrtc_backup/base/httpclient.cc:336-395 | a fresh attempt count and one connection attempt |
| HttpClient.HttpClient.FollowRedirect | webrtc_backup/base/httpclient.cc:741-763 | the new server and path are those of the Location; 303 drops document and verb; the authentication is forgotten |
| HttpClient.HttpClient.AnswerChallenges | webrtc_backup/base/httpclient.cc:764-797 | the loop over the challenges, with the scheme and the error it carries along |
| HttpClient.HttpClient.OnHttpComplete | webrtc_backup/base/httpclient.cc:709-807 | does what the client's step function does |
| HttpAttributes.HttpParseAttributes | webrtc_backup/base/httpcommon.cc:251-299 | the parse loop ends on every input and yields the specified attributes |
| HttpAttributes.NameOrValueAdvances | webrtc_backup/base/httpcommon.cc:251-299 | every turn of the parse loop moves forward |
| HttpAttributes.QuoteText | webrtc_backup/base/httpcommon.cc:705-715 | yields the quoted text |
| HttpAttributes.QuotedReadsBack | webrtc_backup/base/httpcommon.cc:278-287 | a quoted value is scanned as itself, whatever quotes and backslashes it has and whatever follows |
| HttpAttributes.QuoteIs | webrtc_backup/base/httpcommon.cc:705-715 | quotes around the text, and a backslash in front of quotes and backslashes only |
| HttpAttributes.TokenKeepsEqualSigns | webrtc_backup/base/httpcommon.cc:209-222 | equal signs at the end of a bare token belong to it |
| HttpAttributes.HeaderReadsBack | webrtc_backup/base/httpcommon.cc:251-299 | a scheme with quoted and bare values parses into exactly the pairs printed |
| HttpAttributes.PrintDigest | webrtc_backup/base/httpcommon.cc:836-851 | the header character by character; the parser returns exactly its scheme and its name and value pairs |
| HttpAttributes.DecideMeans | webrtc_backup/base/httpcommon.cc:752-788 | Basic and Digest in any spelling are answered without a context and with a user, ask for credentials otherwise, and any other scheme or a context of another scheme is ignored |
| HttpAttributes.HttpAuthenticate | webrtc_backup/base/httpcommon.cc:736-853 | the decision for a challenge; a Basic answer decodes to the credentials; a Digest answer, read back, echoes realm, nonce and opaque of the challenge and carries the request digest over credentials, nonce, count, verb and URI, for every MD5 function |
| Url.Url.DoSetUrl | webrtc_backup/base/httpcommon-inl.h:24-43 | sets the parts that the parser specification finds |
| Url.Url.DoSetAddress | webrtc_backup/base/httpcommon-inl.h:45-62 | user information is skipped, the port defaults by scheme |
| Url.Url.DoSetFullPath | webrtc_backup/base/httpcommon-inl.h:64-79 | the path ends at the first question mark |
| Url.Url.DoGetUrl | webrtc_backup/base/httpcommon-inl.h:81-105 | prints the parts |
| Url.PrintReadsBack | webrtc_backup/base/httpcommon-inl.h:24-105 | printing then parsing gives back every part, with the default port left out and put back |
| Url.ReadsBackIff | webrtc_backup/base/httpcommon-inl.h:24-105 | that holds if and only if host, path and query are readable, NULs included |
| Url.TextIsRead | webrtc_backup/base/httpcommon-inl.h:24-79 | scheme in any case, user information, host, port, path and query written by anybody go where they belong; port 80 or 443 without a number |
| Url.OtherTextIsNone | webrtc_backup/base/httpcommon-inl.h:24-36 | a text with neither scheme leaves the cleared URL |
| ByteBuffer.ByteBuffer.Resize | webrtc_backup/base/bytebuffer.cc:191-207 | keeps the unread bytes up to the new size, grows to at least one and a half times the old size, and invalidates positions |
| ByteBuffer.ByteBuffer.ReserveWriteBuffer | webrtc_backup/base/bytebuffer.cc:182-189 | makes room behind the unread bytes; compacts if and only if the bytes do not fit |
| ByteBuffer.ByteBuffer.WriteBytes | webrtc_backup/base/bytebuffer.cc:178-180 | appends |
| ByteBuffer.ByteBuffer.ReadBytes | webrtc_backup/base/bytebuffer.cc:136-144 | takes from the front, or fails and changes nothing |
| ByteBuffer.ByteBuffer.SetReadPosition | webrtc_backup/base/bytebuffer.cc:220-226 | succeeds if and only if the version is unchanged, and exposes everything retained from there |
| ByteBuffer.ByteBuffer.DoAll | webrtc_backup/base/bytebuffer.cc:65-232 | any interleaving of operations does to the buffer what it does to a queue of bytes |
| ByteBuffer.ByteBuffer.ReadAgain | webrtc_backup/base/bytebuffer.cc:182-232 | after any run a position is good if and only if nothing was moved, and then exposes what was unread when it was taken followed by everything written since |
| ByteBuffer.NothingIsLost | webrtc_backup/base/bytebuffer.cc:136-189 | without Resize and Clear, what came out and what is in are all that was written, in order |
| ByteBuffer.ByteBuffer.WriteUInt | webrtc_backup/base/bytebuffer.cc:146-172 | appends the bytes of a value in the buffer's order, on either host |
| ByteBuffer.ByteBuffer.WriteUInt24 | webrtc_backup/base/bytebuffer.cc:155-162 | appends the three low bytes |
| ByteBuffer.ByteBuffer.ReadUInt | webrtc_backup/base/bytebuffer.cc:65-122 | takes the value of the first bytes in the buffer's order |
| ByteBuffer.ByteBuffer.ReadUInt24 | webrtc_backup/base/bytebuffer.cc:83-98 | takes the value of the first three bytes |
| ByteBuffer.TextReadsBack | webrtc_backup/base/bytebuffer.cc:65-172 | a value is read back, in both orders and on both hosts, if and only if it fits in its bytes |
| ByteBuffer.ByteAt | webrtc_backup/base/byteorder.h:21-92 | byte by byte, for any size: network order is the high byte first and the other order its reverse |
| ByteBuffer.NetworkOrder | webrtc_backup/base/byteorder.h:136-164 | the bytes on the wire do not depend on the host, and conversion there and back is the identity |
| IpAddress.TruncateIP | webrtc_backup/base/ipaddress.cc:295-336 | every word keeps its share of the first bits, on every branch |
| IpAddress.TruncationKeepsPrefix | webrtc_backup/base/ipaddress.cc:295-336 | bit by bit: the first `length` bits stay, the others are zero |
| IpAddress.TruncationsCompose | webrtc_backup/base/ipaddress.cc:295-336 | truncating twice is truncating to the shorter length |
| IpAddress.MemoryOrder | webrtc_backup/base/ipaddress.cc:104-108 | memcmp of two IPv6 addresses compares their words |
| IpAddress.TruncationIsMonotone | webrtc_backup/base/ipaddress.cc:89-336 | truncation respects operator<, within and across families |
| IpAddress.LessIsTotal | webrtc_backup/base/ipaddress.cc:89-112 | of two addresses exactly one is smaller unless they are equal |
| IpAddress.LessMeans | webrtc_backup/base/ipaddress.cc:89-112 | unspecified before IPv4 before IPv6; IPv4 by number; IPv6 by the first word that differs |
| IpAddress.TrickCounts | webrtc_backup/base/ipaddress.cc:371-382 | the bit tricks count the trailing zeros of every word |
| IpAddress.CountIPMaskBits | webrtc_backup/base/ipaddress.cc:338-383 | returns 32 times the number of leading all-ones words, plus 32 less the trailing zeros of the first word that is not all ones: for a mask, its ones |
| IpAddress.CountInvertsTruncation | webrtc_backup/base/ipaddress.cc:295-383 | the count of the all-ones address truncated to n is n, for every n up to 32 or 128 |
| IpAddress.MaskIff | webrtc_backup/base/ipaddress.cc:295-383 | an address is a mask if and only if its count gives it back |

## Left out

- HttpSender.Sender.FlushData: the number of turns of the loop is an argument, because the loop of the source does not end while the network blocks a message without a document; safety and the content of a completed send are proved, termination is not.
- HttpSender.Sender.SentMessageReadsBack: assumes that the fields announce the body that is sent, which the caller of `HttpBase::send` arranges; without that no reader can find the end of the body.
- HttpMessage.RunHead: for leaders and fields without newline and NUL and with trimmed values, the texts that the parser can give back; a field name has no colon and nothing to trim.
- HttpAttributes.HttpAuthenticate: MD5 is any function to texts of hexadecimal digits; the Negotiate and NTLM schemes of Windows are not part of this model.
- HttpClient.HttpClient.Start: sets no request headers and does not convert the form of the URI; there is no cache.
- HttpClient.HttpClient.Connect: name lookup is part of the attempt, and the answer of the stream pool arrives as the end of an operation.
- DiskCache.DiskCache.constructor: finding the entries on disk is not modelled; file names stand for their resource and stream index.
- ByteBuffer.ByteBuffer.Resize: sizes and the version number do not overflow.
- DiskCache.DiskCache.WriteResource: the 32-bit wrap of the totals is not modelled; the totals are shown not to go below zero.
- LockFreeQueue.EveryRunIsFifo: under sequential consistency; the ARM barriers are not modelled.
- Real sockets, streams, files, threads, DNS and message queues; their results are arbitrary.
- `HttpBase::DocumentStream`, re-entrant notifications and `HttpServer`.
- Cache validation, `HttpComposeAttributes`, dates, flags, bandwidth estimation and the other helpers of the directory.
- `IPAddress` categories, precedence and text form: one-branch functions.
