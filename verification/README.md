# A verified model of an HTTP and WebSocket server and its reverse proxy

The system is a web server written from scratch: a net thread reads bytes from non-blocking sockets into
growing buffers, resumable parsers recognise HTTP messages and WebSocket frames in them, workers take complete
packets from a condition-variable queue, and a reverse proxy relays requests to web servers and responses back.
Around that core are a SHA-1 and a Base64 for the WebSocket handshake, a YAML reader for the configuration, a
polling load balancer and a coroutine scheduler whose coroutines share one stack.

This project models those parts in Dafny. Code that updates state in place is modelled by classes, arrays and
loops, and every such method is proved against a function of its input or of the old state; what the system
promises is then proved about those functions, for every input and over every run.

| file | what it holds |
|---|---|
| `Sha1Spec.dfy`, `Sha1.dfy` | RFC 3174 sections 4, 5 and 6.1, and the in-place sixteen-word ring that refines it |
| `Base64.dfy` | RFC 4648 section 4, and the byte-at-a-time encoder and decoder |
| `Octets.dfy`, `Arithmetic.dfy`, `Sequences.dfy`, `Wrappers.dfy` | the byte, quotients and remainders, concatenations, options |
| `StrUtil.dfy`, `Numbers.dfy` | searching and splitting of strings, decimal printing and reading |
| `HttpMessage.dfy`, `HttpParser.dfy` | first lines, header fields, the resumable parser |
| `Chunks.dfy`, `HttpChunks.dfy`, `HttpRoundTrip.dfy` | independence of the reads, and the packers as inverse |
| `HttpText.dfy` | the parser and the packers on messages written out |
| `MessageQueue.dfy`, `WorkerQueue.dfy` | the queue as interleaved atomic steps, and the backlog protocol on top |
| `ConnectionPool.dfy`, `SendQueue.dfy`, `ProxyRelay.dfy` | uids and slots, partial writes, responses matched to requests |
| `LoadBalancer.dfy` | polling and its fairness |
| `Yaml.dfy`, `YamlRoundTrip.dfy`, `YamlFiles.dfy` | the indentation-stack parser, a printer it inverts, and files with comments and mistakes |
| `HandShake.dfy` | the opening handshake: SHA-1 and Base64 over the client's key |
| `WebSocket.dfy`, `WebSocketReads.dfy`, `LongLink.dfy` | frames, their reads, and the packets of an upgraded connection |
| `Coroutine.dfy`, `CoroutineDispatcher.dfy` | the shared stack that looks private, and round robin |

Some promises are false of the code. The model keeps the code as it is and proves exactly when the promise
holds:

- how many body bytes a packed HTTP message may have (the length text has eight digits), and how many headers
  a response needs (a single header line is lost by the splitter): `RequestRoundTrip`, `ResponseRoundTrip`;
- which status lines read back (three digits, a description of one word): `StatusLineReadsBackIff`;
- which backlog limit loses nothing: `LosesNothingIff`;
- which WebSocket frames are ever completed (the parser compares with the seven-bit length): `CompleteIff`;
- which cuts a masked frame survives (the key index restarts at every read): `MaskedRoundTrip`;
- which reads a conversation of frames survives (bytes of two frames in one read are an error):
  `ConversationDelivered`;
- which lengths the frame packer writes in the standard's byte order: `PackIsStandard`;
- when a forward loses its entry (entries are erased by client uid): `EntryLostIff`;
- when a direct send keeps the order of bytes (it does not look at the queue): `DirectKeepsOrderIff`;
- when polling can be relied on to return, with a clock that moves while it runs: `AlwaysReturnsIff`;
- when the retry rule is the one its name suggests: a server that is down is tried while the retry period has
  *not* passed (`reverseproxy/loadbalancer.cc:134`): `RulesAgreeIff`; after the period it comes back only by a
  report or a heartbeat of its own: `ComesBackIff`.

`dafny verify dfyconfig.toml` checks everything.

## Model

| member | source | states |
|---|---|---|
| Sha1.SwapReadsBigEndian | utils/messagedigest.cc:10-11 | the two rotations and masks of `blk0` turn a little-endian word of memory into the big-endian word of the standard |
| Sha1.MasksAgree | utils/messagedigest.cc:21-24 | the rewritten choose and majority expressions equal the functions of RFC 3174 section 5, for all words |
| Sha1.MacroIsShift | utils/messagedigest.cc:20-25 | one macro line with its registers renamed is one step of the five-register shift of section 6.1 |
| Sha1.RingLookback | utils/messagedigest.cc:17-18 | the four slots `blk` reads hold words i-3, i-8, i-14 and i-16 of the plain schedule |
| Sha1.RingAdvances | utils/messagedigest.cc:17-18 | storing word i over slot i & 15 keeps the ring: each slot holds the latest schedule word of its residue |
| Sha1.Expand | utils/messagedigest.cc:7-18 | `blk0` and `blk` yield word i of the eighty-word schedule and write it over the caller's bytes, and no other byte |
| Sha1.Round | utils/messagedigest.cc:20-25 | a macro line on memory computes the standard's step and moves the ring on by one |
| Sha1.FiveRounds | utils/messagedigest.cc:88-92 | after five lines every register is back under its own name and five standard steps are done |
| Sha1.EightyRounds | utils/messagedigest.cc:88-167 | all the lines together are the eighty steps of section 6.1, and the block memory ends as the last sixteen schedule words |
| Sha1.Sha1Transform | utils/messagedigest.cc:72-173 | the new state is the standard's compression of the old state and block; what the block's bytes become; nothing else in the buffer changes |
| Sha1.HashFullBlocks | utils/messagedigest.cc:37-41 | although each block is overwritten, the state is the hash of all full blocks of the original message |
| Sha1.LengthByte | utils/messagedigest.cc:49-51 | shifting and masking gives exactly the bytes of the standard's length field |
| Sha1.PadInOneBlock | utils/messagedigest.cc:47-53 | with less than 56 bytes left over, section 4's padding ends in one block made of the tail, the bit and the length |
| Sha1.PadInTwoBlocks | utils/messagedigest.cc:47-61 | with 56 or more it ends in two, the length alone in the second |
| Sha1.HashTail | utils/messagedigest.cc:43-61 | both tail cases complete the hash of the padded message |
| Sha1.WriteDigest | utils/messagedigest.cc:63-67 | the twenty bytes are the five words, most significant byte first |
| Sha1.Digest | utils/messagedigest.cc:31-69 | for every message the result is the SHA-1 of the padded original message, with a zero byte behind it, and the message buffer holds the overwritten blocks |
| Sha1Spec.HashBlocksConcat | utils/messagedigest.cc:37-53 | hashing block by block composes, so the tail may be hashed separately |
| Sha1Spec.ConstantsAreRoots | utils/messagedigest.cc:21-25 | the round constants are 2^30 times the square roots of 2, 3, 5 and 10, rounded down, for the four quarters |
| Sha1Spec.FunctionsByQuarter | utils/messagedigest.cc:21-25 | which function each quarter of the rounds uses |
| Sha1Spec.ChoiceBits | utils/messagedigest.cc:21-22 | where the first word has a bit the choice is the second, elsewhere the third |
| Sha1Spec.ParityBits | utils/messagedigest.cc:23-25 | the parity with two of its words gives the third |
| Sha1Spec.MajorityBits | utils/messagedigest.cc:24-24 | where two words agree the majority is theirs, elsewhere the third |
| Sha1Spec.PlusAdds | utils/messagedigest.cc:168-172 | the sums into the state are sums modulo 2^32 |
| Sha1Spec.InitialBytes | utils/messagedigest.cc:176-182 | the initial words, byte by byte |
| Sha1Spec.RotateOnce | utils/messagedigest.cc:5-5 | a circular shift by one moves every bit up and the highest to the lowest place |
| Sha1Spec.RotateFiveTimes | utils/messagedigest.cc:5-5 | the shift by five is five such shifts |
| Sha1Spec.RotateThirtyTimes | utils/messagedigest.cc:5-5 | the shift by thirty and two more come full circle |
| Sha1Spec.WordBytesRead | utils/messagedigest.cc:63-67 | the bytes of a word read back, the most significant first |
| Sha1Spec.BitsAreEight | utils/messagedigest.cc:45-45 | below 2^61 bytes the length written is eight times the number of bytes |
| Base64.EncoderStep | utils/base64.cc:65-81 | one more byte keeps the relation between `where`, `last`, the bytes seen and the text written |
| Base64.EncoderFinish | utils/base64.cc:83-91 | the closing symbols complete the standard's last group |
| Base64.EncodedConcat | utils/base64.cc:61-98 | whole three-byte groups encode independently of what follows |
| Base64.EncodeLoop | utils/base64.cc:62-81 | the loop leaves the invariant true of all input bytes |
| Base64.Encode | utils/base64.cc:61-98 | the output is the three-byte-group definition of RFC 4648 section 4, of length 4*ceil(n/3), NUL-terminated |
| Base64.DecoderStep | utils/base64.cc:114-132 | one more symbol keeps the relation between `where`, `last` and the bytes written |
| Base64.BytesConcat | utils/base64.cc:101-137 | four-symbol groups decode independently of what follows |
| Base64.DecodeLoop | utils/base64.cc:105-133 | it fails exactly on a symbol outside the alphabet before the padding, else has written the symbols' bytes |
| Base64.Decode | utils/base64.cc:101-137 | errors exactly on a length not divisible by four or a foreign symbol; else the bytes and their number |
| Base64.GroupRoundTrip | utils/base64.cc:61-137 | a group's symbols, whole or cut at the padding, decode to its three, two or one bytes |
| Base64.DecodeEncoded | utils/base64.cc:61-137 | every encoded text has length 4*ceil(n/3) and reads as symbols whose bytes are the input |
| Base64.RoundTrip | utils/base64.cc:61-137 | decoding what was encoded succeeds with the original bytes and length, for every byte string |
| Base64.EncodeTable | utils/base64.cc:11-20 | the table is the 64 characters of the standard's alphabet, in order |
| Base64.DecodeTable | utils/base64.cc:26-59 | the other table is its inverse, with 255 exactly for all other characters |
| Base64.DecodeJudged | utils/base64.cc:101-118 | which texts have an illegal length, and which a foreign character before any padding |
| Base64.TestVectors | utils/base64.cc:61-98 | the first vectors of RFC 4648 section 10 |
| StrUtil.FindIsFirst | utils/strutil.cc:17-25 | the search result is the first occurrence, and none means there is none |
| StrUtil.StrNStr | utils/strutil.cc:5-26 | `strnstr` finds the first occurrence before the first NUL, or nothing |
| StrUtil.SplitLoop | utils/strutil.cc:28-48 | the index loop computes the non-empty pieces, the last one only if an earlier one was pushed |
| StrUtil.PiecesJoin | utils/strutil.cc:28-48 | the pieces always join back to the string |
| StrUtil.SeparatorAfter | utils/strutil.cc:36-43 | the first separator after a token that is free of it is the one that follows the token |
| StrUtil.PiecesOfJoin | utils/strutil.cc:28-48 | joined tokens free of the separator come apart into the same tokens |
| StrUtil.SplitOfJoin | utils/strutil.cc:28-48 | two or more clean tokens survive `split`; a single one yields nothing |
| StrUtil.SplitOfTokens | utils/strutil.cc:28-48 | empty tokens are skipped, and without a non-empty one before the last nothing is returned |
| StrUtil.SplitParts | utils/strutil.cc:28-48 | every token `split` returns is a non-empty part of the string and free of the separator |
| Numbers.ValueOfDecimal | http/httprequest.cc:33-35 | printing a number in decimal and reading it back is the identity |
| Numbers.DecimalWidth | http/httprequest.cc:33-34 | a number fits k digits exactly below ten to the k |
| Numbers.PrintedLength | http/httprequest.cc:33-35 | the eight-character length text is exact below 10^8 and reads as a smaller non-zero length from there on |
| Numbers.PrintedCode | http/firstline.cc:100-102 | the three-character status code is exact below 1000 and `stoi` reads it back |
| Numbers.NumberRead | http/headerfield.cc:79-79 | what `strtoul` and `stoi` make of spaces, a sign, digits and a rest, with wrap-around, saturation and failure |
| Numbers.ValueSteps | http/headerfield.cc:79-79 | in a number of decimal digits each is worth ten times the next |
| Numbers.NotANumber | http/firstline.cc:118-118 | text that is no number is 0 for the one and an exception for the other |
| Numbers.SpaceChars | http/headerfield.cc:79-79 | the characters that count as space, and those that count as digits |
| HttpMessage.InsertKeepsOrder | http/headerfield.cc:48-51 | inserting into the ordered map keeps its keys in strictly increasing order |
| HttpMessage.InsertUpdates | http/headerfield.cc:48-51 | inserting changes the map at exactly that key |
| HttpMessage.LessIsDictionary | http/headerfield.cc:48-51 | the order of the map: the first difference decides, and a prefix comes first |
| HttpMessage.GetIsLookup | http/headerfield.cc:132-140 | keys and values being C strings, the scan finds the map's value for a key, or reports that there is none, on entries without a NUL |
| HttpMessage.GetStopsAtNul | http/headerfield.cc:132-140 | a NUL ends keys and values for the scan |
| HttpMessage.ParseHeaders | http/headerfield.cc:99-112 | lines are inserted in order until one does not split in two |
| HttpMessage.ParsedHeadersNulFree | http/headerfield.cc:99-112 | text without a NUL yields only entries without a NUL |
| HttpParser.SearchStable | utils/strutil.cc:5-26 | a match found in a buffer is the match found in every longer buffer |
| HttpParser.AfterLineStable | http/httprequest.cc:64-84 | a first line once decided is decided the same in every longer buffer, for both parsers |
| HttpParser.AfterHeadersStable | http/httppacket.cc:63-85 | headers once decided are decided the same in every longer buffer |
| HttpParser.HeadersNulFree | http/httppacket.cc:63-85 | the parser looks fields up only among entries without a NUL, whatever the buffer holds |
| HttpParser.EndsAtBody | http/httppacket.cc:87-108 | a complete message ends at the end of its buffer, and its body is all that follows the headers |
| HttpParser.ErrorIsFinal | http/httppacket.cc:110-149 | a buffer in error stays in error however it is continued |
| HttpParser.EndIsExact | http/httppacket.cc:96-106 | a complete message followed by at least one byte in the same read is an error |
| HttpParser.Parser.ResolveFirstLine | http/httprequest.cc:64-84 | the step reaches the state the buffer's first line determines, and succeeds exactly at the headers |
| HttpParser.Parser.ResolveHeaders | http/httppacket.cc:63-85 | likewise for the header block, with the request parser's upgrade flag |
| HttpParser.Parser.ResolveBody | http/httprequest.cc:96-107 | likewise for the body: GET without one, others by Content-Length |
| HttpParser.ResumeReady | http/httppacket.cc:110-149 | the state one call leaves is one the next call may resume from, whatever arrives in between |
| HttpParser.Parser.DoParse | http/httppacket.cc:110-149 | a resumed parse terminates and leaves position, lengths, line, headers and body as one parse of the whole buffer would; a stopped parser is left alone; the return value in every case |
| HttpChunks.ReceiveAll | networkmodel/tcpconnection.cc:53-88 | a parser fed read by read arrives at the state the sequence of reads determines |
| HttpChunks.ChunkIndependence | http/httppacket.cc:63-149 | reads none of which stops the parser before the last lead to the state of a single read, in every field |
| HttpChunks.StateOfPrefix | http/httppacket.cc:63-149 | any reads arrive at the state of a single read of all of them, or of the first ones that stopped the parser |
| HttpChunks.VerdictOfReads | http/httppacket.cc:63-149 | for non-empty reads the verdict equals that of a single read if and only if no earlier read ends exactly on a complete message |
| HttpChunks.CompleteUnderAnyChunking | http/httppacket.cc:63-149 | what a single read finds complete is found complete, with all fields equal, under every chunking |
| HttpRoundTrip.HeadersToString | http/headerfield.cc:86-95 | the loop writes the ordered entries as lines and a blank line |
| HttpRoundTrip.InsertLoop | http/httprequest.cc:27-31 | the caller's entries are inserted one by one |
| HttpRoundTrip.PackRequest | http/httprequest.cc:13-40 | the bytes are the request line, the merged headers with the length, the body |
| HttpRoundTrip.PackResponse | http/httpresponse.cc:10-40 | likewise for a response, with a body or without one |
| HttpRoundTrip.BlankLineAfter | http/httppacket.cc:65-76 | the first blank line in packed headers is the one that ends them, whatever the body holds |
| HttpRoundTrip.InsertLinesRebuilds | http/headerfield.cc:99-112 | reading the lines of an ordered map rebuilds that map |
| HttpRoundTrip.HeadersReadBack | http/headerfield.cc:86-112 | a header block of two or more entries reads back; a single entry is lost |
| HttpRoundTrip.PackedHeadersRead | http/httppacket.cc:63-85 | first line and headers of a packed message are read back with exact lengths |
| HttpRoundTrip.BodyJudged | http/httppacket.cc:87-108 | the message is complete if and only if the declared length is positive and equals the body's |
| HttpRoundTrip.InsertAllMerges | http/httprequest.cc:24-31 | inserting a map keeps order and merges it over the earlier entries |
| HttpRoundTrip.RequestHeadersMerge | http/httprequest.cc:24-35 | the caller's headers override host and connection, the length overrides all |
| HttpRoundTrip.LengthInserted | http/httprequest.cc:33-35 | the closing insertion fixes the declared length and decides whether there are two headers |
| HttpRoundTrip.PackedRead | http/httppacket.cc:63-149 | a packed message is complete exactly for 1 to 99,999,999 body bytes and a header besides the length, and an error otherwise |
| HttpRoundTrip.NotComplete | http/httppacket.cc:63-149 | outside that range every chunking ends in an error, or early with a body shorter than the one packed |
| HttpRoundTrip.RequestRoundTrip | http/httprequest.cc:13-40 | under every chunking the parsed request ends at the last byte with the same method, URL, merged headers and body, for 1 to 99,999,999 body bytes; for every other body it ends in an error or too early, with less than the body |
| HttpRoundTrip.StatusLineReadsBackIff | http/firstline.cc:96-120 | whatever follows it, a status line reads back if and only if its code has at most three digits and its description is one word without line end or NUL |
| HttpRoundTrip.ResponseRoundTrip | http/httpresponse.cc:10-40 | under every chunking the parsed response comes back at the last byte with line, merged headers and body if and only if its status line is such a line, the body has 1 to 99,999,999 bytes and some header besides Content-Length was given; with a good status line it otherwise ends in an error or too early |
| HttpRoundTrip.BareResponseNeverEnds | http/httpresponse.cc:29-38 | a response packed without a body, whatever its status line, is never taken for complete under any chunking |
| HttpText.RequestTextJudged | http/httprequest.cc:64-107 | any request of three words, headers and body in one read: a GET is complete exactly without a body, any other exactly when the declared length is positive and the body's own, with line, headers, upgrade flag and body; what is an error and what is waited for |
| HttpText.GetRoundTrip | http/httprequest.cc:96-105 | GET requests with two or more headers are complete at the last byte under every chunking, with line and headers and an empty body |
| HttpText.GetWithoutHeaders | http/httppacket.cc:63-69 | a GET request without any header is waited on for ever |
| HttpText.OnlyGet | http/firstline.cc:11-18 | which words are which methods |
| HttpText.VersionTexts | http/firstline.cc:20-27 | which words are which versions |
| HttpText.RequestLineWords | http/firstline.cc:53-64 | a request line is read if and only if it has three words |
| HttpText.StatusTextJudged | http/firstline.cc:108-120 | a status line of three words is accepted, refused or thrown on by what `stoi` reads |
| HttpText.DigitCodeJudged | http/firstline.cc:118-119 | codes of digits are accepted up to 1000, refused up to 2^31 - 1 and thrown on beyond |
| HttpText.HeadersAnyOrder | http/headerfield.cc:99-112 | two or more header lines in any order, with keys repeated, are all read, and the later ones count |
| HttpText.BadHeaderLine | http/headerfield.cc:105-108 | a header line that is not one key and one value makes the message an error |
| HttpText.HeaderBlock | http/headerfield.cc:86-95 | the header block, line by line |
| HttpText.PackedRequestText | http/httprequest.cc:13-40 | the packed request written out, with the names of its fixed headers |
| HttpText.PackedResponseText | http/httpresponse.cc:10-40 | the packed response written out, with a body and without |
| MessageQueue.StepKeepsInvariant | utils/messagequeue.h:78-136 | every atomic step keeps: items at most the woken consumers while someone sleeps, pushed equals popped followed by the contents, nobody asleep after `Terminate` |
| MessageQueue.InvariantOverRuns | utils/messagequeue.h:78-244 | so does every interleaving of pushes, pops, spurious wake-ups and `Terminate` |
| MessageQueue.StepConserves | utils/messagequeue.h:78-136 | in every step what was there and goes in is what is handed out and left |
| MessageQueue.RunConserves | utils/messagequeue.h:78-136 | over every run all that was pushed is all that was handed out, each item once and in order, followed by what is left |
| MessageQueue.WaitersKept | utils/messagequeue.h:215-244 | no consumer is forgotten: it enters the wait only to find nothing and leaves it only by its own return |
| MessageQueue.NothingAfterTerminate | utils/messagequeue.h:215-244 | after `Terminate` no run pops an item or puts a consumer to sleep |
| MessageQueue.SleepersMeanEmpty | utils/messagequeue.h:228-244 | once every woken consumer has run, a sleeping consumer means an empty queue |
| MessageQueue.ThreadSafeDeque.PushBack | utils/messagequeue.h:78-90 | one push step: refused above the limit, else appended and at most one sleeper released |
| MessageQueue.ThreadSafeDeque.PopFrontTo | utils/messagequeue.h:121-136 | one pop step up to its return or its wait, for waiting and non-waiting callers; the result is the item the step hands out |
| MessageQueue.ThreadSafeDeque.GiveUp | utils/messagequeue.h:237-243 | a consumer whose time is up is handed an item if there is one and does not sleep again |
| MessageQueue.ThreadSafeDeque.WakeUp | utils/messagequeue.h:228-244 | a released consumer looks again: it pops, gives up or sleeps on |
| MessageQueue.ThreadSafeDeque.Terminate | utils/messagequeue.h:215-220 | the flag is set and every sleeper released |
| WorkerQueue.ActKeepsBound | webserver.cc:286-323 | the gap between backlog check and push keeps the bound, because only the net thread pushes |
| WorkerQueue.BacklogOverRuns | webserver.cc:84-135 | over every run the receive queue stays within `max_backlog`, and up to 10241 accepted packets are the popped ones followed by the waiting ones |
| WorkerQueue.WorkersGetAll | webserver.cc:84-135 | up to the limit the workers get every accepted packet that no longer waits, once and in order |
| WorkerQueue.ArrivedAreKnown | webserver.cc:286-323 | every packet that arrives is accepted, dropped, or about to be pushed |
| WorkerQueue.DroppedIff | webserver.cc:292-295 | a packet is dropped if and only if the backlog is full at its check |
| WorkerQueue.LosesNothingIff | webserver.cc:286-323 | no accepted packet is ever lost if and only if `max_backlog` is at most 10241 |
| ConnectionPool.AddedInvariant | networkmodel/serverbase.cc:218-248 | the uid handed out is not 0 and nobody's, and free uids stay exactly the empty slots |
| ConnectionPool.UidReuse | networkmodel/serverbase.cc:250-266 | a uid given back is the next one handed out, and the pool is as before |
| ConnectionPool.PoolSizes | networkmodel/serverbase.cc:185-199 | a new pool has 128 slots and hands out 1, 2 and so on; an exhausted one grows by 128 |
| ConnectionPool.SweptInvariant | networkmodel/serverbase.cc:268-280 | a sweep keeps the pool invariant and removes exactly the timed-out connections |
| ConnectionPool.SweptOrder | networkmodel/serverbase.cc:272-279 | a sweep puts the uids it frees in front, the highest first |
| ConnectionPool.CountIsLivePlusOne | networkmodel/serverbase.cc:213-216 | the reported count is the connections in use plus one |
| ConnectionPool.DoKeepsInvariant | networkmodel/serverbase.cc:218-291 | every operation keeps the pool invariant, and all but outgoing connections keep the limit |
| ConnectionPool.PoolOverRuns | networkmodel/serverbase.cc:189-291 | over every run the invariant holds, and runs that only accept, delete or sweep stay below `max_connections_` |
| ConnectionPool.ConnectionManager.CheckCapacity | networkmodel/serverbase.cc:282-291 | an exhausted pool grows by 128 empty slots, whose uids become free |
| ConnectionPool.ConnectionManager.AddConnection | networkmodel/serverbase.cc:218-248 | the connection sits at its own uid, every other slot is unchanged |
| ConnectionPool.ConnectionManager.DelConnection | networkmodel/serverbase.cc:250-266 | exactly that slot is emptied and its uid is first in line |
| ConnectionPool.ConnectionManager.ClearTimeout | networkmodel/serverbase.cc:268-280 | slot by slot, exactly the connections past their deadline are gone that are no long link and have nothing pending |
| ConnectionPool.ConnectionManager.CurrConnectionCnt | networkmodel/serverbase.cc:213-216 | capacity minus free places is live plus one |
| ConnectionPool.ConnectionManager.RegisterConnection | networkmodel/serverbase.cc:399-416 | dropped exactly when live plus one has reached the limit; otherwise the connection returned is the one in its slot, with its deadline |
| SendQueue.WriteConserves | socket/unixsocket.cc:156-191 | one write, whatever its result, keeps bytes sent followed by bytes unsent, and completions plus packets left |
| SendQueue.ConservationOverRuns | networkmodel/tcpconnection.cc:113-129 | so does every sequence of complete, partial, blocked and failed writes |
| SendQueue.AllSentWhenDrained | networkmodel/tcpconnection.cc:113-129 | every packet has completed if and only if the queue is empty, and then all bytes are on the wire in order |
| SendQueue.EmptyPacketBlocks | socket/unixsocket.cc:162-164 | a packet without bytes never completes, and nothing behind it is ever sent |
| SendQueue.DirectConserves | networkmodel/serverbase.cc:513-532 | what a direct send writes goes out before the packets that wait, the rest goes behind them, and nothing is lost |
| SendQueue.OrderKeptAt | networkmodel/serverbase.cc:513-532 | with one result of the write, the bytes keep their order if and only if what was written may change places with what waits |
| SendQueue.DirectKeepsOrderIff | networkmodel/serverbase.cc:513-532 | the bytes keep their order, whatever the write takes, if and only if nothing waits, the packet is empty, or both consist of one and the same byte |
| SendQueue.AutoBuffer.AddCapacity | utils/autobuffer.cc:52-66 | capacity grows by the least whole number of units, contents and position kept |
| SendQueue.AutoBuffer.Write | utils/autobuffer.cc:17-25 | the contents are the old ones followed by the new bytes |
| SendQueue.AutoBuffer.ShallowCopyFrom | utils/autobuffer.cc:80-85 | the bytes are borrowed, the position is left alone |
| SendQueue.AutoBuffer.KeepRest | reverseproxy/proxyserver.cc:183-191 | the switch to a deep copy keeps the unsent bytes and leaves the borrowed storage |
| SendQueue.Send | socket/unixsocket.cc:156-191 | with an open descriptor exactly the unsent bytes are offered, once; done is reported exactly when this call sent the packet's last byte; the position moves by what was written |
| SendQueue.Connection.SendFront | networkmodel/tcpconnection.cc:117-126 | the front packet is popped and completed exactly when it finishes |
| SendQueue.Connection.TrySendPendingPackets | networkmodel/tcpconnection.cc:113-129 | draining is a sequence of such writes that stops only at a packet that does not finish; no packet is lost, repeated or reordered |
| SendQueue.Connection.SendOrQueue | networkmodel/serverbase.cc:513-532 | one attempt, whatever waits already, then the packet goes to the end of the queue with the rest of its bytes |
| SendQueue.Connection.Relay | reverseproxy/proxyserver.cc:173-192 | the relayed response is such a send of the upstream bytes, across the switch from borrowed to copied bytes, after which the packet no longer depends on the upstream buffer |
| ProxyRelay.EntryIsOwn | reverseproxy/proxyserver.cc:158-173 | the entry a response finds leads to the context made for the request forwarded on that connection |
| ProxyRelay.RelayCommutes | reverseproxy/proxyserver.cc:180-192 | sending the response and deleting the upstream connection commute |
| ProxyRelay.NextKeeps | reverseproxy/proxyserver.cc:109-193 | every accept, forward, failed forward, response, drained packet and deletion keeps the relay invariant |
| ProxyRelay.InvariantOverRuns | reverseproxy/proxyserver.cc:109-193 | so does every run |
| ProxyRelay.RelaySafety | reverseproxy/proxyserver.cc:109-193 | over every run a response is placed only in the context of its own request, written only to that request's client, at most once per upstream connection and per context |
| ProxyRelay.ResponseReachesOnlyItsClient | reverseproxy/proxyserver.cc:154-193 | a response is written if and only if its client is still connected; if the client was deleted nothing is written, even when its uid names another connection |
| ProxyRelay.ValidWhileConnected | networkmodel/tcpconnection.cc:277-287 | a forward's context may still be sent if and only if its client is connected |
| ProxyRelay.ResponseIsPlaced | reverseproxy/proxyserver.cc:173-192 | after every run a response is in its client's context, which is finished with or still to be drained as the write went, and the upstream connection is gone |
| ProxyRelay.RequestIsSent | reverseproxy/proxyserver.cc:142-151 | what a forward leaves: the connection, its entry, the client's context waiting, the request sent or still to be drained |
| ProxyRelay.FailureIsAnswered | reverseproxy/proxyserver.cc:124-128 | a forward that fails is answered in a context of the client |
| ProxyRelay.DrainedIsDone | networkmodel/tcpconnection.cc:116-125 | a packet drained is finished with, and no other connection changes |
| ProxyRelay.EntryLostIff | reverseproxy/proxyserver.cc:160-181 | after every run, an upstream connection that outlives an event keeps its entry if and only if the event is not a response whose recorded client uid is its own uid; that client is then gone |
| ProxyRelay.EntryCanBeLost | reverseproxy/proxyserver.cc:160-181 | a run, with the uids the pool hands out, in which a live upstream connection loses its entry that way |
| ProxyRelay.NextIsFree | networkmodel/serverbase.cc:224-229 | the uid the pool hands out is free among the connections |
| ProxyRelay.StepAgrees | networkmodel/serverbase.cc:218-266 | every event keeps the pool of uids and the connections in agreement |
| ProxyRelay.PooledAreRuns | networkmodel/serverbase.cc:218-266 | the runs with the pool's uids are among those all the theorems on runs are about |
| ProxyRelay.NetThread.AddConnection | networkmodel/serverbase.cc:218-248 | a new connection takes the slot of the uid that is first in line |
| ProxyRelay.NetThread.DelConnection | networkmodel/tcpconnection.cc:277-287 | the slot is freed, its uid is first in line, and every listed context is marked not to send any more |
| ProxyRelay.NetThread.MakeSendContext | networkmodel/tcpconnection.cc:254-265 | a new context, valid, listed by its connection |
| ProxyRelay.NetThread.HandleHttpRequest | reverseproxy/proxyserver.cc:142-151 | the step of a forward, the request going out in a context of the upstream connection, keeping the invariant |
| ProxyRelay.NetThread.TrySendOrQueue | networkmodel/serverbase.cc:513-532 | a context whose connection is gone counts as sent and writes nothing |
| ProxyRelay.NetThread.HandleHttpResponse | reverseproxy/proxyserver.cc:154-193 | the step of a response, found by upstream uid and erased by client uid, keeping the invariant |
| LoadBalancer.NextUnique | reverseproxy/loadbalancer.cc:72-80 | the next available server in cyclic order is unique and is the one computed |
| LoadBalancer.NextRank | reverseproxy/loadbalancer.cc:72-80 | polling moves to the next available rank, from the last one back to the first |
| LoadBalancer.SelectedRank | reverseproxy/loadbalancer.cc:72-80 | the t-th selection has rank (start + t) modulo the number available |
| LoadBalancer.TimesByFloors | reverseproxy/loadbalancer.cc:72-80 | how often a server is chosen in any window, in closed form |
| LoadBalancer.PollIsFair | reverseproxy/loadbalancer.cc:20-37 | in any m consecutive selections among m available servers each is chosen exactly once; in any window two counts differ by at most one |
| LoadBalancer.WebServerProfile.CheckAvailable | reverseproxy/loadbalancer.cc:126-141 | the answer, and the down mark cleared exactly on a yes |
| LoadBalancer.WebServerProfile.ReportDown | reverseproxy/loadbalancer.cc:39-43 | marked down as of now |
| LoadBalancer.WebServerProfile.OnHeartbeat | reverseproxy/loadbalancer.cc:45-52 | no longer marked down |
| LoadBalancer.DownServerTriedIff | reverseproxy/loadbalancer.cc:133-140 | a down server with weight is tried if and only if the period since its report has not passed; so right after the report, and not after the period |
| LoadBalancer.RulesAgreeIff | reverseproxy/loadbalancer.cc:133-140 | this rule agrees with trying again after the period if and only if the server has no weight, is not down, or was reported exactly one period ago |
| LoadBalancer.LostThroughTurns | reverseproxy/loadbalancer.cc:72-80 | a server that is not tried at some time is not tried or changed by any number of turns alone at later times |
| LoadBalancer.ComesBackIff | reverseproxy/loadbalancer.cc:39-52 | over every run of later turns, reports, heartbeats and registrations, a server with weight that is not tried comes back if and only if a report or a heartbeat of its own arrives |
| LoadBalancer.NeverReturns | reverseproxy/loadbalancer.cc:72-80 | with nobody available, no number of turns at any later clock readings ends the poll loop |
| LoadBalancer.ReturnsIff | reverseproxy/loadbalancer.cc:72-80 | if the clock stands still the loop returns, and then within one round, if and only if somebody is available |
| LoadBalancer.AlwaysReturnsIff | reverseproxy/loadbalancer.cc:72-80 | the loop returns within one round for every clock from now on if and only if some server has weight and is not marked down |
| LoadBalancer.Balancer.RegisterWebServer | reverseproxy/loadbalancer.cc:54-61 | appended, and polling starts over |
| LoadBalancer.Balancer.TryNext | reverseproxy/loadbalancer.cc:73-78 | one turn of the loop is one turn of the model, and leaves availability unchanged |
| LoadBalancer.Balancer.PollWhile | reverseproxy/loadbalancer.cc:72-80 | the loop with a clock that moves between turns, up to its return |
| LoadBalancer.Balancer.BalanceByPoll | reverseproxy/loadbalancer.cc:72-80 | with a server available the loop looks at no more than n of the n servers and stops at the next available one in cyclic order |
| LoadBalancer.Balancer.Select | reverseproxy/loadbalancer.cc:20-37 | null exactly without servers, else the next available one |
| LoadBalancer.Balancer.SelectAll | reverseproxy/loadbalancer.cc:20-37 | t calls choose the first t servers of the fair order, as long as the same servers are available |
| Yaml.LineKeepsDepth | utils/yamlutil.cc:70-125 | after every line the tree has a rightmost path down to the depth being filled |
| Yaml.LastPathLeads | utils/yamlutil.cc:88-98 | through the pointer to the end of the rightmost path one reads and writes exactly the node at that depth |
| Yaml.LastPathPrefix | utils/yamlutil.cc:99-100 | the rightmost path to a lesser depth leads to an ancestor |
| Yaml.TakeLine | utils/yamlutil.cc:70-125 | one turn of the loop on its own variables: the parent pointer is the end of the rightmost path at the height of the stack, the stack holds the pointers to its ancestors, and the tree is the one the line determines |
| Yaml.SetReads | utils/yamlutil.cc:88-89 | what is put at the parent is what is read there |
| Yaml.SetTwice | utils/yamlutil.cc:88-98 | a later value at the parent replaces the earlier one and changes nothing else |
| Yaml.StepDown | utils/yamlutil.cc:98-100 | the new parent is the last node of the old one's value |
| Yaml.PopParents | utils/yamlutil.cc:130-145 | two spaces less pop one pointer, and the last one popped is the parent; an odd difference or an empty stack is an error |
| Yaml.GetLine | utils/yamlutil.cc:70-70 | `getline` takes the text apart into its lines, the last of which may lack a line end |
| Yaml.FileLinesIff | utils/yamlutil.cc:70-70 | lines written to a file are read back if and only if none of them holds a line end |
| Yaml.LastLineUnended | utils/yamlutil.cc:70-70 | a last line without a line end is a line like any other |
| Yaml.ParseYaml | utils/yamlutil.cc:55-127 | the loop over the text of a file computes the tree, or stops where the source asserts |
| YamlRoundTrip.LeafRead | utils/yamlutil.cc:79-89 | a printed leaf line is read as that key, value and indentation |
| YamlRoundTrip.OpenRead | utils/yamlutil.cc:91-100 | a printed key line is read as that node opened |
| YamlRoundTrip.DashRead | utils/yamlutil.cc:115-118 | a dash line is read as the start of a record |
| YamlRoundTrip.NoColonNoToken | utils/yamlutil.cc:107-113 | a line without a colon yields no token, so the branch for bare values is never taken |
| YamlRoundTrip.BareLineFails | utils/yamlutil.cc:107-123 | such a line is refused unless it is a dash |
| YamlRoundTrip.LineEndInValueFails | utils/yamlutil.cc:70-123 | a value with a line end in it makes the printed file unreadable, so values must be free of it |
| YamlRoundTrip.NestedMustStartWithLeaf | utils/yamlutil.cc:98-98 | a key line right below a key line fails, so the restriction of the round trip is needed |
| YamlRoundTrip.RecordRead | utils/yamlutil.cc:271-282 | the leaves of a record are appended to the array's open record |
| YamlRoundTrip.ArrayRead | utils/yamlutil.cc:289-298 | records of equal length are read into the array in order |
| YamlRoundTrip.FieldsRead | utils/yamlutil.cc:55-145 | printed fields, at any depth and after any earlier fields, are read into their object and leave the stack settled |
| YamlRoundTrip.ParsePrinted | utils/yamlutil.cc:55-145 | parsing the text of the printed file of any printable document rebuilds its tree |
| YamlFiles.ParseRemarked | utils/yamlutil.cc:70-72 | empty lines and comment lines anywhere, comments behind any line, and spaces behind leaves and dashes leave the tree of the round trip as it is |
| YamlFiles.LineBeforeComment | utils/strutil.cc:67-73 | what a line says is what is before its comment |
| YamlFiles.SpaceBehindKey | utils/yamlutil.cc:79-89 | spaces behind a key that should open a node make it an empty leaf instead |
| YamlFiles.SpacesAloneFail | utils/yamlutil.cc:120-123 | a line of spaces, or an indented comment, is refused |
| YamlFiles.WrongIndentFails | utils/yamlutil.cc:102-105 | a key that is not two deeper, or not back by whole levels that exist, is refused |
| YamlFiles.DashInObjectFails | utils/yamlutil.cc:115-118 | a dash in an object is refused |
| YamlFiles.ArrayReadIff | utils/yamlutil.cc:289-298 | records are read if and only if all but the last have the length of the first |
| WebSocket.XorInvolution | longlink/websocketpacket.cc:382-382 | masking twice with one key byte is the identity |
| WebSocket.XorIsExclusive | longlink/websocketpacket.cc:382-382 | bit by bit, a masked byte is the exclusive or of the byte and the key |
| WebSocket.MaskedWire | longlink/websocketpacket.cc:382-382 | so is every payload byte of a masked frame on the wire |
| WebSocket.HelloFrames | longlink/websocketpacket.cc:289-317 | the frame layout on the examples of RFC 6455 section 5.7 |
| WebSocket.LongHeaders | longlink/websocketpacket.cc:319-351 | the two extended length forms, written out |
| WebSocket.Pack | longlink/websocketpacket.cc:10-32 | the bytes of an unmasked text frame, its extended length least significant byte first |
| WebSocket.PackIsStandard | longlink/websocketpacket.cc:10-32 | they are the frame of RFC 6455 section 5.2 if and only if the content is below 126 bytes or the octets of its length read the same both ways |
| WebSocket.Parser.ResolvePayloadLen | longlink/websocketpacket.cc:296-317 | the step reads mask and seven-bit length, or waits |
| WebSocket.Parser.ResolveExtendedLen | longlink/websocketpacket.cc:319-351 | the step moves past the extended length, or waits |
| WebSocket.Parser.ResolveMaskingKey | longlink/websocketpacket.cc:353-367 | the step reads the key, or waits |
| WebSocket.Parser.ResolvePayload | longlink/websocketpacket.cc:369-394 | the unread bytes are appended, unmasked from key byte 0, and judged by the seven-bit length |
| WebSocket.Parser.DoParse | longlink/websocketpacket.cc:231-277 | resuming on any longer buffer gives the state that buffer determines; -1 exactly on a new error |
| WebSocket.ReadyAfter | longlink/websocketpacket.cc:231-277 | the state one call leaves is one the next call may resume from |
| WebSocketReads.ReadsState | longlink/websocketpacket.cc:231-394 | under any reads up to the end the parser sees, every field of its state is known |
| WebSocketReads.ReadsPastEnd | longlink/websocketpacket.cc:387-393 | reads past that end, in a stream that may go on after the frame, leave the parse ended there if one of them stopped there, and in error otherwise |
| WebSocketReads.CompleteIff | longlink/websocketpacket.cc:231-394 | a standard frame is read to its last byte, under any chunking, if and only if its payload has 1 to 126 bytes |
| WebSocketReads.UnmaskedRoundTrip | longlink/websocketpacket.cc:231-394 | unmasked frames of that size parse to their payload under every chunking |
| WebSocketReads.PackedRoundTrip | longlink/websocketpacket.cc:10-32 | so does everything `Pack` writes from 1 to 125 bytes |
| WebSocketReads.MaskedRoundTrip | longlink/websocketpacket.cc:380-393 | masked frames always end at their last byte, and the payload is the original if and only if the key agrees with the cuts |
| WebSocketReads.CutsDecide | longlink/websocketpacket.cc:380-384 | cuts on multiples of four suffice for every key, and are necessary when the key's bytes are distinct |
| LongLink.FrameRead | networkmodel/tcpconnection.cc:230-252 | one frame, in any reads, takes the connection from idle to idle with one message more |
| LongLink.RunOver | longlink/websocketpacket.cc:387-393 | a read that runs over the end of a frame closes the connection with nothing of that frame delivered |
| LongLink.ConversationDelivered | networkmodel/serverbase.cc:477-498 | for any non-empty reads of any readable frames: idle with one message per frame if and only if every frame ends where a read does, closed otherwise; the messages are those sent if and only if every masked frame was cut as its key allows |
| LongLink.Connection.MakeRecvContext | networkmodel/tcpconnection.cc:230-252 | the current packet is handed over and the parser starts on a new, hand-shaken one |
| LongLink.Connection.OnRead | networkmodel/serverbase.cc:459-500 | a read keeps the ownership invariant, writes to no packet already handed over, and hands over at most the current one |
| LongLink.Connection.HandleWebSocket | netscene/netscenedispatcher.cc:205-228 | a worker's handshake touches neither the parser nor any message; a packet that was not hand-shaken is answered by 101 with the reply headers, or by 404 without any if there is no key |
| LongLink.AnswerText | netscene/netscenedispatcher.cc:217-226 | both answers, written out |
| HandShake.DoHandShake | longlink/websocketpacket.cc:90-117 | the reply headers are those of the accept value, or none without a key; what is left in the key string |
| HandShake.AcceptDecodes | longlink/websocketpacket.cc:102-109 | for every key the accept value has 28 characters and decodes to the SHA-1 of key and GUID |
| HandShake.ReplyMap | longlink/websocketpacket.cc:108-113 | the reply is exactly accept value, connection and upgrade |
| HandShake.ReplyEntries | longlink/websocketpacket.cc:108-113 | the entries in the order they are printed |
| HandShake.OctetsKept | longlink/websocketpacket.cc:99-103 | the bytes hashed are the characters of key and GUID |
| HandShake.ShortKeyKept | longlink/websocketpacket.cc:99-115 | a key of less than 28 characters survives the digest; a longer one is overwritten block by block |
| LongLink.Run | networkmodel/serverbase.cc:459-500 | over every run of reads and workers the parser's packet is hand-shaken and held by no worker, only the first packet handed over was not hand-shaken, and the messages are determined by the reads alone |
| Coroutine.SaveFits | utils/coroutine/coroutine.cc:55-69 | the buffer holds every word the copy loop moves, stays a multiple of 1024 bytes and at most 102400, and grows by no more than it has to |
| Coroutine.SaveKeeps | utils/coroutine/coroutine.cc:96-105 | after a yield the buffer holds the words from the stack pointer to the frame start |
| Coroutine.RestoredFrames | utils/coroutine/coroutine.cc:107-112 | restoring brings those words back to their place and moves no other |
| Coroutine.InvariantOverRuns | utils/coroutine/coroutine.cc:87-119 | over every run of yields, additions and arbitrary stack writes all buffers are sound and hold the frames of their coroutine's last yield |
| Coroutine.PrivateStack | utils/coroutine/coroutine.cc:87-119 | when a coroutine takes over again, the words from its saved stack pointer to its frame start are those of its last yield, and the rest of the stack is untouched |
| Coroutine.FirstStart | utils/coroutine/coroutine_util.S:64-85 | over every run, when a coroutine runs for the first time the word at its frame start is its entry, the word above it the return address, and the rest of the stack is as it was |
| Coroutine.EntryKept | utils/coroutine/coroutine.cc:75-85 | a coroutine keeps the entry it was made with |
| Coroutine.RoundRobin | utils/coroutine/coroutine.cc:144-167 | after the start and k yields coroutine 1 + (k mod m) runs |
| Coroutine.NeverMainNorSelf | utils/coroutine/coroutine.cc:160-167 | the main coroutine is never chosen, and no coroutine yields to itself if and only if there are at least two |
| Coroutine.RoundRobinRun | utils/coroutine/coroutine.cc:144-167 | in every dispatched run of the machine, with whatever stack writes, the start and k yields bring coroutine 1 + (k mod m) to run |
| Coroutine.DispatchedSafely | utils/coroutine/coroutine.cc:144-167 | with coroutines added at any time, the main one is never back once started, and the next yield is no self-yield if and only if there are at least two |
| CoroutineDispatcher.SaveStackFrames | utils/coroutine/coroutine_util.S:120-137 | the loop copies exactly the words of the length, rounded up, at least one, and leaves the rest of the buffer |
| CoroutineDispatcher.RestoreStackFrames | utils/coroutine/coroutine_util.S:140-156 | the loop writes them back and leaves the rest of the stack |
| CoroutineDispatcher.Profile.CheckStackFramesBufCapacity | utils/coroutine/coroutine.cc:55-69 | the buffer grows to the next multiple of 1024, its contents kept |
| CoroutineDispatcher.Profile.CoYieldTo | utils/coroutine/coroutine.cc:87-119 | both contexts and the stack change as the machine's step says |
| CoroutineDispatcher.Dispatcher.AddCoroutine | utils/coroutine/coroutine.cc:152-154 | appended behind the others |
| CoroutineDispatcher.Dispatcher.CoStart | utils/coroutine/coroutine.cc:144-150 | the main coroutine gives way to the first one added, if any |
| CoroutineDispatcher.Dispatcher.CoYieldCurr | utils/coroutine/coroutine.cc:160-167 | one step of the machine to the following coroutine; no other context changes |
| CoroutineDispatcher.Run | utils/coroutine/coroutine.cc:139-167 | over every dispatched run the objects go through the states of the machine |

## Left out

- Sha1.EightyRounds: the eighty macro lines are sixteen turns of a loop over five lines; the text of each line is not repeated.
- Sha1.Digest: message and result are separate arrays, and the length field is the bit length modulo 2^64, which is the standard's below 2^61 bytes.
- Base64.Decode: requires symbols below 128, because the source indexes a 128-entry table with them.
- HttpParser.Parser.DoParse: buffers of 2^31 bytes and more, where the source's `int` offsets wrap, are not modelled; `std::stoi` failing is the state `Aborted`.
- MessageQueue.ThreadSafeDeque.PushBack: pushes that do not notify are not modelled, nor are `push_front`, `pop_back`, `front`, `back`, `get` and `clear`, which would repeat the same steps.
- WorkerQueue.BacklogOverRuns: packets are opaque; the closing of connections on a full queue or a close frame is only the drop.
- ConnectionPool.ConnectionManager.CheckCapacity: the vector is taken to have capacity equal to its size, as the source does, and each pool method to be atomic although `AddConnection` takes the lock twice.
- ProxyRelay.NetThread.HandleHttpRequest: heartbeats, which only delete the connection, and the retries until a web server can be connected to are left out.
- ProxyRelay.NetThread.HandleHttpResponse: requires an entry for the response, without which the source's assertion fails; when one is missing is the subject of `EntryLostIff`. Sequence numbers of contexts are identities that do not wrap.
- LoadBalancer.Balancer.BalanceByPoll: requires an available server and reads the clock once; `PollWhile` reads it at every turn, and `AlwaysReturnsIff` says when that returns.
- LoadBalancer.Balancer.PollWhile: requires that no server is registered twice; availability and the order of selection are stated without that.
- LoadBalancer.WebServerProfile.OnHeartbeat: backlog and overload, which only the weighted rule looks at, are left out.
- LoadBalancer.Balancer.Select: the poll rule only.
- Weighted and IP-hash balancing: one relocks a mutex it holds and depends on `random()`, the other is a single modulo.
- Yaml.ParseYaml: nodes are reached by their paths from the root, not by addresses; accessors and conversions are single reads.
- WebSocket.Parser.ResolveExtendedLen: the value of the extended length is not kept, because nothing reads it, and the FIN, RSV and opcode bits are left in the first byte.
- LongLink.Connection.OnRead: what the net thread does with a completed message, queueing it or closing the connection, is the subject of the worker queue.
- CoroutineDispatcher.Profile.CoYieldTo: registers, the switch itself and the part of the stack the copy loops run on are below the model; the stack pointer is aligned to words; fresh buffer memory reads as zero.
- Route dispatch, status texts, getters and setters: a single reading settles them.
- The receive loop's handling of EAGAIN, epoll, sockets, accept and connect: system calls, present only as arbitrary reads and write results.
- MySQL access, protobuf scenes, logging, opening files, time, daemon and signals: foreign calls.
