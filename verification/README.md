# Verified model of the Tuya Open Arduino core

This project models the self-contained logic of an Arduino core for Tuya's WiFi
chips and proves what that logic promises. Everything outside it (the socket
layer, the flash file system, the scan, the clock, the push button) is an
environment that may do anything its interface allows: a receive may fail with any
negative result, cut a datagram short or return any count, a send may report an
error, memory for the receive buffer may be missing.

| File | What it models |
|---|---|
| `Bytes.dfy` | bytes, block copies |
| `Cbuf.dfy` | the circular buffer `cbuf`, against a bounded first-in first-out queue |
| `WiFiUdp.dfy` | the network, how writes are cut into datagrams, how received datagrams are framed, the class `WiFiUDP` |
| `DnsMessage.dfy` | domain names, and a message parser written from section 4.1 of RFC 1035 |
| `DnsServer.dfy` | what the DNS server answers, and the class `DNSServer` on top of `WiFiUDP` and `cbuf` |
| `WiFiClient.dfy` | the TCP receive buffer, the sending loop, the class `WiFiClient` |
| `Button.dfy` | the debounced button with click and long press |
| `EventRegistry.dfy` | the WiFi event handler list and its removal loops |
| `WiFiMulti.dfy` | the choice of an access point |
| `FlashImage.dfy` | the two flash image builders |
| `LittleFS.dfy` | recursive directory creation |
| `HttpUrl.dfy` | the URL splitter |

Code that changes state is a class or a method with loops here as well, proved
against functions on values; the theorems about whole runs, round trips and exact
conditions are lemmas about those functions. For every protocol a method then makes
any list of calls on the class itself and is proved to be such a run
(`CircularBuffer.Perform`, `Udp.SendSession`, `Udp.ReceiveAll`, `Dns.DNSServer.Loop`,
`RxBuffer.PerformAll`, `Button.ButtonCheck.Loop`, `EventRegistry.PerformAll`).
`dafny verify dfyconfig.toml` checks the project.

Conventions. Pointers into a block are indices. `size_t` has 32 bits in `cbuf`,
the button clock is taken modulo 2^32, the port of a URL modulo 2^16 and the
number of scan results modulo 2^8. A plain `char` is unsigned, as on all the
supported chips. DNS header bits are placed as a little-endian C compiler places
them in `DNSServer.h`, which is also their place in RFC 1035. A null pointer is
`None`, 0 or a nullable reference. What the environment answers is recorded by the
calls that stand for it and by nothing else (`Net.incoming`, `Net.receives` and
`Net.results` by the socket calls, `Net.outgoing` by the send call,
`WiFiClientRxBuffer.received` and `answers` by recv, the question before it and the
allocator, `WiFiClient.passes` and `wire` by select and send), and the contracts speak
about those histories, so a method cannot meet its contract by not asking, or by
losing what it was given. What a main operation does is stated twice: by a function
on values, for the theorems about runs, and in full on the bytes, indices and
recorded results themselves (lemmas named `...Is`, `...Are`, `...Means`, and the
contracts of the methods). Every lemma switches Dafny's automatic induction off, so
each proof by induction is written out.

Where the code differs from what one would expect, the code is kept, and a
condition is proved:

* `cbuf::resize` loses its invariant for exactly one class of arguments, because
  the guard compares after the increment (`Cbuf.Resize`; an example is
  `CircularBuffer.ResizeBelowSpareCell`).
* `beginPacket` gives up before it empties the transmit buffer when the remote
  port is 0, and `endPacket` never empties it, so a DNS query sent from port 0 is
  answered behind the bytes of the previous reply. A run of polls sends one answer
  per query exactly when no such query finds bytes in the buffer
  (`DnsReply.RunAnswersEachQueryOnceIff`; an example is `DnsReply.PortZeroGlues`).
* A server started with `"*"` gives the configured address exactly to the standard
  queries whose header announces one question and no other records
  (`DnsReply.StarAnswersIff`), although the comment at
  libraries/DNSServer/examples/CaptivePortal/CaptivePortal.ino:18-19 promises it for
  every request. A query with an EDNS record gets the error reply
  (`DnsReply.StarMissesEdns`).
* The DNS error reply clears the question count only, so it is a well-formed
  message exactly when the query announced no other records
  (`DnsReply.CodeReplyParsesIff`).
* "www." is removed everywhere in a name and not only in front
  (`DnsNames.NormaliseIsPrefixRemovalIff`, `DnsNames.NormaliseNotIdempotent`).
* Removing event handlers inside an index loop skips the neighbour of each
  removed entry (`RemovalSpec.AllRemovedIff`, `RemovalSpec.RunLeavesHalf`).
* The counter for handler ids has 32 bits: registration number 2^32 is given the id
  0, the sign of a refused one (`RemovalSpec.CounterWraps`).
* The bit for "connected" is set when an address was obtained and not cleared when
  the connection is lost (`EventRegistry.WiFiGeneric.EventCallback`).
* A joinable network whose signal strength is the smallest 32-bit integer is
  never chosen (`Selection.ChosenIff`).
* `createDirRecursive` reports "exists" instead of success for a doubled or
  trailing slash behind a name whose parent directory was missing
  (`LittleFs.CreateDirRecursive`; an example is `Paths.TrailingSlashGap`).
* A URL without a port leaves the port of an earlier call in place
  (`Http.HTTPClient.BeginInternal`), and a second `@` in the userinfo spoils the
  host unless it spells out the same host and port (`Url.FieldsBackIff`,
  `Url.SecondAtBreaks`).

## Model

| member | source | states |
|---|---|---|
| Fifo.RunConserves | cores/tuya_open/cbuf.cpp:33-196 | over any run of writes, reads, removals, flushes and resizes whose incremented size differs from the number of queued bytes, what left the queue followed by what is in it is what was in it followed by what was accepted, and the capacity of the moment is never exceeded |
| Fifo.ReadsCompose | cores/tuya_open/cbuf.cpp:119-145 | reading m and then n bytes is reading m + n bytes, so single and bulk reads mix freely |
| CircularBuffer.RingAdvance | cores/tuya_open/cbuf.cpp:135-143 | moving the read cursor past n bytes, across the wrap or not, drops exactly the first n bytes |
| CircularBuffer.RingAppend | cores/tuya_open/cbuf.cpp:160-171 | copying a block in behind the write cursor, in one piece or two, appends exactly that block |
| CircularBuffer.Cbuf.constructor | cores/tuya_open/cbuf.cpp:23-26 | an empty queue with room for exactly the requested number of bytes; only for 2^32 - 1 the size wraps and the invariant does not hold |
| CircularBuffer.Cbuf.Available | cores/tuya_open/cbuf.cpp:72-78 | the length of the queue in every state, also after a bad resize |
| CircularBuffer.Cbuf.Observers | cores/tuya_open/cbuf.h:41-49 | in every valid state available plus room is size minus one, full means no room, empty means no byte |
| CircularBuffer.Cbuf.Peek | cores/tuya_open/cbuf.cpp:93-100 | the front byte or -1, without changing the buffer |
| CircularBuffer.Cbuf.PeekBulk | cores/tuya_open/cbuf.cpp:102-117 | copies out what a bulk read would give and changes nothing but the destination |
| CircularBuffer.Cbuf.Read | cores/tuya_open/cbuf.cpp:119-128 | gives and removes the front byte, or -1 exactly on an empty queue |
| CircularBuffer.Cbuf.ReadBulk | cores/tuya_open/cbuf.cpp:130-145 | gives and removes the front min(size, available) bytes and touches no other byte of the destination |
| CircularBuffer.Cbuf.Write | cores/tuya_open/cbuf.cpp:147-156 | appends one byte, or nothing exactly when the queue is full |
| CircularBuffer.Cbuf.WriteBulk | cores/tuya_open/cbuf.cpp:158-173 | appends exactly the longest prefix that fits and returns its length |
| CircularBuffer.Cbuf.Flush | cores/tuya_open/cbuf.cpp:175-179 | empties the queue and restores the invariant |
| CircularBuffer.Cbuf.Remove | cores/tuya_open/cbuf.cpp:181-196 | drops the front min(size, available) bytes and returns what is left |
| CircularBuffer.Cbuf.Resize | cores/tuya_open/cbuf.cpp:38-70 | never loses a byte; the invariant survives if and only if the incremented size differs from the number of queued bytes; otherwise the room reads 2^32 - 1 |
| CircularBuffer.Cbuf.ResizeAdd | cores/tuya_open/cbuf.cpp:33-36 | keeps the queue and adds n + 1 to the capacity; a sum that wraps in 32 bits is treated like any new size |
| CircularBuffer.ResizeBelowSpareCell | cores/tuya_open/cbuf.cpp:38-70 | an example: two bytes in a buffer resized to one are kept, but the invariant is lost and the room reads 2^32 - 1 |
| CircularBuffer.Perform | cores/tuya_open/cbuf.cpp:23-196 | any list of calls on the class in which every resize is of that kind is a run of the queue: same contents, same capacity, same bytes read, nothing lost |
| Network.Net.RecvFrom | libraries/WiFi/src/WiFiUdp.cpp:214-221 | the receive call: any negative result, which takes nothing, or the next datagram cut to the buffer |
| Network.Net.SendTo | libraries/WiFi/src/WiFiUdp.cpp:180 | the send call: the datagram is handed over whole, whatever result is reported |
| Packetiser.WritesCompose | libraries/WiFi/src/WiFiUdp.cpp:188-202 | successive writes behave like one write of all the bytes |
| Packetiser.NothingLost | libraries/WiFi/src/WiFiUdp.cpp:188-202 | whatever the buffer held first, the datagrams sent and the buffer together are those bytes and the written ones, in order |
| Packetiser.EarlyOnesAreFull | libraries/WiFi/src/WiFiUdp.cpp:188-195 | a datagram goes out early only with 1460 bytes in it, and at most as many stay behind |
| Packetiser.SessionSendsChunks | libraries/WiFi/src/WiFiUdp.cpp:135-202 | a session from an empty buffer sends exactly the data cut into full datagrams and a remainder |
| Packetiser.ChunksAreExact | libraries/WiFi/src/WiFiUdp.cpp:188-193 | that cutting concatenates to the data, all early datagrams have 1460 bytes, and there are (n - 1) / 1460 of them |
| Packetiser.ChunkAt | libraries/WiFi/src/WiFiUdp.cpp:188-193 | datagram i carries the bytes from 1460 i on |
| Packetiser.Packetisation | libraries/WiFi/src/WiFiUdp.cpp:135-202 | the same for any spread of the bytes over any number of writes |
| Packetiser.SessionGoesOn | libraries/WiFi/src/WiFiUdp.cpp:188-202 | what one more write adds to an open session, in the buffer and on the network |
| Packetiser.SentChunks | libraries/WiFi/src/WiFiUdp.cpp:135-202 | a session that ended, on an empty base, has sent the data in the intended cutting |
| Packetiser.SentAsMeant | libraries/WiFi/src/WiFiUdp.cpp:135-202 | the same datagram by datagram, with data, address and port |
| Framing.StepKeepsInv | libraries/WiFi/src/WiFiUdp.cpp:204-273 | every receive call keeps the framing: delivered bytes and queue make up one payload, earlier frames are complete or flushed |
| Framing.InvMeans | libraries/WiFi/src/WiFiUdp.cpp:204-273 | in full: of every frame all was delivered, or a proper prefix and the rest was flushed, and of the one being read what is missing is the queue |
| Framing.StepAccounts | libraries/WiFi/src/WiFiUdp.cpp:204-273 | a call adds what it gives to what was delivered, and adds a payload exactly when a datagram is accepted |
| Framing.RunFrames | libraries/WiFi/src/WiFiUdp.cpp:204-273 | over any run the frames are the payloads accepted, in order, and the bytes read are, frame by frame, one payload each or a prefix of it that ended in a flush; bytes of two datagrams never mix |
| Framing.NothingThrownAway | libraries/WiFi/src/WiFiUdp.cpp:204-273 | without a flush, what was delivered and what is queued are the payloads one after the other |
| Udp.WiFiUDP.Stop | libraries/WiFi/src/WiFiUdp.cpp:103-125 | drops both buffers and the socket |
| Udp.WiFiUDP.Begin | libraries/WiFi/src/WiFiUdp.cpp:48-79 | three socket calls, each made only if the one before succeeded; success if and only if none fails, with an open socket and an empty transmit buffer |
| Udp.WiFiUDP.BeginPacket | libraries/WiFi/src/WiFiUdp.cpp:135-161 | empties the transmit buffer, except for remote port 0, where nothing changes |
| Udp.WiFiUDP.BeginPacketTo | libraries/WiFi/src/WiFiUdp.cpp:163-167 | sets the address and starts a datagram |
| Udp.WiFiUDP.EndPacket | libraries/WiFi/src/WiFiUdp.cpp:179-186 | sends the transmit buffer to the remote address and leaves it as it was; 0 if and only if the send call reports an error |
| Udp.WiFiUDP.Write | libraries/WiFi/src/WiFiUdp.cpp:188-195 | one byte, with the early flush when 1460 bytes wait |
| Udp.WiFiUDP.WriteBuffer | libraries/WiFi/src/WiFiUdp.cpp:197-202 | the whole loop: buffer and network as the packetising function says, the receive side untouched |
| Udp.WiFiUDP.ParsePacket | libraries/WiFi/src/WiFiUdp.cpp:204-230 | refuses while a datagram is unread; otherwise takes the next one, all of it up to 1460 bytes, with its sender, or takes nothing and passes on the error; a buffer that exists is never empty |
| Udp.WiFiUDP.Available | libraries/WiFi/src/WiFiUdp.cpp:232-235 | the number of unread bytes |
| Udp.WiFiUDP.Read | libraries/WiFi/src/WiFiUdp.cpp:237-246 | the next byte, and the buffer goes away with the last one |
| Udp.WiFiUDP.ReadBuffer | libraries/WiFi/src/WiFiUdp.cpp:248-261 | the front min(len, available) bytes, and the buffer goes away with the last one |
| Udp.WiFiUDP.Peek | libraries/WiFi/src/WiFiUdp.cpp:263-266 | the next byte or -1, nothing changes |
| Udp.WiFiUDP.Flush | libraries/WiFi/src/WiFiUdp.cpp:268-273 | the unread rest is dropped |
| Udp.SendSession | libraries/WiFi/src/WiFiUdp.cpp:135-202 | begin, any list of writes and endPacket on the class: datagram i carries the written bytes from 1460 i on, to the address given; for port 0 they go out behind the old buffer |
| Udp.Receive | libraries/WiFi/src/WiFiUdp.cpp:204-273 | each receive call of the class is a step of the framing model with the same output, and the datagram of a parse step is the one taken off the network, whole and alone |
| Udp.PayloadsAre | libraries/WiFi/src/WiFiUdp.cpp:204-230 | exactly the datagrams that are not empty bring a payload, in order of arrival, whole up to 1460 bytes |
| Udp.ReceiveAll | libraries/WiFi/src/WiFiUdp.cpp:204-273 | any sequence of receive calls is a run of the framing model: the datagrams taken are the first that arrived, the new frames are exactly the nonempty ones, in order, each whole up to 1460 bytes; the bytes given are those of the frames, and without a flush all that arrived but the unread rest |
| DnsNames.RawNameIsEncoded | libraries/DNSServer/src/DNSServer.cpp:91-98 | what the walk over the length bytes covers is the encoding of the labels it finds |
| DnsNames.EncodedIsRawName | libraries/DNSServer/src/DNSServer.cpp:91-98 | every encoded name is found by the walk, whatever surrounds it |
| DnsNames.RemovalIsIdentityIff | libraries/DNSServer/src/DNSServer.cpp:63-67 | removing "www." leaves a name alone if and only if it does not occur |
| DnsNames.RemovesFirst | libraries/DNSServer/src/DNSServer.cpp:63-67 | the removal in full: the first "www." goes and the rest is treated alike |
| DnsNames.LowerAt | libraries/DNSServer/src/DNSServer.cpp:63-67 | bytes 65 to 90 move up by 32 and no other changes |
| DnsNames.SameButForCase | libraries/DNSServer/src/DNSServer.cpp:63-67 | two names agree in lower case if and only if they differ by 32 at letters only |
| DnsNames.JoinAppend | libraries/DNSServer/src/DNSServer.cpp:133-167 | in the dotted form a dot stands exactly between two labels |
| DnsNames.NormaliseIsPrefixRemovalIff | libraries/DNSServer/src/DNSServer.cpp:63-67 | the comparison form is the lower-case name without one leading "www." if and only if no "www." occurs in the rest |
| DnsNames.RemovesInTheMiddle | libraries/DNSServer/src/DNSServer.cpp:63-67 | awww.b is compared as ab |
| DnsNames.NormaliseNotIdempotent | libraries/DNSServer/src/DNSServer.cpp:42 | wwwww.w.com is stored as www.com, whose own comparison form is com |
| DnsNames.NormaliseForgets | libraries/DNSServer/src/DNSServer.cpp:133-167 | neither letter case nor a leading www label changes the comparison form of a name |
| DnsFormat.PlainNameParses | libraries/DNSServer/src/DNSServer.cpp:91-98 | on names with labels of at most 63 bytes the parser of RFC 1035 and the server's walk agree |
| DnsReply.StandardQueryIsWellFormed | libraries/DNSServer/src/DNSServer.cpp:84-103 | every standard one-question query meets what the server takes for granted, and its labels are found |
| DnsReply.OtherPacketsAreWellFormed | libraries/DNSServer/src/DNSServer.cpp:84-103 | so does every packet with a whole header that announces anything else |
| DnsReply.OneQuestionCounts | libraries/DNSServer/src/DNSServer.cpp:124-130 | the server's test on the header bytes is the one of RFC 1035 on the four counts |
| DnsReply.QueryParses | libraries/DNSServer/src/DNSServer.cpp:84-103 | what the RFC 1035 parser reads in such a query |
| DnsReply.AddressReply | libraries/DNSServer/src/DNSServer.cpp:169-201 | the address reply is 32 bytes plus the name long |
| DnsReply.AddressReplyLayout | libraries/DNSServer/src/DNSServer.cpp:169-201 | where each part lies; the question is byte-equal to the query's |
| DnsReply.AddressReplyParses | libraries/DNSServer/src/DNSServer.cpp:169-201 | parsed back by the RFC 1035 parser: the query's ID and flags with QR set, its question, one answer of type A, class IN with the configured lifetime and address, whose pointer gives the question's name; at most 287 bytes |
| DnsReply.ReplyEchoesQuery | libraries/DNSServer/src/DNSServer.cpp:169-201 | as messages: the reply is the query with the response bit and the one answer added |
| DnsReply.PointerResolves | libraries/DNSServer/src/DNSServer.cpp:184-190 | the pointer to offset 12 gives the labels of the question |
| DnsReply.CodeReplyParsesIff | libraries/DNSServer/src/DNSServer.cpp:203-212 | the error reply is a bare header message if and only if the query's answer, authority and additional counts were 0, and then it has the query's ID and the configured code |
| DnsReply.ReplyIsResponse | libraries/DNSServer/src/DNSServer.cpp:106-117 | a reply exists if and only if the packet is a query; it has the query's ID and the response bit, at most 288 bytes, and carries the address if and only if that is due, otherwise the error code and no question |
| DnsReply.ReplyMeans | libraries/DNSServer/src/DNSServer.cpp:106-117 | the decision in full, on the packet and the domain: a query gets the address if and only if its opcode is standard, it announces one question and nothing else, and its dotted name, in lower case and without "www.", is the domain, or the domain is "*"; every other query gets the error reply |
| DnsReply.StarAnswersIff | libraries/DNSServer/src/DNSServer.cpp:106-117 | with "*" a query gets the address if and only if its opcode is standard and it announces one question and no other records, otherwise the error reply |
| DnsReply.StarMissesEdns | libraries/DNSServer/src/DNSServer.cpp:106-117 | an example: a standard query with one EDNS record is a message, gets the error reply, and that reply is no message |
| DnsReply.OwnNamesMatch | libraries/DNSServer/src/DNSServer.cpp:42 | a server started with a name answers for that name in any letter case, and for it with www in front |
| DnsReply.ServeAnswersIff | libraries/DNSServer/src/DNSServer.cpp:169-212 | a query gets its own answer, whole and alone, if and only if it comes from a nonzero port, needs none, or the transmit buffer is empty; otherwise the first datagram sent is already another one |
| DnsReply.ServeSends | libraries/DNSServer/src/DNSServer.cpp:69-122 | what goes out for a datagram, in full: one datagram to its sender with exactly the reply due, behind the transmit buffer only for port 0 |
| DnsReply.AnswerMeans | libraries/DNSServer/src/DNSServer.cpp:69-122 | the answer due for a datagram in full |
| DnsReply.AnswersAppend | libraries/DNSServer/src/DNSServer.cpp:69-122 | the answers of a list are those of its parts, one after the other |
| DnsReply.RunAnswersEachQueryOnceIff | libraries/DNSServer/src/DNSServer.cpp:69-122 | over any run each query gets exactly one reply, to its sender and in order, and nothing else gets one, if and only if no query from port 0 finds bytes in the transmit buffer |
| DnsReply.PortsNeverZero | libraries/DNSServer/src/DNSServer.cpp:69-122 | so it always holds for senders that have a port |
| DnsReply.PortZeroGlues | libraries/DNSServer/src/DNSServer.cpp:203-212 | an example: two queries from port 0 in a row, and the second gets both answers in one datagram |
| Dns.DNSServer.constructor | libraries/DNSServer/src/DNSServer.cpp:5-14 | a lifetime of 60 and the code for a nonexistent domain to begin with |
| Dns.DNSServer.Start | libraries/DNSServer/src/DNSServer.cpp:32-44 | stores the lower-case domain without "www." and the address, keeps the other settings, opens the socket on the port given, and holds no packet |
| Dns.DNSServer.SetErrorReplyCode | libraries/DNSServer/src/DNSServer.cpp:46-49 | the code of later error replies, one of the enumeration; no other setting changes |
| Dns.DNSServer.SetTTL | libraries/DNSServer/src/DNSServer.cpp:51-54 | the lifetime in later answers, 32 bits; no other setting changes |
| Dns.DNSServer.RequestIncludesOnlyOneQuestion | libraries/DNSServer/src/DNSServer.cpp:124-130 | decides the counts of the header copy |
| Dns.DNSServer.CopyLabels | libraries/DNSServer/src/DNSServer.cpp:91-96 | the copy loop ends at the zero byte with the labels copied verbatim |
| Dns.DNSServer.CopyName | libraries/DNSServer/src/DNSServer.cpp:91-98 | the name field equals the encoding of the labels, and its length is counted right |
| Dns.DNSServer.CopyQuestion | libraries/DNSServer/src/DNSServer.cpp:85-103 | name, type and class together equal the question of the packet |
| Dns.DNSServer.GetDomainNameWithoutWwwPrefix | libraries/DNSServer/src/DNSServer.cpp:133-167 | the second walk gives the comparison form of the joined labels, the same labels as the copy loop |
| Dns.DNSServer.ReplyWithIP | libraries/DNSServer/src/DNSServer.cpp:169-201 | the writes of one session put out the address reply for the packet |
| Dns.DNSServer.ReplyWithCustomCode | libraries/DNSServer/src/DNSServer.cpp:203-212 | the writes of one session put out the error reply for the packet |
| Dns.DNSServer.TakePacket | libraries/DNSServer/src/DNSServer.cpp:71-84 | the datagram is read whole, which drains the socket's queue, and its header is copied; a failed receive takes nothing |
| Dns.DNSServer.IsForUs | libraries/DNSServer/src/DNSServer.cpp:85-110 | decides whether the address reply is due |
| Dns.DNSServer.AnswerPacket | libraries/DNSServer/src/DNSServer.cpp:85-117 | what goes out for the packet held, and what stays in the transmit buffer, is what is due for it |
| Dns.DNSServer.ProcessNextRequest | libraries/DNSServer/src/DNSServer.cpp:69-122 | asks the network exactly once, takes at most one datagram and ends with nothing left to read; a query gets exactly one datagram back, the address reply if and only if its name is the domain or the domain is "*" (and opcode and counts are standard), otherwise the error reply |
| Dns.DNSServer.Loop | libraries/DNSServer/examples/CaptivePortal/CaptivePortal.ino:25-26 | polled any number of times, the server has sent what is due for the datagrams taken, one after the other; that is one answer per query, in order, each to its sender, if and only if no query from port 0 finds bytes in the transmit buffer |
| RxBuffer.RunConserves | libraries/WiFi/src/WiFiClient.cpp:63-163 | over every run, what was taken out followed by what is buffered is what came in |
| RxBuffer.DeliveredIsPrefix | libraries/WiFi/src/WiFiClient.cpp:112-156 | without a flush the reader sees what was buffered and then the received stream, in order, up to what is still buffered |
| RxBuffer.WiFiClientRxBuffer.Recv | libraries/WiFi/src/WiFiClient.cpp:80-88 | any number of bytes or an error; the bytes returned are the ones recorded as received |
| RxBuffer.WiFiClientRxBuffer.RAvailable | libraries/WiFi/src/WiFiClient.cpp:48-61 | an error marks the buffer as failed and counts as nothing waiting; nothing else does |
| RxBuffer.WiFiClientRxBuffer.MakeRoom | libraries/WiFi/src/WiFiClient.cpp:65-79 | allocates on first use; when everything was handed out the buffer is used from the start again, so that there is room |
| RxBuffer.WiFiClientRxBuffer.Receive | libraries/WiFi/src/WiFiClient.cpp:80-88 | recv for all the space there; an error other than EWOULDBLOCK marks the buffer as failed |
| RxBuffer.WiFiClientRxBuffer.FillBuffer | libraries/WiFi/src/WiFiClient.cpp:63-89 | exactly what recv returned is appended to what is buffered; recv is called only after the socket reported bytes; with space, or with everything handed out, nothing comes only because the allocator or the socket had nothing to give |
| RxBuffer.WiFiClientRxBuffer.Read | libraries/WiFi/src/WiFiClient.cpp:112-145 | no byte is lost or reordered on the fast and the slow path; a short read happens only after the allocator, the question or recv had nothing to give; -1 instead of 0 if and only if the buffer failed; bytes left after a short read arrived during the call and were too few |
| RxBuffer.WiFiClientRxBuffer.ReadSome | libraries/WiFi/src/WiFiClient.cpp:116-145 | the fast path whose refill may fall short, with the count from before the refill |
| RxBuffer.WiFiClientRxBuffer.ReadOn | libraries/WiFi/src/WiFiClient.cpp:133-144 | the slow loop ends, and hands on what it can |
| RxBuffer.WiFiClientRxBuffer.Peek | libraries/WiFi/src/WiFiClient.cpp:147-152 | the next byte, and nothing is taken out; -1 only when none was buffered and none could be had |
| RxBuffer.WiFiClientRxBuffer.Available | libraries/WiFi/src/WiFiClient.cpp:154-156 | what is buffered plus what the socket reports as waiting |
| RxBuffer.WiFiClientRxBuffer.Flush | libraries/WiFi/src/WiFiClient.cpp:158-163 | asks once, refills once if something waits, and drops exactly what is then buffered |
| RxBuffer.PerformAll | libraries/WiFi/src/WiFiClient.cpp:63-163 | any list of read, peek, available and flush calls on the class is a run: the bytes the reader got, what was flushed and what is buffered are what was buffered and what recv returned, in order |
| SendTrace.CompleteIsShort | libraries/WiFi/src/WiFiClient.cpp:401-440 | the loop makes at most ten passes for each byte and ten more, for every socket behaviour |
| SendTrace.ReasonToStop | libraries/WiFi/src/WiFiClient.cpp:401-440 | it ends only with a select error, a fatal send error, everything sent, or ten passes in a row without progress |
| SendTrace.CompleteMeans | libraries/WiFi/src/WiFiClient.cpp:401-440 | the same on the results of select and send: no pass but the last met a select error or a fatal send error, and the last one met one, took the last byte, or was the tenth in a row to take none |
| SendTrace.AttemptsBounded | libraries/WiFi/src/WiFiClient.cpp:401-440 | passes without progress are bounded by ten for each step of progress |
| Client.WiFiClient.Write | libraries/WiFi/src/WiFiClient.cpp:389-442 | the bytes taken are a prefix of the data, each try offers all that is left, the result is their number, or 0 after a select error; a short result has one of three reasons, ten passes in a row without progress among them; the connection is stopped if and only if a send failed otherwise than with EAGAIN |
| Client.WiFiClient.Read | libraries/WiFi/src/WiFiClient.cpp:467-478 | what the buffer gives; a failed buffer is dropped and the connection stopped |
| Client.WiFiClient.ReadByte | libraries/WiFi/src/WiFiClient.cpp:375-387 | the next byte, or -1 exactly when none was buffered and none came |
| ButtonSpec.Elapsed | libraries/TuyaIoT/examples/quickStart/quickStart.ino:137-148 | modular subtraction is true elapsed time for less than 2^32 ms |
| ButtonSpec.PressRuns | libraries/TuyaIoT/examples/quickStart/quickStart.ino:130-145 | during a press: a long press once, exactly when some poll past the debounce sees 3000 ms |
| ButtonSpec.WhileHeld | libraries/TuyaIoT/examples/quickStart/quickStart.ino:130-145 | while the button is held: one long press as soon as a poll more than 50 ms after the first sees 3000 ms, and nothing else |
| ButtonSpec.IdleDoesNothing | libraries/TuyaIoT/examples/quickStart/quickStart.ino:146-155 | a released poll of an idle button does nothing |
| ButtonSpec.PressAndRelease | libraries/TuyaIoT/examples/quickStart/quickStart.ino:125-156 | exactly one action if some pressed poll is more than 50 ms after the first, otherwise none; a long press if and only if the release comes at 3000 ms or later |
| ButtonSpec.RolloverBoundNeeded | libraries/TuyaIoT/examples/quickStart/quickStart.ino:137 | a press of 2^32 + 10 ms is lost, so the bound on presses is needed |
| ButtonSpec.EveryRunSplits | libraries/TuyaIoT/examples/quickStart/quickStart.ino:125-156 | every run of polls falls into maximal presses with releases between them |
| ButtonSpec.DueMeans | libraries/TuyaIoT/examples/quickStart/quickStart.ino:125-156 | what is due for a press, on the times of its last poll and its release |
| ButtonSpec.WholeRun | libraries/TuyaIoT/examples/quickStart/quickStart.ino:125-156 | over any run with a nondecreasing clock the actions are, press by press, the ones due, across clock rollover |
| Button.ButtonCheck.Check | libraries/TuyaIoT/examples/quickStart/quickStart.ino:125-156 | one poll is one step of the machine |
| Button.ButtonCheck.Loop | libraries/TuyaIoT/examples/quickStart/quickStart.ino:55-60 | polling is a run of the machine |
| RemovalSpec.AllRemovedIff | libraries/WiFi/src/WiFiGeneric.cpp:289-315 | removal by callback removes all matches if and only if no two are neighbours |
| RemovalSpec.RunLeavesHalf | libraries/WiFi/src/WiFiGeneric.cpp:289-315 | a maximal run of k neighbouring matches leaves its k / 2 entries at odd positions |
| RemovalSpec.LeftAre | libraries/WiFi/src/WiFiGeneric.cpp:289-325 | what is left, in order: exactly the entries that do not match and those directly behind an erased one |
| RemovalSpec.RemoveIdExact | libraries/WiFi/src/WiFiGeneric.cpp:317-325 | removal by id takes out exactly the entry with that id and keeps the order of the rest |
| RemovalSpec.RunCounted | libraries/WiFi/src/WiFiGeneric.cpp:26-35 | over any run with fewer than 2^32 registrations ids strictly increase along the list and none is 0 |
| RemovalSpec.CounterWraps | libraries/WiFi/src/WiFiGeneric.cpp:26-35 | the bound is exact: registration number 2^32 gets the id 0 and breaks the order |
| RemovalSpec.RemovedIsSilent | libraries/WiFi/src/WiFiGeneric.cpp:338-355 | after a removal without neighbouring matches the callback is no longer called for that event |
| RemovalSpec.CallsAre | libraries/WiFi/src/WiFiGeneric.cpp:338-352 | exactly the entries with a callback that are registered for this event or for all are called, once each, in list order; the plain callback before the function object before the system callback |
| EventRegistry.WiFiGeneric.OnEvent | libraries/WiFi/src/WiFiGeneric.cpp:247-287 | 0 and no change for a null callback; otherwise the entry with these callbacks, this event and the counter as id is appended; up to registration number 2^32 - 1 the id is that number and above all others |
| EventRegistry.WiFiGeneric.EraseMatching | libraries/WiFi/src/WiFiGeneric.cpp:295-300 | the erase-in-a-loop leaves the entries that do not match or stand behind an odd number of neighbouring matches |
| EventRegistry.WiFiGeneric.RemoveEventCb | libraries/WiFi/src/WiFiGeneric.cpp:289-301 | removal by plain callback and event: which entries stay, in order |
| EventRegistry.WiFiGeneric.RemoveEventScb | libraries/WiFi/src/WiFiGeneric.cpp:303-315 | removal by system callback and event: which entries stay, in order |
| EventRegistry.WiFiGeneric.RemoveEventId | libraries/WiFi/src/WiFiGeneric.cpp:317-325 | removal by id: which entries stay, in order; exactly the others while fewer than 2^32 registrations were made |
| EventRegistry.WiFiGeneric.EventCallback | libraries/WiFi/src/WiFiGeneric.cpp:338-355 | a null event does nothing; obtaining an address and losing the connection are recorded; then exactly the listening entries are called, once each and in list order |
| EventRegistry.PerformAll | libraries/WiFi/src/WiFiGeneric.cpp:247-325 | any list of calls on the class is a run of the registry; with fewer than 2^32 registrations ids are distinct, nonzero and increasing |
| Selection.KnownIsLast | libraries/WiFi/src/WiFiMulti.cpp:118-133 | the entry that counts for an SSID is the last-added one |
| Selection.ChoiceMeans | libraries/WiFi/src/WiFiMulti.cpp:97-140 | the choice in full, on the list and the scan: network, last entry for its SSID, open or with a passphrase there, no other such network stronger or as strong and earlier |
| Selection.ChoiceUnique | libraries/WiFi/src/WiFiMulti.cpp:107-140 | maximal signal and first index among ties leave exactly one choice |
| Selection.ChosenIff | libraries/WiFi/src/WiFiMulti.cpp:97-129 | something is chosen if and only if a joinable network has a signal above the smallest 32-bit integer |
| Selection.ConsideredAllIff | libraries/WiFi/src/WiFiMulti.cpp:73-107 | all results are looked at if and only if there are at most 127; otherwise their number modulo 256, or none |
| Multi.WiFiMulti.AddAP | libraries/WiFi/src/WiFiMulti.cpp:30-68 | accepts exactly SSIDs of 1 to 31 and passphrases of at most 64 characters, and the new entry becomes the one that counts |
| Multi.WiFiMulti.Consider | libraries/WiFi/src/WiFiMulti.cpp:117-133 | the inner loop keeps the better of the choice so far and this network |
| Multi.WiFiMulti.Choose | libraries/WiFi/src/WiFiMulti.cpp:94-141 | the choice on the list and the scan results looked at: the last-added entry for the SSID, the signal, channel and BSSID of the strongest joinable network, the first among ties; none if and only if there is no such network above the smallest 32-bit integer |
| Layout.WriteAt | tools/packager/packager_t2.py:54-55 | writing behind the end fills the gap with zeros, and writing nothing changes nothing |
| Layout.PartsDisjoint | tools/packager/packager_t2.py:30-39 | no address is covered by two parts of an accepted list |
| Layout.PlaceIsImage | tools/packager/packager_t2.py:50-57 | the image of an accepted list holds each part verbatim, zeros elsewhere, and stays within the size |
| T2Image.TotalWithinEnd | tools/packager/packager_t2.py:39-44 | the final check of the total size can never fail |
| T2Image.Check | tools/packager/packager_t2.py:19-44 | accepts if and only if every file exists and the parts fit in the given order |
| T2Image.AcceptedMeans | tools/packager/packager_t2.py:17-44 | acceptance on the arguments: argument 2i names an existing file, argument 2i + 1 its offset, not below the end of the file before and leaving room for it |
| T2Image.ImageMeans | tools/packager/packager_t2.py:50-57 | the image on the arguments: file 2i lies at offset 2i + 1, and every byte that is not zero belongs to a file |
| T2Image.CombineQioAte | tools/packager/packager_t2.py:12-59 | accepts exactly the argument lists of existing files with numeric offsets that fit in the given order; then, unless the output file is also an input, file 2i lies at offset 2i + 1 with zeros elsewhere, and no other file is touched; otherwise touches nothing |
| Layout.LengthIsCursorPlusOverrun | tools/packager/packager_esp32.py:48-57 | the output is ahead of the cursor by the sum of the overruns, for any offsets |
| Layout.PaddedLength | tools/packager/packager_esp32.py:48-57 | the image is as long as intended plus all overruns, and exactly so long if and only if there were none |
| Layout.PartPosition | tools/packager/packager_esp32.py:49-55 | each part lies verbatim at its offset plus the overruns so far |
| Layout.NoOverrunIsExact | tools/packager/packager_esp32.py:49-57 | without overruns every byte outside the parts is 0xFF |
| Esp32Image.LayOut | tools/packager/packager_esp32.py:47-57 | the layout loop for any list of parts |
| Esp32Image.WriteImage | tools/packager/packager_esp32.py:40-59 | with the real offsets the image has 0x190000 bytes if and only if each of the four files fits its slot, and then each lies at its offset with 0xFF between |
| Esp32Image.FlashImageMeans | tools/packager/packager_esp32.py:8-13 | the same byte by byte, with the addresses written out |
| Esp32Image.NamesApart | tools/packager/packager_esp32.py:16-22 | whatever the sketch is called, no output file is an input or another output |
| Esp32Image.ImageGen | tools/packager/packager_esp32.py:15-71 | gives up without touching anything unless all four files exist; otherwise writes that image and two copies of the application, removes the application and touches no other file |
| Paths.PieceIsPrefix | libraries/LittleFS/src/LittleFS.cpp:103-105 | cutting a path at a slash names a prefix of the directories of the path |
| Paths.NamesAre | libraries/LittleFS/src/LittleFS.cpp:103-105 | a name behind a slash is added to the names before it, and a trailing slash adds nothing |
| Paths.NoGapWhenParentExists | libraries/LittleFS/src/LittleFS.cpp:86-93 | an existing parent directory makes doubled and trailing slashes harmless |
| Paths.GapOfCut | libraries/LittleFS/src/LittleFS.cpp:103-112 | cutting off a nonempty last name keeps the condition of success |
| Paths.TrailingSlashGap | libraries/LittleFS/src/LittleFS.cpp:84-123 | an example: "a/b/" on an empty file system, while "a/b" succeeds |
| LittleFs.CreateDirRecursive | libraries/LittleFS/src/LittleFS.cpp:84-123 | terminates; 0 means that the path and all its prefixes exist; nothing but prefixes is ever created; without other faults it succeeds for every path without doubled and trailing slashes, and otherwise if and only if no name whose parent is missing is followed by such a slash |
| LittleFs.LittleFS.Mkdir | libraries/LittleFS/src/LittleFS.cpp:125-132 | the same behind the mount flag: only prefixes of the path are created, and nothing before mounting |
| Text.DecimalReads | libraries/HTTPClient/src/HTTPClient.cpp:55 | a printed number is read back |
| Text.DecimalIs | libraries/HTTPClient/src/HTTPClient.cpp:55 | the digits of a printed number, most significant first |
| Text.CutAt | libraries/HTTPClient/src/HTTPClient.cpp:21-54 | text up to a delimiter it does not contain is cut off whole |
| Url.SplitMeans | libraries/HTTPClient/src/HTTPClient.cpp:17-64 | the splitting in full, on the text: protocol up to the first colon, authority up to the next slash, userinfo up to the first @, host up to the first colon behind it |
| Url.PrintIs | libraries/HTTPClient/src/HTTPClient.cpp:17-64 | how a URL is put together from its parts |
| Url.RoundTripIff | libraries/HTTPClient/src/HTTPClient.cpp:17-64 | a printed URL is split back into all its parts, userinfo included, an empty path becoming "/", if and only if no part contains a delimiter looked for in it |
| Url.FieldsBackIff | libraries/HTTPClient/src/HTTPClient.cpp:17-64 | protocol, host, port and path, which the client keeps, come back if and only if no part contains a delimiter looked for in it, or the userinfo behind its first @ spells out the same host and port |
| Url.DecoyComesBack | libraries/HTTPClient/src/HTTPClient.cpp:35-56 | an example of the second case: http://x@h:9@h:9/ |
| Url.SecondAtBreaks | libraries/HTTPClient/src/HTTPClient.cpp:35-56 | any other userinfo x@y without a colon makes the host y@host |
| Http.HTTPClient.BeginInternal | libraries/HTTPClient/src/HTTPClient.cpp:17-64 | the fields after a call, on the text of the URL; without a port the earlier one stays |
| Http.HTTPClient.BeginPrinted | libraries/HTTPClient/src/HTTPClient.cpp:12-15 | begin on a printed URL recovers protocol, host and path, and the port or, without one, the last port, under exactly that condition |

## Left out

- Memory exhaustion, except for the receive buffer of the TCP client: allocation succeeds. Only the allocation for a negative packet size in the DNS server is taken to fail.
- Connecting, socket options, timeouts and `WiFiClient::connected`: they only pass values to the socket layer.
- `WiFiClient` copies that share one receive buffer: each client has its own.
- Signed plain `char`: `cbuf::read` and `cbuf::peek` would then give -1 for the byte 255 as well.
- Multicast, host names and the other overloads of `beginPacket` that only look up an address.
- Udp.WiFiUDP.Write: a write before any `beginPacket` has allocated the transmit buffer goes through a null pointer in the code, and is excluded.
- Dns.DNSServer.ProcessNextRequest: packets without a whole header, and names that run past the packet or past the 256-byte field: the code then reads or writes outside its buffers, so nothing can be promised.
- DNSServer.stop and the destructor: they only release memory.
- The group of status bits in which `WiFiSTAClass::_setStatus` keeps the station status: here it is one value.
- Handlers that change the handler list while an event is dispatched, and the event task itself.
- The connection attempt and the waiting loop of `WiFiMulti::run` after the choice, and its early return when already connected.
- T2Image.CombineQioAte: what the image holds when the output file is also an input depends on buffering and is left open; every file has one path.
- LittleFs.FileSystem.Mkdir: the file system is not part of the repository; doubled and trailing slashes are taken to count for nothing and "." and ".." are not interpreted.
- Http.HTTPClient.BeginInternal: `String::toInt` is not part of the repository; it is taken to cut a number off at the ends of a 32-bit `long`.
- Arduino strings with embedded zero bytes: names are byte sequences.
- The other packagers, the TuyaIoT cloud calls, Bluetooth, MQTT, logging, pins, tone, SPI and I2C: thin wrappers around code that is not part of this repository.
