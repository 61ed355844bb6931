# CoLa2 session handler and AutoIP discovery, modelled in Dafny

This project models two pieces of the SICK Visionary client library.

**The CoLa2 protocol session handler** (`CoLa2ProtocolHandler`) frames CoLa
commands for a reliable byte stream. Every frame starts with a 16-byte header:

- four magic bytes `02 02 02 02`;
- a big-endian length;
- a hub counter and a number of chunks, both 0;
- the big-endian session id;
- the big-endian request id.

The handler holds two pieces of state. One is a 16-bit request counter, incremented before each header. The other is the 32-bit session id, which the open-session handshake sets.

- `Send` strips the leading `'s'` of a command, frames it, writes it and reads the reply. It then checks the magic, takes the announced body, drops the 8 bytes the device echoes and puts the `'s'` back.
- `OpenSession` sends `'O' 'x' timeout 0 2 'E' 'x'` and takes the session id from offset 2 of the reply body.

**The AutoIP discovery scan** (`VisionaryAutoIPScan`) broadcasts a 16-byte
discover packet that carries a per-scan telegram id. It keeps each reply that meets all of these:

- it is longer than 16 bytes;
- it starts with `0x90`;
- it echoes the telegram id, read little-endian;
- it holds the whole payload its big-endian length announces.

Each payload becomes a device record: the last `IPAddress`, `IPMask`, `HostPortNo` and `DeviceType` entries of the reply's XML, plus its MAC attribute.

Files:

- `bytes.dfy` (module `Bytes`): `u8`/`u16`/`u32`, `Wrap32` (the `uint32_t` cast), the byte overwrite that stands for the source's `reinterpret_cast` stores, and big- and little-endian codecs with their round trips.
- `wrappers.dfy` (module `Wrappers`): `Option`.
- `transport.dfy` (module `Transport`): the byte stream as a scripted object.
  - `sent` is the log of frames written.
  - `input` is the queue of bytes the device will deliver.
  - `Read(n)` takes at most `n` bytes from that queue.
  - `sendLimit` is the largest count one send reports.
- `cola2.dfy` (module `CoLa2`) holds the handler class `CoLa2ProtocolHandler`. Its fields are `reqId` (`m_ReqID`) and `sessionId` (`m_sessionID`). Beside the class:
  - the functions that specify the handler: `Header`, `Frame`, `OpenSessionFrame`, `ReceiveResponse` and `OpenSessionReply`;
  - the partners used in the lemmas: a frame parser, `ParseFrame`, and device-side reply builders, `ReplyFrame` and `SessionReplyFrame`;
  - the checksum.
- `autoip.dfy` (module `AutoIPScan`):
  - the discover packet;
  - the reply filter `ClassifyReply`, with a device-side partner `ReplyDatagram`;
  - `ParseAutoIPXml` over an abstract property tree;
  - the scan loop `DoScan`, which runs over a finite sequence of received datagrams.

Interfaces that are parameters:

- The transport behind `CoLa2ProtocolHandler` is the scripted `StreamTransport`. `ITransport` is not part of this model. Its `read(buffer, n)` is taken to leave in `buffer` exactly the bytes received.
- For the scan, these are all parameters:
  - whether the UDP socket connects;
  - the random telegram id;
  - the host byte order;
  - the datagrams received before the timeout;
  - the XML reader `readXml`. It returns `None` where `read_xml` would throw, or where the reply has no `NetScanResult` element.

## Model

| member | source | states |
|---|---|---|
| Bytes.Wrap32 | common/3pp/sickapi/src/CoLa2ProtocolHandler.cpp:147 | the `uint32_t` length computation: the result agrees with its argument modulo 2^32 and equals it when it fits |
| Bytes.Overwrite | common/3pp/sickapi/src/CoLa2ProtocolHandler.cpp:122-125 | a `reinterpret_cast` store at an offset replaces exactly those bytes and keeps the length and every other byte |
| Bytes.BE16RoundTrip | common/3pp/sickapi/src/CoLa2ProtocolHandler.cpp:125 | decoding the big-endian 16-bit encoding gives the value back |
| Bytes.BE16Inverse | common/3pp/sickapi/src/VisionaryAutoIPScan.cpp:104 | every 2-byte big-endian field is the encoding of the value decoded from it |
| Bytes.BE32RoundTrip | common/3pp/sickapi/src/CoLa2ProtocolHandler.cpp:122 | decoding the big-endian 32-bit encoding gives the value back |
| Bytes.BE32Inverse | common/3pp/sickapi/src/CoLa2ProtocolHandler.cpp:77 | every 4-byte big-endian field is the encoding of the value decoded from it |
| Bytes.BE32Weights | common/3pp/sickapi/src/CoLa2ProtocolHandler.cpp:122 | big-endian puts the most significant byte first (weights 2^24, 2^16, 2^8, 1) |
| Bytes.LE32RoundTrip | common/3pp/sickapi/src/VisionaryAutoIPScan.cpp:81 | decoding the little-endian 32-bit encoding gives the value back |
| Bytes.LE32Weights | common/3pp/sickapi/src/VisionaryAutoIPScan.cpp:107 | the telegram-id decode by shifts (byte k weighted 2^(8k)) is the little-endian value |
| Transport.StreamTransport.constructor | common/3pp/sickapi/src/CoLa2ProtocolHandler.h:31 | a transport starts with an empty log and the scripted input |
| Transport.StreamTransport.Send | common/3pp/sickapi/src/CoLa2ProtocolHandler.cpp:155 | a send logs the frame; its count equals the frame size exactly when the frame fits the send limit |
| Transport.StreamTransport.Read | common/3pp/sickapi/src/CoLa2ProtocolHandler.cpp:164 | a read returns at most n bytes, and only fewer when the input runs dry; it consumes exactly what it returns |
| CoLa2.NextReqId | common/3pp/sickapi/src/CoLa2ProtocolHandler.cpp:95-98 | the pre-increment of the `uint16_t` counter: +1 below 65535, and 65535 wraps to 0 |
| CoLa2.ReqIdCountsHeaders | common/3pp/sickapi/src/CoLa2ProtocolHandler.cpp:21 | from the constructor's 0, the n-th header carries n mod 2^16, so the first carries 1 |
| CoLa2.Header | common/3pp/sickapi/src/CoLa2ProtocolHandler.cpp:100-128 | every header is exactly 16 bytes |
| CoLa2.HeaderLayout | common/3pp/sickapi/src/CoLa2ProtocolHandler.cpp:105-125 | header bytes 0..3 are the magic, 4..7 the length placeholder, 8 and 9 are 0, 10..13 decode to the session id and 14..15 to the request id |
| CoLa2.PatchLength | common/3pp/sickapi/src/CoLa2ProtocolHandler.cpp:39 | patching the length keeps the buffer size |
| CoLa2.PatchLengthFields | common/3pp/sickapi/src/CoLa2ProtocolHandler.cpp:147 | patching changes only bytes 4..7, which then decode to size − 8 in `uint32_t` |
| CoLa2.Frame | common/3pp/sickapi/src/CoLa2ProtocolHandler.cpp:137-150 | the frame `send` writes is 15 bytes longer than the command, starts with the magic and ends with the command without its `'s'` |
| CoLa2.OpenSessionFrame | common/3pp/sickapi/src/CoLa2ProtocolHandler.cpp:33-39 | the frame `openSession` writes is 23 bytes, starts with the magic and ends with `'O' 'x' timeout 0 2 'E' 'x'` |
| CoLa2.FrameRoundTrip | common/3pp/sickapi/src/CoLa2ProtocolHandler.cpp:137-150 | the frame `send` writes is 15 bytes longer than the command. It parses back to magic, length (command length + 7) mod 2^32, zero hub counter and chunk count, the session id, the request id and `cmd` without its `'s'`, with no checksum byte. Its length field is frame size − 8 |
| CoLa2.OpenSessionFrameRoundTrip | common/3pp/sickapi/src/CoLa2ProtocolHandler.cpp:33-39 | the open-session frame is 23 bytes with length field 15. It carries the current session id, the new request id and `'O' 'x' timeout 0 2 'E' 'x'` |
| CoLa2.Unwrap | common/3pp/sickapi/src/CoLa2ProtocolHandler.cpp:183-187 | the command built from a body is `'s'` followed by a tail of the body, 8 bytes shorter than the body when the body is longer than 8 |
| CoLa2.ReceiveResponse | common/3pp/sickapi/src/CoLa2ProtocolHandler.cpp:164-193 | what `send` makes of the stream: the bytes left unread are a tail of the input; the result is `networkErrorCommand` exactly when a read runs short: fewer than 4 bytes, or the magic followed by fewer than 4 length bytes or by fewer body bytes than announced, and it then leaves none; the result is the empty command exactly when the first four bytes are not the magic; any other command starts with `'s'` |
| CoLa2.ReplyFrame | common/3pp/sickapi/src/CoLa2ProtocolHandler.cpp:164-182 | a device reply is 8 bytes of magic and length followed by its body |
| CoLa2.ResponseRoundTrip | common/3pp/sickapi/src/CoLa2ProtocolHandler.cpp:164-196 | on a whole reply, `send` reads exactly that reply and returns its unwrapped body, leaving the bytes after it unread |
| CoLa2.EchoedReplyRoundTrip | common/3pp/sickapi/src/CoLa2ProtocolHandler.cpp:183-187 | a reply whose body is 8 echoed bytes plus a non-empty payload comes back as `'s'` followed by exactly that payload |
| CoLa2.ShortBodyKept | common/3pp/sickapi/src/CoLa2ProtocolHandler.cpp:183-187 | a body of 8 bytes or fewer is not trimmed: the result is `'s'` plus the whole body |
| CoLa2.TruncatedReplyIsNetworkError | common/3pp/sickapi/src/CoLa2ProtocolHandler.cpp:164-182 | every reply cut short by the stream, at any point, gives `networkErrorCommand` |
| CoLa2.MagicMismatchIsNotNetworkError | common/3pp/sickapi/src/CoLa2ProtocolHandler.cpp:168-193 | a wrong magic gives an empty command, not a network error, and nothing past the 4 magic bytes is read |
| CoLa2.OpenSessionReply | common/3pp/sickapi/src/CoLa2ProtocolHandler.cpp:50-87 | what `openSession` makes of the stream: the bytes left unread are a tail of the input; a session id is produced only from an input of at least 14 bytes that starts with the magic, and it is the big-endian u32 at input bytes 10..13 (body offset 2) |
| CoLa2.OpenSessionRoundTrip | common/3pp/sickapi/src/CoLa2ProtocolHandler.cpp:50-87 | on a device's reply (tag, session id, anything after), the handshake succeeds with exactly that session id and consumes exactly that reply |
| CoLa2.OpenSessionFailures | common/3pp/sickapi/src/CoLa2ProtocolHandler.cpp:53-81 | the handshake fails on each of these: a short magic read, a wrong magic, a short length read, a length below 6, or a short body read |
| CoLa2.TruncatedSessionReplyFails | common/3pp/sickapi/src/CoLa2ProtocolHandler.cpp:53-81 | every open-session reply cut short by the stream fails |
| CoLa2.AcceptsSessionReplyAsWritten | common/3pp/sickapi/src/CoLa2ProtocolHandler.cpp:53-81 | the source's acceptance test for the open-session reply as written: the magic, a length of at least 4, and a whole body of that length (the as-written half of the finding) |
| CoLa2.AsWrittenReadsPastBody | common/3pp/sickapi/src/CoLa2ProtocolHandler.cpp:78-84 | the source's test accepts a 4-byte body, whose session id read at body offset 2 then runs past the body |
| CoLa2.CorrectedSessionIdWithinBody | common/3pp/sickapi/src/CoLa2ProtocolHandler.cpp:78-84 | the modelled handshake succeeds iff the source's test passes and the body has at least 6 bytes; the id is then the big-endian u32 at body offset 2 |
| CoLa2.ChecksumOfShortBuffer | common/3pp/sickapi/src/CoLa2ProtocolHandler.cpp:202 | a buffer of at most 8 bytes has checksum 0 |
| CoLa2.ChecksumAppend | common/3pp/sickapi/src/CoLa2ProtocolHandler.cpp:202-205 | appending a byte XORs it into the checksum |
| CoLa2.ChecksumSealsBuffer | common/3pp/sickapi/src/CoLa2ProtocolHandler.cpp:150 | appending a buffer's own checksum makes the checksum of the result 0, for any buffer. No frame carries that byte: this concerns the commented-out append |
| CoLa2.XorAll | common/3pp/sickapi/src/CoLa2ProtocolHandler.cpp:202-205 | the XOR of all bytes of a sequence, folded from the left as the loop accumulates (stated by `ChecksumAppend`) |
| CoLa2.Checksum | common/3pp/sickapi/src/CoLa2ProtocolHandler.cpp:199-207 | the value of `calculateChecksum`: the XOR of the bytes from index 8 on, 0 for buffers of 8 bytes or fewer (stated by `ChecksumOfShortBuffer`, `ChecksumAppend` and `CalculateChecksum`) |
| CoLa2.CoLa2ProtocolHandler.constructor | common/3pp/sickapi/src/CoLa2ProtocolHandler.cpp:19-24 | a new handler holds the transport, request id 0 and session id 0 |
| CoLa2.CoLa2ProtocolHandler.GetReqId | common/3pp/sickapi/src/CoLa2ProtocolHandler.cpp:95-98 | increments the counter modulo 2^16 and returns the new value |
| CoLa2.CoLa2ProtocolHandler.CreateCoLa2Header | common/3pp/sickapi/src/CoLa2ProtocolHandler.cpp:100-128 | advances the counter by one and returns the header for the unchanged session id and the new request id |
| CoLa2.CoLa2ProtocolHandler.OpenSession | common/3pp/sickapi/src/CoLa2ProtocolHandler.cpp:29-88 | logs the open-session frame whatever the send count; advances the request id by one; returns true exactly when the reply yields a session id and stores it, otherwise leaves the session id unchanged; consumes what the reads consumed |
| CoLa2.CoLa2ProtocolHandler.CloseSession | common/3pp/sickapi/src/CoLa2ProtocolHandler.cpp:90-93 | changes no state and sends nothing |
| CoLa2.CoLa2ProtocolHandler.Send | common/3pp/sickapi/src/CoLa2ProtocolHandler.cpp:130-197 | logs `Frame(sessionId, new reqId, cmd)` and advances the request id even on failure, leaving the session id alone. A short write is `networkErrorCommand` with nothing read; otherwise the result and the bytes left are those of `ReceiveResponse` |
| CoLa2.CoLa2ProtocolHandler.CalculateChecksum | common/3pp/sickapi/src/CoLa2ProtocolHandler.cpp:199-207 | the loop computes the XOR of the bytes at index 8 and above (0 for short buffers) |
| AutoIPScan.NativeBytes32 | common/3pp/sickapi/src/VisionaryAutoIPScan.cpp:81 | `memcpy` of the id writes 4 bytes in host order |
| AutoIPScan.DiscoverPacket | common/3pp/sickapi/src/VisionaryAutoIPScan.cpp:56-81 | the discover packet is 16 bytes, starts with the command 0x10 and holds the telegram id in host order at bytes 10..13 |
| AutoIPScan.BuildDiscoverPacket | common/3pp/sickapi/src/VisionaryAutoIPScan.cpp:56-81 | the discover packet is 16 bytes: 0x10, three 0x00, six 0xFF, the telegram id in host order, two 0x00 |
| AutoIPScan.TelegramIdEcho | common/3pp/sickapi/src/VisionaryAutoIPScan.cpp:79-81 | on a little-endian host, reading the sent id bytes as replies are read gives back the telegram id |
| AutoIPScan.BigEndianHostEcho | common/3pp/sickapi/src/VisionaryAutoIPScan.cpp:80-81 | on a big-endian host the little-endian read of the sent id gives it back exactly when its four bytes read the same reversed; every other id is misread |
| AutoIPScan.LastValue | common/3pp/sickapi/src/VisionaryAutoIPScan.cpp:148-177 | the string a key ends up with: the value of its last entry, "" if none (stated by `LastEntryWins`, `OtherEntriesIgnored`, `MissingKeyIsEmpty` and `LastValueFromEntry`) |
| AutoIPScan.DeviceInfoOf | common/3pp/sickapi/src/VisionaryAutoIPScan.cpp:143-187 | `parseAutoIPXml` returns a device exactly when the MAC attribute is present and every non-attribute entry has a key and a value; the device's MAC is that attribute |
| AutoIPScan.ParseAutoIPXml | common/3pp/sickapi/src/VisionaryAutoIPScan.cpp:143-187 | yields a device exactly when the MAC attribute is present and no entry lacks its key or value. The device's MAC is that attribute; its name, address, port and subnet are the last `DeviceType`, `IPAddress`, `HostPortNo` and `IPMask` values, "" where absent |
| AutoIPScan.LastEntryWins | common/3pp/sickapi/src/VisionaryAutoIPScan.cpp:159-177 | a later entry with a recognised key overrides earlier ones |
| AutoIPScan.OtherEntriesIgnored | common/3pp/sickapi/src/VisionaryAutoIPScan.cpp:155 | entries with other keys and the `<xmlattr>` node change no selected value |
| AutoIPScan.MissingKeyIsEmpty | common/3pp/sickapi/src/VisionaryAutoIPScan.cpp:148-151 | a key no entry carries leaves the empty string |
| AutoIPScan.LastMatchWins | common/3pp/sickapi/src/VisionaryAutoIPScan.cpp:157-177 | the selected value is the value of the last entry carrying the key, whatever entries come before it or without the key after it |
| AutoIPScan.LastValueFromEntry | common/3pp/sickapi/src/VisionaryAutoIPScan.cpp:157-177 | a non-empty selected value is the value of some entry with that key |
| AutoIPScan.ReplyDatagram | common/3pp/sickapi/src/VisionaryAutoIPScan.cpp:98-116 | a reply is a 16-byte header followed by its payload |
| AutoIPScan.ClassifyReply | common/3pp/sickapi/src/VisionaryAutoIPScan.cpp:96-116 | a buffer that is not ignored is longer than 16 bytes, starts with 0x90 and echoes the telegram id, read little-endian; conversely every buffer that is longer than 16 bytes, starts with 0x90 and echoes the id is accepted, whatever its reserved bytes 1 and 14..15 hold. It is then the bytes from offset 16 of the announced big-endian size when the buffer holds them, and invalid otherwise |
| AutoIPScan.ReplyRoundTrip | common/3pp/sickapi/src/VisionaryAutoIPScan.cpp:96-118 | a reply to this scan with a non-empty payload (so longer than 16 bytes) yields exactly its payload, whatever trails it; the same reply is ignored by a scan with any other id. A reply with an empty payload is 16 bytes and is ignored |
| AutoIPScan.TruncatedReplyInvalid | common/3pp/sickapi/src/VisionaryAutoIPScan.cpp:116-136 | a reply cut to more than 16 bytes but fewer than 16 + its announced payload size is reported invalid and not used. A cut of 16 bytes or fewer is ignored without being reported |
| AutoIPScan.RejectedReplies | common/3pp/sickapi/src/VisionaryAutoIPScan.cpp:96-102 | a buffer of 16 bytes or fewer, or one not starting with 0x90, is ignored |
| AutoIPScan.Received | common/3pp/sickapi/src/VisionaryAutoIPScan.cpp:96 | the buffer `recv` fills holds at most 1400 bytes, is a prefix of the datagram, and is the whole datagram when it fits (under the `recv` assumption in Left out) |
| AutoIPScan.DevicesOf | common/3pp/sickapi/src/VisionaryAutoIPScan.cpp:96-136 | what one received buffer adds to `deviceList`: the device of its payload when `ClassifyReply` gives a payload that reads as XML and parses, nothing otherwise (stated by `HandleReply` and the `Collect` lemmas) |
| AutoIPScan.HandleReply | common/3pp/sickapi/src/VisionaryAutoIPScan.cpp:96-136 | the cursor walk over one buffer gives the device of `ClassifyReply`'s payload, if it parses, and at most one device. A parse failure drops only that reply |
| AutoIPScan.DoScan | common/3pp/sickapi/src/VisionaryAutoIPScan.cpp:40-141 | if the socket does not connect, nothing is sent and the list is empty. Otherwise the discover packet is sent once and the list is the datagrams' devices in arrival order, each datagram truncated to 1400 bytes |
| AutoIPScan.Collect | common/3pp/sickapi/src/VisionaryAutoIPScan.cpp:46-141 | the device list after the given datagrams, in arrival order (stated by `CollectAppend`, `CollectOnlyGrows`, `CollectAtMostOnePerDatagram` and `OnlyOwnRepliesCount`) |
| AutoIPScan.CollectAppend | common/3pp/sickapi/src/VisionaryAutoIPScan.cpp:122 | each datagram's device is appended after those of earlier datagrams |
| AutoIPScan.CollectOnlyGrows | common/3pp/sickapi/src/VisionaryAutoIPScan.cpp:46 | the device list only grows: the list after some datagrams is a prefix of the list after more |
| AutoIPScan.CollectAtMostOnePerDatagram | common/3pp/sickapi/src/VisionaryAutoIPScan.cpp:121-122 | each datagram adds at most one device, so the list is never longer than the datagram sequence |
| AutoIPScan.OwnReplies | common/3pp/sickapi/src/VisionaryAutoIPScan.cpp:107-113 | the filtered datagrams all echo this scan's telegram id |
| AutoIPScan.OnlyOwnRepliesCount | common/3pp/sickapi/src/VisionaryAutoIPScan.cpp:107-113 | a scan's result equals its result over only the datagrams echoing its id: interleaved replies to other scans contribute nothing |
| AutoIPScan.ScansDoNotShareReplies | common/3pp/sickapi/src/VisionaryAutoIPScan.cpp:110-113 | replies echoing one telegram id give a scan with another id no device |

## Left out

- `FrameGrabberBase.cpp` (the acquisition thread, its mutex/condition-variable handoff and reconnect backoff): concurrency, not sequential logic.
- The image filters, the filter factories, the filter worker thread and the GUI frame conversion: they consume frames and never touch wire bytes.
- `ITransport`, `TcpSocket`, `UdpSocket` internals are not part of this model. The stream is the scripted `StreamTransport`. The UDP socket is the `connected` flag plus the list of datagrams received.
- Wall-clock timeout of `doScan`: the datagrams that arrive before the deadline are given as a finite sequence, so the model says nothing about how many arrive.
- `std::random_device` seeding: the telegram id is a parameter.
- Boost `read_xml` and `property_tree`: the XML is given already read, as a `NetScanResult` (MAC attribute and child entries), through the `readXml` parameter. The model does not capture its exceptions beyond "`None` drops the reply".
- Logging (`spdlog`, `std::cerr`) for the invalid-packet case: the reply is dropped, and nothing else is modelled.
- `CoLaCommand` is represented by its byte buffer for the input of `Send`. On the output it is either `Command(buffer)` or `NetworkErrorCommand`. The class's own parsing of the buffer is not part of this model.
- CoLa2.CoLa2ProtocolHandler.Send: `cmd` must be non-empty. The source calls `buffer.erase(buffer.begin())` on the command buffer (line 141), which is undefined behaviour on an empty vector.
- CoLa2.OpenSessionReply: a reply body of 4 or 5 bytes makes the handshake fail after the body is read. The source instead reads the session id past the body (see Findings).
- CoLa2.CoLa2ProtocolHandler.OpenSession: follows `CoLa2.OpenSessionReply`, so a reply body of 4 or 5 bytes makes the handshake fail where the source reads the session id past the body (see Findings).
- AutoIPScan.DoScan: `UdpSocket` is not part of this model, and `recv(receiveBuffer, 1400)` is assumed to leave in the buffer exactly the bytes received, at most 1400, and to return their count. Under that assumption the return-value test at line 96 and the size test at line 116 are both made on `AutoIPScan.Received`, in `AutoIPScan.HandleReply` and `AutoIPScan.ClassifyReply`. A datagram longer than 1400 bytes is assumed cut to its first 1400 bytes and then processed.
- AutoIPScan.HandleReply: under a different `recv` the model is wrong in two ways. A socket that fails on an oversized datagram (Winsock reports `WSAEMSGSIZE` and returns -1) would ignore it rather than truncate it. A `recv` that sized the buffer to 1400 whatever arrived would make line 116 compare against 1400, and `AutoIPScan.TruncatedReplyInvalid` would then not describe the program.
- The whole-handler "only `m_ReqID` and `m_sessionID` change" property is carried by the `modifies` clauses. The transport's `sent` and `input` are the only other state the methods may change.

## Findings

| source | as written | input that shows it | evidently intended | confidence | as-written member | corrected member |
|---|---|---|---|---|---|---|
| common/3pp/sickapi/src/CoLa2ProtocolHandler.cpp:78-84 | `openSession` rejects only lengths below 4, then reads the session id from body offsets 2..5 | reply `02 02 02 02 00 00 00 04 4F 41 00 00`: the test passes with a 4-byte body, and the id read runs 2 bytes past it | reject a body shorter than 6 bytes, the end of the session id | not executed; high that the read leaves the body for lengths 4 and 5 | CoLa2.AsWrittenReadsPastBody | CoLa2.CorrectedSessionIdWithinBody |

Notes on the source:

- `send` drops the 8 echoed bytes only when the body is longer than 8. A body of exactly 8 bytes is passed up as `'s'` followed by those 8 bytes (`CoLa2.ShortBodyKept`). This is modelled as written.
- The telegram id is written with `memcpy` in host order but read back little-endian. On a big-endian host a scan would therefore reject the replies to it unless the id's four bytes read the same reversed (`AutoIPScan.BigEndianHostEcho`). The file only compiles under MSVC (`_MSC_VER`), whose targets are little-endian, so this is not listed as a finding.
- Every header carries the current session id, so a repeated `openSession` sends the session id of the previous session (`CoLa2.OpenSessionFrameRoundTrip`).
- `openSession` does not check how many bytes its send wrote: it goes on to read the reply whatever the count.
- The size test of the scan is `> 16`, so a datagram of exactly 16 bytes is ignored (`AutoIPScan.RejectedReplies`).
