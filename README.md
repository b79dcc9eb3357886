# networks-course-homeworks, modelled in Dafny

This project models the protocol and bookkeeping logic of a networks course's homework programs:

- **`lab08/reliable_udp/reliable_udp.py`** (modules `RudpFrame`, `RudpArq`, `RudpSession`, `RudpHost` and `RudpProtocol`) is a stop-and-wait, alternating-bit transfer of one file over UDP. It has three layers:
  - The 6-byte `!BBI` frame header and the packet codec.
  - The retry loops `safe_send_packet` and `safe_receive_packet` around the `packet_id` bit.
  - The SOF/DATA/EOF framing of a whole file, and the server and client conversations.

  The socket becomes three fields: the events still to arrive (a frame or a timeout), a loss oracle with one flag per send, and the datagrams sent. The checksum hash and the DNS lookup are function parameters. `RudpProtocol.Protocol` is a class whose methods update these fields. Each method is proved equal to a recursive function that specifies it, and the protocol properties are proved about those functions.
- **`lab13/crc.py`** (`Crc32`): table-driven CRC-32 with the reflected polynomial 0xEDB88320, the data+CRC framing, and single-bit error injection.
- **`lab08/checksum.py`** (`Checksum16`): a 16-bit complement checksum. Its "end-around carry" shifts by 0xFFFF, so the carry is always 0 and the sum is plain addition modulo 2^16. The model follows the code in this.
- **`lab11/traceroute.py`** (`Traceroute`): the RFC 1071 Internet checksum with little-endian words, the echo request, and the TTL and packet-id bookkeeping of `trace_route`.
- **`lab10/ping.py`** (`Ping`): the checksum of `Ping`, its echo request, and how `receive_ping` classifies replies (RFC 792 types 0, 3 and 11).
- **`lab12/rip.py`** (`Rip`): `Router` objects with a routing table updated in place, and `simulate_rip` run to its fixpoint.
- **`lab14/app.py`** (`Shop`): users, bearer tokens and products with owners and visibility. The routes are methods of a `Store` class.
- **`lab02/task_1/app.py`** (`Catalog`): the open product catalogue, as a `Catalog` class.
- **`lab04/proxyserver.py`** (`Proxy`): the fixed HTTP responses, the 200 response, the target-URL derivation from the request line and `Referer`, and the relaying of the upstream answer.
- **`lab03/server/server.py`** (`FileServer`): the file name taken from the request line, and the 200 or 404 response.

Shared modules model Python built-ins the programs rely on:
- `Text`: `str`, `int`, `find`, `split`, `join`, `rstrip` and `split(maxsplit=1)`.
- `Utf8`: `str.encode('utf-8')` and strict `bytes.decode('utf-8')`.
- `Bytes`: 4-byte big-endian conversion.
- `Exceptions`: the Python exceptions a path can raise, as `Result` values.
- `Paths`: `pathlib` paths: parsing into a root and components, `str`, `/`, `name` and `parent`.
- `DictOrder`: a `dict` with increasing integer keys, and the insertion order of its keys.

## Model

| member | source | states |
|---|---|---|
| Bytes.FromBigEndian32 | lab08/reliable_udp/reliable_udp.py:48 | unpacking `!I` gives a value below 2^32 |
| Bytes.BigEndian32 | lab08/reliable_udp/reliable_udp.py:44 | packing `!I` gives four bytes that unpack to the same value |
| Bytes.BigEndian32Inverse | lab08/reliable_udp/reliable_udp.py:43-49 | any four bytes unpacked and packed again are the same bytes |
| RudpFrame.Checksum | lab08/reliable_udp/reliable_udp.py:59-61 | `hash & 0xFFFF_FFFF` is below 2^32 and congruent to the hash modulo 2^32, negative hashes included |
| RudpFrame.NewPacket | lab08/reliable_udp/reliable_udp.py:66-74 | the constructor succeeds iff the payload is at most 58 bytes, the identifier is 0 or 1 and the tag is 1..5; otherwise `ValueError`; on success the fields are as given and the stored checksum is the payload's |
| RudpFrame.CheckChecksum | lab08/reliable_udp/reliable_udp.py:63-64 | `check_checksum` is False on every constructed packet, because it compares with `!=` |
| RudpFrame.HeaderToBytes | lab08/reliable_udp/reliable_udp.py:43-44 | the header is 6 bytes: identifier, tag, then the checksum big-endian |
| RudpFrame.HeaderFromBytes | lab08/reliable_udp/reliable_udp.py:46-49 | 6 bytes unpack to a header whose identifier and tag are the first two bytes |
| RudpFrame.HeaderRoundTrip | lab08/reliable_udp/reliable_udp.py:43-49 | unpacking a packed header gives the header back |
| RudpFrame.ToBytes | lab08/reliable_udp/reliable_udp.py:76-79 | the frame is the packed header followed by the payload, at most 64 bytes |
| RudpFrame.FromBytes | lab08/reliable_udp/reliable_udp.py:81-91 | decoding succeeds iff the frame has 6 to 64 bytes, identifier 0/1 and a valid tag; the result keeps the identifier, tag and payload, and its checksum is recomputed; otherwise `ValueError` |
| RudpFrame.FromBytesToBytes | lab08/reliable_udp/reliable_udp.py:76-91 | decoding an encoded packet gives the packet back |
| RudpFrame.ToBytesFromBytes | lab08/reliable_udp/reliable_udp.py:76-91 | re-encoding a decoded frame gives the frame with its checksum bytes replaced by the recomputed checksum |
| RudpFrame.FromBytesIgnoresWireChecksum | lab08/reliable_udp/reliable_udp.py:88-91 | the four checksum bytes of a frame never change what it decodes to |
| RudpArq.AddressesEq | lab08/reliable_udp/reliable_udp.py:17-18 | `addresses_eq` is False for an address compared with itself and True whenever the ports differ: it reports a difference |
| RudpArq.Flip | lab08/reliable_udp/reliable_udp.py:102-103 | `^= 1` keeps a bit a bit and always changes it |
| RudpArq.CheckPacketOfConstructed | lab08/reliable_udp/reliable_udp.py:106-109 | on a constructed packet, `check_packet` holds iff its identifier is the expected bit |
| RudpArq.CheckPacket | lab08/reliable_udp/reliable_udp.py:106-109 | a packet that passes with a valid bit and at most 58 bytes of data is one the constructor builds; a constructed packet with the expected bit passes |
| RudpArq.Control | lab08/reliable_udp/reliable_udp.py:164 | `Packet(id, ACK)` / `Packet(id, ERROR)` has that id and tag and an empty payload |
| RudpArq.SendPacket | lab08/reliable_udp/reliable_udp.py:111-115 | one loss flag is used up; the frame goes on the wire iff it is not lost; nothing else is sent |
| RudpArq.Truncate | lab08/reliable_udp/reliable_udp.py:146 | `recvfrom(64)` keeps a prefix of at most 64 bytes, and the whole of a shorter datagram |
| RudpArq.Receive | lab08/reliable_udp/reliable_udp.py:144-151 | one event is read; a timeout gives nothing; a decoded frame is a constructed packet; a bad frame gives the uncaught `ValueError` |
| RudpArq.SendRound | lab08/reliable_udp/reliable_udp.py:118-141 | one attempt consumes one event and goes round again iff that event is a timeout or a reply it skips; it succeeds iff the event is an ACK of the current bit from the peer; it flips the bit only on success |
| RudpArq.SendRoundWire | lab08/reliable_udp/reliable_udp.py:118-141 | one attempt appends to the wire at most its packet and, on a "Wrong protocol" exit only, one final ERROR frame to the peer |
| RudpArq.SafeSend | lab08/reliable_udp/reliable_udp.py:117-142 | the bit stays 0 or 1; each branch of the loop is stated by `SafeSendFirstReply`, and the runs that succeed or give up by `SafeSendAckAfterSkips` and `SafeSendGivesUp` |
| RudpArq.ReceiveRound | lab08/reliable_udp/reliable_udp.py:154-176 | one attempt consumes one event and goes round again iff it is a timeout or a frame with the other bit; it delivers iff the frame decodes with the expected bit, and then delivers that packet with its sender; it flips only on delivery and fails only with `ValueError`, since a decoded packet fails `check_packet` only by its bit and the "Wrong protocol" branch is never reached |
| RudpArq.ReceiveRoundWire | lab08/reliable_udp/reliable_udp.py:154-176 | one attempt appends at most one ACK, to the sender of the frame it read, carrying the other bit when it goes round again and the current bit on delivery |
| RudpArq.SafeReceive | lab08/reliable_udp/reliable_udp.py:153-177 | the bit stays 0 or 1, and a delivery reads at least one event; each branch is stated by `SafeReceiveFirstReply`, and the runs that deliver or give up by `SafeReceiveFirstExpected` and `SafeReceiveGivesUp` |
| RudpArq.SafeSendFlipsOnce | lab08/reliable_udp/reliable_udp.py:117-142 | the bit flips exactly once on success and never on failure |
| RudpArq.SafeSendBounded | lab08/reliable_udp/reliable_udp.py:117-142 | a send reads at most `repeats` events from the front, and with none to read ends in `ConnectionError` (after `repeats` skipped events: `SafeSendGivesUp`) |
| RudpArq.SafeSendWire | lab08/reliable_udp/reliable_udp.py:117-142 | a send transmits only copies of its packet, at most one per round, plus at most one final ERROR when it raises "Wrong protocol" |
| RudpArq.SafeSendSuccessMeansAck | lab08/reliable_udp/reliable_udp.py:127-135 | success means the last event read was an ACK of the current bit from the peer, within `repeats` events, and every event before it was a timeout or a reply with the other bit |
| RudpArq.SafeSendAckAfterSkips | lab08/reliable_udp/reliable_udp.py:120-135 | conversely, timeouts and other-bit replies followed within `repeats` rounds by an ACK of the current bit from the peer make the send succeed there, flipping the bit |
| RudpArq.SafeSendGivesUp | lab08/reliable_udp/reliable_udp.py:120-142 | `repeats` rounds of timeouts and other-bit replies end in `ConnectionError` with the bit unchanged |
| RudpArq.SafeSendSkip | lab08/reliable_udp/reliable_udp.py:120-136 | a timeout or a skipped reply costs one round: the send goes on with one round fewer, the same bit and the rest of the inbox |
| RudpArq.SafeSendAck | lab08/reliable_udp/reliable_udp.py:127-135 | an ACK of the current bit from the peer ends the send at once with success, the bit flipped and that event consumed |
| RudpArq.SafeSendFirstReply | lab08/reliable_udp/reliable_udp.py:120-141 | by the first event read: skip and retry; ACK of the bit from the peer succeeds; an undecodable frame raises its `ValueError`; a reply from an address `addresses_eq` calls different raises "Multiple connections are not implemented"; ERROR of the bit raises "Wrong protocol" with no ERROR sent; any other tag of the bit sends one ERROR and raises "Wrong protocol" |
| RudpArq.SafeReceiveFlipsOnce | lab08/reliable_udp/reliable_udp.py:153-177 | the bit flips exactly once on delivery and never otherwise |
| RudpArq.SafeReceiveFailures | lab08/reliable_udp/reliable_udp.py:153-177 | the "Wrong protocol" branch is unreachable: a receive fails only with `ConnectionError` or a decoding `ValueError` |
| RudpArq.SafeReceiveDelivers | lab08/reliable_udp/reliable_udp.py:153-177 | a delivered packet is the last event read, decoded, from its sender, with the expected bit; at most `repeats` events are read |
| RudpArq.SafeReceiveConsumes | lab08/reliable_udp/reliable_udp.py:153-177 | the loop reads a suffix of the inbox away, at most `repeats` events, and an empty inbox gives `ConnectionError` |
| RudpArq.SafeReceiveDeliversFrame | lab08/reliable_udp/reliable_udp.py:153-177 | a delivered packet is the decoding of the last frame read, from its sender, with the expected bit |
| RudpArq.SafeReceiveSkipsBefore | lab08/reliable_udp/reliable_udp.py:156-172 | every event read before the delivered packet was a timeout or a frame with the other bit, so the delivered packet is the first frame of the expected bit |
| RudpArq.SafeReceiveFirstExpected | lab08/reliable_udp/reliable_udp.py:156-167 | conversely, timeouts and duplicates followed within `repeats` attempts by a frame of the expected bit make that frame the one delivered, with its sender, and flip the bit |
| RudpArq.SafeReceiveGivesUp | lab08/reliable_udp/reliable_udp.py:156-177 | `repeats` attempts reading only timeouts and duplicates end in `ConnectionError` with the bit unchanged |
| RudpArq.SafeReceiveSkip | lab08/reliable_udp/reliable_udp.py:156-172 | a timeout or a duplicate costs one attempt: the receive goes on with one attempt fewer, the same bit and the rest of the inbox |
| RudpArq.SafeReceiveExpected | lab08/reliable_udp/reliable_udp.py:160-167 | a frame with the expected bit is delivered at once, decoded and with its sender, the bit flipped and that event consumed |
| RudpArq.SafeReceiveFirstReply | lab08/reliable_udp/reliable_udp.py:156-172 | by the first event read: a timeout retries; a duplicate is ACKed with its own bit to its sender and retried; a frame of the expected bit is ACKed to its sender and delivered; an undecodable frame raises its `ValueError` |
| RudpArq.SafeReceiveWire | lab08/reliable_udp/reliable_udp.py:153-177 | a receive transmits only ACKs: of the other bit, each to the sender of a frame it read, and of the expected bit to the sender of the delivered packet |
| RudpSession.ChunksSplitFile | lab08/reliable_udp/reliable_udp.py:187-189 | the DATA payloads concatenate to the file; each is 1..58 bytes and all but the last exactly 58 |
| RudpSession.DataParts | lab08/reliable_udp/reliable_udp.py:187-189 | one DATA part per chunk, in order |
| RudpSession.SendPart | lab08/reliable_udp/reliable_udp.py:180-182 | the bit flips iff the part was delivered |
| RudpSession.SendParts | lab08/reliable_udp/reliable_udp.py:184-191 | the bit stays 0 or 1 |
| RudpSession.ChunksFrom | lab08/reliable_udp/reliable_udp.py:187 | the next read from a position is the next chunk of at most 58 bytes |
| RudpSession.SendPartsCons | lab08/reliable_udp/reliable_udp.py:184-191 | the parts go one after another, and the first failure ends the file |
| RudpSession.SendPartsParity | lab08/reliable_udp/reliable_udp.py:179-191 | after a whole file the bit is flipped iff the file had an odd number of packets |
| RudpSession.SendFileLongName | lab08/reliable_udp/reliable_udp.py:186 | a name over 58 UTF-8 bytes raises `ValueError` before anything is sent |
| RudpSession.SendFile | lab08/reliable_udp/reliable_udp.py:179-191 | a file that cannot be opened sends nothing and raises its error; a file delivered whole leaves the bit flipped iff it had an odd number of chunks; the bit stays 0 or 1 |
| RudpSession.FilePartsCount | lab08/reliable_udp/reliable_udp.py:184-191 | a file takes SOF, one DATA per started 58-byte chunk, and EOF |
| RudpSession.SendError | lab08/reliable_udp/reliable_udp.py:205 | sending ERROR keeps the bit and the unread events |
| RudpSession.ReceiveTurn | lab08/reliable_udp/reliable_udp.py:196-216 | an exception from `safe_receive_packet` ends the file with that exception; only a first SOF or DATA after SOF is accepted, and then from the receive's own state; a stop keeps the bit, only adds to the wire, and succeeds iff it ends on EOF |
| RudpSession.ReceiveTurnCases | lab08/reliable_udp/reliable_udp.py:198-217 | a packet from an address `addresses_eq` calls different ends the file with "Multiple connections are not supported"; ERROR ends it with "Wrong protocol"; a second SOF or DATA before SOF sends one ERROR of the current bit and ends it with `RuntimeError`; EOF ends it with success; another tag with `ValueError`; only a first SOF or DATA after SOF is accepted |
| RudpSession.ReceiveFile | lab08/reliable_udp/reliable_udp.py:193-218 | the bit stays 0 or 1 |
| RudpSession.ReceiveFileFramed | lab08/reliable_udp/reliable_udp.py:196-217 | the accepted packets are well framed: at most one SOF, DATA only after SOF, nothing after EOF |
| RudpSession.ReceiveFileSucceeds | lab08/reliable_udp/reliable_udp.py:196-217 | `receive_file` succeeds iff the last accepted packet is EOF |
| RudpSession.ReceiveFileWrites | lab08/reliable_udp/reliable_udp.py:208-212 | the file holds exactly the DATA payloads accepted, in arrival order |
| RudpSession.ReceiveFileAlternates | lab08/reliable_udp/reliable_udp.py:196-217 | accepted packets carry alternating bits, starting with the engine's |
| RudpSession.ReceiveFileFinalBit | lab08/reliable_udp/reliable_udp.py:196-217 | after success the bit is flipped past the last accepted packet |
| RudpSession.ReceiveBit | lab08/reliable_udp/reliable_udp.py:162-167 | a delivered packet carries the engine's bit, and the bit is then flipped |
| RudpHost.ReadFile | lab08/reliable_udp/reliable_udp.py:183 | `open(path, "rb")` gives the file's bytes iff the path is a regular file and not a directory; a directory (a listed one, `.`, `/` or a path ending in `..`) raises "Is a directory", a missing file "No such file or directory" |
| RudpHost.OpenForWriting | lab08/reliable_udp/reliable_udp.py:194 | `open(path, "wb")` succeeds iff the parent is a directory and the path is not; a missing parent raises "No such file or directory", a directory "Is a directory" |
| RudpHost.CheckFilenameHasNoSeparator | lab08/reliable_udp/reliable_udp.py:220-223 | an accepted name has no `/` or `\`; other than `.` it is a single component and its own `Path.name` |
| RudpHost.CheckFilename | lab08/reliable_udp/reliable_udp.py:220-223 | an accepted name is non-empty and has no `/` or `\`; `.` and `..` are accepted |
| RudpHost.CheckFilenameAcceptsDots | lab08/reliable_udp/reliable_udp.py:220-240 | `.` and `..` pass the name check; joined to the save directory `.` names the save directory itself and `..` always names a directory |
| RudpHost.ReceiveInto | lab08/reliable_udp/reliable_udp.py:193-218 | when the file cannot be opened for writing nothing is received or written and the open's error is the result; otherwise the file under that path ends up holding what the session wrote, however it ends |
| RudpHost.ServerSession | lab08/reliable_udp/reliable_udp.py:232-244 | the bit stays 0 or 1 |
| RudpHost.ClientSession | lab08/reliable_udp/reliable_udp.py:278-284 | the bit stays 0 or 1 |
| RudpHost.ServerAcksWithZero | lab08/reliable_udp/reliable_udp.py:232-239 | the server's first transmission is an ACK with bit 0, whatever the SOF's bit; a bad name ends in `ValueError` with nothing written |
| RudpHost.ServerSessionAfterAck | lab08/reliable_udp/reliable_udp.py:232-239 | the server's ACK with bit 0 stays on the wire whatever follows; a name that does not decode or fails the check ends in `ValueError` right after it, with the files unchanged |
| RudpHost.ServerEchoesWorkingDirectoryFile | lab08/reliable_udp/reliable_udp.py:237-243 | with a save directory whose `Path` value is not `Path(".")`, once the upload is received the echo sends the file stored under `Path(filename)` as it was before the conversation, not the saved upload; the files are those the upload left |
| RudpHost.UploadTargetDiffers | lab08/reliable_udp/reliable_udp.py:240-243 | for an accepted name, the upload's path `save_dir / filename` and the echoed path `Path(filename)` are the same path iff the save directory is `Path(".")` |
| RudpHost.ServerEchoesUpload | lab08/reliable_udp/reliable_udp.py:240-243 | with `Path(".")` as save directory, once the upload is received the echo sends back exactly the bytes just received |
| RudpHost.ReceiveFileKeepsWire | lab08/reliable_udp/reliable_udp.py:193-218 | receiving only appends to what was sent |
| RudpHost.SendFileKeepsWire | lab08/reliable_udp/reliable_udp.py:179-191 | sending a file only appends to what was sent |
| RudpHost.SendPartsKeepWire | lab08/reliable_udp/reliable_udp.py:184-191 | sending parts only appends to what was sent |
| RudpProtocol.Protocol.constructor | lab08/reliable_udp/reliable_udp.py:95-100 | a fresh socket and `packet_id` 0 |
| RudpProtocol.Protocol.FlipPacketId | lab08/reliable_udp/reliable_udp.py:102-104 | the bit is flipped and nothing else changes |
| RudpProtocol.Protocol.SendPacket | lab08/reliable_udp/reliable_udp.py:111-115 | the socket moves as `RudpArq.SendPacket` says; the bit and the files stay |
| RudpProtocol.Protocol.ReceivePacket | lab08/reliable_udp/reliable_udp.py:144-151 | the result and the socket are as `RudpArq.Receive` says |
| RudpProtocol.Protocol.SendOnce | lab08/reliable_udp/reliable_udp.py:118-141 | one loop pass moves the state as `RudpArq.SendRound` says |
| RudpProtocol.Protocol.SafeSendPacket | lab08/reliable_udp/reliable_udp.py:117-142 | result and state are those of `RudpArq.SafeSend`, whose properties are the lemmas above |
| RudpProtocol.Protocol.SafeReceivePacket | lab08/reliable_udp/reliable_udp.py:153-177 | result and state are those of `RudpArq.SafeReceive` |
| RudpProtocol.Protocol.SendPart | lab08/reliable_udp/reliable_udp.py:180-182 | result and state are those of `RudpSession.SendPart` |
| RudpProtocol.Protocol.SendFile | lab08/reliable_udp/reliable_udp.py:179-191 | result and state are those of `RudpHost.SendFrom`, and the files stay |
| RudpProtocol.Protocol.SendContent | lab08/reliable_udp/reliable_udp.py:187-191 | the read loop sends the DATA chunks and then an empty EOF |
| RudpProtocol.Protocol.Judge | lab08/reliable_udp/reliable_udp.py:198-217 | the verdict on one received packet matches `RudpSession.ReceiveTurn`, and only DATA appends to the file |
| RudpProtocol.Protocol.ReceiveStep | lab08/reliable_udp/reliable_udp.py:197-217 | one loop pass is one step of `RudpSession.ReceiveFile` and uses up an event |
| RudpProtocol.Protocol.ReceiveFile | lab08/reliable_udp/reliable_udp.py:193-218 | result, state and files are those of `RudpHost.ReceiveInto` |
| RudpProtocol.Protocol.ReceiveLoop | lab08/reliable_udp/reliable_udp.py:196-217 | the loop appends what `RudpSession.ReceiveFile` writes and ends in its result and state |
| RudpProtocol.Protocol.HandleSofPacket | lab08/reliable_udp/reliable_udp.py:232-244 | result, state and files are those of `RudpHost.ServerSession` |
| RudpProtocol.Protocol.Send | lab08/reliable_udp/reliable_udp.py:278-284 | result, state and files are those of `RudpHost.ClientSession` |
| Crc32.TableAtEntry | lab13/crc.py:5-13 | the table entry of a byte-sized index is that index after eight steps |
| Crc32.EightShifts | lab13/crc.py:8-12 | the inner loop's eight reflected shift-and-xor rounds give the table entry |
| Crc32.UpdateByEntry | lab13/crc.py:17 | the table lookup and the shift compute one byte step |
| Crc32.RegisterSnoc | lab13/crc.py:16-17 | each byte advances the register by one step |
| Crc32.Crc | lab13/crc.py:4-19 | the CRC of no data is 0 |
| Crc32.EntryTopByteInjective | lab13/crc.py:5-13 | different table indices have entries that differ in their top byte |
| Crc32.UpdateInjective | lab13/crc.py:17 | a byte step never maps two registers to one |
| Crc32.UpdateSeparatesBytes | lab13/crc.py:17 | from the same register, different bytes give different registers |
| Crc32.CrcDetectsChangedByte | lab13/crc.py:4-19 | changing any one byte changes the CRC |
| Crc32.RegisterSeparates | lab13/crc.py:15-17 | registers differ from the changed byte on |
| Crc32.CheckValue | lab13/crc.py:4-19 | the CRC of "123456789" is 0xCBF43926 |
| Crc32.BuildTable | lab13/crc.py:5-13 | the array filled is the 256-entry table |
| Crc32.UpdateStep | lab13/crc.py:17 | one iteration of the byte loop is a byte step |
| Crc32.ComputeCrc | lab13/crc.py:4-19 | the nested loops compute `Crc(data)` |
| Crc32.NewPacket | lab13/crc.py:23-28 | a packet holds its data and the data's CRC |
| Crc32.BigEndian | lab13/crc.py:31 | `to_bytes(4, 'big')` gives four bytes |
| Crc32.FromBigEndian | lab13/crc.py:35 | reading four bytes back is the inverse of writing them |
| Crc32.FromBigEndianInverse | lab13/crc.py:31-35 | writing a CRC and reading it back gives it again |
| Crc32.Encode | lab13/crc.py:30-31 | the encoding is the data and then the CRC, big-endian, 4 bytes longer |
| Crc32.VerifyEncoded | lab13/crc.py:30-37 | every encoded packet passes `verify_crc` |
| Crc32.VerifyCrc | lab13/crc.py:33-37 | on four or more bytes, the check passes iff the bytes are the encoding of the packet of all but the last four; on fewer, iff every byte is zero |
| Crc32.ShortTrailer | lab13/crc.py:35 | fewer than four bytes read big-endian are zero iff every byte is zero |
| Crc32.Mask | lab13/crc.py:42 | `1 << bit_index` is non-zero |
| Crc32.WithError | lab13/crc.py:40-43 | exactly bit k of byte i is flipped; length and other bytes stay |
| Crc32.MakeError | lab13/crc.py:40-43 | a negative index counts from the end; a bad byte index is `IndexError` and a bad bit index `ValueError`; otherwise the one-bit flip |
| Crc32.WithErrorTwice | lab13/crc.py:40-43 | flipping the same bit twice restores the packet |
| Crc32.SingleBitErrorDetected | lab13/crc.py:30-43 | one flipped bit anywhere in an encoded packet makes `verify_crc` fail |
| Checksum16.ShiftRight | lab08/checksum.py:9 | `x >> n` is at most `x` |
| Checksum16.ShiftRightVanishes | lab08/checksum.py:9 | shifting a 17-bit sum by 0xFFFF leaves 0, so the carry is always 0 |
| Checksum16.Uint16Add | lab08/checksum.py:4-12 | the result is in 0..0xFFFF and is the sum modulo 2^16 |
| Checksum16.Uint16Neg | lab08/checksum.py:15-21 | the result is in range and adds to `a` to give 0xFFFF |
| Checksum16.Word | lab08/checksum.py:27 | each word is 16 bits: two bytes big-endian, or a lone last byte |
| Checksum16.Accumulate | lab08/checksum.py:26-28 | the running sum stays in 16 bits |
| Checksum16.AccumulateAdds | lab08/checksum.py:26-28 | the loop adds the word total modulo 2^16 |
| Checksum16.Checksum | lab08/checksum.py:24-30 | the checksum is 16 bits |
| Checksum16.ChecksumComplementsTotal | lab08/checksum.py:24-30 | the checksum is 0xFFFF minus the word total modulo 2^16 |
| Checksum16.Verifies | lab08/checksum.py:33-38 | `verify_checksum` accepts exactly the value `calculate_checksum` computes |
| Checksum16.AccumulateReachesMask | lab08/checksum.py:33-38 | the running sum started at the received value ends all ones iff that value is the checksum |
| Checksum16.ChecksumVerifies | lab08/checksum.py:43-61 | a checksum verifies its data; empty data gives 0xFFFF, one byte gives 0xFFFF minus it |
| Checksum16.WordTotalUpdate | lab08/checksum.py:27 | changing one byte changes the total by its change times 256 or 1 |
| Checksum16.SingleByteChangeDetected | lab08/checksum.py:33-38 | changing any one byte makes the old checksum fail |
| Checksum16.ChangedLastByteFails | lab08/checksum.py:48-51 | the checksum of 01 02 03 04 is 0xFBF9, and 01 02 03 05 fails against it |
| Checksum16.CalculateChecksum | lab08/checksum.py:24-30 | the loop computes `Checksum(data)` |
| Checksum16.VerifyChecksum | lab08/checksum.py:33-38 | an out-of-range checksum with data is an `AssertionError`; with no data the answer is whether it is 0xFFFF; otherwise the answer is `Verifies` |
| Traceroute.Word | lab11/traceroute.py:18 | a little-endian word is below 2^16 |
| Traceroute.MaxCount | lab11/traceroute.py:14 | `max_count` is the length rounded down to even |
| Traceroute.Tail | lab11/traceroute.py:23-25 | an odd last byte counts at its plain value |
| Traceroute.RunningSum | lab11/traceroute.py:17-21 | the sum stays below 2^32 |
| Traceroute.Swap | lab11/traceroute.py:31 | the byte swap stays in 16 bits |
| Traceroute.Complement | lab11/traceroute.py:29-30 | `~x & 0xffff` stays in 16 bits |
| Traceroute.Checksum | lab11/traceroute.py:12-32 | the checksum is in 0..0xFFFF |
| Traceroute.CalculateChecksum | lab11/traceroute.py:12-32 | the loop, folds, complement and swap compute `Checksum(s)` |
| Traceroute.SumWords | lab11/traceroute.py:13-25 | the loop's sum is the reduced word sum plus the odd byte, modulo 2^32 |
| Traceroute.RunningSumReduces | lab11/traceroute.py:19-20 | reducing after each addition is reducing once at the end |
| Traceroute.ChecksumOfTotal | lab11/traceroute.py:12-32 | the checksum is the swapped complement of the folded total modulo 2^32 |
| Traceroute.OnesSumCongruent | lab11/traceroute.py:27-28 | the two folds keep the sum modulo 0xFFFF and give 0 only for 0 |
| Traceroute.ChecksumOfEmpty | lab11/traceroute.py:12-32 | empty input gives 0xFFFF |
| Traceroute.ChecksumComplementsOnesSum | lab11/traceroute.py:12-32 | the checksum is the swapped complement of the one's-complement sum |
| Traceroute.ChecksumOfKnownTotal | lab11/traceroute.py:12-32 | the checksum follows from a total below 2^32 |
| Traceroute.ComplementOfLowBits | lab11/traceroute.py:29-30 | `~x & 0xffff` complements the low 16 bits |
| Traceroute.PackEcho | lab11/traceroute.py:36 | the `bbHHh` echo header is 8 bytes |
| Traceroute.Htons | lab10/ping.py:41 | `htons` stays in 16 bits |
| Traceroute.CreatePacket | lab11/traceroute.py:35-40 | the request is the 8-byte header and the stamp |
| Traceroute.CreateCheckedPacket | lab10/ping.py:36-42 | an echo request with its checksum written through `htons` keeps its payload after the 8-byte header |
| Traceroute.CreatePacketChecksumSwapped | lab11/traceroute.py:35-40 | with no `htons`, the first request at the epoch checksums to 0xF609 instead of 0 |
| Traceroute.SwappedPacketBytes | lab11/traceroute.py:35-40 | at the epoch the first request's checksum field 0xF5FF is written low byte first |
| Traceroute.SwappedPacketChecksum | lab11/traceroute.py:35-40 | those sixteen bytes have 0xF5FF as their second word and checksum to 0xF609 |
| Traceroute.ZeroFieldChecksum | lab11/traceroute.py:36-38 | that request with a zero checksum field checksums to 0xF5FF |
| Traceroute.WordsOfHeader | lab11/traceroute.py:36 | the words of that request add to 10 plus the checksum field |
| Traceroute.WordsOfChangedField | lab11/traceroute.py:38-39 | rewriting the checksum field changes the word sum by that word's change |
| Traceroute.WordsBound | lab11/traceroute.py:17-21 | n words add to at most n·0xFFFF |
| Traceroute.TotalOfChangedField | lab11/traceroute.py:38-39 | rewriting the checksum field changes the total by that word's change |
| Traceroute.TotalBound | lab11/traceroute.py:17-25 | an input of at most 128 KiB totals less than 2^32 |
| Traceroute.ComplementedSum | lab11/traceroute.py:27-30 | adding the complement of the one's-complement sum makes that sum 0xFFFF |
| Traceroute.ComplementFieldVerifies | lab10/ping.py:37-42 | writing the complement into the zeroed field makes the packet's checksum 0 |
| Traceroute.CheckedPacketVerifies | lab10/ping.py:36-42 | a request built with `htons` passes the checksum test for any id, sequence and payload |
| Traceroute.SwapTwice | lab11/traceroute.py:31 | swapping twice is the identity |
| Traceroute.Unpack | lab11/traceroute.py:82 | `bbHHh` gives signed type and code and unsigned checksum and id |
| Traceroute.NextId | lab11/traceroute.py:65 | `(packet_id + 1) % 65535` is in 0..65534 |
| Traceroute.RecordedSnoc | lab11/traceroute.py:60-82 | a probe with the next id and the next arrival extends the record |
| Traceroute.ProbeOnce | lab11/traceroute.py:61-95 | a probe uses the next id and the next arrival; a short datagram is `struct.error` |
| Traceroute.RangeLength | lab11/traceroute.py:60 | `range(count)` has `count` items, and none when `count` is negative |
| Traceroute.ProbeTtl | lab11/traceroute.py:60-95 | one TTL sends `packet_count` probes, keeps the record and the TTL order, and says whether an echo reply came |
| Traceroute.NextTtl | lab11/traceroute.py:54-95 | a TTL's probes keep the order, and only the new TTL can bring an echo reply |
| Traceroute.EchoesAtTop | lab11/traceroute.py:84-87 | every echo reply came at the last TTL sent |
| Traceroute.TraceRoute | lab11/traceroute.py:43-107 | an unresolved name sends nothing; at most `max_hops` lines; TTLs ascend; the loop stops after the first TTL with an echo reply; a short datagram is `struct.error` |
| Ping.Checksum | lab10/ping.py:17-34 | an even-length input gives traceroute's checksum; an odd one `IndexError` |
| Ping.CreatePacket | lab10/ping.py:36-42 | a 200-byte request carrying the stamp whose checksum is 0; a sequence number outside `h` is `struct.error` |
| Ping.ErrorMessageRoundTrip | lab10/ping.py:82 | the type and code read back from "Error type … code …" |
| Ping.Classify | lab10/ping.py:72-82 | a matching reply always ends the wait, and fails only for an echo reply too short for the stamp |
| Ping.ClassifyDistinguishes | lab10/ping.py:72-82 | delay iff echo reply; network unreachable iff type 3 code 0; host unreachable iff type 3 code 1; any other reply's type and code are recoverable |
| Ping.FirstMatchAnswers | lab10/ping.py:59-86 | replies with other ids are skipped, and the first matching one in time answers |
| Ping.ForeignRepliesUseUpTime | lab10/ping.py:84-86 | once foreign replies use up the time, the answer is `None` |
| Ping.ForeignRepliesTimeOut | lab10/ping.py:59-86 | only foreign replies never give an answer but `None` |
| Ping.ReceivePing | lab10/ping.py:59-86 | the loop computes `Receive(events, timeout)` |
| Ping.Receive | lab10/ping.py:59-86 | the only failure is `struct.error`; any answer other than a timeout comes from a datagram carrying the ping's id |
| Rip.PutKeepsWf | lab12/rip.py:13 | assigning a key keeps each key once |
| Rip.Step | lab12/rip.py:17-21 | one pass loses no entry |
| Rip.UpdateFrom | lab12/rip.py:17-21 | the loop loses no entry |
| Rip.Router.constructor | lab12/rip.py:6-9 | no neighbours and an empty table |
| Rip.Router.AddNeighbor | lab12/rip.py:11-13 | the neighbour is appended and its direct route replaces any earlier entry |
| Rip.Router.UpdateRoutingTable | lab12/rip.py:15-24 | the table becomes `Update`, with no entry lost; the result is True iff some advertised route improved the table |
| Rip.MetricsNeverIncrease | lab12/rip.py:19-20 | no metric goes up |
| Rip.UpdateKeepsWf | lab12/rip.py:15-21 | the table stays a dictionary |
| Rip.UnadvertisedUntouched | lab12/rip.py:17-21 | destinations not advertised keep their entry or stay absent |
| Rip.AdvertisedCovered | lab12/rip.py:17-21 | each advertised destination ends at a metric no worse than advertised plus the link cost |
| Rip.WrittenViaSource | lab12/rip.py:20 | every changed entry goes through the source |
| Rip.UpdateIdempotent | lab12/rip.py:15-24 | with a fixed link cost, written entries are advertised metric plus cost, and a second update writes nothing |
| Rip.Update | lab12/rip.py:15-24 | the table stays a dictionary, no entry disappears and no metric goes up |
| Rip.WrittenAtCost | lab12/rip.py:18-20 | with a fixed link cost, a written entry is the advertised metric plus that cost |
| Rip.SimulateRip | lab12/rip.py:54-64 | neighbours stay; when the loop ends by itself no neighbour's table improves any router's |
| Rip.Pass | lab12/rip.py:61-64 | a pass that writes nothing leaves the router quiet |
| Rip.LearnFrom | lab12/rip.py:62-64 | an update that writes nothing leaves the table as it was and the neighbour unable to improve it |
| Shop.GetToken | lab14/app.py:44-54 | no header gives `None`; a failure is `Unauthorized`; a token is non-empty |
| Shop.Store.Requester | lab14/app.py:67-69 | a missing, empty or unknown token has no user; a known token gives the email it was issued for |
| Shop.BearerAccepted | lab14/app.py:48-51 | `Bearer`, whitespace and a token give that token |
| Shop.OnlyBearerAccepted | lab14/app.py:48-51 | a token comes only from a header of that shape |
| Shop.OtherHeadersRefused | lab14/app.py:48-53 | a one-word header or another scheme is `Unauthorized` |
| Shop.Store.constructor | lab14/app.py:10-13 | empty tables and the counter at 1 |
| Shop.Store.Authorize | lab14/app.py:57-68 | the request passes iff it has a known bearer token, and the requester is that token's email; otherwise `Unauthorized` |
| Shop.Store.SignUp | lab14/app.py:21-28 | a known email gets 400 and changes nothing; a new one is stored |
| Shop.Store.SignIn | lab14/app.py:32-41 | the token is recorded for the email only when the password matches; otherwise 401 |
| Shop.Store.AddProduct | lab14/app.py:72-98 | a bad header is 401; no token with `public=false` is 400; a missing field is 500; otherwise the product gets a never-used id, the requester as owner and the default `public` |
| Shop.Store.GetProduct | lab14/app.py:102-109 | a product is returned iff it exists and is public or the requester's |
| Shop.Store.UpdateProduct | lab14/app.py:114-126 | only the owner, only the fields supplied; others and the id and owner stay |
| Shop.Store.DeleteProduct | lab14/app.py:131-141 | only the owner; exactly that product goes |
| Shop.AddKeepsConsistent | lab14/app.py:88-97 | storing a product under the next id appends it to the key order, keeps every stored product under its own id, and hands out an id never handed out before |
| Shop.DeleteKeepsConsistent | lab14/app.py:140 | popping a product keeps the key order and the ids handed out |
| Shop.Store.ListProducts | lab14/app.py:145-154 | the products the requester may see, in the order added |
| Shop.VisibleExactly | lab14/app.py:149-152 | a product is listed iff stored and admitted |
| Shop.ListedIffStored | lab14/app.py:149-152 | for a store, listing shows exactly the stored products admitted |
| Shop.VisibleAscending | lab14/app.py:149-152 | listed products come in ascending id order |
| Shop.VisibleSame | lab14/app.py:145-154 | the listing depends only on the stored products |
| Shop.SignedInRoutesAgree | lab14/app.py:107-150 | for a signed-in user, get and list admit the same products |
| Shop.AnonymousRoutesDisagree | lab14/app.py:76-152 | an ownerless private product is found by get but not listed to an anonymous user |
| Catalog.Values | lab02/task_1/app.py:51 | no more products than keys, and every product listed is stored |
| DictOrder.Remove | lab02/task_1/app.py:45 | popping a key keeps exactly the other keys |
| DictOrder.AppendKeepsOrdered | lab02/task_1/app.py:14-16 | storing under a key above every stored one appends it to the key order |
| DictOrder.RemoveKeepsOrdered | lab14/app.py:140 | popping a key keeps the rest of the key order |
| DictOrder.RemoveKeepsOrder | lab02/task_1/app.py:45 | popping a key keeps the other keys ascending |
| DictOrder.DistinctCount | lab02/task_1/app.py:15-16 | ascending keys are distinct |
| Catalog.Catalog.constructor | lab02/task_1/app.py:6-7 | an empty catalogue and the counter at 1 |
| Catalog.Catalog.AddProduct | lab02/task_1/app.py:11-17 | a missing field is 500; otherwise stored under a never-used id, which is appended, and the counter grows |
| Catalog.Catalog.GetProduct | lab02/task_1/app.py:21-25 | the product, or 404 "Product not found" |
| Catalog.Catalog.UpdateProduct | lab02/task_1/app.py:29-36 | 404 for an absent id; otherwise only the fields supplied change |
| Catalog.Catalog.DeleteProduct | lab02/task_1/app.py:40-46 | 404 for an absent id; otherwise exactly that product goes and is returned |
| Catalog.Catalog.ListProducts | lab02/task_1/app.py:50-51 | every stored product once, in insertion order, and nothing else |
| Catalog.ValuesExactly | lab02/task_1/app.py:51 | `values()` holds each stored product once and nothing else |
| Catalog.ValuesMember | lab02/task_1/app.py:51 | a value is listed iff some key maps to it |
| Catalog.ValuesOfKeys | lab02/task_1/app.py:51 | one value per key |
| Proxy.OkResponseAsWritten | lab04/proxyserver.py:53-54 | the as-written 200 response is the head and at least the content |
| Proxy.OkResponse | lab04/proxyserver.py:53-54 | the corrected 200 response declares the body's length in bytes |
| Proxy.FixedResponsesNotOk | lab04/proxyserver.py:44-50 | a client never reads the 400 or 404 as a 200 |
| Proxy.ReadHead | lab04/proxyserver.py:54 | a client reads exactly the declared number of body bytes |
| Proxy.EncodeOkHead | lab04/proxyserver.py:54 | the 200 head is ASCII: its bytes are the status line, the length digits and a blank line |
| Proxy.ReadDigits | lab04/proxyserver.py:54 | the length digits and blank line frame the body |
| Proxy.ReadOk | lab04/proxyserver.py:53-54 | a page is read only from a response holding the 200 prefix, a length, the blank line and the page's bytes |
| Proxy.ReadFramed | lab04/proxyserver.py:53-54 | a body is read only behind at least one digit and the blank line |
| Proxy.OkRoundTrip | lab04/proxyserver.py:53-54 | a client reads back the content the corrected response carries |
| Proxy.AsWrittenReadsShort | lab04/proxyserver.py:53-54 | as written, a client reads only as many bytes as there are characters |
| Proxy.AsWrittenMisframes | lab04/proxyserver.py:53-54 | as written, one character from U+0080 to U+07FF cannot be read back |
| Proxy.AsciiAgrees | lab04/proxyserver.py:53-54 | for ASCII content the two forms are the same bytes |
| Proxy.WithScheme | lab04/proxyserver.py:78-79 | the URL gets a scheme, keeps its text at the end, and stays as is if it had one |
| Proxy.FirstReferer | lab04/proxyserver.py:70 | the first line holding `Referer:`, or none if no line does |
| Proxy.RefererSite | lab04/proxyserver.py:72-76 | the site ends in no `/`, CR or LF |
| Proxy.Target | lab04/proxyserver.py:70-79 | the URL has a scheme and ends with the path; with no Referer it is the path with a scheme |
| Proxy.SchemeEnd | lab04/proxyserver.py:73-74 | `://` is found right after the scheme |
| Proxy.HostEnd | lab04/proxyserver.py:75 | the first `/` ends the host |
| Proxy.RefererTarget | lab04/proxyserver.py:70-77 | a Referer `scheme://host/site/` sends the path to `site/path` |
| Proxy.Plan | lab04/proxyserver.py:59-92 | a malformed request line is 400; a blacklisted path gets the blacklist 200; another method is 400; GET and POST fetch the target, POST with the body after the blank line |
| Proxy.PlanGet | lab04/proxyserver.py:83-85 | a plain GET without a Referer fetches the path with a scheme |
| Proxy.Relay | lab04/proxyserver.py:94-102 | with the corrected 200 response: 404 becomes the fixed 404; any other status a 200 that reads back the decoded body; an exception or undecodable body 400 |
| Proxy.RelayAsWritten | lab04/proxyserver.py:94-102 | as written, the 200 reply declares the body's length in characters; it is the corrected relay except for non-ASCII pages, and an ASCII page reads back unchanged |
| Proxy.RelayAsWrittenMisframes | lab04/proxyserver.py:53-54 | as written, a page of one character from U+0080 to U+07FF reaches the client in a form it cannot read |
| Proxy.Handle | lab04/proxyserver.py:56-102 | an undecodable request is 400; a reply the plan decides is sent as is |
| Proxy.ForwardsContent | lab04/proxyserver.py:83-99 | a fetched page reaches the client unchanged |
| FileServer.FirstLine | lab03/server/server.py:9 | the text before the first CRLF |
| FileServer.ExtractFilename | lab03/server/server.py:8-12 | `IndexError` iff the first line has no space; otherwise the second field behind a `.` |
| FileServer.FirstLineOnly | lab03/server/server.py:9-11 | what follows the first CRLF does not matter |
| FileServer.WholeLine | lab03/server/server.py:9 | a line without CR is its own first line |
| FileServer.RequestLineTarget | lab03/server/server.py:8-12 | a request line's Request-URI comes back behind a `.` |
| Paths.Kept | lab03/server/server.py:12 | only non-empty, non-`.` pieces are kept as components |
| Paths.KeptAppend | lab08/reliable_udp/reliable_udp.py:240 | the components of two parts are those of each in turn |
| Paths.Components | lab03/server/server.py:12 | every component is non-empty, not `.`, and free of `/` |
| Paths.Show | lab03/server/server.py:12 | `str` of a path is never empty |
| Paths.ShowParses | lab03/server/server.py:12 | parsing what `str` writes gives the root and the components back |
| Paths.Parse | lab03/server/server.py:12 | `Path(s)` has a root iff `s` starts with `/`, and only proper components |
| Paths.Str | lab03/server/server.py:12 | `str(p)` is non-empty and parses back to `p` |
| Paths.Norm | lab03/server/server.py:12 | `str(Path(p))` is non-empty and names the same path as `p` |
| Paths.SamePathSameNorm | lab03/server/server.py:12 | two strings give equal paths iff they normalise to the same string |
| Paths.NormIdempotent | lab03/server/server.py:12 | normalising twice is normalising once |
| Paths.ParseComponent | lab03/server/server.py:12 | a single component parses to itself, with or without a leading `./`, and normalises to itself |
| Paths.ParseDots | lab08/reliable_udp/reliable_udp.py:240 | `""` and `.` are the working directory; `..` is kept as a component |
| Paths.Div | lab08/reliable_udp/reliable_udp.py:240 | `p / q` is `q` when `q` has a root, and otherwise has the root of `p` and the components of `p` then `q` |
| Paths.DivJoins | lab08/reliable_udp/reliable_udp.py:240 | `Path(a) / b` is `Path(a + "/" + b)`, or `Path(b)` when `b` has a root |
| Paths.Name | lab08/reliable_udp/reliable_udp.py:186 | `Path.name` is empty or a single component, and empty iff there is no component |
| Paths.Parent | lab08/reliable_udp/reliable_udp.py:194 | `Path.parent` keeps the root and drops the last component; the parent joined with the name is the path again |
| Paths.DivChild | lab08/reliable_udp/reliable_udp.py:240 | a single component joined to a directory has that component as name and the directory as parent, and is the bare name iff the directory is `.` |
| Paths.SplitConcat | lab08/reliable_udp/reliable_udp.py:240 | splitting at one separator gives the pieces of each side in turn |
| FileServer.Received | lab03/server/server.py:48 | at most the first 1024 bytes are read |
| FileServer.Requested | lab03/server/server.py:48-49 | undecodable bytes are `UnicodeDecodeError`; otherwise `IndexError` iff the first line has no space; a path is normalised |
| FileServer.HandleClient | lab03/server/server.py:47-62 | an exception sends nothing; a client gets the file's bytes iff the file exists; a missing file gets exactly the UTF-8 bytes of the 404 status line, " file ", the path and " not found" (line 58) |
| FileServer.NotFoundNotServed | lab03/server/server.py:52-58 | the 404 answer is never read as a file |
| FileServer.OnlyFirstKilobyte | lab03/server/server.py:48 | bytes past the first 1024 do not matter |
| Text.Digits | lab04/proxyserver.py:54 | `str(n)` is decimal digits |
| Text.Decimal | lab04/proxyserver.py:54 | `str(n)` holds no space |
| Text.DigitsRoundTrip | lab04/proxyserver.py:54 | the digits' value is the number |
| Text.DecimalRoundTrip | lab04/proxyserver.py:54 | `int(str(n)) == n` |
| Text.FindFrom | lab04/proxyserver.py:73 | `find` gives the first occurrence, or -1 if there is none |
| Text.Find | lab04/proxyserver.py:73 | `find` gives the first index where the pattern occurs, or -1 if there is none |
| Text.FindFirst | lab04/proxyserver.py:73 | the first occurrence is the one `find` reports |
| Text.RStrip | lab04/proxyserver.py:76 | `rstrip` removes exactly the trailing run of the characters |
| Text.RStripTail | lab04/proxyserver.py:76 | stripping a strippable tail gives the string back |
| Text.Split | lab04/proxyserver.py:60 | `split` gives at least one piece |
| Text.SplitPiecesFree | lab04/proxyserver.py:60 | no piece holds the separator |
| Text.JoinSplit | lab03/server/server.py:10 | joining the pieces gives the string back |
| Text.SplitCons | lab03/server/server.py:10 | the piece before the first separator comes first |
| Text.SplitWhole | lab03/server/server.py:10 | a string without the separator is one piece |
| Text.SplitJoin | lab03/server/server.py:10 | splitting a join of separator-free pieces gives the pieces |
| Text.Join | lab03/server/server.py:12 | `c.join` starts with the first piece, ends with the last, and is at least one separator per gap long |
| Text.SplitSingle | lab03/server/server.py:10-11 | there is a second piece iff the separator occurs |
| Text.SkipSpace | lab14/app.py:48 | skips exactly the whitespace run |
| Text.SkipWord | lab14/app.py:48 | skips exactly the non-whitespace run |
| Text.SplitOnce | lab14/app.py:48 | `split(maxsplit=1)` gives nothing for blank text, else a word and maybe a rest starting with no whitespace |
| Text.SplitOnceShape | lab14/app.py:48 | a two-piece split has the lead, word, gap, rest shape |
| Text.SkipSpaceOver | lab14/app.py:48 | skipping whitespace stops at the first non-whitespace |
| Text.SkipWordOver | lab14/app.py:48 | skipping a word stops at the first whitespace |
| Text.SplitOnceOfShape | lab14/app.py:48 | a string of that shape splits into its word and rest |
| Utf8.EncodeChar | lab04/proxyserver.py:54 | 1 to 4 bytes, one byte iff below U+0080 |
| Utf8.Encode | lab04/proxyserver.py:54 | at least one byte per character |
| Utf8.DecodeChar | lab04/proxyserver.py:42 | a decoded character takes 1 to 4 bytes, and those bytes are its encoding |
| Utf8.DecodeEncodeChar | lab04/proxyserver.py:42 | decoding one encoded character gives it back with its length |
| Utf8.DecodeEncodeTwo | lab04/proxyserver.py:42 | the same for two-byte characters |
| Utf8.DecodeEncodeThree | lab04/proxyserver.py:42 | the same for three-byte characters |
| Utf8.DecodeEncodeFour | lab04/proxyserver.py:42 | the same for four-byte characters |
| Utf8.EncodeTwoOf | lab04/proxyserver.py:42 | the character a valid two-byte form spells encodes back to exactly those two bytes |
| Utf8.EncodeThreeOf | lab04/proxyserver.py:42 | the same for three-byte forms that spell a scalar value of at least 0x800 |
| Utf8.EncodeFourOf | lab04/proxyserver.py:42 | the same for four-byte forms that spell a scalar value of at least 0x10000 |
| Utf8.DecodeEncode | lab04/proxyserver.py:42 | decoding undoes encoding |
| Utf8.Decode | lab04/proxyserver.py:42 | decoding succeeds only on bytes that are the encoding of the result, so with `DecodeEncode` the two are inverse |
| Utf8.EncodeAscii | lab04/proxyserver.py:46 | ASCII text encodes as itself |
| Utf8.EncodeAppend | lab04/proxyserver.py:54 | encoding distributes over concatenation |
| Utf8.Ascii | lab04/proxyserver.py:46 | one byte per character, its code |
| Utf8.EncodeAsciiPrefix | lab04/proxyserver.py:54 | an ASCII head encodes byte for byte whatever follows |

## Left out

- Sockets, `select`, timeouts and threads are left out. They become explicit inputs: event sequences, loss flags, a `select` event list, the upstream answer, and a file map. The proxy's semaphore and thread-per-client server, the concurrent mode of the file server, and the `__main__` and argparse blocks are not modelled.
- `Server.start` (lab08/reliable_udp/reliable_udp.py:246-269) is not modelled: its polling loop catches every exception. Logging and printing are left out everywhere.
- Python's salted `hash` is left uninterpreted, as a function parameter.
- DNS is left uninterpreted too: `resolve` in `addresses_eq` and a `resolved` flag in `trace_route`.
- `check_filename` reads `\d` as the ASCII digits only. The regex also matches other Unicode digits.
- Randomness becomes an input: `random.random()` is the loss oracle, and `generate_token` is the `token` argument of `Shop.Store.SignIn`.
- Time becomes an input. `time.time()` is given as the eight packed stamp bytes. The time spent in `select` is an integer. The floating-point delay and the RTT statistics of `Ping.run` are not computed.
- `Ping.run` and `ping_once` are not modelled: they loop over sockets and print.
- `trace_route`'s printed times and host names are not modelled. Of the printed lines, only their count is kept.
- Rip.SimulateRip: `maxPasses` bounds the passes. Beyond it, the model does not say what the unbounded loop does.
- Rip.Router.UpdateRoutingTable: the source's `KeyError` for a source missing from the table is a precondition here. Its `step` argument is only logged.
- Rip: IP addresses are an abstract type. `load_network_from_json`, `log_routing_table` and `__str__` are not modelled.
- Rip.SimulateRip assumes every neighbour named is a router of the network. The source raises `KeyError` otherwise.
- Shop and Catalog: JSON bodies are optional fields, and `public` is an optional boolean. Non-boolean `public` values and non-string names are not modelled. Flask's request parsing and its 500 page are not modelled.
- Proxy: `requests.get`/`post` is the `Upstream` argument. `get_request`'s reading in 4096-byte chunks is taken as having already produced the request bytes.
- Proxy: the `assert` on line 62 is taken as active. Under `python -O` it would not be checked.
- Proxy.Plan: uses the corrected `Proxy.OkResponse`, not the as-written one (see Findings).
- Proxy.Relay: builds the 200 reply with the corrected `Proxy.OkResponse`. The relay as written is `Proxy.RelayAsWritten`; it agrees on ASCII pages and misframes others (`Proxy.RelayAsWrittenMisframes`).
- Proxy.Handle: relays with the corrected `Proxy.Relay`, so for a non-ASCII page it describes the corrected program, not the code as written.
- Proxy.ForwardsContent: holds of the corrected program. Of the code as written it holds only for ASCII pages (`Proxy.RelayAsWritten`).
- Proxy.FixedResponsesNotOk: the fixed 400 and 404 are the ASCII bytes of their text, `Utf8.Ascii`. That this equals their UTF-8 encoding is not proved for the 43-character 404 text. `Utf8.EncodeAsciiPrefix` proves it for ASCII text in general.
- FileServer: `pathlib` resolution of `..` and symbolic links is not modelled. `Paths.Norm` only drops empty and `.` components and keeps a root. The files map stands for `is_file()` and `read()`.
- Paths: POSIX keeps exactly two leading slashes (`//a`) as a separate root; here they are the root `/`. `..` is kept as a component and never resolved, so `a/../b` and `b` are different keys.
- RudpHost.ServerEchoesWorkingDirectoryFile and RudpHost.UploadTargetDiffers: distinct `Path` values are taken to be distinct files. There is no current directory, and neither absolute names nor `..` are resolved. So a save directory that names the current directory another way (its absolute path, or `sub/..`) counts here as a different directory, while the program would echo the upload itself.
- RudpHost.UploadTargetDiffers: states equality of `Path` values, not identity of files on disk, for the reason above.
- RudpHost: the file system is a map of regular files and a set of directories, both keyed by `Path` value, so two strings naming the same `PurePosixPath` name the same file. `.`, `/` and any path ending in `..` always count as directories. A parent that is a regular file gives "No such file or directory" here, where Linux says "Not a directory"; both are `OSError`.
- Traceroute: `struct` packs in the host's byte order. The host is taken to be little-endian; a big-endian host is not modelled.
- FileServer: a `recv` that returns nothing is an empty byte string here, and that is answered as if it were a request.

## Findings

| source | as written | input that shows it | evidently intended | confidence | as-written member | corrected member |
|---|---|---|---|---|---|---|
| lab04/proxyserver.py:53-54 | `Content-Length` is `len(content)`, a count of characters, while the body is sent as UTF-8 bytes | content "é" (U+00E9): the header declares 1 byte, the body has 2, and a client cannot decode the lone lead byte | declare `len(content.encode('utf-8'))`, the body's length in bytes (section 3.3.2 of RFC 7230) | not executed | Proxy.AsWrittenMisframes | Proxy.OkRoundTrip |
| lab11/traceroute.py:38-39 | the checksum goes into the header without `socket.htons`, so on a little-endian host its bytes are swapped | `create_packet(1)` at time stamp 0.0: the request checksums to 0xF609, not 0 | `socket.htons(checksum)`, as lab10/ping.py:41 writes it | not executed | Traceroute.CreatePacketChecksumSwapped | Traceroute.CheckedPacketVerifies |
| lab10/ping.py:19 | `max_count = (len / 2) * 2` uses true division, so it is the length itself and the odd-byte branch is dead | a one-byte input: the loop reads `source_string[1]` and raises `IndexError` | floor division `//`, as lab11/traceroute.py:14 writes it | not executed | Ping.Checksum | Traceroute.ChecksumOfTotal |
