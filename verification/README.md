# Peer-to-peer file transfer: rendezvous relay and chunked transfer, in Dafny

This project models the core of a two-party file-sharing application. A
small signalling relay pairs two endpoints that share a six-character room
code. The two endpoints then open a direct peer channel. One of them sends a
file over it as a `FILE_START` control message followed by binary chunks of
at most 16384 bytes. The other side reassembles the chunks by counting bytes.

All event-driven code is written here as pure transitions over explicit
state. Socket, peer, file-reader and timer callbacks become events.

- `prelude.dfy` (`Prelude`): optional values, bytes, and concatenation of
  chunk lists.
- `base64.dfy` (`Base64`): `btoa` as the Base 64 encoding of section 4 of
  RFC 4648. `atob` as the forgiving-base64 decode of the WHATWG Infra
  standard. The round trip between the two is proved.
- `file_protocol.dfy` (`FileProtocol`): `CHUNK_SIZE`, the file metadata,
  `arrayBufferToBase64` and `base64ToArrayBuffer` with their loops.
- `session.dfy` (`Session`): the hook's mutable cells as one `Engine`
  value, and the one-second speed-sampling gate.
- `receiver.dfy` (`Receiver`): `handleData` as written, with its clean-up
  timer. Also a variant that classifies messages by frame type.
- `sender.dfy` (`Sender`): the `reader.onload` step and the whole
  `sendFile` loop, checked against a reference chunking.
- `transfer.dfy` (`Transfer`): sender output fed to the receiver, end to
  end.
- `connection.dfy` (`Connection`): the connection status machine and
  initiator/responder election of the hook, and routing of peer data to the
  receiver.
- `relay.dfy` (`Relay`): the server's `join-room`, `signal` and
  `disconnect` handlers over a room registry.
- `room_code.dfy` (`RoomCode`): input normalisation, the length-6 join
  gate, and leaving a room.

The model keeps these behaviours of the code as they are:
- A re-join by the same endpoint does not change membership. It does emit
  `user-connected` to the other members again.
- A binary chunk with no session open is not rejected. It is appended and
  counted.
- The completion timer does not reset the received-byte count.
- A sender whose peer disconnects stops silently and reports no error.
- The relay never enforces a two-member room capacity.

## Model

| member | source | states |
|---|---|---|
| FileProtocol.BytesToBinary | client/src/utils/fileProtocol.ts:21-26 | the intermediate string has one character per byte, and each character's code equals its byte |
| FileProtocol.BinaryToBytes | client/src/utils/fileProtocol.ts:31-37 | the buffer has the string's length; byte i is the code of character i modulo 256, which is the code itself for a binary string |
| FileProtocol.ArrayBufferToBase64 | client/src/utils/fileProtocol.ts:20-28 | the result is exactly the RFC 4648 padded encoding of the buffer, of length 4·ceil(n/3), alphabet text once padding is stripped, and decodes back to the input buffer |
| FileProtocol.Base64ToArrayBuffer | client/src/utils/fileProtocol.ts:30-38 | fails exactly where `atob` throws; otherwise returns the decoded bytes, and for any encoding of b it returns b |
| Base64.Encode | client/src/utils/fileProtocol.ts:27 | the Base 64 text of n bytes has length 4·((n+2)/3), a multiple of four |
| Base64.Btoa | client/src/utils/fileProtocol.ts:27 | `btoa` succeeds exactly on strings whose characters are all below U+0100; its text has length 4·ceil(n/3) and decodes back to the string's bytes |
| Base64.Atob | client/src/utils/fileProtocol.ts:31 | `atob` succeeds exactly when the forgiving decode does, and then yields a binary string |
| Base64.ForgivingDecode | client/src/utils/fileProtocol.ts:31 | decoding fails exactly when the text, with whitespace and padding stripped, has length ≡ 1 mod 4 or holds a non-alphabet character; on success it yields three bytes per four remaining characters, rounded down |
| Base64.DecodeEncode | client/src/utils/fileProtocol.ts:20-38 | decoding the encoding of any byte sequence succeeds and returns that sequence |
| Base64.AtobBtoa | client/src/utils/fileProtocol.ts:20-38 | for every binary string s, `btoa(s)` succeeds and `atob(btoa(s)) == s` |
| Base64.BareRoundTrip | client/src/utils/fileProtocol.ts:20-38 | decoding unpadded Base 64 text of any bytes returns those bytes, one 3-byte quantum at a time |
| Session.Tick | client/src/hooks/useWebRTC.ts:35-48 | no sample is taken without a displayed transfer or before 1000 ms have passed; a sample records the time and byte count, and speed × elapsed seconds equals the bytes moved since the previous sample |
| Receiver.OnControl | client/src/hooks/useWebRTC.ts:124-147 | a parsed FILE_START sets the metadata and empties chunks and all counters, whatever came before; missing metadata resets the counters but leaves no metadata; another type or a parse failure changes nothing |
| Receiver.OnChunk | client/src/hooks/useWebRTC.ts:150-177 | the chunk is appended at the end and its length added; `currentBytes` equals `receivedBytes`; with no metadata nothing else happens; completion (the chunks concatenated in order, plus the clean-up timer) happens iff metadata is present and the count reaches the size |
| Receiver.HandleData | client/src/hooks/useWebRTC.ts:123-179 | a message whose bytes contain FILE_START is never appended or counted and never completes a file, and a failed parse leaves the state unchanged; any other message is appended and counted |
| Receiver.ClearTimerFired | client/src/hooks/useWebRTC.ts:172-176 | the timer clears chunks, metadata and the displayed transfer, and keeps the received-byte count |
| Receiver.AbsorbSession | client/src/hooks/useWebRTC.ts:150-171 | in an open session, chunks are appended in order and counted; the file completes exactly once, at the last chunk, with all chunks' bytes, if no earlier chunk reached the size |
| Receiver.FeedIsAbsorb | client/src/hooks/useWebRTC.ts:123-155 | a sequence of messages none of which contains the marker is handled entirely as data |
| Receiver.HandleFrame | client/src/hooks/useWebRTC.ts:123-155 | in the frame-typed variant, a binary frame is always appended and counted, and a text frame never completes a file |
| Receiver.FeedFramesIsAbsorb | client/src/hooks/useWebRTC.ts:123-155 | in the frame-typed variant, binary frames are handled as data whatever bytes they carry |
| Sender.OnRead | client/src/hooks/useWebRTC.ts:208-235 | a read completing while disconnected halts; otherwise it sends the next reference slice (at most CHUNK_SIZE bytes), advances the offset by its length, and schedules another read iff bytes remain |
| Sender.SendFile | client/src/hooks/useWebRTC.ts:181-239 | with no peer, nothing happens; otherwise the control message comes first, followed only by data; the data are a prefix of the reference slices, every chunk is at most CHUNK_SIZE, and their bytes are the file prefix up to the offset; on finishing, offset = size and ChunkCount(size) chunks went out; on halting, the next read found the peer disconnected |
| Sender.SlicesConcat | client/src/hooks/useWebRTC.ts:206-237 | the reference slices from an offset concatenate to the rest of the file |
| Sender.SlicesBounded | client/src/hooks/useWebRTC.ts:232-235 | every reference slice is at most CHUNK_SIZE bytes |
| Sender.SlicesCount | client/src/hooks/useWebRTC.ts:206-237 | a size-n remainder gives ceil(n/CHUNK_SIZE) slices, or one empty slice when n = 0 |
| Sender.SlicesPrefixShort | client/src/hooks/useWebRTC.ts:224-228 | all slices before the last add up to less than the remainder, so the receiver cannot complete early |
| Sender.SendClearTimerFired | client/src/hooks/useWebRTC.ts:227 | the sender's timer removes the displayed transfer and changes nothing else |
| Transfer.AbsorbWholeFile | client/src/hooks/useWebRTC.ts:150-171 | a session opened for a file and given that file's slices yields exactly one download, the file itself |
| Transfer.DeliveredAsWritten | client/src/hooks/useWebRTC.ts:123-237 | from any receiver state, FILE_START followed by the sender's chunks yields exactly one download, equal to the file, if no chunk contains the marker bytes |
| Transfer.MarkerFileIsSwallowed | client/src/hooks/useWebRTC.ts:124-148 | a file whose content is `FILE_START` is never downloaded, and its bytes are never counted |
| Transfer.DeliveredFramed | client/src/hooks/useWebRTC.ts:123-237 | with frame-typed classification, every file content arrives as exactly one download equal to the file |
| Transfer.RestartForgetsPartialSession | client/src/hooks/useWebRTC.ts:127-142 | after a new FILE_START, the state does not depend on the session it interrupted |
| Transfer.StrayChunkAfterClear | client/src/hooks/useWebRTC.ts:150-176 | after the clean-up timer, a stray chunk is counted on top of the old count and completes nothing |
| Connection.Step | client/src/hooks/useWebRTC.ts:54-121 | a missing room or the empty code gives idle, a non-empty room gives waiting, and either change drops the peer; the socket joins on connect only with a non-empty room; `user-connected` creates an initiator only when no peer exists; `signal` creates a responder when needed and feeds it; peer connect/error/close set connected/error/waiting; close also drops the peer and the transfer; peer data goes through the receiver's `handleData`, adding its download and arming one clean-up timer per completion; a clean-up timer acts only when one was armed |
| Connection.RunKeepsConsistent | client/src/hooks/useWebRTC.ts:54-121 | in every reachable state, a peer exists only while a non-empty room is set, and pending clean-up timers never outnumber completed downloads |
| Connection.NoRoomNoOutbox | client/src/hooks/useWebRTC.ts:55-67 | with no room or the empty code, no event creates a peer or sends anything to the relay |
| Connection.RoleByFirstEvent | client/src/hooks/useWebRTC.ts:95-112 | whichever of `user-connected` and `signal` arrives first fixes the role (initiator or responder); the second never replaces the peer |
| Connection.LeaveThenStaleClose | client/src/hooks/useWebRTC.ts:88-120 | leaving gives idle, but the destroyed peer's close handler then sets waiting with no room set |
| Connection.EmptyCodeOpensNothing | client/src/hooks/useWebRTC.ts:54-67 | switching to the empty code gives idle, and a later relay connection emits nothing and creates no peer |
| Relay.Join | server/src/index.ts:22-26 | the joiner is added to the room's set and no other room changes; exactly the other members of the room receive `user-connected(joiner)` |
| Relay.RelaySignal | server/src/index.ts:28-34 | membership is unchanged; exactly the room's members other than the sender receive `{signal, senderId}`, member sender or not |
| Relay.Disconnect | server/src/index.ts:36-38 | nothing is emitted; the endpoint leaves every room, and empty rooms disappear |
| Relay.Handle | server/src/index.ts:19-39 | every delivery goes to a member of the event's room other than its sender; disconnect delivers nothing; empty rooms never exist |
| Relay.RejoinSameMembersNotifiesAgain | server/src/index.ts:22-26 | joining twice leaves the same registry as joining once, yet the second join notifies the other members again |
| Relay.Pairing | server/src/index.ts:22-26 | A joining an empty room notifies nobody; B joining next notifies exactly A, once, and not B |
| Relay.SignalNotBuffered | server/src/index.ts:28-34 | a signal sent before B joins never reaches B, then or at B's later join |
| Relay.SignalIsolation | server/src/index.ts:28-34 | no endpoint outside the named room receives a signal |
| RoomCode.Normalize | client/src/App.tsx:40-43 | the code has at most six characters, each in A-Z or 0-9 |
| RoomCode.NormalizeInput | client/src/App.tsx:40-43 | a single pass that stops at six kept characters computes the reference normalisation: upper-case, filter, first six |
| RoomCode.NormalizeIdempotent | client/src/App.tsx:41 | normalising an already normalised code returns it unchanged |
| RoomCode.NormalizeAlphanumericPrefix | client/src/App.tsx:41 | input starting with six ASCII letters or digits gives those six, upper-cased, in order, which is a full room code |
| RoomCode.NormalizeIgnoresOtherChars | client/src/App.tsx:41 | removing a character outside [A-Za-z0-9] from the input does not change the code |
| RoomCode.JoinRoom | client/src/App.tsx:36-38 | the room is set to the input when its length is exactly 6, and nothing changes otherwise |
| RoomCode.Step | client/src/App.tsx:36-48 | typing stores the normalised input; the join button and Enter apply the join gate; any other key changes nothing; leaving clears the room |
| RoomCode.RunKeepsValid | client/src/App.tsx:36-92 | in every reachable state the input is normalised, and any joined room is a full six-character code |

## Left out

- React rendering and hook plumbing: state is an explicit value, and callbacks are events.
- The presentational components (drop zone, circular progress, transfer status, speedometer). They are floating-point formatting only.
- Progress percentages: they are floats, and size 0 gives a division by zero. The model keeps the two byte counts they are computed from.
- Session.Tick: speed is a `real` computed from integer milliseconds, not an IEEE float.
- socket.io, simple-peer and WebRTC internals (ICE, encryption, `peer.signal`): connect, data, error, close and relay emits are abstract events.
- socket.io's private per-socket room: it is not modelled.
- Asynchrony: `FileReader`, `setTimeout` and `setInterval` become "read completed", "timer fired" and "tick" events.
- Sender.SendFile: runs the reads back to back, with no receiver, tick or timer events in between.
- Sender.SendFile: a failing read (`onerror`) is not a separate event. Like a disconnect, it stops the transfer.
- Sending before the data channel is open: the `send` exception is not modelled.
- A second `sendFile` started while one is still running: the two independent readers are not modelled.
- JSON: `JSON.stringify`/`JSON.parse` of the control message are not modelled. Parsing is an oracle (`parse`) that returns an outcome.
- Data delivery: the model assumes simple-peer delivers data as a Node `Buffer`, so the marker test runs on UTF-8 text.
- `chunk.buffer.slice(0)`: assumed to copy exactly the message bytes, which holds when the view spans its whole buffer.
- Blob, object URL and download anchor: completion yields the concatenated bytes and the announced name and type.
- `createRoom`: it uses `Math.random` and is not modelled. RoomCode.RunKeepsValid covers joins through the input field only.
- Server configuration and listening, and console logging: not modelled.
- RoomCode.Normalize: upper-cases ASCII letters only. Non-ASCII characters are dropped, although JavaScript upper-cases a few of them to ASCII letters (for example `ı` to `I`).
- The unused `ChunkData` and `FILE_ACK` types: not modelled.
- Connection.Step: accepts peer events (connect, data, error) even when no peer exists. The real events come only from a live peer, apart from the destroyed peer's close.

## Findings

| source | as written | input that shows it | evidently intended | confidence | as-written member | corrected member |
|---|---|---|---|---|---|---|
| client/src/hooks/useWebRTC.ts:124-148 | any message whose decoded text contains `FILE_START` is taken for a control message, binary data chunks included; a chunk that fails to parse is dropped uncounted | a file whose content is the ten bytes `FILE_START`, or any file with those bytes inside one 16384-byte chunk: the receiver never reaches the announced size, so the file is never delivered | control messages recognised by message type (text frame), with every binary frame appended and counted | medium, not executed; relies on the peer library delivering data as a `Buffer`, whose `toString()` decodes UTF-8 | Transfer.MarkerFileIsSwallowed | Transfer.DeliveredFramed |

The connection state machine dispatches peer data to the as-written
`Receiver.HandleData`, because that is what the hook does.
`Receiver.HandleFrame` is the corrected classification. `Transfer.DeliveredFramed`
proves that every file arrives intact under it.
