/** The receiving side of the transfer (`handleData` and its clean-up timer).
    Every message from the peer arrives as bytes; a message whose text
    contains `FILE_START` is handled as a control message and every other
    message as a data chunk. JSON parsing is not modelled: the outcome of
    parsing a control message is supplied by the caller as `parse`. */
module Receiver {
  import opened Prelude
  import opened FileProtocol
  import opened Session

  /** The ASCII bytes of the marker text `FILE_START`. */
  const Marker: seq<byte> := [70, 73, 76, 69, 95, 83, 84, 65, 82, 84]

  predicate MarkerAt(data: seq<byte>, i: nat)
  {
    i + |Marker| <= |data| && data[i..i + |Marker|] == Marker
  }

  /** The received text contains `FILE_START`. Decoding a buffer as UTF-8
      keeps every ASCII byte as the same character, so this holds exactly
      when the marker's bytes occur contiguously in the message. */
  predicate ContainsMarker(data: seq<byte>)
  {
    exists i: nat | i <= |data| :: MarkerAt(data, i)
  }

  /** What `JSON.parse` makes of a control message. */
  datatype Parsed =
    | StartMessage(metadata: FileMetadata) // `{type: 'FILE_START', metadata}`
    | StartWithoutMetadata                 // type `FILE_START`, no metadata object
    | OtherMessage                         // well-formed JSON of another type
    | Malformed                            // `JSON.parse` throws

  /** The file handed to the application for download on completion. */
  datatype Download = Download(name: string, mimeType: string, content: seq<byte>)

  /** The result of one message: the next state, the download it triggers
      if any, and whether it arms the 3-second clean-up timer. */
  datatype Reaction = Reaction(next: Engine, download: Option<Download>, armsClear: bool)

  /** A control message. A parsed `FILE_START` starts a fresh session,
      whatever the previous one held. When the metadata object is missing,
      the chunks, the received and sampled byte counts and the sample time
      are still reset and the metadata is cleared; building the displayed
      summary then throws, which is caught, so the summary is left as it
      was. Any other outcome changes nothing. */
  function OnControl(e: Engine, p: Parsed, nowMs: int): (r: Engine)
    ensures p.StartMessage? ==>
              && r.incoming == Some(p.metadata)
              && r.chunks == [] && r.receivedBytes == 0
              && r.lastBytes == 0 && r.currentBytes == 0 && r.lastTime == nowMs
              && r.transfer == Some(TransferView(p.metadata.name, p.metadata.size, 0, true, 0.0))
    ensures p.StartWithoutMetadata? ==>
              && r.incoming.None?
              && r.chunks == [] && r.receivedBytes == 0
              && r.lastBytes == 0 && r.currentBytes == 0 && r.lastTime == nowMs
              && r.transfer == e.transfer
    ensures p.OtherMessage? || p.Malformed? ==> r == e
  {
    match p
    case StartMessage(m) =>
      Engine(Some(m), [], 0, 0, nowMs, 0, Some(TransferView(m.name, m.size, 0, true, 0.0)))
    case StartWithoutMetadata =>
      e.(incoming := None, chunks := [], receivedBytes := 0, lastBytes := 0,
         lastTime := nowMs, currentBytes := 0)
    case OtherMessage => e
    case Malformed => e
  }

  /** A data chunk. It is appended and counted whether or not a session is
      open; only with metadata present is the summary updated, and the file
      is completed once the count reaches the announced size. */
  function OnChunk(e: Engine, data: seq<byte>): (r: Reaction)
    ensures r.next.chunks == e.chunks + [data]
    ensures r.next.receivedBytes == e.receivedBytes + |data|
    ensures r.next.currentBytes == r.next.receivedBytes
    ensures r.next.incoming == e.incoming
    ensures r.next.lastBytes == e.lastBytes && r.next.lastTime == e.lastTime
    ensures e.incoming.None? ==> r.next.transfer == e.transfer
    ensures e.incoming.Some? ==>
              r.next.transfer == (if e.transfer.Some?
                                  then Some(e.transfer.value.(transferredBytes := r.next.receivedBytes))
                                  else None)
    ensures r.download.Some? <==>
              e.incoming.Some? && r.next.receivedBytes >= e.incoming.value.size
    ensures r.download.Some? ==>
              r.download.value == Download(e.incoming.value.name, e.incoming.value.mimeType,
                                           Concat(r.next.chunks))
    ensures r.armsClear <==> r.download.Some?
  {
    var received := e.receivedBytes + |data|;
    var counted := e.(chunks := e.chunks + [data], receivedBytes := received,
                      currentBytes := received);
    match e.incoming
    case None => Reaction(counted, None, false)
    case Some(m) =>
      var shown := match e.transfer
        case None => None
        case Some(v) => Some(v.(transferredBytes := received));
      var next := counted.(transfer := shown);
      if received >= m.size then
        Reaction(next, Some(Download(m.name, m.mimeType, Concat(next.chunks))), true)
      else
        Reaction(next, None, false)
  }

  /** `handleData`: classification by the marker, then control or chunk.
      A message containing the marker is never appended or counted, and when
      its parse fails the state is left exactly as it was. */
  function HandleData(e: Engine, data: seq<byte>, parse: seq<byte> -> Parsed, nowMs: int): (r: Reaction)
    ensures ContainsMarker(data) ==>
              && r.download.None? && !r.armsClear
              && |r.next.chunks| <= |e.chunks|
              && r.next.receivedBytes <= e.receivedBytes
              && (parse(data).Malformed? ==> r.next == e)
    ensures !ContainsMarker(data) ==>
              && r.next.chunks == e.chunks + [data]
              && r.next.receivedBytes == e.receivedBytes + |data|
  {
    if ContainsMarker(data) then Reaction(OnControl(e, parse(data), nowMs), None, false)
    else OnChunk(e, data)
  }

  /** The 3-second timer armed on completion: it clears the chunks, the
      metadata and the summary, but leaves the received-byte count. */
  function ClearTimerFired(e: Engine): (r: Engine)
    ensures r.incoming.None? && r.chunks == [] && r.transfer.None?
    ensures r.receivedBytes == e.receivedBytes && r.currentBytes == e.currentBytes
    ensures r.lastBytes == e.lastBytes && r.lastTime == e.lastTime
  {
    e.(transfer := None, chunks := [], incoming := None)
  }

  // ---------------------------------------------------------------------
  // Sequences of messages.

  /** The state after a sequence of messages, and the downloads they
      triggered, in order. */
  datatype Outcome = Outcome(final: Engine, downloads: seq<Download>)

  function Feed(e: Engine, msgs: seq<seq<byte>>, parse: seq<byte> -> Parsed, nowMs: int): Outcome
    decreases |msgs|
  {
    if msgs == [] then Outcome(e, [])
    else
      var r := HandleData(e, msgs[0], parse, nowMs);
      var rest := Feed(r.next, msgs[1..], parse, nowMs);
      Outcome(rest.final, (if r.download.Some? then [r.download.value] else []) + rest.downloads)
  }

  /** The same fold over chunks alone, each handled as data. */
  function Absorb(e: Engine, cs: seq<seq<byte>>): Outcome
    decreases |cs|
  {
    if cs == [] then Outcome(e, [])
    else
      var r := OnChunk(e, cs[0]);
      var rest := Absorb(r.next, cs[1..]);
      Outcome(rest.final, (if r.download.Some? then [r.download.value] else []) + rest.downloads)
  }

  lemma TotalLengthSplit(cs: seq<seq<byte>>)
    requires |cs| >= 2
    ensures TotalLength(cs[..|cs| - 1]) == |cs[0]| + TotalLength(cs[1..][..|cs| - 2])
  {
    assert (cs[..|cs| - 1])[1..] == cs[1..][..|cs| - 2];
  }

  /** Chunks absorbed by an open session: they are appended in order and
      counted, and the file completes exactly once, at the last chunk, with
      the bytes of all chunks in arrival order, provided no earlier chunk
      already reached the announced size. */
  lemma {:induction false} AbsorbSession(e: Engine, cs: seq<seq<byte>>)
    requires e.incoming.Some?
    requires |cs| >= 2 ==> e.receivedBytes + TotalLength(cs[..|cs| - 1]) < e.incoming.value.size
    ensures Absorb(e, cs).final.chunks == e.chunks + cs
    ensures Absorb(e, cs).final.receivedBytes == e.receivedBytes + TotalLength(cs)
    ensures Absorb(e, cs).final.incoming == e.incoming
    ensures Absorb(e, cs).downloads ==
              if |cs| > 0 && e.receivedBytes + TotalLength(cs) >= e.incoming.value.size
              then [Download(e.incoming.value.name, e.incoming.value.mimeType, Concat(e.chunks + cs))]
              else []
    decreases |cs|
  {
    if cs != [] {
      var r := OnChunk(e, cs[0]);
      var rest := cs[1..];
      assert cs == [cs[0]] + rest;
      assert TotalLength(cs) == |cs[0]| + TotalLength(rest);
      if |cs| >= 2 {
        TotalLengthSplit(cs);
        assert TotalLength(rest) >= 0;
        assert |rest| >= 2 ==> TotalLength(rest[..|rest| - 1]) == TotalLength(cs[1..][..|cs| - 2]);
        assert r.download.None?;
      }
      AbsorbSession(r.next, rest);
      assert r.next.chunks + rest == e.chunks + cs;
    }
  }

  /** Messages without the marker are all handled as data. */
  lemma {:induction false} FeedIsAbsorb(e: Engine, cs: seq<seq<byte>>, parse: seq<byte> -> Parsed, nowMs: int)
    requires forall k | 0 <= k < |cs| :: !ContainsMarker(cs[k])
    ensures Feed(e, cs, parse, nowMs) == Absorb(e, cs)
    decreases |cs|
  {
    if cs != [] {
      FeedIsAbsorb(OnChunk(e, cs[0]).next, cs[1..], parse, nowMs);
    }
  }

  // ---------------------------------------------------------------------
  // Frame-typed classification: control messages are the channel's text
  // frames and data chunks its binary frames, so file content can never be
  // mistaken for a control message.

  datatype Frame = TextFrame(text: string) | BinaryFrame(bytes: seq<byte>)

  function HandleFrame(e: Engine, f: Frame, parseText: string -> Parsed, nowMs: int): (r: Reaction)
    ensures f.BinaryFrame? ==>
              && r.next.chunks == e.chunks + [f.bytes]
              && r.next.receivedBytes == e.receivedBytes + |f.bytes|
    ensures f.TextFrame? ==> r.download.None? && !r.armsClear && r.next.chunks <= e.chunks
  {
    match f
    case TextFrame(t) => Reaction(OnControl(e, parseText(t), nowMs), None, false)
    case BinaryFrame(b) => OnChunk(e, b)
  }

  function FeedFrames(e: Engine, fs: seq<Frame>, parseText: string -> Parsed, nowMs: int): Outcome
    decreases |fs|
  {
    if fs == [] then Outcome(e, [])
    else
      var r := HandleFrame(e, fs[0], parseText, nowMs);
      var rest := FeedFrames(r.next, fs[1..], parseText, nowMs);
      Outcome(rest.final, (if r.download.Some? then [r.download.value] else []) + rest.downloads)
  }

  function AsBinaryFrames(cs: seq<seq<byte>>): (fs: seq<Frame>)
    ensures |fs| == |cs|
    ensures forall k | 0 <= k < |cs| :: fs[k] == BinaryFrame(cs[k])
  {
    seq(|cs|, k requires 0 <= k < |cs| => BinaryFrame(cs[k]))
  }

  /** Binary frames are all handled as data, whatever bytes they carry. */
  lemma {:induction false} FeedFramesIsAbsorb(e: Engine, cs: seq<seq<byte>>, parseText: string -> Parsed, nowMs: int)
    ensures FeedFrames(e, AsBinaryFrames(cs), parseText, nowMs) == Absorb(e, cs)
    decreases |cs|
  {
    if cs != [] {
      assert AsBinaryFrames(cs)[1..] == AsBinaryFrames(cs[1..]);
      FeedFramesIsAbsorb(OnChunk(e, cs[0]).next, cs[1..], parseText, nowMs);
    }
  }
}
