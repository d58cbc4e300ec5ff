/** End to end: what the receiver makes of exactly the messages the sender
    puts on the channel, over an ordered channel that loses nothing. */
module Transfer {
  import opened Prelude
  import opened FileProtocol
  import opened Session
  import opened Receiver
  import opened Sender

  lemma SlicesTotal(file: seq<byte>)
    ensures TotalLength(Slices(file)) == |file|
    ensures Concat(Slices(file)) == file
  {
    SlicesConcat(file, 0);
    ConcatLength(Slices(file));
  }

  /** The chunks of a whole file, absorbed by a session opened for it, yield
      exactly one download: the file itself. */
  lemma AbsorbWholeFile(e: Engine, meta: FileMetadata, file: seq<byte>)
    requires e.incoming == Some(meta) && e.chunks == [] && e.receivedBytes == 0
    requires meta.size == |file|
    ensures Absorb(e, Slices(file)).downloads == [Download(meta.name, meta.mimeType, file)]
    ensures Absorb(e, Slices(file)).final.receivedBytes == |file|
  {
    SlicesTotal(file);
    SlicesPrefixShort(file, 0);
    AbsorbSession(e, Slices(file));
    assert e.chunks + Slices(file) == Slices(file);
  }

  /** Marker classification as the source does it: the file arrives intact,
      in one download, whatever state the receiver was in, provided the
      control message parses and no data chunk happens to contain the bytes
      of `FILE_START`. */
  lemma DeliveredAsWritten(e: Engine, ctrl: seq<byte>, meta: FileMetadata, file: seq<byte>,
                           parse: seq<byte> -> Parsed, nowMs: int)
    requires ContainsMarker(ctrl) && parse(ctrl) == StartMessage(meta)
    requires meta.size == |file|
    requires forall k | 0 <= k < |Slices(file)| :: !ContainsMarker(Slices(file)[k])
    ensures Feed(e, [ctrl] + Slices(file), parse, nowMs).downloads
            == [Download(meta.name, meta.mimeType, file)]
  {
    var msgs := [ctrl] + Slices(file);
    var e1 := OnControl(e, parse(ctrl), nowMs);
    assert msgs[1..] == Slices(file);
    assert Feed(e, msgs, parse, nowMs).downloads == Feed(e1, Slices(file), parse, nowMs).downloads;
    FeedIsAbsorb(e1, Slices(file), parse, nowMs);
    AbsorbWholeFile(e1, meta, file);
  }

  /** A ten-byte file whose content is the text `FILE_START`. */
  const MarkerFile: seq<byte> := Marker

  /** The discrepancy: a file whose bytes are the text `FILE_START` is never
      delivered. Its only chunk is taken for a control message, fails to
      parse as JSON, and is dropped without being counted, so the announced
      size is never reached. */
  lemma MarkerFileIsSwallowed(e: Engine, ctrl: seq<byte>, name: string, mimeType: string,
                              parse: seq<byte> -> Parsed, nowMs: int)
    requires ContainsMarker(ctrl)
    requires parse(ctrl) == StartMessage(FileMetadata(name, |MarkerFile|, mimeType))
    requires parse(MarkerFile) == Malformed
    ensures Slices(MarkerFile) == [MarkerFile]
    ensures Feed(e, [ctrl] + Slices(MarkerFile), parse, nowMs).downloads == []
    ensures Feed(e, [ctrl] + Slices(MarkerFile), parse, nowMs).final.receivedBytes == 0 < |MarkerFile|
  {
    assert MarkerAt(MarkerFile, 0);
    assert ContainsMarker(MarkerFile);
    var msgs: seq<seq<byte>> := [ctrl] + [MarkerFile];
    var tail: seq<seq<byte>> := msgs[1..][1..];
    assert msgs[1..] == [MarkerFile];
    assert tail == [];
  }

  /** Frame-typed classification: the file arrives intact in one download
      for every file content, with no condition on the bytes carried. */
  lemma DeliveredFramed(e: Engine, text: string, meta: FileMetadata, file: seq<byte>,
                        parseText: string -> Parsed, nowMs: int)
    requires parseText(text) == StartMessage(meta)
    requires meta.size == |file|
    ensures FeedFrames(e, [TextFrame(text)] + AsBinaryFrames(Slices(file)), parseText, nowMs).downloads
            == [Download(meta.name, meta.mimeType, file)]
  {
    var fs := [TextFrame(text)] + AsBinaryFrames(Slices(file));
    var e1 := OnControl(e, parseText(text), nowMs);
    assert fs[1..] == AsBinaryFrames(Slices(file));
    FeedFramesIsAbsorb(e1, Slices(file), parseText, nowMs);
    AbsorbWholeFile(e1, meta, file);
  }

  /** A new `FILE_START` in the middle of a transfer starts over: whatever
      chunks and counts the earlier session held, the state afterwards is
      the same as if that session had never existed. */
  lemma RestartForgetsPartialSession(e1: Engine, e2: Engine, meta: FileMetadata, nowMs: int)
    ensures OnControl(e1, StartMessage(meta), nowMs) == OnControl(e2, StartMessage(meta), nowMs)
    ensures OnControl(e1, StartMessage(meta), nowMs) == OnControl(Fresh, StartMessage(meta), nowMs)
  {
  }

  /** The clean-up timer keeps the received-byte count: a stray chunk after
      it is counted on top of the finished session's bytes, and with no
      metadata it can never complete anything. */
  lemma StrayChunkAfterClear(e: Engine, data: seq<byte>)
    ensures var r := OnChunk(ClearTimerFired(e), data);
            && r.next.receivedBytes == e.receivedBytes + |data|
            && r.download.None?
            && r.next.transfer.None?
  {
  }
}
