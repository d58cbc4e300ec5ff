/** The sending side of the transfer (`sendFile`). The control message goes
    out first; then one slice of at most `CHUNK_SIZE` bytes is read at a
    time, and each completed read sends its slice and schedules the next
    read, until the offset reaches the file size. A read that completes while
    the peer is no longer connected sends nothing and schedules nothing. */
module Sender {
  import opened Prelude
  import opened FileProtocol
  import opened Session

  /** A message put on the peer channel. */
  datatype Wire = Control(metadata: FileMetadata) | Data(bytes: seq<byte>)

  function AsData(cs: seq<seq<byte>>): (ws: seq<Wire>)
    ensures |ws| == |cs|
    ensures forall k | 0 <= k < |cs| :: ws[k] == Data(cs[k])
  {
    seq(|cs|, k requires 0 <= k < |cs| => Data(cs[k]))
  }

  /** Reference chunking: the slices `[offset, offset + CHUNK_SIZE)`, clamped
      to the file end, from `offset` on. The last slice is whatever remains,
      so an empty remainder still gives one empty slice. */
  function SlicesFrom(file: seq<byte>, offset: nat): seq<seq<byte>>
    requires offset <= |file|
    decreases |file| - offset
  {
    if |file| - offset <= CHUNK_SIZE then [file[offset..]]
    else [file[offset..offset + CHUNK_SIZE]] + SlicesFrom(file, offset + CHUNK_SIZE)
  }

  function Slices(file: seq<byte>): seq<seq<byte>>
  {
    SlicesFrom(file, 0)
  }

  /** Number of data messages for a file of `n` bytes: ceil(n / CHUNK_SIZE),
      and one (empty) message for an empty file. */
  function ChunkCount(n: nat): nat
  {
    if n == 0 then 1 else (n + CHUNK_SIZE - 1) / CHUNK_SIZE
  }

  lemma {:induction false} SlicesConcat(file: seq<byte>, offset: nat)
    requires offset <= |file|
    ensures Concat(SlicesFrom(file, offset)) == file[offset..]
    decreases |file| - offset
  {
    var s := SlicesFrom(file, offset);
    if |file| - offset <= CHUNK_SIZE {
      assert s[1..] == [];
    } else {
      assert s[1..] == SlicesFrom(file, offset + CHUNK_SIZE);
      SlicesConcat(file, offset + CHUNK_SIZE);
      assert file[offset..] == file[offset..offset + CHUNK_SIZE] + file[offset + CHUNK_SIZE..];
    }
  }

  lemma {:induction false} SlicesBounded(file: seq<byte>, offset: nat)
    requires offset <= |file|
    ensures forall k | 0 <= k < |SlicesFrom(file, offset)| :: |SlicesFrom(file, offset)[k]| <= CHUNK_SIZE
    decreases |file| - offset
  {
    if |file| - offset > CHUNK_SIZE {
      SlicesBounded(file, offset + CHUNK_SIZE);
    }
  }

  lemma {:induction false} SlicesCount(file: seq<byte>, offset: nat)
    requires offset <= |file|
    ensures |SlicesFrom(file, offset)| == ChunkCount(|file| - offset)
    decreases |file| - offset
  {
    if |file| - offset > CHUNK_SIZE {
      SlicesCount(file, offset + CHUNK_SIZE);
    }
  }

  /** Every slice but the last is full, so the bytes before the last slice
      fall short of the remainder. */
  lemma {:induction false} SlicesPrefixShort(file: seq<byte>, offset: nat)
    requires offset <= |file|
    ensures var s := SlicesFrom(file, offset);
            |s| >= 2 ==> TotalLength(s[..|s| - 1]) < |file| - offset
    decreases |file| - offset
  {
    var s := SlicesFrom(file, offset);
    if |s| >= 2 {
      var s' := SlicesFrom(file, offset + CHUNK_SIZE);
      assert s == [file[offset..offset + CHUNK_SIZE]] + s';
      assert s[..|s| - 1] == [s[0]] + s'[..|s'| - 1];
      assert TotalLength(s[..|s| - 1]) == CHUNK_SIZE + TotalLength(s'[..|s'| - 1]);
      SlicesPrefixShort(file, offset + CHUNK_SIZE);
    }
  }

  /** What one completed read does (`reader.onload`). Halted: the peer was
      not connected, nothing is sent and no further read is scheduled.
      Sent: the slice read is sent, the offset advances by its length, and
      `more` says whether another read is scheduled. */
  datatype ReadResult = Halted | Sent(chunk: seq<byte>, offset: nat, more: bool)

  function OnRead(file: seq<byte>, offset: nat, connected: bool): (r: ReadResult)
    requires offset <= |file|
    ensures r.Halted? <==> !connected
    ensures r.Sent? ==>
              && r.chunk == SlicesFrom(file, offset)[0]
              && r.offset == offset + |r.chunk| <= |file|
              && |r.chunk| <= CHUNK_SIZE
              && (r.more <==> r.offset < |file|)
              && (r.more ==> SlicesFrom(file, offset) == [r.chunk] + SlicesFrom(file, r.offset))
              && (!r.more ==> SlicesFrom(file, offset) == [r.chunk])
  {
    if !connected then Halted
    else
      var chunk := file[offset..Min(offset + CHUNK_SIZE, |file|)];
      var next := offset + |chunk|;
      Sent(chunk, next, next < |file|)
  }

  /** The facts one sent slice preserves: the slices sent so far followed
      by the reference slices from the new offset are still the reference
      chunking, and the bytes sent are still the file's prefix. */
  lemma SentStep(file: seq<byte>, offset: nat, chunks: seq<seq<byte>>, r: ReadResult)
    requires offset <= |file|
    requires chunks + SlicesFrom(file, offset) == Slices(file)
    requires Concat(chunks) == file[..offset]
    requires r.Sent? && r == OnRead(file, offset, true)
    ensures r.more ==> (chunks + [r.chunk]) + SlicesFrom(file, r.offset) == Slices(file)
    ensures !r.more ==> chunks + [r.chunk] == Slices(file) && r.offset == |file|
    ensures Concat(chunks + [r.chunk]) == file[..r.offset]
  {
    var chunk := r.chunk;
    assert chunk == file[offset..r.offset];
    assert file[..r.offset] == file[..offset] + chunk;
    ConcatSnoc(chunks, chunk);
    if r.more {
      assert SlicesFrom(file, offset) == [chunk] + SlicesFrom(file, r.offset);
      assert (chunks + [chunk]) + SlicesFrom(file, r.offset) == chunks + SlicesFrom(file, offset);
    } else {
      assert SlicesFrom(file, offset) == [chunk];
    }
  }

  lemma PrefixOfSum<T>(a: seq<T>, b: seq<T>, c: seq<T>)
    requires a + b == c
    ensures |a| <= |c| && a == c[..|a|]
  {
    assert c[..|a|] == (a + b)[..|a|];
  }

  /** The displayed summary while sending, after `sent` bytes went out. */
  function SendingView(name: string, size: nat, sent: nat): TransferView
  {
    TransferView(name, size, sent, false, 0.0)
  }

  /** `sendFile`, with the reads run to the end. `connectedAtRead(k)` tells
      whether the peer is connected when the k-th read (from 0) completes.
      With no peer nothing happens at all. Otherwise the control message
      comes first and is followed only by data messages; the data sent are
      the first slices of the reference chunking, their bytes are the file's
      prefix up to `offset`, and the run either finishes with the whole file
      in `ChunkCount(|file|)` messages or halts at the first read that finds
      the peer disconnected. */
  method SendFile(peerExists: bool, file: seq<byte>, name: string, mimeType: string,
                  e: Engine, nowMs: int, connectedAtRead: nat -> bool)
    returns (wire: seq<Wire>, chunks: seq<seq<byte>>, offset: nat, finished: bool, next: Engine)
    ensures wire == if peerExists then [Control(FileMetadata(name, |file|, mimeType))] + AsData(chunks) else []
    ensures !peerExists ==> chunks == [] && offset == 0 && !finished && next == e
    ensures |chunks| <= |Slices(file)| && chunks == Slices(file)[..|chunks|]
    ensures offset <= |file| && Concat(chunks) == file[..offset]
    ensures forall k | 0 <= k < |chunks| :: |chunks[k]| <= CHUNK_SIZE
    ensures finished ==> offset == |file| && chunks == Slices(file) && |chunks| == ChunkCount(|file|)
    ensures forall k | 0 <= k < |chunks| :: connectedAtRead(k)
    ensures peerExists && !finished ==> !connectedAtRead(|chunks|)
    ensures peerExists ==>
              next == e.(transfer := Some(SendingView(name, |file|, offset)),
                         lastBytes := 0, lastTime := nowMs, currentBytes := offset)
  {
    wire, chunks, offset, finished, next := [], [], 0, false, e;
    if !peerExists {
      return;
    }
    next := e.(transfer := Some(SendingView(name, |file|, 0)),
               lastBytes := 0, lastTime := nowMs, currentBytes := 0);
    var reading := true;
    while reading
      invariant offset <= |file|
      invariant !finished ==> chunks + SlicesFrom(file, offset) == Slices(file)
      invariant finished ==> offset == |file| && chunks == Slices(file) && !reading
      invariant Concat(chunks) == file[..offset]
      invariant forall k | 0 <= k < |chunks| :: |chunks[k]| <= CHUNK_SIZE
      invariant forall k | 0 <= k < |chunks| :: connectedAtRead(k)
      invariant !reading && !finished ==> !connectedAtRead(|chunks|)
      invariant next == e.(transfer := Some(SendingView(name, |file|, offset)),
                           lastBytes := 0, lastTime := nowMs, currentBytes := offset)
      decreases |file| - offset, if reading then 1 else 0
    {
      var r := OnRead(file, offset, connectedAtRead(|chunks|));
      if r.Halted? {
        reading := false;
      } else {
        SentStep(file, offset, chunks, r);
        chunks := chunks + [r.chunk];
        offset := r.offset;
        next := next.(transfer := Some(SendingView(name, |file|, offset)), currentBytes := offset);
        if !r.more {
          reading := false;
          finished := true;
        }
      }
    }
    if !finished {
      PrefixOfSum(chunks, SlicesFrom(file, offset), Slices(file));
    }
    if finished {
      SlicesCount(file, 0);
    }
    wire := [Control(FileMetadata(name, |file|, mimeType))] + AsData(chunks);
  }

  /** The sender's 3-second timer after the last chunk: the summary goes. */
  function SendClearTimerFired(e: Engine): (r: Engine)
    ensures r.transfer.None?
    ensures r.(transfer := e.transfer) == e
  {
    e.(transfer := None)
  }
}
