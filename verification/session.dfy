/** The mutable cells of the transfer hook, grouped into one value: what the
    receiver has accumulated, the byte counters the speed sampler reads, and
    the transfer summary the interface displays. */
module Session {
  import opened Prelude
  import opened FileProtocol

  /** The displayed transfer summary (`TransferState`). The percentage is
      derived from the two byte counts and is not stored here. */
  datatype TransferView = TransferView(
    fileName: string,
    totalBytes: nat,
    transferredBytes: nat,
    isReceiving: bool,
    speed: real)

  /** All per-hook state of the transfer engine:
      `incoming` the announced metadata (`incomingInfoRef`), `chunks` the
      buffers received so far, `receivedBytes` their running byte count,
      `lastBytes`/`lastTime` the previous speed sample, `currentBytes` the
      byte count the next sample reads, `transfer` the displayed summary. */
  datatype Engine = Engine(
    incoming: Option<FileMetadata>,
    chunks: seq<seq<byte>>,
    receivedBytes: nat,
    lastBytes: nat,
    lastTime: int,
    currentBytes: nat,
    transfer: Option<TransferView>)

  /** The state when the hook mounts. */
  const Fresh: Engine := Engine(None, [], 0, 0, 0, 0, None)

  /** Shortest wall-clock gap, in milliseconds, between two speed samples. */
  const SAMPLE_INTERVAL_MS: int := 1000

  /** One firing of the periodic speed sampler at wall-clock time `nowMs`.
      The sampler only runs while a transfer is displayed; it takes a sample
      only when at least one second has passed since the previous one, and
      the speed it shows is the bytes moved since then per elapsed second. */
  function Tick(e: Engine, nowMs: int): (r: Engine)
    ensures e.transfer.None? || nowMs - e.lastTime < SAMPLE_INTERVAL_MS ==> r == e
    ensures e.transfer.Some? && nowMs - e.lastTime >= SAMPLE_INTERVAL_MS ==>
              && r.lastTime == nowMs
              && r.lastBytes == e.currentBytes
              && r.transfer.Some?
              && r.transfer.value.speed * ((nowMs - e.lastTime) as real)
                 == ((e.currentBytes - e.lastBytes) * 1000) as real
              && r.transfer.value.(speed := 0.0) == e.transfer.value.(speed := 0.0)
              && r.(lastBytes := e.lastBytes, lastTime := e.lastTime, transfer := e.transfer) == e
  {
    if e.transfer.None? then e
    else
      var elapsed := nowMs - e.lastTime;
      if elapsed < SAMPLE_INTERVAL_MS then e
      else
        var speed := ((e.currentBytes - e.lastBytes) * 1000) as real / (elapsed as real);
        e.(transfer := Some(e.transfer.value.(speed := speed)),
           lastBytes := e.currentBytes,
           lastTime := nowMs)
  }

  /** Two firings less than a second apart take at most one sample: right
      after a sample, the next firing within the interval changes nothing. */
  lemma AtMostOneSamplePerInterval(e: Engine, t1: int, t2: int)
    requires e.transfer.Some? && t1 - e.lastTime >= SAMPLE_INTERVAL_MS
    requires t1 <= t2 < t1 + SAMPLE_INTERVAL_MS
    ensures Tick(Tick(e, t1), t2) == Tick(e, t1)
  {
  }
}
