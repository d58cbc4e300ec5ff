/** Small shared vocabulary: optional values, bytes, and the concatenation of
    a list of byte buffers (what a `Blob` built from chunks holds). */
module Prelude {

  /** The conventional optional value, used for the source's `null`. */
  datatype Option<+T> = None | Some(value: T)

  /** An unsigned 8-bit value, the element type of a `Uint8Array`. */
  type byte = x: int | 0 <= x < 256

  function Min(a: int, b: int): int
  {
    if a <= b then a else b
  }

  /** The bytes of a list of buffers laid end to end, in list order. */
  function Concat(chunks: seq<seq<byte>>): seq<byte>
  {
    if chunks == [] then [] else chunks[0] + Concat(chunks[1..])
  }

  /** The total byte length of a list of buffers. */
  function TotalLength(chunks: seq<seq<byte>>): nat
  {
    if chunks == [] then 0 else |chunks[0]| + TotalLength(chunks[1..])
  }

  lemma {:induction false} ConcatLength(chunks: seq<seq<byte>>)
    ensures |Concat(chunks)| == TotalLength(chunks)
  {
    if chunks != [] {
      ConcatLength(chunks[1..]);
    }
  }

  /** Concatenation distributes over appending one more buffer at the end. */
  lemma {:induction false} ConcatSnoc(chunks: seq<seq<byte>>, last: seq<byte>)
    ensures Concat(chunks + [last]) == Concat(chunks) + last
    ensures TotalLength(chunks + [last]) == TotalLength(chunks) + |last|
  {
    if chunks == [] {
      assert chunks + [last] == [last];
    } else {
      assert (chunks + [last])[1..] == chunks[1..] + [last];
      ConcatSnoc(chunks[1..], last);
    }
  }
}
