/** The wire constants and the Base 64 helpers of the file protocol. */
module FileProtocol {
  import opened Prelude
  import opened Base64

  /** Largest data message the sender emits, in bytes. */
  const CHUNK_SIZE: nat := 16384

  /** What a `FILE_START` control message announces. `size` is the exact byte
      length of the file; `mimeType` is advisory. */
  datatype FileMetadata = FileMetadata(name: string, size: nat, mimeType: string)

  /** The loop of `arrayBufferToBase64`: one character per byte, each
      character's code equal to its byte. */
  method BytesToBinary(bytes: seq<byte>) returns (binary: string)
    ensures |binary| == |bytes|
    ensures forall i | 0 <= i < |bytes| :: binary[i] as int == bytes[i]
  {
    binary := "";
    var i := 0;
    while i < |bytes|
      invariant 0 <= i <= |bytes|
      invariant |binary| == i
      invariant forall k | 0 <= k < i :: binary[k] as int == bytes[k]
    {
      binary := binary + [bytes[i] as char];
      i := i + 1;
    }
  }

  /** The loop of `base64ToArrayBuffer`: storing a character code into a
      `Uint8Array` keeps it modulo 256. */
  method BinaryToBytes(binary: string) returns (bytes: seq<byte>)
    ensures |bytes| == |binary|
    ensures forall i | 0 <= i < |binary| :: bytes[i] == binary[i] as int % 256
    ensures IsBinaryString(binary) ==> forall i | 0 <= i < |binary| :: bytes[i] == binary[i] as int
  {
    bytes := [];
    var i := 0;
    while i < |binary|
      invariant 0 <= i <= |binary|
      invariant |bytes| == i
      invariant forall k | 0 <= k < i :: bytes[k] == binary[k] as int % 256
    {
      bytes := bytes + [binary[i] as int % 256];
      i := i + 1;
    }
  }

  /** `arrayBufferToBase64`: exactly the padded Base 64 text of the buffer,
      4 characters per started group of 3 bytes, which decodes back to it. */
  method ArrayBufferToBase64(buffer: seq<byte>) returns (encoded: string)
    ensures encoded == Encode(buffer)
    ensures |encoded| == 4 * ((|buffer| + 2) / 3)
    ensures AllAlphabet(StripPadding(encoded))
    ensures ForgivingDecode(encoded) == Some(buffer)
  {
    var binary := BytesToBinary(buffer);
    var r := Btoa(binary);
    assert FromBinaryString(binary) == buffer;
    encoded := r.value;
    StripPaddingOfEncode(buffer);
    DecodeEncode(buffer);
  }

  /** `base64ToArrayBuffer`: None where `atob` throws; otherwise the decoded
      bytes. Applied to any encoding it returns the encoded bytes. */
  method Base64ToArrayBuffer(text: string) returns (r: Option<seq<byte>>)
    ensures r.Some? <==> ForgivingDecode(text).Some?
    ensures r.Some? ==> r.value == ForgivingDecode(text).value
    ensures forall b: seq<byte> | text == Encode(b) :: r == Some(b)
  {
    var decoded := Atob(text);
    if decoded.None? {
      r := None;
    } else {
      var bytes := BinaryToBytes(decoded.value);
      assert bytes == ForgivingDecode(text).value;
      r := Some(bytes);
    }
    forall b: seq<byte> | text == Encode(b)
      ensures r == Some(b)
    {
      DecodeEncode(b);
    }
  }
}
