/** The two browser primitives the file protocol leans on: `btoa`, which
    encodes a binary string with the Base 64 alphabet and padding of section 4
    of RFC 4648, and `atob`, which decodes with the lenient
    "forgiving-base64 decode" of the WHATWG Infra standard (ASCII whitespace
    ignored, padding optional, leftover low bits discarded). A "binary string"
    is a string whose every character has a code below 256, one per byte. */
module Base64 {
  import opened Prelude

  /** Section 4 of RFC 4648, Table 1: the character for a 6-bit value. */
  function EncodeSextet(v: int): (c: char)
    requires 0 <= v < 64
    ensures SextetValue(c) == Some(v)
  {
    if v < 26 then ('A' as int + v) as char
    else if v < 52 then ('a' as int + (v - 26)) as char
    else if v < 62 then ('0' as int + (v - 52)) as char
    else if v == 62 then '+'
    else '/'
  }

  /** The 6-bit value of an alphabet character, or None for any other
      character (`=` included). */
  function SextetValue(c: char): (r: Option<int>)
    ensures r.Some? ==> 0 <= r.value < 64
  {
    if 'A' <= c <= 'Z' then Some(c as int - 'A' as int)
    else if 'a' <= c <= 'z' then Some(c as int - 'a' as int + 26)
    else if '0' <= c <= '9' then Some(c as int - '0' as int + 52)
    else if c == '+' then Some(62)
    else if c == '/' then Some(63)
    else None
  }

  /** Every value in the alphabet's range is produced by exactly its own
      character: decoding a character and encoding the value gives it back. */
  lemma SextetCharRoundTrip(c: char)
    requires SextetValue(c).Some?
    ensures EncodeSextet(SextetValue(c).value) == c
  {
  }

  predicate IsAlphabet(c: char)
  {
    SextetValue(c).Some?
  }

  predicate AllAlphabet(s: string)
  {
    forall i | 0 <= i < |s| :: IsAlphabet(s[i])
  }

  function V(c: char): int
    requires IsAlphabet(c)
  {
    SextetValue(c).value
  }

  /** Four characters for three bytes (RFC 4648, section 4). */
  function EncodeQuantum(x: byte, y: byte, z: byte): (s: string)
    ensures |s| == 4 && AllAlphabet(s)
  {
    [EncodeSextet(x / 4), EncodeSextet((x % 4) * 16 + y / 16),
     EncodeSextet((y % 16) * 4 + z / 64), EncodeSextet(z % 64)]
  }

  /** The encoding without padding: every three bytes become four
      characters; a final one or two bytes become two or three characters
      whose unused low bits are zero. */
  function Bare(b: seq<byte>): (s: string)
    ensures |s| == (4 * |b| + 2) / 3
    ensures |s| % 4 != 1
    ensures AllAlphabet(s)
    decreases |b|
  {
    if |b| == 0 then []
    else if |b| == 1 then EncodeQuantum(b[0], 0, 0)[..2]
    else if |b| == 2 then EncodeQuantum(b[0], b[1], 0)[..3]
    else EncodeQuantum(b[0], b[1], b[2]) + Bare(b[3..])
  }

  /** The `=` characters that complete the final quantum (RFC 4648, section 4,
      cases (2) and (3)). */
  function Padding(n: nat): string
  {
    if n % 3 == 1 then "==" else if n % 3 == 2 then "=" else ""
  }

  /** Base 64 encoding of section 4 of RFC 4648, as `btoa` produces it. */
  function Encode(b: seq<byte>): (s: string)
    ensures |s| == 4 * ((|b| + 2) / 3)
    ensures |s| % 4 == 0
  {
    PaddedLength(|b|);
    Bare(b) + Padding(|b|)
  }

  /** The unpadded length plus the padding fills whole quanta. */
  lemma PaddedLength(n: nat)
    ensures (4 * n + 2) / 3 + |Padding(n)| == 4 * ((n + 2) / 3)
  {
    var q := n / 3;
    assert n == 3 * q + n % 3;
    assert (4 * n + 2) / 3 == 4 * q + (4 * (n % 3) + 2) / 3;
    assert (n + 2) / 3 == q + (n % 3 + 2) / 3;
  }

  /** Three bytes for four alphabet characters. */
  function DecodeQuantum(a: char, b: char, c: char, d: char): (r: seq<byte>)
    requires IsAlphabet(a) && IsAlphabet(b) && IsAlphabet(c) && IsAlphabet(d)
    ensures |r| == 3
  {
    [V(a) * 4 + V(b) / 16, (V(b) % 16) * 16 + V(c) / 4, (V(c) % 4) * 64 + V(d)]
  }

  /** Decoding of unpadded alphabet text, four characters to three bytes; a
      final two or three characters give one or two bytes and their leftover
      low bits are dropped. */
  function DecodeBare(t: string): (b: seq<byte>)
    requires |t| % 4 != 1
    requires AllAlphabet(t)
    ensures |b| == 3 * |t| / 4
    decreases |t|
  {
    if |t| == 0 then []
    else if |t| == 2 then DecodeQuantum(t[0], t[1], 'A', 'A')[..1]
    else if |t| == 3 then DecodeQuantum(t[0], t[1], t[2], 'A')[..2]
    else DecodeQuantum(t[0], t[1], t[2], t[3]) + DecodeBare(t[4..])
  }

  /** ASCII whitespace as the Infra standard defines it: tab, line feed,
      form feed, carriage return and space. */
  predicate IsAsciiWhitespace(c: char)
  {
    c as int == 9 || c as int == 10 || c as int == 12 || c as int == 13 || c as int == 32
  }

  function StripWhitespace(s: string): (r: string)
    ensures |r| <= |s|
    ensures forall i | 0 <= i < |r| :: !IsAsciiWhitespace(r[i])
  {
    if s == [] then []
    else if IsAsciiWhitespace(s[0]) then StripWhitespace(s[1..])
    else [s[0]] + StripWhitespace(s[1..])
  }

  /** When the length is a multiple of four, one or two trailing `=` are
      removed. */
  function StripPadding(t: string): string
  {
    if |t| % 4 == 0 && |t| >= 2 && t[|t| - 1] == '=' && t[|t| - 2] == '=' then t[..|t| - 2]
    else if |t| % 4 == 0 && |t| >= 1 && t[|t| - 1] == '=' then t[..|t| - 1]
    else t
  }

  /** The forgiving-base64 decode that `atob` runs; None is the failure that
      makes `atob` throw. */
  function ForgivingDecode(s: string): (r: Option<seq<byte>>)
    ensures r.None? <==>
              var u := StripPadding(StripWhitespace(s));
              |u| % 4 == 1 || !AllAlphabet(u)
    ensures r.Some? ==> |r.value| == 3 * |StripPadding(StripWhitespace(s))| / 4
  {
    var u := StripPadding(StripWhitespace(s));
    if |u| % 4 == 1 || !AllAlphabet(u) then None
    else Some(DecodeBare(u))
  }

  // ---------------------------------------------------------------------
  // Binary strings: one character per byte, character code equal to byte.

  predicate IsBinaryString(s: string)
  {
    forall i | 0 <= i < |s| :: s[i] as int < 256
  }

  function ToBinaryString(b: seq<byte>): (s: string)
    ensures |s| == |b|
    ensures forall i | 0 <= i < |b| :: s[i] as int == b[i]
  {
    seq(|b|, i requires 0 <= i < |b| => b[i] as char)
  }

  function FromBinaryString(s: string): (b: seq<byte>)
    requires IsBinaryString(s)
    ensures |b| == |s|
    ensures forall i | 0 <= i < |s| :: b[i] == s[i] as int
  {
    seq(|s|, i requires 0 <= i < |s| => s[i] as int)
  }

  /** `window.btoa`: throws (None) when some character is above U+00FF. */
  function Btoa(s: string): (r: Option<string>)
    ensures r.Some? <==> IsBinaryString(s)
    ensures r.Some? ==> |r.value| == 4 * ((|s| + 2) / 3)
    ensures r.Some? ==> ForgivingDecode(r.value) == Some(FromBinaryString(s))
  {
    if IsBinaryString(s) then
      DecodeEncode(FromBinaryString(s));
      Some(Encode(FromBinaryString(s)))
    else None
  }

  /** `window.atob`: the decoded bytes as a binary string, or None where the
      forgiving decode fails and `atob` throws. */
  function Atob(s: string): (r: Option<string>)
    ensures r.Some? ==> IsBinaryString(r.value)
    ensures r.Some? <==> ForgivingDecode(s).Some?
  {
    match ForgivingDecode(s)
    case None => None
    case Some(b) => Some(ToBinaryString(b))
  }

  // ---------------------------------------------------------------------
  // Round trip.

  /** The bit splices of one quantum: the high part of a sextet rejoins the
      low part of the previous byte, the low part starts the next byte. */
  lemma SpliceHigh(x: byte, y: byte)
    ensures (x / 4) * 4 + ((x % 4) * 16 + y / 16) / 16 == x
  {
    assert ((x % 4) * 16 + y / 16) / 16 == x % 4;
  }

  lemma SpliceMiddle(x: byte, y: byte, z: byte)
    ensures (((x % 4) * 16 + y / 16) % 16) * 16 + ((y % 16) * 4 + z / 64) / 4 == y
  {
    assert ((x % 4) * 16 + y / 16) % 16 == y / 16;
    assert ((y % 16) * 4 + z / 64) / 4 == y % 16;
  }

  lemma SpliceLow(y: byte, z: byte)
    ensures (((y % 16) * 4 + z / 64) % 4) * 64 + z % 64 == z
  {
    assert ((y % 16) * 4 + z / 64) % 4 == z / 64;
  }

  lemma QuantumRoundTrip(x: byte, y: byte, z: byte)
    ensures var q := EncodeQuantum(x, y, z);
            DecodeQuantum(q[0], q[1], q[2], q[3]) == [x, y, z]
  {
    var s0, s1, s2, s3 := x / 4, (x % 4) * 16 + y / 16, (y % 16) * 4 + z / 64, z % 64;
    var q := EncodeQuantum(x, y, z);
    assert V(q[0]) == s0 && V(q[1]) == s1 && V(q[2]) == s2 && V(q[3]) == s3;
    SpliceHigh(x, y);
    SpliceMiddle(x, y, z);
    SpliceLow(y, z);
  }

  /** One full quantum at the front of the unpadded encoding decodes to its
      three bytes, ahead of the decoding of the rest. */
  lemma BareFront(b: seq<byte>)
    requires |b| >= 3
    ensures DecodeBare(Bare(b)) == [b[0], b[1], b[2]] + DecodeBare(Bare(b[3..]))
  {
    var q := EncodeQuantum(b[0], b[1], b[2]);
    var rest := Bare(b[3..]);
    var t := Bare(b);
    assert t == q + rest;
    assert t[0] == q[0] && t[1] == q[1] && t[2] == q[2] && t[3] == q[3];
    assert t[4..] == rest;
    QuantumRoundTrip(b[0], b[1], b[2]);
  }

  /** A final single byte decodes back from its two characters: the two
      characters it leaves out do not reach the first byte. */
  lemma BareOne(x: byte)
    ensures DecodeBare(Bare([x])) == [x]
  {
    var q := EncodeQuantum(x, 0, 0);
    var t := Bare([x]);
    assert t == q[..2];
    QuantumRoundTrip(x, 0, 0);
    assert DecodeQuantum(q[0], q[1], q[2], q[3])[0] == x;
    assert DecodeBare(t) == DecodeQuantum(t[0], t[1], 'A', 'A')[..1];
  }

  /** A final pair of bytes decodes back from its three characters. */
  lemma BareTwo(x: byte, y: byte)
    ensures DecodeBare(Bare([x, y])) == [x, y]
  {
    var q := EncodeQuantum(x, y, 0);
    var t := Bare([x, y]);
    assert t == q[..3];
    QuantumRoundTrip(x, y, 0);
    assert DecodeQuantum(q[0], q[1], q[2], q[3])[..2] == [x, y];
    assert DecodeBare(t) == DecodeQuantum(t[0], t[1], t[2], 'A')[..2];
  }

  /** Decoding the unpadded encoding gives back every byte. */
  lemma {:induction false} BareRoundTrip(b: seq<byte>)
    ensures DecodeBare(Bare(b)) == b
    decreases |b|
  {
    if |b| == 0 {
    } else if |b| == 1 {
      assert b == [b[0]];
      BareOne(b[0]);
    } else if |b| == 2 {
      assert b == [b[0], b[1]];
      BareTwo(b[0], b[1]);
    } else {
      BareFront(b);
      BareRoundTrip(b[3..]);
      assert b == [b[0], b[1], b[2]] + b[3..];
    }
  }

  lemma {:induction false} StripWhitespaceKeeps(s: string)
    requires forall i | 0 <= i < |s| :: !IsAsciiWhitespace(s[i])
    ensures StripWhitespace(s) == s
  {
    if s != [] {
      StripWhitespaceKeeps(s[1..]);
    }
  }

  lemma StripPaddingOfEncode(b: seq<byte>)
    ensures StripPadding(Encode(b)) == Bare(b)
  {
    var t := Encode(b);
    var bare := Bare(b);
    assert t == bare + Padding(|b|);
    if |b| % 3 == 2 {
      assert |bare| >= 1 && IsAlphabet(bare[|bare| - 1]);
      assert t[|t| - 2] == bare[|bare| - 1];
      assert t[..|t| - 1] == bare;
    } else if |b| % 3 == 1 {
      assert t[..|t| - 2] == bare;
    } else if |t| > 0 {
      assert t[|t| - 1] == bare[|bare| - 1];
    }
  }

  lemma EncodeHasNoWhitespace(b: seq<byte>)
    ensures forall i | 0 <= i < |Encode(b)| :: !IsAsciiWhitespace(Encode(b)[i])
  {
    var t := Encode(b);
    var bare := Bare(b);
    forall i | 0 <= i < |t|
      ensures !IsAsciiWhitespace(t[i])
    {
      if i < |bare| {
        assert t[i] == bare[i] && IsAlphabet(bare[i]);
      } else {
        assert t[i] == '=';
      }
    }
  }

  /** `atob` inverts `btoa` at the level of bytes: decoding an encoding
      succeeds and returns the encoded bytes. */
  lemma DecodeEncode(b: seq<byte>)
    ensures ForgivingDecode(Encode(b)) == Some(b)
  {
    var t := Encode(b);
    EncodeHasNoWhitespace(b);
    StripWhitespaceKeeps(t);
    StripPaddingOfEncode(b);
    var u := StripPadding(StripWhitespace(t));
    assert u == Bare(b);
    assert !(|u| % 4 == 1 || !AllAlphabet(u));
    BareRoundTrip(b);
  }

  /** The same round trip on binary strings: `atob(btoa(s)) == s`. */
  lemma AtobBtoa(s: string)
    requires IsBinaryString(s)
    ensures Btoa(s).Some? && Atob(Btoa(s).value) == Some(s)
  {
    var b := FromBinaryString(s);
    DecodeEncode(b);
    assert ToBinaryString(b) == s;
  }
}
