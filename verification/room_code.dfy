/** Room-code entry on the start screen: the typed text is normalised to at
    most six upper-case letters and digits, and a room is joined only with a
    code of exactly six characters. Upper-casing is modelled for ASCII
    letters; any other character is dropped by the filter. */
module RoomCode {
  import opened Prelude

  /** Length of a room code. */
  const CODE_LENGTH: nat := 6

  predicate IsCodeChar(c: char)
  {
    'A' <= c <= 'Z' || '0' <= c <= '9'
  }

  predicate AllCodeChars(s: string)
  {
    forall i | 0 <= i < |s| :: IsCodeChar(s[i])
  }

  /** A complete room code. */
  predicate IsRoomCode(s: string)
  {
    |s| == CODE_LENGTH && AllCodeChars(s)
  }

  /** A possible content of the input field. */
  predicate IsNormalized(s: string)
  {
    |s| <= CODE_LENGTH && AllCodeChars(s)
  }

  function UpperAscii(c: char): (u: char)
    ensures 'a' <= c <= 'z' ==> u as int == c as int - 32
    ensures !('a' <= c <= 'z') ==> u == c
  {
    if 'a' <= c <= 'z' then (c as int - 32) as char else c
  }

  function Upper(s: string): (u: string)
    ensures |u| == |s|
    ensures forall i | 0 <= i < |s| :: u[i] == UpperAscii(s[i])
  {
    seq(|s|, i requires 0 <= i < |s| => UpperAscii(s[i]))
  }

  /** `replace(/[^A-Z0-9]/g, '')`. */
  function KeepCodeChars(s: string): (k: string)
    ensures AllCodeChars(k) && |k| <= |s|
  {
    if s == [] then []
    else if IsCodeChar(s[0]) then [s[0]] + KeepCodeChars(s[1..])
    else KeepCodeChars(s[1..])
  }

  /** `handleInputChange`: upper-case, keep `[A-Z0-9]`, then the first six. */
  function Normalize(raw: string): (code: string)
    ensures IsNormalized(code)
  {
    var kept := KeepCodeChars(Upper(raw));
    kept[..Min(CODE_LENGTH, |kept|)]
  }

  lemma {:induction false} KeepAppend(a: string, b: string)
    ensures KeepCodeChars(a + b) == KeepCodeChars(a) + KeepCodeChars(b)
  {
    if a != [] {
      assert (a + b)[0] == a[0] && (a + b)[1..] == a[1..] + b;
      KeepAppend(a[1..], b);
    } else {
      assert a + b == b;
    }
  }

  lemma {:induction false} KeepAllCodeChars(s: string)
    requires AllCodeChars(s)
    ensures KeepCodeChars(s) == s
  {
    if s != [] {
      KeepAllCodeChars(s[1..]);
    }
  }

  /** Normalising an already normalised code returns it unchanged. */
  lemma NormalizeIdempotent(raw: string)
    ensures Normalize(Normalize(raw)) == Normalize(raw)
  {
    var code := Normalize(raw);
    assert Upper(code) == code;
    KeepAllCodeChars(code);
  }

  lemma UpperKeepsCodeChars(s: string)
    requires forall i | 0 <= i < |s| :: IsCodeChar(UpperAscii(s[i]))
    ensures AllCodeChars(Upper(s))
  {
  }

  lemma UpperAppend(a: string, b: string)
    ensures Upper(a + b) == Upper(a) + Upper(b)
  {
  }

  /** Input whose first six characters are ASCII letters and digits
      normalises to exactly those six, upper-cased, in order. */
  lemma NormalizeAlphanumericPrefix(raw: string)
    requires |raw| >= CODE_LENGTH
    requires forall i | 0 <= i < CODE_LENGTH :: IsCodeChar(UpperAscii(raw[i]))
    ensures Normalize(raw) == Upper(raw[..CODE_LENGTH])
    ensures IsRoomCode(Normalize(raw))
  {
    var front := raw[..CODE_LENGTH];
    var back := raw[CODE_LENGTH..];
    assert raw == front + back;
    UpperAppend(front, back);
    var head := Upper(front);
    UpperKeepsCodeChars(front);
    KeepAllCodeChars(head);
    KeepAppend(head, Upper(back));
    var kept := KeepCodeChars(Upper(raw));
    assert kept == head + KeepCodeChars(Upper(back));
    PrefixOfAppend(head, KeepCodeChars(Upper(back)));
    assert Normalize(raw) == kept[..CODE_LENGTH];
  }

  lemma PrefixOfAppend(a: string, b: string)
    ensures (a + b)[..|a|] == a
  {
  }

  /** A character outside `[A-Za-z0-9]` contributes nothing: removing it
      from the input does not change the code. */
  lemma NormalizeIgnoresOtherChars(x: string, c: char, y: string)
    requires !IsCodeChar(UpperAscii(c))
    ensures Normalize(x + [c] + y) == Normalize(x + y)
  {
    assert Upper(x + [c] + y) == Upper(x) + [UpperAscii(c)] + Upper(y);
    assert Upper(x + y) == Upper(x) + Upper(y);
    KeepAppend(Upper(x) + [UpperAscii(c)], Upper(y));
    KeepAppend(Upper(x), [UpperAscii(c)]);
    KeepAppend(Upper(x), Upper(y));
    assert KeepCodeChars([UpperAscii(c)]) == [];
  }

  /** An early-exit alternative to `Normalize`: a single pass that stops
      once six characters are kept. It computes the same code. */
  method NormalizeInput(raw: string) returns (code: string)
    ensures code == Normalize(raw)
    ensures IsNormalized(code)
  {
    code := "";
    var i := 0;
    while i < |raw| && |code| < CODE_LENGTH
      invariant 0 <= i <= |raw|
      invariant |code| <= CODE_LENGTH
      invariant code == KeepCodeChars(Upper(raw[..i]))
    {
      var c := UpperAscii(raw[i]);
      assert Upper(raw[..i + 1]) == Upper(raw[..i]) + [c];
      KeepAppend(Upper(raw[..i]), [c]);
      if IsCodeChar(c) {
        code := code + [c];
      }
      i := i + 1;
    }
    assert raw == raw[..i] + raw[i..];
    assert Upper(raw) == Upper(raw[..i]) + Upper(raw[i..]);
    KeepAppend(Upper(raw[..i]), Upper(raw[i..]));
  }

  // ---------------------------------------------------------------------
  // The start screen.

  /** `roomId` (None while no room is joined) and the input field. */
  datatype App = App(room: Option<string>, input: string)

  datatype UiEvent = Typed(raw: string) | JoinClicked | KeyPressed(key: string) | LeaveClicked

  /** `joinRoom`: the room is set to the input only when it has exactly six
      characters; otherwise nothing changes. */
  function JoinRoom(a: App): (r: App)
    ensures r.input == a.input
    ensures r.room != a.room ==> r.room == Some(a.input) && |a.input| == CODE_LENGTH
    ensures |a.input| == CODE_LENGTH ==> r.room == Some(a.input)
    ensures |a.input| != CODE_LENGTH ==> r == a
  {
    if |a.input| == CODE_LENGTH then a.(room := Some(a.input)) else a
  }

  function Step(a: App, ev: UiEvent): (r: App)
    ensures ev.Typed? ==> r == a.(input := Normalize(ev.raw))
    ensures ev.JoinClicked? ==> r == JoinRoom(a)
    ensures ev.KeyPressed? && ev.key != "Enter" ==> r == a
    ensures ev.KeyPressed? && ev.key == "Enter" ==> r == JoinRoom(a)
    ensures ev.LeaveClicked? ==> r.room.None? && r.input == a.input
  {
    match ev
    case Typed(raw) => a.(input := Normalize(raw))
    case JoinClicked => JoinRoom(a)
    case KeyPressed(key) => if key == "Enter" && |a.input| == CODE_LENGTH then JoinRoom(a) else a
    case LeaveClicked => a.(room := None)
  }

  function Run(a: App, evs: seq<UiEvent>): App
    decreases |evs|
  {
    if evs == [] then a else Run(Step(a, evs[0]), evs[1..])
  }

  /** The input field always holds a normalised code, and any room joined
      from it is a complete room code. */
  predicate Valid(a: App)
  {
    IsNormalized(a.input) && (a.room.Some? ==> IsRoomCode(a.room.value))
  }

  lemma {:induction false} RunKeepsValid(a: App, evs: seq<UiEvent>)
    requires Valid(a)
    ensures Valid(Run(a, evs))
    decreases |evs|
  {
    if evs != [] {
      RunKeepsValid(Step(a, evs[0]), evs[1..]);
    }
  }
}
