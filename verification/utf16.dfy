/**
 * `UTF16BytesToString` and `indexNullTerminator` (eventlogs_windows.go):
 * little-endian UTF-16 text in a byte buffer, cut at the first aligned NUL
 * code unit, decoded as section 2.2 of RFC 2781 describes, unpaired
 * surrogates becoming U+FFFD as Go's `utf16.Decode` does.
 */
module Utf16 {
  import opened Strings

  /** A 16-bit code unit. */
  type unit = u: int | 0 <= u < 0x1_0000

  const ReplacementChar: char := '\U{FFFD}'
  /** The high-surrogate block starts here, ... */
  const Surr1: int := 0xD800
  /** ... the low-surrogate block here, ... */
  const Surr2: int := 0xDC00
  /** ... and both end here. */
  const Surr3: int := 0xE000
  /** The first code point that needs a surrogate pair. */
  const SurrSelf: int := 0x1_0000

  /**
   * `utf16.Decode`: a unit outside the surrogate blocks is a character, a
   * high surrogate followed by a low one is a pair, anything else is
   * U+FFFD. The source combines a pair as `(r1-surr1)<<10 | (r2-surr2)`
   * plus `surrSelf`; the low ten bits of the shifted term are zero, so the
   * `|` is an addition.
   */
  function Decode(u: seq<unit>): string
    decreases |u|
  {
    if |u| == 0 then []
    else if u[0] < Surr1 || Surr3 <= u[0] then [u[0] as char] + Decode(u[1..])
    else if u[0] < Surr2 && |u| > 1 && Surr2 <= u[1] < Surr3 then
      [((u[0] - Surr1) * 0x400 + (u[1] - Surr2) + SurrSelf) as char] + Decode(u[2..])
    else [ReplacementChar] + Decode(u[1..])
  }

  /** Section 2.1 of RFC 2781: one unit below U+10000, a surrogate pair above. */
  function EncodeChar(c: char): (r: seq<unit>)
    ensures 1 <= |r| <= 2
    ensures c != 0 as char ==> forall i | 0 <= i < |r| :: r[i] != 0
  {
    var n := c as int;
    if n < SurrSelf then [n]
    else
      var m := n - SurrSelf;
      [Surr1 + m / 0x400, Surr2 + m % 0x400]
  }

  function Encode(s: string): seq<unit>
    decreases |s|
  {
    if |s| == 0 then [] else EncodeChar(s[0]) + Encode(s[1..])
  }

  lemma {:induction false} DecodeEncodeChar(c: char, rest: seq<unit>)
    ensures Decode(EncodeChar(c) + rest) == [c] + Decode(rest)
  {
    var u := EncodeChar(c) + rest;
    if (c as int) < SurrSelf {
      assert u[1..] == rest;
    } else {
      assert u[2..] == rest;
    }
  }

  /** Decoding undoes encoding, for every string. */
  lemma {:induction false} DecodeEncode(s: string)
    ensures Decode(Encode(s)) == s
    decreases |s|
  {
    if |s| > 0 {
      DecodeEncodeChar(s[0], Encode(s[1..]));
      DecodeEncode(s[1..]);
      assert s == [s[0]] + s[1..];
    }
  }

  /** A high surrogate not followed by a low one becomes U+FFFD and decoding goes on after it. */
  lemma {:induction false} UnpairedHighSurrogate(h: unit, rest: seq<unit>)
    requires Surr1 <= h < Surr2
    requires |rest| == 0 || !(Surr2 <= rest[0] < Surr3)
    ensures Decode([h] + rest) == [ReplacementChar] + Decode(rest)
  {
    assert ([h] + rest)[1..] == rest;
  }

  /** A low surrogate on its own becomes U+FFFD. */
  lemma {:induction false} UnpairedLowSurrogate(l: unit, rest: seq<unit>)
    requires Surr2 <= l < Surr3
    ensures Decode([l] + rest) == [ReplacementChar] + Decode(rest)
  {
    assert ([l] + rest)[1..] == rest;
  }

  // ---------------------------------------------------------------------------
  // Byte order

  /** Little-endian units: the low byte first. */
  function UnitsLE(b: seq<byte>): (u: seq<unit>)
    requires |b| % 2 == 0
    ensures |u| == |b| / 2
    ensures forall i | 0 <= i < |u| :: u[i] == (b[2 * i] as int) + (b[2 * i + 1] as int) * 0x100
    decreases |b|
  {
    if |b| == 0 then []
    else
      var rest := UnitsLE(b[2..]);
      var u := [(b[0] as int) + (b[1] as int) * 0x100] + rest;
      assert forall i | 1 <= i < |u| :: u[i] == (b[2 * i] as int) + (b[2 * i + 1] as int) * 0x100 by {
        forall i | 1 <= i < |u|
          ensures u[i] == (b[2 * i] as int) + (b[2 * i + 1] as int) * 0x100
        {
          var j := i - 1;
          assert u[i] == rest[j];
          assert b[2..][2 * j] == b[2 * i] && b[2..][2 * j + 1] == b[2 * i + 1];
        }
      }
      u
  }

  function BytesLE(u: seq<unit>): (b: seq<byte>)
    ensures |b| == 2 * |u|
    ensures forall i | 0 <= i < |u| :: b[2 * i] == u[i] % 0x100 && b[2 * i + 1] == u[i] / 0x100
    decreases |u|
  {
    if |u| == 0 then []
    else
      var rest := BytesLE(u[1..]);
      var b := [u[0] % 0x100, u[0] / 0x100] + rest;
      assert forall i | 1 <= i < |u| :: b[2 * i] == rest[2 * (i - 1)] && b[2 * i + 1] == rest[2 * (i - 1) + 1];
      b
  }

  lemma {:induction false} BytesUnits(u: seq<unit>)
    ensures UnitsLE(BytesLE(u)) == u
    decreases |u|
  {
    if |u| > 0 {
      assert BytesLE(u)[2..] == BytesLE(u[1..]);
      BytesUnits(u[1..]);
    }
  }

  // ---------------------------------------------------------------------------
  // The terminator and the whole conversion

  function IndexFrom(b: seq<byte>, i: nat): (r: int)
    requires |b| % 2 == 0 && i % 2 == 0 && i <= |b|
    ensures r == -1 || (i <= r && r % 2 == 0 && r + 1 < |b| && b[r] == 0 && b[r + 1] == 0)
    ensures forall j | i <= j < |b| && j % 2 == 0 && (r == -1 || j < r) :: !(b[j] == 0 && b[j + 1] == 0)
    decreases |b| - i
  {
    if i == |b| then -1
    else if b[i] == 0 && b[i + 1] == 0 then i
    else IndexFrom(b, i + 2)
  }

  /** `indexNullTerminator`: the first even index holding two zero bytes, or -1. */
  function IndexNullTerminator(b: seq<byte>): (r: int)
    requires |b| % 2 == 0
    ensures r == -1 || (0 <= r && r % 2 == 0 && r + 1 < |b| && b[r] == 0 && b[r + 1] == 0)
    ensures forall j | 0 <= j < |b| && j % 2 == 0 && (r == -1 || j < r) :: !(b[j] == 0 && b[j + 1] == 0)
    ensures |b| < 2 ==> r == -1
  {
    if |b| < 2 then -1 else IndexFrom(b, 0)
  }

  /** The text, the offset just past the terminator (or -1), and whether the call failed. */
  datatype Converted = Converted(text: string, offset: int, failed: bool)

  /**
   * `UTF16BytesToString`: an odd length is an error; otherwise the units
   * before the first NUL unit are decoded, and the offset is the index just
   * past the NUL when more bytes follow it.
   */
  function BytesToString(b: seq<byte>): (r: Converted)
    ensures |b| % 2 != 0 <==> r.failed
    ensures r.failed ==> r == Converted("", 0, true)
    ensures !r.failed ==> r.offset == -1 || (r.offset >= 2 && r.offset < |b| && b[r.offset - 2] == 0 && b[r.offset - 1] == 0)
    ensures !r.failed ==>
      var n := IndexNullTerminator(b);
      (r.offset != -1 <==> n != -1 && n + 2 < |b|)
      && (r.offset != -1 ==> r.offset == n + 2)
      && r.text == Decode(UnitsLE(b[..if n == -1 then |b| else n]))
  {
    if |b| % 2 != 0 then Converted("", 0, true)
    else
      var n := IndexNullTerminator(b);
      var offset := if n > -1 && |b| > n + 2 then n + 2 else -1;
      var end := if n == -1 then |b| else n;
      Converted(Decode(UnitsLE(b[..end])), offset, false)
  }

  predicate NoNul(s: string)
  {
    forall i | 0 <= i < |s| :: s[i] != 0 as char
  }

  lemma {:induction false} EncodeNoZeroUnit(s: string)
    requires NoNul(s)
    ensures forall i | 0 <= i < |Encode(s)| :: Encode(s)[i] != 0
    decreases |s|
  {
    if |s| > 0 {
      EncodeNoZeroUnit(s[1..]);
      var a, t := EncodeChar(s[0]), Encode(s[1..]);
      assert forall i | |a| <= i < |a + t| :: (a + t)[i] == t[i - |a|];
    }
  }

  /** Non-zero units leave no aligned pair of zero bytes. */
  lemma {:induction false} NoAlignedNul(u: seq<unit>)
    requires forall i | 0 <= i < |u| :: u[i] != 0
    ensures forall j | 0 <= j && j + 1 < |BytesLE(u)| && j % 2 == 0 :: !(BytesLE(u)[j] == 0 && BytesLE(u)[j + 1] == 0)
  {
    var b := BytesLE(u);
    forall j | 0 <= j && j + 1 < |b| && j % 2 == 0
      ensures !(b[j] == 0 && b[j + 1] == 0)
    {
      var i := j / 2;
      assert j == 2 * i && b[2 * i] == u[i] % 0x100 && b[2 * i + 1] == u[i] / 0x100;
    }
  }

  /** The encoded text holds no aligned pair of zero bytes, so a terminator after it is the first. */
  lemma {:induction false} TerminatorAfterText(s: string, tail: seq<byte>)
    requires NoNul(s) && |tail| % 2 == 0
    ensures IndexNullTerminator(BytesLE(Encode(s)) + [0, 0] + tail) == |BytesLE(Encode(s))|
  {
    var e := BytesLE(Encode(s));
    var b := e + [0, 0] + tail;
    EncodeNoZeroUnit(s);
    NoAlignedNul(Encode(s));
    forall j | 0 <= j < |e| && j % 2 == 0
      ensures !(b[j] == 0 && b[j + 1] == 0)
    {
      assert j == 2 * (j / 2) && j / 2 < |Encode(s)|;
      assert b[j] == e[j] && b[j + 1] == e[j + 1];
    }
    assert b[|e|] == 0 && b[|e| + 1] == 0;
  }

  /** Text encoded without a terminator converts back to itself, with no offset. */
  lemma {:induction false} RoundTrip(s: string)
    requires NoNul(s)
    ensures BytesToString(BytesLE(Encode(s))) == Converted(s, -1, false)
  {
    var b := BytesLE(Encode(s));
    EncodeNoZeroUnit(s);
    NoAlignedNul(Encode(s));
    assert IndexNullTerminator(b) == -1;
    assert b[..|b|] == b;
    BytesUnits(Encode(s));
    DecodeEncode(s);
  }

  /** With a terminator at `n`, the conversion decodes the bytes before it. */
  lemma {:induction false} ConvertAtTerminator(b: seq<byte>, n: nat)
    requires |b| % 2 == 0 && IndexNullTerminator(b) == n
    ensures BytesToString(b) == Converted(Decode(UnitsLE(b[..n])), if |b| > n + 2 then n + 2 else -1, false)
  {
  }

  /**
   * Text followed by a NUL unit and anything else converts back to the
   * text alone; the offset points just past the NUL when bytes follow it.
   */
  lemma {:induction false} RoundTripTerminated(s: string, tail: seq<byte>)
    requires NoNul(s) && |tail| % 2 == 0
    ensures BytesToString(BytesLE(Encode(s)) + [0, 0] + tail)
      == Converted(s, if |tail| > 0 then |BytesLE(Encode(s))| + 2 else -1, false)
  {
    var e := BytesLE(Encode(s));
    var b := e + [0, 0] + tail;
    TerminatorAfterText(s, tail);
    ConvertAtTerminator(b, |e|);
    assert b[..|e|] == e;
    BytesUnits(Encode(s));
    DecodeEncode(s);
  }
}
