/**
 * The decision `Utf8Reader` (utf8.go) takes before any byte is converted:
 * which byte-order mark the file starts with, and, when there is none and
 * no encoding is named, whether the first 128 KiB are already UTF-8. The
 * reads and seeks on the file are inputs: their outcomes are given, the
 * decoders themselves and `htmlindex.Get` are not modelled beyond their
 * names.
 */
module Utf8Probe {
  import opened Strings

  /** How much of an unmarked file is checked: if this much is UTF-8, the rest is assumed to be. */
  const ProbeLen: nat := 4 * 32 * 1024
  /** `utf8.UTFMax`: the longest encoded character, and the size of the mark read. */
  const UtfMax: nat := 4

  // Byte-order marks: section 3.2 of RFC 2781 for UTF-16, section 6 of
  // RFC 3629 for UTF-8, and their 32-bit counterparts.
  const Utf8Bom: seq<byte> := [0xEF, 0xBB, 0xBF]
  const Utf16LEBom: seq<byte> := [0xFF, 0xFE]
  const Utf16BEBom: seq<byte> := [0xFE, 0xFF]
  const Utf32LEBom: seq<byte> := [0xFF, 0xFE, 0x00, 0x00]
  const Utf32BEBom: seq<byte> := [0x00, 0x00, 0xFE, 0xFF]

  predicate HasPrefix(b: seq<byte>, p: seq<byte>)
  {
    |p| <= |b| && b[..|p|] == p
  }

  datatype ReadError = NoError | Eof | OtherError

  /** What one `Read` call returned: the bytes and the error. */
  datatype ReadResult = ReadResult(data: seq<byte>, err: ReadError)

  /**
   * The outcomes of the file operations `Utf8Reader` may perform, in order:
   * the mark read, the seek past a UTF-8 mark, the rewind, the probe read
   * and the rewind after it. A `false` seek is a seek error.
   */
  datatype FileOps = FileOps(
    head: ReadResult,
    skipMarkSeek: bool,
    rewindSeek: bool,
    probe: ReadResult,
    probeRewindSeek: bool)

  /** The reader handed back, or the error. */
  datatype Reader =
    | AsIs               // the file itself, from where it stands
    | SkipUtf8Mark       // the file itself, past its UTF-8 mark
    | Utf32LE            // a UTF-32 decoder that consumes a little-endian mark
    | Utf32BE            // a UTF-32 decoder that consumes a big-endian mark
    | Utf16Mark          // a UTF-16 decoder chosen by the mark
    | Decoded(encoding: string)  // the named decoder, a mark still overriding it
    | Failure

  // ---------------------------------------------------------------------------
  // UTF-8 validity, section 4 of RFC 3629

  predicate Cont(b: byte)
  {
    0x80 <= b <= 0xBF
  }

  /** The length of the well-formed character the bytes start with, or 0 when they start with none. */
  function RuneLen(b: seq<byte>): (n: nat)
    ensures n <= |b| && n <= UtfMax
  {
    if |b| == 0 then 0
    else if b[0] < 0x80 then 1
    else if 0xC2 <= b[0] <= 0xDF then
      if |b| >= 2 && Cont(b[1]) then 2 else 0
    else if 0xE0 <= b[0] <= 0xEF then
      var lo := if b[0] == 0xE0 then 0xA0 else 0x80;
      var hi := if b[0] == 0xED then 0x9F else 0xBF;
      if |b| >= 3 && lo <= b[1] <= hi && Cont(b[2]) then 3 else 0
    else if 0xF0 <= b[0] <= 0xF4 then
      var lo := if b[0] == 0xF0 then 0x90 else 0x80;
      var hi := if b[0] == 0xF4 then 0x8F else 0xBF;
      if |b| >= 4 && lo <= b[1] <= hi && Cont(b[2]) && Cont(b[3]) then 4 else 0
    else 0
  }

  /** The bytes start with the encoding of U+FFFD, which `utf8.DecodeRune` reports like an error. */
  predicate IsReplacement(b: seq<byte>)
  {
    HasPrefix(b, [0xEF, 0xBF, 0xBD])
  }

  /**
   * The probe loop: decode from `pos` while below `limit`, stopping at the
   * first byte that does not start a well-formed character other than
   * U+FFFD. Returns where it stopped.
   */
  function ProbeEnd(buf: seq<byte>, pos: nat, limit: nat): (r: nat)
    requires pos <= |buf|
    ensures pos <= r <= |buf|
    decreases limit - pos
  {
    if pos >= limit then pos
    else
      var n := RuneLen(buf[pos..]);
      if n == 0 || IsReplacement(buf[pos..]) then pos
      else ProbeEnd(buf, pos + n, limit)
  }

  /** The probe stops before the limit only where no character other than U+FFFD starts. */
  lemma {:induction false} ProbeEndStops(buf: seq<byte>, pos: nat, limit: nat)
    requires pos <= |buf|
    ensures var r := ProbeEnd(buf, pos, limit);
      r < limit ==> RuneLen(buf[r..]) == 0 || IsReplacement(buf[r..])
    decreases limit - pos
  {
    if pos < limit {
      var n := RuneLen(buf[pos..]);
      if n > 0 && !IsReplacement(buf[pos..]) {
        ProbeEndStops(buf, pos + n, limit);
      }
    }
  }

  /** The probe buffer: the bytes read, then the zeros it was allocated with. */
  function ProbeBuffer(data: seq<byte>): (buf: seq<byte>)
    ensures |buf| >= |data| && buf[..|data|] == data
  {
    data + Zeros(if |data| < ProbeLen then ProbeLen - |data| else 0)
  }

  function Zeros(n: nat): (z: seq<byte>)
    ensures |z| == n
    ensures forall i | 0 <= i < n :: z[i] == 0
  {
    if n == 0 then [] else [0] + Zeros(n - 1)
  }

  /** The file counts as UTF-8 when the probe got through all it read, or near the end of the buffer. */
  predicate ProbeSaysUtf8(data: seq<byte>)
  {
    var pos := ProbeEnd(ProbeBuffer(data), 0, |data|);
    pos >= |data| || pos >= ProbeLen - UtfMax
  }

  // ---------------------------------------------------------------------------
  // The decision

  /** `runtime.GOOS == "windows"` chooses the fallback encoding. */
  function DefaultEncoding(windows: bool): string
  {
    if windows then "windows-1252" else "utf-8"
  }

  function Named(name: string, known: string -> bool): Reader
  {
    if known(name) then Decoded(name) else Failure
  }

  /** The branch for a file without a mark: probe when no name is given, else use the name. */
  function Unmarked(ops: FileOps, name: string, windows: bool, known: string -> bool): Reader
  {
    if name == "" then
      var p := ops.probe;
      if p.err != NoError then
        if |p.data| == 0 && p.err == Eof then AsIs else Failure
      else if !ops.probeRewindSeek then Failure
      else if ProbeSaysUtf8(p.data) then AsIs
      else Named(DefaultEncoding(windows), known)
    else Named(name, known)
  }

  /**
   * `Utf8Reader`: an empty file as it is, then the byte-order marks in the
   * source's order (UTF-8, UTF-32LE, UTF-32BE, UTF-16LE, UTF-16BE), then
   * the named or probed or default encoding.
   */
  function Utf8Reader(ops: FileOps, name: string, windows: bool, known: string -> bool): (r: Reader)
    ensures ops.head.err == Eof && |ops.head.data| == 0 ==> r == AsIs
    ensures ops.head.err == NoError && HasPrefix(ops.head.data, Utf8Bom) && ops.skipMarkSeek ==> r == SkipUtf8Mark
  {
    var h := ops.head;
    if h.err != NoError then
      if |h.data| == 0 && h.err == Eof then AsIs else Failure
    else if HasPrefix(h.data, Utf8Bom) then
      if ops.skipMarkSeek then SkipUtf8Mark else Failure
    else if !ops.rewindSeek then Failure
    else if HasPrefix(h.data, Utf32LEBom) then Utf32LE
    else if HasPrefix(h.data, Utf32BEBom) then Utf32BE
    else if HasPrefix(h.data, Utf16LEBom) then Utf16Mark
    else if HasPrefix(h.data, Utf16BEBom) then Utf16Mark
    else Unmarked(ops, name, windows, known)
  }

  /** The bytes start with one of the five byte-order marks. */
  predicate Marked(data: seq<byte>)
  {
    HasPrefix(data, Utf8Bom) || HasPrefix(data, Utf32LEBom) || HasPrefix(data, Utf32BEBom)
    || HasPrefix(data, Utf16LEBom) || HasPrefix(data, Utf16BEBom)
  }

  /**
   * After a mark read without error: a UTF-8 mark needs the seek past it,
   * any other content needs the rewind, and each mark then picks its
   * decoder, UTF-32 before UTF-16.
   */
  lemma {:induction false} MarkedReaders(ops: FileOps, name: string, windows: bool, known: string -> bool)
    requires ops.head.err == NoError
    ensures var r := Utf8Reader(ops, name, windows, known);
      (HasPrefix(ops.head.data, Utf8Bom) ==> (r == SkipUtf8Mark <==> ops.skipMarkSeek) && (r == Failure <==> !ops.skipMarkSeek))
      && (!HasPrefix(ops.head.data, Utf8Bom) && !ops.rewindSeek ==> r == Failure)
    ensures var r := Utf8Reader(ops, name, windows, known);
      ops.rewindSeek ==>
        (HasPrefix(ops.head.data, Utf32LEBom) ==> r == Utf32LE)
        && (HasPrefix(ops.head.data, Utf32BEBom) ==> r == Utf32BE)
        && (HasPrefix(ops.head.data, Utf16LEBom) && !HasPrefix(ops.head.data, Utf32LEBom) ==> r == Utf16Mark)
        && (HasPrefix(ops.head.data, Utf16BEBom) ==> r == Utf16Mark)
  {
    var d := ops.head.data;
    if HasPrefix(d, Utf32LEBom) || HasPrefix(d, Utf16LEBom) {
      assert d[0] == d[..2][0] == 0xFF;
    }
    if HasPrefix(d, Utf32BEBom) {
      assert d[0] == d[..4][0] == 0x00;
    }
    if HasPrefix(d, Utf16BEBom) {
      assert d[0] == d[..2][0] == 0xFE;
    }
    if HasPrefix(d, Utf8Bom) {
      assert d[0] == d[..3][0] == 0xEF;
    }
  }

  /**
   * Without a mark or a name the probe read decides: an empty file is
   * returned as it is, a failed read or rewind is an error, and otherwise
   * the file is returned as it is exactly when the probe says UTF-8.
   */
  lemma {:induction false} ProbeDecides(ops: FileOps, windows: bool, known: string -> bool)
    requires ops.head.err == NoError && ops.rewindSeek && !Marked(ops.head.data)
    ensures var r := Utf8Reader(ops, "", windows, known);
      var p := ops.probe;
      (p.err == Eof && |p.data| == 0 ==> r == AsIs)
      && (p.err != NoError && !(p.err == Eof && |p.data| == 0) ==> r == Failure)
      && (p.err == NoError && !ops.probeRewindSeek ==> r == Failure)
      && (p.err == NoError && ops.probeRewindSeek ==> (r == AsIs <==> ProbeSaysUtf8(p.data)))
  {
  }

  /** An unmarked, unnamed file holding UTF-8 text without U+FFFD that fits the probe is returned as it is. */
  lemma {:induction false} Utf8FileAsIs(ops: FileOps, s: string, windows: bool, known: string -> bool)
    requires ops.head.err == NoError && ops.rewindSeek && !Marked(ops.head.data)
    requires ops.probe == ReadResult(Encode(s), NoError) && ops.probeRewindSeek
    requires NoReplacement(s) && |Encode(s)| <= ProbeLen
    ensures Utf8Reader(ops, "", windows, known) == AsIs
  {
    ProbeAcceptsEncodedText(s);
    ProbeDecides(ops, windows, known);
  }

  /** A read of the mark that fails other than with an empty end of file is an error. */
  lemma {:induction false} HeadReadErrors(ops: FileOps, name: string, windows: bool, known: string -> bool)
    requires ops.head.err == OtherError || (ops.head.err == Eof && |ops.head.data| > 0)
    ensures Utf8Reader(ops, name, windows, known) == Failure
  {
  }

  /** `FF FE 00 00` could open UTF-16LE text too; it is taken as UTF-32LE. */
  lemma {:induction false} Utf32BeforeUtf16(ops: FileOps, name: string, windows: bool, known: string -> bool)
    requires ops.head.err == NoError && ops.rewindSeek
    requires ops.head.data == Utf32LEBom
    ensures HasPrefix(ops.head.data, Utf16LEBom)
    ensures Utf8Reader(ops, name, windows, known) == Utf32LE
  {
    assert ops.head.data[..2] == Utf16LEBom;
    assert ops.head.data[0] == 0xFF;
  }

  /** A mark decides regardless of the encoding name, the platform and the probe. */
  lemma {:induction false} MarkBeatsName(ops: FileOps, name1: string, name2: string, windows1: bool, windows2: bool, known: string -> bool)
    requires ops.head.err == NoError
    requires Marked(ops.head.data)
    ensures Utf8Reader(ops, name1, windows1, known) == Utf8Reader(ops, name2, windows2, known)
    ensures Utf8Reader(ops, name1, windows1, known) != Failure <==>
      (if HasPrefix(ops.head.data, Utf8Bom) then ops.skipMarkSeek else ops.rewindSeek)
  {
  }

  /** Without a mark, a given name is used as it is, and an unknown one is an error. */
  lemma {:induction false} NameUsedWithoutMark(ops: FileOps, name: string, windows: bool, known: string -> bool)
    requires ops.head.err == NoError && ops.rewindSeek && name != ""
    requires !Marked(ops.head.data)
    ensures Utf8Reader(ops, name, windows, known) == if known(name) then Decoded(name) else Failure
  {
  }

  /** Without a mark or a name, a file the probe rejects gets the platform default. */
  lemma {:induction false} DefaultWhenProbeFails(ops: FileOps, windows: bool, known: string -> bool)
    requires ops.head.err == NoError && ops.rewindSeek
    requires !Marked(ops.head.data)
    requires ops.probe.err == NoError && ops.probeRewindSeek && !ProbeSaysUtf8(ops.probe.data)
    requires known(DefaultEncoding(windows))
    ensures Utf8Reader(ops, "", windows, known) == Decoded(if windows then "windows-1252" else "utf-8")
  {
  }

  // ---------------------------------------------------------------------------
  // The probe against an encoder

  /** Section 3 of RFC 3629: one to four bytes per character. */
  function EncodeChar(c: char): (r: seq<byte>)
    ensures 1 <= |r| <= UtfMax
  {
    var n := c as int;
    if n < 0x80 then [n]
    else if n < 0x800 then [0xC0 + n / 0x40, 0x80 + n % 0x40]
    else if n < 0x1_0000 then [0xE0 + n / 0x1000, 0x80 + (n / 0x40) % 0x40, 0x80 + n % 0x40]
    else [0xF0 + n / 0x4_0000, 0x80 + (n / 0x1000) % 0x40, 0x80 + (n / 0x40) % 0x40, 0x80 + n % 0x40]
  }

  function Encode(s: string): seq<byte>
    decreases |s|
  {
    if |s| == 0 then [] else EncodeChar(s[0]) + Encode(s[1..])
  }

  lemma {:induction false} ThreeByteLead(n: int)
    requires 0x800 <= n < 0x1_0000 && !(0xD800 <= n < 0xE000)
    ensures var b1 := 0x80 + (n / 0x40) % 0x40;
      (n / 0x1000 == 0 ==> 0xA0 <= b1) && (n / 0x1000 == 0xD ==> b1 <= 0x9F)
  {
    if n / 0x1000 == 0 {
      assert n / 0x40 >= 0x20;
    }
    if n / 0x1000 == 0xD {
      assert 0xD000 <= n < 0xD800;
      assert 0x340 <= n / 0x40 < 0x360;
    }
  }

  lemma {:induction false} FourByteLead(n: int)
    requires 0x1_0000 <= n < 0x11_0000
    ensures var b1 := 0x80 + (n / 0x1000) % 0x40;
      n / 0x4_0000 <= 4
      && (n / 0x4_0000 == 0 ==> 0x90 <= b1) && (n / 0x4_0000 == 4 ==> b1 <= 0x8F)
  {
    if n / 0x4_0000 == 0 {
      assert n / 0x1000 >= 0x10;
    }
    if n / 0x4_0000 == 4 {
      assert 0x100 <= n / 0x1000 < 0x110;
    }
  }

  /** An encoded character is recognised whole, and it reads as U+FFFD only when it is U+FFFD. */
  lemma {:induction false} RuneLenOfEncoding(c: char, b: seq<byte>)
    requires HasPrefix(b, EncodeChar(c))
    ensures RuneLen(b) == |EncodeChar(c)|
    ensures IsReplacement(b) <==> c == '\U{FFFD}'
  {
    var n := c as int;
    var e := EncodeChar(c);
    assert forall i | 0 <= i < |e| :: b[i] == e[i] by {
      forall i | 0 <= i < |e| ensures b[i] == e[i] {
        assert b[..|e|][i] == b[i];
      }
    }
    if 0x800 <= n < 0x1_0000 {
      ThreeByteLead(n);
      if IsReplacement(b) {
        assert b[..3] == [0xEF, 0xBF, 0xBD];
        assert b[0] == 0xEF && b[1] == 0xBF && b[2] == 0xBD;
        assert n / 0x1000 == 0xF && (n / 0x40) % 0x40 == 0x3F && n % 0x40 == 0x3D;
      }
    } else if n >= 0x1_0000 {
      FourByteLead(n);
    }
  }

  predicate NoReplacement(s: string)
  {
    forall i | 0 <= i < |s| :: s[i] != '\U{FFFD}'
  }

  lemma {:induction false} NoReplacementTail(s: string)
    requires |s| > 0 && NoReplacement(s)
    ensures s[0] != '\U{FFFD}' && NoReplacement(s[1..])
  {
    forall i | 0 <= i < |s[1..]|
      ensures s[1..][i] != '\U{FFFD}'
    {
      assert s[1..][i] == s[i + 1];
    }
  }

  /** Where the encoding of a string sits in a buffer, the encoding of its first character starts it. */
  lemma {:induction false} EncodingInBuffer(buf: seq<byte>, pos: nat, e: seq<byte>, t: seq<byte>)
    requires pos + |e| + |t| <= |buf| && buf[pos..pos + |e| + |t|] == e + t
    ensures HasPrefix(buf[pos..], e)
    ensures buf[pos + |e|..pos + |e| + |t|] == t
  {
    var w := buf[pos..pos + |e| + |t|];
    assert w[..|e|] == e && w[|e|..] == t;
    assert buf[pos..][..|e|] == w[..|e|];
    assert buf[pos + |e|..pos + |e| + |t|] == w[|e|..];
  }

  /** From `pos` to `end` the buffer holds whole characters other than U+FFFD. */
  predicate Walk(buf: seq<byte>, pos: nat, end: nat)
    decreases end - pos
  {
    pos <= end <= |buf|
    && (pos == end
        || (var n := RuneLen(buf[pos..]);
            n > 0 && !IsReplacement(buf[pos..]) && pos + n <= end && Walk(buf, pos + n, end)))
  }

  /** The probe gets through such a stretch when the limit lies beyond it. */
  lemma {:induction false} WalkProbe(buf: seq<byte>, pos: nat, end: nat, limit: nat)
    requires Walk(buf, pos, end) && end <= limit
    ensures ProbeEnd(buf, pos, limit) == ProbeEnd(buf, end, limit)
    decreases end - pos
  {
    if pos < end {
      WalkProbe(buf, pos + RuneLen(buf[pos..]), end, limit);
    }
  }

  /** The first character of encoded text without U+FFFD is recognised whole; the rest of the text follows it. */
  lemma {:induction false} FirstCharRecognised(s: string, buf: seq<byte>, pos: nat)
    requires |s| > 0 && NoReplacement(s) && pos + |Encode(s)| <= |buf|
    requires buf[pos..pos + |Encode(s)|] == Encode(s)
    ensures |EncodeChar(s[0])| + |Encode(s[1..])| == |Encode(s)| && NoReplacement(s[1..])
    ensures RuneLen(buf[pos..]) == |EncodeChar(s[0])| && !IsReplacement(buf[pos..])
    ensures buf[pos + |EncodeChar(s[0])|..pos + |Encode(s)|] == Encode(s[1..])
  {
    var e := EncodeChar(s[0]);
    var t := Encode(s[1..]);
    assert Encode(s) == e + t;
    EncodingInBuffer(buf, pos, e, t);
    NoReplacementTail(s);
    RuneLenOfEncoding(s[0], buf[pos..]);
  }

  /** Encoded text without U+FFFD is such a stretch. */
  lemma {:induction false} EncodingWalks(s: string, buf: seq<byte>, pos: nat)
    requires NoReplacement(s) && pos + |Encode(s)| <= |buf|
    requires buf[pos..pos + |Encode(s)|] == Encode(s)
    ensures Walk(buf, pos, pos + |Encode(s)|)
    decreases |s|
  {
    if |s| > 0 {
      FirstCharRecognised(s, buf, pos);
      EncodingWalks(s[1..], buf, pos + |EncodeChar(s[0])|);
    }
  }

  /** The probe walks over encoded text without U+FFFD, character by character. */
  lemma {:induction false} ProbeThroughEncoding(s: string, buf: seq<byte>, pos: nat, limit: nat)
    requires NoReplacement(s) && pos + |Encode(s)| <= |buf| && pos + |Encode(s)| <= limit
    requires buf[pos..pos + |Encode(s)|] == Encode(s)
    ensures ProbeEnd(buf, pos, limit) == ProbeEnd(buf, pos + |Encode(s)|, limit)
  {
    EncodingWalks(s, buf, pos);
    WalkProbe(buf, pos, pos + |Encode(s)|, limit);
  }

  /** Text without U+FFFD that fits the probe is recognised as UTF-8. */
  lemma {:induction false} ProbeAcceptsEncodedText(s: string)
    requires NoReplacement(s) && |Encode(s)| <= ProbeLen
    ensures ProbeSaysUtf8(Encode(s))
  {
    var data := Encode(s);
    ProbeThroughEncoding(s, ProbeBuffer(data), 0, |data|);
  }

  /** A byte that starts no character, early in the probe, makes the file count as not UTF-8. */
  lemma {:induction false} ProbeRejectsStrayByte(s: string, rest: seq<byte>)
    requires NoReplacement(s)
    requires |Encode(s)| + 1 + |rest| <= ProbeLen && |Encode(s)| < ProbeLen - UtfMax
    ensures !ProbeSaysUtf8(Encode(s) + [0xFF] + rest)
  {
    var data := Encode(s) + [0xFF] + rest;
    var buf := ProbeBuffer(data);
    var k := |Encode(s)|;
    assert buf[..|data|] == data;
    assert buf[0..k] == data[..k] == Encode(s);
    ProbeThroughEncoding(s, buf, 0, |data|);
    assert buf[k] == data[k] == 0xFF;
    assert RuneLen(buf[k..]) == 0;
  }
}
