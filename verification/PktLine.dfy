/**
 The pkt-line codec of src/protocol/utils.rs and the side-band framing of src/protocol/core.rs:
 four hexadecimal digits give the length of a line, themselves included.
 */
module PktLine {
  import opened Basics
  import opened Encoding

  /** The flush packet, `0000`. */
  const FLUSH: bytes := [48, 48, 48, 48]

  /** Longest payload the four digits can announce. */
  const MAX_PAYLOAD: nat := 0xffff - 4

  // ---------------------------------------------------------------- hexadecimal

  function HexDigit(d: nat): byte
    requires d < 16
  {
    if d < 10 then 48 + d else 87 + d
  }

  /** Value of a digit; both cases are read. */
  function HexValue(c: byte): Option<nat> {
    if 48 <= c <= 57 then Some(c - 48)
    else if 97 <= c <= 102 then Some(c - 87)
    else if 65 <= c <= 70 then Some(c - 55)
    else None
  }

  /** Lower-case digits without padding. */
  function Hex(n: nat): (s: bytes)
    ensures |s| > 0
  {
    if n < 16 then [HexDigit(n)] else Hex(n / 16) + [HexDigit(n % 16)]
  }

  /** At least four digits: the format `{:04x}`. */
  function Hex4(n: nat): bytes {
    Padded(Hex(n), 4)
  }

  function Padded(s: bytes, width: nat): bytes
    decreases width - |s|
  {
    if |s| < width then Padded([48] + s, width) else s
  }

  function Digits(s: bytes): Option<nat> {
    if s == [] then Some(0)
    else match Digits(s[..|s| - 1])
      case None => None
      case Some(high) => match HexValue(s[|s| - 1])
        case None => None
        case Some(low) => Some(16 * high + low)
  }

  /** `usize::from_str_radix(s, 16)` on a short text: digits, with an optional plus sign in front. */
  function FromHex(s: bytes): Option<nat> {
    if s == [] || s == [43] then None
    else if s[0] == 43 then Digits(s[1..])
    else Digits(s)
  }

  lemma {:induction false} DigitsOfHex(n: nat)
    ensures Digits(Hex(n)) == Some(n) && Hex(n)[0] != 43 && (n > 0 ==> Hex(n)[0] != 48)
  {
    if n >= 16 {
      DigitsOfHex(n / 16);
      assert Hex(n)[..|Hex(n)| - 1] == Hex(n / 16);
    } else {
      assert Digits([HexDigit(n)][..0]) == Some(0);
    }
  }

  lemma {:induction false} DigitsOfZeros(s: bytes)
    ensures Digits([48] + s) == Digits(s)
  {
    if s == [] {
      assert [48][..0] == [];
      assert Digits([48]) == Some(0);
      assert [48] + s == [48];
    } else {
      assert ([48] + s)[..|s|] == [48] + s[..|s| - 1];
      DigitsOfZeros(s[..|s| - 1]);
    }
  }

  lemma {:induction false} DigitsOfPadded(s: bytes, width: nat)
    requires s != [] && s[0] != 43
    ensures Digits(Padded(s, width)) == Digits(s)
    ensures |Padded(s, width)| == if |s| < width then width else |s|
    ensures Padded(s, width)[0] != 43
    decreases width - |s|
  {
    if |s| < width {
      DigitsOfZeros(s);
      DigitsOfPadded([48] + s, width);
    }
  }

  /** The number of digits: at most four exactly below 0x10000. */
  lemma {:induction false} HexLength(n: nat, k: nat)
    requires k > 0
    ensures |Hex(n)| <= k <==> n < Pow2(4 * k)
    decreases k
  {
    assert Pow2(4 * k) == 2 * Pow2(4 * k - 1) == 4 * Pow2(4 * k - 2) == 8 * Pow2(4 * k - 3) == 16 * Pow2(4 * (k - 1));
    if k == 1 {
      assert Pow2(0) == 1;
    } else if n >= 16 {
      HexLength(n / 16, k - 1);
    } else {
      Pow2Monotone(4, 4 * k);
      HexLength(n, 1);
    }
  }

  lemma HexLengthFour(n: nat)
    ensures |Hex(n)| <= 4 <==> n < 0x10000
  {
    HexLength(n, 4);
    assert Pow2(16) == 0x10000 by { Pow2Words(); Pow2EightMore(0); Pow2EightMore(1); assert Pow2(0) == 1; }
  }

  /** The leading digits of a longer number denote a smaller one. */
  lemma {:induction false} LeadingDigits(n: nat, k: nat)
    requires 0 < k < |Hex(n)|
    ensures Digits(Hex(n)[..k]).Some? && 16 * Digits(Hex(n)[..k]).value <= n
    decreases |Hex(n)|
  {
    var s := Hex(n);
    assert s[..|s| - 1] == Hex(n / 16);
    if k < |s| - 1 {
      LeadingDigits(n / 16, k);
      assert s[..k] == Hex(n / 16)[..k];
    } else {
      DigitsOfHex(n / 16);
    }
  }

  // ---------------------------------------------------------------- one line

  /** Nothing is consumed by a malformed or incomplete line; a flush reads like an empty line. */
  datatype PktRead = Bad | Line(payload: bytes, rest: bytes)

  function Read(s: bytes): PktRead {
    if |s| < 4 then Bad
    else match FromHex(s[..4])
      case None => Bad
      case Some(n) =>
        if n == 0 then Line([], s[4..])
        else if n < 4 || |s| < n then Bad
        else Line(s[4..n], s[n..])
  }

  function Frame(payload: bytes): bytes {
    Hex4(|payload| + 4) + payload
  }

  lemma LengthRoundTrip(n: nat)
    requires n < 0x10000
    ensures |Hex4(n)| == 4 && FromHex(Hex4(n)) == Some(n)
  {
    HexLengthFour(n);
    DigitsOfHex(n);
    DigitsOfPadded(Hex(n), 4);
  }

  /** Reading what was written gives the payload back exactly when its length fits the four digits. */
  lemma FrameReads(payload: bytes, rest: bytes)
    ensures Read(Frame(payload) + rest) == Line(payload, rest) <==> |payload| <= MAX_PAYLOAD
  {
    hide Hex, Hex4, FromHex, Digits;
    var n := |payload| + 4;
    var s := Frame(payload) + rest;
    if n < 0x10000 {
      LengthRoundTrip(n);
      assert s[..4] == Hex4(n);
      assert s[4..n] == payload;
      assert s[n..] == rest;
    } else {
      FrameTooLong(payload, rest);
    }
  }

  lemma FrameTooLong(payload: bytes, rest: bytes)
    requires |payload| > MAX_PAYLOAD
    ensures Read(Frame(payload) + rest) != Line(payload, rest)
  {
    var n := |payload| + 4;
    HexLengthFour(n);
    DigitsOfHex(n);
    LeadingDigits(n, 4);
    hide Hex, Digits;
    assert Hex4(n) == Hex(n);
    assert (Frame(payload) + rest)[..4] == Hex(n)[..4];
    assert Hex(n)[..4][0] == Hex(n)[0];
    assert FromHex(Hex(n)[..4]) == Digits(Hex(n)[..4]);
  }

  /** Callers cannot tell a flush from a line without payload. */
  lemma FlushReads(rest: bytes)
    ensures Read(FLUSH + rest) == Line([], rest) == Read(Frame([]) + rest)
  {
    FrameReads([], rest);
    assert FLUSH == [48] + ([48] + ([48] + [48]));
    DigitsOfZeros([48]); DigitsOfZeros([48] + [48]); DigitsOfZeros([48] + ([48] + [48]));
    assert Digits([48]) == Some(0) by { DigitsOfZeros([]); assert [48] + [] == [48]; }
    hide Digits;
    assert (FLUSH + rest)[..4] == FLUSH && (FLUSH + rest)[4..] == rest;
  }

  /** A line that was read lies at the front of the input and something was consumed. */
  lemma ReadAdvances(s: bytes)
    requires Read(s).Line?
    ensures var n := |s| - |Read(s).rest|;
      4 <= n <= |s| && Read(s).rest == s[n..] && (Read(s).payload == [] || Read(s).payload == s[4..n])
  {
  }

  /** The sixteen digits as they are written, and in capitals. */
  const LOWER: bytes := [48, 49, 50, 51, 52, 53, 54, 55, 56, 57, 97, 98, 99, 100, 101, 102]
  const UPPER: bytes := [48, 49, 50, 51, 52, 53, 54, 55, 56, 57, 65, 66, 67, 68, 69, 70]

  /** Lengths are written in lower case and read in both. */
  lemma DigitsWritten(d: nat, c: byte)
    requires d < 16
    ensures HexDigit(d) == LOWER[d]
    ensures HexValue(c) == Some(d) <==> c == LOWER[d] || c == UPPER[d]
  {
  }

  lemma OnlyDigits(c: byte)
    ensures HexValue(c) == None <==> c !in LOWER && c !in UPPER
  {
    if HexValue(c).Some? { DigitsWritten(HexValue(c).value, c); }
    if c in LOWER {
      var d :| 0 <= d < 16 && LOWER[d] == c;
      DigitsWritten(d, c);
    }
    if c in UPPER {
      var d :| 0 <= d < 16 && UPPER[d] == c;
      DigitsWritten(d, c);
    }
  }

  /** A plus sign in front of three digits is taken for part of the length. */
  lemma PlusAccepted(s: bytes)
    requires |s| >= 1
    ensures FromHex([43] + s) == Digits(s)
  {
    assert ([43] + s)[1..] == s;
  }

  /** Nothing is taken for a line that is too short, has no length, or announces 1 to 3 bytes or more than there are. */
  lemma MalformedIsBad(s: bytes)
    ensures Read(s).Bad? <==> |s| < 4 || FromHex(s[..4]) == None || 1 <= FromHex(s[..4]).value <= 3 || FromHex(s[..4]).value > |s|
  {
    hide FromHex;
  }

  /** A byte buffer that is read from the front: `&mut Bytes`. */
  class Cursor {
    var data: bytes

    constructor (data: bytes)
      ensures this.data == data
    {
      this.data := data;
    }

    /** Takes one line off the front. A count of 0 means that there was none, and nothing is consumed then. */
    method ReadPktLine() returns (taken: nat, line: bytes)
      modifies this
      ensures match Read(old(data))
        case Bad => taken == 0 && line == [] && data == old(data)
        case Line(payload, rest) => taken == |old(data)| - |rest| >= 4 && line == payload && data == rest
    {
      if |data| == 0 { return 0, []; }
      if |data| < 4 { return 0, []; }
      var parsed := FromHex(data[..4]);
      if parsed.None? { return 0, []; }
      var length := parsed.value;
      if length == 0 {
        data := data[4..];
        return 4, [];
      }
      if length < 4 { return 0, []; }
      if |data| < length { return 0, []; }
      data := data[4..];
      line := data[..length - 4];
      data := data[length - 4..];
      taken := length;
    }

    /** Takes one word and the separator behind it off the front; a word that is not UTF-8 becomes empty. */
    method ReadUntilWhiteSpace() returns (word: bytes)
      modifies this
      ensures word == Text(Word(old(data))) && data == AfterWord(old(data))
    {
      word := [];
      while |data| > 0
        invariant Word(old(data)) == word + Word(data) && AfterWord(old(data)) == AfterWord(data)
        decreases |data|
      {
        var c := data[0];
        data := data[1..];
        if IsWhiteSpace(c) || c == 0 { break; }
        word := word + [c];
      }
      assert Word(old(data)) == word + [] == word;
      if !Utf8(word) { word := []; }
    }
  }

  // ---------------------------------------------------------------- words

  predicate IsWhiteSpace(c: byte) {
    c == 32 || c == 9 || c == 10 || c == 12 || c == 13
  }

  predicate Separator(c: byte) {
    IsWhiteSpace(c) || c == 0
  }

  lemma Separators(c: byte)
    ensures Separator(c) <==> c in [9, 10, 12, 13, 32, 0]
  {
  }

  function Word(s: bytes): bytes {
    if s == [] || Separator(s[0]) then [] else [s[0]] + Word(s[1..])
  }

  /** What follows the first word and its separator. */
  function AfterWord(s: bytes): bytes {
    if s == [] then [] else if Separator(s[0]) then s[1..] else AfterWord(s[1..])
  }

  /** A word ends at the first separator, or with the text. */
  lemma {:induction false} WordSplits(s: bytes)
    ensures forall i :: 0 <= i < |Word(s)| ==> !Separator(Word(s)[i])
    ensures |Word(s)| <= |s| && Word(s) == s[..|Word(s)|]
    ensures if |Word(s)| == |s| then AfterWord(s) == []
            else Separator(s[|Word(s)|]) && AfterWord(s) == s[|Word(s)| + 1..]
  {
    if s != [] && !Separator(s[0]) {
      WordSplits(s[1..]);
      assert s == [s[0]] + s[1..];
    }
  }

  function Text(s: bytes): bytes {
    if Utf8(s) then s else []
  }

  lemma {:induction false} WordReads(word: bytes, sep: byte, rest: bytes)
    requires forall i :: 0 <= i < |word| ==> !Separator(word[i])
    requires Separator(sep)
    ensures Word(word + [sep] + rest) == word && AfterWord(word + [sep] + rest) == rest
    ensures Word(word) == word && AfterWord(word) == []
  {
    var s := word + [sep] + rest;
    if word != [] {
      WordReads(word[1..], sep, rest);
      assert s[1..] == word[1..] + [sep] + rest;
    } else {
      assert s[1..] == rest;
    }
  }

  // ---------------------------------------------------------------- many lines

  function Concat(parts: seq<bytes>): bytes {
    if parts == [] then [] else parts[0] + Concat(parts[1..])
  }

  function Frames(lines: seq<bytes>): bytes {
    if lines == [] then [] else Frame(lines[0]) + Frames(lines[1..])
  }

  /** Lines up to the first that is empty or malformed; `flushed` says that it was not malformed. */
  datatype Lines = Lines(lines: seq<bytes>, rest: bytes, flushed: bool)

  function ReadLines(s: bytes): Lines
    decreases |s|
  {
    match Read(s)
    case Bad => Lines([], s, false)
    case Line(payload, rest) =>
      if payload == [] then Lines([], rest, true)
      else var more := ReadLines(rest); more.(lines := [payload] + more.lines)
  }

  ghost predicate Sendable(lines: seq<bytes>) {
    forall i :: 0 <= i < |lines| ==> 0 < |lines[i]| <= MAX_PAYLOAD
  }

  /** A list of lines and the flush behind it are read back, and nothing beyond. */
  lemma {:induction false} FramesRead(lines: seq<bytes>, rest: bytes)
    requires Sendable(lines)
    ensures ReadLines(Frames(lines) + FLUSH + rest) == Lines(lines, rest, true)
    decreases |lines|
  {
    hide Read, Frame;
    if lines == [] {
      FlushReads(rest);
      assert Frames(lines) + FLUSH + rest == FLUSH + rest;
    } else {
      var more := Frames(lines[1..]) + FLUSH + rest;
      FramesRead(lines[1..], rest);
      FrameReads(lines[0], more);
      assert Frames(lines) + FLUSH + rest == Frame(lines[0]) + more;
    }
  }

  lemma FramesNone()
    ensures Frames([]) == []
  {
  }

  lemma FramesHead(lines: seq<bytes>, rest: bytes)
    requires lines != []
    ensures Frames(lines) + rest == Frame(lines[0]) + (Frames(lines[1..]) + rest)
  {
    hide Frame;
  }

  lemma {:induction false} FramesSnoc(lines: seq<bytes>, line: bytes)
    ensures Frames(lines + [line]) == Frames(lines) + Frame(line)
  {
    hide Frame;
    if lines == [] {
      assert lines + [line] == [line];
    } else {
      FramesSnoc(lines[1..], line);
      assert (lines + [line])[1..] == lines[1..] + [line];
    }
  }

  /** `git-upload-pack` and the like are announced first over HTTP. */
  method BuildSmartReply(http: bool, refs: seq<bytes>, service: bytes) returns (out: bytes)
    ensures out == (if http then Frame(Announcement(service)) + FLUSH else []) + Frames(refs) + FLUSH
  {
    hide Frame;
    out := [];
    if http {
      out := out + Frame(Announcement(service));
      out := out + FLUSH;
    }
    ghost var head := out;
    for i := 0 to |refs|
      invariant out == head + Frames(refs[..i])
    {
      assert refs[..i + 1] == refs[..i] + [refs[i]];
      FramesSnoc(refs[..i], refs[i]);
      out := out + Frame(refs[i]);
    }
    assert refs[..|refs|] == refs;
    out := out + FLUSH;
  }

  /** `# service=<service>\n` */
  function Announcement(service: bytes): bytes {
    [35, 32, 115, 101, 114, 118, 105, 99, 101, 61] + service + [10]
  }

  /** A smart reply parses back to its lines, behind the announcement if there is one. */
  lemma SmartReplyReads(http: bool, refs: seq<bytes>, service: bytes, out: bytes)
    requires Sendable(refs) && |service| + 11 <= MAX_PAYLOAD
    requires out == (if http then Frame(Announcement(service)) + FLUSH else []) + Frames(refs) + FLUSH
    ensures !http ==> ReadLines(out) == Lines(refs, [], true)
    ensures http ==> ReadLines(out) == Lines([Announcement(service)], Frames(refs) + FLUSH, true)
    ensures http ==> ReadLines(out).lines[0] == [35, 32, 115, 101, 114, 118, 105, 99, 101, 61] + service + [10]
    ensures http ==> ReadLines(ReadLines(out).rest) == Lines(refs, [], true)
  {
    hide Frame, Frames, ReadLines;
    FramesRead(refs, []);
    assert Frames(refs) + FLUSH + [] == Frames(refs) + FLUSH;
    if http {
      FramesRead([Announcement(service)], Frames(refs) + FLUSH);
      FramesOne(Announcement(service));
      assert Frame(Announcement(service)) + FLUSH + Frames(refs) + FLUSH == Frame(Announcement(service)) + FLUSH + (Frames(refs) + FLUSH);
    } else {
      assert [] + Frames(refs) + FLUSH == Frames(refs) + FLUSH;
    }
  }

  lemma FramesOne(line: bytes)
    ensures Frames([line]) == Frame(line)
  {
    hide Frame;
    assert [line][1..] == [];
  }

  // ---------------------------------------------------------------- side band

  /** Side-band payload limits: 1000 and 65520 bytes per packet, five of them taken by the header. */
  const SIDE_BAND_MAX: nat := 995
  const SIDE_BAND_64K_MAX: nat := 65515

  /** Packfile data travels on band 1. */
  const PACKFILE_BAND: byte := 1

  /** Cuts a chunk into packets of at most `max` payload bytes. */
  method BuildSideBandPackets(chunk: bytes, max: nat) returns (packets: seq<bytes>, ghost pieces: seq<bytes>)
    requires 0 < max
    ensures |packets| == |pieces| && forall i :: 0 <= i < |packets| ==> packets[i] == Frame([PACKFILE_BAND] + pieces[i])
    ensures forall i :: 0 <= i < |pieces| ==> 0 < |pieces[i]| <= max
    ensures Concat(pieces) == chunk
  {
    hide Frame;
    packets, pieces := [], [];
    var offset: nat := 0;
    while offset < |chunk|
      invariant offset <= |chunk| && |packets| == |pieces|
      invariant forall i :: 0 <= i < |packets| ==> packets[i] == Frame([PACKFILE_BAND] + pieces[i])
      invariant forall i :: 0 <= i < |pieces| ==> 0 < |pieces[i]| <= max
      invariant Concat(pieces) == chunk[..offset]
    {
      var end := Min(offset + max, |chunk|);
      var payload := chunk[offset..end];
      packets := packets + [SideBandPacket(payload)];
      ConcatSnoc(pieces, payload);
      pieces := pieces + [payload];
      assert chunk[..offset] + payload == chunk[..end];
      offset := end;
    }
    assert chunk[..offset] == chunk;
  }

  /** Length, band and payload. */
  function SideBandPacket(payload: bytes): (packet: bytes)
    ensures packet == Frame([PACKFILE_BAND] + payload)
  {
    Hex4(|payload| + 5) + [PACKFILE_BAND] + payload
  }

  lemma ConcatNone()
    ensures Concat([]) == []
  {
  }

  lemma {:induction false} ConcatSnoc(parts: seq<bytes>, part: bytes)
    ensures Concat(parts + [part]) == Concat(parts) + part
  {
    if parts == [] {
      assert parts + [part] == [part];
      assert Concat([part]) == part + Concat([]);
    } else {
      ConcatSnoc(parts[1..], part);
      assert (parts + [part])[1..] == parts[1..] + [part];
    }
  }

  function Banded(pieces: seq<bytes>): (r: seq<bytes>)
    ensures |r| == |pieces| && forall i :: 0 <= i < |r| ==> r[i] == [PACKFILE_BAND] + pieces[i]
  {
    seq(|pieces|, i requires 0 <= i < |pieces| => [PACKFILE_BAND] + pieces[i])
  }

  /** All the chunks of a stream, framed one after the other and closed by a flush. */
  method SideBandStream(chunks: seq<bytes>, max: nat) returns (out: bytes, ghost pieces: seq<bytes>)
    requires 0 < max
    ensures out == Frames(Banded(pieces)) + FLUSH && Concat(pieces) == Concat(chunks)
    ensures forall i :: 0 <= i < |pieces| ==> 0 < |pieces[i]| <= max
    ensures max == SIDE_BAND_MAX ==> Carries(out, 1000, Concat(chunks))
    ensures max == SIDE_BAND_64K_MAX ==> Carries(out, 65520, Concat(chunks))
  {
    hide Frame, Frames, Concat;
    out, pieces := [], [];
    FramesNone();
    ConcatNone();
    assert Banded(pieces) == [] && chunks[..0] == [];
    for i := 0 to |chunks|
      invariant out == Frames(Banded(pieces)) && Concat(pieces) == Concat(chunks[..i])
      invariant forall j :: 0 <= j < |pieces| ==> 0 < |pieces[j]| <= max
    {
      var packets, more := BuildSideBandPackets(chunks[i], max);
      assert chunks[..i + 1] == chunks[..i] + [chunks[i]];
      ConcatSnoc(chunks[..i], chunks[i]);
      ConcatAppend(pieces, more);
      FramesAppend(Banded(pieces), Banded(more));
      assert Banded(pieces + more) == Banded(pieces) + Banded(more);
      PacketsAreFrames(packets, Banded(more));
      out := out + Concat(packets);
      pieces := pieces + more;
    }
    assert chunks[..|chunks|] == chunks;
    out := out + FLUSH;
    if max == SIDE_BAND_MAX || max == SIDE_BAND_64K_MAX { SideBandReads(chunks, max, out, pieces); }
  }

  lemma {:induction false} PacketsAreFrames(packets: seq<bytes>, lines: seq<bytes>)
    requires |packets| == |lines| && forall i :: 0 <= i < |packets| ==> packets[i] == Frame(lines[i])
    ensures Concat(packets) == Frames(lines)
  {
    hide Frame;
    if packets != [] { PacketsAreFrames(packets[1..], lines[1..]); }
  }

  lemma {:induction false} ConcatAppend(a: seq<bytes>, b: seq<bytes>)
    ensures Concat(a + b) == Concat(a) + Concat(b)
  {
    if a == [] {
      assert a + b == b;
    } else {
      ConcatAppend(a[1..], b);
      assert (a + b)[1..] == a[1..] + b && (a + b)[0] == a[0];
      assert Concat(a + b) == a[0] + Concat(a[1..] + b);
    }
  }

  lemma {:induction false} FramesAppend(a: seq<bytes>, b: seq<bytes>)
    ensures Frames(a + b) == Frames(a) + Frames(b)
  {
    hide Frame;
    if a == [] {
      assert a + b == b;
    } else {
      FramesAppend(a[1..], b);
      assert (a + b)[1..] == a[1..] + b && (a + b)[0] == a[0];
      assert Frames(a + b) == Frame(a[0]) + Frames(a[1..] + b);
    }
  }

  /** What the receiver of a side-band stream puts together from its packets. */
  function Unbanded(lines: seq<bytes>): bytes {
    if lines == [] then [] else (if lines[0] == [] then [] else lines[0][1..]) + Unbanded(lines[1..])
  }

  lemma {:induction false} UnbandedBanded(pieces: seq<bytes>)
    ensures Unbanded(Banded(pieces)) == Concat(pieces)
  {
    if pieces != [] {
      UnbandedBanded(pieces[1..]);
      assert Banded(pieces)[1..] == Banded(pieces[1..]);
      assert ([PACKFILE_BAND] + pieces[0])[1..] == pieces[0];
    }
  }

  /** Reading the stream until its flush yields band-1 packets of at most `limit` bytes that carry the data, and nothing is left. */
  ghost predicate Carries(out: bytes, limit: nat, data: bytes) {
    var read := ReadLines(out);
    && read.flushed && read.rest == [] && Unbanded(read.lines) == data
    && |out| >= 4 && out[|out| - 4..] == [48, 48, 48, 48]
    && forall i :: 0 <= i < |read.lines| ==>
         read.lines[i] != [] && read.lines[i][0] == 1 && |Frame(read.lines[i])| <= limit
  }

  /** Reading a side-band stream until its flush yields band-1 packets within the limit, and the bytes that were sent. */
  lemma SideBandReads(chunks: seq<bytes>, max: nat, out: bytes, pieces: seq<bytes>)
    requires max == SIDE_BAND_MAX || max == SIDE_BAND_64K_MAX
    requires out == Frames(Banded(pieces)) + FLUSH && Concat(pieces) == Concat(chunks)
    requires forall i :: 0 <= i < |pieces| ==> 0 < |pieces[i]| <= max
    ensures max == SIDE_BAND_MAX ==> Carries(out, 1000, Concat(chunks))
    ensures max == SIDE_BAND_64K_MAX ==> Carries(out, 65520, Concat(chunks))
  {
    var lines := Banded(pieces);
    FramesRead(lines, []);
    assert Frames(lines) + FLUSH + [] == out;
    UnbandedBanded(pieces);
    forall i | 0 <= i < |lines| ensures |Frame(lines[i])| <= max + 5 {
      LengthRoundTrip(|lines[i]| + 4);
    }
  }
}
