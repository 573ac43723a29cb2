/**
 Requests of the smart protocol as src/protocol/smart.rs reads them: capabilities, the commands of
 a push and the negotiation of a fetch, and how such requests are written.
 */
module SmartRequests {
  import opened Basics
  import opened Encoding
  import opened PktLine
  import opened HashKinds

  // ---------------------------------------------------------------- object formats

  function KindName(kind: HashKind): bytes {
    match kind
    case Sha1 => [115, 104, 97, 49]
    case Sha256 => [115, 104, 97, 50, 53, 54]
    case Blake3 => [98, 108, 97, 107, 101, 51]
  }

  function KindNamed(name: bytes): Option<HashKind> {
    if name == KindName(Sha1) then Some(Sha1)
    else if name == KindName(Sha256) then Some(Sha256)
    else if name == KindName(Blake3) then Some(Blake3)
    else None
  }

  function ZeroStr(kind: HashKind): bytes {
    seq(HexLen(kind), _ => 48)
  }

  // ---------------------------------------------------------------- commands

  datatype RefCommand = RefCommand(oldId: bytes, newId: bytes, name: bytes, defaultBranch: bool, error: Option<bytes>)

  /** Prefix of a tag's name, `refs/tags/`. */
  const TAGS: bytes := [114, 101, 102, 115, 47, 116, 97, 103, 115, 47]

  predicate IsTag(name: bytes) {
    TAGS <= name
  }

  predicate LowerHex(c: byte) {
    48 <= c <= 57 || 97 <= c <= 102
  }

  /** An ID as it may appear on the wire. */
  predicate IsWireId(kind: HashKind, id: bytes) {
    |id| == HexLen(kind) && forall i :: 0 <= i < |id| ==> LowerHex(id[i])
  }

  function ParseCommand(kind: HashKind, line: bytes): Option<RefCommand> {
    var tail := AfterWord(line);
    var oldId, newId, name := Text(Word(line)), Text(Word(tail)), Text(Word(AfterWord(tail)));
    if IsWireId(kind, oldId) && IsWireId(kind, newId) && name != []
    then Some(RefCommand(oldId, newId, name, false, None)) else None
  }

  // ---------------------------------------------------------------- capabilities

  datatype Capability = ObjectFormat(name: bytes) | Named(name: bytes)

  /** How capability text is split into words and which words are known: both are left open. */
  datatype Reading = Reading(words: bytes -> seq<bytes>, known: bytes -> Option<Capability>)

  /** `object-format=` */
  const OBJECT_FORMAT: bytes := [111, 98, 106, 101, 99, 116, 45, 102, 111, 114, 109, 97, 116, 61]

  datatype Scan = Scan(capabilities: seq<Capability>, ok: bool)

  /** Capabilities up to the first object format that is not the repository's. */
  function ScanWords(reading: Reading, kind: HashKind, words: seq<bytes>): Scan {
    if words == [] then Scan([], true)
    else
      var w := words[0];
      var more := ScanWords(reading, kind, words[1..]);
      if OBJECT_FORMAT <= w then
        var fmt := w[|OBJECT_FORMAT|..];
        if KindNamed(fmt) == Some(kind) then more.(capabilities := [ObjectFormat(fmt)] + more.capabilities)
        else Scan([], false)
      else if reading.known(w).Some? then more.(capabilities := [reading.known(w).value] + more.capabilities)
      else more
  }

  lemma ScanNext(reading: Reading, kind: HashKind, words: seq<bytes>, i: nat)
    requires i < |words|
    ensures var w, scan, more := words[i], ScanWords(reading, kind, words[i..]), ScanWords(reading, kind, words[i + 1..]);
      if OBJECT_FORMAT <= w && KindNamed(w[|OBJECT_FORMAT|..]) != Some(kind) then scan == Scan([], false)
      else
        && scan.ok == more.ok
        && scan.capabilities == (if OBJECT_FORMAT <= w then [ObjectFormat(w[|OBJECT_FORMAT|..])]
                                 else if reading.known(w).Some? then [reading.known(w).value] else []) + more.capabilities
  {
    hide KindNamed;
    assert words[i..][0] == words[i] && words[i..][1..] == words[i + 1..];
  }

  lemma ScanNothing(reading: Reading, kind: HashKind, words: seq<bytes>)
    ensures ScanWords(reading, kind, words[|words|..]) == Scan([], true)
  {
  }

  /** Position of the first NUL, or the length. */
  function NulAt(s: bytes): (p: nat)
    ensures p <= |s| && (p < |s| ==> s[p] == 0) && forall i :: 0 <= i < p ==> s[i] != 0
  {
    if s == [] || s[0] == 0 then 0 else 1 + NulAt(s[1..])
  }

  /** Only the first line carries capabilities, behind a NUL. */
  function ScanLine(reading: Reading, kind: HashKind, line: bytes, first: bool): Scan {
    if first && NulAt(line) < |line| then ScanWords(reading, kind, reading.words(line[NulAt(line) + 1..])) else Scan([], true)
  }

  // ---------------------------------------------------------------- a request

  datatype Ending = Stopped(rest: bytes, flushed: bool) | Failed

  datatype Parse = Parse(commands: seq<RefCommand>, capabilities: seq<Capability>, ending: Ending)

  function Before(commands: seq<RefCommand>, capabilities: seq<Capability>, p: Parse): Parse {
    Parse(commands + p.commands, capabilities + p.capabilities, p.ending)
  }

  /** Commands up to the flush or the first line that cannot be read. */
  function ParseFrom(reading: Reading, kind: HashKind, s: bytes, first: bool): Parse
    decreases |s|
  {
    match Read(s)
    case Bad => Parse([], [], Stopped(s, false))
    case Line(payload, rest) =>
      if payload == [] then Parse([], [], Stopped(rest, true))
      else
        var scan, command := ScanLine(reading, kind, payload, first), ParseCommand(kind, payload);
        if !scan.ok || command.None? then Parse([], scan.capabilities, Failed)
        else Before([command.value], scan.capabilities, ParseFrom(reading, kind, rest, false))
  }

  lemma ParseStart(reading: Reading, kind: HashKind, s: bytes)
    ensures ParseFrom(reading, kind, s, true) == Before([], [], ParseFrom(reading, kind, s, true))
  {
  }

  /** The parse once a line has been taken. */
  function TakenLine(reading: Reading, kind: HashKind, line: bytes, first: bool, commands: seq<RefCommand>,
                     capabilities: seq<Capability>, rest: bytes): Parse {
    var scan, command := ScanLine(reading, kind, line, first), ParseCommand(kind, line);
    if !scan.ok || command.None? then Parse(commands, capabilities + scan.capabilities, Failed)
    else Before(commands + [command.value], capabilities + scan.capabilities, ParseFrom(reading, kind, rest, false))
  }

  /** What the commands read so far and the next line make together. */
  lemma ParseNext(reading: Reading, kind: HashKind, s: bytes, first: bool, commands: seq<RefCommand>, capabilities: seq<Capability>)
    ensures Before(commands, capabilities, ParseFrom(reading, kind, s, first)) ==
      if Read(s).Bad? then Parse(commands, capabilities, Stopped(s, false))
      else if Read(s).payload == [] then Parse(commands, capabilities, Stopped(Read(s).rest, true))
      else TakenLine(reading, kind, Read(s).payload, first, commands, capabilities, Read(s).rest)
  {
    hide Read, ScanLine, ParseCommand;
  }

  // ---------------------------------------------------------------- a fetch

  const WANT: bytes := [119, 97, 110, 116]
  const HAVE: bytes := [104, 97, 118, 101]
  const DONE: bytes := [100, 111, 110, 101]

  datatype Request = Request(wants: seq<bytes>, haves: seq<bytes>, capabilities: seq<Capability>, ok: bool)

  function Ahead(wants: seq<bytes>, haves: seq<bytes>, capabilities: seq<Capability>, r: Request): Request {
    Request(wants + r.wants, haves + r.haves, capabilities + r.capabilities, r.ok)
  }

  const NOTHING: Request := Request([], [], [], true)

  /** Negotiation lines up to `done`, the first flush or the first line that cannot be read. */
  function ParseUpload(reading: Reading, kind: HashKind, s: bytes, first: bool): Request
    decreases |s|
  {
    match Read(s)
    case Bad => NOTHING
    case Line(payload, rest) => if payload == [] then NOTHING else TakenUpload(reading, kind, payload, rest, first)
  }

  /** What one line says; the capabilities stand behind the first `want`. */
  datatype UploadLine =
    | Want(id: bytes, capabilities: seq<Capability>)
    | Have(id: bytes)
    | Done
    | Ignored
    | Refused(capabilities: seq<Capability>)

  function ReadUploadLine(reading: Reading, kind: HashKind, line: bytes, first: bool): UploadLine {
    var command, tail := Text(Word(line)), AfterWord(line);
    var id := Text(Word(tail));
    if command == WANT then
      var scan := if first then ScanWords(reading, kind, reading.words(AfterWord(tail))) else Scan([], true);
      if !scan.ok || !IsWireId(kind, id) then Refused(scan.capabilities) else Want(id, scan.capabilities)
    else if command == HAVE then if IsWireId(kind, id) then Have(id) else Refused([])
    else if command == DONE then Done
    else Ignored
  }

  function CapabilitiesOf(line: UploadLine): seq<Capability> {
    if line.Want? || line.Refused? then line.capabilities else []
  }

  function TakenUpload(reading: Reading, kind: HashKind, line: bytes, rest: bytes, first: bool): Request
    decreases |rest| + 1
  {
    match ReadUploadLine(reading, kind, line, first)
    case Want(id, capabilities) => Ahead([id], [], capabilities, ParseUpload(reading, kind, rest, false))
    case Have(id) => Ahead([], [id], [], ParseUpload(reading, kind, rest, first))
    case Done => NOTHING
    case Ignored => ParseUpload(reading, kind, rest, first)
    case Refused(capabilities) => Request([], [], capabilities, false)
  }

  /** What the lines read so far and the next one make together. */
  lemma UploadNext(reading: Reading, kind: HashKind, s: bytes, first: bool,
                   wants: seq<bytes>, haves: seq<bytes>, capabilities: seq<Capability>)
    ensures Ahead(wants, haves, capabilities, ParseUpload(reading, kind, s, first)) ==
      if Read(s).Bad? || Read(s).payload == [] then Request(wants, haves, capabilities, true)
      else AfterUploadLine(reading, kind, ReadUploadLine(reading, kind, Read(s).payload, first), Read(s).rest, first,
                           wants, haves, capabilities)
  {
    hide Read, ReadUploadLine;
  }

  function AfterUploadLine(reading: Reading, kind: HashKind, line: UploadLine, rest: bytes, first: bool,
                           wants: seq<bytes>, haves: seq<bytes>, capabilities: seq<Capability>): Request {
    match line
    case Want(id, more) => Ahead(wants + [id], haves, capabilities + more, ParseUpload(reading, kind, rest, false))
    case Have(id) => Ahead(wants, haves + [id], capabilities, ParseUpload(reading, kind, rest, first))
    case Done => Request(wants, haves, capabilities, true)
    case Ignored => Ahead(wants, haves, capabilities, ParseUpload(reading, kind, rest, first))
    case Refused(more) => Request(wants, haves, capabilities + more, false)
  }

  lemma AheadNothing(wants: seq<bytes>, haves: seq<bytes>, capabilities: seq<Capability>, r: Request)
    requires wants == [] && haves == [] && capabilities == []
    ensures Ahead(wants, haves, capabilities, r) == r
  {
  }

  ghost predicate Untouched(parsed: seq<RefCommand>) {
    forall i :: 0 <= i < |parsed| ==> !parsed[i].defaultBranch && parsed[i].error.None?
  }

  lemma {:induction false} ParsedUntouched(reading: Reading, kind: HashKind, s: bytes, first: bool)
    ensures Untouched(ParseFrom(reading, kind, s, first).commands)
    decreases |s|
  {
    hide ScanLine, Read, ParseCommand;
    match Read(s)
    case Bad =>
    case Line(payload, rest) =>
      if payload != [] {
        ReadAdvances(s);
        CommandUntouched(kind, payload);
        ParsedUntouched(reading, kind, rest, false);
      }
  }

  lemma CommandUntouched(kind: HashKind, line: bytes)
    ensures ParseCommand(kind, line).Some? ==>
      !ParseCommand(kind, line).value.defaultBranch && ParseCommand(kind, line).value.error.None?
  {
    hide Word, AfterWord, Utf8, IsWireId;
  }

  ghost predicate NonEmptyIds(ids: seq<bytes>) {
    forall i :: 0 <= i < |ids| ==> ids[i] != []
  }

  /** Accepted IDs are never empty. */
  lemma {:induction false} UploadIds(reading: Reading, kind: HashKind, s: bytes, first: bool)
    ensures NonEmptyIds(ParseUpload(reading, kind, s, first).haves)
    decreases |s|
  {
    hide Read, ReadUploadLine;
    if Read(s).Line? && Read(s).payload != [] {
      ReadAdvances(s);
      UploadIds(reading, kind, Read(s).rest, first);
      UploadIds(reading, kind, Read(s).rest, false);
      HaveIsId(reading, kind, Read(s).payload, first);
    }
  }

  lemma HaveIsId(reading: Reading, kind: HashKind, line: bytes, first: bool)
    ensures ReadUploadLine(reading, kind, line, first).Have? ==> ReadUploadLine(reading, kind, line, first).id != []
  {
    hide Word, AfterWord, Utf8, ScanWords;
  }

  // ---------------------------------------------------------------- requests as they are sent

  /** `<old> <new> <ref>` and what follows on the line. */
  function CommandLine(c: RefCommand, tail: bytes): bytes {
    c.oldId + [32] + c.newId + [32] + c.name + tail
  }

  ghost predicate WellFormed(kind: HashKind, c: RefCommand) {
    && IsWireId(kind, c.oldId) && IsWireId(kind, c.newId) && !c.defaultBranch && c.error.None?
    && c.name != [] && Utf8(c.name) && forall i :: 0 <= i < |c.name| ==> !Separator(c.name[i])
  }

  lemma WireIdReads(kind: HashKind, id: bytes)
    requires IsWireId(kind, id)
    ensures Utf8(id) && forall i :: 0 <= i < |id| ==> !Separator(id[i])
  {
    AsciiIsUtf8(id);
  }

  lemma CommandReads(kind: HashKind, c: RefCommand, tail: bytes)
    requires WellFormed(kind, c) && (tail != [] ==> Separator(tail[0]))
    ensures ParseCommand(kind, CommandLine(c, tail)) == Some(c)
  {
    hide Word, AfterWord, IsWireId, Utf8;
    var line := CommandLine(c, tail);
    WireIdReads(kind, c.oldId);
    WireIdReads(kind, c.newId);
    WordReads(c.oldId, 32, c.newId + [32] + c.name + tail);
    assert line == c.oldId + [32] + (c.newId + [32] + c.name + tail);
    WordReads(c.newId, 32, c.name + tail);
    assert c.newId + [32] + c.name + tail == c.newId + [32] + (c.name + tail);
    if tail == [] {
      WordReads(c.name, 32, []);
      assert c.name + tail == c.name;
    } else {
      WordReads(c.name, tail[0], tail[1..]);
      assert c.name + tail == c.name + [tail[0]] + tail[1..];
    }
  }

  /** The lines behind the first; each may end in a newline. */
  function CommandLines(commands: seq<RefCommand>, tail: bytes): (lines: seq<bytes>)
    ensures |lines| == |commands| && forall i :: 0 <= i < |lines| ==> lines[i] == CommandLine(commands[i], tail)
  {
    seq(|commands|, i requires 0 <= i < |commands| => CommandLine(commands[i], tail))
  }

  ghost predicate AllWellFormed(kind: HashKind, commands: seq<RefCommand>) {
    forall i :: 0 <= i < |commands| ==> WellFormed(kind, commands[i])
  }

  lemma {:induction false} MoreCommandsRead(reading: Reading, kind: HashKind, commands: seq<RefCommand>, tail: bytes, pack: bytes)
    requires AllWellFormed(kind, commands) && Sendable(CommandLines(commands, tail)) && (tail != [] ==> Separator(tail[0]))
    ensures ParseFrom(reading, kind, Frames(CommandLines(commands, tail)) + FLUSH + pack, false) ==
      Parse(commands, [], Stopped(pack, true))
    decreases |commands|
  {
    hide Read, Frame, ParseCommand, CommandLine, WellFormed, ParseFrom, Frames;
    var lines := CommandLines(commands, tail);
    var s := Frames(lines) + FLUSH + pack;
    if commands == [] {
      FlushReads(pack);
      FramesNone();
      assert s == FLUSH + pack;
      FlushEnds(reading, kind, s, pack);
    } else {
      var more := Frames(lines[1..]) + FLUSH + pack;
      assert lines[1..] == CommandLines(commands[1..], tail);
      MoreCommandsRead(reading, kind, commands[1..], tail, pack);
      FrameReads(lines[0], more);
      FramesHead(lines, FLUSH + pack);
      assert s == Frames(lines) + (FLUSH + pack) && more == Frames(lines[1..]) + (FLUSH + pack);
      CommandReads(kind, commands[0], tail);
      CommandTaken(reading, kind, s, lines[0], more, commands[0]);
      assert [commands[0]] + commands[1..] == commands;
    }
  }

  lemma FlushEnds(reading: Reading, kind: HashKind, s: bytes, pack: bytes)
    requires Read(s) == Line([], pack)
    ensures ParseFrom(reading, kind, s, false) == Parse([], [], Stopped(pack, true))
  {
    hide Read;
  }

  lemma CommandTaken(reading: Reading, kind: HashKind, s: bytes, line: bytes, rest: bytes, c: RefCommand)
    requires Read(s) == Line(line, rest) && line != [] && ParseCommand(kind, line) == Some(c)
    ensures ParseFrom(reading, kind, s, false) == Before([c], [], ParseFrom(reading, kind, rest, false))
  {
    hide Read, ParseCommand;
  }

  /** Where the capabilities of the first line begin. */
  lemma FirstNul(kind: HashKind, c: RefCommand, text: bytes)
    requires WellFormed(kind, c)
    ensures var line := CommandLine(c, [0] + text); NulAt(line) < |line| && line[NulAt(line) + 1..] == text
  {
    var head := c.oldId + [32] + c.newId + [32] + c.name;
    var line := CommandLine(c, [0] + text);
    assert line == head + [0] + text;
    assert line[|head|] == 0;
    forall i | 0 <= i < |head| ensures line[i] != 0 {
      var a, b := |c.oldId|, |c.newId|;
      assert line[i] == if i < a then c.oldId[i] else if i == a then 32 else if i < a + 1 + b then c.newId[i - a - 1]
                        else if i == a + 1 + b then 32 else c.name[i - a - b - 2];
    }
    assert NulAt(line) == |head|;
  }

  /**
   A request with at least one command, its capabilities and its pack: the commands are recovered,
   and so is every byte of the pack, exactly when no capability names another object format.
   */
  lemma RequestReads(reading: Reading, kind: HashKind, commands: seq<RefCommand>, text: bytes, tail: bytes, pack: bytes)
    requires commands != [] && AllWellFormed(kind, commands) && (tail != [] ==> Separator(tail[0]))
    requires Sendable([CommandLine(commands[0], [0] + text)] + CommandLines(commands[1..], tail))
    ensures var scan := ScanWords(reading, kind, reading.words(text));
      ParseFrom(reading, kind, Frames([CommandLine(commands[0], [0] + text)] + CommandLines(commands[1..], tail)) + FLUSH + pack, true) ==
      if scan.ok then Parse(commands, scan.capabilities, Stopped(pack, true)) else Parse([], scan.capabilities, Failed)
  {
    hide Read, Frame, ParseCommand, CommandLine, WellFormed, ScanWords;
    var line, others := CommandLine(commands[0], [0] + text), CommandLines(commands[1..], tail);
    var lines := [line] + others;
    var more := Frames(others) + FLUSH + pack;
    assert lines[1..] == others;
    assert Frames(lines) + FLUSH + pack == Frame(line) + more;
    assert Sendable(others) by { assert forall i :: 0 <= i < |others| ==> others[i] == lines[i + 1]; }
    MoreCommandsRead(reading, kind, commands[1..], tail, pack);
    FrameReads(line, more);
    FirstNul(kind, commands[0], text);
    CommandReads(kind, commands[0], [0] + text);
    assert [commands[0]] + commands[1..] == commands;
  }

  /** `want <id>` or `have <id>` with its newline, and `done`. */
  function NegotiationLine(want: bool, id: bytes): bytes {
    (if want then WANT else HAVE) + [32] + id + [10]
  }

  const DONE_LINE: bytes := DONE + [10]

  function WantLines(wants: seq<bytes>): (r: seq<bytes>)
    ensures |r| == |wants| && forall i :: 0 <= i < |r| ==> r[i] == NegotiationLine(true, wants[i])
  {
    seq(|wants|, i requires 0 <= i < |wants| => NegotiationLine(true, wants[i]))
  }

  function HaveLines(haves: seq<bytes>): (r: seq<bytes>)
    ensures |r| == |haves| && forall i :: 0 <= i < |r| ==> r[i] == NegotiationLine(false, haves[i])
  {
    seq(|haves|, i requires 0 <= i < |haves| => NegotiationLine(false, haves[i]))
  }

  ghost predicate WireIds(kind: HashKind, ids: seq<bytes>) {
    forall i :: 0 <= i < |ids| ==> IsWireId(kind, ids[i])
  }

  lemma CommandWord(command: bytes, rest: bytes)
    requires command == WANT || command == HAVE
    ensures Text(Word(command + [32] + rest)) == command && AfterWord(command + [32] + rest) == rest
  {
    hide Utf8;
    AsciiIsUtf8(command);
    WordReads(command, 32, rest);
  }

  lemma NegotiationLineReads(reading: Reading, kind: HashKind, want: bool, id: bytes)
    requires IsWireId(kind, id)
    ensures ReadUploadLine(reading, kind, NegotiationLine(want, id), false) == if want then Want(id, []) else Have(id)
    ensures 0 < |NegotiationLine(want, id)| <= MAX_PAYLOAD
  {
    hide Word, AfterWord, Utf8, IsWireId, ScanWords;
    WireIdReads(kind, id);
    var command := if want then WANT else HAVE;
    assert NegotiationLine(want, id) == command + [32] + (id + [10]);
    CommandWord(command, id + [10]);
    WordReads(id, 10, []);
    assert id + [10] + [] == id + [10];
    WireIdSize(kind, id);
  }

  lemma WireIdSize(kind: HashKind, id: bytes)
    requires IsWireId(kind, id)
    ensures |id| <= 64
  {
  }

  lemma DoneReads(reading: Reading, kind: HashKind, rest: bytes, first: bool)
    ensures ParseUpload(reading, kind, Frame(DONE_LINE) + rest, first) == NOTHING
  {
    hide Read, Frame, Word, AfterWord, Utf8;
    FrameReads(DONE_LINE, rest);
    AsciiIsUtf8(DONE);
    WordReads(DONE, 10, []);
    assert DONE + [10] + [] == DONE_LINE;
  }

  /** A line of a negotiation is taken off the front. */
  lemma UploadTaken(reading: Reading, kind: HashKind, line: bytes, rest: bytes, first: bool)
    requires 0 < |line| <= MAX_PAYLOAD
    ensures ParseUpload(reading, kind, Frame(line) + rest, first) == TakenUpload(reading, kind, line, rest, first)
  {
    hide Read, Frame, TakenUpload;
    FrameReads(line, rest);
  }

  lemma {:induction false} HavesRead(reading: Reading, kind: HashKind, haves: seq<bytes>, rest: bytes)
    requires WireIds(kind, haves)
    ensures ParseUpload(reading, kind, Frames(HaveLines(haves)) + (Frame(DONE_LINE) + rest), false) == Request([], haves, [], true)
    decreases |haves|
  {
    hide ParseUpload, ReadUploadLine, Frame, Frames, IsWireId, NegotiationLine;
    var lines, tail := HaveLines(haves), Frame(DONE_LINE) + rest;
    if haves == [] {
      FramesNone();
      assert Frames(lines) + tail == tail;
      DoneReads(reading, kind, rest, false);
    } else {
      FramesHead(lines, tail);
      assert lines[1..] == HaveLines(haves[1..]);
      NegotiationLineReads(reading, kind, false, haves[0]);
      UploadTaken(reading, kind, lines[0], Frames(lines[1..]) + tail, false);
      HavesRead(reading, kind, haves[1..], rest);
      assert [haves[0]] + haves[1..] == haves;
    }
  }

  lemma {:induction false} WantsRead(reading: Reading, kind: HashKind, wants: seq<bytes>, haves: seq<bytes>, rest: bytes)
    requires WireIds(kind, wants) && WireIds(kind, haves)
    ensures ParseUpload(reading, kind, Frames(WantLines(wants)) + (Frames(HaveLines(haves)) + (Frame(DONE_LINE) + rest)), false) ==
      Request(wants, haves, [], true)
    decreases |wants|
  {
    hide ParseUpload, ReadUploadLine, Frame, Frames, IsWireId, NegotiationLine;
    var lines, tail := WantLines(wants), Frames(HaveLines(haves)) + (Frame(DONE_LINE) + rest);
    if wants == [] {
      FramesNone();
      assert Frames(lines) + tail == tail;
      HavesRead(reading, kind, haves, rest);
    } else {
      FramesHead(lines, tail);
      assert lines[1..] == WantLines(wants[1..]);
      NegotiationLineReads(reading, kind, true, wants[0]);
      UploadTaken(reading, kind, lines[0], Frames(lines[1..]) + tail, false);
      WantsRead(reading, kind, wants[1..], haves, rest);
      assert [wants[0]] + wants[1..] == wants;
    }
  }

  /** The first `want` with the capabilities behind it. */
  function FirstWant(id: bytes, text: bytes): bytes {
    WANT + [32] + id + [32] + text
  }

  lemma FirstWantReads(reading: Reading, kind: HashKind, id: bytes, text: bytes)
    requires IsWireId(kind, id)
    ensures var scan := ScanWords(reading, kind, reading.words(text));
      ReadUploadLine(reading, kind, FirstWant(id, text), true) == if scan.ok then Want(id, scan.capabilities) else Refused(scan.capabilities)
  {
    hide Word, AfterWord, Utf8, IsWireId, ScanWords;
    WireIdReads(kind, id);
    assert FirstWant(id, text) == WANT + [32] + (id + [32] + text);
    CommandWord(WANT, id + [32] + text);
    WordReads(id, 32, text);
  }

  /** A fetch request as a client sends it in one go: wants, haves and capabilities are all recovered. */
  lemma UploadRequestReads(reading: Reading, kind: HashKind, wants: seq<bytes>, text: bytes, haves: seq<bytes>, rest: bytes)
    requires wants != [] && WireIds(kind, wants) && WireIds(kind, haves) && |FirstWant(wants[0], text)| <= MAX_PAYLOAD
    ensures var scan := ScanWords(reading, kind, reading.words(text));
      ParseUpload(reading, kind, Frame(FirstWant(wants[0], text)) +
                  (Frames(WantLines(wants[1..])) + (Frames(HaveLines(haves)) + (Frame(DONE_LINE) + rest))), true) ==
      if scan.ok then Request(wants, haves, scan.capabilities, true) else Request([], [], scan.capabilities, false)
  {
    hide ParseUpload, ReadUploadLine, Frame, Frames, IsWireId, NegotiationLine, ScanWords;
    var tail := Frames(WantLines(wants[1..])) + (Frames(HaveLines(haves)) + (Frame(DONE_LINE) + rest));
    FirstWantReads(reading, kind, wants[0], text);
    UploadTaken(reading, kind, FirstWant(wants[0], text), tail, true);
    WantsRead(reading, kind, wants[1..], haves, rest);
    assert [wants[0]] + wants[1..] == wants;
  }

  /** Nothing behind the first flush is read, so haves sent behind the flush that ends the wants have no effect. */
  lemma {:induction false} NothingBehindFlush(reading: Reading, kind: HashKind, lines: seq<bytes>, first: bool, rest: bytes, rest': bytes)
    requires Sendable(lines)
    ensures ParseUpload(reading, kind, Frames(lines) + (FLUSH + rest), first) == ParseUpload(reading, kind, Frames(lines) + (FLUSH + rest'), first)
    decreases |lines|
  {
    hide ParseUpload, ReadUploadLine, Frame, Frames, Read;
    if lines == [] {
      FramesNone();
      assert [] + (FLUSH + rest) == FLUSH + rest && [] + (FLUSH + rest') == FLUSH + rest';
      FlushStops(reading, kind, rest, first);
      FlushStops(reading, kind, rest', first);
    } else {
      FramesHead(lines, FLUSH + rest);
      FramesHead(lines, FLUSH + rest');
      UploadTaken(reading, kind, lines[0], Frames(lines[1..]) + (FLUSH + rest), first);
      UploadTaken(reading, kind, lines[0], Frames(lines[1..]) + (FLUSH + rest'), first);
      NothingBehindFlush(reading, kind, lines[1..], first, rest, rest');
      NothingBehindFlush(reading, kind, lines[1..], false, rest, rest');
    }
  }

  lemma FlushStops(reading: Reading, kind: HashKind, rest: bytes, first: bool)
    ensures ParseUpload(reading, kind, FLUSH + rest, first) == NOTHING
  {
    hide Read;
    FlushReads(rest);
  }

  // ---------------------------------------------------------------- exactly what is accepted

  /** The separators of words: white space and NUL. */
  ghost predicate Splits(c: byte) {
    c in [9, 10, 12, 13, 32, 0]
  }

  /** An ID of the format: 40 or 64 lower-case hexadecimal digits. */
  ghost predicate PlainId(kind: HashKind, id: bytes) {
    && |id| == (match kind case Sha1 => 40 case Sha256 => 64 case Blake3 => 64)
    && forall i :: 0 <= i < |id| ==> id[i] in [48, 49, 50, 51, 52, 53, 54, 55, 56, 57, 97, 98, 99, 100, 101, 102]
  }

  lemma WireIdIsPlain(kind: HashKind, id: bytes)
    ensures IsWireId(kind, id) <==> PlainId(kind, id)
  {
    forall i | 0 <= i < |id|
      ensures LowerHex(id[i]) <==> id[i] in [48, 49, 50, 51, 52, 53, 54, 55, 56, 57, 97, 98, 99, 100, 101, 102]
    {
    }
  }

  /** `<old> <new> <ref>` with a separator behind each ID and, if anything follows, behind the ref. */
  ghost predicate IsCommand(kind: HashKind, line: bytes, c: RefCommand, a: byte, b: byte, tail: bytes) {
    && PlainId(kind, c.oldId) && PlainId(kind, c.newId) && !c.defaultBranch && c.error == None
    && c.name != [] && Utf8(c.name) && (forall i :: 0 <= i < |c.name| ==> !Splits(c.name[i]))
    && Splits(a) && Splits(b) && (tail != [] ==> Splits(tail[0]))
    && line == c.oldId + [a] + c.newId + [b] + c.name + tail
  }

  /** A line is taken for a command exactly when it is one. */
  lemma CommandIff(kind: HashKind, line: bytes, c: RefCommand)
    ensures ParseCommand(kind, line) == Some(c) <==> exists a, b, tail :: IsCommand(kind, line, c, a, b, tail)
  {
    hide IsCommand;
    if ParseCommand(kind, line) == Some(c) {
      var a, b, tail := CommandParts(kind, line, c);
    }
    forall a, b, tail | IsCommand(kind, line, c, a, b, tail) ensures ParseCommand(kind, line) == Some(c) {
      CommandTakes(kind, line, c, a, b, tail);
    }
  }

  lemma CommandTakes(kind: HashKind, line: bytes, c: RefCommand, a: byte, b: byte, tail: bytes)
    requires IsCommand(kind, line, c, a, b, tail)
    ensures ParseCommand(kind, line) == Some(c)
  {
    hide Word, AfterWord, IsWireId, Utf8, PlainId;
    WireIdIsPlain(kind, c.oldId); WireIdIsPlain(kind, c.newId);
    WireIdReads(kind, c.oldId); WireIdReads(kind, c.newId);
    Separators(a); Separators(b);
    WordReads(c.oldId, a, c.newId + [b] + c.name + tail);
    assert line == c.oldId + [a] + (c.newId + [b] + c.name + tail);
    WordReads(c.newId, b, c.name + tail);
    assert c.newId + [b] + c.name + tail == c.newId + [b] + (c.name + tail);
    forall i | 0 <= i < |c.name| ensures !Separator(c.name[i]) { Separators(c.name[i]); }
    if tail == [] {
      WordReads(c.name, 32, []);
      assert c.name + tail == c.name;
    } else {
      Separators(tail[0]);
      WordReads(c.name, tail[0], tail[1..]);
      assert c.name + tail == c.name + [tail[0]] + tail[1..];
    }
  }

  lemma CommandParts(kind: HashKind, line: bytes, c: RefCommand) returns (a: byte, b: byte, tail: bytes)
    requires ParseCommand(kind, line) == Some(c)
    ensures IsCommand(kind, line, c, a, b, tail)
  {
    hide Word, AfterWord, IsWireId, Utf8, PlainId, Splits;
    var second, third := AfterWord(line), AfterWord(AfterWord(line));
    WireIdIsPlain(kind, c.oldId); WireIdIsPlain(kind, c.newId);
    PlainNonEmpty(kind, c.oldId); PlainNonEmpty(kind, c.newId);
    assert Word(line) == c.oldId && Word(second) == c.newId && Word(third) == c.name;
    EmptyWord(second); EmptyWord(third);
    a := WordThen(line);
    b := WordThen(second);
    tail := WordLast(third);
    assert line == c.oldId + [a] + (c.newId + [b] + (c.name + tail));
  }

  lemma WordThen(s: bytes) returns (sep: byte)
    requires AfterWord(s) != []
    ensures Splits(sep) && s == Word(s) + [sep] + AfterWord(s)
  {
    WordSplits(s);
    hide Word, AfterWord;
    sep := s[|Word(s)|];
    Separators(sep);
  }

  lemma WordLast(s: bytes) returns (tail: bytes)
    ensures s == Word(s) + tail && (tail != [] ==> Splits(tail[0]))
    ensures forall i :: 0 <= i < |Word(s)| ==> !Splits(Word(s)[i])
  {
    WordSplits(s);
    hide Word, AfterWord;
    tail := s[|Word(s)|..];
    if tail != [] { Separators(tail[0]); }
    forall i | 0 <= i < |Word(s)| ensures !Splits(Word(s)[i]) { Separators(Word(s)[i]); }
  }

  lemma EmptyWord(s: bytes)
    ensures s == [] ==> Word(s) == []
  {
  }

  lemma PlainNonEmpty(kind: HashKind, id: bytes)
    requires PlainId(kind, id)
    ensures id != []
  {
  }

  /** `refs/tags/` makes a tag. */
  lemma TagIff(name: bytes)
    ensures IsTag(name) <==> [114, 101, 102, 115, 47, 116, 97, 103, 115, 47] <= name
  {
  }

  /** The name of a format, as it stands on the wire. */
  ghost function FormatName(kind: HashKind): bytes {
    match kind
    case Sha1 => [115, 104, 97, 49]
    case Sha256 => [115, 104, 97, 50, 53, 54]
    case Blake3 => [98, 108, 97, 107, 101, 51]
  }

  /** A word that names an object format other than this one. */
  ghost predicate ForeignFormat(kind: HashKind, w: bytes) {
    var prefix := [111, 98, 106, 101, 99, 116, 45, 102, 111, 114, 109, 97, 116, 61];
    prefix <= w && w != prefix + FormatName(kind)
  }

  /** Capabilities are accepted exactly when none of them names another object format. */
  lemma {:induction false} ScanOkIff(reading: Reading, kind: HashKind, words: seq<bytes>)
    ensures ScanWords(reading, kind, words).ok <==> forall i :: 0 <= i < |words| ==> !ForeignFormat(kind, words[i])
  {
    if words != [] {
      ScanOkIff(reading, kind, words[1..]);
      ForeignWord(kind, words[0]);
      hide ForeignFormat, KindNamed;
      assert words == [words[0]] + words[1..];
      assert (forall i :: 0 <= i < |words| ==> !ForeignFormat(kind, words[i])) <==>
        !ForeignFormat(kind, words[0]) && forall i :: 0 <= i < |words[1..]| ==> !ForeignFormat(kind, words[1..][i]) by {
        AllOrFirst(kind, words);
      }
    }
  }

  lemma AllOrFirst(kind: HashKind, words: seq<bytes>)
    requires words != []
    ensures (forall i :: 0 <= i < |words| ==> !ForeignFormat(kind, words[i])) <==>
      !ForeignFormat(kind, words[0]) && forall i :: 0 <= i < |words[1..]| ==> !ForeignFormat(kind, words[1..][i])
  {
    hide ForeignFormat;
    var tail := words[1..];
    if !ForeignFormat(kind, words[0]) && forall i :: 0 <= i < |tail| ==> !ForeignFormat(kind, tail[i]) {
      forall i | 0 <= i < |words| ensures !ForeignFormat(kind, words[i]) { if i > 0 { assert words[i] == tail[i - 1]; } }
    }
    if forall i :: 0 <= i < |words| ==> !ForeignFormat(kind, words[i]) {
      forall i | 0 <= i < |tail| ensures !ForeignFormat(kind, tail[i]) { assert tail[i] == words[i + 1]; }
    }
  }

  lemma ForeignWord(kind: HashKind, w: bytes)
    ensures ForeignFormat(kind, w) <==> OBJECT_FORMAT <= w && KindNamed(w[|OBJECT_FORMAT|..]) != Some(kind)
  {
    if OBJECT_FORMAT <= w {
      var fmt := w[|OBJECT_FORMAT|..];
      assert w == OBJECT_FORMAT + fmt;
      FormatNames(kind, fmt);
      assert w == OBJECT_FORMAT + FormatName(kind) <==> fmt == FormatName(kind);
    }
  }

  lemma FormatNames(kind: HashKind, fmt: bytes)
    ensures KindNamed(fmt) == Some(kind) <==> fmt == FormatName(kind)
  {
  }

  /** Accepted capabilities are recorded: the format under its name, every other word that is known. */
  lemma {:induction false} ScanRecords(reading: Reading, kind: HashKind, words: seq<bytes>, c: Capability)
    requires ScanWords(reading, kind, words).ok
    ensures c in ScanWords(reading, kind, words).capabilities <==> exists i :: 0 <= i < |words| && Records(reading, kind, words[i], c)
  {
    hide KindNamed;
    if words != [] {
      ScanRecords(reading, kind, words[1..], c);
      var tail := words[1..];
      RecordsWord(reading, kind, words[0], c);
      hide Records;
      if exists i :: 0 <= i < |tail| && Records(reading, kind, tail[i], c) {
        var i :| 0 <= i < |tail| && Records(reading, kind, tail[i], c);
        assert Records(reading, kind, words[i + 1], c);
      }
      if exists i :: 0 <= i < |words| && Records(reading, kind, words[i], c) {
        var i :| 0 <= i < |words| && Records(reading, kind, words[i], c);
        if i > 0 { assert Records(reading, kind, tail[i - 1], c); }
      }
    }
  }

  ghost predicate Records(reading: Reading, kind: HashKind, w: bytes, c: Capability) {
    var prefix := [111, 98, 106, 101, 99, 116, 45, 102, 111, 114, 109, 97, 116, 61];
    if prefix <= w then c == ObjectFormat(w[14..]) else reading.known(w) == Some(c)
  }

  lemma RecordsWord(reading: Reading, kind: HashKind, w: bytes, c: Capability)
    ensures Records(reading, kind, w, c) <==> if OBJECT_FORMAT <= w then c == ObjectFormat(w[|OBJECT_FORMAT|..]) else reading.known(w) == Some(c)
  {
  }

  /**
   What one line of a push does: a command is added in front of what follows, with the capabilities
   the first line carries behind its first NUL; a line that is no command, or names another format
   there, makes the whole request fail.
   */
  lemma PushLines(reading: Reading, kind: HashKind, line: bytes, rest: bytes, first: bool, scan: Scan)
    requires 0 < |line| <= 65531
    requires if !first || 0 !in line then scan == Scan([], true)
      else exists k: nat :: NulFirstAt(line, k) && scan == ScanWords(reading, kind, reading.words(line[k + 1..]))
    ensures scan.ok ==>
      forall c, a, b, tail :: IsCommand(kind, line, c, a, b, tail) ==>
        var more := ParseFrom(reading, kind, rest, false);
        ParseFrom(reading, kind, Frame(line) + rest, first) ==
          Parse([c] + more.commands, scan.capabilities + more.capabilities, more.ending)
    ensures !scan.ok || (forall c, a, b, tail :: !IsCommand(kind, line, c, a, b, tail)) ==>
      ParseFrom(reading, kind, Frame(line) + rest, first) == Parse([], scan.capabilities, Failed)
  {
    hide Read, Frame, ScanWords, ParseCommand, IsCommand, ParseFrom;
    FrameReads(line, rest);
    ScansLine(reading, kind, line, first, scan);
    ParseOne(reading, kind, Frame(line) + rest, first);
    forall c, a, b, tail | IsCommand(kind, line, c, a, b, tail) ensures ParseCommand(kind, line) == Some(c) {
      CommandIff(kind, line, c);
    }
    if ParseCommand(kind, line).Some? { CommandIff(kind, line, ParseCommand(kind, line).value); }
  }

  lemma ParseOne(reading: Reading, kind: HashKind, s: bytes, first: bool)
    requires Read(s).Line? && Read(s).payload != []
    ensures var line := Read(s).payload;
      ParseFrom(reading, kind, s, first) == TakenLine(reading, kind, line, first, [], [], Read(s).rest)
  {
    hide Read, ScanLine, ParseCommand;
  }

  lemma ScansLine(reading: Reading, kind: HashKind, line: bytes, first: bool, scan: Scan)
    requires if !first || 0 !in line then scan == Scan([], true)
      else exists k: nat :: NulFirstAt(line, k) && scan == ScanWords(reading, kind, reading.words(line[k + 1..]))
    ensures ScanLine(reading, kind, line, first) == scan
  {
    hide ScanWords, NulAt;
    if first && 0 in line {
      var k: nat :| NulFirstAt(line, k) && scan == ScanWords(reading, kind, reading.words(line[k + 1..]));
      NulIsFirst(line, k);
    } else {
      assert NulAt(line) < |line| ==> line[NulAt(line)] in line;
    }
  }

  ghost predicate NulFirstAt(line: bytes, k: nat) {
    k < |line| && line[k] == 0 && forall i :: 0 <= i < k ==> line[i] != 0
  }

  lemma NulIsFirst(line: bytes, k: nat)
    requires NulFirstAt(line, k)
    ensures NulAt(line) == k
  {
    hide NulAt;
  }

  /** A push is only accepted up to a flush: the four digits in front of its pack say 0, or 4 and nothing. */
  lemma {:induction false} FlushBeforePack(reading: Reading, kind: HashKind, s: bytes, first: bool)
    requires ParseFrom(reading, kind, s, first).ending.Stopped? && ParseFrom(reading, kind, s, first).ending.flushed
    ensures var rest := ParseFrom(reading, kind, s, first).ending.rest;
      var n := |s| - |rest|;
      && 4 <= n <= |s| && rest == s[n..]
      && (FromHex(s[n - 4..n]) == Some(0) || FromHex(s[n - 4..n]) == Some(4))
    decreases |s|
  {
    hide FromHex, ScanLine, ParseCommand, Read;
    ReadAdvances(s);
    var payload, rest := Read(s).payload, Read(s).rest;
    if payload == [] {
      EmptyLine(s);
    } else {
      FlushBeforePack(reading, kind, rest, false);
      FlushMoved(s, rest, ParseFrom(reading, kind, rest, false).ending.rest);
    }
  }

  /** Four digits in front of the end of a suffix stand in front of the same end of the whole. */
  lemma FlushMoved(s: bytes, rest: bytes, pack: bytes)
    requires |rest| <= |s| && rest == s[|s| - |rest|..]
    requires |rest| - |pack| >= 4 && pack == rest[|rest| - |pack|..]
    ensures var k, m := |s| - |pack|, |rest| - |pack|; pack == s[k..] && s[k - 4..k] == rest[m - 4..m]
  {
  }

  lemma EmptyLine(s: bytes)
    requires Read(s).Line? && Read(s).payload == []
    ensures |s| >= 4 && Read(s).rest == s[4..] && s[..4] == s[0..4] && (FromHex(s[0..4]) == Some(0) || FromHex(s[0..4]) == Some(4))
  {
    hide FromHex;
    assert s[..4] == s[0..4];
  }

  /** A line of a fetch that starts with none of `want`, `have` and `done` has no effect. */
  lemma UnknownIgnored(reading: Reading, kind: HashKind, line: bytes, rest: bytes, first: bool)
    requires 0 < |line| <= 65531
    requires Text(Word(line)) != [119, 97, 110, 116] && Text(Word(line)) != [104, 97, 118, 101] && Text(Word(line)) != [100, 111, 110, 101]
    ensures ParseUpload(reading, kind, Frame(line) + rest, first) == ParseUpload(reading, kind, rest, first)
  {
    hide ParseUpload, Word, AfterWord, Utf8, Frame, ScanWords;
    UploadTaken(reading, kind, line, rest, first);
  }

  /**
   What the other lines do, wherever they stand: `done` ends the request, a `have` adds its ID in
   front of what follows, and so does a `want`, the first of them with the capabilities behind its ID.
   */
  lemma KnownLines(reading: Reading, kind: HashKind, line: bytes, rest: bytes, first: bool)
    requires 0 < |line| <= 65531
    ensures var word, tail := Text(Word(line)), AfterWord(line);
      var id, all := Text(Word(tail)), ParseUpload(reading, kind, Frame(line) + rest, first);
      && (word == [100, 111, 110, 101] ==> all == Request([], [], [], true))
      && (word == [104, 97, 118, 101] && PlainId(kind, id) ==>
            var more := ParseUpload(reading, kind, rest, first); all == more.(haves := [id] + more.haves))
      && (word == [119, 97, 110, 116] && PlainId(kind, id) ==>
            var scan := if first then ScanWords(reading, kind, reading.words(AfterWord(tail))) else Scan([], true);
            var more := ParseUpload(reading, kind, rest, false);
            scan.ok ==> all == more.(wants := [id] + more.wants, capabilities := scan.capabilities + more.capabilities))
  {
    hide ParseUpload, Word, AfterWord, Utf8, Frame, ScanWords, IsWireId, PlainId;
    WireIdIsPlain(kind, Text(Word(AfterWord(line))));
    UploadTaken(reading, kind, line, rest, first);
  }

  /** A `have` or a `want` with anything but an ID of the format is refused. */
  lemma BadIdRefused(reading: Reading, kind: HashKind, want: bool, id: bytes, rest: bytes, first: bool)
    requires (forall i :: 0 <= i < |id| ==> !Splits(id[i])) && !PlainId(kind, id) && |id| <= 65000
    ensures !ParseUpload(reading, kind, Frame((if want then [119, 97, 110, 116] else [104, 97, 118, 101]) + [32] + id + [10]) + rest, first).ok
  {
    hide ParseUpload, Word, AfterWord, Utf8, Frame, ScanWords, IsWireId, PlainId;
    var command := if want then WANT else HAVE;
    var line := command + [32] + id + [10];
    forall i | 0 <= i < |id| ensures !Separator(id[i]) { Separators(id[i]); }
    assert line == command + [32] + (id + [10]);
    CommandWord(command, id + [10]);
    WordReads(id, 10, []);
    assert id + [10] + [] == id + [10];
    WireIdIsPlain(kind, id);
    WireIdIsPlain(kind, []);
    NothingIsNoId(kind);
    UploadTaken(reading, kind, line, rest, first);
  }

  lemma NothingIsNoId(kind: HashKind)
    ensures !PlainId(kind, [])
  {
  }
}
