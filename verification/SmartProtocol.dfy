/**
 Both services of src/protocol/smart.rs. The repository is foreign code: every call to it
 is an await, and when it returns the repository may report another object format.
 */
module SmartProtocol {
  import opened Basics
  import opened Encoding
  import opened PktLine
  import opened HashKinds
  import opened SmartRequests

  /** What an operation relies on: the repository's format, the one bound at construction, the wire's and the zero ID. */
  datatype Binding = Binding(repository: HashKind, wire: HashKind, local: HashKind, zero: bytes)

  predicate Consistent(b: Binding) {
    b.repository == b.local && b.wire == b.local && b.zero == ZeroStr(b.wire)
  }

  // ---------------------------------------------------------------- the repository

  /** What the repository is asked for. Receiving a request is waiting, too. */
  datatype Ask =
    | NextChunk | EndOfStream
    | Lookup(id: bytes) | FullPack(wants: seq<bytes>) | IncrementalPack(wants: seq<bytes>, haves: seq<bytes>)
    | Unpack(pack: bytes) | Store(pack: bytes) | DefaultBranch
    | Update(name: bytes, oldId: Option<bytes>, newId: bytes) | PostReceive

  datatype Reply = Fine | Failure(text: bytes) | Known(answer: bool)

  /** One await: what was asked, the answer, and the format the repository reported before and after. */
  datatype Event = Event(ask: Ask, before: HashKind, reply: Reply, after: HashKind)

  /** Foreign code: the answer to every call, and the format reported once it returns, may be anything. */
  class Repository {
    var kind: HashKind
    ghost var log: seq<Event>

    /** Waits for the next piece of a request, or for its end. */
    method Receive(ghost ask: Ask)
      requires ask.NextChunk? || ask.EndOfStream?
      modifies this
      ensures log == old(log) + [Event(ask, old(kind), Fine, kind)]
    {
      ghost var before := kind;
      kind := *;
      log := log + [Event(ask, before, Fine, kind)];
    }

    method CommitExists(id: bytes) returns (r: Option<bool>)
      modifies this
      ensures log == old(log) + [Event(Lookup(id), old(kind), ReplyOf(r), kind)]
    {
      ghost var before := kind;
      kind, r := *, *;
      log := log + [Event(Lookup(id), before, ReplyOf(r), kind)];
    }

    method HasDefaultBranch() returns (r: Option<bool>)
      modifies this
      ensures log == old(log) + [Event(DefaultBranch, old(kind), ReplyOf(r), kind)]
    {
      ghost var before := kind;
      kind, r := *, *;
      log := log + [Event(DefaultBranch, before, ReplyOf(r), kind)];
    }

    method UpdateReference(name: bytes, oldId: Option<bytes>, newId: bytes) returns (failure: Option<bytes>)
      modifies this
      ensures log == old(log) + [Event(Update(name, oldId, newId), old(kind), Outcome(failure), kind)]
    {
      ghost var before := kind;
      kind, failure := *, *;
      log := log + [Event(Update(name, oldId, newId), before, Outcome(failure), kind)];
    }

    method GenerateFullPack(wants: seq<bytes>) returns (failure: Option<bytes>)
      modifies this
      ensures log == old(log) + [Event(FullPack(wants), old(kind), Outcome(failure), kind)]
    {
      ghost var before := kind;
      kind, failure := *, *;
      log := log + [Event(FullPack(wants), before, Outcome(failure), kind)];
    }

    method GenerateIncrementalPack(wants: seq<bytes>, haves: seq<bytes>) returns (failure: Option<bytes>)
      modifies this
      ensures log == old(log) + [Event(IncrementalPack(wants, haves), old(kind), Outcome(failure), kind)]
    {
      ghost var before := kind;
      kind, failure := *, *;
      log := log + [Event(IncrementalPack(wants, haves), before, Outcome(failure), kind)];
    }

    method UnpackStream(pack: bytes) returns (failure: Option<bytes>)
      modifies this
      ensures log == old(log) + [Event(Unpack(pack), old(kind), Outcome(failure), kind)]
    {
      ghost var before := kind;
      kind, failure := *, *;
      log := log + [Event(Unpack(pack), before, Outcome(failure), kind)];
    }

    method HandlePackObjects(pack: bytes) returns (failure: Option<bytes>)
      modifies this
      ensures log == old(log) + [Event(Store(pack), old(kind), Outcome(failure), kind)]
    {
      ghost var before := kind;
      kind, failure := *, *;
      log := log + [Event(Store(pack), before, Outcome(failure), kind)];
    }

    method PostReceiveHook() returns (failure: Option<bytes>)
      modifies this
      ensures log == old(log) + [Event(PostReceive, old(kind), Outcome(failure), kind)]
    {
      ghost var before := kind;
      kind, failure := *, *;
      log := log + [Event(PostReceive, before, Outcome(failure), kind)];
    }
  }

  function ReplyOf(r: Option<bool>): Reply {
    match r
    case None => Failure([])
    case Some(answer) => Known(answer)
  }

  function Outcome(failure: Option<bytes>): Reply {
    match failure
    case None => Fine
    case Some(text) => Failure(text)
  }

  // ---------------------------------------------------------------- runs

  /** What the server brings to a binding: its wire and local format and its zero ID. */
  datatype Terms = ServerTerms(wire: HashKind, local: HashKind, zero: bytes)

  /** The binding holds while the repository reports this format. */
  predicate Held(b: Terms, kind: HashKind) {
    Consistent(Binding(kind, b.wire, b.local, b.zero))
  }

  /** Calls that change the repository or hand out its objects. */
  predicate Guarded(ask: Ask) {
    ask.Store? || ask.Update? || ask.PostReceive? || ask.FullPack? || ask.IncrementalPack?
  }

  /** Every such call began while repository, wire and local format agreed and the zero ID was theirs. */
  ghost predicate AllGuarded(events: seq<Event>, b: Terms) {
    forall i :: 0 <= i < |events| && Guarded(events[i].ask) ==> Held(b, events[i].before)
  }

  /** The asks are those of the plan, in order and without gaps. */
  ghost predicate Follows(events: seq<Event>, plan: seq<Ask>) {
    |events| <= |plan| && forall i :: 0 <= i < |events| ==> events[i].ask == plan[i]
  }

  /** After this event a push goes on: the answer allows it, and so does the check behind it where there is one. */
  predicate GoesOn(e: Event, b: Terms) {
    match e.ask
    case NextChunk => true
    case EndOfStream => Held(b, e.after)
    case Store(_) => e.reply.Fine?
    case Update(_, _, _) => Held(b, e.after)
    case DefaultBranch => e.reply.Known? && Held(b, e.after)
    case Lookup(_) => e.reply.Known?
    case _ => e.reply.Fine? && Held(b, e.after)
  }

  ghost predicate AllGoOn(events: seq<Event>, b: Terms) {
    forall i :: 0 <= i < |events| ==> GoesOn(events[i], b)
  }

  lemma GuardedAppend(x: seq<Event>, y: seq<Event>, b: Terms)
    requires AllGuarded(x, b) && AllGuarded(y, b)
    ensures AllGuarded(x + y, b)
  {
    hide Held;
  }

  lemma GoOnAppend(x: seq<Event>, y: seq<Event>, b: Terms)
    ensures AllGoOn(x + y, b) <==> AllGoOn(x, b) && AllGoOn(y, b)
  {
    hide GoesOn;
    var z := x + y;
    if AllGoOn(z, b) {
      forall i | 0 <= i < |x| ensures GoesOn(x[i], b) { assert GoesOn(z[i], b); }
      forall i | 0 <= i < |y| ensures GoesOn(y[i], b) { assert GoesOn(z[|x| + i], b); }
    }
  }

  lemma FollowsAppend(x: seq<Event>, y: seq<Event>, p: seq<Ask>, q: seq<Ask>)
    requires Follows(x, p) && Follows(y, q) && (y != [] ==> |x| == |p|)
    ensures Follows(x + y, p + q)
  {
  }

  // ---------------------------------------------------------------- a fetch

  /** `ACK <id> common` and `ACK <id> ready`, with the newline; `NAK` when nothing is shared. */
  function AckCommon(id: bytes): bytes {
    [65, 67, 75, 32] + id + [32, 99, 111, 109, 109, 111, 110, 10]
  }

  function AckReady(id: bytes): bytes {
    [65, 67, 75, 32] + id + [32, 114, 101, 97, 100, 121, 10]
  }

  const NAK: bytes := [78, 65, 75, 10]

  /** What the repository answered to the first `n` questions of a run. */
  ghost function Found(events: seq<Event>, n: nat): (found: seq<bool>)
    requires AllKnown(events, n)
    ensures |found| == n
  {
    seq(n, i requires 0 <= i < n => events[i].reply.answer)
  }

  /** The IDs the repository said it has, in the order of the request. */
  ghost function Common(haves: seq<bytes>, found: seq<bool>): seq<bytes>
    requires |found| == |haves|
  {
    if haves == [] then []
    else Common(haves[..|haves| - 1], found[..|haves| - 1]) + if found[|haves| - 1] then [haves[|haves| - 1]] else []
  }

  lemma CommonSnoc(haves: seq<bytes>, found: seq<bool>, i: nat, answer: bool)
    requires i < |haves| && |found| == i
    ensures Common(haves[..i + 1], found + [answer]) == Common(haves[..i], found) + if answer then [haves[i]] else []
  {
    assert haves[..i + 1][..i] == haves[..i] && (found + [answer])[..i] == found;
  }

  ghost function Acks(common: seq<bytes>): seq<bytes> {
    seq(|common|, i requires 0 <= i < |common| => AckCommon(common[i]))
  }

  /** The first `i` haves have been looked up, and those that are known acknowledged. */
  ghost predicate Acknowledged(haves: seq<bytes>, events: seq<Event>, i: nat, reply: bytes, last: bytes) {
    && |events| == i <= |haves| && NonEmptyIds(haves) && Asked(events, haves, i) && AllKnown(events, i)
    && var common := Common(haves[..i], Found(events, i));
       && reply == Frames(Acks(common)) && last == (if common == [] then [] else common[0])
       && forall j :: 0 <= j < |common| ==> common[j] != []
  }

  lemma AcknowledgedStart(haves: seq<bytes>)
    requires NonEmptyIds(haves)
    ensures Acknowledged(haves, [], 0, [], [])
  {
    FramesNone();
    AcksNone();
    assert haves[..0] == [] && Found([], 0) == [];
  }

  lemma AcknowledgedStep(haves: seq<bytes>, events: seq<Event>, i: nat, reply: bytes, last: bytes, e: Event)
    requires Acknowledged(haves, events, i, reply, last) && i < |haves| && e.ask == Lookup(haves[i])
    ensures Asked(events + [e], haves, i + 1)
    ensures !e.reply.Known? ==> !AllKnown(events + [e], |haves|)
    ensures e.reply.Known? && !e.reply.answer ==> Acknowledged(haves, events + [e], i + 1, reply, last)
    ensures e.reply.Known? && e.reply.answer ==>
      Acknowledged(haves, events + [e], i + 1, reply + Frame(AckCommon(haves[i])), if last == [] then haves[i] else last)
  {
    hide Frame, Frames, AckCommon, Common;
    assert (events + [e])[i] == e;
    if e.reply.Known? {
      var found := Found(events, i);
      var common := Common(haves[..i], found);
      CommonSnoc(haves, found, i, e.reply.answer);
      assert Found(events + [e], i + 1) == found + [e.reply.answer];
      FramesSnoc(Acks(common), AckCommon(haves[i]));
      assert Acks(common + [haves[i]]) == Acks(common) + [AckCommon(haves[i])];
      assert common + [] == common;
    }
  }

  lemma AcknowledgedAll(haves: seq<bytes>, events: seq<Event>, reply: bytes, last: bytes)
    requires Acknowledged(haves, events, |haves|, reply, last)
    ensures |events| == |haves| && Asked(events, haves, |haves|) && AllKnown(events, |haves|)
    ensures var common := Common(haves, Found(events, |haves|));
      && reply == Frames(Acks(common)) && (last == [] <==> common == []) && (last != [] ==> last == common[0])
  {
    assert haves[..|haves|] == haves;
  }

  /** The pack the negotiation calls for, and the lines in front of it. */
  ghost function PackFor(req: Request, found: seq<bool>): Ask
    requires |found| == |req.haves|
  {
    if Common(req.haves, found) == [] then FullPack(req.wants) else IncrementalPack(req.wants, req.haves)
  }

  ghost function ReplyFor(req: Request, found: seq<bool>): bytes
    requires |found| == |req.haves|
  {
    var common := Common(req.haves, found);
    if common == [] then Frame(NAK) else Frames(Acks(common) + [AckReady(common[0])])
  }

  /** The first `n` events are questions about the first `n` haves. */
  ghost predicate Asked(events: seq<Event>, haves: seq<bytes>, n: nat) {
    n <= |events| && n <= |haves| && forall i :: 0 <= i < n ==> events[i].ask == Lookup(haves[i])
  }

  ghost predicate AllKnown(events: seq<Event>, n: nat) {
    n <= |events| && forall i :: 0 <= i < n ==> events[i].reply.Known?
  }

  /** A fetch asks about every have, in order, and then for the pack its answers call for. */
  ghost predicate Negotiates(events: seq<Event>, req: Request) {
    var n := |req.haves|;
    && Asked(events, req.haves, Min(|events|, n)) && |events| <= n + 1
    && (|events| > n ==> AllKnown(events, n) && events[n].ask == PackFor(req, Found(events, n)))
  }

  /** Every question was answered, the binding held behind the last one, and the pack was produced under it. */
  ghost predicate FetchGoesOn(events: seq<Event>, n: nat, b: Terms) {
    && (forall i :: 0 <= i < |events| && i < n ==> events[i].reply.Known?)
    && (0 < n <= |events| ==> Held(b, events[n - 1].after))
    && (|events| > n ==> GoesOn(events[n], b))
  }

  // ---------------------------------------------------------------- a push

  datatype Chunk = Data(data: bytes) | Broken

  function Joined(stream: seq<Chunk>): Option<bytes> {
    if stream == [] then Some([])
    else match Joined(stream[..|stream| - 1])
      case None => None
      case Some(front) =>
        if stream[|stream| - 1].Broken? then None else Some(front + stream[|stream| - 1].data)
  }

  lemma {:induction false} BrokenLost(stream: seq<Chunk>, i: nat)
    requires i < |stream| && stream[i].Broken?
    ensures Joined(stream).None?
  {
    if i < |stream| - 1 { BrokenLost(stream[..|stream| - 1], i); }
  }

  ghost function Pieces(stream: seq<Chunk>): seq<bytes> {
    seq(|stream|, i requires 0 <= i < |stream| => if stream[i].Data? then stream[i].data else [])
  }

  /** A request arrives when no chunk is broken, and then it is the chunks one after the other. */
  lemma {:induction false} JoinedIsAll(stream: seq<Chunk>)
    ensures Joined(stream).Some? <==> forall i :: 0 <= i < |stream| ==> stream[i].Data?
    ensures Joined(stream).Some? ==> Joined(stream).value == Concat(Pieces(stream))
  {
    hide Concat;
    var n := |stream| - 1;
    if n < 0 {
      ConcatNone();
    } else {
      JoinedIsAll(stream[..n]);
      if stream[n].Data? {
        assert Pieces(stream) == Pieces(stream[..n]) + [stream[n].data];
        ConcatAppend(Pieces(stream[..n]), [stream[n].data]);
        ConcatOne(stream[n].data);
      }
    }
  }

  lemma ConcatOne(piece: bytes)
    ensures Concat([piece]) == piece
  {
  }

  /** `unpack ok` with its newline. */
  const UNPACK_OK: bytes := [117, 110, 112, 97, 99, 107, 32, 111, 107, 10]

  /** `ok <ref>` or `ng <ref> <error>`. */
  function Status(c: RefCommand): bytes {
    match c.error
    case None => [111, 107, 32] + c.name
    case Some(error) => [110, 103, 32] + c.name + [32] + error
  }

  function Statuses(commands: seq<RefCommand>): seq<bytes> {
    seq(|commands|, i requires 0 <= i < |commands| => Status(commands[i]))
  }

  ghost predicate FirstBranch(commands: seq<RefCommand>, i: nat)
    requires i < |commands|
  {
    !IsTag(commands[i].name) && forall j :: 0 <= j < i ==> IsTag(commands[j].name)
  }

  /** The command once the repository has answered; the first branch of an empty repository becomes its default. */
  ghost predicate Answered(parsed: seq<RefCommand>, i: nat, had: bool, e: Event, c: RefCommand)
    requires i < |parsed|
  {
    c == parsed[i].(defaultBranch := !had && FirstBranch(parsed, i), error := ErrorOf(e.reply))
  }

  function ErrorOf(reply: Reply): Option<bytes> {
    if reply.Failure? then Some(reply.text) else None
  }

  // The stages of a push once its commands are known.

  function StoreAsks(pack: bytes): seq<Ask> {
    if pack == [] then [] else [Unpack(pack), Store(pack)]
  }

  /** A zero old ID means that the ref is new. */
  function UpdateAsk(c: RefCommand, zero: bytes): Ask {
    Update(c.name, if c.oldId == zero then None else Some(c.oldId), c.newId)
  }

  function UpdateAsks(commands: seq<RefCommand>, zero: bytes): (asks: seq<Ask>)
    ensures |asks| == |commands|
    ensures forall i :: 0 <= i < |asks| ==> asks[i] == UpdateAsk(commands[i], zero)
  {
    seq(|commands|, i requires 0 <= i < |commands| => UpdateAsk(commands[i], zero))
  }

  function Deeds(commands: seq<RefCommand>, pack: bytes, zero: bytes): seq<Ask> {
    StoreAsks(pack) + [DefaultBranch] + UpdateAsks(commands, zero) + [PostReceive]
  }

  function Waits(n: nat): (asks: seq<Ask>)
    ensures |asks| == n + 1 && forall i :: 0 <= i <= n ==> asks[i] == if i < n then NextChunk else EndOfStream
  {
    seq(n + 1, i requires 0 <= i <= n => if i < n then NextChunk else EndOfStream)
  }

  /** `i` commands have been handed over and reported. */
  ghost predicate Reported(parsed: seq<RefCommand>, had: bool, zero: bytes, commands: seq<RefCommand>, events: seq<Event>,
                           report: bytes, i: nat) {
    && |commands| == |parsed| && |events| == i <= |parsed|
    && (forall j :: 0 <= j < i ==> events[j].ask == UpdateAsk(parsed[j], zero) && Answered(parsed, j, had, events[j], commands[j]))
    && (forall j :: i <= j < |parsed| ==> commands[j] == parsed[j])
    && report == Frames([UNPACK_OK] + Statuses(commands[..i]))
  }

  /** Every event but the last lets a push go on; the repository is as the last one, or the start, has left it. */
  ghost predicate Pending(events: seq<Event>, b: Terms, start: HashKind, now: HashKind) {
    && (events == [] ==> start == now)
    && (events != [] ==> Held(b, start) && events[|events| - 1].after == now && AllGoOn(events[..|events| - 1], b))
  }

  /** A default branch was there before or has been chosen among the first `i` commands. */
  ghost predicate DefaultKnown(parsed: seq<RefCommand>, had: bool, defaultExists: bool, i: nat)
    requires i <= |parsed|
  {
    defaultExists <==> had || exists j :: 0 <= j < i && !IsTag(parsed[j].name)
  }

  lemma ReportedStart(parsed: seq<RefCommand>, had: bool, zero: bytes)
    ensures Reported(parsed, had, zero, parsed, [], Frame(UNPACK_OK), 0) && DefaultKnown(parsed, had, had, 0)
  {
    hide Frame;
    assert [UNPACK_OK] + Statuses(parsed[..0]) == [UNPACK_OK];
    FramesOne(UNPACK_OK);
  }

  /** A command before and after the repository was asked. */
  ghost predicate Handled(c: RefCommand, c': RefCommand, defaultExists: bool, defaultExists': bool, e: Event, zero: bytes) {
    && e.ask == UpdateAsk(c, zero)
    && c' == c.(defaultBranch := !IsTag(c.name) && !defaultExists, error := ErrorOf(e.reply))
    && defaultExists' == (defaultExists || !IsTag(c.name))
  }

  lemma ReportedStep(parsed: seq<RefCommand>, had: bool, zero: bytes, commands: seq<RefCommand>, events: seq<Event>,
                     report: bytes, defaultExists: bool, i: nat, c': RefCommand, defaultExists': bool, e: Event)
    requires Reported(parsed, had, zero, commands, events, report, i) && i < |parsed| && DefaultKnown(parsed, had, defaultExists, i)
    requires Handled(parsed[i], c', defaultExists, defaultExists', e, zero)
    ensures Reported(parsed, had, zero, commands[i := c'], events + [e], report + Frame(Status(c')), i + 1)
    ensures DefaultKnown(parsed, had, defaultExists', i + 1)
  {
    hide Frame, Frames, UpdateAsk;
    var commands' := commands[i := c'];
    assert [UNPACK_OK] + Statuses(commands'[..i + 1]) == ([UNPACK_OK] + Statuses(commands[..i])) + [Status(c')];
    FramesSnoc([UNPACK_OK] + Statuses(commands[..i]), Status(c'));
    assert Answered(parsed, i, had, e, c');
  }

  /** One more update, begun while the binding held. */
  lemma PendingStep(events: seq<Event>, b: Terms, start: HashKind, e: Event)
    requires Pending(events, b, start, e.before) && Held(b, e.before) && e.ask.Update?
    requires AllGuarded(events, b) && forall i :: 0 <= i < |events| ==> events[i].ask.Update?
    ensures Pending(events + [e], b, start, e.after) && AllGuarded(events + [e], b)
  {
    hide Held;
    var n := |events|;
    assert (events + [e])[..n] == events;
    if n > 0 {
      assert events == events[..n - 1] + [events[n - 1]];
      GoOnAppend(events[..n - 1], [events[n - 1]], b);
      assert GoesOn(events[n - 1], b);
    }
  }

  class Server {
    const repo: Repository
    const reading: Reading
    var capabilities: seq<Capability>
    var commands: seq<RefCommand>
    var wire: HashKind
    var local: HashKind
    var zero: bytes

    ghost function Now(): Binding
      reads this, repo
    {
      Binding(repo.kind, wire, local, zero)
    }

    ghost function MyTerms(): Terms
      reads this
    {
      ServerTerms(wire, local, zero)
    }

    constructor (repo: Repository, reading: Reading)
      ensures this.repo == repo && this.reading == reading && Consistent(Now()) && commands == [] && capabilities == []
    {
      this.repo, this.reading := repo, reading;
      capabilities, commands := [], [];
      wire, local, zero := repo.kind, repo.kind, ZeroStr(repo.kind);
    }

    method EnsureHashKindConsistency() returns (ok: bool)
      ensures ok == Consistent(Now())
    {
      var repository := repo.kind;
      if repository != local || wire != local { return false; }
      if zero != ZeroStr(wire) { return false; }
      return true;
    }

    method SetWireHashKind(kind: HashKind)
      modifies this`wire, this`zero
      ensures wire == kind && zero == ZeroStr(kind)
    {
      wire, zero := kind, ZeroStr(kind);
    }

    /** Records capabilities; an object format can confirm the binding but never change it. */
    method ParseCapabilities(text: bytes) returns (ok: bool)
      modifies this`capabilities, this`wire, this`zero
      ensures wire == old(wire) && zero == old(zero)
      ensures !Consistent(Now()) ==> !ok && capabilities == old(capabilities)
      ensures Consistent(Now()) ==>
        var scan := ScanWords(reading, wire, reading.words(text));
        capabilities == old(capabilities) + scan.capabilities && ok == scan.ok
    {
      hide ScanWords, KindNamed, ZeroStr;
      var consistent := EnsureHashKindConsistency();
      if !consistent { return false; }
      var words := reading.words(text);
      assert words[0..] == words;
      for i := 0 to |words|
        invariant wire == old(wire) && zero == old(zero) && Consistent(Now())
        invariant var all, rest := ScanWords(reading, wire, words), ScanWords(reading, wire, words[i..]);
          old(capabilities) + all.capabilities == capabilities + rest.capabilities && all.ok == rest.ok
      {
        var w := words[i];
        ScanNext(reading, wire, words, i);
        if OBJECT_FORMAT <= w {
          var fmt := w[|OBJECT_FORMAT|..];
          var kind := KindNamed(fmt);
          if kind.None? { return false; }
          if kind.value != local || kind.value != repo.kind { return false; }
          SetWireHashKind(kind.value);
          capabilities := capabilities + [ObjectFormat(fmt)];
        } else {
          var known := reading.known(w);
          if known.Some? { capabilities := capabilities + [known.value]; }
        }
      }
      ScanNothing(reading, wire, words);
      return true;
    }

    method ParseRefCommand(line: bytes) returns (r: Option<RefCommand>)
      ensures r == ParseCommand(wire, line)
    {
      var cursor := new Cursor(line);
      var oldId := cursor.ReadUntilWhiteSpace();
      var newId := cursor.ReadUntilWhiteSpace();
      var name := cursor.ReadUntilWhiteSpace();
      if !IsWireId(wire, oldId) { return None; }
      if !IsWireId(wire, newId) { return None; }
      if name == [] { return None; }
      return Some(RefCommand(oldId, newId, name, false, None));
    }

    /** One line of the request: capabilities if it is the first, then the command. */
    method TakeLine(line: bytes, first: bool) returns (ok: bool)
      requires Consistent(Now())
      modifies this`capabilities, this`wire, this`zero, this`commands
      ensures wire == old(wire) && zero == old(zero)
      ensures var scan, command := ScanLine(reading, wire, line, first), ParseCommand(wire, line);
        && capabilities == old(capabilities) + scan.capabilities
        && ok == (scan.ok && command.Some?)
        && commands == old(commands) + (if ok then [command.value] else [])
    {
      hide ScanWords, ParseCommand;
      var nul := NulAt(line);
      if first && nul < |line| {
        var read := ParseCapabilities(line[nul + 1..]);
        if !read { return false; }
      }
      var command := ParseRefCommand(line);
      if command.None? { return false; }
      commands := commands + [command.value];
      return true;
    }

    /** The commands of a request held in memory. It ends at the first line that is empty or malformed. */
    method ParseReceivePackCommands(request: bytes) returns (ok: bool)
      modifies this`capabilities, this`wire, this`zero, this`commands
      ensures wire == old(wire) && zero == old(zero)
      ensures !Consistent(Now()) ==> !ok && commands == [] && capabilities == []
      ensures Consistent(Now()) ==>
        var p := ParseFrom(reading, wire, request, true);
        commands == p.commands && capabilities == p.capabilities && ok == p.ending.Stopped?
    {
      hide ScanLine, ParseCommand, Read, ParseFrom, Before, ZeroStr;
      ParseStart(reading, wire, request);
      commands, capabilities := [], [];
      ok := EnsureHashKindConsistency();
      if !ok { return; }
      var cursor := new Cursor(request);
      var first := true;
      while true
        invariant wire == old(wire) && zero == old(zero) && Consistent(Now())
        invariant ParseFrom(reading, wire, request, true) ==
          Before(commands, capabilities, ParseFrom(reading, wire, cursor.data, first))
        decreases |cursor.data|
      {
        ParseNext(reading, wire, cursor.data, first, commands, capabilities);
        var taken, line := cursor.ReadPktLine();
        if taken == 0 { return true; }
        if line == [] { return true; }
        ok := TakeLine(line, first);
        if !ok { return; }
        first := false;
      }
    }

    method TakeUploadLine(line: bytes, first: bool) returns (r: UploadLine)
      requires Consistent(Now())
      modifies this`capabilities, this`wire, this`zero
      ensures wire == old(wire) && zero == old(zero)
      ensures r == ReadUploadLine(reading, wire, line, first) && capabilities == old(capabilities) + CapabilitiesOf(r)
      ensures !r.Want? && !r.Refused? ==> capabilities == old(capabilities)
    {
      hide ScanWords, Word, AfterWord, IsWireId, Utf8, ZeroStr;
      var text := new Cursor(line);
      var command := text.ReadUntilWhiteSpace();
      if command == WANT {
        var id := text.ReadUntilWhiteSpace();
        var before := capabilities;
        if first {
          var ok := ParseCapabilities(text.data);
          if !ok { return Refused(capabilities[|before|..]); }
        }
        if !IsWireId(wire, id) { return Refused(capabilities[|before|..]); }
        return Want(id, capabilities[|before|..]);
      } else if command == HAVE {
        var id := text.ReadUntilWhiteSpace();
        if !IsWireId(wire, id) { return Refused([]); }
        return Have(id);
      } else if command == DONE {
        return Done;
      }
      return Ignored;
    }

    /** Reads the negotiation of a fetch. */
    method ParseUploadRequest(request: bytes) returns (wants: seq<bytes>, haves: seq<bytes>, ok: bool)
      requires Consistent(Now()) && capabilities == []
      modifies this`capabilities, this`wire, this`zero
      ensures wire == old(wire) && zero == old(zero)
      ensures Request(wants, haves, capabilities, ok) == ParseUpload(reading, wire, request, true)
    {
      hide Read, ParseUpload, ReadUploadLine, ZeroStr, Ahead;
      wants, haves := [], [];
      var cursor := new Cursor(request);
      var first := true;
      AheadNothing([], [], [], ParseUpload(reading, wire, request, true));
      while true
        invariant wire == old(wire) && zero == old(zero) && Consistent(Now())
        invariant ParseUpload(reading, wire, request, true) ==
          Ahead(wants, haves, capabilities, ParseUpload(reading, wire, cursor.data, first))
        decreases |cursor.data|
      {
        UploadNext(reading, wire, cursor.data, first, wants, haves, capabilities);
        var taken, line := cursor.ReadPktLine();
        if taken == 0 { return wants, haves, true; }
        if line == [] { return wants, haves, true; }
        var said := TakeUploadLine(line, first);
        match said {
          case Want(id, _) => wants, first := wants + [id], false;
          case Have(id) => haves := haves + [id];
          case Done => return wants, haves, true;
          case Ignored =>
          case Refused(_) => return wants, haves, false;
        }
      }
    }

    /** Asks for every `have` whether the repository knows it, and acknowledges those it does. */
    method FindCommon(haves: seq<bytes>) returns (reply: bytes, last: bytes, ok: bool, ghost mine: seq<Event>)
      requires NonEmptyIds(haves)
      modifies repo
      ensures repo.log == old(repo.log) + mine && Asked(mine, haves, |mine|)
      ensures mine == [] ==> repo.kind == old(repo.kind)
      ensures mine != [] ==> repo.kind == mine[|mine| - 1].after
      ensures ok <==> |mine| == |haves| && AllKnown(mine, |haves|)
      ensures !ok ==> mine != [] && !mine[|mine| - 1].reply.Known?
      ensures ok ==> var common := Common(haves, Found(mine, |haves|));
        && reply == Frames(Acks(common)) && (last == [] <==> common == []) && (last != [] ==> last == common[0])
    {
      hide Acknowledged, Frame, AckCommon, Asked, AllKnown;
      reply, last, mine := [], [], [];
      AcknowledgedStart(haves);
      for i := 0 to |haves|
        invariant |mine| == i && repo.log == old(repo.log) + mine
        invariant repo.kind == if i == 0 then old(repo.kind) else mine[i - 1].after
        invariant Acknowledged(haves, mine, i, reply, last)
      {
        ghost var before := repo.kind;
        var known := repo.CommitExists(haves[i]);
        AcknowledgedStep(haves, mine, i, reply, last, Event(Lookup(haves[i]), before, ReplyOf(known), repo.kind));
        mine := mine + [Event(Lookup(haves[i]), before, ReplyOf(known), repo.kind)];
        if known.None? { return reply, last, false, mine; }
        if known.value {
          reply := reply + Frame(AckCommon(haves[i]));
          if last == [] { last := haves[i]; }
        }
      }
      AcknowledgedAll(haves, mine, reply, last);
      ok := true;
    }

    /**
     A fetch. It asks about every have, then for the pack the answers call for, under the server's
     binding; it succeeds exactly when the request can be read, everything is answered and the
     binding holds at the start, before the pack and after it.
     */
    method GitUploadPack(request: bytes) returns (reply: Option<bytes>, ghost mine: seq<Event>)
      modifies this`capabilities, this`wire, this`zero, repo
      ensures wire == old(wire) && zero == old(zero) && repo.log == old(repo.log) + mine
      ensures AllGuarded(mine, old(MyTerms())) && Negotiates(mine, ParseUpload(reading, wire, request, true))
      ensures mine != [] ==> Consistent(old(Now()))
      ensures reply.Some? <==>
        var req := ParseUpload(reading, wire, request, true);
        Consistent(old(Now())) && req.ok && FetchGoesOn(mine, |req.haves|, old(MyTerms()))
      ensures reply.Some? ==> Consistent(Now())
      ensures reply.Some? ==>
        var req := ParseUpload(reading, wire, request, true);
        |mine| == |req.haves| + 1 && reply.value == ReplyFor(req, Found(mine, |req.haves|))
    {
      hide Consistent, ParseUpload, Common, Frame, Frames, Negotiates, FetchGoesOn, AllGuarded, Asked, AllKnown, Found;
      reply, mine := None, [];
      ghost var b := MyTerms();
      capabilities := [];
      var ok := EnsureHashKindConsistency();
      ghost var req := ParseUpload(reading, wire, request, true);
      FetchStart(req, b);
      if !ok { return; }
      var wants, haves;
      wants, haves, ok := ParseUploadRequest(request);
      if !ok { return; }
      UploadIds(reading, wire, request, true);
      var out, last;
      out, last, ok, mine := FindCommon(haves);
      FetchLookups(req, mine, b, repo.kind);
      if !ok { return; }
      ok := EnsureHashKindConsistency();
      if !ok { return; }
      var failure;
      ghost var e;
      failure, out, e := AskForPack(wants, haves, out, last, Common(haves, Found(mine, |haves|)));
      FetchPack(req, mine, b, e);
      mine := mine + [e];
      if failure.Some? { return; }
      ok := EnsureHashKindConsistency();
      if !ok { return; }
      reply := Some(out);
    }

    /** The full pack when nothing is shared, the incremental one otherwise, with the last line in front of it. */
    method AskForPack(wants: seq<bytes>, haves: seq<bytes>, acks: bytes, last: bytes, ghost common: seq<bytes>)
        returns (failure: Option<bytes>, out: bytes, ghost e: Event)
      requires acks == Frames(Acks(common)) && (last == [] <==> common == []) && (last != [] ==> last == common[0])
      modifies repo
      ensures repo.log == old(repo.log) + [e] && e.before == old(repo.kind) && e.after == repo.kind && e.reply == Outcome(failure)
      ensures e.ask == if common == [] then FullPack(wants) else IncrementalPack(wants, haves)
      ensures out == if common == [] then Frame(NAK) else Frames(Acks(common) + [AckReady(common[0])])
    {
      hide Frame, Frames;
      AcksNone();
      FramesNone();
      ghost var before := repo.kind;
      if last == [] {
        out := acks + Frame(NAK);
        failure := repo.GenerateFullPack(wants);
        e := Event(FullPack(wants), before, Outcome(failure), repo.kind);
      } else {
        FramesSnoc(Acks(common), AckReady(last));
        out := acks + Frame(AckReady(last));
        failure := repo.GenerateIncrementalPack(wants, haves);
        e := Event(IncrementalPack(wants, haves), before, Outcome(failure), repo.kind);
      }
    }

    /** Collects the request. Every chunk is an await, and so is the end. */
    method Drain(stream: seq<Chunk>) returns (request: Option<bytes>, ghost mine: seq<Event>)
      modifies repo
      ensures request == Joined(stream)
      ensures repo.log == old(repo.log) + mine && Follows(mine, Waits(|stream|)) && mine != []
      ensures request.Some? ==> |mine| == |stream| + 1 && mine[|stream|].after == repo.kind
    {
      var data: bytes := [];
      mine := [];
      for i := 0 to |stream|
        invariant Joined(stream[..i]) == Some(data)
        invariant |mine| == i && repo.log == old(repo.log) + mine && Follows(mine, Waits(|stream|))
      {
        ghost var before := repo.kind;
        repo.Receive(NextChunk);
        mine := mine + [Event(NextChunk, before, Fine, repo.kind)];
        assert stream[..i + 1][..i] == stream[..i];
        if stream[i].Broken? {
          BrokenLost(stream, i);
          return None, mine;
        }
        data := data + stream[i].data;
      }
      assert stream[..|stream|] == stream;
      ghost var before := repo.kind;
      repo.Receive(EndOfStream);
      mine := mine + [Event(EndOfStream, before, Fine, repo.kind)];
      return Some(data), mine;
    }

    /** The commands in front of a pack; what follows the flush is the pack. */
    method ParseStream(request: bytes) returns (pack: Option<bytes>)
      modifies this`capabilities, this`wire, this`zero, this`commands
      ensures wire == old(wire) && zero == old(zero)
      ensures !Consistent(Now()) ==> pack.None?
      ensures Consistent(Now()) ==>
        var p := ParseFrom(reading, wire, request, true);
        && commands == p.commands && capabilities == p.capabilities
        && pack == if p.ending.Stopped? && p.ending.flushed then Some(p.ending.rest) else None
    {
      hide ScanLine, ParseCommand, Read, ParseFrom, Before, ZeroStr;
      ParseStart(reading, wire, request);
      commands, capabilities := [], [];
      var ok := EnsureHashKindConsistency();
      if !ok { return None; }
      var cursor := new Cursor(request);
      var first := true;
      while true
        invariant wire == old(wire) && zero == old(zero) && Consistent(Now())
        invariant ParseFrom(reading, wire, request, true) ==
          Before(commands, capabilities, ParseFrom(reading, wire, cursor.data, first))
        decreases |cursor.data|
      {
        ParseNext(reading, wire, cursor.data, first, commands, capabilities);
        var taken, line := cursor.ReadPktLine();
        if taken == 0 { return None; }
        if line == [] { return Some(cursor.data); }
        ok := TakeLine(line, first);
        if !ok { return None; }
        first := false;
      }
    }

    /** Hands one command to the repository. */
    method UpdateOne(c: RefCommand, defaultExists: bool)
        returns (c': RefCommand, defaultExists': bool, ghost e: Event)
      requires !c.defaultBranch && c.error.None?
      modifies repo
      ensures repo.log == old(repo.log) + [e] && e.before == old(repo.kind) && e.after == repo.kind
      ensures Handled(c, c', defaultExists, defaultExists', e, zero)
    {
      c', defaultExists' := c, defaultExists;
      var failure;
      if IsTag(c.name) {
        var oldId := if c.oldId == zero then None else Some(c.oldId);
        failure := repo.UpdateReference(c.name, oldId, c.newId);
      } else {
        if !defaultExists { c', defaultExists' := c'.(defaultBranch := true), true; }
        var oldId := if c.oldId == zero then None else Some(c.oldId);
        failure := repo.UpdateReference(c.name, oldId, c.newId);
      }
      if failure.Some? { c' := c'.(error := failure); }
      e := repo.log[|repo.log| - 1];
    }

    /** Hands every command to the repository, checking the binding before each. */
    method UpdateReferences(had: bool) returns (ok: bool, report: bytes, ghost mine: seq<Event>)
      requires Untouched(commands)
      modifies this`commands, repo
      ensures repo.log == old(repo.log) + mine && |mine| <= |commands| == |old(commands)|
      ensures Reported(old(commands), had, zero, commands, mine, report, |mine|)
      ensures AllGuarded(mine, old(MyTerms())) && Pending(mine, old(MyTerms()), old(repo.kind), repo.kind)
      ensures if ok then |mine| == |commands| else !Consistent(Now())
    {
      hide Reported, Handled, Consistent, Frame, Status, DefaultKnown, Pending, AllGuarded, UpdateAsk;
      mine := [];
      ghost var b := MyTerms();
      var list, i: nat, defaultExists := commands, 0, had;
      report := Frame(UNPACK_OK);
      ok := true;
      ReportedStart(list, had, zero);
      PendingStart(b, repo.kind);
      while i < |list|
        invariant i <= |list| == |old(commands)| && commands == old(commands)
        invariant forall j :: i <= j < |list| ==> list[j] == old(commands)[j]
        invariant repo.log == old(repo.log) + mine && |mine| == i && forall j :: 0 <= j < i ==> mine[j].ask.Update?
        invariant ok && Reported(old(commands), had, zero, list, mine, report, i) && DefaultKnown(old(commands), had, defaultExists, i)
        invariant AllGuarded(mine, b) && Pending(mine, b, old(repo.kind), repo.kind)
      {
        ok := EnsureHashKindConsistency();
        if !ok { break; }
        ghost var e;
        var c;
        ghost var before := defaultExists;
        assert Held(b, repo.kind);
        c, defaultExists, e := UpdateOne(list[i], defaultExists);
        HandledIsUpdate(list[i], c, before, defaultExists, e, zero);
        ReportedStep(old(commands), had, zero, list, mine, report, before, i, c, defaultExists, e);
        PendingStep(mine, b, old(repo.kind), e);
        list := list[i := c];
        report := report + Frame(Status(c));
        mine := mine + [e];
        i := i + 1;
      }
      commands := list;
    }

    /** Unpacks and stores the objects of a push. */
    method StorePack(pack: bytes) returns (ok: bool, ghost mine: seq<Event>)
      modifies repo
      ensures repo.log == old(repo.log) + mine && Follows(mine, StoreAsks(pack)) && AllGuarded(mine, old(MyTerms()))
      ensures ok <==> AllGoOn(mine, old(MyTerms()))
      ensures ok ==> |mine| == |StoreAsks(pack)|
    {
      hide Consistent;
      mine := [];
      ghost var b := MyTerms();
      if pack == [] { return true, mine; }
      ghost var before := repo.kind;
      var failure := repo.UnpackStream(pack);
      ghost var unpacked := Event(Unpack(pack), before, Outcome(failure), repo.kind);
      mine := [unpacked];
      if failure.Some? {
        assert !GoesOn(mine[0], b);
        return false, mine;
      }
      ok := EnsureHashKindConsistency();
      if !ok {
        assert !GoesOn(mine[0], b);
        return;
      }
      before := repo.kind;
      failure := repo.HandlePackObjects(pack);
      ghost var stored := Event(Store(pack), before, Outcome(failure), repo.kind);
      mine := [unpacked, stored];
      ok := failure.None?;
      assert GoesOn(mine[0], b) && (GoesOn(mine[1], b) <==> ok);
    }

    /** Everything a push does once its commands have been read. */
    method CarryOut(pack: bytes, ghost p: Parse) returns (report: Option<bytes>, ghost mine: seq<Event>)
      requires Untouched(commands) && p.commands == commands && p.ending == Stopped(pack, true)
      modifies this`commands, repo
      ensures repo.log == old(repo.log) + mine
      ensures AllGuarded(mine, old(MyTerms())) && Follows(mine, Deeds(p.commands, pack, zero))
      ensures report.Some? <==> AllGoOn(mine, old(MyTerms()))
      ensures report.Some? ==> Consistent(Now()) && |mine| == |Deeds(p.commands, pack, zero)| && Success(p, commands, mine, report.value)
    {
      hide Consistent, Reported, Frame, Frames, Follows, AllGuarded, AllGoOn, Pending, Success, Untouched, StoreAsks, UpdateAsks;
      report := None;
      ghost var b := MyTerms();
      ghost var plan0, plan2 := StoreAsks(pack), UpdateAsks(p.commands, zero);
      ghost var stored, updates, first;
      var ok, text;
      ok, stored := StorePack(pack);
      mine := stored;
      StageStore(stored, p.commands, pack, zero);
      if !ok { return; }
      ghost var before := repo.kind;
      var answer := repo.HasDefaultBranch();
      first := Event(DefaultBranch, before, ReplyOf(answer), repo.kind);
      mine := stored + [first];
      StageDefault(stored, first, p.commands, pack, zero, b);
      if answer.None? { return; }
      ok, text, updates := UpdateReferences(answer.value);
      mine := stored + [first] + updates;
      StageUpdates(stored, first, updates, p.commands, commands, pack, zero, b, answer.value, text, repo.kind);
      if !ok { return; }
      ok := EnsureHashKindConsistency();
      if !ok { return; }
      before := repo.kind;
      var failure := repo.PostReceiveHook();
      ghost var hook := Event(PostReceive, before, Outcome(failure), repo.kind);
      mine := stored + [first] + updates + [hook];
      StageHook(stored, first, updates, hook, p, commands, zero, b, text);
      if failure.Some? { return; }
      ok := EnsureHashKindConsistency();
      if !ok { return; }
      report := Some(text + FLUSH);
    }

    /**
     A push. Whatever the repository does at each await, it is asked for what the request says, in
     that order, and every call that changes it begins while its format, the server's wire and local
     format and the zero ID agree. The push succeeds exactly when the binding holds at the start, the
     request can be read and every event lets it go on; the report then names each command once, in
     order, with the repository's answer.
     */
    method GitReceivePackStream(stream: seq<Chunk>) returns (report: Option<bytes>, ghost mine: seq<Event>)
      modifies this`capabilities, this`wire, this`zero, this`commands, repo
      ensures wire == old(wire) && zero == old(zero) && repo.log == old(repo.log) + mine
      ensures AllGuarded(mine, old(MyTerms())) && Follows(mine, PushPlan(reading, wire, zero, stream))
      ensures mine != [] ==> Consistent(old(Now()))
      ensures report.Some? <==> Consistent(old(Now())) && Accepted(reading, wire, stream) && AllGoOn(mine, old(MyTerms()))
      ensures report.Some? ==> Consistent(Now()) && |mine| == |PushPlan(reading, wire, zero, stream)|
      ensures report.Some? ==> Success(Pushed(reading, wire, stream), commands, mine[|stream| + 1..], report.value)
    {
      hide Consistent, ParseFrom, Follows, AllGuarded, AllGoOn, Success, Untouched, Deeds;
      report, mine := None, [];
      ghost var b := MyTerms();
      NoEvents(b, PushPlan(reading, wire, zero, stream));
      var ok := EnsureHashKindConsistency();
      if !ok { return; }
      ghost var waits, deeds;
      var request;
      request, waits := Drain(stream);
      mine := waits;
      StageWaits(waits, reading, wire, zero, stream, b);
      if request.None? { return; }
      var pack := ParseStream(request.value);
      if pack.None? { return; }
      ParsedUntouched(reading, wire, request.value, true);
      report, deeds := CarryOut(pack.value, Pushed(reading, wire, stream));
      mine := waits + deeds;
      assert mine[|stream| + 1..] == deeds;
      StageDeeds(waits, deeds, reading, wire, zero, stream, b);
    }
  }

  ghost function Pushed(reading: Reading, kind: HashKind, stream: seq<Chunk>): Parse
    requires Joined(stream).Some?
  {
    ParseFrom(reading, kind, Joined(stream).value, true)
  }

  ghost predicate Accepted(reading: Reading, kind: HashKind, stream: seq<Chunk>) {
    && Joined(stream).Some?
    && Pushed(reading, kind, stream).ending.Stopped? && Pushed(reading, kind, stream).ending.flushed
  }

  /** The whole push: the request is received, then what it says is done. */
  ghost function PushPlan(reading: Reading, kind: HashKind, zero: bytes, stream: seq<Chunk>): seq<Ask> {
    Waits(|stream|) +
    if Accepted(reading, kind, stream)
    then Deeds(Pushed(reading, kind, stream).commands, Pushed(reading, kind, stream).ending.rest, zero)
    else []
  }

  /** The report says what the repository answered to each command; the default branch is chosen by its own answer. */
  ghost predicate Success(p: Parse, commands: seq<RefCommand>, events: seq<Event>, report: bytes)
    requires p.ending.Stopped?
  {
    var m := |StoreAsks(p.ending.rest)|;
    && |events| == m + 1 + |p.commands| + 1 && |commands| == |p.commands| && events[m].reply.Known?
    && (forall j :: 0 <= j < |commands| ==> Answered(p.commands, j, events[m].reply.answer, events[m + 1 + j], commands[j]))
    && report == Frames([UNPACK_OK] + Statuses(commands)) + FLUSH
  }

  lemma CommonNone()
    ensures Common([], []) == []
  {
  }

  lemma AcksNone()
    ensures Acks([]) == []
  {
  }

  lemma PendingStart(b: Terms, kind: HashKind)
    ensures Pending([], b, kind, kind) && AllGuarded([], b)
  {
  }

  lemma HandledIsUpdate(c: RefCommand, c': RefCommand, before: bool, after: bool, e: Event, zero: bytes)
    requires Handled(c, c', before, after, e, zero)
    ensures e.ask.Update?
  {
  }

  lemma NoEvents(b: Terms, plan: seq<Ask>)
    ensures AllGuarded([], b) && Follows([], plan) && AllGoOn([], b)
  {
  }

  // ---------------------------------------------------------------- stages of a fetch

  lemma FetchStart(req: Request, b: Terms)
    ensures Negotiates([], req) && AllGuarded([], b) && FetchGoesOn([], |req.haves|, b)
  {
  }

  /** The questions alone: they let the fetch go on exactly when all are answered and the binding holds behind them. */
  lemma FetchLookups(req: Request, events: seq<Event>, b: Terms, now: HashKind)
    requires Asked(events, req.haves, |events|)
    requires events != [] ==> now == events[|events| - 1].after
    ensures Negotiates(events, req) && AllGuarded(events, b)
    ensures events != [] && !events[|events| - 1].reply.Known? ==> !FetchGoesOn(events, |req.haves|, b)
    ensures |events| == |req.haves| && AllKnown(events, |req.haves|) && events != [] ==>
      (FetchGoesOn(events, |req.haves|, b) <==> Held(b, now))
  {
    hide Held, PackFor;
  }

  lemma FetchPack(req: Request, events: seq<Event>, b: Terms, e: Event)
    requires |events| == |req.haves| && Asked(events, req.haves, |events|) && AllKnown(events, |req.haves|)
    requires e.ask == PackFor(req, Found(events, |events|)) && Held(b, e.before)
    requires events != [] ==> e.before == events[|events| - 1].after
    ensures Negotiates(events + [e], req) && AllGuarded(events + [e], b)
    ensures FetchGoesOn(events + [e], |req.haves|, b) <==> e.reply.Fine? && Held(b, e.after)
    ensures AllKnown(events + [e], |events|) && Found(events + [e], |events|) == Found(events, |events|)
  {
    hide Held, Common;
    var all, n := events + [e], |events|;
    assert all[n] == e && forall i :: 0 <= i < n ==> all[i] == events[i];
    assert Found(all, n) == Found(events, n);
  }

  // ---------------------------------------------------------------- stages of a push

  lemma StageStore(stored: seq<Event>, commands: seq<RefCommand>, pack: bytes, zero: bytes)
    requires Follows(stored, StoreAsks(pack))
    ensures Follows(stored, Deeds(commands, pack, zero))
  {
    hide UpdateAsks, StoreAsks;
  }

  lemma StageDefault(stored: seq<Event>, first: Event, commands: seq<RefCommand>, pack: bytes, zero: bytes, b: Terms)
    requires Follows(stored, StoreAsks(pack)) && |stored| == |StoreAsks(pack)| && first.ask.DefaultBranch?
    requires AllGuarded(stored, b) && AllGoOn(stored, b)
    ensures Follows(stored + [first], Deeds(commands, pack, zero)) && AllGuarded(stored + [first], b)
    ensures AllGoOn(stored + [first], b) <==> GoesOn(first, b)
  {
    hide StoreAsks, UpdateAsks;
    FollowsAppend(stored, [first], StoreAsks(pack), [DefaultBranch]);
    FollowsMore(stored + [first], StoreAsks(pack) + [DefaultBranch], UpdateAsks(commands, zero) + [PostReceive]);
    assert Deeds(commands, pack, zero) == StoreAsks(pack) + [DefaultBranch] + (UpdateAsks(commands, zero) + [PostReceive]);
    GuardedAppend(stored, [first], b);
    GoOnAppend(stored, [first], b);
    OneGoesOn(first, b);
  }

  lemma FollowsMore(events: seq<Event>, p: seq<Ask>, q: seq<Ask>)
    requires Follows(events, p)
    ensures Follows(events, p + q)
  {
  }

  lemma OneGoesOn(e: Event, b: Terms)
    ensures AllGoOn([e], b) <==> GoesOn(e, b)
  {
    assert [e][0] == e;
  }

  /** With the updates done: nothing pending exactly when the binding holds now. */
  lemma StageUpdates(stored: seq<Event>, first: Event, updates: seq<Event>, parsed: seq<RefCommand>, commands: seq<RefCommand>,
                     pack: bytes, zero: bytes, b: Terms, had: bool, text: bytes, now: HashKind)
    requires Follows(stored + [first], Deeds(parsed, pack, zero)) && |stored| == |StoreAsks(pack)|
    requires AllGuarded(stored + [first], b) && AllGoOn(stored, b) && first.ask.DefaultBranch? && first.reply.Known?
    requires Reported(parsed, had, zero, commands, updates, text, |updates|)
    requires AllGuarded(updates, b) && Pending(updates, b, first.after, now)
    ensures Follows(stored + [first] + updates, Deeds(parsed, pack, zero)) && AllGuarded(stored + [first] + updates, b)
    ensures AllGoOn(stored + [first] + updates, b) <==> Held(b, now)
  {
    hide StoreAsks, Held, Frames, Answered;
    UpdatesFollow(updates, parsed, commands, had, zero, text);
    var head, plan := stored + [first], StoreAsks(pack) + [DefaultBranch];
    assert Deeds(parsed, pack, zero) == plan + UpdateAsks(parsed, zero) + [PostReceive];
    HeadFollows(head, plan, UpdateAsks(parsed, zero) + [PostReceive]);
    assert plan + (UpdateAsks(parsed, zero) + [PostReceive]) == plan + UpdateAsks(parsed, zero) + [PostReceive];
    FollowsAppend(head, updates, plan, UpdateAsks(parsed, zero));
    FollowsMore(head + updates, plan + UpdateAsks(parsed, zero), [PostReceive]);
    GuardedAppend(head, updates, b);
    GoOnAppend(head, updates, b);
    GoOnAppend(stored, [first], b);
    OneGoesOn(first, b);
    PendingGoesOn(updates, b, first.after, now);
  }

  lemma HeadFollows(events: seq<Event>, p: seq<Ask>, q: seq<Ask>)
    requires Follows(events, p + q) && |events| == |p|
    ensures Follows(events, p)
  {
    assert forall i :: 0 <= i < |p| ==> (p + q)[i] == p[i];
  }

  lemma UpdatesFollow(updates: seq<Event>, parsed: seq<RefCommand>, commands: seq<RefCommand>, had: bool, zero: bytes, text: bytes)
    requires Reported(parsed, had, zero, commands, updates, text, |updates|)
    ensures Follows(updates, UpdateAsks(parsed, zero)) && forall i :: 0 <= i < |updates| ==> updates[i].ask.Update?
  {
    hide Frames, Answered;
  }

  lemma PendingGoesOn(updates: seq<Event>, b: Terms, start: HashKind, now: HashKind)
    requires Pending(updates, b, start, now) && forall i :: 0 <= i < |updates| ==> updates[i].ask.Update?
    ensures Held(b, start) && AllGoOn(updates, b) <==> Held(b, now)
  {
    hide Held;
    if updates != [] {
      var n := |updates| - 1;
      assert updates == updates[..n] + [updates[n]];
      GoOnAppend(updates[..n], [updates[n]], b);
      OneGoesOn(updates[n], b);
    }
  }

  lemma StageHook(stored: seq<Event>, first: Event, updates: seq<Event>, hook: Event, p: Parse, commands: seq<RefCommand>,
                  zero: bytes, b: Terms, text: bytes)
    requires p.ending.Stopped? && Follows(stored + [first] + updates, Deeds(p.commands, p.ending.rest, zero))
    requires |stored| == |StoreAsks(p.ending.rest)| && |updates| == |p.commands| && first.reply.Known?
    requires Reported(p.commands, first.reply.answer, zero, commands, updates, text, |updates|)
    requires AllGuarded(stored + [first] + updates, b) && AllGoOn(stored + [first] + updates, b)
    requires hook.ask.PostReceive? && Held(b, hook.before)
    ensures var all := stored + [first] + updates + [hook];
      && Follows(all, Deeds(p.commands, p.ending.rest, zero)) && |all| == |Deeds(p.commands, p.ending.rest, zero)|
      && AllGuarded(all, b) && (AllGoOn(all, b) <==> GoesOn(hook, b)) && Success(p, commands, all, text + FLUSH)
  {
    hide Held, Frames, Statuses, Answered, StoreAsks, UpdateAsk, GoesOn;
    var front := stored + [first] + updates;
    var all, plan := front + [hook], StoreAsks(p.ending.rest) + [DefaultBranch] + UpdateAsks(p.commands, zero);
    HeadFollows(front, plan, [PostReceive]);
    FollowsAppend(front, [hook], plan, [PostReceive]);
    GuardedAppend(front, [hook], b);
    GoOnAppend(front, [hook], b);
    OneGoesOn(hook, b);
    hide Follows, AllGuarded, AllGoOn;
    var m := |stored|;
    assert commands[..|updates|] == commands && all[m] == first;
    forall j | 0 <= j < |commands| ensures Answered(p.commands, j, first.reply.answer, all[m + 1 + j], commands[j]) {
      assert all[m + 1 + j] == updates[j];
    }
  }

  lemma StageWaits(waits: seq<Event>, reading: Reading, kind: HashKind, zero: bytes, stream: seq<Chunk>, b: Terms)
    requires Follows(waits, Waits(|stream|))
    ensures Follows(waits, PushPlan(reading, kind, zero, stream)) && AllGuarded(waits, b)
    ensures |waits| == |stream| + 1 ==> (AllGoOn(waits, b) <==> Held(b, waits[|stream|].after))
  {
    hide Held, Deeds, Accepted;
    if |waits| == |stream| + 1 { assert waits[|stream|].ask.EndOfStream?; }
  }

  lemma StageDeeds(waits: seq<Event>, deeds: seq<Event>, reading: Reading, kind: HashKind, zero: bytes, stream: seq<Chunk>, b: Terms)
    requires Follows(waits, Waits(|stream|)) && |waits| == |stream| + 1 && Accepted(reading, kind, stream)
    requires AllGuarded(waits, b) && AllGuarded(deeds, b) && AllGoOn(waits, b)
    requires Follows(deeds, Deeds(Pushed(reading, kind, stream).commands, Pushed(reading, kind, stream).ending.rest, zero))
    ensures Follows(waits + deeds, PushPlan(reading, kind, zero, stream)) && AllGuarded(waits + deeds, b)
    ensures AllGoOn(waits + deeds, b) <==> AllGoOn(deeds, b)
  {
    hide Deeds, ParseFrom, AllGuarded, AllGoOn, Waits;
    WaitsLength(|stream|);
    FollowsAppend(waits, deeds, Waits(|stream|), Deeds(Pushed(reading, kind, stream).commands, Pushed(reading, kind, stream).ending.rest, zero));
    GuardedAppend(waits, deeds, b);
    GoOnAppend(waits, deeds, b);
  }

  lemma WaitsLength(n: nat)
    ensures |Waits(n)| == n + 1
  {
  }

  // ---------------------------------------------------------------- what a client and the repository see

  /** Repository, wire and local format agree, and the zero ID is as many zero digits as that format has. */
  ghost predicate Agreed(b: Terms, kind: HashKind) {
    && b.wire == kind && b.local == kind
    && |b.zero| == (match kind case Sha1 => 40 case Sha256 => 64 case Blake3 => 64)
    && forall i :: 0 <= i < |b.zero| ==> b.zero[i] == 48
  }

  lemma HeldIsAgreed(b: Terms, kind: HashKind)
    ensures Held(b, kind) <==> Agreed(b, kind)
  {
    if Agreed(b, kind) { assert b.zero == ZeroStr(kind); }
  }

  /** When an event stops a push or a fetch, in terms of the answer and the format reported with it. */
  lemma GoesOnIff(e: Event, b: Terms)
    ensures e.ask == NextChunk ==> GoesOn(e, b)
    ensures e.ask == EndOfStream || e.ask.Update? ==> (GoesOn(e, b) <==> Agreed(b, e.after))
    ensures e.ask.Store? ==> (GoesOn(e, b) <==> e.reply == Fine)
    ensures e.ask.Lookup? ==> (GoesOn(e, b) <==> e.reply.Known?)
    ensures e.ask == DefaultBranch ==> (GoesOn(e, b) <==> e.reply.Known? && Agreed(b, e.after))
    ensures e.ask.Unpack? || e.ask == PostReceive || e.ask.FullPack? || e.ask.IncrementalPack? ==>
      (GoesOn(e, b) <==> e.reply == Fine && Agreed(b, e.after))
  {
    hide Held;
    HeldIsAgreed(b, e.after);
  }

  /** In every run: a store, an update, the hook and a pack begin in agreement. */
  lemma GuardedAgree(events: seq<Event>, b: Terms, i: nat)
    requires AllGuarded(events, b) && i < |events|
    requires match events[i].ask case Store(_) => true case Update(_, _, _) => true case PostReceive => true
                                 case FullPack(_) => true case IncrementalPack(_, _) => true case _ => false
    ensures Agreed(b, events[i].before)
  {
    hide Held;
    HeldIsAgreed(b, events[i].before);
  }

  /** The old ID of an update is left out when it is all zeros of its format. */
  lemma ZeroMeansNew(c: RefCommand, kind: HashKind, b: Terms)
    requires Agreed(b, kind) && IsWireId(kind, c.oldId)
    ensures UpdateAsk(c, b.zero) ==
      Update(c.name, if forall i :: 0 <= i < |c.oldId| ==> c.oldId[i] == 48 then None else Some(c.oldId), c.newId)
  {
    if forall i :: 0 <= i < |c.oldId| ==> c.oldId[i] == 48 { assert c.oldId == b.zero; }
  }

  /** What a push does to the repository once it has been received, call by call. */
  lemma PushCalls(events: seq<Event>, commands: seq<RefCommand>, pack: bytes, zero: bytes)
    requires Follows(events, Deeds(commands, pack, zero)) && |events| == |Deeds(commands, pack, zero)|
    ensures var m := if pack == [] then 0 else 2;
      && |events| == m + 1 + |commands| + 1
      && (pack != [] ==> events[0].ask == Unpack(pack) && events[1].ask == Store(pack))
      && events[m].ask == DefaultBranch
      && (forall j :: 0 <= j < |commands| ==> events[m + 1 + j].ask == UpdateAsk(commands[j], zero))
      && events[m + 1 + |commands|].ask == PostReceive
  {
    hide UpdateAsk, Deeds;
    DeedsAt(commands, pack, zero);
  }

  lemma DeedsAt(commands: seq<RefCommand>, pack: bytes, zero: bytes)
    ensures var plan, m := Deeds(commands, pack, zero), if pack == [] then 0 else 2;
      && |plan| == m + 1 + |commands| + 1
      && (pack != [] ==> plan[0] == Unpack(pack) && plan[1] == Store(pack))
      && plan[m] == DefaultBranch
      && (forall j :: 0 <= j < |commands| ==> plan[m + 1 + j] == UpdateAsk(commands[j], zero))
      && plan[m + 1 + |commands|] == PostReceive
  {
    hide UpdateAsk;
    var head, updates, last := StoreAsks(pack) + [DefaultBranch], UpdateAsks(commands, zero), [PostReceive];
    var plan, m := head + updates + last, |StoreAsks(pack)|;
    assert Deeds(commands, pack, zero) == plan;
    forall j | 0 <= j < |commands| ensures plan[m + 1 + j] == UpdateAsk(commands[j], zero) {
      assert plan[m + 1 + j] == updates[j];
    }
  }

  /** Bytes of the status line of a command with this answer. */
  function StatusSize(name: bytes, reply: Reply): nat {
    if reply.Failure? then 4 + |name| + |reply.text| else 3 + |name|
  }

  /**
   What a client reads from the report of a push: `unpack ok`, then for every command `ok` and its ref
   when the repository took the update, or `ng`, its ref and the repository's words when it did not.
   */
  lemma ReportReads(p: Parse, commands: seq<RefCommand>, events: seq<Event>, report: bytes)
    requires p.ending.Stopped? && Success(p, commands, events, report)
    requires var m := if p.ending.rest == [] then 0 else 2;
      forall j :: 0 <= j < |p.commands| ==> StatusSize(p.commands[j].name, events[m + 1 + j].reply) <= 65531
    ensures var read, m := ReadLines(report), if p.ending.rest == [] then 0 else 2;
      && read.flushed && read.rest == [] && |read.lines| == 1 + |p.commands|
      && read.lines[0] == [117, 110, 112, 97, 99, 107, 32, 111, 107, 10]
      && forall j :: 0 <= j < |p.commands| ==>
           && (events[m + 1 + j].reply == Fine ==> read.lines[1 + j] == [111, 107, 32] + p.commands[j].name)
           && (events[m + 1 + j].reply.Failure? ==>
                 read.lines[1 + j] == [110, 103, 32] + p.commands[j].name + [32] + events[m + 1 + j].reply.text)
  {
    hide ReadLines, Frames, FirstBranch, Status, StatusSize, Answered;
    var m := if p.ending.rest == [] then 0 else 2;
    var lines := [UNPACK_OK] + Statuses(commands);
    forall j | 0 <= j < |commands|
      ensures |lines[1 + j]| == StatusSize(p.commands[j].name, events[m + 1 + j].reply) && |lines[1 + j]| > 0
      ensures events[m + 1 + j].reply == Fine ==> lines[1 + j] == [111, 107, 32] + p.commands[j].name
      ensures events[m + 1 + j].reply.Failure? ==>
        lines[1 + j] == [110, 103, 32] + p.commands[j].name + [32] + events[m + 1 + j].reply.text
    {
      assert lines[1 + j] == Status(commands[j]);
      StatusLine(p.commands, j, events[m].reply.answer, events[m + 1 + j], commands[j]);
    }
    forall k | 0 <= k < |lines| ensures 0 < |lines[k]| <= MAX_PAYLOAD {
      if k > 0 { assert |lines[1 + (k - 1)]| == StatusSize(p.commands[k - 1].name, events[m + 1 + (k - 1)].reply); }
    }
    FramesRead(lines, []);
    assert Frames(lines) + FLUSH + [] == report;
  }

  lemma StatusLine(parsed: seq<RefCommand>, j: nat, had: bool, e: Event, c: RefCommand)
    requires j < |parsed| && Answered(parsed, j, had, e, c)
    ensures |Status(c)| == StatusSize(parsed[j].name, e.reply) > 0
    ensures e.reply == Fine ==> Status(c) == [111, 107, 32] + parsed[j].name
    ensures e.reply.Failure? ==> Status(c) == [110, 103, 32] + parsed[j].name + [32] + e.reply.text
  {
    hide FirstBranch;
  }

  // ---------------------------------------------------------------- what a client reads of a fetch

  /** How many of the answers are yes. */
  ghost function Yes(found: seq<bool>): nat {
    if found == [] then 0 else Yes(found[..|found| - 1]) + if found[|found| - 1] then 1 else 0
  }

  /** The common IDs are the haves answered yes, in order. */
  lemma {:induction false} CommonAt(haves: seq<bytes>, found: seq<bool>, i: nat)
    requires |found| == |haves| && i <= |haves|
    ensures |Common(haves, found)| == Yes(found) && Yes(found[..i]) <= Yes(found)
    ensures i < |haves| && found[i] ==> Yes(found[..i]) < Yes(found) && Common(haves, found)[Yes(found[..i])] == haves[i]
    decreases |haves|
  {
    var n := |haves| - 1;
    if i < |haves| {
      CommonAt(haves[..n], found[..n], i);
      assert found[..n][..i] == found[..i];
    } else {
      assert found[..i] == found;
      if haves != [] {
        CommonAt(haves[..n], found[..n], n);
      }
    }
  }

  /**
   What a client reads in front of a pack: one `ACK <id> common` for every have answered yes, in their
   order, and `ACK <first of them> ready`; or `NAK` alone when no answer was yes.
   */
  lemma ReplyReads(kind: HashKind, req: Request, found: seq<bool>, rest: bytes)
    requires |found| == |req.haves| && WireIds(kind, req.haves)
    ensures var lines := ReadLines(ReplyFor(req, found) + FLUSH + rest).lines;
      if forall i :: 0 <= i < |found| ==> !found[i] then lines == [[78, 65, 75, 10]]
      else
        && |lines| == Yes(found) + 1
        && (forall i :: 0 <= i < |found| && found[i] ==>
              && Yes(found[..i]) < Yes(found)
              && lines[Yes(found[..i])] == [65, 67, 75, 32] + req.haves[i] + [32, 99, 111, 109, 109, 111, 110, 10])
        && exists i :: 0 <= i < |found| && found[i] && (forall j :: 0 <= j < i ==> !found[j])
             && lines[Yes(found)] == [65, 67, 75, 32] + req.haves[i] + [32, 114, 101, 97, 100, 121, 10]
  {
    hide ReadLines, Frames, Common, Yes, IsWireId;
    var common := Common(req.haves, found);
    CommonAt(req.haves, found, 0);
    NoYes(found);
    CommonWireIds(kind, req.haves, found);
    if forall i :: 0 <= i < |found| ==> !found[i] {
      FramesOne(NAK);
      FramesRead([NAK], rest);
    } else {
      var i := FirstYes(found, 0);
      CommonAt(req.haves, found, i);
      NoYes(found[..i]);
      assert common[0] == req.haves[i];
      var lines := Acks(common) + [AckReady(common[0])];
      assert Sendable(lines) by {
        forall k | 0 <= k < |lines| ensures 0 < |lines[k]| <= MAX_PAYLOAD { WireIdSize(kind, common[if k < |common| then k else 0]); }
      }
      FramesRead(lines, rest);
      forall k | 0 <= k < |found| && found[k] ensures Yes(found[..k]) < |common| && common[Yes(found[..k])] == req.haves[k] {
        CommonAt(req.haves, found, k);
      }
    }
  }

  lemma {:induction false} FirstYes(found: seq<bool>, from: nat) returns (i: nat)
    requires from <= |found| && (forall j :: 0 <= j < from ==> !found[j]) && exists j :: 0 <= j < |found| && found[j]
    ensures i < |found| && found[i] && forall j :: 0 <= j < i ==> !found[j]
    decreases |found| - from
  {
    if from < |found| && found[from] { return from; }
    i := FirstYes(found, from + 1);
  }

  lemma {:induction false} NoYes(found: seq<bool>)
    ensures Yes(found) == 0 <==> forall i :: 0 <= i < |found| ==> !found[i]
  {
    if found != [] {
      NoYes(found[..|found| - 1]);
      assert forall i :: 0 <= i < |found| - 1 ==> found[..|found| - 1][i] == found[i];
    }
  }

  lemma {:induction false} CommonWireIds(kind: HashKind, haves: seq<bytes>, found: seq<bool>)
    requires |found| == |haves| && WireIds(kind, haves)
    ensures WireIds(kind, Common(haves, found))
  {
    hide IsWireId;
    if haves != [] { CommonWireIds(kind, haves[..|haves| - 1], found[..|haves| - 1]); }
  }
}
