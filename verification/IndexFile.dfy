/**
 The Git index file of src/internal/index.rs: what the writer puts on disk, what the reader makes
 of arbitrary bytes, and how the two fit together. The digest is any function of the right width.
 */
module IndexFile {
  import opened Basics
  import opened Encoding
  import opened ByteOrder
  import opened HashKinds

  type word = x: int | 0 <= x < 0x1_0000_0000
  type half = x: int | 0 <= x < 0x1_0000

  // ---------------------------------------------------------------- big-endian integers

  function U16(x: half): bytes {
    [x / 256, x % 256]
  }

  function FromU16(s: bytes): half
    requires |s| == 2
  {
    256 * (s[0] as int) + s[1]
  }

  function U32(x: word): bytes {
    U16(x / 0x1_0000) + U16(x % 0x1_0000)
  }

  function FromU32(s: bytes): word
    requires |s| == 4
  {
    0x1_0000 * (FromU16(s[..2]) as int) + FromU16(s[2..])
  }

  lemma U32RoundTrip(x: word)
    ensures FromU32(U32(x)) == x
  {
    assert U32(x)[..2] == U16(x / 0x1_0000) && U32(x)[2..] == U16(x % 0x1_0000);
  }

  function U32s(xs: seq<word>): (s: bytes)
    ensures |s| == 4 * |xs|
  {
    if xs == [] then [] else U32(xs[0]) + U32s(xs[1..])
  }

  function FromU32s(s: bytes, n: nat): (xs: seq<word>)
    requires |s| == 4 * n
    ensures |xs| == n
  {
    if n == 0 then [] else [FromU32(s[..4])] + FromU32s(s[4..], n - 1)
  }

  lemma {:induction false} U32sRoundTrip(xs: seq<word>)
    ensures FromU32s(U32s(xs), |xs|) == xs
  {
    hide U32, FromU32;
    if xs != [] {
      var s := U32s(xs);
      assert |U32(xs[0])| == 4 by { U32Size(xs[0]); }
      assert s[..4] == U32(xs[0]) && s[4..] == U32s(xs[1..]);
      U32RoundTrip(xs[0]);
      U32sRoundTrip(xs[1..]);
    }
  }

  lemma U32Size(x: word)
    ensures |U32(x)| == 4
  {
  }

  // ---------------------------------------------------------------- entries

  datatype Flags = Flags(assumeValid: bool, extended: bool, stage: byte, nameLength: half, skipWorktree: bool, intentToAdd: bool)

  datatype Stat = Stat(ctimeSeconds: word, ctimeNanos: word, mtimeSeconds: word, mtimeNanos: word,
                       dev: word, ino: word, mode: word, uid: word, gid: word, size: word)

  datatype ObjectId = ObjectId(kind: HashKind, data: bytes)

  datatype Entry = Entry(stat: Stat, id: ObjectId, flags: Flags, name: bytes)

  function StatWords(t: Stat): seq<word> {
    [t.ctimeSeconds, t.ctimeNanos, t.mtimeSeconds, t.mtimeNanos, t.dev, t.ino, t.mode, t.uid, t.gid, t.size]
  }

  function StatOf(w: seq<word>): Stat
    requires |w| == 10
  {
    Stat(w[0], w[1], w[2], w[3], w[4], w[5], w[6], w[7], w[8], w[9])
  }

  /** Bit `b` of a flags word, `b` a power of two. */
  predicate Bit(w: half, b: half)
    requires b > 0
  {
    w / b % 2 == 1
  }

  function OneBit(on: bool, b: half): half {
    if on then b else 0
  }

  /** The main flags word. A stage above 3 spills into the two bits above it, as the shift and the bitwise or make it. */
  function Pack(f: Flags): Option<half> {
    if f.nameLength > 0xfff then None
    else Some(OneBit(f.assumeValid || f.stage / 8 % 2 == 1, 0x8000) + OneBit(f.extended || f.stage / 4 % 2 == 1, 0x4000)
              + 0x1000 * (f.stage % 4) + f.nameLength)
  }

  function Unpack(w: half): Flags {
    Flags(Bit(w, 0x8000), Bit(w, 0x4000), w / 0x1000 % 4, w % 0x1000, false, false)
  }

  /** The extended word; the writer emits it if it is not zero or if it is asked for. */
  function ExtendedWord(f: Flags): half {
    OneBit(f.skipWorktree, 0x4000) + OneBit(f.intentToAdd, 0x2000)
  }

  predicate HasExtended(f: Flags) {
    ExtendedWord(f) != 0 || f.extended
  }

  function Normal(f: Flags): Flags {
    f.(extended := HasExtended(f))
  }

  predicate KnownExtended(w: half) {
    w < 0x8000 && w % 0x2000 == 0
  }

  function WriteFlags(f: Flags): Option<bytes> {
    match Pack(Normal(f))
    case None => None
    case Some(w) => Some(U16(w) + if HasExtended(f) then U16(ExtendedWord(f)) else [])
  }

  datatype Parsed<T> = Short | Parsed(value: T, rest: bytes)

  function ReadFlags(s: bytes): Parsed<Flags> {
    if |s| < 2 then Short
    else
      var f := Unpack(FromU16(s[..2]));
      if !f.extended then Parsed(f, s[2..])
      else if |s| < 4 || !KnownExtended(FromU16(s[2..4])) then Short
      else
        var w := FromU16(s[2..4]);
        Parsed(f.(skipWorktree := Bit(w, 0x4000), intentToAdd := Bit(w, 0x2000)), s[4..])
  }

  lemma PackRoundTrip(f: Flags)
    requires f.nameLength <= 0xfff
    ensures Unpack(Pack(f).value) == f.(skipWorktree := false, intentToAdd := false) <==> f.stage <= 3
    ensures f.stage <= 3 ==> Unpack(Pack(f).value).extended == f.extended
  {
    var w := Pack(f).value;
    assert w / 0x1000 % 4 == f.stage % 4;
  }

  lemma ExtendedRoundTrip(f: Flags)
    ensures KnownExtended(ExtendedWord(f)) && Bit(ExtendedWord(f), 0x4000) == f.skipWorktree && Bit(ExtendedWord(f), 0x2000) == f.intentToAdd
    ensures ExtendedWord(f) == 0 <==> !f.skipWorktree && !f.intentToAdd
  {
  }

  lemma U16RoundTrip(x: half)
    ensures FromU16(U16(x)) == x
  {
  }

  /** The flags survive, with `extended` normalised, exactly when the stage has two bits. */
  lemma FlagsRoundTrip(f: Flags, rest: bytes)
    requires f.nameLength <= 0xfff
    ensures f.stage <= 3 ==> WriteFlags(f).Some? && ReadFlags(WriteFlags(f).value + rest) == Parsed(Normal(f), rest)
    ensures f.stage > 3 ==> ReadFlags(WriteFlags(f).value + rest) != Parsed(Normal(f), rest)
  {
    var n := Normal(f);
    var w, x := Pack(n).value, ExtendedWord(f);
    PackRoundTrip(n);
    ExtendedRoundTrip(f);
    U16RoundTrip(w);
    U16RoundTrip(x);
    hide Pack, ExtendedWord, U16, FromU16, KnownExtended, Bit;
    U16Size(w);
    U16Size(x);
    var s := WriteFlags(f).value + rest;
    assert s[..2] == U16(w);
    if HasExtended(f) {
      assert s[2..4] == U16(x);
      assert s[4..] == rest;
    } else {
      assert s[2..] == rest;
    }
    StageRead(s);
  }

  lemma U16Size(x: half)
    ensures |U16(x)| == 2
  {
  }

  lemma StageRead(s: bytes)
    ensures ReadFlags(s).Parsed? ==> ReadFlags(s).value.stage <= 3 && ReadFlags(s).value.nameLength <= 0xfff
    ensures ReadFlags(s).Parsed? ==> Normal(ReadFlags(s).value) == ReadFlags(s).value
  {
  }

  // ---------------------------------------------------------------- one entry on disk

  /** NUL bytes behind the name: one to eight. */
  function Padding(kind: HashKind, extended: bool, nameLength: nat): nat {
    var entryLength := IdSize(kind) + 2 + (if extended then 2 else 0) + nameLength;
    1 + (8 - (entryLength + 1) % 8) % 8
  }

  function Zeros(n: nat): bytes {
    seq(n, _ => 0)
  }

  function WriteEntry(kind: HashKind, e: Entry): Option<bytes> {
    match WriteFlags(e.flags)
    case None => None
    case Some(flags) =>
      Some(U32s(StatWords(e.stat)) + e.id.data + flags + e.name + Zeros(Padding(kind, HasExtended(e.flags), |e.name|)))
  }

  /** The name and the padding behind it. */
  function ReadName(kind: HashKind, f: Flags, s: bytes): Parsed<bytes> {
    var n := f.nameLength;
    if |s| < n + Padding(kind, f.extended, n) || !Utf8(s[..n]) then Short
    else Parsed(s[..n], s[n + Padding(kind, f.extended, n)..])
  }

  function ReadEntry(kind: HashKind, s: bytes): Parsed<Entry> {
    var h := 40 + IdSize(kind);
    if |s| < h then Short
    else match ReadFlags(s[h..])
      case Short => Short
      case Parsed(flags, t) => match ReadName(kind, flags, t)
        case Short => Short
        case Parsed(name, rest) =>
          Parsed(Entry(StatOf(FromU32s(s[..40], 10)), ObjectId(kind, s[40..h]), flags, name), rest)
  }

  function NormalEntry(e: Entry): Entry {
    e.(flags := Normal(e.flags))
  }

  ghost predicate WellFormed(kind: HashKind, e: Entry) {
    && e.id.kind == kind && |e.id.data| == IdSize(kind)
    && e.flags.stage <= 3 && e.flags.nameLength == |e.name| <= 0xfff && Utf8(e.name)
  }

  /** Entries are aligned to eight bytes and their names end in a NUL. */
  lemma PaddingAligns(kind: HashKind, e: Entry)
    requires WellFormed(kind, e) && WriteEntry(kind, e).Some?
    ensures |WriteEntry(kind, e).value| % 8 == 0
    ensures 1 <= Padding(kind, HasExtended(e.flags), |e.name|) <= 8
  {
    hide WriteFlags, U32s;
    WriteFlagsSize(e.flags);
    assert |StatWords(e.stat)| == 10;
  }

  lemma WriteFlagsSize(f: Flags)
    requires WriteFlags(f).Some?
    ensures |WriteFlags(f).value| == if HasExtended(f) then 4 else 2
  {
  }

  lemma NameRoundTrip(kind: HashKind, f: Flags, name: bytes, rest: bytes)
    requires f.nameLength == |name| && Utf8(name)
    ensures ReadName(kind, f, name + Zeros(Padding(kind, f.extended, |name|)) + rest) == Parsed(name, rest)
  {
    hide Padding, Utf8;
    var p := Padding(kind, f.extended, |name|);
    var s := name + Zeros(p) + rest;
    assert s[..|name|] == name && s[|name| + p..] == rest;
  }

  /** Reading an entry that was written gives it back, with `extended` normalised. */
  lemma EntryRoundTrip(kind: HashKind, e: Entry, rest: bytes)
    requires WellFormed(kind, e)
    ensures WriteEntry(kind, e).Some?
    ensures ReadEntry(kind, WriteEntry(kind, e).value + rest) == Parsed(NormalEntry(e), rest)
  {
    hide WriteFlags, ReadFlags, ReadName, Padding, U32s, FromU32s, HasExtended, Utf8;
    var words, h := StatWords(e.stat), 40 + IdSize(kind);
    var f, padding := Normal(e.flags), Zeros(Padding(kind, HasExtended(e.flags), |e.name|));
    var tail := e.name + padding + rest;
    FlagsRoundTrip(e.flags, tail);
    NameRoundTrip(kind, f, e.name, rest);
    U32sRoundTrip(words);
    var flags := WriteFlags(e.flags).value;
    var s := WriteEntry(kind, e).value + rest;
    assert s == U32s(words) + e.id.data + (flags + tail);
    assert s[..40] == U32s(words) && s[40..h] == e.id.data && s[h..] == flags + tail;
  }

  /** Whatever is read is well formed and normalised, and something was consumed. */
  lemma EntryReadWell(kind: HashKind, s: bytes)
    requires ReadEntry(kind, s).Parsed?
    ensures WellFormed(kind, ReadEntry(kind, s).value) && NormalEntry(ReadEntry(kind, s).value) == ReadEntry(kind, s).value
    ensures |ReadEntry(kind, s).rest| < |s|
  {
    hide ReadFlags, Utf8, FromU32s, Padding;
    var h := 40 + IdSize(kind);
    StageRead(s[h..]);
    FlagsAdvance(s[h..]);
  }

  lemma FlagsAdvance(s: bytes)
    requires ReadFlags(s).Parsed?
    ensures |ReadFlags(s).rest| < |s|
  {
  }

  // ---------------------------------------------------------------- the ordered map

  datatype Key = Key(name: bytes, stage: byte)

  function KeyOf(e: Entry): Key {
    Key(e.name, e.flags.stage)
  }

  predicate KeyLess(a: Key, b: Key) {
    Less(a.name, b.name) || (a.name == b.name && a.stage < b.stage)
  }

  lemma KeyLessTransitive(a: Key, b: Key, c: Key)
    requires KeyLess(a, b) && KeyLess(b, c)
    ensures KeyLess(a, c)
  {
    hide Less;
    if Less(a.name, b.name) && Less(b.name, c.name) { LessTransitive(a.name, b.name, c.name); }
  }

  lemma KeyLessStrict(a: Key)
    ensures !KeyLess(a, a)
  {
    LessIrreflexive(a.name);
  }

  lemma KeyLessTotal(a: Key, b: Key)
    ensures KeyLess(a, b) || a == b || KeyLess(b, a)
  {
    LessTotal(a.name, b.name);
  }

  /** The entries of a `BTreeMap` in the order it iterates over them. */
  ghost predicate Ordered(es: seq<Entry>) {
    forall i, j :: 0 <= i < j < |es| ==> KeyLess(KeyOf(es[i]), KeyOf(es[j]))
  }

  function Insert(es: seq<Entry>, e: Entry): seq<Entry> {
    if es == [] then [e]
    else
      var n := |es| - 1;
      if KeyLess(KeyOf(es[n]), KeyOf(e)) then es + [e]
      else if KeyOf(es[n]) == KeyOf(e) then es[..n] + [e]
      else Insert(es[..n], e) + [es[n]]
  }

  function Delete(es: seq<Entry>, k: Key): seq<Entry> {
    if es == [] then []
    else Delete(es[..|es| - 1], k) + if KeyOf(es[|es| - 1]) == k then [] else [es[|es| - 1]]
  }

  /** The map itself. */
  ghost function Contents(es: seq<Entry>): map<Key, Entry> {
    if es == [] then map[] else Contents(es[..|es| - 1])[KeyOf(es[|es| - 1]) := es[|es| - 1]]
  }

  ghost predicate Below(es: seq<Entry>, k: Key) {
    forall i :: 0 <= i < |es| ==> KeyLess(KeyOf(es[i]), k)
  }

  lemma OrderedSnoc(es: seq<Entry>, e: Entry)
    ensures Ordered(es + [e]) <==> Ordered(es) && Below(es, KeyOf(e))
  {
    hide KeyLess, KeyOf;
    var all := es + [e];
    if Ordered(all) {
      forall i | 0 <= i < |es| ensures KeyLess(KeyOf(es[i]), KeyOf(e)) {
        assert KeyLess(KeyOf(all[i]), KeyOf(all[|es|]));
      }
      forall i, j | 0 <= i < j < |es| ensures KeyLess(KeyOf(es[i]), KeyOf(es[j])) {
        assert KeyLess(KeyOf(all[i]), KeyOf(all[j]));
      }
    }
  }

  lemma BelowLater(es: seq<Entry>, a: Key, b: Key)
    requires Below(es, a) && KeyLess(a, b)
    ensures Below(es, b)
  {
    hide KeyLess;
    forall i | 0 <= i < |es| ensures KeyLess(KeyOf(es[i]), b) {
      KeyLessTransitive(KeyOf(es[i]), a, b);
    }
  }

  lemma {:induction false} InsertOrdered(es: seq<Entry>, e: Entry)
    requires Ordered(es)
    ensures Ordered(Insert(es, e))
    ensures forall k :: Below(es, k) && KeyLess(KeyOf(e), k) ==> Below(Insert(es, e), k)
  {
    hide KeyLess, KeyOf, Ordered;
    if es == [] {
      SingleOrdered(e);
      return;
    }
    var n := |es| - 1;
    var front, last := es[..n], es[n];
    assert es == front + [last];
    OrderedSnoc(front, last);
    if KeyLess(KeyOf(last), KeyOf(e)) {
      BelowLater(front, KeyOf(last), KeyOf(e));
      OrderedSnoc(es, e);
    } else if KeyOf(last) == KeyOf(e) {
      OrderedSnoc(front, e);
    } else {
      KeyLessTotal(KeyOf(last), KeyOf(e));
      InsertOrdered(front, e);
      OrderedSnoc(Insert(front, e), last);
      forall k | Below(es, k) && KeyLess(KeyOf(e), k) ensures Below(Insert(es, e), k) {
        assert Below(front, k) && KeyLess(KeyOf(es[n]), k);
      }
    }
  }

  lemma ContentsSnoc(es: seq<Entry>, e: Entry)
    ensures Contents(es + [e]) == Contents(es)[KeyOf(e) := e]
  {
    assert (es + [e])[..|es|] == es;
  }

  lemma {:induction false} InsertContents(es: seq<Entry>, e: Entry)
    ensures Contents(Insert(es, e)) == Contents(es)[KeyOf(e) := e]
  {
    hide KeyLess, KeyOf, Contents;
    if es == [] {
      ContentsSnoc([], e);
      assert [] + [e] == [e];
      return;
    }
    var n := |es| - 1;
    var front, last := es[..n], es[n];
    assert es == front + [last];
    ContentsSnoc(front, last);
    if KeyLess(KeyOf(last), KeyOf(e)) {
      ContentsSnoc(es, e);
    } else if KeyOf(last) == KeyOf(e) {
      ContentsSnoc(front, e);
    } else {
      InsertContents(front, e);
      ContentsSnoc(Insert(front, e), last);
    }
  }

  /** Inserting keeps the order and updates the map at the entry's key only. */
  lemma InsertIsUpdate(es: seq<Entry>, e: Entry)
    requires Ordered(es)
    ensures Ordered(Insert(es, e)) && Contents(Insert(es, e)) == Contents(es)[KeyOf(e) := e]
  {
    InsertOrdered(es, e);
    InsertContents(es, e);
  }

  lemma SingleOrdered(e: Entry)
    ensures Ordered([e]) && Ordered([])
  {
  }

  lemma {:induction false} DeleteOrdered(es: seq<Entry>, k: Key)
    requires Ordered(es)
    ensures Ordered(Delete(es, k))
    ensures forall b :: Below(es, b) ==> Below(Delete(es, k), b)
  {
    hide KeyLess, KeyOf, Ordered;
    if es == [] { return; }
    var n := |es| - 1;
    var front, last := es[..n], es[n];
    assert es == front + [last];
    OrderedSnoc(front, last);
    DeleteOrdered(front, k);
    var kept := Delete(front, k);
    OrderedSnoc(kept, last);
    assert kept + [] == kept;
    forall b | Below(es, b) ensures Below(kept + [last], b) && Below(kept, b) {
      assert Below(front, b) && KeyLess(KeyOf(es[n]), b);
    }
  }

  lemma {:induction false} DeleteContents(es: seq<Entry>, k: Key)
    ensures Contents(Delete(es, k)) == Contents(es) - {k}
  {
    hide KeyOf, Contents;
    if es == [] {
      ContentsNone();
      return;
    }
    var n := |es| - 1;
    var front, last := es[..n], es[n];
    assert es == front + [last];
    DeleteContents(front, k);
    ContentsSnoc(front, last);
    var kept := Delete(front, k);
    ContentsSnoc(kept, last);
    assert kept + [] == kept;
  }

  lemma ContentsNone()
    ensures Contents([]) == map[]
  {
  }

  /** Deleting keeps the order and removes one key only. */
  lemma DeleteIsRemoval(es: seq<Entry>, k: Key)
    requires Ordered(es)
    ensures Ordered(Delete(es, k)) && Contents(Delete(es, k)) == Contents(es) - {k}
  {
    DeleteOrdered(es, k);
    DeleteContents(es, k);
  }

  // ---------------------------------------------------------------- the file

  /** `DIRC` */
  const MAGIC: bytes := [68, 73, 82, 67]

  function WriteEntries(kind: HashKind, es: seq<Entry>): Option<bytes> {
    if es == [] then Some([])
    else match WriteEntries(kind, es[..|es| - 1])
      case None => None
      case Some(front) => match WriteEntry(kind, es[|es| - 1])
        case None => None
        case Some(last) => Some(front + last)
  }

  predicate AnyExtended(es: seq<Entry>) {
    exists i :: 0 <= i < |es| && HasExtended(es[i].flags)
  }

  function Version(es: seq<Entry>): word {
    if AnyExtended(es) then 3 else 2
  }

  function Header(es: seq<Entry>): bytes {
    MAGIC + U32(Version(es)) + U32(|es| % 0x1_0000_0000)
  }

  predicate OneKind(kind: HashKind, es: seq<Entry>) {
    forall i :: 0 <= i < |es| ==> es[i].id.kind == kind
  }

  /** What the writer leaves on disk; nothing if an entry is of another kind or its flags cannot be packed. */
  function WriteIndex(kind: HashKind, digest: bytes -> bytes, es: seq<Entry>): Option<bytes> {
    if !OneKind(kind, es) then None
    else match WriteEntries(kind, es)
      case None => None
      case Some(body) => Some(Header(es) + body + digest(Header(es) + body))
  }

  function ReadEntries(kind: HashKind, s: bytes, num: nat, es: seq<Entry>): Parsed<seq<Entry>> {
    if num == 0 then Parsed(es, s)
    else match ReadEntry(kind, s)
      case Short => Short
      case Parsed(e, rest) => ReadEntries(kind, rest, num - 1, Insert(es, e))
  }

  /** Extensions in front of a checksum of `size` bytes; only those with an upper-case first letter may be skipped. */
  function SkipExtensions(s: bytes, size: nat): Option<bytes>
    decreases |s|
  {
    if |s| <= size then Some(s)
    else if |s| < 8 || !Utf8(s[..4]) || !(65 <= s[0] <= 90) || |s| < 8 + FromU32(s[4..8]) then None
    else SkipExtensions(s[8 + FromU32(s[4..8])..], size)
  }

  /** The reader panics when two entries have the same key. */
  datatype ReadResult = Ok(entries: seq<Entry>) | Err | Panic

  function ReadIndex(kind: HashKind, digest: bytes -> bytes, s: bytes): ReadResult {
    if |s| < 12 || s[..4] != MAGIC || (FromU32(s[4..8]) != 2 && FromU32(s[4..8]) != 3) then Err
    else match ReadEntries(kind, s[12..], FromU32(s[8..12]), [])
      case Short => Err
      case Parsed(es, rest) => match SkipExtensions(rest, IdSize(kind))
        case None => Err
        case Some(check) =>
          if |check| != IdSize(kind) || |check| > |s| || digest(s[..|s| - |check|]) != check then Err
          else if |es| != FromU32(s[8..12]) then Panic
          else Ok(es)
  }

  // ---------------------------------------------------------------- round trips

  ghost predicate AllWell(kind: HashKind, es: seq<Entry>) {
    forall i :: 0 <= i < |es| ==> WellFormed(kind, es[i])
  }

  function NormalAll(es: seq<Entry>): (r: seq<Entry>)
    ensures |r| == |es| && forall i :: 0 <= i < |es| ==> r[i] == NormalEntry(es[i])
  {
    seq(|es|, i requires 0 <= i < |es| => NormalEntry(es[i]))
  }

  lemma InsertLast(es: seq<Entry>, e: Entry)
    requires Below(es, KeyOf(e))
    ensures Insert(es, e) == es + [e]
  {
    hide KeyLess, KeyOf;
    if es != [] { assert KeyLess(KeyOf(es[|es| - 1]), KeyOf(e)); }
  }

  lemma BelowNormal(es: seq<Entry>, e: Entry)
    requires Below(es, KeyOf(e))
    ensures Below(NormalAll(es), KeyOf(NormalEntry(e)))
  {
    hide KeyLess;
  }

  /** Reading the last of several entries first needs the others to have been read. */
  lemma {:induction false} ReadEntriesAppend(kind: HashKind, s: bytes, n: nat, es: seq<Entry>)
    ensures ReadEntries(kind, s, n + 1, es) == match ReadEntries(kind, s, n, es)
      case Short => Short
      case Parsed(front, rest) => (match ReadEntry(kind, rest)
        case Short => Short
        case Parsed(e, rest') => Parsed(Insert(front, e), rest'))
    decreases n
  {
    hide ReadEntry, Insert;
    match ReadEntry(kind, s)
    case Short =>
      assert n > 0 ==> ReadEntries(kind, s, n, es) == Short;
    case Parsed(e, rest) =>
      if n == 0 {
        assert ReadEntries(kind, s, 1, es) == ReadEntries(kind, rest, 0, Insert(es, e));
      } else {
        ReadEntriesAppend(kind, rest, n - 1, Insert(es, e));
      }
  }

  lemma {:induction false} EntriesRoundTrip(kind: HashKind, es: seq<Entry>, rest: bytes)
    requires Ordered(es) && AllWell(kind, es)
    ensures WriteEntries(kind, es).Some?
    ensures ReadEntries(kind, WriteEntries(kind, es).value + rest, |es|, []) == Parsed(NormalAll(es), rest)
    decreases |es|
  {
    hide ReadEntry, WriteEntry, Insert, WellFormed, Ordered, NormalEntry;
    if es == [] {
      assert NormalAll(es) == [] && [] + rest == rest;
      return;
    }
    var n := |es| - 1;
    var front, last := es[..n], es[n];
    assert es == front + [last];
    OrderedSnoc(front, last);
    EntryRoundTrip(kind, last, rest);
    var b := WriteEntry(kind, last).value;
    EntriesRoundTrip(kind, front, b + rest);
    var a := WriteEntries(kind, front).value;
    assert WriteEntries(kind, es).value + rest == a + (b + rest);
    ReadEntriesAppend(kind, a + (b + rest), n, []);
    BelowNormal(front, last);
    InsertLast(NormalAll(front), NormalEntry(last));
    assert NormalAll(es) == NormalAll(front) + [NormalEntry(last)];
  }

  /** An extension that readers may ignore. */
  datatype Extension = Extension(sign: bytes, data: bytes)

  ghost predicate Optional(x: Extension) {
    |x.sign| == 4 && 65 <= x.sign[0] <= 90 && Utf8(x.sign) && |x.data| < 0x1_0000_0000
  }

  function ExtensionBytes(xs: seq<Extension>): bytes {
    if xs == [] then []
    else xs[0].sign + U32(|xs[0].data| % 0x1_0000_0000) + xs[0].data + ExtensionBytes(xs[1..])
  }

  lemma {:induction false} ExtensionsSkipped(xs: seq<Extension>, check: bytes, size: nat)
    requires |check| == size && forall i :: 0 <= i < |xs| ==> Optional(xs[i])
    ensures SkipExtensions(ExtensionBytes(xs) + check, size) == Some(check)
    decreases |xs|
  {
    hide Utf8, U32, FromU32;
    if xs == [] {
      assert ExtensionBytes(xs) + check == check;
      return;
    }
    var x, more := xs[0], ExtensionBytes(xs[1..]) + check;
    var s := ExtensionBytes(xs) + check;
    U32Size(|x.data|);
    U32RoundTrip(|x.data|);
    assert Optional(xs[0]);
    assert s == x.sign + U32(|x.data|) + x.data + more;
    assert s[..4] == x.sign && s[4..8] == U32(|x.data|) && s[8 + |x.data|..] == more;
    ExtensionsSkipped(xs[1..], check, size);
  }

  /** A file as the writer lays it out, with optional extensions put in front of a matching checksum. */
  function FileWith(digest: bytes -> bytes, es: seq<Entry>, body: bytes, xs: seq<Extension>): bytes {
    var front := Header(es) + body + ExtensionBytes(xs);
    front + digest(front)
  }

  /**
   Reading what was written gives the same entries with `extended` normalised, whatever optional
   extensions have been inserted and the checksum recomputed.
   */
  lemma IndexRoundTrip(kind: HashKind, digest: bytes -> bytes, es: seq<Entry>, xs: seq<Extension>)
    requires Ordered(es) && AllWell(kind, es) && |es| < 0x1_0000_0000
    requires (forall b :: |digest(b)| == IdSize(kind)) && forall i :: 0 <= i < |xs| ==> Optional(xs[i])
    ensures WriteEntries(kind, es).Some?
    ensures ReadIndex(kind, digest, FileWith(digest, es, WriteEntries(kind, es).value, xs)) == Ok(NormalAll(es))
  {
    hide ReadIndex, ReadEntries, WriteEntries, SkipExtensions, FromU32, Header, ExtensionBytes, Ordered, AllWell, Optional, NormalAll, MAGIC;
    EntriesRoundTrip(kind, es, []);
    var body, header, extra := WriteEntries(kind, es).value, Header(es), ExtensionBytes(xs);
    var front := header + body + extra;
    var check := digest(front);
    var tail := body + (extra + check);
    assert front + check == header + tail;
    EntriesRoundTrip(kind, es, extra + check);
    ExtensionsSkipped(xs, check, IdSize(kind));
    HeaderReads(es, tail);
    assert |check| == IdSize(kind);
    ReadParts(kind, digest, front, check, tail, extra + check, NormalAll(es));
  }

  /** What has to hold of the parts of a file for it to be accepted. */
  lemma ReadParts(kind: HashKind, digest: bytes -> bytes, front: bytes, check: bytes, tail: bytes, rest: bytes, es: seq<Entry>)
    requires var s := front + check;
      && |s| >= 12 && s[..4] == MAGIC && (FromU32(s[4..8]) == 2 || FromU32(s[4..8]) == 3)
      && FromU32(s[8..12]) == |es| && s[12..] == tail
    requires ReadEntries(kind, tail, |es|, []) == Parsed(es, rest) && SkipExtensions(rest, IdSize(kind)) == Some(check)
    requires |check| == IdSize(kind) && check == digest(front)
    ensures ReadIndex(kind, digest, front + check) == Ok(es)
  {
    hide ReadEntries, SkipExtensions, FromU32, MAGIC;
    var s := front + check;
    assert s[..|s| - |check|] == front;
  }

  lemma HeaderReads(es: seq<Entry>, tail: bytes)
    requires |es| < 0x1_0000_0000
    ensures var s := Header(es) + tail;
      && |s| >= 12 && s[..4] == MAGIC && (FromU32(s[4..8]) == 2 || FromU32(s[4..8]) == 3)
      && FromU32(s[8..12]) == |es| && s[12..] == tail
  {
    var s := Header(es) + tail;
    U32Size(Version(es)); U32RoundTrip(Version(es));
    U32Size(|es|); U32RoundTrip(|es|);
    hide U32, FromU32, AnyExtended;
    assert Header(es) == MAGIC + U32(Version(es)) + U32(|es|);
    assert s[..4] == MAGIC && s[4..8] == U32(Version(es)) && s[8..12] == U32(|es|) && s[12..] == tail;
  }

  /** The version field of a written file is 3 when some entry is extended, and 2 otherwise. */
  lemma VersionIs(kind: HashKind, digest: bytes -> bytes, es: seq<Entry>)
    requires WriteIndex(kind, digest, es).Some?
    ensures var file := WriteIndex(kind, digest, es).value;
      |file| >= 12 && FromU32(file[4..8]) == if exists i :: 0 <= i < |es| && HasExtended(es[i].flags) then 3 else 2
  {
    var file := WriteIndex(kind, digest, es).value;
    U32Size(Version(es));
    U32Size(|es| % 0x1_0000_0000);
    U32RoundTrip(Version(es));
    hide U32, FromU32, WriteEntries, HasExtended;
    assert file[4..8] == U32(Version(es));
  }

  /** Without extensions that is the writer's own output. */
  lemma WrittenIsFile(kind: HashKind, digest: bytes -> bytes, es: seq<Entry>)
    requires OneKind(kind, es) && WriteEntries(kind, es).Some?
    ensures WriteIndex(kind, digest, es) == Some(FileWith(digest, es, WriteEntries(kind, es).value, []))
  {
    var body := WriteEntries(kind, es).value;
    assert Header(es) + body + ExtensionBytes([]) == Header(es) + body;
  }

  lemma NormalWritesSame(kind: HashKind, e: Entry)
    ensures WriteEntry(kind, NormalEntry(e)) == WriteEntry(kind, e) && HasExtended(Normal(e.flags)) == HasExtended(e.flags)
  {
    assert Normal(Normal(e.flags)) == Normal(e.flags);
    hide Pack;
  }

  lemma {:induction false} NormalWriteEntries(kind: HashKind, es: seq<Entry>)
    ensures WriteEntries(kind, NormalAll(es)) == WriteEntries(kind, es)
  {
    hide WriteEntry, NormalEntry;
    if es != [] {
      var n := |es| - 1;
      NormalWriteEntries(kind, es[..n]);
      NormalWritesSame(kind, es[n]);
      assert NormalAll(es)[..n] == NormalAll(es[..n]);
    }
  }

  /** Writing what was read back is byte-identical to the first file. */
  lemma RewriteIdentical(kind: HashKind, digest: bytes -> bytes, es: seq<Entry>)
    ensures WriteIndex(kind, digest, NormalAll(es)) == WriteIndex(kind, digest, es)
  {
    hide WriteEntries, HasExtended;
    NormalWriteEntries(kind, es);
    forall i | 0 <= i < |es| ensures HasExtended(NormalAll(es)[i].flags) == HasExtended(es[i].flags) {
      NormalWritesSame(kind, es[i]);
    }
    assert AnyExtended(NormalAll(es)) == AnyExtended(es);
    assert OneKind(kind, NormalAll(es)) == OneKind(kind, es) by {
      assert forall i :: 0 <= i < |es| ==> NormalAll(es)[i].id == es[i].id;
    }
  }

  // ---------------------------------------------------------------- whatever is read can be written

  lemma {:induction false} InsertWell(kind: HashKind, es: seq<Entry>, e: Entry)
    requires AllWell(kind, es) && WellFormed(kind, e)
    ensures AllWell(kind, Insert(es, e))
  {
    hide WellFormed, KeyLess, KeyOf;
    if es != [] { InsertWell(kind, es[..|es| - 1], e); }
  }

  ghost predicate AllNormal(es: seq<Entry>) {
    forall i :: 0 <= i < |es| ==> NormalEntry(es[i]) == es[i]
  }

  lemma {:induction false} InsertNormal(es: seq<Entry>, e: Entry)
    requires AllNormal(es) && NormalEntry(e) == e
    ensures AllNormal(Insert(es, e))
  {
    hide NormalEntry, KeyLess, KeyOf;
    if es != [] { InsertNormal(es[..|es| - 1], e); }
  }

  lemma {:induction false} EntriesReadWell(kind: HashKind, s: bytes, num: nat, es: seq<Entry>)
    requires Ordered(es) && AllWell(kind, es) && AllNormal(es) && ReadEntries(kind, s, num, es).Parsed?
    ensures var r := ReadEntries(kind, s, num, es).value; Ordered(r) && AllWell(kind, r) && AllNormal(r)
    decreases num
  {
    hide ReadEntry, Insert, Ordered, AllWell, AllNormal;
    if num > 0 {
      var e := ReadEntry(kind, s).value;
      EntryReadWell(kind, s);
      InsertIsUpdate(es, e);
      InsertWell(kind, es, e);
      InsertNormal(es, e);
      EntriesReadWell(kind, ReadEntry(kind, s).rest, num - 1, Insert(es, e));
    }
  }

  /**
   Any file the reader accepts, written by whatever program: its entries can be written, and the
   file written from them is read back to exactly the same entries.
   */
  lemma AcceptedCanBeRewritten(kind: HashKind, digest: bytes -> bytes, s: bytes)
    requires ReadIndex(kind, digest, s).Ok? && forall b :: |digest(b)| == IdSize(kind)
    ensures var es := ReadIndex(kind, digest, s).entries;
      WriteIndex(kind, digest, es).Some? && ReadIndex(kind, digest, WriteIndex(kind, digest, es).value) == Ok(es)
  {
    hide ReadEntries, WriteEntries, SkipExtensions, Insert, NormalEntry;
    var es := ReadIndex(kind, digest, s).entries;
    NothingRead(kind);
    EntriesReadWell(kind, s[12..], FromU32(s[8..12]), []);
    assert NormalAll(es) == es;
    WellKind(kind, es);
    hide Ordered, AllWell, ReadIndex;
    IndexRoundTrip(kind, digest, es, []);
    WrittenIsFile(kind, digest, es);
  }

  lemma NothingRead(kind: HashKind)
    ensures Ordered([]) && AllWell(kind, []) && AllNormal([])
  {
  }

  lemma WellKind(kind: HashKind, es: seq<Entry>)
    requires AllWell(kind, es)
    ensures OneKind(kind, es)
  {
  }

  // ---------------------------------------------------------------- exactly what is accepted

  ghost predicate SuffixOf(rest: bytes, s: bytes) {
    |rest| <= |s| && rest == s[|s| - |rest|..]
  }

  lemma SuffixTwice(a: bytes, b: bytes, c: bytes)
    requires SuffixOf(a, b) && SuffixOf(b, c)
    ensures SuffixOf(a, c)
  {
    SliceOfSlice(c, |c| - |b|, |c|, |b| - |a|, |b|);
    assert b == c[|c| - |b|..|c|] && b[|b| - |a|..] == b[|b| - |a|..|b|];
  }

  lemma SuffixFrom(s: bytes, k: nat)
    requires k <= |s|
    ensures SuffixOf(s[k..], s)
  {
  }

  lemma EntrySuffix(kind: HashKind, s: bytes)
    requires ReadEntry(kind, s).Parsed?
    ensures SuffixOf(ReadEntry(kind, s).rest, s)
  {
    hide Padding, Utf8, FromU32s, SuffixOf;
    var h := 40 + IdSize(kind);
    SuffixFrom(s, h);
    FlagsSuffix(s[h..]);
    var flags, t := ReadFlags(s[h..]).value, ReadFlags(s[h..]).rest;
    SuffixFrom(t, flags.nameLength + Padding(kind, flags.extended, flags.nameLength));
    SuffixTwice(t, s[h..], s);
    SuffixTwice(ReadEntry(kind, s).rest, t, s);
  }

  lemma FlagsSuffix(s: bytes)
    requires ReadFlags(s).Parsed?
    ensures SuffixOf(ReadFlags(s).rest, s)
  {
    hide KnownExtended, Bit, FromU16;
  }

  lemma {:induction false} EntriesSuffix(kind: HashKind, s: bytes, num: nat, es: seq<Entry>)
    requires ReadEntries(kind, s, num, es).Parsed?
    ensures SuffixOf(ReadEntries(kind, s, num, es).rest, s)
    decreases num
  {
    hide ReadEntry, Insert, SuffixOf;
    if num == 0 {
      SuffixFrom(s, 0);
      assert s[0..] == s;
    } else {
      var e, rest := ReadEntry(kind, s).value, ReadEntry(kind, s).rest;
      EntrySuffix(kind, s);
      EntriesSuffix(kind, rest, num - 1, Insert(es, e));
      SuffixTwice(ReadEntries(kind, rest, num - 1, Insert(es, e)).rest, rest, s);
    }
  }

  /** What stands in front of the checksum: extensions one after the other, each with an upper-case letter first. */
  ghost predicate OptionalOnly(s: bytes, check: bytes)
    decreases |s|
  {
    if |s| <= |check| then s == check
    else
      && |s| >= 8 && s[0] in [65, 66, 67, 68, 69, 70, 71, 72, 73, 74, 75, 76, 77, 78, 79, 80, 81, 82, 83, 84, 85, 86, 87, 88, 89, 90]
      && var size := 0x100_0000 * (s[4] as int) + 0x1_0000 * (s[5] as int) + 0x100 * (s[6] as int) + (s[7] as int);
         8 + size <= |s| && OptionalOnly(s[8 + size..], check)
  }

  lemma WordAt(s: bytes)
    requires |s| >= 8
    ensures FromU32(s[4..8]) == 0x100_0000 * (s[4] as int) + 0x1_0000 * (s[5] as int) + 0x100 * (s[6] as int) + (s[7] as int)
  {
    var w := s[4..8];
    assert w[..2] == [s[4], s[5]] && w[2..] == [s[6], s[7]];
  }

  lemma {:induction false} ExtensionsAccepted(s: bytes, size: nat)
    requires SkipExtensions(s, size).Some? && |SkipExtensions(s, size).value| == size
    ensures SuffixOf(SkipExtensions(s, size).value, s) && OptionalOnly(s, SkipExtensions(s, size).value)
    decreases |s|
  {
    hide Utf8, FromU32, SuffixOf;
    if |s| <= size {
      SuffixFrom(s, 0);
      assert s[0..] == s;
    } else {
      WordAt(s);
      var n := 8 + FromU32(s[4..8]);
      SuffixFrom(s, n);
      ExtensionsAccepted(s[n..], size);
      SuffixTwice(SkipExtensions(s, size).value, s[n..], s);
    }
  }

  /**
   A file is accepted only with the letters `DIRC`, version 2 or 3, as many distinct entries as its
   header says, nothing but optional extensions behind them, and a checksum over all that precedes it.
   */
  lemma AcceptedIsSound(kind: HashKind, digest: bytes -> bytes, s: bytes)
    requires ReadIndex(kind, digest, s).Ok?
    ensures var n := match kind case Sha1 => 20 case Sha256 => 32 case Blake3 => 32;
      && |s| >= 12 + n && s[..4] == [68, 73, 82, 67]
      && (s[4..8] == [0, 0, 0, 2] || s[4..8] == [0, 0, 0, 3])
      && digest(s[..|s| - n]) == s[|s| - n..]
      && |ReadIndex(kind, digest, s).entries| == FromU32(s[8..12])
      && exists rest :: SuffixOf(rest, s[12..]) && OptionalOnly(rest, s[|s| - n..])
           && ReadEntries(kind, s[12..], FromU32(s[8..12]), []) == Parsed(ReadIndex(kind, digest, s).entries, rest)
  {
    hide ReadEntries, SkipExtensions, SuffixOf, OptionalOnly, FromU32;
    VersionBytes(s[4..8]);
    var n, num := IdSize(kind), FromU32(s[8..12]);
    var rest := ReadEntries(kind, s[12..], num, []).rest;
    var check := SkipExtensions(rest, n).value;
    EntriesSuffix(kind, s[12..], num, []);
    ExtensionsAccepted(rest, n);
    SuffixTwice(check, rest, s[12..]);
    SuffixFrom(s, 12);
    SuffixTwice(check, s[12..], s);
    SuffixIs(check, s);
    SuffixIs(check, s[12..]);
  }

  lemma SuffixIs(rest: bytes, s: bytes)
    requires SuffixOf(rest, s)
    ensures |rest| <= |s| && rest == s[|s| - |rest|..]
  {
  }

  lemma VersionBytes(s: bytes)
    requires |s| == 4
    ensures FromU32(s) == 2 ==> s == [0, 0, 0, 2]
    ensures FromU32(s) == 3 ==> s == [0, 0, 0, 3]
  {
    assert s[..2] == [s[0], s[1]] && s[2..] == [s[2], s[3]];
  }

  // ---------------------------------------------------------------- where the fields lie

  /** The big-endian number at an offset. */
  ghost function NumberAt(s: bytes, k: nat): int
    requires k + 4 <= |s|
  {
    0x100_0000 * (s[k] as int) + 0x1_0000 * (s[k + 1] as int) + 0x100 * (s[k + 2] as int) + (s[k + 3] as int)
  }

  lemma {:induction false} NumbersAt(s: bytes, n: nat, i: nat)
    requires |s| == 4 * n && i < n
    ensures FromU32s(s, n)[i] == NumberAt(s, 4 * i)
    decreases n
  {
    if i == 0 {
      var w := s[..4];
      assert w[..2] == [s[0], s[1]] && w[2..] == [s[2], s[3]];
    } else {
      NumbersAt(s[4..], n - 1, i - 1);
    }
  }

  /** The ten numbers of an entry, in the order of gitformat-index(5). */
  lemma StatLayout(kind: HashKind, s: bytes)
    requires ReadEntry(kind, s).Parsed?
    ensures |s| >= 40 && var t := ReadEntry(kind, s).value.stat;
      && t.ctimeSeconds == NumberAt(s, 0) && t.ctimeNanos == NumberAt(s, 4)
      && t.mtimeSeconds == NumberAt(s, 8) && t.mtimeNanos == NumberAt(s, 12)
      && t.dev == NumberAt(s, 16) && t.ino == NumberAt(s, 20) && t.mode == NumberAt(s, 24)
      && t.uid == NumberAt(s, 28) && t.gid == NumberAt(s, 32) && t.size == NumberAt(s, 36)
  {
    hide ReadFlags, ReadName, FromU32s;
    var w := s[..40];
    forall i | 0 <= i < 10 ensures FromU32s(w, 10)[i] == NumberAt(s, 4 * i) {
      NumbersAt(w, 10, i);
    }
    var x := FromU32s(w, 10);
    assert x[0] == NumberAt(s, 4 * 0) && x[1] == NumberAt(s, 4 * 1) && x[2] == NumberAt(s, 4 * 2) && x[3] == NumberAt(s, 4 * 3);
    assert x[4] == NumberAt(s, 4 * 4) && x[5] == NumberAt(s, 4 * 5) && x[6] == NumberAt(s, 4 * 6) && x[7] == NumberAt(s, 4 * 7);
    assert x[8] == NumberAt(s, 4 * 8) && x[9] == NumberAt(s, 4 * 9);
  }

  /** Behind them the ID, then the flags: one bit each for assume-valid and extended, two for the stage, twelve for the length. */
  lemma FlagsLayout(kind: HashKind, s: bytes)
    requires ReadEntry(kind, s).Parsed?
    ensures var h, e := if kind == Sha1 then 60 else 72, ReadEntry(kind, s).value;
      && |s| >= h + 2 && e.id == ObjectId(kind, s[40..h])
      && var w := 0x100 * (s[h] as int) + (s[h + 1] as int);
         && w == (if e.flags.assumeValid then 0x8000 else 0) + (if e.flags.extended then 0x4000 else 0)
               + 0x1000 * (e.flags.stage as int) + (e.flags.nameLength as int)
         && 0 <= e.flags.stage <= 3 && 0 <= e.flags.nameLength < 0x1000
  {
    hide ReadName, FromU32s;
    var h := 40 + IdSize(kind);
    var t := s[h..];
    assert t[..2] == [s[h], s[h + 1]];
    WordBits(FromU16(t[..2]));
    hide Unpack, KnownExtended, Bit;
  }

  lemma WordBits(w: half)
    ensures var f := Unpack(w);
      && w == (if f.assumeValid then 0x8000 else 0) + (if f.extended then 0x4000 else 0) + 0x1000 * (f.stage as int) + (f.nameLength as int)
      && 0 <= f.stage <= 3 && 0 <= f.nameLength < 0x1000
  {
  }

  /** An extended entry has a second word: bit 14 for skip-worktree, bit 13 for intent-to-add, and no other. */
  lemma ExtendedLayout(kind: HashKind, s: bytes)
    requires ReadEntry(kind, s).Parsed? && ReadEntry(kind, s).value.flags.extended
    ensures var h, e := if kind == Sha1 then 62 else 74, ReadEntry(kind, s).value;
      && |s| >= h + 2
      && 0x100 * (s[h] as int) + (s[h + 1] as int) ==
           (if e.flags.skipWorktree then 0x4000 else 0) + (if e.flags.intentToAdd then 0x2000 else 0)
  {
    hide ReadName, FromU32s;
    var h := 42 + IdSize(kind);
    var t := s[40 + IdSize(kind)..];
    assert t[2..4] == [s[h], s[h + 1]];
    ExtendedBits(FromU16(t[2..4]));
    hide Unpack, KnownExtended, Bit;
  }

  lemma ExtendedBits(w: half)
    ensures KnownExtended(w) ==> w == (if Bit(w, 0x4000) then 0x4000 else 0) + (if Bit(w, 0x2000) then 0x2000 else 0)
  {
  }

  /** Names come in byte order, the stages of one name in ascending order. */
  lemma KeyOrder(a: Key, b: Key)
    ensures KeyLess(a, b) <==> (exists k: nat :: SplitAt(a.name, b.name, k)) || (a.name == b.name && a.stage < b.stage)
  {
    LessIff(a.name, b.name);
  }
}
