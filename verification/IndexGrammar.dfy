/**
 What an index file is, said without reading it: a header, entries with any bytes as padding,
 optional extensions and a checksum. The reader of src/internal/index.rs accepts exactly these.
 */
module IndexGrammar {
  import opened Basics
  import opened Encoding
  import opened HashKinds
  import opened IndexFile

  // ---------------------------------------------------------------- entries

  /** An entry and the bytes behind its name, which nobody looks at. */
  datatype Stored = Stored(entry: Entry, padding: bytes)

  ghost predicate IsStored(kind: HashKind, x: Stored) {
    && WellFormed(kind, x.entry) && NormalEntry(x.entry) == x.entry && WriteFlags(x.entry.flags).Some?
    && |x.padding| == Padding(kind, x.entry.flags.extended, |x.entry.name|)
  }

  ghost function StoredBytes(x: Stored): bytes {
    match WriteFlags(x.entry.flags)
    case None => []
    case Some(flags) => U32s(StatWords(x.entry.stat)) + x.entry.id.data + (flags + (x.entry.name + x.padding))
  }

  lemma StoredReads(kind: HashKind, x: Stored, rest: bytes)
    requires IsStored(kind, x)
    ensures ReadEntry(kind, StoredBytes(x) + rest) == Parsed(x.entry, rest)
  {
    hide WriteFlags, ReadFlags, Padding, U32s, FromU32s, HasExtended, Utf8;
    var e, h := x.entry, 40 + IdSize(kind);
    var words, flags := StatWords(e.stat), WriteFlags(e.flags).value;
    var tail := e.name + x.padding + rest;
    assert Normal(e.flags) == e.flags;
    FlagsRoundTrip(e.flags, tail);
    U32sRoundTrip(words);
    var s := StoredBytes(x) + rest;
    assert s == U32s(words) + e.id.data + (flags + tail);
    assert s[..40] == U32s(words) && s[40..h] == e.id.data && s[h..] == flags + tail;
    assert tail[..|e.name|] == e.name && tail[|e.name| + |x.padding|..] == rest;
  }

  lemma U32Inverse(s: bytes)
    requires |s| == 4
    ensures U32(FromU32(s)) == s
  {
    var a, b := FromU16(s[..2]), FromU16(s[2..]);
    var x := FromU32(s);
    assert x / 0x1_0000 == a && x % 0x1_0000 == b;
    U16Inverse(s[..2]);
    U16Inverse(s[2..]);
    hide U16, FromU16;
    assert s == s[..2] + s[2..];
  }

  lemma U16Inverse(s: bytes)
    requires |s| == 2
    ensures U16(FromU16(s)) == s
  {
  }

  lemma {:induction false} U32sInverse(s: bytes, n: nat)
    requires |s| == 4 * n
    ensures U32s(FromU32s(s, n)) == s
    decreases n
  {
    hide U32, FromU32;
    if n > 0 {
      U32Inverse(s[..4]);
      U32sInverse(s[4..], n - 1);
      assert FromU32s(s, n)[1..] == FromU32s(s[4..], n - 1);
      assert s == s[..4] + s[4..];
    }
  }

  /** The bytes of flags that were read are the ones that would be written. */
  lemma FlagsInverse(s: bytes)
    requires ReadFlags(s).Parsed?
    ensures var f := ReadFlags(s).value; WriteFlags(f).Some? && s == WriteFlags(f).value + ReadFlags(s).rest
  {
    hide Pack, Unpack, U16, FromU16, ExtendedWord, KnownExtended, Bit;
    var w := FromU16(s[..2]);
    var f := ReadFlags(s).value;
    StageRead(s);
    U16Inverse(s[..2]);
    WordUnpacked(w);
    WordPacked(w, f);
    if f.extended {
      ExtendedPacked(FromU16(s[2..4]), f);
      U16Inverse(s[2..4]);
      assert s == s[..2] + s[2..4] + s[4..];
    } else {
      assert s == s[..2] + s[2..];
    }
  }

  lemma WordUnpacked(w: half)
    ensures !Unpack(w).skipWorktree && !Unpack(w).intentToAdd
  {
  }

  lemma WordPacked(w: half, f: Flags)
    requires f.(skipWorktree := false, intentToAdd := false) == Unpack(w)
    ensures Pack(f) == Some(w)
  {
    WordBits(w);
  }

  lemma ExtendedPacked(w: half, f: Flags)
    requires KnownExtended(w) && f.skipWorktree == Bit(w, 0x4000) && f.intentToAdd == Bit(w, 0x2000)
    ensures ExtendedWord(f) == w
  {
    ExtendedBits(w);
  }

  /** Every entry that is read stands there with some padding. */
  lemma ReadIsStored(kind: HashKind, s: bytes) returns (x: Stored)
    requires ReadEntry(kind, s).Parsed?
    ensures IsStored(kind, x) && x.entry == ReadEntry(kind, s).value && s == StoredBytes(x) + ReadEntry(kind, s).rest
  {
    EntryReadWell(kind, s);
    hide ReadFlags, WriteFlags, Padding, Utf8, U32s, FromU32s, HasExtended, WellFormed, StatOf, StatWords;
    var h := 40 + IdSize(kind);
    FlagsInverse(s[h..]);
    U32sInverse(s[..40], 10);
    StatWordsOf(FromU32s(s[..40], 10));
    var f, t := ReadFlags(s[h..]).value, ReadFlags(s[h..]).rest;
    var n := f.nameLength;
    var p := n + Padding(kind, f.extended, n);
    x := Stored(ReadEntry(kind, s).value, t[n..p]);
    EntryJoined(s, h, WriteFlags(f).value, t, n, p);
  }

  lemma EntryJoined(s: bytes, h: nat, flags: bytes, t: bytes, n: nat, p: nat)
    requires 40 <= h <= |s| && s[h..] == flags + t && n <= p <= |t|
    ensures s == s[..40] + s[40..h] + (flags + (t[..n] + t[n..p])) + t[p..]
  {
    assert t == t[..n] + t[n..p] + t[p..];
    assert s == s[..40] + s[40..h] + s[h..];
  }

  lemma StatWordsOf(w: seq<word>)
    requires |w| == 10
    ensures StatWords(StatOf(w)) == w
  {
  }

  // ---------------------------------------------------------------- all entries

  ghost predicate AllStored(kind: HashKind, xs: seq<Stored>) {
    forall i :: 0 <= i < |xs| ==> IsStored(kind, xs[i])
  }

  ghost function EntryBytes(kind: HashKind, xs: seq<Stored>): bytes
    requires AllStored(kind, xs)
  {
    if xs == [] then [] else EntryBytes(kind, xs[..|xs| - 1]) + StoredBytes(xs[|xs| - 1])
  }

  ghost function EntriesOf(xs: seq<Stored>): (es: seq<Entry>)
    ensures |es| == |xs| && forall i :: 0 <= i < |es| ==> es[i] == xs[i].entry
  {
    seq(|xs|, i requires 0 <= i < |xs| => xs[i].entry)
  }

  /** The map the reader builds, one entry after the other. */
  ghost function InsertAll(es: seq<Entry>): seq<Entry> {
    if es == [] then [] else Insert(InsertAll(es[..|es| - 1]), es[|es| - 1])
  }

  lemma InsertAllSnoc(es: seq<Entry>, e: Entry)
    ensures InsertAll(es + [e]) == Insert(InsertAll(es), e)
  {
    assert (es + [e])[..|es|] == es;
  }

  lemma {:induction false} AllStoredRead(kind: HashKind, xs: seq<Stored>, rest: bytes)
    requires AllStored(kind, xs)
    ensures ReadEntries(kind, EntryBytes(kind, xs) + rest, |xs|, []) == Parsed(InsertAll(EntriesOf(xs)), rest)
    decreases |xs|
  {
    hide ReadEntry, Insert, IsStored, StoredBytes, InsertAll;
    if xs == [] {
      assert [] + rest == rest;
      NothingInserted();
    } else {
      var n := |xs| - 1;
      var front, last := xs[..n], xs[n];
      var a, b := EntryBytes(kind, front), StoredBytes(last);
      StoredReads(kind, last, rest);
      AllStoredRead(kind, front, b + rest);
      assert EntryBytes(kind, xs) + rest == a + (b + rest);
      ReadEntriesAppend(kind, a + (b + rest), n, []);
      assert EntriesOf(xs) == EntriesOf(front) + [last.entry];
      InsertAllSnoc(EntriesOf(front), last.entry);
    }
  }

  lemma NothingInserted()
    ensures InsertAll(EntriesOf([])) == []
  {
  }

  lemma {:induction false} ReadAreStored(kind: HashKind, s: bytes, num: nat) returns (xs: seq<Stored>)
    requires ReadEntries(kind, s, num, []).Parsed?
    ensures |xs| == num && AllStored(kind, xs)
    ensures s == EntryBytes(kind, xs) + ReadEntries(kind, s, num, []).rest
    ensures ReadEntries(kind, s, num, []).value == InsertAll(EntriesOf(xs))
    decreases num
  {
    hide ReadEntry, Insert, IsStored, StoredBytes, InsertAll;
    if num == 0 {
      xs := [];
      NothingInserted();
      assert s == [] + s;
    } else {
      ReadEntriesAppend(kind, s, num - 1, []);
      var front := ReadAreStored(kind, s, num - 1);
      var rest := ReadEntries(kind, s, num - 1, []).rest;
      var last := ReadIsStored(kind, rest);
      xs := front + [last];
      assert xs[..num - 1] == front;
      EntryBytesSnoc(kind, front, last);
      assert EntryBytes(kind, front) + (StoredBytes(last) + ReadEntry(kind, rest).rest)
          == EntryBytes(kind, front) + StoredBytes(last) + ReadEntry(kind, rest).rest;
      assert EntriesOf(xs) == EntriesOf(front) + [last.entry];
      InsertAllSnoc(EntriesOf(front), last.entry);
    }
  }

  lemma EntryBytesSnoc(kind: HashKind, xs: seq<Stored>, x: Stored)
    requires AllStored(kind, xs) && IsStored(kind, x)
    ensures AllStored(kind, xs + [x]) && EntryBytes(kind, xs + [x]) == EntryBytes(kind, xs) + StoredBytes(x)
  {
    hide IsStored, StoredBytes;
    assert (xs + [x])[..|xs|] == xs;
  }

  // ---------------------------------------------------------------- the map

  /** No two entries have the same name and stage. */
  ghost predicate OwnKeys(es: seq<Entry>) {
    forall i, j :: 0 <= i < j < |es| ==> KeyOf(es[i]) != KeyOf(es[j])
  }

  lemma {:induction false} ContentsKeys(es: seq<Entry>, k: Key)
    ensures k in Contents(es) <==> exists i :: 0 <= i < |es| && KeyOf(es[i]) == k
    ensures |Contents(es)| <= |es|
  {
    hide KeyOf;
    if es != [] {
      var n := |es| - 1;
      ContentsKeys(es[..n], k);
      MapGrows(Contents(es[..n]), KeyOf(es[n]), es[n]);
      if i :| 0 <= i < n && KeyOf(es[i]) == k { assert KeyOf(es[..n][i]) == k; }
    }
  }

  lemma MapGrows(m: map<Key, Entry>, k: Key, e: Entry)
    ensures |m[k := e]| == if k in m then |m| else |m| + 1
  {
    var m' := m[k := e];
    if k in m {
      assert m'.Keys == m.Keys;
    } else {
      assert m'.Keys == m.Keys + {k};
    }
    assert |m'| == |m'.Keys| && |m| == |m.Keys|;
  }

  lemma {:induction false} OwnKeysCounted(es: seq<Entry>)
    ensures OwnKeys(es) <==> |Contents(es)| == |es|
  {
    hide KeyOf;
    if es != [] {
      var n := |es| - 1;
      var front, last := es[..n], es[n];
      OwnKeysCounted(front);
      ContentsKeys(front, KeyOf(last));
      MapGrows(Contents(front), KeyOf(last), last);
      hide Contents;
      if OwnKeys(front) && KeyOf(last) !in Contents(front) {
        forall i, j | 0 <= i < j < |es| ensures KeyOf(es[i]) != KeyOf(es[j]) {
          assert KeyOf(front[i]) != KeyOf(last);
          if j < n { assert KeyOf(front[i]) != KeyOf(front[j]); }
        }
      }
      if OwnKeys(es) {
        forall i | 0 <= i < n ensures KeyOf(front[i]) != KeyOf(last) { assert KeyOf(es[i]) != KeyOf(es[n]); }
        forall i, j | 0 <= i < j < n ensures KeyOf(front[i]) != KeyOf(front[j]) { assert KeyOf(es[i]) != KeyOf(es[j]); }
      }
    }
  }

  lemma OrderedOwn(es: seq<Entry>)
    requires Ordered(es)
    ensures OwnKeys(es)
  {
    hide KeyLess, KeyOf;
    forall i, j | 0 <= i < j < |es| ensures KeyOf(es[i]) != KeyOf(es[j]) {
      KeyLessStrict(KeyOf(es[i]));
      assert KeyLess(KeyOf(es[i]), KeyOf(es[j]));
    }
  }

  lemma {:induction false} InsertAllIs(es: seq<Entry>)
    ensures Ordered(InsertAll(es)) && Contents(InsertAll(es)) == Contents(es)
  {
    hide Insert, KeyOf, Ordered;
    if es == [] {
      EmptyOrdered();
    } else {
      var n := |es| - 1;
      InsertAllIs(es[..n]);
      InsertIsUpdate(InsertAll(es[..n]), es[n]);
    }
  }

  lemma EmptyOrdered()
    ensures Ordered([])
  {
  }

  /** The map decides the list that is in order. */
  lemma {:induction false} OrderedUnique(a: seq<Entry>, b: seq<Entry>)
    requires Ordered(a) && Ordered(b) && Contents(a) == Contents(b)
    ensures a == b
    decreases |a|
  {
    hide KeyLess, KeyOf;
    OrderedOwn(a);
    OrderedOwn(b);
    OwnKeysCounted(a);
    OwnKeysCounted(b);
    hide Contents, Ordered;
    if a != [] {
      var n := |a| - 1;
      var x, y := a[n], b[n];
      LastIsLeastAbove(a, b);
      LastIsLeastAbove(b, a);
      if KeyOf(x) != KeyOf(y) { KeyLessTransitive(KeyOf(x), KeyOf(y), KeyOf(x)); KeyLessStrict(KeyOf(x)); }
      assert a == a[..n] + [x] && b == b[..n] + [y];
      FrontContents(a[..n], x);
      FrontContents(b[..n], y);
      OrderedUnique(a[..n], b[..n]);
    }
  }

  lemma LastIsLeastAbove(a: seq<Entry>, b: seq<Entry>)
    requires a != [] && b != [] && Ordered(b) && Contents(a) == Contents(b)
    ensures var x, y := KeyOf(a[|a| - 1]), KeyOf(b[|b| - 1]); x == y || KeyLess(x, y)
  {
    hide KeyLess, KeyOf, Contents;
    var x := KeyOf(a[|a| - 1]);
    ContentsKeys(a, x);
    ContentsKeys(b, x);
    var i :| 0 <= i < |b| && KeyOf(b[i]) == x;
    if i < |b| - 1 { assert KeyLess(KeyOf(b[i]), KeyOf(b[|b| - 1])); }
  }

  lemma FrontContents(front: seq<Entry>, last: Entry)
    requires Ordered(front + [last])
    ensures Ordered(front)
    ensures var all := Contents(front + [last]); KeyOf(last) in all && all[KeyOf(last)] == last && Contents(front) == all - {KeyOf(last)}
  {
    hide KeyOf, Contents, Ordered;
    LastKeyNew(front, last);
    ContentsSnoc(front, last);
    TakenBack(Contents(front), KeyOf(last), last);
  }

  lemma TakenBack(m: map<Key, Entry>, k: Key, e: Entry)
    requires k !in m
    ensures m[k := e] - {k} == m
  {
  }

  lemma LastKeyNew(front: seq<Entry>, last: Entry)
    requires Ordered(front + [last])
    ensures Ordered(front) && KeyOf(last) !in Contents(front)
  {
    hide KeyLess, KeyOf, Contents;
    OrderedSnoc(front, last);
    ContentsKeys(front, KeyOf(last));
    KeyLessStrict(KeyOf(last));
  }

  // ---------------------------------------------------------------- extensions

  ghost predicate AllOptional(xs: seq<Extension>) {
    forall i :: 0 <= i < |xs| ==> Optional(xs[i])
  }

  lemma {:induction false} SkippedAreOptional(s: bytes, size: nat) returns (xs: seq<Extension>)
    requires SkipExtensions(s, size).Some? && |SkipExtensions(s, size).value| == size
    ensures AllOptional(xs) && s == ExtensionBytes(xs) + SkipExtensions(s, size).value
    decreases |s|
  {
    hide Utf8, U32, FromU32, ExtensionBytes;
    if |s| <= size {
      xs := [];
      NoExtensions(s);
    } else {
      var n := FromU32(s[4..8]);
      var x, rest := Extension(s[..4], s[8..8 + n]), s[8 + n..];
      var more := SkippedAreOptional(rest, size);
      U32Inverse(s[4..8]);
      xs := [x] + more;
      OneMoreExtension(x, more, SkipExtensions(rest, size).value);
      assert Optional(x);
      hide SkipExtensions, Optional;
      ExtensionJoined(s, n);
    }
  }

  lemma NoExtensions(s: bytes)
    ensures s == ExtensionBytes([]) + s
  {
  }

  lemma OneMoreExtension(x: Extension, more: seq<Extension>, check: bytes)
    requires |x.data| < 0x1_0000_0000
    ensures ExtensionBytes([x] + more) + check == x.sign + U32(|x.data|) + x.data + (ExtensionBytes(more) + check)
  {
    hide U32;
    assert ([x] + more)[1..] == more;
  }

  lemma ExtensionJoined(s: bytes, n: nat)
    requires 8 + n <= |s|
    ensures s == s[..4] + s[4..8] + s[8..8 + n] + s[8 + n..]
  {
  }

  // ---------------------------------------------------------------- the file

  /** The file made of these entries and extensions, with its checksum. */
  ghost predicate IsIndex(kind: HashKind, digest: bytes -> bytes, s: bytes, version: byte, xs: seq<Stored>, extensions: seq<Extension>) {
    && (version == 2 || version == 3) && |xs| < 0x1_0000_0000 && AllStored(kind, xs) && AllOptional(extensions)
    && var front := [68, 73, 82, 67, 0, 0, 0, version] + U32(|xs|) + EntryBytes(kind, xs) + ExtensionBytes(extensions);
       s == front + digest(front) && |digest(front)| == IdSize(kind)
  }

  /** What the reader makes of a file of the grammar. */
  lemma IndexReads(kind: HashKind, digest: bytes -> bytes, s: bytes, version: byte, xs: seq<Stored>, extensions: seq<Extension>)
    requires IsIndex(kind, digest, s, version, xs, extensions)
    ensures var es := InsertAll(EntriesOf(xs)); ReadIndex(kind, digest, s) == if |es| == |xs| then Ok(es) else Panic
  {
    hide ReadEntries, SkipExtensions, U32, FromU32, EntryBytes, ExtensionBytes, AllStored, AllOptional, InsertAll, EntriesOf;
    var body, extra := EntryBytes(kind, xs), ExtensionBytes(extensions);
    var head: bytes := [68, 73, 82, 67, 0, 0, 0, version];
    var front := head + U32(|xs|) + body + extra;
    var check := digest(front);
    AllStoredRead(kind, xs, extra + check);
    AllOptionalSkipped(extensions, check);
    U32Size(|xs|);
    U32RoundTrip(|xs|);
    VersionRead(version);
    assert s == head + U32(|xs|) + (body + (extra + check));
    assert s[..4] == [68, 73, 82, 67] && s[4..8] == [0, 0, 0, version] && s[8..12] == U32(|xs|) && s[12..] == body + (extra + check);
    assert s[..|s| - |check|] == front;
  }

  lemma AllOptionalSkipped(xs: seq<Extension>, check: bytes)
    requires AllOptional(xs)
    ensures SkipExtensions(ExtensionBytes(xs) + check, |check|) == Some(check)
  {
    ExtensionsSkipped(xs, check, |check|);
  }

  lemma VersionRead(v: byte)
    ensures FromU32([0, 0, 0, v]) == v
  {
    var s: bytes := [0, 0, 0, v];
    assert s[..2] == [0, 0] && s[2..] == [0, v];
  }

  /** A file that is not refused is one of the grammar. */
  lemma ReadIsIndex(kind: HashKind, digest: bytes -> bytes, s: bytes)
      returns (version: byte, xs: seq<Stored>, extensions: seq<Extension>)
    requires ReadIndex(kind, digest, s) != Err
    ensures IsIndex(kind, digest, s, version, xs, extensions)
  {
    hide ReadEntries, SkipExtensions, U32, FromU32, EntryBytes, ExtensionBytes, AllStored, AllOptional, InsertAll, EntriesOf, StoredBytes;
    var num, n := FromU32(s[8..12]), IdSize(kind);
    xs := ReadAreStored(kind, s[12..], num);
    var rest := ReadEntries(kind, s[12..], num, []).rest;
    var check := SkipExtensions(rest, n).value;
    extensions := SkippedAreOptional(rest, n);
    VersionBytes(s[4..8]);
    version := FromU32(s[4..8]);
    U32Inverse(s[8..12]);
    var head: bytes := [68, 73, 82, 67, 0, 0, 0, version];
    var front := head + U32(num) + EntryBytes(kind, xs) + ExtensionBytes(extensions);
    assert s[..4] + s[4..8] == head;
    FileJoined(s, head, EntryBytes(kind, xs), ExtensionBytes(extensions), check);
    assert s[..|s| - |check|] == front;
  }

  lemma FileJoined(s: bytes, head: bytes, body: bytes, extra: bytes, check: bytes)
    requires |s| >= 12 && s[..4] + s[4..8] == head && s[12..] == body + (extra + check)
    ensures s == head + s[8..12] + body + extra + check
  {
    assert s == s[..4] + s[4..8] + s[8..12] + s[12..];
  }

  /**
   The reader accepts a file with these entries exactly when the file is a header, stored entries with
   different keys, optional extensions and the digest of all that, and the entries are the stored ones
   in order. It panics exactly when the same is true but for two entries with one key.
   */
  lemma AcceptsTheGrammar(kind: HashKind, digest: bytes -> bytes, s: bytes, es: seq<Entry>)
    ensures ReadIndex(kind, digest, s) == Ok(es) <==>
      && Ordered(es)
      && exists version, xs, extensions :: IsIndex(kind, digest, s, version, xs, extensions)
           && OwnKeys(EntriesOf(xs)) && Contents(EntriesOf(xs)) == Contents(es)
    ensures ReadIndex(kind, digest, s) == Panic <==>
      exists version, xs, extensions :: IsIndex(kind, digest, s, version, xs, extensions) && !OwnKeys(EntriesOf(xs))
  {
    hide IsIndex, ReadIndex, Ordered, Contents, OwnKeys, EntriesOf;
    if ReadIndex(kind, digest, s) != Err {
      var version, xs, extensions := ReadIsIndex(kind, digest, s);
      ReadAs(kind, digest, s, version, xs, extensions, es);
    }
    forall version, xs, extensions | IsIndex(kind, digest, s, version, xs, extensions)
      ensures ReadIndex(kind, digest, s) == Panic <==> !OwnKeys(EntriesOf(xs))
      ensures ReadIndex(kind, digest, s) == Ok(es) <==> OwnKeys(EntriesOf(xs)) && Ordered(es) && Contents(EntriesOf(xs)) == Contents(es)
    {
      ReadAs(kind, digest, s, version, xs, extensions, es);
    }
  }

  lemma ReadAs(kind: HashKind, digest: bytes -> bytes, s: bytes, version: byte, xs: seq<Stored>, extensions: seq<Extension>, es: seq<Entry>)
    requires IsIndex(kind, digest, s, version, xs, extensions)
    ensures ReadIndex(kind, digest, s) == Panic <==> !OwnKeys(EntriesOf(xs))
    ensures ReadIndex(kind, digest, s) == Ok(es) <==> OwnKeys(EntriesOf(xs)) && Ordered(es) && Contents(EntriesOf(xs)) == Contents(es)
  {
    hide ReadIndex, Ordered, Contents, OwnKeys, InsertAll, IsIndex;
    var all := EntriesOf(xs);
    var r := InsertAll(all);
    IndexReads(kind, digest, s, version, xs, extensions);
    InsertAllIs(all);
    OwnKeysCounted(all);
    OrderedOwn(r);
    OwnKeysCounted(r);
    if Ordered(es) && Contents(all) == Contents(es) { OrderedUnique(r, es); }
  }
}
