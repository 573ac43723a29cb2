/** Reader, writer and updates of src/internal/index.rs as they work on a file and on the entry map. */
module IndexStore {
  import opened Basics
  import opened Encoding
  import opened HashKinds
  import opened IndexFile

  /** A file being read: the bytes in front of `pos` have been hashed. */
  class Reader {
    const data: bytes
    var pos: nat

    constructor (data: bytes)
      ensures Valid() && this.data == data && Rest() == data && pos == 0
    {
      this.data, pos := data, 0;
    }

    ghost predicate Valid()
      reads this
    {
      pos <= |data|
    }

    ghost function Rest(): bytes
      requires Valid()
      reads this
    {
      data[pos..]
    }

    method ReadExact(n: nat) returns (r: Option<bytes>)
      requires Valid()
      modifies this
      ensures Valid()
      ensures r == if |old(Rest())| < n then None else Some(old(Rest())[..n])
      ensures r.Some? ==> Rest() == old(Rest())[n..] && pos == old(pos) + n
    {
      if |data| - pos < n { return None; }
      r := Some(data[pos..pos + n]);
      assert data[pos..][..n] == data[pos..pos + n] && data[pos..][n..] == data[pos + n..];
      pos := pos + n;
    }

    method ReadU16() returns (r: Option<half>)
      requires Valid()
      modifies this
      ensures Valid()
      ensures r == if |old(Rest())| < 2 then None else Some(FromU16(old(Rest())[..2]))
      ensures r.Some? ==> Rest() == old(Rest())[2..]
    {
      var b := ReadExact(2);
      if b.None? { return None; }
      return Some(FromU16(b.value));
    }

    method ReadU32() returns (r: Option<word>)
      requires Valid()
      modifies this
      ensures Valid()
      ensures r == if |old(Rest())| < 4 then None else Some(FromU32(old(Rest())[..4]))
      ensures r.Some? ==> Rest() == old(Rest())[4..]
    {
      var b := ReadExact(4);
      if b.None? { return None; }
      return Some(FromU32(b.value));
    }

    /** The ten numbers an entry starts with. */
    method ReadStat() returns (r: Option<Stat>)
      requires Valid()
      modifies this
      ensures Valid()
      ensures r == if |old(Rest())| < 40 then None else Some(StatOf(FromU32s(old(Rest())[..40], 10)))
      ensures r.Some? ==> Rest() == old(Rest())[40..]
    {
      hide FromU32, FromU32s;
      ghost var start := Rest();
      var words: seq<word> := [];
      NoWords(start[..0]);
      for i := 0 to 10
        invariant Valid() && 4 * i <= |start| && Rest() == start[4 * i..] && words == FromU32s(start[..4 * i], i)
      {
        var w := ReadU32();
        if w.None? { return None; }
        NextWord(start, i);
        words := words + [w.value];
      }
      return Some(StatOf(words));
    }

    method ReadFlagsWords() returns (r: Option<Flags>)
      requires Valid()
      modifies this
      ensures Valid()
      ensures match ReadFlags(old(Rest()))
        case Short => r.None?
        case Parsed(f, rest) => r == Some(f) && Rest() == rest
    {
      hide FromU16, KnownExtended, Bit;
      ghost var start := Rest();
      var w := ReadU16();
      if w.None? { return None; }
      var f := Unpack(w.value);
      if f.extended {
        var x := ReadU16();
        if x.None? { return None; }
        assert start[2..][..2] == start[2..4] && start[2..][2..] == start[4..];
        if !KnownExtended(x.value) { return None; }
        f := f.(skipWorktree := Bit(x.value, 0x4000), intentToAdd := Bit(x.value, 0x2000));
      }
      return Some(f);
    }

    method ReadNameBytes(kind: HashKind, f: Flags) returns (r: Option<bytes>)
      requires Valid()
      modifies this
      ensures Valid()
      ensures match ReadName(kind, f, old(Rest()))
        case Short => r.None?
        case Parsed(name, rest) => r == Some(name) && Rest() == rest
    {
      hide Utf8, Padding;
      ghost var start := Rest();
      var name := ReadExact(f.nameLength);
      if name.None? { return None; }
      if !Utf8(name.value) { return None; }
      var padding := Padding(kind, f.extended, f.nameLength);
      var skipped := ReadExact(padding);
      if skipped.None? { return None; }
      assert start[f.nameLength..][padding..] == start[f.nameLength + padding..];
      return name;
    }

    method ReadOneEntry(kind: HashKind) returns (r: Option<Entry>)
      requires Valid()
      modifies this
      ensures Valid()
      ensures match ReadEntry(kind, old(Rest()))
        case Short => r.None?
        case Parsed(e, rest) => r == Some(e) && Rest() == rest
    {
      hide ReadFlags, ReadName, FromU32s;
      ghost var start := Rest();
      var h := 40 + IdSize(kind);
      var stat := ReadStat();
      if stat.None? { return None; }
      var id := ReadExact(IdSize(kind));
      if id.None? { return None; }
      assert start[40..][..IdSize(kind)] == start[40..h] && start[40..][IdSize(kind)..] == start[h..];
      var flags := ReadFlagsWords();
      if flags.None? { return None; }
      var name := ReadNameBytes(kind, flags.value);
      if name.None? { return None; }
      return Some(Entry(stat.value, ObjectId(kind, id.value), flags.value, name.value));
    }

    /** Skips optional extensions until only the checksum is left. */
    method SkipAll(size: nat) returns (ok: bool)
      requires Valid()
      modifies this
      ensures Valid()
      ensures match SkipExtensions(old(Rest()), size)
        case None => !ok
        case Some(check) => ok && Rest() == check && |check| <= size
    {
      hide Utf8, FromU32;
      ghost var start := Rest();
      while pos + size < |data|
        invariant Valid() && SkipExtensions(start, size) == SkipExtensions(Rest(), size)
        decreases |data| - pos
      {
        ghost var here := Rest();
        var sign := ReadExact(4);
        if sign.None? || !Utf8(sign.value) { return false; }
        if !(65 <= sign.value[0] <= 90) { return false; }
        var length := ReadU32();
        if length.None? { return false; }
        assert here[4..][..4] == here[4..8] && here[4..][4..] == here[8..];
        var ignored := ReadExact(length.value);
        if ignored.None? { return false; }
        assert here[8..][length.value..] == here[8 + length.value..];
      }
      return true;
    }
  }

  lemma NoWords(s: bytes)
    requires s == []
    ensures FromU32s(s, 0) == []
  {
  }

  lemma FirstWord(a: bytes, n: nat)
    requires 4 * n == |a| && n > 0
    ensures FromU32s(a, n) == [FromU32(a[..4])] + FromU32s(a[4..], n - 1)
  {
    hide FromU32;
  }

  /** `a` holds `n + 1` words; the last of them is decoded last. */
  lemma {:induction false} FromU32sSnoc(a: bytes, n: nat)
    requires |a| == 4 * n + 4
    ensures FromU32s(a, n + 1) == FromU32s(a[..|a| - 4], n) + [FromU32(a[|a| - 4..])]
    decreases n
  {
    hide FromU32, FromU32s;
    var k := |a| - 4;
    FirstWord(a, n + 1);
    if n > 0 {
      FromU32sSnoc(a[4..], n - 1);
      FirstWord(a[..k], n);
      InnerSlices(a);
    } else {
      assert a[..4] == a && a[k..] == a;
      NoWords(a[..k]);
      NoWords(a[4..]);
    }
  }

  lemma InnerSlices(a: bytes)
    requires |a| >= 8
    ensures var k, t := |a| - 4, a[4..]; a[..k][..4] == a[..4] && a[..k][4..] == t[..|t| - 4] && t[|t| - 4..] == a[k..]
  {
  }

  lemma NextWord(s: bytes, n: nat)
    requires 4 * n + 4 <= |s|
    ensures FromU32s(s[..4 * n + 4], n + 1) == FromU32s(s[..4 * n], n) + [FromU32(s[4 * n..4 * n + 4])]
    ensures s[4 * n..][..4] == s[4 * n..4 * n + 4] && s[4 * n..][4..] == s[4 * n + 4..]
  {
    hide FromU32, FromU32s;
    var k := 4 * n;
    var a := s[..k + 4];
    FromU32sSnoc(a, n);
    assert a[..k] == s[..k] && a[k..] == s[k..k + 4];
    assert s[k..][..4] == s[k..k + 4] && s[k..][4..] == s[k + 4..];
  }

  /** Reads a whole index file. */
  method FromFile(kind: HashKind, digest: bytes -> bytes, data: bytes) returns (r: ReadResult)
    ensures r == ReadIndex(kind, digest, data)
  {
    hide ReadEntries, SkipExtensions, FromU32, Insert, ReadEntry;
    var file := new Reader(data);
    var header := ReadHeader(file);
    if header.None? { return Err; }
    var num := header.value;
    var body := ReadBody(kind, file, num);
    if body.None? { return Err; }
    var skipped := file.SkipAll(IdSize(kind));
    if !skipped { return Err; }
    var fileHash := digest(data[..file.pos]);
    ghost var rest := file.Rest();
    assert file.pos == |data| - |rest| && (|rest| == IdSize(kind) ==> rest[..IdSize(kind)] == rest);
    var check := file.ReadExact(IdSize(kind));
    if check.None? { return Err; }
    if fileHash != check.value { return Err; }
    if |body.value| != num { return Panic; }
    return Ok(body.value);
  }

  method ReadHeader(file: Reader) returns (num: Option<word>)
    requires file.Valid()
    modifies file
    ensures file.Valid()
    ensures var s := old(file.Rest());
      if |s| < 12 || s[..4] != MAGIC || (FromU32(s[4..8]) != 2 && FromU32(s[4..8]) != 3) then num.None?
      else num == Some(FromU32(s[8..12])) && file.Rest() == s[12..]
  {
    hide FromU32;
    ghost var s := file.Rest();
    var magic := file.ReadExact(4);
    if magic.None? || magic.value != MAGIC { return None; }
    var version := file.ReadU32();
    if version.None? { return None; }
    assert s[4..][..4] == s[4..8] && s[4..][4..] == s[8..];
    if version.value != 2 && version.value != 3 { return None; }
    num := file.ReadU32();
    assert |s| >= 12 ==> s[8..][..4] == s[8..12] && s[8..][4..] == s[12..];
  }

  method ReadBody(kind: HashKind, file: Reader, num: word) returns (r: Option<seq<Entry>>)
    requires file.Valid()
    modifies file
    ensures file.Valid()
    ensures match ReadEntries(kind, old(file.Rest()), num, [])
      case Short => r.None?
      case Parsed(es, rest) => r == Some(es) && file.Rest() == rest
  {
    hide ReadEntry, Insert;
    var es: seq<Entry> := [];
    for i := 0 to num
      invariant file.Valid()
      invariant ReadEntries(kind, old(file.Rest()), num, []) == ReadEntries(kind, file.Rest(), num - i, es)
    {
      var e := file.ReadOneEntry(kind);
      if e.None? { return None; }
      es := Insert(es, e.value);
    }
    return Some(es);
  }

  class Index {
    var entries: seq<Entry>

    ghost predicate Valid()
      reads this
    {
      Ordered(entries)
    }

    constructor ()
      ensures Valid() && Contents(entries) == map[]
    {
      entries := [];
    }

    method Add(e: Entry)
      requires Valid()
      modifies this
      ensures Valid() && Contents(entries) == old(Contents(entries))[KeyOf(e) := e]
    {
      InsertIsUpdate(entries, e);
      entries := Insert(entries, e);
    }

    method Remove(k: Key) returns (removed: Option<Entry>)
      requires Valid()
      modifies this
      ensures Valid() && Contents(entries) == old(Contents(entries)) - {k}
      ensures removed == if k in old(Contents(entries)) then Some(old(Contents(entries))[k]) else None
    {
      removed := Get(k);
      DeleteIsRemoval(entries, k);
      entries := Delete(entries, k);
    }

    method Get(k: Key) returns (found: Option<Entry>)
      requires Valid()
      ensures found == if k in Contents(entries) then Some(Contents(entries)[k]) else None
    {
      for i := 0 to |entries|
        invariant forall j :: 0 <= j < i ==> KeyOf(entries[j]) != k
      {
        if KeyOf(entries[i]) == k {
          ContentsAt(entries, i);
          return Some(entries[i]);
        }
      }
      ContentsNowhere(entries, k);
      return None;
    }

    /**
     Writes the index. The kinds are checked before the file is touched; an entry that cannot be
     packed stops the writer and leaves the header and the entries in front of it on disk.
     */
    method ToFile(kind: HashKind, digest: bytes -> bytes) returns (disk: Disk)
      ensures disk.Untouched? <==> !OneKind(kind, entries)
      ensures disk.Complete? <==> WriteIndex(kind, digest, entries).Some?
      ensures disk.Complete? ==> Some(disk.data) == WriteIndex(kind, digest, entries)
      ensures disk.Partial? ==>
        && disk.written < |entries| && WriteEntry(kind, entries[disk.written]).None?
        && WriteEntries(kind, entries[..disk.written]).Some?
        && disk.data == Header(entries) + WriteEntries(kind, entries[..disk.written]).value
    {
      hide WriteEntries, WriteEntry, Header;
      for i := 0 to |entries|
        invariant forall j :: 0 <= j < i ==> entries[j].id.kind == kind
      {
        if entries[i].id.kind != kind { return Untouched; }
      }
      var header := HeaderBytes();
      var body, written := BodyBytes(kind);
      if written < |entries| { return Partial(header + body, written); }
      assert entries[..|entries|] == entries;
      var out := header + body;
      return Complete(out + digest(out));
    }

    /** Version 3 as soon as one entry needs the extended word. */
    method HeaderBytes() returns (header: bytes)
      ensures header == Header(entries)
    {
      hide U32, HasExtended;
      var anyExtended := false;
      for i := 0 to |entries|
        invariant anyExtended == exists j :: 0 <= j < i && HasExtended(entries[j].flags)
      {
        if HasExtended(entries[i].flags) { anyExtended := true; }
      }
      header := MAGIC + U32(if anyExtended then 3 else 2) + U32(|entries| % 0x1_0000_0000);
    }

    /** The entries up to the first that cannot be packed. */
    method BodyBytes(kind: HashKind) returns (out: bytes, written: nat)
      ensures written <= |entries| && WriteEntries(kind, entries[..written]) == Some(out)
      ensures written < |entries| ==> WriteEntry(kind, entries[written]).None? && WriteEntries(kind, entries).None?
    {
      hide WriteEntry;
      out, written := [], 0;
      while written < |entries|
        invariant written <= |entries| && WriteEntries(kind, entries[..written]) == Some(out)
      {
        var next := WriteEntry(kind, entries[written]);
        if next.None? {
          UnwritableLost(kind, entries, written);
          return;
        }
        assert entries[..written + 1][..written] == entries[..written];
        out := out + next.value;
        written := written + 1;
      }
    }
  }

  /** What the writer leaves behind: nothing new, a file cut short behind `written` entries, or all of it. */
  datatype Disk = Untouched | Partial(data: bytes, written: nat) | Complete(data: bytes)

  lemma {:induction false} ContentsAt(es: seq<Entry>, i: nat)
    requires Ordered(es) && i < |es|
    ensures KeyOf(es[i]) in Contents(es) && Contents(es)[KeyOf(es[i])] == es[i]
  {
    hide KeyLess, KeyOf, Ordered;
    var n := |es| - 1;
    var front, last := es[..n], es[n];
    assert es == front + [last];
    OrderedSnoc(front, last);
    if i < n {
      ContentsAt(front, i);
      assert KeyLess(KeyOf(front[i]), KeyOf(last));
      KeyLessStrict(KeyOf(last));
    }
  }

  lemma {:induction false} ContentsNowhere(es: seq<Entry>, k: Key)
    requires forall i :: 0 <= i < |es| ==> KeyOf(es[i]) != k
    ensures k !in Contents(es)
  {
    if es != [] { ContentsNowhere(es[..|es| - 1], k); }
  }

  lemma {:induction false} UnwritableLost(kind: HashKind, es: seq<Entry>, i: nat)
    requires i < |es| && WriteEntry(kind, es[i]).None?
    ensures WriteEntries(kind, es).None?
  {
    hide WriteEntry;
    if i < |es| - 1 { UnwritableLost(kind, es[..|es| - 1], i); }
  }
}
