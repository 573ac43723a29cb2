/** The tables of a pack index, as docs/gitc/pack-write.c writes them from the objects sorted by ID. */
module PackIdx {
  import opened Basics
  import opened ByteOrder

  datatype PackObject = PackObject(oid: bytes, offset: nat)

  datatype Options = Options(version: nat, off32Limit: nat, anomaly: seq<nat>)

  /** Offsets the 32-bit table cannot or must not hold. The anomaly list is searched for the exact value. */
  predicate NeedsLarge(opts: Options, offset: nat) {
    offset >= 0x8000_0000 || opts.off32Limit < offset || offset in opts.anomaly
  }

  ghost predicate Sorted(objs: seq<PackObject>) {
    && (forall i :: 0 <= i < |objs| ==> objs[i].oid != [])
    && forall i, j :: 0 <= i < j < |objs| ==> !Less(objs[j].oid, objs[i].oid)
  }

  lemma FirstBytesAscend(objs: seq<PackObject>, i: nat, j: nat)
    requires Sorted(objs) && i <= j < |objs|
    ensures objs[i].oid[0] <= objs[j].oid[0]
  {
    if i < j { assert !Less(objs[j].oid, objs[i].oid); }
  }

  // ---------------------------------------------------------------- fan-out

  /** Where the objects of first byte `b` begin. */
  function FanStart(fan: seq<nat>, b: nat): nat
    requires b <= |fan|
  {
    if b == 0 then 0 else fan[b - 1]
  }

  /** Positions `lo` up to `hi` are exactly those of the objects whose ID starts with `b`. */
  ghost predicate Slice(objs: seq<PackObject>, lo: nat, hi: nat, b: nat) {
    && lo <= hi <= |objs|
    && forall i :: 0 <= i < |objs| ==> (lo <= i < hi <==> objs[i].oid != [] && objs[i].oid[0] == b)
  }

  ghost predicate FansOut(objs: seq<PackObject>, fan: seq<nat>) {
    forall b :: 0 <= b < |fan| ==> Slice(objs, FanStart(fan, b), fan[b], b)
  }

  /** Writes the first-level table by walking the objects once. */
  method WriteFanOut(objs: seq<PackObject>) returns (fan: seq<nat>)
    requires Sorted(objs)
    ensures |fan| == 256 && FansOut(objs, fan) && fan[255] == |objs|
  {
    fan := [];
    var list: nat := 0;
    for i := 0 to 256
      invariant |fan| == i && list == FanStart(fan, i) <= |objs|
      invariant Split(objs, list, i) && FansOut(objs, fan)
    {
      var next := list;
      while next < |objs| && objs[next].oid[0] == i
        invariant list <= next <= |objs|
        invariant forall k :: list <= k < next ==> objs[k].oid[0] == i
      {
        next := next + 1;
      }
      SplitNext(objs, list, next, i);
      FanNext(objs, fan, list, next);
      fan := fan + [next];
      list := next;
    }
    SplitAll(objs, list);
  }

  /** The objects in front of position `p` are those with a first byte below `b`. */
  ghost predicate Split(objs: seq<PackObject>, p: nat, b: nat) {
    p <= |objs| && forall i :: 0 <= i < |objs| && objs[i].oid != [] ==> (i < p <==> objs[i].oid[0] < b)
  }

  lemma SplitNext(objs: seq<PackObject>, list: nat, next: nat, b: nat)
    requires Sorted(objs) && Split(objs, list, b) && list <= next <= |objs|
    requires forall k :: list <= k < next ==> objs[k].oid[0] == b
    requires next < |objs| ==> objs[next].oid[0] != b
    ensures Split(objs, next, b + 1)
  {
    forall i | 0 <= i < |objs| ensures i < next <==> objs[i].oid[0] < b + 1 {
      if i >= next { FirstBytesAscend(objs, next, i); }
    }
  }

  lemma FanNext(objs: seq<PackObject>, fan: seq<nat>, list: nat, next: nat)
    requires Sorted(objs) && FansOut(objs, fan) && list == FanStart(fan, |fan|) <= next
    requires Split(objs, list, |fan|) && Split(objs, next, |fan| + 1)
    ensures FansOut(objs, fan + [next])
  {
    assert Slice(objs, list, next, |fan|);
    hide Slice, Split, Sorted;
    var more := fan + [next];
    forall b | 0 <= b < |more| ensures Slice(objs, FanStart(more, b), more[b], b) {
      assert b < |fan| ==> Slice(objs, FanStart(fan, b), fan[b], b);
    }
  }

  lemma SplitAll(objs: seq<PackObject>, p: nat)
    requires Sorted(objs) && Split(objs, p, 256)
    ensures p == |objs|
  {
    if objs != [] { assert objs[|objs| - 1].oid[0] < 256; }
  }

  // ---------------------------------------------------------------- offsets

  function LargeCount(objs: seq<PackObject>, opts: Options): nat {
    if objs == [] then 0 else (if NeedsLarge(opts, objs[0].offset) then 1 else 0) + LargeCount(objs[1..], opts)
  }

  lemma {:induction false} LargeCountSnoc(objs: seq<PackObject>, opts: Options, i: nat)
    requires i < |objs|
    ensures LargeCount(objs[..i + 1], opts) == LargeCount(objs[..i], opts) + if NeedsLarge(opts, objs[i].offset) then 1 else 0
    decreases i
  {
    hide NeedsLarge;
    var a, b := objs[..i + 1], objs[..i];
    if i > 0 {
      LargeCountSnoc(objs[1..], opts, i - 1);
      assert a[1..] == objs[1..][..i] && b[1..] == objs[1..][..i - 1];
    } else {
      assert a[1..] == [];
    }
  }

  lemma {:induction false} LargeCountBound(objs: seq<PackObject>, opts: Options)
    ensures LargeCount(objs, opts) <= |objs|
  {
    if objs != [] { LargeCountBound(objs[1..], opts); }
  }

  /** What a reader makes of the two tables: a set top bit leads into the second. */
  function Resolve(small: seq<nat>, large: seq<nat>, i: nat): Option<nat> {
    if i >= |small| then None
    else if small[i] < 0x8000_0000 then Some(small[i])
    else if small[i] - 0x8000_0000 < |large| then Some(large[small[i] - 0x8000_0000])
    else None
  }

  /** Entry `i` of the 32-bit table. */
  ghost predicate SmallEntry(objs: seq<PackObject>, opts: Options, i: nat, entry: nat)
    requires i < |objs|
  {
    if NeedsLarge(opts, objs[i].offset) then entry == 0x8000_0000 + LargeCount(objs[..i], opts)
    else entry == objs[i].offset < 0x8000_0000
  }

  /** The large offsets of the first `k` objects, in order. */
  ghost predicate LargeEntries(objs: seq<PackObject>, opts: Options, k: nat, large: seq<nat>) {
    && k <= |objs| && |large| == LargeCount(objs[..k], opts)
    && forall i :: 0 <= i < k && NeedsLarge(opts, objs[i].offset) ==>
         LargeCount(objs[..i], opts) < |large| && large[LargeCount(objs[..i], opts)] == objs[i].offset
  }

  /** Writes both offset tables: every entry fits in 32 bits, and every object resolves to its true offset. */
  method WriteOffsets(objs: seq<PackObject>, opts: Options) returns (small: seq<nat>, large: seq<nat>)
    requires |objs| < 0x8000_0000
    ensures |small| == |objs| && |large| == LargeCount(objs, opts)
    ensures forall i :: 0 <= i < |objs| ==> small[i] < 0x1_0000_0000 && Resolve(small, large, i) == Some(objs[i].offset)
    ensures forall i :: 0 <= i < |objs| ==> (small[i] >= 0x8000_0000 <==>
      objs[i].offset >= 0x8000_0000 || opts.off32Limit < objs[i].offset || objs[i].offset in opts.anomaly)
  {
    var count;
    small, count := WriteSmall(objs, opts);
    large := WriteLarge(objs, opts, count);
    hide LargeCount;
    assert objs[..|objs|] == objs;
    forall i | 0 <= i < |objs|
      ensures small[i] < 0x1_0000_0000 && Resolve(small, large, i) == Some(objs[i].offset)
      ensures small[i] >= 0x8000_0000 <==> NeedsLarge(opts, objs[i].offset)
    {
      assert SmallEntry(objs, opts, i, small[i]);
      LargeCountBound(objs[..i], opts);
    }
  }

  method WriteSmall(objs: seq<PackObject>, opts: Options) returns (small: seq<nat>, count: nat)
    requires |objs| < 0x8000_0000
    ensures |small| == |objs| && count == LargeCount(objs, opts)
    ensures forall i :: 0 <= i < |objs| ==> SmallEntry(objs, opts, i, small[i])
  {
    hide LargeCount;
    small, count := [], 0;
    NoneLarge(objs, opts);
    for i := 0 to |objs|
      invariant |small| == i && count == LargeCount(objs[..i], opts) <= i
      invariant forall j :: 0 <= j < i ==> SmallEntry(objs, opts, j, small[j])
    {
      LargeCountSnoc(objs, opts, i);
      if NeedsLarge(opts, objs[i].offset) {
        small := small + [0x8000_0000 + count];
        count := count + 1;
      } else {
        small := small + [objs[i].offset];
      }
    }
    assert objs[..|objs|] == objs;
  }

  /** Walks the objects until every large offset is out; the walk never leaves the list. */
  method WriteLarge(objs: seq<PackObject>, opts: Options, count: nat) returns (large: seq<nat>)
    requires count == LargeCount(objs, opts)
    ensures LargeEntries(objs, opts, |objs|, large)
  {
    hide LargeCount, LargeEntries, NeedsLarge;
    large := [];
    var list: nat, left := 0, count;
    NoneLarge(objs, opts);
    while left > 0
      invariant LargeEntries(objs, opts, list, large) && |large| + left == count && list <= |objs|
      decreases |objs| - list
    {
      StillInList(objs, opts, list, large, count);
      LargeStep(objs, opts, list, large);
      var offset := objs[list].offset;
      list := list + 1;
      if !NeedsLarge(opts, offset) { continue; }
      large := large + [offset];
      left := left - 1;
    }
    NoMoreLarge(objs, opts, list, large);
  }

  lemma NoneLarge(objs: seq<PackObject>, opts: Options)
    ensures LargeEntries(objs, opts, 0, []) && LargeCount(objs[..0], opts) == 0
  {
  }

  lemma StillInList(objs: seq<PackObject>, opts: Options, k: nat, large: seq<nat>, count: nat)
    requires LargeEntries(objs, opts, k, large) && |large| < count == LargeCount(objs, opts)
    ensures k < |objs|
  {
    assert objs[..|objs|] == objs;
  }

  lemma LargeStep(objs: seq<PackObject>, opts: Options, k: nat, large: seq<nat>)
    requires LargeEntries(objs, opts, k, large) && k < |objs|
    ensures NeedsLarge(opts, objs[k].offset) ==> LargeEntries(objs, opts, k + 1, large + [objs[k].offset])
    ensures !NeedsLarge(opts, objs[k].offset) ==> LargeEntries(objs, opts, k + 1, large)
  {
    hide NeedsLarge, LargeCount;
    LargeCountSnoc(objs, opts, k);
  }

  lemma {:induction false} NoMoreLarge(objs: seq<PackObject>, opts: Options, k: nat, large: seq<nat>)
    requires LargeEntries(objs, opts, k, large) && |large| == LargeCount(objs, opts)
    ensures LargeEntries(objs, opts, |objs|, large)
    decreases |objs| - k
  {
    hide NeedsLarge, LargeCount;
    assert objs[..|objs|] == objs;
    if k < |objs| {
      LargeCountSnoc(objs, opts, k);
      LargeCountGrows(objs, opts, k + 1);
      LargeStep(objs, opts, k, large);
      NoMoreLarge(objs, opts, k + 1, large);
    }
  }

  lemma {:induction false} LargeCountGrows(objs: seq<PackObject>, opts: Options, k: nat)
    requires k <= |objs|
    ensures LargeCount(objs[..k], opts) <= LargeCount(objs, opts)
    decreases |objs| - k
  {
    hide NeedsLarge, LargeCount;
    assert objs[..|objs|] == objs;
    if k < |objs| {
      LargeCountSnoc(objs, opts, k);
      LargeCountGrows(objs, opts, k + 1);
    }
  }

  /** The largest offset, 0 for an empty pack. */
  ghost predicate LastOffset(objs: seq<PackObject>, last: nat) {
    && (forall i :: 0 <= i < |objs| ==> objs[i].offset <= last)
    && (last == 0 || exists i :: 0 <= i < |objs| && objs[i].offset == last)
  }

  /** The requested version is used unless the largest offset needs the large table; then every offset of version 1 fits. */
  method PickVersion(objs: seq<PackObject>, opts: Options) returns (version: nat)
    ensures forall last: nat :: LastOffset(objs, last) ==>
      version == if last >= 0x8000_0000 || opts.off32Limit < last || last in opts.anomaly then 2 else opts.version
    ensures version < 2 ==> forall i :: 0 <= i < |objs| ==> objs[i].offset < 0x8000_0000 && objs[i].offset <= opts.off32Limit
  {
    var lastOffset: nat := 0;
    for i := 0 to |objs|
      invariant forall j :: 0 <= j < i ==> objs[j].offset <= lastOffset
      invariant lastOffset == 0 || exists j :: 0 <= j < i && objs[j].offset == lastOffset
    {
      if objs[i].offset > lastOffset { lastOffset := objs[i].offset; }
    }
    version := if NeedsLarge(opts, lastOffset) then 2 else opts.version;
    assert LastOffset(objs, lastOffset);
    assert forall last: nat :: LastOffset(objs, last) ==> last == lastOffset;
  }
}
