/**
 Git's own delta encoder, `create_delta` of docs/gitc/diff-delta.c, which the crate keeps as the
 reference for its pack encoder. The output buffer is a sequence of the allocated length that is
 updated in place, so every write is checked to lie inside the allocation.
 */
module GitDelta {
  import opened Basics
  import opened DeltaFormat
  import opened DeltaEncode

  const RABIN_WINDOW: nat := 16
  const MAX_OP_SIZE: nat := 5 + 5 + 1 + RABIN_WINDOW + 7
  const COPY_LIMIT: nat := 0x10000
  const GOOD_ENOUGH: nat := 4096

  /** Both sizes of a delta take at most twelve bytes below this bound. */
  const BUFFER_BOUND: nat := 0x400_0000_0000

  /**
   Sizes the first allocation has room for. Without a bound, or with one of at least 9 bytes, every
   size does; under a smaller bound the two sizes in front of the delta have to be short.
   */
  predicate HasRoom(srcSize: nat, trgSize: nat, maxSize: nat) {
    && srcSize < USIZE_BOUND && trgSize < USIZE_BOUND
    && (maxSize > 0 ==> |VarintBytes(srcSize)| + |VarintBytes(trgSize)| <= 11 + maxSize)
  }

  /** Every size up to 2^42 has room under every bound, and every size under most. */
  lemma RoomMostly(srcSize: nat, trgSize: nat, maxSize: nat)
    requires srcSize < USIZE_BOUND && trgSize < USIZE_BOUND
    ensures maxSize == 0 || maxSize >= 9 || (srcSize < BUFFER_BOUND && trgSize < BUFFER_BOUND) ==> HasRoom(srcSize, trgSize, maxSize)
  {
    hide VarintBytes;
    LongestSize(srcSize);
    LongestSize(trgSize);
    if srcSize < BUFFER_BOUND && trgSize < BUFFER_BOUND {
      HeaderLength(srcSize);
      HeaderLength(trgSize);
    }
  }

  lemma LongestSize(n: nat)
    requires n < USIZE_BOUND
    ensures |VarintBytes(n)| <= 10
  {
    UsizeBoundIsPow2();
    hide Pow2, VarintBytes;
    VarintBytesLength(n, 10);
  }

  /** The rolling hash, one byte in or one byte out. Nothing below depends on what it computes. */
  datatype Rabin = Rabin(push: (nat, byte) -> nat, pop: (nat, byte) -> nat)

  /** Hash of a stretch of bytes. */
  function HashOf(rabin: Rabin, val: nat, s: bytes): nat
    decreases |s|
  {
    if s == [] then val else HashOf(rabin, rabin.push(val, s[0]), s[1..])
  }

  lemma {:induction false} HashSnoc(rabin: Rabin, val: nat, s: bytes, b: byte)
    ensures HashOf(rabin, val, s + [b]) == rabin.push(HashOf(rabin, val, s), b)
    decreases |s|
  {
    var all := s + [b];
    if s == [] {
      assert all[1..] == [] && all[0] == b;
      assert HashOf(rabin, rabin.push(val, b), []) == rabin.push(val, b);
    } else {
      HashSnoc(rabin, rabin.push(val, s[0]), s[1..], b);
      assert all[1..] == s[1..] + [b] && all[0] == s[0];
    }
  }

  /** Hashes the bytes from `lo` up to `hi`. */
  method HashRange(rabin: Rabin, s: bytes, lo: nat, hi: nat) returns (val: nat)
    requires lo <= hi <= |s|
    ensures val == HashOf(rabin, 0, s[lo..hi])
  {
    val := 0;
    for j := lo to hi
      invariant HashOf(rabin, val, s[j..hi]) == HashOf(rabin, 0, s[lo..hi])
    {
      assert s[j..hi][0] == s[j] && s[j..hi][1..] == s[j + 1..hi];
      val := rabin.push(val, s[j]);
    }
  }

  datatype IndexEntry = IndexEntry(ptr: nat, val: nat)

  /** The packed index: bucket `i` is the stretch of `entries` from `hash[i]` to `hash[i + 1]`. */
  datatype DeltaIndex = DeltaIndex(src: bytes, entries: seq<IndexEntry>, hash: seq<nat>) {
    ghost predicate Packed() {
      && |hash| > 1 && hash[|hash| - 1] <= |entries|
      && forall i, j :: 0 <= i <= j < |hash| ==> hash[i] <= hash[j]
    }

    function Bucket(i: nat): seq<IndexEntry>
      requires Packed() && i + 1 < |hash|
    {
      entries[hash[i]..hash[i + 1]]
    }
  }

  /** Entries point into the source at offsets the format can express; nothing else is asked of them. */
  ghost predicate IndexInRange(index: DeltaIndex) {
    index.Packed() && forall e :: 0 <= e < |index.entries| ==> EntryInRange(index.entries[e], index.src)
  }

  predicate EntryInRange(entry: IndexEntry, src: bytes) {
    entry.ptr <= |src| && entry.ptr < OFFSET_BOUND
  }

  // ---------------------------------------------------------------- matches

  /** `size` bytes of the source at `offset` occur in the target at `data`. */
  predicate Matches(src: bytes, trg: bytes, offset: nat, data: nat, size: nat) {
    && offset + size <= |src| && data + size <= |trg|
    && src[offset..offset + size] == trg[data..data + size]
  }

  /** The best match so far: none, or one the format can express. */
  predicate Candidate(src: bytes, trg: bytes, offset: nat, data: nat, size: nat) {
    size > 0 ==> Matches(src, trg, offset, data, size) && offset < OFFSET_BOUND
  }

  /** Length of the common run at `ptr` and `data`, looking at no more than `limit` bytes. */
  method CommonRun(src: bytes, trg: bytes, ptr: nat, data: nat, limit: nat) returns (n: nat)
    requires ptr + limit <= |src| && data + limit <= |trg|
    ensures n <= limit && Matches(src, trg, ptr, data, n)
    ensures n < limit ==> src[ptr + n] != trg[data + n]
  {
    n := 0;
    while n < limit && trg[data + n] == src[ptr + n]
      invariant n <= limit
      invariant Matches(src, trg, ptr, data, n)
    {
      MatchForward(src, trg, ptr, data, n);
      n := n + 1;
    }
  }

  /** Positions in a bucket ascend, as the index builder leaves them. */
  ghost predicate Ascends(bucket: seq<IndexEntry>) {
    forall i, j :: 0 <= i < j < |bucket| ==> bucket[i].ptr < bucket[j].ptr
  }

  /** No entry of this hash among the first `upto` matches more than `size` bytes at `data`. */
  ghost predicate NoneLonger(src: bytes, trg: bytes, bucket: seq<IndexEntry>, upto: nat, val: nat, data: nat, size: nat)
    requires upto <= |bucket|
  {
    forall e :: 0 <= e < upto && bucket[e].val == val ==> !Matches(src, trg, bucket[e].ptr, data, size + 1)
  }

  /**
   Tries the entries of a bucket, keeping the longest match. Unless one is good enough the whole
   bucket has been tried: the entries behind an early end are too close to the end of the source.
   */
  method FindMatch(src: bytes, trg: bytes, bucket: seq<IndexEntry>, val: nat, data: nat, moff0: nat, msize0: nat)
      returns (moff: nat, msize: nat)
    requires data <= |trg|
    requires forall e :: 0 <= e < |bucket| ==> EntryInRange(bucket[e], src)
    requires Candidate(src, trg, moff0, data, msize0)
    ensures Candidate(src, trg, moff, data, msize) && msize >= msize0
    ensures |src| < OFFSET_BOUND && Ascends(bucket) && msize < GOOD_ENOUGH ==> NoneLonger(src, trg, bucket, |bucket|, val, data, msize)
  {
    hide NoneLonger, Matches, Ascends;
    moff, msize := moff0, msize0;
    NothingTried(src, trg, bucket, val, data, msize);
    for i := 0 to |bucket|
      invariant Candidate(src, trg, moff, data, msize) && msize >= msize0
      invariant |src| < OFFSET_BOUND && msize < GOOD_ENOUGH ==> NoneLonger(src, trg, bucket, i, val, data, msize)
    {
      var entry := bucket[i];
      if entry.val != val {
        TriedOther(src, trg, bucket, i, val, data, msize);
        continue;
      }
      // The remaining source length is held in a 32-bit variable.
      var refSize := (|src| - entry.ptr) % OFFSET_BOUND;
      RemainderFacts(|src| - entry.ptr, OFFSET_BOUND);
      if refSize > |trg| - data { refSize := |trg| - data; }
      if refSize <= msize {
        TriedEnough(src, trg, bucket, i, val, data, msize);
        break;
      }
      var n := CommonRun(src, trg, entry.ptr, data, refSize);
      TriedOne(src, trg, bucket, i, val, data, msize, n);
      if msize < n {
        msize, moff := n, entry.ptr;
        if msize >= GOOD_ENOUGH { break; }
      }
    }
  }

  lemma NothingTried(src: bytes, trg: bytes, bucket: seq<IndexEntry>, val: nat, data: nat, size: nat)
    ensures NoneLonger(src, trg, bucket, 0, val, data, size)
  {
  }

  lemma TriedOther(src: bytes, trg: bytes, bucket: seq<IndexEntry>, i: nat, val: nat, data: nat, size: nat)
    requires i < |bucket| && bucket[i].val != val
    ensures NoneLonger(src, trg, bucket, i, val, data, size) ==> NoneLonger(src, trg, bucket, i + 1, val, data, size)
  {
    hide Matches;
  }

  /** From an entry on that cannot match longer for lack of bytes no later one can. */
  lemma TriedEnough(src: bytes, trg: bytes, bucket: seq<IndexEntry>, i: nat, val: nat, data: nat, size: nat)
    requires i < |bucket| && data <= |trg| && bucket[i].ptr <= |src|
    requires |src| < OFFSET_BOUND ==> |src| - bucket[i].ptr <= size || |trg| - data <= size
    ensures |src| < OFFSET_BOUND && Ascends(bucket) && NoneLonger(src, trg, bucket, i, val, data, size) ==>
      NoneLonger(src, trg, bucket, |bucket|, val, data, size)
  {
    if |src| < OFFSET_BOUND && Ascends(bucket) && NoneLonger(src, trg, bucket, i, val, data, size) {
      forall e | 0 <= e < |bucket| && bucket[e].val == val ensures !Matches(src, trg, bucket[e].ptr, data, size + 1) {
        if e > i { assert bucket[i].ptr < bucket[e].ptr; }
      }
    }
  }

  /** An entry has been tried and `n` bytes of it match. */
  lemma TriedOne(src: bytes, trg: bytes, bucket: seq<IndexEntry>, i: nat, val: nat, data: nat, size: nat, n: nat)
    requires i < |bucket| && bucket[i].ptr + n <= |src| && data + n <= |trg|
    requires |src| < OFFSET_BOUND && bucket[i].ptr + n < |src| && data + n < |trg| ==> src[bucket[i].ptr + n] != trg[data + n]
    ensures |src| < OFFSET_BOUND && NoneLonger(src, trg, bucket, i, val, data, size) ==>
      NoneLonger(src, trg, bucket, i + 1, val, data, if size < n then n else size)
  {
    var best := if size < n then n else size;
    if |src| < OFFSET_BOUND && NoneLonger(src, trg, bucket, i, val, data, size) {
      forall e | 0 <= e < i + 1 && bucket[e].val == val ensures !Matches(src, trg, bucket[e].ptr, data, best + 1) {
        if e < i {
          assert !Matches(src, trg, bucket[e].ptr, data, size + 1);
          ShorterMatch(src, trg, bucket[e].ptr, data, best + 1, size + 1);
        } else {
          LongerMismatch(src, trg, bucket[i].ptr, data, n, best + 1);
        }
      }
    }
  }

  lemma ShorterMatch(src: bytes, trg: bytes, moff: nat, data: nat, msize: nat, k: nat)
    requires k <= msize
    ensures Matches(src, trg, moff, data, msize) ==> Matches(src, trg, moff, data, k)
  {
    if Matches(src, trg, moff, data, msize) { MatchSplit(src, trg, moff, data, msize, k); }
  }

  lemma LongerMismatch(src: bytes, trg: bytes, moff: nat, data: nat, n: nat, size: nat)
    requires n < size && moff + n <= |src| && data + n <= |trg|
    requires moff + n < |src| && data + n < |trg| ==> src[moff + n] != trg[data + n]
    ensures !Matches(src, trg, moff, data, size)
  {
    if moff + size <= |src| && data + size <= |trg| {
      assert src[moff..moff + size][n] == src[moff + n] && trg[data..data + size][n] == trg[data + n];
    }
  }

  /** Bytes matching in front of a match extend it, as long as there are pending literals. */
  method ExtendBack(src: bytes, trg: bytes, moff0: nat, msize0: nat, data0: nat, outpos0: nat, inscnt0: nat)
      returns (moff: nat, msize: nat, data: nat, outpos: nat, inscnt: int)
    requires Matches(src, trg, moff0, data0, msize0)
    requires 0 < inscnt0 <= data0 && inscnt0 < outpos0
    ensures Matches(src, trg, moff, data, msize)
    ensures moff <= moff0 && data <= data0 && moff0 - moff == data0 - data == msize - msize0
    ensures inscnt == -1 || inscnt > 0
    ensures inscnt > 0 ==> inscnt0 - inscnt == outpos0 - outpos == data0 - data
    ensures inscnt == -1 ==> inscnt0 == data0 - data && outpos == outpos0 - inscnt0 - 1
    ensures inscnt > 0 ==> moff == 0 || src[moff - 1] != trg[data - 1]
  {
    moff, msize, data, outpos, inscnt := moff0, msize0, data0, outpos0, inscnt0;
    while moff > 0 && src[moff - 1] == trg[data - 1]
      invariant moff <= moff0 && data <= data0 && moff0 - moff == data0 - data == msize - msize0
      invariant 0 < inscnt && inscnt0 - inscnt == outpos0 - outpos == data0 - data
      invariant Matches(src, trg, moff, data, msize)
    {
      MatchBack(src, trg, moff, data, msize);
      msize, moff, data, outpos, inscnt := msize + 1, moff - 1, data - 1, outpos - 1, inscnt - 1;
      if inscnt != 0 { continue; }
      outpos := outpos - 1;
      inscnt := inscnt - 1;
      break;
    }
  }

  lemma MatchBounds(src: bytes, trg: bytes, moff: nat, data: nat, msize: nat)
    requires Matches(src, trg, moff, data, msize)
    ensures moff + msize <= |src| && data + msize <= |trg|
  {
  }

  lemma MatchForward(src: bytes, trg: bytes, moff: nat, data: nat, msize: nat)
    requires Matches(src, trg, moff, data, msize)
    requires moff + msize < |src| && data + msize < |trg| && src[moff + msize] == trg[data + msize]
    ensures Matches(src, trg, moff, data, msize + 1)
  {
    assert src[moff..moff + msize + 1] == src[moff..moff + msize] + [src[moff + msize]];
    assert trg[data..data + msize + 1] == trg[data..data + msize] + [trg[data + msize]];
  }

  lemma MatchSplit(src: bytes, trg: bytes, moff: nat, data: nat, msize: nat, k: nat)
    requires Matches(src, trg, moff, data, msize) && k <= msize
    ensures Matches(src, trg, moff, data, k) && Matches(src, trg, moff + k, data + k, msize - k)
  {
    SliceOfSlice(src, moff, moff + msize, 0, k);
    SliceOfSlice(trg, data, data + msize, 0, k);
    SliceOfSlice(src, moff, moff + msize, k, msize);
    SliceOfSlice(trg, data, data + msize, k, msize);
  }

  lemma MatchBack(src: bytes, trg: bytes, moff: nat, data: nat, msize: nat)
    requires Matches(src, trg, moff, data, msize)
    requires moff > 0 && data > 0 && src[moff - 1] == trg[data - 1]
    ensures Matches(src, trg, moff - 1, data - 1, msize + 1)
  {
    assert src[moff - 1..moff + msize] == [src[moff - 1]] + src[moff..moff + msize];
    assert trg[data - 1..data + msize] == [trg[data - 1]] + trg[data..data + msize];
  }

  // ---------------------------------------------------------------- output

  /** Writes a byte and moves on. */
  method Put(out: bytes, outpos: nat, b: byte) returns (out': bytes, outpos': nat)
    requires outpos < |out|
    ensures |out'| == |out| && outpos' == outpos + 1
    ensures out'[..outpos'] == out[..outpos] + [b]
  {
    out', outpos' := out[outpos := b], outpos + 1;
  }

  /** A size header. */
  method PutSize(out: bytes, outpos: nat, size: nat) returns (out': bytes, outpos': nat)
    requires outpos + |VarintBytes(size)| <= |out|
    ensures |out'| == |out| && outpos' == outpos + |VarintBytes(size)|
    ensures out'[..outpos'] == out[..outpos] + VarintBytes(size)
  {
    var l := size;
    out', outpos' := out, outpos;
    while l >= 0x80
      invariant |out'| == |out| && outpos' + |VarintBytes(l)| == outpos + |VarintBytes(size)|
      invariant out'[..outpos'] + VarintBytes(l) == out[..outpos] + VarintBytes(size)
    {
      out', outpos' := Put(out', outpos', l % 128 + 128);
      l := l / 128;
    }
    out', outpos' := Put(out', outpos', l);
  }

  /** One optional operand byte and its flag. */
  method PutOperand(out: bytes, outpos: nat, flags: nat, b: byte, bit: nat)
      returns (out': bytes, outpos': nat, flags': nat)
    requires outpos < |out|
    ensures |out'| == |out| && outpos <= outpos' <= outpos + 1
    ensures out'[..outpos'] == out[..outpos] + NonZero(b)
    ensures flags' == flags + (if b != 0 then bit else 0)
  {
    out', outpos', flags' := out, outpos, flags;
    if b != 0 {
      out', outpos' := Put(out', outpos', b);
      flags' := flags + bit;
    }
  }

  function NonZero(b: byte): bytes {
    if b != 0 then [b] else []
  }

  // ---------------------------------------------------------------- copy instructions

  /** The copy instruction for up to 64 KiB: only two size bytes, both zero for 64 KiB itself. */
  function GitCopy(moff: nat, msize: nat): (op: Op)
    ensures op.Copy?
  {
    var n := msize % COPY_LIMIT;
    Copy(OperandFlags(moff, 4) + 16 * OperandFlags(n, 3), OperandBytes(moff, 4) + OperandBytes(n, 3))
  }

  lemma GitCopyMeaning(src: bytes, moff: nat, msize: nat)
    requires 0 < msize <= COPY_LIMIT && moff < OFFSET_BOUND && moff + msize <= |src|
    ensures OpApplies(GitCopy(moff, msize), src)
    ensures OpMeaning(GitCopy(moff, msize), src) == src[moff..moff + msize]
  {
    hide OperandFlags, OperandBytes, Present, CopyOffset, CopySize;
    WireFlags(moff, msize % COPY_LIMIT);
    WireOffset(moff, msize % COPY_LIMIT);
    WireSizeValue(moff, msize % COPY_LIMIT);
  }

  lemma OperandOne(n: nat, k: nat)
    requires k > 0
    ensures OperandBytes(n, k) == NonZero(n % 256) + OperandBytes(n / 256, k - 1)
    ensures OperandFlags(n, k) == (if n % 256 != 0 then 1 else 0) + 2 * OperandFlags(n / 256, k - 1)
  {
  }

  lemma OffsetBytes(n: nat)
    ensures OperandBytes(n, 4) == NonZero(n % 256) + NonZero(n / 0x100 % 256)
                                + NonZero(n / 0x10000 % 256) + NonZero(n / 0x100_0000 % 256)
  {
    hide OperandBytes, OperandFlags, NonZero;
    OffsetDigits(n);
    var a, b, c := n / 256, n / 256 / 256, n / 256 / 256 / 256;
    OperandOne(n, 4);
    OperandOne(a, 3);
    OperandOne(b, 2);
    OperandOne(c, 1);
    OperandsNone(c / 256);
    assert OperandBytes(b, 2) == NonZero(b % 256) + NonZero(c % 256);
    assert OperandBytes(a, 3) == NonZero(a % 256) + (NonZero(b % 256) + NonZero(c % 256));
  }

  lemma OffsetFlags(n: nat)
    ensures OperandFlags(n, 4) == Bit(n % 256, 1) + Bit(n / 0x100 % 256, 2)
                                + Bit(n / 0x10000 % 256, 4) + Bit(n / 0x100_0000 % 256, 8)
  {
    hide OperandBytes, OperandFlags, NonZero;
    OffsetDigits(n);
    var a, b, c := n / 256, n / 256 / 256, n / 256 / 256 / 256;
    OperandOne(n, 4);
    OperandOne(a, 3);
    OperandOne(b, 2);
    OperandOne(c, 1);
    OperandsNone(c / 256);
  }

  lemma OffsetDigits(n: nat)
    ensures n / 256 / 256 == n / 0x10000 && n / 256 / 256 / 256 == n / 0x100_0000
  {
  }

  lemma OperandsNone(n: nat)
    ensures OperandBytes(n, 0) == [] && OperandFlags(n, 0) == 0
  {
  }

  lemma SizeOperands(msize: nat)
    ensures var n := msize % COPY_LIMIT;
      && OperandBytes(n, 3) == NonZero(msize % 256) + NonZero(msize / 0x100 % 256)
      && OperandFlags(n, 3) == Bit(msize % 256, 1) + Bit(msize / 0x100 % 256, 2)
  {
    var n := msize % COPY_LIMIT;
    hide OperandBytes, OperandFlags, NonZero;
    LowDigits(msize);
    OperandOne(n, 3);
    OperandOne(n / 256, 2);
    OperandOne(n / 256 / 256, 1);
    OperandsNone(0);
    ZeroOperand();
  }

  lemma LowDigits(m: nat)
    ensures var n := m % COPY_LIMIT;
      n % 256 == m % 256 && n / 256 == m / 0x100 % 256 && n / 256 / 256 == 0
  {
  }

  lemma ZeroOperand()
    ensures NonZero(0) == []
  {
  }

  function Bit(b: byte, bit: nat): nat {
    if b != 0 then bit else 0
  }

  /** Writes the six operand bytes that are not zero. */
  method PutOperands(out: bytes, outpos: nat, moff: nat, msize: nat)
      returns (out': bytes, outpos': nat, flags: nat)
    requires outpos + 6 <= |out|
    ensures |out'| == |out| && outpos <= outpos' <= outpos + 6
    ensures out'[..outpos'] == out[..outpos] + GitCopy(moff, msize).operands
    ensures flags == 128 + GitCopy(moff, msize).flags
  {
    OffsetBytes(moff);
    OffsetFlags(moff);
    SizeOperands(msize);
    hide OperandBytes, OperandFlags, NonZero;
    out', outpos', flags := PutOperand(out, outpos, 0x80, moff % 256, 0x01);
    out', outpos', flags := PutOperand(out', outpos', flags, moff / 0x100 % 256, 0x02);
    out', outpos', flags := PutOperand(out', outpos', flags, moff / 0x10000 % 256, 0x04);
    out', outpos', flags := PutOperand(out', outpos', flags, moff / 0x100_0000 % 256, 0x08);
    assert out'[..outpos'] == out[..outpos] + OperandBytes(moff, 4);
    ghost var mid := out'[..outpos'];
    out', outpos', flags := PutOperand(out', outpos', flags, msize % 256, 0x10);
    out', outpos', flags := PutOperand(out', outpos', flags, msize / 0x100 % 256, 0x20);
    assert out'[..outpos'] == mid + OperandBytes(msize % COPY_LIMIT, 3);
  }

  /** Writes a copy instruction: the operands first, then the flag byte in the slot before them. */
  method PutCopy(out: bytes, outpos: nat, moff: nat, msize: nat) returns (out': bytes, outpos': nat)
    requires outpos + 7 <= |out|
    requires OpWellFormed(GitCopy(moff, msize))
    ensures |out'| == |out| && outpos < outpos' <= outpos + 7
    ensures out'[..outpos'] == out[..outpos] + OpBytes(GitCopy(moff, msize))
  {
    hide GitCopy, Present;
    var flags;
    out', outpos', flags := PutOperands(out, outpos + 1, moff, msize);
    FillSlot(out, out', outpos, outpos', GitCopy(moff, msize).operands, flags);
    out' := out'[outpos := flags];
  }

  lemma FillSlot(before: bytes, after: bytes, slot: nat, end: nat, data: bytes, b: byte)
    requires slot < |before| == |after| && slot < end <= |after|
    requires after[..end] == before[..slot + 1] + data
    ensures after[slot := b][..end] == before[..slot] + ([b] + data)
  {
    var x := after[slot := b][..end];
    assert x[..slot] == after[..end][..slot] == before[..slot];
    assert x[slot + 1..] == after[..end][slot + 1..] == data;
    assert x == x[..slot] + ([x[slot]] + x[slot + 1..]);
  }

  // ---------------------------------------------------------------- what may be left as literals

  /** Rolling by one byte gives the hash of the window moved by one byte. */
  ghost predicate Rolls(rabin: Rabin) {
    forall s: bytes, b: byte :: |s| == RABIN_WINDOW ==>
      rabin.push(rabin.pop(HashOf(rabin, 0, s), s[0]), b) == HashOf(rabin, 0, s[1..] + [b])
  }

  /** Offsets fit, the hash rolls, and the buckets are as the index builder leaves them. */
  ghost predicate Searchable(index: DeltaIndex, rabin: Rabin) {
    && |index.src| < OFFSET_BOUND && Rolls(rabin) && index.Packed()
    && forall b :: 0 <= b < |index.hash| - 1 ==> Ascends(index.Bucket(b))
  }

  /** The hash of the window that ends with the byte at `p`. */
  ghost function WindowHash(rabin: Rabin, trg: bytes, p: nat): nat
    requires RABIN_WINDOW <= p < |trg|
  {
    HashOf(rabin, 0, trg[p - RABIN_WINDOW + 1..p + 1])
  }

  /** The index offers no four matching bytes at `p`. */
  ghost predicate NoMatchAt(index: DeltaIndex, rabin: Rabin, trg: bytes, p: nat)
    requires index.Packed() && RABIN_WINDOW <= p < |trg|
  {
    var h := WindowHash(rabin, trg, p);
    var bucket := index.Bucket(h % (|index.hash| - 1));
    forall e :: 0 <= e < |bucket| && bucket[e].val == h ==> !Matches(index.src, trg, bucket[e].ptr, p, 4)
  }

  /** Instructions that start at target position `base` cover position `p` by a literal. */
  ghost predicate LiteralAt(ops: seq<Op>, src: bytes, base: nat, p: nat)
    requires AllApply(ops, src)
  {
    ops != [] &&
    (var end := base + |OpMeaning(ops[0], src)|;
     (ops[0].Literal? && base <= p < end) || LiteralAt(ops[1..], src, end, p))
  }

  lemma {:induction false} LiteralAtSnoc(ops: seq<Op>, op: Op, src: bytes, base: nat, p: nat)
    requires AllApply(ops, src) && OpApplies(op, src)
    ensures AllApply(ops + [op], src)
    ensures LiteralAt(ops + [op], src, base, p) <==>
      || LiteralAt(ops, src, base, p)
      || (op.Literal? && base + |OpsMeaning(ops, src)| <= p < base + |OpsMeaning(ops, src)| + |OpMeaning(op, src)|)
  {
    hide OpApplies, OpMeaning;
    var all := ops + [op];
    if ops == [] {
      assert all[1..] == [];
    } else {
      LiteralAtSnoc(ops[1..], op, src, base + |OpMeaning(ops[0], src)|, p);
      assert all[1..] == ops[1..] + [op];
    }
  }

  /** Behind the first window only bytes without an indexed match are literals, in instructions or pending since `from`. */
  ghost predicate Greedy(index: DeltaIndex, rabin: Rabin, trg: bytes, ops: seq<Op>, from: nat, upto: nat)
    requires index.Packed() && AllApply(ops, index.src)
  {
    forall p :: RABIN_WINDOW <= p < |trg| && (LiteralAt(ops, index.src, 0, p) || from <= p < upto) ==> NoMatchAt(index, rabin, trg, p)
  }

  /** The rolling hash is that of the window in front of `data` whenever it will be used. */
  ghost predicate HashReady(rabin: Rabin, trg: bytes, data: nat, val: nat, msize: nat)
    requires RABIN_WINDOW <= data <= |trg|
  {
    msize < GOOD_ENOUGH ==> val == HashOf(rabin, 0, trg[data - RABIN_WINDOW..data])
  }

  lemma GreedyStart(index: DeltaIndex, rabin: Rabin, trg: bytes, data: nat)
    requires index.Packed() && data <= RABIN_WINDOW
    ensures Greedy(index, rabin, trg, [], 0, data)
  {
  }

  /** One more pending byte that has no match. */
  lemma GreedyLiteral(index: DeltaIndex, rabin: Rabin, trg: bytes, ops: seq<Op>, from: nat, data: nat)
    requires index.Packed() && AllApply(ops, index.src) && Greedy(index, rabin, trg, ops, from, data)
    requires RABIN_WINDOW <= data < |trg| && NoMatchAt(index, rabin, trg, data)
    ensures Greedy(index, rabin, trg, ops, from, data + 1)
  {
    hide NoMatchAt, LiteralAt, AllApply;
  }

  /** Pending bytes become an instruction. */
  lemma GreedyFlush(index: DeltaIndex, rabin: Rabin, trg: bytes, ops: seq<Op>, from: nat, upto: nat, upto': nat)
    requires index.Packed() && AllApply(ops, index.src) && from < upto' <= upto && upto' <= |trg| && upto' - from <= 0x7f
    requires Greedy(index, rabin, trg, ops, from, upto) && |OpsMeaning(ops, index.src)| == from
    ensures var lit := Literal(trg[from..upto']);
      AllApply(ops + [lit], index.src) && Greedy(index, rabin, trg, ops + [lit], upto', upto')
  {
    hide NoMatchAt, LiteralAt, OpsMeaning;
    var lit := Literal(trg[from..upto']);
    forall p: nat ensures AllApply(ops + [lit], index.src) &&
      (LiteralAt(ops + [lit], index.src, 0, p) <==> LiteralAt(ops, index.src, 0, p) || from <= p < upto')
    {
      LiteralAtSnoc(ops, lit, index.src, 0, p);
    }
  }

  /** A copy adds no literal, and giving pending bytes back adds none either. */
  lemma GreedyCopy(index: DeltaIndex, rabin: Rabin, trg: bytes, ops: seq<Op>, from: nat, upto: nat, op: Op, at: nat)
    requires index.Packed() && AllApply(ops, index.src) && OpApplies(op, index.src) && op.Copy?
    requires Greedy(index, rabin, trg, ops, from, upto)
    ensures AllApply(ops + [op], index.src) && Greedy(index, rabin, trg, ops + [op], at, at)
  {
    hide NoMatchAt, LiteralAt, OpsMeaning, OpApplies;
    forall p: nat ensures AllApply(ops + [op], index.src) && (LiteralAt(ops + [op], index.src, 0, p) <==> LiteralAt(ops, index.src, 0, p)) {
      LiteralAtSnoc(ops, op, index.src, 0, p);
    }
  }

  // ---------------------------------------------------------------- state of the main loop

  /** The first `end` bytes of the buffer are the header and instructions for `done` target bytes. */
  ghost predicate Written(out: bytes, end: nat, header: bytes, ops: seq<Op>, src: bytes, trg: bytes, done: nat) {
    && end <= |out| && done <= |trg|
    && AllApply(ops, src)
    && out[..end] == header + OpsBytes(ops, src)
    && OpsMeaning(ops, src) == trg[..done]
  }

  /** Bytes taken by the pending literals and the slot for their count. */
  function Pending(inscnt: nat): nat {
    if inscnt > 0 then inscnt + 1 else 0
  }

  /** Everything before the pending literals is written; the literals themselves await their count. */
  ghost predicate State(out: bytes, outpos: nat, inscnt: nat, data: nat,
                        header: bytes, ops: seq<Op>, src: bytes, trg: bytes) {
    && inscnt < 0x7f && inscnt <= data <= |trg|
    && Pending(inscnt) <= outpos <= |out|
    && Written(out, outpos - Pending(inscnt), header, ops, src, trg, data - inscnt)
    && out[outpos - inscnt..outpos] == trg[data - inscnt..data]
  }

  lemma {:induction false} OpsSnoc(ops: seq<Op>, op: Op, base: bytes)
    requires AllApply(ops, base) && OpApplies(op, base)
    ensures AllApply(ops + [op], base)
    ensures OpsBytes(ops + [op], base) == OpsBytes(ops, base) + OpBytes(op)
    ensures OpsMeaning(ops + [op], base) == OpsMeaning(ops, base) + OpMeaning(op, base)
  {
    hide OpWellFormed, OpBytes, OpMeaning;
    var all := ops + [op];
    if ops == [] {
      assert all[1..] == [];
    } else {
      OpsSnoc(ops[1..], op, base);
      assert all[1..] == ops[1..] + [op];
    }
  }

  /** Appending an instruction for the next target bytes. */
  lemma WrittenStep(out: bytes, end: nat, out': bytes, end': nat, header: bytes, ops: seq<Op>, op: Op,
                    src: bytes, trg: bytes, done: nat, done': nat)
    requires Written(out, end, header, ops, src, trg, done) && OpApplies(op, src)
    requires end' <= |out'| && done <= done' <= |trg|
    requires out'[..end'] == out[..end] + OpBytes(op)
    requires OpMeaning(op, src) == trg[done..done']
    ensures Written(out', end', header, ops + [op], src, trg, done')
  {
    hide OpsBytes, OpsMeaning, OpBytes, OpMeaning, OpWellFormed;
    OpsSnoc(ops, op, src);
    Associative(header, OpsBytes(ops, src), OpBytes(op));
    PrefixGrows(trg, done, done');
  }

  lemma Associative(a: bytes, b: bytes, c: bytes)
    ensures a + b + c == a + (b + c)
  {
  }

  lemma PrefixGrows(s: bytes, i: nat, j: nat)
    requires i <= j <= |s|
    ensures s[..i] + s[i..j] == s[..j]
  {
  }

  /** What is written depends on the buffer up to its end only. */
  lemma WrittenKept(out: bytes, out': bytes, end: nat, header: bytes, ops: seq<Op>, src: bytes, trg: bytes, done: nat)
    requires Written(out, end, header, ops, src, trg, done)
    requires end <= |out'| && out'[..end] == out[..end]
    ensures Written(out', end, header, ops, src, trg, done)
  {
  }

  /** Fills in the count of the pending literals, which makes them an instruction. */
  method FlushLiterals(out: bytes, outpos: nat, inscnt: nat, ghost data: nat,
                       ghost header: bytes, ghost ops: seq<Op>, ghost src: bytes, ghost trg: bytes)
      returns (out': bytes)
    requires 0 < inscnt <= 0x7f && inscnt <= data <= |trg| && inscnt < outpos <= |out|
    requires Written(out, outpos - inscnt - 1, header, ops, src, trg, data - inscnt)
    requires out[outpos - inscnt..outpos] == trg[data - inscnt..data]
    ensures |out'| == |out|
    ensures Written(out', outpos, header, ops + [Literal(trg[data - inscnt..data])], src, trg, data)
  {
    ghost var slot := outpos - inscnt - 1;
    ghost var lit := trg[data - inscnt..data];
    out' := out[outpos - inscnt - 1 := inscnt];
    assert out[..outpos] == out[..slot + 1] + lit;
    FillSlot(out, out, slot, outpos, lit, inscnt);
    WrittenStep(out, slot, out', outpos, header, ops, Literal(lit), src, trg, data - inscnt, data);
  }

  /** Adds the byte at `data` behind the pending literals, opening a count slot when there are none. */
  method PushLiteral(out: bytes, outpos: nat, inscnt: nat, data: nat, trg: bytes) returns (out': bytes, outpos': nat)
    requires inscnt <= data < |trg| && Pending(inscnt) <= outpos && outpos + 2 <= |out|
    requires out[outpos - inscnt..outpos] == trg[data - inscnt..data]
    ensures |out'| == |out| && outpos' == outpos - Pending(inscnt) + Pending(inscnt + 1)
    ensures out'[..outpos - Pending(inscnt)] == out[..outpos - Pending(inscnt)]
    ensures out'[outpos' - inscnt - 1..outpos'] == trg[data - inscnt..data + 1]
  {
    outpos' := outpos;
    if inscnt == 0 { outpos' := outpos' + 1; }
    out', outpos' := out[outpos' := trg[data]], outpos' + 1;
    assert out'[outpos' - inscnt - 1..outpos'] == out[outpos' - inscnt - 1..outpos' - 1] + [trg[data]];
    assert trg[data - inscnt..data + 1] == trg[data - inscnt..data] + [trg[data]];
  }

  /** The literal branch: one more pending byte, flushed when there are 127 of them. */
  method PutLiteral(out: bytes, outpos: nat, inscnt: nat, data: nat, trg: bytes,
                    ghost header: bytes, ghost ops: seq<Op>, ghost src: bytes)
      returns (out': bytes, outpos': nat, inscnt': nat, ghost ops': seq<Op>)
    requires State(out, outpos, inscnt, data, header, ops, src, trg)
    requires data < |trg| && outpos + 2 <= |out|
    ensures |out'| == |out| && outpos < outpos' <= outpos + 2
    ensures State(out', outpos', inscnt', data + 1, header, ops', src, trg)
    ensures if inscnt + 1 < 0x7f then inscnt' == inscnt + 1 && ops' == ops
            else inscnt' == 0 && ops' == ops + [Literal(trg[data - inscnt..data + 1])]
  {
    hide AllApply, OpsBytes, OpsMeaning;
    out', outpos' := PushLiteral(out, outpos, inscnt, data, trg);
    WrittenKept(out, out', outpos - Pending(inscnt), header, ops, src, trg, data - inscnt);
    hide Written;
    inscnt', ops' := inscnt + 1, ops;
    if inscnt' == 0x7f {
      out' := FlushLiterals(out', outpos', inscnt', data + 1, header, ops, src, trg);
      ops' := ops + [Literal(trg[data + 1 - inscnt'..data + 1])];
      inscnt' := 0;
    }
  }

  /** `back` pending bytes match in front of a match, and no more of them do. */
  ghost predicate GivenBack(src: bytes, trg: bytes, data: nat, inscnt: nat, moff: nat, back: int) {
    && 0 <= back <= inscnt <= data <= |trg| && back <= moff <= |src|
    && (back < inscnt ==> moff == back || src[moff - back - 1] != trg[data - back - 1])
  }

  /** The pending bytes that are left, as an instruction. */
  ghost function Unmatched(trg: bytes, data: nat, inscnt: nat, back: nat): seq<Op>
    requires back <= inscnt <= data <= |trg|
  {
    if back < inscnt then [Literal(trg[data - inscnt..data - back])] else []
  }

  /** The pending literals in front of a match: given back to it or flushed. */
  method SettlePending(src: bytes, trg: bytes, out: bytes, outpos0: nat, inscnt0: nat, data0: nat,
                       moff0: nat, msize0: nat, ghost header: bytes, ghost ops: seq<Op>)
      returns (out': bytes, outpos: nat, moff: nat, msize: nat, data: nat, ghost ops': seq<Op>)
    requires State(out, outpos0, inscnt0, data0, header, ops, src, trg)
    requires Matches(src, trg, moff0, data0, msize0) && outpos0 < |out|
    ensures |out'| == |out| && outpos <= outpos0
    ensures moff <= moff0 && data <= data0 && moff0 - moff == data0 - data == msize - msize0 < 0x7f
    ensures Matches(src, trg, moff, data, msize)
    ensures Written(out', outpos, header, ops', src, trg, data)
    ensures GivenBack(src, trg, data0, inscnt0, moff0, data0 - data)
    ensures ops' == ops + Unmatched(trg, data0, inscnt0, data0 - data)
  {
    hide Matches, AllApply, OpsBytes, OpsMeaning;
    out', outpos, moff, msize, data, ops' := out, outpos0, moff0, msize0, data0, ops;
    if inscnt0 > 0 {
      var inscnt;
      moff, msize, data, outpos, inscnt := ExtendBack(src, trg, moff0, msize0, data0, outpos0, inscnt0);
      if inscnt > 0 {
        SliceOfSlice(out, outpos0 - inscnt0, outpos0, 0, inscnt);
        SliceOfSlice(trg, data0 - inscnt0, data0, 0, inscnt);
        out' := FlushLiterals(out, outpos, inscnt, data, header, ops, src, trg);
        ops' := ops + [Literal(trg[data - inscnt..data])];
      } else {
        // The count is -1 here: it lands, as 255, in the slot the copy instruction takes over.
        out' := out[outpos := 255];
        WrittenKept(out, out', outpos, header, ops, src, trg, data);
      }
    }
    assert ops + [] == ops;
    MatchBounds(src, trg, moff0, data0, msize0);
  }

  /** After a copy of the first 64 KiB at most the rest of the match is the next candidate, while its offset can be expressed. */
  ghost predicate Copied(size: nat, offset: nat, at: nat, moff: nat, msize: nat, data: nat) {
    var n := Min(size, 0x10000);
    && moff == offset + n && data == at + n
    && msize == if moff > 0xffff_ffff then 0 else size - n
  }

  /** The copy branch: up to 64 KiB of the match; the rest stays the candidate for the next round. */
  method PutMatch(src: bytes, trg: bytes, out: bytes, outpos0: nat, inscnt0: nat, data0: nat,
                  moff0: nat, msize0: nat, ghost header: bytes, ghost ops: seq<Op>)
      returns (out': bytes, outpos: nat, moff: nat, msize: nat, data: nat, ghost ops': seq<Op>, ghost back: nat)
    requires State(out, outpos0, inscnt0, data0, header, ops, src, trg)
    requires Candidate(src, trg, moff0, data0, msize0) && msize0 >= 4 && outpos0 + 7 <= |out|
    ensures |out'| == |out| && outpos <= outpos0 + 7
    ensures State(out', outpos, 0, data, header, ops', src, trg)
    ensures Candidate(src, trg, moff, data, msize) && data0 < data
    ensures GivenBack(src, trg, data0, inscnt0, moff0, back) && Copied(msize0 + back, moff0 - back, data0 - back, moff, msize, data)
    ensures ops' == ops + Unmatched(trg, data0, inscnt0, back) + [GitCopy(moff0 - back, Min(msize0 + back, 0x10000))]
  {
    hide AllApply, OpsBytes, OpsMeaning, Matches, State, Written, GivenBack, Unmatched, GitCopy;
    out', outpos, moff, msize, data, ops' :=
      SettlePending(src, trg, out, outpos0, inscnt0, data0, moff0, msize0, header, ops);
    back := data0 - data;
    var left := if msize < COPY_LIMIT then 0 else msize - COPY_LIMIT;
    msize := msize - left;
    MatchSplit(src, trg, moff, data, msize + left, msize);
    MatchBounds(src, trg, moff, data, msize);
    out', outpos, ops' := AppendCopy(src, trg, out', outpos, data, moff, msize, header, ops');
    data, moff, msize := data + msize, moff + msize, left;
    if moff > 0xffff_ffff { msize := 0; }
  }

  /** Writes the copy instruction for a match of at most 64 KiB. */
  method AppendCopy(ghost src: bytes, ghost trg: bytes, out: bytes, outpos0: nat, ghost data: nat,
                    moff: nat, msize: nat, ghost header: bytes, ghost ops: seq<Op>)
      returns (out': bytes, outpos: nat, ghost ops': seq<Op>)
    requires Written(out, outpos0, header, ops, src, trg, data) && outpos0 + 7 <= |out|
    requires Matches(src, trg, moff, data, msize) && 0 < msize <= COPY_LIMIT && moff < OFFSET_BOUND
    ensures |out'| == |out| && outpos <= outpos0 + 7
    ensures State(out', outpos, 0, data + msize, header, ops', src, trg)
    ensures ops' == ops + [GitCopy(moff, msize)]
  {
    GitCopyMeaning(src, moff, msize);
    hide AllApply, OpsBytes, OpsMeaning, GitCopy, OpMeaning, OpBytes, Present;
    ghost var op := GitCopy(moff, msize);
    out', outpos := PutCopy(out, outpos0, moff, msize);
    WrittenStep(out, outpos0, out', outpos, header, ops, op, src, trg, data, data + msize);
    ops' := ops + [op];
  }

  // ---------------------------------------------------------------- create_delta

  /** How large the buffer is while `maxSize` (0: unlimited) bounds the delta. */
  predicate BufferSize(outsize: nat, maxSize: nat) {
    if maxSize == 0 then outsize >= 8192
    else outsize == maxSize + MAX_OP_SIZE + 1 || 8192 <= outsize < maxSize
  }

  /** The two sizes and the first window of the target as pending literals. */
  method Begin(index: DeltaIndex, rabin: Rabin, trg: bytes, out: bytes)
      returns (out': bytes, outpos: nat, inscnt: nat, val: nat)
    requires trg != [] && |VarintBytes(|index.src|)| + |VarintBytes(|trg|)| + 1 + RABIN_WINDOW + 7 <= |out|
    ensures |out'| == |out| && outpos + 7 <= |out|
    ensures inscnt == Min(|trg|, RABIN_WINDOW) && val == HashOf(rabin, 0, trg[..inscnt])
    ensures State(out', outpos, inscnt, inscnt, VarintBytes(|index.src|) + VarintBytes(|trg|), [], index.src, trg)
  {
    hide VarintBytes, Decode, HashOf;
    ghost var header := VarintBytes(|index.src|) + VarintBytes(|trg|);
    out', outpos := PutSize(out, 0, |index.src|);
    out', outpos := PutSize(out', outpos, |trg|);
    assert out'[..outpos] == header;
    ghost var end := outpos;
    outpos := outpos + 1;
    inscnt, val := 0, 0;
    HashNothing(rabin);
    assert trg[..0] == [];
    while inscnt < RABIN_WINDOW && inscnt < |trg|
      invariant inscnt <= Min(|trg|, RABIN_WINDOW) && outpos == end + 1 + inscnt
      invariant |out'| == |out| && out'[..end] == header
      invariant out'[end + 1..outpos] == trg[..inscnt] && val == HashOf(rabin, 0, trg[..inscnt])
    {
      HashSnoc(rabin, 0, trg[..inscnt], trg[inscnt]);
      assert trg[..inscnt + 1] == trg[..inscnt] + [trg[inscnt]];
      out' := out'[outpos := trg[inscnt]];
      assert out'[end + 1..outpos + 1] == out'[end + 1..outpos] + [trg[inscnt]];
      val := rabin.push(val, trg[inscnt]);
      inscnt, outpos := inscnt + 1, outpos + 1;
    }
    assert header + [] == header && trg[..0] == [];
    assert Written(out', end, header, [], index.src, trg, 0);
  }

  lemma HeaderLength(n: nat)
    requires n < BUFFER_BOUND
    ensures |VarintBytes(n)| <= 6
  {
    assert Pow2(0) == 1;
    Pow2SevenMore(0); Pow2SevenMore(1); Pow2SevenMore(2); Pow2SevenMore(3); Pow2SevenMore(4); Pow2SevenMore(5);
    VarintBytesLength(n, 6);
  }

  method Allocate(maxSize: nat) returns (out: bytes)
    ensures BufferSize(|out|, maxSize) && |out| >= Min(8192, if maxSize == 0 then 8192 else maxSize + MAX_OP_SIZE + 1)
  {
    var outsize := 8192;
    if maxSize > 0 && outsize >= maxSize { outsize := maxSize + MAX_OP_SIZE + 1; }
    out := seq(outsize, _ => 0);
  }

  /** Makes room when the buffer runs low; gives up when the delta has outgrown its bound. */
  method Grow(out: bytes, outpos: nat, maxSize: nat, ghost inscnt: nat, ghost data: nat,
              ghost header: bytes, ghost ops: seq<Op>, ghost src: bytes, ghost trg: bytes)
      returns (out': bytes, giveUp: bool)
    requires BufferSize(|out|, maxSize)
    requires State(out, outpos, inscnt, data, header, ops, src, trg)
    ensures giveUp ==> maxSize > 0 && outpos > maxSize
    ensures BufferSize(|out'|, maxSize) && State(out', outpos, inscnt, data, header, ops, src, trg)
    ensures !giveUp ==> outpos + 7 <= |out'|
  {
    StateBounds(out, outpos, inscnt, data, header, ops, src, trg);
    hide State;
    out', giveUp := out, false;
    if outpos >= |out| - MAX_OP_SIZE {
      var outsize := |out| * 3 / 2;
      if maxSize > 0 && outsize >= maxSize { outsize := maxSize + MAX_OP_SIZE + 1; }
      if maxSize > 0 && outpos > maxSize {
        giveUp := true;
      } else {
        out' := out + seq(outsize - |out|, _ => 0);
        StateKept(out, out', outpos, inscnt, data, header, ops, src, trg);
      }
    }
  }

  lemma StateKept(out: bytes, out': bytes, outpos: nat, inscnt: nat, data: nat,
                  header: bytes, ops: seq<Op>, src: bytes, trg: bytes)
    requires State(out, outpos, inscnt, data, header, ops, src, trg) && out <= out'
    ensures State(out', outpos, inscnt, data, header, ops, src, trg)
  {
    hide AllApply, OpsBytes, OpsMeaning;
    assert out'[..outpos] == out[..outpos];
    assert out'[..outpos - Pending(inscnt)] == out[..outpos - Pending(inscnt)];
    assert out'[outpos - inscnt..outpos] == out[outpos - inscnt..outpos];
  }

  /** A completely written target is a delta of the grammar. */
  lemma Complete(out: bytes, outpos: nat, ops: seq<Op>, src: bytes, trg: bytes)
    requires |src| < USIZE_BOUND && |trg| < USIZE_BOUND
    requires Written(out, outpos, VarintBytes(|src|) + VarintBytes(|trg|), ops, src, trg, |trg|)
    ensures Decode(out[..outpos], src) == Some(trg)
    ensures IsDelta(out[..outpos], src, trg, VarintBytes(|src|), VarintBytes(|trg|), ops)
  {
    hide OpsBytes, OpsMeaning, Decode, VarintBytes;
    SizeRoundTrip(|src|, []);
    SizeRoundTrip(|trg|, []);
    assert trg[..|trg|] == trg;
    DeltaDecodes(out[..outpos], src, trg, VarintBytes(|src|), VarintBytes(|trg|), ops);
  }

  lemma HashNothing(rabin: Rabin)
    ensures HashOf(rabin, 0, []) == 0
  {
  }

  lemma RollStep(rabin: Rabin, trg: bytes, data: nat, val: nat)
    requires RABIN_WINDOW <= data < |trg| && Rolls(rabin) && val == HashOf(rabin, 0, trg[data - RABIN_WINDOW..data])
    ensures rabin.push(rabin.pop(val, trg[data - RABIN_WINDOW]), trg[data]) == WindowHash(rabin, trg, data)
  {
    var s := trg[data - RABIN_WINDOW..data];
    assert s[0] == trg[data - RABIN_WINDOW];
    assert s[1..] + [trg[data]] == trg[data - RABIN_WINDOW + 1..data + 1];
  }

  /** Having tried the whole bucket without finding four bytes. */
  lemma NothingFound(index: DeltaIndex, rabin: Rabin, trg: bytes, data: nat, size: nat)
    requires index.Packed() && RABIN_WINDOW <= data < |trg| && size < 4
    requires var h := WindowHash(rabin, trg, data);
      var bucket := index.Bucket(h % (|index.hash| - 1));
      NoneLonger(index.src, trg, bucket, |bucket|, h, data, size)
    ensures NoMatchAt(index, rabin, trg, data)
  {
    hide Matches, WindowHash;
    var h := WindowHash(rabin, trg, data);
    var bucket := index.Bucket(h % (|index.hash| - 1));
    forall e | 0 <= e < |bucket| && bucket[e].val == h ensures !Matches(index.src, trg, bucket[e].ptr, data, 4) {
      ShorterMatch(index.src, trg, bucket[e].ptr, data, 4, size + 1);
    }
  }

  /** Rolls the hash one byte further and looks its bucket up. */
  method Search(index: DeltaIndex, rabin: Rabin, trg: bytes, val0: nat, data: nat, moff0: nat, msize0: nat)
      returns (val: nat, moff: nat, msize: nat)
    requires IndexInRange(index) && RABIN_WINDOW <= data < |trg|
    requires Candidate(index.src, trg, moff0, data, msize0)
    ensures Candidate(index.src, trg, moff, data, msize) && msize >= msize0
    ensures Searchable(index, rabin) && val0 == HashOf(rabin, 0, trg[data - RABIN_WINDOW..data]) ==>
      && val == WindowHash(rabin, trg, data)
      && (msize < 4 ==> NoMatchAt(index, rabin, trg, data))
  {
    hide Rolls, Ascends, NoneLonger, NoMatchAt, WindowHash, HashOf, Matches;
    val := rabin.push(rabin.pop(val0, trg[data - RABIN_WINDOW]), trg[data]);
    var b := val % (|index.hash| - 1);
    moff, msize := FindMatch(index.src, trg, index.Bucket(b), val, data, moff0, msize0);
    if Searchable(index, rabin) && val0 == HashOf(rabin, 0, trg[data - RABIN_WINDOW..data]) {
      RollStep(rabin, trg, data, val0);
      if msize < 4 {
        assert Ascends(index.Bucket(b));
        NothingFound(index, rabin, trg, data, msize);
      }
    }
  }

  /** A buffer that holds the encoding of the first `data` bytes, greedy whenever the index can be searched. */
  ghost predicate Encoding(index: DeltaIndex, rabin: Rabin, trg: bytes, out: bytes, outpos: nat, inscnt: nat, data: nat, ops: seq<Op>) {
    && index.Packed()
    && State(out, outpos, inscnt, data, VarintBytes(|index.src|) + VarintBytes(|trg|), ops, index.src, trg)
    && (Searchable(index, rabin) ==> Greedy(index, rabin, trg, ops, data - inscnt, data))
  }

  lemma EncodingLiteral(index: DeltaIndex, rabin: Rabin, trg: bytes, out: bytes, outpos: nat, inscnt: nat, data: nat, ops: seq<Op>,
                        out': bytes, outpos': nat, inscnt': nat, ops': seq<Op>)
    requires Encoding(index, rabin, trg, out, outpos, inscnt, data, ops) && RABIN_WINDOW <= data < |trg|
    requires State(out', outpos', inscnt', data + 1, VarintBytes(|index.src|) + VarintBytes(|trg|), ops', index.src, trg)
    requires if inscnt + 1 < 0x7f then inscnt' == inscnt + 1 && ops' == ops
             else inscnt' == 0 && ops' == ops + [Literal(trg[data - inscnt..data + 1])]
    requires Searchable(index, rabin) ==> NoMatchAt(index, rabin, trg, data)
    ensures Encoding(index, rabin, trg, out', outpos', inscnt', data + 1, ops')
  {
    hide NoMatchAt, LiteralAt, OpsMeaning, OpsBytes, VarintBytes, Rolls, Ascends, Greedy;
    if Searchable(index, rabin) {
      GreedyLiteral(index, rabin, trg, ops, data - inscnt, data);
      if inscnt + 1 == 0x7f { GreedyFlush(index, rabin, trg, ops, data - inscnt, data + 1, data + 1); }
    }
  }

  lemma EncodingMatch(index: DeltaIndex, rabin: Rabin, trg: bytes, out: bytes, outpos: nat, inscnt: nat, data: nat, ops: seq<Op>,
                      back: nat, op: Op, out': bytes, outpos': nat, data': nat, ops': seq<Op>)
    requires Encoding(index, rabin, trg, out, outpos, inscnt, data, ops) && back <= inscnt <= data <= |trg| && op.Copy?
    requires State(out', outpos', 0, data', VarintBytes(|index.src|) + VarintBytes(|trg|), ops', index.src, trg)
    requires ops' == ops + Unmatched(trg, data, inscnt, back) + [op]
    ensures Encoding(index, rabin, trg, out', outpos', 0, data', ops')
  {
    hide NoMatchAt, LiteralAt, OpsMeaning, OpsBytes, VarintBytes, Searchable, Greedy, OpApplies, AllApply, State;
    StateOps(out, outpos, inscnt, data, VarintBytes(|index.src|) + VarintBytes(|trg|), ops, index.src, trg);
    StateOps(out', outpos', 0, data', VarintBytes(|index.src|) + VarintBytes(|trg|), ops', index.src, trg);
    if Searchable(index, rabin) {
      var mid := ops + Unmatched(trg, data, inscnt, back);
      AllApplySplit(mid, op, index.src);
      if back < inscnt {
        GreedyFlush(index, rabin, trg, ops, data - inscnt, data, data - back);
        GreedyCopy(index, rabin, trg, mid, data - back, data - back, op, data');
      } else {
        assert mid == ops;
        GreedyCopy(index, rabin, trg, mid, data - inscnt, data, op, data');
      }
    }
  }

  lemma StateOps(out: bytes, outpos: nat, inscnt: nat, data: nat, header: bytes, ops: seq<Op>, src: bytes, trg: bytes)
    requires State(out, outpos, inscnt, data, header, ops, src, trg)
    ensures inscnt < 0x7f && inscnt <= data <= |trg| && AllApply(ops, src) && |OpsMeaning(ops, src)| == data - inscnt
  {
    hide OpsBytes, OpsMeaning;
  }

  lemma AllApplySplit(ops: seq<Op>, op: Op, src: bytes)
    requires AllApply(ops + [op], src)
    ensures AllApply(ops, src) && OpApplies(op, src)
  {
    hide OpApplies;
    var all := ops + [op];
    assert OpApplies(all[|ops|], src);
    assert forall i :: 0 <= i < |ops| ==> all[i] == ops[i];
  }

  /** One round of the main loop: a literal or a copy, then room for the next round. */
  method Round(index: DeltaIndex, rabin: Rabin, trg: bytes, maxSize: nat,
               out0: bytes, outpos0: nat, inscnt0: nat, data0: nat, moff0: nat, msize0: nat, val0: nat, ghost ops0: seq<Op>)
      returns (out: bytes, outpos: nat, inscnt: nat, data: nat, moff: nat, msize: nat, val: nat,
               ghost ops: seq<Op>, giveUp: bool)
    requires IndexInRange(index) && RABIN_WINDOW <= data0 < |trg|
    requires BufferSize(|out0|, maxSize) && outpos0 + 7 <= |out0|
    requires Encoding(index, rabin, trg, out0, outpos0, inscnt0, data0, ops0)
    requires Candidate(index.src, trg, moff0, data0, msize0) && (Searchable(index, rabin) ==> HashReady(rabin, trg, data0, val0, msize0))
    ensures data0 < data <= |trg| && Encoding(index, rabin, trg, out, outpos, inscnt, data, ops)
    ensures giveUp ==> maxSize > 0 && outpos > maxSize
    ensures !giveUp ==> BufferSize(|out|, maxSize) && outpos + 7 <= |out|
    ensures Candidate(index.src, trg, moff, data, msize) && (Searchable(index, rabin) ==> HashReady(rabin, trg, data, val, msize))
  {
    hide State, BufferSize, Matches, Encoding, Searchable, NoMatchAt, HashOf, GitCopy, Unmatched, VarintBytes, IndexInRange;
    ghost var header := VarintBytes(|index.src|) + VarintBytes(|trg|);
    EncodingState(index, rabin, trg, out0, outpos0, inscnt0, data0, ops0);
    val, moff, msize := val0, moff0, msize0;
    if msize < GOOD_ENOUGH { val, moff, msize := Search(index, rabin, trg, val, data0, moff, msize); }
    if msize < 4 {
      out, outpos, inscnt, ops := PutLiteral(out0, outpos0, inscnt0, data0, trg, header, ops0, index.src);
      EncodingLiteral(index, rabin, trg, out0, outpos0, inscnt0, data0, ops0, out, outpos, inscnt, ops);
      data, msize := data0 + 1, 0;
    } else {
      ghost var back;
      ghost var moff1, msize1 := moff, msize;
      out, outpos, moff, msize, data, ops, back :=
        PutMatch(index.src, trg, out0, outpos0, inscnt0, data0, moff, msize, header, ops0);
      EncodingMatch(index, rabin, trg, out0, outpos0, inscnt0, data0, ops0, back, GitCopy(moff1 - back, Min(msize1 + back, 0x10000)),
                    out, outpos, data, ops);
      inscnt := 0;
      StateBounds(out, outpos, inscnt, data, header, ops, index.src, trg);
      if msize < GOOD_ENOUGH { val := HashRange(rabin, trg, data - RABIN_WINDOW, data); }
    }
    ghost var before := out;
    out, giveUp := Grow(out, outpos, maxSize, inscnt, data, header, ops, index.src, trg);
    EncodingKept(index, rabin, trg, before, out, outpos, inscnt, data, ops);
  }

  lemma EncodingState(index: DeltaIndex, rabin: Rabin, trg: bytes, out: bytes, outpos: nat, inscnt: nat, data: nat, ops: seq<Op>)
    requires Encoding(index, rabin, trg, out, outpos, inscnt, data, ops)
    ensures State(out, outpos, inscnt, data, VarintBytes(|index.src|) + VarintBytes(|trg|), ops, index.src, trg)
    ensures index.Packed() && inscnt <= data <= |trg|
  {
  }

  lemma EncodingKept(index: DeltaIndex, rabin: Rabin, trg: bytes, out: bytes, out': bytes, outpos: nat, inscnt: nat, data: nat, ops: seq<Op>)
    requires Encoding(index, rabin, trg, out, outpos, inscnt, data, ops)
    requires State(out', outpos, inscnt, data, VarintBytes(|index.src|) + VarintBytes(|trg|), ops, index.src, trg)
    ensures Encoding(index, rabin, trg, out', outpos, inscnt, data, ops)
  {
  }

  /** The delta consists of instructions that leave no byte as a literal behind the first window for which the index has a match. */
  ghost predicate Thrifty(index: DeltaIndex, rabin: Rabin, trg: bytes, delta: bytes)
    requires index.Packed()
  {
    exists ops :: IsDelta(delta, index.src, trg, VarintBytes(|index.src|), VarintBytes(|trg|), ops) && Greedy(index, rabin, trg, ops, |trg|, |trg|)
  }

  /** Such an encoding of the target, or of a part of it, takes more than `maxSize` bytes. */
  ghost predicate Overruns(index: DeltaIndex, rabin: Rabin, trg: bytes, maxSize: nat) {
    exists out, outpos: nat, inscnt: nat, data: nat, ops :: Encoding(index, rabin, trg, out, outpos, inscnt, data, ops) && outpos > maxSize
  }

  /**
   Every delta the encoder returns decodes to the target, whatever the index holds, and stays within
   `maxSize`. With an index that can be searched no byte that has a match is left a literal; there is
   no delta only for an empty target or when such an encoding exceeds the bound.
   */
  method CreateDelta(index: DeltaIndex, rabin: Rabin, trg: bytes, maxSize: nat) returns (delta: Option<bytes>)
    requires IndexInRange(index)
    requires HasRoom(|index.src|, |trg|, maxSize)
    ensures delta.Some? ==> Decode(delta.value, index.src) == Some(trg)
    ensures delta.Some? && maxSize > 0 ==> |delta.value| <= maxSize
    ensures delta.None? ==> trg == [] || (maxSize > 0 && Overruns(index, rabin, trg, maxSize))
    ensures delta.Some? && Searchable(index, rabin) ==> Thrifty(index, rabin, trg, delta.value)
  {
    hide State, Decode, VarintBytes, Candidate, Encoding, Searchable, Thrifty, HashOf;
    if trg == [] { return None; }
    var src := index.src;
    var out := Allocate(maxSize);
    LongestSize(|src|);
    LongestSize(|trg|);
    var outpos: nat, inscnt: nat, val: nat;
    out, outpos, inscnt, val := Begin(index, rabin, trg, out);
    var data: nat, moff: nat, msize: nat := inscnt, 0, 0;
    ghost var ops: seq<Op> := [];
    NoCandidate(src, trg, data);
    EncodingStart(index, rabin, trg, out, outpos, inscnt);
    hide BufferSize;
    while data < |trg|
      invariant data <= |trg| && (data < |trg| ==> RABIN_WINDOW <= data)
      invariant BufferSize(|out|, maxSize) && outpos + 7 <= |out|
      invariant Encoding(index, rabin, trg, out, outpos, inscnt, data, ops)
      invariant Candidate(src, trg, moff, data, msize)
      invariant data < |trg| && Searchable(index, rabin) ==> HashReady(rabin, trg, data, val, msize)
    {
      var giveUp;
      out, outpos, inscnt, data, moff, msize, val, ops, giveUp :=
        Round(index, rabin, trg, maxSize, out, outpos, inscnt, data, moff, msize, val, ops);
      if giveUp { return None; } // outpos exceeds maxSize: the check behind the loop discards the buffer
    }
    delta := Finish(index, rabin, out, outpos, inscnt, maxSize, trg, ops);
  }

  lemma EncodingStart(index: DeltaIndex, rabin: Rabin, trg: bytes, out: bytes, outpos: nat, inscnt: nat)
    requires IndexInRange(index) && inscnt <= RABIN_WINDOW
    requires State(out, outpos, inscnt, inscnt, VarintBytes(|index.src|) + VarintBytes(|trg|), [], index.src, trg)
    ensures Encoding(index, rabin, trg, out, outpos, inscnt, inscnt, [])
  {
    hide Greedy, VarintBytes;
    GreedyStart(index, rabin, trg, inscnt);
  }

  lemma NoCandidate(src: bytes, trg: bytes, data: nat)
    requires data <= |trg|
    ensures Candidate(src, trg, 0, data, 0)
  {
  }

  lemma StateBounds(out: bytes, outpos: nat, inscnt: nat, data: nat,
                    header: bytes, ops: seq<Op>, src: bytes, trg: bytes)
    requires State(out, outpos, inscnt, data, header, ops, src, trg)
    ensures data <= |trg| && outpos <= |out|
  {
  }

  /** Writes the last count; a delta beyond the bound is thrown away. */
  method Finish(ghost index: DeltaIndex, ghost rabin: Rabin, out: bytes, outpos: nat, inscnt: nat, maxSize: nat, ghost trg: bytes, ghost ops: seq<Op>)
      returns (delta: Option<bytes>)
    requires |index.src| < USIZE_BOUND && |trg| < USIZE_BOUND
    requires Encoding(index, rabin, trg, out, outpos, inscnt, |trg|, ops)
    ensures delta.Some? ==> Decode(delta.value, index.src) == Some(trg)
    ensures delta.None? <==> maxSize > 0 && outpos > maxSize
    ensures delta.Some? ==> |delta.value| == outpos
    ensures delta.Some? && Searchable(index, rabin) ==> Thrifty(index, rabin, trg, delta.value)
  {
    ghost var src := index.src;
    ghost var header := VarintBytes(|src|) + VarintBytes(|trg|);
    hide Written, Decode, VarintBytes, Searchable, Thrifty, Greedy;
    var out' := out;
    ghost var ops' := ops;
    if inscnt > 0 {
      out' := FlushLiterals(out, outpos, inscnt, |trg|, header, ops, src, trg);
      ops' := ops + [Literal(trg[|trg| - inscnt..|trg|])];
    }
    if maxSize > 0 && outpos > maxSize { return None; }
    Complete(out', outpos, ops', src, trg);
    FinishGreedy(index, rabin, trg, out, outpos, inscnt, ops, out'[..outpos], ops');
    delta := Some(out'[..outpos]);
  }

  lemma FinishGreedy(index: DeltaIndex, rabin: Rabin, trg: bytes, out: bytes, outpos: nat, inscnt: nat, ops: seq<Op>, delta: bytes, ops': seq<Op>)
    requires Encoding(index, rabin, trg, out, outpos, inscnt, |trg|, ops)
    requires ops' == if inscnt > 0 then ops + [Literal(trg[|trg| - inscnt..|trg|])] else ops
    requires IsDelta(delta, index.src, trg, VarintBytes(|index.src|), VarintBytes(|trg|), ops')
    ensures Searchable(index, rabin) ==> Thrifty(index, rabin, trg, delta)
  {
    hide NoMatchAt, LiteralAt, OpsMeaning, OpsBytes, VarintBytes, Searchable, Greedy, OpApplies;
    if Searchable(index, rabin) {
      if inscnt > 0 { GreedyFlush(index, rabin, trg, ops, |trg| - inscnt, |trg|, |trg|); }
      assert Greedy(index, rabin, trg, ops', |trg|, |trg|);
    }
  }
}
