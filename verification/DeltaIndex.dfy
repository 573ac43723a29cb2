/**
 Building the index of a source buffer: `create_delta_index` of docs/gitc/diff-delta.c. Entries are
 chained into hash buckets, over-full buckets are thinned out in place, and what is left is packed
 into one array.
 */
module DeltaIndexing {
  import opened Basics
  import opened Chains
  import opened GitDelta
  import opened DeltaFormat
  import opened DeltaEncode

  const HASH_LIMIT: nat := 64

  // ---------------------------------------------------------------- chains

  /** Only links of nodes on the chain differ. */
  ghost predicate OnlyLinksOf(chain: seq<nat>, before: seq<int>, after: seq<int>) {
    |before| == |after| && forall n :: 0 <= n < |before| && n !in chain ==> after[n] == before[n]
  }

  // ---------------------------------------------------------------- culling

  /** How many nodes are gone once the accumulator has been fed `total`: the share rounded up. */
  ghost function Gone(total: nat): nat {
    (total + HASH_LIMIT - 1) / HASH_LIMIT
  }

  /** Position of the node kept in round `k` when `surplus` nodes have to go. */
  ghost function KeptAt(k: nat, surplus: nat): (p: nat)
    ensures k < HASH_LIMIT ==> p < HASH_LIMIT + surplus
  {
    assert k < HASH_LIMIT ==> k * surplus <= HASH_LIMIT * surplus;
    k + Gone(k * surplus)
  }

  ghost function KeptPositions(n: nat, surplus: nat): seq<nat> {
    seq(n, j requires 0 <= j < n => KeptAt(j, surplus))
  }

  lemma KeptPositionsSnoc(n: nat, surplus: nat)
    ensures KeptPositions(n + 1, surplus) == KeptPositions(n, surplus) + [KeptAt(n, surplus)]
  {
  }

  /** The nodes that stay: every round keeps one and drops its share of the surplus behind it. */
  ghost function Thinned(chain: seq<nat>): (kept: seq<nat>)
    requires |chain| > HASH_LIMIT
    ensures |kept| == HASH_LIMIT
  {
    seq(HASH_LIMIT, k requires 0 <= k < HASH_LIMIT => chain[KeptAt(k, |chain| - HASH_LIMIT)])
  }

  /** The rounds done so far: `kept` holds the positions kept, chained up to position `pos`. */
  ghost predicate Relinked(next: seq<int>, chain: seq<nat>, kept: seq<nat>, pos: nat) {
    && (forall i :: 0 <= i < |chain| ==> chain[i] < |next|)
    && (forall j :: 0 <= j < |kept| ==> KeptLink(next, chain, kept, pos, j))
    && (forall i :: pos <= i < |chain| ==> next[chain[i]] == At(chain, i + 1))
  }

  /** The `j`th kept node is linked to the next kept one, the last of them to position `pos`. */
  ghost predicate KeptLink(next: seq<int>, chain: seq<nat>, kept: seq<nat>, pos: nat, j: nat)
    requires j < |kept| && forall i :: 0 <= i < |chain| ==> chain[i] < |next|
  {
    && kept[j] < pos && kept[j] < |chain|
    && next[chain[kept[j]]] == At(chain, if j + 1 < |kept| then kept[j + 1] else pos)
  }

  /** Skips nodes while the accumulator is positive; `pos` is where the first skipped node stands. */
  method Skip(next: array<int>, entry0: int, acc0: int, ghost chain: seq<nat>, ghost pos0: nat, ghost surplus: nat)
      returns (entry: int, acc: int, ghost pos: nat)
    requires |chain| == HASH_LIMIT + surplus
    requires forall i :: 0 <= i < |chain| ==> chain[i] < next.Length
    requires forall i :: pos0 <= i < |chain| ==> next[chain[i]] == At(chain, i + 1)
    requires pos0 < |chain| && entry0 == chain[pos0] && acc0 > 0
    requires pos0 + Gone(acc0) < |chain|
    ensures pos == pos0 + Gone(acc0) < |chain| && entry == chain[pos]
    ensures acc == acc0 - HASH_LIMIT * Gone(acc0) && -64 < acc <= 0
  {
    pos := pos0 + 1;
    entry, acc := next[entry0], acc0 - HASH_LIMIT;
    while acc > 0
      invariant pos0 < pos <= pos0 + Gone(acc0) && entry == chain[pos]
      invariant acc == acc0 - HASH_LIMIT * (pos - pos0) && -64 < acc
    {
      pos := pos + 1;
      entry, acc := next[entry], acc - HASH_LIMIT;
    }
  }

  /** Position and accumulator after `k` rounds. */
  ghost predicate Balanced(k: nat, surplus: nat, pos: nat, acc: int) {
    && k <= HASH_LIMIT
    && pos == KeptAt(k, surplus)
    && acc == k * surplus - HASH_LIMIT * Gone(k * surplus)
  }

  /** Nodes dropped in a round that starts with the accumulator at `acc`. */
  ghost function Dropped(acc: int, surplus: nat): nat {
    if acc + surplus > 0 then Gone(acc + surplus) else 0
  }

  /** While there are nodes left, fewer than 64 rounds are done and the next one stays in the chain. */
  lemma BalancedStep(k: nat, surplus: nat, pos: nat, acc: int)
    requires Balanced(k, surplus, pos, acc) && surplus > 0 && pos < HASH_LIMIT + surplus
    ensures k < HASH_LIMIT && -64 < acc <= 0
    ensures pos + Dropped(acc, surplus) < HASH_LIMIT + surplus
    ensures Balanced(k + 1, surplus, pos + 1 + Dropped(acc, surplus),
                     acc + surplus - HASH_LIMIT * Dropped(acc, surplus))
  {
    hide Gone, Dropped;
    var total := k * surplus;
    Shares(k, surplus);
    Shares(k + 1, surplus);
    GoneFacts(total);
    GoneFacts(total + surplus);
    RoundShare(total, surplus);
  }

  lemma Shares(k: nat, surplus: nat)
    ensures k <= HASH_LIMIT ==> k * surplus <= HASH_LIMIT * surplus
    ensures k == HASH_LIMIT ==> k * surplus == HASH_LIMIT * surplus
    ensures k > 0 ==> k * surplus == (k - 1) * surplus + surplus
  {
  }

  lemma GoneFacts(total: nat)
    ensures total <= HASH_LIMIT * Gone(total) < total + HASH_LIMIT
  {
  }

  /** At the end of the chain all 64 rounds are done and the accumulator balances out. */
  lemma BalancedEnd(k: nat, surplus: nat, pos: nat, acc: int)
    requires Balanced(k, surplus, pos, acc) && pos == HASH_LIMIT + surplus
    ensures k == HASH_LIMIT && acc == 0
  {
    assert k <= HASH_LIMIT - 1 ==> k * surplus <= (HASH_LIMIT - 1) * surplus;
    assert k == HASH_LIMIT ==> k * surplus == HASH_LIMIT * surplus;
  }

  /** What a round drops, and what the accumulator keeps of it. */
  lemma RoundShare(total: nat, surplus: nat)
    ensures var acc := total - HASH_LIMIT * Gone(total);
      && -64 < acc <= 0
      && Gone(total + surplus) == Gone(total) + Dropped(acc, surplus)
  {
  }

  /** Linking the node at `keep` to position `pos` extends the list of kept nodes. */
  lemma RelinkStep(before: seq<int>, after: seq<int>, chain: seq<nat>, kept: seq<nat>, keep: nat, pos: nat)
    requires Relinked(before, chain, kept, keep) && Distinct(chain)
    requires keep < |chain| && keep < pos <= |chain| && |before| == |after|
    requires forall n :: 0 <= n < |before| && n != chain[keep] ==> after[n] == before[n]
    requires after[chain[keep]] == At(chain, pos)
    ensures Relinked(after, chain, kept + [keep], pos)
  {
    var more := kept + [keep];
    forall j | 0 <= j < |more|
      ensures KeptLink(after, chain, more, pos, j)
    {
      if j < |kept| {
        assert KeptLink(before, chain, kept, keep, j);
        assert chain[kept[j]] != chain[keep];
      }
    }
    assert forall i :: pos <= i < |chain| ==> chain[i] != chain[keep];
  }

  lemma RelinkedThinned(next: seq<int>, head: int, chain: seq<nat>, kept: seq<nat>)
    requires |chain| > HASH_LIMIT == |kept| && head == At(chain, 0)
    requires kept == KeptPositions(HASH_LIMIT, |chain| - HASH_LIMIT)
    requires Relinked(next, chain, kept, |chain|)
    ensures Linked(next, head, Thinned(chain))
  {
    var t := Thinned(chain);
    assert kept[0] == KeptAt(0, |chain| - HASH_LIMIT) == 0;
    hide KeptAt;
    forall j | 0 <= j < HASH_LIMIT
      ensures next[t[j]] == At(t, j + 1)
    {
      assert KeptLink(next, chain, kept, |chain|, j);
      assert t[j] == chain[kept[j]];
      if j + 1 < HASH_LIMIT { assert t[j + 1] == chain[kept[j + 1]]; }
    }
  }

  /** One round: keep the node at `pos`, drop its share of the nodes behind it. */
  method CullRound(next: array<int>, entry0: int, acc0: int, count: nat,
                   ghost chain: seq<nat>, ghost kept: seq<nat>, ghost pos0: nat)
      returns (entry: int, acc: int, ghost pos: nat)
    requires count == |chain| > HASH_LIMIT && Distinct(chain)
    requires pos0 < |chain| && entry0 == chain[pos0] && -64 < acc0 <= 0
    requires Relinked(next[..], chain, kept, pos0)
    requires pos0 + Dropped(acc0, count - HASH_LIMIT) < |chain|
    modifies next
    ensures Relinked(next[..], chain, kept + [pos0], pos) && pos <= |chain| && entry == At(chain, pos)
    ensures OnlyLinksOf(chain, old(next[..]), next[..])
    ensures var surplus := count - HASH_LIMIT;
      && pos == pos0 + 1 + Dropped(acc0, surplus)
      && acc == acc0 + surplus - HASH_LIMIT * Dropped(acc0, surplus)
  {
    hide Gone;
    acc := acc0 + (count - HASH_LIMIT);
    entry, pos := entry0, pos0;
    if acc > 0 {
      entry, acc, pos := Skip(next, entry0, acc, chain, pos0, count - HASH_LIMIT);
      assert next[entry] == At(chain, pos + 1) && entry != entry0;
      next[entry0] := next[entry];
    }
    entry := next[entry];
    pos := pos + 1;
    assert next[entry0] == entry == At(chain, pos);
    RelinkStep(old(next[..]), next[..], chain, kept, pos0, pos);
  }

  /**
   Thins out a chain of more than 64 nodes. No link past the end is followed, there are exactly 64
   rounds, the accumulator ends at zero, and exactly the 64 nodes of `Thinned` stay.
   */
  method CullBucket(next: array<int>, head: int, count: nat, ghost chain: seq<nat>)
      returns (acc: int, ghost rounds: nat)
    requires count == |chain| > HASH_LIMIT
    requires Linked(next[..], head, chain) && Distinct(chain)
    modifies next
    ensures Linked(next[..], head, Thinned(chain))
    ensures OnlyLinksOf(chain, old(next[..]), next[..])
    ensures acc == 0 && rounds == HASH_LIMIT
  {
    ghost var surplus := count - HASH_LIMIT;
    ghost var kept: seq<nat>, pos: nat := [], 0;
    var entry := head;
    acc, rounds := 0, 0;
    hide Relinked, Progress, Dropped, Linked, Thinned, Distinct, OnlyLinksOf;
    CullStart(next[..], head, chain, surplus);
    while entry != NIL
      invariant Progress(rounds, surplus, pos, acc, kept)
      invariant pos <= |chain| && entry == At(chain, pos)
      invariant Relinked(next[..], chain, kept, pos)
      invariant OnlyLinksOf(chain, old(next[..]), next[..])
      decreases |chain| - pos
    {
      ProgressStep(rounds, surplus, pos, acc, kept);
      ghost var keep, before := pos, next[..];
      entry, acc, pos := CullRound(next, entry, acc, count, chain, kept, pos);
      OnlyLinksTwice(chain, old(next[..]), before, next[..]);
      kept, rounds := kept + [keep], rounds + 1;
    }
    ProgressEnd(rounds, surplus, pos, acc, kept);
    RelinkedThinned(next[..], head, chain, kept);
  }

  lemma CullStart(next: seq<int>, head: int, chain: seq<nat>, surplus: nat)
    requires Linked(next, head, chain)
    ensures Progress(0, surplus, 0, 0, []) && Relinked(next, chain, [], 0)
    ensures head == At(chain, 0) && OnlyLinksOf(chain, next, next)
  {
  }

  /** The state after `k` rounds, with the positions kept so far. */
  ghost predicate Progress(k: nat, surplus: nat, pos: nat, acc: int, kept: seq<nat>) {
    Balanced(k, surplus, pos, acc) && kept == KeptPositions(k, surplus)
  }

  lemma ProgressStep(k: nat, surplus: nat, pos: nat, acc: int, kept: seq<nat>)
    requires Progress(k, surplus, pos, acc, kept) && surplus > 0 && pos < HASH_LIMIT + surplus
    ensures -64 < acc <= 0 && pos + Dropped(acc, surplus) < HASH_LIMIT + surplus
    ensures Progress(k + 1, surplus, pos + 1 + Dropped(acc, surplus),
                     acc + surplus - HASH_LIMIT * Dropped(acc, surplus), kept + [pos])
  {
    hide Gone, Dropped, KeptAt, KeptPositions;
    BalancedStep(k, surplus, pos, acc);
    KeptPositionsSnoc(k, surplus);
  }

  lemma ProgressEnd(k: nat, surplus: nat, pos: nat, acc: int, kept: seq<nat>)
    requires Progress(k, surplus, pos, acc, kept) && pos == HASH_LIMIT + surplus
    ensures k == HASH_LIMIT && acc == 0 && kept == KeptPositions(HASH_LIMIT, surplus)
  {
    BalancedEnd(k, surplus, pos, acc);
  }

  lemma OnlyLinksTwice(chain: seq<nat>, a: seq<int>, b: seq<int>, c: seq<int>)
    requires OnlyLinksOf(chain, a, b) && OnlyLinksOf(chain, b, c)
    ensures OnlyLinksOf(chain, a, c)
  {
  }

  // ---------------------------------------------------------------- populating the buckets

  /** The hash recorded for an entry is that of the window ending at its position. */
  ghost predicate EntrySound(entry: IndexEntry, rabin: Rabin, src: bytes) {
    && RABIN_WINDOW <= entry.ptr < |src| && entry.ptr < OFFSET_BOUND
    && entry.val == HashOf(rabin, 0, src[entry.ptr - RABIN_WINDOW + 1..entry.ptr + 1])
  }

  /** One bucket: a chain of distinct nodes whose hashes belong there. */
  ghost predicate BucketOk(next: seq<int>, head: int, chain: seq<nat>, nodes: seq<IndexEntry>, hsize: nat, b: nat)
    requires hsize > 0
  {
    && Linked(next, head, chain) && Distinct(chain)
    && forall i :: 0 <= i < |chain| ==> chain[i] < |nodes| && nodes[chain[i]].val % hsize == b
  }

  ghost predicate BucketsOk(next: seq<int>, hash: seq<int>, lists: seq<seq<nat>>, nodes: seq<IndexEntry>) {
    && |hash| == |lists| && |hash| > 0 && |nodes| <= |next|
    && forall b :: 0 <= b < |hash| ==> BucketOk(next, hash[b], lists[b], nodes, |hash|, b)
  }

  /** Nodes in all buckets together. */
  ghost function Total(lists: seq<seq<nat>>): nat {
    if lists == [] then 0 else |lists[0]| + Total(lists[1..])
  }

  lemma {:induction false} TotalUpdate(lists: seq<seq<nat>>, b: nat, chain: seq<nat>)
    requires b < |lists|
    ensures Total(lists[b := chain]) == Total(lists) - |lists[b]| + |chain|
  {
    if b == 0 {
      assert lists[b := chain][1..] == lists[1..];
    } else {
      assert lists[b := chain][1..] == lists[1..][b - 1 := chain];
      TotalUpdate(lists[1..], b - 1, chain);
    }
  }

  lemma {:induction false} TotalEmpty(lists: seq<seq<nat>>)
    requires forall b :: 0 <= b < |lists| ==> lists[b] == []
    ensures Total(lists) == 0
  {
    if lists != [] { TotalEmpty(lists[1..]); }
  }

  /** Pushing a fresh node in front of a bucket. */
  lemma PushNode(next: seq<int>, next': seq<int>, hash: seq<int>, lists: seq<seq<nat>>,
                 nodes: seq<IndexEntry>, entry: IndexEntry, b: nat)
    requires BucketsOk(next, hash, lists, nodes) && |nodes| < |next|
    requires b == entry.val % |hash|
    requires next' == next[|nodes| := hash[b]]
    ensures BucketsOk(next', hash[b := |nodes|], lists[b := [|nodes|] + lists[b]], nodes + [entry])
  {
    hide BucketOk;
    var m, chain := |nodes|, [|nodes|] + lists[b];
    var hash', lists', nodes' := hash[b := m], lists[b := chain], nodes + [entry];
    forall c | 0 <= c < |hash|
      ensures BucketOk(next', hash'[c], lists'[c], nodes', |hash|, c)
    {
      assert BucketOk(next, hash[c], lists[c], nodes, |hash|, c);
      if c == b {
        BucketPushed(next, hash[c], lists[c], nodes, |hash|, c, entry);
      } else {
        BucketLeft(next, hash[c], lists[c], nodes, |hash|, c, entry, hash[b]);
      }
    }
  }

  lemma BucketLeft(next: seq<int>, head: int, chain: seq<nat>, nodes: seq<IndexEntry>, hsize: nat, b: nat, entry: IndexEntry, link: int)
    requires hsize > 0 && BucketOk(next, head, chain, nodes, hsize, b) && |nodes| < |next|
    ensures BucketOk(next[|nodes| := link], head, chain, nodes + [entry], hsize, b)
  {
    hide Distinct;
  }

  lemma BucketPushed(next: seq<int>, head: int, chain: seq<nat>, nodes: seq<IndexEntry>, hsize: nat, b: nat, entry: IndexEntry)
    requires hsize > 0 && BucketOk(next, head, chain, nodes, hsize, b) && |nodes| < |next| && entry.val % hsize == b
    ensures BucketOk(next[|nodes| := head], |nodes|, [|nodes|] + chain, nodes + [entry], hsize, b)
  {
    var chain', next', nodes' := [|nodes|] + chain, next[|nodes| := head], nodes + [entry];
    assert forall i :: 1 <= i < |chain'| ==> chain'[i] == chain[i - 1];
    forall i | 0 <= i < |chain'|
      ensures chain'[i] < |nodes'| && nodes'[chain'[i]].val % hsize == b && next'[chain'[i]] == At(chain', i + 1)
    {
      if i > 0 { assert chain[i - 1] < |nodes| && next[chain[i - 1]] == At(chain, i); }
    }
  }

  /** Number of blocks worth indexing, capped because offsets have 32 bits. */
  function BlockCount(size: nat): nat
    requires size > 0
  {
    if size >= 0xffff_ffff then 0xffff_fffe / RABIN_WINDOW else (size - 1) / RABIN_WINDOW
  }

  /** Smallest power of two that is at least 16 and a quarter of the entries. */
  method HashSize(entries: nat) returns (hsize: nat)
    ensures hsize >= 16 && hsize >= entries / 4 && exists i: nat :: hsize == Pow2(i)
    ensures hsize > 16 ==> hsize < 2 * (entries / 4)
  {
    var i := 4;
    assert Pow2(4) == 16;
    while Pow2(i) < entries / 4
      invariant i >= 4 && Pow2(i) >= 16 && (i > 4 ==> Pow2(i) < 2 * (entries / 4))
      decreases entries / 4 - Pow2(i)
    {
      i := i + 1;
    }
    hsize := Pow2(i);
  }

  /** The tables being filled: chain heads, chain lengths, and the nodes in order of creation. */
  datatype Table = Table(hash: seq<int>, hashCount: seq<nat>, nodes: seq<IndexEntry>)

  ghost predicate TableOk(t: Table, next: seq<int>, lists: seq<seq<nat>>, rabin: Rabin, src: bytes) {
    && |t.hash| == |t.hashCount|
    && BucketsOk(next, t.hash, lists, t.nodes)
    && (forall b :: 0 <= b < |lists| ==> t.hashCount[b] == |lists[b]|)
    && Total(lists) == |t.nodes|
    && forall n :: 0 <= n < |t.nodes| ==> EntrySound(t.nodes[n], rabin, src)
  }

  lemma EmptyTable(t: Table, next: seq<int>, lists: seq<seq<nat>>, rabin: Rabin, src: bytes)
    requires t.nodes == [] && |t.hash| == |t.hashCount| == |lists| && |t.hash| > 0
    requires forall b :: 0 <= b < |lists| ==> t.hash[b] == NIL && t.hashCount[b] == 0 && lists[b] == []
    ensures TableOk(t, next, lists, rabin, src)
  {
    TotalEmpty(lists);
  }

  /** A new node, in front of its bucket. */
  method AddNode(t: Table, next: array<int>, entry: IndexEntry, ghost lists: seq<seq<nat>>, ghost rabin: Rabin, ghost src: bytes)
      returns (t': Table, ghost lists': seq<seq<nat>>)
    requires TableOk(t, next[..], lists, rabin, src) && |t.nodes| < next.Length
    requires EntrySound(entry, rabin, src)
    modifies next
    ensures TableOk(t', next[..], lists', rabin, src)
    ensures t'.nodes == t.nodes + [entry] && |t'.hash| == |t.hash|
    ensures lists' == lists[entry.val % |t.hash| := [|t.nodes|] + lists[entry.val % |t.hash|]]
  {
    var b, m := entry.val % |t.hash|, |t.nodes|;
    lists' := lists[b := [m] + lists[b]];
    ghost var before := next[..];
    next[m] := t.hash[b];
    PushNode(before, next[..], t.hash, lists, t.nodes, entry, b);
    TotalUpdate(lists, b, [m] + lists[b]);
    t' := Table(t.hash[b := m], t.hashCount[b := t.hashCount[b] + 1], t.nodes + [entry]);
    hide BucketsOk, Total;
    assert forall c :: 0 <= c < |lists'| ==> |lists'[c]| == if c == b then |lists[c]| + 1 else |lists[c]|;
  }

  /** The last node moves down to a lower block with the same hash. */
  lemma MoveNode(t: Table, next: seq<int>, entry: IndexEntry, lists: seq<seq<nat>>, rabin: Rabin, src: bytes)
    requires TableOk(t, next, lists, rabin, src) && |t.nodes| > 0
    requires EntrySound(entry, rabin, src) && entry.val == t.nodes[|t.nodes| - 1].val
    ensures TableOk(t.(nodes := t.nodes[|t.nodes| - 1 := entry]), next, lists, rabin, src)
  {
    hide EntrySound, Linked, Distinct;
    var nodes := t.nodes[|t.nodes| - 1 := entry];
    forall b | 0 <= b < |t.hash|
      ensures BucketOk(next, t.hash[b], lists[b], nodes, |t.hash|, b)
    {
      assert BucketOk(next, t.hash[b], lists[b], t.nodes, |t.hash|, b);
    }
  }

  /** Nodes are created from the last block down, so that their positions fall and every chain lists them newest first. */
  ghost predicate Falling(nodes: seq<IndexEntry>, lists: seq<seq<nat>>) {
    && (forall m, n :: 0 <= m < n < |nodes| ==> nodes[m].ptr > nodes[n].ptr)
    && (forall b, i, j :: 0 <= b < |lists| && 0 <= i < j < |lists[b]| ==> lists[b][i] > lists[b][j])
    && (forall b, i :: 0 <= b < |lists| && 0 <= i < |lists[b]| ==> lists[b][i] < |nodes|)
  }

  /** Hash of the window a block ends with. */
  ghost function BlockHash(rabin: Rabin, src: bytes, k: nat): nat
    requires (k + 1) * RABIN_WINDOW < |src|
  {
    HashOf(rabin, 0, src[k * RABIN_WINDOW + 1..k * RABIN_WINDOW + 1 + RABIN_WINDOW])
  }

  /** Among these nodes of a bucket one has this hash and lies at or below block `k`. */
  ghost predicate Listed(nodes: seq<IndexEntry>, chain: seq<nat>, val: nat, k: nat) {
    exists i :: 0 <= i < |chain| && chain[i] < |nodes| && nodes[chain[i]].val == val && nodes[chain[i]].ptr <= (k + 1) * RABIN_WINDOW
  }

  /** Every block from `from` on is listed in the bucket of its hash. */
  ghost predicate BlocksListed(src: bytes, rabin: Rabin, nodes: seq<IndexEntry>, lists: seq<seq<nat>>, from: int, blocks: nat) {
    && |lists| > 0 && (blocks > 0 ==> blocks * RABIN_WINDOW < |src|)
    && forall k: nat :: from <= k < blocks && (k + 1) * RABIN_WINDOW < |src| ==>
         var h := BlockHash(rabin, src, k);
         Listed(nodes, lists[h % |lists|], h, k)
  }

  lemma BlocksFit(size: nat)
    requires size > 0
    ensures BlockCount(size) > 0 ==> BlockCount(size) * RABIN_WINDOW < size
  {
  }

  lemma BlockCounted(size: nat, k: nat)
    requires (k + 1) * RABIN_WINDOW < size && (k + 1) * RABIN_WINDOW < 0xffff_ffff
    ensures k < BlockCount(size)
  {
  }

  lemma ListedLater(nodes: seq<IndexEntry>, chain: seq<nat>, entry: IndexEntry, val: nat, k: nat)
    requires Listed(nodes, chain, val, k)
    ensures Listed(nodes + [entry], chain, val, k)
    ensures Listed(nodes + [entry], [|nodes|] + chain, val, k)
  {
    var i :| 0 <= i < |chain| && chain[i] < |nodes| && nodes[chain[i]].val == val && nodes[chain[i]].ptr <= (k + 1) * RABIN_WINDOW;
    var all := [|nodes|] + chain;
    assert all[i + 1] == chain[i];
    assert (nodes + [entry])[chain[i]] == nodes[chain[i]];
  }

  /** A new node for block `block`, in front of its bucket. */
  lemma ListedNew(src: bytes, rabin: Rabin, nodes: seq<IndexEntry>, lists: seq<seq<nat>>, block: nat, blocks: nat, entry: IndexEntry)
    requires BlocksListed(src, rabin, nodes, lists, block + 1, blocks) && Falling(nodes, lists) && block < blocks
    requires (block + 1) * RABIN_WINDOW < |src| && entry == IndexEntry((block + 1) * RABIN_WINDOW, BlockHash(rabin, src, block))
    requires forall n :: 0 <= n < |nodes| ==> nodes[n].ptr > entry.ptr
    ensures var b := entry.val % |lists|;
      var lists' := lists[b := [|nodes|] + lists[b]];
      BlocksListed(src, rabin, nodes + [entry], lists', block, blocks) && Falling(nodes + [entry], lists')
  {
    hide BlockHash;
    var b, m, nodes' := entry.val % |lists|, |nodes|, nodes + [entry];
    var lists' := lists[b := [m] + lists[b]];
    forall k: nat | block <= k < blocks && (k + 1) * RABIN_WINDOW < |src|
      ensures var h := BlockHash(rabin, src, k); Listed(nodes', lists'[h % |lists'|], h, k)
    {
      var h := BlockHash(rabin, src, k);
      if k == block {
        assert lists'[b][0] == m && nodes'[m] == entry;
      } else {
        ListedLater(nodes, lists[h % |lists|], entry, h, k);
      }
    }
    hide Listed;
    assert forall i :: 1 <= i < |lists'[b]| ==> lists'[b][i] == lists[b][i - 1];
  }

  /** The newest node moves down to block `block`, which has the same hash. */
  lemma ListedMoved(src: bytes, rabin: Rabin, nodes: seq<IndexEntry>, lists: seq<seq<nat>>, block: nat, blocks: nat, entry: IndexEntry)
    requires BlocksListed(src, rabin, nodes, lists, block + 1, blocks) && Falling(nodes, lists) && block < blocks && nodes != []
    requires (block + 1) * RABIN_WINDOW < |src| && entry == IndexEntry((block + 1) * RABIN_WINDOW, BlockHash(rabin, src, block))
    requires nodes[|nodes| - 1].val == entry.val && nodes[|nodes| - 1].ptr > entry.ptr
    requires (|nodes| - 1) in lists[entry.val % |lists|]
    ensures var nodes' := nodes[|nodes| - 1 := entry];
      BlocksListed(src, rabin, nodes', lists, block, blocks) && Falling(nodes', lists)
  {
    hide BlockHash;
    var m := |nodes| - 1;
    var nodes' := nodes[m := entry];
    forall k: nat | block <= k < blocks && (k + 1) * RABIN_WINDOW < |src|
      ensures var h := BlockHash(rabin, src, k); Listed(nodes', lists[h % |lists|], h, k)
    {
      var h := BlockHash(rabin, src, k);
      var chain := lists[h % |lists|];
      if k == block {
        var i :| 0 <= i < |chain| && chain[i] == m;
        assert nodes'[chain[i]] == entry;
      } else {
        var i :| 0 <= i < |chain| && chain[i] < |nodes| && nodes[chain[i]].val == h && nodes[chain[i]].ptr <= (k + 1) * RABIN_WINDOW;
        assert nodes'[chain[i]].val == h && nodes'[chain[i]].ptr <= (k + 1) * RABIN_WINDOW;
      }
    }
  }

  /** Walks the blocks from the last to the first, merging runs of blocks with the same hash. */
  method Populate(src: bytes, rabin: Rabin, hsize: nat, next: array<int>)
      returns (t: Table, entries: nat, ghost lists: seq<seq<nat>>)
    requires src != [] && hsize > 0 && next.Length == BlockCount(|src|)
    modifies next
    ensures TableOk(t, next[..], lists, rabin, src) && |t.hash| == hsize == |lists|
    ensures entries == |t.nodes|
    ensures Falling(t.nodes, lists) && BlocksListed(src, rabin, t.nodes, lists, 0, BlockCount(|src|))
  {
    hide TableOk, BlocksListed, Falling, Filling, EntrySound, HashOf, BlockCount, BlockHash;
    var blocks := BlockCount(|src|);
    t := Table(seq(hsize, _ => NIL), seq(hsize, _ => 0), []);
    lists, entries := seq(hsize, _ => []), blocks;
    EmptyTable(t, next[..], lists, rabin, src);
    BlocksFit(|src|);
    NothingListed(src, rabin, lists, blocks);
    FillStart(src, rabin, t, lists, blocks);
    var prevVal: int := -1; // no hash of a window
    var block := blocks - 1;
    while block >= 0
      invariant -1 <= block < blocks && |t.nodes| + block < blocks
      invariant entries == |t.nodes| + block + 1
      invariant |t.hash| == hsize == |lists| && TableOk(t, next[..], lists, rabin, src)
      invariant Filling(src, rabin, t, lists, block, blocks, prevVal)
    {
      var data := block * RABIN_WINDOW;
      var val := HashRange(rabin, src, data + 1, data + 1 + RABIN_WINDOW);
      var entry := IndexEntry(data + RABIN_WINDOW, val);
      BlockEntry(src, rabin, block, blocks, entry);
      if val == prevVal {
        FillMove(src, rabin, t, lists, block, blocks, entry);
        MoveNode(t, next[..], entry, lists, rabin, src);
        t := t.(nodes := t.nodes[|t.nodes| - 1 := entry]);
        entries := entries - 1;
      } else {
        ghost var t0, lists0, before := t, lists, prevVal;
        prevVal := val;
        t, lists := AddNode(t, next, entry, lists, rabin, src);
        FillNew(src, rabin, t0, lists0, block, blocks, before, entry, t, lists);
      }
      block := block - 1;
    }
    FillEnd(src, rabin, t, lists, blocks, prevVal);
  }

  /** The blocks behind `block` are in the table, and the newest node has the hash remembered. */
  ghost predicate Filling(src: bytes, rabin: Rabin, t: Table, lists: seq<seq<nat>>, block: int, blocks: nat, prevVal: int) {
    && Falling(t.nodes, lists) && |t.hash| == |lists| && BlocksListed(src, rabin, t.nodes, lists, block + 1, blocks)
    && (forall n :: 0 <= n < |t.nodes| ==> t.nodes[n].ptr > (block + 1) * RABIN_WINDOW)
    && (prevVal >= 0 ==> |t.nodes| > 0 && t.nodes[|t.nodes| - 1].val == prevVal && (|t.nodes| - 1) in lists[prevVal % |lists|])
  }

  lemma FillStart(src: bytes, rabin: Rabin, t: Table, lists: seq<seq<nat>>, blocks: nat)
    requires t.nodes == [] && |t.hash| == |lists| && Falling([], lists) && BlocksListed(src, rabin, [], lists, blocks, blocks)
    ensures Filling(src, rabin, t, lists, blocks - 1, blocks, -1)
  {
    hide Falling, BlocksListed;
  }

  lemma FillEnd(src: bytes, rabin: Rabin, t: Table, lists: seq<seq<nat>>, blocks: nat, prevVal: int)
    requires Filling(src, rabin, t, lists, -1, blocks, prevVal)
    ensures Falling(t.nodes, lists) && BlocksListed(src, rabin, t.nodes, lists, 0, blocks)
  {
    hide Falling, BlocksListed;
  }

  lemma BlockEntry(src: bytes, rabin: Rabin, block: nat, blocks: nat, entry: IndexEntry)
    requires src != [] && block < blocks == BlockCount(|src|) && blocks * RABIN_WINDOW < |src|
    requires entry.ptr == block * RABIN_WINDOW + RABIN_WINDOW
    requires entry.val == HashOf(rabin, 0, src[block * RABIN_WINDOW + 1..block * RABIN_WINDOW + 1 + RABIN_WINDOW])
    ensures EntrySound(entry, rabin, src) && (block + 1) * RABIN_WINDOW < |src|
    ensures entry == IndexEntry((block + 1) * RABIN_WINDOW, BlockHash(rabin, src, block))
  {
  }

  lemma FillMove(src: bytes, rabin: Rabin, t: Table, lists: seq<seq<nat>>, block: nat, blocks: nat, entry: IndexEntry)
    requires Filling(src, rabin, t, lists, block, blocks, entry.val) && block < blocks && (block + 1) * RABIN_WINDOW < |src|
    requires entry == IndexEntry((block + 1) * RABIN_WINDOW, BlockHash(rabin, src, block))
    ensures t.nodes != [] && t.nodes[|t.nodes| - 1].val == entry.val
    ensures Filling(src, rabin, t.(nodes := t.nodes[|t.nodes| - 1 := entry]), lists, block - 1, blocks, entry.val)
  {
    BlocksAny(src, rabin, t.nodes, lists, block + 1, blocks);
    hide Falling, BlocksListed;
    ListedMoved(src, rabin, t.nodes, lists, block, blocks, entry);
  }

  lemma BlocksAny(src: bytes, rabin: Rabin, nodes: seq<IndexEntry>, lists: seq<seq<nat>>, from: int, blocks: nat)
    requires BlocksListed(src, rabin, nodes, lists, from, blocks)
    ensures |lists| > 0
  {
  }

  lemma FillNew(src: bytes, rabin: Rabin, t: Table, lists: seq<seq<nat>>, block: nat, blocks: nat, prevVal: int, entry: IndexEntry,
                t': Table, lists': seq<seq<nat>>)
    requires Filling(src, rabin, t, lists, block, blocks, prevVal)
    requires block < blocks && (block + 1) * RABIN_WINDOW < |src| && |t.hash| == |lists| > 0
    requires entry == IndexEntry((block + 1) * RABIN_WINDOW, BlockHash(rabin, src, block))
    requires t'.nodes == t.nodes + [entry] && |t'.hash| == |t.hash|
    requires lists' == lists[entry.val % |t.hash| := [|t.nodes|] + lists[entry.val % |t.hash|]]
    ensures Filling(src, rabin, t', lists', block - 1, blocks, entry.val)
  {
    hide Falling, BlocksListed;
    ListedNew(src, rabin, t.nodes, lists, block, blocks, entry);
    assert lists'[entry.val % |lists'|][0] == |t'.nodes| - 1;
  }

  lemma NothingListed(src: bytes, rabin: Rabin, lists: seq<seq<nat>>, blocks: nat)
    requires |lists| > 0 && (blocks > 0 ==> blocks * RABIN_WINDOW < |src|) && forall b :: 0 <= b < |lists| ==> lists[b] == []
    ensures Falling([], lists) && BlocksListed(src, rabin, [], lists, blocks, blocks)
  {
  }

  // ---------------------------------------------------------------- all buckets

  /** A bucket after culling. */
  ghost function Cut(chain: seq<nat>): (cut: seq<nat>)
    ensures |cut| <= HASH_LIMIT
  {
    if |chain| > HASH_LIMIT then Thinned(chain) else chain
  }

  lemma KeptAtIncreases(j: nat, k: nat, surplus: nat)
    requires j < k
    ensures KeptAt(j, surplus) < KeptAt(k, surplus)
  {
    assert j * surplus <= k * surplus;
    GoneGrows(j * surplus, k * surplus);
  }

  lemma GoneGrows(a: nat, b: nat)
    requires a <= b
    ensures Gone(a) <= Gone(b)
  {
  }

  lemma ThinnedOk(chain: seq<nat>)
    requires |chain| > HASH_LIMIT && Distinct(chain)
    ensures Distinct(Thinned(chain))
    ensures forall i :: 0 <= i < HASH_LIMIT ==> Thinned(chain)[i] in chain
  {
    var t := Thinned(chain);
    forall i, j | 0 <= i < j < HASH_LIMIT
      ensures t[i] != t[j]
    {
      KeptAtIncreases(i, j, |chain| - HASH_LIMIT);
    }
  }

  lemma ThinnedBucket(after: seq<int>, head: int, chain: seq<nat>, nodes: seq<IndexEntry>, hsize: nat, b: nat, before: seq<int>)
    requires hsize > 0 && |chain| > HASH_LIMIT
    requires BucketOk(before, head, chain, nodes, hsize, b) && Linked(after, head, Thinned(chain))
    ensures BucketOk(after, head, Thinned(chain), nodes, hsize, b)
  {
    hide Linked;
    ThinnedOk(chain);
    hide Thinned, Distinct;
    forall i | 0 <= i < HASH_LIMIT
      ensures Thinned(chain)[i] < |nodes| && nodes[Thinned(chain)[i]].val % hsize == b
    {
      var j :| 0 <= j < |chain| && chain[j] == Thinned(chain)[i];
    }
  }

  /** A bucket without nodes of the culled chain is left alone. */
  lemma OtherBucket(before: seq<int>, after: seq<int>, culled: seq<nat>,
                    head: int, chain: seq<nat>, nodes: seq<IndexEntry>, hsize: nat, b: nat)
    requires hsize > 0 && BucketOk(before, head, chain, nodes, hsize, b) && OnlyLinksOf(culled, before, after)
    requires forall i :: 0 <= i < |culled| ==> culled[i] < |nodes| && nodes[culled[i]].val % hsize != b
    ensures BucketOk(after, head, chain, nodes, hsize, b)
  {
    hide Distinct, At;
    forall k | 0 <= k < |chain|
      ensures after[chain[k]] == before[chain[k]]
    {
      assert chain[k] !in culled;
    }
  }

  /** Thinning one bucket leaves the others alone, because no node is in two buckets. */
  lemma CulledBuckets(before: seq<int>, after: seq<int>, t: Table, lists: seq<seq<nat>>, i: nat)
    requires BucketsOk(before, t.hash, lists, t.nodes) && i < |lists| && |lists[i]| > HASH_LIMIT
    requires OnlyLinksOf(lists[i], before, after) && Linked(after, t.hash[i], Thinned(lists[i]))
    ensures BucketsOk(after, t.hash, lists[i := Thinned(lists[i])], t.nodes)
  {
    assert |before| == |after|;
    assert BucketOk(before, t.hash[i], lists[i], t.nodes, |t.hash|, i);
    hide Linked, Distinct, Thinned, OnlyLinksOf;
    var lists' := lists[i := Thinned(lists[i])];
    forall b | 0 <= b < |t.hash|
      ensures BucketOk(after, t.hash[b], lists'[b], t.nodes, |t.hash|, b)
    {
      assert BucketOk(before, t.hash[b], lists[b], t.nodes, |t.hash|, b);
      if b == i {
        ThinnedBucket(after, t.hash[b], lists[b], t.nodes, |t.hash|, b, before);
      } else {
        OtherBucket(before, after, lists[i], t.hash[b], lists[b], t.nodes, |t.hash|, b);
      }
    }
  }

  /** Culls every over-full bucket; `entries` keeps counting what is left. */
  method CullAll(t: Table, next: array<int>, entries0: nat, ghost lists: seq<seq<nat>>, ghost rabin: Rabin, ghost src: bytes)
      returns (entries: nat, ghost cut: seq<seq<nat>>)
    requires TableOk(t, next[..], lists, rabin, src) && entries0 == |t.nodes|
    modifies next
    ensures BucketsOk(next[..], t.hash, cut, t.nodes) && |cut| == |lists|
    ensures forall b :: 0 <= b < |cut| ==> cut[b] == Cut(lists[b])
    ensures entries == Total(cut)
  {
    cut, entries := lists, entries0;
    hide Thinned, Linked, Distinct, Total;
    for i := 0 to |t.hash|
      invariant |cut| == |lists| && BucketsOk(next[..], t.hash, cut, t.nodes)
      invariant forall b :: 0 <= b < i ==> cut[b] == Cut(lists[b])
      invariant forall b :: i <= b < |cut| ==> cut[b] == lists[b]
      invariant entries == Total(cut)
    {
      if t.hashCount[i] <= HASH_LIMIT { continue; }
      assert BucketOk(next[..], t.hash[i], cut[i], t.nodes, |t.hash|, i);
      ghost var before := next[..];
      TotalUpdate(cut, i, Thinned(cut[i]));
      entries := entries - (t.hashCount[i] - HASH_LIMIT);
      var _, _ := CullBucket(next, t.hash[i], t.hashCount[i], cut[i]);
      CulledBuckets(before, next[..], t, cut, i);
      cut := cut[i := Thinned(cut[i])];
    }
  }

  // ---------------------------------------------------------------- packing

  ghost function Entries(chain: seq<nat>, nodes: seq<IndexEntry>): seq<IndexEntry>
    requires forall i :: 0 <= i < |chain| ==> chain[i] < |nodes|
  {
    seq(|chain|, i requires 0 <= i < |chain| => nodes[chain[i]])
  }

  /** Appends the entries of one chain. */
  method PackBucket(packed0: seq<IndexEntry>, next: array<int>, head: int, nodes: seq<IndexEntry>, ghost chain: seq<nat>)
      returns (packed: seq<IndexEntry>)
    requires Linked(next[..], head, chain) && forall i :: 0 <= i < |chain| ==> chain[i] < |nodes|
    ensures packed == packed0 + Entries(chain, nodes)
  {
    packed := packed0;
    var entry := head;
    ghost var i := 0;
    while entry != NIL
      invariant i <= |chain| && entry == At(chain, i)
      invariant packed == packed0 + Entries(chain, nodes)[..i]
      decreases |chain| - i
    {
      assert Entries(chain, nodes)[..i + 1] == Entries(chain, nodes)[..i] + [nodes[chain[i]]];
      packed := packed + [nodes[entry]];
      entry := next[entry];
      i := i + 1;
    }
    assert Entries(chain, nodes)[..i] == Entries(chain, nodes);
  }

  /** The packed buckets `0..n`: consecutive stretches holding the entries of their chains. */
  ghost predicate PackedUpTo(packed: seq<IndexEntry>, starts: seq<nat>, lists: seq<seq<nat>>, nodes: seq<IndexEntry>, n: nat) {
    && n <= |lists| && |starts| == n + 1 && starts[n] == |packed| == Total(lists[..n])
    && (forall i, j :: 0 <= i <= j <= n ==> starts[i] <= starts[j])
    && (forall b, i :: 0 <= b < |lists| && 0 <= i < |lists[b]| ==> lists[b][i] < |nodes|)
    && (forall b :: 0 <= b < n ==> packed[starts[b]..starts[b + 1]] == Entries(lists[b], nodes))
    && forall e :: 0 <= e < |packed| ==> packed[e] in nodes
  }

  lemma {:induction false} TotalSnoc(lists: seq<seq<nat>>, chain: seq<nat>)
    ensures Total(lists + [chain]) == Total(lists) + |chain|
  {
    if lists == [] {
      assert (lists + [chain])[1..] == [];
    } else {
      assert (lists + [chain])[1..] == lists[1..] + [chain];
      TotalSnoc(lists[1..], chain);
    }
  }

  lemma PackStep(packed: seq<IndexEntry>, starts: seq<nat>, lists: seq<seq<nat>>, nodes: seq<IndexEntry>, n: nat)
    requires PackedUpTo(packed, starts, lists, nodes, n) && n < |lists|
    ensures var packed' := packed + Entries(lists[n], nodes);
      PackedUpTo(packed', starts + [|packed'|], lists, nodes, n + 1)
  {
    var packed' := packed + Entries(lists[n], nodes);
    var starts' := starts + [|packed'|];
    assert forall e :: 0 <= e < |packed'| ==> packed'[e] in nodes;
    assert lists[..n + 1] == lists[..n] + [lists[n]];
    TotalSnoc(lists[..n], lists[n]);
    hide Entries, Total;
    forall b | 0 <= b < n + 1
      ensures packed'[starts'[b]..starts'[b + 1]] == Entries(lists[b], nodes)
    {
      if b < n {
        assert packed'[starts[b]..starts[b + 1]] == packed[starts[b]..starts[b + 1]];
      }
    }
  }

  method Pack(t: Table, next: array<int>, ghost lists: seq<seq<nat>>)
      returns (packed: seq<IndexEntry>, starts: seq<nat>)
    requires BucketsOk(next[..], t.hash, lists, t.nodes)
    ensures PackedUpTo(packed, starts, lists, t.nodes, |lists|)
  {
    packed, starts := [], [0];
    forall b, i | 0 <= b < |lists| && 0 <= i < |lists[b]| ensures lists[b][i] < |t.nodes| {
      assert BucketOk(next[..], t.hash[b], lists[b], t.nodes, |t.hash|, b);
    }
    assert PackedUpTo(packed, starts, lists, t.nodes, 0);
    for n := 0 to |t.hash|
      invariant PackedUpTo(packed, starts, lists, t.nodes, n)
    {
      assert BucketOk(next[..], t.hash[n], lists[n], t.nodes, |t.hash|, n);
      PackStep(packed, starts, lists, t.nodes, n);
      packed := PackBucket(packed, next, t.hash[n], t.nodes, lists[n]);
      starts := starts + [|packed|];
    }
  }

  /** A bucket of the finished index: few entries, all sound and all in their place. */
  ghost predicate BucketSound(bucket: seq<IndexEntry>, rabin: Rabin, src: bytes, hsize: nat, b: nat)
    requires hsize > 0
  {
    && |bucket| <= HASH_LIMIT
    && forall i :: 0 <= i < |bucket| ==> EntrySound(bucket[i], rabin, src) && bucket[i].val % hsize == b
  }

  ghost predicate BucketsSound(index: DeltaIndex, rabin: Rabin) {
    index.Packed() && forall b :: 0 <= b < |index.hash| - 1 ==>
      BucketSound(index.Bucket(b), rabin, index.src, |index.hash| - 1, b)
  }

  lemma EntriesSound(bucket: seq<IndexEntry>, chain: seq<nat>, t: Table, next: seq<int>, rabin: Rabin, src: bytes, b: nat)
    requires b < |t.hash| && BucketOk(next, t.hash[b], chain, t.nodes, |t.hash|, b) && |chain| <= HASH_LIMIT
    requires bucket == Entries(chain, t.nodes)
    requires forall n :: 0 <= n < |t.nodes| ==> EntrySound(t.nodes[n], rabin, src)
    ensures BucketSound(bucket, rabin, src, |t.hash|, b)
  {
    hide EntrySound, Linked, Distinct;
  }

  lemma IndexSound(index: DeltaIndex, t: Table, populated: seq<int>, next: seq<int>, lists: seq<seq<nat>>, cut: seq<seq<nat>>,
                   rabin: Rabin)
    requires TableOk(t, populated, lists, rabin, index.src)
    requires BucketsOk(next, t.hash, cut, t.nodes) && |cut| == |lists|
    requires forall b :: 0 <= b < |cut| ==> cut[b] == Cut(lists[b])
    requires PackedUpTo(index.entries, index.hash, cut, t.nodes, |cut|)
    ensures IndexInRange(index) && BucketsSound(index, rabin) && |index.entries| == Total(cut)
  {
    hide Cut, BucketOk, BucketSound, Total, Entries;
    assert cut[..|cut|] == cut;
    forall b | 0 <= b < |t.hash|
      ensures BucketSound(index.Bucket(b), rabin, index.src, |t.hash|, b)
    {
      EntriesSound(index.Bucket(b), cut[b], t, next, rabin, index.src, b);
    }
  }

  /** Positions ascend in every bucket. */
  ghost predicate BucketsAscend(index: DeltaIndex) {
    index.Packed() && forall b :: 0 <= b < |index.hash| - 1 ==> Ascends(index.Bucket(b))
  }

  /** Every block can be found: its bucket is full, or holds an entry of its hash at or below it. */
  ghost predicate BlocksIndexed(index: DeltaIndex, rabin: Rabin) {
    && index.Packed() && index.src != []
    && forall k: nat :: (k + 1) * RABIN_WINDOW < |index.src| && (k + 1) * RABIN_WINDOW < 0xffff_ffff ==>
         var h := BlockHash(rabin, index.src, k);
         Offered(index.Bucket(h % (|index.hash| - 1)), h, k)
  }

  ghost predicate Offered(bucket: seq<IndexEntry>, val: nat, k: nat) {
    || |bucket| == HASH_LIMIT
    || exists e :: 0 <= e < |bucket| && bucket[e].val == val && bucket[e].ptr <= (k + 1) * RABIN_WINDOW
  }

  /** Culling keeps the order of a chain, and packing reverses it into ascending positions. */
  lemma CutAscends(chain: seq<nat>, nodes: seq<IndexEntry>)
    requires forall i, j :: 0 <= i < j < |chain| ==> chain[i] > chain[j]
    requires forall i :: 0 <= i < |chain| ==> chain[i] < |nodes|
    requires forall m, n :: 0 <= m < n < |nodes| ==> nodes[m].ptr > nodes[n].ptr
    ensures (forall i :: 0 <= i < |Cut(chain)| ==> Cut(chain)[i] < |nodes|) && Ascends(Entries(Cut(chain), nodes))
  {
    hide KeptAt;
    var c := Cut(chain);
    forall i, j | 0 <= i < j < |c| ensures c[i] > c[j] {
      if |chain| > HASH_LIMIT { KeptAtIncreases(i, j, |chain| - HASH_LIMIT); }
    }
  }

  lemma IndexAscends(index: DeltaIndex, nodes: seq<IndexEntry>, lists: seq<seq<nat>>, cut: seq<seq<nat>>)
    requires Falling(nodes, lists) && |cut| == |lists| > 0 && forall b :: 0 <= b < |cut| ==> cut[b] == Cut(lists[b])
    requires PackedUpTo(index.entries, index.hash, cut, nodes, |cut|) && index.Packed()
    ensures BucketsAscend(index)
  {
    hide Cut, Ascends;
    forall b | 0 <= b < |index.hash| - 1 ensures Ascends(index.Bucket(b)) {
      CutAscends(lists[b], nodes);
    }
  }

  lemma IndexOffers(index: DeltaIndex, rabin: Rabin, nodes: seq<IndexEntry>, lists: seq<seq<nat>>, cut: seq<seq<nat>>)
    requires index.src != [] && BlocksListed(index.src, rabin, nodes, lists, 0, BlockCount(|index.src|))
    requires |cut| == |lists| > 0 && forall b :: 0 <= b < |cut| ==> cut[b] == Cut(lists[b])
    requires PackedUpTo(index.entries, index.hash, cut, nodes, |cut|) && index.Packed()
    ensures BlocksIndexed(index, rabin)
  {
    hide BlockHash, BlockCount, Thinned;
    forall k: nat | (k + 1) * RABIN_WINDOW < |index.src| && (k + 1) * RABIN_WINDOW < 0xffff_ffff
      ensures var h := BlockHash(rabin, index.src, k); Offered(index.Bucket(h % (|index.hash| - 1)), h, k)
    {
      var h := BlockHash(rabin, index.src, k);
      var b := h % |lists|;
      BlockCounted(|index.src|, k);
      assert Listed(nodes, lists[b], h, k);
      ListedOffered(nodes, lists[b], index.Bucket(b), h, k);
    }
  }

  lemma ListedOffered(nodes: seq<IndexEntry>, chain: seq<nat>, bucket: seq<IndexEntry>, h: nat, k: nat)
    requires Listed(nodes, chain, h, k) && forall i :: 0 <= i < |Cut(chain)| ==> Cut(chain)[i] < |nodes|
    requires bucket == Entries(Cut(chain), nodes)
    ensures Offered(bucket, h, k)
  {
    if |chain| <= HASH_LIMIT {
      var i :| 0 <= i < |chain| && chain[i] < |nodes| && nodes[chain[i]].val == h && nodes[chain[i]].ptr <= (k + 1) * RABIN_WINDOW;
      assert bucket[i] == nodes[chain[i]];
    }
  }

  /**
   Builds the index of a buffer. The number of packed entries is the number the construction has
   been counting, no bucket is over-full, and every entry names a window of the source with its
   hash, in the bucket that hash selects. Positions ascend in each bucket, and every block is found
   there unless the bucket is full.
   */
  method CreateDeltaIndex(src: bytes, rabin: Rabin) returns (index: Option<DeltaIndex>, entries: nat)
    ensures index.None? <==> src == []
    ensures index.Some? ==> index.value.src == src && IndexInRange(index.value)
    ensures index.Some? ==> |index.value.entries| == entries && BucketsSound(index.value, rabin)
    ensures index.Some? ==> BucketsAscend(index.value) && BlocksIndexed(index.value, rabin)
  {
    hide TableOk, BucketsOk, PackedUpTo, BucketsSound, BucketsAscend, BlocksIndexed, Cut, Total, Falling, BlocksListed, BlockCount;
    if src == [] { return None, 0; }
    var blocks := BlockCount(|src|);
    var hsize := HashSize(blocks);
    var next := new int[blocks];
    var t, n;
    ghost var lists, cut;
    t, n, lists := Populate(src, rabin, hsize, next);
    ghost var populated := next[..];
    entries, cut := CullAll(t, next, n, lists, rabin, src);
    var packed, starts := Pack(t, next, cut);
    ghost var built := DeltaIndex(src, packed, starts);
    IndexSound(built, t, populated, next[..], lists, cut, rabin);
    IndexAscends(built, t.nodes, lists, cut);
    IndexOffers(built, rabin, t.nodes, lists, cut);
    index := Some(DeltaIndex(src, packed, starts));
  }

  /** An index as it is built for this source. */
  ghost predicate BuiltFor(index: DeltaIndex, src: bytes, rabin: Rabin) {
    index.src == src && IndexInRange(index) && BucketsSound(index, rabin) && BucketsAscend(index) && BlocksIndexed(index, rabin)
  }

  /**
   Index and encoder together: whatever delta they produce turns the source into the target. With a
   rolling hash and a source below 2^32 bytes no byte that has an indexed match is left a literal,
   and there is no delta only for lack of input or when such an encoding exceeds the bound.
   */
  method Deltify(src: bytes, trg: bytes, rabin: Rabin, maxSize: nat) returns (delta: Option<bytes>)
    requires HasRoom(|src|, |trg|, maxSize)
    ensures delta.Some? ==> Decode(delta.value, src) == Some(trg)
    ensures delta.None? ==>
      || src == [] || trg == []
      || (maxSize > 0 && exists index :: BuiltFor(index, src, rabin) && Overruns(index, rabin, trg, maxSize))
    ensures delta.Some? && |src| < 0x1_0000_0000 && Rolls(rabin) ==>
      exists index :: BuiltFor(index, src, rabin) && Thrifty(index, rabin, trg, delta.value)
  {
    hide IndexInRange, BucketsSound, BlocksIndexed, Decode, HasRoom, Thrifty, Overruns, Rolls;
    var index, entries := CreateDeltaIndex(src, rabin);
    if index.None? { return None; }
    delta := CreateDelta(index.value, rabin, trg, maxSize);
    assert BuiltFor(index.value, src, rabin);
    assert |src| < 0x1_0000_0000 && Rolls(rabin) ==> Searchable(index.value, rabin);
  }
}
