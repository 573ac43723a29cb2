/**
 Breaking reused delta chains before a pack is written: `break_delta_chains` and
 `drop_reused_delta` of docs/gitc/pack-objects.c. Objects are numbered; an object's delta field
 names the object it is stored against, and each object heads the list of those stored against it.
 */
module DeltaChains {
  import opened Basics
  import opened Chains

  datatype DfsState = DfsNone | DfsActive | DfsDone

  // ---------------------------------------------------------------- chain lengths

  /** Following `delta` from `o` reaches an object without a base after exactly `k` steps. */
  ghost predicate ChainLength(delta: seq<int>, o: int, k: nat)
    requires forall x :: 0 <= x < |delta| ==> -1 <= delta[x] < |delta|
    requires 0 <= o < |delta|
    decreases k
  {
    if delta[o] == NIL then k == 0 else k > 0 && ChainLength(delta, delta[o], k - 1)
  }

  ghost predicate LinksInRange(delta: seq<int>) {
    forall x :: 0 <= x < |delta| ==> -1 <= delta[x] < |delta|
  }

  /** A finished object: its base is finished too and one step shallower, within the limit. */
  ghost predicate Settled(delta: seq<int>, depth: seq<nat>, dfs: seq<DfsState>, limit: nat, o: nat)
    requires LinksInRange(delta) && |delta| == |depth| == |dfs| && o < |delta|
  {
    && depth[o] <= limit
    && (delta[o] == NIL ==> depth[o] == 0)
    && (delta[o] != NIL ==> dfs[delta[o]].DfsDone? && depth[o] == depth[delta[o]] + 1)
  }

  lemma {:induction false} SettledChain(delta: seq<int>, depth: seq<nat>, dfs: seq<DfsState>, limit: nat, o: nat)
    requires LinksInRange(delta) && |delta| == |depth| == |dfs| && o < |delta| && dfs[o].DfsDone?
    requires forall x :: 0 <= x < |delta| && dfs[x].DfsDone? ==> Settled(delta, depth, dfs, limit, x)
    ensures ChainLength(delta, o, depth[o]) && depth[o] <= limit
    decreases depth[o]
  {
    assert Settled(delta, depth, dfs, limit, o);
    if delta[o] != NIL { SettledChain(delta, depth, dfs, limit, delta[o]); }
  }

  lemma {:induction false} ChainLengthUnique(delta: seq<int>, o: int, k: nat, l: nat)
    requires LinksInRange(delta) && 0 <= o < |delta| && ChainLength(delta, o, k) && ChainLength(delta, o, l)
    ensures k == l
    decreases k
  {
    if delta[o] != NIL { ChainLengthUnique(delta, delta[o], k - 1, l - 1); }
  }

  /** What a finished object has become, measured by the links it came with. */
  ghost predicate Faithful(orig: seq<int>, depth: seq<nat>, limit: nat, o: nat)
    requires LinksInRange(orig) && |orig| == |depth| && o < |orig|
  {
    forall k: nat :: ChainLength(orig, o, k) ==> depth[o] == k % (limit + 1)
  }

  /** The object reached after `k` links, or none. */
  ghost function Follow(delta: seq<int>, o: int, k: nat): (p: int)
    requires LinksInRange(delta) && -1 <= o < |delta|
    ensures -1 <= p < |delta|
    decreases k
  {
    if k == 0 || o == NIL then o else Follow(delta, delta[o], k - 1)
  }

  ghost predicate Leads(delta: seq<int>, o: int, p: int)
    requires LinksInRange(delta) && -1 <= o < |delta|
  {
    exists k: nat :: Follow(delta, o, k) == p
  }

  /** Each of the two leads to the other. */
  ghost predicate OneCycle(delta: seq<int>, o: int, p: int)
    requires LinksInRange(delta) && -1 <= o < |delta| && -1 <= p < |delta|
  {
    Leads(delta, o, p) && Leads(delta, p, o)
  }

  /** A finished object that has lost its link although its base is not at the limit. */
  ghost predicate Loose(orig: seq<int>, delta: seq<int>, depth: seq<nat>, dfs: seq<DfsState>, limit: nat, o: nat)
    requires LinksInRange(orig) && |orig| == |delta| == |depth| == |dfs| && o < |orig|
  {
    dfs[o].DfsDone? && delta[o] == NIL && orig[o] != NIL && !(dfs[orig[o]].DfsDone? && depth[orig[o]] == limit)
  }

  /** A link that was removed although the base is not at the limit. */
  ghost predicate CutFreely(orig: seq<int>, delta: seq<int>, depth: seq<nat>, limit: nat, o: nat)
    requires LinksInRange(orig) && |orig| == |delta| == |depth| && o < |orig|
  {
    delta[o] == NIL && orig[o] != NIL && depth[orig[o]] != limit
  }

  /** Off the path, only links of cycles were cut without need, and at most one of each cycle. */
  ghost predicate Justified(orig: seq<int>, delta: seq<int>, depth: seq<nat>, dfs: seq<DfsState>, limit: nat, path: seq<nat>)
    requires LinksInRange(orig) && |orig| == |delta| == |depth| == |dfs|
  {
    && (forall o :: 0 <= o < |orig| && o !in path && Loose(orig, delta, depth, dfs, limit, o) ==> Leads(orig, orig[o], o))
    && (forall o, p :: 0 <= o < p < |orig| && o !in path && p !in path && OneCycle(orig, o, p) ==>
          !Loose(orig, delta, depth, dfs, limit, o) || !Loose(orig, delta, depth, dfs, limit, p))
  }

  /** Finishing objects that keep their links, or whose cut the limit explains, needs no further reason. */
  lemma JustifiedKept(orig: seq<int>, delta: seq<int>, depth: seq<nat>, dfs: seq<DfsState>,
                      delta': seq<int>, depth': seq<nat>, dfs': seq<DfsState>, limit: nat, path: seq<nat>, path': seq<nat>)
    requires LinksInRange(orig) && |orig| == |delta| == |depth| == |dfs| == |delta'| == |depth'| == |dfs'|
    requires Justified(orig, delta, depth, dfs, limit, path)
    requires forall o :: 0 <= o < |orig| && dfs[o].DfsDone? ==> dfs'[o].DfsDone? && depth'[o] == depth[o]
    requires forall o :: 0 <= o < |orig| && o !in path' && Loose(orig, delta', depth', dfs', limit, o) ==>
      o !in path && dfs[o].DfsDone? && delta[o] == NIL
    ensures Justified(orig, delta', depth', dfs', limit, path')
  {
    hide Leads, OneCycle;
    forall o | 0 <= o < |orig| && o !in path' && Loose(orig, delta', depth', dfs', limit, o)
      ensures o !in path && Loose(orig, delta, depth, dfs, limit, o)
    {
    }
    hide Loose;
  }

  /** Links are only ever removed, and only from finished objects. */
  ghost predicate OnlyCut(orig: seq<int>, delta: seq<int>, dfs: seq<DfsState>) {
    && |orig| == |delta| == |dfs| && LinksInRange(orig)
    && (forall o :: 0 <= o < |delta| ==> delta[o] == orig[o] || delta[o] == NIL)
    && (forall o :: 0 <= o < |delta| && !dfs[o].DfsDone? ==> delta[o] == orig[o])
  }

  /** Finished objects are settled and faithful, their lost links explained, the others still at depth 0. */
  ghost predicate Consistent(orig: seq<int>, delta: seq<int>, depth: seq<nat>, dfs: seq<DfsState>, limit: nat) {
    && OnlyCut(orig, delta, dfs) && LinksInRange(delta) && |depth| == |delta|
    && (forall o :: 0 <= o < |delta| && dfs[o].DfsDone? ==> Settled(delta, depth, dfs, limit, o) && Faithful(orig, depth, limit, o))
    && (forall o :: 0 <= o < |delta| && !dfs[o].DfsDone? ==> depth[o] == 0)
    && Justified(orig, delta, depth, dfs, limit, [])
  }

  /** Every object but those on the path is finished or untouched; the path leads to `cur`. */
  ghost predicate OnPath(delta: seq<int>, dfs: seq<DfsState>, entry: nat, path: seq<nat>, cur: int) {
    && |delta| == |dfs| && 0 <= cur < |delta| && Distinct(path)
    && (forall i :: 0 <= i < |path| ==>
          path[i] < |delta| && dfs[path[i]].DfsActive? && delta[path[i]] == Succ(path, cur, i))
    && (forall o :: 0 <= o < |delta| && dfs[o].DfsActive? ==> o in path)
    && entry == Succ(path, cur, -1)
  }

  /** The object behind position `i` of the path. */
  ghost function Succ(path: seq<nat>, cur: int, i: int): int
    requires -1 <= i < |path|
  {
    if i + 1 < |path| then path[i + 1] else cur
  }

  // ---------------------------------------------------------------- the objects

  class PackingList {
    const count: nat
    var delta: seq<int>
    var depth: seq<nat>
    var dfs: seq<DfsState>
    var child: seq<int>
    var sibling: seq<int>
    ghost var kids: seq<seq<nat>>

    ghost predicate Sized()
      reads this
    {
      |delta| == |depth| == |dfs| == |child| == |sibling| == |kids| == count && LinksInRange(delta)
    }

    /** The child lists hold exactly the objects stored against their head. */
    ghost predicate Family()
      reads this
    {
      Sized() && forall b :: 0 <= b < count ==> KidsOf(delta, sibling, child[b], kids[b], b)
    }

    /** Makes an object a base: out of its base's child list, without delta, at depth 0. */
    method DropReusedDelta(entry: nat)
      requires Family() && entry < count && delta[entry] != NIL
      modifies this`delta, this`depth, this`child, this`sibling, this`kids
      ensures Family()
      ensures delta == old(delta)[entry := NIL] && depth == old(depth)[entry := 0]
    {
      var base := delta[entry];
      assert KidsOf(delta, sibling, child[base], kids[base], base);
      var siblings, head := Unlink(sibling, child[base], entry, kids[base]);
      sibling, child := siblings, child[base := head];
      kids := kids[base := Removed(kids[base], entry)];
      delta := delta[entry := NIL];
      depth := depth[entry := 0];
      forall b | 0 <= b < count
        ensures KidsOf(delta, sibling, child[b], kids[b], b)
      {
        FamilyKept(old(delta), old(sibling), sibling, old(child)[b], child[b], old(kids)[base], old(kids)[b], entry, b);
      }
    }

    /** Walks down from `entry` to the first finished object, cutting the link that closes a cycle. */
    method Descend(entry: nat, limit: nat, ghost orig: seq<int>)
        returns (total: nat, ghost path: seq<nat>, ghost last: nat)
      requires Family() && entry < count
      requires Consistent(orig, delta, depth, dfs, limit) && forall o :: 0 <= o < count ==> !dfs[o].DfsActive?
      modifies this`delta, this`depth, this`child, this`sibling, this`kids, this`dfs
      ensures Family() && Consistent(orig, delta, depth, dfs, limit)
      ensures OnPath(delta, dfs, entry, path, last) && dfs[last].DfsDone? && total == |path| + depth[last]
      ensures KeepsDone(old(dfs), dfs)
    {
      hide Consistent, OnPath, KidsOf, KeepsDone, Untouched, OnlyCut, Settled, Faithful, Distinct, Succ;
      var cur := entry;
      total, path := 0, [];
      StartPath(delta, dfs, entry);
      KeepsDoneSame(dfs);
      while true
        invariant Family() && Consistent(orig, delta, depth, dfs, limit) && 0 <= cur < count
        invariant OnPath(delta, dfs, entry, path, cur) && !dfs[cur].DfsActive? && total == |path|
        invariant KeepsDone(old(dfs), dfs)
        decreases Untouched(dfs)
      {
        last := cur;
        if dfs[cur].DfsDone? {
          total := total + depth[cur];
          return;
        }
        KeepsDoneStep(old(dfs), dfs, cur);
        if delta[cur] == NIL {
          MarkBase(orig, delta, depth, dfs, limit, entry, path, cur);
          dfs := dfs[cur := DfsDone];
          return;
        }
        MarkActive(orig, delta, depth, dfs, limit, entry, path, cur);
        TouchShrinks(dfs, cur);
        ghost var before := dfs;
        dfs := dfs[cur := DfsActive];
        if dfs[delta[cur]].DfsActive? {
          CutCycle(orig, delta, depth, before, limit, entry, path, cur);
          DropReusedDelta(cur);
          dfs := dfs[cur := DfsDone];
          assert dfs == before[cur := DfsDone];
          return;
        }
        path := path + [cur];
        cur := delta[cur];
        total := total + 1;
      }
    }

    /** Gives an object its final depth and cuts its link when that is 0. */
    method SetDepth(cur: nat, limit: nat, total: nat)
      requires Family() && cur < count && delta[cur] != NIL
      modifies this`delta, this`depth, this`child, this`sibling, this`kids, this`dfs
      ensures Family()
      ensures delta == SnipLink(old(delta), cur, FinalDepth(total, 0, limit))
      ensures depth == old(depth)[cur := FinalDepth(total, 0, limit)] && dfs == old(dfs)[cur := DfsDone]
    {
      hide KidsOf;
      depth := depth[cur := total % (limit + 1)];
      if depth[cur] == 0 { DropReusedDelta(cur); }
      dfs := dfs[cur := DfsDone];
    }

    /** Walks the path again, writing final depths and cutting where the limit is reached. */
    method Settle(entry: nat, limit: nat, total0: nat, ghost orig: seq<int>, ghost path: seq<nat>, ghost last: nat)
      requires Family() && entry < count && Consistent(orig, delta, depth, dfs, limit)
      requires OnPath(delta, dfs, entry, path, last) && dfs[last].DfsDone? && total0 == |path| + depth[last]
      modifies this`delta, this`depth, this`child, this`sibling, this`kids, this`dfs
      ensures Family() && Consistent(orig, delta, depth, dfs, limit)
      ensures (forall o :: 0 <= o < count ==> !dfs[o].DfsActive?) && dfs[entry].DfsDone?
      ensures KeepsDone(old(dfs), dfs)
    {
      hide Consistent, OnPath, KidsOf, Snipping, KeepsDone, SnipLink, LinksInRange, Succ, FinalDepth, SnippedAt, SnippedUpTo, OffPath, PathLinks, OnlyCut;
      var cur: int := entry;
      var total: int := total0;
      ghost var j: nat := 0;
      SnipStart(orig, delta, depth, dfs, limit, entry, path, last);
      while cur != NIL
        invariant Family() && j <= |path| && cur == Succ(path, last, j - 1) && total == total0 - j
        invariant Snipping(orig, delta, depth, dfs, limit, entry, path, last, total0, j, old(dfs))
        decreases |path| - j
      {
        SnipFacts(orig, delta, depth, dfs, limit, entry, path, last, total0, j, old(dfs));
        var next := delta[cur];
        if dfs[cur].DfsDone? { break; }
        SnipStep(orig, delta, depth, dfs, limit, entry, path, last, total0, j, old(dfs));
        SetDepth(cur, limit, total);
        total := total - 1;
        cur, j := next, j + 1;
      }
      SnipFacts(orig, delta, depth, dfs, limit, entry, path, last, total0, j, old(dfs));
      SnipEnd(orig, delta, depth, dfs, limit, entry, path, last, total0, j, old(dfs));
    }

    /** Handles one object: afterwards it is finished, and so is everything its chain leads to. */
    method BreakDeltaChains(entry: nat, limit: nat, ghost orig: seq<int>)
      requires Family() && entry < count && Consistent(orig, delta, depth, dfs, limit)
      requires forall o :: 0 <= o < count ==> !dfs[o].DfsActive?
      modifies this`delta, this`depth, this`child, this`sibling, this`kids, this`dfs
      ensures Family() && Consistent(orig, delta, depth, dfs, limit)
      ensures (forall o :: 0 <= o < count ==> !dfs[o].DfsActive?) && dfs[entry].DfsDone?
      ensures KeepsDone(old(dfs), dfs)
    {
      hide Consistent, OnPath, KidsOf;
      ghost var path, last;
      var total;
      total, path, last := Descend(entry, limit, orig);
      Settle(entry, limit, total, orig, path, last);
    }

    /**
     Handles every object. Afterwards no chain is cyclic or longer than `limit`, every stored depth
     is the real length of the object's chain, and a chain that was finite has only been cut where
     the limit demands it: an object `k` steps from its base ends up at depth `k % (limit + 1)`. A
     link is only removed below an object at the limit or on a cycle, and of the latter at most one
     for each cycle.
     */
    method BreakAll(limit: nat)
      requires Family()
      requires forall o :: 0 <= o < count ==> dfs[o].DfsNone? && depth[o] == 0
      modifies this`delta, this`depth, this`child, this`sibling, this`kids, this`dfs
      ensures Family()
      ensures forall o :: 0 <= o < count ==> ChainLength(delta, o, depth[o]) && depth[o] <= limit
      ensures forall o :: 0 <= o < count ==> delta[o] == old(delta)[o] || delta[o] == NIL
      ensures forall o :: 0 <= o < count ==> Faithful(old(delta), depth, limit, o)
      ensures forall o :: 0 <= o < count && CutFreely(old(delta), delta, depth, limit, o) ==> Leads(old(delta), old(delta)[o], o)
      ensures forall o, p :: 0 <= o < p < count && OneCycle(old(delta), o, p) ==>
        !CutFreely(old(delta), delta, depth, limit, o) || !CutFreely(old(delta), delta, depth, limit, p)
    {
      ghost var orig := delta;
      for i := 0 to count
        invariant Family() && Consistent(orig, delta, depth, dfs, limit)
        invariant forall o :: 0 <= o < count ==> !dfs[o].DfsActive?
        invariant forall o :: 0 <= o < i ==> dfs[o].DfsDone?
      {
        hide KidsOf, Settled, Faithful, Justified, Leads;
        BreakDeltaChains(i, limit, orig);
      }
      AllSettled(orig, delta, depth, dfs, limit);
    }
  }

  /** Follows the links of a list and redirects those that lead to `entry`. */
  method Unlink(sibling0: seq<int>, head0: int, entry: nat, ghost list: seq<nat>) returns (sibling: seq<int>, head: int)
    requires Linked(sibling0, head0, list) && Distinct(list)
    ensures |sibling| == |sibling0| && Linked(sibling, head, Removed(list, entry))
    ensures forall o :: 0 <= o < |sibling| && o !in list ==> sibling[o] == sibling0[o]
  {
    sibling, head := sibling0, head0;
    // The link being followed: the head of the list, or the sibling field of `owner`.
    var owner: int := NIL;
    var here := head;
    ghost var i: nat := 0;
    FollowStart(sibling0, head0, list, entry);
    hide Following;
    while here != NIL
      invariant Following(sibling0, sibling, head, here, owner, list, i, entry)
      decreases |list| - i
    {
      FollowStep(sibling0, sibling, head, here, owner, list, i, entry);
      var next := sibling[here];
      if here != entry {
        owner := here;
      } else if owner == NIL {
        head := next;
      } else {
        sibling := sibling[owner := next];
      }
      here, i := next, i + 1;
    }
    FollowEnd(sibling0, sibling, head, owner, list, i, entry);
  }

  /** `i` nodes of the list have been passed; what is linked is those kept of them and the rest. */
  ghost predicate Following(sibling0: seq<int>, sibling: seq<int>, head: int, here: int, owner: int,
                            list: seq<nat>, i: nat, entry: nat) {
    && i <= |list| && |sibling| == |sibling0| && here == At(list, i)
    && (var kept := Removed(list[..i], entry);
        && owner == (if kept == [] then NIL else kept[|kept| - 1])
        && Linked(sibling, head, kept + list[i..]))
    && forall o :: 0 <= o < |sibling| && o !in list ==> sibling[o] == sibling0[o]
  }

  lemma FollowStart(sibling: seq<int>, head: int, list: seq<nat>, entry: nat)
    requires Linked(sibling, head, list)
    ensures Following(sibling, sibling, head, head, NIL, list, 0, entry)
  {
    RemovedNothing(list[..0], entry);
    assert [] + list[0..] == list;
  }

  lemma FollowStep(sibling0: seq<int>, sibling: seq<int>, head: int, here: int, owner: int, list: seq<nat>, i: nat, entry: nat)
    requires Following(sibling0, sibling, head, here, owner, list, i, entry) && here != NIL && Distinct(list)
    ensures i < |list| && 0 <= here < |sibling| && (owner != NIL ==> 0 <= owner < |sibling|)
    ensures here != entry ==> Following(sibling0, sibling, head, sibling[here], here, list, i + 1, entry)
    ensures here == entry && owner == NIL ==>
      Following(sibling0, sibling, sibling[here], sibling[here], owner, list, i + 1, entry)
    ensures here == entry && owner != NIL ==>
      Following(sibling0, sibling[owner := sibling[here]], head, sibling[here], owner, list, i + 1, entry)
  {
    hide Linked, Removed, Distinct;
    var kept := Removed(list[..i], entry);
    assert list[i..] == [list[i]] + list[i + 1..] && list[..i + 1] == list[..i] + [list[i]];
    RemovedSnoc(list[..i], list[i], entry);
    KeptWithin(list, i, entry);
    UnlinkStep(sibling, head, kept, list[i], list[i + 1..]);
    assert At(list[i + 1..], 0) == At(list, i + 1);
  }

  lemma FollowEnd(sibling0: seq<int>, sibling: seq<int>, head: int, owner: int, list: seq<nat>, i: nat, entry: nat)
    requires Following(sibling0, sibling, head, NIL, owner, list, i, entry)
    ensures |sibling| == |sibling0| && Linked(sibling, head, Removed(list, entry))
    ensures forall o :: 0 <= o < |sibling| && o !in list ==> sibling[o] == sibling0[o]
  {
    assert list[..i] == list && Removed(list[..i], entry) + list[i..] == Removed(list, entry);
  }

  /** `list` is the child list of `b`: exactly the objects whose delta is `b`, each once. */
  ghost predicate KidsOf(delta: seq<int>, sibling: seq<int>, head: int, list: seq<nat>, b: nat)
  {
    && Linked(sibling, head, list) && Distinct(list)
    && (forall i :: 0 <= i < |list| ==> list[i] < |delta|)
    && forall o :: 0 <= o < |delta| ==> (o in list <==> delta[o] == b)
  }

  /** The list without `x`. */
  ghost function Removed(list: seq<nat>, x: nat): seq<nat> {
    if list == [] then [] else Removed(list[..|list| - 1], x) + (if list[|list| - 1] == x then [] else [list[|list| - 1]])
  }

  lemma RemovedNothing(list: seq<nat>, x: nat)
    requires list == []
    ensures Removed(list, x) == []
  {
  }

  lemma RemovedSnoc(list: seq<nat>, y: nat, x: nat)
    ensures Removed(list + [y], x) == if y == x then Removed(list, x) else Removed(list, x) + [y]
  {
    assert (list + [y])[..|list|] == list;
  }

  lemma {:induction false} RemovedMembers(list: seq<nat>, x: nat)
    ensures forall o :: o in Removed(list, x) <==> o in list && o != x
    ensures Distinct(list) ==> Distinct(Removed(list, x))
  {
    if list != [] {
      var n := |list| - 1;
      RemovedMembers(list[..n], x);
      assert list == list[..n] + [list[n]];
      assert Distinct(list) ==> list[n] !in list[..n];
    }
  }

  /** What has been kept comes from the part of the list already passed. */
  lemma KeptWithin(list: seq<nat>, i: nat, x: nat)
    requires i < |list| && Distinct(list)
    ensures Distinct(Removed(list[..i], x) + list[i..])
    ensures forall o :: o in Removed(list[..i], x) ==> o in list
  {
    RemovedMembers(list[..i], x);
    assert Distinct(list[..i]);
    hide Removed;
    var kept := Removed(list[..i], x);
    forall p, q | 0 <= p < q < |kept + list[i..]|
      ensures (kept + list[i..])[p] != (kept + list[i..])[q]
    {
      if p < |kept| <= q {
        assert kept[p] in list[..i];
        var k :| 0 <= k < i && list[..i][k] == kept[p];
        assert list[k] != list[i + (q - |kept|)];
      }
    }
  }

  /** Redirecting the link to a node takes it out of the list. */
  lemma SkipNode(sibling: seq<int>, head: int, all: seq<nat>, k: nat)
    requires Linked(sibling, head, all) && Distinct(all) && 0 < k < |all|
    ensures Linked(sibling[all[k - 1] := sibling[all[k]]], head, all[..k] + all[k + 1..])
  {
    var less := all[..k] + all[k + 1..];
    var after := sibling[all[k - 1] := sibling[all[k]]];
    forall i | 0 <= i < |less|
      ensures less[i] < |sibling| && after[less[i]] == At(less, i + 1)
    {
      hide Linked;
      var j := if i < k then i else i + 1;
      assert less[i] == all[j];
      LinkedAt(sibling, head, all, j);
      LinkedAt(sibling, head, all, k);
      assert i != k - 1 ==> all[j] != all[k - 1];
    }
    LinkedAt(sibling, head, all, 0);
    assert less[0] == all[0];
  }

  lemma LinkedAt(sibling: seq<int>, head: int, all: seq<nat>, i: nat)
    requires Linked(sibling, head, all) && i < |all|
    ensures all[i] < |sibling| && sibling[all[i]] == At(all, i + 1)
  {
  }

  lemma SkipFirst(sibling: seq<int>, head: int, all: seq<nat>)
    requires Linked(sibling, head, all) && all != []
    ensures Linked(sibling, sibling[all[0]], all[1..])
  {
    var rest := all[1..];
    forall i | 0 <= i < |rest|
      ensures rest[i] < |sibling| && sibling[rest[i]] == At(rest, i + 1)
    {
      assert sibling[all[i + 1]] == At(all, i + 2);
    }
    assert sibling[all[0]] == At(all, 1);
  }

  /** One step along a child list: past `x`, or around it. */
  lemma UnlinkStep(sibling: seq<int>, head: int, kept: seq<nat>, x: nat, rest: seq<nat>)
    requires Linked(sibling, head, kept + ([x] + rest)) && Distinct(kept + ([x] + rest))
    ensures x < |sibling| && sibling[x] == At(rest, 0)
    ensures Linked(sibling, head, (kept + [x]) + rest)
    ensures kept == [] ==> Linked(sibling, sibling[x], kept + rest)
    ensures kept != [] ==>
      var owner := kept[|kept| - 1];
      owner < |sibling| && owner in kept && Linked(sibling[owner := sibling[x]], head, kept + rest)
  {
    hide Linked, Distinct;
    var all := kept + ([x] + rest);
    assert all == (kept + [x]) + rest;
    LinkedAt(sibling, head, all, |kept|);
    if kept != [] { LinkedAt(sibling, head, all, |kept| - 1); }
    assert all[|kept|] == x;
    assert rest != [] ==> all[|kept| + 1] == rest[0];
    assert all[|kept| + 1..] == rest && all[..|kept|] == kept;
    if kept == [] {
      SkipFirst(sibling, head, all);
      assert kept + rest == all[1..];
    } else {
      assert all[|kept| - 1] == kept[|kept| - 1];
      SkipNode(sibling, head, all, |kept|);
    }
  }

  /** Dropping an object changes only the child list of its base. */
  lemma FamilyKept(delta: seq<int>, before: seq<int>, after: seq<int>, head: int, head': int,
                   list: seq<nat>, kids: seq<nat>, entry: nat, b: nat)
    requires entry < |delta| && |before| == |after| == |delta|
    requires KidsOf(delta, before, head, kids, b)
    requires b == delta[entry] ==> kids == list && Linked(after, head', Removed(list, entry))
    requires b != delta[entry] ==> head' == head
    requires forall o :: 0 <= o < |delta| ==> (o in list <==> delta[o] == delta[entry])
    requires forall o :: 0 <= o < |delta| && o !in list ==> after[o] == before[o]
    ensures KidsOf(delta[entry := NIL], after, head', if b == delta[entry] then Removed(kids, entry) else kids, b)
  {
    RemovedMembers(kids, entry);
    hide Removed;
    if b == delta[entry] {
      var r := Removed(kids, entry);
      assert forall i :: 0 <= i < |r| ==> r[i] in kids;
    } else {
      assert forall i :: 0 <= i < |kids| ==> kids[i] !in list;
    }
  }

  // ---------------------------------------------------------------- the first pass

  /** No finished object is reopened. */
  ghost predicate KeepsDone(before: seq<DfsState>, after: seq<DfsState>) {
    |before| == |after| && forall o :: 0 <= o < |before| && before[o].DfsDone? ==> after[o].DfsDone?
  }

  lemma KeepsDoneSame(dfs: seq<DfsState>)
    ensures KeepsDone(dfs, dfs)
  {
  }

  lemma KeepsDoneStep(before: seq<DfsState>, after: seq<DfsState>, cur: nat)
    requires KeepsDone(before, after) && cur < |after|
    ensures KeepsDone(before, after[cur := DfsDone])
    ensures !after[cur].DfsDone? ==> KeepsDone(before, after[cur := DfsActive])
  {
  }

  ghost function Untouched(dfs: seq<DfsState>): set<nat> {
    set o: nat | o < |dfs| && dfs[o].DfsNone?
  }

  lemma TouchShrinks(dfs: seq<DfsState>, cur: nat)
    requires cur < |dfs| && dfs[cur].DfsNone?
    ensures Untouched(dfs[cur := DfsActive]) < Untouched(dfs)
  {
    assert cur in Untouched(dfs) && cur !in Untouched(dfs[cur := DfsActive]);
  }

  lemma StartPath(delta: seq<int>, dfs: seq<DfsState>, entry: nat)
    requires |delta| == |dfs| && entry < |delta| && forall o :: 0 <= o < |dfs| ==> !dfs[o].DfsActive?
    ensures OnPath(delta, dfs, entry, [], entry)
  {
  }

  lemma MarkBase(orig: seq<int>, delta: seq<int>, depth: seq<nat>, dfs: seq<DfsState>, limit: nat, entry: nat, path: seq<nat>, cur: nat)
    requires Consistent(orig, delta, depth, dfs, limit) && OnPath(delta, dfs, entry, path, cur)
    requires dfs[cur].DfsNone? && delta[cur] == NIL
    ensures Consistent(orig, delta, depth, dfs[cur := DfsDone], limit) && OnPath(delta, dfs[cur := DfsDone], entry, path, cur)
    ensures depth[cur] == 0
  {
    BaseFaithful(orig, depth, limit, cur);
    JustifiedKept(orig, delta, depth, dfs, delta, depth, dfs[cur := DfsDone], limit, [], []);
    assert delta[cur := NIL] == delta;
    FinishOne(orig, delta, depth, dfs, limit, cur);
    FinishOffPath(delta, delta, dfs, entry, path, cur);
  }

  lemma BaseFaithful(orig: seq<int>, depth: seq<nat>, limit: nat, cur: nat)
    requires LinksInRange(orig) && |orig| == |depth| && cur < |orig| && orig[cur] == NIL && depth[cur] == 0
    ensures Faithful(orig, depth, limit, cur)
  {
  }

  /** Finishing an object that has become a base at depth 0. */
  lemma FinishOne(orig: seq<int>, delta: seq<int>, depth: seq<nat>, dfs: seq<DfsState>, limit: nat, cur: nat)
    requires Consistent(orig, delta, depth, dfs, limit) && cur < |delta| && !dfs[cur].DfsDone?
    requires Faithful(orig, depth, limit, cur) && Justified(orig, delta[cur := NIL], depth, dfs[cur := DfsDone], limit, [])
    ensures Consistent(orig, delta[cur := NIL], depth, dfs[cur := DfsDone], limit)
  {
    hide Faithful, Justified;
    var dfs', delta' := dfs[cur := DfsDone], delta[cur := NIL];
    forall o | 0 <= o < |delta| && dfs'[o].DfsDone?
      ensures Settled(delta', depth, dfs', limit, o) && Faithful(orig, depth, limit, o)
    {
      if o != cur { assert Settled(delta, depth, dfs, limit, o); }
    }
  }

  /** Finishing the end of the path leaves the path as it is. */
  lemma FinishOffPath(delta: seq<int>, delta': seq<int>, dfs: seq<DfsState>, entry: nat, path: seq<nat>, cur: nat)
    requires OnPath(delta, dfs, entry, path, cur) && dfs[cur].DfsNone?
    requires |delta'| == |delta| && forall o :: 0 <= o < |delta| && o != cur ==> delta'[o] == delta[o]
    ensures OnPath(delta', dfs[cur := DfsDone], entry, path, cur)
  {
    hide Distinct, Succ;
  }

  lemma MarkActive(orig: seq<int>, delta: seq<int>, depth: seq<nat>, dfs: seq<DfsState>, limit: nat, entry: nat, path: seq<nat>, cur: nat)
    requires Consistent(orig, delta, depth, dfs, limit) && OnPath(delta, dfs, entry, path, cur)
    requires dfs[cur].DfsNone? && delta[cur] != NIL
    ensures Consistent(orig, delta, depth, dfs[cur := DfsActive], limit)
    ensures OnPath(delta, dfs[cur := DfsActive], entry, path + [cur], delta[cur])
  {
    var dfs' := dfs[cur := DfsActive];
    forall o | 0 <= o < |delta| && dfs'[o].DfsDone?
      ensures Settled(delta, depth, dfs', limit, o) && Faithful(orig, depth, limit, o)
    {
      assert Settled(delta, depth, dfs, limit, o);
    }
    JustifiedKept(orig, delta, depth, dfs, delta, depth, dfs', limit, [], []);
    hide Faithful, Settled, Justified;
    var more := path + [cur];
    forall i | 0 <= i < |more|
      ensures more[i] < |delta| && dfs'[more[i]].DfsActive? && delta[more[i]] == Succ(more, delta[cur], i)
    {
      if i < |path| { assert delta[path[i]] == Succ(path, cur, i); }
    }
  }

  /** Along the path chain lengths drop by one per step. */
  lemma {:induction false} AlongPath(orig: seq<int>, path: seq<nat>, cur: nat, i: nat, k: nat)
    requires LinksInRange(orig) && i <= |path| && cur < |orig|
    requires forall j :: 0 <= j < |path| ==> path[j] < |orig| && orig[path[j]] == Succ(path, cur, j)
    requires ChainLength(orig, Succ(path, cur, i - 1), k)
    ensures k >= |path| - i && ChainLength(orig, cur, k - (|path| - i))
    decreases |path| - i
  {
    if i < |path| {
      assert orig[path[i]] == Succ(path, cur, i);
      AlongPath(orig, path, cur, i + 1, k - 1);
    }
  }

  /** If every finite chain contained a shorter one there would be none. */
  lemma {:induction false} NoFiniteChain(orig: seq<int>, cur: nat, round: nat, k: nat)
    requires LinksInRange(orig) && cur < |orig| && round > 0
    requires forall j: nat :: ChainLength(orig, cur, j) ==> j >= round && ChainLength(orig, cur, j - round)
    ensures !ChainLength(orig, cur, k)
    decreases k
  {
    if k >= round { NoFiniteChain(orig, cur, round, k - round); }
  }

  /** An object whose link leads back onto its own path has no finite chain. */
  lemma CycleFaithful(orig: seq<int>, depth: seq<nat>, limit: nat, path: seq<nat>, cur: nat, q: nat)
    requires LinksInRange(orig) && |orig| == |depth| && cur < |orig| && q <= |path| && orig[cur] == Succ(path, cur, q - 1)
    requires forall j :: 0 <= j < |path| ==> path[j] < |orig| && orig[path[j]] == Succ(path, cur, j)
    ensures Faithful(orig, depth, limit, cur)
  {
    var round := 1 + |path| - q;
    forall k: nat | ChainLength(orig, cur, k)
      ensures k >= round && ChainLength(orig, cur, k - round)
    {
      AlongPath(orig, path, cur, q, k - 1);
    }
    forall k: nat ensures !ChainLength(orig, cur, k) { NoFiniteChain(orig, cur, round, k); }
  }

  /** The path leads from each of its objects to its end. */
  lemma {:induction false} PathLeads(orig: seq<int>, path: seq<nat>, cur: nat, i: nat)
    requires LinksInRange(orig) && i <= |path| && cur < |orig|
    requires forall j :: 0 <= j < |path| ==> path[j] < |orig| && orig[path[j]] == Succ(path, cur, j)
    ensures -1 <= Succ(path, cur, i - 1) < |orig| && Leads(orig, Succ(path, cur, i - 1), cur)
    decreases |path| - i
  {
    if i == |path| {
      assert Follow(orig, cur, 0) == cur;
    } else {
      PathLeads(orig, path, cur, i + 1);
      var k: nat :| Follow(orig, Succ(path, cur, i), k) == cur;
      assert Follow(orig, path[i], k + 1) == cur;
    }
  }

  /** From a closed path nothing else is reached. */
  lemma {:induction false} StaysOnPath(orig: seq<int>, path: seq<nat>, cur: nat, o: nat, k: nat)
    requires LinksInRange(orig) && cur < |orig| && (orig[cur] == cur || orig[cur] in path)
    requires forall j :: 0 <= j < |path| ==> path[j] < |orig| && orig[path[j]] == Succ(path, cur, j)
    requires o < |orig| && (o == cur || o in path)
    ensures Follow(orig, o, k) == cur || Follow(orig, o, k) in path
    decreases k
  {
    if k > 0 {
      if o != cur {
        var j :| 0 <= j < |path| && path[j] == o;
        assert orig[o] == Succ(path, cur, j);
      }
      StaysOnPath(orig, path, cur, orig[o], k - 1);
    }
  }

  /** The link that closes a cycle is the first that cycle loses. */
  lemma CycleJustified(orig: seq<int>, delta: seq<int>, depth: seq<nat>, dfs: seq<DfsState>, limit: nat, path: seq<nat>, cur: nat, q: nat)
    requires LinksInRange(orig) && |orig| == |delta| == |depth| == |dfs| && Justified(orig, delta, depth, dfs, limit, [])
    requires cur < |orig| && !dfs[cur].DfsDone? && q <= |path| && orig[cur] == Succ(path, cur, q - 1)
    requires forall j :: 0 <= j < |path| ==> path[j] < |orig| && orig[path[j]] == Succ(path, cur, j) && dfs[path[j]].DfsActive?
    ensures Justified(orig, delta[cur := NIL], depth, dfs[cur := DfsDone], limit, [])
  {
    var delta', dfs' := delta[cur := NIL], dfs[cur := DfsDone];
    PathLeads(orig, path, cur, q);
    JustifiedKept(orig, delta, depth, dfs, delta', depth, dfs', limit, [], [cur]);
    forall p | 0 <= p < |orig| && p != cur && Loose(orig, delta', depth, dfs', limit, p)
      ensures !Leads(orig, cur, p)
    {
      if Leads(orig, cur, p) {
        var k: nat :| Follow(orig, cur, k) == p;
        StaysOnPath(orig, path, cur, cur, k);
      }
    }
    hide Leads, Loose;
  }

  /** Cutting the link that closes a cycle. */
  lemma CutCycle(orig: seq<int>, delta: seq<int>, depth: seq<nat>, dfs: seq<DfsState>, limit: nat, entry: nat, path: seq<nat>, cur: nat)
    requires Consistent(orig, delta, depth, dfs, limit) && OnPath(delta, dfs, entry, path, cur)
    requires dfs[cur].DfsNone? && delta[cur] != NIL && dfs[cur := DfsActive][delta[cur]].DfsActive?
    ensures depth[cur := 0] == depth
    ensures Consistent(orig, delta[cur := NIL], depth, dfs[cur := DfsDone], limit)
    ensures OnPath(delta[cur := NIL], dfs[cur := DfsDone], entry, path, cur)
  {
    var q: nat;
    if delta[cur] == cur { q := |path|; } else { q :| 0 <= q < |path| && path[q] == delta[cur]; }
    assert forall j :: 0 <= j < |path| ==> path[j] < |orig| && orig[path[j]] == Succ(path, cur, j);
    assert orig[cur] == Succ(path, cur, q - 1);
    hide ChainLength, Faithful, Justified;
    CycleFaithful(orig, depth, limit, path, cur, q);
    CycleJustified(orig, delta, depth, dfs, limit, path, cur, q);
    FinishOne(orig, delta, depth, dfs, limit, cur);
    FinishOffPath(delta, delta[cur := NIL], dfs, entry, path, cur);
  }

  // ---------------------------------------------------------------- the second pass

  /** Depth the object at position `i` of the path ends up with. */
  ghost function FinalDepth(total: nat, i: nat, limit: nat): nat
    requires i <= total
  {
    (total - i) % (limit + 1)
  }

  /** The path by the links the objects came with; it ends at the finished object `last`. */
  ghost predicate PathLinks(orig: seq<int>, entry: nat, path: seq<nat>, last: nat) {
    && LinksInRange(orig) && last < |orig| && last !in path && Distinct(path) && entry == Succ(path, last, -1)
    && forall i :: 0 <= i < |path| ==> path[i] < |orig| && orig[path[i]] == Succ(path, last, i)
  }

  /** A path object that has got its final depth. */
  ghost predicate SnippedAt(delta: seq<int>, depth: seq<nat>, dfs: seq<DfsState>, limit: nat, path: seq<nat>, last: nat, total: nat, i: nat)
    requires i < |path| && i <= total && |delta| == |depth| == |dfs| && path[i] < |delta|
  {
    && dfs[path[i]].DfsDone? && depth[path[i]] == FinalDepth(total, i, limit)
    && delta[path[i]] == (if depth[path[i]] == 0 then NIL else Succ(path, last, i))
  }

  /** The first `j` objects of the path have got their depths, the others wait for theirs. */
  ghost predicate SnippedUpTo(delta: seq<int>, depth: seq<nat>, dfs: seq<DfsState>, limit: nat, path: seq<nat>, last: nat, total: nat, j: nat) {
    && |delta| == |depth| == |dfs| && j <= |path| <= total
    && (forall i :: 0 <= i < |path| ==> path[i] < |delta|)
    && (forall i :: 0 <= i < j ==> SnippedAt(delta, depth, dfs, limit, path, last, total, i))
    && (forall i :: j <= i < |path| ==> dfs[path[i]].DfsActive? && delta[path[i]] == Succ(path, last, i))
  }

  /** Off the path everything is as the first pass left it. */
  ghost predicate OffPath(orig: seq<int>, delta: seq<int>, depth: seq<nat>, dfs: seq<DfsState>, limit: nat, path: seq<nat>) {
    && |orig| == |delta| == |depth| == |dfs| && LinksInRange(delta) && LinksInRange(orig)
    && (forall o :: 0 <= o < |delta| && o !in path ==> !dfs[o].DfsActive?)
    && (forall o :: 0 <= o < |delta| && o !in path && dfs[o].DfsDone? ==>
          Settled(delta, depth, dfs, limit, o) && Faithful(orig, depth, limit, o))
    && (forall o :: 0 <= o < |delta| && !dfs[o].DfsDone? ==> depth[o] == 0)
    && Justified(orig, delta, depth, dfs, limit, path)
  }

  ghost predicate Snipping(orig: seq<int>, delta: seq<int>, depth: seq<nat>, dfs: seq<DfsState>, limit: nat,
                           entry: nat, path: seq<nat>, last: nat, total: nat, j: nat, start: seq<DfsState>) {
    && PathLinks(orig, entry, path, last)
    && SnippedUpTo(delta, depth, dfs, limit, path, last, total, j)
    && OffPath(orig, delta, depth, dfs, limit, path)
    && OnlyCut(orig, delta, dfs) && KeepsDone(start, dfs)
    && dfs[last].DfsDone? && total == |path| + depth[last]
  }

  lemma SnipStart(orig: seq<int>, delta: seq<int>, depth: seq<nat>, dfs: seq<DfsState>, limit: nat, entry: nat, path: seq<nat>, last: nat)
    requires Consistent(orig, delta, depth, dfs, limit) && OnPath(delta, dfs, entry, path, last) && dfs[last].DfsDone?
    ensures Snipping(orig, delta, depth, dfs, limit, entry, path, last, |path| + depth[last], 0, dfs)
    ensures entry == Succ(path, last, -1)
  {
    JustifiedKept(orig, delta, depth, dfs, delta, depth, dfs, limit, [], path);
    hide Settled, Faithful, Distinct, Justified;
  }

  lemma SnipFacts(orig: seq<int>, delta: seq<int>, depth: seq<nat>, dfs: seq<DfsState>, limit: nat,
                  entry: nat, path: seq<nat>, last: nat, total: nat, j: nat, start: seq<DfsState>)
    requires Snipping(orig, delta, depth, dfs, limit, entry, path, last, total, j, start)
    ensures 0 <= Succ(path, last, j - 1) < |delta| && j <= total
    ensures |delta| == |depth| == |dfs| && FinalDepth(total - j, 0, limit) == FinalDepth(total, j, limit)
    ensures dfs[Succ(path, last, j - 1)].DfsDone? <==> j == |path|
    ensures j < |path| ==> path[j] == Succ(path, last, j - 1) && delta[path[j]] == Succ(path, last, j) && delta[path[j]] != NIL
  {
    hide OffPath, KeepsDone, Distinct;
  }

  /** One more object of the path gets its final depth, and loses its link when that is 0. */
  lemma SnipStep(orig: seq<int>, delta: seq<int>, depth: seq<nat>, dfs: seq<DfsState>, limit: nat,
                 entry: nat, path: seq<nat>, last: nat, total: nat, j: nat, start: seq<DfsState>)
    requires Snipping(orig, delta, depth, dfs, limit, entry, path, last, total, j, start) && j < |path| && j <= total
    ensures path[j] < |delta| == |depth| == |dfs|
    ensures Snipping(orig, SnipLink(delta, path[j], FinalDepth(total, j, limit)), depth[path[j] := FinalDepth(total, j, limit)],
                     dfs[path[j] := DfsDone], limit, entry, path, last, total, j + 1, start)
  {
    hide OffPath, KeepsDone, FinalDepth, Distinct, Succ, SnippedAt, Justified, Settled, Faithful;
    var cur, d := path[j], FinalDepth(total, j, limit);
    var delta', dfs' := SnipLink(delta, cur, d), dfs[cur := DfsDone];
    SnipStepPath(delta, depth, dfs, limit, orig, entry, path, last, total, j);
    SnipStepOff(orig, delta, depth, dfs, limit, path, cur, d);
    KeepsDoneStep(start, dfs, cur);
    assert OnlyCut(orig, delta', dfs') && last != cur;
  }

  /** The link of an object after it got depth `d`. */
  ghost function SnipLink(delta: seq<int>, cur: nat, d: nat): (r: seq<int>)
    requires cur < |delta|
    ensures |r| == |delta|
  {
    if d == 0 then delta[cur := NIL] else delta
  }

  lemma SnipStepPath(delta: seq<int>, depth: seq<nat>, dfs: seq<DfsState>, limit: nat, orig: seq<int>, entry: nat,
                     path: seq<nat>, last: nat, total: nat, j: nat)
    requires PathLinks(orig, entry, path, last) && SnippedUpTo(delta, depth, dfs, limit, path, last, total, j) && j < |path|
    ensures SnippedUpTo(SnipLink(delta, path[j], FinalDepth(total, j, limit)), depth[path[j] := FinalDepth(total, j, limit)],
                        dfs[path[j] := DfsDone], limit, path, last, total, j + 1)
  {
    var cur, d := path[j], FinalDepth(total, j, limit);
    var delta', depth', dfs' := SnipLink(delta, cur, d), depth[cur := d], dfs[cur := DfsDone];
    assert delta[path[j]] == Succ(path, last, j);
    hide FinalDepth, Succ;
    forall i | 0 <= i < j + 1
      ensures SnippedAt(delta', depth', dfs', limit, path, last, total, i)
    {
      if i < j {
        assert SnippedAt(delta, depth, dfs, limit, path, last, total, i);
        assert path[i] != path[j];
      }
    }
    assert forall i :: j + 1 <= i < |path| ==> path[i] != path[j];
  }

  lemma SnipStepOff(orig: seq<int>, delta: seq<int>, depth: seq<nat>, dfs: seq<DfsState>, limit: nat, path: seq<nat>, cur: nat, d: nat)
    requires OffPath(orig, delta, depth, dfs, limit, path) && cur in path && cur < |delta| && !dfs[cur].DfsDone?
    ensures OffPath(orig, SnipLink(delta, cur, d), depth[cur := d], dfs[cur := DfsDone], limit, path)
  {
    var delta', depth', dfs' := SnipLink(delta, cur, d), depth[cur := d], dfs[cur := DfsDone];
    JustifiedKept(orig, delta, depth, dfs, delta', depth', dfs', limit, path, path);
    hide Justified;
    forall o | 0 <= o < |delta| && o !in path && dfs'[o].DfsDone?
      ensures Settled(delta', depth', dfs', limit, o) && Faithful(orig, depth', limit, o)
    {
      assert Settled(delta, depth, dfs, limit, o) && Faithful(orig, depth, limit, o);
      FaithfulSame(orig, depth, depth', limit, o);
    }
  }

  lemma FaithfulSame(orig: seq<int>, depth: seq<nat>, depth': seq<nat>, limit: nat, o: nat)
    requires LinksInRange(orig) && |orig| == |depth| == |depth'| && o < |orig|
    requires Faithful(orig, depth, limit, o) && depth'[o] == depth[o]
    ensures Faithful(orig, depth', limit, o)
  {
  }

  lemma SnipEnd(orig: seq<int>, delta: seq<int>, depth: seq<nat>, dfs: seq<DfsState>, limit: nat,
                entry: nat, path: seq<nat>, last: nat, total: nat, j: nat, start: seq<DfsState>)
    requires Snipping(orig, delta, depth, dfs, limit, entry, path, last, total, j, start) && j == |path|
    ensures Consistent(orig, delta, depth, dfs, limit) && KeepsDone(start, dfs)
    ensures (forall o :: 0 <= o < |delta| ==> !dfs[o].DfsActive?) && dfs[entry].DfsDone?
  {
    assert Settled(delta, depth, dfs, limit, last) && depth[last] <= limit;
    hide Settled, Faithful, FinalDepth, Distinct, Justified;
    forall i | 0 <= i < |path|
      ensures dfs[path[i]].DfsDone? && depth[path[i]] == FinalDepth(total, i, limit)
    {
      assert SnippedAt(delta, depth, dfs, limit, path, last, total, i);
    }
    SnipJustified(orig, delta, depth, dfs, limit, entry, path, last, total);
    forall o | 0 <= o < |delta| && dfs[o].DfsDone?
      ensures Settled(delta, depth, dfs, limit, o) && Faithful(orig, depth, limit, o)
    {
      if o in path {
        var i :| 0 <= i < |path| && path[i] == o;
        SnippedSettled(delta, depth, dfs, limit, path, last, total, i);
        SnippedFaithful(orig, depth, limit, entry, path, last, total, i);
      }
    }
  }

  /** The second pass only cuts below an object at the limit. */
  lemma SnipJustified(orig: seq<int>, delta: seq<int>, depth: seq<nat>, dfs: seq<DfsState>, limit: nat,
                      entry: nat, path: seq<nat>, last: nat, total: nat)
    requires PathLinks(orig, entry, path, last) && OffPath(orig, delta, depth, dfs, limit, path)
    requires SnippedUpTo(delta, depth, dfs, limit, path, last, total, |path|)
    requires dfs[last].DfsDone? && depth[last] <= limit && total == |path| + depth[last]
    ensures Justified(orig, delta, depth, dfs, limit, [])
  {
    forall i | 0 <= i < |path| ensures !Loose(orig, delta, depth, dfs, limit, path[i]) {
      SnippedTight(orig, delta, depth, dfs, limit, entry, path, last, total, i);
    }
    hide Settled, Faithful, SnippedUpTo, PathLinks;
    forall o | 0 <= o < |orig| && Loose(orig, delta, depth, dfs, limit, o) ensures o !in path {
    }
    JustifiedKept(orig, delta, depth, dfs, delta, depth, dfs, limit, path, []);
  }

  lemma SnippedTight(orig: seq<int>, delta: seq<int>, depth: seq<nat>, dfs: seq<DfsState>, limit: nat,
                     entry: nat, path: seq<nat>, last: nat, total: nat, i: nat)
    requires PathLinks(orig, entry, path, last) && |orig| == |delta| && i < |path|
    requires SnippedUpTo(delta, depth, dfs, limit, path, last, total, |path|)
    requires dfs[last].DfsDone? && depth[last] <= limit && total == |path| + depth[last]
    ensures !Loose(orig, delta, depth, dfs, limit, path[i])
  {
    assert SnippedAt(delta, depth, dfs, limit, path, last, total, i);
    FinalDepthStep(total, i, limit);
    if i + 1 < |path| {
      assert SnippedAt(delta, depth, dfs, limit, path, last, total, i + 1);
    } else {
      RemainderSmall(depth[last], limit + 1);
    }
    hide SnippedUpTo;
  }

  lemma SnippedSettled(delta: seq<int>, depth: seq<nat>, dfs: seq<DfsState>, limit: nat, path: seq<nat>, last: nat, total: nat, i: nat)
    requires SnippedUpTo(delta, depth, dfs, limit, path, last, total, |path|) && LinksInRange(delta) && i < |path|
    requires last < |delta| && dfs[last].DfsDone? && depth[last] <= limit && total == |path| + depth[last]
    ensures Settled(delta, depth, dfs, limit, path[i])
  {
    assert SnippedAt(delta, depth, dfs, limit, path, last, total, i);
    FinalDepthStep(total, i, limit);
    if i + 1 < |path| {
      assert SnippedAt(delta, depth, dfs, limit, path, last, total, i + 1);
    } else {
      RemainderSmall(depth[last], limit + 1);
    }
    hide SnippedUpTo;
  }

  lemma FinalDepthStep(total: nat, i: nat, limit: nat)
    requires i < total
    ensures FinalDepth(total, i, limit) == if FinalDepth(total, i + 1, limit) == limit then 0 else FinalDepth(total, i + 1, limit) + 1
    ensures FinalDepth(total, i, limit) <= limit
  {
    RemainderSucc(total - i - 1, limit + 1);
  }

  lemma RemainderSucc(x: nat, m: nat)
    requires m > 0
    ensures (x + 1) % m == if x % m + 1 == m then 0 else x % m + 1
  {
    var q := x / m;
    if x % m + 1 == m {
      assert x + 1 == m * (q + 1) + 0;
      DivisionUnique(x + 1, m, q + 1, 0);
    } else {
      DivisionUnique(x + 1, m, q, x % m + 1);
    }
  }

  lemma RemainderSmall(x: nat, m: nat)
    requires x < m
    ensures x % m == x
  {
    DivisionUnique(x, m, 0, x);
  }

  lemma RemainderAdd(a: nat, x: nat, m: nat)
    requires m > 0
    ensures (a + x % m) % m == (a + x) % m
  {
    var q, r := x / m, (a + x % m) % m;
    var p := (a + x % m) / m;
    assert a + x == m * (p + q) + r;
    DivisionUnique(a + x, m, p + q, r);
  }

  lemma SnippedFaithful(orig: seq<int>, depth: seq<nat>, limit: nat, entry: nat, path: seq<nat>, last: nat, total: nat, i: nat)
    requires PathLinks(orig, entry, path, last) && |depth| == |orig| && i < |path|
    requires Faithful(orig, depth, limit, last) && total == |path| + depth[last]
    requires depth[path[i]] == FinalDepth(total, i, limit)
    ensures Faithful(orig, depth, limit, path[i])
  {
    forall k: nat | ChainLength(orig, path[i], k)
      ensures depth[path[i]] == k % (limit + 1)
    {
      AlongPath(orig, path, last, i, k);
      var l := k - (|path| - i);
      assert depth[last] == l % (limit + 1);
      RemainderAdd(|path| - i, l, limit + 1);
    }
  }

  lemma AllSettled(orig: seq<int>, delta: seq<int>, depth: seq<nat>, dfs: seq<DfsState>, limit: nat)
    requires Consistent(orig, delta, depth, dfs, limit) && forall o :: 0 <= o < |dfs| ==> dfs[o].DfsDone?
    ensures forall o :: 0 <= o < |delta| ==> ChainLength(delta, o, depth[o]) && depth[o] <= limit
    ensures forall o :: 0 <= o < |delta| ==> delta[o] == orig[o] || delta[o] == NIL
    ensures forall o :: 0 <= o < |delta| ==> Faithful(orig, depth, limit, o)
    ensures forall o :: 0 <= o < |delta| && CutFreely(orig, delta, depth, limit, o) ==> Leads(orig, orig[o], o)
    ensures forall o, p :: 0 <= o < p < |delta| && OneCycle(orig, o, p) ==>
      !CutFreely(orig, delta, depth, limit, o) || !CutFreely(orig, delta, depth, limit, p)
  {
    forall o | 0 <= o < |delta| && CutFreely(orig, delta, depth, limit, o) ensures Loose(orig, delta, depth, dfs, limit, o) {
    }
    hide Leads, OneCycle;
    forall o | 0 <= o < |delta| ensures ChainLength(delta, o, depth[o]) && depth[o] <= limit {
      SettledChain(delta, depth, dfs, limit, o);
    }
  }
}
