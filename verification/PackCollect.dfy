/**
 Choosing the objects of a pack: `collect_all_objects`, `collect_tree_objects`, `filter_objects`
 and the incremental pack of src/protocol/pack.rs. The repository is read, never changed.
 */
module PackCollect {
  import opened Basics
  import opened HashKinds
  import opened ObjectGraph

  datatype CollectError = ObjectMissing(hex: string) | OtherKind(hex: string)

  datatype Result<+T> = Ok(value: T) | Err(error: CollectError)

  /** What the walk over trees accumulates, in the order found, and what it has seen. */
  datatype Walk = Walk(trees: seq<Tree>, blobs: seq<Blob>, visitedTrees: set<string>, visitedBlobs: set<string>)

  function TreesAt(repo: Repo, order: seq<string>): seq<Tree>
    requires forall t :: t in order ==> t in repo.trees
  {
    seq(|order|, i requires 0 <= i < |order| => repo.trees[order[i]])
  }

  function BlobsAt(repo: Repo, order: seq<string>): seq<Blob>
    requires forall b :: b in order ==> b in repo.blobs
  {
    seq(|order|, i requires 0 <= i < |order| => repo.blobs[order[i]])
  }

  function CommitsAt(repo: Repo, order: seq<string>): seq<Commit>
    requires forall c :: c in order ==> c in repo.commits
  {
    seq(|order|, i requires 0 <= i < |order| => repo.commits[order[i]])
  }

  /** `order` lists the members of the set, each once. */
  ghost predicate Lists(order: seq<string>, s: set<string>) {
    Distinct(order) && forall x :: x in order <==> x in s
  }

  lemma ListsJoin(a: seq<string>, s: set<string>, b: seq<string>, t: set<string>)
    requires Lists(a, s) && Lists(b, t) && s !! t
    ensures Lists(a + b, s + t)
  {
    forall i, j | 0 <= i < j < |a + b|
      ensures (a + b)[i] != (a + b)[j]
    {
      if i < |a| <= j { assert a[i] in s && b[j - |a|] in t; }
    }
  }

  /** Trees found beyond `base`: reachable, good, and with everything below them visited. */
  ghost predicate TreesGrown(repo: Repo, kind: HashKind, from: string, base: Walk, w: Walk, order: seq<string>) {
    && base.visitedTrees <= w.visitedTrees
    && Lists(order, w.visitedTrees - base.visitedTrees)
    && (forall t :: t in w.visitedTrees - base.visitedTrees ==>
          && TreeReach(repo, from, t) && TreeGood(repo, kind, t)
          && Subtrees(repo.trees[t]) <= w.visitedTrees && BlobsIn(repo.trees[t]) <= w.visitedBlobs)
    && w.trees == base.trees + TreesAt(repo, order)
  }

  /** The blob is an entry of a tree reachable from `from`. */
  ghost predicate BlobBelow(repo: Repo, from: string, b: string) {
    exists t :: TreeReach(repo, from, t) && t in repo.trees && b in BlobsIn(repo.trees[t])
  }

  ghost predicate BlobsGrown(repo: Repo, kind: HashKind, from: string, base: Walk, w: Walk, order: seq<string>) {
    && base.visitedBlobs <= w.visitedBlobs
    && Lists(order, w.visitedBlobs - base.visitedBlobs)
    && (forall b :: b in w.visitedBlobs - base.visitedBlobs ==> BlobBelow(repo, from, b) && BlobGood(repo, kind, b))
    && w.blobs == base.blobs + BlobsAt(repo, order)
  }

  lemma TreesGrownTwice(repo: Repo, kind: HashKind, from: string, child: string, a: Walk, b: Walk, c: Walk,
                        ab: seq<string>, bc: seq<string>)
    requires TreesGrown(repo, kind, from, a, b, ab) && TreesGrown(repo, kind, child, b, c, bc)
    requires b.visitedBlobs <= c.visitedBlobs
    requires from in repo.trees && child in Subtrees(repo.trees[from])
    ensures TreesGrown(repo, kind, from, a, c, ab + bc)
  {
    forall t | t in c.visitedTrees - b.visitedTrees
      ensures TreeReach(repo, from, t)
    {
      TreeReachStep(repo, from, child, t);
    }
    hide TreeReach, TreeGood, Subtrees, BlobsIn;
    ListsJoin(ab, b.visitedTrees - a.visitedTrees, bc, c.visitedTrees - b.visitedTrees);
    assert (b.visitedTrees - a.visitedTrees) + (c.visitedTrees - b.visitedTrees) == c.visitedTrees - a.visitedTrees;
    assert TreesAt(repo, ab) + TreesAt(repo, bc) == TreesAt(repo, ab + bc);
  }

  lemma BlobsGrownTwice(repo: Repo, kind: HashKind, from: string, child: string, a: Walk, b: Walk, c: Walk,
                        ab: seq<string>, bc: seq<string>)
    requires BlobsGrown(repo, kind, from, a, b, ab) && BlobsGrown(repo, kind, child, b, c, bc)
    requires from in repo.trees && child in Subtrees(repo.trees[from])
    ensures BlobsGrown(repo, kind, from, a, c, ab + bc)
  {
    forall x | x in c.visitedBlobs - b.visitedBlobs
      ensures BlobBelow(repo, from, x)
    {
      var t :| TreeReach(repo, child, t) && t in repo.trees && x in BlobsIn(repo.trees[t]);
      TreeReachStep(repo, from, child, t);
    }
    hide BlobBelow, BlobGood;
    ListsJoin(ab, b.visitedBlobs - a.visitedBlobs, bc, c.visitedBlobs - b.visitedBlobs);
    assert (b.visitedBlobs - a.visitedBlobs) + (c.visitedBlobs - b.visitedBlobs) == c.visitedBlobs - a.visitedBlobs;
    assert BlobsAt(repo, ab) + BlobsAt(repo, bc) == BlobsAt(repo, ab + bc);
  }

  /** What visiting the entries of a tree one by one has established for the first `i`. */
  ghost predicate ItemsDone(repo: Repo, kind: HashKind, tree: Tree, w: Walk, i: nat)
    requires i <= |tree.items|
  {
    forall j :: 0 <= j < i ==>
      && tree.items[j].id.kind == kind
      && (tree.items[j].mode.TreeMode? ==> tree.items[j].id.hex in w.visitedTrees)
      && (IsBlobMode(tree.items[j].mode) ==> tree.items[j].id.hex in w.visitedBlobs)
  }

  ghost predicate BlobsGood(repo: Repo, kind: HashKind, w: Walk) {
    forall b :: b in w.visitedBlobs ==> BlobGood(repo, kind, b)
  }

  /** Some tree reachable from `from` is missing, of another kind, or names something that is. */
  ghost predicate SomethingBad(repo: Repo, kind: HashKind, from: string) {
    exists t :: TreeReach(repo, from, t) && !TreeGood(repo, kind, t)
  }

  lemma BadBelow(repo: Repo, kind: HashKind, from: string, child: string)
    requires from in repo.trees && child in Subtrees(repo.trees[from]) && SomethingBad(repo, kind, child)
    ensures SomethingBad(repo, kind, from)
  {
    var t :| TreeReach(repo, child, t) && !TreeGood(repo, kind, t);
    TreeReachStep(repo, from, child, t);
  }

  lemma BadHere(repo: Repo, kind: HashKind, from: string)
    requires !TreeGood(repo, kind, from)
    ensures SomethingBad(repo, kind, from)
  {
    TreeReachSelf(repo, from);
  }

  /** Fetches a blob not seen before. */
  method CollectBlob(repo: Repo, kind: HashKind, tree: string, hex: string, base: Walk, w0: Walk, ghost order0: seq<string>)
      returns (r: Result<Walk>, ghost order: seq<string>)
    requires tree in repo.trees && hex in BlobsIn(repo.trees[tree]) && hex !in w0.visitedBlobs
    requires BlobsGrown(repo, kind, tree, base, w0, order0) && BlobsGood(repo, kind, w0)
    ensures r.Err? ==> SomethingBad(repo, kind, tree)
    ensures r.Ok? ==> BlobsGrown(repo, kind, tree, base, r.value, order) && BlobsGood(repo, kind, r.value)
    ensures r.Ok? ==> r.value.visitedTrees == w0.visitedTrees && r.value.trees == w0.trees
    ensures r.Ok? ==> r.value.visitedBlobs == w0.visitedBlobs + {hex}
  {
    TreeReachSelf(repo, tree);
    order := order0 + [hex];
    if hex !in repo.blobs {
      BadHere(repo, kind, tree);
      return Err(ObjectMissing(hex)), order;
    }
    var blob := repo.blobs[hex];
    if blob.id.kind != kind {
      BadHere(repo, kind, tree);
      return Err(OtherKind(hex)), order;
    }
    var w := w0.(visitedBlobs := w0.visitedBlobs + {hex}, blobs := w0.blobs + [blob]);
    ListsJoin(order0, w0.visitedBlobs - base.visitedBlobs, [hex], {hex});
    assert (w0.visitedBlobs - base.visitedBlobs) + {hex} == w.visitedBlobs - base.visitedBlobs;
    assert BlobBelow(repo, tree, hex) && BlobGood(repo, kind, hex);
    assert BlobsAt(repo, order0) + [blob] == BlobsAt(repo, order);
    r := Ok(w);
  }

  /** Visits a tree and everything below it, skipping what has been seen. */
  method CollectTree(repo: Repo, kind: HashKind, hash: string, w0: Walk)
      returns (r: Result<Walk>, ghost trees: seq<string>, ghost blobs: seq<string>)
    requires BlobsGood(repo, kind, w0)
    ensures r.Err? ==> SomethingBad(repo, kind, hash)
    ensures r.Ok? ==> && hash in r.value.visitedTrees
                      && TreesGrown(repo, kind, hash, w0, r.value, trees)
                      && BlobsGrown(repo, kind, hash, w0, r.value, blobs)
                      && BlobsGood(repo, kind, r.value)
    decreases repo.trees.Keys - w0.visitedTrees, 1
  {
    trees, blobs := [], [];
    if hash in w0.visitedTrees {
      return Ok(w0), trees, blobs;
    }
    if hash !in repo.trees {
      BadHere(repo, kind, hash);
      return Err(ObjectMissing(hash)), trees, blobs;
    }
    var tree := repo.trees[hash];
    if tree.id.kind != kind {
      BadHere(repo, kind, hash);
      return Err(OtherKind(hash)), trees, blobs;
    }
    var w := w0.(visitedTrees := w0.visitedTrees + {hash});
    r, trees, blobs := CollectItems(repo, kind, hash, w);
    if r.Ok? {
      TreeDone(repo, kind, hash, w0, r.value, trees, blobs);
      r := Ok(r.value.(trees := r.value.trees + [tree]));
      trees := trees + [hash];
    }
  }

  /** The loop over the entries of a tree that has just been marked as visited. */
  method CollectItems(repo: Repo, kind: HashKind, hash: string, base: Walk)
      returns (r: Result<Walk>, ghost trees: seq<string>, ghost blobs: seq<string>)
    requires hash in repo.trees && hash in base.visitedTrees && BlobsGood(repo, kind, base)
    ensures r.Err? ==> SomethingBad(repo, kind, hash)
    ensures r.Ok? ==> && TreesGrown(repo, kind, hash, base, r.value, trees)
                      && BlobsGrown(repo, kind, hash, base, r.value, blobs)
                      && BlobsGood(repo, kind, r.value)
                      && ItemsDone(repo, kind, repo.trees[hash], r.value, |repo.trees[hash].items|)
    decreases repo.trees.Keys - base.visitedTrees, 2
  {
    hide TreesGrown, BlobsGrown, BlobsGood, SomethingBad, TreeGood;
    var items := repo.trees[hash].items;
    var w := base;
    trees, blobs := [], [];
    NothingGrown(repo, kind, hash, base);
    for i := 0 to |items|
      invariant TreesGrown(repo, kind, hash, base, w, trees) && BlobsGrown(repo, kind, hash, base, w, blobs)
      invariant BlobsGood(repo, kind, w) && ItemsDone(repo, kind, repo.trees[hash], w, i)
      invariant base.visitedTrees <= w.visitedTrees
    {
      var entry := items[i];
      if entry.id.kind != kind {
        BadItem(repo, kind, hash, i);
        return Err(OtherKind(entry.id.hex)), trees, blobs;
      }
      var hex := entry.id.hex;
      if entry.mode.TreeMode? {
        assert hex in Subtrees(repo.trees[hash]);
        ghost var t, b;
        var below;
        below, t, b := CollectTree(repo, kind, hex, w);
        if below.Err? {
          BadBelow(repo, kind, hash, hex);
          return below, trees, blobs;
        }
        Widened(repo, kind, hex, w, below.value, t, b);
        TreesGrownTwice(repo, kind, hash, hex, base, w, below.value, trees, t);
        BlobsGrownTwice(repo, kind, hash, hex, base, w, below.value, blobs, b);
        w, trees, blobs := below.value, trees + t, blobs + b;
      } else if IsBlobMode(entry.mode) && hex !in w.visitedBlobs {
        assert hex in BlobsIn(repo.trees[hash]);
        var more;
        ghost var before, order := w, blobs;
        more, blobs := CollectBlob(repo, kind, hash, hex, base, w, blobs);
        if more.Err? { return more, trees, blobs; }
        w := more.value;
        TreesKept(repo, kind, hash, base, before, w, trees);
      }
    }
    r := Ok(w);
  }

  lemma NothingGrown(repo: Repo, kind: HashKind, from: string, w: Walk)
    ensures TreesGrown(repo, kind, from, w, w, []) && BlobsGrown(repo, kind, from, w, w, [])
  {
  }

  lemma BadItem(repo: Repo, kind: HashKind, hash: string, i: nat)
    requires hash in repo.trees && i < |repo.trees[hash].items| && repo.trees[hash].items[i].id.kind != kind
    ensures SomethingBad(repo, kind, hash)
  {
    BadHere(repo, kind, hash);
  }

  lemma Widened(repo: Repo, kind: HashKind, from: string, a: Walk, b: Walk, trees: seq<string>, blobs: seq<string>)
    requires TreesGrown(repo, kind, from, a, b, trees) && BlobsGrown(repo, kind, from, a, b, blobs)
    ensures a.visitedTrees <= b.visitedTrees && a.visitedBlobs <= b.visitedBlobs
  {
  }

  lemma TreesKept(repo: Repo, kind: HashKind, from: string, base: Walk, a: Walk, b: Walk, order: seq<string>)
    requires TreesGrown(repo, kind, from, base, a, order)
    requires b.trees == a.trees && b.visitedTrees == a.visitedTrees && a.visitedBlobs <= b.visitedBlobs
    ensures TreesGrown(repo, kind, from, base, b, order)
  {
    hide TreeReach, TreeGood, Subtrees, BlobsIn;
  }

  lemma TreeDone(repo: Repo, kind: HashKind, hash: string, w0: Walk, w: Walk, trees: seq<string>, blobs: seq<string>)
    requires hash in repo.trees && repo.trees[hash].id.kind == kind && hash !in w0.visitedTrees
    requires TreesGrown(repo, kind, hash, w0.(visitedTrees := w0.visitedTrees + {hash}), w, trees)
    requires BlobsGrown(repo, kind, hash, w0.(visitedTrees := w0.visitedTrees + {hash}), w, blobs)
    requires BlobsGood(repo, kind, w)
    requires ItemsDone(repo, kind, repo.trees[hash], w, |repo.trees[hash].items|)
    ensures TreesGrown(repo, kind, hash, w0, w.(trees := w.trees + [repo.trees[hash]]), trees + [hash])
    ensures BlobsGrown(repo, kind, hash, w0, w.(trees := w.trees + [repo.trees[hash]]), blobs)
  {
    TreeReachSelf(repo, hash);
    assert TreeGood(repo, kind, hash);
    var base := w0.(visitedTrees := w0.visitedTrees + {hash});
    ListsJoin(trees, w.visitedTrees - base.visitedTrees, [hash], {hash});
    assert (w.visitedTrees - base.visitedTrees) + {hash} == w.visitedTrees - w0.visitedTrees;
    assert TreesAt(repo, trees) + [repo.trees[hash]] == TreesAt(repo, trees + [hash]);
  }

  // ---------------------------------------------------------------- commits

  datatype Collected = Collected(commits: seq<Commit>, trees: seq<Tree>, blobs: seq<Blob>)

  /** Exactly the needed objects, each once, in the orders given. */
  ghost predicate ExactlyNeeded(repo: Repo, starts: seq<string>, r: Collected,
                                commits: seq<string>, trees: seq<string>, blobs: seq<string>) {
    && Distinct(commits) && Distinct(trees) && Distinct(blobs)
    && (forall c :: c in commits <==> CommitReach(repo, starts, c))
    && (forall t :: t in trees <==> TreeNeeded(repo, starts, t))
    && (forall b :: b in blobs <==> BlobNeeded(repo, starts, b))
    && (forall c :: c in commits ==> c in repo.commits) && r.commits == CommitsAt(repo, commits)
    && (forall t :: t in trees ==> t in repo.trees) && r.trees == TreesAt(repo, trees)
    && (forall b :: b in blobs ==> b in repo.blobs) && r.blobs == BlobsAt(repo, blobs)
  }

  /** Queues the parents that have not been visited, refusing those of another kind. */
  method EnqueueParents(commit: Commit, kind: HashKind, visited: set<string>, queue0: seq<string>)
      returns (r: Result<seq<string>>)
    ensures r.Err? ==> exists i :: 0 <= i < |commit.parents| && commit.parents[i].kind != kind
    ensures r.Ok? ==> forall i :: 0 <= i < |commit.parents| ==> commit.parents[i].kind == kind
    ensures r.Ok? ==> forall p :: p in ParentsOf(commit) ==> p in visited || p in r.value
    ensures r.Ok? ==> queue0 <= r.value && forall q :: q in r.value ==> q in queue0 || q in ParentsOf(commit)
  {
    var queue := queue0;
    for i := 0 to |commit.parents|
      invariant forall j :: 0 <= j < i ==> commit.parents[j].kind == kind
      invariant forall j :: 0 <= j < i ==> commit.parents[j].hex in visited || commit.parents[j].hex in queue
      invariant queue0 <= queue && forall q :: q in queue ==> q in queue0 || q in ParentsOf(commit)
    {
      var parent := commit.parents[i];
      if parent.kind != kind { return Err(OtherKind(parent.hex)); }
      assert parent.hex in ParentsOf(commit);
      if parent.hex !in visited { queue := queue + [parent.hex]; }
    }
    r := Ok(queue);
  }

  /** The commits visited so far, and what has to be looked at still. */
  ghost predicate CommitsVisited(repo: Repo, kind: HashKind, starts: seq<string>,
                                 visited: set<string>, queue: seq<string>, w: Walk) {
    && (forall c :: c in starts ==> c in visited || c in queue)
    && (forall q :: q in queue ==> CommitReach(repo, starts, q))
    && forall c :: c in visited ==>
         && CommitReach(repo, starts, c) && CommitGood(repo, kind, c)
         && (forall p :: p in ParentsOf(repo.commits[c]) ==> p in visited || p in queue)
         && repo.commits[c].treeId.hex in w.visitedTrees
  }

  /** The trees collected so far: needed, good, and closed downwards. */
  ghost predicate TreesVisited(repo: Repo, kind: HashKind, starts: seq<string>, w: Walk, trees: seq<string>) {
    && Lists(trees, w.visitedTrees)
    && (forall t :: t in w.visitedTrees ==>
          && TreeNeeded(repo, starts, t) && TreeGood(repo, kind, t)
          && Subtrees(repo.trees[t]) <= w.visitedTrees && BlobsIn(repo.trees[t]) <= w.visitedBlobs)
    && w.trees == TreesAt(repo, trees)
  }

  ghost predicate BlobsVisited(repo: Repo, kind: HashKind, starts: seq<string>, w: Walk, blobs: seq<string>) {
    && Lists(blobs, w.visitedBlobs)
    && (forall b :: b in w.visitedBlobs ==> BlobNeeded(repo, starts, b) && BlobGood(repo, kind, b))
    && w.blobs == BlobsAt(repo, blobs)
  }

  lemma NeededFromCommit(repo: Repo, starts: seq<string>, c: string, t: string)
    requires CommitReach(repo, starts, c) && c in repo.commits && TreeReach(repo, repo.commits[c].treeId.hex, t)
    ensures TreeNeeded(repo, starts, t)
  {
  }

  /** The trees below one more commit. */
  lemma CommitTreesVisited(repo: Repo, kind: HashKind, starts: seq<string>, c: string, w: Walk, w': Walk,
                           trees: seq<string>, t: seq<string>)
    requires CommitReach(repo, starts, c) && c in repo.commits
    requires TreesVisited(repo, kind, starts, w, trees) && w.visitedBlobs <= w'.visitedBlobs
    requires TreesGrown(repo, kind, repo.commits[c].treeId.hex, w, w', t)
    ensures TreesVisited(repo, kind, starts, w', trees + t)
  {
    hide TreeNeeded, TreeReach, Subtrees, BlobsIn, CommitReach;
    assert forall x :: x in trees + t ==> x in repo.trees;
    hide TreeGood;
    forall x | x in w'.visitedTrees - w.visitedTrees
      ensures TreeNeeded(repo, starts, x)
    {
      NeededFromCommit(repo, starts, c, x);
    }
    ListsJoin(trees, w.visitedTrees, t, w'.visitedTrees - w.visitedTrees);
    assert w.visitedTrees + (w'.visitedTrees - w.visitedTrees) == w'.visitedTrees;
    assert TreesAt(repo, trees) + TreesAt(repo, t) == TreesAt(repo, trees + t);
  }

  lemma CommitBlobsVisited(repo: Repo, kind: HashKind, starts: seq<string>, c: string, w: Walk, w': Walk,
                           blobs: seq<string>, b: seq<string>)
    requires CommitReach(repo, starts, c) && c in repo.commits
    requires BlobsVisited(repo, kind, starts, w, blobs)
    requires BlobsGrown(repo, kind, repo.commits[c].treeId.hex, w, w', b)
    ensures BlobsVisited(repo, kind, starts, w', blobs + b)
  {
    forall x | x in w'.visitedBlobs - w.visitedBlobs
      ensures BlobNeeded(repo, starts, x)
    {
      var y :| TreeReach(repo, repo.commits[c].treeId.hex, y) && y in repo.trees && x in BlobsIn(repo.trees[y]);
      assert TreeNeeded(repo, starts, y);
    }
    hide BlobNeeded, BlobBelow, CommitReach, BlobGood;
    ListsJoin(blobs, w.visitedBlobs, b, w'.visitedBlobs - w.visitedBlobs);
    assert w.visitedBlobs + (w'.visitedBlobs - w.visitedBlobs) == w'.visitedBlobs;
    assert BlobsAt(repo, blobs) + BlobsAt(repo, b) == BlobsAt(repo, blobs + b);
  }

  /** With an empty queue every needed tree has been visited. */
  lemma AllTreesVisited(repo: Repo, kind: HashKind, starts: seq<string>, visited: set<string>, w: Walk, trees: seq<string>, t: string)
    requires CommitsVisited(repo, kind, starts, visited, [], w) && TreesVisited(repo, kind, starts, w, trees)
    requires TreeNeeded(repo, starts, t)
    ensures t in w.visitedTrees
  {
    hide CommitsVisited, TreesVisited, TreeReach, CommitReach;
    var c :| CommitReach(repo, starts, c) && c in repo.commits && TreeReach(repo, repo.commits[c].treeId.hex, t);
    AllCommitsVisited(repo, kind, starts, visited, w, c);
    VisitedTreesClosed(repo, kind, starts, visited, w, trees, c);
    ClosedHasReachable(repo, w.visitedTrees, repo.commits[c].treeId.hex, t);
  }

  lemma VisitedTreesClosed(repo: Repo, kind: HashKind, starts: seq<string>, visited: set<string>, w: Walk, trees: seq<string>, c: string)
    requires CommitsVisited(repo, kind, starts, visited, [], w) && TreesVisited(repo, kind, starts, w, trees)
    requires c in visited
    ensures TreesClosed(repo, w.visitedTrees) && c in repo.commits && repo.commits[c].treeId.hex in w.visitedTrees
  {
    hide TreeReach, CommitReach, TreeNeeded, BlobsIn, Subtrees, ParentsOf, Lists;
  }

  lemma AllCommitsVisited(repo: Repo, kind: HashKind, starts: seq<string>, visited: set<string>, w: Walk, c: string)
    requires CommitsVisited(repo, kind, starts, visited, [], w) && CommitReach(repo, starts, c)
    ensures c in visited
  {
    hide CommitReach;
    assert CommitsClosed(repo, visited);
    ClosedHasReachableCommits(repo, visited, starts, c);
  }

  lemma AllBlobsVisited(repo: Repo, kind: HashKind, starts: seq<string>, visited: set<string>, w: Walk, trees: seq<string>, b: string)
    requires CommitsVisited(repo, kind, starts, visited, [], w) && TreesVisited(repo, kind, starts, w, trees)
    requires BlobNeeded(repo, starts, b)
    ensures b in w.visitedBlobs
  {
    var t :| TreeNeeded(repo, starts, t) && t in repo.trees && b in BlobsIn(repo.trees[t]);
    AllTreesVisited(repo, kind, starts, visited, w, trees, t);
  }

  /** Then nothing needed is bad, and what was collected is exactly what is needed. */
  lemma WalkComplete(repo: Repo, kind: HashKind, starts: seq<string>, visited: set<string>, w: Walk,
                     commits: seq<string>, trees: seq<string>, blobs: seq<string>)
    requires CommitsVisited(repo, kind, starts, visited, [], w)
    requires TreesVisited(repo, kind, starts, w, trees) && BlobsVisited(repo, kind, starts, w, blobs)
    requires Lists(commits, visited) && visited <= repo.commits.Keys
    ensures AllGood(repo, kind, starts)
    ensures ExactlyNeeded(repo, starts, Collected(CommitsAt(repo, commits), w.trees, w.blobs), commits, trees, blobs)
  {
    forall c | CommitReach(repo, starts, c) ensures c in visited { AllCommitsVisited(repo, kind, starts, visited, w, c); }
    forall t | TreeNeeded(repo, starts, t) ensures t in w.visitedTrees { AllTreesVisited(repo, kind, starts, visited, w, trees, t); }
    forall b | BlobNeeded(repo, starts, b) ensures b in w.visitedBlobs { AllBlobsVisited(repo, kind, starts, visited, w, trees, b); }
    hide CommitReach, TreeNeeded, BlobNeeded, Subtrees, BlobsIn, ParentsOf, Distinct;
  }

  lemma BadTreeNeeded(repo: Repo, kind: HashKind, starts: seq<string>, c: string)
    requires CommitReach(repo, starts, c) && c in repo.commits && SomethingBad(repo, kind, repo.commits[c].treeId.hex)
    ensures !AllGood(repo, kind, starts)
  {
    var t :| TreeReach(repo, repo.commits[c].treeId.hex, t) && !TreeGood(repo, kind, t);
    assert TreeNeeded(repo, starts, t);
  }

  /** Visits one commit taken from the queue: its checks, its parents, its tree. */
  method VisitCommit(repo: Repo, kind: HashKind, c: string, visited: set<string>, queue: seq<string>, w: Walk,
                     ghost starts: seq<string>, ghost trees: seq<string>, ghost blobs: seq<string>)
      returns (r: Result<(Commit, seq<string>, Walk)>, ghost trees': seq<string>, ghost blobs': seq<string>)
    requires CommitReach(repo, starts, c) && c !in visited
    requires CommitsVisited(repo, kind, starts, visited, [c] + queue, w)
    requires TreesVisited(repo, kind, starts, w, trees) && BlobsVisited(repo, kind, starts, w, blobs)
    ensures r.Err? ==> !AllGood(repo, kind, starts)
    ensures r.Ok? ==> && c in repo.commits && r.value.0 == repo.commits[c]
                      && CommitsVisited(repo, kind, starts, visited + {c}, r.value.1, r.value.2)
                      && TreesVisited(repo, kind, starts, r.value.2, trees') && BlobsVisited(repo, kind, starts, r.value.2, blobs')
  {
    trees', blobs' := trees, blobs;
    if c !in repo.commits { return Err(ObjectMissing(c)), trees', blobs'; }
    var commit := repo.commits[c];
    if commit.id.kind != kind { return Err(OtherKind(c)), trees', blobs'; }
    if commit.treeId.kind != kind { return Err(OtherKind(commit.treeId.hex)), trees', blobs'; }
    var queued := EnqueueParents(commit, kind, visited + {c}, queue);
    if queued.Err? { return Err(queued.error), trees', blobs'; }
    ghost var t, b;
    var walked;
    walked, t, b := CollectTree(repo, kind, commit.treeId.hex, w);
    if walked.Err? {
      BadTreeNeeded(repo, kind, starts, c);
      return Err(walked.error), trees', blobs';
    }
    CommitTreesVisited(repo, kind, starts, c, w, walked.value, trees, t);
    CommitBlobsVisited(repo, kind, starts, c, w, walked.value, blobs, b);
    QueueGrown(repo, kind, starts, c, visited, queue, queued.value, w, walked.value);
    trees', blobs' := trees + t, blobs + b;
    r := Ok((commit, queued.value, walked.value));
  }

  lemma QueueGrown(repo: Repo, kind: HashKind, starts: seq<string>, c: string, visited: set<string>,
                   queue: seq<string>, queue': seq<string>, w: Walk, w': Walk)
    requires CommitsVisited(repo, kind, starts, visited, [c] + queue, w) && w.visitedTrees <= w'.visitedTrees
    requires CommitReach(repo, starts, c) && CommitGood(repo, kind, c) && repo.commits[c].treeId.hex in w'.visitedTrees
    requires forall p :: p in ParentsOf(repo.commits[c]) ==> p in visited + {c} || p in queue'
    requires queue <= queue' && forall q :: q in queue' ==> q in queue || q in ParentsOf(repo.commits[c])
    ensures CommitsVisited(repo, kind, starts, visited + {c}, queue', w')
  {
    assert c in repo.commits;
    hide CommitGood, ParentsOf, CommitReach;
    assert forall q :: q in [c] + queue ==> q == c || q in queue';
    forall q | q in queue'
      ensures CommitReach(repo, starts, q)
    {
      if q in queue { assert q in [c] + queue; } else { CommitReachParent(repo, starts, c, q); }
    }
  }

  /**
   Collects everything reachable from the given commits. It succeeds exactly when nothing needed
   is missing or of another kind, terminates on cyclic references too, and returns every needed
   object exactly once.
   */
  method CollectAll(repo: Repo, kind: HashKind, starts: seq<string>)
      returns (r: Result<Collected>, ghost commits: seq<string>, ghost trees: seq<string>, ghost blobs: seq<string>)
    ensures r.Ok? <==> AllGood(repo, kind, starts)
    ensures r.Ok? ==> ExactlyNeeded(repo, starts, r.value, commits, trees, blobs)
  {
    hide CommitsVisited, TreesVisited, BlobsVisited, AllGood, ExactlyNeeded, Lists;
    var found: seq<Commit> := [];
    var w := Walk([], [], {}, {});
    var visited: set<string> := {};
    var queue := starts;
    commits, trees, blobs := [], [], [];
    WalkStart(repo, kind, starts, w);
    while queue != []
      invariant CommitsVisited(repo, kind, starts, visited, queue, w)
      invariant TreesVisited(repo, kind, starts, w, trees) && BlobsVisited(repo, kind, starts, w, blobs)
      invariant CommitsListed(repo, found, commits, visited)
      decreases repo.commits.Keys - visited, |queue|
    {
      var c := queue[0];
      assert queue == [c] + queue[1..];
      QueuedIsReachable(repo, kind, starts, visited, queue, w);
      queue := queue[1..];
      if c in visited {
        SkipVisited(repo, kind, starts, visited, c, queue, w);
        continue;
      }
      var step;
      step, trees, blobs := VisitCommit(repo, kind, c, visited, queue, w, starts, trees, blobs);
      if step.Err? { return Err(step.error), commits, trees, blobs; }
      CommitListed(repo, found, commits, visited, c);
      visited, queue, w := visited + {c}, step.value.1, step.value.2;
      found, commits := found + [step.value.0], commits + [c];
    }
    ListedCommits(repo, found, commits, visited);
    WalkComplete(repo, kind, starts, visited, w, commits, trees, blobs);
    r := Ok(Collected(found, w.trees, w.blobs));
  }

  ghost predicate CommitsListed(repo: Repo, found: seq<Commit>, commits: seq<string>, visited: set<string>) {
    Lists(commits, visited) && visited <= repo.commits.Keys && found == CommitsAt(repo, commits)
  }

  lemma CommitListed(repo: Repo, found: seq<Commit>, commits: seq<string>, visited: set<string>, c: string)
    requires CommitsListed(repo, found, commits, visited) && c !in visited && c in repo.commits
    ensures CommitsListed(repo, found + [repo.commits[c]], commits + [c], visited + {c})
  {
    ListsJoin(commits, visited, [c], {c});
    assert CommitsAt(repo, commits) + [repo.commits[c]] == CommitsAt(repo, commits + [c]);
  }

  lemma ListedCommits(repo: Repo, found: seq<Commit>, commits: seq<string>, visited: set<string>)
    requires CommitsListed(repo, found, commits, visited)
    ensures Lists(commits, visited) && visited <= repo.commits.Keys
    ensures (forall c :: c in commits ==> c in repo.commits) && found == CommitsAt(repo, commits)
  {
  }

  lemma WalkStart(repo: Repo, kind: HashKind, starts: seq<string>, w: Walk)
    requires w == Walk([], [], {}, {})
    ensures CommitsVisited(repo, kind, starts, {}, starts, w)
    ensures TreesVisited(repo, kind, starts, w, []) && BlobsVisited(repo, kind, starts, w, [])
    ensures CommitsListed(repo, [], [], {})
  {
    forall c | c in starts ensures CommitReach(repo, starts, c) { CommitReachStart(repo, starts, c); }
  }

  lemma QueuedIsReachable(repo: Repo, kind: HashKind, starts: seq<string>, visited: set<string>, queue: seq<string>, w: Walk)
    requires CommitsVisited(repo, kind, starts, visited, queue, w) && queue != []
    ensures CommitReach(repo, starts, queue[0])
  {
  }

  lemma SkipVisited(repo: Repo, kind: HashKind, starts: seq<string>, visited: set<string>, c: string, queue: seq<string>, w: Walk)
    requires CommitsVisited(repo, kind, starts, visited, [c] + queue, w) && c in visited
    ensures CommitsVisited(repo, kind, starts, visited, queue, w)
  {
    hide CommitGood, CommitReach, ParentsOf;
    assert forall q :: q in [c] + queue <==> q == c || q in queue;
  }

  // ---------------------------------------------------------------- incremental packs

  /** The repository answers every request with the object that has that ID. */
  ghost predicate WellNamed(repo: Repo) {
    && (forall c :: c in repo.commits ==> repo.commits[c].id.hex == c)
    && (forall t :: t in repo.trees ==> repo.trees[t].id.hex == t)
    && (forall b :: b in repo.blobs ==> repo.blobs[b].id.hex == b)
  }

  function WithoutCommits(objects: seq<Commit>, have: set<string>): seq<Commit> {
    if objects == [] then []
    else (if objects[0].id.hex in have then [] else [objects[0]]) + WithoutCommits(objects[1..], have)
  }

  function WithoutTrees(objects: seq<Tree>, have: set<string>): seq<Tree> {
    if objects == [] then []
    else (if objects[0].id.hex in have then [] else [objects[0]]) + WithoutTrees(objects[1..], have)
  }

  function WithoutBlobs(objects: seq<Blob>, have: set<string>): seq<Blob> {
    if objects == [] then []
    else (if objects[0].id.hex in have then [] else [objects[0]]) + WithoutBlobs(objects[1..], have)
  }

  function FilterObjects(wanted: Collected, have: Collected): Collected {
    Collected(WithoutCommits(wanted.commits, set i | 0 <= i < |have.commits| :: have.commits[i].id.hex),
              WithoutTrees(wanted.trees, set i | 0 <= i < |have.trees| :: have.trees[i].id.hex),
              WithoutBlobs(wanted.blobs, set i | 0 <= i < |have.blobs| :: have.blobs[i].id.hex))
  }

  /** The members of `order` that are not in `have`, in the same order. */
  ghost function Without(order: seq<string>, have: set<string>): (rest: seq<string>)
    ensures forall x :: x in rest <==> x in order && x !in have
    ensures Distinct(order) ==> Distinct(rest)
  {
    if order == [] then []
    else
      var tail := Without(order[1..], have);
      assert forall x :: x in order <==> x == order[0] || x in order[1..];
      assert Distinct(order) ==> order[0] !in order[1..];
      if order[0] in have then tail else [order[0]] + tail
  }

  lemma {:induction false} WithoutCommitsIsWithout(repo: Repo, order: seq<string>, have: set<string>)
    requires WellNamed(repo) && forall c :: c in order ==> c in repo.commits
    ensures WithoutCommits(CommitsAt(repo, order), have) == CommitsAt(repo, Without(order, have))
  {
    if order != [] {
      WithoutCommitsIsWithout(repo, order[1..], have);
      var rest := Without(order[1..], have);
      assert CommitsAt(repo, order)[1..] == CommitsAt(repo, order[1..]);
      assert CommitsAt(repo, order)[0] == repo.commits[order[0]] && repo.commits[order[0]].id.hex == order[0];
      assert order[0] !in have ==> CommitsAt(repo, [order[0]] + rest) == [repo.commits[order[0]]] + CommitsAt(repo, rest);
    }
  }

  lemma {:induction false} WithoutTreesIsWithout(repo: Repo, order: seq<string>, have: set<string>)
    requires WellNamed(repo) && forall t :: t in order ==> t in repo.trees
    ensures WithoutTrees(TreesAt(repo, order), have) == TreesAt(repo, Without(order, have))
  {
    if order != [] {
      WithoutTreesIsWithout(repo, order[1..], have);
      var rest := Without(order[1..], have);
      assert TreesAt(repo, order)[1..] == TreesAt(repo, order[1..]);
      assert TreesAt(repo, order)[0] == repo.trees[order[0]] && repo.trees[order[0]].id.hex == order[0];
      assert order[0] !in have ==> TreesAt(repo, [order[0]] + rest) == [repo.trees[order[0]]] + TreesAt(repo, rest);
    }
  }

  lemma {:induction false} WithoutBlobsIsWithout(repo: Repo, order: seq<string>, have: set<string>)
    requires WellNamed(repo) && forall b :: b in order ==> b in repo.blobs
    ensures WithoutBlobs(BlobsAt(repo, order), have) == BlobsAt(repo, Without(order, have))
  {
    if order != [] {
      WithoutBlobsIsWithout(repo, order[1..], have);
      var rest := Without(order[1..], have);
      assert BlobsAt(repo, order)[1..] == BlobsAt(repo, order[1..]);
      assert BlobsAt(repo, order)[0] == repo.blobs[order[0]] && repo.blobs[order[0]].id.hex == order[0];
      assert order[0] !in have ==> BlobsAt(repo, [order[0]] + rest) == [repo.blobs[order[0]]] + BlobsAt(repo, rest);
    }
  }

  /** Exactly what is needed from `want` and not from `have`, each once. */
  ghost predicate ExactlyMissing(repo: Repo, want: seq<string>, have: seq<string>, r: Collected,
                                 commits: seq<string>, trees: seq<string>, blobs: seq<string>) {
    && Distinct(commits) && Distinct(trees) && Distinct(blobs)
    && (forall c :: c in commits <==> CommitReach(repo, want, c) && !CommitReach(repo, have, c))
    && (forall t :: t in trees <==> TreeNeeded(repo, want, t) && !TreeNeeded(repo, have, t))
    && (forall b :: b in blobs <==> BlobNeeded(repo, want, b) && !BlobNeeded(repo, have, b))
    && (forall c :: c in commits ==> c in repo.commits) && r.commits == CommitsAt(repo, commits)
    && (forall t :: t in trees ==> t in repo.trees) && r.trees == TreesAt(repo, trees)
    && (forall b :: b in blobs ==> b in repo.blobs) && r.blobs == BlobsAt(repo, blobs)
  }

  lemma NamesOfHave(repo: Repo, have: seq<string>, h: Collected, hc: seq<string>, ht: seq<string>, hb: seq<string>)
    requires WellNamed(repo) && ExactlyNeeded(repo, have, h, hc, ht, hb)
    ensures (set i | 0 <= i < |h.commits| :: h.commits[i].id.hex) == (set c | c in hc)
    ensures (set i | 0 <= i < |h.trees| :: h.trees[i].id.hex) == (set t | t in ht)
    ensures (set i | 0 <= i < |h.blobs| :: h.blobs[i].id.hex) == (set b | b in hb)
  {
    hide CommitReach, TreeNeeded, BlobNeeded, Distinct;
    assert forall i :: 0 <= i < |hc| ==> h.commits[i].id.hex == hc[i];
    assert forall i :: 0 <= i < |ht| ==> h.trees[i].id.hex == ht[i];
    assert forall i :: 0 <= i < |hb| ==> h.blobs[i].id.hex == hb[i];
    forall c | c in hc ensures exists i :: 0 <= i < |h.commits| && h.commits[i].id.hex == c {
      var i :| 0 <= i < |hc| && hc[i] == c;
      assert h.commits[i].id.hex == c;
    }
    forall t | t in ht ensures exists i :: 0 <= i < |h.trees| && h.trees[i].id.hex == t {
      var i :| 0 <= i < |ht| && ht[i] == t;
      assert h.trees[i].id.hex == t;
    }
    forall b | b in hb ensures exists i :: 0 <= i < |h.blobs| && h.blobs[i].id.hex == b {
      var i :| 0 <= i < |hb| && hb[i] == b;
      assert h.blobs[i].id.hex == b;
    }
  }

  lemma FilteredIsMissing(repo: Repo, want: seq<string>, have: seq<string>, w: Collected, h: Collected,
                          wc: seq<string>, wt: seq<string>, wb: seq<string>, hc: seq<string>, ht: seq<string>, hb: seq<string>)
    requires WellNamed(repo)
    requires ExactlyNeeded(repo, want, w, wc, wt, wb) && ExactlyNeeded(repo, have, h, hc, ht, hb)
    ensures ExactlyMissing(repo, want, have, FilterObjects(w, h),
                           Without(wc, set c | c in hc), Without(wt, set t | t in ht), Without(wb, set b | b in hb))
  {
    hide CommitReach, TreeNeeded, BlobNeeded, Distinct, WithoutCommits, WithoutTrees, WithoutBlobs, Without,
         CommitsAt, TreesAt, BlobsAt, WellNamed;
    NamesOfHave(repo, have, h, hc, ht, hb);
    WithoutCommitsIsWithout(repo, wc, set c | c in hc);
    WithoutTreesIsWithout(repo, wt, set t | t in ht);
    WithoutBlobsIsWithout(repo, wb, set b | b in hb);
  }

  /**
   The objects of an incremental pack. A `have` that is not fully there makes it fail; otherwise
   the pack holds exactly the needed objects the other side does not have.
   */
  method IncrementalObjects(repo: Repo, kind: HashKind, want: seq<string>, have: seq<string>)
      returns (r: Result<Collected>, ghost commits: seq<string>, ghost trees: seq<string>, ghost blobs: seq<string>)
    requires WellNamed(repo)
    ensures r.Ok? <==> AllGood(repo, kind, want) && AllGood(repo, kind, have)
    ensures r.Ok? ==> ExactlyMissing(repo, want, have, r.value, commits, trees, blobs)
  {
    hide AllGood, ExactlyMissing, ExactlyNeeded, WellNamed;
    var wanted, there;
    ghost var wc, wt, wb, hc, ht, hb;
    commits, trees, blobs := [], [], [];
    wanted, wc, wt, wb := CollectAll(repo, kind, want);
    if wanted.Err? { return wanted, commits, trees, blobs; }
    there, hc, ht, hb := CollectAll(repo, kind, have);
    if there.Err? { return there, commits, trees, blobs; }
    FilteredIsMissing(repo, want, have, wanted.value, there.value, wc, wt, wb, hc, ht, hb);
    commits, trees, blobs := Without(wc, set c | c in hc), Without(wt, set t | t in ht), Without(wb, set b | b in hb);
    r := Ok(FilterObjects(wanted.value, there.value));
  }

  // ---------------------------------------------------------------- the pack stream

  /** IDs of the entries of a pack: commits, then trees, then blobs. */
  function EntryIds(r: Collected): (ids: seq<ObjectHash>)
    ensures ids == [] <==> r == Collected([], [], [])
  {
    seq(|r.commits|, i requires 0 <= i < |r.commits| => r.commits[i].id)
    + seq(|r.trees|, i requires 0 <= i < |r.trees| => r.trees[i].id)
    + seq(|r.blobs|, i requires 0 <= i < |r.blobs| => r.blobs[i].id)
  }

  /** `PACK`, version 2, no objects. */
  const EMPTY_HEADER: bytes := [80, 65, 67, 75, 0, 0, 0, 2, 0, 0, 0, 0]

  /** The encoder gets at least one entry; without any the pack is written here. */
  datatype PackStream = Foreign(id: ObjectHash) | Whole(data: bytes) | Encoded(ids: seq<ObjectHash>)

  /** Refuses a foreign entry before the first byte, and sends an empty pack when there is nothing to send. */
  method GeneratePackStream(kind: HashKind, digest: bytes -> bytes, r: Collected) returns (out: PackStream)
    ensures out.Foreign? <==> exists i :: 0 <= i < |EntryIds(r)| && EntryIds(r)[i].kind != kind
    ensures out.Whole? <==> r == Collected([], [], [])
    ensures out.Whole? ==>
      var header := [80, 65, 67, 75, 0, 0, 0, 2, 0, 0, 0, 0]; out.data == header + digest(header)
    ensures out.Encoded? ==> out.ids == EntryIds(r) && out.ids != []
  {
    var ids := EntryIds(r);
    for i := 0 to |ids|
      invariant forall j :: 0 <= j < i ==> ids[j].kind == kind
    {
      if ids[i].kind != kind { return Foreign(ids[i]); }
    }
    if ids == [] { return Whole(EMPTY_HEADER + digest(EMPTY_HEADER)); }
    return Encoded(ids);
  }

  /** Needed from `want` but not from `have`, as a commit, a tree or a blob. */
  ghost predicate Missing(repo: Repo, want: seq<string>, have: seq<string>, hex: string) {
    || (CommitReach(repo, want, hex) && !CommitReach(repo, have, hex))
    || (TreeNeeded(repo, want, hex) && !TreeNeeded(repo, have, hex))
    || (BlobNeeded(repo, want, hex) && !BlobNeeded(repo, have, hex))
  }

  /** Everything needed from `want` is needed from `have` already. */
  ghost predicate NothingMissing(repo: Repo, want: seq<string>, have: seq<string>) {
    && (forall c :: CommitReach(repo, want, c) ==> CommitReach(repo, have, c))
    && (forall t :: TreeNeeded(repo, want, t) ==> TreeNeeded(repo, have, t))
    && (forall b :: BlobNeeded(repo, want, b) ==> BlobNeeded(repo, have, b))
  }

  function IdsOf(kind: HashKind, names: seq<string>): (ids: seq<ObjectHash>)
    ensures |ids| == |names| && forall i :: 0 <= i < |ids| ==> ids[i] == ObjectHash(kind, names[i])
  {
    seq(|names|, i requires 0 <= i < |names| => ObjectHash(kind, names[i]))
  }

  /** Objects that are good and well named have the IDs their names and the kind make. */
  lemma CommitIds(repo: Repo, kind: HashKind, names: seq<string>)
    requires WellNamed(repo) && forall c :: c in names ==> c in repo.commits && CommitGood(repo, kind, c)
    ensures forall i :: 0 <= i < |names| ==> CommitsAt(repo, names)[i].id == ObjectHash(kind, names[i])
  {
    forall i | 0 <= i < |names| ensures CommitsAt(repo, names)[i].id == ObjectHash(kind, names[i]) {
      assert names[i] in names;
    }
  }

  lemma TreeIds(repo: Repo, kind: HashKind, names: seq<string>)
    requires WellNamed(repo) && forall t :: t in names ==> t in repo.trees && TreeGood(repo, kind, t)
    ensures forall i :: 0 <= i < |names| ==> TreesAt(repo, names)[i].id == ObjectHash(kind, names[i])
  {
    forall i | 0 <= i < |names| ensures TreesAt(repo, names)[i].id == ObjectHash(kind, names[i]) {
      assert names[i] in names;
    }
  }

  lemma BlobIds(repo: Repo, kind: HashKind, names: seq<string>)
    requires WellNamed(repo) && forall b :: b in names ==> b in repo.blobs && BlobGood(repo, kind, b)
    ensures forall i :: 0 <= i < |names| ==> BlobsAt(repo, names)[i].id == ObjectHash(kind, names[i])
  {
    forall i | 0 <= i < |names| ensures BlobsAt(repo, names)[i].id == ObjectHash(kind, names[i]) {
      assert names[i] in names;
    }
  }

  lemma CollectedIds(repo: Repo, kind: HashKind, want: seq<string>, have: seq<string>, r: Collected,
                     commits: seq<string>, trees: seq<string>, blobs: seq<string>)
    requires WellNamed(repo) && AllGood(repo, kind, want) && ExactlyMissing(repo, want, have, r, commits, trees, blobs)
    ensures EntryIds(r) == IdsOf(kind, commits) + IdsOf(kind, trees) + IdsOf(kind, blobs)
  {
    hide CommitReach, TreeNeeded, BlobNeeded, WellNamed, CommitGood, TreeGood, BlobGood, Distinct;
    forall b | b in blobs ensures BlobGood(repo, kind, b) { NeededBlobGood(repo, kind, want, b); }
    CommitIds(repo, kind, commits);
    TreeIds(repo, kind, trees);
    BlobIds(repo, kind, blobs);
    IdsJoin(kind, r, commits, trees, blobs);
  }

  lemma IdsJoin(kind: HashKind, r: Collected, commits: seq<string>, trees: seq<string>, blobs: seq<string>)
    requires |r.commits| == |commits| && forall i :: 0 <= i < |commits| ==> r.commits[i].id == ObjectHash(kind, commits[i])
    requires |r.trees| == |trees| && forall i :: 0 <= i < |trees| ==> r.trees[i].id == ObjectHash(kind, trees[i])
    requires |r.blobs| == |blobs| && forall i :: 0 <= i < |blobs| ==> r.blobs[i].id == ObjectHash(kind, blobs[i])
    ensures EntryIds(r) == IdsOf(kind, commits) + IdsOf(kind, trees) + IdsOf(kind, blobs)
  {
  }

  lemma NeededBlobGood(repo: Repo, kind: HashKind, starts: seq<string>, b: string)
    requires AllGood(repo, kind, starts) && BlobNeeded(repo, starts, b)
    ensures BlobGood(repo, kind, b)
  {
    hide CommitReach, TreeNeeded;
    var t :| TreeNeeded(repo, starts, t) && t in repo.trees && b in BlobsIn(repo.trees[t]);
    assert TreeGood(repo, kind, t);
  }

  /** Membership in the three lists together. */
  lemma MissingIds(repo: Repo, kind: HashKind, want: seq<string>, have: seq<string>, r: Collected,
                   commits: seq<string>, trees: seq<string>, blobs: seq<string>)
    requires ExactlyMissing(repo, want, have, r, commits, trees, blobs)
    ensures var ids := IdsOf(kind, commits) + IdsOf(kind, trees) + IdsOf(kind, blobs);
      && (forall id :: id in ids <==> id.kind == kind && Missing(repo, want, have, id.hex))
      && (ids == [] <==> NothingMissing(repo, want, have))
  {
    hide CommitReach, TreeNeeded, BlobNeeded, Distinct;
    IdsHave(kind, commits); IdsHave(kind, trees); IdsHave(kind, blobs);
    if commits != [] { assert commits[0] in commits; }
    if trees != [] { assert trees[0] in trees; }
    if blobs != [] { assert blobs[0] in blobs; }
    hide IdsOf;
  }

  lemma IdsHave(kind: HashKind, names: seq<string>)
    ensures forall id :: id in IdsOf(kind, names) <==> id.kind == kind && id.hex in names
    ensures IdsOf(kind, names) == [] <==> names == []
  {
    forall id: ObjectHash | id.kind == kind && id.hex in names ensures id in IdsOf(kind, names) {
      var i :| 0 <= i < |names| && names[i] == id.hex;
      assert IdsOf(kind, names)[i] == id;
    }
  }

  /**
   An incremental pack, from the two walks to the stream. It fails exactly when one of the closures
   is not all there or not of one kind; otherwise nothing is refused, the stream is a zero-object
   pack exactly when nothing is missing, and the encoder gets exactly the missing objects.
   */
  method GenerateIncrementalPack(repo: Repo, kind: HashKind, digest: bytes -> bytes, want: seq<string>, have: seq<string>)
      returns (r: Result<PackStream>, ghost commits: seq<string>, ghost trees: seq<string>, ghost blobs: seq<string>)
    requires WellNamed(repo)
    ensures r.Ok? <==> AllGood(repo, kind, want) && AllGood(repo, kind, have)
    ensures r.Ok? ==> !r.value.Foreign? && (r.value.Whole? <==> NothingMissing(repo, want, have))
    ensures r.Ok? && r.value.Whole? ==>
      var header := [80, 65, 67, 75, 0, 0, 0, 2, 0, 0, 0, 0]; r.value.data == header + digest(header)
    ensures r.Ok? && r.value.Encoded? ==>
      forall id :: id in r.value.ids <==> id.kind == kind && Missing(repo, want, have, id.hex)
    ensures r.Ok? && r.value.Encoded? ==>
      && r.value.ids == IdsOf(kind, commits) + IdsOf(kind, trees) + IdsOf(kind, blobs)
      && Distinct(commits) && Distinct(trees) && Distinct(blobs)
  {
    hide AllGood, WellNamed, EntryIds, NothingMissing, Missing, IdsOf, Distinct;
    var objects;
    objects, commits, trees, blobs := IncrementalObjects(repo, kind, want, have);
    if objects.Err? { return Err(objects.error), commits, trees, blobs; }
    OnceEach(repo, want, have, objects.value, commits, trees, blobs);
    CollectedIds(repo, kind, want, have, objects.value, commits, trees, blobs);
    MissingIds(repo, kind, want, have, objects.value, commits, trees, blobs);
    NoForeign(kind, commits, trees, blobs);
    hide ExactlyMissing;
    var out := GeneratePackStream(kind, digest, objects.value);
    NoEntries(objects.value);
    r := Ok(out);
  }

  lemma OnceEach(repo: Repo, want: seq<string>, have: seq<string>, r: Collected,
                 commits: seq<string>, trees: seq<string>, blobs: seq<string>)
    requires ExactlyMissing(repo, want, have, r, commits, trees, blobs)
    ensures Distinct(commits) && Distinct(trees) && Distinct(blobs)
  {
  }

  lemma NoForeign(kind: HashKind, commits: seq<string>, trees: seq<string>, blobs: seq<string>)
    ensures var ids := IdsOf(kind, commits) + IdsOf(kind, trees) + IdsOf(kind, blobs);
      forall i :: 0 <= i < |ids| ==> ids[i].kind == kind
  {
  }

  lemma NoEntries(r: Collected)
    ensures EntryIds(r) == [] <==> r == Collected([], [], [])
  {
  }
}
