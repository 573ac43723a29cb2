/**
 The objects of a repository as the pack generator sees them, and what is reachable: commits
 through their parents, trees through their tree entries, blobs through their blob entries.
 Entries of any other mode lead nowhere (src/protocol/pack.rs:310).
 */
module ObjectGraph {
  import opened Basics
  import opened HashKinds

  /** An object ID: the hex digits do not tell the kind. */
  datatype ObjectHash = ObjectHash(kind: HashKind, hex: string)

  datatype Mode = TreeMode | BlobMode | BlobExecutableMode | OtherMode

  datatype TreeItem = TreeItem(mode: Mode, id: ObjectHash)

  datatype Commit = Commit(id: ObjectHash, treeId: ObjectHash, parents: seq<ObjectHash>)
  datatype Tree = Tree(id: ObjectHash, items: seq<TreeItem>)
  datatype Blob = Blob(id: ObjectHash)

  /** What `get_commit`, `get_tree` and `get_blob` answer; they fail for everything else. */
  datatype Repo = Repo(commits: map<string, Commit>, trees: map<string, Tree>, blobs: map<string, Blob>)

  predicate IsBlobMode(mode: Mode) {
    mode.BlobMode? || mode.BlobExecutableMode?
  }

  function Subtrees(tree: Tree): set<string> {
    set i | 0 <= i < |tree.items| && tree.items[i].mode.TreeMode? :: tree.items[i].id.hex
  }

  function BlobsIn(tree: Tree): set<string> {
    set i | 0 <= i < |tree.items| && IsBlobMode(tree.items[i].mode) :: tree.items[i].id.hex
  }

  function ParentsOf(commit: Commit): set<string> {
    set i | 0 <= i < |commit.parents| :: commit.parents[i].hex
  }

  // ---------------------------------------------------------------- trees

  /** Each step of the path goes from a tree to one of its subtrees. */
  ghost predicate TreePath(repo: Repo, p: seq<string>) {
    |p| > 0 && forall i :: 0 <= i < |p| - 1 ==> p[i] in repo.trees && p[i + 1] in Subtrees(repo.trees[p[i]])
  }

  ghost predicate TreeReach(repo: Repo, from: string, to: string) {
    exists p :: TreePath(repo, p) && p[0] == from && p[|p| - 1] == to
  }

  lemma TreeReachSelf(repo: Repo, t: string)
    ensures TreeReach(repo, t, t)
  {
    assert TreePath(repo, [t]);
  }

  lemma TreeReachStep(repo: Repo, from: string, child: string, to: string)
    requires from in repo.trees && child in Subtrees(repo.trees[from]) && TreeReach(repo, child, to)
    ensures TreeReach(repo, from, to)
  {
    var p :| TreePath(repo, p) && p[0] == child && p[|p| - 1] == to;
    assert TreePath(repo, [from] + p);
  }

  /** A set of trees that has all their subtrees has everything reachable from its members. */
  ghost predicate TreesClosed(repo: Repo, s: set<string>) {
    forall t :: t in s ==> t in repo.trees && Subtrees(repo.trees[t]) <= s
  }

  lemma ClosedHasReachable(repo: Repo, s: set<string>, from: string, to: string)
    requires TreesClosed(repo, s) && from in s && TreeReach(repo, from, to)
    ensures to in s
  {
    var p :| TreePath(repo, p) && p[0] == from && p[|p| - 1] == to;
    PathStays(repo, s, p, |p| - 1);
  }

  lemma {:induction false} PathStays(repo: Repo, s: set<string>, p: seq<string>, i: nat)
    requires TreesClosed(repo, s) && TreePath(repo, p) && p[0] in s && i < |p|
    ensures p[i] in s
  {
    if i > 0 {
      PathStays(repo, s, p, i - 1);
      assert p[i - 1 + 1] in Subtrees(repo.trees[p[i - 1]]);
    }
  }

  // ---------------------------------------------------------------- commits

  ghost predicate CommitPath(repo: Repo, p: seq<string>) {
    |p| > 0 && forall i :: 0 <= i < |p| - 1 ==> p[i] in repo.commits && p[i + 1] in ParentsOf(repo.commits[p[i]])
  }

  /** Reachable from one of the starting commits. */
  ghost predicate CommitReach(repo: Repo, starts: seq<string>, to: string) {
    exists p :: CommitPath(repo, p) && p[0] in starts && p[|p| - 1] == to
  }

  lemma CommitReachStart(repo: Repo, starts: seq<string>, c: string)
    requires c in starts
    ensures CommitReach(repo, starts, c)
  {
    assert CommitPath(repo, [c]);
  }

  lemma CommitReachParent(repo: Repo, starts: seq<string>, c: string, parent: string)
    requires CommitReach(repo, starts, c) && c in repo.commits && parent in ParentsOf(repo.commits[c])
    ensures CommitReach(repo, starts, parent)
  {
    var p :| CommitPath(repo, p) && p[0] in starts && p[|p| - 1] == c;
    var q := p + [parent];
    assert CommitPath(repo, q) && q[0] == p[0];
  }

  ghost predicate CommitsClosed(repo: Repo, s: set<string>) {
    forall c :: c in s ==> c in repo.commits && ParentsOf(repo.commits[c]) <= s
  }

  lemma ClosedHasReachableCommits(repo: Repo, s: set<string>, starts: seq<string>, to: string)
    requires CommitsClosed(repo, s) && (forall c :: c in starts ==> c in s) && CommitReach(repo, starts, to)
    ensures to in s
  {
    var p :| CommitPath(repo, p) && p[0] in starts && p[|p| - 1] == to;
    CommitPathStays(repo, s, p, |p| - 1);
  }

  lemma {:induction false} CommitPathStays(repo: Repo, s: set<string>, p: seq<string>, i: nat)
    requires CommitsClosed(repo, s) && CommitPath(repo, p) && p[0] in s && i < |p|
    ensures p[i] in s
  {
    if i > 0 {
      CommitPathStays(repo, s, p, i - 1);
      assert p[i - 1 + 1] in ParentsOf(repo.commits[p[i - 1]]);
    }
  }

  // ---------------------------------------------------------------- the whole closure

  /** A tree reachable from the tree of a reachable commit. */
  ghost predicate TreeNeeded(repo: Repo, starts: seq<string>, t: string) {
    exists c :: CommitReach(repo, starts, c) && c in repo.commits && TreeReach(repo, repo.commits[c].treeId.hex, t)
  }

  ghost predicate BlobNeeded(repo: Repo, starts: seq<string>, b: string) {
    exists t :: TreeNeeded(repo, starts, t) && t in repo.trees && b in BlobsIn(repo.trees[t])
  }

  /** The commit is there and everything it names is of the repository's kind. */
  ghost predicate CommitGood(repo: Repo, kind: HashKind, c: string) {
    && c in repo.commits
    && repo.commits[c].id.kind == kind && repo.commits[c].treeId.kind == kind
    && forall i :: 0 <= i < |repo.commits[c].parents| ==> repo.commits[c].parents[i].kind == kind
  }

  ghost predicate BlobGood(repo: Repo, kind: HashKind, b: string) {
    b in repo.blobs && repo.blobs[b].id.kind == kind
  }

  /** The tree is there, all its entries are of the kind, and so are its blobs. */
  ghost predicate TreeGood(repo: Repo, kind: HashKind, t: string) {
    && t in repo.trees && repo.trees[t].id.kind == kind
    && (forall i :: 0 <= i < |repo.trees[t].items| ==> repo.trees[t].items[i].id.kind == kind)
    && forall b :: b in BlobsIn(repo.trees[t]) ==> BlobGood(repo, kind, b)
  }

  /** Nothing needed is missing or of another kind. */
  ghost predicate AllGood(repo: Repo, kind: HashKind, starts: seq<string>) {
    && (forall c :: CommitReach(repo, starts, c) ==> CommitGood(repo, kind, c))
    && (forall t :: TreeNeeded(repo, starts, t) ==> TreeGood(repo, kind, t))
  }

  /** It is good exactly when all that is needed is there and every ID in it is of one kind. */
  lemma GoodIff(repo: Repo, kind: HashKind, starts: seq<string>)
    ensures AllGood(repo, kind, starts) <==>
      && (forall c :: CommitReach(repo, starts, c) ==>
            && c in repo.commits && repo.commits[c].id.kind == kind && repo.commits[c].treeId.kind == kind
            && forall i :: 0 <= i < |repo.commits[c].parents| ==> repo.commits[c].parents[i].kind == kind)
      && (forall t :: TreeNeeded(repo, starts, t) ==>
            && t in repo.trees && repo.trees[t].id.kind == kind
            && forall i :: 0 <= i < |repo.trees[t].items| ==> repo.trees[t].items[i].id.kind == kind)
      && (forall b :: BlobNeeded(repo, starts, b) ==> b in repo.blobs && repo.blobs[b].id.kind == kind)
  {
    hide CommitReach, TreeNeeded, BlobsIn;
    if AllGood(repo, kind, starts) {
      forall b | BlobNeeded(repo, starts, b) ensures b in repo.blobs && repo.blobs[b].id.kind == kind {
        var t :| TreeNeeded(repo, starts, t) && t in repo.trees && b in BlobsIn(repo.trees[t]);
        assert TreeGood(repo, kind, t);
      }
    }
  }

  // ---------------------------------------------------------------- the closure by its entries

  /** What an entry asks for: files and executables are blobs, directories are trees, all else is skipped. */
  ghost predicate HasEntry(item: TreeItem, trees: iset<string>, blobs: iset<string>) {
    match item.mode
    case TreeMode => item.id.hex in trees
    case BlobMode => item.id.hex in blobs
    case BlobExecutableMode => item.id.hex in blobs
    case OtherMode => true
  }

  ghost predicate HasEntries(tree: Tree, trees: iset<string>, blobs: iset<string>) {
    forall i :: 0 <= i < |tree.items| ==> HasEntry(tree.items[i], trees, blobs)
  }

  ghost predicate HasCommit(commit: Commit, commits: iset<string>, trees: iset<string>) {
    commit.treeId.hex in trees && forall i :: 0 <= i < |commit.parents| ==> commit.parents[i].hex in commits
  }

  /** The starts are there, and with every object all that its entries name. */
  ghost predicate EntryClosed(repo: Repo, starts: seq<string>, commits: iset<string>, trees: iset<string>, blobs: iset<string>) {
    && (forall c :: c in starts ==> c in commits)
    && (forall c :: c in commits && c in repo.commits ==> HasCommit(repo.commits[c], commits, trees))
    && (forall t :: t in trees && t in repo.trees ==> HasEntries(repo.trees[t], trees, blobs))
  }

  ghost function ReachedCommits(repo: Repo, starts: seq<string>): iset<string> {
    iset c | CommitReach(repo, starts, c)
  }

  ghost function NeededTrees(repo: Repo, starts: seq<string>): iset<string> {
    iset t | TreeNeeded(repo, starts, t)
  }

  ghost function NeededBlobs(repo: Repo, starts: seq<string>): iset<string> {
    iset b | BlobNeeded(repo, starts, b)
  }

  /** What is needed is closed under the entries of its objects, executables included. */
  lemma NeededIsClosed(repo: Repo, starts: seq<string>)
    ensures EntryClosed(repo, starts, ReachedCommits(repo, starts), NeededTrees(repo, starts), NeededBlobs(repo, starts))
  {
    var commits, trees, blobs := ReachedCommits(repo, starts), NeededTrees(repo, starts), NeededBlobs(repo, starts);
    forall c | c in starts ensures c in commits { CommitReachStart(repo, starts, c); }
    forall c | c in commits && c in repo.commits ensures HasCommit(repo.commits[c], commits, trees) {
      TreeReachSelf(repo, repo.commits[c].treeId.hex);
      hide CommitReach, TreeReach;
      forall i | 0 <= i < |repo.commits[c].parents| ensures repo.commits[c].parents[i].hex in commits {
        CommitReachParent(repo, starts, c, repo.commits[c].parents[i].hex);
      }
    }
    forall t | t in trees && t in repo.trees ensures HasEntries(repo.trees[t], trees, blobs) {
      TreeEntries(repo, starts, t);
    }
  }

  lemma TreeEntries(repo: Repo, starts: seq<string>, t: string)
    requires TreeNeeded(repo, starts, t) && t in repo.trees
    ensures HasEntries(repo.trees[t], NeededTrees(repo, starts), NeededBlobs(repo, starts))
  {
    hide CommitReach, TreeReach;
    var c :| CommitReach(repo, starts, c) && c in repo.commits && TreeReach(repo, repo.commits[c].treeId.hex, t);
    forall u | u in Subtrees(repo.trees[t]) ensures TreeNeeded(repo, starts, u) {
      TreeReachLast(repo, repo.commits[c].treeId.hex, t, u);
    }
    forall b | b in BlobsIn(repo.trees[t]) ensures BlobNeeded(repo, starts, b) {
    }
  }

  lemma TreeReachLast(repo: Repo, from: string, t: string, child: string)
    requires TreeReach(repo, from, t) && t in repo.trees && child in Subtrees(repo.trees[t])
    ensures TreeReach(repo, from, child)
  {
    var p :| TreePath(repo, p) && p[0] == from && p[|p| - 1] == t;
    var q := p + [child];
    assert TreePath(repo, q) && q[0] == from && q[|q| - 1] == child;
  }

  /** Everything closed under entries has it all, so it is the least such closure. */
  lemma NeededIsLeast(repo: Repo, starts: seq<string>, commits: iset<string>, trees: iset<string>, blobs: iset<string>)
    requires EntryClosed(repo, starts, commits, trees, blobs)
    ensures ReachedCommits(repo, starts) <= commits && NeededTrees(repo, starts) <= trees && NeededBlobs(repo, starts) <= blobs
  {
    forall c | CommitReach(repo, starts, c) ensures c in commits {
      var p :| CommitPath(repo, p) && p[0] in starts && p[|p| - 1] == c;
      CommitPathWithin(repo, starts, commits, trees, blobs, p, |p| - 1);
    }
    forall t | TreeNeeded(repo, starts, t) ensures t in trees {
      var c :| CommitReach(repo, starts, c) && c in repo.commits && TreeReach(repo, repo.commits[c].treeId.hex, t);
      var p :| TreePath(repo, p) && p[0] == repo.commits[c].treeId.hex && p[|p| - 1] == t;
      assert HasCommit(repo.commits[c], commits, trees);
      TreePathWithin(repo, starts, commits, trees, blobs, p, |p| - 1);
    }
    hide CommitReach, TreeNeeded;
    forall b | BlobNeeded(repo, starts, b) ensures b in blobs {
      var t :| TreeNeeded(repo, starts, t) && t in repo.trees && b in BlobsIn(repo.trees[t]);
      assert HasEntries(repo.trees[t], trees, blobs);
    }
  }

  lemma {:induction false} CommitPathWithin(repo: Repo, starts: seq<string>, commits: iset<string>, trees: iset<string>, blobs: iset<string>, p: seq<string>, i: nat)
    requires EntryClosed(repo, starts, commits, trees, blobs) && CommitPath(repo, p) && p[0] in starts && i < |p|
    ensures p[i] in commits
  {
    if i > 0 {
      CommitPathWithin(repo, starts, commits, trees, blobs, p, i - 1);
      assert HasCommit(repo.commits[p[i - 1]], commits, trees);
      assert p[i - 1 + 1] in ParentsOf(repo.commits[p[i - 1]]);
    }
  }

  lemma {:induction false} TreePathWithin(repo: Repo, starts: seq<string>, commits: iset<string>, trees: iset<string>, blobs: iset<string>, p: seq<string>, i: nat)
    requires EntryClosed(repo, starts, commits, trees, blobs) && TreePath(repo, p) && p[0] in trees && i < |p|
    ensures p[i] in trees
  {
    if i > 0 {
      TreePathWithin(repo, starts, commits, trees, blobs, p, i - 1);
      assert HasEntries(repo.trees[p[i - 1]], trees, blobs);
      assert p[i - 1 + 1] in Subtrees(repo.trees[p[i - 1]]);
    }
  }
}
