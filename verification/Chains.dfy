/** Singly linked lists kept in index fields: a head and a table of successors. */
module Chains {

  /** The null link. */
  const NIL: int := -1

  /** The node at a position of the chain, or the end. */
  ghost function At(chain: seq<nat>, i: nat): int {
    if i < |chain| then chain[i] else NIL
  }

  /** `chain` is the list that starts at `head` and follows `next`. */
  ghost predicate Linked(next: seq<int>, head: int, chain: seq<nat>) {
    && (forall i :: 0 <= i < |chain| ==> chain[i] < |next|)
    && head == At(chain, 0)
    && forall i :: 0 <= i < |chain| ==> next[chain[i]] == At(chain, i + 1)
  }
}
