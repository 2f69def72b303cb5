/**
 * Allocation followed by the matching free.  On a tree recorded as wholly
 * free, freeing the block an allocation has just handed out (same page,
 * same page count) restores the tree exactly: the walk up from the block
 * merges every pair of buddies the allocation split.
 */
module BuddyRoundTrip {
  import opened BuddyIndex
  import opened BuddyTree
  import opened BuddyAlloc
  import opened BuddyFree

  /**
   * If every node off the walk from `k` records its whole block as free and
   * every node on it holds the merge of its children, then every node on
   * the walk records its whole block as free too.
   */
  lemma {:induction false} WalkFull(R: nat, r: seq<nat>, k: nat, j: nat)
    requires Shape(R, r) && 1 <= k < 2 * R && OnWalk(R, j, k)
    requires forall i: nat :: 1 <= i < 2 * R && !OnWalk(R, i, k) ==> NotUsed(R, r, i)
    requires forall i: nat :: OnWalk(R, i, k) ==> r[i] == Merged(R, r, i)
    ensures NotUsed(R, r, j)
    decreases 2 * R - j
  {
    NodeSizeChildren(R, j);
    if OnWalk(R, Left(j), k) {
      WalkFull(R, r, k, Left(j));
    }
    if OnWalk(R, Right(j), k) {
      WalkFull(R, r, k, Right(j));
    }
    assert r[j] == Merged(R, r, j);
  }

  /** The node an allocation of `s` pages from the root of a free tree hands out. */
  lemma FullAllocFound(R: nat, c: seq<nat>, s: nat)
    requires TreeOk(R, c) && Full(R, c) && IsPow2(s) && s <= R
    ensures var a := Alloc(R, c, Head, s);
      a.node.Some? && Idx2NodeSize(R, a.node.value) == s && a.cont[a.node.value] == 0 &&
      forall j: nat :: j < |c| && j != a.node.value && a.cont[j] != c[j] ==> OnWalk(R, j, a.node.value)
  {
    NodeSizeRoot(R);
    assert NotUsed(R, c, Head);
    AllocFound(R, c, Head, s);
    AllocPath(R, c, Head, s);
  }

  /**
   * A walk from `k` over a tree that differs from the free tree `c` only on
   * the walk leaves every node off the walk wholly free and every cell
   * outside the tree as in `c`.
   */
  lemma RestoredOffWalk(R: nat, c: seq<nat>, d: seq<nat>, k: nat)
    requires Full(R, c) && |d| == |c| && 1 <= k < 2 * R
    requires forall j: nat :: j < |c| && d[j] != c[j] ==> OnWalk(R, j, k)
    ensures var r := Backwards(R, d, k);
      (forall i: nat :: 1 <= i < 2 * R && !OnWalk(R, i, k) ==> NotUsed(R, r, i)) &&
      (forall j: nat :: j < |c| && !(1 <= j < 2 * R) ==> r[j] == c[j])
  {
    BackwardsFrame(R, d, k);
    var r := Backwards(R, d, k);
    forall i: nat | 1 <= i < 2 * R && !OnWalk(R, i, k)
      ensures NotUsed(R, r, i)
    {
      assert r[i] == d[i] == c[i] && NotUsed(R, c, i);
    }
    forall j: nat | j < |c| && !(1 <= j < 2 * R)
      ensures r[j] == c[j]
    {
      assert !OnWalk(R, j, k);
    }
  }

  /** Off-walk nodes wholly free and on-walk nodes merged: the whole tree is wholly free. */
  lemma RestoredAll(R: nat, r: seq<nat>, k: nat)
    requires Shape(R, r) && 1 <= k < 2 * R
    requires forall i: nat :: 1 <= i < 2 * R && !OnWalk(R, i, k) ==> NotUsed(R, r, i)
    requires forall i: nat :: OnWalk(R, i, k) ==> r[i] == Merged(R, r, i)
    ensures forall j: nat :: 1 <= j < 2 * R ==> NotUsed(R, r, j)
  {
    forall j: nat | 1 <= j < 2 * R
      ensures NotUsed(R, r, j)
    {
      if OnWalk(R, j, k) {
        WalkFull(R, r, k, j);
      }
    }
  }

  /** Two arrays that agree outside the tree and are both wholly free inside it are equal. */
  lemma FullEqual(R: nat, c: seq<nat>, r: seq<nat>)
    requires Full(R, c) && |r| == |c|
    requires forall j: nat :: 1 <= j < 2 * R ==> NotUsed(R, r, j)
    requires forall j: nat :: j < |c| && !(1 <= j < 2 * R) ==> r[j] == c[j]
    ensures r == c
  {
    forall j | 0 <= j < |c|
      ensures r[j] == c[j]
    {
      if 1 <= j < 2 * R {
        assert NotUsed(R, r, j) && NotUsed(R, c, j);
      }
    }
  }

  /** The walk from `k` over a tree that differs from the free tree `c` only on the walk gives back `c`. */
  lemma WalkRestores(R: nat, c: seq<nat>, d: seq<nat>, k: nat)
    requires Full(R, c) && |d| == |c| && 1 <= k < 2 * R
    requires forall j: nat :: j < |c| && d[j] != c[j] ==> OnWalk(R, j, k)
    ensures Backwards(R, d, k) == c
  {
    RestoredOffWalk(R, c, d, k);
    BackwardsMerged(R, d, k);
    RestoredAll(R, Backwards(R, d, k), k);
    FullEqual(R, c, Backwards(R, d, k));
  }

  /**
   * Free undoes an allocation on a wholly free tree: allocating `n` pages
   * (rolled up) and then freeing `n` pages at the page the allocation
   * returned gives back the tree it started from.
   */
  lemma AllocFreeRoundTrip(R: nat, c: seq<nat>, n: nat)
    requires TreeOk(R, c) && Full(R, c) && n >= 1 && RollupPow2(n) <= R
    ensures var a := Alloc(R, c, Head, RollupPow2(n));
      a.node.Some? && Free(R, a.cont, Some(Idx2Lgppn(R, a.node.value)), n) == c
  {
    var s := RollupPow2(n);
    var a := Alloc(R, c, Head, s);
    FullAllocFound(R, c, s);
    var k := a.node.value;
    FoundUnique(R, a.cont, Idx2Lgppn(R, k), n, k);
    StoredOnWalk(R, c, a.cont, k, n);
    WalkRestores(R, c, a.cont[k := n], k);
  }

  /** Storing `n` at the allocated node keeps the difference from the free tree on the walk. */
  lemma StoredOnWalk(R: nat, c: seq<nat>, e: seq<nat>, k: nat, n: nat)
    requires Full(R, c) && |e| == |c| && 1 <= k < 2 * R && 1 <= n <= Idx2NodeSize(R, k)
    requires forall j: nat :: j < |c| && j != k && e[j] != c[j] ==> OnWalk(R, j, k)
    ensures forall j: nat :: j < |c| && e[k := n][j] != c[j] ==> OnWalk(R, j, k)
  {
    if k >= R {
      LastLayerIff(R, k);
      assert NotUsed(R, c, k);
    } else {
      assert IsAncestor(k, k);
    }
  }
}
