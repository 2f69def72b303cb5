/**
 * Concrete runs of the allocator on a freshly built tree: the two ways the
 * quick match of `do_alloc_pages` hands out pages it should not, and the
 * `basic_check` self-test (three single-page allocations, then three frees).
 *
 * The runs are stated for every capacity R >= 4 that is a power of two, so
 * that the capacities of the self-test (16) and of the overlap example (8)
 * are instances.
 */
module BuddyScenarios {
  import opened BuddyIndex
  import opened BuddyTree
  import opened BuddyAlloc
  import opened BuddyFree

  /** The node sizes of the top three levels. */
  lemma TopSizes(R: nat)
    requires IsPow2(R) && R >= 4
    ensures Idx2NodeSize(R, Head) == R
    ensures Idx2NodeSize(R, 2) == Idx2NodeSize(R, 3) == R / 2 >= 2
    ensures Idx2NodeSize(R, 4) == Idx2NodeSize(R, 5) == R / 4 >= 1
    ensures IsPow2(R / 2)
  {
    NodeSizeRoot(R);
    NodeSizeChildren(R, 1);
    NodeSizeChildren(R, 2);
    NodeSizeIsPow2(R, 2);
  }

  // ---------------------------------------------------------------------
  // Single facts about one allocation from the root

  lemma AllocAt(R: nat, c: seq<nat>, idx: nat, n: nat)
    requires TreeOk(R, c) && 1 <= idx < 2 * R && IsPow2(n)
    ensures var r := Alloc(R, c, idx, n);
      r.node.Some? ==>
        IsAncestor(idx, r.node.value) && Idx2NodeSize(R, r.node.value) == n &&
        c[r.node.value] != 0 && r.cont[r.node.value] == 0
  {
    AllocFound(R, c, idx, n);
  }

  lemma RootOk(R: nat, c: seq<nat>, n: nat)
    requires TreeOk(R, c) && IsPow2(n)
    ensures TreeOk(R, Alloc(R, c, Head, n).cont)
  {
    AllocOk(R, c, Head, n);
  }

  lemma OffPath(R: nat, c: seq<nat>, n: nat, j: nat)
    requires TreeOk(R, c) && IsPow2(n) && j < |c|
    requires var r := Alloc(R, c, Head, n); r.node.Some? && !OnPath(Head, j, r.node.value)
    ensures Alloc(R, c, Head, n).cont[j] == c[j]
  {
    AllocPath(R, c, Head, n);
  }

  lemma PathMax(R: nat, c: seq<nat>, n: nat, j: nat)
    requires TreeOk(R, c) && IsPow2(n)
    requires var r := Alloc(R, c, Head, n); r.node.Some? && OnPath(Head, j, r.node.value) && j != r.node.value
    ensures j < R
    ensures var r := Alloc(R, c, Head, n); r.cont[j] == Max(r.cont[Left(j)], r.cont[Right(j)])
    ensures var r := Alloc(R, c, Head, n); r.cont[j] >= r.cont[Left(j)] && r.cont[j] >= r.cont[Right(j)]
  {
    AllocPath(R, c, Head, n);
  }

  /**
   * A single page taken while the left half still has a free page lands in
   * the left half; a wholly free right half stays so and keeps the root at
   * R/2 or more.
   */
  lemma LeftAlloc(R: nat, d: seq<nat>, n: nat)
    requires TreeOk(R, d) && R >= 4 && n == 1 && IsPow2(n)
    requires d[Head] >= 1 && d[2] >= 1 && NotUsed(R, d, Right(Head))
    ensures var a := Alloc(R, d, Head, n);
      a.node.Some? && IsAncestor(2, a.node.value) && a.cont[Head] >= R / 2 && NotUsed(R, a.cont, Right(Head))
  {
    TopSizes(R);
    assert Left(Head) == 2 && Fits(R, d, 2, n) && !QuickMatch(R, d, Head, n);
    AllocViaLeft(R, d, Head, n);
    AllocAt(R, d, 2, n);
    var k := Alloc(R, d, Head, n).node.value;
    AncestorRoot(k);
    SiblingsDisjoint(1, k);
    assert OnPath(Head, Head, k) && !OnPath(Head, Right(Head), k);
    var a := Alloc(R, d, Head, n);
    PathMax(R, d, n, Head);
    OffPath(R, d, n, Right(Head));
    KeptFree(R, d, a.cont, Right(Head));
    HalfFree(R, a.cont);
  }

  /** The right half recorded as wholly free holds R/2. */
  lemma HalfFree(R: nat, x: seq<nat>)
    requires IsPow2(R) && R >= 4 && Right(Head) < |x| && NotUsed(R, x, Right(Head))
    ensures x[Right(Head)] == R / 2
  {
    TopSizes(R);
  }

  lemma KeptFree(R: nat, x: seq<nat>, y: seq<nat>, j: nat)
    requires 1 <= j < |x| && j < |y| && x[j] == y[j] && NotUsed(R, x, j)
    ensures NotUsed(R, y, j)
  {
  }

  /** A single page taken from a tree whose root is not 0: a leaf, and no other leaf changes. */
  lemma AllocLeaf(R: nat, d: seq<nat>, n: nat)
    requires TreeOk(R, d) && n == 1 && IsPow2(n) && d[Head] >= 1
    ensures var a := Alloc(R, d, Head, n);
      a.node.Some? && R <= a.node.value < 2 * R && d[a.node.value] != 0 && a.cont[a.node.value] == 0 &&
      TreeOk(R, a.cont) &&
      forall j: nat :: R <= j < 2 * R && j != a.node.value ==> a.cont[j] == d[j]
  {
    var a := Alloc(R, d, Head, n);
    AllocAt(R, d, Head, n);
    LastLayerIff(R, a.node.value);
    RootOk(R, d, n);
    AllocPath(R, d, Head, n);
  }

  // ---------------------------------------------------------------------
  // The quick match hands out a partly used block

  /** After one page is taken from a wholly free tree, node 2 is partly used but not 0. */
  lemma FirstFromFull(R: nat, c: seq<nat>, n: nat)
    requires TreeOk(R, c) && Full(R, c) && R >= 4 && n == 1 && IsPow2(n)
    ensures var a := Alloc(R, c, Head, n);
      a.node.Some? && IsAncestor(2, a.node.value) && a.node.value != 2 &&
      a.cont[a.node.value] == 0 && TreeOk(R, a.cont) && a.cont[Head] >= R / 2 && a.cont[2] != 0 &&
      NotUsed(R, a.cont, 3)
  {
    TopSizes(R);
    assert NotUsed(R, c, Head) && NotUsed(R, c, 2) && NotUsed(R, c, 3);
    assert NotUsed(R, c, 4) && NotUsed(R, c, 5);
    LeftAlloc(R, c, n);
    AllocAt(R, c, Head, n);
    RootOk(R, c, n);
    SecondLevel(R, c, n, Alloc(R, c, Head, n).node.value);
  }

  lemma SecondLevel(R: nat, c: seq<nat>, n: nat, k: nat)
    requires TreeOk(R, c) && R >= 4 && IsPow2(n) && c[4] >= 1 && c[5] >= 1
    requires Alloc(R, c, Head, n).node == Some(k) && IsAncestor(2, k) && k != 2
    ensures Alloc(R, c, Head, n).cont[2] != 0
  {
    AncestorRoot(2);
    assert OnPath(Head, 2, k);
    PathMax(R, c, n, 2);
    SiblingsDisjoint(2, k);
    if IsAncestor(4, k) {
      OffPath(R, c, n, 5);
    } else {
      OffPath(R, c, n, 4);
    }
  }

  /** A request for half the capacity, with node 2 not 0, is met by node 2 through the quick match. */
  lemma HalfAlloc(R: nat, d: seq<nat>, n: nat)
    requires TreeOk(R, d) && R >= 4 && n == R / 2 && IsPow2(n) && d[Head] >= n && d[2] != 0
    ensures Alloc(R, d, Head, n).node == Some(2)
  {
    TopSizes(R);
    AllocQuick(R, d, 2, n);
    AllocViaLeft(R, d, Head, n);
  }

  /**
   * On a fresh tree of R pages (R = 8 is the textbook case), `alloc(1)`
   * followed by `alloc(R/2)` returns a block that contains the page handed
   * out first, which is still recorded as allocated.
   */
  lemma QuickMatchOverlap(c: seq<nat>, R: nat, n: nat)
    requires IsPow2(R) && R >= 4 && 2 * R <= |c| && n == 1 && IsPow2(n) && IsPow2(R / 2)
    ensures RollupPow2(R) == R
    ensures var a := Alloc(R, BuildTree(c, R), Head, n);
      a.node.Some? && TreeOk(R, a.cont) &&
      var b := Alloc(R, a.cont, Head, R / 2);
      var k := a.node.value;
      b.node == Some(2) && b.cont[k] == 0 && 1 <= k < 2 * R &&
      Idx2Lgppn(R, 2) <= Idx2Lgppn(R, k) < Idx2Lgppn(R, 2) + Idx2NodeSize(R, 2)
  {
    BuildFull(c, R);
    var t := BuildTree(c, R);
    FirstFromFull(R, t, n);
    var a := Alloc(R, t, Head, n);
    var k := a.node.value;
    HalfAlloc(R, a.cont, R / 2);
    TopSizes(R);
    AllocQuick(R, a.cont, 2, R / 2);
    AllocViaLeft(R, a.cont, Head, R / 2);
    InTreeFacts(R, k);
    AncestorBlock(R, 2, k);
  }

  // ---------------------------------------------------------------------
  // The quick match hands out padding

  /**
   * With F registered pages, F not a power of two, `alloc(F)` rolls the
   * request up to R and takes the root through the quick match: the block
   * [0, R) includes the R - F padding pages that construction marked used.
   */
  lemma PaddingHandedOut(c: seq<nat>, F: nat)
    requires F >= 1 && 2 * RollupPow2(F) <= |c| && !IsPow2(F)
    ensures var R := RollupPow2(F);
      F < R && Idx2Lgppn(R, Head) == 0 && Idx2NodeSize(R, Head) == R &&
      Alloc(R, BuildTree(c, F), Head, R) == Alloced(Some(Head), BuildTree(c, F)[Head := 0])
  {
    var R := RollupPow2(F);
    NodeSizeRoot(R);
    LgppnRoot(R);
    AllocQuick(R, BuildTree(c, F), Head, R);
  }

  // ---------------------------------------------------------------------
  // basic_check

  /** Three single-page allocations from a fresh tree of R pages all succeed, on three different leaves. */
  lemma ThreeAllocs(c: seq<nat>, R: nat, n: nat)
    requires IsPow2(R) && R >= 4 && 2 * R <= |c| && n == 1 && IsPow2(n)
    ensures RollupPow2(R) == R
    ensures var a1 := Alloc(R, BuildTree(c, R), Head, n);
      a1.node.Some? && TreeOk(R, a1.cont) &&
      var a2 := Alloc(R, a1.cont, Head, n);
      a2.node.Some? && TreeOk(R, a2.cont) &&
      var a3 := Alloc(R, a2.cont, Head, n);
      a3.node.Some? &&
      var k0, k1, k2 := a1.node.value, a2.node.value, a3.node.value;
      R <= k0 < 2 * R && R <= k1 < 2 * R && R <= k2 < 2 * R &&
      k0 != k1 && k1 != k2 && k0 != k2 &&
      a3.cont[k0] == 0 && a3.cont[k1] == 0 && a3.cont[k2] == 0
  {
    BuildFull(c, R);
    var t := BuildTree(c, R);
    FirstFromFull(R, t, n);
    TopSizes(R);
    var a1 := Alloc(R, t, Head, n);
    assert NotUsed(R, t, Head);
    AllocLeaf(R, t, n);
    LeftAlloc(R, a1.cont, n);
    AllocLeaf(R, a1.cont, n);
    var a2 := Alloc(R, a1.cont, Head, n);
    AllocLeaf(R, a2.cont, n);
  }

  /** Freeing one page at a leaf changes no other leaf. */
  lemma FreeLeaf(R: nat, d: seq<nat>, k: nat, n: nat)
    requires TreeOk(R, d) && n == 1 && R <= k < 2 * R && d[k] == 0
    ensures FreeFound(R, d, Some(Idx2Lgppn(R, k)), n) == Some(k)
    ensures var f := Free(R, d, Some(Idx2Lgppn(R, k)), n);
      forall j: nat :: R <= j < 2 * R && j != k ==> f[j] == d[j]
  {
    LastLayerIff(R, k);
    FoundUnique(R, d, Idx2Lgppn(R, k), n, k);
    BackwardsFrame(R, d[k := n], k);
  }

  /** Two distinct leaves start at distinct pages. */
  lemma LeavesApart(R: nat, i: nat, j: nat)
    requires IsPow2(R) && R <= i < 2 * R && R <= j < 2 * R && i != j
    ensures Idx2Lgppn(R, i) != Idx2Lgppn(R, j)
  {
    LastLayerIff(R, i);
    LastLayerIff(R, j);
    if Idx2Lgppn(R, i) == Idx2Lgppn(R, j) {
      LgppnInjective(R, i, j);
    }
  }

  /**
   * `basic_check`: with 16 pages registered (here any power of two R >= 4),
   * three single-page allocations all succeed, and freeing the second, the
   * first and the third page in that order finds each block.
   */
  lemma BasicCheck(c: seq<nat>, R: nat, n: nat)
    requires IsPow2(R) && R >= 4 && 2 * R <= |c| && n == 1 && IsPow2(n)
    ensures RollupPow2(R) == R
    ensures var a1 := Alloc(R, BuildTree(c, R), Head, n);
      a1.node.Some? && TreeOk(R, a1.cont) &&
      var a2 := Alloc(R, a1.cont, Head, n);
      a2.node.Some? && TreeOk(R, a2.cont) &&
      var a3 := Alloc(R, a2.cont, Head, n);
      a3.node.Some? && a3.node.value < 2 * R &&
      var p0, p1, p2 := Idx2Lgppn(R, a1.node.value), Idx2Lgppn(R, a2.node.value), Idx2Lgppn(R, a3.node.value);
      p0 != p1 && p1 != p2 && p0 != p2 &&
      FreeFound(R, a3.cont, Some(p1), n).Some? &&
      var d1 := Free(R, a3.cont, Some(p1), n);
      FreeFound(R, d1, Some(p0), n).Some? &&
      var d2 := Free(R, d1, Some(p0), n);
      FreeFound(R, d2, Some(p2), n).Some?
  {
    ThreeAllocs(c, R, n);
    var a1 := Alloc(R, BuildTree(c, R), Head, n);
    var a2 := Alloc(R, a1.cont, Head, n);
    var a3 := Alloc(R, a2.cont, Head, n);
    var k0, k1, k2 := a1.node.value, a2.node.value, a3.node.value;
    LeavesApart(R, k0, k1);
    LeavesApart(R, k1, k2);
    LeavesApart(R, k0, k2);
    AllocOk(R, a2.cont, Head, n);
    FreeLeaf(R, a3.cont, k1, n);
    var d1 := Free(R, a3.cont, Some(Idx2Lgppn(R, k1)), n);
    FreeOk(R, a3.cont, Some(Idx2Lgppn(R, k1)), n);
    FreeLeaf(R, d1, k0, n);
    var d2 := Free(R, d1, Some(Idx2Lgppn(R, k0)), n);
    FreeOk(R, d1, Some(Idx2Lgppn(R, k0)), n);
    FreeLeaf(R, d2, k2, n);
  }
}
