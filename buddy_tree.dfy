/**
 * The allocation tree of the buddy allocator as values.
 *
 * `c` is the contents of `cont_log2[]`: node `i` of the implicit binary tree
 * (children `2i` and `2i+1`, root 1) is `c[i]`.  R is the rolled-up capacity
 * `rollup_nr_free`; the tree occupies indices [1, 2R).  Construction stores
 * the number of registered pages inside each block (packed from the left),
 * allocation stores 0 at the block it hands out and the larger child value
 * above it, and free stores the merged sum or the larger child value; what
 * all of them keep is `TreeOk`.
 *
 * This module holds the tree invariant, the block layout and the recursion
 * of `do_init_alloctree`; BuddyAlloc and BuddyFree hold those of
 * `do_alloc_pages`, `do_free_pages_backwords` and the scan of
 * `buddy_free_pages`.  The class in buddy_pmm.dfy runs the same steps in
 * place on an array and is specified by these functions.
 */
module BuddyTree {
  import opened BuddyIndex

  datatype Option<T> = None | Some(value: T)

  function Min(a: nat, b: nat): nat
  {
    if a <= b then a else b
  }

  function Max(a: nat, b: nat): nat
  {
    if a >= b then a else b
  }

  /** `max(0, x)` for the signed difference `F - idx2lgppn(idx)`. */
  function Clamp(x: int): nat
  {
    if x < 0 then 0 else x
  }

  // ---------------------------------------------------------------------
  // Subtrees

  /** `j` lies in the subtree of `a` (`a` itself included). */
  predicate IsAncestor(a: nat, j: nat)
    decreases j
  {
    j == a || (j > a && IsAncestor(a, j / 2))
  }

  lemma {:induction false} AncestorBelow(a: nat, j: nat)
    requires IsAncestor(a, j)
    ensures a <= j
    decreases j
  {
    if j != a {
      AncestorBelow(a, j / 2);
    }
  }

  /** The strict descendants of `a` are exactly the subtrees of its two children. */
  lemma {:induction false} SubtreeSplit(a: nat, j: nat)
    requires a >= 1
    ensures IsAncestor(a, j) && j != a <==> IsAncestor(Left(a), j) || IsAncestor(Right(a), j)
    decreases j
  {
    if j > a && j / 2 > a {
      SubtreeSplit(a, j / 2);
    }
    if IsAncestor(Left(a), j) && j != Left(a) {
      AncestorBelow(Left(a), j / 2);
    }
    if IsAncestor(Right(a), j) && j != Right(a) {
      AncestorBelow(Right(a), j / 2);
    }
  }

  /** Two ancestors of the same node are comparable. */
  lemma {:induction false} AncestorsComparable(p: nat, q: nat, j: nat)
    requires IsAncestor(p, j) && IsAncestor(q, j) && p <= q
    ensures IsAncestor(p, q)
    decreases j
  {
    if j != q {
      AncestorsComparable(p, q, j / 2);
    }
  }

  /** The subtrees of two siblings are disjoint. */
  lemma SiblingsDisjoint(a: nat, j: nat)
    requires a >= 1
    ensures !(IsAncestor(Left(a), j) && IsAncestor(Right(a), j))
  {
    if IsAncestor(Left(a), j) && IsAncestor(Right(a), j) {
      AncestorsComparable(Left(a), Right(a), j);
    }
  }

  /** The subtree relation is transitive. */
  lemma {:induction false} AncestorTrans(a: nat, b: nat, j: nat)
    requires IsAncestor(a, b) && IsAncestor(b, j)
    ensures IsAncestor(a, j)
    decreases j
  {
    if j != b {
      AncestorBelow(a, b);
      AncestorTrans(a, b, j / 2);
    }
  }

  /** A child's subtree lies in its parent's. */
  lemma ChildAncestor(a: nat, j: nat)
    requires a >= 1 && (IsAncestor(Left(a), j) || IsAncestor(Right(a), j))
    ensures IsAncestor(a, j) && j != a
  {
    SubtreeSplit(a, j);
  }

  /** Below a leaf there is no other node of the tree. */
  lemma LeafSubtree(R: nat, a: nat, j: nat)
    requires R <= a && IsAncestor(a, j) && j < 2 * R
    ensures j == a
  {
    if j != a {
      SubtreeSplit(a, j);
      if IsAncestor(Left(a), j) {
        AncestorBelow(Left(a), j);
      } else {
        AncestorBelow(Right(a), j);
      }
    }
  }

  // ---------------------------------------------------------------------
  // Blocks: node `j` stands for the pages [idx2lgppn(j), idx2lgppn(j) + nodesize(j))

  /** The block of a node lies inside the block of each of its ancestors. */
  lemma {:induction false} AncestorBlock(R: nat, a: nat, j: nat)
    requires InTree(R, a) && InTree(R, j) && IsAncestor(a, j)
    ensures Idx2Lgppn(R, a) <= Idx2Lgppn(R, j)
    ensures Idx2Lgppn(R, j) + Idx2NodeSize(R, j) <= Idx2Lgppn(R, a) + Idx2NodeSize(R, a)
    decreases j
  {
    if j != a {
      var p := j / 2;
      AncestorBelow(a, p);
      AncestorBlock(R, a, p);
      ChildBlock(R, p, j);
    }
  }

  /** The block of a child lies inside its parent's. */
  lemma ChildBlock(R: nat, p: nat, j: nat)
    requires IsPow2(R) && 1 <= p < R && (j == 2 * p || j == 2 * p + 1)
    ensures Idx2Lgppn(R, p) <= Idx2Lgppn(R, j)
    ensures Idx2Lgppn(R, j) + Idx2NodeSize(R, j) <= Idx2Lgppn(R, p) + Idx2NodeSize(R, p)
  {
    LgppnChild(R, p, j);
    NodeSizeChild(R, p, j);
  }

  /** The blocks of two nodes neither of which is below the other are disjoint. */
  lemma {:induction false} BlocksDisjoint(R: nat, i: nat, j: nat)
    requires InTree(R, i) && InTree(R, j) && !IsAncestor(i, j) && !IsAncestor(j, i)
    ensures Idx2Lgppn(R, i) + Idx2NodeSize(R, i) <= Idx2Lgppn(R, j) ||
            Idx2Lgppn(R, j) + Idx2NodeSize(R, j) <= Idx2Lgppn(R, i)
    decreases i + j
  {
    var x, y := if i < j then i else j, if i < j then j else i;
    var p := Par(y);
    assert IsAncestor(p, y);
    if IsAncestor(x, p) {
      assert false;
    } else if IsAncestor(p, x) {
      SiblingBlocks(R, p, y, x);
    } else {
      BlocksDisjoint(R, x, p);
      AncestorBlock(R, p, y);
    }
  }

  /** A child's block and any block inside its sibling's are disjoint. */
  lemma SiblingBlocks(R: nat, p: nat, y: nat, x: nat)
    requires IsPow2(R) && 1 <= p < R && (y == 2 * p || y == 2 * p + 1) && 1 <= x < 2 * R
    requires IsAncestor(p, x) && x != p && !IsAncestor(y, x)
    ensures Idx2Lgppn(R, x) + Idx2NodeSize(R, x) <= Idx2Lgppn(R, y) ||
            Idx2Lgppn(R, y) + Idx2NodeSize(R, y) <= Idx2Lgppn(R, x)
  {
    var s := if y == 2 * p then 2 * p + 1 else 2 * p;
    InSibling(p, y, s, x);
    AncestorBlock(R, s, x);
    SiblingsAdjacent(R, p);
    AdjacentArith(y == 2 * p,
      Idx2Lgppn(R, x), Idx2NodeSize(R, x), Idx2Lgppn(R, s), Idx2NodeSize(R, s),
      Idx2Lgppn(R, y), Idx2NodeSize(R, y));
  }

  /** Interval arithmetic behind SiblingBlocks: [lx, lx+nx) inside the sibling [ls, ls+ns) of [ly, ly+ny). */
  lemma AdjacentArith(yLeft: bool, lx: int, nx: int, ls: int, ns: int, ly: int, ny: int)
    requires ls <= lx && lx + nx <= ls + ns
    requires yLeft ==> ly + ny == ls
    requires !yLeft ==> ls + ns == ly
    ensures lx + nx <= ly || ly + ny <= lx
  {
  }

  /** A strict descendant of `p` outside the subtree of one child is in the other's. */
  lemma InSibling(p: nat, y: nat, s: nat, x: nat)
    requires p >= 1 && ((y == 2 * p && s == 2 * p + 1) || (y == 2 * p + 1 && s == 2 * p))
    requires IsAncestor(p, x) && x != p && !IsAncestor(y, x)
    ensures IsAncestor(s, x)
  {
    SubtreeSplit(p, x);
  }

  /** The left child's block ends where the right child's begins. */
  lemma SiblingsAdjacent(R: nat, p: nat)
    requires IsPow2(R) && 1 <= p < R
    ensures Idx2Lgppn(R, 2 * p) + Idx2NodeSize(R, 2 * p) == Idx2Lgppn(R, 2 * p + 1)
    ensures Idx2NodeSize(R, 2 * p) == Idx2NodeSize(R, 2 * p + 1)
  {
    LgppnChild(R, p, 2 * p);
    LgppnChild(R, p, 2 * p + 1);
    NodeSizeChild(R, p, 2 * p);
    NodeSizeChild(R, p, 2 * p + 1);
  }

  // ---------------------------------------------------------------------
  // The tree invariant

  /** The shape the allocator relies on: R a power of two and [1, 2R) inside the array. */
  predicate Shape(R: nat, c: seq<nat>)
  {
    IsPow2(R) && 2 * R <= |c|
  }

  /** `NOT_USED(idx)`: the node records its whole block as free. */
  predicate NotUsed(R: nat, c: seq<nat>, idx: nat)
    requires 1 <= idx < |c|
  {
    c[idx] == Idx2NodeSize(R, idx)
  }

  /** No node claims more free pages than its block has. */
  predicate Bounded(R: nat, c: seq<nat>)
    requires Shape(R, c)
  {
    forall i :: 1 <= i < 2 * R ==> c[i] <= Idx2NodeSize(R, i)
  }

  /**
   * The invariant at the non-leaf `i`: a child offers at least what `i`
   * promises up to half the block (this is what makes the `assert(0)` of
   * `do_alloc_pages` unreachable), and a node recorded as wholly free has
   * wholly free children.
   */
  predicate NodeOk(R: nat, c: seq<nat>, i: nat)
    requires Shape(R, c) && 1 <= i < R
  {
    Max(c[Left(i)], c[Right(i)]) >= Min(c[i], Idx2NodeSize(R, i) / 2) &&
    (NotUsed(R, c, i) ==> NotUsed(R, c, Left(i)) && NotUsed(R, c, Right(i)))
  }

  /** The invariant kept by construction, allocation and free. */
  predicate TreeOk(R: nat, c: seq<nat>)
  {
    Shape(R, c) && Bounded(R, c) &&
    forall i :: 1 <= i < R ==> NodeOk(R, c, i)
  }

  /** The invariant everywhere except at the non-leaves `a` and `b`. */
  predicate OkExcept(R: nat, c: seq<nat>, a: nat, b: nat)
  {
    Shape(R, c) && Bounded(R, c) &&
    forall i :: 1 <= i < R && i != a && i != b ==> NodeOk(R, c, i)
  }

  /**
   * Writing a value within bounds at `idx` keeps the invariant away from
   * `idx` and its parent; once `idx` itself is consistent with its children
   * again, only the parent remains to be repaired.
   */
  lemma SetNode(R: nat, c: seq<nat>, idx: nat, v: nat)
    requires OkExcept(R, c, idx, Par(idx)) && 1 <= idx < 2 * R && v <= Idx2NodeSize(R, idx)
    ensures OkExcept(R, c[idx := v], idx, Par(idx))
    ensures idx >= R || NodeOk(R, c[idx := v], idx) ==> OkExcept(R, c[idx := v], Par(idx), Par(idx))
  {
    var c' := c[idx := v];
    forall i | 1 <= i < R && i != idx && i != Par(idx)
      ensures NodeOk(R, c', i)
    {
      assert NodeOk(R, c, i);
      assert c'[i] == c[i] && c'[Left(i)] == c[Left(i)] && c'[Right(i)] == c[Right(i)];
    }
  }

  /** Storing the larger child's value at a non-leaf makes it consistent again. */
  lemma SetMax(R: nat, c: seq<nat>, idx: nat)
    requires OkExcept(R, c, idx, Par(idx)) && 1 <= idx < R
    ensures OkExcept(R, c[idx := Max(c[Left(idx)], c[Right(idx)])], Par(idx), Par(idx))
  {
    var m := Max(c[Left(idx)], c[Right(idx)]);
    NodeSizeChildren(R, idx);
    assert c[Left(idx)] <= Idx2NodeSize(R, Left(idx)) && c[Right(idx)] <= Idx2NodeSize(R, Right(idx));
    SetNode(R, c, idx, m);
    assert NodeOk(R, c[idx := m], idx);
  }

  /** Under a node recorded as wholly free, every node is recorded as wholly free. */
  lemma {:induction false} FreeBelow(R: nat, c: seq<nat>, k: nat, a: nat)
    requires TreeOk(R, c) && 1 <= k && a < 2 * R && IsAncestor(k, a) && NotUsed(R, c, k)
    ensures NotUsed(R, c, a)
    decreases a
  {
    if a != k {
      var p := a / 2;
      assert IsAncestor(k, p);
      AncestorBelow(k, p);
      assert 1 <= p < R && (a == Left(p) || a == Right(p));
      FreeBelow(R, c, k, p);
      assert NodeOk(R, c, p);
    }
  }

  // ---------------------------------------------------------------------
  // Construction: do_init_alloctree

  /** Every node `do_init_alloctree(idx, ncap, _)` writes is inside an array of length `len`. */
  predicate SubtreeWithin(idx: nat, ncap: nat, len: nat)
    decreases ncap
  {
    ncap == 0 ||
    (idx < len && SubtreeWithin(Left(idx), ncap / 2, len) && SubtreeWithin(Right(idx), ncap / 2, len))
  }

  /**
   * `do_init_alloctree(idx, ncap, nfree)`: store `nfree` at `idx` and split
   * it between the children, the left child taking as much as it can hold.
   */
  function InitTree(c: seq<nat>, idx: nat, ncap: nat, nfree: nat): (r: seq<nat>)
    requires SubtreeWithin(idx, ncap, |c|)
    ensures |r| == |c|
    decreases ncap
  {
    if ncap == 0 then c
    else
      var nextCap := ncap / 2;
      var lfree := Min(nfree, nextCap);
      var rfree := nfree - lfree;
      InitTree(InitTree(c[idx := nfree], Left(idx), nextCap, lfree), Right(idx), nextCap, rfree)
  }

  /**
   * The value construction leaves at `j` when `F` pages are registered:
   * the free pages are packed to the left, so node `j` holds the part of
   * [0, F) that falls inside its block.
   */
  function Expected(R: nat, F: nat, j: nat): nat
    requires InTree(R, j)
  {
    Min(Idx2NodeSize(R, j), Clamp(F - Idx2Lgppn(R, j)))
  }

  /** Splitting `min(ns, max(0, x))` between two halves of size h, as construction does. */
  lemma ClampSplit(ns: nat, h: nat, x: int)
    requires ns == 2 * h
    ensures Min(Min(ns, Clamp(x)), h) == Min(h, Clamp(x))
    ensures Min(ns, Clamp(x)) - Min(Min(ns, Clamp(x)), h) == Min(h, Clamp(x - h))
    ensures Max(Min(h, Clamp(x)), Min(h, Clamp(x - h))) >= Min(Min(ns, Clamp(x)), h)
    ensures Min(ns, Clamp(x)) == ns ==> Min(h, Clamp(x)) == h && Min(h, Clamp(x - h)) == h
  {
  }

  /** How the expected values of a node and of its children relate. */
  lemma ExpectedChildren(R: nat, F: nat, i: nat)
    requires IsPow2(R) && 1 <= i < R
    ensures Idx2NodeSize(R, Left(i)) == Idx2NodeSize(R, i) / 2 == Idx2NodeSize(R, Right(i))
    ensures Expected(R, F, Left(i)) == Min(Expected(R, F, i), Idx2NodeSize(R, i) / 2)
    ensures Expected(R, F, Right(i)) == Expected(R, F, i) - Expected(R, F, Left(i))
    ensures Max(Expected(R, F, Left(i)), Expected(R, F, Right(i))) >= Min(Expected(R, F, i), Idx2NodeSize(R, i) / 2)
    ensures Expected(R, F, i) == Idx2NodeSize(R, i) ==>
      Expected(R, F, Left(i)) == Idx2NodeSize(R, Left(i)) && Expected(R, F, Right(i)) == Idx2NodeSize(R, Right(i))
  {
    NodeSizeChildren(R, i);
    LgppnChildren(R, i);
    ClampSplit(Idx2NodeSize(R, i), Idx2NodeSize(R, i) / 2, F - Idx2Lgppn(R, i));
  }

  /** The subtree of a tree node fits below 2R, so construction stays inside the array. */
  lemma {:induction false} InitCallOk(R: nat, idx: nat, len: nat)
    requires InTree(R, idx) && 2 * R <= len
    ensures SubtreeWithin(idx, Idx2NodeSize(R, idx), len)
    decreases 2 * R - idx
  {
    if idx < R {
      NodeSizeChildren(R, idx);
      InitCallOk(R, Left(idx), len);
      InitCallOk(R, Right(idx), len);
    } else {
      LastLayerIff(R, idx);
    }
  }

  /** Expected(R, F, j) for every node j of the tree, as a sequence of length `len`. */
  function Packed(R: nat, F: nat, len: nat): (t: seq<nat>)
    ensures |t| == len
  {
    seq(len, j => if IsPow2(R) && 1 <= j < 2 * R then Expected(R, F, j) else 0)
  }

  /** `r` is `c` with the subtree of `idx` (inside the tree) overwritten from `t`. */
  predicate WritesSubtree(c: seq<nat>, r: seq<nat>, R: nat, idx: nat, t: seq<nat>)
  {
    |r| == |c| == |t| &&
    forall j :: 0 <= j < |c| ==>
      r[j] == if 1 <= j < 2 * R && IsAncestor(idx, j) then t[j] else c[j]
  }

  /** A leaf's subtree is the leaf alone. */
  lemma WritesLeaf(c: seq<nat>, R: nat, idx: nat, t: seq<nat>)
    requires R <= idx < 2 * R && |t| == |c| && idx < |c|
    ensures WritesSubtree(c, c[idx := t[idx]], R, idx, t)
  {
    forall j | 1 <= j < 2 * R && IsAncestor(idx, j)
      ensures j == idx
    {
      LeafSubtree(R, idx, j);
    }
  }

  /** At a leaf, construction writes the leaf alone. */
  lemma InitLeaf(c: seq<nat>, R: nat, idx: nat, t: seq<nat>)
    requires IsPow2(R) && R <= idx < 2 * R && 2 * R <= |c| && |t| == |c|
    requires SubtreeWithin(idx, Idx2NodeSize(R, idx), |c|)
    ensures WritesSubtree(c, InitTree(c, idx, Idx2NodeSize(R, idx), t[idx]), R, idx, t)
  {
    LastLayerIff(R, idx);
    var c1 := c[idx := t[idx]];
    assert InitTree(c1, Left(idx), 0, 0) == c1;
    assert InitTree(c, idx, 1, t[idx]) == InitTree(c1, Right(idx), 0, t[idx]);
    WritesLeaf(c, R, idx, t);
  }

  /** Writing a node and then the subtrees of its two children writes its subtree. */
  lemma WritesCombine(c: seq<nat>, c2: seq<nat>, r: seq<nat>, R: nat, idx: nat, t: seq<nat>)
    requires 1 <= idx < R && 2 * R <= |c| && |t| == |c|
    requires WritesSubtree(c[idx := t[idx]], c2, R, Left(idx), t)
    requires WritesSubtree(c2, r, R, Right(idx), t)
    ensures WritesSubtree(c, r, R, idx, t)
  {
    forall j | 0 <= j < |c|
      ensures r[j] == if 1 <= j < 2 * R && IsAncestor(idx, j) then t[j] else c[j]
    {
      SubtreeSplit(idx, j);
      SiblingsDisjoint(idx, j);
      if IsAncestor(Left(idx), j) {
        AncestorBelow(Left(idx), j);
      }
      if IsAncestor(Right(idx), j) {
        AncestorBelow(Right(idx), j);
      }
    }
  }

  /** The packed values of a node and of its children, as construction splits them. */
  lemma PackedChildren(R: nat, F: nat, t: seq<nat>, i: nat)
    requires IsPow2(R) && 1 <= i < R && t == Packed(R, F, |t|) && 2 * R <= |t|
    ensures Idx2NodeSize(R, Left(i)) == Idx2NodeSize(R, i) / 2 == Idx2NodeSize(R, Right(i))
    ensures t[Left(i)] == Min(t[i], Idx2NodeSize(R, i) / 2)
    ensures t[Right(i)] == t[i] - t[Left(i)]
  {
    ExpectedChildren(R, F, i);
  }

  /** `t` splits every non-leaf's value between its children as construction does. */
  predicate SplitsLikeInit(R: nat, t: seq<nat>)
    requires IsPow2(R) && 2 * R <= |t|
  {
    forall i :: 1 <= i < R ==>
      t[Left(i)] == Min(t[i], Idx2NodeSize(R, i) / 2) && t[Right(i)] == t[i] - t[Left(i)]
  }

  /** The packed values are split between children as construction splits them. */
  lemma PackedSplits(R: nat, F: nat, t: seq<nat>)
    requires IsPow2(R) && 2 * R <= |t| && t == Packed(R, F, |t|)
    ensures SplitsLikeInit(R, t)
  {
    forall i | 1 <= i < R
      ensures t[Left(i)] == Min(t[i], Idx2NodeSize(R, i) / 2) && t[Right(i)] == t[i] - t[Left(i)]
    {
      PackedChildren(R, F, t, i);
    }
  }

  /** One step of `do_init_alloctree` at a node with nonzero capacity. */
  lemma InitStep(c: seq<nat>, idx: nat, ncap: nat, v: nat)
    requires ncap > 0 && SubtreeWithin(idx, ncap, |c|)
    ensures SubtreeWithin(Left(idx), ncap / 2, |c|) && SubtreeWithin(Right(idx), ncap / 2, |c|)
    ensures idx < |c|
    ensures var c2 := InitTree(c[idx := v], Left(idx), ncap / 2, Min(v, ncap / 2));
      SubtreeWithin(Right(idx), ncap / 2, |c2|) &&
      InitTree(c, idx, ncap, v) == InitTree(c2, Right(idx), ncap / 2, v - Min(v, ncap / 2))
  {
  }

  /**
   * `do_init_alloctree(idx, nodesize(idx), v)`, entered with the value `t`
   * assigns to `idx`, writes exactly the nodes of the subtree of `idx`,
   * each with its value in `t`.
   */
  lemma {:induction false} InitTreeSpec(c: seq<nat>, R: nat, idx: nat, t: seq<nat>)
    requires IsPow2(R) && 2 * R <= |c| && 1 <= idx < 2 * R && |t| == |c| && SplitsLikeInit(R, t)
    requires SubtreeWithin(idx, Idx2NodeSize(R, idx), |c|)
    ensures WritesSubtree(c, InitTree(c, idx, Idx2NodeSize(R, idx), t[idx]), R, idx, t)
    decreases 2 * R - idx, 1
  {
    if idx >= R {
      InitLeaf(c, R, idx, t);
    } else {
      InitInner(c, R, idx, t);
    }
  }

  /** The inductive step of InitTreeSpec at a non-leaf. */
  lemma {:induction false} InitInner(c: seq<nat>, R: nat, idx: nat, t: seq<nat>)
    requires IsPow2(R) && 2 * R <= |c| && 1 <= idx < R && |t| == |c| && SplitsLikeInit(R, t)
    requires SubtreeWithin(idx, Idx2NodeSize(R, idx), |c|)
    ensures WritesSubtree(c, InitTree(c, idx, Idx2NodeSize(R, idx), t[idx]), R, idx, t)
    decreases 2 * R - idx, 0
  {
    var ns := Idx2NodeSize(R, idx);
    NodeSizeChildren(R, idx);
    assert t[Left(idx)] == Min(t[idx], ns / 2) && t[Right(idx)] == t[idx] - t[Left(idx)];
    InitStep(c, idx, ns, t[idx]);
    var c1 := c[idx := t[idx]];
    InitTreeSpec(c1, R, Left(idx), t);
    var c2 := InitTree(c1, Left(idx), ns / 2, t[Left(idx)]);
    InitTreeSpec(c2, R, Right(idx), t);
    WritesCombine(c, c2, InitTree(c2, Right(idx), ns / 2, t[Right(idx)]), R, idx, t);
  }

  /** Every node of the tree lies in the subtree of the root. */
  lemma {:induction false} AncestorRoot(j: nat)
    requires j >= 1
    ensures IsAncestor(Head, j)
    decreases j
  {
    if j > 1 {
      AncestorRoot(j / 2);
    }
  }

  /** A tree holding the packed values on [1, 2R) satisfies the invariant. */
  lemma PackedOk(R: nat, F: nat, r: seq<nat>)
    requires Shape(R, r)
    requires forall j :: 1 <= j < 2 * R ==> r[j] == Expected(R, F, j)
    ensures TreeOk(R, r)
  {
    forall i | 1 <= i < R
      ensures NodeOk(R, r, i)
    {
      ExpectedChildren(R, F, i);
    }
  }

  /** Construction from the root with F <= R free pages writes the packed values on [1, 2R). */
  lemma InitRootSpec(c: seq<nat>, R: nat, F: nat)
    requires IsPow2(R) && 2 * R <= |c| && 1 <= F <= R
    requires SubtreeWithin(Head, R, |c|)
    ensures var r := InitTree(c, Head, R, F);
      forall j :: 0 <= j < |c| ==> r[j] == if 1 <= j < 2 * R then Expected(R, F, j) else c[j]
  {
    var t := Packed(R, F, |c|);
    PackedSplits(R, F, t);
    ExpectedRoot(R, F);
    NodeSizeRoot(R);
    InitTreeSpec(c, R, Head, t);
    var r := InitTree(c, Head, R, F);
    forall j | 0 <= j < |c|
      ensures r[j] == if 1 <= j < 2 * R then Expected(R, F, j) else c[j]
    {
      if 1 <= j < 2 * R {
        AncestorRoot(j);
        assert r[j] == t[j];
      }
    }
  }

  /** A node whose block is all of [0, R) holds F. */
  lemma ExpectedWhole(R: nat, F: nat, j: nat)
    requires InTree(R, j) && Idx2Lgppn(R, j) == 0 && Idx2NodeSize(R, j) == R && F <= R
    ensures Expected(R, F, j) == F
  {
  }

  /** The root's packed value is F itself. */
  lemma ExpectedRoot(R: nat, F: nat)
    requires IsPow2(R) && F <= R
    ensures Expected(R, F, Head) == F
  {
    NodeSizeRoot(R);
    LgppnRoot(R);
    ExpectedWhole(R, F, Head);
  }

  /** The facts BuildTree states, about the construction call itself. */
  lemma BuildSpec(c: seq<nat>, F: nat, R: nat)
    requires F >= 1 && R == RollupPow2(F) && 2 * R <= |c|
    ensures IsPow2(R) && SubtreeWithin(Head, R, |c|)
    ensures var r := InitTree(c, Head, R, F);
      TreeOk(R, r) && r[Head] == F &&
      (forall j :: 0 <= j < |c| ==> r[j] == if 1 <= j < 2 * R then Expected(R, F, j) else c[j])
  {
    NodeSizeRoot(R);
    InitCallOk(R, Head, |c|);
    InitRootSpec(c, R, F);
    var r := InitTree(c, Head, R, F);
    PackedOk(R, F, r);
    ExpectedRoot(R, F);
  }

  /**
   * The tree `buddy_init_alloctree` builds for F registered free pages:
   * rolled up to R, the root holds F, each node the free pages packed from
   * the left into its block, cells outside [1, 2R) keep their contents, and
   * the invariant holds.
   */
  function BuildTree(c: seq<nat>, F: nat): (r: seq<nat>)
    requires F >= 1 && 2 * RollupPow2(F) <= |c|
    ensures var R := RollupPow2(F);
      |r| == |c| && TreeOk(R, r) && r[Head] == F &&
      forall j :: 0 <= j < |c| ==> r[j] == if 1 <= j < 2 * R then Expected(R, F, j) else c[j]
  {
    BuildSpec(c, F, RollupPow2(F));
    InitTree(c, Head, RollupPow2(F), F)
  }

  /** Every node of the tree records its whole block as free. */
  predicate Full(R: nat, c: seq<nat>)
  {
    Shape(R, c) && forall j :: 1 <= j < 2 * R ==> NotUsed(R, c, j)
  }

  lemma ExpectedFull(R: nat, j: nat)
    requires InTree(R, j)
    ensures Expected(R, R, j) == Idx2NodeSize(R, j)
  {
  }

  /** Registering a power of two of pages gives a tree recorded as wholly free. */
  lemma BuildFull(c: seq<nat>, R: nat)
    requires IsPow2(R) && 2 * R <= |c|
    ensures RollupPow2(R) == R
    ensures Full(R, BuildTree(c, R))
  {
    RollupPow2Id(R);
    var t := BuildTree(c, R);
    forall j | 1 <= j < 2 * R
      ensures NotUsed(R, t, j)
    {
      ExpectedFull(R, j);
    }
  }
}
