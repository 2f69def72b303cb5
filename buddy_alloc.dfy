/**
 * Allocation: the recursion of `do_alloc_pages` over the tree, as a function
 * on the contents of `cont_log2[]`.
 *
 * From node `idx` looking for a block of `n` pages (`n` a power of two, the
 * rolled-up request), the recursion
 *   - takes `idx` itself when its block has exactly `n` pages and its value
 *     is not 0 (the "quick match", which writes 0 there);
 *   - gives up when the value is below `n` (the "early stop");
 *   - otherwise tries the left child, then the right child, and on success
 *     stores the larger of the two children's values at `idx`.
 */
module BuddyAlloc {
  import opened BuddyIndex
  import opened BuddyTree

  /** The block found (a node index), or none, and the new tree contents. */
  datatype Alloced = Alloced(node: Option<nat>, cont: seq<nat>)

  /** The quick match of `do_alloc_pages`: right size and not `USED`. */
  predicate QuickMatch(R: nat, c: seq<nat>, idx: nat, n: nat)
    requires 1 <= idx < |c|
  {
    Idx2NodeSize(R, idx) == n && c[idx] != 0
  }

  /** `do_alloc_pages(idx, n)` returns a page exactly when this holds. */
  predicate Fits(R: nat, c: seq<nat>, idx: nat, n: nat)
    requires 1 <= idx < |c|
  {
    QuickMatch(R, c, idx, n) || c[idx] >= n
  }

  /**
   * Past the quick match and the early stop, `idx` is a non-leaf and one of
   * its children fits: the `assert(0)` of `do_alloc_pages` is unreachable.
   */
  lemma ChildFits(R: nat, c: seq<nat>, idx: nat, n: nat)
    requires TreeOk(R, c) && 1 <= idx < 2 * R && IsPow2(n)
    requires !QuickMatch(R, c, idx, n) && c[idx] >= n
    ensures idx < R
    ensures Fits(R, c, Left(idx), n) || Fits(R, c, Right(idx), n)
  {
    var ns := Idx2NodeSize(R, idx);
    assert c[idx] <= ns;
    NodeSizeIsPow2(R, idx);
    Pow2Above(ns, n);
    LastLayerIff(R, idx);
    NodeSizeChildren(R, idx);
    assert NodeOk(R, c, idx);
  }

  /**
   * `do_alloc_pages(idx, n)`.  It succeeds exactly when `Fits` holds, and a
   * failure leaves the tree as it was.
   */
  function Alloc(R: nat, c: seq<nat>, idx: nat, n: nat): (r: Alloced)
    requires TreeOk(R, c) && 1 <= idx < 2 * R && IsPow2(n)
    ensures |r.cont| == |c|
    ensures r.node.Some? <==> Fits(R, c, idx, n)
    ensures r.node.None? ==> r.cont == c
    ensures r.node.Some? ==> idx <= r.node.value < 2 * R
    decreases 2 * R - idx
  {
    if QuickMatch(R, c, idx, n) then
      Alloced(Some(idx), c[idx := 0])
    else if c[idx] < n then
      Alloced(None, c)
    else
      ChildFits(R, c, idx, n);
      var left := Alloc(R, c, Left(idx), n);
      if left.node.Some? then
        var cl := left.cont;
        Alloced(left.node, cl[idx := Max(cl[Left(idx)], cl[Right(idx)])])
      else
        var right := Alloc(R, left.cont, Right(idx), n);
        if right.node.Some? then
          var cr := right.cont;
          Alloced(right.node, cr[idx := Max(cr[Left(idx)], cr[Right(idx)])])
        else
          assert false;
          Alloced(None, c)
  }

  /** Node `j` lies on the path from `idx` down to `k`. */
  predicate OnPath(idx: nat, j: nat, k: nat)
  {
    IsAncestor(idx, j) && IsAncestor(j, k)
  }

  /** A node strictly between `idx` and `k` lies on the path from the child of `idx` holding `k`. */
  lemma ChildPath(idx: nat, ch: nat, j: nat, k: nat)
    requires idx >= 1 && (ch == Left(idx) || ch == Right(idx)) && IsAncestor(ch, k)
    requires OnPath(idx, j, k) && j != idx
    ensures OnPath(ch, j, k)
  {
    SubtreeSplit(idx, j);
    var other := if ch == Left(idx) then Right(idx) else Left(idx);
    if IsAncestor(other, j) {
      AncestorTrans(other, j, k);
      SiblingsDisjoint(idx, k);
      assert false;
    }
  }

  /** The path from a child of `idx` extends to a path from `idx`. */
  lemma ParentPath(idx: nat, ch: nat, j: nat, k: nat)
    requires idx >= 1 && (ch == Left(idx) || ch == Right(idx)) && OnPath(ch, j, k)
    ensures OnPath(idx, j, k) && j != idx
  {
    ChildAncestor(idx, j);
  }

  /**
   * The block found: it lies below `idx`, has exactly `n` pages, its node
   * was not 0 and is 0 afterwards, and every node above it on the way down
   * offered at least `n` pages.
   */
  lemma {:induction false} AllocFound(R: nat, c: seq<nat>, idx: nat, n: nat)
    requires TreeOk(R, c) && 1 <= idx < 2 * R && IsPow2(n)
    ensures var r := Alloc(R, c, idx, n);
      r.node.Some? ==>
        var k := r.node.value;
        IsAncestor(idx, k) && k < 2 * R && Idx2NodeSize(R, k) == n && c[k] != 0 && r.cont[k] == 0 &&
        forall j: nat :: OnPath(idx, j, k) && j != k ==> j < k && c[j] >= n
    decreases 2 * R - idx
  {
    var r := Alloc(R, c, idx, n);
    if QuickMatch(R, c, idx, n) {
      forall j: nat | OnPath(idx, j, idx) && j != idx
        ensures false
      {
        AncestorBelow(idx, j);
        AncestorBelow(j, idx);
      }
    } else if c[idx] >= n {
      ChildFits(R, c, idx, n);
      var left := Alloc(R, c, Left(idx), n);
      var ch := if left.node.Some? then Left(idx) else Right(idx);
      AllocFound(R, c, ch, n);
      AllocFoundStep(R, c, idx, ch, n);
    }
  }

  /** AllocFound at `idx` from AllocFound at the child `ch` that the recursion succeeds in. */
  lemma AllocFoundStep(R: nat, c: seq<nat>, idx: nat, ch: nat, n: nat)
    requires TreeOk(R, c) && 1 <= idx < R && IsPow2(n)
    requires !QuickMatch(R, c, idx, n) && c[idx] >= n
    requires ch == Left(idx) || ch == Right(idx)
    requires ch == Left(idx) <==> Alloc(R, c, Left(idx), n).node.Some?
    requires Fits(R, c, ch, n)
    requires var sub := Alloc(R, c, ch, n);
      var k := sub.node.value;
      IsAncestor(ch, k) && k < 2 * R && Idx2NodeSize(R, k) == n && c[k] != 0 && sub.cont[k] == 0 &&
      forall j: nat :: OnPath(ch, j, k) && j != k ==> j < k && c[j] >= n
    ensures var r := Alloc(R, c, idx, n);
      r.node.Some? &&
      var k := r.node.value;
      IsAncestor(idx, k) && k < 2 * R && Idx2NodeSize(R, k) == n && c[k] != 0 && r.cont[k] == 0 &&
      forall j: nat :: OnPath(idx, j, k) && j != k ==> j < k && c[j] >= n
  {
    var r := Alloc(R, c, idx, n);
    var sub := Alloc(R, c, ch, n);
    var k := sub.node.value;
    assert r.node == sub.node && r.cont == sub.cont[idx := r.cont[idx]];
    ChildAncestor(idx, k);
    forall j: nat | OnPath(idx, j, k) && j != k
      ensures j < k && c[j] >= n
    {
      if j != idx {
        ChildPath(idx, ch, j, k);
      }
    }
  }

  /**
   * What allocation changes: exactly the nodes on the path from `idx` to
   * the block found, each of them above the block now holding the larger
   * of its children's values.
   */
  lemma {:induction false} AllocPath(R: nat, c: seq<nat>, idx: nat, n: nat)
    requires TreeOk(R, c) && 1 <= idx < 2 * R && IsPow2(n)
    ensures var r := Alloc(R, c, idx, n);
      r.node.Some? ==>
        var k := r.node.value;
        (forall j: nat :: j < |c| && !OnPath(idx, j, k) ==> r.cont[j] == c[j]) &&
        (forall j: nat :: OnPath(idx, j, k) && j != k ==>
          j < R && r.cont[j] == Max(r.cont[Left(j)], r.cont[Right(j)]))
    decreases 2 * R - idx
  {
    var r := Alloc(R, c, idx, n);
    if QuickMatch(R, c, idx, n) {
      forall j: nat | OnPath(idx, j, idx) && j != idx
        ensures false
      {
        AncestorBelow(idx, j);
        AncestorBelow(j, idx);
      }
    } else if c[idx] >= n {
      ChildFits(R, c, idx, n);
      var left := Alloc(R, c, Left(idx), n);
      var ch := if left.node.Some? then Left(idx) else Right(idx);
      AllocFound(R, c, ch, n);
      AllocPath(R, c, ch, n);
      AllocPathStep(R, c, idx, ch, n);
    }
  }

  /** AllocPath at `idx` from AllocPath at the child `ch` that the recursion succeeds in. */
  lemma AllocPathStep(R: nat, c: seq<nat>, idx: nat, ch: nat, n: nat)
    requires TreeOk(R, c) && 1 <= idx < R && IsPow2(n)
    requires !QuickMatch(R, c, idx, n) && c[idx] >= n
    requires ch == Left(idx) || ch == Right(idx)
    requires ch == Left(idx) <==> Alloc(R, c, Left(idx), n).node.Some?
    requires Fits(R, c, ch, n)
    requires var sub := Alloc(R, c, ch, n);
      var k := sub.node.value;
      IsAncestor(ch, k) &&
      (forall j: nat :: j < |c| && !OnPath(ch, j, k) ==> sub.cont[j] == c[j]) &&
      (forall j: nat :: OnPath(ch, j, k) && j != k ==>
        j < R && sub.cont[j] == Max(sub.cont[Left(j)], sub.cont[Right(j)]))
    ensures var r := Alloc(R, c, idx, n);
      r.node.Some? &&
      var k := r.node.value;
      (forall j: nat :: j < |c| && !OnPath(idx, j, k) ==> r.cont[j] == c[j]) &&
      (forall j: nat :: OnPath(idx, j, k) && j != k ==>
        j < R && r.cont[j] == Max(r.cont[Left(j)], r.cont[Right(j)]))
  {
    var sub := Alloc(R, c, ch, n);
    var k := sub.node.value;
    var r' := sub.cont[idx := Max(sub.cont[Left(idx)], sub.cont[Right(idx)])];
    assert Alloc(R, c, idx, n) == Alloced(sub.node, r');
    ChildAncestor(idx, k);
    PathFrameStep(c, sub.cont, r', idx, ch, k);
    PathMaxStep(R, sub.cont, r', idx, ch, k);
  }

  /** Cells off the path from `idx` are those off the path from its child, other than `idx`. */
  lemma PathFrameStep(c: seq<nat>, s: seq<nat>, r: seq<nat>, idx: nat, ch: nat, k: nat)
    requires idx >= 1 && (ch == Left(idx) || ch == Right(idx)) && IsAncestor(ch, k)
    requires |s| == |r| == |c| && idx < |c| && forall j: nat :: j < |c| && j != idx ==> r[j] == s[j]
    requires forall j: nat :: j < |c| && !OnPath(ch, j, k) ==> s[j] == c[j]
    ensures forall j: nat :: j < |c| && !OnPath(idx, j, k) ==> r[j] == c[j]
  {
    ChildAncestor(idx, k);
    forall j: nat | j < |c| && !OnPath(idx, j, k)
      ensures r[j] == c[j]
    {
      if OnPath(ch, j, k) {
        ParentPath(idx, ch, j, k);
      }
    }
  }

  /** The path from `idx` holds the larger child's value at every node above `k`. */
  lemma PathMaxStep(R: nat, s: seq<nat>, r: seq<nat>, idx: nat, ch: nat, k: nat)
    requires 1 <= idx < R && 2 * R <= |s| && (ch == Left(idx) || ch == Right(idx)) && IsAncestor(ch, k)
    requires r == s[idx := Max(s[Left(idx)], s[Right(idx)])]
    requires forall j: nat :: OnPath(ch, j, k) && j != k ==> j < R && s[j] == Max(s[Left(j)], s[Right(j)])
    ensures forall j: nat :: OnPath(idx, j, k) && j != k ==> j < R && r[j] == Max(r[Left(j)], r[Right(j)])
  {
    forall j: nat | OnPath(idx, j, k) && j != k
      ensures j < R && r[j] == Max(r[Left(j)], r[Right(j)])
    {
      if j != idx {
        ChildPath(idx, ch, j, k);
        AncestorBelow(idx, j);
      }
    }
  }

  /**
   * Allocation keeps the invariant everywhere except at the parent of
   * `idx`, which the caller's own update repairs; from the root it keeps
   * the invariant outright.
   */
  lemma {:induction false} AllocOk(R: nat, c: seq<nat>, idx: nat, n: nat)
    requires TreeOk(R, c) && 1 <= idx < 2 * R && IsPow2(n)
    ensures OkExcept(R, Alloc(R, c, idx, n).cont, Par(idx), Par(idx))
    decreases 2 * R - idx
  {
    if QuickMatch(R, c, idx, n) {
      InTreeFacts(R, idx);
      SetNode(R, c, idx, 0);
      if idx < R {
        assert NodeOk(R, c[idx := 0], idx);
      }
    } else if c[idx] >= n {
      ChildFits(R, c, idx, n);
      var left := Alloc(R, c, Left(idx), n);
      var ch := if left.node.Some? then Left(idx) else Right(idx);
      AllocOk(R, c, ch, n);
      var sub := Alloc(R, c, ch, n);
      assert Alloc(R, c, idx, n).cont == sub.cont[idx := Max(sub.cont[Left(idx)], sub.cont[Right(idx)])];
      SetMax(R, sub.cont, idx);
    }
  }

  /** The recursion tries left before right: it enters a right child only when the left one does not fit. */
  lemma {:induction false} AllocLeftFirst(R: nat, c: seq<nat>, idx: nat, n: nat)
    requires TreeOk(R, c) && 1 <= idx < 2 * R && IsPow2(n)
    ensures var r := Alloc(R, c, idx, n);
      r.node.Some? ==>
        forall j: nat :: OnPath(idx, j, r.node.value) && IsAncestor(Right(j), r.node.value) ==>
          j < R && !Fits(R, c, Left(j), n)
    decreases 2 * R - idx
  {
    var r := Alloc(R, c, idx, n);
    if QuickMatch(R, c, idx, n) {
      forall j: nat | OnPath(idx, j, idx) && IsAncestor(Right(j), idx)
        ensures false
      {
        AncestorBelow(idx, j);
        AncestorBelow(Right(j), idx);
      }
    } else if c[idx] >= n {
      ChildFits(R, c, idx, n);
      var left := Alloc(R, c, Left(idx), n);
      var ch := if left.node.Some? then Left(idx) else Right(idx);
      AllocFound(R, c, ch, n);
      AllocLeftFirst(R, c, ch, n);
      var sub := Alloc(R, c, ch, n);
      var k := sub.node.value;
      assert r.node == sub.node;
      forall j: nat | OnPath(idx, j, k) && IsAncestor(Right(j), k)
        ensures j < R && !Fits(R, c, Left(j), n)
      {
        if j == idx {
          if ch == Left(idx) {
            SiblingsDisjoint(idx, k);
          }
        } else {
          ChildPath(idx, ch, j, k);
        }
      }
    }
  }

  /** The quick match: a node of the requested size that is not `USED` is taken at once, with no descent. */
  lemma AllocQuick(R: nat, c: seq<nat>, idx: nat, n: nat)
    requires TreeOk(R, c) && 1 <= idx < 2 * R && IsPow2(n) && QuickMatch(R, c, idx, n)
    ensures Alloc(R, c, idx, n) == Alloced(Some(idx), c[idx := 0])
  {
  }

  /** Past the quick match and the early stop, a fitting left child decides the result. */
  lemma AllocViaLeft(R: nat, c: seq<nat>, idx: nat, n: nat)
    requires TreeOk(R, c) && 1 <= idx < R && IsPow2(n) && !QuickMatch(R, c, idx, n) && c[idx] >= n
    requires Fits(R, c, Left(idx), n)
    ensures Alloc(R, c, idx, n).node == Alloc(R, c, Left(idx), n).node
  {
  }

  /**
   * Allocation from the root never hands out pages of a block recorded as
   * allocated (a node holding 0) provided the quick match took a node
   * recorded as wholly free.  The quick match itself only checks that the
   * node is not 0; QuickMatchOverlap shows what happens otherwise.
   */
  lemma AllocDisjoint(R: nat, c: seq<nat>, n: nat, a: nat)
    requires TreeOk(R, c) && IsPow2(n) && 1 <= a < 2 * R && c[a] == 0
    requires var r := Alloc(R, c, Head, n); r.node.Some? && NotUsed(R, c, r.node.value)
    ensures var k := Alloc(R, c, Head, n).node.value;
      Idx2Lgppn(R, a) + Idx2NodeSize(R, a) <= Idx2Lgppn(R, k) ||
      Idx2Lgppn(R, k) + Idx2NodeSize(R, k) <= Idx2Lgppn(R, a)
  {
    var k := Alloc(R, c, Head, n).node.value;
    AllocFound(R, c, Head, n);
    if IsAncestor(a, k) {
      AncestorRoot(a);
      assert false;
    }
    if IsAncestor(k, a) {
      FreeBelow(R, c, k, a);
      InTreeFacts(R, a);
      assert false;
    }
    BlocksDisjoint(R, a, k);
  }

  /**
   * Allocated subtrees are untouched: while a node holds 0, an allocation
   * from the root neither takes a block below it nor changes any cell of
   * its subtree.
   */
  lemma AllocKeepsUsed(R: nat, c: seq<nat>, n: nat, a: nat, j: nat)
    requires TreeOk(R, c) && IsPow2(n) && 1 <= a < 2 * R && c[a] == 0
    requires IsAncestor(a, j) && j < |c|
    ensures var r := Alloc(R, c, Head, n);
      r.cont[j] == c[j] && (r.node.Some? ==> !IsAncestor(a, r.node.value))
  {
    var r := Alloc(R, c, Head, n);
    if r.node.Some? {
      var k := r.node.value;
      AllocFound(R, c, Head, n);
      AllocPath(R, c, Head, n);
      AncestorRoot(a);
      if IsAncestor(a, k) {
        assert false;
      }
      if OnPath(Head, j, k) {
        AncestorTrans(a, j, k);
        assert false;
      }
    }
  }
}
