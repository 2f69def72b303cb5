/**
 * Free: the upward walk of `do_free_pages_backwords` and the scan of
 * `buddy_free_pages`, as functions on the contents of `cont_log2[]`.
 *
 * Freeing `n` pages at logical page `lg` looks at the nodes whose block has
 * ROLLUP_POW2(n) pages, from left to right, for the first one that is
 * `USED` (holds 0) and starts at `lg`.  That node gets `n`, and every
 * non-leaf from it up to the root is recomputed from its children: the sum
 * when both are wholly free (the buddies merge), their larger value
 * otherwise.  When no node matches, nothing changes.
 */
module BuddyFree {
  import opened BuddyIndex
  import opened BuddyTree

  // ---------------------------------------------------------------------
  // The upward walk

  /** The value `do_free_pages_backwords` stores at the non-leaf `idx`. */
  function Merged(R: nat, c: seq<nat>, idx: nat): nat
    requires Shape(R, c) && 1 <= idx < R
  {
    if NotUsed(R, c, Left(idx)) && NotUsed(R, c, Right(idx)) then c[Left(idx)] + c[Right(idx)]
    else Max(c[Left(idx)], c[Right(idx)])
  }

  /**
   * The merged value stays within the block, it records the block as wholly
   * free exactly when both halves are, and it makes `idx` consistent with
   * its children.
   */
  lemma MergedBounds(R: nat, c: seq<nat>, idx: nat)
    requires Shape(R, c) && Bounded(R, c) && 1 <= idx < R
    ensures Merged(R, c, idx) <= Idx2NodeSize(R, idx)
    ensures Merged(R, c, idx) == Idx2NodeSize(R, idx) <==>
      NotUsed(R, c, Left(idx)) && NotUsed(R, c, Right(idx))
    ensures NodeOk(R, c[idx := Merged(R, c, idx)], idx)
  {
    NodeSizeChildren(R, idx);
    assert c[Left(idx)] <= Idx2NodeSize(R, Left(idx)) && c[Right(idx)] <= Idx2NodeSize(R, Right(idx));
  }

  /**
   * `do_free_pages_backwords(idx)`: recompute `idx` unless it is a leaf,
   * then go on with the parent unless `idx` is the root.
   */
  function Backwards(R: nat, c: seq<nat>, idx: nat): (r: seq<nat>)
    requires Shape(R, c) && 1 <= idx < 2 * R
    ensures |r| == |c|
    decreases idx
  {
    var c' := if LastLayer(R, idx) then c else c[idx := Merged(R, c, idx)];
    if FirstLayer(idx) then c' else Backwards(R, c', Par(idx))
  }

  /** The non-leaves on the way from `idx` up to the root. */
  predicate OnWalk(R: nat, j: nat, idx: nat)
  {
    1 <= j < R && IsAncestor(j, idx)
  }

  /** The walk writes only the non-leaves on the way from `idx` up to the root. */
  lemma {:induction false} BackwardsFrame(R: nat, c: seq<nat>, idx: nat)
    requires Shape(R, c) && 1 <= idx < 2 * R
    ensures forall j: nat :: j < |c| && !OnWalk(R, j, idx) ==> Backwards(R, c, idx)[j] == c[j]
    decreases idx
  {
    if !FirstLayer(idx) {
      var c' := if LastLayer(R, idx) then c else c[idx := Merged(R, c, idx)];
      BackwardsFrame(R, c', Par(idx));
      forall j: nat | j < |c| && !OnWalk(R, j, idx)
        ensures Backwards(R, c, idx)[j] == c[j]
      {
        if OnWalk(R, j, Par(idx)) {
          assert IsAncestor(j, idx);
        }
      }
    }
  }

  /**
   * After the walk every non-leaf on the way from `idx` to the root holds
   * the merge of its children as they finally are.
   */
  lemma {:induction false} BackwardsMerged(R: nat, c: seq<nat>, idx: nat)
    requires Shape(R, c) && 1 <= idx < 2 * R
    ensures var r := Backwards(R, c, idx);
      forall j: nat :: OnWalk(R, j, idx) ==> r[j] == Merged(R, r, j)
    decreases idx
  {
    var r := Backwards(R, c, idx);
    var c' := if LastLayer(R, idx) then c else c[idx := Merged(R, c, idx)];
    if FirstLayer(idx) {
      forall j: nat | OnWalk(R, j, idx)
        ensures r[j] == Merged(R, r, j)
      {
        AncestorBelow(j, idx);
      }
    } else {
      var p := Par(idx);
      BackwardsMerged(R, c', p);
      BackwardsFrame(R, c', p);
      forall j: nat | OnWalk(R, j, idx)
        ensures r[j] == Merged(R, r, j)
      {
        if j == idx {
          WalkAbove(R, p, idx);
          WalkAbove(R, p, Left(idx));
          WalkAbove(R, p, Right(idx));
          assert r[idx] == c'[idx] && r[Left(idx)] == c[Left(idx)] && r[Right(idx)] == c[Right(idx)];
        } else {
          assert OnWalk(R, j, p);
        }
      }
    }
  }

  /** A node numbered above `p` is not on the walk from `p`. */
  lemma WalkAbove(R: nat, p: nat, j: nat)
    requires p < j
    ensures !OnWalk(R, j, p)
  {
    if IsAncestor(j, p) {
      AncestorBelow(j, p);
    }
  }

  /**
   * The walk repairs the invariant: started where only `idx` and its parent
   * may be inconsistent, it leaves the whole tree consistent.
   */
  lemma {:induction false} BackwardsOk(R: nat, c: seq<nat>, idx: nat)
    requires OkExcept(R, c, idx, Par(idx)) && 1 <= idx < 2 * R
    ensures TreeOk(R, Backwards(R, c, idx))
    decreases idx
  {
    var c' := if LastLayer(R, idx) then c else c[idx := Merged(R, c, idx)];
    if LastLayer(R, idx) {
      assert OkExcept(R, c', Par(idx), Par(idx));
    } else {
      MergedBounds(R, c, idx);
      SetNode(R, c, idx, Merged(R, c, idx));
    }
    if !FirstLayer(idx) {
      BackwardsOk(R, c', Par(idx));
    }
  }

  // ---------------------------------------------------------------------
  // The scan and buddy_free_pages

  /** Node `i` is the block being freed: `USED`, and starting at logical page `lg`. */
  predicate Matches(R: nat, c: seq<nat>, lg: int, i: nat)
    requires Shape(R, c) && 1 <= i < 2 * R
  {
    c[i] == 0 && Idx2Lgppn(R, i) == lg
  }

  /** The loop of `buddy_free_pages` over [from, end): the first matching node, if any. */
  function Scan(R: nat, c: seq<nat>, lg: int, from: nat, end: nat): (r: Option<nat>)
    requires Shape(R, c) && 1 <= from && end <= 2 * R
    ensures r.Some? ==> from <= r.value < end && Matches(R, c, lg, r.value)
    ensures r.Some? ==> forall i :: from <= i < r.value ==> !Matches(R, c, lg, i)
    ensures r.None? ==> forall i :: from <= i < end ==> !Matches(R, c, lg, i)
    decreases end - from
  {
    if from >= end then None
    else if Matches(R, c, lg, from) then Some(from)
    else Scan(R, c, lg, from + 1, end)
  }

  /** One step of the scan: a node that does not match is passed over. */
  lemma ScanStep(R: nat, c: seq<nat>, lg: int, from: nat, end: nat)
    requires Shape(R, c) && 1 <= from < end <= 2 * R && !Matches(R, c, lg, from)
    ensures Scan(R, c, lg, from, end) == Scan(R, c, lg, from + 1, end)
  {
  }

  /**
   * The node the scan of `buddy_free_pages(base, n)` settles on: none for
   * NULL or `n == 0`, otherwise the first node at the depth of
   * ROLLUP_POW2(n) that is `USED` and starts at `base` (the `found` flag).
   */
  function FreeFound(R: nat, c: seq<nat>, base: Option<int>, n: nat): (r: Option<nat>)
    requires Shape(R, c)
    requires base.Some? && n >= 1 ==> RollupPow2(n) <= R
    ensures r.Some? ==>
      (base.Some? && n >= 1 && 1 <= r.value < 2 * R &&
       Idx2NodeSize(R, r.value) == RollupPow2(n) && Matches(R, c, base.value, r.value))
  {
    if base.None? || n == 0 then None
    else
      var s := RollupPow2(n);
      FirstIndexOfSize(R, s);
      var beg := NodeSize2FstIdx(R, s);
      var r := Scan(R, c, base.value, beg, 2 * beg);
      if r.Some? then SizeIffRange(R, s, r.value); r else r
  }

  /**
   * `buddy_free_pages(base, n)`, with `base` given as its logical page
   * (`None` for NULL): the node the scan finds gets `n` and the walk starts
   * there; when the scan finds nothing the tree is left as it was.
   */
  function Free(R: nat, c: seq<nat>, base: Option<int>, n: nat): (r: seq<nat>)
    requires Shape(R, c)
    requires base.Some? && n >= 1 ==> RollupPow2(n) <= R
    ensures |r| == |c|
  {
    match FreeFound(R, c, base, n)
    case None => c
    case Some(idx) => Backwards(R, c[idx := n], idx)
  }

  /** Freeing NULL or zero pages finds nothing and changes nothing. */
  lemma FreeNothing(R: nat, c: seq<nat>, base: Option<int>, n: nat)
    requires Shape(R, c) && (base.None? || n == 0)
    ensures FreeFound(R, c, base, n).None? && Free(R, c, base, n) == c
  {
  }

  /**
   * Free spelled out for a page and a positive count: the node found is
   * the result of the scan over the nodes of size ROLLUP_POW2(n), and the
   * tree changes only when the scan finds one.
   */
  lemma FreeByScan(R: nat, c: seq<nat>, lg: int, n: nat)
    requires Shape(R, c) && n >= 1 && RollupPow2(n) <= R
    ensures LM1(RollupPow2(n)) <= MaxDepth(R)
    ensures var f := NodeSize2FstIdx(R, RollupPow2(n));
      1 <= f && 2 * f <= 2 * R &&
      var hit := Scan(R, c, lg, f, 2 * f);
      FreeFound(R, c, Some(lg), n) == hit &&
      Free(R, c, Some(lg), n) == if hit.Some? then Backwards(R, c[hit.value := n], hit.value) else c
  {
    FirstIndexOfSize(R, RollupPow2(n));
  }

  /**
   * Among the nodes of one size at most one starts at a given page, so the
   * first match of the scan is the only match: if node `i` matches, the
   * scan finds `i`.
   */
  lemma FoundUnique(R: nat, c: seq<nat>, lg: int, n: nat, i: nat)
    requires Shape(R, c) && n >= 1 && RollupPow2(n) <= R && 1 <= i < 2 * R
    requires Idx2NodeSize(R, i) == RollupPow2(n) && Matches(R, c, lg, i)
    ensures FreeFound(R, c, Some(lg), n) == Some(i)
  {
    var s := RollupPow2(n);
    FirstIndexOfSize(R, s);
    var beg := NodeSize2FstIdx(R, s);
    SizeIffRange(R, s, i);
    var k := FreeFound(R, c, Some(lg), n).value;
    LgppnInjective(R, i, k);
  }

  /** With no `USED` node of the right size starting at `lg`, the scan finds nothing. */
  lemma FoundNone(R: nat, c: seq<nat>, lg: int, n: nat)
    requires Shape(R, c) && n >= 1 && RollupPow2(n) <= R
    requires forall i :: 1 <= i < 2 * R && Idx2NodeSize(R, i) == RollupPow2(n) ==> !Matches(R, c, lg, i)
    ensures FreeFound(R, c, Some(lg), n).None?
  {
  }

  /** Free keeps the tree invariant. */
  lemma FreeOk(R: nat, c: seq<nat>, base: Option<int>, n: nat)
    requires TreeOk(R, c)
    requires base.Some? && n >= 1 ==> RollupPow2(n) <= R
    ensures TreeOk(R, Free(R, c, base, n))
  {
    var r := FreeFound(R, c, base, n);
    if r.Some? {
      var idx := r.value;
      SetNode(R, c, idx, n);
      BackwardsOk(R, c[idx := n], idx);
    }
  }
}
