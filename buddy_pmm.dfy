/**
 * The buddy page manager of buddy_pmm.c as a class: the state of
 * `struct buddy_pmm_meta` (the counters, the construction flag, the frame
 * offset and the tree array `cont_log2[BUDDY_NPG + 1]`) and the manager's
 * operations, which update it in place.
 *
 * Each recursive helper runs the steps of the C function on the array and
 * is specified by the function of BuddyTree, BuddyAlloc or BuddyFree that
 * follows the same recursion; the properties of the allocator are proved
 * about those functions.  Pages are frame numbers: a block is returned as
 * the frame of its first page, and NULL as `None`.
 */
module BuddyPmm {
  import opened BuddyIndex
  import opened BuddyTree
  import opened BuddyAlloc
  import opened BuddyFree
  import opened BuddyScenarios

  /** `page2ppn(idx2page(k))`: the first frame of the block of node `k`. */
  function NodeFrame(R: nat, offset: nat, k: nat): nat
    requires InTree(R, k)
  {
    Lgppn2Ppn(offset, Idx2Lgppn(R, k) as nat)
  }

  /** The frame a search result stands for. */
  function FrameOf(R: nat, offset: nat, node: Option<nat>): Option<nat>
    requires node.Some? ==> InTree(R, node.value)
  {
    match node
    case None => None
    case Some(k) => Some(NodeFrame(R, offset, k))
  }

  /** The logical page a freed frame stands for (`page2lgppn`), or none for NULL. */
  function LogicalPage(offset: nat, base: Option<nat>): Option<int>
  {
    match base
    case None => None
    case Some(ppn) => Some(Ppn2Lgppn(offset, ppn))
  }

  class BuddyPmmMeta {
    /** BUDDY_NPG, the number of page frames the array is sized for. */
    const npg: nat
    /** `cont_log2`, of BUDDY_NPG + 1 cells. */
    const cont: array<nat>
    var allocTreeInit: bool
    var nrFree: nat
    var rollupNrFree: nat
    var pnnOffset: nat

    /**
     * The array has its declared size, and once built the tree has a
     * power-of-two capacity, fits below BUDDY_NPG and keeps the invariant.
     */
    predicate Valid()
      reads this, cont
    {
      cont.Length == npg + 1 &&
      (allocTreeInit ==> 2 * rollupNrFree <= npg && TreeOk(rollupNrFree, cont[..]))
    }

    /** The zero-initialised static `pmm_meta`. */
    constructor (npg: nat)
      ensures Valid() && fresh(cont)
      ensures this.npg == npg && !allocTreeInit && nrFree == 0 && rollupNrFree == 0 && pnnOffset == 0
      ensures forall i :: 0 <= i < cont.Length ==> cont[i] == 0
    {
      this.npg := npg;
      cont := new nat[npg + 1](_ => 0);
      allocTreeInit := false;
      nrFree := 0;
      rollupNrFree := 0;
      pnnOffset := 0;
    }

    /** `buddy_pmm_init`: reset the counters and the flag; the tree is built on the first allocation. */
    method PmmInit()
      requires Valid()
      modifies this, cont
      ensures Valid()
      ensures !allocTreeInit && nrFree == 0 && rollupNrFree == 0 && pnnOffset == old(pnnOffset)
      ensures cont[..] == old(cont[..])[0 := 0]
    {
      nrFree := 0;
      rollupNrFree := 0;
      allocTreeInit := false;
      cont[0] := 0;
    }

    /**
     * `buddy_init_memmap(base, n)`: every page of [base, base + n) must be
     * reserved; the frame offset becomes `base` (forgetting any earlier
     * one) and the free count grows by `n`.
     */
    method InitMemmap(base: nat, n: nat, ghost reserved: set<nat>)
      requires Valid() && n > 0
      requires forall p :: base <= p < base + n ==> p in reserved
      modifies this
      ensures Valid()
      ensures pnnOffset == base && nrFree == old(nrFree) + n
      ensures allocTreeInit == old(allocTreeInit) && rollupNrFree == old(rollupNrFree)
    {
      pnnOffset := base;
      // The loop over the page descriptors: only its `assert(PageReserved(p))`
      // is kept, since the descriptors themselves are not part of the state.
      var p := base;
      while p != base + n
        invariant base <= p <= base + n
        decreases base + n - p
      {
        assert p in reserved;
        p := p + 1;
      }
      nrFree := nrFree + n;
    }

    /** `do_init_alloctree(idx, ncap, nfree)`. */
    method DoInitAllocTree(idx: nat, ncap: nat, nfree: nat)
      requires SubtreeWithin(idx, ncap, cont.Length)
      modifies cont
      ensures cont[..] == InitTree(old(cont[..]), idx, ncap, nfree)
      decreases ncap
    {
      if ncap == 0 {
        return;
      }
      var nextCap := ncap / 2;
      var lfree := Min(nfree, nextCap);
      var rfree := nfree - lfree;
      cont[idx] := nfree;
      DoInitAllocTree(Left(idx), nextCap, lfree);
      DoInitAllocTree(Right(idx), nextCap, rfree);
    }

    /** `buddy_init_alloctree`: set the flag, roll the free count up and build the tree. */
    method InitAllocTree()
      requires Valid() && nrFree >= 1 && 2 * RollupPow2(nrFree) <= npg
      modifies this, cont
      ensures nrFree == old(nrFree) && pnnOffset == old(pnnOffset)
      ensures Valid() && allocTreeInit && rollupNrFree == RollupPow2(nrFree)
      ensures cont[..] == BuildTree(old(cont[..]), nrFree)
    {
      allocTreeInit := true;
      rollupNrFree := RollupPow2(nrFree);
      BuildSpec(cont[..], nrFree, rollupNrFree);
      DoInitAllocTree(Head, rollupNrFree, nrFree);
    }

    /**
     * `do_alloc_pages(idx, n)`, returning the node found (its frame is
     * taken by the caller).
     */
    method DoAlloc(idx: nat, n: nat) returns (node: Option<nat>)
      requires Valid() && allocTreeInit && 1 <= idx < 2 * rollupNrFree && IsPow2(n)
      modifies cont
      ensures Alloced(node, cont[..]) == Alloc(rollupNrFree, old(cont[..]), idx, n)
      decreases 2 * rollupNrFree - idx
    {
      var R := rollupNrFree;
      if Idx2NodeSize(R, idx) == n && cont[idx] != 0 {
        cont[idx] := 0;
        return Some(idx);
      }
      if cont[idx] < n {
        return None;
      }
      ChildFits(R, cont[..], idx, n);
      node := DoAlloc(Left(idx), n);
      if node.Some? {
        cont[idx] := Max(cont[Left(idx)], cont[Right(idx)]);
        return;
      }
      node := DoAlloc(Right(idx), n);
      if node.Some? {
        cont[idx] := Max(cont[Left(idx)], cont[Right(idx)]);
        return;
      }
      assert false;
    }

    /**
     * `buddy_alloc_pages(n)`: build the tree on first use, then search from
     * the root for a block of ROLLUP_POW2(n) pages.  The result is the
     * first frame of the block found, or `None`; the free count is not
     * touched.
     */
    method AllocPages(n: nat) returns (page: Option<nat>)
      requires Valid() && n >= 1
      requires !allocTreeInit ==> nrFree >= 1 && 2 * RollupPow2(nrFree) <= npg
      modifies this, cont
      ensures nrFree == old(nrFree) && pnnOffset == old(pnnOffset)
      ensures Valid() && allocTreeInit
      ensures rollupNrFree == if old(allocTreeInit) then old(rollupNrFree) else RollupPow2(nrFree)
      ensures var before := if old(allocTreeInit) then old(cont[..]) else BuildTree(old(cont[..]), nrFree);
        var r := Alloc(rollupNrFree, before, Head, RollupPow2(n));
        cont[..] == r.cont && page == FrameOf(rollupNrFree, pnnOffset, r.node)
    {
      if !allocTreeInit {
        InitAllocTree();
      }
      ghost var before := cont[..];
      var node := DoAlloc(Head, RollupPow2(n));
      AllocOk(rollupNrFree, before, Head, RollupPow2(n));
      match node
      case None =>
        page := None;
      case Some(k) =>
        page := Some(NodeFrame(rollupNrFree, pnnOffset, k));
    }

    /** `do_free_pages_backwords(idx)`. */
    method DoFreeBackwards(idx: nat)
      requires Shape(rollupNrFree, cont[..]) && 1 <= idx < 2 * rollupNrFree
      modifies cont
      ensures cont[..] == Backwards(rollupNrFree, old(cont[..]), idx)
      decreases idx
    {
      var R := rollupNrFree;
      if !LastLayer(R, idx) {
        ghost var c := cont[..];
        var l, r := cont[Left(idx)], cont[Right(idx)];
        if l == Idx2NodeSize(R, Left(idx)) && r == Idx2NodeSize(R, Right(idx)) {
          cont[idx] := l + r;
        } else {
          cont[idx] := Max(l, r);
        }
        assert cont[..] == c[idx := Merged(R, c, idx)];
      }
      if !FirstLayer(idx) {
        DoFreeBackwards(Par(idx));
      }
    }

    /**
     * `buddy_free_pages(base, n)`, `base` given as the frame of its first
     * page (`None` for NULL): nothing happens for NULL or `n == 0`;
     * otherwise the block is looked up and released by `FreeBlock`.
     * `found` is the flag of the C function.
     */
    method FreePages(base: Option<nat>, n: nat) returns (found: bool)
      requires Valid() && allocTreeInit
      requires base.Some? && n >= 1 ==> RollupPow2(n) <= rollupNrFree
      modifies cont
      ensures Valid()
      ensures var lg := LogicalPage(pnnOffset, base);
        found == FreeFound(rollupNrFree, old(cont[..]), lg, n).Some? &&
        cont[..] == Free(rollupNrFree, old(cont[..]), lg, n)
    {
      FreeOk(rollupNrFree, cont[..], LogicalPage(pnnOffset, base), n);
      if base.None? || n == 0 {
        FreeNothing(rollupNrFree, cont[..], LogicalPage(pnnOffset, base), n);
        return false;
      }
      found := FreeBlock(Ppn2Lgppn(pnnOffset, base.value), n);
    }

    /**
     * The body of `buddy_free_pages` past the NULL and zero checks: look up
     * the block (`ScanNodes`), then store `n` there and walk up.  The C
     * loop does the update right before its `break`; nothing happens
     * between the two.
     */
    method FreeBlock(lg: int, n: nat) returns (found: bool)
      requires Shape(rollupNrFree, cont[..]) && n >= 1 && RollupPow2(n) <= rollupNrFree
      modifies cont
      ensures found == FreeFound(rollupNrFree, old(cont[..]), Some(lg), n).Some?
      ensures cont[..] == Free(rollupNrFree, old(cont[..]), Some(lg), n)
    {
      var R := rollupNrFree;
      FreeByScan(R, cont[..], lg, n);
      var rollupN := RollupPow2(n);
      var begIdx := NodeSize2FstIdx(R, rollupN);
      var hit := ScanNodes(lg, begIdx, 2 * begIdx);
      found := hit.Some?;
      if found {
        var idx := hit.value;
        ghost var c0 := cont[..];
        cont[idx] := n;
        assert cont[..] == c0[idx := n];
        DoFreeBackwards(idx);
      }
    }

    /**
     * The loop of `buddy_free_pages` over the nodes [begIdx, endIdx): the
     * first `USED` node starting at logical page `lg`, or none.
     */
    method ScanNodes(lg: int, begIdx: nat, endIdx: nat) returns (r: Option<nat>)
      requires Shape(rollupNrFree, cont[..]) && 1 <= begIdx && endIdx <= 2 * rollupNrFree
      ensures r == Scan(rollupNrFree, cont[..], lg, begIdx, endIdx)
    {
      var R := rollupNrFree;
      var idx := begIdx;
      while idx < endIdx
        invariant begIdx <= idx
        invariant Scan(R, cont[..], lg, begIdx, endIdx) == Scan(R, cont[..], lg, idx, endIdx)
        decreases endIdx - idx
      {
        if cont[idx] == 0 && Idx2Lgppn(R, idx) == lg {
          return Some(idx);
        }
        ScanStep(R, cont[..], lg, idx, endIdx);
        idx := idx + 1;
      }
      return None;
    }

    /** `buddy_nr_free_pages`: the count of pages registered by `InitMemmap`. */
    method NrFreePages() returns (r: nat)
      ensures r == nrFree
    {
      r := nrFree;
    }

    /**
     * `basic_check`: with the tree not yet built, claim 16 free pages,
     * allocate three single pages, then free the second, the first and the
     * third.  All three allocations succeed on distinct frames, and each
     * free finds its block.
     */
    method BasicCheck() returns (p0: Option<nat>, p1: Option<nat>, p2: Option<nat>,
                                 f1: bool, f0: bool, f2: bool)
      requires Valid() && !allocTreeInit && npg >= 32
      modifies this, cont
      ensures Valid() && allocTreeInit && nrFree == 16 && rollupNrFree == 16
      ensures p0.Some? && p1.Some? && p2.Some?
      ensures p0 != p1 && p1 != p2 && p0 != p2
      ensures f1 && f0 && f2
    {
      Pow2IsPow2(4);
      assert Pow2(4) == 16;
      p0, p1, p2, f1, f0, f2 := CheckWith(16);
    }

    /** The steps of `basic_check` for any power of two `free >= 4` of claimed free pages. */
    method CheckWith(free: nat) returns (p0: Option<nat>, p1: Option<nat>, p2: Option<nat>,
                                         f1: bool, f0: bool, f2: bool)
      requires Valid() && !allocTreeInit && IsPow2(free) && free >= 4 && 2 * free <= npg
      modifies this, cont
      ensures Valid() && allocTreeInit && nrFree == free && rollupNrFree == free
      ensures p0.Some? && p1.Some? && p2.Some?
      ensures p0 != p1 && p1 != p2 && p0 != p2
      ensures f1 && f0 && f2
    {
      RollupPow2Id(free);
      RollupPow2Id(1);
      Pow2IsPow2(0);
      ghost var c0 := cont[..];
      nrFree := free;
      p0 := AllocPages(1);
      p1 := AllocPages(1);
      p2 := AllocPages(1);
      f1 := FreePages(p1, 1);
      f0 := FreePages(p0, 1);
      f2 := FreePages(p2, 1);
      BuddyScenarios.BasicCheck(c0, free, 1);
    }
  }
}
