/**
 * Index arithmetic of the buddy allocator's implicit binary tree.
 *
 * The tree lives in a flat array indexed from 1: node 1 is the root and the
 * children of `idx` are `2 * idx` and `2 * idx + 1`.  A node at depth `d`
 * (the root has depth 1) covers `R / 2^(d-1)` pages, where `R`, the rollup
 * capacity, is the registered page count rounded up to a power of two.  The
 * source reads `R` and the frame offset from globals; here they are
 * parameters.
 */
module BuddyIndex {

  /** 2^k. */
  function Pow2(k: nat): (p: nat)
    ensures p >= 1
  {
    if k == 0 then 1 else 2 * Pow2(k - 1)
  }

  /** x is one of 1, 2, 4, 8, ... */
  predicate IsPow2(x: nat)
  {
    x >= 1 && Pow2(LM1(x) - 1) == x
  }

  /**
   * Position (counting from 1) of the left-most set bit of `u`, i.e. its bit
   * length: the least r with u < 2^r.  The source panics when `u` is 0.
   */
  function LM1(u: nat): (r: nat)
    requires u > 0
    ensures r >= 1 && Pow2(r - 1) <= u < Pow2(r)
  {
    BitLengthFrom(u, 1)
  }

  /** The least r' >= r with u < 2^r', searching upwards from r. */
  function BitLengthFrom(u: nat, r: nat): (r': nat)
    requires r >= 1 && Pow2(r - 1) <= u
    ensures r' >= r && Pow2(r' - 1) <= u < Pow2(r')
    decreases u - Pow2(r - 1)
  {
    if u < Pow2(r) then r else BitLengthFrom(u, r + 1)
  }

  /** The smallest power of two that is at least `u`.  Undefined for 0. */
  function RollupPow2(u: nat): (r: nat)
    requires u >= 1
    ensures IsPow2(r) && u <= r < 2 * u
  {
    if u == 1 then 1
    else
      Pow2IsPow2(LM1(u - 1));
      Pow2(LM1(u - 1))
  }

  // ---------------------------------------------------------------------
  // Powers of two

  lemma {:induction false} Pow2Add(a: nat, b: nat)
    ensures Pow2(a + b) == Pow2(a) * Pow2(b)
  {
    if a > 0 {
      Pow2Add(a - 1, b);
      calc {
        Pow2(a + b);
        2 * Pow2(a - 1 + b);
        2 * (Pow2(a - 1) * Pow2(b));
        (2 * Pow2(a - 1)) * Pow2(b);
        Pow2(a) * Pow2(b);
      }
    }
  }

  lemma {:induction false} Pow2Gap(a: nat, b: nat)
    requires a < b
    ensures 2 * Pow2(a) <= Pow2(b)
    decreases b
  {
    if b > a + 1 {
      Pow2Gap(a, b - 1);
    }
  }

  /** Pow2 is strictly increasing. */
  lemma Pow2Order(a: nat, b: nat)
    ensures a <= b <==> Pow2(a) <= Pow2(b)
    ensures a == b <==> Pow2(a) == Pow2(b)
  {
    if a < b {
      Pow2Gap(a, b);
    } else if b < a {
      Pow2Gap(b, a);
    }
  }

  lemma Pow2IsPow2(k: nat)
    ensures IsPow2(Pow2(k))
  {
    LM1OfPow2(k);
  }

  /** LM1 is determined by the two bounds it satisfies. */
  lemma LM1Unique(u: nat, d: nat)
    requires d >= 1 && Pow2(d - 1) <= u < Pow2(d)
    ensures LM1(u) == d
  {
    var r := LM1(u);
    Pow2Order(r, d - 1);
    Pow2Order(d, r - 1);
  }

  lemma LM1OfPow2(k: nat)
    ensures LM1(Pow2(k)) == k + 1
  {
    LM1Unique(Pow2(k), k + 1);
  }

  /** Two distinct powers of two are at least a factor 2 apart. */
  lemma Pow2Between(p: nat, q: nat)
    requires IsPow2(p) && IsPow2(q) && p < q
    ensures 2 * p <= q
  {
    Pow2Order(LM1(p) - 1, LM1(q) - 1);
    Pow2Gap(LM1(p) - 1, LM1(q) - 1);
  }

  lemma DivMulCancel(a: nat, b: nat)
    requires b > 0
    ensures (a * b) / b == a && (a * b) % b == 0
  {
    var q, r := (a * b) / b, (a * b) % b;
    assert a * b == b * q + r;
    assert b * (a - q) == r;
    assert a - q >= 1 ==> b * (a - q) >= b;
    assert a - q <= -1 ==> b * (q - a) >= b;
  }

  /** `x` halved (rounding down) `k` times. */
  function Halve(x: nat, k: nat): nat
  {
    if k == 0 then x else Halve(x / 2, k - 1)
  }

  /** Halving k times is floor division by 2^k, the source's `R / (1 << k)`. */
  lemma {:induction false} HalveIsDiv(x: nat, k: nat)
    ensures Halve(x, k) == x / Pow2(k)
  {
    if k > 0 {
      HalveIsDiv(x / 2, k - 1);
      var a := Pow2(k - 1);
      DivStep(x, a);
      DivUnique(x, 2 * a, (x / 2) / a, 2 * ((x / 2) % a) + x % 2);
    }
  }

  /** Dividing by 2 and then by `a` leaves a remainder below 2a. */
  lemma DivStep(x: nat, a: nat)
    requires a > 0
    ensures x == (2 * a) * ((x / 2) / a) + (2 * ((x / 2) % a) + x % 2)
    ensures 0 <= 2 * ((x / 2) % a) + x % 2 < 2 * a
  {
    var q, r := (x / 2) / a, (x / 2) % a;
    assert x / 2 == a * q + r;
    assert x == 2 * (a * q + r) + x % 2;
  }

  lemma DivUnique(x: nat, d: nat, q: int, r: int)
    requires d > 0 && x == d * q + r && 0 <= r < d
    ensures x / d == q
  {
    var q', r' := x / d, x % d;
    assert d * (q - q') == r' - r;
    assert q - q' >= 1 ==> d * (q - q') >= d;
    assert q' - q >= 1 ==> d * (q' - q) >= d;
  }

  /** Halving a power of two. */
  lemma {:induction false} HalvePow2(m: nat, k: nat)
    ensures Halve(Pow2(m), k) == if k <= m then Pow2(m - k) else 0
  {
    if k > 0 {
      if m == 0 {
        HalveZero(k - 1);
      } else {
        HalvePow2(m - 1, k - 1);
      }
    }
  }

  lemma {:induction false} HalveZero(k: nat)
    ensures Halve(0, k) == 0
  {
    if k > 0 {
      HalveZero(k - 1);
    }
  }

  // ---------------------------------------------------------------------
  // Round-up

  /** RollupPow2 is the least power of two not below `u`. */
  lemma RollupPow2Least(u: nat, p: nat)
    requires u >= 1 && IsPow2(p) && u <= p
    ensures RollupPow2(u) <= p
  {
    var r := RollupPow2(u);
    if p < r {
      Pow2Between(p, r);
    }
  }

  /** On powers of two RollupPow2 is the identity (in particular RollupPow2(1) == 1). */
  lemma RollupPow2Id(u: nat)
    requires IsPow2(u)
    ensures RollupPow2(u) == u
  {
    RollupPow2Least(u, u);
  }

  // ---------------------------------------------------------------------
  // Tree links

  const Head: nat := 1

  function Left(idx: nat): (l: nat)
    ensures Par(l) == idx && l % 2 == 0
  {
    idx * 2
  }

  function Right(idx: nat): (r: nat)
    ensures Par(r) == idx && r % 2 == 1 && r == Left(idx) + 1
  {
    idx * 2 + 1
  }

  function Par(idx: nat): nat
  {
    idx / 2
  }

  /** `idx ^ 1`: the other child of the same parent. */
  function Bro(idx: nat): (b: nat)
    ensures b != idx && Par(b) == Par(idx)
  {
    if idx % 2 == 0 then idx + 1 else idx - 1
  }

  lemma BroLinks(i: nat)
    ensures Bro(Left(i)) == Right(i) && Bro(Right(i)) == Left(i)
    ensures Bro(Bro(i)) == i
  {
  }

  // ---------------------------------------------------------------------
  // Depth and node size

  function Idx2Depth(idx: nat): nat
    requires idx >= 1
  {
    LM1(idx)
  }

  /** `R / (1 << (depth - 1))`, written as depth - 1 halvings (see HalveIsDiv). */
  function Depth2NodeSize(R: nat, depth: nat): nat
    requires depth >= 1
  {
    Halve(R, depth - 1)
  }

  function Idx2NodeSize(R: nat, idx: nat): nat
    requires idx >= 1
  {
    Depth2NodeSize(R, Idx2Depth(idx))
  }

  function Depth2FstIdx(depth: nat): nat
    requires depth >= 1
  {
    Pow2(depth - 1)
  }

  function MaxDepth(R: nat): nat
    requires R >= 1
  {
    LM1(R)
  }

  /** Depth of the nodes of size `s`; the source shifts by a negative amount when `s > R`. */
  function NodeSize2Depth(R: nat, s: nat): nat
    requires R >= 1 && s >= 1 && LM1(s) <= MaxDepth(R)
  {
    MaxDepth(R) + 1 - LM1(s)
  }

  function NodeSize2FstIdx(R: nat, s: nat): nat
    requires R >= 1 && s >= 1 && LM1(s) <= MaxDepth(R)
  {
    Depth2FstIdx(NodeSize2Depth(R, s))
  }

  /** A node of the tree of capacity R. */
  predicate InTree(R: nat, idx: nat)
  {
    IsPow2(R) && 1 <= idx < 2 * R
  }

  /** The node size in closed form: 2^(MaxDepth(R) - depth). */
  lemma NodeSizeExp(R: nat, idx: nat)
    requires InTree(R, idx)
    ensures LM1(idx) <= LM1(R)
    ensures Idx2NodeSize(R, idx) == Pow2(LM1(R) - LM1(idx))
  {
    assert 2 * R == Pow2(LM1(R));
    Pow2Order(LM1(idx) - 1, LM1(R));
    HalvePow2(LM1(R) - 1, LM1(idx) - 1);
  }

  lemma NodeSizeRoot(R: nat)
    ensures Idx2NodeSize(R, Head) == R
  {
  }

  lemma LM1Children(i: nat)
    requires i >= 1
    ensures LM1(2 * i) == 1 + LM1(i) && LM1(2 * i + 1) == 1 + LM1(i)
  {
    LM1Unique(2 * i, LM1(i) + 1);
    LM1Unique(2 * i + 1, LM1(i) + 1);
  }

  /** A node one level deeper covers half as many pages. */
  lemma NodeSizeDeeper(R: nat, i: nat, j: nat)
    requires InTree(R, i) && InTree(R, j) && LM1(j) == LM1(i) + 1
    ensures Idx2NodeSize(R, i) == 2 * Idx2NodeSize(R, j)
  {
    NodeSizeExp(R, i);
    NodeSizeExp(R, j);
    var e := LM1(R) - LM1(i);
    assert Pow2(e) == 2 * Pow2(e - 1);
  }

  /** Each child covers half of its parent; only non-leaves have children. */
  lemma NodeSizeChildren(R: nat, i: nat)
    requires IsPow2(R) && 1 <= i < R
    ensures Idx2NodeSize(R, i) == 2 * Idx2NodeSize(R, Left(i))
    ensures Idx2NodeSize(R, Right(i)) == Idx2NodeSize(R, Left(i)) >= 1
    ensures Idx2NodeSize(R, Left(i)) == Idx2NodeSize(R, i) / 2
  {
    NodeSizeChild(R, i, 2 * i);
    NodeSizeChild(R, i, 2 * i + 1);
  }

  lemma NodeSizeChild(R: nat, i: nat, c: nat)
    requires IsPow2(R) && 1 <= i < R && (c == 2 * i || c == 2 * i + 1)
    ensures Idx2NodeSize(R, i) == 2 * Idx2NodeSize(R, c) && Idx2NodeSize(R, c) >= 1
  {
    LM1Unique(c, LM1(i) + 1);
    NodeSizeDeeper(R, i, c);
    InTreeFacts(R, c);
  }

  /** Nodes of the tree are never out of range and cover at least one page. */
  lemma InTreeFacts(R: nat, idx: nat)
    requires InTree(R, idx)
    ensures !OutOfRange(R, idx)
    ensures Idx2NodeSize(R, idx) >= 1
  {
    NodeSizeExp(R, idx);
  }

  /** Every node size is a power of two. */
  lemma NodeSizeIsPow2(R: nat, idx: nat)
    requires InTree(R, idx)
    ensures IsPow2(Idx2NodeSize(R, idx))
  {
    NodeSizeExp(R, idx);
    Pow2IsPow2(LM1(R) - LM1(idx));
  }

  /** A power of two above another is at least its double. */
  lemma Pow2Above(a: nat, b: nat)
    requires IsPow2(a) && IsPow2(b) && a > b
    ensures a >= 2 * b
  {
    var p, q := LM1(a) - 1, LM1(b) - 1;
    Pow2Order(p, q);
    Pow2Order(q + 1, p);
    assert Pow2(q + 1) == 2 * Pow2(q);
  }

  /** The last layer is exactly the nodes of size 1. */
  lemma LastLayerIff(R: nat, idx: nat)
    requires InTree(R, idx)
    ensures LastLayer(R, idx) <==> Idx2NodeSize(R, idx) == 1
  {
    NodeSizeExp(R, idx);
    var K, d := LM1(R), LM1(idx);
    if idx >= R {
      Pow2Order(d, K - 1);
      assert d == K;
    } else {
      Pow2Order(K - 1, d - 1);
      assert K - d >= 1;
    }
  }

  /** The first layer (the head) is exactly the node of size R. */
  lemma FirstLayerIff(R: nat, idx: nat)
    requires InTree(R, idx)
    ensures FirstLayer(idx) <==> Idx2NodeSize(R, idx) == R
  {
    NodeSizeExp(R, idx);
    var K, d := LM1(R), LM1(idx);
    if idx != 1 {
      assert d >= 2;
      Pow2Order(K - 1, K - d);
    }
  }

  /** NodeSize2FstIdx in terms of exponents. */
  lemma FstIdxExp(R: nat, s: nat)
    requires R >= 1 && s >= 1 && LM1(s) <= LM1(R) && R == Pow2(LM1(R) - 1)
    ensures NodeSize2FstIdx(R, s) == Pow2(LM1(R) - LM1(s))
    ensures NodeSize2FstIdx(R, s) <= R
    ensures LM1(NodeSize2FstIdx(R, s)) == NodeSize2Depth(R, s)
  {
    var K, S := LM1(R), LM1(s);
    LM1OfPow2(K - S);
    Pow2Order(K - S, K - 1);
  }

  /** The exponent of a power of two not above R is at most R's. */
  lemma ExpOrder(R: nat, s: nat)
    requires IsPow2(R) && IsPow2(s) && s <= R
    ensures R == Pow2(LM1(R) - 1) && s == Pow2(LM1(s) - 1)
    ensures LM1(s) <= LM1(R)
  {
    Pow2Order(LM1(s) - 1, LM1(R) - 1);
  }

  /** The first node of size `s` (a power of two not above R). */
  lemma {:induction false} FirstIndexOfSize(R: nat, s: nat)
    requires IsPow2(R) && IsPow2(s) && s <= R
    ensures LM1(s) <= MaxDepth(R)
    ensures var f := NodeSize2FstIdx(R, s);
      1 <= f && 2 * f <= 2 * R && LM1(f) == NodeSize2Depth(R, s)
  {
    ExpOrder(R, s);
    FstIdxExp(R, s);
  }

  /** A node has size `s` exactly when it lies on the depth of the nodes of size `s`. */
  lemma {:induction false} SizeIffDepth(R: nat, s: nat, i: nat)
    requires IsPow2(R) && IsPow2(s) && s <= R && 1 <= i < 2 * R
    ensures LM1(s) <= MaxDepth(R)
    ensures Idx2NodeSize(R, i) == s <==> LM1(i) == NodeSize2Depth(R, s)
  {
    ExpOrder(R, s);
    NodeSizeExp(R, i);
    Pow2Order(LM1(R) - LM1(i), LM1(s) - 1);
  }

  /** The nodes on the depth of the power of two `f` are exactly [f, 2f). */
  lemma {:induction false} DepthIffRange(f: nat, i: nat)
    requires IsPow2(f) && i >= 1
    ensures LM1(i) == LM1(f) <==> f <= i < 2 * f
  {
    if f <= i < 2 * f {
      LM1Unique(i, LM1(f));
    }
  }

  /** The nodes of size `s` are exactly [f, 2f) for f = NodeSize2FstIdx(R, s). */
  lemma {:induction false} SizeIffRange(R: nat, s: nat, i: nat)
    requires IsPow2(R) && IsPow2(s) && s <= R && 1 <= i < 2 * R
    ensures LM1(s) <= MaxDepth(R)
    ensures var f := NodeSize2FstIdx(R, s);
      Idx2NodeSize(R, i) == s <==> f <= i < 2 * f
  {
    FirstIndexOfSize(R, s);
    SizeIffDepth(R, s, i);
    var f := NodeSize2FstIdx(R, s);
    Pow2IsPow2(LM1(f) - 1);
    DepthIffRange(f, i);
  }

  /**
   * For a power of two `s <= R`, NodeSize2FstIdx(R, s) has node size `s`
   * and the nodes of size `s` are exactly [f, 2f).
   */
  lemma SizeToFirstIndex(R: nat, s: nat)
    requires IsPow2(R) && IsPow2(s) && s <= R
    ensures LM1(s) <= MaxDepth(R)
    ensures var f := NodeSize2FstIdx(R, s);
      1 <= f && 2 * f <= 2 * R && Idx2NodeSize(R, f) == s &&
      forall i :: 1 <= i < 2 * R ==> (Idx2NodeSize(R, i) == s <==> f <= i < 2 * f)
  {
    FirstIndexOfSize(R, s);
    var f := NodeSize2FstIdx(R, s);
    SizeIffRange(R, s, f);
    forall i | 1 <= i < 2 * R
      ensures Idx2NodeSize(R, i) == s <==> f <= i < 2 * f
    {
      SizeIffRange(R, s, i);
    }
  }

  // ---------------------------------------------------------------------
  // Logical and physical page numbers

  lemma MulLeMono(a: int, b: int, c: nat)
    requires a <= b
    ensures a * c <= b * c
  {
  }

  /** Arithmetic behind idx2lgppn: position among the siblings times the size. */
  lemma BlockArith(idx: int, f: int, s: int, R: int)
    requires f <= idx < 2 * f && s >= 1 && f * s == R
    ensures idx * s - R == (idx - f) * s
    ensures 0 <= (idx - f) * s && (idx - f) * s + s <= R
  {
    assert idx * s - f * s == (idx - f) * s;
    MulLeMono(idx - f, f - 1, s);
    assert (f - 1) * s == f * s - s;
    MulLeMono(0, idx - f, s);
  }

  lemma MulCancel(a: int, b: int, s: int)
    requires s >= 1 && a * s == b * s
    ensures a == b
  {
    assert (a - b) * s == 0;
    assert a - b >= 1 ==> (a - b) * s >= s;
    assert b - a >= 1 ==> (b - a) * s >= s;
  }

  /** The first node of a depth times the node size of that depth is R. */
  lemma FirstTimesSize(R: nat, idx: nat)
    requires InTree(R, idx)
    ensures var f := Depth2FstIdx(Idx2Depth(idx));
      f <= idx < 2 * f && f * Idx2NodeSize(R, idx) == R
  {
    NodeSizeExp(R, idx);
    var K, d := LM1(R), LM1(idx);
    Pow2Add(d - 1, K - d);
  }

  /**
   * The logical page (0-based, relative to the first registered frame) at
   * which the block of `idx` starts.
   */
  function Idx2Lgppn(R: nat, idx: nat): (lg: int)
    requires InTree(R, idx)
    ensures 0 <= lg && lg + Idx2NodeSize(R, idx) <= R
  {
    LgppnOffset(R, idx);
    idx * Idx2NodeSize(R, idx) - R
  }

  /** The start page is the position of `idx` within its depth times the node size. */
  lemma LgppnOffset(R: nat, idx: nat)
    requires InTree(R, idx)
    ensures var lg := idx * Idx2NodeSize(R, idx) - R;
      lg == (idx - Depth2FstIdx(Idx2Depth(idx))) * Idx2NodeSize(R, idx) &&
      0 <= lg && lg + Idx2NodeSize(R, idx) <= R
  {
    FirstTimesSize(R, idx);
    InTreeFacts(R, idx);
    BlockArith(idx, Depth2FstIdx(Idx2Depth(idx)), Idx2NodeSize(R, idx), R);
  }

  /** Start pages are multiples of the node size. */
  lemma LgppnAligned(R: nat, idx: nat)
    requires InTree(R, idx)
    ensures Idx2NodeSize(R, idx) >= 1 && Idx2Lgppn(R, idx) % Idx2NodeSize(R, idx) == 0
  {
    InTreeFacts(R, idx);
    LgppnOffset(R, idx);
    DivMulCancel(idx - Depth2FstIdx(Idx2Depth(idx)), Idx2NodeSize(R, idx));
  }

  /** Two nodes of the same size never start at the same logical page. */
  lemma LgppnInjective(R: nat, i: nat, j: nat)
    requires InTree(R, i) && InTree(R, j)
    requires Idx2NodeSize(R, i) == Idx2NodeSize(R, j)
    requires Idx2Lgppn(R, i) == Idx2Lgppn(R, j)
    ensures i == j
  {
    NodeSizeExp(R, i);
    NodeSizeExp(R, j);
    Pow2Order(LM1(R) - LM1(i), LM1(R) - LM1(j));
    assert LM1(i) == LM1(j);
    InTreeFacts(R, i);
    LgppnOffset(R, i);
    LgppnOffset(R, j);
    var f := Depth2FstIdx(Idx2Depth(i));
    MulCancel(i - f, j - f, Idx2NodeSize(R, i));
  }

  /** The left child starts with its parent; the right child half a block later. */
  lemma LgppnChildren(R: nat, i: nat)
    requires IsPow2(R) && 1 <= i < R
    ensures Idx2Lgppn(R, Left(i)) == Idx2Lgppn(R, i)
    ensures Idx2Lgppn(R, Right(i)) == Idx2Lgppn(R, i) + Idx2NodeSize(R, i) / 2
  {
    LgppnChild(R, i, Left(i));
    LgppnChild(R, i, Right(i));
  }

  /** The block of child `ch` of `i` starts `(ch - 2i)` half-blocks into the block of `i`. */
  lemma LgppnChild(R: nat, i: nat, ch: nat)
    requires IsPow2(R) && 1 <= i < R && (ch == 2 * i || ch == 2 * i + 1)
    ensures ch == 2 * i ==> Idx2Lgppn(R, ch) == Idx2Lgppn(R, i)
    ensures ch == 2 * i + 1 ==> Idx2Lgppn(R, ch) == Idx2Lgppn(R, i) + Idx2NodeSize(R, i) / 2
  {
    var n, h := Idx2NodeSize(R, i), Idx2NodeSize(R, ch);
    NodeSizeChild(R, i, ch);
    ChildArith(i, ch - 2 * i, h, n, R, Idx2Lgppn(R, ch), Idx2Lgppn(R, i));
  }

  lemma ChildArith(i: int, b: int, h: int, n: int, R: int, lgC: int, lg: int)
    requires n == 2 * h && lg == i * n - R && lgC == (2 * i + b) * h - R
    requires b == 0 || b == 1
    ensures b == 0 ==> lgC == lg
    ensures b == 1 ==> lgC == lg + n / 2
  {
  }

  lemma LgppnRoot(R: nat)
    requires IsPow2(R)
    ensures Idx2Lgppn(R, Head) == 0
  {
  }

  /** Logical page to frame number: `lgppn + pnn_offset`. */
  function Lgppn2Ppn(offset: nat, lgppn: nat): (ppn: nat)
    ensures Ppn2Lgppn(offset, ppn) == lgppn
  {
    lgppn + offset
  }

  /**
   * Frame number to logical page: `ppn - pnn_offset`.  A frame below the
   * offset gives a negative number, which no node's start page equals.
   */
  function Ppn2Lgppn(offset: nat, ppn: nat): int
  {
    ppn - offset
  }

  lemma PpnRoundTrip(offset: nat, ppn: nat)
    requires ppn >= offset
    ensures Ppn2Lgppn(offset, ppn) >= 0
    ensures Lgppn2Ppn(offset, Ppn2Lgppn(offset, ppn) as nat) == ppn
  {
  }

  // ---------------------------------------------------------------------
  // Layer tests

  predicate FirstLayer(idx: nat)
  {
    idx == Head
  }

  predicate LastLayer(R: nat, idx: nat)
  {
    idx >= R
  }

  predicate OutOfRange(R: nat, idx: nat)
  {
    idx >= 2 * R
  }
}
