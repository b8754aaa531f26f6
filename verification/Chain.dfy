/** The block index with its skip pointers, and the active chain: src/chain.cpp and src/chain.h. */
module Chain {
  import opened Bytes

  // ----- Skip heights -----

  function And(x: nat, y: nat): (r: nat)
    ensures r <= x && r <= y
  {
    if x == 0 || y == 0 then 0 else (if x % 2 == 1 && y % 2 == 1 then 1 else 0) + 2 * And(x / 2, y / 2)
  }

  /** n & (n - 1) */
  function InvertLowestOne(n: nat): (r: nat)
    ensures n > 0 ==> r < n
  {
    if n == 0 then 0 else And(n, n - 1)
  }

  /** The height a skip pointer jumps to, always lower. */
  function GetSkipHeight(height: nat): (r: nat)
    ensures height > 0 ==> r < height
  {
    if height < 2 then 0
    else if height % 2 == 1 then InvertLowestOne(InvertLowestOne(height - 1)) + 1
    else InvertLowestOne(height)
  }

  /** n & (n - 1) takes away the lowest power of two that n is made of. */
  lemma {:induction false} LowestOneOff(n: nat) returns (k: nat, q: nat)
    requires n > 0
    ensures n == Pow2(k) * (2 * q + 1) && InvertLowestOne(n) == Pow2(k) * (2 * q)
  {
    if n % 2 == 1 {
      k, q := 0, n / 2;
      AndSelf(n / 2);
    } else {
      k, q := LowestOneOff(n / 2);
      assert InvertLowestOne(n) == 2 * InvertLowestOne(n / 2);
      Doubled(Pow2(k), 2 * q + 1);
      Doubled(Pow2(k), 2 * q);
      k := k + 1;
    }
  }

  lemma Doubled(p: nat, x: nat)
    ensures 2 * (p * x) == (2 * p) * x
  {
  }

  lemma {:induction false} AndSelf(n: nat)
    ensures And(n, n) == n
  {
    if n > 0 {
      AndSelf(n / 2);
    }
  }

  /** An even height skips back to itself without its lowest power of two; an odd one, to the height below without its
      two lowest, plus one. */
  lemma SkipClears(height: nat) returns (k: nat, q: nat, l: nat, s: nat)
    requires height >= 2
    ensures height - height % 2 == Pow2(k) * (2 * q + 1)
    ensures height % 2 == 0 ==> GetSkipHeight(height) == Pow2(k) * (2 * q)
    ensures height % 2 == 1 ==>
      if q == 0 then GetSkipHeight(height) == 1
      else Pow2(k) * (2 * q) == Pow2(l) * (2 * s + 1) && GetSkipHeight(height) == Pow2(l) * (2 * s) + 1
  {
    l, s := 0, 0;
    k, q := LowestOneOff(height - height % 2);
    var once := Pow2(k) * (2 * q);
    if once > 0 {
      l, s := LowestOneOff(once);
    }
  }

  // ----- Blocks -----

  class BlockIndex {
    const pprev: BlockIndex?
    const nHeight: nat
    var pskip: BlockIndex?

    constructor (pprev: BlockIndex?)
      ensures this.pprev == pprev && nHeight == (if pprev == null then 0 else pprev.nHeight + 1) && pskip == null
    {
      this.pprev := pprev;
      nHeight := if pprev == null then 0 else pprev.nHeight + 1;
      pskip := null;
    }
  }

  /** Heights count the blocks below. */
  predicate Linked(b: BlockIndex)
    decreases b.nHeight
  {
    if b.pprev == null then b.nHeight == 0
    else b.nHeight == b.pprev.nHeight + 1 && Linked(b.pprev)
  }

  /** The ancestor at a height, by walking the parents. */
  function Ancestor(b: BlockIndex, h: nat): (a: BlockIndex)
    requires Linked(b) && h <= b.nHeight
    ensures Linked(a) && a.nHeight == h
    decreases b.nHeight
  {
    if h == b.nHeight then b else Ancestor(b.pprev, h)
  }

  lemma {:induction false} AncestorTwice(b: BlockIndex, k: nat, h: nat)
    requires Linked(b) && h <= k <= b.nHeight
    ensures Ancestor(Ancestor(b, k), h) == Ancestor(b, h)
    decreases b.nHeight
  {
    if k < b.nHeight {
      AncestorTwice(b.pprev, k, h);
    }
  }

  lemma ParentIsAncestor(b: BlockIndex, k: nat)
    requires Linked(b) && 0 < k <= b.nHeight
    ensures Ancestor(b, k).pprev == Ancestor(b, k - 1)
  {
    AncestorTwice(b, k, k - 1);
  }

  /** A skip pointer, if any, leads to the ancestor at the skip height. */
  ghost predicate SkipOk(b: BlockIndex)
    requires Linked(b)
    reads b
  {
    b.pskip == null || (b.nHeight > 0 && b.pskip == Ancestor(b, GetSkipHeight(b.nHeight)))
  }

  ghost predicate BlockOk(tree: set<BlockIndex>, b: BlockIndex)
    requires b in tree
    reads tree
  {
    Linked(b) && SkipOk(b) && (b.pprev != null ==> b.pprev in tree)
  }

  /** A set of blocks with their parents, whose skip pointers come from BuildSkip. */
  ghost predicate TreeOk(tree: set<BlockIndex>)
    reads tree
  {
    forall b {:trigger BlockOk(tree, b)} :: b in tree ==> BlockOk(tree, b)
  }

  lemma {:induction false} AncestorInTree(tree: set<BlockIndex>, b: BlockIndex, h: nat)
    requires TreeOk(tree) && b in tree && Linked(b) && h <= b.nHeight
    ensures Ancestor(b, h) in tree
    decreases b.nHeight
  {
    assert BlockOk(tree, b);
    if h < b.nHeight {
      AncestorInTree(tree, b.pprev, h);
    }
  }

  /** The walk over skip pointers finds the same ancestor as the walk over parents. */
  method GetAncestor(ghost tree: set<BlockIndex>, block: BlockIndex, height: int) returns (r: BlockIndex?)
    requires TreeOk(tree) && block in tree
    ensures Linked(block)
    ensures if 0 <= height <= block.nHeight then r == Ancestor(block, height) && r in tree else r == null
  {
    assert BlockOk(tree, block);
    if height > block.nHeight || height < 0 {
      return null;
    }
    var walk, heightWalk := block, block.nHeight;
    while heightWalk > height
      invariant height <= heightWalk <= block.nHeight && walk == Ancestor(block, heightWalk) && walk in tree
      decreases heightWalk
    {
      assert BlockOk(tree, walk);
      var heightSkip, heightSkipPrev := GetSkipHeight(heightWalk), GetSkipHeight(heightWalk - 1);
      if walk.pskip != null
      && (heightSkip == height
        || (heightSkip > height && !(heightSkipPrev < heightSkip - 2 && heightSkipPrev >= height))) {
        AncestorTwice(block, heightWalk, heightSkip);
        AncestorInTree(tree, walk, heightSkip);
        walk, heightWalk := walk.pskip, heightSkip;
      } else {
        assert walk.pprev != null;
        ParentIsAncestor(block, heightWalk);
        walk, heightWalk := walk.pprev, heightWalk - 1;
      }
    }
    r := walk;
  }

  method BuildSkip(ghost tree: set<BlockIndex>, block: BlockIndex)
    requires TreeOk(tree) && block !in tree && Linked(block) && (block.pprev != null ==> block.pprev in tree)
        && block.pskip == null
    modifies block
    ensures TreeOk(tree + {block})
    ensures block.pprev != null ==> block.pskip == Ancestor(block, GetSkipHeight(block.nHeight))
  {
    if block.pprev != null {
      block.pskip := GetAncestor(tree, block.pprev, GetSkipHeight(block.nHeight));
    }
    forall b | b in tree + {block} ensures BlockOk(tree + {block}, b) {
      assert b in tree ==> old(BlockOk(tree, b));
    }
  }

  /** Both blocks descend from this one. */
  ghost predicate Common(a: BlockIndex, b: BlockIndex, h: nat)
    requires Linked(a) && Linked(b)
  {
    h <= a.nHeight && h <= b.nHeight && Ancestor(a, h) == Ancestor(b, h)
  }

  /** Below a common ancestor everything is common. */
  lemma CommonBelow(a: BlockIndex, b: BlockIndex, k: nat, h: nat)
    requires Linked(a) && Linked(b) && Common(a, b, k) && h <= k
    ensures Common(a, b, h)
  {
    AncestorTwice(a, k, h);
    AncestorTwice(b, k, h);
  }

  /** The highest common ancestor; null only for blocks of different trees. */
  method LastCommonAncestor(ghost tree: set<BlockIndex>, a: BlockIndex, b: BlockIndex) returns (r: BlockIndex?)
    requires TreeOk(tree) && a in tree && b in tree
    ensures Linked(a) && Linked(b)
    ensures r != null ==> Linked(r) && Common(a, b, r.nHeight) && r == Ancestor(a, r.nHeight)
    ensures forall h: nat :: Common(a, b, h) ==> r != null && h <= r.nHeight
  {
    assert BlockOk(tree, a) && BlockOk(tree, b);
    var pa: BlockIndex?, pb: BlockIndex? := a, b;
    if a.nHeight > b.nHeight {
      pa := GetAncestor(tree, a, b.nHeight);
    } else if b.nHeight > a.nHeight {
      pb := GetAncestor(tree, b, a.nHeight);
    }
    ghost var top: int := if a.nHeight < b.nHeight then a.nHeight else b.nHeight;
    while pa != pb && pa != null && pb != null
      invariant -1 <= top && top <= a.nHeight && top <= b.nHeight
      invariant if top == -1 then pa == null && pb == null else pa == Ancestor(a, top) && pb == Ancestor(b, top)
      invariant forall h: nat :: h > top ==> !Common(a, b, h)
      decreases top
    {
      if top > 0 {
        ParentIsAncestor(a, top);
        ParentIsAncestor(b, top);
      }
      pa, pb := pa.pprev, pb.pprev;
      top := top - 1;
    }
    assert pa == pb;
    r := pa;
  }

  // ----- The active chain -----

  class ActiveChain {
    var vChain: seq<BlockIndex?>

    /** The entries are the ancestors of the last one. */
    ghost predicate Valid()
      reads this
    {
      vChain != [] ==> IsPath(vChain, vChain[|vChain| - 1])
    }

    constructor ()
      ensures vChain == []
    {
      vChain := [];
    }

    function Height(): int
      reads this
    {
      |vChain| - 1
    }

    function Tip(): BlockIndex?
      reads this
    {
      if vChain == [] then null else vChain[|vChain| - 1]
    }

    function Contains(b: BlockIndex): bool
      reads this
    {
      b.nHeight < |vChain| && vChain[b.nHeight] == b
    }

    /** Whatever the chain was, it becomes exactly the path to the new tip, although the walk stops at
        the first block that is already in place. */
    method SetTip(tip: BlockIndex?)
      requires Valid() && (tip != null ==> Linked(tip))
      modifies this
      ensures Valid()
      ensures if tip == null then vChain == [] else |vChain| == tip.nHeight + 1 && IsPath(vChain, tip)
    {
      if tip == null {
        vChain := [];
        return;
      }
      ghost var was := vChain;
      vChain := Resized(vChain, tip.nHeight + 1);
      var pindex := tip;
      ghost var h: int := tip.nHeight;
      while pindex != null && vChain[pindex.nHeight] != pindex
        invariant |vChain| == tip.nHeight + 1 && -1 <= h <= tip.nHeight
        invariant if h == -1 then pindex == null else pindex == Ancestor(tip, h)
        invariant forall k {:trigger PathAt(vChain, tip, k)} :: h < k < |vChain| ==> PathAt(vChain, tip, k)
        invariant forall k :: 0 <= k <= h ==> vChain[k] == if k < |was| then was[k] else null
        decreases h
      {
        ghost var before := vChain;
        vChain := vChain[pindex.nHeight := pindex];
        forall k | h - 1 < k < |vChain| ensures PathAt(vChain, tip, k) {
          assert k > h ==> PathAt(before, tip, k);
        }
        if h > 0 {
          ParentIsAncestor(tip, h);
        }
        pindex := pindex.pprev;
        h := h - 1;
      }
      forall k | 0 <= k < |vChain| ensures PathAt(vChain, tip, k) {
        if k <= h {
          OldPath(was, tip, h, k);
        }
      }
      assert PathAt(vChain, tip, tip.nHeight);
    }

    /** The highest block of this chain that the given block descends from. */
    method FindFork(ghost tree: set<BlockIndex>, start: BlockIndex?) returns (r: BlockIndex?)
      requires Valid() && TreeOk(tree) && (start != null ==> start in tree)
      ensures start == null ==> r == null
      ensures start != null ==> Linked(start) && (r != null ==> Forks(this, start, r))
      ensures start != null ==> forall h: nat :: h <= start.nHeight && Contains(Ancestor(start, h)) ==>
          r != null && h <= r.nHeight
    {
      if start == null {
        return null;
      }
      assert BlockOk(tree, start);
      var pindex: BlockIndex? := start;
      ghost var top: int := start.nHeight;
      if start.nHeight > Height() {
        pindex := GetAncestor(tree, start, Height());
        top := Height();
      }
      while pindex != null && !Contains(pindex)
        invariant -1 <= top <= start.nHeight
        invariant if top == -1 then pindex == null else pindex == Ancestor(start, top)
        invariant forall h: nat :: top < h <= start.nHeight ==> !Contains(Ancestor(start, h))
        decreases top
      {
        if top > 0 {
          ParentIsAncestor(start, top);
        }
        pindex := pindex.pprev;
        top := top - 1;
      }
      r := pindex;
    }

    /** An ancestor, from this chain if possible and over the skip pointers otherwise. */
    method StepBack(ghost tree: set<BlockIndex>, b: BlockIndex, h: nat) returns (a: BlockIndex)
      requires Valid() && TreeOk(tree) && b in tree && h <= b.nHeight
      ensures Linked(b) && a in tree && a == Ancestor(b, h)
    {
      assert BlockOk(tree, b);
      AncestorInTree(tree, b, h);
      if Contains(b) {
        ghost var tip := vChain[|vChain| - 1];
        assert PathAt(vChain, tip, b.nHeight) && PathAt(vChain, tip, h);
        AncestorTwice(tip, b.nHeight, h);
        a := vChain[h];
      } else {
        a := GetAncestor(tree, b, h);
      }
    }

    /** GetLocator: from the start down to genesis, each block an ancestor of the start, in single
        steps at first and then in steps that double. */
    method GetLocator(ghost tree: set<BlockIndex>, start: BlockIndex?) returns (have: seq<BlockIndex>)
      requires Valid() && TreeOk(tree) && (start != null ==> start in tree)
          && (vChain != [] ==> vChain[|vChain| - 1] in tree)
      ensures have == [] <==> start == null && vChain == []
      ensures have != [] ==> IsLocator(if start == null then vChain[|vChain| - 1] else start, have)
    {
      var first := if start != null then start else Tip();
      if first == null {
        return [];
      }
      have := LocatorFrom(tree, first);
    }

    method LocatorFrom(ghost tree: set<BlockIndex>, start: BlockIndex) returns (have: seq<BlockIndex>)
      requires Valid() && TreeOk(tree) && start in tree
      ensures IsLocator(start, have)
    {
      assert BlockOk(tree, start);
      var step, pindex := 1, start;
      have := [start];
      while pindex.nHeight > 0
        invariant pindex in tree && |have| > 0 && have[0] == start && have[|have| - 1] == pindex
            && step == StepAt(|have| - 1)
        invariant forall i {:trigger LocatedAt(start, have, i)} :: LocatedAt(start, have, i)
        decreases pindex.nHeight
      {
        ghost var before := have;
        assert LocatedAt(start, before, |have| - 1);
        var next := StepBack(tree, pindex, Back(pindex.nHeight, step));
        AncestorTwice(start, pindex.nHeight, next.nHeight);
        if |have| > 10 {
          step := 2 * step;
        }
        pindex := next;
        have := have + [pindex];
        forall i ensures LocatedAt(start, have, i) {
          assert LocatedAt(start, before, i);
        }
      }
    }
  }

  /** From the start down to genesis. */
  ghost predicate IsLocator(start: BlockIndex, have: seq<BlockIndex>) {
    && have != [] && have[0] == start && have[|have| - 1].nHeight == 0
    && Linked(start) && forall i {:trigger LocatedAt(start, have, i)} :: LocatedAt(start, have, i)
  }

  /** An ancestor of the start, one step below the entry before. */
  ghost predicate LocatedAt(start: BlockIndex, have: seq<BlockIndex>, i: int)
    requires Linked(start)
  {
    0 <= i < |have| ==>
      && have[i].nHeight <= start.nHeight && have[i] == Ancestor(start, have[i].nHeight)
      && (i > 0 ==> have[i].nHeight == Back(have[i - 1].nHeight, StepAt(i - 1)) < have[i - 1].nHeight)
  }

  // ----- Locators -----

  function Back(h: nat, step: nat): nat {
    if h > step then h - step else 0
  }

  /** The step from entry i of a locator. */
  function StepAt(i: nat): (step: nat)
    ensures step > 0
  {
    if i == 0 then 1 else if i > 10 then 2 * StepAt(i - 1) else StepAt(i - 1)
  }

  ghost predicate Forks(chain: ActiveChain, start: BlockIndex, r: BlockIndex)
    requires Linked(start)
    reads chain
  {
    r.nHeight <= start.nHeight && r == Ancestor(start, r.nHeight) && chain.Contains(r)
  }

  ghost predicate PathAt(v: seq<BlockIndex?>, tip: BlockIndex, k: int)
    requires Linked(tip) && 0 <= k < |v|
  {
    k <= tip.nHeight && v[k] == Ancestor(tip, k)
  }

  ghost predicate IsPath(v: seq<BlockIndex?>, tip: BlockIndex?) {
    && tip != null && Linked(tip) && |v| == tip.nHeight + 1
    && forall k {:trigger PathAt(v, tip, k)} :: 0 <= k < |v| ==> PathAt(v, tip, k)
  }

  function Resized(v: seq<BlockIndex?>, n: nat): (r: seq<BlockIndex?>)
    ensures |r| == n
  {
    seq(n, k requires 0 <= k => if k < |v| then v[k] else null)
  }

  /** Below a block that was in place, the old entries are right. */
  lemma OldPath(was: seq<BlockIndex?>, tip: BlockIndex, h: nat, k: nat)
    requires Linked(tip) && h <= tip.nHeight && k <= h < |was| && IsPath(was, was[|was| - 1])
        && was[h] == Ancestor(tip, h)
    ensures was[k] == Ancestor(tip, k)
  {
    var old' := was[|was| - 1];
    assert PathAt(was, old', h) && PathAt(was, old', k);
    AncestorTwice(old', h, k);
    AncestorTwice(tip, h, k);
  }
}
