/** Merkle trees and their partial encoding, as in src/merkleblock.cpp: what TraverseAndBuild writes
    and TraverseAndExtract reads. */
module MerkleTree {
  import opened Bytes
  import opened Integers

  /** A 256-bit hash; 0 is the null hash. */
  type Hash = nat

  /** The hash of an inner node from those of its children. */
  type Node = (Hash, Hash) -> Hash

  ghost predicate NoCollision(node: Node, a: Hash, b: Hash, c: Hash, d: Hash) {
    node(a, b) == node(c, d) ==> a == c && b == d
  }

  ghost predicate CollisionFree(node: Node) {
    forall a, b, c, d {:trigger NoCollision(node, a, b, c, d)} :: NoCollision(node, a, b, c, d)
  }

  ghost predicate Differ(txids: seq<Hash>, i: int, j: int) {
    0 <= i < j < |txids| ==> txids[i] != txids[j]
  }

  ghost predicate Distinct(txids: seq<Hash>) {
    forall i, j {:trigger Differ(txids, i, j)} :: Differ(txids, i, j)
  }

  // ----- Shapes -----

  /** The part of a Merkle tree under one node; the odd node at the end of a level is an only child. */
  datatype Shape = Leaf(index: nat) | One(child: Shape) | Two(left: Shape, right: Shape) {
    /** The leaves are numbered First() up to but not including After(). */
    function First(): nat {
      match this
      case Leaf(i) => i
      case One(c) => c.First()
      case Two(l, _) => l.First()
    }

    function After(): nat {
      match this
      case Leaf(i) => i + 1
      case One(c) => c.After()
      case Two(_, r) => r.After()
    }

    ghost predicate Ordered() {
      match this
      case Leaf(_) => true
      case One(c) => c.Ordered()
      case Two(l, r) => l.Ordered() && r.Ordered() && l.After() == r.First()
    }

    /** All leaves are h levels down. */
    ghost predicate Balanced(h: nat) {
      match this
      case Leaf(_) => h == 0
      case One(c) => h > 0 && c.Balanced(h - 1)
      case Two(l, r) => h > 0 && l.Balanced(h - 1) && r.Balanced(h - 1)
    }

    ghost predicate Fits(n: nat) {
      Ordered() && After() <= n
    }
  }

  lemma {:induction false} HasLeaves(t: Shape)
    requires t.Ordered()
    ensures t.First() < t.After()
  {
    match t
    case Leaf(_) =>
    case One(c) => HasLeaves(c);
    case Two(l, r) =>
      HasLeaves(l);
      HasLeaves(r);
  }

  /** The number of nodes at a height. */
  function Width(n: nat, h: nat): nat {
    if h == 0 then n else (Width(n, h - 1) + 1) / 2
  }

  /** The shape under node `pos` of level h in a tree of n leaves. */
  function ShapeOf(n: nat, h: nat, pos: nat): Shape
    requires pos < Width(n, h)
  {
    if h == 0 then Leaf(pos)
    else if 2 * pos + 1 < Width(n, h - 1) then Two(ShapeOf(n, h - 1, 2 * pos), ShapeOf(n, h - 1, 2 * pos + 1))
    else One(ShapeOf(n, h - 1, 2 * pos))
  }

  /** The leaves of neighbouring nodes are adjacent. */
  lemma {:induction false} Adjacent(n: nat, h: nat, pos: nat)
    requires pos + 1 < Width(n, h)
    ensures ShapeOf(n, h, pos).After() == ShapeOf(n, h, pos + 1).First()
  {
    if h > 0 {
      Adjacent(n, h - 1, 2 * pos + 1);
    }
  }

  lemma {:induction false} LastNode(n: nat, h: nat)
    requires n > 0
    ensures Width(n, h) > 0 && ShapeOf(n, h, Width(n, h) - 1).After() == n
  {
    if h > 0 {
      LastNode(n, h - 1);
    }
  }

  lemma {:induction false} ShapeOk(n: nat, h: nat, pos: nat)
    requires pos < Width(n, h)
    ensures var t := ShapeOf(n, h, pos); t.Fits(n) && t.Balanced(h)
  {
    if h > 0 {
      ShapeOk(n, h - 1, 2 * pos);
      if 2 * pos + 1 < Width(n, h - 1) {
        ShapeOk(n, h - 1, 2 * pos + 1);
        Adjacent(n, h - 1, 2 * pos);
      }
    }
  }

  /** The least height from h on with a single node. */
  function HeightFrom(n: nat, h: nat): (top: nat)
    requires Width(n, h) > 0
    ensures Width(n, top) == 1 && top >= h && (top > h ==> Width(n, top - 1) > 1)
    decreases Width(n, h)
  {
    if Width(n, h) > 1 then HeightFrom(n, h + 1) else h
  }

  function Height(n: nat): (h: nat)
    requires n > 0
    ensures Width(n, h) == 1 && (h > 0 ==> Width(n, h - 1) > 1)
  {
    HeightFrom(n, 0)
  }

  /** The whole tree. */
  function TreeOf(n: nat): Shape
    requires n > 0
  {
    ShapeOf(n, Height(n), 0)
  }

  lemma TreeOk(n: nat)
    requires n > 0
    ensures TreeOf(n).Fits(n) && TreeOf(n).Balanced(Height(n)) && TreeOf(n).First() == 0 && TreeOf(n).After() == n
  {
    ShapeOk(n, Height(n), 0);
    LastNode(n, Height(n));
    FirstIsShift(n, Height(n), 0);
  }

  // ----- Positions and widths by shifts, as the code computes them -----

  lemma HalfQuotient(a: nat, p: nat)
    requires p > 0
    ensures (a / p + 1) / 2 == (a + p) / (2 * p)
  {
    var q, r := a / p, a % p;
    assert a == q * p + r;
    var half := (q + 1) / 2;
    if q % 2 == 0 {
      assert q == 2 * half && a + p == half * (2 * p) + (r + p);
    } else {
      assert q + 1 == 2 * half && a + p == half * (2 * p) + r;
    }
    QuotientIs(a + p, 2 * p, half, a + p - half * (2 * p));
  }

  lemma HalfWidth(n: nat, p: nat, w: nat)
    requires p > 0 && w == (n + p - 1) / p
    ensures (w + 1) / 2 == (n + 2 * p - 1) / (2 * p)
  {
    HalfQuotient(n + p - 1, p);
  }

  /** CalcTreeWidth. */
  lemma {:induction false} WidthIsShift(n: nat, h: nat)
    ensures Width(n, h) == (n + Pow2(h) - 1) / Pow2(h)
  {
    if h > 0 {
      var p := Pow2(h - 1);
      WidthIsShift(n, h - 1);
      HalfWidth(n, p, Width(n, h - 1));
    }
  }

  lemma {:induction false} WidthCovers(n: nat, h: nat)
    ensures Width(n, h) * Pow2(h) >= n
  {
    if h > 0 {
      var w, p := Width(n, h - 1), Pow2(h - 1);
      WidthCovers(n, h - 1);
      Monotone(w, 2 * Width(n, h), p);
      Doubled(Width(n, h), p);
    }
  }

  lemma Doubled(a: nat, p: nat)
    ensures a * (2 * p) == (2 * a) * p
  {
  }

  lemma {:induction false} FirstIsShift(n: nat, h: nat, pos: nat)
    requires pos < Width(n, h)
    ensures ShapeOf(n, h, pos).First() == pos * Pow2(h)
  {
    if h > 0 {
      FirstIsShift(n, h - 1, 2 * pos);
      Doubled(pos, Pow2(h - 1));
    }
  }

  lemma AfterIsShift(n: nat, h: nat, pos: nat)
    requires pos < Width(n, h)
    ensures var end := (pos + 1) * Pow2(h); ShapeOf(n, h, pos).After() == if end < n then end else n
  {
    if pos + 1 < Width(n, h) {
      Adjacent(n, h, pos);
      FirstIsShift(n, h, pos + 1);
      ShapeOk(n, h, pos + 1);
      HasLeaves(ShapeOf(n, h, pos + 1));
    } else {
      ShapeOk(n, h, pos);
      HasLeaves(ShapeOf(n, h, pos));
      LastNode(n, h);
      WidthCovers(n, h);
    }
  }

  // ----- Node hashes -----

  /** An only child is paired with itself. */
  function HashOf(node: Node, txids: seq<Hash>, t: Shape): Hash
    requires t.Fits(|txids|)
  {
    match t
    case Leaf(i) => txids[i]
    case One(c) => node(HashOf(node, txids, c), HashOf(node, txids, c))
    case Two(l, r) =>
      HasLeaves(r);
      node(HashOf(node, txids, l), HashOf(node, txids, r))
  }

  function Root(node: Node, txids: seq<Hash>): Hash
    requires txids != []
  {
    TreeOk(|txids|);
    HashOf(node, txids, TreeOf(|txids|))
  }

  /** Subtrees of one level with different first leaves have different hashes. */
  lemma {:induction false} HashesDiffer(node: Node, txids: seq<Hash>, h: nat, t: Shape, u: Shape)
    requires CollisionFree(node) && t.Fits(|txids|) && u.Fits(|txids|) && t.Balanced(h) && u.Balanced(h)
    ensures t.First() < |txids| && u.First() < |txids|
    ensures HashOf(node, txids, t) == HashOf(node, txids, u) ==> txids[t.First()] == txids[u.First()]
  {
    if h > 0 {
      var tl, ul := if t.One? then t.child else t.left, if u.One? then u.child else u.left;
      var tr, ur := if t.One? then t.child else t.right, if u.One? then u.child else u.right;
      if t.Two? {
        HasLeaves(t.right);
      }
      if u.Two? {
        HasLeaves(u.right);
      }
      HashesDiffer(node, txids, h - 1, tl, ul);
      assert NoCollision(node, HashOf(node, txids, tl), HashOf(node, txids, tr), HashOf(node, txids, ul),
        HashOf(node, txids, ur));
    }
  }

  // ----- Matches -----

  datatype Match = Match(txid: Hash, index: nat)

  /** The matched transactions among leaves lo up to hi, in order. */
  function MatchesIn(txids: seq<Hash>, mask: seq<bool>, lo: nat, hi: nat): seq<Match>
    requires lo <= hi <= |txids| == |mask|
  {
    if lo == hi then []
    else MatchesIn(txids, mask, lo, hi - 1) + if mask[hi - 1] then [Match(txids[hi - 1], hi - 1)] else []
  }

  lemma {:induction false} MatchesSplit(txids: seq<Hash>, mask: seq<bool>, lo: nat, mid: nat, hi: nat)
    requires lo <= mid <= hi <= |txids| == |mask|
    ensures MatchesIn(txids, mask, lo, hi) == MatchesIn(txids, mask, lo, mid) + MatchesIn(txids, mask, mid, hi)
    decreases hi
  {
    if mid < hi {
      MatchesSplit(txids, mask, lo, mid, hi - 1);
    }
  }

  function Under(txids: seq<Hash>, mask: seq<bool>, t: Shape): seq<Match>
    requires t.Fits(|txids|) && |mask| == |txids|
  {
    HasLeaves(t);
    MatchesIn(txids, mask, t.First(), t.After())
  }

  lemma UnderSplit(txids: seq<Hash>, mask: seq<bool>, l: Shape, r: Shape)
    requires Two(l, r).Fits(|txids|) && |mask| == |txids|
    ensures l.Fits(|txids|) && r.Fits(|txids|)
    ensures Under(txids, mask, Two(l, r)) == Under(txids, mask, l) + Under(txids, mask, r)
  {
    HasLeaves(l);
    HasLeaves(r);
    MatchesSplit(txids, mask, l.First(), l.After(), r.After());
  }

  // ----- Building -----

  datatype Code = Code(bits: seq<bool>, hashes: seq<Hash>)

  /** What TraverseAndBuild appends for a subtree. */
  function Build(node: Node, txids: seq<Hash>, mask: seq<bool>, t: Shape): Code
    requires t.Fits(|txids|) && |mask| == |txids|
  {
    var some := Under(txids, mask, t) != [];
    if t.Leaf? || !some then Code([some], [HashOf(node, txids, t)])
    else if t.One? then
      var only := Build(node, txids, mask, t.child);
      Code([some] + only.bits, only.hashes)
    else
      HasLeaves(t.right);
      var left := Build(node, txids, mask, t.left);
      var right := Build(node, txids, mask, t.right);
      Code([some] + left.bits + right.bits, left.hashes + right.hashes)
  }

  /** At most one hash per leaf, and one per bit. */
  lemma {:induction false} BuildSmall(node: Node, txids: seq<Hash>, mask: seq<bool>, t: Shape)
    requires t.Fits(|txids|) && |mask| == |txids|
    ensures var code := Build(node, txids, mask, t);
            |code.hashes| <= |code.bits| && |code.hashes| <= t.After() - t.First()
  {
    HasLeaves(t);
    if Under(txids, mask, t) != [] {
      match t
      case Leaf(_) =>
      case One(c) => BuildSmall(node, txids, mask, c);
      case Two(l, r) =>
        HasLeaves(r);
        BuildSmall(node, txids, mask, l);
        BuildSmall(node, txids, mask, r);
    }
  }

  /** How often TraverseAndBuild descends into an only child. */
  function OnlyChildren(txids: seq<Hash>, mask: seq<bool>, t: Shape): nat
    requires t.Fits(|txids|) && |mask| == |txids|
  {
    if Under(txids, mask, t) == [] then 0
    else
      match t
      case Leaf(_) => 0
      case One(c) => 1 + OnlyChildren(txids, mask, c)
      case Two(l, r) =>
        HasLeaves(r);
        OnlyChildren(txids, mask, l) + OnlyChildren(txids, mask, r)
  }

  /** Two bits a hash, less one, and one more for each only child: so the documented bound of 2N - 1
      bits for N hashes holds if and only if there is none. */
  lemma {:induction false} BuildBits(node: Node, txids: seq<Hash>, mask: seq<bool>, t: Shape)
    requires t.Fits(|txids|) && |mask| == |txids|
    ensures var code := Build(node, txids, mask, t);
            && |code.bits| == 2 * |code.hashes| - 1 + OnlyChildren(txids, mask, t)
            && (|code.bits| <= 2 * |code.hashes| - 1 <==> OnlyChildren(txids, mask, t) == 0)
  {
    if Under(txids, mask, t) != [] {
      match t
      case Leaf(_) =>
      case One(c) => BuildBits(node, txids, mask, c);
      case Two(l, r) =>
        HasLeaves(r);
        BuildBits(node, txids, mask, l);
        BuildBits(node, txids, mask, r);
    }
  }

  lemma PathBound(l: nat, r: nat, h: nat)
    requires l + r > 0 && h > 0
    ensures 1 + l * (h - 1) + 1 + r * (h - 1) <= 1 + (l + r) * h
    ensures r == 0 ==> 1 + l * (h - 1) <= 1 + l * h
  {
    assert (l + r) * h == l * (h - 1) + r * (h - 1) + (l + r);
  }

  /** At most one path of sibling hashes per match. */
  lemma {:induction false} BuildPaths(node: Node, txids: seq<Hash>, mask: seq<bool>, t: Shape, h: nat)
    requires t.Fits(|txids|) && |mask| == |txids| && t.Balanced(h)
    ensures |Build(node, txids, mask, t).hashes| <= 1 + |Under(txids, mask, t)| * h
  {
    if Under(txids, mask, t) != [] {
      match t
      case Leaf(_) =>
      case One(c) =>
        BuildPaths(node, txids, mask, c, h - 1);
        PathBound(|Under(txids, mask, c)|, 0, h);
      case Two(l, r) =>
        UnderSplit(txids, mask, l, r);
        BuildPaths(node, txids, mask, l, h - 1);
        BuildPaths(node, txids, mask, r, h - 1);
        PathBound(|Under(txids, mask, l)|, |Under(txids, mask, r)|, h);
    }
  }

  // ----- Extracting -----

  /** Where a traversal ends: the node's hash, the bits and hashes consumed so far, the matches found. */
  datatype Walk = Walk(hash: Hash, bits: nat, hashes: nat, matches: seq<Match>, bad: bool)

  /** What TraverseAndExtract does for a subtree, from the b-th bit and the k-th hash on. */
  function Extract(node: Node, code: Code, t: Shape, b: nat, k: nat): Walk {
    if b >= |code.bits| then Walk(0, b, k, [], true)
    else if t.Leaf? || !code.bits[b] then
      if k >= |code.hashes| then Walk(0, b + 1, k, [], true)
      else Walk(code.hashes[k], b + 1, k + 1, if t.Leaf?
          && code.bits[b] then [Match(code.hashes[k], t.index)] else [], false)
    else if t.One? then
      var only := Extract(node, code, t.child, b + 1, k);
      only.(hash := node(only.hash, only.hash))
    else
      var left := Extract(node, code, t.left, b + 1, k);
      Pair(node, left, Extract(node, code, t.right, left.bits, left.hashes))
  }

  /** Two subtrees: the branches must never be identical. */
  function Pair(node: Node, left: Walk, right: Walk): Walk {
    Walk(node(left.hash, right.hash), right.bits, right.hashes, left.matches + right.matches,
         left.bad || right.bad || right.hash == left.hash)
  }

  /** The i-th pair really occurs among leaves lo up to hi. */
  ghost predicate OccursAt(txids: seq<Hash>, matches: seq<Match>, lo: nat, hi: nat, i: int) {
    0 <= i < |matches| ==>
      var m := matches[i]; lo <= m.index < hi && hi <= |txids| && txids[m.index] == m.txid
  }

  ghost predicate InOrder(matches: seq<Match>, i: int, j: int) {
    0 <= i < j < |matches| ==> matches[i].index < matches[j].index
  }

  /** Pairs that really occur among leaves lo up to hi, each once and in order. */
  ghost predicate Genuine(txids: seq<Hash>, matches: seq<Match>, lo: nat, hi: nat) {
    && (forall i {:trigger OccursAt(txids, matches, lo, hi, i)} :: OccursAt(txids, matches, lo, hi, i))
    && (forall i, j {:trigger InOrder(matches, i, j)} :: InOrder(matches, i, j))
  }

  lemma GenuineJoin(txids: seq<Hash>, a: seq<Match>, b: seq<Match>, lo: nat, mid: nat, hi: nat)
    requires lo <= mid <= hi <= |txids| && Genuine(txids, a, lo, mid) && Genuine(txids, b, mid, hi)
    ensures Genuine(txids, a + b, lo, hi)
  {
    var both := a + b;
    forall i ensures OccursAt(txids, both, lo, hi, i) {
      assert OccursAt(txids, a, lo, mid, i) && OccursAt(txids, b, mid, hi, i - |a|);
    }
    forall i, j ensures InOrder(both, i, j) {
      assert InOrder(a, i, j) && InOrder(b, i - |a|, j - |a|);
      assert OccursAt(txids, a, lo, mid, i) && OccursAt(txids, b, mid, hi, j - |a|);
    }
  }

  /** Whatever the bits and hashes are, a traversal that arrives at the true hash of a node has
      found only genuine matches under it. */
  lemma {:induction false} ExtractSound(node: Node, txids: seq<Hash>, code: Code, t: Shape, b: nat, k: nat)
    requires CollisionFree(node) && t.Fits(|txids|)
    requires var walk := Extract(node, code, t, b, k); !walk.bad && walk.hash == HashOf(node, txids, t)
    ensures Genuine(txids, Extract(node, code, t, b, k).matches, t.First(), t.After())
  {
    HasLeaves(t);
    if !t.Leaf? && code.bits[b] {
      if t.One? {
        var only, whole := Extract(node, code, t.child, b + 1, k), HashOf(node, txids, t.child);
        assert NoCollision(node, only.hash, only.hash, whole, whole);
        ExtractSound(node, txids, code, t.child, b + 1, k);
      } else {
        HasLeaves(t.left);
        HasLeaves(t.right);
        var left := Extract(node, code, t.left, b + 1, k);
        var right := Extract(node, code, t.right, left.bits, left.hashes);
        assert NoCollision(node, left.hash, right.hash, HashOf(node, txids, t.left), HashOf(node, txids, t.right));
        ExtractSound(node, txids, code, t.left, b + 1, k);
        ExtractSound(node, txids, code, t.right, left.bits, left.hashes);
        GenuineJoin(txids, left.matches, right.matches, t.First(), t.left.After(), t.After());
      }
    }
  }

  /** Shapes with the same leaf numbers wherever both branch alike. */
  ghost predicate Alike(t: Shape, u: Shape) {
    match (t, u)
    case (Leaf(i), Leaf(j)) => i == j
    case (One(c), One(d)) => Alike(c, d)
    case (Two(l, r), Two(l', r')) => Alike(l, l') && Alike(r, r')
    case _ => !t.Leaf? && !u.Leaf?
  }

  lemma {:induction false} ShapesAlike(n: nat, m: nat, h: nat, pos: nat)
    requires pos < Width(n, h) && pos < Width(m, h)
    ensures Alike(ShapeOf(n, h, pos), ShapeOf(m, h, pos))
  {
    if h > 0 {
      ShapesAlike(n, m, h - 1, 2 * pos);
      if 2 * pos + 1 < Width(n, h - 1) && 2 * pos + 1 < Width(m, h - 1) {
        ShapesAlike(n, m, h - 1, 2 * pos + 1);
      }
    }
  }

  /** ExtractSound for a walk over the wrong shape: the two shapes agree along the walk, because
      identical branches spoil it. */
  lemma {:induction false} ExtractSoundAny(node: Node, txids: seq<Hash>, code: Code, t: Shape, u: Shape, h: nat, b: nat,
      k: nat)
    requires CollisionFree(node) && Distinct(txids) && Alike(t, u) && u.Fits(|txids|) && u.Balanced(h)
    requires var walk := Extract(node, code, t, b, k); !walk.bad && walk.hash == HashOf(node, txids, u)
    ensures Genuine(txids, Extract(node, code, t, b, k).matches, u.First(), u.After())
    decreases h, 1
  {
    HasLeaves(u);
    if h > 0 && code.bits[b] {
      SameArity(node, txids, code, t, u, h, b, k);
      if t.One? {
        ExtractSoundAny(node, txids, code, t.child, u.child, h - 1, b + 1, k);
      } else {
        SoundPair(node, txids, code, t.left, t.right, u.left, u.right, h, b, k);
        ExtractTwo(node, code, t.left, t.right, b, k);
      }
    }
  }

  lemma {:induction false} SoundPair(node: Node, txids: seq<Hash>, code: Code, l: Shape, r: Shape, ul: Shape, ur: Shape,
      h: nat, b: nat, k: nat)
    requires CollisionFree(node) && Distinct(txids) && Alike(l, ul) && Alike(r, ur) && h > 0
    requires Two(ul, ur).Fits(|txids|) && Two(ul, ur).Balanced(h) && ul.Fits(|txids|) && ur.Fits(|txids|)
    requires var left := Extract(node, code, l, b + 1, k); !left.bad && left.hash == HashOf(node, txids, ul)
    requires var left := Extract(node, code, l, b + 1, k);
             var right := Extract(node, code, r, left.bits, left.hashes);
             !right.bad && right.hash == HashOf(node, txids, ur)
    ensures var left := Extract(node, code, l, b + 1, k);
            var matches := left.matches + Extract(node, code, r, left.bits, left.hashes).matches;
            Genuine(txids, matches, ul.First(), ur.After())
    decreases h, 0
  {
    HasLeaves(ul);
    HasLeaves(ur);
    var left := Extract(node, code, l, b + 1, k);
    ExtractSoundAny(node, txids, code, l, ul, h - 1, b + 1, k);
    ExtractSoundAny(node, txids, code, r, ur, h - 1, left.bits, left.hashes);
    GenuineJoin(txids, left.matches, Extract(node, code, r, left.bits, left.hashes).matches, ul.First(), ul.After(),
      ur.After());
  }

  /** A walk that arrives at the true hash of a node meets a pair exactly where there is one, and
      arrives at the true hashes of the children. */
  lemma SameArity(node: Node, txids: seq<Hash>, code: Code, t: Shape, u: Shape, h: nat, b: nat, k: nat)
    requires CollisionFree(node) && Distinct(txids) && u.Fits(|txids|) && u.Balanced(h) && !t.Leaf? && !u.Leaf?
    requires b < |code.bits| && code.bits[b]
    requires var walk := Extract(node, code, t, b, k); !walk.bad && walk.hash == HashOf(node, txids, u)
    ensures t.Two? <==> u.Two?
    ensures t.One? ==> var only := Extract(node, code, t.child, b + 1, k);
                       !only.bad && only.hash == HashOf(node, txids, u.child)
    ensures t.Two? ==>
      var left := Extract(node, code, t.left, b + 1, k);
      var right := Extract(node, code, t.right, left.bits, left.hashes);
      && !left.bad && !right.bad && u.left.Fits(|txids|) && u.right.Fits(|txids|)
      && left.hash == HashOf(node, txids, u.left) && right.hash == HashOf(node, txids, u.right)
  {
    var left := Extract(node, code, if t.One? then t.child else t.left, b + 1, k);
    var right := if t.One? then left else Extract(node, code, t.right, left.bits, left.hashes);
    if u.Two? {
      HalvesDiffer(node, txids, u.left, u.right, h);
      assert NoCollision(node, left.hash, right.hash, HashOf(node, txids, u.left), HashOf(node, txids, u.right));
    } else {
      var only := HashOf(node, txids, u.child);
      assert NoCollision(node, left.hash, right.hash, only, only);
    }
  }

  ghost predicate BitAt(code: Code, part: Code, b: nat, i: int) {
    0 <= i < |part.bits| ==> b + i < |code.bits| && code.bits[b + i] == part.bits[i]
  }

  ghost predicate HashAt(code: Code, part: Code, k: nat, i: int) {
    0 <= i < |part.hashes| ==> k + i < |code.hashes| && code.hashes[k + i] == part.hashes[i]
  }

  /** The code of a node stands in a longer code at bit b and hash k. */
  ghost predicate At(code: Code, part: Code, b: nat, k: nat) {
    && (forall i {:trigger BitAt(code, part, b, i)} :: BitAt(code, part, b, i))
    && (forall i {:trigger HashAt(code, part, k, i)} :: HashAt(code, part, k, i))
  }

  lemma AtLeft(code: Code, some: bool, left: Code, b: nat, k: nat)
    requires At(code, Code([some] + left.bits, left.hashes), b, k)
    ensures b < |code.bits| && code.bits[b] == some && At(code, left, b + 1, k)
  {
    var part := Code([some] + left.bits, left.hashes);
    assert BitAt(code, part, b, 0);
    var b' := b + 1;
    forall i ensures BitAt(code, left, b', i) {
      assert BitAt(code, part, b, i + 1);
    }
    forall i ensures HashAt(code, left, k, i) {
      assert HashAt(code, part, k, i);
    }
  }

  lemma AtBoth(code: Code, some: bool, left: Code, right: Code, b: nat, k: nat)
    requires At(code, Code([some] + left.bits + right.bits, left.hashes + right.hashes), b, k)
    ensures At(code, Code([some] + left.bits, left.hashes), b, k)
        && At(code, right, b + 1 + |left.bits|, k + |left.hashes|)
  {
    var both := Code([some] + left.bits + right.bits, left.hashes + right.hashes);
    var head := Code([some] + left.bits, left.hashes);
    var b', k' := b + 1 + |left.bits|, k + |left.hashes|;
    forall i ensures BitAt(code, head, b, i) && BitAt(code, right, b', i) {
      assert BitAt(code, both, b, i) && BitAt(code, both, b, i + 1 + |left.bits|);
    }
    forall i ensures HashAt(code, head, k, i) && HashAt(code, right, k', i) {
      assert HashAt(code, both, k, i) && HashAt(code, both, k, i + |left.hashes|);
    }
  }

  /** What extracting a built subtree must give. */
  function Whole(node: Node, txids: seq<Hash>, mask: seq<bool>, t: Shape, b: nat, k: nat): Walk
    requires t.Fits(|txids|) && |mask| == |txids|
  {
    var part := Build(node, txids, mask, t);
    Walk(HashOf(node, txids, t), b + |part.bits|, k + |part.hashes|, Under(txids, mask, t), false)
  }

  lemma ExtractHash(node: Node, txids: seq<Hash>, mask: seq<bool>, code: Code, t: Shape, b: nat, k: nat)
    requires t.Fits(|txids|) && |mask| == |txids| && (t.Leaf? || Under(txids, mask, t) == [])
    requires At(code, Build(node, txids, mask, t), b, k)
    ensures Extract(node, code, t, b, k) == Whole(node, txids, mask, t, b, k)
  {
    var part := Build(node, txids, mask, t);
    assert BitAt(code, part, b, 0) && HashAt(code, part, k, 0);
    if t.Leaf? {
      assert MatchesIn(txids, mask, t.index, t.index) == [];
      assert Under(txids, mask, t) == if mask[t.index] then [Match(txids[t.index], t.index)] else [];
    }
  }

  lemma WholePair(node: Node, txids: seq<Hash>, mask: seq<bool>, l: Shape, r: Shape, b: nat, k: nat)
    requires Two(l, r).Fits(|txids|) && |mask| == |txids| && Under(txids, mask, Two(l, r)) != []
    requires l.Fits(|txids|) && r.Fits(|txids|) && HashOf(node, txids, l) != HashOf(node, txids, r)
    ensures var left := Whole(node, txids, mask, l, b + 1, k);
            Whole(node, txids, mask, Two(l, r), b, k) ==
                Pair(node, left, Whole(node, txids, mask, r, left.bits, left.hashes))
  {
    UnderSplit(txids, mask, l, r);
  }

  lemma WholeOnly(node: Node, txids: seq<Hash>, mask: seq<bool>, c: Shape, b: nat, k: nat)
    requires One(c).Fits(|txids|) && |mask| == |txids| && Under(txids, mask, One(c)) != []
    ensures var only := Whole(node, txids, mask, c, b + 1, k);
            Whole(node, txids, mask, One(c), b, k) == only.(hash := node(only.hash, only.hash))
  {
  }

  /** The halves of a tree with distinct leaves have different hashes. */
  lemma HalvesDiffer(node: Node, txids: seq<Hash>, l: Shape, r: Shape, h: nat)
    requires CollisionFree(node) && Distinct(txids) && Two(l, r).Fits(|txids|) && Two(l, r).Balanced(h)
    ensures l.Fits(|txids|) && r.Fits(|txids|) && HashOf(node, txids, l) != HashOf(node, txids, r)
  {
    HasLeaves(l);
    HasLeaves(r);
    HashesDiffer(node, txids, h - 1, l, r);
    assert Differ(txids, l.First(), r.First());
  }

  /** Extracting what was built gives back the hash and exactly the matches. */
  lemma {:induction false} ExtractBuild(node: Node, txids: seq<Hash>, mask: seq<bool>, code: Code, t: Shape, h: nat,
      b: nat, k: nat)
    requires CollisionFree(node) && Distinct(txids) && t.Fits(|txids|) && t.Balanced(h) && |mask| == |txids|
    requires At(code, Build(node, txids, mask, t), b, k)
    ensures Extract(node, code, t, b, k) == Whole(node, txids, mask, t, b, k)
    decreases t, 1
  {
    if t.Leaf? || Under(txids, mask, t) == [] {
      ExtractHash(node, txids, mask, code, t, b, k);
    } else if t.One? {
      ExtractOnly(node, txids, mask, code, t.child, h, b, k);
    } else {
      ExtractPair(node, txids, mask, code, t.left, t.right, h, b, k);
    }
  }

  lemma {:induction false} ExtractOnly(node: Node, txids: seq<Hash>, mask: seq<bool>, code: Code, c: Shape, h: nat,
      b: nat, k: nat)
    requires CollisionFree(node) && Distinct(txids) && One(c).Fits(|txids|) && One(c).Balanced(h) && |mask| == |txids|
    requires Under(txids, mask, One(c)) != [] && At(code, Build(node, txids, mask, One(c)), b, k)
    ensures Extract(node, code, One(c), b, k) == Whole(node, txids, mask, One(c), b, k)
    decreases One(c), 0
  {
    AtLeft(code, true, Build(node, txids, mask, c), b, k);
    ExtractBuild(node, txids, mask, code, c, h - 1, b + 1, k);
    WholeOnly(node, txids, mask, c, b, k);
  }

  lemma {:induction false} ExtractPair(node: Node, txids: seq<Hash>, mask: seq<bool>, code: Code, l: Shape, r: Shape,
      h: nat, b: nat, k: nat)
    requires CollisionFree(node) && Distinct(txids) && Two(l, r).Fits(|txids|) && Two(l, r).Balanced(h)
        && |mask| == |txids|
    requires Under(txids, mask, Two(l, r)) != [] && At(code, Build(node, txids, mask, Two(l, r)), b, k)
    ensures Extract(node, code, Two(l, r), b, k) == Whole(node, txids, mask, Two(l, r), b, k)
    decreases Two(l, r), 0
  {
    HalvesDiffer(node, txids, l, r, h);
    var nb, nk := PairParts(node, txids, mask, code, l, r, b, k);
    ExtractBuild(node, txids, mask, code, l, h - 1, b + 1, k);
    ExtractBuild(node, txids, mask, code, r, h - 1, nb, nk);
    PairedWalks(node, txids, mask, code, l, r, b, k, nb, nk);
  }

  /** Two subtrees extracted whole make a pair extracted whole. */
  lemma PairedWalks(node: Node, txids: seq<Hash>, mask: seq<bool>, code: Code, l: Shape, r: Shape, b: nat, k: nat,
                    nb: nat, nk: nat)
    requires Two(l, r).Fits(|txids|) && |mask| == |txids| && Under(txids, mask, Two(l, r)) != []
    requires l.Fits(|txids|) && r.Fits(|txids|) && HashOf(node, txids, l) != HashOf(node, txids, r)
    requires b < |code.bits| && code.bits[b]
    requires var left := Whole(node, txids, mask, l, b + 1, k);
             nb == left.bits && nk == left.hashes && Extract(node, code, l, b + 1, k) == left
    requires Extract(node, code, r, nb, nk) == Whole(node, txids, mask, r, nb, nk)
    ensures Extract(node, code, Two(l, r), b, k) == Whole(node, txids, mask, Two(l, r), b, k)
  {
    ExtractTwo(node, code, l, r, b, k);
    WholePair(node, txids, mask, l, r, b, k);
  }

  /** The code of a pair is a set bit and the codes of the two halves. */
  lemma PairParts(node: Node, txids: seq<Hash>, mask: seq<bool>, code: Code, l: Shape, r: Shape, b: nat, k: nat)
    returns (nb: nat, nk: nat)
    requires Two(l, r).Fits(|txids|) && l.Fits(|txids|) && r.Fits(|txids|) && |mask| == |txids|
    requires Under(txids, mask, Two(l, r)) != [] && At(code, Build(node, txids, mask, Two(l, r)), b, k)
    ensures b < |code.bits| && code.bits[b]
    ensures var left := Whole(node, txids, mask, l, b + 1, k); nb == left.bits && nk == left.hashes
    ensures At(code, Build(node, txids, mask, l), b + 1, k) && At(code, Build(node, txids, mask, r), nb, nk)
  {
    var left := Build(node, txids, mask, l);
    AtBoth(code, true, left, Build(node, txids, mask, r), b, k);
    AtLeft(code, true, left, b, k);
    nb, nk := b + 1 + |left.bits|, k + |left.hashes|;
  }

  lemma ExtractTwo(node: Node, code: Code, l: Shape, r: Shape, b: nat, k: nat)
    requires b < |code.bits| && code.bits[b]
    ensures var left := Extract(node, code, l, b + 1, k);
            Extract(node, code, Two(l, r), b, k) == Pair(node, left, Extract(node, code, r, left.bits, left.hashes))
  {
  }
}
