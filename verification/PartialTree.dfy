/** What a partial Merkle tree of src/merkleblock.h is, apart from any traversal, and that
    ExtractMatches accepts exactly the messages that carry one. */
module PartialTree {
  import opened MerkleTree
  import opened PartialMerkle

  /** A Merkle tree with subtrees cut off down to their hashes, and some of its transactions matched. */
  datatype Part = Cut(hash: Hash) | Tx(hash: Hash, matched: bool) | Only(child: Part) | Halves(left: Part, right: Part)

  ghost predicate IsPartOf(p: Part, t: Shape) {
    match (p, t)
    case (Cut(_), _) => !t.Leaf?
    case (Tx(_, _), Leaf(_)) => true
    case (Only(c), One(d)) => IsPartOf(c, d)
    case (Halves(l, r), Two(l', r')) => IsPartOf(l, l') && IsPartOf(r, r')
    case _ => false
  }

  function PartHash(node: Node, p: Part): Hash {
    match p
    case Cut(h) => h
    case Tx(h, _) => h
    case Only(c) => node(PartHash(node, c), PartHash(node, c))
    case Halves(l, r) => node(PartHash(node, l), PartHash(node, r))
  }

  /** A bit for each node, set for a matched transaction and above subtrees that are there, and a hash
      for each node without anything below it, both depth first. */
  function CodeOf(p: Part): (code: Code)
    ensures |code.bits| > 0
  {
    match p
    case Cut(h) => Code([false], [h])
    case Tx(h, matched) => Code([matched], [h])
    case Only(c) => Code([true] + CodeOf(c).bits, CodeOf(c).hashes)
    case Halves(l, r) => Code([true] + CodeOf(l).bits + CodeOf(r).bits, CodeOf(l).hashes + CodeOf(r).hashes)
  }

  function Found(p: Part, t: Shape): seq<Match>
    requires IsPartOf(p, t)
  {
    match p
    case Cut(_) => []
    case Tx(h, matched) => if matched then [Match(h, t.index)] else []
    case Only(c) => Found(c, t.child)
    case Halves(l, r) => Found(l, t.left) + Found(r, t.right)
  }

  /** No two halves of one node have the same hash. */
  ghost predicate NoTwins(node: Node, p: Part) {
    match p
    case Only(c) => NoTwins(node, c)
    case Halves(l, r) => NoTwins(node, l) && NoTwins(node, r) && PartHash(node, l) != PartHash(node, r)
    case _ => true
  }

  lemma {:induction false} PartSmall(p: Part, t: Shape)
    requires IsPartOf(p, t) && t.Ordered()
    ensures |CodeOf(p).hashes| <= |CodeOf(p).bits| && |CodeOf(p).hashes| <= t.After() - t.First()
  {
    HasLeaves(t);
    match p
    case Only(c) => PartSmall(c, t.child);
    case Halves(l, r) =>
      PartSmall(l, t.left);
      PartSmall(r, t.right);
    case _ =>
  }

  // ----- Reading -----

  /** Where the walk over a part ends. */
  ghost function WalkOf(node: Node, p: Part, t: Shape, b: nat, k: nat): Walk
    requires IsPartOf(p, t)
  {
    Walk(PartHash(node, p), b + |CodeOf(p).bits|, k + |CodeOf(p).hashes|, Found(p, t), !NoTwins(node, p))
  }

  lemma AtOne(code: Code, part: Code, b: nat, k: nat, bit: bool, hash: Hash)
    requires part == Code([bit], [hash])
    ensures At(code, part, b, k) <==>
      b < |code.bits| && code.bits[b] == bit && k < |code.hashes| && code.hashes[k] == hash
  {
    assert BitAt(code, part, b, 0) <==> b < |code.bits| && code.bits[b] == bit;
    assert HashAt(code, part, k, 0) <==> k < |code.hashes| && code.hashes[k] == hash;
    if BitAt(code, part, b, 0) && HashAt(code, part, k, 0) {
      forall i ensures BitAt(code, part, b, i) && HashAt(code, part, k, i) {
      }
    }
  }

  /** Joining what AtLeft and AtBoth take apart. */
  lemma AtJoin(code: Code, left: Code, right: Code, b: nat, k: nat)
    requires b < |code.bits| && code.bits[b]
    requires At(code, left, b + 1, k) && At(code, right, b + 1 + |left.bits|, k + |left.hashes|)
    ensures At(code, Code([true] + left.bits + right.bits, left.hashes + right.hashes), b, k)
  {
    var both := Code([true] + left.bits + right.bits, left.hashes + right.hashes);
    var b1, b2, k2 := b + 1, b + 1 + |left.bits|, k + |left.hashes|;
    forall i ensures BitAt(code, both, b, i) {
      assert BitAt(code, left, b1, i - 1) && BitAt(code, right, b2, i - 1 - |left.bits|);
    }
    forall i ensures HashAt(code, both, k, i) {
      assert HashAt(code, left, k, i) && HashAt(code, right, k2, i - |left.hashes|);
    }
  }

  /** A traversal reads any part it is given. */
  lemma {:induction false} Reads(node: Node, code: Code, p: Part, t: Shape, b: nat, k: nat)
    requires IsPartOf(p, t) && At(code, CodeOf(p), b, k)
    ensures Extract(node, code, t, b, k) == WalkOf(node, p, t, b, k)
    decreases p
  {
    match p
    case Cut(h) => AtOne(code, CodeOf(p), b, k, false, h);
    case Tx(h, matched) => AtOne(code, CodeOf(p), b, k, matched, h);
    case Only(c) =>
      AtLeft(code, true, CodeOf(c), b, k);
      Reads(node, code, c, t.child, b + 1, k);
    case Halves(l, r) => ReadsHalves(node, code, l, r, t.left, t.right, b, k);
  }

  lemma {:induction false} ReadsHalves(node: Node, code: Code, l: Part, r: Part, tl: Shape, tr: Shape, b: nat, k: nat)
    requires IsPartOf(l, tl) && IsPartOf(r, tr) && At(code, CodeOf(Halves(l, r)), b, k)
    ensures Extract(node, code, Two(tl, tr), b, k) == WalkOf(node, Halves(l, r), Two(tl, tr), b, k)
    decreases Halves(l, r), 0
  {
    var nb, nk := HalvesAt(code, l, r, b, k);
    Reads(node, code, l, tl, b + 1, k);
    Reads(node, code, r, tr, nb, nk);
    HalvesRead(node, code, l, r, tl, tr, b, k, nb, nk);
  }

  lemma HalvesAt(code: Code, l: Part, r: Part, b: nat, k: nat) returns (nb: nat, nk: nat)
    requires At(code, CodeOf(Halves(l, r)), b, k)
    ensures b < |code.bits| && code.bits[b]
    ensures nb == b + 1 + |CodeOf(l).bits| && nk == k + |CodeOf(l).hashes|
    ensures At(code, CodeOf(l), b + 1, k) && At(code, CodeOf(r), nb, nk)
  {
    var left := CodeOf(l);
    AtBoth(code, true, left, CodeOf(r), b, k);
    AtLeft(code, true, left, b, k);
    nb, nk := b + 1 + |left.bits|, k + |left.hashes|;
  }

  lemma HalvesRead(node: Node, code: Code, l: Part, r: Part, tl: Shape, tr: Shape, b: nat, k: nat, nb: nat, nk: nat)
    requires IsPartOf(l, tl) && IsPartOf(r, tr) && b < |code.bits| && code.bits[b]
    requires nb == b + 1 + |CodeOf(l).bits| && nk == k + |CodeOf(l).hashes|
    requires Extract(node, code, tl, b + 1, k) == WalkOf(node, l, tl, b + 1, k)
    requires Extract(node, code, tr, nb, nk) == WalkOf(node, r, tr, nb, nk)
    ensures Extract(node, code, Two(tl, tr), b, k) == WalkOf(node, Halves(l, r), Two(tl, tr), b, k)
  {
    ExtractTwo(node, code, tl, tr, b, k);
  }

  /** A traversal that is not spoilt has read a part without twins. */
  lemma {:induction false} WasRead(node: Node, code: Code, t: Shape, b: nat, k: nat) returns (p: Part)
    requires !Extract(node, code, t, b, k).bad
    ensures IsPartOf(p, t) && NoTwins(node, p) && At(code, CodeOf(p), b, k)
    decreases t
  {
    if t.Leaf? {
      p := Tx(code.hashes[k], code.bits[b]);
      AtOne(code, CodeOf(p), b, k, code.bits[b], code.hashes[k]);
    } else if !code.bits[b] {
      p := Cut(code.hashes[k]);
      AtOne(code, CodeOf(p), b, k, false, code.hashes[k]);
    } else if t.One? {
      var c := WasRead(node, code, t.child, b + 1, k);
      p := Only(c);
      AtOnly(code, CodeOf(c), b, k);
    } else {
      p := PairWasRead(node, code, t.left, t.right, b, k);
    }
  }

  lemma {:induction false} PairWasRead(node: Node, code: Code, tl: Shape, tr: Shape, b: nat, k: nat) returns (p: Part)
    requires b < |code.bits| && code.bits[b] && !Extract(node, code, Two(tl, tr), b, k).bad
    ensures IsPartOf(p, Two(tl, tr)) && NoTwins(node, p) && At(code, CodeOf(p), b, k)
    decreases Two(tl, tr), 0
  {
    ExtractTwo(node, code, tl, tr, b, k);
    var l := WasRead(node, code, tl, b + 1, k);
    Reads(node, code, l, tl, b + 1, k);
    var walk := WalkOf(node, l, tl, b + 1, k);
    var r := WasRead(node, code, tr, walk.bits, walk.hashes);
    Reads(node, code, r, tr, walk.bits, walk.hashes);
    p := Halves(l, r);
    AtJoin(code, CodeOf(l), CodeOf(r), b, k);
  }

  lemma AtOnly(code: Code, only: Code, b: nat, k: nat)
    requires b < |code.bits| && code.bits[b] && At(code, only, b + 1, k)
    ensures At(code, Code([true] + only.bits, only.hashes), b, k)
  {
    var part, b1 := Code([true] + only.bits, only.hashes), b + 1;
    forall i ensures BitAt(code, part, b, i) {
      assert BitAt(code, only, b1, i - 1);
    }
    forall i ensures HashAt(code, part, k, i) {
      assert HashAt(code, only, k, i);
    }
  }

  // ----- What is accepted -----

  /** The message for n transactions is the code of p, its bits filled up to whole bytes in any way. */
  ghost predicate Carries(node: Node, n: nat, code: Code, maxTransactions: nat, p: Part) {
    && 0 < n <= maxTransactions && IsPartOf(p, TreeOf(n)) && NoTwins(node, p) && PartHash(node, p) != 0
    && code.hashes == CodeOf(p).hashes && CodeOf(p).bits <= code.bits
    && (|CodeOf(p).bits| + 7) / 8 == (|code.bits| + 7) / 8
  }

  /** From a message that carries a part, its root and its matches are extracted. */
  lemma CarriedIs(node: Node, n: nat, code: Code, maxTransactions: nat, p: Part)
    requires Carries(node, n, code, maxTransactions, p)
    ensures Extracted(node, n, code, maxTransactions) == Extraction(PartHash(node, p), Found(p, TreeOf(n)))
  {
    var part := CodeOf(p);
    forall i ensures BitAt(code, part, 0, i) && HashAt(code, part, 0, i) {
    }
    TreeOk(n);
    PartSmall(p, TreeOf(n));
    Reads(node, code, p, TreeOf(n), 0, 0);
  }

  /** ExtractMatches gives a root if and only if the message carries a part of a tree of n transactions. */
  lemma AcceptedIff(node: Node, n: nat, code: Code, maxTransactions: nat)
    ensures Extracted(node, n, code, maxTransactions).root != 0 <==>
      exists p :: Carries(node, n, code, maxTransactions, p)
  {
    if Extracted(node, n, code, maxTransactions).root != 0 {
      var p := WasRead(node, code, TreeOf(n), 0, 0);
      Reads(node, code, p, TreeOf(n), 0, 0);
      var part := CodeOf(p);
      forall i | 0 <= i < |part.bits| ensures i < |code.bits| && part.bits[i] == code.bits[i] {
        assert BitAt(code, part, 0, i);
      }
      forall i | 0 <= i < |part.hashes| ensures i < |code.hashes| && part.hashes[i] == code.hashes[i] {
        assert HashAt(code, part, 0, i);
      }
      assert BitAt(code, part, 0, |part.bits| - 1);
      assert Carries(node, n, code, maxTransactions, p);
    }
    if p :| Carries(node, n, code, maxTransactions, p) {
      CarriedIs(node, n, code, maxTransactions, p);
    }
  }
}
