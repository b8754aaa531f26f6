/** CPartialMerkleTree of src/merkleblock.h: building, byte packing and extracting. */
module PartialMerkle {
  import opened Bytes
  import opened Integers
  import opened MerkleTree

  // ----- Flag bits in bytes -----

  /** The number with these bits, least significant first. */
  function ByteOf(bits: seq<bool>): nat {
    if bits == [] then 0 else (if bits[0] then 1 else 0) + 2 * ByteOf(bits[1..])
  }

  lemma {:induction false} BitOfByte(bits: seq<bool>, j: nat)
    ensures BitOf(ByteOf(bits), j) <==> j < |bits| && bits[j]
  {
    if bits == [] {
      ZeroBits(j);
    } else if j > 0 {
      BitOfByte(bits[1..], j - 1);
    }
  }

  lemma {:induction false} ByteAppend(bits: seq<bool>, b: bool)
    ensures ByteOf(bits + [b]) == if b then SetBit(ByteOf(bits), |bits|) else ByteOf(bits)
  {
    var longer := bits + [b];
    if bits == [] {
      assert longer[1..] == [];
    } else {
      assert longer[1..] == bits[1..] + [b];
      ByteAppend(bits[1..], b);
    }
  }

  /** The part of the first p bits that goes into byte i. */
  function Chunk(bits: seq<bool>, p: nat, i: nat): seq<bool>
    requires p <= |bits|
  {
    bits[Min(8 * i, p)..Min(8 * i + 8, p)]
  }

  /** Byte i of the first p bits. */
  function PackedByte(bits: seq<bool>, p: nat, i: nat): nat
    requires p <= |bits|
  {
    ByteOf(Chunk(bits, p, i))
  }

  function Packed(bits: seq<bool>): seq<nat> {
    seq((|bits| + 7) / 8, i requires 0 <= i => PackedByte(bits, |bits|, i))
  }

  function Unpacked(bytes: seq<nat>): seq<bool> {
    seq(8 * |bytes|, p requires 0 <= p < 8 * |bytes| => BitOf(bytes[p / 8], p % 8))
  }

  /** Packing and unpacking gives the bits back, padded with zeros to whole bytes. */
  lemma PackedUnpacked(bits: seq<bool>)
    ensures var again := Unpacked(Packed(bits));
            |again| == 8 * ((|bits| + 7) / 8) && again == bits + seq(|again| - |bits|, i => false)
  {
    var again := Unpacked(Packed(bits));
    forall p | 0 <= p < |again| ensures again[p] == (p < |bits| && bits[p]) {
      BitOfByte(Chunk(bits, |bits|, p / 8), p % 8);
    }
  }

  method Pack(vBits: seq<bool>) returns (vBytes: seq<nat>)
    ensures vBytes == Packed(vBits)
  {
    vBytes := seq((|vBits| + 7) / 8, i => 0);
    for p := 0 to |vBits|
      invariant |vBytes| == (|vBits| + 7) / 8
      invariant forall i {:trigger vBytes[i]} :: 0 <= i < |vBytes| ==> vBytes[i] == PackedByte(vBits, p, i)
    {
      ghost var was := vBytes;
      if vBits[p] {
        vBytes := vBytes[p / 8 := SetBit(vBytes[p / 8], p % 8)];
      }
      forall k | 0 <= k < |vBytes| ensures vBytes[k] == PackedByte(vBits, p + 1, k) {
        assert was[k] == PackedByte(vBits, p, k);
        PackNext(vBits, p, k);
      }
    }
  }

  lemma PackNext(bits: seq<bool>, p: nat, k: nat)
    requires p < |bits|
    ensures var was := PackedByte(bits, p, k);
            PackedByte(bits, p + 1, k) == if k == p / 8 && bits[p] then SetBit(was, p % 8) else was
  {
    NextChunk(bits, p, k);
    ByteAppend(Chunk(bits, p, k), bits[p]);
  }

  lemma NextChunk(bits: seq<bool>, p: nat, i: nat)
    requires p < |bits|
    ensures i == p / 8 ==> |Chunk(bits, p, i)| == p % 8 && Chunk(bits, p + 1, i) == Chunk(bits, p, i) + [bits[p]]
    ensures i != p / 8 ==> Chunk(bits, p + 1, i) == Chunk(bits, p, i)
  {
  }

  method Unpack(vBytes: seq<nat>) returns (vBits: seq<bool>)
    ensures vBits == Unpacked(vBytes)
  {
    vBits := [];
    for p := 0 to 8 * |vBytes|
      invariant vBits == Unpacked(vBytes)[..p]
    {
      vBits := vBits + [BitOf(vBytes[p / 8], p % 8)];
    }
  }

  // ----- What ExtractMatches accepts -----

  /** The ids and the indexes of matches. */
  function Txids(matches: seq<Match>): seq<Hash> {
    seq(|matches|, i requires 0 <= i < |matches| => matches[i].txid)
  }

  function Indexes(matches: seq<Match>): seq<nat> {
    seq(|matches|, i requires 0 <= i < |matches| => matches[i].index)
  }

  lemma MatchesJoin(ids: seq<Hash>, indexes: seq<nat>, a: seq<Match>, b: seq<Match>)
    ensures ids + Txids(a) + Txids(b) == ids + Txids(a + b)
    ensures indexes + Indexes(a) + Indexes(b) == indexes + Indexes(a + b)
  {
  }

  /** The root and matches that ExtractMatches gives for an unspoilt tree; root 0 is failure. */
  datatype Extraction = Extraction(root: Hash, matches: seq<Match>)

  function Extracted(node: Node, n: nat, code: Code, maxTransactions: nat): Extraction {
    if n == 0 || n > maxTransactions || |code.hashes| > n || |code.bits| < |code.hashes| then Extraction(0, [])
    else
      var walk := Extract(node, code, TreeOf(n), 0, 0);
      if walk.bad || (walk.bits + 7) / 8 != (|code.bits| + 7) / 8 || walk.hashes != |code.hashes|
      then Extraction(0, walk.matches)
      else Extraction(walk.hash, walk.matches)
  }

  /** With a collision-free node hash and the right transaction count, any bits and hashes from which
      the block's true root is extracted give only transactions of the block, each once, at their
      true positions and in order. */
  lemma Soundness(node: Node, txids: seq<Hash>, code: Code, maxTransactions: nat)
    requires CollisionFree(node) && txids != [] && Root(node, txids) != 0
    requires Extracted(node, |txids|, code, maxTransactions).root == Root(node, txids)
    ensures Genuine(txids, Extracted(node, |txids|, code, maxTransactions).matches, 0, |txids|)
  {
    TreeOk(|txids|);
    ExtractSound(node, txids, code, TreeOf(|txids|), 0, 0);
  }

  /** The same whatever transaction count is announced, as long as the tree has the same height: no
      match stands at a position the block does not have. */
  lemma SoundnessAnyCount(node: Node, txids: seq<Hash>, n: nat, code: Code, maxTransactions: nat)
    requires CollisionFree(node) && Distinct(txids) && txids != [] && Root(node, txids) != 0
    requires n > 0 && Height(n) == Height(|txids|)
    requires Extracted(node, n, code, maxTransactions).root == Root(node, txids)
    ensures Genuine(txids, Extracted(node, n, code, maxTransactions).matches, 0, |txids|)
  {
    TreeOk(|txids|);
    ShapesAlike(n, |txids|, Height(n), 0);
    ExtractSoundAny(node, txids, code, TreeOf(n), TreeOf(|txids|), Height(n), 0, 0);
  }

  /** With another height it fails: announced as a single transaction, the root itself is a match. */
  lemma HeightMatters(node: Node, txids: seq<Hash>, maxTransactions: nat)
    requires txids != [] && maxTransactions > 0
    ensures var root := Root(node, txids);
            && Extracted(node, 1, Code([true], [root]), maxTransactions) == Extraction(root, [Match(root, 0)])
            && (Genuine(txids, [Match(root, 0)], 0, |txids|) ==> txids[0] == root)
  {
    var root := Root(node, txids);
    assert Width(1, 0) == 1 && Height(1) == 0 && TreeOf(1) == Leaf(0);
    assert Extract(node, Code([true], [root]), Leaf(0), 0, 0) == Walk(root, 1, 1, [Match(root, 0)], false);
    if Genuine(txids, [Match(root, 0)], 0, |txids|) {
      assert OccursAt(txids, [Match(root, 0)], 0, |txids|, 0);
    }
  }

  /** Three transactions announced as four, with the last one doubled: no root, although the hashes lead
      to the true one. */
  lemma DoubledLast(node: Node, a: Hash, b: Hash, c: Hash, maxTransactions: nat)
    ensures var code := Code([true, false, true, false, true], [node(a, b), c, c]);
            && Extracted(node, 4, code, maxTransactions).root == 0
            && Extract(node, code, TreeOf(4), 0, 0).hash == Root(node, [a, b, c])
  {
    var code := Code([true, false, true, false, true], [node(a, b), c, c]);
    ThreeAndFour();
    var l, r := Two(Leaf(0), Leaf(1)), Two(Leaf(2), Leaf(3));
    assert Extract(node, code, l, 1, 0) == Walk(node(a, b), 2, 1, [], false);
    assert Extract(node, code, Leaf(2), 3, 1) == Walk(c, 4, 2, [], false);
    assert Extract(node, code, Leaf(3), 4, 2) == Walk(c, 5, 3, [Match(c, 3)], false);
    ExtractTwo(node, code, Leaf(2), Leaf(3), 2, 1);
    ExtractTwo(node, code, l, r, 0, 0);
    TreeOk(3);
    assert HashOf(node, [a, b, c], l) == node(a, b) && HashOf(node, [a, b, c], One(Leaf(2))) == node(c, c);
  }

  lemma ThreeAndFour()
    ensures TreeOf(3) == Two(Two(Leaf(0), Leaf(1)), One(Leaf(2)))
    ensures TreeOf(4) == Two(Two(Leaf(0), Leaf(1)), Two(Leaf(2), Leaf(3)))
  {
    assert Width(3, 0) == 3 && Width(3, 1) == 2 && Width(3, 2) == 1;
    assert Width(4, 0) == 4 && Width(4, 1) == 2 && Width(4, 2) == 1;
    assert Height(3) == 2 by {
      assert HeightFrom(3, 0) == HeightFrom(3, 1) == HeightFrom(3, 2);
    }
    assert Height(4) == 2 by {
      assert HeightFrom(4, 0) == HeightFrom(4, 1) == HeightFrom(4, 2);
    }
    assert ShapeOf(3, 1, 0) == Two(Leaf(0), Leaf(1)) && ShapeOf(3, 1, 1) == One(Leaf(2));
    assert ShapeOf(4, 1, 0) == Two(Leaf(0), Leaf(1)) && ShapeOf(4, 1, 1) == Two(Leaf(2), Leaf(3));
  }

  function Encoded(node: Node, txids: seq<Hash>, mask: seq<bool>): Code
    requires txids != [] && |mask| == |txids|
  {
    TreeOk(|txids|);
    Build(node, txids, mask, TreeOf(|txids|))
  }

  /** The third of three transactions: four bits for two hashes. */
  lemma BitsExceed(node: Node, txids: seq<Hash>)
    requires |txids| == 3
    ensures var code := Encoded(node, txids, [false, false, true]); |code.hashes| == 2 && |code.bits| == 4
  {
    var mask := [false, false, true];
    var pair, one := Two(Leaf(0), Leaf(1)), One(Leaf(2));
    ThreeAndFour();
    assert MatchesIn(txids, mask, 2, 3) != [];
    UnderSplit(txids, mask, pair, one);
    assert MatchesIn(txids, mask, 0, 2) == [] by {
      assert MatchesIn(txids, mask, 0, 1) == [];
    }
    assert |Build(node, txids, mask, pair).bits| == 1 && |Build(node, txids, mask, one).bits| == 2;
  }

  /** Building, packing the bits into bytes and extracting gives the root and exactly the matched
      transactions, and stores at most min(n, 1 + matched * height) hashes. */
  lemma RoundTrip(node: Node, txids: seq<Hash>, mask: seq<bool>, maxTransactions: nat)
    requires CollisionFree(node) && Distinct(txids) && 0 < |txids| <= maxTransactions && |mask| == |txids|
    ensures var n, code := |txids|, Encoded(node, txids, mask);
            var matches := MatchesIn(txids, mask, 0, n);
            && Extracted(node, n, Code(Unpacked(Packed(code.bits)), code.hashes), maxTransactions) ==
              Extraction(Root(node, txids), matches)
            && |code.hashes| <= n && |code.hashes| <= 1 + |matches| * Height(n)
  {
    var n, t := |txids|, TreeOf(|txids|);
    TreeOk(n);
    var code := Encoded(node, txids, mask);
    PackedUnpacked(code.bits);
    var sent := Code(Unpacked(Packed(code.bits)), code.hashes);
    forall i ensures BitAt(sent, code, 0, i) {
      if 0 <= i < |code.bits| {
        assert sent.bits[i] == code.bits[i];
      }
    }
    forall i ensures HashAt(sent, code, 0, i) {
    }
    ExtractBuild(node, txids, mask, sent, t, Height(n), 0, 0);
    BuildSmall(node, txids, mask, t);
    BuildPaths(node, txids, mask, t, Height(n));
  }

  // ----- The code itself -----

  /** CalcTreeWidth. */
  function CalcTreeWidth(n: nat, h: nat): (w: nat)
    ensures w == Width(n, h)
  {
    WidthIsShift(n, h);
    (n + Pow2(h) - 1) / Pow2(h)
  }

  /** CalcHash, by level and position. */
  function CalcHash(node: Node, txids: seq<Hash>, h: nat, pos: nat): (r: Hash)
    requires pos < Width(|txids|, h)
    ensures ShapeOf(|txids|, h, pos).Fits(|txids|) && r == HashOf(node, txids, ShapeOf(|txids|, h, pos))
  {
    ShapeOk(|txids|, h, pos);
    if h == 0 then txids[pos]
    else
      var left := CalcHash(node, txids, h - 1, 2 * pos);
      var right := if 2 * pos + 1 < CalcTreeWidth(|txids|, h - 1) then CalcHash(node, txids, h - 1, 2 * pos + 1)
        else left;
      node(left, right)
  }

  lemma Regroup<T>(a: seq<T>, b: seq<T>, c: seq<T>, d: seq<T>)
    ensures a + b + c + d == a + (b + c + d) && b + c + [] == b + c && [] + c + d == c + d && a + [] == a
  {
  }

  lemma ChildrenOf(n: nat, h: nat, pos: nat)
    requires h > 0 && pos < Width(n, h)
    ensures 2 * pos < Width(n, h - 1)
    ensures ShapeOf(n, h, pos) == if 2 * pos + 1 < Width(n, h - 1)
        then Two(ShapeOf(n, h - 1, 2 * pos), ShapeOf(n, h - 1, 2 * pos + 1))
                                  else One(ShapeOf(n, h - 1, 2 * pos))
  {
  }

  class PartialMerkleTree {
    const node: Node
    const maxTransactions: nat   // GetMaxBlockWeight() / MIN_TRANSACTION_WEIGHT
    var nTransactions: nat
    var vBits: seq<bool>
    var vHash: seq<Hash>
    var fBad: bool

    ghost function Stored(): Code
      reads this
    {
      Code(vBits, vHash)
    }

    constructor (node: Node, maxTransactions: nat, txids: seq<Hash>, mask: seq<bool>)
      requires txids != [] && |mask| == |txids|
      ensures nTransactions == |txids| && Stored() == Encoded(node, txids, mask) && !fBad
      ensures this.node == node && this.maxTransactions == maxTransactions
    {
      this.node, this.maxTransactions := node, maxTransactions;
      nTransactions, vBits, vHash, fBad := |txids|, [], [], false;
      new;
      var nHeight := CalcHeight();
      TraverseAndBuild(nHeight, 0, txids, mask, TreeOf(nTransactions));
    }

    /** Reading the serialised form. */
    constructor Read(node: Node, maxTransactions: nat, nTransactions: nat, vHash: seq<Hash>, vBytes: seq<nat>)
      ensures this.nTransactions == nTransactions && Stored() == Code(Unpacked(vBytes), vHash) && !fBad
      ensures this.node == node && this.maxTransactions == maxTransactions
    {
      this.node, this.maxTransactions := node, maxTransactions;
      this.nTransactions, this.vHash, fBad := nTransactions, vHash, false;
      new;
      vBits := Unpack(vBytes);
    }

    method CalcHeight() returns (nHeight: nat)
      requires nTransactions > 0
      ensures nHeight == Height(nTransactions)
    {
      nHeight := 0;
      while CalcTreeWidth(nTransactions, nHeight) > 1
        invariant Width(nTransactions, nHeight) > 0 && HeightFrom(nTransactions, nHeight) == Height(nTransactions)
        decreases Width(nTransactions, nHeight)
      {
        nHeight := nHeight + 1;
      }
    }

    /** Whether a leaf under the node is matched. */
    method ParentOfMatch(h: nat, pos: nat, txids: seq<Hash>, mask: seq<bool>) returns (some: bool)
      requires nTransactions == |txids| == |mask| && pos < Width(nTransactions, h)
      ensures ShapeOf(nTransactions, h, pos).Fits(nTransactions)
      ensures some <==> Under(txids, mask, ShapeOf(nTransactions, h, pos)) != []
    {
      ghost var t := ShapeOf(nTransactions, h, pos);
      ShapeOk(nTransactions, h, pos);
      FirstIsShift(nTransactions, h, pos);
      AfterIsShift(nTransactions, h, pos);
      HasLeaves(t);
      some := false;
      var p, end := pos * Pow2(h), (pos + 1) * Pow2(h);
      while p < end && p < nTransactions
        invariant t.First() <= p <= t.After()
        invariant some <==> MatchesIn(txids, mask, t.First(), p) != []
      {
        some := some || mask[p];
        p := p + 1;
      }
    }

    method TraverseAndBuild(h: nat, pos: nat, txids: seq<Hash>, mask: seq<bool>, ghost t: Shape)
      requires nTransactions == |txids| == |mask| && pos < Width(nTransactions, h)
          && t == ShapeOf(nTransactions, h, pos)
      modifies this`vBits, this`vHash
      ensures t.Fits(nTransactions)
      ensures vBits == old(vBits) + Build(node, txids, mask, t).bits
          && vHash == old(vHash) + Build(node, txids, mask, t).hashes
      decreases t
    {
      var some := ParentOfMatch(h, pos, txids, mask);
      vBits := vBits + [some];
      if h == 0 || !some {
        vHash := vHash + [CalcHash(node, txids, h, pos)];
      } else {
        ChildrenOf(nTransactions, h, pos);
        if 2 * pos + 1 < CalcTreeWidth(nTransactions, h - 1) {
          TraverseAndBuild(h - 1, 2 * pos, txids, mask, t.left);
          TraverseAndBuild(h - 1, 2 * pos + 1, txids, mask, t.right);
          ghost var l, r := Build(node, txids, mask, t.left), Build(node, txids, mask, t.right);
          Regroup(old(vBits), [some], l.bits, r.bits);
          Regroup(old(vHash), [], l.hashes, r.hashes);
        } else {
          TraverseAndBuild(h - 1, 2 * pos, txids, mask, t.child);
          Regroup(old(vBits), [some], Build(node, txids, mask, t.child).bits, []);
        }
      }
    }

    method TraverseAndExtract(h: nat, pos: nat, nBitsUsed: nat, nHashUsed: nat, vMatch: seq<Hash>, vnIndex: seq<nat>,
        ghost t: Shape)
      returns (hash: Hash, nBitsUsed': nat, nHashUsed': nat, vMatch': seq<Hash>, vnIndex': seq<nat>)
      requires pos < Width(nTransactions, h) && t == ShapeOf(nTransactions, h, pos)
      modifies this`fBad
      decreases t
      ensures var walk := Extract(node, Stored(), t, nBitsUsed, nHashUsed);
              && hash == walk.hash && nBitsUsed' == walk.bits && nHashUsed' == walk.hashes
              && vMatch' == vMatch + Txids(walk.matches) && vnIndex' == vnIndex + Indexes(walk.matches)
              && fBad == (old(fBad) || walk.bad)
    {
      hash, nBitsUsed', nHashUsed', vMatch', vnIndex' := 0, nBitsUsed, nHashUsed, vMatch, vnIndex;
      if nBitsUsed >= |vBits| {
        fBad := true;
        return;
      }
      var parentOfMatch := vBits[nBitsUsed];
      nBitsUsed' := nBitsUsed + 1;
      if h == 0 || !parentOfMatch {
        if nHashUsed >= |vHash| {
          fBad := true;
          return;
        }
        hash := vHash[nHashUsed];
        nHashUsed' := nHashUsed + 1;
        if h == 0 && parentOfMatch {
          vMatch', vnIndex' := vMatch' + [hash], vnIndex' + [pos];
        }
      } else {
        ChildrenOf(nTransactions, h, pos);
        var left, right;
        if 2 * pos + 1 < CalcTreeWidth(nTransactions, h - 1) {
          left, nBitsUsed', nHashUsed', vMatch', vnIndex' :=
            TraverseAndExtract(h - 1, 2 * pos, nBitsUsed', nHashUsed', vMatch', vnIndex', t.left);
          right, nBitsUsed', nHashUsed', vMatch', vnIndex' :=
            TraverseAndExtract(h - 1, 2 * pos + 1, nBitsUsed', nHashUsed', vMatch', vnIndex', t.right);
          ghost var l := Extract(node, Stored(), t.left, nBitsUsed + 1, nHashUsed);
          MatchesJoin(vMatch, vnIndex, l.matches, Extract(node, Stored(), t.right, l.bits, l.hashes).matches);
          if right == left {
            fBad := true;
          }
        } else {
          left, nBitsUsed', nHashUsed', vMatch', vnIndex' :=
            TraverseAndExtract(h - 1, 2 * pos, nBitsUsed', nHashUsed', vMatch', vnIndex', t.child);
          right := left;
        }
        hash := node(left, right);
      }
    }

    /** The matched ids are stored afresh and their indexes appended; a tree that is spoilt never has a root. */
    method ExtractMatches(given: seq<nat>) returns (root: Hash, vMatch: seq<Hash>, vnIndex: seq<nat>)
      modifies this`fBad
      ensures var e := Extracted(node, nTransactions, Stored(), maxTransactions);
              && root == (if old(fBad) then 0 else e.root)
              && vMatch == Txids(e.matches) && vnIndex == given + Indexes(e.matches)
      ensures old(fBad) ==> fBad
    {
      vMatch, vnIndex, root := [], given, 0;
      if nTransactions == 0 || nTransactions > maxTransactions || |vHash| > nTransactions || |vBits| < |vHash| {
        return;
      }
      var nHeight := CalcHeight();
      var hash, nBitsUsed, nHashUsed;
      hash, nBitsUsed, nHashUsed, vMatch, vnIndex :=
        TraverseAndExtract(nHeight, 0, 0, 0, vMatch, vnIndex, TreeOf(nTransactions));
      if fBad || (nBitsUsed + 7) / 8 != (|vBits| + 7) / 8 || nHashUsed != |vHash| {
        return;
      }
      root := hash;
    }
  }

  /** Sending a partial tree and extracting at the other end. */
  method Send(node: Node, maxTransactions: nat, txids: seq<Hash>, mask: seq<bool>)
    returns (root: Hash, vMatch: seq<Hash>, vnIndex: seq<nat>)
    requires CollisionFree(node) && Distinct(txids) && 0 < |txids| <= maxTransactions && |mask| == |txids|
    ensures var matches := MatchesIn(txids, mask, 0, |txids|);
            root == Root(node, txids) && vMatch == Txids(matches) && vnIndex == Indexes(matches)
  {
    var tree := new PartialMerkleTree(node, maxTransactions, txids, mask);
    var vBytes := Pack(tree.vBits);
    var received := new PartialMerkleTree.Read(node, maxTransactions, tree.nTransactions, tree.vHash, vBytes);
    root, vMatch, vnIndex := received.ExtractMatches([]);
    RoundTrip(node, txids, mask, maxTransactions);
  }
}
