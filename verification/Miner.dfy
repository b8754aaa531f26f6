/** The block assembler of src/miner.cpp. */
module Miner {
  import opened Mempool

  const MAX_BLOCK_SIGOPS_COST := 80000
  const MAX_CONSECUTIVE_FAILURES := 1000
  const COINBASE_WEIGHT := 4000
  const COINBASE_SIGOPS := 400

  // ----- The block so far -----

  ghost predicate InBlockOf(pool: Pool, inBlock: set<TxId>, t: TxId) {
    t in inBlock ==> t in pool && pool[t].ancestors <= inBlock
  }

  ghost predicate AfterParents(pool: Pool, block: seq<TxId>, i: int) {
    0 <= i < |block| ==> block[i] in pool && forall a :: a in pool[block[i]].ancestors ==> a in block[..i]
  }

  ghost predicate Differ(block: seq<TxId>, i: int, j: int) {
    0 <= i < j < |block| ==> block[i] != block[j]
  }

  ghost predicate Distinct(block: seq<TxId>) {
    forall i, j {:trigger Differ(block, i, j)} :: Differ(block, i, j)
  }

  ghost predicate ListedIn(block: seq<TxId>, s: set<TxId>, t: TxId) {
    t in block <==> t in s
  }

  ghost predicate Lists(block: seq<TxId>, s: set<TxId>) {
    forall t {:trigger ListedIn(block, s, t)} :: ListedIn(block, s, t)
  }

  /** The block is duplicate-free and ancestor-closed, and parents come before children. */
  ghost predicate BlockOk(pool: Pool, block: seq<TxId>, inBlock: set<TxId>) {
    && (forall t {:trigger InBlockOf(pool, inBlock, t)} :: InBlockOf(pool, inBlock, t))
    && (forall i {:trigger AfterParents(pool, block, i)} :: AfterParents(pool, block, i))
    && Distinct(block) && Lists(block, inBlock)
  }

  /** What a package adds to the block: distinct, disjoint from it, each after its ancestors. */
  ghost predicate Extends(pool: Pool, inBlock: set<TxId>, sorted: seq<TxId>, package: set<TxId>) {
    && Distinct(sorted) && Lists(sorted, package) && package !! inBlock
    && forall i {:trigger sorted[i]} :: 0 <= i < |sorted| ==> ReadyAt(pool, inBlock, sorted, i)
  }

  ghost predicate ReadyAt(pool: Pool, inBlock: set<TxId>, sorted: seq<TxId>, i: int)
    requires 0 <= i < |sorted|
  {
    sorted[i] in pool && forall a :: a in pool[sorted[i]].ancestors ==> a in inBlock || a in sorted[..i]
  }

  lemma ExtendKeeps(pool: Pool, block: seq<TxId>, inBlock: set<TxId>, sorted: seq<TxId>, package: set<TxId>)
    requires BlockOk(pool, block, inBlock) && Extends(pool, inBlock, sorted, package)
    ensures BlockOk(pool, block + sorted, inBlock + package)
  {
    var block', inBlock' := block + sorted, inBlock + package;
    forall i ensures AfterParents(pool, block', i) {
      assert AfterParents(pool, block, i);
      if 0 <= i < |block| {
        assert block'[..i] == block[..i];
      } else if |block| <= i < |block'| {
        var k := i - |block|;
        assert ReadyAt(pool, inBlock, sorted, k) && block'[..i] == block + sorted[..k];
        forall a | a in pool[block'[i]].ancestors ensures a in block'[..i] {
          assert ListedIn(block, inBlock, a);
        }
      }
    }
    forall t ensures InBlockOf(pool, inBlock', t) {
      assert InBlockOf(pool, inBlock, t);
      if t in package {
        assert ListedIn(sorted, package, t);
        var k :| 0 <= k < |sorted| && sorted[k] == t;
        assert ReadyAt(pool, inBlock, sorted, k);
        forall a | a in pool[t].ancestors ensures a in inBlock' {
          if a !in inBlock {
            assert a in sorted[..k] && a in sorted && ListedIn(sorted, package, a);
          }
        }
      }
    }
    forall i, j ensures Differ(block', i, j) {
      assert Differ(block, i, j) && Differ(sorted, i - |block|, j - |block|);
      if 0 <= i < |block| <= j < |block'| {
        var t, u := block'[i], block'[j];
        assert t in block && u in sorted;
        assert ListedIn(block, inBlock, t) && ListedIn(sorted, package, u);
      }
    }
    forall t ensures ListedIn(block', inBlock', t) {
      assert ListedIn(block, inBlock, t) && ListedIn(sorted, package, t);
    }
  }

  // ----- Lazily corrected totals -----

  /** The part of a package that is not in the block yet. */
  ghost function Remaining(pool: Pool, inBlock: set<TxId>, t: TxId): set<TxId>
    requires t in pool
  {
    Package(pool, t) - inBlock
  }

  /** Nobody has prioritised one of these transactions. */
  ghost predicate NoDeltas(pool: Pool, s: set<TxId>) {
    forall t :: t in s && t in pool ==> pool[t].modFee == pool[t].fee
  }

  /** A recorded entry bounds what remains of its package, and is exact unless it failed before;
      the fee total is exact too when what is in the block has no fee deltas. */
  ghost predicate RecordOf(pool: Pool, inBlock: set<TxId>, failed: set<TxId>, mods: map<TxId, Totals>, t: TxId) {
    t in mods ==>
      && t in pool
      && var rest := Remaining(pool, inBlock, t);
      && Sum(pool, Size, rest) <= mods[t].size && Sum(pool, SigOps, rest) <= mods[t].sigOps
      && (t !in failed ==> mods[t].size == Sum(pool, Size, rest) && mods[t].sigOps == Sum(pool, SigOps, rest))
      && (t !in failed && NoDeltas(pool, Package(pool, t) * inBlock) ==> mods[t].modFees == Sum(pool, ModFee, rest))
  }

  /** A transaction whose cached totals are stale is recorded, or has failed. */
  ghost predicate StaleOf(pool: Pool, inBlock: set<TxId>, failed: set<TxId>, mods: map<TxId, Totals>, t: TxId) {
    t in pool && Package(pool, t) * inBlock != {} ==> t in mods || t in failed
  }

  /** What the records say about t; `skip` are the transactions that need no record. */
  ghost predicate Tracked(pool: Pool, inBlock: set<TxId>, failed: set<TxId>, mods: map<TxId, Totals>, skip: set<TxId>,
      t: TxId) {
    && RecordOf(pool, inBlock, failed, mods, t)
    && if t in skip then t !in mods else StaleOf(pool, inBlock, failed, mods, t)
  }

  ghost predicate RecordsOk(pool: Pool, inBlock: set<TxId>, failed: set<TxId>, mods: map<TxId, Totals>,
      skip: set<TxId>) {
    forall t {:trigger Tracked(pool, inBlock, failed, mods, skip, t)} :: Tracked(pool, inBlock, failed, mods, skip, t)
  }

  /** UpdatePackagesForAdded's effect on the record of one descendant of `it`. */
  function Updated(pool: Pool, mods: map<TxId, Totals>, it: TxId, d: TxId): Totals
    requires it in pool && d in pool
  {
    if d in mods then
      Totals(mods[d].size - pool[it].size, mods[d].modFees - pool[it].fee, mods[d].sigOps - pool[it].sigOps)
    else
      var full := pool[d].totals;
      Totals(full.size - pool[it].size, full.modFees - pool[it].modFee, full.sigOps - pool[it].sigOps)
  }

  /** Including one more transaction shrinks what remains of each descendant's package by it. */
  lemma RemainingShrinks(pool: Pool, f: Field, inBlock: set<TxId>, it: TxId, t: TxId)
    requires t in pool && it !in inBlock
    ensures var rest, rest' := Remaining(pool, inBlock, t), Remaining(pool, inBlock + {it}, t);
            Sum(pool, f, rest') == Sum(pool, f, rest) - if it in Package(pool, t) then Value(pool, f, it) else 0
  {
    var rest, rest' := Remaining(pool, inBlock, t), Remaining(pool, inBlock + {it}, t);
    if it in Package(pool, t) {
      assert it in rest && rest' == rest - {it};
      SumRemove(pool, f, rest, it);
    } else {
      assert rest' == rest;
    }
  }

  /** The cached totals of a package are its remaining totals plus what is in the block. */
  lemma FullBounds(pool: Pool, bytesPerSigOp: nat, inBlock: set<TxId>, t: TxId)
    requires WellFormed(pool, bytesPerSigOp) && t in pool
    ensures var full, rest := pool[t].totals, Remaining(pool, inBlock, t);
            && Sum(pool, Size, rest) <= full.size && Sum(pool, SigOps, rest) <= full.sigOps
            && (Package(pool, t) * inBlock == {} ==> full == TotalsOf(pool, rest))
  {
    assert TxOk(pool, bytesPerSigOp, t);
    var package := Package(pool, t);
    SumSplit(pool, Size, package, inBlock);
    SumSplit(pool, SigOps, package, inBlock);
    SumNonNegative(pool, Size, package * inBlock);
    SumNonNegative(pool, SigOps, package * inBlock);
    if package * inBlock == {} {
      forall u | u in package ensures u !in inBlock {
        assert u !in package * inBlock;
      }
      assert package - inBlock == package;
    }
  }

  /** The record that UpdatePackagesForAdded leaves for one descendant is right again. */
  lemma UpdatedIsRight(pool: Pool, bytesPerSigOp: nat, inBlock: set<TxId>, failed: set<TxId>, mods: map<TxId, Totals>,
      it: TxId, d: TxId)
    requires WellFormed(pool, bytesPerSigOp) && it in pool && d in pool && it in Package(pool, d) && it !in inBlock
    requires RecordOf(pool, inBlock, failed, mods, d) && StaleOf(pool, inBlock, failed, mods, d)
    ensures RecordOf(pool, inBlock + {it}, failed, map[d := Updated(pool, mods, it, d)], d)
  {
    RemainingShrinks(pool, Size, inBlock, it, d);
    RemainingShrinks(pool, SigOps, inBlock, it, d);
    RemainingShrinks(pool, ModFee, inBlock, it, d);
    FullBounds(pool, bytesPerSigOp, inBlock, d);
    assert it in Package(pool, d) * (inBlock + {it});
  }

  /** An entry that is recorded afresh although part of its package is in the block already is
      over-counted by exactly that part. */
  lemma ReinsertedSize(pool: Pool, bytesPerSigOp: nat, inBlock: set<TxId>, mods: map<TxId, Totals>, it: TxId, d: TxId)
    requires WellFormed(pool, bytesPerSigOp) && it in pool && d in pool && it in Package(pool, d) && it !in inBlock
    requires d !in mods
    ensures Updated(pool, mods, it, d).size
         == Sum(pool, Size, Remaining(pool, inBlock + {it}, d)) + Sum(pool, Size, Package(pool, d) * inBlock)
  {
    assert TxOk(pool, bytesPerSigOp, d);
    RemainingShrinks(pool, Size, inBlock, it, d);
    SumSplit(pool, Size, Package(pool, d), inBlock);
  }

  /** An exact fee total stays exact if and only if the entry is new or the included transaction
      has no fee delta: a first inclusion subtracts the modified fee, later ones the base fee. */
  lemma UpdatedFeesExact(pool: Pool, bytesPerSigOp: nat, inBlock: set<TxId>, mods: map<TxId, Totals>, it: TxId, d: TxId)
    requires WellFormed(pool, bytesPerSigOp) && it in pool && d in pool && it in Package(pool, d) && it !in inBlock
    requires if d in mods then mods[d].modFees == Sum(pool, ModFee, Remaining(pool, inBlock, d))
        else Package(pool, d) * inBlock == {}
    ensures Updated(pool, mods, it, d).modFees == Sum(pool, ModFee, Remaining(pool, inBlock + {it}, d))
       <==> d !in mods || pool[it].modFee == pool[it].fee
  {
    RemainingShrinks(pool, ModFee, inBlock, it, d);
    FullBounds(pool, bytesPerSigOp, inBlock, d);
  }

  /** One round of UpdatePackagesForAdded, for the added transaction `it`. */
  method UpdateForOne(pool: Pool, added: set<TxId>, it: TxId, mods: map<TxId, Totals>, ghost bytesPerSigOp: nat,
                      ghost inBlock: set<TxId>, ghost failed: set<TxId>, ghost skip: set<TxId>)
    returns (mods': map<TxId, Totals>)
    requires WellFormed(pool, bytesPerSigOp) && it in pool && it !in inBlock
    requires RecordsOk(pool, inBlock, failed, mods, skip) && Descendants(pool, it) - added !! skip && added <= skip
    ensures RecordsOk(pool, inBlock + {it}, failed, mods', skip) && mods.Keys <= mods'.Keys
  {
    mods' := mods;
    var todo := Descendants(pool, it);
    while todo != {}
      invariant todo <= Descendants(pool, it)
      invariant forall t {:trigger HalfUpdated(pool, skip, it, mods, todo, mods', t)} ::
          HalfUpdated(pool, skip, it, mods, todo, mods', t)
      decreases |todo|
    {
      var desc :| desc in todo;
      ghost var before, was := mods', todo;
      todo := todo - {desc};
      if desc !in added {
        assert HalfUpdated(pool, skip, it, mods, was, before, desc);
        mods' := mods'[desc := Updated(pool, mods', it, desc)];
      }
      forall t ensures HalfUpdated(pool, skip, it, mods, todo, mods', t) {
        assert HalfUpdated(pool, skip, it, mods, was, before, t);
      }
    }
    forall t ensures Tracked(pool, inBlock + {it}, failed, mods', skip, t) {
      assert HalfUpdated(pool, skip, it, mods, {}, mods', t);
      UpdateKeeps(pool, bytesPerSigOp, skip, it, inBlock, failed, mods, mods', t);
    }
    forall t | t in mods ensures t in mods' {
      assert HalfUpdated(pool, skip, it, mods, {}, mods', t);
    }
  }

  /** The record of t while the descendants in `todo` are still to be updated. */
  ghost predicate HalfUpdated(pool: Pool, skip: set<TxId>, it: TxId, mods: map<TxId, Totals>, todo: set<TxId>,
      now: map<TxId, Totals>, t: TxId)
    requires it in pool
  {
    if t in pool && t in Descendants(pool, it) && t !in skip && t !in todo then t in now
      && now[t] == Updated(pool, mods, it, t)
    else (t in now <==> t in mods) && (t in mods ==> now[t] == mods[t])
  }

  lemma UpdateKeeps(pool: Pool, bytesPerSigOp: nat, skip: set<TxId>, it: TxId, inBlock: set<TxId>, failed: set<TxId>,
                    mods: map<TxId, Totals>, mods': map<TxId, Totals>, t: TxId)
    requires WellFormed(pool, bytesPerSigOp) && it in pool && it !in inBlock
    requires RecordsOk(pool, inBlock, failed, mods, skip) && HalfUpdated(pool, skip, it, mods, {}, mods', t)
    ensures Tracked(pool, inBlock + {it}, failed, mods', skip, t)
  {
    assert Tracked(pool, inBlock, failed, mods, skip, t);
    if t in pool {
      if it in Package(pool, t) && t !in skip {
        UpdatedIsRight(pool, bytesPerSigOp, inBlock, failed, mods, it, t);
        assert RecordOf(pool, inBlock + {it}, failed, map[t := Updated(pool, mods, it, t)], t);
      } else if it !in Package(pool, t) {
        assert Remaining(pool, inBlock + {it}, t) == Remaining(pool, inBlock, t);
        assert Package(pool, t) * (inBlock + {it}) == Package(pool, t) * inBlock;
      }
    }
  }

  /** UpdatePackagesForAdded: the records, right before the transactions were added, are
      right again afterwards, in whatever order the set is walked. */
  method UpdatePackagesForAdded(pool: Pool, added: set<TxId>, mods: map<TxId, Totals>,
                                ghost bytesPerSigOp: nat, ghost before: set<TxId>, ghost failed: set<TxId>)
    returns (mods': map<TxId, Totals>)
    requires WellFormed(pool, bytesPerSigOp) && added <= pool.Keys && added !! before
    requires forall t :: t in before ==> t in pool && pool[t].ancestors <= before
    requires RecordsOk(pool, before, failed, mods, before + added)
    ensures RecordsOk(pool, before + added, failed, mods', before + added) && mods.Keys <= mods'.Keys
  {
    mods' := mods;
    var todo := added;
    ghost var now := before;
    while todo != {}
      invariant todo <= added && now == before + (added - todo)
      invariant RecordsOk(pool, now, failed, mods', before + added) && mods.Keys <= mods'.Keys
      decreases |todo|
    {
      var it :| it in todo;
      mods' := UpdateForOne(pool, added, it, mods', bytesPerSigOp, now, failed, before + added);
      todo := todo - {it};
      now := now + {it};
    }
    assert now == before + added;
  }

  // ----- Ordering a package -----

  /** Sorted by number of ancestors. */
  ghost predicate SortedByCount(pool: Pool, s: seq<TxId>) {
    && (forall t :: t in s ==> t in pool)
    && forall i, j :: 0 <= i < j < |s| && s[i] in pool && s[j] in pool ==>
      |pool[s[i]].ancestors| <= |pool[s[j]].ancestors|
  }

  method Smallest(pool: Pool, rest: set<TxId>) returns (t: TxId)
    requires rest != {} && rest <= pool.Keys
    ensures t in rest && forall u :: u in rest ==> |pool[t].ancestors| <= |pool[u].ancestors|
  {
    t :| t in rest;
    var todo := rest - {t};
    while todo != {}
      invariant todo <= rest && t in rest - todo
      invariant forall u :: u in rest && u !in todo ==> |pool[t].ancestors| <= |pool[u].ancestors|
      decreases |todo|
    {
      var u :| u in todo;
      if |pool[u].ancestors| < |pool[t].ancestors| {
        t := u;
      }
      todo := todo - {u};
    }
  }

  /** SortForBlock: the package in ascending order of ancestor count. */
  method SortForBlock(pool: Pool, package: set<TxId>) returns (sorted: seq<TxId>)
    requires package <= pool.Keys
    ensures Distinct(sorted) && Lists(sorted, package) && SortedByCount(pool, sorted)
  {
    sorted := [];
    var rest := package;
    while rest != {}
      invariant rest <= package && (forall i, j :: 0 <= i < j < |sorted| ==> sorted[i] != sorted[j])
          && (forall t :: t in sorted <==> t in package && t !in rest)
      invariant SortedByCount(pool, sorted)
      invariant forall i, u :: 0 <= i < |sorted| && u in rest && sorted[i] in pool ==>
          |pool[sorted[i]].ancestors| <= |pool[u].ancestors|
      decreases |rest|
    {
      var t := Smallest(pool, rest);
      sorted := sorted + [t];
      rest := rest - {t};
    }
  }

  /** Ordering by ancestor count is a valid block order for a package of one transaction. */
  lemma SortedExtends(pool: Pool, bytesPerSigOp: nat, inBlock: set<TxId>, iter: TxId, sorted: seq<TxId>)
    requires WellFormed(pool, bytesPerSigOp) && iter in pool && SortedByCount(pool, sorted) && Distinct(sorted)
    requires Lists(sorted, Remaining(pool, inBlock, iter))
    ensures Extends(pool, inBlock, sorted, Remaining(pool, inBlock, iter))
  {
    assert TxOk(pool, bytesPerSigOp, iter);
    forall i | 0 <= i < |sorted| ensures ReadyAt(pool, inBlock, sorted, i) {
      var t := sorted[i];
      assert t in sorted && TxOk(pool, bytesPerSigOp, t) && ListedIn(sorted, Remaining(pool, inBlock, iter), t);
      forall a | a in pool[t].ancestors && a !in inBlock ensures a in sorted[..i] {
        AncestorHasFewer(pool, bytesPerSigOp, t, a);
        assert a in Remaining(pool, inBlock, iter) && ListedIn(sorted, Remaining(pool, inBlock, iter), a);
        var j :| 0 <= j < |sorted| && sorted[j] == a;
        assert j < i;
      }
    }
  }
}
