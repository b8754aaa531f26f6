/** Package selection by the block assembler of src/miner.cpp. */
module MinerAssembler {
  import opened Integers
  import opened Mempool
  import opened Miner
  import opened MinerTrace
  import opened Scores

  ghost predicate InPool(pool: Pool, order: seq<TxId>, i: int) {
    0 <= i < |order| ==> order[i] in pool
  }

  /** The pool order is by score. */
  ghost predicate Ranked(pool: Pool, order: seq<TxId>, i: int, j: int) {
    0 <= i < j < |order| && order[i] in pool && order[j] in pool ==>
      !Better(Candidate(order[j], pool[order[j]].totals), Candidate(order[i], pool[order[i]].totals))
  }

  ghost predicate OrderOk(pool: Pool, order: seq<TxId>) {
    && Lists(order, pool.Keys) && Distinct(order)
    && (forall i {:trigger InPool(pool, order, i)} :: InPool(pool, order, i))
    && (forall i, j {:trigger Ranked(pool, order, i, j)} :: Ranked(pool, order, i, j))
  }

  ghost predicate AheadAt(pool: Pool, order: seq<TxId>, mi: nat, c: Candidate, i: int) {
    mi <= i < |order| && order[i] in pool ==> !Better(Candidate(order[i], pool[order[i]].totals), c)
  }

  /** No pool entry from place mi on beats the candidate, on its cached totals. */
  ghost predicate Ahead(pool: Pool, order: seq<TxId>, mi: nat, c: Candidate) {
    forall i {:trigger AheadAt(pool, order, mi, c, i)} :: AheadAt(pool, order, mi, c, i)
  }

  /** A package has a size, and so have its cached and recorded totals. */
  lemma TotalsSized(pool: Pool, bytesPerSigOp: nat, inBlock: set<TxId>, t: TxId)
    requires WellFormed(pool, bytesPerSigOp) && t in pool && t !in inBlock
    ensures Sum(pool, Size, Remaining(pool, inBlock, t)) > 0 && pool[t].totals.size > 0
  {
    assert TxOk(pool, bytesPerSigOp, t);
    SizedSum(pool, Remaining(pool, inBlock, t), t);
    SizedSum(pool, Package(pool, t), t);
  }

  lemma SizedSum(pool: Pool, s: set<TxId>, t: TxId)
    requires t in s && t in pool && pool[t].size > 0
    ensures Sum(pool, Size, s) > 0
  {
    SumRemove(pool, Size, s, t);
    SumNonNegative(pool, Size, s - {t});
  }

  /** Who beats the first of the pool entries to come, or is that entry, is beaten by none of them. */
  lemma AheadOfPool(pool: Pool, bytesPerSigOp: nat, order: seq<TxId>, mi: nat, c: Candidate)
    requires WellFormed(pool, bytesPerSigOp) && OrderOk(pool, order) && mi < |order| && order[mi] in pool && c.Sized()
    requires var first := Candidate(order[mi], pool[order[mi]].totals); c == first || Better(c, first)
    ensures Ahead(pool, order, mi, c)
  {
    var first := Candidate(order[mi], pool[order[mi]].totals);
    forall i ensures AheadAt(pool, order, mi, c, i) {
      if mi <= i < |order| && order[i] in pool {
        assert Ranked(pool, order, mi, i);
        TotalsSized(pool, bytesPerSigOp, {}, order[i]);
        TotalsSized(pool, bytesPerSigOp, {}, order[mi]);
        BetterUnbeaten(Candidate(order[i], pool[order[i]].totals), first, c);
      }
    }
  }

  /** A failed entry is dropped from the records and remembered. */
  lemma FailKeeps(pool: Pool, inBlock: set<TxId>, failed: set<TxId>, mods: map<TxId, Totals>, skip: set<TxId>, t: TxId)
    requires RecordsOk(pool, inBlock, failed, mods, skip)
    ensures RecordsOk(pool, inBlock, failed + {t}, mods - {t}, skip)
    ensures t in mods ==> |(mods - {t}).Keys| < |mods.Keys|
  {
    if t in mods {
      Fewer(mods.Keys, (mods - {t}).Keys, t);
    }
    var failed', mods' := failed + {t}, mods - {t};
    forall u ensures Tracked(pool, inBlock, failed', mods', skip, u) {
      assert Tracked(pool, inBlock, failed, mods, skip, u);
    }
  }

  /** Erasing the records of a package about to be added. */
  lemma EraseKeeps(pool: Pool, inBlock: set<TxId>, failed: set<TxId>, mods: map<TxId, Totals>, skip: set<TxId>,
      package: set<TxId>)
    requires RecordsOk(pool, inBlock, failed, mods, skip)
    ensures RecordsOk(pool, inBlock, failed, mods - package, skip + package)
  {
    var mods' := mods - package;
    forall u ensures Tracked(pool, inBlock, failed, mods', skip + package, u) {
      assert Tracked(pool, inBlock, failed, mods, skip, u);
    }
  }

  /** The totals of the entry under consideration. */
  function TotalsFor(pool: Pool, mods: map<TxId, Totals>, usingModified: bool, t: TxId): Totals
    requires t in pool && (usingModified ==> t in mods)
  {
    if usingModified then mods[t] else pool[t].totals
  }

  /** The totals tested for a package bound its true remaining size and signature cost, and so its
      weight: a re-inserted entry may be over-counted, never under-counted. */
  lemma TotalsBound(pool: Pool, bytesPerSigOp: nat, inBlock: set<TxId>, failed: set<TxId>, mods: map<TxId, Totals>,
                    usingModified: bool, t: TxId)
    requires WellFormed(pool, bytesPerSigOp) && RecordsOk(pool, inBlock, failed, mods, inBlock)
    requires t in pool && t !in inBlock && (usingModified <==> t in mods) && (!usingModified ==> t !in failed)
    ensures var totals, rest := TotalsFor(pool, mods, usingModified, t), Remaining(pool, inBlock, t);
            && Sum(pool, Weight, rest) <= WITNESS_SCALE_FACTOR * totals.size
            && Sum(pool, Size, rest) <= totals.size && Sum(pool, SigOps, rest) <= totals.sigOps
            && (t !in failed ==> totals.size == Sum(pool, Size, rest) && totals.sigOps == Sum(pool, SigOps, rest))
            && (t !in failed && NoDeltas(pool, Package(pool, t) * inBlock) ==>
              totals.modFees == Sum(pool, ModFee, rest))
  {
    assert Tracked(pool, inBlock, failed, mods, inBlock, t);
    WeightWithinSize(pool, bytesPerSigOp, Remaining(pool, inBlock, t));
    FullBounds(pool, bytesPerSigOp, inBlock, t);
  }

  // ----- What is left out -----

  /** When the block was `at`, what remained of t's package did not fit or may not be mined. */
  ghost predicate RejectedAt(pool: Pool, maxWeight: nat, includeWitness: bool, at: set<TxId>, t: TxId) {
    && t in pool && t !in at
    && (!FitsIn(pool, maxWeight, at, Remaining(pool, at, t))
      || !AllAllowed(pool, includeWitness, Remaining(pool, at, t)))
  }

  function Elements(block: seq<TxId>): set<TxId> {
    set t | t in block
  }

  /** t was rejected when the block consisted of its first k transactions. */
  ghost predicate RejectedAfter(pool: Pool, maxWeight: nat, w: bool, block: seq<TxId>, t: TxId, k: int) {
    0 <= k <= |block| && RejectedAt(pool, maxWeight, w, Elements(block[..k]), t)
  }

  ghost predicate Rejected(pool: Pool, maxWeight: nat, w: bool, block: seq<TxId>, t: TxId) {
    exists k :: RejectedAfter(pool, maxWeight, w, block, t, k)
  }

  /** An entry outside the block that was not rejected on the way and has no prioritised ancestor in
      the block pays less than is asked for what remains of its package. */
  ghost predicate Underpaid(pool: Pool, maxWeight: nat, w: bool, feePerK: nat, block: seq<TxId>, t: TxId) {
    && t in pool && t !in block
    && var rest := Remaining(pool, Elements(block), t);
       || Rejected(pool, maxWeight, w, block, t)
       || !NoDeltas(pool, Package(pool, t) * Elements(block))
       || Sum(pool, ModFee, rest) < GetFee(feePerK, Sum(pool, Size, rest))
  }

  ghost predicate SomeUnderpaid(pool: Pool, maxWeight: nat, w: bool, feePerK: nat, block: seq<TxId>) {
    exists t :: Underpaid(pool, maxWeight, w, feePerK, block, t)
  }

  /** An entry is in the block, was rejected on the way, or is left out for its fee rate: unless it has a
      prioritised ancestor in the block, what remains of its package pays less than the minimum rate. */
  ghost predicate Explained(pool: Pool, maxWeight: nat, w: bool, feePerK: nat, block: seq<TxId>, t: TxId) {
    t in pool ==>
      var rest := Remaining(pool, Elements(block), t);
      || t in block || Rejected(pool, maxWeight, w, block, t)
      || !NoDeltas(pool, Package(pool, t) * Elements(block))
      || BelowRate(feePerK, Sum(pool, ModFee, rest), Sum(pool, Size, rest))
  }

  ghost predicate AllExplained(pool: Pool, maxWeight: nat, w: bool, feePerK: nat, block: seq<TxId>) {
    forall t {:trigger Explained(pool, maxWeight, w, feePerK, block, t)} ::
      Explained(pool, maxWeight, w, feePerK, block, t)
  }

  /** An entry the loop is through with is in the block, still recorded, or was rejected. */
  ghost predicate Settled(pool: Pool, maxWeight: nat, w: bool, block: seq<TxId>, mods: map<TxId, Totals>, t: TxId) {
    t in block || t in mods || Rejected(pool, maxWeight, w, block, t)
  }

  ghost predicate FailedOk(pool: Pool, maxWeight: nat, w: bool, block: seq<TxId>, failed: set<TxId>, t: TxId) {
    t in failed ==> Rejected(pool, maxWeight, w, block, t)
  }

  ghost predicate SettledAt(pool: Pool, maxWeight: nat, w: bool, block: seq<TxId>, mods: map<TxId, Totals>,
                            order: seq<TxId>, mi: nat, i: int) {
    0 <= i < mi && i < |order| ==> Settled(pool, maxWeight, w, block, mods, order[i])
  }

  /** The first mi entries are settled, and what failed was rejected. */
  ghost predicate Progress(pool: Pool, maxWeight: nat, w: bool, block: seq<TxId>, mods: map<TxId, Totals>,
                           failed: set<TxId>, order: seq<TxId>, mi: nat) {
    && (forall t {:trigger FailedOk(pool, maxWeight, w, block, failed, t)} ::
      FailedOk(pool, maxWeight, w, block, failed, t))
    && (forall i {:trigger SettledAt(pool, maxWeight, w, block, mods, order, mi, i)} ::
          SettledAt(pool, maxWeight, w, block, mods, order, mi, i))
  }

  /** Progress is kept when the block grows and every record dropped is settled otherwise. */
  lemma ProgressKeeps(pool: Pool, maxWeight: nat, w: bool, block: seq<TxId>, mods: map<TxId, Totals>, failed: set<TxId>,
                      order: seq<TxId>, mi: nat, block': seq<TxId>, mods': map<TxId, Totals>, failed': set<TxId>,
                          mi': nat)
    requires Progress(pool, maxWeight, w, block, mods, failed, order, mi) && block <= block' && mi <= mi' <= mi + 1
    requires forall t :: t in mods && t !in mods' ==> t in block' || Rejected(pool, maxWeight, w, block', t)
    requires failed <= failed' && forall t :: t in failed' && t !in failed ==> Rejected(pool, maxWeight, w, block', t)
    requires mi' == mi + 1 && mi < |order| ==> Settled(pool, maxWeight, w, block', mods', order[mi])
    ensures Progress(pool, maxWeight, w, block', mods', failed', order, mi')
  {
    forall t ensures FailedOk(pool, maxWeight, w, block', failed', t) {
      assert FailedOk(pool, maxWeight, w, block, failed, t);
      StillRejected(pool, maxWeight, w, block, block', t);
    }
    forall i ensures SettledAt(pool, maxWeight, w, block', mods', order, mi', i) {
      assert SettledAt(pool, maxWeight, w, block, mods, order, mi, i);
      if 0 <= i < |order| {
        StillRejected(pool, maxWeight, w, block, block', order[i]);
        assert order[i] in block ==> order[i] in block';
      }
    }
  }

  lemma StillRejected(pool: Pool, maxWeight: nat, w: bool, block: seq<TxId>, block': seq<TxId>, t: TxId)
    requires block <= block'
    ensures Rejected(pool, maxWeight, w, block, t) ==> Rejected(pool, maxWeight, w, block', t)
  {
    if Rejected(pool, maxWeight, w, block, t) {
      var k :| RejectedAfter(pool, maxWeight, w, block, t, k);
      assert block'[..k] == block[..k];
      assert RejectedAfter(pool, maxWeight, w, block', t, k);
    }
  }

  /** What is rejected now is rejected at some stage. */
  lemma RejectedNow(pool: Pool, maxWeight: nat, w: bool, block: seq<TxId>, inBlock: set<TxId>, t: TxId)
    requires Lists(block, inBlock)
    ensures Elements(block) == inBlock
    ensures RejectedAt(pool, maxWeight, w, inBlock, t) ==> Rejected(pool, maxWeight, w, block, t)
  {
    forall u ensures u in Elements(block) <==> u in inBlock {
      assert ListedIn(block, inBlock, u);
    }
    assert block[..|block|] == block;
    assert RejectedAt(pool, maxWeight, w, inBlock, t) ==> RejectedAfter(pool, maxWeight, w, block, t, |block|);
  }

  // ----- Decisions -----

  /** The verdict is right about what remains of the package, except that an entry which failed before may be
      refused room that it has. */
  ghost predicate JudgedWell(pool: Pool, maxWeight: nat, w: bool, at: set<TxId>, failed: set<TxId>, iter: TxId,
                             verdict: Verdict) {
    && iter in pool && iter !in at
    && var rest := Remaining(pool, at, iter);
       match verdict
       case Added => FitsIn(pool, maxWeight, at, rest) && AllAllowed(pool, w, rest)
       case NoRoom => iter !in failed ==> !FitsIn(pool, maxWeight, at, rest)
       case NotAllowed => !AllAllowed(pool, w, rest)
       case _ => false
  }

  /** What a turn does to the block, the records, the failures and the place in the pool. */
  ghost predicate Outcome(pool: Pool, order: seq<TxId>, maxWeight: nat, w: bool, at: set<TxId>, mods: map<TxId, Totals>,
                          failed: set<TxId>, mi: nat, iter: TxId, verdict: Verdict, at': set<TxId>,
                          mods': map<TxId, Totals>, failed': set<TxId>, mi': nat) {
    match verdict
    case TooCheap => at' == at
    case Skipped =>
      && mi < |order| && mi' == mi + 1 && at' == at && mods' == mods && failed' == failed
      && (order[mi] in mods || order[mi] in at || order[mi] in failed)
    case _ =>
      && JudgedWell(pool, maxWeight, w, at, failed, iter, verdict)
      && (if iter in mods then mi' == mi else mi < |order| && mi' == mi + 1 && order[mi] == iter && iter !in failed)
      && if verdict == Added then
           at' == at + Remaining(pool, at, iter) && mods.Keys - at' <= mods'.Keys && failed' == failed
         else
           && at' == at && mods' == mods - {iter}
           && failed' == failed + if iter in mods then {iter} else {}
  }

  /** Where an entry turned down lately is: no longer recorded, and failed or passed by. */
  ghost predicate GoneAt(order: seq<TxId>, recent: set<TxId>, mods: map<TxId, Totals>, failed: set<TxId>, mi: nat,
                         t: TxId) {
    t in recent ==> t !in mods && (t in failed || exists i :: 0 <= i < mi && i < |order| && order[i] == t)
  }

  ghost predicate AllGone(order: seq<TxId>, recent: set<TxId>, mods: map<TxId, Totals>, failed: set<TxId>, mi: nat) {
    forall t {:trigger GoneAt(order, recent, mods, failed, mi, t)} :: GoneAt(order, recent, mods, failed, mi, t)
  }

  /** An entry passed by is in the block, recorded, or turned down. */
  ghost predicate SeenAt(order: seq<TxId>, turned: set<TxId>, at: set<TxId>, mods: map<TxId, Totals>, mi: nat,
                         i: int) {
    0 <= i < mi && i < |order| ==> order[i] in at || order[i] in mods || order[i] in turned
  }

  ghost predicate AllSeen(order: seq<TxId>, turned: set<TxId>, at: set<TxId>, mods: map<TxId, Totals>, mi: nat) {
    forall i {:trigger SeenAt(order, turned, at, mods, mi, i)} :: SeenAt(order, turned, at, mods, mi, i)
  }

  /** The loop variables agree with the decisions taken so far. */
  ghost predicate Traced(pool: Pool, order: seq<TxId>, maxWeight: nat, w: bool, start: set<TxId>, trace: seq<Decision>,
                         at: set<TxId>, mods: map<TxId, Totals>, failed: set<TxId>, mi: nat) {
    && AllRight(pool, maxWeight, w, start, trace) && at == InAfter(pool, start, trace) && failed <= Turned(trace)
    && AllGone(order, Recent(trace), mods, failed, mi) && AllSeen(order, Turned(trace), at, mods, mi)
  }

  /** A candidate has not been turned down since a package was last added. */
  lemma NotRecent(order: seq<TxId>, recent: set<TxId>, mods: map<TxId, Totals>, failed: set<TxId>, mi: nat, t: TxId)
    requires AllGone(order, recent, mods, failed, mi) && Distinct(order)
    requires t in mods || (t !in failed && mi < |order| && order[mi] == t)
    ensures t !in recent
  {
    assert GoneAt(order, recent, mods, failed, mi, t);
    forall i | 0 <= i < mi && i < |order| && t !in mods ensures order[i] != t {
      assert Differ(order, i, mi);
    }
  }

  /** What is turned down or passed by stays so over a turn. */
  lemma GoneKeeps(pool: Pool, order: seq<TxId>, maxWeight: nat, w: bool, recent: set<TxId>, turned: set<TxId>,
                  at: set<TxId>, mods: map<TxId, Totals>, failed: set<TxId>, mi: nat, iter: TxId, verdict: Verdict,
                  at': set<TxId>, mods': map<TxId, Totals>, failed': set<TxId>, mi': nat)
    requires AllGone(order, recent, mods, failed, mi) && AllSeen(order, turned, at, mods, mi) && failed <= turned
    requires Outcome(pool, order, maxWeight, w, at, mods, failed, mi, iter, verdict, at', mods', failed', mi')
    requires verdict != TooCheap
    ensures var recent' := if verdict == Added then {} else if verdict == Skipped then recent else recent + {iter};
            AllGone(order, recent', mods', failed', mi')
    ensures var turned' := if verdict == Added || verdict == Skipped then turned else turned + {iter};
            AllSeen(order, turned', at', mods', mi') && failed' <= turned'
  {
    var recent' := if verdict == Added then {} else if verdict == Skipped then recent else recent + {iter};
    var turned' := if verdict == Added || verdict == Skipped then turned else turned + {iter};
    forall t ensures GoneAt(order, recent', mods', failed', mi', t) {
      assert GoneAt(order, recent, mods, failed, mi, t);
    }
    forall i ensures SeenAt(order, turned', at', mods', mi', i) {
      assert SeenAt(order, turned, at, mods, mi, i);
    }
  }

  /** One turn adds its decision, if it took one. */
  lemma TraceKeeps(pool: Pool, order: seq<TxId>, maxWeight: nat, w: bool, start: set<TxId>, trace: seq<Decision>,
                   at: set<TxId>, mods: map<TxId, Totals>, failed: set<TxId>, mi: nat, iter: TxId, verdict: Verdict,
                   at': set<TxId>, mods': map<TxId, Totals>, failed': set<TxId>, mi': nat)
    returns (trace': seq<Decision>)
    requires Traced(pool, order, maxWeight, w, start, trace, at, mods, failed, mi) && Distinct(order)
    requires WentOn(pool, maxWeight, start, trace) && !GivesUp(pool, maxWeight, start, trace)
    requires Outcome(pool, order, maxWeight, w, at, mods, failed, mi, iter, verdict, at', mods', failed', mi')
    ensures trace' == if verdict == Skipped || verdict == TooCheap then trace else trace + [Decision(iter, verdict)]
    ensures AllRight(pool, maxWeight, w, start, trace') && at' == InAfter(pool, start, trace')
    ensures WentOn(pool, maxWeight, start, trace')
    ensures verdict != TooCheap ==> Traced(pool, order, maxWeight, w, start, trace', at', mods', failed', mi')
    ensures |Crowded(trace')| == if verdict == Added then 0
                                 else |Crowded(trace)| + if verdict == NoRoom then 1 else 0
    ensures Packages(trace') == Packages(trace) + if verdict == Added then 1 else 0
  {
    trace' := trace;
    if verdict != TooCheap {
      GoneKeeps(pool, order, maxWeight, w, Recent(trace), Turned(trace), at, mods, failed, mi, iter, verdict, at',
        mods', failed', mi');
    }
    if verdict != Skipped && verdict != TooCheap {
      var d := Decision(iter, verdict);
      NotRecent(order, Recent(trace), mods, failed, mi, iter);
      Decided(pool, maxWeight, w, start, trace, d);
      OneMore(pool, start, trace, d);
      trace' := trace + [d];
    }
  }

  class BlockAssembler {
    const pool: Pool
    const order: seq<TxId>      // the pool in ancestor-score order
    const nBlockMaxWeight: nat
    const feePerK: nat          // blockMinFeeRate
    ghost const bytesPerSigOp: nat

    var includeWitness: bool
    var inBlock: set<TxId>
    var block: seq<TxId>        // after the coinbase
    var nBlockWeight: nat
    var nBlockTx: nat
    var nBlockSigOpsCost: nat
    var nFees: int

    /** What the counters track. */
    ghost predicate Counted()
      reads this
    {
      && nBlockWeight == COINBASE_WEIGHT + Sum(pool, Weight, inBlock)
      && nBlockSigOpsCost == COINBASE_SIGOPS + Sum(pool, SigOps, inBlock)
      && nFees == Sum(pool, Fee, inBlock)
      && nBlockTx == |block|
    }

    ghost predicate PoolOk() {
      WellFormed(pool, bytesPerSigOp) && OrderOk(pool, order)
    }

    /** The block under construction is well ordered, allowed, counted and within its limits. */
    ghost predicate Valid()
      reads this
    {
      && PoolOk() && BlockOk(pool, block, inBlock) && Counted()
      && AllAllowed(pool, includeWitness, inBlock)
      && nBlockWeight <= nBlockMaxWeight && nBlockSigOpsCost < MAX_BLOCK_SIGOPS_COST
    }

    constructor (pool: Pool, order: seq<TxId>, feePerK: nat, optionWeight: nat, consensusWeight: nat,
                 ghost bytesPerSigOp: nat)
      requires WellFormed(pool, bytesPerSigOp) && OrderOk(pool, order)
      requires consensusWeight >= 4000
      ensures Valid() && inBlock == {} && this.pool == pool && this.order == order
      ensures nBlockMaxWeight == Max(4000, Min(consensusWeight - 4000, optionWeight))
      ensures nBlockWeight == 4000 && nBlockSigOpsCost == 400 && nBlockTx == 0 && nFees == 0
    {
      this.pool, this.order, this.feePerK, this.bytesPerSigOp := pool, order, feePerK, bytesPerSigOp;
      var limit := if optionWeight < consensusWeight - 4000 then optionWeight else consensusWeight - 4000;
      nBlockMaxWeight := if limit < 4000 then 4000 else limit;
      includeWitness, inBlock, block := false, {}, [];
      nBlockWeight, nBlockSigOpsCost, nBlockTx, nFees := COINBASE_WEIGHT, COINBASE_SIGOPS, 0, 0;
    }

    /** resetBlock, and the choice of CreateNewBlock whether to mine witness transactions. */
    method ResetBlock(includeWitness: bool)
      requires PoolOk() && 4000 <= nBlockMaxWeight
      modifies this
      ensures Valid() && inBlock == {} && block == [] && this.includeWitness == includeWitness
      ensures nBlockWeight == 4000 && nBlockSigOpsCost == 400 && nBlockTx == 0 && nFees == 0
    {
      inBlock, block := {}, [];
      nBlockWeight, nBlockSigOpsCost, nBlockTx, nFees := COINBASE_WEIGHT, COINBASE_SIGOPS, 0, 0;
      this.includeWitness := includeWitness;
    }

    /** A package that passes leaves room for anything its totals bound. */
    predicate TestPackage(totals: Totals)
      reads this
    {
      && nBlockWeight + WITNESS_SCALE_FACTOR * totals.size < nBlockMaxWeight
      && nBlockSigOpsCost + totals.sigOps < MAX_BLOCK_SIGOPS_COST
    }

    method OnlyUnconfirmed(testSet: set<TxId>) returns (left: set<TxId>)
      ensures left == testSet - inBlock
    {
      left := testSet;
      var todo := testSet;
      while todo != {}
        invariant todo <= testSet && left == testSet - ((testSet - todo) * inBlock)
        decreases |todo|
      {
        var t :| t in todo;
        if t in inBlock {
          left := left - {t};
        }
        todo := todo - {t};
      }
    }

    method TestPackageTransactions(package: set<TxId>) returns (ok: bool)
      requires package <= pool.Keys
      ensures ok <==> AllAllowed(pool, includeWitness, package)
    {
      var todo := package;
      while todo != {}
        invariant todo <= package && forall t :: t in package && t !in todo ==> Allowed(pool, includeWitness, t)
        decreases |todo|
      {
        var t :| t in todo;
        if !pool[t].isFinal || (!includeWitness && pool[t].hasWitness) {
          assert !Mined(pool, includeWitness, package, t);
          return false;
        }
        todo := todo - {t};
      }
      return true;
    }

    method AddToBlock(t: TxId)
      requires Counted() && t in pool && t !in inBlock
      modifies this
      ensures Counted() && inBlock == old(inBlock) + {t} && block == old(block) + [t]
      ensures includeWitness == old(includeWitness)
    {
      SumAdd(pool, Weight, inBlock, t);
      SumAdd(pool, SigOps, inBlock, t);
      SumAdd(pool, Fee, inBlock, t);
      block := block + [t];
      nBlockWeight := nBlockWeight + pool[t].weight;
      nBlockTx := nBlockTx + 1;
      nBlockSigOpsCost := nBlockSigOpsCost + pool[t].sigOps;
      nFees := nFees + pool[t].fee;
      inBlock := inBlock + {t};
    }

    /** The loop that adds a sorted package. */
    method AddAll(sorted: seq<TxId>, ghost package: set<TxId>)
      requires Counted() && Extends(pool, inBlock, sorted, package)
      modifies this
      ensures Counted() && inBlock == old(inBlock) + package && block == old(block) + sorted
      ensures includeWitness == old(includeWitness)
    {
      for i := 0 to |sorted|
        invariant Counted() && includeWitness == old(includeWitness)
        invariant forall t :: t in inBlock <==> t in old(inBlock) || t in sorted[..i]
        invariant block == old(block) + sorted[..i]
      {
        var t := sorted[i];
        assert ReadyAt(pool, old(inBlock), sorted, i);
        assert t in sorted && ListedIn(sorted, package, t);
        assert t !in sorted[..i] by {
          forall k | 0 <= k < i ensures sorted[k] != t {
            assert Differ(sorted, k, i);
          }
        }
        AddToBlock(t);
        assert sorted[..i + 1] == sorted[..i] + [t];
      }
      assert sorted[..|sorted|] == sorted;
      forall t ensures t in inBlock <==> t in old(inBlock) + package {
        assert ListedIn(sorted, package, t);
      }
    }

    /** The accepted package joins the block and leaves the modified set. */
    method AddPackage(sorted: seq<TxId>, package: set<TxId>, mods: map<TxId, Totals>) returns (mods': map<TxId, Totals>)
      requires Valid() && Extends(pool, inBlock, sorted, package)
      requires AllAllowed(pool, includeWitness, package)
      requires nBlockWeight + Sum(pool, Weight, package) <= nBlockMaxWeight
      requires nBlockSigOpsCost + Sum(pool, SigOps, package) < MAX_BLOCK_SIGOPS_COST
      modifies this
      ensures Valid() && inBlock == old(inBlock) + package && block == old(block) + sorted
      ensures mods' == mods - package && includeWitness == old(includeWitness)
    {
      ExtendKeeps(pool, block, inBlock, sorted, package);
      SumDisjoint(pool, Weight, inBlock, package);
      SumDisjoint(pool, SigOps, inBlock, package);
      AddAll(sorted, package);
      mods' := mods - package;
      forall t ensures Mined(pool, includeWitness, inBlock, t) {
        assert Mined(pool, includeWitness, old(inBlock), t) && Mined(pool, includeWitness, package, t);
      }
    }

    predicate SkipMapTxEntry(t: TxId, mods: map<TxId, Totals>, failed: set<TxId>)
      reads this
    {
      t in mods || t in inBlock || t in failed
    }

    /** One accepted candidate: its remaining ancestors and itself join the block. */
    method Accept(iter: TxId, package: set<TxId>, mods: map<TxId, Totals>, ghost failed: set<TxId>, totals: Totals)
      returns (mods': map<TxId, Totals>)
      requires Valid() && RecordsOk(pool, inBlock, failed, mods, inBlock)
      requires iter in pool && iter !in inBlock && package == Remaining(pool, inBlock, iter) && TestPackage(totals)
      requires Sum(pool, Weight, package) <= WITNESS_SCALE_FACTOR * totals.size
          && Sum(pool, SigOps, package) <= totals.sigOps
      requires AllAllowed(pool, includeWitness, package)
      modifies this
      ensures Valid() && RecordsOk(pool, inBlock, failed, mods', inBlock)
      ensures inBlock == old(inBlock) + package && old(block) <= block && includeWitness == old(includeWitness)
      ensures mods.Keys - package <= mods'.Keys
    {
      ghost var before := inBlock;
      assert TxOk(pool, bytesPerSigOp, iter);
      assert package <= pool.Keys;
      var sorted := SortForBlock(pool, package);
      SortedExtends(pool, bytesPerSigOp, inBlock, iter, sorted);
      EraseKeeps(pool, inBlock, failed, mods, inBlock, package);
      forall t | t in before ensures t in pool && pool[t].ancestors <= before {
        assert InBlockOf(pool, before, t);
      }
      mods' := AddPackage(sorted, package, mods);
      mods' := UpdatePackagesForAdded(pool, package, mods', bytesPerSigOp, before, failed);
    }

    /** The verdict on a candidate with the given totals. */
    ghost function Deserved(iter: TxId, totals: Totals): Verdict
      requires iter in pool
      reads this
    {
      if totals.modFees < GetFee(feePerK, totals.size) then TooCheap
      else if !TestPackage(totals) then NoRoom
      else if !AllAllowed(pool, includeWitness, Remaining(pool, inBlock, iter)) then NotAllowed
      else Added
    }

    method Judge(iter: TxId, totals: Totals) returns (verdict: Verdict, package: set<TxId>)
      requires WellFormed(pool, bytesPerSigOp) && iter in pool && iter !in inBlock
      ensures verdict == Deserved(iter, totals)
      ensures verdict == Added ==> package == Remaining(pool, inBlock, iter)
    {
      package := {};
      if totals.modFees < GetFee(feePerK, totals.size) {
        return TooCheap, package;
      }
      if !TestPackage(totals) {
        return NoRoom, package;
      }
      package := OnlyUnconfirmed(pool[iter].ancestors);
      package := package + {iter};
      assert package == Remaining(pool, inBlock, iter);
      assert TxOk(pool, bytesPerSigOp, iter);
      var ok := TestPackageTransactions(package);
      verdict := if ok then Added else NotAllowed;
    }

    /** What one turn of the selection loop does with the candidate it picked. */
    method Consider(iter: TxId, usingModified: bool, mods: map<TxId, Totals>, failed: set<TxId>)
      returns (verdict: Verdict, mods': map<TxId, Totals>, failed': set<TxId>)
      requires Valid() && RecordsOk(pool, inBlock, failed, mods, inBlock) && iter in pool && iter !in inBlock
      requires (usingModified <==> iter in mods) && (!usingModified ==> iter !in failed)
      modifies this
      ensures Valid() && RecordsOk(pool, inBlock, failed', mods', inBlock)
      ensures verdict == old(Deserved(iter, TotalsFor(pool, mods, usingModified, iter)))
      ensures old(block) <= block && includeWitness == old(includeWitness)
      ensures inBlock == if verdict == Added then old(inBlock + Remaining(pool, inBlock, iter)) else old(inBlock)
      ensures verdict != Added ==> block == old(block)
      ensures verdict == Added ==> Left(pool, inBlock) < Left(pool, old(inBlock))
      ensures (verdict.NoRoom? || verdict.NotAllowed?) && usingModified ==> |mods'.Keys| < |mods.Keys|
      ensures verdict != TooCheap ==> Fared(old(inBlock), mods, failed, iter, usingModified, verdict, mods', failed')
      ensures verdict != TooCheap ==>
        JudgedWell(pool, nBlockMaxWeight, includeWitness, old(inBlock), failed, iter, verdict)
    {
      mods', failed' := mods, failed;
      var totals := TotalsFor(pool, mods, usingModified, iter);
      var package;
      verdict, package := Judge(iter, totals);
      TotalsBound(pool, bytesPerSigOp, inBlock, failed, mods, usingModified, iter);
      WeighedWell(failed, iter, totals);
      if verdict == Added {
        Joined(pool, inBlock, package, iter);
        mods' := Accept(iter, package, mods, failed, totals);
      } else if verdict != TooCheap {
        if iter !in failed {
          TurnedDown(iter, totals);
        }
        if usingModified {
          FailKeeps(pool, inBlock, failed, mods, inBlock, iter);
          mods', failed' := mods - {iter}, failed + {iter};
        }
      }
    }

    /** Totals that bound what remains of a package, exactly unless it failed before, lead to the right verdict. */
    lemma WeighedWell(failed: set<TxId>, iter: TxId, totals: Totals)
      requires WellFormed(pool, bytesPerSigOp) && Counted() && iter in pool && iter !in inBlock
      requires var rest := Remaining(pool, inBlock, iter);
               && Sum(pool, Size, rest) <= totals.size && Sum(pool, SigOps, rest) <= totals.sigOps
               && (iter !in failed ==> totals.size == Sum(pool, Size, rest) && totals.sigOps == Sum(pool, SigOps, rest))
      ensures Deserved(iter, totals) != TooCheap ==>
        JudgedWell(pool, nBlockMaxWeight, includeWitness, inBlock, failed, iter, Deserved(iter, totals))
    {
    }

    /** A candidate turned down on exact totals is rejected. */
    lemma TurnedDown(iter: TxId, totals: Totals)
      requires Counted() && iter in pool && iter !in inBlock
      requires Deserved(iter, totals).NoRoom? || Deserved(iter, totals).NotAllowed?
      requires var rest := Remaining(pool, inBlock, iter);
               totals.size == Sum(pool, Size, rest) && totals.sigOps == Sum(pool, SigOps, rest)
      ensures RejectedAt(pool, nBlockMaxWeight, includeWitness, inBlock, iter)
    {
    }

    /** The next candidate: the next pool entry or the best recorded one, whichever scores better. So neither a
        recorded entry nor a pool entry to come beats it. */
    method Pick(mi: nat, mods: map<TxId, Totals>, ghost failed: set<TxId>)
        returns (iter: TxId, usingModified: bool, mi': nat)
      requires Valid() && RecordsOk(pool, inBlock, failed, mods, inBlock) && mi <= |order|
          && (mi != |order| || mods != map[])
      requires mi != |order| ==> !SkipMapTxEntry(order[mi], mods, failed)
      ensures iter in pool && iter !in inBlock && (usingModified <==> iter in mods)
          && (!usingModified ==> iter !in failed)
      ensures if usingModified then mi' == mi else mi < |order| && mi' == mi + 1 && iter == order[mi]
      ensures var c := Candidate(iter, TotalsFor(pool, mods, usingModified, iter));
              c.Sized() && Unbeaten(mods, c) && Ahead(pool, order, mi, c)
    {
      mi', usingModified := mi, false;
      assert InPool(pool, order, mi);
      RecordsSized(mods, failed);
      if mi < |order| {
        TotalsSized(pool, bytesPerSigOp, inBlock, order[mi]);
      }
      if mods != map[] {
        iter := BestRecorded(mods);
        assert Tracked(pool, inBlock, failed, mods, inBlock, iter);
        var best := Candidate(iter, mods[iter]);
        usingModified := mi == |order| || Better(best, Candidate(order[mi], pool[order[mi]].totals));
        if !usingModified {
          BestLoses(mods, best, Candidate(order[mi], pool[order[mi]].totals));
        }
      }
      if !usingModified {
        iter, mi' := order[mi], mi + 1;
      }
      if mi < |order| {
        AheadOfPool(pool, bytesPerSigOp, order, mi, Candidate(iter, TotalsFor(pool, mods, usingModified, iter)));
      }
    }

    lemma RecordsSized(mods: map<TxId, Totals>, failed: set<TxId>)
      requires WellFormed(pool, bytesPerSigOp) && RecordsOk(pool, inBlock, failed, mods, inBlock)
      ensures forall u :: u in mods ==> mods[u].size > 0
    {
      forall u | u in mods ensures mods[u].size > 0 {
        assert Tracked(pool, inBlock, failed, mods, inBlock, u);
        TotalsSized(pool, bytesPerSigOp, inBlock, u);
      }
    }

    lemma BestLoses(mods: map<TxId, Totals>, best: Candidate, c: Candidate)
      requires (forall u :: u in mods ==> mods[u].size > 0) && Unbeaten(mods, best) && best.Sized() && c.Sized()
          && !Better(best, c)
      ensures Unbeaten(mods, c)
    {
      forall u ensures BeatsNot(mods, c, u) {
        assert BeatsNot(mods, best, u);
        if u in mods {
          NotBetter(Candidate(u, mods[u]), best, c);
        }
      }
    }

    /** How much is left to look at while no package is added. */
    ghost function ToSee(mi: int, mods: map<TxId, Totals>): int {
      |order| - mi + |mods.Keys|
    }

    /** One turn of the selection loop, which always gets closer to its end. */
    method Turn(mi: nat, mods: map<TxId, Totals>, failed: set<TxId>)
      returns (verdict: Verdict, mi': nat, mods': map<TxId, Totals>, failed': set<TxId>, ghost iter: TxId)
      requires Valid() && RecordsOk(pool, inBlock, failed, mods, inBlock) && mi <= |order|
          && (mi != |order| || mods != map[])
      requires Progress(pool, nBlockMaxWeight, includeWitness, block, mods, failed, order, mi)
      modifies this
      ensures Outcome(pool, order, nBlockMaxWeight, includeWitness, old(inBlock), mods, failed, mi, iter, verdict,
        inBlock, mods', failed', mi')
      ensures Valid() && RecordsOk(pool, inBlock, failed', mods', inBlock) && mi' <= |order|
      ensures verdict != TooCheap ==> Progress(pool, nBlockMaxWeight, includeWitness, block, mods', failed', order, mi')
      ensures verdict == TooCheap ==> SomeUnderpaid(pool, nBlockMaxWeight, includeWitness, feePerK, block)
      ensures verdict == TooCheap ==> AllExplained(pool, nBlockMaxWeight, includeWitness, feePerK, block)
      ensures old(block) <= block && includeWitness == old(includeWitness)
      ensures verdict == Added ==> Left(pool, inBlock) < Left(pool, old(inBlock))
      ensures verdict != Added ==> inBlock == old(inBlock)
      ensures !verdict.Added? && !verdict.TooCheap? ==> ToSee(mi', mods') < ToSee(mi, mods)
    {
      if mi != |order| && SkipMapTxEntry(order[mi], mods, failed) {
        SkipProgress(mods, failed, mi);
        return Skipped, mi + 1, mods, failed, order[mi];
      }
      verdict, mi', mods', failed', iter := TakeTurn(mi, mods, failed);
    }

    lemma SkipProgress(mods: map<TxId, Totals>, failed: set<TxId>, mi: nat)
      requires mi < |order| && SkipMapTxEntry(order[mi], mods, failed) && Lists(block, inBlock)
      requires Progress(pool, nBlockMaxWeight, includeWitness, block, mods, failed, order, mi)
      ensures Progress(pool, nBlockMaxWeight, includeWitness, block, mods, failed, order, mi + 1)
      ensures Outcome(pool, order, nBlockMaxWeight, includeWitness, inBlock, mods, failed, mi, order[mi], Skipped,
        inBlock, mods, failed, mi + 1)
    {
      assert FailedOk(pool, nBlockMaxWeight, includeWitness, block, failed, order[mi])
        && ListedIn(block, inBlock, order[mi]);
      ProgressKeeps(pool, nBlockMaxWeight, includeWitness, block, mods, failed, order, mi, block, mods, failed, mi + 1);
    }

    /** A turn that does not skip. */
    method TakeTurn(mi: nat, mods: map<TxId, Totals>, failed: set<TxId>)
      returns (verdict: Verdict, mi': nat, mods': map<TxId, Totals>, failed': set<TxId>, ghost candidate: TxId)
      requires Valid() && RecordsOk(pool, inBlock, failed, mods, inBlock) && mi <= |order|
          && (mi != |order| || mods != map[])
      requires Progress(pool, nBlockMaxWeight, includeWitness, block, mods, failed, order, mi)
      requires mi != |order| ==> !SkipMapTxEntry(order[mi], mods, failed)
      modifies this
      ensures Outcome(pool, order, nBlockMaxWeight, includeWitness, old(inBlock), mods, failed, mi, candidate, verdict,
        inBlock, mods', failed', mi')
      ensures Valid() && RecordsOk(pool, inBlock, failed', mods', inBlock) && mi' <= |order| && verdict != Skipped
      ensures verdict != TooCheap ==> Progress(pool, nBlockMaxWeight, includeWitness, block, mods', failed', order, mi')
      ensures verdict == TooCheap ==> SomeUnderpaid(pool, nBlockMaxWeight, includeWitness, feePerK, block)
      ensures verdict == TooCheap ==> AllExplained(pool, nBlockMaxWeight, includeWitness, feePerK, block)
      ensures old(block) <= block && includeWitness == old(includeWitness)
      ensures verdict == Added ==> Left(pool, inBlock) < Left(pool, old(inBlock))
      ensures verdict != Added ==> inBlock == old(inBlock)
      ensures !verdict.Added? && !verdict.TooCheap? ==> ToSee(mi', mods') < ToSee(mi, mods)
    {
      ghost var before, inBefore := block, inBlock;
      var iter, usingModified;
      iter, usingModified, mi' := Pick(mi, mods, failed);
      candidate := iter;
      IfTooCheap(mods, failed, mi, iter, usingModified);
      verdict, mods', failed' := Consider(iter, usingModified, mods, failed);
      if verdict != TooCheap {
        FaredOutcome(inBefore, mods, failed, mi, iter, usingModified, verdict, mods', failed', mi');
        TurnProgress(before, inBefore, mods, failed, mi, iter, usingModified, verdict, mods', failed', mi');
      }
    }

    /** If the candidate picked is too cheap, it and all the rest pay too little. */
    lemma IfTooCheap(mods: map<TxId, Totals>, failed: set<TxId>, mi: nat, iter: TxId, usingModified: bool)
      requires Valid() && RecordsOk(pool, inBlock, failed, mods, inBlock)
      requires Progress(pool, nBlockMaxWeight, includeWitness, block, mods, failed, order, mi)
      requires iter in pool && iter !in inBlock && (usingModified <==> iter in mods)
          && (!usingModified ==> iter !in failed)
      requires var c := Candidate(iter, TotalsFor(pool, mods, usingModified, iter));
               c.Sized() && Unbeaten(mods, c) && Ahead(pool, order, mi, c)
      ensures Deserved(iter, TotalsFor(pool, mods, usingModified, iter)) == TooCheap ==>
        && SomeUnderpaid(pool, nBlockMaxWeight, includeWitness, feePerK, block)
        && AllExplained(pool, nBlockMaxWeight, includeWitness, feePerK, block)
    {
      var totals := TotalsFor(pool, mods, usingModified, iter);
      if totals.modFees < GetFee(feePerK, totals.size) {
        TotalsBound(pool, bytesPerSigOp, inBlock, failed, mods, usingModified, iter);
        assert FailedOk(pool, nBlockMaxWeight, includeWitness, block, failed, iter);
        IsUnderpaid(failed, iter, totals);
        RestIsCheap(mods, failed, mi, Candidate(iter, totals));
      }
    }

    /** What became of the candidate: it joined the block, or it was rejected, on its true totals
        unless it had failed before, and a modified entry is then dropped and remembered. */
    ghost predicate Fared(before: set<TxId>, mods: map<TxId, Totals>, failed: set<TxId>, iter: TxId,
        usingModified: bool, verdict: Verdict,
                          mods': map<TxId, Totals>, failed': set<TxId>)
      reads this
    {
      && (verdict.NoRoom? || verdict.NotAllowed? || verdict.Added?) && before <= inBlock && iter in pool
      && if verdict == Added then
           && inBlock == before + Remaining(pool, before, iter) && mods.Keys - inBlock <= mods'.Keys
           && failed' == failed
         else
           && inBlock == before && mods' == (if usingModified then mods - {iter} else mods)
           && failed' == failed + (if usingModified then {iter} else {})
           && (iter !in failed ==> RejectedAt(pool, nBlockMaxWeight, includeWitness, inBlock, iter))
    }

    lemma FaredOutcome(before: set<TxId>, mods: map<TxId, Totals>, failed: set<TxId>, mi: nat, iter: TxId,
                       usingModified: bool, verdict: Verdict, mods': map<TxId, Totals>, failed': set<TxId>, mi': nat)
      requires Fared(before, mods, failed, iter, usingModified, verdict, mods', failed')
      requires JudgedWell(pool, nBlockMaxWeight, includeWitness, before, failed, iter, verdict)
      requires (usingModified <==> iter in mods) && (!usingModified ==> iter !in failed)
      requires if usingModified then mi' == mi else mi < |order| && mi' == mi + 1 && iter == order[mi]
      ensures Outcome(pool, order, nBlockMaxWeight, includeWitness, before, mods, failed, mi, iter, verdict, inBlock,
        mods', failed', mi')
    {
      assert iter !in mods ==> mods - {iter} == mods;
    }

    /** However the candidate fared, it is settled. */
    lemma TurnProgress(before: seq<TxId>, inBefore: set<TxId>, mods: map<TxId, Totals>, failed: set<TxId>, mi: nat,
                       iter: TxId, usingModified: bool, verdict: Verdict, mods': map<TxId, Totals>,
                       failed': set<TxId>, mi': nat)
      requires Progress(pool, nBlockMaxWeight, includeWitness, before, mods, failed, order, mi) && mi <= |order|
      requires before <= block && Lists(block, inBlock)
      requires Fared(inBefore, mods, failed, iter, usingModified, verdict, mods', failed')
      requires if usingModified then mi' == mi
               else mi < |order| && mi' == mi + 1 && iter == order[mi] && iter !in failed
      ensures Progress(pool, nBlockMaxWeight, includeWitness, block, mods', failed', order, mi')
    {
      assert FailedOk(pool, nBlockMaxWeight, includeWitness, before, failed, iter);
      StillRejected(pool, nBlockMaxWeight, includeWitness, before, block, iter);
      RejectedNow(pool, nBlockMaxWeight, includeWitness, block, inBlock, iter);
      assert verdict == Added ==> iter in Remaining(pool, inBefore, iter) || iter in inBefore;
      forall t | t in inBlock ensures t in block {
        assert ListedIn(block, inBlock, t);
      }
      ProgressKeeps(pool, nBlockMaxWeight, includeWitness, before, mods, failed, order, mi, block, mods', failed', mi');
    }

    /** A candidate that is too cheap was rejected before, has a prioritised ancestor, or truly pays too little. */
    lemma IsUnderpaid(failed: set<TxId>, iter: TxId, totals: Totals)
      requires Lists(block, inBlock) && iter in pool && iter !in inBlock
          && totals.modFees < GetFee(feePerK, totals.size)
      requires FailedOk(pool, nBlockMaxWeight, includeWitness, block, failed, iter)
      requires var rest := Remaining(pool, inBlock, iter);
               iter !in failed ==>
                 && totals.size == Sum(pool, Size, rest)
                 && (NoDeltas(pool, Package(pool, iter) * inBlock) ==> totals.modFees == Sum(pool, ModFee, rest))
      ensures Underpaid(pool, nBlockMaxWeight, includeWitness, feePerK, block, iter)
    {
      RejectedNow(pool, nBlockMaxWeight, includeWitness, block, inBlock, iter);
    }

    /** When the best candidate pays too little, so does everything else that was not rejected. */
    lemma RestIsCheap(mods: map<TxId, Totals>, failed: set<TxId>, mi: nat, c: Candidate)
      requires Valid() && RecordsOk(pool, inBlock, failed, mods, inBlock)
      requires Progress(pool, nBlockMaxWeight, includeWitness, block, mods, failed, order, mi)
      requires c.Sized() && Unbeaten(mods, c) && Ahead(pool, order, mi, c)
          && c.totals.modFees < GetFee(feePerK, c.totals.size)
      ensures AllExplained(pool, nBlockMaxWeight, includeWitness, feePerK, block)
    {
      CheapIsBelowRate(feePerK, c.totals.modFees, c.totals.size);
      RejectedNow(pool, nBlockMaxWeight, includeWitness, block, inBlock, c.id);
      forall t ensures Explained(pool, nBlockMaxWeight, includeWitness, feePerK, block, t) {
        assert FailedOk(pool, nBlockMaxWeight, includeWitness, block, failed, t);
        if t in pool && t !in block && t !in failed {
          assert ListedIn(block, inBlock, t) && ListedIn(order, pool.Keys, t);
          var i :| 0 <= i < |order| && order[i] == t;
          assert SettledAt(pool, nBlockMaxWeight, includeWitness, block, mods, order, mi, i);
          if t in mods || mi <= i {
            IsCheap(mods, failed, mi, c, i);
          }
        }
      }
    }

    lemma IsCheap(mods: map<TxId, Totals>, failed: set<TxId>, mi: nat, c: Candidate, i: nat)
      requires Valid() && RecordsOk(pool, inBlock, failed, mods, inBlock) && Elements(block) == inBlock
      requires c.Sized() && Unbeaten(mods, c) && Ahead(pool, order, mi, c)
      requires BelowRate(feePerK, c.totals.modFees, c.totals.size)
      requires i < |order| && order[i] in pool && order[i] !in inBlock && order[i] !in failed
          && (order[i] in mods || mi <= i)
      ensures Explained(pool, nBlockMaxWeight, includeWitness, feePerK, block, order[i])
    {
      var t := order[i];
      var totals := TotalsFor(pool, mods, t in mods, t);
      assert BeatsNot(mods, c, t) && AheadAt(pool, order, mi, c, i);
      TotalsBound(pool, bytesPerSigOp, inBlock, failed, mods, t in mods, t);
      TotalsSized(pool, bytesPerSigOp, inBlock, t);
      NotBetterBelowRate(feePerK, Candidate(t, totals), c);
    }

    /** addPackageTxs terminates, and only ever extends the block to another valid one. Unless it stops after
        many failures on a nearly full block, every pool entry left out was rejected at some point, on the true
        totals of what then remained of its package, or, if it stops at a candidate that pays too little, pays
        too little as well. The block is what the decisions taken make it, each of them right when it was taken;
        it gives up exactly when it should; and at the end of the pool everything was decided. */
    method AddPackageTxs() returns (nPackagesSelected: nat, stop: Stop, ghost trace: seq<Decision>)
      requires Valid()
      modifies this
      ensures Valid() && old(block) <= block && includeWitness == old(includeWitness)
      ensures stop == PaysTooLittle ==> SomeUnderpaid(pool, nBlockMaxWeight, includeWitness, feePerK, block)
      ensures stop == PaysTooLittle ==> AllExplained(pool, nBlockMaxWeight, includeWitness, feePerK, block)
      ensures stop == NearlyFull ==> nBlockWeight > nBlockMaxWeight - 4000
      ensures Ended(old(inBlock), trace, stop, nPackagesSelected)
      ensures stop == Exhausted ==> forall t :: t in pool ==> t in inBlock || t in Turned(trace)
      ensures stop == Exhausted ==> forall t :: t in pool ==>
          t in block || Rejected(pool, nBlockMaxWeight, includeWitness, block, t)
    {
      nPackagesSelected, stop, trace := 0, Exhausted, [];
      var failed: set<TxId> := {};
      var mods := Begin(failed);
      var mi, nConsecutiveFailed := 0, 0;
      ghost var start := inBlock;
      NoTrace(mods, failed);
      while mi != |order| || mods != map[]
        invariant Valid() && old(block) <= block && includeWitness == old(includeWitness)
        invariant 0 <= mi <= |order| && RecordsOk(pool, inBlock, failed, mods, inBlock)
        invariant Progress(pool, nBlockMaxWeight, includeWitness, block, mods, failed, order, mi)
        invariant Running(start, trace, mods, failed, mi, nConsecutiveFailed, nPackagesSelected) && stop == Exhausted
        decreases Left(pool, inBlock), ToSee(mi, mods)
      {
        stop, mi, mods, failed, nConsecutiveFailed, nPackagesSelected, trace :=
          CountedTurn(mi, mods, failed, nConsecutiveFailed, nPackagesSelected, start, trace);
        if stop != Exhausted {
          return;
        }
      }
      AllDecided(start, trace, mods, failed, mi, nConsecutiveFailed, nPackagesSelected);
    }

    /** The loop variables between two turns. */
    ghost predicate Running(start: set<TxId>, trace: seq<Decision>, mods: map<TxId, Totals>, failed: set<TxId>, mi: nat,
                            nConsecutiveFailed: nat, nPackagesSelected: nat)
      reads this
    {
      && Traced(pool, order, nBlockMaxWeight, includeWitness, start, trace, inBlock, mods, failed, mi)
      && WentOn(pool, nBlockMaxWeight, start, trace) && !GivesUp(pool, nBlockMaxWeight, start, trace)
      && nConsecutiveFailed == |Crowded(trace)| && nPackagesSelected == Packages(trace)
    }

    /** The loop has ended with these decisions. */
    ghost predicate Ended(start: set<TxId>, trace: seq<Decision>, stop: Stop, nPackagesSelected: nat)
      reads this
    {
      && inBlock == InAfter(pool, start, trace) && nPackagesSelected == Packages(trace)
      && AllRight(pool, nBlockMaxWeight, includeWitness, start, trace)
      && WentOn(pool, nBlockMaxWeight, start, trace)
      && (stop == NearlyFull <==> GivesUp(pool, nBlockMaxWeight, start, trace))
    }

    lemma NoTrace(mods: map<TxId, Totals>, failed: set<TxId>)
      requires failed == {}
      ensures Running(inBlock, [], mods, failed, 0, 0, 0)
      ensures Progress(pool, nBlockMaxWeight, includeWitness, block, mods, failed, order, 0)
    {
      forall t ensures GoneAt(order, {}, mods, failed, 0, t) {
      }
      forall i ensures SeenAt(order, {}, inBlock, mods, 0, i) {
      }
      forall i ensures RightAt(pool, nBlockMaxWeight, includeWitness, inBlock, [], i) {
      }
    }

    /** One turn, and whether it is the last. */
    method CountedTurn(mi: nat, mods: map<TxId, Totals>, failed: set<TxId>, nConsecutiveFailed: nat,
                       nPackagesSelected: nat, ghost start: set<TxId>, ghost trace: seq<Decision>)
      returns (stop: Stop, mi': nat, mods': map<TxId, Totals>, failed': set<TxId>, nConsecutiveFailed': nat,
               nPackagesSelected': nat, ghost trace': seq<Decision>)
      requires Valid() && RecordsOk(pool, inBlock, failed, mods, inBlock) && mi <= |order|
          && (mi != |order| || mods != map[])
      requires Progress(pool, nBlockMaxWeight, includeWitness, block, mods, failed, order, mi)
      requires Running(start, trace, mods, failed, mi, nConsecutiveFailed, nPackagesSelected)
      modifies this
      ensures Valid() && RecordsOk(pool, inBlock, failed', mods', inBlock) && mi' <= |order|
      ensures old(block) <= block && includeWitness == old(includeWitness)
      ensures stop == PaysTooLittle ==> SomeUnderpaid(pool, nBlockMaxWeight, includeWitness, feePerK, block)
      ensures stop == PaysTooLittle ==> AllExplained(pool, nBlockMaxWeight, includeWitness, feePerK, block)
      ensures stop == Exhausted ==>
        && Progress(pool, nBlockMaxWeight, includeWitness, block, mods', failed', order, mi')
        && Running(start, trace', mods', failed', mi', nConsecutiveFailed', nPackagesSelected')
      ensures stop == Exhausted ==>
        || Left(pool, inBlock) < Left(pool, old(inBlock))
        || (inBlock == old(inBlock) && ToSee(mi', mods') < ToSee(mi, mods))
      ensures Ended(start, trace', stop, nPackagesSelected')
    {
      stop, nConsecutiveFailed', nPackagesSelected' := Exhausted, nConsecutiveFailed, nPackagesSelected;
      ghost var at := inBlock;
      var verdict;
      ghost var iter;
      verdict, mi', mods', failed', iter := Turn(mi, mods, failed);
      match verdict {
        case TooCheap => stop := PaysTooLittle;
        case NoRoom =>
          nConsecutiveFailed' := nConsecutiveFailed + 1;
          if nConsecutiveFailed' > MAX_CONSECUTIVE_FAILURES && nBlockWeight > nBlockMaxWeight - 4000 {
            stop := NearlyFull;
          }
        case NotAllowed =>
        case Skipped =>
        case Added => nConsecutiveFailed', nPackagesSelected' := 0, nPackagesSelected + 1;
      }
      trace' := TurnRecorded(start, trace, at, mods, failed, mi, nConsecutiveFailed, nPackagesSelected, iter, verdict,
        mods', failed', mi', nConsecutiveFailed', nPackagesSelected', stop);
    }

    /** The counters and the decision to stop follow the verdict. */
    lemma TurnRecorded(start: set<TxId>, trace: seq<Decision>, at: set<TxId>, mods: map<TxId, Totals>,
                       failed: set<TxId>, mi: nat, nFailed: nat, nPackages: nat, iter: TxId, verdict: Verdict,
                       mods': map<TxId, Totals>, failed': set<TxId>, mi': nat, nFailed': nat, nPackages': nat,
                       stop: Stop)
      returns (trace': seq<Decision>)
      requires Counted() && PoolOk()
      requires Traced(pool, order, nBlockMaxWeight, includeWitness, start, trace, at, mods, failed, mi)
      requires WentOn(pool, nBlockMaxWeight, start, trace) && !GivesUp(pool, nBlockMaxWeight, start, trace)
      requires nFailed == |Crowded(trace)| && nPackages == Packages(trace)
      requires Outcome(pool, order, nBlockMaxWeight, includeWitness, at, mods, failed, mi, iter, verdict, inBlock,
        mods', failed', mi')
      requires nFailed' == if verdict == Added then 0 else nFailed + if verdict == NoRoom then 1 else 0
      requires nPackages' == nPackages + if verdict == Added then 1 else 0
      requires stop == if verdict == TooCheap then PaysTooLittle
                       else if verdict == NoRoom && nFailed' > 1000 && nBlockWeight > nBlockMaxWeight - 4000
                       then NearlyFull else Exhausted
      ensures Ended(start, trace', stop, nPackages')
      ensures stop == Exhausted ==> Running(start, trace', mods', failed', mi', nFailed', nPackages')
    {
      trace' := TraceKeeps(pool, order, nBlockMaxWeight, includeWitness, start, trace, at, mods, failed, mi, iter,
        verdict, inBlock, mods', failed', mi');
      GivesUpNow(pool, nBlockMaxWeight, start, trace, trace', verdict, nBlockWeight);
    }

    /** At the end of the pool, with no record left, every entry is in the block or was turned down. */
    lemma AllDecided(start: set<TxId>, trace: seq<Decision>, mods: map<TxId, Totals>, failed: set<TxId>, mi: nat,
                     nConsecutiveFailed: nat, nPackagesSelected: nat)
      requires PoolOk() && mi == |order| && mods == map[]
      requires Progress(pool, nBlockMaxWeight, includeWitness, block, mods, failed, order, mi)
      requires Running(start, trace, mods, failed, mi, nConsecutiveFailed, nPackagesSelected)
      ensures forall t :: t in pool ==> t in block || Rejected(pool, nBlockMaxWeight, includeWitness, block, t)
      ensures forall t :: t in pool ==> t in inBlock || t in Turned(trace)
      ensures Ended(start, trace, Exhausted, nPackagesSelected)
    {
      forall t | t in pool
        ensures t in block || Rejected(pool, nBlockMaxWeight, includeWitness, block, t)
        ensures t in inBlock || t in Turned(trace)
      {
        assert ListedIn(order, pool.Keys, t);
        var i :| 0 <= i < |order| && order[i] == t;
        assert SettledAt(pool, nBlockMaxWeight, includeWitness, block, mods, order, mi, i);
        assert SeenAt(order, Turned(trace), inBlock, mods, mi, i);
      }
    }

    /** The records start out right for whatever is in the block already. */
    method Begin(ghost failed: set<TxId>) returns (mods: map<TxId, Totals>)
      requires Valid() && failed == {}
      ensures RecordsOk(pool, inBlock, failed, mods, inBlock)
    {
      forall t | t in inBlock ensures t in pool {
        assert InBlockOf(pool, inBlock, t);
      }
      mods := UpdatePackagesForAdded(pool, inBlock, map[], bytesPerSigOp, {}, failed);
      assert {} + inBlock == inBlock;
    }
  }

  /** Why the selection loop ends. */
  datatype Stop = Exhausted | PaysTooLittle | NearlyFull

  /** How many transactions are not in the block. */
  function Left(pool: Pool, inBlock: set<TxId>): nat {
    |pool.Keys - inBlock|
  }

  lemma Fewer(more: set<TxId>, less: set<TxId>, t: TxId)
    requires less <= more && t in more && t !in less
    ensures |less| < |more|
  {
    assert more == less + (more - less) && t in more - less;
  }

  lemma Joined(pool: Pool, inBlock: set<TxId>, package: set<TxId>, t: TxId)
    requires t in pool && t !in inBlock && t in package
    ensures Left(pool, inBlock + package) < Left(pool, inBlock)
  {
    Fewer(pool.Keys - inBlock, pool.Keys - (inBlock + package), t);
  }
}
