/** The memory pool as the block assembler of src/miner.cpp sees it: a finite DAG of transactions,
    given by each transaction's set of in-pool ancestors. */
module Mempool {

  const WITNESS_SCALE_FACTOR := 4

  datatype TxId = TxId(n: nat)

  /** Sums over a transaction and its ancestors, as cached by the pool and kept up to date by
      the assembler (CTxMemPoolModifiedEntry). */
  datatype Totals = Totals(size: int, modFees: int, sigOps: int)

  datatype Tx = Tx(
    size: nat, weight: nat, fee: int, modFee: int, sigOps: nat, isFinal: bool, hasWitness: bool,
    ancestors: set<TxId>, totals: Totals)

  type Pool = map<TxId, Tx>

  /** GetVirtualTransactionSize. */
  function VirtualSize(weight: nat, sigOps: nat, bytesPerSigOp: nat): nat {
    ((if weight < sigOps * bytesPerSigOp then sigOps * bytesPerSigOp else weight)
        + WITNESS_SCALE_FACTOR - 1) / WITNESS_SCALE_FACTOR
  }

  ghost predicate TxOk(pool: Pool, bytesPerSigOp: nat, t: TxId) {
    t in pool ==>
      && pool[t].weight > 0 && pool[t].size == VirtualSize(pool[t].weight, pool[t].sigOps, bytesPerSigOp)
      && t !in pool[t].ancestors && pool[t].totals == TotalsOf(pool, Package(pool, t))
      && forall a :: a in pool[t].ancestors ==> a in pool && pool[a].ancestors <= pool[t].ancestors
  }

  ghost function TotalsOf(pool: Pool, s: set<TxId>): Totals {
    Totals(Sum(pool, Size, s), Sum(pool, ModFee, s), Sum(pool, SigOps, s))
  }

  /** Ancestor sets are within the pool, transitively closed and acyclic; sizes and cached totals are right. */
  ghost predicate WellFormed(pool: Pool, bytesPerSigOp: nat) {
    forall t {:trigger TxOk(pool, bytesPerSigOp, t)} :: TxOk(pool, bytesPerSigOp, t)
  }

  /** A transaction together with its ancestors. */
  function Package(pool: Pool, t: TxId): set<TxId>
    requires t in pool
  {
    pool[t].ancestors + {t}
  }

  function Descendants(pool: Pool, t: TxId): set<TxId> {
    set d | d in pool && (d == t || t in pool[d].ancestors)
  }

  // ----- Sums over sets of transactions -----

  datatype Field = Size | Weight | Fee | ModFee | SigOps

  function Value(pool: Pool, f: Field, t: TxId): int {
    if t !in pool then 0
    else match f
      case Size => pool[t].size
      case Weight => pool[t].weight
      case Fee => pool[t].fee
      case ModFee => pool[t].modFee
      case SigOps => pool[t].sigOps
  }

  ghost function Sum(pool: Pool, f: Field, s: set<TxId>): int {
    if s == {} then 0
    else
      var t :| t in s;
      Value(pool, f, t) + Sum(pool, f, s - {t})
  }

  lemma {:induction false} SumRemove(pool: Pool, f: Field, s: set<TxId>, t: TxId)
    requires t in s
    ensures Sum(pool, f, s) == Value(pool, f, t) + Sum(pool, f, s - {t})
    decreases |s|
  {
    var u :| u in s && Sum(pool, f, s) == Value(pool, f, u) + Sum(pool, f, s - {u});
    if u != t {
      assert s - {u} - {t} == s - {t} - {u};
      SumRemove(pool, f, s - {u}, t);
      SumRemove(pool, f, s - {t}, u);
    }
  }

  lemma SumAdd(pool: Pool, f: Field, s: set<TxId>, t: TxId)
    requires t !in s
    ensures Sum(pool, f, s + {t}) == Sum(pool, f, s) + Value(pool, f, t)
  {
    SumRemove(pool, f, s + {t}, t);
    assert s + {t} - {t} == s;
  }

  lemma MoveOver(a: set<TxId>, b: set<TxId>, t: TxId)
    requires a !! b && t in b
    ensures t !in a + (b - {t}) && a + (b - {t}) + {t} == a + b
  {
  }

  lemma {:induction false} SumDisjoint(pool: Pool, f: Field, a: set<TxId>, b: set<TxId>)
    requires a !! b
    ensures Sum(pool, f, a + b) == Sum(pool, f, a) + Sum(pool, f, b)
    decreases |b|
  {
    if b == {} {
      assert a + b == a;
    } else {
      var t :| t in b;
      SumRemove(pool, f, b, t);
      SumDisjoint(pool, f, a, b - {t});
      MoveOver(a, b, t);
      SumAdd(pool, f, a + (b - {t}), t);
    }
  }

  /** Splitting a set by membership in another. */
  lemma SumSplit(pool: Pool, f: Field, s: set<TxId>, part: set<TxId>)
    ensures Sum(pool, f, s) == Sum(pool, f, s * part) + Sum(pool, f, s - part)
  {
    SumDisjoint(pool, f, s * part, s - part);
    assert s == s * part + (s - part);
  }

  lemma {:induction false} SumNonNegative(pool: Pool, f: Field, s: set<TxId>)
    requires f in {Size, Weight, SigOps}
    ensures Sum(pool, f, s) >= 0
    decreases |s|
  {
    if s != {} {
      var t :| t in s;
      SumRemove(pool, f, s, t);
      SumNonNegative(pool, f, s - {t});
    }
  }

  /** A package never weighs more than four times its virtual size. */
  lemma {:induction false} WeightWithinSize(pool: Pool, bytesPerSigOp: nat, s: set<TxId>)
    requires WellFormed(pool, bytesPerSigOp)
    ensures Sum(pool, Weight, s) <= WITNESS_SCALE_FACTOR * Sum(pool, Size, s)
    decreases |s|
  {
    if s != {} {
      var t :| t in s;
      assert TxOk(pool, bytesPerSigOp, t);
      SumRemove(pool, Weight, s, t);
      SumRemove(pool, Size, s, t);
      WeightWithinSize(pool, bytesPerSigOp, s - {t});
    }
  }

  /** An ancestor has strictly fewer ancestors than its descendant. */
  lemma AncestorHasFewer(pool: Pool, bytesPerSigOp: nat, t: TxId, a: TxId)
    requires WellFormed(pool, bytesPerSigOp) && t in pool && a in pool[t].ancestors
    ensures a in pool && |pool[a].ancestors| < |pool[t].ancestors|
  {
    assert TxOk(pool, bytesPerSigOp, t) && TxOk(pool, bytesPerSigOp, a);
    var more, fewer := pool[t].ancestors, pool[a].ancestors;
    assert more == fewer + (more - fewer) && a in more - fewer;
  }
}
