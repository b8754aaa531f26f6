/** The order in which the block assembler considers packages, and its minimum fee rate:
    src/miner.h, src/txmempool.h and src/policy/feerate.cpp, without rounding of products. */
module Scores {
  import opened Integers
  import opened Mempool

  /** An entry with the totals it is judged by. */
  datatype Candidate = Candidate(id: TxId, totals: Totals) {
    predicate Sized() {
      totals.size > 0
    }
  }

  /** CompareModifiedEntry, and CompareTxMemPoolEntryByAncestorFee on cached totals: the higher fee rate of the
      package first, then the lower hash. */
  predicate Better(a: Candidate, b: Candidate) {
    var f1, f2 := a.totals.modFees * b.totals.size, b.totals.modFees * a.totals.size;
    if f1 == f2 then a.id.n < b.id.n else f1 > f2
  }

  /** Fee rates compare transitively: a/s <= b/t and b/t <= c/u give a/s <= c/u, equal only if all are. */
  lemma RatesFollow(a: int, s: nat, b: int, t: nat, c: int, u: nat)
    requires s > 0 && t > 0 && u > 0 && a * t <= b * s && b * u <= c * t
    ensures a * u <= c * s
    ensures a * u == c * s ==> a * t == b * s && b * u == c * t
  {
    Monotone(a * t, b * s, u);
    Monotone(b * u, c * t, s);
    assert (a * t) * u == (a * u) * t && (b * s) * u == (b * u) * s && (c * t) * s == (c * s) * t;
    Cancel(a * u, c * s, t);
    if a * u == c * s {
      CancelEqual(a * t, b * s, u);
      CancelEqual(b * u, c * t, s);
    }
  }

  lemma Cancel(x: int, y: int, t: nat)
    requires t > 0 && x * t <= y * t
    ensures x <= y
  {
    if y + 1 <= x {
      Monotone(y + 1, x, t);
    }
  }

  lemma CancelEqual(x: int, y: int, t: nat)
    requires t > 0 && x * t == y * t
    ensures x == y
  {
    Cancel(x, y, t);
    Cancel(y, x, t);
  }

  /** Who is not better than one who is not better than c is not better than c. */
  lemma NotBetter(a: Candidate, b: Candidate, c: Candidate)
    requires a.Sized() && b.Sized() && c.Sized() && !Better(a, b) && !Better(b, c)
    ensures !Better(a, c)
  {
    RatesFollow(a.totals.modFees, a.totals.size, b.totals.modFees, b.totals.size, c.totals.modFees, c.totals.size);
  }

  /** The better one is not beaten by whom the other one is not beaten by. */
  lemma BetterUnbeaten(d: Candidate, b: Candidate, c: Candidate)
    requires d.Sized() && b.Sized() && c.Sized() && !Better(d, b) && (c == b || Better(c, b))
    ensures !Better(d, c)
  {
    if c != b {
      NotBetter(d, b, c);
    }
  }

  // ----- The minimum fee -----

  /** CFeeRate::GetFee. */
  function GetFee(perK: nat, size: int): int {
    var fee := perK * size / 1000;
    if fee == 0 && size != 0 && perK > 0 then 1 else fee
  }

  /** A package pays less than so much for 1000 bytes. */
  predicate BelowRate(perK: nat, fees: int, size: int) {
    1000 * fees < perK * size
  }

  /** The minimum fee is the rate for the size rounded down, but at least 1 when anything is asked at all. */
  lemma FeeRounds(perK: nat, size: nat)
    ensures var fee := GetFee(perK, size);
            if perK > 0 && size > 0 && perK * size < 1000 then fee == 1
            else 1000 * fee <= perK * size < 1000 * (fee + 1)
  {
    var all := perK * size;
    assert all == 1000 * (all / 1000) + all % 1000;
    Monotone(0, perK, size);
  }

  lemma CheapIsBelowRate(perK: nat, fees: int, size: nat)
    requires size > 0 && fees < GetFee(perK, size)
    ensures BelowRate(perK, fees, size)
  {
    Monotone(0, perK, size);
    var all := perK * size;
    assert all == 1000 * (all / 1000) + all % 1000;
    if perK > 0 {
      Monotone(1, perK, size);
    }
  }

  /** Who is not better than one that pays too little pays too little. */
  lemma NotBetterBelowRate(perK: nat, b: Candidate, c: Candidate)
    requires b.Sized() && c.Sized() && !Better(b, c) && BelowRate(perK, c.totals.modFees, c.totals.size)
    ensures BelowRate(perK, b.totals.modFees, b.totals.size)
  {
    var f, s, g, t := b.totals.modFees, b.totals.size, c.totals.modFees, c.totals.size;
    assert f * t <= g * s;
    RatesFollow(f, s, g, t, perK, 1000);
  }

  // ----- The best recorded entry -----

  ghost predicate BeatsNot(mods: map<TxId, Totals>, c: Candidate, u: TxId) {
    u in mods ==> !Better(Candidate(u, mods[u]), c)
  }

  /** No recorded entry beats the candidate. */
  ghost predicate Unbeaten(mods: map<TxId, Totals>, c: Candidate) {
    forall u {:trigger BeatsNot(mods, c, u)} :: BeatsNot(mods, c, u)
  }

  method BestRecorded(mods: map<TxId, Totals>) returns (best: TxId)
    requires mods != map[] && forall u :: u in mods ==> mods[u].size > 0
    ensures best in mods && Unbeaten(mods, Candidate(best, mods[best]))
  {
    best :| best in mods;
    var todo := mods.Keys - {best};
    while todo != {}
      invariant best in mods && todo <= mods.Keys
      invariant forall u :: u in mods && u !in todo ==> !Better(Candidate(u, mods[u]), Candidate(best, mods[best]))
      decreases todo
    {
      var u :| u in todo;
      var c, was := Candidate(u, mods[u]), Candidate(best, mods[best]);
      if Better(c, was) {
        forall t | t in mods && (t !in todo || t == u) ensures !Better(Candidate(t, mods[t]), c) {
          if t != u {
            NotBetter(Candidate(t, mods[t]), was, c);
          }
        }
        best := u;
      }
      todo := todo - {u};
    }
  }
}
