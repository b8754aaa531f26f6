/** What the selection loop of src/miner.cpp decided, told from the decisions alone. */
module MinerTrace {
  import opened Mempool
  import opened Miner

  /** A transaction that may be mined now. */
  predicate Allowed(pool: Pool, includeWitness: bool, t: TxId) {
    t in pool && pool[t].isFinal && (includeWitness || !pool[t].hasWitness)
  }

  ghost predicate Mined(pool: Pool, includeWitness: bool, inBlock: set<TxId>, t: TxId) {
    t in inBlock ==> Allowed(pool, includeWitness, t)
  }

  ghost predicate AllAllowed(pool: Pool, includeWitness: bool, inBlock: set<TxId>) {
    forall t {:trigger Mined(pool, includeWitness, inBlock, t)} :: Mined(pool, includeWitness, inBlock, t)
  }

  /** A package fits a block beside the coinbase: less than the given weight, at 4 a byte for what is
      added, and a signature cost below 80000. */
  ghost predicate FitsIn(pool: Pool, maxWeight: nat, at: set<TxId>, package: set<TxId>) {
    && 4000 + Sum(pool, Weight, at) + 4 * Sum(pool, Size, package) < maxWeight
    && 400 + Sum(pool, SigOps, at) + Sum(pool, SigOps, package) < 80000
  }

  /** How a turn of the selection loop ends. */
  datatype Verdict = Skipped | TooCheap | NoRoom | NotAllowed | Added

  datatype Decision = Decision(id: TxId, verdict: Verdict)

  /** The transactions in the block after these decisions. */
  ghost function InAfter(pool: Pool, start: set<TxId>, trace: seq<Decision>): set<TxId> {
    if trace == [] then start else
      var d, at := trace[|trace| - 1], InAfter(pool, start, trace[..|trace| - 1]);
      if d.verdict == Added && d.id in pool then at + Remaining(pool, at, d.id) else at
  }

  /** The entries turned down. */
  ghost function Turned(trace: seq<Decision>): set<TxId> {
    if trace == [] then {} else
      var d, before := trace[|trace| - 1], Turned(trace[..|trace| - 1]);
      if d.verdict == Added then before else before + {d.id}
  }

  /** The entries turned down since a package was last added. */
  ghost function Recent(trace: seq<Decision>): set<TxId> {
    if trace == [] then {} else
      var d := trace[|trace| - 1];
      if d.verdict == Added then {} else Recent(trace[..|trace| - 1]) + {d.id}
  }

  /** Those among them for which there was no room. */
  ghost function Crowded(trace: seq<Decision>): set<TxId> {
    if trace == [] then {} else
      var d, before := trace[|trace| - 1], Crowded(trace[..|trace| - 1]);
      if d.verdict == Added then {} else if d.verdict == NoRoom then before + {d.id} else before
  }

  /** How many packages were added. */
  ghost function Packages(trace: seq<Decision>): nat {
    if trace == [] then 0
    else Packages(trace[..|trace| - 1]) + if trace[|trace| - 1].verdict == Added then 1 else 0
  }

  /** The decision was right for the block it was taken on. Only an entry that was turned down for an
      earlier block may be refused room that it has. */
  ghost predicate Right(pool: Pool, maxWeight: nat, w: bool, start: set<TxId>, trace: seq<Decision>, d: Decision) {
    var at := InAfter(pool, start, trace);
    && d.id in pool && d.id !in at && d.id !in Recent(trace)
    && var rest := Remaining(pool, at, d.id);
       match d.verdict
       case Added => FitsIn(pool, maxWeight, at, rest) && AllAllowed(pool, w, rest)
       case NoRoom => !FitsIn(pool, maxWeight, at, rest) || d.id in Turned(trace)
       case NotAllowed => !AllAllowed(pool, w, rest)
       case _ => false
  }

  ghost predicate RightAt(pool: Pool, maxWeight: nat, w: bool, start: set<TxId>, trace: seq<Decision>, i: int) {
    0 <= i < |trace| ==> Right(pool, maxWeight, w, start, trace[..i], trace[i])
  }

  ghost predicate AllRight(pool: Pool, maxWeight: nat, w: bool, start: set<TxId>, trace: seq<Decision>) {
    forall i {:trigger RightAt(pool, maxWeight, w, start, trace, i)} :: RightAt(pool, maxWeight, w, start, trace, i)
  }

  /** The block is nearly full and has had no room for more than a thousand entries in a row. */
  ghost predicate GivesUp(pool: Pool, maxWeight: nat, start: set<TxId>, trace: seq<Decision>) {
    |Crowded(trace)| > 1000 && 4000 + Sum(pool, Weight, InAfter(pool, start, trace)) > maxWeight - 4000
  }

  /** It did not give up before. */
  ghost predicate WentOn(pool: Pool, maxWeight: nat, start: set<TxId>, trace: seq<Decision>) {
    forall k :: 0 <= k < |trace| ==> !GivesUp(pool, maxWeight, start, trace[..k])
  }

  lemma Decided(pool: Pool, maxWeight: nat, w: bool, start: set<TxId>, trace: seq<Decision>, d: Decision)
    requires AllRight(pool, maxWeight, w, start, trace) && Right(pool, maxWeight, w, start, trace, d)
    requires WentOn(pool, maxWeight, start, trace) && !GivesUp(pool, maxWeight, start, trace)
    ensures AllRight(pool, maxWeight, w, start, trace + [d]) && WentOn(pool, maxWeight, start, trace + [d])
  {
    var more := trace + [d];
    forall i ensures RightAt(pool, maxWeight, w, start, more, i) {
      assert RightAt(pool, maxWeight, w, start, trace, i);
      assert 0 <= i <= |trace| ==> more[..i] == trace[..i];
      assert trace[..|trace|] == trace;
    }
    forall k | 0 <= k < |more| ensures !GivesUp(pool, maxWeight, start, more[..k]) {
      assert more[..k] == trace[..k] && trace[..|trace|] == trace;
    }
  }

  /** What one more decision changes. */
  lemma OneMore(pool: Pool, start: set<TxId>, trace: seq<Decision>, d: Decision)
    requires d.id in pool && d.id !in Recent(trace)
    ensures var at := InAfter(pool, start, trace);
            InAfter(pool, start, trace + [d]) == if d.verdict == Added then at + Remaining(pool, at, d.id) else at
    ensures Turned(trace + [d]) == Turned(trace) + if d.verdict == Added then {} else {d.id}
    ensures Recent(trace + [d]) == if d.verdict == Added then {} else Recent(trace) + {d.id}
    ensures |Crowded(trace + [d])| == if d.verdict == Added then 0
                                      else |Crowded(trace)| + if d.verdict == NoRoom then 1 else 0
    ensures Packages(trace + [d]) == Packages(trace) + if d.verdict == Added then 1 else 0
  {
    assert (trace + [d])[..|trace|] == trace;
    CrowdedRecent(trace);
    CrowdedMore(trace, d);
  }

  lemma CrowdedMore(trace: seq<Decision>, d: Decision)
    requires d.id !in Crowded(trace)
    ensures |Crowded(trace + [d])| == if d.verdict == Added then 0
                                      else |Crowded(trace)| + if d.verdict == NoRoom then 1 else 0
  {
    assert (trace + [d])[..|trace|] == trace;
  }

  /** Whether it gives up is decided only when there is no room. */
  lemma GivesUpNow(pool: Pool, maxWeight: nat, start: set<TxId>, trace: seq<Decision>, trace': seq<Decision>,
                   verdict: Verdict, weight: nat)
    requires !GivesUp(pool, maxWeight, start, trace)
    requires verdict != Added ==> InAfter(pool, start, trace') == InAfter(pool, start, trace)
    requires |Crowded(trace')| == if verdict == Added then 0
                                  else |Crowded(trace)| + if verdict == NoRoom then 1 else 0
    requires weight == 4000 + Sum(pool, Weight, InAfter(pool, start, trace'))
    ensures GivesUp(pool, maxWeight, start, trace') <==>
      verdict == NoRoom && |Crowded(trace')| > 1000 && weight > maxWeight - 4000
  {
  }

  lemma {:induction false} CrowdedRecent(trace: seq<Decision>)
    ensures Crowded(trace) <= Recent(trace) <= Turned(trace)
  {
    if trace != [] {
      CrowdedRecent(trace[..|trace| - 1]);
    }
  }

  /** For each entry there was no room for lately, the block as it is now has none, or the entry had been
      turned down before the last package was added. */
  lemma {:induction false} CrowdedOut(pool: Pool, maxWeight: nat, w: bool, start: set<TxId>, trace: seq<Decision>,
      t: TxId)
    requires AllRight(pool, maxWeight, w, start, trace) && t in Crowded(trace)
    ensures var at := InAfter(pool, start, trace);
            && t in pool && t !in at
            && (!FitsIn(pool, maxWeight, at, Remaining(pool, at, t)) || TurnedEarlier(trace, t))
  {
    var n := |trace| - 1;
    var before, d := trace[..n], trace[n];
    assert RightAt(pool, maxWeight, w, start, trace, n);
    if d.id != t || d.verdict != NoRoom {
      forall i ensures RightAt(pool, maxWeight, w, start, before, i) {
        assert RightAt(pool, maxWeight, w, start, trace, i);
        assert 0 <= i < n ==> before[..i] == trace[..i];
      }
      CrowdedOut(pool, maxWeight, w, start, before, t);
      if TurnedEarlier(before, t) {
        var k :| 0 <= k < |before| && before[k].verdict == Added && t in Turned(before[..k]);
        assert before[..k] == trace[..k] && trace[k] == before[k];
      }
    } else if t in Turned(before) {
      OutOfRecent(before, t);
      var k :| 0 <= k < |before| && before[k].verdict == Added && t in Turned(before[..k]);
      assert before[..k] == trace[..k] && trace[k] == before[k];
    }
  }

  /** t was turned down before some package was added. */
  ghost predicate TurnedEarlier(trace: seq<Decision>, t: TxId) {
    exists k :: 0 <= k < |trace| && trace[k].verdict == Added && t in Turned(trace[..k])
  }

  lemma {:induction false} OutOfRecent(trace: seq<Decision>, t: TxId)
    requires t in Turned(trace) && t !in Recent(trace)
    ensures TurnedEarlier(trace, t)
  {
    var n := |trace| - 1;
    if trace[n].verdict != Added {
      OutOfRecent(trace[..n], t);
      var k :| 0 <= k < n && trace[..n][k].verdict == Added && t in Turned(trace[..n][..k]);
      assert trace[..n][..k] == trace[..k];
    }
  }
}
