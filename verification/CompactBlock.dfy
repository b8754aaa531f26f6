/** Compact blocks: slots, short ids and what a compact block says about the block it stands for
    (src/blockencodings.cpp and src/blockencodings.h). */
module CompactBlock {
  import opened Wrappers

  const MAX_INDEX := 0xFFFF

  datatype Tx = Tx(hash: nat, isNull: bool)

  type uint16 = i: nat | i <= MAX_INDEX

  /** Conversion to 16 bits. */
  function Trunc16(x: nat): uint16 {
    x % (MAX_INDEX + 1)
  }

  /** A prefilled transaction; its index counts from the one after the previous prefilled one. */
  datatype Prefilled = Prefilled(index: uint16, tx: Tx)

  datatype Message = Message(headerIsNull: bool, shortIds: seq<nat>, prefilled: seq<Prefilled>) {
    function TxCount(): nat {
      |shortIds| + |prefilled|
    }
  }

  type Slots = seq<Option<Tx>>

  // ----- Slots that are not prefilled -----

  /** The slots below n that are not taken, in order. */
  function Free(taken: seq<bool>, n: nat): (s: seq<nat>)
    requires n <= |taken|
    ensures |s| <= n
  {
    if n == 0 then [] else Free(taken, n - 1) + if taken[n - 1] then [] else [n - 1]
  }

  lemma {:induction false} FreeGrows(taken: seq<bool>, m: nat, n: nat)
    requires m <= n <= |taken|
    ensures Free(taken, m) <= Free(taken, n)
  {
    if m < n {
      FreeGrows(taken, m, n - 1);
    }
  }

  lemma {:induction false} FreeSame(a: seq<bool>, b: seq<bool>, n: nat)
    requires n <= |a| && n <= |b| && forall k :: 0 <= k < n ==> a[k] == b[k]
    ensures Free(a, n) == Free(b, n)
  {
    if n > 0 {
      FreeSame(a, b, n - 1);
    }
  }

  /** Taking one more slot leaves one fewer free. */
  lemma {:induction false} FreeTaken(taken: seq<bool>, n: nat, p: nat)
    requires p < n <= |taken| && !taken[p]
    ensures |Free(taken[p := true], n)| == |Free(taken, n)| - 1
  {
    if p < n - 1 {
      FreeTaken(taken, n - 1, p);
    } else {
      FreeSame(taken, taken[p := true], p);
    }
  }

  /** No more slots are taken below one than below a later one. */
  lemma {:induction false} FreeGap(taken: seq<bool>, m: nat, n: nat)
    requires m <= n <= |taken|
    ensures m - |Free(taken, m)| <= n - |Free(taken, n)|
  {
    if m < n {
      FreeGap(taken, m, n - 1);
    }
  }

  lemma {:induction false} FreeRest(taken: seq<bool>, m: nat, n: nat)
    requires m <= n <= |taken| && forall k :: m <= k < n ==> !taken[k]
    ensures |Free(taken, n)| == |Free(taken, m)| + (n - m)
  {
    if m < n {
      FreeRest(taken, m, n - 1);
    }
  }

  lemma {:induction false} FreeAll(taken: seq<bool>, n: nat)
    requires n <= |taken| && forall k :: 0 <= k < n ==> !taken[k]
    ensures |Free(taken, n)| == n
  {
    if n > 0 {
      FreeAll(taken, n - 1);
    }
  }

  /** The free slots are exactly those listed, each once and in order. */
  lemma {:induction false} FreeAt(taken: seq<bool>, n: nat, i: nat)
    requires n <= |taken| && i < |Free(taken, n)|
    ensures Free(taken, n)[i] < n && !taken[Free(taken, n)[i]]
    ensures i > 0 ==> Free(taken, n)[i - 1] < Free(taken, n)[i]
  {
    if taken[n - 1] || i < |Free(taken, n)| - 1 {
      FreeAt(taken, n - 1, i);
    } else if i > 0 {
      FreeAt(taken, n - 1, i - 1);
    }
  }

  lemma {:induction false} FreeHas(taken: seq<bool>, n: nat, p: nat) returns (i: nat)
    requires p < n <= |taken| && !taken[p]
    ensures i < |Free(taken, n)| && Free(taken, n)[i] == p
  {
    if p == n - 1 {
      i := |Free(taken, n)| - 1;
    } else {
      i := FreeHas(taken, n - 1, p);
    }
  }

  // ----- Available slots -----

  /** The slots below n that are not prefilled but available. */
  function Available(taken: seq<bool>, txn: Slots, n: nat): nat
    requires n <= |taken| == |txn|
  {
    if n == 0 then 0 else Available(taken, txn, n - 1) + if !taken[n - 1] && txn[n - 1].Some? then 1 else 0
  }

  lemma {:induction false} AvailableUpdate(taken: seq<bool>, txn: Slots, n: nat, p: nat, x: Option<Tx>)
    requires n <= |taken| == |txn| && p < |txn| && !taken[p]
    ensures Available(taken, txn[p := x], n) == Available(taken, txn, n)
            + if p < n then (if x.Some? then 1 else 0) - (if txn[p].Some? then 1 else 0) else 0
  {
    if n > 0 {
      AvailableUpdate(taken, txn, n - 1, p, x);
    }
  }

  lemma {:induction false} AvailableNone(taken: seq<bool>, txn: Slots, n: nat)
    requires n <= |taken| == |txn| && forall k :: 0 <= k < n ==> taken[k] == txn[k].Some?
    ensures Available(taken, txn, n) == 0
  {
    if n > 0 {
      AvailableNone(taken, txn, n - 1);
    }
  }

  // ----- What a message says about a block -----

  /** The position of the i-th prefilled transaction. */
  function Position(prefilled: seq<Prefilled>, i: nat): int
    requires i <= |prefilled|
  {
    if i == 0 then -1 else Position(prefilled, i - 1) + prefilled[i - 1].index + 1
  }

  /** Prefilled transactions and short ids are those of the block. */
  ghost predicate Describes(m: Message, shortId: nat -> nat, taken: seq<bool>, vtx: seq<Tx>) {
    && |vtx| == |taken| == m.TxCount() && |Free(taken, |taken|)| == |m.shortIds|
    && (forall i {:trigger PrefilledOf(m, vtx, i)} :: PrefilledOf(m, vtx, i))
    && (forall i {:trigger ShortIdOf(m, shortId, taken, vtx, i)} :: ShortIdOf(m, shortId, taken, vtx, i))
  }

  ghost predicate PrefilledOf(m: Message, vtx: seq<Tx>, i: int) {
    0 <= i < |m.prefilled| ==>
      var p := Position(m.prefilled, i + 1); 0 <= p < |vtx| && vtx[p] == m.prefilled[i].tx
  }

  ghost predicate ShortIdOf(m: Message, shortId: nat -> nat, taken: seq<bool>, vtx: seq<Tx>, i: int)
    requires |vtx| == |taken| && |Free(taken, |taken|)| == |m.shortIds|
  {
    0 <= i < |m.shortIds| ==>
      var p := Free(taken, |taken|)[i]; p < |vtx| && shortId(vtx[p].hash) == m.shortIds[i]
  }

  // ----- Candidates from the mempool and the extra pool -----

  datatype Entry = Entry(hash: nat, tx: Tx)

  /** The slots, which of them were ever matched, and the counters. */
  datatype Fill = Fill(txn: Slots, have: seq<bool>, count: int, extra: int)

  /** A candidate for slot p: the first match is taken, a second one empties the slot again. A
      candidate from the extra pool does so only if it is a different transaction. */
  function Matched(f: Fill, p: nat, e: Entry, fromExtra: bool): Fill
    requires p < |f.txn| == |f.have|
  {
    var delta := if fromExtra then 1 else 0;
    if !f.have[p] then
      Fill(f.txn[p := Some(e.tx)], f.have[p := true], f.count + 1, f.extra + delta)
    else if f.txn[p].Some? && !(fromExtra && f.txn[p].value.hash == e.tx.hash) then
      f.(txn := f.txn[p := None], count := f.count - 1, extra := f.extra - delta)
    else f
  }

  ghost predicate CandidateAt(ids: map<nat, nat>, shortId: nat -> nat, seen: seq<Entry>, i: int, p: nat, tx: Tx) {
    0 <= i < |seen| && shortId(seen[i].hash) in ids && ids[shortId(seen[i].hash)] == p && seen[i].tx == tx
  }

  /** Prefilled slots are as they were; any other available slot was matched and holds a candidate for it. */
  ghost predicate SlotOk(taken: seq<bool>, start: Slots, ids: map<nat, nat>, shortId: nat -> nat, seen: seq<Entry>,
      f: Fill, k: int)
    requires |taken| == |start| == |f.txn| == |f.have|
  {
    0 <= k < |taken| ==>
      if taken[k] then f.txn[k] == start[k]
      else f.txn[k].Some? ==> f.have[k] && exists i :: CandidateAt(ids, shortId, seen, i, k, f.txn[k].value)
  }

  ghost predicate FillOk(taken: seq<bool>, start: Slots, ids: map<nat, nat>, shortId: nat -> nat, seen: seq<Entry>,
      f: Fill) {
    && |taken| == |start| == |f.txn| == |f.have|
    && f.count == Available(taken, f.txn, |taken|)
    && forall k {:trigger SlotOk(taken, start, ids, shortId, seen, f, k)} ::
      SlotOk(taken, start, ids, shortId, seen, f, k)
  }

  /** Ids lead to free slots. */
  ghost predicate IdsFree(taken: seq<bool>, ids: map<nat, nat>) {
    forall s :: s in ids ==> ids[s] < |taken| && !taken[ids[s]]
  }

  /** What one more candidate does. */
  function Considered(ids: map<nat, nat>, shortId: nat -> nat, f: Fill, e: Entry, fromExtra: bool): Fill
    requires |f.txn| == |f.have| && forall s :: s in ids ==> ids[s] < |f.txn|
  {
    var s := shortId(e.hash);
    if s in ids then Matched(f, ids[s], e, fromExtra) else f
  }

  lemma ConsideredKeeps(taken: seq<bool>, start: Slots, ids: map<nat, nat>, shortId: nat -> nat, seen: seq<Entry>,
      f: Fill, e: Entry, fromExtra: bool)
    requires FillOk(taken, start, ids, shortId, seen, f) && IdsFree(taken, ids)
    ensures FillOk(taken, start, ids, shortId, seen + [e], Considered(ids, shortId, f, e, fromExtra))
  {
    var f', seen' := Considered(ids, shortId, f, e, fromExtra), seen + [e];
    var s := shortId(e.hash);
    if s in ids {
      assert SlotOk(taken, start, ids, shortId, seen, f, ids[s]);
      AvailableUpdate(taken, f.txn, |taken|, ids[s], Some(e.tx));
      AvailableUpdate(taken, f.txn, |taken|, ids[s], None);
    }
    forall k ensures SlotOk(taken, start, ids, shortId, seen', f', k) {
      assert SlotOk(taken, start, ids, shortId, seen, f, k);
      if 0 <= k < |taken| && !taken[k] && f'.txn[k].Some? {
        if f'.txn[k] == f.txn[k] {
          var i :| CandidateAt(ids, shortId, seen, i, k, f.txn[k].value);
          assert CandidateAt(ids, shortId, seen', i, k, f'.txn[k].value);
        } else {
          assert CandidateAt(ids, shortId, seen', |seen|, k, f'.txn[k].value);
        }
      }
    }
  }

  /** One pass over candidates, which stops once as many slots are matched as there are short ids. */
  function Scanned(ids: map<nat, nat>, shortId: nat -> nat, f: Fill, entries: seq<Entry>, fromExtra: bool): (g: Fill)
    requires |f.txn| == |f.have| && forall s :: s in ids ==> ids[s] < |f.txn|
    ensures |g.txn| == |g.have| == |f.txn|
    decreases |entries|
  {
    if entries == [] then f
    else
      var next := Considered(ids, shortId, f, entries[0], fromExtra);
      if next.count == |ids| then next else Scanned(ids, shortId, next, entries[1..], fromExtra)
  }

  /** A pass keeps slots, flags and the counter right for the candidates it has looked at. */
  lemma {:induction false} ScannedKeeps(taken: seq<bool>, start: Slots, ids: map<nat, nat>, shortId: nat -> nat,
      seen: seq<Entry>, f: Fill, entries: seq<Entry>, fromExtra: bool) returns (seen': seq<Entry>)
    requires FillOk(taken, start, ids, shortId, seen, f) && IdsFree(taken, ids)
    ensures FillOk(taken, start, ids, shortId, seen', Scanned(ids, shortId, f, entries, fromExtra))
    ensures forall e :: e in seen' ==> e in seen || e in entries
    decreases |entries|
  {
    seen' := seen;
    if entries != [] {
      var next := Considered(ids, shortId, f, entries[0], fromExtra);
      ConsideredKeeps(taken, start, ids, shortId, seen, f, entries[0], fromExtra);
      seen' := seen + [entries[0]];
      if next.count != |ids| {
        seen' := ScannedKeeps(taken, start, ids, shortId, seen', next, entries[1..], fromExtra);
      }
    }
  }

  /** The candidate's short id is that of slot p. */
  predicate Leads(ids: map<nat, nat>, shortId: nat -> nat, e: Entry, p: nat) {
    shortId(e.hash) in ids && ids[shortId(e.hash)] == p
  }

  /** How many of these candidates lead to slot p. */
  function Leading(ids: map<nat, nat>, shortId: nat -> nat, entries: seq<Entry>, p: nat): nat {
    if entries == [] then 0
    else (if Leads(ids, shortId, entries[0], p) then 1 else 0) + Leading(ids, shortId, entries[1..], p)
  }

  /** All of them that lead to slot p are the same transaction. */
  ghost predicate AllSame(ids: map<nat, nat>, shortId: nat -> nat, entries: seq<Entry>, p: nat, hash: nat) {
    forall i :: 0 <= i < |entries| && Leads(ids, shortId, entries[i], p) ==> entries[i].tx.hash == hash
  }

  /** The mempool pass on a slot: of the n candidates looked at, which are all unless every short id is matched,
      a single one for the slot fills it, and a second one leaves it to be asked for. */
  lemma {:induction false} PoolSlot(ids: map<nat, nat>, shortId: nat -> nat, f: Fill, entries: seq<Entry>, p: nat)
      returns (n: nat)
    requires |f.txn| == |f.have| && (forall s :: s in ids ==> ids[s] < |f.txn|) && p < |f.txn|
    ensures var g := Scanned(ids, shortId, f, entries, false);
            && n <= |entries| && (n < |entries| ==> g.count == |ids|)
            && (g.have[p] <==> f.have[p] || Leading(ids, shortId, entries[..n], p) > 0)
            && (!f.have[p] && f.txn[p] == None ==>
              (g.txn[p].Some? <==> Leading(ids, shortId, entries[..n], p) == 1))
            && (f.have[p] ==> g.txn[p] == if Leading(ids, shortId, entries[..n], p) == 0 then f.txn[p] else None)
    decreases |entries|
  {
    n := 0;
    if entries != [] {
      var next := Considered(ids, shortId, f, entries[0], false);
      if next.count == |ids| {
        n := 1;
        assert entries[..1] == [entries[0]] && entries[..1][1..] == [];
      } else {
        var rest := PoolSlot(ids, shortId, next, entries[1..], p);
        n := rest + 1;
        assert entries[..n][0] == entries[0] && entries[..n][1..] == entries[1..][..rest];
      }
    }
  }

  /** What candidates from the extra pool make of a slot: a slot not matched before takes the first of them, and one
      that is filled keeps what it has, in both cases unless another one is a different transaction; a slot emptied
      before stays empty. */
  ghost predicate ExtraOutcome(ids: map<nat, nat>, shortId: nat -> nat, have: bool, was: Option<Tx>, seen: seq<Entry>,
                               p: nat, now: Option<Tx>) {
    if have then
      now == if was.Some? && AllSame(ids, shortId, seen, p, was.value.hash) then was else None
    else if Leading(ids, shortId, seen, p) == 0 then now == was
    else exists i :: FirstDecides(ids, shortId, seen, p, now, i)
  }

  lemma ExtraNext(ids: map<nat, nat>, shortId: nat -> nat, f: Fill, e: Entry, others: seq<Entry>, p: nat,
                  now: Option<Tx>)
    requires |f.txn| == |f.have| && (forall s :: s in ids ==> ids[s] < |f.txn|) && p < |f.txn|
    requires var next := Considered(ids, shortId, f, e, true);
             ExtraOutcome(ids, shortId, next.have[p], next.txn[p], others, p, now)
    ensures ExtraOutcome(ids, shortId, f.have[p], f.txn[p], [e] + others, p, now)
  {
    var seen := [e] + others;
    assert seen[0] == e && seen[1..] == others;
    SameSplit(ids, shortId, seen, p);
    if !f.have[p] && Leads(ids, shortId, e, p) {
      assert AllSame(ids, shortId, seen, p, e.tx.hash) <==> AllSame(ids, shortId, others, p, e.tx.hash);
      assert FirstDecides(ids, shortId, seen, p, now, 0);
    } else if !f.have[p] && Leading(ids, shortId, others, p) > 0 {
      var i :| FirstDecides(ids, shortId, others, p, now, i);
      assert seen[i + 1] == others[i];
      assert AllSame(ids, shortId, seen, p, seen[i + 1].tx.hash) <==>
        AllSame(ids, shortId, others, p, others[i].tx.hash);
      assert FirstDecides(ids, shortId, seen, p, now, i + 1);
    }
  }

  /** The pass over the extra pool on a slot, for the n candidates looked at, which are all unless every short id is
      matched. */
  lemma {:induction false} ExtraSlot(ids: map<nat, nat>, shortId: nat -> nat, f: Fill, entries: seq<Entry>, p: nat)
      returns (n: nat)
    requires |f.txn| == |f.have| && (forall s :: s in ids ==> ids[s] < |f.txn|) && p < |f.txn|
    ensures var g := Scanned(ids, shortId, f, entries, true);
            && n <= |entries| && (n < |entries| ==> g.count == |ids|)
            && ExtraOutcome(ids, shortId, f.have[p], f.txn[p], entries[..n], p, g.txn[p])
    decreases |entries|
  {
    n := 0;
    if entries != [] {
      var next := Considered(ids, shortId, f, entries[0], true);
      if next.count == |ids| {
        n := 1;
        ExtraNext(ids, shortId, f, entries[0], [], p, next.txn[p]);
        assert entries[..1] == [entries[0]] + [];
      } else {
        var rest := ExtraSlot(ids, shortId, next, entries[1..], p);
        n := rest + 1;
        var others := entries[1..][..rest];
        ExtraNext(ids, shortId, f, entries[0], others, p, Scanned(ids, shortId, next, entries[1..], true).txn[p]);
        assert entries[..n] == [entries[0]] + others;
      }
    }
  }

  /** The i-th candidate is the first for slot p, which holds it if all the others are the same. */
  ghost predicate FirstDecides(ids: map<nat, nat>, shortId: nat -> nat, entries: seq<Entry>, p: nat, held: Option<Tx>,
                               i: int) {
    && 0 <= i < |entries| && Leads(ids, shortId, entries[i], p)
    && (forall j :: 0 <= j < i ==> !Leads(ids, shortId, entries[j], p))
    && held == if AllSame(ids, shortId, entries, p, entries[i].tx.hash) then Some(entries[i].tx) else None
  }

  ghost predicate SplitSame(ids: map<nat, nat>, shortId: nat -> nat, entries: seq<Entry>, p: nat, hash: nat)
    requires entries != []
  {
    var first := entries[0];
    AllSame(ids, shortId, entries, p, hash) ==
      (AllSame(ids, shortId, entries[1..], p, hash) && (Leads(ids, shortId, first, p) ==> first.tx.hash == hash))
  }

  lemma SameSplit(ids: map<nat, nat>, shortId: nat -> nat, entries: seq<Entry>, p: nat)
    requires entries != []
    ensures forall hash {:trigger AllSame(ids, shortId, entries, p, hash)} :: SplitSame(ids, shortId, entries, p, hash)
  {
    forall hash ensures SplitSame(ids, shortId, entries, p, hash) {
      var others := entries[1..];
      forall i | 0 <= i < |entries| && AllSame(ids, shortId, others, p, hash) && Leads(ids, shortId, entries[i], p)
        && (Leads(ids, shortId, entries[0], p) ==> entries[0].tx.hash == hash)
        ensures entries[i].tx.hash == hash {
        assert i > 0 ==> others[i - 1] == entries[i];
      }
    }
  }

  /** What both passes leave of the slots and the counters. */
  ghost predicate ScannedBoth(ids: map<nat, nat>, shortId: nat -> nat, start: Slots, pool: seq<Entry>,
      extra: seq<Entry>, txn: Slots, count: int, extraCount: int) {
    && (forall s :: s in ids ==> ids[s] < |start|)
    && var f := Scanned(ids, shortId, Fill(start, seq(|start|, k => false), 0, 0), pool, false);
       var g := Scanned(ids, shortId, f, extra, true);
       txn == g.txn && count == g.count && extraCount == g.extra
  }

  // ----- The original block -----

  /** Short ids identify the originals: a candidate with the short id of one of them is that one. */
  ghost predicate Identifies(shortId: nat -> nat, entries: seq<Entry>, vtx: seq<Tx>) {
    forall i, k :: 0 <= i < |entries| && 0 <= k < |vtx| && shortId(entries[i].hash) == shortId(vtx[k].hash) ==>
      entries[i].tx == vtx[k]
  }

  /** The prefilled slots are filled, and no others are taken. */
  ghost predicate Prefills(m: Message, taken: seq<bool>, txn: Slots, k: int)
    requires |taken| == |txn|
  {
    0 <= k < |taken| ==>
      && txn[k].Some? == taken[k]
      && (taken[k] ==> exists i :: FilledAt(m, txn, i, k))
  }

  ghost predicate FilledAt(m: Message, txn: Slots, i: int, k: int) {
    0 <= i < |m.prefilled| && 0 <= k < |txn| && Position(m.prefilled, i + 1) == k && txn[k] == Some(m.prefilled[i].tx)
  }

  /** Each short id leads to its free slot, as a 16-bit number. */
  ghost predicate Mapped(m: Message, taken: seq<bool>, ids: map<nat, nat>, s: nat)
    requires |Free(taken, |taken|)| == |m.shortIds|
  {
    s in ids ==> exists j :: IdAt(m, taken, ids, s, j)
  }

  ghost predicate IdAt(m: Message, taken: seq<bool>, ids: map<nat, nat>, s: nat, j: int)
    requires |Free(taken, |taken|)| == |m.shortIds|
  {
    0 <= j < |m.shortIds| && m.shortIds[j] == s && s in ids && ids[s] == Trunc16(Free(taken, |taken|)[j])
  }

  /** Every available slot holds the transaction of the original block. */
  lemma SlotsAgree(m: Message, shortId: nat -> nat, taken: seq<bool>, start: Slots, ids: map<nat, nat>,
      entries: seq<Entry>, f: Fill, vtx: seq<Tx>)
    requires Describes(m, shortId, taken, vtx) && |taken| == |start| && FillOk(taken, start, ids, shortId, entries, f)
    requires |taken| <= MAX_INDEX + 1
    requires forall k {:trigger Prefills(m, taken, start, k)} :: Prefills(m, taken, start, k)
    requires forall s {:trigger Mapped(m, taken, ids, s)} :: Mapped(m, taken, ids, s)
    requires Identifies(shortId, entries, vtx)
    ensures Agrees(f.txn, vtx)
  {
    forall k | 0 <= k < |f.txn| && f.txn[k].Some? ensures f.txn[k].value == vtx[k] {
      assert SlotOk(taken, start, ids, shortId, entries, f, k);
      if taken[k] {
        assert Prefills(m, taken, start, k);
        var i :| FilledAt(m, start, i, k);
        assert PrefilledOf(m, vtx, i);
      } else {
        var i :| CandidateAt(ids, shortId, entries, i, k, f.txn[k].value);
        var s := shortId(entries[i].hash);
        assert Mapped(m, taken, ids, s);
        var j :| IdAt(m, taken, ids, s, j);
        assert ShortIdOf(m, shortId, taken, vtx, j);
        FreeAt(taken, |taken|, j);
      }
    }
  }

  // ----- Filling in what is missing -----

  /** The available transactions with the missing ones put in, if there are enough of them. */
  function Merge(txn: Slots, missing: seq<Tx>): Option<seq<Tx>> {
    if txn == [] then if missing == [] then Some([]) else None
    else if txn[0].Some? then
      var rest := Merge(txn[1..], missing);
      if rest.Some? then Some([txn[0].value] + rest.value) else None
    else if missing == [] then None
    else
      var rest := Merge(txn[1..], missing[1..]);
      if rest.Some? then Some([missing[0]] + rest.value) else None
  }

  /** The transactions of a block at the slots that are not available. */
  function Missing(txn: Slots, vtx: seq<Tx>): seq<Tx>
    requires |txn| == |vtx|
  {
    if txn == [] then [] else (if txn[0].Some? then [] else [vtx[0]]) + Missing(txn[1..], vtx[1..])
  }

  /** The number of slots that are not available. */
  function Gaps(txn: Slots): nat {
    if txn == [] then 0 else (if txn[0].Some? then 0 else 1) + Gaps(txn[1..])
  }

  ghost predicate Agrees(txn: Slots, vtx: seq<Tx>) {
    |txn| == |vtx| && forall k {:trigger txn[k]} :: 0 <= k < |txn| && txn[k].Some? ==> txn[k].value == vtx[k]
  }

  /** The merge fails only for a wrong number of transactions; its result has the available ones in
      place and the given ones, in order, everywhere else. */
  lemma {:induction false} MergeIs(txn: Slots, missing: seq<Tx>)
    ensures Merge(txn, missing).Some? <==> |missing| == Gaps(txn)
    ensures Merge(txn, missing).Some? ==>
      Agrees(txn, Merge(txn, missing).value) && Missing(txn, Merge(txn, missing).value) == missing
  {
    if txn != [] {
      if txn[0].Some? {
        MergeIs(txn[1..], missing);
      } else if missing != [] {
        MergeIs(txn[1..], missing[1..]);
      }
      var merged := Merge(txn, missing);
      if merged.Some? {
        var rest := merged.value[1..];
        assert Agrees(txn[1..], rest);
        forall k | 0 <= k < |txn| && txn[k].Some? ensures txn[k].value == merged.value[k] {
          if k > 0 {
            assert txn[1..][k - 1].Some?;
          }
        }
      }
    }
  }

  /** Exactly the missing transactions complete the block. */
  lemma {:induction false} MergeMissing(txn: Slots, vtx: seq<Tx>)
    requires Agrees(txn, vtx)
    ensures Merge(txn, Missing(txn, vtx)) == Some(vtx)
  {
    if txn != [] {
      MergeMissing(txn[1..], vtx[1..]);
      var missing := Missing(txn, vtx);
      assert vtx == [vtx[0]] + vtx[1..];
      if txn[0].Some? {
        assert missing == Missing(txn[1..], vtx[1..]);
      } else {
        assert missing[1..] == Missing(txn[1..], vtx[1..]);
      }
    }
  }
}
