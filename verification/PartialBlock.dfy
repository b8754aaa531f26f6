/** PartiallyDownloadedBlock of src/blockencodings.cpp. */
module PartialBlock {
  import opened Wrappers
  import opened CompactBlock

  datatype Status = StatusOk | Invalid | Failed | CheckBlockFailed

  datatype Check = Good | Corrupt | Bad

  /** The message that the sender makes of a block: the coinbase prefilled, the others by short id. */
  method MakeMessage(shortId: nat -> nat, vtx: seq<Tx>) returns (m: Message, ghost taken: seq<bool>)
    requires vtx != []
    ensures Describes(m, shortId, taken, vtx) && !m.headerIsNull && m.prefilled == [Prefilled(0, vtx[0])]
    ensures forall k :: 0 <= k < |vtx| ==> taken[k] == (k == 0)
  {
    var ids: seq<nat> := [];
    for i := 1 to |vtx|
      invariant |ids| == i - 1 && forall k :: 0 <= k < i - 1 ==> ids[k] == shortId(vtx[k + 1].hash)
    {
      ids := ids + [shortId(vtx[i].hash)];
    }
    m := Message(false, ids, [Prefilled(0, vtx[0])]);
    taken := seq(|vtx|, k => k == 0);
    CoinbaseOnly(taken, |vtx|);
    forall i ensures PrefilledOf(m, vtx, i) {
      assert Position(m.prefilled, 1) == Position(m.prefilled, 0) + 0 + 1;
    }
    forall i ensures ShortIdOf(m, shortId, taken, vtx, i) {
    }
  }

  lemma {:induction false} CoinbaseOnly(taken: seq<bool>, n: nat)
    requires 0 < n <= |taken| && forall k :: 0 <= k < n ==> taken[k] == (k == 0)
    ensures Free(taken, n) == seq(n - 1, j => j + 1)
  {
    if n > 1 {
      CoinbaseOnly(taken, n - 1);
    } else {
      assert Free(taken, 0) == [];
    }
  }

  class PartiallyDownloadedBlock {
    const shortId: nat -> nat
    const pool: seq<Entry>
    const maxTxCount: nat      // GetMaxBlockWeight() / MIN_SERIALIZABLE_TRANSACTION_WEIGHT
    var headerIsNull: bool
    var txn: Slots
    var prefilledCount: nat
    var mempoolCount: int
    var extraCount: int

    constructor (shortId: nat -> nat, pool: seq<Entry>, maxTxCount: nat)
      ensures headerIsNull && txn == [] && mempoolCount == 0 && extraCount == 0
      ensures this.shortId == shortId && this.pool == pool && this.maxTxCount == maxTxCount
    {
      this.shortId, this.pool, this.maxTxCount := shortId, pool, maxTxCount;
      headerIsNull, txn, prefilledCount, mempoolCount, extraCount := true, [], 0, 0, 0;
    }

    /** The loop over the prefilled transactions: they land on distinct slots within range. */
    method Prefill(m: Message) returns (ok: bool, ghost taken: seq<bool>)
      modifies this`txn
      ensures ok <==> PrefilledOk(m)
      ensures ok ==> |taken| == |txn| == m.TxCount() && |Free(taken, |taken|)| == |m.shortIds|
      ensures ok ==> forall k {:trigger Prefills(m, taken, txn, k)} :: Prefills(m, taken, txn, k)
    {
      var n := m.TxCount();
      txn := seq(n, k => None);
      taken := seq(n, k => false);
      FreeAll(taken, n);
      var last := -1;
      for i := 0 to |m.prefilled|
        invariant |txn| == |taken| == n && -1 <= last == Position(m.prefilled, i) && |Free(taken, n)| == n - i
        invariant forall k :: last < k < n ==> !taken[k]
        invariant forall k :: 0 <= k < i ==> PrefillOk(m, k)
        invariant forall k {:trigger Prefills(m, taken, txn, k)} :: Prefills(m, taken, txn, k)
      {
        ghost var next := last + m.prefilled[i].index + 1;
        assert PrefillOk(m, i) <==> !m.prefilled[i].tx.isNull && next <= MAX_INDEX && next <= |m.shortIds| + i;
        if m.prefilled[i].tx.isNull {
          return false, taken;
        }
        last := last + m.prefilled[i].index + 1;
        if last > MAX_INDEX {
          return false, taken;
        }
        if last > |m.shortIds| + i {
          return false, taken;
        }
        ghost var taken0, txn0 := taken, txn;
        FreeTaken(taken, n, last);
        txn := txn[last := Some(m.prefilled[i].tx)];
        taken := taken[last := true];
        PrefillKeeps(m, taken0, txn0, i, last);
      }
      ok := true;
    }

    /** The loop that gives each short id the next free slot. It never looks beyond the last slot.
        Whether a bucket of the hash table is then too full depends on that table and is a parameter. */
    method MapEach(m: Message, crowded: nat -> bool, ghost taken: seq<bool>) returns (full: bool, ids: map<nat, nat>)
      requires |taken| == |txn| == m.TxCount() && |Free(taken, |taken|)| == |m.shortIds| && OffsetFits(m)
      requires forall k :: 0 <= k < |txn| ==> txn[k].Some? == taken[k]
      ensures full <==> Crowds(crowded, |m.shortIds|)
      ensures !full ==> exists slot :: Mapping(m, taken, ids, |m.shortIds|, slot)
    {
      ids := map[];
      var offset: uint16 := 0;
      MapStart(m, taken);
      for i := 0 to |m.shortIds|
        invariant Mapping(m, taken, ids, i, i + offset) && !Crowds(crowded, i)
      {
        offset, ids := MapOne(m, i, offset, ids, taken);
        if crowded(i) {
          return true, ids;
        }
      }
      full := false;
      assert Mapping(m, taken, ids, |m.shortIds|, |m.shortIds| + offset);
    }

    /** The next short id gets the next free slot. */
    method MapOne(m: Message, i: nat, start: uint16, was: map<nat, nat>, ghost taken: seq<bool>)
        returns (offset: uint16, ids: map<nat, nat>)
      requires |taken| == |txn| == m.TxCount() && |Free(taken, |taken|)| == |m.shortIds| > i && OffsetFits(m)
      requires forall k :: 0 <= k < |txn| ==> txn[k].Some? == taken[k]
      requires Mapping(m, taken, was, i, i + start)
      ensures Mapping(m, taken, ids, i + 1, i + 1 + offset)
    {
      offset := NextFree(taken, i, start);
      ids := was[m.shortIds[i] := Trunc16(i + offset)];
      MapNext(m, taken, was, ids, m.shortIds[i], i, i + offset);
      assert ids.Keys == was.Keys + {m.shortIds[i]};
    }

    method NextFree(ghost taken: seq<bool>, i: nat, start: uint16) returns (offset: uint16)
      requires |taken| == |txn| && |taken| - |Free(taken, |taken|)| <= MAX_INDEX
      requires i + start <= |taken| && |Free(taken, i + start)| == i < |Free(taken, |taken|)|
      requires forall k :: 0 <= k < |txn| ==> txn[k].Some? == taken[k]
      ensures i + offset < |taken| && !taken[i + offset] && |Free(taken, i + offset)| == i
    {
      offset := start;
      assert i + offset < |taken|;
      while txn[i + offset].Some?
        invariant i + offset < |taken| && |Free(taken, i + offset)| == i
        decreases |taken| - offset
      {
        assert |Free(taken, i + offset + 1)| == i;
        FreeGap(taken, i + offset + 1, |taken|);
        offset := Trunc16(offset + 1);
      }
    }

    /** One of the two loops over candidates, which stops once every short id is matched. */
    method Scan(entries: seq<Entry>, ids: map<nat, nat>, have0: seq<bool>, fromExtra: bool) returns (have: seq<bool>)
      requires |have0| == |txn| && forall s :: s in ids ==> ids[s] < |txn|
      modifies this`txn, this`mempoolCount, this`extraCount
      ensures |have| == |txn| == |old(txn)|
      ensures Fill(txn, have, mempoolCount, extraCount) ==
        Scanned(ids, shortId, old(Fill(txn, have0, mempoolCount, extraCount)), entries, fromExtra)
    {
      have := have0;
      ghost var goal := Scanned(ids, shortId, Fill(txn, have0, mempoolCount, extraCount), entries, fromExtra);
      assert entries[0..] == entries;
      for i := 0 to |entries|
        invariant |have| == |txn| == |old(txn)|
        invariant goal == Scanned(ids, shortId, Fill(txn, have, mempoolCount, extraCount), entries[i..], fromExtra)
      {
        assert entries[i..][1..] == entries[i + 1..];
        have := Consider(entries[i], ids, have, fromExtra);
        if mempoolCount == |ids| {
          return;
        }
      }
    }

    /** One candidate. */
    method Consider(e: Entry, ids: map<nat, nat>, have0: seq<bool>, fromExtra: bool) returns (have: seq<bool>)
      requires |have0| == |txn| && forall s :: s in ids ==> ids[s] < |txn|
      modifies this`txn, this`mempoolCount, this`extraCount
      ensures |have| == |txn| == |old(txn)|
      ensures Fill(txn, have, mempoolCount, extraCount) ==
        Considered(ids, shortId, old(Fill(txn, have0, mempoolCount, extraCount)), e, fromExtra)
    {
      have := have0;
      if shortId(e.hash) in ids {
        var p := ids[shortId(e.hash)];
        if !have[p] {
          txn, have, mempoolCount := txn[p := Some(e.tx)], have[p := true], mempoolCount + 1;
          extraCount := extraCount + if fromExtra then 1 else 0;
        } else if txn[p].Some? && !(fromExtra && txn[p].value.hash == e.tx.hash) {
          txn, mempoolCount := txn[p := None], mempoolCount - 1;
          extraCount := extraCount - if fromExtra then 1 else 0;
        }
      }
    }

    /** InitData. On success, and if slot numbers fit 16 bits, prefilled and short-id slots split the block between
        them, and mempoolCount counts the slots that are available without being prefilled. */
    method InitData(m: Message, extra: seq<Entry>, crowded: nat -> bool)
      returns (status: Status, ghost taken: seq<bool>, ghost start: Slots, ghost ids: map<nat, nat>,
          ghost seen: seq<Entry>)
      requires headerIsNull && txn == [] && mempoolCount == 0 && extraCount == 0 && ScanEnds(m)
      modifies this
      ensures status == if m.headerIsNull || m.TxCount() == 0 || m.TxCount() > maxTxCount
          || !PrefilledOk(m) then Invalid
                        else if Crowds(crowded, |m.shortIds|)
                            || !Distinct(m.shortIds, |m.shortIds|) then Failed else StatusOk
      ensures status == StatusOk ==> !headerIsNull && prefilledCount == |m.prefilled| && |txn| == m.TxCount()
      ensures status == StatusOk && m.TxCount() <= MAX_INDEX + 1 ==>
          Initialized(m, shortId, taken, start, ids, seen, txn, mempoolCount)
      ensures status == StatusOk ==> forall e :: e in seen ==> e in pool || e in extra
      ensures status == StatusOk ==> MappedAll(m, taken, ids)
      ensures status == StatusOk ==> ScannedBoth(ids, shortId, start, pool, extra, txn, mempoolCount, extraCount)
    {
      taken, start, ids, seen := [], [], map[], [];
      if m.headerIsNull || (m.shortIds == [] && m.prefilled == []) || |m.shortIds| + |m.prefilled| > maxTxCount {
        return Invalid, taken, start, ids, seen;
      }
      headerIsNull := false;
      var ok;
      ok, taken := Prefill(m);
      if !ok {
        return Invalid, taken, start, ids, seen;
      }
      FewPrefilled(m);
      start := txn;
      prefilledCount := |m.prefilled|;
      var slots;
      status, slots := MapIds(m, crowded, taken);
      ids := slots;
      if status != StatusOk {
        return status, taken, start, ids, seen;
      }
      var have := seq(|txn|, k => false);
      StartFill(m, taken, txn, slots, shortId);
      ghost var f0 := Fill(txn, have, 0, 0);
      have := Scan(pool, slots, have, false);
      ghost var f1 := Fill(txn, have, mempoolCount, extraCount);
      have := Scan(extra, slots, have, true);
      if IdsFree(taken, slots) {
        seen := ScannedKeeps(taken, start, ids, shortId, [], f0, pool, false);
        seen := ScannedKeeps(taken, start, ids, shortId, seen, f1, extra, true);
        assert FillOk(taken, start, ids, shortId, seen, Fill(txn, have, mempoolCount, extraCount));
      }
    }

    /** The map of short ids. It fails if a bucket is too full or two short ids are the same. */
    method MapIds(m: Message, crowded: nat -> bool, ghost taken: seq<bool>) returns (status: Status, ids: map<nat, nat>)
      requires |taken| == |txn| == m.TxCount() && |Free(taken, |taken|)| == |m.shortIds| && OffsetFits(m)
      requires forall k {:trigger Prefills(m, taken, txn, k)} :: Prefills(m, taken, txn, k)
      ensures status == if Crowds(crowded, |m.shortIds|)
          || !Distinct(m.shortIds, |m.shortIds|) then Failed else StatusOk
      ensures status == StatusOk ==> MappedAll(m, taken, ids) && forall s :: s in ids ==> ids[s] < |txn|
      ensures status == StatusOk && m.TxCount() <= MAX_INDEX + 1 ==> IdsFree(taken, ids)
    {
      forall k | 0 <= k < |txn| ensures txn[k].Some? == taken[k] {
        assert Prefills(m, taken, txn, k);
      }
      var full;
      full, ids := MapEach(m, crowded, taken);
      if full {
        return Failed, ids;
      }
      MapDone(m, taken, ids);
      status := if |ids.Keys| != |m.shortIds| then Failed else StatusOk;
    }

    /** FillBlock. With exactly enough transactions the slots are merged with them; whether the result is
        a valid block is decided elsewhere. The object is used up unless there were too few. */
    method FillBlock(missing: seq<Tx>, check: seq<Tx> -> Check) returns (status: Status, vtx: seq<Tx>)
      requires !headerIsNull
      modifies this
      ensures var merged := Merge(old(txn), missing);
              if merged.None? then status == Invalid else vtx == merged.value && status == StatusOf(check(vtx))
      ensures if |missing| < Gaps(old(txn)) then !headerIsNull && exists k :: MovedOut(old(txn), txn, |missing|, k)
              else headerIsNull && txn == []
    {
      var full, offset;
      full, vtx, offset := FillSlots(missing);
      if !full {
        return Invalid, vtx;
      }
      headerIsNull, txn := true, [];
      if |missing| != offset {
        return Invalid, vtx;
      }
      status := StatusOf(check(vtx));
    }

    /** The loop of FillBlock: available transactions are moved out and gaps filled in order, until one is missing. */
    method FillSlots(missing: seq<Tx>) returns (full: bool, vtx: seq<Tx>, offset: nat)
      modifies this`txn
      ensures full <==> |missing| >= Gaps(old(txn))
      ensures full ==>
        offset <= |missing| && Merge(old(txn), missing) == if offset == |missing| then Some(vtx) else None
      ensures !full ==> Merge(old(txn), missing) == None && exists k :: MovedOut(old(txn), txn, |missing|, k)
    {
      vtx, offset := [], 0;
      ghost var slots := txn;
      FillStart(slots, missing);
      for i := 0 to |txn|
        invariant |txn| == |slots| && txn == Emptied(slots, i) && offset <= |missing|
            && Filled(slots, missing, vtx, i, offset)
      {
        EmptiedNext(slots, i);
        FilledNext(slots, missing, vtx, i, offset);
        if txn[i].None? {
          if |missing| <= offset {
            assert MovedOut(slots, txn, |missing|, i);
            return false, vtx, offset;
          }
          vtx := vtx + [missing[offset]];
          offset := offset + 1;
        } else {
          vtx := vtx + [txn[i].value];
          txn := txn[i := None];   // moved out
        }
      }
      FilledAll(slots, missing, vtx, offset);
      full := true;
    }
  }

  /** The slots once the first k have been moved out. */
  function Emptied(slots: Slots, k: nat): Slots
    requires k <= |slots|
  {
    seq(k, _ => None) + slots[k..]
  }

  lemma EmptiedNext(slots: Slots, i: nat)
    requires i < |slots|
    ensures |Emptied(slots, i)| == |slots| && Emptied(slots, i)[i] == slots[i]
    ensures Emptied(slots, i + 1) == Emptied(slots, i)[i := None]
    ensures slots[i].None? ==> Emptied(slots, i + 1) == Emptied(slots, i)
  {
  }

  /** What the first i slots and the first `offset` given transactions make of the block. */
  ghost predicate Filled(slots: Slots, missing: seq<Tx>, vtx: seq<Tx>, i: nat, offset: nat)
    requires i <= |slots| && offset <= |missing|
  {
    Gaps(slots) == offset + Gaps(slots[i..])
        && Merge(slots, missing) == Prepend(vtx, Merge(slots[i..], missing[offset..]))
  }

  lemma FillStart(slots: Slots, missing: seq<Tx>)
    ensures Filled(slots, missing, [], 0, 0) && Emptied(slots, 0) == slots
  {
    assert slots[0..] == slots && missing[0..] == missing;
    assert Merge(slots, missing).Some? ==> [] + Merge(slots, missing).value == Merge(slots, missing).value;
  }

  lemma FilledAll(slots: Slots, missing: seq<Tx>, vtx: seq<Tx>, offset: nat)
    requires offset <= |missing| && Filled(slots, missing, vtx, |slots|, offset)
    ensures Gaps(slots) == offset && Merge(slots, missing) == if offset == |missing| then Some(vtx) else None
  {
    assert slots[|slots|..] == [] && vtx + [] == vtx;
  }

  lemma FilledNext(slots: Slots, missing: seq<Tx>, vtx: seq<Tx>, i: nat, offset: nat)
    requires i < |slots| && offset <= |missing| && Filled(slots, missing, vtx, i, offset)
    ensures slots[i].Some? ==> Filled(slots, missing, vtx + [slots[i].value], i + 1, offset)
    ensures slots[i].None? && offset < |missing| ==> Filled(slots, missing, vtx + [missing[offset]], i + 1, offset + 1)
    ensures slots[i].None? && offset == |missing| ==> Merge(slots, missing) == None && Gaps(slots) > |missing|
  {
    assert slots[i..][1..] == slots[i + 1..];
    if slots[i].Some? {
      PrependNext(vtx, slots[i].value, Merge(slots[i + 1..], missing[offset..]));
    } else if offset < |missing| {
      assert missing[offset..][1..] == missing[offset + 1..];
      PrependNext(vtx, missing[offset], Merge(slots[i + 1..], missing[offset + 1..]));
    }
  }

  /** The slots before the first one that lacks a transaction, after n of them were given, have been moved out. */
  ghost predicate MovedOut(was: Slots, now: Slots, n: nat, k: int) {
    0 <= k < |was| && was[k].None? && Gaps(was) == n + Gaps(was[k..]) && now == Emptied(was, k)
  }

  function StatusOf(check: Check): Status {
    match check
    case Good => StatusOk
    case Corrupt => Failed
    case Bad => CheckBlockFailed
  }

  function Prepend(head: seq<Tx>, rest: Option<seq<Tx>>): Option<seq<Tx>> {
    if rest.Some? then Some(head + rest.value) else None
  }

  lemma PrependNext(head: seq<Tx>, tx: Tx, rest: Option<seq<Tx>>)
    ensures Prepend(head, if rest.Some? then Some([tx] + rest.value) else None) == Prepend(head + [tx], rest)
  {
    if rest.Some? {
      assert head + ([tx] + rest.value) == head + [tx] + rest.value;
    }
  }

  /** Every prefilled transaction is there, and its position is in range and leaves no slot before it
      without a prefilled transaction or a short id. */
  ghost predicate PrefilledOk(m: Message) {
    forall i :: 0 <= i < |m.prefilled| ==> PrefillOk(m, i)
  }

  ghost predicate PrefillOk(m: Message, i: nat)
    requires i < |m.prefilled|
  {
    !m.prefilled[i].tx.isNull && Position(m.prefilled, i + 1) <= MAX_INDEX
        && Position(m.prefilled, i + 1) <= |m.shortIds| + i
  }

  /** The 16-bit offset of the scan for free slots can get past all prefilled ones; more than 65536 of them are
      refused anyway. */
  predicate ScanEnds(m: Message) {
    m.shortIds == [] || |m.prefilled| != MAX_INDEX + 1
  }

  predicate OffsetFits(m: Message) {
    m.shortIds == [] || |m.prefilled| <= MAX_INDEX
  }

  /** Prefilled transactions are at different positions of 16 bits. */
  lemma FewPrefilled(m: Message)
    requires PrefilledOk(m)
    ensures |m.prefilled| <= MAX_INDEX + 1
  {
    if |m.prefilled| > 0 {
      assert PrefillOk(m, |m.prefilled| - 1);
      PositionGrows(m.prefilled, |m.prefilled|);
    }
  }

  lemma {:induction false} PositionGrows(prefilled: seq<Prefilled>, i: nat)
    requires i <= |prefilled|
    ensures Position(prefilled, i) >= i - 1
  {
    if i > 0 {
      PositionGrows(prefilled, i - 1);
    }
  }

  ghost predicate Crowds(crowded: nat -> bool, n: nat) {
    exists i :: 0 <= i < n && crowded(i)
  }

  /** Below slot n there are i free ones. */
  ghost predicate Next(taken: seq<bool>, i: nat, n: nat) {
    n <= |taken| && |Free(taken, n)| == i
  }

  ghost predicate Distinct(s: seq<nat>, n: nat)
    requires n <= |s|
  {
    forall i, j {:trigger Differ(s, n, i, j)} :: Differ(s, n, i, j)
  }

  ghost predicate Differ(s: seq<nat>, n: nat, i: int, j: int)
    requires n <= |s|
  {
    0 <= i < j < n ==> s[i] != s[j]
  }

  /** The different ones among the first n. */
  ghost function Different(s: seq<nat>, n: nat): set<nat>
    requires n <= |s|
  {
    if n == 0 then {} else Different(s, n - 1) + {s[n - 1]}
  }

  lemma {:induction false} DifferentAre(s: seq<nat>, n: nat, x: nat)
    requires n <= |s|
    ensures x in Different(s, n) <==> exists j :: 0 <= j < n && s[j] == x
  {
    if n > 0 {
      DifferentAre(s, n - 1, x);
      if x == s[n - 1] {
        assert 0 <= n - 1 < n;
      }
    }
  }

  /** There are as many as n only if no two are the same. */
  lemma {:induction false} DifferentSize(s: seq<nat>, n: nat)
    requires n <= |s|
    ensures |Different(s, n)| <= n && (|Different(s, n)| == n <==> Distinct(s, n))
  {
    if n > 0 {
      var m, x := n - 1, s[n - 1];
      DifferentSize(s, m);
      DifferentAre(s, m, x);
      if x in Different(s, m) {
        assert Different(s, n) == Different(s, m);
        var j :| 0 <= j < m && s[j] == x;
        assert !Differ(s, n, j, m);
      } else {
        forall j, k ensures Distinct(s, m) ==> Differ(s, n, j, k) {
          assert Distinct(s, m) ==> Differ(s, m, j, k);
        }
        if Distinct(s, n) {
          DistinctBelow(s, m);
        }
      }
    }
  }

  lemma TakenFits(m: Message, taken: seq<bool>, txn: Slots, k: nat)
    requires |taken| == |txn| && k < |taken| && PrefilledOk(m) && Prefills(m, taken, txn, k)
    ensures taken[k] ==> k <= MAX_INDEX
  {
    if taken[k] {
      var i :| FilledAt(m, txn, i, k);
      assert PrefillOk(m, i);
    }
  }

  /** Slots beyond 16 bits are never prefilled; so every short id keeps its own slot if and only if there are at
      most 65536 of them. */
  lemma SlotsFit(m: Message, taken: seq<bool>, txn: Slots)
    requires |taken| == |txn| == m.TxCount() && |Free(taken, |taken|)| == |m.shortIds| && PrefilledOk(m)
    requires forall k {:trigger Prefills(m, taken, txn, k)} :: Prefills(m, taken, txn, k)
    ensures (forall j :: 0 <= j < |m.shortIds| ==> Trunc16(Free(taken, |taken|)[j]) == Free(taken, |taken|)[j])
       <==> m.TxCount() <= MAX_INDEX + 1
  {
    var n := |taken|;
    forall j | 0 <= j < |m.shortIds| && n <= MAX_INDEX + 1 ensures Trunc16(Free(taken, n)[j]) == Free(taken, n)[j] {
      FreeAt(taken, n, j);
    }
    if n > MAX_INDEX + 1 {
      TakenFits(m, taken, txn, n - 1);
      var j := FreeHas(taken, n, n - 1);
      assert Trunc16(n - 1) != n - 1;
    }
  }

  /** In the message for a larger block, the short id of transaction 65536 leads to the coinbase. */
  lemma LeadsToCoinbase(m: Message, shortId: nat -> nat, taken: seq<bool>, ids: map<nat, nat>, vtx: seq<Tx>)
    requires |vtx| > MAX_INDEX + 1 && Describes(m, shortId, taken, vtx) && MappedAll(m, taken, ids)
    requires forall k :: 0 <= k < |vtx| ==> taken[k] == (k == 0)
    ensures taken[0] && shortId(vtx[MAX_INDEX + 1].hash) in ids && ids[shortId(vtx[MAX_INDEX + 1].hash)] == 0
  {
    CoinbaseOnly(taken, |taken|);
    assert Free(taken, |taken|)[MAX_INDEX] == MAX_INDEX + 1;
    assert ShortIdOf(m, shortId, taken, vtx, MAX_INDEX) && IdAt(m, taken, ids, m.shortIds[MAX_INDEX], MAX_INDEX);
  }

  /** With 65536 prefilled transactions no 16-bit offset leads past them. */
  lemma ScanGoesOn(m: Message, taken: seq<bool>, txn: Slots, offset: uint16)
    requires |taken| == |txn| == m.TxCount() && |m.prefilled| == MAX_INDEX + 1 && PrefilledOk(m)
    requires |Free(taken, |taken|)| == |m.shortIds|
    requires forall k {:trigger Prefills(m, taken, txn, k)} :: Prefills(m, taken, txn, k)
    ensures txn[offset].Some?
  {
    var n := MAX_INDEX + 1;
    forall k | n <= k < |taken| ensures !taken[k] {
      TakenFits(m, taken, txn, k);
    }
    FreeRest(taken, n, |taken|);
    assert Prefills(m, taken, txn, offset);
    if !taken[offset] {
      var i := FreeHas(taken, n, offset);
    }
  }

  ghost predicate MappedAll(m: Message, taken: seq<bool>, ids: map<nat, nat>) {
    && |Free(taken, |taken|)| == |m.shortIds|
    && (forall s {:trigger Mapped(m, taken, ids, s)} :: Mapped(m, taken, ids, s))
    && (forall j {:trigger IdAt(m, taken, ids, m.shortIds[j], j)} :: 0 <= j < |m.shortIds| ==>
      IdAt(m, taken, ids, m.shortIds[j], j))
  }

  /** What InitData leaves. */
  ghost predicate Initialized(m: Message, shortId: nat -> nat, taken: seq<bool>, start: Slots, ids: map<nat, nat>,
      seen: seq<Entry>, txn: Slots, count: int) {
    && |taken| == |start| == |txn| == m.TxCount() && MappedAll(m, taken, ids)
    && (forall k {:trigger Prefills(m, taken, start, k)} :: Prefills(m, taken, start, k))
    && count == Available(taken, txn, |taken|)
    && exists have, extra :: FillOk(taken, start, ids, shortId, seen, Fill(txn, have, count, extra))
  }

  /** Before any candidate is looked at. */
  lemma StartFill(m: Message, taken: seq<bool>, txn: Slots, ids: map<nat, nat>, shortId: nat -> nat)
    requires |taken| == |txn| && forall k {:trigger Prefills(m, taken, txn, k)} :: Prefills(m, taken, txn, k)
    ensures FillOk(taken, txn, ids, shortId, [], Fill(txn, seq(|txn|, k => false), 0, 0))
  {
    var f := Fill(txn, seq(|txn|, k => false), 0, 0);
    forall k | 0 <= k < |taken| ensures taken[k] == txn[k].Some? {
      assert Prefills(m, taken, txn, k);
    }
    AvailableNone(taken, txn, |taken|);
    forall k ensures SlotOk(taken, txn, ids, shortId, [], f, k) {
    }
  }

  /** A block sent as a compact block, completed with exactly the missing transactions, is the
      original, provided short ids identify the originals. It gets that far exactly when the block is not
      too large, its coinbase is not null, its short ids differ and spread well enough. */
  method Reconstruct(shortId: nat -> nat, vtx: seq<Tx>, pool: seq<Entry>, extra: seq<Entry>, maxTxCount: nat,
      crowded: nat -> bool,
                     check: seq<Tx> -> Check)
    returns (first: Status, status: Status, result: seq<Tx>)
    requires vtx != [] && Identifies(shortId, pool + extra, vtx)
    ensures first == StatusOk
        <==> |vtx| <= maxTxCount && !vtx[0].isNull && IdsDiffer(shortId, vtx) && !Crowds(crowded, |vtx| - 1)
    ensures first == StatusOk && |vtx| <= MAX_INDEX + 1 ==> result == vtx && status == StatusOf(check(vtx))
  {
    result, status := [], Invalid;
    var m, taken0 := MakeMessage(shortId, vtx);
    var block := new PartiallyDownloadedBlock(shortId, pool, maxTxCount);
    ghost var taken, start, ids, seen;
    first, taken, start, ids, seen := block.InitData(m, extra, crowded);
    CoinbaseAccepted(m, shortId, taken0, vtx);
    if first != StatusOk {
      return;
    }
    if |vtx| <= MAX_INDEX + 1 {
      SameTaken(m, taken0, taken, start, vtx, shortId);
      ghost var have, n :| FillOk(taken, start, ids, shortId, seen, Fill(block.txn, have, block.mempoolCount, n));
      SeenIdentifies(shortId, pool, extra, seen, vtx);
      SlotsAgree(m, shortId, taken, start, ids, seen, Fill(block.txn, have, block.mempoolCount, n), vtx);
      MergeMissing(block.txn, vtx);
    }
    var missing := Missing(block.txn, vtx);
    status, result := block.FillBlock(missing, check);
  }

  ghost predicate IdsDiffer(shortId: nat -> nat, vtx: seq<Tx>) {
    forall i, j :: 1 <= i < j < |vtx| ==> shortId(vtx[i].hash) != shortId(vtx[j].hash)
  }

  /** What InitData demands of the sender's message. */
  lemma CoinbaseAccepted(m: Message, shortId: nat -> nat, taken: seq<bool>, vtx: seq<Tx>)
    requires vtx != [] && Describes(m, shortId, taken, vtx) && m.prefilled == [Prefilled(0, vtx[0])]
    requires forall k :: 0 <= k < |vtx| ==> taken[k] == (k == 0)
    ensures PrefilledOk(m) <==> !vtx[0].isNull
    ensures |m.shortIds| == |vtx| - 1 && (Distinct(m.shortIds, |m.shortIds|) <==> IdsDiffer(shortId, vtx))
  {
    assert Position(m.prefilled, 1) == Position(m.prefilled, 0) + 0 + 1 == 0;
    assert PrefillOk(m, 0) <==> !vtx[0].isNull;
    CoinbaseOnly(taken, |taken|);
    forall i | 0 <= i < |m.shortIds| ensures m.shortIds[i] == shortId(vtx[i + 1].hash) {
      assert ShortIdOf(m, shortId, taken, vtx, i);
    }
    if Distinct(m.shortIds, |m.shortIds|) {
      forall i, j | 1 <= i < j < |vtx| ensures shortId(vtx[i].hash) != shortId(vtx[j].hash) {
        assert Differ(m.shortIds, |m.shortIds|, i - 1, j - 1);
      }
    }
  }

  lemma SeenIdentifies(shortId: nat -> nat, pool: seq<Entry>, extra: seq<Entry>, seen: seq<Entry>, vtx: seq<Tx>)
    requires Identifies(shortId, pool + extra, vtx) && forall e :: e in seen ==> e in pool || e in extra
    ensures Identifies(shortId, seen, vtx)
  {
    var all := pool + extra;
    forall i, k | 0 <= i < |seen| && 0 <= k < |vtx| && shortId(seen[i].hash) == shortId(vtx[k].hash)
      ensures seen[i].tx == vtx[k] {
      assert seen[i] in seen && seen[i] in all;
      var j :| 0 <= j < |all| && all[j] == seen[i];
    }
  }

  /** The receiver takes the same slots as prefilled that the sender did. */
  lemma SameTaken(m: Message, sent: seq<bool>, taken: seq<bool>, start: Slots, vtx: seq<Tx>, shortId: nat -> nat)
    requires vtx != [] && Describes(m, shortId, sent, vtx) && m.prefilled == [Prefilled(0, vtx[0])]
    requires |taken| == |start| == m.TxCount() && |Free(taken, |taken|)| == |m.shortIds|
    requires forall k {:trigger Prefills(m, taken, start, k)} :: Prefills(m, taken, start, k)
    requires forall k :: 0 <= k < |sent| ==> sent[k] == (k == 0)
    ensures taken == sent
  {
    forall k | 0 <= k < |taken| ensures taken[k] ==> k == 0 {
      assert Prefills(m, taken, start, k);
      if taken[k] {
        var i :| FilledAt(m, start, i, k);
        assert Position(m.prefilled, 1) == Position(m.prefilled, 0) + 0 + 1 == 0;
      }
    }
    if !taken[0] {
      FreeAll(taken, |taken|);
    }
  }

  lemma PrefillKeeps(m: Message, taken: seq<bool>, txn: Slots, i: nat, last: nat)
    requires |taken| == |txn| && i < |m.prefilled| && last < |txn| && last == Position(m.prefilled, i + 1)
        && !taken[last]
    requires forall k {:trigger Prefills(m, taken, txn, k)} :: Prefills(m, taken, txn, k)
    ensures var taken', txn' := taken[last := true], txn[last := Some(m.prefilled[i].tx)];
            forall k {:trigger Prefills(m, taken', txn', k)} :: Prefills(m, taken', txn', k)
  {
    var taken', txn' := taken[last := true], txn[last := Some(m.prefilled[i].tx)];
    forall k ensures Prefills(m, taken', txn', k) {
      assert Prefills(m, taken, txn, k);
      if k == last {
        assert FilledAt(m, txn', i, k);
      } else if 0 <= k < |taken| && taken[k] {
        var j :| FilledAt(m, txn, j, k);
        assert FilledAt(m, txn', j, k);
      }
    }
  }

  /** The map after the first i short ids. */
  ghost predicate MappedTo(m: Message, taken: seq<bool>, ids: map<nat, nat>, i: nat)
    requires |Free(taken, |taken|)| == |m.shortIds| && i <= |m.shortIds|
  {
    && (forall s {:trigger Mapped(m, taken, ids, s)} :: Mapped(m, taken, ids, s))
    && forall j {:trigger IdBelow(m, taken, ids, i, j)} :: IdBelow(m, taken, ids, i, j)
  }

  /** While the ids differ, each keeps its own slot. */
  ghost predicate IdBelow(m: Message, taken: seq<bool>, ids: map<nat, nat>, i: nat, j: int)
    requires |Free(taken, |taken|)| == |m.shortIds| && i <= |m.shortIds|
  {
    0 <= j < i && Distinct(m.shortIds, i) ==> IdAt(m, taken, ids, m.shortIds[j], j)
  }

  /** The state of the loop over the short ids: i of them have been given the free slots below `slot`. */
  ghost predicate Mapping(m: Message, taken: seq<bool>, ids: map<nat, nat>, i: nat, slot: nat)
    requires |Free(taken, |taken|)| == |m.shortIds| && i <= |m.shortIds|
  {
    Next(taken, i, slot) && MappedTo(m, taken, ids, i) && ids.Keys == Different(m.shortIds, i)
  }

  lemma MapStart(m: Message, taken: seq<bool>)
    requires |Free(taken, |taken|)| == |m.shortIds|
    ensures Mapping(m, taken, map[], 0, 0)
  {
    forall j ensures IdBelow(m, taken, map[], 0, j) {
    }
  }

  lemma MapNext(m: Message, taken: seq<bool>, was: map<nat, nat>, ids: map<nat, nat>, id: nat, i: nat, slot: nat)
    requires |Free(taken, |taken|)| == |m.shortIds| && i < |m.shortIds| && id == m.shortIds[i]
        && ids == was[id := Trunc16(slot)]
    requires slot < |taken| && !taken[slot] && |Free(taken, slot)| == i && MappedTo(m, taken, was, i)
    ensures |Free(taken, slot + 1)| == i + 1 && MappedTo(m, taken, ids, i + 1)
  {
    FreeGrows(taken, slot + 1, |taken|);
    assert Free(taken, |taken|)[i] == Free(taken, slot + 1)[i] == slot;
    assert IdAt(m, taken, ids, id, i);
    forall s ensures Mapped(m, taken, ids, s) {
      StillMapped(m, taken, was, ids, id, s);
    }
    var n := i + 1;
    forall j ensures IdBelow(m, taken, ids, n, j) {
      if Distinct(m.shortIds, n) && 0 <= j < i {
        DistinctBelow(m.shortIds, i);
        assert IdBelow(m, taken, was, i, j) && Differ(m.shortIds, n, j, i);
      }
    }
  }

  lemma StillMapped(m: Message, taken: seq<bool>, was: map<nat, nat>, ids: map<nat, nat>, id: nat, s: nat)
    requires |Free(taken, |taken|)| == |m.shortIds| && id in ids && ids == was[id := ids[id]]
    requires Mapped(m, taken, ids, id) && Mapped(m, taken, was, s)
    ensures Mapped(m, taken, ids, s)
  {
    if s != id && s in was {
      var j :| IdAt(m, taken, was, s, j);
      assert IdAt(m, taken, ids, s, j);
    }
  }

  lemma MapDone(m: Message, taken: seq<bool>, ids: map<nat, nat>)
    requires |Free(taken, |taken|)| == |m.shortIds|
    requires exists slot :: Mapping(m, taken, ids, |m.shortIds|, slot)
    ensures |ids.Keys| == |m.shortIds| <==> Distinct(m.shortIds, |m.shortIds|)
    ensures |ids.Keys| == |m.shortIds| ==> MappedAll(m, taken, ids)
    ensures (forall s :: s in ids ==> ids[s] < |taken|) && (|taken| <= MAX_INDEX + 1 ==> IdsFree(taken, ids))
  {
    var n := |m.shortIds|;
    DifferentSize(m.shortIds, n);
    forall s | s in ids ensures ids[s] < |taken| && (|taken| <= MAX_INDEX + 1 ==> !taken[ids[s]]) {
      assert Mapped(m, taken, ids, s);
      var j :| IdAt(m, taken, ids, s, j);
      FreeAt(taken, |taken|, j);
    }
    forall j | 0 <= j < n && Distinct(m.shortIds, n) ensures IdAt(m, taken, ids, m.shortIds[j], j) {
      assert IdBelow(m, taken, ids, n, j);
    }
  }

  lemma DistinctBelow(s: seq<nat>, i: nat)
    requires i < |s| && Distinct(s, i + 1)
    ensures Distinct(s, i)
  {
    var n := i + 1;
    forall j, k ensures Differ(s, i, j, k) {
      assert Differ(s, n, j, k);
    }
  }
}
