/** Serialize followed by Unserialize gives back the same address manager up to a renaming of ids. */
module AddrRoundTrip {
  import opened AddrTables
  import opened AddrMan
  import opened AddrStream
  import AddrCheck

  // ----- The positions behind a bucket's list of ranks -----

  /** The occupied positions of a bucket below p, in ascending order. */
  ghost function Places(bucket: seq<int>, p: nat): seq<int>
    requires p <= |bucket|
  {
    if p == 0 then [] else Places(bucket, p - 1) + if bucket[p - 1] >= 0 then [p - 1] else []
  }

  lemma {:induction false} PlacesOfRanks(infos: Infos, bucket: seq<int>, p: nat, k: nat)
    requires p <= |bucket| && k < |Ranks(infos, bucket, p)|
    ensures |Places(bucket, p)| == |Ranks(infos, bucket, p)|
    ensures var q := Places(bucket, p)[k];
            0 <= q < p && bucket[q] >= 0 && Ranks(infos, bucket, p)[k] == |Order(infos, bucket[q], false)|
                && |Places(bucket, q)| == k
    decreases p
  {
    RanksSize(infos, bucket, p);
    RanksSize(infos, bucket, p - 1);
    if k < |Ranks(infos, bucket, p - 1)| {
      PlacesOfRanks(infos, bucket, p - 1, k);
    }
  }

  lemma {:induction false} RanksSize(infos: Infos, bucket: seq<int>, p: nat)
    requires p <= |bucket|
    ensures |Places(bucket, p)| == |Ranks(infos, bucket, p)|
    decreases p
  {
    if p > 0 {
      RanksSize(infos, bucket, p - 1);
    }
  }

  lemma {:induction false} RankAt(infos: Infos, bucket: seq<int>, p: nat, q: nat)
    requires q < p <= |bucket| && bucket[q] >= 0
    ensures var k := |Places(bucket, q)|;
            k < |Ranks(infos, bucket, p)| && Ranks(infos, bucket, p)[k] == |Order(infos, bucket[q], false)|
    decreases p
  {
    RanksSize(infos, bucket, q);
    if q < p - 1 {
      RankAt(infos, bucket, p - 1, q);
    }
  }

  // ----- A written stream can be read without loss -----

  /** Everything known about a stream written from a consistent manager. */
  ghost predicate WrittenFrom(t: Tables, s: Stream) {
    && Core(t) && LiveOk(t.infos) && Written(t, |NewIds(t.infos)|, |TriedIds(t.infos)|, s)
  }

  /** The n-th new entry of the stream is the entry of this rank. */
  lemma NewEntry(t: Tables, s: Stream, n: nat)
    requires WrittenFrom(t, s) && n < |s.news|
    ensures var id := Order(t.infos, t.idCount, false)[n];
            && id in t.infos && 0 <= id && !t.infos[id].inTried && |Order(t.infos, id, false)| == n
            && s.news[n] == ToDisk(t.infos[id])
  {
    OrderMember(t.infos, t.idCount, false, n);
    var id := Order(t.infos, t.idCount, false)[n];
    assert DiskOf(t.infos, id, s.news[n]);
  }

  lemma TriedEntry(t: Tables, s: Stream, n: nat)
    requires WrittenFrom(t, s) && n < |s.trieds|
    ensures var id := Order(t.infos, t.idCount, true)[n];
            && id in t.infos && 0 <= id && t.infos[id].inTried && |Order(t.infos, id, true)| == n
            && s.trieds[n] == ToDisk(t.infos[id])
  {
    OrderMember(t.infos, t.idCount, true, n);
    var id := Order(t.infos, t.idCount, true)[n];
    assert DiskOf(t.infos, id, s.trieds[n]);
  }

  /** An occupied new slot is listed in the stream under the rank of its holder. */
  lemma SlotListed(t: Tables, s: Stream, b: nat, p: nat)
    requires WrittenFrom(t, s) && b < NEW_BUCKET_COUNT && p < BUCKET_SIZE && t.newT[b][p] != NONE
    ensures var id := t.newT[b][p];
            && id in t.infos && 0 <= id < t.idCount && !t.infos[id].inTried
              && p == t.h.Position(true, b, t.infos[id].address.service)
            && |Order(t.infos, id, false)| < |s.news| && s.news[|Order(t.infos, id, false)|] == ToDisk(t.infos[id])
            && ListsAt(s, |Order(t.infos, id, false)|, b, |Places(t.newT[b], p)|)
            && ListedPos(t.h, s, b, |Places(t.newT[b], p)|) == p
  {
    var id := t.newT[b][p];
    assert NewSlotOk(t.h, t.infos, t.newT, b, p) && IdOf(t.infos, t.idCount, id);
    OrderRank(t.infos, t.idCount, false, id);
    NewEntry(t, s, |Order(t.infos, id, false)|);
    RankAt(t.infos, t.newT[b], BUCKET_SIZE, p);
  }

  /** Conversely each listed item comes from an occupied slot. */
  lemma ItemFromSlot(t: Tables, s: Stream, b: nat, k: nat)
    requires WrittenFrom(t, s) && b < NEW_BUCKET_COUNT && k < |s.buckets[b]|
    ensures k < |Places(t.newT[b], BUCKET_SIZE)|
    ensures var p := Places(t.newT[b], BUCKET_SIZE)[k];
            && 0 <= p < BUCKET_SIZE && t.newT[b][p] != NONE && |Places(t.newT[b], p)| == k
            && t.newT[b][p] >= 0 && s.buckets[b][k] == |Order(t.infos, t.newT[b][p], false)| < |s.news|
            && ListedPos(t.h, s, b, k) == p
  {
    RanksSize(t.infos, t.newT[b], BUCKET_SIZE);
    PlacesOfRanks(t.infos, t.newT[b], BUCKET_SIZE, k);
    var p := Places(t.newT[b], BUCKET_SIZE)[k];
    SlotListed(t, s, b, p);
  }

  lemma WrittenDistinct(t: Tables, s: Stream)
    requires WrittenFrom(t, s)
    ensures DistinctNets(s) && DistinctSlots(t.h, s.trieds)
  {
    forall i, j | 0 <= i < j < |s.news| ensures Net(s.news[i]) != Net(s.news[j]) {
      NewEntry(t, s, i);
      NewEntry(t, s, j);
      assert AddrOf(t.infos, t.addrs, Order(t.infos, t.idCount, false)[i]);
      assert AddrOf(t.infos, t.addrs, Order(t.infos, t.idCount, false)[j]);
    }
    forall i, j | 0 <= i < j < |s.trieds|
      ensures Net(s.trieds[i]) != Net(s.trieds[j]) && TriedSlot(t.h, s.trieds[i]) != TriedSlot(t.h, s.trieds[j]) {
      TriedEntry(t, s, i);
      TriedEntry(t, s, j);
      var a, b := Order(t.infos, t.idCount, true)[i], Order(t.infos, t.idCount, true)[j];
      assert AddrOf(t.infos, t.addrs, a) && AddrOf(t.infos, t.addrs, b);
      assert TriedOf(t.h, t.infos, t.triedT, a) && TriedOf(t.h, t.infos, t.triedT, b);
    }
    forall i, j | 0 <= i < |s.news| && 0 <= j < |s.trieds| ensures Net(s.news[i]) != Net(s.trieds[j]) {
      NewEntry(t, s, i);
      TriedEntry(t, s, j);
      assert AddrOf(t.infos, t.addrs, Order(t.infos, t.idCount, false)[i]);
      assert AddrOf(t.infos, t.addrs, Order(t.infos, t.idCount, true)[j]);
    }
  }

  lemma WrittenNoClash(t: Tables, s: Stream)
    requires WrittenFrom(t, s)
    ensures NoClash(t.h, s)
  {
    forall b, k | 0 <= b < |s.buckets| && 0 <= k < |s.buckets[b]| ensures 0 <= s.buckets[b][k] < |s.news| {
      ItemFromSlot(t, s, b, k);
    }
    forall b, k, l | 0 <= b < |s.buckets| && 0 <= k < l < |s.buckets[b]|
      ensures ListedPos(t.h, s, b, k) != ListedPos(t.h, s, b, l) {
      ItemFromSlot(t, s, b, k);
      ItemFromSlot(t, s, b, l);
    }
    forall n | 0 <= n < |s.news| ensures |Listed(s, n)| <= NEW_BUCKETS_PER_ADDRESS {
      ListedAtMostEight(t, s, n);
    }
  }

  lemma ListedAtMostEight(t: Tables, s: Stream, n: nat)
    requires WrittenFrom(t, s) && n < |s.news|
    ensures |Listed(s, n)| <= NEW_BUCKETS_PER_ADDRESS
  {
    NewEntry(t, s, n);
    var id := Order(t.infos, t.idCount, false)[n];
    assert RefCountOf(t.h, t.infos, t.newT, id) && LiveOf(t.infos, id);
    var slots := NewSlots(t.h, t.newT, id, t.infos[id].address.service);
    forall b | b in Listed(s, n) ensures b in slots {
      var k :| 0 <= k < |s.buckets[b]| && s.buckets[b][k] == n;
      ItemFromSlot(t, s, b, k);
      var p := Places(t.newT[b], BUCKET_SIZE)[k];
      SlotListed(t, s, b, p);
      OrderRank(t.infos, t.idCount, false, t.newT[b][p]);
    }
    AddrCheck.SubsetSize(Listed(s, n), slots);
  }

  lemma WrittenListed(t: Tables, s: Stream, n: nat)
    requires WrittenFrom(t, s) && n < |s.news|
    ensures IsListed(s, n)
  {
    NewEntry(t, s, n);
    var id := Order(t.infos, t.idCount, false)[n];
    assert RefCountOf(t.h, t.infos, t.newT, id) && LiveOf(t.infos, id);
    var svc := t.infos[id].address.service;
    assert NewSlots(t.h, t.newT, id, svc) != {};
    var b :| b in NewSlots(t.h, t.newT, id, svc);
    SlotListed(t, s, b, t.h.Position(true, b, svc));
  }

  // ----- The counts fit the limits -----

  ghost function IdsOf(s: seq<int>): set<int> {
    set id | id in s
  }

  ghost function TableIds(t: Table, n: nat): set<int>
    requires n <= |t|
  {
    if n == 0 then {} else TableIds(t, n - 1) + IdsOf(t[n - 1])
  }

  lemma {:induction false} TableIdsBound(t: Table, n: nat)
    requires n <= |t| && Shape(t, |t|)
    ensures |TableIds(t, n)| <= n * BUCKET_SIZE
    ensures forall b, p :: 0 <= b < n && 0 <= p < BUCKET_SIZE ==> InTable(t, n, t[b][p])
    decreases n
  {
    if n > 0 {
      TableIdsBound(t, n - 1);
      var last := IdsOf(t[n - 1]);
      AddrCheck.ElemsSize(t[n - 1]);
      UnionSize(TableIds(t, n - 1), last);
      forall b, p | 0 <= b < n && 0 <= p < BUCKET_SIZE ensures InTable(t, n, t[b][p]) {
        var id := t[b][p];
        if b < n - 1 {
          assert InTable(t, n - 1, id);
        } else {
          assert id in t[n - 1];
        }
      }
    }
  }

  ghost predicate InTable(t: Table, n: nat, id: int)
    requires n <= |t|
  {
    id in TableIds(t, n)
  }

  lemma UnionSize(a: set<int>, b: set<int>)
    ensures |a + b| <= |a| + |b|
  {
    assert a + b == a + (b - a);
    AddrCheck.SubsetSize(b - a, b);
  }

  lemma CountsFit(t: Tables)
    requires Core(t) && LiveOk(t.infos)
    ensures |NewIds(t.infos)| <= NEW_BUCKET_COUNT * BUCKET_SIZE
        && |TriedIds(t.infos)| <= TRIED_BUCKET_COUNT * BUCKET_SIZE
  {
    TableIdsBound(t.newT, NEW_BUCKET_COUNT);
    TableIdsBound(t.triedT, TRIED_BUCKET_COUNT);
    forall id | id in NewIds(t.infos) ensures id in TableIds(t.newT, NEW_BUCKET_COUNT) {
      assert RefCountOf(t.h, t.infos, t.newT, id) && LiveOf(t.infos, id);
      var svc := t.infos[id].address.service;
      assert NewSlots(t.h, t.newT, id, svc) != {};
      var b :| b in NewSlots(t.h, t.newT, id, svc);
      assert InTable(t.newT, NEW_BUCKET_COUNT, t.newT[b][t.h.Position(true, b, svc)]);
    }
    forall id | id in TriedIds(t.infos) ensures id in TableIds(t.triedT, TRIED_BUCKET_COUNT) {
      assert TriedOf(t.h, t.infos, t.triedT, id);
      var svc := t.infos[id].address.service;
      assert InTable(t.triedT, TRIED_BUCKET_COUNT, t.triedT[t.h.TriedBucket(svc)][t.h.TriedPosition(svc)]);
    }
    AddrCheck.SubsetSize(NewIds(t.infos), TableIds(t.newT, NEW_BUCKET_COUNT));
    AddrCheck.SubsetSize(TriedIds(t.infos), TableIds(t.triedT, TRIED_BUCKET_COUNT));
  }

  /** What Serialize writes, Unserialize accepts and loses nothing of. */
  lemma WrittenIsLossless(t: Tables, s: Stream)
    requires WrittenFrom(t, s)
    ensures DistinctNets(s) && Readable(s) && Lossless(t.h, s)
  {
    WrittenDistinct(t, s);
    WrittenNoClash(t, s);
    CountsFit(t);
    CountsAreOrders(t);
    forall n | 0 <= n < |s.news| ensures IsListed(s, n) {
      WrittenListed(t, s, n);
    }
  }

  // ----- Round trip -----

  /** `order` gives the old id of each new id. */
  ghost predicate Renames(order: seq<int>, old0: int, new0: int) {
    if old0 == NONE then new0 == NONE else 0 <= new0 < |order| && order[new0] == old0
  }

  ghost function FullOrder(t: Tables): seq<int>
    requires 0 <= t.idCount
  {
    Order(t.infos, t.idCount, false) + Order(t.infos, t.idCount, true)
  }

  /** The restored tables `t'`, as far as Unserialize determines them from the stream. */
  ghost predicate RestoredFrom(t: Tables, s: Stream, t': Tables) {
    && WrittenFrom(t, s) && Readable(s) && Core(t') && t'.h == t.h && t'.idCount == s.nNew + s.nTried
    && FirstLoaded(t'.infos, s, s.nNew) && (forall i :: 0 <= i < s.nTried ==> TriedRestored(t'.infos, s, i))
    && PositionsRead(t'.h, s, t'.newT, |s.buckets|, 0)
  }

  lemma NewSlotMatches(t: Tables, s: Stream, t': Tables, b: nat, p: nat)
    requires RestoredFrom(t, s, t') && b < NEW_BUCKET_COUNT && p < BUCKET_SIZE
    ensures Renames(FullOrder(t), t.newT[b][p], t'.newT[b][p])
    ensures t'.newT[b][p] < s.nNew
  {
    assert ListedSlot(s, t'.newT, b, p, |s.buckets|, 0) && NewSlotOk(t'.h, t'.infos, t'.newT, b, p);
    if t'.newT[b][p] != NONE {
      var x := t'.newT[b][p];
      var k :| 0 <= k < |s.buckets[b]| && s.buckets[b][k] == x;
      ItemFromSlot(t, s, b, k);
      assert NewLoaded(t'.infos, s, x);
    }
    if t.newT[b][p] != NONE {
      HeldSlotMatches(t, s, t', b, p);
    }
  }

  lemma HeldSlotMatches(t: Tables, s: Stream, t': Tables, b: nat, p: nat)
    requires RestoredFrom(t, s, t') && b < NEW_BUCKET_COUNT && p < BUCKET_SIZE && t.newT[b][p] != NONE
    ensures Renames(FullOrder(t), t.newT[b][p], t'.newT[b][p]) && t'.newT[b][p] < s.nNew
  {
    var id := t.newT[b][p];
    SlotListed(t, s, b, p);
    OrderRank(t.infos, t.idCount, false, id);
    assert PlacedItem(t'.h, s, t'.newT, b, |Places(t.newT[b], p)|);
  }

  lemma TriedSlotMatches(t: Tables, s: Stream, t': Tables, b: nat, p: nat)
    requires RestoredFrom(t, s, t') && b < TRIED_BUCKET_COUNT && p < BUCKET_SIZE
    ensures Renames(FullOrder(t), t.triedT[b][p], t'.triedT[b][p])
  {
    assert TriedSlotOk(t.h, t.infos, t.triedT, b, p) && TriedSlotOk(t'.h, t'.infos, t'.triedT, b, p);
    CountsAreOrders(t);
    if t.triedT[b][p] != NONE {
      var id := t.triedT[b][p];
      assert IdOf(t.infos, t.idCount, id);
      OrderRank(t.infos, t.idCount, true, id);
      var i := |Order(t.infos, id, true)|;
      TriedEntry(t, s, i);
      assert TriedRestored(t'.infos, s, i) && TriedOf(t'.h, t'.infos, t'.triedT, s.nNew + i);
    }
    if t'.triedT[b][p] != NONE {
      var x := t'.triedT[b][p];
      assert IdOf(t'.infos, t'.idCount, x) && (x < s.nNew ==> NewLoaded(t'.infos, s, x));
      var i := x - s.nNew;
      assert TriedRestored(t'.infos, s, i);
      TriedEntry(t, s, i);
      assert TriedOf(t.h, t.infos, t.triedT, Order(t.infos, t.idCount, true)[i]);
    }
  }

  /** The restored entry: everything that is saved, the same standing, and the memory-only
      statistics reset. */
  ghost predicate EntryRestored(a: Infos, b: Infos, old0: int, new0: int) {
    old0 in a && new0 in b && b[new0] == a[old0].(lastTry := 0, lastCountAttempt := 0, randomPos := new0)
  }

  lemma EntryMatches(t: Tables, s: Stream, t': Tables, n: nat)
    requires RestoredFrom(t, s, t') && n < t'.idCount
    ensures n < |FullOrder(t)| && EntryRestored(t.infos, t'.infos, FullOrder(t)[n], n)
  {
    CountsAreOrders(t);
    if n < s.nNew {
      NewEntry(t, s, n);
      var id := Order(t.infos, t.idCount, false)[n];
      var svc := t.infos[id].address.service;
      assert NewLoaded(t'.infos, s, n);
      assert RefCountOf(t.h, t.infos, t.newT, id) && RefCountOf(t'.h, t'.infos, t'.newT, n);
      forall b | 0 <= b < NEW_BUCKET_COUNT
        ensures t.newT[b][t.h.Position(true, b, svc)] == id <==> t'.newT[b][t.h.Position(true, b, svc)] == n
      {
        var p := t.h.Position(true, b, svc);
        NewSlotMatches(t, s, t', b, p);
        if t.newT[b][p] == id {
          FullOrderOnce(t, s, id, n, t'.newT[b][p]);
        }
      }
      assert NewSlots(t.h, t.newT, id, svc) == NewSlots(t'.h, t'.newT, n, svc);
    } else {
      var i := n - s.nNew;
      TriedEntry(t, s, i);
      assert TriedRestored(t'.infos, s, i);
      TriedUnreferenced(t, Order(t.infos, t.idCount, true)[i]);
    }
  }

  /** A new entry occurs once in the order. */
  lemma FullOrderOnce(t: Tables, s: Stream, id: int, n: nat, m: int)
    requires WrittenFrom(t, s) && n < |s.news| && Order(t.infos, t.idCount, false)[n] == id
    requires 0 <= m < |FullOrder(t)| && FullOrder(t)[m] == id
    ensures m == n
  {
    NewEntry(t, s, n);
    if m < |s.news| {
      NewEntry(t, s, m);
    } else {
      CountsAreOrders(t);
      TriedEntry(t, s, m - |s.news|);
    }
  }

  /** Main result: reading back what was written succeeds, loses no entry, renames ids along a
      bijection `order`, restores both tables under that renaming and is consistent again. */
  method RoundTrip(m: Manager, m': Manager) returns (ok: bool, ghost order: seq<int>)
    requires m != m' && m.Valid() && m'.hasher.(key := m.hasher.key) == m.hasher
    modifies m'
    ensures ok && m'.Valid() && m'.hasher == m.hasher && m'.nNew == m.nNew && m'.nTried == m.nTried
    ensures |order| == |m.mapInfo| && m'.nIdCount == |order|
    ensures forall n :: 0 <= n < |order| ==> EntryRestored(m.mapInfo, m'.mapInfo, order[n], n)
    ensures forall i, j :: 0 <= i < j < |order| ==> order[i] != order[j]
    ensures forall b, p :: 0 <= b < NEW_BUCKET_COUNT && 0 <= p < BUCKET_SIZE ==>
        Renames(order, m.vvNew[b][p], m'.vvNew[b][p])
    ensures forall b, p :: 0 <= b < TRIED_BUCKET_COUNT && 0 <= p < BUCKET_SIZE ==>
        Renames(order, m.vvTried[b][p], m'.vvTried[b][p])
    ensures TimesOk(m.mapInfo) ==> TimesOk(m'.mapInfo)
  {
    var s := Serialize(m);
    ghost var t := m.Now();
    WrittenIsLossless(t, s);
    ghost var loaded, came;
    ok, loaded, came := Unserialize(m', s);
    order := FullOrder(t);
    RoundTripMatches(t, s, m'.Now());
  }

  lemma RoundTripMatches(t: Tables, s: Stream, t': Tables)
    requires RestoredFrom(t, s, t')
    ensures var order := FullOrder(t);
      && |order| == |t.infos| == t'.idCount
      && (forall n :: 0 <= n < |order| ==> EntryRestored(t.infos, t'.infos, order[n], n))
      && (forall i, j :: 0 <= i < j < |order| ==> order[i] != order[j])
      && (forall b, p :: 0 <= b < NEW_BUCKET_COUNT && 0 <= p < BUCKET_SIZE ==>
        Renames(order, t.newT[b][p], t'.newT[b][p]))
      && (forall b, p :: 0 <= b < TRIED_BUCKET_COUNT && 0 <= p < BUCKET_SIZE ==>
        Renames(order, t.triedT[b][p], t'.triedT[b][p]))
      && (TimesOk(t.infos) ==> TimesOk(t'.infos))
  {
    var order := FullOrder(t);
    CountsAreOrders(t);
    RandomSize(t.infos, t.random);
    forall n | 0 <= n < |order| ensures EntryRestored(t.infos, t'.infos, order[n], n) {
      EntryMatches(t, s, t', n);
    }
    forall i, j | 0 <= i < j < |order| ensures order[i] != order[j] {
      OrderDiffers(t, s, t', i, j);
    }
    forall b, p | 0 <= b < NEW_BUCKET_COUNT && 0 <= p < BUCKET_SIZE
      ensures Renames(order, t.newT[b][p], t'.newT[b][p]) {
      NewSlotMatches(t, s, t', b, p);
    }
    forall b, p | 0 <= b < TRIED_BUCKET_COUNT && 0 <= p < BUCKET_SIZE
      ensures Renames(order, t.triedT[b][p], t'.triedT[b][p]) {
      TriedSlotMatches(t, s, t', b, p);
    }
    if TimesOk(t.infos) {
      TimesRestored(t, s, t');
    }
  }

  lemma OrderDiffers(t: Tables, s: Stream, t': Tables, i: nat, j: nat)
    requires RestoredFrom(t, s, t') && i < j < |FullOrder(t)|
    ensures FullOrder(t)[i] != FullOrder(t)[j]
  {
    CountsAreOrders(t);
    if j < s.nNew {
      NewEntry(t, s, i);
      NewEntry(t, s, j);
    } else if i < s.nNew {
      NewEntry(t, s, i);
      TriedEntry(t, s, j - s.nNew);
    } else {
      TriedEntry(t, s, i - s.nNew);
      TriedEntry(t, s, j - s.nNew);
    }
  }

  lemma TimesRestored(t: Tables, s: Stream, t': Tables)
    requires RestoredFrom(t, s, t') && TimesOk(t.infos)
    ensures TimesOk(t'.infos)
  {
    var order := FullOrder(t);
    CountsAreOrders(t);
    forall n ensures TimesOf(t'.infos, n) {
      assert IdOf(t'.infos, t'.idCount, n);
      if n in t'.infos {
        EntryMatches(t, s, t', n);
        assert TimesOf(t.infos, order[n]);
      }
    }
  }
}
