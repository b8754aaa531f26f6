/** Serialize and Unserialize of src/addrman.h. */
module AddrStream {
  import opened AddrTables
  import opened AddrMan

  /** The serialized part of an entry. */
  datatype DiskInfo = DiskInfo(address: Address, source: NetAddr, lastSuccess: int, attempts: int)

  function ToDisk(info: Info): DiskInfo {
    DiskInfo(info.address, info.source, info.lastSuccess, info.attempts)
  }

  function FromDisk(d: DiskInfo): Info {
    Info(d.address, d.source, d.lastSuccess, d.attempts, 0, 0, 0, false, -1)
  }

  /** The items of peers.dat in order; `uBuckets` is the bucket count with bit 30 flipped. */
  datatype Stream = Stream(
    version: nat, keySize: nat, key: nat, nNew: int, nTried: int, uBuckets: int,
    news: seq<DiskInfo>, trieds: seq<DiskInfo>, buckets: seq<seq<int>>)

  const BIT30 := 0x4000_0000

  /** x ^ (1 << 30). */
  function FlipBit30(x: int): int {
    if x / BIT30 % 2 == 1 then x - BIT30 else x + BIT30
  }

  // ----- What Serialize writes -----

  /** The untried (or tried) ids below n, in ascending order, as std::map iterates. */
  ghost function Order(infos: Infos, n: nat, tried: bool): seq<int> {
    if n == 0 then []
    else Order(infos, n - 1, tried) + if n - 1 in infos && infos[n - 1].inTried == tried then [n - 1] else []
  }

  ghost predicate Ordered(infos: Infos, n: int, tried: bool, id: int) {
    id in infos && 0 <= id < n && infos[id].inTried == tried
  }

  lemma {:induction false} OrderMember(infos: Infos, n: nat, tried: bool, i: nat)
    requires i < |Order(infos, n, tried)|
    ensures var id := Order(infos, n, tried)[i];
            Ordered(infos, n, tried, id) && |Order(infos, id, tried)| == i
    decreases n
  {
    if i < |Order(infos, n - 1, tried)| {
      OrderMember(infos, n - 1, tried, i);
    }
  }

  /** An id is found in the order at the number of ids before it. */
  lemma {:induction false} OrderRank(infos: Infos, n: nat, tried: bool, id: int)
    requires 0 <= id < n && id in infos && infos[id].inTried == tried
    ensures |Order(infos, id, tried)| < |Order(infos, n, tried)|
    ensures Order(infos, n, tried)[|Order(infos, id, tried)|] == id
    decreases n
  {
    if id < n - 1 {
      OrderRank(infos, n - 1, tried, id);
    }
  }

  ghost function OrderedIds(infos: Infos, n: nat, tried: bool): set<int> {
    set id | id in infos && Ordered(infos, n, tried, id)
  }

  lemma {:induction false} OrderSize(infos: Infos, n: nat, tried: bool)
    ensures |Order(infos, n, tried)| == |OrderedIds(infos, n, tried)|
    decreases n
  {
    if n == 0 {
      assert OrderedIds(infos, n, tried) == {};
    } else {
      var k := n - 1;
      OrderSize(infos, k, tried);
      if Ordered(infos, n, tried, k) {
        assert OrderedIds(infos, n, tried) == OrderedIds(infos, k, tried) + {k};
      } else {
        assert OrderedIds(infos, n, tried) == OrderedIds(infos, k, tried);
      }
    }
  }

  /** The occupied positions of one new bucket below p, as ranks in the order of untried ids. */
  ghost function Ranks(infos: Infos, bucket: seq<int>, p: nat): seq<int>
    requires p <= |bucket|
  {
    if p == 0 then []
    else
      Ranks(infos, bucket, p - 1) +
      if bucket[p - 1] >= 0 then [|Order(infos, bucket[p - 1], false)|] else []
  }

  /** The stream is the image of the manager's tables. */
  ghost predicate Written(t: Tables, nNew: int, nTried: int, s: Stream) {
    && s.version == 1 && s.keySize == 32 && s.key == t.h.key && s.nNew == nNew && s.nTried == nTried
    && s.uBuckets == 0x4000_0400
    && 0 <= t.idCount && |t.newT| == |s.buckets| == NEW_BUCKET_COUNT
    && DisksOf(t.infos, Order(t.infos, t.idCount, false), s.news)
    && DisksOf(t.infos, Order(t.infos, t.idCount, true), s.trieds)
    && forall b :: 0 <= b < NEW_BUCKET_COUNT ==> s.buckets[b] == Ranks(t.infos, t.newT[b], |t.newT[b]|)
  }

  ghost predicate DiskOf(infos: Infos, id: int, d: DiskInfo) {
    id in infos && d == ToDisk(infos[id])
  }

  ghost predicate DisksOf(infos: Infos, order: seq<int>, disks: seq<DiskInfo>) {
    |disks| == |order| && forall i :: 0 <= i < |order| ==> DiskOf(infos, order[i], disks[i])
  }

  ghost predicate RankOf(infos: Infos, unkIds: map<int, int>, id: int) {
    0 <= id && id in unkIds && unkIds[id] == |Order(infos, id, false)|
  }

  /** The first loop of Serialize, over the entries that are referenced.  The assert that the
      counter has not passed the stored count never fails. */
  method WriteNew(infos: Infos, idCount: nat, count: int) returns (disks: seq<DiskInfo>, unkIds: map<int, int>)
    requires IdsOk(infos, idCount) && count == |Order(infos, idCount, false)|
    requires forall id :: id in infos ==> (infos[id].refCount != 0 <==> !infos[id].inTried)
    ensures DisksOf(infos, Order(infos, idCount, false), disks)
    ensures forall id :: id in infos ==> RankOf(infos, unkIds, id)
  {
    disks, unkIds := [], map[];
    for id := 0 to idCount
      invariant DisksOf(infos, Order(infos, id, false), disks)
      invariant forall k :: k in infos && 0 <= k < id ==> RankOf(infos, unkIds, k)
    {
      if id in infos {
        unkIds := unkIds[id := |disks|];
        if infos[id].refCount != 0 {
          OrderRank(infos, idCount, false, id);
          assert |disks| != count;
          disks := disks + [ToDisk(infos[id])];
        }
      }
    }
    forall id | id in infos ensures RankOf(infos, unkIds, id) {
      assert IdOf(infos, idCount, id);
    }
  }

  /** The second loop, over the tried entries. */
  method WriteTried(infos: Infos, idCount: nat, count: int) returns (disks: seq<DiskInfo>)
    requires IdsOk(infos, idCount) && count == |Order(infos, idCount, true)|
    ensures DisksOf(infos, Order(infos, idCount, true), disks)
  {
    disks := [];
    for id := 0 to idCount
      invariant DisksOf(infos, Order(infos, id, true), disks)
    {
      if id in infos && infos[id].inTried {
        OrderRank(infos, idCount, true, id);
        assert |disks| != count;
        disks := disks + [ToDisk(infos[id])];
      }
    }
  }

  ghost predicate SlotId(infos: Infos, id: int) {
    id == NONE || id in infos
  }

  method WriteBucket(infos: Infos, bucket: seq<int>, unkIds: map<int, int>) returns (indexes: seq<int>)
    requires forall id :: id in infos ==> RankOf(infos, unkIds, id)
    requires forall i :: 0 <= i < |bucket| ==> SlotId(infos, bucket[i])
    ensures indexes == Ranks(infos, bucket, |bucket|)
  {
    indexes := [];
    for i := 0 to |bucket|
      invariant indexes == Ranks(infos, bucket, i)
    {
      var id := bucket[i];
      assert SlotId(infos, id);
      if id != NONE {
        assert RankOf(infos, unkIds, id);
        indexes := indexes + [unkIds[id]];
      }
    }
  }

  method WriteBuckets(t: Tables, unkIds: map<int, int>) returns (buckets: seq<seq<int>>)
    requires NewOk(t.h, t.infos, t.newT)
    requires forall id :: id in t.infos ==> RankOf(t.infos, unkIds, id)
    ensures |buckets| == NEW_BUCKET_COUNT
    ensures forall b :: 0 <= b < NEW_BUCKET_COUNT ==> buckets[b] == Ranks(t.infos, t.newT[b], |t.newT[b]|)
  {
    buckets := [];
    for b := 0 to NEW_BUCKET_COUNT
      invariant |buckets| == b
      invariant forall c :: 0 <= c < b ==> buckets[c] == Ranks(t.infos, t.newT[c], |t.newT[c]|)
    {
      forall i | 0 <= i < |t.newT[b]| ensures SlotId(t.infos, t.newT[b][i]) {
        assert NewSlotOk(t.h, t.infos, t.newT, b, i);
      }
      var indexes := WriteBucket(t.infos, t.newT[b], unkIds);
      buckets := buckets + [indexes];
    }
  }

  method Serialize(m: Manager) returns (s: Stream)
    requires m.Valid()
    ensures Written(m.Now(), m.nNew, m.nTried, s)
  {
    forall id | id in m.mapInfo ensures m.mapInfo[id].refCount != 0 <==> !m.mapInfo[id].inTried {
      assert LiveOf(m.mapInfo, id);
      if m.mapInfo[id].inTried {
        TriedUnreferenced(m.Now(), id);
      }
    }
    CountsAreOrders(m.Now());
    var news, unkIds := WriteNew(m.mapInfo, m.nIdCount, m.nNew);
    var trieds := WriteTried(m.mapInfo, m.nIdCount, m.nTried);
    var buckets := WriteBuckets(Tables(m.hasher, m.mapInfo, m.mapAddr, m.vRandom, m.vvNew, m.vvTried, m.nIdCount),
      unkIds);
    s := Stream(1, 32, m.hasher.key, m.nNew, m.nTried, FlipBit30(NEW_BUCKET_COUNT), news, trieds, buckets);
  }

  lemma CountsAreOrders(t: Tables)
    requires IdsOk(t.infos, t.idCount)
    ensures |NewIds(t.infos)| == |Order(t.infos, t.idCount, false)|
    ensures |TriedIds(t.infos)| == |Order(t.infos, t.idCount, true)|
  {
    forall id | id in t.infos ensures 0 <= id < t.idCount {
      assert IdOf(t.infos, t.idCount, id);
    }
    OrderSize(t.infos, t.idCount, false);
    OrderSize(t.infos, t.idCount, true);
    assert NewIds(t.infos) == OrderedIds(t.infos, t.idCount, false);
    assert TriedIds(t.infos) == OrderedIds(t.infos, t.idCount, true);
  }

  // ----- Unserialize -----

  /** No two entries of the stream share a network address. */
  ghost predicate DistinctNets(s: Stream) {
    && (forall i, j :: 0 <= i < j < |s.news| ==> Net(s.news[i]) != Net(s.news[j]))
    && (forall i, j :: 0 <= i < j < |s.trieds| ==> Net(s.trieds[i]) != Net(s.trieds[j]))
    && (forall i, j :: 0 <= i < |s.news| && 0 <= j < |s.trieds| ==> Net(s.news[i]) != Net(s.trieds[j]))
  }

  ghost predicate LastFor(infos: Infos, addrs: map<NetAddr, int>, id: int) {
    id in infos ==> infos[id].Net() in addrs && id <= addrs[infos[id].Net()]
  }

  /** mapAddr leads to the last entry of each address. */
  ghost predicate LastOk(infos: Infos, addrs: map<NetAddr, int>) {
    && (forall id {:trigger LastFor(infos, addrs, id)} :: LastFor(infos, addrs, id))
    && (forall a {:trigger AddrAt(infos, addrs, a)} :: AddrAt(infos, addrs, a))
  }

  /** What holds while a stream is read, whatever addresses it repeats. */
  ghost predicate Loading(t: Tables) {
    Slots(t) && LastOk(t.infos, t.addrs)
  }

  lemma CreatedLoading(t: Tables, info: Info)
    requires Loading(t) && info.refCount == 0 && !info.inTried && t.idCount < INT_MAX - 1
    ensures Loading(Created(t, info))
  {
    CreatedKeeps(t, info);
    var t' := Created(t, info);
    forall id ensures LastFor(t'.infos, t'.addrs, id) {
      assert LastFor(t.infos, t.addrs, id) && IdOf(t.infos, t.idCount, id);
    }
    forall a ensures AddrAt(t'.infos, t'.addrs, a) {
      assert AddrAt(t.infos, t.addrs, a);
    }
  }

  /** Only the addresses of the entries matter. */
  lemma LastKeeps(infos: Infos, addrs: map<NetAddr, int>, id: int, info: Info)
    requires LastOk(infos, addrs) && id in infos && info.Net() == infos[id].Net()
    ensures LastOk(infos[id := info], addrs)
  {
    var infos' := infos[id := info];
    forall k ensures LastFor(infos', addrs, k) {
      assert LastFor(infos, addrs, k);
    }
    forall a ensures AddrAt(infos', addrs, a) {
      assert AddrAt(infos, addrs, a);
    }
  }

  function Net(d: DiskInfo): NetAddr {
    d.address.service.net
  }

  /** The bucket count after undoing the flip. */
  function UBuckets(s: Stream): int {
    if s.version != 0 then FlipBit30(s.uBuckets) else s.uBuckets
  }

  /** Flipping the bit again undoes it, and of all counts in a stream with a version only 0x40000400, 1024 with bit
      30 set, is read as 1024. */
  lemma CountFlipped(s: Stream)
    ensures FlipBit30(FlipBit30(s.uBuckets)) == s.uBuckets
    ensures s.version != 0 ==> (UBuckets(s) == 1024 <==> s.uBuckets == 0x4000_0400)
  {
    var x := s.uBuckets;
    var q, r := x / BIT30, x % BIT30;
    assert x == q * BIT30 + r;
    assert (x + BIT30) / BIT30 == q + 1 && (x - BIT30) / BIT30 == q - 1;
  }

  /** No exception is thrown: the header is acceptable and the announced items are there. */
  predicate Readable(s: Stream) {
    && s.keySize == 32 && 0 <= UBuckets(s) <= 1024 && 0 <= s.nNew <= 1024 * 64 && 0 <= s.nTried <= 256 * 64
    && |s.news| == s.nNew && |s.trieds| == s.nTried && |s.buckets| == UBuckets(s)
  }

  /** The new table positions in the stream can be used. */
  predicate Usable(s: Stream) {
    s.version == 1 && UBuckets(s) == NEW_BUCKET_COUNT
  }

  /** Entry n is the n-th new entry of the stream, with some reference count. */
  ghost predicate NewLoaded(infos: Infos, s: Stream, n: int) {
    n in infos && 0 <= n < |s.news| && infos[n] == FromDisk(s.news[n]).(refCount := infos[n].refCount, randomPos := n)
  }

  ghost predicate FirstLoaded(infos: Infos, s: Stream, n: int) {
    forall i {:trigger NewLoaded(infos, s, i)} :: 0 <= i < n ==> NewLoaded(infos, s, i)
  }

  /** First loop of Unserialize: new entries become entries 0, 1, 2, ...; when the stored
      positions cannot be used they are put into their primary slot if that is free. */
  method LoadNew(m: Manager, s: Stream)
    requires Readable(s)
    requires Loading(m.Now()) && m.mapInfo == map[] && m.vRandom == [] && m.nIdCount == 0
        && m.vvNew == EmptyTable(NEW_BUCKET_COUNT)
    modifies m`mapInfo, m`mapAddr, m`vRandom, m`vvNew, m`nIdCount
    ensures Loading(m.Now()) && m.nIdCount == s.nNew == |m.vRandom| == |NewIds(m.mapInfo)| && TriedIds(m.mapInfo) == {}
    ensures FirstLoaded(m.mapInfo, s, s.nNew) && LiveBelow(m.mapInfo)
    ensures !Usable(s) ==> m.vvNew == Primary(m.hasher, s.news, s.nNew)
    ensures Usable(s) ==> m.vvNew == EmptyTable(NEW_BUCKET_COUNT) && forall i :: 0 <= i < s.nNew && i in m.mapInfo ==>
        m.mapInfo[i].refCount == 0
  {
    assert NewIds(m.mapInfo) == {} && TriedIds(m.mapInfo) == {};
    for n := 0 to s.nNew
      invariant Loading(m.Now()) && m.nIdCount == n == |m.vRandom| == |NewIds(m.mapInfo)| && TriedIds(m.mapInfo) == {}
      invariant FirstLoaded(m.mapInfo, s, n) && LiveBelow(m.mapInfo)
      invariant !Usable(s) ==> m.vvNew == Primary(m.hasher, s.news, n)
      invariant Usable(s) ==> m.vvNew == EmptyTable(NEW_BUCKET_COUNT) && forall i :: i in m.mapInfo ==>
          m.mapInfo[i].refCount == 0
    {
      LoadOneNew(m, s, n);
    }
  }

  /** Slot and bucket of an entry's own source. */
  function Home(h: Hasher, d: DiskInfo): (NewIndex, Slot) {
    var b := h.NewBucket(d.address.service, d.source);
    (b, h.Position(true, b, d.address.service))
  }

  /** The new table in which each of the first n entries has taken the slot of its own source if that was free. */
  ghost function Primary(h: Hasher, news: seq<DiskInfo>, n: nat): (t: Table)
    requires n <= |news|
    ensures Shape(t, NEW_BUCKET_COUNT)
  {
    if n == 0 then EmptyTable(NEW_BUCKET_COUNT)
    else
      var t, (b, p) := Primary(h, news, n - 1), Home(h, news[n - 1]);
      if t[b][p] == NONE then Put(t, b, p, n - 1) else t
  }

  ghost predicate BelowOf(infos: Infos, id: int) {
    id in infos && !infos[id].inTried ==> 0 <= infos[id].refCount <= NEW_BUCKETS_PER_ADDRESS
  }

  ghost predicate LiveBelow(infos: Infos) {
    forall id {:trigger BelowOf(infos, id)} :: BelowOf(infos, id)
  }

  method LoadOneNew(m: Manager, s: Stream, n: nat)
    requires Readable(s) && n < s.nNew
    requires Loading(m.Now()) && m.nIdCount == n == |m.vRandom| == |NewIds(m.mapInfo)| && TriedIds(m.mapInfo) == {}
    requires FirstLoaded(m.mapInfo, s, n) && LiveBelow(m.mapInfo)
    modifies m`mapInfo, m`mapAddr, m`vRandom, m`vvNew, m`nIdCount
    ensures Loading(m.Now()) && m.nIdCount == n + 1 == |m.vRandom| == |NewIds(m.mapInfo)| && TriedIds(m.mapInfo) == {}
    ensures FirstLoaded(m.mapInfo, s, n + 1) && LiveBelow(m.mapInfo)
    ensures !Usable(s) ==> var (b, p) := Home(m.hasher, s.news[n]);
            m.vvNew == if old(m.vvNew)[b][p] == NONE then Put(old(m.vvNew), b, p, n) else old(m.vvNew)
    ensures Usable(s) ==>
      m.vvNew == old(m.vvNew) && m.mapInfo == old(m.mapInfo)[n := FromDisk(s.news[n]).(randomPos := n)]
  {
    var info := FromDisk(s.news[n]);
    ghost var a := m.mapInfo;
    Append(m, info);
    if !Usable(s) {
      var _ := FillIfFree(m, n, m.hasher.NewBucket(info.address.service, info.source));
    }
    forall i | 0 <= i < n + 1 ensures NewLoaded(m.mapInfo, s, i) {
      assert i < n ==> NewLoaded(a, s, i);
    }
    forall id ensures BelowOf(m.mapInfo, id) {
      assert BelowOf(a, id);
    }
  }

  /** A loaded entry gets the next id and the last place of vRandom. */
  method Append(m: Manager, info: Info)
    requires Loading(m.Now()) && info.refCount == 0 && !info.inTried && m.nIdCount < INT_MAX - 1
    modifies m`mapInfo, m`mapAddr, m`vRandom, m`nIdCount
    ensures m.Now() == Created(old(m.Now()), info) && Loading(m.Now())
    ensures NewIds(m.mapInfo) == old(NewIds(m.mapInfo)) + {old(m.nIdCount)}
        && TriedIds(m.mapInfo) == old(TriedIds(m.mapInfo))
    ensures old(m.nIdCount) !in old(m.mapInfo)
  {
    CreatedKeeps(m.Now(), info);
    CreatedLoading(m.Now(), info);
    m.mapInfo := m.mapInfo[m.nIdCount := info.(randomPos := |m.vRandom|)];
    m.mapAddr := m.mapAddr[info.Net() := m.nIdCount];
    m.vRandom := m.vRandom + [m.nIdCount];
    m.nIdCount := m.nIdCount + 1;
  }

  /** An untried entry takes its slot in a new bucket if that is free and the limit allows. */
  method FillIfFree(m: Manager, id: int, bucket: nat) returns (placed: bool)
    requires Loading(m.Now()) && id in m.mapInfo && !m.mapInfo[id].inTried && bucket < NEW_BUCKET_COUNT
    modifies m`mapInfo, m`vvNew
    ensures Loading(m.Now()) && NewIds(m.mapInfo) == old(NewIds(m.mapInfo))
        && TriedIds(m.mapInfo) == old(TriedIds(m.mapInfo))
    ensures var p := m.hasher.Position(true, bucket, old(m.mapInfo)[id].address.service);
            && (placed <==> old(m.vvNew)[bucket][p] == NONE && old(m.mapInfo)[id].refCount < NEW_BUCKETS_PER_ADDRESS)
            && m.vvNew == (if placed then Put(old(m.vvNew), bucket, p, id) else old(m.vvNew))
    ensures m.mapInfo == WithRefCount(old(m.mapInfo), id, old(m.mapInfo)[id].refCount + if placed then 1 else 0)
  {
    var p := m.hasher.Position(true, bucket, m.mapInfo[id].address.service);
    placed := m.vvNew[bucket][p] == NONE && m.mapInfo[id].refCount < NEW_BUCKETS_PER_ADDRESS;
    if placed {
      SlotFilledKeeps(m.Now(), bucket, id);
      LastKeeps(m.mapInfo, m.mapAddr, id, m.mapInfo[id].(refCount := m.mapInfo[id].refCount + 1));
      m.vvNew := Put(m.vvNew, bucket, p, id);
      m.mapInfo := m.mapInfo[id := m.mapInfo[id].(refCount := m.mapInfo[id].refCount + 1)];
    }
  }

  // ----- Second loop: tried entries -----

  /** What is known after j tried entries: entry nNew + i came from place came[i] of the stream. */
  ghost predicate TriedLoaded(infos: Infos, s: Stream, came: seq<int>, j: int, i: int) {
    0 <= i < |came| ==>
      && 0 <= came[i] < j <= |s.trieds| && s.nNew + i in infos
      && infos[s.nNew + i] == FromDisk(s.trieds[came[i]]).(inTried := true, randomPos := s.nNew + i)
      && forall k :: 0 <= k < i ==> came[k] < came[i]
  }

  ghost predicate NextLoaded(infos: Infos, s: Stream, came: seq<int>, j: int) {
    forall i {:trigger TriedLoaded(infos, s, came, j, i)} :: TriedLoaded(infos, s, came, j, i)
  }

  /** No two tried entries of the stream hash to the same slot. */
  ghost predicate DistinctSlots(h: Hasher, ds: seq<DiskInfo>) {
    forall i, j :: 0 <= i < j < |ds| ==> TriedSlot(h, ds[i]) != TriedSlot(h, ds[j])
  }

  /** No earlier tried entry of the stream hashes to the slot of this one. */
  ghost predicate FirstAt(h: Hasher, ds: seq<DiskInfo>, j: int) {
    0 <= j < |ds| && forall i :: 0 <= i < j ==> TriedSlot(h, ds[i]) != TriedSlot(h, ds[j])
  }

  lemma {:induction false} FirstOfSlot(h: Hasher, ds: seq<DiskInfo>, j: nat) returns (i: nat)
    requires j < |ds|
    ensures i <= j && FirstAt(h, ds, i) && TriedSlot(h, ds[i]) == TriedSlot(h, ds[j])
  {
    if FirstAt(h, ds, j) {
      i := j;
    } else {
      var k :| 0 <= k < j && TriedSlot(h, ds[k]) == TriedSlot(h, ds[j]);
      i := FirstOfSlot(h, ds, k);
    }
  }

  /** Of the first j tried entries exactly those are kept whose slot no earlier one takes. */
  ghost predicate FirstsKept(h: Hasher, ds: seq<DiskInfo>, came: seq<int>, j: int) {
    forall i {:trigger FirstAt(h, ds, i)} :: 0 <= i < j ==> (i in came <==> FirstAt(h, ds, i))
  }

  function TriedSlot(h: Hasher, d: DiskInfo): (int, int) {
    (h.TriedBucket(d.address.service), h.TriedPosition(d.address.service))
  }

  ghost predicate CoreLoaded(m: Manager, s: Stream, came: seq<int>, j: int)
    reads m
  {
    && Loading(m.Now()) && m.nIdCount == s.nNew + |came| == |m.vRandom|
    && FirstLoaded(m.mapInfo, s, s.nNew) && NextLoaded(m.mapInfo, s, came, j) && LiveBelow(m.mapInfo)
    && |NewIds(m.mapInfo)| == s.nNew && |TriedIds(m.mapInfo)| == |came|
  }

  /** A loaded entry gets the next id and its free tried slot. */
  method AppendTried(m: Manager, info: Info)
    requires Loading(m.Now()) && info.refCount == 0 && !info.inTried && m.nIdCount < INT_MAX - 1
    requires var svc := info.address.service; m.vvTried[m.hasher.TriedBucket(svc)][m.hasher.TriedPosition(svc)] == NONE
    modifies m`mapInfo, m`mapAddr, m`vRandom, m`vvTried, m`nIdCount
    ensures Loading(m.Now()) && m.nIdCount == old(m.nIdCount) + 1 && |m.vRandom| == |old(m.vRandom)| + 1
    ensures m.mapInfo == old(m.mapInfo)[old(m.nIdCount) := info.(inTried := true, randomPos := |old(m.vRandom)|)]
    ensures |NewIds(m.mapInfo)| == |old(NewIds(m.mapInfo))| && |TriedIds(m.mapInfo)| == |old(TriedIds(m.mapInfo))| + 1
  {
    var id := m.nIdCount;
    Append(m, info);
    TriedMovedKeeps(m.Now(), id, true);
    LastKeeps(m.mapInfo, m.mapAddr, id, m.mapInfo[id].(inTried := true));
    assert id in NewIds(m.mapInfo) && id !in TriedIds(m.mapInfo);
    m.mapInfo := m.mapInfo[id := m.mapInfo[id].(inTried := true)];
    m.vvTried := Put(m.vvTried, m.hasher.TriedBucket(info.address.service),
        m.hasher.TriedPosition(info.address.service), id);
  }

  /** The body of the second loop for one entry; it is lost iff its slot is taken. */
  method LoadOneTried(m: Manager, s: Stream, j: nat, ghost came: seq<int>) returns (lost: bool)
    requires Readable(s) && j < s.nTried && |came| <= j && CoreLoaded(m, s, came, j)
    modifies m`mapInfo, m`mapAddr, m`vRandom, m`vvTried, m`nIdCount
    ensures CoreLoaded(m, s, if lost then came else came + [j], j + 1)
    ensures lost <==> var (b, p) := TriedSlot(m.hasher, s.trieds[j]); old(m.vvTried)[b][p] != NONE
  {
    var info := FromDisk(s.trieds[j]);
    var kb := m.hasher.TriedBucket(info.address.service);
    var kp := m.hasher.Position(false, kb, info.address.service);
    ghost var a := m.mapInfo;
    lost := m.vvTried[kb][kp] != NONE;
    if !lost {
      AppendTried(m, info);
    }
    LoadedStep(a, m.mapInfo, s, came, j, lost);
  }

  lemma LoadedStep(a: Infos, b: Infos, s: Stream, came: seq<int>, j: nat, lost: bool)
    requires Readable(s) && j < s.nTried && FirstLoaded(a, s, s.nNew) && NextLoaded(a, s, came, j) && LiveBelow(a)
    requires lost ==> b == a
    requires var id := s.nNew + |came|; !lost ==> b == a[id := FromDisk(s.trieds[j]).(inTried := true, randomPos := id)]
    ensures FirstLoaded(b, s, s.nNew) && NextLoaded(b, s, if lost then came else came + [j], j + 1) && LiveBelow(b)
  {
    forall i | 0 <= i < s.nNew ensures NewLoaded(b, s, i) {
      assert NewLoaded(a, s, i);
    }
    var came', j' := if lost then came else came + [j], j + 1;
    forall i ensures TriedLoaded(b, s, came', j', i) {
      assert TriedLoaded(a, s, came, j, i);
      forall k | 0 <= k < i < |came'| ensures came'[k] < came'[i] {
        assert TriedLoaded(a, s, came, j, k);
      }
    }
    forall id ensures BelowOf(b, id) {
      assert BelowOf(a, id);
    }
  }

  /** Second loop of Unserialize: if the tried entries hash to distinct slots, none is lost. */
  method LoadTried(m: Manager, s: Stream) returns (nLost: nat, ghost came: seq<int>)
    requires Readable(s) && CoreLoaded(m, s, [], 0)
    modifies m`mapInfo, m`mapAddr, m`vRandom, m`vvTried, m`nIdCount
    ensures CoreLoaded(m, s, came, s.nTried) && |came| + nLost == s.nTried
    ensures FirstsKept(m.hasher, s.trieds, came, s.nTried)
    ensures DistinctSlots(m.hasher, s.trieds) ==> nLost == 0
    ensures nLost == 0 ==> forall i :: 0 <= i < |came| ==> came[i] == i
  {
    nLost, came := 0, [];
    for j := 0 to s.nTried
      invariant CoreLoaded(m, s, came, j) && |came| + nLost == j
      invariant FirstsKept(m.hasher, s.trieds, came, j)
      invariant DistinctSlots(m.hasher, s.trieds) ==> nLost == 0
      invariant nLost == 0 ==> forall i :: 0 <= i < |came| ==> came[i] == i
    {
      ghost var t := m.Now();
      var lost := LoadOneTried(m, s, j, came);
      KeptStep(t, s, came, j, lost);
      if lost {
        TakenBy(t, s, came, j);
        nLost := nLost + 1;
      } else {
        came := came + [j];
      }
    }
  }

  /** A taken tried slot belongs to an earlier entry of the stream. */
  lemma TakenBy(t: Tables, s: Stream, came: seq<int>, j: nat)
    requires Readable(s) && j < s.nTried && Slots(t) && t.idCount == s.nNew + |came|
    requires FirstLoaded(t.infos, s, s.nNew) && NextLoaded(t.infos, s, came, j)
    requires var (b, p) := TriedSlot(t.h, s.trieds[j]); t.triedT[b][p] != NONE
    ensures !DistinctSlots(t.h, s.trieds)
  {
    var c := TakenByWhich(t, s, came, j);
  }

  lemma TakenByWhich(t: Tables, s: Stream, came: seq<int>, j: nat) returns (c: nat)
    requires Readable(s) && j < s.nTried && Slots(t) && t.idCount == s.nNew + |came|
    requires FirstLoaded(t.infos, s, s.nNew) && NextLoaded(t.infos, s, came, j)
    requires var (b, p) := TriedSlot(t.h, s.trieds[j]); t.triedT[b][p] != NONE
    ensures c < j && TriedSlot(t.h, s.trieds[c]) == TriedSlot(t.h, s.trieds[j])
  {
    var (b, p) := TriedSlot(t.h, s.trieds[j]);
    var id := t.triedT[b][p];
    assert TriedSlotOk(t.h, t.infos, t.triedT, b, p) && IdOf(t.infos, t.idCount, id);
    assert 0 <= id < s.nNew ==> NewLoaded(t.infos, s, id);
    var i := id - s.nNew;
    assert TriedLoaded(t.infos, s, came, j, i);
    c := came[i];
  }

  /** The slot of entry j is taken if and only if an earlier entry hashes to it. */
  lemma KeptStep(t: Tables, s: Stream, came: seq<int>, j: nat, lost: bool)
    requires Readable(s) && j < s.nTried && Slots(t) && t.idCount == s.nNew + |came|
    requires FirstLoaded(t.infos, s, s.nNew) && NextLoaded(t.infos, s, came, j) && FirstsKept(t.h, s.trieds, came, j)
    requires lost <==> var (b, p) := TriedSlot(t.h, s.trieds[j]); t.triedT[b][p] != NONE
    ensures FirstsKept(t.h, s.trieds, if lost then came else came + [j], j + 1)
  {
    var i := FirstOfSlot(t.h, s.trieds, j);
    if i < j {
      assert i in came;
      var k :| 0 <= k < |came| && came[k] == i;
      assert TriedLoaded(t.infos, s, came, j, k) && TriedOf(t.h, t.infos, t.triedT, s.nNew + k);
      assert IdOf(t.infos, t.idCount, s.nNew + k) && lost;
    }
    if lost {
      var c := TakenByWhich(t, s, came, j);
    }
    var came', j' := if lost then came else came + [j], j + 1;
    forall k | 0 <= k < j' ensures k in came' <==> FirstAt(t.h, s.trieds, k) {
      if k == j {
        NotYet(t.infos, s, came, j);
      }
    }
  }

  lemma NotYet(infos: Infos, s: Stream, came: seq<int>, j: int)
    requires NextLoaded(infos, s, came, j)
    ensures j !in came
  {
    forall i | 0 <= i < |came| ensures came[i] != j {
      assert TriedLoaded(infos, s, came, j, i);
    }
  }

  // ----- Third loop: positions in the new table -----

  /** The buckets in which the stream lists new entry n. */
  ghost function Listed(s: Stream, n: int): set<int> {
    set b | 0 <= b < |s.buckets| && n in s.buckets[b]
  }

  /** The stream's positions clash nowhere: in each bucket the listed entries hash to distinct
      positions, and no entry is listed in more than eight buckets. */
  ghost predicate NoClash(h: Hasher, s: Stream) {
    && (forall b, k :: 0 <= b < |s.buckets| && 0 <= k < |s.buckets[b]| ==> 0 <= s.buckets[b][k] < |s.news|)
    && (forall b, k, l :: 0 <= b < |s.buckets| && 0 <= k < l < |s.buckets[b]| ==>
      ListedPos(h, s, b, k) != ListedPos(h, s, b, l))
    && (forall n :: 0 <= n < |s.news| ==> |Listed(s, n)| <= NEW_BUCKETS_PER_ADDRESS)
  }

  ghost function ListedPos(h: Hasher, s: Stream, b: int, k: int): int {
    if 0 <= b < |s.buckets| && 0 <= k < |s.buckets[b]| && 0 <= s.buckets[b][k] < |s.news|
    then h.Position(true, b, s.news[s.buckets[b][k]].address.service) else NONE
  }

  predicate Earlier(b: int, k: int, bucket: int, n: int) {
    b < bucket || (b == bucket && k < n)
  }

  ghost predicate PlacedItem(h: Hasher, s: Stream, t: Table, b: int, k: int) {
    0 <= b < |s.buckets| && 0 <= k < |s.buckets[b]| ==>
      b < |t| && 0 <= ListedPos(h, s, b, k) < |t[b]| && t[b][ListedPos(h, s, b, k)] == s.buckets[b][k]
  }

  ghost predicate ListedSlot(s: Stream, t: Table, b: int, p: int, bucket: int, n: int) {
    0 <= b < |t| && 0 <= p < |t[b]| && t[b][p] != NONE ==>
      exists k :: 0 <= b < |s.buckets| && 0 <= k < |s.buckets[b]| && Earlier(b, k, bucket, n)
          && s.buckets[b][k] == t[b][p]
  }

  /** The new table is exactly the part of the stream read so far. */
  ghost predicate PositionsRead(h: Hasher, s: Stream, t: Table, bucket: int, n: int) {
    && (forall b, k {:trigger PlacedItem(h, s, t, b, k)} :: Earlier(b, k, bucket, n) ==> PlacedItem(h, s, t, b, k))
    && (forall b, p {:trigger ListedSlot(s, t, b, p, bucket, n)} :: ListedSlot(s, t, b, p, bucket, n))
  }

  ghost predicate CountsLoaded(m: Manager, s: Stream)
    reads m
  {
    && Loading(m.Now()) && FirstLoaded(m.mapInfo, s, s.nNew) && LiveBelow(m.mapInfo)
    && |NewIds(m.mapInfo)| == s.nNew
  }

  /** Item x of bucket b takes its slot if it is an entry, the slot is free and it has fewer than eight. */
  ghost function FillOne(h: Hasher, news: seq<DiskInfo>, t: Table, b: nat, x: int): (t': Table)
    requires Shape(t, NEW_BUCKET_COUNT) && b < NEW_BUCKET_COUNT
    ensures Shape(t', NEW_BUCKET_COUNT)
  {
    if !(0 <= x < |news|) then t
    else
      var svc := news[x].address.service;
      var p := h.Position(true, b, svc);
      if t[b][p] == NONE && |NewSlots(h, t, x, svc)| < 8 then Put(t, b, p, x) else t
  }

  /** The new table after the items of the first b buckets and the first k items of the next. */
  ghost function Filled(h: Hasher, s: Stream, b: nat, k: nat): (t: Table)
    requires b <= |s.buckets| <= NEW_BUCKET_COUNT && (k > 0 ==> b < |s.buckets| && k <= |s.buckets[b]|)
    ensures Shape(t, NEW_BUCKET_COUNT)
    decreases b, k
  {
    if k > 0 then FillOne(h, s.news, Filled(h, s, b, k - 1), b, s.buckets[b][k - 1])
    else if b > 0 then Filled(h, s, b - 1, |s.buckets[b - 1]|)
    else EmptyTable(NEW_BUCKET_COUNT)
  }

  /** The new table that a stream stands for. */
  ghost function NewTable(h: Hasher, s: Stream): Table
    requires Readable(s)
  {
    if Usable(s) then Filled(h, s, |s.buckets|, 0) else Primary(h, s.news, s.nNew)
  }

  /** One stored position. */
  method LoadPosition(m: Manager, s: Stream, bucket: nat, n: nat)
    requires Readable(s) && bucket < |s.buckets| && n < |s.buckets[bucket]| && CountsLoaded(m, s)
    modifies m`mapInfo, m`vvNew
    ensures CountsLoaded(m, s) && TriedIds(m.mapInfo) == old(TriedIds(m.mapInfo))
        && OnlyRefCounts(old(m.mapInfo), m.mapInfo)
    ensures m.vvNew == if Usable(s) then FillOne(m.hasher, s.news, old(m.vvNew), bucket, s.buckets[bucket][n])
                       else old(m.vvNew)
    ensures Usable(s) && NoClash(m.hasher, s) && PositionsRead(m.hasher, s, old(m.vvNew), bucket, n) ==>
              PositionsRead(m.hasher, s, m.vvNew, bucket, n + 1)
  {
    var nIndex := s.buckets[bucket][n];
    ghost var a, t0 := m.mapInfo, m.Now();
    if 0 <= nIndex < s.nNew && Usable(s) {
      assert NewLoaded(m.mapInfo, s, nIndex) && RefCountOf(m.hasher, m.mapInfo, m.vvNew, nIndex);
      if NoClash(m.hasher, s) && PositionsRead(m.hasher, s, m.vvNew, bucket, n) {
        PositionFree(t0, s, bucket, n);
      }
      var placed := FillIfFree(m, nIndex, bucket);
      forall i | 0 <= i < s.nNew ensures NewLoaded(m.mapInfo, s, i) {
        assert NewLoaded(a, s, i);
      }
      forall id ensures BelowOf(m.mapInfo, id) && RefOnly(a, m.mapInfo, id) {
        assert BelowOf(a, id);
      }
      if NoClash(m.hasher, s) && PositionsRead(m.hasher, s, t0.newT, bucket, n) {
        PositionRead(m.hasher, s, t0.newT, m.vvNew, bucket, n);
      }
    } else {
      forall id ensures RefOnly(a, m.mapInfo, id) {}
      assert Usable(s) && NoClash(m.hasher, s) ==> 0 <= nIndex < |s.news|;
    }
  }

  ghost predicate RefOnly(a: Infos, b: Infos, id: int) {
    (id in a <==> id in b) && (id in a ==> b[id] == a[id].(refCount := b[id].refCount))
  }

  ghost predicate OnlyRefCounts(a: Infos, b: Infos) {
    forall id {:trigger RefOnly(a, b, id)} :: RefOnly(a, b, id)
  }

  /** When nothing clashes, the slot of the next item is free and its limit is not reached. */
  lemma PositionFree(t: Tables, s: Stream, bucket: nat, n: nat)
    requires Readable(s) && Slots(t) && FirstLoaded(t.infos, s, s.nNew)
    requires bucket < |s.buckets| && n < |s.buckets[bucket]| && NoClash(t.h, s)
        && PositionsRead(t.h, s, t.newT, bucket, n)
    ensures var x := s.buckets[bucket][n];
            && x in t.infos && ListedPos(t.h, s, bucket, n) == t.h.Position(true, bucket, t.infos[x].address.service)
            && t.newT[bucket][ListedPos(t.h, s, bucket, n)] == NONE && t.infos[x].refCount < NEW_BUCKETS_PER_ADDRESS
  {
    var x, p := s.buckets[bucket][n], ListedPos(t.h, s, bucket, n);
    assert NewLoaded(t.infos, s, x) && RefCountOf(t.h, t.infos, t.newT, x);
    assert ListedSlot(s, t.newT, bucket, p, bucket, n) && NewSlotOk(t.h, t.infos, t.newT, bucket, p);
    forall k | 0 <= k < n ensures s.buckets[bucket][k] != t.newT[bucket][p] && s.buckets[bucket][k] != x {
      assert NewLoaded(t.infos, s, s.buckets[bucket][k]) && ListedPos(t.h, s, bucket, k) != p;
    }
    FewerSlots(t, s, bucket, n, NewSlots(t.h, t.newT, x, t.infos[x].address.service));
  }

  /** While an item is still to be read, its entry has fewer slots than buckets that list it. */
  lemma FewerSlots(t: Tables, s: Stream, bucket: nat, n: nat, slots: set<int>)
    requires Shape(t.newT, NEW_BUCKET_COUNT) && bucket < |s.buckets| && n < |s.buckets[bucket]|
    requires PositionsRead(t.h, s, t.newT, bucket, n) && s.buckets[bucket][n] != NONE
    requires s.buckets[bucket][n] in t.infos
    requires slots == NewSlots(t.h, t.newT, s.buckets[bucket][n], t.infos[s.buckets[bucket][n]].address.service)
    requires forall k :: 0 <= k < n ==> s.buckets[bucket][k] != s.buckets[bucket][n]
    ensures |slots| < |Listed(s, s.buckets[bucket][n])|
  {
    var x := s.buckets[bucket][n];
    var svc, rest := t.infos[x].address.service, Listed(s, x) - {bucket};
    forall b | b in slots ensures b in rest {
      assert ListedSlot(s, t.newT, b, t.h.Position(true, b, svc), bucket, n);
    }
    assert bucket in Listed(s, x) && rest == slots + (rest - slots);
  }

  lemma PositionRead(h: Hasher, s: Stream, t: Table, t': Table, bucket: nat, n: nat)
    requires bucket < |s.buckets| && n < |s.buckets[bucket]| && bucket < |t|
        && 0 <= ListedPos(h, s, bucket, n) < |t[bucket]|
    requires PositionsRead(h, s, t, bucket, n) && t' == Put(t, bucket, ListedPos(h, s, bucket, n), s.buckets[bucket][n])
    requires NoClash(h, s)
    ensures PositionsRead(h, s, t', bucket, n + 1)
  {
    var n' := n + 1;
    forall b, k | Earlier(b, k, bucket, n') ensures PlacedItem(h, s, t', b, k) {
      assert Earlier(b, k, bucket, n) ==> PlacedItem(h, s, t, b, k);
    }
    forall b, p ensures ListedSlot(s, t', b, p, bucket, n') {
      assert ListedSlot(s, t, b, p, bucket, n);
      if b == bucket && p == ListedPos(h, s, bucket, n) {
        assert Earlier(b, n, bucket, n') && s.buckets[b][n] == t'[b][p];
      }
    }
  }

  /** Third loop of Unserialize. */
  method LoadPositions(m: Manager, s: Stream)
    requires Readable(s) && CountsLoaded(m, s) && (Usable(s) ==> m.vvNew == EmptyTable(NEW_BUCKET_COUNT))
    modifies m`mapInfo, m`vvNew
    ensures CountsLoaded(m, s) && TriedIds(m.mapInfo) == old(TriedIds(m.mapInfo))
        && OnlyRefCounts(old(m.mapInfo), m.mapInfo)
    ensures m.vvNew == if Usable(s) then Filled(m.hasher, s, |s.buckets|, 0) else old(m.vvNew)
    ensures Usable(s) && NoClash(m.hasher, s) ==> PositionsRead(m.hasher, s, m.vvNew, |s.buckets|, 0)
  {
    ghost var a, good := m.mapInfo, Usable(s) && NoClash(m.hasher, s);
    forall id ensures RefOnly(a, m.mapInfo, id) {}
    for bucket := 0 to UBuckets(s)
      invariant CountsLoaded(m, s) && TriedIds(m.mapInfo) == TriedIds(a) && OnlyRefCounts(a, m.mapInfo)
      invariant good ==> PositionsRead(m.hasher, s, m.vvNew, bucket, 0)
      invariant m.vvNew == if Usable(s) then Filled(m.hasher, s, bucket, 0) else old(m.vvNew)
    {
      for n := 0 to |s.buckets[bucket]|
        invariant CountsLoaded(m, s) && TriedIds(m.mapInfo) == TriedIds(a) && OnlyRefCounts(a, m.mapInfo)
        invariant good ==> PositionsRead(m.hasher, s, m.vvNew, bucket, n)
        invariant m.vvNew == if Usable(s) then Filled(m.hasher, s, bucket, n) else old(m.vvNew)
      {
        ghost var b := m.mapInfo;
        LoadPosition(m, s, bucket, n);
        forall id ensures RefOnly(a, m.mapInfo, id) {
          assert RefOnly(a, b, id) && RefOnly(b, m.mapInfo, id);
        }
      }
      if good {
        BucketRead(m.hasher, s, m.vvNew, bucket);
      }
    }
  }

  lemma BucketRead(h: Hasher, s: Stream, t: Table, bucket: nat)
    requires bucket < |s.buckets| && PositionsRead(h, s, t, bucket, |s.buckets[bucket]|)
    ensures PositionsRead(h, s, t, bucket + 1, 0)
  {
    var n, next := |s.buckets[bucket]|, bucket + 1;
    forall b, k | Earlier(b, k, next, 0) ensures PlacedItem(h, s, t, b, k) {
      assert Earlier(b, k, bucket, n) ==> PlacedItem(h, s, t, b, k);
    }
    forall b, p ensures ListedSlot(s, t, b, p, next, 0) {
      assert ListedSlot(s, t, b, p, bucket, n);
      if 0 <= b < |t| && 0 <= p < |t[b]| && t[b][p] != NONE {
        var k :| 0 <= b < |s.buckets| && 0 <= k < |s.buckets[b]| && Earlier(b, k, bucket, n)
          && s.buckets[b][k] == t[b][p];
        assert Earlier(b, k, next, 0);
      }
    }
  }

  // ----- Fourth loop: entries without references -----

  /** Of the ids below n, exactly the untried ones without a reference are gone. */
  ghost predicate PrunedOf(was: Infos, n: int, b: Infos, k: int) {
    && (k in b <==> k in was && (k >= n || was[k].inTried || was[k].refCount != 0))
    && (k in b ==> SameButPos(was[k], b[k]))
  }

  ghost predicate Pruned(was: Infos, n: int, b: Infos) {
    forall k {:trigger PrunedOf(was, n, b, k)} :: PrunedOf(was, n, b, k)
  }

  /** Pruning an entry erases its address, also if another entry has it. */
  ghost predicate ErasedAt(was: Infos, n: int, addrs: map<NetAddr, int>, now: map<NetAddr, int>, a: NetAddr) {
    && (a in now <==> a in addrs && forall k :: k in was && k < n && Prunable(was[k]) ==> was[k].Net() != a)
    && (a in now ==> now[a] == addrs[a])
  }

  predicate Prunable(info: Info) {
    !info.inTried && info.refCount == 0
  }

  ghost predicate Erased(was: Infos, n: int, addrs: map<NetAddr, int>, now: map<NetAddr, int>) {
    forall a {:trigger ErasedAt(was, n, addrs, now, a)} :: ErasedAt(was, n, addrs, now, a)
  }

  /** No other entry that was loaded has this address. */
  ghost predicate AloneAt(was: Infos, id: int) {
    id in was ==> forall k :: k in was && k != id ==> was[k].Net() != was[id].Net()
  }

  /** Each entry that is left has an address that no other loaded entry had. */
  ghost predicate Undisputed(was: Infos, b: Infos) {
    forall id {:trigger AloneAt(was, id)} :: id in b ==> AloneAt(was, id)
  }

  /** After pruning, mapAddr is right if and only if no address of a remaining entry was repeated. */
  lemma AddrsRightIff(was: Infos, addrs: map<NetAddr, int>, n: int, b: Infos, now: map<NetAddr, int>)
    requires LastOk(was, addrs) && Pruned(was, n, b) && Erased(was, n, addrs, now)
    requires forall k {:trigger IdOf(was, n, k)} :: IdOf(was, n, k)
    ensures AddrOk(b, now) <==> Undisputed(was, b)
  {
    forall a ensures AddrAt(b, now, a) {
      assert AddrAt(was, addrs, a) && ErasedAt(was, n, addrs, now, a);
      if a in now {
        assert PrunedOf(was, n, b, addrs[a]) && IdOf(was, n, addrs[a]);
      }
    }
    if AddrOk(b, now) {
      forall id | id in b ensures AloneAt(was, id) {
        assert AddrOf(b, now, id) && PrunedOf(was, n, b, id);
        forall k | k in was && k != id ensures was[k].Net() != was[id].Net() {
          OthersDiffer(was, addrs, n, b, now, id, k);
        }
      }
    }
    if Undisputed(was, b) {
      forall id ensures AddrOf(b, now, id) {
        AloneIsRight(was, addrs, n, b, now, id);
      }
    }
  }

  lemma OthersDiffer(was: Infos, addrs: map<NetAddr, int>, n: int, b: Infos, now: map<NetAddr, int>, id: int, k: int)
    requires LastOk(was, addrs) && Pruned(was, n, b) && Erased(was, n, addrs, now) && AddrOk(b, now)
    requires id in b && id in was && k in was && k != id && IdOf(was, n, k)
    ensures was[k].Net() != was[id].Net()
  {
    var a := was[id].Net();
    assert PrunedOf(was, n, b, id) && PrunedOf(was, n, b, k);
    assert ErasedAt(was, n, addrs, now, a) && AddrOf(b, now, id) && AddrOf(b, now, k);
  }

  lemma AloneIsRight(was: Infos, addrs: map<NetAddr, int>, n: int, b: Infos, now: map<NetAddr, int>, id: int)
    requires LastOk(was, addrs) && Pruned(was, n, b) && Erased(was, n, addrs, now) && Undisputed(was, b)
    requires IdOf(was, n, id)
    ensures AddrOf(b, now, id)
  {
    assert PrunedOf(was, n, b, id);
    if id in b {
      var a := was[id].Net();
      assert AloneAt(was, id) && LastFor(was, addrs, id) && AddrAt(was, addrs, a) && ErasedAt(was, n, addrs, now, a);
    }
  }

  /** Everything Check_ tests except mapAddr, the time stamps and the key. */
  ghost predicate ValidButAddrs(m: Manager)
    reads m
  {
    Slots(m.Now()) && LiveOk(m.mapInfo) && m.nNew == |NewIds(m.mapInfo)| && m.nTried == |TriedIds(m.mapInfo)|
  }

  /** Last loop of Unserialize: what remains is consistent if and only if no remaining entry shares its address
      with another loaded one, and nothing is pruned if every untried entry is referenced. */
  method Prune(m: Manager)
    requires Loading(m.Now()) && LiveBelow(m.mapInfo) && m.nNew == |NewIds(m.mapInfo)|
        && m.nTried == |TriedIds(m.mapInfo)|
    modifies m`mapInfo, m`mapAddr, m`vRandom, m`nNew
    ensures ValidButAddrs(m) && var n := m.nIdCount; Pruned(old(m.mapInfo), n, m.mapInfo)
    ensures m.Valid() <==> Undisputed(old(m.mapInfo), m.mapInfo)
    ensures old(LiveOk(m.mapInfo)) ==> m.Now() == old(m.Now()) && m.nNew == old(m.nNew)
  {
    forall k ensures PrunedOf(m.mapInfo, 0, m.mapInfo, k) {
      assert IdOf(m.mapInfo, m.nIdCount, k);
    }
    forall a ensures ErasedAt(m.mapInfo, 0, m.mapAddr, m.mapAddr, a) {
      forall k | k in m.mapInfo ensures k >= 0 {
        assert IdOf(m.mapInfo, m.nIdCount, k);
      }
    }
    for id := 0 to m.nIdCount
      invariant Slots(m.Now()) && LiveBelow(m.mapInfo) && m.nNew == |NewIds(m.mapInfo)|
          && m.nTried == |TriedIds(m.mapInfo)|
      invariant forall k :: 0 <= k < id ==> LiveOf(m.mapInfo, k)
      invariant Pruned(old(m.mapInfo), id, m.mapInfo) && Erased(old(m.mapInfo), id, old(m.mapAddr), m.mapAddr)
      invariant old(LiveOk(m.mapInfo)) ==> m.Now() == old(m.Now()) && m.nNew == old(m.nNew)
    {
      PruneOne(m, id, old(m.mapInfo), old(m.mapAddr));
    }
    forall k ensures LiveOf(m.mapInfo, k) {
      assert IdOf(m.mapInfo, m.nIdCount, k);
    }
    AddrsRightIff(old(m.mapInfo), old(m.mapAddr), m.nIdCount, m.mapInfo, m.mapAddr);
  }

  /** The body of the last loop. */
  method PruneOne(m: Manager, id: int, ghost was: Infos, ghost addrs: map<NetAddr, int>)
    requires Slots(m.Now()) && LiveBelow(m.mapInfo) && m.nNew == |NewIds(m.mapInfo)|
        && m.nTried == |TriedIds(m.mapInfo)|
    requires Pruned(was, id, m.mapInfo) && Erased(was, id, addrs, m.mapAddr) && forall k :: 0 <= k < id ==>
        LiveOf(m.mapInfo, k)
    modifies m`mapInfo, m`mapAddr, m`vRandom, m`nNew
    ensures Slots(m.Now()) && LiveBelow(m.mapInfo) && m.nNew == |NewIds(m.mapInfo)| && m.nTried == |TriedIds(m.mapInfo)|
    ensures forall k :: 0 <= k < id + 1 ==> LiveOf(m.mapInfo, k)
    ensures var next := id + 1; Pruned(was, next, m.mapInfo) && Erased(was, next, addrs, m.mapAddr)
    ensures old(LiveOk(m.mapInfo)) ==> m.Now() == old(m.Now()) && m.nNew == old(m.nNew)
  {
    ghost var a, before := m.mapInfo, m.mapAddr;
    ghost var next := id + 1;
    assert BelowOf(a, id) && (LiveOk(a) ==> LiveOf(a, id)) && PrunedOf(was, id, a, id);
    if id in m.mapInfo && !m.mapInfo[id].inTried && m.mapInfo[id].refCount == 0 {
      assert id in NewIds(m.mapInfo);
      m.Delete(id);
      forall k ensures BelowOf(m.mapInfo, k) && (0 <= k < id ==> LiveOf(m.mapInfo, k)) {
        assert SameOf(a - {id}, m.mapInfo, k) && BelowOf(a, k) && (0 <= k < id ==> LiveOf(a, k));
      }
      assert SameOf(a - {id}, m.mapInfo, id);
    }
    forall k ensures PrunedOf(was, next, m.mapInfo, k) {
      assert PrunedOf(was, id, a, k) && (a == m.mapInfo || SameOf(a - {id}, m.mapInfo, k));
    }
    forall net ensures ErasedAt(was, next, addrs, m.mapAddr, net) {
      assert ErasedAt(was, id, addrs, before, net);
    }
  }

  // ----- Everything together -----

  /** Each new entry is listed somewhere, nothing clashes and the positions can be used. */
  ghost predicate Lossless(h: Hasher, s: Stream) {
    && Usable(s) && DistinctSlots(h, s.trieds) && NoClash(h, s)
    && forall n {:trigger IsListed(s, n)} :: 0 <= n < |s.news| ==> IsListed(s, n)
  }

  ghost predicate IsListed(s: Stream, n: int) {
    exists b, k :: ListsAt(s, n, b, k)
  }

  ghost predicate ListsAt(s: Stream, n: int, b: int, k: int) {
    0 <= b < |s.buckets| && 0 <= k < |s.buckets[b]| && s.buckets[b][k] == n
  }

  /** The manager holds exactly what the stream lists. */
  ghost predicate Restored(m: Manager, s: Stream)
    reads m
  {
    && m.nNew == s.nNew && m.nTried == s.nTried && m.nIdCount == s.nNew + s.nTried
    && FirstLoaded(m.mapInfo, s, s.nNew)
    && (forall i :: 0 <= i < s.nTried ==> TriedRestored(m.mapInfo, s, i))
    && PositionsRead(m.hasher, s, m.vvNew, |s.buckets|, 0)
  }

  ghost predicate TriedRestored(infos: Infos, s: Stream, i: int) {
    && 0 <= i < |s.trieds| && s.nNew + i in infos
    && infos[s.nNew + i] == FromDisk(s.trieds[i]).(inTried := true, randomPos := s.nNew + i)
  }

  /** An entry has what the stream stored about it. */
  ghost predicate StoredAt(infos: Infos, s: Stream, id: int) {
    id in infos ==>
      if id < s.nNew then 0 <= id < |s.news| && !infos[id].inTried && ToDisk(infos[id]) == s.news[id]
      else infos[id].inTried && ToDisk(infos[id]) in s.trieds
  }

  ghost predicate Stored(infos: Infos, s: Stream) {
    forall id {:trigger StoredAt(infos, s, id)} :: StoredAt(infos, s, id)
  }

  lemma LoadedIsStored(a: Infos, b: Infos, s: Stream, came: seq<int>, idCount: int)
    requires Readable(s) && IdsOk(a, idCount) && idCount == s.nNew + |came|
    requires FirstLoaded(a, s, s.nNew) && NextLoaded(a, s, came, s.nTried) && OnlyRefCounts(a, b)
    ensures Stored(b, s)
  {
    forall id ensures StoredAt(b, s, id) {
      assert RefOnly(a, b, id) && IdOf(a, idCount, id);
      if id in b && id < s.nNew {
        assert NewLoaded(a, s, id);
      } else if id in b {
        assert TriedLoaded(a, s, came, s.nTried, id - s.nNew);
      }
    }
  }

  ghost predicate TriedIs(infos: Infos, s: Stream, came: seq<int>, i: int) {
    0 <= i < |came| ==>
      && s.nNew + i in infos && infos[s.nNew + i].inTried
      && 0 <= came[i] < |s.trieds| && ToDisk(infos[s.nNew + i]) == s.trieds[came[i]]
  }

  /** The tried entries are those kept from the stream, in its order. */
  ghost predicate TriedAre(infos: Infos, s: Stream, came: seq<int>) {
    && (forall i {:trigger TriedIs(infos, s, came, i)} :: TriedIs(infos, s, came, i))
    && forall i, j :: 0 <= i < j < |came| ==> came[i] < came[j]
  }

  lemma TriedStay(a: Infos, b: Infos, s: Stream, came: seq<int>)
    requires NextLoaded(a, s, came, s.nTried) && OnlyRefCounts(a, b)
    ensures TriedAre(b, s, came)
  {
    forall i ensures TriedIs(b, s, came, i) {
      assert TriedLoaded(a, s, came, s.nTried, i) && RefOnly(a, b, s.nNew + i);
    }
    forall i, j | 0 <= i < j < |came| ensures came[i] < came[j] {
      assert TriedLoaded(a, s, came, s.nTried, j);
    }
  }

  lemma PrunedTried(a: Infos, b: Infos, s: Stream, came: seq<int>, n: int)
    requires TriedAre(a, s, came) && Pruned(a, n, b)
    ensures TriedAre(b, s, came)
  {
    forall i ensures TriedIs(b, s, came, i) {
      assert TriedIs(a, s, came, i) && PrunedOf(a, n, b, s.nNew + i);
    }
  }

  lemma PrunedIsStored(a: Infos, b: Infos, s: Stream, n: int)
    requires Stored(a, s) && Pruned(a, n, b)
    ensures Stored(b, s)
  {
    forall id ensures StoredAt(b, s, id) {
      assert StoredAt(a, s, id) && PrunedOf(a, n, b, id);
    }
  }

  /** Entries of a stream without repeated addresses have different ones. */
  lemma DistinctUndisputed(a: Infos, b: Infos, s: Stream, came: seq<int>, idCount: int)
    requires Readable(s) && IdsOk(a, idCount) && idCount == s.nNew + |came| && DistinctNets(s)
    requires FirstLoaded(a, s, s.nNew) && NextLoaded(a, s, came, s.nTried) && OnlyRefCounts(a, b)
    ensures forall id {:trigger AloneAt(b, id)} :: AloneAt(b, id)
  {
    forall id ensures AloneAt(b, id) {
      forall k | id in b && k in b && k != id ensures b[k].Net() != b[id].Net() {
        assert RefOnly(a, b, id) && RefOnly(a, b, k) && IdOf(a, idCount, id) && IdOf(a, idCount, k);
        assert 0 <= id < s.nNew ==> NewLoaded(a, s, id);
        assert 0 <= k < s.nNew ==> NewLoaded(a, s, k);
        assert TriedLoaded(a, s, came, s.nTried, id - s.nNew) && TriedLoaded(a, s, came, s.nTried, k - s.nNew);
      }
    }
  }

  /** Unserialize: for every readable stream all tables but mapAddr end up consistent, with entries as stored.
      mapAddr does too if and only if no entry that remains shares its address with another one that was loaded,
      so always for a stream without repeated addresses. Nothing of a lossless stream is lost; of any other, a
      tried entry is lost exactly when an earlier one has its slot, the new table is the one the stream stands for,
      and a new entry is lost exactly when it is not in it. */
  method Unserialize(m: Manager, s: Stream) returns (ok: bool, ghost loaded: Infos, ghost came: seq<int>)
    modifies m
    ensures ok <==> Readable(s)
    ensures m.hasher == old(m.hasher).(key := m.hasher.key) && (ok ==> m.hasher.key == s.key)
    ensures ok ==> ValidButAddrs(m) && m.nLastGood == 1 && Stored(m.mapInfo, s)
    ensures ok ==> FirstLoaded(loaded, s, s.nNew) && Stored(loaded, s)
    ensures ok ==> var n := m.nIdCount; Pruned(loaded, n, m.mapInfo)
    ensures ok ==> (m.Valid() <==> Undisputed(loaded, m.mapInfo))
    ensures ok && DistinctNets(s) ==> m.Valid()
    ensures ok && Lossless(m.hasher, s) ==> Restored(m, s)
    ensures ok ==> FirstsKept(m.hasher, s.trieds, came, s.nTried) && TriedAre(m.mapInfo, s, came)
    ensures ok ==> m.nTried == |came| && m.nIdCount == s.nNew + |came| && m.vvNew == NewTable(m.hasher, s)
    ensures ok ==> AllKept(m.mapInfo, m.vvNew, s.nNew)
  {
    Clear(m);
    ok, loaded, came := Readable(s), map[], [];
    if !ok {
      return;
    }
    m.hasher := m.hasher.(key := s.key);
    EmptyLoading(m.Now());
    came := LoadTables(m, s);
    loaded := m.mapInfo;
    ghost var t := m.Now();
    Prune(m);
    AfterPrune(t, s, came, m.mapInfo);
  }

  /** An entry is there if and only if some slot of the new table holds it. */
  ghost predicate KeptIff(infos: Infos, t: Table, n: int) {
    n in infos <==> exists b, p :: Holds(t, b, p, n)
  }

  ghost predicate Holds(t: Table, b: int, p: int, n: int) {
    0 <= b < |t| && 0 <= p < |t[b]| && t[b][p] == n
  }

  ghost predicate AllKept(infos: Infos, t: Table, count: int) {
    forall n {:trigger KeptIff(infos, t, n)} :: 0 <= n < count ==> KeptIff(infos, t, n)
  }

  lemma AfterPrune(t: Tables, s: Stream, came: seq<int>, b: Infos)
    requires Readable(s) && Slots(t) && FirstLoaded(t.infos, s, s.nNew) && Pruned(t.infos, t.idCount, b)
    requires Stored(t.infos, s) && TriedAre(t.infos, s, came)
    ensures Stored(b, s) && TriedAre(b, s, came) && AllKept(b, t.newT, s.nNew)
  {
    PrunedIsStored(t.infos, b, s, t.idCount);
    PrunedTried(t.infos, b, s, came, t.idCount);
    KeptIfReferenced(t, s, b);
  }

  lemma KeptIfReferenced(t: Tables, s: Stream, b: Infos)
    requires Readable(s) && Slots(t) && FirstLoaded(t.infos, s, s.nNew) && Pruned(t.infos, t.idCount, b)
    ensures AllKept(b, t.newT, s.nNew)
  {
    forall n | 0 <= n < s.nNew ensures KeptIff(b, t.newT, n) {
      assert NewLoaded(t.infos, s, n) && PrunedOf(t.infos, t.idCount, b, n) && IdOf(t.infos, t.idCount, n);
      assert RefCountOf(t.h, t.infos, t.newT, n);
      var svc := t.infos[n].address.service;
      var slots := NewSlots(t.h, t.newT, n, svc);
      if slots != {} {
        var c :| c in slots;
        assert Holds(t.newT, c, t.h.Position(true, c, svc), n);
      }
      forall c, p | Holds(t.newT, c, p, n) ensures c in slots {
        assert NewSlotOk(t.h, t.infos, t.newT, c, p);
      }
    }
  }

  /** Two entries for one address, each listed in a bucket of its own, are both kept, and mapAddr leads to one. */
  method RepeatedAddress(m: Manager, d: DiskInfo, key: nat) returns (ok: bool)
    modifies m
    ensures ok && !m.Valid()
  {
    var buckets := seq(NEW_BUCKET_COUNT, b => if b < 2 then [b] else []);
    var s := Stream(1, 32, key, 2, 0, FlipBit30(NEW_BUCKET_COUNT), [d, d], [], buckets);
    assert Readable(s) && Usable(s);
    ghost var h := m.hasher.(key := key);
    RepeatedIsLossless(h, s);
    ghost var loaded, came;
    ok, loaded, came := Unserialize(m, s);
    assert NewLoaded(m.mapInfo, s, 0) && NewLoaded(m.mapInfo, s, 1) && NewLoaded(loaded, s, 0)
      && NewLoaded(loaded, s, 1);
    assert !AloneAt(loaded, 0);
  }

  lemma RepeatedIsLossless(h: Hasher, s: Stream)
    requires Readable(s) && Usable(s) && |s.news| == 2 && s.trieds == []
    requires forall b :: 0 <= b < |s.buckets| ==> s.buckets[b] == if b < 2 then [b] else []
    ensures Lossless(h, s)
  {
    forall n | 0 <= n < |s.news| ensures IsListed(s, n) && |Listed(s, n)| <= NEW_BUCKETS_PER_ADDRESS {
      assert ListsAt(s, n, n, 0);
      assert Listed(s, n) == {n};
    }
  }

  /** Everything before the last loop. */
  method LoadTables(m: Manager, s: Stream) returns (ghost came: seq<int>)
    requires Readable(s)
    requires Loading(m.Now()) && m.mapInfo == map[] && m.vRandom == [] && m.nIdCount == 0
        && m.vvNew == EmptyTable(NEW_BUCKET_COUNT)
    modifies m`mapInfo, m`mapAddr, m`vRandom, m`vvNew, m`vvTried, m`nIdCount, m`nNew, m`nTried
    ensures Loading(m.Now()) && LiveBelow(m.mapInfo) && m.nNew == |NewIds(m.mapInfo)|
        && m.nTried == |TriedIds(m.mapInfo)|
    ensures Stored(m.mapInfo, s) && FirstLoaded(m.mapInfo, s, s.nNew)
    ensures FirstsKept(m.hasher, s.trieds, came, s.nTried) && m.nTried == |came| && m.nIdCount == s.nNew + |came|
    ensures TriedAre(m.mapInfo, s, came) && m.vvNew == NewTable(m.hasher, s)
    ensures DistinctNets(s) ==> forall id {:trigger AloneAt(m.mapInfo, id)} :: AloneAt(m.mapInfo, id)
    ensures Lossless(m.hasher, s) ==> LiveOk(m.mapInfo) && Restored(m, s)
  {
    m.nNew, m.nTried := s.nNew, s.nTried;
    var nLost;
    nLost, came := LoadEntries(m, s);
    m.nTried := m.nTried - nLost;
    ghost var a, idCount := m.mapInfo, m.nIdCount;
    LoadPositions(m, s);
    LoadedIsStored(a, m.mapInfo, s, came, idCount);
    TriedStay(a, m.mapInfo, s, came);
    if DistinctNets(s) {
      DistinctUndisputed(a, m.mapInfo, s, came, idCount);
    }
    if Lossless(m.hasher, s) {
      AllReferenced(m.Now(), s);
      AllTriedRestored(m.Now(), s, came, a);
    }
  }

  /** The first two loops. */
  method LoadEntries(m: Manager, s: Stream) returns (nLost: nat, ghost came: seq<int>)
    requires Readable(s)
    requires Loading(m.Now()) && m.mapInfo == map[] && m.vRandom == [] && m.nIdCount == 0
        && m.vvNew == EmptyTable(NEW_BUCKET_COUNT)
    modifies m`mapInfo, m`mapAddr, m`vRandom, m`vvNew, m`vvTried, m`nIdCount
    ensures CoreLoaded(m, s, came, s.nTried) && |came| + nLost == s.nTried
    ensures FirstsKept(m.hasher, s.trieds, came, s.nTried)
    ensures !Usable(s) ==> m.vvNew == Primary(m.hasher, s.news, s.nNew)
    ensures DistinctSlots(m.hasher, s.trieds) ==> nLost == 0 && forall i :: 0 <= i < |came| ==> came[i] == i
    ensures Usable(s) ==> m.vvNew == EmptyTable(NEW_BUCKET_COUNT)
  {
    LoadNew(m, s);
    forall i ensures TriedLoaded(m.mapInfo, s, [], 0, i) {}
    nLost, came := LoadTried(m, s);
  }

  lemma AllTriedRestored(t: Tables, s: Stream, came: seq<int>, a: Infos)
    requires Slots(t) && Readable(s) && |came| == s.nTried && NextLoaded(a, s, came, s.nTried)
        && OnlyRefCounts(a, t.infos)
    requires forall i :: 0 <= i < |came| ==> came[i] == i
    ensures forall i :: 0 <= i < s.nTried ==> TriedRestored(t.infos, s, i)
  {
    forall i | 0 <= i < s.nTried ensures TriedRestored(t.infos, s, i) {
      assert TriedLoaded(a, s, came, s.nTried, i) && RefOnly(a, t.infos, s.nNew + i);
      TriedUnreferenced(t, s.nNew + i);
    }
  }

  method Clear(m: Manager)
    modifies m
    ensures m.hasher == old(m.hasher) && m.mapInfo == map[] && m.mapAddr == map[] && m.vRandom == [] && m.nIdCount == 0
    ensures m.nNew == 0 && m.nTried == 0 && m.nLastGood == 1
    ensures m.vvNew == EmptyTable(NEW_BUCKET_COUNT) && m.vvTried == EmptyTable(TRIED_BUCKET_COUNT)
  {
    m.vRandom, m.nIdCount, m.nTried, m.nNew, m.nLastGood := [], 0, 0, 0, 1;
    m.mapInfo, m.mapAddr := map[], map[];
    m.vvNew, m.vvTried := EmptyTable(NEW_BUCKET_COUNT), EmptyTable(TRIED_BUCKET_COUNT);
  }

  lemma EmptyLoading(t: Tables)
    requires t.infos == map[] && t.addrs == map[] && t.random == [] && t.idCount == 0
    requires t.newT == EmptyTable(NEW_BUCKET_COUNT) && t.triedT == EmptyTable(TRIED_BUCKET_COUNT)
    ensures Loading(t)
  {
  }

  lemma AllReferenced(t: Tables, s: Stream)
    requires Readable(s) && Slots(t) && LiveBelow(t.infos) && FirstLoaded(t.infos, s, s.nNew)
    requires PositionsRead(t.h, s, t.newT, |s.buckets|, 0) && Lossless(t.h, s) && |NewIds(t.infos)| == s.nNew
    ensures LiveOk(t.infos)
  {
    forall id ensures LiveOf(t.infos, id) {
      assert BelowOf(t.infos, id) && RefCountOf(t.h, t.infos, t.newT, id);
      if 0 <= id < s.nNew {
        assert NewLoaded(t.infos, s, id);
        assert IsListed(s, id);
        var b, k :| ListsAt(s, id, b, k);
        assert Earlier(b, k, |s.buckets|, 0) && PlacedItem(t.h, s, t.newT, b, k);
        assert b in NewSlots(t.h, t.newT, id, t.infos[id].address.service);
      } else {
        OnlyFirstAreNew(t.infos, s, id);
      }
    }
  }

  /** As many untried entries as new ones loaded: there are no others. */
  lemma OnlyFirstAreNew(infos: Infos, s: Stream, id: int)
    requires |s.news| == s.nNew == |NewIds(infos)| && FirstLoaded(infos, s, s.nNew) && !(0 <= id < s.nNew)
    ensures id !in NewIds(infos)
  {
    forall k | 0 <= k < s.nNew ensures k in NewIds(infos) {
      assert NewLoaded(infos, s, k);
    }
    var firsts := set k | k in infos && 0 <= k < s.nNew;
    FirstsSize(infos, s, s.nNew);
    assert firsts <= NewIds(infos);
    assert NewIds(infos) == firsts + (NewIds(infos) - firsts);
  }

  lemma {:induction false} FirstsSize(infos: Infos, s: Stream, n: nat)
    requires n <= |s.news| && FirstLoaded(infos, s, n)
    ensures |set k | k in infos && 0 <= k < n| == n
    decreases n
  {
    var firsts := set k | k in infos && 0 <= k < n;
    if n == 0 {
      assert firsts == {};
    } else {
      var m := n - 1;
      assert NewLoaded(infos, s, m);
      FirstsSize(infos, s, m);
      assert firsts == (set k | k in infos && 0 <= k < m) + {m};
    }
  }
}
