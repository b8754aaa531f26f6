/** The data of the address manager of src/addrman.h and the consistency conditions
    that its `Check_` writes down, each as a predicate over the tables it concerns. */
module AddrTables {

  const TRIED_BUCKET_COUNT := 256
  const NEW_BUCKET_COUNT := 1024
  const BUCKET_SIZE := 64
  const NEW_BUCKETS_PER_ADDRESS := 8
  const HORIZON_DAYS := 30
  const RETRIES := 3
  const MAX_FAILURES := 10
  const MIN_FAIL_DAYS := 7
  const GETADDR_MAX_PCT := 23
  const GETADDR_MAX := 2500
  const INT_MAX := 0x7fff_ffff
  const DAY := 24 * 60 * 60

  /** An empty bucket position. */
  const NONE := -1

  datatype NetAddr = NetAddr(ip: nat)
  datatype Service = Service(net: NetAddr, port: nat)

  /** CAddress; the service flags are the set of their bit numbers. */
  datatype Address = Address(service: Service, services: set<nat>, time: nat)

  /** CAddrInfo. */
  datatype Info = Info(
    address: Address, source: NetAddr, lastSuccess: int, attempts: int,
    lastTry: int, lastCountAttempt: int, refCount: int, inTried: bool, randomPos: int)
  {
    function Net(): NetAddr {
      address.service.net
    }

    predicate IsTerrible(now: int) {
      if lastTry != 0 && lastTry >= now - 60 then false
      else
        || address.time > now + 10 * 60
        || address.time == 0 || now - address.time > HORIZON_DAYS * DAY
        || (lastSuccess == 0 && attempts >= RETRIES)
        || (now - lastSuccess > MIN_FAIL_DAYS * DAY && attempts >= MAX_FAILURES)
    }
  }

  /** When an entry is given up: heard of within thirty days, and not from more than ten minutes ahead, it lasts until
      its third failed attempt if it never answered, and otherwise until its tenth with no answer for a week; not
      heard of it is given up at once. An attempt within the last minute saves it for now. */
  lemma TerribleTurns(info: Info, now: int)
    ensures info.lastTry != 0 && info.lastTry >= now - 60 ==> !info.IsTerrible(now)
    ensures var idle := info.lastTry == 0 || info.lastTry < now - 60;
            var heardOf := info.address.time != 0 && now - 2592000 <= info.address.time <= now + 600;
            && (idle && !heardOf ==> info.IsTerrible(now))
            && (idle && heardOf && info.lastSuccess == 0 ==> (info.IsTerrible(now) <==> info.attempts >= 3))
            && (idle && heardOf && info.lastSuccess != 0 ==>
              (info.IsTerrible(now) <==> info.attempts >= 10 && now - info.lastSuccess > 604800))
  {
  }

  function NewInfo(address: Address, source: NetAddr): Info {
    Info(address, source, 0, 0, 0, 0, 0, false, -1)
  }

  // ----- Bucket hashing -----

  type TriedIndex = b: nat | b < TRIED_BUCKET_COUNT
  type NewIndex = b: nat | b < NEW_BUCKET_COUNT
  type Slot = p: nat | p < BUCKET_SIZE

  /** The hash functions salted with nKey; nothing but their ranges is assumed of them. */
  datatype Hasher = Hasher(
    key: nat,
    triedBucket: (nat, Service) -> TriedIndex,
    newBucket: (nat, Service, NetAddr) -> NewIndex,
    position: (nat, bool, nat, Service) -> Slot)
  {
    function TriedBucket(s: Service): TriedIndex {
      triedBucket(key, s)
    }

    function NewBucket(s: Service, source: NetAddr): NewIndex {
      newBucket(key, s, source)
    }

    function Position(isNew: bool, bucket: nat, s: Service): Slot {
      position(key, isNew, bucket, s)
    }

    function TriedPosition(s: Service): Slot {
      Position(false, TriedBucket(s), s)
    }
  }

  // ----- Tables -----

  type Infos = map<int, Info>
  type Table = seq<seq<int>>

  predicate Shape(t: Table, buckets: nat) {
    |t| == buckets && forall b :: 0 <= b < buckets ==> |t[b]| == BUCKET_SIZE
  }

  function EmptyTable(buckets: nat): (t: Table)
    ensures Shape(t, buckets)
  {
    seq(buckets, _ => seq(BUCKET_SIZE, _ => NONE))
  }

  function Put(t: Table, b: nat, p: nat, id: int): (t': Table)
    requires b < |t| && p < |t[b]|
    ensures Shape(t, |t|) ==> Shape(t', |t|)
  {
    t[b := t[b][p := id]]
  }

  lemma PutTwice(t: Table, b: nat, p: nat, x: int, y: int)
    requires b < |t| && p < |t[b]|
    ensures Put(Put(t, b, p, x), b, p, y) == Put(t, b, p, y)
  {
    assert t[b][p := x][p := y] == t[b][p := y];
  }

  /** The new buckets in which `id` occurs at its hashed position. */
  ghost function NewSlots(h: Hasher, t: Table, id: int, s: Service): set<int>
    requires Shape(t, NEW_BUCKET_COUNT)
  {
    set b | 0 <= b < NEW_BUCKET_COUNT && t[b][h.Position(true, b, s)] == id
  }

  // ----- Consistency conditions -----
  //
  // Each condition quantifies over a predicate about one id, slot or position, and is
  // instantiated by naming that predicate.

  ghost predicate RandomAt(infos: Infos, random: seq<int>, i: int) {
    0 <= i < |random| ==> random[i] in infos && infos[random[i]].randomPos == i
  }

  ghost predicate RandomOf(infos: Infos, random: seq<int>, id: int) {
    id in infos ==> 0 <= infos[id].randomPos < |random| && random[infos[id].randomPos] == id
  }

  /** vRandom lists every id once, and each entry knows its place in it. */
  ghost predicate RandomOk(infos: Infos, random: seq<int>) {
    && (forall i {:trigger RandomAt(infos, random, i)} :: RandomAt(infos, random, i))
    && (forall id {:trigger RandomOf(infos, random, id)} :: RandomOf(infos, random, id))
  }

  ghost predicate AddrOf(infos: Infos, addrs: map<NetAddr, int>, id: int) {
    id in infos ==> infos[id].Net() in addrs && addrs[infos[id].Net()] == id
  }

  ghost predicate AddrAt(infos: Infos, addrs: map<NetAddr, int>, a: NetAddr) {
    a in addrs ==> addrs[a] in infos && infos[addrs[a]].Net() == a
  }

  /** mapAddr is the inverse of the entries' network addresses. */
  ghost predicate AddrOk(infos: Infos, addrs: map<NetAddr, int>) {
    && (forall id {:trigger AddrOf(infos, addrs, id)} :: AddrOf(infos, addrs, id))
    && (forall a {:trigger AddrAt(infos, addrs, a)} :: AddrAt(infos, addrs, a))
  }

  ghost predicate NewSlotOk(h: Hasher, infos: Infos, t: Table, b: int, p: int)
    requires Shape(t, NEW_BUCKET_COUNT)
  {
    0 <= b < NEW_BUCKET_COUNT && 0 <= p < BUCKET_SIZE && t[b][p] != NONE ==>
      var id := t[b][p];
      id in infos && !infos[id].inTried && p == h.Position(true, b, infos[id].address.service)
  }

  ghost predicate NewOk(h: Hasher, infos: Infos, t: Table) {
    && Shape(t, NEW_BUCKET_COUNT)
    && forall b, p {:trigger NewSlotOk(h, infos, t, b, p)} :: NewSlotOk(h, infos, t, b, p)
  }

  ghost predicate RefCountOf(h: Hasher, infos: Infos, t: Table, id: int)
    requires Shape(t, NEW_BUCKET_COUNT)
  {
    id in infos ==> infos[id].refCount == |NewSlots(h, t, id, infos[id].address.service)|
  }

  /** nRefCount is the number of occurrences in the new table. */
  ghost predicate RefCountsOk(h: Hasher, infos: Infos, t: Table)
    requires Shape(t, NEW_BUCKET_COUNT)
  {
    forall id {:trigger RefCountOf(h, infos, t, id)} :: RefCountOf(h, infos, t, id)
  }

  ghost predicate TriedSlotOk(h: Hasher, infos: Infos, t: Table, b: int, p: int)
    requires Shape(t, TRIED_BUCKET_COUNT)
  {
    0 <= b < TRIED_BUCKET_COUNT && 0 <= p < BUCKET_SIZE && t[b][p] != NONE ==>
      var id := t[b][p];
      id in infos && infos[id].inTried
      && b == h.TriedBucket(infos[id].address.service) && p == h.TriedPosition(infos[id].address.service)
  }

  ghost predicate TriedOf(h: Hasher, infos: Infos, t: Table, id: int)
    requires Shape(t, TRIED_BUCKET_COUNT)
  {
    id in infos && infos[id].inTried ==>
      t[h.TriedBucket(infos[id].address.service)][h.TriedPosition(infos[id].address.service)] == id
  }

  /** A tried entry occurs exactly once, at its hashed slot. */
  ghost predicate TriedOk(h: Hasher, infos: Infos, t: Table) {
    && Shape(t, TRIED_BUCKET_COUNT)
    && (forall b, p {:trigger TriedSlotOk(h, infos, t, b, p)} :: TriedSlotOk(h, infos, t, b, p))
    && (forall id {:trigger TriedOf(h, infos, t, id)} :: TriedOf(h, infos, t, id))
  }

  ghost predicate IdOf(infos: Infos, idCount: int, id: int) {
    id in infos ==> 0 <= id < idCount
  }

  ghost predicate IdsOk(infos: Infos, idCount: int) {
    0 <= idCount < INT_MAX && forall id {:trigger IdOf(infos, idCount, id)} :: IdOf(infos, idCount, id)
  }

  ghost predicate LiveOf(infos: Infos, id: int) {
    id in infos && !infos[id].inTried ==> 1 <= infos[id].refCount <= NEW_BUCKETS_PER_ADDRESS
  }

  /** An entry outside the tried table is referenced from 1 to 8 times. */
  ghost predicate LiveOk(infos: Infos) {
    forall id {:trigger LiveOf(infos, id)} :: LiveOf(infos, id)
  }

  ghost predicate TimesOf(infos: Infos, id: int) {
    id in infos ==>
      infos[id].lastTry >= 0 && infos[id].lastSuccess >= 0 && (infos[id].inTried ==> infos[id].lastSuccess != 0)
  }

  ghost predicate TimesOk(infos: Infos) {
    forall id {:trigger TimesOf(infos, id)} :: TimesOf(infos, id)
  }

  ghost function NewIds(infos: Infos): set<int> {
    set id | id in infos && !infos[id].inTried
  }

  ghost function TriedIds(infos: Infos): set<int> {
    set id | id in infos && infos[id].inTried
  }

  /** Every entry is counted once in vRandom and once as new or tried. */
  lemma RandomSize(infos: Infos, random: seq<int>)
    requires RandomOk(infos, random)
    ensures |random| == |infos| == |NewIds(infos)| + |TriedIds(infos)|
  {
    assert infos.Keys == NewIds(infos) + TriedIds(infos);
    forall id ensures id in infos <==> id in random {
      assert RandomOf(infos, random, id);
      if i :| 0 <= i < |random| && random[i] == id {
        assert RandomAt(infos, random, i);
      }
    }
    forall i, j | 0 <= i < j < |random| ensures random[i] != random[j] {
      assert RandomAt(infos, random, i) && RandomAt(infos, random, j);
    }
    DistinctSize(random, infos.Keys);
  }

  lemma {:induction false} DistinctSize(s: seq<int>, ids: set<int>)
    requires forall i, j :: 0 <= i < j < |s| ==> s[i] != s[j]
    requires forall id :: id in ids <==> id in s
    ensures |s| == |ids|
    decreases |s|
  {
    if s != [] {
      var n := |s| - 1;
      var last := s[n];
      assert last in s;
      forall id ensures id in ids - {last} <==> id in s[..n] {}
      DistinctSize(s[..n], ids - {last});
    } else {
      assert ids == {} by {
        forall id ensures id !in ids {
          assert id !in s;
        }
      }
    }
  }

  // ----- Effect of one slot write -----

  /** Writing one new slot adds that bucket to the written id's occurrences and
      takes it from the overwritten id's; every other id keeps its occurrences. */
  lemma PutNewSlots(h: Hasher, t: Table, b: nat, p: nat, id: int, k: int, s: Service)
    requires Shape(t, NEW_BUCKET_COUNT) && b < NEW_BUCKET_COUNT && p < BUCKET_SIZE
    ensures var slots, slots' := NewSlots(h, t, k, s), NewSlots(h, Put(t, b, p, id), k, s);
            slots' == if p != h.Position(true, b, s) then slots
                      else if k == id then slots + {b} else slots - {b}
  {
  }

  // ----- All conditions that hold in the middle of an operation too -----

  datatype Tables = Tables(
    h: Hasher, infos: Infos, addrs: map<NetAddr, int>, random: seq<int>, newT: Table, triedT: Table, idCount: int)

  /** Everything but mapAddr. */
  ghost predicate Slots(s: Tables) {
    && IdsOk(s.infos, s.idCount) && RandomOk(s.infos, s.random)
    && NewOk(s.h, s.infos, s.newT) && RefCountsOk(s.h, s.infos, s.newT) && TriedOk(s.h, s.infos, s.triedT)
  }

  ghost predicate Core(s: Tables) {
    Slots(s) && AddrOk(s.infos, s.addrs)
  }

  /** An id that is not an entry, or an entry with no references, is in no new slot. */
  lemma UnreferencedNowhere(s: Tables, id: int, b: nat, p: nat)
    requires Slots(s) && id != NONE && (id in s.infos ==> s.infos[id].refCount == 0)
    requires b < NEW_BUCKET_COUNT && p < BUCKET_SIZE
    ensures s.newT[b][p] != id
  {
    assert NewSlotOk(s.h, s.infos, s.newT, b, p) && RefCountOf(s.h, s.infos, s.newT, id);
    if id in s.infos {
      assert b !in NewSlots(s.h, s.newT, id, s.infos[id].address.service);
    }
  }

  function Created(s: Tables, info: Info): Tables {
    s.(infos := s.infos[s.idCount := info.(randomPos := |s.random|)], addrs := s.addrs[info.Net() := s.idCount],
       random := s.random + [s.idCount], idCount := s.idCount + 1)
  }

  lemma CreatedKeeps(s: Tables, info: Info)
    requires Slots(s) && info.refCount == 0 && !info.inTried && s.idCount < INT_MAX - 1
    ensures Slots(Created(s, info)) && s.idCount !in s.infos
    ensures Core(s) && info.Net() !in s.addrs ==> Core(Created(s, info))
    ensures NewIds(Created(s, info).infos) == NewIds(s.infos) + {s.idCount}
    ensures TriedIds(Created(s, info).infos) == TriedIds(s.infos)
  {
    var s' := Created(s, info);
    assert IdOf(s.infos, s.idCount, s.idCount);
    CreatedKeepsIndexes(s, info);
    forall b, p ensures NewSlotOk(s.h, s'.infos, s.newT, b, p) {
      assert NewSlotOk(s.h, s.infos, s.newT, b, p);
    }
    forall b, p ensures TriedSlotOk(s.h, s'.infos, s.triedT, b, p) {
      assert TriedSlotOk(s.h, s.infos, s.triedT, b, p);
    }
    forall id ensures TriedOf(s.h, s'.infos, s.triedT, id) {
      assert TriedOf(s.h, s.infos, s.triedT, id);
    }
    assert NewSlots(s.h, s.newT, s.idCount, info.address.service) == {} by {
      forall b | 0 <= b < NEW_BUCKET_COUNT ensures s.newT[b][s.h.Position(true, b, info.address.service)] != s.idCount {
        UnreferencedNowhere(s, s.idCount, b, s.h.Position(true, b, info.address.service));
      }
    }
    forall id ensures RefCountOf(s.h, s'.infos, s.newT, id) {
      assert RefCountOf(s.h, s.infos, s.newT, id);
    }
  }

  lemma CreatedKeepsIndexes(s: Tables, info: Info)
    requires Slots(s) && s.idCount < INT_MAX - 1
    ensures var s' := Created(s, info);
            && IdsOk(s'.infos, s'.idCount) && RandomOk(s'.infos, s'.random)
            && (AddrOk(s.infos, s.addrs) && info.Net() !in s.addrs ==> AddrOk(s'.infos, s'.addrs))
  {
    var s' := Created(s, info);
    assert IdOf(s.infos, s.idCount, s.idCount);
    forall id ensures IdOf(s'.infos, s'.idCount, id) && RandomOf(s'.infos, s'.random, id) {
      assert IdOf(s.infos, s.idCount, id) && RandomOf(s.infos, s.random, id);
    }
    forall i ensures RandomAt(s'.infos, s'.random, i) {
      assert RandomAt(s.infos, s.random, i);
    }
    if AddrOk(s.infos, s.addrs) && info.Net() !in s.addrs {
      forall id ensures AddrOf(s'.infos, s'.addrs, id) {
        assert AddrOf(s.infos, s.addrs, id);
      }
      forall a ensures AddrAt(s'.infos, s'.addrs, a) {
        assert AddrAt(s.infos, s.addrs, a);
      }
    }
  }

  // ----- Entries that differ only in their place in vRandom -----

  predicate SameButPos(a: Info, b: Info) {
    a.(randomPos := b.randomPos) == b
  }

  ghost predicate SameOf(a: Infos, b: Infos, id: int) {
    (id in a <==> id in b) && (id in a ==> SameButPos(a[id], b[id]))
  }

  ghost predicate SameInfos(a: Infos, b: Infos) {
    forall id {:trigger SameOf(a, b, id)} :: SameOf(a, b, id)
  }

  /** No other condition than RandomOk looks at the places. */
  lemma SameInfosKeep(s: Tables, infos': Infos)
    requires Slots(s) && SameInfos(s.infos, infos')
    ensures IdsOk(infos', s.idCount) && (AddrOk(s.infos, s.addrs) ==> AddrOk(infos', s.addrs))
    ensures NewOk(s.h, infos', s.newT) && RefCountsOk(s.h, infos', s.newT) && TriedOk(s.h, infos', s.triedT)
    ensures NewIds(infos') == NewIds(s.infos) && TriedIds(infos') == TriedIds(s.infos)
  {
    forall id ensures SameOf(s.infos, infos', id) && IdOf(infos', s.idCount, id) {
      assert IdOf(s.infos, s.idCount, id);
    }
    forall id ensures RefCountOf(s.h, infos', s.newT, id) && TriedOf(s.h, infos', s.triedT, id) {
      assert SameOf(s.infos, infos', id) && RefCountOf(s.h, s.infos, s.newT, id) && TriedOf(s.h, s.infos, s.triedT, id);
    }
    if AddrOk(s.infos, s.addrs) {
      SameInfosKeepAddrs(s.infos, infos', s.addrs);
    }
    forall b, p ensures NewSlotOk(s.h, infos', s.newT, b, p) {
      assert NewSlotOk(s.h, s.infos, s.newT, b, p);
      assert 0 <= b < NEW_BUCKET_COUNT && 0 <= p < BUCKET_SIZE ==> SameOf(s.infos, infos', s.newT[b][p]);
    }
    forall b, p ensures TriedSlotOk(s.h, infos', s.triedT, b, p) {
      assert TriedSlotOk(s.h, s.infos, s.triedT, b, p);
      assert 0 <= b < TRIED_BUCKET_COUNT && 0 <= p < BUCKET_SIZE ==> SameOf(s.infos, infos', s.triedT[b][p]);
    }
    SameIds(s.infos, infos');
  }

  lemma SameInfosKeepAddrs(infos: Infos, infos': Infos, addrs: map<NetAddr, int>)
    requires AddrOk(infos, addrs) && SameInfos(infos, infos')
    ensures AddrOk(infos', addrs)
  {
    forall id ensures AddrOf(infos', addrs, id) {
      assert AddrOf(infos, addrs, id) && SameOf(infos, infos', id);
    }
    forall a ensures AddrAt(infos', addrs, a) {
      assert AddrAt(infos, addrs, a) && (a in addrs ==> SameOf(infos, infos', addrs[a]));
    }
  }

  lemma SameIds(a: Infos, b: Infos)
    requires SameInfos(a, b)
    ensures NewIds(a) == NewIds(b) && TriedIds(a) == TriedIds(b)
  {
    forall id ensures id in NewIds(a) <==> id in NewIds(b) {
      assert SameOf(a, b, id);
    }
    forall id ensures id in TriedIds(a) <==> id in TriedIds(b) {
      assert SameOf(a, b, id);
    }
  }

  function Swapped(s: Tables, i: nat, j: nat): Tables
    requires i < |s.random| && j < |s.random| && s.random[i] in s.infos && s.random[j] in s.infos
  {
    var a, b := s.random[i], s.random[j];
    s.(infos := s.infos[a := s.infos[a].(randomPos := j)][b := s.infos[b].(randomPos := i)],
       random := s.random[i := b][j := a])
  }

  lemma SwappedKeeps(s: Tables, i: nat, j: nat)
    requires Slots(s) && i < |s.random| && j < |s.random| && i != j
    ensures s.random[i] in s.infos && s.random[j] in s.infos
    ensures Slots(Swapped(s, i, j)) && SameInfos(s.infos, Swapped(s, i, j).infos)
    ensures Core(s) ==> Core(Swapped(s, i, j))
  {
    assert RandomAt(s.infos, s.random, i) && RandomAt(s.infos, s.random, j);
    var s' := Swapped(s, i, j);
    assert SameInfos(s.infos, s'.infos) by {
      forall id ensures SameOf(s.infos, s'.infos, id) {}
    }
    SameInfosKeep(s, s'.infos);
    forall k ensures RandomAt(s'.infos, s'.random, k) {
      assert RandomAt(s.infos, s.random, k);
    }
    forall id ensures RandomOf(s'.infos, s'.random, id) {
      assert RandomOf(s.infos, s.random, id);
    }
  }

  // ----- Deleting -----

  function Dropped(s: Tables, id: int): Tables
    requires id in s.infos && |s.random| > 0
  {
    s.(infos := s.infos - {id}, addrs := s.addrs - {s.infos[id].Net()}, random := s.random[..|s.random| - 1])
  }

  /** Dropping the last entry of vRandom, unreferenced and untried, from every table. */
  lemma DroppedKeeps(s: Tables, id: int)
    requires Slots(s) && id in s.infos && !s.infos[id].inTried && s.infos[id].refCount == 0
    requires s.infos[id].randomPos == |s.random| - 1
    ensures |s.random| > 0 && Slots(Dropped(s, id)) && (Core(s) ==> Core(Dropped(s, id)))
    ensures NewIds(s.infos - {id}) == NewIds(s.infos) - {id} && TriedIds(s.infos - {id}) == TriedIds(s.infos)
  {
    assert RandomOf(s.infos, s.random, id) && IdOf(s.infos, s.idCount, id);
    var s' := Dropped(s, id);
    DroppedKeepsIndexes(s, id);
    forall b, p ensures NewSlotOk(s.h, s'.infos, s.newT, b, p) {
      assert NewSlotOk(s.h, s.infos, s.newT, b, p);
      if 0 <= b < NEW_BUCKET_COUNT && 0 <= p < BUCKET_SIZE {
        UnreferencedNowhere(s, id, b, p);
      }
    }
    forall b, p ensures TriedSlotOk(s.h, s'.infos, s.triedT, b, p) {
      assert TriedSlotOk(s.h, s.infos, s.triedT, b, p);
    }
    forall k ensures TriedOf(s.h, s'.infos, s.triedT, k) && RefCountOf(s.h, s'.infos, s.newT, k) {
      assert TriedOf(s.h, s.infos, s.triedT, k) && RefCountOf(s.h, s.infos, s.newT, k);
    }
  }

  lemma DroppedKeepsIndexes(s: Tables, id: int)
    requires Slots(s) && id in s.infos && s.infos[id].randomPos == |s.random| - 1 >= 0
    ensures var s' := Dropped(s, id);
            && IdsOk(s'.infos, s'.idCount) && RandomOk(s'.infos, s'.random)
            && (AddrOk(s.infos, s.addrs) ==> AddrOk(s'.infos, s'.addrs))
  {
    var s' := Dropped(s, id);
    assert RandomOf(s.infos, s.random, id);
    forall k ensures IdOf(s'.infos, s'.idCount, k) && RandomOf(s'.infos, s'.random, k) {
      assert IdOf(s.infos, s.idCount, k) && RandomOf(s.infos, s.random, k);
    }
    forall i ensures RandomAt(s'.infos, s'.random, i) {
      assert RandomAt(s.infos, s.random, i);
    }
    if AddrOk(s.infos, s.addrs) {
      forall k ensures AddrOf(s'.infos, s'.addrs, k) {
        assert AddrOf(s.infos, s.addrs, k) && AddrOf(s.infos, s.addrs, id);
      }
      forall a ensures AddrAt(s'.infos, s'.addrs, a) {
        assert AddrAt(s.infos, s.addrs, a) && AddrOf(s.infos, s.addrs, id);
      }
    }
  }

  // ----- Moving in and out of the new table -----

  /** Changing one entry's reference count moves it nowhere. */
  function WithRefCount(infos: Infos, id: int, n: int): Infos
    requires id in infos
  {
    infos[id := infos[id].(refCount := n)]
  }

  function SlotCleared(s: Tables, b: nat, p: nat): Tables
    requires b < |s.newT| && p < |s.newT[b]| && s.newT[b][p] in s.infos
  {
    var id := s.newT[b][p];
    s.(infos := WithRefCount(s.infos, id, s.infos[id].refCount - 1), newT := Put(s.newT, b, p, NONE))
  }

  /** Taking an entry out of one new slot lowers its reference count by one. */
  lemma SlotClearedKeeps(s: Tables, b: nat, p: nat)
    requires Slots(s) && b < NEW_BUCKET_COUNT && p < BUCKET_SIZE && s.newT[b][p] != NONE
    ensures var id := s.newT[b][p];
            && id in s.infos && !s.infos[id].inTried && s.infos[id].refCount > 0
            && p == s.h.Position(true, b, s.infos[id].address.service)
    ensures Slots(SlotCleared(s, b, p)) && (Core(s) ==> Core(SlotCleared(s, b, p)))
    ensures NewIds(SlotCleared(s, b, p).infos) == NewIds(s.infos)
        && TriedIds(SlotCleared(s, b, p).infos) == TriedIds(s.infos)
  {
    var id := s.newT[b][p];
    assert NewSlotOk(s.h, s.infos, s.newT, b, p) && RefCountOf(s.h, s.infos, s.newT, id);
    assert b in NewSlots(s.h, s.newT, id, s.infos[id].address.service);
    SlotWriteKeeps(s, id, -1, b, p, NONE);
  }

  function SlotFilled(s: Tables, b: nat, id: int): Tables
    requires Shape(s.newT, NEW_BUCKET_COUNT) && b < NEW_BUCKET_COUNT && id in s.infos
  {
    s.(infos := WithRefCount(s.infos, id, s.infos[id].refCount + 1),
       newT := Put(s.newT, b, s.h.Position(true, b, s.infos[id].address.service), id))
  }

  /** Putting an untried entry into an empty new slot raises its reference count by one. */
  lemma SlotFilledKeeps(s: Tables, b: nat, id: int)
    requires Slots(s) && b < NEW_BUCKET_COUNT && id in s.infos && !s.infos[id].inTried
    requires s.newT[b][s.h.Position(true, b, s.infos[id].address.service)] == NONE
    ensures Slots(SlotFilled(s, b, id)) && (Core(s) ==> Core(SlotFilled(s, b, id)))
    ensures NewIds(SlotFilled(s, b, id).infos) == NewIds(s.infos)
        && TriedIds(SlotFilled(s, b, id).infos) == TriedIds(s.infos)
  {
    assert IdOf(s.infos, s.idCount, id);
    SlotWriteKeeps(s, id, 1, b, s.h.Position(true, b, s.infos[id].address.service), id);
  }

  /** Common part: one slot goes between `id` and empty, and the reference count follows. */
  lemma SlotWriteKeeps(s: Tables, id: int, delta: int, b: nat, p: nat, x: int)
    requires Slots(s) && b < NEW_BUCKET_COUNT && p < BUCKET_SIZE && id in s.infos && id != NONE && !s.infos[id].inTried
    requires p == s.h.Position(true, b, s.infos[id].address.service)
    requires (delta, s.newT[b][p], x) == (1, NONE, id) || (delta, s.newT[b][p], x) == (-1, id, NONE)
    ensures var infos' := WithRefCount(s.infos, id, s.infos[id].refCount + delta);
            && Slots(s.(infos := infos', newT := Put(s.newT, b, p, x)))
            && (AddrOk(s.infos, s.addrs) ==> AddrOk(infos', s.addrs))
            && NewIds(infos') == NewIds(s.infos) && TriedIds(infos') == TriedIds(s.infos)
  {
    var infos' := WithRefCount(s.infos, id, s.infos[id].refCount + delta);
    var t' := Put(s.newT, b, p, x);
    PlacesKeep(s, infos');
    forall c, q ensures NewSlotOk(s.h, infos', t', c, q) {
      assert NewSlotOk(s.h, s.infos, s.newT, c, q);
    }
    forall k ensures RefCountOf(s.h, infos', t', k) {
      assert RefCountOf(s.h, s.infos, s.newT, k) && IdOf(s.infos, s.idCount, k);
      if k in s.infos {
        PutNewSlots(s.h, s.newT, b, p, x, k, s.infos[k].address.service);
      }
    }
  }

  ghost predicate PlaceOf(a: Infos, b: Infos, id: int) {
    && (id in a <==> id in b)
    && (id in a ==> a[id].address.service == b[id].address.service)
    && (id in a ==> a[id].inTried == b[id].inTried && a[id].randomPos == b[id].randomPos)
  }

  /** Same entries, at the same addresses and places, tried or untried as before. */
  lemma PlacesKeep(s: Tables, infos': Infos)
    requires Slots(s) && forall id {:trigger PlaceOf(s.infos, infos', id)} :: PlaceOf(s.infos, infos', id)
    ensures IdsOk(infos', s.idCount) && RandomOk(infos', s.random)
        && (AddrOk(s.infos, s.addrs) ==> AddrOk(infos', s.addrs))
    ensures NewOk(s.h, infos', s.newT) && TriedOk(s.h, infos', s.triedT)
    ensures NewIds(infos') == NewIds(s.infos) && TriedIds(infos') == TriedIds(s.infos)
  {
    forall id ensures PlaceOf(s.infos, infos', id) && IdOf(infos', s.idCount, id) && RandomOf(infos', s.random, id) {
      assert IdOf(s.infos, s.idCount, id) && RandomOf(s.infos, s.random, id);
    }
    forall i ensures RandomAt(infos', s.random, i) {
      assert RandomAt(s.infos, s.random, i) && (0 <= i < |s.random| ==> PlaceOf(s.infos, infos', s.random[i]));
    }
    if AddrOk(s.infos, s.addrs) {
      PlacesKeepAddrs(s.infos, infos', s.addrs);
    }
    PlacesKeepSlots(s, infos');
    forall id ensures (id in NewIds(infos') <==> id in NewIds(s.infos))
      && (id in TriedIds(infos') <==> id in TriedIds(s.infos)) {
      assert PlaceOf(s.infos, infos', id);
    }
  }

  lemma PlacesKeepAddrs(infos: Infos, infos': Infos, addrs: map<NetAddr, int>)
    requires AddrOk(infos, addrs) && forall id {:trigger PlaceOf(infos, infos', id)} :: PlaceOf(infos, infos', id)
    ensures AddrOk(infos', addrs)
  {
    forall id ensures AddrOf(infos', addrs, id) {
      assert AddrOf(infos, addrs, id) && PlaceOf(infos, infos', id);
    }
    forall a ensures AddrAt(infos', addrs, a) {
      assert AddrAt(infos, addrs, a) && (a in addrs ==> PlaceOf(infos, infos', addrs[a]));
    }
  }

  lemma PlacesKeepSlots(s: Tables, infos': Infos)
    requires Slots(s) && forall id {:trigger PlaceOf(s.infos, infos', id)} :: PlaceOf(s.infos, infos', id)
    ensures NewOk(s.h, infos', s.newT) && TriedOk(s.h, infos', s.triedT)
  {
    forall b, p ensures NewSlotOk(s.h, infos', s.newT, b, p) {
      assert NewSlotOk(s.h, s.infos, s.newT, b, p);
      assert 0 <= b < NEW_BUCKET_COUNT && 0 <= p < BUCKET_SIZE ==> PlaceOf(s.infos, infos', s.newT[b][p]);
    }
    forall b, p ensures TriedSlotOk(s.h, infos', s.triedT, b, p) {
      assert TriedSlotOk(s.h, s.infos, s.triedT, b, p);
      assert 0 <= b < TRIED_BUCKET_COUNT && 0 <= p < BUCKET_SIZE ==> PlaceOf(s.infos, infos', s.triedT[b][p]);
    }
    forall id ensures TriedOf(s.h, infos', s.triedT, id) {
      assert PlaceOf(s.infos, infos', id) && TriedOf(s.h, s.infos, s.triedT, id);
    }
  }

  predicate SameStanding(a: Info, b: Info) {
    a.address.service == b.address.service && a.source == b.source && a.refCount == b.refCount
    && a.inTried == b.inTried && a.randomPos == b.randomPos
  }

  /** Rewriting the statistics of one entry touches no table. */
  lemma StatsKeep(s: Tables, id: int, info: Info)
    requires Slots(s) && id in s.infos && SameStanding(s.infos[id], info)
    ensures Slots(s.(infos := s.infos[id := info])) && (Core(s) ==> Core(s.(infos := s.infos[id := info])))
    ensures NewIds(s.infos[id := info]) == NewIds(s.infos) && TriedIds(s.infos[id := info]) == TriedIds(s.infos)
  {
    var infos' := s.infos[id := info];
    PlacesKeep(s, infos');
    forall k ensures RefCountOf(s.h, infos', s.newT, k) {
      assert RefCountOf(s.h, s.infos, s.newT, k);
    }
  }

  // ----- Moving in and out of the tried table -----

  function TriedMoved(s: Tables, id: int, tried: bool): Tables
    requires id in s.infos && Shape(s.triedT, TRIED_BUCKET_COUNT)
  {
    var svc := s.infos[id].address.service;
    s.(infos := s.infos[id := s.infos[id].(inTried := tried)],
       triedT := Put(s.triedT, s.h.TriedBucket(svc), s.h.TriedPosition(svc), if tried then id else NONE))
  }

  /** Moving an unreferenced untried entry into its empty tried slot, or back out of it. */
  lemma TriedMovedKeeps(s: Tables, id: int, tried: bool)
    requires Slots(s) && id in s.infos && s.infos[id].refCount == 0 && s.infos[id].inTried != tried
    requires var svc := s.infos[id].address.service;
             tried ==> s.triedT[s.h.TriedBucket(svc)][s.h.TriedPosition(svc)] == NONE
    ensures Slots(TriedMoved(s, id, tried)) && (Core(s) ==> Core(TriedMoved(s, id, tried)))
    ensures var infos' := TriedMoved(s, id, tried).infos;
            && NewIds(infos') == (if tried then NewIds(s.infos) - {id} else NewIds(s.infos) + {id})
            && TriedIds(infos') == (if tried then TriedIds(s.infos) + {id} else TriedIds(s.infos) - {id})
  {
    var s' := TriedMoved(s, id, tried);
    assert IdOf(s.infos, s.idCount, id);
    forall b, p ensures NewSlotOk(s.h, s'.infos, s.newT, b, p) {
      assert NewSlotOk(s.h, s.infos, s.newT, b, p);
      if 0 <= b < NEW_BUCKET_COUNT && 0 <= p < BUCKET_SIZE {
        UnreferencedNowhere(s, id, b, p);
      }
    }
    TriedMovedKeepsTried(s, id, tried);
    TriedMovedKeepsIndexes(s, id, tried);
  }

  lemma TriedMovedKeepsTried(s: Tables, id: int, tried: bool)
    requires Slots(s) && id in s.infos && s.infos[id].inTried != tried && id != NONE
    requires var svc := s.infos[id].address.service;
             tried ==> s.triedT[s.h.TriedBucket(svc)][s.h.TriedPosition(svc)] == NONE
    ensures var s' := TriedMoved(s, id, tried); TriedOk(s'.h, s'.infos, s'.triedT)
  {
    var s' := TriedMoved(s, id, tried);
    assert TriedOf(s.h, s.infos, s.triedT, id);
    forall c, q ensures TriedSlotOk(s.h, s'.infos, s'.triedT, c, q) {
      assert TriedSlotOk(s.h, s.infos, s.triedT, c, q);
    }
    forall k ensures TriedOf(s.h, s'.infos, s'.triedT, k) {
      assert TriedOf(s.h, s.infos, s.triedT, k) && IdOf(s.infos, s.idCount, k);
    }
  }

  lemma TriedMovedKeepsIndexes(s: Tables, id: int, tried: bool)
    requires Slots(s) && id in s.infos
    ensures var s' := TriedMoved(s, id, tried);
            && IdsOk(s'.infos, s'.idCount) && RandomOk(s'.infos, s'.random) && RefCountsOk(s.h, s'.infos, s.newT)
            && (AddrOk(s.infos, s.addrs) ==> AddrOk(s'.infos, s'.addrs))
  {
    var s' := TriedMoved(s, id, tried);
    forall k ensures IdOf(s'.infos, s'.idCount, k) && RandomOf(s'.infos, s'.random, k) {
      assert IdOf(s.infos, s.idCount, k) && RandomOf(s.infos, s.random, k);
    }
    forall k ensures RefCountOf(s.h, s'.infos, s.newT, k) {
      assert RefCountOf(s.h, s.infos, s.newT, k);
    }
    forall i ensures RandomAt(s'.infos, s'.random, i) {
      assert RandomAt(s.infos, s.random, i);
    }
    if AddrOk(s.infos, s.addrs) {
      forall k ensures AddrOf(s'.infos, s'.addrs, k) {
        assert AddrOf(s.infos, s.addrs, k);
      }
      forall a ensures AddrAt(s'.infos, s'.addrs, a) {
        assert AddrAt(s.infos, s.addrs, a);
      }
    }
  }

  lemma TriedUnreferenced(s: Tables, id: int)
    requires Slots(s) && id in s.infos && s.infos[id].inTried
    ensures s.infos[id].refCount == 0
  {
    var service := s.infos[id].address.service;
    assert RefCountOf(s.h, s.infos, s.newT, id) && IdOf(s.infos, s.idCount, id);
    forall b | 0 <= b < NEW_BUCKET_COUNT ensures s.newT[b][s.h.Position(true, b, service)] != id {
      assert NewSlotOk(s.h, s.infos, s.newT, b, s.h.Position(true, b, service));
    }
    assert NewSlots(s.h, s.newT, id, service) == {};
  }
}
