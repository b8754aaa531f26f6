/** `Check_` of src/addrman.cpp, proved to accept exactly the consistent address managers. */
module AddrCheck {
  import opened AddrTables
  import opened AddrMan

  // ----- Entries -----

  /** What mapAddr[a] reads: an item that is missing is put there as 0. */
  function ReadAt(addrs: map<NetAddr, int>, a: NetAddr): int {
    if a in addrs then addrs[a] else 0
  }

  ghost predicate EntryOk(infos: Infos, addrs: map<NetAddr, int>, random: seq<int>, id: int) {
    id in infos ==>
      && (infos[id].inTried ==> infos[id].refCount == 0)
      && LiveOf(infos, id) && TimesOf(infos, id) && RandomOf(infos, random, id)
      && ReadAt(addrs, infos[id].Net()) == id
  }

  ghost predicate EntriesOk(infos: Infos, addrs: map<NetAddr, int>, random: seq<int>) {
    forall id {:trigger EntryOk(infos, addrs, random, id)} :: EntryOk(infos, addrs, random, id)
  }

  /** The tests on one entry, in the order of Check_. */
  function EntryCode(infos: Infos, addrs: map<NetAddr, int>, random: seq<int>, id: int): int
    requires id in infos
  {
    var info := infos[id];
    if info.inTried && info.lastSuccess == 0 then -1
    else if info.inTried && info.refCount != 0 then -2
    else if !info.inTried && (info.refCount < 0 || info.refCount > NEW_BUCKETS_PER_ADDRESS) then -3
    else if !info.inTried && info.refCount == 0 then -4
    else if ReadAt(addrs, info.Net()) != id then -5
    else if info.randomPos < 0 || info.randomPos >= |random| || random[info.randomPos] != id then -14
    else if info.lastTry < 0 then -6
    else if info.lastSuccess < 0 then -8
    else 0
  }

  /** Reading mapAddr has only added items, all of them 0. */
  ghost predicate ReadOnlyAt(was: map<NetAddr, int>, addrs: map<NetAddr, int>, a: NetAddr) {
    ReadAt(was, a) == ReadAt(addrs, a) && (a in was ==> a in addrs)
  }

  ghost predicate OnlyRead(was: map<NetAddr, int>, addrs: map<NetAddr, int>) {
    forall a {:trigger ReadOnlyAt(was, addrs, a)} :: ReadOnlyAt(was, addrs, a)
  }

  /** First loop: every entry passes iff the entries are consistent; the two worklists then hold
      the tried ids and the reference counts of the others, and mapAddr has an item for each entry. */
  method CheckEntries(infos: Infos, was: map<NetAddr, int>, random: seq<int>, idCount: int)
    returns (code: int, setTried: set<int>, mapNew: map<int, int>, addrs: map<NetAddr, int>)
    requires IdsOk(infos, idCount)
    ensures code == 0 <==> EntriesOk(infos, was, random)
    ensures code == 0 ==> setTried == TriedIds(infos) && mapNew.Keys == NewIds(infos)
    ensures code == 0 ==> forall id :: id in mapNew ==> mapNew[id] == infos[id].refCount
    ensures OnlyRead(was, addrs) && (code == 0 ==> forall id :: id in infos ==> infos[id].Net() in addrs)
    ensures (forall id :: id in infos ==> infos[id].Net() in was) ==> addrs == was
  {
    code, setTried, mapNew, addrs := 0, {}, map[], was;
    for n := 0 to idCount
      invariant code == 0 && OnlyRead(was, addrs)
      invariant forall id {:trigger Passed(infos, was, random, addrs, setTried, mapNew, n, id)} ::
                  Passed(infos, was, random, addrs, setTried, mapNew, n, id)
      invariant (forall id :: id in infos ==> infos[id].Net() in was) ==> addrs == was
    {
      ghost var tried0, new0, addrs0, next := setTried, mapNew, addrs, n + 1;
      if n in infos {
        code, addrs := CheckEntry(infos, addrs, random, n, was);
        if code != 0 {
          return;
        }
        if infos[n].inTried {
          setTried := setTried + {n};
        } else {
          mapNew := mapNew[n := infos[n].refCount];
        }
      }
      forall id ensures Passed(infos, was, random, addrs, setTried, mapNew, next, id) {
        assert Passed(infos, was, random, addrs0, tried0, new0, n, id);
      }
    }
    forall id ensures EntryOk(infos, was, random, id) {
      assert IdOf(infos, idCount, id) && Passed(infos, was, random, addrs, setTried, mapNew, idCount, id);
    }
    forall id | id in infos ensures infos[id].Net() in addrs {
      assert IdOf(infos, idCount, id) && Passed(infos, was, random, addrs, setTried, mapNew, idCount, id);
    }
    forall id ensures id in setTried <==> id in TriedIds(infos) {
      assert IdOf(infos, idCount, id) && Passed(infos, was, random, addrs, setTried, mapNew, idCount, id);
    }
    forall id ensures (id in mapNew.Keys <==> id in NewIds(infos))
      && (id in mapNew ==> mapNew[id] == infos[id].refCount) {
      assert IdOf(infos, idCount, id) && Passed(infos, was, random, addrs, setTried, mapNew, idCount, id);
    }
  }

  /** What is known of an id after the first n. */
  ghost predicate Passed(infos: Infos, was: map<NetAddr, int>, random: seq<int>, addrs: map<NetAddr, int>,
      setTried: set<int>,
                         mapNew: map<int, int>, n: int, id: int) {
    && (id in setTried <==> id in infos && infos[id].inTried && 0 <= id < n)
    && (id in mapNew <==> id in infos && !infos[id].inTried && 0 <= id < n)
    && (id in mapNew ==> mapNew[id] == infos[id].refCount)
    && (id in infos && 0 <= id < n ==> EntryOk(infos, was, random, id) && infos[id].Net() in addrs)
  }

  /** The tests on one entry, which read mapAddr unless an earlier one fails. */
  method CheckEntry(infos: Infos, addrs: map<NetAddr, int>, random: seq<int>, n: int, ghost was: map<NetAddr, int>)
    returns (code: int, addrs': map<NetAddr, int>)
    requires n in infos && OnlyRead(was, addrs)
    ensures code == 0 <==> EntryOk(infos, was, random, n)
    ensures OnlyRead(was, addrs') && addrs.Keys <= addrs'.Keys && (code == 0 ==> infos[n].Net() in addrs')
    ensures infos[n].Net() in addrs ==> addrs' == addrs
  {
    assert ReadOnlyAt(was, addrs, infos[n].Net());
    code, addrs' := EntryCode(infos, addrs, random, n), addrs;
    if code == 0 || code == -5 || code == -14 || code == -6 || code == -8 {
      addrs' := ReadThrough(addrs, infos[n].Net(), was);
    }
  }

  /** mapAddr[a], with the item put there if it is missing. */
  method ReadThrough(addrs: map<NetAddr, int>, a: NetAddr, ghost was: map<NetAddr, int>)
      returns (addrs': map<NetAddr, int>)
    requires OnlyRead(was, addrs)
    ensures OnlyRead(was, addrs') && a in addrs' && (a in addrs ==> addrs' == addrs) && addrs.Keys <= addrs'.Keys
  {
    addrs' := if a in addrs then addrs else addrs[a := 0];
    forall b ensures ReadOnlyAt(was, addrs', b) {
      assert ReadOnlyAt(was, addrs, b);
    }
  }

  // ----- Tried table -----

  predicate Before(b: int, p: int, n: int, i: int) {
    b < n || (b == n && p < i)
  }

  /** The tried ids not met before slot (n, i). */
  ghost function TriedLeft(h: Hasher, infos: Infos, t: Table, n: int, i: int): set<int>
    requires Shape(t, TRIED_BUCKET_COUNT)
  {
    set id | id in infos && infos[id].inTried &&
      (var s := infos[id].address.service;
       t[h.TriedBucket(s)][h.TriedPosition(s)] != id || !Before(h.TriedBucket(s), h.TriedPosition(s), n, i))
  }

  lemma TriedLeftStep(h: Hasher, infos: Infos, t: Table, n: nat, i: nat)
    requires Shape(t, TRIED_BUCKET_COUNT) && n < TRIED_BUCKET_COUNT && i < BUCKET_SIZE && TriedSlotOk(h, infos, t, n, i)
    requires NONE !in infos
    ensures TriedLeft(h, infos, t, n, i + 1) == TriedLeft(h, infos, t, n, i) - {t[n][i]}
  {
  }

  lemma TriedLeftAtEnd(h: Hasher, infos: Infos, t: Table)
    requires Shape(t, TRIED_BUCKET_COUNT)
    ensures TriedLeft(h, infos, t, TRIED_BUCKET_COUNT, 0) == {} <==>
            forall id {:trigger TriedOf(h, infos, t, id)} :: TriedOf(h, infos, t, id)
  {
    var left := TriedLeft(h, infos, t, TRIED_BUCKET_COUNT, 0);
    forall id ensures id in left <==> !TriedOf(h, infos, t, id) {}
    if forall id {:trigger TriedOf(h, infos, t, id)} :: TriedOf(h, infos, t, id) {
      forall id ensures id !in left {
        assert TriedOf(h, infos, t, id);
      }
      assert left == {};
    }
  }

  /** Second loop: no slot is out of order and no tried id is left over iff TriedOk holds. */
  method CheckTried(h: Hasher, infos: Infos, t: Table) returns (code: int, setTried: set<int>)
    requires Shape(t, TRIED_BUCKET_COUNT) && NONE !in infos
    ensures code == 0 && setTried == {} <==> TriedOk(h, infos, t)
  {
    code, setTried := 0, set id | id in infos && infos[id].inTried;
    assert setTried == TriedLeft(h, infos, t, 0, 0);
    for n := 0 to TRIED_BUCKET_COUNT
      invariant setTried == TriedLeft(h, infos, t, n, 0)
      invariant forall b, p :: Before(b, p, n, 0) && 0 <= p < BUCKET_SIZE ==> TriedSlotOk(h, infos, t, b, p)
    {
      for i := 0 to BUCKET_SIZE
        invariant setTried == TriedLeft(h, infos, t, n, i)
        invariant forall b, p :: Before(b, p, n, i) && 0 <= p < BUCKET_SIZE ==> TriedSlotOk(h, infos, t, b, p)
      {
        var id := t[n][i];
        if id != NONE {
          assert id !in setTried ==> !TriedSlotOk(h, infos, t, n, i);
          if id !in setTried {
            return -11, setTried;
          }
          var s := infos[id].address.service;
          if h.TriedBucket(s) != n || h.Position(false, n, s) != i {
            assert !TriedSlotOk(h, infos, t, n, i);
            return if h.TriedBucket(s) != n then -17 else -18, setTried;
          }
          setTried := setTried - {id};
        }
        TriedLeftStep(h, infos, t, n, i);
      }
      assert TriedLeft(h, infos, t, n, BUCKET_SIZE) == TriedLeft(h, infos, t, n + 1, 0);
    }
    forall b, p ensures TriedSlotOk(h, infos, t, b, p) {
      assert 0 <= b < TRIED_BUCKET_COUNT && 0 <= p < BUCKET_SIZE ==> Before(b, p, TRIED_BUCKET_COUNT, 0);
    }
    TriedLeftAtEnd(h, infos, t);
  }

  // ----- New table -----

  /** The buckets in which `id` has been met before slot (n, i). */
  ghost function Met(h: Hasher, t: Table, id: int, s: Service, n: int, i: int): set<int>
    requires Shape(t, NEW_BUCKET_COUNT)
  {
    set b | b in NewSlots(h, t, id, s) && Before(b, h.Position(true, b, s), n, i)
  }

  ghost predicate CountOf(h: Hasher, infos: Infos, t: Table, mapNew: map<int, int>, n: int, i: int, id: int)
    requires Shape(t, NEW_BUCKET_COUNT)
  {
    id in infos && !infos[id].inTried ==>
      var met := |Met(h, t, id, infos[id].address.service, n, i)|;
      && met <= infos[id].refCount && (id in mapNew <==> met < infos[id].refCount)
      && (id in mapNew ==> mapNew[id] == infos[id].refCount - met)
  }

  /** The countdown worklist is right for everything met before slot (n, i). */
  ghost predicate CountsOk(h: Hasher, infos: Infos, t: Table, mapNew: map<int, int>, n: int, i: int)
    requires Shape(t, NEW_BUCKET_COUNT)
  {
    && mapNew.Keys <= NewIds(infos)
    && forall id {:trigger CountOf(h, infos, t, mapNew, n, i, id)} :: CountOf(h, infos, t, mapNew, n, i, id)
  }

  lemma MetStep(h: Hasher, t: Table, id: int, s: Service, n: nat, i: nat)
    requires Shape(t, NEW_BUCKET_COUNT) && n < NEW_BUCKET_COUNT && i < BUCKET_SIZE
    ensures Met(h, t, id, s, n, i + 1) ==
            Met(h, t, id, s, n, i) + if t[n][i] == id && h.Position(true, n, s) == i then {n} else {}
    ensures n !in Met(h, t, id, s, n, i) || h.Position(true, n, s) < i
  {
  }

  /** What one slot does to the countdown of one id. */
  lemma CountStep(h: Hasher, infos: Infos, t: Table, mapNew: map<int, int>, n: nat, i: nat, id: int)
    requires Shape(t, NEW_BUCKET_COUNT) && n < NEW_BUCKET_COUNT && i < BUCKET_SIZE && NONE !in infos
    requires CountOf(h, infos, t, mapNew, n, i, id) && NewSlotOk(h, infos, t, n, i)
    ensures t[n][i] == NONE ==> CountOf(h, infos, t, mapNew, n, i + 1, id)
    ensures t[n][i] != NONE && t[n][i] in mapNew ==> CountOf(h, infos, t, Counted(mapNew, t[n][i]), n, i + 1, id)
  {
    if id in infos {
      MetStep(h, t, id, infos[id].address.service, n, i);
    }
  }

  lemma CountsStep(h: Hasher, infos: Infos, t: Table, mapNew: map<int, int>, n: nat, i: nat)
    requires Shape(t, NEW_BUCKET_COUNT) && n < NEW_BUCKET_COUNT && i < BUCKET_SIZE && NONE !in infos
    requires CountsOk(h, infos, t, mapNew, n, i) && NewSlotOk(h, infos, t, n, i)
    ensures t[n][i] == NONE ==> CountsOk(h, infos, t, mapNew, n, i + 1)
    ensures t[n][i] != NONE && t[n][i] in mapNew ==> CountsOk(h, infos, t, Counted(mapNew, t[n][i]), n, i + 1)
  {
    var x, i' := t[n][i], i + 1;
    if x == NONE {
      forall id ensures CountOf(h, infos, t, mapNew, n, i', id) {
        assert CountOf(h, infos, t, mapNew, n, i, id);
        CountStep(h, infos, t, mapNew, n, i, id);
      }
    } else if x in mapNew {
      var counted := Counted(mapNew, x);
      forall id ensures CountOf(h, infos, t, counted, n, i', id) {
        assert CountOf(h, infos, t, mapNew, n, i, id);
        CountStep(h, infos, t, mapNew, n, i, id);
      }
    }
  }

  /** An id met once more than it is referenced. */
  lemma CountedOut(h: Hasher, infos: Infos, t: Table, mapNew: map<int, int>, n: nat, i: nat)
    requires Shape(t, NEW_BUCKET_COUNT) && n < NEW_BUCKET_COUNT && i < BUCKET_SIZE
    requires CountsOk(h, infos, t, mapNew, n, i) && NewSlotOk(h, infos, t, n, i) && t[n][i] != NONE
        && t[n][i] !in mapNew
    ensures !RefCountOf(h, infos, t, t[n][i])
  {
    var x := t[n][i];
    var s := infos[x].address.service;
    assert CountOf(h, infos, t, mapNew, n, i, x);
    MetStep(h, t, x, s, n, i);
    SubsetSize(Met(h, t, x, s, n, i + 1), NewSlots(h, t, x, s));
  }

  lemma {:induction false} SubsetSize(a: set<int>, b: set<int>)
    requires a <= b
    ensures |a| <= |b|
  {
    assert b == a + (b - a);
  }

  /** `if (--mapNew[id] == 0) mapNew.erase(id)`. */
  function Counted(mapNew: map<int, int>, id: int): map<int, int>
    requires id in mapNew
  {
    if mapNew[id] == 1 then mapNew - {id} else mapNew[id := mapNew[id] - 1]
  }

  /** Third loop: no slot is out of order and the countdown ends empty iff the new table
      is in order and every reference count is right. */
  method CheckNew(h: Hasher, infos: Infos, t: Table, mapNew0: map<int, int>) returns (code: int, mapNew: map<int, int>)
    requires Shape(t, NEW_BUCKET_COUNT) && NONE !in infos
    requires mapNew0.Keys == NewIds(infos) && forall id :: id in mapNew0 ==> mapNew0[id] == infos[id].refCount >= 1
    ensures code == 0 && mapNew == map[] <==>
      NewOk(h, infos, t) && forall id :: id in NewIds(infos) ==> RefCountOf(h, infos, t, id)
  {
    code, mapNew := 0, mapNew0;
    forall id ensures CountOf(h, infos, t, mapNew, 0, 0, id) {
      if id in infos {
        assert Met(h, t, id, infos[id].address.service, 0, 0) == {};
        assert !infos[id].inTried ==> id in NewIds(infos);
      }
    }
    for n := 0 to NEW_BUCKET_COUNT
      invariant CountsOk(h, infos, t, mapNew, n, 0)
      invariant forall b, p :: Before(b, p, n, 0) && 0 <= p < BUCKET_SIZE ==> NewSlotOk(h, infos, t, b, p)
    {
      for i := 0 to BUCKET_SIZE
        invariant CountsOk(h, infos, t, mapNew, n, i)
        invariant forall b, p :: Before(b, p, n, i) && 0 <= p < BUCKET_SIZE ==> NewSlotOk(h, infos, t, b, p)
      {
        var id := t[n][i];
        assert id != NONE && (id !in infos || infos[id].inTried) ==> !NewSlotOk(h, infos, t, n, i);
        if NewSlotOk(h, infos, t, n, i) {
          CountsStep(h, infos, t, mapNew, n, i);
        }
        if id != NONE {
          if id !in mapNew {
            if NewSlotOk(h, infos, t, n, i) {
              CountedOut(h, infos, t, mapNew, n, i);
            }
            return -12, mapNew;
          }
          if h.Position(true, n, infos[id].address.service) != i {
            return -19, mapNew;
          }
          mapNew := Counted(mapNew, id);
        }
      }
      NextBucket(h, infos, t, mapNew, n);
    }
    forall b, p ensures NewSlotOk(h, infos, t, b, p) {
      assert 0 <= b < NEW_BUCKET_COUNT && 0 <= p < BUCKET_SIZE ==> Before(b, p, NEW_BUCKET_COUNT, 0);
    }
    CountsEnd(h, infos, t, mapNew);
  }

  lemma NextBucket(h: Hasher, infos: Infos, t: Table, mapNew: map<int, int>, n: nat)
    requires Shape(t, NEW_BUCKET_COUNT) && n < NEW_BUCKET_COUNT && CountsOk(h, infos, t, mapNew, n, BUCKET_SIZE)
    ensures CountsOk(h, infos, t, mapNew, n + 1, 0)
  {
    var n' := n + 1;
    forall id ensures CountOf(h, infos, t, mapNew, n', 0, id) {
      assert CountOf(h, infos, t, mapNew, n, BUCKET_SIZE, id);
      if id in infos {
        var s := infos[id].address.service;
        assert Met(h, t, id, s, n, BUCKET_SIZE) == Met(h, t, id, s, n + 1, 0);
      }
    }
  }

  lemma CountsEnd(h: Hasher, infos: Infos, t: Table, mapNew: map<int, int>)
    requires Shape(t, NEW_BUCKET_COUNT) && CountsOk(h, infos, t, mapNew, NEW_BUCKET_COUNT, 0)
    ensures mapNew == map[] <==> forall id :: id in NewIds(infos) ==> RefCountOf(h, infos, t, id)
  {
    forall id | id in NewIds(infos) ensures RefCountOf(h, infos, t, id) <==> id !in mapNew {
      var s := infos[id].address.service;
      assert CountOf(h, infos, t, mapNew, NEW_BUCKET_COUNT, 0, id);
      assert Met(h, t, id, s, NEW_BUCKET_COUNT, 0) == NewSlots(h, t, id, s);
    }
    if forall id :: id in NewIds(infos) ==> RefCountOf(h, infos, t, id) {
      forall id ensures id !in mapNew.Keys {
        assert CountOf(h, infos, t, mapNew, NEW_BUCKET_COUNT, 0, id);
        assert id in NewIds(infos) ==> RefCountOf(h, infos, t, id);
      }
      assert mapNew.Keys == {};
    }
  }

  // ----- The whole check -----

  /** Ids in range and tables of the right shape, which are not in question. */
  ghost predicate Ranged(s: Tables) {
    IdsOk(s.infos, s.idCount) && Shape(s.newT, NEW_BUCKET_COUNT) && Shape(s.triedT, TRIED_BUCKET_COUNT)
  }

  /** Every item of mapAddr leads to the entry with its address. */
  ghost predicate NothingStale(s: Tables) {
    forall a {:trigger AddrAt(s.infos, s.addrs, a)} :: AddrAt(s.infos, s.addrs, a)
  }

  /** Check_ returns zero if and only if all its conditions hold and the key is not null. It puts a missing item
      of mapAddr there as 0, and does not look for stale ones: so after a zero the manager is consistent if and
      only if there is none. A consistent manager passes unchanged. */
  method Check(m: Manager) returns (code: int)
    requires Ranged(m.Now())
    modifies m`mapAddr
    ensures code == 0 <==> old(Accepted(m.Now(), m.nNew, m.nTried)) && m.hasher.key != 0
    ensures code == 0 ==> TimesOk(m.mapInfo) && (m.Valid() <==> NothingStale(m.Now()))
    ensures old(m.Valid() && TimesOk(m.mapInfo)) && m.hasher.key != 0 ==> code == 0
    ensures old(m.Valid()) ==> m.mapAddr == old(m.mapAddr)
  {
    ghost var s := m.Now();
    assert IdOf(m.mapInfo, m.nIdCount, NONE);
    ConsistentMeans(s, m.nNew, m.nTried);
    if |m.vRandom| != m.nTried + m.nNew {
      return -7;
    }
    var setTried, mapNew, addrs;
    code, setTried, mapNew, addrs := CheckEntries(m.mapInfo, m.mapAddr, m.vRandom, m.nIdCount);
    if m.Valid() {
      forall id | id in m.mapInfo ensures m.mapInfo[id].Net() in m.mapAddr {
        assert AddrOf(m.mapInfo, m.mapAddr, id);
      }
    }
    m.mapAddr := addrs;
    if code != 0 {
      return;
    }
    ReadAccepted(s, addrs, m.nNew, m.nTried);
    ConsistentMeans(m.Now(), m.nNew, m.nTried);
    code := CheckTables(m, setTried, mapNew);
    if code == 0 {
      AcceptedIsConsistent(m.Now(), m.nNew, m.nTried);
    }
  }

  /** The rest of Check_, after the loop over the entries. */
  method CheckTables(m: Manager, setTried: set<int>, mapNew: map<int, int>) returns (code: int)
    requires Ranged(m.Now()) && EntriesOk(m.mapInfo, m.mapAddr, m.vRandom) && |m.vRandom| == m.nTried + m.nNew
    requires setTried == TriedIds(m.mapInfo) && mapNew.Keys == NewIds(m.mapInfo)
    requires forall id :: id in mapNew ==> mapNew[id] == m.mapInfo[id].refCount
    ensures code == 0 <==> Accepted(m.Now(), m.nNew, m.nTried) && m.hasher.key != 0
  {
    assert IdOf(m.mapInfo, m.nIdCount, NONE);
    if |setTried| != m.nTried {
      return -9;
    }
    if |mapNew| != m.nNew {
      return -10;
    }
    assert |mapNew| == |mapNew.Keys|;
    forall id | id in mapNew ensures mapNew[id] >= 1 {
      assert id in NewIds(m.mapInfo) && EntryOk(m.mapInfo, m.mapAddr, m.vRandom, id);
    }
    var left, counts;
    code, left := CheckTried(m.hasher, m.mapInfo, m.vvTried);
    if code != 0 {
      return;
    }
    code, counts := CheckNew(m.hasher, m.mapInfo, m.vvNew, mapNew);
    if code != 0 {
      return;
    }
    if left != {} {
      return -13;
    }
    if counts != map[] {
      return -15;
    }
    if m.hasher.key == 0 {
      return -16;
    }
  }

  /** The conditions as Check_ goes through them. */
  ghost predicate Accepted(s: Tables, nNew: int, nTried: int)
    requires Ranged(s)
  {
    && |s.random| == nTried + nNew && EntriesOk(s.infos, s.addrs, s.random)
    && |TriedIds(s.infos)| == nTried && |NewIds(s.infos)| == nNew
    && TriedOk(s.h, s.infos, s.triedT) && NewOk(s.h, s.infos, s.newT)
    && forall id :: id in NewIds(s.infos) ==> RefCountOf(s.h, s.infos, s.newT, id)
  }

  /** Reading mapAddr makes no difference to the conditions. */
  lemma ReadAccepted(s: Tables, addrs: map<NetAddr, int>, nNew: int, nTried: int)
    requires Ranged(s) && OnlyRead(s.addrs, addrs)
    ensures EntriesOk(s.infos, s.addrs, s.random) <==> EntriesOk(s.infos, addrs, s.random)
    ensures Accepted(s, nNew, nTried) <==> Accepted(s.(addrs := addrs), nNew, nTried)
  {
    forall id ensures EntryOk(s.infos, s.addrs, s.random, id) <==> EntryOk(s.infos, addrs, s.random, id) {
      if id in s.infos {
        assert ReadOnlyAt(s.addrs, addrs, s.infos[id].Net());
      }
    }
  }

  /** The manager is consistent if and only if the conditions hold, mapAddr has an item for each entry, and no
      item is stale. */
  lemma ConsistentMeans(s: Tables, nNew: int, nTried: int)
    requires Ranged(s)
    ensures Core(s) && LiveOk(s.infos) && TimesOk(s.infos) && nNew == |NewIds(s.infos)| && nTried == |TriedIds(s.infos)|
       <==> Accepted(s, nNew, nTried) && NothingStale(s) && forall id :: id in s.infos ==> s.infos[id].Net() in s.addrs
  {
    if Core(s) && LiveOk(s.infos) && TimesOk(s.infos) && nNew == |NewIds(s.infos)| && nTried == |TriedIds(s.infos)| {
      RandomSize(s.infos, s.random);
      forall id ensures EntryOk(s.infos, s.addrs, s.random, id) && RefCountOf(s.h, s.infos, s.newT, id) {
        assert LiveOf(s.infos, id) && TimesOf(s.infos, id) && AddrOf(s.infos, s.addrs, id)
          && RandomOf(s.infos, s.random, id);
        if id in s.infos && s.infos[id].inTried {
          TriedUnreferenced(s, id);
        }
      }
      forall id | id in s.infos ensures s.infos[id].Net() in s.addrs {
        assert AddrOf(s.infos, s.addrs, id);
      }
    }
    if Accepted(s, nNew, nTried) {
      AcceptedIsConsistent(s, nNew, nTried);
      if NothingStale(s) && forall id :: id in s.infos ==> s.infos[id].Net() in s.addrs {
        forall id ensures AddrOf(s.infos, s.addrs, id) {
          assert EntryOk(s.infos, s.addrs, s.random, id);
        }
      }
    }
  }

  lemma AcceptedIsConsistent(s: Tables, nNew: int, nTried: int)
    requires Ranged(s) && Accepted(s, nNew, nTried)
    ensures Slots(s) && LiveOk(s.infos) && TimesOk(s.infos)
  {
    forall id ensures LiveOf(s.infos, id) && TimesOf(s.infos, id) && RandomOf(s.infos, s.random, id) {
      assert EntryOk(s.infos, s.addrs, s.random, id);
    }
    forall id ensures RefCountOf(s.h, s.infos, s.newT, id) {
      assert EntryOk(s.infos, s.addrs, s.random, id) && IdOf(s.infos, s.idCount, id);
      if id in s.infos && s.infos[id].inTried {
        NoNewSlots(s, id);
      } else if id in s.infos {
        assert id in NewIds(s.infos);
      }
    }
    assert s.infos.Keys == NewIds(s.infos) + TriedIds(s.infos);
    PlacesFillRandom(s.infos, s.random);
  }

  lemma NoNewSlots(s: Tables, id: int)
    requires NewOk(s.h, s.infos, s.newT) && id in s.infos && s.infos[id].inTried && id != NONE
    ensures NewSlots(s.h, s.newT, id, s.infos[id].address.service) == {}
  {
    var service := s.infos[id].address.service;
    forall b | 0 <= b < NEW_BUCKET_COUNT ensures s.newT[b][s.h.Position(true, b, service)] != id {
      assert NewSlotOk(s.h, s.infos, s.newT, b, s.h.Position(true, b, service));
    }
  }

  /** As many places as entries, and each entry at its own place: every place is taken. */
  lemma PlacesFillRandom(infos: Infos, random: seq<int>)
    requires |random| == |infos.Keys| && forall id {:trigger RandomOf(infos, random, id)} :: RandomOf(infos, random, id)
    ensures RandomOk(infos, random)
  {
    var elems := set id | id in random;
    forall id | id in infos ensures id in elems {
      assert RandomOf(infos, random, id);
    }
    ElemsSize(random);
    SubsetSize(infos.Keys, elems);
    FullSubset(infos.Keys, elems);
    forall i ensures RandomAt(infos, random, i) {
      if 0 <= i < |random| {
        var id := random[i];
        assert id in elems && RandomOf(infos, random, id);
      }
    }
  }

  /** A sequence has at most as many elements as places, and as many only if they differ. */
  lemma {:induction false} ElemsSize(s: seq<int>)
    ensures var elems := set id | id in s;
            |elems| <= |s| && (|elems| == |s| ==> forall i, j :: 0 <= i < j < |s| ==> s[i] != s[j])
    decreases |s|
  {
    var elems := set id | id in s;
    if s == [] {
      assert elems == {};
    } else {
      var n := |s| - 1;
      var last, front := s[n], s[..n];
      ElemsSize(front);
      var fewer := set id | id in front;
      assert s == front + [last];
      if last in front {
        assert elems == fewer;
      } else {
        assert elems == fewer + {last};
      }
    }
  }

  lemma FullSubset(a: set<int>, b: set<int>)
    requires a <= b && |a| == |b|
    ensures a == b
  {
    assert b == a + (b - a);
  }

  // ----- Whole runs -----

  datatype Op =
    | AddOp(address: Address, source: NetAddr, timePenalty: int, now: int, routable: bool, roll: nat -> nat)
    | GoodOp(service: Service, time: int)
    | AttemptOp(service: Service, countFailure: bool, time: int)
    | ConnectedOp(service: Service, when: nat)
    | SetServicesOp(service: Service, services: set<nat>)
    | GetAddrOp(now: int)

  /** Good_ is only told positive times, and Attempt_ no negative ones. */
  predicate TimesPositive(op: Op) {
    (op.GoodOp? ==> op.time > 0) && (op.AttemptOp? ==> op.time >= 0)
  }

  method Step(m: Manager, op: Op)
    requires m.Valid() && TimesOk(m.mapInfo) && TimesPositive(op)
    modifies m
    ensures m.Valid() && TimesOk(m.mapInfo) && m.hasher == old(m.hasher)
  {
    match op
    case AddOp(address, source, timePenalty, now, routable, roll) =>
      var _, _, _, _ := m.Add(address, source, timePenalty, now, routable, roll);
    case GoodOp(service, time) => var evict, held := m.Good(service, time);
    case AttemptOp(service, countFailure, time) => m.Attempt(service, countFailure, time);
    case ConnectedOp(service, when) => m.Connected(service, when);
    case SetServicesOp(service, services) => m.SetServices(service, services);
    case GetAddrOp(now) =>
      var vAddr, met := m.GetAddr([], now);
  }

  /** In every run from an empty manager, Check_ returns zero before the first operation and
      after each one. */
  method Run(hasher: Hasher, ops: seq<Op>) returns (codes: seq<int>)
    requires hasher.key != 0 && forall op :: op in ops ==> TimesPositive(op)
    ensures |codes| == |ops| + 1 && forall i :: 0 <= i < |codes| ==> codes[i] == 0
  {
    var m := new Manager(hasher);
    var code := Check(m);
    codes := [code];
    for n := 0 to |ops|
      invariant m.Valid() && TimesOk(m.mapInfo) && m.hasher == hasher && fresh(m)
      invariant |codes| == n + 1 && forall i :: 0 <= i < |codes| ==> codes[i] == 0
    {
      Step(m, ops[n]);
      code := Check(m);
      codes := codes + [code];
    }
  }
}
