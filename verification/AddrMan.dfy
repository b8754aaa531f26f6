/** The address manager of src/addrman.cpp.  Random choices are left open, clocks are parameters. */
module AddrMan {
  import opened Bytes
  import opened Integers
  import opened AddrTables

  ghost predicate ClearedOf(a: Infos, held: int, b: Infos, k: int) {
    if k == held && k in a && a[k].refCount == 1 then k !in b
    else
      && (k in a <==> k in b)
      && (k in a ==> SameButPos(if k == held then a[k].(refCount := a[k].refCount - 1) else a[k], b[k]))
  }

  /** How the entries look after one new slot held by `held` has been cleared: `held` loses
      one reference, and is gone if that was its last one. */
  ghost predicate Cleared(a: Infos, held: int, b: Infos) {
    forall k {:trigger ClearedOf(a, held, b, k)} :: ClearedOf(a, held, b, k)
  }

  class Manager {
    var hasher: Hasher
    var nIdCount: int
    var mapInfo: Infos
    var mapAddr: map<NetAddr, int>
    var vRandom: seq<int>
    var nTried: int
    var vvTried: Table
    var nNew: int
    var vvNew: Table
    var nLastGood: int

    ghost function Now(): Tables
      reads this
    {
      Tables(hasher, mapInfo, mapAddr, vRandom, vvNew, vvTried, nIdCount)
    }

    /** Everything Check_ tests except the time stamps and the key. */
    ghost predicate Valid()
      reads this
    {
      Core(Now()) && LiveOk(mapInfo) && nNew == |NewIds(mapInfo)| && nTried == |TriedIds(mapInfo)|
    }

    constructor (hasher: Hasher)
      ensures Valid() && TimesOk(mapInfo) && this.hasher == hasher
      ensures mapInfo == map[] && nLastGood == 1
      ensures vvNew == seq(1024, _ => seq(64, _ => -1)) && vvTried == seq(256, _ => seq(64, _ => -1))
    {
      this.hasher := hasher;
      nIdCount, mapInfo, mapAddr, vRandom := 0, map[], map[], [];
      nTried, vvTried, nNew, vvNew, nLastGood := 0, EmptyTable(TRIED_BUCKET_COUNT), 0, EmptyTable(NEW_BUCKET_COUNT), 1;
      new;
      assert NewIds(mapInfo) == {} && TriedIds(mapInfo) == {};
    }

    method Find(net: NetAddr) returns (id: int)
      requires Core(Now())
      ensures id != NONE ==> id in mapInfo && mapInfo[id].Net() == net && net in mapAddr && mapAddr[net] == id
      ensures id == NONE ==> net !in mapAddr && forall k :: k in mapInfo ==> mapInfo[k].Net() != net
    {
      assert AddrAt(mapInfo, mapAddr, net) && IdOf(mapInfo, nIdCount, NONE);
      id := if net in mapAddr then mapAddr[net] else NONE;
      forall k | k in mapInfo && net !in mapAddr ensures mapInfo[k].Net() != net {
        assert AddrOf(mapInfo, mapAddr, k);
      }
    }

    method Create(address: Address, source: NetAddr) returns (id: int)
      requires Core(Now()) && address.service.net !in mapAddr
      modifies `nIdCount, `mapInfo, `mapAddr, `vRandom
      ensures Core(Now())
      ensures id == NONE <==> old(nIdCount) >= 0x7fff_fffe
      ensures id == NONE ==> Now() == old(Now())
      ensures id != NONE ==>
        && id !in old(mapInfo)
        && mapInfo == old(mapInfo)[id := NewInfo(address, source).(randomPos := |old(vRandom)|)]
        && NewIds(mapInfo) == old(NewIds(mapInfo)) + {id} && TriedIds(mapInfo) == old(TriedIds(mapInfo))
        && id == old(nIdCount) && nIdCount == id + 1 && vRandom == old(vRandom) + [id]
        && mapAddr == old(mapAddr)[address.service.net := id]
    {
      if nIdCount >= INT_MAX - 1 {
        return NONE;
      }
      CreatedKeeps(Now(), NewInfo(address, source));
      id := nIdCount;
      nIdCount := nIdCount + 1;
      mapInfo := mapInfo[id := NewInfo(address, source)];
      mapAddr := mapAddr[address.service.net := id];
      mapInfo := mapInfo[id := mapInfo[id].(randomPos := |vRandom|)];
      vRandom := vRandom + [id];
      assert mapInfo == old(mapInfo)[id := NewInfo(address, source).(randomPos := |old(vRandom)|)];
    }

    method SwapRandom(i: nat, j: nat)
      requires Slots(Now()) && (i != j ==> i < |vRandom| && j < |vRandom|)
      modifies `mapInfo, `vRandom
      ensures Slots(Now()) && (old(Core(Now())) ==> Core(Now())) && SameInfos(old(mapInfo), mapInfo)
      ensures i == j ==> vRandom == old(vRandom)
      ensures i != j ==> vRandom == old(vRandom)[i := old(vRandom)[j]][j := old(vRandom)[i]]
    {
      if i == j {
        return;
      }
      SwappedKeeps(Now(), i, j);
      var id1, id2 := vRandom[i], vRandom[j];
      mapInfo := mapInfo[id1 := mapInfo[id1].(randomPos := j)];
      mapInfo := mapInfo[id2 := mapInfo[id2].(randomPos := i)];
      vRandom := vRandom[i := id2];
      vRandom := vRandom[j := id1];
    }

    method Delete(id: int)
      requires Slots(Now()) && id in mapInfo && !mapInfo[id].inTried && mapInfo[id].refCount == 0
      modifies `mapInfo, `mapAddr, `vRandom, `nNew
      ensures Slots(Now()) && (old(Core(Now())) ==> Core(Now())) && SameInfos(old(mapInfo) - {id}, mapInfo)
      ensures nNew == old(nNew) - 1 && mapAddr == old(mapAddr) - {old(mapInfo)[id].Net()}
      ensures var n, p := |old(vRandom)| - 1, old(mapInfo)[id].randomPos;
              0 <= p <= n && vRandom == old(vRandom)[p := old(vRandom)[n]][..n]
      ensures NewIds(mapInfo) == old(NewIds(mapInfo)) - {id} && TriedIds(mapInfo) == old(TriedIds(mapInfo))
    {
      assert RandomOf(mapInfo, vRandom, id);
      SwapRandom(mapInfo[id].randomPos, |vRandom| - 1);
      SameIds(old(mapInfo), mapInfo);
      assert SameOf(old(mapInfo), mapInfo, id);
      assert RandomOf(mapInfo, vRandom, id) && RandomAt(mapInfo, vRandom, |vRandom| - 1);
      DroppedKeeps(Now(), id);
      ghost var swapped := mapInfo;
      vRandom := vRandom[..|vRandom| - 1];
      mapAddr := mapAddr - {mapInfo[id].Net()};
      mapInfo := mapInfo - {id};
      nNew := nNew - 1;
      forall k ensures SameOf(old(mapInfo) - {id}, mapInfo, k) {
        assert SameOf(old(mapInfo), swapped, k);
      }
    }

    method ClearNew(b: nat, p: nat)
      requires Core(Now()) && b < NEW_BUCKET_COUNT && p < BUCKET_SIZE
      modifies `mapInfo, `mapAddr, `vRandom, `nNew, `vvNew
      ensures Core(Now()) && vvNew == Put(old(vvNew), b, p, NONE)
      ensures Cleared(old(mapInfo), old(vvNew[b][p]), mapInfo)
      ensures nNew - |NewIds(mapInfo)| == old(nNew - |NewIds(mapInfo)|)
      ensures TriedIds(mapInfo) == old(TriedIds(mapInfo))
    {
      ghost var was := mapInfo;
      if vvNew[b][p] != NONE {
        SlotClearedKeeps(Now(), b, p);
        var id := vvNew[b][p];
        mapInfo := mapInfo[id := mapInfo[id].(refCount := mapInfo[id].refCount - 1)];
        vvNew := Put(vvNew, b, p, NONE);
        ghost var mid := mapInfo;
        assert id in NewIds(mapInfo);
        if mapInfo[id].refCount == 0 {
          Delete(id);
          forall k ensures ClearedOf(was, id, mapInfo, k) {
            assert SameOf(mid - {id}, mapInfo, k);
          }
        }
      } else {
        assert IdOf(mapInfo, nIdCount, NONE);
        assert vvNew[b][p := NONE] == vvNew[b];
      }
    }

    /** The first loop of MakeTried: the entry leaves every new bucket. */
    method RemoveFromNew(id: int)
      requires Core(Now()) && id in mapInfo && !mapInfo[id].inTried
      modifies `mapInfo, `vvNew
      ensures Core(Now()) && mapInfo == WithRefCount(old(mapInfo), id, 0) && vvNew == Without(old(vvNew), id)
      ensures NewIds(mapInfo) == old(NewIds(mapInfo)) && TriedIds(mapInfo) == old(TriedIds(mapInfo))
    {
      var service := mapInfo[id].address.service;
      assert IdOf(mapInfo, nIdCount, id);
      ghost var s := Now();
      for bucket := 0 to NEW_BUCKET_COUNT
        invariant Core(Now()) && id in mapInfo
        invariant mapInfo == WithRefCount(old(mapInfo), id, mapInfo[id].refCount)
        invariant NewIds(mapInfo) == old(NewIds(mapInfo)) && TriedIds(mapInfo) == old(TriedIds(mapInfo))
        invariant forall b :: 0 <= b < bucket ==> vvNew[b][hasher.Position(true, b, service)] != id
        invariant forall b {:trigger RowAfter(s.newT, id, bucket, vvNew, b)} :: RowAfter(s.newT, id, bucket, vvNew, b)
      {
        ghost var was := vvNew;
        var pos := hasher.Position(true, bucket, service);
        if vvNew[bucket][pos] == id {
          SlotClearedKeeps(Now(), bucket, pos);
          vvNew := Put(vvNew, bucket, pos, NONE);
          mapInfo := mapInfo[id := mapInfo[id].(refCount := mapInfo[id].refCount - 1)];
        }
        RowCleared(s, id, bucket, pos, was, vvNew);
      }
      forall b | 0 <= b < NEW_BUCKET_COUNT ensures vvNew[b] == Without(old(vvNew), id)[b] {
        assert RowAfter(s.newT, id, NEW_BUCKET_COUNT, vvNew, b);
      }
      assert NewSlots(hasher, vvNew, id, service) == {};
      assert RefCountOf(hasher, mapInfo, vvNew, id);
    }

    /** The holder of a tried slot leaves the tried table. */
    method LeaveTried(kb: nat, kp: nat) returns (id: int)
      requires Core(Now()) && kb < TRIED_BUCKET_COUNT && kp < BUCKET_SIZE && vvTried[kb][kp] != NONE
      modifies `mapInfo, `nTried, `vvTried
      ensures Core(Now()) && vvTried == Put(old(vvTried), kb, kp, NONE)
      ensures id == old(vvTried[kb][kp]) && id in old(mapInfo) && old(mapInfo)[id].inTried
          && old(mapInfo)[id].refCount == 0
      ensures mapInfo == old(mapInfo)[id := old(mapInfo)[id].(inTried := false)]
      ensures NewIds(mapInfo) == old(NewIds(mapInfo)) + {id} && id !in old(NewIds(mapInfo))
      ensures nTried - |TriedIds(mapInfo)| == old(nTried - |TriedIds(mapInfo)|)
    {
      id := vvTried[kb][kp];
      assert TriedSlotOk(hasher, mapInfo, vvTried, kb, kp);
      TriedUnreferenced(Now(), id);
      TriedMovedKeeps(Now(), id, false);
      assert id in TriedIds(mapInfo);
      mapInfo := mapInfo[id := mapInfo[id].(inTried := false)];
      vvTried := Put(vvTried, kb, kp, NONE);
      nTried := nTried - 1;
    }

    /** An untried entry takes one of its new slots, displacing whatever is there. */
    method TakeSlot(id: int, ub: nat)
      requires Core(Now()) && id in mapInfo && !mapInfo[id].inTried && ub < NEW_BUCKET_COUNT
      requires vvNew[ub][hasher.Position(true, ub, mapInfo[id].address.service)] != id
      modifies `mapInfo, `mapAddr, `vRandom, `nNew, `vvNew
      ensures Core(Now())
      ensures vvNew == Put(old(vvNew), ub, hasher.Position(true, ub, old(mapInfo)[id].address.service), id)
      ensures nNew - |NewIds(mapInfo)| == old(nNew - |NewIds(mapInfo)|)
      ensures TriedIds(mapInfo) == old(TriedIds(mapInfo))
      ensures Took(old(mapInfo), id, old(vvNew)[ub][hasher.Position(true, ub, old(mapInfo)[id].address.service)],
          mapInfo)
    {
      var up := hasher.Position(true, ub, mapInfo[id].address.service);
      ghost var held := vvNew[ub][up];
      ClearNew(ub, up);
      assert ClearedOf(old(mapInfo), held, mapInfo, id);
      SlotFilledKeeps(Now(), ub, id);
      ghost var cleared := mapInfo;
      mapInfo := mapInfo[id := mapInfo[id].(refCount := mapInfo[id].refCount + 1)];
      vvNew := Put(vvNew, ub, up, id);
      PutTwice(old(vvNew), ub, up, NONE, id);
      forall k ensures TookOf(old(mapInfo), id, held, mapInfo, k) {
        assert ClearedOf(old(mapInfo), held, cleared, k);
      }
    }

    /** The eviction step of MakeTried, in the presence of an unreferenced entry `id`. */
    method MakeRoom(kb: nat, kp: nat, ghost id: int) returns (ghost held: int)
      requires Core(Now()) && kb < TRIED_BUCKET_COUNT && kp < BUCKET_SIZE
      requires id in mapInfo && !mapInfo[id].inTried && mapInfo[id].refCount == 0
      modifies `mapInfo, `mapAddr, `vRandom, `nNew, `vvNew, `nTried, `vvTried
      ensures Core(Now()) && vvTried == Put(old(vvTried), kb, kp, NONE)
      ensures held == BackHeld(hasher, old(mapInfo), old(vvNew), old(vvTried)[kb][kp])
      ensures vvNew == BackInNew(hasher, old(mapInfo), old(vvNew), old(vvTried)[kb][kp])
      ensures nNew - |NewIds(mapInfo)| == old(nNew - |NewIds(mapInfo)|)
      ensures nTried - |TriedIds(mapInfo)| == old(nTried - |TriedIds(mapInfo)|)
      ensures Evicted(old(mapInfo), id, old(vvTried)[kb][kp], held, mapInfo)
    {
      held := NONE;
      assert IdOf(mapInfo, nIdCount, id) && IdOf(mapInfo, nIdCount, NONE);
      if vvTried[kb][kp] == NONE {
        assert vvTried[kb][kp := NONE] == vvTried[kb];
        return;
      }
      ghost var a := mapInfo;
      var idEvict := LeaveTried(kb, kp);
      ghost var left := mapInfo;
      var es := mapInfo[idEvict].address.service;
      var ub := hasher.NewBucket(es, mapInfo[idEvict].source);
      held := vvNew[ub][hasher.Position(true, ub, es)];
      HolderReferenced(Now(), id, ub, hasher.Position(true, ub, es));
      HolderReferenced(Now(), idEvict, ub, hasher.Position(true, ub, es));
      TakeSlot(idEvict, ub);
      nNew := nNew + 1;
      forall k ensures EvictedOf(a, idEvict, held, mapInfo, k) {
        assert TookOf(left, idEvict, held, mapInfo, k);
      }
    }

    /** The last step of MakeTried: an unreferenced entry takes its empty tried slot. */
    method EnterTried(id: int)
      requires Core(Now()) && id in mapInfo && !mapInfo[id].inTried && mapInfo[id].refCount == 0
      requires var s := mapInfo[id].address.service; vvTried[hasher.TriedBucket(s)][hasher.TriedPosition(s)] == NONE
      modifies `mapInfo, `nTried, `vvTried
      ensures Core(Now()) && mapInfo == old(mapInfo)[id := old(mapInfo)[id].(inTried := true)]
      ensures var s := old(mapInfo)[id].address.service;
              vvTried == Put(old(vvTried), hasher.TriedBucket(s), hasher.TriedPosition(s), id)
      ensures |NewIds(mapInfo)| == |old(NewIds(mapInfo))| - 1
      ensures nTried - |TriedIds(mapInfo)| == old(nTried - |TriedIds(mapInfo)|)
    {
      var service := mapInfo[id].address.service;
      TriedMovedKeeps(Now(), id, true);
      assert id in NewIds(mapInfo) && id !in TriedIds(mapInfo);
      vvTried := Put(vvTried, hasher.TriedBucket(service), hasher.TriedPosition(service), id);
      nTried := nTried + 1;
      mapInfo := mapInfo[id := mapInfo[id].(inTried := true)];
    }

    /** MakeTried: the entry moves to its tried slot; a holder of that slot goes back to the new
        table, where it may displace one untried entry. */
    method MakeTried(id: int) returns (ghost evict: int, ghost held: int)
      requires Valid() && id in mapInfo && !mapInfo[id].inTried
      modifies `mapInfo, `mapAddr, `vRandom, `nNew, `vvNew, `nTried, `vvTried
      ensures Valid() && MadeTried(old(mapInfo), id, evict, held, mapInfo)
      ensures var s := old(mapInfo)[id].address.service;
              evict == old(vvTried)[hasher.TriedBucket(s)][hasher.TriedPosition(s)]
      ensures TablesMoved(hasher, old(mapInfo), old(vvNew), old(vvTried), id, evict, held, vvNew, vvTried)
    {
      RemoveFromNew(id);
      nNew := nNew - 1;
      ghost var a := mapInfo;
      var service := mapInfo[id].address.service;
      var kb := hasher.TriedBucket(service);
      var kp := hasher.Position(false, kb, service);
      evict := vvTried[kb][kp];
      held := MakeRoom(kb, kp, id);
      assert EvictedOf(a, evict, held, mapInfo, id);
      ghost var b := mapInfo;
      EnterTried(id);
      PutTwice(old(vvTried), kb, kp, NONE, id);
      MadeTriedWhat(old(mapInfo), id, evict, held, a, b, mapInfo);
    }

    /** The entry for exactly this address and port is known. */
    ghost predicate Knows(service: Service)
      reads this
    {
      service.net in mapAddr && mapAddr[service.net] in mapInfo
          && mapInfo[mapAddr[service.net]].address.service == service
    }

    /** Rewriting an entry's statistics. */
    method SetInfo(id: int, info: Info)
      requires Core(Now()) && id in mapInfo && SameStanding(mapInfo[id], info)
      modifies `mapInfo
      ensures Core(Now()) && mapInfo == old(mapInfo)[id := info]
      ensures NewIds(mapInfo) == old(NewIds(mapInfo)) && TriedIds(mapInfo) == old(TriedIds(mapInfo))
      ensures old(LiveOk(mapInfo)) ==> LiveOk(mapInfo)
    {
      StatsKeep(Now(), id, info);
      mapInfo := mapInfo[id := info];
      if old(LiveOk(mapInfo)) {
        forall k ensures LiveOf(mapInfo, k) {
          assert LiveOf(old(mapInfo), k);
        }
      }
    }

    /** The search of Good_: some bucket holds the entry, so the "no bucket is found" exit
        is never taken. */
    method FindNewBucket(id: int) returns (bucket: int)
      requires Valid() && id in mapInfo && !mapInfo[id].inTried
      ensures 0 <= bucket < NEW_BUCKET_COUNT
      ensures vvNew[bucket][hasher.Position(true, bucket, mapInfo[id].address.service)] == id
    {
      var service := mapInfo[id].address.service;
      assert RefCountOf(hasher, mapInfo, vvNew, id) && LiveOf(mapInfo, id);
      assert NewSlots(hasher, vvNew, id, service) != {};
      ghost var w :| w in NewSlots(hasher, vvNew, id, service);
      assert vvNew[w][hasher.Position(true, w, service)] == id;
      var nRnd: nat :| nRnd < NEW_BUCKET_COUNT;
      bucket := NONE;
      for n := 0 to NEW_BUCKET_COUNT
        invariant bucket == NONE
        invariant forall b ::
          0 <= b < NEW_BUCKET_COUNT && (if b >= nRnd then b - nRnd else b + NEW_BUCKET_COUNT - nRnd) < n ==>
            vvNew[b][hasher.Position(true, b, service)] != id
      {
        var nB := (n + nRnd) % NEW_BUCKET_COUNT;
        if vvNew[nB][hasher.Position(true, nB, service)] == id {
          bucket := nB;
          break;
        }
      }
    }

    /** Good_: a known entry ends up in the tried table with fresh statistics.  The consistency
        conditions on time stamps survive if and only if the time is positive or the
        address is not known. */
    method Good(service: Service, time: int) returns (ghost evict: int, ghost held: int)
      requires Valid()
      modifies `mapInfo, `mapAddr, `vRandom, `nNew, `vvNew, `nTried, `vvTried, `nLastGood
      ensures Valid() && nLastGood == time
      ensures !old(Knows(service)) ==> Now() == old(Now()) && nNew == old(nNew) && nTried == old(nTried)
      ensures old(Knows(service)) ==>
        && Knows(service) && mapAddr[service.net] == old(mapAddr)[service.net]
        && var info := mapInfo[mapAddr[service.net]];
           info.inTried && info.lastSuccess == info.lastTry == time && info.attempts == 0
      ensures old(Knows(service)) ==>
        var id := mapAddr[service.net];
        var updated := old(mapInfo)[id := old(mapInfo)[id].(lastSuccess := time, lastTry := time, attempts := 0)];
        if old(mapInfo)[id].inTried then mapInfo == updated && vvNew == old(vvNew) && vvTried == old(vvTried)
        else
          && MadeTried(updated, id, evict, held, mapInfo)
          && TablesMoved(hasher, old(mapInfo), old(vvNew), old(vvTried), id, evict, held, vvNew, vvTried)
      ensures old(TimesOk(mapInfo)) ==> (TimesOk(mapInfo) <==> time > 0 || !old(Knows(service)))
    {
      nLastGood := time;
      evict, held := NONE, NONE;
      var id := Find(service.net);
      if id == NONE {
        return;
      }
      assert AddrOf(mapInfo, mapAddr, id);
      if mapInfo[id].address.service != service {
        return;
      }
      SetInfo(id, mapInfo[id].(lastSuccess := time, lastTry := time, attempts := 0));
      ghost var a := mapInfo;
      if !mapInfo[id].inTried {
        var bucket := FindNewBucket(id);
        evict, held := MakeTried(id);
        assert MadeTriedOf(a, id, evict, held, mapInfo, id);
        MadeTriedTimes(a, id, evict, held, mapInfo, time);
      }
      assert AddrOf(mapInfo, mapAddr, id);
      StatsTimes(old(mapInfo), id, time, a);
    }

    /** Where a known or newly created entry is put for one source. */
    method Place(id: int, source: NetAddr, now: int) returns (ghost held: int, ghost inserted: bool)
      requires Core(Now()) && id in mapInfo && !mapInfo[id].inTried && mapInfo[id].refCount < NEW_BUCKETS_PER_ADDRESS
      requires nNew == |NewIds(mapInfo)|
      modifies `mapInfo, `mapAddr, `vRandom, `nNew, `vvNew
      ensures Core(Now()) && nNew == |NewIds(mapInfo)| && TriedIds(mapInfo) == old(TriedIds(mapInfo))
      ensures var s := old(mapInfo)[id].address.service;
              var b := hasher.NewBucket(s, source);
              held == old(vvNew)[b][hasher.Position(true, b, s)]
      ensures inserted <==> held != id && Displaces(old(mapInfo), id, held, now)
      ensures held == id ==> old(mapInfo)[id].refCount > 0
      ensures held in old(mapInfo) ==> !old(mapInfo)[held].inTried
      ensures Placed(old(mapInfo), id, held, inserted, mapInfo)
      ensures var s := old(mapInfo)[id].address.service;
              var b := hasher.NewBucket(s, source);
              vvNew == if inserted then Put(old(vvNew), b, hasher.Position(true, b, s), id) else old(vvNew)
    {
      var service := mapInfo[id].address.service;
      var ub := hasher.NewBucket(service, source);
      var up := hasher.Position(true, ub, service);
      held, inserted := vvNew[ub][up], false;
      assert IdOf(mapInfo, nIdCount, NONE) && IdOf(mapInfo, nIdCount, id);
      assert NewSlotOk(hasher, mapInfo, vvNew, ub, up);
      if held == id {
        UnreferencedHolder(Now(), id, ub, up);
      }
      if vvNew[ub][up] != id {
        var fInsert := vvNew[ub][up] == NONE;
        if !fInsert {
          var existing := mapInfo[vvNew[ub][up]];
          if existing.IsTerrible(now) || (existing.refCount > 1 && mapInfo[id].refCount == 0) {
            fInsert := true;
          }
        }
        inserted := fInsert;
        if fInsert {
          TakeSlot(id, ub);
          forall k ensures PlacedOf(old(mapInfo), id, held, true, mapInfo, k) {
            assert TookOf(old(mapInfo), id, held, mapInfo, k);
          }
        } else if mapInfo[id].refCount == 0 {
          assert id in NewIds(mapInfo);
          Delete(id);
          forall k ensures PlacedOf(old(mapInfo), id, held, false, mapInfo, k) {
            assert SameOf(old(mapInfo) - {id}, mapInfo, k);
          }
        }
      }
    }

    /** The first half of Add_: find and refresh, or create, the entry. */
    method Admit(address: Address, source: NetAddr, timePenalty: int, now: int, roll: nat -> nat)
        returns (id: int, isNew: bool, proceed: bool)
      requires Valid()
      modifies `nIdCount, `mapInfo, `mapAddr, `vRandom, `nNew
      ensures Core(Now()) && nNew == |NewIds(mapInfo)| && nTried == |TriedIds(mapInfo)|
      ensures isNew <==> address.service.net !in old(mapAddr) && old(nIdCount) < 0x7fff_fffe
      ensures Admitted(old(mapInfo), id, isNew, News(address, source, timePenalty, now), mapInfo)
      ensures address.service.net in old(mapAddr) ==> id == old(mapAddr)[address.service.net] && id in old(mapInfo)
      ensures proceed <==> isNew || Gains(old(mapInfo), id, News(address, source, timePenalty, now), roll)
      ensures nIdCount == old(nIdCount) + (if isNew then 1 else 0) && (isNew ==> id == old(nIdCount))
      ensures address.service.net !in old(mapAddr) && !isNew ==> id == NONE
    {
      id := Find(address.service.net);
      isNew, proceed := false, false;
      assert AddrOf(mapInfo, mapAddr, id) && IdOf(mapInfo, nIdCount, NONE);
      var news := News(address, source, timePenalty, now);
      if id != NONE {
        var info := news.Refreshed(mapInfo[id]);
        assert LiveOf(mapInfo, id);
        SetInfo(id, info);
        if address.time == 0 || (info.address.time != 0 && address.time <= info.address.time) {
          return;
        }
        if info.inTried || info.refCount == NEW_BUCKETS_PER_ADDRESS {
          return;
        }
        var nFactor := 1;
        for n := 0 to info.refCount
          invariant nFactor == Pow2(n)
        {
          nFactor := nFactor * 2;
        }
        proceed := nFactor <= 1 || roll(nFactor) == 0;
      } else {
        id := Create(address, source);
        if id == NONE {
          return;
        }
        SetInfo(id, mapInfo[id].(address := address.(time := news.PenalisedTime())));
        nNew := nNew + 1;
        isNew, proceed := true, true;
      }
    }

    /** Add_.  It reports true exactly for a routable address not known before (while ids last),
        even when the new entry is dropped again because its slot is well used; an entry it
        loses is always an untried, terrible one with a single reference.  `roll(n)` is the random
        number drawn below n. */
    method Add(address: Address, source: NetAddr, timePenalty: int, now: int, routable: bool, roll: nat -> nat)
        returns (isNew: bool, ghost id: int, ghost held: int, ghost inserted: bool)
      requires Valid()
      modifies `nIdCount, `mapInfo, `mapAddr, `vRandom, `nNew, `vvNew
      ensures Valid() && (old(TimesOk(mapInfo)) ==> TimesOk(mapInfo))
      ensures isNew <==> routable && address.service.net !in old(mapAddr) && old(nIdCount) < 0x7fff_fffe
      ensures isNew ==>
        var b := hasher.NewBucket(address.service, source);
        var held := old(vvNew)[b][hasher.Position(true, b, address.service)];
        (address.service.net in mapAddr <==>
          held == NONE || (held in old(mapInfo)
              && (old(mapInfo)[held].IsTerrible(now) || old(mapInfo)[held].refCount > 1)))
      ensures OnlyTerribleLost(old(mapInfo), mapInfo, now)
      ensures !routable ==> Now() == old(Now())
      ensures isNew ==> id !in old(mapInfo) && (address.service.net in mapAddr <==> id in mapInfo)
      ensures isNew && id in mapInfo ==>
          SameButPos(News(address, source, timePenalty, now).Entry().(refCount := 1), mapInfo[id])
      ensures routable && address.service.net in old(mapAddr) ==>
        && id == old(mapAddr)[address.service.net] && id in old(mapInfo) && id in mapInfo
        && Heard(News(address, source, timePenalty, now), old(mapInfo)[id], mapInfo[id])
      ensures nIdCount == old(nIdCount) + (if isNew then 1 else 0) && (isNew ==> id == old(nIdCount))
      ensures inserted <==> routable && Inserts(old(mapInfo), id, isNew, held, News(address, source, timePenalty, now),
        roll)
      ensures OthersCleared(old(mapInfo), id, if inserted then held else NONE, mapInfo)
      ensures routable && !isNew && id in old(mapInfo) ==>
        && id in mapInfo
        && var refreshed := News(address, source, timePenalty, now).Refreshed(old(mapInfo)[id]);
           SameButPos(refreshed.(refCount := refreshed.refCount + if inserted then 1 else 0), mapInfo[id])
      ensures isNew || (routable && id in old(mapInfo)) ==>
        var s := if isNew then address.service else old(mapInfo)[id].address.service;
        var b := hasher.NewBucket(s, source);
        var p := hasher.Position(true, b, s);
        held == old(vvNew)[b][p] && vvNew == if inserted then Put(old(vvNew), b, p, id) else old(vvNew)
      ensures !isNew && !(routable && id in old(mapInfo)) ==> vvNew == old(vvNew)
    {
      isNew, id, held, inserted := false, NONE, NONE, false;
      assert IdOf(mapInfo, nIdCount, NONE);
      if !routable {
        return;
      }
      var entry, proceed;
      entry, isNew, proceed := Admit(address, source, timePenalty, now, roll);
      id := entry;
      ghost var a := mapInfo;
      AdmittedKeeps(old(mapInfo), id, isNew, News(address, source, timePenalty, now), a);
      if proceed {
        assert !isNew ==> LiveOf(a, id);
        held, inserted := Place(entry, source, now);
        OthersPlaced(old(mapInfo), a, id, held, inserted, mapInfo);
        InsertsIff(old(mapInfo), a, id, isNew, held, inserted, News(address, source, timePenalty, now), roll);
        PlacedKeeps(a, id, held, inserted, mapInfo, now);
        assert PlacedOf(a, id, held, inserted, mapInfo, id);
        LostOnly(old(mapInfo), id, isNew, held, inserted, mapInfo, News(address, source, timePenalty, now), roll);
        if isNew {
          KnownIfPlaced(old(mapInfo), old(mapAddr), a, id, held, inserted, mapInfo, mapAddr);
        }
      } else if id in a {
        ghost var b := hasher.NewBucket(a[id].address.service, source);
        held := vvNew[b][hasher.Position(true, b, a[id].address.service)];
      }
    }

    method Attempt(service: Service, countFailure: bool, time: int)
      requires Valid()
      modifies `mapInfo
      ensures Valid() && (time >= 0 && old(TimesOk(mapInfo)) ==> TimesOk(mapInfo))
      ensures mapInfo ==
        if !old(Knows(service)) then old(mapInfo)
        else
          var id := mapAddr[service.net];
          var was := old(mapInfo)[id];
          var counts := countFailure && was.lastCountAttempt < nLastGood;
          old(mapInfo)[id := was.(lastTry := time,
                                  lastCountAttempt := if counts then time else was.lastCountAttempt,
                                  attempts := was.attempts + if counts then 1 else 0)]
    {
      var id := Find(service.net);
      if id == NONE || mapInfo[id].address.service != service {
        return;
      }
      var info := mapInfo[id].(lastTry := time);
      if countFailure && info.lastCountAttempt < nLastGood {
        info := info.(lastCountAttempt := time, attempts := info.attempts + 1);
      }
      SetInfo(id, info);
      OtherTimes(old(mapInfo), id, info, mapInfo);
    }

    method Connected(service: Service, time: nat)
      requires Valid()
      modifies `mapInfo
      ensures Valid() && (old(TimesOk(mapInfo)) ==> TimesOk(mapInfo))
      ensures mapInfo ==
        if !old(Knows(service)) then old(mapInfo)
        else
          var id := mapAddr[service.net];
          var seen := old(mapInfo)[id].address;
          if time - seen.time > 20 * 60 then old(mapInfo)[id := old(mapInfo)[id].(address := seen.(time := time))]
            else old(mapInfo)
    {
      var id := Find(service.net);
      if id == NONE || mapInfo[id].address.service != service {
        return;
      }
      if time - mapInfo[id].address.time > 20 * 60 {
        SetInfo(id, mapInfo[id].(address := mapInfo[id].address.(time := time)));
        OtherTimes(old(mapInfo), id, mapInfo[id], mapInfo);
      }
    }

    method SetServices(service: Service, services: set<nat>)
      requires Valid()
      modifies `mapInfo
      ensures Valid() && (old(TimesOk(mapInfo)) ==> TimesOk(mapInfo))
      ensures mapInfo ==
        if !old(Knows(service)) then old(mapInfo)
        else
          var id := mapAddr[service.net];
          old(mapInfo)[id := old(mapInfo)[id].(address := old(mapInfo)[id].address.(services := services))]
    {
      var id := Find(service.net);
      if id == NONE || mapInfo[id].address.service != service {
        return;
      }
      SetInfo(id, mapInfo[id].(address := mapInfo[id].address.(services := services)));
      OtherTimes(old(mapInfo), id, mapInfo[id], mapInfo);
    }

    /** One step of GetAddr_: a random entry not met yet is moved to place `n`. */
    method MeetNext(n: nat) returns (id: int)
      requires Core(Now()) && n < |vRandom|
      modifies `mapInfo, `vRandom
      ensures Core(Now()) && SameInfos(old(mapInfo), mapInfo)
      ensures |vRandom| == |old(vRandom)| && vRandom[..n] == old(vRandom)[..n]
      ensures id == vRandom[n] && id in mapInfo
    {
      var nRndPos: nat :| n <= nRndPos < |vRandom|;
      SwapRandom(n, nRndPos);
      assert RandomAt(mapInfo, vRandom, n);
      id := vRandom[n];
    }

    /** One turn of GetAddr_: the address of the entry met next, unless it is terrible. */
    method GatherNext(vAddr: seq<Address>, n: nat, now: int, ghost given: seq<Address>, ghost a: Infos)
        returns (more: seq<Address>)
      requires Core(Now()) && n < |vRandom| && SameInfos(a, mapInfo) && vAddr == given + Gathered(a, vRandom[..n], now)
      modifies `mapInfo, `vRandom
      ensures Core(Now()) && |vRandom| == |old(vRandom)| && SameInfos(a, mapInfo)
      ensures more == given + Gathered(a, vRandom[..n + 1], now) && |more| <= |vAddr| + 1
    {
      ghost var b, seen := mapInfo, vRandom[..n];
      var id := MeetNext(n);
      SameTrans(a, b, mapInfo);
      assert SameOf(a, mapInfo, id) && vRandom[..n + 1] == seen + [id];
      GatheredAppend(a, seen, id, now);
      more := if mapInfo[id].IsTerrible(now) then vAddr else vAddr + [mapInfo[id].address];
    }

    /** GetAddr_ appends the addresses of the entries met in a random order, leaving out terrible ones,
        until the limit is reached or all have been met.  Only places in vRandom change. */
    method GetAddr(given: seq<Address>, now: int) returns (vAddr: seq<Address>, ghost met: nat)
      requires Valid()
      modifies `mapInfo, `vRandom
      ensures Valid() && SameInfos(old(mapInfo), mapInfo) && (old(TimesOk(mapInfo)) ==> TimesOk(mapInfo))
      ensures met <= |vRandom| == |old(vRandom)| && vAddr == given + Gathered(old(mapInfo), vRandom[..met], now)
      ensures var limit := Min(23 * |vRandom| / 100, 2500);
              |vAddr| <= Max(limit, |given|) && (|vAddr| >= limit || met == |vRandom|)
    {
      var nNodes := GETADDR_MAX_PCT * |vRandom| / 100;
      if nNodes > GETADDR_MAX {
        nNodes := GETADDR_MAX;
      }
      vAddr := given;
      ghost var a := mapInfo;
      var n := 0;
      while n < |vRandom|
        invariant Core(Now()) && 0 <= n <= |vRandom| == |old(vRandom)| && |vAddr| <= Max(nNodes, |given|)
        invariant SameInfos(a, mapInfo) && vAddr == given + Gathered(a, vRandom[..n], now)
      {
        if |vAddr| >= nNodes {
          break;
        }
        vAddr := GatherNext(vAddr, n, now, given, a);
        n := n + 1;
      }
      met := n;
      SameLive(a, mapInfo);
    }
  }

  ghost function Gathered(infos: Infos, ids: seq<int>, now: int): seq<Address> {
    if ids == [] then []
    else
      Gathered(infos, ids[..|ids| - 1], now) +
      (var id := ids[|ids| - 1]; if id in infos && !infos[id].IsTerrible(now) then [infos[id].address] else [])
  }

  lemma GatheredAppend(infos: Infos, ids: seq<int>, id: int, now: int)
    ensures Gathered(infos, ids + [id], now) ==
            Gathered(infos, ids, now) + if id in infos && !infos[id].IsTerrible(now) then [infos[id].address] else []
  {
    assert (ids + [id])[..|ids|] == ids;
  }

  lemma SameTrans(a: Infos, b: Infos, c: Infos)
    requires SameInfos(a, b) && SameInfos(b, c)
    ensures SameInfos(a, c)
  {
    forall k ensures SameOf(a, c, k) {
      assert SameOf(a, b, k) && SameOf(b, c, k);
    }
  }

  lemma SameLive(a: Infos, b: Infos)
    requires SameInfos(a, b) && LiveOk(a)
    ensures LiveOk(b) && (TimesOk(a) ==> TimesOk(b)) && NewIds(a) == NewIds(b) && TriedIds(a) == TriedIds(b)
  {
    SameIds(a, b);
    forall k ensures LiveOf(b, k) && (TimesOk(a) ==> TimesOf(b, k)) {
      assert SameOf(a, b, k) && LiveOf(a, k) && (TimesOk(a) ==> TimesOf(a, k));
    }
  }

  /** Storing a 64-bit value in the 32-bit nTime. */
  function ToU32(x: nat): nat {
    x % 0x1_0000_0000
  }

  /** What Add_ is told. */
  datatype News = News(address: Address, source: NetAddr, timePenalty: int, now: int) {
    /** There is no penalty for announcing oneself. */
    function Penalty(): int {
      if address.service.net == source then 0 else timePenalty
    }

    function PenalisedTime(): nat {
      ToU32(Max(0, address.time - Penalty()))
    }

    /** The entry for an address that was not known. */
    function Entry(): Info {
      NewInfo(address, source).(address := address.(time := PenalisedTime()))
    }

    /** Add_'s update of an entry that is already known. */
    function Refreshed(info: Info): (r: Info)
      ensures SameStanding(info, r) && r.lastTry == info.lastTry && r.lastSuccess == info.lastSuccess
    {
      var interval := if now - address.time < DAY then 60 * 60 else DAY;
      var time := if address.time != 0
        && (info.address.time == 0 || info.address.time < address.time - interval - Penalty())
                  then PenalisedTime() else info.address.time;
      info.(address := info.address.(time := time, services := info.address.services + address.services))
    }
  }

  /** A known entry's time only ever moves forward, and by more than an hour if the address was seen within a day,
      more than a day otherwise; an announcement that is so much newer, even after the penalty, is taken over. */
  lemma RefreshedForward(news: News, info: Info)
    requires news.address.time < 0x1_0000_0000 && news.timePenalty >= 0 && info.address.time != 0
    ensures var was, time := info.address.time, news.Refreshed(info).address.time;
            var interval := if news.now - news.address.time < 86400 then 3600 else 86400;
            && (time == was || time > was + interval)
            && (news.address.time - news.Penalty() > was + interval ==> time == news.address.time - news.Penalty())
  {
  }

  /** The holder of a new slot gives way to `id`. */
  predicate Displaces(infos: Infos, id: int, held: int, now: int) {
    held == NONE || (held in infos && id in infos &&
      (infos[held].IsTerrible(now) || (infos[held].refCount > 1 && infos[id].refCount == 0)))
  }

  /** A known entry is tried for one more reference: there is news, and the lot falls on it, which is
      twice as unlikely for each reference it has. */
  predicate Gains(infos: Infos, id: int, news: News, roll: nat -> nat) {
    && id in infos && infos[id].refCount >= 0 && IsNews(news.address, news.Refreshed(infos[id]))
    && roll(Pow2(infos[id].refCount)) == 0
  }

  /** An entry takes its slot from the holder: a new one if the slot is free, or the holder is terrible or has other
      references; a known one, having references, only if the slot is free or the holder is terrible. */
  predicate Inserts(infos: Infos, id: int, isNew: bool, held: int, news: News, roll: nat -> nat) {
    if isNew then held == NONE || (held in infos && (infos[held].IsTerrible(news.now) || infos[held].refCount > 1))
    else
      && Gains(infos, id, news, roll) && held != id
      && (held == NONE || (held in infos && infos[held].IsTerrible(news.now)))
  }

  /** A table with every occurrence of an id emptied. */
  function Without(t: Table, id: int): (u: Table)
    ensures |u| == |t| && forall b :: 0 <= b < |t| ==> |u[b]| == |t[b]|
  {
    seq(|t|, b requires 0 <= b < |t| =>
      seq(|t[b]|, p requires 0 <= p < |t[b]| => if t[b][p] == id then NONE else t[b][p]))
  }

  /** Bucket b once the first `done` ones have been gone through. */
  ghost predicate RowAfter(t: Table, id: int, done: int, u: Table, b: int) {
    0 <= b < |t| == |u| ==> u[b] == if b < done then Without(t, id)[b] else t[b]
  }

  lemma RowCleared(s: Tables, id: int, b: nat, p: nat, t: Table, u: Table)
    requires Core(s) && id in s.infos && b < NEW_BUCKET_COUNT && p == s.h.Position(true, b, s.infos[id].address.service)
    requires Shape(t, NEW_BUCKET_COUNT)
    requires forall c {:trigger RowAfter(s.newT, id, b, t, c)} :: RowAfter(s.newT, id, b, t, c)
    requires u == if t[b][p] == id then Put(t, b, p, NONE) else t
    ensures forall c {:trigger RowAfter(s.newT, id, b + 1, u, c)} :: RowAfter(s.newT, id, b + 1, u, c)
  {
    var next := b + 1;
    assert IdOf(s.infos, s.idCount, id);
    assert RowAfter(s.newT, id, b, t, b);
    forall q | 0 <= q < BUCKET_SIZE ensures u[b][q] == Without(s.newT, id)[b][q] {
      assert NewSlotOk(s.h, s.infos, s.newT, b, q);
    }
    assert u[b] == Without(s.newT, id)[b];
    forall c ensures RowAfter(s.newT, id, next, u, c) {
      assert RowAfter(s.newT, id, b, t, c);
    }
  }

  /** The holder of the new slot to which an evicted entry goes back. */
  ghost function BackHeld(h: Hasher, infos: Infos, t: Table, evict: int): int
    requires Shape(t, NEW_BUCKET_COUNT)
  {
    if evict in infos then
      var s := infos[evict].address.service;
      var b := h.NewBucket(s, infos[evict].source);
      t[b][h.Position(true, b, s)]
    else NONE
  }

  /** The new table once the evicted entry, if any, is back in the bucket of its own source. */
  ghost function BackInNew(h: Hasher, infos: Infos, t: Table, evict: int): Table
    requires Shape(t, NEW_BUCKET_COUNT)
  {
    if evict in infos then
      var s := infos[evict].address.service;
      var b := h.NewBucket(s, infos[evict].source);
      Put(t, b, h.Position(true, b, s), evict)
    else t
  }

  /** MakeTried on the tables: the entry leaves every new slot and takes its tried slot, and the evicted entry
      goes back to its own new slot. */
  ghost predicate TablesMoved(h: Hasher, infos: Infos, newT: Table, tried: Table, id: int, evict: int, held: int,
                              newT': Table, tried': Table) {
    && id in infos && Shape(newT, NEW_BUCKET_COUNT) && Shape(tried, TRIED_BUCKET_COUNT)
    && held == BackHeld(h, infos, Without(newT, id), evict)
    && newT' == BackInNew(h, infos, Without(newT, id), evict)
    && var s := infos[id].address.service; tried' == Put(tried, h.TriedBucket(s), h.TriedPosition(s), id)
  }

  /** `id` has been created, or refreshed, or was refused; every other entry is as it was. */
  ghost predicate Admitted(was: Infos, id: int, isNew: bool, news: News, a: Infos) {
    if isNew then id !in was && id in a && a == was[id := a[id]] && SameButPos(news.Entry(), a[id])
    else a == if id in was then was[id := news.Refreshed(was[id])] else was
  }

  /** Something new about an untried entry that may still gain a reference. */
  predicate IsNews(address: Address, info: Info) {
    && address.time != 0 && (info.address.time == 0 || address.time > info.address.time)
    && !info.inTried && info.refCount < NEW_BUCKETS_PER_ADDRESS
  }

  /** What hearing of a known address does to its entry: it is refreshed, and may gain one reference if
      that was news. */
  ghost predicate Heard(news: News, was: Info, info: Info) {
    var refreshed := news.Refreshed(was);
    || SameButPos(refreshed, info)
    || (IsNews(news.address, refreshed) && SameButPos(refreshed.(refCount := was.refCount + 1), info))
  }

  /** Among the entries other than `id`, `held` has lost a reference and nothing else has happened. */
  ghost predicate OthersCleared(a: Infos, id: int, held: int, b: Infos) {
    forall k {:trigger ClearedOf(a, held, b, k)} :: k != id ==> ClearedOf(a, held, b, k)
  }

  lemma OthersPlaced(was: Infos, a: Infos, id: int, held: int, inserted: bool, b: Infos)
    requires id in a && a == was[id := a[id]] && Placed(a, id, held, inserted, b)
    ensures OthersCleared(was, id, if inserted then held else NONE, b)
  {
    var lost := if inserted then held else NONE;
    forall k | k != id ensures ClearedOf(was, lost, b, k) {
      assert PlacedOf(a, id, held, inserted, b, k);
    }
  }

  /** What Place decides on the admitted entry is told from the entries before. */
  lemma InsertsIff(was: Infos, a: Infos, id: int, isNew: bool, held: int, inserted: bool, news: News, roll: nat -> nat)
    requires LiveOk(was) && Admitted(was, id, isNew, news, a) && (isNew || Gains(was, id, news, roll))
    requires (inserted <==> held != id && Displaces(a, id, held, news.now)) && (held == id ==> a[id].refCount > 0)
    ensures inserted <==> Inserts(was, id, isNew, held, news, roll)
  {
    assert LiveOf(was, id);
  }

  ghost predicate LostOk(was: Infos, b: Infos, now: int, k: int) {
    k in was && k !in b ==> !was[k].inTried && was[k].refCount == 1 && was[k].IsTerrible(now)
  }

  /** Whatever is lost was untried and terrible, with a single reference. */
  ghost predicate OnlyTerribleLost(was: Infos, b: Infos, now: int) {
    forall k {:trigger LostOk(was, b, now, k)} :: LostOk(was, b, now, k)
  }

  lemma LostOnly(was: Infos, id: int, isNew: bool, held: int, inserted: bool, b: Infos, news: News, roll: nat -> nat)
    requires OthersCleared(was, id, if inserted then held else NONE, b) && NONE !in was && (id in was ==> id in b)
    requires inserted ==> Inserts(was, id, isNew, held, news, roll) && (held in was ==> !was[held].inTried)
    ensures OnlyTerribleLost(was, b, news.now)
  {
    forall k ensures LostOk(was, b, news.now, k) {
      assert k != id ==> ClearedOf(was, if inserted then held else NONE, b, k);
    }
  }

  lemma AdmittedKeeps(was: Infos, id: int, isNew: bool, news: News, a: Infos)
    requires LiveOk(was) && Admitted(was, id, isNew, news, a)
    ensures TimesOk(was) ==> TimesOk(a)
    ensures forall k :: k != id || !isNew ==> LiveOf(a, k)
  {
    forall k ensures k != id || !isNew ==> LiveOf(a, k) {
      assert LiveOf(was, k);
    }
    if TimesOk(was) {
      forall k ensures TimesOf(a, k) {
        assert TimesOf(was, k);
      }
    }
  }

  /** A created entry's address is known afterwards iff the entry itself survived. */
  lemma KnownIfPlaced(was: Infos, addrs: map<NetAddr, int>, a: Infos, id: int, held: int, inserted: bool, b: Infos,
      addrs': map<NetAddr, int>)
    requires AddrOk(was, addrs) && AddrOk(b, addrs') && id in a && id !in was && a == was[id := a[id]]
    requires a[id].Net() !in addrs && Placed(a, id, held, inserted, b)
    ensures a[id].Net() in addrs' <==> id in b
  {
    var net := a[id].Net();
    assert PlacedOf(a, id, held, inserted, b, id) && AddrOf(b, addrs', id) && AddrAt(b, addrs', net);
    if net in addrs' {
      var k := addrs'[net];
      assert PlacedOf(a, id, held, inserted, b, k) && AddrOf(was, addrs, k);
    }
  }

  lemma PlacedKeeps(a: Infos, id: int, held: int, inserted: bool, b: Infos, now: int)
    requires Placed(a, id, held, inserted, b) && id in a && (held == id ==> a[id].refCount > 0)
    requires inserted <==> held != id && Displaces(a, id, held, now)
    requires a[id].refCount < NEW_BUCKETS_PER_ADDRESS && forall k :: k != id ==> LiveOf(a, k)
    requires 0 <= a[id].refCount && (held in a ==> !a[held].inTried)
    ensures LiveOk(b) && (TimesOk(a) ==> TimesOk(b))
  {
    forall k ensures LiveOf(b, k) && (TimesOk(a) ==> TimesOf(b, k)) {
      assert PlacedOf(a, id, held, inserted, b, k) && (k != id ==> LiveOf(a, k));
      assert TimesOk(a) ==> TimesOf(a, k);
    }
  }

  ghost predicate PlacedOf(a: Infos, id: int, held: int, inserted: bool, b: Infos, k: int) {
    if k == id then
      k in a && (if !inserted && a[k].refCount == 0 then k !in b
                 else k in b && SameButPos(a[k].(refCount := a[k].refCount + if inserted then 1 else 0), b[k]))
    else ClearedOf(a, if inserted then held else NONE, b, k)
  }

  ghost predicate Placed(a: Infos, id: int, held: int, inserted: bool, b: Infos) {
    && NONE !in a
    && forall k {:trigger PlacedOf(a, id, held, inserted, b, k)} :: PlacedOf(a, id, held, inserted, b, k)
  }

  lemma UnreferencedHolder(s: Tables, id: int, b: nat, p: nat)
    requires Core(s) && id in s.infos && b < NEW_BUCKET_COUNT && p < BUCKET_SIZE && s.newT[b][p] == id
    ensures s.infos[id].refCount > 0
  {
    assert IdOf(s.infos, s.idCount, id);
    SlotClearedKeeps(s, b, p);
  }

  lemma OtherTimes(a: Infos, id: int, info: Info, b: Infos)
    requires id in a && b == a[id := info] && info.lastSuccess == a[id].lastSuccess && info.inTried == a[id].inTried
    ensures TimesOk(a) && (info.lastTry >= 0 || info.lastTry == a[id].lastTry) ==> TimesOk(b)
  {
    if TimesOk(a) && (info.lastTry >= 0 || info.lastTry == a[id].lastTry) {
      forall k ensures TimesOf(b, k) {
        assert TimesOf(a, k);
      }
    }
  }

  /** What Good_'s update alone does to the time conditions. */
  lemma StatsTimes(a: Infos, id: int, time: int, b: Infos)
    requires id in a && b == a[id := a[id].(lastSuccess := time, lastTry := time, attempts := 0)]
    ensures TimesOk(a) && time > 0 ==> TimesOk(b)
    ensures TimesOk(b) && a[id].inTried ==> time > 0
  {
    if TimesOk(a) && time > 0 {
      forall k ensures TimesOf(b, k) {
        assert TimesOf(a, k);
      }
    }
    assert TimesOk(b) ==> TimesOf(b, id);
  }

  /** Becoming tried with time stamp `time` keeps the time conditions iff `time` is positive. */
  lemma MadeTriedTimes(a: Infos, id: int, evict: int, held: int, b: Infos, time: int)
    requires MadeTried(a, id, evict, held, b) && id in a && a[id].lastSuccess == a[id].lastTry == time
    ensures TimesOk(b) ==> time > 0
    ensures TimesOk(a) && time > 0 ==> TimesOk(b)
  {
    assert MadeTriedOf(a, id, evict, held, b, id);
    assert TimesOk(b) ==> TimesOf(b, id);
    if TimesOk(a) && time > 0 {
      forall k ensures TimesOf(b, k) {
        assert MadeTriedOf(a, id, evict, held, b, k) && TimesOf(a, k);
      }
    }
  }

  lemma MadeTriedWhat(was: Infos, id: int, evict: int, held: int, a: Infos, b: Infos, c: Infos)
    requires id in was && LiveOk(was) && a == WithRefCount(was, id, 0)
    requires Evicted(a, id, evict, held, b) && id in b && c == b[id := b[id].(inTried := true)]
    ensures MadeTried(was, id, evict, held, c) && LiveOk(c)
  {
    forall k ensures MadeTriedOf(was, id, evict, held, c, k) && LiveOf(c, k) {
      assert EvictedOf(a, evict, held, b, k) && LiveOf(was, k);
    }
  }

  ghost predicate EvictedOf(a: Infos, evict: int, held: int, b: Infos, k: int) {
    if k == evict && k in a then a[k].inTried && k in b && SameButPos(a[k].(inTried := false, refCount := 1), b[k])
    else ClearedOf(a, held, b, k)
  }

  ghost predicate Evicted(a: Infos, id: int, evict: int, held: int, b: Infos) {
    && held != id && evict != id && (held in a ==> a[held].refCount > 0 && !a[held].inTried)
    && forall k {:trigger EvictedOf(a, evict, held, b, k)} :: EvictedOf(a, evict, held, b, k)
  }

  ghost predicate MadeTriedOf(a: Infos, id: int, evict: int, held: int, b: Infos, k: int) {
    if k == id then k in a && k in b && SameButPos(a[k].(refCount := 0, inTried := true), b[k])
    else EvictedOf(a, evict, held, b, k)
  }

  /** `id` has become tried, `evict` has gone back to new with one reference, `held` has lost
      one reference, and nothing else has happened to any entry. */
  ghost predicate MadeTried(a: Infos, id: int, evict: int, held: int, b: Infos) {
    && held != id && evict != id && (held in a ==> a[held].refCount > 0 && !a[held].inTried)
    && forall k {:trigger MadeTriedOf(a, id, evict, held, b, k)} :: MadeTriedOf(a, id, evict, held, b, k)
  }

  ghost predicate TookOf(a: Infos, id: int, held: int, b: Infos, k: int) {
    if k == id then k in a && k in b && SameButPos(a[k].(refCount := a[k].refCount + 1), b[k])
    else ClearedOf(a, held, b, k)
  }

  /** `id` has gained one reference, and `held` has lost one. */
  ghost predicate Took(a: Infos, id: int, held: int, b: Infos) {
    forall k {:trigger TookOf(a, id, held, b, k)} :: TookOf(a, id, held, b, k)
  }

  lemma HolderReferenced(s: Tables, id: int, b: nat, p: nat)
    requires Core(s) && id in s.infos && s.infos[id].refCount == 0 && b < NEW_BUCKET_COUNT && p < BUCKET_SIZE
    ensures var held := s.newT[b][p];
            held != id && (held in s.infos ==> s.infos[held].refCount > 0 && !s.infos[held].inTried)
  {
    assert IdOf(s.infos, s.idCount, id) && IdOf(s.infos, s.idCount, NONE);
    UnreferencedNowhere(s, id, b, p);
    if s.newT[b][p] != NONE {
      SlotClearedKeeps(s, b, p);
    }
  }
}
