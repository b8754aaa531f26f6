/** The cache stack of module `Coins` refines a stack of plain outpoint-to-coin maps. */
module CoinsTheorems {
  import opened Wrappers
  import opened Coins

  // ----- Reads change no answer -----

  lemma FlagsFollowAnswers(entries: EntryMap, b: View, b': View)
    requires FlagsOk(entries, b) && SameAnswers(b, b')
    ensures FlagsOk(entries, b')
  {
    forall o | o in entries ensures EntryOk(entries[o], Lookup(b', o)) {
      assert EntryOk(entries[o], Lookup(b, o));
      assert Lookup(b, o) == Lookup(b', o);
    }
  }

  lemma {:induction false} SameAnswersRefl(v: View)
    ensures SameAnswers(v, v)
    decreases v
  {
    if v.Cache? {
      SameAnswersRefl(v.base);
    }
  }

  lemma {:induction false} SameAnswersTrans(u: View, v: View, w: View)
    requires SameAnswers(u, v) && SameAnswers(v, w)
    ensures SameAnswers(u, w)
    decreases u
  {
    if u.Cache? {
      SameAnswersTrans(u.base, v.base, w.base);
    }
    forall o: OutPoint ensures Lookup(u, o) == Lookup(w, o) {
      assert Lookup(u, o) == Lookup(v, o);
    }
  }

  /** GetCoin answers like the plain map, keeps the invariant at every level and,
      although it fills every cache it passes through, changes no answer at any level. */
  lemma {:induction false} GetAnswers(v: View, o: OutPoint)
    requires Ok(v)
    ensures Get(v, o).1 == Lookup(v, o)
    ensures Ok(Get(v, o).0) && SameAnswers(v, Get(v, o).0)
    decreases v, 1
  {
    if v.Cache? {
      FetchAnswers(v, o);
    }
  }

  lemma {:induction false} FetchAnswers(v: CacheView, o: OutPoint)
    requires Ok(v)
    ensures var v' := Fetch(v, o);
            && Ok(v') && SameAnswers(v, v') && v'.best == v.best
            && (if o in v'.entries then v'.entries[o].Answer() else None) == Lookup(v, o)
            && (o !in v'.entries ==> Lookup(v'.base, o) == None)
    decreases v, 0
  {
    if o in v.entries {
      SameAnswersRefl(v);
    } else {
      GetAnswers(v.base, o);
      var (base', r) := Get(v.base, o);
      var v' := Fetch(v, o);
      FlagsFollowAnswers(v.entries, v.base, base');
      if r.Some? {
        assert !r.value.IsSpent() by { LookupUnspent(v.base, o); }
        TotalUsageUpdate(v.entries, o, Entry(r.value, false, false));
      }
      forall p: OutPoint ensures Lookup(v, p) == Lookup(v', p) {
        assert Lookup(v.base, p) == Lookup(base', p);
      }
      assert Lookup(base', o) == Lookup(v.base, o);
    }
  }

  /** The cache holds the same entries for all other outpoints. */
  ghost predicate SameElsewhere(v: CacheView, v': CacheView, o: OutPoint) {
    v'.entries - {o} == v.entries - {o}
  }

  lemma {:induction false} LookupUnspent(v: View, o: OutPoint)
    requires Ok(v) && Lookup(v, o).Some?
    ensures !Lookup(v, o).value.IsSpent()
    decreases v
  {
    if v.Cache? && o !in v.entries {
      LookupUnspent(v.base, o);
    }
  }

  /** The branch of FetchCoin that marks a fetched spent coin FRESH is dead:
      a conforming parent never answers with a spent coin. */
  lemma FetchNeverMarksFresh(v: CacheView, o: OutPoint)
    requires Ok(v) && o !in v.entries && o in Fetch(v, o).entries
    ensures !Fetch(v, o).entries[o].isFresh && !Fetch(v, o).entries[o].isDirty
  {
    GetAnswers(v.base, o);
    LookupUnspent(v.base, o);
  }

  /** Uncache changes no answer, but an entry without flags is gone and its size with it; any other entry,
      and every other outpoint, stays. */
  lemma UncacheAnswers(v: CacheView, o: OutPoint)
    requires Ok(v)
    ensures Ok(Uncache(v, o)) && SameAnswers(v, Uncache(v, o))
    ensures var v' := Uncache(v, o);
            o in v.entries && !v.entries[o].isDirty && !v.entries[o].isFresh ==>
              o !in v'.entries && v'.usage == v.usage - v.entries[o].coin.Usage() && v'.base == v.base
    ensures o in v.entries && (v.entries[o].isDirty || v.entries[o].isFresh) ==> Uncache(v, o) == v
  {
    SameAnswersRefl(v);
    var v' := Uncache(v, o);
    if v' != v {
      TotalUsageRemove(v.entries, o);
      assert EntryOk(v.entries[o], Lookup(v.base, o));
      forall p: OutPoint ensures Lookup(v, p) == Lookup(v', p) {}
    }
  }

  lemma {:induction false} GetBestAnswers(v: View)
    requires Ok(v)
    ensures GetBest(v).1 == BestOf(v)
    ensures Ok(GetBest(v).0) && SameAnswers(v, GetBest(v).0)
    decreases v
  {
    SameAnswersRefl(v);
    if v.Cache? && v.best == NULL_HASH {
      GetBestAnswers(v.base);
      var v' := GetBest(v).0;
      FlagsFollowAnswers(v.entries, v.base, v'.base);
      forall p: OutPoint ensures Lookup(v, p) == Lookup(v', p) {
        assert Lookup(v.base, p) == Lookup(v'.base, p);
      }
    }
  }

  // ----- Writes -----

  /** Writing or removing one entry leaves the flags right if and only if that entry's are. */
  lemma FlagsUpdate(entries: EntryMap, base: View, o: OutPoint, e: Entry)
    requires FlagsOk(entries, base)
    ensures FlagsOk(entries[o := e], base) <==> EntryOk(e, Lookup(base, o))
    ensures FlagsOk(entries - {o}, base)
  {
    var updated := entries[o := e];
    if EntryOk(e, Lookup(base, o)) {
      forall p | p in updated ensures EntryOk(updated[p], Lookup(base, p)) {
        assert p != o ==> EntryOk(entries[p], Lookup(base, p));
      }
    } else {
      assert updated[o] == e;
    }
  }

  /** SpendCoin removes exactly `o` from the view; the moved-out coin is the plain map's. */
  lemma SpendAnswers(v: CacheView, o: OutPoint)
    requires Ok(v)
    ensures var (v', r) := Spend(v, o);
            && Ok(v') && v'.best == v.best && SameAnswers(v.base, v'.base)
            && (forall p :: Lookup(v', p) == if p == o then None else Lookup(v, p))
            && (Lookup(v, o).Some? ==> r == Lookup(v, o))
            && (Lookup(v, o).None? ==> r.None? || r.value.IsSpent())
  {
    FetchAnswers(v, o);
    var f, v' := Fetch(v, o), Spend(v, o).0;
    SpendAfterFetch(v, f, o);
    forall p ensures Lookup(v', p) == if p == o then None else Lookup(v, p) {
      assert Lookup(v, p) == Lookup(f, p);
    }
  }

  /** SpendCoin only looks at the stack after FetchCoin. */
  lemma SpendAfterFetch(v: CacheView, f: CacheView, o: OutPoint)
    requires f == Fetch(v, o) && Ok(f) && (o !in f.entries ==> Lookup(f.base, o) == None)
    ensures var (v', r) := Spend(v, o);
            && Ok(v') && v'.best == f.best && v'.base == f.base
            && r == (if o in f.entries then Some(f.entries[o].coin) else None)
            && (forall p :: Lookup(v', p) == if p == o then None else Lookup(f, p))
  {
    if o in f.entries {
      assert Spend(v, o) == Spend(f, o);
      SpendFetched(f, o);
    }
  }

  lemma SpendFetched(f: CacheView, o: OutPoint)
    requires Ok(f) && o in f.entries
    ensures var (v', r) := Spend(f, o);
            && Ok(v') && v'.best == f.best && v'.base == f.base && r == Some(f.entries[o].coin)
            && (forall p :: Lookup(v', p) == if p == o then None else Lookup(f, p))
  {
    var e := f.entries[o];
    assert EntryOk(e, Lookup(f.base, o));
    TotalUsageUpdate(f.entries, o, Entry(CLEARED, true, e.isFresh));
    FlagsUpdate(f.entries, f.base, o, Entry(CLEARED, true, e.isFresh));
  }

  /** SpendCoin reports success on an outpoint with no unspent coin exactly when
      a spent entry for it is still cached. */
  lemma SpendSucceedsOnSpentEntry(v: CacheView, o: OutPoint)
    requires Ok(v)
    ensures Spend(v, o).1.Some? && Lookup(v, o).None? <==> o in v.entries && v.entries[o].coin.IsSpent()
  {
    FetchAnswers(v, o);
    GetAnswers(v.base, o);
    if o !in v.entries && o in Fetch(v, o).entries {
      LookupUnspent(v.base, o);
    }
  }

  /** AddCoin ignores a coin if and only if its script can never be satisfied, and then changes nothing. */
  lemma AddIgnored(v: CacheView, o: OutPoint, c: Coin, overwrite: bool)
    requires !c.IsSpent()
    ensures Add(v, o, c, overwrite).1 == Ignored <==>
      || (c.script.bytes != [] && (c.script.bytes[0] == 0x6a || c.script.bytes[0] == 0xc0))
      || |c.script.bytes| > 10000 || c.script.zeroAsset
    ensures Add(v, o, c, overwrite).1 == Ignored ==> Add(v, o, c, overwrite).0 == v
  {
  }

  /** A successful AddCoin writes exactly `o`, and keeps the invariant if and only if
      the coin is not passed off as new while the parent still has an unspent one. */
  lemma AddAnswers(v: CacheView, o: OutPoint, c: Coin, overwrite: bool)
    requires Ok(v) && !c.IsSpent() && Add(v, o, c, overwrite).1 == Added
    ensures var v' := Add(v, o, c, overwrite).0;
            && v'.base == v.base && v'.best == v.best
            && (forall p :: Lookup(v', p) == if p == o then Some(c) else Lookup(v, p))
            && v'.usage == TotalUsage(v'.entries)
            && (Ok(v') <==> overwrite || Lookup(v.base, o) == None || (o in v.entries && v.entries[o].isDirty))
  {
    var v' := Add(v, o, c, overwrite).0;
    var e := v'.entries[o];
    AddWrites(v, o, c, overwrite, e);
    FlagsUpdate(v.entries, v.base, o, e);
    if o in v.entries {
      assert EntryOk(v.entries[o], Lookup(v.base, o));
    }
  }

  lemma AddWrites(v: CacheView, o: OutPoint, c: Coin, overwrite: bool, e: Entry)
    requires Ok(v) && !c.IsSpent() && Add(v, o, c, overwrite).1 == Added && e == Add(v, o, c, overwrite).0.entries[o]
    ensures e.coin == c && Add(v, o, c, overwrite).0 ==
        v.(entries := v.entries[o := e], usage := TotalUsage(v.entries[o := e]))
    ensures forall p :: Lookup(Add(v, o, c, overwrite).0, p) == if p == o then Some(c) else Lookup(v, p)
  {
    TotalUsageUpdate(v.entries, o, e);
    var v' := Add(v, o, c, overwrite).0;
    assert v'.entries == v.entries[o := e];
    forall p ensures Lookup(v', p) == if p == o then Some(c) else Lookup(v, p) {
      assert p != o ==> (p in v'.entries <==> p in v.entries);
    }
  }

  /** After AddCoin has thrown, no answer changed, but the usage counter
      is right if and only if the cached script occupied no heap memory. */
  lemma AddThrownUsage(v: CacheView, o: OutPoint, c: Coin)
    requires Ok(v) && !c.IsSpent() && Add(v, o, c, false).1 == Thrown
    ensures SameAnswers(v, Add(v, o, c, false).0)
    ensures Ok(Add(v, o, c, false).0) <==> v.entries[o].coin.Usage() == 0
  {
    var v' := Add(v, o, c, false).0;
    SameAnswersRefl(v.base);
    forall p: OutPoint ensures Lookup(v, p) == Lookup(v', p) {}
  }

  /** A concrete drift: one cached coin with a 29-byte script, added again as new. */
  lemma AddThrownUsageDrifts()
    ensures exists v: CacheView, o: OutPoint, c: Coin ::
      Ok(v) && !c.IsSpent() && Add(v, o, c, false).1 == Thrown && !Ok(Add(v, o, c, false).0)
  {
    var o := OutPoint(1, 0);
    var c := Coin(5, Script(seq(29, i => 1), false), false, 7);
    assert !c.script.IsUnspendable() && c.Usage() == 48;
    var v0: CacheView := Cache(map[], 0, NULL_HASH, Db(map[], NULL_HASH));
    assert Ok(v0);
    var v: CacheView := Add(v0, o, c, false).0;
    AddAnswers(v0, o, c, false);
    AddThrownUsage(v, o, c);
  }

  /** No operation on one outpoint touches the entry of another. */
  lemma OthersUntouched(v: CacheView, o: OutPoint, c: Coin, overwrite: bool)
    requires !c.IsSpent()
    ensures SameElsewhere(v, Fetch(v, o), o) && SameElsewhere(v, Spend(v, o).0, o)
    ensures SameElsewhere(v, Add(v, o, c, overwrite).0, o) && SameElsewhere(v, Uncache(v, o), o)
  {
    assert SameElsewhere(Fetch(v, o), Spend(v, o).0, o);
  }

  // ----- What FRESH saves -----

  /** A coin that comes and goes while the cache has no entry for it leaves no trace in it. */
  lemma AddSpendUndone(v: CacheView, o: OutPoint, c: Coin)
    requires o !in v.entries && !c.IsSpent() && !c.script.IsUnspendable()
    ensures Spend(Add(v, o, c, false).0, o) == (v, Some(c))
  {
    assert v.entries[o := Entry(c, true, true)] - {o} == v.entries;
  }

  /** Overwriting a FRESH coin leaves it FRESH: spending it afterwards leaves no entry. */
  lemma OverwriteSpendUndone(v: CacheView, o: OutPoint, c: Coin)
    requires Ok(v) && o in v.entries && v.entries[o].isFresh && !c.IsSpent() && !c.script.IsUnspendable()
    ensures Spend(Add(v, o, c, true).0, o).0 == Spend(v, o).0
    ensures o !in Spend(v, o).0.entries
  {
    assert v.entries[o := Entry(c, true, true)] - {o} == v.entries - {o};
  }

  /** A second SpendCoin reports success if and only if the first one left a spent entry, because the parent
      has to be told. */
  lemma SpendTwice(v: CacheView, o: OutPoint)
    requires Ok(v)
    ensures var f, v1 := Fetch(v, o), Spend(v, o).0;
            Spend(v1, o).1.Some? <==> o in f.entries && !f.entries[o].isFresh
  {
    FetchAnswers(v, o);
    SpendAnswers(v, o);
    var f, v1 := Fetch(v, o), Spend(v, o).0;
    GetAnswers(v1.base, o);
    assert Lookup(v1, o) == None;
  }

  /** The merge treats every outpoint as its flags demand. */
  lemma MergeFlags(child: EntryMap, parent: EntryMap)
    ensures forall o {:trigger FlagsMerged(child, parent, Merge(child, parent), o)} ::
        FlagsMerged(child, parent, Merge(child, parent), o)
  {
    var merged := Merge(child, parent);
    forall o ensures FlagsMerged(child, parent, merged, o) {
      assert EntryAt(merged, o) == MergeAt(child, parent, o);
    }
  }

  /** A coin created in a cache, flushed into a parent cache without an entry for it, and spent there, leaves the
      parent as it was. */
  lemma FlushSpendUndone(v: CacheView, o: OutPoint, c: Coin)
    requires v.base.Cache? && v.entries == map[] && v.usage == 0 && o !in v.base.entries
    requires !c.IsSpent() && !c.script.IsUnspendable()
    ensures var flushed := Flush(Add(v, o, c, false).0);
            Spend(flushed.base, o) == (v.base.(best := v.best), Some(c))
  {
    var e := Entry(c, true, true);
    var parent := v.base.entries;
    var merged := Merge(map[o := e], parent);
    forall p ensures EntryAt(merged, p) == if p == o then Some(e) else EntryAt(parent, p) {
      assert EntryAt(merged, p) == MergeAt(map[o := e], parent, p);
    }
    assert merged == parent[o := e] by {
      forall p ensures p in merged <==> p in parent[o := e] {
        assert EntryAt(merged, p) == if p == o then Some(e) else EntryAt(parent, p);
      }
      forall p | p in merged ensures merged[p] == parent[o := e][p] {
        assert EntryAt(merged, p) == if p == o then Some(e) else EntryAt(parent, p);
      }
    }
    TotalUsageUpdate(parent, o, e);
    assert merged - {o} == parent;
    assert v.entries[o := e] == map[o := e];
  }

  // ----- Flush -----

  /** Under the invariant the "FRESH flag misapplied" error cannot be raised, so a batch
      is refused only by the database's assert on a null best block. */
  lemma FreshNeverMisapplied(v: CacheView)
    requires Ok(v)
    ensures BatchRefused(v.entries, v.best, v.base) <==> v.base.Db? && v.best == NULL_HASH
  {
    if v.base.Cache? {
      forall o ensures !Misapplied(v.entries, v.base.entries, o) {
        if o in v.entries {
          assert EntryOk(v.entries[o], Lookup(v.base, o));
        }
      }
    }
  }

  /** What the parent answers for one outpoint after the merge. */
  lemma MergeAnswers(v: CacheView, o: OutPoint)
    requires Ok(v)
    ensures Lookup(Batch(v.entries, v.best, v.base), o) == Lookup(v, o)
    ensures v.base.Cache? && o in Batch(v.entries, v.best, v.base).entries ==>
              EntryOk(Batch(v.entries, v.best, v.base).entries[o], Lookup(v.base.base, o))
  {
    if o in v.entries {
      assert EntryOk(v.entries[o], Lookup(v.base, o));
    }
    if v.base.Cache? && o in v.base.entries {
      assert EntryOk(v.base.entries[o], Lookup(v.base.base, o));
    }
  }

  /** Flush: the parent now answers what the child answered, the child answers as before,
      nothing below the parent moves, and the invariant holds at every level. */
  lemma FlushAnswers(v: CacheView)
    requires Ok(v)
    ensures var v' := Flush(v);
            && Ok(v') && v'.entries == map[] && v'.best == v.best == v'.base.best
            && (forall o :: Lookup(v', o) == Lookup(v, o) && Lookup(v'.base, o) == Lookup(v, o))
            && (v.base.Cache? <==> v'.base.Cache?)
            && (v.base.Cache? ==> v'.base.base == v.base.base)
  {
    var v' := Flush(v);
    forall o ensures Lookup(v'.base, o) == Lookup(v, o) {
      MergeAnswers(v, o);
    }
    if v.base.Cache? {
      forall o | o in v'.base.entries ensures EntryOk(v'.base.entries[o], Lookup(v'.base.base, o)) {
        MergeAnswers(v, o);
      }
    } else {
      forall o | o in v'.base.coins ensures !v'.base.coins[o].IsSpent() {}
    }
  }

  /** Flush keeps the best-block answer if and only if the flushed cache has a best block of
      its own, or its parent only inherited one anyway. */
  lemma FlushBestIff(v: CacheView)
    requires Ok(v) && v.base.Cache?
    ensures BestOf(Flush(v)) == BestOf(v) <==> v.best != NULL_HASH || BestOf(v.base) == BestOf(v.base.base)
  {
  }

  // ----- Whole runs against a stack of plain maps -----

  /** One level of the reference: a plain map, and the best block recorded there, if any. */
  datatype Plain = Plain(coins: CoinMap, own: BlockHash)

  /** The first best block recorded from the top down. */
  function PlainBest(ps: seq<Plain>): BlockHash
    requires |ps| > 0
  {
    if ps[0].own != NULL_HASH || |ps| == 1 then ps[0].own else PlainBest(ps[1..])
  }

  /** That best block recorded at every level above it. */
  function Pinned(ps: seq<Plain>): (r: seq<Plain>)
    requires |ps| > 0
    ensures |r| == |ps|
  {
    if ps[0].own != NULL_HASH || |ps| == 1 then ps
    else [ps[0].(own := PlainBest(ps[1..]))] + Pinned(ps[1..])
  }

  /** At every level the caches answer what the plain map holds, and record the same best block. */
  ghost predicate Agree(v: View, ps: seq<Plain>) {
    && |ps| > 0
    && (forall o: OutPoint :: Lookup(v, o) == if o in ps[0].coins then Some(ps[0].coins[o]) else None)
    && v.best == ps[0].own
    && (v.Db? <==> |ps| == 1)
    && (v.Cache? ==> Agree(v.base, ps[1..]))
  }

  lemma {:induction false} AgreeBest(v: View, ps: seq<Plain>)
    requires Agree(v, ps)
    ensures BestOf(v) == PlainBest(ps)
    decreases v
  {
    if v.Cache? {
      AgreeBest(v.base, ps[1..]);
    }
  }

  /** Everything a caller may do to a stack: query or write its top cache, flush it,
      put a new cache on top of it, or drop it unflushed. */
  datatype Op =
    | GetOp(o: OutPoint)
    | AddOp(o: OutPoint, c: Coin, overwrite: bool)
    | SpendOp(o: OutPoint)
    | UncacheOp(o: OutPoint)
    | GetBestOp
    | SetBestOp(hash: BlockHash)
    | FlushOp
    | PushOp
    | DropOp

  ghost function Apply(v: CacheView, op: Op): View
    requires op.AddOp? ==> !op.c.IsSpent()
  {
    match op
    case GetOp(o) => Get(v, o).0
    case AddOp(o, c, overwrite) => Add(v, o, c, overwrite).0
    case SpendOp(o) => Spend(v, o).0
    case UncacheOp(o) => Uncache(v, o)
    case GetBestOp => GetBest(v).0
    case SetBestOp(hash) => v.(best := hash)
    case FlushOp => Flush(v)
    case PushOp => Cache(map[], 0, NULL_HASH, v)
    case DropOp => v.base
  }

  /** What the same operation does to plain maps. */
  function ApplyPlain(ps: seq<Plain>, op: Op): seq<Plain>
    requires |ps| > 1
  {
    var top := ps[0];
    match op
    case GetOp(_) => ps
    case UncacheOp(_) => ps
    case GetBestOp => Pinned(ps)
    case AddOp(o, c, _) =>
      if c.script.IsUnspendable() then ps else [top.(coins := top.coins[o := c])] + ps[1..]
    case SpendOp(o) => [top.(coins := top.coins - {o})] + ps[1..]
    case SetBestOp(hash) => [top.(own := hash)] + ps[1..]
    case FlushOp => [top, top] + ps[2..]
    case PushOp => [Plain(top.coins, NULL_HASH)] + ps
    case DropOp => ps[1..]
  }

  /** The caller's obligations, all about the plain maps: no spent coin is added, a coin added as
      new is absent, the database is flushed to only with a best block, and is not dropped. */
  predicate Legal(ps: seq<Plain>, op: Op) {
    && |ps| > 1
    && match op
       case AddOp(o, c, overwrite) => !c.IsSpent() && (overwrite || o !in ps[0].coins)
       case FlushOp => ps[0].own != NULL_HASH || |ps| > 2
       case _ => true
  }

  /** v and w record the same best blocks at every level. */
  ghost predicate SameOwn(v: View, w: View) {
    v.best == w.best && (v.Db? <==> w.Db?) && (v.Cache? ==> SameOwn(v.base, w.base))
  }

  lemma {:induction false} SameOwnRefl(v: View)
    ensures SameOwn(v, v)
    decreases v
  {
    if v.Cache? {
      SameOwnRefl(v.base);
    }
  }

  /** Reading a coin records no best block anywhere. */
  lemma {:induction false} GetKeepsOwn(v: View, o: OutPoint)
    ensures SameOwn(v, Get(v, o).0)
    decreases v, 1
  {
    if v.Cache? {
      FetchKeepsOwn(v, o);
    }
  }

  lemma {:induction false} FetchKeepsOwn(v: CacheView, o: OutPoint)
    ensures SameOwn(v, Fetch(v, o))
    decreases v, 0
  {
    SameOwnRefl(v);
    GetKeepsOwn(v.base, o);
  }

  lemma {:induction false} AgreeFollows(v: View, w: View, ps: seq<Plain>)
    requires Agree(v, ps) && SameAnswers(v, w) && SameOwn(v, w)
    ensures Agree(w, ps)
    decreases v
  {
    if v.Cache? {
      AgreeFollows(v.base, w.base, ps[1..]);
    }
    forall o: OutPoint ensures Lookup(w, o) == if o in ps[0].coins then Some(ps[0].coins[o]) else None {
      assert Lookup(v, o) == Lookup(w, o);
    }
  }

  /** GetBestBlock records the best block it finds at every level it passes. */
  lemma {:induction false} GetBestAgrees(v: View, ps: seq<Plain>)
    requires Ok(v) && Agree(v, ps)
    ensures Agree(GetBest(v).0, Pinned(ps)) && GetBest(v).1 == PlainBest(ps)
    decreases v
  {
    if v.Cache? && v.best == NULL_HASH {
      GetBestAgrees(v.base, ps[1..]);
      GetBestAnswers(v);
      var v', ps' := GetBest(v).0, Pinned(ps);
      assert ps'[1..] == Pinned(ps[1..]);
      forall o: OutPoint ensures Lookup(v', o) == if o in ps'[0].coins then Some(ps'[0].coins[o]) else None {
        assert Lookup(v, o) == Lookup(v', o);
      }
    }
  }

  /** A legal write to the top cache raises no error. */
  lemma LegalAddSucceeds(v: CacheView, ps: seq<Plain>, op: Op)
    requires Ok(v) && Agree(v, ps) && Legal(ps, op) && op.AddOp?
    ensures Add(v, op.o, op.c, op.overwrite).1 == if op.c.script.IsUnspendable() then Ignored else Added
    ensures op.c.script.IsUnspendable() || Ok(Add(v, op.o, op.c, op.overwrite).0)
  {
    assert Lookup(v, op.o) == if op.o in ps[0].coins then Some(ps[0].coins[op.o]) else None;
    if !op.c.script.IsUnspendable() {
      AddAnswers(v, op.o, op.c, op.overwrite);
      if op.o in v.entries {
        assert EntryOk(v.entries[op.o], Lookup(v.base, op.o));
      }
    }
  }

  /** A legal flush is not refused. */
  lemma LegalFlushSucceeds(v: CacheView, ps: seq<Plain>)
    requires Ok(v) && Agree(v, ps) && Legal(ps, FlushOp)
    ensures !BatchRefused(v.entries, v.best, v.base)
  {
    FreshNeverMisapplied(v);
    assert Agree(v.base, ps[1..]);
  }

  lemma AddAgrees(v: CacheView, ps: seq<Plain>, op: Op)
    requires Ok(v) && Agree(v, ps) && Legal(ps, op) && op.AddOp?
    ensures Ok(Apply(v, op)) && Agree(Apply(v, op), ApplyPlain(ps, op))
  {
    LegalAddSucceeds(v, ps, op);
    if !op.c.script.IsUnspendable() {
      AddAnswers(v, op.o, op.c, op.overwrite);
      assert ApplyPlain(ps, op)[1..] == ps[1..];
    }
  }

  lemma SpendAgrees(v: CacheView, ps: seq<Plain>, o: OutPoint)
    requires Ok(v) && Agree(v, ps) && |ps| > 1
    ensures Ok(Spend(v, o).0) && Agree(Spend(v, o).0, ApplyPlain(ps, SpendOp(o)))
  {
    SpendAnswers(v, o);
    FetchKeepsOwn(v, o);
    assert ApplyPlain(ps, SpendOp(o))[1..] == ps[1..];
    AgreeFollows(v.base, Spend(v, o).0.base, ps[1..]);
  }

  lemma FlushAgrees(v: CacheView, ps: seq<Plain>)
    requires Ok(v) && Agree(v, ps) && |ps| > 1
    ensures Ok(Flush(v)) && Agree(Flush(v), ApplyPlain(ps, FlushOp))
  {
    var v', ps' := Flush(v), ApplyPlain(ps, FlushOp);
    FlushAnswers(v);
    assert ps'[1..] == [ps[0]] + ps[2..];
    if v.base.Cache? {
      assert ps'[1..][1..] == ps[1..][1..];
    }
    assert Agree(v'.base, ps'[1..]);
  }

  lemma StepAgrees(v: CacheView, ps: seq<Plain>, op: Op)
    requires Ok(v) && Agree(v, ps) && Legal(ps, op)
    ensures Ok(Apply(v, op)) && Agree(Apply(v, op), ApplyPlain(ps, op))
  {
    var v', ps' := Apply(v, op), ApplyPlain(ps, op);
    match op
    case GetOp(o) => GetAnswers(v, o); GetKeepsOwn(v, o); AgreeFollows(v, v', ps);
    case UncacheOp(o) => UncacheAnswers(v, o); SameOwnRefl(v); AgreeFollows(v, v', ps);
    case GetBestOp => GetBestAnswers(v); GetBestAgrees(v, ps);
    case AddOp(_, _, _) => AddAgrees(v, ps, op);
    case SpendOp(o) => SpendAgrees(v, ps, o);
    case SetBestOp(hash) =>
      assert ps'[1..] == ps[1..];
      forall o: OutPoint ensures Lookup(v', o) == Lookup(v, o) {}
    case FlushOp => FlushAgrees(v, ps);
    case PushOp =>
      assert ps'[1..] == ps;
      assert TotalUsage(map[]) == 0;
      forall o: OutPoint ensures Lookup(v', o) == Lookup(v, o) {}
    case DropOp =>
  }

  predicate LegalRun(ps: seq<Plain>, ops: seq<Op>)
    decreases |ops|
  {
    ops == [] || (Legal(ps, ops[0]) && LegalRun(ApplyPlain(ps, ops[0]), ops[1..]))
  }

  ghost function Run(v: View, ps: seq<Plain>, ops: seq<Op>): View
    requires Agree(v, ps) && Ok(v) && LegalRun(ps, ops)
    decreases |ops|
  {
    if ops == [] then v
    else
      StepAgrees(v, ps, ops[0]);
      Run(Apply(v, ops[0]), ApplyPlain(ps, ops[0]), ops[1..])
  }

  function RunPlain(ps: seq<Plain>, ops: seq<Op>): seq<Plain>
    requires LegalRun(ps, ops)
    decreases |ops|
  {
    if ops == [] then ps else RunPlain(ApplyPlain(ps, ops[0]), ops[1..])
  }

  /** Main result: after any run that is legal for the plain maps, at every level of a stack of any
      depth, the caches answer exactly as the plain maps do, and flags and usage counters are right. */
  lemma {:induction false} RunAgrees(v: View, ps: seq<Plain>, ops: seq<Op>)
    requires Ok(v) && Agree(v, ps) && LegalRun(ps, ops)
    ensures Ok(Run(v, ps, ops)) && Agree(Run(v, ps, ops), RunPlain(ps, ops))
    ensures BestOf(Run(v, ps, ops)) == PlainBest(RunPlain(ps, ops))
    decreases |ops|
  {
    if ops == [] {
      AgreeBest(v, ps);
    } else {
      StepAgrees(v, ps, ops[0]);
      RunAgrees(Apply(v, ops[0]), ApplyPlain(ps, ops[0]), ops[1..]);
    }
  }
}
