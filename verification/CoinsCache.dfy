/** The mutable objects of src/coins.cpp, proved to compute the operations of module `Coins`. */
module CoinsCache {
  import opened Wrappers
  import opened Coins
  import opened CoinsTheorems

  class CoinsViewDb {
    var coins: CoinMap
    var best: BlockHash

    constructor (coins: CoinMap, best: BlockHash)
      ensures this.coins == coins && this.best == best
    {
      this.coins, this.best := coins, best;
    }

    /** CCoinsViewDB::BatchWrite, with the whole batch committed at once. */
    method BatchWrite(child: EntryMap, hash: BlockHash) returns (ok: bool)
      modifies this
      ensures ok <==> !BatchRefused(child, hash, old(Db(coins, best)))
      ensures ok ==> Db(coins, best) == Batch(child, hash, old(Db(coins, best)))
      ensures !ok ==> coins == old(coins) && best == old(best)
    {
      ok := hash != NULL_HASH;
      if !ok {
        return;
      }
      ghost var was := coins;
      var todo := child;
      while todo != map[]
        invariant WrittenSoFar(child, todo, was, coins)
        decreases |todo|
      {
        var o :| o in todo;
        ghost var before := coins;
        if todo[o].isDirty {
          if todo[o].coin.IsSpent() {
            coins := coins - {o};
          } else {
            coins := coins[o := todo[o].coin];
          }
        }
        forall p ensures WrittenAt(child, todo - {o}, was, coins, p) {
          assert WrittenAt(child, todo, was, before, p);
        }
        todo := todo - {o};
      }
      best := hash;
      WrittenAll(child, was, coins);
    }
  }

  function CoinAt(m: CoinMap, o: OutPoint): Option<Coin> {
    if o in m then Some(m[o]) else None
  }

  ghost predicate WrittenAt(child: EntryMap, todo: EntryMap, was: CoinMap, now: CoinMap, o: OutPoint) {
    && (o in todo ==> o in child && todo[o] == child[o])
    && CoinAt(now, o) == if o in child && o !in todo && child[o].isDirty then child[o].Answer() else CoinAt(was, o)
  }

  /** The database once all of `child` but `todo` has been written. */
  ghost predicate WrittenSoFar(child: EntryMap, todo: EntryMap, was: CoinMap, now: CoinMap) {
    forall o {:trigger WrittenAt(child, todo, was, now, o)} :: WrittenAt(child, todo, was, now, o)
  }

  lemma WrittenAll(child: EntryMap, was: CoinMap, now: CoinMap)
    requires WrittenSoFar(child, map[], was, now)
    ensures now == WriteDb(child, was)
  {
    forall o ensures CoinAt(now, o) == CoinAt(WriteDb(child, was), o) {
      assert WrittenAt(child, map[], was, now, o);
    }
    assert now.Keys == WriteDb(child, was).Keys by {
      assert forall o :: o in now <==> CoinAt(now, o).Some?;
      assert forall o :: o in WriteDb(child, was) <==> CoinAt(WriteDb(child, was), o).Some?;
    }
    forall o | o in now ensures now[o] == WriteDb(child, was)[o] {
      assert CoinAt(now, o) == CoinAt(WriteDb(child, was), o);
    }
  }

  /** The polymorphic CCoinsView pointer of a backed view. */
  datatype Base = OnDb(db: CoinsViewDb) | OnCache(cache: CoinsViewCache)

  class CoinsViewCache {
    const base: Base
    var cacheCoins: EntryMap
    var hashBlock: BlockHash
    var cachedCoinsUsage: int
    ghost const Repr: set<object>

    ghost predicate Valid()
      reads this, Repr
      decreases Repr
    {
      && this in Repr
      && match base
         case OnDb(db) => db in Repr
         case OnCache(c) => c in Repr && c.Repr < Repr && this !in c.Repr && c.Valid()
    }

    /** The value of the whole stack under and including this cache. */
    ghost function Model(): CacheView
      requires Valid()
      reads this, Repr
      decreases Repr
    {
      Cache(cacheCoins, cachedCoinsUsage, hashBlock,
        match base
        case OnDb(db) => Db(db.coins, db.best)
        case OnCache(c) => c.Model())
    }

    constructor (base: Base)
      requires base.OnCache? ==> base.cache.Valid()
      ensures Valid() && this.base == base
      ensures base.OnDb? ==> Model() == Cache(map[], 0, NULL_HASH, Db(base.db.coins, base.db.best))
      ensures base.OnCache? ==> Model() == Cache(map[], 0, NULL_HASH, base.cache.Model())
    {
      this.base := base;
      cacheCoins, hashBlock, cachedCoinsUsage := map[], NULL_HASH, 0;
      Repr := {this} + if base.OnDb? then {base.db} else base.cache.Repr;
    }

    method FetchCoin(o: OutPoint) returns (found: bool)
      requires Valid()
      modifies Repr
      ensures Valid() && Model() == Fetch(old(Model()), o)
      ensures found <==> o in cacheCoins
      decreases Repr, 0
    {
      if o in cacheCoins {
        return true;
      }
      var r;
      match base {
        case OnDb(db) => r := if o in db.coins then Some(db.coins[o]) else None;
        case OnCache(c) => r := c.GetCoin(o);
      }
      if r.None? {
        return false;
      }
      var entry := Entry(r.value, false, false);
      if r.value.IsSpent() {
        entry := entry.(isFresh := true);
      }
      cacheCoins := cacheCoins[o := entry];
      cachedCoinsUsage := cachedCoinsUsage + entry.coin.Usage();
      found := true;
    }

    method GetCoin(o: OutPoint) returns (r: Option<Coin>)
      requires Valid()
      modifies Repr
      ensures Valid() && (Model(), r) == Get(old(Model()), o)
      decreases Repr, 1
    {
      var found := FetchCoin(o);
      r := if found && !cacheCoins[o].coin.IsSpent() then Some(cacheCoins[o].coin) else None;
    }

    /** HaveCoin answers whether the plain map has the coin. */
    method HaveCoin(o: OutPoint) returns (have: bool)
      requires Valid()
      modifies Repr
      ensures Valid() && Model() == Fetch(old(Model()), o)
      ensures old(Ok(Model())) ==> (have <==> old(Lookup(Model(), o)).Some?)
    {
      ghost var before := Model();
      var found := FetchCoin(o);
      have := found && !cacheCoins[o].coin.IsSpent();
      if Ok(before) {
        FetchAnswers(before, o);
      }
    }

    method AddCoin(o: OutPoint, coin: Coin, overwrite: bool) returns (r: AddResult)
      requires Valid() && !coin.IsSpent()
      modifies this
      ensures Valid() && (Model(), r) == Add(old(Model()), o, coin, overwrite)
    {
      if coin.script.IsUnspendable() {
        return Ignored;
      }
      var inserted := o !in cacheCoins;
      var entry := if inserted then Entry(CLEARED, false, false) else cacheCoins[o];
      var isFresh := false;
      if !inserted {
        cachedCoinsUsage := cachedCoinsUsage - entry.coin.Usage();
      }
      if !overwrite {
        if !entry.coin.IsSpent() {
          return Thrown;
        }
        isFresh := !entry.isDirty;
      }
      cacheCoins := cacheCoins[o := Entry(coin, true, entry.isFresh || isFresh)];
      cachedCoinsUsage := cachedCoinsUsage + coin.Usage();
      r := Added;
    }

    method SpendCoin(o: OutPoint) returns (moveout: Option<Coin>)
      requires Valid()
      modifies Repr
      ensures Valid() && (Model(), moveout) == Spend(old(Model()), o)
    {
      var found := FetchCoin(o);
      if !found {
        return None;
      }
      var entry := cacheCoins[o];
      cachedCoinsUsage := cachedCoinsUsage - entry.coin.Usage();
      if entry.isFresh {
        cacheCoins := cacheCoins - {o};
      } else {
        cacheCoins := cacheCoins[o := Entry(CLEARED, true, false)];
      }
      moveout := Some(entry.coin);
    }

    method Uncache(o: OutPoint)
      requires Valid()
      modifies this
      ensures Valid() && Model() == Coins.Uncache(old(Model()), o)
    {
      if o in cacheCoins && !cacheCoins[o].isDirty && !cacheCoins[o].isFresh {
        cachedCoinsUsage := cachedCoinsUsage - cacheCoins[o].coin.Usage();
        cacheCoins := cacheCoins - {o};
      }
    }

    method GetBestBlock() returns (hash: BlockHash)
      requires Valid()
      modifies Repr
      ensures Valid() && (Model(), hash) == GetBest(old(Model()))
      decreases Repr
    {
      if hashBlock == NULL_HASH {
        var h;
        match base {
          case OnDb(db) => h := db.best;
          case OnCache(c) => h := c.GetBestBlock();
        }
        hashBlock := h;
      }
      hash := hashBlock;
    }

    method SetBestBlock(hash: BlockHash)
      requires Valid()
      modifies `hashBlock
      ensures Valid() && Model() == old(Model()).(best := hash)
    {
      hashBlock := hash;
    }

    /** BatchWrite: the child's map is consumed one entry at a time in any order. When the exception is
        thrown, what was consumed by then is merged, the rest is left to the child, and the best block
        and the views below are untouched. */
    method BatchWrite(child: EntryMap, hash: BlockHash) returns (ok: bool, left: EntryMap)
      requires Valid()
      modifies this
      ensures Valid()
      ensures ok <==> !BatchRefused(child, hash, old(Model()))
      ensures ok ==> Model() == Batch(child, hash, old(Model())) && left == map[]
      ensures ok ==> hashBlock == hash && forall o {:trigger FlagsMerged(child, old(cacheCoins), cacheCoins, o)} ::
        FlagsMerged(child, old(cacheCoins), cacheCoins, o)
      ensures !ok ==> Interrupted(child, left, old(Model()), Model())
    {
      ghost var us, below := cacheCoins, Model().base;
      left := child;
      while left != map[]
        invariant Valid() && Model().base == below && hashBlock == old(hashBlock)
        invariant MergedSoFar(child, left, us, cacheCoins)
        invariant cachedCoinsUsage - TotalUsage(cacheCoins) == old(cachedCoinsUsage) - TotalUsage(us)
        decreases |left|
      {
        var o :| o in left;
        if Misapplied(left, cacheCoins, o) {
          MisappliedEarlier(child, left, us, cacheCoins, o);
          return false, left;
        }
        ghost var was := cacheCoins;
        MergeEntry(o, left[o]);
        MergedStep(child, left, us, was, cacheCoins, o);
        left := left - {o};
      }
      SetBestBlock(hash);
      MergedAll(child, us, cacheCoins);
      MergeFlags(child, us);
      ok := true;
    }

    /** The loop body of BatchWrite for one child entry. */
    method MergeEntry(o: OutPoint, c: Entry)
      requires Valid()
      modifies `cacheCoins, `cachedCoinsUsage
      ensures Valid() && Model().base == old(Model().base)
      ensures EntryAt(cacheCoins, o) == MergeOne(Some(c), old(EntryAt(cacheCoins, o)))
      ensures forall p :: p != o ==> EntryAt(cacheCoins, p) == old(EntryAt(cacheCoins, p))
      ensures FlagsMerged(map[o := c], old(cacheCoins), cacheCoins, o)
      ensures cachedCoinsUsage - TotalUsage(cacheCoins) == old(cachedCoinsUsage - TotalUsage(cacheCoins))
    {
      if !c.isDirty {
        return;
      }
      if o !in cacheCoins {
        if !(c.isFresh && c.coin.IsSpent()) {
          Write(o, Entry(c.coin, true, c.isFresh));
        }
      } else {
        var us := cacheCoins[o];
        if us.isFresh && c.coin.IsSpent() {
          TotalUsageRemove(cacheCoins, o);
          cachedCoinsUsage := cachedCoinsUsage - us.coin.Usage();
          cacheCoins := cacheCoins - {o};
        } else {
          Write(o, Entry(c.coin, true, us.isFresh));
        }
      }
    }

    /** Writes one entry and moves the usage counter with it. */
    method Write(o: OutPoint, e: Entry)
      requires Valid()
      modifies `cacheCoins, `cachedCoinsUsage
      ensures Valid() && Model().base == old(Model().base) && cacheCoins == old(cacheCoins)[o := e]
      ensures cachedCoinsUsage - TotalUsage(cacheCoins) == old(cachedCoinsUsage - TotalUsage(cacheCoins))
    {
      TotalUsageUpdate(cacheCoins, o, e);
      if o in cacheCoins {
        cachedCoinsUsage := cachedCoinsUsage - cacheCoins[o].coin.Usage();
      }
      cacheCoins := cacheCoins[o := e];
      cachedCoinsUsage := cachedCoinsUsage + e.coin.Usage();
    }

    /** Flush: on success the whole stack is exactly the flushed stack. A failed assertion of the database
        changes nothing, and the exception leaves the entries that were not consumed, with the old usage. */
    method Flush() returns (ok: bool)
      requires Valid()
      modifies Repr
      ensures Valid()
      ensures ok <==> !old(BatchRefused(cacheCoins, hashBlock, Model().base))
      ensures ok ==> Model() == Coins.Flush(old(Model()))
      ensures !ok && base.OnDb? ==> Model() == old(Model())
      ensures !ok && base.OnCache? ==>
        && hashBlock == old(hashBlock) && cachedCoinsUsage == old(cachedCoinsUsage)
        && Interrupted(old(cacheCoins), cacheCoins, old(Model().base), Model().base)
    {
      match base {
        case OnDb(db) =>
          ok := db.BatchWrite(cacheCoins, hashBlock);
          if !ok {
            return;
          }
        case OnCache(c) =>
          var left;
          ok, left := c.BatchWrite(cacheCoins, hashBlock);
          if !ok {
            cacheCoins := left;
            return;
          }
      }
      cacheCoins := map[];
      cachedCoinsUsage := 0;
    }
  }

  /** The parent after a batch that stopped with `left` of the child's entries still to do: one of those
      is misapplied. */
  ghost predicate Interrupted(child: EntryMap, left: EntryMap, was: View, now: View) {
    && was.Cache? && now.Cache? && now.base == was.base && now.best == was.best
    && MergedSoFar(child, left, was.entries, now.entries)
    && now.usage - TotalUsage(now.entries) == was.usage - TotalUsage(was.entries)
    && exists o :: Misapplied(left, now.entries, o)
  }

  /** The parent's map once all of `child` but `todo` has been taken in without error. */
  ghost predicate MergedSoFar(child: EntryMap, todo: EntryMap, us: EntryMap, now: EntryMap) {
    && (forall o :: o in todo ==> o in child && todo[o] == child[o])
    && (forall o :: o in child && o !in todo ==> !Misapplied(child, us, o))
    && (forall o :: o in child && o !in todo ==> EntryAt(now, o) == MergeAt(child, us, o))
    && (forall o :: o !in child || o in todo ==> EntryAt(now, o) == EntryAt(us, o))
  }

  lemma MisappliedEarlier(child: EntryMap, todo: EntryMap, us: EntryMap, now: EntryMap, o: OutPoint)
    requires MergedSoFar(child, todo, us, now) && Misapplied(todo, now, o)
    ensures Misapplied(child, us, o)
  {
    assert EntryAt(now, o) == EntryAt(us, o);
  }

  lemma MergedStep(child: EntryMap, todo: EntryMap, us: EntryMap, was: EntryMap, now: EntryMap, o: OutPoint)
    requires MergedSoFar(child, todo, us, was) && o in todo && !Misapplied(todo, was, o)
    requires EntryAt(now, o) == MergeOne(Some(todo[o]), EntryAt(was, o))
    requires forall p :: p != o ==> EntryAt(now, p) == EntryAt(was, p)
    ensures MergedSoFar(child, todo - {o}, us, now)
  {
    assert EntryAt(was, o) == EntryAt(us, o);
  }

  lemma MergedAll(child: EntryMap, us: EntryMap, now: EntryMap)
    requires MergedSoFar(child, map[], us, now)
    ensures now == Merge(child, us)
    ensures forall o :: !Misapplied(child, us, o)
  {
    forall o ensures EntryAt(now, o) == EntryAt(Merge(child, us), o) {
      assert EntryAt(now, o) == MergeAt(child, us, o);
    }
    assert now.Keys == Merge(child, us).Keys by {
      assert forall o :: o in now <==> EntryAt(now, o).Some?;
      assert forall o :: o in Merge(child, us) <==> EntryAt(Merge(child, us), o).Some?;
    }
    forall o | o in now ensures now[o] == Merge(child, us)[o] {
      assert EntryAt(now, o) == EntryAt(Merge(child, us), o);
    }
  }

  /** What a transaction's spendable outputs make of one answer of the view. */
  ghost function WithOutputs(below: Option<Coin>, p: OutPoint, txid: nat, outs: seq<Coin>): Option<Coin> {
    if p.txid == txid && p.n < |outs| && !outs[p.n].script.IsUnspendable() then Some(outs[p.n]) else below
  }

  /** None of the transaction's outputs is in the view. */
  ghost predicate AllAbsent(v: View, txid: nat, n: nat) {
    forall i :: 0 <= i < n ==> Lookup(v, OutPoint(txid, i)) == None
  }

  /** AddCoins with the asset hooks off.  It never throws and the stack stays right when `check` is set,
      for then each call tells AddCoin the truth about overwriting; for a coinbase, where overwriting is
      always admitted; and when none of the outputs is there already. */
  method AddCoins(cache: CoinsViewCache, txid: nat, outs: seq<Coin>, coinBase: bool, check: bool) returns (thrown: bool)
    requires cache.Valid() && forall c :: c in outs ==> !c.IsSpent()
    modifies cache.Repr
    ensures cache.Valid()
    ensures old(Ok(cache.Model())) && (check || coinBase || old(AllAbsent(cache.Model(), txid, |outs|))) ==>
      && !thrown && Ok(cache.Model())
      && forall p :: Lookup(cache.Model(), p) == WithOutputs(old(Lookup(cache.Model(), p)), p, txid, outs)
  {
    ghost var before := cache.Model();
    ghost var safe := Ok(before) && (check || coinBase || AllAbsent(before, txid, |outs|));
    for i := 0 to |outs|
      invariant cache.Valid()
      invariant safe ==>
        && Ok(cache.Model())
        && forall p :: Lookup(cache.Model(), p) == WithOutputs(Lookup(before, p), p, txid, outs[..i])
    {
      var o := OutPoint(txid, i);
      var overwrite := coinBase;
      ghost var v0 := cache.Model();
      if check {
        overwrite := cache.HaveCoin(o);
      }
      ghost var v1 := cache.Model();
      var r := cache.AddCoin(o, outs[i], overwrite);
      if safe {
        AddToldRight(v0, v1, o, outs[i], overwrite, check);
      }
      if r == Thrown {
        return true;
      }
    }
    assert outs[..|outs|] == outs;
    thrown := false;
  }

  /** AddCoin that is told the truth about overwriting, or more. */
  lemma AddToldRight(v0: CacheView, v1: CacheView, o: OutPoint, c: Coin, overwrite: bool, checked: bool)
    requires Ok(v0) && v1 == (if checked then Fetch(v0, o) else v0) && (!overwrite ==> Lookup(v0, o) == None)
    requires !c.IsSpent()
    ensures var (v2, r) := Add(v1, o, c, overwrite);
            && r != Thrown && Ok(v2)
            && forall p :: Lookup(v2, p) == if p == o && !c.script.IsUnspendable() then Some(c) else Lookup(v0, p)
  {
    FetchAnswers(v0, o);
    assert Ok(v1) && forall p :: Lookup(v0, p) == Lookup(v1, p);
    var v2 := Add(v1, o, c, overwrite).0;
    if !c.script.IsUnspendable() {
      if o in v1.entries {
        assert EntryOk(v1.entries[o], Lookup(v1.base, o));
      }
      AddAnswers(v1, o, c, overwrite);
    }
  }
}
