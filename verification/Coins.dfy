/** Value model of the UTXO cache stack of src/coins.cpp and src/coins.h.

    A `View` is a stack of write-back caches over a coin database.  Every
    operation of `CCoinsViewCache` is a function on the whole stack, because a
    read through one cache may fill every cache below it. */
module Coins {
  import opened Wrappers

  type Byte = b: nat | b < 256
  type BlockHash = nat

  /** The null uint256, "no best block recorded here". */
  const NULL_HASH: BlockHash := 0

  const OP_RETURN: Byte := 0x6a
  const OP_HEMP_ASSET: Byte := 0xc0
  const MAX_SCRIPT_SIZE := 10000
  const PREVECTOR_DIRECT := 28

  datatype OutPoint = OutPoint(txid: nat, n: nat)

  /** `zeroAsset` stands for the outcome of the asset decoder
      (an asset script carrying amount zero), which is not part of this model. */
  datatype Script = Script(bytes: seq<Byte>, zeroAsset: bool) {
    predicate IsUnspendable() {
      || (|bytes| > 0 && bytes[0] == OP_RETURN)
      || (|bytes| > 0 && bytes[0] == OP_HEMP_ASSET)
      || |bytes| > MAX_SCRIPT_SIZE
      || zeroAsset
    }
  }

  datatype Coin = Coin(value: int, script: Script, coinBase: bool, height: nat) {
    predicate IsSpent() {
      value == -1
    }

    /** memusage::DynamicUsage of the script on a 64-bit platform. */
    function Usage(): nat {
      if |script.bytes| <= PREVECTOR_DIRECT then 0 else (|script.bytes| + 31) / 16 * 16
    }
  }

  /** What `Coin::Clear` and the default constructor leave. */
  const CLEARED := Coin(-1, Script([], false), false, 0)

  datatype Entry = Entry(coin: Coin, isDirty: bool, isFresh: bool) {
    /** The unspent coin this entry answers with, if any. */
    function Answer(): Option<Coin> {
      if coin.IsSpent() then None else Some(coin)
    }
  }

  type CoinMap = map<OutPoint, Coin>
  type EntryMap = map<OutPoint, Entry>

  datatype View =
    | Db(coins: CoinMap, best: BlockHash)
    | Cache(entries: EntryMap, usage: int, best: BlockHash, base: View)

  type CacheView = v: View | v.Cache? witness Cache(map[], 0, NULL_HASH, Db(map[], NULL_HASH))

  // ----- The abstract answer of a view -----

  /** The coin a plain outpoint-to-coin map would hold. */
  ghost function Lookup(v: View, o: OutPoint): Option<Coin> {
    match v
    case Db(coins, _) => if o in coins then Some(coins[o]) else None
    case Cache(entries, _, _, base) => if o in entries then entries[o].Answer() else Lookup(base, o)
  }

  ghost function BestOf(v: View): BlockHash {
    match v
    case Db(_, best) => best
    case Cache(_, _, best, base) => if best == NULL_HASH then BestOf(base) else best
  }

  /** v and w answer every query alike, and so do the views below them. */
  ghost predicate SameAnswers(v: View, w: View) {
    && (forall o: OutPoint :: Lookup(v, o) == Lookup(w, o))
    && BestOf(v) == BestOf(w)
    && (v.Db? <==> w.Db?)
    && (v.Cache? ==> SameAnswers(v.base, w.base))
  }

  // ----- Memory accounting -----

  ghost function TotalUsage(m: EntryMap): nat {
    if m == map[] then 0
    else
      var o :| o in m;
      m[o].coin.Usage() + TotalUsage(m - {o})
  }

  lemma {:induction false} TotalUsageRemove(m: EntryMap, k: OutPoint)
    requires k in m
    ensures TotalUsage(m) == m[k].coin.Usage() + TotalUsage(m - {k})
    decreases |m|
  {
    var o :| o in m && TotalUsage(m) == m[o].coin.Usage() + TotalUsage(m - {o});
    if o != k {
      TotalUsageRemove(m - {o}, k);
      TotalUsageRemove(m - {k}, o);
      assert m - {o} - {k} == m - {k} - {o};
    }
  }

  /** Writing one entry changes the total by exactly that entry's difference. */
  lemma TotalUsageUpdate(m: EntryMap, k: OutPoint, e: Entry)
    ensures TotalUsage(m[k := e]) == TotalUsage(m - {k}) + e.coin.Usage()
    ensures k in m ==> TotalUsage(m) == TotalUsage(m - {k}) + m[k].coin.Usage()
    ensures k !in m ==> m - {k} == m
  {
    TotalUsageRemove(m[k := e], k);
    assert m[k := e] - {k} == m - {k};
    if k in m {
      TotalUsageRemove(m, k);
    } else {
      assert m - {k} == m;
    }
  }

  // ----- The invariant -----

  /** FRESH: the parent has no unspent coin.  Not DIRTY: the entry agrees with the parent.
      FRESH entries are always DIRTY as well. */
  ghost predicate EntryOk(e: Entry, below: Option<Coin>) {
    && (e.isFresh ==> below == None && e.isDirty)
    && (!e.isDirty ==> e.Answer() == below)
  }

  ghost predicate FlagsOk(entries: EntryMap, base: View) {
    forall o :: o in entries ==> EntryOk(entries[o], Lookup(base, o))
  }

  ghost predicate Ok(v: View) {
    match v
    case Db(coins, _) => forall o :: o in coins ==> !coins[o].IsSpent()
    case Cache(entries, usage, _, base) =>
      Ok(base) && FlagsOk(entries, base) && usage == TotalUsage(entries)
  }

  // ----- Operations -----

  /** CCoinsView::GetCoin, answering and filling the caches on the way. */
  function Get(v: View, o: OutPoint): (View, Option<Coin>)
    decreases v, 1
  {
    match v
    case Db(coins, _) => (v, if o in coins then Some(coins[o]) else None)
    case Cache(_, _, _, _) =>
      var v' := Fetch(v, o);
      (v', if o in v'.entries then v'.entries[o].Answer() else None)
  }

  /** CCoinsViewCache::FetchCoin. */
  function Fetch(v: CacheView, o: OutPoint): (v': CacheView)
    decreases v, 0
  {
    if o in v.entries then v
    else
      var (base', r) := Get(v.base, o);
      match r
      case None => v.(base := base')
      case Some(c) =>
        v.(base := base', entries := v.entries[o := Entry(c, false, c.IsSpent())], usage := v.usage + c.Usage())
  }

  /** What AddCoin did: `Added` and `Ignored` return normally, `Thrown` is the logic_error. */
  datatype AddResult = Added | Ignored | Thrown

  /** CCoinsViewCache::AddCoin.  On `Thrown` the usage counter has already been lowered. */
  function Add(v: CacheView, o: OutPoint, c: Coin, overwrite: bool): (CacheView, AddResult)
    requires !c.IsSpent()
  {
    if c.script.IsUnspendable() then (v, Ignored)
    else
      var found := if o in v.entries then v.entries[o] else Entry(CLEARED, false, false);
      var lowered := if o in v.entries then v.usage - found.coin.Usage() else v.usage;
      if !overwrite && !found.coin.IsSpent() then (v.(usage := lowered), Thrown)
      else
        var isFresh := !overwrite && !found.isDirty;
        var e := Entry(c, true, found.isFresh || isFresh);
        (v.(entries := v.entries[o := e], usage := lowered + c.Usage()), Added)
  }

  /** CCoinsViewCache::SpendCoin without the asset hook; the option is the coin moved out. */
  function Spend(v: CacheView, o: OutPoint): (CacheView, Option<Coin>) {
    var v' := Fetch(v, o);
    if o !in v'.entries then (v', None)
    else
      var e := v'.entries[o];
      var entries' := if e.isFresh then v'.entries - {o} else v'.entries[o := Entry(CLEARED, true, e.isFresh)];
      (v'.(entries := entries', usage := v'.usage - e.coin.Usage()), Some(e.coin))
  }

  function Uncache(v: CacheView, o: OutPoint): CacheView {
    if o in v.entries && !v.entries[o].isDirty && !v.entries[o].isFresh then
      v.(entries := v.entries - {o}, usage := v.usage - v.entries[o].coin.Usage())
    else v
  }

  /** CCoinsViewCache::GetBestBlock fills in the hash of every cache that had none. */
  function GetBest(v: View): (View, BlockHash) {
    match v
    case Db(_, best) => (v, best)
    case Cache(_, _, best, base) =>
      if best != NULL_HASH then (v, best)
      else
        var (base', b) := GetBest(base);
        (v.(base := base', best := b), b)
  }

  /** The "FRESH flag misapplied" error condition for one outpoint. */
  predicate Misapplied(child: EntryMap, parent: EntryMap, o: OutPoint) {
    o in child && child[o].isDirty && o in parent && child[o].isFresh && !parent[o].coin.IsSpent()
  }

  /** What the parent cache holds for one outpoint after taking in the child's entry. */
  function MergeOne(child: Option<Entry>, parent: Option<Entry>): Option<Entry> {
    if child.None? || !child.value.isDirty then parent
    else
      var c := child.value;
      match parent
      case None => if c.isFresh && c.coin.IsSpent() then None else Some(Entry(c.coin, true, c.isFresh))
      case Some(p) => if p.isFresh && c.coin.IsSpent() then None else Some(Entry(c.coin, true, p.isFresh))
  }

  function EntryAt(m: EntryMap, o: OutPoint): Option<Entry> {
    if o in m then Some(m[o]) else None
  }

  function MergeAt(child: EntryMap, parent: EntryMap, o: OutPoint): Option<Entry> {
    MergeOne(EntryAt(child, o), EntryAt(parent, o))
  }

  function Merge(child: EntryMap, parent: EntryMap): EntryMap {
    map o | o in child.Keys + parent.Keys && MergeAt(child, parent, o).Some? :: MergeAt(child, parent, o).value
  }

  /** What a batch makes of one outpoint, told by flags. An entry the child did not change changes nothing. One
      it created since its last flush is as new to a parent without an entry, and one created and spent again leaves
      no trace there. The parent's own entry keeps its FRESH flag, and goes when it was FRESH and is now spent. */
  ghost predicate FlagsMerged(child: EntryMap, parent: EntryMap, merged: EntryMap, o: OutPoint) {
    if o !in child || !child[o].isDirty then
      (o in merged <==> o in parent) && (o in parent ==> merged[o] == parent[o])
    else
      && (o in merged ==> merged[o].coin == child[o].coin && merged[o].isDirty)
      && (o !in merged ==> child[o].coin.IsSpent())
      && (o !in parent && child[o].isFresh && child[o].coin.IsSpent() ==> o !in merged)
      && (o !in parent && !(child[o].isFresh && child[o].coin.IsSpent()) ==>
        o in merged && (merged[o].isFresh <==> child[o].isFresh))
      && (o in parent && parent[o].isFresh && child[o].coin.IsSpent() ==> o !in merged)
      && (o in parent && !(parent[o].isFresh && child[o].coin.IsSpent()) ==>
        o in merged && (merged[o].isFresh <==> parent[o].isFresh))
  }

  /** The database writes unspent isDirty coins and erases spent ones. */
  function WriteDb(child: EntryMap, coins: CoinMap): CoinMap {
    map o | o in child.Keys + coins.Keys
        && (if o in child && child[o].isDirty then !child[o].coin.IsSpent() else o in coins)
      :: if o in child && child[o].isDirty then child[o].coin else coins[o]
  }

  /** Why a batch is refused: the logic_error, or the database's assert on a null best block. */
  ghost predicate BatchRefused(child: EntryMap, best: BlockHash, v: View) {
    match v
    case Db(_, _) => best == NULL_HASH
    case Cache(entries, _, _, _) => exists o :: Misapplied(child, entries, o)
  }

  /** BatchWrite of a child's entries into its parent view. */
  ghost function Batch(child: EntryMap, best: BlockHash, v: View): View {
    match v
    case Db(coins, _) => Db(WriteDb(child, coins), best)
    case Cache(entries, usage, _, base) =>
      var merged := Merge(child, entries);
      Cache(merged, usage + TotalUsage(merged) - TotalUsage(entries), best, base)
  }

  ghost function Flush(v: CacheView): CacheView {
    Cache(map[], 0, v.best, Batch(v.entries, v.best, v.base))
  }
}
