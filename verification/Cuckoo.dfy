/** The cuckoo cache of src/cuckoocache.h: slots, live elements and epochs. */
module Cuckoo {
  import opened Integers

  type Element = nat

  const HASHES := 8

  type uint32 = h: nat | h < 0x1_0000_0000

  /** The table, the collection flags (true: may be overwritten) and the epoch flags. */
  datatype Cells = Cells(table: seq<Element>, garbage: seq<bool>, recent: seq<bool>) {
    ghost predicate Sized(size: nat) {
      |table| == |garbage| == |recent| == size
    }

    /** An element written to a slot, to be kept. */
    function Put(i: nat, e: Element, epoch: bool): Cells
      requires Sized(|table|) && i < |table|
    {
      Cells(table[i := e], garbage[i := false], recent[i := epoch])
    }
  }

  // ----- Hashed slots -----

  datatype Hasher = Hasher(hash: (int, Element) -> uint32, size: nat) {
    /** A 32-bit hash scaled to the table. */
    function Loc(e: Element, k: int): (loc: nat)
      requires size > 0
      ensures loc < size
    {
      ScaledBelow(hash(k, e), size);
      hash(k, e) * size / 0x1_0000_0000
    }

    function Locs(e: Element): (locs: seq<nat>)
      requires size > 0
      ensures |locs| == 8 && forall k :: 0 <= k < 8 ==> locs[k] == Loc(e, k)
    {
      seq(HASHES, k => Loc(e, k))
    }
  }

  lemma ScaledBelow(h: uint32, size: nat)
    requires size > 0
    ensures 0 <= h * size / 0x1_0000_0000 < size
  {
    assert h * size <= 0xFFFF_FFFF * size;
  }

  /** The first place of loc from k on, or the end. */
  function IndexFrom(locs: seq<nat>, loc: int, k: nat): (i: nat)
    requires k <= |locs|
    ensures k <= i <= |locs| && (i < |locs| ==> locs[i] == loc) && forall j :: k <= j < i ==> locs[j] != loc
    decreases |locs| - k
  {
    if k == |locs| || locs[k] == loc then k else IndexFrom(locs, loc, k + 1)
  }

  /** The slot to swap with: the one after the slot swapped last, and the second one at first. */
  function NextOf(h: Hasher, e: Element, lastLoc: int): (loc: nat)
    requires h.size > 0
    ensures loc in h.Locs(e)
  {
    h.Locs(e)[(1 + IndexFrom(h.Locs(e), lastLoc, 0)) % 8]
  }

  ghost predicate Homed(h: Hasher, c: Cells, i: int)
    requires h.size > 0 && c.Sized(h.size)
  {
    0 <= i < h.size && !c.garbage[i] ==> i in h.Locs(c.table[i])
  }

  /** Every live element sits in one of its hashed slots. */
  ghost predicate AllHomed(h: Hasher, c: Cells) {
    h.size > 0 && c.Sized(h.size) && forall i {:trigger Homed(h, c, i)} :: Homed(h, c, i)
  }

  lemma PutHomed(h: Hasher, c: Cells, i: nat, e: Element, epoch: bool)
    requires AllHomed(h, c) && i < h.size && i in h.Locs(e)
    ensures AllHomed(h, c.Put(i, e, epoch))
  {
    var c' := c.Put(i, e, epoch);
    forall j ensures Homed(h, c', j) {
      assert Homed(h, c, j);
    }
  }

  /** Marking slots as collectable and demoting epochs moves nothing. */
  lemma CollectHomed(h: Hasher, c: Cells, c': Cells)
    requires AllHomed(h, c) && c'.Sized(h.size) && c'.table == c.table
    requires forall i :: 0 <= i < h.size ==> (c.garbage[i] ==> c'.garbage[i])
    ensures AllHomed(h, c')
  {
    forall j ensures Homed(h, c', j) {
      assert Homed(h, c, j);
    }
  }

  // ----- Where an element goes -----

  /** The first of the element's slots, from the k-th on, that may be overwritten, or 8. */
  function FirstFree(h: Hasher, c: Cells, e: Element, k: nat): (i: nat)
    requires h.size > 0 && c.Sized(h.size) && k <= 8
    ensures k <= i <= 8 && (i < 8 ==> c.garbage[h.Loc(e, i)]) && forall j :: k <= j < i ==> !c.garbage[h.Loc(e, j)]
    decreases |h.Locs(e)| - k
  {
    if k == 8 || c.garbage[h.Loc(e, k)] then k else FirstFree(h, c, e, k + 1)
  }

  /** Placing an element with at most `depth` attempts: into its first free slot, or else in the place of
      another element, which then has to be placed.  What is in the hand at the end is lost. */
  ghost function Kicked(h: Hasher, c: Cells, e: Element, epoch: bool, lastLoc: int, depth: nat): (r: (Cells, Hand))
    requires h.size > 0 && c.Sized(h.size)
    ensures r.0.Sized(h.size)
    decreases depth
  {
    var k, loc := FirstFree(h, c, e, 0), NextOf(h, e, lastLoc);
    if depth == 0 then (c, Holding(e, epoch))
    else if k < 8 then (c.Put(h.Loc(e, k), e, epoch), Nothing)
    else Kicked(h, c.Put(loc, e, epoch), c.table[loc], c.recent[loc], loc, depth - 1)
  }

  /** With a free slot nothing is moved and nothing is lost: the element takes one of its own slots that was
      collectable, and every other slot stays. */
  lemma FreeIsTaken(h: Hasher, c: Cells, e: Element, epoch: bool, lastLoc: int, depth: nat, j: nat)
    requires h.size > 0 && c.Sized(h.size) && depth > 0 && j < 8 && c.garbage[h.Loc(e, j)]
    ensures var (c', lost) := Kicked(h, c, e, epoch, lastLoc, depth);
            lost == Nothing && exists i :: i in h.Locs(e) && c.garbage[i] && c' == c.Put(i, e, epoch)
  {
    var k := FirstFree(h, c, e, 0);
    assert h.Locs(e)[k] in h.Locs(e);
  }

  /** Something is lost only after `depth` swaps, each of an element all of whose slots were in use, and each
      with the slot after the one swapped last. */
  lemma {:induction false} LostAfterSwaps(h: Hasher, c: Cells, e: Element, epoch: bool, lastLoc: int, depth: nat)
      returns (path: seq<nat>)
    requires h.size > 0 && c.Sized(h.size)
    requires Kicked(h, c, e, epoch, lastLoc, depth).1.Holding?
    ensures |path| == depth && AlongPath(h, c, e, epoch, lastLoc, path) == Kicked(h, c, e, epoch, lastLoc, depth)
    ensures BlockedAlong(h, c, e, epoch, lastLoc, path)
    decreases depth
  {
    path := [];
    if depth > 0 {
      var loc := NextOf(h, e, lastLoc);
      var rest := LostAfterSwaps(h, c.Put(loc, e, epoch), c.table[loc], c.recent[loc], loc, depth - 1);
      path := [loc] + rest;
      PathStep(h, c, e, epoch, lastLoc, loc, rest);
    }
  }

  lemma PathStep(h: Hasher, c: Cells, e: Element, epoch: bool, lastLoc: int, loc: nat, rest: seq<nat>)
    requires h.size > 0 && c.Sized(h.size) && loc == NextOf(h, e, lastLoc) && FirstFree(h, c, e, 0) == 8
    requires BlockedAlong(h, c.Put(loc, e, epoch), c.table[loc], c.recent[loc], loc, rest)
    ensures AlongPath(h, c, e, epoch, lastLoc, [loc] + rest) ==
        AlongPath(h, c.Put(loc, e, epoch), c.table[loc], c.recent[loc], loc, rest)
    ensures BlockedAlong(h, c, e, epoch, lastLoc, [loc] + rest)
  {
    assert ([loc] + rest)[1..] == rest;
  }

  /** The cells and the hand after swapping the hand with each slot of the path in turn. */
  ghost function AlongPath(h: Hasher, c: Cells, e: Element, epoch: bool, lastLoc: int, path: seq<nat>): (Cells, Hand)
    requires h.size > 0 && c.Sized(h.size)
    decreases |path|
  {
    if path == [] || path[0] >= h.size then (c, Holding(e, epoch))
    else AlongPath(h, c.Put(path[0], e, epoch), c.table[path[0]], c.recent[path[0]], path[0], path[1..])
  }

  /** At each step the element in the hand has no free slot, and is swapped with the next one of its own. */
  ghost predicate BlockedAlong(h: Hasher, c: Cells, e: Element, epoch: bool, lastLoc: int, path: seq<nat>)
    requires h.size > 0 && c.Sized(h.size)
    decreases |path|
  {
    path != [] ==>
      && (forall j :: 0 <= j < 8 ==> !c.garbage[h.Loc(e, j)]) && path[0] == NextOf(h, e, lastLoc)
      && BlockedAlong(h, c.Put(path[0], e, epoch), c.table[path[0]], c.recent[path[0]], path[0], path[1..])
  }

  // ----- Counting live elements -----

  /** What to count: the copies of one element, or the current epoch. */
  datatype Kind = Of(e: Element) | Current

  predicate Counts(c: Cells, kind: Kind, i: nat)
    requires c.Sized(|c.table|) && i < |c.table|
  {
    !c.garbage[i] && match kind case Of(e) => c.table[i] == e case Current => c.recent[i]
  }

  /** The live elements of a kind among the first n slots. */
  function Live(c: Cells, kind: Kind, n: nat): nat
    requires c.Sized(|c.table|) && n <= |c.table|
  {
    if n == 0 then 0 else Live(c, kind, n - 1) + if Counts(c, kind, n - 1) then 1 else 0
  }

  function Total(c: Cells, kind: Kind): nat
    requires c.Sized(|c.table|)
  {
    Live(c, kind, |c.table|)
  }

  function One(b: bool): nat {
    if b then 1 else 0
  }

  lemma {:induction false} LivePut(c: Cells, kind: Kind, n: nat, i: nat, e: Element, epoch: bool)
    requires c.Sized(|c.table|) && n <= |c.table| && i < |c.table|
    ensures var c' := c.Put(i, e, epoch);
            Live(c', kind, n) == Live(c, kind, n) + if i < n then One(Counts(c', kind, i)) - One(Counts(c, kind, i))
                else 0
  {
    if n > 0 {
      LivePut(c, kind, n - 1, i, e, epoch);
    }
  }

  /** A live element is counted. */
  lemma {:induction false} LiveCounted(c: Cells, kind: Kind, n: nat, i: nat)
    requires c.Sized(|c.table|) && i < n <= |c.table| && Counts(c, kind, i)
    ensures Live(c, kind, n) >= 1
  {
    if i < n - 1 {
      LiveCounted(c, kind, n - 1, i);
    }
  }

  /** Fewer live slots, fewer counted. */
  lemma {:induction false} LiveShrinks(c: Cells, c': Cells, kind: Kind, n: nat)
    requires c.Sized(|c.table|) && c'.Sized(|c.table|) && n <= |c.table|
    requires forall i :: 0 <= i < n && Counts(c', kind, i) ==> Counts(c, kind, i)
    ensures Live(c', kind, n) <= Live(c, kind, n)
  {
    if n > 0 {
      LiveShrinks(c, c', kind, n - 1);
    }
  }

  /** Nothing of a kind is live. */
  lemma {:induction false} LiveNone(c: Cells, kind: Kind, n: nat)
    requires c.Sized(|c.table|) && n <= |c.table| && forall i :: 0 <= i < n ==> !Counts(c, kind, i)
    ensures Live(c, kind, n) == 0
  {
    if n > 0 {
      LiveNone(c, kind, n - 1);
    }
  }

  // ----- What an insertion may lose -----

  /** An element on its way into the table, with its epoch flag. */
  datatype Hand = Nothing | Holding(e: Element, epoch: bool) {
    predicate Has(kind: Kind) {
      Holding? && match kind case Of(x) => e == x case Current => epoch
    }
  }

  ghost predicate Balanced(c: Cells, hand: Hand, c': Cells, hand': Hand, kind: Kind) {
    && c.Sized(|c.table|) && c'.Sized(|c.table|) && |c'.table| == |c.table|
    && Total(c', kind) + One(hand'.Has(kind)) == Total(c, kind) + One(hand.Has(kind))
  }

  /** From c to c', what is live or in the hand stays the same. */
  ghost predicate Conserved(c: Cells, hand: Hand, c': Cells, hand': Hand) {
    forall kind {:trigger Balanced(c, hand, c', hand', kind)} :: Balanced(c, hand, c', hand', kind)
  }

  /** Placing the hand into a free slot. */
  lemma PlaceConserves(c0: Cells, hand0: Hand, c: Cells, hand: Hand, i: nat)
    requires Conserved(c0, hand0, c, hand) && hand.Holding? && c.Sized(|c.table|) && i < |c.table| && c.garbage[i]
    ensures Conserved(c0, hand0, c.Put(i, hand.e, hand.epoch), Nothing)
  {
    var c' := c.Put(i, hand.e, hand.epoch);
    forall kind ensures Balanced(c0, hand0, c', Nothing, kind) {
      assert Balanced(c0, hand0, c, hand, kind);
      LivePut(c, kind, |c.table|, i, hand.e, hand.epoch);
    }
  }

  /** Swapping the hand with a live element. */
  lemma SwapConserves(c0: Cells, hand0: Hand, c: Cells, hand: Hand, i: nat)
    requires Conserved(c0, hand0, c, hand) && hand.Holding? && c.Sized(|c.table|) && i < |c.table| && !c.garbage[i]
    ensures Conserved(c0, hand0, c.Put(i, hand.e, hand.epoch), Holding(c.table[i], c.recent[i]))
  {
    var c', hand' := c.Put(i, hand.e, hand.epoch), Holding(c.table[i], c.recent[i]);
    forall kind ensures Balanced(c0, hand0, c', hand', kind) {
      assert Balanced(c0, hand0, c, hand, kind);
      LivePut(c, kind, |c.table|, i, hand.e, hand.epoch);
    }
  }

  lemma StartConserved(c: Cells, hand: Hand)
    requires c.Sized(|c.table|)
    ensures Conserved(c, hand, c, hand)
  {
    forall kind ensures Balanced(c, hand, c, hand, kind) {
    }
  }

  /** The element is in its k-th slot, and in none before. */
  ghost predicate FoundAt(h: Hasher, table: seq<Element>, e: Element, k: int) {
    && h.size > 0 && |table| == h.size && 0 <= k < 8 && table[h.Loc(e, k)] == e
    && forall j :: 0 <= j < k ==> table[h.Loc(e, j)] != e
  }

  lemma {:induction false} KickedConserves(h: Hasher, c0: Cells, hand0: Hand, c: Cells, e: Element, epoch: bool,
      lastLoc: int, depth: nat)
    requires h.size > 0 && c.Sized(h.size) && Conserved(c0, hand0, c, Holding(e, epoch))
    ensures var (c', lost) := Kicked(h, c, e, epoch, lastLoc, depth); Conserved(c0, hand0, c', lost)
    decreases depth
  {
    if depth > 0 {
      var k, loc := FirstFree(h, c, e, 0), NextOf(h, e, lastLoc);
      if k < 8 {
        PlaceConserves(c0, hand0, c, Holding(e, epoch), h.Loc(e, k));
      } else {
        SwapConserves(c0, hand0, c, Holding(e, epoch), loc);
        KickedConserves(h, c0, hand0, c.Put(loc, e, epoch), c.table[loc], c.recent[loc], loc, depth - 1);
      }
    }
  }

  /** An element found in slot i is kept there and counted to the current epoch. */
  ghost predicate Refreshed(h: Hasher, c: Cells, e: Element, c': Cells, i: nat) {
    h.size > 0 && c.Sized(h.size) && i < h.size && i in h.Locs(e) && c.table[i] == e && c' == c.Put(i, e, true)
  }

  /** What an insertion of e does; `lost` is the element left in the hand, if any. */
  ghost predicate Inserted(h: Hasher, c: Cells, e: Element, c': Cells, lost: Hand) {
    || (lost == Nothing && exists i :: Refreshed(h, c, e, c', i))
    || Conserved(c, Holding(e, true), c', lost)
  }

  /** Just which cells an insertion leaves: an element that is there is refreshed where it is found first, and
      any other is placed, with so many attempts. */
  ghost predicate InsertedExactly(h: Hasher, c: Cells, e: Element, depth: nat, c': Cells, lost: Hand) {
    && h.size > 0 && c.Sized(h.size)
    && (forall k :: FoundAt(h, c.table, e, k) ==> c' == c.Put(h.Loc(e, k), e, true) && lost == Nothing)
    && ((forall k :: 0 <= k < 8 ==> c.table[h.Loc(e, k)] != e) ==> (c', lost) == Kicked(h, c, e, true, -1, depth))
  }

  /** No live element but the new one is gained, at most one is lost counting the new one, and the
      current epoch grows by at most one. */
  lemma InsertLoses(h: Hasher, c: Cells, e: Element, c': Cells, lost: Hand, x: Element)
    requires c.Sized(|c.table|) && c'.Sized(|c'.table|) && Inserted(h, c, e, c', lost)
    ensures Total(c, Of(x)) - One(lost.Has(Of(x))) <= Total(c', Of(x)) <= Total(c, Of(x)) + One(x == e)
    ensures Total(c', Of(e)) + One(lost.Has(Of(e))) >= 1
    ensures Total(c', Current) <= Total(c, Current) + 1
  {
    if Conserved(c, Holding(e, true), c', lost) {
      assert Balanced(c, Holding(e, true), c', lost, Of(x)) && Balanced(c, Holding(e, true), c', lost, Of(e));
      assert Balanced(c, Holding(e, true), c', lost, Current);
    } else {
      var i :| Refreshed(h, c, e, c', i);
      LivePut(c, Of(x), h.size, i, e, true);
      LivePut(c, Current, h.size, i, e, true);
      LiveCounted(c', Of(e), h.size, i);
    }
  }

  // ----- Epochs -----

  /** The current epoch's live elements never outnumber this. */
  function EpochLimit(epochSize: nat): nat {
    epochSize + Max(1, epochSize / 16)
  }

  /** The old epoch may be collected, and the current one becomes the old one. */
  function Aged(c: Cells): Cells
    requires c.Sized(|c.table|)
  {
    Cells(c.table,
          seq(|c.table|, i requires 0 <= i < |c.table| => c.garbage[i] || !c.recent[i]),
          seq(|c.table|, i => false))
  }

  lemma AgedEmpties(c: Cells)
    requires c.Sized(|c.table|)
    ensures Total(Aged(c), Current) == 0
  {
    LiveNone(Aged(c), Current, |c.table|);
  }

  ghost predicate KnownAt(table: seq<Element>, blank: Element, inserted: set<Element>, i: int) {
    0 <= i < |table| ==> table[i] == blank || table[i] in inserted
  }

  /** A table holds only what was inserted, and what a fresh one holds. */
  ghost predicate Known(table: seq<Element>, blank: Element, inserted: set<Element>) {
    forall i {:trigger KnownAt(table, blank, inserted, i)} :: KnownAt(table, blank, inserted, i)
  }

  lemma FreshIsEmpty(h: Hasher, c: Cells, blank: Element)
    requires h.size >= 2 && c.Sized(h.size) && forall i :: 0 <= i < h.size ==> c.garbage[i] && c.table[i] == blank
    ensures AllHomed(h, c) && Known(c.table, blank, {}) && forall kind: Kind :: Total(c, kind) == 0
  {
    forall kind: Kind ensures Total(c, kind) == 0 {
      LiveNone(c, kind, h.size);
    }
  }

  class Cache {
    const h: Hasher
    const epochSize: nat
    const depthLimit: nat
    var table: seq<Element>
    var garbage: seq<bool>
    var recent: seq<bool>
    var counter: nat            // epoch_heuristic_counter
    ghost var inserted: set<Element>
    ghost const blank: Element  // the default element of a fresh table

    ghost function Now(): Cells
      reads this
    {
      Cells(table, garbage, recent)
    }

    /** Live elements are at home, the current epoch is within its limit even after all inserts that
        need no scan, and the table holds only what was inserted. */
    ghost predicate Valid()
      reads this
    {
      && AllHomed(h, Now()) && h.size >= 2 && epochSize >= 1
      && Total(Now(), Current) + counter <= EpochLimit(epochSize)
      && Known(table, blank, inserted)
    }

    /** setup. The depth limit is a floating point logarithm and a parameter here. An epoch is 45 percent
        of the table as long as 45 times the size fits 32 bits. */
    constructor (hash: (int, Element) -> uint32, newSize: uint32, depthLimit: nat, blank: Element)
      ensures Valid() && inserted == {} && h.size == Max(2, newSize) && forall e :: Total(Now(), Of(e)) == 0
      ensures 45 * newSize < 0x1_0000_0000 ==> epochSize == Max(1, 45 * h.size / 100)
    {
      var size := Max(2, newSize);
      this.h, this.depthLimit, this.blank := Hasher(hash, size), depthLimit, blank;
      var t, g, r := seq(size, i => blank), seq(size, i => true), seq(size, i => false);
      table, garbage, recent, inserted := t, g, r, {};
      var epoch := Max(1, 45 * size % 0x1_0000_0000 / 100);
      epochSize, counter := epoch, epoch;
      FreshIsEmpty(Hasher(hash, size), Cells(t, g, r), blank);
    }

    method EpochCheck()
      requires Valid()
      modifies this
      ensures Valid() && table == old(table) && inserted == old(inserted)
      ensures if old(counter) != 0 then Now() == old(Now())
              else Now() == if old(Total(Now(), Current)) >= epochSize then Aged(old(Now())) else old(Now())
      ensures Total(Now(), Current) + 1 + counter <= EpochLimit(epochSize)
      ensures counter == if old(counter) != 0 then old(counter) - 1
                         else var unused := old(Total(Now(), Current));
                              if unused >= epochSize then epochSize
                              else Max(1, Max(epochSize / 16, epochSize - unused))
    {
      if counter != 0 {
        counter := counter - 1;
        return;
      }
      var unused := CountCurrent();
      if unused >= epochSize {
        Age();
        counter := epochSize;
      } else {
        counter := Max(1, Max(epochSize / 16, epochSize - unused));
      }
    }

    method CountCurrent() returns (unused: nat)
      requires Valid()
      ensures unused == Total(Now(), Current)
    {
      unused := 0;
      for i := 0 to h.size
        invariant unused == Live(Now(), Current, i)
      {
        if recent[i] && !garbage[i] {
          unused := unused + 1;
        }
      }
    }

    method Age()
      requires Valid() && counter == 0
      modifies this`garbage, this`recent
      ensures Now() == Aged(old(Now())) && Valid() && Total(Now(), Current) == 0
    {
      ghost var c := Now();
      for i := 0 to h.size
        invariant |garbage| == |recent| == h.size
        invariant forall k :: 0 <= k < h.size ==> garbage[k] == (c.garbage[k] || (k < i && !c.recent[k]))
        invariant forall k :: 0 <= k < h.size ==> recent[k] == (c.recent[k] && k >= i)
      {
        if recent[i] {
          recent := recent[i := false];
        } else {
          garbage := garbage[i := true];
        }
      }
      assert garbage == Aged(c).garbage && recent == Aged(c).recent;
      AgedEmpties(c);
      CollectHomed(h, c, Aged(c));
    }
  
    /** Writes an element of one of its own slots. */
    method Write(i: nat, e: Element, epoch: bool)
      requires AllHomed(h, Now()) && i < h.size && i in h.Locs(e) && (e == blank || e in inserted)
      requires Known(table, blank, inserted)
      modifies this`table, this`garbage, this`recent
      ensures Now() == old(Now()).Put(i, e, epoch) && AllHomed(h, Now())
      ensures Known(table, blank, inserted)
    {
      PutHomed(h, Now(), i, e, epoch);
      table, garbage, recent := table[i := e], garbage[i := false], recent[i := epoch];
      forall k ensures KnownAt(table, blank, inserted, k) {
        assert KnownAt(old(table), blank, inserted, k);
      }
    }

    /** The first of the element's slots that holds it. */
    method Find(e: Element) returns (k: nat)
      requires AllHomed(h, Now())
      ensures k <= HASHES && (k < HASHES ==> table[h.Loc(e, k)] == e)
      ensures forall j :: 0 <= j < k ==> table[h.Loc(e, j)] != e
    {
      k := 0;
      while k < HASHES && table[h.Loc(e, k)] != e
        invariant 0 <= k <= HASHES && forall j :: 0 <= j < k ==> table[h.Loc(e, j)] != e
      {
        k := k + 1;
      }
    }

    /** The first of the element's slots that may be overwritten. */
    method FindFree(e: Element) returns (k: nat)
      requires AllHomed(h, Now())
      ensures k == FirstFree(h, Now(), e, 0)
    {
      k := 0;
      while k < HASHES && !garbage[h.Loc(e, k)]
        invariant 0 <= k <= HASHES && FirstFree(h, Now(), e, k) == FirstFree(h, Now(), e, 0)
      {
        k := k + 1;
      }
    }

    method NextLoc(e: Element, lastLoc: int) returns (loc: nat)
      requires h.size > 0
      ensures loc == NextOf(h, e, lastLoc)
    {
      var locs := h.Locs(e);
      var k := 0;
      while k < HASHES && locs[k] != lastLoc
        invariant 0 <= k <= HASHES && IndexFrom(locs, lastLoc, k) == IndexFrom(locs, lastLoc, 0)
      {
        k := k + 1;
      }
      loc := locs[(1 + k) % HASHES];
    }

    /** The insertion step: at most depthLimit swaps. */
    method Place(e0: Element) returns (ghost lost: Hand)
      requires AllHomed(h, Now()) && e0 in inserted && Known(table, blank, inserted)
      modifies this`table, this`garbage, this`recent
      ensures AllHomed(h, Now()) && Known(table, blank, inserted) && Inserted(h, old(Now()), e0, Now(), lost)
      ensures InsertedExactly(h, old(Now()), e0, depthLimit, Now(), lost)
    {
      ghost var c0 := Now();
      var k := Find(e0);
      if k < HASHES {
        Write(h.Loc(e0, k), e0, true);
        assert Refreshed(h, c0, e0, Now(), h.Loc(e0, k));
        assert FoundAt(h, c0.table, e0, k);
        return Nothing;
      }
      lost := Kick(e0, Kicked(h, c0, e0, true, -1, depthLimit));
      StartConserved(c0, Holding(e0, true));
      KickedConserves(h, c0, Holding(e0, true), c0, e0, true, -1, depthLimit);
    }

    /** The loop that places an element which is not in the table. */
    method Kick(e0: Element, ghost goal: (Cells, Hand)) returns (ghost lost: Hand)
      requires Placing(e0, true, -1, depthLimit, goal)
      modifies this`table, this`garbage, this`recent
      ensures AllHomed(h, Now()) && Known(table, blank, inserted) && goal == (Now(), lost)
    {
      var e, epoch, lastLoc, done, depth := e0, true, -1, false, 0;
      while depth < depthLimit && !done
        invariant depth <= depthLimit
        invariant !done ==> Placing(e, epoch, lastLoc, depthLimit - depth, goal)
        invariant done ==> AllHomed(h, Now()) && Known(table, blank, inserted) && goal == (Now(), Nothing)
      {
        done, e, epoch, lastLoc := KickOnce(e, epoch, lastLoc, depthLimit - depth, goal);
        depth := depth + 1;
      }
      lost := if done then Nothing else Holding(e, epoch);
      if !done {
        NothingLeft(e, epoch, lastLoc, goal);
      }
    }

    lemma NothingLeft(e: Element, epoch: bool, lastLoc: int, goal: (Cells, Hand))
      requires Placing(e, epoch, lastLoc, 0, goal)
      ensures AllHomed(h, Now()) && Known(table, blank, inserted) && goal == (Now(), Holding(e, epoch))
    {
    }

    /** What is still to be done leads to the goal. */
    ghost predicate Placing(e: Element, epoch: bool, lastLoc: int, depth: nat, goal: (Cells, Hand))
      reads this
    {
      && AllHomed(h, Now()) && Known(table, blank, inserted) && (e == blank || e in inserted)
      && goal == Kicked(h, Now(), e, epoch, lastLoc, depth)
    }

    /** One attempt: the element goes into a free slot, or into the next one of its own, whose element is then
        in the hand. */
    method KickOnce(e: Element, epoch: bool, lastLoc: int, ghost depth: nat, ghost goal: (Cells, Hand))
      returns (done: bool, e': Element, epoch': bool, lastLoc': int)
      requires Placing(e, epoch, lastLoc, depth, goal) && depth > 0
      modifies this`table, this`garbage, this`recent
      ensures done ==> AllHomed(h, Now()) && Known(table, blank, inserted) && goal == (Now(), Nothing)
      ensures !done ==> Placing(e', epoch', lastLoc', depth - 1, goal)
    {
      done, e', epoch', lastLoc' := true, e, epoch, lastLoc;
      var k := FindFree(e);
      if k < HASHES {
        Write(h.Loc(e, k), e, epoch);
      } else {
        lastLoc' := NextLoc(e, lastLoc);
        assert KnownAt(table, blank, inserted, lastLoc');
        done, e', epoch' := false, table[lastLoc'], recent[lastLoc'];
        Write(lastLoc', e, epoch);
      }
    }

    /** insert, over every run: the invariant is kept, and after the epoch check at most one live
        element is lost, counting the new one. */
    method Insert(e: Element) returns (ghost checked: Cells, ghost lost: Hand)
      requires Valid()
      modifies this
      ensures Valid() && inserted == old(inserted) + {e}
      ensures checked == if old(counter) == 0 && old(Total(Now(), Current)) >= epochSize then Aged(old(Now()))
                         else old(Now())
      ensures Inserted(h, checked, e, Now(), lost) && InsertedExactly(h, checked, e, depthLimit, Now(), lost)
    {
      EpochCheck();
      checked := Now();
      inserted := inserted + {e};
      forall k ensures KnownAt(table, blank, inserted, k) {
        assert KnownAt(table, blank, old(inserted), k);
      }
      lost := Place(e);
      InsertLoses(h, checked, e, Now(), lost, e);
    }

    /** contains: finds every live element, and nothing that was never inserted. */
    method Contains(e: Element, erase: bool) returns (found: bool)
      requires Valid()
      modifies this`garbage
      ensures Valid() && table == old(table)
      ensures old(Total(Now(), Of(e))) > 0 ==> found
      ensures found ==> e == blank || e in inserted
      ensures found <==> exists k :: 0 <= k < 8 && table[h.Loc(e, k)] == e
      ensures if found && erase then exists k :: FoundAt(h, table, e, k) && garbage == old(garbage)[h.Loc(e, k) := true]
              else garbage == old(garbage)
    {
      var k := Find(e);
      found := k < HASHES;
      ghost var c := Now();
      if Total(c, Of(e)) > 0 {
        var j := LiveFound(h, c, e);
      }
      if found {
        assert FoundAt(h, table, e, k);
        assert KnownAt(table, blank, inserted, h.Loc(e, k));
        if erase {
          garbage := garbage[h.Loc(e, k) := true];
          CollectHomed(h, c, Now());
          LiveShrinks(c, Now(), Current, h.size);
        }
      }
    }
  }

  /** A live element is found in one of its eight slots. */
  lemma LiveFound(h: Hasher, c: Cells, e: Element) returns (k: nat)
    requires AllHomed(h, c) && Total(c, Of(e)) > 0
    ensures k < HASHES && c.table[h.Loc(e, k)] == e
  {
    var i := LiveSlot(c, e, h.size);
    assert Homed(h, c, i);
    k :| 0 <= k < HASHES && h.Locs(e)[k] == i;
  }

  lemma {:induction false} LiveSlot(c: Cells, e: Element, n: nat) returns (i: nat)
    requires c.Sized(|c.table|) && n <= |c.table| && Live(c, Of(e), n) > 0
    ensures i < n && Counts(c, Of(e), i)
  {
    if Counts(c, Of(e), n - 1) {
      i := n - 1;
    } else {
      i := LiveSlot(c, e, n - 1);
    }
  }
}
