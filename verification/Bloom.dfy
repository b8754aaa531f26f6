/** The rolling bloom filter of src/bloom.cpp. */
module Bloom {

  // ----- 64-bit words, as their bits from the lowest up -----

  const BITS := 64

  type Word = w: seq<bool> | |w| == BITS witness seq(BITS, i => false)

  function And(x: Word, y: Word): Word {
    seq(BITS, i requires 0 <= i < BITS => x[i] && y[i])
  }

  function Or(x: Word, y: Word): Word {
    seq(BITS, i requires 0 <= i < BITS => x[i] || y[i])
  }

  function Xor(x: Word, y: Word): Word {
    seq(BITS, i requires 0 <= i < BITS => x[i] != y[i])
  }

  function Not(x: Word): Word {
    seq(BITS, i requires 0 <= i < BITS => !x[i])
  }

  /** 0 - v for a bit v: all zeros or all ones. */
  function Spread(v: bool): Word {
    seq(BITS, i => v)
  }

  /** v << bit for a bit v. */
  function Shifted(v: bool, bit: nat): Word {
    seq(BITS, i => v && i == bit)
  }

  // ----- Two-bit cells spread over two words -----

  /** Position P of the filter: bit `bit` of the words data[word] and data[word + 1]. */
  datatype Slot = Slot(word: nat, bit: nat)

  ghost predicate SlotOk(d: seq<Word>, s: Slot) {
    s.word % 2 == 0 && s.word + 1 < |d| && s.bit < BITS
  }

  /** The generation number stored in a cell, 0 for none. */
  ghost function GenAt(d: seq<Word>, s: Slot): nat
    requires SlotOk(d, s)
  {
    Number(d[s.word][s.bit], d[s.word + 1][s.bit])
  }

  function Number(low: bool, high: bool): nat {
    (if low then 1 else 0) + (if high then 2 else 0)
  }

  function Low(g: nat): bool {
    g % 2 == 1
  }

  function High(g: nat): bool {
    g / 2 == 1
  }

  /** The words at p and p + 1 with every cell of generation g cleared. */
  function Wiped(p1: Word, p2: Word, g: nat): (Word, Word) {
    var mask := Or(Xor(p1, Spread(Low(g))), Xor(p2, Spread(High(g))));
    (And(p1, mask), And(p2, mask))
  }

  function Put(p: Word, bit: nat, v: bool): Word {
    Or(And(p, Not(Shifted(true, bit))), Shifted(v, bit))
  }

  lemma WipedCell(p1: Word, p2: Word, g: nat, bit: nat)
    requires 1 <= g <= 3 && bit < BITS
    ensures var (q1, q2) := Wiped(p1, p2, g);
            var was := Number(p1[bit], p2[bit]);
            Number(q1[bit], q2[bit]) == if was == g then 0 else was
  {
  }

  lemma PutCell(p1: Word, p2: Word, g: nat, bit: nat, other: nat)
    requires 1 <= g <= 3 && bit < BITS && other < BITS
    ensures Number(Put(p1, bit, Low(g))[other], Put(p2, bit, High(g))[other])
         == if other == bit then g else Number(p1[other], p2[other])
  {
  }

  /** Wiping a generation clears its cells and no other. */
  ghost predicate WipedAt(d: seq<Word>, d': seq<Word>, g: nat, upTo: nat, s: Slot) {
    SlotOk(d, s) && SlotOk(d', s) ==>
      GenAt(d', s) == if s.word < upTo && GenAt(d, s) == g then 0 else GenAt(d, s)
  }

  /** Writing a key's cells changes no other. */
  ghost predicate WrittenAt(d: seq<Word>, d': seq<Word>, g: nat, slots: seq<Slot>, s: Slot) {
    SlotOk(d, s) && SlotOk(d', s) ==> GenAt(d', s) == if s in slots then g else GenAt(d, s)
  }

  /** What one insertion does to a cell: a new generation first clears the cells that bear its
      number, then the key's cells are set to the current generation. */
  ghost predicate InsertedAt(d: seq<Word>, d': seq<Word>, starts: bool, g: nat, slots: seq<Slot>, s: Slot) {
    SlotOk(d, s) && SlotOk(d', s) ==>
      GenAt(d', s) == if s in slots then g else if starts && GenAt(d, s) == g then 0 else GenAt(d, s)
  }

  ghost predicate AllWiped(d: seq<Word>, d': seq<Word>, g: nat, upTo: nat) {
    forall s {:trigger WipedAt(d, d', g, upTo, s)} :: WipedAt(d, d', g, upTo, s)
  }

  ghost predicate AllWritten(d: seq<Word>, d': seq<Word>, g: nat, slots: seq<Slot>) {
    forall s {:trigger WrittenAt(d, d', g, slots, s)} :: WrittenAt(d, d', g, slots, s)
  }

  ghost predicate AllInserted(d: seq<Word>, d': seq<Word>, starts: bool, g: nat, slots: seq<Slot>) {
    forall s {:trigger InsertedAt(d, d', starts, g, slots, s)} :: InsertedAt(d, d', starts, g, slots, s)
  }

  /** A wipe, if a generation starts, and a write make an insertion. */
  lemma InsertedIs(d: seq<Word>, m: seq<Word>, d': seq<Word>, starts: bool, g: nat, slots: seq<Slot>)
    requires |d| == |m| == |d'| && AllWritten(m, d', g, slots) && if starts then AllWiped(d, m, g, |d|) else m == d
    ensures AllInserted(d, d', starts, g, slots)
  {
    forall s ensures InsertedAt(d, d', starts, g, slots, s) {
      assert WrittenAt(m, d', g, slots, s) && (starts ==> WipedAt(d, m, g, |d|, s));
    }
  }

  lemma WipeStep(d: seq<Word>, d': seq<Word>, d'': seq<Word>, g: nat, p: nat)
    requires 1 <= g <= 3 && p % 2 == 0 && p + 1 < |d'| == |d| == |d''|
    requires d'[p] == d[p] && d'[p + 1] == d[p + 1]
    requires d'' == d'[p := Wiped(d[p], d[p + 1], g).0][p + 1 := Wiped(d[p], d[p + 1], g).1]
    requires AllWiped(d, d', g, p)
    ensures var q := p + 2; AllWiped(d, d'', g, q)
  {
    var q := p + 2;
    forall s ensures WipedAt(d, d'', g, q, s) {
      assert WipedAt(d, d', g, p, s);
      if SlotOk(d, s) && s.word == p {
        WipedCell(d[p], d[p + 1], g, s.bit);
      }
    }
  }

  lemma WriteStep(d: seq<Word>, d': seq<Word>, d'': seq<Word>, g: nat, slots: seq<Slot>, s: Slot)
    requires 1 <= g <= 3 && |d| == |d'| && SlotOk(d', s)
    requires d'' == d'[s.word := Put(d'[s.word], s.bit, Low(g))][s.word + 1 := Put(d'[s.word + 1], s.bit, High(g))]
    requires AllWritten(d, d', g, slots)
    ensures var slots' := slots + [s]; AllWritten(d, d'', g, slots')
  {
    var slots' := slots + [s];
    forall t ensures WrittenAt(d, d'', g, slots', t) {
      assert WrittenAt(d, d', g, slots, t);
      if SlotOk(d, t) && t.word == s.word {
        PutCell(d'[s.word], d'[s.word + 1], g, s.bit, t.bit);
      }
    }
  }

  // ----- Which keys the cells still remember -----

  /** The generation before g, counting 1, 2, 3, 1, ... */
  function Before(g: nat): nat {
    if g <= 1 then 3 else g - 1
  }

  /** A cell written in the current generation g or at most `age` generations earlier. */
  predicate Since(cell: nat, g: nat, age: nat) {
    cell == g || (age >= 1 && cell == Before(g)) || (age >= 2 && cell == Before(Before(g)))
  }

  ghost predicate CellHeld(d: seq<Word>, slots: seq<Slot>, g: nat, age: nat, n: int) {
    0 <= n < |slots| ==> SlotOk(d, slots[n]) && Since(GenAt(d, slots[n]), g, age)
  }

  /** Every cell of a key was written since the key was. */
  ghost predicate KeyHeld(d: seq<Word>, slots: seq<Slot>, g: nat, age: nat) {
    forall n {:trigger CellHeld(d, slots, g, age, n)} :: CellHeld(d, slots, g, age, n)
  }

  /** Starting the next generation wipes the cells of three generations ago and no younger ones. */
  lemma WipeKeeps(d: seq<Word>, d': seq<Word>, slots: seq<Slot>, g: nat, age: nat)
    requires 1 <= g <= 3 && age <= 1 && |d| == |d'| && KeyHeld(d, slots, Before(g), age)
    requires AllWiped(d, d', g, |d|)
    ensures KeyHeld(d', slots, g, age + 1)
  {
    var older := age + 1;
    forall n ensures CellHeld(d', slots, g, older, n) {
      assert CellHeld(d, slots, Before(g), age, n);
      if 0 <= n < |slots| {
        assert WipedAt(d, d', g, |d|, slots[n]);
      }
    }
  }

  /** Writing one key in the current generation keeps every key that is held. */
  lemma WriteKeeps(d: seq<Word>, d': seq<Word>, slots: seq<Slot>, written: seq<Slot>, g: nat, age: nat)
    requires |d| == |d'| && KeyHeld(d, slots, g, age)
    requires AllWritten(d, d', g, written)
    ensures KeyHeld(d', slots, g, age)
  {
    forall n ensures CellHeld(d', slots, g, age, n) {
      assert CellHeld(d, slots, g, age, n);
      if 0 <= n < |slots| {
        assert WrittenAt(d, d', g, written, slots[n]);
      }
    }
  }

  /** A byte string. */
  type Key = seq<nat>

  /** pos with its lowest bit cleared. */
  function EvenBelow(pos: nat, size: nat): (w: nat)
    requires pos < size && size % 2 == 0
    ensures w % 2 == 0 && w <= pos && w + 1 < size
  {
    pos - pos % 2
  }

  /** The cells of a key: bit h & 0x3F at the even word of (h >> 6) % size, for each 32-bit hash h. */
  datatype Hasher = Hasher(hash: (int, nat, Key) -> nat, nHashFuncs: nat, tweak: nat, size: nat) {
    function SlotFor(key: Key, n: int): (s: Slot)
      requires size > 0 && size % 2 == 0
      ensures s.word % 2 == 0 && s.word + 1 < size && s.bit < BITS
    {
      var h := hash(n, tweak, key);
      Slot(EvenBelow((h / BITS) % size, size), h % BITS)
    }

    function SlotsOf(key: Key): seq<Slot>
      requires size > 0 && size % 2 == 0
    {
      seq(nHashFuncs, n => SlotFor(key, n))
    }
  }

  /** The cells, the current generation number, and the keys inserted since reset split by
      generation: the current one, the two before it, and all earlier ones. */
  datatype Memory = Memory(d: seq<Word>, g: nat, ancient: seq<Key>, older: seq<Key>, previous: seq<Key>,
      current: seq<Key>) {
    function History(): seq<Key> {
      ancient + older + previous + current
    }

    /** The keys the filter is sure to report. */
    function Kept(): seq<Key> {
      older + previous + current
    }
  }

  ghost predicate HeldAt(h: Hasher, d: seq<Word>, g: nat, keys: seq<Key>, age: nat, i: int)
    requires h.size > 0 && h.size % 2 == 0
  {
    0 <= i < |keys| ==> KeyHeld(d, h.SlotsOf(keys[i]), g, age)
  }

  ghost predicate Held(h: Hasher, d: seq<Word>, g: nat, keys: seq<Key>, age: nat)
    requires h.size > 0 && h.size % 2 == 0
  {
    forall i {:trigger HeldAt(h, d, g, keys, age, i)} :: HeldAt(h, d, g, keys, age, i)
  }

  ghost predicate MemoryOk(h: Hasher, perGeneration: nat, m: Memory) {
    && h.size > 0 && h.size % 2 == 0 && |m.d| == h.size && perGeneration > 0
    && 1 <= m.g <= 3 && |m.current| <= perGeneration
    && (m.older != [] ==> |m.previous| == perGeneration) && (m.ancient != [] ==> |m.older| == perGeneration)
    && |m.previous| <= perGeneration && |m.older| <= perGeneration
    && Held(h, m.d, m.g, m.current, 0) && Held(h, m.d, m.g, m.previous, 1) && Held(h, m.d, m.g, m.older, 2)
    && AllCaused(h, m)
  }

  /** The keys inserted in the generation that a cell bears the number of. */
  function KeysOf(m: Memory, cell: nat): seq<Key> {
    if cell == m.g then m.current else if cell == Before(m.g) then m.previous else m.older
  }

  ghost predicate Causes(h: Hasher, keys: seq<Key>, s: Slot, i: int)
    requires h.size > 0 && h.size % 2 == 0
  {
    0 <= i < |keys| && s in h.SlotsOf(keys[i])
  }

  /** A cell that is set was set by a key of its generation. */
  ghost predicate CausedAt(h: Hasher, m: Memory, s: Slot)
    requires h.size > 0 && h.size % 2 == 0
  {
    SlotOk(m.d, s) && GenAt(m.d, s) != 0 ==> exists i :: Causes(h, KeysOf(m, GenAt(m.d, s)), s, i)
  }

  ghost predicate AllCaused(h: Hasher, m: Memory)
    requires h.size > 0 && h.size % 2 == 0
  {
    forall s {:trigger CausedAt(h, m, s)} :: CausedAt(h, m, s)
  }

  lemma BlankCaused(h: Hasher, m: Memory)
    requires h.size > 0 && h.size % 2 == 0 && forall i :: 0 <= i < |m.d| ==> m.d[i] == Spread(false)
    ensures AllCaused(h, m)
  {
    forall s ensures CausedAt(h, m, s) {
    }
  }

  lemma WipeCaused(h: Hasher, m: Memory, m': Memory)
    requires h.size > 0 && h.size % 2 == 0 && AllCaused(h, m) && |m.d| == |m'.d| && 1 <= m'.g <= 3
    requires Before(m'.g) == m.g && m'.older == m.previous && m'.previous == m.current
    requires AllWiped(m.d, m'.d, m'.g, |m.d|)
    ensures AllCaused(h, m')
  {
    forall s ensures CausedAt(h, m', s) {
      assert CausedAt(h, m, s) && WipedAt(m.d, m'.d, m'.g, |m.d|, s);
      if SlotOk(m'.d, s) && GenAt(m'.d, s) != 0 {
        var i :| Causes(h, KeysOf(m, GenAt(m.d, s)), s, i);
        assert Causes(h, KeysOf(m', GenAt(m'.d, s)), s, i);
      }
    }
  }

  lemma WriteCaused(h: Hasher, m: Memory, m': Memory, key: Key)
    requires h.size > 0 && h.size % 2 == 0 && AllCaused(h, m) && |m.d| == |m'.d|
    requires m' == m.(d := m'.d, current := m.current + [key])
    requires var slots := h.SlotsOf(key); AllWritten(m.d, m'.d, m.g, slots)
    ensures AllCaused(h, m')
  {
    forall s ensures CausedAt(h, m', s) {
      assert CausedAt(h, m, s) && WrittenAt(m.d, m'.d, m.g, h.SlotsOf(key), s);
      if SlotOk(m'.d, s) && GenAt(m'.d, s) != 0 {
        var keys := KeysOf(m', GenAt(m'.d, s));
        if s in h.SlotsOf(key) {
          assert keys == m'.current && keys[|m.current|] == key;
          assert Causes(h, keys, s, |m.current|);
        } else {
          var i :| Causes(h, KeysOf(m, GenAt(m.d, s)), s, i);
          assert Causes(h, keys, s, i);
        }
      }
    }
  }

  lemma WipeKeepsAll(h: Hasher, d: seq<Word>, d': seq<Word>, g: nat, keys: seq<Key>, age: nat)
    requires h.size > 0 && h.size % 2 == 0 && |d| == |d'| && 1 <= g <= 3 && age <= 1
    requires Held(h, d, Before(g), keys, age)
    requires AllWiped(d, d', g, |d|)
    ensures Held(h, d', g, keys, age + 1)
  {
    var older := age + 1;
    forall i ensures HeldAt(h, d', g, keys, older, i) {
      assert HeldAt(h, d, Before(g), keys, age, i);
      if 0 <= i < |keys| {
        WipeKeeps(d, d', h.SlotsOf(keys[i]), g, age);
      }
    }
  }

  lemma WriteKeepsAll(h: Hasher, d: seq<Word>, d': seq<Word>, g: nat, keys: seq<Key>, age: nat, written: seq<Slot>)
    requires h.size > 0 && h.size % 2 == 0 && |d| == |d'|
    requires Held(h, d, g, keys, age)
    requires AllWritten(d, d', g, written)
    ensures Held(h, d', g, keys, age)
  {
    forall i ensures HeldAt(h, d', g, keys, age, i) {
      assert HeldAt(h, d, g, keys, age, i);
      if 0 <= i < |keys| {
        WriteKeeps(d, d', h.SlotsOf(keys[i]), written, g, age);
      }
    }
  }

  /** A full generation becomes the previous one; what is forgotten is three generations old. */
  lemma NextGenerationKeeps(h: Hasher, perGeneration: nat, m: Memory, d': seq<Word>, g: nat)
    requires MemoryOk(h, perGeneration, m) && |m.current| == perGeneration && 1 <= g <= 3 && Before(g) == m.g
    requires |d'| == |m.d| && AllWiped(m.d, d', g, |m.d|)
    ensures var m' := Memory(d', g, m.ancient + m.older, m.previous, m.current, []);
            MemoryOk(h, perGeneration, m') && m'.History() == m.History()
  {
    WipeKeepsAll(h, m.d, d', g, m.previous, 1);
    WipeKeepsAll(h, m.d, d', g, m.current, 0);
    WipeCaused(h, m, Memory(d', g, m.ancient + m.older, m.previous, m.current, []));
  }

  lemma WrittenHeld(d: seq<Word>, d': seq<Word>, g: nat, slots: seq<Slot>)
    requires |d| == |d'| && AllWritten(d, d', g, slots)
    requires forall n :: 0 <= n < |slots| ==> SlotOk(d, slots[n])
    ensures KeyHeld(d', slots, g, 0)
  {
    forall n ensures CellHeld(d', slots, g, 0, n) {
      if 0 <= n < |slots| {
        assert WrittenAt(d, d', g, slots, slots[n]);
      }
    }
  }

  /** A key written in the current generation joins it. */
  lemma WriteKeepsMemory(h: Hasher, perGeneration: nat, m: Memory, d': seq<Word>, key: Key)
    requires MemoryOk(h, perGeneration, m) && |m.current| < perGeneration && |d'| == |m.d|
    requires var slots := h.SlotsOf(key); AllWritten(m.d, d', m.g, slots)
    ensures var m' := m.(d := d', current := m.current + [key]);
            MemoryOk(h, perGeneration, m') && m'.History() == m.History() + [key]
  {
    var slots := h.SlotsOf(key);
    WriteKeepsAll(h, m.d, d', m.g, m.current, 0, slots);
    WriteKeepsAll(h, m.d, d', m.g, m.previous, 1, slots);
    WriteKeepsAll(h, m.d, d', m.g, m.older, 2, slots);
    WrittenHeld(m.d, d', m.g, slots);
    WriteCaused(h, m, m.(d := d', current := m.current + [key]), key);
    var current := m.current + [key];
    forall i ensures HeldAt(h, d', m.g, current, 0, i) {
      assert HeldAt(h, d', m.g, m.current, 0, i);
    }
  }

  /** Every cell of the key is set, as contains tests. */
  ghost predicate Reported(d: seq<Word>, slots: seq<Slot>) {
    forall n {:trigger CellSet(d, slots, n)} :: CellSet(d, slots, n)
  }

  ghost predicate CellSet(d: seq<Word>, slots: seq<Slot>, n: int) {
    0 <= n < |slots| ==> SlotOk(d, slots[n]) && GenAt(d, slots[n]) != 0
  }

  lemma HeldReported(d: seq<Word>, slots: seq<Slot>, g: nat, age: nat)
    requires 1 <= g <= 3 && KeyHeld(d, slots, g, age)
    ensures Reported(d, slots)
  {
    forall n ensures CellSet(d, slots, n) {
      assert CellHeld(d, slots, g, age, n);
    }
  }

  /** All kept keys are reported. */
  lemma KeptReported(h: Hasher, perGeneration: nat, m: Memory, i: nat)
    requires MemoryOk(h, perGeneration, m) && i < |m.Kept()|
    ensures Reported(m.d, h.SlotsOf(m.Kept()[i]))
  {
    var key := m.Kept()[i];
    var k := i - |m.older|;
    assert HeldAt(h, m.d, m.g, m.older, 2, i) && HeldAt(h, m.d, m.g, m.previous, 1, k)
        && HeldAt(h, m.d, m.g, m.current, 0, k - |m.previous|);
    if i < |m.older| {
      HeldReported(m.d, h.SlotsOf(key), m.g, 2);
    } else if k < |m.previous| {
      HeldReported(m.d, h.SlotsOf(key), m.g, 1);
    } else {
      HeldReported(m.d, h.SlotsOf(key), m.g, 0);
    }
  }

  /** No false negatives: of all keys inserted since reset, the last two generations' worth and
      those of the current generation are reported. */
  lemma RecentReported(h: Hasher, perGeneration: nat, m: Memory, i: nat)
    requires MemoryOk(h, perGeneration, m)
    requires |m.History()| - 2 * perGeneration - |m.current| <= i < |m.History()|
    ensures Reported(m.d, h.SlotsOf(m.History()[i]))
  {
    var history, kept := m.History(), m.Kept();
    assert history == m.ancient + kept;
    assert i >= |m.ancient| && history[i] == kept[i - |m.ancient|];
    KeptReported(h, perGeneration, m, i - |m.ancient|);
  }

  /** The n-th cell of the key is one of the last `count` keys' cells. */
  ghost predicate SharedWith(h: Hasher, history: seq<Key>, count: nat, key: Key, n: int)
    requires h.size > 0 && h.size % 2 == 0
  {
    exists i :: |history| - count <= i && Causes(h, history, h.SlotFor(key, n), i)
  }

  ghost predicate AllShared(h: Hasher, history: seq<Key>, count: nat, key: Key)
    requires h.size > 0 && h.size % 2 == 0
  {
    forall n {:trigger SharedWith(h, history, count, key, n)} :: 0 <= n < h.nHashFuncs ==>
      SharedWith(h, history, count, key, n)
  }

  /** Nothing older counts: each cell of a key that is reported is a cell of one of the last three generations'
      worth of keys. */
  lemma OldForgotten(h: Hasher, perGeneration: nat, m: Memory, key: Key, n: nat)
    requires MemoryOk(h, perGeneration, m) && n < h.nHashFuncs && Reported(m.d, h.SlotsOf(key))
    ensures SharedWith(h, m.History(), 3 * perGeneration, key, n)
  {
    var s, history := h.SlotFor(key, n), m.History();
    assert CellSet(m.d, h.SlotsOf(key), n) && CausedAt(h, m, s);
    var keys := KeysOf(m, GenAt(m.d, s));
    var i :| Causes(h, keys, s, i);
    var offset := if keys == m.current then |m.ancient + m.older + m.previous|
      else if keys == m.previous then |m.ancient + m.older| else |m.ancient|;
    assert history[offset + i] == keys[i];
    assert Causes(h, history, s, offset + i);
  }

  lemma AllForgotten(h: Hasher, perGeneration: nat, m: Memory, key: Key)
    requires MemoryOk(h, perGeneration, m) && Reported(m.d, h.SlotsOf(key))
    ensures AllShared(h, m.History(), 3 * perGeneration, key)
  {
    var history, count := m.History(), 3 * perGeneration;
    forall n | 0 <= n < h.nHashFuncs ensures SharedWith(h, history, count, key, n) {
      OldForgotten(h, perGeneration, m, key, n);
    }
  }

  /** Every cell of the filter is that of some hash. */
  lemma CellReached(h: Hasher, key: Key, n: int, d: seq<Word>, s: Slot)
    requires |d| == h.size > 0 && h.size % 2 == 0 && SlotOk(d, s)
    requires h.hash(n, h.tweak, key) == 64 * s.word + s.bit
    ensures h.SlotFor(key, n) == s
  {
    HashParts(s.word, s.bit, h.size);
  }

  lemma HashParts(word: nat, bit: nat, size: nat)
    requires word < size && bit < 64
    ensures (64 * word + bit) / 64 % size == word && (64 * word + bit) % 64 == bit
  {
    assert (64 * word + bit) / 64 == word;
  }

  class RollingBloomFilter {
    const hash: (int, nat, Key) -> nat
    const nHashFuncs: nat
    ghost const nElements: nat
    const nEntriesPerGeneration: nat
    const data: array<Word>
    var nEntriesThisGeneration: nat
    var nGeneration: nat
    var nTweak: nat

    ghost var ancient: seq<Key>
    ghost var older: seq<Key>
    ghost var previous: seq<Key>
    ghost var current: seq<Key>

    function Cells(): Hasher
      reads this
    {
      Hasher(hash, nHashFuncs, nTweak, data.Length)
    }

    ghost function Now(): Memory
      reads this, data
    {
      Memory(data[..], nGeneration, ancient, older, previous, current)
    }

    /** The keys inserted since the last reset, oldest first. */
    ghost function History(): seq<Key>
      reads this, data
    {
      Now().History()
    }

    ghost predicate Sized() {
      data.Length > 0 && data.Length % 2 == 0 && nElements > 0 && nEntriesPerGeneration == (nElements + 1) / 2
    }

    ghost predicate Valid()
      reads this, data
    {
      Sized() && nEntriesThisGeneration == |current| && MemoryOk(Cells(), nEntriesPerGeneration, Now())
    }

    /** Sizes come from floating point formulas and are parameters here. */
    constructor (nElements: nat, hash: (int, nat, Key) -> nat, nHashFuncs: nat, words: nat, tweak: nat)
      requires nElements > 0 && words > 0
      ensures Valid() && History() == [] && fresh(data) && this.nElements == nElements
    {
      this.hash, this.nHashFuncs, nEntriesPerGeneration := hash, nHashFuncs, (nElements + 1) / 2;
      this.nElements := nElements;
      data := new Word[2 * words](i => Spread(false));
      nEntriesThisGeneration, nGeneration, nTweak := 0, 1, tweak;
      ancient, older, previous, current := [], [], [], [];
      new;
      BlankCaused(Cells(), Now());
    }

    method Reset(tweak: nat)
      requires Sized()
      modifies this, data
      ensures Valid() && History() == [] && nTweak == tweak && nGeneration == 1
      ensures forall i :: 0 <= i < data.Length ==> data[i] == Spread(false)
    {
      for i := 0 to data.Length
        invariant forall k :: 0 <= k < i ==> data[k] == Spread(false)
      {
        data[i] := Spread(false);
      }
      nTweak, nEntriesThisGeneration, nGeneration := tweak, 0, 1;
      ancient, older, previous, current := [], [], [], [];
      BlankCaused(Cells(), Now());
    }

    /** Clears every cell of one generation. */
    method Wipe(g: nat)
      requires Sized() && 1 <= g <= 3
      modifies data
      ensures AllWiped(old(data[..]), data[..], g, data.Length)
    {
      ghost var d: seq<Word> := data[..];
      var p := 0;
      while p < data.Length
        invariant p % 2 == 0 && p <= data.Length
        invariant forall i :: p <= i < data.Length ==> data[i] == d[i]
        invariant AllWiped(d, data[..], g, p)
      {
        ghost var d': seq<Word> := data[..];
        var q := Wiped(data[p], data[p + 1], g);
        data[p], data[p + 1] := q.0, q.1;
        assert data[..] == d'[p := q.0][p + 1 := q.1];
        WipeStep(d, d', data[..], g, p);
        p := p + 2;
      }
    }

    /** Writes the current generation into every cell of the key. */
    method Write(key: Key)
      requires Sized() && 1 <= nGeneration <= 3
      modifies data
      ensures var slots := Cells().SlotsOf(key);
              AllWritten(old(data[..]), data[..], nGeneration, slots)
    {
      ghost var d: seq<Word> := data[..];
      ghost var all := Cells().SlotsOf(key);
      ghost var slots: seq<Slot> := [];
      for n := 0 to nHashFuncs
        invariant slots == all[..n]
        invariant AllWritten(d, data[..], nGeneration, slots)
      {
        var s := Cells().SlotFor(key, n);
        ghost var d': seq<Word> := data[..];
        data[s.word] := Put(data[s.word], s.bit, Low(nGeneration));
        data[s.word + 1] := Put(data[s.word + 1], s.bit, High(nGeneration));
        WriteStep(d, d', data[..], nGeneration, slots, s);
        slots := slots + [s];
        assert all[..n + 1] == all[..n] + [s];
      }
      assert slots == all;
    }

    method StartGeneration()
      requires Valid() && nEntriesThisGeneration == nEntriesPerGeneration
      modifies this, data
      ensures Valid() && nEntriesThisGeneration == 0 && History() == old(History()) && nTweak == old(nTweak)
      ensures nGeneration == old(nGeneration) % 3 + 1
      ensures AllWiped(old(data[..]), data[..], nGeneration, data.Length)
    {
      var g := if nGeneration == 3 then 1 else nGeneration + 1;
      Wipe(g);
      NextGenerationKeeps(Cells(), nEntriesPerGeneration, old(Now()), data[..], g);
      nEntriesThisGeneration, nGeneration := 0, g;
      ancient, older, previous, current := ancient + older, previous, current, [];
    }

    method Insert(key: Key)
      requires Valid()
      modifies this, data
      ensures Valid() && History() == old(History()) + [key] && nTweak == old(nTweak)
      ensures var starts := old(nEntriesThisGeneration) == nEntriesPerGeneration;
              && nGeneration == (if starts then old(nGeneration) % 3 + 1 else old(nGeneration))
              && nEntriesThisGeneration == (if starts then 1 else old(nEntriesThisGeneration) + 1)
      ensures var starts, slots := old(nEntriesThisGeneration) == nEntriesPerGeneration, Cells().SlotsOf(key);
              AllInserted(old(data[..]), data[..], starts, nGeneration, slots)
    {
      ghost var starts := nEntriesThisGeneration == nEntriesPerGeneration;
      if nEntriesThisGeneration == nEntriesPerGeneration {
        StartGeneration();
      }
      ghost var m := Now();
      nEntriesThisGeneration := nEntriesThisGeneration + 1;
      assert data[..] == m.d;
      Write(key);
      assert nGeneration == m.g && Cells() == old(Cells());
      InsertedIs(old(data[..]), m.d, data[..], starts, nGeneration, Cells().SlotsOf(key));
      WriteKeepsMemory(Cells(), nEntriesPerGeneration, m, data[..], key);
      current := current + [key];
    }

    /** Reports a key exactly when all its cells are set; so always for the last nElements keys. */
    method Contains(key: Key) returns (found: bool)
      requires Valid()
      ensures found <==> Reported(data[..], Cells().SlotsOf(key))
      ensures forall i :: 0 <= i < |History()| && i >= |History()| - nElements && History()[i] == key ==> found
      ensures found ==> AllShared(Cells(), History(), 3 * nEntriesPerGeneration, key)
    {
      found := true;
      var n := 0;
      ghost var slots := Cells().SlotsOf(key);
      while n < nHashFuncs && found
        invariant 0 <= n <= nHashFuncs
        invariant found ==> forall k {:trigger CellSet(data[..], slots, k)} :: k < n ==> CellSet(data[..], slots, k)
        invariant !found ==> exists k :: !CellSet(data[..], slots, k)
      {
        var s := Cells().SlotFor(key, n);
        assert slots[n] == s;
        found := Or(data[s.word], data[s.word + 1])[s.bit];
        assert found <==> CellSet(data[..], slots, n);
        n := n + 1;
      }
      forall i | 0 <= i < |History()| && i >= |History()| - nElements && History()[i] == key ensures found {
        RecentReported(Cells(), nEntriesPerGeneration, Now(), i);
      }
      if found {
        AllForgotten(Cells(), nEntriesPerGeneration, Now(), key);
      }
    }
  }
}
