/** bit_packed_atomic_flags of src/cuckoocache.h, used under external synchronisation. */
module CuckooFlags {
  import opened Bytes

  /** The flags stored in bytes, eight to a byte and the lowest bit first. */
  function FlagAt(mem: seq<nat>, s: int): bool {
    0 <= s < 8 * |mem| && BitOf(mem[s / 8], s % 8)
  }

  lemma AllSet(j: nat)
    requires j < 8
    ensures BitOf(0xFF, j)
  {
    assert BitOf(0xFF, 0) && BitOf(0x7F, 0) && BitOf(0x3F, 0) && BitOf(0x1F, 0);
    assert BitOf(0xF, 0) && BitOf(7, 0) && BitOf(3, 0) && BitOf(1, 0);
    assert BitOf(0xFF, j) == if j == 0 then true else BitOf(0x7F, j - 1);
    assert j >= 1 ==> BitOf(0x7F, j - 1) == if j == 1 then true else BitOf(0x3F, j - 2);
    assert j >= 2 ==> BitOf(0x3F, j - 2) == if j == 2 then true else BitOf(0x1F, j - 3);
    assert j >= 3 ==> BitOf(0x1F, j - 3) == if j == 3 then true else BitOf(0xF, j - 4);
    assert j >= 4 ==> BitOf(0xF, j - 4) == if j == 4 then true else BitOf(7, j - 5);
    assert j >= 5 ==> BitOf(7, j - 5) == if j == 5 then true else BitOf(3, j - 6);
    assert j >= 6 ==> BitOf(3, j - 6) == if j == 6 then true else BitOf(1, j - 7);
  }

  class BitPackedFlags {
    var mem: seq<nat>

    /** All flags start out set. */
    constructor (size: nat)
      ensures |mem| == (size + 7) / 8 && forall s :: 0 <= s < 8 * |mem| ==> FlagAt(mem, s)
    {
      var bytes: seq<nat> := seq((size + 7) / 8, i => 0xFF);
      mem := bytes;
      forall s | 0 <= s < 8 * |bytes| ensures FlagAt(bytes, s) {
        AllSet(s % 8);
      }
    }

    method BitSet(s: nat)
      requires s / 8 < |mem|
      modifies this
      ensures |mem| == |old(mem)|
          && forall t {:trigger FlagAt(mem, t)} :: FlagAt(mem, t) == (t == s || FlagAt(old(mem), t))
    {
      forall t: nat ensures BitOf(SetBit(mem[s / 8], s % 8), t % 8) == (t % 8 == s % 8 || BitOf(mem[s / 8], t % 8)) {
        SetBitMeans(mem[s / 8], s % 8, t % 8);
      }
      mem := mem[s / 8 := SetBit(mem[s / 8], s % 8)];
    }

    method BitUnset(s: nat)
      requires s / 8 < |mem|
      modifies this
      ensures |mem| == |old(mem)|
          && forall t {:trigger FlagAt(mem, t)} :: FlagAt(mem, t) == (t != s && FlagAt(old(mem), t))
    {
      forall t: nat ensures BitOf(ClearBit(mem[s / 8], s % 8), t % 8) == (t % 8 != s % 8 && BitOf(mem[s / 8], t % 8)) {
        ClearBitMeans(mem[s / 8], s % 8, t % 8);
      }
      mem := mem[s / 8 := ClearBit(mem[s / 8], s % 8)];
    }
  }
}
