/**
 * Byte order conversion (include/evrnet/endian.h): the shift-and-mask expressions reverse the bytes.
 */
module Endian {

  function Swap16(x: bv16): bv16 {
    (x << 8) | (x >> 8)
  }

  function Swap32(x: bv32): bv32 {
    (x << 24) | ((x << 8) & 0x00FF0000) | ((x >> 8) & 0x0000FF00) | (x >> 24)
  }

  function Low(x: bv64): bv32 {
    (x & 0xFFFFFFFF) as bv32
  }

  function High(x: bv64): bv32 {
    ((x >> 32) & 0xFFFFFFFF) as bv32
  }

  function Word(high: bv32, low: bv32): bv64 {
    ((high as bv64) << 32) | (low as bv64)
  }

  /** The two halves are swapped as 32-bit values and change places. */
  function Swap64(x: bv64): bv64 {
    Word(Swap32(Low(x)), Swap32(High(x)))
  }

  /** Byte k of a word, counted from the least significant, which a little-endian host stores first. */
  function Byte16(x: bv16, k: nat): bv8
    requires k < 2
  {
    if k == 0 then (x & 0xFF) as bv8 else ((x >> 8) & 0xFF) as bv8
  }

  function Byte32(x: bv32, k: nat): bv8
    requires k < 4
  {
    if k == 0 then (x & 0xFF) as bv8
    else if k == 1 then ((x >> 8) & 0xFF) as bv8
    else if k == 2 then ((x >> 16) & 0xFF) as bv8
    else ((x >> 24) & 0xFF) as bv8
  }

  function Byte64(x: bv64, k: nat): bv8
    requires k < 8
  {
    if k < 4 then Byte32(Low(x), k) else Byte32(High(x), k - 4)
  }

  lemma Swap16Reverses(x: bv16, k: nat)
    requires k < 2
    ensures Byte16(Swap16(x), k) == Byte16(x, 1 - k)
  {
  }

  lemma Swap32Reverses(x: bv32, k: nat)
    requires k < 4
    ensures Byte32(Swap32(x), k) == Byte32(x, 3 - k)
  {
  }

  lemma WordHalves(high: bv32, low: bv32)
    ensures High(Word(high, low)) == high && Low(Word(high, low)) == low
  {
  }

  lemma HalvesWord(x: bv64)
    ensures Word(High(x), Low(x)) == x
  {
  }

  lemma Swap64Reverses(x: bv64, k: nat)
    requires k < 8
    ensures Byte64(Swap64(x), k) == Byte64(x, 7 - k)
  {
    WordHalves(Swap32(Low(x)), Swap32(High(x)));
    if k < 4 {
      Swap32Reverses(High(x), k);
    } else {
      Swap32Reverses(Low(x), k - 4);
    }
  }

  lemma Swap32Twice(x: bv32)
    ensures Swap32(Swap32(x)) == x
  {
  }

  /** Converting to network order and back is the identity. */
  lemma Swap64Twice(x: bv64)
    ensures Swap64(Swap64(x)) == x
  {
    var lo, hi := Low(x), High(x);
    WordHalves(Swap32(lo), Swap32(hi));
    Swap32Twice(lo);
    Swap32Twice(hi);
    assert Swap64(Swap64(x)) == Word(hi, lo);
    HalvesWord(x);
  }
}
