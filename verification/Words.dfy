/**
 * Integers in the memory of a little-endian host: the bytes of a word, and what converting the word
 * (include/evrnet/endian.h) makes of them.
 */
module Words {
  import opened Endian
  import opened EntryLayout

  // ---------------------------------------------------------------- numbers and bits of a byte

  function HalfBits(n: nat): (v: bv8)
    requires n < 16
    ensures v < 16 && HalfValue(v) == n
  {
    if n == 0 then 0
    else if n == 1 then 1
    else if n == 2 then 2
    else if n == 3 then 3
    else if n == 4 then 4
    else if n == 5 then 5
    else if n == 6 then 6
    else if n == 7 then 7
    else if n == 8 then 8
    else if n == 9 then 9
    else if n == 10 then 10
    else if n == 11 then 11
    else if n == 12 then 12
    else if n == 13 then 13
    else if n == 14 then 14
    else 15
  }

  function HalfValue(v: bv8): (n: nat)
    ensures n < 16
  {
    if v == 0 then 0
    else if v == 1 then 1
    else if v == 2 then 2
    else if v == 3 then 3
    else if v == 4 then 4
    else if v == 5 then 5
    else if v == 6 then 6
    else if v == 7 then 7
    else if v == 8 then 8
    else if v == 9 then 9
    else if v == 10 then 10
    else if v == 11 then 11
    else if v == 12 then 12
    else if v == 13 then 13
    else if v == 14 then 14
    else 15
  }

  /** The bits of a byte, by its halves. */
  function Bits(b: Byte): bv8 {
    (HalfBits(b / 16) << 4) | HalfBits(b % 16)
  }

  /** The number a byte stands for. */
  function Value(v: bv8): Byte {
    HalfValue(v >> 4) * 16 + HalfValue(v & 0xF)
  }

  lemma Halves(high: bv8, low: bv8)
    requires high < 16 && low < 16
    ensures ((high << 4) | low) >> 4 == high && ((high << 4) | low) & 0xF == low
  {
  }

  lemma BitsBack(b: Byte)
    ensures Value(Bits(b)) == b
  {
    Halves(HalfBits(b / 16), HalfBits(b % 16));
  }

  // ---------------------------------------------------------------- words

  /** The word stored in two bytes, the least significant first. */
  function Word16(b0: Byte, b1: Byte): bv16 {
    (Bits(b1) as bv16 << 8) | Bits(b0) as bv16
  }

  function Word32(b0: Byte, b1: Byte, b2: Byte, b3: Byte): bv32 {
    Joined32(Bits(b0), Bits(b1), Bits(b2), Bits(b3))
  }

  function Joined32(b0: bv8, b1: bv8, b2: bv8, b3: bv8): bv32 {
    (b3 as bv32 << 24) | (b2 as bv32 << 16) | (b1 as bv32 << 8) | b0 as bv32
  }

  lemma Joined32Bytes(b0: bv8, b1: bv8, b2: bv8, b3: bv8)
    ensures var w := Joined32(b0, b1, b2, b3);
      Byte32(w, 0) == b0 && Byte32(w, 1) == b1 && Byte32(w, 2) == b2 && Byte32(w, 3) == b3
  {
  }

  lemma Joined16Bytes(b0: bv8, b1: bv8)
    ensures var w := (b1 as bv16 << 8) | b0 as bv16; Byte16(w, 0) == b0 && Byte16(w, 1) == b1
  {
  }

  /** A word of eight bytes is stored as its low half and then its high half. */
  function Word64(low: bv32, high: bv32): bv64 {
    Word(high, low)
  }

  /** Swapping the word exchanges the two bytes. */
  lemma Swap16InMemory(b0: Byte, b1: Byte)
    ensures var w := Swap16(Word16(b0, b1)); Value(Byte16(w, 0)) == b1 && Value(Byte16(w, 1)) == b0
  {
    var w := Word16(b0, b1);
    Joined16Bytes(Bits(b0), Bits(b1));
    Swap16Reverses(w, 0);
    Swap16Reverses(w, 1);
    BitsBack(b0);
    BitsBack(b1);
  }

  /** Swapping the word reverses the four bytes. */
  lemma Swap32InMemory(b0: Byte, b1: Byte, b2: Byte, b3: Byte)
    ensures var w := Swap32(Word32(b0, b1, b2, b3));
      Value(Byte32(w, 0)) == b3 && Value(Byte32(w, 1)) == b2 && Value(Byte32(w, 2)) == b1 && Value(Byte32(w, 3)) == b0
  {
    var w := Word32(b0, b1, b2, b3);
    Joined32Bytes(Bits(b0), Bits(b1), Bits(b2), Bits(b3));
    Swap32Reverses(w, 0);
    Swap32Reverses(w, 1);
    Swap32Reverses(w, 2);
    Swap32Reverses(w, 3);
    BitsBack(b0);
    BitsBack(b1);
    BitsBack(b2);
    BitsBack(b3);
  }

  /** Swapping a word of eight bytes stores its high half, swapped, before its low half, swapped. */
  lemma Swap64Halves(low: bv32, high: bv32)
    ensures Low(Swap64(Word64(low, high))) == Swap32(high) && High(Swap64(Word64(low, high))) == Swap32(low)
  {
    WordHalves(high, low);
    WordHalves(Swap32(low), Swap32(high));
  }

  // ---------------------------------------------------------------- numbers

  /** The number whose least significant byte comes first. */
  function LoadLE(b: seq<Byte>): nat {
    if b == [] then 0 else b[0] + 256 * LoadLE(b[1..])
  }

  /** The number whose most significant byte comes first: network order. */
  function LoadBE(b: seq<Byte>): nat {
    if b == [] then 0 else 256 * LoadBE(b[..|b| - 1]) + b[|b| - 1]
  }

  /** The reversed bytes denote in one order what the bytes denote in the other. */
  lemma {:induction false} OppositeOrders(b: seq<Byte>, r: seq<Byte>)
    requires |r| == |b| && forall k :: 0 <= k < |b| ==> r[k] == b[|b| - 1 - k]
    ensures LoadBE(r) == LoadLE(b)
  {
    if b != [] {
      OppositeOrders(b[1..], r[..|r| - 1]);
    }
  }
}
