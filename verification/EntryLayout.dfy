/**
 * The packed node entry: where each field lies (include/evrnet/node.h).
 */
module EntryLayout {

  type Byte = b: int | 0 <= b < 256

  // ---------------------------------------------------------------- alignment

  /** The least multiple of 4 that is not below x. */
  function Up4(x: nat): (r: nat)
    ensures x <= r < x + 4 && r % 4 == 0
  {
    x + (4 - x % 4) % 4
  }

  /** The least multiple of 8 that is not below x. */
  function Up8(x: nat): (r: nat)
    ensures x <= r < x + 8 && r % 8 == 0
  {
    x + (8 - x % 8) % 8
  }

  lemma Up8Least(x: nat, m: nat)
    requires m % 8 == 0 && x <= m
    ensures Up8(x) <= m
  {
  }

  datatype WordSize = Word32 | Word64

  /** An unsigned word keeps the remainder. */
  function Wrap(w: WordSize, z: int): nat {
    match w
    case Word32 => z % 0x1_0000_0000
    case Word64 => z % 0x1_0000_0000_0000_0000
  }

  /**
   * What ALIGN4 and ALIGN8 add to their argument x.  The macros do not parenthesise x, so the
   * inner remainder is taken of its last term only: x is first + last in value, while the text
   * computes first + last % k, and the subtraction from k wraps around.
   */
  function Padding4(w: WordSize, first: nat, last: nat): nat {
    Wrap(w, 4 - (first + last % 4)) % 4
  }

  function Padding8(w: WordSize, first: nat, last: nat): nat {
    Wrap(w, 8 - (first + last % 8)) % 8
  }

  /** The wrap-around does not disturb remainders, since 8 divides the word size. */
  lemma WrapRemainder(w: WordSize, z: int)
    ensures Wrap(w, z) % 4 == z % 4 && Wrap(w, z) % 8 == z % 8
  {
    match w
    case Word32 =>
      var q, r := z / 0x1_0000_0000, z % 0x1_0000_0000;
      assert z == 8 * (0x2000_0000 * q) + r;
      Remainder8(0x2000_0000 * q, r);
      Remainder4(0x4000_0000 * q, r);
    case Word64 =>
      var q, r := z / 0x1_0000_0000_0000_0000, z % 0x1_0000_0000_0000_0000;
      assert z == 8 * (0x2000_0000_0000_0000 * q) + r;
      Remainder8(0x2000_0000_0000_0000 * q, r);
      Remainder4(0x4000_0000_0000_0000 * q, r);
  }

  lemma Remainder8(q: int, r: int)
    ensures (8 * q + r) % 8 == r % 8
  {
  }

  /** The missing parentheses and the wrap-around do no harm: the macros pad to the least multiple. */
  lemma Padding4Aligns(w: WordSize, first: nat, last: nat)
    ensures first + last + Padding4(w, first, last) == Up4(first + last)
  {
    var a := first + last % 4;
    WrapRemainder(w, 4 - a);
    Remainder4(last / 4, a);
    assert 4 * (last / 4) + a == first + last;
    Complement4(a, first + last);
  }

  lemma Padding8Aligns(w: WordSize, first: nat, last: nat)
    ensures first + last + Padding8(w, first, last) == Up8(first + last)
  {
    var a := first + last % 8;
    WrapRemainder(w, 8 - a);
    Remainder8(last / 8, a);
    assert 8 * (last / 8) + a == first + last;
    Complement8(a, first + last);
  }

  lemma Remainder4(q: int, r: int)
    ensures (4 * q + r) % 4 == r % 4
  {
  }

  lemma Complement4(a: int, b: nat)
    requires a % 4 == b % 4
    ensures (4 - a) % 4 == (4 - b % 4) % 4
  {
  }

  lemma Complement8(a: int, b: nat)
    requires a % 8 == b % 8
    ensures (8 - a) % 8 == (8 - b % 8) % 8
  {
  }

  // ---------------------------------------------------------------- accessors by address

  /** strlen of the string that starts at offset off; a string never runs past the bytes that are there. */
  function StrLen(m: seq<Byte>, off: nat): (n: nat)
    ensures off <= |m| ==> off + n <= |m|
    decreases |m| - off
  {
    if off >= |m| || m[off] == 0 then 0 else 1 + StrLen(m, off + 1)
  }

  function ByteAt(m: seq<Byte>, off: nat): Byte {
    if off < |m| then m[off] else 0
  }

  /** Memory m begins at the address base; e is the address of an entry in it. */
  datatype Memory = Memory(word: WordSize, base: nat, m: seq<Byte>)
  {
    ghost predicate Holds(e: nat) {
      base % 8 == 0 && base <= e && e % 8 == 0
    }

    function Len(a: nat): nat
      requires base <= a
    {
      StrLen(m, a - base)
    }

    function NodeName(e: nat): nat { e + 4 }

    function NodeIps(e: nat): nat
      requires base <= e
    {
      var first := NodeName(e) + Len(NodeName(e));
      first + 1 + Padding4(word, first, 1)
    }

    function NodeUuid(e: nat): nat
      requires base <= e
    {
      var first, last := NodeIps(e), ByteAt(m, e - base + 2) * 4;
      first + last + Padding8(word, first, last)
    }

    function NodeVersion(e: nat): nat
      requires base <= e
    {
      NodeUuid(e) + 16
    }

    function Cap(e: nat): nat
      requires base <= e
    {
      var first := NodeVersion(e) + Len(NodeVersion(e));
      first + 1 + Padding4(word, first, 1)
    }

    function MemSz(e: nat): nat
      requires base <= e
    {
      Cap(e) + 4
    }

    /** The n-th of the strings that follow one another from address a on. */
    function Follow(a: nat, n: nat): (r: nat)
      requires base <= a
      ensures base <= r
    {
      if n == 0 then a else Follow(a, n - 1) + Len(Follow(a, n - 1)) + 1
    }

    /** The strings name, os, arch, cpu and gpu. */
    function Text(e: nat, n: nat): (a: nat)
      requires base <= e
      ensures base <= a
    {
      Follow(MemSz(e) + 4, n)
    }

    /** The end of the last string relative to e, aligned by the same macro. */
    function Aligned(e: nat): int
      requires base <= e
    {
      var end := Text(e, 4) + Len(Text(e, 4)) + 1;
      end - e + Wrap(word, 8 - (end - e % 8)) % 8
    }

    /** ENTRY_CALC_SIZE, cut to 16 bits. */
    function CalcSize(e: nat): int
      requires base <= e
    {
      Aligned(e) % 65536
    }
  }

  // ---------------------------------------------------------------- the same, relative to the entry

  /** Offsets within the bytes c of one entry. */
  function IpsOff(c: seq<Byte>): nat {
    Up4(4 + StrLen(c, 4) + 1)
  }

  function UuidOff(c: seq<Byte>): nat {
    Up8(IpsOff(c) + ByteAt(c, 2) * 4)
  }

  function VersionOff(c: seq<Byte>): nat {
    UuidOff(c) + 16
  }

  function CapOff(c: seq<Byte>): nat {
    Up4(VersionOff(c) + StrLen(c, VersionOff(c)) + 1)
  }

  function FollowOff(c: seq<Byte>, off: nat, n: nat): nat {
    if n == 0 then off else FollowOff(c, off, n - 1) + StrLen(c, FollowOff(c, off, n - 1)) + 1
  }

  function TextOff(c: seq<Byte>, n: nat): nat {
    FollowOff(c, CapOff(c) + 8, n)
  }

  function EndOff(c: seq<Byte>): nat {
    TextOff(c, 4) + StrLen(c, TextOff(c, 4)) + 1
  }

  /** Each field begins at the first place, aligned as it must be, behind the one before. */
  lemma FieldsAligned(c: seq<Byte>)
    ensures IpsOff(c) % 4 == 0 && 0 <= IpsOff(c) - (4 + StrLen(c, 4) + 1) < 4
    ensures UuidOff(c) % 8 == 0 && 0 <= UuidOff(c) - (IpsOff(c) + ByteAt(c, 2) * 4) < 8
    ensures VersionOff(c) == UuidOff(c) + 16
    ensures CapOff(c) % 4 == 0 && 0 <= CapOff(c) - (VersionOff(c) + StrLen(c, VersionOff(c)) + 1) < 4
    ensures TextOff(c, 0) == CapOff(c) + 8
  {
  }

  lemma {:induction false} StrLenShift(m: seq<Byte>, e: nat, off: nat)
    requires e <= |m|
    ensures StrLen(m[e..], off) == StrLen(m, e + off)
    decreases |m| - off
  {
    if e + off < |m| && m[e + off] != 0 {
      StrLenShift(m, e, off + 1);
    }
  }

  lemma UpShift(base: nat, x: nat)
    requires base % 8 == 0
    ensures Up4(base + x) == base + Up4(x)
    ensures Up8(base + x) == base + Up8(x)
  {
    var q := base / 8;
    assert base == 8 * q && base == 4 * (2 * q);
    Remainder8(q, x);
    Remainder4(2 * q, x);
    assert (base + x) % 8 == x % 8;
    assert (base + x) % 4 == x % 4;
  }

  ghost predicate Inside(mem: Memory, e: nat) {
    mem.Holds(e) && e - mem.base <= |mem.m|
  }

  lemma IpsAddress(mem: Memory, e: nat)
    requires Inside(mem, e)
    ensures mem.NodeIps(e) == e + IpsOff(mem.m[e - mem.base..])
  {
    StrLenShift(mem.m, e - mem.base, 4);
    PaddedAddress4(mem.word, e, 4 + StrLen(mem.m[e - mem.base..], 4), 1);
  }

  lemma UuidAddress(mem: Memory, e: nat)
    requires Inside(mem, e)
    ensures mem.NodeUuid(e) == e + UuidOff(mem.m[e - mem.base..])
  {
    IpsAddress(mem, e);
    var first, last := IpsOff(mem.m[e - mem.base..]), ByteAt(mem.m, e - mem.base + 2) * 4;
    Padding8Aligns(mem.word, e + first, last);
    UpShift(e, first + last);
  }

  lemma CapAddress(mem: Memory, e: nat)
    requires Inside(mem, e)
    ensures mem.Cap(e) == e + CapOff(mem.m[e - mem.base..])
  {
    UuidAddress(mem, e);
    var c := mem.m[e - mem.base..];
    StrLenShift(mem.m, e - mem.base, VersionOff(c));
    assert mem.NodeVersion(e) == e + VersionOff(c) && mem.Len(mem.NodeVersion(e)) == StrLen(c, VersionOff(c));
    PaddedAddress4(mem.word, e, VersionOff(c) + StrLen(c, VersionOff(c)), 1);
  }

  /** Aligning an address within an entry is aligning the offset. */
  lemma PaddedAddress4(w: WordSize, e: nat, first: nat, last: nat)
    requires e % 8 == 0
    ensures e + first + last + Padding4(w, e + first, last) == e + Up4(first + last)
  {
    Padding4Aligns(w, e + first, last);
    UpShift(e, first + last);
  }

  lemma {:induction false} FollowAddress(mem: Memory, e: nat, off: nat, n: nat)
    requires Inside(mem, e)
    ensures mem.Follow(e + off, n) == e + FollowOff(mem.m[e - mem.base..], off, n)
  {
    if n > 0 {
      FollowAddress(mem, e, off, n - 1);
      StrLenShift(mem.m, e - mem.base, FollowOff(mem.m[e - mem.base..], off, n - 1));
    }
  }

  lemma TextAddress(mem: Memory, e: nat, n: nat)
    requires Inside(mem, e)
    ensures mem.Text(e, n) == e + TextOff(mem.m[e - mem.base..], n)
  {
    CapAddress(mem, e);
    FollowAddress(mem, e, CapOff(mem.m[e - mem.base..]) + 8, n);
  }

  /**
   * Every accessor of an 8-aligned entry is the entry's address plus an offset that depends on the
   * entry's own bytes alone.
   */
  lemma AccessorsAreOffsets(mem: Memory, e: nat, n: nat)
    requires Inside(mem, e)
    ensures mem.NodeIps(e) == e + IpsOff(mem.m[e - mem.base..])
    ensures mem.NodeUuid(e) == e + UuidOff(mem.m[e - mem.base..])
    ensures mem.Cap(e) == e + CapOff(mem.m[e - mem.base..])
    ensures mem.Text(e, n) == e + TextOff(mem.m[e - mem.base..], n)
  {
    IpsAddress(mem, e);
    UuidAddress(mem, e);
    CapAddress(mem, e);
    TextAddress(mem, e, n);
  }

  lemma AlignedSize(mem: Memory, e: nat)
    requires Inside(mem, e)
    ensures mem.Aligned(e) == Up8(EndOff(mem.m[e - mem.base..]))
  {
    var c := mem.m[e - mem.base..];
    TextAddress(mem, e, 4);
    StrLenShift(mem.m, e - mem.base, TextOff(c, 4));
    assert mem.Text(e, 4) + mem.Len(mem.Text(e, 4)) + 1 == e + EndOff(c);
    SizeAddress(mem.word, e, EndOff(c));
  }

  /** ENTRY_CALC_SIZE is the low half of the least multiple of 8 that covers the entry: all of it below 64 KiB. */
  lemma CalcSizeCovers(mem: Memory, e: nat)
    requires Inside(mem, e)
    ensures var end := EndOff(mem.m[e - mem.base..]);
      mem.CalcSize(e) == Up8(end) % 65536 && (mem.CalcSize(e) >= end <==> Up8(end) < 65536)
  {
    AlignedSize(mem, e);
    SixteenBits(EndOff(mem.m[e - mem.base..]));
  }

  /** What 16 bits keep of an aligned size. */
  lemma SixteenBits(end: nat)
    ensures Up8(end) % 65536 >= end <==> Up8(end) < 65536
    ensures Up8(end) % 65536 == Up8(end) <==> Up8(end) < 65536
  {
    var up := Up8(end);
    assert up >= 65536 ==> up % 65536 <= up - 65536;
  }

  /** The macro's argument is end - e here, and only e is reduced by the misplaced remainder. */
  lemma SizeAddress(w: WordSize, e: nat, end: nat)
    requires e % 8 == 0
    ensures end + Wrap(w, 8 - (e + end - e % 8)) % 8 == Up8(end)
  {
    WrapRemainder(w, 8 - (e + end));
    Remainder8(e / 8, end);
    Complement8(e + end, end);
  }
}
