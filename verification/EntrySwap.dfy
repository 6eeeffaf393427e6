/**
 * Converting one entry to network order and back, in place, on a little-endian host
 * (NODE_EntryToBE and NODE_EntryToLE in app/node.c), each integer by the expression of module Endian.
 */
module EntrySwap {
  import opened EntryLayout
  import Endian
  import Words

  type Bytes = seq<Byte>

  function NumIps(c: Bytes): nat {
    ByteAt(c, 2)
  }

  /** ENTRY_SIZE in native order. */
  function SizeOf(c: Bytes): nat {
    ByteAt(c, 0) + 256 * ByteAt(c, 1)
  }

  /** Every string of the entry ends inside it. */
  predicate Complete(c: Bytes) {
    EndOff(c) <= |c|
  }

  // ---------------------------------------------------------------- the permutation

  /** The place of byte x in the reversed 4-byte word it belongs to, words beginning at lo. */
  function Turn4(lo: nat, x: nat): nat
    requires lo <= x
  {
    lo + (x - lo) / 4 * 4 + (3 - (x - lo) % 4)
  }

  function Turn8(lo: nat, x: nat): nat
    requires lo <= x
  {
    lo + (x - lo) / 8 * 8 + (7 - (x - lo) % 8)
  }

  /** Where byte x goes, given where the addresses begin and how many they are, the UUID and the capabilities. */
  function Turn(ips: nat, n: nat, uuid: nat, cap: nat, x: nat): nat {
    if ips <= x < ips + n * 4 then Turn4(ips, x)
    else if uuid <= x < uuid + 16 then Turn8(uuid, x)
    else if cap <= x < cap + 8 then Turn4(cap, x)
    else x
  }

  /** Where byte x goes, apart from the size field. */
  function Turned(c: Bytes, x: nat): nat {
    Turn(IpsOff(c), NumIps(c), UuidOff(c), CapOff(c), x)
  }

  function Mirror(c: Bytes, x: nat): nat {
    if x < 2 then 1 - x else Turned(c, x)
  }

  lemma Turn4Twice(lo: nat, n: nat, x: nat)
    requires lo <= x < lo + n * 4
    ensures lo <= Turn4(lo, x) < lo + n * 4 && Turn4(lo, Turn4(lo, x)) == x
  {
  }

  lemma Turn8Twice(lo: nat, x: nat)
    requires lo <= x < lo + 16
    ensures lo <= Turn8(lo, x) < lo + 16 && Turn8(lo, Turn8(lo, x)) == x
  {
  }

  lemma TurnTwice(ips: nat, n: nat, uuid: nat, cap: nat, x: nat)
    requires ips + n * 4 <= uuid && uuid + 16 <= cap
    ensures Turn(ips, n, uuid, cap, Turn(ips, n, uuid, cap, x)) == x
    ensures x < ips ==> Turn(ips, n, uuid, cap, x) == x
    ensures x >= ips ==> Turn(ips, n, uuid, cap, x) >= ips
    ensures x >= cap + 8 ==> Turn(ips, n, uuid, cap, x) == x
    ensures x < cap + 8 ==> Turn(ips, n, uuid, cap, x) < cap + 8
  {
    if ips <= x < ips + n * 4 {
      Turn4Twice(ips, n, x);
    } else if uuid <= x < uuid + 16 {
      Turn8Twice(uuid, x);
    } else if cap <= x < cap + 8 {
      Turn4Twice(cap, 2, x);
    }
  }

  lemma FieldsApart(c: Bytes)
    ensures 4 <= IpsOff(c) && IpsOff(c) + NumIps(c) * 4 <= UuidOff(c) && UuidOff(c) + 16 <= CapOff(c)
    ensures CapOff(c) + 8 <= EndOff(c)
  {
    FollowGrows(c, CapOff(c) + 8, 4);
  }

  lemma {:induction false} FollowGrows(c: Bytes, off: nat, n: nat)
    ensures off <= FollowOff(c, off, n)
  {
    if n > 0 {
      FollowGrows(c, off, n - 1);
    }
  }

  /** The permutation stays inside the entry and undoes itself. */
  lemma MirrorTwice(c: Bytes, x: nat)
    requires Complete(c) && x < |c|
    ensures Mirror(c, x) < |c| && Mirror(c, Mirror(c, x)) == x
    ensures x >= 2 ==> Turned(c, x) >= 2
  {
    FieldsApart(c);
    TurnTwice(IpsOff(c), NumIps(c), UuidOff(c), CapOff(c), x);
  }

  /** The entry in network order: every integer of more than one byte reversed. */
  function SwapEntry(c: Bytes): (d: Bytes)
    requires Complete(c)
    ensures |d| == |c|
  {
    seq(|c|, x requires 0 <= x < |c| => MirrorTwice(c, x); c[Mirror(c, x)])
  }

  // ---------------------------------------------------------------- offsets survive the swap

  /** A byte no conversion touches. */
  predicate Fixed(c: Bytes, x: nat) {
    2 <= x && !(IpsOff(c) <= x < IpsOff(c) + NumIps(c) * 4) && !(UuidOff(c) <= x < UuidOff(c) + 16) &&
    !(CapOff(c) <= x < CapOff(c) + 8)
  }

  /** The same bytes wherever no conversion applies. */
  ghost predicate SameFixed(c: Bytes, d: Bytes) {
    |c| == |d| && forall x: nat :: x < |c| && Fixed(c, x) ==> d[x] == c[x]
  }

  lemma {:induction false} StrLenSame(c: Bytes, d: Bytes, off: nat)
    requires |c| == |d| && forall x: nat :: off <= x <= off + StrLen(c, off) && x < |c| ==> d[x] == c[x]
    ensures StrLen(d, off) == StrLen(c, off)
    decreases |c| - off
  {
    if off < |c| && c[off] != 0 {
      StrLenSame(c, d, off + 1);
    }
  }

  lemma StringSurvives(c: Bytes, d: Bytes, off: nat)
    requires SameFixed(c, d) && forall x: nat :: off <= x <= off + StrLen(c, off) ==> Fixed(c, x)
    ensures StrLen(d, off) == StrLen(c, off)
  {
    StrLenSame(c, d, off);
  }

  lemma HeadSurvives(c: Bytes, d: Bytes)
    requires Complete(c) && SameFixed(c, d)
    ensures IpsOff(d) == IpsOff(c) && NumIps(d) == NumIps(c) && UuidOff(d) == UuidOff(c)
  {
    FieldsApart(c);
    StringSurvives(c, d, 4);
    assert Fixed(c, 2);
  }

  lemma CapSurvives(c: Bytes, d: Bytes)
    requires Complete(c) && SameFixed(c, d)
    ensures CapOff(d) == CapOff(c)
  {
    HeadSurvives(c, d);
    FieldsApart(c);
    StringSurvives(c, d, VersionOff(c));
  }

  lemma EndIsFollow(c: Bytes)
    ensures EndOff(c) == FollowOff(c, CapOff(c) + 8, 5)
  {
  }

  lemma EndSurvives(c: Bytes, d: Bytes)
    requires SameFixed(c, d) && CapOff(d) == CapOff(c)
    ensures EndOff(d) == EndOff(c)
  {
    EndIsFollow(c);
    EndIsFollow(d);
    FollowSame(c, d, 5);
  }

  /** No accessor's offset depends on a converted field. */
  lemma OffsetsSurvive(c: Bytes, d: Bytes)
    requires Complete(c) && SameFixed(c, d)
    ensures IpsOff(d) == IpsOff(c) && NumIps(d) == NumIps(c) && UuidOff(d) == UuidOff(c)
    ensures CapOff(d) == CapOff(c) && EndOff(d) == EndOff(c)
  {
    HeadSurvives(c, d);
    CapSurvives(c, d);
    EndSurvives(c, d);
  }

  lemma {:induction false} FollowSame(c: Bytes, d: Bytes, n: nat)
    requires SameFixed(c, d)
    ensures FollowOff(d, CapOff(c) + 8, n) == FollowOff(c, CapOff(c) + 8, n)
  {
    if n > 0 {
      FollowSame(c, d, n - 1);
      var off := FollowOff(c, CapOff(c) + 8, n - 1);
      FollowGrows(c, CapOff(c) + 8, n - 1);
      FieldsApart(c);
      assert forall x: nat :: off <= x ==> Fixed(c, x);
      StrLenSame(c, d, off);
    }
  }

  lemma SwapSameFixed(c: Bytes)
    requires Complete(c)
    ensures SameFixed(c, SwapEntry(c))
  {
  }

  /** Converting an entry twice restores it. */
  lemma SwapEntryTwice(c: Bytes)
    requires Complete(c)
    ensures Complete(SwapEntry(c)) && SwapEntry(SwapEntry(c)) == c
  {
    var d := SwapEntry(c);
    SwapSameFixed(c);
    OffsetsSurvive(c, d);
    forall x: nat | x < |c|
      ensures SwapEntry(d)[x] == c[x]
    {
      MirrorTwice(c, x);
      assert Mirror(d, x) == Mirror(c, x);
    }
  }

  // ---------------------------------------------------------------- in place

  /** The entry while it is being converted: all of it below cur is done, and the size if done. */
  function Part(c: Bytes, cur: nat, done: bool): (d: Bytes)
    requires Complete(c)
    ensures |d| == |c|
  {
    seq(|c|, x requires 0 <= x < |c| =>
      MirrorTwice(c, x); if (if x < 2 then done else x < cur) then c[Mirror(c, x)] else c[x])
  }

  lemma {:induction false} StrLenPrefix(c: Bytes, m: Bytes, off: nat)
    requires c <= m && off + StrLen(c, off) < |c|
    ensures StrLen(m, off) == StrLen(c, off)
    decreases |c| - off
  {
    assert m[off] == c[off];
    if c[off] != 0 {
      StrLenPrefix(c, m, off + 1);
    }
  }

  /** The accessors do not look past the entry. */
  lemma OffsetsPrefix(c: Bytes, m: Bytes)
    requires Complete(c) && c <= m
    ensures IpsOff(m) == IpsOff(c) && NumIps(m) == NumIps(c) && UuidOff(m) == UuidOff(c) && CapOff(m) == CapOff(c)
  {
    FieldsApart(c);
    StrLenPrefix(c, m, 4);
    assert m[2] == c[2];
    StrLenPrefix(c, m, VersionOff(c));
  }

  /** At every moment of the conversion the accessors point where they did before it. */
  lemma OffsetsDuring(c: Bytes, cur: nat, done: bool, m: Bytes)
    requires Complete(c) && Part(c, cur, done) <= m
    ensures IpsOff(m) == IpsOff(c) && NumIps(m) == NumIps(c) && UuidOff(m) == UuidOff(c) && CapOff(m) == CapOff(c)
  {
    OffsetsSurvive(c, Part(c, cur, done));
    OffsetsPrefix(Part(c, cur, done), m);
  }

  /** No converted field begins between cur and next. */
  lemma PartSkip(c: Bytes, cur: nat, next: nat, done: bool)
    requires Complete(c) && cur <= next
    requires forall x: nat :: cur <= x < next && 2 <= x ==> Turned(c, x) == x
    ensures Part(c, cur, done) == Part(c, next, done)
  {
  }

  lemma PartEnds(c: Bytes)
    requires Complete(c)
    ensures Part(c, 2, false) == c && Part(c, |c|, true) == SwapEntry(c)
  {
  }

  /** The array holds d between pre and post. */
  ghost predicate Region(m: Bytes, pre: Bytes, d: Bytes, post: Bytes) {
    m == pre + d + post
  }

  /** A 32-bit word in memory, swapped as a value. */
  method Reverse4(a: array<Byte>, off: nat)
    requires off + 4 <= a.Length
    modifies a
    ensures forall x: nat :: x < a.Length ==> a[x] == old(a[if off <= x < off + 4 then off + 3 - (x - off) else x])
  {
    var w := Endian.Swap32(Words.Word32(a[off], a[off + 1], a[off + 2], a[off + 3]));
    Words.Swap32InMemory(a[off], a[off + 1], a[off + 2], a[off + 3]);
    StoreWord(a, off, w);
  }

  method StoreWord(a: array<Byte>, off: nat, w: bv32)
    requires off + 4 <= a.Length
    modifies a
    ensures forall x: nat :: x < a.Length && !(off <= x < off + 4) ==> a[x] == old(a[x])
    ensures a[off] == Words.Value(Endian.Byte32(w, 0)) && a[off + 1] == Words.Value(Endian.Byte32(w, 1))
    ensures a[off + 2] == Words.Value(Endian.Byte32(w, 2)) && a[off + 3] == Words.Value(Endian.Byte32(w, 3))
  {
    a[off], a[off + 1] := Words.Value(Endian.Byte32(w, 0)), Words.Value(Endian.Byte32(w, 1));
    a[off + 2], a[off + 3] := Words.Value(Endian.Byte32(w, 2)), Words.Value(Endian.Byte32(w, 3));
  }

  /** A 64-bit word in memory, swapped as a value. */
  method Reverse8(a: array<Byte>, off: nat)
    requires off + 8 <= a.Length
    modifies a
    ensures forall x: nat :: x < a.Length ==> a[x] == old(a[if off <= x < off + 8 then off + 7 - (x - off) else x])
  {
    var low := Words.Word32(a[off], a[off + 1], a[off + 2], a[off + 3]);
    var high := Words.Word32(a[off + 4], a[off + 5], a[off + 6], a[off + 7]);
    Words.Swap32InMemory(a[off], a[off + 1], a[off + 2], a[off + 3]);
    Words.Swap32InMemory(a[off + 4], a[off + 5], a[off + 6], a[off + 7]);
    var w := Endian.Swap64(Words.Word64(low, high));
    Words.Swap64Halves(low, high);
    StoreWord(a, off, Endian.Low(w));
    StoreWord(a, off + 4, Endian.High(w));
  }

  /** One 4-byte field at cur of the entry at e. */
  method TurnWord4(a: array<Byte>, e: nat, cur: nat, ghost c: Bytes, ghost done: bool, ghost post: Bytes)
    requires Complete(c) && e + |c| + |post| == a.Length && 2 <= cur && cur + 4 <= |c|
    requires Region(a[..], a[..e], Part(c, cur, done), post)
    requires forall x: nat :: cur <= x < cur + 4 ==> Turned(c, x) == cur + 3 - (x - cur)
    modifies a
    ensures Region(a[..], old(a[..e]), Part(c, cur + 4, done), post)
  {
    ghost var pre := a[..e];
    Reverse4(a, e + cur);
    PartTurn(c, cur, done, 4);
    TurnedRegion(pre, Part(c, cur, done), Part(c, cur + 4, done), post, a[..], cur, 4);
  }

  method TurnWord8(a: array<Byte>, e: nat, cur: nat, ghost c: Bytes, ghost done: bool, ghost post: Bytes)
    requires Complete(c) && e + |c| + |post| == a.Length && 2 <= cur && cur + 8 <= |c|
    requires Region(a[..], a[..e], Part(c, cur, done), post)
    requires forall x: nat :: cur <= x < cur + 8 ==> Turned(c, x) == cur + 7 - (x - cur)
    modifies a
    ensures Region(a[..], old(a[..e]), Part(c, cur + 8, done), post)
  {
    ghost var pre := a[..e];
    Reverse8(a, e + cur);
    PartTurn(c, cur, done, 8);
    TurnedRegion(pre, Part(c, cur, done), Part(c, cur + 8, done), post, a[..], cur, 8);
  }

  lemma PartTurn(c: Bytes, cur: nat, done: bool, k: nat)
    requires Complete(c) && 2 <= cur && cur + k <= |c|
    requires forall x: nat :: cur <= x < cur + k ==> Turned(c, x) == cur + (k - 1) - (x - cur)
    ensures var d, d' := Part(c, cur, done), Part(c, cur + k, done);
      forall x: nat :: x < |c| ==> d'[x] == d[if cur <= x < cur + k then cur + (k - 1) - (x - cur) else x]
  {
  }

  lemma TurnedRegion(pre: Bytes, d: Bytes, d': Bytes, post: Bytes, m: Bytes, cur: nat, k: nat)
    requires |d| == |d'| && cur + k <= |d| && |m| == |pre| + |d| + |post|
    requires forall x: nat :: x < |d| ==> d'[x] == d[if cur <= x < cur + k then cur + (k - 1) - (x - cur) else x]
    requires forall x: nat :: x < |m| ==>
      m[x] == (pre + d + post)[if |pre| + cur <= x < |pre| + cur + k then |pre| + cur + (k - 1) - (x - (|pre| + cur)) else x]
    ensures m == pre + d' + post
  {
  }

  lemma Turn4At(lo: nat, i: nat, x: nat)
    requires lo + 4 * i <= x < lo + 4 * i + 4
    ensures Turn4(lo, x) == lo + 4 * i + 3 - (x - (lo + 4 * i))
  {
    assert (x - lo) / 4 == i;
  }

  /** One of the addresses, the halves of the UUID, the capabilities and the memory size. */
  lemma IpTurns(c: Bytes, i: nat)
    requires Complete(c) && i < NumIps(c)
    ensures var cur := IpsOff(c) + 4 * i;
      2 <= cur && cur + 4 <= |c| && forall x: nat :: cur <= x < cur + 4 ==> Turned(c, x) == cur + 3 - (x - cur)
  {
    FieldsApart(c);
    var cur := IpsOff(c) + 4 * i;
    forall x: nat | cur <= x < cur + 4
      ensures Turned(c, x) == cur + 3 - (x - cur)
    {
      Turn4At(IpsOff(c), i, x);
    }
  }

  lemma UuidTurns(c: Bytes, i: nat)
    requires Complete(c) && i < 2
    ensures var cur := UuidOff(c) + 8 * i;
      2 <= cur && cur + 8 <= |c| && forall x: nat :: cur <= x < cur + 8 ==> Turned(c, x) == cur + 7 - (x - cur)
  {
    FieldsApart(c);
  }

  lemma PlatformTurns(c: Bytes, i: nat)
    requires Complete(c) && i < 2
    ensures var cur := CapOff(c) + 4 * i;
      2 <= cur && cur + 4 <= |c| && forall x: nat :: cur <= x < cur + 4 ==> Turned(c, x) == cur + 3 - (x - cur)
  {
    FieldsApart(c);
  }

  lemma Locate(m: Bytes, e: nat, c: Bytes, cur: nat, done: bool, post: Bytes)
    requires Complete(c) && e <= |m| && Region(m, m[..e], Part(c, cur, done), post)
    ensures IpsOff(m[e..]) == IpsOff(c) && NumIps(m[e..]) == NumIps(c)
    ensures UuidOff(m[e..]) == UuidOff(c) && CapOff(m[e..]) == CapOff(c)
  {
    assert m[e..] == Part(c, cur, done) + post;
    OffsetsDuring(c, cur, done, m[e..]);
  }

  /** Everything but the size, in the order of the source; each place is computed anew from the current bytes. */
  method SwapFields(a: array<Byte>, e: nat, ghost c: Bytes, ghost done: bool, ghost post: Bytes)
    requires Complete(c) && e + |c| + |post| == a.Length
    requires Region(a[..], a[..e], Part(c, 2, done), post)
    modifies a
    ensures Region(a[..], old(a[..e]), Part(c, |c|, done), post)
  {
    ghost var pre := a[..e];
    FieldsApart(c);
    PartSkip(c, 2, IpsOff(c), done);
    SwapIps(a, e, c, done, post);
    assert a[..e] == pre;
    PartSkip(c, IpsOff(c) + 4 * NumIps(c), UuidOff(c), done);
    SwapUuid(a, e, c, done, post);
    assert a[..e] == pre;
    PartSkip(c, UuidOff(c) + 16, CapOff(c), done);
    SwapPlatform(a, e, c, done, post);
    PartSkip(c, CapOff(c) + 8, |c|, done);
  }

  method SwapIps(a: array<Byte>, e: nat, ghost c: Bytes, ghost done: bool, ghost post: Bytes)
    requires Complete(c) && e + |c| + |post| == a.Length
    requires Region(a[..], a[..e], Part(c, IpsOff(c), done), post)
    modifies a
    ensures Region(a[..], old(a[..e]), Part(c, IpsOff(c) + 4 * NumIps(c), done), post)
  {
    ghost var pre := a[..e];
    var i := 0;
    Locate(a[..], e, c, IpsOff(c), done, post);
    while i < NumIps(a[e..])
      invariant i <= NumIps(c) && NumIps(a[e..]) == NumIps(c) && a[..e] == pre
      invariant Region(a[..], pre, Part(c, IpsOff(c) + 4 * i, done), post)
      decreases NumIps(c) - i
    {
      SwapIp(a, e, i, c, done, post);
      i := i + 1;
    }
  }

  method SwapIp(a: array<Byte>, e: nat, i: nat, ghost c: Bytes, ghost done: bool, ghost post: Bytes)
    requires Complete(c) && e + |c| + |post| == a.Length && i < NumIps(c)
    requires Region(a[..], a[..e], Part(c, IpsOff(c) + 4 * i, done), post)
    modifies a
    ensures a[..e] == old(a[..e]) && Region(a[..], a[..e], Part(c, IpsOff(c) + 4 * (i + 1), done), post)
    ensures NumIps(a[e..]) == NumIps(c)
  {
    ghost var pre := a[..e];
    Locate(a[..], e, c, IpsOff(c) + 4 * i, done, post);
    IpTurns(c, i);
    TurnWord4(a, e, IpsOff(a[e..]) + 4 * i, c, done, post);
    assert a[..e] == pre;
    Locate(a[..], e, c, IpsOff(c) + 4 * (i + 1), done, post);
  }

  method SwapUuid(a: array<Byte>, e: nat, ghost c: Bytes, ghost done: bool, ghost post: Bytes)
    requires Complete(c) && e + |c| + |post| == a.Length
    requires Region(a[..], a[..e], Part(c, UuidOff(c), done), post)
    modifies a
    ensures Region(a[..], old(a[..e]), Part(c, UuidOff(c) + 16, done), post)
  {
    ghost var pre := a[..e];
    Locate(a[..], e, c, UuidOff(c), done, post);
    UuidTurns(c, 0);
    TurnWord8(a, e, UuidOff(a[e..]), c, done, post);
    assert a[..e] == pre;
    Locate(a[..], e, c, UuidOff(c) + 8, done, post);
    UuidTurns(c, 1);
    TurnWord8(a, e, UuidOff(a[e..]) + 8, c, done, post);
  }

  method SwapPlatform(a: array<Byte>, e: nat, ghost c: Bytes, ghost done: bool, ghost post: Bytes)
    requires Complete(c) && e + |c| + |post| == a.Length
    requires Region(a[..], a[..e], Part(c, CapOff(c), done), post)
    modifies a
    ensures Region(a[..], old(a[..e]), Part(c, CapOff(c) + 8, done), post)
  {
    SwapPlatformWord(a, e, 0, c, done, post);
    SwapPlatformWord(a, e, 1, c, done, post);
  }

  method SwapPlatformWord(a: array<Byte>, e: nat, k: nat, ghost c: Bytes, ghost done: bool, ghost post: Bytes)
    requires Complete(c) && e + |c| + |post| == a.Length && k < 2
    requires Region(a[..], a[..e], Part(c, CapOff(c) + 4 * k, done), post)
    modifies a
    ensures a[..e] == old(a[..e]) && Region(a[..], a[..e], Part(c, CapOff(c) + 4 * (k + 1), done), post)
  {
    Locate(a[..], e, c, CapOff(c) + 4 * k, done, post);
    PlatformTurns(c, k);
    TurnWord4(a, e, CapOff(a[e..]) + 4 * k, c, done, post);
  }

  /** The 16-bit size field. */
  method SwapSize(a: array<Byte>, e: nat, ghost c: Bytes, ghost cur: nat, ghost done: bool, ghost post: Bytes)
    requires Complete(c) && e + |c| + |post| == a.Length
    requires Region(a[..], a[..e], Part(c, cur, done), post) && !done
    modifies a
    ensures Region(a[..], old(a[..e]), Part(c, cur, true), post)
  {
    FieldsApart(c);
    ghost var pre, before := a[..e], a[..];
    var w := Endian.Swap16(Words.Word16(a[e], a[e + 1]));
    Words.Swap16InMemory(a[e], a[e + 1]);
    a[e], a[e + 1] := Words.Value(Endian.Byte16(w, 0)), Words.Value(Endian.Byte16(w, 1));
    assert before[e] == c[0] && before[e + 1] == c[1];
    SizeTurned(pre, c, cur, post, a[..]);
  }

  lemma SizeTurned(pre: Bytes, c: Bytes, cur: nat, post: Bytes, m: Bytes)
    requires Complete(c) && |m| == |pre| + |c| + |post| && |c| >= 2
    requires m[|pre|] == c[1] && m[|pre| + 1] == c[0]
    requires forall x: nat :: x < |m| && x != |pre| && x != |pre| + 1 ==> m[x] == (pre + Part(c, cur, false) + post)[x]
    ensures m == pre + Part(c, cur, true) + post
  {
  }

  /** NODE_EntryToBE: the size comes last, since nothing can find the next entry without it. */
  method EntryToBE(a: array<Byte>, e: nat, ghost c: Bytes, ghost post: Bytes)
    requires Complete(c) && e + |c| + |post| == a.Length && Region(a[..], a[..e], c, post)
    modifies a
    ensures Region(a[..], old(a[..e]), SwapEntry(c), post)
  {
    PartEnds(c);
    SwapFields(a, e, c, false, post);
    assert a[..e] == old(a[..e]);
    SwapSize(a, e, c, |c|, false, post);
  }

  /** NODE_EntryToLE: the size comes first. */
  method EntryToLE(a: array<Byte>, e: nat, ghost c: Bytes, ghost post: Bytes)
    requires Complete(c) && e + |c| + |post| == a.Length && Region(a[..], a[..e], c, post)
    modifies a
    ensures Region(a[..], old(a[..e]), SwapEntry(c), post)
  {
    PartEnds(c);
    SwapSize(a, e, c, 2, false, post);
    assert a[..e] == old(a[..e]);
    SwapFields(a, e, c, true, post);
  }
}
