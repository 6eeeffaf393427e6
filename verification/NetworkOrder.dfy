/**
 * What a receiver reads, most significant byte first, in a converted node list (app/node.c).
 */
module NetworkOrder {
  import opened EntryLayout
  import opened EntrySwap
  import opened ListSwap
  import opened Words

  /** The integer of k bytes at off is sent in network order. */
  predicate SentAs(c: Bytes, d: Bytes, off: nat, k: nat) {
    off + k <= |c| == |d| && LoadBE(d[off..off + k]) == LoadLE(c[off..off + k])
  }

  lemma FieldSent(c: Bytes, off: nat, k: nat)
    requires Complete(c) && off + k <= |c|
    requires forall x: nat :: off <= x < off + k ==> Mirror(c, x) == off + (k - 1) - (x - off)
    ensures SentAs(c, SwapEntry(c), off, k)
  {
    OppositeOrders(c[off..off + k], SwapEntry(c)[off..off + k]);
  }

  /** So is every address. */
  lemma AddressSent(c: Bytes, i: nat)
    requires Complete(c) && i < NumIps(c)
    ensures SentAs(c, SwapEntry(c), IpsOff(c) + 4 * i, 4)
  {
    FieldsApart(c);
    IpTurns(c, i);
    FieldSent(c, IpsOff(c) + 4 * i, 4);
  }

  lemma SizeSent(c: Bytes)
    requires Complete(c)
    ensures SentAs(c, SwapEntry(c), 0, 2)
  {
    FieldsApart(c);
    FieldSent(c, 0, 2);
  }

  lemma UuidSent(c: Bytes, j: nat)
    requires Complete(c) && j < 2
    ensures SentAs(c, SwapEntry(c), UuidOff(c) + 8 * j, 8)
  {
    UuidTurns(c, j);
    FieldSent(c, UuidOff(c) + 8 * j, 8);
  }

  lemma PlatformSent(c: Bytes, j: nat)
    requires Complete(c) && j < 2
    ensures SentAs(c, SwapEntry(c), CapOff(c) + 4 * j, 4)
  {
    PlatformTurns(c, j);
    FieldSent(c, CapOff(c) + 4 * j, 4);
  }

  /**
   * Of a converted entry one reads, most significant byte first, its size, the words of its UUID, its capabilities
   * and its memory size; every byte that belongs to no integer of more than one is as it was.
   */
  lemma NumbersSent(c: Bytes, j: nat)
    requires Complete(c) && j < 2
    ensures SentAs(c, SwapEntry(c), 0, 2)
    ensures SentAs(c, SwapEntry(c), UuidOff(c) + 8 * j, 8)
    ensures SentAs(c, SwapEntry(c), CapOff(c) + 4 * j, 4)
    ensures SameFixed(c, SwapEntry(c))
  {
    SizeSent(c);
    UuidSent(c, j);
    PlatformSent(c, j);
    SwapSameFixed(c);
  }

  /** The size is the one that leads from entry to entry, and the length the one that bounds the list. */
  lemma LoadsAgree(m: Bytes)
    ensures |m| == 2 ==> LoadLE(m) == SizeOf(m)
    ensures |m| == 4 ==> LoadLE(m) == Load32(m)
  {
    if |m| == 2 {
      assert LoadLE(m[1..]) == m[1] + 256 * LoadLE(m[1..][1..]);
    } else if |m| == 4 {
      var a := m[1..];
      var b := a[1..];
      var d := b[1..];
      assert LoadLE(d) == m[3] + 256 * LoadLE(d[1..]) && d[1..] == [];
      assert LoadLE(b) == m[2] + 256 * LoadLE(d);
      assert LoadLE(a) == m[1] + 256 * LoadLE(b);
    }
  }

  /** A word reversed is read in network order as it stood in memory. */
  lemma WordSent(w: Bytes)
    requires |w| == 4
    ensures LoadBE(Reversed(w)) == Load32(w)
  {
    OppositeOrders(w, Reversed(w));
    LoadsAgree(w);
  }
}
