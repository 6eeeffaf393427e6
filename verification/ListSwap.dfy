/**
 * Converting a whole node list to network order and back, in place, on a little-endian host
 * (NODE_ListToBE and NODE_ListToNative in app/node.c).
 */
module ListSwap {
  import opened EntryLayout
  import opened EntrySwap

  /** An entry of a list: complete, of the size it says, which is a positive multiple of 8. */
  ghost predicate IsEntry(c: Bytes) {
    Complete(c) && SizeOf(c) == |c| && |c| > 0 && |c| % 8 == 0
  }

  ghost predicate AreEntries(cs: seq<Bytes>) {
    forall c <- cs :: IsEntry(c)
  }

  function Concat(cs: seq<Bytes>): Bytes {
    if cs == [] then [] else cs[0] + Concat(cs[1..])
  }

  function SwapAll(cs: seq<Bytes>): (ds: seq<Bytes>)
    requires forall c <- cs :: Complete(c)
    ensures |ds| == |cs| && forall i :: 0 <= i < |cs| ==> ds[i] == SwapEntry(cs[i])
  {
    seq(|cs|, i requires 0 <= i < |cs| => SwapEntry(cs[i]))
  }

  lemma {:induction false} ConcatAppend(a: seq<Bytes>, b: seq<Bytes>)
    ensures Concat(a + b) == Concat(a) + Concat(b)
  {
    if a == [] {
      assert a + b == b;
    } else {
      assert (a + b)[1..] == a[1..] + b;
      ConcatAppend(a[1..], b);
    }
  }

  lemma ConcatSplit(cs: seq<Bytes>, k: nat)
    requires k <= |cs|
    ensures Concat(cs) == Concat(cs[..k]) + Concat(cs[k..])
  {
    assert cs == cs[..k] + cs[k..];
    ConcatAppend(cs[..k], cs[k..]);
  }

  lemma ConcatTail(cs: seq<Bytes>, k: nat)
    requires k < |cs|
    ensures Concat(cs[k..]) == cs[k] + Concat(cs[k + 1..])
  {
    var tail := cs[k..];
    assert tail[0] == cs[k] && tail[1..] == cs[k + 1..];
  }

  /** The k-th entry with what stands before and behind it. */
  lemma ConcatAt(cs: seq<Bytes>, k: nat)
    requires k < |cs|
    ensures Concat(cs) == Concat(cs[..k]) + cs[k] + Concat(cs[k + 1..])
  {
    var x, y, z := Concat(cs[..k]), cs[k], Concat(cs[k + 1..]);
    ConcatSplit(cs, k);
    ConcatTail(cs, k);
    assert x + (y + z) == x + y + z;
  }

  lemma ConcatNext(cs: seq<Bytes>, k: nat)
    requires k < |cs|
    ensures Concat(cs[..k + 1]) == Concat(cs[..k]) + cs[k]
  {
    assert cs[..k + 1] == cs[..k] + [cs[k]];
    ConcatAppend(cs[..k], [cs[k]]);
    ConcatOne(cs[k]);
  }

  lemma ConcatOne(c: Bytes)
    ensures Concat([c]) == c
  {
  }

  /** Where the k-th entry begins, relative to the first. */
  function Start(cs: seq<Bytes>, k: nat): nat
    requires k <= |cs|
  {
    |Concat(cs[..k])|
  }

  lemma StartLast(cs: seq<Bytes>)
    ensures Start(cs, |cs|) == |Concat(cs)|
  {
    assert cs[..|cs|] == cs;
  }

  lemma StartNext(cs: seq<Bytes>, k: nat)
    requires k < |cs|
    ensures Start(cs, k + 1) == Start(cs, k) + |cs[k]|
    ensures Start(cs, k + 1) <= |Concat(cs)|
  {
    ConcatAt(cs, k);
    ConcatNext(cs, k);
  }

  /** The size of an entry is read correctly whatever follows it. */
  lemma SizeRead(c: Bytes, m: Bytes)
    requires IsEntry(c) && c <= m
    ensures SizeOf(m) == |c|
  {
    assert m[0] == c[0] && m[1] == c[1];
  }

  function Load32(m: Bytes): nat {
    ByteAt(m, 0) + 256 * ByteAt(m, 1) + 65536 * ByteAt(m, 2) + 16777216 * ByteAt(m, 3)
  }

  /** A node list in memory: length, version, the entries, and unused bytes behind them. */
  ghost predicate IsList(m: Bytes, len: Bytes, version: Bytes, cs: seq<Bytes>, rest: Bytes) {
    |len| == 4 && |version| == 4 && m == len + version + Concat(cs) + rest
  }

  lemma LengthRead(m: Bytes, len: Bytes, version: Bytes, cs: seq<Bytes>, rest: Bytes)
    requires IsList(m, len, version, cs, rest)
    ensures m[..4] == len
  {
  }

  /** Entry k of a list as a region of the array. */
  lemma ListAt(m: Bytes, len: Bytes, version: Bytes, cs: seq<Bytes>, rest: Bytes, k: nat)
    requires IsList(m, len, version, cs, rest) && k < |cs|
    ensures 8 + Start(cs, k) + |cs[k]| <= |m|
    ensures m[..8 + Start(cs, k)] == len + version + Concat(cs[..k])
    ensures Region(m, m[..8 + Start(cs, k)], cs[k], Concat(cs[k + 1..]) + rest)
    ensures cs[k] <= m[8 + Start(cs, k)..]
  {
    ConcatAt(cs, k);
    var pre := len + version + Concat(cs[..k]);
    var post := Concat(cs[k + 1..]) + rest;
    assert m == pre + cs[k] + post;
    assert m[..|pre|] == pre;
    assert m[|pre|..] == cs[k] + post;
  }

  /** Replacing entry k by another of the same length. */
  lemma ListReplace(m: Bytes, len: Bytes, version: Bytes, cs: seq<Bytes>, rest: Bytes, k: nat, d: Bytes)
    requires k < |cs| && |d| == |cs[k]| && |len| == 4 && |version| == 4
    requires Region(m, len + version + Concat(cs[..k]), d, Concat(cs[k + 1..]) + rest)
    ensures IsList(m, len, version, cs[k := d], rest)
  {
    var ds := cs[k := d];
    ConcatAt(ds, k);
    assert ds[..k] == cs[..k] && ds[k + 1..] == cs[k + 1..];
  }

  /** The first n entries converted. */
  function SwapFirst(cs: seq<Bytes>, n: nat): (ds: seq<Bytes>)
    requires n <= |cs| && forall c <- cs :: Complete(c)
    ensures |ds| == |cs| && forall i :: 0 <= i < |cs| ==> ds[i] == if i < n then SwapEntry(cs[i]) else cs[i]
  {
    SwapAll(cs[..n]) + cs[n..]
  }

  lemma {:induction false} SameStarts(cs: seq<Bytes>, ds: seq<Bytes>, k: nat)
    requires |cs| == |ds| && k <= |cs| && forall i :: 0 <= i < |cs| ==> |ds[i]| == |cs[i]|
    ensures Start(ds, k) == Start(cs, k)
  {
    if k > 0 {
      SameStarts(cs, ds, k - 1);
      StartNext(cs, k - 1);
      StartNext(ds, k - 1);
    }
  }

  /** The swap of one 32-bit word in front of the entries. */
  method SwapHeader(a: array<Byte>, off: nat)
    requires off + 4 <= a.Length
    modifies a
    ensures a[..] == old(a[..off]) + Reversed(old(a[off..off + 4])) + old(a[off + 4..])
  {
    ghost var before := a[..];
    Reverse4(a, off);
    assert a[..] == before[..off] + Reversed(before[off..off + 4]) + before[off + 4..];
  }

  function Reversed(s: Bytes): (r: Bytes)
    ensures |r| == |s|
  {
    seq(|s|, k requires 0 <= k < |s| => s[|s| - 1 - k])
  }

  /** NODE_ListToBE: collect where the entries are while their sizes can be read, then convert each. */
  method ListToBE(a: array<Byte>, ghost len: Bytes, ghost version: Bytes, ghost cs: seq<Bytes>, ghost rest: Bytes)
    requires IsList(a[..], len, version, cs, rest) && AreEntries(cs) && |cs| <= 512
    requires Load32(len) == 8 + |Concat(cs)|
    modifies a
    ensures IsList(a[..], Reversed(len), Reversed(version), SwapAll(cs), rest)
  {
    var entryPtrs := new nat[512];
    var max := CollectEntries(a, entryPtrs, len, version, cs, rest);
    assert SwapFirst(cs, 0) == cs;
    for i := 0 to max
      invariant IsList(a[..], len, version, SwapFirst(cs, i), rest)
      invariant forall j :: 0 <= j < max ==> entryPtrs[j] == 8 + Start(cs, j)
    {
      ConvertAt(a, entryPtrs[i], i, len, version, cs, rest);
    }
    assert SwapFirst(cs, |cs|) == SwapAll(cs);
    SwapHeaders(a, len, version, Concat(SwapAll(cs)), rest);
  }

  /** Version and length, the words in front of the entries. */
  method SwapHeaders(a: array<Byte>, ghost len: Bytes, ghost version: Bytes, ghost body: Bytes, ghost rest: Bytes)
    requires |len| == 4 && |version| == 4 && a[..] == len + version + body + rest
    modifies a
    ensures a[..] == Reversed(len) + Reversed(version) + body + rest
  {
    assert a[..4] == len && a[4..8] == version && a[8..] == body + rest;
    SwapHeader(a, 4);
    assert a[..4] == len && a[4..] == Reversed(version) + (body + rest);
    SwapHeader(a, 0);
    assert a[..] == Reversed(len) + (Reversed(version) + (body + rest));
  }

  method ConvertAt(a: array<Byte>, e: nat, ghost i: nat, ghost len: Bytes, ghost version: Bytes,
                   ghost cs: seq<Bytes>, ghost rest: Bytes)
    requires AreEntries(cs) && i < |cs| && e == 8 + Start(cs, i)
    requires IsList(a[..], len, version, SwapFirst(cs, i), rest)
    modifies a
    ensures IsList(a[..], len, version, SwapFirst(cs, i + 1), rest)
  {
    ghost var ds := SwapFirst(cs, i);
    SameStarts(cs, ds, i);
    ListAt(a[..], len, version, ds, rest, i);
    assert cs[i] in cs;
    EntryToBE(a, e, cs[i], Concat(ds[i + 1..]) + rest);
    ListReplace(a[..], len, version, ds, rest, i, SwapEntry(cs[i]));
    assert ds[i := SwapEntry(cs[i])] == SwapFirst(cs, i + 1);
  }

  method CollectEntries(a: array<Byte>, entryPtrs: array<nat>, ghost len: Bytes, ghost version: Bytes,
                        ghost cs: seq<Bytes>, ghost rest: Bytes)
    returns (i: nat)
    requires IsList(a[..], len, version, cs, rest) && AreEntries(cs) && |cs| <= 512
    requires Load32(len) == 8 + |Concat(cs)| && entryPtrs.Length == 512
    modifies entryPtrs
    ensures i == |cs| && forall j :: 0 <= j < i ==> entryPtrs[j] == 8 + Start(cs, j)
  {
    i := 0;
    var e := 8;
    assert a[..4] == len;
    WalkEnds(cs, 0);
    while e - 8 < Load32(a[..4]) - 8
      invariant i <= |cs| && e == 8 + Start(cs, i) && (Start(cs, i) >= |Concat(cs)| <==> i == |cs|)
      invariant forall j :: 0 <= j < i ==> entryPtrs[j] == 8 + Start(cs, j)
      decreases |cs| - i
    {
      entryPtrs[i] := e;
      NextEntry(a[..], len, version, cs, rest, i);
      e := e + SizeOf(a[e..]);
      i := i + 1;
      WalkEnds(cs, i);
    }
  }

  /** ENTRY_NEXT leads from one entry to the next. */
  lemma NextEntry(m: Bytes, len: Bytes, version: Bytes, cs: seq<Bytes>, rest: Bytes, i: nat)
    requires IsList(m, len, version, cs, rest) && AreEntries(cs) && i < |cs|
    ensures 8 + Start(cs, i) + |cs[i]| <= |m| && cs[i] <= m[8 + Start(cs, i)..]
    ensures SizeOf(m[8 + Start(cs, i)..]) == |cs[i]| && Start(cs, i + 1) == Start(cs, i) + |cs[i]|
  {
    ListAt(m, len, version, cs, rest, i);
    assert cs[i] in cs;
    SizeRead(cs[i], m[8 + Start(cs, i)..]);
    StartNext(cs, i);
  }

  /** The walk is behind the last byte only when it is behind the last entry. */
  lemma WalkEnds(cs: seq<Bytes>, i: nat)
    requires AreEntries(cs) && i <= |cs|
    ensures Start(cs, i) >= |Concat(cs)| <==> i == |cs|
  {
    StartLast(cs);
    if i < |cs| {
      assert cs[i] in cs;
      StartNext(cs, i);
    }
  }

  /** NODE_ListToNative: walk forwards, converting each entry before its size is used. */
  method ListToNative(a: array<Byte>, ghost len: Bytes, ghost version: Bytes, ghost cs: seq<Bytes>, ghost rest: Bytes)
    requires AreEntries(cs) && Load32(len) == 8 + |Concat(cs)| && |len| == 4 && |version| == 4
    requires IsList(a[..], Reversed(len), Reversed(version), SwapAll(cs), rest)
    modifies a
    ensures IsList(a[..], len, version, cs, rest)
  {
    RestoreHeader(a, len, version, SwapAll(cs), rest);
    var e := 8;
    ghost var i := 0;
    assert SwapLast(cs, 0) == SwapAll(cs);
    StartLast(cs);
    LengthRead(a[..], len, version, SwapAll(cs), rest);
    while e < 8 + (Load32(a[..4]) - 8)
      invariant i <= |cs| && e == 8 + Start(cs, i) && a[..4] == len
      invariant IsList(a[..], len, version, SwapLast(cs, i), rest)
      decreases |cs| - i
    {
      e := RestoreAt(a, e, i, len, version, cs, rest);
      i := i + 1;
      LengthRead(a[..], len, version, SwapLast(cs, i), rest);
    }
    if i < |cs| {
      assert cs[i] in cs;
      StartNext(cs, i);
      assert false;
    }
    assert SwapLast(cs, |cs|) == cs;
  }

  method RestoreHeader(a: array<Byte>, ghost len: Bytes, ghost version: Bytes, ghost ds: seq<Bytes>, ghost rest: Bytes)
    requires |len| == 4 && |version| == 4 && IsList(a[..], Reversed(len), Reversed(version), ds, rest)
    modifies a
    ensures IsList(a[..], len, version, ds, rest)
  {
    SwapHeaders(a, Reversed(len), Reversed(version), Concat(ds), rest);
    assert Reversed(Reversed(len)) == len && Reversed(Reversed(version)) == version;
  }

  method RestoreAt(a: array<Byte>, e: nat, ghost i: nat, ghost len: Bytes, ghost version: Bytes,
                   ghost cs: seq<Bytes>, ghost rest: Bytes)
    returns (next: nat)
    requires AreEntries(cs) && i < |cs| && e == 8 + Start(cs, i)
    requires IsList(a[..], len, version, SwapLast(cs, i), rest)
    modifies a
    ensures IsList(a[..], len, version, SwapLast(cs, i + 1), rest)
    ensures next == 8 + Start(cs, i + 1)
  {
    ghost var ds := SwapLast(cs, i);
    SameStarts(cs, ds, i);
    ListAt(a[..], len, version, ds, rest, i);
    assert cs[i] in cs;
    SwapEntryTwice(cs[i]);
    EntryToLE(a, e, SwapEntry(cs[i]), Concat(ds[i + 1..]) + rest);
    ListReplace(a[..], len, version, ds, rest, i, cs[i]);
    ghost var ds' := SwapLast(cs, i + 1);
    assert ds[i := cs[i]] == ds';
    ListAt(a[..], len, version, ds', rest, i);
    SameStarts(cs, ds', i);
    SizeRead(cs[i], a[e..]);
    StartNext(cs, i);
    next := e + SizeOf(a[e..]);
  }

  /** All but the first n entries in network order. */
  function SwapLast(cs: seq<Bytes>, n: nat): (ds: seq<Bytes>)
    requires n <= |cs| && forall c <- cs :: Complete(c)
    ensures |ds| == |cs| && forall i :: 0 <= i < |cs| ==> ds[i] == if i < n then cs[i] else SwapEntry(cs[i])
  {
    cs[..n] + SwapAll(cs[n..])
  }

  /** Sending a list and converting it back leaves every byte of it as it was. */
  method RoundTrip(a: array<Byte>, ghost len: Bytes, ghost version: Bytes, ghost cs: seq<Bytes>, ghost rest: Bytes)
    requires IsList(a[..], len, version, cs, rest) && AreEntries(cs) && |cs| <= 512
    requires Load32(len) == 8 + |Concat(cs)|
    modifies a
    ensures a[..] == old(a[..])
  {
    ListToBE(a, len, version, cs, rest);
    ListToNative(a, len, version, cs, rest);
  }
}
