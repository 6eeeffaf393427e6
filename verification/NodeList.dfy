/**
 * The node list as it lies in memory, from its first entry on, sent, received and grown entry by entry
 * (NODE_Init, NODE_MaybeAddEntry and NODE_CheckForNewNodes in app/node.c, NET_HandleBcast in app/net.c),
 * proved to follow the merge of module Gossip.
 */
module NodeLists {
  import opened EntryLayout
  import opened EntrySwap
  import opened ListSwap
  import opened LocalEntry
  import opened NetworkOrder
  import opened Words
  import opened Gossip
  import EntryWriting

  /** The 16 bytes ENTRY_NODE_UUID points to. */
  function UuidOf(m: Bytes): Bytes {
    if UuidOff(m) + 16 <= |m| then m[UuidOff(m)..UuidOff(m) + 16] else []
  }

  /** The entry as the protocol sees it. */
  function AsEntry(c: Bytes): Entry {
    Entry(UuidOf(c), c)
  }

  function AsList(cs: seq<Bytes>): List {
    seq(|cs|, i requires 0 <= i < |cs| => AsEntry(cs[i]))
  }

  /** The UUID is read inside the entry, whatever follows it. */
  lemma UuidRead(c: Bytes, m: Bytes)
    requires IsEntry(c) && c <= m
    ensures UuidOf(m) == UuidOf(c) && |UuidOf(c)| == 16
  {
    OffsetsPrefix(c, m);
    FieldsApart(c);
    assert m[..|c|] == c;
    assert m[UuidOff(c)..UuidOff(c) + 16] == c[UuidOff(c)..UuidOff(c) + 16];
  }

  /** A 32-bit word, low byte first. */
  function Store32(v: nat): (b: Bytes)
    requires v < 0x1_0000_0000
    ensures |b| == 4 && Load32(b) == v
  {
    var q1 := v / 256;
    var q2 := q1 / 256;
    [v % 256, q1 % 256, q2 % 256, q2 / 256]
  }

  class NodeTable {
    /** NODE_LocalUUID, the UUID of the first entry. */
    const localUuid: Bytes
    /** NODE_NodeList: 8 bytes of length and version, then the entries. */
    var nl: Bytes
    ghost var entries: seq<Bytes>

    ghost predicate Valid()
      reads this
    {
      |nl| >= 8 && nl == nl[..8] + Concat(entries) && AreEntries(entries) && entries != [] &&
      Load32(nl[..4]) == |nl| && UuidOf(entries[0]) == localUuid
    }

    ghost function Value(): List
      reads this
    {
      AsList(entries)
    }

    /** NODE_Init: a list, of version 1, of the local entry alone, made in a buffer of 4096 bytes. */
    constructor (f: EntryWriting.Fields)
      requires f.Valid() && f.ips == [] && LocalSize(f) <= 4096
      ensures Valid() && localUuid == f.uuid && nl[4..8] == Store32(1)
      ensures Value() == [AsEntry(Local(LocalSize(f), f))]
    {
      var c := MakeLocal(f);
      ConcatOne(c);
      nl := Store32(8 + |c|) + Store32(1) + c;
      localUuid := f.uuid;
      entries := [c];
    }

    /** The k-th entry begins here, and the pointer walk arrives at the next one. */
    lemma EntryAt(k: nat)
      requires Valid() && k < |entries|
      ensures 8 + Start(entries, k) < 8 + Start(entries, k + 1) <= |nl|
      ensures SizeOf(nl[8 + Start(entries, k)..]) == Start(entries, k + 1) - Start(entries, k)
      ensures UuidOf(nl[8 + Start(entries, k)..]) == UuidOf(entries[k])
    {
      var len, version := nl[..4], nl[4..8];
      assert nl[..8] == len + version;
      assert entries[k] in entries;
      assert IsList(nl, len, version, entries, []);
      ListAt(nl, len, version, entries, [], k);
      StartNext(entries, k);
      SizeRead(entries[k], nl[8 + Start(entries, k)..]);
      UuidRead(entries[k], nl[8 + Start(entries, k)..]);
    }

    /** ENTRY_NODE_UUID and ENTRY_NEXT of the k-th entry. */
    method Look(e: nat, ghost k: nat) returns (uuid: Bytes, next: nat)
      requires Valid() && k < |entries| && e == 8 + Start(entries, k)
      ensures uuid == UuidOf(entries[k]) && next == 8 + Start(entries, k + 1)
    {
      EntryAt(k);
      uuid, next := UuidOf(nl[e..]), e + SizeOf(nl[e..]);
    }

    /** The loops' bound, in bytes, is reached exactly behind the last entry. */
    lemma BoundReached(k: nat)
      requires Valid() && k <= |entries|
      ensures 8 + Start(entries, k) < |nl| <==> k < |entries|
      ensures Start(entries, |entries|) == |nl| - 8
    {
      StartLast(entries);
      if k < |entries| {
        EntryAt(k);
      }
    }

    /** The first loop of NODE_MaybeAddEntry: is the UUID known? */
    method Find(uuid: Bytes) returns (known: bool)
      requires Valid()
      ensures known <==> Knows(Value(), uuid)
    {
      var knownEntry := 8;
      ghost var k := 0;
      BoundReached(k);
      while knownEntry < 8 + (Load32(nl[..4]) - 8)
        invariant k <= |entries| && knownEntry == 8 + Start(entries, k)
        invariant knownEntry < |nl| <==> k < |entries|
        invariant forall j :: 0 <= j < k ==> Value()[j].uuid != uuid
        decreases |entries| - k
      {
        var u, next := Look(knownEntry, k);
        if uuid == u {
          assert Value()[k].uuid == uuid;
          return true;
        }
        knownEntry, k := next, k + 1;
        BoundReached(k);
      }
      known := false;
    }

    /** The second loop: the offset of the last entry. */
    method LastEntry() returns (last: nat)
      requires Valid()
      ensures last == 8 + Start(entries, |entries| - 1)
    {
      var knownEntry := 8;
      last := 8;
      ghost var k := 0;
      BoundReached(k);
      while knownEntry - 8 < Load32(nl[..4]) - 8
        invariant k <= |entries| && knownEntry == 8 + Start(entries, k)
        invariant knownEntry < |nl| <==> k < |entries|
        invariant k > 0 ==> last == 8 + Start(entries, k - 1)
        decreases |entries| - k
      {
        last := knownEntry;
        var _, next := Look(knownEntry, k);
        knownEntry, k := next, k + 1;
        BoundReached(k);
      }
    }

    /** What NODE_MaybeAddEntry does when the UUID is unknown; e points into m, at c. */
    method Append(m: Bytes, ghost c: Bytes)
      requires Valid() && IsEntry(c) && c <= m
      requires |nl| + |c| < 0x1_0000_0000
      modifies this
      ensures Valid() && entries == old(entries) + [c] && |nl| == old(|nl|) + |c|
    {
      SizeRead(c, m);
      var lastEntry := LastEntry();
      var size := SizeOf(m);
      var _, knownEntry := Look(lastEntry, |entries| - 1);
      BoundReached(0);
      ghost var before := nl;
      nl := Store32(Load32(nl[..4]) + size) + nl[4..] + seq(size, _ => 0);
      nl := nl[..knownEntry] + m[..size] + nl[knownEntry + size..];
      AppendEntry(before, nl, entries, c, m);
      entries := entries + [c];
    }

    /** NODE_MaybeAddEntry. */
    method MaybeAddEntry(m: Bytes, ghost c: Bytes)
      requires Valid() && IsEntry(c) && c <= m
      requires |nl| + |c| < 0x1_0000_0000
      modifies this
      ensures Valid()
      ensures Value() == MergeOne(old(Value()), AsEntry(c))
      ensures |nl| <= old(|nl|) + |c|
    {
      UuidRead(c, m);
      var known := Find(UuidOf(m));
      if !known {
        Append(m, c);
        assert Value() == old(Value()) + [AsEntry(c)];
      }
    }

    /** The loop of NODE_CheckForNewNodes over a list in native order. */
    method MergeMessage(msg: Bytes, ghost len: Bytes, ghost version: Bytes, ghost incoming: seq<Bytes>, ghost rest: Bytes)
      requires Valid() && IsList(msg, len, version, incoming, rest) && AreEntries(incoming)
      requires Load32(len) == 8 + |Concat(incoming)| && |nl| + |Concat(incoming)| < 0x1_0000_0000
      modifies this
      ensures Valid()
      ensures Value() == MergeAll(old(Value()), AsList(incoming))
    {
      var e := 8;
      ghost var k := 0;
      assert msg[..4] == len;
      StartLast(incoming);
      assert AsList(incoming)[0..] == AsList(incoming);
      WalkEnds(incoming, 0);
      while e - 8 < Load32(msg[..4]) - 8
        invariant k <= |incoming| && e == 8 + Start(incoming, k) && Valid()
        invariant Start(incoming, k) >= |Concat(incoming)| <==> k == |incoming|
        invariant |nl| <= old(|nl|) + Start(incoming, k)
        invariant MergeAll(Value(), AsList(incoming)[k..]) == MergeAll(old(Value()), AsList(incoming))
        decreases |incoming| - k
      {
        StartNext(incoming, k);
        e := MergeNext(msg, e, len, version, incoming, rest, k);
        k := k + 1;
        WalkEnds(incoming, k);
      }
      assert AsList(incoming)[k..] == [];
    }

    /** One round of that loop. */
    method MergeNext(
        msg: Bytes, e: nat, ghost len: Bytes, ghost version: Bytes, ghost incoming: seq<Bytes>, ghost rest: Bytes,
        ghost k: nat)
      returns (next: nat)
      requires Valid() && IsList(msg, len, version, incoming, rest) && AreEntries(incoming) && k < |incoming|
      requires e == 8 + Start(incoming, k) && |nl| + |incoming[k]| < 0x1_0000_0000
      modifies this
      ensures Valid() && |nl| <= old(|nl|) + |incoming[k]| && next == 8 + Start(incoming, k + 1)
      ensures MergeAll(Value(), AsList(incoming)[k + 1..]) == MergeAll(old(Value()), AsList(incoming)[k..])
    {
      NextEntry(msg, len, version, incoming, rest, k);
      assert incoming[k] in incoming;
      MaybeAddEntry(msg[e..], incoming[k]);
      assert AsList(incoming)[k..][0] == AsEntry(incoming[k]);
      assert AsList(incoming)[k..][1..] == AsList(incoming)[k + 1..];
      next := e + SizeOf(msg[e..]);
    }

    /** NODE_CheckForNewNodes: convert the list of a message to native order and merge its entries. */
    method CheckForNewNodes(
        msg: array<Byte>, ghost len: Bytes, ghost version: Bytes, ghost incoming: seq<Bytes>, ghost rest: Bytes)
      requires Valid() && AreEntries(incoming) && |len| == 4 && |version| == 4
      requires msg[..] == Wire(len, version, incoming) + rest
      requires Load32(len) == 8 + |Concat(incoming)| && |nl| + |Concat(incoming)| < 0x1_0000_0000
      modifies this, msg
      ensures Valid()
      ensures Value() == MergeAll(old(Value()), AsList(incoming))
    {
      ListToNative(msg, len, version, incoming, rest);
      MergeMessage(msg[..], len, version, incoming, rest);
    }

    /** NET_HandleBcast on receiving a message: one with the node's own UUID is a loopback. */
    method Receive(
        uuid: Bytes, msg: array<Byte>, ghost len: Bytes, ghost version: Bytes, ghost incoming: seq<Bytes>,
        ghost rest: Bytes)
      requires Valid() && AreEntries(incoming) && |len| == 4 && |version| == 4
      requires msg[..] == Wire(len, version, incoming) + rest
      requires Load32(len) == 8 + |Concat(incoming)| && |nl| + |Concat(incoming)| < 0x1_0000_0000
      modifies this, msg
      ensures Valid()
      ensures Value() == if uuid == localUuid then old(Value()) else MergeAll(old(Value()), AsList(incoming))
    {
      if uuid == localUuid {
        return;
      }
      CheckForNewNodes(msg, len, version, incoming, rest);
    }

    /** NET_HandleBcast on sending: convert the list in place, copy it to the message, convert it back. */
    method Broadcast(msg: array<Byte>) returns (n: nat)
      requires Valid() && |nl| <= msg.Length && |entries| <= 512
      modifies this, msg
      ensures Valid() && nl == old(nl) && entries == old(entries)
      ensures n == |nl| && msg[..n] == Wire(nl[..4], nl[4..8], entries)
      ensures LoadBE(msg[..4]) == |nl| && LoadBE(msg[4..8]) == LoadLE(nl[4..8])
    {
      assert nl[..8] == nl[..4] + nl[4..8];
      WireHead(nl[..4], nl[4..8], entries);
      ghost var wire := Wire(nl[..4], nl[4..8], entries);
      nl, n := SendList(nl, msg, nl[..4], nl[4..8], entries);
      assert msg[..4] == wire[..4] && msg[4..8] == wire[4..8];
    }
  }

  /** The list converted in place, copied, and converted back. */
  method SendList(nl: Bytes, msg: array<Byte>, ghost len: Bytes, ghost version: Bytes, ghost cs: seq<Bytes>)
    returns (back: Bytes, n: nat)
    requires nl == len + version + Concat(cs) && |len| == 4 && |version| == 4 && AreEntries(cs) && |cs| <= 512
    requires Load32(len) == |nl| <= msg.Length
    modifies msg
    ensures back == nl && n == |nl| && msg[..n] == Wire(len, version, cs)
  {
    var a := new Byte[|nl|](i requires 0 <= i < |nl| => nl[i]);
    assert a[..] == nl == nl + [];
    ListToBE(a, len, version, cs, []);
    SwappedHead(a[..], len, version, SwapAll(cs));
    n := Load32(Reversed(a[..4]));
    CopyBytes(a, msg);
    ListToNative(a, len, version, cs, []);
    back := a[..];
    assert nl + [] == nl;
  }

  /** memcpy. */
  method CopyBytes(from: array<Byte>, to: array<Byte>)
    requires from.Length <= to.Length && from != to
    modifies to
    ensures to[..from.Length] == from[..]
  {
    for i := 0 to from.Length
      invariant to[..i] == from[..i]
    {
      to[i] := from[i];
    }
    assert from[..from.Length] == from[..];
  }

  /** A list in network order. */
  function Wire(len: Bytes, version: Bytes, cs: seq<Bytes>): Bytes
    requires forall c <- cs :: Complete(c)
  {
    Reversed(len) + Reversed(version) + Concat(SwapAll(cs))
  }

  /** Length and version are sent most significant byte first. */
  lemma WireHead(len: Bytes, version: Bytes, cs: seq<Bytes>)
    requires |len| == 4 && |version| == 4 && forall c <- cs :: Complete(c)
    ensures var wire := Wire(len, version, cs);
      |wire| >= 8 && LoadBE(wire[..4]) == Load32(len) && LoadBE(wire[4..8]) == LoadLE(version)
  {
    var wire := Wire(len, version, cs);
    assert wire[..4] == Reversed(len) && wire[4..8] == Reversed(version);
    WordSent(len);
    WordSent(version);
    LoadsAgree(version);
  }

  lemma SwappedHead(m: Bytes, len: Bytes, version: Bytes, ds: seq<Bytes>)
    requires |len| == 4 && |version| == 4 && IsList(m, Reversed(len), Reversed(version), ds, [])
    ensures Reversed(m[..4]) == len && m == Reversed(len) + Reversed(version) + Concat(ds)
  {
    assert m[..4] == Reversed(len);
  }

  /** The grown buffer with the entry copied behind the last one. */
  lemma AppendEntry(before: Bytes, after: Bytes, entries: seq<Bytes>, c: Bytes, m: Bytes)
    requires |before| >= 8 && before == before[..8] + Concat(entries) && |before| + |c| < 0x1_0000_0000
    requires c <= m
    requires var g := Store32(|before| + |c|) + before[4..] + seq(|c|, _ => 0);
             after == g[..|before|] + m[..|c|] + g[|before| + |c|..]
    ensures after == after[..8] + Concat(entries + [c])
    ensures Load32(after[..4]) == |after| == |before| + |c|
  {
    ConcatAppend(entries, [c]);
    ConcatOne(c);
    var h := Store32(|before| + |c|);
    assert m[..|c|] == c;
    var g := h + before[4..] + seq(|c|, _ => 0);
    assert g[..|before|] == h + before[4..];
    assert g[|before| + |c|..] == [];
    assert after == h + before[4..] + c;
    assert after[..4] == h;
    assert before[4..] == before[4..8] + Concat(entries);
    assert after[..8] == h + before[4..8];
  }
}
