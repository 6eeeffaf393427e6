/**
 * Nodes exchanging messages byte by byte (NET_HandleBcast in app/net.c), proved to make the same steps as the
 * protocol of module Gossip.
 */
module Networks {
  import opened EntryLayout
  import opened EntrySwap
  import opened ListSwap
  import opened LocalEntry
  import opened NodeLists
  import opened Gossip
  import EntryWriting

  /** What is sent of a message: the sender's UUID and the list in network order. */
  datatype Packet = Packet(uuid: Bytes, list: Bytes)

  // ---------------------------------------------------------------- sizes

  function Total(list: List): nat {
    if list == [] then 0 else Total(list[..|list| - 1]) + |list[|list| - 1].bytes|
  }

  lemma {:induction false} TotalIsLength(cs: seq<Bytes>)
    ensures Total(AsList(cs)) == |Concat(cs)|
  {
    if cs != [] {
      var n := |cs| - 1;
      assert AsList(cs)[..n] == AsList(cs[..n]);
      TotalIsLength(cs[..n]);
      ConcatNext(cs, n);
      assert cs[..n + 1] == cs;
    }
  }

  lemma {:induction false} TotalRemove(list: List, k: nat)
    requires k < |list|
    ensures Total(list[..k] + list[k + 1..]) == Total(list) - |list[k].bytes|
  {
    var n := |list| - 1;
    var rest := list[..k] + list[k + 1..];
    if k == n {
      assert rest == list[..n];
    } else {
      assert rest[..n - 1] == list[..n][..k] + list[..n][k + 1..];
      TotalRemove(list[..n], k);
    }
  }

  /** Entries with distinct UUIDs taken from a list are no more, and no longer, than that list. */
  lemma {:induction false} TotalBound(list: List, all: List)
    requires Distinct(list) && Distinct(all) && Elements(list) <= Elements(all)
    ensures Total(list) <= Total(all) && |list| <= |all|
  {
    if list != [] {
      var n := |list| - 1;
      var e := list[n];
      assert e in Elements(list);
      var k: nat :| k < |all| && all[k] == e;
      var rest := all[..k] + all[k + 1..];
      TotalRemove(all, k);
      forall c | c in Elements(list[..n])
        ensures c in Elements(rest)
      {
        assert c in Elements(list);
        var i: nat :| i < n && list[i] == c;
        var j: nat :| j < |all| && all[j] == c;
        assert j != k;
        assert c == if j < k then rest[j] else rest[j - 1];
      }
      RemoveDistinct(all, k);
      TotalBound(list[..n], rest);
    }
  }

  lemma RemoveDistinct(all: List, k: nat)
    requires Distinct(all) && k < |all|
    ensures Distinct(all[..k] + all[k + 1..])
  {
  }

  lemma HoldsBound(owns: List, list: List, known: set<nat>)
    requires Distinct(owns) && Holds(owns, list, known)
    ensures Total(list) <= Total(owns) && |list| <= |owns|
  {
    TotalBound(list, owns);
  }

  // ---------------------------------------------------------------- representation

  /** The bytes are these entries in network order. */
  ghost predicate Carries(bytes: Bytes, len: Bytes, version: Bytes, cs: seq<Bytes>, entries: List) {
    |len| == 4 && |version| == 4 && AreEntries(cs) && AsList(cs) == entries &&
    Load32(len) == 8 + |Concat(cs)| && bytes == Wire(len, version, cs)
  }

  ghost predicate Sent(owns: List, p: Packet, m: Message) {
    m.sender < |owns| && p.uuid == owns[m.sender].uuid &&
    exists len, version, cs :: Carries(p.list, len, version, cs, m.entries)
  }

  ghost predicate Node(t: NodeTable, own: Entry, list: List)
    reads t
  {
    t.Valid() && t.localUuid == own.uuid && t.Value() == list
  }

  /** The memories of the nodes and the packets stand for a state of the protocol. */
  ghost predicate Represents(owns: List, tables: seq<NodeTable>, packets: seq<Packet>, s: System)
    reads tables
  {
    |tables| == |s.lists| == |owns| && |packets| == |s.sent| &&
    (forall i, j :: 0 <= i < j < |tables| ==> tables[i] != tables[j]) &&
    (forall i :: 0 <= i < |tables| ==> Node(tables[i], owns[i], s.lists[i])) &&
    (forall m :: 0 <= m < |packets| ==> Sent(owns, packets[m], s.sent[m]))
  }

  /** At most 512 nodes (the table of pointers in NODE_ListToBE), all of whose entries fit into a message. */
  ghost predicate Fits(owns: List, room: nat) {
    |owns| <= 512 && 8 + Total(owns) <= room < 0x8000_0000
  }

  lemma TableSize(t: NodeTable)
    requires t.Valid()
    ensures |t.nl| == 8 + Total(t.Value()) && |t.entries| == |t.Value()|
  {
    TotalIsLength(t.entries);
  }

  // ---------------------------------------------------------------- steps

  method SendPacket(tables: seq<NodeTable>, p: nat, room: nat, ghost owns: List, ghost s: System, ghost c: Causes)
    returns (packet: Packet)
    requires p < |tables| && |tables| == |owns| && Distinct(owns) && Fits(owns, room)
    requires |s.lists| == |owns| && Consistent(owns, s, c) && Node(tables[p], owns[p], s.lists[p])
    modifies tables[p]
    ensures Node(tables[p], owns[p], s.lists[p])
    ensures Sent(owns, packet, Message(p, s.lists[p]))
  {
    var t := tables[p];
    assert NodeOk(owns, s, c, p);
    HoldsBound(owns, s.lists[p], c.nodes[p]);
    TableSize(t);
    var msg := new Byte[room](_ => 0);
    var n := t.Broadcast(msg);
    packet := Packet(t.localUuid, msg[..n]);
    WireCarries(t, packet.list);
  }

  lemma WireCarries(t: NodeTable, list: Bytes)
    requires t.Valid() && list == Wire(t.nl[..4], t.nl[4..8], t.entries)
    ensures Carries(list, t.nl[..4], t.nl[4..8], t.entries, t.Value())
  {
    TableSize(t);
    TotalIsLength(t.entries);
  }

  method ReceivePacket(
      tables: seq<NodeTable>, packet: Packet, q: nat, room: nat, ghost m: nat, ghost owns: List, ghost s: System,
      ghost c: Causes)
    requires q < |tables| && |tables| == |owns| && Distinct(owns) && Fits(owns, room)
    requires |s.lists| == |owns| && Consistent(owns, s, c) && Node(tables[q], owns[q], s.lists[q])
    requires m < |s.sent| && Sent(owns, packet, s.sent[m])
    modifies tables[q]
    ensures Node(tables[q], owns[q], Step(owns, s, Deliver(m, q)).lists[q])
  {
    var t := tables[q];
    assert NodeOk(owns, s, c, q) && MessageOk(owns, s, c, m);
    HoldsBound(owns, s.lists[q], c.nodes[q]);
    HoldsBound(owns, s.sent[m].entries, c.sent[m]);
    TableSize(t);
    ghost var len, version, cs :| Carries(packet.list, len, version, cs, s.sent[m].entries);
    TotalIsLength(cs);
    WireLength(len, version, cs);
    var msg := Arrive(packet.list, room);
    t.Receive(packet.uuid, msg, len, version, cs, msg[|packet.list|..]);
  }

  /** The message buffer of the receiver. */
  method Arrive(list: Bytes, room: nat) returns (msg: array<Byte>)
    requires |list| <= room
    ensures fresh(msg) && msg.Length == room && msg[..] == list + msg[|list|..]
  {
    msg := new Byte[room](i requires 0 <= i < room => if i < |list| then list[i] else 0);
  }

  lemma WireLength(len: Bytes, version: Bytes, cs: seq<Bytes>)
    requires |len| == 4 && |version| == 4 && AreEntries(cs)
    ensures |Wire(len, version, cs)| == 8 + |Concat(cs)|
  {
    SameStarts(cs, SwapAll(cs), |cs|);
    StartLast(cs);
    StartLast(SwapAll(cs));
  }

  /** Any run of the nodes, byte by byte, is the run of the protocol with the same steps. */
  method Play(tables: seq<NodeTable>, trace: seq<Action>, room: nat, ghost owns: List) returns (packets: seq<Packet>)
    requires Distinct(owns) && Fits(owns, room) && Represents(owns, tables, [], Init(owns))
    modifies tables
    ensures Represents(owns, tables, packets, Run(owns, trace))
  {
    packets := [];
    ghost var s, c := Init(owns), CausalInit(|owns|);
    InitConsistent(owns);
    for k := 0 to |trace|
      invariant Consistent(owns, s, c) && Represents(owns, tables, packets, s)
      invariant RunFrom(owns, s, trace[k..]) == Run(owns, trace)
    {
      packets := PlayOne(tables, packets, trace[k], room, owns, s, c);
      StepConsistent(owns, s, c, trace[k]);
      assert trace[k..][0] == trace[k] && trace[k..][1..] == trace[k + 1..];
      s, c := Step(owns, s, trace[k]), CausalStep(c, trace[k]);
    }
  }

  method PlayOne(
      tables: seq<NodeTable>, packets: seq<Packet>, a: Action, room: nat, ghost owns: List, ghost s: System,
      ghost c: Causes)
    returns (packets': seq<Packet>)
    requires Distinct(owns) && Fits(owns, room) && Consistent(owns, s, c) && Represents(owns, tables, packets, s)
    modifies tables
    ensures Represents(owns, tables, packets', Step(owns, s, a))
  {
    packets' := packets;
    match a
    case Broadcast(p) =>
      if p < |tables| {
        packets' := PlayBroadcast(tables, packets, p, room, owns, s, c);
      }
    case Deliver(m, q) =>
      if m < |packets| && q < |tables| {
        PlayDeliver(tables, packets, m, q, room, owns, s, c);
      }
  }

  method PlayBroadcast(
      tables: seq<NodeTable>, packets: seq<Packet>, p: nat, room: nat, ghost owns: List, ghost s: System,
      ghost c: Causes)
    returns (packets': seq<Packet>)
    requires Distinct(owns) && Fits(owns, room) && Consistent(owns, s, c) && Represents(owns, tables, packets, s)
    requires p < |tables|
    modifies tables
    ensures Represents(owns, tables, packets', Step(owns, s, Broadcast(p)))
  {
    assert Node(tables[p], owns[p], s.lists[p]);
    var packet := SendPacket(tables, p, room, owns, s, c);
    packets' := packets + [packet];
    forall i | 0 <= i < |tables|
      ensures Node(tables[i], owns[i], s.lists[i])
    {
      assert i != p ==> tables[i] != tables[p];
    }
  }

  method PlayDeliver(
      tables: seq<NodeTable>, packets: seq<Packet>, m: nat, q: nat, room: nat, ghost owns: List, ghost s: System,
      ghost c: Causes)
    requires Distinct(owns) && Fits(owns, room) && Consistent(owns, s, c) && Represents(owns, tables, packets, s)
    requires m < |packets| && q < |tables|
    modifies tables
    ensures Represents(owns, tables, packets, Step(owns, s, Deliver(m, q)))
  {
    ghost var s' := Step(owns, s, Deliver(m, q));
    assert Node(tables[q], owns[q], s.lists[q]) && Sent(owns, packets[m], s.sent[m]);
    ReceivePacket(tables, packets[m], q, room, m, owns, s, c);
    forall i | 0 <= i < |tables|
      ensures Node(tables[i], owns[i], s'.lists[i])
    {
      assert i != q ==> tables[i] != tables[q] && s'.lists[i] == s.lists[i];
    }
  }

  // ---------------------------------------------------------------- from NODE_Init on

  /** The entry node i makes for itself. */
  function OwnEntry(f: EntryWriting.Fields): Entry {
    AsEntry(Local(LocalSize(f), f))
  }

  function Owns(fields: seq<EntryWriting.Fields>): (owns: List)
    ensures |owns| == |fields| && forall i :: 0 <= i < |fields| ==> owns[i] == OwnEntry(fields[i])
  {
    seq(|fields|, i requires 0 <= i < |fields| => OwnEntry(fields[i]))
  }

  /** Fields that NODE_Init can write, with a UUID of its own. */
  ghost predicate CanStart(fields: seq<EntryWriting.Fields>) {
    (forall f <- fields :: f.Valid() && f.ips == [] && LocalSize(f) <= 4096) &&
    forall i, j :: 0 <= i < j < |fields| ==> fields[i].uuid != fields[j].uuid
  }

  lemma OwnUuid(f: EntryWriting.Fields)
    requires f.Valid() && f.ips == []
    ensures OwnEntry(f).uuid == f.uuid
  {
    LocalRead(LocalSize(f), f);
  }

  method Start(fields: seq<EntryWriting.Fields>) returns (tables: seq<NodeTable>)
    requires CanStart(fields)
    ensures fresh(tables) && Represents(Owns(fields), tables, [], Init(Owns(fields)))
  {
    tables := [];
    for i := 0 to |fields|
      invariant Started(tables, Owns(fields), i) && fresh(tables)
    {
      assert fields[i] in fields;
      var t := StartOne(fields[i]);
      StartedMore(tables, t, Owns(fields), i);
      tables := tables + [t];
    }
    StartedAll(tables, Owns(fields));
  }

  lemma StartedAll(tables: seq<NodeTable>, owns: List)
    requires Started(tables, owns, |owns|)
    ensures Represents(owns, tables, [], Init(owns))
  {
    forall i | 0 <= i < |tables|
      ensures Node(tables[i], owns[i], Init(owns).lists[i])
    {
      assert Node(tables[i], owns[i], [owns[i]]);
    }
  }

  /** The first n nodes have made their own entries. */
  ghost predicate Started(tables: seq<NodeTable>, owns: List, n: nat)
    reads tables
  {
    |tables| == n <= |owns| &&
    (forall j, k :: 0 <= j < k < n ==> tables[j] != tables[k]) &&
    (forall j :: 0 <= j < n ==> Node(tables[j], owns[j], [owns[j]]))
  }

  lemma StartedMore(tables: seq<NodeTable>, t: NodeTable, owns: List, n: nat)
    requires Started(tables, owns, n) && t !in tables && n < |owns|
    requires Node(t, owns[n], [owns[n]])
    ensures Started(tables + [t], owns, n + 1)
  {
    var more := tables + [t];
    forall j | 0 <= j < n + 1
      ensures Node(more[j], owns[j], [owns[j]])
    {
      assert j < n ==> Node(tables[j], owns[j], [owns[j]]);
    }
  }

  method StartOne(f: EntryWriting.Fields) returns (t: NodeTable)
    requires f.Valid() && f.ips == [] && LocalSize(f) <= 4096
    ensures fresh(t) && Node(t, OwnEntry(f), [OwnEntry(f)])
  {
    OwnUuid(f);
    t := new NodeTable(f);
  }

  lemma OwnsDistinct(fields: seq<EntryWriting.Fields>)
    requires CanStart(fields)
    ensures Distinct(Owns(fields))
  {
    forall i, j | 0 <= i < j < |fields|
      ensures Owns(fields)[i].uuid != Owns(fields)[j].uuid
    {
      assert fields[i] in fields && fields[j] in fields;
      OwnUuid(fields[i]);
      OwnUuid(fields[j]);
    }
  }

  /** The list contains the UUIDs of exactly the nodes in the causal past of node q. */
  ghost predicate Informed(fields: seq<EntryWriting.Fields>, trace: seq<Action>, q: nat, list: List) {
    q < |Causal(|fields|, trace).nodes| &&
    forall p: nat :: p < |fields| ==> (Knows(list, fields[p].uuid) <==> p in Causal(|fields|, trace).nodes[q])
  }

  lemma RunInforms(fields: seq<EntryWriting.Fields>, trace: seq<Action>, q: nat)
    requires CanStart(fields) && q < |fields|
    ensures q < |Run(Owns(fields), trace).lists| && Informed(fields, trace, q, Run(Owns(fields), trace).lists[q])
  {
    OwnsDistinct(fields);
    KnowledgeIsCausalPast(Owns(fields), trace, q, q);
    forall p: nat | p < |fields|
      ensures Knows(Run(Owns(fields), trace).lists[q], fields[p].uuid) <==> p in Causal(|fields|, trace).nodes[q]
    {
      assert fields[p] in fields;
      OwnUuid(fields[p]);
      KnowledgeIsCausalPast(Owns(fields), trace, p, q);
    }
  }

  /**
   * Nodes that start with NODE_Init and exchange messages in any order, with loss and repetition: in the end the
   * bytes of node q's list contain the UUID of node p exactly if a chain of deliveries leads from p to q.
   */
  method Discover(fields: seq<EntryWriting.Fields>, trace: seq<Action>, room: nat) returns (tables: seq<NodeTable>)
    requires CanStart(fields) && Fits(Owns(fields), room)
    ensures |tables| == |fields|
    ensures forall q: nat :: q < |tables| ==> tables[q].Valid() && Informed(fields, trace, q, tables[q].Value())
  {
    ghost var owns := Owns(fields);
    OwnsDistinct(fields);
    tables := Start(fields);
    var packets := Play(tables, trace, room, owns);
    forall q: nat | q < |tables|
      ensures tables[q].Valid() && Informed(fields, trace, q, tables[q].Value())
    {
      RunInforms(fields, trace, q);
      assert Node(tables[q], owns[q], Run(owns, trace).lists[q]);
    }
  }
}
