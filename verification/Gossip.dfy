/**
 * The discovery protocol: nodes broadcast their lists, and merge the lists they receive by UUID
 * (NET_HandleBcast in app/net.c, NODE_MaybeAddEntry and NODE_CheckForNewNodes in app/node.c).
 */
module Gossip {

  /** An entry of a node list: its UUID and all of its bytes. */
  datatype Entry = Entry(uuid: seq<int>, bytes: seq<int>)

  type List = seq<Entry>

  // ---------------------------------------------------------------- merging

  predicate Knows(list: List, uuid: seq<int>) {
    exists c <- list :: c.uuid == uuid
  }

  /** NODE_MaybeAddEntry: an entry of an unknown UUID goes to the end. */
  function MergeOne(list: List, e: Entry): (r: List)
    ensures list <= r
  {
    if Knows(list, e.uuid) then list else list + [e]
  }

  /** NODE_CheckForNewNodes: the entries of a message, one after the other. */
  function MergeAll(list: List, entries: List): (r: List)
    ensures list <= r
    decreases |entries|
  {
    if entries == [] then list else MergeAll(MergeOne(list, entries[0]), entries[1..])
  }

  // ---------------------------------------------------------------- the system

  /** A broadcast stays deliverable: it may reach any nodes, in any order, more than once or never. */
  datatype Message = Message(sender: nat, entries: List)

  /** The lists of the nodes and the messages sent so far. */
  datatype System = System(lists: seq<List>, sent: seq<Message>)

  datatype Action = Broadcast(node: nat) | Deliver(message: nat, to: nat)

  /** Node i starts with its own entry owns[i]. */
  function Init(owns: List): System {
    System(seq(|owns|, i requires 0 <= i < |owns| => [owns[i]]), [])
  }

  /** A message with the receiver's own UUID is a loopback and is ignored. */
  predicate Accepted(owns: List, s: System, m: nat, q: nat) {
    m < |s.sent| && q < |s.lists| && q < |owns| && s.sent[m].sender < |owns| &&
    owns[s.sent[m].sender].uuid != owns[q].uuid
  }

  function Step(owns: List, s: System, a: Action): System {
    match a
    case Broadcast(p) =>
      if p < |s.lists| then s.(sent := s.sent + [Message(p, s.lists[p])]) else s
    case Deliver(m, q) =>
      if Accepted(owns, s, m, q) then s.(lists := s.lists[q := MergeAll(s.lists[q], s.sent[m].entries)]) else s
  }

  function RunFrom(owns: List, s: System, trace: seq<Action>): System
    decreases |trace|
  {
    if trace == [] then s else RunFrom(owns, Step(owns, s, trace[0]), trace[1..])
  }

  function Run(owns: List, trace: seq<Action>): System {
    RunFrom(owns, Init(owns), trace)
  }

  /**
   * What causality alone says, without looking at any list: of which nodes each node and each
   * message has heard through a chain of deliveries.
   */
  datatype Causes = Causes(nodes: seq<set<nat>>, sent: seq<set<nat>>)

  function CausalInit(n: nat): Causes {
    Causes(seq(n, i requires 0 <= i < n => {i}), [])
  }

  function CausalStep(c: Causes, a: Action): Causes {
    match a
    case Broadcast(p) => if p < |c.nodes| then c.(sent := c.sent + [c.nodes[p]]) else c
    case Deliver(m, q) =>
      if m < |c.sent| && q < |c.nodes| then c.(nodes := c.nodes[q := c.nodes[q] + c.sent[m]]) else c
  }

  function CausalFrom(c: Causes, trace: seq<Action>): Causes
    decreases |trace|
  {
    if trace == [] then c else CausalFrom(CausalStep(c, trace[0]), trace[1..])
  }

  // ---------------------------------------------------------------- merging keeps lists in order

  /** No two positions hold the same UUID. */
  ghost predicate Distinct(list: List) {
    forall i, j :: 0 <= i < j < |list| ==> list[i].uuid != list[j].uuid
  }

  ghost function Elements(list: List): set<Entry> {
    set c | c in list
  }

  /** Within u a UUID belongs to one entry only. */
  ghost predicate Identified(u: set<Entry>) {
    forall c, d :: c in u && d in u && c.uuid == d.uuid ==> c == d
  }

  lemma MergeOneElements(list: List, e: Entry, u: set<Entry>)
    requires Identified(u) && Distinct(list) && Elements(list) <= u && e in u
    ensures Distinct(MergeOne(list, e)) && Elements(MergeOne(list, e)) == Elements(list) + {e}
    ensures e in list ==> MergeOne(list, e) == list
  {
    if Knows(list, e.uuid) {
      var c :| c in list && c.uuid == e.uuid;
      assert c in u;
      assert Elements(list) + {e} == Elements(list);
    } else {
      assert forall i :: 0 <= i < |list| ==> list[i] in list;
    }
  }

  /** Merging unites what the lists contain, whatever the order, and adds nothing twice. */
  lemma {:induction false} MergeAllElements(list: List, entries: List, u: set<Entry>)
    requires Identified(u) && Distinct(list) && Elements(list) <= u && Elements(entries) <= u
    ensures Distinct(MergeAll(list, entries))
    ensures Elements(MergeAll(list, entries)) == Elements(list) + Elements(entries)
    ensures Elements(entries) <= Elements(list) ==> MergeAll(list, entries) == list
    decreases |entries|
  {
    if entries == [] {
      assert Elements(list) + Elements(entries) == Elements(list);
    } else {
      var e, rest := entries[0], entries[1..];
      assert Elements(entries) == {e} + Elements(rest);
      MergeOneElements(list, e, u);
      MergeAllElements(MergeOne(list, e), rest, u);
    }
  }

  // ---------------------------------------------------------------- the invariant

  ghost function Image(owns: List, known: set<nat>): set<Entry> {
    set j | j in known && j < |owns| :: owns[j]
  }

  /** The list holds exactly the own entries of the known nodes. */
  ghost predicate Holds(owns: List, list: List, known: set<nat>) {
    Distinct(list) && Elements(list) == Image(owns, known) && forall j <- known :: j < |owns|
  }

  ghost predicate NodeOk(owns: List, s: System, c: Causes, i: nat)
    requires i < |s.lists| && i < |owns| && i < |c.nodes|
  {
    Holds(owns, s.lists[i], c.nodes[i]) && i in c.nodes[i] && [owns[i]] <= s.lists[i]
  }

  ghost predicate MessageOk(owns: List, s: System, c: Causes, m: nat)
    requires m < |s.sent| && m < |c.sent| && |c.nodes| == |owns|
  {
    Holds(owns, s.sent[m].entries, c.sent[m]) && s.sent[m].sender < |owns| &&
    c.sent[m] <= c.nodes[s.sent[m].sender]
  }

  ghost predicate Consistent(owns: List, s: System, c: Causes) {
    |s.lists| == |owns| && |c.nodes| == |owns| && |s.sent| == |c.sent| &&
    (forall i: nat :: i < |owns| ==> NodeOk(owns, s, c, i)) &&
    (forall m: nat :: m < |s.sent| ==> MessageOk(owns, s, c, m))
  }

  lemma DistinctIdentified(owns: List)
    requires Distinct(owns)
    ensures Identified(Elements(owns))
  {
    forall c, d | c in owns && d in owns && c.uuid == d.uuid
      ensures c == d
    {
      var i :| 0 <= i < |owns| && owns[i] == c;
      var j :| 0 <= j < |owns| && owns[j] == d;
    }
  }

  lemma MergeHolds(owns: List, list: List, known: set<nat>, entries: List, told: set<nat>)
    requires Distinct(owns) && Holds(owns, list, known) && Holds(owns, entries, told)
    ensures Holds(owns, MergeAll(list, entries), known + told)
    ensures told <= known ==> MergeAll(list, entries) == list
  {
    DistinctIdentified(owns);
    MergeAllElements(list, entries, Elements(owns));
    assert Image(owns, known + told) == Image(owns, known) + Image(owns, told);
    if told <= known {
      assert Image(owns, told) <= Image(owns, known);
    }
  }

  lemma InitConsistent(owns: List)
    ensures Consistent(owns, Init(owns), CausalInit(|owns|))
  {
    var s, c := Init(owns), CausalInit(|owns|);
    forall i: nat | i < |owns|
      ensures NodeOk(owns, s, c, i)
    {
      assert Elements(s.lists[i]) == {owns[i]} == Image(owns, {i});
    }
  }

  lemma BroadcastConsistent(owns: List, s: System, c: Causes, p: nat)
    requires Consistent(owns, s, c) && p < |owns|
    ensures Consistent(owns, Step(owns, s, Broadcast(p)), CausalStep(c, Broadcast(p)))
  {
    var s', c' := Step(owns, s, Broadcast(p)), CausalStep(c, Broadcast(p));
    forall i: nat | i < |owns|
      ensures NodeOk(owns, s', c', i)
    {
      assert NodeOk(owns, s, c, i);
    }
    forall m: nat | m < |s'.sent|
      ensures MessageOk(owns, s', c', m)
    {
      if m < |s.sent| {
        assert MessageOk(owns, s, c, m);
      } else {
        assert NodeOk(owns, s, c, p);
      }
    }
  }

  lemma DeliverConsistent(owns: List, s: System, c: Causes, m: nat, q: nat)
    requires Distinct(owns) && Consistent(owns, s, c) && m < |s.sent| && q < |owns|
    ensures Consistent(owns, Step(owns, s, Deliver(m, q)), CausalStep(c, Deliver(m, q)))
    ensures c.sent[m] <= c.nodes[q] ==> Step(owns, s, Deliver(m, q)) == s
  {
    var s', c' := Step(owns, s, Deliver(m, q)), CausalStep(c, Deliver(m, q));
    assert MessageOk(owns, s, c, m) && NodeOk(owns, s, c, q);
    MergeHolds(owns, s.lists[q], c.nodes[q], s.sent[m].entries, c.sent[m]);
    if s.sent[m].sender == q {
      assert c.nodes[q] + c.sent[m] == c.nodes[q];
    } else {
      assert Accepted(owns, s, m, q);
    }
    forall i: nat | i < |owns|
      ensures NodeOk(owns, s', c', i)
    {
      assert NodeOk(owns, s, c, i);
    }
    forall k: nat | k < |s'.sent|
      ensures MessageOk(owns, s', c', k)
    {
      assert MessageOk(owns, s, c, k);
    }
    if c.sent[m] <= c.nodes[q] {
      assert s.lists[q := s.lists[q]] == s.lists;
    }
  }

  lemma StepConsistent(owns: List, s: System, c: Causes, a: Action)
    requires Distinct(owns) && Consistent(owns, s, c)
    ensures Consistent(owns, Step(owns, s, a), CausalStep(c, a))
  {
    match a
    case Broadcast(p) =>
      if p < |owns| {
        BroadcastConsistent(owns, s, c, p);
      }
    case Deliver(m, q) =>
      if m < |s.sent| && q < |owns| {
        DeliverConsistent(owns, s, c, m, q);
      }
  }

  lemma {:induction false} RunConsistent(owns: List, s: System, c: Causes, trace: seq<Action>)
    requires Distinct(owns) && Consistent(owns, s, c)
    ensures Consistent(owns, RunFrom(owns, s, trace), CausalFrom(c, trace))
    decreases |trace|
  {
    if trace != [] {
      StepConsistent(owns, s, c, trace[0]);
      RunConsistent(owns, Step(owns, s, trace[0]), CausalStep(c, trace[0]), trace[1..]);
    }
  }

  function Causal(n: nat, trace: seq<Action>): Causes {
    CausalFrom(CausalInit(n), trace)
  }

  lemma Reachable(owns: List, trace: seq<Action>)
    requires Distinct(owns)
    ensures Consistent(owns, Run(owns, trace), Causal(|owns|, trace))
  {
    InitConsistent(owns);
    RunConsistent(owns, Init(owns), CausalInit(|owns|), trace);
  }

  // ---------------------------------------------------------------- what every run guarantees

  /** Each node's list begins with its own entry and never holds two entries of one UUID. */
  lemma OwnFirstAndDistinct(owns: List, trace: seq<Action>, i: nat)
    requires Distinct(owns) && i < |owns|
    ensures i < |Run(owns, trace).lists|
    ensures [owns[i]] <= Run(owns, trace).lists[i] && Distinct(Run(owns, trace).lists[i])
  {
    Reachable(owns, trace);
    assert NodeOk(owns, Run(owns, trace), Causal(|owns|, trace), i);
  }

  /** c stands in a list or a message of s. */
  ghost predicate Occurs(s: System, c: Entry) {
    (exists i: nat :: i < |s.lists| && c in s.lists[i]) || (exists m: nat :: m < |s.sent| && c in s.sent[m].entries)
  }

  lemma OccursInOwns(owns: List, trace: seq<Action>, c: Entry)
    requires Distinct(owns) && Occurs(Run(owns, trace), c)
    ensures c in owns
  {
    Reachable(owns, trace);
    var s, k := Run(owns, trace), Causal(|owns|, trace);
    if i: nat :| i < |s.lists| && c in s.lists[i] {
      assert NodeOk(owns, s, k, i);
      assert c in Elements(s.lists[i]);
    } else {
      var m: nat :| m < |s.sent| && c in s.sent[m].entries;
      assert MessageOk(owns, s, k, m);
      assert c in Elements(s.sent[m].entries);
    }
  }

  /** Any two copies of an entry, in any lists or messages, are identical: nobody holds a different entry of that UUID. */
  lemma CopiesIdentical(owns: List, trace: seq<Action>, c: Entry, d: Entry)
    requires Distinct(owns) && Occurs(Run(owns, trace), c) && Occurs(Run(owns, trace), d) && c.uuid == d.uuid
    ensures c == d
  {
    OccursInOwns(owns, trace, c);
    OccursInOwns(owns, trace, d);
    DistinctIdentified(owns);
    assert c in Elements(owns) && d in Elements(owns);
  }

  /** A node knows exactly the nodes from which a causal chain of deliveries leads to it. */
  lemma KnowledgeIsCausalPast(owns: List, trace: seq<Action>, p: nat, q: nat)
    requires Distinct(owns) && p < |owns| && q < |owns|
    ensures q < |Run(owns, trace).lists| && q < |Causal(|owns|, trace).nodes|
    ensures Knows(Run(owns, trace).lists[q], owns[p].uuid) <==> p in Causal(|owns|, trace).nodes[q]
  {
    Reachable(owns, trace);
    var s, k := Run(owns, trace), Causal(|owns|, trace);
    assert NodeOk(owns, s, k, q);
    if Knows(s.lists[q], owns[p].uuid) {
      var c :| c in s.lists[q] && c.uuid == owns[p].uuid;
      assert c in Elements(s.lists[q]);
      var j :| j in k.nodes[q] && j < |owns| && owns[j] == c;
      assert j == p;
    }
    if p in k.nodes[q] {
      assert owns[p] in Elements(s.lists[q]);
    }
  }

  lemma {:induction false} CausalAppend(c: Causes, trace: seq<Action>, more: seq<Action>)
    ensures CausalFrom(c, trace + more) == CausalFrom(CausalFrom(c, trace), more)
    decreases |trace|
  {
    if trace == [] {
      assert trace + more == more;
    } else {
      assert (trace + more)[0] == trace[0] && (trace + more)[1..] == trace[1..] + more;
      CausalAppend(CausalStep(c, trace[0]), trace[1..], more);
    }
  }

  /** Lists only grow, at the end, over any continuation of any run. */
  lemma {:induction false} ListsGrow(owns: List, s: System, more: seq<Action>, i: nat)
    requires i < |s.lists|
    ensures |RunFrom(owns, s, more).lists| == |s.lists| && s.lists[i] <= RunFrom(owns, s, more).lists[i]
    decreases |more|
  {
    if more != [] {
      var s' := Step(owns, s, more[0]);
      assert |s'.lists| == |s.lists| && s.lists[i] <= s'.lists[i];
      ListsGrow(owns, s', more[1..], i);
    }
  }

  lemma {:induction false} CausesGrow(c: Causes, more: seq<Action>, m: nat, q: nat)
    requires m < |c.sent| && q < |c.nodes|
    ensures var d := CausalFrom(c, more);
      m < |d.sent| && d.sent[m] == c.sent[m] && q < |d.nodes| && c.nodes[q] <= d.nodes[q]
    decreases |more|
  {
    if more != [] {
      var c' := CausalStep(c, more[0]);
      assert m < |c'.sent| && c'.sent[m] == c.sent[m] && q < |c'.nodes| && c.nodes[q] <= c'.nodes[q];
      CausesGrow(c', more[1..], m, q);
    }
  }

  /** Once a message has been delivered to a node, delivering it again, at any later time, changes nothing. */
  lemma RedeliveryIsIdle(owns: List, trace: seq<Action>, m: nat, q: nat, more: seq<Action>)
    requires Distinct(owns) && q < |owns| && m < |Run(owns, trace).sent|
    ensures var later := Run(owns, trace + [Deliver(m, q)] + more);
      Step(owns, later, Deliver(m, q)) == later
  {
    var n, once := |owns|, trace + [Deliver(m, q)];
    Reachable(owns, trace);
    Reachable(owns, once);
    Reachable(owns, once + more);
    CausalAppend(CausalInit(n), trace, [Deliver(m, q)]);
    CausalAppend(CausalInit(n), once, more);
    var c := Causal(n, trace);
    assert CausalFrom(c, [Deliver(m, q)]) == CausalStep(c, Deliver(m, q));
    CausesGrow(Causal(n, once), more, m, q);
    DeliverConsistent(owns, Run(owns, once + more), Causal(n, once + more), m, q);
  }

  /** What the sender knew when it sent a message, a receiver knows after its delivery, and ever after. */
  lemma DeliveryInforms(owns: List, trace: seq<Action>, p: nat, q: nat, r: nat, between: seq<Action>, after: seq<Action>)
    requires Distinct(owns) && p < |owns| && q < |owns| && r < |owns|
    requires var s := Run(owns, trace); r < |s.lists| && p < |s.lists| && Knows(s.lists[p], owns[r].uuid)
    ensures var m := |Run(owns, trace).sent|;
      var end := Run(owns, trace + [Broadcast(p)] + between + [Deliver(m, q)] + after);
      q < |end.lists| && Knows(end.lists[q], owns[r].uuid)
  {
    var n, m := |owns|, |Run(owns, trace).sent|;
    var t1 := trace + [Broadcast(p)];
    var t2 := t1 + between;
    var t3 := t2 + [Deliver(m, q)];
    Reachable(owns, trace);
    KnowledgeIsCausalPast(owns, trace, r, p);
    CausalAppend(CausalInit(n), trace, [Broadcast(p)]);
    var c := Causal(n, trace);
    assert CausalFrom(c, [Broadcast(p)]) == CausalStep(c, Broadcast(p));
    CausesGrow(Causal(n, t1), between, m, q);
    CausalAppend(CausalInit(n), t1, between);
    CausalAppend(CausalInit(n), t2, [Deliver(m, q)]);
    assert CausalFrom(Causal(n, t2), [Deliver(m, q)]) == CausalStep(Causal(n, t2), Deliver(m, q));
    CausesGrow(Causal(n, t3), after, m, q);
    CausalAppend(CausalInit(n), t3, after);
    KnowledgeIsCausalPast(owns, t3 + after, r, q);
  }
}
