/** The doubly linked list of ranges of src/mem/vm.c. */
module RangeList {
  import opened Common

  const NULL := 0

  datatype Flags = Flags(rw: bool, user: bool)

  /** One page of a range that vm_map made. */
  datatype Shard = Shard(addr: nat, phys: nat)

  /** What a range says about the address space: phys is NULL for a range made of shards. */
  datatype Area = Area(addr: nat, size: nat, phys: nat, shards: seq<Shard>, flags: Flags)

  /** struct vm_alloc. */
  datatype Node = Node(next: nat, previous: nat, area: Area)

  /** The pointer at place i of the list, NULL off its ends. */
  function At(order: seq<nat>, i: int): (p: nat) { if 0 <= i < |order| then order[i] else NULL }

  /** Node i of the list points to its neighbours. */
  predicate Placed(nodes: map<nat, Node>, order: seq<nat>, i: nat) {
    && i < |order| && order[i] != NULL && order[i] in nodes
    && nodes[order[i]].next == At(order, i + 1) && nodes[order[i]].previous == At(order, i - 1)
  }

  /** The nodes hang together in the given order, both ways, and there are no others. */
  predicate Linked(nodes: map<nat, Node>, head: nat, order: seq<nat>) {
    && head == At(order, 0)
    && (forall i: nat :: i < |order| ==> Placed(nodes, order, i))
    && AllDifferent(order)
    && nodes.Keys == set p | p in order
  }

  lemma Member(nodes: map<nat, Node>, head: nat, order: seq<nat>, i: nat)
    requires Linked(nodes, head, order) && i < |order|
    ensures order[i] != NULL && order[i] in nodes
    ensures nodes[order[i]].next == At(order, i + 1) && nodes[order[i]].previous == At(order, i - 1)
  {
    assert Placed(nodes, order, i);
  }

  /** The areas in list order. */
  function Areas(nodes: map<nat, Node>, order: seq<nat>): (s: seq<Area>) {
    if order == [] || order[0] !in nodes then [] else [nodes[order[0]].area] + Areas(nodes, order[1..])
  }

  lemma {:induction false} AreasAt(nodes: map<nat, Node>, order: seq<nat>)
    requires forall i :: 0 <= i < |order| ==> order[i] in nodes
    ensures |Areas(nodes, order)| == |order|
    ensures forall i :: 0 <= i < |order| ==> Areas(nodes, order)[i] == nodes[order[i]].area
  {
    if order != [] {
      AreasAt(nodes, order[1..]);
      forall i | 0 < i < |order| ensures Areas(nodes, order)[i] == nodes[order[i]].area {
        assert order[i] == order[1..][i - 1];
      }
    }
  }

  lemma LinkedAreas(nodes: map<nat, Node>, head: nat, order: seq<nat>)
    requires Linked(nodes, head, order)
    ensures |Areas(nodes, order)| == |order|
    ensures forall i :: 0 <= i < |order| ==> order[i] in nodes && Areas(nodes, order)[i] == nodes[order[i]].area
  {
    hide Areas;
    forall i | 0 <= i < |order| ensures order[i] in nodes {
      assert Placed(nodes, order, i);
    }
    AreasAt(nodes, order);
  }

  /** The areas of the nodes of order are the same in both. */
  lemma {:induction false} AreasKept(nodes: map<nat, Node>, nodes': map<nat, Node>, order: seq<nat>)
    requires forall p :: p in order ==> p in nodes && p in nodes' && nodes[p].area == nodes'[p].area
    ensures Areas(nodes', order) == Areas(nodes, order)
  {
    if order != [] {
      assert order[0] in order;
      AreasKept(nodes, nodes', order[1..]);
    }
  }

  // ---------------------------------------------------------------- insert_range

  function Inserted(nodes: map<nat, Node>, head: nat, spare: nat, area: Area): (r: map<nat, Node>) {
    (if head in nodes then nodes[head := nodes[head].(previous := spare)] else nodes)[spare := Node(head, NULL, area)]
  }

  lemma InsertNode(nodes: map<nat, Node>, head: nat, order: seq<nat>, spare: nat, area: Area, i: nat)
    requires Linked(nodes, head, order) && spare != NULL && spare !in nodes && i <= |order|
    ensures Placed(Inserted(nodes, head, spare, area), [spare] + order, i)
  {
    hide Linked;
    HeadOf(nodes, head, order);
    if i > 0 {
      Member(nodes, head, order, i - 1);
      HeadIs(nodes, head, order, i - 1);
    }
  }

  lemma HeadOf(nodes: map<nat, Node>, head: nat, order: seq<nat>)
    requires Linked(nodes, head, order)
    ensures head == At(order, 0) && (head in nodes <==> order != []) && (order == [] <==> head == NULL) && NULL !in nodes
  {
    if order != [] { Member(nodes, head, order, 0); }
    forall p | p in nodes ensures p != NULL {
      var i :| 0 <= i < |order| && order[i] == p;
      Member(nodes, head, order, i);
    }
  }

  lemma HeadIs(nodes: map<nat, Node>, head: nat, order: seq<nat>, i: nat)
    requires Linked(nodes, head, order) && i < |order|
    ensures order[i] == head <==> i == 0
  {
  }

  lemma InsertLinked(nodes: map<nat, Node>, head: nat, order: seq<nat>, spare: nat, area: Area)
    requires Linked(nodes, head, order) && spare != NULL && spare !in nodes
    ensures Linked(Inserted(nodes, head, spare, area), spare, [spare] + order)
    ensures Areas(Inserted(nodes, head, spare, area), [spare] + order) == [area] + Areas(nodes, order)
  {
    var nodes', order' := Inserted(nodes, head, spare, area), [spare] + order;
    forall i: nat | i < |order'| ensures Placed(nodes', order', i) {
      hide Linked, Inserted, Placed;
      InsertNode(nodes, head, order, spare, area, i);
    }
    hide Placed, Areas;
    HeadOf(nodes, head, order);
    assert nodes'.Keys == nodes.Keys + {spare};
    AreasKept(nodes, nodes', order);
    AreasCons(nodes', spare, order);
  }

  lemma AreasCons(nodes: map<nat, Node>, p: nat, order: seq<nat>)
    requires p in nodes
    ensures Areas(nodes, [p] + order) == [nodes[p].area] + Areas(nodes, order)
  {
    assert ([p] + order)[1..] == order;
  }

  /** insert_range. */
  method Insert(nodes0: map<nat, Node>, head0: nat, spare: nat, area: Area, ghost order: seq<nat>)
    returns (nodes: map<nat, Node>, head: nat)
    requires Linked(nodes0, head0, order) && spare != NULL && spare !in nodes0
    ensures Linked(nodes, head, [spare] + order) && head == spare
    ensures Areas(nodes, [spare] + order) == [area] + Areas(nodes0, order)
  {
    hide Linked, Areas;
    HeadOf(nodes0, head0, order);
    InsertLinked(nodes0, head0, order, spare, area);
    nodes := nodes0[spare := Node(NULL, NULL, area)];
    if head0 != NULL {
      nodes := nodes[head0 := nodes[head0].(previous := spare)];
    }
    nodes := nodes[spare := nodes[spare].(next := head0)];
    head := spare;
    assert nodes == Inserted(nodes0, head0, spare, area);
  }

  /** A change of the first node's area leaves the list alone. */
  lemma Retouch(nodes: map<nat, Node>, head: nat, order: seq<nat>, area: Area)
    requires Linked(nodes, head, order) && order != []
    ensures head == order[0] && head in nodes
    ensures Linked(nodes[head := nodes[head].(area := area)], head, order)
    ensures Areas(nodes, order) == [nodes[head].area] + Areas(nodes, order[1..])
    ensures Areas(nodes[head := nodes[head].(area := area)], order) == [area] + Areas(nodes, order[1..])
  {
    Member(nodes, head, order, 0);
    var nodes' := nodes[head := nodes[head].(area := area)];
    forall i: nat | i < |order| ensures Placed(nodes', order, i) {
      assert Placed(nodes, order, i);
    }
    hide Placed;
    forall p | p in order[1..] ensures p in nodes && p in nodes' && nodes[p].area == nodes'[p].area {
      var i :| 0 <= i < |order[1..]| && order[1..][i] == p;
      assert p == order[i + 1];
      HeadIs(nodes, head, order, i + 1);
      Member(nodes, head, order, i + 1);
    }
    AreasKept(nodes, nodes', order[1..]);
  }

  // ---------------------------------------------------------------- unlinking in vm_free

  function Without(order: seq<nat>, k: nat): (s: seq<nat>)
    requires k < |order|
    ensures |s| == |order| - 1
    ensures forall i :: 0 <= i < |s| ==> s[i] == order[if i < k then i else i + 1]
  {
    order[..k] + order[k + 1..]
  }

  lemma WithoutMembers(order: seq<nat>, k: nat)
    requires k < |order| && AllDifferent(order)
    ensures AllDifferent(Without(order, k))
    ensures (set p | p in Without(order, k)) == (set p | p in order) - {order[k]}
  {
    var rest := Without(order, k);
    forall p | p in order && p != order[k] ensures p in rest {
      var i :| 0 <= i < |order| && order[i] == p;
      assert rest[if i < k then i else i - 1] == p;
    }
  }

  function SetPrevious(nodes: map<nat, Node>, p: nat, q: nat): (r: map<nat, Node>) {
    if p in nodes then nodes[p := nodes[p].(previous := q)] else nodes
  }

  function SetNext(nodes: map<nat, Node>, p: nat, q: nat): (r: map<nat, Node>) {
    if p in nodes then nodes[p := nodes[p].(next := q)] else nodes
  }

  function Removed(nodes: map<nat, Node>, range: nat): (r: map<nat, Node>)
    requires range in nodes
  {
    SetNext(SetPrevious(nodes, nodes[range].next, nodes[range].previous), nodes[range].previous, nodes[range].next) - {range}
  }

  lemma RemovedKeys(nodes: map<nat, Node>, range: nat)
    requires range in nodes
    ensures Removed(nodes, range).Keys == nodes.Keys - {range}
    ensures forall p :: p in Removed(nodes, range) ==> Removed(nodes, range)[p].area == nodes[p].area
  {
  }

  lemma RemovedAt(nodes: map<nat, Node>, range: nat, p: nat)
    requires range in nodes && p in nodes && p != range
    ensures var r := Removed(nodes, range);
      && p in r
      && r[p].next == (if p == nodes[range].previous then nodes[range].next else nodes[p].next)
      && r[p].previous == (if p == nodes[range].next then nodes[range].previous else nodes[p].previous)
  {
  }

  /** No node before i or after it is node i. */
  lemma Elsewhere(order: seq<nat>, j: nat, k: nat)
    requires AllDifferent(order) && j < |order| && k < |order| && j != k && order[j] != NULL
    ensures order[j] != order[k]
    ensures order[j] == At(order, k + 1) <==> j == k + 1
    ensures order[j] == At(order, k - 1) <==> j == k - 1
  {
  }

  lemma AtWithout(order: seq<nat>, k: nat, i: nat)
    requires k < |order| && i < |order| - 1
    ensures var j := if i < k then i else i + 1;
      && Without(order, k)[i] == order[j]
      && At(Without(order, k), i + 1) == (if j == k - 1 then At(order, k + 1) else At(order, j + 1))
      && At(Without(order, k), i - 1) == (if j == k + 1 then At(order, k - 1) else At(order, j - 1))
  {
  }

  lemma RemoveNode(nodes: map<nat, Node>, head: nat, order: seq<nat>, k: nat, i: nat)
    requires Linked(nodes, head, order) && k < |order| && order[k] in nodes && i < |order| - 1
    ensures Placed(Removed(nodes, order[k]), Without(order, k), i)
  {
    assert AllDifferent(order);
    hide Linked, AllDifferent, Removed, Without, At;
    var j: nat := if i < k then i else i + 1;
    Member(nodes, head, order, k);
    Member(nodes, head, order, j);
    Elsewhere(order, j, k);
    RemovedAt(nodes, order[k], order[j]);
    AtWithout(order, k, i);
  }

  lemma RemoveLinked(nodes: map<nat, Node>, head: nat, order: seq<nat>, k: nat)
    requires Linked(nodes, head, order) && k < |order|
    ensures order[k] in nodes
    ensures Linked(Removed(nodes, order[k]), if head == order[k] then nodes[order[k]].next else head, Without(order, k))
  {
    Member(nodes, head, order, k);
    HeadIs(nodes, head, order, k);
    WithoutMembers(order, k);
    RemovedKeys(nodes, order[k]);
    hide Placed, Removed, AllDifferent;
    var nodes', rest := Removed(nodes, order[k]), Without(order, k);
    forall i: nat | i < |rest| ensures Placed(nodes', rest, i) {
      hide Linked;
      RemoveNode(nodes, head, order, k, i);
    }
  }

  lemma RemoveAreas(nodes: map<nat, Node>, head: nat, order: seq<nat>, k: nat)
    requires Linked(nodes, head, order) && k < |order|
    ensures order[k] in nodes && |Areas(nodes, order)| == |order|
    ensures Areas(Removed(nodes, order[k]), Without(order, k)) == Areas(nodes, order)[..k] + Areas(nodes, order)[k + 1..]
  {
    hide Areas, Removed;
    RemoveLinked(nodes, head, order, k);
    RemovedKeys(nodes, order[k]);
    LinkedAreas(nodes, head, order);
    LinkedAreas(Removed(nodes, order[k]), if head == order[k] then nodes[order[k]].next else head, Without(order, k));
    SameAreas(Areas(Removed(nodes, order[k]), Without(order, k)), Areas(nodes, order), nodes, Removed(nodes, order[k]), order, k);
  }

  lemma SameAreas(rest: seq<Area>, all: seq<Area>, nodes: map<nat, Node>, nodes': map<nat, Node>, order: seq<nat>, k: nat)
    requires |all| == |order| && |rest| == |order| - 1 && k < |order|
    requires forall i :: 0 <= i < |order| ==> order[i] in nodes && all[i] == nodes[order[i]].area
    requires forall i :: 0 <= i < |rest| ==>
      Without(order, k)[i] in nodes' && rest[i] == nodes'[Without(order, k)[i]].area
    requires forall p :: p in nodes' ==> p in nodes && nodes'[p].area == nodes[p].area
    ensures rest == all[..k] + all[k + 1..]
  {
    forall i | 0 <= i < |rest| ensures rest[i] == (all[..k] + all[k + 1..])[i] {
      var j := if i < k then i else i + 1;
      assert Without(order, k)[i] == order[j];
      assert (all[..k] + all[k + 1..])[i] == all[j];
    }
  }

  /** The unlinking part of vm_free, and the release of the node. */
  method Remove(nodes0: map<nat, Node>, head0: nat, range: nat, ghost order: seq<nat>, ghost k: nat)
    returns (nodes: map<nat, Node>, head: nat)
    requires Linked(nodes0, head0, order) && k < |order| && range == order[k]
    ensures Linked(nodes, head, Without(order, k))
    ensures k < |Areas(nodes0, order)|
    ensures Areas(nodes, Without(order, k)) == Areas(nodes0, order)[..k] + Areas(nodes0, order)[k + 1..]
  {
    hide Linked, Areas, Without;
    RemoveLinked(nodes0, head0, order, k);
    RemoveAreas(nodes0, head0, order, k);
    HeadOf(nodes0, head0, order);
    LinkedAreas(nodes0, head0, order);
    Neighbours(nodes0, head0, order, k);
    nodes, head := nodes0, head0;
    var r := nodes[range];
    if head == range {
      head := r.next;
    }
    if r.next != NULL {
      nodes := nodes[r.next := nodes[r.next].(previous := r.previous)];
    }
    if r.previous != NULL {
      nodes := nodes[r.previous := nodes[r.previous].(next := r.next)];
    }
    nodes := nodes - {range};
  }

  lemma Neighbours(nodes: map<nat, Node>, head: nat, order: seq<nat>, k: nat)
    requires Linked(nodes, head, order) && k < |order|
    ensures order[k] in nodes && order[k] != NULL
    ensures nodes[order[k]].next != NULL <==> nodes[order[k]].next in nodes
    ensures nodes[order[k]].previous != NULL <==> nodes[order[k]].previous in nodes
  {
    hide Linked;
    HeadOf(nodes, head, order);
    Member(nodes, head, order, k);
    if k + 1 < |order| { Member(nodes, head, order, k + 1); }
    if k > 0 { Member(nodes, head, order, k - 1); }
  }
}
