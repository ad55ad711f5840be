/** The intrusive circular doubly linked list of test/utils/include/list.h. */
module RingList {
  class Node {
    var next: Node?
    var prev: Node?

    /** A node in no ring, as `list_del` leaves one. */
    constructor ()
      ensures next == null && prev == null
    {
      next, prev := null, null;
    }
  }

  predicate Distinct(ns: seq<Node>) {
    forall i, j :: 0 <= i < j < |ns| ==> ns[i] != ns[j]
  }

  /** ns is one whole ring: each node occurs once, and next and prev lead around it in opposite
      directions. */
  ghost predicate Ring(ns: seq<Node>)
    reads ns
  {
    && Distinct(ns)
    && (forall i {:trigger ns[i].next} :: 0 <= i < |ns| ==> ns[i].next == if i + 1 == |ns| then ns[0] else ns[i + 1])
    && (forall i {:trigger ns[i].prev} :: 0 <= i < |ns| ==> ns[i].prev == if i == 0 then ns[|ns| - 1] else ns[i - 1])
  }

  /** A ring can be listed from any of its nodes on. */
  lemma RingRotates(ns: seq<Node>, k: nat)
    requires Ring(ns) && k < |ns|
    ensures Ring(ns[k..] + ns[..k])
  {
    var n := |ns|;
    forall i | 0 <= i < n
      ensures (ns[k..] + ns[..k])[i] == ns[if i + k < n then i + k else i + k - n]
    {
    }
  }

  /** `INIT_LIST_HEAD` */
  method InitListHead(list: Node)
    modifies list
    ensures Ring([list])
  {
    list.next := list;
    list.prev := list;
  }

  /** `list_empty`, `list_empty_careful` and `list_is_head` on the head of a ring. */
  method ListEmpty(head: Node, ghost ns: seq<Node>) returns (empty: bool, careful: bool, alone: bool)
    requires Ring(ns) && ns != [] && head == ns[0]
    ensures empty == careful == alone == (|ns| == 1)
  {
    empty := head.next == head;
    careful := head.next == head && head.next == head.prev;
    alone := head.prev == head;
    assert ns[0].next == if |ns| == 1 then ns[0] else ns[1];
  }

  /** `__list_add` between two neighbours. */
  method InsertBetween(node: Node, prev: Node, next: Node)
    modifies node, prev, next
    ensures node != prev && node != next ==>
              && next.prev == node && node.next == next && node.prev == prev && prev.next == node
              && (prev != next ==> next.next == old(next.next) && prev.prev == old(prev.prev))
  {
    next.prev := node;
    node.next := next;
    node.prev := prev;
    prev.next := node;
  }

  /** `list_add`: the node comes right behind the head. */
  method ListAdd(node: Node, head: Node, ghost ns: seq<Node>)
    requires Ring(ns) && ns != [] && head == ns[0] && node !in ns
    modifies node, ns
    ensures Ring([head, node] + ns[1..])
  {
    assert ns[0].next == if |ns| == 1 then ns[0] else ns[1];
    InsertBetween(node, head, head.next);
  }

  /** `list_add_tail`: the node comes right before the head, at the end of the list. */
  method ListAddTail(node: Node, head: Node, ghost ns: seq<Node>)
    requires Ring(ns) && ns != [] && head == ns[0] && node !in ns
    modifies node, ns
    ensures Ring(ns + [node])
  {
    assert ns[0].prev == ns[|ns| - 1];
    InsertBetween(node, head.prev, head);
  }

  /** A ring without its k-th node. */
  function Without(ns: seq<Node>, k: nat): seq<Node>
    requires k < |ns|
  {
    ns[..k] + ns[k + 1..]
  }

  /** `__list_del_entry`: the neighbours are joined; the node keeps its own links, except that the
      only node of a ring stays a ring of its own. */
  method Unlink(entry: Node, ghost ns: seq<Node>, ghost k: nat)
    requires Ring(ns) && k < |ns| && ns[k] == entry
    modifies ns
    ensures Ring(Without(ns, k))
    ensures entry.next == old(entry.next) && entry.prev == old(entry.prev)
  {
    assert ns[k].next in ns && ns[k].prev in ns;
    var prev, next := entry.prev, entry.next;
    next.prev := prev;
    prev.next := next;
  }

  /** `list_del`: nothing happens to NULL. */
  method ListDel(entry: Node?, ghost ns: seq<Node>, ghost k: nat)
    requires entry != null ==> Ring(ns) && k < |ns| && ns[k] == entry
    modifies if entry == null then {} else set n | n in ns
    ensures entry != null ==> Ring(Without(ns, k)) && entry.next == null && entry.prev == null
  {
    if entry == null {
      return;
    }
    Unlink(entry, ns, k);
    ghost var ms := Without(ns, k);
    assert entry !in ms;
    entry.next := null;
    entry.prev := null;
  }

  /** `list_del_init`: the node becomes a ring of its own. */
  method ListDelInit(entry: Node, ghost ns: seq<Node>, ghost k: nat)
    requires Ring(ns) && k < |ns| && ns[k] == entry
    modifies ns
    ensures Ring(Without(ns, k)) && Ring([entry])
  {
    Unlink(entry, ns, k);
    assert entry !in Without(ns, k);
    InitListHead(entry);
  }

  /** `list_replace`: the new node takes the old one's place.  The old one keeps its links, unless
      it was the only node of its ring: then the new one ends up linked to itself, and the old
      one's prev leads to it. */
  method ListReplace(entry: Node, node: Node, ghost ns: seq<Node>, ghost k: nat)
    requires Ring(ns) && k < |ns| && ns[k] == entry && node !in ns
    modifies node, ns
    ensures Ring(ns[k := node])
    ensures entry.next == old(entry.next)
    ensures entry.prev == if |ns| == 1 then node else old(entry.prev)
  {
    assert ns[k].next in ns && ns[k].prev in ns;
    node.next := entry.next;
    node.next.prev := node;
    node.prev := entry.prev;
    node.prev.next := node;
  }

  /** `list_replace_init` */
  method ListReplaceInit(entry: Node, node: Node, ghost ns: seq<Node>, ghost k: nat)
    requires Ring(ns) && k < |ns| && ns[k] == entry && node !in ns
    modifies node, ns
    ensures Ring(ns[k := node]) && Ring([entry])
  {
    ListReplace(entry, node, ns, k);
    assert entry !in ns[k := node];
    InitListHead(entry);
  }

  /** `list_move` within one ring: the node goes right behind the head, also if it is there
      already. */
  method ListMove(list: Node, head: Node, ghost ns: seq<Node>, ghost k: nat)
    requires Ring(ns) && 0 < k < |ns| && head == ns[0] && list == ns[k]
    modifies ns
    ensures Ring([head, list] + ns[1..k] + ns[k + 1..])
  {
    Unlink(list, ns, k);
    ListAdd(list, head, Without(ns, k));
    assert [head, list] + Without(ns, k)[1..] == [head, list] + ns[1..k] + ns[k + 1..];
  }

  /** `list_move_tail` within one ring: the node goes right before the head. */
  method ListMoveTail(list: Node, head: Node, ghost ns: seq<Node>, ghost k: nat)
    requires Ring(ns) && 0 < k < |ns| && head == ns[0] && list == ns[k]
    modifies ns
    ensures Ring(Without(ns, k) + [list])
  {
    Unlink(list, ns, k);
    ListAddTail(list, head, Without(ns, k));
  }

  predicate Disjoint(ns: seq<Node>, ms: seq<Node>) {
    forall i, j :: 0 <= i < |ns| && 0 <= j < |ms| ==> ns[i] != ms[j]
  }

  /** `list_move` from one ring to another. */
  method ListMoveOver(list: Node, head: Node, ghost ns: seq<Node>, ghost k: nat, ghost ms: seq<Node>)
    requires Ring(ns) && k < |ns| && list == ns[k]
    requires Ring(ms) && ms != [] && head == ms[0] && Disjoint(ns, ms)
    modifies ns, ms
    ensures Ring(Without(ns, k)) && Ring([head, list] + ms[1..])
  {
    Unlink(list, ns, k);
    assert list !in Without(ns, k);
    ListAdd(list, head, ms);
  }

  /** `list_move_tail` from one ring to another. */
  method ListMoveTailOver(list: Node, head: Node, ghost ns: seq<Node>, ghost k: nat, ghost ms: seq<Node>)
    requires Ring(ns) && k < |ns| && list == ns[k]
    requires Ring(ms) && ms != [] && head == ms[0] && Disjoint(ns, ms)
    modifies ns, ms
    ensures Ring(Without(ns, k)) && Ring(ms + [list])
  {
    Unlink(list, ns, k);
    assert list !in Without(ns, k) && Disjoint(Without(ns, k), ms);
    ListAddTail(list, head, ms);
  }

  // ---------- traversal ----------

  /** `list_for_each_entry` with a body that only looks: it visits every node of the ring but the
      head once, in order. */
  method Visit(head: Node, ghost ns: seq<Node>) returns (visited: seq<Node>)
    requires Ring(ns) && ns != [] && head == ns[0]
    ensures visited == ns[1..]
  {
    visited := [];
    assert ns[0].next == if |ns| == 1 then head else ns[1];
    var pos := head.next;
    while pos != head
      invariant |visited| < |ns| && visited == ns[1..|visited| + 1]
      invariant pos == if |visited| + 1 == |ns| then head else ns[|visited| + 1]
      decreases |ns| - |visited|
    {
      ghost var i := |visited| + 1;
      visited := visited + [pos];
      assert ns[i].next == if i + 1 == |ns| then head else ns[i + 1];
      pos := pos.next;
    }
    assert ns[0] == pos;
    assert |visited| + 1 == |ns| && ns[1..|ns|] == ns[1..];
  }

  /** The entries in es are in no ring. */
  ghost predicate Loose(es: seq<Node>)
    reads es
  {
    forall i :: 0 <= i < |es| ==> es[i].next == null && es[i].prev == null
  }

  /** The body of the deleting traversal: pos is the entry right behind the head, and `gone` have
      been unlinked before. */
  method UnlinkFirst(pos: Node, head: Node, ghost ns: seq<Node>, ghost gone: seq<Node>)
    requires Ring(ns) && |ns| > 1 && head == ns[0] && pos == ns[1] && Loose(gone) && Disjoint(gone, ns)
    modifies ns
    ensures Ring([head] + ns[2..]) && Loose(gone + [pos])
  {
    ListDel(pos, ns, 1);
    assert Without(ns, 1) == [head] + ns[2..];
    assert Loose(gone);
  }

  /** What has been visited and what is left of a ring have no node in common. */
  lemma VisitedAndLeft(ns: seq<Node>, visited: seq<Node>, left: seq<Node>)
    requires Distinct(ns) && left != [] && ns == [left[0]] + visited + left[1..]
    ensures Disjoint(visited, left)
    ensures forall j :: 0 <= j < |left| ==> left[j] in ns
    ensures |left| > 1 ==> ns == [left[0]] + (visited + [left[1]]) + ([left[0]] + left[2..])[1..]
  {
    var v := |visited|;
    forall i | 0 <= i < v ensures visited[i] == ns[i + 1] {
    }
    forall j | 0 <= j < |left| ensures left[j] == ns[if j == 0 then 0 else v + j] {
    }
  }

  /** Where next leads from the first nodes of a ring. */
  lemma FirstSteps(ns: seq<Node>)
    requires Ring(ns) && ns != []
    ensures Distinct(ns)
    ensures ns[0].next == if |ns| == 1 then ns[0] else ns[1]
    ensures |ns| > 1 ==> ns[1] != ns[0] && ns[1].next == if |ns| == 2 then ns[0] else ns[2]
  {
  }

  /** `list_for_each_entry_safe` with a body that unlinks the current entry: it visits every entry
      once, in order, and leaves the head an empty ring and the entries in none. */
  method ClearList(head: Node, ghost ns: seq<Node>) returns (visited: seq<Node>)
    requires Ring(ns) && ns != [] && head == ns[0]
    modifies ns
    ensures visited == ns[1..] && Ring([head]) && Loose(visited)
  {
    visited := [];
    ghost var left := ns;
    assert Loose(visited) && ns == [head] + visited + left[1..];
    hide Ring, Distinct, Loose, Disjoint;
    FirstSteps(ns);
    var pos := head.next;
    var n := pos.next;
    while pos != head
      invariant left != [] && left[0] == head && Ring(left) && ns == [head] + visited + left[1..] && Loose(visited)
      invariant pos == if |left| == 1 then head else left[1]
      invariant |left| > 1 ==> n == if |left| == 2 then head else left[2]
      decreases |left|
    {
      VisitedAndLeft(ns, visited, left);
      UnlinkFirst(pos, head, left, visited);
      visited := visited + [pos];
      left := [head] + left[2..];
      FirstSteps(left);
      pos := n;
      n := n.next;
    }
    FirstSteps(left);
    assert left == [head];
  }
}
