/** The recency order as a doubly linked list of heap nodes. A node keeps its identity
    for as long as its entry is in the list, whatever the list does to its neighbours. */
module RecencyList {
  import opened CacheModel

  class Node {
    var entry: Entry
    var prev: Node?
    var next: Node?

    constructor (entry: Entry)
      ensures this.entry == entry && prev == null && next == null
    {
      this.entry := entry;
      prev, next := null, null;
    }
  }

  /** The node at position `i`, or null past either end of the chain. */
  ghost function At(nodes: seq<Node>, i: int): Node? {
    if 0 <= i < |nodes| then nodes[i] else null
  }

  /** Moving the first element to the front changes nothing. */
  lemma FirstToFront<T>(xs: seq<T>, i: nat)
    requires i == 0 && xs != []
    ensures xs == [xs[i]] + (xs[..i] + xs[i + 1..])
  {
  }

  class RecencyList {
    ghost var nodes: seq<Node>
    ghost var contents: seq<Entry>
    ghost var repr: set<Node>
    var head: Node?
    var tail: Node?

    /** The links spell out `nodes`, forwards and backwards. */
    ghost predicate Linked()
      reads this, repr
    {
      && (forall i :: 0 <= i < |nodes| ==> nodes[i] in repr)
      && (forall i, j :: 0 <= i < j < |nodes| ==> nodes[i] != nodes[j])
      && head == At(nodes, 0)
      && tail == At(nodes, |nodes| - 1)
      && (forall i {:trigger nodes[i].prev} :: 0 <= i < |nodes| ==> nodes[i].prev == At(nodes, i - 1))
      && (forall i {:trigger nodes[i].next} :: 0 <= i < |nodes| ==> nodes[i].next == At(nodes, i + 1))
    }

    /** The chain is well linked and its nodes hold `contents`, in order. */
    ghost predicate Valid()
      reads this, repr
    {
      && Linked()
      && |nodes| == |contents|
      && (forall i :: 0 <= i < |nodes| ==> nodes[i].entry == contents[i])
    }

    constructor ()
      ensures Valid() && nodes == [] && contents == [] && repr == {}
    {
      head, tail := null, null;
      nodes, contents, repr := [], [], {};
    }

    /** Links a detached node in front of the current head. */
    method LinkFirst(n: Node)
      requires Linked() && n !in nodes && n in repr
      modifies this`nodes, this`head, this`tail, repr
      ensures Linked() && nodes == [n] + old(nodes)
      ensures forall m :: m in repr ==> m.entry == old(m.entry)
    {
      n.prev, n.next := null, head;
      if head == null {
        tail := n;
      } else {
        head.prev := n;
      }
      head := n;
      nodes := [n] + nodes;
    }

    /** Detaches a node by joining its two neighbours. */
    method Unlink(n: Node, ghost i: nat)
      requires Linked() && i < |nodes| && nodes[i] == n
      modifies this`nodes, this`head, this`tail, repr
      ensures Linked() && nodes == old(nodes[..i] + nodes[i + 1..]) && n !in nodes
      ensures forall m :: m in repr ==> m.entry == old(m.entry)
    {
      if n.prev == null {
        head := n.next;
      } else {
        n.prev.next := n.next;
      }
      if n.next == null {
        tail := n.prev;
      } else {
        n.next.prev := n.prev;
      }
      nodes := nodes[..i] + nodes[i + 1..];
    }

    /** Puts a detached node, entry and all, at the front. */
    method Push(n: Node)
      requires Valid() && n !in nodes && n in repr
      modifies this`nodes, this`contents, this`head, this`tail, repr
      ensures Valid()
      ensures nodes == [n] + old(nodes) && contents == [old(n.entry)] + old(contents)
    {
      LinkFirst(n);
      contents := [n.entry] + contents;
    }

    method InsertNewest(entry: Entry) returns (n: Node)
      requires Valid()
      modifies this, repr
      ensures Valid() && fresh(n) && repr == old(repr) + {n}
      ensures nodes == [n] + old(nodes) && contents == [entry] + old(contents)
    {
      n := new Node(entry);
      repr := repr + {n};
      Push(n);
    }

    /** Splices a node to the front; every node, this one included, stays itself. */
    method MarkUsed(n: Node, ghost i: nat)
      requires Valid() && i < |nodes| && nodes[i] == n
      modifies this`nodes, this`contents, this`head, this`tail, repr
      ensures Valid() && nodes == [n] + old(nodes[..i] + nodes[i + 1..])
      ensures contents == [old(contents[i])] + old(contents[..i] + contents[i + 1..])
    {
      if head == n {
        FrontIsFirst(i);
        FirstToFront(nodes, i);
        FirstToFront(contents, i);
      } else {
        Splice(n, i);
      }
    }

    lemma {:induction false} FrontIsFirst(i: nat)
      requires Linked() && i < |nodes| && nodes[i] == head
      ensures i == 0
    {
    }

    /** Moves a node that is not yet in front: unlinked, then linked before the head. */
    method Splice(n: Node, ghost i: nat)
      requires Valid() && i < |nodes| && nodes[i] == n
      modifies this`nodes, this`contents, this`head, this`tail, repr
      ensures Valid() && nodes == [n] + old(nodes[..i] + nodes[i + 1..])
      ensures contents == [old(contents[i])] + old(contents[..i] + contents[i + 1..])
    {
      Remove(n, i);
      Push(n);
    }

    /** Writes through a node handle: the entry changes, its place does not. */
    method Update(n: Node, entry: Entry, ghost i: nat)
      requires Valid() && i < |nodes| && nodes[i] == n
      modifies this`contents, n
      ensures Valid() && contents == old(contents)[i := entry]
    {
      n.entry := entry;
      contents := contents[i := entry];
    }

    method Remove(n: Node, ghost i: nat)
      requires Valid() && i < |nodes| && nodes[i] == n
      modifies this`nodes, this`contents, this`head, this`tail, repr
      ensures Valid() && nodes == old(nodes[..i] + nodes[i + 1..])
      ensures contents == old(contents[..i] + contents[i + 1..])
      ensures n !in nodes && n.entry == old(contents[i])
    {
      Unlink(n, i);
      contents := contents[..i] + contents[i + 1..];
    }

    method Oldest() returns (e: Entry)
      requires Valid() && nodes != []
      ensures e == contents[|contents| - 1]
    {
      e := tail.entry;
    }

    method PopOldest()
      requires Valid() && nodes != []
      modifies this`nodes, this`contents, this`head, this`tail, repr
      ensures Valid() && nodes == old(nodes[..|nodes| - 1])
      ensures contents == old(contents[..|contents| - 1])
    {
      Remove(tail, |nodes| - 1);
      assert nodes == old(nodes[..|nodes| - 1]) && contents == old(contents[..|contents| - 1]);
    }

    method Clear()
      modifies this`nodes, this`contents, this`head, this`tail
      ensures Valid() && nodes == [] && contents == []
    {
      head, tail := null, null;
      nodes, contents := [], [];
    }
  }
}
