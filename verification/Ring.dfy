/**
  The circular doubly-linked list of lru.c and gdl.c. Both files hold the same code over two
  node types, so one class serves for both.
 */
module Ring {
  import opened Sequences

  class RingNode {
    const index: nat
    var next: RingNode
    var prev: RingNode

    /** A node linked to itself. */
    constructor (index: nat)
      ensures this.index == index && next == this && prev == this
    {
      this.index := index;
      next := this;
      prev := this;
    }
  }

  class Ring {
    var head: RingNode?
    var size: nat
    ghost var nodes: seq<RingNode>   // from the head along next
    ghost var indices: seq<nat>      // the slots they carry

    ghost var Repr: set<object>

    ghost predicate Valid()
      reads this, Repr
      ensures Valid() ==> this in Repr
    {
      && this in Repr
      && NoDup(nodes)
      && size == |nodes| == |indices|
      && (forall i | 0 <= i < |nodes| :: nodes[i] in Repr && nodes[i].index == indices[i])
      && (size == 0 ==> head == null)
      && (size > 0 ==> head == nodes[0])
      && forall i, j | 0 <= i < |nodes| && 0 <= j < |nodes| && Follows(i, j, |nodes|) ::
           nodes[i].next == nodes[j] && nodes[j].prev == nodes[i]
    }

    /** Position j comes right after position i on a ring of n nodes. */
    static ghost predicate Follows(i: int, j: int, n: int) {
      j == i + 1 || (i == n - 1 && j == 0)
    }

    constructor ()
      ensures Valid() && fresh(Repr) && nodes == [] && indices == []
    {
      head := null;
      size := 0;
      nodes, indices := [], [];
      Repr := {this};
    }

    lemma Sizes()
      requires Valid()
      ensures |nodes| == |indices| == size && (head == null <==> size == 0)
    {
    }

    lemma NodeAt(k: nat)
      requires Valid() && k < |nodes|
      ensures |nodes| == |indices| && IndexOf(nodes, nodes[k]) == k && nodes[k].index == indices[k]
    {
      FirstIsIndexOf(nodes, k);
    }

    /** Links a new node in front of the head and makes it the head, as every caller does. */
    method Push(index: nat) returns (node: RingNode)
      requires Valid()
      modifies Repr
      ensures Valid() && fresh(node) && Repr == old(Repr) + {node}
      ensures node.index == index && nodes == [node] + old(nodes)
      ensures indices == [index] + old(indices)
    {
      var list := head;
      node := new RingNode(index);
      if size > 0 && list != null {
        ghost var last := nodes[size - 1];
        assert Follows(size - 1, 0, size) && last.next == list && list.prev == last;
        node.next := list;
        node.prev := list.prev;
        list.prev := node;
        node.prev.next := node;
      }
      size := size + 1;
      nodes, indices := [node] + nodes, [index] + indices;
      head := node;
      Repr := Repr + {node};
      forall i, j | 0 <= i < |nodes| && 0 <= j < |nodes| && Follows(i, j, |nodes|)
        ensures nodes[i].next == nodes[j] && nodes[j].prev == nodes[i]
      {
        assert 0 < i < j ==> old(nodes)[i - 1].next == old(nodes)[j - 1];
      }
    }

    /** The oldest node: the one behind the head. */
    method Tail() returns (node: RingNode)
      requires Valid() && head != null
      ensures nodes != [] && node == Last(nodes)
    {
      assert Follows(size - 1, 0, size);
      node := head.prev;
    }

    /** Unlinks a node, wherever it stands in the ring; a null pointer changes nothing. */
    method Pop(node: RingNode?) returns (index: int)
      requires Valid()
      requires node != null ==> node in nodes
      modifies Repr
      ensures Valid() && Repr == old(Repr)
      ensures node == null ==> index == -1 && nodes == old(nodes) && indices == old(indices)
      ensures node != null ==>
        var k := IndexOf(old(nodes), node);
        index == node.index && nodes == RemoveAt(old(nodes), k) && indices == RemoveAt(old(indices), k)
    {
      if node == null { return -1; }
      index := node.index;
      if size == 1 {
        head := null;
        size := 0;
        nodes, indices := [], [];
      } else {
        Unlink(node, IndexOf(nodes, node));
      }
    }

    /** The part of a pop that relinks the neighbours of a node on a ring of at least two. */
    method Unlink(node: RingNode, ghost k: nat)
      requires Valid()
      requires k < |nodes| && nodes[k] == node && |nodes| > 1
      modifies Repr
      ensures Valid() && Repr == old(Repr)
      ensures nodes == RemoveAt(old(nodes), k) && indices == RemoveAt(old(indices), k)
    {
      ghost var p, n := if k == 0 then size - 1 else k - 1, if k == size - 1 then 0 else k + 1;
      assert Follows(p, k, size) && Follows(k, n, size);
      node.prev.next := node.next;
      node.next.prev := node.prev;
      if node == head {
        head := node.next;
      }
      size := size - 1;
      nodes, indices := RemoveAt(nodes, k), RemoveAt(indices, k);
      forall i, j | 0 <= i < |nodes| && 0 <= j < |nodes| && Follows(i, j, |nodes|)
        ensures nodes[i].next == nodes[j] && nodes[j].prev == nodes[i]
      {
        var oi, oj := if i < k then i else i + 1, if j < k then j else j + 1;
        assert nodes[i] == old(nodes)[oi] && nodes[j] == old(nodes)[oj];
        assert Follows(oi, oj, size + 1) || (Follows(oi, k, size + 1) && Follows(k, oj, size + 1));
      }
    }
  }
}
