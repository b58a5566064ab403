/**
  The null-terminated linked list that fl.c, pci.c and dl.c each build: nodes are pushed at the
  head and unlinked at any position.
 */
module Chain {
  import opened Sequences

  class Link<T> {
    const value: T
    var next: Link?<T>

    constructor (value: T, next: Link?<T>)
      ensures this.value == value && this.next == next
    {
      this.value := value;
      this.next := next;
    }
  }

  class Chain<T> {
    var head: Link?<T>
    ghost var links: seq<Link<T>>
    ghost var values: seq<T>
    ghost var Repr: set<object>

    ghost predicate Valid()
      reads this, Repr
      ensures Valid() ==> this in Repr
    {
      && this in Repr
      && NoDup(links)
      && |links| == |values|
      && (forall i | 0 <= i < |links| :: links[i] in Repr && links[i].value == values[i])
      && head == At(0)
      && forall i {:trigger links[i].next} | 0 <= i < |links| :: links[i].next == At(i + 1)
    }

    /** The node at position i, or null at the end of the list. */
    ghost function At(i: nat): Link?<T>
      reads this
    {
      if i < |links| then links[i] else null
    }

    constructor ()
      ensures Valid() && fresh(Repr) && values == []
    {
      head := null;
      links, values := [], [];
      Repr := {this};
    }

    method Push(value: T)
      requires Valid()
      modifies Repr
      ensures Valid() && fresh(Repr - old(Repr))
      ensures values == [value] + old(values)
    {
      var node := new Link(value, head);
      head := node;
      links, values := [node] + links, [value] + values;
      Repr := Repr + {node};
    }

    method Pop() returns (value: T)
      requires Valid() && head != null
      modifies Repr
      ensures Valid() && Repr == old(Repr)
      ensures old(values) == [value] + values
    {
      value := head.value;
      head := head.next;
      links, values := links[1..], values[1..];
    }

    /** Bypasses the node at position i, whose predecessor is prev. */
    method Unlink(prev: Link?<T>, curr: Link<T>, ghost i: nat)
      requires Valid()
      requires i < |links| && curr == links[i] && prev == if i == 0 then null else links[i - 1]
      modifies Repr
      ensures Valid() && Repr == old(Repr)
      ensures values == RemoveAt(old(values), i) && (head == null <==> values == [])
    {
      if prev != null {
        prev.next := curr.next;
      } else {
        head := curr.next;
      }
      links, values := RemoveAt(links, i), RemoveAt(values, i);
      forall j {:trigger links[j].next} | 0 <= j < |links|
        ensures links[j].next == At(j + 1)
      {
        assert links[j] == old(links)[if j < i then j else j + 1];
      }
    }
  }
}
