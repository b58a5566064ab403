/** The per-inode dirty lists of dl.c: inode number to the blocks it has dirtied. */
module DirtyMap {
  import opened Sequences
  import opened HashIndex

  type Lists = map<nat, seq<nat>>

  /** Lists a block under an inode, unless it is there already. */
  function Marked(lists: Lists, inode: nat, block: nat): Lists {
    if inode !in lists then lists[inode := [block]]
    else if block in lists[inode] then lists
    else lists[inode := [block] + lists[inode]]
  }

  /** Takes a block off an inode's list; a list that becomes empty goes with it. */
  function Unmarked(lists: Lists, inode: nat, block: nat): Lists {
    if inode !in lists || block !in lists[inode] then lists
    else if Remove(lists[inode], block) == [] then lists - {inode}
    else lists[inode := Remove(lists[inode], block)]
  }

  class InodeEntry {
    const inode: nat
    var blocks: seq<nat>

    constructor (inode: nat)
      ensures this.inode == inode && blocks == []
    {
      this.inode := inode;
      blocks := [];
    }
  }

  class DirtyMap {
    const index: HashIndex<InodeEntry>
    ghost var lists: Lists
    ghost var Repr: set<object>

    ghost predicate Valid()
      reads this, Repr
      ensures Valid() ==> this in Repr
    {
      && this in Repr && index in Repr && index.Repr <= Repr && this !in index.Repr
      && index.Valid()
      && lists.Keys == index.mapped.Keys
      && forall i | i in lists :: Holds(i, index.mapped[i])
    }

    ghost predicate Holds(i: nat, e: InodeEntry)
      requires index in Repr && i in lists
      reads this, Repr
    {
      e in Repr && e !in index.Repr && e.inode == i && e.blocks == lists[i]
    }

    constructor ()
      ensures Valid() && fresh(Repr) && lists == map[]
    {
      index := new HashIndex<InodeEntry>();
      lists := map[];
      new;
      Repr := {this} + index.Repr;
    }

    /** The entry of an inode, or null. */
    method Lookup(inode: nat) returns (entry: InodeEntry?)
      requires Valid()
      ensures entry == null <==> inode !in lists
      ensures entry != null ==> entry in Repr && entry == index.mapped[inode] && entry.blocks == lists[inode]
    {
      var node := index.Lookup(inode);
      return if node == null then null else node.value.value;
    }

    method Insert(inode: nat, block: nat)
      requires Valid()
      modifies Repr
      ensures Valid() && fresh(Repr - old(Repr))
      ensures lists == Marked(old(lists), inode, block)
    {
      hide HashIndex.Valid;
      var node := Lookup(inode);
      if node == null {
        AddEntry(inode, block);
      } else if block !in node.blocks {
        node.blocks := [block] + node.blocks;
        lists := lists[inode := node.blocks];
      }
    }

    /** A new entry, with one block on its list. */
    method AddEntry(inode: nat, block: nat)
      requires Valid() && inode !in lists
      modifies Repr
      ensures Valid() && fresh(Repr - old(Repr))
      ensures lists == old(lists)[inode := [block]]
    {
      hide HashIndex.Valid;
      var node := new InodeEntry(inode);
      index.Insert(inode, node);
      node.blocks := [block];
      lists := lists[inode := [block]];
      Repr := Repr + {node} + index.Repr;
    }

    method Delete(inode: nat)
      requires Valid()
      modifies Repr
      ensures Valid() && Repr == old(Repr)
      ensures lists == old(lists) - {inode}
    {
      index.Delete(inode);
      lists := lists - {inode};
    }

    method RemoveBlock(inode: nat, block: nat)
      requires Valid()
      modifies Repr
      ensures Valid() && Repr == old(Repr)
      ensures lists == Unmarked(old(lists), inode, block)
    {
      hide HashIndex.Valid;
      var list := Lookup(inode);
      if list == null { return; }
      var i := 0;
      while i < |list.blocks|
        invariant i <= |list.blocks|
        invariant block !in list.blocks[..i]
      {
        if list.blocks[i] == block { break; }
        i := i + 1;
      }
      if i == |list.blocks| { return; }
      FirstIsIndexOf(list.blocks, i);
      RemoveIsRemoveAt(list.blocks, block);
      SetList(inode, list, list.blocks[..i] + list.blocks[i + 1..]);
      if list.blocks == [] {
        Delete(inode);
        assert lists == old(lists) - {inode};
      }
    }

    /** Another list for an inode that has one. */
    method SetList(inode: nat, list: InodeEntry, blocks: seq<nat>)
      requires Valid() && inode in lists && list == index.mapped[inode]
      modifies list, this`lists
      ensures Valid() && Repr == old(Repr) && index.mapped == old(index.mapped)
      ensures lists == old(lists)[inode := blocks] && list.blocks == blocks
    {
      hide HashIndex.Valid;
      list.blocks := blocks;
      lists := lists[inode := blocks];
    }
  }
}
