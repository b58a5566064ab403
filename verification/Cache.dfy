/**
  The write-back block cache of cache.c over its five indexes. A page is passed by value: what a
  caller edits through the pointer that get_block returned reaches the cache with write_block.
 */
module Cache {
  import opened Blocks
  import opened Sequences
  import opened Chain
  import opened HashIndex
  import opened Ring
  import opened DirtyMap
  import opened CacheModel
  import opened CacheTheorems

  datatype Option<+T> = None | Some(value: T)

  datatype Entry = Entry(
    dirty: bool,
    block: nat,
    inum: nat,
    page: Page,
    lruPos: RingNode?,
    gdlPos: RingNode?)

  const FILLER := DataPage([])   // the slots of a new cache hold no page

  ghost function EmptyState(n: nat, free: seq<nat>, disk: seq<Page>): State {
    State(seq(n, _ => Slot(false, 0, 0, FILLER)), free, [], [], map[], map[], disk)
  }

  lemma EmptyIsInitial(n: nat, free: seq<nat>, disk: seq<Page>)
    requires n > 0 && |free| == n && NoDup(free)
    requires forall i | 0 <= i < n :: i in free
    requires forall i | i in free :: i < n
    ensures Initial(EmptyState(n, free, disk))
  {
  }

  function SlotOf(e: Entry): Slot {
    Slot(e.dirty, e.block, e.inum, e.page)
  }

  ghost predicate Shows(es: seq<Entry>, slots: seq<Slot>) {
    |es| == |slots| && forall i | 0 <= i < |es| :: SlotOf(es[i]) == slots[i]
  }

  /** Each slot on the LRU ring knows its node. */
  ghost predicate LruPositions(es: seq<Entry>, nodes: seq<RingNode>, indices: seq<nat>) {
    |nodes| == |indices| && forall k | 0 <= k < |nodes| :: indices[k] < |es| && es[indices[k]].lruPos == nodes[k]
  }

  /** A slot that points into the dirty ring points to its newest node there. */
  ghost predicate GdlPositions(es: seq<Entry>, nodes: seq<RingNode>, indices: seq<nat>, pinned: set<nat>) {
    |nodes| == |indices| && forall i | 0 <= i < |es| ::
      if i in pinned then i in indices && es[i].gdlPos == nodes[IndexOf(indices, i)] else es[i].gdlPos == null
  }

  /** Changing an entry outside what the three predicates look at. */
  lemma EntryKept(es: seq<Entry>, lru: seq<RingNode>, recent: seq<nat>, gdl: seq<RingNode>, written: seq<nat>,
                  pinned: set<nat>, slot: nat, e: Entry)
    requires slot < |es|
    ensures LruPositions(es, lru, recent) && e.lruPos == es[slot].lruPos ==> LruPositions(es[slot := e], lru, recent)
    ensures GdlPositions(es, gdl, written, pinned) && e.gdlPos == es[slot].gdlPos ==>
      GdlPositions(es[slot := e], gdl, written, pinned)
  {
  }

  lemma EntryShows(es: seq<Entry>, slots: seq<Slot>, slot: nat, e: Entry)
    requires Shows(es, slots) && slot < |es|
    ensures Shows(es[slot := e], slots[slot := SlotOf(e)]) && slots[slot] == SlotOf(es[slot])
  {
  }

  lemma LruPopped(es: seq<Entry>, nodes: seq<RingNode>, indices: seq<nat>, k: nat)
    requires LruPositions(es, nodes, indices) && k < |nodes|
    ensures LruPositions(es, RemoveAt(nodes, k), RemoveAt(indices, k))
  {
    forall j | 0 <= j < |nodes| - 1
      ensures RemoveAt(indices, k)[j] < |es| && es[RemoveAt(indices, k)[j]].lruPos == RemoveAt(nodes, k)[j]
    {
      var o := if j < k then j else j + 1;
      assert RemoveAt(indices, k)[j] == indices[o] && RemoveAt(nodes, k)[j] == nodes[o];
    }
  }

  lemma LruPushed(es: seq<Entry>, nodes: seq<RingNode>, indices: seq<nat>, slot: nat, e: Entry, node: RingNode)
    requires LruPositions(es, nodes, indices) && slot < |es| && slot !in indices && e.lruPos == node
    ensures LruPositions(es[slot := e], [node] + nodes, [slot] + indices)
  {
  }

  lemma GdlPopped(es: seq<Entry>, nodes: seq<RingNode>, indices: seq<nat>, pinned: set<nat>, k: nat)
    requires GdlPositions(es, nodes, indices, pinned) && k < |nodes| && indices[k] < |es|
    ensures var slot := indices[k];
      GdlPositions(es[slot := es[slot].(gdlPos := null)], RemoveAt(nodes, k), RemoveAt(indices, k), pinned - {slot})
  {
    forall i: nat | i in indices && i != indices[k]
      ensures i in RemoveAt(indices, k)
      ensures RemoveAt(nodes, k)[IndexOf(RemoveAt(indices, k), i)] == nodes[IndexOf(indices, i)]
    {
      IndexOfAfterRemoveAt(indices, k, i);
    }
  }

  lemma GdlPushed(es: seq<Entry>, nodes: seq<RingNode>, indices: seq<nat>, pinned: set<nat>, slot: nat, e: Entry,
                  node: RingNode)
    requires GdlPositions(es, nodes, indices, pinned) && slot < |es| && e.gdlPos == node
    ensures GdlPositions(es[slot := e], [node] + nodes, [slot] + indices, pinned + {slot})
  {
    forall i: nat | i in indices && i != slot
      ensures IndexOf([slot] + indices, i) == 1 + IndexOf(indices, i)
    {
      assert ([slot] + indices)[1..] == indices;
    }
  }

  /** The slots that point into the dirty ring are the dirty ones. */
  ghost predicate PinnedAreDirty(s: State, pinned: set<nat>) {
    && (forall i | i in pinned :: i in s.lru)
    && forall i | i in s.lru :: i < |s.slots| && (i in pinned <==> s.slots[i].dirty)
  }

  lemma PinnedAfterEviction(s: State, pinned: set<nat>)
    requires Inv(s) && PinnedAreDirty(s, pinned) && s.free == []
    ensures s.lru != [] && Last(s.lru) < |s.slots| && (s.slots[Last(s.lru)].dirty <==> Last(s.lru) in pinned)
    ensures var t := Evicted(s);
      t.free == [Last(s.lru)] && Last(s.lru) !in t.lru && PinnedAreDirty(t, pinned - {Last(s.lru)})
  {
    OldestSlot(s);
    EvictedStructure(s);
    assert forall i | i in s.lru && i != Last(s.lru) :: i in Front(s.lru);
  }

  lemma NotIndexedAfterEviction(s: State, b: nat)
    requires Inv(s) && s.free == [] && b !in s.index
    ensures s.lru != [] && b !in Evicted(s).index
  {
    OldestSlot(s);
  }

  lemma PinnedAfterLoad(s: State, inum: nat, b: nat, pinned: set<nat>)
    requires PinnedAreDirty(s, pinned) && s.free != [] && s.free[0] < |s.slots| && b < |s.disk|
    requires s.free[0] !in s.lru
    ensures s.free[0] !in pinned && PinnedAreDirty(Loaded(s, inum, b), pinned)
  {
  }

  lemma PinnedAfterStore(s: State, inum: nat, b: nat, p: Page, pinned: set<nat>)
    requires Inv(s) && PinnedAreDirty(s, pinned) && b in s.index
    ensures s.index[b] < |s.slots| && PinnedAreDirty(Stored(s, inum, b, p), pinned + {s.index[b]})
  {
  }

  lemma PinnedAfterFsync(s: State, b: nat, pinned: set<nat>)
    requires Inv(s) && PinnedAreDirty(s, pinned) && b in s.index
    ensures s.index[b] < |s.slots| && (s.index[b] in pinned <==> s.slots[s.index[b]].dirty)
    ensures PinnedAreDirty(FsyncedOne(s, b), pinned - {s.index[b]})
  {
  }

  lemma PinnedIgnoresLists(s: State, lists: Lists, pinned: set<nat>)
    requires PinnedAreDirty(s, pinned)
    ensures PinnedAreDirty(s.(lists := lists), pinned)
  {
  }

  lemma PinnedAfterSync(s: State, pinned: set<nat>)
    requires Inv(s) && PinnedAreDirty(s, pinned) && s.gdl != []
    ensures Last(s.gdl) < |s.slots| && s.slots[Last(s.gdl)].block < |s.disk|
    ensures PinnedAreDirty(SyncedOne(s), pinned - {Last(s.gdl)})
  {
    assert Last(s.gdl) in s.gdl;
    assert Coherent(s, Last(s.gdl));
  }

  lemma SlotOfBlock(s: State, b: nat)
    requires Inv(s) && b in s.index
    ensures s.index[b] < |s.slots| && s.slots[s.index[b]].block == b && b < |s.disk|
  {
    assert Coherent(s, s.index[b]);
  }

  lemma PinnedAfterTouch(s: State, b: nat, pinned: set<nat>)
    requires PinnedAreDirty(s, pinned) && b in s.index && s.index[b] in s.lru
    ensures PinnedAreDirty(Touched(s, b), pinned)
  {
    RemoveMembers(s.lru, s.index[b]);
  }

  class Cache {
    const disk: array<Page>
    const entries: array<Entry>
    const index: HashIndex<nat>
    const free: Chain<nat>
    const lru: Ring
    const gdl: Ring
    const dirtyMap: DirtyMap
    ghost var state: State
    ghost var pinned: set<nat>   // the slots that point into the dirty ring
    ghost var Repr: set<object>

    /** The five indexes are intact, share nothing, and hold what the state says. */
    ghost predicate Linked()
      reads this, Repr
      ensures Linked() ==> this in Repr
    {
      && Separate()
      && index.Valid() && free.Valid() && lru.Valid() && gdl.Valid() && dirtyMap.Valid()
      && state.index == index.mapped && state.free == free.values
      && state.lru == lru.indices && state.gdl == gdl.indices
      && state.lists == dirtyMap.lists && state.disk == disk[..]
      && entries.Length == |state.slots| && disk.Length == |state.disk|
      && Shows(entries[..], state.slots)
      && LruPositions(entries[..], lru.nodes, lru.indices)
      && GdlPositions(entries[..], gdl.nodes, gdl.indices, pinned)
    }

    ghost predicate Separate()
      reads this, Repr
    {
      && this in Repr && disk in Repr && entries in Repr && disk as object != entries as object
      && index in Repr && free in Repr && lru in Repr && gdl in Repr && dirtyMap in Repr
      && index.Repr <= Repr && free.Repr <= Repr && lru.Repr <= Repr && gdl.Repr <= Repr && dirtyMap.Repr <= Repr
      && {this, disk, entries} !! index.Repr !! free.Repr !! lru.Repr !! gdl.Repr !! dirtyMap.Repr
    }

    ghost predicate Valid()
      reads this, Repr
      ensures Valid() ==> this in Repr
    {
      Linked() && Inv(state) && PinnedAreDirty(state, pinned)
    }

    /** What a reader sees, block by block. */
    ghost function Contents(): seq<Page>
      reads this, Repr
      requires Valid()
    {
      View(state)
    }

    /** alloc_cache, for a given number of slots: everything empty, all slots free. */
    constructor (disk: array<Page>, cacheSize: nat)
      requires cacheSize > 0
      ensures Valid() && fresh(Repr - {disk}) && this.disk == disk
      ensures Initial(state) && |state.slots| == cacheSize && state.disk == disk[..]
      ensures |state.free| == cacheSize && forall k | 0 <= k < cacheSize :: state.free[k] == cacheSize - 1 - k
    {
      hide Ring.Valid, DirtyMap.Valid, HashIndex.Valid, Chain.Valid, Valid, Initial, NoDup;
      var slots := new Entry[cacheSize](_ => Entry(false, 0, 0, FILLER, null, null));
      var freeSlots := FreeSlots(cacheSize);
      var blocks, recent, written, lists := EmptyIndexes();
      this.disk, entries := disk, slots;
      index, free, lru, gdl, dirtyMap := blocks, freeSlots, recent, written, lists;
      new;
      Link();
    }

    static method EmptyIndexes() returns (index: HashIndex<nat>, lru: Ring, gdl: Ring, lists: DirtyMap)
      ensures fresh(index.Repr + lru.Repr + gdl.Repr + lists.Repr)
      ensures index.Repr !! lru.Repr !! gdl.Repr !! lists.Repr
      ensures index.Valid() && lru.Valid() && gdl.Valid() && lists.Valid()
      ensures index.mapped == map[] && lru.nodes == [] && gdl.nodes == [] && lists.lists == map[]
      ensures lru.indices == [] && gdl.indices == []
    {
      hide Ring.Valid, DirtyMap.Valid, HashIndex.Valid;
      index := new HashIndex<nat>();
      lru := new Ring();
      gdl := new Ring();
      lists := new DirtyMap();
    }

    /** The ghost side of a new cache. */
    ghost method Link()
      requires entries.Length > 0 && disk as object != entries as object
      requires index.Valid() && free.Valid() && lru.Valid() && gdl.Valid() && dirtyMap.Valid()
      requires {this, disk, entries} !! index.Repr !! free.Repr !! lru.Repr !! gdl.Repr !! dirtyMap.Repr
      requires index.mapped == map[] && lru.nodes == [] && gdl.nodes == [] && dirtyMap.lists == map[]
      requires lru.indices == [] && gdl.indices == []
      requires |free.values| == entries.Length && NoDup(free.values)
      requires forall i | 0 <= i < entries.Length :: i in free.values
      requires forall i | i in free.values :: i < entries.Length
      requires forall i | 0 <= i < entries.Length :: entries[i] == Entry(false, 0, 0, FILLER, null, null)
      modifies this
      ensures Valid() && Initial(state) && |state.slots| == entries.Length && state.disk == disk[..]
      ensures state.free == free.values
      ensures Repr == {this, disk, entries} + index.Repr + free.Repr + lru.Repr + gdl.Repr + dirtyMap.Repr
    {
      hide Ring.Valid, DirtyMap.Valid, HashIndex.Valid, Chain.Valid, Inv, Initial;
      pinned := {};
      state := EmptyState(entries.Length, free.values, disk[..]);
      Repr := {this, disk, entries} + index.Repr + free.Repr + lru.Repr + gdl.Repr + dirtyMap.Repr;
      EmptyIsInitial(entries.Length, free.values, disk[..]);
      InitialInv(state);
    }

    static method FreeSlots(n: nat) returns (free: Chain<nat>)
      ensures free.Valid() && fresh(free.Repr)
      ensures |free.values| == n && NoDup(free.values) && forall k | 0 <= k < n :: free.values[k] == n - 1 - k
      ensures forall i | 0 <= i < n :: i in free.values
      ensures forall i | i in free.values :: i < n
    {
      free := new Chain<nat>();
      for i := 0 to n
        invariant free.Valid() && fresh(free.Repr)
        invariant |free.values| == i
        invariant forall k | 0 <= k < i :: free.values[k] == i - 1 - k
      {
        free.Push(i);
      }
      forall i | 0 <= i < n
        ensures i in free.values
      {
        assert free.values[n - 1 - i] == i;
      }
    }

    // ----- Steps that touch one index each -----

    method Find(block: nat) returns (slot: int)
      requires Linked()
      ensures slot == if block in state.index then state.index[block] else -1
    {
      var node := index.Lookup(block);
      return if node == null then -1 else node.value.value;
    }

    method AddToIndex(block: nat, slot: nat)
      requires Linked() && block !in state.index
      modifies Repr
      ensures Linked() && fresh(Repr - old(Repr)) && pinned == old(pinned)
      ensures state == old(state).(index := old(state.index)[block := slot])
    {
      hide Chain.Valid, Ring.Valid, DirtyMap.Valid, HashIndex.Valid, LruPositions, GdlPositions, Shows;
      index.Insert(block, slot);
      Repr := Repr + index.Repr;
      state := state.(index := state.index[block := slot]);
    }

    method DropFromIndex(block: nat)
      requires Linked()
      modifies Repr
      ensures Linked() && fresh(Repr - old(Repr)) && pinned == old(pinned)
      ensures state == old(state).(index := old(state.index) - {block})
    {
      hide Chain.Valid, Ring.Valid, DirtyMap.Valid, HashIndex.Valid, LruPositions, GdlPositions, Shows;
      index.Delete(block);
      state := state.(index := state.index - {block});
    }

    method PushFree(slot: nat)
      requires Linked()
      modifies Repr
      ensures Linked() && fresh(Repr - old(Repr)) && pinned == old(pinned)
      ensures state == old(state).(free := [slot] + old(state.free))
    {
      hide Chain.Valid, Ring.Valid, DirtyMap.Valid, HashIndex.Valid, LruPositions, GdlPositions, Shows;
      free.Push(slot);
      Repr := Repr + free.Repr;
      state := state.(free := [slot] + state.free);
    }

    method PopFree() returns (slot: nat)
      requires Linked() && state.free != []
      modifies Repr
      ensures Linked() && fresh(Repr - old(Repr)) && pinned == old(pinned)
      ensures slot == old(state.free)[0] && state == old(state).(free := old(state.free)[1..])
    {
      hide Ring.Valid, DirtyMap.Valid, HashIndex.Valid;
      slot := free.Pop();
      state := state.(free := state.free[1..]);
    }

    method Unlist(inum: nat, block: nat)
      requires Linked()
      modifies Repr
      ensures Linked() && fresh(Repr - old(Repr)) && pinned == old(pinned)
      ensures state == old(state).(lists := Unmarked(old(state.lists), inum, block))
    {
      hide Chain.Valid, Ring.Valid, DirtyMap.Valid, HashIndex.Valid, LruPositions, GdlPositions, Shows, Unmarked;
      dirtyMap.RemoveBlock(inum, block);
      state := state.(lists := Unmarked(state.lists, inum, block));
    }

    method WriteBack(slot: nat)
      requires Linked() && slot < |state.slots| && state.slots[slot].block < |state.disk|
      modifies Repr
      ensures Linked() && fresh(Repr - old(Repr)) && pinned == old(pinned)
      ensures state == old(state).(disk := old(state.disk)[old(state.slots)[slot].block := old(state.slots)[slot].page])
    {
      hide Chain.Valid, Ring.Valid, DirtyMap.Valid, HashIndex.Valid, LruPositions, GdlPositions, Shows;
      EntryShows(entries[..], state.slots, slot, entries[slot]);
      disk[entries[slot].block] := entries[slot].page;
      state := state.(disk := state.disk[state.slots[slot].block := state.slots[slot].page]);
    }

    method List(inum: nat, block: nat)
      requires Linked()
      modifies Repr
      ensures Linked() && fresh(Repr - old(Repr)) && pinned == old(pinned)
      ensures state == old(state).(lists := Marked(old(state.lists), inum, block))
    {
      hide Chain.Valid, Ring.Valid, DirtyMap.Valid, HashIndex.Valid, LruPositions, GdlPositions, Shows, Marked;
      dirtyMap.Insert(inum, block);
      Repr := Repr + dirtyMap.Repr;
      state := state.(lists := Marked(state.lists, inum, block));
    }

    method DropList(inum: nat)
      requires Linked()
      modifies Repr
      ensures Linked() && fresh(Repr - old(Repr)) && pinned == old(pinned)
      ensures state == old(state).(lists := old(state.lists) - {inum})
    {
      hide Chain.Valid, Ring.Valid, DirtyMap.Valid, HashIndex.Valid, LruPositions, GdlPositions, Shows;
      dirtyMap.Delete(inum);
      state := state.(lists := state.lists - {inum});
    }

    /** Replaces an entry, keeping its ring positions. */
    method SetEntry(slot: nat, e: Entry)
      requires Linked() && slot < |state.slots|
      requires e.lruPos == entries[slot].lruPos && e.gdlPos == entries[slot].gdlPos
      modifies Repr
      ensures Linked() && fresh(Repr - old(Repr)) && pinned == old(pinned)
      ensures state == old(state).(slots := old(state.slots)[slot := SlotOf(e)])
    {
      hide Chain.Valid, Ring.Valid, DirtyMap.Valid, HashIndex.Valid, LruPositions, GdlPositions, Shows;
      EntryKept(entries[..], lru.nodes, lru.indices, gdl.nodes, gdl.indices, pinned, slot, e);
      EntryShows(entries[..], state.slots, slot, e);
      ghost var es := entries[..];
      entries[slot] := e;
      assert entries[..] == es[slot := e];
      state := state.(slots := state.slots[slot := SlotOf(e)]);
    }

    method MarkClean(slot: nat)
      requires Linked() && slot < |state.slots|
      modifies Repr
      ensures Linked() && fresh(Repr - old(Repr)) && pinned == old(pinned)
      ensures state == old(state).(slots := old(state.slots)[slot := old(state.slots)[slot].(dirty := false)])
    {
      EntryShows(entries[..], state.slots, slot, entries[slot]);
      SetEntry(slot, entries[slot].(dirty := false));
    }

    /** Pops the tail of the LRU ring. */
    method PopOldest() returns (slot: nat)
      requires Linked() && state.lru != []
      modifies Repr
      ensures Linked() && fresh(Repr - old(Repr)) && pinned == old(pinned)
      ensures slot == Last(old(state.lru)) && state == old(state).(lru := Front(old(state.lru)))
    {
      hide Chain.Valid, Ring.Valid, DirtyMap.Valid, HashIndex.Valid, LruPositions, GdlPositions, Shows;
      lru.Sizes();
      var tail := lru.Tail();
      ghost var k := |lru.nodes| - 1;
      lru.NodeAt(k);
      LruPopped(entries[..], lru.nodes, lru.indices, k);
      slot := lru.Pop(tail);
      state := state.(lru := Front(state.lru));
      assert lru.indices == state.lru;
    }

    /** Moves a slot to the head of the LRU ring. */
    method MoveToHead(slot: nat)
      requires Linked() && slot in state.lru && slot < |state.slots| && NoDup(state.lru)
      modifies Repr
      ensures Linked() && fresh(Repr - old(Repr)) && pinned == old(pinned)
      ensures state == old(state).(lru := [slot] + Remove(old(state.lru), slot))
    {
      hide Linked;
      RemoveNoDup(state.lru, slot);
      RemoveIsRemoveAt(state.lru, slot);
      PopRecent(slot, IndexOf(state.lru, slot));
      PushRecent(slot);
    }

    method PopRecent(slot: nat, ghost k: nat)
      requires Linked() && k < |state.lru| && state.lru[k] == slot && slot < |state.slots|
      modifies Repr
      ensures Linked() && fresh(Repr - old(Repr)) && pinned == old(pinned)
      ensures state == old(state).(lru := RemoveAt(old(state.lru), k))
    {
      hide Chain.Valid, Ring.Valid, DirtyMap.Valid, HashIndex.Valid, GdlPositions;
      lru.Sizes();
      lru.NodeAt(k);
      LruPopped(entries[..], lru.nodes, lru.indices, k);
      var _ := lru.Pop(entries[slot].lruPos);
      state := state.(lru := RemoveAt(state.lru, k));
    }

    method ReadDisk(block: nat) returns (page: Page)
      requires Linked() && block < |state.disk|
      ensures page == state.disk[block]
    {
      page := disk[block];
    }

    /** Fills a slot with a clean block and puts it at the head of the LRU ring. */
    method Fill(slot: nat, block: nat, inum: nat, page: Page)
      requires Linked() && slot < |state.slots| && slot !in state.lru && slot !in pinned
      modifies Repr
      ensures Linked() && fresh(Repr - old(Repr)) && pinned == old(pinned)
      ensures state == old(state).(
        lru := [slot] + old(state.lru),
        slots := old(state.slots)[slot := Slot(false, block, inum, page)])
    {
      assert entries[slot].gdlPos == null;
      SetEntry(slot, Entry(false, block, inum, page, entries[slot].lruPos, null));
      PushRecent(slot);
    }

    method PushRecent(slot: nat)
      requires Linked() && slot < |state.slots| && slot !in state.lru
      modifies Repr
      ensures Linked() && fresh(Repr - old(Repr)) && pinned == old(pinned)
      ensures state == old(state).(lru := [slot] + old(state.lru))
    {
      hide Chain.Valid, Ring.Valid, DirtyMap.Valid, HashIndex.Valid, LruPositions, GdlPositions;
      ghost var es := entries[..];
      var node := lru.Push(slot);
      var e := entries[slot].(lruPos := node);
      LruPushed(es, old(lru.nodes), old(lru.indices), slot, e, node);
      EntryKept(es, lru.nodes, lru.indices, gdl.nodes, gdl.indices, pinned, slot, e);
      entries[slot] := e;
      assert entries[..] == es[slot := e];
      Repr := Repr + {node};
      state := state.(lru := [slot] + state.lru);
    }

    /** Stores a page in a slot, marks it dirty, and pushes a new node for it on the dirty ring. */
    method Store(slot: nat, page: Page)
      requires Linked() && slot < |state.slots|
      modifies Repr
      ensures Linked() && fresh(Repr - old(Repr)) && pinned == old(pinned) + {slot}
      ensures state == old(state).(
        gdl := [slot] + old(state.gdl),
        slots := old(state.slots)[slot := old(state.slots)[slot].(page := page, dirty := true)])
    {
      hide Chain.Valid, Ring.Valid, DirtyMap.Valid, HashIndex.Valid, LruPositions, GdlPositions, Shows;
      ghost var es := entries[..];
      var node := gdl.Push(slot);
      var e := entries[slot].(page := page, dirty := true, gdlPos := node);
      GdlPushed(es, old(gdl.nodes), old(gdl.indices), pinned, slot, e, node);
      EntryKept(es, lru.nodes, lru.indices, gdl.nodes, gdl.indices, pinned, slot, e);
      EntryShows(es, state.slots, slot, e);
      entries[slot] := e;
      assert entries[..] == es[slot := e];
      Repr := Repr + {node};
      pinned := pinned + {slot};
      state := state.(gdl := [slot] + state.gdl, slots := state.slots[slot := SlotOf(e)]);
    }

    /** Pops the node that a slot points to, if any, off the dirty ring. */
    method Unpin(slot: nat)
      requires Linked() && slot < |state.slots|
      modifies Repr
      ensures Linked() && fresh(Repr - old(Repr)) && pinned == old(pinned) - {slot}
      ensures state == old(state).(gdl := if slot in old(pinned) then Remove(old(state.gdl), slot) else old(state.gdl))
    {
      var position := entries[slot].gdlPos;
      if position != null {
        assert slot in pinned;
        RemoveIsRemoveAt(gdl.indices, slot);
        UnpinAt(slot, position, IndexOf(gdl.indices, slot));
      } else {
        assert slot !in pinned && pinned - {slot} == pinned;
      }
    }

    /** Pops the tail of the dirty ring, and makes its slot forget the ring. */
    method PopOldestDirty() returns (slot: nat)
      requires Linked() && state.gdl != [] && Last(state.gdl) < |state.slots|
      modifies Repr
      ensures Linked() && fresh(Repr - old(Repr)) && pinned == old(pinned) - {slot}
      ensures slot == Last(old(state.gdl)) && state == old(state).(gdl := Front(old(state.gdl)))
    {
      gdl.Sizes();
      var tail := gdl.Tail();
      gdl.NodeAt(|gdl.nodes| - 1);
      slot := tail.index;
      UnpinAt(slot, tail, |gdl.nodes| - 1);
      assert RemoveAt(old(state.gdl), |old(state.gdl)| - 1) == Front(old(state.gdl));
    }

    /** Pops a given node off the dirty ring; the slot it names no longer points into the ring. */
    method UnpinAt(slot: nat, node: RingNode, ghost k: nat)
      requires Linked() && k < |gdl.nodes| && gdl.nodes[k] == node && |gdl.nodes| == |gdl.indices|
      requires slot == state.gdl[k] < |state.slots|
      modifies Repr
      ensures Linked() && fresh(Repr - old(Repr)) && pinned == old(pinned) - {slot}
      ensures state == old(state).(gdl := RemoveAt(old(state.gdl), k))
    {
      hide Chain.Valid, Ring.Valid, DirtyMap.Valid, HashIndex.Valid, LruPositions, GdlPositions, Shows;
      ghost var es := entries[..];
      gdl.NodeAt(k);
      GdlPopped(es, gdl.nodes, gdl.indices, pinned, k);
      var e := entries[slot].(gdlPos := null);
      EntryKept(es, lru.nodes, lru.indices, gdl.nodes, gdl.indices, pinned, slot, e);
      EntryShows(es, state.slots, slot, e);
      assert state.slots[slot := SlotOf(e)] == state.slots;
      var _ := gdl.Pop(node);
      entries[slot] := e;
      assert entries[..] == es[slot := e];
      state := state.(gdl := RemoveAt(state.gdl, k));
      pinned := pinned - {slot};
    }

    method EntryAt(slot: nat) returns (e: Entry)
      requires Linked() && slot < |state.slots|
      ensures SlotOf(e) == state.slots[slot] && e == entries[slot]
    {
      EntryShows(entries[..], state.slots, slot, entries[slot]);
      e := entries[slot];
    }

    method HasFree() returns (yes: bool)
      requires Linked()
      ensures yes <==> state.free != []
    {
      yes := free.head != null;
    }

    method AnyDirty() returns (yes: bool)
      requires Linked()
      ensures yes <==> state.gdl != []
    {
      yes := gdl.size > 0 && gdl.head != null;
    }

    method ListOf(inum: nat) returns (blocks: Option<seq<nat>>)
      requires Linked()
      ensures blocks == if inum in state.lists then Some(state.lists[inum]) else None
    {
      var entry := dirtyMap.Lookup(inum);
      return if entry == null then None else Some(entry.blocks);
    }

    /** The number of blocks of the disk. */
    method DiskSize() returns (total: nat)
      requires Valid()
      ensures total == |state.disk|
    {
      total := disk.Length;
    }

    // ----- The operations of cache.c -----

    /** Returns the page of a block, loading it from disk if it is not resident. */
    method GetBlock(inum: nat, block: nat) returns (page: Page)
      requires Valid() && block < |state.disk|
      modifies Repr
      ensures Valid() && fresh(Repr - old(Repr))
      ensures state == Got(old(state), inum, block)
      ensures page == old(Contents())[block] && Contents() == old(Contents())
    {
      hide Linked, Inv, Touched, Loaded, Evicted, PinnedAreDirty, View;
      GotKeepsInv(state, inum, block);
      var slot := Find(block);
      if slot == -1 {
        page := Miss(inum, block);
      } else {
        page := Touch(slot, block);
      }
    }

    method Miss(inum: nat, block: nat) returns (page: Page)
      requires Valid() && block < |state.disk| && block !in state.index
      modifies Repr
      ensures Linked() && PinnedAreDirty(state, pinned) && fresh(Repr - old(Repr))
      ensures state == Got(old(state), inum, block) && page == old(Contents())[block]
    {
      hide Linked, Inv, Loaded, Evicted, PinnedAreDirty;
      var available := HasFree();
      if !available {
        PinnedAfterEviction(state, pinned);
        EvictedKeepsView(state, block);
        EvictedKeeps(state);
        NotIndexedAfterEviction(state, block);
        Evict();
      } else {
        FreeSlot(state);
      }
      PinnedAfterLoad(state, inum, block, pinned);
      page := Load(inum, block);
    }

    /** A hit: the slot moves to the head of the LRU ring, unless it is alone there. */
    method Touch(slot: nat, ghost block: nat) returns (page: Page)
      requires Valid() && block in state.index && state.index[block] == slot
      modifies Repr
      ensures Linked() && PinnedAreDirty(state, pinned) && fresh(Repr - old(Repr))
      ensures state == Touched(old(state), block) && page == old(Contents())[block]
    {
      hide Linked;
      assert slot in state.lru;
      PinnedAfterTouch(state, block, pinned);
      var size := RecentSize();
      if size > 1 {
        MoveToHead(slot);
      } else {
        assert state.lru == [slot];
      }
      var e := EntryAt(slot);
      page := e.page;
    }

    method RecentSize() returns (size: nat)
      requires Linked()
      ensures size == |state.lru|
    {
      size := lru.size;
    }

    /** Writes back the tail of the LRU ring if it is dirty, and frees its slot. */
    method Evict()
      requires Valid() && state.free == []
      modifies Repr
      ensures Linked() && fresh(Repr - old(Repr))
      ensures old(state.lru) != [] && state == Evicted(old(state))
      ensures pinned == old(pinned) - {Last(old(state.lru))}
    {
      hide Linked, Inv, PinnedAreDirty, Unmarked;
      OldestSlot(state);
      PinnedAfterEviction(state, pinned);
      var slot := PopOldest();
      var e := EntryAt(slot);
      if e.dirty { Settle(slot); }
      DropFromIndex(e.block);
      PushFree(slot);
    }

    /** Writes back a dirty slot that is to be freed, and takes it off the lists. */
    method Settle(slot: nat)
      requires Linked() && slot < |state.slots| && state.slots[slot].block < |state.disk| && slot in pinned
      modifies Repr
      ensures Linked() && fresh(Repr - old(Repr)) && pinned == old(pinned) - {slot}
      ensures var e := old(state.slots)[slot];
        state == old(state).(
          disk := old(state.disk)[e.block := e.page],
          lists := if e.page.DataPage? then Unmarked(old(state.lists), e.inum, e.block) else old(state.lists),
          gdl := Remove(old(state.gdl), slot))
    {
      hide Linked, Unmarked;
      var e := EntryAt(slot);
      WriteBack(slot);
      if e.page.DataPage? { Unlist(e.inum, e.block); }
      Unpin(slot);
    }

    /** Takes the top free slot for a block that is not resident. */
    method Load(inum: nat, block: nat) returns (page: Page)
      requires Linked() && state.free != [] && state.free[0] < |state.slots|
      requires state.free[0] !in state.lru && state.free[0] !in pinned
      requires block < |state.disk| && block !in state.index
      modifies Repr
      ensures Linked() && fresh(Repr - old(Repr)) && pinned == old(pinned)
      ensures state == Loaded(old(state), inum, block) && page == old(state.disk)[block]
    {
      hide Linked;
      var slot := PopFree();
      page := ReadDisk(block);
      Fill(slot, block, inum, page);
      AddToIndex(block, slot);
    }

    /** Writes a page to the cache and marks it dirty, after loading its block if need be. */
    method WriteBlock(page: Page, inum: nat, block: nat)
      requires Valid() && block < |state.disk|
      modifies Repr
      ensures Valid() && fresh(Repr - old(Repr))
      ensures state == Wrote(old(state), inum, block, page)
      ensures Contents() == old(Contents())[block := page]
    {
      hide Linked, Inv, Got, PinnedAreDirty, View, Marked;
      WroteKeeps(state, inum, block, page);
      GotKeepsInv(state, inum, block);
      var slot := Find(block);
      if slot == -1 {
        var _ := GetBlock(inum, block);
        slot := Find(block);
      }
      SlotOfBlock(state, block);
      PinnedAfterStore(state, inum, block, page, pinned);
      Store(slot, page);
      if page.DataPage? { List(inum, block); }
    }

    /**
      Writes back the listed blocks of one inode. The lookup of a listed block that is not resident
      yields -1; the source goes on with that index, the method stops there and reports it.
     */
    method Fsync(inum: nat) returns (ok: bool)
      requires Valid()
      modifies Repr
      ensures Valid() && fresh(Repr - old(Repr))
      ensures ok <==> FsyncSafe(old(state), inum)
      ensures ok ==> state == Fsynced(old(state), inum) && Contents() == old(Contents())
    {
      hide Linked, Inv, PinnedAreDirty, View;
      var list := ListOf(inum);
      ok := true;
      if list != None {
        ok := FsyncList(list.value);
        if ok {
          FsyncedKeeps(old(state), inum);
          PinnedIgnoresLists(state, state.lists - {inum}, pinned);
          DropList(inum);
        }
      }
    }

    method FsyncList(blocks: seq<nat>) returns (ok: bool)
      requires Valid()
      modifies Repr
      ensures Valid() && fresh(Repr - old(Repr)) && state.lists == old(state.lists)
      ensures ok <==> forall b | b in blocks :: b in old(state.index)
      ensures ok ==> state == FsyncedAll(old(state), blocks)
    {
      hide Linked, Inv, PinnedAreDirty, View;
      var list := blocks;
      ghost var safe := forall b | b in blocks :: b in state.index;
      while list != []
        invariant Valid() && fresh(Repr - old(Repr))
        invariant state.index == old(state.index) && state.lists == old(state.lists)
        invariant forall b | b in list :: b in blocks
        invariant forall b | b in blocks :: b in list || b in state.index
        invariant safe ==> FsyncedAll(state, list) == FsyncedAll(old(state), blocks)
        decreases |list|
      {
        assert list[0] in list && forall b | b in list :: b == list[0] || b in list[1..];
        var slot := Find(list[0]);
        if slot < 0 { return false; }
        FsyncOne(list[0], slot);
        list := list[1..];
      }
      ok := true;
    }

    method FsyncOne(block: nat, slot: nat)
      requires Valid() && block in state.index && slot == state.index[block]
      modifies Repr
      ensures Valid() && fresh(Repr - old(Repr))
      ensures state == FsyncedOne(old(state), block)
      ensures state.index == old(state.index) && state.lists == old(state.lists)
    {
      hide Linked, Inv, PinnedAreDirty, View;
      FsyncedOneKeeps(state, block);
      SlotOfBlock(state, block);
      PinnedAfterFsync(state, block, pinned);
      WriteBack(slot);
      MarkClean(slot);
      Unpin(slot);
    }

    /** Writes back every dirty block, oldest first. */
    method Sync()
      requires Valid()
      modifies Repr
      ensures Valid() && fresh(Repr - old(Repr))
      ensures state == Synced(old(state)) && Contents() == old(Contents())
    {
      hide Linked, Inv, PinnedAreDirty, View;
      SyncedIsDurable(state);
      var more := AnyDirty();
      while more
        invariant Valid() && fresh(Repr - old(Repr))
        invariant Synced(state) == Synced(old(state))
        invariant more <==> state.gdl != []
        decreases |state.gdl|
      {
        SyncOne();
        more := AnyDirty();
      }
    }

    method SyncOne()
      requires Valid() && state.gdl != []
      modifies Repr
      ensures Valid() && fresh(Repr - old(Repr))
      ensures state == SyncedOne(old(state))
    {
      hide Linked, Inv, PinnedAreDirty, View, Unmarked;
      SyncedOneKeeps(state);
      PinnedAfterSync(state, pinned);
      var slot := PopOldestDirty();
      var e := EntryAt(slot);
      WriteBack(slot);
      MarkClean(slot);
      if e.page.DataPage? { Unlist(e.inum, e.block); }
    }
  }
}
