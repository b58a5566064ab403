/**
  The value of the block cache of cache.c, and what each operation makes of it. The rings are
  sequences of slot indices, head first. The global dirty ring keeps one entry for every write,
  so a slot may occur in it several times; the node that a dirty slot points to is always the
  first of them.
 */
module CacheModel {
  import opened Blocks
  import opened Sequences
  import opened DirtyMap

  datatype Slot = Slot(dirty: bool, block: nat, inum: nat, page: Page)

  datatype State = State(
    slots: seq<Slot>,
    free: seq<nat>,
    lru: seq<nat>,
    gdl: seq<nat>,
    index: map<nat, nat>,
    lists: Lists,
    disk: seq<Page>)

  ghost predicate Initial(s: State) {
    && s.slots != []
    && |s.free| == |s.slots|
    && NoDup(s.free) && (forall i | i in s.free :: i < |s.slots|)
    && (forall i | i < |s.slots| && 0 <= i :: i in s.free)
    && s.lru == [] && s.gdl == [] && s.index == map[] && s.lists == map[]
  }

  // ----- The invariant of every reachable state -----

  ghost predicate Inv(s: State) {
    && s.slots != []
    && SlotsPartitioned(s)
    && Indexed(s)
    && (forall i | i in s.lru :: Coherent(s, i))
    && (forall i | i in s.gdl :: i in s.lru)
  }

  /** Every slot is on the free list or on the LRU ring, once. */
  ghost predicate SlotsPartitioned(s: State) {
    && NoDup(s.lru) && NoDup(s.free)
    && |s.lru| + |s.free| == |s.slots|
    && (forall i | i in s.lru :: i < |s.slots| && i !in s.free)
    && (forall i | i in s.free :: i < |s.slots|)
  }

  /** The primary index is a bijection between the resident blocks and the slots of the LRU ring. */
  ghost predicate Indexed(s: State)
    requires SlotsPartitioned(s)
  {
    && (forall i | i in s.lru :: s.slots[i].block in s.index && s.index[s.slots[i].block] == i)
    && (forall b | b in s.index :: s.index[b] in s.lru && s.slots[s.index[b]].block == b)
  }

  /** A dirty slot is on the global dirty ring; a clean one equals its disk block. */
  ghost predicate Coherent(s: State, i: nat)
    requires i < |s.slots|
  {
    var e := s.slots[i];
    e.block < |s.disk| && if e.dirty then i in s.gdl else e.page == s.disk[e.block]
  }

  /** What a reader of block b sees: the cached page if there is one, else the disk block. */
  ghost function At(s: State, b: nat): Page
    requires Inv(s) && b < |s.disk|
  {
    if b in s.index then s.slots[s.index[b]].page else s.disk[b]
  }

  ghost function View(s: State): (v: seq<Page>)
    requires Inv(s)
    ensures |v| == |s.disk| && forall b | 0 <= b < |v| :: v[b] == At(s, b)
  {
    seq(|s.disk|, b requires 0 <= b < |s.disk| => At(s, b))
  }

  // ----- The operations -----

  /** The effect of a hit: the slot moves to the head of the LRU ring. */
  ghost function Touched(s: State, b: nat): State
    requires b in s.index
  {
    s.(lru := [s.index[b]] + Remove(s.lru, s.index[b]))
  }

  /** The tail of the LRU ring is written back if dirty, and its slot becomes free. */
  ghost function Evicted(s: State): State
    requires Inv(s) && s.lru != []
  {
    var v := Last(s.lru);
    assert v in s.lru;
    var e := s.slots[v];
    var t := s.(lru := Front(s.lru), free := [v] + s.free, index := s.index - {e.block});
    if !e.dirty then t
    else t.(
      disk := s.disk[e.block := e.page],
      lists := if e.page.DataPage? then Unmarked(s.lists, e.inum, e.block) else s.lists,
      gdl := Remove(s.gdl, v))
  }

  /** The top free slot receives a disk block. */
  ghost function Loaded(s: State, inum: nat, b: nat): State
    requires s.free != [] && s.free[0] < |s.slots| && b < |s.disk|
  {
    var i := s.free[0];
    s.(free := s.free[1..],
       slots := s.slots[i := Slot(false, b, inum, s.disk[b])],
       lru := [i] + s.lru,
       index := s.index[b := i])
  }

  ghost function Got(s: State, inum: nat, b: nat): State
    requires Inv(s) && b < |s.disk|
  {
    if b in s.index then Touched(s, b)
    else if s.free == [] then
      EvictedKeeps(s);
      Loaded(Evicted(s), inum, b)
    else
      assert s.free[0] in s.free;
      Loaded(s, inum, b)
  }

  ghost function Stored(s: State, inum: nat, b: nat, p: Page): State
    requires b in s.index && s.index[b] < |s.slots|
  {
    var i := s.index[b];
    s.(slots := s.slots[i := s.slots[i].(page := p, dirty := true)],
       lists := if p.DataPage? then Marked(s.lists, inum, b) else s.lists,
       gdl := [i] + s.gdl)
  }

  ghost function Wrote(s: State, inum: nat, b: nat, p: Page): State
    requires Inv(s) && b < |s.disk|
  {
    GotKeepsInv(s, inum, b);
    Stored(if b in s.index then s else Got(s, inum, b), inum, b, p)
  }

  /** Slot i is written back and marked clean. */
  ghost function Cleaned(s: State, i: nat): State
    requires i < |s.slots| && s.slots[i].block < |s.disk|
  {
    s.(disk := s.disk[s.slots[i].block := s.slots[i].page], slots := s.slots[i := s.slots[i].(dirty := false)])
  }

  /** One round of cache_sync: the oldest node of the dirty ring. */
  ghost function SyncedOne(s: State): State
    requires Inv(s) && s.gdl != []
  {
    var i := Last(s.gdl);
    assert i in s.gdl;
    var e := s.slots[i];
    Cleaned(s, i).(
      gdl := Front(s.gdl),
      lists := if e.page.DataPage? then Unmarked(s.lists, e.inum, e.block) else s.lists)
  }

  ghost function Synced(s: State): State
    requires Inv(s)
    decreases |s.gdl|
  {
    if s.gdl == [] then s
    else
      SyncedOneKeeps(s);
      Synced(SyncedOne(s))
  }

  /** One round of cache_fsync: a listed block. */
  ghost function FsyncedOne(s: State, b: nat): State
    requires Inv(s) && b in s.index
  {
    var i := s.index[b];
    Cleaned(s, i).(gdl := if s.slots[i].dirty then Remove(s.gdl, i) else s.gdl)
  }

  ghost function FsyncedAll(s: State, blocks: seq<nat>): State
    requires Inv(s) && forall b | b in blocks :: b in s.index
    decreases |blocks|
  {
    if blocks == [] then s
    else
      FsyncedOneKeeps(s, blocks[0]);
      FsyncedAll(FsyncedOne(s, blocks[0]), blocks[1..])
  }

  /**
    The condition under which cache_fsync stays inside the slot array: for a listed block that is
    not resident the lookup yields -1, and the source indexes the array with it.
   */
  ghost predicate FsyncSafe(s: State, inum: nat) {
    inum in s.lists ==> forall b | b in s.lists[inum] :: b in s.index
  }

  ghost function Fsynced(s: State, inum: nat): State
    requires Inv(s) && FsyncSafe(s, inum)
  {
    if inum !in s.lists then s
    else
      var t := FsyncedAll(s, s.lists[inum]);
      t.(lists := s.lists - {inum})
  }

  // ----- Each operation keeps the invariant and the view -----

  lemma InitialInv(s: State)
    requires Initial(s)
    ensures Inv(s) && View(s) == s.disk
  {
  }

  lemma TouchedKeeps(s: State, b: nat)
    requires Inv(s) && b in s.index
    ensures Inv(Touched(s, b)) && View(Touched(s, b)) == View(s)
  {
    MoveToFront(s.lru, s.index[b]);
  }

  lemma EvictedStructure(s: State)
    requires Inv(s) && s.free == []
    ensures s.lru != []
    ensures var t := Evicted(s);
      && SlotsPartitioned(t) && Indexed(t) && t.free == [Last(s.lru)] && t.slots == s.slots
      && (forall i | i in t.lru :: i in s.lru && i != Last(s.lru))
  {
    LruTail(s.lru);
    assert Last(s.lru) in s.lru;
  }

  lemma LruTail(s: seq<nat>)
    requires NoDup(s) && s != []
    ensures NoDup(Front(s)) && Last(s) !in Front(s) && forall i :: i in s <==> i == Last(s) || i in Front(s)
  {
    assert s == Front(s) + [Last(s)];
  }

  lemma FreeSlot(s: State)
    requires Inv(s) && s.free != []
    ensures s.free[0] < |s.slots| && s.free[0] !in s.lru
  {
    assert s.free[0] in s.free;
  }

  lemma OldestSlot(s: State)
    requires Inv(s) && s.free == []
    ensures s.lru != [] && Last(s.lru) < |s.slots| && s.slots[Last(s.lru)].block < |s.disk|
    ensures Last(s.lru) in s.lru
  {
    assert Last(s.lru) in s.lru;
    assert Coherent(s, Last(s.lru));
  }

  /** Eviction leaves exactly the evicted slot outside the ring, on top of the free list. */
  lemma EvictedKeeps(s: State)
    requires Inv(s) && s.free == []
    ensures s.lru != []
    ensures var t := Evicted(s);
      && SlotsPartitioned(t) && Indexed(t) && t.free == [Last(s.lru)] && t.slots == s.slots && |t.disk| == |s.disk|
      && (forall i | i in t.lru :: Coherent(t, i))
      && (forall i | i in t.gdl :: i in t.lru || i == t.free[0])
  {
    EvictedStructure(s);
    var v := Last(s.lru);
    RemoveMembers(s.gdl, v);
    assert s.lru == Front(s.lru) + [v];
    assert v in s.lru;
    forall i | i in Evicted(s).lru
      ensures Coherent(Evicted(s), i)
    {
      assert Coherent(s, i) && s.slots[i].block != s.slots[v].block;
    }
  }

  lemma EvictedKeepsView(s: State, b: nat)
    requires Inv(s) && s.free == [] && s.lru != [] && b < |s.disk|
    ensures var t := Evicted(s);
      b !in t.index || t.index[b] < |t.slots|
    ensures var t := Evicted(s);
      |t.disk| == |s.disk| && At(s, b) == if b in t.index then t.slots[t.index[b]].page else t.disk[b]
  {
    assert Last(s.lru) in s.lru;
  }

  lemma LoadedStructure(s: State, inum: nat, b: nat)
    requires s.slots != [] && SlotsPartitioned(s) && Indexed(s) && s.free != [] && s.free[0] < |s.slots|
    requires b < |s.disk| && b !in s.index
    ensures SlotsPartitioned(Loaded(s, inum, b)) && Indexed(Loaded(s, inum, b))
    ensures forall k | k in Loaded(s, inum, b).lru :: k == s.free[0] || k in s.lru
  {
    var i := s.free[0];
    var t := Loaded(s, inum, b);
    assert i in s.free && s.free == [i] + t.free;
    assert forall k | k in t.free :: k in s.free;
  }

  lemma LoadedKeeps(s: State, inum: nat, b: nat)
    requires s.slots != [] && SlotsPartitioned(s) && Indexed(s) && s.free != [] && s.free[0] < |s.slots|
    requires forall i | i in s.lru :: Coherent(s, i)
    requires forall i | i in s.gdl :: i in s.lru || i == s.free[0]
    requires b < |s.disk| && b !in s.index
    ensures Inv(Loaded(s, inum, b)) && |Loaded(s, inum, b).disk| == |s.disk|
    ensures forall c | 0 <= c < |s.disk| ::
      At(Loaded(s, inum, b), c) == if c in s.index then s.slots[s.index[c]].page else s.disk[c]
  {
    LoadedStructure(s, inum, b);
    assert s.free[0] in s.free;
  }

  lemma GotKeepsInv(s: State, inum: nat, b: nat)
    requires Inv(s) && b < |s.disk|
    ensures var t := Got(s, inum, b);
      Inv(t) && b in t.index && View(t) == View(s) && t.slots[t.index[b]].page == View(s)[b]
  {
    if b in s.index {
      TouchedKeeps(s, b);
    } else if s.free == [] {
      EvictingGetKeeps(s, inum, b);
    } else {
      LoadingGetKeeps(s, inum, b);
    }
  }

  lemma EvictingGetKeeps(s: State, inum: nat, b: nat)
    requires Inv(s) && b < |s.disk| && b !in s.index && s.free == []
    ensures s.lru != [] && |Evicted(s).disk| == |s.disk| && Evicted(s).free != []
    ensures Evicted(s).free[0] < |Evicted(s).slots|
    ensures var t := Loaded(Evicted(s), inum, b);
      Inv(t) && b in t.index && View(t) == View(s) && t.slots[t.index[b]].page == View(s)[b]
  {
    EvictedKeeps(s);
    OldestSlot(s);
    NotInEvicted(s, b);
    var e := Evicted(s);
    LoadedKeeps(e, inum, b);
    var t := Loaded(e, inum, b);
    assert b in t.index;
    hide Inv, SlotsPartitioned, Indexed, Coherent, Loaded, Evicted;
    forall c | 0 <= c < |s.disk|
      ensures At(t, c) == At(s, c)
    {
      EvictedKeepsView(s, c);
    }
    assert View(t) == View(s);
    assert At(t, b) == t.slots[t.index[b]].page;
  }

  lemma NotInEvicted(s: State, b: nat)
    requires Inv(s) && s.lru != [] && b !in s.index
    ensures b !in Evicted(s).index
  {
    assert Last(s.lru) in s.lru;
  }

  lemma LoadingGetKeeps(s: State, inum: nat, b: nat)
    requires Inv(s) && b < |s.disk| && b !in s.index && s.free != []
    ensures s.free[0] < |s.slots|
    ensures var t := Loaded(s, inum, b);
      Inv(t) && b in t.index && View(t) == View(s) && t.slots[t.index[b]].page == View(s)[b]
  {
    FreeSlot(s);
    LoadedKeeps(s, inum, b);
    var t := Loaded(s, inum, b);
    assert b in t.index;
    hide Inv, SlotsPartitioned, Indexed, Coherent, Loaded;
    assert View(t) == View(s);
    assert At(t, b) == t.slots[t.index[b]].page;
  }

  lemma StoredKeeps(s: State, inum: nat, b: nat, p: Page)
    requires Inv(s) && b in s.index && b < |s.disk|
    ensures Inv(Stored(s, inum, b, p))
    ensures View(Stored(s, inum, b, p)) == View(s)[b := p]
  {
    var u := Stored(s, inum, b, p);
    assert forall k | k in u.gdl :: k == s.index[b] || k in s.gdl;
    assert forall k | k in s.gdl :: k in u.gdl;
  }

  lemma WroteKeeps(s: State, inum: nat, b: nat, p: Page)
    requires Inv(s) && b < |s.disk|
    ensures Inv(Wrote(s, inum, b, p))
    ensures View(Wrote(s, inum, b, p)) == View(s)[b := p]
  {
    GotKeepsInv(s, inum, b);
    StoredKeeps(if b in s.index then s else Got(s, inum, b), inum, b, p);
  }

  lemma SyncedOneKeeps(s: State)
    requires Inv(s) && s.gdl != []
    ensures Inv(SyncedOne(s)) && View(SyncedOne(s)) == View(s)
  {
    var i := Last(s.gdl);
    assert s.gdl == Front(s.gdl) + [i];
  }

  lemma FsyncedOneKeeps(s: State, b: nat)
    requires Inv(s) && b in s.index
    ensures Inv(FsyncedOne(s, b)) && View(FsyncedOne(s, b)) == View(s)
    ensures FsyncedOne(s, b).index == s.index
  {
    FsyncedOneInv(s, b);
    hide Inv;
    forall c | 0 <= c < |s.disk|
      ensures At(FsyncedOne(s, b), c) == At(s, c)
    {
      FsyncedOneAt(s, b, c);
    }
    assert View(FsyncedOne(s, b)) == View(s);
  }

  lemma FsyncedOneInv(s: State, b: nat)
    requires Inv(s) && b in s.index
    ensures Inv(FsyncedOne(s, b)) && |FsyncedOne(s, b).disk| == |s.disk|
  {
    RemoveMembers(s.gdl, s.index[b]);
    assert Coherent(s, s.index[b]);
    assert forall i | i in s.lru && i != s.index[b] :: s.slots[i].block != b;
  }

  lemma FsyncedOneAt(s: State, b: nat, c: nat)
    requires Inv(s) && b in s.index && c < |s.disk| && Inv(FsyncedOne(s, b)) && |FsyncedOne(s, b).disk| == |s.disk|
    ensures At(FsyncedOne(s, b), c) == At(s, c)
  {
    assert c in s.index && c != b ==> s.index[c] != s.index[b];
  }
}
