/** What cache.c promises over single calls and over whole runs. */
module CacheTheorems {
  import opened Blocks
  import opened Sequences
  import opened DirtyMap
  import opened CacheModel

  // ----- cache_sync makes the disk equal to the view -----

  lemma {:induction false} SyncedIsDurable(s: State)
    requires Inv(s)
    ensures var t := Synced(s);
      && Inv(t) && t.disk == View(s) && View(t) == View(s)
      && t.gdl == [] && (forall i | i in t.lru :: !t.slots[i].dirty)
      && t.index == s.index && t.lru == s.lru && t.free == s.free
    decreases |s.gdl|
  {
    if s.gdl != [] {
      SyncedOneKeeps(s);
      SyncedIsDurable(SyncedOne(s));
    } else {
      assert forall b | b in s.index :: Coherent(s, s.index[b]);
    }
  }

  // ----- The per-inode lists and the dirty data blocks -----

  ghost predicate Listed(lists: Lists, i: nat, b: nat) {
    i in lists && b in lists[i]
  }

  ghost predicate WellListed(lists: Lists) {
    forall i | i in lists :: lists[i] != [] && NoDup(lists[i])
  }

  /** Block b is resident, dirty, of data type, and was loaded for inode i. */
  ghost predicate Owed(s: State, i: nat, b: nat)
    requires Inv(s)
  {
    b in s.index && var e := s.slots[s.index[b]]; e.dirty && e.page.DataPage? && e.inum == i
  }

  ghost predicate Agrees(s: State)
    requires Inv(s)
  {
    WellListed(s.lists) && forall i: nat, b: nat :: Listed(s.lists, i, b) <==> Owed(s, i, b)
  }

  lemma MarkedLists(lists: Lists, i: nat, b: nat)
    requires WellListed(lists)
    ensures WellListed(Marked(lists, i, b))
    ensures forall j: nat, c: nat :: Listed(Marked(lists, i, b), j, c) <==> Listed(lists, j, c) || (j == i && c == b)
  {
  }

  lemma UnmarkedLists(lists: Lists, i: nat, b: nat)
    requires WellListed(lists)
    ensures WellListed(Unmarked(lists, i, b))
    ensures forall j: nat, c: nat :: Listed(Unmarked(lists, i, b), j, c) <==> Listed(lists, j, c) && !(j == i && c == b)
  {
    if Listed(lists, i, b) {
      RemoveMembers(lists[i], b);
      RemoveNoDup(lists[i], b);
    }
  }

  /** Only the evicted block stops being owed to its inode. */
  lemma EvictionOwed(s: State, inum: nat, b: nat)
    requires Inv(s) && b < |s.disk| && b !in s.index && s.free == []
    ensures s.lru != [] && Last(s.lru) < |s.slots| && Inv(Got(s, inum, b))
    ensures forall j: nat, c: nat ::
      Owed(Got(s, inum, b), j, c) <==> Owed(s, j, c) && c != s.slots[Last(s.lru)].block
  {
    GotKeepsInv(s, inum, b);
    EvictedKeeps(s);
    assert Last(s.lru) in s.lru;
    var t := Got(s, inum, b);
    forall c: nat | c in t.index && c != b
      ensures c in s.index && t.index[c] == s.index[c] && t.slots[t.index[c]] == s.slots[t.index[c]]
    {
    }
  }

  lemma GotKeepsAgreement(s: State, inum: nat, b: nat)
    requires Inv(s) && Agrees(s) && b < |s.disk|
    ensures Inv(Got(s, inum, b)) && Agrees(Got(s, inum, b))
  {
    GotKeepsInv(s, inum, b);
    if b !in s.index && s.free == [] {
      EvictingKeepsAgreement(s, inum, b);
    } else if b !in s.index {
      LoadingKeepsAgreement(s, inum, b);
    } else {
      assert forall j: nat, c: nat :: Owed(Got(s, inum, b), j, c) <==> Owed(s, j, c);
    }
  }

  lemma EvictingKeepsAgreement(s: State, inum: nat, b: nat)
    requires Inv(s) && Agrees(s) && b < |s.disk| && b !in s.index && s.free == []
    ensures Inv(Got(s, inum, b)) && Agrees(Got(s, inum, b))
  {
    EvictionOwed(s, inum, b);
    EvictedLists(s, inum, b);
    var e := s.slots[Last(s.lru)];
    UnmarkedLists(s.lists, e.inum, e.block);
    EvictedOwner(s);
    hide Inv, Got, Owed, Unmarked;
    forall j: nat, c: nat
      ensures Listed(Got(s, inum, b).lists, j, c) <==> Owed(Got(s, inum, b), j, c)
    {
      assert Listed(s.lists, j, c) <==> Owed(s, j, c);
    }
  }

  /** The block in the slot at the tail of the ring is owed to one inode at most. */
  lemma EvictedOwner(s: State)
    requires Inv(s) && s.free == []
    ensures s.lru != [] && Last(s.lru) < |s.slots|
    ensures var e := s.slots[Last(s.lru)];
      forall j: nat :: Owed(s, j, e.block) <==> e.dirty && e.page.DataPage? && j == e.inum
  {
    EvictedStructure(s);
    assert Last(s.lru) in s.lru;
  }

  lemma EvictedLists(s: State, inum: nat, b: nat)
    requires Inv(s) && b < |s.disk| && b !in s.index && s.free == []
    ensures s.lru != [] && Last(s.lru) < |s.slots|
    ensures var e := s.slots[Last(s.lru)];
      Got(s, inum, b).lists == if e.dirty && e.page.DataPage? then Unmarked(s.lists, e.inum, e.block) else s.lists
  {
    EvictedStructure(s);
    assert Last(s.lru) in s.lru;
  }

  lemma LoadingKeepsAgreement(s: State, inum: nat, b: nat)
    requires Inv(s) && Agrees(s) && b < |s.disk| && b !in s.index && s.free != []
    ensures Inv(Got(s, inum, b)) && Agrees(Got(s, inum, b))
  {
    GotKeepsInv(s, inum, b);
    FreeSlot(s);
    assert forall j: nat, c: nat :: Owed(Got(s, inum, b), j, c) <==> Owed(s, j, c);
  }

  /**
    A write keeps the agreement exactly when a data page is written under the inode its block was
    loaded for, and a dirty data block does not lose its type.
   */
  ghost predicate Orderly(s: State, inum: nat, b: nat, p: Page)
    requires Inv(s)
  {
    b in s.index ==>
      var e := s.slots[s.index[b]];
      && (p.DataPage? ==> inum == e.inum)
      && (e.dirty && e.page.DataPage? ==> p.DataPage?)
  }

  lemma StoredAgreement(s: State, inum: nat, b: nat, p: Page)
    requires Inv(s) && Agrees(s) && b < |s.disk| && b in s.index
    ensures Inv(Stored(s, inum, b, p))
    ensures Agrees(Stored(s, inum, b, p)) <==> Orderly(s, inum, b, p)
  {
    StoredKeeps(s, inum, b, p);
    var t := Stored(s, inum, b, p);
    var e := s.slots[s.index[b]];
    if p.DataPage? { MarkedLists(s.lists, inum, b); }
    assert Listed(t.lists, inum, b) <==> p.DataPage? || Listed(s.lists, inum, b);
    assert Listed(s.lists, e.inum, b) ==> Listed(t.lists, e.inum, b);
    assert Owed(t, e.inum, b) <==> p.DataPage?;
    assert inum != e.inum ==> !Owed(t, inum, b);
    forall j: nat, c: nat | c != b
      ensures Owed(t, j, c) <==> Owed(s, j, c)
    {
      assert c in s.index ==> s.index[c] != s.index[b];
    }
  }

  lemma WroteAgreement(s: State, inum: nat, b: nat, p: Page)
    requires Inv(s) && Agrees(s) && b < |s.disk|
    ensures Inv(Wrote(s, inum, b, p))
    ensures Agrees(Wrote(s, inum, b, p)) <==> Orderly(s, inum, b, p)
  {
    WroteKeeps(s, inum, b, p);
    if b in s.index {
      StoredAgreement(s, inum, b, p);
    } else {
      GotKeepsInv(s, inum, b);
      GotKeepsAgreement(s, inum, b);
      StoredAgreement(Got(s, inum, b), inum, b, p);
      if s.free == [] { EvictedKeeps(s); }
    }
  }

  lemma {:induction false} SyncedKeepsAgreement(s: State)
    requires Inv(s) && Agrees(s)
    ensures Inv(Synced(s)) && Agrees(Synced(s))
    decreases |s.gdl|
  {
    SyncedIsDurable(s);
    if s.gdl != [] {
      SyncedOneKeeps(s);
      SyncedOneAgreement(s);
      SyncedIsDurable(SyncedOne(s));
      hide Inv, SyncedOne, Agrees;
      SyncedKeepsAgreement(SyncedOne(s));
    }
  }

  lemma SyncedOneAgreement(s: State)
    requires Inv(s) && Agrees(s) && s.gdl != []
    ensures Inv(SyncedOne(s)) && Agrees(SyncedOne(s))
  {
    SyncedOneKeeps(s);
    assert Last(s.gdl) in s.gdl;
    var e := s.slots[Last(s.gdl)];
    UnmarkedLists(s.lists, e.inum, e.block);
    hide Unmarked;
    assert forall j: nat, c: nat :: Owed(SyncedOne(s), j, c) <==> Owed(s, j, c) && c != e.block;
  }

  // ----- Where a block goes, and what each operation does to the ring of writes and the disk -----

  lemma FirstLeaves(s: seq<nat>, x: nat)
    requires x in s
    ensures Remove(s, x) == RemoveAt(s, IndexOf(s, x))
    ensures multiset(Remove(s, x)) == multiset(s) - multiset{x}
  {
    hide *;
    RemoveIsRemoveAt(s, x);
    WithoutOne(s, IndexOf(s, x));
  }

  lemma WithoutOne(s: seq<nat>, k: nat)
    requires k < |s|
    ensures multiset(RemoveAt(s, k)) == multiset(s) - multiset{s[k]}
  {
    assert s == s[..k] + [s[k]] + s[k + 1..];
  }

  /**
    A block that is not resident goes to the top free slot, or else to the slot at the tail of the ring
    of use. In the second case the newest node of that slot leaves the ring of writes and its page goes
    to the disk, if the slot was dirty. Nothing else changes there.
   */
  lemma GotPlace(s: State, inum: nat, b: nat)
    requires Inv(s) && b < |s.disk|
    ensures Inv(Got(s, inum, b)) && |Got(s, inum, b).disk| == |s.disk| && |Got(s, inum, b).slots| == |s.slots|
    ensures b in s.index || s.free != [] ==> Got(s, inum, b).gdl == s.gdl && Got(s, inum, b).disk == s.disk
    ensures b in s.index ==> Got(s, inum, b).index == s.index && Got(s, inum, b).slots == s.slots
    ensures b !in s.index && s.free != [] ==>
      && s.free[0] < |s.slots| && Got(s, inum, b).free == s.free[1..]
      && Got(s, inum, b).index == s.index[b := s.free[0]]
      && Got(s, inum, b).slots == s.slots[s.free[0] := Slot(false, b, inum, s.disk[b])]
    ensures b !in s.index && s.free == [] ==> s.lru != [] && Last(s.lru) < |s.slots|
    ensures b !in s.index && s.free == [] ==>
      var v, e, t := Last(s.lru), s.slots[Last(s.lru)], Got(s, inum, b);
      && t.free == [] && t.index == (s.index - {e.block})[b := v] && b != e.block
      && t.slots == s.slots[v := Slot(false, b, inum, s.disk[b])]
      && t.disk == (if e.dirty then s.disk[e.block := e.page] else s.disk)
      && (e.dirty ==> v in s.gdl && t.gdl == RemoveAt(s.gdl, IndexOf(s.gdl, v)))
      && (!e.dirty ==> t.gdl == s.gdl)
  {
    GotKeepsInv(s, inum, b);
    if b !in s.index && s.free != [] { FreeSlot(s); }
    if b !in s.index && s.free == [] {
      EvictedPlace(s, b);
    }
  }

  lemma EvictedPlace(s: State, b: nat)
    requires Inv(s) && b < |s.disk| && b !in s.index && s.free == []
    ensures s.lru != [] && Last(s.lru) < |s.slots|
    ensures var v, e, t := Last(s.lru), s.slots[Last(s.lru)], Evicted(s);
      && b != e.block && e.block < |s.disk| && t.free == [v] && t.index == s.index - {e.block} && t.slots == s.slots
      && t.disk == (if e.dirty then s.disk[e.block := e.page] else s.disk)
      && (e.dirty ==> v in s.gdl && t.gdl == RemoveAt(s.gdl, IndexOf(s.gdl, v)))
      && (!e.dirty ==> t.gdl == s.gdl)
  {
    OldestSlot(s);
    EvictedStructure(s);
    var v := Last(s.lru);
    assert Coherent(s, v);
    if s.slots[v].dirty { FirstLeaves(s.gdl, v); }
  }

  /** Every write puts a node for the slot of its block at the head of the ring of writes; the disk stays as it is. */
  lemma WroteRing(s: State, inum: nat, b: nat, p: Page)
    requires Inv(s) && b < |s.disk|
    ensures Inv(Got(s, inum, b)) && Inv(Wrote(s, inum, b, p))
    ensures var u, t := if b in s.index then s else Got(s, inum, b), Wrote(s, inum, b, p);
      && b in u.index && t.index == u.index && t.disk == u.disk && t.lru == u.lru && t.free == u.free
      && t.gdl == [u.index[b]] + u.gdl && u.index[b] < |u.slots|
      && t.slots == u.slots[u.index[b] := u.slots[u.index[b]].(page := p, dirty := true)]
  {
    GotKeepsInv(s, inum, b);
    WroteKeeps(s, inum, b, p);
  }

  /** One round of a sync takes the oldest node, writes its slot back and marks it clean. */
  lemma SyncedOneRing(s: State)
    requires Inv(s) && s.gdl != []
    ensures Last(s.gdl) < |s.slots| && s.slots[Last(s.gdl)].block < |s.disk|
    ensures var i, e, t := Last(s.gdl), s.slots[Last(s.gdl)], SyncedOne(s);
      && s.gdl == t.gdl + [i] && t.disk == s.disk[e.block := e.page] && t.slots == s.slots[i := e.(dirty := false)]
      && t.index == s.index && t.lru == s.lru && t.free == s.free
  {
    assert Last(s.gdl) in s.gdl;
    assert Coherent(s, Last(s.gdl));
  }

  /** Each block that an fsync writes back takes the newest node of its slot off the ring of writes. */
  lemma FsyncedOneRing(s: State, b: nat)
    requires Inv(s) && b in s.index
    ensures s.index[b] < |s.slots|
    ensures s.slots[s.index[b]].dirty ==>
      s.index[b] in s.gdl && FsyncedOne(s, b).gdl == RemoveAt(s.gdl, IndexOf(s.gdl, s.index[b]))
    ensures !s.slots[s.index[b]].dirty ==> FsyncedOne(s, b).gdl == s.gdl
  {
    assert Coherent(s, s.index[b]);
    if s.slots[s.index[b]].dirty { FirstLeaves(s.gdl, s.index[b]); }
  }

  /** The slots that a list of blocks names, and that are dirty. */
  ghost function DirtySlots(s: State, blocks: seq<nat>): (r: set<nat>)
    requires Inv(s) && forall b | b in blocks :: b in s.index
  {
    set b | b in blocks && s.slots[s.index[b]].dirty :: s.index[b]
  }

  /** Over a whole list without repetition: one node less for each dirty slot, for all others as many as before. */
  lemma {:induction false} FsyncedAllRing(s: State, blocks: seq<nat>)
    requires Inv(s) && NoDup(blocks) && forall b | b in blocks :: b in s.index
    ensures forall i: nat ::
      multiset(FsyncedAll(s, blocks).gdl)[i] + (if i in DirtySlots(s, blocks) then 1 else 0) == multiset(s.gdl)[i]
    decreases |blocks|
  {
    if blocks != [] {
      var b, u := blocks[0], FsyncedOne(s, blocks[0]);
      FsyncedOneKeeps(s, b);
      FsyncedOneRing(s, b);
      if s.slots[s.index[b]].dirty { FirstLeaves(s.gdl, s.index[b]); }
      FsyncedAllRing(u, blocks[1..]);
      DirtySlotsStep(s, blocks);
    }
  }

  lemma DirtySlotsStep(s: State, blocks: seq<nat>)
    requires Inv(s) && NoDup(blocks) && blocks != [] && forall b | b in blocks :: b in s.index
    ensures var u := FsyncedOne(s, blocks[0]);
      && Inv(u) && (forall b | b in blocks[1..] :: b in u.index) && s.index[blocks[0]] < |s.slots|
      && var i, first := s.index[blocks[0]], s.slots[s.index[blocks[0]]].dirty;
      && DirtySlots(s, blocks) == DirtySlots(u, blocks[1..]) + (if first then {i} else {})
      && i !in DirtySlots(u, blocks[1..])
  {
    var u := FsyncedOne(s, blocks[0]);
    FsyncedOneKeeps(s, blocks[0]);
    assert forall b | b in blocks[1..] :: b in blocks && b != blocks[0];
    assert forall b | b in s.index && b != blocks[0] :: s.index[b] != s.index[blocks[0]];
    assert forall b | b in blocks :: b == blocks[0] || b in blocks[1..];
    assert forall b | b in blocks[1..] :: u.slots[u.index[b]] == s.slots[s.index[b]] && u.index[b] == s.index[b];
  }

  // ----- cache_fsync writes back exactly what it owes to one inode -----

  lemma {:induction false} FsyncedAllEffect(s: State, blocks: seq<nat>)
    requires Inv(s) && forall b | b in blocks :: b in s.index
    ensures var t := FsyncedAll(s, blocks);
      && Inv(t) && View(t) == View(s)
      && t.index == s.index && t.lists == s.lists && t.lru == s.lru && t.free == s.free
      && (forall b | 0 <= b < |s.disk| :: t.disk[b] == if b in blocks then At(s, b) else s.disk[b])
      && (forall b | b in s.index ::
            t.slots[s.index[b]] == if b in blocks then s.slots[s.index[b]].(dirty := false) else s.slots[s.index[b]])
    decreases |blocks|
  {
    if blocks != [] {
      var u := FsyncedOne(s, blocks[0]);
      FsyncedOneKeeps(s, blocks[0]);
      FsyncedAllEffect(u, blocks[1..]);
      assert forall b :: b in blocks <==> b == blocks[0] || b in blocks[1..];
    }
  }

  lemma FsyncedKeeps(s: State, i: nat)
    requires Inv(s) && FsyncSafe(s, i)
    ensures var t := Fsynced(s, i);
      Inv(t) && View(t) == View(s) && t.index == s.index && t.lru == s.lru && t.free == s.free
  {
    if i in s.lists {
      FsyncedAllEffect(s, s.lists[i]);
      assert View(Fsynced(s, i)) == View(FsyncedAll(s, s.lists[i]));
    }
  }

  lemma AgreementMakesFsyncSafe(s: State, i: nat)
    requires Inv(s) && Agrees(s)
    ensures FsyncSafe(s, i)
    ensures forall b: nat :: i in s.lists && b in s.lists[i] <==> Owed(s, i, b)
  {
    forall b: nat
      ensures i in s.lists && b in s.lists[i] <==> Owed(s, i, b)
    {
      assert Listed(s.lists, i, b) <==> Owed(s, i, b);
    }
  }

  lemma FsyncWritesExactly(s: State, i: nat)
    requires Inv(s) && Agrees(s)
    ensures FsyncSafe(s, i)
    ensures var t := Fsynced(s, i);
      && Inv(t) && View(t) == View(s) && t.lists == s.lists - {i}
      && (forall b | 0 <= b < |s.disk| :: t.disk[b] == if Owed(s, i, b) then View(s)[b] else s.disk[b])
      && t.index == s.index && forall b | b in s.index ::
           t.slots[s.index[b]] == s.slots[s.index[b]].(dirty := s.slots[s.index[b]].dirty && !Owed(s, i, b))
  {
    AgreementMakesFsyncSafe(s, i);
    FsyncedKeeps(s, i);
    if i in s.lists { FsyncedAllEffect(s, s.lists[i]); }
  }

  lemma FsyncKeepsAgreement(s: State, i: nat)
    requires Inv(s) && Agrees(s)
    ensures FsyncSafe(s, i) && Inv(Fsynced(s, i)) && Agrees(Fsynced(s, i))
  {
    FsyncWritesExactly(s, i);
    var t := Fsynced(s, i);
    forall j: nat, b: nat
      ensures Listed(t.lists, j, b) <==> Owed(t, j, b)
    {
      assert Listed(s.lists, j, b) <==> Owed(s, j, b);
    }
  }

  // ----- Whole runs -----

  datatype Op = Get(inum: nat, block: nat) | Write(inum: nat, block: nat, page: Page) | Fsync(inum: nat) | Sync

  /** A run ends with the blocks that its gets returned, unless an fsync left the slot array. */
  datatype Outcome = Crashed | Done(state: State, got: seq<Page>)

  ghost predicate InRange(ops: seq<Op>, blocks: nat) {
    forall k | 0 <= k < |ops| :: ops[k].Get? || ops[k].Write? ==> ops[k].block < blocks
  }

  ghost predicate CanStep(s: State, op: Op) {
    && (op.Get? || op.Write? ==> op.block < |s.disk|)
    && (op.Fsync? ==> FsyncSafe(s, op.inum))
  }

  ghost function Step(s: State, op: Op): State
    requires Inv(s) && CanStep(s, op)
  {
    match op
    case Get(inum, b) => Got(s, inum, b)
    case Write(inum, b, p) => Wrote(s, inum, b, p)
    case Fsync(inum) => Fsynced(s, inum)
    case Sync => Synced(s)
  }

  lemma StepKeeps(s: State, op: Op)
    requires Inv(s) && CanStep(s, op)
    ensures Inv(Step(s, op)) && View(Step(s, op)) == if op.Write? then View(s)[op.block := op.page] else View(s)
    ensures |Step(s, op).disk| == |s.disk|
  {
    match op
    case Get(inum, b) => GotKeepsInv(s, inum, b);
    case Write(inum, b, p) => WroteKeeps(s, inum, b, p);
    case Fsync(inum) => FsyncedKeeps(s, inum);
    case Sync => SyncedIsDurable(s);
    assert |View(Step(s, op))| == |View(s)|;
  }

  ghost function Run(s: State, ops: seq<Op>): Outcome
    requires Inv(s) && InRange(ops, |s.disk|)
    decreases |ops|
  {
    if ops == [] then Done(s, [])
    else if !CanStep(s, ops[0]) then Crashed
    else
      StepKeeps(s, ops[0]);
      var t := Step(s, ops[0]);
      match Run(t, ops[1..])
      case Crashed => Crashed
      case Done(end, got) => Done(end, (if ops[0].Get? then [t.slots[t.index[ops[0].block]].page] else []) + got)
  }

  /** The build without a cache: every operation goes straight to the disk. */
  ghost function RunUncached(disk: seq<Page>, ops: seq<Op>): (seq<Page>, seq<Page>)
    requires InRange(ops, |disk|)
    decreases |ops|
  {
    if ops == [] then (disk, [])
    else
      var (end, got) := RunUncached(if ops[0].Write? then disk[ops[0].block := ops[0].page] else disk, ops[1..]);
      (end, (if ops[0].Get? then [disk[ops[0].block]] else []) + got)
  }

  lemma {:induction false} CachedRefinesUncached(s: State, ops: seq<Op>)
    requires Inv(s) && InRange(ops, |s.disk|)
    ensures var r := Run(s, ops);
      r.Done? ==> Inv(r.state) && RunUncached(View(s), ops) == (View(r.state), r.got)
    decreases |ops|
  {
    if ops != [] && CanStep(s, ops[0]) {
      StepKeeps(s, ops[0]);
      CachedRefinesUncached(Step(s, ops[0]), ops[1..]);
      if ops[0].Get? { GotKeepsInv(s, ops[0].inum, ops[0].block); }
    }
  }

  /** A run from the empty cache that ends in a sync leaves the disk of the build without a cache. */
  lemma SyncedRunEqualsUncachedDisk(s: State, ops: seq<Op>)
    requires Initial(s) && InRange(ops, |s.disk|)
    ensures Inv(s)
    ensures var r := Run(s, ops);
      r.Done? ==> Inv(r.state) && Synced(r.state).disk == RunUncached(s.disk, ops).0
  {
    InitialInv(s);
    CachedRefinesUncached(s, ops);
    var r := Run(s, ops);
    if r.Done? { SyncedIsDurable(r.state); }
  }

  // ----- Runs that keep each block with one inode and one type never crash -----

  /** Every get and write names the owner of its block, and a block's writes agree on being data. */
  ghost predicate Orderliness(ops: seq<Op>, owner: nat -> nat, isData: nat -> bool) {
    forall k | 0 <= k < |ops| ::
      && (ops[k].Get? || ops[k].Write? ==> ops[k].inum == owner(ops[k].block))
      && (ops[k].Write? ==> (ops[k].page.DataPage? <==> isData(ops[k].block)))
  }

  ghost predicate SlotsOrderly(s: State, owner: nat -> nat, isData: nat -> bool)
    requires Inv(s)
  {
    forall b | b in s.index ::
      var e := s.slots[s.index[b]];
      e.inum == owner(b) && (e.dirty ==> (e.page.DataPage? <==> isData(b)))
  }

  lemma GotSlots(s: State, inum: nat, b: nat)
    requires Inv(s) && b < |s.disk|
    ensures var t := Got(s, inum, b);
      && Inv(t) && b in t.index
      && (forall c | c in t.index && c in s.index :: t.slots[t.index[c]] == s.slots[s.index[c]])
      && (forall c | c in t.index && c !in s.index :: c == b && t.slots[t.index[c]] == Slot(false, b, inum, View(s)[b]))
  {
    GotKeepsInv(s, inum, b);
    if b !in s.index {
      if s.free == [] {
        EvictingSlots(s, inum, b);
      } else {
        LoadingSlots(s, inum, b);
      }
    }
  }

  lemma EvictingSlots(s: State, inum: nat, b: nat)
    requires Inv(s) && b < |s.disk| && b !in s.index && s.free == []
    ensures var t := Got(s, inum, b);
      && Inv(t) && b in t.index && t.slots[t.index[b]] == Slot(false, b, inum, View(s)[b])
      && forall c | c in t.index && c != b :: c in s.index && t.slots[t.index[c]] == s.slots[s.index[c]]
  {
    hide Got, Coherent;
    GotPlace(s, inum, b);
    var v := Last(s.lru);
    forall c | c in s.index && c != s.slots[v].block
      ensures s.index[c] != v && s.index[c] < |s.slots|
    {
      assert s.slots[s.index[c]].block == c;
    }
  }

  lemma LoadingSlots(s: State, inum: nat, b: nat)
    requires Inv(s) && b < |s.disk| && b !in s.index && s.free != []
    ensures var t := Got(s, inum, b);
      && Inv(t) && b in t.index && t.slots[t.index[b]] == Slot(false, b, inum, View(s)[b])
      && forall c | c in t.index && c != b :: c in s.index && t.slots[t.index[c]] == s.slots[s.index[c]]
  {
    GotKeepsInv(s, inum, b);
    FreeSlot(s);
    var t := Got(s, inum, b);
    assert forall c | c in t.index && c != b :: c in s.index && t.index[c] == s.index[c] && t.index[c] != t.index[b];
  }

  lemma StepStaysOrderly(s: State, op: Op, owner: nat -> nat, isData: nat -> bool)
    requires Inv(s) && Agrees(s) && SlotsOrderly(s, owner, isData)
    requires op.Get? || op.Write? ==> op.block < |s.disk| && op.inum == owner(op.block)
    requires op.Write? ==> (op.page.DataPage? <==> isData(op.block))
    ensures CanStep(s, op) && Inv(Step(s, op))
    ensures Agrees(Step(s, op)) && SlotsOrderly(Step(s, op), owner, isData)
  {
    match op
    case Get(inum, b) => GetStaysOrderly(s, inum, b, owner, isData);
    case Write(inum, b, p) => WriteStaysOrderly(s, inum, b, p, owner, isData);
    case Fsync(inum) =>
      FsyncWritesExactly(s, inum);
      FsyncKeepsAgreement(s, inum);
    case Sync =>
      SyncedKeepsAgreement(s);
      SyncedIsDurable(s);
      SyncedSlots(s);
  }

  lemma GetStaysOrderly(s: State, inum: nat, b: nat, owner: nat -> nat, isData: nat -> bool)
    requires Inv(s) && Agrees(s) && SlotsOrderly(s, owner, isData) && b < |s.disk| && inum == owner(b)
    ensures Inv(Got(s, inum, b)) && Agrees(Got(s, inum, b)) && SlotsOrderly(Got(s, inum, b), owner, isData)
  {
    hide Inv, Got, Agrees;
    GotKeepsAgreement(s, inum, b);
    GotSlots(s, inum, b);
  }

  lemma WriteStaysOrderly(s: State, inum: nat, b: nat, p: Page, owner: nat -> nat, isData: nat -> bool)
    requires Inv(s) && Agrees(s) && SlotsOrderly(s, owner, isData) && b < |s.disk| && inum == owner(b)
    requires p.DataPage? <==> isData(b)
    ensures Inv(Wrote(s, inum, b, p)) && Agrees(Wrote(s, inum, b, p))
    ensures SlotsOrderly(Wrote(s, inum, b, p), owner, isData)
  {
    hide Inv, Got, Agrees, Stored;
    assert Orderly(s, inum, b, p);
    WroteAgreement(s, inum, b, p);
    if b in s.index {
      StoredStaysOrderly(s, inum, b, p, owner, isData);
    } else {
      GetStaysOrderly(s, inum, b, owner, isData);
      GotKeepsInv(s, inum, b);
      SameBlocks(s, inum, b);
      StoredStaysOrderly(Got(s, inum, b), inum, b, p, owner, isData);
    }
  }

  lemma SameBlocks(s: State, inum: nat, b: nat)
    requires Inv(s) && b < |s.disk|
    ensures Inv(Got(s, inum, b)) && |Got(s, inum, b).disk| == |s.disk|
  {
    GotKeepsInv(s, inum, b);
    assert |View(Got(s, inum, b))| == |View(s)|;
  }

  lemma StoredStaysOrderly(s: State, inum: nat, b: nat, p: Page, owner: nat -> nat, isData: nat -> bool)
    requires Inv(s) && SlotsOrderly(s, owner, isData) && b in s.index && b < |s.disk|
    requires p.DataPage? <==> isData(b)
    ensures Inv(Stored(s, inum, b, p)) && SlotsOrderly(Stored(s, inum, b, p), owner, isData)
  {
    StoredKeeps(s, inum, b, p);
    assert forall c | c in s.index && c != b :: s.index[c] != s.index[b];
  }

  lemma {:induction false} SyncedSlots(s: State)
    requires Inv(s)
    ensures Inv(Synced(s))
    ensures |Synced(s).slots| == |s.slots|
    ensures forall i | 0 <= i < |s.slots| :: Synced(s).slots[i].(dirty := false) == s.slots[i].(dirty := false)
    decreases |s.gdl|
  {
    SyncedIsDurable(s);
    if s.gdl != [] {
      SyncedOneKeeps(s);
      SyncedSlots(SyncedOne(s));
    }
  }

  lemma {:induction false} OrderlyRunsFinish(s: State, ops: seq<Op>, owner: nat -> nat, isData: nat -> bool)
    requires Inv(s) && Agrees(s) && SlotsOrderly(s, owner, isData)
    requires InRange(ops, |s.disk|) && Orderliness(ops, owner, isData)
    ensures Run(s, ops).Done?
    decreases |ops|
  {
    if ops != [] {
      StepStaysOrderly(s, ops[0], owner, isData);
      StepKeeps(s, ops[0]);
      OrderlyRunsFinish(Step(s, ops[0]), ops[1..], owner, isData);
    }
  }

  /** From the empty cache, a run of this kind returns what the build without a cache returns. */
  lemma OrderlyRunsFromEmptyCache(s: State, ops: seq<Op>, owner: nat -> nat, isData: nat -> bool)
    requires Initial(s) && InRange(ops, |s.disk|) && Orderliness(ops, owner, isData)
    ensures Inv(s) && Run(s, ops).Done?
    ensures Run(s, ops).got == RunUncached(s.disk, ops).1
  {
    InitialInv(s);
    OrderlyRunsFinish(s, ops, owner, isData);
    CachedRefinesUncached(s, ops);
  }
}
