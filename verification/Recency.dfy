/**
  The LRU guarantee. An access is a call of get_block, also the one that write_block makes for a
  block that is not resident; a write to a resident block is none (cache.c:91-97).
 */
module Recency {
  import opened Sequences
  import opened CacheModel
  import opened CacheTheorems

  /** The resident blocks in the order of the LRU ring, head first. */
  ghost function Resident(s: State): (r: seq<nat>)
    requires Inv(s)
    ensures |r| == |s.lru| && forall k | 0 <= k < |r| :: s.lru[k] < |s.slots| && r[k] == s.slots[s.lru[k]].block
  {
    assert forall k | 0 <= k < |s.lru| :: s.lru[k] in s.lru;
    seq(|s.lru|, k requires 0 <= k < |s.lru| => s.slots[s.lru[k]].block)
  }

  function Prefix<T>(s: seq<T>, n: nat): seq<T> {
    if |s| <= n then s else s[..n]
  }

  /** The distinct blocks of a history of accesses, the most recent first. */
  ghost function MostRecent(history: seq<nat>): seq<nat> {
    if history == [] then [] else [Last(history)] + Remove(MostRecent(Front(history)), Last(history))
  }

  lemma ResidentIsIndexed(s: State)
    requires Inv(s)
    ensures NoDup(Resident(s)) && forall b :: b in Resident(s) <==> b in s.index
  {
    forall b | b in s.index
      ensures b in Resident(s)
    {
      var k :| 0 <= k < |s.lru| && s.lru[k] == s.index[b];
      assert Resident(s)[k] == b;
    }
    forall j, k | 0 <= j < k < |s.lru|
      ensures Resident(s)[j] != Resident(s)[k]
    {
      assert s.lru[j] in s.lru && s.lru[k] in s.lru;
    }
  }

  lemma RemoveAtPosition<T>(s: seq<T>, k: nat)
    requires NoDup(s) && k < |s|
    ensures Remove(s, s[k]) == RemoveAt(s, k)
  {
    RemoveIsRemoveAt(s, s[k]);
    assert IndexOf(s, s[k]) == k;
  }

  lemma ResidentFacts(s: State, b: nat)
    requires Inv(s) && b in s.index
    ensures NoDup(s.lru) && NoDup(Resident(s))
    ensures s.index[b] in s.lru && s.index[b] < |s.slots| && s.slots[s.index[b]].block == b
  {
    ResidentIsIndexed(s);
  }

  lemma TouchedResident(s: State, b: nat)
    requires Inv(s) && b in s.index
    ensures Inv(Touched(s, b))
    ensures Resident(Touched(s, b)) == [b] + Remove(Resident(s), b)
  {
    hide Inv, Resident, NoDup, Remove;
    TouchedKeeps(s, b);
    ResidentFacts(s, b);
    var k := IndexOf(s.lru, s.index[b]);
    var r, t := Resident(s), Touched(s, b);
    RemoveAtPosition(s.lru, k);
    RemoveAtPosition(r, k);
    forall j | 0 < j < |t.lru|
      ensures Resident(t)[j] == RemoveAt(r, k)[j - 1]
    {
      assert t.lru[j] == s.lru[if j - 1 < k then j - 1 else j];
    }
  }

  /** The slots that stay on the ring, and how a miss leaves them. */
  ghost predicate RingKeeps(s: State, t: State, kept: seq<nat>, b: nat) {
    && |t.slots| == |s.slots|
    && |t.lru| == 1 + |kept| && t.lru[0] < |t.slots| && t.slots[t.lru[0]].block == b
    && forall k | 0 <= k < |kept| ::
         kept[k] < |s.slots| && t.lru[k + 1] == kept[k] && t.slots[kept[k]] == s.slots[kept[k]]
  }

  lemma FreeMissRing(s: State, inum: nat, b: nat)
    requires Inv(s) && b < |s.disk| && b !in s.index && s.free != []
    ensures RingKeeps(s, Got(s, inum, b), s.lru, b)
  {
    assert s.free[0] in s.free;
    assert forall k | 0 <= k < |s.lru| :: s.lru[k] in s.lru;
  }

  lemma EvictingMissRing(s: State, inum: nat, b: nat)
    requires Inv(s) && b < |s.disk| && b !in s.index && s.free == []
    ensures s.lru != [] && RingKeeps(s, Got(s, inum, b), Front(s.lru), b)
  {
    hide *;
    EvictedStructure(s);
    RingSlots(s);
    EvictingMissFields(s, inum, b);
    RingKeepsNow(s, Got(s, inum, b), b);
  }

  lemma EvictingMissFields(s: State, inum: nat, b: nat)
    requires Inv(s) && b < |s.disk| && b !in s.index && s.free == [] && s.lru != []
    ensures Last(s.lru) < |s.slots| && |Got(s, inum, b).slots| == |s.slots|
    ensures var t, v := Got(s, inum, b), Last(s.lru);
      t.lru == [v] + Front(s.lru) && t.slots == s.slots[v := t.slots[v]] && t.slots[v].block == b
  {
    hide Inv, SlotsPartitioned, Indexed, Coherent, NoDup;
    OldestSlot(s);
    EvictedStructure(s);
  }

  /** The slots in front of the tail are slots, and others than the tail. */
  ghost predicate TailApart(s: State) {
    s.lru != [] && forall k | 0 <= k < |s.lru| - 1 :: s.lru[k] < |s.slots| && s.lru[k] != s.lru[|s.lru| - 1]
  }

  lemma RingKeepsNow(s: State, t: State, b: nat)
    requires TailApart(s) && Last(s.lru) < |s.slots| && |t.slots| == |s.slots|
    requires t.lru == [Last(s.lru)] + Front(s.lru)
    requires t.slots == s.slots[Last(s.lru) := t.slots[Last(s.lru)]] && t.slots[Last(s.lru)].block == b
    ensures RingKeeps(s, t, Front(s.lru), b)
  {
    var kept := Front(s.lru);
    forall k | 0 <= k < |kept|
      ensures kept[k] < |s.slots| && t.lru[k + 1] == kept[k] && t.slots[kept[k]] == s.slots[kept[k]]
    {
      assert kept[k] == s.lru[k];
    }
  }

  lemma RingSlots(s: State)
    requires Inv(s) && s.lru != []
    ensures TailApart(s)
  {
    RingSlotsOf(s);
  }

  lemma RingSlotsOf(s: State)
    requires SlotsPartitioned(s) && s.lru != []
    ensures TailApart(s)
  {
    forall k | 0 <= k < |s.lru| - 1
      ensures s.lru[k] < |s.slots| && s.lru[k] != s.lru[|s.lru| - 1]
    {
      assert s.lru[k] in s.lru;
    }
  }

  lemma MissResident(s: State, inum: nat, b: nat)
    requires Inv(s) && b < |s.disk| && b !in s.index
    ensures Inv(Got(s, inum, b)) && (s.free == [] ==> s.lru != [])
    ensures Resident(Got(s, inum, b)) == [b] + if s.free == [] then Front(Resident(s)) else Resident(s)
  {
    hide Inv, Got, Resident;
    GotKeepsInv(s, inum, b);
    if s.free == [] { EvictingMissRing(s, inum, b); } else { FreeMissRing(s, inum, b); }
  }

  lemma RingSize(s: State, b: nat)
    requires Inv(s)
    ensures |Resident(s)| + |s.free| == |s.slots| > 0
    ensures |Remove(Resident(s), b)| == if b in s.index then |Resident(s)| - 1 else |Resident(s)|
    ensures b !in s.index ==> Remove(Resident(s), b) == Resident(s)
  {
    ResidentIsIndexed(s);
    if b in s.index { RemoveIsRemoveAt(Resident(s), b); }
  }

  lemma GotResidentCases(s: State, inum: nat, b: nat)
    requires Inv(s) && b < |s.disk|
    ensures Inv(Got(s, inum, b))
    ensures b !in s.index && s.free == [] ==> Resident(s) != []
    ensures Resident(Got(s, inum, b)) == [b] +
      if b in s.index then Remove(Resident(s), b) else if s.free == [] then Front(Resident(s)) else Resident(s)
  {
    GotKeepsInv(s, inum, b);
    if b in s.index { TouchedResident(s, b); } else { MissResident(s, inum, b); }
  }

  lemma GotResident(s: State, inum: nat, b: nat)
    requires Inv(s) && b < |s.disk|
    ensures Inv(Got(s, inum, b))
    ensures Resident(Got(s, inum, b)) == Prefix([b] + Remove(Resident(s), b), |s.slots|)
  {
    hide Inv, Got, Resident, Remove;
    GotResidentCases(s, inum, b);
    RingSize(s, b);
    var r := Resident(s);
    if b !in s.index && s.free == [] {
      assert ([b] + r)[..|r|] == [b] + Front(r);
    }
  }

  /** Truncating before a move to the front loses nothing that truncating after it keeps. */
  lemma {:induction false} RemoveFromPrefix(s: seq<nat>, x: nat, n: nat)
    requires n > 0
    ensures Prefix(Remove(Prefix(s, n), x), n - 1) == Prefix(Remove(s, x), n - 1)
    decreases |s|
  {
    if s == [] {
    } else if s[0] == x {
      assert Prefix(s, n)[1..] == Prefix(s[1..], n - 1);
    } else if n == 1 {
      assert |Remove(s, x)| >= 0;
    } else {
      RemoveFromPrefix(s[1..], x, n - 1);
      assert Prefix(s, n)[0] == s[0] && Prefix(s, n)[1..] == Prefix(s[1..], n - 1);
      PrefixCons(s[0], Remove(Prefix(s[1..], n - 1), x), n - 1);
      PrefixCons(s[0], Remove(s[1..], x), n - 1);
    }
  }

  lemma PrefixCons(x: nat, s: seq<nat>, n: nat)
    requires n > 0
    ensures Prefix([x] + s, n) == [x] + Prefix(s, n - 1)
  {
  }

  /** The accesses that a run makes from a state. */
  ghost function Accesses(s: State, ops: seq<Op>): seq<nat>
    requires Inv(s) && InRange(ops, |s.disk|)
    decreases |ops|
  {
    if ops == [] || !CanStep(s, ops[0]) then []
    else
      StepKeeps(s, ops[0]);
      var rest := Accesses(Step(s, ops[0]), ops[1..]);
      if IsAccess(s, ops[0]) then [ops[0].block] + rest else rest
  }

  ghost predicate IsAccess(s: State, op: Op) {
    op.Get? || (op.Write? && op.block !in s.index)
  }

  /** The ring of n slots holds the n most recently accessed blocks of a history, in order. */
  ghost predicate RingHolds(s: State, history: seq<nat>, n: nat) {
    Inv(s) && |s.slots| == n && Resident(s) == Prefix(MostRecent(history), n)
  }

  lemma GotIsMostRecent(s: State, inum: nat, b: nat, history: seq<nat>, n: nat)
    requires RingHolds(s, history, n) && b < |s.disk|
    ensures Inv(Got(s, inum, b)) && RingHolds(Got(s, inum, b), history + [b], n)
  {
    GotKeepsInv(s, inum, b);
    GotResident(s, inum, b);
    assert Front(history + [b]) == history;
    RemoveFromPrefix(MostRecent(history), b, n);
    PrefixCons(b, Remove(MostRecent(history), b), n);
    PrefixCons(b, Remove(Resident(s), b), n);
  }

  lemma StepResident(s: State, op: Op, history: seq<nat>, n: nat)
    requires RingHolds(s, history, n) && CanStep(s, op)
    ensures RingHolds(Step(s, op), if IsAccess(s, op) then history + [op.block] else history, n)
  {
    StepKeeps(s, op);
    StepSlots(s, op);
    match op
    case Get(inum, b) => GotIsMostRecent(s, inum, b, history, n);
    case Write(inum, b, p) =>
      if b !in s.index {
        GotIsMostRecent(s, inum, b, history, n);
        SameResident(Got(s, inum, b), Step(s, op));
      } else {
        SameResident(s, Step(s, op));
      }
    case Fsync(inum) =>
      FsyncedKeeps(s, inum);
      SameResident(s, Step(s, op));
    case Sync =>
      SyncedIsDurable(s);
      SameResident(s, Step(s, op));
  }

  lemma StepSlots(s: State, op: Op)
    requires Inv(s) && CanStep(s, op)
    ensures |Step(s, op).slots| == |s.slots|
  {
    if op.Write? { GotKeepsInv(s, op.inum, op.block); }
    if op.Fsync? && op.inum in s.lists { FsyncedAllSlots(s, s.lists[op.inum]); }
    if op.Sync? { SyncedSlots(s); }
    if op.Get? { GotKeepsInv(s, op.inum, op.block); }
  }

  lemma {:induction false} FsyncedAllSlots(s: State, blocks: seq<nat>)
    requires Inv(s) && forall b | b in blocks :: b in s.index
    ensures |FsyncedAll(s, blocks).slots| == |s.slots|
    decreases |blocks|
  {
    if blocks != [] {
      FsyncedOneKeeps(s, blocks[0]);
      FsyncedAllSlots(FsyncedOne(s, blocks[0]), blocks[1..]);
    }
  }

  lemma SameResident(s: State, t: State)
    requires Inv(s) && Inv(t) && s.lru == t.lru && s.index == t.index
    ensures Resident(s) == Resident(t)
  {
    forall k | 0 <= k < |s.lru|
      ensures Resident(s)[k] == Resident(t)[k]
    {
      assert s.lru[k] in s.lru && t.lru[k] in t.lru;
    }
  }

  /** At the end of any run the ring holds the cache_size most recently accessed blocks, in order. */
  lemma {:induction false} RingIsMostRecent(s: State, ops: seq<Op>, history: seq<nat>, n: nat)
    requires RingHolds(s, history, n) && InRange(ops, |s.disk|)
    ensures Run(s, ops).Done? ==> RingHolds(Run(s, ops).state, history + Accesses(s, ops), n)
    decreases |ops|
  {
    hide Inv, Step, CanStep, View, Resident, Prefix, MostRecent;
    if ops == [] {
      assert history + Accesses(s, ops) == history;
    } else if CanStep(s, ops[0]) {
      var t := Step(s, ops[0]);
      StepKeeps(s, ops[0]);
      StepResident(s, ops[0], history, n);
      var now := if IsAccess(s, ops[0]) then history + [ops[0].block] else history;
      RingIsMostRecent(t, ops[1..], now, n);
      assert history + Accesses(s, ops) == now + Accesses(t, ops[1..]);
    }
  }

  // ----- How long a block stays -----

  ghost function Without(s: seq<nat>, xs: seq<nat>): seq<nat>
    decreases |s|
  {
    if s == [] then []
    else if s[0] in xs then Without(s[1..], xs)
    else [s[0]] + Without(s[1..], xs)
  }

  lemma {:induction false} MostRecentMembers(h: seq<nat>)
    ensures NoDup(MostRecent(h)) && forall x :: x in MostRecent(h) <==> x in h
    decreases |h|
  {
    if h != [] {
      MostRecentMembers(Front(h));
      RemoveMembers(MostRecent(Front(h)), Last(h));
      RemoveNoDup(MostRecent(Front(h)), Last(h));
      assert h == Front(h) + [Last(h)];
    }
  }

  /** Later accesses come first, and hide the earlier ones of the same blocks. */
  lemma {:induction false} MostRecentSplits(g: seq<nat>, h: seq<nat>)
    ensures MostRecent(g + h) == MostRecent(h) + Without(MostRecent(g), h)
    decreases |h|
  {
    if h == [] {
      assert g + h == g;
      WithoutNone(MostRecent(g));
    } else {
      var x, f := Last(h), Front(h);
      assert Front(g + h) == g + f && h == f + [x];
      MostRecentSplits(g, f);
      MostRecentMembers(g);
      MostRecentMembers(f);
      WithoutOneMore(MostRecent(g), f, x);
      WithoutMembers(MostRecent(g), f);
      AddAccess(MostRecent(f), Without(MostRecent(g), f), x);
    }
  }

  lemma AddAccess(late: seq<nat>, rest: seq<nat>, x: nat)
    requires x in late ==> x !in rest
    ensures [x] + Remove(late + rest, x) == ([x] + Remove(late, x)) + Remove(rest, x)
  {
    if x in late { RemoveFromLeft(late, rest, x); } else { RemoveFromRight(late, rest, x); }
  }

  lemma {:induction false} WithoutNone(s: seq<nat>)
    ensures Without(s, []) == s
  {
    if s != [] { WithoutNone(s[1..]); }
  }

  lemma {:induction false} WithoutMembers(s: seq<nat>, xs: seq<nat>)
    ensures forall y :: y in Without(s, xs) <==> y in s && y !in xs
    decreases |s|
  {
    if s != [] {
      WithoutMembers(s[1..], xs);
      assert s == [s[0]] + s[1..];
    }
  }

  lemma {:induction false} WithoutOneMore(s: seq<nat>, xs: seq<nat>, x: nat)
    requires NoDup(s)
    ensures Without(s, xs + [x]) == Remove(Without(s, xs), x)
    decreases |s|
  {
    if s != [] {
      WithoutOneMore(s[1..], xs, x);
      WithoutMembers(s[1..], xs);
      var rest := Without(s[1..], xs);
      assert ([s[0]] + rest)[1..] == rest;
      if s[0] == x {
        assert x !in s[1..];
        assert Remove(rest, x) == rest;
      }
    }
  }

  lemma {:induction false} RemoveFromLeft(s: seq<nat>, t: seq<nat>, x: nat)
    requires x in s
    ensures Remove(s + t, x) == Remove(s, x) + t
  {
    assert (s + t)[1..] == s[1..] + t;
    if s[0] != x {
      RemoveFromLeft(s[1..], t, x);
      assert Remove(s, x) == [s[0]] + Remove(s[1..], x);
    }
  }

  lemma {:induction false} RemoveFromRight(s: seq<nat>, t: seq<nat>, x: nat)
    requires x !in s
    ensures Remove(s + t, x) == s + Remove(t, x)
  {
    if s == [] {
      assert s + t == t;
    } else {
      assert (s + t)[1..] == s[1..] + t;
      RemoveFromRight(s[1..], t, x);
      assert s == [s[0]] + s[1..];
    }
  }

  /**
    A block last accessed before the history h stays resident exactly as long as fewer than
    cache_size distinct other blocks have been accessed since.
   */
  lemma ResidentUntilDisplaced(s: State, g: seq<nat>, b: nat, h: seq<nat>, n: nat)
    requires RingHolds(s, g + [b] + h, n)
    requires b !in h
    ensures b in s.index <==> |Elements(h)| < n
  {
    var r := MostRecent(h);
    MostRecentMembers(h);
    MostRecentSplits(g + [b], h);
    assert Front(g + [b]) == g;
    assert MostRecent(g + [b])[0] == b;
    var all := MostRecent(g + [b] + h);
    assert all[..|r|] == r && all[|r|] == b;
    MostRecentMembers(g + [b] + h);
    NoDupSize(r);
    assert Elements(h) == Elements(r);
    ResidentIsIndexed(s);
    assert b in Resident(s) <==> |r| < n;
  }

  ghost function Elements(s: seq<nat>): set<nat> {
    set x | x in s
  }

  lemma {:induction false} NoDupSize(s: seq<nat>)
    requires NoDup(s)
    ensures |Elements(s)| == |s|
    decreases |s|
  {
    if s == [] {
      assert Elements(s) == {};
    } else {
      NoDupSize(s[1..]);
      var rest := Elements(s[1..]);
      assert s[0] !in rest;
      assert s == [s[0]] + s[1..];
      assert Elements(s) == rest + {s[0]};
    }
  }

  /** The block that a miss evicts is the one whose last access is the oldest. */
  lemma EvictsLeastRecent(s: State, history: seq<nat>, n: nat)
    requires RingHolds(s, history, n) && s.free == []
    ensures n > 0 && |s.lru| == n && s.lru[n - 1] < n && |MostRecent(history)| >= n
    ensures s.slots[Last(s.lru)].block == MostRecent(history)[n - 1]
  {
    assert Last(s.lru) in s.lru;
    assert Resident(s)[n - 1] == s.slots[Last(s.lru)].block;
  }

  /** The empty cache has no history. */
  lemma InitialRing(s: State)
    requires Initial(s)
    ensures RingHolds(s, [], |s.slots|)
  {
    InitialInv(s);
  }

  /** The guarantee for any run from the empty cache, in terms of the accesses that the run has made. */
  lemma RunsFromEmptyCache(s: State, ops: seq<Op>)
    requires Initial(s) && InRange(ops, |s.disk|)
    ensures Inv(s) && (Run(s, ops).Done? ==> RingHolds(Run(s, ops).state, Accesses(s, ops), |s.slots|))
  {
    InitialRing(s);
    RingIsMostRecent(s, ops, [], |s.slots|);
    assert [] + Accesses(s, ops) == Accesses(s, ops);
  }

  /**
    After such a run a block is resident exactly if fewer than cache_size other blocks were accessed since
    its last access.
   */
  lemma ResidentAfterRun(s: State, ops: seq<Op>, g: seq<nat>, b: nat, h: seq<nat>)
    requires Initial(s) && InRange(ops, |s.disk|)
    ensures Inv(s)
    ensures Run(s, ops).Done? && Accesses(s, ops) == g + [b] + h && b !in h ==>
      (b in Run(s, ops).state.index <==> |Elements(h)| < |s.slots|)
  {
    RunsFromEmptyCache(s, ops);
    var r := Run(s, ops);
    if r.Done? && Accesses(s, ops) == g + [b] + h && b !in h {
      ResidentUntilDisplaced(r.state, g, b, h, |s.slots|);
    }
  }
}
