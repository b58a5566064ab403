/**
  When a write makes a later cache_fsync leave the slot array: exactly when it breaks the agreement
  between the per-inode lists and the dirty data blocks.
 */
module CacheCrash {
  import opened Blocks
  import opened Sequences
  import opened DirtyMap
  import opened CacheModel
  import opened CacheTheorems
  import opened Recency

  ghost predicate NoWrites(ops: seq<Op>) {
    forall k | 0 <= k < |ops| :: !ops[k].Write?
  }

  // ----- As long as the agreement holds -----

  lemma {:induction false} AgreeingRunsFinish(s: State, ops: seq<Op>)
    requires Inv(s) && Agrees(s) && InRange(ops, |s.disk|) && NoWrites(ops)
    ensures Run(s, ops).Done?
    decreases |ops|
  {
    if ops != [] {
      AgreeingStep(s, ops[0]);
      StepKeeps(s, ops[0]);
      hide Inv, Agrees, Step, CanStep;
      AgreeingRunsFinish(Step(s, ops[0]), ops[1..]);
    }
  }

  lemma AgreeingStep(s: State, op: Op)
    requires Inv(s) && Agrees(s) && !op.Write? && (op.Get? ==> op.block < |s.disk|)
    ensures CanStep(s, op) && Inv(Step(s, op)) && Agrees(Step(s, op))
  {
    match op
    case Get(inum, b) => GotKeepsAgreement(s, inum, b);
    case Fsync(inum) => FsyncKeepsAgreement(s, inum);
    case Sync => SyncedKeepsAgreement(s);
  }

  // ----- A listing that the eviction of its block leaves behind -----

  /** Inode j lists block b, and no eviction of b takes it off that list. */
  ghost predicate Stuck(s: State, j: nat, b: nat)
    requires Inv(s)
  {
    && WellListed(s.lists) && Listed(s.lists, j, b)
    && (b in s.index ==> var e := s.slots[s.index[b]]; !(e.page.DataPage? && e.inum == j))
  }

  lemma UnmarkedStuck(lists: Lists, i: nat, c: nat, j: nat, b: nat)
    requires WellListed(lists) && Listed(lists, j, b) && !(i == j && c == b)
    ensures WellListed(Unmarked(lists, i, c)) && Listed(Unmarked(lists, i, c), j, b)
  {
    UnmarkedLists(lists, i, c);
  }

  lemma GotStuck(s: State, inum: nat, c: nat, j: nat, b: nat)
    requires Inv(s) && c < |s.disk| && c != b && Stuck(s, j, b)
    ensures Inv(Got(s, inum, c)) && Stuck(Got(s, inum, c), j, b)
  {
    GotSlots(s, inum, c);
    if c !in s.index && s.free == [] {
      EvictedKeeps(s);
      var e := s.slots[Last(s.lru)];
      assert Last(s.lru) in s.lru && (e.block == b ==> s.index[b] == Last(s.lru));
      if e.dirty && e.page.DataPage? { UnmarkedStuck(s.lists, e.inum, e.block, j, b); }
    }
  }

  function GetsOf(blocks: seq<nat>): (ops: seq<Op>)
    ensures |ops| == |blocks| && forall k | 0 <= k < |ops| :: ops[k] == Get(0, blocks[k])
  {
    seq(|blocks|, k requires 0 <= k < |blocks| => Get(0, blocks[k]))
  }

  lemma {:induction false} GetsStuck(s: State, blocks: seq<nat>, j: nat, b: nat)
    requires Inv(s) && Stuck(s, j, b) && forall c | c in blocks :: c < |s.disk| && c != b
    ensures InRange(GetsOf(blocks), |s.disk|) && Accesses(s, GetsOf(blocks)) == blocks
    ensures var r := Run(s, GetsOf(blocks)); r.Done? && Inv(r.state) && Stuck(r.state, j, b)
    decreases |blocks|
  {
    hide *;
    if blocks == [] {
      NoGets(s);
    } else {
      assert blocks[0] in blocks && forall c | c in blocks[1..] :: c in blocks;
      GotStuck(s, 0, blocks[0], j, b);
      GotSizes(s, 0, blocks[0]);
      GetsStuck(Got(s, 0, blocks[0]), blocks[1..], j, b);
      FirstGet(s, blocks);
    }
  }

  lemma NoGets(s: State)
    requires Inv(s)
    ensures InRange(GetsOf([]), |s.disk|) && Accesses(s, GetsOf([])) == [] && Run(s, GetsOf([])) == Done(s, [])
  {
  }

  lemma GotSizes(s: State, inum: nat, b: nat)
    requires Inv(s) && b < |s.disk|
    ensures Inv(Got(s, inum, b)) && |Got(s, inum, b).disk| == |s.disk|
  {
    StepKeeps(s, Get(inum, b));
  }

  lemma FirstGet(s: State, blocks: seq<nat>)
    requires Inv(s) && blocks != [] && blocks[0] < |s.disk|
    requires Inv(Got(s, 0, blocks[0])) && |Got(s, 0, blocks[0]).disk| == |s.disk|
    requires InRange(GetsOf(blocks[1..]), |s.disk|) && Run(Got(s, 0, blocks[0]), GetsOf(blocks[1..])).Done?
    ensures InRange(GetsOf(blocks), |s.disk|)
    ensures Accesses(s, GetsOf(blocks)) == [blocks[0]] + Accesses(Got(s, 0, blocks[0]), GetsOf(blocks[1..]))
    ensures Run(s, GetsOf(blocks)).Done?
    ensures Run(s, GetsOf(blocks)).state == Run(Got(s, 0, blocks[0]), GetsOf(blocks[1..])).state
  {
    hide Inv, Got, FsyncSafe;
    var ops := GetsOf(blocks);
    assert ops[1..] == GetsOf(blocks[1..]);
    assert CanStep(s, ops[0]) && Step(s, ops[0]) == Got(s, 0, blocks[0]);
    GotKeepsInv(s, 0, blocks[0]);
  }

  lemma {:induction false} CrashLater(s: State, ops: seq<Op>, op: Op)
    requires Inv(s) && InRange(ops, |s.disk|) && !(op.Get? || op.Write?)
    requires Run(s, ops).Done? && !CanStep(Run(s, ops).state, op)
    ensures InRange(ops + [op], |s.disk|) && Run(s, ops + [op]) == Crashed
    decreases |ops|
  {
    var all := ops + [op];
    if ops != [] {
      StepKeeps(s, ops[0]);
      hide Inv, Step, CanStep;
      CrashLater(Step(s, ops[0]), ops[1..], op);
      assert all[0] == ops[0] && all[1..] == ops[1..] + [op];
    }
  }

  // ----- Displacing a block -----

  function Backwards(s: seq<nat>): (r: seq<nat>)
    ensures |r| == |s|
  {
    if s == [] then [] else Backwards(s[1..]) + [s[0]]
  }

  lemma {:induction false} MostRecentBackwards(s: seq<nat>)
    requires NoDup(s)
    ensures MostRecent(Backwards(s)) == s
    decreases |s|
  {
    if s != [] {
      MostRecentBackwards(s[1..]);
      assert Front(Backwards(s)) == Backwards(s[1..]) && Last(Backwards(s)) == s[0];
      assert s[0] !in s[1..];
      assert Remove(s[1..], s[0]) == s[1..];
    }
  }

  /** Every state is one that its resident blocks, accessed from the tail of the ring on, lead to. */
  lemma OwnHistory(s: State)
    requires Inv(s)
    ensures RingHolds(s, Backwards(Resident(s)), |s.slots|)
  {
    ResidentIsIndexed(s);
    MostRecentBackwards(Resident(s));
  }

  /** The blocks from 0 on, without b. */
  function Others(b: nat, n: nat): (r: seq<nat>)
    ensures |r| == n && forall k | 0 <= k < n :: r[k] == if k < b then k else k + 1
  {
    seq(n, k requires 0 <= k < n => if k < b then k else k + 1)
  }

  lemma OthersDiffer(b: nat, n: nat)
    ensures NoDup(Others(b, n)) && b !in Others(b, n) && forall c | c in Others(b, n) :: c <= n
  {
  }

  lemma {:induction false} LastSplit(s: seq<nat>, b: nat) returns (g: seq<nat>, h: seq<nat>)
    requires b in s
    ensures s == g + [b] + h && b !in h
  {
    if Last(s) == b {
      g, h := Front(s), [];
    } else {
      var f := Front(s);
      assert s == f + [Last(s)];
      g, h := LastSplit(f, b);
      h := h + [Last(s)];
    }
  }

  lemma MoreElements(h: seq<nat>, t: seq<nat>)
    requires NoDup(t)
    ensures |Elements(h + t)| >= |t|
  {
    NoDupSize(t);
    assert Elements(t) <= Elements(h + t);
    SizeUp(Elements(t), Elements(h + t));
  }

  lemma SizeUp(a: set<nat>, b: set<nat>)
    requires a <= b
    ensures |a| <= |b|
  {
    assert b == a + (b - a);
  }

  /** As many gets of other blocks as there are slots displace a block. */
  lemma Displaced(s: State, b: nat)
    requires Inv(s) && b in s.index && |s.slots| < |s.disk|
    requires var ops := GetsOf(Others(b, |s.slots|));
      InRange(ops, |s.disk|) && Accesses(s, ops) == Others(b, |s.slots|) && Run(s, ops).Done?
    ensures b !in Run(s, GetsOf(Others(b, |s.slots|))).state.index
  {
    hide *;
    var n := |s.slots|;
    var t := Others(b, n);
    var ops := GetsOf(t);
    OthersDiffer(b, n);
    OwnHistory(s);
    RingIsMostRecent(s, ops, Backwards(Resident(s)), n);
    ResidentIsIndexed(s);
    BackwardsMembers(Resident(s));
    var g, h := LastSplit(Backwards(Resident(s)), b);
    assert Backwards(Resident(s)) + t == g + [b] + (h + t);
    MoreElements(h, t);
    ResidentUntilDisplaced(Run(s, ops).state, g, b, h + t, n);
  }

  lemma {:induction false} BackwardsMembers(s: seq<nat>)
    ensures forall x | x in s :: x in Backwards(s)
    decreases |s|
  {
    if s != [] {
      BackwardsMembers(s[1..]);
      assert forall x | x in s :: x == s[0] || x in s[1..];
    }
  }

  // ----- The exact condition -----

  /** A disorderly write leaves a listing behind that the eviction of its block does not remove. */
  lemma DisorderSticks(s: State, i: nat, b: nat, p: Page) returns (j: nat)
    requires Inv(s) && Agrees(s) && b < |s.disk| && !Orderly(s, i, b, p)
    ensures Inv(Wrote(s, i, b, p)) && Stuck(Wrote(s, i, b, p), j, b) && b in Wrote(s, i, b, p).index
  {
    WroteKeeps(s, i, b, p);
    var e, t := s.slots[s.index[b]], Wrote(s, i, b, p);
    if p.DataPage? {
      MarkedLists(s.lists, i, b);
      j := i;
    } else {
      assert Listed(s.lists, e.inum, b) <==> Owed(s, e.inum, b);
      j := e.inum;
    }
  }

  /** The run after a disorderly write that ends in a crash: displace the block, then fsync. */
  lemma DisorderCrashes(s: State, i: nat, b: nat, p: Page) returns (ops: seq<Op>)
    requires Inv(s) && Agrees(s) && |s.slots| < |s.disk| && b < |s.disk| && !Orderly(s, i, b, p)
    ensures Inv(Wrote(s, i, b, p)) && |Wrote(s, i, b, p).disk| == |s.disk|
    ensures NoWrites(ops) && InRange(ops, |s.disk|) && Run(Wrote(s, i, b, p), ops) == Crashed
  {
    hide *;
    var t := Wrote(s, i, b, p);
    var j := DisorderSticks(s, i, b, p);
    WroteSizes(s, i, b, p);
    var blocks := Others(b, |t.slots|);
    OthersDiffer(b, |t.slots|);
    GetsStuck(t, blocks, j, b);
    Displaced(t, b);
    StuckIsUnsafe(Run(t, GetsOf(blocks)).state, j, b);
    CrashLater(t, GetsOf(blocks), Fsync(j));
    ops := GetsOf(blocks) + [Fsync(j)];
    OnlyReads(blocks, j);
  }

  lemma OnlyReads(blocks: seq<nat>, j: nat)
    ensures NoWrites(GetsOf(blocks) + [Fsync(j)])
  {
  }

  lemma WroteSizes(s: State, i: nat, b: nat, p: Page)
    requires Inv(s) && b < |s.disk|
    ensures Inv(Wrote(s, i, b, p)) && |Wrote(s, i, b, p).disk| == |s.disk| && |Wrote(s, i, b, p).slots| == |s.slots|
  {
    StepKeeps(s, Write(i, b, p));
    StepSlots(s, Write(i, b, p));
  }

  lemma StuckIsUnsafe(s: State, j: nat, b: nat)
    requires Inv(s) && Stuck(s, j, b) && b !in s.index
    ensures !CanStep(s, Fsync(j))
  {
  }

  /**
    On a disk of more blocks than slots: all runs of gets, syncs and fsyncs that follow a write stay
    inside the slot array, if and only if the write is orderly. directory.c:80 and 85 write directory
    blocks under inode 0, which is not the inode they were loaded for.
   */
  lemma SafeExactlyIfOrderly(s: State, i: nat, b: nat, p: Page)
    requires Inv(s) && Agrees(s) && |s.slots| < |s.disk| && b < |s.disk|
    ensures Inv(Wrote(s, i, b, p)) && |Wrote(s, i, b, p).disk| == |s.disk|
    ensures Orderly(s, i, b, p) <==>
      forall ops | NoWrites(ops) && InRange(ops, |s.disk|) :: Run(Wrote(s, i, b, p), ops).Done?
  {
    hide *;
    WroteSizes(s, i, b, p);
    var t := Wrote(s, i, b, p);
    if Orderly(s, i, b, p) {
      WroteAgreement(s, i, b, p);
      forall ops | NoWrites(ops) && InRange(ops, |s.disk|)
        ensures Run(t, ops).Done?
      {
        AgreeingRunsFinish(t, ops);
      }
    } else {
      var ops := DisorderCrashes(s, i, b, p);
      assert !Run(t, ops).Done?;
    }
  }
}
