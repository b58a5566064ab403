/**
  A tree is a finite map: one of a single inner node over any run of insertions, searches and deletions,
  one of any height over any run of insertions and searches whose keys it takes.
 */
module BTreeMap {
  import opened Sequences
  import opened BTreeModel
  import opened BTreeInsertion
  import opened BTreeLanding
  import opened BTreeLeaves
  import opened BTree

  datatype Binding = Binding(value: nat, ftype: nat)

  datatype Op = Put(key: nat, value: nat, ftype: nat) | Get(key: nat) | Drop(key: nat)

  datatype Reply = Done | Missing | Found(binding: Binding)

  function After(m: map<nat, Binding>, op: Op): map<nat, Binding> {
    match op
    case Put(k, v, t) => m[k := Binding(v, t)]
    case Get(_) => m
    case Drop(k) => m - {k}
  }

  function Answer(m: map<nat, Binding>, op: Op): Reply {
    match op
    case Put(_, _, _) => Done
    case Get(k) => if k in m then Found(m[k]) else Missing
    case Drop(k) => if k in m then Done else Missing
  }

  /** Keys are not 0, a key is put only when it is absent, and there are always fewer than max. */
  ghost predicate Legal(m: map<nat, Binding>, op: Op, max: nat) {
    && op.key != 0
    && (op.Put? ==> op.key !in m && |m| + 1 < max)
  }

  ghost predicate LegalRun(m: map<nat, Binding>, ops: seq<Op>, max: nat)
    decreases ops
  {
    ops == [] || (Legal(m, ops[0], max) && LegalRun(After(m, ops[0]), ops[1..], max))
  }

  function AfterAll(m: map<nat, Binding>, ops: seq<Op>): map<nat, Binding>
    decreases ops
  {
    if ops == [] then m else AfterAll(After(m, ops[0]), ops[1..])
  }

  function Answers(m: map<nat, Binding>, ops: seq<Op>): seq<Reply>
    decreases ops
  {
    if ops == [] then [] else [Answer(m, ops[0])] + Answers(After(m, ops[0]), ops[1..])
  }

  /** The leaves of a row are the bindings of m, one leaf each. */
  ghost predicate Represents(st: Store, row: seq<nat>, m: map<nat, Binding>) {
    Bound(st, row, m) && Covers(st, row, m) && |m| == |row|
  }

  ghost predicate Bound(st: Store, row: seq<nat>, m: map<nat, Binding>) {
    forall c | c in row :: c in st && st[c].key in m && m[st[c].key] == Binding(st[c].value, st[c].ftype)
  }

  ghost predicate Covers(st: Store, row: seq<nat>, m: map<nat, Binding>) {
    forall k | k in m :: exists c :: c in row && c in st && st[c].key == k
  }

  lemma LeafData(st: Store, st': Store, row: seq<nat>)
    requires LeavesKept(st, st', row)
    ensures forall c | c in row ::
      && c in st && c in st'
      && st'[c].key == st[c].key && st'[c].value == st[c].value && st'[c].ftype == st[c].ftype
  {
  }

  lemma RepresentsPut(st: Store, st': Store, row: seq<nat>, row': seq<nat>, m: map<nat, Binding>, leaf: nat)
    requires Represents(st, row, m) && LeavesKept(st, st', row) && leaf in st' && st'[leaf].key !in m
    requires multiset(row') == multiset(row) + multiset{leaf}
    ensures Represents(st', row', m[st'[leaf].key := Binding(st'[leaf].value, st'[leaf].ftype)])
  {
    var n := st'[leaf];
    var m' := m[n.key := Binding(n.value, n.ftype)];
    LeafData(st, st', row);
    SameMembers(row, row', leaf);
    Larger(m, n.key, Binding(n.value, n.ftype));
    hide LeavesKept;
    assert Bound(st', row', m');
    forall k | k in m'
      ensures exists c :: c in row' && c in st' && st'[c].key == k
    {
      if k == n.key {
        assert leaf in row';
      } else {
        var c :| c in row && c in st && st[c].key == k;
        assert c in row' && st'[c].key == k;
      }
    }
  }

  lemma SameMembers(row: seq<nat>, row': seq<nat>, x: nat)
    requires multiset(row') == multiset(row) + multiset{x}
    ensures |row'| == |row| + 1 && forall c :: c in row' <==> c == x || c in row
  {
    assert |multiset(row')| == |multiset(row)| + 1;
    forall c
      ensures c in row' <==> c == x || c in row
    {
      assert c in row' <==> c in multiset(row');
      assert c in row <==> c in multiset(row);
    }
  }

  lemma Larger(m: map<nat, Binding>, k: nat, b: Binding)
    requires k !in m
    ensures |m[k := b]| == |m| + 1
  {
    assert m[k := b].Keys == m.Keys + {k};
    assert |m[k := b].Keys| == |m[k := b]| && |m.Keys| == |m|;
  }

  lemma Smaller(m: map<nat, Binding>, k: nat)
    requires k in m
    ensures |m - {k}| == |m| - 1
  {
    assert m.Keys == (m - {k}).Keys + {k};
    assert |(m - {k}).Keys| == |m - {k}| && |m.Keys| == |m|;
  }

  lemma RepresentsDrop(st: Store, st': Store, row: seq<nat>, m: map<nat, Binding>, leaf: nat)
    requires Represents(st, row, m) && LeavesKept(st, st', Remove(row, leaf)) && leaf in row && leaf in st && NoDup(row)
    requires forall c | c in row && c in st && c != leaf :: st[c].key != st[leaf].key
    ensures Represents(st', Remove(row, leaf), m - {st[leaf].key})
  {
    var row', key := Remove(row, leaf), st[leaf].key;
    LeafData(st, st', row');
    RemoveMembers(row, leaf);
    RemoveNoDup(row, leaf);
    RemoveIsRemoveAt(row, leaf);
    Smaller(m, key);
    hide Remove, NoDup, LeavesKept;
    assert Bound(st', row', m - {key});
    forall k | k in m - {key}
      ensures exists c :: c in row' && c in st' && st'[c].key == k
    {
      var c :| c in row && c in st && st[c].key == k;
      assert c in row';
    }
  }

  // ----- Runs -----

  ghost function BlocksOf(row: seq<nat>): set<nat> {
    set c | c in row
  }

  /** The tree stands for m. */
  ghost predicate Holds(t: BTree, m: map<nat, Binding>)
    reads t
  {
    t.Small() && Represents(t.store, t.Leaves(), m) && InDisk(t.Leaves(), t.total)
  }

  ghost predicate InDisk(row: seq<nat>, total: nat) {
    forall b | b in row :: 0 < b < total
  }

  /** The blocks given out that are no leaves. */
  ghost function Others(t: BTree): set<nat>
    reads t
    requires t.Valid()
  {
    t.live - BlocksOf(t.Leaves())
  }

  method PutOne(t: BTree, key: nat, value: nat, ftype: nat, ghost m: map<nat, Binding>)
    requires Holds(t, m) && key != 0 && key !in m && |m| + 1 < 2 * t.mid && FreeBlocks(t.live, t.total) >= 1
    modifies t
    ensures Holds(t, m[key := Binding(value, ftype)])
    ensures FreeBlocks(t.live, t.total) == FreeBlocks(old(t.live), t.total) - 1
    ensures Others(t) == old(Others(t))
  {
    hide *;
    HoldsFacts(t, m);
    NotHeld(t, m, key);
    t.SmallFits(key);
    t.SmallFacts();
    OthersAre(t);
    ghost var st, leaves, live := t.store, t.Leaves(), t.live;
    ghost var place := t.RankOf(key);
    var ok, leaf := t.Insert(key, value, ftype);
    RepresentsPut(st, t.store, leaves, t.Leaves(), m, leaf);
    InsertedBlocks(leaves, place, leaf);
    InDiskWith(leaves, place, leaf, t.total);
    OthersAre(t);
    t.SmallSize();
    HoldsNow(t, m[key := Binding(value, ftype)]);
  }

  method DropOne(t: BTree, key: nat, ghost m: map<nat, Binding>) returns (rv: nat)
    requires Holds(t, m) && key != 0
    modifies t
    ensures Holds(t, m - {key}) && (rv != 0 <==> key in m)
    ensures FreeBlocks(t.live, t.total) == FreeBlocks(old(t.live), t.total) + if key in m then 1 else 0
    ensures Others(t) == old(Others(t))
  {
    hide *;
    HoldsFacts(t, m);
    NotHeld(t, m, key);
    t.SmallFacts();
    t.DistinctKeys();
    OthersAre(t);
    ghost var st, leaves := t.store, t.Leaves();
    rv := t.Delete(key);
    t.SmallFacts();
    if rv != 0 {
      RepresentsDrop(st, t.store, leaves, m, rv);
      RemovedBlocks(leaves, rv);
      InDiskWithout(leaves, rv, t.total);
      OneTaken(t.live, t.total, rv);
      assert t.live + {rv} == old(t.live);
    } else {
      assert m - {key} == m;
    }
    OthersAre(t);
    HoldsNow(t, m - {key});
  }

  /** A run of operations on the tree answers and ends like the same run on the map, and leaks no block. */
  method Run(t: BTree, ops: seq<Op>, ghost m: map<nat, Binding>) returns (replies: seq<Reply>)
    requires Holds(t, m) && LegalRun(m, ops, 2 * t.mid) && FreeBlocks(t.live, t.total) + |m| + 1 >= 2 * t.mid
    modifies t
    ensures Holds(t, AfterAll(m, ops)) && replies == Answers(m, ops)
    ensures Others(t) == old(Others(t))
  {
    hide *;
    HoldsFacts(t, m);
    replies := [];
    ghost var now, others := m, Others(t);
    var i := 0;
    assert ops[0..] == ops;
    while i < |ops|
      invariant 0 <= i <= |ops| && Holds(t, now) && t.Valid() && Others(t) == others
      invariant LegalRun(now, ops[i..], 2 * t.mid) && FreeBlocks(t.live, t.total) + |now| + 1 >= 2 * t.mid
      invariant AfterAll(m, ops) == AfterAll(now, ops[i..])
      invariant Answers(m, ops) == replies + Answers(now, ops[i..])
    {
      OneStep(now, ops, i, 2 * t.mid);
      var reply := Perform(t, ops[i], now);
      now := After(now, ops[i]);
      HoldsFacts(t, now);
      replies := replies + [reply];
      i := i + 1;
    }
    NoStep(now, ops[i..]);
  }

  // ----- Runs on trees of any height -----

  /** Insertions of absent keys, and searches. */
  ghost predicate Growing(m: map<nat, Binding>, ops: seq<Op>)
    decreases ops
  {
    ops == [] || (!ops[0].Drop? && (ops[0].Put? ==> ops[0].key !in m) && Growing(After(m, ops[0]), ops[1..]))
  }

  /** A whole tree at some moment. */
  datatype Moment = Moment(st: Store, lv: map<nat, nat>, rows: seq<seq<nat>>)

  ghost function Now(t: BTree): Moment
    reads t
  {
    Moment(t.store, t.lv, t.rows)
  }

  /** A tree whose leaves stand for m and that does not take the key. */
  ghost predicate Refuses(s: Moment, mid: nat, root: nat, m: map<nat, Binding>, key: nat) {
    && mid >= 2 && Linked(s.st, s.lv, 2 * mid, s.rows, 1) && Last(s.rows) == [root]
    && Represents(s.st, Flat(s.st, s.rows[1]), m)
    && Levelled(s.st, s.lv, 2 * mid) && root in s.lv && s.lv[root] >= 1 && !Accepts(s.st, s.lv, mid, root, key)
  }

  /** Blocks that are enough for so many insertions: each may need one for its leaf and one at every height. */
  function Enough(height: nat, count: nat): nat
    decreases count
  {
    if count == 0 then 0 else height + 1 + Enough(height + 1, count - 1)
  }

  lemma {:induction false} EnoughGrows(height: nat, height': nat, count: nat)
    requires height <= height'
    ensures Enough(height, count) <= Enough(height', count)
    decreases count
  {
    if count > 0 { EnoughGrows(height + 1, height' + 1, count - 1); }
  }

  lemma EnoughForOne(height: nat, count: nat)
    requires count > 0
    ensures Enough(height, count) == height + 1 + Enough(height + 1, count - 1)
  {
  }

  /**
    Insertions and searches on a tree of any height, sorted or not, answer like the finite map, up to
    the first key that the tree does not take; a run in which there is none ends like the map as well.
   */
  method RunTall(t: BTree, ops: seq<Op>, ghost m: map<nat, Binding>) returns (replies: seq<Reply>, ghost last: Moment)
    requires t.Valid() && Represents(t.store, t.Leaves(), m) && Growing(m, ops)
    requires FreeBlocks(t.live, t.total) >= Enough(|t.rows|, |ops|)
    modifies t
    ensures |replies| <= |ops| && replies == Answers(m, ops[..|replies|])
    ensures |replies| == |ops| ==> t.Valid() && Represents(t.store, t.Leaves(), AfterAll(m, ops))
    ensures |replies| < |ops| ==>
      && ops[|replies|].Put?
      && Refuses(last, t.mid, t.root, AfterAll(m, ops[..|replies|]), ops[|replies|].key)
  {
    hide *;
    replies := [];
    ghost var now := m;
    last := Now(t);
    NoStep(m, []);
    assert ops[0..] == ops && ops[..0] == [];
    while |replies| < |ops|
      invariant |replies| <= |ops| && replies == Answers(m, ops[..|replies|]) && now == AfterAll(m, ops[..|replies|])
      invariant t.Valid() && Represents(t.store, t.Leaves(), now) && Growing(now, ops[|replies|..])
      invariant FreeBlocks(t.live, t.total) >= Enough(|t.rows|, |ops| - |replies|)
    {
      var i := |replies|;
      GrowingStep(now, ops, i);
      EnoughForOne(|t.rows|, |ops| - i);
      ghost var height := |t.rows| + 1;
      OneStepOn(m, ops, i);
      match ops[i] {
        case Get(key) =>
          var reply := Look(t, key, now);
          replies := replies + [reply];
        case Put(key, value, ftype) =>
          last := Now(t);
          var ok := PutTall(t, key, value, ftype, now);
          if !ok { return; }
          replies := replies + [Done];
          now := After(now, ops[i]);
        case Drop(_) =>
          assert false;
      }
      EnoughGrows(|t.rows|, height, |ops| - i - 1);
    }
    assert ops[..|ops|] == ops;
  }

  /** Finds a key in a tree of any height. */
  method Look(t: BTree, key: nat, ghost m: map<nat, Binding>) returns (reply: Reply)
    requires t.Valid() && Represents(t.store, t.Leaves(), m)
    ensures reply == Answer(m, Get(key))
  {
    hide *;
    AbsentIs(t.store, t.Leaves(), m, key);
    var rv := t.Find(key);
    if rv == 0 { return Missing; }
    BoundAt(t.store, t.Leaves(), m, rv);
    reply := Found(Binding(t.store[rv].value, t.store[rv].ftype));
  }

  lemma AbsentIs(st: Store, row: seq<nat>, m: map<nat, Binding>, key: nat)
    requires Represents(st, row, m)
    ensures key !in m <==> Absent(st, row, key)
    ensures Answer(m, Get(key)) == if key in m then Found(m[key]) else Missing
  {
  }

  lemma BoundAt(st: Store, row: seq<nat>, m: map<nat, Binding>, c: nat)
    requires Represents(st, row, m) && c in row
    ensures c in st && st[c].key in m && m[st[c].key] == Binding(st[c].value, st[c].ftype)
  {
  }

  /** Inserts an absent key in a tree of any height, if the tree takes it. */
  method PutTall(t: BTree, key: nat, value: nat, ftype: nat, ghost m: map<nat, Binding>) returns (ok: bool)
    requires t.Valid() && Represents(t.store, t.Leaves(), m) && key !in m
    requires FreeBlocks(t.live, t.total) >= |t.rows| + 1
    modifies t
    ensures FreeBlocks(t.live, t.total) + |old(t.rows)| + 1 >= FreeBlocks(old(t.live), t.total)
    ensures |t.rows| <= |old(t.rows)| + 1
    ensures ok ==> t.Valid() && Represents(t.store, t.Leaves(), m[key := Binding(value, ftype)])
    ensures !ok ==> Refuses(old(Now(t)), t.mid, t.root, m, key)
    ensures old(t.InOrder()) && key != 0 ==> ok && (t.InOrder() <==> old(t.FitsTarget(key)))
  {
    hide *;
    AbsentIs(t.store, t.Leaves(), m, key);
    RefusesIs(t, m, key);
    ghost var st, leaves := t.store, t.Leaves();
    var leaf;
    ok, leaf := t.Insert(key, value, ftype);
    if ok { RepresentsPut(st, t.store, leaves, t.Leaves(), m, leaf); }
  }

  lemma RefusesIs(t: BTree, m: map<nat, Binding>, key: nat)
    requires t.Valid() && Represents(t.store, t.Leaves(), m)
    ensures Refuses(Now(t), t.mid, t.root, m, key) <==> !t.TakesKey(key)
  {
    hide Accepts, Represents, Flat, Levelled;
    t.Parts();
    t.RootFacts();
  }

  lemma GrowingStep(m: map<nat, Binding>, ops: seq<Op>, i: nat)
    requires i < |ops| && Growing(m, ops[i..])
    ensures !ops[i].Drop? && (ops[i].Put? ==> ops[i].key !in m) && Growing(After(m, ops[i]), ops[i + 1..])
    ensures ops[i].Get? ==> After(m, ops[i]) == m
    ensures ops[i].Put? ==>
      After(m, ops[i]) == m[ops[i].key := Binding(ops[i].value, ops[i].ftype)] && Answer(m, ops[i]) == Done
  {
    assert ops[i..][0] == ops[i] && ops[i..][1..] == ops[i + 1..];
  }

  /** A run can also be extended at its end. */
  lemma {:induction false} OneStepOn(m: map<nat, Binding>, ops: seq<Op>, i: nat)
    requires i < |ops|
    ensures AfterAll(m, ops[..i + 1]) == After(AfterAll(m, ops[..i]), ops[i])
    ensures Answers(m, ops[..i + 1]) == Answers(m, ops[..i]) + [Answer(AfterAll(m, ops[..i]), ops[i])]
    decreases i
  {
    assert ops[..i + 1][0] == ops[0];
    if i == 0 {
      assert ops[..1][1..] == [] && ops[..0] == [];
    } else {
      var rest := ops[1..];
      assert ops[..i + 1][1..] == rest[..i] && ops[..i][1..] == rest[..i - 1] && ops[..i][0] == ops[0];
      OneStepOn(After(m, ops[0]), rest, i - 1);
    }
  }

  // ----- Runs on a single inner node -----

  lemma OneStep(m: map<nat, Binding>, ops: seq<Op>, i: nat, max: nat)
    requires i < |ops| && LegalRun(m, ops[i..], max)
    ensures Legal(m, ops[i], max) && LegalRun(After(m, ops[i]), ops[i + 1..], max)
    ensures AfterAll(m, ops[i..]) == AfterAll(After(m, ops[i]), ops[i + 1..])
    ensures Answers(m, ops[i..]) == [Answer(m, ops[i])] + Answers(After(m, ops[i]), ops[i + 1..])
  {
    assert ops[i..][0] == ops[i] && ops[i..][1..] == ops[i + 1..];
  }

  lemma NoStep(m: map<nat, Binding>, ops: seq<Op>)
    requires ops == []
    ensures AfterAll(m, ops) == m && Answers(m, ops) == []
  {
  }

  method Perform(t: BTree, op: Op, ghost m: map<nat, Binding>) returns (reply: Reply)
    requires Holds(t, m) && Legal(m, op, 2 * t.mid) && FreeBlocks(t.live, t.total) + |m| + 1 >= 2 * t.mid
    modifies t
    ensures Holds(t, After(m, op)) && reply == Answer(m, op)
    ensures FreeBlocks(t.live, t.total) + |After(m, op)| == FreeBlocks(old(t.live), t.total) + |m|
    ensures Others(t) == old(Others(t))
  {
    hide *;
    HoldsFacts(t, m);
    StepIs(m, op, 2 * t.mid);
    match op
    case Put(key, value, ftype) =>
      PutOne(t, key, value, ftype, m);
      reply := Done;
    case Get(key) =>
      reply := Look(t, key, m);
    case Drop(key) =>
      var rv := DropOne(t, key, m);
      reply := if rv == 0 then Missing else Done;
  }

  lemma StepIs(m: map<nat, Binding>, op: Op, max: nat)
    requires Legal(m, op, max)
    ensures op.key != 0
    ensures op.Put? ==> op.key !in m && |m| + 1 < max && Answer(m, op) == Done
    ensures op.Put? ==> After(m, op) == m[op.key := Binding(op.value, op.ftype)] && |After(m, op)| == |m| + 1
    ensures op.Get? ==> After(m, op) == m
    ensures op.Drop? ==> After(m, op) == m - {op.key} && Answer(m, op) == if op.key in m then Done else Missing
    ensures op.Drop? ==> |After(m, op)| + (if op.key in m then 1 else 0) == |m|
  {
    if op.Put? { Larger(m, op.key, Binding(op.value, op.ftype)); }
    if op.Drop? {
      if op.key in m { Smaller(m, op.key); } else { assert m - {op.key} == m; }
    }
  }

  lemma HoldsFacts(t: BTree, m: map<nat, Binding>)
    requires Holds(t, m)
    ensures t.Small() && t.Valid() && Represents(t.store, t.Leaves(), m) && |m| == |t.Leaves()|
    ensures InDisk(t.Leaves(), t.total)
  {
  }

  lemma HoldsNow(t: BTree, m: map<nat, Binding>)
    requires t.Small() && t.Valid() && Represents(t.store, t.Leaves(), m) && InDisk(t.Leaves(), t.total)
    ensures Holds(t, m)
  {
  }

  lemma NotHeld(t: BTree, m: map<nat, Binding>, key: nat)
    requires Holds(t, m)
    ensures t.Valid() && (key !in m <==> Absent(t.store, t.Leaves(), key))
  {
  }

  lemma OthersAre(t: BTree)
    requires t.Valid()
    ensures Others(t) == t.live - BlocksOf(t.Leaves())
  {
  }

  lemma InsertedBlocks(row: seq<nat>, place: nat, leaf: nat)
    requires place <= |row|
    ensures BlocksOf(InsertAt(row, place, leaf)) == BlocksOf(row) + {leaf}
  {
    InsertAtMembers(row, place, leaf);
  }

  lemma InDiskWith(row: seq<nat>, place: nat, leaf: nat, total: nat)
    requires InDisk(row, total) && place <= |row| && 0 < leaf < total
    ensures InDisk(InsertAt(row, place, leaf), total)
  {
    InsertAtMembers(row, place, leaf);
  }

  lemma InDiskWithout(row: seq<nat>, leaf: nat, total: nat)
    requires InDisk(row, total) && leaf in row
    ensures InDisk(Remove(row, leaf), total) && 0 < leaf < total
  {
    RemoveMembers(row, leaf);
  }

  lemma RemovedBlocks(row: seq<nat>, leaf: nat)
    requires NoDup(row) && leaf in row
    ensures BlocksOf(Remove(row, leaf)) == BlocksOf(row) - {leaf} && leaf in BlocksOf(row)
  {
    RemoveMembers(row, leaf);
    RemoveNoDup(row, leaf);
  }
}
