/**
  Two inputs at the limits of insertion: a key that puts the tree out of order, and one that the tree does
  not take.
 */
module BTreeLimits {
  import opened Sequences
  import opened BTreeModel
  import opened BTreeSplits
  import opened BTreeOrder
  import opened BTreeInsertion
  import opened BTreeLanding
  import opened BTreeLeaves
  import opened BTree

  // ----- Ascending keys -----

  /** The leaves of a row have these keys. */
  ghost predicate HasKeys(st: Store, row: seq<nat>, keys: seq<nat>) {
    |row| == |keys| && forall i | 0 <= i < |row| :: row[i] in st && st[row[i]].key == keys[i]
  }

  /** The numbers from 1 to n. */
  function UpTo(n: nat): (s: seq<nat>)
    ensures |s| == n && forall i | 0 <= i < n :: s[i] == i + 1
  {
    if n == 0 then [] else UpTo(n - 1) + [n]
  }

  /** A sorted tree of one inner node over n leaves with the keys from 1 to n. */
  ghost predicate Counted(t: BTree, n: nat)
    reads t
  {
    && t.Valid() && t.InOrder() && |t.rows| == 2 && HasKeys(t.store, t.Leaves(), UpTo(n))
    && t.root in t.store && t.store[t.root].numKeys == if n < 2 * t.mid then n else 2 * t.mid
  }

  lemma CountedFacts(t: BTree, n: nat)
    requires Counted(t, n)
    ensures t.Valid() && t.InOrder() && |t.rows| == 2 && HasKeys(t.store, t.Leaves(), UpTo(n)) && |t.Leaves()| == n
    ensures t.root in t.store && t.store[t.root].numKeys == if n < 2 * t.mid then n else 2 * t.mid
    ensures Absent(t.store, t.Leaves(), n + 1)
    ensures n > 0 ==> t.Leaves() != []
  {
  }

  /** The only inner node, and its keys. */
  lemma OneNode(t: BTree, n: nat)
    requires Counted(t, n)
    ensures t.mid >= 2 && Levelled(t.store, t.lv, 2 * t.mid) && t.root in t.lv && t.lv[t.root] == 1
    ensures Linked(t.store, t.lv, 2 * t.mid, t.rows, 1) && t.rows[1] == [t.root]
    ensures t.Leaves() == Flat(t.store, t.rows[1]) == KidsAt(t.store, t.root)
    ensures KeysRight(t.store, t.lv, 2 * t.mid, t.root)
    ensures forall key :: Descend(t.store, t.lv, 2 * t.mid, t.root, key) == t.root
  {
    hide Levelled, Flat, NoDup, Covered, MaxKey, KidsAt, Ascending;
    t.Parts();
    t.RootFacts();
    FlatOne(t.store, t.root);
    assert t.root in t.rows[1];
    assert RowRight(t.store, t.lv, 2 * t.mid, t.rows[1]);
  }

  /** The next key in turn ranks behind all leaves; it fits exactly if the last slot of the root is empty. */
  lemma NextKey(t: BTree, n: nat)
    requires Counted(t, n)
    ensures t.Valid() && t.RankOf(n + 1) == n
    ensures t.FitsTarget(n + 1) <==> n <= 2 * t.mid
    ensures n <= 2 * t.mid ==> !t.Splits(n + 1)
    ensures n == 2 * t.mid ==> Appends(t.store[t.root], 2 * t.mid, n + 1)
  {
    hide Linked, Levelled, Flat, NoDup, Covered, MaxKey, Ascending, Ordered, Rank, KidsAt;
    OneNode(t, n);
    CountedFacts(t, n);
    var m, row := 2 * t.mid, t.Leaves();
    LeafMax(t.store, t.lv, m, t.rows);
    NodeShape(t.store, t.lv, m, t.root);
    RankUnique(t.store, t.lv, m, row, n + 1, n);
    if n > 0 { MaxOfLast(t.store, t.lv, m, t.root); }
    t.Aims(n + 1);
    t.RootFacts();
    if n == m {
      var node := t.store[t.root];
      assert node.children[m - 1] == Kids(node)[m - 1] == row[m - 1];
      assert node.keys[m - 1] == MaxKey(t.store, t.lv, m, row[m - 1]) == n;
    }
  }

  /** The leaf at the end carries the next key. */
  lemma OneMore(st: Store, st': Store, row: seq<nat>, n: nat, leaf: nat)
    requires HasKeys(st, row, UpTo(n)) && LeavesKept(st, st', row) && leaf in st' && st'[leaf].key == n + 1
    ensures HasKeys(st', InsertAt(row, n, leaf), UpTo(n + 1))
  {
    KeysKept(st, st', row, UpTo(n));
    assert InsertAt(row, n, leaf) == row + [leaf];
  }

  lemma KeysKept(st: Store, st': Store, row: seq<nat>, keys: seq<nat>)
    requires HasKeys(st, row, keys) && LeavesKept(st, st', row)
    ensures HasKeys(st', row, keys)
  {
    forall i | 0 <= i < |row|
      ensures row[i] in st' && st'[row[i]].key == keys[i]
    {
      assert row[i] in row && SameButParent(st, st', row[i]);
    }
  }

  /** The leaf in front of the last one carries the next key. */
  lemma OneTooEarly(st: Store, st': Store, row: seq<nat>, n: nat, leaf: nat)
    requires n > 0 && HasKeys(st, row, UpTo(n)) && LeavesKept(st, st', row) && leaf in st' && st'[leaf].key == n + 1
    ensures HasKeys(st', InsertAt(row, n - 1, leaf), UpTo(n - 1) + [n + 1, n])
  {
    KeysKept(st, st', row, UpTo(n));
    assert InsertAt(row, n - 1, leaf) == row[..n - 1] + [leaf, row[n - 1]];
  }

  lemma NoLeaves(t: BTree)
    requires t.Small() && t.Leaves() == []
    ensures Counted(t, 0)
  {
    hide BTree.Valid, BTree.InOrder;
    t.SmallFacts();
  }

  lemma CountedNow(t: BTree, n: nat)
    requires t.Valid() && t.InOrder() && |t.rows| == 2 && HasKeys(t.store, t.Leaves(), UpTo(n))
    requires t.root in t.store && t.store[t.root].numKeys == if n < 2 * t.mid then n else 2 * t.mid
    ensures Counted(t, n)
  {
  }

  /** Adds the next key behind the others, for as long as the root has a slot for it. */
  method AddNext(t: BTree, n: nat)
    requires Counted(t, n) && n <= 2 * t.mid && FreeBlocks(t.live, t.total) >= 1
    modifies t
    ensures Counted(t, n + 1) && FreeBlocks(t.live, t.total) == FreeBlocks(old(t.live), t.total) - 1
  {
    hide *;
    CountedFacts(t, n);
    NextKey(t, n);
    ghost var st, leaves := t.store, t.Leaves();
    var ok, leaf := t.Insert(n + 1, 0, 0);
    OneMore(st, t.store, leaves, n, leaf);
    CountedNow(t, n + 1);
  }

  lemma {:induction false} AllButOne(live: set<nat>, total: nat)
    requires total >= 2 && live == {1}
    ensures FreeBlocks(live, total) == total - 2
  {
    var free := set b: nat | 0 < b < total && b !in live;
    if total == 2 {
      assert free == {};
    } else {
      AllButOne(live, total - 1);
      assert free == (set b: nat | 0 < b < total - 1 && b !in live) + {total - 1};
    }
  }

  /**
    For every MAX_KEYS = 2 * mid: insert the keys 1, 2, 3, ... in turn. After MAX_KEYS + 1 of them the
    tree is sorted and its last slot is filled; the next one lands in front of the last leaf.
   */
  method AscendingKeys(mid: nat, total: nat) returns (t: BTree)
    requires mid >= 2 && total >= 2 * mid + 6
    ensures fresh(t) && t.Valid() && t.mid == mid && t.total == total && !t.InOrder()
    ensures HasKeys(t.store, t.Leaves(), UpTo(2 * mid) + [2 * mid + 2, 2 * mid + 1])
  {
    hide *;
    t := new BTree(mid, 1, total, {});
    NoLeaves(t);
    AllButOne(t.live, total);
    for n := 0 to 2 * mid + 1
      invariant fresh(t) && t.mid == mid && t.total == total && Counted(t, n)
      invariant FreeBlocks(t.live, total) == total - 2 - n
    {
      AddNext(t, n);
    }
    ghost var n := 2 * mid + 1;
    CountedFacts(t, n);
    NextKey(t, n);
    ghost var st, leaves := t.store, t.Leaves();
    var ok, leaf := t.Insert(2 * mid + 2, 0, 0);
    OneTooEarly(st, t.store, leaves, n, leaf);
  }

  // ----- A key that the tree does not take -----

  function Inner(numKeys: nat, keys: seq<nat>, children: seq<nat>, parent: nat): Node {
    Node(false, 0, 0, 0, numKeys, keys, children, parent, 0, 0)
  }

  /** The leaf in block 100 + k has the key k. */
  function LeafOf(b: nat): Node
    requires b > 100
  {
    var parent :=
      if b <= 103 then 2
      else if b in {104, 105, 106, 109, 111} then 3
      else if b in {107, 114} then 4
      else if b in {115, 118} then 6
      else 5;
    Node(true, 0, b - 100, 0, 0, [], [], parent, 0, 0)
  }

  function NodeOf(b: nat): Node {
    match b
    case 1 => Inner(4, [3, 11, 7, 17], [2, 3, 4, 5, 6], 0)
    case 2 => Inner(2, [1, 2, 0, 0], [101, 102, 103, 0, 0], 1)
    case 3 => Inner(4, [4, 5, 6, 9], [104, 105, 106, 109, 111], 1)
    case 4 => Inner(1, [14, 0, 0, 0], [114, 107, 0, 0, 0], 1)
    case 5 => Inner(4, [8, 12, 13, 16], [108, 112, 113, 116, 117], 1)
    case 6 => Inner(1, [18, 0, 0, 0], [118, 115, 0, 0, 0], 1)
    case _ => LeafOf(if b > 100 then b else 101)
  }

  /**
    For MAX_KEYS = 4: what is left of 2, 1, 3, 5, 7, 4, 11, 8, 13, 15, 14, 9, 17, 18, 6, 16, 12, inserted in
    that order into an empty tree.
   */
  function Crowded(): (st: Store)
    ensures forall b :: b in st <==> 1 <= b <= 6 || (101 <= b <= 118 && b != 110)
    ensures forall b | b in st :: st[b] == NodeOf(b)
  {
    map b: nat | 1 <= b <= 118 && (b <= 6 || 101 <= b) && b != 110 :: NodeOf(b)
  }

  function HeightOf(b: nat): nat {
    if b == 1 then 2 else if b <= 6 then 1 else 0
  }

  function CrowdedHeights(): (lv: map<nat, nat>)
    ensures forall b :: b in lv <==> b in Crowded()
    ensures forall b | b in lv :: lv[b] == HeightOf(b)
  {
    map b: nat | b in Crowded() :: HeightOf(b)
  }

  function KidsOfInner(b: nat): seq<nat> {
    match b
    case 1 => [2, 3, 4, 5, 6]
    case 2 => [101, 102, 103]
    case 3 => [104, 105, 106, 109, 111]
    case 4 => [114, 107]
    case 5 => [108, 112, 113, 116, 117]
    case 6 => [118, 115]
    case _ => []
  }

  lemma InnerKids(b: nat)
    requires 1 <= b <= 6
    ensures Kids(NodeOf(b)) == KidsOfInner(b) && Count(NodeOf(b)) == |KidsOfInner(b)| && Shape(NodeOf(b), 4)
    ensures b == 1 ==> |KidsOfInner(b)| == NodeOf(b).numKeys + 1
  {
    assert Kids(NodeOf(b)) == KidsOfInner(b);
  }

  lemma CrowdedLevelled()
    ensures Levelled(Crowded(), CrowdedHeights(), 4)
  {
    var st, lv := Crowded(), CrowdedHeights();
    forall b | b in lv
      ensures b != 0 && b in st && NodeOk(st, lv, 4, b)
    {
      if b <= 6 {
        InnerKids(b);
        KidsExist(b);
      }
    }
  }

  lemma KidsExist(b: nat)
    requires 1 <= b <= 6
    ensures forall c | c in KidsOfInner(b) :: c in Crowded() && HeightOf(c) + 1 == HeightOf(b) && NodeOf(c).parent == b
  {
  }

  lemma CrowdedKids(b: nat)
    requires 1 <= b <= 6
    ensures b in Crowded() && KidsAt(Crowded(), b) == KidsOfInner(b) && NoDup(KidsOfInner(b))
  {
    InnerKids(b);
  }

  /** No block hangs below two nodes of a row. */
  lemma {:induction false} RowBelow(st: Store, lv: map<nat, nat>, row: seq<nat>, h: nat)
    requires RowOk(st, lv, row, h) && forall b | b in row :: NoDup(KidsAt(st, b))
    ensures NoDup(Flat(st, row))
  {
    if row != [] {
      var rest := row[1..];
      RowTail(st, lv, row, h);
      hide *;
      RowBelow(st, lv, rest, h);
      FlatMembers(st, rest);
      Joined(KidsAt(st, row[0]), Flat(st, rest));
      FlatHead(st, row);
    }
  }

  lemma RowTail(st: Store, lv: map<nat, nat>, row: seq<nat>, h: nat)
    requires RowOk(st, lv, row, h) && row != []
    ensures row[0] in row && RowOk(st, lv, row[1..], h) && forall b | b in row[1..] :: b in row
    ensures forall b, c | b in row[1..] && c in KidsAt(st, b) :: c !in KidsAt(st, row[0])
  {
    hide KidsAt;
    assert forall b | b in row[1..] :: b in row && b != row[0];
    assert forall c | c in KidsAt(st, row[0]) :: st[c].parent == row[0];
  }

  lemma FlatHead(st: Store, row: seq<nat>)
    requires row != []
    ensures Flat(st, row) == KidsAt(st, row[0]) + Flat(st, row[1..])
  {
  }

  lemma Joined(a: seq<nat>, b: seq<nat>)
    requires NoDup(a) && NoDup(b) && forall c | c in a :: c !in b
    ensures NoDup(a + b)
  {
    forall i, j | 0 <= i < j < |a + b|
      ensures (a + b)[i] != (a + b)[j]
    {
      assert i < |a| <= j ==> a[i] in a && b[j - |a|] in b;
    }
  }

  lemma CrowdedRows(rows: seq<seq<nat>>)
    requires rows == [[], [2, 3, 4, 5, 6], [1]]
    ensures Linked(Crowded(), CrowdedHeights(), 4, rows, 1) && Last(rows) == [1]
  {
    hide Crowded, CrowdedHeights, NodeOf, LeafOf, KidsAt, Flat, Levelled, KidsOfInner, RowOk;
    var st, lv := Crowded(), CrowdedHeights();
    CrowdedLevelled();
    CrowdedRow([1], 2);
    CrowdedRow([2, 3, 4, 5, 6], 1);
    FlatOne(st, 1);
    CrowdedKids(1);
    TopKids();
    RowBelow(st, lv, rows[1], 1);
  }

  lemma CrowdedRow(row: seq<nat>, h: nat)
    requires NoDup(row) && forall b | b in row :: 1 <= b <= 6 && HeightOf(b) == h
    ensures RowOk(Crowded(), CrowdedHeights(), row, h)
    ensures forall b | b in row :: NoDup(KidsAt(Crowded(), b))
  {
    hide Crowded, CrowdedHeights, NodeOf, KidsAt, KidsOfInner, HeightOf, NoDup;
    forall b | b in row
      ensures b in Crowded() && KidsAt(Crowded(), b) == KidsOfInner(b) && NoDup(KidsOfInner(b))
      ensures forall c | c in KidsOfInner(b) :: c in Crowded() && NodeOf(c).parent == b
    {
      CrowdedKids(b);
      KidsExist(b);
    }
  }

  lemma TopKids()
    ensures KidsOfInner(1) == [2, 3, 4, 5, 6] && NodeOf(1).parent == 0
  {
  }

  lemma LeafMaximum(b: nat)
    requires b in Crowded() && b > 100 && Levelled(Crowded(), CrowdedHeights(), 4)
    ensures b in CrowdedHeights() && MaxKey(Crowded(), CrowdedHeights(), 4, b) == b - 100
  {
  }

  lemma InnerMaximum(b: nat)
    requires 2 <= b <= 6 && Levelled(Crowded(), CrowdedHeights(), 4)
    ensures b in CrowdedHeights()
    ensures MaxKey(Crowded(), CrowdedHeights(), 4, b) == Last(KidsOfInner(b)) - 100
  {
    hide Levelled, MaxKey, Crowded, CrowdedHeights;
    CrowdedKids(b);
    KidsExist(b);
    MaxOfLast(Crowded(), CrowdedHeights(), 4, b);
    LeafMaximum(Last(KidsOfInner(b)));
  }

  /**
    The key 10 goes to node 3, which is full and has its last slot filled, below a full root. Once both
    are split, the lower half of the root ends below 10, and the second search ends at node 5, full too.
   */
  lemma CrowdedRefuses(rows: seq<seq<nat>>)
    requires rows == [[], [2, 3, 4, 5, 6], [1]]
    ensures var st, lv := Crowded(), CrowdedHeights();
      && Linked(st, lv, 4, rows, 1) && Last(rows) == [1] && Levelled(st, lv, 4) && 1 in lv && lv[1] == 2
      && Absent(st, Flat(st, rows[1]), 10)
      && Descend(st, lv, 4, 1, 10) == 3 && TargetFull(st, lv, 2, 1, 10) && !Appends(st[3], 4, 10)
      && Lands(st, lv, 2, 1, 10) == At(5) && 5 in st && st[5].numKeys == 4
      && !Accepts(st, lv, 2, 1, 10)
  {
    hide Levelled, MaxKey, Crowded, CrowdedHeights, Flat, KidsAt, Linked, Descend, Pick, NodeOf;
    var st, lv := Crowded(), CrowdedHeights();
    CrowdedRows(rows);
    CrowdedLevelled();
    CrowdedKids(1);
    TopKids();
    FullNodes();
    forall b | 2 <= b <= 6
      ensures b in lv && MaxKey(st, lv, 4, b) == Last(KidsOfInner(b)) - 100
    {
      InnerMaximum(b);
    }
    PickAt(st, lv, 4, [2, 3, 4, 5, 6], 10, 1);
    PickAt(st, lv, 4, [5, 6], 10, 0);
    StepDown(st, lv, 4, 1, 10);
    DescendHere(st, lv, 4, 5, 10);
    TenIsAbsent(rows);
    assert [2, 3, 4, 5, 6][3..] == [5, 6];
    InHalvesStep(st, lv, 2, 1, 10);
  }

  lemma FullNodes()
    ensures forall b | b in {1, 3, 5} :: b in Crowded() && Crowded()[b].numKeys == 4
    ensures |NodeOf(3).children| == 5 && NodeOf(3).children[4] != 0
  {
  }

  lemma TenIsAbsent(rows: seq<seq<nat>>)
    requires rows == [[], [2, 3, 4, 5, 6], [1]]
    ensures Absent(Crowded(), Flat(Crowded(), rows[1]), 10)
  {
    hide Crowded, Flat;
    FlatMembers(Crowded(), rows[1]);
    forall c | c in Flat(Crowded(), rows[1])
      ensures c in Crowded() && Crowded()[c].key != 10
    {
      var b :| b in rows[1] && c in KidsAt(Crowded(), b);
      CrowdedKids(b);
      KidsExist(b);
    }
  }
}
