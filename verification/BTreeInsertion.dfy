/** A new leaf in a sorted tree: where it goes, and when the tree is still sorted afterwards. */
module BTreeInsertion {
  import opened Sequences
  import opened BTreeModel
  import opened BTreeSplits
  import opened BTreeOrder

  /** The leaves stand in strictly ascending order of their keys, and no key is 0. */
  ghost predicate Sorted(st: Store, lv: map<nat, nat>, m: nat, rows: seq<seq<nat>>) {
    && Linked(st, lv, m, rows, 1)
    && Ascending(st, lv, m, Flat(st, rows[1]))
    && forall c | c in Flat(st, rows[1]) :: c in st && st[c].key != 0
  }

  /** Sorted, and the keys that insertions look at are the maxima that they stand for. */
  ghost predicate Ordered(st: Store, lv: map<nat, nat>, m: nat, rows: seq<seq<nat>>) {
    && Sorted(st, lv, m, rows)
    && RowRight(st, lv, m, rows[1])
    && (|rows| > 2 ==> RowRight(st, lv, m, rows[2]))
  }

  ghost predicate Absent(st: Store, row: seq<nat>, key: nat) {
    forall c | c in row :: c in st && st[c].key != key
  }

  /** Whether the place of a key below T is not behind a child in the last slot of T. */
  ghost predicate Fits(st: Store, lv: map<nat, nat>, m: nat, T: nat, key: nat) {
    && Levelled(st, lv, m) && T in lv && T in st && st[T].numKeys < |st[T].children|
    && (st[T].children[st[T].numKeys] == 0 || key < MaxKey(st, lv, m, T))
  }

  function Min(a: nat, b: nat): nat {
    if a < b then a else b
  }

  lemma LeafMax(st: Store, lv: map<nat, nat>, m: nat, rows: seq<seq<nat>>)
    requires Linked(st, lv, m, rows, 1)
    ensures Known(st, lv, m, Flat(st, rows[1]))
    ensures forall c | c in Flat(st, rows[1]) :: c in st && c in lv && lv[c] == 0 && MaxKey(st, lv, m, c) == st[c].key
  {
    hide Flat, NoDup, Covered;
    LinkedRow(st, lv, m, rows, 1, 1);
    KidsBelow(st, lv, m, rows[1], 1);
    FlatMembers(st, rows[1]);
    hide KidsAt, NodeOk;
    assert forall c | c in Flat(st, rows[1]) :: c in lv && lv[c] == 0;
  }

  lemma NodeShape(st: Store, lv: map<nat, nat>, m: nat, b: nat)
    requires Levelled(st, lv, m) && b in lv && lv[b] >= 1
    ensures b in st && b != 0 && Shape(st[b], m) && st[b].numKeys < |st[b].children| && KidsAt(st, b) == Kids(st[b])
    ensures |KidsAt(st, b)| == Count(st[b]) <= st[b].numKeys + 1
    ensures |KidsAt(st, b)| == st[b].numKeys + 1 <==> st[b].children[st[b].numKeys] != 0
  {
    assert NodeOk(st, lv, m, b);
  }

  /**
    Where the new leaf goes: to its rank among the leaves, or in front of the last leaf when it does not fit
    behind it.
   */
  lemma PlaceInTree(st: Store, lv: map<nat, nat>, m: nat, rows: seq<seq<nat>>, i: nat, key: nat)
    requires Sorted(st, lv, m, rows) && i < |rows[1]| && Absent(st, Flat(st, rows[1]), key)
    requires Last(rows)[0] in lv && lv[Last(rows)[0]] >= 1 && rows[1][i] == Descend(st, lv, m, Last(rows)[0], key)
    ensures rows[1][i] in st && Known(st, lv, m, KidsAt(st, rows[1][i])) && Known(st, lv, m, Flat(st, rows[1]))
    ensures var L, T := Flat(st, rows[1]), rows[1][i];
      var p, q := Place(st, lv, m, KidsAt(st, T), key), |Flat(st, rows[1][..i])|;
      && q + Min(p, st[T].numKeys) <= |L|
      && (Fits(st, lv, m, T, key) ==> Min(p, st[T].numKeys) == p && q + p == Rank(st, lv, m, L, key))
      && (!Fits(st, lv, m, T, key) ==> Rank(st, lv, m, L, key) == |L| > 0 && q + Min(p, st[T].numKeys) == |L| - 1)
  {
    hide Flat, NoDup, Covered, Levelled, Ascending, MaxKey, KidsAt, Kids, Pick, Descend, Shape, Rank, Place;
    var L, T := Flat(st, rows[1]), rows[1][i];
    LinkedRow(st, lv, m, rows, 1, 1);
    RowFacts(st, lv, rows[1], 1);
    assert T in rows[1];
    NodeShape(st, lv, m, T);
    FlatAround(st, rows[1], i);
    LeafMax(st, lv, m, rows);
    var A, K, C := Flat(st, rows[1][..i]), KidsAt(st, T), Flat(st, rows[1][i + 1..]);
    if L == [] {
      NoKids(st, lv, m, A, K, C, key);
    } else {
      TargetIsParent(st, lv, m, rows, key);
      RankAround(st, lv, m, A, K, C, key);
      PlaceIsRank(st, lv, m, K, key);
      MaxOfLast(st, lv, m, T);
      FullRank(st, lv, m, K, key);
      LastOfMiddle(A, K, C);
    }
  }

  lemma LastOfMiddle(a: seq<nat>, k: seq<nat>, c: seq<nat>)
    requires k != []
    ensures Last(k) in a + k + c
  {
    assert (a + k + c)[|a| + |k| - 1] == Last(k);
  }

  lemma NoKids(st: Store, lv: map<nat, nat>, m: nat, a: seq<nat>, k: seq<nat>, c: seq<nat>, key: nat)
    requires Levelled(st, lv, m) && a + k + c == []
    ensures a == [] && k == [] && Known(st, lv, m, k) && Place(st, lv, m, k, key) == 0 && Rank(st, lv, m, k, key) == 0
  {
    assert |a + k + c| == |a| + |k| + |c|;
  }

  lemma FullRank(st: Store, lv: map<nat, nat>, m: nat, row: seq<nat>, key: nat)
    requires Ascending(st, lv, m, row) && row != []
    ensures Known(st, lv, m, row) && (Rank(st, lv, m, row, key) == |row| <==> MaxKey(st, lv, m, Last(row)) < key)
  {
    hide MaxKey, Levelled;
    RankSplits(st, lv, m, row, key);
    LastIsMost(st, lv, m, row);
    if MaxKey(st, lv, m, Last(row)) < key {
      RankUnique(st, lv, m, row, key, |row|);
    }
  }

  // ----- The leaf in its place -----

  /** b has become a child of T, at position p; nothing else has changed. */
  ghost predicate HungBelow(st: Store, st': Store, m: nat, T: nat, p: nat, b: nat) {
    && T in st && b in st && T in st' && T != b && GainsChild(st[T], st'[T], p, b, m)
    && st' == st[T := st'[T]][b := st[b].(parent := T)]
  }

  lemma LeafKept(st: Store, st': Store, lv: map<nat, nat>, m: nat, T: nat, p: nat, b: nat, c: nat)
    requires Levelled(st, lv, m) && Levelled(st', lv, m) && HungBelow(st, st', m, T, p, b)
    requires T in lv && lv[T] == 1 && c in lv && lv[c] == 0
    ensures c in st && c in st' && st'[c].key == st[c].key
    ensures MaxKey(st', lv, m, c) == MaxKey(st, lv, m, c) == st[c].key
  {
  }

  /** Only at its rank does a new leaf keep the leaves ascending. */
  lemma AscendsAtRank(st: Store, st': Store, lv: map<nat, nat>, m: nat, L: seq<nat>, q: nat, b: nat)
    requires Ascending(st, lv, m, L) && q <= |L| && Levelled(st', lv, m) && b in lv
    requires forall c | c in L :: MaxKey(st', lv, m, c) == MaxKey(st, lv, m, c) != MaxKey(st', lv, m, b)
    ensures Known(st, lv, m, L)
    ensures Ascending(st', lv, m, InsertAt(L, q, b)) <==> q == Rank(st, lv, m, L, MaxKey(st', lv, m, b))
  {
    hide MaxKey, Levelled, Ascending, InsertAt, Rank;
    AscendingKnown(st, lv, m, L);
    var r, key := InsertAt(L, q, b), MaxKey(st', lv, m, b);
    InsertAtMembers(L, q, b);
    if Ascending(st', lv, m, r) {
      forall j | 0 <= j < q
        ensures MaxKey(st, lv, m, L[j]) < key
      {
        InsertedAt(L, q, b, j);
        InsertedAt(L, q, b, q);
        AscendingAt(st', lv, m, r, j, q);
        assert L[j] in L;
      }
      if q < |L| {
        InsertedAt(L, q, b, q);
        InsertedAt(L, q, b, q + 1);
        AscendingAt(st', lv, m, r, q, q + 1);
        assert L[q] in L;
      }
      RankUnique(st, lv, m, L, key, q);
    }
    if q == Rank(st, lv, m, L, key) {
      AscendsThere(st, st', lv, m, L, q, b);
    }
  }

  lemma AscendsThere(st: Store, st': Store, lv: map<nat, nat>, m: nat, L: seq<nat>, q: nat, b: nat)
    requires Ascending(st, lv, m, L) && Levelled(st', lv, m) && b in lv
    requires forall c | c in L :: MaxKey(st', lv, m, c) == MaxKey(st, lv, m, c) != MaxKey(st', lv, m, b)
    requires q == Rank(st, lv, m, L, MaxKey(st', lv, m, b))
    ensures Ascending(st', lv, m, InsertAt(L, q, b))
  {
    hide MaxKey, Levelled, Ascending, InsertAt, Rank;
    AscendingKnown(st, lv, m, L);
    var r, key := InsertAt(L, q, b), MaxKey(st', lv, m, b);
    InsertAtMembers(L, q, b);
    RankSplits(st, lv, m, L, key);
    forall j, k | 0 <= j < k < |r|
      ensures MaxKey(st', lv, m, r[j]) < MaxKey(st', lv, m, r[k])
    {
      InsertedAt(L, q, b, j);
      InsertedAt(L, q, b, k);
      if k < q {
        AscendingAt(st, lv, m, L, j, k);
      } else if q < k {
        if q < k - 1 { AscendingAt(st, lv, m, L, q, k - 1); }
        if j < q { AscendingAt(st, lv, m, L, j, k - 1); }
        if q < j { AscendingAt(st, lv, m, L, j - 1, k - 1); }
        assert L[k - 1] in L;
      } else {
        assert L[j] in L;
      }
    }
    AscendingIntro(st', lv, m, r);
  }

  lemma InsertedAt(s: seq<nat>, q: nat, x: nat, j: nat)
    requires q <= |s| && j <= |s|
    ensures |InsertAt(s, q, x)| == |s| + 1
    ensures InsertAt(s, q, x)[j] == if j < q then s[j] else if j == q then x else s[j - 1]
  {
  }

  lemma AscendingAt(st: Store, lv: map<nat, nat>, m: nat, row: seq<nat>, i: nat, j: nat)
    requires Ascending(st, lv, m, row) && i < j < |row|
    ensures Known(st, lv, m, row) && row[i] in row && row[j] in row
    ensures MaxKey(st, lv, m, row[i]) < MaxKey(st, lv, m, row[j])
  {
  }

  lemma AscendingIntro(st: Store, lv: map<nat, nat>, m: nat, row: seq<nat>)
    requires Known(st, lv, m, row)
    requires forall i, j | 0 <= i < j < |row| :: MaxKey(st, lv, m, row[i]) < MaxKey(st, lv, m, row[j])
    ensures Ascending(st, lv, m, row)
  {
  }

  /** A child that does not come last leaves the maximum alone. */
  lemma MaxAfterHang(st: Store, st': Store, lv: map<nat, nat>, m: nat, T: nat, p: nat, b: nat)
    requires Levelled(st, lv, m) && Levelled(st', lv, m) && HungBelow(st, st', m, T, p, b)
    requires T in lv && lv[T] == 1 && b in lv && lv[b] == 0 && p < |KidsAt(st, T)|
    ensures MaxKey(st', lv, m, T) == MaxKey(st, lv, m, T)
  {
    var K, K' := KidsAt(st, T), KidsAt(st', T);
    assert K' == InsertAt(K, p, b) && Last(K') == Last(K);
    hide MaxKey;
    MaxOfLast(st, lv, m, T);
    MaxOfLast(st', lv, m, T);
    assert NodeOk(st, lv, m, T);
    LeafKept(st, st', lv, m, T, p, b, Last(K));
  }

  /** The keys of the leaves' parents stay right. */
  lemma ParentsRight(st: Store, st': Store, lv: map<nat, nat>, m: nat, rows: seq<seq<nat>>, T: nat, p: nat, b: nat)
    requires Linked(st, lv, m, rows, 1) && RowRight(st, lv, m, rows[1]) && T in rows[1]
    requires Levelled(st', lv, m) && HungBelow(st, st', m, T, p, b) && b in lv && lv[b] == 0 && KeysRight(st', lv, m, T)
    ensures RowRight(st', lv, m, rows[1])
  {
    hide Flat, NoDup, Covered, Levelled, MaxKey, KidsAt, Part, KeysRight, HungBelow;
    LinkedRow(st, lv, m, rows, 1, 1);
    RowFacts(st, lv, rows[1], 1);
    forall c | c in rows[1] && c != T
      ensures c in lv && lv[c] >= 1 && KeysRight(st', lv, m, c)
    {
      OtherSame(st, st', lv, m, T, p, b, c);
      MaxOfKids(st, lv, m, c);
      forall d | d in KidsAt(st', c)
        ensures d in lv && MaxKey(st', lv, m, d) == MaxKey(st, lv, m, d)
      {
        LeafKept(st, st', lv, m, T, p, b, d);
      }
      PartRight(st, st', lv, lv, m, c, c, 0);
    }
  }

  lemma OtherSame(st: Store, st': Store, lv: map<nat, nat>, m: nat, T: nat, p: nat, b: nat, c: nat)
    requires Levelled(st, lv, m) && HungBelow(st, st', m, T, p, b) && c in lv && c != T && lv[c] >= 1 && b in lv
    requires lv[b] == 0
    ensures c in st && c in st' && st'[c] == st[c] && KidsAt(st', c) == KidsAt(st, c) && Part(st'[c], st[c], 0)
  {
    assert NodeOk(st, lv, m, c);
  }

  lemma MaxOfKids(st: Store, lv: map<nat, nat>, m: nat, c: nat)
    requires Levelled(st, lv, m) && c in lv && lv[c] >= 1
    ensures forall d | d in KidsAt(st, c) :: d in lv && lv[d] + 1 == lv[c]
  {
    assert NodeOk(st, lv, m, c);
  }

  /** One height up, too: the maximum below T may only grow when no key stands for it. */
  lemma GrandparentsRight(st: Store, st': Store, lv: map<nat, nat>, m: nat, rows: seq<seq<nat>>, T: nat, p: nat, b: nat)
    requires Linked(st, lv, m, rows, 1) && |rows| > 2 && RowRight(st, lv, m, rows[2]) && T in rows[1]
    requires Levelled(st', lv, m) && HungBelow(st, st', m, T, p, b) && b in lv && lv[b] == 0
    requires T == Last(rows[1]) || MaxKey(st', lv, m, T) == MaxKey(st, lv, m, T)
    ensures RowRight(st', lv, m, rows[2])
  {
    hide Flat, NoDup, Covered, Levelled, MaxKey, KidsAt, HungBelow;
    LinkedRow(st, lv, m, rows, 1, 1);
    LinkedRow(st, lv, m, rows, 1, 2);
    RowFacts(st, lv, rows[1], 1);
    RowFacts(st, lv, rows[2], 2);
    forall c | c in rows[2]
      ensures c in lv && lv[c] >= 1 && KeysRight(st', lv, m, c)
    {
      OtherSame(st, st', lv, m, T, p, b, c);
      GrandparentRight(st, st', lv, m, rows, T, p, b, c);
    }
  }

  lemma GrandparentRight(st: Store, st': Store, lv: map<nat, nat>, m: nat, rows: seq<seq<nat>>, T: nat, p: nat, b: nat,
                         c: nat)
    requires Linked(st, lv, m, rows, 1) && |rows| > 2 && RowRight(st, lv, m, rows[2]) && T in rows[1]
    requires Levelled(st', lv, m) && HungBelow(st, st', m, T, p, b) && b in lv && lv[b] == 0
    requires T == Last(rows[1]) || MaxKey(st', lv, m, T) == MaxKey(st, lv, m, T)
    requires c in rows[2] && c in lv && lv[c] == 2 && c in st && c in st' && st'[c] == st[c]
    requires T in lv && lv[T] == 1
    ensures KeysRight(st', lv, m, c)
  {
    hide Flat, NoDup, Covered, Levelled, MaxKey, HungBelow, RowOk;
    assert NodeOk(st, lv, m, c) by { RootOfLevelled(st, lv, m, c); }
    forall i | 0 <= i < st[c].numKeys
      ensures st[c].keys[i] == MaxKey(st', lv, m, st[c].children[i])
    {
      var d := st[c].children[i];
      assert st[c].keys[i] == MaxKey(st, lv, m, d);
      if d != T {
        OtherMax(st, st', lv, m, T, p, b, d);
      } else if T == Last(rows[1]) {
        NotLastInRow(st, lv, m, rows, c, i);
      }
    }
    RootOfLevelled(st', lv, m, c);
  }

  lemma OtherMax(st: Store, st': Store, lv: map<nat, nat>, m: nat, T: nat, p: nat, b: nat, d: nat)
    requires Levelled(st, lv, m) && Levelled(st', lv, m) && HungBelow(st, st', m, T, p, b)
    requires T in lv && lv[T] == 1 && b in lv && lv[b] == 0 && d in lv && lv[d] == 1 && d != T
    ensures MaxKey(st', lv, m, d) == MaxKey(st, lv, m, d)
  {
    OtherSame(st, st', lv, m, T, p, b, d);
    if KidsAt(st, d) != [] {
      MaxOfLast(st, lv, m, d);
      MaxOfLast(st', lv, m, d);
      MaxOfKids(st, lv, m, d);
      LeafKept(st, st', lv, m, T, p, b, Last(KidsAt(st, d)));
    }
  }

  /** A child with a sibling to its right is not the last of its row. */
  lemma NotLastInRow(st: Store, lv: map<nat, nat>, m: nat, rows: seq<seq<nat>>, c: nat, i: nat)
    requires Linked(st, lv, m, rows, 1) && |rows| > 2 && c in rows[2] && c in st
    requires i < st[c].numKeys < |st[c].children| && st[c].children[st[c].numKeys] != 0
    ensures st[c].children[i] in rows[1] && st[c].children[i] != Last(rows[1])
  {
    hide Covered, Levelled, Flat, NoDup;
    LinkedRow(st, lv, m, rows, 1, 2);
    LinkedRow(st, lv, m, rows, 1, 1);
    var j :| 0 <= j < |rows[2]| && rows[2][j] == c;
    FlatPosition(st, rows[2], j, i);
    FlatPosition(st, rows[2], j, st[c].numKeys);
    var k := |Flat(st, rows[2][..j])| + i;
    DistinctAt(rows[1], k, |rows[1]| - 1);
  }

  lemma DistinctAt(s: seq<nat>, i: nat, j: nat)
    requires NoDup(s) && i < j < |s|
    ensures s[i] != s[j]
  {
  }

  /**
    The last step of an insertion into a sorted tree. The leaf goes to its rank, and the tree stays
    sorted, exactly if the place behind T's last child is not needed while T's last slot is filled.
   */
  lemma HangLeaf(st: Store, st': Store, lv: map<nat, nat>, m: nat, rows: seq<seq<nat>>, i: nat, p: nat, b: nat)
    requires Ordered(st, lv, m, rows) && i < |rows[1]| && b in lv && lv[b] == 0 && b in st && b in st'
    requires st[b].key != 0 && Absent(st, Flat(st, rows[1]), st[b].key)
    requires Last(rows)[0] in lv && lv[Last(rows)[0]] >= 1 && rows[1][i] == Descend(st, lv, m, Last(rows)[0], st[b].key)
    requires Known(st, lv, m, KidsAt(st, rows[1][i])) && rows[1][i] in st
    requires p == Min(Place(st, lv, m, KidsAt(st, rows[1][i]), st[b].key), st[rows[1][i]].numKeys)
    requires HungBelow(st, st', m, rows[1][i], p, b) && Linked(st', lv, m, rows, 1)
    requires rows[1][i] in lv && lv[rows[1][i]] == 1 && KeysRight(st', lv, m, rows[1][i])
    requires |Flat(st, rows[1][..i])| + p <= |Flat(st, rows[1])|
    requires Flat(st', rows[1]) == InsertAt(Flat(st, rows[1]), |Flat(st, rows[1][..i])| + p, b)
    ensures Known(st, lv, m, Flat(st, rows[1]))
    ensures var fits, L := Fits(st, lv, m, rows[1][i], st[b].key), Flat(st, rows[1]);
      && |Flat(st, rows[1][..i])| + p == (if fits then Rank(st, lv, m, L, st[b].key) else |L| - 1)
      && (!fits ==> Rank(st, lv, m, L, st[b].key) == |L| > 0)
      && (Sorted(st', lv, m, rows) <==> fits) && (Ordered(st', lv, m, rows) <==> fits)
  {
    hide Flat, NoDup, Covered, Levelled, MaxKey, KidsAt, HungBelow, Ascending, Rank, Place, Descend, InsertAt,
         RowRight, RowOk, KeysRight, Fits;
    var T, key, L := rows[1][i], st[b].key, Flat(st, rows[1]);
    var q := |Flat(st, rows[1][..i])| + p;
    PlaceInTree(st, lv, m, rows, i, key);
    LeafMax(st, lv, m, rows);
    LeafMax(st', lv, m, rows);
    LeafKept(st, st', lv, m, T, p, b, b);
    forall c | c in L
      ensures MaxKey(st', lv, m, c) == MaxKey(st, lv, m, c) != MaxKey(st', lv, m, b)
      ensures c in st && c in st' && st'[c].key == st[c].key
    {
      LeafKept(st, st', lv, m, T, p, b, c);
    }
    AscendsAtRank(st, st', lv, m, L, q, b);
    InsertAtMembers(L, q, b);
    if Fits(st, lv, m, T, key) {
      ParentsRight(st, st', lv, m, rows, T, p, b);
      if |rows| > 2 {
        LastOrKept(st, st', lv, m, rows, i, p, b);
        GrandparentsRight(st, st', lv, m, rows, T, p, b);
      }
    }
  }

  /** Only the last parent of leaves can get a new maximum. */
  lemma LastOrKept(st: Store, st': Store, lv: map<nat, nat>, m: nat, rows: seq<seq<nat>>, i: nat, p: nat, b: nat)
    requires Sorted(st, lv, m, rows) && i < |rows[1]| && |rows| > 2
    requires b in lv && lv[b] == 0 && b in st && Levelled(st', lv, m)
    requires Absent(st, Flat(st, rows[1]), st[b].key)
    requires Last(rows)[0] in lv && lv[Last(rows)[0]] >= 1 && rows[1][i] == Descend(st, lv, m, Last(rows)[0], st[b].key)
    requires HungBelow(st, st', m, rows[1][i], p, b) && rows[1][i] in lv && lv[rows[1][i]] == 1
    requires Known(st, lv, m, KidsAt(st, rows[1][i]))
    requires p == Min(Place(st, lv, m, KidsAt(st, rows[1][i]), st[b].key), st[rows[1][i]].numKeys)
    ensures rows[1][i] == Last(rows[1]) || MaxKey(st', lv, m, rows[1][i]) == MaxKey(st, lv, m, rows[1][i])
  {
    hide Flat, NoDup, Covered, Levelled, MaxKey, KidsAt, Kids, HungBelow, Ascending, Rank, Descend, RowOk, Pick;
    var T, key := rows[1][i], st[b].key;
    LeavesExist(st, lv, m, rows);
    AllParents(st, lv, m, rows, 1);
    TargetIsParent(st, lv, m, rows, key);
    RankSplits(st, lv, m, rows[1], key);
    NodeShape(st, lv, m, T);
    MaxOfLast(st, lv, m, T);
    if T != Last(rows[1]) {
      MaxReaches(st, lv, m, rows[1], key);
      PlaceInside(st, lv, m, KidsAt(st, T), key);
      MaxAfterHang(st, st', lv, m, T, p, b);
    }
  }

  lemma MaxReaches(st: Store, lv: map<nat, nat>, m: nat, row: seq<nat>, key: nat)
    requires Known(st, lv, m, row) && row != [] && Pick(st, lv, m, row, key) != Last(row)
    ensures key <= MaxKey(st, lv, m, Pick(st, lv, m, row, key))
  {
    RankSplits(st, lv, m, row, key);
  }

  lemma PlaceInside(st: Store, lv: map<nat, nat>, m: nat, row: seq<nat>, key: nat)
    requires Known(st, lv, m, row) && row != [] && key <= MaxKey(st, lv, m, Last(row))
    ensures Place(st, lv, m, row, key) < |row|
  {
  }

  lemma LeavesExist(st: Store, lv: map<nat, nat>, m: nat, rows: seq<seq<nat>>)
    requires Linked(st, lv, m, rows, 1) && |rows| > 2
    ensures Flat(st, rows[1]) != []
  {
    hide NoDup, Covered, Flat, KidsAt;
    LinkedRow(st, lv, m, rows, 1, 1);
    NotEmptyBelow(st, lv, m, rows, 1);
    var c := rows[1][0];
    assert c in rows[1];
    RootByParent(st, lv, m, rows, 1, 1, c);
    RowFacts(st, lv, rows[1], 1);
    SomeKid(st, lv, m, c);
    FlatMembers(st, rows[1]);
    assert KidsAt(st, c)[0] in KidsAt(st, c);
    assert KidsAt(st, c)[0] in Flat(st, rows[1]);
  }

  lemma SomeKid(st: Store, lv: map<nat, nat>, m: nat, c: nat)
    requires Levelled(st, lv, m) && c in lv && lv[c] >= 1 && c in st && st[c].parent != 0
    ensures KidsAt(st, c) != []
  {
    assert NodeOk(st, lv, m, c);
  }

  // ----- A split on the way -----

  lemma LeafAfterSplit(st: Store, st': Store, lv: map<nat, nat>, lv': map<nat, nat>, m: nat, c: nat)
    requires Levelled(st, lv, m) && Levelled(st', lv', m) && LowerKept(st, st', lv, lv', 1) && c in lv && lv[c] == 0
    ensures c in st && c in st' && c in lv' && lv'[c] == 0 && st'[c].key == st[c].key
    ensures MaxKey(st', lv', m, c) == MaxKey(st, lv, m, c) == st[c].key
  {
  }

  /** Splitting a parent of leaves keeps the tree sorted and its keys right. */
  lemma SplitKeepsOrder(st: Store, st': Store, lv: map<nat, nat>, lv': map<nat, nat>, mid: nat,
                        rows: seq<seq<nat>>, rows': seq<seq<nat>>, T: nat, lo: nat, b: nat)
    requires Ordered(st, lv, 2 * mid, rows) && T in rows[1]
    requires SplitAt(st, st', lv, lv', mid, rows, rows', 1, T, lo, b)
    requires Flat(st', rows'[1]) == Flat(st, rows[1])
    requires |rows'| > 2 ==> RowRight(st', lv', 2 * mid, rows'[2])
    ensures Ordered(st', lv', 2 * mid, rows')
  {
    hide Flat, NoDup, Covered, Levelled, MaxKey, KidsAt, Halves, LowerKept, RowOk, KeysRight, Part;
    var m, L := 2 * mid, Flat(st, rows[1]);
    LeafMax(st, lv, m, rows);
    LinkedRow(st, lv, m, rows, 1, 1);
    LinkedRow(st', lv', m, rows', 1, 1);
    forall c | c in L
      ensures c in lv && c in lv' && c in st && c in st'
      ensures MaxKey(st', lv', m, c) == MaxKey(st, lv, m, c) && st'[c].key == st[c].key
    {
      LeafAfterSplit(st, st', lv, lv', m, c);
    }
    AscendingIntro(st', lv', m, L);
    SplitSources(st, st', lv, mid, rows[1], rows'[1], T, lo, b);
    RowFacts(st', lv', rows'[1], 1);
    RowFacts(st, lv, rows[1], 1);
    forall c | c in rows'[1]
      ensures c in lv' && lv'[c] >= 1 && KeysRight(st', lv', m, c)
    {
      var s, off :| s in rows[1] && s in st && Part(st'[c], st[s], off);
      FlatMembers(st', rows'[1]);
      PartRight(st, st', lv, lv', m, s, c, off);
    }
  }

  lemma SplitSources(st: Store, st': Store, lv: map<nat, nat>, mid: nat, row: seq<nat>, row': seq<nat>, T: nat, lo: nat,
                     b: nat)
    requires Levelled(st, lv, 2 * mid) && RowOk(st, lv, row, 1) && T in row
    requires lo in st' && b in st' && Halves(st[T], st'[lo], st'[b], mid)
    requires forall c | c in row' && c != lo && c != b :: c in row && SameButParent(st, st', c)
    ensures forall c | c in row' :: HasSource(st, st', row, c)
  {
    forall c | c in row'
      ensures HasSource(st, st', row, c)
    {
      if c == lo {
        assert Part(st'[c], st[T], 0);
      } else if c == b {
        assert Part(st'[c], st[T], mid + 1);
      } else {
        assert NodeOk(st, lv, 2 * mid, c);
        assert Part(st'[c], st[c], 0);
      }
    }
  }

  /** A leaf below a parent of leaves. */
  lemma KidBelowMax(st: Store, lv: map<nat, nat>, m: nat, rows: seq<seq<nat>>, c: nat, x: nat)
    requires Sorted(st, lv, m, rows) && c in rows[1] && x in KidsAt(st, c)
    ensures x in Flat(st, rows[1]) && c in lv && c in st && x in lv && x in st
    ensures MaxKey(st, lv, m, c) >= MaxKey(st, lv, m, x) == st[x].key
    ensures x == Last(Flat(st, rows[1])) ==> x == Last(KidsAt(st, c)) && MaxKey(st, lv, m, c) == st[x].key
    ensures KidsAt(st, c) == Kids(st[c]) && st[c].numKeys < |st[c].children|
  {
    hide *;
    SortedFacts(st, lv, m, rows);
    LinkedRow(st, lv, m, rows, 1, 1);
    RowFacts(st, lv, rows[1], 1);
    LeafMax(st, lv, m, rows);
    FlatMembers(st, rows[1]);
    MaxOfLast(st, lv, m, c);
    NodeShape(st, lv, m, c);
    var i :| 0 <= i < |rows[1]| && rows[1][i] == c;
    FlatAround(st, rows[1], i);
    MiddleMax(st, lv, m, Flat(st, rows[1][..i]), KidsAt(st, c), Flat(st, rows[1][i + 1..]), x);
  }

  lemma SortedFacts(st: Store, lv: map<nat, nat>, m: nat, rows: seq<seq<nat>>)
    requires Sorted(st, lv, m, rows)
    ensures |rows| > 1 && Linked(st, lv, m, rows, 1) && Levelled(st, lv, m) && Ascending(st, lv, m, Flat(st, rows[1]))
  {
  }

  lemma MiddleMax(st: Store, lv: map<nat, nat>, m: nat, a: seq<nat>, k: seq<nat>, c: seq<nat>, x: nat)
    requires Ascending(st, lv, m, a + k + c) && NoDup(a + k + c) && x in k
    ensures x in a + k + c && Known(st, lv, m, k) && MaxKey(st, lv, m, x) <= MaxKey(st, lv, m, Last(k))
    ensures x == Last(a + k + c) ==> x == Last(k)
  {
    hide MaxKey, Levelled, Ascending, NoDup;
    AscendingParts(st, lv, m, a + k, c);
    AscendingParts(st, lv, m, a, k);
    AscendingKnown(st, lv, m, k);
    LastIsMost(st, lv, m, k);
    if x == Last(a + k + c) { LastInMiddle(a, k, c, x); }
  }

  lemma LastInMiddle(a: seq<nat>, k: seq<nat>, c: seq<nat>, x: nat)
    requires NoDup(a + k + c) && x in k && x == Last(a + k + c)
    ensures x == Last(k)
  {
    var l := a + k + c;
    var i :| 0 <= i < |k| && k[i] == x;
    assert l[|a| + i] == x;
    assert |a| + i == |l| - 1;
  }

  /** The picked leaf has its key above the one sought, or is the last leaf. */
  lemma PickedLeaf(st: Store, lv: map<nat, nat>, m: nat, rows: seq<seq<nat>>, key: nat)
    requires Sorted(st, lv, m, rows) && Absent(st, Flat(st, rows[1]), key) && Flat(st, rows[1]) != []
    ensures Known(st, lv, m, Flat(st, rows[1]))
    ensures var x := Pick(st, lv, m, Flat(st, rows[1]), key);
      x in st && (key < st[x].key || (x == Last(Flat(st, rows[1])) && st[x].key < key))
  {
    hide Flat, NoDup, Covered, Levelled, MaxKey, RowOk, Ascending;
    LeafMax(st, lv, m, rows);
    RankSplits(st, lv, m, Flat(st, rows[1]), key);
  }

  /**
    After the split the insertion finds a parent with room, one of the two halves of the old target,
    and there the leaf fits exactly if it did before.
   */
  lemma TargetAfterSplit(st: Store, st': Store, lv: map<nat, nat>, lv': map<nat, nat>, mid: nat,
                         rows: seq<seq<nat>>, rows': seq<seq<nat>>, T: nat, lo: nat, b: nat, key: nat)
    requires Ordered(st, lv, 2 * mid, rows) && Ordered(st', lv', 2 * mid, rows') && T in rows[1]
    requires SplitAt(st, st', lv, lv', mid, rows, rows', 1, T, lo, b)
    requires Flat(st', rows'[1]) == Flat(st, rows[1]) != [] && Absent(st, Flat(st, rows[1]), key)
    requires Last(rows)[0] in lv && lv[Last(rows)[0]] >= 1 && T == Descend(st, lv, 2 * mid, Last(rows)[0], key)
    ensures Last(rows')[0] in lv' && lv'[Last(rows')[0]] >= 1
    ensures var T' := Descend(st', lv', 2 * mid, Last(rows')[0], key);
      && T' in rows'[1] && T' in st' && st'[T'].numKeys < 2 * mid
      && (Fits(st', lv', 2 * mid, T', key) <==> Fits(st, lv, 2 * mid, T, key))
  {
    hide Flat, NoDup, Covered, Levelled, MaxKey, KidsAt, Halves, LowerKept, RowOk, KeysRight, Part, Pick, Descend,
         Ascending, RowRight, SameButParent;
    var m, L := 2 * mid, Flat(st, rows[1]);
    TargetIsParent(st, lv, m, rows, key);
    SamePick(st, st', lv, lv', m, rows, rows', key);
    var x := Pick(st, lv, m, L, key);
    TargetIsParent(st', lv', m, rows', key);
    RoomAfterSplit(st, st', lv, lv', mid, rows, rows', 1, T, lo, b, x);
    var T' := st'[x].parent;
    PickedLeaf(st, lv, m, rows, key);
    LeafMax(st, lv, m, rows);
    LinkedRow(st, lv, m, rows, 1, 1);
    LinkedRow(st', lv', m, rows', 1, 1);
    LeafAfterSplit(st, st', lv, lv', m, x);
    KidBelowMax(st, lv, m, rows, T, x);
    KidBelowMax(st', lv', m, rows', T', x);
    if x == Last(L) {
      var i :| 0 <= i < |rows[1]| && rows[1][i] == T;
      KidsNoDup(st, rows[1], i);
      LastSlots(st, st', mid, T, lo, b, T', x);
    }
  }

  lemma SamePick(st: Store, st': Store, lv: map<nat, nat>, lv': map<nat, nat>, m: nat,
                 rows: seq<seq<nat>>, rows': seq<seq<nat>>, key: nat)
    requires Linked(st, lv, m, rows, 1) && Linked(st', lv', m, rows', 1)
    requires LowerKept(st, st', lv, lv', 1) && Flat(st', rows'[1]) == Flat(st, rows[1]) != []
    ensures Known(st, lv, m, Flat(st, rows[1])) && Known(st', lv', m, Flat(st, rows[1]))
    ensures Pick(st', lv', m, Flat(st, rows[1]), key) == Pick(st, lv, m, Flat(st, rows[1]), key)
  {
    hide Flat, NoDup, Covered, Levelled, MaxKey, KidsAt, LowerKept, RowOk, Pick;
    LeafMax(st, lv, m, rows);
    LeafMax(st', lv', m, rows');
    LinkedRow(st, lv, m, rows, 1, 1);
    LinkedRow(st', lv', m, rows', 1, 1);
    forall c | c in Flat(st, rows[1])
      ensures c in lv && c in lv' && MaxKey(st', lv', m, c) == MaxKey(st, lv, m, c)
    {
      LeafAfterSplit(st, st', lv, lv', m, c);
    }
    PickFrame(st, st', lv, lv', m, Flat(st, rows[1]), key);
  }

  lemma {:induction false} PickFrame(st: Store, st': Store, lv: map<nat, nat>, lv': map<nat, nat>, m: nat,
                                     row: seq<nat>, key: nat)
    requires Known(st, lv, m, row) && Known(st', lv', m, row) && row != []
    requires forall c | c in row :: MaxKey(st', lv', m, c) == MaxKey(st, lv, m, c)
    ensures Pick(st', lv', m, row, key) == Pick(st, lv, m, row, key)
  {
    hide MaxKey, Levelled;
    if |row| > 1 { PickFrame(st, st', lv, lv', m, row[1..], key); }
  }

  /** The last child of a split node has the same kind of slot in its half. */
  lemma LastSlots(st: Store, st': Store, mid: nat, T: nat, lo: nat, b: nat, T': nat, x: nat)
    requires T in st && lo in st' && b in st' && Halves(st[T], st'[lo], st'[b], mid)
    requires (T' == lo || T' == b) && KidsAt(st, T) != [] && KidsAt(st', T') != []
    requires x == Last(KidsAt(st, T)) == Last(KidsAt(st', T')) && NoDup(KidsAt(st, T))
    ensures st[T].numKeys < |st[T].children| && st'[T'].numKeys < |st'[T'].children|
    ensures st'[T'].children[st'[T'].numKeys] != 0 <==> st[T].children[st[T].numKeys] != 0
  {
    HalvesKids(st[T], st'[lo], st'[b], mid);
  }

  /** Where the loop over the keys of a parent stops for a child with the given maximum. */
  ghost predicate StopsAt(n: Node, m: nat, max: nat, i: nat) {
    && |n.keys| == m && i <= m
    && (forall j | 0 <= j < i :: n.keys[j] < max && n.keys[j] != 0)
    && (i < m ==> max <= n.keys[i] || n.keys[i] == 0)
  }

  /** In a sorted tree the keys lead to the position of the child. */
  lemma StopsAtChild(st: Store, lv: map<nat, nat>, m: nat, rows: seq<seq<nat>>, P: nat, T: nat, i: nat)
    requires Ordered(st, lv, m, rows) && |rows| > 2 && P in rows[2] && T in KidsAt(st, P)
    requires P in st && T in lv && StopsAt(st[P], m, MaxKey(st, lv, m, T), i)
    ensures i < |KidsAt(st, P)| && KidsAt(st, P)[i] == T
  {
    hide Flat, NoDup, Covered, Levelled, MaxKey, RowOk, Ascending, Kids, KidsAt;
    LinkedRow(st, lv, m, rows, 1, 2);
    RowFacts(st, lv, rows[2], 2);
    LeavesExist(st, lv, m, rows);
    NodeShape(st, lv, m, P);
    var k :| 0 <= k < |rows[2]| && rows[2][k] == P;
    FlatAround(st, rows[2], k);
    AllAscending(st, lv, m, rows, 1);
    AscendingParts(st, lv, m, Flat(st, rows[2][..k]) + KidsAt(st, P), Flat(st, rows[2][k + 1..]));
    AscendingParts(st, lv, m, Flat(st, rows[2][..k]), KidsAt(st, P));
    var p :| 0 <= p < |KidsAt(st, P)| && KidsAt(st, P)[p] == T;
    forall j | 0 <= j < st[P].numKeys && j < |KidsAt(st, P)|
      ensures st[P].keys[j] == MaxOf(st, lv, m, KidsAt(st, P)[j]) != 0
    {
      KeyOfKid(st, lv, m, rows, P, j);
    }
    forall j | 0 <= j < p
      ensures MaxOf(st, lv, m, KidsAt(st, P)[j]) < MaxKey(st, lv, m, T)
    {
      AscendingAt(st, lv, m, KidsAt(st, P), j, p);
    }
    StopsOnce(st[P], m, MaxKey(st, lv, m, T), i, p);
  }

  ghost function MaxOf(st: Store, lv: map<nat, nat>, m: nat, b: nat): nat {
    if Levelled(st, lv, m) && b in lv then MaxKey(st, lv, m, b) else 0
  }

  lemma StopsOnce(n: Node, m: nat, max: nat, i: nat, p: nat)
    requires StopsAt(n, m, max, i) && Shape(n, m) && p < Count(n)
    requires forall j | 0 <= j < p :: n.keys[j] < max && n.keys[j] != 0
    requires p < n.numKeys ==> n.keys[p] == max
    ensures i == p
  {
    assert p < m ==> max <= n.keys[p] || n.keys[p] == 0;
    assert i < m ==> max <= n.keys[i] || n.keys[i] == 0;
  }

  lemma KeyOfKid(st: Store, lv: map<nat, nat>, m: nat, rows: seq<seq<nat>>, P: nat, j: nat)
    requires Ordered(st, lv, m, rows) && |rows| > 2 && P in rows[2] && P in st && j < |KidsAt(st, P)|
    requires j < st[P].numKeys <= |st[P].keys|
    ensures st[P].keys[j] == MaxOf(st, lv, m, KidsAt(st, P)[j]) != 0
  {
    hide Flat, NoDup, Covered, Levelled, MaxKey, RowOk, Ascending;
    LinkedRow(st, lv, m, rows, 1, 2);
    RowFacts(st, lv, rows[2], 2);
    LinkedRow(st, lv, m, rows, 1, 1);
    RowFacts(st, lv, rows[1], 1);
    NodeShape(st, lv, m, P);
    var d := KidsAt(st, P)[j];
    assert d == st[P].children[j] && d in KidsAt(st, P);
    FlatMembers(st, rows[2]);
    LeavesExist(st, lv, m, rows);
    AllParents(st, lv, m, rows, 1);
    AscendingUp(st, lv, m, rows[1]);
    LeafMax(st, lv, m, rows);
    hide Kids, KidsAt;
    assert KeysRight(st, lv, m, P);
    assert d in rows[1];
  }

  /** Behind the last key of a full parent of leaves with an empty last slot. */
  lemma AppendPlace(st: Store, lv: map<nat, nat>, m: nat, rows: seq<seq<nat>>, T: nat, key: nat)
    requires Ordered(st, lv, m, rows) && T in rows[1] && T in st && m > 0
    requires st[T].numKeys == m == |st[T].keys| && |st[T].children| == m + 1
    requires st[T].keys[m - 1] < key && st[T].children[m] == 0
    ensures Known(st, lv, m, KidsAt(st, T)) && Place(st, lv, m, KidsAt(st, T), key) == m == |KidsAt(st, T)|
  {
    hide Flat, NoDup, Covered, Levelled, MaxKey, RowOk, Ascending;
    LinkedRow(st, lv, m, rows, 1, 1);
    RowFacts(st, lv, rows[1], 1);
    NodeShape(st, lv, m, T);
    MaxOfLast(st, lv, m, T);
    assert KeysRight(st, lv, m, T);
    assert Last(KidsAt(st, T)) == st[T].children[m - 1];
  }
}
