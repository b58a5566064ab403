/** A leaf that has been written but hangs nowhere yet changes nothing about the tree. */
module BTreeLeaves {
  import opened Sequences
  import opened BTreeModel
  import opened BTreeSplits
  import opened BTreeOrder
  import opened BTreeInsertion

  ghost predicate WithLeaf(st: Store, st': Store, lv: map<nat, nat>, lv': map<nat, nat>, b: nat) {
    && b !in st && b !in lv && b != 0 && b in st' && st'[b].isLeaf
    && st' == st[b := st'[b]] && lv' == lv[b := 0]
  }

  lemma LeafLevelled(st: Store, st': Store, lv: map<nat, nat>, lv': map<nat, nat>, m: nat, b: nat)
    requires Levelled(st, lv, m) && WithLeaf(st, st', lv, lv', b)
    ensures Levelled(st', lv', m)
    ensures forall c | c in lv ::
      c in lv' && lv'[c] == lv[c] && c in st && c in st' && st'[c] == st[c] && KidsAt(st', c) == KidsAt(st, c)
  {
    forall c | c in lv'
      ensures c != 0 && c in st' && NodeOk(st', lv', m, c)
    {
      if c != b { assert NodeOk(st, lv, m, c); }
    }
  }

  lemma LeafMaxKept(st: Store, st': Store, lv: map<nat, nat>, lv': map<nat, nat>, m: nat, b: nat)
    requires Levelled(st, lv, m) && WithLeaf(st, st', lv, lv', b)
    ensures Levelled(st', lv', m) && forall c | c in lv :: c in lv' && MaxKey(st', lv', m, c) == MaxKey(st, lv, m, c)
  {
    LeafLevelled(st, st', lv, lv', m, b);
    hide MaxKey, Levelled, KidsAt;
    forall c | c in lv
      ensures MaxKey(st', lv', m, c) == MaxKey(st, lv, m, c)
    {
      MaxKeyFrame(st, st', lv, lv', m, c);
    }
  }

  lemma LeafLinked(st: Store, st': Store, lv: map<nat, nat>, lv': map<nat, nat>, m: nat, rows: seq<seq<nat>>, b: nat)
    requires Linked(st, lv, m, rows, 1) && WithLeaf(st, st', lv, lv', b)
    ensures Linked(st', lv', m, rows, 1) && Flat(st', rows[1]) == Flat(st, rows[1])
    ensures b !in Flat(st, rows[1])
  {
    hide Flat, NoDup, Levelled, KidsAt, RowOk;
    LinkedLeafLevel(st, lv, m, rows);
    LeafLevelled(st, st', lv, lv', m, b);
    forall h | 1 <= h < |rows|
      ensures RowOk(st', lv', rows[h], h) && Flat(st', rows[h]) == Flat(st, rows[h])
    {
      LeafRow(st, st', lv, lv', m, rows[h], h, b);
    }
    LastRowIn(st, lv, m, rows);
  }

  lemma LinkedLeafLevel(st: Store, lv: map<nat, nat>, m: nat, rows: seq<seq<nat>>)
    requires Linked(st, lv, m, rows, 1)
    ensures forall c | c in Flat(st, rows[1]) :: c in st
  {
    hide MaxKey;
    LeafMax(st, lv, m, rows);
  }

  lemma LastRowIn(st: Store, lv: map<nat, nat>, m: nat, rows: seq<seq<nat>>)
    requires Linked(st, lv, m, rows, 1)
    ensures Last(rows)[0] in st && Last(rows)[0] in lv
  {
    assert Last(rows)[0] in Last(rows);
  }

  lemma LeafRow(st: Store, st': Store, lv: map<nat, nat>, lv': map<nat, nat>, m: nat, row: seq<nat>, h: nat, b: nat)
    requires Levelled(st, lv, m) && WithLeaf(st, st', lv, lv', b) && RowOk(st, lv, row, h) && h >= 1
    ensures RowOk(st', lv', row, h) && Flat(st', row) == Flat(st, row)
  {
    LeafLevelled(st, st', lv, lv', m, b);
    KidsBelow(st, lv, m, row, h);
    hide Levelled, KidsAt, NoDup;
    FlatFrame(st, st', row);
  }

  lemma LeafKeepsOrder(st: Store, st': Store, lv: map<nat, nat>, lv': map<nat, nat>, m: nat, rows: seq<seq<nat>>,
                       b: nat)
    requires Ordered(st, lv, m, rows) && WithLeaf(st, st', lv, lv', b)
    ensures Ordered(st', lv', m, rows) && Flat(st', rows[1]) == Flat(st, rows[1])
  {
    hide Flat, NoDup, Levelled, KidsAt, Linked, MaxKey;
    OrderedLinked(st, lv, m, rows);
    LeafLinked(st, st', lv, lv', m, rows, b);
    LeafMaxKept(st, st', lv, lv', m, b);
    LeafLevelled(st, st', lv, lv', m, b);
    LeafRowRight(st, st', lv, lv', m, rows[1], b);
    if |rows| > 2 { LeafRowRight(st, st', lv, lv', m, rows[2], b); }
  }

  lemma OrderedLinked(st: Store, lv: map<nat, nat>, m: nat, rows: seq<seq<nat>>)
    requires Ordered(st, lv, m, rows)
    ensures Linked(st, lv, m, rows, 1) && |rows| > 1 && Levelled(st, lv, m)
    ensures RowRight(st, lv, m, rows[1]) && (|rows| > 2 ==> RowRight(st, lv, m, rows[2]))
  {
  }

  lemma LeafRowRight(st: Store, st': Store, lv: map<nat, nat>, lv': map<nat, nat>, m: nat, row: seq<nat>, b: nat)
    requires RowRight(st, lv, m, row) && WithLeaf(st, st', lv, lv', b)
    ensures RowRight(st', lv', m, row)
  {
    LeafMaxKept(st, st', lv, lv', m, b);
    LeafLevelled(st, st', lv, lv', m, b);
    hide Levelled, MaxKey, Part, KeysRight, KidsAt;
    forall c | c in row
      ensures c in lv' && lv'[c] >= 1 && KeysRight(st', lv', m, c)
    {
      MaxOfKids(st, lv, m, c);
      WholePart(st, lv, m, c);
      PartRight(st, st', lv, lv', m, c, c, 0);
    }
  }

  lemma WholePart(st: Store, lv: map<nat, nat>, m: nat, c: nat)
    requires Levelled(st, lv, m) && c in lv && lv[c] >= 1
    ensures c in st && Part(st[c], st[c], 0)
  {
    assert NodeOk(st, lv, m, c);
  }

  lemma {:induction false} LeafDescend(st: Store, st': Store, lv: map<nat, nat>, lv': map<nat, nat>, m: nat, b: nat,
                                       c: nat, key: nat)
    requires Levelled(st, lv, m) && WithLeaf(st, st', lv, lv', b) && c in lv && lv[c] >= 1
    ensures Levelled(st', lv', m) && c in lv' && lv'[c] == lv[c]
    ensures Descend(st', lv', m, c, key) == Descend(st, lv, m, c, key)
    decreases lv[c]
  {
    LeafLevelled(st, st', lv, lv', m, b);
    LeafMaxKept(st, st', lv, lv', m, b);
    if lv[c] > 1 {
      assert NodeOk(st, lv, m, c);
      MaxOfKids(st, lv, m, c);
      NodeShape(st, lv, m, c);
      hide Levelled, MaxKey, Shape;
      PickFrame(st, st', lv, lv', m, Kids(st[c]), key);
      LeafDescend(st, st', lv, lv', m, b, Pick(st, lv, m, Kids(st[c]), key), key);
    }
  }

  lemma LeafFits(st: Store, st': Store, lv: map<nat, nat>, lv': map<nat, nat>, m: nat, b: nat, T: nat, key: nat)
    requires Levelled(st, lv, m) && WithLeaf(st, st', lv, lv', b) && T in lv
    ensures Fits(st', lv', m, T, key) <==> Fits(st, lv, m, T, key)
  {
    LeafLevelled(st, st', lv, lv', m, b);
    LeafMaxKept(st, st', lv, lv', m, b);
    hide Levelled, MaxKey;
  }

  /** A rank is a matter of the maxima alone. */
  lemma {:induction false} RankFrame(st: Store, st': Store, lv: map<nat, nat>, lv': map<nat, nat>, m: nat,
                                     row: seq<nat>, key: nat)
    requires Known(st, lv, m, row) && Known(st', lv', m, row)
    requires forall c | c in row :: MaxKey(st', lv', m, c) == MaxKey(st, lv, m, c)
    ensures Rank(st', lv', m, row, key) == Rank(st, lv, m, row, key)
  {
    hide MaxKey, Levelled;
    if row != [] { RankFrame(st, st', lv, lv', m, row[1..], key); }
  }

  // ----- A leaf that hangs nowhere goes -----

  lemma DropLevelled(st: Store, st': Store, lv: map<nat, nat>, lv': map<nat, nat>, m: nat, rows: seq<seq<nat>>, b: nat)
    requires Linked(st', lv', m, rows, 1) && b in lv' && lv'[b] == 0 && b !in Flat(st', rows[1])
    requires st == st' - {b} && lv == lv' - {b}
    ensures Levelled(st, lv, m) && WithLeaf(st, st', lv, lv', b)
  {
    hide *;
    LinkedRow1(st', lv', m, rows);
    RootOfLevelled(st', lv', m, b);
    LeafIsLeaf(st', lv', m, b);
    FlatMembers(st', rows[1]);
    forall c | c in lv
      ensures c != 0 && c in st && NodeOk(st, lv, m, c)
    {
      RootOfLevelled(st', lv', m, c);
      OutOfKids(lv', rows, c);
      DropOk(st, st', lv, lv', m, b, c);
    }
    LevelledIntro(st, lv, m);
    WithLeafIntro(st, st', lv, lv', b);
  }

  lemma LinkedRow1(st: Store, lv: map<nat, nat>, m: nat, rows: seq<seq<nat>>)
    requires Linked(st, lv, m, rows, 1)
    ensures Levelled(st, lv, m) && |rows| > 1 && Covered(lv, rows, 1)
  {
  }

  lemma LeafIsLeaf(st: Store, lv: map<nat, nat>, m: nat, b: nat)
    requires b in lv && b in st && NodeOk(st, lv, m, b) && lv[b] == 0
    ensures st[b].isLeaf
  {
  }

  lemma OutOfKids(lv: map<nat, nat>, rows: seq<seq<nat>>, c: nat)
    requires Covered(lv, rows, 1) && c in lv && |rows| > 1
    ensures lv[c] == 1 ==> c in rows[1]
  {
  }

  lemma WithLeafIntro(st: Store, st': Store, lv: map<nat, nat>, lv': map<nat, nat>, b: nat)
    requires b in st' && b in lv' && lv'[b] == 0 && b != 0 && st'[b].isLeaf && st == st' - {b} && lv == lv' - {b}
    ensures WithLeaf(st, st', lv, lv', b)
  {
  }

  lemma DropOk(st: Store, st': Store, lv: map<nat, nat>, lv': map<nat, nat>, m: nat, b: nat, c: nat)
    requires c in st' && c in lv' && NodeOk(st', lv', m, c) && c != b && b in lv' && lv'[b] == 0
    requires lv'[c] == 1 ==> b !in KidsAt(st', c)
    requires st == st' - {b} && lv == lv' - {b}
    ensures c in st && c in lv && NodeOk(st, lv, m, c)
  {
    if lv[c] >= 1 {
      NodeKids(st', lv', m, c);
      hide Shape;
      NodeOkIntro(st, lv, m, c);
    }
  }

  lemma DropLinked(st: Store, st': Store, lv: map<nat, nat>, lv': map<nat, nat>, m: nat, rows: seq<seq<nat>>, b: nat)
    requires Linked(st', lv', m, rows, 1) && b in lv' && lv'[b] == 0 && b !in Flat(st', rows[1])
    requires st == st' - {b} && lv == lv' - {b}
    ensures Linked(st, lv, m, rows, 1) && Flat(st, rows[1]) == Flat(st', rows[1])
  {
    hide Flat, NoDup, Levelled, KidsAt, RowOk;
    DropLevelled(st, st', lv, lv', m, rows, b);
    LeafLevelled(st, st', lv, lv', m, b);
    forall h | 1 <= h < |rows|
      ensures RowOk(st, lv, rows[h], h) && Flat(st, rows[h]) == Flat(st', rows[h])
    {
      DropRow(st, st', lv, lv', m, rows[h], h, rows, b);
    }
    LastRowIn(st', lv', m, rows);
    LastRowHigh(st', lv', m, rows);
  }

  lemma LastRowHigh(st: Store, lv: map<nat, nat>, m: nat, rows: seq<seq<nat>>)
    requires Linked(st, lv, m, rows, 1)
    ensures Last(rows)[0] in lv && lv[Last(rows)[0]] >= 1
  {
    assert Last(rows)[0] in Last(rows);
  }

  lemma DropRow(st: Store, st': Store, lv: map<nat, nat>, lv': map<nat, nat>, m: nat, row: seq<nat>, h: nat,
                rows: seq<seq<nat>>, b: nat)
    requires Levelled(st, lv, m) && Levelled(st', lv', m) && WithLeaf(st, st', lv, lv', b)
    requires RowOk(st', lv', row, h) && h >= 1
    requires lv'[b] == 0 && b in lv' && |rows| > 1 && b !in Flat(st', rows[1]) && (h == 1 ==> row == rows[1])
    ensures RowOk(st, lv, row, h) && Flat(st, row) == Flat(st', row)
  {
    hide *;
    LeafLevelled(st, st', lv, lv', m, b);
    KidsBelow(st', lv', m, row, h);
    FlatMembers(st', row);
    RowFacts(st', lv', row, h);
    RowParents(st', lv', row, h);
    assert lv == lv' - {b} && st == st' - {b} by { WithoutLeaf(st, st', lv, lv', b); }
    forall c, d | c in row && d in KidsAt(st, c)
      ensures d in st && st[d].parent == c
    {
      assert d in KidsAt(st', c);
    }
    RowOkIntro(st, lv, row, h);
    FlatFrame(st', st, row);
  }

  lemma WithoutLeaf(st: Store, st': Store, lv: map<nat, nat>, lv': map<nat, nat>, b: nat)
    requires WithLeaf(st, st', lv, lv', b)
    ensures lv == lv' - {b} && st == st' - {b}
  {
  }

  lemma DropKeepsOrder(st: Store, st': Store, lv: map<nat, nat>, lv': map<nat, nat>, m: nat, rows: seq<seq<nat>>,
                       b: nat)
    requires Ordered(st', lv', m, rows) && |rows| == 2 && b in lv' && lv'[b] == 0 && b !in Flat(st', rows[1])
    requires st == st' - {b} && lv == lv' - {b}
    ensures Ordered(st, lv, m, rows)
  {
    hide Flat, NoDup, Levelled, KidsAt, Linked, MaxKey, Part, KeysRight;
    OrderedLinked(st', lv', m, rows);
    DropLinked(st, st', lv, lv', m, rows, b);
    DropLevelled(st, st', lv, lv', m, rows, b);
    LeafMaxKept(st, st', lv, lv', m, b);
    LeafLevelled(st, st', lv, lv', m, b);
    LeafMax(st, lv, m, rows);
    LinkedRow(st, lv, m, rows, 1, 1);
    RowFacts(st, lv, rows[1], 1);
    forall c | c in rows[1]
      ensures c in lv && lv[c] >= 1 && KeysRight(st, lv, m, c)
    {
      MaxOfKids(st, lv, m, c);
      WholePart(st', lv', m, c);
      PartRight(st', st, lv', lv, m, c, c, 0);
    }
  }

  // ----- The leaves through an insertion -----

  /** The leaves hold what they held. */
  ghost predicate LeavesKept(st: Store, st': Store, row: seq<nat>) {
    forall c | c in row :: SameButParent(st, st', c)
  }

  lemma KeptWithLeaf(st: Store, st': Store, lv: map<nat, nat>, lv': map<nat, nat>, m: nat, rows: seq<seq<nat>>, b: nat)
    requires Linked(st, lv, m, rows, 1) && WithLeaf(st, st', lv, lv', b)
    ensures LeavesKept(st, st', Flat(st, rows[1]))
  {
    hide Flat, MaxKey;
    LinkedLeafLevel(st, lv, m, rows);
  }

  lemma KeptBySplit(st: Store, st': Store, lv: map<nat, nat>, lv': map<nat, nat>, mid: nat,
                    rows: seq<seq<nat>>, rows': seq<seq<nat>>, T: nat, lo: nat, b: nat)
    requires Linked(st, lv, 2 * mid, rows, 1) && SplitAt(st, st', lv, lv', mid, rows, rows', 1, T, lo, b)
    ensures LeavesKept(st, st', Flat(st, rows[1]))
    ensures multiset(Flat(st', rows'[1])) == multiset(Flat(st, rows[1]))
    ensures forall c | c in lv && lv[c] == 0 ::
      c in st && c in st' && c in lv' && lv'[c] == 0 && SameButParent(st, st', c)
  {
    hide Linked, Flat, MaxKey, Halves;
    LeafMax(st, lv, 2 * mid, rows);
  }

  lemma KeptByHanging(st: Store, st': Store, lv: map<nat, nat>, m: nat, rows: seq<seq<nat>>, T: nat, p: nat, b: nat)
    requires Linked(st, lv, m, rows, 1) && HungBelow(st, st', m, T, p, b) && T in lv && lv[T] == 1
    ensures LeavesKept(st, st', Flat(st, rows[1])) && b in st && b in st' && SameButParent(st, st', b)
    ensures st'.Keys == st.Keys
  {
    hide Linked, Flat, MaxKey, GainsChild;
    LeafMax(st, lv, m, rows);
  }

  lemma KeptTwice(st: Store, st1: Store, st2: Store, row: seq<nat>, row1: seq<nat>)
    requires LeavesKept(st, st1, row) && LeavesKept(st1, st2, row1) && multiset(row) == multiset(row1)
    ensures LeavesKept(st, st2, row)
  {
    forall c | c in row
      ensures SameButParent(st, st2, c)
    {
      assert c in multiset(row) && c in multiset(row1) && c in row1;
      SameTwice(st, st1, st2, c);
    }
  }

  lemma AbsentKept(st: Store, st': Store, row: seq<nat>, key: nat)
    requires LeavesKept(st, st', row) && Absent(st, row, key)
    ensures Absent(st', row, key)
  {
  }

  /** The same leaves with the same keys rank a key alike. */
  lemma RankKept(st: Store, st': Store, lv: map<nat, nat>, lv': map<nat, nat>, m: nat, rows: seq<seq<nat>>,
                 rows': seq<seq<nat>>, key: nat)
    requires Linked(st, lv, m, rows, 1) && Linked(st', lv', m, rows', 1) && Flat(st', rows'[1]) == Flat(st, rows[1])
    requires LeavesKept(st, st', Flat(st, rows[1]))
    ensures Known(st, lv, m, Flat(st, rows[1])) && Known(st', lv', m, Flat(st, rows[1]))
    ensures Rank(st', lv', m, Flat(st, rows[1]), key) == Rank(st, lv, m, Flat(st, rows[1]), key)
  {
    hide Linked, Flat, MaxKey, Levelled;
    LinkedIndex(st, lv, m, rows, 1);
    LeafMax(st, lv, m, rows);
    LeafMax(st', lv', m, rows');
    RankFrame(st, st', lv, lv', m, Flat(st, rows[1]), key);
  }
}
