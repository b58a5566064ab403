/** What a split of a full node leaves behind, at its own height, above and below. */
module BTreeSplits {
  import opened Sequences
  import opened BTreeModel

  /**
    The full node T at height k has been split into lo and b: the tree above is whole again, nothing
    below has changed but parents, and the row below holds the same blocks.
   */
  ghost predicate SplitAt(st: Store, st': Store, lv: map<nat, nat>, lv': map<nat, nat>, mid: nat,
                          rows: seq<seq<nat>>, rows': seq<seq<nat>>, k: nat, T: nat, lo: nat, b: nat)
  {
    && 1 <= k < |rows| <= |rows'| && rows'[..k] == rows[..k]
    && Linked(st', lv', 2 * mid, rows', k)
    && LowerKept(st, st', lv, lv', k)
    && T in st && lo in rows'[k] && b in rows'[k] && lo in st' && b in st' && Halves(st[T], st'[lo], st'[b], mid)
    && (forall c | c in rows'[k] && c != lo && c != b :: c in rows[k] && c != T && SameButParent(st, st', c))
    && multiset(Flat(st', rows'[k])) == multiset(Flat(st, rows[k]))
  }

  ghost predicate SameButParent(st: Store, st': Store, c: nat) {
    c in st && c in st' && st'[c] == st[c].(parent := st'[c].parent)
  }

  /** After a split above it, a child of T finds a parent with room. */
  lemma RoomAfterSplit(st: Store, st': Store, lv: map<nat, nat>, lv': map<nat, nat>, mid: nat,
                       rows: seq<seq<nat>>, rows': seq<seq<nat>>, k: nat, T: nat, lo: nat, b: nat, child: nat)
    requires Linked(st, lv, 2 * mid, rows, k) && T in rows[k] && child in KidsAt(st, T)
    requires SplitAt(st, st', lv, lv', mid, rows, rows', k, T, lo, b)
    ensures child in st' && st'[child].parent in rows'[k] && st'[child].parent in st'
    ensures st'[child].parent == lo || st'[child].parent == b
    ensures child in KidsAt(st', st'[child].parent) && st'[st'[child].parent].numKeys < 2 * mid
  {
    hide Linked, Halves, KidsAt, Flat, LowerKept;
    LinkedRow(st, lv, 2 * mid, rows, k, k);
    LinkedRow(st', lv', 2 * mid, rows', k, k);
    FlatMembers(st, rows[k]);
    FlatMembers(st', rows'[k]);
    assert child in Flat(st, rows[k]);
    assert child in multiset(Flat(st, rows[k]));
    assert child in Flat(st', rows'[k]);
    var p :| p in rows'[k] && child in KidsAt(st', p);
    assert st'[child].parent == p && st[child].parent == T;
    if p != lo && p != b {
      SameKidsAt(st, st', p);
      assert false;
    }
    HalvesRoom(st[T], st'[lo], st'[b], mid);
  }

  lemma HalvesRoom(n: Node, l: Node, r: Node, mid: nat)
    requires Halves(n, l, r, mid)
    ensures l.numKeys < 2 * mid && r.numKeys < 2 * mid
  {
  }

  lemma SameKidsAt(st: Store, st': Store, c: nat)
    requires SameButParent(st, st', c)
    ensures KidsAt(st', c) == KidsAt(st, c)
  {
  }

  lemma LowerKeptTwice(st: Store, st1: Store, st2: Store, lv: map<nat, nat>, lv1: map<nat, nat>, lv2: map<nat, nat>,
                       h: nat)
    requires LowerKept(st, st1, lv, lv1, h) && LowerKept(st1, st2, lv1, lv2, h)
    ensures LowerKept(st, st2, lv, lv2, h)
  {
  }

  /** Hanging b at height h below a node leaves all else below alone. */
  lemma LowerKeptAttach(st: Store, st': Store, lv: map<nat, nat>, m: nat, h: nat, P: nat, b: nat)
    requires Levelled(st, lv, m) && P in lv && lv[P] == h + 1 && b in lv && lv[b] == h && b in st && P in st && P in st'
    requires st' == st[P := st'[P]][b := st[b].(parent := P)]
    ensures LowerKept(st, st', lv, lv, h + 1)
  {
  }

  lemma InRow(st: Store, lv: map<nat, nat>, row: seq<nat>, h: nat, i: nat)
    requires RowOk(st, lv, row, h) && i < |row|
    ensures row[i] in row && row[i] in st && forall c | c in row :: c in lv && lv[c] == h && c in st
    ensures forall d | d in KidsAt(st, row[i]) :: d in st && st[d].parent == row[i]
    ensures KidsAt(st, row[i]) == Kids(st[row[i]])
  {
  }

  lemma KidsNoDup(st: Store, row: seq<nat>, i: nat)
    requires i < |row| && NoDup(Flat(st, row))
    ensures NoDup(KidsAt(st, row[i]))
  {
    FlatAround(st, row, i);
    hide KidsAt, Flat;
    SplitNoDup(Flat(st, row[..i]) + KidsAt(st, row[i]), Flat(st, row[i + 1..]));
    SplitNoDup(Flat(st, row[..i]), KidsAt(st, row[i]));
  }

  /** The row of the halved node with the new half in it. */
  lemma NewRow(st: Store, st1: Store, lv: map<nat, nat>, m: nat, row: seq<nat>, h: nat, i: nat, b: nat, q: nat)
    requires Levelled(st, lv, m) && RowOk(st, lv, row, h) && h >= 1 && i < |row| && q <= |row| && b !in lv
    requires Divides(st, st1, m, row[i], b) && Levelled(st1, lv[b := h], m)
    requires NoDup(Flat(st, row))
    ensures RowOk(st1, lv[b := h], InsertAt(row, q, b), h)
    ensures NoDup(Flat(st1, InsertAt(row, q, b)))
    ensures multiset(Flat(st1, InsertAt(row, q, b))) == multiset(Flat(st, row))
    ensures q == i + 1 ==> Flat(st1, InsertAt(row, q, b)) == Flat(st, row)
  {
    hide *;
    InRow(st, lv, row, h, i);
    RowFacts(st, lv, row, h);
    KidsNoDup(st, row, i);
    assert b !in row;
    DivideRow(st, st1, lv, m, row, h, row[i], b, q);
    DivideFlatAnywhere(st, st1, m, row, i, b, q);
    if q == i + 1 { DivideFlat(st, st1, m, row, i, b); }
    NoDupByCount(Flat(st, row), Flat(st1, InsertAt(row, q, b)));
  }

  /** A tree grows a row at the bottom that an earlier state had. */
  lemma NewRowLinked(st: Store, lv: map<nat, nat>, m: nat, rows: seq<seq<nat>>, h: nat, st1: Store, lv1: map<nat, nat>)
    requires 1 <= h && h + 1 < |rows| && Linked(st, lv, m, rows, h + 1) && Flat(st, rows[h + 1]) == rows[h]
    requires Levelled(st1, lv1, m) && RowOk(st1, lv1, rows[h], h) && NoDup(Flat(st1, rows[h]))
    requires LowerKept(st1, st, lv1, lv, h + 1) && forall c | c in lv1 && lv1[c] == h :: c in rows[h]
    ensures Linked(st, lv, m, rows, h) && Flat(st, rows[h]) == Flat(st1, rows[h])
  {
    hide Levelled, RowOk, Flat, LowerKept, NoDup, Covered;
    CoveredBelow(st, lv, m, rows, h, st1, lv1);
    RowKeptBelow(st1, st, lv1, lv, m, rows[h], h);
    LinkedRow(st, lv, m, rows, h + 1, |rows| - 1);
    assert Last(rows)[0] in Last(rows);
    LastInStore(st, lv, Last(rows), |rows| - 1);
  }

  lemma CoveredBelow(st: Store, lv: map<nat, nat>, m: nat, rows: seq<seq<nat>>, h: nat, st1: Store, lv1: map<nat, nat>)
    requires h + 1 < |rows| && Covered(lv, rows, h + 1)
    requires LowerKept(st1, st, lv1, lv, h + 1) && forall c | c in lv1 && lv1[c] == h :: c in rows[h]
    ensures Covered(lv, rows, h)
  {
    assert forall c | c in lv && lv[c] == h :: c in lv1 && lv1[c] == h;
  }

  lemma LastInStore(st: Store, lv: map<nat, nat>, row: seq<nat>, h: nat)
    requires RowOk(st, lv, row, h)
    ensures forall b | b in row :: b in st
  {
  }

  lemma SplitKeeps(st: Store, st1: Store, st2: Store, lv: map<nat, nat>, lv2: map<nat, nat>, mid: nat,
                   row: seq<nat>, h: nat, T: nat, b: nat, parent: nat)
    requires Levelled(st, lv, 2 * mid) && RowOk(st, lv, row, h) && T in row && b !in lv && h >= 1
    requires SplitsOff(st, st1, mid, T, b, parent) && LowerKept(st1, st2, lv[b := h], lv2, h + 1)
    ensures LowerKept(st, st2, lv, lv2, h)
    ensures T in st && T in st2 && b in st2 && Halves(st[T], st2[T], st2[b], mid)
    ensures forall c | c in row && c != T :: SameButParent(st, st2, c)
  {
    hide *;
    TopOfRow(st, lv, row, h, T);
    SplitHalves(st, st1, mid, T, b, parent);
    SplitMoves(st, st1, mid, T, b, parent);
    forall c | c in row || c == b
      ensures c in st1 && c in st2 && st2[c] == st1[c].(parent := st2[c].parent)
    {
      KeptAt(st1, st2, lv[b := h], lv2, h + 1, c);
    }
    forall c | c in row && c != T
      ensures SameButParent(st, st2, c)
    {
      SameTwice(st, st1, st2, c);
    }
    HalvesParents(st[T], st1[T], st1[b], mid, st2[T].parent, st2[b].parent);
    SplitKeepsLower(st, st1, st2, lv, lv2, mid, row, h, T, b, parent);
  }

  lemma SameTwice(st: Store, st1: Store, st2: Store, c: nat)
    requires SameButParent(st, st1, c) || (c in st && c in st1 && st1[c] == st[c].(parent := st1[c].parent))
    requires c in st1 && c in st2 && st2[c] == st1[c].(parent := st2[c].parent)
    ensures SameButParent(st, st2, c)
  {
  }

  lemma TopOfRow(st: Store, lv: map<nat, nat>, row: seq<nat>, h: nat, T: nat)
    requires RowOk(st, lv, row, h)
    ensures forall c | c in row :: c in lv && lv[c] == h && c in st
  {
  }

  lemma HalvesParents(n: Node, l: Node, r: Node, mid: nat, p: nat, q: nat)
    requires Halves(n, l, r, mid)
    ensures Halves(n, l.(parent := p), r.(parent := q), mid)
  {
  }

  lemma SplitKeepsLower(st: Store, st1: Store, st2: Store, lv: map<nat, nat>, lv2: map<nat, nat>, mid: nat,
                        row: seq<nat>, h: nat, T: nat, b: nat, parent: nat)
    requires Levelled(st, lv, 2 * mid) && RowOk(st, lv, row, h) && T in row && b !in lv && h >= 1
    requires SplitsOff(st, st1, mid, T, b, parent) && LowerKept(st1, st2, lv[b := h], lv2, h + 1)
    ensures LowerKept(st, st2, lv, lv2, h)
  {
    hide SplitsOff, RowOk, NodeOk, KidsAt;
    TopOfRow(st, lv, row, h, T);
    KidsBelow(st, lv, 2 * mid, row, h);
    SplitMoves(st, st1, mid, T, b, parent);
  }

  lemma SplitMoves(st: Store, st1: Store, mid: nat, T: nat, b: nat, parent: nat)
    requires SplitsOff(st, st1, mid, T, b, parent)
    ensures forall c | c in st && c != T :: c in st1 && st1[c] == st[c].(parent := st1[c].parent)
    ensures forall c | c in st && c != T && c !in KidsAt(st, T) :: st1[c] == st[c]
  {
    SplitHalves(st, st1, mid, T, b, parent);
    HalvesKids(st[T], st1[T], st1[b], mid);
    UsedSlots(st1[b], 2 * mid);
    hide LeftHalf, RightHalf, Halves, Shape;
  }

  /** The last step of a split: the node halved at height h, and its new half hung into the row above. */
  lemma SplitFinish(st: Store, st1: Store, st2: Store, lv: map<nat, nat>, lv2: map<nat, nat>, mid: nat,
                    rows: seq<seq<nat>>, rows2: seq<seq<nat>>, h: nat, i: nat, b: nat, q: nat, parent: nat)
    requires Linked(st, lv, 2 * mid, rows, h) && i < |rows[h]| && b !in lv && q <= |rows[h]|
    requires SplitsOff(st, st1, mid, rows[h][i], b, parent) && Levelled(st1, lv[b := h], 2 * mid)
    requires h + 1 < |rows2| && |rows| <= |rows2| && rows2[..h] == rows[..h]
    requires Linked(st2, lv2, 2 * mid, rows2, h + 1) && LowerKept(st1, st2, lv[b := h], lv2, h + 1)
    requires Flat(st2, rows2[h + 1]) == rows2[h] == InsertAt(rows[h], q, b)
    ensures SplitAt(st, st2, lv, lv2, mid, rows, rows2, h, rows[h][i], rows[h][i], b)
    ensures q == i + 1 ==> Flat(st2, rows2[h]) == Flat(st, rows[h])
  {
    hide Linked, RowOk, Flat, Levelled, LowerKept, SplitsOff, Halves, InsertAt, KidsAt, Kids, NoDup, SameButParent,
         Covered;
    LinkedIndex(st, lv, 2 * mid, rows, h);
    var T := rows[h][i];
    LinkedRow(st, lv, 2 * mid, rows, h, h);
    InRow(st, lv, rows[h], h, i);
    SplitDivides(st, st1, mid, T, b, parent);
    NewRow(st, st1, lv, 2 * mid, rows[h], h, i, b, q);
    InsertAtMembers(rows[h], q, b);
    NewRowCovered(lv, rows, h, b, q);
    NewRowLinked(st2, lv2, 2 * mid, rows2, h, st1, lv[b := h]);
    SplitKeeps(st, st1, st2, lv, lv2, mid, rows[h], h, T, b, parent);
  }

  lemma NewRowCovered(lv: map<nat, nat>, rows: seq<seq<nat>>, h: nat, b: nat, q: nat)
    requires h < |rows| && Covered(lv, rows, h) && q <= |rows[h]|
    ensures forall c | c in lv[b := h] && lv[b := h][c] == h :: c in InsertAt(rows[h], q, b)
  {
    InsertAtMembers(rows[h], q, b);
  }

  lemma LinkedIndex(st: Store, lv: map<nat, nat>, m: nat, rows: seq<seq<nat>>, k: nat)
    requires Linked(st, lv, m, rows, k)
    ensures 1 <= k < |rows| && Covered(lv, rows, k)
  {
  }

  // ----- Splitting the root -----

  /** The full root r becomes a node over its two halves a and b, and the children move below them. */
  ghost predicate SplitsRoot(st: Store, st': Store, mid: nat, r: nat, a: nat, b: nat) {
    && r in st && a !in st && b !in st && a != b && st'.Keys == st.Keys + {a, b}
    && Halves(st[r], st'[a], st'[b], mid) && st'[a].parent == r && st'[b].parent == r
    && Twins(st', a, b) && st'[a].left == 0 && Blank(st'[a]) && Blank(st'[b])
    && |st'[r].keys| == 2 * mid && st'[r].keys[1..] == Zeros(2 * mid - 1)
    && st'[r] == st[r].(numKeys := 1, keys := st'[r].keys, children := [a, b] + Zeros(2 * mid - 1))
    && forall c | c in st && c != r ::
         st'[c] ==
           if c in Kids(st'[b]) then st[c].(parent := b) else if c in Kids(st'[a]) then st[c].(parent := a) else st[c]
  }

  lemma SplitRootIntact(st: Store, st': Store, mid: nat, r: nat, a: nat, b: nat)
    requires SplitsRoot(st, st', mid, r, a, b)
    ensures Intact(st, st') && Twins(st', a, b) && a != r && b != r
  {
    hide Halves;
  }

  lemma RootHalfOk(st: Store, st': Store, lv: map<nat, nat>, lv': map<nat, nat>, mid: nat, r: nat, a: nat, b: nat,
                   c: nat)
    requires r in lv && lv[r] >= 1 && r in st && NodeOk(st, lv, 2 * mid, r) && SplitsRoot(st, st', mid, r, a, b)
    requires a !in lv && b !in lv && lv' == lv[a := lv[r]][b := lv[r]][r := lv[r] + 1]
    requires c == a || c == b
    ensures c in st' && NodeOk(st', lv', 2 * mid, c)
  {
    hide *;
    RootKids(st, st', mid, r, a, b);
    RootSplitFields(st, st', mid, r, a, b);
    HalvesKids(st[r], st'[a], st'[b], mid);
    NodeKids(st, lv, 2 * mid, r);
    NodeOkIntro(st', lv', 2 * mid, c);
  }

  lemma NewRootOk(st: Store, st': Store, lv: map<nat, nat>, lv': map<nat, nat>, mid: nat, r: nat, a: nat, b: nat)
    requires r in lv && lv[r] >= 1 && r in st && SplitsRoot(st, st', mid, r, a, b) && a != 0 && b != 0
    requires st[r].parent == 0
    requires a !in lv && b !in lv && lv' == lv[a := lv[r]][b := lv[r]][r := lv[r] + 1]
    ensures r in st' && NodeOk(st', lv', 2 * mid, r) && KidsAt(st', r) == [a, b]
  {
    hide Halves;
    var n := st'[r];
    assert mid >= 2 && |st[r].keys| == 2 * mid && !st[r].isLeaf by { HalvesShape(st[r], st'[a], st'[b], mid); }
    assert n.children[0] == a && n.children[1] == b && n.children[2] == 0;
    assert forall i | 1 <= i < 2 * mid :: n.keys[i] == n.keys[1..][i - 1];
    assert Count(n) == 2;
  }

  lemma HalvesShape(n: Node, l: Node, r: Node, mid: nat)
    requires Halves(n, l, r, mid)
    ensures mid >= 2 && Shape(n, 2 * mid)
  {
  }

  lemma RootSplitLevelled(st: Store, st': Store, lv: map<nat, nat>, lv': map<nat, nat>, mid: nat, r: nat, a: nat,
                          b: nat)
    requires Levelled(st, lv, 2 * mid) && r in lv && lv[r] >= 1 && SplitsRoot(st, st', mid, r, a, b) && a != 0 && b != 0
    requires a !in lv && b !in lv && lv' == lv[a := lv[r]][b := lv[r]][r := lv[r] + 1] && st[r].parent == 0
    requires forall c | c in lv && c != r :: lv[c] < lv[r]
    requires forall c | c in KidsAt(st, r) :: c in st && st[c].parent == r
    ensures Levelled(st', lv', 2 * mid)
  {
    hide *;
    RootOfLevelled(st, lv, 2 * mid, r);
    RootHalfOk(st, st', lv, lv', mid, r, a, b, a);
    RootHalfOk(st, st', lv, lv', mid, r, a, b, b);
    NewRootOk(st, st', lv, lv', mid, r, a, b);
    forall c | c in lv && c != r
      ensures c != 0 && c in st' && NodeOk(st', lv', 2 * mid, c)
    {
      RootOfLevelled(st, lv, 2 * mid, c);
      UnderRoot(st, st', mid, r, a, b, c);
      UnderRootOk(st, st', lv, lv', 2 * mid, r, a, b, c);
    }
    LevelledIntro(st', lv', 2 * mid);
  }

  lemma UnderRoot(st: Store, st': Store, mid: nat, r: nat, a: nat, b: nat, c: nat)
    requires SplitsRoot(st, st', mid, r, a, b) && c in st && c != r && r != 0
    requires forall d | d in KidsAt(st, r) :: d in st && st[d].parent == r
    ensures c in st' && (st'[c] == st[c] || (st[c].parent != 0 && st'[c] == st[c].(parent := st'[c].parent)))
    ensures c !in KidsAt(st, r) ==> st'[c] == st[c]
    ensures c in KidsAt(st', b) ==> st'[c].parent == b
    ensures c in KidsAt(st', a) && c !in KidsAt(st', b) ==> st'[c].parent == a
  {
    HalvesKids(st[r], st'[a], st'[b], mid);
  }

  lemma UnderRootOk(st: Store, st': Store, lv: map<nat, nat>, lv': map<nat, nat>, m: nat, r: nat, a: nat, b: nat,
                    c: nat)
    requires Levelled(st, lv, m) && r in lv && a !in lv && b !in lv && c in lv && lv[c] < lv[r] && c in st'
    requires lv' == lv[a := lv[r]][b := lv[r]][r := lv[r] + 1] && a != 0 && b != 0
    requires st'[c] == st[c] || (st[c].parent != 0 && st'[c] == st[c].(parent := st'[c].parent))
    ensures NodeOk(st', lv', m, c)
  {
    assert NodeOk(st, lv, m, c);
  }

  lemma RootSplitRows(st: Store, st': Store, lv: map<nat, nat>, lv': map<nat, nat>, mid: nat, h: nat, r: nat, a: nat,
                      b: nat)
    requires SplitsRoot(st, st', mid, r, a, b) && r in lv && lv[r] == h && h >= 1 && a != 0 && b != 0 && r != 0
    requires a !in lv && b !in lv && lv' == lv[a := h][b := h][r := h + 1] && st[r].parent == 0
    requires NoDup(KidsAt(st, r)) && r !in KidsAt(st, r)
    requires forall c | c in KidsAt(st, r) :: c in st && st[c].parent == r
    ensures RowOk(st', lv', [a, b], h) && RowOk(st', lv', [r], h + 1)
    ensures Flat(st', [a, b]) == KidsAt(st, r) == Flat(st, [r]) && Flat(st', [r]) == [a, b]
  {
    hide *;
    RootKids(st, st', mid, r, a, b);
    NewRootOk(st, st', lv, lv', mid, r, a, b);
    FlatTwo(st', a, b);
    FlatOne(st, r);
    FlatOne(st', r);
    SplitNoDup(KidsAt(st', a), KidsAt(st', b));
    forall d | d in KidsAt(st, r)
      ensures d in st' && (d in KidsAt(st', a) ==> st'[d].parent == a) && (d in KidsAt(st', b) ==> st'[d].parent == b)
    {
      UnderRoot(st, st', mid, r, a, b, d);
    }
    RowOfTwo(st', lv', h, a, b);
    RowOfOne(st', lv', h + 1, r);
  }

  lemma RootKids(st: Store, st': Store, mid: nat, r: nat, a: nat, b: nat)
    requires SplitsRoot(st, st', mid, r, a, b)
    ensures r in st && a in st' && b in st' && r in st' && a != b && st'[a].parent == r && st'[b].parent == r
    ensures r != a && r != b
    ensures KidsAt(st, r) == KidsAt(st', a) + KidsAt(st', b)
  {
    HalvesKids(st[r], st'[a], st'[b], mid);
  }

  lemma RowOfTwo(st: Store, lv: map<nat, nat>, h: nat, a: nat, b: nat)
    requires a in st && b in st && a != b && a in lv && b in lv && lv[a] == lv[b] == h
    requires forall d | d in KidsAt(st, a) :: d in st && st[d].parent == a
    requires forall d | d in KidsAt(st, b) :: d in st && st[d].parent == b
    ensures RowOk(st, lv, [a, b], h)
  {
  }

  lemma RowOfOne(st: Store, lv: map<nat, nat>, h: nat, a: nat)
    requires a in st && a in lv && lv[a] == h
    requires forall d | d in KidsAt(st, a) :: d in st && st[d].parent == a
    ensures RowOk(st, lv, [a], h)
  {
  }

  lemma FlatOne(st: Store, b: nat)
    ensures Flat(st, [b]) == KidsAt(st, b)
  {
    assert [b][1..] == [];
  }

  lemma RootSplitLower(st: Store, st': Store, lv: map<nat, nat>, lv': map<nat, nat>, mid: nat, r: nat, a: nat, b: nat)
    requires Levelled(st, lv, 2 * mid) && r in lv && lv[r] >= 1 && SplitsRoot(st, st', mid, r, a, b)
    requires a !in lv && b !in lv && lv' == lv[a := lv[r]][b := lv[r]][r := lv[r] + 1]
    requires forall c | c in KidsAt(st, r) :: c in st && st[c].parent == r
    ensures LowerKept(st, st', lv, lv', lv[r])
  {
    hide *;
    KidsOneBelow(st, lv, 2 * mid, r);
    forall c | c in lv && lv[c] < lv[r]
      ensures c in st && c in st' && st'[c] == st[c].(parent := st'[c].parent)
      ensures lv[c] + 1 < lv[r] ==> st'[c] == st[c]
    {
      RootOfLevelled(st, lv, 2 * mid, c);
      UnderRoot(st, st', mid, r, a, b, c);
    }
    LowerKeptIntro(st, st', lv, lv', lv[r]);
  }

  lemma LowerKeptIntro(st: Store, st': Store, lv: map<nat, nat>, lv': map<nat, nat>, h: nat)
    requires forall c | c in lv' && lv'[c] < h :: c in lv && lv[c] == lv'[c]
    requires forall c | c in lv && lv[c] < h ::
      && c in st && c in st' && c in lv' && lv'[c] == lv[c]
      && st'[c] == st[c].(parent := st'[c].parent)
      && (lv[c] + 1 < h ==> st'[c] == st[c])
    ensures LowerKept(st, st', lv, lv', h)
  {
  }

  /** Splitting the root is a split at its height, under a new root. */
  lemma RootSplit(st: Store, st': Store, lv: map<nat, nat>, lv': map<nat, nat>, mid: nat,
                  rows: seq<seq<nat>>, rows': seq<seq<nat>>, h: nat, r: nat, a: nat, b: nat)
    requires Linked(st, lv, 2 * mid, rows, h) && |rows| == h + 1 && rows[h] == [r]
    requires SplitsRoot(st, st', mid, r, a, b) && a != 0 && b != 0 && a !in lv && b !in lv
    requires lv' == lv[a := h][b := h][r := h + 1]
    requires rows' == rows[..h] + [[a, b], [r]]
    ensures SplitAt(st, st', lv, lv', mid, rows, rows', h, r, a, b) && Linked(st', lv', 2 * mid, rows', h)
    ensures Flat(st', rows'[h]) == Flat(st, rows[h])
  {
    hide Levelled, RowOk, Flat, KidsAt, Kids, NoDup, Covered, Halves, SplitsRoot, LowerKept;
    assert r in rows[h];
    LinkedRow(st, lv, 2 * mid, rows, h, h);
    InRow(st, lv, rows[h], h, 0);
    KidsNoDup(st, rows[h], 0);
    RootOfLevelled(st, lv, 2 * mid, r);
    OthersBelow(lv, rows, h, r);
    NotOwnKid(st, lv, 2 * mid, r, h);
    RootSplitRows(st, st', lv, lv', mid, h, r, a, b);
    RootSplitLevelled(st, st', lv, lv', mid, r, a, b);
    RootSplitLower(st, st', lv, lv', mid, r, a, b);
    RootSplitCovered(lv, lv', rows, rows', h, r, a, b);
    RootSplitFields(st, st', mid, r, a, b);
    assert rows'[h] == [a, b] && rows'[h + 1] == [r];
    FlatOne(st, r);
  }

  lemma OthersBelow(lv: map<nat, nat>, rows: seq<seq<nat>>, h: nat, r: nat)
    requires Covered(lv, rows, h) && |rows| == h + 1 && rows[h] == [r]
    ensures forall c | c in lv && c != r :: lv[c] < h
  {
  }

  lemma NotOwnKid(st: Store, lv: map<nat, nat>, m: nat, r: nat, h: nat)
    requires Levelled(st, lv, m) && r in lv && lv[r] == h >= 1
    ensures r !in KidsAt(st, r)
  {
    assert NodeOk(st, lv, m, r);
  }

  lemma RootSplitCovered(lv: map<nat, nat>, lv': map<nat, nat>, rows: seq<seq<nat>>, rows': seq<seq<nat>>, h: nat,
                         r: nat, a: nat, b: nat)
    requires Covered(lv, rows, h) && |rows| == h + 1 && rows[h] == [r]
    requires lv' == lv[a := h][b := h][r := h + 1] && rows' == rows[..h] + [[a, b], [r]]
    ensures Covered(lv', rows', h)
  {
    assert rows'[h] == [a, b] && rows'[h + 1] == [r];
  }

  lemma RootSplitFields(st: Store, st': Store, mid: nat, r: nat, a: nat, b: nat)
    requires SplitsRoot(st, st', mid, r, a, b)
    ensures r in st' && a in st' && b in st' && st'[r].parent == st[r].parent
    ensures Halves(st[r], st'[a], st'[b], mid)
  {
  }

  lemma TopKeys(st: Store, st': Store, mid: nat, r: nat, a: nat, b: nat)
    requires SplitsRoot(st, st', mid, r, a, b)
    ensures r in st' && |st'[r].keys| == 2 * mid && mid >= 2 && st'[r].numKeys == 1 && st'.Keys == st.Keys + {a, b}
    ensures forall i | 1 <= i < 2 * mid :: st'[r].keys[i] == 0
    ensures |st'[r].children| == 2 * mid + 1 && st'[r].children[0] == a
  {
    assert forall i | 1 <= i < 2 * mid :: st'[r].keys[i] == st'[r].keys[1..][i - 1];
  }

  /** The key of the new root is the last thing that a root split writes. */
  lemma RootKeyed(st: Store, st1: Store, st2: Store, lv: map<nat, nat>, lv': map<nat, nat>, mid: nat,
                  rows: seq<seq<nat>>, rows': seq<seq<nat>>, h: nat, r: nat, a: nat, b: nat, key: nat)
    requires SplitAt(st, st1, lv, lv', mid, rows, rows', h, r, a, b) && SplitsRoot(st, st1, mid, r, a, b)
    requires a in lv' && lv'[a] == h && r in lv' && lv'[r] == h + 1
    requires r in st1 && |st1[r].keys| == 2 * mid && st2 == st1[r := st1[r].(keys := st1[r].keys[0 := key])]
    requires Levelled(st1, lv', 2 * mid) && key == MaxKey(st1, lv', 2 * mid, a)
    ensures SplitAt(st, st2, lv, lv', mid, rows, rows', h, r, a, b)
    ensures Flat(st2, rows'[h]) == Flat(st1, rows'[h])
    ensures Levelled(st2, lv', 2 * mid) && KeysRight(st2, lv', 2 * mid, r)
  {
    hide *;
    TopKeys(st, st1, mid, r, a, b);
    var keys := st2[r].keys;
    SplitAtLinked(st, st1, lv, lv', mid, rows, rows', h, r, a, b);
    KeysOnly(st1, st2, lv', 2 * mid, rows', h, r, keys);
    KeysOnlyLevelled(st1, st2, lv', 2 * mid, r, keys);
    KeysOnlySame(st1, st2, r, keys);
    SplitAtKeys(st, st1, st2, lv, lv', mid, rows, rows', h, r, a, b, keys);
    KeysFrame(st1, st2, lv', 2 * mid, r, keys, a);
    OneKey(st2, lv', 2 * mid, r, a);
  }

  lemma SplitAtLinked(st: Store, st': Store, lv: map<nat, nat>, lv': map<nat, nat>, mid: nat,
                      rows: seq<seq<nat>>, rows': seq<seq<nat>>, k: nat, T: nat, lo: nat, b: nat)
    requires SplitAt(st, st', lv, lv', mid, rows, rows', k, T, lo, b)
    ensures 1 <= k < |rows| <= |rows'| && rows'[..k] == rows[..k] && Linked(st', lv', 2 * mid, rows', k)
    ensures LowerKept(st, st', lv, lv', k)
    ensures lo in rows'[k] && b in rows'[k]
  {
  }

  lemma SplitAtKeys(st: Store, st1: Store, st2: Store, lv: map<nat, nat>, lv': map<nat, nat>, mid: nat,
                    rows: seq<seq<nat>>, rows': seq<seq<nat>>, h: nat, r: nat, a: nat, b: nat, keys: seq<nat>)
    requires SplitAt(st, st1, lv, lv', mid, rows, rows', h, r, a, b)
    requires r in st1 && r in lv' && lv'[r] == h + 1 && st2 == st1[r := st1[r].(keys := keys)]
    requires Linked(st2, lv', 2 * mid, rows', h) && Flat(st2, rows'[h]) == Flat(st1, rows'[h])
    ensures SplitAt(st, st2, lv, lv', mid, rows, rows', h, r, a, b)
  {
    hide Levelled, Flat, Halves, NoDup, Covered, KidsAt;
    LinkedRow(st1, lv', 2 * mid, rows', h, h);
  }

  /** Rewriting the keys of a node changes no maximum. */
  lemma KeysFrame(st: Store, st': Store, lv: map<nat, nat>, m: nat, b: nat, keys: seq<nat>, c: nat)
    requires Levelled(st, lv, m) && Levelled(st', lv, m) && b in st && b in lv && lv[b] >= 1 && c in lv
    requires st' == st[b := st[b].(keys := keys)]
    ensures MaxKey(st', lv, m, c) == MaxKey(st, lv, m, c)
  {
    KeysOnlySame(st, st', b, keys);
    hide KidsAt;
    MaxKeyFrame(st, st', lv, lv, m, c);
  }

  lemma OneKey(st: Store, lv: map<nat, nat>, m: nat, r: nat, a: nat)
    requires Levelled(st, lv, m) && r in lv && lv[r] >= 1 && a in lv
    requires st[r].numKeys == 1 && |st[r].keys| == m >= 1 && |st[r].children| == m + 1 && st[r].children[0] == a
    requires st[r].keys[0] == MaxKey(st, lv, m, a)
    ensures KeysRight(st, lv, m, r)
  {
  }

  // ----- Splitting a child -----

  /** Right after a full child has been halved, the tree is whole from the next height up. */
  lemma Halved(st: Store, st1: Store, lv: map<nat, nat>, mid: nat, rows: seq<seq<nat>>, h: nat, i: nat, b: nat,
               parent: nat)
    requires Linked(st, lv, 2 * mid, rows, h) && h + 1 < |rows| && i < |rows[h]|
    requires SplitsOff(st, st1, mid, rows[h][i], b, parent) && b !in lv && b != 0
    ensures Levelled(st1, lv[b := h], 2 * mid) && Linked(st1, lv[b := h], 2 * mid, rows, h + 1)
    ensures Flat(st1, rows[h + 1]) == rows[h] && b !in rows[h] && b in st1 && st1[b].numKeys >= 1
    ensures forall c | c in rows[h + 1] :: c in st && c in st1 && st1[c] == st[c]
  {
    hide Levelled, RowOk, Flat, KidsAt, Kids, NoDup, Covered, SplitsOff, Divides;
    var T := rows[h][i];
    LinkedRow(st, lv, 2 * mid, rows, h, h);
    LinkedRow(st, lv, 2 * mid, rows, h, h + 1);
    InRow(st, lv, rows[h], h, i);
    TopOfRow(st, lv, rows[h + 1], h + 1, T);
    SplitDivides(st, st1, mid, T, b, parent);
    HalfRoom(st, st1, 2 * mid, T, b);
    DivideLevelled(st, st1, lv, 2 * mid, T, b);
    DivideUpper(st, st1, lv, 2 * mid, rows, h, T, b);
    DivideAbove(st, st1, lv, 2 * mid, rows[h], h, rows[h + 1], h + 1, T, b);
  }

  lemma HalfRoom(st: Store, st': Store, m: nat, T: nat, b: nat)
    requires Divides(st, st', m, T, b)
    ensures b in st' && st'[b].numKeys >= 1
  {
  }

  lemma LinkedRows(st: Store, lv: map<nat, nat>, m: nat, rows: seq<seq<nat>>, rows': seq<seq<nat>>, k: nat)
    requires Linked(st, lv, m, rows, k) && |rows'| == |rows| && forall j | k <= j < |rows| :: rows'[j] == rows[j]
    ensures Linked(st, lv, m, rows', k)
  {
    hide Levelled, RowOk, Flat, NoDup;
  }

  /** The new half is hung in right behind its other half, or where the caller says. */
  lemma HalfPlaced(st: Store, st1: Store, stA: Store, st2: Store, lv: map<nat, nat>, lvA: map<nat, nat>, mid: nat,
                   rows: seq<seq<nat>>, rowsA: seq<seq<nat>>, rows2: seq<seq<nat>>, h: nat, i: nat, b: nat,
                   cp: nat, j: nat, p: nat, parent: nat)
    requires Linked(st, lv, 2 * mid, rows, h) && h + 1 < |rows| && i < |rows[h]| && b !in lv && b != 0
    requires SplitsOff(st, st1, mid, rows[h][i], b, parent)
    requires |rows| <= |rowsA| && rowsA[..h + 1] == rows[..h + 1]
    requires Linked(stA, lvA, 2 * mid, rowsA, h + 1) && LowerKept(st1, stA, lv[b := h], lvA, h + 1)
    requires Flat(stA, rowsA[h + 1]) == rows[h]
    requires j < |rowsA[h + 1]| && rowsA[h + 1][j] == cp && 1 <= p <= |KidsAt(stA, cp)|
    requires var q := |Flat(stA, rowsA[h + 1][..j])| + p;
      && q <= |rows[h]| && rows2 == rowsA[h := InsertAt(rows[h], q, b)]
      && Flat(st2, rowsA[h + 1]) == InsertAt(rows[h], q, b)
    requires Linked(st2, lvA, 2 * mid, rowsA, h + 1) && b in stA && b in lvA && cp in st2
    requires st2 == stA[cp := st2[cp]][b := stA[b].(parent := cp)]
    ensures SplitAt(st, st2, lv, lvA, mid, rows, rows2, h, rows[h][i], rows[h][i], b)
    ensures KidsAt(stA, cp)[p - 1] == rows[h][i] ==> Flat(st2, rows2[h]) == Flat(st, rows[h])
  {
    hide Linked, Levelled, RowOk, Flat, KidsAt, Kids, Covered, SplitsOff, Divides, LowerKept, InsertAt, SplitAt;
    Halved(st, st1, lv, mid, rows, h, i, b, parent);
    LinkedRow(st, lv, 2 * mid, rows, h, h);
    LinkedRow(stA, lvA, 2 * mid, rowsA, h + 1, h + 1);
    InRow(stA, lvA, rowsA[h + 1], h + 1, j);
    KeptAt(st1, stA, lv[b := h], lvA, h + 1, b);
    LowerKeptAttach(stA, st2, lvA, 2 * mid, h, cp, b);
    LowerKeptTwice(st1, stA, st2, lv[b := h], lvA, lvA, h + 1);
    LinkedRows(st2, lvA, 2 * mid, rowsA, rows2, h + 1);
    LinkedIndex(st, lv, 2 * mid, rows, h);
    assert rows2[..h] == rowsA[..h + 1][..h] == rows[..h + 1][..h] == rows[..h];
    FlatPosition(stA, rowsA[h + 1], j, p - 1);
    SplitFinish(st, st1, st2, lv, lvA, mid, rows, rows2, h, i, b, |Flat(stA, rowsA[h + 1][..j])| + p, parent);
  }

  // ----- Keys after a split -----

  /** Every node of a row has the right keys. */
  ghost predicate RowRight(st: Store, lv: map<nat, nat>, m: nat, row: seq<nat>) {
    Levelled(st, lv, m) && forall c | c in row :: c in lv && lv[c] >= 1 && KeysRight(st, lv, m, c)
  }

  /** The keys of n', with the children in front of them, are a stretch of those of n. */
  ghost predicate Part(n': Node, n: Node, off: nat) {
    && n'.numKeys <= |n'.keys| && n'.numKeys <= |n'.children| && n.numKeys <= |n.keys| && n.numKeys <= |n.children|
    && n'.numKeys + off <= n.numKeys
    && forall i | 0 <= i < n'.numKeys :: n'.keys[i] == n.keys[off + i] && n'.children[i] == n.children[off + i]
  }

  lemma PartRight(st: Store, st': Store, lv: map<nat, nat>, lv': map<nat, nat>, m: nat, s: nat, c: nat, off: nat)
    requires Levelled(st, lv, m) && Levelled(st', lv', m) && s in lv && lv[s] >= 1 && c in lv' && lv'[c] >= 1
    requires KeysRight(st, lv, m, s) && Part(st'[c], st[s], off)
    requires forall d | d in KidsAt(st', c) :: d in lv && d in lv' && MaxKey(st', lv', m, d) == MaxKey(st, lv, m, d)
    ensures KeysRight(st', lv', m, c)
  {
    hide MaxKey;
    assert NodeOk(st, lv, m, s) && NodeOk(st', lv', m, c);
    forall i | 0 <= i < st'[c].numKeys
      ensures st'[c].keys[i] == MaxKey(st', lv', m, st'[c].children[i])
    {
      assert Kids(st'[c])[i] in KidsAt(st', c);
      assert st[s].keys[off + i] == MaxKey(st, lv, m, st[s].children[off + i]);
    }
  }

  /** The maximum of a node that lost and gained nothing. */
  lemma MaxKeyKept(st: Store, st': Store, lv: map<nat, nat>, lv': map<nat, nat>, m: nat, h: nat, d: nat)
    requires Levelled(st, lv, m) && Levelled(st', lv', m) && LowerKept(st, st', lv, lv', h)
    requires d in lv && lv[d] == h && d in lv' && lv'[d] == h && SameButParent(st, st', d)
    ensures MaxKey(st', lv', m, d) == MaxKey(st, lv, m, d)
  {
    if h != 0 && Count(st[d]) != 0 {
      assert NodeOk(st, lv, m, d);
      MaxKeyFrame(st, st', lv, lv', m, Last(Kids(st[d])));
    }
  }

  ghost predicate HasSource(st: Store, st': Store, row: seq<nat>, c: nat) {
    c in st' && exists s, off :: s in row && s in st && Part(st'[c], st[s], off)
  }

  ghost predicate AllHaveSource(st: Store, st': Store, row: seq<nat>, row': seq<nat>, cp: nat) {
    forall c | c in row' && c != cp :: HasSource(st, st', row, c)
  }

  /** In a row where only cp has changed. */
  lemma SourcesSame(st: Store, st': Store, lv: map<nat, nat>, m: nat, row: seq<nat>, h: nat, cp: nat)
    requires Levelled(st, lv, m) && RowOk(st, lv, row, h) && h >= 1
    requires forall c | c in row && c != cp :: SameButParent(st, st', c)
    ensures AllHaveSource(st, st', row, row, cp)
  {
    forall c | c in row && c != cp
      ensures HasSource(st, st', row, c)
    {
      assert NodeOk(st, lv, m, c);
      assert Part(st'[c], st[c], 0);
    }
  }

  /** In a row where a node has been split, and after that only one of its halves has changed. */
  lemma SourcesHalves(st: Store, st1: Store, st2: Store, lv: map<nat, nat>, mid: nat,
                      row: seq<nat>, row': seq<nat>, h: nat, T: nat, lo: nat, b: nat, cp: nat)
    requires Levelled(st, lv, 2 * mid) && RowOk(st, lv, row, h) && h >= 1 && T in row && cp in {lo, b}
    requires lo in st1 && b in st1 && Halves(st[T], st1[lo], st1[b], mid)
    requires forall c | c in row' && c != lo && c != b :: c in row && SameButParent(st, st1, c)
    requires forall c | c in row' && c != cp :: c in st1 && c in st2 && st2[c] == st1[c]
    ensures AllHaveSource(st, st2, row, row', cp)
  {
    forall c | c in row' && c != cp
      ensures HasSource(st, st2, row, c)
    {
      if c == lo {
        assert Part(st2[c], st[T], 0);
      } else if c == b {
        assert Part(st2[c], st[T], mid + 1);
      } else {
        assert NodeOk(st, lv, 2 * mid, c);
        assert Part(st2[c], st[c], 0);
      }
    }
  }

  /** A split keeps the keys of the row above right. */
  lemma RowRightAfter(st: Store, st': Store, lv: map<nat, nat>, lv': map<nat, nat>, mid: nat,
                      rows: seq<seq<nat>>, rows': seq<seq<nat>>, h: nat, T: nat, b: nat, cp: nat)
    requires Linked(st, lv, 2 * mid, rows, h) && h + 1 < |rows|
    requires SplitAt(st, st', lv, lv', mid, rows, rows', h, T, T, b) && RowRight(st, lv, 2 * mid, rows[h + 1])
    requires Levelled(st', lv', 2 * mid) && cp in lv' && lv'[cp] >= 1 && KeysRight(st', lv', 2 * mid, cp)
    requires T in KidsAt(st', cp) && b in KidsAt(st', cp) && cp in rows'[h + 1]
    requires AllHaveSource(st, st', rows[h + 1], rows'[h + 1], cp)
    ensures RowRight(st', lv', 2 * mid, rows'[h + 1])
  {
    hide Linked, Levelled, Flat, KidsAt, NoDup, Covered, LowerKept, Halves, KeysRight, Part, MaxKey;
    LinkedRow(st, lv, 2 * mid, rows, h, h);
    LinkedRow(st', lv', 2 * mid, rows', h, h);
    LinkedRow(st', lv', 2 * mid, rows', h, h + 1);
    FlatMembers(st', rows'[h + 1]);
    forall c | c in rows'[h + 1] && c != cp
      ensures c in lv' && lv'[c] >= 1 && KeysRight(st', lv', 2 * mid, c)
    {
      forall d | d in KidsAt(st', c)
        ensures d in lv && d in lv' && MaxKey(st', lv', 2 * mid, d) == MaxKey(st, lv, 2 * mid, d)
      {
        assert d in rows'[h] && st'[d].parent == c && d != T && d != b;
        MaxKeyKept(st, st', lv, lv', 2 * mid, h, d);
      }
      var s, off :| s in rows[h + 1] && s in st && Part(st'[c], st[s], off);
      PartRight(st, st', lv, lv', 2 * mid, s, c, off);
    }
  }

  lemma LowerKeptSelf(st: Store, lv: map<nat, nat>, m: nat, h: nat)
    requires Levelled(st, lv, m)
    ensures LowerKept(st, st, lv, lv, h)
  {
  }

  lemma GainsBoth(st: Store, st': Store, m: nat, cp: nat, p: nat, b: nat)
    requires cp in st && cp in st' && GainsChild(st[cp], st'[cp], p, b, m)
    ensures b in KidsAt(st', cp) && forall d | d in KidsAt(st, cp) :: d in KidsAt(st', cp)
  {
    InsertAtMembers(Kids(st[cp]), p, b);
  }

  /** The keys of the row above, when the parent of the halved child had room. */
  lemma KeysAfterRoom(st: Store, st1: Store, st2: Store, lv: map<nat, nat>, lv': map<nat, nat>, mid: nat,
                      rows: seq<seq<nat>>, rows': seq<seq<nat>>, h: nat, T: nat, b: nat, cp: nat, p: nat)
    requires Linked(st, lv, 2 * mid, rows, h) && h + 1 < |rows|
    requires SplitAt(st, st2, lv, lv', mid, rows, rows', h, T, T, b)
    requires RowRight(st, lv, 2 * mid, rows[h + 1]) && rows'[h + 1] == rows[h + 1]
    requires Levelled(st2, lv', 2 * mid) && cp in lv' && lv'[cp] >= 1 && KeysRight(st2, lv', 2 * mid, cp)
    requires cp in rows[h + 1] && T in KidsAt(st1, cp)
    requires cp in st1 && cp in st2 && b in st1 && GainsChild(st1[cp], st2[cp], p, b, 2 * mid)
    requires st2 == st1[cp := st2[cp]][b := st1[b].(parent := cp)] && b !in lv
    requires forall c | c in rows[h + 1] :: c in st && c in st1 && st1[c] == st[c]
    ensures RowRight(st2, lv', 2 * mid, rows'[h + 1])
  {
    hide *;
    LinkedRow(st, lv, 2 * mid, rows, h, h + 1);
    RowFacts(st, lv, rows[h + 1], h + 1);
    GainsBoth(st1, st2, 2 * mid, cp, p, b);
    forall c | c in rows[h + 1] && c != cp
      ensures SameButParent(st, st2, c)
    {
      SameTwice(st, st2, st2, c);
    }
    SourcesSame(st, st2, lv, 2 * mid, rows[h + 1], h + 1, cp);
    RowRightAfter(st, st2, lv, lv', mid, rows, rows', h, T, b, cp);
  }

  /** The keys of the row above, when the parent of the halved child was split first. */
  lemma KeysAfterSplit(st: Store, st1: Store, stA: Store, st2: Store, lv: map<nat, nat>, lv1: map<nat, nat>,
                       lvA: map<nat, nat>, mid: nat,
                       rows: seq<seq<nat>>, rowsA: seq<seq<nat>>, rows': seq<seq<nat>>, h: nat, T: nat, b: nat,
                       node: nat, lo: nat, hi: nat, cp: nat, p: nat)
    requires Linked(st, lv, 2 * mid, rows, h) && h + 1 < |rows|
    requires SplitAt(st, st2, lv, lvA, mid, rows, rows', h, T, T, b)
    requires SplitAt(st1, stA, lv1, lvA, mid, rows, rowsA, h + 1, node, lo, hi) && node in rows[h + 1]
    requires RowRight(st, lv, 2 * mid, rows[h + 1]) && rows'[h + 1] == rowsA[h + 1]
    requires Levelled(st2, lvA, 2 * mid) && cp in lvA && lvA[cp] >= 1 && KeysRight(st2, lvA, 2 * mid, cp)
    requires cp == lo || cp == hi
    requires T in KidsAt(stA, cp)
    requires cp in stA && cp in st2 && b in stA && GainsChild(stA[cp], st2[cp], p, b, 2 * mid)
    requires st2 == stA[cp := st2[cp]][b := stA[b].(parent := cp)] && b in lvA && lvA[b] == h
    requires forall c | c in rows[h + 1] :: c in st && c in st1 && st1[c] == st[c]
    ensures RowRight(st2, lvA, 2 * mid, rows'[h + 1])
  {
    hide Linked, Levelled, Flat, KidsAt, NoDup, LowerKept, Halves, KeysRight, GainsChild, RowRight, AllHaveSource,
         MaxKey;
    LinkedRow(st, lv, 2 * mid, rows, h, h + 1);
    LinkedIndex(st, lv, 2 * mid, rows, h);
    LinkedRow(stA, lvA, 2 * mid, rowsA, h + 1, h + 1);
    assert b !in rowsA[h + 1];
    GainsBoth(stA, st2, 2 * mid, cp, p, b);
    SourcesHalves(st, stA, st2, lv, mid, rows[h + 1], rowsA[h + 1], h + 1, node, lo, hi, cp);
    RowRightAfter(st, st2, lv, lvA, mid, rows, rows', h, T, b, cp);
  }

  lemma SameKidsOne(st: Store, st': Store, c: nat)
    requires c in st && c in st' && st'[c] == st[c]
    ensures KidsAt(st', c) == KidsAt(st, c)
  {
  }
}
