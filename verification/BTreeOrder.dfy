/** Keys in a sorted tree: where an insertion goes down to, and what it does to the order of the leaves. */
module BTreeOrder {
  import opened Sequences
  import opened BTreeModel
  import opened BTreeSplits

  ghost predicate Known(st: Store, lv: map<nat, nat>, m: nat, row: seq<nat>) {
    Levelled(st, lv, m) && forall c | c in row :: c in lv
  }

  /** The first node of a row whose maximum reaches key; the last node when there is none. */
  ghost function Pick(st: Store, lv: map<nat, nat>, m: nat, row: seq<nat>, key: nat): (c: nat)
    requires Known(st, lv, m, row) && row != []
    ensures c in row
  {
    if |row| == 1 || key <= MaxKey(st, lv, m, row[0]) then row[0] else Pick(st, lv, m, row[1..], key)
  }

  /** The way down to a parent of leaves. */
  ghost function Descend(st: Store, lv: map<nat, nat>, m: nat, b: nat, key: nat): (c: nat)
    requires Levelled(st, lv, m) && b in lv && lv[b] >= 1
    ensures c in lv && lv[c] == 1
    decreases lv[b]
  {
    if lv[b] == 1 then b
    else
      assert NodeOk(st, lv, m, b);
      assert forall i | 0 <= i < Count(st[b]) :: Kids(st[b])[i] == st[b].children[i];
      Descend(st, lv, m, Pick(st, lv, m, Kids(st[b]), key), key)
  }

  lemma {:induction false} PickAt(st: Store, lv: map<nat, nat>, m: nat, row: seq<nat>, key: nat, i: nat)
    requires Known(st, lv, m, row) && i < |row|
    requires forall j | 0 <= j < i :: MaxKey(st, lv, m, row[j]) < key
    requires i == |row| - 1 || key <= MaxKey(st, lv, m, row[i])
    ensures Pick(st, lv, m, row, key) == row[i]
  {
    hide MaxKey, Levelled;
    if i > 0 {
      forall j | 0 <= j < i - 1
        ensures MaxKey(st, lv, m, row[1..][j]) < key
      {
        assert row[1..][j] == row[j + 1];
      }
      assert row[0] in row && MaxKey(st, lv, m, row[0]) < key;
      PickAt(st, lv, m, row[1..], key, i - 1);
    }
  }

  /** The maxima of a row go up strictly. */
  ghost predicate Ascending(st: Store, lv: map<nat, nat>, m: nat, row: seq<nat>) {
    Known(st, lv, m, row) && forall i, j | 0 <= i < j < |row| :: MaxKey(st, lv, m, row[i]) < MaxKey(st, lv, m, row[j])
  }

  lemma AscendingKnown(st: Store, lv: map<nat, nat>, m: nat, row: seq<nat>)
    requires Ascending(st, lv, m, row)
    ensures Known(st, lv, m, row)
  {
  }

  lemma {:induction false} PickLeft(st: Store, lv: map<nat, nat>, m: nat, s: seq<nat>, t: seq<nat>, key: nat, i: nat)
    requires Known(st, lv, m, s + t) && Known(st, lv, m, s) && i < |s| && key <= MaxKey(st, lv, m, s[i])
    ensures Pick(st, lv, m, s + t, key) == Pick(st, lv, m, s, key)
  {
    hide MaxKey, Levelled;
    if |s| > 1 && MaxKey(st, lv, m, s[0]) < key {
      assert (s + t)[1..] == s[1..] + t;
      PickLeft(st, lv, m, s[1..], t, key, i - 1);
    }
  }

  lemma {:induction false} PickRight(st: Store, lv: map<nat, nat>, m: nat, s: seq<nat>, t: seq<nat>, key: nat)
    requires Known(st, lv, m, s + t) && Known(st, lv, m, t) && t != []
    requires forall c | c in s :: c in lv && MaxKey(st, lv, m, c) < key
    ensures Pick(st, lv, m, s + t, key) == Pick(st, lv, m, t, key)
  {
    hide MaxKey, Levelled;
    if s == [] {
      assert s + t == t;
    } else {
      assert (s + t)[1..] == s[1..] + t;
      PickRight(st, lv, m, s[1..], t, key);
    }
  }

  /** A row of inner nodes, each with children. */
  ghost predicate Parents(st: Store, lv: map<nat, nat>, m: nat, row: seq<nat>) {
    Known(st, lv, m, row) && forall c | c in row :: lv[c] >= 1 && KidsAt(st, c) != []
  }

  lemma MaxOfLast(st: Store, lv: map<nat, nat>, m: nat, b: nat)
    requires Levelled(st, lv, m) && b in lv && lv[b] >= 1 && KidsAt(st, b) != []
    ensures Known(st, lv, m, KidsAt(st, b)) && MaxKey(st, lv, m, b) == MaxKey(st, lv, m, Last(KidsAt(st, b)))
    ensures b in st && KidsAt(st, b) == Kids(st[b])
  {
    assert NodeOk(st, lv, m, b);
    assert forall i | 0 <= i < |Kids(st[b])| :: Kids(st[b])[i] == st[b].children[i];
  }

  lemma {:induction false} FlatKnown(st: Store, lv: map<nat, nat>, m: nat, row: seq<nat>)
    requires Parents(st, lv, m, row)
    ensures Known(st, lv, m, Flat(st, row)) && (row != [] ==> Flat(st, row) != [])
  {
    if row != [] {
      hide MaxKey, KidsAt, Levelled;
      assert row[0] in row;
      MaxOfLast(st, lv, m, row[0]);
      FlatKnown(st, lv, m, row[1..]);
    }
  }

  lemma AscendingParts(st: Store, lv: map<nat, nat>, m: nat, s: seq<nat>, t: seq<nat>)
    requires Ascending(st, lv, m, s + t)
    ensures Ascending(st, lv, m, s) && Ascending(st, lv, m, t)
    ensures forall c, d | c in s && d in t :: MaxKey(st, lv, m, c) < MaxKey(st, lv, m, d)
  {
    hide MaxKey, Levelled;
    var r := s + t;
    assert forall c | c in s :: c in r;
    assert forall c | c in t :: c in r;
    assert forall i | 0 <= i < |s| :: r[i] == s[i];
    assert forall j | 0 <= j < |t| :: r[|s| + j] == t[j];
    forall i, j | 0 <= i < j < |t|
      ensures MaxKey(st, lv, m, t[i]) < MaxKey(st, lv, m, t[j])
    {
      assert MaxKey(st, lv, m, r[|s| + i]) < MaxKey(st, lv, m, r[|s| + j]);
    }
    forall i, j | 0 <= i < |s| && 0 <= j < |t|
      ensures MaxKey(st, lv, m, s[i]) < MaxKey(st, lv, m, t[j])
    {
      assert MaxKey(st, lv, m, r[i]) < MaxKey(st, lv, m, r[|s| + j]);
    }
  }

  lemma LastIsMost(st: Store, lv: map<nat, nat>, m: nat, s: seq<nat>)
    requires Ascending(st, lv, m, s) && s != []
    ensures forall c | c in s :: MaxKey(st, lv, m, c) <= MaxKey(st, lv, m, Last(s))
  {
    hide MaxKey, Levelled;
    forall c | c in s
      ensures MaxKey(st, lv, m, c) <= MaxKey(st, lv, m, Last(s))
    {
      var i :| 0 <= i < |s| && s[i] == c;
      assert i < |s| - 1 ==> MaxKey(st, lv, m, s[i]) < MaxKey(st, lv, m, s[|s| - 1]);
    }
  }

  /** Picking in the row below leads to a child of what is picked in the row above. */
  lemma {:induction false} PickFlat(st: Store, lv: map<nat, nat>, m: nat, row: seq<nat>, key: nat)
    requires Parents(st, lv, m, row) && row != [] && Ascending(st, lv, m, Flat(st, row))
    ensures var p := Pick(st, lv, m, row, key);
      && Flat(st, row) != []
      && p in lv && Known(st, lv, m, KidsAt(st, p)) && KidsAt(st, p) != []
      && Pick(st, lv, m, Flat(st, row), key) == Pick(st, lv, m, KidsAt(st, p), key)
  {
    hide MaxKey, KidsAt, Levelled, Ascending;
    assert row[0] in row;
    var kids, rest := KidsAt(st, row[0]), row[1..];
    FlatKnown(st, lv, m, row);
    MaxOfLast(st, lv, m, row[0]);
    AscendingParts(st, lv, m, kids, Flat(st, rest));
    if key <= MaxKey(st, lv, m, row[0]) {
      PickLeft(st, lv, m, kids, Flat(st, rest), key, |kids| - 1);
    } else if |row| == 1 {
      assert kids + Flat(st, rest) == kids;
    } else {
      LastIsMost(st, lv, m, kids);
      FlatKnown(st, lv, m, rest);
      PickRight(st, lv, m, kids, Flat(st, rest), key);
      PickFlat(st, lv, m, rest, key);
    }
  }

  lemma {:induction false} AscendingUp(st: Store, lv: map<nat, nat>, m: nat, row: seq<nat>)
    requires Parents(st, lv, m, row) && Ascending(st, lv, m, Flat(st, row))
    ensures Ascending(st, lv, m, row)
    ensures forall c | c in row ::
      exists d :: d in Flat(st, row) && d in lv && MaxKey(st, lv, m, c) == MaxKey(st, lv, m, d)
  {
    hide MaxKey, KidsAt, Levelled, Ascending;
    if row == [] {
      NoneAscending(st, lv, m, row);
    } else {
      assert row[0] in row;
      var kids, rest := KidsAt(st, row[0]), row[1..];
      MaxOfLast(st, lv, m, row[0]);
      AscendingParts(st, lv, m, kids, Flat(st, rest));
      AscendingUp(st, lv, m, rest);
      assert Last(kids) in kids;
      AscendingCons(st, lv, m, row[0], rest);
      assert row == [row[0]] + rest;
    }
  }

  lemma NoneAscending(st: Store, lv: map<nat, nat>, m: nat, row: seq<nat>)
    requires Levelled(st, lv, m) && row == []
    ensures Ascending(st, lv, m, row)
  {
  }

  lemma AscendingCons(st: Store, lv: map<nat, nat>, m: nat, x: nat, rest: seq<nat>)
    requires Ascending(st, lv, m, rest) && x in lv
    requires forall c | c in rest :: MaxKey(st, lv, m, x) < MaxKey(st, lv, m, c)
    ensures Ascending(st, lv, m, [x] + rest)
  {
    hide MaxKey, Levelled;
    var row := [x] + rest;
    forall i, j | 0 <= i < j < |row|
      ensures MaxKey(st, lv, m, row[i]) < MaxKey(st, lv, m, row[j])
    {
      assert row[j] == rest[j - 1] && row[j] in rest;
      assert i > 0 ==> row[i] == rest[i - 1];
    }
  }

  // ----- Going down a sorted tree -----

  /** As soon as there is a leaf, every inner node has children. */
  lemma AllParents(st: Store, lv: map<nat, nat>, m: nat, rows: seq<seq<nat>>, h: nat)
    requires Linked(st, lv, m, rows, 1) && 1 <= h < |rows| && Flat(st, rows[1]) != []
    ensures Parents(st, lv, m, rows[h]) && rows[h] != []
  {
    hide Flat, NoDup, Covered;
    LinkedRow(st, lv, m, rows, 1, h);
    forall c | c in rows[h]
      ensures c in lv && lv[c] >= 1 && KidsAt(st, c) != []
    {
      assert NodeOk(st, lv, m, c);
      RootByParent(st, lv, m, rows, 1, h, c);
      if h == 1 && h == |rows| - 1 {
        FlatOne(st, c);
      }
    }
    if h < |rows| - 1 {
      FlatMembers(st, rows[h + 1]);
      NotEmptyBelow(st, lv, m, rows, h);
    }
  }

  lemma {:induction false} NotEmptyBelow(st: Store, lv: map<nat, nat>, m: nat, rows: seq<seq<nat>>, h: nat)
    requires Linked(st, lv, m, rows, 1) && 1 <= h < |rows|
    ensures rows[h] != []
    decreases |rows| - h
  {
    hide NoDup, Covered, RowOk;
    if h < |rows| - 1 {
      NotEmptyBelow(st, lv, m, rows, h + 1);
      LinkedRow(st, lv, m, rows, 1, h + 1);
      var c := rows[h + 1][0];
      assert c in rows[h + 1];
      TopOfRow(st, lv, rows[h + 1], h + 1, c);
      assert NodeOk(st, lv, m, c);
      assert KidsAt(st, c)[0] in KidsAt(st, c);
      FlatMembers(st, rows[h + 1]);
    }
  }

  lemma {:induction false} AllAscending(st: Store, lv: map<nat, nat>, m: nat, rows: seq<seq<nat>>, h: nat)
    requires Linked(st, lv, m, rows, 1) && 1 <= h < |rows| && Flat(st, rows[1]) != []
    requires Ascending(st, lv, m, Flat(st, rows[1]))
    ensures Ascending(st, lv, m, rows[h]) && Ascending(st, lv, m, Flat(st, rows[h]))
  {
    hide Flat, Covered, Ascending, Parents;
    AllParents(st, lv, m, rows, h);
    if h > 1 {
      AllAscending(st, lv, m, rows, h - 1);
      LinkedRow(st, lv, m, rows, 1, h);
    }
    AscendingUp(st, lv, m, rows[h]);
  }

  /** The way down from the root passes what is picked in each row. */
  lemma {:induction false} DescendPicks(st: Store, lv: map<nat, nat>, m: nat, rows: seq<seq<nat>>, key: nat, h: nat)
    requires Linked(st, lv, m, rows, 1) && 1 <= h < |rows| && Flat(st, rows[1]) != []
    requires Ascending(st, lv, m, Flat(st, rows[1]))
    ensures Known(st, lv, m, rows[h]) && rows[h] != []
    ensures var c, r := Pick(st, lv, m, rows[h], key), Last(rows)[0];
      && c in lv && r in lv && lv[c] >= 1 && lv[r] >= 1 && Descend(st, lv, m, r, key) == Descend(st, lv, m, c, key)
    decreases |rows| - h
  {
    hide Flat, Covered, Ascending, MaxKey, KidsAt;
    AllParents(st, lv, m, rows, h);
    LinkedRow(st, lv, m, rows, 1, h);
    RowFacts(st, lv, rows[h], h);
    if h < |rows| - 1 {
      LinkedRow(st, lv, m, rows, 1, h + 1);
      RowFacts(st, lv, rows[h + 1], h + 1);
      AllParents(st, lv, m, rows, h + 1);
      DescendPicks(st, lv, m, rows, key, h + 1);
      AllAscending(st, lv, m, rows, h + 1);
      PickFlat(st, lv, m, rows[h + 1], key);
      var p := Pick(st, lv, m, rows[h + 1], key);
      MaxOfLast(st, lv, m, p);
    }
  }

  /** An insertion goes to the parent of the first leaf that reaches its key, or of the last leaf. */
  lemma TargetIsParent(st: Store, lv: map<nat, nat>, m: nat, rows: seq<seq<nat>>, key: nat)
    requires Linked(st, lv, m, rows, 1) && Flat(st, rows[1]) != [] && Ascending(st, lv, m, Flat(st, rows[1]))
    ensures var x, r := Pick(st, lv, m, Flat(st, rows[1]), key), Last(rows)[0];
      && x in st && r in lv && lv[r] >= 1
      && st[x].parent == Descend(st, lv, m, r, key)
      && st[x].parent in rows[1] && x in KidsAt(st, st[x].parent)
      && Known(st, lv, m, rows[1]) && rows[1] != [] && st[x].parent == Pick(st, lv, m, rows[1], key)
  {
    hide Flat, Covered, Ascending, MaxKey, KidsAt, Pick;
    AllParents(st, lv, m, rows, 1);
    DescendPicks(st, lv, m, rows, key, 1);
    PickFlat(st, lv, m, rows[1], key);
    LinkedRow(st, lv, m, rows, 1, 1);
    RowFacts(st, lv, rows[1], 1);
  }

  // ----- Ranks -----

  /** How many nodes at the front of a row stay below key. */
  ghost function Rank(st: Store, lv: map<nat, nat>, m: nat, row: seq<nat>, key: nat): (r: nat)
    requires Known(st, lv, m, row)
    ensures r <= |row|
  {
    if row == [] || key <= MaxKey(st, lv, m, row[0]) then 0 else 1 + Rank(st, lv, m, row[1..], key)
  }

  /** One past the last node of a row that stays below key. */
  ghost function Place(st: Store, lv: map<nat, nat>, m: nat, row: seq<nat>, key: nat): (r: nat)
    requires Known(st, lv, m, row)
    ensures r <= |row|
  {
    if row == [] then 0
    else if MaxKey(st, lv, m, Last(row)) < key then |row|
    else Place(st, lv, m, Front(row), key)
  }

  /** From its place on no node of the row stays below the key, and the one in front of it does. */
  lemma {:induction false} PlaceSplits(st: Store, lv: map<nat, nat>, m: nat, row: seq<nat>, key: nat)
    requires Known(st, lv, m, row)
    ensures forall i | Place(st, lv, m, row, key) <= i < |row| :: key <= MaxKey(st, lv, m, row[i])
    ensures var p := Place(st, lv, m, row, key); p > 0 ==> MaxKey(st, lv, m, row[p - 1]) < key
  {
    hide MaxKey, Levelled;
    if row != [] && key <= MaxKey(st, lv, m, Last(row)) {
      PlaceSplits(st, lv, m, Front(row), key);
      forall i | Place(st, lv, m, row, key) <= i < |row|
        ensures key <= MaxKey(st, lv, m, row[i])
      {
        assert i < |row| - 1 ==> row[i] == Front(row)[i];
      }
    }
  }

  lemma {:induction false} RankSplits(st: Store, lv: map<nat, nat>, m: nat, row: seq<nat>, key: nat)
    requires Known(st, lv, m, row)
    ensures forall i | 0 <= i < Rank(st, lv, m, row, key) :: MaxKey(st, lv, m, row[i]) < key
    ensures Rank(st, lv, m, row, key) < |row| ==> key <= MaxKey(st, lv, m, row[Rank(st, lv, m, row, key)])
    ensures row != [] ==>
      var r := Rank(st, lv, m, row, key);
      Pick(st, lv, m, row, key) == row[if r < |row| then r else |row| - 1]
  {
    hide MaxKey, Levelled;
    if row != [] && MaxKey(st, lv, m, row[0]) < key {
      RankSplits(st, lv, m, row[1..], key);
      forall i | 0 <= i < Rank(st, lv, m, row, key)
        ensures MaxKey(st, lv, m, row[i]) < key
      {
        assert i > 0 ==> row[i] == row[1..][i - 1];
      }
    }
  }

  lemma {:induction false} RankUnique(st: Store, lv: map<nat, nat>, m: nat, row: seq<nat>, key: nat, r: nat)
    requires Known(st, lv, m, row) && r <= |row|
    requires forall i | 0 <= i < r :: MaxKey(st, lv, m, row[i]) < key
    requires r < |row| ==> key <= MaxKey(st, lv, m, row[r])
    ensures Rank(st, lv, m, row, key) == r
  {
    RankSplits(st, lv, m, row, key);
  }

  /** In a sorted row both say where key belongs. */
  lemma {:induction false} PlaceIsRank(st: Store, lv: map<nat, nat>, m: nat, row: seq<nat>, key: nat)
    requires Ascending(st, lv, m, row)
    ensures Place(st, lv, m, row, key) == Rank(st, lv, m, row, key)
  {
    hide MaxKey, Levelled, Ascending;
    AscendingKnown(st, lv, m, row);
    if row != [] {
      assert row == Front(row) + [Last(row)];
      AscendingParts(st, lv, m, Front(row), [Last(row)]);
      if MaxKey(st, lv, m, Last(row)) < key {
        LastIsMost(st, lv, m, row);
        RankUnique(st, lv, m, row, key, |row|);
      } else {
        PlaceIsRank(st, lv, m, Front(row), key);
        RankFront(st, lv, m, row, key);
      }
    }
  }

  lemma RankFront(st: Store, lv: map<nat, nat>, m: nat, row: seq<nat>, key: nat)
    requires Known(st, lv, m, row) && row != [] && key <= MaxKey(st, lv, m, Last(row)) && Known(st, lv, m, Front(row))
    ensures Rank(st, lv, m, row, key) == Rank(st, lv, m, Front(row), key)
  {
    hide MaxKey, Levelled;
    var r := Rank(st, lv, m, Front(row), key);
    RankSplits(st, lv, m, Front(row), key);
    forall i | 0 <= i < r
      ensures MaxKey(st, lv, m, row[i]) < key
    {
      assert row[i] == Front(row)[i];
    }
    RankUnique(st, lv, m, row, key, r);
  }

  /** The rank among all leaves, from the rank below the parent of the picked leaf. */
  lemma RankAround(st: Store, lv: map<nat, nat>, m: nat, a: seq<nat>, k: seq<nat>, c: seq<nat>, key: nat)
    requires Ascending(st, lv, m, a + k + c) && NoDup(a + k + c) && k != []
    requires Pick(st, lv, m, a + k + c, key) in k
    ensures Ascending(st, lv, m, k) && Known(st, lv, m, k) && Known(st, lv, m, a + k + c)
    ensures Rank(st, lv, m, a + k + c, key) == |a| + Rank(st, lv, m, k, key)
    ensures Rank(st, lv, m, k, key) == |k| ==> c == []
  {
    hide MaxKey, Levelled, Ascending, NoDup;
    var l := a + k + c;
    AscendingKnown(st, lv, m, l);
    AscendingParts(st, lv, m, a + k, c);
    AscendingParts(st, lv, m, a, k);
    AscendingKnown(st, lv, m, k);
    RankSplits(st, lv, m, l, key);
    var r := Rank(st, lv, m, l, key);
    var j := if r < |l| then r else |l| - 1;
    FoundInMiddle(a, k, c, j);
    RankInMiddle(st, lv, m, a, k, c, key, r);
  }

  lemma RankInMiddle(st: Store, lv: map<nat, nat>, m: nat, a: seq<nat>, k: seq<nat>, c: seq<nat>, key: nat, r: nat)
    requires Known(st, lv, m, a + k + c) && Known(st, lv, m, k) && r <= |a + k + c| && |a| <= r
    requires r < |a + k + c| ==> r < |a| + |k| && key <= MaxKey(st, lv, m, (a + k + c)[r])
    requires r == |a + k + c| ==> c == []
    requires forall i | 0 <= i < r :: MaxKey(st, lv, m, (a + k + c)[i]) < key
    ensures Rank(st, lv, m, k, key) == r - |a|
  {
    hide MaxKey, Levelled;
    var l := a + k + c;
    forall q | 0 <= q < r - |a|
      ensures MaxKey(st, lv, m, k[q]) < key
    {
      assert l[|a| + q] == k[q];
    }
    assert r < |l| ==> l[r] == k[r - |a|];
    RankUnique(st, lv, m, k, key, r - |a|);
  }

  lemma FoundInMiddle<T>(a: seq<T>, k: seq<T>, c: seq<T>, j: nat)
    requires NoDup(a + k + c) && j < |a + k + c| && (a + k + c)[j] in k
    ensures |a| <= j < |a| + |k|
  {
    var i :| 0 <= i < |k| && k[i] == (a + k + c)[j];
    assert (a + k + c)[|a| + i] == k[i];
  }
}
