/** What lies below a node, and what searches find there. */
module BTreeSearch {
  import opened Sequences
  import opened BTreeModel
  import opened BTreeSplits
  import opened BTreeOrder
  import opened BTreeInsertion

  /** The blocks h heights below a row, from left to right. */
  ghost function Below(st: Store, row: seq<nat>, h: nat): seq<nat>
    decreases h
  {
    if h == 0 then row else Below(st, Flat(st, row), h - 1)
  }

  lemma {:induction false} BelowConcat(st: Store, r: seq<nat>, s: seq<nat>, h: nat)
    ensures Below(st, r + s, h) == Below(st, r, h) + Below(st, s, h)
    decreases h
  {
    if h != 0 {
      FlatConcat(st, r, s);
      BelowConcat(st, Flat(st, r), Flat(st, s), h - 1);
    }
  }

  /** Below every row of a tree stand all its leaves. */
  lemma {:induction false} LeavesBelow(st: Store, lv: map<nat, nat>, m: nat, rows: seq<seq<nat>>, h: nat)
    requires Linked(st, lv, m, rows, 1) && 1 <= h < |rows|
    ensures Below(st, rows[h], h) == Flat(st, rows[1])
  {
    hide Levelled, NoDup, Covered, RowOk, Flat;
    if h > 1 {
      LinkedRow(st, lv, m, rows, 1, h);
      LeavesBelow(st, lv, m, rows, h - 1);
    } else {
      assert Below(st, Flat(st, rows[1]), 0) == Flat(st, rows[1]);
    }
  }

  /** c is the first of a row that has the key. */
  ghost predicate FirstWith(st: Store, row: seq<nat>, key: nat, c: nat) {
    && c in row && c in st && st[c].key == key
    && forall j | 0 <= j < IndexOf(row, c) :: row[j] in st && st[row[j]].key != key
  }

  lemma FirstBehind(st: Store, a: seq<nat>, k: seq<nat>, rest: seq<nat>, key: nat, c: nat)
    requires (forall x | x in a :: x in st && st[x].key != key) && FirstWith(st, k, key, c)
    ensures FirstWith(st, a + k + rest, key, c)
  {
    var row, i := a + k + rest, IndexOf(k, c);
    assert row[|a| + i] == c;
    forall j | 0 <= j < |a| + i
      ensures row[j] in st && st[row[j]].key != key && row[j] != c
    {
      if j < |a| { assert row[j] == a[j] && a[j] in a; } else { assert row[j] == k[j - |a|]; }
    }
    FirstIsIndexOf(row, |a| + i);
  }

  lemma FirstAlone(st: Store, c: nat)
    requires c in st
    ensures FirstWith(st, [c], st[c].key, c)
  {
  }

  lemma FirstIs(st: Store, row: seq<nat>, key: nat, c: nat)
    requires FirstWith(st, row, key, c)
    ensures c in row && c in st && st[c].key == key
  {
  }

  lemma BelowAround(st: Store, row: seq<nat>, i: nat, h: nat)
    requires i < |row|
    ensures Below(st, row, h) == Below(st, row[..i], h) + Below(st, [row[i]], h) + Below(st, row[i + 1..], h)
  {
    assert row == row[..i] + ([row[i]] + row[i + 1..]);
    BelowConcat(st, row[..i], [row[i]] + row[i + 1..], h);
    BelowConcat(st, [row[i]], row[i + 1..], h);
  }

  /** The maximum of a node is the key of the last leaf below it. */
  lemma {:induction false} MaxIsLast(st: Store, lv: map<nat, nat>, m: nat, rows: seq<seq<nat>>, b: nat, h: nat)
    requires Linked(st, lv, m, rows, 1) && h < |rows| && Flat(st, rows[1]) != [] && b in lv && lv[b] == h
    requires h >= 1 ==> b in rows[h]
    ensures Below(st, [b], h) != [] && Last(Below(st, [b], h)) in st
    ensures MaxKey(st, lv, m, b) == st[Last(Below(st, [b], h))].key
    decreases h
  {
    hide *;
    LinkedIndex(st, lv, m, rows, 1);
    LinkedRow(st, lv, m, rows, 1, 1);
    BelowSteps(st, b, h);
    if h == 0 {
      LeafKey(st, lv, m, b);
    } else {
      var kids := KidsAt(st, b);
      ParentOf(st, lv, m, rows, h, b);
      MaxOfLast(st, lv, m, b);
      MaxIsLast(st, lv, m, rows, kids[|kids| - 1], h - 1);
      LastOfSum(Below(st, kids[..|kids| - 1], h - 1), Below(st, [kids[|kids| - 1]], h - 1));
    }
  }

  lemma BelowSteps(st: Store, b: nat, h: nat)
    ensures h == 0 ==> Below(st, [b], h) == [b] && Last([b]) == b
    ensures var kids := KidsAt(st, b); h > 0 && kids != [] ==>
      && Last(kids) == kids[|kids| - 1] && Last(kids) in kids
      && Below(st, [b], h) == Below(st, kids[..|kids| - 1], h - 1) + Below(st, [kids[|kids| - 1]], h - 1)
  {
    var kids := KidsAt(st, b);
    if h > 0 && kids != [] {
      FlatOne(st, b);
      assert kids == kids[..|kids| - 1] + [kids[|kids| - 1]];
      BelowConcat(st, kids[..|kids| - 1], [kids[|kids| - 1]], h - 1);
    }
  }

  lemma BelowOne(st: Store, b: nat, h: nat)
    ensures h == 0 ==> Below(st, [b], h) == [b]
    ensures h > 0 ==> Below(st, [b], h) == Below(st, KidsAt(st, b), h - 1)
  {
    FlatOne(st, b);
  }

  lemma LastOfSum(s: seq<nat>, t: seq<nat>)
    requires t != []
    ensures s + t != [] && Last(s + t) == Last(t)
  {
  }

  lemma LeafKey(st: Store, lv: map<nat, nat>, m: nat, b: nat)
    requires Levelled(st, lv, m) && b in lv && lv[b] == 0
    ensures b in st && MaxKey(st, lv, m, b) == st[b].key
  {
  }

  lemma ParentOf(st: Store, lv: map<nat, nat>, m: nat, rows: seq<seq<nat>>, h: nat, b: nat)
    requires Linked(st, lv, m, rows, 1) && 1 <= h < |rows| && Flat(st, rows[1]) != [] && b in rows[h]
    ensures b in lv && lv[b] == h && KidsAt(st, b) != []
    ensures forall d | d in KidsAt(st, b) :: d in lv && lv[d] + 1 == h && (h > 1 ==> d in rows[h - 1])
  {
    hide Linked, NoDup, Flat, KidsAt, RowOk;
    LinkedRow(st, lv, m, rows, 1, h);
    RowFacts(st, lv, rows[h], h);
    AllParents(st, lv, m, rows, h);
    MaxOfKids(st, lv, m, b);
    FlatMembers(st, rows[h]);
  }

  /** In a sorted tree it is the largest key below. */
  lemma MaxIsLargest(st: Store, lv: map<nat, nat>, m: nat, rows: seq<seq<nat>>, b: nat, h: nat)
    requires Sorted(st, lv, m, rows) && 1 <= h < |rows| && Flat(st, rows[1]) != [] && b in rows[h]
    ensures b in lv && exists c :: c in Below(st, [b], h) && c in st && st[c].key == MaxKey(st, lv, m, b)
    ensures forall c | c in Below(st, [b], h) :: c in st && st[c].key <= MaxKey(st, lv, m, b)
  {
    hide *;
    SortedFacts(st, lv, m, rows);
    LinkedRow(st, lv, m, rows, 1, h);
    RowFacts(st, lv, rows[h], h);
    MaxIsLast(st, lv, m, rows, b, h);
    LeavesBelow(st, lv, m, rows, h);
    var i :| 0 <= i < |rows[h]| && rows[h][i] == b;
    BelowAround(st, rows[h], i, h);
    LeafMax(st, lv, m, rows);
    LargestOfPart(st, lv, m, Below(st, rows[h][..i], h), Below(st, [b], h), Below(st, rows[h][i + 1..], h));
  }

  lemma LargestOfPart(st: Store, lv: map<nat, nat>, m: nat, a: seq<nat>, k: seq<nat>, c: seq<nat>)
    requires Ascending(st, lv, m, a + k + c) && k != []
    ensures Known(st, lv, m, k) && Last(k) in k
    ensures forall x | x in k :: x in a + k + c && MaxKey(st, lv, m, x) <= MaxKey(st, lv, m, Last(k))
  {
    hide MaxKey, Levelled, Ascending;
    AscendingParts(st, lv, m, a + k, c);
    AscendingParts(st, lv, m, a, k);
    AscendingKnown(st, lv, m, k);
    LastIsMost(st, lv, m, k);
  }

  // ----- Removing a leaf from a tree of one inner node -----

  lemma RemoveAtMembers<T>(s: seq<T>, k: nat)
    requires NoDup(s) && k < |s|
    ensures NoDup(RemoveAt(s, k)) && forall y :: y in RemoveAt(s, k) <==> y in s && y != s[k]
  {
    var r := RemoveAt(s, k);
    assert forall j | 0 <= j < |r| :: r[j] == s[if j < k then j else j + 1];
    forall y | y in s && y != s[k]
      ensures y in r
    {
      var j :| 0 <= j < |s| && s[j] == y;
      assert r[if j < k then j else j - 1] == y;
    }
  }

  lemma AscendingWithout(st: Store, st': Store, lv: map<nat, nat>, m: nat, row: seq<nat>, k: nat)
    requires Ascending(st, lv, m, row) && Levelled(st', lv, m) && k < |row|
    requires forall c | c in row :: MaxKey(st', lv, m, c) == MaxKey(st, lv, m, c)
    ensures Ascending(st', lv, m, RemoveAt(row, k))
  {
    hide MaxKey, Levelled;
    var r := RemoveAt(row, k);
    assert forall j | 0 <= j < |r| :: r[j] == row[if j < k then j else j + 1] && r[j] in row;
  }

  /** n without the child at position k. */
  ghost predicate LosesChild(n: Node, n': Node, k: nat, m: nat) {
    && Shape(n, m) && k < |Kids(n)| && Shape(n', m) && Kids(n') == RemoveAt(Kids(n), k)
    && n'.parent == n.parent && n'.numKeys + 1 == n.numKeys
  }

  /** The only inner node loses a child: the tree stays whole without that leaf. */
  lemma LinkLoses(st: Store, st': Store, lv: map<nat, nat>, m: nat, rows: seq<seq<nat>>, r: nat, k: nat)
    requires Linked(st, lv, m, rows, 1) && |rows| == 2 && rows[1] == [r] && r in st && r in st'
    requires LosesChild(st[r], st'[r], k, m) && st' == st[r := st'[r]]
    ensures Linked(st', lv, m, rows, 1) && k < |Flat(st, rows[1])|
    ensures Flat(st', rows[1]) == RemoveAt(Flat(st, rows[1]), k)
  {
    hide Flat, NoDup, Covered;
    LinkedRow(st, lv, m, rows, 1, 1);
    assert r in rows[1] && Last(rows) == [r];
    FlatOne(st, r);
    FlatOne(st', r);
    RemoveAtMembers(Kids(st[r]), k);
    LosesLevelled(st, st', lv, m, r, k);
    assert forall c | c != r :: KidsAt(st', c) == KidsAt(st, c);
    RowOfOne(st', lv, 1, r) by {
      assert NodeOk(st, lv, m, r);
    }
  }

  lemma LosesLevelled(st: Store, st': Store, lv: map<nat, nat>, m: nat, r: nat, k: nat)
    requires Levelled(st, lv, m) && r in lv && lv[r] == 1 && r in st && r in st' && st[r].parent == 0
    requires LosesChild(st[r], st'[r], k, m) && st' == st[r := st'[r]] && NoDup(Kids(st[r]))
    ensures Levelled(st', lv, m)
  {
    RemoveAtMembers(Kids(st[r]), k);
    NodeKids(st, lv, m, r) by { assert NodeOk(st, lv, m, r); }
    hide Shape, NoDup;
    forall c | c in lv
      ensures c in st' && NodeOk(st', lv, m, c)
    {
      assert NodeOk(st, lv, m, c);
      if c == r { NodeOkIntro(st', lv, m, r); }
    }
  }
}
