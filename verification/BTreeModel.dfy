/**
  The nodes of btr.c as they stand in the block store, and the tree they form. Row h of a tree
  lists the blocks at height h from left to right: row 1 holds the parents of the leaves, the last
  row only the root. A leaf is one block with one key.
 */
module BTreeModel {
  import opened Sequences

  datatype Node = Node(
    isLeaf: bool,
    ftype: nat,
    key: nat,
    value: nat,
    numKeys: nat,
    keys: seq<nat>,
    children: seq<nat>,
    parent: nat,
    left: nat,
    right: nat)

  type Store = map<nat, Node>

  /** The slots of a node in use: one more than its keys when the slot behind the last key is filled. */
  function Count(n: Node): nat {
    if n.numKeys < |n.children| && n.children[n.numKeys] != 0 then n.numKeys + 1 else n.numKeys
  }

  /** The children of a node, from left to right. */
  function Kids(n: Node): (r: seq<nat>)
    ensures |r| == if Count(n) <= |n.children| then Count(n) else |n.children|
    ensures forall i | 0 <= i < |r| :: r[i] == n.children[i]
  {
    if Count(n) <= |n.children| then n.children[..Count(n)] else n.children
  }

  ghost function KidsAt(st: Store, b: nat): seq<nat> {
    if b in st then Kids(st[b]) else []
  }

  /** The arrays of an inner node, with room for m keys. */
  ghost predicate Shape(n: Node, m: nat) {
    && !n.isLeaf && |n.keys| == m && |n.children| == m + 1 && n.numKeys <= m
    && (forall i | 0 <= i < Count(n) :: n.children[i] != 0)
    && (forall i | Count(n) <= i <= m :: n.children[i] == 0)
    && (forall i | n.numKeys <= i < m :: n.keys[i] == 0)
  }

  // ----- Heights -----

  /** Every node of the tree has its height in lv, and children one below their parent. */
  ghost predicate Levelled(st: Store, lv: map<nat, nat>, m: nat) {
    && (forall b | b in lv :: b != 0 && b in st)
    && forall b {:trigger NodeOk(st, lv, m, b)} | b in lv :: NodeOk(st, lv, m, b)
  }

  /** Only a node above the leaves' parents, or with a key past its last child, fills its last slot. */
  ghost predicate NodeOk(st: Store, lv: map<nat, nat>, m: nat, b: nat)
    requires b in lv && b in st
  {
    if lv[b] == 0 then st[b].isLeaf
    else
      && Shape(st[b], m)
      && (lv[b] >= 2 ==> st[b].children[st[b].numKeys] != 0)
      && (st[b].parent != 0 ==> st[b].numKeys >= 1)
      && forall i | 0 <= i < Count(st[b]) :: st[b].children[i] in lv && lv[st[b].children[i]] == lv[b] - 1
  }

  /** The key of the last leaf below a node. */
  ghost function MaxKey(st: Store, lv: map<nat, nat>, m: nat, b: nat): nat
    requires Levelled(st, lv, m) && b in lv
    decreases lv[b]
  {
    assert NodeOk(st, lv, m, b);
    if lv[b] == 0 then st[b].key
    else if Count(st[b]) == 0 then 0
    else MaxKey(st, lv, m, Last(Kids(st[b])))
  }

  // ----- Rows -----

  /** The children of a row of inner nodes, from left to right. */
  ghost function Flat(st: Store, row: seq<nat>): seq<nat> {
    if row == [] then [] else KidsAt(st, row[0]) + Flat(st, row[1..])
  }

  lemma {:induction false} FlatConcat(st: Store, r: seq<nat>, s: seq<nat>)
    ensures Flat(st, r + s) == Flat(st, r) + Flat(st, s)
  {
    if r == [] {
      assert r + s == s;
    } else {
      assert (r + s)[1..] == r[1..] + s;
      FlatConcat(st, r[1..], s);
    }
  }

  lemma {:induction false} FlatMembers(st: Store, row: seq<nat>)
    ensures forall b, c | b in row && c in KidsAt(st, b) :: c in Flat(st, row)
    ensures forall c | c in Flat(st, row) :: exists b :: b in row && c in KidsAt(st, b)
  {
    if row != [] {
      FlatMembers(st, row[1..]);
      assert row == [row[0]] + row[1..];
    }
  }

  lemma {:induction false} FlatFrame(st: Store, st': Store, row: seq<nat>)
    requires forall b | b in row :: KidsAt(st', b) == KidsAt(st, b)
    ensures Flat(st', row) == Flat(st, row)
  {
    if row != [] { FlatFrame(st, st', row[1..]); }
  }

  /** A row around one of its nodes. */
  lemma FlatAround(st: Store, row: seq<nat>, i: nat)
    requires i < |row|
    ensures Flat(st, row) == Flat(st, row[..i]) + KidsAt(st, row[i]) + Flat(st, row[i + 1..])
  {
    var before, rest := row[..i], row[i..];
    assert row == before + rest;
    FlatConcat(st, before, rest);
    assert rest[1..] == row[i + 1..];
  }

  lemma FlatPosition(st: Store, row: seq<nat>, i: nat, p: nat)
    requires i < |row| && p < |KidsAt(st, row[i])|
    ensures |Flat(st, row[..i])| + p < |Flat(st, row)|
    ensures Flat(st, row)[|Flat(st, row[..i])| + p] == KidsAt(st, row[i])[p]
  {
    FlatAround(st, row, i);
  }

  /**
    The tree from height k upward: the rows hold all its nodes, they are linked by the child arrays
    and back by the parent fields, and no block occurs twice.
   */
  ghost predicate Linked(st: Store, lv: map<nat, nat>, m: nat, rows: seq<seq<nat>>, k: nat) {
    && Levelled(st, lv, m)
    && 1 <= k < |rows|
    && (forall h | k <= h < |rows| :: RowOk(st, lv, rows[h], h))
    && (forall h | k < h < |rows| :: Flat(st, rows[h]) == rows[h - 1])
    && NoDup(Flat(st, rows[k]))
    && Covered(lv, rows, k)
    && |Last(rows)| == 1 && st[Last(rows)[0]].parent == 0
  }

  ghost predicate Covered(lv: map<nat, nat>, rows: seq<seq<nat>>, k: nat) {
    forall b | b in lv && lv[b] >= k :: lv[b] < |rows| && b in rows[lv[b]]
  }

  ghost predicate RowOk(st: Store, lv: map<nat, nat>, row: seq<nat>, h: nat)
    ensures RowOk(st, lv, row, h) ==> forall b | b in row :: b in st
  {
    && NoDup(row)
    && (forall b | b in row :: b in lv && lv[b] == h && b in st)
    && (forall b, c | b in row && c in KidsAt(st, b) :: c in st && st[c].parent == b)
  }

  // ----- Adding a child -----

  function InsertAt<T>(s: seq<T>, p: nat, x: T): (r: seq<T>)
    requires p <= |s|
    ensures |r| == |s| + 1 && r[p] == x
    ensures multiset(r) == multiset(s) + multiset{x}
  {
    assert s == s[..p] + s[p..];
    s[..p] + [x] + s[p..]
  }

  /** n with a child more, at position p. */
  ghost predicate GainsChild(n: Node, n': Node, p: nat, b: nat, m: nat) {
    && Shape(n, m) && p <= Count(n)
    && Shape(n', m) && Kids(n') == InsertAt(Kids(n), p, b)
    && n'.parent == n.parent && n'.numKeys >= n.numKeys
    && (n.children[n.numKeys] != 0 ==> n'.children[n'.numKeys] != 0)
  }

  lemma InsertAtNoDup<T>(s: seq<T>, p: nat, x: T)
    requires NoDup(s) && x !in s && p <= |s|
    ensures NoDup(InsertAt(s, p, x)) && forall y :: y in InsertAt(s, p, x) <==> y == x || y in s
  {
    var r := InsertAt(s, p, x);
    forall i, j | 0 <= i < j < |r|
      ensures r[i] != r[j]
    {
      assert i != p ==> r[i] == s[if i < p then i else i - 1];
      assert j != p ==> r[j] == s[if j < p then j else j - 1];
    }
    forall y | y in s
      ensures y in r
    {
      var k := IndexOf(s, y);
      assert r[if k < p then k else k + 1] == y;
    }
  }

  lemma InsertInMiddle<T>(a: seq<T>, k: seq<T>, c: seq<T>, p: nat, x: T)
    requires p <= |k|
    ensures a + InsertAt(k, p, x) + c == InsertAt(a + k + c, |a| + p, x)
  {
    assert (a + k + c)[..|a| + p] == a + k[..p];
    assert (a + k + c)[|a| + p..] == k[p..] + c;
  }

  lemma NotAround(row: seq<nat>, i: nat)
    requires NoDup(row) && i < |row|
    ensures row[i] !in row[..i] && row[i] !in row[i + 1..]
    ensures forall c | c in row[..i] :: c in row
    ensures forall c | c in row[i + 1..] :: c in row
  {
  }

  /** The row below gains the child at the matching place. */
  lemma FlatGains(st: Store, st': Store, row: seq<nat>, i: nat, p: nat, b: nat)
    requires i < |row| && NoDup(row) && p <= |KidsAt(st, row[i])|
    requires KidsAt(st', row[i]) == InsertAt(KidsAt(st, row[i]), p, b)
    requires forall c | c in row && c != row[i] :: KidsAt(st', c) == KidsAt(st, c)
    ensures |Flat(st, row[..i])| + p <= |Flat(st, row)|
    ensures Flat(st', row) == InsertAt(Flat(st, row), |Flat(st, row[..i])| + p, b)
  {
    hide InsertAt, NoDup, KidsAt, Flat;
    FlatAround(st, row, i);
    FlatAround(st', row, i);
    NotAround(row, i);
    FlatFrame(st, st', row[..i]);
    FlatFrame(st, st', row[i + 1..]);
    InsertInMiddle(Flat(st, row[..i]), KidsAt(st, row[i]), Flat(st, row[i + 1..]), p, b);
  }

  /** A node that has its height but is not yet below any parent becomes a child of P. */
  lemma LinkGains(st: Store, st': Store, lv: map<nat, nat>, m: nat, rows: seq<seq<nat>>, h: nat, i: nat, p: nat, b: nat)
    requires Linked(st, lv, m, rows, h) && i < |rows[h]|
    requires b in lv && lv[b] + 1 == h && b !in Flat(st, rows[h])
    requires var P := rows[h][i];
      && P in st' && b in st' && P in st && b in st
      && GainsChild(st[P], st'[P], p, b, m)
      && st' == st[P := st'[P]][b := st[b].(parent := P)]
    requires lv[b] == 0 || st[b].numKeys >= 1
    ensures Linked(st', lv, m, rows, h)
    ensures |Flat(st, rows[h][..i])| + p <= |Flat(st, rows[h])|
    ensures Flat(st', rows[h]) == InsertAt(Flat(st, rows[h]), |Flat(st, rows[h][..i])| + p, b)
  {
    hide NodeOk, InsertAt, Kids, Count, Shape, RowOk, Flat, GainsChild, Levelled;
    var P := rows[h][i];
    assert P in rows[h];
    RowFacts(st, lv, rows[h], h);
    LevelledGains(st, st', lv, m, P, p, b);
    RowGains(st, st', lv, m, rows[h], h, P, p, b);
    RowGainsFlat(st, st', lv, m, rows[h], h, i, p, b);
    InsertAtNoDup(Flat(st, rows[h]), |Flat(st, rows[h][..i])| + p, b);
    GainsKeepsParent(st[P], st'[P], p, b, m);
    UpperRowsKept(st, st', lv, m, rows, h, P, b);
    RowFacts(st, lv, Last(rows), |rows| - 1);
    assert Last(rows)[0] in Last(rows);
    assert Last(rows)[0] in lv && lv[Last(rows)[0]] == |rows| - 1;
  }

  lemma GainsKeepsParent(n: Node, n': Node, p: nat, b: nat, m: nat)
    requires GainsChild(n, n', p, b, m)
    ensures n'.parent == n.parent
  {
  }

  lemma RowFacts(st: Store, lv: map<nat, nat>, row: seq<nat>, h: nat)
    requires RowOk(st, lv, row, h)
    ensures NoDup(row) && forall b | b in row :: b in lv && lv[b] == h
  {
  }

  lemma RowGainsFlat(st: Store, st': Store, lv: map<nat, nat>, m: nat, row: seq<nat>, h: nat, i: nat, p: nat, b: nat)
    requires RowOk(st, lv, row, h) && RowOk(st', lv, row, h) && i < |row|
    requires b in lv && lv[b] + 1 == h
    requires row[i] in st' && b in st && GainsChild(st[row[i]], st'[row[i]], p, b, m)
    requires st' == st[row[i] := st'[row[i]]][b := st[b].(parent := row[i])]
    ensures |Flat(st, row[..i])| + p <= |Flat(st, row)|
    ensures Flat(st', row) == InsertAt(Flat(st, row), |Flat(st, row[..i])| + p, b)
  {
    assert |KidsAt(st, row[i])| == Count(st[row[i]]) >= p;
    assert KidsAt(st', row[i]) == InsertAt(KidsAt(st, row[i]), p, b);
    hide InsertAt, GainsChild, Flat;
    FlatGains(st, st', row, i, p, b);
  }

  lemma UpperRowsKept(st: Store, st': Store, lv: map<nat, nat>, m: nat, rows: seq<seq<nat>>, h: nat, P: nat, b: nat)
    requires Linked(st, lv, m, rows, h)
    requires P in lv && lv[P] == h && b in lv && lv[b] + 1 == h && P in st && b in st && P in st'
    requires st' == st[P := st'[P]][b := st[b].(parent := P)] && st'[P].parent == st[P].parent
    ensures forall j | h < j < |rows| :: RowOk(st', lv, rows[j], j) && Flat(st', rows[j]) == rows[j - 1]
  {
    hide NodeOk;
    forall j | h < j < |rows|
      ensures RowOk(st', lv, rows[j], j) && Flat(st', rows[j]) == rows[j - 1]
    {
      KidsBelow(st, lv, m, rows[j], j);
      RowKept(st, st', lv, rows[j], j, P, b);
      FlatFrame(st, st', rows[j]);
    }
  }

  lemma KidsBelow(st: Store, lv: map<nat, nat>, m: nat, row: seq<nat>, h: nat)
    requires Levelled(st, lv, m) && RowOk(st, lv, row, h) && h >= 1
    ensures forall c, d | c in row && d in KidsAt(st, c) :: d in lv && lv[d] + 1 == h
  {
    forall c, d | c in row && d in KidsAt(st, c)
      ensures d in lv && lv[d] + 1 == h
    {
      assert NodeOk(st, lv, m, c);
    }
  }

  lemma LevelledGains(st: Store, st': Store, lv: map<nat, nat>, m: nat, P: nat, p: nat, b: nat)
    requires Levelled(st, lv, m) && P in lv && b in lv && lv[b] + 1 == lv[P] && P in st' && b in st'
    requires GainsChild(st[P], st'[P], p, b, m)
    requires st' == st[P := st'[P]][b := st[b].(parent := P)]
    requires lv[b] == 0 || st[b].numKeys >= 1
    ensures Levelled(st', lv, m)
  {
    GainerOk(st, st', lv, m, P, p, b);
    hide GainsChild;
    forall c | c in lv && c != P
      ensures c in st' && NodeOk(st', lv, m, c)
    {
      assert NodeOk(st, lv, m, c);
    }
  }

  lemma GainerOk(st: Store, st': Store, lv: map<nat, nat>, m: nat, P: nat, p: nat, b: nat)
    requires P in lv && P in st && NodeOk(st, lv, m, P) && b in lv && lv[b] + 1 == lv[P] && P in st'
    requires GainsChild(st[P], st'[P], p, b, m)
    ensures NodeOk(st', lv, m, P)
  {
    var n, n' := st[P], st'[P];
    forall k | 0 <= k < Count(n')
      ensures n'.children[k] in lv && lv[n'.children[k]] + 1 == lv[P]
    {
      assert n'.children[k] == Kids(n')[k] == InsertAt(Kids(n), p, b)[k];
      assert k != p ==> Kids(n')[k] == n.children[if k < p then k else k - 1];
    }
  }

  lemma RowKept(st: Store, st': Store, lv: map<nat, nat>, row: seq<nat>, h: nat, P: nat, b: nat)
    requires RowOk(st, lv, row, h) && P in lv && lv[P] < h && b in lv && lv[b] < lv[P] && P in st && b in st && P in st'
    requires st' == st[P := st'[P]][b := st[b].(parent := P)] && st'[P].parent == st[P].parent
    requires forall c, d | c in row && d in KidsAt(st, c) :: d in lv && lv[d] + 1 == h
    ensures RowOk(st', lv, row, h)
    ensures forall c | c in row :: c in st' && KidsAt(st', c) == KidsAt(st, c)
  {
    forall c, d | c in row && d in KidsAt(st', c)
      ensures d in st' && st'[d].parent == c
    {
      assert d in KidsAt(st, c);
    }
  }

  lemma RowGains(st: Store, st': Store, lv: map<nat, nat>, m: nat, row: seq<nat>, h: nat, P: nat, p: nat, b: nat)
    requires RowOk(st, lv, row, h) && Levelled(st, lv, m) && P in row && b in lv && lv[b] < h && P in st'
    requires b in st' && b in st
    requires b !in Flat(st, row)
    requires GainsChild(st[P], st'[P], p, b, m) && st' == st[P := st'[P]][b := st[b].(parent := P)]
    ensures RowOk(st', lv, row, h)
  {
    hide Flat, GainsChild, Levelled, KidsAt, InsertAt;
    FlatMembers(st, row);
    KidsBelow(st, lv, m, row, h);
    GainedKids(st, st', P, p, b, m);
    forall c, d | c in row && d in KidsAt(st', c)
      ensures d in st' && st'[d].parent == c
    {
      if d != b {
        assert d in KidsAt(st, c) && lv[d] + 1 == h;
      } else {
        assert c != P ==> d in KidsAt(st, c);
      }
    }
  }

  lemma GainedKids(st: Store, st': Store, P: nat, p: nat, b: nat, m: nat)
    requires P in st && b in st && P in st' && P != b && GainsChild(st[P], st'[P], p, b, m)
    requires st' == st[P := st'[P]][b := st[b].(parent := P)]
    ensures forall d :: d in KidsAt(st', P) <==> d == b || d in KidsAt(st, P)
    ensures forall c | c != P :: KidsAt(st', c) == KidsAt(st, c)
  {
    InsertAtMembers(KidsAt(st, P), p, b);
  }

  lemma InsertAtMembers<T>(s: seq<T>, p: nat, x: T)
    requires p <= |s|
    ensures forall y :: y in InsertAt(s, p, x) <==> y == x || y in s
  {
    forall y
      ensures y in InsertAt(s, p, x) <==> y == x || y in s
    {
      assert multiset(InsertAt(s, p, x))[y] == multiset(s)[y] + multiset{x}[y];
      assert y in s <==> y in multiset(s);
      assert y in InsertAt(s, p, x) <==> y in multiset(InsertAt(s, p, x));
    }
  }

  // ----- Splitting a full node -----

  function Zeros(n: nat): (r: seq<nat>)
    ensures |r| == n && forall i | 0 <= i < n :: r[i] == 0
  {
    seq(n, _ => 0)
  }

  /** The lower keys and children of a full node of 2 * mid keys: one child more than keys. */
  function LeftHalf(n: Node, mid: nat, right: nat): Node
    requires |n.keys| == 2 * mid && |n.children| == 2 * mid + 1 && mid > 0
  {
    n.(numKeys := mid,
       keys := n.keys[..mid] + Zeros(mid),
       children := n.children[..mid + 1] + Zeros(mid),
       right := right)
  }

  /** The upper keys and children; the key in the middle goes. */
  function RightHalf(n: Node, mid: nat, parent: nat, left: nat): Node
    requires |n.keys| == 2 * mid && |n.children| == 2 * mid + 1 && mid > 0
  {
    Node(false, 0, 0, 0, mid - 1,
         n.keys[mid + 1..] + Zeros(mid + 1),
         n.children[mid + 1..] + Zeros(mid + 1),
         parent, left, 0)
  }

  /** Two nodes that share out the keys and children of a full one; the key in the middle goes. */
  ghost predicate Halves(n: Node, l: Node, r: Node, mid: nat) {
    && mid >= 2 && Shape(n, 2 * mid) && n.numKeys == 2 * mid
    && !l.isLeaf && l.numKeys == mid
    && l.keys == n.keys[..mid] + Zeros(mid) && l.children == n.children[..mid + 1] + Zeros(mid)
    && !r.isLeaf && r.numKeys == mid - 1
    && r.keys == n.keys[mid + 1..] + Zeros(mid + 1) && r.children == n.children[mid + 1..] + Zeros(mid + 1)
  }

  /** Child T is split: its upper half moves to the new block b, and those children follow. */
  ghost predicate SplitsOff(st: Store, st': Store, mid: nat, T: nat, b: nat, parent: nat) {
    && T in st && b !in st && Shape(st[T], 2 * mid) && st[T].numKeys == 2 * mid && mid >= 2
    && st'.Keys == st.Keys + {b}
    && st'[T] == LeftHalf(st[T], mid, b) && st'[b] == RightHalf(st[T], mid, parent, T)
    && forall c | c in st && c != T ::
         st'[c] == if c in st'[b].children && c != 0 then st[c].(parent := b) else st[c]
  }

  /** What the tree needs to know about a split. */
  ghost predicate Divides(st: Store, st': Store, m: nat, T: nat, b: nat) {
    && T in st && b !in st && st'.Keys == st.Keys + {b}
    && Shape(st[T], m) && Shape(st'[T], m) && Shape(st'[b], m)
    && 1 <= st'[T].numKeys < m && 1 <= st'[b].numKeys < m
    && Kids(st[T]) == Kids(st'[T]) + Kids(st'[b])
    && st'[T].children[st'[T].numKeys] != 0
    && (st[T].children[st[T].numKeys] != 0 <==> st'[b].children[st'[b].numKeys] != 0)
    && st'[T].parent == st[T].parent
    && forall c | c in st && c != T :: st'[c] == if c in Kids(st'[b]) then st[c].(parent := b) else st[c]
  }

  lemma SplitDivides(st: Store, st': Store, mid: nat, T: nat, b: nat, parent: nat)
    requires SplitsOff(st, st', mid, T, b, parent)
    ensures Divides(st, st', 2 * mid, T, b)
  {
    SplitHalves(st, st', mid, T, b, parent);
    HalvesKids(st[T], st'[T], st'[b], mid);
    UsedSlots(st'[b], 2 * mid);
    hide LeftHalf, RightHalf, Halves, Shape, Kids;
  }

  lemma SplitHalves(st: Store, st1: Store, mid: nat, T: nat, b: nat, parent: nat)
    requires SplitsOff(st, st1, mid, T, b, parent)
    ensures T in st && T in st1 && b in st1 && Halves(st[T], st1[T], st1[b], mid)
  {
  }

  lemma HalvesKids(n: Node, l: Node, r: Node, mid: nat)
    requires Halves(n, l, r, mid)
    ensures mid >= 2 && Shape(n, 2 * mid) && Shape(l, 2 * mid) && Shape(r, 2 * mid) && Kids(n) == Kids(l) + Kids(r)
    ensures l.numKeys == mid && r.numKeys == mid - 1
    ensures l.children[mid] != 0 && (r.children[mid - 1] != 0 <==> n.children[2 * mid] != 0)
    ensures |Kids(l)| == mid + 1 && |Kids(r)| == Count(n) - mid - 1
  {
    LowerArrays(n, l, mid);
    UpperArrays(n, r, mid);
    hide Halves;
    assert Kids(n) == n.children[..mid + 1] + n.children[mid + 1..Count(n)];
  }

  lemma UpperArrays(n: Node, r: Node, mid: nat)
    requires mid >= 2 && Shape(n, 2 * mid) && n.numKeys == 2 * mid
    requires !r.isLeaf && r.numKeys == mid - 1
    requires r.keys == n.keys[mid + 1..] + Zeros(mid + 1) && r.children == n.children[mid + 1..] + Zeros(mid + 1)
    ensures Shape(r, 2 * mid) && Count(n) >= 2 * mid && Kids(r) == n.children[mid + 1..Count(n)]
    ensures r.children[mid - 1] != 0 <==> n.children[2 * mid] != 0
  {
    assert forall i | 0 <= i < mid :: r.children[i] == n.children[mid + 1 + i];
    assert forall i | 0 <= i < |Kids(r)| :: Kids(r)[i] == n.children[mid + 1 + i];
  }

  lemma LowerArrays(n: Node, l: Node, mid: nat)
    requires mid >= 2 && Shape(n, 2 * mid) && n.numKeys == 2 * mid
    requires !l.isLeaf && l.numKeys == mid
    requires l.keys == n.keys[..mid] + Zeros(mid) && l.children == n.children[..mid + 1] + Zeros(mid)
    ensures Shape(l, 2 * mid) && Kids(l) == n.children[..mid + 1] && l.children[mid] != 0
  {
  }

  lemma UsedSlots(n: Node, m: nat)
    requires Shape(n, m)
    ensures forall d | d != 0 :: d in n.children <==> d in Kids(n)
  {
    forall i | 0 <= i <= m && n.children[i] != 0
      ensures n.children[i] in Kids(n)
    {
      assert Kids(n)[i] == n.children[i];
    }
  }

  lemma DivideLevelled(st: Store, st': Store, lv: map<nat, nat>, m: nat, T: nat, b: nat)
    requires Levelled(st, lv, m) && Divides(st, st', m, T, b) && T in lv && lv[T] >= 1 && b !in lv && b != 0
    requires forall c | c in Kids(st[T]) :: c in st && st[c].parent == T
    ensures Levelled(st', lv[b := lv[T]], m)
  {
    hide *;
    HalfOk(st, st', lv, m, T, b, T);
    HalfOk(st, st', lv, m, T, b, b);
    RootOfLevelled(st, lv, m, T);
    var lv' := lv[b := lv[T]];
    forall c | c in lv'
      ensures c != 0 && c in st' && NodeOk(st', lv', m, c)
    {
      if c != b && c != T {
        RootOfLevelled(st, lv, m, c);
        DivideOthers(st, st', m, T, b, c);
        OtherOk(st, st', lv, m, b, lv[T], c);
      }
    }
    LevelledIntro(st', lv', m);
  }

  lemma DivideOthers(st: Store, st': Store, m: nat, T: nat, b: nat, c: nat)
    requires Divides(st, st', m, T, b) && c in st && c != T && T != 0
    requires forall d | d in Kids(st[T]) :: d in st && st[d].parent == T
    ensures c in st' && (st'[c] == st[c] || (st'[c] == st[c].(parent := b) && st[c].parent != 0))
  {
    assert forall d | d in Kids(st'[b]) :: d in Kids(st[T]);
  }

  /** A node of which at most the parent has changed. */
  lemma OtherOk(st: Store, st': Store, lv: map<nat, nat>, m: nat, b: nat, h: nat, c: nat)
    requires c in lv && c in st && NodeOk(st, lv, m, c) && b !in lv && c in st'
    requires st'[c] == st[c] || (st'[c] == st[c].(parent := b) && st[c].parent != 0)
    ensures NodeOk(st', lv[b := h], m, c)
  {
  }

  lemma HalfOk(st: Store, st': Store, lv: map<nat, nat>, m: nat, T: nat, b: nat, c: nat)
    requires Levelled(st, lv, m) && Divides(st, st', m, T, b) && T in lv && lv[T] >= 1 && b !in lv && b != 0
    requires c == T || c == b
    ensures c in st' && NodeOk(st', lv[b := lv[T]], m, c)
  {
    hide *;
    RootOfLevelled(st, lv, m, T);
    NodeKids(st, lv, m, T);
    DividesHalf(st, st', m, T, b, c);
    NodeOkIntro(st', lv[b := lv[T]], m, c);
  }

  lemma DividesHalf(st: Store, st': Store, m: nat, T: nat, b: nat, c: nat)
    requires Divides(st, st', m, T, b) && (c == T || c == b)
    ensures c in st' && T in st && T in st' && b in st' && b != T && Shape(st[T], m) && Shape(st'[c], m)
    ensures st'[c].numKeys >= 1
    ensures forall d | d in KidsAt(st', c) :: d in KidsAt(st, T)
    ensures st[T].children[st[T].numKeys] != 0 ==> st'[c].children[st'[c].numKeys] != 0
  {
  }

  lemma NodeKids(st: Store, lv: map<nat, nat>, m: nat, b: nat)
    requires b in lv && b in st && NodeOk(st, lv, m, b) && lv[b] >= 1
    ensures Shape(st[b], m) && (lv[b] >= 2 ==> st[b].children[st[b].numKeys] != 0)
    ensures forall d | d in KidsAt(st, b) :: d in lv && lv[d] + 1 == lv[b]
  {
  }

  lemma NodeOkIntro(st: Store, lv: map<nat, nat>, m: nat, b: nat)
    requires b in lv && b in st && lv[b] >= 1 && Shape(st[b], m)
    requires lv[b] >= 2 ==> st[b].children[st[b].numKeys] != 0
    requires st[b].parent != 0 ==> st[b].numKeys >= 1
    requires forall d | d in KidsAt(st, b) :: d in lv && lv[d] + 1 == lv[b]
    ensures NodeOk(st, lv, m, b)
  {
    assert forall i | 0 <= i < Count(st[b]) :: Kids(st[b])[i] == st[b].children[i];
  }

  lemma LevelledIntro(st: Store, lv: map<nat, nat>, m: nat)
    requires forall b | b in lv :: b != 0 && b in st && NodeOk(st, lv, m, b)
    ensures Levelled(st, lv, m)
  {
  }

  lemma RootOfLevelled(st: Store, lv: map<nat, nat>, m: nat, r: nat)
    requires Levelled(st, lv, m) && r in lv
    ensures r in st && r != 0 && NodeOk(st, lv, m, r)
  {
  }

  lemma KidsOneBelow(st: Store, lv: map<nat, nat>, m: nat, r: nat)
    requires Levelled(st, lv, m) && r in lv && lv[r] >= 1
    ensures r in st && r != 0 && forall d | d in KidsAt(st, r) :: d in lv && lv[d] + 1 == lv[r]
  {
    assert NodeOk(st, lv, m, r);
  }

  /** The row of T with the new block anywhere in it: each child keeps one parent. */
  lemma DivideRow(st: Store, st': Store, lv: map<nat, nat>, m: nat, row: seq<nat>, h: nat, T: nat, b: nat, q: nat)
    requires Levelled(st, lv, m) && Divides(st, st', m, T, b) && b !in lv && h >= 1
    requires RowOk(st, lv, row, h) && T in row && q <= |row|
    requires Levelled(st', lv[b := h], m)
    requires NoDup(KidsAt(st, T))
    ensures RowOk(st', lv[b := h], InsertAt(row, q, b), h)
  {
    hide *;
    RowFacts(st, lv, row, h);
    InsertAtNoDup(row, q, b);
    KidsBelow(st, lv, m, row, h);
    forall c | c in InsertAt(row, q, b)
      ensures c in st'
      ensures forall d | d in KidsAt(st', c) :: d in st' && st'[d].parent == c
    {
      RootOfLevelled(st', lv[b := h], m, c);
      DivideParents(st, st', lv, m, row, h, T, b, c);
    }
    RowOkIntro(st', lv[b := h], InsertAt(row, q, b), h);
  }

  lemma RowOkIntro(st: Store, lv: map<nat, nat>, row: seq<nat>, h: nat)
    requires NoDup(row) && forall b | b in row :: b in lv && lv[b] == h && b in st
    requires forall b | b in row :: forall c | c in KidsAt(st, b) :: c in st && st[c].parent == b
    ensures RowOk(st, lv, row, h)
  {
  }

  lemma DivideParents(st: Store, st': Store, lv: map<nat, nat>, m: nat, row: seq<nat>, h: nat, T: nat, b: nat, c: nat)
    requires Divides(st, st', m, T, b) && b !in lv
    requires RowOk(st, lv, row, h) && T in row && (c == b || c in row)
    requires forall c, d | c in row && d in KidsAt(st, c) :: d in lv && lv[d] + 1 == h
    requires NoDup(KidsAt(st, T))
    ensures forall d | d in KidsAt(st', c) :: d in st' && st'[d].parent == c
  {
    hide *;
    var was := if c == b then T else c;
    DividedParents(st, st', m, T, b);
    DividedKids(st, st', m, T, b);
    SplitNoDup(KidsAt(st', T), KidsAt(st', b));
    RowFacts(st, lv, row, h);
    RowParents(st, lv, row, h);
    if c != b && c != T { DivideKeeps(st, st', m, T, b, [c]); }
    forall d | d in KidsAt(st', c)
      ensures d in st' && st'[d].parent == c
    {
      assert d in KidsAt(st, was) && st[d].parent == was && lv[d] + 1 == h;
      assert d in KidsAt(st', b) ==> d in KidsAt(st, T);
    }
  }

  lemma DividedParents(st: Store, st': Store, m: nat, T: nat, b: nat)
    requires Divides(st, st', m, T, b)
    ensures T in st && b !in st
    ensures forall d | d in st && d != T :: d in st' && st'[d].parent == if d in KidsAt(st', b) then b else st[d].parent
  {
  }

  lemma SplitNoDup<T>(a: seq<T>, b: seq<T>)
    requires NoDup(a + b)
    ensures NoDup(a) && NoDup(b) && (forall x | x in a :: x !in b)
    ensures forall x :: x in a + b <==> x in a || x in b
  {
    forall i, j | 0 <= i < |a| && 0 <= j < |b|
      ensures a[i] != b[j]
    {
      assert (a + b)[i] != (a + b)[|a| + j];
    }
    forall i, j | 0 <= i < j < |b|
      ensures b[i] != b[j]
    {
      assert (a + b)[|a| + i] != (a + b)[|a| + j];
    }
    forall i, j | 0 <= i < j < |a|
      ensures a[i] != a[j]
    {
      assert (a + b)[i] != (a + b)[j];
    }
  }

  lemma DivideKeeps(st: Store, st': Store, m: nat, T: nat, b: nat, row: seq<nat>)
    requires Divides(st, st', m, T, b) && T !in row && b !in row
    ensures forall c | c in row :: KidsAt(st', c) == KidsAt(st, c)
  {
  }

  lemma DividedKids(st: Store, st': Store, m: nat, T: nat, b: nat)
    requires Divides(st, st', m, T, b)
    ensures KidsAt(st, T) == KidsAt(st', T) + KidsAt(st', b)
  {
  }

  /** With the new block right behind T, the row below reads the same. */
  lemma DivideFlat(st: Store, st': Store, m: nat, row: seq<nat>, i: nat, b: nat)
    requires i < |row| && NoDup(row) && Divides(st, st', m, row[i], b)
    requires b !in row
    ensures Flat(st', InsertAt(row, i + 1, b)) == Flat(st, row)
  {
    hide *;
    var T := row[i];
    var before, after := row[..i], row[i + 1..];
    NotAround(row, i);
    FlatAround(st, row, i);
    DivideKeeps(st, st', m, T, b, before);
    DivideKeeps(st, st', m, T, b, after);
    DividedKids(st, st', m, T, b);
    InsertBehind(row, i, b);
    FlatFrame(st, st', before);
    FlatFrame(st, st', after);
    FlatConcat(st', before, [T, b] + after);
    FlatConcat(st', [T, b], after);
    FlatTwo(st', T, b);
  }

  lemma InsertBehind<T>(s: seq<T>, i: nat, x: T)
    requires i < |s|
    ensures InsertAt(s, i + 1, x) == s[..i] + ([s[i], x] + s[i + 1..])
  {
  }

  lemma FlatTwo(st: Store, a: nat, b: nat)
    ensures Flat(st, [a, b]) == KidsAt(st, a) + KidsAt(st, b)
  {
    assert [a, b][1..] == [b] && [b][1..] == [];
    assert Flat(st, [b]) == KidsAt(st, b) + [];
  }

  /** With the new block anywhere in the row, the row below holds the same blocks. */
  lemma DivideFlatAnywhere(st: Store, st': Store, m: nat, row: seq<nat>, i: nat, b: nat, q: nat)
    requires i < |row| && NoDup(row) && Divides(st, st', m, row[i], b)
    requires q <= |row| && b !in row
    ensures multiset(Flat(st', InsertAt(row, q, b))) == multiset(Flat(st, row))
  {
    FlatInsert(st', row, q, b);
    FlatInsert(st', row, i + 1, b);
    DivideFlat(st, st', m, row, i, b);
  }

  lemma FlatInsert(st: Store, row: seq<nat>, q: nat, b: nat)
    requires q <= |row|
    ensures multiset(Flat(st, InsertAt(row, q, b))) == multiset(Flat(st, row)) + multiset(KidsAt(st, b))
  {
    var before, after := row[..q], row[q..];
    assert row == before + after;
    assert InsertAt(row, q, b) == before + ([b] + after);
    FlatConcat(st, before, after);
    FlatConcat(st, before, [b] + after);
    assert ([b] + after)[1..] == after;
  }

  lemma NoDupByCount<T>(s: seq<T>, t: seq<T>)
    requires NoDup(s) && multiset(s) == multiset(t)
    ensures NoDup(t)
  {
    forall i, j | 0 <= i < j < |t|
      ensures t[i] != t[j]
    {
      if t[i] == t[j] {
        assert t == t[..i] + [t[i]] + t[i + 1..j] + [t[j]] + t[j + 1..];
        assert multiset(t)[t[i]] >= 2;
        CountAtMostOne(s, t[i]);
      }
    }
  }

  lemma {:induction false} CountAtMostOne<T>(s: seq<T>, x: T)
    requires NoDup(s)
    ensures multiset(s)[x] <= 1
  {
    if s != [] {
      assert s == [s[0]] + s[1..];
      assert s[0] !in s[1..];
      CountAtMostOne(s[1..], x);
    }
  }

  /** Splitting at height h leaves everything above as it was. */
  lemma DivideUpper(st: Store, st': Store, lv: map<nat, nat>, m: nat, rows: seq<seq<nat>>, h: nat, T: nat, b: nat)
    requires Linked(st, lv, m, rows, h) && h + 1 < |rows| && T in rows[h] && b !in lv && b != 0
    requires Divides(st, st', m, T, b) && Levelled(st', lv[b := h], m)
    ensures Linked(st', lv[b := h], m, rows, h + 1)
    ensures Flat(st', rows[h + 1]) == rows[h]
  {
    hide Divides, Levelled, Flat, KidsAt, RowOk;
    RowFacts(st, lv, rows[h], h);
    forall j | h < j < |rows|
      ensures RowOk(st', lv[b := h], rows[j], j) && Flat(st', rows[j]) == rows[j - 1]
    {
      DivideAbove(st, st', lv, m, rows[h], h, rows[j], j, T, b);
      SameKids(st, st', rows[j]);
      FlatFrame(st, st', rows[j]);
    }
    RowFacts(st, lv, Last(rows), |rows| - 1);
    assert Last(rows)[0] in Last(rows);
    DivideUnchanged(st, st', lv, m, rows[h], h, T, b);
    assert Flat(st', rows[h + 1]) == rows[h];
  }

  lemma SameKids(st: Store, st': Store, row: seq<nat>)
    requires forall c | c in row :: c in st && c in st' && st'[c] == st[c]
    ensures forall c | c in row :: KidsAt(st', c) == KidsAt(st, c)
  {
  }

  lemma DivideAbove(st: Store, st': Store, lv: map<nat, nat>, m: nat, row: seq<nat>, h: nat, upper: seq<nat>, j: nat,
                    T: nat, b: nat)
    requires Levelled(st, lv, m) && RowOk(st, lv, row, h) && RowOk(st, lv, upper, j) && 1 <= h < j
    requires T in row && b !in lv && Divides(st, st', m, T, b)
    ensures RowOk(st', lv[b := h], upper, j)
    ensures forall c | c in upper :: c in st && c in st' && st'[c] == st[c]
  {
    KidsBelow(st, lv, m, row, h);
    KidsBelow(st, lv, m, upper, j);
    DivideUnchanged(st, st', lv, m, row, h, T, b);
    hide Divides, Levelled, Kids;
    forall c, d | c in upper && d in KidsAt(st', c)
      ensures d in st' && st'[d].parent == c
    {
      assert d in KidsAt(st, c) && lv[d] + 1 == j && st[d].parent == c;
    }
  }

  lemma DivideUnchanged(st: Store, st': Store, lv: map<nat, nat>, m: nat, row: seq<nat>, h: nat, T: nat, b: nat)
    requires Levelled(st, lv, m) && RowOk(st, lv, row, h) && T in row && b !in lv && Divides(st, st', m, T, b) && 1 <= h
    ensures forall c | c in lv && lv[c] >= h ::
      c in st && c in st' && st'[c].parent == st[c].parent && (c != T ==> st'[c] == st[c])
  {
    KidsBelow(st, lv, m, row, h);
    assert forall d | d in Kids(st'[b]) :: d in Kids(st[T]) && lv[d] + 1 == h;
  }

  // ----- What a change at one height leaves alone below it -----

  /** Below height h nothing has changed but the parents of the nodes right below h. */
  ghost predicate LowerKept(st: Store, st': Store, lv: map<nat, nat>, lv': map<nat, nat>, h: nat) {
    && (forall c | c in lv' && lv'[c] < h :: c in lv && lv[c] == lv'[c])
    && forall c | c in lv && lv[c] < h ::
      && c in st && c in st' && c in lv' && lv'[c] == lv[c]
      && st'[c] == st[c].(parent := st'[c].parent)
      && (lv[c] + 1 < h ==> st'[c] == st[c])
  }

  /** A row two or more heights below a change stays as it is. */
  lemma RowKeptBelow(st: Store, st': Store, lv: map<nat, nat>, lv': map<nat, nat>, m: nat, row: seq<nat>, h: nat)
    requires Levelled(st, lv, m) && RowOk(st, lv, row, h) && h >= 1 && LowerKept(st, st', lv, lv', h + 1)
    ensures RowOk(st', lv', row, h) && Flat(st', row) == Flat(st, row)
  {
    hide *;
    KidsBelow(st, lv, m, row, h);
    RowFacts(st, lv, row, h);
    RowParents(st, lv, row, h);
    forall c | c in row
      ensures c in lv' && lv'[c] == h && c in st' && KidsAt(st', c) == KidsAt(st, c)
    {
      KeptAt(st, st', lv, lv', h + 1, c);
      SameChildren(st, st', c);
    }
    forall c, d | c in row && d in KidsAt(st', c)
      ensures d in st' && st'[d].parent == c
    {
      KeptAt(st, st', lv, lv', h + 1, d);
    }
    RowOkIntro(st', lv', row, h);
    FlatFrame(st, st', row);
  }

  lemma RowParents(st: Store, lv: map<nat, nat>, row: seq<nat>, h: nat)
    requires RowOk(st, lv, row, h)
    ensures forall c | c in row :: c in st
    ensures forall c, d | c in row && d in KidsAt(st, c) :: d in st && st[d].parent == c
  {
  }

  lemma SameChildren(st: Store, st': Store, c: nat)
    requires c in st && c in st' && st'[c] == st[c].(parent := st'[c].parent)
    ensures KidsAt(st', c) == KidsAt(st, c)
  {
  }

  lemma KeptAt(st: Store, st': Store, lv: map<nat, nat>, lv': map<nat, nat>, h: nat, c: nat)
    requires LowerKept(st, st', lv, lv', h) && c in lv && lv[c] < h
    ensures c in st && c in st' && st'[c] == st[c].(parent := st'[c].parent) && c in lv' && lv'[c] == lv[c]
    ensures lv[c] + 1 < h ==> st'[c] == st[c]
  {
  }

  // ----- Keys -----

  /** The keys of an inner node are the maxima of the children in front of its last slot. */
  ghost predicate KeysRight(st: Store, lv: map<nat, nat>, m: nat, b: nat)
    requires Levelled(st, lv, m) && b in lv && lv[b] >= 1
  {
    assert NodeOk(st, lv, m, b);
    forall i | 0 <= i < st[b].numKeys :: st[b].keys[i] == MaxKey(st, lv, m, st[b].children[i])
  }

  /** What a maximum depends on. */
  lemma {:induction false} MaxKeyFrame(st: Store, st': Store, lv: map<nat, nat>, lv': map<nat, nat>, m: nat, b: nat)
    requires Levelled(st, lv, m) && Levelled(st', lv', m) && b in lv
    requires forall c | c in lv && lv[c] <= lv[b] ::
      c in lv' && lv'[c] == lv[c] && KidsAt(st', c) == KidsAt(st, c) && (lv[c] == 0 ==> st'[c].key == st[c].key)
    ensures MaxKey(st', lv', m, b) == MaxKey(st, lv, m, b)
    decreases lv[b]
  {
    assert NodeOk(st, lv, m, b) && NodeOk(st', lv', m, b);
    if lv[b] != 0 && Count(st[b]) != 0 {
      MaxKeyFrame(st, st', lv, lv', m, Last(Kids(st[b])));
    }
  }

  /** Rewriting the keys of one node changes no link. */
  lemma KeysOnly(st: Store, st': Store, lv: map<nat, nat>, m: nat, rows: seq<seq<nat>>, h: nat, b: nat, keys: seq<nat>)
    requires Linked(st, lv, m, rows, h) && b in lv && b in st && lv[b] >= 1
    requires st' == st[b := st[b].(keys := keys)]
    requires |keys| == m && forall i | st[b].numKeys <= i < m :: keys[i] == 0
    ensures Linked(st', lv, m, rows, h) && Flat(st', rows[h]) == Flat(st, rows[h])
  {
    hide Levelled, KidsAt, Covered, NoDup, Flat, RowOk;
    KeysOnlyLevelled(st, st', lv, m, b, keys);
    KeysOnlySame(st, st', b, keys);
    LinkedSame(st, st', lv, m, rows, h);
  }

  lemma KeysOnlySame(st: Store, st': Store, b: nat, keys: seq<nat>)
    requires b in st && st' == st[b := st[b].(keys := keys)]
    ensures forall c :: KidsAt(st', c) == KidsAt(st, c)
    ensures forall c | c in st :: c in st' && st'[c].parent == st[c].parent
  {
  }

  /** Links are a matter of children and parents alone. */
  lemma LinkedSame(st: Store, st': Store, lv: map<nat, nat>, m: nat, rows: seq<seq<nat>>, h: nat)
    requires Linked(st, lv, m, rows, h) && Levelled(st', lv, m)
    requires forall c :: KidsAt(st', c) == KidsAt(st, c)
    requires forall c | c in st :: c in st' && st'[c].parent == st[c].parent
    ensures Linked(st', lv, m, rows, h) && Flat(st', rows[h]) == Flat(st, rows[h])
  {
    hide Levelled, KidsAt, Covered, NoDup, Flat;
    forall j | h <= j < |rows|
      ensures RowOk(st', lv, rows[j], j) && Flat(st', rows[j]) == Flat(st, rows[j])
    {
      FlatFrame(st, st', rows[j]);
    }
    assert Last(rows)[0] in Last(rows);
  }

  lemma KeysOnlyLevelled(st: Store, st': Store, lv: map<nat, nat>, m: nat, b: nat, keys: seq<nat>)
    requires Levelled(st, lv, m) && b in lv && b in st && lv[b] >= 1
    requires st' == st[b := st[b].(keys := keys)]
    requires |keys| == m && forall i | st[b].numKeys <= i < m :: keys[i] == 0
    ensures Levelled(st', lv, m)
  {
    forall c | c in lv
      ensures c in st' && NodeOk(st', lv, m, c)
    {
      assert NodeOk(st, lv, m, c);
    }
  }

  // ----- Ways up the tree -----

  lemma LinkedRow(st: Store, lv: map<nat, nat>, m: nat, rows: seq<seq<nat>>, k: nat, h: nat)
    requires Linked(st, lv, m, rows, k) && k <= h < |rows|
    ensures Levelled(st, lv, m) && RowOk(st, lv, rows[h], h) && NoDup(rows[h])
    ensures h > k ==> Flat(st, rows[h]) == rows[h - 1]
    ensures NoDup(Flat(st, rows[k]))
  {
  }

  lemma RootByParent(st: Store, lv: map<nat, nat>, m: nat, rows: seq<seq<nat>>, h: nat, j: nat, b: nat)
    requires Linked(st, lv, m, rows, h) && h <= j < |rows| && b in rows[j]
    ensures b in st && (st[b].parent == 0 <==> j == |rows| - 1)
    ensures j < |rows| - 1 ==> st[b].parent in rows[j + 1] && b in KidsAt(st, st[b].parent)
    ensures j == |rows| - 1 ==> rows[j] == [b]
  {
    hide KidsAt, NoDup, Flat, NodeOk, Covered;
    RowFacts(st, lv, rows[j], j);
    if j < |rows| - 1 {
      FlatMembers(st, rows[j + 1]);
      assert b in Flat(st, rows[j + 1]);
      var p :| p in rows[j + 1] && b in KidsAt(st, p);
      assert st[b].parent == p && p in lv;
    }
  }

  // ----- What the operations on links leave alone -----

  /** What a node is and holds, apart from its place in the tree. */
  predicate SameData(n: Node, n': Node) {
    n'.isLeaf == n.isLeaf && n'.ftype == n.ftype && n'.key == n.key && n'.value == n.value && n'.left == n.left
  }

  predicate Blank(n: Node) {
    !n.isLeaf && n.ftype == 0 && n.key == 0 && n.value == 0
  }

  /**
    Every node holds what it held. Its right sibling is the one from before, or a new node whose left
    sibling it is. New nodes are blank inner nodes.
   */
  ghost predicate Intact(st: Store, st': Store) {
    && (forall c | c in st :: c in st' && SameData(st[c], st'[c]))
    && (forall c | c in st && st'[c].right != st[c].right :: NewSibling(st, st', c))
    && forall c | c in st' && c !in st :: Blank(st'[c])
  }

  ghost predicate NewSibling(st: Store, st': Store, c: nat)
    requires c in st'
  {
    var b := st'[c].right;
    b !in st && b in st' && st'[b].left == c
  }

  /** x and b are siblings, b is the last of them. */
  ghost predicate Twins(st: Store, x: nat, b: nat) {
    x in st && b in st && st[x].right == b && st[b].left == x && st[b].right == 0
  }

  lemma IntactSelf(st: Store)
    ensures Intact(st, st)
  {
  }

  lemma IntactTwice(st: Store, st1: Store, st2: Store)
    requires Intact(st, st1) && Intact(st1, st2)
    ensures Intact(st, st2)
  {
    forall c | c in st && st2[c].right != st[c].right
      ensures NewSibling(st, st2, c)
    {
      if st1[c].right == st[c].right { assert NewSibling(st1, st2, c); } else { assert NewSibling(st, st1, c); }
    }
  }

  /** Only the links of one node have changed, and the parent of another. */
  lemma IntactHung(st: Store, st': Store, P: nat, b: nat)
    requires P in st && P in st' && b in st && P != b && st' == st[P := st'[P]][b := st[b].(parent := P)]
    requires st'[P] == st[P].(keys := st'[P].keys, children := st'[P].children, numKeys := st'[P].numKeys)
    ensures Intact(st, st')
  {
  }

  lemma IntactKeys(st: Store, st': Store, b: nat, keys: seq<nat>)
    requires b in st && st' == st[b := st[b].(keys := keys)]
    ensures Intact(st, st')
  {
  }

  /** Halving a node makes two siblings of it. */
  lemma SplitOffIntact(st: Store, st': Store, mid: nat, T: nat, b: nat, parent: nat)
    requires SplitsOff(st, st', mid, T, b, parent)
    ensures Intact(st, st') && Twins(st', T, b)
  {
  }

  lemma TwinsKept(st: Store, st': Store, x: nat, b: nat)
    requires Twins(st, x, b) && x in st' && b in st'
    requires st'[x].right == st[x].right && st'[b].right == st[b].right && st'[b].left == st[b].left
    ensures Twins(st', x, b)
  {
  }

  // ----- Blocks taken -----

  /** The blocks taken are those of the nodes that the tree has gained, all above the leaves; no height falls. */
  ghost predicate Taken(lv: map<nat, nat>, lv': map<nat, nat>, live: set<nat>, live': set<nat>) {
    && lv.Keys <= lv'.Keys && live' == live + (lv'.Keys - lv.Keys)
    && (forall b | b in lv :: lv'[b] >= lv[b])
    && forall b | b in lv' && b !in lv :: b !in live && lv'[b] >= 1
  }

  lemma TakenNone(lv: map<nat, nat>, live: set<nat>)
    ensures Taken(lv, lv, live, live)
  {
  }

  lemma TakenOne(lv: map<nat, nat>, live: set<nat>, b: nat, h: nat)
    requires b !in lv && b !in live && h >= 1
    ensures Taken(lv, lv[b := h], live, live + {b})
  {
  }

  lemma TakenTwice(lv: map<nat, nat>, lv1: map<nat, nat>, lv2: map<nat, nat>,
                   live: set<nat>, live1: set<nat>, live2: set<nat>)
    requires Taken(lv, lv1, live, live1) && Taken(lv1, lv2, live1, live2)
    ensures Taken(lv, lv2, live, live2)
  {
  }

  // ----- Free blocks -----

  /** The number of blocks, other than block 0, that are not given out. */
  ghost function FreeBlocks(live: set<nat>, total: nat): nat {
    |set b: nat | 0 < b < total && b !in live|
  }

  lemma NoneLeft(live: set<nat>, total: nat)
    requires forall c: nat | 0 < c < total :: c in live
    ensures FreeBlocks(live, total) == 0
  {
    assert (set b: nat | 0 < b < total && b !in live) == {};
  }

  lemma OneTaken(live: set<nat>, total: nat, b: nat)
    requires 0 < b < total && b !in live
    ensures FreeBlocks(live, total) == FreeBlocks(live + {b}, total) + 1
  {
    var now := set c: nat | 0 < c < total && c !in live + {b};
    assert (set c: nat | 0 < c < total && c !in live) == now + {b};
  }
}
