/**
  The B+tree of btr.c over a store of blocks. A node is named by its block, so all node arguments
  are the stored nodes themselves. MAX_KEYS is 2 * mid and MIN_KEYS is mid.
 */
module BTree {
  import opened Sequences
  import opened BTreeModel
  import opened BTreeSplits
  import opened BTreeSpread
  import opened BTreeOrder
  import opened BTreeInsertion
  import opened BTreeLanding
  import opened BTreeLeaves
  import opened BTreeSearch

  class BTree {
    const mid: nat
    const root: nat
    const total: nat                // the number of blocks on the disk
    var store: Store
    var live: set<nat>              // the blocks that the allocator has given out
    ghost var rows: seq<seq<nat>>
    ghost var lv: map<nat, nat>

    ghost predicate Valid()
      reads this
    {
      && mid >= 2
      && Linked(store, lv, 2 * mid, rows, 1) && Last(rows) == [root]
      && store.Keys <= live
    }

    /** The leaves from left to right. */
    ghost function Leaves(): seq<nat>
      reads this
      requires Valid()
    {
      Flat(store, rows[1])
    }

    /** An empty tree over one block. */
    constructor (mid: nat, root: nat, total: nat, used: set<nat>)
      requires mid >= 2 && root != 0 && root !in used
      ensures Valid() && this.mid == mid && this.root == root && this.total == total
      ensures live == used + {root} && Leaves() == []
      ensures InOrder() && Small()
    {
      this.mid, this.root, this.total, live := mid, root, total, used + {root};
      store := map[root := Node(false, 0, 0, 0, 0, Zeros(2 * mid), Zeros(2 * mid + 1), 0, 0, 0)];
      rows, lv := [[], [root]], map[root := 1];
      new;
      EmptyTree();
    }

    lemma EmptyTree()
      requires mid >= 2 && root != 0 && rows == [[], [root]] && lv == map[root := 1] && store.Keys <= live
      requires store == map[root := Node(false, 0, 0, 0, 0, Zeros(2 * mid), Zeros(2 * mid + 1), 0, 0, 0)]
      ensures Valid() && Leaves() == [] && InOrder() && Small()
    {
      FlatOne(store, root);
      assert KidsAt(store, root) == [];
      assert NodeOk(store, lv, 2 * mid, root);
    }

    // ----- Blocks and nodes -----

    /** The smallest free block; 0, which is never free, when there is none. */
    method AllocPage() returns (b: nat)
      modifies this`live
      ensures b == 0 <==> FreeBlocks(old(live), total) == 0
      ensures b == 0 ==> live == old(live)
      ensures b != 0 ==> b < total && b !in old(live) && live == old(live) + {b}
      ensures b != 0 ==> FreeBlocks(live, total) == FreeBlocks(old(live), total) - 1
      ensures b != 0 ==> forall c: nat | 0 < c < b :: c in old(live)
    {
      b := 1;
      while b < total && b in live
        invariant b >= 1 && forall c: nat | 0 < c < b && c < total :: c in live
      {
        b := b + 1;
      }
      if b >= total {
        NoneLeft(live, total);
        return 0;
      }
      OneTaken(live, total, b);
      live := live + {b};
    }

    /** A new node; 0 and no node when no block is left. */
    method NodeCreate(isLeaf: bool) returns (b: nat)
      requires store.Keys <= live
      modifies this`live, this`store
      ensures b == 0 <==> FreeBlocks(old(live), total) == 0
      ensures b == 0 ==> live == old(live) && store == old(store)
      ensures b != 0 ==> b < total && b !in old(live) && live == old(live) + {b}
      ensures b != 0 ==> FreeBlocks(live, total) == FreeBlocks(old(live), total) - 1
      ensures b != 0 ==>
        store == old(store)[b := Node(isLeaf, 0, 0, 0, 0, Zeros(2 * mid), Zeros(2 * mid + 1), 0, 0, 0)]
    {
      b := AllocPage();
      if b == 0 { return; }
      store := store[b := Node(isLeaf, 0, 0, 0, 0, Zeros(2 * mid), Zeros(2 * mid + 1), 0, 0, 0)];
    }

    /** The key of the last leaf below a node. */
    method FindMaximum(b: nat) returns (key: nat)
      requires Levelled(store, lv, 2 * mid) && b in lv
      ensures key == MaxKey(store, lv, 2 * mid, b)
      decreases lv[b]
    {
      assert NodeOk(store, lv, 2 * mid, b);
      var node := store[b];
      if node.isLeaf { return node.key; }
      var i: int := node.numKeys;
      while i >= 0
        invariant -1 <= i <= node.numKeys
        invariant i < node.numKeys ==> Count(node) == node.numKeys
        invariant i >= node.numKeys - 1 || node.numKeys == 0
      {
        if node.children[i] != 0 {
          key := FindMaximum(node.children[i]);
          return;
        }
        i := i - 1;
      }
      return 0;
    }

    // ----- Splitting -----

    /** The new parent of a list of children; empty slots are skipped. */
    method Adopt(kids: seq<nat>, parent: nat)
      requires forall c | c in kids && c != 0 :: c in store
      modifies this`store
      ensures store.Keys == old(store).Keys
      ensures forall c | c in store ::
        store[c] == if c in kids && c != 0 then old(store)[c].(parent := parent) else old(store)[c]
    {
      for i := 0 to |kids|
        invariant store.Keys == old(store).Keys
        invariant forall c | c in store ::
          store[c] == if c in kids[..i] && c != 0 then old(store)[c].(parent := parent) else old(store)[c]
      {
        assert kids[i] in kids && kids[..i + 1] == kids[..i] + [kids[i]];
        if kids[i] != 0 {
          store := store[kids[i] := store[kids[i]].(parent := parent)];
        }
      }
      assert kids[..|kids|] == kids;
    }

    /** Moves the upper half of a full child into a new node, and hands the moved children over to it. */
    method SplitOff(node: nat, child: nat) returns (b: nat)
      requires store.Keys <= live && child in store && mid >= 2 && FreeBlocks(live, total) >= 1
      requires Shape(store[child], 2 * mid) && store[child].numKeys == 2 * mid
      requires child !in Kids(store[child])
      requires forall c | c in Kids(store[child]) :: c in store
      modifies this`store, this`live
      ensures SplitsOff(old(store), store, mid, child, b, node)
      ensures Intact(old(store), store) && Twins(store, child, b)
      ensures b != 0 && b !in old(live) && live == old(live) + {b} && store.Keys <= live
      ensures FreeBlocks(live, total) == FreeBlocks(old(live), total) - 1
    {
      hide *;
      ghost var full := store[child];
      UpperKids(full, mid, node, child);
      b := NodeCreate(false);
      var c, n := Halve(store[child], store[b], node, child, b);
      Adopt(n.children, b);
      ghost var st := store;
      store := store[child := c];
      store := store[b := n];
      SplitsOffIntro(old(store), st, store, mid, node, child, b);
      SplitOffIntact(old(store), store, mid, child, b, node);
    }

    static lemma SplitsOffParent(st: Store, st1: Store, mid: nat, child: nat, b: nat, node: nat)
      requires SplitsOff(st, st1, mid, child, b, node)
      ensures child in st && child in st1 && st1[child].parent == st[child].parent && child != b
    {
    }

    static lemma SplitsOffIntro(st: Store, st1: Store, st2: Store, mid: nat, node: nat, child: nat, b: nat)
      requires child in st && b !in st && Shape(st[child], 2 * mid) && st[child].numKeys == 2 * mid && mid >= 2
      requires |st[child].keys| == 2 * mid && |st[child].children| == 2 * mid + 1
      requires st1.Keys == st.Keys + {b}
      requires var n := RightHalf(st[child], mid, node, child);
        && st2 == st1[child := LeftHalf(st[child], mid, b)][b := n]
        && forall c | c in st :: st1[c] == if c in n.children && c != 0 then st[c].(parent := b) else st[c]
      ensures SplitsOff(st, st2, mid, child, b, node)
    {
      hide Shape, LeftHalf, RightHalf;
    }

    static lemma UpperKids(full: Node, mid: nat, node: nat, child: nat)
      requires mid >= 2 && Shape(full, 2 * mid) && full.numKeys == 2 * mid
      ensures |full.keys| == 2 * mid && |full.children| == 2 * mid + 1
      ensures Shape(full, |full.keys|)
      ensures forall c | c != 0 && c in RightHalf(full, mid, node, child).children :: c in Kids(full)
    {
      UpperArrays(full, RightHalf(full, mid, node, child), mid);
      UsedSlots(RightHalf(full, mid, node, child), 2 * mid);
    }

    /** The two nodes of a split, from a full node and a new one. */
    static method Halve(full: Node, empty: Node, node: nat, child: nat, b: nat) returns (c: Node, n: Node)
      requires |full.keys| >= 4 && |full.keys| % 2 == 0
      requires Shape(full, |full.keys|) && full.numKeys == |full.keys|
      requires var m := |full.keys|; empty == Node(false, 0, 0, 0, 0, Zeros(m), Zeros(m + 1), 0, 0, 0)
      ensures c == LeftHalf(full, |full.keys| / 2, b) && n == RightHalf(full, |full.keys| / 2, node, child)
    {
      var mid := |full.keys| / 2;
      c, n := full.(right := b), empty.(parent := node, left := child);
      c, n := MoveKeys(c, n);
      c, n := MoveChildren(c, n);
      c := c.(keys := c.keys[mid := 0], numKeys := mid);
      assert c.keys == full.keys[..mid] + Zeros(mid);
    }

    static method MoveChildren(child: Node, right: Node) returns (c: Node, n: Node)
      requires |child.children| >= 5 && |child.children| % 2 == 1 && child.numKeys + 1 == |child.children|
      requires right.children == Zeros(|child.children|)
      ensures var mid := |child.children| / 2;
        && c == child.(children := child.children[..mid + 1] + Zeros(mid))
        && n == right.(children := child.children[mid + 1..] + Zeros(mid + 1))
    {
      var mid := |child.children| / 2;
      c, n := child, right;
      var i := mid + 1;
      while i <= c.numKeys
        invariant mid + 1 <= i <= 2 * mid + 1
        invariant |c.children| == |n.children| == 2 * mid + 1
        invariant c == child.(children := c.children) && n == right.(children := n.children)
        invariant forall j | 0 <= j <= 2 * mid :: c.children[j] == if mid + 1 <= j < i then 0 else child.children[j]
        invariant forall j | 0 <= j <= 2 * mid ::
          n.children[j] == if j + mid + 1 < i then child.children[j + mid + 1] else 0
      {
        n := n.(children := n.children[i - mid - 1 := c.children[i]]);
        c := c.(children := c.children[i := 0]);
        i := i + 1;
      }
    }

    static method MoveKeys(child: Node, right: Node) returns (c: Node, n: Node)
      requires |child.keys| >= 4 && |child.keys| % 2 == 0 && child.numKeys == |child.keys|
      requires right.keys == Zeros(|child.keys|) && right.numKeys == 0
      ensures var mid := |child.keys| / 2;
        && c == child.(keys := child.keys[..mid + 1] + Zeros(mid - 1))
        && n == right.(keys := child.keys[mid + 1..] + Zeros(mid + 1), numKeys := mid - 1)
    {
      var mid := |child.keys| / 2;
      c, n := child, right;
      var i := mid + 1;
      while i < c.numKeys
        invariant mid + 1 <= i <= 2 * mid
        invariant |c.keys| == |n.keys| == 2 * mid
        invariant c == child.(keys := c.keys) && n == right.(keys := n.keys, numKeys := i - mid - 1)
        invariant forall j | 0 <= j < 2 * mid :: c.keys[j] == if mid + 1 <= j < i then 0 else child.keys[j]
        invariant forall j | 0 <= j < 2 * mid :: n.keys[j] == if j + mid + 1 < i then child.keys[j + mid + 1] else 0
      {
        n := n.(keys := n.keys[i - mid - 1 := c.keys[i]], numKeys := n.numKeys + 1);
        c := c.(keys := c.keys[i := 0]);
        i := i + 1;
      }
    }

    // ----- Adding a child to a node with room -----

    /** The slots from p on move up by one, and b takes slot p. */
    static method ShiftIn(n: Node, p: nat, b: nat) returns (n': Node)
      requires |n.keys| + 1 == |n.children| && Shape(n, |n.keys|) && n.numKeys < |n.keys| && p <= Count(n) && b != 0
      ensures GainsChild(n, n', p, b, |n.keys|)
      ensures n' == n.(children := n'.children, numKeys := n.numKeys + 1)
    {
      var children: seq<nat> := n.children;
      var i: int := n.numKeys;
      while i >= p
        invariant p - 1 <= i <= n.numKeys
        invariant |children| == |n.children|
        invariant forall j | 0 <= j <= i + 1 || n.numKeys + 1 < j < |children| :: children[j] == n.children[j]
        invariant forall j | i < j <= n.numKeys :: children[j + 1] == n.children[j]
      {
        children := children[i + 1 := children[i]];
        i := i - 1;
      }
      children := children[p := b];
      n' := n.(children := children, numKeys := n.numKeys + 1);
      ShiftedKids(n, n', p, b);
    }

    static lemma ShiftedKids(n: Node, n': Node, p: nat, b: nat)
      requires |n.keys| + 1 == |n.children| && Shape(n, |n.keys|) && n.numKeys < |n.keys| && p <= Count(n) && b != 0
      requires |n'.children| == |n.children| && n' == n.(children := n'.children, numKeys := n.numKeys + 1)
      requires n'.children[p] == b
      requires forall j | 0 <= j < p || n.numKeys + 1 < j < |n.children| :: n'.children[j] == n.children[j]
      requires forall j | p <= j <= n.numKeys :: n'.children[j + 1] == n.children[j]
      ensures GainsChild(n, n', p, b, |n.keys|)
    {
      assert Count(n') == Count(n) + 1;
      assert p <= n.numKeys ==> n'.children[n.numKeys + 1] == n.children[n.numKeys];
      forall j | p < j <= n.numKeys + 1
        ensures n'.children[j] == n.children[j - 1]
      {
        assert n'.children[(j - 1) + 1] == n.children[j - 1];
      }
      forall j | 0 <= j < Count(n')
        ensures n'.children[j] == InsertAt(Kids(n), p, b)[j] != 0
      {
        assert j != p ==> n'.children[j] == Kids(n)[if j < p then j else j - 1];
      }
    }

    /** Sets the keys of a node to the maxima of its children. */
    method RefreshKeys(b: nat)
      requires Levelled(store, lv, 2 * mid) && b in lv && lv[b] >= 1
      modifies this`store
      ensures b in store && |store[b].keys| == 2 * mid
      ensures b in old(store) && store == old(store)[b := old(store)[b].(keys := store[b].keys)]
      ensures forall i | old(store)[b].numKeys <= i < 2 * mid :: store[b].keys[i] == 0
      ensures Levelled(store, lv, 2 * mid) && KeysRight(store, lv, 2 * mid, b)
    {
      assert NodeOk(store, lv, 2 * mid, b);
      var node := store[b];
      var keys := node.keys;
      for i := 0 to node.numKeys
        invariant store == old(store) && |keys| == 2 * mid
        invariant forall j | 0 <= j < i :: keys[j] == MaxKey(store, lv, 2 * mid, node.children[j])
        invariant forall j | node.numKeys <= j < 2 * mid :: keys[j] == 0
      {
        if node.children[i] != 0 {
          var key := FindMaximum(node.children[i]);
          keys := keys[i := key];
        }
      }
      store := store[b := node.(keys := keys)];
      KeysOnlyLevelled(old(store), store, lv, 2 * mid, b, keys);
      forall i | 0 <= i < node.numKeys
        ensures keys[i] == MaxKey(store, lv, 2 * mid, node.children[i])
      {
        MaxKeyFrame(old(store), store, lv, lv, 2 * mid, node.children[i]);
      }
    }

    /** Hangs a node that is in no child array yet below another, at position p. */
    method Attach(node: nat, p: nat, b: nat, ghost h: nat, ghost i: nat)
      requires Linked(store, lv, 2 * mid, rows, h) && i < |rows[h]| && rows[h][i] == node
      requires node in store && b in store && b in lv && lv[b] + 1 == h && b !in Flat(store, rows[h])
      requires store[node].numKeys < 2 * mid && p <= Count(store[node])
      requires lv[b] == 0 || store[b].numKeys >= 1
      modifies this`store
      ensures Linked(store, lv, 2 * mid, rows, h)
      ensures |Flat(old(store), rows[h][..i])| + p <= |Flat(old(store), rows[h])|
      ensures Flat(store, rows[h]) == InsertAt(Flat(old(store), rows[h]), |Flat(old(store), rows[h][..i])| + p, b)
      ensures node in store && GainsChild(old(store)[node], store[node], p, b, 2 * mid)
      ensures store == old(store)[node := store[node]][b := old(store)[b].(parent := node)]
      ensures store[node] == old(store)[node].(children := store[node].children, numKeys := store[node].numKeys)
      ensures store[node].numKeys == old(store)[node].numKeys + 1
    {
      hide *;
      AtHeight(node, h, i);
      NotZero(h, b);
      var n := ShiftIn(store[node], p, b);
      store := store[node := n][b := store[b].(parent := node)];
      LinkGains(old(store), store, lv, 2 * mid, rows, h, i, p, b);
    }

    lemma AtHeight(node: nat, h: nat, i: nat)
      requires Linked(store, lv, 2 * mid, rows, h) && i < |rows[h]| && rows[h][i] == node
      ensures node in lv && lv[node] == h && node in store && node != 0
      ensures |store[node].keys| == 2 * mid && |store[node].children| == 2 * mid + 1 && Shape(store[node], 2 * mid)
      ensures h >= 2 ==> Count(store[node]) == store[node].numKeys + 1
    {
      assert node in rows[h];
      assert NodeOk(store, lv, 2 * mid, node);
    }

    lemma NotZero(h: nat, b: nat)
      requires Linked(store, lv, 2 * mid, rows, h) && b in lv
      ensures b != 0
    {
    }

    /** The first slot of a node that holds b. */
    static method PositionOf(n: Node, b: nat) returns (p: nat)
      requires b in Kids(n) && n.numKeys < |n.children|
      ensures p == IndexOf(Kids(n), b)
    {
      p := 0;
      while n.children[p] != b
        invariant p < |Kids(n)| && b !in Kids(n)[..p]
        decreases |Kids(n)| - p
      {
        p := p + 1;
      }
      FirstIsIndexOf(Kids(n), p);
    }

    /** Hangs b below a node with room and sets the keys of that node afresh. */
    method AddChild(node: nat, p: nat, b: nat, ghost h: nat, ghost i: nat)
      requires Linked(store, lv, 2 * mid, rows, h) && i < |rows[h]| && rows[h][i] == node
      requires node in store && b in store && b in lv && lv[b] + 1 == h && b !in Flat(store, rows[h])
      requires store[node].numKeys < 2 * mid && p <= Count(store[node])
      requires lv[b] == 0 || store[b].numKeys >= 1
      modifies this`store
      ensures Linked(store, lv, 2 * mid, rows, h)
      ensures |Flat(old(store), rows[h][..i])| + p <= |Flat(old(store), rows[h])|
      ensures Flat(store, rows[h]) == InsertAt(Flat(old(store), rows[h]), |Flat(old(store), rows[h][..i])| + p, b)
      ensures node in store && GainsChild(old(store)[node], store[node], p, b, 2 * mid)
      ensures store == old(store)[node := store[node]][b := old(store)[b].(parent := node)]
      ensures store[node] == old(store)[node].(keys := store[node].keys, children := store[node].children,
                                               numKeys := store[node].numKeys)
      ensures node in lv && lv[node] == h && store[node].numKeys == old(store)[node].numKeys + 1
      ensures Levelled(store, lv, 2 * mid) && KeysRight(store, lv, 2 * mid, node)
    {
      hide *;
      AtHeight(node, h, i);
      NotZero(h, b);
      Attach(node, p, b, h, i);
      AtHeight(node, h, i);
      LinkedLevelled(h);
      label attached:
      RefreshKeys(node);
      KeysOnly(old@attached(store), store, lv, 2 * mid, rows, h, node, store[node].keys);
      GainsWithKeys(old(store)[node], old@attached(store)[node], store[node].keys, p, b, 2 * mid);
    }

    static lemma AddedIntact(st: Store, st': Store, P: nat, b: nat, x: nat)
      requires P in st && P in st' && b in st && P != b && st' == st[P := st'[P]][b := st[b].(parent := P)]
      requires st'[P] == st[P].(keys := st'[P].keys, children := st'[P].children, numKeys := st'[P].numKeys)
      requires Twins(st, x, b) && x != P
      ensures Intact(st, st') && Twins(st', x, b)
    {
      IntactHung(st, st', P, b);
      TwinsKept(st, st', x, b);
    }

    static lemma TakenRoot(lv: map<nat, nat>, live: set<nat>, a: nat, b: nat, r: nat, h: nat)
      requires a !in lv && b !in lv && a !in live && b !in live && h >= 1 && r in lv && lv[r] == h && r != a && r != b
      ensures Taken(lv, lv[a := h][b := h][r := h + 1], live, live + {a, b})
    {
    }

    lemma LinkedLevelled(h: nat)
      requires Linked(store, lv, 2 * mid, rows, h)
      ensures Levelled(store, lv, 2 * mid)
    {
    }

    static lemma GainsWithKeys(n: Node, n': Node, keys: seq<nat>, p: nat, b: nat, m: nat)
      requires GainsChild(n, n', p, b, m) && |keys| == m && forall i | n'.numKeys <= i < m :: keys[i] == 0
      ensures GainsChild(n, n'.(keys := keys), p, b, m)
    {
      assert Kids(n'.(keys := keys)) == Kids(n');
    }

    // ----- Splitting the root -----

    static method CopyLower(full: Node, empty: Node) returns (n: Node)
      requires |full.keys| >= 4 && |full.keys| % 2 == 0 && |full.children| == |full.keys| + 1
      requires empty.numKeys == 0 && empty.keys == Zeros(|full.keys|) && empty.children == Zeros(|full.keys| + 1)
      ensures var mid := |full.keys| / 2;
        n == empty.(numKeys := mid, keys := full.keys[..mid] + Zeros(mid),
                   children := full.children[..mid + 1] + Zeros(mid))
    {
      var mid := |full.keys| / 2;
      n := empty;
      for i := 0 to mid
        invariant |n.keys| == 2 * mid && |n.children| == 2 * mid + 1
        invariant n == empty.(numKeys := i, keys := n.keys, children := n.children)
        invariant forall j | 0 <= j < 2 * mid :: n.keys[j] == if j < i then full.keys[j] else 0
        invariant forall j | 0 <= j <= 2 * mid :: n.children[j] == if j < i then full.children[j] else 0
      {
        n := n.(keys := n.keys[i := full.keys[i]], children := n.children[i := full.children[i]],
                numKeys := n.numKeys + 1);
      }
      n := n.(children := n.children[mid := full.children[mid]]);
    }

    static method CopyUpper(full: Node, empty: Node) returns (n: Node)
      requires |full.keys| >= 4 && |full.keys| % 2 == 0 && |full.children| == |full.keys| + 1
      requires full.numKeys == |full.keys|
      requires empty.numKeys == 0 && empty.keys == Zeros(|full.keys|) && empty.children == Zeros(|full.keys| + 1)
      ensures var mid := |full.keys| / 2;
        n == empty.(numKeys := mid - 1, keys := full.keys[mid + 1..] + Zeros(mid + 1),
                   children := full.children[mid + 1..] + Zeros(mid + 1))
    {
      var mid := |full.keys| / 2;
      n := empty;
      for i := mid + 1 to full.numKeys
        invariant |n.keys| == 2 * mid
        invariant n == empty.(numKeys := i - mid - 1, keys := n.keys)
        invariant forall j | 0 <= j < 2 * mid :: n.keys[j] == if j + mid + 1 < i then full.keys[j + mid + 1] else 0
      {
        n := n.(keys := n.keys[i - mid - 1 := full.keys[i]], numKeys := n.numKeys + 1);
      }
      assert n.keys == full.keys[mid + 1..] + Zeros(mid + 1);
      for i := mid + 1 to full.numKeys + 1
        invariant |n.children| == 2 * mid + 1
        invariant n == empty.(numKeys := mid - 1, keys := full.keys[mid + 1..] + Zeros(mid + 1), children := n.children)
        invariant forall j | 0 <= j <= 2 * mid ::
          n.children[j] == if j + mid + 1 < i then full.children[j + mid + 1] else 0
      {
        n := n.(children := n.children[i - mid - 1 := full.children[i]]);
      }
      if full.children[2 * mid] != 0 {
        n := n.(children := n.children[n.numKeys := full.children[2 * mid]]);
      }
    }

    /** The root over its two halves. */
    static method TopNode(full: Node, a: nat, b: nat) returns (n: Node)
      requires |full.keys| >= 4 && |full.children| == |full.keys| + 1 && !full.isLeaf
      ensures |n.keys| == |full.keys| && n.keys[1..] == Zeros(|full.keys| - 1)
      ensures n == full.(numKeys := 1, keys := n.keys, children := [a, b] + Zeros(|full.keys| - 1))
    {
      var m := |full.keys|;
      n := full.(isLeaf := false, numKeys := 1, children := full.children[0 := a][1 := b]);
      for i := 1 to m
        invariant |n.keys| == m && n == full.(numKeys := 1, keys := n.keys, children := full.children[0 := a][1 := b])
        invariant forall j | 1 <= j < i :: n.keys[j] == 0
      {
        n := n.(keys := n.keys[i := 0]);
      }
      for i := 2 to m + 1
        invariant |n.keys| == m && |n.children| == m + 1
        invariant n == full.(numKeys := 1, keys := n.keys, children := n.children)
        invariant forall j | 1 <= j < m :: n.keys[j] == 0
        invariant n.children[0] == a && n.children[1] == b && forall j | 2 <= j < i :: n.children[j] == 0
      {
        n := n.(children := n.children[i := 0]);
      }
      assert n.children == [a, b] + Zeros(m - 1);
    }

    /** The root keeps its block: both halves of it move to new nodes. */
    method SplitRootNodes(node: nat) returns (a: nat, b: nat)
      requires store.Keys <= live && node in store && mid >= 2 && FreeBlocks(live, total) >= 2
      requires Shape(store[node], 2 * mid) && store[node].numKeys == 2 * mid
      requires node !in Kids(store[node]) && forall c | c in Kids(store[node]) :: c in store
      modifies this`store, this`live
      ensures FreeBlocks(live, total) == FreeBlocks(old(live), total) - 2
      ensures SplitsRoot(old(store), store, mid, node, a, b)
      ensures a != 0 && b != 0 && a !in old(live) && b !in old(live) && live == old(live) + {a, b}
    {
      hide *;
      var full := store[node];
      FullShape(full);
      var na, nb;
      a, b, na, nb := MakeHalves(full);
      RootKidsFrom(full, na, nb, mid);
      Adopt(na.children, a);
      label half:
      Adopt(nb.children, b);
      var top := TopNode(full, a, b);
      Adopted(old(store), old@half(store), store, full, na, nb, mid, node, a, b);
      ghost var st := store;
      store := store[a := na.(parent := node)];
      store := store[b := nb.(parent := node)];
      store := store[node := top];
      SplitsRootIntro(old(store), st, store, mid, node, a, b, na, nb, top);
    }

    /** Two new nodes, side by side, for the halves of a full one. */
    method MakeHalves(full: Node) returns (a: nat, b: nat, na: Node, nb: Node)
      requires FreeBlocks(live, total) >= 2
      requires store.Keys <= live && mid >= 2 && Shape(full, 2 * mid) && full.numKeys == 2 * mid
      modifies this`store, this`live
      ensures FreeBlocks(live, total) == FreeBlocks(old(live), total) - 2
      ensures a != 0 && b != 0 && a != b && a !in old(live) && b !in old(live) && live == old(live) + {a, b}
      ensures store.Keys == old(store).Keys + {a, b} && forall c | c in old(store) :: store[c] == old(store)[c]
      ensures Halves(full, na, nb, mid) && nb.left == a && na.right == b
      ensures na.left == 0 && nb.right == 0 && Blank(na) && Blank(nb)
    {
      a := NodeCreate(false);
      b := NodeCreate(false);
      na := CopyLower(full, store[a].(right := b));
      nb := CopyUpper(full, store[b].(left := a));
    }

    lemma FullShape(full: Node)
      requires mid >= 2 && Shape(full, 2 * mid) && full.numKeys == 2 * mid
      ensures |full.keys| == 2 * mid && |full.children| == 2 * mid + 1 && !full.isLeaf
      ensures forall c | c in Kids(full) :: c != 0
    {
    }

    static lemma Adopted(st: Store, st1: Store, st2: Store, full: Node, na: Node, nb: Node, mid: nat, r: nat, a: nat,
                         b: nat)
      requires r in st && st[r] == full && a !in st && b !in st && r !in Kids(full)
      requires Kids(full) == Kids(na) + Kids(nb)
      requires forall d | d != 0 :: d in na.children <==> d in Kids(na)
      requires forall d | d != 0 :: d in nb.children <==> d in Kids(nb)
      requires st1.Keys == st2.Keys == st.Keys + {a, b}
      requires forall c | c in st :: st1[c] == if c in na.children && c != 0 then st[c].(parent := a) else st[c]
      requires forall c | c in st :: st2[c] == if c in nb.children && c != 0 then st1[c].(parent := b) else st1[c]
      requires forall c | c in Kids(full) :: c in st && c != 0
      ensures forall c | c in st && c != r ::
        st2[c] == if c in Kids(nb) then st[c].(parent := b) else if c in Kids(na) then st[c].(parent := a) else st[c]
    {
      forall c | c in st && c != r
        ensures st2[c] ==
          if c in Kids(nb) then st[c].(parent := b) else if c in Kids(na) then st[c].(parent := a) else st[c]
      {
        assert c in Kids(nb) ==> c in Kids(full);
        assert c in Kids(na) ==> c in Kids(full);
      }
    }

    static lemma SplitsRootIntro(st: Store, st1: Store, st2: Store, mid: nat, r: nat, a: nat, b: nat, na: Node,
                                 nb: Node, top: Node)
      requires r in st && a !in st && b !in st && a != b && st1.Keys == st.Keys + {a, b}
      requires st2 == st1[a := na.(parent := r)][b := nb.(parent := r)][r := top]
      requires Halves(st[r], na, nb, mid) && na.right == b && nb.left == a
      requires na.left == 0 && nb.right == 0 && Blank(na) && Blank(nb)
      requires |top.keys| == 2 * mid && top.keys[1..] == Zeros(2 * mid - 1)
      requires top == st[r].(numKeys := 1, keys := top.keys, children := [a, b] + Zeros(2 * mid - 1))
      requires forall c | c in st && c != r ::
        st1[c] == if c in Kids(nb) then st[c].(parent := b) else if c in Kids(na) then st[c].(parent := a) else st[c]
      ensures SplitsRoot(st, st2, mid, r, a, b)
    {
      assert Kids(na.(parent := r)) == Kids(na) && Kids(nb.(parent := r)) == Kids(nb);
      HalvesParents(st[r], na, nb, mid, r, r);
      hide Halves, Kids;
    }

    static lemma RootKidsFrom(full: Node, na: Node, nb: Node, mid: nat)
      requires Halves(full, na, nb, mid)
      ensures Kids(full) == Kids(na) + Kids(nb) && !full.isLeaf && |full.keys| == 2 * mid
      ensures |full.children| == 2 * mid + 1
      ensures forall d | d != 0 :: d in na.children <==> d in Kids(na)
      ensures forall d | d != 0 :: d in nb.children <==> d in Kids(nb)
    {
      HalvesKids(full, na, nb, mid);
      UsedSlots(na, 2 * mid);
      UsedSlots(nb, 2 * mid);
    }

    /** Splits the full root; the tree is one higher then. */
    method SplitRoot(node: nat, ghost h: nat) returns (ghost a: nat, ghost b: nat)
      requires mid >= 2 && store.Keys <= live
      requires Linked(store, lv, 2 * mid, rows, h) && |rows| == h + 1 && rows[h] == [node]
      requires store[node].numKeys == 2 * mid
      requires FreeBlocks(live, total) >= 2
      modifies this
      ensures FreeBlocks(live, total) == FreeBlocks(old(live), total) - 2
      ensures Intact(old(store), store) && Twins(store, a, b) && Taken(old(lv), lv, old(live), live)
      ensures SplitAt(old(store), store, old(lv), lv, mid, old(rows), rows, h, node, a, b)
      ensures Flat(store, rows[h]) == Flat(old(store), old(rows)[h])
      ensures rows == old(rows)[..h] + [[a, b], [node]]
      ensures Levelled(store, lv, 2 * mid) && node in lv && lv[node] == h + 1 && KeysRight(store, lv, 2 * mid, node)
      ensures Spread(old(store), store, old(lv), lv, mid, h, node, Only(node, a), Only(node, b))
      ensures store.Keys <= live && old(live) <= live
    {
      hide *;
      AtHeight(node, h, 0);
      OwnKids(node, h);
      LinkedIndex(store, lv, 2 * mid, rows, h);
      OthersBelow(lv, rows, h, node);
      var left, right := SplitRootNodes(node);
      a, b := left, right;
      lv := lv[left := h][right := h][node := h + 1];
      rows := rows[..h] + [[left, right], [node]];
      RootSplit(old(store), store, old(lv), lv, mid, old(rows), rows, h, node, left, right);
      LinkedLevelled(h);
      TopKeys(old(store), store, mid, node, left, right);
      SplitRootIntact(old(store), store, mid, node, left, right);
      TakenRoot(old(lv), old(live), left, right, node, h);
      label split:
      var key := FindMaximum(left);
      store := store[node := store[node].(keys := store[node].keys[0 := key])];
      IntactKeys(old@split(store), store, node, store[node].keys);
      IntactTwice(old(store), old@split(store), store);
      TwinsKept(old@split(store), store, left, right);
      RootKeyed(old(store), old@split(store), store, old(lv), lv, mid, old(rows), rows, h, node, left, right, key);
      SplitAtLinked(old(store), store, old(lv), lv, mid, old(rows), rows, h, node, left, right);
      RootSpread(old(store), store, old(lv), lv, mid, rows, h, node, left, right);
    }

    lemma OwnKids(node: nat, h: nat)
      requires Linked(store, lv, 2 * mid, rows, h) && h < |rows| && node in rows[h]
      requires store.Keys <= live
      ensures node in store && node !in Kids(store[node]) && forall c | c in Kids(store[node]) :: c in store
      ensures forall b | b !in live :: b !in store && b !in lv
    {
      assert NodeOk(store, lv, 2 * mid, node);
    }

    // ----- Splitting a child -----

    /** Hangs the new half b of the child split at height h below cp, at position p. */
    method HangHalf(cp: nat, p: nat, b: nat, ghost h: nat, ghost i: nat, ghost j: nat, ghost parent: nat,
                    ghost st: Store, ghost st1: Store, ghost lv0: map<nat, nat>, ghost rows0: seq<seq<nat>>)
      requires Linked(st, lv0, 2 * mid, rows0, h) && h + 1 < |rows0| <= |rows| && i < |rows0[h]|
      requires rows[..h + 1] == rows0[..h + 1]
      requires b !in lv0 && b != 0 && SplitsOff(st, st1, mid, rows0[h][i], b, parent)
      requires Linked(store, lv, 2 * mid, rows, h + 1) && LowerKept(st1, store, lv0[b := h], lv, h + 1)
      requires Flat(store, rows[h + 1]) == rows0[h]
      requires j < |rows[h + 1]| && rows[h + 1][j] == cp && cp in store && b in store && b in lv && lv[b] == h
      requires store[b].numKeys >= 1 && b !in rows0[h]
      requires store[cp].numKeys < 2 * mid && 1 <= p <= |KidsAt(store, cp)| == Count(store[cp])
      requires Twins(store, rows0[h][i], b) && cp != rows0[h][i]
      modifies this`store, this`rows
      ensures Intact(old(store), store) && Twins(store, rows0[h][i], b)
      ensures SplitAt(st, store, lv0, lv, mid, rows0, rows, h, rows0[h][i], rows0[h][i], b)
      ensures KidsAt(old(store), cp)[p - 1] == rows0[h][i] ==> Flat(store, rows[h]) == Flat(st, rows0[h])
      ensures |rows| == |old(rows)| && forall k | h < k < |rows| :: rows[k] == old(rows)[k]
      ensures rows != [] && Last(rows) == Last(old(rows))
      ensures cp in store && GainsChild(old(store)[cp], store[cp], p, b, 2 * mid)
      ensures store == old(store)[cp := store[cp]][b := old(store)[b].(parent := cp)]
      ensures cp in lv && lv[cp] == h + 1 && Levelled(store, lv, 2 * mid) && KeysRight(store, lv, 2 * mid, cp)
      ensures SameAt(st, store, lv0, lv, h, rows0[h][i])
    {
      hide *;
      LinkedLevelled(h + 1);
      AddChild(cp, p, b, h + 1, j);
      AddedIntact(old(store), store, cp, b, rows0[h][i]);
      LowerKeptAttach(old(store), store, lv, 2 * mid, h, cp, b);
      LowerKeptTwice(st1, old(store), store, lv0[b := h], lv, lv, h + 1);
      LinkedIndex(st, lv0, 2 * mid, rows0, h);
      LinkedRow(st, lv0, 2 * mid, rows0, h, h);
      SiblingsKept(st, st1, store, lv0, lv, mid, rows0[h], h, rows0[h][i], b, parent);
      ghost var before := rows;
      rows := rows[h := Flat(store, rows[h + 1])];
      SameLast(before, rows, h);
      HalfPlaced(st, st1, old(store), store, lv0, lv, mid, rows0, before, rows, h, i, b, cp, j, p, parent);
    }

    /** A full node makes room for another child: it is split itself, or the root over it grows. */
    method MakeRoom(node: nat, ghost k: nat, ghost j: nat)
      returns (ghost lo: nat, ghost hi: nat, ghost los: map<nat, nat>, ghost his: map<nat, nat>)
      requires mid >= 2 && store.Keys <= live && |rows| > 0 && Last(rows) == [root]
      requires Linked(store, lv, 2 * mid, rows, k) && j < |rows[k]| && rows[k][j] == node
      requires node in store && store[node].numKeys == 2 * mid
      requires FreeBlocks(live, total) + k >= |rows| + 1
      modifies this
      ensures FreeBlocks(live, total) + |old(rows)| + 1 >= FreeBlocks(old(live), total) + k && |rows| <= |old(rows)| + 1
      ensures Intact(old(store), store) && Twins(store, lo, hi) && Taken(old(lv), lv, old(live), live)
      ensures SplitAt(old(store), store, old(lv), lv, mid, old(rows), rows, k, node, lo, hi)
      ensures Flat(store, rows[k]) == Flat(old(store), old(rows)[k])
      ensures Spread(old(store), store, old(lv), lv, mid, |old(rows)| - 1, node, los, his) && los[node] == lo
      ensures his[node] == hi
      ensures |rows| > 0 && Last(rows) == [root] && store.Keys <= live && old(live) <= live
      decreases |rows| - k, 2
    {
      hide *;
      InRowOf(node, k, j);
      RootByParent(store, lv, 2 * mid, rows, k, k, node);
      if store[node].parent != 0 {
        var grandparent := store[node].parent;
        AtRow(grandparent, k, k + 1);
        var index := PositionOf(store[grandparent], node);
        AtPosition(store[grandparent], node);
        hi, los, his := SplitChild(grandparent, index, node, k, j);
        lo := node;
        if old(store)[grandparent].numKeys < 2 * mid {
          los, his := Only(node, node), Only(node, hi);
          RoomIsSpread(old(store), store, old(lv), lv, mid, |old(rows)| - 1, node, hi);
        }
      } else {
        ghost var before := rows;
        lo, hi := SplitRoot(node, k);
        los, his := Only(node, lo), Only(node, hi);
        IsLast(before);
        IsLast(rows);
      }
    }

    /** The first step of a split: half of a full child in a new node that hangs nowhere yet. */
    method HalveChild(node: nat, child: nat, ghost h: nat, ghost i: nat) returns (b: nat)
      requires mid >= 2 && store.Keys <= live
      requires Linked(store, lv, 2 * mid, rows, h) && h + 1 < |rows| && i < |rows[h]| && rows[h][i] == child
      requires child in store && store[child].numKeys == 2 * mid && store[child].parent == node
      requires FreeBlocks(live, total) >= 1
      modifies this`store, this`live, this`lv
      ensures FreeBlocks(live, total) == FreeBlocks(old(live), total) - 1
      ensures Intact(old(store), store) && Twins(store, child, b) && Taken(old(lv), lv, old(live), live)
      ensures SplitsOff(old(store), store, mid, child, b, node) && b != 0 && b !in old(lv) && lv == old(lv)[b := h]
      ensures Levelled(store, lv, 2 * mid) && Linked(store, lv, 2 * mid, rows, h + 1)
      ensures Flat(store, rows[h + 1]) == rows[h]
      ensures b !in rows[h] && b in store && store[b].numKeys >= 1 && LowerKept(store, store, lv, lv, h + 1)
      ensures forall c | c in rows[h + 1] :: c in old(store) && c in store && store[c] == old(store)[c]
      ensures forall c | c in old(lv) && old(lv)[c] > h :: c in old(store) && c in store && store[c] == old(store)[c]
      ensures child in store && store[child].parent == node && child != b
      ensures node in rows[h + 1] && KidsAt(store, node) == KidsAt(old(store), node) && child in KidsAt(store, node)
      ensures store.Keys <= live && old(live) <= live
    {
      hide *;
      InRowOf(child, h, i);
      ChildFacts(node, child, h, i);
      AtHeight(child, h, i);
      b := SplitOff(node, child);
      TakenOne(lv, old(live), b, h);
      lv := lv[b := h];
      HalvedAbove(old(store), store, old(lv), mid, rows, h, i, b, node);
      Halved(old(store), store, old(lv), mid, rows, h, i, b, node);
      SplitsOffParent(old(store), store, mid, child, b, node);
      LowerKeptSelf(store, lv, 2 * mid, h + 1);
      SameKidsOne(old(store), store, node);
    }

    /** The new half of a child goes behind position index of a parent with room. */
    method HangHere(node: nat, index: nat, child: nat, b: nat, ghost h: nat, ghost i: nat, ghost st: Store,
                    ghost lv0: map<nat, nat>)
      requires Linked(st, lv0, 2 * mid, rows, h) && h + 1 < |rows| && i < |rows[h]| && rows[h][i] == child
      requires b !in lv0 && b != 0 && lv == lv0[b := h] && SplitsOff(st, store, mid, child, b, node)
      requires Linked(store, lv, 2 * mid, rows, h + 1) && LowerKept(store, store, lv, lv, h + 1)
      requires Flat(store, rows[h + 1]) == rows[h]
      requires b in store && store[b].numKeys >= 1 && b !in rows[h] && child in lv0 && lv0[child] == h && child != b
      requires child in st && st[child].parent == node && node in rows[h + 1] && node in lv0 && lv0[node] == h + 1
      requires node in st && node in store && KidsAt(store, node) == KidsAt(st, node) && child in KidsAt(store, node)
      requires store[node].numKeys < 2 * mid && index < |KidsAt(store, node)| == Count(store[node])
      requires forall c | c in rows[h + 1] :: c in st && c in store && store[c] == st[c]
      requires forall c | c in lv0 && lv0[c] > h :: c in st && c in store && store[c] == st[c]
      requires Twins(store, child, b) && node != child
      modifies this`store, this`rows
      ensures Intact(old(store), store) && Twins(store, child, b)
      ensures SplitAt(st, store, lv0, lv, mid, old(rows), rows, h, child, child, b)
      ensures KidsAt(st, node)[index] == child ==> Flat(store, rows[h]) == Flat(st, old(rows)[h])
      ensures |rows| == |old(rows)| && forall k | h < k < |rows| :: rows[k] == old(rows)[k]
      ensures rows != [] && Last(rows) == Last(old(rows))
      ensures RowRight(st, lv0, 2 * mid, old(rows)[h + 1]) ==> RowRight(store, lv, 2 * mid, rows[h + 1])
      ensures child in store && b in store && store[b].parent == node == store[child].parent
      ensures store.Keys == old(store).Keys
      ensures node in lv && lv[node] == h + 1 && Levelled(store, lv, 2 * mid) && KeysRight(store, lv, 2 * mid, node)
      ensures HungAt(st, store, lv0, lv, child, b, index) && SameAt(st, store, lv0, lv, h, child)
    {
      hide *;
      SplitsOffParent(st, store, mid, child, b, node);
      HangHalf(node, index + 1, b, h, i, IndexOf(rows[h + 1], node), node, st, store, lv0, rows);
      RoomSpread(st, old(store), store, lv0, mid, child, b, index);
      if RowRight(st, lv0, 2 * mid, old(rows)[h + 1]) {
        KeysAfterRoom(st, old(store), store, lv0, lv, mid, old(rows), rows, h, child, b, node, index + 1);
      }
    }

    /**
      Splits a full child of a node at height h + 1. A full parent is split first, and so on upward;
      the new half then goes behind the child, wherever that has ended up.
     */
    method SplitChild(node: nat, index: nat, child: nat, ghost h: nat, ghost i: nat)
      returns (ghost b: nat, ghost los: map<nat, nat>, ghost his: map<nat, nat>)
      requires mid >= 2 && store.Keys <= live && |rows| > 0 && Last(rows) == [root]
      requires Linked(store, lv, 2 * mid, rows, h) && h + 1 < |rows| && i < |rows[h]| && rows[h][i] == child
      requires child in store && store[child].numKeys == 2 * mid && store[child].parent == node
      requires node in store && index <= store[node].numKeys
      requires FreeBlocks(live, total) + h >= |rows| + 1
      modifies this
      ensures FreeBlocks(live, total) + |old(rows)| + 1 >= FreeBlocks(old(live), total) + h && |rows| <= |old(rows)| + 1
      ensures Intact(old(store), store) && Twins(store, child, b) && Taken(old(lv), lv, old(live), live)
      ensures SplitAt(old(store), store, old(lv), lv, mid, old(rows), rows, h, child, child, b)
      ensures index < |KidsAt(old(store), node)|
      ensures old(store)[node].numKeys == 2 * mid || KidsAt(old(store), node)[index] == child ==>
        Flat(store, rows[h]) == Flat(old(store), old(rows)[h])
      ensures RowRight(old(store), old(lv), 2 * mid, old(rows)[h + 1]) ==> RowRight(store, lv, 2 * mid, rows[h + 1])
      ensures child in store && b in store && store[b].parent == store[child].parent
      ensures store[b].parent in lv && lv[store[b].parent] == h + 1
      ensures Levelled(store, lv, 2 * mid) && KeysRight(store, lv, 2 * mid, store[b].parent)
      ensures old(store)[node].numKeys < 2 * mid ==> HungAt(old(store), store, old(lv), lv, child, b, index)
      ensures old(store)[node].numKeys == 2 * mid ==>
        && Spread(old(store), store, old(lv), lv, mid, |old(rows)| - 1, child, los, his)
        && los[child] == child && his[child] == b
      ensures child in old(lv) && old(lv)[child] == h && b in lv && lv[b] == h && b !in old(lv) && child in lv
      ensures lv[child] == h
      ensures node in old(lv) && old(lv)[node] == h + 1 && SameAt(old(store), store, old(lv), lv, h, child)
      ensures |rows| > 0 && Last(rows) == [root] && store.Keys <= live && old(live) <= live
      decreases |rows| - h, 1
    {
      hide *;
      InRowOf(child, h, i);
      AtRow(child, h, h);
      ChildFacts(node, child, h, i);
      var half := HalveChild(node, child, h, i);
      b, los, his := half, map[], map[];
      ghost var st1, lv1, live1 := store, lv, live;
      AtRow(node, h + 1, h + 1);
      IsLast(rows);
      if store[node].numKeys < 2 * mid {
        HangHere(node, index, child, half, h, i, old(store), old(lv));
      } else {
        los, his := HangAbove(node, child, half, h, i, old(store), old(lv));
        TakenTwice(old(lv), lv1, lv, old(live), live1, live);
      }
      IntactTwice(old(store), st1, store);
      IsLast(rows);
    }

    /** The parent is full: it is split first, and then the new half goes to where the child is now. */
    method HangAbove(node: nat, child: nat, b: nat, ghost h: nat, ghost i: nat, ghost st: Store,
                     ghost lv0: map<nat, nat>)
      returns (ghost los: map<nat, nat>, ghost his: map<nat, nat>)
      requires mid >= 2 && store.Keys <= live && |rows| > 0 && Last(rows) == [root]
      requires Linked(st, lv0, 2 * mid, rows, h) && 1 <= h && h + 1 < |rows| && i < |rows[h]| && rows[h][i] == child
      requires b !in lv0 && b != 0 && lv == lv0[b := h] && SplitsOff(st, store, mid, child, b, node)
      requires Linked(store, lv, 2 * mid, rows, h + 1) && Flat(store, rows[h + 1]) == rows[h]
      requires b in store && store[b].numKeys >= 1 && b !in rows[h] && child in lv0 && lv0[child] == h && child != b
      requires child in st && st[child].parent == node && node in rows[h + 1] && node in lv0 && lv0[node] == h + 1
      requires node in st && node in store && child in KidsAt(st, node) && child in KidsAt(store, node)
      requires store[node].numKeys == 2 * mid == st[node].numKeys
      requires forall c | c in rows[h + 1] :: c in st && c in store && store[c] == st[c]
      requires forall c | c in lv0 && lv0[c] > h :: c in st && c in store && store[c] == st[c]
      requires FreeBlocks(live, total) + h >= |rows|
      requires Twins(store, child, b)
      modifies this
      ensures Intact(old(store), store) && Twins(store, child, b) && Taken(old(lv), lv, old(live), live)
      ensures FreeBlocks(live, total) + |old(rows)| >= FreeBlocks(old(live), total) + h && |rows| <= |old(rows)| + 1
      ensures SplitAt(st, store, lv0, lv, mid, old(rows), rows, h, child, child, b)
      ensures Flat(store, rows[h]) == Flat(st, old(rows)[h])
      ensures RowRight(st, lv0, 2 * mid, old(rows)[h + 1]) ==> RowRight(store, lv, 2 * mid, rows[h + 1])
      ensures child in store && b in store && store[b].parent == store[child].parent
      ensures store[b].parent in lv && lv[store[b].parent] == h + 1
      ensures Levelled(store, lv, 2 * mid) && KeysRight(store, lv, 2 * mid, store[b].parent)
      ensures Spread(st, store, lv0, lv, mid, |old(rows)| - 1, child, los, his)
      ensures los[child] == child && his[child] == b
      ensures b in lv && lv[b] == h && child in lv && lv[child] == h && SameAt(st, store, lv0, lv, h, child)
      ensures |rows| > 0 && Last(rows) == [root] && store.Keys <= live && old(live) <= live
      decreases |rows| - h, 0
    {
      hide *;
      ghost var j, st1, lv1 := IndexOf(rows[h + 1], node), store, lv;
      ghost var lo, hi;
      lo, hi, los, his := MakeRoom(node, h + 1, j);
      SplitAtLinked(st1, store, lv1, lv, mid, old(rows), rows, h + 1, node, lo, hi);
      ghost var stA := store;
      HangBehind(child, b, h, i, node, lo, hi, st, st1, lv0, old(rows), los, his);
      IntactTwice(st1, stA, store);
      los, his := los[child := child], his[child := b];
    }

    /** After a split of the row above, the new half goes behind the child in the node that holds it now. */
    method HangBehind(child: nat, b: nat, ghost h: nat, ghost i: nat, ghost node: nat, ghost lo: nat, ghost hi: nat,
                      ghost st: Store, ghost st1: Store, ghost lv0: map<nat, nat>, ghost rows0: seq<seq<nat>>,
                      ghost los: map<nat, nat>, ghost his: map<nat, nat>)
      requires Linked(st, lv0, 2 * mid, rows0, h) && h + 1 < |rows0| && i < |rows0[h]| && rows0[h][i] == child
      requires child in st && st[child].parent == node && node in lv0 && lv0[node] == h + 1 && node in st
      requires st[node].numKeys == 2 * mid
      requires child in KidsAt(st, node) && 1 <= h
      requires forall c | c in lv0 && lv0[c] > h :: c in st && c in st1 && st1[c] == st[c]
      requires Spread(st1, store, lv0[b := h], lv, mid, |rows0| - 1, node, los, his) && los[node] == lo
      requires his[node] == hi
      requires b !in lv0 && b != 0 && SplitsOff(st, st1, mid, child, b, node)
      requires Linked(st1, lv0[b := h], 2 * mid, rows0, h + 1) && node in rows0[h + 1] && child in KidsAt(st1, node)
      requires forall c | c in rows0[h + 1] :: c in st && c in st1 && st1[c] == st[c]
      requires b in st1 && st1[b].numKeys >= 1 && b !in rows0[h] && child in lv0 && lv0[child] == h
      requires SplitAt(st1, store, lv0[b := h], lv, mid, rows0, rows, h + 1, node, lo, hi)
      requires |rows0| <= |rows| && Flat(store, rows[h + 1]) == rows0[h]
      requires Twins(st1, child, b)
      modifies this`store, this`rows
      ensures Intact(old(store), store) && Twins(store, child, b)
      ensures SplitAt(st, store, lv0, lv, mid, rows0, rows, h, child, child, b)
      ensures Flat(store, rows[h]) == Flat(st, rows0[h])
      ensures |rows| == |old(rows)| && forall k | h < k < |rows| :: rows[k] == old(rows)[k]
      ensures rows != [] && Last(rows) == Last(old(rows))
      ensures RowRight(st, lv0, 2 * mid, rows0[h + 1]) ==> RowRight(store, lv, 2 * mid, rows[h + 1])
      ensures child in store && b in store && store[b].parent == store[child].parent && store.Keys == old(store).Keys
      ensures store[b].parent in lv && lv[store[b].parent] == h + 1
      ensures Levelled(store, lv, 2 * mid) && KeysRight(store, lv, 2 * mid, store[b].parent)
      ensures Spread(st, store, lv0, lv, mid, |rows0| - 1, child, los[child := child], his[child := b])
      ensures b in lv && lv[b] == h && child in lv && lv[child] == h && SameAt(st, store, lv0, lv, h, child)
    {
      hide *;
      ghost var lv1 := lv0[b := h];
      RoomAfterSplit(st1, store, lv1, lv, mid, rows0, rows, h + 1, node, lo, hi, child);
      SplitAtLinked(st1, store, lv1, lv, mid, rows0, rows, h + 1, node, lo, hi);
      KeptAt(st1, store, lv1, lv, h + 1, b);
      KeptAt(st1, store, lv1, lv, h + 1, child);
      TwinsKept(st1, store, child, b);
      var currentParent := store[child].parent;
      AtRow(currentParent, h + 1, h + 1);
      var newIndex := PositionOf(store[currentParent], child);
      AtPosition(store[currentParent], child);
      HangHalf(currentParent, newIndex + 1, b, h, i, IndexOf(rows[h + 1], currentParent), node, st, st1, lv0, rows0);
      CascadeFits(st, st1, old(store), store, lv0, lv1, lv, mid, old(rows), rows0, h, child, b, node, currentParent,
                  los, his);
      if RowRight(st, lv0, 2 * mid, rows0[h + 1]) {
        KeysAfterSplit(st, st1, old(store), store, lv0, lv1, lv, mid, rows0, old(rows), rows, h, child, b,
                       node, lo, hi, currentParent, newIndex + 1);
      }
    }

    static lemma SameLast(s: seq<seq<nat>>, t: seq<seq<nat>>, h: nat)
      requires |s| == |t| && h + 1 < |s| && forall k | h < k < |s| :: t[k] == s[k]
      ensures s != [] && t != [] && Last(t) == Last(s)
    {
    }

    lemma IsLast(s: seq<seq<nat>>)
      requires s != []
      ensures Last(s) == s[|s| - 1]
    {
    }

    lemma ChildFacts(node: nat, child: nat, h: nat, i: nat)
      requires store.Keys <= live
      requires Linked(store, lv, 2 * mid, rows, h) && h + 1 < |rows| && i < |rows[h]| && rows[h][i] == child
      requires child in store && store[child].parent == node
      ensures Shape(store[child], 2 * mid) && child !in Kids(store[child])
      ensures forall c | c in Kids(store[child]) :: c in store
      ensures node in rows[h + 1] && child in KidsAt(store, node)
      ensures forall b | b !in live :: b !in store && b !in lv
    {
      hide *;
      AtHeight(child, h, i);
      assert child in rows[h];
      OwnKids(child, h);
      RootByParent(store, lv, 2 * mid, rows, h, h, child);
    }

    lemma InRowOf(node: nat, k: nat, j: nat)
      requires Linked(store, lv, 2 * mid, rows, k) && j < |rows[k]| && rows[k][j] == node
      ensures 1 <= k < |rows| && node in rows[k]
    {
    }

    lemma AtRow(node: nat, k: nat, h: nat)
      requires Linked(store, lv, 2 * mid, rows, k) && k <= h < |rows| && node in rows[h]
      ensures node in lv && lv[node] == h && node in store && node != 0
      ensures |store[node].keys| == 2 * mid && |store[node].children| == 2 * mid + 1 && store[node].numKeys <= 2 * mid
      ensures Shape(store[node], 2 * mid) && KidsAt(store, node) == Kids(store[node])
      ensures |Kids(store[node])| == Count(store[node])
      ensures h >= 2 ==> Count(store[node]) == store[node].numKeys + 1
    {
      assert NodeOk(store, lv, 2 * mid, node);
    }

    static lemma AtPosition(n: Node, b: nat)
      requires |n.children| > n.numKeys && b in Kids(n)
      ensures IndexOf(Kids(n), b) <= n.numKeys && Kids(n)[IndexOf(Kids(n), b)] == b
    {
    }

    // ----- Going down -----

    /** The number of steps from a node to the leaves; -1 when there is none below it. */
    method FindDepth(start: nat) returns (depth: int)
      requires Linked(store, lv, 2 * mid, rows, 1) && Last(rows) == [root] && start in lv
      ensures start in store && (lv[start] >= 1 ==> store[start].children != [])
      ensures depth == if lv[start] == 0 then 0 else if store[start].children[0] == 0 then -1 else lv[start]
    {
      hide *;
      HeightOf(start);
      var b := start;
      var node := store[b];
      depth := 0;
      while !node.isLeaf
        invariant b in lv && b in store && node == store[b] && lv[b] + depth == lv[start] && 0 <= depth
        invariant b != start ==> b != root && store[start].children != [] && store[start].children[0] != 0
        invariant b == start ==> depth == 0
        invariant lv[b] > 0 ==> lv[b] < |rows| && b in rows[lv[b]]
        invariant node.isLeaf <==> lv[b] == 0
        decreases lv[b]
      {
        FirstChild(b);
        if node.children[0] != 0 {
          b := node.children[0];
          node := store[b];
          depth := depth + 1;
        } else {
          return -1;
        }
      }
    }

    lemma HeightOf(b: nat)
      requires Linked(store, lv, 2 * mid, rows, 1) && b in lv
      ensures b in store && (store[b].isLeaf <==> lv[b] == 0)
      ensures lv[b] > 0 ==> lv[b] < |rows| && b in rows[lv[b]] && |store[b].children| == 2 * mid + 1
    {
      assert NodeOk(store, lv, 2 * mid, b);
    }

    lemma RootFacts()
      requires Linked(store, lv, 2 * mid, rows, 1) && Last(rows) == [root]
      ensures root in store && root in lv && lv[root] == |rows| - 1 >= 1 && store[root].children != []
      ensures rows[lv[root]] == [root] && root in rows[lv[root]] && !store[root].isLeaf
    {
      assert root in rows[|rows| - 1];
      assert NodeOk(store, lv, 2 * mid, root);
    }

    lemma FirstChild(b: nat)
      requires Linked(store, lv, 2 * mid, rows, 1) && Last(rows) == [root]
      requires b in lv && 1 <= lv[b] < |rows| && b in rows[lv[b]]
      ensures b in store && |store[b].children| > 0
      ensures b != root ==> store[b].children[0] != 0
      ensures var c := store[b].children[0]; c != 0 ==>
        c in lv && lv[c] + 1 == lv[b] && c in store && c != root
        && (store[c].isLeaf <==> lv[c] == 0) && (lv[c] > 0 ==> lv[c] < |rows| && c in rows[lv[c]])
    {
      hide Flat, NoDup, RowOk;
      assert NodeOk(store, lv, 2 * mid, b);
      RootFacts();
      RootByParent(store, lv, 2 * mid, rows, 1, lv[b], b);
      var c := store[b].children[0];
      if c != 0 {
        assert c in lv;
        assert NodeOk(store, lv, 2 * mid, c);
      }
    }

    /** The first child whose maximum reaches the key; the last one when there is none. */
    method ChooseChild(b: nat, key: nat) returns (index: nat)
      requires Levelled(store, lv, 2 * mid) && b in lv && lv[b] >= 2
      ensures b in store && Known(store, lv, 2 * mid, Kids(store[b])) && index < |Kids(store[b])|
      ensures Kids(store[b])[index] == store[b].children[index] == Pick(store, lv, 2 * mid, Kids(store[b]), key)
    {
      hide *;
      TwoUp(b);
      KidFacts(b);
      KidsKnown(b);
      var node := store[b];
      index := 0;
      var i := 0;
      while i < node.numKeys
        invariant 0 <= i <= node.numKeys && index == i
        invariant forall j | 0 <= j < i :: MaxKey(store, lv, 2 * mid, Kids(node)[j]) < key
      {
        if node.children[i] != 0 {
          assert node.children[i] == Kids(node)[i] && Kids(node)[i] in Kids(node);
          var max := FindMaximum(node.children[i]);
          if key <= max {
            index := i;
            break;
          }
          index := i + 1;
        }
        i := i + 1;
      }
      PickAt(store, lv, 2 * mid, Kids(node), key, index);
    }

    lemma KidsKnown(b: nat)
      requires Levelled(store, lv, 2 * mid) && b in lv && lv[b] >= 1
      ensures b in store && Known(store, lv, 2 * mid, Kids(store[b])) && forall d | d in Kids(store[b]) :: d in lv
    {
      NodeShape(store, lv, 2 * mid, b);
      MaxOfKids(store, lv, 2 * mid, b);
    }

    lemma TwoUp(b: nat)
      requires Levelled(store, lv, 2 * mid) && b in lv && lv[b] >= 2
      ensures b in store && Count(store[b]) == store[b].numKeys + 1 == |Kids(store[b])|
      ensures forall i | 0 <= i <= store[b].numKeys && i < |store[b].children| :: store[b].children[i] != 0
    {
      assert NodeOk(store, lv, 2 * mid, b);
    }

    /** The parent of leaves that a new key goes to. */
    method InsertionSearch(key: nat) returns (b: nat)
      requires Linked(store, lv, 2 * mid, rows, 1) && Last(rows) == [root]
      ensures Levelled(store, lv, 2 * mid) && root in lv && lv[root] >= 1
      ensures b == Descend(store, lv, 2 * mid, root, key) && b in rows[1]
    {
      hide *;
      RootFacts();
      LinkedLevelled(1);
      var depth := FindDepth(root);
      b := root;
      if store[root].children[0] == 0 {
        EmptyRoot();
        AtHeightOne(key, b);
        return;
      }
      if depth - 1 <= 0 {
        AtHeightOne(key, b);
        return;
      }
      var current := 0;
      while current < depth - 1
        invariant 0 <= current && b in lv && 1 <= lv[b] && lv[b] + current == lv[root] == depth
        invariant Descend(store, lv, 2 * mid, root, key) == Descend(store, lv, 2 * mid, b, key)
      {
        var index := ChooseChild(b, key);
        DescendStep(b, key);
        b := store[b].children[index];
        current := current + 1;
        depth := FindDepth(root);
      }
      AtHeightOne(key, b);
    }

    lemma DescendStep(b: nat, key: nat)
      requires Levelled(store, lv, 2 * mid) && b in lv && lv[b] >= 2
      ensures b in store && Known(store, lv, 2 * mid, Kids(store[b])) && Kids(store[b]) != []
      ensures var c := Pick(store, lv, 2 * mid, Kids(store[b]), key);
        c in lv && lv[c] + 1 == lv[b] && Descend(store, lv, 2 * mid, b, key) == Descend(store, lv, 2 * mid, c, key)
    {
      NodeShape(store, lv, 2 * mid, b);
      MaxOfKids(store, lv, 2 * mid, b);
      TwoUp(b);
      hide MaxKey, Levelled, Shape, Pick;
    }

    lemma AtHeightOne(key: nat, b: nat)
      requires Linked(store, lv, 2 * mid, rows, 1) && b in lv && lv[b] == 1
      ensures Levelled(store, lv, 2 * mid) && b == Descend(store, lv, 2 * mid, b, key) && b in rows[1]
    {
    }

    /** An empty root is a parent of leaves. */
    lemma EmptyRoot()
      requires Linked(store, lv, 2 * mid, rows, 1) && Last(rows) == [root]
      requires root in store && store[root].children != [] && store[root].children[0] == 0
      ensures root in lv && lv[root] == 1
    {
      hide Flat, NoDup, RowOk;
      RootFacts();
      assert NodeOk(store, lv, 2 * mid, root);
    }

    // ----- Hanging a leaf -----

    /** One past the last child below the key. */
    method FindPlace(b: nat, key: nat) returns (p: nat)
      requires Levelled(store, lv, 2 * mid) && b in lv && lv[b] >= 1
      ensures b in store && Known(store, lv, 2 * mid, Kids(store[b]))
      ensures p == Place(store, lv, 2 * mid, Kids(store[b]), key)
    {
      hide *;
      KidFacts(b);
      KidsKnown(b);
      var node := store[b];
      ghost var kids := Kids(node);
      p := 0;
      NoPlace(kids, key);
      for j := 0 to node.numKeys + 1
        invariant Known(store, lv, 2 * mid, kids[..if j < |kids| then j else |kids|])
        invariant p == Place(store, lv, 2 * mid, kids[..if j < |kids| then j else |kids|], key)
      {
        if node.children[j] != 0 {
          assert kids[j] in kids && kids[j] == node.children[j];
          PlaceStep(kids, j, key);
          var child := store[node.children[j]];
          if child.isLeaf && child.key < key {
            p := j + 1;
          } else if !child.isLeaf {
            var max := FindMaximum(node.children[j]);
            if max < key {
              p := j + 1;
            }
          }
        }
      }
      assert kids[..|kids|] == kids;
    }

    lemma NoPlace(kids: seq<nat>, key: nat)
      requires Known(store, lv, 2 * mid, kids)
      ensures Known(store, lv, 2 * mid, kids[..0]) && Place(store, lv, 2 * mid, kids[..0], key) == 0
    {
    }

    lemma PlaceStep(kids: seq<nat>, j: nat, key: nat)
      requires Known(store, lv, 2 * mid, kids) && j < |kids|
      ensures kids[j] in lv && Levelled(store, lv, 2 * mid)
      ensures Known(store, lv, 2 * mid, kids[..j]) && Known(store, lv, 2 * mid, kids[..j + 1])
      ensures Place(store, lv, 2 * mid, kids[..j + 1], key)
        == if MaxKey(store, lv, 2 * mid, kids[j]) < key then j + 1 else Place(store, lv, 2 * mid, kids[..j], key)
    {
      hide MaxKey, Levelled;
      assert Front(kids[..j + 1]) == kids[..j];
    }

    lemma KidFacts(b: nat)
      requires Levelled(store, lv, 2 * mid) && b in lv && lv[b] >= 1
      ensures b in store && |Kids(store[b])| == Count(store[b]) <= store[b].numKeys + 1 <= |store[b].children|
      ensures forall j | 0 <= j <= store[b].numKeys :: store[b].children[j] != 0 <==> j < |Kids(store[b])|
      ensures forall d | d in Kids(store[b]) ::
        d in lv && lv[d] + 1 == lv[b] && d in store && (store[d].isLeaf <==> lv[d] == 0)
      ensures forall j | 0 <= j < |Kids(store[b])| :: Kids(store[b])[j] == store[b].children[j]
      ensures forall d | d in Kids(store[b]) && store[d].isLeaf :: MaxKey(store, lv, 2 * mid, d) == store[d].key
    {
      assert NodeOk(store, lv, 2 * mid, b);
      forall d | d in Kids(store[b])
        ensures d in lv && lv[d] + 1 == lv[b] && d in store && (store[d].isLeaf <==> lv[d] == 0)
      {
        assert d in lv;
        assert NodeOk(store, lv, 2 * mid, d);
      }
    }

    /** The keys from p on move up by one. */
    static method ShiftKeys(n: Node, p: nat) returns (keys: seq<nat>)
      requires p < n.numKeys <= |n.keys| && forall i | n.numKeys <= i < |n.keys| :: n.keys[i] == 0
      ensures |keys| == |n.keys| && forall i | n.numKeys <= i < |n.keys| :: keys[i] == 0
      ensures forall i | 0 <= i < n.numKeys :: keys[i] == n.keys[if i <= p then i else i - 1]
    {
      keys := n.keys;
      var j := n.numKeys - 1;
      while j > p
        invariant p <= j < n.numKeys && |keys| == |n.keys|
        invariant forall i | 0 <= i < n.numKeys :: keys[i] == n.keys[if i <= j then i else i - 1]
        invariant forall i | n.numKeys <= i < |n.keys| :: keys[i] == 0
      {
        keys := keys[j := keys[j - 1]];
        j := j - 1;
      }
    }

    /** Hangs a leaf below a node with room; the slot behind the last key is never taken. */
    method InsertNonfull(node: nat, b: nat, ghost i: nat) returns (ghost p: nat)
      requires Linked(store, lv, 2 * mid, rows, 1) && i < |rows[1]| && rows[1][i] == node
      requires node in store && b in store && b in lv && lv[b] == 0 && b !in Flat(store, rows[1])
      requires store[node].numKeys < 2 * mid
      modifies this`store
      ensures Intact(old(store), store)
      ensures Known(old(store), lv, 2 * mid, KidsAt(old(store), node))
      ensures p == Min(Place(old(store), lv, 2 * mid, KidsAt(old(store), node), old(store)[b].key),
                       old(store)[node].numKeys)
      ensures HungBelow(old(store), store, 2 * mid, node, p, b) && Linked(store, lv, 2 * mid, rows, 1)
      ensures node in store && store[node].numKeys == old(store)[node].numKeys + 1
      ensures |store[node].keys| == |old(store)[node].keys| == 2 * mid && store[node].numKeys <= 2 * mid
      ensures forall k | 0 <= k < store[node].numKeys ::
        store[node].keys[k] == old(store)[node].keys[if k <= p then k else k - 1]
      ensures |Flat(old(store), rows[1][..i])| + p <= |Flat(old(store), rows[1])|
      ensures Flat(store, rows[1]) == InsertAt(Flat(old(store), rows[1]), |Flat(old(store), rows[1][..i])| + p, b)
    {
      hide *;
      LinkedLevelled(1);
      AtHeight(node, 1, i);
      KidFacts(node);
      SameKids(node);
      var place := FindPlace(node, store[b].key);
      if place > store[node].numKeys {
        place := store[node].numKeys;
      }
      p := place;
      PlaceClamped(place, node, store[b].key);
      Attach(node, place, b, 1, i);
      label attached:
      AtHeight(node, 1, i);
      KeysOfNode(node);
      var keys := ShiftKeys(store[node], place);
      store := store[node := store[node].(keys := keys)];
      KeysOnly(old@attached(store), store, lv, 2 * mid, rows, 1, node, keys);
      LinksOnly(old(store), old@attached(store), store, node, b);
      HungWithKeys(old(store), old@attached(store), store, 2 * mid, node, place, b, keys);
    }

    lemma PlaceClamped(p: nat, node: nat, key: nat)
      requires node in store && Known(store, lv, 2 * mid, Kids(store[node]))
      requires p == if Place(store, lv, 2 * mid, Kids(store[node]), key) > store[node].numKeys then store[node].numKeys
                    else Place(store, lv, 2 * mid, Kids(store[node]), key)
      requires |Kids(store[node])| == Count(store[node])
      ensures p == Min(Place(store, lv, 2 * mid, Kids(store[node]), key), store[node].numKeys)
      ensures p <= Count(store[node]) && p <= store[node].numKeys
    {
    }

    lemma SameKids(node: nat)
      requires node in store
      ensures KidsAt(store, node) == Kids(store[node])
    {
    }

    lemma KeysOfNode(node: nat)
      requires node in store && Shape(store[node], 2 * mid)
      ensures |store[node].keys| == 2 * mid && store[node].numKeys <= 2 * mid
      ensures forall i | store[node].numKeys <= i < 2 * mid :: store[node].keys[i] == 0
    {
    }

    /** First a child, then the keys. */
    static lemma LinksOnly(st: Store, st1: Store, st2: Store, P: nat, b: nat)
      requires P in st && P in st1 && b in st && P != b && st1 == st[P := st1[P]][b := st[b].(parent := P)]
      requires st1[P] == st[P].(children := st1[P].children, numKeys := st1[P].numKeys)
      requires P in st2 && st2 == st1[P := st1[P].(keys := st2[P].keys)]
      ensures Intact(st, st2)
    {
      IntactHung(st, st1, P, b);
      IntactKeys(st1, st2, P, st2[P].keys);
      IntactTwice(st, st1, st2);
    }

    static lemma HungWithKeys(st: Store, st1: Store, st2: Store, m: nat, T: nat, p: nat, b: nat, keys: seq<nat>)
      requires T in st && b in st && T in st1 && T != b && GainsChild(st[T], st1[T], p, b, m)
      requires st1 == st[T := st1[T]][b := st[b].(parent := T)]
      requires st2 == st1[T := st1[T].(keys := keys)]
      requires |keys| == m && forall i | st1[T].numKeys <= i < m :: keys[i] == 0
      ensures HungBelow(st, st2, m, T, p, b)
    {
      GainsWithKeys(st[T], st1[T], keys, p, b, m);
      hide GainsChild;
    }

    /** The empty slot behind the last key of a full node takes the leaf. */
    method AppendChild(node: nat, b: nat, ghost i: nat)
      requires Linked(store, lv, 2 * mid, rows, 1) && i < |rows[1]| && rows[1][i] == node
      requires node in store && b in store && b in lv && lv[b] == 0 && b !in Flat(store, rows[1])
      requires store[node].numKeys == 2 * mid < |store[node].children| && store[node].children[2 * mid] == 0
      modifies this`store
      ensures Intact(old(store), store)
      ensures b != node && store ==
        old(store)[node := old(store)[node].(children := old(store)[node].children[2 * mid := b])]
                  [b := old(store)[b].(parent := node)]
      ensures HungBelow(old(store), store, 2 * mid, node, 2 * mid, b) && Linked(store, lv, 2 * mid, rows, 1)
      ensures |Flat(old(store), rows[1][..i])| + 2 * mid <= |Flat(old(store), rows[1])|
      ensures Flat(store, rows[1]) == InsertAt(Flat(old(store), rows[1]), |Flat(old(store), rows[1][..i])| + 2 * mid, b)
    {
      hide *;
      AtHeight(node, 1, i);
      NotZero(1, b);
      Appended(store[node], b);
      store := store[node := store[node].(children := store[node].children[2 * mid := b])];
      store := store[b := store[b].(parent := node)];
      IntactHung(old(store), store, node, b);
      LinkGains(old(store), store, lv, 2 * mid, rows, 1, i, 2 * mid, b);
      HungIntro(old(store), store, 2 * mid, node, 2 * mid, b);
    }

    static lemma HungIntro(st: Store, st': Store, m: nat, T: nat, p: nat, b: nat)
      requires T in st && b in st && T in st' && T != b && GainsChild(st[T], st'[T], p, b, m)
      requires st' == st[T := st'[T]][b := st[b].(parent := T)]
      ensures HungBelow(st, st', m, T, p, b)
    {
    }

    lemma Appended(n: Node, b: nat)
      requires Shape(n, 2 * mid) && n.numKeys == 2 * mid && n.children[2 * mid] == 0 && b != 0
      ensures GainsChild(n, n.(children := n.children[2 * mid := b]), 2 * mid, b, 2 * mid)
    {
      var n' := n.(children := n.children[2 * mid := b]);
      assert Kids(n') == InsertAt(Kids(n), 2 * mid, b);
    }

    // ----- Insertion -----

    /** Where the keys of a parent stop being smaller than the maximum of its child. */
    method IndexByKeys(node: nat, child: nat) returns (i: nat)
      requires Levelled(store, lv, 2 * mid) && child in lv && node in lv && lv[node] >= 1
      ensures node in store && StopsAt(store[node], 2 * mid, MaxKey(store, lv, 2 * mid, child), i)
      ensures i <= store[node].numKeys
      ensures i == KeyIndex(store[node].keys, MaxKey(store, lv, 2 * mid, child))
    {
      NodeShape(store, lv, 2 * mid, node);
      var parent := store[node];
      hide Levelled, MaxKey;
      var max := FindMaximum(child);
      i := 0;
      while i < 2 * mid && parent.keys[i] < max && parent.keys[i] != 0
        invariant i <= parent.numKeys && forall j | 0 <= j < i :: parent.keys[j] < max && parent.keys[j] != 0
      {
        i := i + 1;
      }
      KeyIndexIs(parent, 2 * mid, max, i);
    }

    /**
      Splits a full parent of leaves, below its own parent or as the root. When it is the target of a
      key, the next search for that key finds room exactly if that was foretold.
     */
    method SplitFull(target: nat, ghost key: nat) returns (ghost lo: nat, ghost hi: nat)
      requires mid >= 2 && store.Keys <= live && |rows| > 0 && Last(rows) == [root]
      requires Linked(store, lv, 2 * mid, rows, 1) && |rows| > 1 && target in rows[1]
      requires target in store && store[target].numKeys == 2 * mid
      requires Levelled(store, lv, 2 * mid) && root in lv && lv[root] >= 1
      requires target == Descend(store, lv, 2 * mid, root, key)
      requires FreeBlocks(live, total) >= |rows|
      modifies this
      ensures Quiet(old(store), store, old(lv), lv, Way(old(store), old(lv), 2 * mid, root, key), 1)
      ensures Intact(old(store), store) && Taken(old(lv), lv, old(live), live)
      ensures FreeBlocks(live, total) + |old(rows)| >= FreeBlocks(old(live), total) && |rows| <= |old(rows)| + 1
      ensures SplitAt(old(store), store, old(lv), lv, mid, old(rows), rows, 1, target, lo, hi)
      ensures Ordered(old(store), old(lv), 2 * mid, old(rows)) ==>
        Flat(store, rows[1]) == Flat(old(store), old(rows)[1]) && Ordered(store, lv, 2 * mid, rows)
      ensures |rows| > 0 && Last(rows) == [root] && store.Keys <= live && old(live) <= live
      ensures Levelled(store, lv, 2 * mid) && root in lv && lv[root] >= 1
      ensures TargetFull(old(store), old(lv), mid, root, key)
      ensures var z := Descend(store, lv, 2 * mid, root, key);
        && z in store && LandsOn(old(store), old(lv), mid, root, key, z)
        && (store[z].numKeys < 2 * mid <==> FindsRoom(old(store), old(lv), mid, root, key))
    {
      hide *;
      ghost var i := IndexOf(rows[1], target);
      RootByParent(store, lv, 2 * mid, rows, 1, 1, target);
      RootFacts();
      FullTarget(store, lv, mid, root, key);
      IsLast(rows);
      AtRow(target, 1, 1);
      if store[target].parent != 0 {
        hi := SplitBelow(target, key, i);
        lo := target;
      } else {
        lo, hi := SplitRoot(target, 1);
        IsLast(rows);
        IsLast(old(rows));
        SplitAtLinked(old(store), store, old(lv), lv, mid, old(rows), rows, 1, target, lo, hi);
        SpreadLands(old(store), store, old(lv), lv, mid, old(rows), rows, root, key, target, lo, hi,
                    Only(target, lo), Only(target, hi));
        if Ordered(old(store), old(lv), 2 * mid, old(rows)) {
          OneRight(target);
          SplitKeepsOrder(old(store), store, old(lv), lv, mid, old(rows), rows, target, lo, hi);
        }
      }
    }

    /** The same when the target has a parent: the keys there say where the new half goes. */
    method SplitBelow(target: nat, ghost key: nat, ghost i: nat) returns (ghost hi: nat)
      requires mid >= 2 && store.Keys <= live && |rows| > 0 && Last(rows) == [root]
      requires Linked(store, lv, 2 * mid, rows, 1) && 2 < |rows| && i < |rows[1]| && rows[1][i] == target
      requires target in store && store[target].numKeys == 2 * mid
      requires store[target].parent in rows[2] && target in KidsAt(store, store[target].parent) && target != root
      requires Levelled(store, lv, 2 * mid) && root in lv && lv[root] >= 1
      requires target == Descend(store, lv, 2 * mid, root, key)
      requires TargetFull(store, lv, mid, root, key)
      requires FreeBlocks(live, total) >= |rows|
      modifies this
      ensures Quiet(old(store), store, old(lv), lv, Way(old(store), old(lv), 2 * mid, root, key), 1)
      ensures Intact(old(store), store) && Taken(old(lv), lv, old(live), live)
      ensures FreeBlocks(live, total) + |old(rows)| >= FreeBlocks(old(live), total) && |rows| <= |old(rows)| + 1
      ensures SplitAt(old(store), store, old(lv), lv, mid, old(rows), rows, 1, target, target, hi)
      ensures Ordered(old(store), old(lv), 2 * mid, old(rows)) ==>
        Flat(store, rows[1]) == Flat(old(store), old(rows)[1]) && Ordered(store, lv, 2 * mid, rows)
      ensures |rows| > 0 && Last(rows) == [root] && store.Keys <= live && old(live) <= live
      ensures Levelled(store, lv, 2 * mid) && root in lv && lv[root] >= 1
      ensures var z := Descend(store, lv, 2 * mid, root, key);
        && z in store && LandsOn(old(store), old(lv), mid, root, key, z)
        && (store[z].numKeys < 2 * mid <==> FindsRoom(old(store), old(lv), mid, root, key))
    {
      hide *;
      var parent := store[target].parent;
      AtRow(parent, 1, 2);
      AtRow(target, 1, 1);
      var index := IndexByKeys(parent, target);
      if Ordered(store, lv, 2 * mid, rows) {
        StopsAtChild(store, lv, 2 * mid, rows, parent, target, index);
        OrderedLinked(store, lv, 2 * mid, rows);
      }
      ghost var los, his;
      hi, los, his := SplitChild(parent, index, target, 1, i);
      SplitAtLinked(old(store), store, old(lv), lv, mid, old(rows), rows, 1, target, target, hi);
      if old(store)[parent].numKeys < 2 * mid {
        HungLands(old(store), store, old(lv), lv, mid, old(rows), rows, root, key, target, hi, parent, index);
      } else {
        SpreadLands(old(store), store, old(lv), lv, mid, old(rows), rows, root, key, target, target, hi, los, his);
      }
      if Ordered(old(store), old(lv), 2 * mid, old(rows)) {
        SplitKeepsOrder(old(store), store, old(lv), lv, mid, old(rows), rows, target, target, hi);
      }
    }

    static lemma FullTarget(st: Store, lv: map<nat, nat>, mid: nat, root: nat, key: nat)
      requires Levelled(st, lv, 2 * mid) && root in lv && lv[root] >= 1 && mid >= 2
      ensures var T := Descend(st, lv, 2 * mid, root, key);
        T in st && (TargetFull(st, lv, mid, root, key) <==> st[T].numKeys == 2 * mid)
    {
    }

    lemma OneRight(node: nat)
      requires |rows| == 3 && rows[2] == [node]
      requires Levelled(store, lv, 2 * mid) && node in lv && lv[node] >= 1 && KeysRight(store, lv, 2 * mid, node)
      ensures RowRight(store, lv, 2 * mid, rows[2])
    {
    }

    /** The keys of a leaf's parent, after the leaf has come. */
    method UpdateParentKeys(b: nat)
      requires Linked(store, lv, 2 * mid, rows, 1) && b in store
      requires store[b].parent != 0 ==> store[b].parent in lv && lv[store[b].parent] >= 1
      modifies this`store
      ensures Linked(store, lv, 2 * mid, rows, 1) && Flat(store, rows[1]) == Flat(old(store), rows[1])
      ensures old(store)[b].parent == 0 ==> store == old(store)
      ensures var p := old(store)[b].parent; p != 0 ==>
        p in old(store) && p in store && |store[p].keys| == 2 * mid
        && (forall i | old(store)[p].numKeys <= i < 2 * mid :: store[p].keys[i] == 0)
        && store == old(store)[p := old(store)[p].(keys := store[p].keys)]
        && Levelled(store, lv, 2 * mid) && KeysRight(store, lv, 2 * mid, p)
    {
      hide *;
      LinkedLevelled(1);
      if store[b].parent == 0 { return; }
      var parent := store[b].parent;
      RefreshKeys(parent);
      KeysOnly(old(store), store, lv, 2 * mid, rows, 1, parent, store[parent].keys);
    }

    /** Whether a key belongs in front of the last slot of its target, or that slot is empty. */
    ghost predicate FitsTarget(key: nat)
      reads this
      requires Valid()
    {
      RootFacts();
      Fits(store, lv, 2 * mid, Descend(store, lv, 2 * mid, root, key), key)
    }

    /**
      Whether a leaf with the key can be inserted: its target has room, or an empty slot behind its
      last key for it; or the node that the second search finds, once the target is split, has room.
     */
    ghost predicate TakesKey(key: nat)
      reads this
      requires Valid()
    {
      RootFacts();
      Accepts(store, lv, mid, root, key)
    }

    /** Whether an insertion of the key splits nodes, which may take a block at every height and two at the top. */
    ghost predicate Splits(key: nat)
      reads this
      requires Valid()
    {
      RootFacts();
      SplitsIn(store, lv, key)
    }

    /** The parent of leaves that the leaf ends up below: the target, or where the search ends after the split. */
    ghost predicate GoesTo(key: nat, z: nat)
      reads this
      requires Valid()
    {
      RootFacts();
      GoesIn(store, lv, key, z)
    }

    ghost predicate GoesIn(st: Store, lv0: map<nat, nat>, key: nat, z: nat)
      requires Levelled(st, lv0, 2 * mid) && root in lv0 && lv0[root] >= 1
    {
      if SplitsIn(st, lv0, key) then
        TargetFull(st, lv0, mid, root, key) && LandsOn(st, lv0, mid, root, key, z)
      else z == Descend(st, lv0, 2 * mid, root, key)
    }

    ghost predicate SplitsIn(st: Store, lv0: map<nat, nat>, key: nat)
      requires Levelled(st, lv0, 2 * mid) && root in lv0 && lv0[root] >= 1
    {
      var n := st[Descend(st, lv0, 2 * mid, root, key)];
      n.numKeys >= 2 * mid && !Appends(n, 2 * mid, key)
    }

    ghost predicate InOrder()
      reads this
    {
      Ordered(store, lv, 2 * mid, rows)
    }

    /** How many leaves have smaller keys, in a sorted tree. */
    ghost function RankOf(key: nat): nat
      reads this
      requires Valid()
    {
      LeafMax(store, lv, 2 * mid, rows);
      Rank(store, lv, 2 * mid, Flat(store, rows[1]), key)
    }

    /** Writes a leaf that hangs nowhere yet. */
    method CreateLeaf(key: nat, value: nat, ftype: nat) returns (leaf: nat)
      requires Valid()
      requires FreeBlocks(live, total) >= 1
      modifies this
      ensures Valid() && rows == old(rows) && leaf !in old(live) && live == old(live) + {leaf}
      ensures 0 < leaf < total && FreeBlocks(live, total) == FreeBlocks(old(live), total) - 1
      ensures WithLeaf(old(store), store, old(lv), lv, leaf)
      ensures store[leaf].key == key && store[leaf].value == value && store[leaf].ftype == ftype
      ensures store[leaf] == Node(true, ftype, key, value, 0, Zeros(2 * mid), Zeros(2 * mid + 1), 0, 0, 0)
      ensures Leaves() == old(Leaves()) && leaf !in Leaves()
    {
      hide Linked, Flat, KidsAt;
      InLevels();
      leaf := NodeCreate(true);
      store := store[leaf := store[leaf].(key := key, value := value, ftype := ftype)];
      lv := lv[leaf := 0];
      LeafLinked(old(store), store, old(lv), lv, 2 * mid, rows, leaf);
    }

    lemma InLevels()
      requires Valid()
      ensures forall b | b !in live :: b !in store && b !in lv
    {
    }

    /** The keys of the leaf's parent, set afresh, complete the insertion. */
    method Settle(node: nat, leaf: nat, ghost p: nat, ghost st: Store)
      requires Linked(store, lv, 2 * mid, rows, 1) && HungBelow(st, store, 2 * mid, node, p, leaf)
      requires node in lv && lv[node] == 1 && node != 0
      modifies this`store
      ensures Intact(old(store), store)
      ensures Linked(store, lv, 2 * mid, rows, 1) && Flat(store, rows[1]) == Flat(old(store), rows[1])
      ensures HungBelow(st, store, 2 * mid, node, p, leaf)
      ensures Levelled(store, lv, 2 * mid) && KeysRight(store, lv, 2 * mid, node)
      ensures store.Keys == old(store).Keys
      ensures node in old(store) && node in store && store[node].numKeys == old(store)[node].numKeys
    {
      hide *;
      HungParent(st, store, 2 * mid, node, p, leaf);
      UpdateParentKeys(leaf);
      IntactKeys(old(store), store, node, store[node].keys);
      HungKeys(st, old(store), store, 2 * mid, node, p, leaf, store[node].keys);
    }

    static lemma HungParent(st: Store, st': Store, m: nat, T: nat, p: nat, b: nat)
      requires HungBelow(st, st', m, T, p, b)
      ensures b in st' && st'[b].parent == T && T in st' && T in st && b in st && st'.Keys == st.Keys
      ensures st[T].numKeys <= st'[T].numKeys <= m
    {
    }

    static lemma HungKeys(st: Store, st1: Store, st2: Store, m: nat, T: nat, p: nat, b: nat, keys: seq<nat>)
      requires HungBelow(st, st1, m, T, p, b) && st2 == st1[T := st1[T].(keys := keys)]
      requires |keys| == m && forall i | st1[T].numKeys <= i < m :: keys[i] == 0
      ensures HungBelow(st, st2, m, T, p, b)
    {
      GainsWithKeys(st[T], st1[T], keys, p, b, m);
      hide GainsChild;
    }

    lemma Parts()
      requires Valid()
      ensures mid >= 2 && Linked(store, lv, 2 * mid, rows, 1) && |rows| > 1 && Last(rows) == [root]
      ensures store.Keys <= live
      ensures Leaves() == Flat(store, rows[1]) && Levelled(store, lv, 2 * mid) && root in lv && lv[root] >= 1
      ensures InOrder() <==> Ordered(store, lv, 2 * mid, rows)
    {
      RootFacts();
    }

    lemma Whole()
      requires mid >= 2 && Linked(store, lv, 2 * mid, rows, 1) && |rows| > 1 && Last(rows) == [root]
      requires store.Keys <= live
      ensures Valid()
    {
    }

    /** The node for a new key, split beforehand if it is full and has no empty last slot for the key. */
    method Aim(key: nat, ghost leaf: nat) returns (ok: bool, target: nat, append: bool)
      requires Valid() && leaf in store && leaf in lv && lv[leaf] == 0 && leaf !in Leaves()
      requires Splits(key) ==> FreeBlocks(live, total) >= |rows|
      modifies this
      ensures Quiet(old(store), store, old(lv), lv, old(OnWay(key)), 1)
      ensures Intact(old(store), store) && Taken(old(lv), lv, old(live), live) && old(GoesTo(key, target))
      ensures FreeBlocks(live, total) + |old(rows)| >= FreeBlocks(old(live), total) && |rows| <= |old(rows)| + 1
      ensures Valid() && old(live) <= live
      ensures LeavesKept(old(store), store, old(Leaves())) && multiset(Leaves()) == multiset(old(Leaves()))
      ensures leaf in lv && lv[leaf] == 0 && leaf !in Leaves() && SameButParent(old(store), store, leaf)
      ensures target in store && target in rows[1]
      ensures append ==>
        store[target].numKeys == 2 * mid == |store[target].keys| && |store[target].children| == 2 * mid + 1
      ensures append ==> store[target].keys[2 * mid - 1] < key && store[target].children[2 * mid] == 0
      ensures ok && !append ==> store[target].numKeys < 2 * mid
      ensures ok <==> old(TakesKey(key))
      ensures !old(Splits(key)) ==>
        && ok && store == old(store) && rows == old(rows) && lv == old(lv) && live == old(live)
        && (append <==> store[target].numKeys == 2 * mid) && (|rows| == 2 ==> target == root)
      ensures old(InOrder()) && Absent(old(store), old(Leaves()), key) ==>
        && ok && InOrder() && Leaves() == old(Leaves())
        && Levelled(store, lv, 2 * mid) && root in lv && lv[root] >= 1
        && target == Descend(store, lv, 2 * mid, root, key)
        && (Fits(store, lv, 2 * mid, target, key) <==> old(FitsTarget(key)))
    {
      hide *;
      Parts();
      append := false;
      target := InsertionSearch(key);
      AtRow(target, 1, 1);
      AimsRight(key, target);
      TakesIs(key, target);
      GoesIs(key, target);
      WayIs(key);
      IsLast(rows);
      if store[target].numKeys == 2 * mid {
        if store[target].keys[2 * mid - 1] < key && store[target].children[2 * mid] == 0 {
          append := true;
          ok := true;
          KeptSelf(store, Leaves(), leaf);
          QuietSelf(store, lv, 2 * mid, OnWay(key));
          IntactSelf(store);
          TakenNone(lv, live);
        } else {
          ghost var old', oldTarget := store, target;
          FullHasLeaves(target);
          ghost var lo, hi := SplitFull(target, key);
          SplitAtLinked(old(store), store, old(lv), lv, mid, old(rows), rows, 1, oldTarget, lo, hi);
          KeptBySplit(old(store), store, old(lv), lv, mid, old(rows), rows, oldTarget, lo, hi);
          Whole();
          Parts();
          NotAmong(old(Leaves()), Leaves(), leaf);
          target := InsertionSearch(key);
          AtRow(target, 1, 1);
          if old(InOrder()) && Absent(old(store), old(Leaves()), key) {
            IsLastRoot(old(rows), root);
            IsLastRoot(rows, root);
            TargetAfterSplit(old(store), store, old(lv), lv, mid, old(rows), rows, oldTarget, lo, hi, key);
          }
          ok := store[target].numKeys < 2 * mid;
        }
      } else {
        ok := true;
        KeptSelf(store, Leaves(), leaf);
        QuietSelf(store, lv, 2 * mid, OnWay(key));
        IntactSelf(store);
        TakenNone(lv, live);
      }
    }

    static lemma KeptSelf(st: Store, row: seq<nat>, leaf: nat)
      requires leaf in st && forall c | c in row :: c in st
      ensures LeavesKept(st, st, row) && SameButParent(st, st, leaf)
    {
    }

    static lemma NotAmong(s: seq<nat>, t: seq<nat>, x: nat)
      requires multiset(s) == multiset(t) && x !in s
      ensures x !in t
    {
      assert x !in multiset(t);
    }

    static lemma IsLastRoot(rows: seq<seq<nat>>, root: nat)
      requires rows != [] && Last(rows) == [root]
      ensures |Last(rows)| > 0 && Last(rows)[0] == root
    {
    }

    lemma AimsRight(key: nat, target: nat)
      requires Valid() && root in lv && lv[root] >= 1 && Levelled(store, lv, 2 * mid)
      requires target == Descend(store, lv, 2 * mid, root, key)
      ensures FitsTarget(key) <==> Fits(store, lv, 2 * mid, target, key)
      ensures forall c | c in Leaves() :: c in store
    {
      hide Fits, Flat, Linked;
      LinkedLeafLevel(store, lv, 2 * mid, rows);
    }

    lemma FullHasLeaves(target: nat)
      requires Valid() && target in rows[1] && target in store && store[target].numKeys == 2 * mid
      ensures Leaves() != []
    {
      hide Flat, NoDup, Covered, RowOk;
      AtRow(target, 1, 1);
      FlatMembers(store, rows[1]);
      assert KidsAt(store, target)[0] in KidsAt(store, target);
      assert KidsAt(store, target)[0] in Flat(store, rows[1]);
    }

    /** The nodes that the search for the key passes. */
    ghost function OnWay(key: nat): set<nat>
      reads this
      requires Valid()
    {
      RootFacts();
      Way(store, lv, 2 * mid, root, key)
    }

    lemma WayIs(key: nat)
      requires Valid() && root in lv && lv[root] >= 1 && Levelled(store, lv, 2 * mid)
      ensures OnWay(key) == Way(store, lv, 2 * mid, root, key)
    {
    }

    lemma GoesIs(key: nat, target: nat)
      requires Valid() && root in lv && lv[root] >= 1 && Levelled(store, lv, 2 * mid)
      requires target == Descend(store, lv, 2 * mid, root, key)
      ensures Splits(key) ==> TargetFull(store, lv, mid, root, key)
      ensures Splits(key) ==> forall z :: GoesTo(key, z) <==> LandsOn(store, lv, mid, root, key, z)
      ensures !Splits(key) ==> GoesTo(key, target)
    {
      AcceptsIs(store, lv, mid, root, key, target);
      hide LandsOn, Descend, Levelled;
    }

    lemma TakesIs(key: nat, target: nat)
      requires Valid() && root in lv && lv[root] >= 1 && Levelled(store, lv, 2 * mid)
      requires target == Descend(store, lv, 2 * mid, root, key)
      ensures target in store && |store[target].keys| == 2 * mid && |store[target].children| == 2 * mid + 1
      ensures store[target].numKeys < 2 * mid ==> TakesKey(key)
      ensures store[target].numKeys == 2 * mid ==> TargetFull(store, lv, mid, root, key)
      ensures store[target].numKeys == 2 * mid ==>
        (TakesKey(key) <==>
         (store[target].keys[2 * mid - 1] < key && store[target].children[2 * mid] == 0)
         || FindsRoom(store, lv, mid, root, key))
      ensures |rows| == 2 ==> target == root
      ensures Splits(key) <==>
        && store[target].numKeys == 2 * mid
        && !(store[target].keys[2 * mid - 1] < key && store[target].children[2 * mid] == 0)
      ensures store[target].numKeys <= 2 * mid
      ensures Appends(store[target], 2 * mid, key) <==>
        && store[target].numKeys == 2 * mid
        && store[target].keys[2 * mid - 1] < key && store[target].children[2 * mid] == 0
    {
      AcceptsIs(store, lv, mid, root, key, target);
      RootFacts();
    }

    /** Hangs the leaf below its target and sets the keys there. */
    method Hang(target: nat, leaf: nat, append: bool) returns (ghost i: nat, ghost p: nat)
      requires Valid() && target in rows[1] && target in store && leaf in store && leaf in lv && lv[leaf] == 0
      requires leaf !in Leaves()
      requires append ==>
        store[target].numKeys == 2 * mid < |store[target].children| && store[target].children[2 * mid] == 0
      requires !append ==> store[target].numKeys < 2 * mid
      modifies this`store
      ensures Intact(old(store), store)
      ensures Valid() && store.Keys == old(store).Keys
      ensures i < |rows[1]| && rows[1][i] == target && target in lv && lv[target] == 1
      ensures HungBelow(old(store), store, 2 * mid, target, p, leaf)
      ensures append ==> p == 2 * mid
      ensures store[target].numKeys == if append then 2 * mid else old(store)[target].numKeys + 1
      ensures !append ==>
        && Known(old(store), lv, 2 * mid, KidsAt(old(store), target))
        && p == Min(Place(old(store), lv, 2 * mid, KidsAt(old(store), target), old(store)[leaf].key),
                    old(store)[target].numKeys)
      ensures |Flat(old(store), rows[1][..i])| + p <= |old(Leaves())|
      ensures Leaves() == InsertAt(old(Leaves()), |Flat(old(store), rows[1][..i])| + p, leaf)
      ensures Levelled(store, lv, 2 * mid) && KeysRight(store, lv, 2 * mid, target)
    {
      hide *;
      Parts();
      AtRow(target, 1, 1);
      i := IndexOf(rows[1], target);
      if append {
        AppendChild(target, leaf, i);
        p := 2 * mid;
      } else {
        p := InsertNonfull(target, leaf, i);
      }
      HungParent(old(store), store, 2 * mid, target, p, leaf);
      ghost var stH := store;
      Settle(target, leaf, p, old(store));
      IntactTwice(old(store), stH, store);
      Whole();
      Parts();
    }

    /** In a sorted tree without the key, target is where the key goes. */
    ghost predicate Aimed(target: nat, key: nat)
      reads this
      requires Valid()
    {
      && InOrder() && key != 0 && Absent(store, Leaves(), key)
      && root in lv && lv[root] >= 1 && target == Descend(store, lv, 2 * mid, root, key)
    }

    lemma AimedIs(target: nat, key: nat)
      requires Valid()
      ensures Levelled(store, lv, 2 * mid) && root in lv && lv[root] >= 1
      ensures Aimed(target, key) <==>
        InOrder() && key != 0 && Absent(store, Leaves(), key) && target == Descend(store, lv, 2 * mid, root, key)
    {
      Parts();
    }

    /** Hangs the leaf; what that does to the order of the leaves. */
    method HangInOrder(target: nat, leaf: nat, append: bool, ghost key: nat) returns (ghost p: nat)
      requires Valid() && target in rows[1] && target in store && leaf in store && leaf in lv && lv[leaf] == 0
      requires leaf !in Leaves()
      requires append ==>
        store[target].numKeys == 2 * mid == |store[target].keys| && |store[target].children| == 2 * mid + 1
      requires append ==> store[target].keys[2 * mid - 1] < key && store[target].children[2 * mid] == 0
      requires !append ==> store[target].numKeys < 2 * mid
      requires store[leaf].key == key
      modifies this`store
      ensures Intact(old(store), store) && HungBelow(old(store), store, 2 * mid, target, p, leaf)
      ensures Levelled(store, lv, 2 * mid) && target in lv && lv[target] == 1 && KeysRight(store, lv, 2 * mid, target)
      ensures append ==> p == 2 * mid
      ensures !append ==>
        && Known(old(store), lv, 2 * mid, KidsAt(old(store), target))
        && p == Min(Place(old(store), lv, 2 * mid, KidsAt(old(store), target), key), old(store)[target].numKeys)
      ensures Valid() && store.Keys == old(store).Keys && target in store
      ensures LeavesKept(old(store), store, old(Leaves())) && SameButParent(old(store), store, leaf)
      ensures multiset(Leaves()) == multiset(old(Leaves())) + multiset{leaf}
      ensures store[target].numKeys == if append then 2 * mid else old(store)[target].numKeys + 1
      ensures old(Aimed(target, key)) ==>
        var fits := Fits(old(store), lv, 2 * mid, target, key);
        && (InOrder() <==> fits) && (!fits ==> old(Leaves()) != [])
        && var place := if fits then old(RankOf(key)) else |old(Leaves())| - 1;
           place <= |old(Leaves())| && Leaves() == InsertAt(old(Leaves()), place, leaf)
    {
      hide *;
      Parts();
      Aims(key);
      AimedIs(target, key);
      ghost var i;
      i, p := Hang(target, leaf, append);
      Parts();
      KeptByHanging(old(store), store, lv, 2 * mid, rows, target, p, leaf);
      InsertedCount(old(Leaves()), |Flat(old(store), rows[1][..i])| + p, leaf);
      if old(Aimed(target, key)) {
        HungInOrder(old(store), i, p, leaf, key, append);
      }
    }

    /**
      Inserts a leaf, if the tree takes the key. The leaves afterwards are those from before and the
      new one. In a sorted tree every absent key is taken; the leaf goes to the place of its rank and
      the tree stays sorted, exactly if the key fits; else the leaf lands in front of the last one.
      When the tree does not take the key, the node found by the second search is full and the source
      shifts its arrays past their ends; the method stops there, and nothing is promised of the tree.
     */
    method Insert(key: nat, value: nat, ftype: nat) returns (ok: bool, leaf: nat)
      requires Valid()
      requires FreeBlocks(live, total) >= if Splits(key) then |rows| + 1 else 1
      modifies this
      ensures FreeBlocks(live, total) + |old(rows)| + 1 >= FreeBlocks(old(live), total) && |rows| <= |old(rows)| + 1
      ensures ok <==> old(TakesKey(key))
      ensures ok ==> Valid()
      ensures leaf !in old(live) && leaf in live && old(live) <= live
      ensures 0 < leaf < total
      ensures !old(Splits(key)) ==> rows == old(rows) && FreeBlocks(live, total) == FreeBlocks(old(live), total) - 1
      ensures leaf in store && store[leaf].isLeaf
      ensures ok ==>
        store[leaf] == Node(true, ftype, key, value, 0, Zeros(2 * mid), Zeros(2 * mid + 1), store[leaf].parent, 0, 0)
      ensures ok ==> var P := store[leaf].parent; old(GoesTo(key, P))
      ensures !old(Splits(key)) ==> Received(old(store), store, old(lv), lv, 2 * mid, store[leaf].parent, leaf)
      ensures ok ==> ElsewhereSame(old(store), store, old(lv), old(OnWay(key)), store[leaf].parent)
      ensures ok ==> Intact(old(store), store - {leaf})
      ensures ok ==> Taken(old(lv)[leaf := 0], lv, old(live) + {leaf}, live)
      ensures store[leaf].key == key && store[leaf].value == value && store[leaf].ftype == ftype
      ensures ok ==> LeavesKept(old(store), store, old(Leaves()))
      ensures ok ==> multiset(Leaves()) == multiset(old(Leaves())) + multiset{leaf}
      ensures old(InOrder()) && key != 0 && Absent(old(store), old(Leaves()), key) ==>
        && ok && (InOrder() <==> old(FitsTarget(key)))
        && (!old(FitsTarget(key)) ==> old(Leaves()) != [])
        && var place := if old(FitsTarget(key)) then old(RankOf(key)) else |old(Leaves())| - 1;
           place <= |old(Leaves())| && Leaves() == InsertAt(old(Leaves()), place, leaf)
      ensures |old(rows)| == 2 && !old(Splits(key)) ==>
        && ok && live == old(live) + {leaf} && root in old(store) && root in store
        && store[root].numKeys == if old(store)[root].numKeys < 2 * mid then old(store)[root].numKeys + 1 else 2 * mid
    {
      hide *;
      Parts();
      var target, append;
      ghost var stL, lvL;
      ok, leaf, target, append, stL, lvL := Prepare(key, value, ftype);
      KeptLeaf(stL, store, leaf);
      if !ok { return; }
      MoreWithLeaf(old(store), stL, old(lv), lvL, leaf);
      ghost var stA, leavesA := store, Leaves();
      ghost var p := HangInOrder(target, leaf, append, key);
      IntactTwice(stL, stA, store);
      IntactWithLeaf(old(store), stL, store, leaf);
      HungParent(stA, store, 2 * mid, target, p, leaf);
      HungFields(stA, store, 2 * mid, target, p, leaf);
      ElsewhereNow(old(store), stL, stA, store, old(lv), lvL, lv, old(OnWay(key)), target, leaf);
      if !old(Splits(key)) {
        AtHeightsBefore(old(lv), lv, target, leaf);
        ReceivedNow(old(store), stL, store, old(lv), lv, 2 * mid, target, p, leaf);
      }
      KeptTwice(old(store), stA, store, old(Leaves()), leavesA);
      KeptLeaf(stA, store, leaf);
    }

    /**
     * Writes the new leaf and finds its target, with a split if need be;
     * stL and lvL are the tree with the leaf before that.
     */
    method Prepare(key: nat, value: nat, ftype: nat)
      returns (ok: bool, leaf: nat, target: nat, append: bool, ghost stL: Store, ghost lvL: map<nat, nat>)
      requires Valid()
      requires FreeBlocks(live, total) >= if Splits(key) then |rows| + 1 else 1
      modifies this
      ensures Valid() && (ok <==> old(TakesKey(key))) && old(GoesTo(key, target))
      ensures FreeBlocks(live, total) + |old(rows)| + 1 >= FreeBlocks(old(live), total) && |rows| <= |old(rows)| + 1
      ensures leaf !in old(live) && leaf in live && old(live) <= live && 0 < leaf < total
      ensures WithLeaf(old(store), stL, old(lv), lvL, leaf)
      ensures leaf in stL && lvL == old(lv)[leaf := 0]
      ensures stL[leaf] == Node(true, ftype, key, value, 0, Zeros(2 * mid), Zeros(2 * mid + 1), 0, 0, 0)
      ensures leaf in store && leaf in lv && lv[leaf] == 0 && leaf !in Leaves() && SameButParent(stL, store, leaf)
      ensures Levelled(stL, lvL, 2 * mid)
      ensures Intact(stL, store) && Taken(lvL, lv, old(live) + {leaf}, live)
      ensures Quiet(stL, store, lvL, lv, old(OnWay(key)), 1)
      ensures LeavesKept(old(store), store, old(Leaves())) && multiset(Leaves()) == multiset(old(Leaves()))
      ensures target in store && target in rows[1]
      ensures append ==>
        store[target].numKeys == 2 * mid == |store[target].keys| && |store[target].children| == 2 * mid + 1
      ensures append ==> store[target].keys[2 * mid - 1] < key && store[target].children[2 * mid] == 0
      ensures ok && !append ==> store[target].numKeys < 2 * mid
      ensures !old(Splits(key)) ==>
        && ok && store == stL && rows == old(rows) && lv == lvL && live == old(live) + {leaf}
        && FreeBlocks(live, total) == FreeBlocks(old(live), total) - 1
        && (append <==> store[target].numKeys == 2 * mid) && (|rows| == 2 ==> target == root)
        && root in old(store) && root in store && store[root] == old(store)[root]
      ensures old(InOrder()) && key != 0 && Absent(old(store), old(Leaves()), key) ==>
        && ok && Aimed(target, key) && RankOf(key) == old(RankOf(key)) && Leaves() == old(Leaves())
        && (Fits(store, lv, 2 * mid, target, key) <==> old(FitsTarget(key)))
    {
      hide *;
      Parts();
      Aims(key);
      ghost var ready := InOrder() && key != 0 && Absent(store, Leaves(), key);
      leaf := NewLeaf(key, value, ftype);
      Parts();
      stL, lvL := store, lv;
      MoreWithLeaf(old(store), stL, old(lv), lvL, leaf);
      ghost var leaves := Leaves();
      ok, target, append := Aim(key, leaf);
      KeptTwice(old(store), stL, store, leaves, leaves);
      KeptLeaf(stL, store, leaf);
      Parts();
      AtRow(target, 1, 1);
      assert target != leaf;
      Aims(key);
      if ready {
        AbsentKept(old(store), store, leaves, key);
        RankKept(old(store), store, old(lv), lv, 2 * mid, old(rows), rows, key);
        AimedIs(target, key);
      }
    }

    static lemma IntactWithLeaf(st: Store, stL: Store, st': Store, leaf: nat)
      requires leaf !in st && leaf in stL && stL == st[leaf := stL[leaf]] && Intact(stL, st')
      ensures Intact(st, st' - {leaf})
    {
      var st2 := st' - {leaf};
      forall c | c in st && st2[c].right != st[c].right
        ensures NewSibling(st, st2, c)
      {
        assert NewSibling(stL, st', c);
      }
    }

    lemma MoreWithLeaf(st: Store, stL: Store, lv0: map<nat, nat>, lv1: map<nat, nat>, leaf: nat)
      requires Levelled(st, lv0, 2 * mid) && Levelled(stL, lv1, 2 * mid) && WithLeaf(st, stL, lv0, lv1, leaf)
      ensures More(st, stL, lv0, lv1, 2 * mid)
      ensures leaf in stL && stL == st[leaf := stL[leaf]] && leaf !in st && lv1 == lv0[leaf := 0]
    {
      LeafLevelled(st, stL, lv0, lv1, 2 * mid, leaf);
    }

    static lemma AtHeightsBefore(lv0: map<nat, nat>, lv1: map<nat, nat>, b: nat, leaf: nat)
      requires lv1 == lv0[leaf := 0] && b in lv1 && lv1[b] >= 1
      ensures b in lv0 && lv0[b] == lv1[b] && b != leaf
    {
    }

    /** Writes the new leaf; what it leaves as it was. */
    method NewLeaf(key: nat, value: nat, ftype: nat) returns (leaf: nat)
      requires Valid()
      requires FreeBlocks(live, total) >= 1
      modifies this
      ensures Valid() && rows == old(rows) && leaf !in old(live) && live == old(live) + {leaf}
      ensures 0 < leaf < total && FreeBlocks(live, total) == FreeBlocks(old(live), total) - 1
      ensures leaf in store && store[leaf].isLeaf && leaf in lv && lv[leaf] == 0 && leaf !in Leaves()
      ensures store[leaf].key == key && store[leaf].value == value && store[leaf].ftype == ftype
      ensures store[leaf] == Node(true, ftype, key, value, 0, Zeros(2 * mid), Zeros(2 * mid + 1), 0, 0, 0)
      ensures WithLeaf(old(store), store, old(lv), lv, leaf)
      ensures OnWay(key) == old(OnWay(key))
      ensures forall z | z != leaf :: GoesTo(key, z) <==> old(GoesTo(key, z))
      ensures Leaves() == old(Leaves()) && LeavesKept(old(store), store, Leaves())
      ensures (TakesKey(key) <==> old(TakesKey(key))) && (Splits(key) <==> old(Splits(key)))
      ensures root in old(store) && root in store && store[root] == old(store)[root]
      ensures old(InOrder()) && Absent(old(store), old(Leaves()), key) ==>
        InOrder() && Absent(store, Leaves(), key) && (FitsTarget(key) <==> old(FitsTarget(key)))
    {
      hide *;
      Parts();
      Aims(key);
      leaf := CreateLeaf(key, value, ftype);
      Parts();
      KeptWithLeaf(old(store), store, old(lv), lv, 2 * mid, rows, leaf);
      LeafIn(old(store), store, old(lv), lv, leaf);
      SameTakes(old(store), old(lv), key, leaf);
      if old(InOrder()) && Absent(old(store), old(Leaves()), key) { StillSorted(old(store), old(lv), key, leaf); }
    }

    /** The new leaf, which hangs nowhere yet, does not change what the tree takes. */
    lemma SameTakes(st: Store, lv0: map<nat, nat>, key: nat, leaf: nat)
      requires Valid() && Levelled(st, lv0, 2 * mid) && WithLeaf(st, store, lv0, lv, leaf)
      requires root in lv0 && lv0[root] >= 1
      ensures TakesKey(key) <==> Accepts(st, lv0, mid, root, key)
      ensures Splits(key) <==> SplitsIn(st, lv0, key)
      ensures forall z | z != leaf :: GoesTo(key, z) <==> GoesIn(st, lv0, key, z)
      ensures OnWay(key) == Way(st, lv0, 2 * mid, root, key)
      ensures root in st && root in store && store[root] == st[root]
    {
      hide Linked, Accepts, Levelled, NodeOk, Descend;
      Parts();
      LeafLevelled(st, store, lv0, lv, 2 * mid, leaf);
      MoreAccepts(st, store, lv0, lv, mid, root, key);
      MoreStep(st, store, lv0, lv, 2 * mid, root, key);
      MoreWay(st, store, lv0, lv, 2 * mid, root, key);
      MoreBeside(st, store, lv0, lv, 2 * mid);
      hide More, LandsOn, MaxKey, KidsAt, Beside;
      if st[Descend(st, lv0, 2 * mid, root, key)].numKeys == 2 * mid {
        MoreFindsRoom(st, store, lv0, lv, mid, root, key);
      }
    }

    lemma Aims(key: nat)
      requires Valid()
      ensures Levelled(store, lv, 2 * mid) && root in lv && lv[root] >= 1
      ensures FitsTarget(key) <==> Fits(store, lv, 2 * mid, Descend(store, lv, 2 * mid, root, key), key)
      ensures mid >= 2 && (TakesKey(key) <==> Accepts(store, lv, mid, root, key))
      ensures Splits(key) <==> SplitsIn(store, lv, key)
      ensures forall z :: GoesTo(key, z) <==> GoesIn(store, lv, key, z)
      ensures OnWay(key) == Way(store, lv, 2 * mid, root, key)
      ensures |rows| > 1 && Known(store, lv, 2 * mid, Flat(store, rows[1]))
      ensures RankOf(key) == Rank(store, lv, 2 * mid, Flat(store, rows[1]), key)
    {
      hide Fits, Flat, Linked;
      Parts();
      LeafMax(store, lv, 2 * mid, rows);
    }

    /** The leaf in its place, in a sorted tree. */
    lemma HungInOrder(stA: Store, i: nat, p: nat, leaf: nat, key: nat, append: bool)
      requires |rows| > 1 && Last(rows) == [root] && mid >= 2 && Linked(store, lv, 2 * mid, rows, 1)
      requires Ordered(stA, lv, 2 * mid, rows) && i < |rows[1]| && leaf in lv && lv[leaf] == 0 && leaf in stA
      requires leaf in store
      requires stA[leaf].key == key != 0 && Absent(stA, Flat(stA, rows[1]), key)
      requires Levelled(stA, lv, 2 * mid) && root in lv && lv[root] >= 1
      requires rows[1][i] == Descend(stA, lv, 2 * mid, root, key)
      requires rows[1][i] in stA && rows[1][i] in lv && lv[rows[1][i]] == 1
      requires !append ==>
        && Known(stA, lv, 2 * mid, KidsAt(stA, rows[1][i]))
        && p == Min(Place(stA, lv, 2 * mid, KidsAt(stA, rows[1][i]), key), stA[rows[1][i]].numKeys)
      requires append ==>
        && var n := stA[rows[1][i]];
        && p == n.numKeys == 2 * mid == |n.keys| && |n.children| == 2 * mid + 1 && n.keys[2 * mid - 1] < key
        && n.children[2 * mid] == 0
      requires HungBelow(stA, store, 2 * mid, rows[1][i], p, leaf) && Levelled(store, lv, 2 * mid)
      requires KeysRight(store, lv, 2 * mid, rows[1][i])
      requires |Flat(stA, rows[1][..i])| + p <= |Flat(stA, rows[1])|
      requires Flat(store, rows[1]) == InsertAt(Flat(stA, rows[1]), |Flat(stA, rows[1][..i])| + p, leaf)
      ensures Known(stA, lv, 2 * mid, Flat(stA, rows[1]))
      ensures var fits, L := Fits(stA, lv, 2 * mid, rows[1][i], key), Flat(stA, rows[1]);
        && |Flat(stA, rows[1][..i])| + p == (if fits then Rank(stA, lv, 2 * mid, L, key) else |L| - 1)
        && (!fits ==> |L| > 0) && (InOrder() <==> fits)
    {
      hide *;
      IsLastRoot(rows, root);
      OrderIs();
      assert rows[1][i] in rows[1];
      if append { AppendPlace(stA, lv, 2 * mid, rows, rows[1][i], key); MinSelf(p); }
      HangLeaf(stA, store, lv, 2 * mid, rows, i, p, leaf);
    }

    lemma OrderIs()
      ensures InOrder() <==> Ordered(store, lv, 2 * mid, rows)
    {
    }

    static lemma MinSelf(p: nat)
      ensures Min(p, p) == p
    {
    }

    static lemma LeafIn(st: Store, st': Store, lv: map<nat, nat>, lv': map<nat, nat>, b: nat)
      requires WithLeaf(st, st', lv, lv', b)
      ensures b in st' && st'[b].isLeaf && b in lv' && lv'[b] == 0
      ensures forall c | c in st :: c in st' && st'[c] == st[c]
    {
    }

    static lemma KeptLeaf(st: Store, st': Store, b: nat)
      requires SameButParent(st, st', b)
      ensures b in st && b in st' && st'[b] == st[b].(parent := st'[b].parent)
    {
    }

    static lemma InsertedCount(s: seq<nat>, q: nat, x: nat)
      requires q <= |s|
      ensures multiset(InsertAt(s, q, x)) == multiset(s) + multiset{x}
    {
    }

    /** The written leaf leaves a sorted tree sorted, and its target is the same as before. */
    lemma StillSorted(st: Store, lv0: map<nat, nat>, key: nat, leaf: nat)
      requires Valid() && Ordered(st, lv0, 2 * mid, rows) && WithLeaf(st, store, lv0, lv, leaf)
      requires Absent(st, Flat(st, rows[1]), key)
      ensures InOrder() && Leaves() == Flat(st, rows[1]) && Absent(store, Leaves(), key)
      ensures Levelled(st, lv0, 2 * mid) && root in lv0 && lv0[root] >= 1
      ensures FitsTarget(key) <==> Fits(st, lv0, 2 * mid, Descend(st, lv0, 2 * mid, root, key), key)
    {
      hide Linked, Flat, Ordered, Absent, Fits, WithLeaf, Levelled;
      OrderedLinked(st, lv0, 2 * mid, rows);
      RootLevel(st, lv0);
      LeafKeepsOrder(st, store, lv0, lv, 2 * mid, rows, leaf);
      KeptWithLeaf(st, store, lv0, lv, 2 * mid, rows, leaf);
      AbsentKept(st, store, Flat(st, rows[1]), key);
      LeafDescend(st, store, lv0, lv, 2 * mid, leaf, root, key);
      LeafFits(st, store, lv0, lv, 2 * mid, leaf, Descend(st, lv0, 2 * mid, root, key), key);
    }

    lemma RootLevel(st: Store, lv0: map<nat, nat>)
      requires Linked(st, lv0, 2 * mid, rows, 1) && |rows| > 1 && Last(rows) == [root]
      ensures root in lv0 && lv0[root] >= 1
    {
      assert root in rows[|rows| - 1];
    }

    // ----- Search -----

    /** A leaf with the key below a node, or 0. */
    method Search(b: nat, key: nat) returns (rv: nat)
      requires Levelled(store, lv, 2 * mid) && b in lv
      ensures rv != 0 ==> rv in Below(store, [b], lv[b]) && rv in store && store[rv].key == key
      ensures rv != 0 ==> FirstWith(store, Below(store, [b], lv[b]), key, rv)
      ensures rv == 0 ==> forall c | c in Below(store, [b], lv[b]) :: c in store && store[c].key != key
      decreases lv[b]
    {
      hide *;
      BelowNode(b);
      var node := store[b];
      rv := 0;
      if node.isLeaf {
        if node.key == key {
          FirstAlone(store, b);
          rv := b;
        }
      } else {
        KidFacts(b);
        ghost var kids, h := Kids(node), lv[b] - 1;
        NothingBelow(h);
        for i := 0 to node.numKeys + 1
          invariant forall c | c in Below(store, kids[..if i < |kids| then i else |kids|], h) ::
            c in store && store[c].key != key
        {
          if node.children[i] != 0 {
            assert kids[i] == node.children[i] && kids[i] in kids;
            BelowAround(store, kids, i, h);
            BelowNext(kids, i, h);
            rv := Search(node.children[i], key);
            if rv != 0 {
              FirstBehind(store, Below(store, kids[..i], h), Below(store, [kids[i]], h), Below(store, kids[i + 1..], h),
                          key, rv);
              FirstIs(store, Below(store, kids, h), key, rv);
              return;
            }
          }
        }
        assert kids[..|kids|] == kids;
      }
    }

    lemma BelowNode(b: nat)
      requires Levelled(store, lv, 2 * mid) && b in lv
      ensures b in store && b != 0
      ensures store[b].isLeaf <==> lv[b] == 0
      ensures lv[b] == 0 ==> Below(store, [b], lv[b]) == [b]
      ensures lv[b] > 0 ==> Below(store, [b], lv[b]) == Below(store, Kids(store[b]), lv[b] - 1)
    {
      hide *;
      RootOfLevelled(store, lv, 2 * mid, b);
      LeafOrNot(b);
      SameKids(b);
      BelowOne(store, b, lv[b]);
    }

    lemma LeafOrNot(b: nat)
      requires b in lv && b in store && NodeOk(store, lv, 2 * mid, b)
      ensures store[b].isLeaf <==> lv[b] == 0
    {
    }

    lemma NothingBelow(h: nat)
      ensures forall kids: seq<nat> :: Below(store, kids[..0], h) == []
    {
      forall kids: seq<nat>
        ensures Below(store, kids[..0], h) == []
      {
        EmptyBelow(store, h);
        assert kids[..0] == [];
      }
    }

    static lemma {:induction false} EmptyBelow(st: Store, h: nat)
      ensures Below(st, [], h) == []
    {
      if h > 0 { EmptyBelow(st, h - 1); }
    }

    lemma BelowNext(kids: seq<nat>, i: nat, h: nat)
      requires i < |kids|
      ensures Below(store, kids[..i + 1], h) == Below(store, kids[..i], h) + Below(store, [kids[i]], h)
    {
      assert kids[..i + 1] == kids[..i] + [kids[i]];
      BelowConcat(store, kids[..i], [kids[i]], h);
    }

    /** From the root a search finds a leaf exactly if one has the key. */
    method Find(key: nat) returns (rv: nat)
      requires Valid()
      ensures rv != 0 ==> rv in Leaves() && rv in store && store[rv].key == key
      ensures rv != 0 ==> FirstWith(store, Leaves(), key, rv)
      ensures rv == 0 <==> Absent(store, Leaves(), key)
    {
      hide Linked, Flat, Below, FirstWith;
      Parts();
      RootFacts();
      LeavesBelow(store, lv, 2 * mid, rows, |rows| - 1);
      rv := Search(root, key);
    }

    // ----- Deletion from a tree of one inner node -----

    /** The root has only leaves, in order, with its last slot empty and room for a key more. */
    ghost predicate Small()
      reads this
    {
      && Valid() && InOrder() && |rows| == 2
      && root in store && store[root].numKeys == |Leaves()| < 2 * mid
    }

    /** Where the keys of the root stop being smaller than the key. */
    static method IndexOfKey(n: Node, key: nat) returns (i: nat)
      requires |n.keys| > 0
      ensures StopsAt(n, |n.keys|, key, i)
    {
      i := 0;
      while i < |n.keys| && n.keys[i] < key && n.keys[i] != 0
        invariant i <= |n.keys| && forall j | 0 <= j < i :: n.keys[j] < key && n.keys[j] != 0
      {
        i := i + 1;
      }
    }

    /** Takes the key and the child at position i out of a node. */
    static method DropAt(n: Node, i: nat) returns (n': Node)
      requires |n.keys| + 1 == |n.children| && Shape(n, |n.keys|) && n.numKeys < |n.keys| && i < Count(n) == n.numKeys
      ensures LosesChild(n, n', i, |n.keys|)
      ensures n' == n.(keys := n'.keys, children := n'.children, numKeys := n.numKeys - 1)
    {
      var keys, children := n.keys, n.children;
      for j := i to n.numKeys
        invariant |keys| == |n.keys|
        invariant forall k | j <= k < |keys| :: keys[k] == n.keys[k]
      {
        keys := keys[j := keys[j + 1]];
      }
      for j := i to n.numKeys + 1
        invariant |children| == |n.children|
        invariant forall k | 0 <= k < i || j <= k < |children| :: children[k] == n.children[k]
        invariant forall k | i <= k < j :: children[k] == n.children[k + 1]
      {
        children := children[j := children[j + 1]];
      }
      keys := keys[n.numKeys - 1 := 0];
      children := children[n.numKeys := 0];
      n' := n.(keys := keys, children := children, numKeys := n.numKeys - 1);
      Dropped(n, n', i);
    }

    static lemma Dropped(n: Node, n': Node, i: nat)
      requires |n.keys| + 1 == |n.children| && Shape(n, |n.keys|) && n.numKeys < |n.keys| && i < Count(n) == n.numKeys
      requires n' == n.(keys := n'.keys, children := n'.children, numKeys := n.numKeys - 1)
      requires |n'.keys| == |n.keys| && |n'.children| == |n.children|
      requires forall k | n.numKeys - 1 <= k < |n.keys| :: n'.keys[k] == 0
      requires forall k | 0 <= k < i :: n'.children[k] == n.children[k]
      requires forall k | i <= k < n.numKeys :: n'.children[k] == n.children[k + 1]
      requires forall k | n.numKeys <= k < |n.children| :: n'.children[k] == 0
      ensures LosesChild(n, n', i, |n.keys|)
    {
      assert n.children[n.numKeys] == 0;
      assert n'.children[n.numKeys - 1] == 0;
      assert Count(n') == n.numKeys - 1;
      assert Kids(n') == RemoveAt(Kids(n), i);
    }

    lemma SmallFacts()
      requires Small()
      ensures mid >= 2 && Valid() && |rows| == 2 && rows[1] == [root] && Last(rows) == [root]
      ensures Linked(store, lv, 2 * mid, rows, 1)
      ensures Levelled(store, lv, 2 * mid) && root in lv && lv[root] == 1 && root in store && root != 0
      ensures |store[root].keys| == 2 * mid && |store[root].children| == 2 * mid + 1 && Shape(store[root], 2 * mid)
      ensures Leaves() == Kids(store[root]) == Flat(store, rows[1])
      ensures |Leaves()| == store[root].numKeys == Count(store[root]) < 2 * mid
      ensures store[root].children[store[root].numKeys] == 0 && store.Keys <= live
      ensures Ordered(store, lv, 2 * mid, rows) && KeysRight(store, lv, 2 * mid, root)
      ensures forall c | c in Leaves() :: c in store && c in lv && lv[c] == 0 && c != root && store[c].parent == root
      ensures forall c | c in Leaves() :: MaxKey(store, lv, 2 * mid, c) == store[c].key
      ensures NoDup(Leaves())
    {
      hide MaxKey, NoDup, Flat, Covered, Ascending;
      RootFacts();
      FlatOne(store, root);
      LinkedRow(store, lv, 2 * mid, rows, 1, 1);
      LeafMax(store, lv, 2 * mid, rows);
      NodeShape(store, lv, 2 * mid, root);
      assert root in rows[1];
    }

    /** The keys of the root stop at the leaf that has the key. */
    lemma KeyAt(k: nat, key: nat, i: nat)
      requires Small() && k < |Leaves()| && Leaves()[k] in store && store[Leaves()[k]].key == key
      requires root in store && StopsAt(store[root], 2 * mid, key, i)
      ensures i == k
    {
      SmallFacts();
      hide MaxKey, Ascending, Linked, Flat, NoDup, Kids;
      forall j | 0 <= j <= k
        ensures store[root].keys[j] == store[Leaves()[j]].key != 0
        ensures j < k ==> store[Leaves()[j]].key < key
      {
        assert Leaves()[j] == store[root].children[j] && Leaves()[j] in Leaves();
        assert store[root].keys[j] == MaxKey(store, lv, 2 * mid, store[root].children[j]);
        if j < k {
          AscendingAt(store, lv, 2 * mid, Leaves(), j, k);
        }
      }
      StopsOnce(store[root], 2 * mid, key, i, k);
    }

    /** Unlinks the leaf with the key from the root. */
    method RemoveKey(key: nat, ghost k: nat)
      requires Small() && k < |Leaves()| && Leaves()[k] in store && store[Leaves()[k]].key == key
      modifies this`store
      ensures Small() && Leaves() == RemoveAt(old(Leaves()), k)
      ensures root in store && root in old(store) && store == old(store)[root := store[root]]
      ensures store[root] == old(store)[root].(keys := store[root].keys, children := store[root].children,
                                               numKeys := old(store)[root].numKeys - 1)
    {
      hide *;
      SmallFacts();
      var i := IndexOfKey(store[root], key);
      KeyAt(k, key, i);
      var child := store[root].children[i];
      i := IndexOfKey(store[root], key);
      KeyAt(k, key, i);
      var n := DropAt(store[root], i);
      ChildIsLeaf(k);
      store := store[root := n];
      LinkLoses(old(store), store, lv, 2 * mid, rows, root, k);
      label dropped:
      UpdateParentKeys(child);
      SmallAgain(old(store), n, k);
    }

    lemma ChildIsLeaf(k: nat)
      requires Small() && k < |Leaves()|
      ensures root in store && k < |store[root].children| && Leaves()[k] == store[root].children[k]
      ensures Leaves()[k] in Leaves()
      ensures k < Count(store[root])
    {
      SmallFacts();
    }

    lemma SmallAgain(st: Store, n: Node, k: nat)
      requires mid >= 2 && Linked(store, lv, 2 * mid, rows, 1) && |rows| == 2 && rows[1] == [root]
      requires Last(rows) == [root]
      requires Ordered(st, lv, 2 * mid, rows) && root in st && root in store && root in lv && lv[root] == 1
      requires store == st[root := n.(keys := store[root].keys)] && LosesChild(st[root], n, k, 2 * mid)
      requires k < |Flat(st, rows[1])| && Flat(store, rows[1]) == RemoveAt(Flat(st, rows[1]), k)
      requires Levelled(store, lv, 2 * mid) && KeysRight(store, lv, 2 * mid, root) && store.Keys <= live
      requires st[root].numKeys == |Flat(st, rows[1])| < 2 * mid
      ensures Small() && Leaves() == Flat(store, rows[1])
    {
      hide MaxKey, Linked, Flat, NoDup, Levelled, Ascending, LosesChild, KeysRight;
      OrderedLinked(st, lv, 2 * mid, rows);
      LeafMax(st, lv, 2 * mid, rows);
      LeafMax(store, lv, 2 * mid, rows);
      forall c | c in Flat(st, rows[1])
        ensures c in store && store[c].key == st[c].key && MaxKey(store, lv, 2 * mid, c) == MaxKey(st, lv, 2 * mid, c)
      {
        LeafStays(st, lv, c);
      }
      AscendingWithout(st, store, lv, 2 * mid, Flat(st, rows[1]), k);
      FewerKeys(st[root], n, k);
    }

    lemma FewerKeys(n: Node, n': Node, k: nat)
      requires LosesChild(n, n', k, 2 * mid)
      ensures n'.numKeys + 1 == n.numKeys
    {
    }

    lemma LeafStays(st: Store, lv0: map<nat, nat>, c: nat)
      requires Levelled(st, lv0, 2 * mid) && Levelled(store, lv0, 2 * mid) && c in lv0 && lv0[c] == 0 && c in st
      requires c in store
      requires root in lv0 && lv0[root] == 1
      requires c != root ==> store[c] == st[c]
      ensures store[c].key == st[c].key && MaxKey(store, lv0, 2 * mid, c) == MaxKey(st, lv0, 2 * mid, c)
    {
    }

    /** Gives the block of a leaf that hangs nowhere back to the allocator. */
    method FreeNode(b: nat)
      requires Small() && b in lv && lv[b] == 0 && b !in Leaves()
      modifies this
      ensures Small() && Leaves() == old(Leaves()) && live == old(live) - {b} && store == old(store) - {b}
    {
      hide *;
      SmallFacts();
      live := live - {b};
      store := store - {b};
      lv := lv - {b};
      DropLinked(store, old(store), lv, old(lv), 2 * mid, rows, b);
      DropKeepsOrder(store, old(store), lv, old(lv), 2 * mid, rows, b);
      SmallIs();
    }

    lemma SmallIs()
      requires mid >= 2 && Linked(store, lv, 2 * mid, rows, 1) && |rows| == 2 && Last(rows) == [root]
      requires store.Keys <= live
      requires Ordered(store, lv, 2 * mid, rows)
      requires root in store && store[root].numKeys == |Flat(store, rows[1])| < 2 * mid
      ensures Small() && Leaves() == Flat(store, rows[1])
    {
    }

    /** Removes the leaf with the key, and only that, and frees its block. */
    method Delete(key: nat) returns (rv: nat)
      requires Small()
      modifies this
      ensures Small()
      ensures rv == 0 <==> Absent(old(store), old(Leaves()), key)
      ensures rv == 0 ==> store == old(store) && live == old(live) && Leaves() == old(Leaves())
      ensures rv != 0 ==> rv in old(Leaves()) && rv in old(store) && old(store)[rv].key == key
      ensures rv != 0 ==> Leaves() == Remove(old(Leaves()), rv) && live == old(live) - {rv}
      ensures rv != 0 ==>
        && root in store && root in old(store) && rv != root
        && var n := old(store)[root].(keys := store[root].keys, children := store[root].children,
                                      numKeys := old(store)[root].numKeys - 1);
           store == old(store)[root := n] - {rv}
      ensures LeavesKept(old(store), store, Leaves())
    {
      hide *;
      SmallFacts();
      KeptAll(store, Leaves());
      rv := Find(key);
      if rv != 0 {
        ghost var k := IndexOf(Leaves(), rv);
        RemoveKey(key, k);
        RemoveIsRemoveAt(old(Leaves()), rv);
        RemoveAtMembers(old(Leaves()), k);
        FreeNode(rv);
        SmallFacts();
        KeptSame(old(store), store, Leaves());
      }
    }

    static lemma KeptAll(st: Store, row: seq<nat>)
      requires forall c | c in row :: c in st
      ensures LeavesKept(st, st, row)
    {
    }

    static lemma KeptSame(st: Store, st': Store, row: seq<nat>)
      requires forall c | c in row :: c in st && c in st' && st'[c] == st[c]
      ensures LeavesKept(st, st', row)
    {
    }

    /** Below a root with an empty last slot every key fits. */
    lemma SmallFits(key: nat)
      requires Small()
      ensures FitsTarget(key) && !Splits(key)
    {
      hide MaxKey, Flat, Linked, Ordered;
      SmallFacts();
      Parts();
      AtHeightOne(key, root);
    }

    /** With one inner node and a key less than leaves fit, the tree is small. */
    lemma SmallSize()
      requires Valid() && InOrder() && |rows| == 2 && root in store && store[root].numKeys == |Leaves()| < 2 * mid
      ensures Small()
    {
    }

    lemma DistinctKeys()
      requires Small()
      ensures forall c, d | c in Leaves() && d in Leaves() && c in store && d in store && c != d ::
        store[c].key != store[d].key
    {
      SmallFacts();
      hide MaxKey, Linked, Flat, NoDup, Ascending, Levelled;
      var row := Leaves();
      forall c, d | c in row && d in row && c != d
        ensures store[c].key != store[d].key
      {
        var i :| 0 <= i < |row| && row[i] == c;
        var j :| 0 <= j < |row| && row[j] == d;
        if i < j {
          AscendingAt(store, lv, 2 * mid, row, i, j);
        } else {
          AscendingAt(store, lv, 2 * mid, row, j, i);
        }
      }
    }
  }
}
