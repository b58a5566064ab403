/** Where the search for a new key ends once its full target has been split, told from the tree before the split. */
module BTreeLanding {
  import opened Sequences
  import opened BTreeModel
  import opened BTreeSplits
  import opened BTreeSpread
  import opened BTreeOrder
  import opened BTreeInsertion

  /** One of the two halves of the target, or a parent of leaves that stood there before. */
  datatype Landing = Half | At(node: nat)

  /** The child that the way down takes. */
  ghost function Step(st: Store, lv: map<nat, nat>, m: nat, b: nat, key: nat): (c: nat)
    requires Levelled(st, lv, m) && b in lv && lv[b] >= 2
    ensures c in KidsAt(st, b) && c in lv && lv[c] + 1 == lv[b]
  {
    KidsOf(st, lv, m, b);
    Pick(st, lv, m, KidsAt(st, b), key)
  }

  /** Whether a node and all nodes on the way down from it are full. */
  ghost predicate FullFrom(st: Store, lv: map<nat, nat>, mid: nat, b: nat, key: nat)
    requires Levelled(st, lv, 2 * mid) && b in lv && lv[b] >= 1
    decreases lv[b]
  {
    st[b].numKeys == 2 * mid && (lv[b] >= 2 ==> FullFrom(st, lv, mid, Step(st, lv, 2 * mid, b, key), key))
  }

  /** The search through the two halves of a full node: it leaves the way down when the lower half is below the key. */
  ghost function InHalves(st: Store, lv: map<nat, nat>, mid: nat, b: nat, key: nat): (l: Landing)
    requires Levelled(st, lv, 2 * mid) && b in lv && lv[b] >= 1 && FullFrom(st, lv, mid, b, key)
    ensures l.At? ==> l.node in lv && lv[l.node] == 1
    decreases lv[b]
  {
    if lv[b] == 1 then Half
    else
      KidsOf(st, lv, 2 * mid, b);
      var K, c := KidsAt(st, b), Step(st, lv, 2 * mid, b, key);
      if IndexOf(K, c) < mid && MaxKey(st, lv, 2 * mid, K[mid]) < key
      then At(Descend(st, lv, 2 * mid, Pick(st, lv, 2 * mid, K[mid + 1..], key), key))
      else InHalves(st, lv, mid, c, key)
  }

  ghost function Maxima(st: Store, lv: map<nat, nat>, m: nat, row: seq<nat>): (r: seq<nat>)
    requires Known(st, lv, m, row)
    ensures |r| == |row| && forall i | 0 <= i < |r| :: r[i] == MaxKey(st, lv, m, row[i])
  {
    if row == [] then [] else [MaxKey(st, lv, m, row[0])] + Maxima(st, lv, m, row[1..])
  }

  /** The first number that reaches key; the last one when there is none. */
  function FirstUp(s: seq<nat>, key: nat): (i: nat)
    requires s != []
    ensures i < |s| && (forall j | 0 <= j < i :: s[j] < key) && (i == |s| - 1 || key <= s[i])
  {
    if |s| == 1 || key <= s[0] then 0 else 1 + FirstUp(s[1..], key)
  }

  /** The first key that is not below max, or empty. */
  function KeyIndex(keys: seq<nat>, max: nat): (i: nat)
    ensures i <= |keys| && (forall j | 0 <= j < i :: keys[j] < max && keys[j] != 0)
    ensures i < |keys| ==> max <= keys[i] || keys[i] == 0
  {
    if keys == [] || max <= keys[0] || keys[0] == 0 then 0 else 1 + KeyIndex(keys[1..], max)
  }

  /**
    The maxima below a parent with room once its child T, a full parent of leaves, is split: b goes where the
    keys say.
   */
  ghost function SplitMaxima(st: Store, lv: map<nat, nat>, mid: nat, b: nat, key: nat): (r: seq<nat>)
    requires Levelled(st, lv, 2 * mid) && b in lv && lv[b] == 2 && mid >= 2
    requires st[Step(st, lv, 2 * mid, b, key)].numKeys == 2 * mid
    ensures |r| == |KidsAt(st, b)| + 1
  {
    KidsOf(st, lv, 2 * mid, b);
    var K, T := KidsAt(st, b), Step(st, lv, 2 * mid, b, key);
    KidsOf(st, lv, 2 * mid, T);
    var max := MaxKey(st, lv, 2 * mid, T);
    KeysEnd(st, lv, 2 * mid, b, max);
    var halved := MaxKey(st, lv, 2 * mid, KidsAt(st, T)[mid]);
    InsertAt(Maxima(st, lv, 2 * mid, K)[IndexOf(K, T) := halved], KeyIndex(st[b].keys, max) + 1, max)
  }

  /** The children of that parent then; 0 stands for the new half. */
  ghost function SplitKids(st: Store, lv: map<nat, nat>, mid: nat, b: nat, key: nat): (r: seq<nat>)
    requires Levelled(st, lv, 2 * mid) && b in lv && lv[b] == 2
    ensures |r| == |KidsAt(st, b)| + 1 && forall d | d in r :: d == 0 || d in KidsAt(st, b)
  {
    KidsOf(st, lv, 2 * mid, b);
    var max := MaxKey(st, lv, 2 * mid, Step(st, lv, 2 * mid, b, key));
    KeysEnd(st, lv, 2 * mid, b, max);
    InsertAtMembers(KidsAt(st, b), KeyIndex(st[b].keys, max) + 1, 0);
    InsertAt(KidsAt(st, b), KeyIndex(st[b].keys, max) + 1, 0)
  }

  ghost predicate TargetFull(st: Store, lv: map<nat, nat>, mid: nat, b: nat, key: nat)
    requires Levelled(st, lv, 2 * mid) && b in lv && lv[b] >= 1
  {
    mid >= 2 && st[Descend(st, lv, 2 * mid, b, key)].numKeys == 2 * mid
  }

  /** The search among the children of b behind p. */
  ghost function Beyond(st: Store, lv: map<nat, nat>, m: nat, b: nat, p: nat, key: nat): (z: nat)
    requires Levelled(st, lv, m) && b in lv && lv[b] >= 2 && p in KidsAt(st, b) && p != Last(KidsAt(st, b))
    ensures z in lv && lv[z] == 1
  {
    KidsOf(st, lv, m, b);
    RestAfter(st, lv, m, KidsAt(st, b), p);
    Descend(st, lv, m, Pick(st, lv, m, KidsAt(st, b)[IndexOf(KidsAt(st, b), p) + 1..], key), key)
  }

  /** The maximum below a node on the way that is not split itself. */
  ghost function NewMax(st: Store, lv: map<nat, nat>, mid: nat, b: nat, key: nat): nat
    requires Levelled(st, lv, 2 * mid) && b in lv && lv[b] >= 2 && TargetFull(st, lv, mid, b, key)
    decreases lv[b]
  {
    StepDown(st, lv, 2 * mid, b, key);
    var K, p := KidsAt(st, b), Step(st, lv, 2 * mid, b, key);
    if lv[b] == 2 then Last(SplitMaxima(st, lv, mid, b, key))
    else if FullFrom(st, lv, mid, p, key) || p != Last(K) then MaxKey(st, lv, 2 * mid, b)
    else NewMax(st, lv, mid, p, key)
  }

  /** The search from a node on the way that is not split itself. */
  ghost function Second(st: Store, lv: map<nat, nat>, mid: nat, b: nat, key: nat): (l: Landing)
    requires Levelled(st, lv, 2 * mid) && b in lv && lv[b] >= 2 && TargetFull(st, lv, mid, b, key)
    ensures l.At? ==> l.node in lv && lv[l.node] == 1
    decreases lv[b]
  {
    StepDown(st, lv, 2 * mid, b, key);
    KidsOf(st, lv, 2 * mid, b);
    var K, p := KidsAt(st, b), Step(st, lv, 2 * mid, b, key);
    if lv[b] == 2 then
      var c := SplitKids(st, lv, mid, b, key)[FirstUp(SplitMaxima(st, lv, mid, b, key), key)];
      if c == 0 || c == p then Half else At(c)
    else if FullFrom(st, lv, mid, p, key) then InHalves(st, lv, mid, p, key)
    else if p != Last(K) && NewMax(st, lv, mid, p, key) < key then At(Beyond(st, lv, 2 * mid, b, p, key))
    else Second(st, lv, mid, p, key)
  }

  /** Where the second search from the root ends. */
  ghost function Lands(st: Store, lv: map<nat, nat>, mid: nat, root: nat, key: nat): (l: Landing)
    requires Levelled(st, lv, 2 * mid) && root in lv && lv[root] >= 1 && TargetFull(st, lv, mid, root, key)
    ensures l.At? ==> l.node in lv && lv[l.node] == 1
  {
    if FullFrom(st, lv, mid, root, key) then InHalves(st, lv, mid, root, key)
    else Second(st, lv, mid, root, key)
  }

  // ----- Small facts -----

  lemma KidsOf(st: Store, lv: map<nat, nat>, m: nat, b: nat)
    requires Levelled(st, lv, m) && b in lv && lv[b] >= 1
    ensures b in st && Known(st, lv, m, KidsAt(st, b)) && KidsAt(st, b) == Kids(st[b])
    ensures forall d | d in KidsAt(st, b) :: d in lv && lv[d] + 1 == lv[b] && d != 0
    ensures |KidsAt(st, b)| >= st[b].numKeys && |st[b].keys| == m
    ensures lv[b] >= 2 ==> |KidsAt(st, b)| == st[b].numKeys + 1
  {
    assert NodeOk(st, lv, m, b);
  }

  /** The loop over the keys ends at the used ones. */
  lemma KeysEnd(st: Store, lv: map<nat, nat>, m: nat, b: nat, max: nat)
    requires Levelled(st, lv, m) && b in lv && lv[b] >= 2
    ensures KeyIndex(st[b].keys, max) < |KidsAt(st, b)|
  {
    assert NodeOk(st, lv, m, b);
    var n := st[b];
    assert n.numKeys < m ==> n.keys[n.numKeys] == 0;
  }

  lemma StepDown(st: Store, lv: map<nat, nat>, m: nat, b: nat, key: nat)
    requires Levelled(st, lv, m) && b in lv && lv[b] >= 2
    ensures Descend(st, lv, m, Step(st, lv, m, b, key), key) == Descend(st, lv, m, b, key)
    ensures lv[b] == 2 ==> Descend(st, lv, m, b, key) == Step(st, lv, m, b, key)
  {
    KidsOf(st, lv, m, b);
  }

  // ----- The way down -----

  /** The nodes that the way down from b passes. */
  ghost function Way(st: Store, lv: map<nat, nat>, m: nat, b: nat, key: nat): (A: set<nat>)
    requires Levelled(st, lv, m) && b in lv && lv[b] >= 1
    ensures b in A && forall x | x in A :: x in lv && 1 <= lv[x] <= lv[b] && (lv[x] == lv[b] ==> x == b)
    decreases lv[b]
  {
    {b} + if lv[b] == 1 then {} else Way(st, lv, m, Step(st, lv, m, b, key), key)
  }

  /** Every child below a node points back to it. */
  ghost predicate Backed(st: Store, lv: map<nat, nat>) {
    forall d, c | d in lv && lv[d] >= 1 && c in KidsAt(st, d) :: c in st && st[c].parent == d
  }

  lemma LinkedBacked(st: Store, lv: map<nat, nat>, m: nat, rows: seq<seq<nat>>)
    requires Linked(st, lv, m, rows, 1)
    ensures Backed(st, lv)
  {
    hide KidsAt, Flat, NoDup, Levelled;
    forall d, c | d in lv && lv[d] >= 1 && c in KidsAt(st, d)
      ensures c in st && st[c].parent == d
    {
      assert d in rows[lv[d]] && RowOk(st, lv, rows[lv[d]], lv[d]);
    }
  }

  /** Up the way: the parent of a node on it is on it. */
  lemma {:induction false} WayUp(st: Store, lv: map<nat, nat>, m: nat, b: nat, key: nat, x: nat)
    requires Levelled(st, lv, m) && b in lv && lv[b] >= 1 && Backed(st, lv)
    requires x in Way(st, lv, m, b, key) && x != b
    ensures x in st && st[x].parent in Way(st, lv, m, b, key) && lv[st[x].parent] == lv[x] + 1
    ensures Step(st, lv, m, st[x].parent, key) == x
    decreases lv[b]
  {
    hide Levelled, KidsAt;
    var c := Step(st, lv, m, b, key);
    if x != c { WayUp(st, lv, m, c, key, x); }
  }

  /** Down the way: one child is on it. */
  lemma {:induction false} WayDown(st: Store, lv: map<nat, nat>, m: nat, b: nat, key: nat, x: nat)
    requires Levelled(st, lv, m) && b in lv && lv[b] >= 1 && x in Way(st, lv, m, b, key)
    ensures lv[x] >= 2 ==> Step(st, lv, m, x, key) in Way(st, lv, m, b, key)
    ensures Descend(st, lv, m, x, key) == Descend(st, lv, m, b, key)
    decreases lv[b]
  {
    if lv[b] >= 2 {
      StepDown(st, lv, m, b, key);
      if x != b { WayDown(st, lv, m, Step(st, lv, m, b, key), key, x); }
    }
  }

  /** Only one child of a node on the way is on it, and none of a node beside it. */
  lemma WayBeside(st: Store, lv: map<nat, nat>, m: nat, b: nat, key: nat, d: nat, c: nat)
    requires Levelled(st, lv, m) && b in lv && lv[b] >= 1 && Backed(st, lv)
    requires forall e | e in lv :: lv[e] <= lv[b]
    requires d in lv && lv[d] >= 1 && c in KidsAt(st, d) && c in Way(st, lv, m, b, key)
    ensures d in Way(st, lv, m, b, key) && lv[d] >= 2 && c == Step(st, lv, m, d, key)
  {
    hide Way;
    KidsOf(st, lv, m, d);
    WayUp(st, lv, m, b, key, c);
  }

  // ----- Beside the way -----

  /** The nodes outside A are as they were, and so is all below them. */
  ghost predicate Beside(st: Store, st': Store, lv: map<nat, nat>, lv': map<nat, nat>, A: set<nat>) {
    && (forall d | d in lv && d !in A ::
         && d in lv' && lv'[d] == lv[d] && KidsAt(st', d) == KidsAt(st, d)
         && d in st && d in st' && (lv[d] == 0 ==> st'[d].key == st[d].key))
    && forall d, c | d in lv && lv[d] >= 1 && d !in A && c in KidsAt(st, d) :: c !in A
  }

  lemma {:induction false} BesideMax(st: Store, st': Store, lv: map<nat, nat>, lv': map<nat, nat>, m: nat, A: set<nat>,
                                     d: nat)
    requires Levelled(st, lv, m) && Levelled(st', lv', m) && Beside(st, st', lv, lv', A) && d in lv && d !in A
    ensures d in lv' && MaxKey(st', lv', m, d) == MaxKey(st, lv, m, d)
    decreases lv[d]
  {
    if lv[d] != 0 {
      KidsOf(st, lv, m, d);
      KidsOf(st', lv', m, d);
      hide Levelled;
      if Kids(st[d]) != [] {
        BesideMax(st, st', lv, lv', m, A, Last(Kids(st[d])));
      }
    }
  }

  lemma BesidePick(st: Store, st': Store, lv: map<nat, nat>, lv': map<nat, nat>, m: nat, A: set<nat>, row: seq<nat>,
                   key: nat)
    requires Known(st, lv, m, row) && Levelled(st', lv', m) && Beside(st, st', lv, lv', A) && row != []
    requires forall d | d in row :: d !in A
    ensures Known(st', lv', m, row) && Pick(st', lv', m, row, key) == Pick(st, lv, m, row, key)
  {
    hide Levelled, MaxKey;
    forall d | d in row
      ensures d in lv' && MaxKey(st', lv', m, d) == MaxKey(st, lv, m, d)
    {
      BesideMax(st, st', lv, lv', m, A, d);
    }
    PickFrame(st, st', lv, lv', m, row, key);
  }

  lemma {:induction false} BesideDescend(st: Store, st': Store, lv: map<nat, nat>, lv': map<nat, nat>, m: nat,
                                         A: set<nat>, d: nat, key: nat)
    requires Levelled(st, lv, m) && Levelled(st', lv', m) && Beside(st, st', lv, lv', A) && d in lv && d !in A
    requires lv[d] >= 1
    ensures d in lv' && lv'[d] == lv[d] && Descend(st', lv', m, d, key) == Descend(st, lv, m, d, key)
    ensures Descend(st, lv, m, d, key) !in A
    decreases lv[d]
  {
    if lv[d] > 1 {
      KidsOf(st, lv, m, d);
      KidsOf(st', lv', m, d);
      hide Levelled;
      BesidePick(st, st', lv, lv', m, A, KidsAt(st, d), key);
      BesideDescend(st, st', lv, lv', m, A, Step(st, lv, m, d, key), key);
    }
  }

  // ----- A row with a new half in it -----

  /** What is picked, and where: the first to reach the key, or the last. */
  lemma {:induction false} PickFacts(st: Store, lv: map<nat, nat>, m: nat, row: seq<nat>, key: nat)
    requires Known(st, lv, m, row) && row != [] && NoDup(row)
    ensures var i := IndexOf(row, Pick(st, lv, m, row, key));
      && (forall j | 0 <= j < i :: MaxKey(st, lv, m, row[j]) < key)
      && (i == |row| - 1 || key <= MaxKey(st, lv, m, row[i]))
  {
    hide MaxKey, Levelled;
    var c := Pick(st, lv, m, row, key);
    if |row| > 1 && MaxKey(st, lv, m, row[0]) < key {
      PickFacts(st, lv, m, row[1..], key);
      assert c in row[1..] && c != row[0];
    }
  }

  lemma BehindAt(K: seq<nat>, x: nat, hi: nat)
    requires x in K
    ensures var i, r := IndexOf(K, x), Behind(K, x, hi);
      && |r| == |K| + 1 && r[i] == x && r[i + 1] == hi && r[..i] == K[..i] && r[i + 2..] == K[i + 1..]
      && forall d | d in r :: d == hi || d in K
  {
    InsertAtMembers(K, IndexOf(K, x) + 1, hi);
  }

  lemma BehindLast(K: seq<nat>, x: nat, hi: nat)
    requires K != [] && NoDup(K)
    ensures Behind(K, x, hi) != [] && Last(Behind(K, x, hi)) == if Last(K) == x then hi else Last(K)
  {
    if x in K {
      BehindAt(K, x, hi);
    }
  }

  /** The search in a row where the new half hi stands behind the child p that the way down took. */
  lemma PairPicked(st: Store, st': Store, lv: map<nat, nat>, lv': map<nat, nat>, m: nat, A: set<nat>,
                   K: seq<nat>, p: nat, hi: nat, key: nat)
    requires Known(st, lv, m, K) && Levelled(st', lv', m) && Beside(st, st', lv, lv', A) && NoDup(K)
    requires p in K && p in lv' && hi in lv' && MaxKey(st', lv', m, hi) == MaxKey(st, lv, m, p)
    requires forall d | d in K && d != p :: d !in A
    requires forall j | 0 <= j < IndexOf(K, p) :: MaxKey(st, lv, m, K[j]) < key
    requires p == Last(K) || key <= MaxKey(st, lv, m, p)
    ensures Known(st', lv', m, Behind(K, p, hi)) && Behind(K, p, hi) != []
    ensures Pick(st', lv', m, Behind(K, p, hi), key) == if key <= MaxKey(st', lv', m, p) then p else hi
  {
    hide MaxKey, Levelled, Behind, Beside, Pick, NoDup;
    BehindAt(K, p, hi);
    var i, r := IndexOf(K, p), Behind(K, p, hi);
    forall d | d in K && d != p
      ensures d in lv' && MaxKey(st', lv', m, d) == MaxKey(st, lv, m, d)
    {
      BesideMax(st, st', lv, lv', m, A, d);
    }
    forall j | 0 <= j < i
      ensures MaxKey(st', lv', m, r[j]) < key
    {
      assert r[j] == r[..i][j] == K[..i][j] == K[j] && K[j] != p;
    }
    assert Known(st', lv', m, r);
    hide Known;
    if key <= MaxKey(st', lv', m, p) {
      PickAt(st', lv', m, r, key, i);
    } else {
      OncePlaced(K, p, |K| - 1);
      PickAt(st', lv', m, r, key, i + 1);
    }
  }

  /** The maximum of a row with a new half in it. */
  lemma PairMax(st: Store, st': Store, lv: map<nat, nat>, lv': map<nat, nat>, m: nat, A: set<nat>,
                K: seq<nat>, p: nat, hi: nat)
    requires Known(st, lv, m, K) && Levelled(st', lv', m) && Beside(st, st', lv, lv', A) && NoDup(K) && K != []
    requires p in lv && hi in lv' && MaxKey(st', lv', m, hi) == MaxKey(st, lv, m, p)
    requires forall d | d in K && d != p :: d !in A
    ensures Behind(K, p, hi) != [] && Last(Behind(K, p, hi)) in lv'
    ensures MaxKey(st', lv', m, Last(Behind(K, p, hi))) == MaxKey(st, lv, m, Last(K))
  {
    hide MaxKey, Levelled, Behind;
    BehindLast(K, p, hi);
    if Last(K) != p {
      BesideMax(st, st', lv, lv', m, A, Last(K));
    }
  }

  // ----- Full nodes on the way, split into halves -----

  /** A holds the nodes of the way down, each with one child of those below it. */
  ghost predicate Passed(st: Store, lv: map<nat, nat>, m: nat, A: set<nat>, key: nat)
    requires Levelled(st, lv, m)
  {
    forall x | x in A ::
      && x in lv && lv[x] >= 1 && NoDup(KidsAt(st, x))
      && (lv[x] >= 2 ==> Step(st, lv, m, x, key) in A)
      && forall d | d in KidsAt(st, x) && d in A :: lv[x] >= 2 && d == Step(st, lv, m, x, key)
  }

  ghost predicate Along(st: Store, st': Store, lv: map<nat, nat>, lv': map<nat, nat>, m: nat, A: set<nat>, key: nat) {
    Levelled(st, lv, m) && Levelled(st', lv', m) && Beside(st, st', lv, lv', A) && Passed(st, lv, m, A, key)
  }

  lemma AlongAt(st: Store, st': Store, lv: map<nat, nat>, lv': map<nat, nat>, m: nat, A: set<nat>, key: nat, x: nat)
    requires Along(st, st', lv, lv', m, A, key) && x in A
    ensures Levelled(st, lv, m) && Levelled(st', lv', m) && Beside(st, st', lv, lv', A)
    ensures x in lv && lv[x] >= 1 && NoDup(KidsAt(st, x))
    ensures lv[x] >= 2 ==> Step(st, lv, m, x, key) in A
    ensures forall d | d in KidsAt(st, x) && d in A :: lv[x] >= 2 && d == Step(st, lv, m, x, key)
    ensures x in st && Known(st, lv, m, KidsAt(st, x)) && forall d | d in KidsAt(st, x) :: d in lv && lv[d] + 1 == lv[x]
    ensures lv[x] >= 2 ==> KidsAt(st, x) != []
  {
    KidsOf(st, lv, m, x);
  }

  /** x and all nodes on the way below it have become two, and each new half stands behind the lower one. */
  ghost predicate Divided(st: Store, st': Store, lv: map<nat, nat>, lv': map<nat, nat>, mid: nat, key: nat,
                          x: nat, los: map<nat, nat>, his: map<nat, nat>)
    requires Levelled(st, lv, 2 * mid) && x in lv && lv[x] >= 1
    decreases lv[x]
  {
    && x in los && x in his && los[x] in lv' && his[x] in lv' && lv'[los[x]] == lv'[his[x]] == lv[x]
    && mid + 1 < |KidsAt(st, x)|
    && var K := KidsAt(st, x);
       if lv[x] == 1 then KidsAt(st', los[x]) == K[..mid + 1] && KidsAt(st', his[x]) == K[mid + 1..]
       else
         var p := Step(st, lv, 2 * mid, x, key);
         && Divided(st, st', lv, lv', mid, key, p, los, his) && los[p] == p
         && KidsAt(st', los[x]) == Behind(K[..mid + 1], p, his[p])
         && KidsAt(st', his[x]) == Behind(K[mid + 1..], p, his[p])
  }

  lemma SegmentNoDup(K: seq<nat>, i: nat)
    requires NoDup(K) && i <= |K|
    ensures NoDup(K[..i]) && NoDup(K[i..])
  {
    assert K == K[..i] + K[i..];
    SplitNoDup(K[..i], K[i..]);
  }

  lemma SegmentKnown(st: Store, lv: map<nat, nat>, m: nat, K: seq<nat>, i: nat)
    requires Known(st, lv, m, K) && i <= |K|
    ensures Known(st, lv, m, K[..i]) && Known(st, lv, m, K[i..])
    ensures forall d | d in K[..i] || d in K[i..] :: d in K
  {
  }

  /** The maxima of the halves: that of the child in the middle, and that of the whole node. */
  lemma {:induction false} HalvesMax(st: Store, st': Store, lv: map<nat, nat>, lv': map<nat, nat>, mid: nat,
                                     A: set<nat>, key: nat,
                                     x: nat, los: map<nat, nat>, his: map<nat, nat>)
    requires Along(st, st', lv, lv', 2 * mid, A, key) && x in A && x in lv && lv[x] >= 1
    requires Divided(st, st', lv, lv', mid, key, x, los, his)
    ensures x in los && x in his && los[x] in lv' && his[x] in lv' && lv'[los[x]] == lv'[his[x]] == lv[x]
    ensures mid + 1 < |KidsAt(st, x)| && KidsAt(st, x)[mid] in lv
    ensures MaxKey(st', lv', 2 * mid, los[x]) == MaxKey(st, lv, 2 * mid, KidsAt(st, x)[mid])
    ensures MaxKey(st', lv', 2 * mid, his[x]) == MaxKey(st, lv, 2 * mid, x)
    decreases lv[x]
  {
    hide MaxKey, Levelled, Behind, Along, Beside, Passed, KidsAt, NoDup, Known, Last;
    var m, K := 2 * mid, KidsAt(st, x);
    AlongAt(st, st', lv, lv', m, A, key, x);
    SegmentNoDup(K, mid + 1);
    SegmentKnown(st, lv, m, K, mid + 1);
    LastOfSegments(K, mid);
    var p, hi := x, his[x];
    if lv[x] >= 2 {
      p := Step(st, lv, m, x, key);
      hi := his[p];
      HalvesMax(st, st', lv, lv', mid, A, key, p, los, his);
      PairMax(st, st', lv, lv', m, A, K[..mid + 1], p, hi);
      PairMax(st, st', lv, lv', m, A, K[mid + 1..], p, hi);
    } else {
      BesideMax(st, st', lv, lv', m, A, K[mid]);
      BesideMax(st, st', lv, lv', m, A, Last(K));
    }
    MaxOfLast(st', lv', m, los[x]);
    MaxOfLast(st', lv', m, his[x]);
    MaxOfLast(st, lv, m, x);
  }

  lemma LastOfSegments(K: seq<nat>, mid: nat)
    requires mid + 1 < |K|
    ensures K[..mid + 1] != [] && Last(K[..mid + 1]) == K[mid] && K[mid + 1..] != [] && Last(K[mid + 1..]) == Last(K)
    ensures K[mid] in K && Last(K) in K && Last(K) == K[|K| - 1]
  {
  }

  /** A search that comes to two halves side by side. */
  ghost function PairEnd(st: Store, lv: map<nat, nat>, m: nat, lo: nat, hi: nat, key: nat): nat
    requires Levelled(st, lv, m) && lo in lv && hi in lv && lv[lo] >= 1 && lv[hi] >= 1
  {
    Descend(st, lv, m, if key <= MaxKey(st, lv, m, lo) then lo else hi, key)
  }

  /** The search ends at z, as foretold by l. */
  ghost predicate Ends(l: Landing, z: nat, T: nat, lv: map<nat, nat>, los: map<nat, nat>, his: map<nat, nat>,
                       A: set<nat>) {
    match l
    case Half => T in los && T in his && (z == los[T] || z == his[T])
    case At(b) => z == b && b in lv && lv[b] == 1 && b !in A
  }

  lemma DescendVia(st: Store, lv: map<nat, nat>, m: nat, b: nat, key: nat, c: nat)
    requires Levelled(st, lv, m) && b in lv && lv[b] >= 2
    requires Known(st, lv, m, KidsAt(st, b)) && KidsAt(st, b) != [] && Pick(st, lv, m, KidsAt(st, b), key) == c
    ensures c in lv && lv[c] + 1 == lv[b] && Descend(st, lv, m, b, key) == Descend(st, lv, m, c, key)
  {
    KidsOf(st, lv, m, b);
    hide Pick, Levelled;
  }

  lemma IndexInSegments(K: seq<nat>, p: nat, mid: nat)
    requires NoDup(K) && p in K && mid + 1 < |K|
    ensures var i := IndexOf(K, p);
      && (i <= mid ==> p in K[..mid + 1] && p !in K[mid + 1..] && IndexOf(K[..mid + 1], p) == i)
      && (i > mid ==> p in K[mid + 1..] && p !in K[..mid + 1] && IndexOf(K[mid + 1..], p) == i - mid - 1)
  {
    var i := IndexOf(K, p);
    PositionInHalf(K, mid, p);
    SegmentNoDup(K, mid + 1);
    if i <= mid {
      FirstIsIndexOf(K[..mid + 1], i);
    } else {
      FirstIsIndexOf(K[mid + 1..], i - mid - 1);
    }
  }

  lemma InHalvesStep(st: Store, lv: map<nat, nat>, mid: nat, b: nat, key: nat)
    requires Levelled(st, lv, 2 * mid) && b in lv && lv[b] >= 1 && FullFrom(st, lv, mid, b, key)
    ensures lv[b] == 1 ==> InHalves(st, lv, mid, b, key) == Half
    ensures lv[b] >= 2 ==>
      var K, p := KidsAt(st, b), Step(st, lv, 2 * mid, b, key);
      && |K| == 2 * mid + 1 && Known(st, lv, 2 * mid, K) && K[mid] in lv && (mid >= 1 ==> K[mid + 1..] != [])
      && FullFrom(st, lv, mid, p, key) && Known(st, lv, 2 * mid, K[mid + 1..])
      && (mid >= 1 && IndexOf(K, p) < mid && MaxKey(st, lv, 2 * mid, K[mid]) < key ==>
           var c := Pick(st, lv, 2 * mid, K[mid + 1..], key);
           c in lv && lv[c] >= 1 && InHalves(st, lv, mid, b, key) == At(Descend(st, lv, 2 * mid, c, key)))
      && (!(IndexOf(K, p) < mid && MaxKey(st, lv, 2 * mid, K[mid]) < key) ==>
           InHalves(st, lv, mid, b, key) == InHalves(st, lv, mid, p, key))
  {
    KidsOf(st, lv, 2 * mid, b);
    hide Levelled, Descend, MaxKey;
  }

  /** A node with p and the new half behind it among its children. */
  lemma PairSearch(st: Store, st': Store, lv: map<nat, nat>, lv': map<nat, nat>, m: nat, A: set<nat>,
                   K: seq<nat>, p: nat, hi: nat, key: nat, b: nat)
    requires Known(st, lv, m, K) && Levelled(st', lv', m) && Beside(st, st', lv, lv', A) && NoDup(K)
    requires p in K && p in lv' && hi in lv' && MaxKey(st', lv', m, hi) == MaxKey(st, lv, m, p)
    requires forall d | d in K && d != p :: d !in A
    requires forall j | 0 <= j < IndexOf(K, p) :: MaxKey(st, lv, m, K[j]) < key
    requires p == Last(K) || key <= MaxKey(st, lv, m, p)
    requires b in lv' && lv'[b] >= 2 && KidsAt(st', b) == Behind(K, p, hi) && lv'[p] == lv'[hi] == lv'[b] - 1
    ensures Descend(st', lv', m, b, key) == PairEnd(st', lv', m, p, hi, key)
  {
    hide MaxKey, Levelled, Behind, Beside, KidsAt, NoDup, Known, Pick, Descend;
    PairPicked(st, st', lv, lv', m, A, K, p, hi, key);
    DescendVia(st', lv', m, b, key, if key <= MaxKey(st', lv', m, p) then p else hi);
  }

  /** A node with only children from beside the way. */
  lemma BesideSearch(st: Store, st': Store, lv: map<nat, nat>, lv': map<nat, nat>, m: nat, A: set<nat>,
                     K: seq<nat>, key: nat, b: nat)
    requires Known(st, lv, m, K) && Levelled(st', lv', m) && Beside(st, st', lv, lv', A) && K != []
    requires forall d | d in K :: d !in A && lv[d] >= 1
    requires b in lv' && lv'[b] >= 2 && KidsAt(st', b) == K
    ensures var c := Pick(st, lv, m, K, key);
      var z := Descend(st, lv, m, c, key);
      Descend(st', lv', m, b, key) == z && z in lv && lv[z] == 1 && z !in A
  {
    hide MaxKey, Levelled, Beside, KidsAt, Pick, Descend;
    BesidePick(st, st', lv, lv', m, A, K, key);
    var c := Pick(st, lv, m, K, key);
    DescendVia(st', lv', m, b, key, c);
    BesideDescend(st, st', lv, lv', m, A, c, key);
  }

  /** One step of the search through the halves: on to those of the child below, or off to where no split has come. */
  lemma HalvesStep(st: Store, st': Store, lv: map<nat, nat>, lv': map<nat, nat>, mid: nat, A: set<nat>, key: nat,
                   x: nat, p: nat, hi: nat, lo': nat, hi': nat)
    requires Along(st, st', lv, lv', 2 * mid, A, key) && x in A && x in lv && lv[x] >= 2 && mid >= 2
    requires FullFrom(st, lv, mid, x, key) && p == Step(st, lv, 2 * mid, x, key)
    requires p in lv' && hi in lv' && lo' in lv' && hi' in lv' && 1 <= lv'[p] == lv'[hi]
    requires lv'[lo'] == lv'[hi'] == lv'[p] + 1
    requires MaxKey(st', lv', 2 * mid, hi) == MaxKey(st, lv, 2 * mid, p)
    requires mid + 1 < |KidsAt(st, x)| && KidsAt(st, x)[mid] in lv
    requires KidsAt(st', lo') == Behind(KidsAt(st, x)[..mid + 1], p, hi)
    requires KidsAt(st', hi') == Behind(KidsAt(st, x)[mid + 1..], p, hi)
    requires MaxKey(st', lv', 2 * mid, lo') == MaxKey(st, lv, 2 * mid, KidsAt(st, x)[mid])
    ensures FullFrom(st, lv, mid, p, key)
    ensures var l, z := InHalves(st, lv, mid, x, key), PairEnd(st', lv', 2 * mid, lo', hi', key);
      || (l == InHalves(st, lv, mid, p, key) && z == PairEnd(st', lv', 2 * mid, p, hi, key))
      || (l == At(z) && z in lv && lv[z] == 1 && z !in A)
  {
    hide *;
    var m, K := 2 * mid, KidsAt(st, x);
    AlongAt(st, st', lv, lv', m, A, key, x);
    InHalvesStep(st, lv, mid, x, key);
    StepPicks(st, lv, m, x, key);
    SegmentNoDup(K, mid + 1);
    SegmentKnown(st, lv, m, K, mid + 1);
    IndexInSegments(K, p, mid);
    LastOfSegments(K, mid);
    PairEnds(st', lv', m, lo', hi', key);
    var i := IndexOf(K, p);
    if key <= MaxKey(st, lv, m, K[mid]) {
      assert i <= mid;
      PairSearch(st, st', lv, lv', m, A, K[..mid + 1], p, hi, key, lo');
    } else if i < mid {
      NotBehind(K[mid + 1..], p, hi);
      BesideSearch(st, st', lv, lv', m, A, K[mid + 1..], key, hi');
    } else {
      PairSearch(st, st', lv, lv', m, A, K[mid + 1..], p, hi, key, hi');
    }
  }

  lemma PairEnds(st: Store, lv: map<nat, nat>, m: nat, lo: nat, hi: nat, key: nat)
    requires Levelled(st, lv, m) && lo in lv && hi in lv && lv[lo] >= 1 && lv[hi] >= 1
    ensures key <= MaxKey(st, lv, m, lo) ==> PairEnd(st, lv, m, lo, hi, key) == Descend(st, lv, m, lo, key)
    ensures MaxKey(st, lv, m, lo) < key ==> PairEnd(st, lv, m, lo, hi, key) == Descend(st, lv, m, hi, key)
  {
  }

  /** The search through the halves ends where the tree before the split says. */
  lemma {:induction false} HalvesSearch(st: Store, st': Store, lv: map<nat, nat>, lv': map<nat, nat>, mid: nat,
                                        A: set<nat>, key: nat,
                                        x: nat, los: map<nat, nat>, his: map<nat, nat>)
    requires Along(st, st', lv, lv', 2 * mid, A, key) && x in A && x in lv && lv[x] >= 1 && mid >= 2
    requires Divided(st, st', lv, lv', mid, key, x, los, his) && FullFrom(st, lv, mid, x, key)
    ensures los[x] in lv' && his[x] in lv' && lv'[los[x]] == lv'[his[x]] == lv[x]
    ensures Ends(InHalves(st, lv, mid, x, key), PairEnd(st', lv', 2 * mid, los[x], his[x], key),
                 Descend(st, lv, 2 * mid, x, key), lv, los, his, A)
    decreases lv[x]
  {
    hide MaxKey, Levelled, Behind, Along, Beside, Passed, KidsAt, NoDup, Known, Pick, Descend, FullFrom, InHalves, Step;
    var m := 2 * mid;
    AlongAt(st, st', lv, lv', m, A, key, x);
    if lv[x] == 1 {
      InHalvesStep(st, lv, mid, x, key);
      DescendHere(st, lv, m, x, key);
      DescendHere(st', lv', m, los[x], key);
      DescendHere(st', lv', m, his[x], key);
    } else {
      var p := Step(st, lv, m, x, key);
      StepDown(st, lv, m, x, key);
      HalvesMax(st, st', lv, lv', mid, A, key, x, los, his);
      HalvesMax(st, st', lv, lv', mid, A, key, p, los, his);
      HalvesStep(st, st', lv, lv', mid, A, key, x, p, his[p], los[x], his[x]);
      HalvesSearch(st, st', lv, lv', mid, A, key, p, los, his);
    }
  }

  lemma NotBehind(K: seq<nat>, x: nat, hi: nat)
    requires x !in K
    ensures Behind(K, x, hi) == K
  {
  }

  lemma DescendHere(st: Store, lv: map<nat, nat>, m: nat, b: nat, key: nat)
    requires Levelled(st, lv, m) && b in lv && lv[b] == 1
    ensures Descend(st, lv, m, b, key) == b
  {
  }

  lemma StepPicks(st: Store, lv: map<nat, nat>, m: nat, b: nat, key: nat)
    requires Levelled(st, lv, m) && b in lv && lv[b] >= 2 && NoDup(KidsAt(st, b))
    ensures Known(st, lv, m, KidsAt(st, b)) && KidsAt(st, b) != []
    ensures var K, p := KidsAt(st, b), Step(st, lv, m, b, key);
      && p in K && (forall j | 0 <= j < IndexOf(K, p) :: MaxKey(st, lv, m, K[j]) < key)
      && (IndexOf(K, p) == |K| - 1 || key <= MaxKey(st, lv, m, p))
  {
    KidsOf(st, lv, m, b);
    PickFacts(st, lv, m, KidsAt(st, b), key);
  }

  // ----- Nodes on the way above the split ones -----

  /**
    From b down to the split nodes: the lowest node that was not split has the new half, those above it their
    old children.
   */
  ghost predicate Risen(st: Store, st': Store, lv: map<nat, nat>, lv': map<nat, nat>, mid: nat, key: nat,
                        b: nat, los: map<nat, nat>, his: map<nat, nat>)
    requires Levelled(st, lv, 2 * mid) && b in lv && lv[b] >= 2
    decreases lv[b]
  {
    && b in lv' && lv'[b] == lv[b]
    && var K, p := KidsAt(st, b), Step(st, lv, 2 * mid, b, key);
       if lv[b] == 2 then
         && FullFrom(st, lv, mid, p, key) && Divided(st, st', lv, lv', mid, key, p, los, his) && los[p] == p
         && var k := KeyIndex(st[b].keys, MaxKey(st, lv, 2 * mid, p)) + 1;
            k <= |K| && KidsAt(st', b) == InsertAt(K, k, his[p])
       else if FullFrom(st, lv, mid, p, key) then
         && Divided(st, st', lv, lv', mid, key, p, los, his) && los[p] == p
         && KidsAt(st', b) == Behind(K, p, his[p])
       else KidsAt(st', b) == K && Risen(st, st', lv, lv', mid, key, p, los, his)
  }

  /** The maxima below a parent of the split target. */
  lemma SplitMaximaAre(st: Store, st': Store, lv: map<nat, nat>, lv': map<nat, nat>, mid: nat, A: set<nat>, key: nat,
                       b: nat, los: map<nat, nat>, his: map<nat, nat>)
    requires Along(st, st', lv, lv', 2 * mid, A, key) && b in A && b in lv && lv[b] == 2 && mid >= 2
    requires Risen(st, st', lv, lv', mid, key, b, los, his)
    ensures var p := Step(st, lv, 2 * mid, b, key); p in his && p in st && st[p].numKeys == 2 * mid
    ensures Known(st', lv', 2 * mid, KidsAt(st', b))
    ensures Maxima(st', lv', 2 * mid, KidsAt(st', b)) == SplitMaxima(st, lv, mid, b, key)
    ensures var p, K, L := Step(st, lv, 2 * mid, b, key), KidsAt(st', b), SplitKids(st, lv, mid, b, key);
      && |L| == |K|
      && forall i | 0 <= i < |L| :: if L[i] == 0 then K[i] == his[p] else K[i] == L[i] && L[i] in KidsAt(st, b)
  {
    hide *;
    var m := 2 * mid;
    AlongAt(st, st', lv, lv', m, A, key, b);
    RisenAt(st, st', lv, lv', mid, key, b, los, his);
    var K, p := KidsAt(st, b), Step(st, lv, m, b, key);
    var k := KeyIndex(st[b].keys, MaxKey(st, lv, m, p)) + 1;
    KidsOf(st, lv, m, b);
    KidsOf(st, lv, m, p);
    FullAt(st, lv, mid, p, key);
    HalvesMax(st, st', lv, lv', mid, A, key, p, los, his);
    forall j | 0 <= j < |K| && j != IndexOf(K, p)
      ensures K[j] in lv' && MaxKey(st', lv', m, K[j]) == MaxKey(st, lv, m, K[j])
    {
      OncePlaced(K, p, j);
      BesideMax(st, st', lv, lv', m, A, K[j]);
    }
    ReplacedMaxima(st, st', lv, lv', m, K, p);
    InsertedMaxima(st', lv', m, K, k, his[p]);
    ZeroStands(K, k, his[p]);
    SplitRows(st, lv, mid, b, key);
  }

  lemma FullAt(st: Store, lv: map<nat, nat>, mid: nat, b: nat, key: nat)
    requires Levelled(st, lv, 2 * mid) && b in lv && lv[b] >= 1 && FullFrom(st, lv, mid, b, key)
    ensures b in st && st[b].numKeys == 2 * mid
  {
  }

  lemma SplitRows(st: Store, lv: map<nat, nat>, mid: nat, b: nat, key: nat)
    requires Levelled(st, lv, 2 * mid) && b in lv && lv[b] == 2 && mid >= 2
    requires st[Step(st, lv, 2 * mid, b, key)].numKeys == 2 * mid
    ensures b in st && Known(st, lv, 2 * mid, KidsAt(st, b)) && mid < |KidsAt(st, Step(st, lv, 2 * mid, b, key))|
    ensures var K, T := KidsAt(st, b), Step(st, lv, 2 * mid, b, key);
      var max := MaxKey(st, lv, 2 * mid, T);
      var k := KeyIndex(st[b].keys, max) + 1;
      && k <= |K| && KidsAt(st, T)[mid] in lv
      && SplitMaxima(st, lv, mid, b, key)
         == InsertAt(Maxima(st, lv, 2 * mid, K)[IndexOf(K, T) := MaxKey(st, lv, 2 * mid, KidsAt(st, T)[mid])], k, max)
      && SplitKids(st, lv, mid, b, key) == InsertAt(K, k, 0)
  {
    hide MaxKey, Levelled, KeyIndex, Step, InsertAt, Maxima;
    KidsOf(st, lv, 2 * mid, b);
    KidsOf(st, lv, 2 * mid, Step(st, lv, 2 * mid, b, key));
    KeysEnd(st, lv, 2 * mid, b, MaxKey(st, lv, 2 * mid, Step(st, lv, 2 * mid, b, key)));
  }

  lemma ReplacedMaxima(st: Store, st': Store, lv: map<nat, nat>, lv': map<nat, nat>, m: nat, K: seq<nat>, p: nat)
    requires Known(st, lv, m, K) && Levelled(st', lv', m) && p in K && p in lv'
    requires forall j | 0 <= j < |K| && j != IndexOf(K, p) ::
      K[j] in lv' && MaxKey(st', lv', m, K[j]) == MaxKey(st, lv, m, K[j])
    ensures Known(st', lv', m, K)
    ensures Maxima(st', lv', m, K) == Maxima(st, lv, m, K)[IndexOf(K, p) := MaxKey(st', lv', m, p)]
  {
    hide Levelled, MaxKey;
  }

  lemma InsertedMaxima(st: Store, lv: map<nat, nat>, m: nat, K: seq<nat>, k: nat, x: nat)
    requires Known(st, lv, m, K) && x in lv && k <= |K|
    ensures Known(st, lv, m, InsertAt(K, k, x))
    ensures Maxima(st, lv, m, InsertAt(K, k, x)) == InsertAt(Maxima(st, lv, m, K), k, MaxKey(st, lv, m, x))
  {
    hide Levelled, MaxKey, InsertAt, Maxima;
    var R, ms, x' := InsertAt(K, k, x), Maxima(st, lv, m, K), MaxKey(st, lv, m, x);
    InsertAtMembers(K, k, x);
    assert Known(st, lv, m, R);
    var L, S := Maxima(st, lv, m, R), InsertAt(ms, k, x');
    forall i | 0 <= i <= |K|
      ensures L[i] == S[i]
    {
      InsertedAt(K, k, x, i);
      InsertedAt(ms, k, x', i);
    }
    assert L == S;
  }

  lemma InsertedAt<T>(s: seq<T>, p: nat, x: T, i: nat)
    requires p <= |s| && i <= |s|
    ensures InsertAt(s, p, x)[i] == if i < p then s[i] else if i == p then x else s[i - 1]
  {
  }

  lemma ZeroStands(K: seq<nat>, k: nat, x: nat)
    requires 0 !in K && k <= |K|
    ensures forall i | 0 <= i <= |K| ::
      var d := InsertAt(K, k, 0)[i];
      if d == 0 then InsertAt(K, k, x)[i] == x else InsertAt(K, k, x)[i] == d && d in K
  {
  }

  lemma OncePlaced(K: seq<nat>, p: nat, j: nat)
    requires NoDup(K) && p in K && j < |K|
    ensures K[j] == p <==> j == IndexOf(K, p)
  {
  }

  lemma PickIsFirstUp(st: Store, lv: map<nat, nat>, m: nat, row: seq<nat>, key: nat)
    requires Known(st, lv, m, row) && row != []
    ensures Pick(st, lv, m, row, key) == row[FirstUp(Maxima(st, lv, m, row), key)]
  {
    hide MaxKey, Levelled;
    PickAt(st, lv, m, row, key, FirstUp(Maxima(st, lv, m, row), key));
  }

  lemma RisenAt(st: Store, st': Store, lv: map<nat, nat>, lv': map<nat, nat>, mid: nat, key: nat,
                b: nat, los: map<nat, nat>, his: map<nat, nat>)
    requires Levelled(st, lv, 2 * mid) && b in lv && lv[b] >= 2 && Risen(st, st', lv, lv', mid, key, b, los, his)
    ensures b in lv' && lv'[b] == lv[b] && b in st
    ensures var K, p := KidsAt(st, b), Step(st, lv, 2 * mid, b, key);
      lv[b] == 2 ==>
        && FullFrom(st, lv, mid, p, key) && Divided(st, st', lv, lv', mid, key, p, los, his) && p in los && p in his
        && los[p] == p
        && var k := KeyIndex(st[b].keys, MaxKey(st, lv, 2 * mid, p)) + 1;
           k <= |K| && KidsAt(st', b) == InsertAt(K, k, his[p])
    ensures var K, p := KidsAt(st, b), Step(st, lv, 2 * mid, b, key);
      lv[b] > 2 ==>
        if FullFrom(st, lv, mid, p, key) then
          && Divided(st, st', lv, lv', mid, key, p, los, his) && p in los && p in his && los[p] == p
          && KidsAt(st', b) == Behind(K, p, his[p])
        else KidsAt(st', b) == K && Risen(st, st', lv, lv', mid, key, p, los, his)
  {
    hide KidsAt, Step, KeyIndex, Behind, MaxKey, InsertAt, FullFrom, NodeOk;
  }

  lemma NewMaxAt(st: Store, lv: map<nat, nat>, mid: nat, b: nat, key: nat)
    requires Levelled(st, lv, 2 * mid) && b in lv && lv[b] >= 2 && TargetFull(st, lv, mid, b, key)
    ensures KidsAt(st, b) != [] && TargetFull(st, lv, mid, Step(st, lv, 2 * mid, b, key), key)
    ensures var p := Step(st, lv, 2 * mid, b, key);
      lv[b] == 2 ==>
        && st[p].numKeys == 2 * mid && mid >= 2
        && NewMax(st, lv, mid, b, key) == Last(SplitMaxima(st, lv, mid, b, key))
    ensures var p := Step(st, lv, 2 * mid, b, key);
      lv[b] > 2 ==>
        if FullFrom(st, lv, mid, p, key) || p != Last(KidsAt(st, b))
        then NewMax(st, lv, mid, b, key) == MaxKey(st, lv, 2 * mid, b)
        else NewMax(st, lv, mid, b, key) == NewMax(st, lv, mid, p, key)
  {
    StepDown(st, lv, 2 * mid, b, key);
    hide MaxKey, Levelled, Descend, SplitMaxima;
  }

  lemma {:induction false} NewMaxIs(st: Store, st': Store, lv: map<nat, nat>, lv': map<nat, nat>, mid: nat, A: set<nat>,
                                    key: nat,
                                    b: nat, los: map<nat, nat>, his: map<nat, nat>)
    requires Along(st, st', lv, lv', 2 * mid, A, key) && b in A && b in lv && lv[b] >= 2
    requires TargetFull(st, lv, mid, b, key)
    requires Risen(st, st', lv, lv', mid, key, b, los, his)
    ensures b in lv' && MaxKey(st', lv', 2 * mid, b) == NewMax(st, lv, mid, b, key)
    decreases lv[b]
  {
    hide *;
    var m := 2 * mid;
    AlongAt(st, st', lv, lv', m, A, key, b);
    RisenAt(st, st', lv, lv', mid, key, b, los, his);
    NewMaxAt(st, lv, mid, b, key);
    var K, p := KidsAt(st, b), Step(st, lv, m, b, key);
    StepDown(st, lv, m, b, key);
    MaxOfLast(st, lv, m, b);
    if lv[b] == 2 {
      SplitMaximaAre(st, st', lv, lv', mid, A, key, b, los, his);
      MaxOfLast(st', lv', m, b);
      LastMaximum(st', lv', m, KidsAt(st', b));
    } else if FullFrom(st, lv, mid, p, key) {
      HalvesMax(st, st', lv, lv', mid, A, key, p, los, his);
      PairMax(st, st', lv, lv', m, A, K, p, his[p]);
      MaxOfLast(st', lv', m, b);
    } else {
      MaxOfLast(st', lv', m, b);
      LastOfAll(K);
      if p == Last(K) {
        NewMaxIs(st, st', lv, lv', mid, A, key, p, los, his);
      } else {
        BesideMax(st, st', lv, lv', m, A, Last(K));
      }
    }
  }

  lemma LastOfAll(K: seq<nat>)
    requires K != []
    ensures Last(K) in K && Last(K) == K[|K| - 1]
  {
  }

  lemma LastMaximum(st: Store, lv: map<nat, nat>, m: nat, row: seq<nat>)
    requires Known(st, lv, m, row) && row != []
    ensures Last(Maxima(st, lv, m, row)) == MaxKey(st, lv, m, Last(row))
  {
  }

  /** The search from a node that was not split ends where the tree before the split says. */
  lemma {:induction false} SecondSearch(st: Store, st': Store, lv: map<nat, nat>, lv': map<nat, nat>, mid: nat,
                                        A: set<nat>, key: nat,
                                        b: nat, los: map<nat, nat>, his: map<nat, nat>)
    requires Along(st, st', lv, lv', 2 * mid, A, key) && b in A && b in lv && lv[b] >= 2
    requires TargetFull(st, lv, mid, b, key)
    requires Risen(st, st', lv, lv', mid, key, b, los, his)
    ensures b in lv' && lv'[b] >= 2
    ensures Ends(Second(st, lv, mid, b, key), Descend(st', lv', 2 * mid, b, key), Descend(st, lv, 2 * mid, b, key),
                 lv, los, his, A)
    decreases lv[b]
  {
    hide MaxKey, Levelled, Behind, Beside, Passed, Along, KidsAt, NoDup, Pick, Descend, KeyIndex, Step, FullFrom,
         Last, SplitMaxima, SplitKids,
         InHalves, NewMax;
    var m := 2 * mid;
    AlongAt(st, st', lv, lv', m, A, key, b);
    var K, p := KidsAt(st, b), Step(st, lv, m, b, key);
    StepDown(st, lv, m, b, key);
    if lv[b] == 2 {
      LastSecond(st, st', lv, lv', mid, A, key, b, los, his);
    } else if FullFrom(st, lv, mid, p, key) {
      StepPicks(st, lv, m, b, key);
      LastOfAll(K);
      HalvesMax(st, st', lv, lv', mid, A, key, p, los, his);
      PairSearch(st, st', lv, lv', m, A, K, p, his[p], key, b);
      HalvesSearch(st, st', lv, lv', mid, A, key, p, los, his);
    } else {
      NewMaxIs(st, st', lv, lv', mid, A, key, p, los, his);
      UpperSecond(st, st', lv, lv', mid, A, key, b);
      SecondSearch(st, st', lv, lv', mid, A, key, p, los, his);
    }
  }

  /** Above the nodes that a split has changed, the search may pass the child that it took before. */
  lemma UpperSecond(st: Store, st': Store, lv: map<nat, nat>, lv': map<nat, nat>, mid: nat, A: set<nat>, key: nat,
                    b: nat)
    requires Along(st, st', lv, lv', 2 * mid, A, key) && b in A && b in lv && lv[b] >= 3
    requires b in lv' && lv'[b] == lv[b] && KidsAt(st', b) == KidsAt(st, b)
    requires Step(st, lv, 2 * mid, b, key) in lv'
    ensures var K, p := KidsAt(st, b), Step(st, lv, 2 * mid, b, key);
      && p in K && K != [] && lv'[p] >= 1
      && if p != Last(K) && MaxKey(st', lv', 2 * mid, p) < key then
           var rest := K[IndexOf(K, p) + 1..];
           && rest != [] && Known(st, lv, 2 * mid, rest)
           && var c := Pick(st, lv, 2 * mid, rest, key);
              c in lv && lv[c] >= 1
              && var z := Descend(st, lv, 2 * mid, c, key);
                 Descend(st', lv', 2 * mid, b, key) == z && z in lv && lv[z] == 1 && z !in A
         else Descend(st', lv', 2 * mid, b, key) == Descend(st', lv', 2 * mid, p, key)
  {
    hide *;
    var m := 2 * mid;
    AlongAt(st, st', lv, lv', m, A, key, b);
    var K, p := KidsAt(st, b), Step(st, lv, m, b, key);
    KidsOf(st', lv', m, b);
    StepPicks(st, lv, m, b, key);
    LastOfAll(K);
    var i := IndexOf(K, p);
    forall j | 0 <= j < |K| && j != i
      ensures MaxKey(st', lv', m, K[j]) == MaxKey(st, lv, m, K[j]) && K[j] !in A
    {
      OncePlaced(K, p, j);
      BesideMax(st, st', lv, lv', m, A, K[j]);
    }
    if p != Last(K) && MaxKey(st', lv', m, p) < key {
      RestAfter(st, lv, m, K, p);
      OthersBehind(K, p);
      PickBeyond(st', lv', m, K, i, key);
      BesidePick(st, st', lv, lv', m, A, K[i + 1..], key);
      var c := Pick(st, lv, m, K[i + 1..], key);
      DescendVia(st', lv', m, b, key, c);
      BesideDescend(st, st', lv, lv', m, A, c, key);
    } else {
      PickAt(st', lv', m, K, key, i);
      DescendVia(st', lv', m, b, key, p);
    }
  }

  lemma OthersBehind(K: seq<nat>, p: nat)
    requires NoDup(K) && p in K
    ensures forall d | d in K[IndexOf(K, p) + 1..] :: d in K && d != p
  {
  }

  lemma PickBeyond(st: Store, lv: map<nat, nat>, m: nat, K: seq<nat>, i: nat, key: nat)
    requires Known(st, lv, m, K) && i + 1 < |K| && forall j | 0 <= j <= i :: MaxKey(st, lv, m, K[j]) < key
    ensures Known(st, lv, m, K[i + 1..]) && Pick(st, lv, m, K, key) == Pick(st, lv, m, K[i + 1..], key)
  {
    hide MaxKey, Levelled;
    assert K == K[..i + 1] + K[i + 1..];
    PickRight(st, lv, m, K[..i + 1], K[i + 1..], key);
  }

  /** The last step, among the parents of leaves. */
  lemma LastSecond(st: Store, st': Store, lv: map<nat, nat>, lv': map<nat, nat>, mid: nat, A: set<nat>, key: nat,
                   b: nat, los: map<nat, nat>, his: map<nat, nat>)
    requires Along(st, st', lv, lv', 2 * mid, A, key) && b in A && b in lv && lv[b] == 2
    requires TargetFull(st, lv, mid, b, key)
    requires Risen(st, st', lv, lv', mid, key, b, los, his)
    ensures b in lv' && lv'[b] >= 2
    ensures Ends(Second(st, lv, mid, b, key), Descend(st', lv', 2 * mid, b, key), Descend(st, lv, 2 * mid, b, key),
                 lv, los, his, A)
  {
    hide *;
    var m := 2 * mid;
    AlongAt(st, st', lv, lv', m, A, key, b);
    RisenAt(st, st', lv, lv', mid, key, b, los, his);
    var p := Step(st, lv, m, b, key);
    StepDown(st, lv, m, b, key);
    SecondAt(st, lv, mid, b, key);
    SplitMaximaAre(st, st', lv, lv', mid, A, key, b, los, his);
    KidsOf(st', lv', m, b);
    PickIsFirstUp(st', lv', m, KidsAt(st', b), key);
    var z := Pick(st', lv', m, KidsAt(st', b), key);
    DescendVia(st', lv', m, b, key, z);
    DescendHere(st', lv', m, z, key);
    EndsNow(Second(st, lv, mid, b, key), z, p, lv, los, his, A);
  }

  lemma SecondAt(st: Store, lv: map<nat, nat>, mid: nat, b: nat, key: nat)
    requires Levelled(st, lv, 2 * mid) && b in lv && lv[b] == 2 && TargetFull(st, lv, mid, b, key)
    ensures mid >= 2 && st[Step(st, lv, 2 * mid, b, key)].numKeys == 2 * mid
    ensures var c := SplitKids(st, lv, mid, b, key)[FirstUp(SplitMaxima(st, lv, mid, b, key), key)];
      Second(st, lv, mid, b, key) == if c == 0 || c == Step(st, lv, 2 * mid, b, key) then Half else At(c)
  {
    StepDown(st, lv, 2 * mid, b, key);
    hide Levelled, Step, SplitKids, SplitMaxima, Descend;
  }

  lemma EndsNow(l: Landing, z: nat, T: nat, lv: map<nat, nat>, los: map<nat, nat>, his: map<nat, nat>, A: set<nat>)
    requires l == Half ==> T in los && T in his && (z == los[T] || z == his[T])
    requires l != Half ==> z == l.node && z in lv && lv[z] == 1 && z !in A
    ensures Ends(l, z, T, lv, los, his, A)
  {
  }

  // ----- What a split makes of the way -----

  /** From height h on, the nodes beside the way are as they were. */
  ghost predicate Quiet(st: Store, st': Store, lv: map<nat, nat>, lv': map<nat, nat>, A: set<nat>, h: nat) {
    forall d | d in lv && lv[d] >= h && d !in A :: d in lv' && lv'[d] == lv[d] && SameButParent(st, st', d)
  }

  /** Either the way is full up to the root, which stands over its halves now, or the root was not split. */
  ghost predicate Settled(st: Store, st': Store, lv: map<nat, nat>, lv': map<nat, nat>, mid: nat, key: nat,
                          root: nat, los: map<nat, nat>, his: map<nat, nat>)
    requires Levelled(st, lv, 2 * mid) && root in lv && lv[root] >= 1
  {
    if FullFrom(st, lv, mid, root, key) then
      && Divided(st, st', lv, lv', mid, key, root, los, his)
      && root in lv' && lv'[root] == lv[root] + 1 && KidsAt(st', root) == [los[root], his[root]]
    else lv[root] >= 2 && Risen(st, st', lv, lv', mid, key, root, los, his)
  }

  /** Above a node that was not split, the search takes the old children. */
  lemma {:induction false} RisenClimb(st: Store, st': Store, lv: map<nat, nat>, lv': map<nat, nat>, mid: nat, root: nat,
                                      key: nat,
                                      b: nat, los: map<nat, nat>, his: map<nat, nat>)
    requires Levelled(st, lv, 2 * mid) && root in lv && lv[root] >= 1 && Backed(st, lv)
    requires b in Way(st, lv, 2 * mid, root, key) && lv[b] >= 2 && !FullFrom(st, lv, mid, b, key)
    requires Risen(st, st', lv, lv', mid, key, b, los, his) && SameFrom(st, st', lv, lv', lv[b], b)
    ensures lv[root] >= 2 && !FullFrom(st, lv, mid, root, key) && Risen(st, st', lv, lv', mid, key, root, los, his)
    decreases lv[root] - lv[b]
  {
    hide Levelled, KidsAt, Way, Divided, KeyIndex, Step, Behind, MaxKey;
    if b != root {
      WayUp(st, lv, 2 * mid, root, key, b);
      SameKidsAt(st, st', st[b].parent);
      RisenClimb(st, st', lv, lv', mid, root, key, st[b].parent, los, his);
    }
  }

  /** One more full node on the way. */
  lemma DividedUp(st: Store, st': Store, lv: map<nat, nat>, lv': map<nat, nat>, mid: nat, key: nat, top: nat,
                  x: nat, P: nat, los: map<nat, nat>, his: map<nat, nat>)
    requires Levelled(st, lv, 2 * mid) && x in lv && lv[x] >= 1 && P in lv && lv[P] == lv[x] + 1 && mid >= 2
    requires Step(st, lv, 2 * mid, P, key) == x && FullFrom(st, lv, mid, x, key) && st[P].numKeys == 2 * mid
    requires Divided(st, st', lv, lv', mid, key, x, los, his) && lv[x] < top && x in st && st[x].parent == P
    requires Spread(st, st', lv, lv', mid, top, x, los, his)
    ensures FullFrom(st, lv, mid, P, key) && Divided(st, st', lv, lv', mid, key, P, los, his)
    ensures Spread(st, st', lv, lv', mid, top, P, los, his)
  {
    hide Levelled, KidsAt, Step, Behind, SameAt, HungAt;
    KidsOf(st, lv, 2 * mid, P);
    SpreadTwins(st, st', lv, lv', mid, top, P, los, his);
  }

  lemma SpreadAt(st: Store, st': Store, lv: map<nat, nat>, lv': map<nat, nat>, mid: nat, top: nat,
                 x: nat, los: map<nat, nat>, his: map<nat, nat>)
    requires Spread(st, st', lv, lv', mid, top, x, los, his)
    ensures x in lv && x in st && x in los && x in his && lv[x] <= top && SameAt(st, st', lv, lv', lv[x], x)
    ensures lv[x] == top ==> x in lv' && lv'[x] == top + 1 && KidsAt(st', x) == [los[x], his[x]]
    ensures lv[x] != top ==>
      var P := st[x].parent;
      && P in st && P in lv && x in KidsAt(st, P) && los[x] == x
      && (st[P].numKeys < 2 * mid ==> HungAt(st, st', lv, lv', x, his[x], IndexOf(KidsAt(st, P), x)))
  {
  }

  /** The parent with room that takes the uppermost new half. */
  lemma RisenHere(st: Store, st': Store, lv: map<nat, nat>, lv': map<nat, nat>, mid: nat, key: nat,
                  x: nat, P: nat, los: map<nat, nat>, his: map<nat, nat>)
    requires Levelled(st, lv, 2 * mid) && x in lv && lv[x] >= 2 && P in lv && lv[P] == lv[x] + 1 && x in st
    requires st[x].parent == P
    requires Step(st, lv, 2 * mid, P, key) == x && FullFrom(st, lv, mid, x, key) && P in st && st[P].numKeys < 2 * mid
    requires Divided(st, st', lv, lv', mid, key, x, los, his) && x in los && x in his && los[x] == x
    requires x in KidsAt(st, P)
    requires HungAt(st, st', lv, lv', x, his[x], IndexOf(KidsAt(st, P), x))
    ensures !FullFrom(st, lv, mid, P, key) && Risen(st, st', lv, lv', mid, key, P, los, his)
    ensures SameFrom(st, st', lv, lv', lv[P], P)
  {
    hide Levelled, KidsAt, Step, SameFrom, Divided;
  }

  /** From a full node up to the root, by what the split has done at each height. */
  lemma {:induction false} SpreadClimb(st: Store, st': Store, lv: map<nat, nat>, lv': map<nat, nat>, mid: nat,
                                       root: nat, key: nat,
                                       x: nat, los: map<nat, nat>, his: map<nat, nat>)
    requires Levelled(st, lv, 2 * mid) && root in lv && lv[root] >= 1 && Backed(st, lv) && mid >= 2
    requires forall e | e in lv :: lv[e] <= lv[root]
    requires x in Way(st, lv, 2 * mid, root, key) && FullFrom(st, lv, mid, x, key)
    requires Divided(st, st', lv, lv', mid, key, x, los, his) && Spread(st, st', lv, lv', mid, lv[root], x, los, his)
    requires lv[x] >= 2 || x == root || (x in st && st[x].parent in st && st[st[x].parent].numKeys == 2 * mid)
    ensures Quiet(st, st', lv, lv', Way(st, lv, 2 * mid, root, key), lv[x])
    ensures Settled(st, st', lv, lv', mid, key, root, los, his)
    decreases lv[root] - lv[x]
  {
    hide *;
    var A := Way(st, lv, 2 * mid, root, key);
    SpreadAt(st, st', lv, lv', mid, lv[root], x, los, his);
    if x == root {
      TopQuiet(st, st', lv, lv', A, lv[root], root);
      SettledRoot(st, st', lv, lv', mid, key, root, los, his);
    } else {
      assert lv[x] < lv[root];
      WayUp(st, lv, 2 * mid, root, key, x);
      var P := st[x].parent;
      KidsOf(st, lv, 2 * mid, P);
      AtMostFull(st, lv, 2 * mid, P);
      if st[P].numKeys == 2 * mid {
        DividedUp(st, st', lv, lv', mid, key, lv[root], x, P, los, his);
        SpreadClimb(st, st', lv, lv', mid, root, key, P, los, his);
        QuietDown(st, st', lv, lv', A, lv[x], x);
      } else {
        RisenHere(st, st', lv, lv', mid, key, x, P, los, his);
        RisenClimb(st, st', lv, lv', mid, root, key, P, los, his);
        QuietFrom(st, st', lv, lv', A, lv[P], P);
        QuietDown(st, st', lv, lv', A, lv[x], x);
        SettledRisen(st, st', lv, lv', mid, key, root, los, his);
      }
    }
  }

  lemma AtMostFull(st: Store, lv: map<nat, nat>, m: nat, b: nat)
    requires Levelled(st, lv, m) && b in lv && lv[b] >= 1
    ensures st[b].numKeys <= m
  {
    assert NodeOk(st, lv, m, b);
  }

  lemma TopQuiet(st: Store, st': Store, lv: map<nat, nat>, lv': map<nat, nat>, A: set<nat>, h: nat, root: nat)
    requires SameAt(st, st', lv, lv', h, root) && root in A && forall e | e in lv :: lv[e] <= h
    ensures Quiet(st, st', lv, lv', A, h)
  {
    hide KidsAt;
  }

  lemma QuietFrom(st: Store, st': Store, lv: map<nat, nat>, lv': map<nat, nat>, A: set<nat>, h: nat, P: nat)
    requires SameFrom(st, st', lv, lv', h, P) && P in A
    ensures Quiet(st, st', lv, lv', A, h)
  {
    hide KidsAt;
  }

  lemma QuietDown(st: Store, st': Store, lv: map<nat, nat>, lv': map<nat, nat>, A: set<nat>, h: nat, x: nat)
    requires Quiet(st, st', lv, lv', A, h + 1) && SameAt(st, st', lv, lv', h, x) && x in A
    ensures Quiet(st, st', lv, lv', A, h)
  {
    hide KidsAt;
  }

  lemma SettledRoot(st: Store, st': Store, lv: map<nat, nat>, lv': map<nat, nat>, mid: nat, key: nat,
                    root: nat, los: map<nat, nat>, his: map<nat, nat>)
    requires Levelled(st, lv, 2 * mid) && root in lv && lv[root] >= 1 && FullFrom(st, lv, mid, root, key)
    requires Divided(st, st', lv, lv', mid, key, root, los, his) && root in los && root in his
    requires root in lv' && lv'[root] == lv[root] + 1 && KidsAt(st', root) == [los[root], his[root]]
    ensures Settled(st, st', lv, lv', mid, key, root, los, his)
  {
  }

  lemma SettledRisen(st: Store, st': Store, lv: map<nat, nat>, lv': map<nat, nat>, mid: nat, key: nat,
                     root: nat, los: map<nat, nat>, his: map<nat, nat>)
    requires Levelled(st, lv, 2 * mid) && root in lv && lv[root] >= 2 && !FullFrom(st, lv, mid, root, key)
    requires Risen(st, st', lv, lv', mid, key, root, los, his)
    ensures Settled(st, st', lv, lv', mid, key, root, los, his)
  {
  }

  /** The search from the root over the settled tree. */
  lemma SettledSearch(st: Store, st': Store, lv: map<nat, nat>, lv': map<nat, nat>, mid: nat, A: set<nat>, key: nat,
                      root: nat, los: map<nat, nat>, his: map<nat, nat>)
    requires Along(st, st', lv, lv', 2 * mid, A, key) && Levelled(st, lv, 2 * mid) && root in A && root in lv
    requires lv[root] >= 1
    requires TargetFull(st, lv, mid, root, key) && mid >= 2 && Settled(st, st', lv, lv', mid, key, root, los, his)
    ensures FullFrom(st, lv, mid, root, key) || lv[root] >= 2
    ensures Levelled(st', lv', 2 * mid) && root in lv' && lv'[root] >= 1
    ensures Ends(Lands(st, lv, mid, root, key), Descend(st', lv', 2 * mid, root, key),
                 Descend(st, lv, 2 * mid, root, key), lv, los, his, A)
  {
    hide Levelled, Divided, Risen, Descend, KidsAt, MaxKey, InHalves, Second, TargetFull, Ends, Along, FullFrom, Pick;
    AlongAt(st, st', lv, lv', 2 * mid, A, key, root);
    if FullFrom(st, lv, mid, root, key) {
      HalvesSearch(st, st', lv, lv', mid, A, key, root, los, his);
      HalvesMax(st, st', lv, lv', mid, A, key, root, los, his);
      PickOfTwo(st', lv', 2 * mid, los[root], his[root], key);
      DescendVia(st', lv', 2 * mid, root, key,
                 if key <= MaxKey(st', lv', 2 * mid, los[root]) then los[root] else his[root]);
    } else {
      SecondSearch(st, st', lv, lv', mid, A, key, root, los, his);
    }
  }

  lemma PickOfTwo(st: Store, lv: map<nat, nat>, m: nat, lo: nat, hi: nat, key: nat)
    requires Levelled(st, lv, m) && lo in lv && hi in lv
    ensures Known(st, lv, m, [lo, hi])
    ensures Pick(st, lv, m, [lo, hi], key) == if key <= MaxKey(st, lv, m, lo) then lo else hi
  {
    hide Levelled, MaxKey;
    assert [lo, hi][1..] == [hi];
  }

  // ----- The whole split -----

  /** What a split leaves alone: all leaves but for their parents, and the nodes beside the way. */
  lemma AlongWay(st: Store, st': Store, lv: map<nat, nat>, lv': map<nat, nat>, m: nat, rows: seq<seq<nat>>, root: nat,
                 key: nat)
    requires Linked(st, lv, m, rows, 1) && Levelled(st', lv', m) && Levelled(st, lv, m) && root in lv && lv[root] >= 1
    requires Backed(st, lv) && (forall e | e in lv :: lv[e] <= lv[root]) && LowerKept(st, st', lv, lv', 1)
    requires Quiet(st, st', lv, lv', Way(st, lv, m, root, key), 1)
    ensures Along(st, st', lv, lv', m, Way(st, lv, m, root, key), key)
  {
    hide Linked, Levelled, KidsAt, Way, Step, Flat, NoDup, Backed;
    var A := Way(st, lv, m, root, key);
    forall d | d in lv && d !in A
      ensures d in lv' && lv'[d] == lv[d] && KidsAt(st', d) == KidsAt(st, d)
      ensures d in st && d in st' && (lv[d] == 0 ==> st'[d].key == st[d].key)
    {
      BesideOne(st, st', lv, lv', m, A, d);
    }
    forall d, c | d in lv && lv[d] >= 1 && d !in A && c in KidsAt(st, d)
      ensures c !in A
    {
      if c in A { WayBeside(st, lv, m, root, key, d, c); }
    }
    forall x | x in A
      ensures NoDup(KidsAt(st, x)) && (lv[x] >= 2 ==> Step(st, lv, m, x, key) in A)
      ensures forall d | d in KidsAt(st, x) && d in A :: lv[x] >= 2 && d == Step(st, lv, m, x, key)
    {
      InnerNoDup(st, lv, m, rows, x);
      WayDown(st, lv, m, root, key, x);
      forall d | d in KidsAt(st, x) && d in A
        ensures lv[x] >= 2 && d == Step(st, lv, m, x, key)
      {
        WayBeside(st, lv, m, root, key, x, d);
      }
    }
  }

  lemma BesideOne(st: Store, st': Store, lv: map<nat, nat>, lv': map<nat, nat>, m: nat, A: set<nat>, d: nat)
    requires Levelled(st, lv, m) && Levelled(st', lv', m) && LowerKept(st, st', lv, lv', 1)
    requires Quiet(st, st', lv, lv', A, 1)
    requires d in lv && d !in A
    ensures d in lv' && lv'[d] == lv[d] && KidsAt(st', d) == KidsAt(st, d)
    ensures d in st && d in st' && (lv[d] == 0 ==> st'[d].key == st[d].key)
  {
    if lv[d] == 0 { KeptAt(st, st', lv, lv', 1, d); }
  }

  lemma InnerNoDup(st: Store, lv: map<nat, nat>, m: nat, rows: seq<seq<nat>>, x: nat)
    requires Linked(st, lv, m, rows, 1) && x in lv && lv[x] >= 1
    ensures NoDup(KidsAt(st, x))
  {
    hide Levelled, KidsAt, Flat, NoDup;
    var h := lv[x];
    assert x in rows[h];
    LinkedRow(st, lv, m, rows, 1, h);
    if h > 1 { LinkedRow(st, lv, m, rows, 1, h - 1); }
    KidsNoDup(st, rows[h], IndexOf(rows[h], x));
  }

  /** The full target has become two, as every split does it. */
  lemma TargetDivided(st: Store, st': Store, lv: map<nat, nat>, lv': map<nat, nat>, mid: nat,
                      rows: seq<seq<nat>>, rows': seq<seq<nat>>, key: nat, T: nat, lo: nat, hi: nat,
                      los: map<nat, nat>, his: map<nat, nat>)
    requires Levelled(st, lv, 2 * mid) && T in lv && lv[T] == 1
    requires SplitAt(st, st', lv, lv', mid, rows, rows', 1, T, lo, hi)
    requires T in los && T in his && los[T] == lo && his[T] == hi
    ensures Divided(st, st', lv, lv', mid, key, T, los, his) && FullFrom(st, lv, mid, T, key) && mid >= 2
  {
    HalvesKidsAt(st, st', T, lo, hi, mid);
    hide KidsAt;
  }

  /** Whether the search after the split finds a node with room. */
  ghost predicate FindsRoom(st: Store, lv: map<nat, nat>, mid: nat, root: nat, key: nat)
    requires Levelled(st, lv, 2 * mid) && root in lv && lv[root] >= 1 && TargetFull(st, lv, mid, root, key)
  {
    match Lands(st, lv, mid, root, key)
    case Half => true
    case At(z) => st[z].numKeys < 2 * mid
  }

  /** The second search ends at z: at the named node, or at one of the halves of the target, that block or a new one. */
  ghost predicate LandsOn(st: Store, lv: map<nat, nat>, mid: nat, root: nat, key: nat, z: nat)
    requires Levelled(st, lv, 2 * mid) && root in lv && lv[root] >= 1 && TargetFull(st, lv, mid, root, key)
  {
    match Lands(st, lv, mid, root, key)
    case Half => z == Descend(st, lv, 2 * mid, root, key) || z !in lv
    case At(b) => z == b
  }

  lemma LandsOnNow(st: Store, lv: map<nat, nat>, mid: nat, root: nat, key: nat, z: nat)
    requires Levelled(st, lv, 2 * mid) && root in lv && lv[root] >= 1 && TargetFull(st, lv, mid, root, key)
    requires var l := Lands(st, lv, mid, root, key);
      if l == Half then z == Descend(st, lv, 2 * mid, root, key) || z !in lv else z == l.node
    ensures LandsOn(st, lv, mid, root, key, z)
  {
    hide Lands;
  }

  /** What is known of a settled tree at the end of the search. */
  lemma LandedRoom(st: Store, st': Store, lv: map<nat, nat>, lv': map<nat, nat>, mid: nat,
                   rows: seq<seq<nat>>, rows': seq<seq<nat>>, root: nat, key: nat, T: nat, lo: nat, hi: nat,
                   los: map<nat, nat>, his: map<nat, nat>)
    requires Linked(st, lv, 2 * mid, rows, 1) && Levelled(st, lv, 2 * mid) && root in lv && lv[root] >= 1
    requires Backed(st, lv) && (forall e | e in lv :: lv[e] <= lv[root]) && TargetFull(st, lv, mid, root, key)
    requires T == Descend(st, lv, 2 * mid, root, key) && SplitAt(st, st', lv, lv', mid, rows, rows', 1, T, lo, hi)
    requires hi !in lv && (lo == T || lo !in lv) && T in los && T in his && los[T] == lo && his[T] == hi
    requires Quiet(st, st', lv, lv', Way(st, lv, 2 * mid, root, key), 1)
    requires Settled(st, st', lv, lv', mid, key, root, los, his)
    ensures Levelled(st', lv', 2 * mid) && root in lv' && lv'[root] >= 1
    ensures var z := Descend(st', lv', 2 * mid, root, key);
      && z in st' && LandsOn(st, lv, mid, root, key, z)
      && (st'[z].numKeys < 2 * mid <==> FindsRoom(st, lv, mid, root, key))
  {
    hide *;
    var m, A := 2 * mid, Way(st, lv, 2 * mid, root, key);
    SplitParts(st, st', lv, lv', mid, rows, rows', T, lo, hi);
    AlongWay(st, st', lv, lv', m, rows, root, key);
    SettledSearch(st, st', lv, lv', mid, A, key, root, los, his);
    var l, z := Lands(st, lv, mid, root, key), Descend(st', lv', m, root, key);
    FindsRoomIs(st, lv, mid, root, key);
    EndsIs(l, z, T, lv, los, his, A);
    LandsOnNow(st, lv, mid, root, key, z);
    if l != Half {
      TargetOnWay(st, lv, m, root, key);
      OtherNode(st, st', lv, lv', mid, rows, rows', T, lo, hi, z);
    }
  }

  lemma FindsRoomIs(st: Store, lv: map<nat, nat>, mid: nat, root: nat, key: nat)
    requires Levelled(st, lv, 2 * mid) && root in lv && lv[root] >= 1 && TargetFull(st, lv, mid, root, key)
    ensures var l := Lands(st, lv, mid, root, key);
      FindsRoom(st, lv, mid, root, key) <==> l == Half || st[l.node].numKeys < 2 * mid
  {
    hide Lands;
  }

  lemma EndsIs(l: Landing, z: nat, T: nat, lv: map<nat, nat>, los: map<nat, nat>, his: map<nat, nat>, A: set<nat>)
    requires Ends(l, z, T, lv, los, his, A)
    ensures l == Half ==> T in los && T in his && (z == los[T] || z == his[T])
    ensures l != Half ==> z == l.node && z in lv && lv[z] == 1 && z !in A
  {
  }

  lemma TargetOnWay(st: Store, lv: map<nat, nat>, m: nat, b: nat, key: nat)
    requires Levelled(st, lv, m) && b in lv && lv[b] >= 1
    ensures Descend(st, lv, m, b, key) in Way(st, lv, m, b, key)
    decreases lv[b]
  {
    if lv[b] >= 2 {
      StepDown(st, lv, m, b, key);
      TargetOnWay(st, lv, m, Step(st, lv, m, b, key), key);
    }
  }

  lemma SplitParts(st: Store, st': Store, lv: map<nat, nat>, lv': map<nat, nat>, mid: nat,
                   rows: seq<seq<nat>>, rows': seq<seq<nat>>, T: nat, lo: nat, hi: nat)
    requires SplitAt(st, st', lv, lv', mid, rows, rows', 1, T, lo, hi)
    ensures Levelled(st', lv', 2 * mid) && LowerKept(st, st', lv, lv', 1) && mid >= 2
    ensures T in st && lo in st' && hi in st' && Halves(st[T], st'[lo], st'[hi], mid)
    ensures st'[lo].numKeys < 2 * mid && st'[hi].numKeys < 2 * mid
  {
  }

  /** Another parent of leaves has as many keys as before. */
  lemma OtherNode(st: Store, st': Store, lv: map<nat, nat>, lv': map<nat, nat>, mid: nat,
                  rows: seq<seq<nat>>, rows': seq<seq<nat>>, T: nat, lo: nat, hi: nat, z: nat)
    requires SplitAt(st, st', lv, lv', mid, rows, rows', 1, T, lo, hi)
    requires z in lv' && lv'[z] == 1 && z != lo && z != hi
    ensures z in st && z in st' && st'[z].numKeys == st[z].numKeys
  {
    hide Levelled, Flat, NoDup, Halves;
  }

  /** The facts of a tree that both kinds of split start from. */
  lemma Upright(st: Store, lv: map<nat, nat>, m: nat, rows: seq<seq<nat>>, root: nat)
    requires Linked(st, lv, m, rows, 1) && Last(rows) == [root]
    ensures Levelled(st, lv, m) && root in lv && lv[root] == |rows| - 1 >= 1 && Backed(st, lv)
    ensures forall e | e in lv :: lv[e] <= lv[root]
  {
    LinkedBacked(st, lv, m, rows);
    hide Levelled, Flat, NoDup, Backed;
    assert root in rows[|rows| - 1] && RowOk(st, lv, rows[|rows| - 1], |rows| - 1);
  }

  /**
    The target was the root, or its parent was full as well: after the splits all the way up, the
    second search finds room exactly if that was foretold.
   */
  lemma SpreadLands(st: Store, st': Store, lv: map<nat, nat>, lv': map<nat, nat>, mid: nat,
                    rows: seq<seq<nat>>, rows': seq<seq<nat>>, root: nat, key: nat, T: nat, lo: nat, hi: nat,
                    los: map<nat, nat>, his: map<nat, nat>)
    requires Linked(st, lv, 2 * mid, rows, 1) && Last(rows) == [root] && Levelled(st, lv, 2 * mid)
    requires root in lv && lv[root] >= 1 && TargetFull(st, lv, mid, root, key)
    requires T == Descend(st, lv, 2 * mid, root, key)
    requires SplitAt(st, st', lv, lv', mid, rows, rows', 1, T, lo, hi)
    requires Spread(st, st', lv, lv', mid, |rows| - 1, T, los, his) && los[T] == lo && his[T] == hi
    requires T == root || (T in st && st[T].parent in st && st[st[T].parent].numKeys == 2 * mid)
    ensures Quiet(st, st', lv, lv', Way(st, lv, 2 * mid, root, key), 1)
    ensures Levelled(st', lv', 2 * mid) && root in lv' && lv'[root] >= 1
    ensures var z := Descend(st', lv', 2 * mid, root, key);
      && z in st' && LandsOn(st, lv, mid, root, key, z)
      && (st'[z].numKeys < 2 * mid <==> FindsRoom(st, lv, mid, root, key))
  {
    hide *;
    Upright(st, lv, 2 * mid, rows, root);
    SpreadTwins(st, st', lv, lv', mid, |rows| - 1, T, los, his);
    TargetDivided(st, st', lv, lv', mid, rows, rows', key, T, lo, hi, los, his);
    TargetOnWay(st, lv, 2 * mid, root, key);
    SpreadClimb(st, st', lv, lv', mid, root, key, T, los, his);
    LandedRoom(st, st', lv, lv', mid, rows, rows', root, key, T, lo, hi, los, his);
  }

  /** The parent of the target had room: the new half went to where the keys of the parent say. */
  lemma HungLands(st: Store, st': Store, lv: map<nat, nat>, lv': map<nat, nat>, mid: nat,
                  rows: seq<seq<nat>>, rows': seq<seq<nat>>, root: nat, key: nat, T: nat, hi: nat, P: nat, k: nat)
    requires Linked(st, lv, 2 * mid, rows, 1) && Last(rows) == [root] && Levelled(st, lv, 2 * mid)
    requires root in lv && lv[root] >= 1 && TargetFull(st, lv, mid, root, key)
    requires T == Descend(st, lv, 2 * mid, root, key)
    requires SplitAt(st, st', lv, lv', mid, rows, rows', 1, T, T, hi)
    requires T != root && T in st && st[T].parent == P && P in st && st[P].numKeys < 2 * mid
    requires HungAt(st, st', lv, lv', T, hi, k) && k == KeyIndex(st[P].keys, MaxKey(st, lv, 2 * mid, T))
    requires SameAt(st, st', lv, lv', 1, T) && hi !in lv
    ensures Quiet(st, st', lv, lv', Way(st, lv, 2 * mid, root, key), 1)
    ensures Levelled(st', lv', 2 * mid) && root in lv' && lv'[root] >= 1
    ensures var z := Descend(st', lv', 2 * mid, root, key);
      && z in st' && LandsOn(st, lv, mid, root, key, z)
      && (st'[z].numKeys < 2 * mid <==> FindsRoom(st, lv, mid, root, key))
  {
    hide *;
    var m, A := 2 * mid, Way(st, lv, 2 * mid, root, key);
    var los, his := map[T := T], map[T := hi];
    Upright(st, lv, m, rows, root);
    TargetDivided(st, st', lv, lv', mid, rows, rows', key, T, T, hi, los, his);
    TargetOnWay(st, lv, m, root, key);
    WayUp(st, lv, m, root, key, T);
    HungRisen(st, st', lv, lv', mid, key, T, P, k, los, his);
    RisenClimb(st, st', lv, lv', mid, root, key, P, los, his);
    QuietFrom(st, st', lv, lv', A, lv[P], P);
    QuietDown(st, st', lv, lv', A, 1, T);
    SettledRisen(st, st', lv, lv', mid, key, root, los, his);
    LandedRoom(st, st', lv, lv', mid, rows, rows', root, key, T, T, hi, los, his);
  }

  lemma HungRisen(st: Store, st': Store, lv: map<nat, nat>, lv': map<nat, nat>, mid: nat, key: nat,
                  T: nat, P: nat, k: nat, los: map<nat, nat>, his: map<nat, nat>)
    requires Levelled(st, lv, 2 * mid) && T in lv && lv[T] == 1 && P in lv && lv[P] == 2 && T in st && st[T].parent == P
    requires Step(st, lv, 2 * mid, P, key) == T && FullFrom(st, lv, mid, T, key) && P in st && st[P].numKeys < 2 * mid
    requires Divided(st, st', lv, lv', mid, key, T, los, his) && T in los && T in his && los[T] == T
    requires HungAt(st, st', lv, lv', T, his[T], k) && k == KeyIndex(st[P].keys, MaxKey(st, lv, 2 * mid, T))
    ensures !FullFrom(st, lv, mid, P, key) && Risen(st, st', lv, lv', mid, key, P, los, his)
    ensures SameFrom(st, st', lv, lv', lv[P], P)
  {
    hide Levelled, KidsAt, Step, SameFrom, Divided, KeyIndex, MaxKey;
  }

  lemma KeyIndexIs(n: Node, m: nat, max: nat, i: nat)
    requires StopsAt(n, m, max, i)
    ensures i == KeyIndex(n.keys, max)
  {
    var k := KeyIndex(n.keys, max);
    assert forall j | 0 <= j < k :: n.keys[j] < max && n.keys[j] != 0;
    assert k < m ==> max <= n.keys[k] || n.keys[k] == 0;
  }

  // ----- Nodes that hang nowhere do not matter -----

  /** All nodes with a height keep it and their contents; there may be more nodes. */
  ghost predicate More(st: Store, st': Store, lv: map<nat, nat>, lv': map<nat, nat>, m: nat) {
    && Levelled(st, lv, m) && Levelled(st', lv', m)
    && forall b | b in lv :: b in st && b in st' && st'[b] == st[b] && b in lv' && lv'[b] == lv[b]
  }

  lemma MoreBeside(st: Store, st': Store, lv: map<nat, nat>, lv': map<nat, nat>, m: nat)
    requires More(st, st', lv, lv', m)
    ensures Levelled(st, lv, m) && Levelled(st', lv', m) && Beside(st, st', lv, lv', {})
    ensures forall b | b in lv :: b in st && b in st' && st'[b] == st[b] && b in lv' && lv'[b] == lv[b]
    ensures forall b | b in lv :: MaxKey(st', lv', m, b) == MaxKey(st, lv, m, b)
  {
    forall b | b in lv
      ensures MaxKey(st', lv', m, b) == MaxKey(st, lv, m, b)
    {
      BesideMax(st, st', lv, lv', m, {}, b);
    }
  }

  lemma MoreStep(st: Store, st': Store, lv: map<nat, nat>, lv': map<nat, nat>, m: nat, b: nat, key: nat)
    requires More(st, st', lv, lv', m) && b in lv && lv[b] >= 1
    ensures Levelled(st, lv, m) && Levelled(st', lv', m) && b in lv' && lv'[b] == lv[b]
    ensures KidsAt(st', b) == KidsAt(st, b)
    ensures b in st && b in st' && st'[b] == st[b]
    ensures lv[b] >= 2 ==> Step(st', lv', m, b, key) == Step(st, lv, m, b, key)
    ensures Descend(st', lv', m, b, key) == Descend(st, lv, m, b, key)
    ensures MaxKey(st', lv', m, b) == MaxKey(st, lv, m, b)
    ensures Known(st, lv, m, KidsAt(st, b)) && Known(st', lv', m, KidsAt(st, b))
  {
    hide Levelled, MaxKey, Descend, Pick, KidsAt;
    MoreBeside(st, st', lv, lv', m);
    KidsOf(st, lv, m, b);
    KidsOf(st', lv', m, b);
    if lv[b] >= 2 { BesidePick(st, st', lv, lv', m, {}, KidsAt(st, b), key); }
    BesideDescend(st, st', lv, lv', m, {}, b, key);
  }

  /** A search in a part of a row. */
  lemma MoreRest(st: Store, st': Store, lv: map<nat, nat>, lv': map<nat, nat>, m: nat, row: seq<nat>, key: nat)
    requires More(st, st', lv, lv', m) && row != [] && Known(st, lv, m, row) && forall c | c in row :: lv[c] >= 1
    ensures Known(st', lv', m, row) && Levelled(st, lv, m) && Levelled(st', lv', m)
    ensures var c := Pick(st, lv, m, row, key);
      && c in lv && lv[c] >= 1 && c in lv' && lv'[c] >= 1 && Pick(st', lv', m, row, key) == c
      && Descend(st', lv', m, c, key) == Descend(st, lv, m, c, key)
  {
    hide Levelled, MaxKey, Descend, Pick, KidsAt;
    MoreBeside(st, st', lv, lv', m);
    BesidePick(st, st', lv, lv', m, {}, row, key);
    MoreStep(st, st', lv, lv', m, Pick(st, lv, m, row, key), key);
  }

  lemma {:induction false} MoreWay(st: Store, st': Store, lv: map<nat, nat>, lv': map<nat, nat>, m: nat, b: nat,
                                   key: nat)
    requires More(st, st', lv, lv', m) && Levelled(st, lv, m) && Levelled(st', lv', m)
    requires b in lv && lv[b] >= 1 && b in lv' && lv'[b] == lv[b]
    ensures Way(st', lv', m, b, key) == Way(st, lv, m, b, key)
    decreases lv[b]
  {
    hide Levelled, More, Step, Descend, MaxKey;
    MoreStep(st, st', lv, lv', m, b, key);
    if lv[b] >= 2 {
      var p := Step(st, lv, m, b, key);
      MoreStep(st, st', lv, lv', m, p, key);
      MoreWay(st, st', lv, lv', m, p, key);
    }
  }

  lemma {:induction false} MoreFull(st: Store, st': Store, lv: map<nat, nat>, lv': map<nat, nat>, mid: nat, b: nat,
                                    key: nat)
    requires More(st, st', lv, lv', 2 * mid) && Levelled(st, lv, 2 * mid) && Levelled(st', lv', 2 * mid)
    requires b in lv && lv[b] >= 1 && b in lv' && lv'[b] == lv[b]
    ensures FullFrom(st', lv', mid, b, key) == FullFrom(st, lv, mid, b, key)
    decreases lv[b]
  {
    hide Levelled, More, Step, Descend, MaxKey;
    MoreStep(st, st', lv, lv', 2 * mid, b, key);
    if lv[b] >= 2 {
      var p := Step(st, lv, 2 * mid, b, key);
      MoreStep(st, st', lv, lv', 2 * mid, p, key);
      MoreFull(st, st', lv, lv', mid, p, key);
    }
  }

  lemma {:induction false} MoreHalves(st: Store, st': Store, lv: map<nat, nat>, lv': map<nat, nat>, mid: nat, b: nat,
                                      key: nat)
    requires More(st, st', lv, lv', 2 * mid) && Levelled(st, lv, 2 * mid) && Levelled(st', lv', 2 * mid)
    requires b in lv && lv[b] >= 1 && b in lv' && lv'[b] == lv[b] && mid >= 2
    requires FullFrom(st, lv, mid, b, key) && FullFrom(st', lv', mid, b, key)
    ensures InHalves(st', lv', mid, b, key) == InHalves(st, lv, mid, b, key)
    decreases lv[b]
  {
    hide *;
    var m := 2 * mid;
    MoreStep(st, st', lv, lv', m, b, key);
    InHalvesStep(st, lv, mid, b, key);
    InHalvesStep(st', lv', mid, b, key);
    if lv[b] >= 2 {
      var K, p := KidsAt(st, b), Step(st, lv, m, b, key);
      MoreStep(st, st', lv, lv', m, p, key);
      MoreBeside(st, st', lv, lv', m);
      KidsOf(st, lv, m, b);
      SegmentKnown(st, lv, m, K, mid + 1);
      MoreRest(st, st', lv, lv', m, K[mid + 1..], key);
      MoreHalves(st, st', lv, lv', mid, p, key);
    }
  }

  lemma MoreMaxima(st: Store, st': Store, lv: map<nat, nat>, lv': map<nat, nat>, mid: nat, b: nat, key: nat)
    requires More(st, st', lv, lv', 2 * mid) && Levelled(st, lv, 2 * mid) && Levelled(st', lv', 2 * mid)
    requires b in lv && lv[b] == 2 && b in lv' && lv'[b] == lv[b] && mid >= 2
    requires st[Step(st, lv, 2 * mid, b, key)].numKeys == 2 * mid
    ensures Step(st', lv', 2 * mid, b, key) == Step(st, lv, 2 * mid, b, key)
    ensures st'[Step(st', lv', 2 * mid, b, key)].numKeys == 2 * mid
    ensures SplitMaxima(st', lv', mid, b, key) == SplitMaxima(st, lv, mid, b, key)
    ensures SplitKids(st', lv', mid, b, key) == SplitKids(st, lv, mid, b, key)
  {
    hide *;
    var m, K, T := 2 * mid, KidsAt(st, b), Step(st, lv, 2 * mid, b, key);
    MoreStep(st, st', lv, lv', m, b, key);
    MoreStep(st, st', lv, lv', m, T, key);
    MoreBeside(st, st', lv, lv', m);
    SplitRows(st, lv, mid, b, key);
    SplitRows(st', lv', mid, b, key);
    KidsOf(st, lv, m, b);
    assert Maxima(st', lv', m, K) == Maxima(st, lv, m, K);
  }

  lemma {:induction false} MoreNewMax(st: Store, st': Store, lv: map<nat, nat>, lv': map<nat, nat>, mid: nat, b: nat,
                                      key: nat)
    requires More(st, st', lv, lv', 2 * mid) && Levelled(st, lv, 2 * mid) && Levelled(st', lv', 2 * mid)
    requires b in lv && lv[b] >= 2 && b in lv' && lv'[b] == lv[b]
    requires TargetFull(st, lv, mid, b, key) && TargetFull(st', lv', mid, b, key)
    ensures NewMax(st', lv', mid, b, key) == NewMax(st, lv, mid, b, key)
    decreases lv[b]
  {
    hide *;
    var m, p := 2 * mid, Step(st, lv, 2 * mid, b, key);
    MoreStep(st, st', lv, lv', m, b, key);
    MoreStep(st, st', lv, lv', m, p, key);
    NewMaxAt(st, lv, mid, b, key);
    NewMaxAt(st', lv', mid, b, key);
    MoreFull(st, st', lv, lv', mid, p, key);
    if lv[b] == 2 {
      MoreMaxima(st, st', lv, lv', mid, b, key);
    } else if !FullFrom(st, lv, mid, p, key) && p == Last(KidsAt(st, b)) {
      MoreNewMax(st, st', lv, lv', mid, p, key);
    }
  }

  lemma {:induction false} MoreSecond(st: Store, st': Store, lv: map<nat, nat>, lv': map<nat, nat>, mid: nat, b: nat,
                                      key: nat)
    requires More(st, st', lv, lv', 2 * mid) && Levelled(st, lv, 2 * mid) && Levelled(st', lv', 2 * mid)
    requires b in lv && lv[b] >= 2 && b in lv' && lv'[b] == lv[b]
    requires mid >= 2 && TargetFull(st, lv, mid, b, key) && TargetFull(st', lv', mid, b, key)
    ensures Second(st', lv', mid, b, key) == Second(st, lv, mid, b, key)
    decreases lv[b]
  {
    hide Levelled, More, Step, Descend, MaxKey, KidsAt, FullFrom, Pick, SplitMaxima, SplitKids, InHalves, NewMax,
         TargetFull, Known, Last;
    var m, K, p := 2 * mid, KidsAt(st, b), Step(st, lv, 2 * mid, b, key);
    MoreStep(st, st', lv, lv', m, b, key);
    MoreStep(st, st', lv, lv', m, p, key);
    NewMaxAt(st, lv, mid, b, key);
    NewMaxAt(st', lv', mid, b, key);
    MoreFull(st, st', lv, lv', mid, p, key);
    if lv[b] == 2 {
      MoreMaxima(st, st', lv, lv', mid, b, key);
    } else if FullFrom(st, lv, mid, p, key) {
      MoreHalves(st, st', lv, lv', mid, p, key);
    } else {
      MoreNewMax(st, st', lv, lv', mid, p, key);
      KidsOf(st, lv, m, b);
      if p != Last(K) {
        RestAfter(st, lv, m, K, p);
        MoreRest(st, st', lv, lv', m, K[IndexOf(K, p) + 1..], key);
      }
      MoreSecond(st, st', lv, lv', mid, p, key);
    }
  }

  lemma RestAfter(st: Store, lv: map<nat, nat>, m: nat, K: seq<nat>, p: nat)
    requires Known(st, lv, m, K) && p in K && p != Last(K)
    ensures K[IndexOf(K, p) + 1..] != [] && Known(st, lv, m, K[IndexOf(K, p) + 1..])
    ensures forall d | d in K[IndexOf(K, p) + 1..] :: d in K
  {
  }

  lemma MoreFindsRoom(st: Store, st': Store, lv: map<nat, nat>, lv': map<nat, nat>, mid: nat, root: nat, key: nat)
    requires More(st, st', lv, lv', 2 * mid) && Levelled(st, lv, 2 * mid) && Levelled(st', lv', 2 * mid)
    requires root in lv && lv[root] >= 1 && root in lv' && lv'[root] == lv[root]
    requires mid >= 2 && TargetFull(st, lv, mid, root, key) && TargetFull(st', lv', mid, root, key)
    ensures FindsRoom(st', lv', mid, root, key) == FindsRoom(st, lv, mid, root, key)
    ensures forall z | z in lv || z !in lv' ::
      LandsOn(st', lv', mid, root, key, z) == LandsOn(st, lv, mid, root, key, z)
  {
    MoreStep(st, st', lv, lv', 2 * mid, root, key);
    hide Levelled, More, Descend, FullFrom, InHalves, Second, TargetFull;
    MoreFull(st, st', lv, lv', mid, root, key);
    if FullFrom(st, lv, mid, root, key) {
      MoreHalves(st, st', lv, lv', mid, root, key);
    } else {
      TargetBelow(st, lv, mid, root, key);
      MoreSecond(st, st', lv, lv', mid, root, key);
    }
    MoreBeside(st, st', lv, lv', 2 * mid);
  }

  lemma TargetBelow(st: Store, lv: map<nat, nat>, mid: nat, b: nat, key: nat)
    requires Levelled(st, lv, 2 * mid) && b in lv && lv[b] >= 1
    requires TargetFull(st, lv, mid, b, key) && !FullFrom(st, lv, mid, b, key)
    ensures lv[b] >= 2
  {
  }

  // ----- Which insertions succeed -----

  /** The slot behind the last key of a full node is empty, and the key goes behind the last one. */
  predicate Appends(n: Node, m: nat, key: nat) {
    && n.numKeys == m == |n.keys| && |n.children| == m + 1 && m > 0
    && n.keys[m - 1] < key && n.children[m] == 0
  }

  /** The target has room, or takes the leaf in its last slot, or is split and the second search finds room. */
  ghost predicate Accepts(st: Store, lv: map<nat, nat>, mid: nat, root: nat, key: nat)
    requires Levelled(st, lv, 2 * mid) && root in lv && lv[root] >= 1 && mid >= 2
  {
    var n := st[Descend(st, lv, 2 * mid, root, key)];
    n.numKeys < 2 * mid || Appends(n, 2 * mid, key)
    || (n.numKeys == 2 * mid && FindsRoom(st, lv, mid, root, key))
  }

  lemma MoreAccepts(st: Store, st': Store, lv: map<nat, nat>, lv': map<nat, nat>, mid: nat, root: nat, key: nat)
    requires More(st, st', lv, lv', 2 * mid) && Levelled(st, lv, 2 * mid) && Levelled(st', lv', 2 * mid)
    requires root in lv && lv[root] >= 1 && root in lv' && lv'[root] == lv[root] && mid >= 2
    ensures Accepts(st', lv', mid, root, key) == Accepts(st, lv, mid, root, key)
  {
    hide Levelled, More, Descend, FindsRoom, Appends;
    MoreBeside(st, st', lv, lv', 2 * mid);
    MoreStep(st, st', lv, lv', 2 * mid, root, key);
    if st[Descend(st, lv, 2 * mid, root, key)].numKeys == 2 * mid {
      MoreFindsRoom(st, st', lv, lv', mid, root, key);
    }
  }

  lemma AcceptsIs(st: Store, lv: map<nat, nat>, mid: nat, root: nat, key: nat, T: nat)
    requires Levelled(st, lv, 2 * mid) && root in lv && lv[root] >= 1 && mid >= 2
    requires T == Descend(st, lv, 2 * mid, root, key)
    ensures T in st && |st[T].keys| == 2 * mid && |st[T].children| == 2 * mid + 1 && st[T].numKeys <= 2 * mid
    ensures st[T].numKeys < 2 * mid ==> Accepts(st, lv, mid, root, key)
    ensures st[T].numKeys == 2 * mid ==> TargetFull(st, lv, mid, root, key)
    ensures st[T].numKeys == 2 * mid ==>
      (Accepts(st, lv, mid, root, key) <==>
       (st[T].keys[2 * mid - 1] < key && st[T].children[2 * mid] == 0) || FindsRoom(st, lv, mid, root, key))
  {
    hide Levelled, FindsRoom, Descend, Shape;
    NodeArrays(st, lv, 2 * mid, T);
  }

  lemma NodeArrays(st: Store, lv: map<nat, nat>, m: nat, b: nat)
    requires Levelled(st, lv, m) && b in lv && lv[b] >= 1
    ensures b in st && |st[b].keys| == m && |st[b].children| == m + 1 && st[b].numKeys <= m
  {
    NodeShape(st, lv, m, b);
  }

  // ----- An insertion without a split -----

  /**
    The leaf has become a child of P and nothing else has changed but the keys of P: it stands at its
    place, clamped to the number of keys, or in the last slot of a full node.
   */
  ghost predicate Received(st: Store, st': Store, lv: map<nat, nat>, lv': map<nat, nat>, m: nat, P: nat, leaf: nat) {
    && P in st && P in st' && leaf in st' && leaf != P && Known(st, lv, m, KidsAt(st, P))
    && st' == st[P := st[P].(keys := st'[P].keys, children := st'[P].children, numKeys := st'[P].numKeys)]
                [leaf := st'[leaf]]
    && st'[P].numKeys == (if st[P].numKeys == m then m else st[P].numKeys + 1)
    && Levelled(st', lv', m) && P in lv' && lv'[P] >= 1 && KeysRight(st', lv', m, P)
    && var K := KidsAt(st, P);
       var p := if st[P].numKeys == m then m else Min(Place(st, lv, m, K, st'[leaf].key), st[P].numKeys);
       p <= |K| && KidsAt(st', P) == InsertAt(K, p, leaf)
  }

  lemma ReceivedNow(st: Store, stL: Store, st': Store, lv: map<nat, nat>, lv': map<nat, nat>, m: nat,
                    P: nat, p: nat, leaf: nat)
    requires More(st, stL, lv, lv', m) && leaf in stL && stL == st[leaf := stL[leaf]] && leaf !in st
    requires P in lv && lv[P] >= 1 && P in lv' && HungBelow(stL, st', m, P, p, leaf) && Intact(stL, st')
    requires Levelled(st', lv', m) && lv'[P] >= 1 && KeysRight(st', lv', m, P)
    requires P in st && P in st' && st'[P].numKeys == if st[P].numKeys == m then m else st[P].numKeys + 1
    requires st[P].numKeys == m ==> p == m
    requires st[P].numKeys != m ==>
      && Known(stL, lv', m, KidsAt(stL, P))
      && p == Min(Place(stL, lv', m, KidsAt(stL, P), stL[leaf].key), stL[P].numKeys)
    ensures Received(st, st', lv, lv', m, P, leaf)
  {
    hide *;
    MoreStep(st, stL, lv, lv', m, P, 0);
    MorePlace(st, stL, lv, lv', m, KidsAt(st, P), stL[leaf].key);
    HungFields(stL, st', m, P, p, leaf);
    IntactFields(stL, st', P);
    ReceivedIntro(st, st', lv, lv', m, P, p, leaf);
  }

  lemma HungFields(st: Store, st': Store, m: nat, P: nat, p: nat, leaf: nat)
    requires HungBelow(st, st', m, P, p, leaf)
    ensures P in st && P in st' && leaf in st && leaf in st' && leaf != P && st'.Keys == st.Keys
    ensures st' == st[P := st'[P]][leaf := st'[leaf]] && st'[leaf].key == st[leaf].key
    ensures st'[P].parent == st[P].parent && p <= |KidsAt(st, P)| && KidsAt(st', P) == InsertAt(KidsAt(st, P), p, leaf)
  {
    GainedKidsAt(st, st', P, p, leaf, m);
  }

  lemma IntactFields(st: Store, st': Store, P: nat)
    requires Intact(st, st') && st'.Keys == st.Keys && P in st && P in st' && st'[P].parent == st[P].parent
    ensures st'[P] == st[P].(keys := st'[P].keys, children := st'[P].children, numKeys := st'[P].numKeys)
  {
  }

  lemma ReceivedIntro(st: Store, st': Store, lv: map<nat, nat>, lv': map<nat, nat>, m: nat, P: nat, p: nat, leaf: nat)
    requires P in st && P in st' && leaf in st' && leaf != P && Known(st, lv, m, KidsAt(st, P))
    requires st' == st[P := st[P].(keys := st'[P].keys, children := st'[P].children, numKeys := st'[P].numKeys)]
                      [leaf := st'[leaf]]
    requires st'[P].numKeys == if st[P].numKeys == m then m else st[P].numKeys + 1
    requires Levelled(st', lv', m) && P in lv' && lv'[P] >= 1 && KeysRight(st', lv', m, P)
    requires p <= |KidsAt(st, P)| && KidsAt(st', P) == InsertAt(KidsAt(st, P), p, leaf)
    requires p == if st[P].numKeys == m then m
                  else Min(Place(st, lv, m, KidsAt(st, P), st'[leaf].key), st[P].numKeys)
    ensures Received(st, st', lv, lv', m, P, leaf)
  {
    hide Levelled, KeysRight, Place, KidsAt, Known;
  }

  lemma {:induction false} MorePlace(st: Store, st': Store, lv: map<nat, nat>, lv': map<nat, nat>, m: nat,
                                     row: seq<nat>, key: nat)
    requires More(st, st', lv, lv', m) && Known(st, lv, m, row) && Known(st', lv', m, row)
    ensures Place(st', lv', m, row, key) == Place(st, lv, m, row, key)
    decreases |row|
  {
    hide Levelled, MaxKey, More;
    if row != [] {
      MoreBeside(st, st', lv, lv', m);
      MorePlace(st, st', lv, lv', m, Front(row), key);
    }
  }

  // ----- What an insertion leaves alone -----

  /** Apart from the nodes of A and from P, all inner nodes hold what they held, but for their parents. */
  ghost predicate ElsewhereSame(st: Store, st': Store, lv: map<nat, nat>, A: set<nat>, P: nat) {
    forall c | c in lv && lv[c] >= 1 && c !in A && c != P :: SameButParent(st, st', c)
  }

  lemma QuietSelf(st: Store, lv: map<nat, nat>, m: nat, A: set<nat>)
    requires Levelled(st, lv, m)
    ensures Quiet(st, st, lv, lv, A, 1)
  {
  }

  lemma ElsewhereNow(st: Store, stL: Store, stA: Store, st': Store, lv: map<nat, nat>, lvL: map<nat, nat>,
                  lvA: map<nat, nat>, A: set<nat>, P: nat, leaf: nat)
    requires Quiet(stL, stA, lvL, lvA, A, 1)
    requires leaf in stL && stL == st[leaf := stL[leaf]] && leaf !in st && leaf !in lv && lvL == lv[leaf := 0]
    requires P in st' && leaf in st' && st' == stA[P := st'[P]][leaf := st'[leaf]]
    requires forall c | c in lv :: c in st
    ensures ElsewhereSame(st, st', lv, A, P)
  {
    forall c | c in lv && lv[c] >= 1 && c !in A && c != P
      ensures SameButParent(st, st', c)
    {
      assert c in lvL && lvL[c] == lv[c] && c != leaf && SameButParent(stL, stA, c);
    }
  }
}
