/** How a split changes the rows above it: which nodes get which children. */
module BTreeSpread {
  import opened Sequences
  import opened BTreeModel
  import opened BTreeSplits

  /** From height h on, the nodes other than p have their height as before, and all they hold but their parents. */
  ghost predicate SameFrom(st: Store, st': Store, lv: map<nat, nat>, lv': map<nat, nat>, h: nat, p: nat) {
    forall d | d in lv && lv[d] >= h && d != p :: d in lv' && lv'[d] == lv[d] && SameButParent(st, st', d)
  }

  /** The same at height h alone. */
  ghost predicate SameAt(st: Store, st': Store, lv: map<nat, nat>, lv': map<nat, nat>, h: nat, p: nat) {
    forall d | d in lv && lv[d] == h && d != p :: d in lv' && lv'[d] == lv[d] && SameButParent(st, st', d)
  }

  /** The parent of x has gained hi behind position k, and nothing else has changed above x. */
  ghost predicate HungAt(st: Store, st': Store, lv: map<nat, nat>, lv': map<nat, nat>, x: nat, hi: nat, k: nat) {
    && x in lv && x in st && st[x].parent in lv && lv[st[x].parent] == lv[x] + 1
    && var P := st[x].parent;
    && P in lv' && lv'[P] == lv[P]
    && k < |KidsAt(st, P)| && KidsAt(st', P) == InsertAt(KidsAt(st, P), k + 1, hi)
    && SameFrom(st, st', lv, lv', lv[P], P)
  }

  /** K with hi behind the element x, if x is in there. */
  function Behind(K: seq<nat>, x: nat, hi: nat): seq<nat> {
    if x in K then InsertAt(K, IndexOf(K, x) + 1, hi) else K
  }

  /**
    The full node x has become los[x] and his[x]. If x is the root, it stands over them now; else x
    keeps its block, and his[x] stands behind it below its parent, which has been split itself if it
    was full.
   */
  ghost predicate Spread(st: Store, st': Store, lv: map<nat, nat>, lv': map<nat, nat>, mid: nat, top: nat,
                         x: nat, los: map<nat, nat>, his: map<nat, nat>)
    decreases top - (if x in lv then lv[x] else 0)
  {
    && x in lv && x in st && 1 <= lv[x] <= top && x in los && x in his
    && los[x] in lv' && lv'[los[x]] == lv[x] && his[x] in lv' && lv'[his[x]] == lv[x] && his[x] !in lv
    && SameAt(st, st', lv, lv', lv[x], x)
    && if lv[x] == top then
         los[x] !in lv && x in lv' && lv'[x] == top + 1 && KidsAt(st', x) == [los[x], his[x]]
       else
         && los[x] == x && st[x].parent in st && st[x].parent in lv && lv[st[x].parent] == lv[x] + 1
         && x in KidsAt(st, st[x].parent)
         && var P, K := st[x].parent, KidsAt(st, st[x].parent);
            if st[P].numKeys < 2 * mid then HungAt(st, st', lv, lv', x, his[x], IndexOf(K, x))
            else
              && mid < |K| && P in los && P in his
              && KidsAt(st', los[P]) == Behind(K[..mid + 1], x, his[x])
              && KidsAt(st', his[P]) == Behind(K[mid + 1..], x, his[x])
              && Spread(st, st', lv, lv', mid, top, P, los, his)
  }

  /** What the predicate depends on: the old nodes from x's height on, and the new children above it. */
  lemma {:induction false} SpreadFrame(st: Store, st': Store, s: Store, s': Store, lv: map<nat, nat>, l: map<nat, nat>,
                                       lv': map<nat, nat>,
                                       mid: nat, top: nat, x: nat, los: map<nat, nat>, his: map<nat, nat>)
    requires Spread(st, st', lv, lv', mid, top, x, los, his) && x in l && l[x] == lv[x]
    requires forall d | d in l && l[d] >= lv[x] :: d in st && d in s && s[d] == st[d]
    requires forall d | d in lv && lv[d] >= lv[x] :: d in l
    requires forall d | d in lv' && lv'[d] >= lv[x] && (lv'[d] > lv[x] || (d != los[x] && d != his[x])) ::
      KidsAt(s', d) == KidsAt(st', d) && (d in st' ==> SameButParent(st', s', d))
    requires his[x] !in l && (forall d | d in l :: d in lv && lv[d] == l[d])
    ensures Spread(s, s', l, lv', mid, top, x, los, his)
    decreases top - lv[x]
  {
    assert SameAt(s, s', l, lv', l[x], x) by {
      assert forall d | d in l && l[d] >= lv[x] :: KidsAt(s, d) == KidsAt(st, d);
      assert forall d | d in l && l[d] == lv[x] && d != x :: d != los[x] && d != his[x];
    }
    if lv[x] < top {
      var P := st[x].parent;
      assert P in l && KidsAt(s, P) == KidsAt(st, P);
      assert forall d | d in l && l[d] >= lv[x] :: KidsAt(s, d) == KidsAt(st, d);
      if st[P].numKeys < 2 * mid {
        assert HungAt(s, s', l, lv', x, his[x], IndexOf(KidsAt(st, P), x));
      } else {
        SpreadFrame(st, st', s, s', lv, l, lv', mid, top, P, los, his);
      }
    }
  }

  /** More twins do not matter. */
  lemma {:induction false} SpreadMore(st: Store, st': Store, lv: map<nat, nat>, lv': map<nat, nat>, mid: nat, top: nat,
                                      x: nat, los: map<nat, nat>, his: map<nat, nat>, y: nat, lo: nat, hi: nat)
    requires Spread(st, st', lv, lv', mid, top, x, los, his) && y in lv && lv[y] < lv[x]
    ensures Spread(st, st', lv, lv', mid, top, x, los[y := lo], his[y := hi])
    decreases top - lv[x]
  {
    if lv[x] < top && st[st[x].parent].numKeys >= 2 * mid {
      SpreadMore(st, st', lv, lv', mid, top, st[x].parent, los, his, y, lo, hi);
    }
  }

  // ----- What the splits establish -----

  /** A map with one entry. */
  ghost function Only(x: nat, y: nat): (m: map<nat, nat>)
    ensures m.Keys == {x} && m[x] == y
  {
    map[x := y]
  }

  lemma RootSpread(st: Store, st': Store, lv: map<nat, nat>, lv': map<nat, nat>, mid: nat,
                   rows': seq<seq<nat>>, h: nat, r: nat, a: nat, b: nat)
    requires Linked(st', lv', 2 * mid, rows', h) && |rows'| == h + 2 && rows'[h] == [a, b] && rows'[h + 1] == [r]
    requires forall c | c in lv && c != r :: lv[c] < h
    requires r in lv && r in st && lv[r] == h && a !in lv && b !in lv && lv' == lv[a := h][b := h][r := h + 1]
    ensures Spread(st, st', lv, lv', mid, h, r, Only(r, a), Only(r, b))
  {
    hide Linked, Flat, KidsAt;
    LinkedIndex(st', lv', 2 * mid, rows', h);
    LinkedRow(st', lv', 2 * mid, rows', h, h + 1);
    FlatOne(st', r);
  }

  /** Halving a node touches nothing higher up. */
  lemma HalvedAbove(st: Store, st1: Store, lv: map<nat, nat>, mid: nat, rows: seq<seq<nat>>, h: nat, i: nat, b: nat,
                    parent: nat)
    requires Linked(st, lv, 2 * mid, rows, h) && i < |rows[h]|
    requires SplitsOff(st, st1, mid, rows[h][i], b, parent) && b !in lv
    ensures forall c | c in lv && lv[c] > h :: c in st && c in st1 && st1[c] == st[c]
  {
    hide Levelled, RowOk, Flat, NoDup, Covered, SplitsOff, Divides;
    LinkedRow(st, lv, 2 * mid, rows, h, h);
    InRow(st, lv, rows[h], h, i);
    SplitDivides(st, st1, mid, rows[h][i], b, parent);
    DivideUnchanged(st, st1, lv, 2 * mid, rows[h], h, rows[h][i], b);
  }

  lemma GainedKidsAt(st: Store, st': Store, P: nat, p: nat, b: nat, m: nat)
    requires P in st && P in st' && GainsChild(st[P], st'[P], p, b, m)
    ensures p <= |KidsAt(st, P)| && KidsAt(st', P) == InsertAt(KidsAt(st, P), p, b)
  {
  }

  /** A parent with room takes the new half behind position k. */
  lemma RoomSpread(st: Store, st1: Store, st2: Store, lv: map<nat, nat>, mid: nat, x: nat, b: nat, k: nat)
    requires x in lv && x in st && st[x].parent in lv && lv[st[x].parent] == lv[x] + 1 && b !in lv
    requires forall c | c in lv && lv[c] > lv[x] :: c in st && c in st1 && st1[c] == st[c]
    requires var P := st[x].parent;
      && P in st2 && b in st1 && k < |KidsAt(st, P)|
      && GainsChild(st1[P], st2[P], k + 1, b, 2 * mid) && st2 == st1[P := st2[P]][b := st1[b].(parent := P)]
    ensures HungAt(st, st2, lv, lv[b := lv[x]], x, b, k)
  {
    var P := st[x].parent;
    GainedKidsAt(st1, st2, P, k + 1, b, 2 * mid);
    hide GainsChild;
    assert KidsAt(st1, P) == KidsAt(st, P);
  }

  lemma HalvesKidsAt(st: Store, st': Store, P: nat, lo: nat, hi: nat, mid: nat)
    requires P in st && lo in st' && hi in st' && Halves(st[P], st'[lo], st'[hi], mid)
    ensures mid + 1 < |KidsAt(st, P)|
    ensures KidsAt(st', lo) == KidsAt(st, P)[..mid + 1] && KidsAt(st', hi) == KidsAt(st, P)[mid + 1..]
  {
    HalvesKids(st[P], st'[lo], st'[hi], mid);
  }

  lemma PositionInHalf(K: seq<nat>, mid: nat, x: nat)
    requires NoDup(K) && x in K && mid + 1 < |K|
    ensures x in K[..mid + 1] <==> IndexOf(K, x) <= mid
    ensures x in K[mid + 1..] <==> IndexOf(K, x) > mid
  {
    var c := IndexOf(K, x);
    if c <= mid { assert K[..mid + 1][c] == x; } else { assert K[mid + 1..][c - mid - 1] == x; }
  }

  /** One half has gained b behind x; the other half is as the split left it. */
  lemma HungInHalf(K: seq<nat>, mid: nat, x: nat, b: nat, cp: nat, lo: nat, hi: nat, stA: Store, st2: Store, m: nat)
    requires NoDup(K) && x in K && mid + 1 < |K| && lo != hi
    requires KidsAt(stA, lo) == K[..mid + 1] && KidsAt(stA, hi) == K[mid + 1..] && (cp == lo || cp == hi)
    requires cp in stA && cp in st2 && x in KidsAt(stA, cp) && b in stA && b != lo && b != hi
    requires GainsChild(stA[cp], st2[cp], IndexOf(KidsAt(stA, cp), x) + 1, b, m)
    requires st2 == stA[cp := st2[cp]][b := stA[b].(parent := cp)]
    ensures KidsAt(st2, lo) == Behind(K[..mid + 1], x, b) && KidsAt(st2, hi) == Behind(K[mid + 1..], x, b)
  {
    hide *;
    PositionInHalf(K, mid, x);
    GainedKidsAt(stA, st2, cp, IndexOf(KidsAt(stA, cp), x) + 1, b, m);
    var other := if cp == lo then hi else lo;
    OneChanged(stA, st2, cp, b, other);
    BehindIs(KidsAt(stA, cp), x, b);
    BehindIs(KidsAt(stA, other), x, b);
  }

  lemma BehindIs(K: seq<nat>, x: nat, hi: nat)
    ensures x in K ==> Behind(K, x, hi) == InsertAt(K, IndexOf(K, x) + 1, hi)
    ensures x !in K ==> Behind(K, x, hi) == K
  {
  }

  /** The whole picture after a cascade: the parent P was split, and b hangs behind x in one of its halves. */
  lemma CascadeSpread(st: Store, st1: Store, stA: Store, st2: Store, lv: map<nat, nat>, lvA: map<nat, nat>, mid: nat,
                      top: nat,
                      x: nat, b: nat, P: nat, cp: nat, los: map<nat, nat>, his: map<nat, nat>)
    requires x in lv && x in st && lv[x] < top && 1 <= lv[x] && st[x].parent == P && P in lv && lv[P] == lv[x] + 1
    requires b !in lv
    requires b in lvA && lvA[b] == lv[x] && x in lvA && lvA[x] == lv[x]
    requires forall c | c in lv && lv[c] > lv[x] :: c in st && c in st1 && st1[c] == st[c]
    requires x in KidsAt(st, P) && NoDup(KidsAt(st, P)) && st[P].numKeys == 2 * mid
    requires Spread(st1, stA, lv[b := lv[x]], lvA, mid, top, P, los, his)
    requires P in st1 && los[P] in stA && his[P] in stA && Halves(st1[P], stA[los[P]], stA[his[P]], mid)
    requires los[P] != his[P]
    requires cp == los[P] || cp == his[P]
    requires cp in stA && cp in st2 && b in stA && x in KidsAt(stA, cp)
    requires GainsChild(stA[cp], st2[cp], IndexOf(KidsAt(stA, cp), x) + 1, b, 2 * mid)
    requires st2 == stA[cp := st2[cp]][b := stA[b].(parent := cp)]
    requires SameAt(st, st2, lv, lvA, lv[x], x)
    ensures Spread(st, st2, lv, lvA, mid, top, x, los[x := x], his[x := b])
  {
    hide *;
    var lv1 := lv[b := lv[x]];
    SpreadTwins(st1, stA, lv1, lvA, mid, top, P, los, his);
    SameKidsOne(st, st1, P);
    HalvesKidsAt(st1, stA, P, los[P], his[P], mid);
    HungInHalf(KidsAt(st, P), mid, x, b, cp, los[P], his[P], stA, st2, 2 * mid);
    forall c | c != cp && c != b
      ensures KidsAt(st2, c) == KidsAt(stA, c) && (c in stA ==> SameButParent(stA, st2, c))
    {
      OneChanged(stA, st2, cp, b, c);
    }
    SpreadFrame(st1, stA, st, st2, lv1, lv, lvA, mid, top, P, los, his);
    SpreadMore(st, st2, lv, lvA, mid, top, P, los, his, x, x, b);
    SpreadStep(st, st2, lv, lvA, mid, top, x, los[x := x], his[x := b]);
  }

  /** The same, for trees with all their links. */
  lemma CascadeFits(st: Store, st1: Store, stA: Store, st2: Store, lv: map<nat, nat>, lv1: map<nat, nat>,
                    lvA: map<nat, nat>,
                    mid: nat, rowsA: seq<seq<nat>>, rows: seq<seq<nat>>, h: nat, x: nat, b: nat, P: nat, cp: nat,
                    los: map<nat, nat>, his: map<nat, nat>)
    requires Linked(st, lv, 2 * mid, rows, h)
    requires 1 <= h
    requires h + 1 < |rows|
    requires x in lv && lv[x] == h
    requires x in st && st[x].parent == P
    requires P in lv && lv[P] == h + 1
    requires P in st && st[P].numKeys == 2 * mid
    requires P in rows[h + 1] && x in KidsAt(st, P)
    requires b !in lv && lv1 == lv[b := h]
    requires forall c | c in lv && lv[c] > h :: c in st && c in st1 && st1[c] == st[c]
    requires Spread(st1, stA, lv1, lvA, mid, |rows| - 1, P, los, his)
    requires SplitAt(st1, stA, lv1, lvA, mid, rows, rowsA, h + 1, P, los[P], his[P])
    requires cp == los[P] || cp == his[P]
    requires cp in stA && cp in st2
    requires b in stA && x in KidsAt(stA, cp)
    requires GainsChild(stA[cp], st2[cp], IndexOf(KidsAt(stA, cp), x) + 1, b, 2 * mid)
    requires st2 == stA[cp := st2[cp]][b := stA[b].(parent := cp)]
    requires b in lvA && lvA[b] == h
    requires x in lvA && lvA[x] == h
    requires SameAt(st, st2, lv, lvA, h, x)
    ensures Spread(st, st2, lv, lvA, mid, |rows| - 1, x, los[x := x], his[x := b])
  {
    hide *;
    LinkedRow(st, lv, 2 * mid, rows, h, h);
    LinkedRow(st, lv, 2 * mid, rows, h, h + 1);
    KidsNoDup(st, rows[h + 1], IndexOf(rows[h + 1], P));
    SpreadTwins(st1, stA, lv1, lvA, mid, |rows| - 1, P, los, his);
    SplitTwins(st1, stA, lv1, lvA, mid, rows, rowsA, h + 1, P, los[P], his[P]);
    CascadeSpread(st, st1, stA, st2, lv, lvA, mid, |rows| - 1, x, b, P, cp, los, his);
  }

  lemma OneChanged(st: Store, st': Store, P: nat, b: nat, c: nat)
    requires P in st' && b in st && st' == st[P := st'[P]][b := st[b].(parent := P)] && c != P && c != b
    ensures KidsAt(st', c) == KidsAt(st, c) && (c in st ==> SameButParent(st, st', c))
  {
  }

  lemma SpreadTwins(st: Store, st': Store, lv: map<nat, nat>, lv': map<nat, nat>, mid: nat, top: nat,
                    x: nat, los: map<nat, nat>, his: map<nat, nat>)
    requires Spread(st, st', lv, lv', mid, top, x, los, his)
    ensures x in lv && x in st && 1 <= lv[x] <= top && x in los && x in his
    ensures los[x] in lv' && lv'[los[x]] == lv[x] && his[x] in lv' && lv'[his[x]] == lv[x] && his[x] !in lv
    ensures los[x] == x || los[x] !in lv
  {
  }

  lemma SpreadStep(st: Store, st': Store, lv: map<nat, nat>, lv': map<nat, nat>, mid: nat, top: nat,
                   x: nat, los: map<nat, nat>, his: map<nat, nat>)
    requires x in lv && x in st && 1 <= lv[x] < top && x in los && x in his && los[x] == x
    requires x in lv' && lv'[x] == lv[x] && his[x] in lv' && lv'[his[x]] == lv[x] && his[x] !in lv
    requires st[x].parent in st && st[x].parent in lv && lv[st[x].parent] == lv[x] + 1 && x in KidsAt(st, st[x].parent)
    requires var P, K := st[x].parent, KidsAt(st, st[x].parent);
      && st[P].numKeys == 2 * mid && mid < |K| && P in los && P in his
      && KidsAt(st', los[P]) == Behind(K[..mid + 1], x, his[x])
      && KidsAt(st', his[P]) == Behind(K[mid + 1..], x, his[x])
    requires SameAt(st, st', lv, lv', lv[x], x)
    requires Spread(st, st', lv, lv', mid, top, st[x].parent, los, his)
    ensures Spread(st, st', lv, lv', mid, top, x, los, his)
  {
  }

  lemma RoomIsSpread(st: Store, st': Store, lv: map<nat, nat>, lv': map<nat, nat>, mid: nat, top: nat, x: nat, hi: nat)
    requires x in lv && x in st && 1 <= lv[x] < top && st[x].parent in st && st[st[x].parent].numKeys < 2 * mid
    requires x in KidsAt(st, st[x].parent) && HungAt(st, st', lv, lv', x, hi, IndexOf(KidsAt(st, st[x].parent), x))
    requires x in lv' && lv'[x] == lv[x] && hi in lv' && lv'[hi] == lv[x] && hi !in lv
    requires SameAt(st, st', lv, lv', lv[x], x)
    ensures Spread(st, st', lv, lv', mid, top, x, Only(x, x), Only(x, hi))
  {
  }

  /** The siblings of a halved node keep their children. */
  lemma SiblingsKept(st: Store, st1: Store, st2: Store, lv: map<nat, nat>, lv2: map<nat, nat>, mid: nat,
                     row: seq<nat>, h: nat, x: nat, b: nat, parent: nat)
    requires Levelled(st, lv, 2 * mid) && RowOk(st, lv, row, h) && x in row && h >= 1
    requires SplitsOff(st, st1, mid, x, b, parent) && LowerKept(st1, st2, lv[b := h], lv2, h + 1) && b !in lv
    ensures SameAt(st, st2, lv, lv2, h, x)
  {
    hide *;
    SplitMoves(st, st1, mid, x, b, parent);
    forall d | d in lv && lv[d] == h && d != x
      ensures d in lv2 && lv2[d] == lv[d] && SameButParent(st, st2, d)
    {
      RootOfLevelled(st, lv, 2 * mid, d);
      KeptAt(st1, st2, lv[b := h], lv2, h + 1, d);
      SameTwice(st, st1, st2, d);
    }
    SameAtNow(st, st2, lv, lv2, h, x);
  }

  lemma SameAtNow(st: Store, st': Store, lv: map<nat, nat>, lv': map<nat, nat>, h: nat, p: nat)
    requires forall d | d in lv && lv[d] == h && d != p ::
      d in lv' && lv'[d] == lv[d] && SameButParent(st, st', d)
    ensures SameAt(st, st', lv, lv', h, p)
  {
  }

  lemma SplitTwins(st: Store, st': Store, lv: map<nat, nat>, lv': map<nat, nat>, mid: nat,
                   rows: seq<seq<nat>>, rows': seq<seq<nat>>, k: nat, T: nat, lo: nat, b: nat)
    requires SplitAt(st, st', lv, lv', mid, rows, rows', k, T, lo, b)
    ensures T in st && lo in st' && b in st' && Halves(st[T], st'[lo], st'[b], mid) && lo != b
  {
  }
}
