/** Allocation of blocks by the block bitmap (disk.c), through the cache. */
module Allocator {
  import opened Blocks
  import opened Bitmap
  import opened Layout
  import C = Cache
  import Volume

  // ----- What the operations do to the blocks -----

  /** A disk whose bitmap blocks exist and whose pages fill their blocks. */
  ghost predicate Usable(pages: seq<Page>) {
    |pages| >= 2 && AllFilled(pages)
  }

  lemma BitmapBlockExists(pages: seq<Page>, n: nat)
    requires Usable(pages) && n < |pages|
    ensures 1 <= BitmapBlock(n) < |pages| && HasBit(pages[BitmapBlock(n)], BitmapBit(n))
  {
  }

  /** The bit of block n reads 0. Where no bitmap page is found, nothing is free. */
  ghost predicate Free(pages: seq<Page>, n: nat)
    requires Usable(pages) && n < |pages|
  {
    BitmapBlockExists(pages, n);
    Get(pages[BitmapBlock(n)], BitmapBit(n)) == 0
  }

  /** On a bitmap page that is bit n % USABLE_BLOCK_SIZE of the page, in words of 64, each from its low end. */
  lemma FreeIsWordBit(pages: seq<Page>, n: nat, at: bv6)
    requires Usable(pages) && n < |pages| && pages[1 + n / USABLE_BLOCK_SIZE].BitmapPage?
    requires at as int == n % USABLE_BLOCK_SIZE % 64
    ensures n % USABLE_BLOCK_SIZE / 64 < |pages[1 + n / USABLE_BLOCK_SIZE].words|
    ensures Free(pages, n) <==> (pages[1 + n / USABLE_BLOCK_SIZE].words[n % USABLE_BLOCK_SIZE / 64] >> at) & 1 == 0
  {
    BitmapBlockExists(pages, n);
    hide Get;
    GetRange(pages[BitmapBlock(n)], BitmapBit(n));
    SameAt(BitmapBit(n), at);
  }

  ghost predicate FirstFree(pages: seq<Page>, n: nat)
    requires Usable(pages)
  {
    n < |pages| && Free(pages, n) && forall k: nat | k < n :: !Free(pages, k)
  }

  ghost predicate Full(pages: seq<Page>)
    requires Usable(pages)
  {
    forall k: nat | k < |pages| :: !Free(pages, k)
  }

  /** An unsigned 64-bit counter, one less. */
  function Down(x: nat): nat {
    if x == 0 then 0xFFFF_FFFF_FFFF_FFFF else x - 1
  }

  /** The superblock counts down; a block 0 under another type is left alone. */
  function Counted(pages: seq<Page>): (r: seq<Page>)
    requires |pages| > 0
    ensures |r| == |pages| && forall b | 0 < b < |pages| :: r[b] == pages[b]
  {
    if pages[0].SuperPage? then
      var super := pages[0].super;
      pages[0 := SuperPage(super.(freeBlocks := Down(super.freeBlocks)))]
    else pages
  }

  /** The blocks after block n was marked used (v = 1) or free (v = 0). */
  ghost function Marked(pages: seq<Page>, n: nat, v: int): (r: seq<Page>)
    requires Usable(pages) && n < |pages|
    ensures |r| == |pages|
  {
    BitmapBlockExists(pages, n);
    Counted(pages)[BitmapBlock(n) := With(pages[BitmapBlock(n)], BitmapBit(n), v)]
  }

  lemma MarkedUsable(pages: seq<Page>, n: nat, v: int)
    requires Usable(pages) && n < |pages|
    ensures Usable(Marked(pages, n, v))
    ensures forall b | 0 <= b < |pages| && b != 0 && b != BitmapBlock(n) :: Marked(pages, n, v)[b] == pages[b]
  {
    BitmapBlockExists(pages, n);
  }

  /** Taking and giving back alike lower the counter by one, modulo 2 to the 64; the rest of the superblock stays. */
  lemma MarkedCounter(pages: seq<Page>, n: nat, v: int)
    requires Usable(pages) && n < |pages| && pages[0].SuperPage?
    requires pages[0].super.freeBlocks < 0x1_0000_0000_0000_0000
    ensures Marked(pages, n, v)[0].SuperPage?
    ensures var counter := (pages[0].super.freeBlocks + 0xFFFF_FFFF_FFFF_FFFF) % 0x1_0000_0000_0000_0000;
      Marked(pages, n, v)[0].super == pages[0].super.(freeBlocks := counter)
  {
    BitmapBlockExists(pages, n);
  }

  /** Marking one block leaves the bits of all others. */
  lemma MarkedBits(pages: seq<Page>, n: nat, v: int, k: nat)
    requires Usable(pages) && n < |pages| && k < |pages| && pages[BitmapBlock(n)].BitmapPage?
    ensures Usable(Marked(pages, n, v))
    ensures Free(Marked(pages, n, v), k) <==> if k == n then v == 0 else Free(pages, k)
  {
    hide Get, With;
    MarkedUsable(pages, n, v);
    BitmapBlockExists(pages, n);
    BitmapBlockExists(pages, k);
    if BitmapBlock(k) == BitmapBlock(n) {
      GetAfterPut(pages[BitmapBlock(n)], BitmapBit(n), BitmapBit(k), v);
      SameBit(n, k);
    }
  }

  lemma SameBit(n: nat, k: nat)
    requires BitmapBlock(k) == BitmapBlock(n)
    ensures BitmapBit(k) == BitmapBit(n) <==> k == n
  {
  }

  // ----- The operations -----

  method SuperRead(cache: C.Cache) returns (rv: int, super: Superblock)
    requires cache.Valid() && |cache.Contents()| > 0
    modifies cache.Repr
    ensures cache.Valid() && fresh(cache.Repr - old(cache.Repr)) && cache.Contents() == old(cache.Contents())
    ensures cache.Contents()[0].SuperPage? ==> rv == 0 && super == cache.Contents()[0].super
    ensures !cache.Contents()[0].SuperPage? ==> rv == -1
  {
    hide *;
    var page := Volume.Read(cache, 0, 0);
    if page.SuperPage? {
      rv, super := 0, page.super;
    } else {
      rv, super := -1, Superblock(0, 0, 0, 0);
    }
  }

  method SuperWrite(cache: C.Cache, super: Superblock) returns (rv: int)
    requires cache.Valid() && |cache.Contents()| > 0
    modifies cache.Repr
    ensures cache.Valid() && fresh(cache.Repr - old(cache.Repr))
    ensures old(cache.Contents())[0].SuperPage? ==>
      rv == 0 && cache.Contents() == old(cache.Contents())[0 := SuperPage(super)]
    ensures !old(cache.Contents())[0].SuperPage? ==> rv == -1 && cache.Contents() == old(cache.Contents())
  {
    hide *;
    var page := Volume.Read(cache, 0, 0);
    if !page.SuperPage? { return -1; }
    Volume.Write(cache, SuperPage(super), 0, 0);
    rv := 0;
  }

  /** Allocates the first free block; 0 when there is none. */
  method AllocPage(cache: C.Cache) returns (n: nat)
    requires cache.Valid() && Usable(cache.Contents())
    modifies cache.Repr
    ensures cache.Valid() && fresh(cache.Repr - old(cache.Repr))
    ensures Full(old(cache.Contents())) ==> n == 0 && cache.Contents() == old(cache.Contents())
    ensures !Full(old(cache.Contents())) ==>
      FirstFree(old(cache.Contents()), n) && cache.Contents() == Marked(old(cache.Contents()), n, 1)
  {
    hide *;
    ghost var pages := cache.Contents();
    UsableSize(pages);
    var total := TotalBlocks(cache);
    var pbmn := 1;
    var pbm := Volume.Read(cache, 0, pbmn);
    var rv, super := SuperRead(cache);
    var ii := 0;
    while ii < total
      invariant 0 <= ii <= total == |pages|
      invariant cache.Valid() && fresh(cache.Repr - old(cache.Repr)) && cache.Contents() == pages
      invariant pbmn < |pages| && pbm == pages[pbmn] && pbmn >= 1
      invariant ii == 0 ==> pbmn == 1
      invariant ii > 0 ==> pbmn == BitmapBlock(ii - 1)
      invariant forall k: nat | k < ii :: !Free(pages, k)
    {
      Advance(ii, pbmn);
      FreeBit(pages, ii);
      if ii % USABLE_BLOCK_SIZE == 0 && ii != 0 {
        pbmn := pbmn + 1;
        pbm := Volume.Read(cache, 0, pbmn);
      }
      DirectBit(ii, pbmn);
      var bit := ii - (pbmn - 1) * USABLE_BLOCK_SIZE;
      if Get(pbm, bit) == 0 {
        var marked, failed := Put(pbm, bit, 1);
        rv := SuperWrite(cache, super.(freeBlocks := Down(super.freeBlocks)));
        Volume.Write(cache, marked, 0, pbmn);
        MarkedIs(pages, ii, 1);
        FoundFirst(pages, ii);
        return ii;
      }
      ii := ii + 1;
    }
    AllTaken(pages);
    return 0;
  }

  method FreePage(cache: C.Cache, n: nat)
    requires cache.Valid() && Usable(cache.Contents()) && n < |cache.Contents()|
    modifies cache.Repr
    ensures cache.Valid() && fresh(cache.Repr - old(cache.Repr))
    ensures cache.Contents() == Marked(old(cache.Contents()), n, 0)
  {
    hide *;
    ghost var pages := cache.Contents();
    UsableSize(pages);
    FreeBit(pages, n);
    var pbmn := 1 + n / USABLE_BLOCK_SIZE;
    DirectBit(n, pbmn);
    var pbm := Volume.Read(cache, 0, pbmn);
    var rv, super := SuperRead(cache);
    var bit := n - (pbmn - 1) * USABLE_BLOCK_SIZE;
    var marked, failed := Put(pbm, bit, 0);
    rv := SuperWrite(cache, super.(freeBlocks := Down(super.freeBlocks)));
    Volume.Write(cache, marked, 0, pbmn);
    MarkedIs(pages, n, 0);
  }

  /** The number of blocks of the disk. */
  method TotalBlocks(cache: C.Cache) returns (total: nat)
    requires cache.Valid()
    ensures total == |cache.Contents()|
  {
    hide *;
    Volume.ContentsSize(cache);
    total := cache.DiskSize();
  }

  lemma UsableSize(pages: seq<Page>)
    requires Usable(pages)
    ensures |pages| >= 2 && USABLE_BLOCK_SIZE > 0
  {
  }

  /** The running position of the scan is the one that free_page computes directly. */
  lemma Advance(n: nat, pbmn: nat)
    requires n == 0 ==> pbmn == 1
    requires n > 0 ==> pbmn == BitmapBlock(n - 1)
    ensures BitmapBlock(n) == if n % USABLE_BLOCK_SIZE == 0 && n != 0 then pbmn + 1 else pbmn
  {
  }

  lemma DirectBit(n: nat, pbmn: nat)
    requires pbmn == BitmapBlock(n) || pbmn == 1 + n / USABLE_BLOCK_SIZE
    ensures pbmn == BitmapBlock(n) && n - (pbmn - 1) * USABLE_BLOCK_SIZE == BitmapBit(n)
  {
  }

  lemma FreeBit(pages: seq<Page>, n: nat)
    requires Usable(pages) && n < |pages|
    ensures 1 <= BitmapBlock(n) < |pages| && HasBit(pages[BitmapBlock(n)], BitmapBit(n))
    ensures Free(pages, n) <==> Get(pages[BitmapBlock(n)], BitmapBit(n)) == 0
  {
  }

  lemma MarkedIs(pages: seq<Page>, n: nat, v: int)
    requires Usable(pages) && n < |pages|
    ensures 1 <= BitmapBlock(n) < |pages| && HasBit(pages[BitmapBlock(n)], BitmapBit(n))
    ensures pages[0].SuperPage? ==>
      var counted := SuperPage(pages[0].super.(freeBlocks := Down(pages[0].super.freeBlocks)));
      Marked(pages, n, v) == pages[0 := counted][BitmapBlock(n) := With(pages[BitmapBlock(n)], BitmapBit(n), v)]
    ensures !pages[0].SuperPage? ==>
      Marked(pages, n, v) == pages[BitmapBlock(n) := With(pages[BitmapBlock(n)], BitmapBit(n), v)]
  {
  }

  lemma FoundFirst(pages: seq<Page>, n: nat)
    requires Usable(pages) && n < |pages| && Free(pages, n) && forall k: nat | k < n :: !Free(pages, k)
    ensures !Full(pages) && FirstFree(pages, n)
  {
  }

  lemma AllTaken(pages: seq<Page>)
    requires Usable(pages) && forall k: nat | k < |pages| :: !Free(pages, k)
    ensures Full(pages)
  {
  }

  // ----- Runs of allocations and releases -----

  /** The set bits of the block bitmap are exactly the live blocks. */
  ghost predicate Tracks(pages: seq<Page>, live: set<nat>) {
    && Usable(pages)
    && (forall n: nat | n < |pages| :: pages[BitmapBlock(n)].BitmapPage? && (n in live <==> !Free(pages, n)))
    && forall n | n in live :: n < |pages|
  }

  datatype Op = Alloc | Release(block: nat)

  /** The lowest block from k on that is not live; total when there is none. */
  function Lowest(live: set<nat>, k: nat, total: nat): (n: nat)
    requires k <= total
    ensures k <= n <= total && (n < total ==> n !in live) && forall i | k <= i < n :: i in live
    decreases total - k
  {
    if k < total && k in live then Lowest(live, k + 1, total) else k
  }

  function LiveAfter(live: set<nat>, op: Op, total: nat): set<nat> {
    match op
    case Alloc => var n := Lowest(live, 0, total); if n < total then live + {n} else live
    case Release(n) => live - {n}
  }

  function Answer(live: set<nat>, op: Op, total: nat): nat {
    match op
    case Alloc => var n := Lowest(live, 0, total); if n < total then n else 0
    case Release(_) => 0
  }

  function LiveAfterAll(live: set<nat>, ops: seq<Op>, total: nat): set<nat>
    decreases ops
  {
    if ops == [] then live else LiveAfterAll(LiveAfter(live, ops[0], total), ops[1..], total)
  }

  function Answers(live: set<nat>, ops: seq<Op>, total: nat): seq<nat>
    decreases ops
  {
    if ops == [] then [] else [Answer(live, ops[0], total)] + Answers(LiveAfter(live, ops[0], total), ops[1..], total)
  }

  predicate InRange(ops: seq<Op>, total: nat) {
    forall i | 0 <= i < |ops| :: ops[i].Release? ==> ops[i].block < total
  }

  lemma MarkTracks(pages: seq<Page>, live: set<nat>, n: nat, v: int)
    requires Tracks(pages, live) && n < |pages|
    ensures Tracks(Marked(pages, n, v), if v == 0 then live - {n} else live + {n})
  {
    hide Get, With, Free, Counted;
    MarkedUsable(pages, n, v);
    forall k: nat | k < |pages|
      ensures Marked(pages, n, v)[BitmapBlock(k)].BitmapPage?
      ensures Free(Marked(pages, n, v), k) <==> if k == n then v == 0 else Free(pages, k)
    {
      MarkedBits(pages, n, v, k);
      MarkedTag(pages, n, v, k);
    }
  }

  lemma MarkedTag(pages: seq<Page>, n: nat, v: int, k: nat)
    requires Usable(pages) && n < |pages| && k < |pages| && pages[BitmapBlock(n)].BitmapPage?
    requires pages[BitmapBlock(k)].BitmapPage?
    ensures Marked(pages, n, v)[BitmapBlock(k)].BitmapPage?
  {
    BitmapBlockExists(pages, k);
  }

  lemma FirstIsLowest(pages: seq<Page>, live: set<nat>)
    requires Tracks(pages, live)
    ensures Full(pages) <==> Lowest(live, 0, |pages|) == |pages|
    ensures forall n: nat | FirstFree(pages, n) :: n == Lowest(live, 0, |pages|)
  {
    hide Free;
    var l := Lowest(live, 0, |pages|);
    forall n: nat | FirstFree(pages, n)
      ensures n == l
    {
      assert n < l ==> n in live;
      assert l < |pages| ==> Free(pages, l);
    }
  }

  method Perform(cache: C.Cache, op: Op, ghost live: set<nat>) returns (answer: nat)
    requires cache.Valid() && Tracks(cache.Contents(), live) && (op.Release? ==> op.block < |cache.Contents()|)
    modifies cache.Repr
    ensures cache.Valid() && fresh(cache.Repr - old(cache.Repr)) && |cache.Contents()| == |old(cache.Contents())|
    ensures Tracks(cache.Contents(), LiveAfter(live, op, |cache.Contents()|))
    ensures answer == Answer(live, op, |cache.Contents()|)
  {
    hide cache.Valid, cache.Contents, Free, Get, Marked, Full, FirstFree;
    ghost var pages := cache.Contents();
    match op
    case Alloc =>
      FirstIsLowest(pages, live);
      answer := AllocPage(cache);
      if !Full(pages) {
        FirstInRange(pages, answer);
        MarkTracks(pages, live, answer, 1);
      }
    case Release(n) =>
      FreePage(cache, n);
      MarkTracks(pages, live, n, 0);
      answer := 0;
  }

  lemma FirstInRange(pages: seq<Page>, n: nat)
    requires Usable(pages) && FirstFree(pages, n)
    ensures n < |pages|
  {
  }

  /**
    Over any run the set bits are the live blocks, and each allocation gets the lowest block that is
    not live, so never a live one.
   */
  method Run(cache: C.Cache, ops: seq<Op>, ghost live: set<nat>) returns (answers: seq<nat>)
    requires cache.Valid() && Tracks(cache.Contents(), live) && InRange(ops, |cache.Contents()|)
    modifies cache.Repr
    ensures cache.Valid() && fresh(cache.Repr - old(cache.Repr)) && |cache.Contents()| == |old(cache.Contents())|
    ensures Tracks(cache.Contents(), LiveAfterAll(live, ops, |cache.Contents()|))
    ensures answers == Answers(live, ops, |cache.Contents()|)
  {
    hide *;
    answers := [];
    ghost var now, total := live, |cache.Contents()|;
    var i := 0;
    assert ops[0..] == ops;
    while i < |ops|
      invariant 0 <= i <= |ops| && cache.Valid() && fresh(cache.Repr - old(cache.Repr)) && |cache.Contents()| == total
      invariant Tracks(cache.Contents(), now)
      invariant LiveAfterAll(live, ops, total) == LiveAfterAll(now, ops[i..], total)
      invariant Answers(live, ops, total) == answers + Answers(now, ops[i..], total)
    {
      OneStep(now, ops, i, total);
      var answer := Perform(cache, ops[i], now);
      now := LiveAfter(now, ops[i], total);
      answers := answers + [answer];
      i := i + 1;
    }
    NoStep(now, ops[i..], total);
  }

  lemma OneStep(live: set<nat>, ops: seq<Op>, i: nat, total: nat)
    requires i < |ops| && InRange(ops, total)
    ensures ops[i].Release? ==> ops[i].block < total
    ensures LiveAfterAll(live, ops[i..], total) == LiveAfterAll(LiveAfter(live, ops[i], total), ops[i + 1..], total)
    ensures Answers(live, ops[i..], total) ==
      [Answer(live, ops[i], total)] + Answers(LiveAfter(live, ops[i], total), ops[i + 1..], total)
  {
    assert ops[i..][0] == ops[i] && ops[i..][1..] == ops[i + 1..];
  }

  lemma NoStep(live: set<nat>, ops: seq<Op>, total: nat)
    requires ops == []
    ensures LiveAfterAll(live, ops, total) == live && Answers(live, ops, total) == []
  {
  }
}
