/**
  Making a file system on a zeroed disk (disk_format in disk.c). Setting the type of a block of
  zeros makes it read as an empty page of that type.
 */
module Format {
  import opened Blocks
  import opened Bitmap
  import opened Layout
  import opened Allocator
  import opened InodeTable
  import C = Cache
  import Volume

  function BlankInode(): Inode {
    Inode(0, 0, seq(DIRECT_BLOCKS, _ => 0))
  }

  function BlankData(): Page {
    DataPage(seq(USABLE_BLOCK_SIZE, _ => 0))
  }

  function BlankBitmap(): Page {
    BitmapPage(seq(BITMAP_WORDS, _ => 0))
  }

  function BlankInodes(): Page {
    InodePage(seq(INODES_PER_PAGE, _ => BlankInode()))
  }

  ghost predicate Zeroed(pages: seq<Page>) {
    forall b | 0 <= b < |pages| :: pages[b] == BlankData()
  }

  lemma BlankBit(k: nat)
    requires k < USABLE_BLOCK_SIZE
    ensures HasBit(BlankBitmap(), k) && Get(BlankBitmap(), k) == 0
  {
    ZeroWord(BitAt(k));
  }

  lemma ZeroWord(k: bv6)
    ensures BitOf(0, k) == 0
  {
  }

  /** What stands in block b, from the inode bitmap on, before anything is stored there. */
  function BlankAt(total: nat, b: nat): Page {
    if b < InodeTableStart(total) then BlankBitmap() else if b < Reserved(total) then BlankInodes() else BlankData()
  }

  /** The first i blocks are used, and nothing is stored in the blocks from the inode bitmap on. */
  ghost predicate Stage(pages: seq<Page>, i: nat) {
    && Mounted(pages)
    && (forall n: nat | n < |pages| :: Free(pages, n) <==> n >= i)
    && forall b | InodeBitmapStart(|pages|) <= b < |pages| :: pages[b] == BlankAt(|pages|, b)
  }

  /** All blocks under their types, and nothing used. */
  ghost predicate Typed(pages: seq<Page>) {
    var total := |pages|;
    && total >= 88
    && pages[0].SuperPage? && pages[0].super.totalBlocks == total
    && pages[0].super.inodeBitmap == InodeBitmapStart(total)
    && (forall b | 1 <= b < InodeTableStart(total) && b < total :: pages[b] == BlankBitmap())
    && (forall b | InodeTableStart(total) <= b < total :: pages[b] == BlankAt(total, b))
  }

  lemma TypedIsStage(pages: seq<Page>)
    requires Typed(pages)
    ensures Stage(pages, 0)
  {
    EnoughBlocks(|pages|);
    assert Filled(BlankBitmap()) && Filled(BlankInodes()) && Filled(BlankData());
    hide BlankBitmap, BlankInodes, BlankData;
    TypedFilled(pages);
    forall n: nat | n < |pages|
      ensures Free(pages, n)
    {
      BitmapCovers(|pages|, n);
      BlankBit(BitmapBit(n));
    }
  }

  lemma TypedFilled(pages: seq<Page>)
    requires Typed(pages)
    ensures AllFilled(pages)
  {
    EnoughBlocks(|pages|);
    assert Filled(BlankBitmap()) && Filled(BlankInodes()) && Filled(BlankData());
    hide BlankBitmap, BlankInodes, BlankData, Filled, InodeTableStart, Reserved;
    forall b | 0 <= b < |pages|
      ensures Filled(pages[b])
    {
      if b == 0 { assert pages[0].SuperPage? && Filled(pages[0]) by { SuperFilled(pages[0]); } }
    }
  }

  lemma SuperFilled(p: Page)
    requires p.SuperPage?
    ensures Filled(p)
  {
  }

  /** The next allocation takes the next block. */
  lemma StageNext(pages: seq<Page>, i: nat)
    requires Stage(pages, i) && i < |pages|
    ensures Usable(pages) && FirstFree(pages, i) && !Full(pages) && forall n: nat | FirstFree(pages, n) :: n == i
    ensures Stage(Marked(pages, i, 1), i + 1)
  {
    var pages' := Marked(pages, i, 1);
    MarkedUsable(pages, i, 1);
    BitmapCovers(|pages|, i);
    EnoughBlocks(|pages|);
    hide Get, With, Free;
    forall n: nat | n < |pages|
      ensures Free(pages', n) <==> n >= i + 1
    {
      MarkedBits(pages, i, 1, n);
    }
    hide InodeTableStart, InodeBitmapStart, InodeTableSize, Reserved;
    assert pages'[BitmapBlock(i)].BitmapPage?;
  }

  // ----- The operations -----

  /** A new superblock, unless the volume name is too long. */
  method SuperInitialize(cache: C.Cache, nameLength: nat) returns (rv: int)
    requires cache.Valid() && |cache.Contents()| > 0
    modifies cache.Repr
    ensures cache.Valid() && fresh(cache.Repr - old(cache.Repr))
    ensures nameLength > 31 ==> rv == -1 && cache.Contents() == old(cache.Contents())
    ensures nameLength <= 31 ==>
      && rv == 0
      && var total := |old(cache.Contents())|;
         cache.Contents() == old(cache.Contents())[0 := SuperPage(Superblock(total, total, InodeBitmapStart(total), 0))]
  {
    hide cache.Valid, cache.Contents;
    if nameLength > 31 { return -1; }
    var total := TotalBlocks(cache);
    var bitmap := if total % USABLE_BLOCK_SIZE != 0 then total / USABLE_BLOCK_SIZE + 1 else total / USABLE_BLOCK_SIZE;
    Volume.Write(cache, SuperPage(Superblock(total, total, 1 + bitmap, 0)), 0, 0);
    return 0;
  }

  /** Gives the blocks from lo to hi a type, blank. */
  method SetType(cache: C.Cache, lo: nat, hi: nat, blank: Page)
    requires cache.Valid() && lo <= hi <= |cache.Contents()|
    modifies cache.Repr
    ensures cache.Valid() && fresh(cache.Repr - old(cache.Repr)) && |cache.Contents()| == |old(cache.Contents())|
    ensures forall b | 0 <= b < |cache.Contents()| ::
      cache.Contents()[b] == if lo <= b < hi then blank else old(cache.Contents())[b]
  {
    hide *;
    for i := lo to hi
      invariant cache.Valid() && fresh(cache.Repr - old(cache.Repr)) && |cache.Contents()| == |old(cache.Contents())|
      invariant forall b | 0 <= b < |cache.Contents()| ::
        cache.Contents()[b] == if lo <= b < i then blank else old(cache.Contents())[b]
    {
      Volume.Write(cache, blank, 0, i);
    }
  }

  /** What a formatted disk looks like: exactly the reserved blocks, the root of the tree and inode 0 are taken. */
  ghost predicate Formatted(pages: seq<Page>) {
    var total := |pages|;
    && Mounted(pages)
    && pages[0].super == Superblock(total, total, InodeBitmapStart(total), Reserved(total))
    && pages[Reserved(total)].NodePage?
    && (forall n: nat | n < total :: Free(pages, n) <==> n > Reserved(total))
    && (forall n: nat | n < InodeBits(total) :: InodeFree(pages, n) <==> n > 0)
    && (forall n: nat | n < Inodes(total) :: InodeAt(pages, n) == BlankInode())
    && (forall b | Reserved(total) < b < total :: pages[b] == BlankData())
  }

  method ReserveBlocks(cache: C.Cache, count: nat) returns (rv: int)
    requires cache.Valid() && Stage(cache.Contents(), 0) && 1 <= count <= |cache.Contents()|
    modifies cache.Repr
    ensures cache.Valid() && fresh(cache.Repr - old(cache.Repr)) && |cache.Contents()| == |old(cache.Contents())|
    ensures rv == 0 && Stage(cache.Contents(), count)
  {
    hide *;
    StageNext(cache.Contents(), 0);
    var n := AllocPage(cache);
    for i := 1 to count
      invariant cache.Valid() && fresh(cache.Repr - old(cache.Repr)) && |cache.Contents()| == |old(cache.Contents())|
      invariant Stage(cache.Contents(), i)
    {
      StageNext(cache.Contents(), i);
      n := AllocPage(cache);
      if n == 0 { return -1; }
    }
    return 0;
  }

  /** Formats a zeroed disk: the root of the tree lands right behind the inode table. */
  method DiskFormat(cache: C.Cache, nameLength: nat) returns (rv: int, root: nat)
    requires cache.Valid() && Zeroed(cache.Contents()) && |cache.Contents()| >= 88 && nameLength <= 31
    modifies cache.Repr
    ensures cache.Valid() && fresh(cache.Repr - old(cache.Repr)) && |cache.Contents()| == |old(cache.Contents())|
    ensures rv == 0 && root == Reserved(|cache.Contents()|)
    ensures Formatted(cache.Contents())
  {
    hide *;
    ghost var total := |cache.Contents()|;
    Sizes(total);
    ZeroedIs(cache.Contents());
    var initialized := SuperInitialize(cache, nameLength);
    var read, super := SuperRead(cache);
    var inodeTable := super.inodeBitmap + InodeBitmapSize(super.totalBlocks);
    var end := inodeTable + InodeTableSize(super.totalBlocks);
    SetType(cache, 1, inodeTable, BlankBitmap());
    SetType(cache, inodeTable, end, BlankInodes());
    TypedNow(cache.Contents());
    TypedIsStage(cache.Contents());
    rv := ReserveBlocks(cache, end);
    StageNext(cache.Contents(), end);
    root := AllocPage(cache);
    ghost var reserved := cache.Contents();
    Volume.Write(cache, NodePage, 0, root);
    ghost var withRoot := cache.Contents();
    RootWritten(reserved, withRoot);
    RootKept(reserved, withRoot);
    var inode := InodeAllocate(cache);
    TakenZero(withRoot);
    ghost var taken := cache.Contents();
    var written := SuperWrite(cache, super.(btreeRoot := root));
    FormattedNow(taken, cache.Contents());
    return 0, root;
  }

  lemma Sizes(total: nat)
    requires total >= 88
    ensures 1 <= InodeBitmapStart(total) < InodeTableStart(total) < Reserved(total) < total
    ensures InodeTableStart(total) == InodeBitmapStart(total) + InodeBitmapSize(total)
    ensures Reserved(total) == InodeTableStart(total) + InodeTableSize(total)
  {
    EnoughBlocks(total);
  }

  lemma ZeroedIs(pages: seq<Page>)
    requires Zeroed(pages)
    ensures forall b | 0 <= b < |pages| :: pages[b] == BlankData()
  {
  }

  lemma TypedNow(pages: seq<Page>)
    requires |pages| >= 88
    requires pages[0] == SuperPage(Superblock(|pages|, |pages|, InodeBitmapStart(|pages|), 0))
    requires forall b | 1 <= b < InodeTableStart(|pages|) && b < |pages| :: pages[b] == BlankBitmap()
    requires forall b | InodeTableStart(|pages|) <= b < Reserved(|pages|) && b < |pages| :: pages[b] == BlankInodes()
    requires forall b | Reserved(|pages|) <= b < |pages| :: pages[b] == BlankData()
    ensures Typed(pages)
  {
    Sizes(|pages|);
  }

  /** The root of the tree is written into the first block behind the reserved ones. */
  lemma RootWritten(pages: seq<Page>, pages': seq<Page>)
    requires Stage(pages, Reserved(|pages|) + 1) && Reserved(|pages|) < |pages|
    requires pages' == pages[Reserved(|pages|) := NodePage]
    ensures Mounted(pages') && pages'[0] == pages[0] && pages[0].SuperPage? && 0 < InodeBits(|pages|)
    ensures Usable(pages) && Usable(pages')
    ensures forall n: nat | n < |pages| ::
      (Free(pages', n) <==> Free(pages, n)) && (Free(pages, n) <==> n > Reserved(|pages|))
    ensures forall n: nat | FirstFreeInode(pages', n) :: n == 0
    ensures FirstFreeInode(pages', 0) && InodeBlock(pages'[0].super, 0) == InodeTableStart(|pages|) < |pages|
    ensures pages'[InodeTableStart(|pages|)] == BlankInodes() && BlankInodes().InodePage?
  {
    hide *;
    StageFacts(pages, Reserved(|pages|) + 1);
    NodeMounted(pages, Reserved(|pages|));
    forall n: nat | n < |pages|
      ensures Free(pages', n) <==> Free(pages, n)
    {
      SameBitmap(pages, pages', n);
    }
    BlankInodeBits(pages');
    FirstInode(pages');
    BlankInodesType();
  }

  lemma BlankInodesType()
    ensures BlankInodes().InodePage?
  {
  }

  lemma StageFacts(pages: seq<Page>, i: nat)
    requires Stage(pages, i)
    ensures Mounted(pages) && Usable(pages) && |pages| > 0 && pages[0].SuperPage?
    ensures 0 < InodeBitmapStart(|pages|) < InodeTableStart(|pages|) < Reserved(|pages|) < |pages|
    ensures forall n: nat | n < |pages| :: Free(pages, n) <==> n >= i
    ensures forall b | InodeBitmapStart(|pages|) <= b < InodeTableStart(|pages|) :: pages[b] == BlankBitmap()
    ensures forall b | InodeTableStart(|pages|) <= b < Reserved(|pages|) :: pages[b] == BlankInodes()
    ensures forall b | Reserved(|pages|) <= b < |pages| :: pages[b] == BlankData()
  {
    EnoughBlocks(|pages|);
  }

  lemma NodeMounted(pages: seq<Page>, b: nat)
    requires Mounted(pages) && Reserved(|pages|) <= b < |pages|
    ensures Mounted(pages[b := NodePage]) && Usable(pages[b := NodePage])
  {
    FilledUpdate(pages, b);
    EnoughBlocks(|pages|);
    hide InodeTableStart, InodeBitmapStart, InodeTableSize, Reserved, AllFilled;
  }

  lemma FirstInode(pages: seq<Page>)
    requires Mounted(pages) && forall n: nat | n < InodeBits(|pages|) :: InodeFree(pages, n)
    ensures 0 < InodeBits(|pages|) && FirstFreeInode(pages, 0) && forall n: nat | FirstFreeInode(pages, n) :: n == 0
    ensures InodeBlock(pages[0].super, 0) == InodeTableStart(|pages|) < |pages|
  {
    EnoughBlocks(|pages|);
  }

  lemma FilledUpdate(pages: seq<Page>, b: nat)
    requires AllFilled(pages) && b < |pages|
    ensures AllFilled(pages[b := NodePage])
  {
  }

  lemma BlankInodeBits(pages: seq<Page>)
    requires Mounted(pages)
    requires forall b | InodeBitmapStart(|pages|) <= b < InodeTableStart(|pages|) :: pages[b] == BlankBitmap()
    ensures forall n: nat | n < InodeBits(|pages|) :: InodeFree(pages, n)
  {
    forall n: nat | n < InodeBits(|pages|)
      ensures InodeFree(pages, n)
    {
      InodeBitPlace(pages, n);
      BlankBit(n % USABLE_BLOCK_SIZE);
    }
  }

  /** Formatted but for the superblock's pointer to the tree; taken says whether inode 0 is. */
  ghost predicate Rooted(pages: seq<Page>, taken: bool) {
    var total := |pages|;
    && Mounted(pages)
    && pages[Reserved(total)].NodePage?
    && (forall n: nat | n < total :: Free(pages, n) <==> n > Reserved(total))
    && (forall n: nat | n < InodeBits(total) :: InodeFree(pages, n) <==> !taken || n > 0)
    && (forall b | InodeTableStart(total) <= b < Reserved(total) :: pages[b] == BlankInodes())
    && (forall b | Reserved(total) < b < total :: pages[b] == BlankData())
  }

  lemma RootKept(pages: seq<Page>, pages': seq<Page>)
    requires Stage(pages, Reserved(|pages|) + 1) && Reserved(|pages|) < |pages|
    requires pages' == pages[Reserved(|pages|) := NodePage]
    ensures Rooted(pages', false)
  {
    RootWritten(pages, pages');
    EnoughBlocks(|pages|);
    hide BlankBitmap, BlankInodes, BlankData, Free, InodeTableStart, InodeBitmapStart, InodeTableSize, Reserved;
    BlankInodeBits(pages');
  }

  lemma TakenZero(pages: seq<Page>)
    requires Rooted(pages, false) && InodeBlock(pages[0].super, 0) == InodeTableStart(|pages|) < |pages|
    requires FirstFreeInode(pages, 0) && pages[InodeTableStart(|pages|)].InodePage?
    ensures Rooted(InodeTaken(pages, 0), true) && InodeTaken(pages, 0)[0] == pages[0]
    ensures |InodeTaken(pages, 0)| == |pages|
  {
    hide *;
    RootedFacts(pages, false);
    InodeTakenIs(pages, 0);
    BitsStart(|pages|);
    var m, pages' := InodeBitmapStart(|pages|), InodeTaken(pages, 0);
    BlankNumber(pages[InodeTableStart(|pages|)]);
    assert pages' == pages[m := With(pages[m], 0, 1)];
    BitMounted(pages, m);
    forall n: nat | n < |pages|
      ensures Free(pages', n) <==> Free(pages, n)
    {
      SameBitmap(pages, pages', n);
    }
    forall n: nat | n < InodeBits(|pages|)
      ensures InodeFree(pages', n) <==> n > 0
    {
      OneInodeBit(pages, pages', n);
    }
    RootedNow(pages', true);
  }

  lemma BitsStart(total: nat)
    ensures InodeBitmapStart(total) + 0 / USABLE_BLOCK_SIZE == InodeBitmapStart(total) && 0 % USABLE_BLOCK_SIZE == 0
    ensures 0 % INODES_PER_PAGE == 0
  {
  }

  lemma RootedFacts(pages: seq<Page>, taken: bool)
    requires Rooted(pages, taken)
    ensures Mounted(pages) && Usable(pages) && |pages| > 0 && 0 < InodeBits(|pages|)
    ensures 1 <= InodeBitmapStart(|pages|) < InodeTableStart(|pages|) < Reserved(|pages|) < |pages|
    ensures pages[InodeBitmapStart(|pages|)].BitmapPage? && Filled(pages[InodeBitmapStart(|pages|)])
    ensures pages[Reserved(|pages|)].NodePage?
    ensures forall n: nat | n < |pages| :: Free(pages, n) <==> n > Reserved(|pages|)
    ensures forall n: nat | n < InodeBits(|pages|) :: InodeFree(pages, n) <==> !taken || n > 0
    ensures forall b | InodeTableStart(|pages|) <= b < Reserved(|pages|) :: pages[b] == BlankInodes()
    ensures forall b | Reserved(|pages|) < b < |pages| :: pages[b] == BlankData()
  {
    EnoughBlocks(|pages|);
  }

  lemma RootedNow(pages: seq<Page>, taken: bool)
    requires Mounted(pages) && pages[Reserved(|pages|)].NodePage?
    requires forall n: nat | n < |pages| :: Free(pages, n) <==> n > Reserved(|pages|)
    requires forall n: nat | n < InodeBits(|pages|) :: InodeFree(pages, n) <==> !taken || n > 0
    requires forall b | InodeTableStart(|pages|) <= b < Reserved(|pages|) :: pages[b] == BlankInodes()
    requires forall b | Reserved(|pages|) < b < |pages| :: pages[b] == BlankData()
    ensures Rooted(pages, taken)
  {
  }

  lemma BitMounted(pages: seq<Page>, m: nat)
    requires Mounted(pages) && 1 <= m < InodeTableStart(|pages|) && m < |pages| && pages[m].BitmapPage?
    ensures HasBit(pages[m], 0) && Mounted(pages[m := With(pages[m], 0, 1)]) && Usable(pages[m := With(pages[m], 0, 1)])
  {
    BitmapFilled(pages[m]);
    hide InodeTableStart, InodeBitmapStart, InodeTableSize, Reserved, Filled, With;
  }

  lemma OneInodeBit(pages: seq<Page>, pages': seq<Page>, n: nat)
    requires Mounted(pages) && Mounted(pages') && |pages'| == |pages| && 0 < InodeBits(|pages|)
    requires n < InodeBits(|pages|)
    requires InodeBitmapStart(|pages|) < |pages| && HasBit(pages[InodeBitmapStart(|pages|)], 0)
    requires pages' == pages[InodeBitmapStart(|pages|) := With(pages[InodeBitmapStart(|pages|)], 0, 1)]
    ensures InodeFree(pages', n) <==> n > 0 && InodeFree(pages, n)
  {
    hide Get, With;
    InodeBitPlace(pages, n);
    InodeBitPlace(pages, 0);
    if n / USABLE_BLOCK_SIZE == 0 {
      GetAfterPut(pages[InodeBitmapStart(|pages|)], 0, n, 1);
    }
  }

  lemma BlankNumber(p: Page)
    requires p == BlankInodes()
    ensures p == InodePage(p.inodes[0 := p.inodes[0].(number := 0)])
  {
  }

  lemma BitmapFilled(p: Page)
    requires p.BitmapPage? && Filled(p)
    ensures HasBit(p, 0) && Filled(With(p, 0, 1)) && With(p, 0, 1).BitmapPage?
  {
  }

  lemma FormattedNow(taken: seq<Page>, pages: seq<Page>)
    requires Rooted(taken, true) && |pages| == |taken|
    requires pages == taken[0 := SuperPage(Superblock(|pages|, |pages|, InodeBitmapStart(|pages|), Reserved(|pages|)))]
    ensures Formatted(pages)
  {
    hide *;
    RootedFacts(taken, true);
    SuperMounted(taken, pages);
    forall n: nat | n < |pages|
      ensures Free(pages, n) <==> Free(taken, n)
    {
      SameBitmap(taken, pages, n);
    }
    forall n: nat | n < InodeBits(|pages|)
      ensures InodeFree(pages, n) <==> InodeFree(taken, n)
    {
      SameInodeBit(taken, pages, n);
    }
    forall n: nat | n < Inodes(|pages|)
      ensures InodeAt(pages, n) == BlankInode()
    {
      BlankInodeAt(pages, n);
    }
    FormattedIs(pages);
  }

  lemma SuperMounted(taken: seq<Page>, pages: seq<Page>)
    requires Mounted(taken) && |pages| == |taken|
    requires pages == taken[0 := SuperPage(Superblock(|pages|, |pages|, InodeBitmapStart(|pages|), Reserved(|pages|)))]
    ensures Mounted(pages) && Usable(pages) && pages[0].SuperPage?
    ensures pages[0].super == Superblock(|pages|, |pages|, InodeBitmapStart(|pages|), Reserved(|pages|))
  {
    SuperFilled(pages[0]);
    EnoughBlocks(|pages|);
    hide InodeTableStart, InodeBitmapStart, InodeTableSize, Reserved, Filled;
  }

  lemma SameInodeBit(pages: seq<Page>, pages': seq<Page>, n: nat)
    requires Mounted(pages) && Mounted(pages') && |pages'| == |pages| && n < InodeBits(|pages|)
    requires forall b | 1 <= b < |pages| :: pages'[b] == pages[b]
    ensures InodeFree(pages', n) <==> InodeFree(pages, n)
  {
    InodeBitPlace(pages, n);
  }

  lemma BlankInodeAt(pages: seq<Page>, n: nat)
    requires Mounted(pages) && n < Inodes(|pages|)
    requires forall b | InodeTableStart(|pages|) <= b < Reserved(|pages|) :: pages[b] == BlankInodes()
    ensures InodeAt(pages, n) == BlankInode()
  {
    InodePlace(pages, n);
  }

  lemma FormattedIs(pages: seq<Page>)
    requires Mounted(pages) && pages[Reserved(|pages|)].NodePage?
    requires pages[0].super == Superblock(|pages|, |pages|, InodeBitmapStart(|pages|), Reserved(|pages|))
    requires forall n: nat | n < |pages| :: Free(pages, n) <==> n > Reserved(|pages|)
    requires forall n: nat | n < InodeBits(|pages|) :: InodeFree(pages, n) <==> n > 0
    requires forall n: nat | n < Inodes(|pages|) :: InodeAt(pages, n) == BlankInode()
    requires forall b | Reserved(|pages|) < b < |pages| :: pages[b] == BlankData()
    ensures Formatted(pages)
  {
  }
}
