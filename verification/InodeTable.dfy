/** Inodes in their table, and their bitmap (inode.c), through the cache. */
module InodeTable {
  import opened Blocks
  import opened Bitmap
  import opened Layout
  import opened Allocator
  import C = Cache
  import Volume

  // ----- What the operations do to the blocks -----

  /** The superblock describes the disk, and every reserved block has the type of its region. */
  ghost predicate Mounted(pages: seq<Page>) {
    var total := |pages|;
    && Usable(pages) && Reserved(total) < total && InodeTableSize(total) >= 1
    && pages[0].SuperPage? && pages[0].super.totalBlocks == total
    && pages[0].super.inodeBitmap == InodeBitmapStart(total)
    && (forall b | 1 <= b < InodeTableStart(total) :: pages[b].BitmapPage?)
    && (forall b | InodeTableStart(total) <= b < Reserved(total) :: pages[b].InodePage?)
  }

  function Inodes(total: nat): nat {
    INODES_PER_PAGE * InodeTableSize(total)
  }

  lemma InodePlace(pages: seq<Page>, n: nat)
    requires Mounted(pages) && n < Inodes(|pages|)
    ensures InodeTableStart(|pages|) <= InodeBlock(pages[0].super, n) < Reserved(|pages|) < |pages|
    ensures var b := InodeBlock(pages[0].super, n);
      && b > 0 && pages[b].InodePage? && |pages[b].inodes| == INODES_PER_PAGE
      && |pages[b].inodes[n % INODES_PER_PAGE].direct| == DIRECT_BLOCKS
  {
    InodePlaces(pages[0].super, n, n);
    assert Filled(pages[InodeBlock(pages[0].super, n)]);
  }

  ghost function InodeAt(pages: seq<Page>, n: nat): (inode: Inode)
    requires Mounted(pages) && n < Inodes(|pages|)
    ensures |inode.direct| == DIRECT_BLOCKS
  {
    InodePlace(pages, n);
    pages[InodeBlock(pages[0].super, n)].inodes[n % INODES_PER_PAGE]
  }

  /** The blocks with an inode written to its place. */
  ghost function WithInode(pages: seq<Page>, inode: Inode): (r: seq<Page>)
    requires Mounted(pages) && inode.number < Inodes(|pages|)
    ensures |r| == |pages|
  {
    InodePlace(pages, inode.number);
    var b := InodeBlock(pages[0].super, inode.number);
    pages[b := InodePage(pages[b].inodes[inode.number % INODES_PER_PAGE := inode])]
  }

  lemma WithInodeMounted(pages: seq<Page>, inode: Inode)
    requires Mounted(pages) && inode.number < Inodes(|pages|) && |inode.direct| == DIRECT_BLOCKS
    ensures Mounted(WithInode(pages, inode))
    ensures forall b | 0 <= b < |pages| && (b < InodeTableStart(|pages|) || Reserved(|pages|) <= b) ::
      WithInode(pages, inode)[b] == pages[b]
  {
    InodePlace(pages, inode.number);
    hide InodeTableStart, InodeTableSize, InodeBlock, Reserved;
    var b := InodeBlock(pages[0].super, inode.number);
    assert Filled(pages[b]);
    assert Filled(WithInode(pages, inode)[b]);
  }

  /** Reading inode m after writing inode n gives the written one for m = n and the old one otherwise. */
  lemma ReadAfterWrite(pages: seq<Page>, inode: Inode, m: nat)
    requires Mounted(pages) && inode.number < Inodes(|pages|) && |inode.direct| == DIRECT_BLOCKS && m < Inodes(|pages|)
    ensures Mounted(WithInode(pages, inode))
    ensures InodeAt(WithInode(pages, inode), m) == if m == inode.number then inode else InodeAt(pages, m)
  {
    WithInodeMounted(pages, inode);
    InodePlace(pages, inode.number);
    InodePlace(pages, m);
    InodePlaces(pages[0].super, inode.number, m);
  }

  // ----- What other writes leave alone -----

  lemma SizesInOrder(total: nat)
    ensures 1 <= InodeBitmapStart(total) <= InodeTableStart(total) <= Reserved(total)
    ensures InodeTableSize(total) >= 1 ==> InodeBitmapStart(total) < InodeTableStart(total)
  {
    EnoughBlocks(total);
  }

  /** Marking a block keeps the disk mounted and every inode. */
  lemma MarkedKeepsInodes(pages: seq<Page>, n: nat, v: int)
    requires Mounted(pages) && n < |pages|
    ensures Usable(pages) && Mounted(Marked(pages, n, v))
    ensures forall b | InodeBitmapStart(|pages|) <= b < |pages| :: Marked(pages, n, v)[b] == pages[b]
    ensures forall m: nat | m < Inodes(|pages|) :: InodeAt(Marked(pages, n, v), m) == InodeAt(pages, m)
    ensures forall k: nat | k < |pages| :: Free(Marked(pages, n, v), k) <==> if k == n then v == 0 else Free(pages, k)
  {
    var pages' := Marked(pages, n, v);
    MarkedMounted(pages, n, v);
    forall m: nat | m < Inodes(|pages|)
      ensures InodeAt(pages', m) == InodeAt(pages, m)
    {
      InodePlace(pages, m);
      SizesInOrder(|pages|);
    }
    forall k: nat | k < |pages|
      ensures Free(pages', k) <==> if k == n then v == 0 else Free(pages, k)
    {
      MarkedBits(pages, n, v, k);
    }
  }

  lemma MarkedMounted(pages: seq<Page>, n: nat, v: int)
    requires Mounted(pages) && n < |pages|
    ensures Usable(pages) && Mounted(Marked(pages, n, v)) && pages[BitmapBlock(n)].BitmapPage?
    ensures forall b | InodeBitmapStart(|pages|) <= b < |pages| :: Marked(pages, n, v)[b] == pages[b]
    ensures Marked(pages, n, v)[0].SuperPage? && Marked(pages, n, v)[0].super.inodeBitmap == pages[0].super.inodeBitmap
    ensures Marked(pages, n, v)[0].super.totalBlocks == pages[0].super.totalBlocks
  {
    MarkedUsable(pages, n, v);
    BitmapCovers(|pages|, n);
    SizesInOrder(|pages|);
    hide InodeTableStart, InodeBitmapStart, InodeTableSize, Reserved, With;
  }

  /** Nor does it matter to them what stands behind the reserved blocks. */
  lemma DataKeepsInodes(pages: seq<Page>, d: nat, page: Page)
    requires Mounted(pages) && Reserved(|pages|) <= d < |pages| && Filled(page)
    ensures Usable(pages) && Mounted(pages[d := page]) && Usable(pages[d := page])
    ensures forall m: nat | m < Inodes(|pages|) :: InodeAt(pages[d := page], m) == InodeAt(pages, m)
    ensures forall k: nat | k < |pages| :: Free(pages[d := page], k) <==> Free(pages, k)
  {
    SizesInOrder(|pages|);
    DataMounted(pages, d, page);
    forall m: nat | m < Inodes(|pages|)
      ensures InodeAt(pages[d := page], m) == InodeAt(pages, m)
    {
      InodePlace(pages, m);
    }
    forall k: nat | k < |pages|
      ensures Free(pages[d := page], k) <==> Free(pages, k)
    {
      BitmapCovers(|pages|, k);
    }
  }

  lemma DataMounted(pages: seq<Page>, d: nat, page: Page)
    requires Mounted(pages) && Reserved(|pages|) <= d < |pages| && Filled(page)
    ensures Mounted(pages[d := page]) && pages[d := page][0] == pages[0]
  {
    SizesInOrder(|pages|);
    hide InodeTableStart, InodeBitmapStart, InodeTableSize, Reserved, Filled;
  }

  /** The bit of a block only depends on the block bitmap. */
  lemma SameBitmap(pages: seq<Page>, pages': seq<Page>, n: nat)
    requires Usable(pages) && Usable(pages') && |pages'| == |pages| && n < |pages|
    requires forall b | 1 <= b < InodeBitmapStart(|pages|) && b < |pages| :: pages'[b] == pages[b]
    ensures Free(pages', n) <==> Free(pages, n)
  {
    BitmapCovers(|pages|, n);
  }

  /** An inode write changes no bit. */
  lemma InodeKeepsBits(pages: seq<Page>, inode: Inode)
    requires Mounted(pages) && inode.number < Inodes(|pages|) && |inode.direct| == DIRECT_BLOCKS
    ensures Usable(pages) && Mounted(WithInode(pages, inode)) && Usable(WithInode(pages, inode))
    ensures forall k: nat | k < |pages| :: Free(WithInode(pages, inode), k) <==> Free(pages, k)
  {
    hide *;
    WithInodeMounted(pages, inode);
    MountedUsable(pages);
    MountedUsable(WithInode(pages, inode));
    forall k: nat | k < |pages|
      ensures Free(WithInode(pages, inode), k) <==> Free(pages, k)
    {
      SameBitmap(pages, WithInode(pages, inode), k);
    }
  }

  lemma MountedUsable(pages: seq<Page>)
    requires Mounted(pages)
    ensures Usable(pages) && InodeBitmapStart(|pages|) <= InodeTableStart(|pages|)
  {
  }

  // ----- The operations -----

  method InodeRead(cache: C.Cache, n: nat) returns (rv: int, inode: Inode)
    requires cache.Valid() && AllFilled(cache.Contents()) && |cache.Contents()| > 0 && cache.Contents()[0].SuperPage?
    requires InodeBlock(cache.Contents()[0].super, n) < |cache.Contents()|
    modifies cache.Repr
    ensures cache.Valid() && fresh(cache.Repr - old(cache.Repr)) && cache.Contents() == old(cache.Contents())
    ensures var page := cache.Contents()[InodeBlock(cache.Contents()[0].super, n)];
      if page.InodePage? then
        rv == 0 && n % INODES_PER_PAGE < |page.inodes| && inode == page.inodes[n % INODES_PER_PAGE]
      else rv == -1
  {
    hide cache.Valid, cache.Contents;
    inode := Inode(0, 0, []);
    var read, super := SuperRead(cache);
    var inodePage := n / INODES_PER_PAGE;
    var page := Volume.Read(cache, 0, super.inodeBitmap + InodeBitmapSize(super.totalBlocks) + inodePage);
    if !page.InodePage? { return -1, inode; }
    assert Filled(page);
    return 0, page.inodes[n % INODES_PER_PAGE];
  }

  method InodeWrite(cache: C.Cache, inode: Inode) returns (rv: int)
    requires cache.Valid() && AllFilled(cache.Contents()) && |cache.Contents()| > 0 && cache.Contents()[0].SuperPage?
    requires InodeBlock(cache.Contents()[0].super, inode.number) < |cache.Contents()|
    modifies cache.Repr
    ensures cache.Valid() && fresh(cache.Repr - old(cache.Repr))
    ensures var pages := old(cache.Contents());
      var b := InodeBlock(pages[0].super, inode.number);
      if pages[b].InodePage? then
        && rv == 0 && inode.number % INODES_PER_PAGE < |pages[b].inodes|
        && cache.Contents() == pages[b := InodePage(pages[b].inodes[inode.number % INODES_PER_PAGE := inode])]
      else rv == -1 && cache.Contents() == pages
  {
    hide cache.Valid, cache.Contents;
    var read, super := SuperRead(cache);
    var inodePage := inode.number / INODES_PER_PAGE;
    var block := super.inodeBitmap + InodeBitmapSize(super.totalBlocks) + inodePage;
    var page := Volume.Read(cache, 0, block);
    if !page.InodePage? { return -1; }
    assert Filled(page);
    Volume.Write(cache, InodePage(page.inodes[inode.number % INODES_PER_PAGE := inode]), 0, block);
    return 0;
  }

  /** On a mounted disk, reading and writing an inode is reading and writing its place. */
  lemma PlaceIs(pages: seq<Page>, n: nat)
    requires Mounted(pages) && n < Inodes(|pages|)
    ensures Usable(pages) && AllFilled(pages) && |pages| > 0 && pages[0].SuperPage?
    ensures InodeBlock(pages[0].super, n) < |pages|
    ensures var b := InodeBlock(pages[0].super, n);
      && pages[b].InodePage? && n % INODES_PER_PAGE < |pages[b].inodes|
      && InodeAt(pages, n) == pages[b].inodes[n % INODES_PER_PAGE]
      && forall inode: Inode | inode.number == n ::
           WithInode(pages, inode) == pages[b := InodePage(pages[b].inodes[n % INODES_PER_PAGE := inode])]
  {
    InodePlace(pages, n);
  }

  // ----- Allocation of inodes -----

  /** The number of bits in the inode bitmap. */
  function InodeBits(total: nat): nat {
    USABLE_BLOCK_SIZE * InodeBitmapSize(total)
  }

  lemma InodeBitPlace(pages: seq<Page>, n: nat)
    requires Mounted(pages) && n < InodeBits(|pages|)
    ensures var b := InodeBitmapStart(|pages|) + n / USABLE_BLOCK_SIZE;
      b < InodeTableStart(|pages|) < |pages| && pages[b].BitmapPage? && HasBit(pages[b], n % USABLE_BLOCK_SIZE)
  {
    EnoughBlocks(|pages|);
    var b := InodeBitmapStart(|pages|) + n / USABLE_BLOCK_SIZE;
    assert b < InodeTableStart(|pages|);
    assert Filled(pages[b]);
  }

  ghost predicate InodeFree(pages: seq<Page>, n: nat)
    requires Mounted(pages) && n < InodeBits(|pages|)
  {
    InodeBitPlace(pages, n);
    Get(pages[InodeBitmapStart(|pages|) + n / USABLE_BLOCK_SIZE], n % USABLE_BLOCK_SIZE) == 0
  }

  /** That is bit n % USABLE_BLOCK_SIZE of its page, in words of 64, each from its low end. */
  lemma InodeFreeIsWordBit(pages: seq<Page>, n: nat, at: bv6)
    requires Mounted(pages) && n < InodeBits(|pages|) && at as int == n % USABLE_BLOCK_SIZE % 64
    requires InodeBitmapStart(|pages|) + n / USABLE_BLOCK_SIZE < |pages|
    ensures var p := pages[InodeBitmapStart(|pages|) + n / USABLE_BLOCK_SIZE];
      && p.BitmapPage? && n % USABLE_BLOCK_SIZE / 64 < |p.words|
      && (InodeFree(pages, n) <==> (p.words[n % USABLE_BLOCK_SIZE / 64] >> at) & 1 == 0)
  {
    InodeBitPlace(pages, n);
    hide Get;
    GetRange(pages[InodeBitmapStart(|pages|) + n / USABLE_BLOCK_SIZE], n % USABLE_BLOCK_SIZE);
    SameAt(n % USABLE_BLOCK_SIZE, at);
  }

  ghost predicate FirstFreeInode(pages: seq<Page>, n: nat)
    requires Mounted(pages)
  {
    n < InodeBits(|pages|) && InodeFree(pages, n) && forall k: nat | k < n :: !InodeFree(pages, k)
  }

  /** The blocks with the bit of inode n set. */
  ghost function InodeMarked(pages: seq<Page>, n: nat): seq<Page>
    requires Mounted(pages) && n < InodeBits(|pages|)
  {
    InodeBitPlace(pages, n);
    var m := InodeBitmapStart(|pages|) + n / USABLE_BLOCK_SIZE;
    pages[m := With(pages[m], n % USABLE_BLOCK_SIZE, 1)]
  }

  /** The blocks after inode n was allocated: its bit set, its number in the table. */
  ghost function InodeTaken(pages: seq<Page>, n: nat): seq<Page>
    requires Mounted(pages) && n < InodeBits(|pages|) && InodeBlock(pages[0].super, n) < |pages|
    requires pages[InodeBlock(pages[0].super, n)].InodePage?
  {
    var b, i := InodeBlock(pages[0].super, n), n % INODES_PER_PAGE;
    assert Filled(pages[b]);
    InodeMarked(pages, n)[b := InodePage(pages[b].inodes[i := pages[b].inodes[i].(number := n)])]
  }

  /** Sets the bit of an inode in its page, at once, and then numbers it in its table. */
  method TakeInode(cache: C.Cache, ii: nat, ibm: Page, ibmn: nat, bit: nat) returns (rv: int)
    requires cache.Valid() && Mounted(cache.Contents()) && ii < InodeBits(|cache.Contents()|)
    requires InodeBlock(cache.Contents()[0].super, ii) < |cache.Contents()|
    requires ibmn == InodeBitmapStart(|cache.Contents()|) + ii / USABLE_BLOCK_SIZE < |cache.Contents()|
    requires bit == ii % USABLE_BLOCK_SIZE
    requires ibm == cache.Contents()[ibmn]
    modifies cache.Repr
    ensures cache.Valid() && fresh(cache.Repr - old(cache.Repr))
    ensures var pages := old(cache.Contents());
      if pages[InodeBlock(pages[0].super, ii)].InodePage? then rv == ii && cache.Contents() == InodeTaken(pages, ii)
      else rv == -1 && cache.Contents() == InodeMarked(pages, ii)
  {
    hide *;
    ghost var pages := cache.Contents();
    MountedFacts(pages);
    InodeMarkedIs(pages, ii);
    var marked, failed := Put(ibm, bit, 1);
    Volume.Write(cache, marked, 0, ibmn);
    MountedFacts(cache.Contents());
    var read, inode := InodeRead(cache, ii);
    if read != 0 { return -1; }
    InodeTakenIs(pages, ii);
    var written := InodeWrite(cache, inode.(number := ii));
    Volume.Write(cache, marked, 0, ibmn);
    return ii;
  }

  /**
    Takes the first inode with a clear bit. When its place is in no inode block the result is -1, but
    the bit stays set; when all bits are set the result is -1 and nothing changes.
   */
  method InodeAllocate(cache: C.Cache) returns (rv: int)
    requires cache.Valid() && Mounted(cache.Contents())
    requires forall n: nat | FirstFreeInode(cache.Contents(), n) ::
      InodeBlock(cache.Contents()[0].super, n) < |cache.Contents()|
    modifies cache.Repr
    ensures cache.Valid() && fresh(cache.Repr - old(cache.Repr))
    ensures (forall n: nat :: !FirstFreeInode(old(cache.Contents()), n)) ==>
      rv == -1 && cache.Contents() == old(cache.Contents())
    ensures forall n: nat | FirstFreeInode(old(cache.Contents()), n) ::
      var pages := old(cache.Contents());
      if pages[InodeBlock(pages[0].super, n)].InodePage? then rv == n && cache.Contents() == InodeTaken(pages, n)
      else rv == -1 && cache.Contents() == InodeMarked(pages, n)
  {
    hide *;
    ghost var pages := cache.Contents();
    MountedFacts(pages);
    var read, super := SuperRead(cache);
    var ibmn := super.inodeBitmap;
    var ibm := Volume.Read(cache, 0, ibmn);
    var ii := 0;
    ghost var bits := InodeBits(|pages|);
    while ibm.BitmapPage?
      invariant 0 <= ii <= bits + 1
      invariant cache.Valid() && fresh(cache.Repr - old(cache.Repr)) && cache.Contents() == pages
      invariant super.inodeBitmap <= ibmn < |pages| && ibm == pages[ibmn]
      invariant ii == 0 ==> ibmn == super.inodeBitmap
      invariant ii > 0 ==> ibmn == super.inodeBitmap + (ii - 1) / USABLE_BLOCK_SIZE
      invariant forall k: nat | k < ii && k < bits :: !InodeFree(pages, k)
      invariant ibm.BitmapPage? ==> ibmn < InodeTableStart(|pages|)
      invariant !ibm.BitmapPage? ==> ii >= bits
      decreases bits + 1 - ii
    {
      AdvanceInode(|pages|, ii, ibmn);
      if ii % USABLE_BLOCK_SIZE == 0 && ii != 0 {
        ibmn := ibmn + 1;
        ibm := Volume.Read(cache, 0, ibmn);
      }
      InodeFreeBit(pages, ii);
      var bit := ii - (ibmn - super.inodeBitmap) * USABLE_BLOCK_SIZE;
      GetRange(ibm, bit);
      if Get(ibm, bit) == 0 {
        FoundInode(pages, ii);
        rv := TakeInode(cache, ii, ibm, ibmn, bit);
        return;
      }
      ii := ii + 1;
    }
    NoneFree(pages);
    return -1;
  }

  lemma AdvanceInode(total: nat, n: nat, ibmn: nat)
    requires InodeBitmapStart(total) <= ibmn < InodeTableStart(total)
    requires n == 0 ==> ibmn == InodeBitmapStart(total)
    requires n > 0 ==> ibmn == InodeBitmapStart(total) + (n - 1) / USABLE_BLOCK_SIZE
    ensures var now := if n % USABLE_BLOCK_SIZE == 0 && n != 0 then ibmn + 1 else ibmn;
      && now == InodeBitmapStart(total) + n / USABLE_BLOCK_SIZE
      && n - (now - InodeBitmapStart(total)) * USABLE_BLOCK_SIZE == n % USABLE_BLOCK_SIZE
      && now <= InodeTableStart(total) && (now < InodeTableStart(total) <==> n < InodeBits(total))
      && n <= InodeBits(total)
  {
  }

  lemma InodeFreeBit(pages: seq<Page>, n: nat)
    requires Mounted(pages) && n <= InodeBits(|pages|)
    ensures InodeBitmapStart(|pages|) + n / USABLE_BLOCK_SIZE < |pages|
    ensures HasBit(pages[InodeBitmapStart(|pages|) + n / USABLE_BLOCK_SIZE], n % USABLE_BLOCK_SIZE)
    ensures n < InodeBits(|pages|) ==>
      (InodeFree(pages, n) <==>
        Get(pages[InodeBitmapStart(|pages|) + n / USABLE_BLOCK_SIZE], n % USABLE_BLOCK_SIZE) == 0)
  {
    MountedFacts(pages);
    if n < InodeBits(|pages|) { InodeBitPlace(pages, n); }
  }

  lemma FoundInode(pages: seq<Page>, n: nat)
    requires Mounted(pages) && n < InodeBits(|pages|) && InodeFree(pages, n)
    requires forall k: nat | k < n :: !InodeFree(pages, k)
    ensures FirstFreeInode(pages, n) && forall k: nat | FirstFreeInode(pages, k) :: k == n
  {
  }

  /** The set bit is the only change: the disk stays mounted, all inodes and all other bits are as before. */
  lemma InodeMarkedIs(pages: seq<Page>, n: nat)
    requires Mounted(pages) && n < InodeBits(|pages|)
    ensures var m, pages' := InodeBitmapStart(|pages|) + n / USABLE_BLOCK_SIZE, InodeMarked(pages, n);
      && 0 < m < InodeTableStart(|pages|) < |pages| && HasBit(pages[m], n % USABLE_BLOCK_SIZE)
      && pages' == pages[m := With(pages[m], n % USABLE_BLOCK_SIZE, 1)]
      && Mounted(pages') && |pages'| == |pages| && pages'[0] == pages[0]
      && forall b | InodeTableStart(|pages|) <= b < |pages| :: pages'[b] == pages[b]
    ensures InodeBlock(pages[0].super, n) >= InodeTableStart(|pages|)
  {
    InodeBitPlace(pages, n);
    SizesInOrder(|pages|);
    var m := InodeBitmapStart(|pages|) + n / USABLE_BLOCK_SIZE;
    assert Filled(pages[m]);
  }

  lemma InodeTakenIs(pages: seq<Page>, n: nat)
    requires Mounted(pages) && n < InodeBits(|pages|) && InodeBlock(pages[0].super, n) < |pages|
    requires pages[InodeBlock(pages[0].super, n)].InodePage?
    ensures var b, i := InodeBlock(pages[0].super, n), n % INODES_PER_PAGE;
      var m := InodeBitmapStart(|pages|) + n / USABLE_BLOCK_SIZE;
      && m < |pages| && b != m && HasBit(pages[m], n % USABLE_BLOCK_SIZE) && i < |pages[b].inodes|
      && InodeTaken(pages, n) ==
         pages[b := InodePage(pages[b].inodes[i := pages[b].inodes[i].(number := n)])]
              [m := With(pages[m], n % USABLE_BLOCK_SIZE, 1)]
  {
    InodeBitPlace(pages, n);
    assert Filled(pages[InodeBlock(pages[0].super, n)]);
  }

  /**
    A call that fails for want of an inode block uses up a bit: the next call looks at the next clear
    one. All inodes that the table holds stay as they are.
   */
  lemma FailedCallUsesBit(pages: seq<Page>, n: nat)
    requires Mounted(pages) && FirstFreeInode(pages, n)
    ensures Mounted(InodeMarked(pages, n)) && |InodeMarked(pages, n)| == |pages|
    ensures forall k: nat | k < InodeBits(|pages|) ::
      InodeFree(InodeMarked(pages, n), k) <==> k != n && InodeFree(pages, k)
    ensures forall k: nat | k < Inodes(|pages|) :: InodeAt(InodeMarked(pages, n), k) == InodeAt(pages, k)
  {
    InodeMarkedIs(pages, n);
    MarkedKeepsTable(pages, n);
    forall k: nat | k < InodeBits(|pages|)
      ensures InodeFree(InodeMarked(pages, n), k) <==> k != n && InodeFree(pages, k)
    {
      MarkedInodeBit(pages, n, k);
    }
  }

  lemma MarkedKeepsTable(pages: seq<Page>, n: nat)
    requires Mounted(pages) && n < InodeBits(|pages|)
    ensures Mounted(InodeMarked(pages, n)) && |InodeMarked(pages, n)| == |pages|
    ensures forall k: nat | k < Inodes(|pages|) :: InodeAt(InodeMarked(pages, n), k) == InodeAt(pages, k)
  {
    InodeMarkedIs(pages, n);
    forall k: nat | k < Inodes(|pages|)
      ensures InodeAt(InodeMarked(pages, n), k) == InodeAt(pages, k)
    {
      InodePlace(pages, k);
    }
  }

  lemma MarkedInodeBit(pages: seq<Page>, n: nat, k: nat)
    requires Mounted(pages) && n < InodeBits(|pages|) && k < InodeBits(|pages|)
    ensures Mounted(InodeMarked(pages, n)) && |InodeMarked(pages, n)| == |pages|
    ensures InodeFree(InodeMarked(pages, n), k) <==> k != n && InodeFree(pages, k)
  {
    InodeMarkedIs(pages, n);
    InodeBitPlace(pages, n);
    InodeBitPlace(pages, k);
    var m := InodeBitmapStart(|pages|) + n / USABLE_BLOCK_SIZE;
    GetAfterPut(pages[m], n % USABLE_BLOCK_SIZE, k % USABLE_BLOCK_SIZE, 1);
    SamePlace(n, k);
  }

  lemma SamePlace(n: nat, k: nat)
    ensures n == k <==> n / USABLE_BLOCK_SIZE == k / USABLE_BLOCK_SIZE && n % USABLE_BLOCK_SIZE == k % USABLE_BLOCK_SIZE
  {
  }

  lemma NoneFree(pages: seq<Page>)
    requires Mounted(pages) && forall k: nat | k < InodeBits(|pages|) :: !InodeFree(pages, k)
    ensures forall n: nat :: !FirstFreeInode(pages, n)
  {
  }

  lemma MountedFacts(pages: seq<Page>)
    requires Mounted(pages)
    ensures Usable(pages) && |pages| > 0 && AllFilled(pages) && pages[0].SuperPage? && USABLE_BLOCK_SIZE > 0
    ensures 1 <= pages[0].super.inodeBitmap == InodeBitmapStart(|pages|) < InodeTableStart(|pages|) < |pages|
    ensures pages[0].super.totalBlocks == |pages| && pages[InodeTableStart(|pages|)].InodePage?
    ensures forall b | 1 <= b < InodeTableStart(|pages|) :: pages[b].BitmapPage?
  {
    EnoughBlocks(|pages|);
  }
}
