/** Where things lie on a disk of T blocks (superblock.c, disk.c, inode.c), and what its pages look like. */
module Layout {
  import opened Blocks
  import opened Bitmap

  // ----- Regions -----

  function BlockBitmapSize(total: nat): nat {
    if total % USABLE_BLOCK_SIZE != 0 then total / USABLE_BLOCK_SIZE + 1 else total / USABLE_BLOCK_SIZE
  }

  function InodeBitmapSize(total: nat): nat {
    if total % (4 * USABLE_BLOCK_SIZE) != 0 then total / (4 * USABLE_BLOCK_SIZE) + 1
    else total / (4 * USABLE_BLOCK_SIZE)
  }

  function InodeTableSize(total: nat): nat {
    (total / 4) / INODES_PER_PAGE
  }

  /** The first inode bitmap block, the first inode table block, and the first block behind the table. */
  function InodeBitmapStart(total: nat): nat {
    1 + BlockBitmapSize(total)
  }

  function InodeTableStart(total: nat): nat {
    InodeBitmapStart(total) + InodeBitmapSize(total)
  }

  function Reserved(total: nat): nat {
    InodeTableStart(total) + InodeTableSize(total)
  }

  /** The bitmap block and the bit for block n, as free_page computes them. */
  function BitmapBlock(n: nat): nat {
    1 + n / USABLE_BLOCK_SIZE
  }

  function BitmapBit(n: nat): (k: nat)
    ensures k < USABLE_BLOCK_SIZE
  {
    n % USABLE_BLOCK_SIZE
  }

  function InodeBlock(super: Superblock, n: nat): nat {
    super.inodeBitmap + InodeBitmapSize(super.totalBlocks) + n / INODES_PER_PAGE
  }

  /** Every block of the disk has its bit inside the block bitmap, and different blocks have different bits. */
  lemma BitmapCovers(total: nat, n: nat)
    requires n < total
    ensures 1 <= BitmapBlock(n) < InodeBitmapStart(total)
    ensures forall k: nat :: BitmapBlock(k) == BitmapBlock(n) && BitmapBit(k) == BitmapBit(n) ==> k == n
  {
  }

  /** The bitmap is no longer than it has to be. */
  lemma BitmapTight(total: nat, b: nat)
    requires 1 <= b < InodeBitmapStart(total)
    ensures exists n: nat :: n < total && BitmapBlock(n) == b
  {
    var n := (b - 1) * USABLE_BLOCK_SIZE;
    assert n < total && BitmapBlock(n) == b;
  }

  /** From 88 blocks on there is an inode, and the reserved regions leave room for the tree root. */
  lemma EnoughBlocks(total: nat)
    ensures InodeTableSize(total) >= 1 <==> total >= 88
    ensures total >= 88 ==> Reserved(total) < total
    ensures InodeBitmapStart(total) <= InodeTableStart(total) <= Reserved(total)
    ensures total > 0 ==> InodeBitmapStart(total) < InodeTableStart(total)
  {
  }

  /** The table has a place for every fourth block, in whole pages, and its bitmap is no longer than it has to be. */
  lemma InodesPerBlock(total: nat)
    ensures INODES_PER_PAGE * InodeTableSize(total) <= total / 4 < INODES_PER_PAGE * (InodeTableSize(total) + 1)
    ensures total <= InodeBitmapSize(total) * 4 * USABLE_BLOCK_SIZE
    ensures total > 0 ==> (InodeBitmapSize(total) - 1) * 4 * USABLE_BLOCK_SIZE < total
    ensures total <= BlockBitmapSize(total) * USABLE_BLOCK_SIZE
    ensures total > 0 ==> (BlockBitmapSize(total) - 1) * USABLE_BLOCK_SIZE < total
  {
  }

  /** The superblock, the two bitmaps and the inode table fill the reserved blocks in this order, without gaps. */
  lemma RegionsInOrder(total: nat)
    ensures InodeBitmapStart(total) - 1 == BlockBitmapSize(total)
    ensures InodeTableStart(total) - InodeBitmapStart(total) == InodeBitmapSize(total)
    ensures Reserved(total) - InodeTableStart(total) == InodeTableSize(total)
  {
  }

  /** A disk of one gigabyte. */
  lemma OneGigabyte()
    ensures InodeBitmapStart(262144) == 66 && InodeTableStart(262144) == 83 && Reserved(262144) == 3061
  {
  }

  /** There is a bit for every inode of the table. */
  lemma InodeBitsCover(total: nat, n: nat)
    requires n < INODES_PER_PAGE * InodeTableSize(total)
    ensures n / USABLE_BLOCK_SIZE < InodeBitmapSize(total)
  {
  }

  /** Inodes have their own places, inside the inode table. */
  lemma InodePlaces(super: Superblock, n: nat, k: nat)
    requires super.inodeBitmap == InodeBitmapStart(super.totalBlocks)
    ensures n < INODES_PER_PAGE * InodeTableSize(super.totalBlocks) <==>
      InodeTableStart(super.totalBlocks) <= InodeBlock(super, n) < Reserved(super.totalBlocks)
    ensures InodeBlock(super, n) == InodeTableStart(super.totalBlocks) + n / INODES_PER_PAGE
    ensures InodeBlock(super, n) == InodeBlock(super, k) && n % INODES_PER_PAGE == k % INODES_PER_PAGE ==> n == k
  {
  }

  // ----- Pages -----

  /** Each page fills its block. */
  predicate Filled(p: Page) {
    match p
    case DataPage(bytes) => |bytes| == USABLE_BLOCK_SIZE
    case BitmapPage(words) => |words| == BITMAP_WORDS
    case InodePage(inodes) =>
      |inodes| == INODES_PER_PAGE && forall i | 0 <= i < |inodes| :: |inodes[i].direct| == DIRECT_BLOCKS
    case _ => true
  }

  ghost predicate AllFilled(pages: seq<Page>) {
    forall b | 0 <= b < |pages| :: Filled(pages[b])
  }
}
