/** The bytes of a file in its blocks, and the page loops of nbtrfs_read and nbtrfs_write (fuse.c). */
module File {
  import opened Blocks
  import opened Layout
  import opened Allocator
  import opened InodeTable
  import opened Format
  import C = Cache
  import Volume

  /** What the direct blocks of an inode hold. */
  const CAPACITY: nat := DIRECT_BLOCKS * USABLE_BLOCK_SIZE

  /** Every block of a file is a data block of its own, marked as used. */
  ghost predicate Sound(pages: seq<Page>) {
    && Mounted(pages)
    && (forall b: nat | b < Reserved(|pages|) :: !Free(pages, b))
    && (forall n: nat, i: nat | n < Inodes(|pages|) && i < DIRECT_BLOCKS && Block(pages, n, i) != 0
         :: OwnBlock(pages, Block(pages, n, i)))
    && forall n: nat, i: nat, m: nat, j: nat
         | n < Inodes(|pages|) && m < Inodes(|pages|) && i < DIRECT_BLOCKS && j < DIRECT_BLOCKS
           && Block(pages, n, i) != 0 && Block(pages, n, i) == Block(pages, m, j)
         :: n == m && i == j
  }

  ghost function Block(pages: seq<Page>, n: nat, i: nat): nat
    requires Mounted(pages) && n < Inodes(|pages|) && i < DIRECT_BLOCKS
  {
    InodeAt(pages, n).direct[i]
  }

  ghost predicate OwnBlock(pages: seq<Page>, b: nat)
    requires Mounted(pages)
  {
    Reserved(|pages|) <= b < |pages| && !Free(pages, b) && pages[b].DataPage? && |pages[b].bytes| == USABLE_BLOCK_SIZE
  }

  /** Every byte below the size has its block. */
  predicate Whole(inode: Inode) {
    && inode.size <= CAPACITY && |inode.direct| == DIRECT_BLOCKS
    && forall i | 0 <= i < DIRECT_BLOCKS && i * USABLE_BLOCK_SIZE < inode.size :: inode.direct[i] != 0
  }

  ghost predicate IsPage(p: seq<Page>, b: nat) {
    b < |p| && p[b].DataPage? && |p[b].bytes| == USABLE_BLOCK_SIZE
  }

  /** Byte k of a file; 0 where the file has no block. */
  ghost function ByteAt(pages: seq<Page>, n: nat, k: nat): byte
    requires Mounted(pages) && n < Inodes(|pages|)
  {
    if k / USABLE_BLOCK_SIZE < DIRECT_BLOCKS && Block(pages, n, k / USABLE_BLOCK_SIZE) != 0 then
      ByteIn(pages, Block(pages, n, k / USABLE_BLOCK_SIZE), k % USABLE_BLOCK_SIZE)
    else 0
  }

  ghost function ByteIn(pages: seq<Page>, b: nat, k: nat): byte
    requires k < USABLE_BLOCK_SIZE
  {
    if IsPage(pages, b) then pages[b].bytes[k] else 0
  }

  /** Byte k is byte k % USABLE_BLOCK_SIZE of direct block k / USABLE_BLOCK_SIZE. */
  lemma ByteIsStored(pages: seq<Page>, n: nat, k: nat)
    requires Sound(pages) && Mounted(pages) && n < Inodes(|pages|) && k < CAPACITY
    ensures k / USABLE_BLOCK_SIZE < |InodeAt(pages, n).direct|
    ensures var b := InodeAt(pages, n).direct[k / USABLE_BLOCK_SIZE];
      if b == 0 then ByteAt(pages, n, k) == 0
      else
        && b < |pages| && pages[b].DataPage? && k % USABLE_BLOCK_SIZE < |pages[b].bytes|
        && ByteAt(pages, n, k) == pages[b].bytes[k % USABLE_BLOCK_SIZE]
  {
    InPage(k);
    if Block(pages, n, k / USABLE_BLOCK_SIZE) != 0 { OwnsBlock(pages, n, k / USABLE_BLOCK_SIZE); }
    hide Mounted, InodeAt;
  }

  /** The contents of a file. */
  ghost function Bytes(pages: seq<Page>, n: nat): (s: seq<byte>)
    requires Mounted(pages) && n < Inodes(|pages|)
    ensures |s| == InodeAt(pages, n).size && forall k | 0 <= k < |s| :: s[k] == ByteAt(pages, n, k)
  {
    seq(InodeAt(pages, n).size, k requires k >= 0 => ByteAt(pages, n, k))
  }

  // ----- The blocks of an inode -----

  /** The block of page i; -1 when there is none. */
  method GetBlock(inode: Inode, i: nat) returns (rv: int, block: nat)
    requires |inode.direct| == DIRECT_BLOCKS && i < DIRECT_BLOCKS
    ensures block == inode.direct[i] && (rv == 0 <==> block != 0) && (rv == 0 || rv == -1)
  {
    block := inode.direct[i];
    rv := if block != 0 then 0 else -1;
  }

  method SetBlock(inode: Inode, i: nat, block: nat) returns (r: Inode)
    requires |inode.direct| == DIRECT_BLOCKS && i < DIRECT_BLOCKS
    ensures r == inode.(direct := inode.direct[i := block])
  {
    r := inode.(direct := inode.direct[i := block]);
  }

  // ----- A file gets a block -----

  /** The counter of free blocks after k blocks were taken. */
  function DownBy(x: nat, k: nat): nat {
    if k == 0 then x else Down(DownBy(x, k - 1))
  }

  /** Taking k blocks has lowered the counter k times; the rest of the superblock and the inode bitmap are as before. */
  ghost predicate Charged(p: seq<Page>, p': seq<Page>, k: nat) {
    && |p'| == |p| > 0 && p[0].SuperPage?
    && p'[0] == SuperPage(p[0].super.(freeBlocks := DownBy(p[0].super.freeBlocks, k)))
    && forall b | InodeBitmapStart(|p|) <= b < InodeTableStart(|p|) && b < |p| :: p'[b] == p[b]
  }

  lemma ChargedTwice(p: seq<Page>, p1: seq<Page>, p2: seq<Page>, k: nat)
    requires Charged(p, p1, k) && Charged(p1, p2, 1)
    ensures Charged(p, p2, k + 1)
  {
    assert DownBy(p1[0].super.freeBlocks, 1) == Down(p1[0].super.freeBlocks);
  }

  lemma ChargedNone(p: seq<Page>)
    requires Mounted(p)
    ensures Charged(p, p, 0)
  {
    SizesInOrder(|p|);
  }

  /** Nothing in front of the inode table has changed since. */
  lemma ChargedStill(p: seq<Page>, p1: seq<Page>, p2: seq<Page>, k: nat)
    requires Charged(p, p1, k) && |p2| == |p1| && forall b | 0 <= b < InodeTableStart(|p|) && b < |p| :: p2[b] == p1[b]
    ensures Charged(p, p2, k)
  {
    SizesInOrder(|p|);
  }

  lemma ChargedMarked(p: seq<Page>, d: nat)
    requires Mounted(p) && d < |p|
    ensures Usable(p) && Charged(p, Marked(p, d, 1), 1)
  {
    MarkedKeepsInodes(p, d, 1);
    MarkedIs(p, d, 1);
    SizesInOrder(|p|);
    assert DownBy(p[0].super.freeBlocks, 1) == Down(p[0].super.freeBlocks);
    hide Mounted;
    assert p[0].SuperPage?;
  }

  /**
    Inode n has got the first free block d as its page i, blank. All other inodes, blocks and bits are
    as before, and the counter in the superblock is one lower.
   */
  ghost predicate Grown(p: seq<Page>, p': seq<Page>, n: nat, i: nat, d: nat) {
    && Sound(p) && Sound(p') && |p'| == |p| && n < Inodes(|p|) && i < DIRECT_BLOCKS
    && Block(p, n, i) == 0 && d != 0 && d < |p| && Free(p, d) && p'[d] == BlankData()
    && FirstFree(p, d) && (forall k: nat | k < |p| :: Free(p', k) <==> k != d && Free(p, k))
    && Charged(p, p', 1)
    && InodeAt(p', n) == InodeAt(p, n).(direct := InodeAt(p, n).direct[i := d])
    && (forall m: nat | m < Inodes(|p|) && m != n :: InodeAt(p', m) == InodeAt(p, m))
    && forall b | Reserved(|p|) <= b < |p| && b != d :: p'[b] == p[b]
  }

  lemma SoundFacts(p: seq<Page>)
    requires Sound(p)
    ensures Mounted(p) && Usable(p) && |p| > 0 && 0 < Reserved(|p|) < |p|
    ensures forall b: nat | b < Reserved(|p|) :: !Free(p, b)
  {
    SizesInOrder(|p|);
  }

  lemma OwnsBlock(p: seq<Page>, n: nat, i: nat)
    requires Sound(p) && n < Inodes(|p|) && i < DIRECT_BLOCKS && Block(p, n, i) != 0
    ensures OwnBlock(p, Block(p, n, i))
  {
  }

  lemma Distinct(p: seq<Page>, n: nat, i: nat, m: nat, j: nat)
    requires Sound(p) && n < Inodes(|p|) && m < Inodes(|p|) && i < DIRECT_BLOCKS && j < DIRECT_BLOCKS
    requires Block(p, n, i) != 0 && (n != m || i != j)
    ensures Block(p, n, i) != Block(p, m, j)
  {
  }

  lemma Grow(p: seq<Page>, n: nat, i: nat, d: nat)
    requires Sound(p) && n < Inodes(|p|) && InodeAt(p, n).number == n && i < DIRECT_BLOCKS && Block(p, n, i) == 0
    requires Usable(p) && FirstFree(p, d)
    ensures d < |p| && d >= Reserved(|p|) && d != 0
    ensures var p1 := Marked(p, d, 1);
      && |p1| == |p| && Mounted(p1[d := BlankData()]) && n < Inodes(|p1|)
      && Grown(p, WithInode(p1[d := BlankData()], InodeAt(p, n).(direct := InodeAt(p, n).direct[i := d])), n, i, d)
  {
    hide *;
    SoundFacts(p);
    FirstFreeIs(p, d);
    MarkedKeepsInodes(p, d, 1);
    BlankFilled();
    var p1 := Marked(p, d, 1);
    var p2 := p1[d := BlankData()];
    DataKeepsInodes(p1, d, BlankData());
    var node := InodeAt(p, n).(direct := InodeAt(p, n).direct[i := d]);
    var p3 := WithInode(p2, node);
    WithInodeMounted(p2, node);
    InodeKeepsBits(p2, node);
    forall m: nat | m < Inodes(|p|)
      ensures InodeAt(p3, m) == if m == n then node else InodeAt(p, m)
    {
      ReadAfterWrite(p2, node, m);
    }
    SizesInOrder(|p|);
    ChargedMarked(p, d);
    ChargedStill(p, p1, p3, 1);
    GrownNow(p, p3, n, i, d);
  }

  lemma FirstFreeIs(p: seq<Page>, d: nat)
    requires Usable(p) && FirstFree(p, d)
    ensures d < |p| && Free(p, d)
  {
  }

  lemma BlankFilled()
    ensures Filled(BlankData()) && BlankData().DataPage? && |BlankData().bytes| == USABLE_BLOCK_SIZE
    ensures DIRECT_BLOCKS == 12
  {
  }

  lemma GrownNow(p: seq<Page>, p': seq<Page>, n: nat, i: nat, d: nat)
    requires Sound(p) && Mounted(p') && Usable(p') && |p'| == |p| && n < Inodes(|p|) && i < DIRECT_BLOCKS
    requires Block(p, n, i) == 0
    requires 0 < Reserved(|p|) <= d < |p| && Usable(p) && Free(p, d) && p'[d] == BlankData()
    requires forall m: nat | m < Inodes(|p|) ::
      InodeAt(p', m) == if m == n then InodeAt(p, n).(direct := InodeAt(p, n).direct[i := d]) else InodeAt(p, m)
    requires forall b | Reserved(|p|) <= b < |p| && b != d :: p'[b] == p[b]
    requires forall k: nat | k < |p| :: Free(p', k) <==> k != d && Free(p, k)
    requires FirstFree(p, d) && Charged(p, p', 1)
    ensures Grown(p, p', n, i, d)
  {
    BlankFilled();
    hide Mounted, Usable, Free, InodeAt, BlankData, Reserved;
    forall m: nat, j: nat | m < Inodes(|p|) && j < DIRECT_BLOCKS
      ensures Block(p', m, j) == if m == n && j == i then d else Block(p, m, j)
      ensures Block(p, m, j) != 0 ==> OwnBlock(p, Block(p, m, j)) && Block(p, m, j) != d
    {
    }
    forall m: nat, j: nat | m < Inodes(|p|) && j < DIRECT_BLOCKS && Block(p', m, j) != 0
      ensures OwnBlock(p', Block(p', m, j))
    {
    }
  }

  // ----- A page of a file is written -----

  /** New contents for page i of inode n: the disk stays sound, and no other page of a file changes. */
  lemma Stored(p: seq<Page>, n: nat, i: nat, bytes: seq<byte>)
    requires Sound(p) && n < Inodes(|p|) && i < DIRECT_BLOCKS && Block(p, n, i) != 0 && |bytes| == USABLE_BLOCK_SIZE
    ensures Block(p, n, i) < |p|
    ensures var p' := p[Block(p, n, i) := DataPage(bytes)];
      && Sound(p') && (forall m: nat | m < Inodes(|p|) :: InodeAt(p', m) == InodeAt(p, m))
      && forall m: nat, j: nat | m < Inodes(|p|) && j < DIRECT_BLOCKS && Block(p, m, j) != 0 && (m != n || j != i) ::
           OwnBlock(p, Block(p, m, j)) && p'[Block(p, m, j)] == p[Block(p, m, j)]
  {
    hide *;
    SoundFacts(p);
    OwnsBlock(p, n, i);
    OwnBlockIs(p, Block(p, n, i));
    var d := Block(p, n, i);
    PageFilled(bytes);
    DataKeepsInodes(p, d, DataPage(bytes));
    var p' := p[d := DataPage(bytes)];
    forall m: nat, j: nat | m < Inodes(|p|) && j < DIRECT_BLOCKS && Block(p, m, j) != 0
      ensures OwnBlock(p, Block(p, m, j)) && IsPage(p', Block(p, m, j))
      ensures m != n || j != i ==> Block(p, m, j) < |p| && p'[Block(p, m, j)] == p[Block(p, m, j)]
    {
      OwnsBlock(p, m, j);
      OwnBlockIs(p, Block(p, m, j));
      if m != n || j != i { Distinct(p, n, i, m, j); }
      IsPageNow(p, p', d, bytes, Block(p, m, j));
    }
    SoundAgain(p, p');
  }

  lemma IsPageNow(p: seq<Page>, p': seq<Page>, d: nat, bytes: seq<byte>, b: nat)
    requires d < |p| && p' == p[d := DataPage(bytes)] && |bytes| == USABLE_BLOCK_SIZE && IsPage(p, b)
    ensures IsPage(p', b)
  {
  }

  lemma OwnBlockIs(p: seq<Page>, b: nat)
    requires Mounted(p) && OwnBlock(p, b)
    ensures Reserved(|p|) <= b < |p| && Usable(p) && !Free(p, b) && p[b].DataPage?
    ensures |p[b].bytes| == USABLE_BLOCK_SIZE && IsPage(p, b)
  {
  }

  lemma PageFilled(bytes: seq<byte>)
    requires |bytes| == USABLE_BLOCK_SIZE
    ensures Filled(DataPage(bytes))
  {
  }

  lemma SoundAgain(p: seq<Page>, p': seq<Page>)
    requires Sound(p) && Mounted(p') && |p'| == |p| && Usable(p) && Usable(p')
    requires forall m: nat | m < Inodes(|p|) :: InodeAt(p', m) == InodeAt(p, m)
    requires forall k: nat | k < |p| :: Free(p', k) <==> Free(p, k)
    requires forall m: nat, j: nat | m < Inodes(|p|) && j < DIRECT_BLOCKS && Block(p, m, j) != 0 ::
      IsPage(p', Block(p, m, j))
    ensures Sound(p')
  {
    SoundFacts(p);
    hide Mounted, Usable, Free, InodeAt, Reserved;
    forall m: nat, j: nat | m < Inodes(|p|) && j < DIRECT_BLOCKS
      ensures Block(p', m, j) == Block(p, m, j)
      ensures Block(p, m, j) != 0 ==> OwnBlock(p, Block(p, m, j))
    {
    }
  }

  /** The block of page i, allocated and blank if the file had none there; 0 when the disk is full. */
  method EnsureBlock(cache: C.Cache, node: Inode, i: nat) returns (block: nat, node': Inode)
    requires cache.Valid() && Sound(cache.Contents()) && i < DIRECT_BLOCKS
    requires node.number < Inodes(|cache.Contents()|) && InodeAt(cache.Contents(), node.number) == node
    modifies cache.Repr
    ensures cache.Valid() && fresh(cache.Repr - old(cache.Repr)) && |cache.Contents()| == |old(cache.Contents())|
    ensures Block(old(cache.Contents()), node.number, i) != 0 ==>
      && block == Block(old(cache.Contents()), node.number, i)
      && node' == node && cache.Contents() == old(cache.Contents())
    ensures Block(old(cache.Contents()), node.number, i) == 0 && block == 0 ==>
      && node' == node && cache.Contents() == old(cache.Contents())
      && Usable(old(cache.Contents())) && Full(old(cache.Contents()))
    ensures Block(old(cache.Contents()), node.number, i) == 0 && block != 0 ==>
      && Grown(old(cache.Contents()), cache.Contents(), node.number, i, block)
      && node' == InodeAt(cache.Contents(), node.number)
  {
    hide *;
    ghost var p := cache.Contents();
    SoundFacts(p);
    DirectLength(p, node.number);
    BlockIs(p, node.number, i);
    var rv;
    node' := node;
    rv, block := GetBlock(node, i);
    if block == 0 {
      block := AllocPage(cache);
      if block == 0 {
        NotZero(p);
        return;
      }
      Grow(p, node.number, i, block);
      ghost var p1 := cache.Contents();
      Volume.Write(cache, BlankData(), node.number, block);
      node' := SetBlock(node, i, block);
      PlaceIs(cache.Contents(), node.number);
      rv := InodeWrite(cache, node');
      GrownInode(p, cache.Contents(), node.number, i, block);
    }
  }

  lemma DirectLength(p: seq<Page>, n: nat)
    requires Mounted(p) && n < Inodes(|p|)
    ensures |InodeAt(p, n).direct| == DIRECT_BLOCKS
  {
  }

  lemma BlockIs(p: seq<Page>, n: nat, i: nat)
    requires Mounted(p) && n < Inodes(|p|) && i < DIRECT_BLOCKS
    ensures Block(p, n, i) == InodeAt(p, n).direct[i]
  {
  }

  /** Block 0 is never free, so allocation answers 0 only when nothing is. */
  lemma NotZero(p: seq<Page>)
    requires Sound(p) && Usable(p)
    ensures !FirstFree(p, 0)
  {
    SoundFacts(p);
  }

  lemma GrownInode(p: seq<Page>, p': seq<Page>, n: nat, i: nat, d: nat)
    requires Grown(p, p', n, i, d)
    ensures Mounted(p') && n < Inodes(|p'|) && InodeAt(p', n) == InodeAt(p, n).(direct := InodeAt(p, n).direct[i := d])
    ensures Sound(p') && |p'| == |p|
  {
  }

  /** A freshly formatted disk holds no file data and is sound. */
  lemma FormattedIsSound(pages: seq<Page>)
    requires Formatted(pages)
    ensures Sound(pages)
    ensures forall n: nat | n < Inodes(|pages|) :: Whole(InodeAt(pages, n)) && Bytes(pages, n) == []
  {
    hide Mounted, Usable, Free, InodeAt, Reserved, InodeFree;
    MountedRoom(pages);
    forall n: nat, i: nat | n < Inodes(|pages|) && i < DIRECT_BLOCKS
      ensures Block(pages, n, i) == 0
    {
      assert InodeAt(pages, n) == BlankInode();
    }
  }

  lemma MountedRoom(pages: seq<Page>)
    requires Mounted(pages)
    ensures Usable(pages) && Reserved(|pages|) < |pages|
  {
  }

  // ----- A new file -----

  /** The allocation of an inode keeps the disk sound; it numbers that inode and leaves all files as they were. */
  lemma TakenIsSound(p: seq<Page>, n: nat)
    requires Sound(p) && Mounted(p) && n < InodeBits(|p|) && n < Inodes(|p|)
    ensures InodeBlock(p[0].super, n) < |p| && p[InodeBlock(p[0].super, n)].InodePage?
    ensures var p' := InodeTaken(p, n);
      && Sound(p') && Mounted(p') && |p'| == |p|
      && InodeAt(p', n) == InodeAt(p, n).(number := n)
      && (forall m: nat | m < Inodes(|p|) && m != n :: InodeAt(p', m) == InodeAt(p, m))
      && forall m: nat | m < Inodes(|p|) :: Bytes(p', m) == Bytes(p, m)
  {
    hide *;
    SoundFacts(p);
    InodePlace(p, n);
    PlaceIs(p, n);
    MarkedIsSound(p, n);
    var p1 := InodeMarked(p, n);
    var inode := InodeAt(p1, n).(number := n);
    Rewritten(p1, inode);
    TakenIsRewritten(p, n);
    forall m: nat | m < Inodes(|p|)
      ensures Bytes(WithInode(p1, inode), m) == Bytes(p, m)
    {
      SameBytes(p, WithInode(p1, inode), m);
    }
  }

  lemma TakenIsRewritten(p: seq<Page>, n: nat)
    requires Mounted(p) && n < InodeBits(|p|) && n < Inodes(|p|)
    ensures InodeBlock(p[0].super, n) < |p| && p[InodeBlock(p[0].super, n)].InodePage?
    ensures Mounted(InodeMarked(p, n)) && |InodeMarked(p, n)| == |p|
    ensures InodeTaken(p, n) == WithInode(InodeMarked(p, n), InodeAt(InodeMarked(p, n), n).(number := n))
  {
    hide Mounted;
    InodePlace(p, n);
    InodeMarkedIs(p, n);
    InodePlace(InodeMarked(p, n), n);
  }

  lemma MarkedIsSound(p: seq<Page>, n: nat)
    requires Sound(p) && Mounted(p) && n < InodeBits(|p|)
    ensures var p' := InodeMarked(p, n);
      && Sound(p') && Mounted(p') && |p'| == |p|
      && (forall m: nat | m < Inodes(|p|) :: InodeAt(p', m) == InodeAt(p, m))
      && forall b | Reserved(|p|) <= b < |p| :: p'[b] == p[b]
  {
    hide *;
    SoundFacts(p);
    InodeMarkedIs(p, n);
    MarkedKeepsTable(p, n);
    SizesInOrder(|p|);
    var p' := InodeMarked(p, n);
    MountedUsable(p');
    BitmapFirst(n);
    forall k: nat | k < |p|
      ensures Free(p', k) <==> Free(p, k)
    {
      SameBitmap(p, p', k);
    }
    BlocksKept(p, p');
    SoundSame(p, p');
  }

  lemma BitmapFirst(n: nat)
    ensures n / USABLE_BLOCK_SIZE >= 0 && USABLE_BLOCK_SIZE > 0
  {
  }

  /** The same blocks under an inode of the same size. */
  lemma SameBytes(p: seq<Page>, p': seq<Page>, m: nat)
    requires Sound(p) && Mounted(p) && Mounted(p') && |p'| == |p| && m < Inodes(|p|)
    requires InodeAt(p', m).direct == InodeAt(p, m).direct && InodeAt(p', m).size == InodeAt(p, m).size
    requires forall b | Reserved(|p|) <= b < |p| :: p'[b] == p[b]
    ensures Bytes(p', m) == Bytes(p, m)
  {
    hide Mounted, InodeAt, Sound, ByteAt, Reserved;
    forall k: nat
      ensures ByteAt(p', m, k) == ByteAt(p, m, k)
    {
      SameByte(p, p', m, k);
    }
  }

  /** A blank inode, once allocated, is an empty file that can be written. */
  lemma NewFileIsEmpty(p: seq<Page>, n: nat)
    requires Sound(p) && Mounted(p) && n < InodeBits(|p|) && n < Inodes(|p|) && InodeAt(p, n) == BlankInode()
    ensures InodeBlock(p[0].super, n) < |p| && p[InodeBlock(p[0].super, n)].InodePage?
    ensures var p' := InodeTaken(p, n);
      && Sound(p') && Mounted(p') && |p'| == |p|
      && InodeAt(p', n).number == n && Whole(InodeAt(p', n)) && Bytes(p', n) == []
  {
    hide Sound, Mounted, InodeTaken, InodeAt;
    TakenIsSound(p, n);
  }

  // ----- Writing -----

  /** Every other file has its inode and its blocks as before. */
  ghost predicate OthersKept(p: seq<Page>, p': seq<Page>, n: nat)
    requires Mounted(p) && Mounted(p') && |p'| == |p|
  {
    && (forall m: nat | m < Inodes(|p|) && m != n :: InodeAt(p', m) == InodeAt(p, m))
    && forall m: nat, j: nat | m < Inodes(|p|) && m != n && j < DIRECT_BLOCKS && Block(p, m, j) != 0 ::
         Block(p, m, j) < |p| && p'[Block(p, m, j)] == p[Block(p, m, j)]
  }

  lemma OthersKeepBytes(p: seq<Page>, p': seq<Page>, n: nat, m: nat)
    requires Mounted(p) && Mounted(p') && |p'| == |p| && OthersKept(p, p', n) && m < Inodes(|p|) && m != n
    ensures InodeAt(p', m) == InodeAt(p, m) && Bytes(p', m) == Bytes(p, m)
  {
    hide Mounted, InodeAt;
    assert forall k: nat :: ByteAt(p', m, k) == ByteAt(p, m, k);
  }

  /** Byte k once the first done bytes of buf have been written from offset on. */
  ghost function Wanted(p: seq<Page>, n: nat, buf: seq<byte>, offset: nat, done: nat, k: nat): byte
    requires Mounted(p) && n < Inodes(|p|) && done <= |buf|
  {
    if offset <= k < offset + done then buf[k - offset] else ByteAt(p, n, k)
  }

  /** Every byte is what it should be, and has its block if it was written or lies below the old size. */
  ghost predicate BytesDone(p0: seq<Page>, p: seq<Page>, n: nat, buf: seq<byte>, offset: nat, done: nat)
    requires Mounted(p0) && Mounted(p) && |p| == |p0| && n < Inodes(|p|) && done <= |buf|
  {
    forall k: nat | k < CAPACITY ::
      && ByteAt(p, n, k) == Wanted(p0, n, buf, offset, done, k)
      && (k < InodeAt(p0, n).size || offset <= k < offset + done ==> Block(p, n, k / USABLE_BLOCK_SIZE) != 0)
  }

  ghost predicate Progress(p0: seq<Page>, p: seq<Page>, n: nat, buf: seq<byte>, offset: nat, done: nat) {
    && Sound(p0) && Sound(p) && |p| == |p0| && n < Inodes(|p|) && done <= |buf|
    && InodeAt(p, n).size == InodeAt(p0, n).size && InodeAt(p, n).number == InodeAt(p0, n).number
    && OthersKept(p0, p, n)
    && BytesDone(p0, p, n, buf, offset, done)
  }

  lemma ProgressStart(p: seq<Page>, n: nat, buf: seq<byte>, offset: nat)
    requires Sound(p) && n < Inodes(|p|) && Whole(InodeAt(p, n))
    ensures Progress(p, p, n, buf, offset, 0)
  {
    hide Mounted, InodeAt;
    forall k: nat | k < CAPACITY && k < InodeAt(p, n).size
      ensures Block(p, n, k / USABLE_BLOCK_SIZE) != 0
    {
      assert (k / USABLE_BLOCK_SIZE) * USABLE_BLOCK_SIZE <= k;
    }
    forall m: nat, j: nat | m < Inodes(|p|) && j < DIRECT_BLOCKS && Block(p, m, j) != 0
      ensures Block(p, m, j) < |p|
    {
      OwnsBlock(p, m, j);
    }
  }

  lemma InPage(k: nat)
    requires k < CAPACITY
    ensures k / USABLE_BLOCK_SIZE < DIRECT_BLOCKS
  {
  }

  lemma OthersKeptTwice(p0: seq<Page>, p: seq<Page>, p': seq<Page>, n: nat)
    requires Mounted(p0) && Mounted(p) && Mounted(p') && |p| == |p0| == |p'| && OthersKept(p0, p, n)
    requires forall m: nat | m < Inodes(|p|) && m != n :: InodeAt(p', m) == InodeAt(p, m)
    requires forall m: nat, j: nat | m < Inodes(|p|) && m != n && j < DIRECT_BLOCKS && Block(p, m, j) != 0 ::
      Block(p, m, j) < |p| && p'[Block(p, m, j)] == p[Block(p, m, j)]
    ensures OthersKept(p0, p', n)
  {
    hide Mounted, InodeAt;
    assert forall m: nat, j: nat | m < Inodes(|p|) && m != n && j < DIRECT_BLOCKS :: Block(p, m, j) == Block(p0, m, j);
  }

  lemma GrownBlocks(p: seq<Page>, p': seq<Page>, n: nat, i: nat, d: nat)
    requires Grown(p, p', n, i, d)
    ensures Mounted(p') && n < Inodes(|p|) && i < DIRECT_BLOCKS && Block(p, n, i) == 0 && Block(p', n, i) == d != 0
    ensures forall j: nat | j < DIRECT_BLOCKS && j != i :: Block(p', n, j) == Block(p, n, j)
    ensures forall m: nat | m < Inodes(|p|) && m != n :: InodeAt(p', m) == InodeAt(p, m)
    ensures forall m: nat, j: nat | m < Inodes(|p|) && j < DIRECT_BLOCKS && Block(p, m, j) != 0 ::
      Block(p, m, j) < |p| && p'[Block(p, m, j)] == p[Block(p, m, j)] && IsPage(p, Block(p, m, j))
    ensures InodeAt(p', n).size == InodeAt(p, n).size && InodeAt(p', n).number == InodeAt(p, n).number
  {
    hide Mounted, InodeAt, Reserved, Sound, BlankData;
    SoundFacts(p);
    SoundFacts(p');
    forall m: nat, j: nat | m < Inodes(|p|) && j < DIRECT_BLOCKS && Block(p, m, j) != 0
      ensures Block(p, m, j) < |p| && p'[Block(p, m, j)] == p[Block(p, m, j)] && IsPage(p, Block(p, m, j))
    {
      OwnsBlock(p, m, j);
    }
    DirectLength(p, n);
  }

  /** A new block in front of nothing: no byte that counts changes. */
  lemma ProgressGrow(p0: seq<Page>, p: seq<Page>, p': seq<Page>, n: nat, buf: seq<byte>, offset: nat, done: nat, i: nat,
                     d: nat)
    requires Progress(p0, p, n, buf, offset, done) && Grown(p, p', n, i, d)
    ensures Progress(p0, p', n, buf, offset, done)
  {
    hide Mounted, InodeAt, Reserved, Sound, Grown, OthersKept, IsPage;
    SoundFacts(p0);
    SoundFacts(p);
    GrownInode(p, p', n, i, d);
    GrownBlocks(p, p', n, i, d);
    OthersKeptTwice(p0, p, p', n);
    forall k: nat | k < CAPACITY
      ensures ByteAt(p', n, k) == Wanted(p0, n, buf, offset, done, k)
      ensures k < InodeAt(p0, n).size || offset <= k < offset + done ==> Block(p', n, k / USABLE_BLOCK_SIZE) != 0
    {
      InPage(k);
      var b := Block(p, n, k / USABLE_BLOCK_SIZE);
      if b != 0 { SamePageByte(p, p', b, k % USABLE_BLOCK_SIZE); }
      BlankByte(p, p', n, i, d, k % USABLE_BLOCK_SIZE);
    }
  }

  lemma BlankByte(p: seq<Page>, p': seq<Page>, n: nat, i: nat, d: nat, k: nat)
    requires Grown(p, p', n, i, d) && k < USABLE_BLOCK_SIZE
    ensures ByteIn(p', d, k) == 0
  {
  }

  lemma SamePageByte(p: seq<Page>, p': seq<Page>, b: nat, k: nat)
    requires |p'| == |p| && (b < |p| ==> p'[b] == p[b]) && k < USABLE_BLOCK_SIZE
    ensures ByteIn(p', b, k) == ByteIn(p, b, k)
  {
  }

  /** The page with a chunk of the buffer copied in. */
  function Patched(bytes: seq<byte>, at: nat, chunk: seq<byte>): (r: seq<byte>)
    requires at + |chunk| <= |bytes|
    ensures |r| == |bytes|
    ensures forall k | 0 <= k < |bytes| :: r[k] == if at <= k < at + |chunk| then chunk[k - at] else bytes[k]
  {
    bytes[..at] + chunk + bytes[at + |chunk|..]
  }

  /** A chunk of the buffer written to its page. */
  lemma ProgressStore(p0: seq<Page>, p: seq<Page>, n: nat, buf: seq<byte>, offset: nat, done: nat, count: nat)
    requires Progress(p0, p, n, buf, offset, done) && done + count <= |buf| && offset + done < CAPACITY
    requires (offset + done) % USABLE_BLOCK_SIZE + count <= USABLE_BLOCK_SIZE
    requires Block(p, n, (offset + done) / USABLE_BLOCK_SIZE) != 0
    ensures var i, d := (offset + done) / USABLE_BLOCK_SIZE, Block(p, n, (offset + done) / USABLE_BLOCK_SIZE);
      && IsPage(p, d)
      && var page := DataPage(Patched(p[d].bytes, (offset + done) % USABLE_BLOCK_SIZE, buf[done..done + count]));
      && Progress(p0, p[d := page], n, buf, offset, done + count) && InodeAt(p, n) == InodeAt(p[d := page], n)
  {
    hide Mounted, InodeAt, Reserved, Sound, OthersKept, Patched;
    SoundFacts(p0);
    SoundFacts(p);
    var i, at := (offset + done) / USABLE_BLOCK_SIZE, (offset + done) % USABLE_BLOCK_SIZE;
    var d := Block(p, n, i);
    OwnsBlock(p, n, i);
    OwnBlockIs(p, d);
    var bytes := Patched(p[d].bytes, at, buf[done..done + count]);
    Stored(p, n, i, bytes);
    var p' := p[d := DataPage(bytes)];
    SoundFacts(p');
    BlocksBelow(p);
    Apart(p, n, i);
    OthersKeptTwice(p0, p, p', n);
    forall k: nat | k < CAPACITY
      ensures ByteAt(p', n, k) == Wanted(p0, n, buf, offset, done + count, k)
      ensures k < InodeAt(p0, n).size || offset <= k < offset + done + count ==>
        Block(p', n, k / USABLE_BLOCK_SIZE) != 0
    {
      InPage(k);
      StoredByte(p0, p, p', n, buf, offset, done, count, k);
    }
  }

  lemma Apart(p: seq<Page>, n: nat, i: nat)
    requires Sound(p) && n < Inodes(|p|) && i < DIRECT_BLOCKS && Block(p, n, i) != 0
    ensures forall j: nat | j < DIRECT_BLOCKS && j != i && Block(p, n, j) != 0 :: Block(p, n, j) != Block(p, n, i)
  {
  }

  lemma BlocksBelow(p: seq<Page>)
    requires Sound(p)
    ensures forall m: nat, j: nat | m < Inodes(|p|) && j < DIRECT_BLOCKS && Block(p, m, j) != 0 :: Block(p, m, j) < |p|
  {
    forall m: nat, j: nat | m < Inodes(|p|) && j < DIRECT_BLOCKS && Block(p, m, j) != 0
      ensures Block(p, m, j) < |p|
    {
      OwnsBlock(p, m, j);
    }
  }

  lemma StoredByte(p0: seq<Page>, p: seq<Page>, p': seq<Page>, n: nat, buf: seq<byte>, offset: nat, done: nat,
                   count: nat, k: nat)
    requires Mounted(p0) && Mounted(p) && Mounted(p') && |p| == |p0| == |p'| && n < Inodes(|p|) && done + count <= |buf|
    requires BytesDone(p0, p, n, buf, offset, done) && InodeAt(p', n) == InodeAt(p, n)
    requires k < CAPACITY && offset + done < CAPACITY
    requires var i, at := (offset + done) / USABLE_BLOCK_SIZE, (offset + done) % USABLE_BLOCK_SIZE;
      && at + count <= USABLE_BLOCK_SIZE && i < DIRECT_BLOCKS && Block(p, n, i) != 0 && IsPage(p, Block(p, n, i))
      && p' == p[Block(p, n, i) := DataPage(Patched(p[Block(p, n, i)].bytes, at, buf[done..done + count]))]
    requires forall j: nat | j < DIRECT_BLOCKS && j != (offset + done) / USABLE_BLOCK_SIZE && Block(p, n, j) != 0 ::
      Block(p, n, j) != Block(p, n, (offset + done) / USABLE_BLOCK_SIZE)
    ensures ByteAt(p', n, k) == Wanted(p0, n, buf, offset, done + count, k)
    ensures k < InodeAt(p0, n).size || offset <= k < offset + done + count ==> Block(p', n, k / USABLE_BLOCK_SIZE) != 0
  {
    hide Mounted, InodeAt;
    var o := offset + done;
    InPage(k);
    Stretch(o, count, k);
    if k / USABLE_BLOCK_SIZE != o / USABLE_BLOCK_SIZE {
      assert Block(p, n, k / USABLE_BLOCK_SIZE) != 0 ==>
        Block(p', n, k / USABLE_BLOCK_SIZE) != Block(p, n, o / USABLE_BLOCK_SIZE);
    } else if o <= k < o + count {
      assert buf[done..done + count][k - o] == buf[k - offset];
    }
  }

  /** Positions in one page are as far apart as in the file. */
  lemma Stretch(o: nat, count: nat, k: nat)
    requires o % USABLE_BLOCK_SIZE + count <= USABLE_BLOCK_SIZE
    ensures k / USABLE_BLOCK_SIZE == o / USABLE_BLOCK_SIZE ==> k - o == k % USABLE_BLOCK_SIZE - o % USABLE_BLOCK_SIZE
    ensures o <= k < o + count ==> k / USABLE_BLOCK_SIZE == o / USABLE_BLOCK_SIZE
  {
  }

  /** s with buf laid over it from position o on. */
  function Splice(s: seq<byte>, buf: seq<byte>, o: nat): (r: seq<byte>)
    requires o <= |s|
    ensures |r| == if o + |buf| > |s| then o + |buf| else |s|
    ensures forall k | 0 <= k < |r| :: r[k] == if o <= k < o + |buf| then buf[k - o] else s[k]
  {
    s[..o] + buf + if o + |buf| < |s| then s[o + |buf|..] else []
  }

  /** Writing back an inode with the same blocks moves no block. */
  lemma Rewritten(p: seq<Page>, inode: Inode)
    requires Sound(p) && inode.number < Inodes(|p|) && inode.direct == InodeAt(p, inode.number).direct
    ensures Mounted(p) && Sound(WithInode(p, inode)) && Mounted(WithInode(p, inode)) && |WithInode(p, inode)| == |p|
    ensures forall m: nat | m < Inodes(|p|) ::
      InodeAt(WithInode(p, inode), m) == if m == inode.number then inode else InodeAt(p, m)
    ensures forall b | Reserved(|p|) <= b < |p| :: WithInode(p, inode)[b] == p[b]
  {
    hide *;
    SoundFacts(p);
    DirectLength(p, inode.number);
    var p' := WithInode(p, inode);
    WithInodeMounted(p, inode);
    InodeKeepsBits(p, inode);
    forall m: nat | m < Inodes(|p|)
      ensures InodeAt(p', m) == if m == inode.number then inode else InodeAt(p, m)
    {
      ReadAfterWrite(p, inode, m);
    }
    BlocksKept(p, p');
    SoundSame(p, p');
  }

  /** The same blocks behind the reserved ones, under inodes with the same lists. */
  lemma BlocksKept(p: seq<Page>, p': seq<Page>)
    requires Sound(p) && Mounted(p) && Mounted(p') && |p'| == |p|
    requires forall m: nat | m < Inodes(|p|) :: InodeAt(p', m).direct == InodeAt(p, m).direct
    requires forall b | Reserved(|p|) <= b < |p| :: p'[b] == p[b]
    ensures forall m: nat, j: nat | m < Inodes(|p|) && j < DIRECT_BLOCKS ::
      && Block(p', m, j) == Block(p, m, j)
      && (Block(p, m, j) != 0 ==> OwnBlock(p, Block(p, m, j)) && IsPage(p', Block(p, m, j)))
  {
    hide *;
    forall m: nat, j: nat | m < Inodes(|p|) && j < DIRECT_BLOCKS
      ensures Block(p', m, j) == Block(p, m, j)
      ensures Block(p, m, j) != 0 ==> OwnBlock(p, Block(p, m, j)) && IsPage(p', Block(p, m, j))
    {
      BlockIs(p, m, j);
      BlockIs(p', m, j);
      if Block(p, m, j) != 0 {
        OwnsBlock(p, m, j);
        OwnBlockIs(p, Block(p, m, j));
        SamePage(p, p', Block(p, m, j));
      }
    }
  }

  /** In particular one with another size. */
  lemma Resized(p: seq<Page>, n: nat, size: nat)
    requires Sound(p) && n < Inodes(|p|) && InodeAt(p, n).number == n
    ensures Mounted(p) && Sound(WithInode(p, InodeAt(p, n).(size := size)))
    ensures Mounted(WithInode(p, InodeAt(p, n).(size := size)))
    ensures |WithInode(p, InodeAt(p, n).(size := size))| == |p|
    ensures InodeAt(WithInode(p, InodeAt(p, n).(size := size)), n) == InodeAt(p, n).(size := size)
    ensures forall m: nat | m < Inodes(|p|) && m != n ::
      InodeAt(WithInode(p, InodeAt(p, n).(size := size)), m) == InodeAt(p, m)
    ensures forall b | Reserved(|p|) <= b < |p| :: WithInode(p, InodeAt(p, n).(size := size))[b] == p[b]
  {
    hide *;
    SoundFacts(p);
    Rewritten(p, InodeAt(p, n).(size := size));
  }

  lemma SamePage(p: seq<Page>, p': seq<Page>, b: nat)
    requires IsPage(p, b) && |p'| == |p| && p'[b] == p[b]
    ensures IsPage(p', b)
  {
  }

  lemma SoundSame(p: seq<Page>, p': seq<Page>)
    requires Sound(p) && Mounted(p') && |p'| == |p| && Usable(p) && Usable(p')
    requires forall k: nat | k < |p| :: Free(p', k) <==> Free(p, k)
    requires forall m: nat, j: nat | m < Inodes(|p|) && j < DIRECT_BLOCKS ::
      && Block(p', m, j) == Block(p, m, j)
      && (Block(p, m, j) != 0 ==> OwnBlock(p, Block(p, m, j)) && IsPage(p', Block(p, m, j)))
    ensures Sound(p')
  {
    hide Mounted, Usable, Free, InodeAt, Reserved, Block, OwnBlock, IsPage, Inodes;
    SoundFacts(p);
    forall m: nat, j: nat | m < Inodes(|p|) && j < DIRECT_BLOCKS && Block(p', m, j) != 0
      ensures OwnBlock(p', Block(p', m, j))
    {
      OwnBlockIs(p, Block(p, m, j));
      OwnBlockNow(p, p', Block(p, m, j));
    }
    forall n: nat, i: nat, m: nat, j: nat
      | n < Inodes(|p|) && m < Inodes(|p|) && i < DIRECT_BLOCKS && j < DIRECT_BLOCKS
        && Block(p', n, i) != 0 && Block(p', n, i) == Block(p', m, j)
      ensures n == m && i == j
    {
      assert Block(p, n, i) == Block(p, m, j);
      if n != m || i != j { Distinct(p, n, i, m, j); }
    }
  }

  lemma OwnBlockNow(p: seq<Page>, p': seq<Page>, b: nat)
    requires Mounted(p) && Mounted(p') && |p'| == |p| && Usable(p') && OwnBlock(p, b) && IsPage(p', b) && !Free(p', b)
    ensures OwnBlock(p', b)
  {
  }

  // ----- Which blocks a write takes -----

  ghost function FreeSet(p: seq<Page>): (s: set<nat>)
    requires Usable(p)
    ensures forall k: nat :: k in s <==> k < |p| && Free(p, k)
  {
    set k: nat | k < |p| && Free(p, k)
  }

  /** How many of the pages from lo to hi of a file have no block. */
  ghost function Missing(p: seq<Page>, n: nat, lo: nat, hi: nat): nat
    requires Mounted(p) && n < Inodes(|p|) && lo <= hi <= DIRECT_BLOCKS
    decreases hi
  {
    if hi == lo then 0 else Missing(p, n, lo, hi - 1) + if Block(p, n, hi - 1) == 0 then 1 else 0
  }

  ghost predicate HasBlock(p: seq<Page>, n: nat, b: nat)
    requires Mounted(p) && n < Inodes(|p|)
  {
    exists i: nat :: i < DIRECT_BLOCKS && Block(p, n, i) == b
  }

  /** Page i had no block before and has one now. */
  ghost predicate Gained(p0: seq<Page>, p: seq<Page>, n: nat, i: nat)
    requires Mounted(p0) && Mounted(p) && n < Inodes(|p0|) && n < Inodes(|p|)
  {
    i < DIRECT_BLOCKS && Block(p0, n, i) == 0 && Block(p, n, i) != 0
  }

  /** The pages from lo to hi have blocks now, and no block was taken but for those of them that had none. */
  ghost predicate Provided(p0: seq<Page>, p: seq<Page>, n: nat, lo: nat, hi: nat)
    requires Mounted(p0) && Mounted(p) && |p| == |p0| && n < Inodes(|p|)
  {
    && lo <= hi <= DIRECT_BLOCKS
    && (forall i: nat | lo <= i < hi :: Block(p, n, i) != 0)
    && (forall i: nat | i < DIRECT_BLOCKS && (Block(p0, n, i) != 0 || i < lo || hi <= i) ::
          Block(p, n, i) == Block(p0, n, i))
  }

  /** The new blocks are the lowest that were free, in the order of their pages. */
  ghost predicate LowestFirst(p0: seq<Page>, p: seq<Page>, n: nat)
    requires Mounted(p0) && Mounted(p) && |p| == |p0| && n < Inodes(|p|) && Usable(p0) && Usable(p)
  {
    && (forall i: nat | Gained(p0, p, n, i) :: Block(p, n, i) < |p| && Free(p0, Block(p, n, i)))
    && (forall i: nat, k: nat | Gained(p0, p, n, i) && k < |p| && Free(p, k) :: Block(p, n, i) < k)
    && forall i: nat, j: nat | Gained(p0, p, n, i) && Gained(p0, p, n, j) && i < j :: Block(p, n, i) < Block(p, n, j)
  }

  /** What has happened to the disk while the pages from lo to hi of file n were given blocks and written. */
  ghost predicate Ledger(p0: seq<Page>, p: seq<Page>, n: nat, lo: nat, hi: nat) {
    && Sound(p0) && Sound(p) && |p| == |p0| && n < Inodes(|p|) && Usable(p0) && Usable(p)
    && Provided(p0, p, n, lo, hi) && LowestFirst(p0, p, n)
    && (forall k: nat | k < |p| :: Free(p, k) <==> Free(p0, k) && !HasBlock(p, n, k))
    && (forall b: nat | Reserved(|p|) <= b < |p| && !HasBlock(p, n, b) :: p[b] == p0[b])
    && Charged(p0, p, Missing(p0, n, lo, hi))
    && |FreeSet(p)| + Missing(p0, n, lo, hi) == |FreeSet(p0)|
  }

  lemma LedgerStart(p: seq<Page>, n: nat, lo: nat)
    requires Sound(p) && n < Inodes(|p|) && lo <= DIRECT_BLOCKS
    ensures Ledger(p, p, n, lo, lo)
  {
    SoundFacts(p);
    ChargedNone(p);
    hide Mounted, Usable, Free, InodeAt, Reserved, Inodes, Charged;
    forall i: nat | i < DIRECT_BLOCKS && Block(p, n, i) != 0
      ensures Block(p, n, i) < |p| && !Free(p, Block(p, n, i))
    {
      OwnsBlock(p, n, i);
      OwnBlockIs(p, Block(p, n, i));
    }
  }

  lemma LedgerFacts(p0: seq<Page>, p: seq<Page>, n: nat, lo: nat, hi: nat)
    requires Ledger(p0, p, n, lo, hi)
    ensures Sound(p0) && Sound(p) && Mounted(p0) && Mounted(p) && |p| == |p0| && n < Inodes(|p|)
    ensures Usable(p0) && Usable(p) && lo <= hi <= DIRECT_BLOCKS
    ensures Provided(p0, p, n, lo, hi) && LowestFirst(p0, p, n) && Charged(p0, p, Missing(p0, n, lo, hi))
    ensures forall k: nat | k < |p| :: Free(p, k) <==> Free(p0, k) && !HasBlock(p, n, k)
    ensures forall b: nat | Reserved(|p|) <= b < |p| && !HasBlock(p, n, b) :: p[b] == p0[b]
    ensures |FreeSet(p)| + Missing(p0, n, lo, hi) == |FreeSet(p0)|
  {
    SoundFacts(p0);
    SoundFacts(p);
  }

  lemma LedgerIntro(p0: seq<Page>, p: seq<Page>, n: nat, lo: nat, hi: nat)
    requires Sound(p0) && Sound(p) && Mounted(p0) && Mounted(p) && |p| == |p0| && n < Inodes(|p|)
    requires Usable(p0) && Usable(p) && lo <= hi <= DIRECT_BLOCKS
    requires Provided(p0, p, n, lo, hi) && LowestFirst(p0, p, n) && Charged(p0, p, Missing(p0, n, lo, hi))
    requires forall k: nat | k < |p| :: Free(p, k) <==> Free(p0, k) && !HasBlock(p, n, k)
    requires forall b: nat | Reserved(|p|) <= b < |p| && !HasBlock(p, n, b) :: p[b] == p0[b]
    requires |FreeSet(p)| + Missing(p0, n, lo, hi) == |FreeSet(p0)|
    ensures Ledger(p0, p, n, lo, hi)
  {
  }

  lemma MissingStep(p: seq<Page>, n: nat, lo: nat, hi: nat)
    requires Mounted(p) && n < Inodes(|p|) && lo <= hi < DIRECT_BLOCKS
    ensures Missing(p, n, lo, hi + 1) == Missing(p, n, lo, hi) + if Block(p, n, hi) == 0 then 1 else 0
  {
  }

  /** The next page has its block already. */
  lemma LedgerKept(p0: seq<Page>, p: seq<Page>, n: nat, lo: nat, hi: nat)
    requires Ledger(p0, p, n, lo, hi) && hi < DIRECT_BLOCKS && Mounted(p) && n < Inodes(|p|) && Block(p, n, hi) != 0
    ensures Ledger(p0, p, n, lo, hi + 1)
  {
    hide *;
    LedgerFacts(p0, p, n, lo, hi);
    ProvidedKept(p0, p, n, lo, hi);
    MissingStep(p0, n, lo, hi);
    LedgerIntro(p0, p, n, lo, hi + 1);
  }

  lemma ProvidedKept(p0: seq<Page>, p: seq<Page>, n: nat, lo: nat, hi: nat)
    requires Mounted(p0) && Mounted(p) && |p| == |p0| && n < Inodes(|p|) && hi < DIRECT_BLOCKS
    requires Provided(p0, p, n, lo, hi) && Block(p, n, hi) != 0
    ensures Provided(p0, p, n, lo, hi + 1) && Block(p0, n, hi) == Block(p, n, hi)
  {
    hide Mounted, InodeAt;
  }

  /** The next page gets a block. */
  lemma LedgerGrown(p0: seq<Page>, p: seq<Page>, p': seq<Page>, n: nat, lo: nat, hi: nat, d: nat)
    requires Ledger(p0, p, n, lo, hi) && Grown(p, p', n, hi, d)
    ensures Ledger(p0, p', n, lo, hi + 1)
  {
    hide *;
    LedgerFacts(p0, p, n, lo, hi);
    GrownBlocks(p, p', n, hi, d);
    GrownBits(p, p', n, hi, d);
    SoundFacts(p');
    ProvidedGrown(p0, p, p', n, lo, hi, d);
    LowestGrown(p0, p, p', n, lo, hi, d);
    HasBlockGrown(p, p', n, hi, d);
    MissingStep(p0, n, lo, hi);
    ChargedTwice(p0, p, p', Missing(p0, n, lo, hi));
    OneTakenFrom(p, p', d);
    LedgerIntro(p0, p', n, lo, hi + 1);
  }

  lemma GrownBits(p: seq<Page>, p': seq<Page>, n: nat, i: nat, d: nat)
    requires Grown(p, p', n, i, d)
    ensures Sound(p') && |p'| == |p| && Usable(p) && Usable(p')
    ensures d < |p| && Free(p, d) && FirstFree(p, d) && Charged(p, p', 1)
    ensures forall k: nat | k < |p| :: Free(p', k) <==> k != d && Free(p, k)
    ensures forall b | Reserved(|p|) <= b < |p| && b != d :: p'[b] == p[b]
  {
    SoundFacts(p);
    SoundFacts(p');
  }

  lemma ProvidedGrown(p0: seq<Page>, p: seq<Page>, p': seq<Page>, n: nat, lo: nat, hi: nat, d: nat)
    requires Mounted(p0) && Mounted(p) && Mounted(p') && |p'| == |p| == |p0| && n < Inodes(|p|) && hi < DIRECT_BLOCKS
    requires Provided(p0, p, n, lo, hi) && Block(p, n, hi) == 0 && Block(p', n, hi) == d != 0
    requires forall j: nat | j < DIRECT_BLOCKS && j != hi :: Block(p', n, j) == Block(p, n, j)
    ensures Provided(p0, p', n, lo, hi + 1) && Block(p0, n, hi) == 0
  {
    hide Mounted, InodeAt;
  }

  lemma LowestGrown(p0: seq<Page>, p: seq<Page>, p': seq<Page>, n: nat, lo: nat, hi: nat, d: nat)
    requires Mounted(p0) && Mounted(p) && Mounted(p') && |p'| == |p| == |p0| && n < Inodes(|p|) && hi < DIRECT_BLOCKS
    requires Usable(p0) && Usable(p) && Usable(p')
    requires Provided(p0, p, n, lo, hi) && LowestFirst(p0, p, n) && Block(p, n, hi) == 0 && Block(p', n, hi) == d
    requires forall j: nat | j < DIRECT_BLOCKS && j != hi :: Block(p', n, j) == Block(p, n, j)
    requires forall k: nat | k < |p| :: Free(p, k) <==> Free(p0, k) && !HasBlock(p, n, k)
    requires FirstFree(p, d) && forall k: nat | k < |p| :: Free(p', k) <==> k != d && Free(p, k)
    ensures LowestFirst(p0, p', n)
  {
    hide Mounted, InodeAt, Usable, Free;
    forall i: nat | Gained(p0, p', n, i)
      ensures i == hi || (Gained(p0, p, n, i) && i < hi && Block(p', n, i) == Block(p, n, i))
    {
    }
  }

  lemma HasBlockGrown(p: seq<Page>, p': seq<Page>, n: nat, hi: nat, d: nat)
    requires Mounted(p) && Mounted(p') && |p'| == |p| && n < Inodes(|p|) && hi < DIRECT_BLOCKS
    requires Block(p, n, hi) == 0 && Block(p', n, hi) == d
    requires forall j: nat | j < DIRECT_BLOCKS && j != hi :: Block(p', n, j) == Block(p, n, j)
    ensures forall b: nat | b != 0 :: HasBlock(p', n, b) <==> b == d || HasBlock(p, n, b)
  {
    hide Mounted, InodeAt;
    forall b: nat | b != 0 && HasBlock(p, n, b)
      ensures HasBlock(p', n, b)
    {
      var i: nat :| i < DIRECT_BLOCKS && Block(p, n, i) == b;
      assert Block(p', n, i) == b;
    }
  }

  lemma OneTakenFrom(p: seq<Page>, p': seq<Page>, d: nat)
    requires Usable(p) && Usable(p') && |p'| == |p| && d < |p| && Free(p, d)
    requires forall k: nat | k < |p| :: Free(p', k) <==> k != d && Free(p, k)
    ensures |FreeSet(p)| == |FreeSet(p')| + 1
  {
    hide Usable, Free;
    assert FreeSet(p) == FreeSet(p') + {d};
  }

  /** Only blocks of the file and its inode have changed since. */
  lemma LedgerStill(p0: seq<Page>, p: seq<Page>, p': seq<Page>, n: nat, lo: nat, hi: nat)
    requires Ledger(p0, p, n, lo, hi) && Sound(p') && Mounted(p) && Mounted(p') && |p'| == |p| && n < Inodes(|p|)
    requires Usable(p) && Usable(p') && forall k: nat | k < |p| :: Free(p', k) <==> Free(p, k)
    requires forall i: nat | i < DIRECT_BLOCKS :: Block(p', n, i) == Block(p, n, i)
    requires forall b: nat | Reserved(|p|) <= b < |p| && !HasBlock(p, n, b) :: p'[b] == p[b]
    requires forall b | 0 <= b < InodeTableStart(|p|) && b < |p| :: p'[b] == p[b]
    ensures Ledger(p0, p', n, lo, hi)
  {
    hide *;
    LedgerFacts(p0, p, n, lo, hi);
    ChargedStill(p0, p, p', Missing(p0, n, lo, hi));
    SameBlocks(p0, p, p', n, lo, hi);
    assert FreeSet(p') == FreeSet(p);
    LedgerIntro(p0, p', n, lo, hi);
  }

  lemma SameBlocks(p0: seq<Page>, p: seq<Page>, p': seq<Page>, n: nat, lo: nat, hi: nat)
    requires Mounted(p0) && Mounted(p) && Mounted(p') && |p'| == |p| == |p0| && n < Inodes(|p|)
    requires Usable(p0) && Usable(p) && Usable(p') && forall k: nat | k < |p| :: Free(p', k) <==> Free(p, k)
    requires forall i: nat | i < DIRECT_BLOCKS :: Block(p', n, i) == Block(p, n, i)
    requires Provided(p0, p, n, lo, hi) && LowestFirst(p0, p, n)
    ensures Provided(p0, p', n, lo, hi) && LowestFirst(p0, p', n)
    ensures forall b: nat :: HasBlock(p', n, b) <==> HasBlock(p, n, b)
  {
    hide Mounted, InodeAt, Usable, Free;
    assert forall i: nat :: Gained(p0, p', n, i) <==> Gained(p0, p, n, i);
    forall b: nat | HasBlock(p, n, b)
      ensures HasBlock(p', n, b)
    {
      var i: nat :| i < DIRECT_BLOCKS && Block(p, n, i) == b;
      assert Block(p', n, i) == b;
    }
  }

  /** A page stored under the file. */
  lemma LedgerStored(p0: seq<Page>, p: seq<Page>, n: nat, lo: nat, hi: nat, i: nat, bytes: seq<byte>)
    requires Ledger(p0, p, n, lo, hi) && Mounted(p) && n < Inodes(|p|) && i < DIRECT_BLOCKS && Block(p, n, i) != 0
    requires |bytes| == USABLE_BLOCK_SIZE
    ensures Block(p, n, i) < |p| && Ledger(p0, p[Block(p, n, i) := DataPage(bytes)], n, lo, hi)
  {
    hide *;
    LedgerFacts(p0, p, n, lo, hi);
    OwnsBlock(p, n, i);
    OwnBlockIs(p, Block(p, n, i));
    PageFilled(bytes);
    SizesInOrder(|p|);
    DataKeepsInodes(p, Block(p, n, i), DataPage(bytes));
    Stored(p, n, i, bytes);
    var p' := p[Block(p, n, i) := DataPage(bytes)];
    forall j: nat | j < DIRECT_BLOCKS
      ensures Block(p', n, j) == Block(p, n, j)
    {
      BlockIs(p, n, j);
      BlockIs(p', n, j);
    }
    HasBlockAt(p, n, i);
    LedgerStill(p0, p, p', n, lo, hi);
  }

  lemma HasBlockAt(p: seq<Page>, n: nat, i: nat)
    requires Mounted(p) && n < Inodes(|p|) && i < DIRECT_BLOCKS
    ensures HasBlock(p, n, Block(p, n, i))
  {
  }

  /** The inode written back with another size. */
  lemma LedgerResized(p0: seq<Page>, p: seq<Page>, n: nat, lo: nat, hi: nat, size: nat)
    requires Ledger(p0, p, n, lo, hi) && Mounted(p) && n < Inodes(|p|) && InodeAt(p, n).number == n
    ensures Ledger(p0, WithInode(p, InodeAt(p, n).(size := size)), n, lo, hi)
  {
    hide *;
    LedgerFacts(p0, p, n, lo, hi);
    DirectLength(p, n);
    var p' := WithInode(p, InodeAt(p, n).(size := size));
    Resized(p, n, size);
    InodeKeepsBits(p, InodeAt(p, n).(size := size));
    WithInodeMounted(p, InodeAt(p, n).(size := size));
    forall j: nat | j < DIRECT_BLOCKS
      ensures Block(p', n, j) == Block(p, n, j)
    {
      BlockIs(p, n, j);
      BlockIs(p', n, j);
    }
    LedgerStill(p0, p, p', n, lo, hi);
  }

  /** What fits behind the offset in its page, or all that remains. */
  method ChunkSize(offset: nat, remaining: nat) returns (count: nat)
    requires remaining > 0
    ensures 0 < count <= remaining && offset % USABLE_BLOCK_SIZE + count <= USABLE_BLOCK_SIZE
    ensures count == remaining || (offset + count) % USABLE_BLOCK_SIZE == 0
  {
    count := USABLE_BLOCK_SIZE - offset % USABLE_BLOCK_SIZE;
    if count > remaining {
      count := remaining;
    }
  }

  /** One round of the loop; no block when the disk is full. */
  method WriteChunk(cache: C.Cache, node: Inode, buf: seq<byte>, offset: nat, done: nat, ghost p0: seq<Page>,
                    ghost lo: nat)
    returns (ok: bool, count: nat, node': Inode)
    requires cache.Valid() && node.number < Inodes(|cache.Contents()|)
    requires Progress(p0, cache.Contents(), node.number, buf, offset, done) && done < |buf|
    requires offset + |buf| <= CAPACITY
    requires Mounted(cache.Contents()) && InodeAt(cache.Contents(), node.number) == node
    requires Ledger(p0, cache.Contents(), node.number, lo, (offset + done) / USABLE_BLOCK_SIZE)
    modifies cache.Repr
    ensures cache.Valid() && fresh(cache.Repr - old(cache.Repr)) && |cache.Contents()| == |old(cache.Contents())|
    ensures !ok ==>
      cache.Contents() == old(cache.Contents()) && Usable(old(cache.Contents())) && Full(old(cache.Contents()))
    ensures !ok ==> count == 0 && node' == node
    ensures (offset + done) / USABLE_BLOCK_SIZE < DIRECT_BLOCKS
    ensures !ok ==> Block(cache.Contents(), node.number, (offset + done) / USABLE_BLOCK_SIZE) == 0
    ensures ok ==> 0 < count <= |buf| - done
    ensures ok ==> done + count == |buf| || (offset + done + count) % USABLE_BLOCK_SIZE == 0
    ensures ok ==> (offset + done + count - 1) / USABLE_BLOCK_SIZE == (offset + done) / USABLE_BLOCK_SIZE
    ensures ok ==> Ledger(p0, cache.Contents(), node.number, lo, (offset + done) / USABLE_BLOCK_SIZE + 1)
    ensures Progress(p0, cache.Contents(), node.number, buf, offset, done + count)
    ensures node'.number == node.number && Mounted(cache.Contents()) && InodeAt(cache.Contents(), node.number) == node'
  {
    hide *;
    ghost var p, n := cache.Contents(), node.number;
    ProgressFacts(p0, p, n, buf, offset, done);
    ChunkPlace(offset + done);
    var pageIndex, pageOffset := (offset + done) / USABLE_BLOCK_SIZE, (offset + done) % USABLE_BLOCK_SIZE;
    var block;
    block, node' := EnsureBlock(cache, node, pageIndex);
    if block == 0 {
      return false, 0, node;
    }
    ghost var p1 := cache.Contents();
    if Block(p, n, pageIndex) == 0 {
      ProgressGrow(p0, p, p1, n, buf, offset, done, pageIndex, block);
      GrownBlocks(p, p1, n, pageIndex, block);
      LedgerGrown(p0, p, p1, n, lo, pageIndex, block);
    } else {
      LedgerKept(p0, p, n, lo, pageIndex);
    }
    ProgressFacts(p0, p1, n, buf, offset, done);
    OwnsBlock(p1, n, pageIndex);
    OwnBlockIs(p1, block);
    var page := Volume.Read(cache, node.number, block);
    count := ChunkSize(offset + done, |buf| - done);
    ProgressStore(p0, p1, n, buf, offset, done, count);
    LedgerStored(p0, p1, n, lo, pageIndex + 1, pageIndex, Patched(page.bytes, pageOffset, buf[done..done + count]));
    Stretch(offset + done, count, offset + done + count - 1);
    Volume.Write(cache, DataPage(Patched(page.bytes, pageOffset, buf[done..done + count])), node.number, block);
    ProgressFacts(p0, cache.Contents(), n, buf, offset, done + count);
    ok := true;
  }

  lemma ProgressFacts(p0: seq<Page>, p: seq<Page>, n: nat, buf: seq<byte>, offset: nat, done: nat)
    requires Progress(p0, p, n, buf, offset, done)
    ensures Sound(p0) && Sound(p) && Mounted(p0) && Mounted(p) && |p| == |p0| && n < Inodes(|p|) && done <= |buf|
    ensures InodeAt(p, n).size == InodeAt(p0, n).size && InodeAt(p, n).number == InodeAt(p0, n).number
    ensures OthersKept(p0, p, n) && BytesDone(p0, p, n, buf, offset, done)
  {
  }

  lemma ChunkPlace(o: nat)
    ensures o < CAPACITY ==> o / USABLE_BLOCK_SIZE < DIRECT_BLOCKS
    ensures USABLE_BLOCK_SIZE > 0 && o % USABLE_BLOCK_SIZE < USABLE_BLOCK_SIZE
  {
  }

  /** One past the last page that a write touches. */
  function Touched(offset: nat, length: nat): nat {
    if length == 0 then offset / USABLE_BLOCK_SIZE else (offset + length - 1) / USABLE_BLOCK_SIZE + 1
  }

  /** Every byte of the file, also behind its size, is as wanted after the first done bytes of buf were written. */
  ghost predicate AsWanted(p0: seq<Page>, p: seq<Page>, n: nat, buf: seq<byte>, offset: nat, done: nat)
    requires Mounted(p0) && Mounted(p) && n < Inodes(|p0|) && n < Inodes(|p|) && done <= |buf|
  {
    forall k: nat :: ByteAt(p, n, k) == Wanted(p0, n, buf, offset, done, k)
  }

  /**
    What a complete write leaves: the buffer spliced in, the size grown if need be, blocks for the
    touched pages that had none, all else untouched.
   */
  ghost predicate Written(p0: seq<Page>, p: seq<Page>, n: nat, buf: seq<byte>, offset: nat) {
    && Sound(p0) && Sound(p) && |p| == |p0| && n < Inodes(|p|) && offset <= InodeAt(p0, n).size
    && Whole(InodeAt(p, n)) && InodeAt(p, n).number == n
    && Bytes(p, n) == Splice(Bytes(p0, n), buf, offset) && AsWanted(p0, p, n, buf, offset, |buf|)
    && Ledger(p0, p, n, offset / USABLE_BLOCK_SIZE, Touched(offset, |buf|))
    && InodeAt(p, n).size == (if offset + |buf| > InodeAt(p0, n).size then offset + |buf| else InodeAt(p0, n).size)
    && forall m: nat | m < Inodes(|p|) && m != n :: InodeAt(p, m) == InodeAt(p0, m) && Bytes(p, m) == Bytes(p0, m)
  }

  /**
    What a write leaves that ran out of blocks: the size as it was, and the bytes in front of the first
    page that could get no block.
   */
  ghost predicate CutShort(p0: seq<Page>, p: seq<Page>, n: nat, buf: seq<byte>, offset: nat, done: nat) {
    && Sound(p0) && Sound(p) && |p| == |p0| && n < Inodes(|p|) && done < |buf|
    && Usable(p) && Full(p) && Whole(InodeAt(p, n)) && InodeAt(p, n).number == n
    && InodeAt(p, n).size == InodeAt(p0, n).size
    && (forall k: nat | k < InodeAt(p, n).size ::
          Bytes(p, n)[k] == if offset <= k < offset + done then buf[k - offset] else Bytes(p0, n)[k])
    && AsWanted(p0, p, n, buf, offset, done) && StopsAtPage(p0, p, n, offset, done)
    && forall m: nat | m < Inodes(|p|) && m != n :: InodeAt(p, m) == InodeAt(p0, m) && Bytes(p, m) == Bytes(p0, m)
  }

  /** The pages in front of offset + done have been provided for; the one there has no block. */
  ghost predicate StopsAtPage(p0: seq<Page>, p: seq<Page>, n: nat, offset: nat, done: nat)
    requires Mounted(p) && n < Inodes(|p|)
  {
    var i := (offset + done) / USABLE_BLOCK_SIZE;
    && Ledger(p0, p, n, offset / USABLE_BLOCK_SIZE, i)
    && i < DIRECT_BLOCKS && Block(p, n, i) == 0 && (done == 0 || (offset + done) % USABLE_BLOCK_SIZE == 0)
  }

  lemma {:induction false} MissingGrows(p: seq<Page>, n: nat, lo: nat, mid: nat, hi: nat)
    requires Mounted(p) && n < Inodes(|p|) && lo <= mid <= hi <= DIRECT_BLOCKS
    ensures Missing(p, n, lo, mid) <= Missing(p, n, lo, hi)
    decreases hi
  {
    hide Mounted, Block;
    if mid < hi { MissingGrows(p, n, lo, mid, hi - 1); }
  }

  /** No block is left for the page at which a write stopped. */
  lemma StoppedShort(p0: seq<Page>, p: seq<Page>, n: nat, offset: nat, done: nat, length: nat)
    requires Mounted(p) && n < Inodes(|p|) && StopsAtPage(p0, p, n, offset, done)
    requires Usable(p) && Full(p) && done < length && offset + length <= CAPACITY
    ensures Mounted(p0) && Usable(p0) && n < Inodes(|p0|)
    ensures offset / USABLE_BLOCK_SIZE <= Touched(offset, length) <= DIRECT_BLOCKS
    ensures Missing(p0, n, offset / USABLE_BLOCK_SIZE, Touched(offset, length)) > |FreeSet(p0)|
  {
    hide *;
    StopIs(p0, p, n, offset, done);
    var lo, i := offset / USABLE_BLOCK_SIZE, (offset + done) / USABLE_BLOCK_SIZE;
    LedgerFacts(p0, p, n, lo, i);
    NoneFree(p);
    StillNone(p0, p, n, lo, i);
    MissingStep(p0, n, lo, i);
    TouchedRange(offset, done, length);
    MissingGrows(p0, n, lo, i + 1, Touched(offset, length));
  }

  lemma StopIs(p0: seq<Page>, p: seq<Page>, n: nat, offset: nat, done: nat)
    requires Mounted(p) && n < Inodes(|p|) && StopsAtPage(p0, p, n, offset, done)
    ensures USABLE_BLOCK_SIZE > 0
    ensures var i := (offset + done) / USABLE_BLOCK_SIZE;
      Ledger(p0, p, n, offset / USABLE_BLOCK_SIZE, i) && i < DIRECT_BLOCKS && Block(p, n, i) == 0
  {
  }

  lemma NoneFree(p: seq<Page>)
    requires Usable(p) && Full(p)
    ensures |FreeSet(p)| == 0
  {
    assert FreeSet(p) == {};
  }

  lemma StillNone(p0: seq<Page>, p: seq<Page>, n: nat, lo: nat, hi: nat)
    requires Mounted(p0) && Mounted(p) && |p| == |p0| && n < Inodes(|p|) && hi < DIRECT_BLOCKS
    requires Provided(p0, p, n, lo, hi) && Block(p, n, hi) == 0
    ensures Block(p0, n, hi) == 0
  {
    hide Mounted, InodeAt;
  }

  lemma TouchedRange(offset: nat, done: nat, length: nat)
    requires done < length && offset + length <= CAPACITY
    ensures offset / USABLE_BLOCK_SIZE <= (offset + done) / USABLE_BLOCK_SIZE < Touched(offset, length) <= DIRECT_BLOCKS
  {
    InPage(offset + length - 1);
  }

  /** A finished write has had a block for each page that lacked one. */
  lemma EnoughWere(p0: seq<Page>, p: seq<Page>, n: nat, lo: nat, hi: nat)
    requires Ledger(p0, p, n, lo, hi)
    ensures Mounted(p0) && Usable(p0) && n < Inodes(|p0|) && lo <= hi <= DIRECT_BLOCKS
    ensures Missing(p0, n, lo, hi) <= |FreeSet(p0)|
  {
    hide *;
    LedgerFacts(p0, p, n, lo, hi);
  }

  /**
    Writes a buffer into a file without holes, within its direct blocks: completely if and only if there
    is a free block for every touched page that has none.
   */
  method Write(cache: C.Cache, n: nat, buf: seq<byte>, offset: nat) returns (written: nat)
    requires cache.Valid() && Sound(cache.Contents()) && n < Inodes(|cache.Contents()|)
    requires Mounted(cache.Contents()) && InodeAt(cache.Contents(), n).number == n
    requires Whole(InodeAt(cache.Contents(), n))
    requires offset <= InodeAt(cache.Contents(), n).size && offset + |buf| <= CAPACITY
    modifies cache.Repr
    ensures cache.Valid() && fresh(cache.Repr - old(cache.Repr)) && written <= |buf|
    ensures written == |buf| ==> Written(old(cache.Contents()), cache.Contents(), n, buf, offset)
    ensures written < |buf| ==> CutShort(old(cache.Contents()), cache.Contents(), n, buf, offset, written)
    ensures Usable(old(cache.Contents()))
    ensures offset / USABLE_BLOCK_SIZE <= Touched(offset, |buf|) <= DIRECT_BLOCKS
    ensures written == |buf| <==>
      Missing(old(cache.Contents()), n, offset / USABLE_BLOCK_SIZE, Touched(offset, |buf|))
      <= |FreeSet(old(cache.Contents()))|
  {
    hide *;
    ghost var p0 := cache.Contents();
    SoundFacts(p0);
    ProgressStart(p0, n, buf, offset);
    PlaceIs(p0, n);
    WriteBounds(p0, n, buf, offset);
    ghost var lo := offset / USABLE_BLOCK_SIZE;
    LedgerStart(p0, n, lo);
    var rv, node := InodeRead(cache, n);
    written := 0;
    while written < |buf|
      invariant cache.Valid() && fresh(cache.Repr - old(cache.Repr)) && |cache.Contents()| == |p0| && written <= |buf|
      invariant Progress(p0, cache.Contents(), n, buf, offset, written)
      invariant node.number == n && Mounted(cache.Contents()) && InodeAt(cache.Contents(), n) == node
      invariant Ledger(p0, cache.Contents(), n, lo, Touched(offset, written))
      invariant written == 0 || written == |buf| || (offset + written) % USABLE_BLOCK_SIZE == 0
      decreases |buf| - written
    {
      TouchedSoFar(offset, written);
      var ok, count;
      ok, count, node := WriteChunk(cache, node, buf, offset, written, p0, lo);
      if !ok {
        StopNow(p0, cache.Contents(), n, offset, written);
        ProgressCut(p0, cache.Contents(), n, buf, offset, written);
        StoppedShort(p0, cache.Contents(), n, offset, written, |buf|);
        return;
      }
      TouchedThen(offset, written, count);
      written := written + count;
    }
    EnoughWere(p0, cache.Contents(), n, lo, Touched(offset, |buf|));
    ProgressFacts(p0, cache.Contents(), n, buf, offset, written);
    PlaceIs(cache.Contents(), n);
    ProgressDone(p0, cache.Contents(), n, buf, offset);
    if offset + written > node.size {
      node := node.(size := offset + written);
      rv := InodeWrite(cache, node);
    }
  }

  lemma WriteBounds(p: seq<Page>, n: nat, buf: seq<byte>, offset: nat)
    requires Mounted(p) && n < Inodes(|p|) && Whole(InodeAt(p, n)) && offset <= InodeAt(p, n).size
    requires offset + |buf| <= CAPACITY
    ensures USABLE_BLOCK_SIZE > 0 && offset / USABLE_BLOCK_SIZE <= Touched(offset, |buf|) <= DIRECT_BLOCKS
    ensures Touched(offset, 0) == offset / USABLE_BLOCK_SIZE <= DIRECT_BLOCKS
  {
    if |buf| > 0 { TouchedRange(offset, 0, |buf|); }
  }

  lemma TouchedSoFar(offset: nat, done: nat)
    requires USABLE_BLOCK_SIZE > 0 && (done == 0 || (offset + done) % USABLE_BLOCK_SIZE == 0)
    ensures Touched(offset, done) == (offset + done) / USABLE_BLOCK_SIZE
  {
  }

  lemma TouchedThen(offset: nat, done: nat, count: nat)
    requires USABLE_BLOCK_SIZE > 0 && count > 0
    requires (offset + done + count - 1) / USABLE_BLOCK_SIZE == (offset + done) / USABLE_BLOCK_SIZE
    ensures Touched(offset, done + count) == (offset + done) / USABLE_BLOCK_SIZE + 1
  {
  }

  lemma StopNow(p0: seq<Page>, p: seq<Page>, n: nat, offset: nat, done: nat)
    requires Mounted(p) && n < Inodes(|p|) && USABLE_BLOCK_SIZE > 0
    requires Ledger(p0, p, n, offset / USABLE_BLOCK_SIZE, (offset + done) / USABLE_BLOCK_SIZE)
    requires (offset + done) / USABLE_BLOCK_SIZE < DIRECT_BLOCKS
    requires Block(p, n, (offset + done) / USABLE_BLOCK_SIZE) == 0
    requires done == 0 || (offset + done) % USABLE_BLOCK_SIZE == 0
    ensures StopsAtPage(p0, p, n, offset, done)
  {
    hide Ledger;
  }

  lemma ProgressWhole(p0: seq<Page>, p: seq<Page>, n: nat, buf: seq<byte>, offset: nat, done: nat, size: nat)
    requires Progress(p0, p, n, buf, offset, done) && Mounted(p) && size <= CAPACITY && offset <= InodeAt(p0, n).size
    requires size <= InodeAt(p0, n).size || size <= offset + done
    ensures Whole(InodeAt(p, n).(size := size))
  {
    hide Mounted, InodeAt, OthersKept, Sound;
    DirectLength(p, n);
    forall i | 0 <= i < DIRECT_BLOCKS && i * USABLE_BLOCK_SIZE < size
      ensures InodeAt(p, n).direct[i] != 0
    {
      var k := i * USABLE_BLOCK_SIZE;
      assert k / USABLE_BLOCK_SIZE == i && k < CAPACITY;
      assert Block(p, n, i) != 0;
    }
  }

  lemma ProgressCut(p0: seq<Page>, p: seq<Page>, n: nat, buf: seq<byte>, offset: nat, done: nat)
    requires Progress(p0, p, n, buf, offset, done) && done < |buf| && Mounted(p0) && Mounted(p)
    requires Whole(InodeAt(p0, n)) && InodeAt(p0, n).number == n && offset <= InodeAt(p0, n).size
    requires Usable(p) && Full(p) && StopsAtPage(p0, p, n, offset, done) && offset + done <= CAPACITY
    ensures CutShort(p0, p, n, buf, offset, done)
  {
    hide Mounted, InodeAt, Sound, OthersKept, Usable, Full, ByteAt, StopsAtPage;
    WantedAll(p0, p, n, buf, offset, done);
    ProgressWhole(p0, p, n, buf, offset, done, InodeAt(p0, n).size);
    assert Whole(InodeAt(p, n)) by {
      assert InodeAt(p, n).(size := InodeAt(p0, n).size) == InodeAt(p, n);
    }
    forall m: nat | m < Inodes(|p|) && m != n
      ensures InodeAt(p, m) == InodeAt(p0, m) && Bytes(p, m) == Bytes(p0, m)
    {
      OthersKeepBytes(p0, p, n, m);
    }
  }

  lemma WantedAll(p0: seq<Page>, p: seq<Page>, n: nat, buf: seq<byte>, offset: nat, done: nat)
    requires Progress(p0, p, n, buf, offset, done) && Mounted(p0) && Mounted(p) && offset + done <= CAPACITY
    ensures AsWanted(p0, p, n, buf, offset, done)
  {
    hide Mounted, InodeAt, Sound, OthersKept, Block;
    forall k: nat | k >= CAPACITY
      ensures ByteAt(p, n, k) == 0 && ByteAt(p0, n, k) == 0
    {
    }
  }

  lemma ProgressDone(p0: seq<Page>, p: seq<Page>, n: nat, buf: seq<byte>, offset: nat)
    requires Progress(p0, p, n, buf, offset, |buf|) && Mounted(p0) && Mounted(p)
    requires Whole(InodeAt(p0, n)) && InodeAt(p0, n).number == n && offset <= InodeAt(p0, n).size
    requires offset + |buf| <= CAPACITY
    requires Ledger(p0, p, n, offset / USABLE_BLOCK_SIZE, Touched(offset, |buf|))
    ensures offset + |buf| <= InodeAt(p0, n).size ==> Written(p0, p, n, buf, offset)
    ensures offset + |buf| > InodeAt(p0, n).size ==>
      Written(p0, WithInode(p, InodeAt(p, n).(size := offset + |buf|)), n, buf, offset)
  {
    hide *;
    ProgressFacts(p0, p, n, buf, offset, |buf|);
    WholeSize(InodeAt(p0, n));
    if offset + |buf| <= InodeAt(p0, n).size {
      ProgressWhole(p0, p, n, buf, offset, |buf|, InodeAt(p0, n).size);
      assert InodeAt(p, n).(size := InodeAt(p0, n).size) == InodeAt(p, n);
      WrittenNow(p0, p, p, n, buf, offset);
    } else {
      ProgressWhole(p0, p, n, buf, offset, |buf|, offset + |buf|);
      Resized(p, n, offset + |buf|);
      ChunkPlace(offset);
      LedgerResized(p0, p, n, offset / USABLE_BLOCK_SIZE, Touched(offset, |buf|), offset + |buf|);
      WrittenNow(p0, p, WithInode(p, InodeAt(p, n).(size := offset + |buf|)), n, buf, offset);
    }
  }

  lemma WholeSize(inode: Inode)
    requires Whole(inode)
    ensures inode.size <= CAPACITY
  {
  }

  lemma WrittenNow(p0: seq<Page>, p: seq<Page>, p': seq<Page>, n: nat, buf: seq<byte>, offset: nat)
    requires Progress(p0, p, n, buf, offset, |buf|) && Mounted(p0) && Mounted(p) && Sound(p') && Mounted(p')
    requires |p'| == |p|
    requires InodeAt(p0, n).number == n && offset <= InodeAt(p0, n).size <= CAPACITY && offset + |buf| <= CAPACITY
    requires var size := if offset + |buf| > InodeAt(p0, n).size then offset + |buf| else InodeAt(p0, n).size;
      InodeAt(p', n) == InodeAt(p, n).(size := size) && Whole(InodeAt(p', n))
    requires forall m: nat | m < Inodes(|p|) && m != n :: InodeAt(p', m) == InodeAt(p, m)
    requires forall b | Reserved(|p|) <= b < |p| :: p'[b] == p[b]
    requires Ledger(p0, p', n, offset / USABLE_BLOCK_SIZE, Touched(offset, |buf|))
    ensures Written(p0, p', n, buf, offset)
  {
    hide Mounted, InodeAt, Sound, ByteAt, Reserved, IsPage, Ledger;
    WantedAll(p0, p, n, buf, offset, |buf|);
    forall m: nat, k: nat | m < Inodes(|p|)
      ensures ByteAt(p', m, k) == ByteAt(p, m, k)
    {
      SameByte(p, p', m, k);
    }
    forall m: nat | m < Inodes(|p|) && m != n
      ensures InodeAt(p', m) == InodeAt(p0, m) && Bytes(p', m) == Bytes(p0, m)
    {
      OthersKeepBytes(p0, p, n, m);
    }
    var was, now := Bytes(p0, n), Bytes(p', n);
    forall k | 0 <= k < |now|
      ensures now[k] == Splice(was, buf, offset)[k]
    {
    }
  }

  lemma SameByte(p: seq<Page>, p': seq<Page>, m: nat, k: nat)
    requires Sound(p) && Mounted(p) && Mounted(p') && |p'| == |p| && m < Inodes(|p|)
    requires InodeAt(p', m).direct == InodeAt(p, m).direct
    requires forall b | Reserved(|p|) <= b < |p| :: p'[b] == p[b]
    ensures ByteAt(p', m, k) == ByteAt(p, m, k)
  {
    hide Mounted, InodeAt, Reserved, Sound;
    if k / USABLE_BLOCK_SIZE < DIRECT_BLOCKS && Block(p, m, k / USABLE_BLOCK_SIZE) != 0 {
      OwnsBlock(p, m, k / USABLE_BLOCK_SIZE);
    }
  }

  // ----- Reading -----

  /** Every byte of a stretch has its block. */
  ghost predicate Covered(p: seq<Page>, n: nat, lo: nat, hi: nat)
    requires Mounted(p) && n < Inodes(|p|) && hi <= CAPACITY
  {
    forall k: nat | lo <= k < hi :: k / USABLE_BLOCK_SIZE < DIRECT_BLOCKS && Block(p, n, k / USABLE_BLOCK_SIZE) != 0
  }

  lemma WholeCovered(p: seq<Page>, n: nat, lo: nat, hi: nat)
    requires Mounted(p) && n < Inodes(|p|) && Whole(InodeAt(p, n)) && hi <= InodeAt(p, n).size
    ensures hi <= CAPACITY && Covered(p, n, lo, hi)
  {
    hide Mounted, InodeAt;
    forall k: nat | lo <= k < hi
      ensures k / USABLE_BLOCK_SIZE < DIRECT_BLOCKS && Block(p, n, k / USABLE_BLOCK_SIZE) != 0
    {
      assert (k / USABLE_BLOCK_SIZE) * USABLE_BLOCK_SIZE <= k;
      InPage(k);
    }
  }

  /** Reads the bytes of a file from offset on, clipped to its size; -1 at a hole, and never in a whole file. */
  method Read(cache: C.Cache, n: nat, size: nat, offset: nat) returns (rv: int, data: seq<byte>)
    requires cache.Valid() && Sound(cache.Contents()) && Mounted(cache.Contents()) && n < Inodes(|cache.Contents()|)
    requires InodeAt(cache.Contents(), n).size <= CAPACITY
    modifies cache.Repr
    ensures cache.Valid() && fresh(cache.Repr - old(cache.Repr)) && cache.Contents() == old(cache.Contents())
    ensures var p := old(cache.Contents());
      var end := if offset + size > InodeAt(p, n).size then InodeAt(p, n).size else offset + size;
      if offset >= InodeAt(p, n).size then rv == 0 && data == []
      else if Covered(p, n, offset, end) then rv == end - offset && data == Bytes(p, n)[offset..end]
      else rv == -1
    ensures var p := old(cache.Contents());
      var end := if offset + size > InodeAt(p, n).size then InodeAt(p, n).size else offset + size;
      Whole(InodeAt(p, n)) && offset < InodeAt(p, n).size ==> rv == end - offset && data == Bytes(p, n)[offset..end]
  {
    hide *;
    ghost var p := cache.Contents();
    PlaceIs(p, n);
    DirectLength(p, n);
    data := [];
    var read, node := InodeRead(cache, n);
    if offset >= node.size {
      return 0, data;
    }
    var clipped := if offset + size > node.size then node.size - offset else size;
    rv := 0;
    if Whole(InodeAt(p, n)) { WholeCovered(p, n, offset, offset + clipped); }
    SlicesMeet(p, n, offset, offset, 0);
    CoveredNone(p, n, offset);
    while rv < clipped
      invariant cache.Valid() && fresh(cache.Repr - old(cache.Repr)) && cache.Contents() == p
      invariant 0 <= rv <= clipped && Covered(p, n, offset, offset + rv) && data == Bytes(p, n)[offset..offset + rv]
      decreases clipped - rv
    {
      var found, chunk := ReadChunk(cache, node, n, offset + rv, clipped - rv);
      if found != 0 {
        NotCovered(p, n, offset, offset + clipped, offset + rv);
        return found, data;
      }
      SlicesMeet(p, n, offset, offset + rv, |chunk|);
      data := data + chunk;
      rv := rv + |chunk|;
    }
  }

  /** One round of the loop: what is left to read in the page at position o; -1 at a hole. */
  method ReadChunk(cache: C.Cache, node: Inode, n: nat, o: nat, left: nat) returns (found: int, chunk: seq<byte>)
    requires cache.Valid() && Sound(cache.Contents()) && Mounted(cache.Contents()) && n < Inodes(|cache.Contents()|)
    requires node == InodeAt(cache.Contents(), n) && left > 0 && o + left <= node.size <= CAPACITY
    modifies cache.Repr
    ensures cache.Valid() && fresh(cache.Repr - old(cache.Repr)) && cache.Contents() == old(cache.Contents())
    ensures o / USABLE_BLOCK_SIZE < DIRECT_BLOCKS
    ensures found == -1 || found == 0
    ensures found == -1 ==> Block(cache.Contents(), n, o / USABLE_BLOCK_SIZE) == 0
    ensures found == 0 ==> 0 < |chunk| <= left && chunk == Bytes(cache.Contents(), n)[o..o + |chunk|]
    ensures found == 0 ==>
      forall lo: nat | lo <= o && Covered(cache.Contents(), n, lo, o) :: Covered(cache.Contents(), n, lo, o + |chunk|)
  {
    hide *;
    ghost var p := cache.Contents();
    DirectLength(p, n);
    ChunkPlace(o);
    BytesSize(p, n);
    var pageIndex, pageOffset := o / USABLE_BLOCK_SIZE, o % USABLE_BLOCK_SIZE;
    BlockIs(p, n, pageIndex);
    var block;
    found, block := GetBlock(node, pageIndex);
    chunk := [];
    if found != 0 { return; }
    OwnsBlock(p, n, pageIndex);
    OwnBlockIs(p, block);
    var page := Volume.Read(cache, n, block);
    var count := ChunkSize(o, left);
    ChunkIs(p, n, o, count);
    chunk := page.bytes[pageOffset..pageOffset + count];
  }

  lemma BytesSize(p: seq<Page>, n: nat)
    requires Mounted(p) && n < Inodes(|p|)
    ensures |Bytes(p, n)| == InodeAt(p, n).size
  {
  }

  lemma CoveredNone(p: seq<Page>, n: nat, lo: nat)
    requires Mounted(p) && n < Inodes(|p|) && lo <= CAPACITY
    ensures Covered(p, n, lo, lo)
  {
  }

  lemma NotCovered(p: seq<Page>, n: nat, lo: nat, hi: nat, k: nat)
    requires Mounted(p) && n < Inodes(|p|) && hi <= CAPACITY && lo <= k < hi
    requires k / USABLE_BLOCK_SIZE < DIRECT_BLOCKS && Block(p, n, k / USABLE_BLOCK_SIZE) == 0
    ensures !Covered(p, n, lo, hi)
  {
  }

  lemma SlicesMeet(p: seq<Page>, n: nat, lo: nat, hi: nat, count: nat)
    requires Mounted(p) && n < Inodes(|p|) && lo <= hi && hi + count <= InodeAt(p, n).size
    ensures |Bytes(p, n)| == InodeAt(p, n).size && Bytes(p, n)[lo..lo] == []
    ensures Bytes(p, n)[lo..hi] + Bytes(p, n)[hi..hi + count] == Bytes(p, n)[lo..hi + count]
  {
  }

  /** What one round of the loop copies. */
  lemma ChunkIs(p: seq<Page>, n: nat, o: nat, count: nat)
    requires Mounted(p) && n < Inodes(|p|) && o + count <= InodeAt(p, n).size <= CAPACITY && o < CAPACITY
    requires o % USABLE_BLOCK_SIZE + count <= USABLE_BLOCK_SIZE && o / USABLE_BLOCK_SIZE < DIRECT_BLOCKS
    requires Block(p, n, o / USABLE_BLOCK_SIZE) != 0 && IsPage(p, Block(p, n, o / USABLE_BLOCK_SIZE))
    ensures var b, at := Block(p, n, o / USABLE_BLOCK_SIZE), o % USABLE_BLOCK_SIZE;
      b < |p| && p[b].DataPage? && at + count <= |p[b].bytes| && p[b].bytes[at..at + count] == Bytes(p, n)[o..o + count]
    ensures forall lo: nat | lo <= o && Covered(p, n, lo, o) :: Covered(p, n, lo, o + count)
  {
    hide Mounted, InodeAt;
    var b, at := Block(p, n, o / USABLE_BLOCK_SIZE), o % USABLE_BLOCK_SIZE;
    forall k: nat | o <= k < o + count
      ensures k / USABLE_BLOCK_SIZE == o / USABLE_BLOCK_SIZE && Bytes(p, n)[k] == p[b].bytes[at + (k - o)]
    {
      Stretch(o, count, k);
    }
    var copied, wanted := p[b].bytes[at..at + count], Bytes(p, n)[o..o + count];
    forall i | 0 <= i < count
      ensures copied[i] == wanted[i]
    {
      assert copied[i] == p[b].bytes[at + i] && wanted[i] == Bytes(p, n)[o + i];
    }
  }
}
