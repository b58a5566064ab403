/** Disk blocks and the constants of config.h that more than one component uses. */
module Blocks {

  const USABLE_BLOCK_SIZE: nat := 4092
  const HASHMAP_SIZE: nat := 32
  const INODES_PER_PAGE: nat := 22     // 4092 / sizeof(Inode), and sizeof(Inode) is 184
  const DIRECT_BLOCKS: nat := 12

  newtype byte = x: int | 0 <= x < 0x100

  /** The part of an on-disk inode that the byte map of a file depends on. */
  datatype Inode = Inode(number: nat, size: nat, direct: seq<nat>)

  datatype Superblock = Superblock(totalBlocks: nat, freeBlocks: nat, inodeBitmap: nat, btreeRoot: nat)

  /** A block is its type tag together with the contents read under that tag. */
  datatype Page =
    | DataPage(bytes: seq<byte>)
    | NodePage
    | BitmapPage(words: seq<bv64>)
    | InodePage(inodes: seq<Inode>)
    | SuperPage(super: Superblock)
    | JournalPage
}
