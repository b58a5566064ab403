/** Reading and writing the blocks of a disk through its cache. */
module Volume {
  import opened Blocks
  import C = Cache

  lemma ContentsSize(cache: C.Cache)
    requires cache.Valid()
    ensures |cache.Contents()| == |cache.state.disk|
  {
  }

  method Read(cache: C.Cache, inum: nat, block: nat) returns (page: Page)
    requires cache.Valid() && block < |cache.Contents()|
    modifies cache.Repr
    ensures cache.Valid() && fresh(cache.Repr - old(cache.Repr))
    ensures cache.Contents() == old(cache.Contents()) && page == old(cache.Contents())[block]
  {
    hide *;
    ContentsSize(cache);
    page := cache.GetBlock(inum, block);
  }

  method Write(cache: C.Cache, page: Page, inum: nat, block: nat)
    requires cache.Valid() && block < |cache.Contents()|
    modifies cache.Repr
    ensures cache.Valid() && fresh(cache.Repr - old(cache.Repr))
    ensures cache.Contents() == old(cache.Contents())[block := page]
  {
    hide *;
    ContentsSize(cache);
    cache.WriteBlock(page, inum, block);
  }
}
