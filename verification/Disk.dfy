/**
  The drive of disk.c with its free list: formatting, allocating and freeing,
  by reading and writing words of the device in place.
 */
module Disk {
  import opened Device
  import opened Format
  import opened FreeList

  class Disk {
    /** The bytes of the device; every access of disk.c is one lseek followed by one read or write. */
    var image: Image
    ghost var chain: seq<nat>
    ghost var place: Places

    ghost predicate Valid()
      reads this
    {
      WellFormed(image, chain, place)
    }

    /**
      The part of tfs_mkfs that clears the superblock and the inodes and lays
      out the free list. The list is sound exactly if the number of blocks is
      no multiple of 65; otherwise the last address written is that of the
      block behind the end of the device.
     */
    method MakeFreeList() returns (q: nat)
      requires 65 * 4096 <= |image| < WORDS
      modifies this
      ensures q == |image| / 4096 / 65 > 0 && |image| == |old(image)| && Cleared(image, 1, q + 1)
      ensures Head(image) == Addr(q, 0)
      ensures forall j {:trigger Filled(image, q, j)} :: 0 <= j < ChainLength(q) ==> Filled(image, q, j)
      ensures chain == FreshChain(q) && place == FreshPlaces(q) && place.Keys == Fresh(q)
      ensures ListSound(image) <==> (|image| / 4096) % 65 != 0
      ensures (|image| / 4096) % 65 != 0 ==>
                && Valid() && NoneLost(image, {}, Fresh(q))
                && (BlankDevice(old(image)) ==> CleanSpares(image, place))
    {
      var numBlocks := |image| / 4096;
      q := numBlocks / 65;
      ClearBlocks(q + 1);
      ghost var d := image;
      image := PutSlot(image, 0, 0, Addr(q, 0));
      PutSlotIs(d, 0, 0, Addr(q, 0));
      ClearedStays(d, image, q, {0});
      if BlankDevice(d) {
        BlankDeviceSpares(d, q);
        SparesStay(d, image, q, 0);
      }
      WriteChain(q);
      LaidOut(image, q, numBlocks);
      chain, place := FreshChain(q), FreshPlaces(q);
    }

    method ClearBlocks(n: nat)
      requires 4096 * n <= |image|
      modifies this`image
      ensures |image| == |old(image)| && Cleared(image, 0, n) && (BlankDevice(old(image)) ==> BlankDevice(image))
    {
      var i := 0;
      while i < n
        invariant 0 <= i <= n && |image| == |old(image)| && Cleared(image, 0, i)
        invariant BlankDevice(old(image)) ==> BlankDevice(image)
      {
        ClearedStep(image, i);
        image := ZeroBlock(image, 4096 * i);
        i := i + 1;
      }
    }

    /** The outer loop of tfs_mkfs: one chain block after the other. */
    method WriteChain(q: nat)
      requires q > 0 && 4096 <= |image| && FreshFits(|image|, q) && Head(image) == Addr(q, 0)
        && Cleared(image, 1, q + 1)
      modifies this`image
      ensures |image| == |old(image)| && Head(image) == Addr(q, 0) && Cleared(image, 1, q + 1)
      ensures forall x {:trigger Filled(image, q, x)} :: 0 <= x < ChainLength(q) ==> Filled(image, q, x)
      ensures SparesBlank(old(image), q) ==> SparesBlank(image, q)
    {
      ChainEnds(q);
      var dataBlocks := DataBlocks(q);
      var addrCounter, freePtr := 0, Addr(q, 0);
      ghost var j := 0;
      while addrCounter < dataBlocks
        invariant addrCounter == (if 512 * j <= dataBlocks then 512 * j else dataBlocks)
          && freePtr == Addr(q, addrCounter)
        invariant |image| == |old(image)| && Head(image) == Addr(q, 0) && Cleared(image, 1, q + 1)
        invariant WrittenUpTo(image, q, j) && (SparesBlank(old(image), q) ==> SparesBlank(image, q))
        decreases dataBlocks - addrCounter
      {
        ghost var d := image;
        addrCounter := FillBlock(q, j, freePtr, addrCounter);
        freePtr := Addr(q, addrCounter);
        OneMoreWritten(d, image, q, j);
        if SparesBlank(d, q) {
          SparesStay(d, image, q, Addr(q, 512 * j));
        }
        j := j + 1;
      }
    }

    /** One turn of that loop: the block is cleared, then filled word by word. */
    method FillBlock(q: nat, ghost j: nat, freePtr: nat, counter: nat) returns (addrCounter: nat)
      requires q > 0 && FreshFits(|image|, q)
      requires counter == 512 * j < DataBlocks(q) && freePtr == Addr(q, 512 * j)
      modifies this`image
      ensures addrCounter == if 512 * j + 512 <= DataBlocks(q) then 512 * j + 512 else DataBlocks(q)
      ensures SameBut(old(image), image, {Addr(q, 512 * j)}) && Filled(image, q, j)
    {
      FreshBound(image, q, 512 * j);
      ZeroBlockIs(image, freePtr);
      image := ZeroBlock(image, freePtr);
      addrCounter := counter;
      var blockPtr := freePtr + BLOCKSIZE;
      var i := 0;
      while i < SLOTS && addrCounter < DataBlocks(q)
        invariant 0 <= i <= SLOTS && addrCounter == 512 * j + i <= DataBlocks(q) && blockPtr == Addr(q, 512 * j + 1 + i)
        invariant SameBut(old(image), image, {Addr(q, 512 * j)}) && Filling(image, q, j, i)
      {
        ghost var d := image;
        FreshBound(image, q, 512 * j + 1 + i);
        FillingStep(image, q, j, i);
        image := PutSlot(image, freePtr, i, blockPtr);
        SameTwice(old(image), d, image, {Addr(q, 512 * j)}, {Addr(q, 512 * j)});
        blockPtr := blockPtr + BLOCKSIZE;
        addrCounter := addrCounter + 1;
        i := i + 1;
      }
    }

    /** allocate_block */
    method AllocateBlock() returns (r: nat)
      requires Valid()
      modifies this
      ensures Valid() && Took(old(image), old(place), r, image, place)
      ensures HeadOk(old(image)) && (image, r) == Allocated(old(image)) && place == old(place) - {r}
      ensures CleanSpares(old(image), old(place)) ==> CleanSpares(image, place) && (r != 0 ==> Blank(image, r))
    {
      ghost var d := image;
      AllocateEffect(image, chain, place);
      r := TakeBlock();
      place := place - {r};
      chain := ChainAfterAllocate(d, chain);
    }

    /** The reads and writes of allocate_block. */
    method TakeBlock() returns (r: nat)
      requires HeadOk(image)
      modifies this`image
      ensures HeadOk(old(image)) && (image, r) == Allocated(old(image))
    {
      var nextBlock := Slot(image, 0, 0);
      if nextBlock == 0 {
        return 0;
      }
      var i := 0;
      while i < SLOTS
        invariant 0 <= i <= SLOTS && image == old(image)
        invariant FirstUsed(image, nextBlock, 0) == FirstUsed(image, nextBlock, i)
      {
        var freeBlock := Slot(image, nextBlock, i);
        if freeBlock != 0 {
          image := PutSlot(image, nextBlock, i, 0);
          if i == 511 {
            nextBlock := freeBlock;
            SuperblockKept(old(image), Head(old(image)), 511);
            freeBlock := Slot(image, 0, 0);
            image := PutSlot(image, 0, 0, nextBlock);
          }
          return freeBlock;
        }
        i := i + 1;
      }
      r := Slot(image, 0, 0);
      image := PutSlot(image, 0, 0, 0);
    }

    /** free_block: -1 if there is no drive or no block */
    method FreeBlock(fd: int, block: nat) returns (status: int)
      requires Valid() && (fd >= 0 && block != 0 ==> CanFree(image, place, block))
      modifies this
      ensures Valid()
      ensures fd < 0 || block == 0 ==> status == -1 && image == old(image) && chain == old(chain) && place == old(place)
      ensures fd >= 0 && block != 0 ==>
                && status == 0 && GaveBack(old(image), old(place), block, image, place)
                && HeadOk(old(image)) && OnDevice(old(image), block) && image == Freed(old(image), block)
                && place == PlaceAfterFree(old(image), old(place), block)
      ensures CleanSpares(old(image), old(place)) && Blank(old(image), block) ==> CleanSpares(image, place)
    {
      if fd < 0 || block == 0 {
        return -1;
      }
      ghost var d := image;
      FreeEffect(image, chain, place, block);
      GiveBlock(block);
      place := PlaceAfterFree(d, place, block);
      chain := ChainAfterFree(d, chain, block);
      return 0;
    }

    /** The reads and writes of free_block. */
    method GiveBlock(block: nat)
      requires HeadOk(image) && OnDevice(image, block) && block != 0
      modifies this`image
      ensures HeadOk(old(image)) && OnDevice(old(image), block) && image == Freed(old(image), block)
    {
      var nextBlock := Slot(image, 0, 0);
      if nextBlock == 0 {
        image := PutSlot(image, 0, 0, block);
        image := ZeroBlock(image, block);
        return;
      }
      var i := 0;
      while i < SLOTS
        invariant 0 <= i <= SLOTS && image == old(image)
        invariant FirstUnused(image, nextBlock, 0) == FirstUnused(image, nextBlock, i)
      {
        var freeBlock := Slot(image, nextBlock, i);
        if freeBlock == 0 {
          image := PutSlot(image, nextBlock, i, block);
          if i == 511 {
            image := ZeroBlock(image, block);
          }
          return;
        }
        i := i + 1;
      }
      image := ZeroBlock(image, block);
      image := PutSlot(image, block, 511, nextBlock);
      image := PutSlot(image, 0, 0, block);
    }
  }

  /** What has been laid out is a sound list of all the blocks, or none at all. */
  lemma LaidOut(d: Image, q: nat, numBlocks: nat)
    requires numBlocks == |d| / 4096 && q == numBlocks / 65 > 0 && |d| < WORDS && Head(d) == Addr(q, 0)
    requires forall j {:trigger Filled(d, q, j)} :: 0 <= j < ChainLength(q) ==> Filled(d, q, j)
    ensures ListSound(d) <==> numBlocks % 65 != 0
    ensures numBlocks % 65 != 0 ==>
              && WellFormed(d, FreshChain(q), FreshPlaces(q)) && NoneLost(d, {}, Fresh(q))
              && (SparesBlank(d, q) ==> CleanSpares(d, FreshPlaces(q)))
  {
    LastBlockFits(numBlocks, d);
    if numBlocks % 65 != 0 {
      FilledIsWellFormed(d, q);
      FreeBlocksAre(d, FreshChain(q), FreshPlaces(q));
      if SparesBlank(d, q) {
        SparesAreClean(d, q);
      }
    } else {
      assert Addr(q, DataBlocks(q)) == 4096 * (65 * q);
      FilledIsUnsound(d, q);
    }
  }

  lemma SuperblockKept(d: Image, b: nat, i: nat)
    requires |d| >= 4096 && OnDevice(d, b) && b != 0 && i < SLOTS
    ensures Slot(PutSlot(d, b, i, 0), 0, 0) == Slot(d, 0, 0)
  {
    PutSlotIs(d, b, i, 0);
    SameSlots(d, PutSlot(d, b, i, 0), {b}, 0);
  }
}
