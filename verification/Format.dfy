/**
  The free list that tfs_mkfs of disk.c lays out: for q inode blocks, the
  64q blocks that follow them, every 512th of which is a chain block.
 */
module Format {
  import opened Device
  import opened FreeList

  /** The n-th block after the inodes. */
  function Addr(q: nat, n: nat): nat
  {
    4096 * (q + 1 + n)
  }

  /** How many addresses are written: all blocks but the first, which the superblock knows. */
  function DataBlocks(q: nat): nat
    requires q > 0
  {
    64 * q - 1
  }

  /** The number of a block after the inodes. */
  function Number(q: nat, b: nat): nat
    requires b / 4096 >= q + 1
  {
    b / 4096 - q - 1
  }

  /** The 64q blocks from block q + 1 to block 65q. */
  function Fresh(q: nat): (s: set<nat>)
    requires q > 0
    ensures forall b :: b in s <==> b % 4096 == 0 && q + 1 <= b / 4096 <= 65 * q
  {
    set b: nat | 0 <= b <= 65 * q * 4096 && b % 4096 == 0 && q + 1 <= b / 4096 <= 65 * q
  }

  function ChainLength(q: nat): nat
    requires q > 0
  {
    (DataBlocks(q) - 1) / 512 + 1
  }

  function FreshChain(q: nat): (c: seq<nat>)
    requires q > 0
    ensures |c| == ChainLength(q) && forall j :: 0 <= j < |c| ==> c[j] == Addr(q, 512 * j)
  {
    seq(ChainLength(q), j requires 0 <= j => Addr(q, 512 * j))
  }

  function FreshPlace(q: nat, n: nat): Place
  {
    if n % 512 == 0 then Chained else Spare(Addr(q, 512 * ((n - 1) / 512)), (n - 1) % 512)
  }

  function FreshPlaces(q: nat): Places
    requires q > 0
  {
    map b | b in Fresh(q) :: FreshPlace(q, Number(q, b))
  }

  /** The j-th chain block is written: the next 512 addresses, as far as there are any. */
  ghost predicate Filled(d: Image, q: nat, j: nat)
    requires q > 0
  {
    && OnDevice(d, Addr(q, 512 * j))
    && forall i {:trigger Slot(d, Addr(q, 512 * j), i)} :: 0 <= i < SLOTS ==>
         Slot(d, Addr(q, 512 * j), i) == if 512 * j + 1 + i <= DataBlocks(q) then Addr(q, 512 * j + 1 + i) else 0
  }

  /** The last chain block is never full: 64q - 1 is not a multiple of 512, so the chain ends. */
  lemma ChainEnds(q: nat)
    requires q > 0
    ensures DataBlocks(q) % 512 != 0
    ensures forall j: nat {:trigger Addr(q, 512 * j)} :: 512 * j <= DataBlocks(q) <==> j < ChainLength(q)
  {
  }

  /** The last block is on the device exactly if the number of blocks is no multiple of 65. */
  lemma LastBlockFits(numBlocks: nat, d: Image)
    requires |d| / 4096 == numBlocks && numBlocks >= 65
    ensures (forall b :: b in Fresh(numBlocks / 65) ==> OnDevice(d, b)) <==> numBlocks % 65 != 0
  {
    var q := numBlocks / 65;
    var last := 4096 * (65 * q);
    assert last / 4096 == 65 * q && last in Fresh(q);
    if numBlocks % 65 != 0 {
      forall b | b in Fresh(q) ensures OnDevice(d, b) {
        assert b / 4096 + 1 <= numBlocks;
      }
    } else {
      assert !OnDevice(d, last);
    }
  }

  lemma FreshNumber(q: nat, n: nat)
    requires q > 0 && n <= DataBlocks(q)
    ensures Addr(q, n) in Fresh(q) && Number(q, Addr(q, n)) == n && FreshPlaces(q)[Addr(q, n)] == FreshPlace(q, n)
  {
    assert Addr(q, n) / 4096 == q + 1 + n;
  }

  lemma PlaceOfLink(q: nat, j: nat)
    ensures FreshPlace(q, 512 * j) == Chained
  {
  }

  lemma PlaceOfEntry(q: nat, j: nat, i: nat)
    requires i < 511
    ensures FreshPlace(q, 512 * j + 1 + i) == Spare(Addr(q, 512 * j), i)
  {
  }

  lemma ChainNumber(q: nat, j: nat)
    requires q > 0 && 512 * j <= DataBlocks(q)
    ensures Addr(q, 512 * j) in FreshPlaces(q) && FreshPlaces(q)[Addr(q, 512 * j)] == Chained
  {
    var n := 512 * j;
    PlaceOfLink(q, j);
    FreshNumber(q, n);
  }

  lemma EntryNumber(q: nat, j: nat, i: nat)
    requires q > 0 && i < 511 && 512 * j + 1 + i <= DataBlocks(q)
    ensures Addr(q, 512 * j + 1 + i) in FreshPlaces(q)
    ensures FreshPlaces(q)[Addr(q, 512 * j + 1 + i)] == Spare(Addr(q, 512 * j), i)
  {
    var n := 512 * j + 1 + i;
    PlaceOfEntry(q, j, i);
    FreshNumber(q, n);
  }

  lemma FreshLink(d: Image, q: nat, j: nat)
    requires q > 0 && j < ChainLength(q) && Filled(d, q, j)
    ensures LinkOk(d, FreshChain(q), FreshPlaces(q), j)
  {
    FreshNext(q, j);
    ChainNumber(q, j);
    var c := FreshChain(q)[j];
    assert c == Addr(q, 512 * j) && c > 0;
    assert Slot(d, c, 511) == if 512 * j + 512 <= DataBlocks(q) then Addr(q, 512 * j + 512) else 0;
  }

  /** The last word of the j-th chain block is the next chain block, if there is one. */
  lemma FreshNext(q: nat, j: nat)
    requires q > 0 && j < ChainLength(q)
    ensures 512 * j <= DataBlocks(q)
      && Next(FreshChain(q), j) == if 512 * j + 512 <= DataBlocks(q) then Addr(q, 512 * j + 512) else 0
  {
    ChainEnds(q);
    assert 512 * (j + 1) == 512 * j + 512;
  }

  lemma FreshCell(d: Image, q: nat, j: nat, i: nat)
    requires q > 0 && j < ChainLength(q) && Filled(d, q, j) && i < 511
    ensures CellOk(d, FreshPlaces(q), Addr(q, 512 * j), i)
  {
    var c, n := Addr(q, 512 * j), 512 * j + 1 + i;
    assert Slot(d, c, i) == if n <= DataBlocks(q) then Addr(q, n) else 0;
    if n <= DataBlocks(q) {
      EntryNumber(q, j, i);
    }
  }

  lemma FreshPlaceOk(d: Image, q: nat, b: nat)
    requires q > 0 && b in Fresh(q) && OnDevice(d, b)
    requires forall j {:trigger Filled(d, q, j)} :: 0 <= j < ChainLength(q) ==> Filled(d, q, j)
    ensures PlaceOk(d, FreshChain(q), FreshPlaces(q), b)
  {
    ChainEnds(q);
    var n := Number(q, b);
    assert b == Addr(q, n);
    if n % 512 == 0 {
      var j := n / 512;
      assert 512 * j == n && Addr(q, 512 * j) == b;
      assert FreshChain(q)[j] == b;
    } else {
      var j, i := (n - 1) / 512, (n - 1) % 512;
      assert n == 512 * j + 1 + i;
      assert Addr(q, 512 * j) == FreshChain(q)[j];
      assert Filled(d, q, j);
      assert i < 511;
    }
  }

  /** All chain blocks written: the list holds exactly the 64q blocks. */
  lemma FilledIsWellFormed(d: Image, q: nat)
    requires q > 0 && 4096 <= |d| <= WORDS && Head(d) == Addr(q, 0)
    requires forall b :: b in Fresh(q) ==> OnDevice(d, b)
    requires forall j {:trigger Filled(d, q, j)} :: 0 <= j < ChainLength(q) ==> Filled(d, q, j)
    ensures WellFormed(d, FreshChain(q), FreshPlaces(q))
  {
    var chain, place := FreshChain(q), FreshPlaces(q);
    forall k | 0 <= k < |chain| ensures LinkOk(d, chain, place, k) {
      FreshLink(d, q, k);
    }
    forall c, i | c in chain && 0 <= i < 511 ensures CellOk(d, place, c, i) {
      var j :| 0 <= j < |chain| && chain[j] == c;
      FreshCell(d, q, j, i);
    }
    forall b | b in place ensures PlaceOk(d, chain, place, b) {
      FreshPlaceOk(d, q, b);
    }
    assert chain[0] == Addr(q, 512 * 0);
  }

  /** Any list that could be on such a device runs through the chain blocks. */
  lemma {:induction false} ChainForced(d: Image, q: nat, chain: seq<nat>, place: Places, k: nat)
    requires q > 0 && WellFormed(d, chain, place) && Head(d) == Addr(q, 0) && k < ChainLength(q)
    requires forall j {:trigger Filled(d, q, j)} :: 0 <= j < ChainLength(q) ==> Filled(d, q, j)
    ensures k < |chain| && chain[k] == Addr(q, 512 * k)
  {
    if k == 0 {
      HeadLink(d, chain, place);
    } else {
      ChainForced(d, q, chain, place, k - 1);
      FreshNext(q, k - 1);
      assert Filled(d, q, k - 1) && LinkOk(d, chain, place, k - 1);
      ChainEnds(q);
      assert Slot(d, Addr(q, 512 * (k - 1)), 511) == Addr(q, 512 * (k - 1) + 512);
      assert 512 * (k - 1) + 512 == 512 * k;
    }
  }

  /** The address of the last block is in the list, so a sound list has that block on the device. */
  lemma LastOnDevice(d: Image, q: nat, chain: seq<nat>, place: Places)
    requires q > 0 && WellFormed(d, chain, place) && Head(d) == Addr(q, 0)
    requires forall j {:trigger Filled(d, q, j)} :: 0 <= j < ChainLength(q) ==> Filled(d, q, j)
    ensures OnDevice(d, Addr(q, DataBlocks(q)))
  {
    var j := ChainLength(q) - 1;
    ChainForced(d, q, chain, place, j);
    ChainEnds(q);
    LastEntry(q, j);
    assert Filled(d, q, j) && CellOk(d, place, chain[j], DataBlocks(q) - 512 * j - 1);
    assert PlaceOk(d, chain, place, Addr(q, DataBlocks(q)));
  }

  /** If that block is not on the device, its address is written all the same, and no sound list is there. */
  lemma FilledIsUnsound(d: Image, q: nat)
    requires q > 0 && 4096 <= |d| && Head(d) == Addr(q, 0) && !OnDevice(d, Addr(q, DataBlocks(q)))
    requires forall j {:trigger Filled(d, q, j)} :: 0 <= j < ChainLength(q) ==> Filled(d, q, j)
    ensures !ListSound(d)
  {
    if chain, place :| WellFormed(d, chain, place) {
      LastOnDevice(d, q, chain, place);
    }
  }

  lemma LastEntry(q: nat, j: nat)
    requires q > 0 && j == ChainLength(q) - 1
    ensures 0 <= DataBlocks(q) - 512 * j - 1 < 511
  {
  }

  // ----- how the blocks are written -----

  /** The words before i of the j-th chain block are written, the rest is still zero. */
  ghost predicate Filling(d: Image, q: nat, j: nat, i: nat)
    requires q > 0
  {
    && OnDevice(d, Addr(q, 512 * j))
    && forall x {:trigger Slot(d, Addr(q, 512 * j), x)} :: 0 <= x < SLOTS ==>
         Slot(d, Addr(q, 512 * j), x) == if x < i then Addr(q, 512 * j + 1 + x) else 0
  }

  lemma FillingStep(d: Image, q: nat, j: nat, i: nat)
    requires q > 0 && i < SLOTS && Filling(d, q, j, i) && Addr(q, 512 * j + 1 + i) < WORDS
    ensures Filling(PutSlot(d, Addr(q, 512 * j), i, Addr(q, 512 * j + 1 + i)), q, j, i + 1)
    ensures SameBut(d, PutSlot(d, Addr(q, 512 * j), i, Addr(q, 512 * j + 1 + i)), {Addr(q, 512 * j)})
  {
    PutSlotIs(d, Addr(q, 512 * j), i, Addr(q, 512 * j + 1 + i));
  }

  /** Writing one chain block leaves those before it, and the superblock, as they are. */
  lemma FilledStays(d: Image, d': Image, q: nat, j: nat, x: nat)
    requires q > 0 && SameBut(d, d', {Addr(q, 512 * x)}) && Filled(d, q, j) && j != x
    ensures Filled(d', q, j)
  {
    SameSlots(d, d', {Addr(q, 512 * x)}, Addr(q, 512 * j));
  }

  ghost predicate ClearBlock(d: Image, b: nat)
  {
    OnDevice(d, 4096 * b) && Block(d, 4096 * b) == Zeros(4096)
  }

  /** The blocks from up to before til hold nothing but zeros. */
  ghost predicate Cleared(d: Image, from: nat, til: nat)
  {
    forall b: nat {:trigger ClearBlock(d, b)} :: from <= b < til ==> ClearBlock(d, b)
  }

  lemma ClearedStep(d: Image, i: nat)
    requires Cleared(d, 0, i) && OnDevice(d, 4096 * i)
    ensures Cleared(ZeroBlock(d, 4096 * i), 0, i + 1)
  {
    var r := ZeroBlock(d, 4096 * i);
    SpliceFrame(d, 4096 * i, 0, Zeros(4096));
    forall b: nat | b < i + 1 ensures ClearBlock(r, b) {
      if b < i {
        assert ClearBlock(d, b);
      } else {
        assert Splice(Block(d, 4096 * i), 0, Zeros(4096)) == Zeros(4096);
      }
    }
  }

  /** Writing the superblock or a chain block does not touch the inodes. */
  lemma ClearedStays(d: Image, d': Image, q: nat, s: set<nat>)
    requires Cleared(d, 1, q + 1) && SameBut(d, d', s)
    requires forall b: nat {:trigger 4096 * b} :: 1 <= b <= q ==> 4096 * b !in s
    ensures Cleared(d', 1, q + 1)
  {
    forall b: nat | 1 <= b < q + 1 ensures ClearBlock(d', b) {
      assert ClearBlock(d, b);
      assert 4096 * b !in s;
    }
  }

  /** A device of that many bytes has room for the blocks of the list, but perhaps not for the last one. */
  predicate FreshFits(bytes: nat, q: nat)
  {
    4096 * (65 * q) <= bytes < WORDS
  }

  lemma FreshBound(d: Image, q: nat, n: nat)
    requires q > 0 && n <= DataBlocks(q) && FreshFits(|d|, q)
    ensures Addr(q, n) < WORDS && (n < DataBlocks(q) ==> OnDevice(d, Addr(q, n)))
  {
  }

  ghost predicate WrittenUpTo(d: Image, q: nat, j: nat)
    requires q > 0
  {
    forall x {:trigger Filled(d, q, x)} :: 0 <= x < j ==> Filled(d, q, x)
  }

  lemma OneMoreWritten(d: Image, d': Image, q: nat, j: nat)
    requires q > 0 && |d| >= 4096 && WrittenUpTo(d, q, j) && Filled(d', q, j) && SameBut(d, d', {Addr(q, 512 * j)})
    requires Cleared(d, 1, q + 1)
    ensures WrittenUpTo(d', q, j + 1) && Head(d') == Head(d) && Cleared(d', 1, q + 1)
  {
    forall x | 0 <= x < j + 1 ensures Filled(d', q, x) {
      if x < j {
        FilledStays(d, d', q, x, j);
      }
    }
    SameSlots(d, d', {Addr(q, 512 * j)}, 0);
    ClearedStays(d, d', q, {Addr(q, 512 * j)});
  }

  // ----- the blocks that are not in the chain -----

  predicate BlankDevice(d: Image)
  {
    forall i :: 0 <= i < |d| ==> d[i] == 0
  }

  /** The n-th block is not a chain block and holds nothing but zeros. */
  ghost predicate SpareBlank(d: Image, q: nat, n: nat)
  {
    n % 512 != 0 && OnDevice(d, Addr(q, n)) ==> Blank(d, Addr(q, n))
  }

  ghost predicate SparesBlank(d: Image, q: nat)
    requires q > 0
  {
    forall n: nat {:trigger SpareBlank(d, q, n)} :: n <= DataBlocks(q) ==> SpareBlank(d, q, n)
  }

  lemma BlankDeviceSpares(d: Image, q: nat)
    requires q > 0 && BlankDevice(d)
    ensures SparesBlank(d, q)
  {
    forall n: nat | n <= DataBlocks(q) ensures SpareBlank(d, q, n) {
      var b := Addr(q, n);
      if OnDevice(d, b) {
        forall j | 0 <= j < SLOTS ensures Slot(d, b, j) == 0 {
          ZeroWord(Block(d, b), j);
        }
      }
    }
  }

  /** The address of the superblock or of a chain block. */
  ghost predicate SuperOrLink(q: nat, x: nat)
  {
    x == 0 || exists j: nat {:trigger Addr(q, 512 * j)} :: x == Addr(q, 512 * j)
  }

  lemma SpareIsNotLink(q: nat, n: nat, x: nat)
    requires n % 512 != 0 && SuperOrLink(q, x)
    ensures Addr(q, n) != x
  {
  }

  /** Writing the superblock or a chain block leaves them alone. */
  lemma SparesStay(d: Image, d': Image, q: nat, x: nat)
    requires q > 0 && SparesBlank(d, q) && SameBut(d, d', {x}) && SuperOrLink(q, x)
    ensures SparesBlank(d', q)
  {
    forall n: nat | n <= DataBlocks(q) ensures SpareBlank(d', q, n) {
      assert SpareBlank(d, q, n);
      if n % 512 != 0 && OnDevice(d, Addr(q, n)) {
        SpareIsNotLink(q, n, x);
        SameSlots(d, d', {x}, Addr(q, n));
      }
    }
  }

  /** Where nothing has been written to the other blocks, every free block outside the chain is clean. */
  lemma SparesAreClean(d: Image, q: nat)
    requires q > 0 && SparesBlank(d, q) && forall b :: b in Fresh(q) ==> OnDevice(d, b)
    ensures CleanSpares(d, FreshPlaces(q))
  {
    forall b | b in FreshPlaces(q) && FreshPlaces(q)[b].Spare? ensures Blank(d, b) {
      var n := Number(q, b);
      assert b == Addr(q, n);
      assert SpareBlank(d, q, n);
    }
  }
}
