/**
  The files of the file system: growing them block by block (tyrant_help.c),
  and reading and writing their bytes (tyrant.c), in place on the device.
 */
module FileSystem {
  import opened ByteType
  import opened Device
  import opened FreeList
  import opened BlockMap
  import opened BlockAppend
  import opened BlockGrowth
  import opened FileBytes
  import D = Disk

  class FileSystem {
    const disk: D.Disk
    /** The inode table of the device, by the address of the inode. */
    var inodes: map<nat, Inode>
    ghost var at: map<Part, nat>
    ghost var owner: map<nat, Part>

    ghost function State(): Fs
      reads this, disk
    {
      Fs(disk.image, disk.place, inodes, at, owner)
    }

    ghost predicate Valid(hand: set<nat>)
      reads this, disk
    {
      disk.Valid() == true && Sound(State(), hand) == true
    }

    /** A formatted drive without files. */
    constructor (disk: D.Disk)
      requires disk.Valid()
      ensures this.disk == disk && Valid({}) && inodes == map[] && at == map[] && owner == map[]
    {
      this.disk := disk;
      inodes := map[];
      at, owner := map[], map[];
    }

    /** An inode that holds no block yet (tfs_mknod). */
    method MakeInode(loc: nat)
      requires Valid({}) && loc !in inodes
      modifies this
      ensures Valid({}) && State() == WithInode(old(State()), loc)
    {
      NewInodeKeeps(State(), loc);
      inodes := inodes[loc := EMPTY_INODE];
    }

    lemma IsGood(hand: set<nat>)
      requires Valid(hand)
      ensures Good(State(), hand) && HeadOk(disk.image)
    {
      assert WellFormed(disk.image, disk.chain, disk.place);
      GoodHead(State(), hand);
    }

    /** allocate_block */
    method Take(ghost hand: set<nat>) returns (b: nat)
      requires Valid(hand)
      modifies disk
      ensures HeadOk(old(disk.image)) && (State(), b) == Taken(old(State())) && Valid(HandWith(hand, b))
    {
      IsGood(hand);
      TakenIs(State(), hand, 0);
      b := disk.AllocateBlock();
    }

    /** free_block for a block that is in hand and not needed after all */
    method Give(b: nat, ghost hand: set<nat>)
      requires Valid(hand) && b in hand
      modifies disk
      ensures HeadOk(old(disk.image)) && OnDevice(old(disk.image), b) && State() == GivenBack(old(State()), b)
      ensures Valid(hand - {b})
    {
      ghost var s := State();
      IsGood(hand);
      GivenBackIs(s, hand, 0, b);
      HandFree(s, hand, b);
      var status := disk.FreeBlock(0, b);
    }

    /** b goes into a field of the inode; commit_inode */
    method HangField(loc: nat, parent: Inode, kind: Kind, b: nat, ghost hand: set<nat>) returns (node: Inode)
      requires Valid(hand) && b in hand && loc in inodes && inodes[loc] == parent
      requires Proper(kind) && !CellOf(kind).Word? && CanHang(State(), Part(loc, kind), b)
      modifies this`inodes, this`at, this`owner
      ensures old(Hangable(State(), Part(loc, kind))) && State() == Hung(old(State()), Part(loc, kind), b)
      ensures Valid(hand - {b}) && loc in inodes && inodes[loc] == node
    {
      ghost var s := State();
      IsGood(hand);
      HangableIf(s, Part(loc, kind));
      HungIs(s, hand, Part(loc, kind), b);
      node := SetField(parent, CellOf(kind), b);
      if kind.Data? {
        node := node.(blocks := node.blocks + 1);
      }
      inodes := inodes[loc := node];
      at := at[Part(loc, kind) := b];
      owner := owner[b := Part(loc, kind)];
    }

    /** b goes into a word of the pointer block holder: write_block, and commit_inode if it is data */
    method HangWord(loc: nat, parent: Inode, kind: Kind, holder: nat, b: nat, ghost hand: set<nat>)
      returns (node: Inode)
      requires Valid(hand) && b in hand && loc in inodes && inodes[loc] == parent
      requires Proper(kind) && CellOf(kind).Word? && CanHang(State(), Part(loc, kind), b)
      requires Part(loc, CellOf(kind).parent) in at && at[Part(loc, CellOf(kind).parent)] == holder
      modifies this`inodes, this`at, this`owner, disk`image
      ensures old(Hangable(State(), Part(loc, kind))) && State() == Hung(old(State()), Part(loc, kind), b)
      ensures Valid(hand - {b}) && loc in inodes && inodes[loc] == node
    {
      ghost var s := State();
      IsGood(hand);
      HangableIf(s, Part(loc, kind));
      HungIs(s, hand, Part(loc, kind), b);
      ListUntouched(s, hand, disk.chain, Part(loc, kind), b, Hung(s, Part(loc, kind), b));
      disk.image := PutSlot(disk.image, holder, CellOf(kind).slot, b);
      node := if kind.Data? then parent.(blocks := parent.blocks + 1) else parent;
      inodes := inodes[loc := node];
      at := at[Part(loc, kind) := b];
      owner := owner[b := Part(loc, kind)];
    }

    /** A pointer field of the inode, filled first if it is zero; 0 if there is no block left for it. */
    method EnsureField(loc: nat, parent: Inode, kind: Kind, ghost hand: set<nat>) returns (node: Inode, ptr: nat)
      requires Valid(hand) && loc in inodes && inodes[loc] == parent && (kind.Ind? || kind.Dbl? || kind.Trpl?)
      requires CanEnsure(State(), hand, Part(loc, kind))
      modifies this`inodes, this`at, this`owner, disk
      ensures old(CanEnsure(State(), hand, Part(loc, kind)))
              && (State(), ptr) == Ensured(old(State()), hand, Part(loc, kind))
      ensures Valid(hand) && loc in inodes && inodes[loc] == node
    {
      ghost var s := State();
      HangableIf(s, Part(loc, kind));
      PointerIs(s, Part(loc, kind));
      node := parent;
      ptr := Field(parent, CellOf(kind));
      if ptr == 0 {
        TakenIs(s, hand, loc);
        ptr := Take(hand);
        if ptr == 0 {
          return;
        }
        node := HangField(loc, parent, kind, ptr, hand + {ptr});
        assert hand + {ptr} - {ptr} == hand;
      }
    }

    /** A word of the pointer block holder, filled first if it is zero; 0 if there is no block left for it. */
    method EnsureWord(loc: nat, parent: Inode, kind: Kind, holder: nat, ghost hand: set<nat>) returns (ptr: nat)
      requires Valid(hand) && loc in inodes && inodes[loc] == parent
      requires Proper(kind) && CellOf(kind).Word? && CanEnsure(State(), hand, Part(loc, kind))
      requires Part(loc, CellOf(kind).parent) in at && at[Part(loc, CellOf(kind).parent)] == holder
      modifies this`inodes, this`at, this`owner, disk
      ensures old(CanEnsure(State(), hand, Part(loc, kind)))
              && (State(), ptr) == Ensured(old(State()), hand, Part(loc, kind))
      ensures Valid(hand) && loc in inodes && inodes[loc] == parent
    {
      ghost var s := State();
      HangableIf(s, Part(loc, kind));
      PointerIs(s, Part(loc, kind));
      ptr := Slot(disk.image, holder, CellOf(kind).slot);
      if ptr == 0 {
        TakenIs(s, hand, loc);
        ptr := Take(hand);
        if ptr == 0 {
          return;
        }
        var node := HangWord(loc, parent, kind, holder, ptr, hand + {ptr});
        assert hand + {ptr} - {ptr} == hand;
      }
    }

    /** The pointer blocks above block i of the file, made where they are missing; the lowest of them, or 0. */
    method Holder(loc: nat, parent: Inode, i: nat, ghost hand: set<nat>) returns (node: Inode, holder: nat)
      requires Valid(hand) && loc in inodes && inodes[loc] == parent && FIRST_IND <= i < MAX_BLOCKS
      requires CanEnsureAll(State(), hand, loc, Above(i))
      modifies this`inodes, this`at, this`owner, disk
      ensures old(CanEnsureAll(State(), hand, loc, Above(i)))
              && (State(), holder) == EnsuredAll(old(State()), hand, loc, Above(i))
      ensures Valid(hand) && loc in inodes && inodes[loc] == node
    {
      AboveIs(i);
      if i < FIRST_DBL {
        OneEnsured(State(), hand, loc, [Ind]);
        node, holder := EnsureField(loc, parent, Ind, hand);
      } else if i < FIRST_TRPL {
        node, holder := DblHolder(loc, parent, (i - FIRST_DBL) / 512, hand);
      } else {
        node, holder := TrplHolder(loc, parent, (i - FIRST_TRPL) / (512 * 512), (i - FIRST_TRPL) / 512, hand);
      }
    }

    method DblHolder(loc: nat, parent: Inode, a: nat, ghost hand: set<nat>) returns (node: Inode, holder: nat)
      requires Valid(hand) && loc in inodes && inodes[loc] == parent && a < 512
      requires CanEnsureAll(State(), hand, loc, [Dbl, DblKid(a)])
      modifies this`inodes, this`at, this`owner, disk
      ensures old(CanEnsureAll(State(), hand, loc, [Dbl, DblKid(a)]))
              && (State(), holder) == EnsuredAll(old(State()), hand, loc, [Dbl, DblKid(a)])
      ensures Valid(hand) && loc in inodes && inodes[loc] == node
    {
      TwoEnsured(State(), hand, loc, [Dbl, DblKid(a)]);
      var dbl;
      node, dbl := EnsureField(loc, parent, Dbl, hand);
      if dbl == 0 {
        holder := 0;
      } else {
        holder := EnsureWord(loc, node, DblKid(a), dbl, hand);
      }
    }

    method TrplHolder(loc: nat, parent: Inode, a: nat, g: nat, ghost hand: set<nat>) returns (node: Inode, holder: nat)
      requires Valid(hand) && loc in inodes && inodes[loc] == parent && a < 512 && g < 262144
      requires CanEnsureAll(State(), hand, loc, [Trpl, TrplKid(a), TrplGrand(g)])
      modifies this`inodes, this`at, this`owner, disk
      ensures old(CanEnsureAll(State(), hand, loc, [Trpl, TrplKid(a), TrplGrand(g)]))
              && (State(), holder) == EnsuredAll(old(State()), hand, loc, [Trpl, TrplKid(a), TrplGrand(g)])
      ensures Valid(hand) && loc in inodes && inodes[loc] == node
    {
      MoreEnsured(State(), hand, loc, [Trpl, TrplKid(a), TrplGrand(g)]);
      var trpl;
      node, trpl := EnsureField(loc, parent, Trpl, hand);
      if trpl == 0 {
        holder := 0;
      } else {
        assert [Trpl, TrplKid(a), TrplGrand(g)][1..] == [TrplKid(a), TrplGrand(g)];
        holder := TrplInner(loc, node, a, g, trpl, hand);
      }
    }

    /** The two lower levels. */
    method TrplInner(loc: nat, node: Inode, a: nat, g: nat, trpl: nat, ghost hand: set<nat>) returns (holder: nat)
      requires Valid(hand) && loc in inodes && inodes[loc] == node && a < 512 && g < 262144
      requires CanEnsureAll(State(), hand, loc, [TrplKid(a), TrplGrand(g)])
      requires Part(loc, Trpl) in at && at[Part(loc, Trpl)] == trpl
      modifies this`inodes, this`at, this`owner, disk
      ensures old(CanEnsureAll(State(), hand, loc, [TrplKid(a), TrplGrand(g)]))
              && (State(), holder) == EnsuredAll(old(State()), hand, loc, [TrplKid(a), TrplGrand(g)])
      ensures Valid(hand) && loc in inodes && inodes[loc] == node
    {
      TwoEnsured(State(), hand, loc, [TrplKid(a), TrplGrand(g)]);
      var dbl := EnsureWord(loc, node, TrplKid(a), trpl, hand);
      if dbl == 0 {
        holder := 0;
      } else {
        holder := EnsureWord(loc, node, TrplGrand(g), dbl, hand);
      }
    }

    /** add_block_to_node */
    method AddBlock(loc: nat, parent0: Inode) returns (parent: Inode, block: nat)
      requires Valid({}) && loc in inodes && inodes[loc] == parent0 && CanAdd(State(), loc)
      modifies this`inodes, this`at, this`owner, disk
      ensures old(CanAdd(State(), loc)) && (State(), block) == Added(old(State()), loc)
      ensures AddDone(old(State()), loc, State(), block) == true
      ensures Valid({}) && loc in inodes && inodes[loc] == parent
    {
      ghost var s := State();
      AddedDone(s, loc);
      TakenForAdd(s, loc);
      parent := parent0;
      block := Take({});
      if block == 0 {
        return;
      }
      var i := parent.blocks;
      if i < FIRST_IND {
        parent := AddDirect(loc, parent, i, block);
      } else {
        parent, block := AddBelow(loc, parent, i, block);
      }
    }

    /** The rest of add_block_to_node for a block that goes into the inode. */
    method AddDirect(loc: nat, parent0: Inode, i: nat, taken: nat) returns (parent: Inode)
      requires Valid({taken}) && loc in inodes && inodes[loc] == parent0 && i < FIRST_IND
      requires CanHang(State(), Part(loc, Data(i)), taken) == true
      modifies this`inodes, this`at, this`owner
      ensures old(Hangable(State(), Part(loc, Data(i)))) && State() == Hung(old(State()), Part(loc, Data(i)), taken)
      ensures Valid({}) && loc in inodes && inodes[loc] == parent
    {
      parent := HangField(loc, parent0, Data(i), taken, {taken});
      assert {taken} - {taken} == {};
    }

    /** The rest of add_block_to_node for a block that does not go into the inode itself. */
    method AddBelow(loc: nat, parent0: Inode, i: nat, taken: nat) returns (parent: Inode, block: nat)
      requires Valid({taken}) && loc in inodes && inodes[loc] == parent0
      requires CanAddBelow(State(), loc, i, taken) == true
      modifies this`inodes, this`at, this`owner, disk
      ensures old(CanAddBelow(State(), loc, i, taken)) && (State(), block) == AddedBelow(old(State()), loc, i, taken)
      ensures Valid({}) && loc in inodes && inodes[loc] == parent
    {
      ghost var s0 := State();
      AboveLinked(i);
      CanEnsureAbove(s0, loc, i, taken);
      EnsuredAllIs(s0, {taken}, loc, Above(i));
      var holder;
      parent, holder := Holder(loc, parent0, i, {taken});
      assert {taken} - {taken} == {};
      if holder == 0 {
        Give(taken, {taken});
        block := 0;
      } else {
        BelowHangs(s0, loc, i, taken, State());
        parent := HangWord(loc, parent, Data(i), holder, taken, {taken});
        block := taken;
      }
    }

    /** get_i_block */
    method GetBlock(loc: nat, node: Inode, i: nat) returns (block: nat)
      requires Valid({}) && loc in inodes && inodes[loc] == node
      ensures |node.direct| == 12 && node.blocks <= MAX_BLOCKS && block == Walk(disk.image, node, i)
      ensures i >= node.blocks ==> block == 0
      ensures i < node.blocks ==> Part(loc, Data(i)) in at && block == at[Part(loc, Data(i))]
    {
      WalkIs(State(), loc, i);
      if node.blocks == 0 || node.blocks <= i {
        return 0;
      }
      DataPath(State(), loc, i);
      if i < FIRST_IND {
        block := node.direct[i];
      } else if i < FIRST_DBL {
        block := Slot(disk.image, node.indirect, i - FIRST_IND);
      } else if i < FIRST_TRPL {
        var indirect := Slot(disk.image, node.dblIndirect, (i - FIRST_DBL) / 512);
        block := Slot(disk.image, indirect, (i - FIRST_DBL) % 512);
      } else {
        TrplOffsets(i - FIRST_TRPL);
        var dbl := Slot(disk.image, node.trplIndirect, (i - FIRST_TRPL) / (512 * 512));
        var indirect := Slot(disk.image, dbl, (i - FIRST_TRPL) % (512 * 512) / 512);
        block := Slot(disk.image, indirect, (i - FIRST_TRPL) % (512 * 512) % 512);
      }
    }

    // ----- reading and writing bytes -----

    /**
      read_block: as many of the n bytes as the block still has after off, put
      into buff at pos; nothing for block 0 or an offset that is not in it.
     */
    method ReadBlock(buff: array<byte>, pos: nat, block: nat, off: int, n: nat) returns (done: nat)
      requires (block != 0 ==> OnDevice(disk.image, block)) && pos + n <= buff.Length
      modifies buff
      ensures done == if block == 0 || off < 0 || off > BLOCKSIZE then 0 else Min(n, BLOCKSIZE - off)
      ensures forall k :: 0 <= k < buff.Length ==>
                buff[k] == if pos <= k < pos + done then Block(disk.image, block)[off + k - pos] else old(buff[k])
    {
      if block == 0 {
        return 0;
      }
      if off > BLOCKSIZE || off < 0 {
        return 0;
      }
      done := if BLOCKSIZE - off < n then BLOCKSIZE - off else n;
      forall k | 0 <= k < done {
        buff[pos + k] := disk.image[block + off + k];
      }
    }

    /** write_block: as many of the bytes as the block has room for after off; none at an offset that is not in it. */
    method WriteBlock(data: seq<byte>, block: nat, off: int) returns (done: nat)
      requires OnDevice(disk.image, block)
      modifies disk`image
      ensures done == if off < 0 || off > BLOCKSIZE then 0 else Min(|data|, BLOCKSIZE - off)
      ensures disk.image == if done == 0 then old(disk.image) else Splice(old(disk.image), block + off, data[..done])
    {
      if off > BLOCKSIZE || off < 0 {
        return 0;
      }
      done := if BLOCKSIZE - off < |data| then BLOCKSIZE - off else |data|;
      disk.image := Splice(disk.image, block + off, data[..done]);
      assert done == 0 ==> disk.image == old(disk.image);
    }

    /** tfs_read, after path lookup */
    method ReadFile(loc: nat, buff: array<byte>, size: nat, offset: nat) returns (n: int)
      requires Valid({}) && loc in inodes && buff.Length >= size
      modifies buff
      ensures offset >= inodes[loc].size ==> n == -1 && buff[..] == old(buff[..])
      ensures offset < inodes[loc].size ==>
                && n == (if offset + size > inodes[loc].size then inodes[loc].size - offset else size)
                && buff[..n] == Contents(State(), loc)[offset..offset + n]
                && buff[n..] == old(buff[n..])
    {
      var node := inodes[loc];
      if offset >= node.size {
        return -1;
      }
      n := ReadBytes(loc, node, buff, if offset + size > node.size then node.size - offset else size, offset);
    }

    /** The loop of tfs_read. */
    method ReadBytes(loc: nat, node: Inode, buff: array<byte>, total: nat, offset: nat) returns (bytes: nat)
      requires Valid({}) && loc in inodes && inodes[loc] == node && offset + total <= node.size
        && total <= buff.Length
      modifies buff
      ensures bytes == total && buff[..bytes] == Contents(State(), loc)[offset..offset + bytes]
      ensures buff[bytes..] == old(buff[bytes..])
    {
      ghost var s := State();
      SizeFits(s, loc);
      var blocks, off: nat, counter: nat := offset / BLOCKSIZE, offset % BLOCKSIZE, total;
      bytes := 0;
      while counter != 0 && blocks < node.blocks
        invariant bytes + counter == total && State() == s && Valid({})
        invariant off < BLOCKSIZE && (counter == 0 || blocks * 4096 + off == offset + bytes)
        invariant forall k {:trigger buff[k]} :: 0 <= k < buff.Length ==>
                    buff[k] == if k < bytes then ByteAt(s, loc, offset + k) else old(buff[k])
        decreases counter
      {
        var done := ReadOne(s, loc, node, blocks, off, buff, bytes, counter, offset);
        bytes := bytes + done;
        counter := counter - done;
        off := 0;
        blocks := blocks + 1;
      }
      assert buff[..bytes] == Contents(s, loc)[offset..offset + bytes];
    }

    /** One turn of that loop. */
    method ReadOne(ghost s: Fs, loc: nat, node: Inode, i: nat, off: nat, buff: array<byte>, bytes: nat,
                   counter: nat, offset: nat)
      returns (done: nat)
      requires Valid({}) && s == State() && loc in inodes && inodes[loc] == node && i < node.blocks
      requires off < BLOCKSIZE && i * 4096 + off == offset + bytes && bytes + counter <= buff.Length
      modifies buff
      ensures done == if BLOCKSIZE - off < counter then BLOCKSIZE - off else counter
      ensures forall k {:trigger buff[k]} :: 0 <= k < buff.Length ==>
                buff[k] == if bytes <= k < bytes + done then ByteAt(s, loc, offset + k) else old(buff[k])
    {
      BlockThere(s, loc, i);
      var block := GetBlock(loc, node, i);
      done := ReadBlock(buff, bytes, block, off, counter);
      forall k | bytes <= k < bytes + done ensures buff[k] == ByteAt(s, loc, offset + k) {
        ReadPart(s, loc, i, offset + k);
      }
    }

    /** The loop of tfs_write that appends the blocks still missing, and stops at the first that cannot be had. */
    method GrowFile(loc: nat, node0: Inode, finalBlocks: nat) returns (node: Inode)
      requires Valid({}) && loc in inodes && inodes[loc] == node0 && CanGrow(State(), loc, finalBlocks)
      modifies this`inodes, this`at, this`owner, disk
      ensures Valid({}) && Grown(old(State()), loc, State()) && loc in inodes && inodes[loc] == node
      ensures node.blocks < finalBlocks ==> UsedUp(disk.place)
      ensures Reaches(old(State()), loc, finalBlocks, node.blocks) && node.blocks <= Max(node0.blocks, finalBlocks)
    {
      ghost var s := State();
      node := node0;
      var i, more := node.blocks, true;
      GrownSame(s, loc);
      StartsAt(s, loc);
      while i < finalBlocks && more
        invariant Valid({}) && SoFar(s, loc, finalBlocks, State(), more)
        invariant loc in inodes && inodes[loc] == node && (more ==> node.blocks == i)
        invariant node.blocks <= Max(node0.blocks, finalBlocks)
        decreases finalBlocks - i, more
      {
        ghost var s1 := State();
        var block;
        node, block := GrowOne(loc, node, finalBlocks);
        TurnDone(s, loc, finalBlocks, s1, State(), block);
        if block == 0 {
          more := false;
        }
        i := i + 1;
      }
      if more {
        ReachedAll(s, loc, finalBlocks, State());
      }
    }

    method GrowOne(loc: nat, node0: Inode, finalBlocks: nat) returns (node: Inode, block: nat)
      requires Valid({}) && loc in inodes && inodes[loc] == node0
      requires CanGrow(State(), loc, finalBlocks) && node0.blocks < finalBlocks
      modifies this`inodes, this`at, this`owner, disk
      ensures Turn(old(State()), loc, finalBlocks, State(), block)
      ensures Valid({}) && loc in inodes && inodes[loc] == node
    {
      IsGood({});
      AddGrows(State(), loc, finalBlocks);
      node, block := AddBlock(loc, node0);
    }

    /** One turn of the writing loop: what fits of the data goes into block i of the file. */
    method WriteOne(loc: nat, node: Inode, i: nat, off: nat, data: seq<byte>) returns (done: nat)
      requires Valid({}) && loc in inodes && inodes[loc] == node && i < node.blocks && off <= BLOCKSIZE
      modifies disk`image
      ensures done == if BLOCKSIZE - off < |data| then BLOCKSIZE - off else |data|
      ensures Valid({}) && Rewritten(old(State()), loc, 4096 * i + off, data[..done], State())
    {
      ghost var s := State();
      var block := GetBlock(loc, node, i);
      BlockThere(s, loc, i);
      done := WriteBlock(data, block, off);
      WriteStep(s, loc, i, off, data[..done]);
      if done == 0 {
        assert Splice(s.image, block + off, data[..0]) == s.image;
      }
      DataWriteKeeps(s, {}, disk.image, Part(loc, Data(i)));
      DataWriteList(s, disk.chain, disk.image, Part(loc, Data(i)));
    }

    /** The writing loop of tfs_write. */
    method WriteBytes(loc: nat, node: Inode, data: seq<byte>, offset: nat) returns (bytes: nat)
      requires Valid({}) && loc in inodes && inodes[loc] == node
      modifies disk`image
      ensures Valid({}) && bytes <= |data|
        && Rewritten(old(State()), loc, offset, data[..bytes], State()) == true
      ensures bytes == 0 || offset + bytes <= 4096 * node.blocks
      ensures bytes == Min(|data|, Max(4096 * node.blocks, offset) - offset)
    {
      ghost var s := State();
      var blocks, off: nat, counter: nat := offset / BLOCKSIZE, offset % BLOCKSIZE, |data|;
      bytes := 0;
      RewrittenNothing(s, loc, offset);
      assert data[..0] == [];
      while counter != 0 && blocks < node.blocks
        invariant bytes + counter == |data| && Valid({}) && inodes == s.inodes
        invariant off < BLOCKSIZE && (counter == 0 || blocks * 4096 + off == offset + bytes)
        invariant bytes == 0 || offset + bytes <= 4096 * node.blocks
        invariant Rewritten(s, loc, offset, data[..bytes], State())
        decreases counter
      {
        ghost var s1 := State();
        var done := WriteOne(loc, node, blocks, off, data[bytes..]);
        assert data[bytes..][..done] == data[bytes..bytes + done];
        RewrittenTwice(s, loc, offset, data, bytes, done, s1, State());
        bytes := bytes + done;
        counter := counter - done;
        off := 0;
        blocks := blocks + 1;
      }
    }

    /**
      tfs_write, after path lookup. The file gets as many of the blocks it
      lacks as there is room for, and the write ends where they end. A write
      that starts past the end of the file sets the new size even if the blocks
      up to there cannot be had: the file system is left sound exactly if there
      was room for them.
     */
    method WriteFile(loc: nat, data: seq<byte>, offset: nat) returns (n: nat)
      requires Valid({}) && loc in inodes
      requires offset + |data| > inodes[loc].size ==> CanGrow(State(), loc, BlocksFor(offset + |data|))
      modifies this`inodes, this`at, this`owner, disk
      ensures n <= |data| && WriteDone(old(State()), loc, offset, data[..n], State()) == true
      ensures WriteGets(old(State()), loc, offset, |data|, n, State()) == true
      ensures Valid({}) <==> RoomUpTo(old(State()), loc, offset)
      ensures FullIfLess(disk.place, n, |data|) == true
    {
      ghost var s := State();
      var node := inodes[loc];
      var totalBytes := node.size;
      node := GrowFor(loc, node, offset + |data|);
      n := WriteGrown(s, loc, node, totalBytes, data, offset);
    }

    /**
      The rest of tfs_write, when the file has all the blocks it is going to have; s is the file
      system before the write.
     */
    method WriteGrown(ghost s: Fs, loc: nat, node0: Inode, totalBytes: nat, data: seq<byte>, offset: nat)
      returns (n: nat)
      requires Sound(s, {}) == true && loc in s.inodes && totalBytes == s.inodes[loc].size
      requires Valid({}) && Grown(s, loc, State()) == true && loc in inodes && inodes[loc] == node0
      requires BlocksFor(offset + |data|) <= MAX_BLOCKS
      requires Reaches(s, loc, BlocksFor(offset + |data|), node0.blocks) == true
      requires node0.blocks <= Max(s.inodes[loc].blocks, BlocksFor(offset + |data|))
      requires FullIfLess(disk.place, 4096 * node0.blocks, offset + |data|) == true
      modifies this`inodes, disk`image
      ensures n <= |data| && WriteDone(s, loc, offset, data[..n], State()) == true
      ensures WriteGets(s, loc, offset, |data|, n, State()) == true
      ensures Valid({}) <==> RoomUpTo(s, loc, offset)
      ensures FullIfLess(disk.place, n, |data|) == true
    {
      n := WriteWithin(s, loc, node0, totalBytes, data, offset);
      WriteSizes(s, loc, offset, data[..n], State());
      WriteReaches(s, loc, offset, n, |data|, State());
    }

    /** The writing loop, and the new size. */
    method WriteWithin(ghost s: Fs, loc: nat, node0: Inode, totalBytes: nat, data: seq<byte>, offset: nat)
      returns (n: nat)
      requires Sound(s, {}) == true && loc in s.inodes && totalBytes == s.inodes[loc].size
      requires Valid({}) && Grown(s, loc, State()) == true && loc in inodes && inodes[loc] == node0
      modifies this`inodes, disk`image
      ensures n == Min(|data|, Max(4096 * node0.blocks, offset) - offset)
      ensures WriteDone(s, loc, offset, data[..n], State()) == true
      ensures loc in inodes && inodes[loc].blocks == node0.blocks
      ensures Valid({}) <==> inodes[loc].size <= 4096 * inodes[loc].blocks
    {
      ghost var s1 := State();
      n := WriteBytes(loc, node0, data, offset);
      FinishWrite(s, s1, loc, node0, if totalBytes > offset + n then totalBytes else offset + n, offset, data[..n]);
    }

    method FinishWrite(ghost s: Fs, ghost s1: Fs, loc: nat, node: Inode, size: nat, ghost offset: nat,
                       ghost chunk: seq<byte>)
      requires Sound(s, {}) == true && loc in s.inodes && size == Max(s.inodes[loc].size, offset + |chunk|)
      requires Valid({}) && Sound(s1, {}) == true && Grown(s, loc, s1) == true
      requires Rewritten(s1, loc, offset, chunk, State()) == true
      requires loc in inodes && inodes[loc] == node && loc in s1.inodes && s1.inodes[loc] == node
      requires chunk == [] || offset + |chunk| <= 4096 * node.blocks
      modifies this`inodes
      ensures WriteDone(s, loc, offset, chunk, State()) == true
      ensures loc in inodes && inodes[loc].blocks == node.blocks
      ensures Valid({}) <==> inodes[loc].size <= 4096 * inodes[loc].blocks
    {
      WriteAddsUp(s, loc, s1, offset, chunk, State());
      SetSize(loc, node, size, State());
    }

    /** The end of tfs_write: the new size is committed. */
    method SetSize(loc: nat, node: Inode, size: nat, ghost s: Fs)
      requires disk.Valid() && State() == s && Sound(s, {}) == true && loc in s.inodes && s.inodes[loc] == node
      modifies this`inodes
      ensures State() == Resized(s, loc, size) && inodes[loc].blocks == node.blocks && inodes[loc].size == size
      ensures Valid({}) <==> size <= 4096 * node.blocks
    {
      ResizeKeeps(s, loc, size);
      inodes := inodes[loc := node.(size := size)];
    }

    /** The first part of tfs_write: new blocks, if the file does not reach so far yet. */
    method GrowFor(loc: nat, node0: Inode, end: nat) returns (node: Inode)
      requires Valid({}) && loc in inodes && inodes[loc] == node0
      requires end > node0.size ==> CanGrow(State(), loc, BlocksFor(end))
      modifies this`inodes, this`at, this`owner, disk
      ensures Valid({}) && Grown(old(State()), loc, State()) == true && loc in inodes && inodes[loc] == node
      ensures FullIfLess(disk.place, 4096 * node.blocks, end) == true
      ensures BlocksFor(end) <= MAX_BLOCKS && Reaches(old(State()), loc, BlocksFor(end), node.blocks) == true
      ensures node.blocks <= Max(node0.blocks, BlocksFor(end))
    {
      if end > node0.size {
        node := GrowFile(loc, node0, BlocksFor(end));
      } else {
        GrownSame(State(), loc);
        SizeFits(State(), loc);
        StartsAt(State(), loc);
        ReachedAll(State(), loc, BlocksFor(end), State());
        node := node0;
      }
    }
  }

  const EMPTY_INODE: Inode := Inode(0, 0, Zeros12(), 0, 0, 0)

  function Zeros12(): (s: seq<nat>)
    ensures |s| == 12 && forall i :: 0 <= i < 12 ==> s[i] == 0
  {
    seq(12, i => 0)
  }

  function WithInode(s: Fs, loc: nat): Fs
  {
    s.(inodes := s.inodes[loc := EMPTY_INODE])
  }

  lemma NewInodeStored(s: Fs, loc: nat, p: Part)
    requires Mapped(s) && loc !in s.inodes && Proper(p.kind) && InodeShape(WithInode(s, loc), p.loc)
    ensures if p.loc == loc then p !in s.at && Stored(WithInode(s, loc), p) == 0
            else InodeShape(s, p.loc) && Stored(WithInode(s, loc), p) == Stored(s, p)
  {
    if p.loc == loc {
      assert p in s.at ==> PartOk(s, p);
      if CellOf(p.kind).Word? {
        var h := Part(loc, CellOf(p.kind).parent);
        assert h in s.at ==> PartOk(s, h);
      }
    }
  }

  lemma NewInodePart(s: Fs, loc: nat, p: Part)
    requires Mapped(s) && loc !in s.inodes && p in s.at
    ensures PartOk(WithInode(s, loc), p)
  {
    assert PartOk(s, p);
    NewInodeStored(s, loc, p);
  }

  lemma NewInodeKeeps(s: Fs, loc: nat)
    requires Sound(s, {}) && loc !in s.inodes
    ensures Sound(WithInode(s, loc), {})
  {
    var s' := WithInode(s, loc);
    forall p | p in s'.at ensures PartOk(s', p) {
      NewInodePart(s, loc, p);
    }
    forall b | b in s'.owner ensures OwnerOk(s', b) {
      assert OwnerOk(s, b);
    }
    forall p ensures EmptyOk(s', p) {
      assert EmptyOk(s, p);
      if Proper(p.kind) && InodeShape(s', p.loc) {
        NewInodeStored(s, loc, p);
      }
    }
    forall l | l in s'.inodes ensures InodeOk(s', l) {
      assert l != loc ==> InodeOk(s, l);
    }
  }

  /** The offsets that tyrant_help.c computes for three levels. */
  lemma TrplOffsets(j: nat)
    ensures j / 512 / 512 == j / (512 * 512)
    ensures j / 512 % 512 == j % (512 * 512) / 512
    ensures j % (512 * 512) % 512 == j % 512
  {
  }

  lemma SizeFits(s: Fs, loc: nat)
    requires Mapped(s) && loc in s.inodes
    ensures s.inodes[loc].size <= 4096 * s.inodes[loc].blocks
  {
    assert InodeOk(s, loc);
  }

  /** The pointer blocks above block i, by the offsets that tyrant_help.c computes. */
  lemma AboveIs(i: nat)
    requires FIRST_IND <= i < MAX_BLOCKS
    ensures i < FIRST_DBL ==> Above(i) == [Ind]
    ensures FIRST_DBL <= i < FIRST_TRPL ==>
              (i - FIRST_DBL) / 512 < 512 && Above(i) == [Dbl, DblKid((i - FIRST_DBL) / 512)]
    ensures i >= FIRST_TRPL ==>
              && var j := i - FIRST_TRPL;
              && j / (512 * 512) < 512 && j / 512 < 262144
              && Above(i) == [Trpl, TrplKid(j / (512 * 512)), TrplGrand(j / 512)]
  {
    if i >= FIRST_TRPL {
      TrplOffsets(i - FIRST_TRPL);
    }
  }

  /** The bytes of block i are those of the file from 4096 * i on. */
  lemma ReadPart(s: Fs, loc: nat, i: nat, k: nat)
    requires HasBlock(s, loc, i) && i * 4096 <= k < i * 4096 + 4096
    ensures ByteAt(s, loc, k) == Block(s.image, s.at[Part(loc, Data(i))])[k - i * 4096]
  {
    assert k / 4096 == i && k % 4096 == k - i * 4096;
  }

  /** How many blocks hold that many bytes. */
  function BlocksFor(bytes: nat): (n: nat)
    ensures bytes <= 4096 * n < bytes + 4096
  {
    bytes / 4096 + if bytes % 4096 == 0 then 0 else 1
  }

  lemma DataWriteList(s: Fs, chain: seq<nat>, image: Image, p: Part)
    requires Sound(s, {}) && WellFormed(s.image, chain, s.place) && p in s.at && SameBut(s.image, image, {s.at[p]})
    ensures WellFormed(image, chain, s.place)
  {
    assert PartOk(s, p);
    NotSuper(s);
    ClientWrites(s.image, chain, s.place, image, {s.at[p]});
  }

  lemma ResizeStored(s: Fs, loc: nat, size: nat, p: Part)
    requires loc in s.inodes && Proper(p.kind)
    ensures InodeShape(s, p.loc) <==> InodeShape(Resized(s, loc, size), p.loc)
    ensures InodeShape(s, p.loc) ==> Stored(Resized(s, loc, size), p) == Stored(s, p)
  {
  }

  /** A new size keeps the map sound exactly if the file has blocks for it. */
  lemma ResizeKeeps(s: Fs, loc: nat, size: nat)
    requires Sound(s, {}) && loc in s.inodes
    ensures Sound(Resized(s, loc, size), {}) <==> size <= 4096 * s.inodes[loc].blocks
  {
    var s' := Resized(s, loc, size);
    if size <= 4096 * s.inodes[loc].blocks {
      ResizeFits(s, loc, size);
    } else {
      assert !InodeOk(s', loc);
    }
  }

  lemma ResizeFits(s: Fs, loc: nat, size: nat)
    requires Sound(s, {}) && loc in s.inodes && size <= 4096 * s.inodes[loc].blocks
    ensures Sound(Resized(s, loc, size), {})
  {
    var s' := Resized(s, loc, size);
    forall p | p in s'.at ensures PartOk(s', p) {
      assert PartOk(s, p);
      ResizeStored(s, loc, size, p);
    }
    forall b | b in s'.owner ensures OwnerOk(s', b) {
      assert OwnerOk(s, b);
    }
    forall p ensures EmptyOk(s', p) {
      assert EmptyOk(s, p);
      if Proper(p.kind) {
        ResizeStored(s, loc, size, p);
      }
    }
    forall l | l in s'.inodes ensures InodeOk(s', l) {
      assert InodeOk(s, l);
    }
  }

  /**
    What a write leaves behind: the file has data at offset and is as long as
    it needs to be, no other file is different, and the blocks the file has
    gained are blocks that were free.
   */
  ghost predicate WriteDone(s: Fs, loc: nat, offset: nat, data: seq<byte>, s': Fs)
  {
    && loc in s.inodes && s'.inodes.Keys == s.inodes.Keys && BytesWritten(s, loc, offset, data, s')
    && s'.inodes[loc].size == Max(s.inodes[loc].size, offset + |data|)
    && (forall l {:trigger s'.inodes[l]} :: l in s.inodes && l != loc ==>
          s'.inodes[l] == s.inodes[l] && Contents(s', l) == Contents(s, l))
    && (forall p :: p in s.at ==> p in s'.at && s'.at[p] == s.at[p])
    && (forall p :: p in s'.at && p !in s.at ==> p.loc == loc)
    && Conserved(s, {}, s', {})
    && (AllClean(s, {}) ==> AllClean(s', {}))
  }

  /** A turn of the growing loop: one block more, or no room for it. */
  ghost predicate Turn(s: Fs, loc: nat, finalBlocks: nat, s': Fs, block: nat)
  {
    && Grown(s, loc, s') && CanGrow(s', loc, finalBlocks) && loc in s.inodes && loc in s'.inodes
    && var n := s.inodes[loc].blocks + 1;
    && n <= MAX_BLOCKS && GrewFor(s, loc, n, s')
    && if block != 0 then s'.inodes[loc].blocks == n
       else s'.inodes[loc].blocks == n - 1 && UsedUp(s'.place) && Reaches(s, loc, finalBlocks, n - 1)
  }

  /** Between two turns, and after the last. */
  ghost predicate SoFar(s: Fs, loc: nat, finalBlocks: nat, s': Fs, more: bool)
  {
    && Grown(s, loc, s') && CanGrow(s', loc, finalBlocks) && loc in s'.inodes && s'.inodes[loc].blocks <= MAX_BLOCKS
    && if more then GrewFor(s, loc, s'.inodes[loc].blocks, s')
       else UsedUp(s'.place) && Reaches(s, loc, finalBlocks, s'.inodes[loc].blocks)
  }

  lemma TurnDone(s: Fs, loc: nat, finalBlocks: nat, s1: Fs, s2: Fs, block: nat)
    requires Mapped(s) && Mapped(s1)
    requires SoFar(s, loc, finalBlocks, s1, true) && Turn(s1, loc, finalBlocks, s2, block)
    ensures SoFar(s, loc, finalBlocks, s2, block != 0)
    ensures s2.inodes[loc].blocks == s1.inodes[loc].blocks + if block == 0 then 0 else 1
  {
    GrownTwice(s, loc, s1, s2);
    if block == 0 {
      ReachedEnd(s, loc, finalBlocks, s1, s1.inodes[loc].blocks);
    } else {
      GrewTwice(s, loc, s1.inodes[loc].blocks, s1, s2.inodes[loc].blocks, s2);
    }
  }

  /** An append is a turn of the growing loop. */
  lemma AddGrows(s: Fs, loc: nat, finalBlocks: nat)
    requires Good(s, {}) && loc in s.inodes && CanGrow(s, loc, finalBlocks) && s.inodes[loc].blocks < finalBlocks
    ensures CanAdd(s, loc) && Turn(s, loc, finalBlocks, Added(s, loc).0, Added(s, loc).1)
  {
    NeedsMore(s, loc, s.inodes[loc].blocks + 1, finalBlocks);
    AddTurns(s, loc, finalBlocks);
  }

  lemma AddTurns(s: Fs, loc: nat, finalBlocks: nat)
    requires CanAdd(s, loc) && CanGrow(s, loc, finalBlocks)
    ensures Turn(s, loc, finalBlocks, Added(s, loc).0, Added(s, loc).1)
  {
    AddedGrew(s, loc);
    AddedDone(s, loc);
    AddedEnds(s, loc, finalBlocks);
    var (s', block) := Added(s, loc);
    var n := s.inodes[loc].blocks + 1;
    TurnIs(s, loc, n, finalBlocks, s', block);
  }

  lemma TurnIs(s: Fs, loc: nat, n: nat, finalBlocks: nat, s': Fs, block: nat)
    requires AddDone(s, loc, s', block) && CanGrow(s, loc, finalBlocks)
    requires n == s.inodes[loc].blocks + 1 <= MAX_BLOCKS
    requires GrewFor(s, loc, n, s') && (block == 0 ==> Reaches(s, loc, finalBlocks, n - 1))
    ensures Turn(s, loc, finalBlocks, s', block)
  {
    DoneGrows(s, loc, s', block);
    NeedsLess(s, loc, finalBlocks, s');
  }

  lemma DoneGrows(s: Fs, loc: nat, s': Fs, block: nat)
    requires AddDone(s, loc, s', block)
    ensures Grown(s, loc, s') && loc in s'.inodes
    ensures s'.inodes[loc].blocks == s.inodes[loc].blocks + if block == 0 then 0 else 1
    ensures block == 0 ==> UsedUp(s'.place)
  {
    if block == 0 {
      GrownReach(s, loc, s');
    } else {
      GrownAppended(s, loc, block, s');
    }
  }

  lemma StartsAt(s: Fs, loc: nat)
    requires Sound(s, {}) && loc in s.inodes
    ensures s.inodes[loc].blocks <= MAX_BLOCKS && GrewFor(s, loc, s.inodes[loc].blocks, s)
  {
    assert InodeOk(s, loc);
    GrewNothing(s, loc, s.inodes[loc].blocks);
  }

  /** If less was had than was asked for, at most one block is left free. */
  ghost predicate FullIfLess(place: Places, had: nat, asked: nat)
  {
    had < asked ==> UsedUp(place)
  }

  /** The file reaches up to offset, or can be made to. */
  predicate RoomUpTo(s: Fs, loc: nat, offset: nat)
  {
    loc in s.inodes && BlocksFor(offset) <= MAX_BLOCKS &&
    (offset <= s.inodes[loc].size || Room(s, loc, BlocksFor(offset)))
  }

  /**
    How much is written of len bytes: the file has blocks afterwards as far as
    there was room for those it lacked, and no more than it had or the bytes
    need, and n bytes end where they end, which are all exactly if there was
    room enough.
   */
  ghost predicate WriteGets(s: Fs, loc: nat, offset: nat, len: nat, n: nat, s': Fs)
  {
    && loc in s.inodes && loc in s'.inodes && BlocksFor(offset + len) <= MAX_BLOCKS
    && var blocks := s'.inodes[loc].blocks;
    && blocks <= Max(s.inodes[loc].blocks, BlocksFor(offset + len))
    && Reaches(s, loc, BlocksFor(offset + len), blocks) && n == Min(len, Max(4096 * blocks, offset) - offset)
    && (n == len <==> len == 0 || Room(s, loc, BlocksFor(offset + len)))
  }

  lemma WriteSizes(s: Fs, loc: nat, offset: nat, data: seq<byte>, s': Fs)
    requires Mapped(s) && WriteDone(s, loc, offset, data, s')
    ensures loc in s.inodes && loc in s'.inodes && s.inodes[loc].size <= 4096 * s'.inodes[loc].blocks
    ensures s'.inodes[loc].size == Max(s.inodes[loc].size, offset + |data|)
  {
    SizeFits(s, loc);
  }

  /** How far a write gets, and how it leaves the file, can be told from the room there was before it. */
  lemma WriteReaches(s: Fs, loc: nat, offset: nat, n: nat, all: nat, s': Fs)
    requires loc in s.inodes && loc in s'.inodes && s.inodes[loc].size <= 4096 * s'.inodes[loc].blocks
    requires s'.inodes[loc].size == Max(s.inodes[loc].size, offset + n) && BlocksFor(offset + all) <= MAX_BLOCKS
    requires Reaches(s, loc, BlocksFor(offset + all), s'.inodes[loc].blocks)
    requires s'.inodes[loc].blocks <= Max(s.inodes[loc].blocks, BlocksFor(offset + all))
    requires n == Min(all, Max(4096 * s'.inodes[loc].blocks, offset) - offset)
    ensures WriteGets(s, loc, offset, all, n, s') == true
    ensures s'.inodes[loc].size <= 4096 * s'.inodes[loc].blocks <==> RoomUpTo(s, loc, offset)
  {
    RoomTells(s, loc, offset, all, n, s'.inodes[loc].blocks);
  }

  lemma RoomTells(s: Fs, loc: nat, offset: nat, all: nat, n: nat, blocks: nat)
    requires loc in s.inodes && s.inodes[loc].size <= 4096 * blocks && BlocksFor(offset + all) <= MAX_BLOCKS
    requires Reaches(s, loc, BlocksFor(offset + all), blocks) && n == Min(all, Max(4096 * blocks, offset) - offset)
    ensures n == all <==> all == 0 || Room(s, loc, BlocksFor(offset + all))
    ensures Max(s.inodes[loc].size, offset + n) <= 4096 * blocks <==> RoomUpTo(s, loc, offset)
  {
    var full, start := BlocksFor(offset + all), BlocksFor(offset);
    assert start <= full;
    assert Room(s, loc, full) <==> full <= blocks;
    assert Room(s, loc, start) <==> start <= blocks;
  }

  lemma WriteAddsUp(s: Fs, loc: nat, s1: Fs, offset: nat, data: seq<byte>, s2: Fs)
    requires Sound(s, {}) == true && Sound(s1, {}) == true && Sound(s2, {}) == true
    requires Grown(s, loc, s1) == true && Rewritten(s1, loc, offset, data, s2) == true
    requires loc in s.inodes && loc in s1.inodes && (data == [] || offset + |data| <= 4096 * s1.inodes[loc].blocks)
    ensures WriteDone(s, loc, offset, data, Resized(s2, loc, Max(s.inodes[loc].size, offset + |data|))) == true
  {
    var size := Max(s.inodes[loc].size, offset + |data|);
    var s3 := Resized(s2, loc, size);
    if AllClean(s, {}) {
      CleanStays(s1, {}, 0, s2);
    }
    WrittenBytes(s, loc, s1, offset, data, s2, size);
    forall l | l in s.inodes && l != loc
      ensures l in s3.inodes && s3.inodes[l] == s.inodes[l] && Contents(s3, l) == Contents(s, l)
    {
      assert l in s1.inodes.Keys;
      OthersContents(s, loc, s1, offset, data, s2, size, l);
    }
  }

  function Min(a: nat, b: nat): nat
  {
    if a < b then a else b
  }

  /** The bytes from lo to hi lie in blocks that a write at offset has skipped. */
  predicate InGap(s: Fs, loc: nat, offset: nat, s': Fs, lo: nat, hi: nat)
    requires loc in s.inodes && loc in s'.inodes
  {
    4096 * s.inodes[loc].blocks <= lo && hi <= offset && hi <= 4096 * s'.inodes[loc].blocks
  }

  /**
    What is written is what is read. Where the write was, the data; before it,
    and behind it as far as the file reached, what was there before; in blocks
    that a write past the end has skipped, zeros, if free blocks read as
    zeros; and in every other file what was there before.
   */
  lemma ReadAfterWrite(s: Fs, loc: nat, offset: nat, data: seq<byte>, s': Fs, l: nat, lo: nat, hi: nat)
    requires Mapped(s) && WriteDone(s, loc, offset, data, s') && l in s.inodes && lo <= hi <= s'.inodes[l].size
    ensures l == loc && lo == offset && hi == offset + |data| ==> Contents(s', l)[lo..hi] == data
    ensures hi <= s.inodes[l].size && (l != loc || hi <= offset || offset + |data| <= lo) ==>
              Contents(s', l)[lo..hi] == Contents(s, l)[lo..hi]
    ensures l == loc && AllClean(s, {}) && InGap(s, loc, offset, s', lo, hi) ==>
              Contents(s', l)[lo..hi] == Zeros(hi - lo)
  {
    SizeFits(s, l);
    if l == loc {
      var c := Contents(s', l);
      forall k | lo <= k < hi
        ensures offset <= k < offset + |data| ==> c[k] == data[k - offset]
        ensures k < s.inodes[l].size && !(offset <= k < offset + |data|) ==> c[k] == Contents(s, l)[k]
        ensures AllClean(s, {}) && InGap(s, loc, offset, s', k, k + 1) ==> c[k] == 0
      {
        GapByte(s, loc, offset, data, s', k);
      }
    } else {
      assert s'.inodes[l] == s.inodes[l];
    }
  }

  /** One byte of the file after a write. */
  lemma GapByte(s: Fs, loc: nat, offset: nat, data: seq<byte>, s': Fs, k: nat)
    requires Mapped(s) && BytesWritten(s, loc, offset, data, s')
    ensures offset <= k < offset + |data| ==> ByteAt(s', loc, k) == data[k - offset]
    ensures k < s.inodes[loc].size && !(offset <= k < offset + |data|) ==> ByteAt(s', loc, k) == ByteAt(s, loc, k)
    ensures AllClean(s, {}) && InGap(s, loc, offset, s', k, k + 1) ==> ByteAt(s', loc, k) == 0
  {
    SizeFits(s, loc);
  }

  // ----- a write for which there is no room -----

  /** A device with nothing but its superblock, and an empty file. */
  function FullDevice(): Fs
  {
    Fs(Zeros(4096), map[], map[1 := EMPTY_INODE], map[], map[])
  }

  lemma FullDeviceIsGood()
    ensures Good(FullDevice(), {})
  {
    var s := FullDevice();
    NothingFormatted();
    forall p ensures EmptyOk(s, p) {
      if Proper(p.kind) && InodeShape(s, p.loc) && !p.kind.Data? {
        assert Field(EMPTY_INODE, IndField) == 0;
      }
    }
    assert InodeOk(s, 1);
  }

  lemma NothingFormatted()
    ensures WellFormed(Zeros(4096), [], map[])
  {
    ZerosBlank(4096, 0);
    assert Head(Zeros(4096)) == Slot(Zeros(4096), 0, 0);
  }

  /** Writing at offset 1 of that file writes nothing, but leaves a file of one byte that has no block. */
  lemma WriteLeavesNoBlock(data: seq<byte>)
    requires 0 < |data| < 4096
    ensures var s := FullDevice();
      && Good(s, {}) && CanGrow(s, 1, BlocksFor(1 + |data|)) && !Room(s, 1, BlocksFor(1))
      && WriteDone(s, 1, 1, [], Resized(s, 1, 1)) && !Sound(Resized(s, 1, 1), {})
  {
    var s := FullDevice();
    FullDeviceIsGood();
    SmallIsClean(s, 1, BlocksFor(1 + |data|));
    assert Data(0) in WayTo(0);
    assert Part(1, Data(0)) in Lacking(s, 1, 1);
    WrittenNothing(s, 1, 1);
    ResizeKeeps(s, 1, 1);
  }

  lemma WrittenNothing(s: Fs, loc: nat, offset: nat)
    requires Sound(s, {}) && loc in s.inodes && s.inodes[loc].size <= offset
    ensures WriteDone(s, loc, offset, [], Resized(s, loc, offset))
  {
    GrownSame(s, loc);
    RewrittenNothing(s, loc, offset);
    WriteAddsUp(s, loc, s, offset, [], s);
  }
}
