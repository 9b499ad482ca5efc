/**
  Runs of the file system: files are made, grown, written and resized in any
  order, starting from a sound device, full or not, clean or not. The map stays
  sound, and following the pointers of a file leads to its blocks in the order
  in which they were appended.
 */
module FileHistory {
  import opened ByteType
  import opened Device
  import opened FreeList
  import opened BlockMap
  import opened BlockAppend
  import opened BlockGrowth
  import opened FileBytes
  import FS = FileSystem

  datatype Op =
    | Makes(loc: nat)
    | Appends(loc: nat)
    | Writes(loc: nat, i: nat, off: nat, chunk: seq<byte>)
    | Resizes(loc: nat, size: nat)

  /** What the operations take for granted. */
  ghost predicate Enabled(s: Fs, op: Op)
  {
    match op
    case Makes(loc) => loc !in s.inodes
    case Appends(loc) => CanAdd(s, loc)
    case Writes(loc, i, off, chunk) => loc in s.inodes && i < s.inodes[loc].blocks && off + |chunk| <= 4096
    case Resizes(loc, size) => loc in s.inodes && size <= 4096 * s.inodes[loc].blocks
  }

  /** The file system after op; write_block goes where get_i_block leads. */
  ghost function Apply(s: Fs, op: Op): Fs
    requires Good(s, {}) && Enabled(s, op)
  {
    match op
    case Makes(loc) => FS.WithInode(s, loc)
    case Appends(loc) => Added(s, loc).0
    case Writes(loc, i, off, chunk) =>
      WriteGoes(s, loc, i);
      s.(image := Splice(s.image, Walk(s.image, s.inodes[loc], i) + off, chunk))
    case Resizes(loc, size) => Resized(s, loc, size)
  }

  lemma WriteGoes(s: Fs, loc: nat, i: nat)
    requires Mapped(s) && loc in s.inodes && i < s.inodes[loc].blocks
    ensures |s.inodes[loc].direct| == 12 && s.inodes[loc].blocks <= MAX_BLOCKS
    ensures Part(loc, Data(i)) in s.at && OnDevice(s.image, s.at[Part(loc, Data(i))])
    ensures Walk(s.image, s.inodes[loc], i) == s.at[Part(loc, Data(i))]
  {
    WalkIs(s, loc, i);
    BlockThere(s, loc, i);
  }

  /** Every operation keeps the device sound; only appends change the map, and they only add to it. */
  lemma ApplyKeeps(s: Fs, op: Op)
    requires Good(s, {}) && Enabled(s, op)
    ensures Good(Apply(s, op), {}) && (AllClean(s, {}) ==> AllClean(Apply(s, op), {}))
    ensures forall p :: p in s.at ==> p in Apply(s, op).at && Apply(s, op).at[p] == s.at[p]
    ensures s.inodes.Keys <= Apply(s, op).inodes.Keys
  {
    match op
    case Makes(loc) => MakesKeeps(s, loc);
    case Appends(loc) => AppendsKeeps(s, loc);
    case Writes(loc, i, off, chunk) => WritesKeeps(s, loc, i, off, chunk);
    case Resizes(loc, size) => ResizesKeeps(s, loc, size);
  }

  lemma MakesKeeps(s: Fs, loc: nat)
    requires Good(s, {}) && loc !in s.inodes
    ensures Good(FS.WithInode(s, loc), {}) && (AllClean(s, {}) ==> AllClean(FS.WithInode(s, loc), {}))
  {
    FS.NewInodeKeeps(s, loc);
    var chain :| WellFormed(s.image, chain, s.place);
    assert WellFormed(FS.WithInode(s, loc).image, chain, FS.WithInode(s, loc).place);
  }

  lemma AppendsKeeps(s: Fs, loc: nat)
    requires Good(s, {}) && Enabled(s, Appends(loc))
    ensures var s' := Added(s, loc).0;
      && Good(s', {}) && s'.inodes.Keys == s.inodes.Keys && (AllClean(s, {}) ==> AllClean(s', {}))
      && forall p :: p in s.at ==> p in s'.at && s'.at[p] == s.at[p]
  {
    AddedIs(s, loc);
  }

  lemma WritesKeeps(s: Fs, loc: nat, i: nat, off: nat, chunk: seq<byte>)
    requires Good(s, {}) && Enabled(s, Op.Writes(loc, i, off, chunk))
    ensures var s' := Apply(s, Op.Writes(loc, i, off, chunk));
      Good(s', {}) && (AllClean(s, {}) ==> AllClean(s', {}))
  {
    WriteGoes(s, loc, i);
    var p := Part(loc, Data(i));
    var image := Splice(s.image, s.at[p] + off, chunk);
    WriteStep(s, loc, i, off, chunk);
    DataWriteKeeps(s, {}, image, p);
    var chain :| WellFormed(s.image, chain, s.place);
    FS.DataWriteList(s, chain, image, p);
    assert PartOk(s, p);
    SameMore(s.image, image, {s.at[p]}, s.owner.Keys);
    if AllClean(s, {}) {
      CleanStays(s, {}, 0, s.(image := image));
    }
  }

  lemma ResizesKeeps(s: Fs, loc: nat, size: nat)
    requires Good(s, {}) && Enabled(s, Resizes(loc, size))
    ensures Good(Resized(s, loc, size), {}) && (AllClean(s, {}) ==> AllClean(Resized(s, loc, size), {}))
  {
    FS.ResizeKeeps(s, loc, size);
    var chain :| WellFormed(s.image, chain, s.place);
    assert WellFormed(Resized(s, loc, size).image, chain, Resized(s, loc, size).place);
  }

  // ----- runs -----

  ghost predicate Leads(s: Fs, op: Op, s': Fs)
  {
    Good(s, {}) ==> Enabled(s, op) && s' == Apply(s, op)
  }

  ghost predicate IsHistory(states: seq<Fs>, ops: seq<Op>)
  {
    && |states| == |ops| + 1 && Good(states[0], {})
    && forall i {:trigger ops[i]} :: 0 <= i < |ops| ==> Leads(states[i], ops[i], states[i + 1])
  }

  lemma {:induction false} HistorySound(states: seq<Fs>, ops: seq<Op>, k: nat)
    requires IsHistory(states, ops) && k <= |ops|
    ensures Good(states[k], {})
  {
    if k > 0 {
      HistorySound(states, ops, k - 1);
      assert Leads(states[k - 1], ops[k - 1], states[k]);
      ApplyKeeps(states[k - 1], ops[k - 1]);
    }
  }

  /** Where free blocks read as zeros, they go on doing so, and every append below the block limit can be made. */
  lemma {:induction false} HistoryClean(states: seq<Fs>, ops: seq<Op>, k: nat)
    requires IsHistory(states, ops) && k <= |ops| && AllClean(states[0], {})
    ensures Good(states[k], {}) && AllClean(states[k], {})
    ensures forall loc :: loc in states[k].inodes && states[k].inodes[loc].blocks < MAX_BLOCKS ==>
              Enabled(states[k], Appends(loc))
  {
    HistorySound(states, ops, k);
    if k > 0 {
      HistoryClean(states, ops, k - 1);
      assert Leads(states[k - 1], ops[k - 1], states[k]);
      ApplyKeeps(states[k - 1], ops[k - 1]);
    }
  }

  /** Where they do not, so can appends below block 524, and past it those that need no new pointers to pointers. */
  lemma SmallAppends(states: seq<Fs>, ops: seq<Op>, k: nat, loc: nat)
    requires IsHistory(states, ops) && k <= |ops| && loc in states[k].inodes
    ensures states[k].inodes[loc].blocks < FIRST_DBL ==> Enabled(states[k], Appends(loc))
    ensures var blocks := states[k].inodes[loc].blocks;
      blocks < MAX_BLOCKS
      && (forall p :: p in WayTo(blocks) && HoldsPointers(p) ==> Part(loc, p) in states[k].at) ==>
        Enabled(states[k], Appends(loc))
  {
    HistorySound(states, ops, k);
    if states[k].inodes[loc].blocks < FIRST_DBL {
      SmallIsClean(states[k], loc, states[k].inodes[loc].blocks + 1);
    } else if states[k].inodes[loc].blocks < MAX_BLOCKS {
      NextNeeds(states[k], loc);
    }
  }

  /** The answers of the first k operations that were appends to loc and succeeded, in order. */
  ghost function Answers(states: seq<Fs>, ops: seq<Op>, loc: nat, k: nat): seq<nat>
    requires IsHistory(states, ops) && k <= |ops|
  {
    if k == 0 then []
    else
      HistorySound(states, ops, k - 1);
      assert Leads(states[k - 1], ops[k - 1], states[k]);
      var before := Answers(states, ops, loc, k - 1);
      if ops[k - 1] == Appends(loc) && Added(states[k - 1], loc).1 != 0
      then before + [Added(states[k - 1], loc).1] else before
  }

  /** The map knows the answers as the blocks of loc. */
  ghost predicate Recorded(s: Fs, loc: nat, blocks: seq<nat>)
  {
    && loc in s.inodes && s.inodes[loc].blocks == |blocks|
    && forall i {:trigger blocks[i]} :: 0 <= i < |blocks| ==>
         Part(loc, Data(i)) in s.at && s.at[Part(loc, Data(i))] == blocks[i]
  }

  /** The map has only grown, and loc has at most one block more, which is b. */
  lemma StaysRecorded(s: Fs, s': Fs, loc: nat, blocks: seq<nat>, more: seq<nat>)
    requires Recorded(s, loc, blocks) && loc in s'.inodes && s'.inodes[loc].blocks == |blocks| + |more| && |more| <= 1
    requires forall p :: p in s.at ==> p in s'.at && s'.at[p] == s.at[p]
    requires more != [] ==> Part(loc, Data(|blocks|)) in s'.at && s'.at[Part(loc, Data(|blocks|))] == more[0]
    ensures Recorded(s', loc, blocks + more)
  {
    var all := blocks + more;
    forall i | 0 <= i < |all| ensures Part(loc, Data(i)) in s'.at && s'.at[Part(loc, Data(i))] == all[i] {
      if i < |blocks| {
        assert all[i] == blocks[i];
        assert Part(loc, Data(i)) in s.at;
      }
    }
  }

  lemma OneAppended(s: Fs, grown: nat, loc: nat, blocks: seq<nat>)
    requires Good(s, {}) && Enabled(s, Appends(grown)) && Recorded(s, loc, blocks)
    ensures var (s', b) := Added(s, grown);
      Recorded(s', loc, blocks + if grown == loc && b != 0 then [b] else [])
  {
    AddedIs(s, grown);
    var (s', b) := Added(s, grown);
    assert loc in s'.inodes.Keys;
    StaysRecorded(s, s', loc, blocks, if grown == loc && b != 0 then [b] else []);
  }

  lemma OneRecorded(s: Fs, op: Op, loc: nat, blocks: seq<nat>)
    requires Good(s, {}) && Enabled(s, op) && Recorded(s, loc, blocks)
    ensures Recorded(Apply(s, op), loc,
                     blocks + if op == Appends(loc) && Added(s, loc).1 != 0 then [Added(s, loc).1] else [])
  {
    if op.Appends? {
      OneAppended(s, op.loc, loc, blocks);
    } else {
      ApplyKeeps(s, op);
      StaysRecorded(s, Apply(s, op), loc, blocks, []);
    }
  }

  lemma {:induction false} AnswersRecorded(states: seq<Fs>, ops: seq<Op>, loc: nat, k: nat)
    requires IsHistory(states, ops) && k <= |ops| && loc in states[0].inodes && states[0].inodes[loc].blocks == 0
    ensures Recorded(states[k], loc, Answers(states, ops, loc, k))
  {
    if k > 0 {
      AnswersRecorded(states, ops, loc, k - 1);
      HistorySound(states, ops, k - 1);
      assert Leads(states[k - 1], ops[k - 1], states[k]);
      var before := Answers(states, ops, loc, k - 1);
      OneRecorded(states[k - 1], ops[k - 1], loc, before);
      assert before + [] == before;
    }
  }

  /**
    Whatever else happens, following the pointers of a file from its inode
    through the device leads to the i-th block that was appended to it, on
    every level of the map, and to nothing beyond the last.
   */
  lemma AppendsInOrder(states: seq<Fs>, ops: seq<Op>, loc: nat, k: nat, i: nat)
    requires IsHistory(states, ops) && k <= |ops| && loc in states[0].inodes && states[0].inodes[loc].blocks == 0
    ensures var s, blocks := states[k], Answers(states, ops, loc, k);
      && loc in s.inodes && s.inodes[loc].blocks == |blocks|
      && |s.inodes[loc].direct| == 12 && |blocks| <= MAX_BLOCKS
      && Walk(s.image, s.inodes[loc], i) == if i < |blocks| then blocks[i] else 0
  {
    HistorySound(states, ops, k);
    AnswersRecorded(states, ops, loc, k);
    WalkIs(states[k], loc, i);
    assert i < |Answers(states, ops, loc, k)| ==> Answers(states, ops, loc, k)[i] == Answers(states, ops, loc, k)[i];
  }

  /** No two appended blocks are the same, in one file or in two, and none of them is free. */
  lemma AppendedDistinct(states: seq<Fs>, ops: seq<Op>, k: nat, loc: nat, i: nat, loc': nat, i': nat)
    requires IsHistory(states, ops) && k <= |ops| && loc in states[0].inodes && states[0].inodes[loc].blocks == 0
    requires loc' in states[0].inodes && states[0].inodes[loc'].blocks == 0
    requires i < |Answers(states, ops, loc, k)| && i' < |Answers(states, ops, loc', k)|
    ensures Answers(states, ops, loc, k)[i] == Answers(states, ops, loc', k)[i'] ==> loc == loc' && i == i'
    ensures ListSound(states[k].image) && Answers(states, ops, loc, k)[i] !in FreeBlocks(states[k].image)
  {
    var s := states[k];
    HistorySound(states, ops, k);
    AnswersRecorded(states, ops, loc, k);
    AnswersRecorded(states, ops, loc', k);
    var b, b' := Answers(states, ops, loc, k)[i], Answers(states, ops, loc', k)[i'];
    assert PartOk(s, Part(loc, Data(i))) && PartOk(s, Part(loc', Data(i')));
    var chain :| WellFormed(s.image, chain, s.place);
    FreeBlocksAre(s.image, chain, s.place);
  }
}
