/**
  The bytes of a file (tyrant.c, tfs_read and tfs_write) as one flat sequence,
  and what writing blocks of the device means for it.
 */
module FileBytes {
  import opened ByteType
  import opened Device
  import opened FreeList
  import opened BlockMap
  import opened BlockGrowth

  predicate HasBlock(s: Fs, loc: nat, i: nat)
  {
    Part(loc, Data(i)) in s.at && OnDevice(s.image, s.at[Part(loc, Data(i))])
  }

  /** The k-th byte of the blocks of a file. */
  function ByteAt(s: Fs, loc: nat, k: nat): byte
  {
    if HasBlock(s, loc, k / 4096) then Block(s.image, s.at[Part(loc, Data(k / 4096))])[k % 4096] else 0
  }

  /** The file as a reader sees it. */
  function Contents(s: Fs, loc: nat): (c: seq<byte>)
    requires loc in s.inodes
    ensures |c| == s.inodes[loc].size && forall k :: 0 <= k < |c| ==> c[k] == ByteAt(s, loc, k)
  {
    seq(s.inodes[loc].size, k requires 0 <= k => ByteAt(s, loc, k))
  }

  lemma BlockThere(s: Fs, loc: nat, i: nat)
    requires Mapped(s) && loc in s.inodes && i < s.inodes[loc].blocks
    ensures HasBlock(s, loc, i) && s.at[Part(loc, Data(i))] in s.owner && s.at[Part(loc, Data(i))] > 0
  {
    assert InodeOk(s, loc);
    assert PartOk(s, Part(loc, Data(i)));
  }

  // ----- growing -----

  /** Where free blocks read as zeros, so do the bytes that loc has gained. */
  ghost predicate ZeroGap(s: Fs, loc: nat, s': Fs)
  {
    loc in s.inodes && loc in s'.inodes && AllClean(s, {}) ==>
      forall k {:trigger ByteAt(s', loc, k)} :: 4096 * s.inodes[loc].blocks <= k < 4096 * s'.inodes[loc].blocks ==>
        ByteAt(s', loc, k) == 0
  }

  /** The map has grown for loc, by data blocks and pointers; every byte there was is still what it was. */
  ghost predicate Grown(s: Fs, loc: nat, s': Fs)
  {
    && loc in s.inodes && s'.inodes.Keys == s.inodes.Keys
    && s'.inodes[loc].blocks >= s.inodes[loc].blocks && s'.inodes[loc].size == s.inodes[loc].size
    && (forall l :: l in s.inodes && l != loc ==> s'.inodes[l] == s.inodes[l])
    && (forall p :: p in s.at ==> p in s'.at && s'.at[p] == s.at[p])
    && (forall p :: p in s'.at && p !in s.at ==> p.loc == loc)
    && Conserved(s, {}, s', {}) && DataKept(s, s'.image)
    && (AllClean(s, {}) ==> AllClean(s', {})) && ZeroGap(s, loc, s')
  }

  lemma GrownSame(s: Fs, loc: nat)
    requires loc in s.inodes
    ensures Grown(s, loc, s)
  {
  }

  lemma GrownAppended(s: Fs, loc: nat, block: nat, s': Fs)
    requires Appended(s, loc, block, s') && Mapped(s')
    ensures Grown(s, loc, s')
  {
    if AllClean(s, {}) {
      forall k | 4096 * s.inodes[loc].blocks <= k < 4096 * s'.inodes[loc].blocks ensures ByteAt(s', loc, k) == 0 {
        assert k / 4096 == s.inodes[loc].blocks;
        BlankByte(s'.image, block, k % 4096);
      }
    }
  }

  lemma GrownReach(s: Fs, loc: nat, s': Fs)
    requires loc in s.inodes && Reach(s, {}, loc, s', {})
    ensures Grown(s, loc, s') && s'.inodes[loc].blocks == s.inodes[loc].blocks
  {
    assert loc in s'.inodes.Keys;
  }

  lemma GapTwice(s: Fs, loc: nat, s1: Fs, s2: Fs)
    requires Mapped(s1) && Grown(s, loc, s1) && Grown(s1, loc, s2)
    ensures ZeroGap(s, loc, s2)
  {
    assert loc in s1.inodes.Keys && loc in s2.inodes.Keys;
    if AllClean(s, {}) {
      forall k | 4096 * s.inodes[loc].blocks <= k < 4096 * s2.inodes[loc].blocks ensures ByteAt(s2, loc, k) == 0 {
        if k < 4096 * s1.inodes[loc].blocks {
          GrownBytes(s1, loc, s2, loc, k);
        }
      }
    }
  }

  lemma GrownTwice(s: Fs, loc: nat, s1: Fs, s2: Fs)
    requires Mapped(s) && Mapped(s1) && Grown(s, loc, s1) && Grown(s1, loc, s2)
    ensures Grown(s, loc, s2)
  {
    GapTwice(s, loc, s1, s2);
    assert loc in s1.inodes.Keys;
    forall p | p in s.at && p.kind.Data? && OnDevice(s.image, s.at[p])
      ensures Block(s2.image, s.at[p]) == Block(s.image, s.at[p])
    {
      assert s1.at[p] == s.at[p];
      assert Block(s1.image, s.at[p]) == Block(s.image, s.at[p]);
    }
    forall l | l in s.inodes && l != loc ensures s2.inodes[l] == s.inodes[l] {
      assert l in s1.inodes.Keys;
    }
  }

  /** Growing a file changes no byte of any file. */
  lemma GrownBytes(s: Fs, loc: nat, s': Fs, l: nat, k: nat)
    requires Mapped(s) && Grown(s, loc, s') && l in s.inodes && k < 4096 * s.inodes[l].blocks
    ensures ByteAt(s', l, k) == ByteAt(s, l, k)
  {
    var p := Part(l, Data(k / 4096));
    BlockThere(s, l, k / 4096);
    assert s'.at[p] == s.at[p];
  }

  // ----- writing -----

  /** loc has data at from on; every other byte of every file, and everything else, is the same. */
  ghost predicate Rewritten(s: Fs, loc: nat, from: nat, data: seq<byte>, s': Fs)
  {
    && s' == s.(image := s'.image) && SameBut(s.image, s'.image, s.owner.Keys)
    && forall l, k {:trigger ByteAt(s', l, k)} :: l in s.inodes && 0 <= k < 4096 * s.inodes[l].blocks ==>
         ByteAt(s', l, k) == if l == loc && from <= k < from + |data| then data[k - from] else ByteAt(s, l, k)
  }

  lemma RewrittenNothing(s: Fs, loc: nat, from: nat)
    ensures Rewritten(s, loc, from, [], s)
  {
  }

  lemma RewrittenTwice(s: Fs, loc: nat, from: nat, data: seq<byte>, b: nat, t: nat, s1: Fs, s2: Fs)
    requires b + t <= |data| && Rewritten(s, loc, from, data[..b], s1)
      && Rewritten(s1, loc, from + b, data[b..b + t], s2)
    ensures Rewritten(s, loc, from, data[..b + t], s2)
  {
    SameTwice(s.image, s1.image, s2.image, s.owner.Keys, s.owner.Keys);
    assert s.owner.Keys + s.owner.Keys == s.owner.Keys;
    forall l, k | l in s.inodes && 0 <= k < 4096 * s.inodes[l].blocks
      ensures ByteAt(s2, l, k) ==
              if l == loc && from <= k < from + b + t then data[..b + t][k - from] else ByteAt(s, l, k)
    {
      assert ByteAt(s1, l, k) == if l == loc && from <= k < from + b then data[..b][k - from] else ByteAt(s, l, k);
    }
  }

  /** Writing to a data block changes no pointer. */
  lemma DataWriteStored(s: Fs, image: Image, p: Part, x: Part)
    requires Mapped(s) && p in s.at && p.kind.Data? && SameBut(s.image, image, {s.at[p]})
    requires Proper(x.kind) && InodeShape(s, x.loc)
    ensures Stored(s.(image := image), x) == Stored(s, x)
  {
    var c := CellOf(x.kind);
    assert PartOk(s, p);
    if c.Word? {
      var h := Part(x.loc, c.parent);
      if h in s.at {
        assert PartOk(s, h);
        SameSlots(s.image, image, {s.at[p]}, s.at[h]);
      }
    }
  }

  lemma DataWriteKeeps(s: Fs, hand: set<nat>, image: Image, p: Part)
    requires Sound(s, hand) && p in s.at && p.kind.Data? && SameBut(s.image, image, {s.at[p]})
    ensures Sound(s.(image := image), hand)
  {
    var s' := s.(image := image);
    forall x | x in s'.at ensures PartOk(s', x) {
      assert PartOk(s, x);
      DataWriteStored(s, image, p, x);
    }
    forall b | b in s'.owner ensures OwnerOk(s', b) {
      assert OwnerOk(s, b);
    }
    forall x ensures EmptyOk(s', x) {
      assert EmptyOk(s, x);
      if Proper(x.kind) && InodeShape(s, x.loc) {
        DataWriteStored(s, image, p, x);
      }
    }
    forall l | l in s'.inodes ensures InodeOk(s', l) {
      assert InodeOk(s, l);
    }
  }

  /** One write_block: part of one block of one file. */
  lemma WriteStep(s: Fs, loc: nat, i: nat, off: nat, chunk: seq<byte>)
    requires Mapped(s) && loc in s.inodes && i < s.inodes[loc].blocks && off + |chunk| <= 4096
    ensures HasBlock(s, loc, i)
    ensures var a := s.at[Part(loc, Data(i))]; var image := Splice(s.image, a + off, chunk);
      && SameBut(s.image, image, {a}) && Rewritten(s, loc, 4096 * i + off, chunk, s.(image := image))
  {
    BlockThere(s, loc, i);
    var p := Part(loc, Data(i));
    var a := s.at[p];
    var image := Splice(s.image, a + off, chunk);
    var s' := s.(image := image);
    SpliceFrame(s.image, a, off, chunk);
    SameMore(s.image, image, {a}, s.owner.Keys);
    assert PartOk(s, p);
    forall l, k | l in s.inodes && 0 <= k < 4096 * s.inodes[l].blocks
      ensures ByteAt(s', l, k) ==
              if l == loc && 4096 * i + off <= k < 4096 * i + off + |chunk| then chunk[k - 4096 * i - off]
              else ByteAt(s, l, k)
    {
      WriteStepByte(s, loc, i, off, chunk, image, l, k);
    }
  }

  lemma WriteStepByte(s: Fs, loc: nat, i: nat, off: nat, chunk: seq<byte>, image: Image, l: nat, k: nat)
    requires Mapped(s) && loc in s.inodes && i < s.inodes[loc].blocks && off + |chunk| <= 4096 && HasBlock(s, loc, i)
    requires SameBut(s.image, image, {s.at[Part(loc, Data(i))]})
    requires OnDevice(image, s.at[Part(loc, Data(i))])
    requires Block(image, s.at[Part(loc, Data(i))]) == Splice(Block(s.image, s.at[Part(loc, Data(i))]), off, chunk)
    requires l in s.inodes && k < 4096 * s.inodes[l].blocks
    ensures ByteAt(s.(image := image), l, k) ==
            if l == loc && 4096 * i + off <= k < 4096 * i + off + |chunk| then chunk[k - 4096 * i - off]
            else ByteAt(s, l, k)
  {
    var p, x := Part(loc, Data(i)), Part(l, Data(k / 4096));
    BlockThere(s, l, k / 4096);
    assert PartOk(s, p) && PartOk(s, x);
    if x != p {
      assert s.at[x] != s.at[p];
      assert l != loc || k / 4096 != i;
    }
  }

  // ----- the whole write -----

  function Max(a: nat, b: nat): nat
  {
    if a > b then a else b
  }

  /**
    The bytes of the blocks of loc after a write: the data where it was
    written, the old bytes in the old blocks, and zeros in between where free
    blocks read as zeros.
   */
  ghost predicate BytesWritten(s: Fs, loc: nat, from: nat, data: seq<byte>, s': Fs)
  {
    && loc in s.inodes && loc in s'.inodes && s'.inodes[loc].blocks >= s.inodes[loc].blocks
    && (data == [] || from + |data| <= 4096 * s'.inodes[loc].blocks)
    && (forall k {:trigger ByteAt(s', loc, k)} :: from <= k < from + |data| ==> ByteAt(s', loc, k) == data[k - from])
    && (forall k {:trigger ByteAt(s', loc, k)} ::
          0 <= k < 4096 * s'.inodes[loc].blocks && !(from <= k < from + |data|) ==>
          if k < 4096 * s.inodes[loc].blocks then ByteAt(s', loc, k) == ByteAt(s, loc, k)
          else AllClean(s, {}) ==> ByteAt(s', loc, k) == 0)
  }

  /** The file system after the new size is set. */
  function Resized(s: Fs, loc: nat, size: nat): Fs
    requires loc in s.inodes
  {
    s.(inodes := s.inodes[loc := s.inodes[loc].(size := size)])
  }

  /** Growing, writing and setting the size add up to the write. */
  lemma WrittenBytes(s: Fs, loc: nat, s1: Fs, from: nat, data: seq<byte>, s2: Fs, size: nat)
    requires Mapped(s) && Grown(s, loc, s1) && Rewritten(s1, loc, from, data, s2)
    requires data == [] || (loc in s1.inodes && from + |data| <= 4096 * s1.inodes[loc].blocks)
    ensures loc in s2.inodes && BytesWritten(s, loc, from, data, Resized(s2, loc, size))
  {
    assert loc in s1.inodes.Keys;
    var s3 := Resized(s2, loc, size);
    forall k | 0 <= k < 4096 * s3.inodes[loc].blocks
      ensures from <= k < from + |data| ==> ByteAt(s3, loc, k) == data[k - from]
      ensures !(from <= k < from + |data|) ==>
                if k < 4096 * s.inodes[loc].blocks then ByteAt(s3, loc, k) == ByteAt(s, loc, k)
                else AllClean(s, {}) ==> ByteAt(s3, loc, k) == 0
    {
      assert ByteAt(s3, loc, k) == ByteAt(s2, loc, k);
      if !(from <= k < from + |data|) {
        assert ByteAt(s2, loc, k) == ByteAt(s1, loc, k);
        if k < 4096 * s.inodes[loc].blocks {
          GrownBytes(s, loc, s1, loc, k);
        }
      }
    }
  }

  lemma OthersContents(s: Fs, loc: nat, s1: Fs, from: nat, data: seq<byte>, s2: Fs, size: nat, l: nat)
    requires Mapped(s) && Grown(s, loc, s1) && Rewritten(s1, loc, from, data, s2) && l in s.inodes && l != loc
    requires loc in s2.inodes
    ensures l in s2.inodes && Contents(Resized(s2, loc, size), l) == Contents(s, l)
  {
    var s3 := Resized(s2, loc, size);
    assert InodeOk(s, l);
    assert l in s1.inodes.Keys;
    forall k | 0 <= k < s.inodes[l].size ensures ByteAt(s3, l, k) == ByteAt(s, l, k) {
      assert ByteAt(s3, l, k) == ByteAt(s2, l, k);
      GrownBytes(s, loc, s1, l, k);
    }
  }

  // ----- the write as an operation on the flat sequence -----

  /** c with data in place of what it has at from, longer if need be. */
  function Overwrite(c: seq<byte>, from: nat, data: seq<byte>): (r: seq<byte>)
    requires from <= |c|
  {
    c[..from] + data + if from + |data| <= |c| then c[from + |data|..] else []
  }

  /** A write that starts no later than the end of the file overwrites its contents. */
  lemma WrittenContents(s: Fs, loc: nat, from: nat, data: seq<byte>, s': Fs)
    requires Mapped(s) && BytesWritten(s, loc, from, data, s') && from <= s.inodes[loc].size
    requires s'.inodes[loc].size == Max(s.inodes[loc].size, from + |data|)
    ensures Contents(s', loc) == Overwrite(Contents(s, loc), from, data)
  {
    assert InodeOk(s, loc);
    var want := Overwrite(Contents(s, loc), from, data);
    forall k | 0 <= k < |want| ensures Contents(s', loc)[k] == want[k] {
      assert from <= k < from + |data| ==> ByteAt(s', loc, k) == data[k - from];
    }
  }
}
