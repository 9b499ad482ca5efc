/**
  Copying between two vectors of memory buffers whose boundaries need not
  match (lib/buffer.c).
 */
module BufCopy {
  import opened ByteType

  const SIZES: nat := 0x1_0000_0000_0000_0000
  /** A value of size_t; the last one stands for a size that is not known. */
  type Size = n: nat | n < SIZES
  const SIZE_MAX: Size := 0xffff_ffff_ffff_ffff

  /** The bytes of all buffers, one after the other. */
  function Flat(m: seq<seq<byte>>): seq<byte>
  {
    if m == [] then [] else m[0] + Flat(m[1..])
  }

  lemma {:induction false} FlatSplit(m: seq<seq<byte>>, i: nat)
    requires i < |m|
    ensures Flat(m) == Flat(m[..i]) + m[i] + Flat(m[i + 1..])
  {
    if i == 0 {
      assert Flat(m[..0]) == [];
    } else {
      var t := m[1..];
      FlatSplit(t, i - 1);
      assert t[i - 1] == m[i] && t[i..] == m[i + 1..];
      assert m[..i][1..] == t[..i - 1] && m[..i][0] == m[0];
      assert m[0] + (Flat(t[..i - 1]) + t[i - 1] + Flat(t[i..])) == m[0] + Flat(t[..i - 1]) + t[i - 1] + Flat(t[i..]);
    }
  }

  lemma FlatFront(m: seq<seq<byte>>, i: nat)
    requires i < |m|
    ensures Flat(m[..i + 1]) == Flat(m[..i]) + m[i]
  {
    FlatSplit(m[..i + 1], i);
    assert m[..i + 1][..i] == m[..i] && m[..i + 1][i + 1..] == [];
  }

  /** Where the cursor (idx, off) stands in the concatenated bytes; behind the last buffer, at their end. */
  function Pos(m: seq<seq<byte>>, idx: nat, off: nat): nat
  {
    if idx < |m| then |Flat(m[..idx])| + off else |Flat(m)|
  }

  lemma PosFacts(m: seq<seq<byte>>, idx: nat, off: nat, len: nat)
    requires idx < |m| && off + len <= |m[idx]|
    ensures Pos(m, idx, off) + len <= |Flat(m)|
    ensures Flat(m)[Pos(m, idx, off)..Pos(m, idx, off) + len] == m[idx][off..off + len]
    ensures Pos(m, idx + 1, 0) == Pos(m, idx, |m[idx]|)
  {
    FlatSplit(m, idx);
    SliceMiddle(Flat(m[..idx]), m[idx], Flat(m[idx + 1..]), off, len);
    PosNext(m, idx);
  }

  lemma SliceMiddle(a: seq<byte>, b: seq<byte>, c: seq<byte>, off: nat, len: nat)
    requires off + len <= |b|
    ensures (a + b + c)[|a| + off..|a| + off + len] == b[off..off + len]
  {
  }

  lemma PosNext(m: seq<seq<byte>>, idx: nat)
    requires idx < |m|
    ensures Pos(m, idx + 1, 0) == Pos(m, idx, |m[idx]|)
  {
    FlatFront(m, idx);
    if idx + 1 == |m| {
      assert m[..idx + 1] == m;
    }
  }

  /** s with the bytes from p on replaced by data. */
  function Overwrite(s: seq<byte>, p: nat, data: seq<byte>): seq<byte>
    requires p + |data| <= |s|
  {
    s[..p] + data + s[p + |data|..]
  }

  lemma WriteFlat(m: seq<seq<byte>>, idx: nat, off: nat, data: seq<byte>)
    requires idx < |m| && off + |data| <= |m[idx]|
    ensures Pos(m, idx, off) + |data| <= |Flat(m)|
    ensures Flat(m[idx := Overwrite(m[idx], off, data)]) == Overwrite(Flat(m), Pos(m, idx, off), data)
    ensures Pos(m[idx := Overwrite(m[idx], off, data)], idx, off) == Pos(m, idx, off)
  {
    var m' := m[idx := Overwrite(m[idx], off, data)];
    FlatSplit(m, idx);
    FlatSplit(m', idx);
    assert m'[..idx] == m[..idx] && m'[idx + 1..] == m[idx + 1..];
    OverwriteMiddle(Flat(m[..idx]), m[idx], Flat(m[idx + 1..]), off, data);
  }

  lemma OverwriteMiddle(a: seq<byte>, b: seq<byte>, c: seq<byte>, off: nat, data: seq<byte>)
    requires off + |data| <= |b|
    ensures a + Overwrite(b, off, data) + c == Overwrite(a + b + c, |a| + off, data)
  {
  }

  lemma {:induction false} SameSizes(m: seq<seq<byte>>, n: seq<seq<byte>>)
    requires |m| == |n| && forall i :: 0 <= i < |m| ==> |m[i]| == |n[i]|
    ensures |Flat(m)| == |Flat(n)|
  {
    if m != [] {
      SameSizes(m[1..], n[1..]);
    }
  }

  /** The start of a buffer is where it was as long as the sizes are the same. */
  lemma SameStart(m: seq<seq<byte>>, n: seq<seq<byte>>, i: nat)
    requires |m| == |n| && forall k :: 0 <= k < |m| ==> |m[k]| == |n[k]|
    ensures Pos(m, i, 0) == Pos(n, i, 0)
  {
    SameSizes(m, n);
    if i < |m| {
      SameSizes(m[..i], n[..i]);
    }
  }

  // ----- fuse_buf_size -----

  /** What fuse_buf_size makes of the size fields: an unknown size replaces the sum, a known one is added. */
  function SizeOf(sizes: seq<Size>): Size
  {
    if sizes == [] then 0
    else
      var last := sizes[|sizes| - 1];
      if last == SIZE_MAX then SIZE_MAX else (SizeOf(sizes[..|sizes| - 1]) + last) % SIZES
  }

  function Sum(sizes: seq<Size>): nat
  {
    if sizes == [] then 0 else Sum(sizes[..|sizes| - 1]) + sizes[|sizes| - 1]
  }

  predicate Known(sizes: seq<Size>)
  {
    forall i :: 0 <= i < |sizes| ==> sizes[i] != SIZE_MAX
  }

  /** Known sizes are added up, around the end of size_t. */
  lemma {:induction false} SizeOfKnown(sizes: seq<Size>, n: nat)
    requires n <= |sizes| && Known(sizes[n..])
    ensures SizeOf(sizes) == (SizeOf(sizes[..n]) + Sum(sizes[n..])) % SIZES
    decreases |sizes| - n
  {
    if n < |sizes| {
      var k := |sizes| - 1;
      assert sizes[n..][k - n] == sizes[k];
      assert sizes[n..][..k - n] == sizes[..k][n..] && sizes[..k][..n] == sizes[..n];
      SizeOfKnown(sizes[..k], n);
      ModAdd(SizeOf(sizes[..n]) + Sum(sizes[..k][n..]), sizes[k]);
    } else {
      assert sizes[..n] == sizes;
    }
  }

  lemma ModAdd(a: nat, b: nat)
    ensures (a % SIZES + b) % SIZES == (a + b) % SIZES
  {
  }

  /** Without an unknown size, and if it fits, the result is the sum. */
  lemma SizeOfAll(sizes: seq<Size>)
    requires Known(sizes) && Sum(sizes) < SIZES
    ensures SizeOf(sizes) == Sum(sizes)
  {
    assert sizes[0..] == sizes;
    SizeOfKnown(sizes, 0);
  }

  /** Where the size fields tell the number of bytes, the sum is that of all bytes. */
  lemma {:induction false} SumOfBytes(sizes: seq<Size>, m: seq<seq<byte>>)
    requires |sizes| == |m| && forall i :: 0 <= i < |m| ==> sizes[i] == |m[i]|
    ensures Sum(sizes) == |Flat(m)|
  {
    if m != [] {
      var k := |m| - 1;
      SumOfBytes(sizes[..k], m[..k]);
      FlatFront(m, k);
      assert m[..k + 1] == m;
    }
  }

  /**
    A buffer of unknown size, the last such, makes the total unknown exactly if
    the sizes behind it are zeros (or add up to a multiple of what size_t can
    count).
   */
  lemma SizeOfUnknown(sizes: seq<Size>, j: nat)
    requires j < |sizes| && sizes[j] == SIZE_MAX && Known(sizes[j + 1..])
    ensures SizeOf(sizes) == SIZE_MAX <==> Sum(sizes[j + 1..]) % SIZES == 0
  {
    assert SizeOf(sizes[..j + 1]) == SIZE_MAX by {
      assert sizes[..j + 1][j] == sizes[j];
    }
    SizeOfKnown(sizes, j + 1);
    WrapsAround(Sum(sizes[j + 1..]));
  }

  lemma WrapsAround(a: nat)
    ensures (SIZE_MAX + a) % SIZES == SIZE_MAX <==> a % SIZES == 0
  {
  }

  /** An unknown size and one byte more are no bytes at all. */
  lemma UnknownIsLost()
    ensures SizeOf([SIZE_MAX, 1]) == 0
  {
    assert [SIZE_MAX, 1][..1] == [SIZE_MAX];
  }

  /** struct fuse_bufvec, with memory buffers only: each has a size field, and bytes at mem. */
  class BufVec {
    const sizes: seq<Size>
    const bufs: seq<array<byte>>
    var idx: nat
    var off: nat

    constructor (sizes: seq<Size>, bufs: seq<array<byte>>)
      ensures this.sizes == sizes && this.bufs == bufs && idx == 0 && off == 0
    {
      this.sizes, this.bufs := sizes, bufs;
      idx, off := 0, 0;
    }

    /** The bytes in the buffers. */
    ghost function Mem(): (m: seq<seq<byte>>)
      reads bufs
      ensures |m| == |bufs| && forall i :: 0 <= i < |bufs| ==> m[i] == bufs[i][..]
    {
      seq(|bufs|, i requires 0 <= i < |bufs| reads bufs => bufs[i][..])
    }

    /** At mem there are as many bytes as the size field says. */
    predicate Filled()
    {
      |sizes| == |bufs| && forall i :: 0 <= i < |bufs| ==> sizes[i] == bufs[i].Length
    }

    /** All buffers are filled, and the offset lies in the current one, if there is one. */
    predicate Valid()
      reads this
    {
      Filled() && (idx < |bufs| ==> off <= sizes[idx])
    }

    /** How many bytes lie before the cursor. */
    ghost function Cursor(): nat
      reads this, bufs
    {
      Pos(Mem(), idx, off)
    }

    /** What fuse_buf_size answers if the sizes are known and add up to a value of size_t. */
    lemma SizeIsBytes()
      requires Filled() && Known(sizes) && Sum(sizes) < SIZES
      ensures SizeOf(sizes) == |Flat(Mem())|
    {
      SizeOfAll(sizes);
      SumOfBytes(sizes, Mem());
    }

    /** fuse_buf_size */
    method Size() returns (size: Size)
      ensures size == SizeOf(sizes)
    {
      size := 0;
      var i := 0;
      while i < |sizes|
        invariant 0 <= i <= |sizes| && size == SizeOf(sizes[..i])
      {
        assert sizes[..i + 1][..i] == sizes[..i];
        if sizes[i] == SIZE_MAX {
          size := SIZE_MAX;
        } else {
          size := (size + sizes[i]) % SIZES;
        }
        i := i + 1;
      }
      assert sizes[..|sizes|] == sizes;
    }

    /** fuse_bufvec_advance, by at most what is left of the current buffer */
    method Advance(len: nat) returns (more: bool)
      requires Filled() && idx < |bufs| && off + len <= sizes[idx]
      modifies this
      ensures Valid() && Cursor() == old(Cursor()) + len
      ensures more == (idx < |bufs|)
      ensures idx == if old(off) + len == sizes[old(idx)] then old(idx) + 1 else old(idx)
      ensures more && idx != old(idx) ==> off == 0
    {
      PosFacts(Mem(), idx, off, len);
      off := off + len;
      if off == sizes[idx] {
        idx := idx + 1;
        if idx == |sizes| {
          return false;
        }
        off := 0;
      }
      return true;
    }
  }

  /**
    The memory branch of fuse_buf_copy_one: within one buffer the bytes may
    overlap, and at one place there is nothing to do.
   */
  method CopyOne(dst: array<byte>, dstOff: nat, src: array<byte>, srcOff: nat, len: nat)
    requires dstOff + len <= dst.Length && srcOff + len <= src.Length
    modifies dst
    ensures dst[..] == Overwrite(old(dst[..]), dstOff, old(src[srcOff..srcOff + len]))
  {
    ghost var data := src[srcOff..srcOff + len];
    if dst != src || dstOff != srcOff {
      forall k | 0 <= k < len {
        dst[dstOff + k] := src[srcOff + k];
      }
    }
    OverwriteAt(old(dst[..]), dstOff, data, dst[..]);
  }

  lemma OverwriteAt(s: seq<byte>, p: nat, data: seq<byte>, r: seq<byte>)
    requires p + |data| <= |s| == |r|
    requires forall k :: 0 <= k < |s| ==> r[k] == if p <= k < p + |data| then data[k - p] else s[k]
    ensures r == Overwrite(s, p, data)
  {
  }

  /** No two destination buffers are the same, and no source buffer is one of them. */
  ghost predicate Disjoint(dst: seq<array<byte>>, src: seq<array<byte>>)
  {
    && (forall i, j :: 0 <= i < j < |dst| ==> dst[i] != dst[j])
    && (forall i, j :: 0 <= i < |dst| && 0 <= j < |src| ==> dst[i] != src[j])
  }

  function Min(a: nat, b: nat): nat
  {
    if a < b then a else b
  }

  lemma CursorBound(m: seq<seq<byte>>, idx: nat, off: nat)
    requires idx < |m| ==> off <= |m[idx]|
    ensures Pos(m, idx, off) <= |Flat(m)|
  {
    if idx < |m| {
      PosFacts(m, idx, off, 0);
    }
  }

  /** The bytes s from q on have been laid over d from p on, as far as copied says; every other byte is as in d. */
  ghost predicate Copied(d: seq<byte>, p: nat, s: seq<byte>, q: nat, copied: nat, now: seq<byte>)
  {
    && p + copied <= |d| && q + copied <= |s| && |now| == |d|
    && forall k {:trigger now[k]} :: 0 <= k < |d| ==> now[k] == if p <= k < p + copied then s[q + k - p] else d[k]
  }

  lemma CopiedOnce(d: seq<byte>, p: nat, s: seq<byte>, q: nat, len: nat)
    requires p + len <= |d| && q + len <= |s|
    ensures Copied(d, p, s, q, len, Overwrite(d, p, s[q..q + len]))
  {
  }

  lemma CopiedMore(d: seq<byte>, p: nat, s: seq<byte>, q: nat, copied: nat, now: seq<byte>, len: nat, later: seq<byte>)
    requires Copied(d, p, s, q, copied, now) && Copied(now, p + copied, s, q + copied, len, later)
    ensures Copied(d, p, s, q, copied + len, later)
  {
  }

  /** Copies len bytes at the cursors, from the current source buffer to the current destination buffer. */
  method CopyAtCursors(dstv: BufVec, srcv: BufVec, len: nat)
    requires dstv.Filled() && srcv.Filled() && Disjoint(dstv.bufs, srcv.bufs)
    requires dstv.idx < |dstv.bufs| && srcv.idx < |srcv.bufs|
    requires dstv.off + len <= dstv.sizes[dstv.idx] && srcv.off + len <= srcv.sizes[srcv.idx]
    modifies dstv.bufs[dstv.idx]
    ensures srcv.Mem() == old(srcv.Mem()) && dstv.Cursor() == old(dstv.Cursor())
    ensures Copied(old(Flat(dstv.Mem())), dstv.Cursor(), Flat(srcv.Mem()), srcv.Cursor(), len, Flat(dstv.Mem()))
    ensures |dstv.Mem()| == |old(dstv.Mem())|
    ensures forall k :: 0 <= k < |dstv.Mem()| ==> |dstv.Mem()[k]| == |old(dstv.Mem())[k]|
  {
    ghost var before, m := dstv.Mem(), srcv.Mem();
    var i := dstv.idx;
    CopyOne(dstv.bufs[i], dstv.off, srcv.bufs[srcv.idx], srcv.off, len);
    assert srcv.Mem() == m;
    assert dstv.Mem() == before[i := Overwrite(before[i], dstv.off, m[srcv.idx][srcv.off..srcv.off + len])];
    CopyIsFlat(before, i, dstv.off, m, srcv.idx, srcv.off, len, dstv.Mem());
  }

  /** A copy from one buffer to another is a copy between the concatenated bytes. */
  lemma CopyIsFlat(m: seq<seq<byte>>, i: nat, off: nat, n: seq<seq<byte>>, j: nat, from: nat, len: nat,
                   m': seq<seq<byte>>)
    requires i < |m| && off + len <= |m[i]| && j < |n| && from + len <= |n[j]|
    requires m' == m[i := Overwrite(m[i], off, n[j][from..from + len])]
    ensures Copied(Flat(m), Pos(m, i, off), Flat(n), Pos(n, j, from), len, Flat(m'))
    ensures Pos(m', i, off) == Pos(m, i, off) && forall k :: 0 <= k < |m| ==> |m'[k]| == |m[k]|
  {
    PosFacts(n, j, from, len);
    var p, q := Pos(m, i, off), Pos(n, j, from);
    var data := Flat(n)[q..q + len];
    assert n[j][from..from + len] == data;
    WriteFlat(m, i, off, data);
    CopiedOnce(Flat(m), p, Flat(n), q, len);
  }

  function MaxOf(a: int, b: int): int
  {
    if a > b then a else b
  }

  /** Where a round starts in the destination: where the copy, a destination buffer or a source buffer starts. */
  function RoundStart(dm: seq<seq<byte>>, di: nat, sm: seq<seq<byte>>, si: nat, p: nat, q: nat): int
  {
    MaxOf(p, MaxOf(Pos(dm, di, 0), p + Pos(sm, si, 0) - q))
  }

  /** Both cursors are inside their vectors. */
  predicate GoesOn(dstv: BufVec, srcv: BufVec)
    reads dstv, srcv
  {
    srcv.idx < |srcv.bufs| && dstv.idx < |dstv.bufs|
  }

  /** The state of the copy after so many bytes, with both cursors in step. */
  ghost predicate InStep(dstv: BufVec, srcv: BufVec, d: seq<byte>, p: nat, s: seq<byte>, q: nat, copied: nat)
    reads dstv, srcv, dstv.bufs, srcv.bufs
  {
    && dstv.Valid() && srcv.Valid() && Disjoint(dstv.bufs, srcv.bufs)
    && Copied(d, p, s, q, copied, Flat(dstv.Mem())) && s == Flat(srcv.Mem())
    && srcv.Cursor() == q + copied && dstv.Cursor() == p + copied
    && dstv.Cursor() == RoundStart(dstv.Mem(), dstv.idx, srcv.Mem(), srcv.idx, p, q)
  }

  /**
    The result of the whole copy. The destination cursor is behind the last
    byte, unless the source is used up: then it stays where the last round
    started.
   */
  ghost predicate Finished(dstv: BufVec, srcv: BufVec, d: seq<byte>, p: nat, s: seq<byte>, q: nat, copied: nat)
    reads dstv, srcv, dstv.bufs, srcv.bufs
  {
    && p <= |d| && q <= |s| && copied == Min(|d| - p, |s| - q)
    && Copied(d, p, s, q, copied, Flat(dstv.Mem())) && srcv.Cursor() == q + copied
    && dstv.Cursor() ==
       if 0 < |srcv.bufs| <= srcv.idx then RoundStart(dstv.Mem(), dstv.idx, srcv.Mem(), |srcv.bufs| - 1, p, q)
       else p + copied
  }

  /** One round of fuse_buf_copy, after so many bytes. */
  method CopyRound(dstv: BufVec, srcv: BufVec, before: nat, ghost d: seq<byte>, ghost p: nat, ghost s: seq<byte>,
                   ghost q: nat)
    returns (copied: nat, more: bool)
    requires dstv != srcv && InStep(dstv, srcv, d, p, s, q, before) && GoesOn(dstv, srcv)
    modifies dstv, srcv, dstv.bufs
    ensures srcv.Mem() == old(srcv.Mem())
    ensures more ==> InStep(dstv, srcv, d, p, s, q, copied) && GoesOn(dstv, srcv)
    ensures more ==> srcv.idx + dstv.idx > old(srcv.idx + dstv.idx)
    ensures !more ==> Finished(dstv, srcv, d, p, s, q, copied)
  {
    var srcLen := srcv.sizes[srcv.idx] - srcv.off;
    var dstLen := dstv.sizes[dstv.idx] - dstv.off;
    var len := if srcLen < dstLen then srcLen else dstLen;
    CopyData(dstv, srcv, before, len, d, p, s, q);
    copied := before + len;
    more := AdvanceBoth(dstv, srcv, len, p, q, copied);
    RoundResult(dstv, srcv, d, p, s, q, copied, more);
  }

  /** The data of one round. */
  method CopyData(dstv: BufVec, srcv: BufVec, before: nat, len: nat, ghost d: seq<byte>, ghost p: nat,
                  ghost s: seq<byte>, ghost q: nat)
    requires dstv != srcv && InStep(dstv, srcv, d, p, s, q, before) && GoesOn(dstv, srcv)
    requires dstv.off + len <= dstv.sizes[dstv.idx] && srcv.off + len <= srcv.sizes[srcv.idx]
    modifies dstv.bufs[dstv.idx]
    ensures srcv.Mem() == old(srcv.Mem()) && dstv.Cursor() == old(dstv.Cursor()) && |Flat(dstv.Mem())| == |d|
    ensures Copied(d, p, s, q, before + len, Flat(dstv.Mem()))
    ensures dstv.Cursor() == RoundStart(dstv.Mem(), dstv.idx, srcv.Mem(), srcv.idx, p, q)
  {
    ghost var m := dstv.Mem();
    CopyAtCursors(dstv, srcv, len);
    SameStart(m, dstv.Mem(), dstv.idx);
    CopiedMore(d, p, s, q, before, Flat(m), len, Flat(dstv.Mem()));
  }

  lemma RoundResult(dstv: BufVec, srcv: BufVec, d: seq<byte>, p: nat, s: seq<byte>, q: nat, copied: nat, more: bool)
    requires Disjoint(dstv.bufs, srcv.bufs) && srcv.Valid() && s == Flat(srcv.Mem())
    requires Copied(d, p, s, q, copied, Flat(dstv.Mem())) && srcv.Cursor() == q + copied
    requires more ==> GoesOn(dstv, srcv) && dstv.Valid() && dstv.Cursor() == p + copied
    requires more ==> dstv.Cursor() == RoundStart(dstv.Mem(), dstv.idx, srcv.Mem(), srcv.idx, p, q)
    requires !more ==> Stopped(dstv, srcv, p, q, copied)
    ensures more ==> InStep(dstv, srcv, d, p, s, q, copied)
    ensures !more ==> Finished(dstv, srcv, d, p, s, q, copied)
  {
  }

  /** One of the vectors is used up; if it is the source, the destination cursor has not been moved. */
  ghost predicate Stopped(dstv: BufVec, srcv: BufVec, p: nat, q: nat, copied: nat)
    reads dstv, srcv, dstv.bufs, srcv.bufs
  {
    if srcv.idx >= |srcv.bufs| then
      && |srcv.bufs| > 0 && srcv.Cursor() == |Flat(srcv.Mem())|
      && dstv.Cursor() == RoundStart(dstv.Mem(), dstv.idx, srcv.Mem(), |srcv.bufs| - 1, p, q)
    else dstv.Cursor() == p + copied == |Flat(dstv.Mem())|
  }

  /** Moves both cursors; the destination stays behind if the source is used up first. */
  method AdvanceBoth(dstv: BufVec, srcv: BufVec, len: nat, ghost p: nat, ghost q: nat, ghost copied: nat)
    returns (more: bool)
    requires dstv != srcv && dstv.Filled() && srcv.Filled() && GoesOn(dstv, srcv)
    requires srcv.off + len <= srcv.sizes[srcv.idx] && dstv.off + len <= dstv.sizes[dstv.idx]
    requires srcv.off + len == srcv.sizes[srcv.idx] || dstv.off + len == dstv.sizes[dstv.idx]
    requires srcv.Cursor() + len == q + copied && dstv.Cursor() + len == p + copied
    requires dstv.Cursor() == RoundStart(dstv.Mem(), dstv.idx, srcv.Mem(), srcv.idx, p, q)
    modifies dstv, srcv
    ensures srcv.Mem() == old(srcv.Mem()) && dstv.Mem() == old(dstv.Mem())
    ensures srcv.Valid() && srcv.Cursor() == q + copied
    ensures more ==> GoesOn(dstv, srcv) && dstv.Valid() && dstv.Cursor() == p + copied
    ensures more ==> dstv.Cursor() == RoundStart(dstv.Mem(), dstv.idx, srcv.Mem(), srcv.idx, p, q)
    ensures more ==> srcv.idx + dstv.idx > old(srcv.idx + dstv.idx)
    ensures !more ==> Stopped(dstv, srcv, p, q, copied)
  {
    ghost var m := srcv.Mem();
    more := srcv.Advance(len);
    assert srcv.Mem() == m;
    if more {
      ghost var n := dstv.Mem();
      more := dstv.Advance(len);
      assert dstv.Mem() == n && srcv.Mem() == m;
    }
  }

  lemma StartsInStep(dstv: BufVec, srcv: BufVec)
    requires dstv.Valid() && srcv.Valid() && Disjoint(dstv.bufs, srcv.bufs)
    ensures dstv.Cursor() <= |Flat(dstv.Mem())| && srcv.Cursor() <= |Flat(srcv.Mem())|
    ensures InStep(dstv, srcv, Flat(dstv.Mem()), dstv.Cursor(), Flat(srcv.Mem()), srcv.Cursor(), 0)
  {
    CursorBound(dstv.Mem(), dstv.idx, dstv.off);
    CursorBound(srcv.Mem(), srcv.idx, srcv.off);
  }

  lemma StopsInStep(dstv: BufVec, srcv: BufVec, d: seq<byte>, p: nat, s: seq<byte>, q: nat, copied: nat)
    requires InStep(dstv, srcv, d, p, s, q, copied) && !GoesOn(dstv, srcv) && copied == 0
    ensures Finished(dstv, srcv, d, p, s, q, copied)
  {
    if 0 < |srcv.bufs| {
      CursorBound(srcv.Mem(), |srcv.bufs| - 1, 0);
    }
  }

  /** The loop of fuse_buf_copy. */
  method CopyLoop(dstv: BufVec, srcv: BufVec, ghost d: seq<byte>, ghost p: nat, ghost s: seq<byte>, ghost q: nat)
    returns (copied: nat)
    requires dstv != srcv && InStep(dstv, srcv, d, p, s, q, 0)
    modifies dstv, srcv, dstv.bufs
    ensures Finished(dstv, srcv, d, p, s, q, copied) && srcv.Mem() == old(srcv.Mem())
  {
    copied := 0;
    while srcv.idx < |srcv.bufs| && dstv.idx < |dstv.bufs|
      invariant InStep(dstv, srcv, d, p, s, q, copied) && (copied == 0 || GoesOn(dstv, srcv))
      invariant srcv.Mem() == old(srcv.Mem())
      decreases |srcv.bufs| - srcv.idx + |dstv.bufs| - dstv.idx
    {
      var more;
      copied, more := CopyRound(dstv, srcv, copied, d, p, s, q);
      if !more {
        return;
      }
    }
    StopsInStep(dstv, srcv, d, p, s, q, copied);
  }

  /**
    fuse_buf_copy on memory buffers: the result is the smaller of the two
    remaining totals; so many bytes from the source cursor on are found from
    the destination cursor on, and every other byte is as before.
   */
  method FuseBufCopy(dstv: BufVec, srcv: BufVec) returns (copied: nat)
    requires dstv != srcv ==> dstv.Valid() && srcv.Valid() && Disjoint(dstv.bufs, srcv.bufs)
    modifies dstv, srcv, dstv.bufs
    ensures dstv == srcv ==> copied == SizeOf(dstv.sizes) && unchanged(dstv) && unchanged(dstv.bufs)
    ensures dstv != srcv ==>
      && Finished(dstv, srcv, old(Flat(dstv.Mem())), old(dstv.Cursor()),
                  old(Flat(srcv.Mem())), old(srcv.Cursor()), copied)
      && srcv.Mem() == old(srcv.Mem())
  {
    if dstv == srcv {
      copied := dstv.Size();
    } else {
      StartsInStep(dstv, srcv);
      copied := CopyLoop(dstv, srcv, Flat(dstv.Mem()), dstv.Cursor(), Flat(srcv.Mem()), srcv.Cursor());
    }
  }
}
