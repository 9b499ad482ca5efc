/**
  The block device under disk.c: an array of bytes, read and written in
  blocks and in 8-byte little-endian words.
 */
module Device {
  import opened ByteType

  const BLOCKSIZE: nat := 4096
  const SLOTS: nat := 512
  const WORDS: nat := 0x1_0000_0000_0000_0000

  type Image = seq<byte>

  predicate OnDevice(d: Image, b: nat)
  {
    b % 4096 == 0 && b + 4096 <= |d|
  }

  function Block(d: Image, b: nat): (r: seq<byte>)
    requires OnDevice(d, b)
    ensures |r| == 4096
  {
    d[b..b + 4096]
  }

  // ----- words -----

  /** The number that bytes stand for, lowest byte first. */
  function Word(s: seq<byte>): nat
  {
    if s == [] then 0 else s[0] + 256 * Word(s[1..])
  }

  function Bytes(v: nat, n: nat): (s: seq<byte>)
    ensures |s| == n
  {
    if n == 0 then [] else [v % 256] + Bytes(v / 256, n - 1)
  }

  function Power(n: nat): nat
  {
    if n == 0 then 1 else 256 * Power(n - 1)
  }

  lemma {:induction false} WordOfBytes(v: nat, n: nat)
    requires v < Power(n)
    ensures Word(Bytes(v, n)) == v
  {
    if n > 0 {
      WordOfBytes(v / 256, n - 1);
      assert Bytes(v, n)[1..] == Bytes(v / 256, n - 1);
    }
  }

  lemma {:induction false} WordBound(s: seq<byte>)
    ensures Word(s) < Power(|s|)
  {
    if s != [] {
      WordBound(s[1..]);
    }
  }

  /** The i-th word of block b. */
  function Slot(d: Image, b: nat, i: nat): nat
    requires OnDevice(d, b) && i < SLOTS
  {
    Word(Block(d, b)[8 * i..8 * i + 8])
  }

  lemma SlotBound(d: Image, b: nat, i: nat)
    requires OnDevice(d, b) && i < SLOTS
    ensures Slot(d, b, i) < WORDS
  {
    WordBound(Block(d, b)[8 * i..8 * i + 8]);
  }

  // ----- writing -----

  /** d with the bytes s at address a. */
  function Splice(d: Image, a: nat, s: seq<byte>): (r: Image)
    requires a + |s| <= |d|
    ensures |r| == |d|
    ensures forall i :: 0 <= i < |d| ==> r[i] == if a <= i < a + |s| then s[i - a] else d[i]
  {
    d[..a] + s + d[a + |s|..]
  }

  /** Only the blocks in s may differ. */
  ghost predicate SameBut(d: Image, d': Image, s: set<nat>)
  {
    |d'| == |d| && forall b {:trigger Block(d', b)} :: OnDevice(d, b) && b !in s ==> Block(d', b) == Block(d, b)
  }

  /** A write inside block b leaves every other block alone. */
  lemma SpliceFrame(d: Image, b: nat, k: nat, s: seq<byte>)
    requires OnDevice(d, b) && k + |s| <= 4096
    ensures SameBut(d, Splice(d, b + k, s), {b})
    ensures Block(Splice(d, b + k, s), b) == Splice(Block(d, b), k, s)
  {
    var r := Splice(d, b + k, s);
    forall c: nat | OnDevice(d, c) && c !in {b} ensures Block(r, c) == Block(d, c) {
      assert c + 4096 <= b || b + 4096 <= c;
    }
  }

  function PutSlot(d: Image, b: nat, i: nat, v: nat): Image
    requires OnDevice(d, b) && i < SLOTS
  {
    Splice(d, b + 8 * i, Bytes(v, 8))
  }

  /** The i-th word of block b is v, and nothing else is different. */
  ghost predicate SlotPut(d: Image, b: nat, i: nat, v: nat, d': Image)
    requires OnDevice(d, b) && i < SLOTS
  {
    && SameBut(d, d', {b})
    && forall j {:trigger Slot(d', b, j)} :: 0 <= j < SLOTS ==> Slot(d', b, j) == if j == i then v else Slot(d, b, j)
  }

  lemma PutSlotIs(d: Image, b: nat, i: nat, v: nat)
    requires OnDevice(d, b) && i < SLOTS && v < WORDS
    ensures SlotPut(d, b, i, v, PutSlot(d, b, i, v))
  {
    var r := PutSlot(d, b, i, v);
    SpliceFrame(d, b, 8 * i, Bytes(v, 8));
    forall j | 0 <= j < SLOTS ensures Slot(r, b, j) == if j == i then v else Slot(d, b, j) {
      var was, now := Block(d, b), Block(r, b);
      if j == i {
        assert now[8 * j..8 * j + 8] == Bytes(v, 8);
        WordOfBytes(v, 8);
      } else {
        assert 8 * j + 8 <= 8 * i || 8 * i + 8 <= 8 * j;
        assert now[8 * j..8 * j + 8] == was[8 * j..8 * j + 8];
      }
    }
  }

  function Zeros(n: nat): (s: seq<byte>)
    ensures |s| == n && forall i :: 0 <= i < n ==> s[i] == 0
  {
    seq(n, i => 0)
  }

  function ZeroBlock(d: Image, b: nat): Image
    requires OnDevice(d, b)
  {
    Splice(d, b, Zeros(4096))
  }

  lemma {:induction false} WordOfZeros(s: seq<byte>)
    requires forall i :: 0 <= i < |s| ==> s[i] == 0
    ensures Word(s) == 0
  {
    if s != [] {
      WordOfZeros(s[1..]);
    }
  }

  /** A word that is zero has only zero bytes. */
  lemma {:induction false} ZeroBytes(s: seq<byte>, i: nat)
    requires Word(s) == 0 && i < |s|
    ensures s[i] == 0
  {
    if i > 0 {
      ZeroBytes(s[1..], i - 1);
    }
  }

  lemma ZeroWord(s: seq<byte>, j: nat)
    requires |s| == 4096 && j < SLOTS && forall i :: 0 <= i < 4096 ==> s[i] == 0
    ensures Word(s[8 * j..8 * j + 8]) == 0
  {
    WordOfZeros(s[8 * j..8 * j + 8]);
  }

  lemma ZeroBlockIs(d: Image, b: nat)
    requires OnDevice(d, b)
    ensures SameBut(d, ZeroBlock(d, b), {b})
    ensures forall j {:trigger Slot(ZeroBlock(d, b), b, j)} :: 0 <= j < SLOTS ==> Slot(ZeroBlock(d, b), b, j) == 0
  {
    var r := ZeroBlock(d, b);
    SpliceFrame(d, b, 0, Zeros(4096));
    var s := Block(r, b);
    forall j | 0 <= j < SLOTS ensures Slot(r, b, j) == 0 {
      ZeroWord(s, j);
    }
  }
}
