/**
  How the blocks of a file hang on its inode (tyrant_help.c): twelve directly,
  then through one, two and three levels of pointer blocks, as values.
 */
module BlockMap {
  import opened Device
  import opened FreeList

  const FIRST_IND: nat := 12
  const FIRST_DBL: nat := 524
  const FIRST_TRPL: nat := 262668
  const MAX_BLOCKS: nat := 134480396

  /** The fields of struct inode that locate the data. */
  datatype Inode = Inode(size: nat, blocks: nat, direct: seq<nat>, indirect: nat, dblIndirect: nat, trplIndirect: nat)

  /** What a block is for: data, or pointers of the first, second or third level. */
  datatype Kind = Data(i: nat) | Ind | Dbl | DblKid(a: nat) | Trpl | TrplKid(a: nat) | TrplGrand(a: nat)

  datatype Part = Part(loc: nat, kind: Kind)

  /** Where the pointer to a block is kept. */
  datatype Cell = Direct(i: nat) | IndField | DblField | TrplField | Word(parent: Kind, slot: nat)

  predicate Proper(k: Kind)
  {
    match k
    case Data(i) => i < MAX_BLOCKS
    case DblKid(a) => a < 512
    case TrplKid(a) => a < 512
    case TrplGrand(a) => a < 262144
    case _ => true
  }

  function CellOf(k: Kind): (c: Cell)
    requires Proper(k)
    ensures c.Word? ==> c.slot < SLOTS && Proper(c.parent) && !c.parent.Data?
    ensures c.Direct? ==> c.i < 12
  {
    match k
    case Data(i) =>
      if i < FIRST_IND then Direct(i)
      else if i < FIRST_DBL then Word(Ind, i - FIRST_IND)
      else if i < FIRST_TRPL then Word(DblKid((i - FIRST_DBL) / 512), (i - FIRST_DBL) % 512)
      else Word(TrplGrand((i - FIRST_TRPL) / 512), (i - FIRST_TRPL) % 512)
    case Ind => IndField
    case Dbl => DblField
    case DblKid(a) => Word(Dbl, a)
    case Trpl => TrplField
    case TrplKid(a) => Word(Trpl, a)
    case TrplGrand(a) => Word(TrplKid(a / 512), a % 512)
  }

  function Depth(k: Kind): nat
  {
    match k
    case Data(_) => 3
    case DblKid(_) => 2
    case TrplGrand(_) => 2
    case TrplKid(_) => 1
    case _ => 0
  }

  /** The pointer to d is found by way of k. */
  predicate OnPath(k: Kind, d: Kind)
    requires Proper(d)
    decreases Depth(d)
  {
    CellOf(d).Word? && (k == CellOf(d).parent || OnPath(k, CellOf(d).parent))
  }

  /** No two blocks have their pointers in the same place. */
  lemma CellsDiffer(k: Kind, l: Kind)
    requires Proper(k) && Proper(l) && k != l
    ensures CellOf(k) != CellOf(l)
  {
  }

  function Field(n: Inode, c: Cell): nat
    requires !c.Word? && |n.direct| == 12 && (c.Direct? ==> c.i < 12)
  {
    match c
    case Direct(i) => n.direct[i]
    case IndField => n.indirect
    case DblField => n.dblIndirect
    case TrplField => n.trplIndirect
  }

  function SetField(n: Inode, c: Cell, b: nat): Inode
    requires !c.Word? && |n.direct| == 12 && (c.Direct? ==> c.i < 12)
  {
    match c
    case Direct(i) => n.(direct := n.direct[i := b])
    case IndField => n.(indirect := b)
    case DblField => n.(dblIndirect := b)
    case TrplField => n.(trplIndirect := b)
  }

  /**
    The file system: the device, the free blocks, the inodes, and, to keep
    track, which block is which part of which file, and the other way round.
   */
  datatype Fs = Fs(image: Image, place: Places, inodes: map<nat, Inode>, at: map<Part, nat>, owner: map<nat, Part>)

  predicate InodeShape(s: Fs, loc: nat)
  {
    loc in s.inodes && |s.inodes[loc].direct| == 12
  }

  /** The pointer to p, read from where it belongs; 0 where there is nowhere to read it. */
  function Stored(s: Fs, p: Part): nat
    requires Proper(p.kind) && InodeShape(s, p.loc)
  {
    var c := CellOf(p.kind);
    if !c.Word? then Field(s.inodes[p.loc], c)
    else if Part(p.loc, c.parent) in s.at && OnDevice(s.image, s.at[Part(p.loc, c.parent)])
    then Slot(s.image, s.at[Part(p.loc, c.parent)], c.slot)
    else 0
  }

  /** p's block can be reached from its inode, and p is all it is. */
  ghost predicate PartOk(s: Fs, p: Part)
    requires p in s.at
  {
    && Proper(p.kind) && InodeShape(s, p.loc)
    && s.at[p] > 0 && OnDevice(s.image, s.at[p]) && Stored(s, p) == s.at[p]
    && s.at[p] in s.owner && s.owner[s.at[p]] == p
    && (CellOf(p.kind).Word? ==> Part(p.loc, CellOf(p.kind).parent) in s.at)
    && (p.kind.Data? ==> p.kind.i < s.inodes[p.loc].blocks)
  }

  ghost predicate OwnerOk(s: Fs, b: nat)
    requires b in s.owner
  {
    s.owner[b] in s.at && s.at[s.owner[b]] == b
  }

  /** A pointer block that is not there yet has a pointer of zero. */
  ghost predicate EmptyOk(s: Fs, p: Part)
  {
    Proper(p.kind) && InodeShape(s, p.loc) && !p.kind.Data? && p !in s.at ==> Stored(s, p) == 0
  }

  ghost predicate InodeOk(s: Fs, loc: nat)
  {
    && InodeShape(s, loc) && s.inodes[loc].blocks <= MAX_BLOCKS && s.inodes[loc].size <= 4096 * s.inodes[loc].blocks
    && forall i {:trigger Part(loc, Data(i))} :: 0 <= i < s.inodes[loc].blocks ==> Part(loc, Data(i)) in s.at
  }

  ghost predicate Mapped(s: Fs)
  {
    && |s.image| <= WORDS
    && (forall p {:trigger PartOk(s, p)} :: p in s.at ==> PartOk(s, p))
    && (forall b {:trigger OwnerOk(s, b)} :: b in s.owner ==> OwnerOk(s, b))
    && (forall p {:trigger EmptyOk(s, p)} :: EmptyOk(s, p))
    && (forall loc {:trigger InodeOk(s, loc)} :: loc in s.inodes ==> InodeOk(s, loc))
  }

  /** Free blocks, blocks of files, and the blocks in hand (allocated, but not in a file yet) are kept apart. */
  ghost predicate Sound(s: Fs, hand: set<nat>)
  {
    && Mapped(s) && s.owner.Keys !! s.place.Keys && s.owner.Keys !! hand && s.place.Keys !! hand
    && forall b :: b in hand ==> b > 0 && OnDevice(s.image, b)
  }

  // ----- hanging a block in -----

  /** The pointer to b is written into the cell of p, and nothing else changes. */
  ghost predicate Written(s: Fs, p: Part, b: nat, s': Fs)
  {
    && Proper(p.kind) && InodeShape(s, p.loc)
    && var c := CellOf(p.kind);
    && s'.at == s.at[p := b] && s'.owner == s.owner[b := p] && s'.place == s.place
    && (if c.Word? then
          && Part(p.loc, c.parent) in s.at && OnDevice(s.image, s.at[Part(p.loc, c.parent)])
          && SlotPut(s.image, s.at[Part(p.loc, c.parent)], c.slot, b, s'.image)
        else
          s'.image == s.image)
    && s'.inodes.Keys == s.inodes.Keys && (forall l :: l in s.inodes && l != p.loc ==> s'.inodes[l] == s.inodes[l])
    && var n := if c.Word? then s.inodes[p.loc] else SetField(s.inodes[p.loc], c, b);
       s'.inodes[p.loc] == if p.kind.Data? then n.(blocks := n.blocks + 1) else n
  }

  /** p is not there yet, and next if it is data; b is nobody's. */
  ghost predicate CanHangDirty(s: Fs, p: Part, b: nat)
  {
    && Proper(p.kind) && InodeShape(s, p.loc) && p !in s.at && b > 0 && OnDevice(s.image, b) && b !in s.owner
    && (p.kind.Data? ==> p.kind.i == s.inodes[p.loc].blocks)
  }

  /** A block that will hold pointers to pointers. */
  predicate HoldsPointers(k: Kind)
  {
    k.Dbl? || k.Trpl? || k.TrplKid?
  }

  /** What is needed to hang b in as p: a block that will hold pointers to pointers has to be blank. */
  ghost predicate CanHang(s: Fs, p: Part, b: nat)
  {
    CanHangDirty(s, p, b) && (HoldsPointers(p.kind) ==> Blank(s.image, b))
  }

  lemma HungStored(s: Fs, p: Part, b: nat, s': Fs, x: Part)
    requires Mapped(s) && CanHang(s, p, b) && Written(s, p, b, s') && x != p && Proper(x.kind) && InodeShape(s, x.loc)
    requires CellOf(x.kind).Word? ==> Part(x.loc, CellOf(x.kind).parent) != p
    ensures InodeShape(s', x.loc) && Stored(s', x) == Stored(s, x)
  {
    var c, cx := CellOf(p.kind), CellOf(x.kind);
    if x.loc == p.loc {
      CellsDiffer(x.kind, p.kind);
    }
    if cx.Word? {
      var hx := Part(x.loc, cx.parent);
      if hx in s.at {
        assert PartOk(s, hx);
        if c.Word? {
          var h := Part(p.loc, c.parent);
          assert PartOk(s, h);
          if s.at[h] != s.at[hx] {
            SameSlots(s.image, s'.image, {s.at[h]}, s.at[hx]);
          }
        }
      }
    }
  }

  lemma HungPart(s: Fs, p: Part, b: nat, s': Fs, x: Part)
    requires Mapped(s) && CanHang(s, p, b) && Written(s, p, b, s') && x in s'.at
    ensures PartOk(s', x)
  {
    if x == p {
      var c := CellOf(p.kind);
      if c.Word? {
        var h := Part(p.loc, c.parent);
        assert PartOk(s, h);
        assert h != p;
      }
    } else {
      assert PartOk(s, x);
      HungStored(s, p, b, s', x);
    }
  }

  lemma HungEmpty(s: Fs, p: Part, b: nat, s': Fs, x: Part)
    requires Mapped(s) && CanHang(s, p, b) && Written(s, p, b, s')
    ensures EmptyOk(s', x)
  {
    if Proper(x.kind) && InodeShape(s', x.loc) && !x.kind.Data? && x !in s'.at {
      assert EmptyOk(s, x);
      assert x.loc in s.inodes.Keys;
      assert InodeOk(s, x.loc);
      var cx := CellOf(x.kind);
      if cx.Word? && Part(x.loc, cx.parent) == p {
        BlankStays(s, p, b, s');
      } else {
        HungStored(s, p, b, s', x);
      }
    }
  }

  lemma BlankStays(s: Fs, p: Part, b: nat, s': Fs)
    requires Mapped(s) && CanHang(s, p, b) && Written(s, p, b, s') && Blank(s.image, b)
    ensures Blank(s'.image, b)
  {
    var c := CellOf(p.kind);
    if c.Word? {
      var h := Part(p.loc, c.parent);
      assert PartOk(s, h);
      SameSlots(s.image, s'.image, {s.at[h]}, b);
    }
  }

  /** Hanging a block in keeps the map sound: every block is still reached exactly where it belongs. */
  lemma HangKeeps(s: Fs, p: Part, b: nat, s': Fs)
    requires Mapped(s) && CanHang(s, p, b) && Written(s, p, b, s')
    requires p.kind.Data? ==> p.kind.i < MAX_BLOCKS
    ensures Mapped(s')
  {
    forall x | x in s'.at ensures PartOk(s', x) {
      HungPart(s, p, b, s', x);
    }
    forall x | x in s'.owner ensures OwnerOk(s', x) {
      HungOwner(s, p, b, s', x);
    }
    forall x ensures EmptyOk(s', x) {
      HungEmpty(s, p, b, s', x);
    }
    forall loc | loc in s'.inodes ensures InodeOk(s', loc) {
      HungInode(s, p, b, s', loc);
    }
  }

  lemma HungOwner(s: Fs, p: Part, b: nat, s': Fs, x: nat)
    requires Mapped(s) && CanHang(s, p, b) && Written(s, p, b, s') && x in s'.owner
    ensures OwnerOk(s', x)
  {
    if x != b {
      assert OwnerOk(s, x) && s.owner[x] != p;
    }
  }

  lemma HungInode(s: Fs, p: Part, b: nat, s': Fs, loc: nat)
    requires Mapped(s) && CanHang(s, p, b) && Written(s, p, b, s') && loc in s'.inodes
    requires p.kind.Data? ==> p.kind.i < MAX_BLOCKS
    ensures InodeOk(s', loc)
  {
    assert loc in s.inodes.Keys;
    assert InodeOk(s, loc);
  }

  /** The pointer block below p whose pointer is in word j. */
  function Below(k: Kind, j: nat): (r: Kind)
    requires Proper(k) && HoldsPointers(k) && j < SLOTS
    ensures Proper(r) && !r.Data? && CellOf(r) == Word(k, j)
  {
    match k
    case Dbl => DblKid(j)
    case Trpl => TrplKid(j)
    case TrplKid(a) => TrplGrand(512 * a + j)
  }

  /**
    Nobody clears a new block of pointers to pointers: the map stays sound if
    and only if the block that was allocated for it happens to be blank.
   */
  lemma BlankOrBroken(s: Fs, p: Part, b: nat, s': Fs)
    requires Mapped(s) && CanHangDirty(s, p, b) && HoldsPointers(p.kind) && Written(s, p, b, s')
    ensures Mapped(s') <==> Blank(s.image, b)
  {
    if Blank(s.image, b) {
      HangKeeps(s, p, b, s');
    }
    if Mapped(s') {
      forall j | 0 <= j < SLOTS ensures Slot(s.image, b, j) == 0 {
        StaleWord(s, p, b, s', j);
      }
    }
  }

  lemma StaleWord(s: Fs, p: Part, b: nat, s': Fs, j: nat)
    requires Mapped(s) && CanHangDirty(s, p, b) && HoldsPointers(p.kind) && Written(s, p, b, s') && j < SLOTS
      && Mapped(s')
    ensures Slot(s.image, b, j) == 0
  {
    var x := Part(p.loc, Below(p.kind, j));
    assert x in s.at ==> PartOk(s, x);
    assert EmptyOk(s', x);
    assert InodeOk(s, p.loc) && InodeOk(s', p.loc);
    var c := CellOf(p.kind);
    if c.Word? {
      var h := Part(p.loc, c.parent);
      assert PartOk(s, h);
      SameSlots(s.image, s'.image, {s.at[h]}, b);
    }
    assert Stored(s', x) == Slot(s'.image, b, j);
  }

  /**
    Block numbers count like an odometer: twelve direct ones, then the words of
    one block, then those of the blocks in the words of one block, and so on.
   */
  lemma Layout(a: nat, b: nat, c: nat)
    requires a < 512 && b < 512 && c < 512
    ensures c < 12 ==> CellOf(Data(c)) == Direct(c)
    ensures CellOf(Data(12 + c)) == Word(Ind, c)
    ensures CellOf(Data(12 + 512 + 512 * b + c)) == Word(DblKid(b), c) && CellOf(DblKid(b)) == Word(Dbl, b)
    ensures var grand, kid := TrplGrand(512 * a + b), TrplKid(a);
      && CellOf(Data(12 + 512 + 512 * 512 + 512 * 512 * a + 512 * b + c)) == Word(grand, c)
      && CellOf(grand) == Word(kid, b) && CellOf(kid) == Word(Trpl, a)
  {
    Digits(512 * a + b, c);
    Digits(b, c);
    Digits(a, b);
  }

  lemma Digits(x: nat, y: nat)
    requires y < 512
    ensures (512 * x + y) / 512 == x && (512 * x + y) % 512 == y
  {
  }

  /** get_i_block follows the words in this order: first on one level, ... */
  lemma WalkFirst(d: Image, n: Inode, c: nat, i: nat)
    requires |n.direct| == 12 && i < n.blocks <= MAX_BLOCKS && c < 512
    ensures i == c < 12 ==> Walk(d, n, i) == n.direct[c]
    ensures i == 12 + c ==> Walk(d, n, i) == WordAt(d, n.indirect, c)
  {
  }

  /** ... on two, ... */
  lemma WalkSecond(d: Image, n: Inode, b: nat, c: nat, i: nat)
    requires |n.direct| == 12 && i < n.blocks <= MAX_BLOCKS && b < 512 && c < 512
    requires i == 12 + 512 + 512 * b + c
    ensures Walk(d, n, i) == WordAt(d, WordAt(d, n.dblIndirect, b), c)
  {
    Digits(b, c);
    assert i - FIRST_DBL == 512 * b + c && FIRST_DBL <= i < FIRST_TRPL;
  }

  /** ... and on three. */
  lemma WalkThird(d: Image, n: Inode, a: nat, b: nat, c: nat, i: nat)
    requires |n.direct| == 12 && i < n.blocks <= MAX_BLOCKS && a < 512 && b < 512 && c < 512
    requires i == 12 + 512 + 512 * 512 + 512 * 512 * a + 512 * b + c
    ensures Walk(d, n, i) == WordAt(d, WordAt(d, WordAt(d, n.trplIndirect, a), b), c)
  {
    var j := i - FIRST_TRPL;
    Digits(512 * a + b, c);
    Digits(a, b);
    assert i >= FIRST_TRPL && j / 512 == 512 * a + b && j % 512 == c;
  }

  // ----- what the device may change behind the map -----

  /** Writing to blocks that are in no file keeps the map. */
  lemma MappedFrame(s: Fs, image: Image, place: Places, touched: set<nat>)
    requires Mapped(s) && SameBut(s.image, image, touched) && touched !! s.owner.Keys
    ensures Mapped(s.(image := image, place := place))
  {
    var s' := s.(image := image, place := place);
    forall x | x in s'.at ensures PartOk(s', x) {
      assert PartOk(s, x);
      StoredFrame(s, image, place, touched, x);
    }
    forall x | x in s'.owner ensures OwnerOk(s', x) {
      assert OwnerOk(s, x);
    }
    forall x ensures EmptyOk(s', x) {
      assert EmptyOk(s, x);
      if Proper(x.kind) && InodeShape(s, x.loc) {
        StoredFrame(s, image, place, touched, x);
      }
    }
    forall loc | loc in s'.inodes ensures InodeOk(s', loc) {
      assert InodeOk(s, loc);
    }
  }

  lemma StoredFrame(s: Fs, image: Image, place: Places, touched: set<nat>, x: Part)
    requires Mapped(s) && SameBut(s.image, image, touched) && touched !! s.owner.Keys
    requires Proper(x.kind) && InodeShape(s, x.loc)
    ensures Stored(s.(image := image, place := place), x) == Stored(s, x)
  {
    var c := CellOf(x.kind);
    if c.Word? {
      var h := Part(x.loc, c.parent);
      if h in s.at {
        assert PartOk(s, h);
        SameSlots(s.image, image, touched, s.at[h]);
      }
    }
  }

  // ----- following the pointers -----

  predicate IsBlock(d: Image, b: nat)
  {
    b != 0 && OnDevice(d, b)
  }

  /** The j-th word of the pointer block b; 0 where there is no such block. */
  function WordAt(d: Image, b: nat, j: nat): nat
    requires j < SLOTS
  {
    if IsBlock(d, b) then Slot(d, b, j) else 0
  }

  /** get_i_block: from the inode, through up to three pointer blocks of the device, down to block i. */
  function Walk(d: Image, n: Inode, i: nat): nat
    requires |n.direct| == 12 && n.blocks <= MAX_BLOCKS
  {
    if n.blocks <= i then 0
    else if i < FIRST_IND then n.direct[i]
    else if i < FIRST_DBL then WordAt(d, n.indirect, i - FIRST_IND)
    else if i < FIRST_TRPL then
      WordAt(d, WordAt(d, n.dblIndirect, (i - FIRST_DBL) / 512), (i - FIRST_DBL) % 512)
    else
      var j := i - FIRST_TRPL;
      WordAt(d, WordAt(d, WordAt(d, n.trplIndirect, j / 512 / 512), j / 512 % 512), j % 512)
  }

  lemma OneStep(s: Fs, p: Part)
    requires Mapped(s) && p in s.at
    ensures PartOk(s, p)
    ensures var c := CellOf(p.kind); c.Word? ==>
              && var h := Part(p.loc, c.parent);
              && h in s.at && PartOk(s, h) && s.at[p] == Slot(s.image, s.at[h], c.slot)
  {
    assert PartOk(s, p);
    if CellOf(p.kind).Word? {
      assert PartOk(s, Part(p.loc, CellOf(p.kind).parent));
    }
  }

  /** Following the pointers leads to the block that is part i of the file. */
  lemma WalkIs(s: Fs, loc: nat, i: nat)
    requires Mapped(s) && loc in s.inodes
    ensures InodeShape(s, loc) && s.inodes[loc].blocks <= MAX_BLOCKS
    ensures i < s.inodes[loc].blocks ==>
              Part(loc, Data(i)) in s.at && Walk(s.image, s.inodes[loc], i) == s.at[Part(loc, Data(i))]
    ensures i >= s.inodes[loc].blocks ==> Walk(s.image, s.inodes[loc], i) == 0
  {
    assert InodeOk(s, loc);
    if i < s.inodes[loc].blocks {
      DataPath(s, loc, i);
    }
  }

  /** The way from the inode down to block i. */
  lemma DataPath(s: Fs, loc: nat, i: nat)
    requires Mapped(s) && loc in s.inodes && i < s.inodes[loc].blocks
    ensures InodeShape(s, loc) && i < MAX_BLOCKS && Part(loc, Data(i)) in s.at
    ensures var n := s.inodes[loc]; var b := s.at[Part(loc, Data(i))];
      if i < FIRST_IND then n.direct[i] == b
      else if i < FIRST_DBL then IsBlock(s.image, n.indirect) && Slot(s.image, n.indirect, i - FIRST_IND) == b
      else if i < FIRST_TRPL then
        && IsBlock(s.image, n.dblIndirect)
        && var k := Slot(s.image, n.dblIndirect, (i - FIRST_DBL) / 512);
        && IsBlock(s.image, k) && Slot(s.image, k, (i - FIRST_DBL) % 512) == b
      else
        && IsBlock(s.image, n.trplIndirect)
        && var d := Slot(s.image, n.trplIndirect, (i - FIRST_TRPL) / 512 / 512);
        && IsBlock(s.image, d)
        && var k := Slot(s.image, d, (i - FIRST_TRPL) / 512 % 512);
        && IsBlock(s.image, k) && Slot(s.image, k, (i - FIRST_TRPL) % 512) == b
  {
    assert InodeOk(s, loc);
    var p := Part(loc, Data(i));
    OneStep(s, p);
    if i >= FIRST_DBL {
      var h := Part(loc, CellOf(Data(i)).parent);
      OneStep(s, h);
      if i >= FIRST_TRPL {
        OneStep(s, Part(loc, CellOf(h.kind).parent));
      }
    }
  }

  /**
    Where the pointer to block i goes among the three levels: the word is in
    the block on every level exactly if the file is not too long for the map.
   */
  lemma PointerFits(i: nat)
    requires i >= FIRST_TRPL
    ensures (i - FIRST_TRPL) / 512 / 512 < SLOTS <==> i < MAX_BLOCKS
    ensures (i - FIRST_TRPL) / 512 % 512 < SLOTS && (i - FIRST_TRPL) % 512 < SLOTS
  {
  }
}
