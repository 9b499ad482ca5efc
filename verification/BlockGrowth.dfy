/**
  The steps by which a file grows (tyrant_help.c, add_block_to_node), as
  relations between file systems: what they may change, and what they keep.
 */
module BlockGrowth {
  import opened Device
  import opened FreeList
  import opened BlockMap

  /** Free blocks outside the chain, and blocks in hand, hold nothing but zeros. */
  ghost predicate AllClean(s: Fs, hand: set<nat>)
  {
    CleanSpares(s.image, s.place) && forall b {:trigger Blank(s.image, b)} :: b in hand ==> Blank(s.image, b)
  }

  /** The contents of every data block are the same. */
  ghost predicate DataKept(s: Fs, image: Image)
  {
    |image| == |s.image|
    && forall p {:trigger s.at[p]} :: p in s.at && p.kind.Data? && OnDevice(s.image, s.at[p]) ==>
         Block(image, s.at[p]) == Block(s.image, s.at[p])
  }

  /** Nothing is lost or made up: files, free blocks and blocks in hand are together what they were. */
  ghost predicate Conserved(s: Fs, hand: set<nat>, s': Fs, hand': set<nat>)
  {
    s'.owner.Keys + s'.place.Keys + hand' == s.owner.Keys + s.place.Keys + hand
  }

  /** Only the pointers to pointer blocks may be different. */
  predicate SameData(n: Inode, n': Inode)
  {
    n'.blocks == n.blocks && n'.size == n.size && n'.direct == n.direct
  }

  /** Only the pointers of loc may be different. */
  ghost predicate OnlyPointers(s: Fs, loc: nat, s': Fs)
  {
    && s'.inodes.Keys == s.inodes.Keys
    && forall l :: l in s.inodes ==>
         if l != loc then s'.inodes[l] == s.inodes[l] else SameData(s.inodes[l], s'.inodes[l])
  }

  /** The map has grown by pointer blocks of loc at most. */
  ghost predicate PointersAdded(s: Fs, loc: nat, s': Fs)
  {
    && (forall p :: p in s.at ==> p in s'.at && s'.at[p] == s.at[p])
    && (forall p :: p in s'.at && p !in s.at ==> p.loc == loc && !p.kind.Data?)
  }

  /** From s with hand to s' with hand', on behalf of the file loc, without touching data. */
  ghost predicate Reach(s: Fs, hand: set<nat>, loc: nat, s': Fs, hand': set<nat>)
  {
    && Conserved(s, hand, s', hand') && PointersAdded(s, loc, s') && OnlyPointers(s, loc, s') && DataKept(s, s'.image)
    && (AllClean(s, hand) ==> AllClean(s', hand'))
  }

  lemma ReachTwice(s: Fs, h: set<nat>, loc: nat, s1: Fs, h1: set<nat>, s2: Fs, h2: set<nat>)
    requires Mapped(s) && Reach(s, h, loc, s1, h1) == true && Reach(s1, h1, loc, s2, h2) == true
    ensures Reach(s, h, loc, s2, h2)
  {
    forall p | p in s.at && p.kind.Data? && OnDevice(s.image, s.at[p])
      ensures Block(s2.image, s.at[p]) == Block(s.image, s.at[p])
    {
      assert s1.at[p] == s.at[p];
      assert Block(s1.image, s.at[p]) == Block(s.image, s.at[p]);
    }
    forall l | l in s.inodes
      ensures if l != loc then s2.inodes[l] == s.inodes[l] else SameData(s.inodes[l], s2.inodes[l])
    {
      assert l in s1.inodes.Keys;
    }
  }

  lemma ReachSame(s: Fs, h: set<nat>, loc: nat)
    ensures Reach(s, h, loc, s, h)
  {
  }

  /** No block of a file is at the superblock's address. */
  lemma NotSuper(s: Fs)
    requires Mapped(s)
    ensures 0 !in s.owner
  {
    forall b | b in s.owner ensures b > 0 {
      assert OwnerOk(s, b);
      assert PartOk(s, s.owner[b]);
    }
  }

  lemma OwnedApart(s: Fs, touched: set<nat>, p: Part)
    requires Mapped(s) && touched !! s.owner.Keys && p in s.at
    ensures s.at[p] !in touched
  {
    assert PartOk(s, p);
  }

  // ----- allocate_block -----

  function HandWith(hand: set<nat>, b: nat): set<nat>
  {
    if b == 0 then hand else hand + {b}
  }

  lemma TakeKeeps(s: Fs, hand: set<nat>, loc: nat, b: nat, image: Image, place: Places)
    requires Sound(s, hand) && Took(s.image, s.place, b, image, place)
    requires CleanSpares(s.image, s.place) ==> CleanSpares(image, place) && (b != 0 ==> Blank(image, b))
    requires forall x :: x in hand ==> x > 0
    ensures Sound(s.(image := image, place := place), HandWith(hand, b))
    ensures Reach(s, hand, loc, s.(image := image, place := place), HandWith(hand, b))
    ensures b != 0 ==> b !in hand && b !in s.owner && b in s.place
  {
    var s' := s.(image := image, place := place);
    var touched := s.place.Keys + {0};
    NotSuper(s);
    MappedFrame(s, image, place, touched);
    forall p | p in s.at && p.kind.Data? ensures s.at[p] !in touched {
      OwnedApart(s, touched, p);
    }
    if AllClean(s, hand) {
      forall x | x in HandWith(hand, b) ensures Blank(image, x) {
        if x in hand {
          assert Blank(s.image, x);
          SameSlots(s.image, image, touched, x);
        }
      }
    }
  }

  // ----- free_block -----

  lemma GiveKeeps(s: Fs, hand: set<nat>, loc: nat, b: nat, image: Image, place: Places)
    requires Sound(s, hand) && b in hand && GaveBack(s.image, s.place, b, image, place)
    requires CleanSpares(s.image, s.place) && Blank(s.image, b) ==> CleanSpares(image, place)
    ensures Sound(s.(image := image, place := place), hand - {b})
    ensures Reach(s, hand, loc, s.(image := image, place := place), hand - {b})
  {
    var touched := s.place.Keys + {0, b};
    NotSuper(s);
    MappedFrame(s, image, place, touched);
    forall p | p in s.at && p.kind.Data? ensures s.at[p] !in touched {
      OwnedApart(s, touched, p);
    }
    if AllClean(s, hand) {
      forall x | x in hand - {b} ensures Blank(image, x) {
        assert Blank(s.image, x);
        SameSlots(s.image, image, touched, x);
      }
    }
  }

  // ----- hanging a block in -----

  lemma HangSound(s: Fs, hand: set<nat>, p: Part, b: nat, s': Fs)
    requires Sound(s, hand) && b in hand && CanHang(s, p, b) && Written(s, p, b, s')
    requires p.kind.Data? ==> p.kind.i < MAX_BLOCKS
    ensures Sound(s', hand - {b})
  {
    HangKeeps(s, p, b, s');
  }

  /** The block that holds the pointer to p is a pointer block. */
  lemma HolderFrame(s: Fs, p: Part, b: nat, s': Fs)
    requires Mapped(s) && CanHang(s, p, b) && Written(s, p, b, s')
    ensures |s'.image| == |s.image| && DataKept(s, s'.image)
    ensures SameBut(s.image, s'.image, s.owner.Keys)
  {
    var c := CellOf(p.kind);
    if c.Word? {
      var h := Part(p.loc, c.parent);
      assert PartOk(s, h);
      forall x | x in s.at && x.kind.Data? ensures s.at[x] !in {s.at[h]} {
        assert PartOk(s, x);
      }
    }
  }

  lemma CleanStays(s: Fs, hand: set<nat>, b: nat, s': Fs)
    requires Sound(s, hand) && AllClean(s, hand) && s'.place == s.place && SameBut(s.image, s'.image, s.owner.Keys)
    ensures AllClean(s', hand - {b})
  {
    forall x | (x in s.place && s.place[x].Spare?) || x in hand ensures Blank(s'.image, x) {
      assert Blank(s.image, x);
      SameSlots(s.image, s'.image, s.owner.Keys, x);
    }
  }

  /** Hanging in a pointer block touches no data. */
  lemma HangReaches(s: Fs, hand: set<nat>, p: Part, b: nat, s': Fs)
    requires Sound(s, hand) && b in hand && CanHang(s, p, b) && Written(s, p, b, s') && !p.kind.Data?
    ensures Reach(s, hand, p.loc, s', hand - {b})
  {
    HolderFrame(s, p, b, s');
    if AllClean(s, hand) {
      CleanStays(s, hand, b, s');
    }
    assert Conserved(s, hand, s', hand - {b});
  }

  // ----- a successful append -----

  /** What add_block_to_node adds up to when it answers a block. */
  ghost predicate Appended(s: Fs, loc: nat, block: nat, s': Fs)
  {
    && loc in s.inodes && s'.inodes.Keys == s.inodes.Keys
    && var next := Part(loc, Data(s.inodes[loc].blocks));
    && next !in s.at && next in s'.at && s'.at[next] == block && block in s.place && block !in s.owner
    && s'.inodes[loc].blocks == s.inodes[loc].blocks + 1 && s'.inodes[loc].size == s.inodes[loc].size
    && (forall l :: l in s.inodes && l != loc ==> s'.inodes[l] == s.inodes[l])
    && (forall p :: p in s.at ==> p in s'.at && s'.at[p] == s.at[p])
    && (forall p :: p in s'.at && p !in s.at ==> p == next || (p.loc == loc && !p.kind.Data?))
    && Conserved(s, {}, s', {}) && DataKept(s, s'.image)
    && (AllClean(s, {}) ==> AllClean(s', {}) && Blank(s'.image, block))
  }

  /** Pointer blocks first, then the data block: together an append. */
  lemma AppendDone(s: Fs, loc: nat, block: nat, s1: Fs, s2: Fs)
    requires Mapped(s) && Sound(s1, {block}) && loc in s.inodes && Reach(s, {}, loc, s1, {block})
    requires block in s.place && block !in s.owner
    requires Part(loc, Data(s.inodes[loc].blocks)) !in s.at
    requires CanHang(s1, Part(loc, Data(s.inodes[loc].blocks)), block)
    requires Written(s1, Part(loc, Data(s.inodes[loc].blocks)), block, s2)
    ensures Appended(s, loc, block, s2)
  {
    var p := Part(loc, Data(s.inodes[loc].blocks));
    HolderFrame(s1, p, block, s2);
    if AllClean(s, {}) {
      CleanStays(s1, {block}, block, s2);
      assert {block} - {block} == {};
      CleanHand(s1, block, s2);
    }
    AppendConserved(s, block, s1, p, s2);
    assert loc in s1.inodes.Keys;
  }

  /** A clean block in hand is clean when it has become data. */
  lemma CleanHand(s1: Fs, block: nat, s2: Fs)
    requires Sound(s1, {block}) && AllClean(s1, {block}) && SameBut(s1.image, s2.image, s1.owner.Keys)
    ensures Blank(s2.image, block)
  {
    assert block in {block};
    assert Blank(s1.image, block);
    SameSlots(s1.image, s2.image, s1.owner.Keys, block);
  }

  lemma AppendConserved(s: Fs, block: nat, s1: Fs, p: Part, s2: Fs)
    requires Conserved(s, {}, s1, {block}) && s2.owner == s1.owner[block := p] && s2.place == s1.place
    ensures Conserved(s, {}, s2, {})
  {
    assert s2.owner.Keys == s1.owner.Keys + {block};
  }
}
