/**
  add_block_to_node of tyrant_help.c as a function of the file system: what
  each of its steps makes of the device, the inode and the free list, that all
  of it stays sound, and when it fails.
 */
module BlockAppend {
  import opened Device
  import opened FreeList
  import opened BlockMap
  import opened BlockGrowth

  /** The device holds a free list; files, free blocks and blocks in hand are kept apart. */
  ghost predicate Good(s: Fs, hand: set<nat>)
  {
    Sound(s, hand) && exists chain :: WellFormed(s.image, chain, s.place)
  }

  // ----- allocate_block and free_block -----

  function Taken(s: Fs): (Fs, nat)
    requires HeadOk(s.image)
  {
    var (image, b) := Allocated(s.image);
    (s.(image := image, place := s.place - {b}), b)
  }

  function GivenBack(s: Fs, b: nat): Fs
    requires HeadOk(s.image) && OnDevice(s.image, b)
  {
    s.(image := Freed(s.image, b), place := PlaceAfterFree(s.image, s.place, b))
  }

  lemma GoodHead(s: Fs, hand: set<nat>)
    requires Good(s, hand)
    ensures HeadOk(s.image)
  {
    var chain :| WellFormed(s.image, chain, s.place);
    HeadLink(s.image, chain, s.place);
  }

  lemma TakenIs(s: Fs, hand: set<nat>, loc: nat)
    requires Good(s, hand)
    ensures HeadOk(s.image)
    ensures var (s1, b) := Taken(s);
      && Good(s1, HandWith(hand, b)) && Reach(s, hand, loc, s1, HandWith(hand, b))
      && (b == 0 <==> s.place == map[]) && (b == 0 ==> s1.place == map[])
      && (b != 0 ==> b !in hand && b !in s.owner && b in s.place && OnDevice(s1.image, b) && b < WORDS)
      && (CleanSpares(s.image, s.place) && b != 0 ==> Blank(s1.image, b))
  {
    var chain :| WellFormed(s.image, chain, s.place);
    AllocateEffect(s.image, chain, s.place);
    var (s1, b) := Taken(s);
    TakeKeeps(s, hand, loc, b, s1.image, s1.place);
    assert WellFormed(s1.image, ChainAfterAllocate(s.image, chain), s1.place);
  }

  lemma GivenBackIs(s: Fs, hand: set<nat>, loc: nat, b: nat)
    requires Good(s, hand) && b in hand
    ensures HeadOk(s.image) && OnDevice(s.image, b)
    ensures Good(GivenBack(s, b), hand - {b}) && Reach(s, hand, loc, GivenBack(s, b), hand - {b})
    ensures GivenBack(s, b).place.Keys == s.place.Keys + {b}
  {
    var chain :| WellFormed(s.image, chain, s.place);
    HandFree(s, hand, b);
    FreeEffect(s.image, chain, s.place, b);
    GiveKeeps(s, hand, loc, b, GivenBack(s, b).image, GivenBack(s, b).place);
    assert WellFormed(GivenBack(s, b).image, ChainAfterFree(s.image, chain, b), GivenBack(s, b).place);
  }

  lemma HandFree(s: Fs, hand: set<nat>, b: nat)
    requires Sound(s, hand) && b in hand
    ensures CanFree(s.image, s.place, b) && b != 0
  {
  }

  // ----- hanging a block in -----

  /** The place of the pointer to p is there. */
  predicate Hangable(s: Fs, p: Part)
  {
    && Proper(p.kind) && InodeShape(s, p.loc)
    && var c := CellOf(p.kind);
    c.Word? ==> Part(p.loc, c.parent) in s.at && OnDevice(s.image, s.at[Part(p.loc, c.parent)])
  }

  /** The pointer to b is written where it belongs, and the inode is committed. */
  function Hung(s: Fs, p: Part, b: nat): Fs
    requires Hangable(s, p)
  {
    var c := CellOf(p.kind);
    var n := if c.Word? then s.inodes[p.loc] else SetField(s.inodes[p.loc], c, b);
    Fs(if c.Word? then PutSlot(s.image, s.at[Part(p.loc, c.parent)], c.slot, b) else s.image,
       s.place,
       s.inodes[p.loc := if p.kind.Data? then n.(blocks := n.blocks + 1) else n],
       s.at[p := b], s.owner[b := p])
  }

  lemma HangableIf(s: Fs, p: Part)
    requires Mapped(s) && Proper(p.kind) && p.loc in s.inodes
    requires CellOf(p.kind).Word? ==> Part(p.loc, CellOf(p.kind).parent) in s.at
    ensures Hangable(s, p)
    ensures CellOf(p.kind).Word? ==> s.at[Part(p.loc, CellOf(p.kind).parent)] in s.owner
  {
    assert InodeOk(s, p.loc);
    if CellOf(p.kind).Word? {
      assert PartOk(s, Part(p.loc, CellOf(p.kind).parent));
    }
  }

  lemma HungIs(s: Fs, hand: set<nat>, p: Part, b: nat)
    requires Good(s, hand) && b in hand && CanHang(s, p, b) && Hangable(s, p)
    requires p.kind.Data? ==> p.kind.i < MAX_BLOCKS
    ensures Written(s, p, b, Hung(s, p, b)) && Good(Hung(s, p, b), hand - {b})
    ensures !p.kind.Data? ==> Reach(s, hand, p.loc, Hung(s, p, b), hand - {b})
  {
    var c, s' := CellOf(p.kind), Hung(s, p, b);
    if c.Word? {
      PutSlotIs(s.image, s.at[Part(p.loc, c.parent)], c.slot, b);
    }
    assert Written(s, p, b, s');
    HangSound(s, hand, p, b, s');
    var chain :| WellFormed(s.image, chain, s.place);
    ListUntouched(s, hand, chain, p, b, s');
    if !p.kind.Data? {
      HangReaches(s, hand, p, b, s');
    }
  }

  /** Pointer blocks are not free, so writing to them leaves the free list alone. */
  lemma ListUntouched(s: Fs, hand: set<nat>, chain: seq<nat>, p: Part, b: nat, s': Fs)
    requires Sound(s, hand) && WellFormed(s.image, chain, s.place) && CanHang(s, p, b) && Written(s, p, b, s')
    ensures WellFormed(s'.image, chain, s'.place)
  {
    HolderFrame(s, p, b, s');
    NotSuper(s);
    ClientWrites(s.image, chain, s.place, s'.image, s.owner.Keys);
  }

  // ----- a pointer block, made if it is missing -----

  /** A pointer is zero exactly if there is no such pointer block. */
  lemma PointerIs(s: Fs, p: Part)
    requires Mapped(s) && Proper(p.kind) && p.loc in s.inodes && !p.kind.Data?
    ensures InodeShape(s, p.loc) && (p in s.at <==> Stored(s, p) != 0) && (p in s.at ==> s.at[p] == Stored(s, p))
  {
    assert InodeOk(s, p.loc);
    assert EmptyOk(s, p);
    assert p in s.at ==> PartOk(s, p);
  }

  /**
    p can be made: what leads to it is there, and free blocks read as zeros if p is still to be made and
    will hold pointers to pointers.
   */
  ghost predicate CanEnsure(s: Fs, hand: set<nat>, p: Part)
  {
    && Good(s, hand) && p.loc in s.inodes && Proper(p.kind) && !p.kind.Data?
    && (CellOf(p.kind).Word? ==> Part(p.loc, CellOf(p.kind).parent) in s.at)
    && (HoldsPointers(p.kind) && p !in s.at ==> AllClean(s, hand))
  }

  /** The pointer to p, which is filled first if it is zero; 0 if there is no block left for it. */
  ghost function Ensured(s: Fs, hand: set<nat>, p: Part): (Fs, nat)
    requires CanEnsure(s, hand, p)
  {
    HangableIf(s, p);
    GoodHead(s, hand);
    if Stored(s, p) != 0 then (s, Stored(s, p))
    else
      var (s1, b) := Taken(s);
      if b == 0 then (s1, 0) else (Hung(s1, p, b), b)
  }

  /** The pointer blocks of loc have grown by p at most, which is there unless the device is full. */
  ghost predicate Made(s: Fs, hand: set<nat>, p: Part, s': Fs, ptr: nat)
  {
    && Good(s', hand) && Reach(s, hand, p.loc, s', hand) && p.loc in s'.inodes
    && (ptr == 0 ==> s'.place == map[] && p !in s'.at)
    && (ptr != 0 ==> p in s'.at && s'.at[p] == ptr)
    && forall x :: x in s'.at && x !in s.at ==> x == p
  }

  lemma EnsuredIs(s: Fs, hand: set<nat>, p: Part)
    requires CanEnsure(s, hand, p)
    ensures Made(s, hand, p, Ensured(s, hand, p).0, Ensured(s, hand, p).1)
  {
    HangableIf(s, p);
    GoodHead(s, hand);
    PointerIs(s, p);
    if Stored(s, p) != 0 {
      ReachSame(s, hand, p.loc);
    } else {
      TakenIs(s, hand, p.loc);
      var (s1, b) := Taken(s);
      if b != 0 {
        EnsuredNew(s, hand, p, s1, b);
      }
    }
  }

  lemma EnsuredNew(s: Fs, hand: set<nat>, p: Part, s1: Fs, b: nat)
    requires CanEnsure(s, hand, p) && p !in s.at && s1 == s.(image := s1.image, place := s1.place)
    requires Good(s1, hand + {b}) && Reach(s, hand, p.loc, s1, hand + {b}) && b !in hand && Hangable(s1, p)
    requires HoldsPointers(p.kind) ==> Blank(s1.image, b)
    ensures Made(s, hand, p, Hung(s1, p, b), b)
  {
    assert b in hand + {b};
    HungIs(s1, hand + {b}, p, b);
    assert hand + {b} - {b} == hand;
    ReachTwice(s, hand, p.loc, s1, hand + {b}, Hung(s1, p, b), hand);
  }

  // ----- all pointer blocks above a data block -----

  /** The kinds of the pointer blocks above data block i, from the inode down. */
  function Above(i: nat): (kinds: seq<Kind>)
    requires FIRST_IND <= i < MAX_BLOCKS
    ensures 0 < |kinds| <= 3
  {
    if i < FIRST_DBL then [Ind]
    else if i < FIRST_TRPL then [Dbl, DblKid((i - FIRST_DBL) / 512)]
    else [Trpl, TrplKid((i - FIRST_TRPL) / 512 / 512), TrplGrand((i - FIRST_TRPL) / 512)]
  }

  /** Each kind but the first is found through the one before it. */
  predicate Linked(kinds: seq<Kind>)
  {
    && (forall j :: 0 <= j < |kinds| ==> Proper(kinds[j]) && !kinds[j].Data?)
    && forall j :: 0 < j < |kinds| ==> CellOf(kinds[j]).Word? && CellOf(kinds[j]).parent == kinds[j - 1]
  }

  lemma AboveLinked(i: nat)
    requires FIRST_IND <= i < MAX_BLOCKS
    ensures Linked(Above(i)) && !CellOf(Above(i)[0]).Word?
    ensures CellOf(Data(i)).Word? && CellOf(Data(i)).parent == Above(i)[|Above(i)| - 1]
    ensures forall k :: k in Above(i) ==> OnPath(k, Data(i))
    ensures Above(i) == [Ind] <==> i < FIRST_DBL
  {
    var a := Above(i);
    if |a| == 2 {
      assert OnPath(a[0], a[1]);
    }
    if |a| == 3 {
      assert OnPath(a[0], a[1]);
      assert OnPath(a[0], a[2]) && OnPath(a[1], a[2]);
    }
  }

  /** The kinds can be made one after the other. */
  ghost predicate CanEnsureAll(s: Fs, hand: set<nat>, loc: nat, kinds: seq<Kind>)
  {
    && kinds != [] && Linked(kinds) && CanEnsure(s, hand, Part(loc, kinds[0]))
    && ((exists k :: k in kinds && HoldsPointers(k) && Part(loc, k) !in s.at) ==> AllClean(s, hand))
  }

  /** The lowest of the pointer blocks, or 0 if the device is full on the way. */
  ghost function EnsuredAll(s: Fs, hand: set<nat>, loc: nat, kinds: seq<Kind>): (Fs, nat)
    requires CanEnsureAll(s, hand, loc, kinds)
    decreases |kinds|
  {
    var (s1, ptr) := Ensured(s, hand, Part(loc, kinds[0]));
    if ptr == 0 || |kinds| == 1 then (s1, ptr)
    else
      NextEnsures(s, hand, loc, kinds);
      EnsuredAll(s1, hand, loc, kinds[1..])
  }

  lemma NextEnsures(s: Fs, hand: set<nat>, loc: nat, kinds: seq<Kind>)
    requires CanEnsureAll(s, hand, loc, kinds) && |kinds| > 1 && Ensured(s, hand, Part(loc, kinds[0])).1 != 0
    ensures CanEnsureAll(Ensured(s, hand, Part(loc, kinds[0])).0, hand, loc, kinds[1..])
  {
    EnsuredIs(s, hand, Part(loc, kinds[0]));
  }

  /** More than one kind: the first, and then the rest. */
  lemma MoreEnsured(s: Fs, hand: set<nat>, loc: nat, kinds: seq<Kind>)
    requires CanEnsureAll(s, hand, loc, kinds) && |kinds| > 1
    ensures var (s1, ptr) := Ensured(s, hand, Part(loc, kinds[0]));
      && Made(s, hand, Part(loc, kinds[0]), s1, ptr)
      && if ptr == 0 then EnsuredAll(s, hand, loc, kinds) == (s1, 0)
         else
           && CanEnsureAll(s1, hand, loc, kinds[1..])
           && EnsuredAll(s, hand, loc, kinds) == EnsuredAll(s1, hand, loc, kinds[1..])
  {
    EnsuredIs(s, hand, Part(loc, kinds[0]));
    if Ensured(s, hand, Part(loc, kinds[0])).1 != 0 {
      NextEnsures(s, hand, loc, kinds);
    }
  }

  lemma TwoEnsured(s: Fs, hand: set<nat>, loc: nat, kinds: seq<Kind>)
    requires CanEnsureAll(s, hand, loc, kinds) && |kinds| == 2
    ensures var (s1, ptr) := Ensured(s, hand, Part(loc, kinds[0]));
      && Made(s, hand, Part(loc, kinds[0]), s1, ptr)
      && if ptr == 0 then EnsuredAll(s, hand, loc, kinds) == (s1, 0)
         else
           && CanEnsure(s1, hand, Part(loc, kinds[1]))
           && EnsuredAll(s, hand, loc, kinds) == Ensured(s1, hand, Part(loc, kinds[1]))
  {
    MoreEnsured(s, hand, loc, kinds);
  }

  /** The pointer blocks of loc have grown by some of the kinds at most; all are there unless the device is full. */
  ghost predicate AllMade(s: Fs, hand: set<nat>, loc: nat, kinds: seq<Kind>, s': Fs, ptr: nat)
    requires kinds != []
  {
    && Good(s', hand) && Reach(s, hand, loc, s', hand) && loc in s'.inodes
    && (ptr == 0 ==> s'.place == map[] && exists k :: k in kinds && Part(loc, k) !in s'.at)
    && (ptr != 0 ==> Part(loc, kinds[|kinds| - 1]) in s'.at && s'.at[Part(loc, kinds[|kinds| - 1])] == ptr)
    && forall x :: x in s'.at && x !in s.at ==> x.loc == loc && x.kind in kinds
  }

  lemma {:induction false} EnsuredAllIs(s: Fs, hand: set<nat>, loc: nat, kinds: seq<Kind>)
    requires CanEnsureAll(s, hand, loc, kinds)
    ensures AllMade(s, hand, loc, kinds, EnsuredAll(s, hand, loc, kinds).0, EnsuredAll(s, hand, loc, kinds).1)
    decreases |kinds|
  {
    if |kinds| == 1 {
      OneEnsured(s, hand, loc, kinds);
    } else {
      MoreEnsured(s, hand, loc, kinds);
      var (s1, ptr) := Ensured(s, hand, Part(loc, kinds[0]));
      if ptr == 0 {
        MadeNone(s, hand, loc, kinds, s1);
      } else {
        EnsuredAllIs(s1, hand, loc, kinds[1..]);
        var (s2, last) := EnsuredAll(s1, hand, loc, kinds[1..]);
        MadeOn(s, hand, loc, kinds, s1, ptr, s2, last);
      }
    }
  }

  lemma OneEnsured(s: Fs, hand: set<nat>, loc: nat, kinds: seq<Kind>)
    requires CanEnsureAll(s, hand, loc, kinds) && |kinds| == 1
    ensures EnsuredAll(s, hand, loc, kinds) == Ensured(s, hand, Part(loc, kinds[0]))
    ensures AllMade(s, hand, loc, kinds, EnsuredAll(s, hand, loc, kinds).0, EnsuredAll(s, hand, loc, kinds).1)
  {
    EnsuredIs(s, hand, Part(loc, kinds[0]));
  }

  lemma MadeNone(s: Fs, hand: set<nat>, loc: nat, kinds: seq<Kind>, s1: Fs)
    requires kinds != [] && Made(s, hand, Part(loc, kinds[0]), s1, 0)
    ensures AllMade(s, hand, loc, kinds, s1, 0)
  {
  }

  lemma MadeOn(s: Fs, hand: set<nat>, loc: nat, kinds: seq<Kind>, s1: Fs, ptr: nat, s2: Fs, last: nat)
    requires Mapped(s) && |kinds| > 1 && Made(s, hand, Part(loc, kinds[0]), s1, ptr)
    requires AllMade(s1, hand, loc, kinds[1..], s2, last)
    ensures AllMade(s, hand, loc, kinds, s2, last)
  {
    ReachTwice(s, hand, loc, s1, hand, s2, hand);
    if last == 0 {
      var k :| k in kinds[1..] && Part(loc, k) !in s2.at;
      assert k in kinds;
    } else {
      assert kinds[1..][|kinds| - 2] == kinds[|kinds| - 1];
    }
    forall x | x in s2.at && x !in s.at ensures x.loc == loc && x.kind in kinds {
      assert x in s1.at || x.kind in kinds[1..];
    }
  }

  // ----- what a file lacks -----

  /** Block i of a file, and the pointer blocks above it. */
  function WayTo(i: nat): seq<Kind>
    requires i < MAX_BLOCKS
  {
    if i < FIRST_IND then [Data(i)] else Above(i) + [Data(i)]
  }

  /** All that a file of n blocks consists of. */
  function Needed(loc: nat, n: nat): set<Part>
    requires n <= MAX_BLOCKS
  {
    if n == 0 then {} else Needed(loc, n - 1) + set k | k in WayTo(n - 1) :: Part(loc, k)
  }

  /** What is missing for loc to have n blocks. */
  function Lacking(s: Fs, loc: nat, n: nat): set<Part>
    requires n <= MAX_BLOCKS
  {
    Needed(loc, n) - s.at.Keys
  }

  /** There are enough free blocks for loc to have n blocks. */
  predicate Room(s: Fs, loc: nat, n: nat)
    requires n <= MAX_BLOCKS
  {
    |Lacking(s, loc, n)| <= |s.place|
  }

  /** A block of pointers to pointers is among the missing. */
  predicate NeedsClean(s: Fs, loc: nat, n: nat)
    requires n <= MAX_BLOCKS
  {
    exists p :: p in Lacking(s, loc, n) && HoldsPointers(p.kind)
  }

  /** So many blocks fit in the map, and if new pointers to pointers are needed, free blocks read as zeros. */
  ghost predicate CanGrow(s: Fs, loc: nat, n: nat)
  {
    n <= MAX_BLOCKS && (NeedsClean(s, loc, n) ==> AllClean(s, {}))
  }

  lemma {:induction false} NeededMore(loc: nat, m: nat, n: nat)
    requires m <= n <= MAX_BLOCKS
    ensures Needed(loc, m) <= Needed(loc, n)
  {
    if m < n {
      NeededMore(loc, m, n - 1);
    }
  }

  lemma RoomLess(s: Fs, loc: nat, m: nat, n: nat)
    requires m <= n <= MAX_BLOCKS && Room(s, loc, n)
    ensures Room(s, loc, m)
  {
    NeededMore(loc, m, n);
    CardinalityLe(Lacking(s, loc, m), Lacking(s, loc, n));
  }

  lemma {:induction false} CardinalityLe(a: set<Part>, b: set<Part>)
    requires a <= b
    ensures |a| <= |b|
  {
    if a != {} {
      var p :| p in a;
      CardinalityLe(a - {p}, b - {p});
    }
  }

  /** The way to a block that is there is there. */
  lemma WayThere(s: Fs, loc: nat, i: nat)
    requires Mapped(s) && loc in s.inodes && i < s.inodes[loc].blocks
    ensures i < MAX_BLOCKS && forall k :: k in WayTo(i) ==> Part(loc, k) in s.at
  {
    assert InodeOk(s, loc);
    assert Part(loc, Data(i)) in s.at && PartOk(s, Part(loc, Data(i)));
    if i >= FIRST_IND {
      AboveLinked(i);
      var a := Above(i);
      assert PartOk(s, Part(loc, a[|a| - 1]));
      if |a| > 1 {
        assert PartOk(s, Part(loc, a[|a| - 2]));
      }
    }
  }

  /** A file lacks nothing for the blocks it has. */
  lemma {:induction false} NoneLacking(s: Fs, loc: nat, n: nat)
    requires Mapped(s) && loc in s.inodes && n <= s.inodes[loc].blocks
    ensures n <= MAX_BLOCKS && Lacking(s, loc, n) == {} && Room(s, loc, n)
  {
    assert InodeOk(s, loc);
    if n > 0 {
      NoneLacking(s, loc, n - 1);
      WayThere(s, loc, n - 1);
    }
  }

  /** f and g match the elements of a and b. */
  predicate Matched(a: set<Part>, b: set<nat>, f: map<Part, nat>, g: map<nat, Part>)
  {
    && (forall p :: p in a ==> p in f && f[p] in b && f[p] in g && g[f[p]] == p)
    && forall x :: x in b ==> x in g && g[x] in a && g[x] in f && f[g[x]] == x
  }

  lemma {:induction false} MatchedCount(a: set<Part>, b: set<nat>, f: map<Part, nat>, g: map<nat, Part>)
    requires Matched(a, b, f, g)
    ensures |a| == |b|
  {
    if a == {} {
      assert b == {};
    } else {
      var p :| p in a;
      MatchedCount(a - {p}, b - {f[p]}, f, g);
    }
  }

  /** Each block of a file is one part of it. */
  lemma PartsCount(s: Fs)
    requires Mapped(s)
    ensures |s.owner| == |s.at|
  {
    forall p | p in s.at ensures s.at[p] in s.owner && s.owner[s.at[p]] == p {
      assert PartOk(s, p);
    }
    forall b | b in s.owner ensures s.owner[b] in s.at && s.at[s.owner[b]] == b {
      assert OwnerOk(s, b);
    }
    MatchedCount(s.at.Keys, s.owner.Keys, s.at, s.owner);
  }

  lemma DisjointCount(a: set<nat>, b: set<nat>)
    requires a !! b
    ensures |a + b| == |a| + |b|
  {
  }

  /** What the files gain, the free list loses. */
  lemma Balanced(s: Fs, s': Fs)
    requires Sound(s, {}) && Sound(s', {}) && Conserved(s, {}, s', {})
    ensures |s.at| + |s.place| == |s'.at| + |s'.place|
  {
    PartsCount(s);
    PartsCount(s');
    DisjointCount(s.owner.Keys, s.place.Keys);
    DisjointCount(s'.owner.Keys, s'.place.Keys);
    assert s.owner.Keys + s.place.Keys + {} == s.owner.Keys + s.place.Keys;
    assert s'.owner.Keys + s'.place.Keys + {} == s'.owner.Keys + s'.place.Keys;
  }

  /** The map has grown by nothing but what a file of n blocks needs. */
  ghost predicate OnlyNeeded(s: Fs, loc: nat, n: nat, s': Fs)
    requires n <= MAX_BLOCKS
  {
    && (forall p :: p in s.at ==> p in s'.at)
    && forall p :: p in s'.at && p !in s.at ==> p in Needed(loc, n)
  }

  lemma LessLacking(needed: set<Part>, before: set<Part>, after: set<Part>)
    requires before <= after && after - before <= needed
    ensures |needed - before| - |needed - after| == |after| - |before|
  {
    var more := after - before;
    assert after == before + more;
    assert needed - before == (needed - after) + more;
  }

  /** Every block that was free and is not any more is one that the file does not lack any more. */
  lemma RoomStays(s: Fs, loc: nat, n: nat, s': Fs)
    requires Sound(s, {}) && Sound(s', {}) && Conserved(s, {}, s', {}) && n <= MAX_BLOCKS && OnlyNeeded(s, loc, n, s')
    ensures |Lacking(s, loc, n)| - |s.place| == |Lacking(s', loc, n)| - |s'.place|
    ensures Room(s, loc, n) <==> Room(s', loc, n)
  {
    Balanced(s, s');
    LessLacking(Needed(loc, n), s.at.Keys, s'.at.Keys);
  }

  // ----- add_block_to_node -----

  ghost predicate CanAdd(s: Fs, loc: nat)
  {
    Good(s, {}) && loc in s.inodes && CanGrow(s, loc, s.inodes[loc].blocks + 1)
  }

  /** At most one block is free: an append failed for want of another. */
  ghost predicate UsedUp(place: Places)
  {
    forall a, b :: a in place && b in place ==> a == b
  }

  /** The block that is allocated first can be hung in directly, or below pointer blocks that can be made. */
  lemma TakenForAdd(s: Fs, loc: nat)
    requires CanAdd(s, loc)
    ensures HeadOk(s.image)
    ensures var (s0, b) := Taken(s); var i := s.inodes[loc].blocks;
      b != 0 ==> if i < FIRST_IND then Hangable(s0, Part(loc, Data(i))) && CanHang(s0, Part(loc, Data(i)), b)
                 else CanAddBelow(s0, loc, i, b)
  {
    TakenIs(s, {}, loc);
    var (s0, b) := Taken(s);
    var i := s.inodes[loc].blocks;
    if b != 0 {
      assert HandWith({}, b) == {b};
      if i < FIRST_IND {
        DataNext(s, loc);
        NextHangs(s, loc, b, s0);
        HangableIf(s0, Part(loc, Data(i)));
      }
    }
  }

  /** The file system after add_block_to_node, and its answer. */
  ghost function Added(s: Fs, loc: nat): (Fs, nat)
    requires CanAdd(s, loc)
  {
    GoodHead(s, {});
    TakenForAdd(s, loc);
    var (s0, b) := Taken(s);
    var i := s.inodes[loc].blocks;
    if b == 0 then (s0, 0)
    else if i < FIRST_IND then
      (Hung(s0, Part(loc, Data(i)), b), b)
    else AddedBelow(s0, loc, i, b)
  }

  /** A block has been allocated for data block i, which does not go into the inode itself. */
  ghost predicate CanAddBelow(s0: Fs, loc: nat, i: nat, b: nat)
  {
    && Good(s0, {b}) && loc in s0.inodes && s0.inodes[loc].blocks == i && FIRST_IND <= i < MAX_BLOCKS
    && (NeedsClean(s0, loc, i + 1) ==> AllClean(s0, {b}))
  }

  /** The pointer blocks above data block i can be made. */
  lemma CanEnsureAbove(s0: Fs, loc: nat, i: nat, b: nat)
    requires CanAddBelow(s0, loc, i, b)
    ensures CanEnsureAll(s0, {b}, loc, Above(i))
  {
    AboveLinked(i);
    forall k | k in Above(i) && Part(loc, k) !in s0.at ensures Part(loc, k) in Lacking(s0, loc, i + 1) {
      assert k in WayTo(i);
    }
  }

  ghost function AddedBelow(s0: Fs, loc: nat, i: nat, b: nat): (Fs, nat)
    requires CanAddBelow(s0, loc, i, b)
  {
    AboveLinked(i);
    CanEnsureAbove(s0, loc, i, b);
    EnsuredAllIs(s0, {b}, loc, Above(i));
    var (s1, holder) := EnsuredAll(s0, {b}, loc, Above(i));
    if holder == 0 then
      GivenBackIs(s1, {b}, loc, b);
      (GivenBack(s1, b), 0)
    else
      HangableIf(s1, Part(loc, Data(i)));
      (Hung(s1, Part(loc, Data(i)), b), b)
  }

  lemma DataNext(s: Fs, loc: nat)
    requires Mapped(s) && loc in s.inodes
    ensures Part(loc, Data(s.inodes[loc].blocks)) !in s.at
  {
    var p := Part(loc, Data(s.inodes[loc].blocks));
    assert p in s.at ==> PartOk(s, p);
  }

  /** After the pointer blocks are there, the block in hand can be hung in as the next data block. */
  lemma NextHangs(s: Fs, loc: nat, block: nat, s1: Fs)
    requires loc in s.inodes && s.inodes[loc].blocks < MAX_BLOCKS && Part(loc, Data(s.inodes[loc].blocks)) !in s.at
    requires Reach(s, {}, loc, s1, {block}) && Sound(s1, {block})
    ensures CanHang(s1, Part(loc, Data(s.inodes[loc].blocks)), block)
  {
    assert loc in s1.inodes.Keys;
    assert InodeOk(s1, loc);
    assert block in {block};
  }

  /** The same, seen from the state in which only the block for data block i has been allocated. */
  lemma BelowHangs(s0: Fs, loc: nat, i: nat, b: nat, s1: Fs)
    requires CanAddBelow(s0, loc, i, b) && Good(s1, {b}) && Reach(s0, {b}, loc, s1, {b})
    ensures loc in s1.inodes && s1.inodes[loc].blocks == i && CanHang(s1, Part(loc, Data(i)), b)
  {
    assert loc in s1.inodes.Keys;
    DataNext(s1, loc);
    assert InodeOk(s1, loc);
    assert b in {b};
  }

  /** What add_block_to_node leaves behind, whatever it answers. */
  ghost predicate AddDone(s: Fs, loc: nat, s': Fs, block: nat)
  {
    && Good(s', {}) && loc in s.inodes && loc in s'.inodes
    && (if block != 0 then Appended(s, loc, block, s') else Reach(s, {}, loc, s', {}) && UsedUp(s'.place))
    && forall p :: p in s'.at && p !in s.at ==>
         && p.loc == loc && s.inodes[loc].blocks < MAX_BLOCKS
         && ((block != 0 && p.kind == Data(s.inodes[loc].blocks)) || OnPath(p.kind, Data(s.inodes[loc].blocks)))
  }

  /** s1 is s with block in hand, and perhaps more pointer blocks of loc: hanging the block in completes the append. */
  lemma HangCompletes(s: Fs, loc: nat, block: nat, s1: Fs)
    requires Good(s, {}) && loc in s.inodes && s.inodes[loc].blocks < MAX_BLOCKS && Good(s1, {block}) && block != 0
    requires Reach(s, {}, loc, s1, {block}) && block in s.place && block !in s.owner
    requires Hangable(s1, Part(loc, Data(s.inodes[loc].blocks)))
    requires forall p :: p in s1.at && p !in s.at ==> p.loc == loc && OnPath(p.kind, Data(s.inodes[loc].blocks))
    ensures AddDone(s, loc, Hung(s1, Part(loc, Data(s.inodes[loc].blocks)), block), block)
  {
    var p := Part(loc, Data(s.inodes[loc].blocks));
    DataNext(s, loc);
    NextHangs(s, loc, block, s1);
    assert block in {block};
    HungIs(s1, {block}, p, block);
    assert {block} - {block} == {};
    AppendDone(s, loc, block, s1, Hung(s1, p, block));
  }

  /** s1 is a full device with block in hand: giving the block back leaves every file as it was. */
  lemma GiveBackCompletes(s: Fs, loc: nat, block: nat, s1: Fs)
    requires Good(s, {}) && loc in s.inodes && s.inodes[loc].blocks < MAX_BLOCKS && Good(s1, {block})
    requires loc in s1.inodes && Reach(s, {}, loc, s1, {block}) && s1.place == map[]
    requires forall p :: p in s1.at && p !in s.at ==> p.loc == loc && OnPath(p.kind, Data(s.inodes[loc].blocks))
    ensures HeadOk(s1.image) && OnDevice(s1.image, block) && AddDone(s, loc, GivenBack(s1, block), 0)
  {
    assert block in {block};
    GivenBackIs(s1, {block}, loc, block);
    assert {block} - {block} == {};
    ReachTwice(s, {}, loc, s1, {block}, GivenBack(s1, block), {});
  }

  lemma AddedBelowIs(s: Fs, loc: nat, i: nat, b: nat, s0: Fs)
    requires CanAdd(s, loc) && i == s.inodes[loc].blocks && CanAddBelow(s0, loc, i, b) && b != 0 && s0.at == s.at
    requires Reach(s, {}, loc, s0, {b}) && b in s.place && b !in s.owner
    ensures AddDone(s, loc, AddedBelow(s0, loc, i, b).0, AddedBelow(s0, loc, i, b).1)
  {
    AboveLinked(i);
    CanEnsureAbove(s0, loc, i, b);
    EnsuredAllIs(s0, {b}, loc, Above(i));
    var (s1, holder) := EnsuredAll(s0, {b}, loc, Above(i));
    ReachTwice(s, {}, loc, s0, {b}, s1, {b});
    if holder == 0 {
      GiveBackCompletes(s, loc, b, s1);
    } else {
      HangableIf(s1, Part(loc, Data(i)));
      HangCompletes(s, loc, b, s1);
    }
  }

  lemma AddedDone(s: Fs, loc: nat)
    requires CanAdd(s, loc)
    ensures AddDone(s, loc, Added(s, loc).0, Added(s, loc).1)
  {
    TakenIs(s, {}, loc);
    var (s0, b) := Taken(s);
    var i := s.inodes[loc].blocks;
    if b != 0 {
      assert HandWith({}, b) == {b};
      if i < FIRST_IND {
        HangableIf(s0, Part(loc, Data(i)));
        HangCompletes(s, loc, b, s0);
      } else {
        AddedBelowIs(s, loc, i, b, s0);
      }
    }
  }

  // ----- when an append fails -----

  lemma OnPathAbove(k: Kind, i: nat)
    requires i < MAX_BLOCKS && (k == Data(i) || OnPath(k, Data(i)))
    ensures k in WayTo(i)
  {
    if i >= FIRST_IND {
      var h := CellOf(Data(i)).parent;
      assert k == Data(i) || k == h || OnPath(k, h);
      if i >= FIRST_DBL {
        assert OnPath(k, h) ==> k == CellOf(h).parent || OnPath(k, CellOf(h).parent);
        if i >= FIRST_TRPL {
          assert OnPath(k, CellOf(h).parent) ==> k == Trpl || OnPath(k, Trpl);
        }
      }
    }
  }

  lemma AddedNeeded(s: Fs, loc: nat, s': Fs, block: nat)
    requires AddDone(s, loc, s', block) && s.inodes[loc].blocks < MAX_BLOCKS
    ensures OnlyNeeded(s, loc, s.inodes[loc].blocks + 1, s') && Conserved(s, {}, s', {})
    ensures block != 0 ==> loc in s'.inodes && s'.inodes[loc].blocks == s.inodes[loc].blocks + 1
  {
    forall p | p in s'.at && p !in s.at ensures p in Needed(loc, s.inodes[loc].blocks + 1) {
      OnPathAbove(p.kind, s.inodes[loc].blocks);
    }
  }

  /** No block is free, and the data block is missing. */
  lemma NothingFree(loc: nat, i: nat, s: Fs)
    requires i < MAX_BLOCKS && Part(loc, Data(i)) !in s.at && s.place == map[]
    ensures !Room(s, loc, i + 1)
  {
    assert Data(i) in WayTo(i);
    assert Part(loc, Data(i)) in Lacking(s, loc, i + 1);
  }

  /** One block is free, but both a pointer block and the data block are missing. */
  lemma OneFree(loc: nat, i: nat, block: nat, k: Kind, s: Fs)
    requires i < MAX_BLOCKS && Part(loc, Data(i)) !in s.at && s.place.Keys == {block}
    requires k in WayTo(i) && !k.Data? && Part(loc, k) !in s.at
    ensures !Room(s, loc, i + 1)
  {
    assert Data(i) in WayTo(i);
    CardinalityLe({Part(loc, k), Part(loc, Data(i))}, Lacking(s, loc, i + 1));
    assert |s.place| == |s.place.Keys| == 1;
  }

  lemma BelowStuck(s0: Fs, loc: nat, i: nat, b: nat)
    requires CanAddBelow(s0, loc, i, b) && AddedBelow(s0, loc, i, b).1 == 0 && b != 0
    ensures !Room(AddedBelow(s0, loc, i, b).0, loc, i + 1)
  {
    AboveLinked(i);
    CanEnsureAbove(s0, loc, i, b);
    EnsuredAllIs(s0, {b}, loc, Above(i));
    var (s1, holder) := EnsuredAll(s0, {b}, loc, Above(i));
    var k :| k in Above(i) && Part(loc, k) !in s1.at;
    BelowHangs(s0, loc, i, b, s1);
    BackStuck(s1, loc, i, b, k);
  }

  lemma BackStuck(s1: Fs, loc: nat, i: nat, b: nat, k: Kind)
    requires Good(s1, {b}) == true && s1.place == map[] && i < MAX_BLOCKS && Part(loc, Data(i)) !in s1.at
    requires k in WayTo(i) && !k.Data? && Part(loc, k) !in s1.at
    ensures HeadOk(s1.image) && OnDevice(s1.image, b) && !Room(GivenBack(s1, b), loc, i + 1)
  {
    assert b in {b};
    GivenBackIs(s1, {b}, loc, b);
    OneFree(loc, i, b, k, GivenBack(s1, b));
  }

  /** After an append has failed, it would fail again. */
  lemma AddedStuck(s: Fs, loc: nat)
    requires CanAdd(s, loc) && Added(s, loc).1 == 0
    ensures !Room(Added(s, loc).0, loc, s.inodes[loc].blocks + 1)
  {
    TakenForAdd(s, loc);
    var (s0, b) := Taken(s);
    if b == 0 {
      TakenIs(s, {}, loc);
      DataNext(s, loc);
      NothingFree(loc, s.inodes[loc].blocks, s0);
    } else {
      BelowStuck(s0, loc, s.inodes[loc].blocks, b);
    }
  }

  /** s' is sound, and on the way from s no block has been lost or put to any other use than to give loc n blocks. */
  ghost predicate GrewFor(s: Fs, loc: nat, n: nat, s': Fs)
    requires n <= MAX_BLOCKS
  {
    Sound(s, {}) && Sound(s', {}) && Conserved(s, {}, s', {}) && OnlyNeeded(s, loc, n, s')
  }

  /** What the file lacked for n blocks is taken, if it has them now; if it lacks too much now, it did before. */
  lemma RoomWas(s: Fs, loc: nat, n: nat, s': Fs)
    requires n <= MAX_BLOCKS && GrewFor(s, loc, n, s')
    ensures Room(s, loc, n) <==> Room(s', loc, n)
    ensures loc in s'.inodes && n <= s'.inodes[loc].blocks ==>
              Room(s, loc, n) && |s'.place| == |s.place| - |Lacking(s, loc, n)|
  {
    RoomStays(s, loc, n, s');
    if loc in s'.inodes && n <= s'.inodes[loc].blocks {
      NoneLacking(s', loc, n);
    }
  }

  lemma AddedGrew(s: Fs, loc: nat)
    requires CanAdd(s, loc)
    ensures var (s', block) := Added(s, loc); var n := s.inodes[loc].blocks + 1;
      GrewFor(s, loc, n, s') == true && (block != 0 ==> loc in s'.inodes && s'.inodes[loc].blocks == n)
  {
    AddedDone(s, loc);
    AddedNeeded(s, loc, Added(s, loc).0, Added(s, loc).1);
  }

  lemma AddedRoom(s: Fs, loc: nat)
    requires CanAdd(s, loc)
    ensures var (s', block) := Added(s, loc); var n := s.inodes[loc].blocks + 1;
      && GrewFor(s, loc, n, s') == true && (block != 0 <==> Room(s, loc, n))
      && (block != 0 ==> |s'.place| == |s.place| - |Lacking(s, loc, n)|)
  {
    AddedGrew(s, loc);
    var (s', block) := Added(s, loc); var n := s.inodes[loc].blocks + 1;
    if block == 0 {
      AddedStuck(s, loc);
      assert !Room(s', loc, n);
      RoomWas(s, loc, n, s');
      assert !Room(s, loc, n);
    } else {
      RoomWas(s, loc, n, s');
    }
  }

  /**
    add_block_to_node appends the block it answers to the file, or changes no
    file; it fails exactly if the block and the pointer blocks that are missing
    for it are more than there are free blocks, and otherwise takes just these.
   */
  lemma AddedIs(s: Fs, loc: nat)
    requires CanAdd(s, loc)
    ensures AddDone(s, loc, Added(s, loc).0, Added(s, loc).1)
    ensures var (s', block) := Added(s, loc); var n := s.inodes[loc].blocks + 1;
      && GrewFor(s, loc, n, s') == true && (block != 0 <==> Room(s, loc, n))
      && (block != 0 ==> |s'.place| == |s.place| - |Lacking(s, loc, n)|)
  {
    AddedDone(s, loc);
    AddedRoom(s, loc);
  }

  // ----- growing block by block -----

  /** Up to block 523 no block of pointers to pointers is needed. */
  lemma SmallIsClean(s: Fs, loc: nat, n: nat)
    requires n <= FIRST_DBL
    ensures CanGrow(s, loc, n)
  {
    NoneHoldPointers(loc, n);
  }

  lemma {:induction false} NoneHoldPointers(loc: nat, n: nat)
    requires n <= FIRST_DBL
    ensures forall p :: p in Needed(loc, n) ==> !HoldsPointers(p.kind)
  {
    if n > 0 {
      NoneHoldPointers(loc, n - 1);
    }
  }

  lemma NextLacks(s: Fs, loc: nat, p: Part)
    requires Mapped(s) && loc in s.inodes && s.inodes[loc].blocks < MAX_BLOCKS
    requires p in Lacking(s, loc, s.inodes[loc].blocks + 1)
    ensures p.kind in WayTo(s.inodes[loc].blocks) && p == Part(loc, p.kind) && p !in s.at
  {
    NoneLacking(s, loc, s.inodes[loc].blocks);
    assert p !in Lacking(s, loc, s.inodes[loc].blocks);
  }

  /** For one block more, only what leads to that block can be missing. */
  lemma NextNeeds(s: Fs, loc: nat)
    requires Mapped(s) && loc in s.inodes && s.inodes[loc].blocks < MAX_BLOCKS
    ensures NeedsClean(s, loc, s.inodes[loc].blocks + 1) <==>
            exists k :: k in WayTo(s.inodes[loc].blocks) && HoldsPointers(k) && Part(loc, k) !in s.at
  {
    var n := s.inodes[loc].blocks + 1;
    if NeedsClean(s, loc, n) {
      var p :| p in Lacking(s, loc, n) && HoldsPointers(p.kind);
      NextLacks(s, loc, p);
    }
    if k :| k in WayTo(n - 1) && HoldsPointers(k) && Part(loc, k) !in s.at {
      assert Part(loc, k) in Lacking(s, loc, n);
    }
  }

  lemma NeedsMore(s: Fs, loc: nat, m: nat, n: nat)
    requires m <= n && CanGrow(s, loc, n)
    ensures CanGrow(s, loc, m)
  {
    NeededMore(loc, m, n);
    if NeedsClean(s, loc, m) {
      var p :| p in Lacking(s, loc, m) && HoldsPointers(p.kind);
      assert p in Lacking(s, loc, n);
    }
  }

  lemma NeedsLess(s: Fs, loc: nat, n: nat, s': Fs)
    requires CanGrow(s, loc, n) && (forall p :: p in s.at ==> p in s'.at) && (AllClean(s, {}) ==> AllClean(s', {}))
    ensures CanGrow(s', loc, n)
  {
    if NeedsClean(s', loc, n) {
      var p :| p in Lacking(s', loc, n) && HoldsPointers(p.kind);
      assert p in Lacking(s, loc, n);
    }
  }

  lemma GrewNothing(s: Fs, loc: nat, n: nat)
    requires n <= MAX_BLOCKS && Sound(s, {})
    ensures GrewFor(s, loc, n, s)
  {
  }

  lemma GrewMore(s: Fs, loc: nat, m: nat, n: nat, s1: Fs)
    requires m <= n <= MAX_BLOCKS && GrewFor(s, loc, m, s1)
    ensures GrewFor(s, loc, n, s1)
  {
    NeededMore(loc, m, n);
  }

  lemma GrewTwice(s: Fs, loc: nat, m: nat, s1: Fs, n: nat, s2: Fs)
    requires m <= n <= MAX_BLOCKS && GrewFor(s, loc, m, s1) && GrewFor(s1, loc, n, s2)
    ensures GrewFor(s, loc, n, s2)
  {
    NeededMore(loc, m, n);
  }

  /** As far as n, loc can have m blocks exactly if m is no more than that many. */
  ghost predicate Reaches(s: Fs, loc: nat, n: nat, blocks: nat)
    requires n <= MAX_BLOCKS
  {
    forall m {:trigger Room(s, loc, m)} :: 0 <= m <= n ==> (Room(s, loc, m) <==> m <= blocks)
  }

  /** The file has got all it was to get. */
  lemma ReachedAll(s: Fs, loc: nat, n: nat, s': Fs)
    requires loc in s'.inodes && n <= s'.inodes[loc].blocks <= MAX_BLOCKS
    requires GrewFor(s, loc, s'.inodes[loc].blocks, s')
    ensures Reaches(s, loc, n, s'.inodes[loc].blocks)
  {
    var blocks := s'.inodes[loc].blocks;
    RoomWas(s, loc, blocks, s');
    forall m | 0 <= m <= n ensures Room(s, loc, m) {
      RoomLess(s, loc, m, blocks);
    }
  }

  /** The file has got as far as s1, and can get no further from there. */
  lemma ReachedEnd(s: Fs, loc: nat, n: nat, s1: Fs, blocks: nat)
    requires n <= MAX_BLOCKS && blocks <= MAX_BLOCKS && loc in s1.inodes && s1.inodes[loc].blocks == blocks
    requires GrewFor(s, loc, blocks, s1) && Reaches(s1, loc, n, blocks)
    ensures Reaches(s, loc, n, blocks)
  {
    RoomWas(s, loc, blocks, s1);
    forall m | 0 <= m <= n ensures Room(s, loc, m) <==> m <= blocks {
      if m <= blocks {
        RoomLess(s, loc, m, blocks);
      } else {
        NoRoomWas(s, loc, blocks, m, s1);
      }
    }
  }

  lemma NoRoomWas(s: Fs, loc: nat, m: nat, n: nat, s1: Fs)
    requires m <= n <= MAX_BLOCKS && GrewFor(s, loc, m, s1) && !Room(s1, loc, n)
    ensures !Room(s, loc, n)
  {
    GrewMore(s, loc, m, n, s1);
    if Room(s, loc, n) {
      RoomStays(s, loc, n, s1);
      assert false;
    }
  }

  /** There is no room for one block more than there are. */
  lemma Between(s: Fs, loc: nat, blocks: nat, more: nat, n: nat)
    requires more == blocks + 1 <= MAX_BLOCKS && n <= MAX_BLOCKS && Room(s, loc, blocks) && !Room(s, loc, more)
    ensures Reaches(s, loc, n, blocks)
  {
    forall m | 0 <= m <= n ensures Room(s, loc, m) <==> m <= blocks {
      if m <= blocks {
        RoomLess(s, loc, m, blocks);
      } else if Room(s, loc, m) {
        RoomLess(s, loc, more, m);
        assert false;
      }
    }
  }

  lemma EndsHere(s: Fs, loc: nat, blocks: nat, more: nat, s': Fs, n: nat)
    requires loc in s.inodes && s.inodes[loc].blocks == blocks
    requires more == blocks + 1 <= MAX_BLOCKS && n <= MAX_BLOCKS
    requires GrewFor(s, loc, more, s') == true && !Room(s', loc, more)
    ensures Reaches(s, loc, n, blocks) == true
  {
    NoneLacking(s, loc, blocks);
    NoRoomWas(s, loc, more, more, s');
    Between(s, loc, blocks, more, n);
  }

  /** A failed append: the file can get no further. */
  lemma AddedEnds(s: Fs, loc: nat, n: nat)
    requires CanAdd(s, loc) && n <= MAX_BLOCKS
    ensures Added(s, loc).1 == 0 ==> Reaches(s, loc, n, s.inodes[loc].blocks) == true
  {
    AddedGrew(s, loc);
    var (s', block) := Added(s, loc);
    var more := s.inodes[loc].blocks + 1;
    if block == 0 {
      AddedStuck(s, loc);
      assert !Room(s', loc, more);
      EndsHere(s, loc, more - 1, more, s', n);
    }
  }
}
