/**
  The free list of disk.c: the superblock points to a chain of free blocks,
  each of which holds the addresses of 511 more and, in its last word, the
  next block of the chain.
 */
module FreeList {
  import opened Device

  /** Where a free block is known: in the chain, or in a word of a chain block. */
  datatype Place = Chained | Spare(holder: nat, slot: nat)

  type Places = map<nat, Place>

  /** The word of the superblock. */
  function Head(d: Image): nat
    requires |d| >= 4096
  {
    Slot(d, 0, 0)
  }

  function First(chain: seq<nat>): nat
  {
    if chain == [] then 0 else chain[0]
  }

  function Next(chain: seq<nat>, k: nat): nat
  {
    if k + 1 < |chain| then chain[k + 1] else 0
  }

  ghost predicate LinkOk(d: Image, chain: seq<nat>, place: Places, k: nat)
    requires k < |chain|
  {
    var c := chain[k];
    c > 0 && OnDevice(d, c) && c in place && place[c] == Chained && Slot(d, c, 511) == Next(chain, k)
  }

  ghost predicate CellOk(d: Image, place: Places, c: nat, i: nat)
  {
    OnDevice(d, c) && i < 511 && (Slot(d, c, i) != 0 ==> Slot(d, c, i) in place && place[Slot(d, c, i)] == Spare(c, i))
  }

  ghost predicate PlaceOk(d: Image, chain: seq<nat>, place: Places, b: nat)
    requires b in place
  {
    && b > 0 && OnDevice(d, b)
    && match place[b]
       case Chained => b in chain
       case Spare(c, i) => c in chain && OnDevice(d, c) && i < 511 && Slot(d, c, i) == b
  }

  ghost predicate Distinct(chain: seq<nat>)
  {
    forall k, l :: 0 <= k < l < |chain| ==> chain[k] != chain[l]
  }

  /** The list on the device is the chain, and the free blocks are those with a place, each known exactly once. */
  ghost predicate WellFormed(d: Image, chain: seq<nat>, place: Places)
  {
    && 4096 <= |d| <= WORDS && Head(d) == First(chain) && Distinct(chain)
    && (forall k {:trigger LinkOk(d, chain, place, k)} :: 0 <= k < |chain| ==> LinkOk(d, chain, place, k))
    && (forall c, i {:trigger CellOk(d, place, c, i)} :: c in chain && 0 <= i < 511 ==> CellOk(d, place, c, i))
    && (forall b {:trigger PlaceOk(d, chain, place, b)} :: b in place ==> PlaceOk(d, chain, place, b))
  }

  // ----- searching a chain block -----

  function FirstUsed(d: Image, b: nat, i: nat): (k: nat)
    requires OnDevice(d, b) && i <= SLOTS
    ensures i <= k <= SLOTS && (k < SLOTS ==> Slot(d, b, k) != 0)
    ensures forall j {:trigger Slot(d, b, j)} :: i <= j < k ==> Slot(d, b, j) == 0
    decreases SLOTS - i
  {
    if i == SLOTS || Slot(d, b, i) != 0 then i else FirstUsed(d, b, i + 1)
  }

  function FirstUnused(d: Image, b: nat, i: nat): (k: nat)
    requires OnDevice(d, b) && i <= SLOTS
    ensures i <= k <= SLOTS && (k < SLOTS ==> Slot(d, b, k) == 0)
    ensures forall j {:trigger Slot(d, b, j)} :: i <= j < k ==> Slot(d, b, j) != 0
    decreases SLOTS - i
  {
    if i == SLOTS || Slot(d, b, i) == 0 then i else FirstUnused(d, b, i + 1)
  }

  // ----- allocate_block and free_block, as functions of the image -----

  predicate HeadOk(d: Image)
  {
    |d| >= 4096 && OnDevice(d, Head(d))
  }

  /** The image after allocate_block, and the block it answers. */
  function Allocated(d: Image): (Image, nat)
    requires HeadOk(d)
  {
    var head := Head(d);
    if head == 0 then (d, 0)
    else
      var k := FirstUsed(d, head, 0);
      if k < 511 then (PutSlot(d, head, k, 0), Slot(d, head, k))
      else if k == 511 then (PutSlot(PutSlot(d, head, 511, 0), 0, 0, Slot(d, head, 511)), head)
      else (PutSlot(d, 0, 0, 0), head)
  }

  /** The image after free_block. */
  function Freed(d: Image, b: nat): Image
    requires HeadOk(d) && OnDevice(d, b)
  {
    var head := Head(d);
    if head == 0 then ZeroBlock(PutSlot(d, 0, 0, b), b)
    else
      var k := FirstUnused(d, head, 0);
      if k < 511 then PutSlot(d, head, k, b)
      else if k == 511 then ZeroBlock(PutSlot(d, head, 511, b), b)
      else PutSlot(PutSlot(ZeroBlock(d, b), b, 511, head), 0, 0, b)
  }

  function ChainAfterAllocate(d: Image, chain: seq<nat>): seq<nat>
    requires HeadOk(d)
  {
    if chain == [] || FirstUsed(d, Head(d), 0) < 511 then chain else chain[1..]
  }

  function ChainAfterFree(d: Image, chain: seq<nat>, b: nat): seq<nat>
    requires HeadOk(d)
  {
    if chain == [] then [b]
    else
      var k := FirstUnused(d, Head(d), 0);
      if k < 511 then chain else if k == 511 then chain + [b] else [b] + chain
  }

  function PlaceAfterFree(d: Image, place: Places, b: nat): Places
    requires HeadOk(d)
  {
    if Head(d) != 0 && FirstUnused(d, Head(d), 0) < 511
    then place[b := Spare(Head(d), FirstUnused(d, Head(d), 0))]
    else place[b := Chained]
  }

  /** Every word of the block is zero. */
  ghost predicate Blank(d: Image, b: nat)
  {
    OnDevice(d, b) && forall j {:trigger Slot(d, b, j)} :: 0 <= j < SLOTS ==> Slot(d, b, j) == 0
  }

  /** A blank block has only zero bytes. */
  lemma BlankByte(d: Image, b: nat, k: nat)
    requires Blank(d, b) && k < 4096
    ensures Block(d, b)[k] == 0
  {
    assert Slot(d, b, k / 8) == 0;
    ZeroBytes(Block(d, b)[8 * (k / 8)..8 * (k / 8) + 8], k % 8);
  }

  // ----- how blocks that are not written stay as they are -----

  lemma SameSlots(d: Image, d': Image, s: set<nat>, b: nat)
    requires SameBut(d, d', s) && OnDevice(d, b) && b !in s
    ensures OnDevice(d', b) && forall j {:trigger Slot(d', b, j)} :: 0 <= j < SLOTS ==> Slot(d', b, j) == Slot(d, b, j)
  {
    assert Block(d', b) == Block(d, b);
  }

  lemma SameTwice(d: Image, d1: Image, d2: Image, s: set<nat>, t: set<nat>)
    requires SameBut(d, d1, s) && SameBut(d1, d2, t)
    ensures SameBut(d, d2, s + t)
  {
    forall b: nat | OnDevice(d, b) && b !in s + t ensures Block(d2, b) == Block(d, b) {
      assert Block(d1, b) == Block(d, b);
    }
  }

  lemma SameMore(d: Image, d': Image, s: set<nat>, t: set<nat>)
    requires SameBut(d, d', s) && s <= t
    ensures SameBut(d, d', t)
  {
  }

  lemma HeadLink(d: Image, chain: seq<nat>, place: Places)
    requires WellFormed(d, chain, place)
    ensures HeadOk(d) && (Head(d) == 0 <==> chain == []) && (chain == [] <==> place == map[])
    ensures chain != [] ==> Head(d) == chain[0] && LinkOk(d, chain, place, 0)
  {
    if chain != [] {
      assert LinkOk(d, chain, place, 0);
    }
    if place != map[] {
      var b :| b in place;
      assert PlaceOk(d, chain, place, b);
    }
  }

  /** An entry of the head block is taken out. */
  lemma TakeEntry(d: Image, chain: seq<nat>, place: Places, k: nat, d': Image)
    requires WellFormed(d, chain, place) && chain != [] && k < 511 && OnDevice(d, chain[0]) && Slot(d, chain[0], k) != 0
    requires SlotPut(d, chain[0], k, 0, d')
    ensures Slot(d, chain[0], k) in place && WellFormed(d', chain, place - {Slot(d, chain[0], k)})
  {
    var c0 := chain[0];
    var r := Slot(d, c0, k);
    var place' := place - {r};
    assert LinkOk(d, chain, place, 0) && CellOk(d, place, c0, k);
    SameSlots(d, d', {c0}, 0);
    forall j | 0 <= j < |chain| ensures LinkOk(d', chain, place', j) {
      assert LinkOk(d, chain, place, j);
      assert j > 0 ==> chain[j] != c0;
    }
    forall c, i | c in chain && 0 <= i < 511 ensures CellOk(d', place', c, i) {
      assert CellOk(d, place, c, i);
    }
    forall b | b in place' ensures PlaceOk(d', chain, place', b) {
      assert PlaceOk(d, chain, place, b);
    }
  }

  /** The head block itself, which holds no entry any more, is taken out. */
  lemma TakeHead(d: Image, chain: seq<nat>, place: Places, d': Image)
    requires WellFormed(d, chain, place) && chain != [] && OnDevice(d, chain[0])
    requires forall j {:trigger Slot(d, chain[0], j)} :: 0 <= j < 511 ==> Slot(d, chain[0], j) == 0
    requires SameBut(d, d', {chain[0], 0}) && Head(d') == First(chain[1..])
    ensures WellFormed(d', chain[1..], place - {chain[0]})
  {
    var c0, rest, place' := chain[0], chain[1..], place - {chain[0]};
    assert LinkOk(d, chain, place, 0);
    forall j | 0 <= j < |rest| ensures LinkOk(d', rest, place', j) {
      assert LinkOk(d, chain, place, j + 1);
      SameSlots(d, d', {c0, 0}, rest[j]);
    }
    forall c, i | c in rest && 0 <= i < 511 ensures CellOk(d', place', c, i) {
      assert CellOk(d, place, c, i);
      RestLink(d, chain, place, c);
      SameSlots(d, d', {c0, 0}, c);
      assert Slot(d', c, i) == Slot(d, c, i);
    }
    forall b | b in place' ensures PlaceOk(d', rest, place', b) {
      assert PlaceOk(d, chain, place, b);
      if place[b].Spare? {
        var c := place[b].holder;
        assert c != c0;
        RestLink(d, chain, place, c);
        SameSlots(d, d', {c0, 0}, c);
      }
    }
  }

  lemma RestLink(d: Image, chain: seq<nat>, place: Places, c: nat)
    requires WellFormed(d, chain, place) && c in chain
    ensures c > 0 && OnDevice(d, c) && c in place && place[c] == Chained
    ensures c == chain[0] || c in chain[1..]
  {
    var k :| 0 <= k < |chain| && chain[k] == c;
    assert LinkOk(d, chain, place, k);
    assert k > 0 ==> chain[1..][k - 1] == c;
  }

  /** allocate_block hands out exactly one free block, and none only if there is none. */
  lemma AllocateTakes(d: Image, chain: seq<nat>, place: Places)
    requires WellFormed(d, chain, place)
    ensures HeadOk(d)
    ensures var (d', r) := Allocated(d);
      && (r == 0 <==> place == map[])
      && (r != 0 ==> r in place && r > 0 && OnDevice(d, r))
      && WellFormed(d', ChainAfterAllocate(d, chain), place - {r})
      && SameBut(d, d', {Head(d), 0})
      && (r != 0 && place[r] == Chained ==> Blank(d', r))
  {
    HeadLink(d, chain, place);
    if chain == [] {
      assert place - {0} == place;
    } else {
      var head, k := Head(d), FirstUsed(d, Head(d), 0);
      SlotBound(d, head, 511);
      if k < 511 {
        PutSlotIs(d, head, k, 0);
        TakeEntry(d, chain, place, k, Allocated(d).0);
        assert CellOk(d, place, head, k) && PlaceOk(d, chain, place, Slot(d, head, k));
      } else if k == 511 {
        PopFull(d, chain, place);
      } else {
        PopLast(d, chain, place);
      }
    }
  }

  lemma PopFull(d: Image, chain: seq<nat>, place: Places)
    requires WellFormed(d, chain, place) && HeadOk(d) && chain != [] && FirstUsed(d, Head(d), 0) == 511
    ensures var (d', r) := Allocated(d);
      && r == chain[0] && r in place && WellFormed(d', chain[1..], place - {r}) && SameBut(d, d', {r, 0})
      && Blank(d', r)
  {
    HeadLink(d, chain, place);
    var head, v := Head(d), Slot(d, Head(d), 511);
    SlotBound(d, head, 511);
    var d1 := PutSlot(d, head, 511, 0);
    PutSlotIs(d, head, 511, 0);
    PutSlotIs(d1, 0, 0, v);
    var d2 := PutSlot(d1, 0, 0, v);
    SameTwice(d, d1, d2, {head}, {0});
    assert {head} + {0} == {head, 0};
    TakeHead(d, chain, place, d2);
    SameSlots(d1, d2, {0}, head);
  }

  lemma PopLast(d: Image, chain: seq<nat>, place: Places)
    requires WellFormed(d, chain, place) && HeadOk(d) && chain != [] && FirstUsed(d, Head(d), 0) == 512
    ensures var (d', r) := Allocated(d);
      && r == chain[0] && r in place && WellFormed(d', chain[1..], place - {r}) && SameBut(d, d', {r, 0})
      && Blank(d', r)
  {
    HeadLink(d, chain, place);
    var head := Head(d);
    PutSlotIs(d, 0, 0, 0);
    var d' := PutSlot(d, 0, 0, 0);
    assert First(chain[1..]) == 0;
    SameSlots(d, d', {0}, head);
    TakeHead(d, chain, place, d');
  }

  // ----- free_block -----

  /** b can be given back: a block of the device that is not free already. */
  ghost predicate CanFree(d: Image, place: Places, b: nat)
  {
    b > 0 && OnDevice(d, b) && b !in place
  }

  /** A block becomes an entry of the head block. */
  lemma AddEntry(d: Image, chain: seq<nat>, place: Places, k: nat, b: nat, d': Image)
    requires WellFormed(d, chain, place) && chain != [] && k < 511 && OnDevice(d, chain[0]) && Slot(d, chain[0], k) == 0
    requires CanFree(d, place, b) && SlotPut(d, chain[0], k, b, d')
    ensures WellFormed(d', chain, place[b := Spare(chain[0], k)])
  {
    var c0 := chain[0];
    var place' := place[b := Spare(c0, k)];
    assert LinkOk(d, chain, place, 0);
    SameSlots(d, d', {c0}, 0);
    forall j | 0 <= j < |chain| ensures LinkOk(d', chain, place', j) {
      assert LinkOk(d, chain, place, j);
      assert j > 0 ==> chain[j] != c0;
    }
    forall c, i | c in chain && 0 <= i < 511 ensures CellOk(d', place', c, i) {
      assert CellOk(d, place, c, i);
    }
    forall x | x in place' ensures PlaceOk(d', chain, place', x) {
      assert x != b ==> PlaceOk(d, chain, place, x);
    }
  }

  /** A blank block becomes the head, linked to the chain there was. */
  lemma AddHead(d: Image, chain: seq<nat>, place: Places, b: nat, d': Image)
    requires WellFormed(d, chain, place) && CanFree(d, place, b)
    requires SameBut(d, d', {b, 0}) && Head(d') == b
    requires forall j {:trigger Slot(d', b, j)} :: 0 <= j < SLOTS ==>
               Slot(d', b, j) == if j == 511 then First(chain) else 0
    ensures WellFormed(d', [b] + chain, place[b := Chained])
  {
    var all, place' := [b] + chain, place[b := Chained];
    forall j | 0 <= j < |all| ensures LinkOk(d', all, place', j) {
      if j > 0 {
        assert LinkOk(d, chain, place, j - 1);
        SameSlots(d, d', {b, 0}, chain[j - 1]);
      }
    }
    forall k, l | 0 <= k < l < |all| ensures all[k] != all[l] {
      assert LinkOk(d, chain, place, l - 1);
    }
    forall c, i | c in all && 0 <= i < 511 ensures CellOk(d', place', c, i) {
      if c != b {
        assert CellOk(d, place, c, i);
        RestLink(d, chain, place, c);
        SameSlots(d, d', {b, 0}, c);
        assert Slot(d', c, i) == Slot(d, c, i);
      }
    }
    forall x | x in place' ensures PlaceOk(d', all, place', x) {
      if x != b {
        assert PlaceOk(d, chain, place, x);
        if place[x].Spare? {
          RestLink(d, chain, place, place[x].holder);
          SameSlots(d, d', {b, 0}, place[x].holder);
        }
      }
    }
  }

  /** A blank block is linked from the last word of the only block of the chain. */
  lemma AddSecond(d: Image, chain: seq<nat>, place: Places, b: nat, d': Image)
    requires WellFormed(d, chain, place) && CanFree(d, place, b) && |chain| == 1 && OnDevice(d, chain[0])
    requires SameBut(d, d', {b, chain[0]}) && Blank(d', b)
    requires forall j {:trigger Slot(d', chain[0], j)} :: 0 <= j < SLOTS ==>
               Slot(d', chain[0], j) == if j == 511 then b else Slot(d, chain[0], j)
    ensures WellFormed(d', chain + [b], place[b := Chained])
  {
    var c0, both, place' := chain[0], chain + [b], place[b := Chained];
    assert LinkOk(d, chain, place, 0);
    SameSlots(d, d', {b, c0}, 0);
    assert LinkOk(d', both, place', 0) && LinkOk(d', both, place', 1);
    forall c, i | c in both && 0 <= i < 511 ensures CellOk(d', place', c, i) {
      assert c != b ==> CellOk(d, place, c, i);
    }
    forall x | x in place' ensures PlaceOk(d', both, place', x) {
      assert x != b ==> PlaceOk(d, chain, place, x);
    }
  }

  /** free_block adds exactly the block it is given. */
  lemma FreeAdds(d: Image, chain: seq<nat>, place: Places, b: nat)
    requires WellFormed(d, chain, place) && CanFree(d, place, b)
    ensures HeadOk(d)
    ensures WellFormed(Freed(d, b), ChainAfterFree(d, chain, b), PlaceAfterFree(d, place, b))
    ensures PlaceAfterFree(d, place, b).Keys == place.Keys + {b}
    ensures SameBut(d, Freed(d, b), {Head(d), 0, b})
  {
    HeadLink(d, chain, place);
    var head := Head(d);
    if chain == [] {
      FreeFirst(d, chain, place, b);
      SameMore(d, Freed(d, b), {b, 0}, {head, 0, b});
    } else {
      var k := FirstUnused(d, head, 0);
      if k < 511 {
        PutSlotIs(d, head, k, b);
        AddEntry(d, chain, place, k, b, PutSlot(d, head, k, b));
        SameMore(d, Freed(d, b), {head}, {head, 0, b});
      } else if k == 511 {
        FreeSecond(d, chain, place, b);
        SameMore(d, Freed(d, b), {b, head}, {head, 0, b});
      } else {
        FreeHead(d, chain, place, b);
        SameMore(d, Freed(d, b), {b, 0}, {head, 0, b});
      }
    }
  }

  lemma FreeFirst(d: Image, chain: seq<nat>, place: Places, b: nat)
    requires WellFormed(d, chain, place) && CanFree(d, place, b) && HeadOk(d) && chain == [] && Head(d) == 0
    ensures WellFormed(Freed(d, b), [b], place[b := Chained]) && SameBut(d, Freed(d, b), {b, 0})
  {
    var d1 := PutSlot(d, 0, 0, b);
    PutSlotIs(d, 0, 0, b);
    ZeroBlockIs(d1, b);
    var d2 := ZeroBlock(d1, b);
    SameTwice(d, d1, d2, {0}, {b});
    assert {0} + {b} == {b, 0};
    SameSlots(d1, d2, {b}, 0);
    AddHead(d, chain, place, b, d2);
    assert [b] + chain == [b];
  }

  lemma FreeSecond(d: Image, chain: seq<nat>, place: Places, b: nat)
    requires WellFormed(d, chain, place) && CanFree(d, place, b) && HeadOk(d) && chain != []
    requires Head(d) == chain[0] && FirstUnused(d, Head(d), 0) == 511
    ensures WellFormed(Freed(d, b), chain + [b], place[b := Chained]) && SameBut(d, Freed(d, b), {b, Head(d)})
  {
    var head := Head(d);
    assert LinkOk(d, chain, place, 0);
    assert |chain| > 1 ==> LinkOk(d, chain, place, 1);
    var d1 := PutSlot(d, head, 511, b);
    PutSlotIs(d, head, 511, b);
    ZeroBlockIs(d1, b);
    var d2 := ZeroBlock(d1, b);
    SameTwice(d, d1, d2, {head}, {b});
    assert {head} + {b} == {b, head};
    SameSlots(d1, d2, {b}, head);
    AddSecond(d, chain, place, b, d2);
  }

  lemma FreeHead(d: Image, chain: seq<nat>, place: Places, b: nat)
    requires WellFormed(d, chain, place) && CanFree(d, place, b) && HeadOk(d) && chain != []
    requires Head(d) == chain[0] && FirstUnused(d, Head(d), 0) == 512
    ensures WellFormed(Freed(d, b), [b] + chain, place[b := Chained]) && SameBut(d, Freed(d, b), {b, 0})
  {
    var head := Head(d);
    assert LinkOk(d, chain, place, 0);
    var d1 := ZeroBlock(d, b);
    ZeroBlockIs(d, b);
    var d2 := PutSlot(d1, b, 511, head);
    PutSlotIs(d1, b, 511, head);
    var d3 := PutSlot(d2, 0, 0, b);
    PutSlotIs(d2, 0, 0, b);
    SameTwice(d, d1, d2, {b}, {b});
    SameTwice(d, d2, d3, {b} + {b}, {0});
    assert {b} + {b} + {0} == {b, 0};
    SameSlots(d2, d3, {0}, b);
    AddHead(d, chain, place, b, d3);
  }

  // ----- what a run of calls can rely on -----

  /** Clients write only what they hold, so the list is still there after a client's write. */
  lemma ClientWrites(d: Image, chain: seq<nat>, place: Places, d': Image, touched: set<nat>)
    requires WellFormed(d, chain, place) && SameBut(d, d', touched) && 0 !in touched && touched !! place.Keys
    ensures WellFormed(d', chain, place)
  {
    SameSlots(d, d', touched, 0);
    forall k | 0 <= k < |chain| ensures LinkOk(d', chain, place, k) {
      assert LinkOk(d, chain, place, k);
      SameSlots(d, d', touched, chain[k]);
    }
    forall c, i | c in chain && 0 <= i < 511 ensures CellOk(d', place, c, i) {
      assert CellOk(d, place, c, i);
      RestLink(d, chain, place, c);
      SameSlots(d, d', touched, c);
      assert Slot(d', c, i) == Slot(d, c, i);
    }
    forall b | b in place ensures PlaceOk(d', chain, place, b) {
      assert PlaceOk(d, chain, place, b);
      if place[b].Spare? {
        RestLink(d, chain, place, place[b].holder);
        SameSlots(d, d', touched, place[b].holder);
      }
    }
  }

  // ----- the free set, from the device alone -----

  /** The entries of one chain block. */
  function Entries(d: Image, c: nat): set<nat>
    requires OnDevice(d, c)
  {
    set i | 0 <= i < 511 && Slot(d, c, i) != 0 :: Slot(d, c, i)
  }

  /** The blocks the chain leads to: each chain block, its entries, and what follows its last word. */
  function FreeSet(d: Image, chain: seq<nat>): set<nat>
    requires forall k :: 0 <= k < |chain| ==> OnDevice(d, chain[k])
  {
    if chain == [] then {} else {chain[0]} + Entries(d, chain[0]) + FreeSet(d, chain[1..])
  }

  lemma {:induction false} InFreeSet(d: Image, chain: seq<nat>, b: nat)
    requires forall k :: 0 <= k < |chain| ==> OnDevice(d, chain[k])
    ensures b in FreeSet(d, chain) <==> b in chain || (exists c :: c in chain && OnDevice(d, c) && b in Entries(d, c))
  {
    if chain != [] {
      InFreeSet(d, chain[1..], b);
      assert forall c :: c in chain <==> c == chain[0] || c in chain[1..];
    }
  }

  /** The blocks with a place are exactly those the chain on the device leads to. */
  lemma PlacesAreFreeSet(d: Image, chain: seq<nat>, place: Places)
    requires WellFormed(d, chain, place)
    ensures forall k :: 0 <= k < |chain| ==> OnDevice(d, chain[k])
    ensures place.Keys == FreeSet(d, chain)
  {
    forall k | 0 <= k < |chain| ensures OnDevice(d, chain[k]) {
      assert LinkOk(d, chain, place, k);
    }
    forall b ensures b in place <==> b in FreeSet(d, chain) {
      InFreeSet(d, chain, b);
      if b in place {
        assert PlaceOk(d, chain, place, b);
        if place[b].Spare? {
          assert b in Entries(d, place[b].holder);
        }
      }
      if b in chain {
        RestLink(d, chain, place, b);
      }
      if c :| c in chain && OnDevice(d, c) && b in Entries(d, c) {
        var i :| 0 <= i < 511 && Slot(d, c, i) != 0 && b == Slot(d, c, i);
        assert CellOk(d, place, c, i);
      }
    }
  }

  /** One image has only one chain, so it has only one set of free blocks. */
  lemma {:induction false} ChainsAgree(d: Image, a: seq<nat>, pa: Places, b: seq<nat>, pb: Places, k: nat)
    requires WellFormed(d, a, pa) && WellFormed(d, b, pb) && k <= |a| && k <= |b|
    requires a[..k] == b[..k]
    ensures a == b
    decreases |a| - k
  {
    if k < |a| || k < |b| {
      if k == 0 {
        assert |a| > 0 ==> LinkOk(d, a, pa, 0);
        assert |b| > 0 ==> LinkOk(d, b, pb, 0);
      } else {
        assert a[..k][k - 1] == b[..k][k - 1];
        assert LinkOk(d, a, pa, k - 1) && LinkOk(d, b, pb, k - 1);
        assert k < |a| ==> LinkOk(d, a, pa, k);
        assert k < |b| ==> LinkOk(d, b, pb, k);
      }
      assert k < |a| && k < |b|;
      assert a[..k + 1] == a[..k] + [a[k]] && b[..k + 1] == b[..k] + [b[k]];
      ChainsAgree(d, a, pa, b, pb, k + 1);
    }
  }

  /** The device holds a free list. */
  ghost predicate ListSound(d: Image)
  {
    exists chain, place :: WellFormed(d, chain, place)
  }

  /** The free blocks, read off the device. */
  ghost function FreeBlocks(d: Image): (free: set<nat>)
    requires ListSound(d)
    ensures exists chain, place :: WellFormed(d, chain, place) && free == place.Keys
  {
    var chain, place :| WellFormed(d, chain, place);
    PlacesAreFreeSet(d, chain, place);
    FreeSet(d, chain)
  }

  lemma FreeBlocksAre(d: Image, chain: seq<nat>, place: Places)
    requires WellFormed(d, chain, place)
    ensures ListSound(d) && FreeBlocks(d) == place.Keys
  {
    var c, p :| WellFormed(d, c, p) && FreeBlocks(d) == p.Keys;
    PlacesAreFreeSet(d, c, p);
    PlacesAreFreeSet(d, chain, place);
    ChainsAgree(d, c, p, chain, place, 0);
  }

  // ----- runs of calls and of client writes -----

  /** Gets(0) is a call that finds nothing; Writes(s) is whatever clients write to the blocks in s. */
  datatype Call = Gets(r: nat) | Gives(b: nat) | Writes(touched: set<nat>)

  /** What allocate_block, free_block, or the clients make of the device. */
  ghost predicate Does(d: Image, e: Call, d': Image)
  {
    match e
    case Gets(r) => HeadOk(d) && Allocated(d) == (d', r)
    case Gives(b) => HeadOk(d) && OnDevice(d, b) && d' == Freed(d, b)
    case Writes(touched) => SameBut(d, d', touched)
  }

  ghost predicate IsRun(images: seq<Image>, calls: seq<Call>)
  {
    && |images| == |calls| + 1
    && forall i {:trigger calls[i]} :: 0 <= i < |calls| && ListSound(images[i]) ==>
         Does(images[i], calls[i], images[i + 1])
  }

  /** What the clients hold after k calls, if they held start at first. */
  function Held(calls: seq<Call>, k: nat, start: set<nat>): set<nat>
    requires k <= |calls|
  {
    if k == 0 then start
    else
      var h := Held(calls, k - 1, start);
      match calls[k - 1]
      case Gets(r) => if r == 0 then h else h + {r}
      case Gives(b) => h - {b}
      case Writes(_) => h
  }

  /** Clients give back only what they hold; of the blocks that go around, they write only those they hold. */
  predicate Honest(calls: seq<Call>, start: set<nat>, around: set<nat>)
  {
    forall k {:trigger calls[k]} :: 0 <= k < |calls| ==>
      match calls[k]
      case Gets(_) => true
      case Gives(b) => b in Held(calls, k, start)
      case Writes(touched) => 0 !in touched && touched * around <= Held(calls, k, start)
  }

  /** The free blocks and those that clients hold are the ones that were there at the start, each in one place. */
  ghost predicate NoneLost(d: Image, held: set<nat>, around: set<nat>)
  {
    && ListSound(d) && FreeBlocks(d) + held == around && FreeBlocks(d) !! held
    && forall b :: b in around ==> b > 0 && OnDevice(d, b)
  }

  lemma GetsConserves(d: Image, held: set<nat>, around: set<nat>)
    requires NoneLost(d, held, around)
    ensures HeadOk(d)
    ensures var (d', r) := Allocated(d);
      && (r == 0 <==> FreeBlocks(d) == {}) && (r != 0 ==> r in FreeBlocks(d))
      && NoneLost(d', if r == 0 then held else held + {r}, around)
  {
    var chain, place :| WellFormed(d, chain, place);
    AllocateTakes(d, chain, place);
    FreeBlocksTaken(d, chain, place);
  }

  /** allocate_block takes its answer, if it is not 0, out of the free blocks. */
  lemma FreeBlocksTaken(d: Image, chain: seq<nat>, place: Places)
    requires WellFormed(d, chain, place)
    ensures ListSound(d) && HeadOk(d)
    ensures var (d', r) := Allocated(d);
      && ListSound(d') && |d'| == |d| && FreeBlocks(d') == FreeBlocks(d) - {r}
      && (r == 0 <==> FreeBlocks(d) == {}) && (r != 0 ==> r in FreeBlocks(d))
  {
    AllocateTakes(d, chain, place);
    FreeBlocksAre(d, chain, place);
    var (d', r) := Allocated(d);
    FreeBlocksAre(d', ChainAfterAllocate(d, chain), place - {r});
  }

  lemma GivesConserves(d: Image, held: set<nat>, around: set<nat>, b: nat)
    requires NoneLost(d, held, around) && b in held
    ensures HeadOk(d) && OnDevice(d, b) && NoneLost(Freed(d, b), held - {b}, around)
  {
    var chain, place :| WellFormed(d, chain, place);
    FreeBlocksAre(d, chain, place);
    assert b in around;
    FreeAdds(d, chain, place, b);
    FreeBlocksAre(Freed(d, b), ChainAfterFree(d, chain, b), PlaceAfterFree(d, place, b));
  }

  lemma WritesConserve(d: Image, d': Image, held: set<nat>, around: set<nat>, touched: set<nat>)
    requires NoneLost(d, held, around) && SameBut(d, d', touched) && 0 !in touched && touched * around <= held
    ensures NoneLost(d', held, around)
  {
    var chain, place :| WellFormed(d, chain, place);
    FreeBlocksAre(d, chain, place);
    forall b | b in touched ensures b !in place.Keys {
      assert b in around ==> b in touched * around;
    }
    ClientWrites(d, chain, place, d', touched);
    FreeBlocksAre(d', chain, place);
  }

  /**
    In every run of calls on a sound device, between which clients write
    whatever they like to what they hold, the free list stays sound and no
    block is lost, doubled, or free while it is held.
   */
  lemma {:induction false} RunConserves(images: seq<Image>, calls: seq<Call>, k: nat, start: set<nat>, around: set<nat>)
    requires IsRun(images, calls) && k <= |calls|
    requires NoneLost(images[0], start, around) && Honest(calls, start, around)
    ensures NoneLost(images[k], Held(calls, k, start), around)
  {
    if k > 0 {
      RunConserves(images, calls, k - 1, start, around);
      var d, held := images[k - 1], Held(calls, k - 1, start);
      assert Does(d, calls[k - 1], images[k]);
      match calls[k - 1]
      case Gets(r) => GetsConserves(d, held, around);
      case Gives(b) => GivesConserves(d, held, around, b);
      case Writes(touched) => WritesConserve(d, images[k], held, around, touched);
    }
  }

  lemma GotWasFree(images: seq<Image>, calls: seq<Call>, start: set<nat>, around: set<nat>, j: nat)
    requires IsRun(images, calls) && NoneLost(images[0], start, around) && Honest(calls, start, around)
    requires j < |calls| && calls[j].Gets? && calls[j].r != 0
    ensures calls[j].r !in Held(calls, j, start)
  {
    RunConserves(images, calls, j, start, around);
    assert Does(images[j], calls[j], images[j + 1]);
    GetsConserves(images[j], Held(calls, j, start), around);
  }

  /** In every run a block that is handed out again has been given back in between. */
  lemma NeverTwice(images: seq<Image>, calls: seq<Call>, start: set<nat>, around: set<nat>, i: nat, j: nat)
    requires IsRun(images, calls) && NoneLost(images[0], start, around) && Honest(calls, start, around)
    requires i < j < |calls| && calls[i].Gets? && calls[j] == calls[i] && calls[i].r != 0
    ensures exists k :: i < k < j && calls[k] == Gives(calls[i].r)
  {
    var b := calls[i].r;
    assert b !in Held(calls, j, start) by {
      GotWasFree(images, calls, start, around, j);
    }
    assert b in Held(calls, i + 1, start);
    HeldUntilGiven(calls, start, i + 1, j, b);
  }

  lemma {:induction false} HeldUntilGiven(calls: seq<Call>, start: set<nat>, i: nat, j: nat, b: nat)
    requires i <= j <= |calls| && b in Held(calls, i, start) && b !in Held(calls, j, start)
    ensures exists k :: i <= k < j && calls[k] == Gives(b)
    decreases j
  {
    if calls[j - 1] != Gives(b) {
      HeldUntilGiven(calls, start, i, j - 1, b);
    }
  }

  /** allocate_block answers 0 in a run exactly when the clients hold every block that goes around. */
  lemma NoneLeft(images: seq<Image>, calls: seq<Call>, start: set<nat>, around: set<nat>, i: nat)
    requires IsRun(images, calls) && NoneLost(images[0], start, around) && Honest(calls, start, around)
    requires i < |calls| && calls[i].Gets?
    ensures calls[i].r == 0 <==> Held(calls, i, start) == around
  {
    RunConserves(images, calls, i, start, around);
    assert Does(images[i], calls[i], images[i + 1]);
    GetsConserves(images[i], Held(calls, i, start), around);
  }

  // ----- freeing and allocating again -----

  /**
    A block that is freed and allocated again at once: the same block comes
    back exactly if the list was empty, or the first word of its head block
    was free, or no word of it was.
   */
  lemma FreeThenAllocate(d: Image, chain: seq<nat>, place: Places, b: nat)
    requires WellFormed(d, chain, place) && CanFree(d, place, b)
    ensures HeadOk(d) && HeadOk(Freed(d, b))
    ensures Allocated(Freed(d, b)).1 == b <==>
              Head(d) == 0 || Slot(d, Head(d), 0) == 0 || FirstUnused(d, Head(d), 0) == SLOTS
  {
    FreeAdds(d, chain, place, b);
    var d', chain', place' := Freed(d, b), ChainAfterFree(d, chain, b), PlaceAfterFree(d, place, b);
    HeadLink(d, chain, place);
    HeadLink(d', chain', place');
    if chain == [] {
      FreedFirstWords(d, b);
    } else {
      var k := FirstUnused(d, Head(d), 0);
      if k < 512 {
        FreedEntry(d, b, k);
        assert b != Slot(d, Head(d), 0) by {
          assert CellOk(d, place, chain[0], 0);
        }
      } else {
        FreedHead(d, b);
      }
    }
  }

  lemma FreedFirstWords(d: Image, b: nat)
    requires HeadOk(d) && OnDevice(d, b) && b > 0 && Head(d) == 0 && |d| <= WORDS
    ensures Head(Freed(d, b)) == b && Blank(Freed(d, b), b)
  {
    PutSlotIs(d, 0, 0, b);
    var d1 := PutSlot(d, 0, 0, b);
    ZeroBlockIs(d1, b);
    SameSlots(d1, ZeroBlock(d1, b), {b}, 0);
  }

  lemma FreedEntry(d: Image, b: nat, k: nat)
    requires HeadOk(d) && OnDevice(d, b) && b > 0 && b != Head(d) && Head(d) != 0
      && k == FirstUnused(d, Head(d), 0) < 512 && |d| <= WORDS
    ensures Head(Freed(d, b)) == Head(d)
    ensures forall j {:trigger Slot(Freed(d, b), Head(d), j)} :: 0 <= j < SLOTS ==>
              Slot(Freed(d, b), Head(d), j) == if j == k then b else Slot(d, Head(d), j)
  {
    var head := Head(d);
    var d1 := PutSlot(d, head, k, b);
    PutSlotIs(d, head, k, b);
    SameSlots(d, d1, {head}, 0);
    if k == 511 {
      ZeroedApart(d1, b, head);
    }
  }

  lemma ZeroedApart(d: Image, b: nat, head: nat)
    requires OnDevice(d, b) && OnDevice(d, head) && OnDevice(d, 0) && b > 0 && b != head
    ensures |ZeroBlock(d, b)| == |d| && Head(ZeroBlock(d, b)) == Head(d)
    ensures forall j {:trigger Slot(ZeroBlock(d, b), head, j)} :: 0 <= j < SLOTS ==>
              Slot(ZeroBlock(d, b), head, j) == Slot(d, head, j)
  {
    ZeroBlockIs(d, b);
    SameSlots(d, ZeroBlock(d, b), {b}, 0);
    SameSlots(d, ZeroBlock(d, b), {b}, head);
  }

  lemma FreedHead(d: Image, b: nat)
    requires HeadOk(d) && OnDevice(d, b) && b > 0 && Head(d) != 0 && FirstUnused(d, Head(d), 0) == 512 && |d| <= WORDS
    ensures Head(Freed(d, b)) == b
    ensures forall j {:trigger Slot(Freed(d, b), b, j)} :: 0 <= j < SLOTS ==>
              Slot(Freed(d, b), b, j) == if j == 511 then Head(d) else 0
  {
    var head := Head(d);
    var d1 := ZeroBlock(d, b);
    ZeroBlockIs(d, b);
    var d2 := PutSlot(d1, b, 511, head);
    SlotBound(d, 0, 0);
    PutSlotIs(d1, b, 511, head);
    PutSlotIs(d2, 0, 0, b);
    SameSlots(d2, PutSlot(d2, 0, 0, b), {0}, b);
  }

  /**
    A block is allocated, freed and allocated again: the same block comes back
    unless the first allocation popped a chain block that only led on to the
    next one, and that next one has its first word in use and another one free.
   */
  lemma AllocateFreeAllocate(d: Image, chain: seq<nat>, place: Places)
    requires WellFormed(d, chain, place) && HeadOk(d) && Allocated(d).1 != 0
    ensures var (d1, r) := Allocated(d);
      && HeadOk(d1) && OnDevice(d1, r) && HeadOk(Freed(d1, r))
      && (Allocated(Freed(d1, r)).1 == r <==>
            FirstUsed(d, Head(d), 0) != 511 || Slot(d1, Head(d1), 0) == 0 || FirstUnused(d1, Head(d1), 0) == SLOTS)
  {
    AllocateTakes(d, chain, place);
    HeadLink(d, chain, place);
    var (d1, r) := Allocated(d);
    var chain1, place1 := ChainAfterAllocate(d, chain), place - {r};
    HeadLink(d1, chain1, place1);
    FreeThenAllocate(d1, chain1, place1, r);
    var k := FirstUsed(d, Head(d), 0);
    if k < 511 {
      SlotBound(d, Head(d), k);
      PutSlotIs(d, Head(d), k, 0);
      SameSlots(d, d1, {Head(d)}, 0);
    } else if k == 512 {
      assert chain1 == chain[1..] && Head(d1) == 0 by {
        PutSlotIs(d, 0, 0, 0);
      }
    } else {
      PopFullHead(d, chain, place);
    }
  }

  /** A chain block that only leads on to the next one is popped: the list is not empty then. */
  lemma PopFullHead(d: Image, chain: seq<nat>, place: Places)
    requires WellFormed(d, chain, place) && HeadOk(d) && chain != [] && FirstUsed(d, Head(d), 0) == 511
    ensures Head(Allocated(d).0) != 0
  {
    HeadLink(d, chain, place);
    var head, v := Head(d), Slot(d, Head(d), 511);
    SlotBound(d, head, 511);
    PutSlotIs(d, head, 511, 0);
    var d1 := PutSlot(d, head, 511, 0);
    SameSlots(d, d1, {head}, 0);
    PutSlotIs(d1, 0, 0, v);
  }

  // ----- a device on which the block freed is not the next one allocated -----

  /** Block b holds the word v at position i, and nothing else. */
  ghost predicate OneWord(d: Image, b: nat, i: nat, v: nat)
  {
    OnDevice(d, b) && forall j {:trigger Slot(d, b, j)} :: 0 <= j < SLOTS ==> Slot(d, b, j) == if j == i then v else 0
  }

  /** Two chain blocks: the first only leads on to the second, which knows one more block. */
  ghost predicate TwoLinks(d: Image)
  {
    |d| == 4 * 4096 && OneWord(d, 0, 0, 4096) && OneWord(d, 4096, 511, 8192) && OneWord(d, 8192, 0, 12288)
  }

  function TwoLinkImage(): Image
  {
    PutSlot(PutSlot(PutSlot(Zeros(4 * 4096), 0, 0, 4096), 4096, 511, 8192), 8192, 0, 12288)
  }

  lemma PutFirstWord(d: Image, b: nat, i: nat, v: nat)
    requires Blank(d, b) && i < SLOTS && v < WORDS
    ensures OneWord(PutSlot(d, b, i, v), b, i, v) && SameBut(d, PutSlot(d, b, i, v), {b})
  {
    PutSlotIs(d, b, i, v);
  }

  lemma ZerosBlank(n: nat, b: nat)
    requires OnDevice(Zeros(n), b)
    ensures Blank(Zeros(n), b)
  {
    forall j | 0 <= j < SLOTS ensures Slot(Zeros(n), b, j) == 0 {
      ZeroWord(Block(Zeros(n), b), j);
    }
  }

  lemma TwoLinkImageIs()
    ensures TwoLinks(TwoLinkImage())
  {
    var d := Zeros(4 * 4096);
    ZerosBlank(4 * 4096, 0);
    ZerosBlank(4 * 4096, 4096);
    ZerosBlank(4 * 4096, 8192);
    PutFirstWord(d, 0, 0, 4096);
    var d1 := PutSlot(d, 0, 0, 4096);
    SameSlots(d, d1, {0}, 4096);
    SameSlots(d, d1, {0}, 8192);
    PutFirstWord(d1, 4096, 511, 8192);
    var d2 := PutSlot(d1, 4096, 511, 8192);
    SameSlots(d1, d2, {4096}, 0);
    SameSlots(d1, d2, {4096}, 8192);
    PutFirstWord(d2, 8192, 0, 12288);
    var d3 := PutSlot(d2, 8192, 0, 12288);
    SameSlots(d2, d3, {8192}, 0);
    SameSlots(d2, d3, {8192}, 4096);
  }

  lemma TwoLinksSound(d: Image)
    requires TwoLinks(d)
    ensures WellFormed(d, [4096, 8192], map[4096 := Chained, 8192 := Chained, 12288 := Spare(8192, 0)])
  {
    var chain, place := [4096, 8192], map[4096 := Chained, 8192 := Chained, 12288 := Spare(8192, 0)];
    forall k | 0 <= k < |chain| ensures LinkOk(d, chain, place, k) {
      assert k == 0 || k == 1;
    }
    forall c, i | c in chain && 0 <= i < 511 ensures CellOk(d, place, c, i) {
      assert Slot(d, c, i) == if c == 8192 && i == 0 then 12288 else 0;
    }
    forall b | b in place ensures PlaceOk(d, chain, place, b) {
    }
  }

  lemma PoppedIsNotNext(d: Image)
    requires TwoLinks(d)
    ensures HeadOk(d) && Allocated(d).1 == 4096
    ensures var d1 := Allocated(d).0;
      && HeadOk(d1) && OnDevice(d1, 4096) && HeadOk(Freed(d1, 4096))
      && Allocated(Freed(d1, 4096)).1 == 12288
  {
    assert Slot(d, 4096, 511) == 8192;
    assert FirstUsed(d, 4096, 0) == 511;
    var d0 := PutSlot(d, 4096, 511, 0);
    PutSlotIs(d, 4096, 511, 0);
    SameSlots(d, d0, {4096}, 0);
    SameSlots(d, d0, {4096}, 8192);
    var d1 := PutSlot(d0, 0, 0, 8192);
    PutSlotIs(d0, 0, 0, 8192);
    SameSlots(d0, d1, {0}, 8192);
    assert Head(d1) == 8192 && FirstUnused(d1, 8192, 0) == 1;
    FreedEntry(d1, 4096, 1);
    assert FirstUsed(Freed(d1, 4096), 8192, 0) == 0;
  }

  /** The device is sound; its first block is allocated and freed, and then the third one is handed out. */
  lemma FreedIsNotNext()
    ensures var d := TwoLinkImage();
      && WellFormed(d, [4096, 8192], map[4096 := Chained, 8192 := Chained, 12288 := Spare(8192, 0)])
      && HeadOk(d) && Allocated(d).1 == 4096
    ensures var d1 := Allocated(TwoLinkImage()).0;
      && HeadOk(d1) && OnDevice(d1, 4096) && HeadOk(Freed(d1, 4096)) && Allocated(Freed(d1, 4096)).1 == 12288
  {
    TwoLinkImageIs();
    TwoLinksSound(TwoLinkImage());
    PoppedIsNotNext(TwoLinkImage());
  }

  // ----- the effect on a client -----

  /** r has been taken out of the free blocks, none of it by writing anywhere else. */
  ghost predicate Took(d: Image, place: Places, r: nat, d': Image, place': Places)
  {
    && (r == 0 <==> place == map[]) && (r != 0 ==> r in place && OnDevice(d, r)) && place' == place - {r}
    && SameBut(d, d', place.Keys + {0})
  }

  /** b has been added to the free blocks. */
  ghost predicate GaveBack(d: Image, place: Places, b: nat, d': Image, place': Places)
  {
    place'.Keys == place.Keys + {b} && SameBut(d, d', place.Keys + {0, b})
  }

  /** Free blocks that are not in the chain hold nothing but zeros, as on a device that was blank before mkfs. */
  ghost predicate CleanSpares(d: Image, place: Places)
  {
    forall b {:trigger Blank(d, b)} :: b in place && place[b].Spare? ==> Blank(d, b)
  }

  lemma AllocateEffect(d: Image, chain: seq<nat>, place: Places)
    requires WellFormed(d, chain, place)
    ensures HeadOk(d) && WellFormed(Allocated(d).0, ChainAfterAllocate(d, chain), place - {Allocated(d).1})
    ensures Took(d, place, Allocated(d).1, Allocated(d).0, place - {Allocated(d).1})
    ensures CleanSpares(d, place) ==>
              && CleanSpares(Allocated(d).0, place - {Allocated(d).1})
              && (Allocated(d).1 != 0 ==> Blank(Allocated(d).0, Allocated(d).1))
  {
    AllocateTakes(d, chain, place);
    HeadLink(d, chain, place);
    var (d', r) := Allocated(d);
    SameMore(d, d', {Head(d), 0}, place.Keys + {0});
    if CleanSpares(d, place) {
      forall b | b in place && place[b].Spare? ensures Blank(d', b) {
        assert Blank(d, b) && PlaceOk(d, chain, place, b);
        SameSlots(d, d', {Head(d), 0}, b);
      }
    }
  }

  lemma FreeEffect(d: Image, chain: seq<nat>, place: Places, b: nat)
    requires WellFormed(d, chain, place) && CanFree(d, place, b)
    ensures HeadOk(d)
      && WellFormed(Freed(d, b), ChainAfterFree(d, chain, b), PlaceAfterFree(d, place, b))
    ensures GaveBack(d, place, b, Freed(d, b), PlaceAfterFree(d, place, b))
    ensures CleanSpares(d, place) && Blank(d, b) ==> CleanSpares(Freed(d, b), PlaceAfterFree(d, place, b))
  {
    FreeAdds(d, chain, place, b);
    HeadLink(d, chain, place);
    var d', place' := Freed(d, b), PlaceAfterFree(d, place, b);
    SameMore(d, d', {Head(d), 0, b}, place.Keys + {0, b});
    if CleanSpares(d, place) && Blank(d, b) {
      forall x | x in place' && place'[x].Spare? ensures Blank(d', x) {
        if x == b {
          PutSlotIs(d, Head(d), FirstUnused(d, Head(d), 0), b);
          SameSlots(d, d', {Head(d)}, b);
        } else {
          assert Blank(d, x) && PlaceOk(d, chain, place, x);
          SameSlots(d, d', {Head(d), 0, b}, x);
        }
      }
    }
  }
}
